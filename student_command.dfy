/** The `student <name> <id>` command
    (minipraktomat/commands/StudentCommand.java): registers a student of
    the selected tutor. */
module StudentCommands {
  import opened Validations
  import opened Data
  import opened NameRules
  import opened Registry

  /** `expectedArguments`. */
  const ARGUMENTS: nat := 2

  /** Matriculation ids have five digits. */
  const MIN_ID := 10000
  const MAX_ID := 99999

  /** The command's answer, from the registry before it runs; the checks
      come in the source's order. */
  function StudentResult(p: Praktomat, args: seq<string>, parseInt: string -> Option<int>): (r: Validation<string, string>)
    requires |args| == ARGUMENTS
    reads p
  {
    if !p.selection.tutor.IsDefined() then Failure("no tutor selected")
    else if !parseInt(args[1]).IsDefined() then Failure("invalid id")
    else if !IsCorrectName(args[0]) then Failure("invalid name")
    else if parseInt(args[1]).Get() < MIN_ID || parseInt(args[1]).Get() > MAX_ID then Failure("invalid id")
    else if exists s :: s in p.students && s.id == parseInt(args[1]).Get() then Failure("duplicate id")
    else Success("")
  }

  /** A student is registered exactly when a tutor is selected, the name
      is correct and the id is a fresh five-digit number. */
  lemma StudentResultMeaning(p: Praktomat, args: seq<string>, parseInt: string -> Option<int>)
    requires |args| == ARGUMENTS
    ensures StudentResult(p, args, parseInt).IsSuccess() <==>
      && p.selection.tutor.Some?
      && parseInt(args[1]).Some?
      && IsCorrectName(args[0])
      && MIN_ID <= parseInt(args[1]).value <= MAX_ID
      && forall s :: s in p.students ==> s.id != parseInt(args[1]).value
    ensures StudentResult(p, args, parseInt).IsSuccess() ==> StudentResult(p, args, parseInt).GetSuccess() == ""
    ensures p.selection.tutor.None? ==> StudentResult(p, args, parseInt) == Failure("no tutor selected")
  {
  }

  /** `createStudent`. */
  method CreateStudent(p: Praktomat, name: string, id: int, tutor: Tutor) returns (r: Validation<string, Student>)
    modifies p
    ensures r.IsSuccess() <==>
      IsCorrectName(name) && MIN_ID <= id <= MAX_ID && !exists s :: s in old(p.students) && s.id == id
    ensures !IsCorrectName(name) ==> r == Failure("invalid name")
    ensures IsCorrectName(name) && (id < MIN_ID || id > MAX_ID) ==> r == Failure("invalid id")
    ensures IsCorrectName(name) && MIN_ID <= id <= MAX_ID && (exists s :: s in old(p.students) && s.id == id) ==>
      r == Failure("duplicate id")
    ensures r.IsSuccess() ==> r.GetSuccess() == Student(name, id, tutor)
    ensures p.students == if r.IsSuccess() then old(p.students) + {Student(name, id, tutor)} else old(p.students)
    ensures p.selection == old(p.selection) && p.tutors == old(p.tutors) && p.tasks == old(p.tasks)
  {
    if !IsCorrectName(name) {
      return Fail("invalid name");
    }
    if id < MIN_ID || id > MAX_ID {
      return Fail("invalid id");
    }
    var opt := p.FindStudent(id);
    if opt.IsDefined() {
      return Fail("duplicate id");
    }
    var student := Student(name, id, tutor);
    p.AddStudent(Some(student));
    return Succeed(student);
  }

  /** `handleParameters`: on success exactly one student, with the
      selected tutor, is added; on failure nothing changes. */
  method Handle(p: Praktomat, args: seq<string>, parseInt: string -> Option<int>) returns (r: Validation<string, string>)
    requires |args| == ARGUMENTS
    modifies p
    ensures r == old(StudentResult(p, args, parseInt))
    ensures p.students ==
      if r.IsSuccess()
      then old(p.students) + {Student(args[0], parseInt(args[1]).value, old(p.selection.tutor.value))}
      else old(p.students)
    ensures r.IsSuccess() ==> |p.students| == |old(p.students)| + 1
    ensures p.selection == old(p.selection) && p.tutors == old(p.tutors) && p.tasks == old(p.tasks)
    ensures old(p.Valid()) ==> p.Valid()
    ensures old(p.Registered()) ==> p.Registered()
  {
    var tutor := p.selection.tutor;
    if !tutor.IsDefined() {
      return Fail("no tutor selected");
    }
    var name := args[0];
    var id := parseInt(args[1]);
    if !id.IsDefined() {
      return Fail("invalid id");
    }
    var student := CreateStudent(p, name, id.Get(), tutor.Get());
    if student.IsFailure() {
      return Fail(student.GetFailure());
    }
    return Succeed("");
  }
}
