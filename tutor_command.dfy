/** The `tutor <name>` command (minipraktomat/commands/TutorCommand.java):
    finds or creates the tutor and selects it. */
module TutorCommands {
  import opened Validations
  import opened Data
  import opened NameRules
  import opened Registry

  /** `expectedArguments`. */
  const ARGUMENTS: nat := 1

  /** The command's answer: an empty success for a correct name. */
  function TutorResult(args: seq<string>): (r: Validation<string, string>)
    requires |args| == ARGUMENTS
    ensures r.IsSuccess() <==> IsCorrectName(args[0])
    ensures r.IsSuccess() ==> r.GetSuccess() == ""
    ensures r.IsFailure() ==> r.GetFailure() == "invalid name"
  {
    if IsCorrectName(args[0]) then Success("") else Failure("invalid name")
  }

  /** `createTutor`: the registered tutor of that name, registering a new
      one if there is none. */
  method CreateTutor(p: Praktomat, name: string) returns (r: Validation<string, Tutor>)
    modifies p
    ensures !IsCorrectName(name) ==> r == Failure("invalid name") && p.tutors == old(p.tutors)
    ensures IsCorrectName(name) ==> r == Success(Tutor(name)) && p.tutors == old(p.tutors) + {Tutor(name)}
    ensures p.selection == old(p.selection) && p.students == old(p.students) && p.tasks == old(p.tasks)
  {
    if !IsCorrectName(name) {
      return Fail("invalid name");
    }
    var opt := p.FindTutor(name);
    if opt.IsDefined() {
      return opt.ToValidation();
    }
    var tutor := Tutor(name);
    p.AddTutor(Some(tutor));
    return Succeed(tutor);
  }

  /** `handleParameters`: on a correct name the tutor is registered (no
      second one for a known name) and selected; otherwise nothing
      changes. */
  method Handle(p: Praktomat, args: seq<string>) returns (r: Validation<string, string>)
    requires |args| == ARGUMENTS
    modifies p
    ensures r == TutorResult(args)
    ensures r.IsFailure() ==> p.tutors == old(p.tutors) && p.selection == old(p.selection)
    ensures r.IsSuccess() ==>
      p.tutors == old(p.tutors) + {Tutor(args[0])} && p.selection == SelectTutor(old(p.selection), Tutor(args[0]))
    ensures Tutor(args[0]) in old(p.tutors) ==> p.tutors == old(p.tutors)
    ensures p.students == old(p.students) && p.tasks == old(p.tasks)
    ensures old(p.Valid()) ==> p.Valid()
    ensures old(p.Registered()) ==> p.Registered()
  {
    var tutor := CreateTutor(p, args[0]);
    if tutor.IsFailure() {
      return Fail(tutor.GetFailure());
    }
    p.SaveSelection(Some(SelectTutor(p.selection, tutor.GetSuccess())));
    return Succeed("");
  }
}
