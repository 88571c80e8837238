/** The `submit <task> <student> <text>` command
    (minipraktomat/commands/SubmitCommand.java): stores a student's
    solution, replacing an uncorrected earlier one. */
module SubmitCommands {
  import opened Validations
  import opened Data
  import opened Tasks
  import opened Registry

  /** `expectedArguments`. */
  const ARGUMENTS: nat := 3

  /** Whether the registry has a task with id `taskId`. */
  predicate TaskExists(p: Praktomat, taskId: int)
    reads p
  {
    exists t :: t in p.tasks && t.id == taskId
  }

  /** Whether the registry has a student with id `studentId`. */
  predicate StudentExists(p: Praktomat, studentId: int)
    reads p
  {
    exists s :: s in p.students && s.id == studentId
  }

  /** Whether the task with id `taskId` holds a corrected solution of the
      student with id `studentId`. */
  predicate HasCorrected(p: Praktomat, taskId: int, studentId: int)
    reads p, p.tasks
  {
    exists t, x :: t in p.tasks && t.id == taskId && x in t.solutions && x.student.id == studentId && IsCorrected(x)
  }

  /** The command's answer, from the registry before it runs; the checks
      come in the source's order. */
  function SubmitResult(p: Praktomat, args: seq<string>, parseInt: string -> Option<int>): (r: Validation<string, string>)
    requires |args| == ARGUMENTS
    reads p, p.tasks
  {
    var taskId := parseInt(args[0]);
    var studentId := parseInt(args[1]);
    var text := args[2];
    if !studentId.IsDefined() || !taskId.IsDefined() then Failure("invalid number")
    else if ' ' in text then Failure("invalid text")
    else if !TaskExists(p, taskId.Get()) then Failure("task does not exist")
    else if !StudentExists(p, studentId.Get()) then Failure("student does not exist")
    else if HasCorrected(p, taskId.Get(), studentId.Get()) then Failure("solution already exists")
    else Success("")
  }

  /** A submission is accepted exactly when both ids parse, the text has no
      space, the task and the student exist and the student's solution is
      not corrected yet; an unknown task is reported before an unknown
      student. */
  lemma SubmitResultMeaning(p: Praktomat, args: seq<string>, parseInt: string -> Option<int>)
    requires |args| == ARGUMENTS
    ensures SubmitResult(p, args, parseInt).IsSuccess() <==>
      && parseInt(args[0]).Some? && parseInt(args[1]).Some?
      && ' ' !in args[2]
      && TaskExists(p, parseInt(args[0]).value)
      && StudentExists(p, parseInt(args[1]).value)
      && !HasCorrected(p, parseInt(args[0]).value, parseInt(args[1]).value)
    ensures SubmitResult(p, args, parseInt).IsSuccess() ==> SubmitResult(p, args, parseInt).GetSuccess() == ""
    ensures (&& parseInt(args[0]).Some? && parseInt(args[1]).Some? && ' ' !in args[2]
             && forall t :: t in p.tasks ==> t.id != parseInt(args[0]).value) ==>
      SubmitResult(p, args, parseInt) == Failure("task does not exist")
  {
  }

  /** The registry's student with that id. */
  ghost function StudentWithId(p: Praktomat, id: int): (s: Student)
    requires exists s :: s in p.students && s.id == id
    reads p
    ensures s in p.students && s.id == id
  {
    var s :| s in p.students && s.id == id; s
  }

  /** What `createSolution` answers, from the registry before it runs: the
      checks in the source's order, then the new, uncorrected solution. */
  ghost function Submitted(p: Praktomat, text: string, studentId: int, taskId: int): (r: Validation<string, Solution>)
    reads p, p.tasks
    ensures r.IsSuccess() <==>
      ' ' !in text && TaskExists(p, taskId) && StudentExists(p, studentId) && !HasCorrected(p, taskId, studentId)
    ensures r.IsSuccess() ==> !IsCorrected(r.GetSuccess()) && r.GetSuccess().taskId == taskId
  {
    if ' ' in text then Failure("invalid text")
    else if !TaskExists(p, taskId) then Failure("task does not exist")
    else if !StudentExists(p, studentId) then Failure("student does not exist")
    else if HasCorrected(p, taskId, studentId) then Failure("solution already exists")
    else Success(NewSolution(text, taskId, StudentWithId(p, studentId)))
  }

  /** `createSolution`. */
  method CreateSolution(p: Praktomat, text: string, studentId: int, taskId: int) returns (r: Validation<string, Solution>)
    requires p.Valid()
    modifies p.tasks
    ensures r == old(Submitted(p, text, studentId, taskId))
    ensures forall t :: t in p.tasks ==>
      t.solutions == (if r.IsSuccess() && t.id == taskId then Replaced(old(t.solutions), r.GetSuccess()) else old(t.solutions))
    ensures p.Valid()
  {
    if ' ' in text {
      return Fail("invalid text");
    }
    var task := p.FindTask(taskId);
    if !task.IsDefined() {
      return Fail("task does not exist");
    }
    var student := p.FindStudent(studentId);
    if !student.IsDefined() {
      return Fail("student does not exist");
    }
    var t := task.Get();
    assert t.Valid();
    var existing := t.FindSolution(student.Get());
    if existing.IsDefined() {
      if IsCorrected(existing.Get()) {
        return Fail("solution already exists");
      }
      t.RemoveSolution(existing.Get());
    }
    var solution := NewSolution(text, t.id, student.Get());
    t.AddSolution(solution);
    return Succeed(solution);
  }

  /** `handleParameters`: on success the task holds the new, uncorrected
      solution as the student's only one; otherwise no solution changes. */
  method Handle(p: Praktomat, args: seq<string>, parseInt: string -> Option<int>) returns (r: Validation<string, string>)
    requires |args| == ARGUMENTS
    requires p.Valid()
    modifies p.tasks
    ensures r == old(SubmitResult(p, args, parseInt))
    ensures forall t :: t in p.tasks ==>
      t.solutions == (
        if r.IsSuccess() && t.id == parseInt(args[0]).value
        then Replaced(old(t.solutions), NewSolution(args[2], t.id, StudentWithId(p, parseInt(args[1]).value)))
        else old(t.solutions))
    ensures p.Valid()
  {
    var taskId := parseInt(args[0]);
    var studentId := parseInt(args[1]);
    var text := args[2];
    if !studentId.IsDefined() || !taskId.IsDefined() {
      return Fail("invalid number");
    }
    var solution := CreateSolution(p, text, studentId.Get(), taskId.Get());
    if solution.IsFailure() {
      return Fail(solution.GetFailure());
    }
    return Succeed("");
  }
}
