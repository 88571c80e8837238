/** The registry's commands behind one entry point
    (minipraktomat/commands/ShellCommand.java): the argument count is
    checked before the command's own handling runs. */
module ShellCommands {
  import opened Validations
  import opened Data
  import opened Tasks
  import opened Registry
  import JavaStrings
  import TutorCommands
  import StudentCommands
  import TaskCommands
  import SubmitCommands
  import ReviewCommands

  /** The state-changing commands of the registry. */
  datatype Command = TutorCommand | StudentCommand | TaskCommand | SubmitCommand | ReviewCommand

  /** `expectedArguments` of each command. */
  function ExpectedArguments(c: Command): (n: nat)
    ensures 1 <= n <= 4
  {
    match c
    case TutorCommand => TutorCommands.ARGUMENTS
    case StudentCommand => StudentCommands.ARGUMENTS
    case TaskCommand => TaskCommands.ARGUMENTS
    case SubmitCommand => SubmitCommands.ARGUMENTS
    case ReviewCommand => ReviewCommands.ARGUMENTS
  }

  /** The failure for a wrong number of arguments, naming the expected
      count. */
  function ArityFailure(expected: nat): string
  {
    "invalid number of arguments. Expected: " + JavaStrings.IntToString(expected)
  }

  /** The answer of `execute`, from the registry before it runs: the arity
      failure, or exactly the answer of the command's own handling. */
  ghost function Outcome(c: Command, p: Praktomat, args: seq<string>, parseInt: string -> Option<int>): Validation<string, string>
    reads p, p.tasks
  {
    if |args| != ExpectedArguments(c) then Failure(ArityFailure(ExpectedArguments(c)))
    else
      match c
      case TutorCommand => TutorCommands.TutorResult(args)
      case StudentCommand => StudentCommands.StudentResult(p, args, parseInt)
      case TaskCommand => TaskCommands.TaskResult(p, args)
      case SubmitCommand => SubmitCommands.SubmitResult(p, args, parseInt)
      case ReviewCommand => ReviewCommands.ReviewResult(p, args, parseInt)
  }

  /** `execute`: with the wrong number of arguments nothing changes and the
      failure names the expected count; otherwise the command's handling
      runs and changes the registry as that command does. Either way the
      registry's invariants hold afterwards. */
  method Execute(c: Command, p: Praktomat, args: seq<string>, parseInt: string -> Option<int>)
    returns (r: Validation<string, string>)
    requires p.Valid()
    modifies p, p.tasks
    ensures r == old(Outcome(c, p, args, parseInt))
    ensures |args| != ExpectedArguments(c) ==>
      && p.selection == old(p.selection) && p.tutors == old(p.tutors)
      && p.students == old(p.students) && p.tasks == old(p.tasks)
      && forall t :: t in p.tasks ==> t.solutions == old(t.solutions)
    // `tutor`: the tutor is registered and selected on success.
    ensures c == TutorCommand && |args| == ExpectedArguments(c) ==>
      && p.tutors == (if r.IsSuccess() then old(p.tutors) + {Tutor(args[0])} else old(p.tutors))
      && p.selection == (if r.IsSuccess() then SelectTutor(old(p.selection), Tutor(args[0])) else old(p.selection))
      && p.students == old(p.students) && p.tasks == old(p.tasks)
      && forall t :: t in p.tasks ==> t.solutions == old(t.solutions)
    // `student`: the student of the selected tutor is added on success.
    ensures c == StudentCommand && |args| == ExpectedArguments(c) ==>
      && p.students == (
           if r.IsSuccess()
           then old(p.students) + {Student(args[0], parseInt(args[1]).value, old(p.selection.tutor.value))}
           else old(p.students))
      && p.selection == old(p.selection) && p.tutors == old(p.tutors) && p.tasks == old(p.tasks)
      && forall t :: t in p.tasks ==> t.solutions == old(t.solutions)
    // `task`: a new, empty task with the next id is added on success.
    ensures c == TaskCommand && |args| == ExpectedArguments(c) ==>
      && (r.IsFailure() ==> p.tasks == old(p.tasks))
      && (r.IsSuccess() ==>
            exists t: Task :: fresh(t) && t.text == args[0] && t.id == |old(p.tasks)| + 1 && t.solutions == {}
              && p.tasks == old(p.tasks) + {t})
      && (r.IsSuccess() ==> IdsOf(p.tasks) == IdsOf(old(p.tasks)) + {|old(p.tasks)| + 1})
      && p.selection == old(p.selection) && p.tutors == old(p.tutors) && p.students == old(p.students)
      && forall t :: t in old(p.tasks) ==> t.solutions == old(t.solutions)
    // `submit`: the student's solution to the task is replaced on success.
    ensures c == SubmitCommand && |args| == ExpectedArguments(c) ==>
      && p.selection == old(p.selection) && p.tutors == old(p.tutors)
      && p.students == old(p.students) && p.tasks == old(p.tasks)
      && forall t :: t in p.tasks ==>
           t.solutions == (
             if r.IsSuccess() && t.id == parseInt(args[0]).value
             then Replaced(old(t.solutions), NewSolution(args[2], t.id, SubmitCommands.StudentWithId(p, parseInt(args[1]).value)))
             else old(t.solutions))
    // `review`: the student's solution to the task is corrected on success.
    ensures c == ReviewCommand && |args| == ExpectedArguments(c) ==>
      && p.selection == old(p.selection) && p.tutors == old(p.tutors)
      && p.students == old(p.students) && p.tasks == old(p.tasks)
      && forall t :: t in p.tasks ==>
           t.solutions == (
             if r.IsSuccess() && t.id == parseInt(args[0]).value
             then ReviewCommands.Reviewed(old(t.solutions), SubmitCommands.StudentWithId(p, parseInt(args[1]).value),
                                          args[3], parseInt(args[2]).value)
             else old(t.solutions))
    ensures p.Valid()
    ensures old(p.Registered()) ==> p.Registered()
  {
    if |args| != ExpectedArguments(c) {
      return Fail(ArityFailure(ExpectedArguments(c)));
    }
    match c
    case TutorCommand =>
      r := TutorCommands.Handle(p, args);
    case StudentCommand =>
      r := StudentCommands.Handle(p, args, parseInt);
    case TaskCommand =>
      r := TaskCommands.Handle(p, args);
    case SubmitCommand =>
      r := SubmitCommands.Handle(p, args, parseInt);
    case ReviewCommand =>
      r := ReviewCommands.Handle(p, args, parseInt);
  }

  /** A wrong argument count is reported whatever the arguments say and
      whatever the registry holds. */
  lemma ArityCheckComesFirst(c: Command, p: Praktomat, q: Praktomat, args: seq<string>, parseInt: string -> Option<int>)
    requires |args| != ExpectedArguments(c)
    ensures Outcome(c, p, args, parseInt) == Outcome(c, q, args, parseInt)
    ensures Outcome(c, p, args, parseInt).IsFailure()
  {
  }
}
