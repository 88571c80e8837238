/** The `review <task> <student> <grade> <text>` command
    (minipraktomat/commands/ReviewCommand.java): grades a student's
    solution by replacing it with a corrected copy. */
module ReviewCommands {
  import opened Validations
  import opened Data
  import opened Tasks
  import opened Registry
  import SubmitCommands
  import JavaStrings

  /** `expectedArguments`. */
  const ARGUMENTS: nat := 4

  /** Grades run from 1 to 5. */
  const MIN_GRADE := 1
  const MAX_GRADE := 5

  /** Whether the task with id `taskId` holds a solution of the student
      with id `studentId`, corrected or not. */
  predicate HasSolution(p: Praktomat, taskId: int, studentId: int)
    reads p, p.tasks
  {
    exists t, x :: t in p.tasks && t.id == taskId && x in t.solutions && x.student.id == studentId
  }

  /** The failure for a student without a solution to the task. */
  function NoSolutionMessage(student: Student): string
  {
    "(" + JavaStrings.IntToString(student.id) + "," + student.name + ") has no solution to correct"
  }

  /** The success message: "<tutor> reviewed (<id>,<name>) with grade <g>". */
  function ReviewedMessage(student: Student, grade: int): string
  {
    student.tutor.name + " reviewed (" + JavaStrings.IntToString(student.id) + "," + student.name
      + ") with grade " + JavaStrings.IntToString(grade)
  }

  /** The command's answer, from the registry before it runs; the checks
      come in the source's order. */
  ghost function ReviewResult(p: Praktomat, args: seq<string>, parseInt: string -> Option<int>): (r: Validation<string, string>)
    requires |args| == ARGUMENTS
    reads p, p.tasks
  {
    var taskId := parseInt(args[0]);
    var studentId := parseInt(args[1]);
    var grade := parseInt(args[2]);
    var text := args[3];
    if !studentId.IsDefined() || !taskId.IsDefined() || !grade.IsDefined() then Failure("invalid number")
    else if !exists s :: s in p.students && s.id == studentId.Get() then Failure("student does not exist")
    else
      var student := SubmitCommands.StudentWithId(p, studentId.Get());
      if ' ' in text then Failure("invalid text")
      else if grade.Get() < MIN_GRADE || grade.Get() > MAX_GRADE then Failure("invalid grade")
      else if !exists t :: t in p.tasks && t.id == taskId.Get() then Failure("task does not exist")
      else if !HasSolution(p, taskId.Get(), studentId.Get()) then Failure(NoSolutionMessage(student))
      else Success(ReviewedMessage(student, grade.Get()))
  }

  /** A review is accepted exactly when the numbers parse, the student and
      the task exist, the text has no space, the grade lies in 1..5 and the
      student has a solution to the task, corrected or not; an unknown
      student is reported before the text and the grade are looked at. */
  lemma ReviewResultMeaning(p: Praktomat, args: seq<string>, parseInt: string -> Option<int>)
    requires |args| == ARGUMENTS
    ensures ReviewResult(p, args, parseInt).IsSuccess() <==>
      && parseInt(args[0]).Some? && parseInt(args[1]).Some? && parseInt(args[2]).Some?
      && (exists s :: s in p.students && s.id == parseInt(args[1]).value)
      && ' ' !in args[3]
      && MIN_GRADE <= parseInt(args[2]).value <= MAX_GRADE
      && HasSolution(p, parseInt(args[0]).value, parseInt(args[1]).value)
    ensures (&& parseInt(args[0]).Some? && parseInt(args[1]).Some? && parseInt(args[2]).Some?
             && forall s :: s in p.students ==> s.id != parseInt(args[1]).value) ==>
      ReviewResult(p, args, parseInt) == Failure("student does not exist")
  {
  }

  /** The task's solutions after the review: the student's solution is
      replaced by its corrected copy. */
  ghost function Reviewed(sols: set<Solution>, student: Student, text: string, grade: int): set<Solution>
    requires exists x :: x in sols && x.student.id == student.id
  {
    var old_ := SolutionBy(sols, student.id);
    Replaced(sols, Correct(old_, Review(text, grade, student.tutor, old_)))
  }

  /** A review keeps the number of solutions, leaves the student's
      solution corrected with this grade, text and the student's tutor, and
      keeps its text. */
  lemma ReviewedLaws(sols: set<Solution>, student: Student, text: string, grade: int)
    requires OnePerStudent(sols)
    requires exists x :: x in sols && x.student.id == student.id
    ensures |Reviewed(sols, student, text, grade)| == |sols|
    ensures OnePerStudent(Reviewed(sols, student, text, grade))
    ensures forall x :: x in Reviewed(sols, student, text, grade) && x.student.id == student.id ==>
      && IsCorrected(x)
      && GetReview(x).grade == grade && GetReview(x).text == text && GetReview(x).tutor == student.tutor
      && x.text == SolutionBy(sols, student.id).text
  {
    var old_ := SolutionBy(sols, student.id);
    ReplacedLaws(sols, Correct(old_, Review(text, grade, student.tutor, old_)));
  }

  /** `createReview`. */
  method CreateReview(p: Praktomat, text: string, grade: int, student: Student, taskId: int)
    returns (r: Validation<string, Review>)
    requires p.Valid()
    modifies p.tasks
    ensures r.IsSuccess() <==>
      ' ' !in text && MIN_GRADE <= grade <= MAX_GRADE && old(HasSolution(p, taskId, student.id))
    ensures ' ' in text ==> r == Failure("invalid text")
    ensures ' ' !in text && (grade < MIN_GRADE || grade > MAX_GRADE) ==> r == Failure("invalid grade")
    ensures (&& ' ' !in text && MIN_GRADE <= grade <= MAX_GRADE
             && old(!exists t :: t in p.tasks && t.id == taskId)) ==>
      r == Failure("task does not exist")
    ensures (&& ' ' !in text && MIN_GRADE <= grade <= MAX_GRADE
             && old(exists t :: t in p.tasks && t.id == taskId) && !old(HasSolution(p, taskId, student.id))) ==>
      r == Failure(NoSolutionMessage(student))
    ensures forall t :: t in p.tasks ==>
      t.solutions == (
        if r.IsSuccess() && t.id == taskId
        then Reviewed(old(t.solutions), student, text, grade)
        else old(t.solutions))
    ensures p.Valid()
  {
    if ' ' in text {
      return Fail("invalid text");
    }
    if grade < MIN_GRADE || grade > MAX_GRADE {
      return Fail("invalid grade");
    }
    var task := p.FindTask(taskId);
    if !task.IsDefined() {
      return Fail("task does not exist");
    }
    var t := task.Get();
    assert t.Valid();
    var solution := t.FindSolution(student);
    if !solution.IsDefined() {
      return Fail(NoSolutionMessage(student));
    }
    assert solution.Get() == SolutionBy(t.solutions, student.id);
    var review := Review(text, grade, student.tutor, solution.Get());
    t.RemoveSolution(solution.Get());
    t.AddSolution(Correct(solution.Get(), review));
    return Succeed(review);
  }

  /** `handleParameters`: on success the student's solution to the task is
      replaced by its corrected copy; otherwise no solution changes. */
  method Handle(p: Praktomat, args: seq<string>, parseInt: string -> Option<int>) returns (r: Validation<string, string>)
    requires |args| == ARGUMENTS
    requires p.Valid()
    modifies p.tasks
    ensures r == old(ReviewResult(p, args, parseInt))
    ensures forall t :: t in p.tasks ==>
      t.solutions == (
        if r.IsSuccess() && t.id == parseInt(args[0]).value
        then Reviewed(old(t.solutions), SubmitCommands.StudentWithId(p, parseInt(args[1]).value), args[3], parseInt(args[2]).value)
        else old(t.solutions))
    ensures p.Valid()
  {
    var taskId := parseInt(args[0]);
    var studentId := parseInt(args[1]);
    var grade := parseInt(args[2]);
    var text := args[3];
    if !studentId.IsDefined() || !taskId.IsDefined() || !grade.IsDefined() {
      return Fail("invalid number");
    }
    var student := p.FindStudent(studentId.Get());
    if !student.IsDefined() {
      return Fail("student does not exist");
    }
    assert student.Get() == SubmitCommands.StudentWithId(p, studentId.Get());
    var review := CreateReview(p, text, grade.Get(), student.Get(), taskId.Get());
    if review.IsFailure() {
      return Fail(review.GetFailure());
    }
    return Succeed(ReviewedMessage(student.Get(), grade.Get()));
  }
}
