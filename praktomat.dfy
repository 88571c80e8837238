/** The registry (minipraktomat/Praktomat.java): hash sets of tutors,
    students and tasks that are changed in place, and the current tutor
    selection. Set membership follows each entity's equality: tutors by
    name (which is all a tutor holds here), students by id, tasks by id.
    A `None` argument stands for the source's `null`. */
module Registry {
  import opened Validations
  import opened Data
  import opened Tasks

  /** At most one student per id. */
  ghost predicate UniqueStudentIds(students: set<Student>)
  {
    forall a, b :: a in students && b in students && a.id == b.id ==> a == b
  }

  /** The ids of a set of tasks. */
  function IdsOf(ts: set<Task>): set<int>
  {
    set t | t in ts :: t.id
  }

  /** The numbers 1 to n. */
  function UpTo(n: nat): (r: set<int>)
    ensures forall i :: i in r <==> 1 <= i <= n
    ensures |r| == n
  {
    if n == 0 then {} else UpTo(n - 1) + {n}
  }

  /** Tasks with distinct ids have as many ids as tasks. */
  lemma {:induction false} IdsOfSize(ts: set<Task>)
    requires forall a, b :: a in ts && b in ts && a.id == b.id ==> a == b
    ensures |IdsOf(ts)| == |ts|
    decreases |ts|
  {
    if ts != {} {
      var t :| t in ts;
      IdsOfSize(ts - {t});
      assert IdsOf(ts) == IdsOf(ts - {t}) + {t.id};
    }
  }

  /** The corrected solutions of the tasks `ts`. */
  ghost function AllCorrected(ts: set<Task>): set<Solution>
    reads ts
  {
    set t, s | t in ts && s in t.solutions && IsCorrected(s) :: s
  }

  /** Whose grades an average collects: one student's, or those of one
      tutor's students. */
  datatype Owner = OfStudent(student: Student) | OfTutor(tutor: Tutor)

  /** The source compares the very objects; here that is value equality. */
  predicate Selects(whose: Owner, s: Solution)
  {
    match whose
    case OfStudent(student) => s.student == student
    case OfTutor(tutor) => s.student.tutor == tutor
  }

  /** The corrected solutions of the tasks `ts` that belong to `whose`. */
  ghost function GradedIn(ts: set<Task>, whose: Owner): set<Solution>
    reads ts
  {
    set t, s | t in ts && s in t.solutions && IsCorrected(s) && Selects(whose, s) :: s
  }

  /** The elements of `xs` that belong to `whose`. */
  function Picked(xs: seq<Solution>, whose: Owner): set<Solution>
  {
    set s | s in xs && Selects(whose, s)
  }

  /** Visiting one more task of a list adds its picked corrected solutions. */
  lemma GradedInStep(all: seq<Task>, k: nat, whose: Owner, corrected: seq<Solution>)
    requires k < |all| && Elems(corrected) == CorrectedOf(all[k].solutions)
    ensures GradedIn(Elems(all[..k + 1]), whose) == GradedIn(Elems(all[..k]), whose) + Picked(corrected, whose)
  {
    ElemsExtend(all, k);
    var done := Elems(all[..k]);
    forall s | s in Picked(corrected, whose) ensures s in GradedIn(done + {all[k]}, whose) {
      assert s in Elems(corrected);
    }
    forall s | s in GradedIn(done + {all[k]}, whose) && s !in GradedIn(done, whose)
      ensures s in Picked(corrected, whose)
    {
      var t :| t in done + {all[k]} && s in t.solutions && IsCorrected(s) && Selects(whose, s);
      assert t == all[k];
      assert s in Elems(corrected);
    }
  }

  /** `gradeSum` and `reviews` are the grade sum and size of `counted`. */
  ghost predicate Tallied(counted: set<Solution>, gradeSum: int, reviews: int)
  {
    gradeSum == GradeSum(counted) && reviews == |counted|
  }

  /** Looking at one more element picks it exactly when it belongs to `whose`. */
  lemma PickedStep(xs: seq<Solution>, i: nat, whose: Owner)
    requires i < |xs|
    ensures Selects(whose, xs[i]) ==> Picked(xs[..i + 1], whose) == Picked(xs[..i], whose) + {xs[i]}
    ensures !Selects(whose, xs[i]) ==> Picked(xs[..i + 1], whose) == Picked(xs[..i], whose)
  {
    assert xs[..i + 1] == xs[..i] + [xs[i]];
  }

  /** One step of the inner loop keeps the running sum and count tallied. */
  lemma TallyStep(counted0: set<Solution>, xs: seq<Solution>, i: nat, whose: Owner, gradeSum: int, reviews: int)
    requires Distinct(xs) && i < |xs| && xs[i] !in counted0
    requires Tallied(counted0 + Picked(xs[..i], whose), gradeSum, reviews)
    ensures Selects(whose, xs[i]) ==>
      Tallied(counted0 + Picked(xs[..i + 1], whose), gradeSum + GradeOf(xs[i]), reviews + 1)
    ensures !Selects(whose, xs[i]) ==> Tallied(counted0 + Picked(xs[..i + 1], whose), gradeSum, reviews)
  {
    PickedStep(xs, i, whose);
    if Selects(whose, xs[i]) {
      assert xs[i] !in Picked(xs[..i], whose);
      GradeSumAdd(counted0 + Picked(xs[..i], whose), xs[i]);
      assert counted0 + Picked(xs[..i + 1], whose) == counted0 + Picked(xs[..i], whose) + {xs[i]};
    }
  }

  /** The inner loop of the averages: adds the grades of the picked
      solutions of one task to the running sum and count. */
  method AccumulateGrades(corrected: seq<Solution>, whose: Owner,
                          gradeSum0: int, reviews0: int, ghost counted0: set<Solution>)
    returns (gradeSum: int, reviews: int)
    requires Distinct(corrected) && forall s :: s in corrected ==> IsCorrected(s) && s !in counted0
    requires Tallied(counted0, gradeSum0, reviews0)
    ensures Tallied(counted0 + Picked(corrected, whose), gradeSum, reviews)
  {
    gradeSum, reviews := gradeSum0, reviews0;
    assert counted0 + Picked(corrected[..0], whose) == counted0;
    for i := 0 to |corrected|
      invariant Tallied(counted0 + Picked(corrected[..i], whose), gradeSum, reviews)
    {
      var s := corrected[i];
      assert s in corrected;
      TallyStep(counted0, corrected, i, whose, gradeSum, reviews);
      if Selects(whose, s) {
        gradeSum := gradeSum + GetReview(s).grade;
        reviews := reviews + 1;
      }
    }
    assert corrected[..|corrected|] == corrected;
  }

  /** A corrected solution of a task not yet visited has not been counted:
      solutions name their task, and task ids are distinct. */
  lemma NotCountedYet(all: seq<Task>, k: nat, whose: Owner, corrected: seq<Solution>)
    requires k < |all|
    requires forall i :: 0 <= i < |all| ==> all[i].Valid()
    requires forall i, j :: 0 <= i < j < |all| ==> all[i].id != all[j].id
    requires Elems(corrected) == CorrectedOf(all[k].solutions)
    ensures forall s :: s in corrected ==> s !in GradedIn(Elems(all[..k]), whose)
  {
    forall x | x in GradedIn(Elems(all[..k]), whose) ensures x.taskId != all[k].id {
      var t :| t in Elems(all[..k]) && x in t.solutions;
      var j :| 0 <= j < k && all[..k][j] == t;
      assert all[j] == t && t.Valid();
    }
    forall s | s in corrected ensures s.taskId == all[k].id {
      assert s in Elems(corrected);
      assert all[k].Valid();
    }
  }

  /** The loops of the averages over a list of tasks with distinct ids:
      the grade sum and count of the corrected solutions of `whose`. */
  method SumGrades(all: seq<Task>, whose: Owner) returns (gradeSum: int, reviews: int)
    requires forall i :: 0 <= i < |all| ==> all[i].Valid()
    requires forall i, j :: 0 <= i < j < |all| ==> all[i].id != all[j].id
    ensures Tallied(GradedIn(Elems(all), whose), gradeSum, reviews)
  {
    gradeSum, reviews := 0, 0;
    for k := 0 to |all|
      invariant Tallied(GradedIn(Elems(all[..k]), whose), gradeSum, reviews)
    {
      var corrected := all[k].GetCorrectedSolutions();
      NotCountedYet(all, k, whose, corrected);
      gradeSum, reviews := AccumulateGrades(corrected, whose, gradeSum, reviews, GradedIn(Elems(all[..k]), whose));
      GradedInStep(all, k, whose, corrected);
    }
    assert all[..|all|] == all;
  }

  class Praktomat {
    var selection: Selection
    var tutors: set<Tutor>
    var students: set<Student>
    var tasks: set<Task>

    /** The key invariants of the hash sets and the task numbering: tasks
        carry distinct ids between 1 and their count, and each is valid. */
    ghost predicate Valid()
      reads this, tasks
    {
      && UniqueStudentIds(students)
      && (forall t1, t2 :: t1 in tasks && t2 in tasks && t1.id == t2.id ==> t1 == t2)
      && (forall t :: t in tasks ==> 1 <= t.id <= |tasks|)
      && (forall t :: t in tasks ==> t.Valid())
    }

    /** Every tutor the registry refers to is registered. */
    ghost predicate Registered()
      reads this
    {
      && (selection.tutor.Some? ==> selection.tutor.value in tutors)
      && (forall s :: s in students ==> s.tutor in tutors)
    }

    /** Tasks are numbered without gaps: their ids are exactly 1 to the
        number of tasks. */
    lemma TaskIdsAreConsecutive()
      requires Valid()
      ensures IdsOf(tasks) == UpTo(|tasks|)
    {
      IdsOfSize(tasks);
      assert IdsOf(tasks) <= UpTo(|tasks|);
      assert |UpTo(|tasks|) - IdsOf(tasks)| == 0;
    }

    constructor ()
      ensures selection == EmptySelection()
      ensures tutors == {} && students == {} && tasks == {}
      ensures Valid() && Registered()
    {
      selection := EmptySelection();
      tutors := {};
      students := {};
      tasks := {};
    }

    /** `saveSelection`. */
    method SaveSelection(selection: Option<Selection>)
      modifies this
      ensures this.selection == if selection.Some? then selection.value else old(this.selection)
      ensures tutors == old(tutors) && students == old(students) && tasks == old(tasks)
    {
      if selection.Some? {
        this.selection := selection.value;
      }
    }

    /** `addTutor`. */
    method AddTutor(tutor: Option<Tutor>)
      modifies this
      ensures tutors == if tutor.Some? then old(tutors) + {tutor.value} else old(tutors)
      ensures selection == old(selection) && students == old(students) && tasks == old(tasks)
    {
      if tutor.Some? {
        tutors := tutors + {tutor.value};
      }
    }

    /** `addStudent`: a student whose id is taken is not added. */
    method AddStudent(student: Option<Student>)
      modifies this
      ensures students ==
        if student.Some? && !exists s :: s in old(students) && StudentEquals(s, student.value)
        then old(students) + {student.value} else old(students)
      ensures selection == old(selection) && tutors == old(tutors) && tasks == old(tasks)
      ensures old(UniqueStudentIds(students)) ==> UniqueStudentIds(students)
    {
      if student.Some? && !exists s :: s in students && StudentEquals(s, student.value) {
        students := students + {student.value};
      }
    }

    /** `addTask`: a task whose id is taken is not added. */
    method AddTask(task: Task?)
      modifies this
      ensures tasks ==
        if task != null && !exists t :: t in old(tasks) && TaskEquals(t, task)
        then old(tasks) + {task} else old(tasks)
      ensures selection == old(selection) && tutors == old(tutors) && students == old(students)
      ensures old(Valid()) && task != null && task.id == |old(tasks)| + 1 && task.Valid() ==> Valid()
    {
      if task != null && !exists t :: t in tasks && TaskEquals(t, task) {
        tasks := tasks + {task};
      }
    }

    /** `getTutors`: a fresh list of the tutors. */
    method GetTutors() returns (r: seq<Tutor>)
      ensures Distinct(r) && Elems(r) == tutors && |r| == |tutors|
    {
      r := Enumerate(tutors);
    }

    /** `getStudents`: a fresh list of the students. */
    method GetStudents() returns (r: seq<Student>)
      ensures Distinct(r) && Elems(r) == students && |r| == |students|
    {
      r := Enumerate(students);
    }

    /** `getTasks`: a fresh list of the tasks. */
    method GetTasks() returns (r: seq<Task>)
      ensures Distinct(r) && |r| == |tasks|
      ensures forall t :: t in r <==> t in tasks
    {
      r := [];
      var rest := tasks;
      while rest != {}
        invariant rest <= tasks
        invariant Distinct(r) && |r| == |tasks| - |rest|
        invariant forall t :: t in r <==> t in tasks && t !in rest
        decreases |rest|
      {
        var t :| t in rest;
        r := r + [t];
        rest := rest - {t};
      }
    }

    /** `getStudentsOfTutor`: exactly the students whose tutor equals
        `tutor`. */
    method GetStudentsOfTutor(tutor: Tutor) returns (r: seq<Student>)
      ensures Distinct(r)
      ensures forall s :: s in r <==> s in students && TutorEquals(s.tutor, tutor)
    {
      r := [];
      var rest := students;
      while rest != {}
        invariant rest <= students
        invariant Distinct(r)
        invariant forall s :: s in r <==> s in students && s !in rest && TutorEquals(s.tutor, tutor)
        decreases |rest|
      {
        var s :| s in rest;
        if TutorEquals(s.tutor, tutor) {
          r := r + [s];
        }
        rest := rest - {s};
      }
    }

    /** A solution of one task is not a solution of another: it names its
        own task's id, and ids are distinct. */
    lemma OtherTasksDiffer(task: Task, t: Task, x: Solution)
      requires Valid() && task in tasks && t in tasks && t != task && x in task.solutions
      ensures x !in t.solutions
    {
      assert task.Valid() && t.Valid();
    }

    /** Visiting one more task adds its corrected solutions, none of which
        was counted before. */
    lemma AllCorrectedStep(rest: set<Task>, task: Task)
      requires Valid() && rest <= tasks && task in rest
      ensures |AllCorrected(tasks - (rest - {task}))| == |AllCorrected(tasks - rest)| + |CorrectedOf(task.solutions)|
    {
      var done := tasks - rest;
      forall y | y in CorrectedOf(task.solutions) ensures y !in AllCorrected(done) {
        forall t | t in done ensures y !in t.solutions {
          OtherTasksDiffer(task, t, y);
        }
      }
      assert tasks - (rest - {task}) == done + {task};
      assert AllCorrected(done + {task}) == AllCorrected(done) + CorrectedOf(task.solutions);
      assert AllCorrected(done) * CorrectedOf(task.solutions) == {};
    }

    /** `getSolutions`: the solutions of every task, each once. */
    method GetSolutions() returns (r: seq<Solution>)
      requires Valid()
      ensures Distinct(r)
      ensures forall s :: s in r <==> exists t :: t in tasks && s in t.solutions
    {
      r := [];
      var rest := tasks;
      while rest != {}
        invariant rest <= tasks
        invariant Distinct(r)
        invariant forall s :: s in r <==> exists t :: t in tasks && t !in rest && s in t.solutions
        decreases |rest|
      {
        var task :| task in rest;
        var more := task.GetSolutions();
        assert forall s :: s in more <==> s in task.solutions by {
          forall s ensures s in more <==> s in Elems(more) { }
        }
        forall y | y in more ensures y !in r {
          forall t | t in tasks && t !in rest ensures y !in t.solutions {
            OtherTasksDiffer(task, t, y);
          }
        }
        DistinctConcat(r, more);
        r := r + more;
        rest := rest - {task};
      }
    }

    /** `getUncorrectedSolutionsOfTutor`: exactly the uncorrected
        solutions, over all tasks, whose student's tutor equals `tutor`. */
    method GetUncorrectedSolutionsOfTutor(tutor: Tutor) returns (r: seq<Solution>)
      requires Valid()
      ensures Distinct(r)
      ensures forall s :: s in r <==>
        (exists t :: t in tasks && s in t.solutions) && !IsCorrected(s) && TutorEquals(s.student.tutor, tutor)
    {
      r := [];
      var rest := tasks;
      while rest != {}
        invariant rest <= tasks
        invariant Distinct(r)
        invariant forall s :: s in r <==>
          (exists t :: t in tasks && t !in rest && s in t.solutions) && !IsCorrected(s) && TutorEquals(s.student.tutor, tutor)
        decreases |rest|
      {
        var task :| task in rest;
        var uncorrected := task.GetUncorrectedSolutions();
        var i := 0;
        while i < |uncorrected|
          invariant 0 <= i <= |uncorrected|
          invariant Distinct(r)
          invariant forall s :: s in r <==>
            ((exists t :: t in tasks && t !in rest && s in t.solutions) || s in uncorrected[..i])
            && !IsCorrected(s) && TutorEquals(s.student.tutor, tutor)
        {
          assert uncorrected[i] in Elems(uncorrected);
          assert uncorrected[..i + 1] == uncorrected[..i] + [uncorrected[i]];
          if TutorEquals(uncorrected[i].student.tutor, tutor) {
            var y := uncorrected[i];
            forall t | t in tasks && t !in rest ensures y !in t.solutions {
              OtherTasksDiffer(task, t, y);
            }
            forall j | 0 <= j < i ensures uncorrected[..i][j] != y { }
            DistinctConcat(r, [y]);
            r := r + [y];
          }
          i := i + 1;
        }
        assert forall s :: s in uncorrected <==> s in task.solutions && !IsCorrected(s) by {
          forall s ensures s in uncorrected <==> s in Elems(uncorrected) { }
        }
        assert uncorrected[..i] == uncorrected;
        rest := rest - {task};
      }
    }

    /** `getReviews`: the reviews of every task, one per corrected
        solution. */
    method GetReviews() returns (r: seq<Review>)
      requires Valid()
      ensures |r| == |AllCorrected(tasks)|
      ensures forall v :: v in r <==>
        exists t, s :: t in tasks && s in CorrectedOf(t.solutions) && GetReview(s) == v
    {
      r := [];
      var rest := tasks;
      while rest != {}
        invariant rest <= tasks
        invariant |r| == |AllCorrected(tasks - rest)|
        invariant forall v :: v in r <==>
          exists t, s :: t in tasks && t !in rest && s in CorrectedOf(t.solutions) && GetReview(s) == v
        decreases |rest|
      {
        var task :| task in rest;
        AllCorrectedStep(rest, task);
        var more := task.GetReviews();
        r := r + more;
        rest := rest - {task};
      }
      assert tasks - rest == tasks;
    }

    /** `findTutor`: the tutor with that name, if one is registered. */
    method FindTutor(name: string) returns (r: Option<Tutor>)
      ensures r.IsDefined() <==> exists t :: t in tutors && t.name == name
      ensures r.IsDefined() ==> r.Get() in tutors && r.Get().name == name
      ensures r.IsDefined() <==> Tutor(name) in tutors
    {
      var rest := tutors;
      while rest != {}
        invariant rest <= tutors
        invariant forall t :: t in tutors - rest ==> t.name != name
        decreases |rest|
      {
        var t :| t in rest;
        if t.name == name {
          return Some(t);
        }
        rest := rest - {t};
      }
      return None;
    }

    /** `findStudent`: the student with that id, if one is registered. */
    method FindStudent(id: int) returns (r: Option<Student>)
      ensures r.IsDefined() <==> exists s :: s in students && s.id == id
      ensures r.IsDefined() ==> r.Get() in students && r.Get().id == id
    {
      var rest := students;
      while rest != {}
        invariant rest <= students
        invariant forall s :: s in students - rest ==> s.id != id
        decreases |rest|
      {
        var s :| s in rest;
        if s.id == id {
          return Some(s);
        }
        rest := rest - {s};
      }
      return None;
    }

    /** `findTask`: the task with that id, if there is one. */
    method FindTask(id: int) returns (r: Option<Task>)
      ensures r.IsDefined() <==> exists t :: t in tasks && t.id == id
      ensures r.IsDefined() ==> r.Get() in tasks && r.Get().id == id
    {
      var rest := tasks;
      while rest != {}
        invariant rest <= tasks
        invariant forall t :: t in tasks - rest ==> t.id != id
        decreases |rest|
      {
        var t :| t in rest;
        if t.id == id {
          return Some(t);
        }
        rest := rest - {t};
      }
      return None;
    }

    /** `getSolutionsByStudent`: the student's solution of each task that
        has one; no two of them belong to the same task. */
    method GetSolutionsByStudent(student: Student) returns (r: seq<Solution>)
      requires Valid()
      ensures forall s :: s in r <==> (exists t :: t in tasks && s in t.solutions) && StudentEquals(s.student, student)
      ensures forall i, j :: 0 <= i < j < |r| ==> r[i].taskId != r[j].taskId
      ensures |r| <= |tasks|
    {
      r := [];
      var rest := tasks;
      while rest != {}
        invariant rest <= tasks
        invariant |r| <= |tasks| - |rest|
        invariant forall s :: s in r <==> (exists t :: t in tasks && t !in rest && s in t.solutions) && StudentEquals(s.student, student)
        invariant forall s :: s in r ==> exists t :: t in tasks && t !in rest && s.taskId == t.id
        invariant forall i, j :: 0 <= i < j < |r| ==> r[i].taskId != r[j].taskId
        decreases |rest|
      {
        var task :| task in rest;
        var found := task.FindSolution(student);
        if found.IsDefined() {
          var s := found.Get();
          assert task.Valid();
          forall x | x in r ensures x.taskId != s.taskId {
            var t :| t in tasks && t !in rest && x.taskId == t.id;
          }
          forall x | x in task.solutions && StudentEquals(x.student, student) ensures x == s {
            assert SolutionEquals(x, s);
          }
          r := r + [s];
        }
        rest := rest - {task};
      }
    }

    /** The shared loop of `Student.averageGrade` and `Tutor.averageGrade`
        without the division: the grade sum and count of the corrected
        solutions that belong to `whose`, or `NoGrade` (the source's -1)
        when there are none. */
    method AverageGradeWhere(whose: Owner) returns (r: GradeAverage)
      requires Valid()
      ensures r == AverageOf(GradedIn(tasks, whose))
    {
      var all := GetTasks();
      forall i | 0 <= i < |all| ensures all[i].Valid() {
        assert all[i] in tasks;
      }
      forall i, j | 0 <= i < j < |all| ensures all[i].id != all[j].id {
        assert all[i] in tasks && all[j] in tasks;
      }
      var gradeSum, reviews := SumGrades(all, whose);
      assert Elems(all) == tasks;
      if reviews == 0 {
        r := NoGrade;
      } else {
        r := Average(gradeSum, reviews);
      }
    }

    /** `Student.averageGrade`: the corrected solutions of this very
        student. */
    method StudentAverageGrade(student: Student) returns (r: GradeAverage)
      requires Valid()
      ensures r == AverageOf(GradedIn(tasks, OfStudent(student)))
    {
      r := AverageGradeWhere(OfStudent(student));
    }

    /** `Tutor.averageGrade`: the corrected solutions of the tutor's
        students. */
    method TutorAverageGrade(tutor: Tutor) returns (r: GradeAverage)
      requires Valid()
      ensures r == AverageOf(GradedIn(tasks, OfTutor(tutor)))
    {
      r := AverageGradeWhere(OfTutor(tutor));
    }
  }
}
