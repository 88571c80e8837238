/** A task of the registry (minipraktomat/data/Task.java): a fixed text and
    id, and a set of solutions that is changed in place. The source keeps
    the solutions in a hash set whose equality is the student's id, so the
    set holds at most one solution per student. */
module Tasks {
  import opened Validations
  import opened Data

  /** The corrected solutions of a set. */
  function CorrectedOf(sols: set<Solution>): set<Solution>
  {
    set s | s in sols && IsCorrected(s)
  }

  /** The uncorrected solutions of a set. */
  function UncorrectedOf(sols: set<Solution>): set<Solution>
  {
    set s | s in sols && !IsCorrected(s)
  }

  /** Corrected and uncorrected solutions split the set in two. */
  lemma Partition(sols: set<Solution>)
    ensures CorrectedOf(sols) + UncorrectedOf(sols) == sols
    ensures CorrectedOf(sols) * UncorrectedOf(sols) == {}
    ensures |CorrectedOf(sols)| + |UncorrectedOf(sols)| == |sols|
  {
    assert CorrectedOf(sols) + UncorrectedOf(sols) == sols;
  }

  /** At most one solution per student id, as the hash set's equality
      allows. */
  ghost predicate OnePerStudent(sols: set<Solution>)
  {
    forall a, b :: a in sols && b in sols && SolutionEquals(a, b) ==> a == b
  }

  /** The solutions after `s` took the place of the one by the same
      student, if any (a removal followed by an addition). */
  function Replaced(sols: set<Solution>, s: Solution): set<Solution>
  {
    (set x | x in sols && !SolutionEquals(x, s)) + {s}
  }

  /** Afterwards `s` is its student's only solution and every other
      student's solution stays; the set keeps one solution per student, and
      its size grows only when the student had none. */
  lemma ReplacedLaws(sols: set<Solution>, s: Solution)
    ensures s in Replaced(sols, s)
    ensures forall x :: x in Replaced(sols, s) && x.student.id == s.student.id ==> x == s
    ensures forall x :: x in sols && x.student.id != s.student.id ==> x in Replaced(sols, s)
    ensures Replaced(sols, s) <= sols + {s}
    ensures OnePerStudent(sols) ==> OnePerStudent(Replaced(sols, s))
    ensures (forall x :: x in sols ==> x.student.id != s.student.id) ==> Replaced(sols, s) == sols + {s}
    ensures OnePerStudent(sols) && (exists x :: x in sols && x.student.id == s.student.id) ==>
      |Replaced(sols, s)| == |sols|
  {
    if forall x :: x in sols ==> x.student.id != s.student.id {
      ReplacedAdds(sols, s);
    }
    if OnePerStudent(sols) && exists x :: x in sols && x.student.id == s.student.id {
      var x :| x in sols && x.student.id == s.student.id;
      ReplacedSwaps(sols, s, x);
    }
  }

  /** A student without a solution gets `s` added. */
  lemma ReplacedAdds(sols: set<Solution>, s: Solution)
    requires forall x :: x in sols ==> x.student.id != s.student.id
    ensures Replaced(sols, s) == sols + {s}
  {
    assert (set y | y in sols && !SolutionEquals(y, s)) == sols;
  }

  /** A student's solution `x` is swapped for `s`. */
  lemma ReplacedSwaps(sols: set<Solution>, s: Solution, x: Solution)
    requires OnePerStudent(sols) && x in sols && x.student.id == s.student.id
    ensures |Replaced(sols, s)| == |sols|
  {
    assert (set y | y in sols && !SolutionEquals(y, s)) == sols - {x};
  }

  /** The solution of the student with id `studentId`. */
  ghost function SolutionBy(sols: set<Solution>, studentId: int): (s: Solution)
    requires exists x :: x in sols && x.student.id == studentId
    ensures s in sols && s.student.id == studentId
  {
    var x :| x in sols && x.student.id == studentId; x
  }

  class Task {
    const text: string
    const id: int
    var solutions: set<Solution>

    /** One solution per student, each naming this task. */
    ghost predicate Valid()
      reads this
    {
      && OnePerStudent(solutions)
      && (forall s :: s in solutions ==> s.taskId == id)
    }

    constructor (text: string, id: int)
      ensures this.text == text && this.id == id
      ensures solutions == {}
      ensures Valid()
    {
      this.text := text;
      this.id := id;
      solutions := {};
    }

    /** `getSolutions`: a list holding each solution once. */
    method GetSolutions() returns (r: seq<Solution>)
      ensures Distinct(r) && Elems(r) == solutions
    {
      r := Enumerate(solutions);
    }

    /** `getCorrectedSolutions`. */
    method GetCorrectedSolutions() returns (r: seq<Solution>)
      ensures Distinct(r) && Elems(r) == CorrectedOf(solutions)
      ensures forall s :: s in r <==> s in solutions && IsCorrected(s)
      ensures |r| == |CorrectedOf(solutions)|
    {
      r := [];
      var rest := solutions;
      while rest != {}
        invariant rest <= solutions
        invariant Distinct(r)
        invariant forall x :: x in r <==> x in solutions && x !in rest && IsCorrected(x)
        decreases |rest|
      {
        var s :| s in rest;
        if IsCorrected(s) {
          r := r + [s];
        }
        rest := rest - {s};
      }
      assert Elems(r) == CorrectedOf(solutions);
      DistinctCard(r);
    }

    /** `getUncorrectedSolutions`. */
    method GetUncorrectedSolutions() returns (r: seq<Solution>)
      ensures Distinct(r) && Elems(r) == UncorrectedOf(solutions)
      ensures forall s :: s in r <==> s in solutions && !IsCorrected(s)
    {
      r := [];
      var rest := solutions;
      while rest != {}
        invariant rest <= solutions
        invariant Distinct(r)
        invariant forall x :: x in r <==> x in solutions && x !in rest && !IsCorrected(x)
        decreases |rest|
      {
        var s :| s in rest;
        if !IsCorrected(s) {
          r := r + [s];
        }
        rest := rest - {s};
      }
      assert Elems(r) == UncorrectedOf(solutions);
    }

    /** `addSolution`: the hash set keeps an equal solution already present
        and adds nothing in that case. */
    method AddSolution(solution: Solution)
      modifies this
      ensures solutions ==
        if exists x :: x in old(solutions) && SolutionEquals(x, solution)
        then old(solutions) else old(solutions) + {solution}
      ensures exists x :: x in solutions && SolutionEquals(x, solution)
      ensures old(Valid()) && solution.taskId == id ==> Valid()
    {
      if !(exists x :: x in solutions && SolutionEquals(x, solution)) {
        solutions := solutions + {solution};
      }
    }

    /** `removeSolution`: removes the solution equal to the argument, that
        is the one by the same student. */
    method RemoveSolution(solution: Solution)
      modifies this
      ensures solutions == set x | x in old(solutions) && !SolutionEquals(x, solution)
      ensures old(Valid()) ==> Valid()
    {
      solutions := set x | x in solutions && !SolutionEquals(x, solution);
    }

    /** `findSolution`: the solution whose student equals `student`. */
    method FindSolution(student: Student) returns (r: Option<Solution>)
      ensures r.IsDefined() <==> exists x :: x in solutions && StudentEquals(x.student, student)
      ensures r.IsDefined() ==> r.Get() in solutions && StudentEquals(r.Get().student, student)
    {
      var rest := solutions;
      while rest != {}
        invariant rest <= solutions
        invariant forall x :: x in solutions - rest ==> !StudentEquals(x.student, student)
        decreases |rest|
      {
        var s :| s in rest;
        if StudentEquals(s.student, student) {
          return Some(s);
        }
        rest := rest - {s};
      }
      return None;
    }

    /** `getReviews`: the review of every corrected solution. */
    method GetReviews() returns (r: seq<Review>)
      ensures |r| == |CorrectedOf(solutions)|
      ensures forall s :: s in CorrectedOf(solutions) ==> GetReview(s) in r
      ensures forall v :: v in r ==> exists s :: s in CorrectedOf(solutions) && GetReview(s) == v
    {
      r := [];
      var rest := solutions;
      ghost var counted: set<Solution> := {};
      while rest != {}
        invariant rest <= solutions
        invariant forall x :: x in counted <==> x in solutions && x !in rest && IsCorrected(x)
        invariant |r| == |counted|
        invariant forall x :: x in counted ==> GetReview(x) in r
        invariant forall v :: v in r ==> exists x :: x in counted && GetReview(x) == v
        decreases |rest|
      {
        var s :| s in rest;
        if IsCorrected(s) {
          r := r + [GetReview(s)];
          counted := counted + {s};
        }
        rest := rest - {s};
      }
      assert counted == CorrectedOf(solutions);
    }

    /** `averageGrade` without the division; `NoGrade` is the source's -1
        for a task without corrected solutions. */
    method AverageGrade() returns (r: GradeAverage)
      ensures r == AverageOf(CorrectedOf(solutions))
    {
      var corrected := GetCorrectedSolutions();
      var gradeSum := 0;
      var i := 0;
      while i < |corrected|
        invariant 0 <= i <= |corrected|
        invariant gradeSum == GradeSum(Elems(corrected[..i]))
      {
        ghost var seen := corrected[..i];
        assert corrected[i] in Elems(corrected);
        assert corrected[i] !in Elems(seen);
        GradeSumAdd(Elems(seen), corrected[i]);
        assert Elems(corrected[..i + 1]) == Elems(seen) + {corrected[i]} by {
          assert corrected[..i + 1] == seen + [corrected[i]];
        }
        gradeSum := gradeSum + GetReview(corrected[i]).grade;
        i := i + 1;
      }
      assert corrected[..|corrected|] == corrected;
      if |corrected| == 0 {
        r := NoGrade;
      } else {
        r := Average(gradeSum, |corrected|);
      }
    }
  }

  /** `Task.compareTo`: the id difference. */
  function CompareTasks(a: Task, b: Task): int
  {
    a.id - b.id
  }

  /** `Task.equals`. */
  predicate TaskEquals(a: Task, b: Task)
  {
    a == b || CompareTasks(a, b) == 0
  }

  /** `Task.hashCode`. */
  function TaskHash(t: Task): int
  {
    t.id
  }

  /** Tasks are equal exactly when their ids are; equal tasks hash alike;
      the order is the order of the ids. */
  lemma TaskIdentity(a: Task, b: Task)
    ensures TaskEquals(a, b) <==> a.id == b.id
    ensures TaskEquals(a, b) ==> TaskHash(a) == TaskHash(b)
    ensures CompareTasks(a, b) < 0 <==> a.id < b.id
    ensures CompareTasks(a, b) == -CompareTasks(b, a)
  {
  }
}
