/** The registry's value entities (minipraktomat/data): tutors, students,
    solutions, reviews and the tutor selection. Their fields are final in
    the source, so they are datatypes; the back-references to the registry
    (used only by the averages, which live on the registry here) and the
    solution's reference to its task (used only by `hashCode` and
    `toString`) are replaced by the task's id. */
module Data {
  import opened Validations

  /** A tutor is identified by its name. */
  datatype Tutor = Tutor(name: string)

  /** A student; its identity is the matriculation id. */
  datatype Student = Student(name: string, id: int, tutor: Tutor)

  /** A review: text, grade, the reviewing tutor and the solution as it was
      before it was corrected. */
  datatype Review = Review(text: string, grade: int, tutor: Tutor, solution: Solution)

  /** A submitted solution of `student` to the task with id `taskId`, with
      its review once it is corrected. */
  datatype Solution = Solution(text: string, taskId: int, student: Student, review: Option<Review>)

  /** The currently selected tutor, if any. */
  datatype Selection = Selection(tutor: Option<Tutor>)

  // ---------------------------------------------------------------------
  // Java String.compareTo: the difference of the first differing
  // characters, or of the lengths when one string is a prefix of the other.

  function CompareStrings(a: string, b: string): (c: int)
    decreases |a|
  {
    if a == [] || b == [] then |a| - |b|
    else if a[0] != b[0] then a[0] as int - b[0] as int
    else CompareStrings(a[1..], b[1..])
  }

  /** The string order is zero exactly on equal strings and antisymmetric. */
  lemma {:induction false} CompareStringsLaws(a: string, b: string)
    ensures CompareStrings(a, b) == 0 <==> a == b
    ensures CompareStrings(a, b) == -CompareStrings(b, a)
    decreases |a|
  {
    if a != [] && b != [] && a[0] == b[0] {
      CompareStringsLaws(a[1..], b[1..]);
      if a[1..] == b[1..] {
        assert a == [a[0]] + a[1..] && b == [b[0]] + b[1..];
      }
    } else if a != [] && b != [] {
      assert a[0] as int - b[0] as int != 0;
    }
  }

  // ---------------------------------------------------------------------
  // Tutor identity (Tutor.java): ordered and compared by name.

  /** `Tutor.compareTo`. */
  function CompareTutors(a: Tutor, b: Tutor): (c: int)
  {
    CompareStrings(a.name, b.name)
  }

  /** `Tutor.equals`. */
  predicate TutorEquals(a: Tutor, b: Tutor)
  {
    a == b || CompareTutors(a, b) == 0
  }

  /** Tutors are equal exactly when their names are; the order is
      antisymmetric. */
  lemma TutorIdentity(a: Tutor, b: Tutor)
    ensures TutorEquals(a, b) <==> a.name == b.name
    ensures TutorEquals(a, b) <==> a == b
    ensures CompareTutors(a, b) == -CompareTutors(b, a)
  {
    CompareStringsLaws(a.name, b.name);
  }

  // ---------------------------------------------------------------------
  // Student identity (Student.java): ordered, compared and hashed by id.

  /** `Student.compareTo`. */
  function CompareStudents(a: Student, b: Student): (c: int)
    ensures c < 0 <==> a.id < b.id
    ensures c == 0 <==> a.id == b.id
  {
    a.id - b.id
  }

  /** `Student.equals`. */
  predicate StudentEquals(a: Student, b: Student)
  {
    a == b || CompareStudents(a, b) == 0
  }

  /** `Student.hashCode`. */
  function StudentHash(s: Student): int
  {
    s.id
  }

  lemma StudentIdentity(a: Student, b: Student)
    ensures StudentEquals(a, b) <==> a.id == b.id
    ensures StudentEquals(a, b) ==> StudentHash(a) == StudentHash(b)
    ensures CompareStudents(a, b) == -CompareStudents(b, a)
  {
  }

  // ---------------------------------------------------------------------
  // Solution (Solution.java).

  /** The three-argument constructor: no review yet. */
  function NewSolution(text: string, taskId: int, student: Student): (s: Solution)
    ensures !IsCorrected(s)
    ensures s.text == text && s.taskId == taskId && s.student == student
  {
    Solution(text, taskId, student, None)
  }

  /** The four-argument constructor: with a review. */
  function ReviewedSolution(text: string, taskId: int, student: Student, review: Review): (s: Solution)
    ensures IsCorrected(s) && GetReview(s) == review
    ensures s.text == text && s.taskId == taskId && s.student == student
  {
    Solution(text, taskId, student, Some(review))
  }

  /** `isCorrected`. */
  predicate IsCorrected(s: Solution)
  {
    s.review.IsDefined()
  }

  /** `getReview`: the source's `get` throws on an uncorrected solution. */
  function GetReview(s: Solution): (r: Review)
    requires IsCorrected(s)
    ensures s.review == Some(r)
  {
    s.review.Get()
  }

  /** `correct`: a corrected copy with the same text, task and student. */
  function Correct(s: Solution, review: Review): (c: Solution)
    ensures c == ReviewedSolution(s.text, s.taskId, s.student, review)
  {
    Solution(s.text, s.taskId, s.student, Some(review))
  }

  /** Correcting keeps the solution's identity, and a second correction
      replaces the first review. */
  lemma CorrectLaws(s: Solution, r1: Review, r2: Review)
    ensures IsCorrected(Correct(s, r1)) && GetReview(Correct(s, r1)) == r1
    ensures SolutionEquals(Correct(s, r1), s)
    ensures Correct(Correct(s, r1), r2) == Correct(s, r2)
  {
  }

  /** `Solution.compareTo`: the students' id difference. */
  function CompareSolutions(a: Solution, b: Solution): (c: int)
    ensures c == CompareStudents(a.student, b.student)
  {
    a.student.id - b.student.id
  }

  /** `Solution.equals`. */
  predicate SolutionEquals(a: Solution, b: Solution)
  {
    a == b || CompareSolutions(a, b) == 0
  }

  /** `Solution.hashCode`, from the task's hash (its id) and the student's. */
  function SolutionHash(s: Solution): int
  {
    s.taskId * 37 + StudentHash(s.student) * 53
  }

  /** Solutions are equal exactly when their students' ids are, whatever
      their text, task or review; equal solutions of one task hash alike. */
  lemma SolutionIdentity(a: Solution, b: Solution)
    ensures SolutionEquals(a, b) <==> a.student.id == b.student.id
    ensures SolutionEquals(a, b) <==> StudentEquals(a.student, b.student)
    ensures SolutionEquals(a, b) && a.taskId == b.taskId ==> SolutionHash(a) == SolutionHash(b)
    ensures CompareSolutions(a, b) == -CompareSolutions(b, a)
  {
  }

  // ---------------------------------------------------------------------
  // Selection (Selection.java).

  /** `emptySelection`. */
  function EmptySelection(): (s: Selection)
    ensures s.tutor.None?
  {
    Selection(None)
  }

  /** `selectTutor`: a new selection holding `t`. */
  function SelectTutor(s: Selection, t: Tutor): (r: Selection)
    ensures r.tutor == Some(t)
  {
    Selection(Some(t))
  }

  /** The result of selecting does not depend on the old selection. */
  lemma SelectTutorForgets(s1: Selection, s2: Selection, t: Tutor)
    ensures SelectTutor(s1, t) == SelectTutor(s2, t)
  {
  }

  // ---------------------------------------------------------------------
  // Grade sums: the integer part of `averageGrade`.

  /** The grade a solution contributes (uncorrected ones contribute none). */
  function GradeOf(s: Solution): int
  {
    if s.review.Some? then s.review.value.grade else 0
  }

  /** The sum of the grades of a set of solutions. */
  ghost function GradeSum(sols: set<Solution>): int
    decreases |sols|
  {
    if sols == {} then 0
    else
      var s :| s in sols;
      GradeOf(s) + GradeSum(sols - {s})
  }

  /** The sum does not depend on which element is taken first. */
  lemma {:induction false} GradeSumRemove(sols: set<Solution>, x: Solution)
    requires x in sols
    ensures GradeSum(sols) == GradeOf(x) + GradeSum(sols - {x})
    decreases |sols|
  {
    var s :| s in sols && GradeSum(sols) == GradeOf(s) + GradeSum(sols - {s});
    if s != x {
      GradeSumRemove(sols - {s}, x);
      GradeSumRemove(sols - {x}, s);
      assert sols - {s} - {x} == sols - {x} - {s};
    }
  }

  lemma GradeSumAdd(sols: set<Solution>, x: Solution)
    requires x !in sols
    ensures GradeSum(sols + {x}) == GradeOf(x) + GradeSum(sols)
  {
    GradeSumRemove(sols + {x}, x);
    assert sols + {x} - {x} == sols;
  }

  /** When every grade lies in 1..5, so does the average. */
  lemma {:induction false} GradeSumBounds(sols: set<Solution>)
    requires forall s :: s in sols ==> 1 <= GradeOf(s) <= 5
    ensures |sols| <= GradeSum(sols) <= 5 * |sols|
    decreases |sols|
  {
    if sols != {} {
      var s :| s in sols;
      GradeSumRemove(sols, s);
      GradeSumBounds(sols - {s});
    }
  }

  /** `averageGrade` without the division: `NoGrade` stands for the
      source's -1, otherwise the grade sum and the number of reviews. */
  datatype GradeAverage = NoGrade | Average(gradeSum: int, reviews: nat)

  /** The average of a set of corrected solutions. */
  ghost function AverageOf(graded: set<Solution>): (r: GradeAverage)
    ensures r.NoGrade? <==> graded == {}
    ensures r.Average? ==> r.reviews == |graded|
  {
    if graded == {} then NoGrade else Average(GradeSum(graded), |graded|)
  }

  /** With grades in 1..5 an average lies between 1 and 5. */
  lemma AverageBounds(graded: set<Solution>)
    requires forall s :: s in graded ==> 1 <= GradeOf(s) <= 5
    ensures AverageOf(graded).Average? ==>
      AverageOf(graded).reviews <= AverageOf(graded).gradeSum <= 5 * AverageOf(graded).reviews
  {
    GradeSumBounds(graded);
  }

  // ---------------------------------------------------------------------
  // Lists built from sets (`new ArrayList<>(set)` and the filtering loops).

  /** No element occurs twice. */
  predicate Distinct<T(==)>(s: seq<T>)
  {
    forall i, j :: 0 <= i < j < |s| ==> s[i] != s[j]
  }

  /** The elements of a list, as a set. */
  function Elems<T>(s: seq<T>): set<T>
  {
    set x | x in s
  }

  /** The elements of a prefix one longer. */
  lemma ElemsExtend<T>(s: seq<T>, k: nat)
    requires k < |s|
    ensures Elems(s[..k + 1]) == Elems(s[..k]) + {s[k]}
  {
    assert s[..k + 1] == s[..k] + [s[k]];
  }

  /** Two lists without repetitions and without a common element join into
      one without repetitions. */
  lemma DistinctConcat<T>(a: seq<T>, b: seq<T>)
    requires Distinct(a) && Distinct(b)
    requires forall x :: x in a ==> x !in b
    ensures Distinct(a + b)
  {
    forall i, j | 0 <= i < j < |a + b| ensures (a + b)[i] != (a + b)[j] {
      if i < |a| && j >= |a| {
        assert (a + b)[i] in a && (a + b)[j] == b[j - |a|];
      }
    }
  }

  /** A list without repetitions is as long as its set of elements. */
  lemma {:induction false} DistinctCard<T>(s: seq<T>)
    requires Distinct(s)
    ensures |Elems(s)| == |s|
  {
    if s != [] {
      var init := s[..|s| - 1];
      assert Distinct(init);
      DistinctCard(init);
      assert s == init + [s[|s| - 1]];
      assert Elems(s) == Elems(init) + {s[|s| - 1]};
      assert s[|s| - 1] !in Elems(init) by {
        forall i | 0 <= i < |init| ensures init[i] != s[|s| - 1] {
          assert init[i] == s[i];
        }
      }
    }
  }

  /** A list holding each element of `s` once, in some order. */
  method Enumerate<T(==)>(s: set<T>) returns (r: seq<T>)
    ensures Distinct(r) && Elems(r) == s && |r| == |s|
  {
    r := [];
    var rest := s;
    while rest != {}
      invariant rest <= s
      invariant Distinct(r) && Elems(r) == s - rest
      decreases |rest|
    {
      var x :| x in rest;
      assert Elems(r + [x]) == Elems(r) + {x};
      r := r + [x];
      rest := rest - {x};
    }
    DistinctCard(r);
  }
}
