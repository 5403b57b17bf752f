/** The two table views: `load_students` and `load_evaluations`. */
module Listing {
  import opened Wrappers
  import opened Text
  import opened Records
  import Sorting

  /** `SELECT ... FROM students ORDER BY student_number`. */
  function ListStudents(st: Store): (r: seq<Student>)
    ensures multiset(r) == multiset(st.students)
    ensures Sorting.SortedBy(r, ByNumber)
  {
    SortByNumberSorted(st.students);
    Sorting.Sort(st.students, ByNumber)
  }

  /**
   * The evaluation table of the selected student: the student's id is looked up
   * by number (nothing is shown when there is none), then its evaluations are
   * listed by date, latest first.
   */
  function ListEvaluations(st: Store, selected: string): (r: seq<Evaluation>)
    ensures selected !in Numbers(st.students) ==> r == []
    ensures selected in Numbers(st.students) ==>
              && multiset(r) == multiset(EvalsOf(st.evals, Find(st.students, selected).value.id))
              && Sorting.SortedBy(r, ByDateDesc)
  {
    match Find(st.students, selected)
    case None => []
    case Some(s) =>
      SortByDateSorted(EvalsOf(st.evals, s.id));
      Sorting.Sort(EvalsOf(st.evals, s.id), ByDateDesc)
  }

  /** With the UNIQUE constraint the student listing is strictly ascending. */
  lemma ListStudentsStrict(st: Store)
    requires Wf(st)
    ensures forall i, j :: 0 <= i < j < |ListStudents(st)| ==>
              LexLe(ListStudents(st)[i].number, ListStudents(st)[j].number)
              && ListStudents(st)[i].number != ListStudents(st)[j].number
  {
    var r := ListStudents(st);
    forall i, j | 0 <= i < j < |r| ensures r[i].number != r[j].number {
      UniqueAfterPermutation(st.students, r, i, j);
    }
  }

  lemma UniqueAfterPermutation(ss: seq<Student>, r: seq<Student>, i: int, j: int)
    requires UniqueNumbers(ss) && multiset(r) == multiset(ss)
    requires 0 <= i < j < |r|
    ensures r[i].number != r[j].number
  {
    assert r[i] in multiset(ss) && r[j] in multiset(ss);
    var a :| 0 <= a < |ss| && ss[a] == r[i];
    var b :| 0 <= b < |ss| && ss[b] == r[j];
    MultisetOne(ss, a);
    DistinctIfSingle(r, i, j);
    assert a != b;
  }

  /** An element occurring once in a sequence differs from every later element. */
  lemma {:induction false} DistinctIfSingle<T>(s: seq<T>, i: int, j: int)
    requires 0 <= i < j < |s| && multiset(s)[s[i]] == 1
    ensures s[i] != s[j]
  {
    assert s == s[..j] + [s[j]] + s[j + 1..];
    assert s[i] == s[..j][i];
    assert multiset(s) == multiset(s[..j]) + multiset{s[j]} + multiset(s[j + 1..]);
    assert multiset(s[..j])[s[i]] >= 1;
  }

  /** With unique numbers, every row occurs exactly once. */
  lemma {:induction false} MultisetOne(ss: seq<Student>, a: int)
    requires UniqueNumbers(ss) && 0 <= a < |ss|
    ensures multiset(ss)[ss[a]] == 1
  {
    assert ss == ss[..a] + [ss[a]] + ss[a + 1..];
    assert forall k :: 0 <= k < a ==> ss[k].number != ss[a].number;
    assert ss[a] !in ss[..a];
    assert forall k :: a < k < |ss| ==> ss[k].number != ss[a].number;
    assert ss[a] !in ss[a + 1..];
    assert multiset(ss) == multiset(ss[..a]) + multiset{ss[a]} + multiset(ss[a + 1..]);
  }
}
