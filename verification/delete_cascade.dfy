/**
 * Deleting a student leaves the student's evaluations behind.
 *
 * The application's schema declares `evaluations.student_id` a foreign key
 * without ON DELETE CASCADE and never turns foreign keys on, so
 * `DELETE FROM students` removes the student row alone. The repository's
 * tests build the schema with ON DELETE CASCADE and foreign keys on, which
 * is the evident intent: a student's evaluations go with the student.
 *
 * `Operations.DeleteStudent` is the delete as written and
 * `Operations.DeleteStudentCascade` the intended one. Here: the as-written
 * delete leaves orphan evaluations; the intended one keeps every evaluation
 * owned; the two cannot be told apart through the student list, the
 * evaluation list or the export, because ids are never reused.
 */
module DeleteCascade {
  import opened Wrappers
  import opened Records
  import Dates
  import Listing
  import Sorting
  import CsvExchange
  import Operations

  /** Every evaluation row belongs to a student row. */
  predicate NoOrphans(st: Store)
  {
    forall e :: e in st.evals ==> exists s :: s in st.students && s.id == e.studentId
  }

  /** As written: every evaluation of the deleted student stays, and no student owns it any more. */
  lemma DeleteLeavesOrphans(st: Store, sel: string)
    requires Wf(st) && sel in Numbers(st.students)
    ensures var owner := Find(st.students, sel).value;
            var st' := Operations.DeleteStudent(st, Some(sel)).value;
            forall e :: e in st.evals && e.studentId == owner.id ==>
              && e in st'.evals
              && forall s :: s in st'.students ==> s.id != e.studentId
  {
    var owner := Find(st.students, sel).value;
    var st' := Operations.DeleteStudent(st, Some(sel)).value;
    forall s | s in st'.students ensures s.id != owner.id {
      if s.id == owner.id {
        SameIdSameRow(st.students, s, owner);
      }
    }
  }

  /** One student with one evaluation: after the delete the evaluation has no student. */
  lemma OrphanExample()
    ensures var st := Store([Student(1, "1", "Kim", None, None)],
                            [Evaluation(1, "Math", Some(90.0), Some("2024-01-20"), Some(""))], 2);
            && Wf(st) && NoOrphans(st)
            && Operations.DeleteStudent(st, Some("1")).Success?
            && !NoOrphans(Operations.DeleteStudent(st, Some("1")).value)
  {
    Dates.TestedValidDates();
    var s := Student(1, "1", "Kim", None, None);
    var e := Evaluation(1, "Math", Some(90.0), Some("2024-01-20"), Some(""));
    var st := Store([s], [e], 2);
    assert s in st.students;
    var st' := Operations.DeleteStudent(st, Some("1")).value;
    assert e in st'.evals;
    assert st'.students == [];
  }

  /** Intended: the cascading delete keeps every evaluation owned. */
  lemma CascadeKeepsOwned(st: Store, selected: Option<string>)
    requires Wf(st) && NoOrphans(st)
    ensures var r := Operations.DeleteStudentCascade(st, selected);
            r.Success? ==> NoOrphans(r.value)
  {
    var r := Operations.DeleteStudentCascade(st, selected);
    if r.Success? && Find(st.students, selected.value).Some? {
      var owner := Find(st.students, selected.value).value;
      forall e | e in r.value.evals
        ensures exists s :: s in r.value.students && s.id == e.studentId
      {
        var s :| s in st.students && s.id == e.studentId;
        if s.number == selected.value {
          FindUnique(st.students, selected.value, s);
        }
        assert s in r.value.students;
      }
    }
  }

  /** Removing one student's evaluations leaves every other student's as they were. */
  lemma {:induction false} WithoutStudentOthers(evals: seq<Evaluation>, id: nat, other: nat)
    requires other != id
    ensures EvalsOf(Operations.WithoutStudent(evals, id), other) == EvalsOf(evals, other)
  {
    if |evals| > 0 {
      WithoutStudentOthers(evals[1..], id, other);
      var head := if evals[0].studentId != id then [evals[0]] else [];
      EvalsOfAppend(head, Operations.WithoutStudent(evals[1..], id), other);
    }
  }

  /** The two deletes agree on the students and on every remaining student's evaluations. */
  lemma DeletesAgree(st: Store, sel: string)
    requires Wf(st)
    ensures var a := Operations.DeleteStudent(st, Some(sel)).value;
            var b := Operations.DeleteStudentCascade(st, Some(sel)).value;
            && a.students == b.students
            && forall s :: s in a.students ==> EvalsOf(a.evals, s.id) == EvalsOf(b.evals, s.id)
  {
    var a := Operations.DeleteStudent(st, Some(sel)).value;
    var b := Operations.DeleteStudentCascade(st, Some(sel)).value;
    if Find(st.students, sel).Some? {
      var owner := Find(st.students, sel).value;
      forall s | s in a.students ensures EvalsOf(a.evals, s.id) == EvalsOf(b.evals, s.id) {
        if s.id == owner.id {
          SameIdSameRow(st.students, s, owner);
        }
        WithoutStudentOthers(st.evals, owner.id, s.id);
      }
    } else {
      assert sel !in Numbers(st.students);
      assert forall s :: s in st.students ==> s.number != sel;
      NoneRemoved(st.students, sel);
    }
  }

  lemma {:induction false} NoneRemoved(ss: seq<Student>, n: string)
    requires forall s :: s in ss ==> s.number != n
    ensures Operations.WithoutNumber(ss, n) == ss
  {
    if |ss| > 0 {
      assert forall s :: s in ss[1..] ==> s in ss;
      NoneRemoved(ss[1..], n);
      assert ss == [ss[0]] + ss[1..];
    }
  }

  /** The evaluation file depends on the evaluations of the listed students only. */
  lemma {:induction false} JoinTableSameEvals(a: Store, b: Store, l: seq<Student>, render: real -> string)
    requires forall s :: s in l ==> EvalsOf(a.evals, s.id) == EvalsOf(b.evals, s.id)
    ensures CsvExchange.JoinTable(a, l, render) == CsvExchange.JoinTable(b, l, render)
  {
    if |l| > 0 {
      assert forall s :: s in l[1..] ==> s in l;
      JoinTableSameEvals(a, b, l[1..], render);
      assert l[0] in l;
    }
  }

  /**
   * Through the screens and the export the orphans are invisible: both deletes
   * show the same student list, the same evaluation list for any selection,
   * and write the same two files.
   */
  lemma OrphansUnobservable(st: Store, sel: string, shown: string, render: real -> string)
    requires Wf(st)
    ensures var a := Operations.DeleteStudent(st, Some(sel)).value;
            var b := Operations.DeleteStudentCascade(st, Some(sel)).value;
            && Listing.ListStudents(a) == Listing.ListStudents(b)
            && Listing.ListEvaluations(a, shown) == Listing.ListEvaluations(b, shown)
            && CsvExchange.ExportCsv(a, render) == CsvExchange.ExportCsv(b, render)
  {
    var a := Operations.DeleteStudent(st, Some(sel)).value;
    var b := Operations.DeleteStudentCascade(st, Some(sel)).value;
    DeletesAgree(st, sel);
    if Find(a.students, shown).Some? {
      var s := Find(a.students, shown).value;
      assert EvalsOf(a.evals, s.id) == EvalsOf(b.evals, s.id);
    }
    var l := Listing.ListStudents(a);
    assert forall s :: s in l ==> s in a.students by {
      forall s | s in l ensures s in a.students {
        assert s in multiset(l);
      }
    }
    JoinTableSameEvals(a, b, l, render);
  }
}
