/**
 * `export_csv` and `import_csv`. A backup is a pair of CSV files: the student
 * file and the `_evaluations` file. The CSV text codec (quoting, UTF-8 with
 * BOM) is not modelled: a file is its header and its records as
 * `csv.DictReader` yields them.
 */
module CsvExchange {
  import opened Wrappers
  import opened Records
  import Text
  import Dates
  import Listing
  import Sorting

  const StudentHeader: seq<string> := ["학번", "이름", "등록일", "최근평가일"]
  const EvalHeader: seq<string> := ["학번", "이름", "과목", "점수", "평가일", "비고"]

  /** A CSV record; `csv.DictReader` skips blank lines, so a record has at least one field. */
  type Record = r: seq<string> | |r| > 0 witness [""]

  datatype CsvTable = CsvTable(header: seq<string>, rows: seq<Record>)

  /** What opening and parsing a CSV file produced. */
  datatype CsvFile = NotFound | Unreadable | Loaded(table: CsvTable)

  /** The value `DictReader` gives the i-th column: `None` when the record is too short. */
  function Field(r: Record, i: nat): (f: Option<string>)
    ensures f.Some? <==> i < |r|
    ensures f.Some? ==> f.value == r[i]
  {
    if i < |r| then Some(r[i]) else None
  }

  /** How `csv.writer` writes a text column: NULL becomes the empty field. */
  function Cell(v: Option<string>): (c: string)
    ensures v.Some? ==> c == v.value
    ensures v.None? ==> c == ""
  {
    v.GetOr("")
  }

  /** A score column; `render` stands for Python's `str` on floats. */
  function ScoreCell(v: Option<real>, render: real -> string): string
  {
    match v
    case None => ""
    case Some(x) => render(x)
  }

  /** `float(str(x)) == x` for the score of `e`: its text is never empty and parses back to it. */
  predicate ScoreRoundTrips(e: Evaluation, parse: string -> Option<real>, render: real -> string)
  {
    e.score.Some? ==> render(e.score.value) != "" && parse(render(e.score.value)) == e.score
  }

  /** Every stored score survives being written by `str` and read back by `float`. */
  predicate ScoresRoundTrip(st: Store, parse: string -> Option<real>, render: real -> string)
  {
    forall e :: e in st.evals ==> ScoreRoundTrips(e, parse, render)
  }

  // ---------------------------------------------------------------------------
  // export_csv
  // ---------------------------------------------------------------------------

  function StudentRow(s: Student): Record
  {
    [s.number, s.name, Cell(s.createdAt), Cell(s.lastModified)]
  }

  function StudentRows(ss: seq<Student>): (r: seq<Record>)
    ensures |r| == |ss|
    ensures forall i :: 0 <= i < |ss| ==> r[i] == StudentRow(ss[i])
  {
    if |ss| == 0 then [] else [StudentRow(ss[0])] + StudentRows(ss[1..])
  }

  function EvalRow(s: Student, e: Evaluation, render: real -> string): Record
  {
    [s.number, s.name, e.subject, ScoreCell(e.score, render), Cell(e.date), Cell(e.notes)]
  }

  function EvalRows(s: Student, evs: seq<Evaluation>, render: real -> string): (r: seq<Record>)
    ensures |r| == |evs|
    ensures forall i :: 0 <= i < |evs| ==> r[i] == EvalRow(s, evs[i], render)
  {
    if |evs| == 0 then [] else [EvalRow(s, evs[0], render)] + EvalRows(s, evs[1..], render)
  }

  /**
   * One student's part of `students LEFT JOIN evaluations`: a row per
   * evaluation, or a single row with empty evaluation columns.
   */
  function JoinRows(s: Student, evs: seq<Evaluation>, render: real -> string): (r: seq<Record>)
    ensures |r| == if |evs| == 0 then 1 else |evs|
    ensures forall i :: 0 <= i < |r| ==> |r[i]| == 6 && r[i][0] == s.number && r[i][1] == s.name
    ensures |evs| == 0 ==> r[0][2..] == ["", "", "", ""]
    ensures |evs| > 0 ==> forall i :: 0 <= i < |evs| ==> r[i] == EvalRow(s, evs[i], render)
  {
    if |evs| == 0 then [[s.number, s.name, "", "", "", ""]] else EvalRows(s, evs, render)
  }

  /** A student's rows of the evaluation file, evaluations latest first. */
  function StudentBlock(st: Store, s: Student, render: real -> string): seq<Record>
  {
    JoinRows(s, Sorting.Sort(EvalsOf(st.evals, s.id), ByDateDesc), render)
  }

  /** The evaluation file's rows for the students `ss`, in that order. */
  function JoinTable(st: Store, ss: seq<Student>, render: real -> string): (r: seq<Record>)
    ensures forall i :: 0 <= i < |r| ==> |r[i]| == 6
  {
    if |ss| == 0 then []
    else
      var head := StudentBlock(st, ss[0], render);
      var tail := JoinTable(st, ss[1..], render);
      head + tail
  }

  /**
   * The two files `export_csv` writes: the students ordered by number, and the
   * left join ordered by number, then evaluation date descending. Evaluations
   * whose student no longer exists are not written.
   */
  function ExportCsv(st: Store, render: real -> string): (r: (CsvTable, CsvTable))
    ensures r.0.header == StudentHeader && r.1.header == EvalHeader
    ensures multiset(r.0.rows) == multiset(StudentRows(st.students))
    ensures forall i, j :: 0 <= i < j < |r.0.rows| ==> Text.LexLe(r.0.rows[i][0], r.0.rows[j][0])
    ensures r.1.rows == JoinTable(st, Listing.ListStudents(st), render)
  {
    ListedRows(st);
    var ss := Listing.ListStudents(st);
    (CsvTable(StudentHeader, StudentRows(ss)), CsvTable(EvalHeader, JoinTable(st, ss, render)))
  }

  /** The rows of the students in number order are the students' rows in some order. */
  lemma ListedRows(st: Store)
    ensures multiset(StudentRows(Listing.ListStudents(st))) == multiset(StudentRows(st.students))
  {
    var l := Listing.ListStudents(st);
    assert l == Sorting.Sort(st.students, ByNumber);
    Sorting.MapSort(StudentRow, st.students, ByNumber);
    Sorting.MapAt(StudentRow, l);
    Sorting.MapAt(StudentRow, st.students);
    assert StudentRows(l) == Sorting.Map(StudentRow, l);
    assert StudentRows(st.students) == Sorting.Map(StudentRow, st.students);
  }

  /**
   * One student's block of the evaluation file: the single record with empty
   * evaluation fields when the student has no evaluations, and otherwise
   * exactly one record per evaluation.
   */
  lemma StudentBlockMembers(st: Store, s: Student, render: real -> string)
    ensures var block := StudentBlock(st, s, render);
            var evs := EvalsOf(st.evals, s.id);
            && (evs == [] ==> block == [[s.number, s.name, "", "", "", ""]])
            && (evs != [] ==> |block| == |evs|)
            && (forall e :: e in evs ==> EvalRow(s, e, render) in block)
            && (evs != [] ==> forall row :: row in block ==> exists e :: e in evs && row == EvalRow(s, e, render))
  {
    var evs := EvalsOf(st.evals, s.id);
    var sorted := Sorting.Sort(evs, ByDateDesc);
    if evs == [] {
      var block := StudentBlock(st, s, render);
      assert block[0][2..] == ["", "", "", ""];
    } else {
      RowsOfPermutation(s, evs, sorted, render);
    }
  }

  /**
   * In a well-formed store, a student's block is the student's evaluation
   * listing joined with the student: latest evaluation first, one record each.
   */
  lemma StudentBlockIsListing(st: Store, s: Student, render: real -> string)
    requires Wf(st) && s in st.students
    ensures var evs := Listing.ListEvaluations(st, s.number);
            && StudentBlock(st, s, render) == JoinRows(s, evs, render)
            && Sorting.SortedBy(evs, ByDateDesc)
  {
    FindUnique(st.students, s.number, s);
  }

  /** The records of a permutation of `evs` are one record per evaluation of `evs`. */
  lemma RowsOfPermutation(s: Student, evs: seq<Evaluation>, sorted: seq<Evaluation>, render: real -> string)
    requires multiset(sorted) == multiset(evs)
    ensures var rows := EvalRows(s, sorted, render);
            && |rows| == |evs|
            && (forall e :: e in evs ==> EvalRow(s, e, render) in rows)
            && (forall row :: row in rows ==> exists e :: e in evs && row == EvalRow(s, e, render))
  {
    var rows := EvalRows(s, sorted, render);
    assert |sorted| == |multiset(sorted)| == |evs|;
    forall e | e in evs ensures EvalRow(s, e, render) in rows {
      assert e in multiset(sorted);
      var i :| 0 <= i < |sorted| && sorted[i] == e;
      assert rows[i] == EvalRow(s, e, render);
    }
    forall row | row in rows ensures exists e :: e in evs && row == EvalRow(s, e, render) {
      var i :| 0 <= i < |rows| && rows[i] == row;
      assert sorted[i] in multiset(evs);
    }
  }

  /** Every record of the evaluation file for `ss` is a record of the block of a student of `ss`. */
  lemma {:induction false} JoinTableOwners(st: Store, ss: seq<Student>, render: real -> string)
    ensures forall row :: row in JoinTable(st, ss, render) ==> exists s :: s in ss && row in StudentBlock(st, s, render)
  {
    if |ss| > 0 {
      JoinTableOwners(st, ss[1..], render);
      assert forall s :: s in ss[1..] ==> s in ss;
    }
  }

  /** The whole block of every student of `ss` is in the evaluation file. */
  lemma {:induction false} JoinTableBlocks(st: Store, ss: seq<Student>, s: Student, render: real -> string)
    requires s in ss
    ensures forall row :: row in StudentBlock(st, s, render) ==> row in JoinTable(st, ss, render)
  {
    if ss[0] != s {
      JoinTableBlocks(st, ss[1..], s, render);
    }
  }

  /** Records in ascending order of their first field, the student number. */
  ghost predicate NumberOrdered(rows: seq<Record>)
  {
    forall i, j :: 0 <= i < j < |rows| ==> Text.LexLe(rows[i][0], rows[j][0])
  }

  /** Records of one student's block all carry that student's number. */
  lemma BlockNumbers(st: Store, s: Student, render: real -> string)
    ensures forall row :: row in StudentBlock(st, s, render) ==> row[0] == s.number
  {
  }

  /** When every student of `ss` comes after `n`, so does every record of their evaluation file. */
  lemma {:induction false} JoinTableAbove(st: Store, ss: seq<Student>, n: string, render: real -> string)
    requires forall s :: s in ss ==> Text.LexLe(n, s.number)
    ensures forall row :: row in JoinTable(st, ss, render) ==> Text.LexLe(n, row[0])
  {
    if |ss| > 0 {
      assert ss[0] in ss;
      BlockNumbers(st, ss[0], render);
      assert forall s :: s in ss[1..] ==> s in ss;
      JoinTableAbove(st, ss[1..], n, render);
    }
  }

  /** Records of one number followed by ordered records from that number on are ordered. */
  lemma OrderedConcat(head: seq<Record>, tail: seq<Record>, n: string)
    requires forall row :: row in head ==> row[0] == n
    requires forall row :: row in tail ==> Text.LexLe(n, row[0])
    requires NumberOrdered(tail)
    ensures NumberOrdered(head + tail)
  {
    Text.LexLeTotal(n, n);
    var rows := head + tail;
    forall i, j | 0 <= i < j < |rows| ensures Text.LexLe(rows[i][0], rows[j][0]) {
      if j < |head| {
        assert rows[i] in head && rows[j] in head;
      } else if i < |head| {
        assert rows[i] in head && rows[j] == tail[j - |head|];
      } else {
        assert rows[i] == tail[i - |head|] && rows[j] == tail[j - |head|];
      }
    }
  }

  /** With the students in number order, the evaluation file is in number order too. */
  lemma {:induction false} JoinTableSorted(st: Store, ss: seq<Student>, render: real -> string)
    requires Sorting.SortedBy(ss, ByNumber)
    ensures NumberOrdered(JoinTable(st, ss, render))
  {
    if |ss| > 0 {
      assert Sorting.SortedBy(ss[1..], ByNumber) by {
        forall i, j | 0 <= i < j < |ss[1..]| ensures ByNumber(ss[1..][i], ss[1..][j]) {
          assert ss[1..][i] == ss[i + 1] && ss[1..][j] == ss[j + 1];
        }
      }
      JoinTableSorted(st, ss[1..], render);
      assert forall s :: s in ss[1..] ==> Text.LexLe(ss[0].number, s.number) by {
        forall s | s in ss[1..] ensures Text.LexLe(ss[0].number, s.number) {
          var k :| 0 <= k < |ss[1..]| && ss[1..][k] == s;
          assert ByNumber(ss[0], ss[k + 1]);
        }
      }
      JoinTableAbove(st, ss[1..], ss[0].number, render);
      BlockNumbers(st, ss[0], render);
      OrderedConcat(StudentBlock(st, ss[0], render), JoinTable(st, ss[1..], render), ss[0].number);
    }
  }

  /**
   * The evaluation file `export_csv` writes is ordered by student number; it
   * holds a record for every evaluation of every student, the one record with
   * empty evaluation fields for every student without evaluations, and
   * nothing else: every record belongs to the block of some student.
   */
  lemma EvaluationFile(st: Store, render: real -> string)
    ensures var rows := ExportCsv(st, render).1.rows;
            && NumberOrdered(rows)
            && (forall s, e :: s in st.students && e in EvalsOf(st.evals, s.id) ==> EvalRow(s, e, render) in rows)
            && (forall s :: s in st.students && EvalsOf(st.evals, s.id) == [] ==>
                  [s.number, s.name, "", "", "", ""] in rows)
            && (forall row :: row in rows ==> exists s :: s in st.students && row in StudentBlock(st, s, render))
  {
    var l := Listing.ListStudents(st);
    var rows := JoinTable(st, l, render);
    JoinTableSorted(st, l, render);
    forall s | s in st.students
      ensures forall e :: e in EvalsOf(st.evals, s.id) ==> EvalRow(s, e, render) in rows
      ensures EvalsOf(st.evals, s.id) == [] ==> [s.number, s.name, "", "", "", ""] in rows
    {
      assert s in multiset(l);
      JoinTableBlocks(st, l, s, render);
      StudentBlockMembers(st, s, render);
    }
    JoinTableOwners(st, l, render);
    forall row | row in rows ensures exists s :: s in st.students && row in StudentBlock(st, s, render) {
      var s :| s in l && row in StudentBlock(st, s, render);
      assert s in multiset(st.students);
    }
  }

  // ---------------------------------------------------------------------------
  // import_csv
  // ---------------------------------------------------------------------------

  /** Every INSERT INTO students succeeds: a name is present (NOT NULL) and numbers are distinct (UNIQUE). */
  predicate StudentRowsInsertable(rows: seq<Record>)
  {
    && (forall i :: 0 <= i < |rows| ==> |rows[i]| > 1)
    && (forall i, j :: 0 <= i < j < |rows| ==> rows[i][0] != rows[j][0])
  }

  /** The students inserted from the rows, with ids handed out from `base`. */
  function StudentsFromRows(rows: seq<Record>, base: nat): (r: seq<Student>)
    ensures |r| == |rows|
    ensures forall i :: 0 <= i < |rows| ==>
              r[i] == Student(base + i, rows[i][0], Field(rows[i], 1).GetOr(""), Field(rows[i], 2), Field(rows[i], 3))
  {
    if |rows| == 0 then []
    else [Student(base, rows[0][0], Field(rows[0], 1).GetOr(""), Field(rows[0], 2), Field(rows[0], 3))]
         + StudentsFromRows(rows[1..], base + 1)
  }

  /** `float(x) if x else None`, with a ValueError turned into None. */
  function ImportScore(f: Option<string>, parse: string -> Option<real>): (s: Option<real>)
    ensures f.None? || f.value == "" ==> s.None?
    ensures f.Some? && f.value != "" ==> s == parse(f.value)
  {
    match f
    case None => None
    case Some(t) => if t == "" then None else parse(t)
  }

  /** `x if is_valid_date(x) else None`: a date survives exactly when it names a calendar day. */
  function ImportDate(f: Option<string>): (d: Option<string>)
    ensures d.Some? <==> f.Some? && Dates.IsCalendarDate(f.value)
    ensures d.Some? ==> d == f
  {
    match f
    case None => None
    case Some(t) =>
      Dates.IsValidDateCorrect(t);
      if Dates.IsValidDate(t) then f else None
  }

  /** A score cell written by `str` reads back as the score; an empty cell reads back as NULL. */
  lemma ImportScoreOfCell(e: Evaluation, parse: string -> Option<real>, render: real -> string)
    requires ScoreRoundTrips(e, parse, render)
    ensures ImportScore(Some(ScoreCell(e.score, render)), parse) == e.score
  {
  }

  /** The evaluation a record inserts, if its student number names an imported student. */
  function EvalFromRow(ss: seq<Student>, r: Record, parse: string -> Option<real>): (e: Option<Evaluation>)
    ensures e.Some? <==> r[0] in Numbers(ss)
    ensures e.Some? ==> && e.value.studentId == Find(ss, r[0]).value.id
                        && e.value.subject == Field(r, 2).GetOr("")
                        && e.value.score == ImportScore(Field(r, 3), parse)
                        && e.value.date == ImportDate(Field(r, 4))
                        && e.value.notes == Field(r, 5)
  {
    match Find(ss, r[0])
    case None => None
    case Some(s) =>
      Some(Evaluation(s.id, Field(r, 2).GetOr(""), ImportScore(Field(r, 3), parse), ImportDate(Field(r, 4)), Field(r, 5)))
  }

  /** Every INSERT INTO evaluations succeeds: a matched record has a subject (NOT NULL). */
  predicate EvalRowsInsertable(ss: seq<Student>, rows: seq<Record>)
  {
    forall i :: 0 <= i < |rows| && rows[i][0] in Numbers(ss) ==> |rows[i]| > 2
  }

  /** The evaluations inserted from the records, in file order; unmatched records are skipped. */
  function EvalsFromRows(ss: seq<Student>, rows: seq<Record>, parse: string -> Option<real>): (r: seq<Evaluation>)
    ensures |r| <= |rows|
  {
    if |rows| == 0 then []
    else
      var head := match EvalFromRow(ss, rows[0], parse) case None => [] case Some(e) => [e];
      head + EvalsFromRows(ss, rows[1..], parse)
  }

  /**
   * Evaluations are inserted exactly for the records whose student number
   * names an imported student: every inserted evaluation comes from such a
   * record, and every such record inserts one.
   */
  lemma {:induction false} EvalsFromRowsMembers(ss: seq<Student>, rows: seq<Record>, parse: string -> Option<real>)
    ensures var r := EvalsFromRows(ss, rows, parse);
            && (forall e :: e in r ==> exists k :: 0 <= k < |rows| && EvalFromRow(ss, rows[k], parse) == Some(e))
            && (forall k :: 0 <= k < |rows| && rows[k][0] in Numbers(ss) ==> EvalFromRow(ss, rows[k], parse).value in r)
  {
    if |rows| > 0 {
      EvalsFromRowsMembers(ss, rows[1..], parse);
      assert forall k :: 1 <= k < |rows| ==> rows[k] == rows[1..][k - 1];
    }
  }

  /** The values `g` gives the records, in order, skipping the records it gives nothing for. */
  function Picked<T>(g: Record -> Option<T>, rows: seq<Record>): seq<T>
  {
    if |rows| == 0 then []
    else (match g(rows[0]) case None => [] case Some(x) => [x]) + Picked(g, rows[1..])
  }

  /** The positions, counted from `base`, of the records `g` gives a value for. */
  function PickedAt<T>(g: Record -> Option<T>, rows: seq<Record>, base: nat): seq<nat>
  {
    if |rows| == 0 then [] else (if g(rows[0]).Some? then [base] else []) + PickedAt(g, rows[1..], base + 1)
  }

  lemma {:induction false} PickedLength<T>(g: Record -> Option<T>, rows: seq<Record>, base: nat)
    ensures |PickedAt(g, rows, base)| == |Picked(g, rows)|
    ensures forall i :: 0 <= i < |PickedAt(g, rows, base)| ==> base <= PickedAt(g, rows, base)[i] < base + |rows|
  {
    if |rows| > 0 {
      PickedLength(g, rows[1..], base + 1);
    }
  }

  lemma {:induction false} PickedAtIncreasing<T>(g: Record -> Option<T>, rows: seq<Record>, base: nat)
    ensures forall i, j :: 0 <= i < j < |PickedAt(g, rows, base)| ==> PickedAt(g, rows, base)[i] < PickedAt(g, rows, base)[j]
  {
    if |rows| > 0 {
      var idx, idx' := PickedAt(g, rows, base), PickedAt(g, rows[1..], base + 1);
      PickedAtIncreasing(g, rows[1..], base + 1);
      PickedLength(g, rows[1..], base + 1);
      if g(rows[0]).Some? {
        assert idx == [base] + idx';
        forall i, j | 0 <= i < j < |idx| ensures idx[i] < idx[j] {
          assert idx[j] == idx'[j - 1];
          if i > 0 {
            assert idx[i] == idx'[i - 1];
          }
        }
      } else {
        assert idx == idx';
      }
    }
  }

  lemma {:induction false} PickedValueAt<T>(g: Record -> Option<T>, rows: seq<Record>, base: nat, i: nat)
    requires i < |PickedAt(g, rows, base)| && |PickedAt(g, rows, base)| == |Picked(g, rows)|
    ensures base <= PickedAt(g, rows, base)[i] < base + |rows|
    ensures g(rows[PickedAt(g, rows, base)[i] - base]) == Some(Picked(g, rows)[i])
    decreases |rows|
  {
    var r, idx := Picked(g, rows), PickedAt(g, rows, base);
    var r', idx' := Picked(g, rows[1..]), PickedAt(g, rows[1..], base + 1);
    PickedLength(g, rows[1..], base + 1);
    if g(rows[0]).Some? {
      assert r == [g(rows[0]).value] + r' && idx == [base] + idx';
      if i > 0 {
        PickedValueAt(g, rows[1..], base + 1, i - 1);
        assert rows[idx[i] - base] == rows[1..][idx'[i - 1] - (base + 1)];
      }
    } else {
      assert r == r' && idx == idx';
      PickedValueAt(g, rows[1..], base + 1, i);
      assert rows[idx[i] - base] == rows[1..][idx'[i] - (base + 1)];
    }
  }

  lemma PickedValues<T>(g: Record -> Option<T>, rows: seq<Record>, base: nat)
    ensures |PickedAt(g, rows, base)| == |Picked(g, rows)|
    ensures forall i :: 0 <= i < |PickedAt(g, rows, base)| ==>
              base <= PickedAt(g, rows, base)[i] < base + |rows|
              && g(rows[PickedAt(g, rows, base)[i] - base]) == Some(Picked(g, rows)[i])
  {
    PickedLength(g, rows, base);
    forall i | 0 <= i < |PickedAt(g, rows, base)|
      ensures base <= PickedAt(g, rows, base)[i] < base + |rows|
              && g(rows[PickedAt(g, rows, base)[i] - base]) == Some(Picked(g, rows)[i])
    {
      PickedValueAt(g, rows, base, i);
    }
  }

  lemma {:induction false} PickedAtCovers<T>(g: Record -> Option<T>, rows: seq<Record>, base: nat)
    ensures forall k :: 0 <= k < |rows| && g(rows[k]).Some? ==> base + k in PickedAt(g, rows, base)
  {
    if |rows| > 0 {
      var idx, idx' := PickedAt(g, rows, base), PickedAt(g, rows[1..], base + 1);
      PickedAtCovers(g, rows[1..], base + 1);
      assert idx == (if g(rows[0]).Some? then [base] else []) + idx';
      forall k | 0 <= k < |rows| && g(rows[k]).Some? ensures base + k in idx {
        if k > 0 {
          assert rows[1..][k - 1] == rows[k];
          assert base + 1 + (k - 1) in idx';
        }
      }
    }
  }

  /** The evaluation a record inserts, as a function of the record. */
  function RowEvaluation(ss: seq<Student>, parse: string -> Option<real>): Record -> Option<Evaluation>
  {
    (r: Record) => EvalFromRow(ss, r, parse)
  }

  lemma {:induction false} EvalsFromRowsPicked(ss: seq<Student>, rows: seq<Record>, parse: string -> Option<real>)
    ensures EvalsFromRows(ss, rows, parse) == Picked(RowEvaluation(ss, parse), rows)
  {
    if |rows| > 0 {
      EvalsFromRowsPicked(ss, rows[1..], parse);
    }
  }

  /**
   * One evaluation is inserted per matched record, in file order: the i-th
   * inserted evaluation is the one the i-th matched record gives, matched
   * records are taken in increasing position, and none is skipped.
   */
  lemma EvalsFromRowsOnePerRecord(ss: seq<Student>, rows: seq<Record>, parse: string -> Option<real>)
    ensures var r := EvalsFromRows(ss, rows, parse);
            var idx := PickedAt(RowEvaluation(ss, parse), rows, 0);
            && |idx| == |r|
            && (forall i, j :: 0 <= i < j < |idx| ==> idx[i] < idx[j])
            && (forall i :: 0 <= i < |idx| ==> idx[i] < |rows| && EvalFromRow(ss, rows[idx[i]], parse) == Some(r[i]))
            && (forall k :: 0 <= k < |rows| && rows[k][0] in Numbers(ss) ==> k in idx)
  {
    var g := RowEvaluation(ss, parse);
    var r, idx := EvalsFromRows(ss, rows, parse), PickedAt(g, rows, 0);
    EvalsFromRowsPicked(ss, rows, parse);
    PickedValues(g, rows, 0);
    PickedAtIncreasing(g, rows, 0);
    PickedAtCovers(g, rows, 0);
    forall i | 0 <= i < |idx| ensures idx[i] < |rows| && EvalFromRow(ss, rows[idx[i]], parse) == Some(r[i]) {
      assert g(rows[idx[i] - 0]) == Some(r[i]);
    }
    forall k | 0 <= k < |rows| && rows[k][0] in Numbers(ss) ensures k in idx {
      assert g(rows[k]) == EvalFromRow(ss, rows[k], parse);
    }
  }

  /**
   * `import_csv`. The student file's header is checked first, then the
   * evaluation file's (a missing evaluation file counts as empty); both checks
   * happen before anything is deleted. Then all evaluations and students are
   * deleted and the files' rows inserted; a failing INSERT rolls everything
   * back. Failure leaves the caller's store as it was.
   */
  function ImportCsv(st: Store, students: CsvFile, evals: CsvFile, parse: string -> Option<real>)
    : (r: Result<Store, Error>)
    ensures r == Failure(ReadFailed) <==>
              !students.Loaded? || (students.table.header == StudentHeader && evals.Unreadable?)
    ensures r == Failure(StudentHeaderMismatch) <==> students.Loaded? && students.table.header != StudentHeader
    ensures r == Failure(EvalHeaderMismatch) <==>
              students.Loaded? && students.table.header == StudentHeader
              && evals.Loaded? && evals.table.header != EvalHeader
    ensures students.Loaded? && students.table.header == StudentHeader
            && (evals.NotFound? || (evals.Loaded? && evals.table.header == EvalHeader)) ==>
              r == ReplaceAll(st, students.table.rows, if evals.Loaded? then evals.table.rows else [], parse)
    ensures r.Success? ==>
              var rows := students.table.rows;
              && StudentRowsInsertable(rows)
              && r.value.nextId == st.nextId + |rows|
              && |r.value.students| == |rows|
              && (forall i :: 0 <= i < |rows| ==>
                    && r.value.students[i].id == st.nextId + i
                    && r.value.students[i].number == rows[i][0]
                    && r.value.students[i].name == rows[i][1]
                    && r.value.students[i].createdAt == Field(rows[i], 2)
                    && r.value.students[i].lastModified == Field(rows[i], 3))
              && (forall e :: e in r.value.evals ==> exists s :: s in r.value.students && s.id == e.studentId)
              && Wf(r.value)
  {
    match students
    case NotFound => Failure(ReadFailed)
    case Unreadable => Failure(ReadFailed)
    case Loaded(stable) =>
      if stable.header != StudentHeader then Failure(StudentHeaderMismatch)
      else match evals
        case Unreadable => Failure(ReadFailed)
        case NotFound => ReplaceAll(st, stable.rows, [], parse)
        case Loaded(etable) =>
          if etable.header != EvalHeader then Failure(EvalHeaderMismatch)
          else ReplaceAll(st, stable.rows, etable.rows, parse)
  }

  /**
   * The transaction of `import_csv`: delete every evaluation and student, then
   * insert the student records and the matched evaluation records. Any failed
   * INSERT rolls the whole transaction back.
   */
  function ReplaceAll(st: Store, rows: seq<Record>, erows: seq<Record>, parse: string -> Option<real>)
    : (r: Result<Store, Error>)
    ensures r.Failure? ==> r.error == RolledBack
    ensures r.Success? <==>
              StudentRowsInsertable(rows) && EvalRowsInsertable(StudentsFromRows(rows, st.nextId), erows)
    ensures r.Success? ==>
              && r.value.students == StudentsFromRows(rows, st.nextId)
              && r.value.evals == EvalsFromRows(r.value.students, erows, parse)
              && r.value.nextId == st.nextId + |rows|
              && (forall e :: e in r.value.evals ==> exists s :: s in r.value.students && s.id == e.studentId)
              && Wf(r.value)
  {
    if !StudentRowsInsertable(rows) then Failure(RolledBack)
    else
      var ss := StudentsFromRows(rows, st.nextId);
      if !EvalRowsInsertable(ss, erows) then Failure(RolledBack)
      else
        ImportedWf(rows, erows, st.nextId, parse);
        Success(Store(ss, EvalsFromRows(ss, erows, parse), st.nextId + |rows|))
  }

  lemma ImportedWf(rows: seq<Record>, erows: seq<Record>, base: nat, parse: string -> Option<real>)
    requires StudentRowsInsertable(rows)
    ensures var ss := StudentsFromRows(rows, base);
            var es := EvalsFromRows(ss, erows, parse);
            && Wf(Store(ss, es, base + |rows|))
            && forall e :: e in es ==> exists s :: s in ss && s.id == e.studentId
  {
    var ss := StudentsFromRows(rows, base);
    ImportedStudentsWf(rows, base);
    ImportedEvalsOwned(ss, erows, parse);
  }

  lemma ImportedStudentsWf(rows: seq<Record>, base: nat)
    requires StudentRowsInsertable(rows)
    ensures var ss := StudentsFromRows(rows, base);
            && UniqueNumbers(ss) && UniqueIds(ss)
            && forall s :: s in ss ==> s.id < base + |rows|
  {
  }

  /** Every inserted evaluation has an accepted date and belongs to an inserted student. */
  lemma {:induction false} ImportedEvalsOwned(ss: seq<Student>, rows: seq<Record>, parse: string -> Option<real>)
    ensures forall e :: e in EvalsFromRows(ss, rows, parse) ==> DateOk(e) && exists s :: s in ss && s.id == e.studentId
  {
    if |rows| > 0 {
      ImportedEvalsOwned(ss, rows[1..], parse);
      if rows[0][0] in Numbers(ss) {
        assert Find(ss, rows[0][0]).value in ss;
      }
    }
  }
}
