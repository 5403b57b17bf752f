/**
 * What exporting and re-importing a backup does to the database.
 *
 * The main result: exporting a well-formed database, importing the two files
 * into any database, and exporting again writes exactly the same two files.
 * Along the way, a student without evaluations comes back with one
 * evaluation whose subject is empty, because the left join wrote one row with
 * empty evaluation columns for it.
 */
module CsvRoundTrip {
  import opened Wrappers
  import opened Records
  import opened CsvExchange
  import Dates
  import Listing
  import Sorting

  /** What an exported evaluation becomes after import under a new student id. */
  function Reimported(e: Evaluation, id: nat): Evaluation
  {
    Evaluation(id, e.subject, e.score, e.date, Some(Cell(e.notes)))
  }

  function ReimportAll(evs: seq<Evaluation>, id: nat): (r: seq<Evaluation>)
    ensures |r| == |evs|
    ensures forall i :: 0 <= i < |evs| ==> r[i] == Reimported(evs[i], id)
  {
    if |evs| == 0 then [] else [Reimported(evs[0], id)] + ReimportAll(evs[1..], id)
  }

  /** The evaluation the left-join row of a student without evaluations turns into. */
  function BlankEvaluation(id: nat): Evaluation
  {
    Evaluation(id, "", None, None, Some(""))
  }

  /** What a student's block of the evaluation file imports as. */
  function ReimportedBlock(evs: seq<Evaluation>, id: nat): seq<Evaluation>
  {
    if |evs| == 0 then [BlankEvaluation(id)] else ReimportAll(evs, id)
  }

  /** The evaluations of student `s` in export order. */
  function Exported(st: Store, s: Student): seq<Evaluation>
  {
    Sorting.Sort(EvalsOf(st.evals, s.id), ByDateDesc)
  }

  /** The part of `Wf` the round trip relies on: every stored date passed the check. */
  predicate DatesOk(st: Store)
  {
    forall e :: e in st.evals ==> DateOk(e)
  }

  /** A student's exported evaluations are in date order and are stored evaluations. */
  lemma ExportedFacts(st: Store, s: Student)
    ensures Sorting.SortedBy(Exported(st, s), ByDateDesc)
    ensures forall e :: e in Exported(st, s) ==> e in st.evals
  {
    SortByDateSorted(EvalsOf(st.evals, s.id));
    EvalsOfMembers(st.evals, s.id);
    forall e | e in Exported(st, s) ensures e in st.evals {
      assert e in multiset(Exported(st, s));
      assert e in multiset(EvalsOf(st.evals, s.id));
    }
  }

  /** `str` on the two scores 90.0 and 85.5, and on nothing else. */
  function SampleRender(x: real): string
  {
    if x == 90.0 then "90.0" else if x == 85.5 then "85.5" else "0.0"
  }

  /** `float` on the texts `SampleRender` writes. */
  function SampleParse(t: string): Option<real>
  {
    if t == "90.0" then Some(90.0) else if t == "85.5" then Some(85.5) else if t == "0.0" then Some(0.0) else None
  }

  /** A well-formed database with two different scores and a NULL one. */
  function SampleStore(): Store
  {
    Store([Student(1, "1", "Kim", None, None)],
          [Evaluation(1, "Math", Some(90.0), Some("2024-01-20"), Some("")),
           Evaluation(1, "Art", Some(85.5), None, None),
           Evaluation(1, "Music", None, None, None)], 2)
  }

  lemma SampleWf()
    ensures Wf(SampleStore())
  {
    var st := SampleStore();
    assert DateOk(st.evals[0]) by {
      Dates.TestedValidDates();
    }
    assert forall e :: e in st.evals ==> e == st.evals[0] || e == st.evals[1] || e == st.evals[2];
  }

  /** The round-trip hypothesis can be met: the sample codec is exact on every score of the sample database. */
  lemma SampleScoresRoundTrip()
    ensures ScoresRoundTrip(SampleStore(), SampleParse, SampleRender)
  {
    var st := SampleStore();
    assert forall e :: e in st.evals ==> e == st.evals[0] || e == st.evals[1] || e == st.evals[2];
  }

  // ---------------------------------------------------------------------------
  // Import of one exported row, one block, the whole table.
  // ---------------------------------------------------------------------------

  lemma RowReimport(ss: seq<Student>, owner: Student, s: Student, e: Evaluation,
                    parse: string -> Option<real>, render: real -> string)
    requires ScoreRoundTrips(e, parse, render) && DateOk(e)
    requires Find(ss, s.number) == Some(owner)
    ensures EvalFromRow(ss, EvalRow(s, e, render), parse) == Some(Reimported(e, owner.id))
  {
    var row := EvalRow(s, e, render);
    if e.date.None? {
      assert !Dates.IsValidDate("");
    }
  }

  lemma {:induction false} RowsReimport(ss: seq<Student>, owner: Student, s: Student, evs: seq<Evaluation>,
                                        parse: string -> Option<real>, render: real -> string)
    requires forall e :: e in evs ==> DateOk(e) && ScoreRoundTrips(e, parse, render)
    requires Find(ss, s.number) == Some(owner)
    ensures EvalsFromRows(ss, EvalRows(s, evs, render), parse) == ReimportAll(evs, owner.id)
  {
    if |evs| > 0 {
      var rows := EvalRows(s, evs, render);
      RowReimport(ss, owner, s, evs[0], parse, render);
      assert rows[1..] == EvalRows(s, evs[1..], render);
      RowsReimport(ss, owner, s, evs[1..], parse, render);
    }
  }

  lemma BlockReimport(st: Store, ss: seq<Student>, owner: Student, s: Student,
                      parse: string -> Option<real>, render: real -> string)
    requires DatesOk(st) && ScoresRoundTrip(st, parse, render)
    requires Find(ss, s.number) == Some(owner)
    ensures EvalsFromRows(ss, StudentBlock(st, s, render), parse) == ReimportedBlock(Exported(st, s), owner.id)
  {
    var evs := Exported(st, s);
    ExportedFacts(st, s);
    if |evs| == 0 {
      assert !Dates.IsValidDate("");
    } else {
      RowsReimport(ss, owner, s, evs, parse, render);
    }
  }

  lemma {:induction false} EvalsFromRowsAppend(ss: seq<Student>, a: seq<Record>, b: seq<Record>,
                                               parse: string -> Option<real>)
    ensures EvalsFromRows(ss, a + b, parse) == EvalsFromRows(ss, a, parse) + EvalsFromRows(ss, b, parse)
  {
    EvalsFromRowsFlat(ss, a + b, parse);
    EvalsFromRowsFlat(ss, a, parse);
    EvalsFromRowsFlat(ss, b, parse);
    FlatMapAppend(RowEvaluations(ss, parse), a, b);
  }

  /** The evaluation a record inserts, as a sequence of at most one. */
  function RowEvaluations(ss: seq<Student>, parse: string -> Option<real>): Record -> seq<Evaluation>
  {
    (r: Record) => match EvalFromRow(ss, r, parse) case None => [] case Some(e) => [e]
  }

  /** `f` applied to each record, the results joined. */
  function FlatMap(f: Record -> seq<Evaluation>, rows: seq<Record>): seq<Evaluation>
  {
    if |rows| == 0 then [] else f(rows[0]) + FlatMap(f, rows[1..])
  }

  lemma {:induction false} FlatMapAppend(f: Record -> seq<Evaluation>, a: seq<Record>, b: seq<Record>)
    ensures FlatMap(f, a + b) == FlatMap(f, a) + FlatMap(f, b)
  {
    if |a| == 0 {
      assert a + b == b;
    } else {
      assert (a + b)[1..] == a[1..] + b;
      FlatMapAppend(f, a[1..], b);
    }
  }

  lemma {:induction false} EvalsFromRowsFlat(ss: seq<Student>, rows: seq<Record>, parse: string -> Option<real>)
    ensures EvalsFromRows(ss, rows, parse) == FlatMap(RowEvaluations(ss, parse), rows)
  {
    if |rows| > 0 {
      EvalsFromRowsFlat(ss, rows[1..], parse);
    }
  }

  /** The students the export writes, imported with ids from `base`. */
  function ImportedStudents(st: Store, base: nat): seq<Student>
  {
    StudentsFromRows(StudentRows(Listing.ListStudents(st)), base)
  }

  lemma ImportedStudentsShape(st: Store, base: nat)
    ensures var l := Listing.ListStudents(st);
            var ss := ImportedStudents(st, base);
            && |ss| == |l|
            && forall k :: 0 <= k < |l| ==>
                  && ss[k].id == base + k && ss[k].number == l[k].number && ss[k].name == l[k].name
                  && ss[k].createdAt == Some(Cell(l[k].createdAt))
                  && ss[k].lastModified == Some(Cell(l[k].lastModified))
  {
    var l := Listing.ListStudents(st);
    var rows := StudentRows(l);
    var ss := StudentsFromRows(rows, base);
    forall k | 0 <= k < |l|
      ensures ss[k].id == base + k && ss[k].number == l[k].number && ss[k].name == l[k].name
      ensures ss[k].createdAt == Some(Cell(l[k].createdAt))
      ensures ss[k].lastModified == Some(Cell(l[k].lastModified))
    {
      assert rows[k] == StudentRow(l[k]);
      assert Field(rows[k], 1) == Some(l[k].name);
    }
  }

  lemma ImportedStudentsFacts(st: Store, base: nat)
    requires Wf(st)
    ensures var l := Listing.ListStudents(st);
            var ss := ImportedStudents(st, base);
            && StudentRowsInsertable(StudentRows(l))
            && |ss| == |l|
            && UniqueNumbers(ss)
            && (forall k :: 0 <= k < |l| ==>
                  && ss[k].id == base + k && ss[k].number == l[k].number && ss[k].name == l[k].name
                  && ss[k].createdAt == Some(Cell(l[k].createdAt))
                  && ss[k].lastModified == Some(Cell(l[k].lastModified)))
  {
    var l := Listing.ListStudents(st);
    var ss := ImportedStudents(st, base);
    var rows := StudentRows(l);
    Listing.ListStudentsStrict(st);
    ImportedStudentsShape(st, base);
    assert StudentRowsInsertable(rows) by {
      forall i, j | 0 <= i < j < |rows| ensures rows[i][0] != rows[j][0] {
        assert rows[i] == StudentRow(l[i]) && rows[j] == StudentRow(l[j]);
      }
    }
    assert UniqueNumbers(ss);
  }

  /** `ss` is what importing the exported students `l` inserts, with ids from `base`. */
  ghost predicate Reimports(l: seq<Student>, ss: seq<Student>, base: nat)
  {
    && |ss| == |l|
    && UniqueNumbers(ss)
    && forall k :: 0 <= k < |l| ==>
         ss[k].id == base + k && ss[k].number == l[k].number && ss[k].name == l[k].name
  }

  /** Each student's evaluations in export order, student by student. */
  function ExportedBlocks(st: Store, l: seq<Student>): seq<seq<Evaluation>>
  {
    seq(|l|, i requires 0 <= i < |l| => Exported(st, l[i]))
  }

  lemma ExportedBlocksTail(st: Store, l: seq<Student>)
    requires |l| > 0
    ensures ExportedBlocks(st, l)[0] == Exported(st, l[0])
    ensures ExportedBlocks(st, l)[1..] == ExportedBlocks(st, l[1..])
  {
  }

  lemma ReimportedBlockOwner(evs: seq<Evaluation>, id: nat)
    ensures forall e :: e in ReimportedBlock(evs, id) ==> e.studentId == id
  {
    var block := ReimportedBlock(evs, id);
    forall e | e in block ensures e.studentId == id {
      var i :| 0 <= i < |block| && block[i] == e;
    }
  }

  /** Each student of `l`, in turn, is found in `ss` under id `base`, `base + 1`, ... */
  ghost predicate FoundFrom(ss: seq<Student>, l: seq<Student>, base: nat)
  {
    IdsFrom(FoundId(ss), l, base)
  }

  /** The id of the student a number finds in `ss`, if any. */
  function FoundId(ss: seq<Student>): string -> Option<nat>
  {
    n => match Find(ss, n) case None => None case Some(s) => Some(s.id)
  }

  /** Looking up the numbers of `l` in turn gives `base`, `base + 1`, ... */
  ghost predicate IdsFrom(id: string -> Option<nat>, l: seq<Student>, base: nat)
    decreases |l|
  {
    |l| == 0 || (id(l[0].number) == Some(base) && IdsFrom(id, l[1..], base + 1))
  }

  lemma {:induction false} IdsFromSuffix(id: string -> Option<nat>, l: seq<Student>, base: nat, j: nat)
    requires j <= |l| && forall k :: j <= k < |l| ==> id(l[k].number) == Some(base + k)
    ensures IdsFrom(id, l[j..], base + j)
    decreases |l| - j
  {
    if j < |l| {
      IdsFromSuffix(id, l, base, j + 1);
      assert l[j..][1..] == l[j + 1..];
    } else {
      assert l[j..] == [];
    }
  }

  lemma FoundFromCons(ss: seq<Student>, l: seq<Student>, base: nat)
    requires FoundFrom(ss, l, base) && |l| > 0
    ensures Find(ss, l[0].number).Some? && Find(ss, l[0].number).value.id == base
    ensures FoundFrom(ss, l[1..], base + 1)
  {
    assert FoundId(ss)(l[0].number) == Some(base);
  }

  /** Re-imported student `k` is found by its exported number and has id `base + k`. */
  lemma ReimportsFind(l: seq<Student>, ss: seq<Student>, base: nat, k: nat)
    requires Reimports(l, ss, base) && k < |l|
    ensures k < |ss| && Find(ss, l[k].number) == Some(ss[k]) && ss[k].id == base + k
  {
    FindUnique(ss, l[k].number, ss[k]);
  }

  lemma ReimportsFoundFrom(l: seq<Student>, ss: seq<Student>, base: nat)
    requires Reimports(l, ss, base)
    ensures FoundFrom(ss, l, base)
  {
    forall k | 0 <= k < |l| ensures FoundId(ss)(l[k].number) == Some(base + k) {
      ReimportsFind(l, ss, base, k);
    }
    IdsFromSuffix(FoundId(ss), l, base, 0);
    assert l[0..] == l;
  }

  /** Importing the rows of `l`: the first student's block comes first. */
  lemma HeadReimport(st: Store, l: seq<Student>, ss: seq<Student>,
                     parse: string -> Option<real>, render: real -> string)
    requires DatesOk(st) && ScoresRoundTrip(st, parse, render)
    requires |l| > 0 && Find(ss, l[0].number).Some?
    ensures EvalsFromRows(ss, JoinTable(st, l, render), parse)
              == ReimportedBlock(Exported(st, l[0]), Find(ss, l[0].number).value.id)
                 + EvalsFromRows(ss, JoinTable(st, l[1..], render), parse)
  {
    var block := StudentBlock(st, l[0], render);
    var rest := JoinTable(st, l[1..], render);
    assert JoinTable(st, l, render) == block + rest;
    EvalsFromRowsAppend(ss, block, rest, parse);
    BlockReimport(st, ss, Find(ss, l[0].number).value, l[0], parse, render);
  }

  /** The blocks `xs` transformed by `f` and joined, block `i` given student id `base + i`. */
  function Flatten(f: (seq<Evaluation>, nat) -> seq<Evaluation>, xs: seq<seq<Evaluation>>, base: nat): seq<Evaluation>
  {
    if |xs| == 0 then [] else f(xs[0], base) + Flatten(f, xs[1..], base + 1)
  }

  /** `f(x, id)` only yields evaluations of student `id`. */
  ghost predicate Tags(f: (seq<Evaluation>, nat) -> seq<Evaluation>)
  {
    forall x, id, e :: e in f(x, id) ==> e.studentId == id
  }

  lemma ReimportedBlockTags()
    ensures Tags(ReimportedBlock)
  {
    forall x, id ensures forall e :: e in ReimportedBlock(x, id) ==> e.studentId == id {
      ReimportedBlockOwner(x, id);
    }
  }

  /** Importing the evaluation rows of `l` yields their re-imported blocks, in order. */
  lemma {:induction false} SuffixReimport(st: Store, l: seq<Student>, ss: seq<Student>, base: nat,
                                          parse: string -> Option<real>, render: real -> string)
    requires DatesOk(st) && ScoresRoundTrip(st, parse, render) && FoundFrom(ss, l, base)
    ensures EvalsFromRows(ss, JoinTable(st, l, render), parse) == Flatten(ReimportedBlock, ExportedBlocks(st, l), base)
    decreases |l|
  {
    if |l| > 0 {
      FoundFromCons(ss, l, base);
      ExportedBlocksTail(st, l);
      HeadReimport(st, l, ss, parse, render);
      SuffixReimport(st, l[1..], ss, base + 1, parse, render);
    }
  }

  /** Every evaluation of the joined blocks belongs to a student numbered `base` or later. */
  lemma {:induction false} FlattenIdsFrom(f: (seq<Evaluation>, nat) -> seq<Evaluation>, xs: seq<seq<Evaluation>>, base: nat)
    requires Tags(f)
    ensures forall e :: e in Flatten(f, xs, base) ==> e.studentId >= base
  {
    if |xs| > 0 {
      FlattenIdsFrom(f, xs[1..], base + 1);
    }
  }

  lemma TagsAt(f: (seq<Evaluation>, nat) -> seq<Evaluation>, x: seq<Evaluation>, id: nat)
    requires Tags(f)
    ensures forall e :: e in f(x, id) ==> e.studentId == id
  {
  }

  /** Student `base` owns exactly the first block. */
  lemma FlattenOwnerFirst(f: (seq<Evaluation>, nat) -> seq<Evaluation>, xs: seq<seq<Evaluation>>, base: nat)
    requires Tags(f) && 0 < |xs|
    ensures EvalsOf(Flatten(f, xs, base), base) == f(xs[0], base)
  {
    var head := f(xs[0], base);
    var rest := Flatten(f, xs[1..], base + 1);
    EvalsOfAppend(head, rest, base);
    TagsAt(f, xs[0], base);
    EvalsOfAll(head, base);
    FlattenIdsFrom(f, xs[1..], base + 1);
    EvalsOfNone(rest, base);
  }

  /** A student after `base` owns nothing in the first block. */
  lemma FlattenShift(f: (seq<Evaluation>, nat) -> seq<Evaluation>, xs: seq<seq<Evaluation>>, base: nat, id: nat)
    requires Tags(f) && 0 < |xs| && base < id
    ensures EvalsOf(Flatten(f, xs, base), id) == EvalsOf(Flatten(f, xs[1..], base + 1), id)
  {
    var head := f(xs[0], base);
    var rest := Flatten(f, xs[1..], base + 1);
    EvalsOfAppend(head, rest, id);
    TagsAt(f, xs[0], base);
    EvalsOfNone(head, id);
  }

  /** In the joined blocks, student `base + k` owns exactly block `k`. */
  lemma {:induction false} FlattenOwner(f: (seq<Evaluation>, nat) -> seq<Evaluation>, xs: seq<seq<Evaluation>>,
                                        base: nat, k: nat)
    requires Tags(f) && k < |xs|
    ensures EvalsOf(Flatten(f, xs, base), base + k) == f(xs[k], base + k)
  {
    if k == 0 {
      FlattenOwnerFirst(f, xs, base);
    } else {
      var id := base + k;
      FlattenShift(f, xs, base, id);
      FlattenOwner(f, xs[1..], base + 1, k - 1);
      assert xs[1..][k - 1] == xs[k] && base + 1 + (k - 1) == id;
    }
  }

  /** The database an import of the exported files produces. */
  function Reloaded(st: Store, base: nat, parse: string -> Option<real>, render: real -> string): Store
  {
    var ss := ImportedStudents(st, base);
    Store(ss, EvalsFromRows(ss, JoinTable(st, Listing.ListStudents(st), render), parse),
          base + |st.students|)
  }

  /** With both headers right, the import is the transaction over the two tables' records. */
  lemma ImportLoaded(target: Store, a: CsvTable, b: CsvTable, parse: string -> Option<real>)
    requires a.header == StudentHeader && b.header == EvalHeader
    ensures ImportCsv(target, Loaded(a), Loaded(b), parse) == ReplaceAll(target, a.rows, b.rows, parse)
  {
  }

  /** Importing the exported files succeeds, into any database, and yields `Reloaded`. */
  lemma ImportOfExport(st: Store, target: Store, parse: string -> Option<real>, render: real -> string)
    requires Wf(st)
    ensures var files := ExportCsv(st, render);
            ImportCsv(target, Loaded(files.0), Loaded(files.1), parse)
              == Success(Reloaded(st, target.nextId, parse, render))
  {
    var l := Listing.ListStudents(st);
    var rows := StudentRows(l);
    var erows := JoinTable(st, l, render);
    ImportedStudentsFacts(st, target.nextId);
    var ss := StudentsFromRows(rows, target.nextId);
    assert EvalRowsInsertable(ss, erows);
    var files := ExportCsv(st, render);
    assert files == (CsvTable(StudentHeader, rows), CsvTable(EvalHeader, erows));
    ImportLoaded(target, files.0, files.1, parse);
    var r := ReplaceAll(target, rows, erows, parse);
    assert r.Success?;
    assert r.value == Reloaded(st, target.nextId, parse, render);
  }

  lemma ReloadedFacts(st: Store, base: nat, parse: string -> Option<real>, render: real -> string)
    requires Wf(st)
    ensures var l := Listing.ListStudents(st);
            var st' := Reloaded(st, base, parse, render);
            && Reimports(l, st'.students, base)
            && st'.evals == EvalsFromRows(st'.students, JoinTable(st, l, render), parse)
            && |l| == |st.students|
  {
    ImportedStudentsFacts(st, base);
  }

  /** Each re-imported student owns exactly the re-imported block of its exported evaluations. */
  lemma ReloadedEvaluations(st: Store, l: seq<Student>, st': Store, base: nat,
                            parse: string -> Option<real>, render: real -> string, k: nat)
    requires DatesOk(st) && ScoresRoundTrip(st, parse, render)
    requires Reimports(l, st'.students, base) && st'.evals == EvalsFromRows(st'.students, JoinTable(st, l, render), parse)
    requires k < |l|
    ensures EvalsOf(st'.evals, st'.students[k].id) == ReimportedBlock(Exported(st, l[k]), base + k)
  {
    var xs := ExportedBlocks(st, l);
    assert st'.evals == Flatten(ReimportedBlock, xs, base) by {
      ReloadedConcat(st, l, st', base, parse, render);
    }
    ExportedBlocksAt(st, l, k);
    OwnerOfFlatten(st'.evals, xs, st'.students, base, k);
  }

  lemma ExportedBlocksAt(st: Store, l: seq<Student>, k: nat)
    requires k < |l|
    ensures |ExportedBlocks(st, l)| == |l| && ExportedBlocks(st, l)[k] == Exported(st, l[k])
  {
  }

  /** Student `ss[k]`, with id `base + k`, owns exactly re-imported block `k`. */
  lemma OwnerOfFlatten(evals: seq<Evaluation>, xs: seq<seq<Evaluation>>, ss: seq<Student>, base: nat, k: nat)
    requires evals == Flatten(ReimportedBlock, xs, base)
    requires k < |xs| && k < |ss| && ss[k].id == base + k
    ensures EvalsOf(evals, ss[k].id) == ReimportedBlock(xs[k], base + k)
  {
    ReimportedBlockTags();
    FlattenOwner(ReimportedBlock, xs, base, k);
  }

  /** The re-imported evaluations are the re-imported blocks, one after the other. */
  lemma ReloadedConcat(st: Store, l: seq<Student>, st': Store, base: nat,
                       parse: string -> Option<real>, render: real -> string)
    requires DatesOk(st) && ScoresRoundTrip(st, parse, render)
    requires Reimports(l, st'.students, base) && st'.evals == EvalsFromRows(st'.students, JoinTable(st, l, render), parse)
    ensures st'.evals == Flatten(ReimportedBlock, ExportedBlocks(st, l), base)
  {
    ReimportsFoundFrom(l, st'.students, base);
    SuffixReimport(st, l, st'.students, base, parse, render);
  }

  // ---------------------------------------------------------------------------
  // Export of the re-imported database.
  // ---------------------------------------------------------------------------

  lemma {:induction false} ReimportAllSorted(evs: seq<Evaluation>, id: nat)
    requires Sorting.SortedBy(evs, ByDateDesc)
    ensures Sorting.SortedBy(ReimportAll(evs, id), ByDateDesc)
  {
  }

  lemma {:induction false} RowsRewritten(s: Student, t: Student, evs: seq<Evaluation>, id: nat, render: real -> string)
    requires s.number == t.number && s.name == t.name
    ensures EvalRows(t, ReimportAll(evs, id), render) == EvalRows(s, evs, render)
  {
  }

  /** Re-imported student `t` stands for exported student `s`: same number and name, their block re-imported. */
  ghost predicate SameBlock(st: Store, st': Store, s: Student, t: Student)
  {
    && s.number == t.number && s.name == t.name
    && EvalsOf(st'.evals, t.id) == ReimportedBlock(Exported(st, s), t.id)
  }

  lemma AllBlocksSame(st: Store, l: seq<Student>, st': Store, base: nat,
                      parse: string -> Option<real>, render: real -> string)
    requires DatesOk(st) && ScoresRoundTrip(st, parse, render)
    requires Reimports(l, st'.students, base) && st'.evals == EvalsFromRows(st'.students, JoinTable(st, l, render), parse)
    ensures |st'.students| == |l|
    ensures forall k :: 0 <= k < |l| ==> SameBlock(st, st', l[k], st'.students[k])
  {
    forall k | 0 <= k < |l| ensures SameBlock(st, st', l[k], st'.students[k]) {
      ReloadedSame(st, l, st', base, parse, render, k);
    }
  }

  lemma ReloadedSame(st: Store, l: seq<Student>, st': Store, base: nat,
                     parse: string -> Option<real>, render: real -> string, k: nat)
    requires DatesOk(st) && ScoresRoundTrip(st, parse, render)
    requires Reimports(l, st'.students, base) && st'.evals == EvalsFromRows(st'.students, JoinTable(st, l, render), parse)
    requires k < |l|
    ensures k < |st'.students| && Find(st'.students, l[k].number) == Some(st'.students[k])
    ensures SameBlock(st, st', l[k], st'.students[k])
  {
    ReimportsFind(l, st'.students, base, k);
    var t := st'.students[k];
    assert l[k].number == t.number && l[k].name == t.name;
    ReloadedEvaluations(st, l, st', base, parse, render, k);
    SameBlockIntro(st, st', l[k], t, base + k);
  }

  lemma SameBlockIntro(st: Store, st': Store, s: Student, t: Student, id: nat)
    requires s.number == t.number && s.name == t.name && t.id == id
    requires EvalsOf(st'.evals, t.id) == ReimportedBlock(Exported(st, s), id)
    ensures SameBlock(st, st', s, t)
  {
  }

  lemma BlockReexport(st: Store, st': Store, s: Student, t: Student, render: real -> string)
    requires DatesOk(st) && SameBlock(st, st', s, t)
    ensures StudentBlock(st', t, render) == StudentBlock(st, s, render)
  {
    var evs := Exported(st, s);
    var again := ReimportedBlock(evs, t.id);
    ExportedFacts(st, s);
    if |evs| > 0 {
      ReimportAllSorted(evs, t.id);
      RowsRewritten(s, t, evs, t.id, render);
    }
    Sorting.SortOfSorted(again, ByDateDesc);
  }

  lemma {:induction false} TableReexport(st: Store, st': Store, l: seq<Student>, ts: seq<Student>, j: nat,
                                         render: real -> string)
    requires DatesOk(st) && |ts| == |l| && j <= |l|
    requires forall k :: 0 <= k < |l| ==> SameBlock(st, st', l[k], ts[k])
    ensures JoinTable(st', ts[j..], render) == JoinTable(st, l[j..], render)
    decreases |l| - j
  {
    if j < |l| {
      BlockReexport(st, st', l[j], ts[j], render);
      TableReexport(st, st', l, ts, j + 1, render);
      assert ts[j..][1..] == ts[j + 1..];
      assert l[j..][1..] == l[j + 1..];
    } else {
      assert ts[j..] == [] && l[j..] == [];
    }
  }

  lemma StudentFileReexport(st: Store, st': Store, base: nat, parse: string -> Option<real>, render: real -> string)
    requires Wf(st) && st' == Reloaded(st, base, parse, render)
    ensures Listing.ListStudents(st') == st'.students
    ensures StudentRows(st'.students) == StudentRows(Listing.ListStudents(st))
  {
    var l := Listing.ListStudents(st);
    ImportedStudentsFacts(st, base);
    assert Sorting.SortedBy(st'.students, ByNumber) by {
      assert Sorting.SortedBy(l, ByNumber);
    }
    Sorting.SortOfSorted(st'.students, ByNumber);
  }

  /**
   * Export, import, export: the second export writes the same two files as
   * the first, whatever database the files were imported into.
   */
  lemma ExportImportFixedPoint(st: Store, target: Store, parse: string -> Option<real>, render: real -> string)
    requires Wf(st) && ScoresRoundTrip(st, parse, render)
    ensures var files := ExportCsv(st, render);
            var r := ImportCsv(target, Loaded(files.0), Loaded(files.1), parse);
            && r.Success?
            && ExportCsv(r.value, render) == files
  {
    var base := target.nextId;
    ImportOfExport(st, target, parse, render);
    var st' := Reloaded(st, base, parse, render);
    var l := Listing.ListStudents(st);
    ReloadedFacts(st, base, parse, render);
    StudentFileReexport(st, st', base, parse, render);
    AllBlocksSame(st, l, st', base, parse, render);
    TableReexport(st, st', l, st'.students, 0, render);
    assert st'.students[0..] == st'.students && l[0..] == l;
  }

  /**
   * A student without evaluations comes back from the round trip owning one
   * evaluation with an empty subject, no score, no date and empty notes.
   */
  lemma RoundTripAddsBlankEvaluation(st: Store, target: Store, s: Student,
                                     parse: string -> Option<real>, render: real -> string)
    requires Wf(st) && ScoresRoundTrip(st, parse, render)
    requires s in st.students && EvalsOf(st.evals, s.id) == []
    ensures var files := ExportCsv(st, render);
            var r := ImportCsv(target, Loaded(files.0), Loaded(files.1), parse);
            && r.Success?
            && Find(r.value.students, s.number).Some?
            && var t := Find(r.value.students, s.number).value;
            && t.name == s.name
            && EvalsOf(r.value.evals, t.id) == [Evaluation(t.id, "", None, None, Some(""))]
  {
    ImportOfExport(st, target, parse, render);
    ReloadedBlank(st, target.nextId, s, parse, render);
  }

  /** A student without evaluations stands for a re-imported student owning just the blank evaluation. */
  lemma BlankBlock(st: Store, st': Store, s: Student, t: Student)
    requires SameBlock(st, st', s, t) && EvalsOf(st.evals, s.id) == []
    ensures t.name == s.name
    ensures EvalsOf(st'.evals, t.id) == [BlankEvaluation(t.id)]
  {
    assert Exported(st, s) == [];
  }

  lemma ReloadedBlank(st: Store, base: nat, s: Student, parse: string -> Option<real>, render: real -> string)
    requires Wf(st) && ScoresRoundTrip(st, parse, render)
    requires s in st.students && EvalsOf(st.evals, s.id) == []
    ensures var st' := Reloaded(st, base, parse, render);
            && Find(st'.students, s.number).Some?
            && var t := Find(st'.students, s.number).value;
            && t.name == s.name
            && EvalsOf(st'.evals, t.id) == [BlankEvaluation(t.id)]
  {
    var l := Listing.ListStudents(st);
    ReloadedFacts(st, base, parse, render);
    assert s in multiset(l);
    var k :| 0 <= k < |l| && l[k] == s;
    var st' := Reloaded(st, base, parse, render);
    ReloadedSame(st, l, st', base, parse, render, k);
    BlankBlock(st, st', l[k], st'.students[k]);
  }

  /** The imported students are the exported ones, number for number, in listing order. */
  lemma RoundTripStudents(st: Store, target: Store, parse: string -> Option<real>, render: real -> string)
    requires Wf(st)
    ensures var files := ExportCsv(st, render);
            var r := ImportCsv(target, Loaded(files.0), Loaded(files.1), parse);
            var l := Listing.ListStudents(st);
            && r.Success?
            && |r.value.students| == |l|
            && forall k :: 0 <= k < |l| ==>
                 && r.value.students[k].number == l[k].number && r.value.students[k].name == l[k].name
                 && r.value.students[k].createdAt == Some(Cell(l[k].createdAt))
  {
    ImportOfExport(st, target, parse, render);
    ImportedStudentsFacts(st, target.nextId);
  }
}
