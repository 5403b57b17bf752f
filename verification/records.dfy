/**
 * The two tables of the application's SQLite database as values.
 *
 *   students(id INTEGER PRIMARY KEY AUTOINCREMENT, student_number TEXT UNIQUE,
 *            name TEXT NOT NULL, created_at TIMESTAMP, last_modified TIMESTAMP)
 *   evaluations(id, student_id INTEGER REFERENCES students(id), subject TEXT NOT NULL,
 *               score REAL, evaluation_date DATE, notes TEXT)
 *
 * `None` is SQL NULL. Timestamps are opaque text supplied by the caller.
 */
module Records {
  import opened Wrappers
  import opened Text
  import Dates
  import Sorting

  type Timestamp = string

  datatype Student = Student(
    id: nat,
    number: string,
    name: string,
    createdAt: Option<Timestamp>,
    lastModified: Option<Timestamp>)

  /** An evaluation row; `studentId` links it to a student by internal id. */
  datatype Evaluation = Evaluation(
    studentId: nat,
    subject: string,
    score: Option<real>,
    date: Option<string>,
    notes: Option<string>)

  /**
   * The database: both tables in row order, plus the AUTOINCREMENT counter.
   * A new student gets id `nextId`; ids are never handed out twice, even after
   * rows are deleted.
   */
  datatype Store = Store(students: seq<Student>, evals: seq<Evaluation>, nextId: nat)

  /** What the user is told when an operation changes nothing. */
  datatype Error =
    | NoSelection            // no student (or no evaluation row) is selected
    | BlankField             // a required form field is empty after stripping
    | DuplicateNumber        // sqlite3.IntegrityError from the UNIQUE student_number
    | ScoreNotNumeric        // float(score) raised ValueError
    | BadDateFormat          // is_valid_date rejected the evaluation date
    | StudentNotFound        // no student row has the selected number
    | StudentHeaderMismatch  // the student CSV has the wrong columns
    | EvalHeaderMismatch     // the evaluation CSV has the wrong columns
    | ReadFailed             // a CSV file could not be opened or decoded
    | RolledBack             // an INSERT of the import failed; the transaction was rolled back

  /** A freshly created database. */
  const Empty: Store := Store([], [], 1)

  function Numbers(ss: seq<Student>): set<string>
  {
    set s | s in ss :: s.number
  }

  predicate UniqueNumbers(ss: seq<Student>)
  {
    forall i, j :: 0 <= i < j < |ss| ==> ss[i].number != ss[j].number
  }

  predicate UniqueIds(ss: seq<Student>)
  {
    forall i, j :: 0 <= i < j < |ss| ==> ss[i].id != ss[j].id
  }

  /** A stored evaluation date is either NULL or passed `is_valid_date`. */
  predicate DateOk(e: Evaluation)
  {
    e.date.None? || Dates.IsValidDate(e.date.value)
  }

  /**
   * The invariant every reachable database satisfies: the UNIQUE constraint on
   * student_number, distinct ids below the AUTOINCREMENT counter (so an
   * evaluation can never be re-attached to a later student), and only
   * validated evaluation dates.
   */
  predicate Wf(st: Store)
  {
    && UniqueNumbers(st.students)
    && UniqueIds(st.students)
    && (forall s :: s in st.students ==> s.id < st.nextId)
    && (forall e :: e in st.evals ==> e.studentId < st.nextId && DateOk(e))
  }

  lemma EmptyWf()
    ensures Wf(Empty) && Empty.students == [] && Empty.evals == []
  {
  }

  /** `SELECT ... FROM students WHERE student_number = n`, first match. */
  function Find(ss: seq<Student>, n: string): (r: Option<Student>)
    ensures r.Some? <==> n in Numbers(ss)
    ensures r.Some? ==> r.value in ss && r.value.number == n
  {
    if |ss| == 0 then None
    else if ss[0].number == n then Some(ss[0])
    else
      assert forall s :: s in ss ==> s == ss[0] || s in ss[1..];
      Find(ss[1..], n)
  }

  /** With unique numbers, the row `Find` returns is the only one with that number. */
  lemma FindUnique(ss: seq<Student>, n: string, s: Student)
    requires UniqueNumbers(ss) && s in ss && s.number == n
    ensures Find(ss, n) == Some(s)
  {
    var t := Find(ss, n).value;
    var i :| 0 <= i < |ss| && ss[i] == s;
    var j :| 0 <= j < |ss| && ss[j] == t;
    assert i == j;
  }

  /** With unique ids, a row is identified by its id. */
  lemma SameIdSameRow(ss: seq<Student>, a: Student, b: Student)
    requires UniqueIds(ss) && a in ss && b in ss && a.id == b.id
    ensures a == b
  {
  }

  /** `SELECT ... FROM evaluations WHERE student_id = id`, in table order. */
  function EvalsOf(evals: seq<Evaluation>, id: nat): (r: seq<Evaluation>)
    ensures |r| <= |evals|
  {
    if |evals| == 0 then []
    else (if evals[0].studentId == id then [evals[0]] else []) + EvalsOf(evals[1..], id)
  }

  /** `EvalsOf` keeps exactly the evaluations of the student. */
  lemma {:induction false} EvalsOfMembers(evals: seq<Evaluation>, id: nat)
    ensures forall e :: e in EvalsOf(evals, id) <==> e in evals && e.studentId == id
  {
    if |evals| > 0 {
      EvalsOfMembers(evals[1..], id);
      assert forall e :: e in evals <==> e == evals[0] || e in evals[1..];
    }
  }

  lemma {:induction false} EvalsOfAppend(a: seq<Evaluation>, b: seq<Evaluation>, id: nat)
    ensures EvalsOf(a + b, id) == EvalsOf(a, id) + EvalsOf(b, id)
  {
    if |a| > 0 {
      assert (a + b)[1..] == a[1..] + b;
      EvalsOfAppend(a[1..], b, id);
    } else {
      assert a + b == b;
    }
  }

  /** A subsequence of evaluations that all belong to `id` is its own selection. */
  lemma {:induction false} EvalsOfAll(evals: seq<Evaluation>, id: nat)
    requires forall e :: e in evals ==> e.studentId == id
    ensures EvalsOf(evals, id) == evals
  {
    if |evals| > 0 {
      EvalsOfAll(evals[1..], id);
      assert evals == [evals[0]] + evals[1..];
    }
  }

  lemma {:induction false} EvalsOfNone(evals: seq<Evaluation>, id: nat)
    requires forall e :: e in evals ==> e.studentId != id
    ensures EvalsOf(evals, id) == []
  {
    if |evals| > 0 {
      EvalsOfNone(evals[1..], id);
    }
  }

  // ---------------------------------------------------------------------------
  // Orderings used by the listings.
  // ---------------------------------------------------------------------------

  /** `ORDER BY student_number`: BINARY collation, ascending. */
  function ByNumber(a: Student, b: Student): bool
  {
    LexLe(a.number, b.number)
  }

  /**
   * `ORDER BY evaluation_date DESC`: later dates first; NULL sorts lowest in
   * SQLite, so NULL dates come last.
   */
  function ByDateDesc(a: Evaluation, b: Evaluation): bool
  {
    match (a.date, b.date)
    case (Some(x), Some(y)) => LexLe(y, x)
    case (Some(_), None) => true
    case (None, Some(_)) => false
    case (None, None) => true
  }

  lemma ByNumberPreorder()
    ensures Sorting.TotalPreorder(ByNumber)
  {
    forall a: Student, b: Student ensures ByNumber(a, b) || ByNumber(b, a) {
      LexLeTotal(a.number, b.number);
    }
    forall a: Student, b: Student, c: Student | ByNumber(a, b) && ByNumber(b, c)
      ensures ByNumber(a, c)
    {
      LexLeTrans(a.number, b.number, c.number);
    }
  }

  lemma ByDateDescPreorder()
    ensures Sorting.TotalPreorder(ByDateDesc)
  {
    forall a: Evaluation, b: Evaluation ensures ByDateDesc(a, b) || ByDateDesc(b, a) {
      if a.date.Some? && b.date.Some? {
        LexLeTotal(a.date.value, b.date.value);
      }
    }
    forall a: Evaluation, b: Evaluation, c: Evaluation | ByDateDesc(a, b) && ByDateDesc(b, c)
      ensures ByDateDesc(a, c)
    {
      if a.date.Some? && b.date.Some? && c.date.Some? {
        LexLeTrans(c.date.value, b.date.value, a.date.value);
      }
    }
  }

  /** Sorting by number yields number order (the preorder facts stay inside this proof). */
  lemma SortByNumberSorted(ss: seq<Student>)
    ensures Sorting.SortedBy(Sorting.Sort(ss, ByNumber), ByNumber)
  {
    ByNumberPreorder();
    Sorting.SortSorted(ss, ByNumber);
  }

  /** Sorting by date yields latest-first order. */
  lemma SortByDateSorted(evals: seq<Evaluation>)
    ensures Sorting.SortedBy(Sorting.Sort(evals, ByDateDesc), ByDateDesc)
  {
    ByDateDescPreorder();
    Sorting.SortSorted(evals, ByDateDesc);
  }
}
