/**
 * The record-store operations behind the form buttons: `add_student`,
 * `update_student`, `delete_student`, `add_evaluation`, `delete_evaluation`.
 * Each maps the database, the form fields, the selected student number and
 * the current time to the new database, or to the error the user is shown,
 * in which case the database is unchanged.
 */
module Operations {
  import opened Wrappers
  import opened Text
  import opened Records
  import Dates
  import Listing
  import Sorting

  // ---------------------------------------------------------------------------
  // add_student
  // ---------------------------------------------------------------------------

  /** Inserts a student with the stripped number and name, stamped `now` twice. */
  function AddStudent(st: Store, numText: string, nameText: string, now: Timestamp): (r: Result<Store, Error>)
    ensures r == Failure(BlankField) <==> Strip(numText) == [] || Strip(nameText) == []
    ensures r == Failure(DuplicateNumber) <==>
              Strip(numText) != [] && Strip(nameText) != [] && Strip(numText) in Numbers(st.students)
    ensures r.Success? <==>
              Strip(numText) != [] && Strip(nameText) != [] && Strip(numText) !in Numbers(st.students)
    ensures r.Success? ==>
              && r.value.evals == st.evals
              && r.value.nextId == st.nextId + 1
              && |r.value.students| == |st.students| + 1
              && r.value.students[..|st.students|] == st.students
              && var s := r.value.students[|st.students|];
                 && s.id == st.nextId
                 && s.number == Strip(numText) && s.name == Strip(nameText)
                 && s.createdAt == s.lastModified == Some(now)
  {
    var num := Strip(numText);
    var name := Strip(nameText);
    if num == [] || name == [] then Failure(BlankField)
    else if num in Numbers(st.students) then Failure(DuplicateNumber)
    else
      var s := Student(st.nextId, num, name, Some(now), Some(now));
      Success(st.(students := st.students + [s], nextId := st.nextId + 1))
  }

  lemma AddStudentWf(st: Store, numText: string, nameText: string, now: Timestamp)
    requires Wf(st)
    ensures AddStudent(st, numText, nameText, now).Success? ==> Wf(AddStudent(st, numText, nameText, now).value)
  {
    var r := AddStudent(st, numText, nameText, now);
    if r.Success? {
      var s := Student(st.nextId, Strip(numText), Strip(nameText), Some(now), Some(now));
      AppendStudentWf(st, s);
    }
  }

  /** Appending a row with a fresh number under the next id, and advancing the counter, keeps `Wf`. */
  lemma AppendStudentWf(st: Store, s: Student)
    requires Wf(st) && s.number !in Numbers(st.students) && s.id == st.nextId
    ensures Wf(st.(students := st.students + [s], nextId := st.nextId + 1))
  {
    var ss := st.students + [s];
    var n := |st.students|;
    assert forall i :: 0 <= i < n ==> ss[i] == st.students[i] && ss[i] in st.students;
  }

  /** Number of student rows with number `n`. */
  function CountNumber(ss: seq<Student>, n: string): (c: nat)
    ensures c <= |ss|
    ensures c == 0 <==> n !in Numbers(ss)
  {
    if |ss| == 0 then 0
    else
      assert forall s :: s in ss ==> s == ss[0] || s in ss[1..];
      (if ss[0].number == n then 1 else 0) + CountNumber(ss[1..], n)
  }

  lemma {:induction false} CountUnique(ss: seq<Student>, n: string)
    requires UniqueNumbers(ss) && n in Numbers(ss)
    ensures CountNumber(ss, n) == 1
  {
    if ss[0].number == n {
      assert n !in Numbers(ss[1..]) by {
        assert forall i :: 0 <= i < |ss[1..]| ==> ss[1..][i].number != n;
      }
    } else {
      CountUnique(ss[1..], n);
    }
  }

  /** A second student with an existing number is refused and exactly one row keeps that number. */
  lemma DuplicateKeepsOne(st: Store, numText: string, nameText: string, now: Timestamp)
    requires Wf(st)
    requires AddStudent(st, numText, nameText, now) == Failure(DuplicateNumber)
    ensures CountNumber(st.students, Strip(numText)) == 1
  {
    CountUnique(st.students, Strip(numText));
  }

  /** Adding a new, non-blank number succeeds, and looking it up finds the new row with created == modified == now. */
  lemma AddThenFind(st: Store, numText: string, nameText: string, now: Timestamp)
    requires Wf(st)
    requires Strip(numText) != [] && Strip(nameText) != [] && Strip(numText) !in Numbers(st.students)
    ensures AddStudent(st, numText, nameText, now).Success?
    ensures var st' := AddStudent(st, numText, nameText, now).value;
            && Find(st'.students, Strip(numText)).Some?
            && var s := Find(st'.students, Strip(numText)).value;
            && s.name == Strip(nameText) && s.createdAt == s.lastModified == Some(now)
            && CountNumber(st'.students, Strip(numText)) == 1
  {
    var st' := AddStudent(st, numText, nameText, now).value;
    AddStudentWf(st, numText, nameText, now);
    var s := st'.students[|st.students|];
    FindUnique(st'.students, Strip(numText), s);
    CountUnique(st'.students, Strip(numText));
  }

  // ---------------------------------------------------------------------------
  // update_student
  // ---------------------------------------------------------------------------

  /** `UPDATE students SET student_number, name, last_modified WHERE student_number = selected`. */
  function Rename(ss: seq<Student>, selected: string, num: string, name: string, now: Timestamp): (r: seq<Student>)
    ensures |r| == |ss|
    ensures forall i :: 0 <= i < |ss| && ss[i].number != selected ==> r[i] == ss[i]
    ensures forall i :: 0 <= i < |ss| && ss[i].number == selected ==>
              r[i].id == ss[i].id && r[i].createdAt == ss[i].createdAt
              && r[i].number == num && r[i].name == name && r[i].lastModified == Some(now)
  {
    if |ss| == 0 then []
    else
      var s := if ss[0].number == selected then ss[0].(number := num, name := name, lastModified := Some(now)) else ss[0];
      [s] + Rename(ss[1..], selected, num, name, now)
  }

  /**
   * Renames the selected student. When no row has the selected number the
   * UPDATE matches nothing and succeeds without a change; the UNIQUE
   * constraint refuses a number held by another row.
   */
  function UpdateStudent(st: Store, selected: Option<string>, numText: string, nameText: string, now: Timestamp)
    : (r: Result<Store, Error>)
    ensures r == Failure(NoSelection) <==> selected.None?
    ensures r == Failure(BlankField) <==> selected.Some? && (Strip(numText) == [] || Strip(nameText) == [])
    ensures r == Failure(DuplicateNumber) <==>
              && selected.Some? && Strip(numText) != [] && Strip(nameText) != []
              && selected.value in Numbers(st.students)
              && Strip(numText) != selected.value && Strip(numText) in Numbers(st.students)
    ensures r.Success? <==>
              && selected.Some? && Strip(numText) != [] && Strip(nameText) != []
              && (selected.value !in Numbers(st.students) || Strip(numText) == selected.value
                  || Strip(numText) !in Numbers(st.students))
    ensures r.Success? ==>
              && r.value.evals == st.evals && r.value.nextId == st.nextId
              && |r.value.students| == |st.students|
              && forall i :: 0 <= i < |st.students| ==>
                   && r.value.students[i].id == st.students[i].id
                   && r.value.students[i].createdAt == st.students[i].createdAt
                   && (st.students[i].number != selected.value ==> r.value.students[i] == st.students[i])
                   && (st.students[i].number == selected.value ==>
                         && r.value.students[i].number == Strip(numText)
                         && r.value.students[i].name == Strip(nameText)
                         && r.value.students[i].lastModified == Some(now))
  {
    if selected.None? then Failure(NoSelection)
    else
      var num := Strip(numText);
      var name := Strip(nameText);
      if num == [] || name == [] then Failure(BlankField)
      else if selected.value !in Numbers(st.students) then Success(st)
      else if num != selected.value && num in Numbers(st.students) then Failure(DuplicateNumber)
      else Success(st.(students := Rename(st.students, selected.value, num, name, now)))
  }

  lemma UpdateStudentWf(st: Store, selected: Option<string>, numText: string, nameText: string, now: Timestamp)
    requires Wf(st)
    ensures UpdateStudent(st, selected, numText, nameText, now).Success? ==>
              Wf(UpdateStudent(st, selected, numText, nameText, now).value)
  {
    var r := UpdateStudent(st, selected, numText, nameText, now);
    if r.Success? && selected.value in Numbers(st.students) {
      var ss := r.value.students;
      var prev := st.students;
      var num := Strip(numText);
      forall i, j | 0 <= i < j < |ss| ensures ss[i].number != ss[j].number {
        if prev[i].number == selected.value {
          assert prev[j].number != selected.value;
          assert prev[j] in prev;
        } else if prev[j].number == selected.value {
          assert prev[i] in prev;
        }
      }
      forall s | s in ss ensures s.id < st.nextId {
        var i :| 0 <= i < |ss| && ss[i] == s;
        assert prev[i] in prev;
      }
    }
  }

  /**
   * Evaluations follow a renamed student: they are linked by the internal id,
   * which the update keeps, so the evaluation view under the new number is the
   * view that was shown under the old one.
   */
  lemma UpdateKeepsEvaluations(st: Store, sel: string, numText: string, nameText: string, now: Timestamp)
    requires Wf(st) && sel in Numbers(st.students)
    requires Strip(numText) != [] && Strip(nameText) != []
    requires Strip(numText) == sel || Strip(numText) !in Numbers(st.students)
    ensures UpdateStudent(st, Some(sel), numText, nameText, now).Success?
    ensures var st' := UpdateStudent(st, Some(sel), numText, nameText, now).value;
            Listing.ListEvaluations(st', Strip(numText)) == Listing.ListEvaluations(st, sel)
  {
    var st' := UpdateStudent(st, Some(sel), numText, nameText, now).value;
    UpdateStudentWf(st, Some(sel), numText, nameText, now);
    var s := Find(st.students, sel).value;
    var i :| 0 <= i < |st.students| && st.students[i] == s;
    FindUnique(st'.students, Strip(numText), st'.students[i]);
  }

  // ---------------------------------------------------------------------------
  // delete_student
  // ---------------------------------------------------------------------------

  /** The student rows whose number is not `n`, in table order. */
  function WithoutNumber(ss: seq<Student>, n: string): (r: seq<Student>)
    ensures |r| <= |ss|
    ensures forall s :: s in r <==> s in ss && s.number != n
  {
    if |ss| == 0 then []
    else
      assert forall s :: s in ss ==> s == ss[0] || s in ss[1..];
      (if ss[0].number != n then [ss[0]] else []) + WithoutNumber(ss[1..], n)
  }

  /**
   * `DELETE FROM students WHERE student_number = selected`, under the
   * application's own schema: the foreign key has no ON DELETE CASCADE and
   * foreign keys are not enabled, so the student's evaluations stay behind.
   */
  function DeleteStudent(st: Store, selected: Option<string>): (r: Result<Store, Error>)
    ensures r == Failure(NoSelection) <==> selected.None?
    ensures r.Success? <==> selected.Some?
    ensures r.Success? ==>
              && r.value.evals == st.evals && r.value.nextId == st.nextId
              && (forall s :: s in r.value.students <==> s in st.students && s.number != selected.value)
              && Numbers(r.value.students) == Numbers(st.students) - {selected.value}
  {
    if selected.None? then Failure(NoSelection)
    else Success(st.(students := WithoutNumber(st.students, selected.value)))
  }

  /** The evaluations whose student id is not `id`, in table order. */
  function WithoutStudent(evals: seq<Evaluation>, id: nat): (r: seq<Evaluation>)
    ensures |r| <= |evals|
    ensures forall e :: e in r <==> e in evals && e.studentId != id
  {
    if |evals| == 0 then []
    else
      assert forall e :: e in evals ==> e == evals[0] || e in evals[1..];
      (if evals[0].studentId != id then [evals[0]] else []) + WithoutStudent(evals[1..], id)
  }

  /** The delete as the tests' schema (ON DELETE CASCADE, foreign keys on) performs it. */
  function DeleteStudentCascade(st: Store, selected: Option<string>): (r: Result<Store, Error>)
    ensures r == Failure(NoSelection) <==> selected.None?
    ensures r.Success? <==> selected.Some?
    ensures r.Success? ==>
              && r.value.nextId == st.nextId
              && (forall s :: s in r.value.students <==> s in st.students && s.number != selected.value)
              && (Find(st.students, selected.value).Some? ==>
                    && EvalsOf(r.value.evals, Find(st.students, selected.value).value.id) == []
                    && forall e :: e in r.value.evals <==>
                         e in st.evals && e.studentId != Find(st.students, selected.value).value.id)
              && (Find(st.students, selected.value).None? ==> r.value == st)
  {
    if selected.None? then Failure(NoSelection)
    else match Find(st.students, selected.value)
      case None => Success(st)
      case Some(s) =>
        var evals := WithoutStudent(st.evals, s.id);
        EvalsOfNone(evals, s.id);
        Success(Store(WithoutNumber(st.students, selected.value), evals, st.nextId))
  }

  lemma DeleteStudentWf(st: Store, selected: Option<string>)
    requires Wf(st)
    ensures DeleteStudent(st, selected).Success? ==> Wf(DeleteStudent(st, selected).value)
    ensures DeleteStudentCascade(st, selected).Success? ==> Wf(DeleteStudentCascade(st, selected).value)
  {
    if selected.Some? {
      SubsequenceKeepsUnique(st.students, selected.value);
    }
  }

  lemma {:induction false} SubsequenceKeepsUnique(ss: seq<Student>, n: string)
    requires UniqueNumbers(ss) && UniqueIds(ss)
    ensures UniqueNumbers(WithoutNumber(ss, n)) && UniqueIds(WithoutNumber(ss, n))
  {
    if |ss| > 0 {
      SubsequenceKeepsUnique(ss[1..], n);
      var rest := WithoutNumber(ss[1..], n);
      if ss[0].number != n {
        forall t | t in rest ensures t.number != ss[0].number && t.id != ss[0].id {
          var k :| 0 <= k < |ss[1..]| && ss[1..][k] == t;
          assert ss[k + 1] == t;
        }
        ConsUnique(ss[0], rest);
      }
    }
  }

  /** A row differing in number and id from every row of a unique list keeps it unique. */
  lemma ConsUnique(s: Student, rest: seq<Student>)
    requires UniqueNumbers(rest) && UniqueIds(rest)
    requires forall t :: t in rest ==> t.number != s.number && t.id != s.id
    ensures UniqueNumbers([s] + rest) && UniqueIds([s] + rest)
  {
    var l := [s] + rest;
    assert forall i :: 1 <= i < |l| ==> l[i] == rest[i - 1] && rest[i - 1] in rest;
  }

  /** The row is gone and every evaluation row is still there. */
  lemma DeleteLeavesEvaluations(st: Store, sel: string)
    requires Wf(st) && sel in Numbers(st.students)
    ensures var st' := DeleteStudent(st, Some(sel)).value;
            && sel !in Numbers(st'.students)
            && |st'.students| == |st.students| - 1
            && st'.evals == st.evals
  {
    CountUnique(st.students, sel);
    WithoutCount(st.students, sel);
  }

  lemma {:induction false} WithoutCount(ss: seq<Student>, n: string)
    ensures |WithoutNumber(ss, n)| == |ss| - CountNumber(ss, n)
  {
    if |ss| > 0 {
      WithoutCount(ss[1..], n);
    }
  }

  // ---------------------------------------------------------------------------
  // add_evaluation
  // ---------------------------------------------------------------------------

  /** `UPDATE students SET last_modified = now WHERE id = id`. */
  function Touch(ss: seq<Student>, id: nat, now: Timestamp): (r: seq<Student>)
    ensures |r| == |ss|
    ensures forall i :: 0 <= i < |ss| ==>
              r[i] == (if ss[i].id == id then ss[i].(lastModified := Some(now)) else ss[i])
  {
    if |ss| == 0 then []
    else [if ss[0].id == id then ss[0].(lastModified := Some(now)) else ss[0]] + Touch(ss[1..], id, now)
  }

  lemma TouchWf(st: Store, id: nat, now: Timestamp)
    requires Wf(st)
    ensures Wf(st.(students := Touch(st.students, id, now)))
  {
    var ss := Touch(st.students, id, now);
    assert forall i :: 0 <= i < |ss| ==> ss[i].id == st.students[i].id && ss[i].number == st.students[i].number;
    SameKeysWf(st, ss);
  }

  /** Replacing the students by rows with the same ids and numbers, position by position, keeps `Wf`. */
  lemma SameKeysWf(st: Store, ss: seq<Student>)
    requires Wf(st) && |ss| == |st.students|
    requires forall i :: 0 <= i < |ss| ==> ss[i].id == st.students[i].id && ss[i].number == st.students[i].number
    ensures Wf(st.(students := ss))
  {
    forall s | s in ss ensures s.id < st.nextId {
      var i :| 0 <= i < |ss| && ss[i] == s;
      assert st.students[i] in st.students;
    }
  }

  /** Appending an evaluation of a stored id with an accepted date keeps `Wf`. */
  lemma AppendEvaluationWf(st: Store, e: Evaluation)
    requires Wf(st) && e.studentId < st.nextId && DateOk(e)
    ensures Wf(st.(evals := st.evals + [e]))
  {
    assert forall x :: x in st.evals + [e] ==> x in st.evals || x == e;
  }

  /**
   * Appends an evaluation for the selected student after checking, in order:
   * a selection exists, subject, score and date are non-blank, the score parses
   * as a number (`parse` stands for `float`), the date is valid, and the
   * selected number still names a student. The student's `last_modified`
   * becomes `now`.
   */
  function AddEvaluation(st: Store, selected: Option<string>, subjectText: string, scoreText: string,
                         dateText: string, notesText: string, now: Timestamp,
                         parse: string -> Option<real>): (r: Result<Store, Error>)
    ensures r == Failure(NoSelection) <==> selected.None?
    ensures r == Failure(BlankField) <==>
              selected.Some? && (Strip(subjectText) == [] || Strip(scoreText) == [] || Strip(dateText) == [])
    ensures r == Failure(ScoreNotNumeric) <==>
              && selected.Some? && Strip(subjectText) != [] && Strip(scoreText) != [] && Strip(dateText) != []
              && parse(Strip(scoreText)).None?
    ensures r == Failure(BadDateFormat) <==>
              && selected.Some? && Strip(subjectText) != [] && Strip(scoreText) != [] && Strip(dateText) != []
              && parse(Strip(scoreText)).Some? && !Dates.IsCalendarDate(Strip(dateText))
    ensures r == Failure(StudentNotFound) <==>
              && selected.Some? && Strip(subjectText) != [] && Strip(scoreText) != [] && Strip(dateText) != []
              && parse(Strip(scoreText)).Some? && Dates.IsCalendarDate(Strip(dateText))
              && selected.value !in Numbers(st.students)
    ensures r.Success? <==>
              && selected.Some? && Strip(subjectText) != [] && Strip(scoreText) != [] && Strip(dateText) != []
              && parse(Strip(scoreText)).Some? && Dates.IsCalendarDate(Strip(dateText))
              && selected.value in Numbers(st.students)
    ensures r.Success? ==>
              && var owner := Find(st.students, selected.value).value;
              && r.value.nextId == st.nextId
              && |r.value.evals| == |st.evals| + 1
              && r.value.evals[..|st.evals|] == st.evals
              && r.value.evals[|st.evals|] == Evaluation(owner.id, Strip(subjectText), parse(Strip(scoreText)),
                                                         Some(Strip(dateText)), Some(Strip(notesText)))
              && |r.value.students| == |st.students|
              && forall i :: 0 <= i < |st.students| ==>
                   r.value.students[i] == (if st.students[i].id == owner.id
                                           then st.students[i].(lastModified := Some(now))
                                           else st.students[i])
  {
    Dates.IsValidDateCorrect(Strip(dateText));
    if selected.None? then Failure(NoSelection)
    else
      var subject, score, date, notes := Strip(subjectText), Strip(scoreText), Strip(dateText), Strip(notesText);
      if subject == [] || score == [] || date == [] then Failure(BlankField)
      else match parse(score)
        case None => Failure(ScoreNotNumeric)
        case Some(value) =>
          if !Dates.IsValidDate(date) then Failure(BadDateFormat)
          else match Find(st.students, selected.value)
            case None => Failure(StudentNotFound)
            case Some(owner) =>
              var e := Evaluation(owner.id, subject, Some(value), Some(date), Some(notes));
              Success(Store(Touch(st.students, owner.id, now), st.evals + [e], st.nextId))
  }

  lemma AddEvaluationWf(st: Store, selected: Option<string>, subjectText: string, scoreText: string,
                        dateText: string, notesText: string, now: Timestamp, parse: string -> Option<real>)
    requires Wf(st)
    ensures var r := AddEvaluation(st, selected, subjectText, scoreText, dateText, notesText, now, parse);
            r.Success? ==> Wf(r.value)
  {
    var r := AddEvaluation(st, selected, subjectText, scoreText, dateText, notesText, now, parse);
    if r.Success? {
      var owner := Find(st.students, selected.value).value;
      var touched := st.(students := Touch(st.students, owner.id, now));
      var e := r.value.evals[|st.evals|];
      TouchWf(st, owner.id, now);
      Dates.IsValidDateCorrect(Strip(dateText));
      AppendEvaluationWf(touched, e);
      assert r.value == touched.(evals := touched.evals + [e]);
    }
  }

  /** Only the owner's evaluation view grows; every other student's stays as it was. */
  lemma AddEvaluationFrame(st: Store, selected: Option<string>, subjectText: string, scoreText: string,
                           dateText: string, notesText: string, now: Timestamp, parse: string -> Option<real>,
                           id: nat)
    requires AddEvaluation(st, selected, subjectText, scoreText, dateText, notesText, now, parse).Success?
    ensures var r := AddEvaluation(st, selected, subjectText, scoreText, dateText, notesText, now, parse).value;
            var owner := Find(st.students, selected.value).value;
            && (id != owner.id ==> EvalsOf(r.evals, id) == EvalsOf(st.evals, id))
            && (id == owner.id ==> |EvalsOf(r.evals, id)| == |EvalsOf(st.evals, id)| + 1)
  {
    var r := AddEvaluation(st, selected, subjectText, scoreText, dateText, notesText, now, parse).value;
    var n := |st.evals|;
    assert r.evals == st.evals + [r.evals[n]];
    EvalsOfAppend(st.evals, [r.evals[n]], id);
  }

  // ---------------------------------------------------------------------------
  // delete_evaluation
  // ---------------------------------------------------------------------------

  /** The (subject, score, date) triple read back from the selected row of the evaluation table. */
  datatype EvalKey = EvalKey(subject: string, score: Option<real>, date: Option<string>)

  /**
   * `student_id = ? AND subject = ? AND score = ? AND evaluation_date = ?`:
   * a NULL score or date shows as the text "None", which equals nothing, so a
   * row with a NULL score or date is never matched.
   */
  predicate Matches(e: Evaluation, id: nat, key: EvalKey)
  {
    && e.studentId == id && e.subject == key.subject
    && key.score.Some? && e.score == key.score
    && key.date.Some? && e.date == key.date
  }

  function RemoveMatching(evals: seq<Evaluation>, id: nat, key: EvalKey): (r: seq<Evaluation>)
    ensures |r| <= |evals|
    ensures forall e :: e in r <==> e in evals && !Matches(e, id, key)
  {
    if |evals| == 0 then []
    else
      assert forall e :: e in evals ==> e == evals[0] || e in evals[1..];
      (if Matches(evals[0], id, key) then [] else [evals[0]]) + RemoveMatching(evals[1..], id, key)
  }

  /**
   * Deletes every evaluation of the selected student that matches the selected
   * row's triple, not just one, and stamps the student's `last_modified`
   * (even when nothing matched).
   */
  function DeleteEvaluation(st: Store, selected: Option<string>, row: Option<EvalKey>, now: Timestamp)
    : (r: Result<Store, Error>)
    ensures r == Failure(NoSelection) <==> row.None? || selected.None?
    ensures r == Failure(StudentNotFound) <==> row.Some? && selected.Some? && selected.value !in Numbers(st.students)
    ensures r.Success? <==> row.Some? && selected.Some? && selected.value in Numbers(st.students)
    ensures r.Success? ==>
              && var owner := Find(st.students, selected.value).value;
              && r.value.nextId == st.nextId
              && (forall e :: e in r.value.evals <==> e in st.evals && !Matches(e, owner.id, row.value))
              && (forall e :: multiset(r.value.evals)[e]
                               == if Matches(e, owner.id, row.value) then 0 else multiset(st.evals)[e])
              && |r.value.students| == |st.students|
              && forall i :: 0 <= i < |st.students| ==>
                   r.value.students[i] == (if st.students[i].id == owner.id
                                           then st.students[i].(lastModified := Some(now))
                                           else st.students[i])
  {
    if row.None? || selected.None? then Failure(NoSelection)
    else match Find(st.students, selected.value)
      case None => Failure(StudentNotFound)
      case Some(owner) =>
        RemoveMatchingCounts(st.evals, owner.id, row.value);
        Success(Store(Touch(st.students, owner.id, now), RemoveMatching(st.evals, owner.id, row.value), st.nextId))
  }

  /** Every copy of a matching evaluation goes; every copy of any other stays. */
  lemma {:induction false} RemoveMatchingCounts(evals: seq<Evaluation>, id: nat, key: EvalKey)
    ensures forall e :: multiset(RemoveMatching(evals, id, key))[e]
                          == if Matches(e, id, key) then 0 else multiset(evals)[e]
  {
    if |evals| > 0 {
      RemoveMatchingCounts(evals[1..], id, key);
      assert evals == [evals[0]] + evals[1..];
      var head := if Matches(evals[0], id, key) then [] else [evals[0]];
      assert multiset(RemoveMatching(evals, id, key)) == multiset(head) + multiset(RemoveMatching(evals[1..], id, key));
    }
  }

  lemma {:induction false} RemoveMatchingOthers(evals: seq<Evaluation>, id: nat, key: EvalKey, other: nat)
    requires other != id
    ensures EvalsOf(RemoveMatching(evals, id, key), other) == EvalsOf(evals, other)
  {
    if |evals| > 0 {
      RemoveMatchingOthers(evals[1..], id, key, other);
      var head := if Matches(evals[0], id, key) then [] else [evals[0]];
      EvalsOfAppend(head, RemoveMatching(evals[1..], id, key), other);
    }
  }

  /** Other students' evaluations are untouched; no evaluation of the owner matching the triple remains. */
  lemma DeleteEvaluationFrame(st: Store, selected: Option<string>, row: Option<EvalKey>, now: Timestamp, other: nat)
    requires Wf(st)
    requires DeleteEvaluation(st, selected, row, now).Success?
    ensures var r := DeleteEvaluation(st, selected, row, now).value;
            var owner := Find(st.students, selected.value).value;
            && Wf(r)
            && (other != owner.id ==> EvalsOf(r.evals, other) == EvalsOf(st.evals, other))
            && (forall e :: e in EvalsOf(r.evals, owner.id) ==> !Matches(e, owner.id, row.value))
  {
    var owner := Find(st.students, selected.value).value;
    TouchWf(st, owner.id, now);
    EvalsOfMembers(RemoveMatching(st.evals, owner.id, row.value), owner.id);
    if other != owner.id {
      RemoveMatchingOthers(st.evals, owner.id, row.value, other);
    }
  }
}
