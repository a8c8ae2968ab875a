/** Which answers belong to a run, said of the rows of the log. */
module Belongings {
  import opened Wrappers
  import opened EnergyTypes
  import opened AttributionSpec
  import opened AttributionOnline
  import opened AttributionWindows

  // ----- what is handed out are answers of the rows

  /** An answer that was handed to the request: it came in the request's rows and names the metering point. */
  predicate Fits(meter: string, q: Request, a: IdAnswer) {
    InWindow(q, a.id) && meter in a.answer.meters
  }

  ghost predicate AllFit(meter: string, reqs: seq<Request>, answers: seq<IdAnswer>) {
    forall i :: 0 <= i < |reqs| ==> forall a <- reqs[i].answers :: Fits(meter, reqs[i], a) && a in answers
  }

  lemma {:induction false} HandTimesFit(meter: string, x: seq<Request>, answers: seq<IdAnswer>, a: IdAnswer, n: nat)
    requires AllFit(meter, x, answers) && a in answers && meter in a.answer.meters
    ensures AllFit(meter, HandTimes(x, WindowOf(a.id), a, n), answers)
  {
    if n > 0 {
      HandTimesFit(meter, x, answers, a, n - 1);
      var y := HandTimes(x, WindowOf(a.id), a, n - 1);
      var z := Hand(y, WindowOf(a.id), a);
      var k := Owner(y, WindowOf(a.id));
      forall i | 0 <= i < |z|
        ensures forall b <- z[i].answers :: Fits(meter, z[i], b) && b in answers
      {
        assert InWindow(z[i], a.id) <==> InWindow(y[i], a.id);
        assert forall b <- z[i].answers :: b in y[i].answers || (b == a && k == Some(i));
        assert forall b <- y[i].answers :: Fits(meter, y[i], b);
      }
    }
  }

  lemma {:induction false} CountPositive(s: seq<string>, x: string)
    ensures Count(s, x) > 0 <==> x in s
  {
    if s != [] {
      CountPositive(s[..|s| - 1], x);
      assert s == s[..|s| - 1] + [s[|s| - 1]];
    }
  }

  lemma {:induction false} HandAllFit(meter: string, x: seq<Request>, answers: seq<IdAnswer>)
    requires forall q <- x :: q.answers == []
    ensures AllFit(meter, HandAll(meter, x, answers), answers)
  {
    if answers != [] {
      var init, a := answers[..|answers| - 1], answers[|answers| - 1];
      HandAllFit(meter, x, init);
      var y := HandAll(meter, x, init);
      assert forall b <- init :: b in answers;
      assert AllFit(meter, y, answers);
      CountPositive(a.answer.meters, meter);
      if meter in a.answer.meters {
        HandTimesFit(meter, y, answers, a, Count(a.answer.meters, meter));
      } else {
        assert HandTimes(y, WindowOf(a.id), a, 0) == y;
      }
    }
  }

  lemma {:induction false} AnswersAreRows(tenants: set<string>, rows: seq<Row>, a: IdAnswer) returns (i: nat)
    requires a in AnswersOf(tenants, rows)
    ensures i < |rows| && rows[i].IsAnswerOf(tenants) && a == IdAnswer(rows[i].id, rows[i].content.answer)
  {
    var init, r := rows[..|rows| - 1], rows[|rows| - 1];
    if a in AnswersOf(tenants, init) {
      i := AnswersAreRows(tenants, init, a);
      assert init[i] == rows[i];
    } else {
      i := |rows| - 1;
    }
  }

  // ----- answers are handed out in row order

  predicate RowOrder(answers: seq<IdAnswer>) {
    forall i, j :: 0 <= i < j < |answers| ==> answers[i].id <= answers[j].id
  }

  predicate AllRowOrder(reqs: seq<Request>, t: int) {
    forall i :: 0 <= i < |reqs| ==> RowOrder(reqs[i].answers) && forall a <- reqs[i].answers :: a.id <= t
  }

  lemma {:induction false} HandTimesRowOrder(x: seq<Request>, takes: Request -> bool, a: IdAnswer, n: nat)
    requires AllRowOrder(x, a.id)
    ensures AllRowOrder(HandTimes(x, takes, a, n), a.id)
  {
    if n > 0 {
      HandTimesRowOrder(x, takes, a, n - 1);
      var y := HandTimes(x, takes, a, n - 1);
      forall i | 0 <= i < |y|
        ensures RowOrder(y[i].answers + [a])
      {
        assert forall k :: 0 <= k < |y[i].answers| ==> y[i].answers[k] in y[i].answers;
      }
    }
  }

  lemma {:induction false} HandAllRowOrder(meter: string, x: seq<Request>, answers: seq<IdAnswer>, t: int)
    requires (forall q <- x :: q.answers == []) && RowOrder(answers) && forall a <- answers :: a.id <= t
    ensures AllRowOrder(HandAll(meter, x, answers), t)
  {
    if answers != [] {
      var init, a := answers[..|answers| - 1], answers[|answers| - 1];
      assert forall b <- init :: b.id <= a.id;
      HandAllRowOrder(meter, x, init, a.id);
      HandTimesRowOrder(HandAll(meter, x, init), WindowOf(a.id), a, Count(a.answer.meters, meter));
    }
  }

  lemma {:induction false} AnswersRowOrder(tenants: set<string>, rows: seq<Row>)
    requires AscendingIds(rows)
    ensures RowOrder(AnswersOf(tenants, rows))
  {
    if rows != [] {
      var init, r := rows[..|rows| - 1], rows[|rows| - 1];
      AnswersRowOrder(tenants, init);
      AnswersBefore(tenants, init, r.id);
      assert forall i :: 0 <= i < |AnswersOf(tenants, init)| ==> AnswersOf(tenants, init)[i] in AnswersOf(tenants, init);
    }
  }

  // ----- the answers that belong to a run

  /** Row `x` is an answer that names the metering point, and it was given to the run in row `rowId`. */
  ghost predicate BelongsTo(s: Scope, rows: seq<Row>, x: Row, rowId: int) {
    && x in rows && x.rowType == MessageRow && x.content.Reply? && x.tenant in s.tenants && s.meter in x.content.answer.meters
    && exists q <- TwoPass(s, rows) :: q.rowId == rowId && IdAnswer(x.id, x.content.answer) in q.answers
  }

  /** No later answer belongs to the run. */
  ghost predicate Decides(s: Scope, rows: seq<Row>, x: Row, rowId: int) {
    BelongsTo(s, rows, x, rowId) && forall y <- rows :: BelongsTo(s, rows, y, rowId) ==> y.id <= x.id
  }

  /** The last answer that belongs to the run rejects. */
  ghost predicate IsRejected(s: Scope, rows: seq<Row>, rowId: int) {
    exists x <- rows :: Decides(s, rows, x, rowId) && !x.content.answer.accepted
  }

  /** The answers of a request are answer rows that name the metering point, in row order. */
  lemma RequestAnswers(s: Scope, rows: seq<Row>)
    requires AscendingIds(rows)
    ensures var reqs := TwoPass(s, rows); AscendingRows(reqs) && AllFit(s.meter, reqs, AnswersOf(s.tenants, rows))
    ensures forall q <- TwoPass(s, rows) :: RowOrder(q.answers)
  {
    var t := if rows == [] then 0 else rows[|rows| - 1].id;
    var ops, answers := Opened(s, rows), AnswersOf(s.tenants, rows);
    var closed := CloseAll(ops, Summaries(rows));
    OpenedAscending(s, rows, t + 1);
    OpenedBefore(s, rows, t + 1);
    AnswersBefore(s.tenants, rows, t + 1);
    AnswersRowOrder(s.tenants, rows);
    forall i | 0 <= i < |closed|
      ensures closed[i].answers == []
    {
      assert ops[i] in ops;
    }
    HandAllBounds(s.meter, closed, answers);
    HandAllFit(s.meter, closed, answers);
    HandAllRowOrder(s.meter, closed, answers, t);
  }

  lemma SameRow(rows: seq<Row>, x: Row, y: Row)
    requires AscendingIds(rows) && x in rows && y in rows && x.id == y.id
    ensures x == y
  {
    var i :| 0 <= i < |rows| && rows[i] == x;
    var j :| 0 <= j < |rows| && rows[j] == y;
  }

  /** Each answer of the run's request is one row that belongs to it, and there are no others. */
  lemma BelongingRows(s: Scope, rows: seq<Row>, rowId: int)
    requires AscendingIds(rows)
    ensures var answers := Belonging(TwoPass(s, rows), rowId).0;
            && RowOrder(answers)
            && (forall a <- answers :: exists x <- rows :: BelongsTo(s, rows, x, rowId) && a == IdAnswer(x.id, x.content.answer))
            && (forall x <- rows :: BelongsTo(s, rows, x, rowId) ==> IdAnswer(x.id, x.content.answer) in answers)
  {
    var reqs := TwoPass(s, rows);
    RequestAnswers(s, rows);
    if k :| 0 <= k < |reqs| && reqs[k].rowId == rowId {
      BelongingAt(reqs, k);
      assert reqs[k] in reqs;
      forall a | a in reqs[k].answers
        ensures exists x <- rows :: BelongsTo(s, rows, x, rowId) && a == IdAnswer(x.id, x.content.answer)
      {
        assert Fits(s.meter, reqs[k], a) && a in AnswersOf(s.tenants, rows);
        var i := AnswersAreRows(s.tenants, rows, a);
        assert BelongsTo(s, rows, rows[i], rowId);
      }
    } else {
      BelongingNone(reqs, rowId);
    }
  }

  lemma LastIsRow(s: Scope, rows: seq<Row>, rowId: int) returns (x: Row)
    requires AscendingIds(rows) && Belonging(TwoPass(s, rows), rowId).0 != []
    ensures Decides(s, rows, x, rowId)
    ensures var answers := Belonging(TwoPass(s, rows), rowId).0; answers[|answers| - 1] == IdAnswer(x.id, x.content.answer)
  {
    var answers := Belonging(TwoPass(s, rows), rowId).0;
    var last := answers[|answers| - 1];
    BelongingRows(s, rows, rowId);
    assert last in answers;
    x :| x in rows && BelongsTo(s, rows, x, rowId) && last == IdAnswer(x.id, x.content.answer);
    forall y | y in rows && BelongsTo(s, rows, y, rowId)
      ensures y.id <= x.id
    {
      var k :| 0 <= k < |answers| && answers[k] == IdAnswer(y.id, y.content.answer);
    }
  }

  /** The last answer the attribution gives a run is the row that decides; without one no row belongs to it. */
  lemma LastDecides(s: Scope, rows: seq<Row>, rowId: int)
    requires AscendingIds(rows)
    ensures var answers := Belonging(TwoPass(s, rows), rowId).0;
            && (answers == [] <==> forall x <- rows :: !BelongsTo(s, rows, x, rowId))
            && (answers != [] ==> exists x <- rows :: Decides(s, rows, x, rowId))
            && (forall x <- rows :: Decides(s, rows, x, rowId) ==>
                  answers != [] && answers[|answers| - 1] == IdAnswer(x.id, x.content.answer))
  {
    var answers := Belonging(TwoPass(s, rows), rowId).0;
    BelongingRows(s, rows, rowId);
    if answers != [] {
      var x := LastIsRow(s, rows, rowId);
      forall y | y in rows && Decides(s, rows, y, rowId)
        ensures y == x
      {
        SameRow(rows, x, y);
      }
    }
  }

  /** What the lock check asks of the attribution is whether the last answer that belongs to the run rejects. */
  lemma RejectedRows(s: Scope, rows: seq<Row>, rowId: int)
    requires AscendingIds(rows)
    ensures LastRejected(Belonging(TwoPass(s, rows), rowId).0) <==> IsRejected(s, rows, rowId)
  {
    LastDecides(s, rows, rowId);
  }

  // ----- later runs for the same days

  /** Run row `y` of the community comes after row `rowId` and requests the metering point for a day of `e`. */
  predicate Repeats(s: Scope, y: Row, rowId: int, e: MeterRange) {
    && rowId < y.id && IsRunRowOf(y, s.ecId, s.tenants)
    && exists f <- y.content.run.meters :: f.meter == s.meter && s.cal(e.from) <= s.cal(f.to) && s.cal(f.from) <= s.cal(e.to)
  }

  lemma RepeatMeets(s: Scope, rows: seq<Row>, k: nat, y: Row, e: MeterRange) returns (j: nat)
    requires ValidRows(rows) && y in rows && k < |TwoPass(s, rows)|
    requires TwoPass(s, rows)[k].from == e.from && TwoPass(s, rows)[k].to == e.to
    requires Repeats(s, y, TwoPass(s, rows)[k].rowId, e)
    ensures k < j < |TwoPass(s, rows)| && Meets(s.cal, TwoPass(s, rows)[k], TwoPass(s, rows)[j])
  {
    var i :| 0 <= i < |rows| && rows[i] == y;
    var f :| f in y.content.run.meters && f.meter == s.meter && s.cal(e.from) <= s.cal(f.to) && s.cal(f.from) <= s.cal(e.to);
    j := RunsHaveRequests(s, rows, i, f);
    RequestAnswers(s, rows);
    assert AscendingRows(TwoPass(s, rows));
  }

  lemma EndRepeats(s: Scope, rows: seq<Row>, k: nat, e: MeterRange) returns (y: Row)
    requires ValidRows(rows) && k < |TwoPass(s, rows)| && TwoPass(s, rows)[k].end != MAX_ID
    requires TwoPass(s, rows)[k].from == e.from && TwoPass(s, rows)[k].to == e.to
    ensures y in rows && Repeats(s, y, TwoPass(s, rows)[k].rowId, e)
  {
    var reqs := TwoPass(s, rows);
    WindowsOfRequests(s, rows, k);
    var j :| FirstMeeting(s.cal, reqs, k, j) && reqs[j].rowId == reqs[k].end;
    var n, f := RequestsAreRuns(s, rows, j);
    y := rows[n];
  }

  /** The attribution says that a run's request was repeated exactly when a later run of the community asks for a day of it. */
  lemma RepeatedRows(s: Scope, rows: seq<Row>, i: nat, e: MeterRange)
    requires ValidRows(rows) && i < |rows| && IsRunRowOf(rows[i], s.ecId, s.tenants)
    requires e in rows[i].content.run.meters && e.meter == s.meter
    ensures Belonging(TwoPass(s, rows), rows[i].id).1 <==> exists y <- rows :: Repeats(s, y, rows[i].id, e)
  {
    var reqs := TwoPass(s, rows);
    var k := RunsHaveRequests(s, rows, i, e);
    RequestAnswers(s, rows);
    BelongingAt(reqs, k);
    WindowsOfRequests(s, rows, k);
    if reqs[k].end != MAX_ID {
      var y := EndRepeats(s, rows, k, e);
    }
    if y :| y in rows && Repeats(s, y, rows[i].id, e) {
      var j := RepeatMeets(s, rows, k, y, e);
    }
  }
}
