/** Which request an answer belongs to, stated on the finished attribution alone. */
module AttributionWindows {
  import opened Wrappers
  import opened EnergyTypes
  import opened AttributionSpec
  import opened AttributionOnline

  // ----- the requests and their windows

  predicate OnDay(cal: Calendar, from: int, to: int, d: int) {
    cal(from) <= d <= cal(to)
  }

  /** Overlapping is sharing a day (of periods that have a day). */
  lemma OverlapIsSharedDay(cal: Calendar, fromA: int, toA: int, fromB: int, toB: int)
    requires cal(fromA) <= cal(toA) && cal(fromB) <= cal(toB)
    ensures Overlaps(cal, fromA, toA, fromB, toB) <==>
            exists d :: OnDay(cal, fromA, toA, d) && OnDay(cal, fromB, toB, d)
  {
    var d := if cal(fromA) <= cal(fromB) then cal(fromB) else cal(fromA);
    assert Overlaps(cal, fromA, toA, fromB, toB) ==> OnDay(cal, fromA, toA, d) && OnDay(cal, fromB, toB, d);
  }

  predicate Meets(cal: Calendar, a: Request, b: Request) {
    Overlaps(cal, a.from, a.to, b.from, b.to)
  }

  /** Request `j` is the first after `i` that shares a day with it. */
  predicate FirstMeeting(cal: Calendar, reqs: seq<Request>, i: nat, j: int)
    requires i < |reqs|
  {
    && i < j < |reqs| && Meets(cal, reqs[i], reqs[j])
    && forall k :: i < k < j ==> !Meets(cal, reqs[i], reqs[k])
  }

  /** `end` is the row of the first later request that shares a day, MAX_ID when there is none. */
  ghost predicate EndsAtFirstMeeting(cal: Calendar, reqs: seq<Request>, i: nat)
    requires i < |reqs|
  {
    if reqs[i].end == MAX_ID then forall j :: i < j < |reqs| ==> !Meets(cal, reqs[i], reqs[j])
    else exists j :: FirstMeeting(cal, reqs, i, j) && reqs[j].rowId == reqs[i].end
  }

  /** Same requests up to closing and answers, possibly with a further request at the end. */
  predicate SamePeriods(x: seq<Request>, y: seq<Request>) {
    |x| <= |y| && forall i :: 0 <= i < |x| ==> x[i].rowId == y[i].rowId && x[i].from == y[i].from && x[i].to == y[i].to
  }

  lemma FirstMeetingKept(cal: Calendar, x: seq<Request>, y: seq<Request>, i: nat, j: int)
    requires SamePeriods(x, y) && i < |x| && FirstMeeting(cal, x, i, j)
    ensures FirstMeeting(cal, y, i, j)
  {
    forall k | i < k < j
      ensures !Meets(cal, y[i], y[k])
    {
      assert !Meets(cal, x[i], x[k]);
    }
  }

  lemma EndsKept(cal: Calendar, x: seq<Request>, y: seq<Request>, i: nat)
    requires SamePeriods(x, y) && i < |x| && |y| == |x| && x[i].end == y[i].end && EndsAtFirstMeeting(cal, x, i)
    ensures EndsAtFirstMeeting(cal, y, i)
  {
    if x[i].end == MAX_ID {
      forall j | i < j < |y|
        ensures !Meets(cal, y[i], y[j])
      {
        assert !Meets(cal, x[i], x[j]);
      }
    } else {
      var j :| FirstMeeting(cal, x, i, j) && x[j].rowId == x[i].end;
      FirstMeetingKept(cal, x, y, i, j);
    }
  }

  lemma SupersedeEnds(cal: Calendar, x: seq<Request>, q: Request, i: nat)
    requires i < |x| && EndsAtFirstMeeting(cal, x, i) && q.rowId < MAX_ID
    ensures EndsAtFirstMeeting(cal, Supersede(cal, x, MeterRange("", q.from, q.to), q.rowId) + [q], i)
  {
    var y := Supersede(cal, x, MeterRange("", q.from, q.to), q.rowId) + [q];
    assert SamePeriods(x, y);
    if x[i].end == MAX_ID {
      forall j | i < j < |x|
        ensures !Meets(cal, y[i], y[j])
      {
        assert !Meets(cal, x[i], x[j]);
      }
      if Meets(cal, x[i], q) {
        assert FirstMeeting(cal, y, i, |x|) && y[|x|].rowId == y[i].end;
      }
    } else {
      var j :| FirstMeeting(cal, x, i, j) && x[j].rowId == x[i].end;
      FirstMeetingKept(cal, x, y, i, j);
      assert FirstMeeting(cal, y, i, j) && y[j].rowId == y[i].end;
    }
  }

  predicate Ascending(reqs: seq<Request>, t: int) {
    && (forall i, j :: 0 <= i < j < |reqs| ==> reqs[i].rowId < reqs[j].rowId)
    && (forall q <- reqs :: q.rowId < t)
  }

  lemma {:induction false} OpenedAscending(s: Scope, rows: seq<Row>, t: int)
    requires AscendingIds(rows) && forall r <- rows :: r.id < t
    ensures Ascending(Opened(s, rows), t)
  {
    if rows != [] {
      var init, r := rows[..|rows| - 1], rows[|rows| - 1];
      OpenedAscending(s, init, r.id);
      AscendingLater(Opened(s, init), r.id, t);
      if r.IsRunOf(s.ecId, s.tenants) && EntryOf(r.content.run.meters, s.meter).Some? {
        var e := EntryOf(r.content.run.meters, s.meter).value;
        AscendingSnoc(s.cal, Opened(s, init), e, NewRequest(r, e, MAX_ID), t);
      }
    }
  }

  lemma AscendingLater(reqs: seq<Request>, s: int, t: int)
    requires Ascending(reqs, s) && s <= t
    ensures Ascending(reqs, t)
  {
  }

  lemma AscendingSnoc(cal: Calendar, reqs: seq<Request>, e: MeterRange, q: Request, t: int)
    requires Ascending(reqs, q.rowId) && q.rowId < t
    ensures Ascending(Supersede(cal, reqs, e, q.rowId) + [q], t)
  {
    var more := Supersede(cal, reqs, e, q.rowId) + [q];
    assert forall i :: 0 <= i < |reqs| ==> more[i].rowId == reqs[i].rowId && reqs[i] in reqs;
  }

  lemma {:induction false} OpenedEnds(s: Scope, rows: seq<Row>, i: nat)
    requires ValidRows(rows) && i < |Opened(s, rows)|
    ensures EndsAtFirstMeeting(s.cal, Opened(s, rows), i)
  {
    var init, r := rows[..|rows| - 1], rows[|rows| - 1];
    var x := Opened(s, init);
    if i < |x| {
      OpenedEnds(s, init, i);
      if |Opened(s, rows)| > |x| {
        var e := EntryOf(r.content.run.meters, s.meter).value;
        SupersedeEnds(s.cal, x, NewRequest(r, e, MAX_ID), i);
        assert Supersede(s.cal, x, MeterRange("", e.from, e.to), r.id) == Supersede(s.cal, x, e, r.id);
      }
    }
  }

  /** A stored summary of the run. */
  predicate IsClosingOf(c: Row, runId: string) {
    c.rowType == MessageRow && c.content.Closing? && c.content.summary.runId == runId
  }

  /** `id` is the last row that holds a summary of the run, MAX_ID when there is none. */
  predicate ClosesAt(rows: seq<Row>, runId: string, id: int) {
    if forall c <- rows :: !IsClosingOf(c, runId) then id == MAX_ID
    else (exists c <- rows :: IsClosingOf(c, runId) && c.id == id) && forall c <- rows :: IsClosingOf(c, runId) ==> c.id <= id
  }

  lemma ClosesAtSnoc(init: seq<Row>, r: Row, runId: string, id: int)
    requires ClosesAt(init, runId, id) && forall c <- init :: c.id < r.id
    ensures ClosesAt(init + [r], runId, if IsClosingOf(r, runId) then r.id else id)
  {
    var rows := init + [r];
    assert r in rows && forall c <- init :: c in rows;
    assert forall c <- rows :: c in init || c == r;
  }

  lemma ClosedAtSnoc(init: seq<Row>, r: Row, runId: string)
    ensures ClosedAt(Summaries(init + [r]), runId) == if IsClosingOf(r, runId) then r.id else ClosedAt(Summaries(init), runId)
  {
    assert (init + [r])[..|init|] == init;
  }

  lemma {:induction false} ClosedAtLast(rows: seq<Row>, runId: string)
    requires AscendingIds(rows)
    ensures ClosesAt(rows, runId, ClosedAt(Summaries(rows), runId))
  {
    if rows != [] {
      var init, r := rows[..|rows| - 1], rows[|rows| - 1];
      ClosedAtLast(init, runId);
      ClosedAtSnoc(init, r, runId);
      ClosesAtSnoc(init, r, runId, ClosedAt(Summaries(init), runId));
      assert rows == init + [r];
    }
  }

  lemma ClosedIffClosing(rows: seq<Row>, runId: string)
    ensures runId in Summaries(rows) <==> exists c <- rows :: IsClosingOf(c, runId)
  {
    SummariesKeys(rows, runId);
    if runId in Summaries(rows) {
      var i :| 0 <= i < |rows| && rows[i].IsSummary() && rows[i].content.summary.runId == runId;
      assert rows[i] in rows && IsClosingOf(rows[i], runId);
    }
    if c :| c in rows && IsClosingOf(c, runId) {
      var i :| 0 <= i < |rows| && rows[i] == c;
      assert rows[i].IsSummary();
    }
  }

  /** On every log: a request ends at the first later request that shares a day, so the requests that are not
      superseded are pairwise day-disjoint; the rows ascend; a request is closed by its run's stored summary. */
  lemma WindowsOfRequests(s: Scope, rows: seq<Row>, i: nat)
    requires ValidRows(rows) && i < |TwoPass(s, rows)|
    ensures var reqs := TwoPass(s, rows);
            && EndsAtFirstMeeting(s.cal, reqs, i)
            && (forall j :: i < j < |reqs| ==> reqs[i].rowId < reqs[j].rowId)
            && (reqs[i].end == MAX_ID ==> forall j :: i < j < |reqs| ==> !Meets(s.cal, reqs[i], reqs[j]))
            && reqs[i].closed == ClosedAt(Summaries(rows), reqs[i].runId)
  {
    var x := Opened(s, rows);
    HandAllBounds(s.meter, CloseAll(x, Summaries(rows)), AnswersOf(s.tenants, rows));
    OpenedAscending(s, rows, MAX_ID);
    OpenedEnds(s, rows, i);
    EndsKept(s.cal, x, TwoPass(s, rows), i);
  }

  predicate IsRequestOf(q: Request, row: Row, e: MeterRange) {
    row.IsRun() && q.rowId == row.id && q.runId == row.content.run.runId && q.from == e.from && q.to == e.to
  }

  lemma {:induction false} OpenedAreRuns(s: Scope, rows: seq<Row>, k: nat) returns (i: nat)
    requires k < |Opened(s, rows)|
    ensures i < |rows| && rows[i].IsRunOf(s.ecId, s.tenants) && EntryOf(rows[i].content.run.meters, s.meter).Some?
    ensures IsRequestOf(Opened(s, rows)[k], rows[i], EntryOf(rows[i].content.run.meters, s.meter).value)
  {
    var init := rows[..|rows| - 1];
    if k < |Opened(s, init)| {
      i := OpenedAreRuns(s, init, k);
      assert init[i] == rows[i];
    } else {
      i := |rows| - 1;
    }
  }

  lemma {:induction false} RunsAreOpened(s: Scope, rows: seq<Row>, i: nat) returns (k: nat)
    requires i < |rows| && rows[i].IsRunOf(s.ecId, s.tenants) && EntryOf(rows[i].content.run.meters, s.meter).Some?
    ensures k < |Opened(s, rows)|
    ensures IsRequestOf(Opened(s, rows)[k], rows[i], EntryOf(rows[i].content.run.meters, s.meter).value)
  {
    var init := rows[..|rows| - 1];
    if i < |init| {
      assert init[i] == rows[i];
      k := RunsAreOpened(s, init, i);
    } else {
      k := |Opened(s, init)|;
    }
  }

  /** A run row of the community. */
  predicate IsRunRowOf(r: Row, ecId: string, tenants: set<string>) {
    r.rowType == RunRow && r.content.Run? && r.tenant in tenants && EqualFold(r.content.run.ecId, ecId)
  }

  /** Every request is that of a run of the community, for the period the run names for the metering point, and it is
      closed at the run's last stored summary. */
  lemma RequestsAreRuns(s: Scope, rows: seq<Row>, k: nat) returns (i: nat, e: MeterRange)
    requires AscendingIds(rows) && k < |TwoPass(s, rows)|
    ensures i < |rows| && IsRunRowOf(rows[i], s.ecId, s.tenants) && e in rows[i].content.run.meters && e.meter == s.meter
    ensures IsRequestOf(TwoPass(s, rows)[k], rows[i], e)
    ensures ClosesAt(rows, rows[i].content.run.runId, TwoPass(s, rows)[k].closed)
  {
    HandAllBounds(s.meter, CloseAll(Opened(s, rows), Summaries(rows)), AnswersOf(s.tenants, rows));
    i := OpenedAreRuns(s, rows, k);
    e := EntryOf(rows[i].content.run.meters, s.meter).value;
    ClosedAtLast(rows, rows[i].content.run.runId);
  }

  /** Every run of the community that names the metering point has its request. */
  lemma RunsHaveRequests(s: Scope, rows: seq<Row>, i: nat, e: MeterRange) returns (k: nat)
    requires i < |rows| && IsRunRowOf(rows[i], s.ecId, s.tenants) && DistinctMeters(rows[i].content.run.meters)
    requires e in rows[i].content.run.meters && e.meter == s.meter
    ensures k < |TwoPass(s, rows)| && IsRequestOf(TwoPass(s, rows)[k], rows[i], e)
  {
    HandAllBounds(s.meter, CloseAll(Opened(s, rows), Summaries(rows)), AnswersOf(s.tenants, rows));
    var j :| 0 <= j < |rows[i].content.run.meters| && rows[i].content.run.meters[j] == e;
    EntryOfAt(rows[i].content.run.meters, j);
    k := RunsAreOpened(s, rows, i);
  }

  predicate AscendingRows(reqs: seq<Request>) {
    forall i, j :: 0 <= i < j < |reqs| ==> reqs[i].rowId < reqs[j].rowId
  }

  lemma {:induction false} BelongingAt(reqs: seq<Request>, k: nat)
    requires k < |reqs| && AscendingRows(reqs)
    ensures Belonging(reqs, reqs[k].rowId) == (reqs[k].answers, reqs[k].end != MAX_ID)
  {
    if k > 0 {
      BelongingAt(reqs[1..], k - 1);
    }
  }

  lemma {:induction false} BelongingNone(reqs: seq<Request>, rowId: int)
    requires forall q <- reqs :: q.rowId != rowId
    ensures Belonging(reqs, rowId) == ([], false)
  {
    if reqs != [] {
      BelongingNone(reqs[1..], rowId);
    }
  }

  // ----- who gets an answer

  /** How many of the first `n` are marked. */
  function Rank(marks: seq<bool>, n: nat): nat
    requires n <= |marks|
  {
    if n == 0 then 0 else Rank(marks, n - 1) + if marks[n - 1] then 1 else 0
  }

  predicate IsLast(marks: seq<bool>, i: nat)
    requires i < |marks|
  {
    marks[i] && forall j :: i < j < |marks| ==> !marks[j]
  }

  /** The share of request `i` in an answer that names the metering point `n` times, from the requests whose window
      holds it and those of them without an answer yet: the unanswered ones take one each, oldest first, the newest
      takes the rest. */
  function Share(window: seq<bool>, unanswered: seq<bool>, n: nat, i: nat): nat
    requires i < |window| == |unanswered|
  {
    var open := Rank(unanswered, |unanswered|);
    (if unanswered[i] && Rank(unanswered, i) < n then 1 else 0) + (if IsLast(window, i) && n > open then n - open else 0)
  }

  /** Who takes mention number `n` (counted from 0). */
  predicate TakesNext(window: seq<bool>, unanswered: seq<bool>, n: nat, k: nat)
    requires k < |window| == |unanswered|
  {
    if n < Rank(unanswered, |unanswered|) then unanswered[k] && Rank(unanswered, k) == n else IsLast(window, k)
  }

  lemma {:induction false} RankMonotone(marks: seq<bool>, m: nat, n: nat)
    requires m <= n <= |marks|
    ensures Rank(marks, m) <= Rank(marks, n)
  {
    if m < n {
      RankMonotone(marks, m, n - 1);
    }
  }

  lemma RankBelow(marks: seq<bool>, i: nat, j: nat)
    requires i < j <= |marks| && marks[i]
    ensures Rank(marks, i) < Rank(marks, j)
  {
    RankMonotone(marks, i + 1, j);
  }

  lemma ShareStep(window: seq<bool>, unanswered: seq<bool>, n: nat, k: nat, i: nat)
    requires k < |window| == |unanswered| && i < |window| && TakesNext(window, unanswered, n, k)
    ensures Share(window, unanswered, n + 1, i) == Share(window, unanswered, n, i) + if i == k then 1 else 0
  {
    if unanswered[i] {
      RankBelow(unanswered, i, |unanswered|);
      if i < k {
        RankBelow(unanswered, i, k);
      }
    }
    if unanswered[k] && k < i {
      RankBelow(unanswered, k, i);
    }
  }

  /** The marked position with exactly `n` marks before it. */
  lemma {:induction false} Nth(marks: seq<bool>, n: nat, m: nat) returns (i: nat)
    requires m <= |marks| && n < Rank(marks, m)
    ensures i < m && marks[i] && Rank(marks, i) == n
  {
    if Rank(marks, m - 1) == n {
      i := m - 1;
    } else {
      i := Nth(marks, n, m - 1);
    }
  }

  function Windows(reqs: seq<Request>, id: int): (w: seq<bool>)
    ensures |w| == |reqs|
  {
    seq(|reqs|, i requires 0 <= i < |reqs| => InWindow(reqs[i], id))
  }

  predicate Unanswered(req: Request, id: int) {
    forall x <- req.answers :: id <= x.id
  }

  /** The requests whose window holds row `id` and that have no answer from before it. */
  function OpenFor(reqs: seq<Request>, id: int): (w: seq<bool>)
    ensures |w| == |reqs|
  {
    seq(|reqs|, i requires 0 <= i < |reqs| => InWindow(reqs[i], id) && Unanswered(reqs[i], id))
  }

  function Copies(a: IdAnswer, n: nat): (r: seq<IdAnswer>)
    ensures |r| == n
  {
    seq(n, _ => a)
  }

  /** `y` is `x` after `n` mentions of `a`. */
  predicate Shared(x: seq<Request>, y: seq<Request>, w: seq<bool>, u: seq<bool>, a: IdAnswer, n: nat)
    requires |x| == |w| == |u|
  {
    && |y| == |x|
    && forall i :: 0 <= i < |x| ==> y[i] == x[i].(answers := x[i].answers + Copies(a, Share(w, u, n, i)))
  }

  predicate Marked(x: seq<Request>, w: seq<bool>, u: seq<bool>, id: int) {
    && |x| == |w| == |u|
    && forall i :: 0 <= i < |x| ==> w[i] == InWindow(x[i], id) && (u[i] <==> w[i] && x[i].answers == [])
  }

  lemma OwnerTakesNext(x: seq<Request>, y: seq<Request>, w: seq<bool>, u: seq<bool>, a: IdAnswer, n: nat)
    requires Marked(x, w, u, a.id) && Shared(x, y, w, u, a, n)
    ensures var k := Owner(y, WindowOf(a.id));
            && (k.None? ==> forall i :: 0 <= i < |w| ==> !w[i])
            && (k.Some? ==> TakesNext(w, u, n, k.value))
  {
    var f, l := FirstOpen(y, WindowOf(a.id), |y|), Newest(y, WindowOf(a.id), |y|);
    assert forall i :: 0 <= i < |w| ==> w[i] == WindowOf(a.id)(y[i]);
    if n < Rank(u, |u|) {
      var i := Nth(u, n, |u|);
      assert y[i].answers == [];
      var k := f.value;
      assert x[k].answers == [] && u[k] && Share(w, u, n, k) == 0;
      if k < i {
        RankBelow(u, k, i);
      }
    } else if f.Some? {
      var k := f.value;
      assert x[k].answers == [] && u[k] && Share(w, u, n, k) == 0;
      RankBelow(u, k, |u|);
      assert false;
    }
  }

  lemma HandShared(x: seq<Request>, y: seq<Request>, w: seq<bool>, u: seq<bool>, a: IdAnswer, n: nat)
    requires Marked(x, w, u, a.id) && Shared(x, y, w, u, a, n)
    ensures Shared(x, Hand(y, WindowOf(a.id), a), w, u, a, n + 1)
  {
    OwnerTakesNext(x, y, w, u, a, n);
    match Owner(y, WindowOf(a.id))
    case None =>
      RankNone(u, |u|);
      assert forall i :: 0 <= i < |x| ==> Share(w, u, n + 1, i) == Share(w, u, n, i) == 0;
    case Some(k) =>
      var z := Hand(y, WindowOf(a.id), a);
      assert z == y[k := y[k].(answers := y[k].answers + [a])];
      forall i | 0 <= i < |x|
        ensures z[i] == x[i].(answers := x[i].answers + Copies(a, Share(w, u, n + 1, i)))
      {
        ShareStep(w, u, n, k, i);
        assert Copies(a, Share(w, u, n + 1, i)) == Copies(a, Share(w, u, n, i)) + if i == k then [a] else [];
      }
  }

  lemma {:induction false} RankNone(marks: seq<bool>, n: nat)
    requires n <= |marks| && forall i :: 0 <= i < |marks| ==> !marks[i]
    ensures Rank(marks, n) == 0
  {
    if n > 0 {
      RankNone(marks, n - 1);
    }
  }

  lemma {:induction false} HandTimesShared(x: seq<Request>, w: seq<bool>, u: seq<bool>, a: IdAnswer, n: nat)
    requires Marked(x, w, u, a.id)
    ensures Shared(x, HandTimes(x, WindowOf(a.id), a, n), w, u, a, n)
  {
    if n == 0 {
      assert forall i :: 0 <= i < |x| ==> Share(w, u, 0, i) == 0;
    } else {
      HandTimesShared(x, w, u, a, n - 1);
      HandShared(x, HandTimes(x, WindowOf(a.id), a, n - 1), w, u, a, n - 1);
    }
  }

  // ----- on the whole log

  lemma {:induction false} HandAllContinues(meter: string, x: seq<Request>, answers: seq<IdAnswer>, n: nat, t: int)
    requires n <= |answers| && forall k :: n <= k < |answers| ==> t < answers[k].id
    ensures Continues(HandAll(meter, x, answers[..n]), HandAll(meter, x, answers), t)
  {
    if n == |answers| {
      assert answers[..n] == answers;
    } else {
      var init, a := answers[..|answers| - 1], answers[|answers| - 1];
      assert init[..n] == answers[..n];
      HandAllContinues(meter, x, init, n, t);
      HandTimesContinues(HandAll(meter, x, init), WindowOf(a.id), a, Count(a.answer.meters, meter), t);
      ContinuesTransitive(HandAll(meter, x, answers[..n]), HandAll(meter, x, init), HandAll(meter, x, answers), t);
    }
  }

  lemma {:induction false} AnswerAt(tenants: set<string>, rows: seq<Row>, k: nat) returns (j: nat)
    requires ValidRows(rows) && k < |rows| && rows[k].IsAnswerOf(tenants)
    ensures j < |AnswersOf(tenants, rows)| && AnswersOf(tenants, rows)[j] == IdAnswer(rows[k].id, rows[k].content.answer)
    ensures forall i :: 0 <= i < j ==> AnswersOf(tenants, rows)[i].id < rows[k].id
    ensures forall i :: j < i < |AnswersOf(tenants, rows)| ==> rows[k].id < AnswersOf(tenants, rows)[i].id
  {
    var init, r := rows[..|rows| - 1], rows[|rows| - 1];
    AnswersBefore(tenants, init, r.id);
    if k < |init| {
      j := AnswerAt(tenants, init, k);
    } else {
      j := |AnswersOf(tenants, init)|;
    }
  }

  lemma {:induction false} HandAllIds(meter: string, x: seq<Request>, answers: seq<IdAnswer>, t: int)
    requires (forall q <- x :: q.answers == []) && forall a <- answers :: a.id < t
    ensures forall i :: 0 <= i < |x| ==> forall a <- HandAll(meter, x, answers)[i].answers :: a.id < t
  {
    if answers != [] {
      var init, a := answers[..|answers| - 1], answers[|answers| - 1];
      HandAllIds(meter, x, init, t);
      HandTimesIds(HandAll(meter, x, init), WindowOf(a.id), a, Count(a.answer.meters, meter), t);
    }
  }

  lemma {:induction false} HandTimesIds(x: seq<Request>, takes: Request -> bool, a: IdAnswer, n: nat, t: int)
    requires (forall i :: 0 <= i < |x| ==> forall b <- x[i].answers :: b.id < t) && a.id < t
    ensures forall i :: 0 <= i < |x| ==> forall b <- HandTimes(x, takes, a, n)[i].answers :: b.id < t
  {
    if n > 0 {
      HandTimesIds(x, takes, a, n - 1, t);
    }
  }

  /** How often the answer of row `id` is among a request's answers. */
  function Mentions(answers: seq<IdAnswer>, id: int): nat {
    if answers == [] then 0
    else Mentions(answers[..|answers| - 1], id) + if answers[|answers| - 1].id == id then 1 else 0
  }

  lemma {:induction false} MentionsSplit(before: seq<IdAnswer>, a: IdAnswer, n: nat, after: seq<IdAnswer>)
    requires (forall b <- before :: b.id != a.id) && (forall b <- after :: b.id != a.id)
    ensures Mentions(before + Copies(a, n) + after, a.id) == n
    decreases |after|, n, |before|
  {
    var all := before + Copies(a, n) + after;
    if after != [] {
      assert all[..|all| - 1] == before + Copies(a, n) + after[..|after| - 1];
      MentionsSplit(before, a, n, after[..|after| - 1]);
    } else if n > 0 {
      assert all[..|all| - 1] == before + Copies(a, n - 1) + after;
      MentionsSplit(before, a, n - 1, after);
    } else if before != [] {
      assert all[..|all| - 1] == before[..|before| - 1] + Copies(a, 0) + after;
      MentionsSplit(before[..|before| - 1], a, 0, after);
    }
  }

  /** The requests before, after and long after the answer is handed out. */
  lemma HandedInOrder(s: Scope, base: seq<Request>, answers: seq<IdAnswer>, j: nat)
    requires j < |answers| && (forall q <- base :: q.answers == [])
    requires (forall i :: 0 <= i < j ==> answers[i].id < answers[j].id)
    requires (forall i :: j < i < |answers| ==> answers[j].id < answers[i].id)
    ensures var x, y, z := HandAll(s.meter, base, answers[..j]), HandAll(s.meter, base, answers[..j + 1]),
            HandAll(s.meter, base, answers);
            && SameBounds(x, z) && Continues(x, z, answers[j].id - 1) && Continues(y, z, answers[j].id) && |y| == |z|
            && (forall i :: 0 <= i < |x| ==> forall a <- x[i].answers :: a.id < answers[j].id)
            && y == HandTimes(x, WindowOf(answers[j].id), answers[j], Count(answers[j].answer.meters, s.meter))
  {
    var id := answers[j].id;
    assert answers[..j + 1][..j] == answers[..j];
    HandAllIds(s.meter, base, answers[..j], id);
    HandAllBounds(s.meter, base, answers[..j]);
    HandAllBounds(s.meter, base, answers);
    HandAllContinues(s.meter, base, answers, j, id - 1);
    HandAllContinues(s.meter, base, answers, j + 1, id);
  }

  /** What one answer adds to a request, read off the finished attribution. */
  lemma SharedMentions(x: seq<Request>, y: seq<Request>, z: seq<Request>, w: seq<bool>, u: seq<bool>, a: IdAnswer, n: nat, i: nat)
    requires |x| == |w| == |u| && i < |x| && Shared(x, y, w, u, a, n) && Continues(y, z, a.id)
    requires forall b <- x[i].answers :: b.id < a.id
    ensures i < |z| && Mentions(z[i].answers, a.id) == Share(w, u, n, i)
  {
    var after := z[i].answers[|y[i].answers|..];
    assert z[i].answers == x[i].answers + Copies(a, Share(w, u, n, i)) + after;
    assert forall b <- after :: a.id < b.id;
    MentionsSplit(x[i].answers, a, Share(w, u, n, i), after);
  }

  /** On every log, an answer that names the metering point goes exactly to the requests whose window holds its row:
      each without an earlier answer takes one mention, oldest first, and the newest takes the rest. */
  lemma AnswerGoesToOldestUnanswered(s: Scope, rows: seq<Row>, k: nat, i: nat)
    requires ValidRows(rows) && k < |rows| && i < |TwoPass(s, rows)|
    requires rows[k].rowType == MessageRow && rows[k].content.Reply? && rows[k].tenant in s.tenants
    ensures var reqs, id := TwoPass(s, rows), rows[k].id;
            Mentions(reqs[i].answers, id) ==
            Share(Windows(reqs, id), OpenFor(reqs, id), Count(rows[k].content.answer.meters, s.meter), i)
  {
    var base, answers := CloseAll(Opened(s, rows), Summaries(rows)), AnswersOf(s.tenants, rows);
    var j := AnswerAt(s.tenants, rows, k);
    OpenedBefore(s, rows, rows[|rows| - 1].id + 1);
    HandedInOrder(s, base, answers, j);
    MentionsOfAnswer(s, base, answers, j, i);
  }

  lemma MentionsOfAnswer(s: Scope, base: seq<Request>, answers: seq<IdAnswer>, j: nat, i: nat)
    requires j < |answers| && (forall q <- base :: q.answers == []) && i < |base|
    requires (forall i :: 0 <= i < j ==> answers[i].id < answers[j].id)
    requires (forall i :: j < i < |answers| ==> answers[j].id < answers[i].id)
    ensures var z, a := HandAll(s.meter, base, answers), answers[j];
            Mentions(z[i].answers, a.id) == Share(Windows(z, a.id), OpenFor(z, a.id), Count(a.answer.meters, s.meter), i)
  {
    HandedInOrder(s, base, answers, j);
    var a, m := answers[j], Count(answers[j].answer.meters, s.meter);
    var x, z := HandAll(s.meter, base, answers[..j]), HandAll(s.meter, base, answers);
    var w, u := Windows(z, a.id), OpenFor(z, a.id);
    forall q | 0 <= q < |x|
      ensures w[q] == InWindow(x[q], a.id) && (u[q] <==> w[q] && x[q].answers == [])
    {
      UnansweredBefore(x[q].answers, z[q], a.id);
    }
    HandTimesShared(x, w, u, a, m);
    SharedMentions(x, HandTimes(x, WindowOf(a.id), a, m), z, w, u, a, m, i);
  }

  lemma UnansweredBefore(before: seq<IdAnswer>, q: Request, id: int)
    requires before <= q.answers && (forall a <- before :: a.id < id)
    requires forall k :: |before| <= k < |q.answers| ==> id - 1 < q.answers[k].id
    ensures Unanswered(q, id) <==> before == []
  {
    if before != [] {
      assert before[0] == q.answers[0] && q.answers[0] in q.answers;
    }
  }

  /** The one that takes a single mention: the first unanswered one, else the newest. */
  predicate IsOwner(window: seq<bool>, unanswered: seq<bool>, o: nat)
    requires o < |window| == |unanswered|
  {
    && window[o]
    && (forall i :: 0 <= i < o ==> !unanswered[i])
    && (!unanswered[o] ==> IsLast(window, o) && forall i :: o < i < |window| ==> !unanswered[i])
  }

  lemma OwnerOfOne(w: seq<bool>, u: seq<bool>) returns (o: nat)
    requires |w| == |u| && (forall i :: 0 <= i < |w| && u[i] ==> w[i]) && exists i :: 0 <= i < |w| && w[i]
    ensures o < |w| && IsOwner(w, u, o)
    ensures forall i :: 0 <= i < |w| ==> Share(w, u, 1, i) == if i == o then 1 else 0
  {
    if Rank(u, |u|) > 0 {
      o := Nth(u, 0, |u|);
    } else {
      var p :| 0 <= p < |w| && w[p];
      o := LastOf(w, p);
    }
    forall i | 0 <= i < |w|
      ensures Share(w, u, 1, i) == (if i == o then 1 else 0) && (u[i] ==> o <= i && u[o])
    {
      if u[i] {
        RankBelow(u, i, |u|);
        if i < o {
          RankBelow(u, i, o);
        } else if o < i && u[o] {
          RankBelow(u, o, i);
        }
      }
    }
  }

  /** Read for an answer that names the metering point once: it goes to exactly one request when some window holds its
      row, the oldest unanswered one, else the newest, and to none otherwise. */
  lemma OneOwner(s: Scope, rows: seq<Row>, k: nat) returns (o: nat)
    requires ValidRows(rows) && k < |rows| && rows[k].rowType == MessageRow && rows[k].content.Reply? && rows[k].tenant in s.tenants
    requires Count(rows[k].content.answer.meters, s.meter) == 1
    ensures var reqs, id := TwoPass(s, rows), rows[k].id;
            if forall i :: 0 <= i < |reqs| ==> !Windows(reqs, id)[i]
            then forall i :: 0 <= i < |reqs| ==> Mentions(reqs[i].answers, id) == 0
            else o < |reqs| && IsOwner(Windows(reqs, id), OpenFor(reqs, id), o) &&
                 forall i :: 0 <= i < |reqs| ==> Mentions(reqs[i].answers, id) == if i == o then 1 else 0
  {
    var reqs, id := TwoPass(s, rows), rows[k].id;
    var w, u := Windows(reqs, id), OpenFor(reqs, id);
    forall i | 0 <= i < |reqs|
      ensures Mentions(reqs[i].answers, id) == Share(w, u, 1, i)
    {
      AnswerGoesToOldestUnanswered(s, rows, k, i);
    }
    if exists i :: 0 <= i < |w| && w[i] {
      o := OwnerOfOne(w, u);
    } else {
      forall i | 0 <= i < |u|
        ensures !u[i]
      {
        assert !w[i];
      }
      RankNone(u, |u|);
      o := 0;
    }
  }

  lemma {:induction false} LastOf(marks: seq<bool>, p: nat) returns (o: nat)
    requires p < |marks| && marks[p]
    ensures p <= o < |marks| && IsLast(marks, o)
    decreases |marks| - p
  {
    if j :| p < j < |marks| && marks[j] {
      o := LastOf(marks, j);
    } else {
      o := p;
    }
  }
}
