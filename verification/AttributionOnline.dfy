/** The two-pass attribution refines the online process, so appending rows never moves an answer. */
module AttributionOnline {
  import opened Wrappers
  import opened EnergyTypes
  import opened AttributionSpec

  /** At most one summary is stored per run (CloseEnergyRequest, see CloseProtocol). */
  predicate OneSummaryPerRun(rows: seq<Row>) {
    forall i, j :: 0 <= i < j < |rows| && rows[i].IsSummary() && rows[j].IsSummary() ==>
      rows[i].content.summary.runId != rows[j].content.summary.runId
  }

  predicate SameBounds(x: seq<Request>, y: seq<Request>) {
    |x| == |y| && forall i :: 0 <= i < |x| ==> x[i] == y[i].(answers := x[i].answers)
  }

  /** `y` is `x` after the rows from `t` on: bounds may be set at `t` or later, requests may be added. */
  predicate Later(x: seq<Request>, y: seq<Request>, t: int) {
    && |x| <= |y|
    && (forall i :: 0 <= i < |x| ==>
          && y[i] == x[i].(end := y[i].end, closed := y[i].closed)
          && (y[i].end == x[i].end || (t <= x[i].end && t <= y[i].end))
          && (y[i].closed == x[i].closed || (t <= x[i].closed && t <= y[i].closed)))
    && (forall i :: |x| <= i < |y| ==> t <= y[i].rowId)
  }

  /** The window of an earlier row holds no added request, and of the others the same. */
  lemma WindowLater(x: seq<Request>, y: seq<Request>, t: int, id: int, i: nat)
    requires Later(x, y, t) && id < t && i < |y|
    ensures i < |x| ==> WindowOf(id)(y[i]) == WindowOf(id)(x[i]) && y[i].answers == x[i].answers
    ensures i >= |x| ==> !WindowOf(id)(y[i])
  {
  }

  /** Two lists whose last elements both count, or of which the second's does not, are searched alike. */
  lemma FirstOpenNext(x: seq<Request>, y: seq<Request>, takes: Request -> bool, m: nat, n: nat)
    requires 0 < n <= |y| && m <= |x| && FirstOpen(y, takes, n - 1) == FirstOpen(x, takes, if m < n then m else m - 1)
    requires m == n || (m < n && !takes(y[n - 1]))
    requires m == n ==> takes(y[n - 1]) == takes(x[n - 1]) && y[n - 1].answers == x[n - 1].answers
    ensures FirstOpen(y, takes, n) == FirstOpen(x, takes, m)
  {
  }

  lemma {:induction false} FirstOpenLater(x: seq<Request>, y: seq<Request>, t: int, id: int, n: nat)
    requires Later(x, y, t) && id < t && n <= |y|
    ensures FirstOpen(y, WindowOf(id), n) == FirstOpen(x, WindowOf(id), if n <= |x| then n else |x|)
  {
    if n > 0 {
      FirstOpenLater(x, y, t, id, n - 1);
      WindowLater(x, y, t, id, n - 1);
      FirstOpenNext(x, y, WindowOf(id), if n <= |x| then n else |x|, n);
    }
  }

  lemma {:induction false} NewestLater(x: seq<Request>, y: seq<Request>, t: int, id: int, n: nat)
    requires Later(x, y, t) && id < t && n <= |y|
    ensures Newest(y, WindowOf(id), n) == Newest(x, WindowOf(id), if n <= |x| then n else |x|)
  {
    if n > 0 {
      NewestLater(x, y, t, id, n - 1);
      WindowLater(x, y, t, id, n - 1);
    }
  }

  lemma OwnerLater(x: seq<Request>, y: seq<Request>, t: int, id: int)
    requires Later(x, y, t) && id < t
    ensures Owner(y, WindowOf(id)) == Owner(x, WindowOf(id))
  {
    FirstOpenLater(x, y, t, id, |y|);
    NewestLater(x, y, t, id, |y|);
  }

  lemma HandLater(x: seq<Request>, y: seq<Request>, t: int, a: IdAnswer)
    requires Later(x, y, t) && a.id < t
    ensures Later(Hand(x, WindowOf(a.id), a), Hand(y, WindowOf(a.id), a), t)
    ensures SameBounds(y, Hand(y, WindowOf(a.id), a))
  {
    OwnerLater(x, y, t, a.id);
    match Owner(x, WindowOf(a.id))
    case None =>
    case Some(k) =>
      var x', y' := Hand(x, WindowOf(a.id), a), Hand(y, WindowOf(a.id), a);
      assert x' == x[k := x[k].(answers := x[k].answers + [a])];
      assert y' == y[k := y[k].(answers := x[k].answers + [a])];
  }

  lemma {:induction false} HandTimesLater(x: seq<Request>, y: seq<Request>, t: int, a: IdAnswer, n: nat)
    requires Later(x, y, t) && a.id < t
    ensures Later(HandTimes(x, WindowOf(a.id), a, n), HandTimes(y, WindowOf(a.id), a, n), t)
    ensures SameBounds(y, HandTimes(y, WindowOf(a.id), a, n))
  {
    if n > 0 {
      HandTimesLater(x, y, t, a, n - 1);
      HandLater(HandTimes(x, WindowOf(a.id), a, n - 1), HandTimes(y, WindowOf(a.id), a, n - 1), t, a);
    }
  }

  /** Answers before row `t` are handed out alike with and without what happens from `t` on. */
  lemma {:induction false} HandAllLater(meter: string, x: seq<Request>, y: seq<Request>, t: int, answers: seq<IdAnswer>)
    requires Later(x, y, t)
    requires forall a <- answers :: a.id < t
    ensures Later(HandAll(meter, x, answers), HandAll(meter, y, answers), t)
    ensures SameBounds(y, HandAll(meter, y, answers))
  {
    if answers != [] {
      var init, a := answers[..|answers| - 1], answers[|answers| - 1];
      HandAllLater(meter, x, y, t, init);
      HandTimesLater(HandAll(meter, x, init), HandAll(meter, y, init), t, a, Count(a.answer.meters, meter));
    }
  }

  lemma {:induction false} HandAllBounds(meter: string, x: seq<Request>, answers: seq<IdAnswer>)
    ensures SameBounds(x, HandAll(meter, x, answers))
  {
    if answers != [] {
      var a := answers[|answers| - 1];
      HandAllBounds(meter, x, answers[..|answers| - 1]);
      HandTimesBounds(HandAll(meter, x, answers[..|answers| - 1]), WindowOf(a.id), a, Count(a.answer.meters, meter));
    }
  }

  lemma {:induction false} HandTimesBounds(x: seq<Request>, takes: Request -> bool, a: IdAnswer, n: nat)
    ensures SameBounds(x, HandTimes(x, takes, a, n))
  {
    if n > 0 {
      HandTimesBounds(x, takes, a, n - 1);
    }
  }

  // ----- requests that may take an answer, seen two ways

  lemma {:induction false} FirstOpenAgree(x: seq<Request>, f: Request -> bool, g: Request -> bool, n: nat)
    requires n <= |x| && forall r <- x :: f(r) == g(r)
    ensures FirstOpen(x, f, n) == FirstOpen(x, g, n) && Newest(x, f, n) == Newest(x, g, n)
  {
    if n > 0 {
      FirstOpenAgree(x, f, g, n - 1);
    }
  }

  /** Before row `t` every bound that is set lies below `t`: the window of row `t` is the open requests. */
  predicate Before(x: seq<Request>, t: int) {
    forall r <- x :: r.rowId < t && (r.end < t || r.end == MAX_ID) && (r.closed < t || r.closed == MAX_ID)
  }

  lemma {:induction false} HandTimesOpen(x: seq<Request>, a: IdAnswer, n: nat)
    requires Before(x, a.id) && a.id < MAX_ID
    ensures HandTimes(x, IsOpen, a, n) == HandTimes(x, WindowOf(a.id), a, n)
    ensures Before(HandTimes(x, IsOpen, a, n), a.id)
  {
    if n > 0 {
      HandTimesOpen(x, a, n - 1);
      HandOpen(HandTimes(x, IsOpen, a, n - 1), a);
    }
  }

  lemma HandOpen(x: seq<Request>, a: IdAnswer)
    requires Before(x, a.id) && a.id < MAX_ID
    ensures Hand(x, IsOpen, a) == Hand(x, WindowOf(a.id), a) && Before(Hand(x, IsOpen, a), a.id)
  {
    assert forall r <- x :: IsOpen(r) == WindowOf(a.id)(r);
    FirstOpenAgree(x, IsOpen, WindowOf(a.id), |x|);
    HandBefore(x, IsOpen, a, a.id);
  }

  lemma HandBefore(x: seq<Request>, takes: Request -> bool, a: IdAnswer, t: int)
    requires Before(x, t)
    ensures Before(Hand(x, takes, a), t)
  {
    var y := Hand(x, takes, a);
    forall i | 0 <= i < |y|
      ensures y[i].rowId < t && (y[i].end < t || y[i].end == MAX_ID) && (y[i].closed < t || y[i].closed == MAX_ID)
    {
      assert x[i] in x;
    }
  }

  // ----- what is set before the next row

  lemma {:induction false} SummariesBefore(rows: seq<Row>, t: int)
    requires forall r <- rows :: r.id < t
    ensures forall k <- Summaries(rows) :: Summaries(rows)[k] < t
  {
    if rows != [] {
      SummariesBefore(rows[..|rows| - 1], t);
    }
  }

  lemma {:induction false} SummariesKeys(rows: seq<Row>, k: string)
    ensures k in Summaries(rows) <==>
            exists i :: 0 <= i < |rows| && rows[i].IsSummary() && rows[i].content.summary.runId == k
  {
    if rows != [] {
      SummariesKeys(rows[..|rows| - 1], k);
    }
  }

  lemma {:induction false} OpenedBefore(s: Scope, rows: seq<Row>, t: int)
    requires forall r <- rows :: r.id < t
    ensures Before(Opened(s, rows), t)
    ensures forall r <- Opened(s, rows) :: r.closed == MAX_ID && r.answers == []
  {
    if rows != [] {
      OpenedBefore(s, rows[..|rows| - 1], t);
    }
  }

  lemma {:induction false} AnswersBefore(tenants: set<string>, rows: seq<Row>, t: int)
    requires forall r <- rows :: r.id < t
    ensures forall a <- AnswersOf(tenants, rows) :: a.id < t
  {
    if rows != [] {
      AnswersBefore(tenants, rows[..|rows| - 1], t);
    }
  }

  lemma TwoPassBefore(s: Scope, rows: seq<Row>, t: int)
    requires forall r <- rows :: r.id < t
    ensures Before(TwoPass(s, rows), t)
  {
    OpenedBefore(s, rows, t);
    SummariesBefore(rows, t);
    HandAllBounds(s.meter, CloseAll(Opened(s, rows), Summaries(rows)), AnswersOf(s.tenants, rows));
  }

  // ----- refinement

  /** Closing and superseding do not meet. */
  lemma CloseSuperseded(cal: Calendar, reqs: seq<Request>, closed: map<string, int>, e: MeterRange, q: Request)
    ensures CloseAll(Supersede(cal, reqs, e, q.rowId) + [q], closed) ==
            Supersede(cal, CloseAll(reqs, closed), e, q.rowId) + [q.(closed := ClosedAt(closed, q.runId))]
  {
  }

  /** With answers handed out alike, `z` differs from `hx` as `y` from `x`: superseded, and with the new request. */
  lemma SupersededAlike(cal: Calendar, x: seq<Request>, hx: seq<Request>, z: seq<Request>, e: MeterRange, q: Request)
    requires SameBounds(x, hx) && SameBounds(Supersede(cal, x, e, q.rowId) + [q], z) && Later(hx, z, q.rowId) && z[|x|] == q
    ensures z == Supersede(cal, hx, e, q.rowId) + [q]
  {
    var y, w := Supersede(cal, x, e, q.rowId) + [q], Supersede(cal, hx, e, q.rowId) + [q];
    forall i | 0 <= i < |x|
      ensures z[i] == w[i]
    {
      assert hx[i] == x[i].(answers := hx[i].answers) && y[i] == z[i].(answers := y[i].answers);
      assert z[i] == hx[i].(end := z[i].end, closed := z[i].closed);
    }
  }

  lemma StepRun(s: Scope, init: seq<Row>, r: Row)
    requires (forall q <- init :: q.id < r.id) && r.id < MAX_ID && r.IsRunOf(s.ecId, s.tenants)
    ensures TwoPass(s, init + [r]) == OnlineStep(s, TwoPass(s, init), Summaries(init), r)
  {
    assert (init + [r])[..|init|] == init;
    match EntryOf(r.content.run.meters, s.meter)
    case None =>
    case Some(e) => StepOpens(s, init, r, e);
  }

  lemma StepOpens(s: Scope, init: seq<Row>, r: Row, e: MeterRange)
    requires (forall q <- init :: q.id < r.id) && r.id < MAX_ID && r.IsRunOf(s.ecId, s.tenants)
    requires EntryOf(r.content.run.meters, s.meter) == Some(e)
    ensures TwoPass(s, init + [r]) == OnlineStep(s, TwoPass(s, init), Summaries(init), r)
  {
    assert (init + [r])[..|init|] == init;
    var closed, answers := Summaries(init), AnswersOf(s.tenants, init);
    var q := NewRequest(r, e, ClosedAt(closed, r.content.run.runId));
    var x := CloseAll(Opened(s, init), closed);
    var y := Supersede(s.cal, x, e, r.id) + [q];
    CloseSuperseded(s.cal, Opened(s, init), closed, e, NewRequest(r, e, MAX_ID));
    assert TwoPass(s, init + [r]) == HandAll(s.meter, y, answers);
    OpenedBefore(s, init, r.id);
    AnswersBefore(s.tenants, init, r.id);
    SupersedeLater(s.cal, x, e, q);
    HandAllLater(s.meter, x, y, r.id, answers);
    HandAllBounds(s.meter, x, answers);
    NewTakesNothing(s.meter, y, answers, |x|);
    SupersededAlike(s.cal, x, HandAll(s.meter, x, answers), HandAll(s.meter, y, answers), e, q);
  }

  lemma SupersedeLater(cal: Calendar, x: seq<Request>, e: MeterRange, q: Request)
    requires q.rowId < MAX_ID
    ensures Later(x, Supersede(cal, x, e, q.rowId) + [q], q.rowId)
  {
  }

  /** A request whose row comes after all answers takes none. */
  lemma {:induction false} NewTakesNothing(meter: string, y: seq<Request>, answers: seq<IdAnswer>, k: nat)
    requires k < |y| && forall a <- answers :: a.id <= y[k].rowId
    ensures HandAll(meter, y, answers)[k] == y[k]
  {
    if answers != [] {
      var init, a := answers[..|answers| - 1], answers[|answers| - 1];
      NewTakesNothing(meter, y, init, k);
      NotInWindow(HandAll(meter, y, init), WindowOf(a.id), a, Count(a.answer.meters, meter), k);
    }
  }

  lemma {:induction false} NotInWindow(y: seq<Request>, takes: Request -> bool, a: IdAnswer, n: nat, k: nat)
    requires k < |y| && !takes(y[k])
    ensures HandTimes(y, takes, a, n)[k] == y[k]
  {
    if n > 0 {
      NotInWindow(y, takes, a, n - 1, k);
    }
  }

  lemma StepSummary(s: Scope, init: seq<Row>, r: Row)
    requires (forall q <- init :: q.id < r.id) && r.id < MAX_ID && r.IsSummary()
    requires r.content.summary.runId !in Summaries(init)
    ensures TwoPass(s, init + [r]) == OnlineStep(s, TwoPass(s, init), Summaries(init), r)
  {
    assert (init + [r])[..|init|] == init;
    var answers := AnswersOf(s.tenants, init);
    var x, y := CloseAll(Opened(s, init), Summaries(init)), CloseAll(Opened(s, init), Summaries(init + [r]));
    SummariesBefore(init, r.id);
    AnswersBefore(s.tenants, init, r.id);
    HandAllLater(s.meter, x, y, r.id, answers);
    HandAllBounds(s.meter, x, answers);
    assert HandAll(s.meter, y, answers) == OnlineStep(s, TwoPass(s, init), Summaries(init), r);
  }

  lemma StepAnswer(s: Scope, init: seq<Row>, r: Row)
    requires (forall q <- init :: q.id < r.id) && r.id < MAX_ID && r.IsAnswerOf(s.tenants)
    ensures TwoPass(s, init + [r]) == OnlineStep(s, TwoPass(s, init), Summaries(init), r)
  {
    assert (init + [r])[..|init|] == init;
    var answers, a := AnswersOf(s.tenants, init), IdAnswer(r.id, r.content.answer);
    assert (answers + [a])[..|answers|] == answers;
    TwoPassBefore(s, init, r.id);
    HandTimesOpen(TwoPass(s, init), a, Count(a.answer.meters, s.meter));
  }

  /** Handing out in a second pass over final windows gives what the online process gives. */
  lemma {:induction false} TwoPassRefinesOnline(s: Scope, rows: seq<Row>)
    requires ValidRows(rows) && OneSummaryPerRun(rows)
    ensures TwoPass(s, rows) == Online(s, rows)
  {
    if rows != [] {
      var init, r := rows[..|rows| - 1], rows[|rows| - 1];
      assert rows == init + [r];
      TwoPassRefinesOnline(s, init);
      if r.IsRunOf(s.ecId, s.tenants) {
        StepRun(s, init, r);
      } else if r.IsAnswerOf(s.tenants) {
        StepAnswer(s, init, r);
      } else if r.IsSummary() {
        SummariesKeys(init, r.content.summary.runId);
        StepSummary(s, init, r);
      }
    }
  }

  // ----- prefix stability

  /** `y` continues `x`: requests and the bounds that are set stay, answers are only added, and those after row `t`. */
  predicate Continues(x: seq<Request>, y: seq<Request>, t: int) {
    && |x| <= |y|
    && (forall i :: 0 <= i < |x| ==>
          && y[i] == x[i].(end := y[i].end, closed := y[i].closed, answers := y[i].answers)
          && x[i].answers <= y[i].answers
          && (forall k :: |x[i].answers| <= k < |y[i].answers| ==> t < y[i].answers[k].id)
          && (x[i].end == MAX_ID || y[i].end == x[i].end)
          && (x[i].closed == MAX_ID || y[i].closed == x[i].closed))
    && (forall i :: |x| <= i < |y| ==> t < y[i].rowId && forall a <- y[i].answers :: t < a.id)
  }

  lemma ContinuesTransitive(x: seq<Request>, y: seq<Request>, z: seq<Request>, t: int)
    requires Continues(x, y, t) && Continues(y, z, t)
    ensures Continues(x, z, t)
  {
    forall i | 0 <= i < |x|
      ensures z[i] == x[i].(end := z[i].end, closed := z[i].closed, answers := z[i].answers)
      ensures x[i].answers <= z[i].answers
      ensures forall k :: |x[i].answers| <= k < |z[i].answers| ==> t < z[i].answers[k].id
    {
      forall k | |x[i].answers| <= k < |z[i].answers|
        ensures t < z[i].answers[k].id
      {
        if k < |y[i].answers| {
          assert z[i].answers[k] == y[i].answers[k];
        }
      }
    }
    forall i | |x| <= i < |z|
      ensures t < z[i].rowId && forall a <- z[i].answers :: t < a.id
    {
      if i < |y| {
        forall k | 0 <= k < |z[i].answers|
          ensures t < z[i].answers[k].id
        {
          if k < |y[i].answers| {
            assert z[i].answers[k] == y[i].answers[k] && y[i].answers[k] in y[i].answers;
          }
        }
      }
    }
  }

  lemma ContinuesHand(y: seq<Request>, takes: Request -> bool, a: IdAnswer, t: int)
    requires t < a.id
    ensures Continues(y, Hand(y, takes, a), t)
  {
  }

  lemma {:induction false} HandTimesContinues(x: seq<Request>, takes: Request -> bool, a: IdAnswer, n: nat, t: int)
    requires t < a.id
    ensures Continues(x, HandTimes(x, takes, a, n), t)
  {
    if n == 0 {
    } else {
      HandTimesContinues(x, takes, a, n - 1, t);
      var y := HandTimes(x, takes, a, n - 1);
      ContinuesHand(y, takes, a, t);
      ContinuesTransitive(x, y, HandTimes(x, takes, a, n), t);
    }
  }

  lemma OnlineStepContinues(s: Scope, x: seq<Request>, closed: map<string, int>, r: Row, t: int)
    requires t < r.id
    ensures Continues(x, OnlineStep(s, x, closed, r), t)
  {
    if r.IsAnswerOf(s.tenants) {
      HandTimesContinues(x, IsOpen, IdAnswer(r.id, r.content.answer), Count(r.content.answer.meters, s.meter), t);
    }
  }

  lemma {:induction false} OnlineContinues(s: Scope, rows: seq<Row>, n: nat, t: int)
    requires n <= |rows| && forall i :: n <= i < |rows| ==> t < rows[i].id
    ensures Continues(Online(s, rows[..n]), Online(s, rows), t)
  {
    if n == |rows| {
      assert rows[..n] == rows;
    } else {
      var init, r := rows[..|rows| - 1], rows[|rows| - 1];
      assert init[..n] == rows[..n];
      OnlineContinues(s, init, n, t);
      OnlineStepContinues(s, Online(s, init), Summaries(init), r, t);
      ContinuesTransitive(Online(s, rows[..n]), Online(s, init), Online(s, rows), t);
    }
  }

  /** Appending rows keeps every request, its set bounds and the answers it has; only answers of the appended rows are
      added: no earlier answer moves. */
  lemma PrefixStable(s: Scope, rows: seq<Row>, n: nat)
    requires ValidRows(rows) && OneSummaryPerRun(rows) && n <= |rows|
    ensures Continues(TwoPass(s, rows[..n]), TwoPass(s, rows), if n == 0 then 0 else rows[n - 1].id)
  {
    TwoPassRefinesOnline(s, rows);
    TwoPassRefinesOnline(s, rows[..n]);
    OnlineContinues(s, rows, n, if n == 0 then 0 else rows[n - 1].id);
  }
}
