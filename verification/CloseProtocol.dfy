/** Closing runs: one summary per run, whatever checks, requests and instances do at the same time
    (database/energyRequestDao.go, CloseEnergyRequest). */
module CloseProtocol {
  import opened Wrappers
  import opened EnergyTypes
  import opened AttributionOnline
  import opened AttributionCuts

  /** The notification table, the run ids ever saved with their rows, and the last row id given out. */
  datatype State = State(log: seq<DbRow>, saved: map<string, int>, lastId: int)

  predicate HasSummary(log: seq<DbRow>, runId: string) {
    exists d <- log :: d.row.IsSummary() && d.row.content.summary.runId == runId
  }

  /** The EXISTS query under the advisory lock. */
  predicate SummaryAfter(log: seq<DbRow>, rowId: int, runId: string) {
    exists d <- log :: rowId < d.row.id && d.row.IsSummary() && d.row.content.summary.runId == runId
  }

  // ----- the steps

  function Added(s: State, d: DbRow): State {
    s.(log := s.log + [d], lastId := d.row.id)
  }

  predicate IsNew(s: State, d: DbRow) {
    s.lastId < d.row.id < MAX_ID
  }

  /** A request saves its run under a fresh id. */
  predicate SaveRun(s: State, t: State, d: DbRow) {
    && IsNew(s, d) && d.row.IsRun() && DistinctMeters(d.row.content.run.meters) && d.row.content.run.runId !in s.saved
    && t == Added(s, d).(saved := s.saved[d.row.content.run.runId := d.row.id])
  }

  /** KeepSent rewrites the metering points and the period of a run. */
  predicate EditRun(s: State, t: State, k: nat, run: RunData) {
    && k < |s.log| && s.log[k].row.IsRun() && run.runId == s.log[k].row.content.run.runId && DistinctMeters(run.meters)
    && t == s.(log := s.log[k := s.log[k].(row := s.log[k].row.(content := Run(run)))])
  }

  predicate DeleteRun(s: State, t: State, k: nat) {
    k < |s.log| && s.log[k].row.IsRun() && t == s.(log := s.log[..k] + s.log[k + 1..])
  }

  /** Any other message. */
  predicate AppendMessage(s: State, t: State, d: DbRow) {
    IsNew(s, d) && !d.row.IsRun() && !d.row.IsSummary() && t == Added(s, d)
  }

  /** CloseEnergyRequest for the run read in row `rowId`: the check and the insert are one step. */
  predicate Close(s: State, t: State, rowId: int, d: DbRow) {
    && d.row.IsSummary()
    && var runId := d.row.content.summary.runId;
       && runId in s.saved && s.saved[runId] == rowId
       && if SummaryAfter(s.log, rowId, runId) then t == s else IsNew(s, d) && t == Added(s, d)
  }

  ghost predicate Step(s: State, t: State) {
    || (exists d :: SaveRun(s, t, d))
    || (exists k, run :: EditRun(s, t, k, run))
    || (exists k :: DeleteRun(s, t, k))
    || (exists d :: AppendMessage(s, t, d))
    || (exists rowId, d :: Close(s, t, rowId, d))
  }

  // ----- the invariant

  predicate Ascending(s: State) {
    && (forall i, j :: 0 <= i < j < |s.log| ==> s.log[i].row.id < s.log[j].row.id)
    && (forall d <- s.log :: 0 < d.row.id <= s.lastId) && 0 <= s.lastId < MAX_ID
  }

  /** Each run is the saved one of its id, each summary is later than the run it closes, and there is one at most. */
  predicate Inv(s: State) {
    && Ascending(s)
    && (forall d <- s.log :: d.row.IsRun() ==>
          && DistinctMeters(d.row.content.run.meters) && d.row.content.run.runId in s.saved
          && s.saved[d.row.content.run.runId] == d.row.id)
    && (forall d <- s.log :: d.row.IsSummary() ==>
          d.row.content.summary.runId in s.saved && s.saved[d.row.content.summary.runId] < d.row.id)
    && (forall d <- s.log, e <- s.log {:trigger d.row.IsSummary(), e.row.IsSummary()} ::
          d.row.IsSummary() && e.row.IsSummary() && d.row.content.summary.runId == e.row.content.summary.runId ==> d == e)
    && (forall k <- s.saved :: s.saved[k] <= s.lastId)
  }

  /** What every evaluation relies on. */
  lemma InvMeans(s: State)
    requires Inv(s)
    ensures ValidRows(RowsOf(s.log)) && OneSummaryPerRun(RowsOf(s.log)) && SummariesAfterRuns(RowsOf(s.log))
  {
    var rows := RowsOf(s.log);
    forall i | 0 <= i < |rows|
      ensures 0 < rows[i].id < MAX_ID && (rows[i].IsRun() ==> DistinctMeters(rows[i].content.run.meters))
    {
      assert s.log[i] in s.log;
    }
    forall i, j | 0 <= i < j < |rows| && rows[i].IsSummary()
      ensures rows[j].IsSummary() ==> rows[i].content.summary.runId != rows[j].content.summary.runId
      ensures rows[j].IsRun() ==> rows[j].content.run.runId != rows[i].content.summary.runId
    {
      assert s.log[i] in s.log && s.log[j] in s.log;
    }
  }

  lemma AddedKeeps(s: State, d: DbRow, saved: map<string, int>)
    requires Inv(s) && IsNew(s, d) && (forall k <- s.saved :: k in saved && saved[k] == s.saved[k])
    requires forall k <- saved :: saved[k] <= d.row.id
    requires d.row.IsRun() ==>
               && DistinctMeters(d.row.content.run.meters) && d.row.content.run.runId in saved
               && saved[d.row.content.run.runId] == d.row.id
    requires d.row.IsSummary() ==> var k := d.row.content.summary.runId;
               k in s.saved && !SummaryAfter(s.log, s.saved[k], k)
    ensures Inv(Added(s, d).(saved := saved))
  {
    var t := Added(s, d).(saved := saved);
    assert forall e <- t.log :: e in s.log || e == d;
    assert d.row.IsSummary() ==> !HasSummary(s.log, d.row.content.summary.runId);
  }

  lemma EditRunKeeps(s: State, t: State, k: nat, run: RunData)
    requires Inv(s) && EditRun(s, t, k, run)
    ensures Inv(t)
  {
    assert s.log[k] in s.log;
    assert forall e <- t.log :: e in s.log || e == t.log[k];
    assert forall e <- t.log :: e.row.IsSummary() ==> e in s.log;
  }

  lemma DeleteRunKeeps(s: State, t: State, k: nat)
    requires Inv(s) && DeleteRun(s, t, k)
    ensures Inv(t)
  {
    assert forall e <- t.log :: e in s.log;
  }

  lemma StepKeeps(s: State, t: State)
    requires Inv(s) && Step(s, t)
    ensures Inv(t)
  {
    if d :| SaveRun(s, t, d) {
      AddedKeeps(s, d, t.saved);
    } else if k, run :| EditRun(s, t, k, run) {
      EditRunKeeps(s, t, k, run);
    } else if k :| DeleteRun(s, t, k) {
      DeleteRunKeeps(s, t, k);
    } else if d :| AppendMessage(s, t, d) {
      AddedKeeps(s, d, s.saved);
    } else {
      var rowId, d :| Close(s, t, rowId, d);
      if t != s {
        AddedKeeps(s, d, s.saved);
      }
    }
  }

  /** Nothing takes a summary away, and a saved run id keeps its row. */
  predicate Keeps(s: State, t: State) {
    && (forall d <- s.log :: d.row.IsSummary() ==> d in t.log)
    && (forall k <- s.saved :: k in t.saved && t.saved[k] == s.saved[k])
  }

  lemma StepKeepsSummaries(s: State, t: State)
    requires Step(s, t)
    ensures Keeps(s, t)
  {
    if k, run :| EditRun(s, t, k, run) {
      forall d <- s.log | d.row.IsSummary()
        ensures d in t.log
      {
        var i :| 0 <= i < |s.log| && s.log[i] == d;
        assert t.log[i] == d;
      }
    } else if k :| DeleteRun(s, t, k) {
      forall d <- s.log | d.row.IsSummary()
        ensures d in t.log
      {
        var i :| 0 <= i < |s.log| && s.log[i] == d;
        assert i != k && t.log[if i < k then i else i - 1] == d;
      }
    }
  }

  // ----- whole runs

  ghost predicate IsTrace(trace: seq<State>) {
    trace != [] && forall i :: 0 <= i < |trace| - 1 ==> Step(trace[i], trace[i + 1])
  }

  predicate Init(s: State) {
    s == State([], map[], 0)
  }

  lemma {:induction false} InvAlways(trace: seq<State>, n: nat)
    requires IsTrace(trace) && Inv(trace[0]) && n < |trace|
    ensures Inv(trace[n]) && Keeps(trace[0], trace[n])
  {
    if n > 0 {
      InvAlways(trace, n - 1);
      assert Step(trace[n - 1], trace[n - 1 + 1]);
      StepKeeps(trace[n - 1], trace[n]);
      StepKeepsSummaries(trace[n - 1], trace[n]);
    }
  }

  /** Under any interleaving a run id has one summary at most, in a later row than the run. */
  lemma OneSummaryAlways(trace: seq<State>, n: nat)
    requires IsTrace(trace) && Init(trace[0]) && n < |trace|
    ensures ValidRows(RowsOf(trace[n].log)) && OneSummaryPerRun(RowsOf(trace[n].log))
    ensures SummariesAfterRuns(RowsOf(trace[n].log))
  {
    InvAlways(trace, n);
    InvMeans(trace[n]);
  }

  ghost predicate Reaches(s: State, t: State) {
    exists trace :: IsTrace(trace) && trace[0] == s && trace[|trace| - 1] == t
  }

  lemma ReachesSelf(s: State)
    ensures Reaches(s, s)
  {
    assert IsTrace([s]);
  }

  lemma ReachesStep(s: State, t: State, u: State)
    requires Reaches(s, t) && Step(t, u)
    ensures Reaches(s, u)
  {
    var trace :| IsTrace(trace) && trace[0] == s && trace[|trace| - 1] == t;
    var longer := trace + [u];
    forall i | 0 <= i < |longer| - 1
      ensures Step(longer[i], longer[i + 1])
    {
      if i == |trace| - 1 {
        assert longer[i] == t;
      } else {
        assert longer[i] == trace[i] && longer[i + 1] == trace[i + 1];
      }
    }
    assert IsTrace(longer);
  }

  lemma {:induction false} ReachesOn(s: State, t: State, u: State)
    requires Reaches(s, t) && Reaches(t, u)
    ensures Reaches(s, u)
  {
    var trace :| IsTrace(trace) && trace[0] == t && trace[|trace| - 1] == u;
    ReachesAlong(s, trace, |trace| - 1);
  }

  lemma {:induction false} ReachesAlong(s: State, trace: seq<State>, n: nat)
    requires IsTrace(trace) && Reaches(s, trace[0]) && n < |trace|
    ensures Reaches(s, trace[n])
  {
    if n > 0 {
      ReachesAlong(s, trace, n - 1);
      assert Step(trace[n - 1], trace[n - 1 + 1]);
      ReachesStep(s, trace[n - 1], trace[n]);
    }
  }

  lemma ReachesKeeps(s: State, t: State)
    requires Inv(s) && Reaches(s, t)
    ensures Inv(t) && Keeps(s, t)
  {
    var trace :| IsTrace(trace) && trace[0] == s && trace[|trace| - 1] == t;
    InvAlways(trace, |trace| - 1);
  }
}
