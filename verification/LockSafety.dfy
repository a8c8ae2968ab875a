/** Lock safety over whole runs: requests of several tenants, their sends, answers and summaries interleave freely; only
    the lock check and the saving of a run are serialised per tenant (energyrequest/lock.go, LockTenant).

    A run record remembers what its lock check saw, so safety can be stated about parts that were sent at any time. */
module LockSafety {
  import opened Wrappers
  import opened EnergyTypes
  import opened AttributionSpec
  import opened AttributionCuts
  import opened AttributionWindows
  import opened Belongings
  import opened Tracker
  import opened Locks
  import opened EnergyRows
  import opened ValueRequest

  /** What a lock check read, and the parts it let through. */
  datatype LockCheck = LockCheck(tenant: string, community: set<string>, at: int, rows: seq<Row>, planned: seq<MeterRange>)

  /** A saved run: parts that were sent, and parts still to be sent. */
  datatype RunRecord = RunRecord(rowId: int, createdAt: int, check: LockCheck, sent: seq<MeterRange>, pending: seq<MeterRange>)

  /** The table and its next row id, the saved runs in the order of saving, and the lock checks that hold the mutex of
      their tenant. */
  datatype State = State(log: seq<DbRow>, next: int, runs: seq<RunRecord>, held: map<string, LockCheck>)

  ghost predicate IsUnblocked(cal: Calendar, c: LockCheck) {
    forall p <- c.planned :: Spares(cal, c.rows, c.community, c.tenant, c.at, p.meter, p.from, p.to)
  }

  /** In the rows of the lock check: the last answer that belongs to the run for the metering point rejects. */
  ghost predicate WasRejected(cal: Calendar, c: LockCheck, rowId: int, meter: string) {
    exists r <- c.rows ::
      r.id == rowId && r.content.Run? && IsRejected(Scope(cal, r.content.run.ecId, c.community, meter), c.rows, rowId)
  }

  // ----- steps

  /** The handler takes the mutex, reads the community's rows at `readAt` and plans its parts (RequestValues). */
  ghost predicate TakeLock(cal: Calendar, s: State, t: State, c: LockCheck, readAt: int) {
    && ToUpper(c.tenant) !in s.held && c.tenant in c.community && readAt <= c.at
    && c.rows == Read(s.log, Some(c.community), readAt)
    && IsUnblocked(cal, c) && Disjoint(cal, c.planned)
    && t == s.(held := s.held[ToUpper(c.tenant) := c])
  }

  /** Without a part to send, or when the run cannot be stored, the mutex is released and nothing is sent. */
  predicate Release(s: State, t: State, key: string) {
    key in s.held && t == s.(held := s.held - {key})
  }

  /** The run is stored before anything is sent, and the mutex released. */
  predicate SaveRun(s: State, t: State, key: string, d: DbRow) {
    && key in s.held && IsNext(s, d)
    && d.row.IsRun() && d.row.process == EnergyRequest && d.row.tenant == s.held[key].tenant
    && d.row.content.run.createdAt <= d.date
    && (forall p <- s.held[key].planned :: exists e <- d.row.content.run.meters :: Within(p, e))
    && t == State(s.log + [d], d.row.id + 1,
                  s.runs + [RunRecord(d.row.id, d.row.content.run.createdAt, s.held[key], [], s.held[key].planned)],
                  s.held - {key})
  }

  /** The next part of a run is sent, or its send fails. */
  predicate SendNext(s: State, t: State, i: nat, ok: bool) {
    && i < |s.runs| && s.runs[i].pending != []
    && var r := s.runs[i];
       t == s.(runs := s.runs[i := r.(pending := r.pending[1..], sent := if ok then r.sent + [r.pending[0]] else r.sent)])
  }

  /** KeepSent replaces the entries of the stored run by ones that hold every sent part. */
  predicate KeepSentRow(s: State, t: State, i: nat, k: nat, meters: seq<MeterRange>) {
    && i < |s.runs| && s.runs[i].pending == []
    && k < |s.log| && s.log[k].row.id == s.runs[i].rowId && s.log[k].row.IsRun()
    && (forall p <- s.runs[i].sent :: exists e <- meters :: Within(p, e))
    && var row := s.log[k].row;
       t == s.(log := s.log[k := s.log[k].(row := row.(content := Run(row.content.run.(meters := meters))))])
  }

  /** KeepSent deletes the stored run when nothing was sent. */
  predicate DeleteRow(s: State, t: State, i: nat, k: nat) {
    && i < |s.runs| && s.runs[i].pending == [] && s.runs[i].sent == []
    && k < |s.log| && s.log[k].row.id == s.runs[i].rowId
    && t == s.(log := s.log[..k] + s.log[k + 1..])
  }

  /** A row of anyone else: an answer, a summary or any other message, or a run that another instance saves. */
  predicate AppendRow(s: State, t: State, d: DbRow) {
    IsNext(s, d) && t == s.(log := s.log + [d], next := d.row.id + 1)
  }

  /** Row `k` is no run of this instance. */
  predicate IsForeign(s: State, k: nat) {
    k < |s.log| && forall i :: 0 <= i < |s.runs| ==> s.runs[i].rowId != s.log[k].row.id
  }

  /** Another instance edits a row of its own. */
  predicate ChangeForeign(s: State, t: State, k: nat, row: Row) {
    IsForeign(s, k) && row.id == s.log[k].row.id && t == s.(log := s.log[k := s.log[k].(row := row)])
  }

  predicate DeleteForeign(s: State, t: State, k: nat) {
    IsForeign(s, k) && t == s.(log := s.log[..k] + s.log[k + 1..])
  }

  /** Ids grow, also past deleted rows, and dates grow with them. */
  predicate IsNext(s: State, d: DbRow) {
    s.next <= d.row.id && forall i :: 0 <= i < |s.log| ==> s.log[i].date <= d.date
  }

  predicate Within(p: MeterRange, e: MeterRange) {
    e.meter == p.meter && e.from <= p.from && p.to <= e.to
  }

  ghost predicate Step(cal: Calendar, s: State, t: State) {
    || (exists c, readAt :: TakeLock(cal, s, t, c, readAt))
    || (exists key :: Release(s, t, key))
    || (exists key, d :: SaveRun(s, t, key, d))
    || (exists i, ok :: SendNext(s, t, i, ok))
    || (exists i, k, meters :: KeepSentRow(s, t, i, k, meters))
    || (exists i, k :: DeleteRow(s, t, i, k))
    || (exists d :: AppendRow(s, t, d)) || (exists k, row :: ChangeForeign(s, t, k, row)) || (exists k :: DeleteForeign(s, t, k))
  }

  /** What the handler promises (RequestValues) lets it take two steps: its lock check, and saving its run. */
  lemma HandlerFits(cal: Calendar, s: State, c: LockCheck, readAt: int, found: seq<Participation>, periods: map<string, Period>,
                    whole: Period, send: seq<Checked>, d: DbRow)
    requires ToUpper(c.tenant) !in s.held && c.tenant in c.community && readAt <= c.at
    requires c.rows == Read(s.log, Some(c.community), readAt) && c.planned == Ranges(send)
    requires IsRightPlan(cal, found, periods, whole, c.rows, c.community, c.tenant, c.at, send) && IsNext(s, d)
    requires d.row.IsRun() && d.row.process == EnergyRequest && d.row.tenant == c.tenant
    requires d.row.content.run.createdAt <= d.date && AreHulls(d.row.content.run.meters, Ranges(send))
    ensures var t := s.(held := s.held[ToUpper(c.tenant) := c]);
            TakeLock(cal, s, t, c, readAt) && exists u :: SaveRun(t, u, ToUpper(c.tenant), d)
  {
    var t := s.(held := s.held[ToUpper(c.tenant) := c]);
    forall p | p in c.planned
      ensures exists e <- d.row.content.run.meters :: Within(p, e)
    {
      WidestIsHull(c.planned, p.meter);
      assert Widest(c.planned, p.meter).value in d.row.content.run.meters;
    }
    var u := State(t.log + [d], d.row.id + 1,
                   t.runs + [RunRecord(d.row.id, d.row.content.run.createdAt, c, [], c.planned)], t.held - {ToUpper(c.tenant)});
    assert SaveRun(t, u, ToUpper(c.tenant), d);
  }

  // ----- what holds in every state

  predicate Ordered(s: State) {
    && 0 < s.next
    && (forall i, j :: 0 <= i < j < |s.log| ==> s.log[i].row.id < s.log[j].row.id && s.log[i].date <= s.log[j].date)
    && (forall i :: 0 <= i < |s.log| ==> 0 < s.log[i].row.id < s.next)
    && (forall i, j :: 0 <= i < j < |s.runs| ==> s.runs[i].rowId < s.runs[j].rowId)
    && (forall i :: 0 <= i < |s.runs| ==> s.runs[i].rowId < s.next)
  }

  predicate IsPart(r: RunRecord, p: MeterRange) {
    p in r.sent || p in r.pending
  }

  /** The stored row of a run locks every part that was or will be sent. */
  ghost predicate LocksParts(d: DbRow, r: RunRecord) {
    && d.row.id == r.rowId && d.row.IsRun() && d.row.process == EnergyRequest && d.row.tenant == r.check.tenant
    && d.row.content.run.createdAt == r.createdAt <= d.date
    && forall p :: IsPart(r, p) ==> exists e <- d.row.content.run.meters :: Within(p, e)
  }

  ghost predicate IsLocked(log: seq<DbRow>, r: RunRecord) {
    (r.sent != [] || r.pending != []) ==> exists k :: 0 <= k < |log| && LocksParts(log[k], r)
  }

  ghost predicate AllLocked(s: State) {
    forall i :: 0 <= i < |s.runs| ==> IsLocked(s.log, s.runs[i])
  }

  /** The lock check let `q` through although `p` of the run shares a day with it only because the run was older than the
      lock window then, or the latest answer that belonged to it was a rejection. A part that ends before it begins (the
      handler does not refuse such a period) has no day to share. */
  ghost predicate PartRespects(cal: Calendar, r: RunRecord, c: LockCheck, p: MeterRange, q: MeterRange) {
    p.meter == q.meter && cal(p.from) <= cal(p.to) && Overlaps(cal, p.from, p.to, q.from, q.to) ==>
      || c.at >= r.createdAt + 3_600_000
      || WasRejected(cal, c, r.rowId, q.meter)
  }

  ghost predicate Respects(cal: Calendar, r: RunRecord, c: LockCheck) {
    forall p, q :: IsPart(r, p) && q in c.planned ==> PartRespects(cal, r, c, p, q)
  }

  ghost predicate RunsRespect(cal: Calendar, s: State) {
    forall i, j :: 0 <= i < j < |s.runs| && s.runs[i].check.tenant == s.runs[j].check.tenant ==>
      Respects(cal, s.runs[i], s.runs[j].check)
  }

  ghost predicate HeldRespect(cal: Calendar, s: State) {
    && (forall k :: k in s.held ==> k == ToUpper(s.held[k].tenant))
    && forall k, i :: k in s.held && 0 <= i < |s.runs| && s.runs[i].check.tenant == s.held[k].tenant ==>
         Respects(cal, s.runs[i], s.held[k])
  }

  ghost predicate PartsPlanned(cal: Calendar, s: State) {
    && (forall k :: k in s.held ==> Disjoint(cal, s.held[k].planned))
    && forall i :: 0 <= i < |s.runs| ==>
         Disjoint(cal, s.runs[i].check.planned) && forall p :: IsPart(s.runs[i], p) ==> p in s.runs[i].check.planned
  }

  ghost predicate Inv(cal: Calendar, s: State) {
    Ordered(s) && AllLocked(s) && RunsRespect(cal, s) && HeldRespect(cal, s) && PartsPlanned(cal, s)
  }

  // ----- the lock check sees every run it must respect

  /** A run younger than the lock window is among the rows read. */
  lemma RecentRunIsRead(s: State, k: nat, r: RunRecord, community: set<string>, readAt: int, at: int)
    requires Ordered(s) && k < |s.log| && LocksParts(s.log[k], r) && r.check.tenant in community
    requires readAt <= at && at < r.createdAt + 3_600_000
    ensures s.log[k].row in Read(s.log, Some(community), readAt)
  {
    var bound, row := Bound(s.log, readAt - LOOK_BACK), s.log[k].row;
    var n := BoundIndex(s.log, readAt - LOOK_BACK);
    DateAfter(s, k, n, readAt - LOOK_BACK);
    assert row.id > bound;
    assert RowsOf(s.log)[k] == row && row in RowsOf(s.log);
    assert Selected(bound, FirstRun(RowsOf(s.log), bound, Some(community)), Some(community))(row);
  }

  lemma DateAfter(s: State, k: nat, n: nat, time: int)
    requires Ordered(s) && k < |s.log| && n <= |s.log| && time < s.log[k].date
    requires n == 0 || s.log[n - 1].date <= time
    ensures n <= k && (n > 0 ==> s.log[n - 1].row.id < s.log[k].row.id)
  {
  }

  lemma SparedIsRejected(cal: Calendar, c: LockCheck, row: Row, e: MeterRange, p: MeterRange, q: MeterRange)
    requires Spares(cal, c.rows, c.community, c.tenant, c.at, q.meter, q.from, q.to) && Monotone(cal)
    requires row in c.rows && row.IsRun() && row.tenant == c.tenant && c.at < row.content.run.createdAt + 3_600_000
    requires e in row.content.run.meters && Within(p, e) && p.meter == q.meter
    requires cal(p.from) <= cal(p.to) && Overlaps(cal, p.from, p.to, q.from, q.to)
    ensures IsRejected(Scope(cal, row.content.run.ecId, c.community, q.meter), c.rows, row.id)
  {
    assert cal(e.from) <= cal(p.from) && cal(p.to) <= cal(e.to);
    assert !Holds(cal, c.rows, c.community, c.tenant, c.at, row, q.meter);
  }

  lemma TakeLockRespects(cal: Calendar, s: State, c: LockCheck, readAt: int, i: nat, p: MeterRange, q: MeterRange)
    requires Ordered(s) && AllLocked(s) && i < |s.runs| && s.runs[i].check.tenant == c.tenant && c.tenant in c.community
    requires readAt <= c.at && c.rows == Read(s.log, Some(c.community), readAt) && IsUnblocked(cal, c) && Monotone(cal)
    requires IsPart(s.runs[i], p) && q in c.planned
    ensures PartRespects(cal, s.runs[i], c, p, q)
  {
    var r := s.runs[i];
    if p.meter == q.meter && cal(p.from) <= cal(p.to) && Overlaps(cal, p.from, p.to, q.from, q.to)
      && c.at < r.createdAt + 3_600_000 {
      assert r.sent != [] || r.pending != [];
      var k :| 0 <= k < |s.log| && LocksParts(s.log[k], r);
      RecentRunIsRead(s, k, r, c.community, readAt, c.at);
      var row := s.log[k].row;
      var e :| e in row.content.run.meters && Within(p, e);
      SparedIsRejected(cal, c, row, e, p, q);
    }
  }

  // ----- every step keeps the invariant

  lemma TakeLockKeeps(cal: Calendar, s: State, t: State, c: LockCheck, readAt: int)
    requires Monotone(cal) && Inv(cal, s) && TakeLock(cal, s, t, c, readAt)
    ensures Inv(cal, t)
  {
    forall i | 0 <= i < |s.runs| && s.runs[i].check.tenant == c.tenant
      ensures Respects(cal, s.runs[i], c)
    {
      forall p, q | IsPart(s.runs[i], p) && q in c.planned
        ensures PartRespects(cal, s.runs[i], c, p, q)
      {
        TakeLockRespects(cal, s, c, readAt, i, p, q);
      }
    }
  }

  lemma ReleaseKeeps(cal: Calendar, s: State, t: State, key: string)
    requires Inv(cal, s) && Release(s, t, key)
    ensures Inv(cal, t)
  {
  }

  lemma LocksMore(log: seq<DbRow>, d: DbRow, r: RunRecord)
    requires IsLocked(log, r)
    ensures IsLocked(log + [d], r)
  {
    if r.sent != [] || r.pending != [] {
      var k :| 0 <= k < |log| && LocksParts(log[k], r);
      assert LocksParts((log + [d])[k], r);
    }
  }

  lemma SaveRunOrdered(s: State, t: State, key: string, d: DbRow)
    requires Ordered(s) && SaveRun(s, t, key, d)
    ensures Ordered(t)
  {
  }

  lemma SaveRunKeeps(cal: Calendar, s: State, t: State, key: string, d: DbRow)
    requires Inv(cal, s) && SaveRun(s, t, key, d)
    ensures Inv(cal, t)
  {
    var n := |s.runs|;
    SaveRunOrdered(s, t, key, d);
    forall i | 0 <= i < |t.runs|
      ensures IsLocked(t.log, t.runs[i])
    {
      if i < n {
        LocksMore(s.log, d, s.runs[i]);
      } else {
        assert LocksParts(t.log[|s.log|], t.runs[n]);
      }
    }
    assert RunsRespect(cal, t);
    assert HeldRespect(cal, t) by {
      forall k, i | k in t.held && 0 <= i < |t.runs| && t.runs[i].check.tenant == t.held[k].tenant
        ensures Respects(cal, t.runs[i], t.held[k])
      {
        assert k in s.held && k != key;
        assert i < n;
      }
    }
  }

  /** Sending a part moves it from the pending to the sent ones, or drops it. */
  lemma FewerParts(r: RunRecord, ok: bool, p: MeterRange)
    requires r.pending != []
    ensures IsPart(r.(pending := r.pending[1..], sent := if ok then r.sent + [r.pending[0]] else r.sent), p) ==> IsPart(r, p)
  {
  }

  lemma SendNextKeeps(cal: Calendar, s: State, t: State, i: nat, ok: bool)
    requires Inv(cal, s) && SendNext(s, t, i, ok)
    ensures Inv(cal, t)
  {
    var r := s.runs[i];
    forall p
      ensures IsPart(t.runs[i], p) ==> IsPart(r, p)
    {
      FewerParts(r, ok, p);
    }
    assert IsLocked(t.log, t.runs[i]) by {
      var k :| 0 <= k < |s.log| && LocksParts(s.log[k], r);
      assert LocksParts(t.log[k], t.runs[i]);
    }
    FewerPartsRespect(cal, s, t, i);
  }

  lemma FewerPartsRespect(cal: Calendar, s: State, t: State, i: nat)
    requires RunsRespect(cal, s) && HeldRespect(cal, s) && i < |s.runs|
    requires |t.runs| == |s.runs| && t == s.(runs := s.runs[i := t.runs[i]])
    requires t.runs[i].check == s.runs[i].check && t.runs[i].createdAt == s.runs[i].createdAt
    requires t.runs[i].rowId == s.runs[i].rowId && forall p :: IsPart(t.runs[i], p) ==> IsPart(s.runs[i], p)
    ensures RunsRespect(cal, t) && HeldRespect(cal, t)
  {
    forall c | Respects(cal, s.runs[i], c)
      ensures Respects(cal, t.runs[i], c)
    {
      forall p, q | IsPart(t.runs[i], p) && q in c.planned
        ensures PartRespects(cal, t.runs[i], c, p, q)
      {
        assert PartRespects(cal, s.runs[i], c, p, q);
      }
    }
  }

  lemma KeepSentRowKeeps(cal: Calendar, s: State, t: State, i: nat, k: nat, meters: seq<MeterRange>)
    requires Inv(cal, s) && KeepSentRow(s, t, i, k, meters)
    ensures Inv(cal, t)
  {
    forall j | 0 <= j < |t.runs|
      ensures IsLocked(t.log, t.runs[j])
    {
      if s.runs[j].sent != [] || s.runs[j].pending != [] {
        var l :| 0 <= l < |s.log| && LocksParts(s.log[l], s.runs[j]);
        if j == i {
          assert l == k;
        } else {
          assert l != k;
        }
        assert LocksParts(t.log[l], t.runs[j]);
      }
    }
  }

  lemma DeletedOrdered(s: State, t: State, k: nat)
    requires Ordered(s) && k < |s.log| && t.log == s.log[..k] + s.log[k + 1..] && t.next == s.next && t.runs == s.runs
    ensures Ordered(t)
  {
    assert forall j :: 0 <= j < |t.log| ==> t.log[j] == s.log[if j < k then j else j + 1];
  }

  /** Deleting another row leaves the row of a run where it was, or one further down. */
  lemma StillLocked(log: seq<DbRow>, rest: seq<DbRow>, k: nat, r: RunRecord)
    requires IsLocked(log, r) && k < |log| && rest == log[..k] + log[k + 1..]
    requires r.sent != [] || r.pending != [] ==> log[k].row.id != r.rowId
    ensures IsLocked(rest, r)
  {
    if r.sent != [] || r.pending != [] {
      var l :| 0 <= l < |log| && LocksParts(log[l], r);
      assert LocksParts(rest[if l < k then l else l - 1], r);
    }
  }

  lemma DeleteRowKeeps(cal: Calendar, s: State, t: State, i: nat, k: nat)
    requires Inv(cal, s) && DeleteRow(s, t, i, k)
    ensures Inv(cal, t)
  {
    DeletedOrdered(s, t, k);
    forall j | 0 <= j < |t.runs|
      ensures IsLocked(t.log, t.runs[j])
    {
      StillLocked(s.log, t.log, k, s.runs[j]);
    }
  }

  lemma ChangeForeignKeeps(cal: Calendar, s: State, t: State, k: nat, row: Row)
    requires Inv(cal, s) && ChangeForeign(s, t, k, row)
    ensures Inv(cal, t)
  {
    forall i | 0 <= i < |t.runs|
      ensures IsLocked(t.log, t.runs[i])
    {
      if s.runs[i].sent != [] || s.runs[i].pending != [] {
        var l :| 0 <= l < |s.log| && LocksParts(s.log[l], s.runs[i]);
        assert l != k && LocksParts(t.log[l], t.runs[i]);
      }
    }
  }

  lemma DeleteForeignKeeps(cal: Calendar, s: State, t: State, k: nat)
    requires Inv(cal, s) && DeleteForeign(s, t, k)
    ensures Inv(cal, t)
  {
    DeletedOrdered(s, t, k);
    forall i | 0 <= i < |t.runs|
      ensures IsLocked(t.log, t.runs[i])
    {
      StillLocked(s.log, t.log, k, s.runs[i]);
    }
  }

  lemma AppendRowKeeps(cal: Calendar, s: State, t: State, d: DbRow)
    requires Inv(cal, s) && AppendRow(s, t, d)
    ensures Inv(cal, t)
  {
    forall i | 0 <= i < |t.runs|
      ensures IsLocked(t.log, t.runs[i])
    {
      LocksMore(s.log, d, s.runs[i]);
    }
  }

  lemma StepKeeps(cal: Calendar, s: State, t: State)
    requires Monotone(cal) && Inv(cal, s) && Step(cal, s, t)
    ensures Inv(cal, t)
  {
    if c, readAt :| TakeLock(cal, s, t, c, readAt) {
      TakeLockKeeps(cal, s, t, c, readAt);
    } else if key :| Release(s, t, key) {
      ReleaseKeeps(cal, s, t, key);
    } else if key, d :| SaveRun(s, t, key, d) {
      SaveRunKeeps(cal, s, t, key, d);
    } else if i, ok :| SendNext(s, t, i, ok) {
      SendNextKeeps(cal, s, t, i, ok);
    } else if i, k, meters :| KeepSentRow(s, t, i, k, meters) {
      KeepSentRowKeeps(cal, s, t, i, k, meters);
    } else if i, k :| DeleteRow(s, t, i, k) {
      DeleteRowKeeps(cal, s, t, i, k);
    } else if d :| AppendRow(s, t, d) {
      AppendRowKeeps(cal, s, t, d);
    } else if k, row :| ChangeForeign(s, t, k, row) {
      ChangeForeignKeeps(cal, s, t, k, row);
    } else {
      var k :| DeleteForeign(s, t, k);
      DeleteForeignKeeps(cal, s, t, k);
    }
  }

  // ----- safety

  /** Any table to start with; no run of this instance yet. */
  predicate Init(s: State) {
    s.runs == [] && s.held == map[] && Ordered(s)
  }

  ghost predicate IsTrace(cal: Calendar, trace: seq<State>) {
    trace != [] && Init(trace[0]) && forall k :: 0 <= k < |trace| - 1 ==> Step(cal, trace[k], trace[k + 1])
  }

  lemma TraceStep(cal: Calendar, trace: seq<State>, n: nat)
    requires IsTrace(cal, trace) && n + 1 < |trace|
    ensures Step(cal, trace[n], trace[n + 1])
  {
  }

  lemma InitHolds(cal: Calendar, s: State)
    requires Init(s)
    ensures Inv(cal, s)
  {
  }

  lemma {:induction false} InvAlways(cal: Calendar, trace: seq<State>, n: nat)
    requires Monotone(cal) && IsTrace(cal, trace) && n < |trace|
    ensures Inv(cal, trace[n])
  {
    if n == 0 {
      InitHolds(cal, trace[0]);
    } else {
      InvAlways(cal, trace, n - 1);
      TraceStep(cal, trace, n - 1);
      StepKeeps(cal, trace[n - 1], trace[n]);
    }
  }

  lemma PlannedApart(cal: Calendar, planned: seq<MeterRange>, p: MeterRange, q: MeterRange)
    requires Disjoint(cal, planned) && p in planned && q in planned && p.meter == q.meter
    ensures p == q || !Overlaps(cal, p.from, p.to, q.from, q.to)
  {
    var a :| 0 <= a < |planned| && planned[a] == p;
    var b :| 0 <= b < |planned| && planned[b] == q;
  }

  /** In every run of the system: no part sent for a metering point shares a day with a part the same tenant sent in an
      earlier run, unless that run was older than the lock window at the lock check, or the latest answer that belonged
      to it then was a rejection. Two parts of one run never share a day. */
  lemma NoLockedPartIsSent(cal: Calendar, trace: seq<State>, i: nat, j: nat, p: MeterRange, q: MeterRange)
    requires Monotone(cal) && IsTrace(cal, trace)
    requires var runs := trace[|trace| - 1].runs;
             && i <= j < |runs| && runs[i].check.tenant == runs[j].check.tenant
             && p in runs[i].sent && q in runs[j].sent && p.meter == q.meter
             && (i == j ==> p != q)
             && exists d :: OnDay(cal, p.from, p.to, d) && OnDay(cal, q.from, q.to, d)
    ensures var runs := trace[|trace| - 1].runs;
            && i < j
            && (|| runs[j].check.at >= runs[i].createdAt + 3_600_000
                || WasRejected(cal, runs[j].check, runs[i].rowId, q.meter))
  {
    InvAlways(cal, trace, |trace| - 1);
    var s := trace[|trace| - 1];
    assert cal(p.from) <= cal(p.to) && Overlaps(cal, p.from, p.to, q.from, q.to);
    assert IsPart(s.runs[i], p) && IsPart(s.runs[j], q);
    assert q in s.runs[j].check.planned;
    if i == j {
      PlannedApart(cal, s.runs[i].check.planned, p, q);
    }
    assert i < j ==> Respects(cal, s.runs[i], s.runs[j].check);
    assert PartRespects(cal, s.runs[i], s.runs[j].check, p, q);
  }
}
