/** The metering points a tenant may not request again yet (energyrequest/lock.go). */
module Locks {
  import opened Wrappers
  import opened EnergyTypes
  import opened AttributionSpec
  import opened AttributionWindows
  import opened Attribution
  import opened Belongings

  datatype Lock = Lock(from: int, to: int, until: int)

  type LockMap = map<string, seq<Lock>>

  function LocksFor(locks: LockMap, meter: string): seq<Lock> {
    if meter in locks then locks[meter] else []
  }

  // ----- the attributions of the communities, computed once each

  lemma {:induction false} OpenedFoldAlike(cal: Calendar, e: string, f: string, tenants: set<string>, m: string, rows: seq<Row>)
    requires EqualFold(e, f)
    ensures Opened(Scope(cal, e, tenants, m), rows) == Opened(Scope(cal, f, tenants, m), rows)
  {
    if rows != [] {
      OpenedFoldAlike(cal, e, f, tenants, m, rows[..|rows| - 1]);
    }
  }

  type Attributions = map<string, map<RequestKey, RequestNode>>

  /** The result of attributing `rows` for the community `ecId`. */
  ghost predicate IsAttribution(a: map<RequestKey, RequestNode>, cal: Calendar, ecId: string, tenants: set<string>, rows: seq<Row>)
    reads a.Values
  {
    forall rowId, m :: BelongingOf(a, rowId, m) == Belonging(TwoPass(Scope(cal, ecId, tenants, m), rows), rowId)
  }

  ghost function NodesOf(cache: Attributions): set<RequestNode> {
    set k, n | k in cache && n in cache[k].Values :: n
  }

  /** Every attribution kept under an upper-case community id is that of every spelling of it. */
  ghost predicate Kept(cache: Attributions, cal: Calendar, tenants: set<string>, rows: seq<Row>)
    reads NodesOf(cache)
  {
    forall ecId :: ToUpper(ecId) in cache ==>
      (assert forall n <- cache[ToUpper(ecId)].Values :: n in NodesOf(cache);
       IsAttribution(cache[ToUpper(ecId)], cal, ecId, tenants, rows))
  }

  lemma AttributionFoldAlike(a: map<RequestKey, RequestNode>, cal: Calendar, e: string, f: string, tenants: set<string>,
                             rows: seq<Row>)
    requires IsAttribution(a, cal, e, tenants, rows) && EqualFold(e, f)
    ensures IsAttribution(a, cal, f, tenants, rows)
  {
    forall rowId, m
      ensures BelongingOf(a, rowId, m) == Belonging(TwoPass(Scope(cal, f, tenants, m), rows), rowId)
    {
      OpenedFoldAlike(cal, e, f, tenants, m, rows);
    }
  }

  /** The attribution of the community, from the cache or computed now. */
  method AttributionOf(cache: Attributions, cal: Calendar, ecId: string, rows: seq<Row>, tenants: set<string>)
    returns (a: map<RequestKey, RequestNode>, cache': Attributions)
    requires ValidRows(rows) && Kept(cache, cal, tenants, rows)
    ensures IsAttribution(a, cal, ecId, tenants, rows) && Kept(cache', cal, tenants, rows)
  {
    if ToUpper(ecId) in cache {
      a, cache' := cache[ToUpper(ecId)], cache;
    } else {
      var closed := SummariesIn(rows);
      a := Attribute(cal, ecId, rows, tenants, closed);
      cache' := cache[ToUpper(ecId) := a];
      forall e | ToUpper(e) in cache'
        ensures IsAttribution(cache'[ToUpper(e)], cal, e, tenants, rows)
      {
        if ToUpper(e) == ToUpper(ecId) {
          AttributionFoldAlike(a, cal, ecId, e, tenants, rows);
        } else {
          assert IsAttribution(cache[ToUpper(e)], cal, e, tenants, rows);
        }
      }
    }
  }

  /** `summaries` of energyrequest/attribution.go. */
  method SummariesIn(rows: seq<Row>) returns (ids: map<string, int>)
    ensures ids == Summaries(rows)
  {
    ids := map[];
    for i := 0 to |rows|
      invariant ids == Summaries(rows[..i])
    {
      assert rows[..i + 1][..i] == rows[..i];
      if rows[i].IsSummary() {
        ids := ids[rows[i].content.summary.runId := rows[i].id];
      }
    }
    assert rows[..|rows|] == rows;
  }

  // ----- locks

  /** Whether a run of the tenant locks at `now`. */
  predicate IsLocking(r: Row, tenant: string, now: int) {
    r.IsRun() && EqualFold(r.tenant, tenant) && now < r.content.run.createdAt + LOCK_WINDOW
  }

  /** For a run row and a metering point: whether the latest answer that belongs to it is a rejection. */
  type Verdict = (Row, string) -> bool

  /** The verdict of the rows. */
  ghost function Rejections(cal: Calendar, rows: seq<Row>, tenants: set<string>): Verdict {
    (r: Row, m: string) => r.content.Run? && IsRejected(Scope(cal, r.content.run.ecId, tenants, m), rows, r.id)
  }

  function LockOf(e: MeterRange, until: int): Lock {
    Lock(e.from, e.to, until)
  }

  /** The locks `given` of a metering point with those of the first entries of a run. */
  function WithEntries(given: seq<Lock>, rejected: bool, entries: seq<MeterRange>, until: int, meter: string): seq<Lock> {
    if entries == [] then given
    else
      var e, prev := entries[|entries| - 1], WithEntries(given, rejected, entries[..|entries| - 1], until, meter);
      if e.meter == meter && !rejected then prev + [LockOf(e, until)] else prev
  }

  function WithRun(given: seq<Lock>, rejected: Verdict, r: Row, meter: string): seq<Lock>
    requires r.IsRun()
  {
    WithEntries(given, rejected(r, meter), r.content.run.meters, r.content.run.createdAt + LOCK_WINDOW, meter)
  }

  /** The locks of a metering point that the rows give. */
  function RowLocks(rows: seq<Row>, rejected: Verdict, tenant: string, now: int, meter: string): seq<Lock> {
    if rows == [] then []
    else
      var prev, r := RowLocks(rows[..|rows| - 1], rejected, tenant, now, meter), rows[|rows| - 1];
      if IsLocking(r, tenant, now) then WithRun(prev, rejected, r, meter) else prev
  }

  lemma WithEntriesStep(given: seq<Lock>, rejected: bool, entries: seq<MeterRange>, until: int, j: nat, m: string)
    requires j < |entries|
    ensures WithEntries(given, rejected, entries[..j + 1], until, m) ==
              if entries[j].meter == m && !rejected
              then WithEntries(given, rejected, entries[..j], until, m) + [LockOf(entries[j], until)]
              else WithEntries(given, rejected, entries[..j], until, m)
  {
    assert entries[..j + 1][..j] == entries[..j];
  }

  /** Adds the locks of one run. */
  method LockRun(r: Row, a: map<RequestKey, RequestNode>, locks: LockMap, ghost rejected: Verdict) returns (locks': LockMap)
    requires r.IsRun() && forall m :: LastRejected(BelongingOf(a, r.id, m).0) == rejected(r, m)
    ensures forall m :: LocksFor(locks', m) == WithRun(LocksFor(locks, m), rejected, r, m)
  {
    var entries, until := r.content.run.meters, r.content.run.createdAt + LOCK_WINDOW;
    locks' := locks;
    for j := 0 to |entries|
      invariant forall m :: LocksFor(locks', m) == WithEntries(LocksFor(locks, m), rejected(r, m), entries[..j], until, m)
    {
      forall m {
        WithEntriesStep(LocksFor(locks, m), rejected(r, m), entries, until, j, m);
      }
      var e := entries[j];
      var (answers, _) := BelongingOf(a, r.id, e.meter);
      if !LastRejected(answers) {
        locks' := locks'[e.meter := LocksFor(locks', e.meter) + [LockOf(e, until)]];
      }
    }
    assert entries[..|entries|] == entries;
  }

  /** Adds the locks of a run row. */
  method LockRow(cal: Calendar, rows: seq<Row>, tenants: set<string>, r: Row, locks: LockMap, attributions: Attributions)
    returns (locks': LockMap, attributions': Attributions)
    requires ValidRows(rows) && r.IsRun() && Kept(attributions, cal, tenants, rows)
    ensures Kept(attributions', cal, tenants, rows)
    ensures forall m :: LocksFor(locks', m) == WithRun(LocksFor(locks, m), Rejections(cal, rows, tenants), r, m)
  {
    var a;
    a, attributions' := AttributionOf(attributions, cal, r.content.run.ecId, rows, tenants);
    ghost var rejected := Rejections(cal, rows, tenants);
    forall m
      ensures LastRejected(BelongingOf(a, r.id, m).0) == rejected(r, m)
    {
      RejectedRows(Scope(cal, r.content.run.ecId, tenants, m), rows, r.id);
    }
    locks' := LockRun(r, a, locks, rejected);
  }

  /** Run row `r` of the tenant is younger than one hour, and the last answer that belongs to it for the metering point is no
      rejection. */
  ghost predicate Holds(cal: Calendar, rows: seq<Row>, tenants: set<string>, tenant: string, now: int, r: Row, meter: string) {
    && r.rowType == RunRow && r.content.Run? && EqualFold(r.tenant, tenant) && now < r.content.run.createdAt + 3_600_000
    && !IsRejected(Scope(cal, r.content.run.ecId, tenants, meter), rows, r.id)
  }

  /** It locks the metering point for its own period until it is one hour old. */
  ghost predicate HoldsBy(cal: Calendar, rows: seq<Row>, tenants: set<string>, tenant: string, now: int, r: Row,
                          meter: string, k: Lock) {
    && Holds(cal, rows, tenants, tenant, now, r, meter)
    && exists e <- r.content.run.meters :: e.meter == meter && k == Lock(e.from, e.to, r.content.run.createdAt + 3_600_000)
  }

  /** The locks of `tenant` at `now`, from the rows of its community. */
  method NewLocks(cal: Calendar, rows: seq<Row>, tenant: string, tenants: set<string>, now: int) returns (locks: LockMap)
    requires ValidRows(rows)
    ensures forall m :: LocksFor(locks, m) == RowLocks(rows, Rejections(cal, rows, tenants), tenant, now, m)
    ensures forall m, k :: k in LocksFor(locks, m) <==> exists r <- rows :: HoldsBy(cal, rows, tenants, tenant, now, r, m, k)
  {
    locks := map[];
    var attributions: Attributions := map[];
    ghost var rejected := Rejections(cal, rows, tenants);
    for i := 0 to |rows|
      invariant Kept(attributions, cal, tenants, rows)
      invariant forall m :: LocksFor(locks, m) == RowLocks(rows[..i], rejected, tenant, now, m)
    {
      var r := rows[i];
      assert rows[..i + 1][..i] == rows[..i];
      if !r.IsRun() || !EqualFold(r.tenant, tenant) {
        continue;
      }
      if now >= r.content.run.createdAt + LOCK_WINDOW {
        continue;
      }
      locks, attributions := LockRow(cal, rows, tenants, r, locks, attributions);
    }
    assert rows[..|rows|] == rows;
    forall m, k
      ensures k in LocksFor(locks, m) <==> exists r <- rows :: HoldsBy(cal, rows, tenants, tenant, now, r, m, k)
    {
      LocksHold(cal, rows, tenants, tenant, now, m, k);
    }
  }

  lemma LocksHold(cal: Calendar, rows: seq<Row>, tenants: set<string>, tenant: string, now: int, m: string, k: Lock)
    ensures k in RowLocks(rows, Rejections(cal, rows, tenants), tenant, now, m) <==>
            exists r <- rows :: HoldsBy(cal, rows, tenants, tenant, now, r, m, k)
  {
    var rejected := Rejections(cal, rows, tenants);
    RowLocksMembers(rows, rejected, tenant, now, m, k);
    forall r | r in rows
      ensures Gives(r, rejected, tenant, now, m, k) <==> HoldsBy(cal, rows, tenants, tenant, now, r, m, k)
    {
    }
  }

  /** The time from which `meter` is free again for from..to, 0 when it is free now. */
  method Until(cal: Calendar, locks: LockMap, meter: string, from: int, to: int) returns (until: int)
    ensures until >= 0
    ensures forall k <- LocksFor(locks, meter) :: Overlaps(cal, k.from, k.to, from, to) ==> k.until <= until
    ensures until > 0 ==> exists k <- LocksFor(locks, meter) :: Overlaps(cal, k.from, k.to, from, to) && k.until == until
  {
    until := 0;
    var list := LocksFor(locks, meter);
    for i := 0 to |list|
      invariant until >= 0
      invariant forall j :: 0 <= j < i && Overlaps(cal, list[j].from, list[j].to, from, to) ==> list[j].until <= until
      invariant until > 0 ==> exists k <- list :: Overlaps(cal, k.from, k.to, from, to) && k.until == until
    {
      var k := list[i];
      assert k in list;
      if Overlaps(cal, k.from, k.to, from, to) && k.until > until {
        until := k.until;
      }
    }
  }

  // ----- what a lock means

  /** A run row that keeps the tenant from requesting `meter` for from..to at `now`: the run is of the last hour, names
      the metering point for a period that shares a day, and its latest answer is no rejection. */
  predicate Blocks(cal: Calendar, r: Row, rejected: Verdict, tenant: string, now: int, meter: string, from: int, to: int) {
    && IsLocking(r, tenant, now) && !rejected(r, meter)
    && exists e <- r.content.run.meters :: e.meter == meter && Overlaps(cal, e.from, e.to, from, to)
  }

  /** A run row that does so with an entry that has a day; an entry that ends before it begins names no day. */
  predicate BlocksDays(cal: Calendar, r: Row, rejected: Verdict, tenant: string, now: int, meter: string, from: int, to: int) {
    && IsLocking(r, tenant, now) && !rejected(r, meter)
    && exists e <- r.content.run.meters :: e.meter == meter && cal(e.from) <= cal(e.to) && Overlaps(cal, e.from, e.to, from, to)
  }

  /** Whether a row gives the lock. */
  predicate Gives(r: Row, rejected: Verdict, tenant: string, now: int, meter: string, k: Lock) {
    && IsLocking(r, tenant, now) && !rejected(r, meter)
    && exists e <- r.content.run.meters :: e.meter == meter && LockOf(e, r.content.run.createdAt + LOCK_WINDOW) == k
  }

  lemma {:induction false} WithEntriesMembers(given: seq<Lock>, rejected: bool, entries: seq<MeterRange>, until: int,
                                              meter: string, k: Lock)
    ensures k in WithEntries(given, rejected, entries, until, meter) <==>
            k in given || (!rejected && exists e <- entries :: e.meter == meter && LockOf(e, until) == k)
  {
    if entries != [] {
      var init, last := entries[..|entries| - 1], entries[|entries| - 1];
      WithEntriesMembers(given, rejected, init, until, meter, k);
      assert entries == init + [last];
    }
  }

  lemma {:induction false} RowLocksMembers(rows: seq<Row>, rejected: Verdict, tenant: string, now: int, meter: string, k: Lock)
    ensures k in RowLocks(rows, rejected, tenant, now, meter) <==>
            exists r <- rows :: Gives(r, rejected, tenant, now, meter, k)
  {
    if rows != [] {
      var init, r := rows[..|rows| - 1], rows[|rows| - 1];
      RowLocksMembers(init, rejected, tenant, now, meter, k);
      assert rows == init + [r];
      if IsLocking(r, tenant, now) {
        WithEntriesMembers(RowLocks(init, rejected, tenant, now, meter), rejected(r, meter), r.content.run.meters,
                           r.content.run.createdAt + LOCK_WINDOW, meter, k);
        assert k in RowLocks(rows, rejected, tenant, now, meter) <==>
               k in RowLocks(init, rejected, tenant, now, meter) || Gives(r, rejected, tenant, now, meter, k);
      }
    }
  }

  /** A metering point is free for a period exactly when no run blocks it. */
  lemma FreeMeansNoBlockingRun(cal: Calendar, rows: seq<Row>, rejected: Verdict, tenant: string, now: int, meter: string,
                               from: int, to: int)
    requires now >= 0
    ensures (exists k <- RowLocks(rows, rejected, tenant, now, meter) :: Overlaps(cal, k.from, k.to, from, to) && k.until > 0)
            <==> exists r <- rows :: Blocks(cal, r, rejected, tenant, now, meter, from, to)
  {
    if k :| k in RowLocks(rows, rejected, tenant, now, meter) && Overlaps(cal, k.from, k.to, from, to) {
      RowLocksMembers(rows, rejected, tenant, now, meter, k);
      var r :| r in rows && Gives(r, rejected, tenant, now, meter, k);
      assert Blocks(cal, r, rejected, tenant, now, meter, from, to);
    }
    if r :| r in rows && Blocks(cal, r, rejected, tenant, now, meter, from, to) {
      var e :| e in r.content.run.meters && e.meter == meter && Overlaps(cal, e.from, e.to, from, to);
      var k := LockOf(e, r.content.run.createdAt + LOCK_WINDOW);
      assert Gives(r, rejected, tenant, now, meter, k);
      RowLocksMembers(rows, rejected, tenant, now, meter, k);
    }
  }

  /** On the rows: a run holds a metering point back from a period exactly when it holds it and names it for one of its
      days. */
  lemma BlocksRows(cal: Calendar, rows: seq<Row>, tenants: set<string>, tenant: string, now: int, r: Row, meter: string,
                   from: int, to: int)
    ensures Blocks(cal, r, Rejections(cal, rows, tenants), tenant, now, meter, from, to) <==>
            Holds(cal, rows, tenants, tenant, now, r, meter) &&
            exists e <- r.content.run.meters :: e.meter == meter && cal(e.from) <= cal(to) && cal(from) <= cal(e.to)
  {
  }

  /** A run of the last hour without a belonging answer, or whose belonging answers all accept, locks its metering points
      for each period that shares a day with its own. */
  lemma UnrejectedRunLocks(cal: Calendar, rows: seq<Row>, tenants: set<string>, tenant: string, now: int, r: Row, e: MeterRange,
                           from: int, to: int)
    requires r in rows && r.rowType == RunRow && r.content.Run? && EqualFold(r.tenant, tenant)
    requires now < r.content.run.createdAt + 3_600_000 && e in r.content.run.meters
    requires var s := Scope(cal, r.content.run.ecId, tenants, e.meter);
             forall x <- rows :: BelongsTo(s, rows, x, r.id) ==> x.content.answer.accepted
    requires cal(e.from) <= cal(to) && cal(from) <= cal(e.to)
    ensures exists k <- RowLocks(rows, Rejections(cal, rows, tenants), tenant, now, e.meter) ::
              Overlaps(cal, k.from, k.to, from, to) && now < k.until
  {
    var k := Lock(e.from, e.to, r.content.run.createdAt + 3_600_000);
    assert HoldsBy(cal, rows, tenants, tenant, now, r, e.meter, k);
    LocksHold(cal, rows, tenants, tenant, now, e.meter, k);
  }

  /** No run holds the metering point back from one of the days from..to, by an entry that has a day. */
  ghost predicate Spares(cal: Calendar, rows: seq<Row>, tenants: set<string>, tenant: string, now: int, meter: string,
                         from: int, to: int)
  {
    forall r <- rows | Holds(cal, rows, tenants, tenant, now, r, meter) ::
      forall e <- r.content.run.meters | e.meter == meter && cal(e.from) <= cal(e.to) ::
        !(cal(e.from) <= cal(to) && cal(from) <= cal(e.to))
  }

  lemma UnblockedSpares(cal: Calendar, rows: seq<Row>, tenants: set<string>, tenant: string, now: int, meter: string,
                        from: int, to: int)
    requires forall r <- rows :: !BlocksDays(cal, r, Rejections(cal, rows, tenants), tenant, now, meter, from, to)
    ensures Spares(cal, rows, tenants, tenant, now, meter, from, to)
  {
  }
}
