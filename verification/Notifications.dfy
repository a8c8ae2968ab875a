/** The Messages list of a tenant, read in batches (database/notificationDao.go). */
module Notifications {
  import opened Wrappers
  import opened EnergyTypes
  import opened Collapsing

  const PAGE_SIZE: nat := 30
  /** math.MaxInt32; row ids are SERIAL and below it. */
  const MAX_SERIAL: int := 0x7FFF_FFFF

  /** The notification table while the list is read: a run is dated when or after it is created, a run id has one
      stored summary at most, in a later row than the run. */
  predicate Snapshot(log: seq<DbRow>) {
    && (forall i, j :: 0 <= i < j < |log| ==> log[i].row.id < log[j].row.id)
    && (forall d <- log :: 0 < d.row.id < MAX_SERIAL)
    && (forall d <- log :: d.row.IsRun() ==> d.row.process == EnergyRequest && d.row.content.run.createdAt <= d.date)
    && (forall c <- log, d <- log {:trigger IsSummaryRow(c.row), IsSummaryRow(d.row)} ::
          IsSummaryRow(c.row) && IsSummaryRow(d.row) && RunIdOf(c.row) == RunIdOf(d.row) ==> c == d)
    && (forall c <- log, d <- log {:trigger IsSummaryRow(c.row), d.row.IsRun()} ::
          IsSummaryRow(c.row) && d.row.IsRun() && RunIdOf(c.row) == d.row.content.run.runId ==>
          d.row.id < c.row.id)
  }

  predicate IsSummaryRow(r: Row) {
    r.content.Closing? && r.content.summary.runId != ""
  }

  function RunIdOf(r: Row): string
    requires IsSummaryRow(r)
  {
    r.content.summary.runId
  }

  // ----- the queries

  predicate IsListed(d: DbRow, tenant: string, start: int) {
    d.row.tenant == tenant && start < d.row.id && d.row.process != EnergyRequest
  }

  /** All notifications of the tenant after `start`, newest first. */
  function Listed(log: seq<DbRow>, tenant: string, start: int): seq<DbRow> {
    if log == [] then []
    else (if IsListed(log[|log| - 1], tenant, start) then [log[|log| - 1]] else []) + Listed(log[..|log| - 1], tenant, start)
  }

  function Below(list: seq<DbRow>, before: int): seq<DbRow> {
    if list == [] then []
    else (if list[0].row.id < before then [list[0]] else []) + Below(list[1..], before)
  }

  function First<T>(n: nat, s: seq<T>): seq<T> {
    if |s| <= n then s else s[..n]
  }

  /** One batch: the newest `size` notifications below `before`. */
  function Batch(log: seq<DbRow>, tenant: string, start: int, before: int, size: nat): seq<DbRow> {
    First(size, Below(Listed(log, tenant, start), before))
  }

  function Pick(log: seq<DbRow>, keep: DbRow -> bool): seq<Row> {
    if log == [] then []
    else
      var last := log[|log| - 1];
      Pick(log[..|log| - 1], keep) + if keep(last) then [last.row] else []
  }

  predicate IsRunRow(d: DbRow, tenants: set<string>) {
    d.row.process == EnergyRequest && d.row.rowType == RunRow && d.row.tenant in tenants
  }

  function IsRunBefore(tenants: set<string>, before: int, since: int): DbRow -> bool {
    (d: DbRow) => IsRunRow(d, tenants) && d.row.id < before && d.date >= since
  }

  function IsSummaryIn(tenants: set<string>, from: int, to: int): DbRow -> bool {
    (d: DbRow) => d.row.content.Closing? && d.row.tenant in tenants && from <= d.row.id < to
  }

  /** energyRequestRunsBefore */
  function RunsBefore(log: seq<DbRow>, tenants: set<string>, before: int, since: int): seq<Row> {
    Pick(log, IsRunBefore(tenants, before, since))
  }

  /** energyRequestSummariesFrom */
  function SummariesFrom(log: seq<DbRow>, tenants: set<string>, from: int, to: int): seq<Row> {
    Pick(log, IsSummaryIn(tenants, from, to))
  }

  // ----- the specification

  function MessageOf(d: DbRow): Message {
    Message(d.row.id, d.date, d.row.content)
  }

  function Messages(list: seq<DbRow>): (r: seq<Message>)
    ensures |r| == |list| && forall i :: 0 <= i < |list| ==> r[i] == MessageOf(list[i])
  {
    seq(|list|, i requires 0 <= i < |list| => MessageOf(list[i]))
  }

  /** The notifications that are not left out. */
  function Visible(hides: DbRow -> bool, list: seq<DbRow>): seq<DbRow> {
    if list == [] then []
    else
      Visible(hides, list[..|list| - 1]) + if hides(list[|list| - 1]) then [] else [list[|list| - 1]]
  }

  /** What a Collapser with every run and every summary of the community knows. */
  function Everything(log: seq<DbRow>, tenant: string, tenants: set<string>, now: int): View {
    View(now, AddedRuns(tenant, map[], Pick(log, (d: DbRow) => IsRunRow(d, tenants))),
         AddedSummaries(map[], SummariesFrom(log, tenants, 0, MAX_SERIAL)))
  }

  function Hiding(v: View, collapse: bool): DbRow -> bool {
    (d: DbRow) => collapse && Hides(v, MessageOf(d))
  }

  /** How many notifications the first `n` batches hold at most. */
  function RowsRead(first: nat, next: nat, n: nat): nat {
    if n == 0 then 0 else if n == 1 then first else RowsRead(first, next, n - 1) + next
  }

  lemma {:induction false} RowsReadGrows(first: nat, next: nat, m: nat, n: nat)
    requires m <= n
    ensures RowsRead(first, next, m) <= RowsRead(first, next, n)
  {
    if m < n {
      RowsReadGrows(first, next, m, n - 1);
    }
  }

  // ----- lists

  function IdAt(list: seq<DbRow>, i: nat): int
    requires i < |list|
  {
    list[i].row.id
  }

  predicate Descending(list: seq<DbRow>) {
    forall i, j :: 0 <= i < j < |list| ==> IdAt(list, i) > IdAt(list, j)
  }

  lemma {:induction false} ListedRows(log: seq<DbRow>, tenant: string, start: int)
    ensures forall d <- Listed(log, tenant, start) :: d in log
  {
    if log != [] {
      ListedRows(log[..|log| - 1], tenant, start);
      assert forall d <- log[..|log| - 1] :: d in log;
    }
  }

  lemma {:induction false} PickRows(log: seq<DbRow>, keep: DbRow -> bool)
    ensures forall q <- Pick(log, keep) :: exists d <- log :: keep(d) && d.row == q
    ensures forall d <- log :: keep(d) ==> d.row in Pick(log, keep)
  {
    if log != [] {
      var init, last := log[..|log| - 1], log[|log| - 1];
      PickRows(init, keep);
      assert log == init + [last];
      assert last in log && forall d <- init :: d in log;
    }
  }

  lemma ConsDescends(d: DbRow, list: seq<DbRow>)
    requires Descending(list) && forall e <- list :: e.row.id < d.row.id
    ensures Descending([d] + list)
  {
    var all := [d] + list;
    forall i, j | 0 <= i < j < |all|
      ensures IdAt(all, i) > IdAt(all, j)
    {
      assert all[j] == list[j - 1];
      if i > 0 {
        assert IdAt(list, i - 1) > IdAt(list, j - 1);
      }
    }
  }

  lemma SliceDescends(list: seq<DbRow>, p: nat, q: nat)
    requires Descending(list) && p <= q <= |list|
    ensures Descending(list[p..q])
  {
    forall i, j | 0 <= i < j < q - p
      ensures IdAt(list[p..q], i) > IdAt(list[p..q], j)
    {
      assert IdAt(list, p + i) > IdAt(list, p + j);
    }
  }

  lemma {:induction false} ListedDescends(log: seq<DbRow>, tenant: string, start: int)
    requires forall i, j :: 0 <= i < j < |log| ==> log[i].row.id < log[j].row.id
    ensures Descending(Listed(log, tenant, start))
  {
    if log != [] {
      var init := log[..|log| - 1];
      ListedDescends(init, tenant, start);
      ListedRows(init, tenant, start);
      forall d <- Listed(init, tenant, start)
        ensures d.row.id < log[|log| - 1].row.id
      {
        assert d in init;
      }
      ConsDescends(log[|log| - 1], Listed(init, tenant, start));
      assert [] + Listed(init, tenant, start) == Listed(init, tenant, start);
    }
  }

  lemma {:induction false} BelowIsRest(list: seq<DbRow>, p: nat, before: int)
    requires p <= |list| && Descending(list)
    requires (forall i :: 0 <= i < p ==> before <= list[i].row.id) && (forall i :: p <= i < |list| ==> list[i].row.id < before)
    ensures Below(list, before) == list[p..]
  {
    if list != [] {
      SliceDescends(list, 1, |list|);
      assert list[1..|list|] == list[1..];
      if p == 0 {
        BelowIsRest(list[1..], 0, before);
        assert list[0..] == [list[0]] + list[1..][0..];
      } else {
        BelowIsRest(list[1..], p - 1, before);
        assert list[p..] == list[1..][p - 1..];
      }
    }
  }

  lemma {:induction false} VisibleConcat(hides: DbRow -> bool, x: seq<DbRow>, y: seq<DbRow>)
    ensures Visible(hides, x + y) == Visible(hides, x) + Visible(hides, y)
  {
    if y == [] {
      assert x + y == x;
    } else {
      assert (x + y)[..|x + y| - 1] == x + y[..|y| - 1];
      VisibleConcat(hides, x, y[..|y| - 1]);
    }
  }

  lemma VisibleSnoc(hides: DbRow -> bool, list: seq<DbRow>, i: nat)
    requires i < |list|
    ensures Visible(hides, list[..i + 1]) == Visible(hides, list[..i]) + if hides(list[i]) then [] else [list[i]]
  {
    assert list[..i + 1][..i] == list[..i];
  }

  // ----- what a partial Collapser knows

  function RunRows(log: seq<DbRow>, tenants: set<string>): set<Row> {
    set d <- log | IsRunIn(d.row, tenants) :: d.row
  }

  lemma OneRow(log: seq<DbRow>, a: DbRow, b: DbRow)
    requires Snapshot(log) && a in log && b in log && a.row.id == b.row.id
    ensures a == b
  {
    var i :| 0 <= i < |log| && log[i] == a;
    var j :| 0 <= j < |log| && log[j] == b;
    assert i == j;
  }

  lemma OneRunRow(log: seq<DbRow>, tenants: set<string>)
    requires Snapshot(log)
    ensures OneRowPerId(RunRows(log, tenants))
  {
    forall a <- RunRows(log, tenants), b <- RunRows(log, tenants) | a.id == b.id
      ensures a == b
    {
      var d :| d in log && d.row == a;
      var e :| e in log && e.row == b;
      OneRow(log, d, e);
    }
  }

  ghost predicate SummariesKnown(log: seq<DbRow>, tenants: set<string>, summaries: map<string, int>, from: int) {
    && (forall c <- log :: IsClosingIn(c.row, tenants) && from <= c.row.id ==>
          RunIdOf(c.row) in summaries && summaries[RunIdOf(c.row)] == c.row.id)
    && (forall runId <- summaries :: exists c <- log ::
          IsClosingIn(c.row, tenants) && RunIdOf(c.row) == runId && summaries[runId] == c.row.id)
  }

  /** The Collapser has some of the runs, all in rows from `from` on, and every summary from `from` on. */
  ghost predicate Covers(log: seq<DbRow>, tenant: string, tenants: set<string>, v: View, from: int) {
    && RunsFrom(tenant, RunRows(log, tenants), v.runs) && (forall id <- v.runs :: from <= id)
    && SummariesKnown(log, tenants, v.summaries, from)
  }

  /** It has each run that could own a message up to row `before` and from `oldest` on. */
  ghost predicate Reaches(log: seq<DbRow>, tenants: set<string>, v: View, before: int, oldest: int) {
    forall d <- log :: IsRunIn(d.row, tenants) && d.row.id < before && d.date >= oldest - COLLAPSE_WINDOW ==> d.row.id in v.runs
  }

  /** It has all of them. */
  ghost predicate HasAll(log: seq<DbRow>, tenants: set<string>, v: View) {
    forall d <- log :: IsRunIn(d.row, tenants) ==> d.row.id in v.runs
  }

  /** A run that both know they judge alike: its summary lies after it, so it is among those read. */
  lemma JudgedAlike(log: seq<DbRow>, tenant: string, tenants: set<string>, v: View, from: int, g: View, id: int, m: Message)
    requires Snapshot(log) && Covers(log, tenant, tenants, v, from) && Covers(log, tenant, tenants, g, 0)
    requires id in v.runs && id in g.runs && v.now == g.now
    ensures v.runs[id] == g.runs[id] && (Eligible(v, v.runs[id], m) <==> Eligible(g, g.runs[id], m))
  {
    OneRunRow(log, tenants);
    var r :| r in RunRows(log, tenants) && r.id == id && v.runs[id] == RunOf(tenant, r);
    var q :| q in RunRows(log, tenants) && q.id == id && g.runs[id] == RunOf(tenant, q);
    assert r == q;
    var d :| d in log && d.row == r;
    var runId := v.runs[id].runId;
    forall c <- log | IsClosingIn(c.row, tenants) && RunIdOf(c.row) == runId
      ensures runId in v.summaries && v.summaries[runId] == c.row.id && runId in g.summaries && g.summaries[runId] == c.row.id
    {
      assert IsSummaryRow(c.row) && d.row.id < c.row.id;
    }
  }

  lemma SameOwner(log: seq<DbRow>, tenant: string, tenants: set<string>, v: View, from: int, g: View,
                  before: int, oldest: int, m: Message, id: int)
    requires Snapshot(log) && Covers(log, tenant, tenants, v, from) && Covers(log, tenant, tenants, g, 0)
    requires Reaches(log, tenants, v, before, oldest) && HasAll(log, tenants, g) && v.now == g.now
    requires m.id <= before && oldest <= m.date
    ensures id in v.runs && Eligible(v, v.runs[id], m) <==> id in g.runs && Eligible(g, g.runs[id], m)
    ensures id in v.runs ==> id in g.runs && v.runs[id] == g.runs[id]
  {
    if id in v.runs {
      var r :| r in RunRows(log, tenants) && r.id == id;
      var d :| d in log && d.row == r;
      assert id in g.runs;
      JudgedAlike(log, tenant, tenants, v, from, g, id, m);
    } else if id in g.runs {
      var q :| q in RunRows(log, tenants) && q.id == id && g.runs[id] == RunOf(tenant, q);
      var d :| d in log && d.row == q && IsRunIn(d.row, tenants);
      assert !(d.row.id < before && d.date >= oldest - COLLAPSE_WINDOW);
    }
  }

  lemma SameOwners(log: seq<DbRow>, tenant: string, tenants: set<string>, v: View, from: int, g: View,
                   before: int, oldest: int, m: Message, meter: string)
    requires Snapshot(log) && Covers(log, tenant, tenants, v, from) && Covers(log, tenant, tenants, g, 0)
    requires Reaches(log, tenants, v, before, oldest) && HasAll(log, tenants, g) && v.now == g.now
    requires m.id <= before && oldest <= m.date
    ensures OwnersAt(v, m, meter) == OwnersAt(g, m, meter)
    ensures forall id <- OwnersAt(v, m, meter) :: v.runs[id] == g.runs[id]
  {
    forall id
      ensures id in OwnersAt(v, m, meter) <==> id in OwnersAt(g, m, meter)
      ensures id in OwnersAt(v, m, meter) ==> v.runs[id] == g.runs[id]
    {
      SameOwner(log, tenant, tenants, v, from, g, before, oldest, m, id);
    }
  }

  lemma SameHides(log: seq<DbRow>, tenant: string, tenants: set<string>, v: View, from: int, g: View,
                  before: int, oldest: int, m: Message)
    requires Snapshot(log) && Covers(log, tenant, tenants, v, from) && Covers(log, tenant, tenants, g, 0)
    requires Reaches(log, tenants, v, before, oldest) && HasAll(log, tenants, g) && v.now == g.now
    requires m.id <= before && oldest <= m.date
    ensures Hides(v, m) <==> Hides(g, m)
    ensures Owners(v, m) == Owners(g, m)
  {
    forall meter
      ensures OwnersAt(v, m, meter) == OwnersAt(g, m, meter)
      ensures Covered(v, m, meter) <==> Covered(g, m, meter)
    {
      SameOwners(log, tenant, tenants, v, from, g, before, oldest, m, meter);
    }
  }

  // ----- adding what was read

  lemma {:induction false} AddedSummariesAre(summaries: map<string, int>, rows: seq<Row>)
    requires forall i, j :: 0 <= i < j < |rows| && IsSummaryRow(rows[i]) && IsSummaryRow(rows[j]) ==>
             RunIdOf(rows[i]) != RunIdOf(rows[j])
    ensures forall r <- rows :: IsSummaryRow(r) ==>
              RunIdOf(r) in AddedSummaries(summaries, rows) && AddedSummaries(summaries, rows)[RunIdOf(r)] == r.id
    ensures forall k <- AddedSummaries(summaries, rows) ::
              || (k in summaries && AddedSummaries(summaries, rows)[k] == summaries[k])
              || (exists r <- rows :: IsSummaryRow(r) && RunIdOf(r) == k && AddedSummaries(summaries, rows)[k] == r.id)
    ensures forall k <- summaries :: k in AddedSummaries(summaries, rows)
  {
    if rows != [] {
      var init, r := rows[..|rows| - 1], rows[|rows| - 1];
      AddedSummariesAre(summaries, init);
      assert rows == init + [r];
      assert r in rows && forall q <- init :: q in rows;
    }
  }

  lemma {:induction false} PickAscends(log: seq<DbRow>, keep: DbRow -> bool)
    requires forall i, j :: 0 <= i < j < |log| ==> log[i].row.id < log[j].row.id
    ensures forall i, j :: 0 <= i < j < |Pick(log, keep)| ==> Pick(log, keep)[i].id < Pick(log, keep)[j].id
  {
    if log != [] {
      var init, last := log[..|log| - 1], log[|log| - 1];
      PickAscends(init, keep);
      PickRows(init, keep);
      forall i | 0 <= i < |Pick(init, keep)|
        ensures Pick(init, keep)[i].id < last.row.id
      {
        assert Pick(init, keep)[i] in Pick(init, keep);
      }
    }
  }

  lemma PickedSummaries(log: seq<DbRow>, summaries: map<string, int>, keep: DbRow -> bool)
    requires Snapshot(log)
    ensures var all := AddedSummaries(summaries, Pick(log, keep));
            && (forall d <- log :: keep(d) && IsSummaryRow(d.row) ==> RunIdOf(d.row) in all && all[RunIdOf(d.row)] == d.row.id)
            && (forall k <- all :: (k in summaries && all[k] == summaries[k]) ||
                  exists d <- log :: keep(d) && IsSummaryRow(d.row) && RunIdOf(d.row) == k && all[k] == d.row.id)
            && (forall k <- summaries :: k in all)
  {
    var rows := Pick(log, keep);
    PickAscends(log, keep);
    PickRows(log, keep);
    forall i, j | 0 <= i < j < |rows| && IsSummaryRow(rows[i]) && IsSummaryRow(rows[j])
      ensures RunIdOf(rows[i]) != RunIdOf(rows[j])
    {
      assert rows[i] in rows && rows[j] in rows;
      var c :| c in log && c.row == rows[i];
      var d :| d in log && d.row == rows[j];
      assert rows[i].id < rows[j].id;
    }
    AddedSummariesAre(summaries, rows);
  }

  lemma PickedRuns(log: seq<DbRow>, tenant: string, tenants: set<string>, runs: map<int, CollapseRun>, keep: DbRow -> bool)
    requires Snapshot(log) && RunsFrom(tenant, RunRows(log, tenants), runs)
    requires forall d <- log :: keep(d) ==> IsRunRow(d, tenants)
    ensures var all := AddedRuns(tenant, runs, Pick(log, keep));
            && RunsFrom(tenant, RunRows(log, tenants), all)
            && (forall d <- log :: keep(d) && d.row.IsRun() ==> d.row.id in all)
            && (forall id <- runs :: id in all)
            && (forall id <- all :: id in runs || exists r <- Pick(log, keep) :: r.id == id)
  {
    var rows := Pick(log, keep);
    PickRows(log, keep);
    forall r <- rows | r.IsRun()
      ensures r in RunRows(log, tenants)
    {
      var d :| d in log && keep(d) && d.row == r;
    }
    AddedRunsKeys(tenant, RunRows(log, tenants), runs, rows);
    forall d <- log | keep(d) && d.row.IsRun()
      ensures d.row.id in AddedRuns(tenant, runs, rows)
    {
      assert d.row in rows;
      assert HasRun(rows, d.row.id);
    }
  }

  lemma EverythingCovers(log: seq<DbRow>, tenant: string, tenants: set<string>, now: int)
    requires Snapshot(log)
    ensures Covers(log, tenant, tenants, Everything(log, tenant, tenants, now), 0)
    ensures HasAll(log, tenants, Everything(log, tenant, tenants, now))
  {
    PickedRuns(log, tenant, tenants, map[], (d: DbRow) => IsRunRow(d, tenants));
    PickedSummaries(log, map[], IsSummaryIn(tenants, 0, MAX_SERIAL));
    var v := Everything(log, tenant, tenants, now);
    forall id <- v.runs
      ensures 0 <= id
    {
      var r :| r in RunRows(log, tenants) && r.id == id;
      var d :| d in log && d.row == r;
    }
  }

  /** The view of everything is the one the soundness of Hide is about. */
  lemma EverythingKnown(log: seq<DbRow>, tenant: string, tenants: set<string>, now: int)
    requires Snapshot(log)
    ensures KnowsAll(Everything(log, tenant, tenants, now), tenant, tenants, RowsOf(log))
  {
    var v, rows := Everything(log, tenant, tenants, now), RowsOf(log);
    EverythingCovers(log, tenant, tenants, now);
    OneRunRow(log, tenants);
    forall r <- rows
      ensures IsRunIn(r, tenants) ==> r.id in v.runs && v.runs[r.id] == RunOf(tenant, r)
      ensures IsClosingIn(r, tenants) ==> RunIdOf(r) in v.summaries && v.summaries[RunIdOf(r)] == r.id
    {
      var i :| 0 <= i < |rows| && rows[i] == r;
      assert log[i] in log && log[i].row == r;
      assert IsRunIn(r, tenants) ==> r in RunRows(log, tenants);
    }
    forall d <- log
      ensures d.row in rows
    {
      var i :| 0 <= i < |log| && log[i] == d;
      assert rows[i] == d.row;
    }
  }

  lemma ReadSummaries(log: seq<DbRow>, tenants: set<string>, summaries: map<string, int>, from': int, from: int)
    requires Snapshot(log) && SummariesKnown(log, tenants, summaries, from) && from' <= from
    ensures SummariesKnown(log, tenants, AddedSummaries(summaries, SummariesFrom(log, tenants, from', from)), from')
  {
    var all := AddedSummaries(summaries, SummariesFrom(log, tenants, from', from));
    PickedSummaries(log, summaries, IsSummaryIn(tenants, from', from));
    forall c <- log | IsClosingIn(c.row, tenants) && from' <= c.row.id
      ensures RunIdOf(c.row) in all && all[RunIdOf(c.row)] == c.row.id
    {
      var k := RunIdOf(c.row);
      if from <= c.row.id {
        assert k in summaries && summaries[k] == c.row.id;
        assert forall d <- log :: IsSummaryRow(d.row) && RunIdOf(d.row) == k ==> d.row.id == c.row.id;
      }
    }
  }

  lemma ReadRuns(log: seq<DbRow>, tenant: string, tenants: set<string>, runs: map<int, CollapseRun>, from: int,
                 before: int, since: int)
    requires Snapshot(log) && RunsFrom(tenant, RunRows(log, tenants), runs) && forall id <- runs :: from <= id
    ensures var rows := RunsBefore(log, tenants, before, since);
            var all := AddedRuns(tenant, runs, rows);
            && RunsFrom(tenant, RunRows(log, tenants), all)
            && (forall id <- all :: (if |rows| > 0 && rows[0].id < from then rows[0].id else from) <= id)
            && (forall d <- log :: IsRunIn(d.row, tenants) && d.row.id < before && d.date >= since ==> d.row.id in all)
  {
    PickedRuns(log, tenant, tenants, runs, IsRunBefore(tenants, before, since));
    PickAscends(log, IsRunBefore(tenants, before, since));
    PickRows(log, IsRunBefore(tenants, before, since));
  }

  // ----- the newest messages of the runs

  lemma TransferLatest(v: View, g: View, some: seq<Message>, all: seq<Message>, latest: map<int, int>)
    requires IsLatest(v, some, latest)
    requires forall m <- some :: m in all && (Hides(v, m) <==> Hides(g, m)) && Owners(v, m) == Owners(g, m)
    requires forall m <- all :: m in some || !Hides(g, m)
    ensures IsLatest(g, all, latest)
  {
    forall k
      ensures HasMessage(v, some, k) <==> HasMessage(g, all, k)
      ensures k in latest ==> IsNewestOf(g, all, k, latest[k])
    {
      assert forall m <- some :: StandsFor(v, k, m) <==> StandsFor(g, k, m);
      assert forall m <- all :: StandsFor(g, k, m) ==> m in some;
      assert k in latest ==> IsNewestOf(v, some, k, latest[k]);
      if HasMessage(v, some, k) {
        var m :| m in some && StandsFor(v, k, m);
        assert m in all && StandsFor(g, k, m);
      }
    }
  }

  function Merged(a: map<int, int>, b: map<int, int>): map<int, int> {
    map k | k in a.Keys + b.Keys :: if k !in a then b[k] else if k !in b || b[k] < a[k] then a[k] else b[k]
  }

  lemma MergedLatest(v: View, x: seq<Message>, y: seq<Message>, a: map<int, int>, b: map<int, int>)
    requires IsLatest(v, x, a) && IsLatest(v, y, b)
    ensures IsLatest(v, x + y, Merged(a, b))
  {
    forall m
      ensures m in x + y <==> m in x || m in y
    {
    }
    forall k
      ensures k in Merged(a, b) <==> HasMessage(v, x + y, k)
      ensures k in Merged(a, b) ==> IsNewestOf(v, x + y, k, Merged(a, b)[k])
    {
      assert (k in a <==> HasMessage(v, x, k)) && (k in b <==> HasMessage(v, y, k));
      assert k in a ==> IsNewestOf(v, x, k, a[k]);
      assert k in b ==> IsNewestOf(v, y, k, b[k]);
      assert k !in a ==> forall m <- x :: !StandsFor(v, k, m);
      assert k !in b ==> forall m <- y :: !StandsFor(v, k, m);
    }
  }

  method MergeLatest(a: map<int, int>, b: map<int, int>) returns (r: map<int, int>)
    ensures r == Merged(a, b)
  {
    r := a;
    var todo := b.Keys;
    while todo != {}
      invariant todo <= b.Keys && r.Keys == a.Keys + (b.Keys - todo)
      invariant forall k <- r :: if k in todo then k in a && r[k] == a[k] else r[k] == Merged(a, b)[k]
    {
      Inhabited(todo);
      var k :| k in todo;
      todo := todo - {k};
      r := r[k := if k in r && b[k] < r[k] then r[k] else b[k]];
    }
    forall k <- Merged(a, b)
      ensures k in r
    {
    }
    forall k <- r
      ensures k in Merged(a, b) && r[k] == Merged(a, b)[k]
    {
    }
  }

  // ----- one batch

  /** The messages of a batch a Collapser may leave out, and the date of the oldest. */
  method Collect(batch: seq<DbRow>) returns (messages: seq<Message>, oldest: int)
    requires Descending(batch)
    ensures Collected(batch, messages)
    ensures forall m <- messages :: m.id <= messages[0].id && oldest <= m.date
  {
    messages, oldest := [], 0;
    for i := 0 to |batch|
      invariant Collected(batch[..i], messages)
      invariant forall m <- messages :: m.id <= messages[0].id && oldest <= m.date
      invariant messages != [] ==> forall j :: i <= j < |batch| ==> IdAt(batch, j) < messages[0].id
    {
      var b := batch[i];
      assert batch[..i + 1] == batch[..i] + [b] && IdAt(batch, i) == b.row.id;
      if Collapsible(b.row.content) {
        assert messages != [] ==> messages[0] in messages;
        if messages == [] || b.date < oldest {
          oldest := b.date;
        }
        messages := messages + [MessageOf(b)];
      }
    }
    assert batch[..|batch|] == batch;
  }

  /** Reads the runs and summaries that are still missing. */
  method AddRead(log: seq<DbRow>, tenants: set<string>, collapser: Collapser, before: int, oldest: int, summariesFrom: int)
    returns (from: int)
    requires Snapshot(log) && collapser.Valid()
    requires Covers(log, collapser.tenant, tenants, collapser.Knows(), summariesFrom)
    modifies collapser
    ensures collapser.Valid() && collapser.Knows().now == old(collapser.Knows().now)
    ensures Covers(log, collapser.tenant, tenants, collapser.Knows(), from)
    ensures Reaches(log, tenants, collapser.Knows(), before, oldest)
  {
    ReadRuns(log, collapser.tenant, tenants, collapser.runs, summariesFrom, before, oldest - COLLAPSE_WINDOW);
    var runs := RunsBefore(log, tenants, before, oldest - COLLAPSE_WINDOW);
    PickRows(log, IsRunBefore(tenants, before, oldest - COLLAPSE_WINDOW));
    forall r <- runs
      ensures 0 < r.id
    {
      var d :| d in log && d.row == r;
    }
    collapser.AddRuns(runs);
    from := summariesFrom;
    if |runs| > 0 && runs[0].id < summariesFrom {
      var summaries := SummariesFrom(log, tenants, runs[0].id, summariesFrom);
      ReadSummaries(log, tenants, collapser.summaries, runs[0].id, summariesFrom);
      collapser.AddSummaries(summaries);
      from := runs[0].id;
    }
  }

  predicate LeavesOut(g: View, batch: seq<DbRow>, left: set<int>) {
    forall d <- batch :: d.row.id in left <==> Hides(g, MessageOf(d))
  }

  predicate Collected(batch: seq<DbRow>, messages: seq<Message>) {
    && (forall m <- messages :: exists d <- batch :: m == MessageOf(d) && Collapsible(d.row.content))
    && (forall d <- batch :: Collapsible(d.row.content) ==> MessageOf(d) in messages)
  }

  predicate AgreeOn(v: View, g: View, messages: seq<Message>) {
    forall m <- messages :: (Hides(v, m) <==> Hides(g, m)) && Owners(v, m) == Owners(g, m)
  }

  lemma Agree(log: seq<DbRow>, tenant: string, tenants: set<string>, v: View, from: int, g: View,
              before: int, oldest: int, messages: seq<Message>)
    requires Snapshot(log) && Covers(log, tenant, tenants, v, from) && Covers(log, tenant, tenants, g, 0)
    requires Reaches(log, tenants, v, before, oldest) && HasAll(log, tenants, g) && v.now == g.now
    requires forall m <- messages :: m.id <= before && oldest <= m.date
    ensures AgreeOn(v, g, messages)
  {
    forall m <- messages
      ensures (Hides(v, m) <==> Hides(g, m)) && Owners(v, m) == Owners(g, m)
    {
      SameHides(log, tenant, tenants, v, from, g, before, oldest, m);
    }
  }

  /** What Hide says about the collected messages holds for the whole batch. */
  lemma BatchHidden(v: View, g: View, batch: seq<DbRow>, messages: seq<Message>)
    requires Descending(batch) && Collected(batch, messages) && AgreeOn(v, g, messages)
    ensures LeavesOut(g, batch, HiddenIds(v, messages))
  {
    forall d <- batch
      ensures d.row.id in HiddenIds(v, messages) <==> Hides(g, MessageOf(d))
    {
      if d.row.id in HiddenIds(v, messages) {
        var m :| m in messages && Hides(v, m) && m.id == d.row.id;
        var e :| e in batch && m == MessageOf(e);
        var i :| 0 <= i < |batch| && batch[i] == d;
        var j :| 0 <= j < |batch| && batch[j] == e;
        assert IdAt(batch, i) == IdAt(batch, j);
      }
    }
  }

  lemma BatchLatest(v: View, g: View, batch: seq<DbRow>, messages: seq<Message>, latest: map<int, int>)
    requires Collected(batch, messages) && AgreeOn(v, g, messages) && IsLatest(v, messages, latest)
    ensures IsLatest(g, Messages(batch), latest)
  {
    forall m <- messages
      ensures m in Messages(batch)
    {
      var d :| d in batch && m == MessageOf(d);
      var i :| 0 <= i < |batch| && batch[i] == d;
      assert Messages(batch)[i] == m;
    }
    forall m <- Messages(batch)
      ensures m in messages || !Hides(g, m)
    {
      var i :| 0 <= i < |batch| && Messages(batch)[i] == m;
      assert batch[i] in batch;
    }
    TransferLatest(v, g, messages, Messages(batch), latest);
  }

  /** What is left out of a batch, with the runs and summaries read so far and those read now. */
  method LeaveOut(log: seq<DbRow>, tenants: set<string>, collapser: Collapser, batch: seq<DbRow>, summariesFrom: int)
    returns (left: set<int>, latest: map<int, int>, from: int)
    requires Snapshot(log) && collapser.Valid() && Ordered(batch)
    requires Covers(log, collapser.tenant, tenants, collapser.Knows(), summariesFrom)
    modifies collapser
    ensures collapser.Valid() && collapser.Knows().now == old(collapser.Knows().now)
    ensures Covers(log, collapser.tenant, tenants, collapser.Knows(), from)
    ensures var g := Everything(log, collapser.tenant, tenants, collapser.now);
            LeavesOut(g, batch, left) && IsLatest(g, Messages(batch), latest)
  {
    ghost var g := Everything(log, collapser.tenant, tenants, collapser.now);
    EverythingCovers(log, collapser.tenant, tenants, collapser.now);
    var messages, oldest := Collect(batch);
    left, latest, from := {}, map[], summariesFrom;
    if |messages| > 0 {
      from := AddRead(log, tenants, collapser, messages[0].id, oldest, summariesFrom);
      left, latest := collapser.Hide(messages);
      Agree(log, collapser.tenant, tenants, collapser.Knows(), from, g, messages[0].id, oldest, messages);
      BatchHidden(collapser.Knows(), g, batch, messages);
      BatchLatest(collapser.Knows(), g, batch, messages, latest);
    } else {
      NothingCollapsible(g, batch);
    }
  }

  lemma NothingCollapsible(g: View, batch: seq<DbRow>)
    requires forall d <- batch :: !Collapsible(d.row.content)
    ensures LeavesOut(g, batch, {}) && IsLatest(g, Messages(batch), map[])
  {
    forall m <- Messages(batch)
      ensures !Hides(g, m)
    {
      var i :| 0 <= i < |batch| && Messages(batch)[i] == m;
      assert batch[i] in batch;
    }
  }

  lemma {:induction false} VisibleGrows(hides: DbRow -> bool, list: seq<DbRow>, i: nat)
    requires i <= |list|
    ensures Visible(hides, list[..i]) <= Visible(hides, list)
  {
    if i == |list| {
      assert list[..i] == list;
    } else {
      var init := list[..|list| - 1];
      VisibleGrows(hides, init, i);
      assert init[..i] == list[..i];
    }
  }

  /** Appends what is not left out, up to a full page. */
  method Append(visible: seq<DbRow>, batch: seq<DbRow>, left: set<int>, ghost hides: DbRow -> bool)
    returns (page: seq<DbRow>)
    requires |visible| < PAGE_SIZE && forall d <- batch :: d.row.id in left <==> hides(d)
    ensures page == First(PAGE_SIZE, visible + Visible(hides, batch))
  {
    page := visible;
    for i := 0 to |batch|
      invariant page == visible + Visible(hides, batch[..i]) && |page| < PAGE_SIZE
    {
      VisibleSnoc(hides, batch, i);
      assert batch[i] in batch;
      if batch[i].row.id !in left {
        page := page + [batch[i]];
        if |page| == PAGE_SIZE {
          VisibleGrows(hides, batch, i + 1);
          return;
        }
      }
    }
    assert batch[..|batch|] == batch;
  }

  // ----- the list

  /** What was read up to row `p`: the visible ones, a page at most. */
  function PageOf(hides: DbRow -> bool, list: seq<DbRow>, p: nat): seq<DbRow>
    requires p <= |list|
  {
    First(PAGE_SIZE, Visible(hides, list[..p]))
  }

  /** A full page stays as it is however much more is read. */
  lemma FullPage(hides: DbRow -> bool, list: seq<DbRow>, p: nat, q: nat)
    requires p <= q <= |list| && (p == q || |PageOf(hides, list, p)| == PAGE_SIZE)
    ensures PageOf(hides, list, q) == PageOf(hides, list, p)
  {
    assert list[..q] == list[..p] + list[p..q];
    VisibleConcat(hides, list[..p], list[p..q]);
  }

  lemma NextPage(hides: DbRow -> bool, list: seq<DbRow>, p: nat, q: nat)
    requires p <= q <= |list| && |PageOf(hides, list, p)| < PAGE_SIZE
    ensures First(PAGE_SIZE, PageOf(hides, list, p) + Visible(hides, list[p..q])) == PageOf(hides, list, q)
  {
    assert list[..q] == list[..p] + list[p..q];
    VisibleConcat(hides, list[..p], list[p..q]);
  }

  predicate At(list: seq<DbRow>, p: nat, before: int) {
    p <= |list| && before == if p == 0 then MAX_ID else list[p - 1].row.id
  }

  /** Newest first, with ids of the database. */
  predicate Ordered(list: seq<DbRow>) {
    Descending(list) && forall d <- list :: 0 < d.row.id < MAX_ID
  }

  lemma ListedOrdered(log: seq<DbRow>, tenant: string, start: int)
    requires Snapshot(log)
    ensures Ordered(Listed(log, tenant, start))
  {
    ListedDescends(log, tenant, start);
    ListedRows(log, tenant, start);
  }

  /** A batch is the next piece of the whole list. */
  lemma NextBatch(list: seq<DbRow>, p: nat, before: int, size: nat)
    requires Ordered(list) && At(list, p, before)
    ensures var batch := First(size, Below(list, before));
            && batch == list[p..Min(p + size, |list|)] && |batch| == Min(p + size, |list|) - p
            && Ordered(batch)
            && (batch != [] ==> At(list, Min(p + size, |list|), batch[|batch| - 1].row.id))
  {
    forall i | p <= i < |list|
      ensures list[i].row.id < before
    {
      assert list[i] in list && (p > 0 ==> IdAt(list, p - 1) > IdAt(list, i));
    }
    forall i | 0 <= i < p
      ensures before <= list[i].row.id
    {
      assert i < p - 1 ==> IdAt(list, i) > IdAt(list, p - 1);
    }
    BelowIsRest(list, p, before);
    SliceDescends(list, p, Min(p + size, |list|));
  }

  lemma MessagesConcat(list: seq<DbRow>, p: nat, q: nat)
    requires p <= q <= |list|
    ensures Messages(list[..q]) == Messages(list[..p]) + Messages(list[p..q])
  {
  }

  /** The list is right as far as it was read. */
  ghost predicate Listing(g: View, collapse: bool, list: seq<DbRow>, read: nat, visible: seq<DbRow>, latest: map<int, int>) {
    && read <= |list| && visible == PageOf(Hiding(g, collapse), list, read)
    && (if collapse then IsLatest(g, Messages(list[..read]), latest) else latest == map[])
  }

  lemma ListingNext(g: View, list: seq<DbRow>, p: nat, q: nat, visible: seq<DbRow>, visible': seq<DbRow>,
                    latest: map<int, int>, l: map<int, int>)
    requires p <= q && q <= |list| && Listing(g, true, list, p, visible, latest) && |visible| < PAGE_SIZE
    requires visible' == First(PAGE_SIZE, visible + Visible(Hiding(g, true), list[p..q]))
    requires IsLatest(g, Messages(list[p..q]), l)
    ensures Listing(g, true, list, q, visible', Merged(latest, l))
  {
    NextPage(Hiding(g, true), list, p, q);
    MessagesConcat(list, p, q);
    MergedLatest(g, Messages(list[..p]), Messages(list[p..q]), latest, l);
  }

  /** The visible part of a batch; with collapse, the runs and summaries of its messages are read first. */
  method ListBatch(log: seq<DbRow>, tenants: set<string>, collapse: bool, collapser: Collapser, batch: seq<DbRow>,
                   visible: seq<DbRow>, latest: map<int, int>, summariesFrom: int,
                   ghost g: View, ghost list: seq<DbRow>, ghost read: nat, ghost upTo: nat)
    returns (visible': seq<DbRow>, latest': map<int, int>, from: int)
    requires Snapshot(log) && collapser.Valid() && Ordered(batch)
    requires Covers(log, collapser.tenant, tenants, collapser.Knows(), summariesFrom)
    requires read <= upTo <= |list| && batch == list[read..upTo] && |visible| < PAGE_SIZE
    requires g == Everything(log, collapser.tenant, tenants, collapser.now) && Listing(g, collapse, list, read, visible, latest)
    modifies collapser
    ensures collapser.Valid() && Covers(log, collapser.tenant, tenants, collapser.Knows(), from)
    ensures Listing(g, collapse, list, upTo, visible', latest')
  {
    if !collapse {
      visible' := Append(visible, batch, {}, Hiding(g, false));
      NextPage(Hiding(g, false), list, read, upTo);
      return visible', latest, summariesFrom;
    }
    var left, l;
    left, l, from := LeaveOut(log, tenants, collapser, batch, summariesFrom);
    visible' := Append(visible, batch, left, Hiding(g, true));
    latest' := MergeLatest(latest, l);
    ListingNext(g, list, read, upTo, visible, visible', latest, l);
  }

  /** The newest `size` notifications below `before`. */
  method Query(log: seq<DbRow>, tenant: string, start: int, before: int, size: nat, ghost list: seq<DbRow>, ghost read: nat)
    returns (batch: seq<DbRow>, ghost upTo: nat)
    requires Ordered(list) && list == Listed(log, tenant, start) && At(list, read, before)
    ensures upTo == Min(read + size, |list|) && upTo - read == |batch| && batch == list[read..upTo] && Ordered(batch)
    ensures batch != [] ==> At(list, upTo, batch[|batch| - 1].row.id)
  {
    NextBatch(list, read, before, size);
    upTo := Min(read + size, |list|);
    batch := Batch(log, tenant, start, before, size);
  }

  /** After `i` batches the list was read as far as they go; the next has `size`, and without `more` there is no next. */
  predicate HasRead(total: nat, read: nat, first: nat, next: nat, i: nat, size: nat, more: bool) {
    && size == (if i == 0 then first else next)
    && read == Min(total, RowsRead(first, next, i)) && (more || read == total)
  }

  lemma ReadStep(total: nat, read: nat, upTo: nat, first: nat, next: nat, i: nat, size: nat, more: bool)
    requires HasRead(total, read, first, next, i, size, true)
    requires upTo == Min(read + size, total) && (more <==> read + size <= total)
    ensures HasRead(total, upTo, first, next, i + 1, next, more)
  {
  }

  lemma ReadDone(total: nat, read: nat, first: nat, next: nat, i: nat, size: nat, more: bool, maxBatches: nat, full: bool)
    requires HasRead(total, read, first, next, i, size, more) && i <= maxBatches && (more && !full ==> i == maxBatches)
    ensures read <= Min(total, RowsRead(first, next, maxBatches))
    ensures full || read == Min(total, RowsRead(first, next, maxBatches))
  {
    RowsReadGrows(first, next, i, maxBatches);
  }

  /** One turn of the loop: query a batch, list it, and tell whether there may be more. */
  method ReadBatch(log: seq<DbRow>, tenants: set<string>, start: int, collapse: bool, collapser: Collapser,
                   visible: seq<DbRow>, latest: map<int, int>, summariesFrom: int, before: int, size: nat,
                   ghost g: View, ghost list: seq<DbRow>, ghost read: nat)
    returns (visible': seq<DbRow>, latest': map<int, int>, from: int, before': int, more: bool, ghost upTo: nat)
    requires Snapshot(log) && list == Listed(log, collapser.tenant, start) && Ordered(list) && |visible| < PAGE_SIZE
    requires collapser.Valid() && Covers(log, collapser.tenant, tenants, collapser.Knows(), summariesFrom)
    requires g == Everything(log, collapser.tenant, tenants, collapser.now)
    requires At(list, read, before) && Listing(g, collapse, list, read, visible, latest)
    modifies collapser
    ensures collapser.Valid() && Covers(log, collapser.tenant, tenants, collapser.Knows(), from)
    ensures At(list, upTo, before') && Listing(g, collapse, list, upTo, visible', latest')
    ensures upTo == Min(read + size, |list|) && (more <==> read + size <= |list|)
  {
    var batch;
    batch, upTo := Query(log, collapser.tenant, start, before, size, list, read);
    more := |batch| == size;
    if |batch| == 0 {
      return visible, latest, summariesFrom, before, more, upTo;
    }
    before' := batch[|batch| - 1].row.id;
    visible', latest', from := ListBatch(log, tenants, collapse, collapser, batch, visible, latest, summariesFrom, g, list,
      read, upTo);
  }

  /** Where the loop is: what the Collapser knows, and the list as far as it was read. */
  ghost predicate IsReading(log: seq<DbRow>, tenants: set<string>, start: int, collapse: bool, collapser: Collapser, g: View,
                            list: seq<DbRow>, read: nat, before: int, visible: seq<DbRow>, latest: map<int, int>, from: int)
    reads collapser
  {
    && list == Listed(log, collapser.tenant, start) && g == Everything(log, collapser.tenant, tenants, collapser.now)
    && collapser.Valid() && Covers(log, collapser.tenant, tenants, collapser.Knows(), from)
    && At(list, read, before) && Listing(g, collapse, list, read, visible, latest)
  }

  /** One batch more. */
  method ReadNext(log: seq<DbRow>, tenants: set<string>, start: int, collapse: bool, collapser: Collapser,
                  visible: seq<DbRow>, latest: map<int, int>, summariesFrom: int, before: int, size: nat, ghost first: nat,
                  ghost next: nat, ghost i: nat, ghost g: View, ghost list: seq<DbRow>, ghost read: nat)
    returns (visible': seq<DbRow>, latest': map<int, int>, from: int, before': int, more: bool, ghost upTo: nat)
    requires Snapshot(log) && Ordered(list) && |visible| < PAGE_SIZE && HasRead(|list|, read, first, next, i, size, true)
    requires IsReading(log, tenants, start, collapse, collapser, g, list, read, before, visible, latest, summariesFrom)
    modifies collapser
    ensures HasRead(|list|, upTo, first, next, i + 1, next, more)
    ensures IsReading(log, tenants, start, collapse, collapser, g, list, upTo, before', visible', latest', from)
  {
    visible', latest', from, before', more, upTo :=
      ReadBatch(log, tenants, start, collapse, collapser, visible, latest, summariesFrom, before, size, g, list, read);
    ReadStep(|list|, read, upTo, first, next, i, size, more);
  }

  /** The loop over the batches. */
  method ReadBatches(log: seq<DbRow>, tenants: set<string>, start: int, collapse: bool, collapser: Collapser,
                     first: nat, next: nat, maxBatches: nat, ghost g: View, ghost list: seq<DbRow>)
    returns (visible: seq<DbRow>, latest: map<int, int>, ghost read: nat)
    requires Snapshot(log) && Ordered(list)
    requires IsReading(log, tenants, start, collapse, collapser, g, list, 0, MAX_ID, [], map[], MAX_SERIAL)
    modifies collapser
    ensures Listing(g, collapse, list, read, visible, latest) && read <= Min(|list|, RowsRead(first, next, maxBatches))
    ensures |visible| == PAGE_SIZE || read == Min(|list|, RowsRead(first, next, maxBatches))
  {
    var summariesFrom, before, size, i, more := MAX_SERIAL, MAX_ID, first, 0, true;
    visible, latest, read := [], map[], 0;
    while more && |visible| < PAGE_SIZE && i < maxBatches
      invariant i <= maxBatches && |visible| <= PAGE_SIZE && HasRead(|list|, read, first, next, i, size, more)
      invariant IsReading(log, tenants, start, collapse, collapser, g, list, read, before, visible, latest, summariesFrom)
      decreases maxBatches - i
    {
      visible, latest, summariesFrom, before, more, read :=
        ReadNext(log, tenants, start, collapse, collapser, visible, latest, summariesFrom, before, size, first, next, i, g,
          list, read);
      size, i := next, i + 1;
    }
    ReadDone(|list|, read, first, next, i, size, more, maxBatches, |visible| == PAGE_SIZE);
  }

  /** collapsedNotifications: the batches in turn, until a page is full, nothing is left or the limit is reached.

      `read` is how much of the whole list was looked at. */
  method CollapsedNotifications(log: seq<DbRow>, tenant: string, tenants: set<string>, start: int, collapse: bool, now: int,
                                first: nat, next: nat, maxBatches: nat)
    returns (visible: seq<DbRow>, latest: map<int, int>, ghost read: nat)
    requires Snapshot(log) && 0 < first && 0 < next
    ensures var list := Listed(log, tenant, start);
            visible == PageOf(Hiding(Everything(log, tenant, tenants, now), collapse), list,
                              Min(|list|, RowsRead(first, next, maxBatches)))
    ensures Listing(Everything(log, tenant, tenants, now), collapse, Listed(log, tenant, start), read, visible, latest)
  {
    var collapser := new Collapser(tenant, now);
    ghost var list, g := Listed(log, tenant, start), Everything(log, tenant, tenants, now);
    ListedOrdered(log, tenant, start);
    NothingRead(log, tenants, collapser.Knows(), g, collapse, list);
    visible, latest, read := ReadBatches(log, tenants, start, collapse, collapser, first, next, maxBatches, g, list);
    FullPage(Hiding(g, collapse), list, read, Min(|list|, RowsRead(first, next, maxBatches)));
  }

  lemma NothingRead(log: seq<DbRow>, tenants: set<string>, v: View, g: View, collapse: bool, list: seq<DbRow>)
    requires v == View(v.now, map[], map[]) && forall d <- log :: d.row.id < MAX_SERIAL
    ensures forall tenant :: Covers(log, tenant, tenants, v, MAX_SERIAL)
    ensures Listing(g, collapse, list, 0, [], map[])
  {
    assert Messages(list[..0]) == [];
  }

  /** On a snapshot, unless the limit is hit: the first page of all notifications, newest first, without those that a
      Collapser with every run and every summary leaves out. */
  lemma PageIsComplete(hides: DbRow -> bool, list: seq<DbRow>, first: nat, next: nat, maxBatches: nat)
    requires |list| <= RowsRead(first, next, maxBatches)
          || |PageOf(hides, list, Min(|list|, RowsRead(first, next, maxBatches)))| == PAGE_SIZE
    ensures PageOf(hides, list, Min(|list|, RowsRead(first, next, maxBatches))) == First(PAGE_SIZE, Visible(hides, list))
  {
    var read := Min(|list|, RowsRead(first, next, maxBatches));
    FullPage(hides, list, read, |list|);
    assert list[..|list|] == list;
  }

  // ----- the page, said of the table

  /** A notification of the tenant after `start`; the rows of its energy data requests are none. */
  predicate IsNotified(log: seq<DbRow>, tenant: string, start: int, d: DbRow) {
    d in log && d.row.tenant == tenant && start < d.row.id && d.row.process != EnergyRequest
  }

  /** It is to be shown: without collapse every notification, with it those that are not left out. */
  predicate IsToShow(log: seq<DbRow>, tenant: string, tenants: set<string>, start: int, collapse: bool, now: int, d: DbRow) {
    && IsNotified(log, tenant, start, d)
    && (collapse ==> !IsLeftOut(RowsOf(log), tenant, tenants, now, Message(d.row.id, d.date, d.row.content)))
  }

  lemma {:induction false} ListedMembers(log: seq<DbRow>, tenant: string, start: int, d: DbRow)
    ensures d in Listed(log, tenant, start) <==> IsNotified(log, tenant, start, d)
  {
    if log != [] {
      ListedMembers(log[..|log| - 1], tenant, start, d);
      assert log == log[..|log| - 1] + [log[|log| - 1]];
    }
  }

  lemma HidingRows(log: seq<DbRow>, tenant: string, tenants: set<string>, start: int, collapse: bool, now: int, d: DbRow)
    requires Snapshot(log)
    ensures d in Listed(log, tenant, start) && !Hiding(Everything(log, tenant, tenants, now), collapse)(d) <==>
            IsToShow(log, tenant, tenants, start, collapse, now, d)
  {
    EverythingKnown(log, tenant, tenants, now);
    HidesRows(Everything(log, tenant, tenants, now), tenant, tenants, RowsOf(log), MessageOf(d));
    ListedMembers(log, tenant, start, d);
  }

  lemma {:induction false} VisibleMembers(hides: DbRow -> bool, list: seq<DbRow>, d: DbRow)
    ensures d in Visible(hides, list) <==> d in list && !hides(d)
  {
    if list != [] {
      VisibleMembers(hides, list[..|list| - 1], d);
      assert list == list[..|list| - 1] + [list[|list| - 1]];
    }
  }

  lemma SnocDescends(list: seq<DbRow>, d: DbRow)
    requires Descending(list) && forall e <- list :: d.row.id < e.row.id
    ensures Descending(list + [d])
  {
    var all := list + [d];
    forall i, j | 0 <= i < j < |all|
      ensures IdAt(all, i) > IdAt(all, j)
    {
      assert all[i] == list[i] && list[i] in list;
      if j < |list| {
        assert IdAt(list, i) > IdAt(list, j);
      }
    }
  }

  lemma {:induction false} VisibleDescends(hides: DbRow -> bool, list: seq<DbRow>)
    requires Descending(list)
    ensures Descending(Visible(hides, list))
  {
    if list != [] {
      var init, last := list[..|list| - 1], list[|list| - 1];
      SliceDescends(list, 0, |list| - 1);
      assert list[0..|list| - 1] == init;
      VisibleDescends(hides, init);
      forall d | d in Visible(hides, init)
        ensures last.row.id < d.row.id
      {
        VisibleMembers(hides, init, d);
        var j :| 0 <= j < |init| && init[j] == d;
        assert IdAt(list, j) > IdAt(list, |list| - 1);
      }
      SnocDescends(Visible(hides, init), last);
      assert Visible(hides, init) + [] == Visible(hides, init);
    }
  }

  lemma {:induction false} RowsReadIs(first: nat, next: nat, n: nat)
    ensures RowsRead(first, next, n) == if n == 0 then 0 else first + (n - 1) * next
  {
    if n > 1 {
      RowsReadIs(first, next, n - 1);
    }
  }

  /** What the page shows: at most 30 notifications to be shown, newest first. */
  lemma PageShows(log: seq<DbRow>, tenant: string, tenants: set<string>, start: int, collapse: bool, now: int, read: nat)
    requires Snapshot(log) && read <= |Listed(log, tenant, start)|
    ensures var page := PageOf(Hiding(Everything(log, tenant, tenants, now), collapse), Listed(log, tenant, start), read);
            |page| <= 30 && Descending(page) && forall d <- page :: IsToShow(log, tenant, tenants, start, collapse, now, d)
  {
    var list, hides := Listed(log, tenant, start), Hiding(Everything(log, tenant, tenants, now), collapse);
    ListedOrdered(log, tenant, start);
    SliceDescends(list, 0, read);
    assert list[0..read] == list[..read];
    var visible := Visible(hides, list[..read]);
    VisibleDescends(hides, list[..read]);
    if |visible| > PAGE_SIZE {
      SliceDescends(visible, 0, PAGE_SIZE);
      assert visible[0..PAGE_SIZE] == visible[..PAGE_SIZE];
    }
    forall d | d in First(PAGE_SIZE, visible)
      ensures IsToShow(log, tenant, tenants, start, collapse, now, d)
    {
      assert d in visible;
      VisibleMembers(hides, list[..read], d);
      HidingRows(log, tenant, tenants, start, collapse, now, d);
    }
  }

  /** What the page does not show: of the notifications to be shown only such that are older than a full page, or than as many
      notifications as the batches hold. */
  lemma MissingIsOld(log: seq<DbRow>, tenant: string, tenants: set<string>, start: int, collapse: bool, now: int,
                     read: nat, d: DbRow)
    returns (newer: seq<DbRow>)
    requires Snapshot(log) && read <= |Listed(log, tenant, start)| && IsToShow(log, tenant, tenants, start, collapse, now, d)
    ensures Descending(newer) && forall x <- newer :: IsNotified(log, tenant, start, x)
    ensures var page := PageOf(Hiding(Everything(log, tenant, tenants, now), collapse), Listed(log, tenant, start), read);
            || d in page || (|page| == 30 && forall x <- page :: d.row.id < x.row.id)
            || (|newer| == read < |Listed(log, tenant, start)| && forall x <- newer :: d.row.id < x.row.id)
  {
    var list, hides := Listed(log, tenant, start), Hiding(Everything(log, tenant, tenants, now), collapse);
    HidingRows(log, tenant, tenants, start, collapse, now, d);
    ListedOrdered(log, tenant, start);
    SliceDescends(list, 0, read);
    newer := list[..read];
    assert list[0..read] == newer;
    forall x | x in newer
      ensures IsNotified(log, tenant, start, x)
    {
      ListedMembers(log, tenant, start, x);
    }
    var q :| 0 <= q < |list| && list[q] == d;
    if q < read {
      assert newer[q] == d;
      VisibleMembers(hides, newer, d);
      VisibleDescends(hides, newer);
      PageIsNewest(Visible(hides, newer), d);
    } else {
      forall i | 0 <= i < read
        ensures d.row.id < newer[i].row.id
      {
        assert IdAt(list, i) > IdAt(list, q);
      }
    }
  }

  /** What the first page leaves out is older than all it holds. */
  lemma PageIsNewest(visible: seq<DbRow>, d: DbRow)
    requires Descending(visible) && d in visible
    ensures d in First(PAGE_SIZE, visible) ||
            (|First(PAGE_SIZE, visible)| == 30 && forall x <- First(PAGE_SIZE, visible) :: d.row.id < x.row.id)
  {
    var k :| 0 <= k < |visible| && visible[k] == d;
    var page := First(PAGE_SIZE, visible);
    if k < PAGE_SIZE {
      assert page[k] == d;
    } else {
      forall i | 0 <= i < |page|
        ensures d.row.id < page[i].row.id
      {
        assert IdAt(visible, i) > IdAt(visible, k);
      }
    }
  }

  /** The page, with the batches given: everything to be shown that it lacks is older than a full page, or than
      `first` + (`maxBatches` - 1) * `next` notifications. */
  lemma PageMissesOldOnly(log: seq<DbRow>, tenant: string, tenants: set<string>, start: int, collapse: bool, now: int, first: nat,
                          next: nat, maxBatches: nat, d: DbRow)
    returns (newer: seq<DbRow>)
    requires Snapshot(log) && IsToShow(log, tenant, tenants, start, collapse, now, d)
    ensures Descending(newer) && forall x <- newer :: IsNotified(log, tenant, start, x)
    ensures var list := Listed(log, tenant, start);
            var page := PageOf(Hiding(Everything(log, tenant, tenants, now), collapse), list,
              Min(|list|, RowsRead(first, next, maxBatches)));
            || d in page || (|page| == 30 && forall x <- page :: d.row.id < x.row.id)
            || (|newer| == (if maxBatches == 0 then 0 else first + (maxBatches - 1) * next)
               && forall x <- newer :: d.row.id < x.row.id)
  {
    var list := Listed(log, tenant, start);
    newer := MissingIsOld(log, tenant, tenants, start, collapse, now, Min(|list|, RowsRead(first, next, maxBatches)), d);
    RowsReadIs(first, next, maxBatches);
  }
}
