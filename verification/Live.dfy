/** The live entries of the open runs (energyrequest/live.go), and the shortcut that spares reading rows for them. */
module LiveEntries {
  import opened Wrappers
  import opened EnergyTypes
  import opened AttributionSpec
  import opened AttributionOnline
  import opened AttributionCuts
  import opened AttributionWindows
  import opened Attribution
  import opened Belongings
  import opened Evaluation
  import opened Locks
  import opened EnergyRows

  datatype LiveEntry = LiveEntry(rowId: int, createdAt: int, summary: Summary)

  /** A run is open while it gets a summary, has none yet and is younger than the deadline. */
  predicate IsOpenRun(r: Row, tenant: string, closed: map<string, int>, now: int) {
    && r.IsRun() && EqualFold(r.tenant, tenant)
    && !r.content.run.noSummary && r.content.run.runId !in closed && now - r.content.run.createdAt < DEADLINE
  }

  function OpenRuns(rows: seq<Row>, tenant: string, closed: map<string, int>, now: int): seq<Row> {
    Filter(rows, (r: Row) => IsOpenRun(r, tenant, closed, now))
  }

  predicate IsEntryOf(e: LiveEntry, r: Row, cal: Calendar, tenants: set<string>, rows: seq<Row>) {
    r.IsRun() &&
    var run := r.content.run;
    && e.rowId == r.id && e.createdAt == run.createdAt && e.summary.live
    && IsSummaryOf(e.summary.(live := false), run, run.meters, FindingsOf(cal, run.ecId, tenants, rows, r.id))
  }

  function Ids(answers: seq<IdAnswer>): set<int> {
    set a <- answers :: a.id
  }

  /** The answers that belong to the first entries of a run. */
  function EntryIds(f: Findings, entries: seq<MeterRange>): set<int> {
    if entries == [] then {}
    else EntryIds(f, entries[..|entries| - 1]) + Ids(f(entries[|entries| - 1].meter).0)
  }

  function UnionOf(ids: Row -> set<int>, runs: seq<Row>): set<int> {
    if runs == [] then {} else UnionOf(ids, runs[..|runs| - 1]) + ids(runs[|runs| - 1])
  }

  function AnswerIds(cal: Calendar, tenants: set<string>, rows: seq<Row>, runs: seq<Row>): set<int> {
    UnionOf((r: Row) => RunAnswerIds(cal, tenants, rows, r), runs)
  }

  /** The answers that belong to a run. */
  function RunAnswerIds(cal: Calendar, tenants: set<string>, rows: seq<Row>, r: Row): set<int> {
    if r.IsRun() then EntryIds(FindingsOf(cal, r.content.run.ecId, tenants, rows, r.id), r.content.run.meters) else {}
  }

  /** The ids of the answers that belong to the run. */
  method HideAnswers(run: RunData, rowId: int, a: map<RequestKey, RequestNode>, ghost f: Findings) returns (hidden: set<int>)
    requires forall m :: BelongingOf(a, rowId, m) == f(m)
    ensures hidden == EntryIds(f, run.meters)
  {
    hidden := {};
    for j := 0 to |run.meters|
      invariant hidden == EntryIds(f, run.meters[..j])
    {
      assert run.meters[..j + 1][..j] == run.meters[..j];
      var (answers, _) := BelongingOf(a, rowId, run.meters[j].meter);
      assert (answers, BelongingOf(a, rowId, run.meters[j].meter).1) == f(run.meters[j].meter);
      var ids := {};
      for k := 0 to |answers|
        invariant ids == Ids(answers[..k])
      {
        assert answers[..k + 1] == answers[..k] + [answers[k]];
        ids := ids + {answers[k].id};
      }
      assert answers[..|answers|] == answers;
      hidden := hidden + ids;
    }
    assert run.meters[..|run.meters|] == run.meters;
  }

  method LiveRow(cal: Calendar, rows: seq<Row>, tenants: set<string>, r: Row, now: int, attributions: Attributions)
    returns (e: LiveEntry, hidden: set<int>, attributions': Attributions)
    requires ValidRows(rows) && r.IsRun() && Kept(attributions, cal, tenants, rows)
    ensures Kept(attributions', cal, tenants, rows) && IsEntryOf(e, r, cal, tenants, rows)
    ensures hidden == RunAnswerIds(cal, tenants, rows, r)
  {
    var run := r.content.run;
    var a;
    a, attributions' := AttributionOf(attributions, cal, run.ecId, rows, tenants);
    ghost var f := FindingsOf(cal, run.ecId, tenants, rows, r.id);
    assert forall m :: BelongingOf(a, r.id, m) == f(m);
    var s, _ := Evaluate(run, r.id, a, now, f);
    assert s.(live := true).(live := false) == s;
    e := LiveEntry(r.id, run.createdAt, s.(live := true));
    hidden := HideAnswers(run, r.id, a, f);
  }

  predicate AreEntriesOf(entries: seq<LiveEntry>, runs: seq<Row>, cal: Calendar, tenants: set<string>, rows: seq<Row>) {
    |entries| == |runs| && forall i :: 0 <= i < |runs| ==> IsEntryOf(entries[i], runs[i], cal, tenants, rows)
  }

  lemma EntriesSnoc(entries: seq<LiveEntry>, runs: seq<Row>, cal: Calendar, tenants: set<string>, rows: seq<Row>,
                    e: LiveEntry, r: Row)
    requires AreEntriesOf(entries, runs, cal, tenants, rows) && IsEntryOf(e, r, cal, tenants, rows)
    ensures AreEntriesOf(entries + [e], runs + [r], cal, tenants, rows)
    ensures AnswerIds(cal, tenants, rows, runs + [r]) == AnswerIds(cal, tenants, rows, runs) + RunAnswerIds(cal, tenants, rows, r)
  {
    assert (runs + [r])[..|runs|] == runs;
  }

  /** One entry for each open run of the tenant, in row order, and the answers that belong to these runs. */
  method Live(cal: Calendar, rows: seq<Row>, tenant: string, tenants: set<string>, now: int)
    returns (entries: seq<LiveEntry>, hidden: set<int>)
    requires ValidRows(rows)
    ensures AreEntriesOf(entries, OpenRuns(rows, tenant, Summaries(rows), now), cal, tenants, rows)
    ensures hidden == AnswerIds(cal, tenants, rows, OpenRuns(rows, tenant, Summaries(rows), now))
    ensures (forall r <- rows :: r.tenant in tenants) ==> ShowsRows(entries, cal, tenants, rows, tenant, now)
    ensures forall id :: id in hidden <==> IsHidden(cal, tenants, rows, tenant, now, id)
  {
    var closed := SummariesIn(rows);
    entries, hidden := [], {};
    var attributions: Attributions := map[];
    for i := 0 to |rows|
      invariant Kept(attributions, cal, tenants, rows)
      invariant AreEntriesOf(entries, OpenRuns(rows[..i], tenant, closed, now), cal, tenants, rows)
      invariant hidden == AnswerIds(cal, tenants, rows, OpenRuns(rows[..i], tenant, closed, now))
    {
      OpenRunsStep(rows, i, tenant, closed, now);
      if IsOpenRun(rows[i], tenant, closed, now) {
        var e, ids;
        e, ids, attributions := LiveRow(cal, rows, tenants, rows[i], now, attributions);
        EntriesSnoc(entries, OpenRuns(rows[..i], tenant, closed, now), cal, tenants, rows, e, rows[i]);
        entries := entries + [e];
        hidden := hidden + ids;
      }
    }
    assert rows[..|rows|] == rows;
    LiveShows(entries, hidden, cal, tenants, rows, tenant, now);
  }

  lemma LiveShows(entries: seq<LiveEntry>, hidden: set<int>, cal: Calendar, tenants: set<string>, rows: seq<Row>,
                  tenant: string, now: int)
    requires ValidRows(rows)
    requires AreEntriesOf(entries, OpenRuns(rows, tenant, Summaries(rows), now), cal, tenants, rows)
    requires hidden == AnswerIds(cal, tenants, rows, OpenRuns(rows, tenant, Summaries(rows), now))
    ensures (forall r <- rows :: r.tenant in tenants) ==> ShowsRows(entries, cal, tenants, rows, tenant, now)
    ensures forall id :: id in hidden <==> IsHidden(cal, tenants, rows, tenant, now, id)
  {
    if forall r <- rows :: r.tenant in tenants {
      LiveShowsRows(entries, cal, tenants, rows, tenant, now);
    }
    forall id
      ensures id in hidden <==> IsHidden(cal, tenants, rows, tenant, now, id)
    {
      HiddenBelong(cal, tenants, rows, tenant, now, id);
    }
  }

  lemma OpenRunsStep(rows: seq<Row>, i: nat, tenant: string, closed: map<string, int>, now: int)
    requires i < |rows|
    ensures OpenRuns(rows[..i + 1], tenant, closed, now) ==
            if IsOpenRun(rows[i], tenant, closed, now) then OpenRuns(rows[..i], tenant, closed, now) + [rows[i]]
            else OpenRuns(rows[..i], tenant, closed, now)
  {
    assert rows[..i + 1] == rows[..i] + [rows[i]];
    FilterSnoc(rows[..i], rows[i], (r: Row) => IsOpenRun(r, tenant, closed, now));
  }

  // ----- the live entries, said of the rows

  /** A run row of the tenant that gets a summary, has none in the rows and is younger than 24 hours. */
  predicate IsShown(rows: seq<Row>, r: Row, tenant: string, now: int) {
    && r.rowType == RunRow && r.content.Run? && EqualFold(r.tenant, tenant) && !r.content.run.noSummary
    && (forall c <- rows :: !IsClosingOf(c, r.content.run.runId)) && now - r.content.run.createdAt < 24 * 3_600_000
  }

  /** The live entry of the run in row `i`. */
  ghost predicate ShowsRun(e: LiveEntry, cal: Calendar, tenants: set<string>, rows: seq<Row>, i: nat)
    requires i < |rows| && rows[i].content.Run?
  {
    && e.rowId == rows[i].id && e.createdAt == rows[i].content.run.createdAt && e.summary.live
    && TellsRows(e.summary.(live := false), cal, tenants, rows, i)
  }

  /** One entry for each such run, in the order of the rows. */
  ghost predicate ShowsRows(entries: seq<LiveEntry>, cal: Calendar, tenants: set<string>, rows: seq<Row>, tenant: string,
                            now: int) {
    && (forall e <- entries :: exists i ::
          0 <= i < |rows| && IsShown(rows, rows[i], tenant, now) && ShowsRun(e, cal, tenants, rows, i))
    && (forall r <- rows :: IsShown(rows, r, tenant, now) ==> exists e <- entries :: e.rowId == r.id)
    && (forall i, j :: 0 <= i < j < |entries| ==> entries[i].rowId < entries[j].rowId)
  }

  lemma OpenIsShown(rows: seq<Row>, r: Row, tenant: string, now: int)
    ensures IsOpenRun(r, tenant, Summaries(rows), now) <==> IsShown(rows, r, tenant, now)
  {
    if r.content.Run? {
      ClosedIffClosing(rows, r.content.run.runId);
    }
  }

  lemma EntryShowsRun(e: LiveEntry, r: Row, cal: Calendar, tenants: set<string>, rows: seq<Row>, tenant: string, now: int)
    requires ValidRows(rows) && r in rows && r.tenant in tenants
    requires IsOpenRun(r, tenant, Summaries(rows), now) && IsEntryOf(e, r, cal, tenants, rows)
    ensures exists i :: 0 <= i < |rows| && IsShown(rows, rows[i], tenant, now) && ShowsRun(e, cal, tenants, rows, i)
  {
    OpenIsShown(rows, r, tenant, now);
    var i :| 0 <= i < |rows| && rows[i] == r;
    SummaryTellsRows(e.summary.(live := false), cal, tenants, rows, i);
    assert ShowsRun(e, cal, tenants, rows, i);
  }

  lemma ShownHasEntry(entries: seq<LiveEntry>, open: seq<Row>, cal: Calendar, tenants: set<string>, rows: seq<Row>, r: Row)
    requires AreEntriesOf(entries, open, cal, tenants, rows) && r in open
    ensures exists e <- entries :: e.rowId == r.id
  {
    var k :| 0 <= k < |open| && open[k] == r;
    assert IsEntryOf(entries[k], open[k], cal, tenants, rows) && entries[k] in entries;
  }

  lemma LiveShowsRows(entries: seq<LiveEntry>, cal: Calendar, tenants: set<string>, rows: seq<Row>, tenant: string, now: int)
    requires ValidRows(rows) && forall r <- rows :: r.tenant in tenants
    requires AreEntriesOf(entries, OpenRuns(rows, tenant, Summaries(rows), now), cal, tenants, rows)
    ensures ShowsRows(entries, cal, tenants, rows, tenant, now)
  {
    var open := OpenRuns(rows, tenant, Summaries(rows), now);
    FilterValid(rows, (r: Row) => IsOpenRun(r, tenant, Summaries(rows), now));
    forall k | 0 <= k < |entries|
      ensures exists i :: 0 <= i < |rows| && IsShown(rows, rows[i], tenant, now) && ShowsRun(entries[k], cal, tenants, rows, i)
    {
      assert open[k] in open;
      EntryShowsRun(entries[k], open[k], cal, tenants, rows, tenant, now);
    }
    forall r | r in rows && IsShown(rows, r, tenant, now)
      ensures exists e <- entries :: e.rowId == r.id
    {
      OpenIsShown(rows, r, tenant, now);
      ShownHasEntry(entries, open, cal, tenants, rows, r);
    }
  }

  /** Answer row `x` belongs to a run that is shown, for one of its metering points. */
  ghost predicate BelongsToShown(cal: Calendar, tenants: set<string>, rows: seq<Row>, tenant: string, now: int, x: Row) {
    exists r <- rows :: IsShown(rows, r, tenant, now) && BelongsToRun(cal, tenants, rows, r, x)
  }

  ghost predicate IsHidden(cal: Calendar, tenants: set<string>, rows: seq<Row>, tenant: string, now: int, id: int) {
    exists x <- rows :: x.id == id && BelongsToShown(cal, tenants, rows, tenant, now, x)
  }

  ghost predicate BelongsToRun(cal: Calendar, tenants: set<string>, rows: seq<Row>, r: Row, x: Row)
    requires r.content.Run?
  {
    exists e <- r.content.run.meters :: BelongsTo(Scope(cal, r.content.run.ecId, tenants, e.meter), rows, x, r.id)
  }

  lemma {:induction false} EntryIdsMembers(f: Findings, entries: seq<MeterRange>, id: int)
    ensures id in EntryIds(f, entries) <==> exists e <- entries :: id in Ids(f(e.meter).0)
  {
    if entries != [] {
      EntryIdsMembers(f, entries[..|entries| - 1], id);
      assert entries == entries[..|entries| - 1] + [entries[|entries| - 1]];
    }
  }

  lemma {:induction false} UnionMembers(ids: Row -> set<int>, runs: seq<Row>, id: int)
    ensures id in UnionOf(ids, runs) <==> exists r <- runs :: id in ids(r)
  {
    if runs != [] {
      UnionMembers(ids, runs[..|runs| - 1], id);
      assert runs == runs[..|runs| - 1] + [runs[|runs| - 1]];
    }
  }

  lemma RunIdsBelong(cal: Calendar, tenants: set<string>, rows: seq<Row>, r: Row, id: int)
    requires ValidRows(rows) && r.IsRun()
    ensures id in RunAnswerIds(cal, tenants, rows, r) <==> exists x <- rows :: x.id == id && BelongsToRun(cal, tenants, rows, r, x)
  {
    var run, f := r.content.run, FindingsOf(cal, r.content.run.ecId, tenants, rows, r.id);
    EntryIdsMembers(f, run.meters, id);
    forall e | e in run.meters
      ensures id in Ids(f(e.meter).0) <==>
              exists x <- rows :: x.id == id && BelongsTo(Scope(cal, run.ecId, tenants, e.meter), rows, x, r.id)
    {
      BelongingRows(Scope(cal, run.ecId, tenants, e.meter), rows, r.id);
    }
  }

  /** Hidden are exactly the answers that belong to a run that is shown. */
  lemma HiddenBelong(cal: Calendar, tenants: set<string>, rows: seq<Row>, tenant: string, now: int, id: int)
    requires ValidRows(rows)
    ensures id in AnswerIds(cal, tenants, rows, OpenRuns(rows, tenant, Summaries(rows), now)) <==>
            IsHidden(cal, tenants, rows, tenant, now, id)
  {
    var open := OpenRuns(rows, tenant, Summaries(rows), now);
    UnionMembers((r: Row) => RunAnswerIds(cal, tenants, rows, r), open, id);
    forall r | r in rows
      ensures r in open <==> IsShown(rows, r, tenant, now)
      ensures r.IsRun() ==> (id in RunAnswerIds(cal, tenants, rows, r) <==>
              exists x <- rows :: x.id == id && BelongsToRun(cal, tenants, rows, r, x))
    {
      OpenIsShown(rows, r, tenant, now);
      if r.IsRun() {
        RunIdsBelong(cal, tenants, rows, r, id);
      }
    }
  }

  // ----- without a recent run there is nothing to show

  /** hasEnergyRequestRun: whether the tenant, spelled exactly so, has a run row of the last Deadline. */
  predicate HasRecentRun(log: seq<DbRow>, tenant: string, now: int) {
    exists d <- log :: d.row.id > Bound(log, now - DEADLINE) && d.row.process == EnergyRequest &&
                       d.row.rowType == RunRow && d.row.tenant == tenant
  }

  /** Without a recent run of the tenant, the rows of its community show at any later time exactly the open runs stored
      under another spelling of the tenant: the shortcut to no rows shows the same as the rows if and only if there is
      none. */
  lemma ShortcutShowsTheSame(log: seq<DbRow>, tenant: string, tenants: set<string>, now: int, later: int)
    requires ValidLog(log) && !HasRecentRun(log, tenant, now) && now <= later
    ensures var rows := Read(log, Some(tenants), now);
            OpenRuns(rows, tenant, Summaries(rows), later) == OpenRuns([], tenant, Summaries([]), later) <==>
            forall r <- rows :: r.tenant != tenant ==> !IsOpenRun(r, tenant, Summaries(rows), later)
  {
    var rows := Read(log, Some(tenants), now);
    var open := OpenRuns(rows, tenant, Summaries(rows), later);
    forall r | r in rows && IsOpenRun(r, tenant, Summaries(rows), later)
      ensures r.tenant != tenant
    {
      RecentRunFound(log, r, now, later);
    }
    assert open != [] ==> open[0] in open;
  }

  lemma RecentRunFound(log: seq<DbRow>, r: Row, now: int, later: int)
    requires ValidLog(log) && r in RowsOf(log) && r.IsRun() && now <= later
    requires later - r.content.run.createdAt < DEADLINE
    ensures HasRecentRun(log, r.tenant, now)
  {
    var k :| 0 <= k < |log| && RowsOf(log)[k] == r;
    assert log[k] in log;
    var n := BoundIndex(log, now - DEADLINE);
    if n > 0 {
      assert RowsOf(log)[n - 1].id < RowsOf(log)[k].id;
    }
  }

  // ----- when the shortcut is harmless

  /** A row of base.eeg. */
  datatype EegRow = EegRow(tenant: string, communityId: string)

  predicate SharesCommunity(eegs: seq<EegRow>, tenant: string, other: string) {
    exists g <- eegs, h <- eegs :: g.tenant == tenant && h.tenant == other && g.communityId == h.communityId
  }

  /** communityTenants: the tenant and the other tenants with its community id. */
  function CommunityTenants(eegs: seq<EegRow>, tenant: string): set<string> {
    {tenant} + set h <- eegs | SharesCommunity(eegs, tenant, h.tenant) :: h.tenant
  }

  /** Whatever the log, the rows of the community show no more than no rows do, when the tenant has no recent run. */
  ghost predicate ShortcutLosesNothing(tenant: string, tenants: set<string>) {
    forall log, now, later :: ValidLog(log) && now <= later && !HasRecentRun(log, tenant, now) ==>
      ShowsNothing(log, tenant, tenants, now, later)
  }

  predicate ShowsNothing(log: seq<DbRow>, tenant: string, tenants: set<string>, now: int, later: int) {
    var rows := Read(log, Some(tenants), now);
    OpenRuns(rows, tenant, Summaries(rows), later) == []
  }

  function OneRun(tenant: string): DbRow {
    DbRow(Row(1, tenant, EnergyRequest, RunRow, Run(RunData("R", "EC", 0, 0, 0, [MeterRange("M", 0, 0)], [], false))), 0)
  }

  /** The shortcut loses nothing on any log if and only if the tenant's community holds no other tenant that differs from
      it in letter case only. */
  lemma ShortcutIsHarmlessIff(eegs: seq<EegRow>, tenant: string)
    ensures ShortcutLosesNothing(tenant, CommunityTenants(eegs, tenant)) <==>
            forall h <- eegs :: SharesCommunity(eegs, tenant, h.tenant) && EqualFold(h.tenant, tenant) ==> h.tenant == tenant
  {
    var tenants := CommunityTenants(eegs, tenant);
    if h :| h in eegs && SharesCommunity(eegs, tenant, h.tenant) && EqualFold(h.tenant, tenant) && h.tenant != tenant {
      assert h.tenant in tenants;
      OtherSpellingIsLost(OneRun(h.tenant), tenant, h.tenant, tenants, 0);
    } else {
      forall log, now, later | ValidLog(log) && now <= later && !HasRecentRun(log, tenant, now)
        ensures ShowsNothing(log, tenant, tenants, now, later)
      {
        OneSpellingLosesNothing(log, tenant, tenants, now, later);
      }
    }
  }

  lemma OneSpellingLosesNothing(log: seq<DbRow>, tenant: string, tenants: set<string>, now: int, later: int)
    requires ValidLog(log) && now <= later && !HasRecentRun(log, tenant, now)
    requires forall t <- tenants :: EqualFold(t, tenant) ==> t == tenant
    ensures ShowsNothing(log, tenant, tenants, now, later)
  {
    var rows := Read(log, Some(tenants), now);
    assert forall r <- rows :: r.tenant in tenants;
    ShortcutShowsTheSame(log, tenant, tenants, now, later);
    assert OpenRuns([], tenant, Summaries([]), later) == [];
  }

  /** A table with one run row, written at `now`. */
  predicate IsOneRun(d: DbRow, tenant: string, now: int) {
    && d.row.IsRun() && d.row.process == EnergyRequest && d.row.tenant == tenant && 0 < d.row.id < MAX_ID
    && DistinctMeters(d.row.content.run.meters) && d.row.content.run.createdAt == d.date == now && !d.row.content.run.noSummary
  }

  lemma OneRunIsValid(d: DbRow, tenant: string, now: int)
    requires IsOneRun(d, tenant, now)
    ensures ValidLog([d]) && RowsOf([d]) == [d.row]
  {
  }

  lemma BoundBefore(d: DbRow, time: int)
    requires time < d.date
    ensures Bound([d], time) == 0
  {
    assert [d][..0] == [];
  }

  lemma OneRunIsSelected(r: Row, tenants: set<string>)
    requires r.IsRun() && r.process == EnergyRequest && r.tenant in tenants && 0 < r.id
    ensures FirstRun([r], 0, Some(tenants)) == Some(r.id) && Selected(0, Some(r.id), Some(tenants))(r)
  {
  }

  lemma OneRunIsRead(d: DbRow, tenant: string, tenants: set<string>, now: int)
    requires IsOneRun(d, tenant, now) && tenant in tenants
    ensures Read([d], Some(tenants), now) == [d.row]
  {
    OneRunIsValid(d, tenant, now);
    BoundBefore(d, now - LOOK_BACK);
    OneRunIsSelected(d.row, tenants);
    AllKept([d.row], Selected(0, Some(d.row.id), Some(tenants)));
  }

  lemma OneRunIsOpen(d: DbRow, tenant: string, other: string, now: int)
    requires IsOneRun(d, other, now) && EqualFold(other, tenant)
    ensures OpenRuns([d.row], tenant, Summaries([d.row]), now) == [d.row]
  {
    SummariesSnoc([], d.row);
    assert [] + [d.row] == [d.row];
    AllKept([d.row], (r: Row) => IsOpenRun(r, tenant, map[], now));
  }

  lemma NoRunOfTheTenant(d: DbRow, tenant: string, now: int)
    requires d.row.tenant != tenant
    ensures !HasRecentRun([d], tenant, now)
  {
  }

  /** A log that is shown and that the shortcut hides. */
  lemma OtherSpellingIsLost(d: DbRow, tenant: string, other: string, tenants: set<string>, now: int)
    requires IsOneRun(d, other, now) && EqualFold(other, tenant) && other != tenant && other in tenants
    ensures ValidLog([d]) && !HasRecentRun([d], tenant, now) && !ShowsNothing([d], tenant, tenants, now, now)
  {
    OneRunIsValid(d, other, now);
    NoRunOfTheTenant(d, tenant, now);
    OneRunIsShown(d, tenant, other, tenants, now);
  }

  lemma OneRunIsShown(d: DbRow, tenant: string, other: string, tenants: set<string>, now: int)
    requires IsOneRun(d, other, now) && EqualFold(other, tenant) && other in tenants
    ensures !ShowsNothing([d], tenant, tenants, now, now)
  {
    OneRunIsRead(d, other, tenants, now);
    OneRunIsOpen(d, tenant, other, now);
  }
}
