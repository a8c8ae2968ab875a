/** The rows an evaluation reads (database/energyRequestDao.go), and why all evaluations attribute alike on them. */
module EnergyRows {
  import opened Wrappers
  import opened EnergyTypes
  import opened AttributionSpec
  import opened AttributionOnline
  import opened AttributionCuts

  /** What the program writes: the date grows with the id, a run is dated when or after it is created, each kind of
      row has its process, a run has one summary at most, written after it under a tenant of its community. */
  predicate ValidLog(log: seq<DbRow>) {
    && IsLog(RowsOf(log))
    && (forall i, j :: 0 <= i < j < |log| ==> log[i].date <= log[j].date)
    && (forall d <- log :: d.row.IsRun() ==> d.row.process == EnergyRequest && d.row.content.run.createdAt <= d.date)
    && (forall d <- log :: d.row.IsAnswer() || d.row.IsSummary() ==> d.row.process == EdaProcess)
  }

  /** The summary of a community's run is stored under one of the community's tenants. */
  predicate SummariesAtHome(s: Scope, rows: seq<Row>) {
    forall i {:trigger rows[i].IsSummary()} :: 0 <= i < |rows| && rows[i].IsSummary() && rows[i].tenant !in s.tenants ==>
      !HasRunId(s, rows, rows[i].content.summary.runId)
  }

  /** The id of the newest row dated at `time` or earlier, 0 when there is none. */
  function Bound(log: seq<DbRow>, time: int): int {
    if log == [] then 0
    else if log[|log| - 1].date <= time then log[|log| - 1].row.id
    else Bound(log[..|log| - 1], time)
  }

  predicate OfTenants(r: Row, tenants: Option<set<string>>) {
    tenants.Some? ==> r.tenant in tenants.value
  }

  predicate IsRunAfter(r: Row, bound: int, tenants: Option<set<string>>) {
    r.id > bound && r.process == EnergyRequest && r.rowType == RunRow && OfTenants(r, tenants)
  }

  /** The id of the first run row after the bound. */
  function FirstRun(rows: seq<Row>, bound: int, tenants: Option<set<string>>): (r: Option<int>)
    ensures r.None? ==> forall q <- rows :: !IsRunAfter(q, bound, tenants)
  {
    if rows == [] then None
    else if IsRunAfter(rows[0], bound, tenants) then Some(rows[0].id)
    else FirstRun(rows[1..], bound, tenants)
  }

  /** The condition of the query: runs and summaries after the bound, answers after the first of these runs. */
  function Selected(bound: int, first: Option<int>, tenants: Option<set<string>>): Row -> bool {
    (r: Row) =>
      && r.id > bound && OfTenants(r, tenants)
      && (|| (r.process == EnergyRequest && r.rowType == RunRow)
          || (r.process == EdaProcess && r.content.Closing?)
          || (first.Some? && r.id > first.value && r.process == EdaProcess && r.content.Reply?))
  }

  /** EnergyRequestRows: the rows of all tenants (None) or of the given ones, read at `now`. */
  function Read(log: seq<DbRow>, tenants: Option<set<string>>, now: int): seq<Row> {
    var bound := Bound(log, now - LOOK_BACK);
    Filter(RowsOf(log), Selected(bound, FirstRun(RowsOf(log), bound, tenants), tenants))
  }

  /** The rows after the bound: a suffix of the log. */
  function After(log: seq<DbRow>, now: int): seq<Row> {
    var bound := Bound(log, now - LOOK_BACK);
    Filter(RowsOf(log), (r: Row) => r.id > bound)
  }

  lemma {:induction false} FilterTwice(rows: seq<Row>, wide: Row -> bool, narrow: Row -> bool)
    requires forall r <- rows :: narrow(r) ==> wide(r)
    ensures Filter(Filter(rows, wide), narrow) == Filter(rows, narrow)
  {
    if rows != [] {
      var init, r := rows[..|rows| - 1], rows[|rows| - 1];
      FilterTwice(init, wide, narrow);
      assert rows == init + [r];
      FilterSnoc(init, r, narrow);
      FilterSnoc(init, r, wide);
      FilterSnoc(Filter(init, wide), r, narrow);
    }
  }

  lemma {:induction false} FirstRunIsFirst(rows: seq<Row>, bound: int, tenants: Option<set<string>>)
    requires ValidRows(rows)
    ensures var f := FirstRun(rows, bound, tenants);
            f.Some? ==> forall r <- rows :: IsRunAfter(r, bound, tenants) ==> f.value <= r.id
  {
    if rows != [] && !IsRunAfter(rows[0], bound, tenants) {
      FirstRunIsFirst(rows[1..], bound, tenants);
      assert forall r <- rows :: r == rows[0] || r in rows[1..];
    }
  }

  /** The community's selection drops from a wider one only rows the community's attribution does not need. */
  lemma SelectionDrops(s: Scope, log: seq<DbRow>, now: int, wide: Row -> bool)
    requires ValidLog(log)
    requires var bound := Bound(log, now - LOOK_BACK);
             forall r <- RowsOf(log) :: wide(r) ==> r.id > bound
    requires SummariesAtHome(s, RowsOf(log))
    ensures var bound, tenants := Bound(log, now - LOOK_BACK), Some(s.tenants);
            DropsOnlyDroppable(s, Filter(RowsOf(log), wide), Selected(bound, FirstRun(RowsOf(log), bound, tenants), tenants))
  {
    var rows, bound, tenants := RowsOf(log), Bound(log, now - LOOK_BACK), Some(s.tenants);
    var first := FirstRun(rows, bound, tenants);
    var keep, kept := Selected(bound, first, tenants), Filter(rows, wide);
    FilterValid(rows, wide);
    forall i | 0 <= i < |kept| && !keep(kept[i])
      ensures Droppable(s, kept, i)
    {
      LeftOutIsDroppable(s, log, kept, i, bound);
    }
  }

  lemma LeftOutIsDroppable(s: Scope, log: seq<DbRow>, kept: seq<Row>, i: nat, bound: int)
    requires ValidLog(log) && SummariesAtHome(s, RowsOf(log)) && ValidRows(kept) && i < |kept|
    requires forall r <- kept :: r in RowsOf(log) && r.id > bound
    requires !Selected(bound, FirstRun(RowsOf(log), bound, Some(s.tenants)), Some(s.tenants))(kept[i])
    ensures Droppable(s, kept, i)
  {
    var rows, r := RowsOf(log), kept[i];
    FirstRunIsFirst(rows, bound, Some(s.tenants));
    var k :| 0 <= k < |rows| && rows[k] == r;
    assert log[k] in log;
    if r.IsAnswerOf(s.tenants) {
      forall j | 0 <= j < i
        ensures !kept[j].IsRunOf(s.ecId, s.tenants)
      {
        RunIsAfter(s, log, kept[j], bound);
      }
    }
    if r.IsSummary() {
      RunIdOfMore(s, rows, kept, r.content.summary.runId);
    }
  }

  lemma RunIsAfter(s: Scope, log: seq<DbRow>, r: Row, bound: int)
    requires ValidLog(log) && r in RowsOf(log) && r.id > bound
    ensures r.IsRunOf(s.ecId, s.tenants) ==> IsRunAfter(r, bound, Some(s.tenants))
  {
    var k :| 0 <= k < |log| && RowsOf(log)[k] == r;
    assert log[k] in log;
  }

  lemma RunIdOfMore(s: Scope, rows: seq<Row>, kept: seq<Row>, runId: string)
    requires forall q <- kept :: q in rows
    ensures HasRunId(s, kept, runId) ==> HasRunId(s, rows, runId)
  {
    if HasRunId(s, kept, runId) {
      var i :| 0 <= i < |kept| && kept[i].IsRunOf(s.ecId, s.tenants) && kept[i].content.run.runId == runId;
      assert kept[i] in rows;
    }
  }

  /** The check reads the rows of all tenants, the lock and the live entry those of the community: both attribute the
      answers of the community alike. */
  lemma CheckAndLockAttributeAlike(s: Scope, log: seq<DbRow>, now: int)
    requires ValidLog(log) && SummariesAtHome(s, RowsOf(log))
    ensures TwoPass(s, Read(log, None, now)) == TwoPass(s, Read(log, Some(s.tenants), now))
  {
    var rows, bound := RowsOf(log), Bound(log, now - LOOK_BACK);
    var wide := Selected(bound, FirstRun(rows, bound, None), None);
    var narrow := Selected(bound, FirstRun(rows, bound, Some(s.tenants)), Some(s.tenants));
    FirstRunIsFirst(rows, bound, None);
    assert forall r <- rows :: narrow(r) ==> wide(r) by {
      FirstOfMore(rows, bound, s.tenants);
    }
    FilterTwice(rows, wide, narrow);
    FilterValid(rows, wide);
    FilterOneSummary(rows, wide);
    SelectionDrops(s, log, now, wide);
    FilteredAlike(s, Filter(rows, wide), narrow);
  }

  /** The first run of some tenants is not before the first run of all. */
  lemma {:induction false} FirstOfMore(rows: seq<Row>, bound: int, tenants: set<string>)
    requires ValidRows(rows)
    ensures var f, g := FirstRun(rows, bound, None), FirstRun(rows, bound, Some(tenants));
            g.Some? ==> f.Some? && f.value <= g.value
  {
    FirstRunIsFirst(rows, bound, None);
    FirstRunOccurs(rows, bound, Some(tenants));
  }

  lemma {:induction false} FirstRunOccurs(rows: seq<Row>, bound: int, tenants: Option<set<string>>)
    ensures var f := FirstRun(rows, bound, tenants);
            f.Some? ==> exists r <- rows :: IsRunAfter(r, bound, tenants) && r.id == f.value
  {
    if rows != [] {
      if IsRunAfter(rows[0], bound, tenants) {
        assert rows[0] in rows;
      } else {
        FirstRunOccurs(rows[1..], bound, tenants);
        var f := FirstRun(rows[1..], bound, tenants);
        if f.Some? {
          var r :| r in rows[1..] && IsRunAfter(r, bound, tenants) && r.id == f.value;
          assert r in rows;
        }
      }
    }
  }

  /** The number of rows up to the bound. */
  lemma {:induction false} AfterIsSuffix(log: seq<DbRow>, now: int) returns (n: nat)
    requires ValidRows(RowsOf(log))
    ensures n <= |log| && After(log, now) == RowsOf(log)[n..]
    ensures n == 0 || log[n - 1].date <= now - LOOK_BACK
    ensures forall i :: n <= i < |log| ==> now - LOOK_BACK < log[i].date
  {
    n := BoundIndex(log, now - LOOK_BACK);
    var rows, bound := RowsOf(log), Bound(log, now - LOOK_BACK);
    SuffixFilter(rows, n, (r: Row) => r.id > bound);
  }

  lemma {:induction false} BoundIndex(log: seq<DbRow>, time: int) returns (n: nat)
    ensures n <= |log| && Bound(log, time) == if n == 0 then 0 else log[n - 1].row.id
    ensures n == 0 || log[n - 1].date <= time
    ensures forall i :: n <= i < |log| ==> time < log[i].date
  {
    if log == [] {
      n := 0;
    } else if log[|log| - 1].date <= time {
      n := |log|;
    } else {
      n := BoundIndex(log[..|log| - 1], time);
    }
  }

  lemma {:induction false} AllKept(rows: seq<Row>, keep: Row -> bool)
    requires forall r <- rows :: keep(r)
    ensures Filter(rows, keep) == rows
  {
    if rows != [] {
      var init, r := rows[..|rows| - 1], rows[|rows| - 1];
      AllKept(init, keep);
      assert rows == init + [r];
      FilterSnoc(init, r, keep);
    }
  }

  lemma {:induction false} NoneKept(rows: seq<Row>, keep: Row -> bool)
    requires forall r <- rows :: !keep(r)
    ensures Filter(rows, keep) == []
  {
    if rows != [] {
      NoneKept(rows[..|rows| - 1], keep);
    }
  }

  lemma {:induction false} FilterConcat(x: seq<Row>, y: seq<Row>, keep: Row -> bool)
    ensures Filter(x + y, keep) == Filter(x, keep) + Filter(y, keep)
  {
    if y == [] {
      assert x + y == x;
    } else {
      var init, r := y[..|y| - 1], y[|y| - 1];
      FilterConcat(x, init, keep);
      assert y == init + [r];
      Associative(x, init, [r]);
      FilterSnoc(x + init, r, keep);
      FilterSnoc(init, r, keep);
      Associative(Filter(x, keep), Filter(init, keep), [r]);
    }
  }

  lemma Associative(x: seq<Row>, y: seq<Row>, z: seq<Row>)
    ensures x + (y + z) == (x + y) + z
  {
  }

  lemma SuffixFilter(rows: seq<Row>, n: nat, keep: Row -> bool)
    requires n <= |rows|
    requires forall r <- rows[..n] :: !keep(r)
    requires forall r <- rows[n..] :: keep(r)
    ensures Filter(rows, keep) == rows[n..]
  {
    assert rows == rows[..n] + rows[n..];
    FilterConcat(rows[..n], rows[n..], keep);
    NoneKept(rows[..n], keep);
    AllKept(rows[n..], keep);
  }

  lemma ReadAttributesLikeAfter(s: Scope, log: seq<DbRow>, now: int)
    requires ValidLog(log) && SummariesAtHome(s, RowsOf(log))
    ensures TwoPass(s, After(log, now)) == TwoPass(s, Read(log, Some(s.tenants), now))
  {
    var rows, bound := RowsOf(log), Bound(log, now - LOOK_BACK);
    var wide := (r: Row) => r.id > bound;
    var narrow := Selected(bound, FirstRun(rows, bound, Some(s.tenants)), Some(s.tenants));
    FilterTwice(rows, wide, narrow);
    FilterValid(rows, wide);
    FilterOneSummary(rows, wide);
    SelectionDrops(s, log, now, wide);
    FilteredAlike(s, After(log, now), narrow);
  }

  /** The rows read attribute like the whole log, for every run after the bound, if no request up to the bound is open
      and unanswered there. */
  lemma WindowAttributesLikeLog(s: Scope, log: seq<DbRow>, now: int) returns (n: nat)
    requires ValidLog(log) && SummariesAtHome(s, RowsOf(log))
    ensures n <= |log| && (forall i :: n <= i < |log| ==> now - LOOK_BACK < log[i].date)
    ensures n == 0 || log[n - 1].date <= now - LOOK_BACK
    ensures var rows, before := RowsOf(log), TwoPass(s, RowsOf(log)[..n]);
            NoneWaiting(before) ==>
              |before| <= |TwoPass(s, rows)| && TwoPass(s, rows)[|before|..] == TwoPass(s, Read(log, Some(s.tenants), now))
  {
    var rows := RowsOf(log);
    n := AfterIsSuffix(log, now);
    ReadAttributesLikeAfter(s, log, now);
    CutAt(s, rows, n);
  }

  lemma CutAt(s: Scope, rows: seq<Row>, n: nat)
    requires IsLog(rows) && n <= |rows|
    ensures var before := TwoPass(s, rows[..n]);
            NoneWaiting(before) ==> |before| <= |TwoPass(s, rows)| && TwoPass(s, rows)[|before|..] == TwoPass(s, rows[n..])
  {
    if NoneWaiting(TwoPass(s, rows[..n])) {
      assert rows == rows[..n] + rows[n..];
      CutKeepsLaterRuns(s, rows[..n], rows[n..]);
    }
  }

  /** `late` continues the log by rows of the window read at `now`. */
  predicate Continues(s: Scope, early: seq<DbRow>, late: seq<DbRow>, now: int) {
    && ValidLog(early + late) && SummariesAtHome(s, RowsOf(early + late))
    && forall d <- late :: now - LOOK_BACK < d.date <= now
  }

  /** The rows read at `now` give every run of the window what the whole log gives it. */
  predicate WindowAgrees(s: Scope, early: seq<DbRow>, late: seq<DbRow>, now: int) {
    var before, all := TwoPass(s, RowsOf(early)), TwoPass(s, RowsOf(early + late));
    |before| <= |all| && all[|before|..] == TwoPass(s, Read(early + late, Some(s.tenants), now))
  }

  lemma OldRows(early: seq<DbRow>, late: seq<DbRow>)
    ensures RowsOf(early + late) == RowsOf(early) + RowsOf(late)
  {
  }

  lemma SplitAtBound(early: seq<DbRow>, late: seq<DbRow>, time: int, n: nat)
    requires (forall d <- early :: d.date <= time) && forall d <- late :: time < d.date
    requires n <= |early + late| && (n == 0 || (early + late)[n - 1].date <= time)
    requires forall i :: n <= i < |early + late| ==> time < (early + late)[i].date
    ensures n == |early|
  {
    var log := early + late;
    assert forall i {:trigger log[i]} :: 0 <= i < |early| ==> log[i] == early[i] && log[i] in early;
    assert forall i {:trigger log[i]} :: |early| <= i < |log| ==> log[i] == late[i - |early|] && log[i] in late;
    assert n < |log| ==> time < log[n].date;
  }

  lemma AfterIsNew(early: seq<DbRow>, late: seq<DbRow>, now: int)
    requires ValidRows(RowsOf(early + late))
    requires (forall d <- early :: d.date <= now - LOOK_BACK) && forall d <- late :: now - LOOK_BACK < d.date
    ensures After(early + late, now) == RowsOf(late)
  {
    var n := AfterIsSuffix(early + late, now);
    SplitAtBound(early, late, now - LOOK_BACK, n);
    OldRows(early, late);
  }

  lemma ReadIsWindow(s: Scope, early: seq<DbRow>, late: seq<DbRow>, now: int)
    requires Continues(s, early, late, now) && forall d <- early :: d.date <= now - LOOK_BACK
    ensures TwoPass(s, Read(early + late, Some(s.tenants), now)) == TwoPass(s, RowsOf(late))
  {
    AfterIsNew(early, late, now);
    ReadAttributesLikeAfter(s, early + late, now);
  }

  /** The rows read agree with the whole log, however it went on since the bound, if and only if no request up to the
      bound is open and unanswered there. `later` is a time after all requests, and two more ids can follow. */
  lemma WindowAgreesIffNoneWaiting(s: Scope, early: seq<DbRow>, now: int, later: int)
    requires ValidLog(early) && SummariesAtHome(s, RowsOf(early))
    requires forall d <- early :: d.date <= now - LOOK_BACK && d.row.id < MAX_ID - 2
    requires forall q <- TwoPass(s, RowsOf(early)) :: s.cal(q.to) < s.cal(later)
    ensures NoneWaiting(TwoPass(s, RowsOf(early))) <==>
            forall late :: Continues(s, early, late, now) ==> WindowAgrees(s, early, late, now)
  {
    if NoneWaiting(TwoPass(s, RowsOf(early))) {
      forall late | Continues(s, early, late, now)
        ensures WindowAgrees(s, early, late, now)
      {
        ReadIsWindow(s, early, late, now);
        OldRows(early, late);
        CutKeepsLaterRuns(s, RowsOf(early), RowsOf(late));
      }
    } else {
      var late := WindowDisagrees(s, early, now, later);
    }
  }

  lemma WindowDisagrees(s: Scope, early: seq<DbRow>, now: int, later: int) returns (late: seq<DbRow>)
    requires ValidLog(early) && SummariesAtHome(s, RowsOf(early))
    requires forall d <- early :: d.date <= now - LOOK_BACK && d.row.id < MAX_ID - 2
    requires forall q <- TwoPass(s, RowsOf(early)) :: s.cal(q.to) < s.cal(later)
    requires !NoneWaiting(TwoPass(s, RowsOf(early)))
    ensures Continues(s, early, late, now) && !WindowAgrees(s, early, late, now)
  {
    var pre := RowsOf(early);
    var id := NextId(pre);
    var runId := LongRunId(pre);
    assert pre != [] ==> early[|early| - 1] in early;
    var tenant := WaitingDisagrees(s, pre, id, runId, later, now);
    var post := RunAndAnswer(s, id, tenant, runId, later, now);
    late := [DbRow(post[0], now), DbRow(post[1], now)];
    assert RowsOf(late) == post;
    RunAndAnswerContinues(s, early, id, tenant, runId, later, now);
    ReadIsWindow(s, early, late, now);
    OldRows(early, late);
  }

  lemma RunAndAnswerContinues(s: Scope, early: seq<DbRow>, id: int, tenant: string, runId: string, ms: int, now: int)
    requires ValidLog(early) && SummariesAtHome(s, RowsOf(early)) && IsFresh(RowsOf(early), id, runId)
    requires forall d <- early :: d.date <= now - LOOK_BACK
    ensures var post := RunAndAnswer(s, id, tenant, runId, ms, now);
            Continues(s, early, [DbRow(post[0], now), DbRow(post[1], now)], now)
  {
    var post, pre := RunAndAnswer(s, id, tenant, runId, ms, now), RowsOf(early);
    var late := [DbRow(post[0], now), DbRow(post[1], now)];
    OldRows(early, late);
    assert RowsOf(late) == post;
    RunAndAnswerIsLog(s, pre, id, tenant, runId, ms, now);
    AtHomeStill(s, pre, post, runId);
    StillOrdered(early, late, now);
  }

  lemma StillOrdered(early: seq<DbRow>, late: seq<DbRow>, now: int)
    requires ValidLog(early) && IsLog(RowsOf(early + late)) && (forall d <- early :: d.date <= now)
             && forall d <- late :: d.date == now
    requires forall d <- late :: d.row.IsRun() ==> d.row.process == EnergyRequest && d.row.content.run.createdAt <= now
    requires forall d <- late :: d.row.IsAnswer() || d.row.IsSummary() ==> d.row.process == EdaProcess
    ensures ValidLog(early + late)
  {
    var log := early + late;
    assert forall i :: 0 <= i < |early| ==> log[i] == early[i] && early[i] in early;
    assert forall i :: |early| <= i < |log| ==> log[i] in late;
    assert forall d <- log :: d in early || d in late;
  }

  lemma AtHomeStill(s: Scope, pre: seq<Row>, post: seq<Row>, runId: string)
    requires SummariesAtHome(s, pre) && (forall r <- pre :: r.IsSummary() ==> r.content.summary.runId != runId)
    requires forall r <- post :: !r.IsSummary() && (r.IsRun() ==> r.content.run.runId == runId)
    ensures SummariesAtHome(s, pre + post)
  {
    var all := pre + post;
    assert forall j :: |pre| <= j < |all| ==> all[j] in post;
    forall i {:trigger all[i].IsSummary()} | 0 <= i < |all| && all[i].IsSummary() && all[i].tenant !in s.tenants
      ensures !HasRunId(s, all, all[i].content.summary.runId)
    {
      var other := all[i].content.summary.runId;
      assert pre[i].IsSummary() && pre[i] in pre;
    }
  }

  // ----- which rows are read, said of the log

  predicate IsOfTenants(d: DbRow, tenants: Option<set<string>>) {
    tenants.None? || d.row.tenant in tenants.value
  }

  predicate IsRecent(d: DbRow, now: int) {
    now - d.date < 49 * 3_600_000
  }

  predicate IsRecentRun(d: DbRow, tenants: Option<set<string>>, now: int) {
    IsRecent(d, now) && IsOfTenants(d, tenants) && d.row.process == EnergyRequest && d.row.rowType == RunRow
  }

  /** A row of the last 49 hours: a run, a summary, or an answer after one of these runs. */
  predicate IsToRead(log: seq<DbRow>, tenants: Option<set<string>>, now: int, d: DbRow) {
    || IsRecentRun(d, tenants, now)
    || (IsRecent(d, now) && IsOfTenants(d, tenants) && d.row.process == EdaProcess &&
        (d.row.content.Closing? ||
         (d.row.content.Reply? && exists r <- log :: IsRecentRun(r, tenants, now) && r.row.id < d.row.id)))
  }

  lemma RecentIsAfterBound(log: seq<DbRow>, now: int, d: DbRow)
    requires ValidLog(log) && d in log
    ensures IsRecent(d, now) <==> d.row.id > Bound(log, now - LOOK_BACK)
  {
    var n := BoundIndex(log, now - LOOK_BACK);
    var k :| 0 <= k < |log| && log[k] == d;
    assert RowsOf(log)[k] == d.row && d.row in RowsOf(log);
    if n > 0 {
      assert RowsOf(log)[n - 1].id == log[n - 1].row.id;
      assert k < n - 1 ==> RowsOf(log)[k].id < RowsOf(log)[n - 1].id;
      assert n <= k ==> RowsOf(log)[n - 1].id < RowsOf(log)[k].id;
    }
  }

  lemma RowInLog(log: seq<DbRow>, r: Row) returns (d: DbRow)
    requires r in RowsOf(log)
    ensures d in log && d.row == r
  {
    var k :| 0 <= k < |log| && RowsOf(log)[k] == r;
    d := log[k];
  }

  lemma SomeRunBefore(log: seq<DbRow>, tenants: Option<set<string>>, now: int, id: int)
    requires ValidLog(log)
    ensures var first := FirstRun(RowsOf(log), Bound(log, now - LOOK_BACK), tenants);
            first.Some? && first.value < id <==> exists r <- log :: IsRecentRun(r, tenants, now) && r.row.id < id
  {
    var rows, bound := RowsOf(log), Bound(log, now - LOOK_BACK);
    FirstRunIsFirst(rows, bound, tenants);
    FirstRunOccurs(rows, bound, tenants);
    forall d | d in log
      ensures IsRunAfter(d.row, bound, tenants) <==> IsRecentRun(d, tenants, now)
      ensures d.row in rows
    {
      RecentIsAfterBound(log, now, d);
      var k :| 0 <= k < |log| && log[k] == d;
      assert rows[k] == d.row;
    }
    var first := FirstRun(rows, bound, tenants);
    if first.Some? && first.value < id {
      var r :| r in rows && IsRunAfter(r, bound, tenants) && r.id == first.value;
      var d := RowInLog(log, r);
    }
  }

  lemma SelectedIsToRead(log: seq<DbRow>, tenants: Option<set<string>>, now: int, d: DbRow)
    requires ValidLog(log) && d in log
    ensures var bound := Bound(log, now - LOOK_BACK);
            Selected(bound, FirstRun(RowsOf(log), bound, tenants), tenants)(d.row) <==> IsToRead(log, tenants, now, d)
  {
    RecentIsAfterBound(log, now, d);
    SomeRunBefore(log, tenants, now, d.row.id);
  }

  /** Read are exactly the runs and summaries of the last 49 hours and the answers after the first of these runs, in the order
      of their ids. */
  lemma ReadRows(log: seq<DbRow>, tenants: Option<set<string>>, now: int)
    requires ValidLog(log)
    ensures forall r :: r in Read(log, tenants, now) <==> exists d <- log :: d.row == r && IsToRead(log, tenants, now, d)
    ensures ValidRows(Read(log, tenants, now))
  {
    var bound := Bound(log, now - LOOK_BACK);
    var keep := Selected(bound, FirstRun(RowsOf(log), bound, tenants), tenants);
    FilterValid(RowsOf(log), keep);
    forall r
      ensures r in Read(log, tenants, now) <==> exists d <- log :: d.row == r && IsToRead(log, tenants, now, d)
    {
      if r in Read(log, tenants, now) {
        var d := RowInLog(log, r);
        SelectedIsToRead(log, tenants, now, d);
      }
      if d :| d in log && d.row == r && IsToRead(log, tenants, now, d) {
        SelectedIsToRead(log, tenants, now, d);
        var k :| 0 <= k < |log| && log[k] == d;
        assert RowsOf(log)[k] == r;
      }
    }
  }

  /** A run is read until it is a day past its deadline, so none is lost before it can be closed. */
  lemma OpenRunsAreRead(log: seq<DbRow>, tenants: Option<set<string>>, now: int, d: DbRow)
    requires ValidLog(log) && d in log && d.row.IsRun() && IsOfTenants(d, tenants)
    requires now - d.row.content.run.createdAt < (24 + 24) * 3_600_000
    ensures d.row in Read(log, tenants, now)
  {
    ReadRows(log, tenants, now);
  }

  // ----- the window alone is not enough

  const FIRST_RUN: RunData := RunData("R1", "EC", 0, 0, 0, [MeterRange("M", 0, 0)], [], true)
  const SECOND_RUN: RunData :=
    RunData("R2", "EC", 100 * HOUR, 100 * HOUR, 50 * HOUR, [MeterRange("M", 100 * HOUR, 100 * HOUR)], [], true)
  const LATE: Answer := Answer(true, ["M"], [])

  const OLD_ROW: Row := Row(1, "T", EnergyRequest, RunRow, Run(FIRST_RUN))
  const NEW_ROW: Row := Row(2, "T", EnergyRequest, RunRow, Run(SECOND_RUN))
  const ANSWER_ROW: Row := Row(3, "T", EdaProcess, MessageRow, Reply(LATE))

  /** A run without summary of two days ago, a run for another day, and one answer. */
  const LATE_ANSWER: seq<DbRow> := [DbRow(OLD_ROW, 0), DbRow(NEW_ROW, 50 * HOUR), DbRow(ANSWER_ROW, 51 * HOUR)]

  const LATE_SCOPE: Scope := Scope((ms: int) => ms / DEADLINE, "EC", {"T"}, "M")

  /** Without that condition the window can give an answer to another run: the unanswered old request owns it in the
      log, the later one on the rows read. */
  lemma WindowCanMoveAnAnswer()
    ensures ValidLog(LATE_ANSWER) && SummariesAtHome(LATE_SCOPE, RowsOf(LATE_ANSWER))
    ensures Belonging(TwoPass(LATE_SCOPE, RowsOf(LATE_ANSWER)), 2).0 == []
    ensures Belonging(TwoPass(LATE_SCOPE, Read(LATE_ANSWER, Some({"T"}), 51 * HOUR)), 2).0 == [IdAnswer(3, LATE)]
  {
    assert RowsOf(LATE_ANSWER) == [OLD_ROW, NEW_ROW, ANSWER_ROW];
    LateIsValid();
    LateRowsValid();
    LateRead();
    LateInLog();
    LateInWindow();
    TwoPassRefinesOnline(LATE_SCOPE, [OLD_ROW, NEW_ROW, ANSWER_ROW]);
    TwoPassRefinesOnline(LATE_SCOPE, [NEW_ROW, ANSWER_ROW]);
  }

  lemma LateIsValid()
    ensures ValidLog(LATE_ANSWER) && SummariesAtHome(LATE_SCOPE, RowsOf(LATE_ANSWER))
  {
    LateRowsValid();
    NoSummaries(LATE_SCOPE, [OLD_ROW, NEW_ROW, ANSWER_ROW]);
    assert RowsOf(LATE_ANSWER) == [OLD_ROW, NEW_ROW, ANSWER_ROW];
  }

  lemma NoSummaries(s: Scope, rows: seq<Row>)
    requires forall r <- rows :: !r.IsSummary()
    ensures OneSummaryPerRun(rows) && SummariesAfterRuns(rows) && SummariesAtHome(s, rows)
  {
    assert forall i :: 0 <= i < |rows| ==> rows[i] in rows;
  }

  lemma LateRowsValid()
    ensures ValidRows([OLD_ROW, NEW_ROW, ANSWER_ROW]) && OneSummaryPerRun([OLD_ROW, NEW_ROW, ANSWER_ROW])
    ensures ValidRows([NEW_ROW, ANSWER_ROW]) && OneSummaryPerRun([NEW_ROW, ANSWER_ROW])
  {
  }

  lemma OneMention()
    ensures Count(LATE.meters, "M") == 1
  {
    assert LATE.meters[..0] == [];
  }

  lemma LateInLog()
    ensures Belonging(Online(LATE_SCOPE, [OLD_ROW, NEW_ROW, ANSWER_ROW]), 2).0 == []
  {
    var s, two := LATE_SCOPE, [OLD_ROW, NEW_ROW];
    assert [OLD_ROW] + [NEW_ROW] == two && two + [ANSWER_ROW] == [OLD_ROW, NEW_ROW, ANSWER_ROW];
    OpensFirst(s, OLD_ROW, FIRST_RUN.meters[0]);
    OpensRequest(s, [OLD_ROW], NEW_ROW, SECOND_RUN.meters[0]);
    var ra, rb := NewRequest(OLD_ROW, FIRST_RUN.meters[0], MAX_ID), NewRequest(NEW_ROW, SECOND_RUN.meters[0], MAX_ID);
    assert Online(s, two) == [ra, rb];
    OnlineSnoc(s, two, ANSWER_ROW);
    OneMention();
    HandedOnce([ra, rb], IdAnswer(3, LATE));
  }

  /** A single mention goes to the first request when it is open and unanswered. */
  lemma HandedOnce(x: seq<Request>, a: IdAnswer)
    requires x != [] && IsOpen(x[0]) && x[0].answers == []
    ensures HandTimes(x, IsOpen, a, 1) == x[0 := x[0].(answers := [a])]
  {
    assert HandTimes(x, IsOpen, a, 0) == x;
    FirstStays(x, |x|);
    assert x[0].answers + [a] == [a];
  }

  lemma {:induction false} FirstStays(x: seq<Request>, n: nat)
    requires 0 < n <= |x| && IsOpen(x[0]) && x[0].answers == []
    ensures FirstOpen(x, IsOpen, n) == Some(0)
  {
    if n > 1 {
      FirstStays(x, n - 1);
    }
  }

  lemma LateInWindow()
    ensures Belonging(Online(LATE_SCOPE, [NEW_ROW, ANSWER_ROW]), 2).0 == [IdAnswer(3, LATE)]
  {
    var s := LATE_SCOPE;
    OpensFirst(s, NEW_ROW, SECOND_RUN.meters[0]);
    assert [NEW_ROW] + [ANSWER_ROW] == [NEW_ROW, ANSWER_ROW];
    OnlineSnoc(s, [NEW_ROW], ANSWER_ROW);
    OneMention();
    HandedOnce(Online(s, [NEW_ROW]), IdAnswer(3, LATE));
  }

  lemma LateBound()
    ensures Bound(LATE_ANSWER, 2 * HOUR) == 1
  {
    var one, two := [DbRow(OLD_ROW, 0)], [DbRow(OLD_ROW, 0), DbRow(NEW_ROW, 50 * HOUR)];
    assert Bound(one, 2 * HOUR) == 1;
    assert two[..1] == one;
    assert LATE_ANSWER[..2] == two;
  }

  lemma LateRead()
    ensures Read(LATE_ANSWER, Some({"T"}), 51 * HOUR) == [NEW_ROW, ANSWER_ROW]
  {
    var rows := [OLD_ROW, NEW_ROW, ANSWER_ROW];
    assert RowsOf(LATE_ANSWER) == rows;
    LateBound();
    assert rows[1..] == [NEW_ROW, ANSWER_ROW];
    assert FirstRun(rows, 1, Some({"T"})) == Some(2);
    SuffixFilter(rows, 1, Selected(1, Some(2), Some({"T"})));
  }
}
