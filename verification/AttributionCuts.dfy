/** Which rows an attribution needs: other communities, early answers and rows before a cut. */
module AttributionCuts {
  import opened Wrappers
  import opened EnergyTypes
  import opened AttributionSpec
  import opened AttributionOnline
  import opened AttributionWindows

  function Filter(rows: seq<Row>, keep: Row -> bool): (r: seq<Row>)
    ensures |r| <= |rows|
    ensures forall q <- r :: q in rows && keep(q)
    ensures forall q <- rows :: keep(q) ==> q in r
  {
    if rows == [] then []
    else
      var last := rows[|rows| - 1];
      assert rows == rows[..|rows| - 1] + [last];
      Filter(rows[..|rows| - 1], keep) + if keep(last) then [last] else []
  }

  lemma {:induction false} FilterValid(rows: seq<Row>, keep: Row -> bool)
    requires ValidRows(rows)
    ensures ValidRows(Filter(rows, keep))
  {
    if rows != [] {
      var init, last := rows[..|rows| - 1], rows[|rows| - 1];
      ValidPrefix(rows, |rows| - 1);
      FilterValid(init, keep);
      LastIsNewest(rows);
      ValidSnoc(Filter(init, keep), last);
    }
  }

  lemma LastIsNewest(rows: seq<Row>)
    requires ValidRows(rows) && rows != []
    ensures forall q <- rows[..|rows| - 1] :: q.id < rows[|rows| - 1].id
  {
  }

  lemma ValidSnoc(rows: seq<Row>, r: Row)
    requires ValidRows(rows) && forall q <- rows :: q.id < r.id
    requires 0 < r.id < MAX_ID && (r.IsRun() ==> DistinctMeters(r.content.run.meters))
    ensures ValidRows(rows + [r])
  {
    assert forall i :: 0 <= i < |rows| ==> rows[i] in rows;
  }

  lemma {:induction false} FilterOneSummary(rows: seq<Row>, keep: Row -> bool)
    requires OneSummaryPerRun(rows)
    ensures OneSummaryPerRun(Filter(rows, keep))
  {
    if rows != [] {
      var init := rows[..|rows| - 1];
      FilterOneSummary(init, keep);
      forall q | q in Filter(init, keep) && q.IsSummary() && rows[|rows| - 1].IsSummary()
        ensures q.content.summary.runId != rows[|rows| - 1].content.summary.runId
      {
        assert q in init;
      }
    }
  }

  predicate HasRunId(s: Scope, rows: seq<Row>, runId: string) {
    exists i :: 0 <= i < |rows| && rows[i].IsRunOf(s.ecId, s.tenants) && rows[i].content.run.runId == runId
  }

  lemma {:induction false} OnlineRunIds(s: Scope, rows: seq<Row>)
    ensures forall q <- Online(s, rows) :: HasRunId(s, rows, q.runId)
  {
    if rows != [] {
      var init, r := rows[..|rows| - 1], rows[|rows| - 1];
      OnlineRunIds(s, init);
      if r.IsAnswerOf(s.tenants) {
        HandTimesBounds(Online(s, init), IsOpen, IdAnswer(r.id, r.content.answer),
                        Count(r.content.answer.meters, s.meter));
      }
      forall q | q in Online(s, rows)
        ensures HasRunId(s, rows, q.runId)
      {
        if HasRunId(s, init, q.runId) {
          var i :| 0 <= i < |init| && init[i].IsRunOf(s.ecId, s.tenants) && init[i].content.run.runId == q.runId;
          assert rows[i] == init[i];
        } else {
          assert rows[|rows| - 1].IsRunOf(s.ecId, s.tenants);
        }
      }
    }
  }

  /** Dropping row `i` changes nothing: it is no row of the community, or an answer before every request, or the
      summary of no run of the community. */
  predicate Droppable(s: Scope, rows: seq<Row>, i: nat)
    requires i < |rows|
  {
    var r := rows[i];
    && !r.IsRunOf(s.ecId, s.tenants)
    && (r.IsAnswerOf(s.tenants) ==> forall j :: 0 <= j < i ==> !rows[j].IsRunOf(s.ecId, s.tenants))
    && (r.IsSummary() ==> !HasRunId(s, rows, r.content.summary.runId))
  }

  predicate DropsOnlyDroppable(s: Scope, all: seq<Row>, keep: Row -> bool) {
    forall i {:trigger Droppable(s, all, i)} :: 0 <= i < |all| ==> keep(all[i]) || Droppable(s, all, i)
  }

  lemma {:induction false} NoRunNoRequest(s: Scope, rows: seq<Row>)
    requires forall r <- rows :: !r.IsRunOf(s.ecId, s.tenants)
    ensures Online(s, rows) == []
  {
    if rows != [] {
      NoRunNoRequest(s, rows[..|rows| - 1]);
    }
  }

  lemma SummariesSnoc(rows: seq<Row>, r: Row)
    ensures Summaries(rows + [r]) ==
            if r.IsSummary() then Summaries(rows)[r.content.summary.runId := r.id] else Summaries(rows)
  {
    assert (rows + [r])[..|rows|] == rows;
  }

  lemma OnlineSnoc(s: Scope, rows: seq<Row>, r: Row)
    ensures Online(s, rows + [r]) == OnlineStep(s, Online(s, rows), Summaries(rows), r)
  {
    assert (rows + [r])[..|rows|] == rows;
  }

  /** A run of the community that names the metering point and has no summary yet opens a request. */
  lemma OpensRequest(s: Scope, rows: seq<Row>, r: Row, e: MeterRange)
    requires r.IsRunOf(s.ecId, s.tenants) && EntryOf(r.content.run.meters, s.meter) == Some(e)
    requires r.content.run.runId !in Summaries(rows)
    ensures Online(s, rows + [r]) == Supersede(s.cal, Online(s, rows), e, r.id) + [NewRequest(r, e, MAX_ID)]
    ensures Summaries(rows + [r]) == Summaries(rows)
  {
    OnlineSnoc(s, rows, r);
    SummariesSnoc(rows, r);
  }

  /** The first request of all. */
  lemma OpensFirst(s: Scope, r: Row, e: MeterRange)
    requires r.IsRunOf(s.ecId, s.tenants) && EntryOf(r.content.run.meters, s.meter) == Some(e)
    ensures Online(s, [r]) == [NewRequest(r, e, MAX_ID)] && Summaries([r]) == map[]
  {
    OpensRequest(s, [], r, e);
    assert [] + [r] == [r] && Supersede(s.cal, [], e, r.id) == [];
  }

  lemma FilterSnoc(rows: seq<Row>, r: Row, keep: Row -> bool)
    ensures Filter(rows + [r], keep) == if keep(r) then Filter(rows, keep) + [r] else Filter(rows, keep)
  {
    assert (rows + [r])[..|rows|] == rows;
  }

  lemma {:induction false} FilterSummaries(s: Scope, all: seq<Row>, n: nat, keep: Row -> bool, runId: string)
    requires n <= |all| && HasRunId(s, all, runId)
    requires DropsOnlyDroppable(s, all, keep)
    ensures ClosedAt(Summaries(Filter(all[..n], keep)), runId) == ClosedAt(Summaries(all[..n]), runId)
  {
    if n > 0 {
      FilterSummaries(s, all, n - 1, keep, runId);
      FilterSummariesStep(s, all, n - 1, keep, runId);
      TakeSnoc(all, n - 1);
    }
  }

  lemma FilterSummariesStep(s: Scope, all: seq<Row>, i: nat, keep: Row -> bool, runId: string)
    requires i < |all| && HasRunId(s, all, runId) && DropsOnlyDroppable(s, all, keep)
    requires ClosedAt(Summaries(Filter(all[..i], keep)), runId) == ClosedAt(Summaries(all[..i]), runId)
    ensures ClosedAt(Summaries(Filter(all[..i] + [all[i]], keep)), runId) == ClosedAt(Summaries(all[..i] + [all[i]]), runId)
  {
    FilterSnoc(all[..i], all[i], keep);
    SummariesSnoc(all[..i], all[i]);
    if keep(all[i]) {
      SummariesSnoc(Filter(all[..i], keep), all[i]);
    } else {
      assert Droppable(s, all, i);
    }
  }

  /** Rows that cannot matter to the community may be dropped. */
  lemma {:induction false} DropIneffective(s: Scope, all: seq<Row>, n: nat, keep: Row -> bool)
    requires n <= |all|
    requires DropsOnlyDroppable(s, all, keep)
    ensures Online(s, Filter(all[..n], keep)) == Online(s, all[..n])
  {
    if n > 0 {
      DropIneffective(s, all, n - 1, keep);
      DropIneffectiveStep(s, all, n - 1, keep);
      TakeSnoc(all, n - 1);
    }
  }

  lemma TakeSnoc(rows: seq<Row>, i: nat)
    requires i < |rows|
    ensures rows[..i + 1] == rows[..i] + [rows[i]]
  {
  }

  lemma DropIneffectiveStep(s: Scope, all: seq<Row>, i: nat, keep: Row -> bool)
    requires i < |all| && DropsOnlyDroppable(s, all, keep)
    requires Online(s, Filter(all[..i], keep)) == Online(s, all[..i])
    ensures Online(s, Filter(all[..i] + [all[i]], keep)) == Online(s, all[..i] + [all[i]])
  {
    FilterSnoc(all[..i], all[i], keep);
    if keep(all[i]) {
      KeepStep(s, all, i, keep);
      KeptAlike(s, all[..i], Filter(all[..i], keep), all[i]);
    } else {
      OnlineSnoc(s, all[..i], all[i]);
      DroppedStep(s, all, i, keep);
    }
  }

  lemma DroppedStep(s: Scope, all: seq<Row>, i: nat, keep: Row -> bool)
    requires i < |all| && DropsOnlyDroppable(s, all, keep) && !keep(all[i])
    ensures OnlineStep(s, Online(s, all[..i]), Summaries(all[..i]), all[i]) == Online(s, all[..i])
  {
    assert Droppable(s, all, i);
    DropStep(s, all, i);
  }

  lemma KeptAlike(s: Scope, all: seq<Row>, kept: seq<Row>, r: Row)
    requires Online(s, kept) == Online(s, all)
    requires OnlineStep(s, Online(s, all), Summaries(all), r) == OnlineStep(s, Online(s, all), Summaries(kept), r)
    ensures Online(s, kept + [r]) == Online(s, all + [r])
  {
    OnlineSnoc(s, all, r);
    OnlineSnoc(s, kept, r);
  }

  lemma KeepStep(s: Scope, all: seq<Row>, i: nat, keep: Row -> bool)
    requires i < |all| && DropsOnlyDroppable(s, all, keep)
    ensures OnlineStep(s, Online(s, all[..i]), Summaries(all[..i]), all[i]) ==
            OnlineStep(s, Online(s, all[..i]), Summaries(Filter(all[..i], keep)), all[i])
  {
    var r := all[i];
    if r.IsRunOf(s.ecId, s.tenants) {
      assert HasRunId(s, all, r.content.run.runId);
      FilterSummaries(s, all, i, keep, r.content.run.runId);
    }
  }

  lemma DropStep(s: Scope, all: seq<Row>, i: nat)
    requires i < |all| && Droppable(s, all, i)
    ensures OnlineStep(s, Online(s, all[..i]), Summaries(all[..i]), all[i]) == Online(s, all[..i])
  {
    var init, r := all[..i], all[i];
    if r.IsAnswerOf(s.tenants) {
      NoRunNoRequest(s, init);
      HandNobody(IsOpen, IdAnswer(r.id, r.content.answer), Count(r.content.answer.meters, s.meter));
    } else if r.IsSummary() {
      OnlineRunIds(s, init);
      forall q | q in Online(s, init)
        ensures q.runId != r.content.summary.runId
      {
        var j :| 0 <= j < |init| && init[j].IsRunOf(s.ecId, s.tenants) && init[j].content.run.runId == q.runId;
        assert all[j] == init[j];
      }
      assert CloseRun(Online(s, init), r.content.summary.runId, r.id) == Online(s, init);
    }
  }

  lemma {:induction false} HandNobody(takes: Request -> bool, a: IdAnswer, n: nat)
    ensures HandTimes([], takes, a, n) == []
  {
    if n > 0 {
      HandNobody(takes, a, n - 1);
    }
  }

  /** The attribution of a community needs only its tenants' rows, and answers only from its first run on. */
  lemma FilteredAlike(s: Scope, rows: seq<Row>, keep: Row -> bool)
    requires ValidRows(rows) && OneSummaryPerRun(rows)
    requires DropsOnlyDroppable(s, rows, keep)
    ensures TwoPass(s, Filter(rows, keep)) == TwoPass(s, rows)
  {
    assert rows[..|rows|] == rows;
    DropIneffective(s, rows, |rows|, keep);
    FilterValid(rows, keep);
    FilterOneSummary(rows, keep);
    TwoPassRefinesOnline(s, rows);
    TwoPassRefinesOnline(s, Filter(rows, keep));
  }

  // ----- cutting the log

  /** Open and without an answer: the request takes the next answer before any later one. */
  predicate IsWaiting(q: Request) {
    IsOpen(q) && q.answers == []
  }

  predicate NoneWaiting(reqs: seq<Request>) {
    forall q <- reqs :: !IsWaiting(q)
  }

  lemma {:induction false} FirstOpenShift(p: seq<Request>, y: seq<Request>, n: nat)
    requires NoneWaiting(p) && n <= |y|
    ensures FirstOpen(p + y, IsOpen, |p| + n) ==
            var k := FirstOpen(y, IsOpen, n); if k.Some? then Some(|p| + k.value) else None
  {
    if n == 0 {
      NoneWaitingFirst(p, p + y, |p|);
    } else {
      FirstOpenShift(p, y, n - 1);
      assert (p + y)[|p| + n - 1] == y[n - 1];
    }
  }

  lemma {:induction false} NoneWaitingFirst(p: seq<Request>, x: seq<Request>, n: nat)
    requires NoneWaiting(p) && p <= x && n <= |p|
    ensures FirstOpen(x, IsOpen, n) == None
  {
    if n > 0 {
      NoneWaitingFirst(p, x, n - 1);
      assert x[n - 1] == p[n - 1] && !IsWaiting(p[n - 1]);
    }
  }

  lemma {:induction false} NewestShift(p: seq<Request>, y: seq<Request>, n: nat)
    requires n <= |y|
    ensures var k := Newest(y, IsOpen, n);
            if k.Some? then Newest(p + y, IsOpen, |p| + n) == Some(|p| + k.value)
            else Newest(p + y, IsOpen, |p| + n) == Newest(p + y, IsOpen, |p|)
  {
    if n > 0 {
      NewestShift(p, y, n - 1);
      assert (p + y)[|p| + n - 1] == y[n - 1];
    }
  }

  lemma OwnerShift(p: seq<Request>, y: seq<Request>)
    requires NoneWaiting(p)
    ensures match Owner(y, IsOpen)
            case Some(k) => Owner(p + y, IsOpen) == Some(|p| + k)
            case None => Owner(p + y, IsOpen).Some? ==> Owner(p + y, IsOpen).value < |p|
  {
    FirstOpenShift(p, y, |y|);
    NewestShift(p, y, |y|);
  }

  lemma HandShift(p: seq<Request>, y: seq<Request>, a: IdAnswer)
    requires NoneWaiting(p)
    ensures var x := Hand(p + y, IsOpen, a);
            NoneWaiting(x[..|p|]) && x[|p|..] == Hand(y, IsOpen, a)
  {
    OwnerShift(p, y);
    match Owner(p + y, IsOpen)
    case None =>
    case Some(o) =>
      var q := (p + y)[o];
      var v := q.(answers := q.answers + [a]);
      if o < |p| {
        assert Hand(p + y, IsOpen, a) == p[o := v] + y;
      } else {
        assert Hand(p + y, IsOpen, a) == p + y[o - |p| := v];
      }
  }

  lemma {:induction false} HandTimesShift(p: seq<Request>, y: seq<Request>, a: IdAnswer, n: nat)
    requires NoneWaiting(p)
    ensures var x := HandTimes(p + y, IsOpen, a, n);
            NoneWaiting(x[..|p|]) && x[|p|..] == HandTimes(y, IsOpen, a, n)
  {
    if n > 0 {
      HandTimesShift(p, y, a, n - 1);
      var x := HandTimes(p + y, IsOpen, a, n - 1);
      assert x == x[..|p|] + x[|p|..];
      HandShift(x[..|p|], x[|p|..], a);
    }
  }

  /** A summary comes after its run. */
  predicate SummariesAfterRuns(rows: seq<Row>) {
    forall i, j :: 0 <= i < j < |rows| && rows[i].IsSummary() && rows[j].IsRun() ==>
      rows[j].content.run.runId != rows[i].content.summary.runId
  }

  lemma {:induction false} SummariesConcat(pre: seq<Row>, post: seq<Row>, runId: string)
    requires forall r <- pre :: r.IsSummary() ==> r.content.summary.runId != runId
    ensures ClosedAt(Summaries(pre + post), runId) == ClosedAt(Summaries(post), runId)
  {
    if post == [] {
      assert pre + post == pre;
      SummariesKeys(pre, runId);
    } else {
      assert (pre + post)[..|pre + post| - 1] == pre + post[..|post| - 1];
      SummariesConcat(pre, post[..|post| - 1], runId);
    }
  }

  lemma StepShift(s: Scope, p: seq<Request>, y: seq<Request>, closed: map<string, int>, closed': map<string, int>, r: Row)
    requires NoneWaiting(p)
    requires r.IsRun() ==> ClosedAt(closed, r.content.run.runId) == ClosedAt(closed', r.content.run.runId)
    ensures var x := OnlineStep(s, p + y, closed, r);
            && |p| <= |x| && NoneWaiting(x[..|p|]) && x[|p|..] == OnlineStep(s, y, closed', r)
  {
    var x := OnlineStep(s, p + y, closed, r);
    if r.IsRunOf(s.ecId, s.tenants) {
      match EntryOf(r.content.run.meters, s.meter)
      case None =>
      case Some(e) =>
        assert Supersede(s.cal, p + y, e, r.id) == Supersede(s.cal, p, e, r.id) + Supersede(s.cal, y, e, r.id);
        assert x[..|p|] == Supersede(s.cal, p, e, r.id);
    } else if r.IsAnswerOf(s.tenants) {
      HandTimesShift(p, y, IdAnswer(r.id, r.content.answer), Count(r.content.answer.meters, s.meter));
    } else if r.IsSummary() {
      var runId := r.content.summary.runId;
      assert CloseRun(p + y, runId, r.id) == CloseRun(p, runId, r.id) + CloseRun(y, runId, r.id);
      assert x[..|p|] == CloseRun(p, runId, r.id);
    }
  }

  /** When no request before the cut waits there, the runs after it get the same answers without the rows before. */
  lemma {:induction false} CutOnline(s: Scope, pre: seq<Row>, post: seq<Row>)
    requires SummariesAfterRuns(pre + post) && NoneWaiting(Online(s, pre))
    ensures |Online(s, pre)| <= |Online(s, pre + post)|
    ensures Online(s, pre + post)[|Online(s, pre)|..] == Online(s, post)
    ensures NoneWaiting(Online(s, pre + post)[..|Online(s, pre)|])
  {
    var d := |Online(s, pre)|;
    if post == [] {
      assert pre + post == pre;
    } else {
      var init, r := post[..|post| - 1], post[|post| - 1];
      var all := pre + post;
      assert all == (pre + init) + [r] && post == init + [r];
      SummariesPrefix(pre, post);
      CutOnline(s, pre, init);
      var x := Online(s, pre + init);
      assert x == x[..d] + x[d..];
      if r.IsRun() {
        SummariesBeforeRun(pre, post);
        SummariesConcat(pre, init, r.content.run.runId);
      }
      OnlineSnoc(s, pre + init, r);
      OnlineSnoc(s, init, r);
      StepShift(s, x[..d], x[d..], Summaries(pre + init), Summaries(init), r);
    }
  }

  lemma SummariesBeforeRun(pre: seq<Row>, post: seq<Row>)
    requires SummariesAfterRuns(pre + post) && post != [] && post[|post| - 1].IsRun()
    ensures forall q <- pre :: q.IsSummary() ==> q.content.summary.runId != post[|post| - 1].content.run.runId
  {
    var all := pre + post;
    assert all[|all| - 1] == post[|post| - 1];
    forall q | q in pre && q.IsSummary()
      ensures q.content.summary.runId != post[|post| - 1].content.run.runId
    {
      var i :| 0 <= i < |pre| && pre[i] == q;
      assert all[i] == q;
    }
  }

  lemma SummariesPrefix(pre: seq<Row>, post: seq<Row>)
    requires SummariesAfterRuns(pre + post) && post != []
    ensures SummariesAfterRuns(pre + post[..|post| - 1])
  {
    var all := pre + post;
    assert pre + post[..|post| - 1] == all[..|all| - 1];
  }

  /** A log of the program: ascending rows, one summary per run, written after it. */
  predicate IsLog(rows: seq<Row>) {
    ValidRows(rows) && OneSummaryPerRun(rows) && SummariesAfterRuns(rows)
  }

  /** The rows from the cut on give its runs what the whole log gives them. */
  predicate SameAfterCut(s: Scope, pre: seq<Row>, post: seq<Row>) {
    && |TwoPass(s, pre)| <= |TwoPass(s, pre + post)|
    && TwoPass(s, pre + post)[|TwoPass(s, pre)|..] == TwoPass(s, post)
  }

  lemma SplitLog(pre: seq<Row>, post: seq<Row>)
    requires IsLog(pre + post)
    ensures IsLog(pre) && IsLog(post)
  {
    var all := pre + post;
    assert forall i :: 0 <= i < |pre| ==> all[i] == pre[i];
    assert forall i :: 0 <= i < |post| ==> all[|pre| + i] == post[i];
    forall i, j | 0 <= i < j < |post|
      ensures post[i].id < post[j].id
    {
      assert all[|pre| + i].id < all[|pre| + j].id;
    }
  }

  /** The rows from a cut on attribute like the whole log if no request before the cut is open and unanswered there. */
  lemma CutKeepsLaterRuns(s: Scope, pre: seq<Row>, post: seq<Row>)
    requires IsLog(pre + post) && NoneWaiting(TwoPass(s, pre))
    ensures SameAfterCut(s, pre, post)
  {
    SplitLog(pre, post);
    TwoPassRefinesOnline(s, pre);
    TwoPassRefinesOnline(s, pre + post);
    TwoPassRefinesOnline(s, post);
    CutOnline(s, pre, post);
  }

  // ----- and only then

  /** A run of the tenant for one day, and one answer. */
  function RunAndAnswer(s: Scope, id: int, tenant: string, runId: string, ms: int, createdAt: int): seq<Row> {
    [Row(id, tenant, EnergyRequest, RunRow,
      Run(RunData(runId, s.ecId, ms, ms, createdAt, [MeterRange(s.meter, ms, ms)], [], true))),
     Row(id + 1, tenant, EdaProcess, MessageRow, Reply(Answer(true, [s.meter], [])))]
  }

  /** The next two rows are a new run, under an id no row has, and an answer. */
  predicate IsFresh(rows: seq<Row>, id: int, runId: string) {
    && 0 < id < MAX_ID - 1 && (forall r <- rows :: r.id < id)
    && (forall r <- rows :: r.IsRun() ==> r.content.run.runId != runId)
    && (forall r <- rows :: r.IsSummary() ==> r.content.summary.runId != runId)
  }

  lemma {:induction false} LongRunId(rows: seq<Row>) returns (runId: string)
    ensures runId != ""
    ensures forall r <- rows :: r.IsSummary() ==> |r.content.summary.runId| < |runId|
    ensures forall r <- rows :: r.IsRun() ==> |r.content.run.runId| < |runId|
  {
    if rows == [] {
      runId := "R";
    } else {
      var r := rows[|rows| - 1];
      var shorter := LongRunId(rows[..|rows| - 1]);
      assert rows == rows[..|rows| - 1] + [r];
      runId := shorter + if r.IsSummary() then r.content.summary.runId else if r.IsRun() then r.content.run.runId else "";
    }
  }

  lemma LogSnoc(rows: seq<Row>, r: Row)
    requires IsLog(rows) && (forall q <- rows :: q.id < r.id) && 0 < r.id < MAX_ID && !r.IsSummary()
    requires r.IsRun() ==> DistinctMeters(r.content.run.meters)
    requires r.IsRun() ==> forall q <- rows :: q.IsSummary() ==> q.content.summary.runId != r.content.run.runId
    ensures IsLog(rows + [r])
  {
    ValidSnoc(rows, r);
    var all := rows + [r];
    assert all[|rows|] == r;
    assert forall i :: 0 <= i < |rows| ==> all[i] == rows[i] && rows[i] in rows;
  }

  lemma RunAndAnswerIsLog(s: Scope, pre: seq<Row>, id: int, tenant: string, runId: string, ms: int, createdAt: int)
    requires IsLog(pre) && IsFresh(pre, id, runId)
    ensures IsLog(pre + RunAndAnswer(s, id, tenant, runId, ms, createdAt))
  {
    var post := RunAndAnswer(s, id, tenant, runId, ms, createdAt);
    LogSnoc(pre, post[0]);
    LogSnoc(pre + [post[0]], post[1]);
    assert pre + post == (pre + [post[0]]) + [post[1]];
  }

  /** The first that waits keeps the last from taking an answer. */
  lemma NotForTheLast(y: seq<Request>, i: nat, a: IdAnswer)
    requires i < |y| - 1 && IsWaiting(y[i])
    ensures HandTimes(y, IsOpen, a, 1)[|y| - 1].answers == y[|y| - 1].answers
  {
    assert HandTimes(y, IsOpen, a, 0) == y;
    FirstOpenBelow(y, i, |y|);
  }

  lemma ForTheOnly(q: Request, a: IdAnswer)
    requires IsWaiting(q)
    ensures HandTimes([q], IsOpen, a, 1)[0].answers == [a]
  {
    assert HandTimes([q], IsOpen, a, 0) == [q];
    FirstOpenBelow([q], 0, 1);
  }

  /** A request that waits takes that answer, although it belongs to the later run on the rows from the cut on. */
  lemma WaitingTakesNext(s: Scope, pre: seq<Row>, i: nat, id: int, tenant: string, runId: string, ms: int, createdAt: int)
    requires IsLog(pre) && IsFresh(pre, id, runId) && tenant in s.tenants
    requires i < |TwoPass(s, pre)| && IsWaiting(TwoPass(s, pre)[i]) && s.cal(TwoPass(s, pre)[i].to) < s.cal(ms)
    ensures !SameAfterCut(s, pre, RunAndAnswer(s, id, tenant, runId, ms, createdAt))
  {
    var post := RunAndAnswer(s, id, tenant, runId, ms, createdAt);
    RunAndAnswerIsLog(s, pre, id, tenant, runId, ms, createdAt);
    SplitLog(pre, post);
    TwoPassRefinesOnline(s, pre);
    TwoPassRefinesOnline(s, pre + post);
    TwoPassRefinesOnline(s, post);
    AnswerInLog(s, pre, i, id, tenant, runId, ms, createdAt);
    AnswerFromCut(s, id, tenant, runId, ms, createdAt);
  }

  lemma AnswerInLog(s: Scope, pre: seq<Row>, i: nat, id: int, tenant: string, runId: string, ms: int, createdAt: int)
    requires IsFresh(pre, id, runId) && tenant in s.tenants
    requires i < |Online(s, pre)| && IsWaiting(Online(s, pre)[i]) && s.cal(Online(s, pre)[i].to) < s.cal(ms)
    ensures var all, n := Online(s, pre + RunAndAnswer(s, id, tenant, runId, ms, createdAt)), |Online(s, pre)|;
            |all| == n + 1 && all[n].answers == []
  {
    var x, e := Online(s, pre), MeterRange(s.meter, ms, ms);
    var y := Supersede(s.cal, x, e, id) + [NewRequest(RunAndAnswer(s, id, tenant, runId, ms, createdAt)[0], e, MAX_ID)];
    RunAndAnswerOnline(s, pre, id, tenant, runId, ms, createdAt);
    assert y[i] == x[i];
    NotForTheLast(y, i, IdAnswer(id + 1, Answer(true, [s.meter], [])));
  }

  lemma AnswerFromCut(s: Scope, id: int, tenant: string, runId: string, ms: int, createdAt: int)
    requires IsFresh([], id, runId) && tenant in s.tenants
    ensures var all := Online(s, RunAndAnswer(s, id, tenant, runId, ms, createdAt));
            |all| == 1 && |all[0].answers| == 1
  {
    var post, e := RunAndAnswer(s, id, tenant, runId, ms, createdAt), MeterRange(s.meter, ms, ms);
    RunAndAnswerOnline(s, [], id, tenant, runId, ms, createdAt);
    assert [] + post == post;
    var q := NewRequest(post[0], e, MAX_ID);
    assert Supersede(s.cal, [], e, id) + [q] == [q];
    ForTheOnly(q, IdAnswer(id + 1, Answer(true, [s.meter], [])));
  }

  lemma RunAndAnswerOnline(s: Scope, pre: seq<Row>, id: int, tenant: string, runId: string, ms: int, createdAt: int)
    requires IsFresh(pre, id, runId) && tenant in s.tenants
    ensures var post := RunAndAnswer(s, id, tenant, runId, ms, createdAt);
            Online(s, pre + post) ==
            HandTimes(Supersede(s.cal, Online(s, pre), MeterRange(s.meter, ms, ms), id) +
                        [NewRequest(post[0], MeterRange(s.meter, ms, ms), MAX_ID)],
                      IsOpen, IdAnswer(id + 1, Answer(true, [s.meter], [])), 1)
  {
    var post := RunAndAnswer(s, id, tenant, runId, ms, createdAt);
    assert pre + post == (pre + [post[0]]) + [post[1]];
    SummariesKeys(pre, runId);
    assert runId !in Summaries(pre);
    OpensRequest(s, pre, post[0], MeterRange(s.meter, ms, ms));
    OnlineSnoc(s, pre + [post[0]], post[1]);
    assert [s.meter][..0] == [];
    assert Count([s.meter], s.meter) == 1;
  }

  lemma {:induction false} FirstOpenBelow(y: seq<Request>, i: nat, n: nat)
    requires i < n <= |y| && IsWaiting(y[i])
    ensures FirstOpen(y, IsOpen, n).Some? && FirstOpen(y, IsOpen, n).value <= i
  {
    if i < n - 1 {
      FirstOpenBelow(y, i, n - 1);
    }
  }

  /** A request stems from a row of one of the tenants. */
  lemma TenantOfRequest(s: Scope, rows: seq<Row>, q: Request) returns (tenant: string)
    requires q in Online(s, rows)
    ensures tenant in s.tenants
  {
    OnlineRunIds(s, rows);
    var i :| 0 <= i < |rows| && rows[i].IsRunOf(s.ecId, s.tenants) && rows[i].content.run.runId == q.runId;
    tenant := rows[i].tenant;
  }

  lemma WaitingDisagrees(s: Scope, pre: seq<Row>, id: int, runId: string, ms: int, createdAt: int) returns (tenant: string)
    requires IsLog(pre) && IsFresh(pre, id, runId) && !NoneWaiting(TwoPass(s, pre))
    requires forall q <- TwoPass(s, pre) :: s.cal(q.to) < s.cal(ms)
    ensures tenant in s.tenants && !SameAfterCut(s, pre, RunAndAnswer(s, id, tenant, runId, ms, createdAt))
  {
    var i :| 0 <= i < |TwoPass(s, pre)| && IsWaiting(TwoPass(s, pre)[i]);
    TwoPassRefinesOnline(s, pre);
    tenant := TenantOfRequest(s, pre, TwoPass(s, pre)[i]);
    WaitingTakesNext(s, pre, i, id, tenant, runId, ms, createdAt);
  }

  /** A cut keeps the answers of the runs after it, whatever rows follow, if and only if no request waits there. `later`
      is a time after all requests, and two more ids can follow. */
  lemma CutKeepsIffNoneWaiting(s: Scope, pre: seq<Row>, later: int)
    requires IsLog(pre) && (forall r <- pre :: r.id < MAX_ID - 2)
    requires forall q <- TwoPass(s, pre) :: s.cal(q.to) < s.cal(later)
    ensures NoneWaiting(TwoPass(s, pre)) <==> forall post :: IsLog(pre + post) ==> SameAfterCut(s, pre, post)
  {
    if NoneWaiting(TwoPass(s, pre)) {
      forall post | IsLog(pre + post)
        ensures SameAfterCut(s, pre, post)
      {
        CutKeepsLaterRuns(s, pre, post);
      }
    } else {
      var id := NextId(pre);
      var runId := LongRunId(pre);
      var tenant := WaitingDisagrees(s, pre, id, runId, later, 0);
      RunAndAnswerIsLog(s, pre, id, tenant, runId, later, 0);
    }
  }

  function NextId(rows: seq<Row>): int {
    if rows == [] then 1 else rows[|rows| - 1].id + 1
  }
}
