/** Leaving out a message against the attribution of the answers: what is hidden is counted by a summary of the tenant. */
module CollapseSoundness {
  import opened Wrappers
  import opened EnergyTypes
  import opened AttributionSpec
  import opened AttributionOnline
  import opened AttributionWindows
  import opened Belongings
  import opened AttributionCuts
  import opened EnergyRows
  import opened Collapsing

  /** Rows as the program stores them: run ids are not empty, summaries are messages. */
  predicate Stored(rows: seq<Row>) {
    && ValidRows(rows) && OneSummaryPerRun(rows)
    && (forall r <- rows :: r.IsRun() ==> r.content.run.runId != "")
    && (forall r <- rows :: r.content.Closing? ==> r.IsSummary())
  }

  /** The row of the run of request `k`, and where the request ends. */
  lemma RequestOf(s: Scope, rows: seq<Row>, k: nat, a: IdAnswer) returns (i: nat)
    requires Stored(rows) && k < |TwoPass(s, rows)| && a in TwoPass(s, rows)[k].answers
    ensures i < |rows| && rows[i].IsRunOf(s.ecId, s.tenants) && rows[i].id == TwoPass(s, rows)[k].rowId
    ensures exists e <- rows[i].content.run.meters :: e.meter == s.meter
    ensures rows[i].id < a.id <= ClosedAt(Summaries(rows), rows[i].content.run.runId)
    ensures s.meter in a.answer.meters && a in AnswersOf(s.tenants, rows)
  {
    var reqs := TwoPass(s, rows);
    RequestAnswers(s, rows);
    WindowsOfRequests(s, rows, k);
    var e;
    i, e := RequestsAreRuns(s, rows, k);
    assert Fits(s.meter, reqs[k], a);
  }

  /** The runs that counted when the message was listed: young enough, and summarised or still open. */
  predicate Fresh(v: View, r: Row, date: int)
    requires r.IsRun()
  {
    && date - r.content.run.createdAt <= 25 * 3_600_000
    && (r.content.run.noSummary || r.content.run.runId in v.summaries || v.now - r.content.run.createdAt < 24 * 3_600_000)
  }

  /** Hide considers the run an answer belongs to exactly when that run is fresh. */
  lemma OwnerIsConsidered(s: Scope, rows: seq<Row>, tenant: string, v: View, k: nat, a: IdAnswer, date: int)
    returns (i: nat)
    requires Stored(rows) && SummariesAtHome(s, rows) && KnowsAll(v, tenant, s.tenants, rows)
    requires k < |TwoPass(s, rows)| && a in TwoPass(s, rows)[k].answers
    ensures i < |rows| && rows[i].IsRunOf(s.ecId, s.tenants) && rows[i].id == TwoPass(s, rows)[k].rowId
    ensures rows[i].id in OwnersAt(v, Message(a.id, date, Reply(a.answer)), s.meter) <==> Fresh(v, rows[i], date)
  {
    i := RequestOf(s, rows, k, a);
    var m := Message(a.id, date, Reply(a.answer));
    var r := rows[i];
    var runId := r.content.run.runId;
    assert r in rows && IsRunIn(r, s.tenants);
    assert r.id in v.runs && v.runs[r.id] == RunOf(tenant, r);
    assert s.meter in v.runs[r.id].meters;
    if runId in v.summaries {
      BeforeSummary(s, rows, tenant, v, a, runId);
    }
  }

  /** An answer in a request's rows comes before the summary of its run. */
  lemma BeforeSummary(s: Scope, rows: seq<Row>, tenant: string, v: View, a: IdAnswer, runId: string)
    requires Stored(rows) && KnowsAll(v, tenant, s.tenants, rows) && runId in v.summaries
    requires a in AnswersOf(s.tenants, rows) && a.id <= ClosedAt(Summaries(rows), runId)
    ensures a.id < v.summaries[runId]
  {
    var c :| c in rows && IsClosingIn(c, s.tenants) && c.content.summary.runId == runId;
    SummaryRow(rows, c);
    var j := AnswersAreRows(s.tenants, rows, a);
    assert v.summaries[runId] == c.id && a.id != c.id;
  }

  /** The closing row is the row of the run's summary. */
  lemma {:induction false} SummaryRow(rows: seq<Row>, c: Row)
    requires OneSummaryPerRun(rows) && c in rows && c.IsSummary()
    ensures ClosedAt(Summaries(rows), c.content.summary.runId) == c.id
  {
    var init, r := rows[..|rows| - 1], rows[|rows| - 1];
    assert rows == init + [r];
    if r != c {
      assert c in init;
      SummaryRow(init, c);
      var i :| 0 <= i < |init| && init[i] == c;
      assert rows[i] == c;
    }
  }

  /** A hidden answer that belongs to a fresh run belongs to a summarised run of the listed tenant. */
  lemma HiddenAnswersAreOwn(s: Scope, rows: seq<Row>, tenant: string, v: View, k: nat, a: IdAnswer, date: int)
    returns (i: nat)
    requires Stored(rows) && SummariesAtHome(s, rows) && KnowsAll(v, tenant, s.tenants, rows)
    requires k < |TwoPass(s, rows)| && a in TwoPass(s, rows)[k].answers
    requires Hides(v, Message(a.id, date, Reply(a.answer)))
    ensures i < |rows| && rows[i].IsRunOf(s.ecId, s.tenants) && rows[i].id == TwoPass(s, rows)[k].rowId
    ensures Fresh(v, rows[i], date) ==> !rows[i].content.run.noSummary && EqualFold(rows[i].tenant, tenant)
  {
    i := OwnerIsConsidered(s, rows, tenant, v, k, a, date);
    var j := RequestOf(s, rows, k, a);
    var m := Message(a.id, date, Reply(a.answer));
    assert s.meter in MetersOf(m.content);
    assert Covered(v, m, s.meter);
    assert rows[i] in rows && IsRunIn(rows[i], s.tenants);
    assert Fresh(v, rows[i], date) ==> v.runs[rows[i].id].own;
  }

  /** The answer was handed to a request for the metering point whose run counted when the message was listed. */
  predicate HasFreshOwner(s: Scope, rows: seq<Row>, v: View, a: IdAnswer, date: int) {
    exists k, i ::
      && 0 <= k < |TwoPass(s, rows)| && a in TwoPass(s, rows)[k].answers
      && 0 <= i < |rows| && rows[i].id == TwoPass(s, rows)[k].rowId && rows[i].IsRun() && Fresh(v, rows[i], date)
  }

  /** A fresh owner is among the runs that Hide considers for its metering point. */
  lemma FreshOwnerIsConsidered(s: Scope, rows: seq<Row>, tenant: string, v: View, a: IdAnswer, date: int)
    requires Stored(rows) && SummariesAtHome(s, rows) && KnowsAll(v, tenant, s.tenants, rows)
    requires HasFreshOwner(s, rows, v, a, date)
    ensures exists id :: id in OwnersAt(v, Message(a.id, date, Reply(a.answer)), s.meter)
  {
    var k, i :| && 0 <= k < |TwoPass(s, rows)| && a in TwoPass(s, rows)[k].answers
                && 0 <= i < |rows| && rows[i].id == TwoPass(s, rows)[k].rowId && rows[i].IsRun() && Fresh(v, rows[i], date);
    var j := OwnerIsConsidered(s, rows, tenant, v, k, a, date);
    assert i == j;
  }

  /** When an answer is hidden: if each of its metering points has a fresh owner, then exactly when every run that could
      own the answer for one of them is a summarised run of the listed tenant. */
  lemma HiddenIffAllOwn(s: Scope, rows: seq<Row>, tenant: string, v: View, a: IdAnswer, date: int)
    requires Stored(rows) && SummariesAtHome(s, rows) && KnowsAll(v, tenant, s.tenants, rows) && a.answer.meters != []
    requires forall x <- a.answer.meters :: HasFreshOwner(s.(meter := x), rows, v, a, date)
    ensures var m := Message(a.id, date, Reply(a.answer));
            Hides(v, m) <==> forall x <- a.answer.meters, id <- OwnersAt(v, m, x) :: v.runs[id].own
  {
    var m := Message(a.id, date, Reply(a.answer));
    forall x | x in a.answer.meters
      ensures exists id :: id in OwnersAt(v, m, x)
    {
      FreshOwnerAt(s, rows, tenant, v, a, date, x);
    }
    HidesWithOwners(v, m);
  }

  lemma FreshOwnerAt(s: Scope, rows: seq<Row>, tenant: string, v: View, a: IdAnswer, date: int, meter: string)
    requires Stored(rows) && SummariesAtHome(s, rows) && KnowsAll(v, tenant, s.tenants, rows)
    requires HasFreshOwner(s.(meter := meter), rows, v, a, date)
    ensures exists id :: id in OwnersAt(v, Message(a.id, date, Reply(a.answer)), meter)
  {
    SameHome(s, rows, meter);
    FreshOwnerIsConsidered(s.(meter := meter), rows, tenant, v, a, date);
  }

  lemma HidesWithOwners(v: View, m: Message)
    requires Collapsible(m.content) && MetersOf(m.content) != []
    requires forall x <- MetersOf(m.content) :: exists id :: id in OwnersAt(v, m, x)
    ensures Hides(v, m) <==> forall x <- MetersOf(m.content), id <- OwnersAt(v, m, x) :: v.runs[id].own
  {
    assert forall x <- MetersOf(m.content) :: Covered(v, m, x) <==> forall id <- OwnersAt(v, m, x) :: v.runs[id].own;
  }

  lemma SameHome(s: Scope, rows: seq<Row>, meter: string)
    ensures SummariesAtHome(s.(meter := meter), rows) <==> SummariesAtHome(s, rows)
  {
    forall runId
      ensures HasRunId(s.(meter := meter), rows, runId) <==> HasRunId(s, rows, runId)
    {
    }
  }

  // ----- neither freshness nor the converse can be had

  const HOME: Scope := Scope((ms: int) => ms / DEADLINE, "EC", {"T"}, "M")
  const ACCEPTED: Answer := Answer(true, ["M"], [])

  function RunAt(id: int, runId: string, day: int, createdAt: int, noSummary: bool): Row {
    Row(id, "T", EnergyRequest, RunRow,
        Run(RunData(runId, "EC", day * DEADLINE, day * DEADLINE, createdAt,
                    [MeterRange("M", day * DEADLINE, day * DEADLINE)], [], noSummary)))
  }

  /** Two runs of the tenant for different days, the second created at `at`, and one answer. */
  function TwoRuns(first: bool, second: bool, at: int): seq<Row> {
    [RunAt(1, "R1", 0, 0, first), RunAt(2, "R2", 1, at, second), Row(3, "T", EdaProcess, MessageRow, Reply(ACCEPTED))]
  }

  function TwoRunsView(first: bool, second: bool, at: int, now: int): View {
    View(now, map[1 := CollapseRun(1, "R1", 0, !first, !first, {"M"}),
                  2 := CollapseRun(2, "R2", at, !second, !second, {"M"})], map[])
  }

  lemma TwoRunsStored(first: bool, second: bool, at: int)
    ensures Stored(TwoRuns(first, second, at)) && SummariesAtHome(HOME, TwoRuns(first, second, at))
  {
    var rows := TwoRuns(first, second, at);
    assert forall i :: 0 <= i < |rows| ==> !rows[i].content.Closing?;
  }

  lemma TwoRunsKnown(first: bool, second: bool, at: int, now: int)
    ensures KnowsAll(TwoRunsView(first, second, at, now), "T", {"T"}, TwoRuns(first, second, at))
  {
    var rows, v := TwoRuns(first, second, at), TwoRunsView(first, second, at, now);
    assert IsRunIn(rows[0], {"T"}) && IsRunIn(rows[1], {"T"}) && ToUpper("T") == ToUpper("T");
    MetersOfRun(rows[0]);
    MetersOfRun(rows[1]);
    assert v.runs[1] == RunOf("T", rows[0]) && v.runs[2] == RunOf("T", rows[1]);
    forall r <- rows
      ensures !IsClosingIn(r, {"T"}) && (IsRunIn(r, {"T"}) ==> r.id in v.runs && v.runs[r.id] == RunOf("T", r))
    {
    }
  }

  lemma MetersOfRun(r: Row)
    requires r.IsRun() && |r.content.run.meters| == 1 && r.content.run.meters[0].meter == "M"
    ensures RunOf("T", r).meters == {"M"}
  {
    assert r.content.run.meters[0] in r.content.run.meters;
  }

  /** Both runs are open when the answer comes. */
  lemma TwoRunsOpen(first: bool, second: bool, at: int)
    ensures var rows := TwoRuns(first, second, at);
            Online(HOME, rows[..2]) == [NewRequest(rows[0], rows[0].content.run.meters[0], MAX_ID),
                                        NewRequest(rows[1], rows[1].content.run.meters[0], MAX_ID)]
  {
    var rows := TwoRuns(first, second, at);
    OpensFirst(HOME, rows[0], rows[0].content.run.meters[0]);
    OpensRequest(HOME, [rows[0]], rows[1], rows[1].content.run.meters[0]);
    assert [rows[0]] + [rows[1]] == rows[..2];
  }

  /** The first run has no answer yet, so it gets the answer. */
  lemma FirstRunAnswered(first: bool, second: bool, at: int)
    ensures var reqs := TwoPass(HOME, TwoRuns(first, second, at));
            |reqs| == 2 && reqs[0].rowId == 1 && reqs[0].answers == [IdAnswer(3, ACCEPTED)]
  {
    var rows := TwoRuns(first, second, at);
    TwoRunsStored(first, second, at);
    TwoPassRefinesOnline(HOME, rows);
    TwoRunsOpen(first, second, at);
    OnlineSnoc(HOME, rows[..2], rows[2]);
    assert rows[..2] + [rows[2]] == rows;
    assert ACCEPTED.meters[..0] == [];
    HandedOnce(Online(HOME, rows[..2]), IdAnswer(3, ACCEPTED));
  }

  /** An unanswered NoSummary request of two days ago gets the answer, the answer is hidden all the same. */
  lemma NotFreshCanBeHidden()
    ensures var rows, v := TwoRuns(true, false, 50 * HOUR), TwoRunsView(true, false, 50 * HOUR, 52 * HOUR);
            && Stored(rows) && SummariesAtHome(HOME, rows) && KnowsAll(v, "T", {"T"}, rows)
            && |TwoPass(HOME, rows)| == 2 && IdAnswer(3, ACCEPTED) in TwoPass(HOME, rows)[0].answers
            && rows[0].id == TwoPass(HOME, rows)[0].rowId && rows[0].content.run.noSummary
            && Hides(v, Message(3, 51 * HOUR, Reply(ACCEPTED)))
  {
    var v := TwoRunsView(true, false, 50 * HOUR, 52 * HOUR);
    TwoRunsStored(true, false, 50 * HOUR);
    TwoRunsKnown(true, false, 50 * HOUR, 52 * HOUR);
    FirstRunAnswered(true, false, 50 * HOUR);
    assert 2 in OwnersAt(v, Message(3, 51 * HOUR, Reply(ACCEPTED)), "M");
  }

  /** An answer of a fresh summarised run of the tenant stays visible when a NoSummary run could own it too. */
  lemma OwnCanStayVisible()
    ensures var rows, v := TwoRuns(false, true, HOUR), TwoRunsView(false, true, HOUR, 3 * HOUR);
            && Stored(rows) && SummariesAtHome(HOME, rows) && KnowsAll(v, "T", {"T"}, rows)
            && |TwoPass(HOME, rows)| == 2 && IdAnswer(3, ACCEPTED) in TwoPass(HOME, rows)[0].answers
            && rows[0].id == TwoPass(HOME, rows)[0].rowId && !rows[0].content.run.noSummary
            && Fresh(v, rows[0], 2 * HOUR) && !Hides(v, Message(3, 2 * HOUR, Reply(ACCEPTED)))
  {
    var v := TwoRunsView(false, true, HOUR, 3 * HOUR);
    TwoRunsStored(false, true, HOUR);
    TwoRunsKnown(false, true, HOUR, 3 * HOUR);
    FirstRunAnswered(false, true, HOUR);
    assert 2 in OwnersAt(v, Message(3, 2 * HOUR, Reply(ACCEPTED)), "M");
    assert "M" in ACCEPTED.meters;
  }
}
