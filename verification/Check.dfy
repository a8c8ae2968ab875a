/** Check: evaluates the open runs and closes the finished ones, beside everything else that writes the table
    (energyrequest/tracker.go). */
module Checking {
  import opened Wrappers
  import opened EnergyTypes
  import opened AttributionSpec
  import opened AttributionOnline
  import opened Attribution
  import opened AttributionCuts
  import opened EnergyRows
  import opened Evaluation
  import opened Locks
  import opened CloseProtocol

  // ----- what a check does with the rows it read

  /** A run that is looked at: not closed in the rows read, and with a summary. */
  predicate IsConsidered(r: Row, closed: map<string, int>) {
    r.IsRun() && r.content.run.runId !in closed && !r.content.run.noSummary
  }

  function CommunityKey(r: Row): string
    requires r.IsRun()
  {
    ToUpper(r.content.run.ecId)
  }

  /** The first considered run of a community: its spelling of the community id and its tenant count. */
  function Lead(rows: seq<Row>, closed: map<string, int>, key: string): (lead: Option<Row>)
    ensures lead.Some? ==> lead.value.IsRun() && CommunityKey(lead.value) == key
  {
    if rows == [] then None
    else
      var lead, r := Lead(rows[..|rows| - 1], closed, key), rows[|rows| - 1];
      if lead.Some? then lead
      else if IsConsidered(r, closed) && CommunityKey(r) == key then Some(r) else None
  }

  /** TenantsByEcId; None for an error. */
  type Tenants = string -> Option<set<string>>

  function CommunityOf(lead: Row, tenantsOf: Tenants): set<string>
    requires lead.IsRun()
  {
    var list := tenantsOf(lead.content.run.ecId);
    {lead.tenant} + if list.Some? then list.value else {}
  }

  /** What a check finds about a considered run, on the rows it read. */
  function Found(cal: Calendar, rows: seq<Row>, tenantsOf: Tenants, lead: Row, r: Row): Findings
    requires lead.IsRun()
  {
    FindingsOf(cal, lead.content.run.ecId, CommunityOf(lead, tenantsOf), rows, r.id)
  }

  datatype Attempt = Attempt(rowId: int, tenant: string, summary: Summary)

  function SummaryFor(run: RunData, f: Findings): (s: Summary)
    ensures IsSummaryOf(s, run, run.meters, f)
  {
    Summary(run.runId, run.from, run.to, |run.meters|, Select(run.meters, f, Accepted),
            Refusals(Select(run.meters, f, Refused), f), Names(Select(run.meters, f, NoAnswer)), run.skipped,
            Names(Select(run.meters, f, Superseded)), false)
  }

  /** Closing a considered run that is done. */
  function AttemptFor(cal: Calendar, rows: seq<Row>, tenantsOf: Tenants, now: int, lead: Row, r: Row): Option<Attempt>
    requires lead.IsRun() && r.IsRun()
  {
    var run, f := r.content.run, Found(cal, rows, tenantsOf, lead, r);
    if Done(run, f, now) then Some(Attempt(r.id, r.tenant, SummaryFor(run, f))) else None
  }

  /** What a check would do with a run, given the first run of its community. */
  type Decision = (Row, Row) -> Option<Attempt>

  function Decide(cal: Calendar, rows: seq<Row>, tenantsOf: Tenants, now: int): Decision {
    (lead: Row, r: Row) => if lead.IsRun() && r.IsRun() then AttemptFor(cal, rows, tenantsOf, now, lead, r) else None
  }

  /** The closings a check attempts for the first `n` rows, in row order. */
  function Attempts(decide: Decision, rows: seq<Row>, closed: map<string, int>, n: nat): seq<Attempt>
    requires n <= |rows|
  {
    if n == 0 then []
    else
      var prev, r := Attempts(decide, rows, closed, n - 1), rows[n - 1];
      if !IsConsidered(r, closed) then prev
      else match Lead(rows[..n], closed, CommunityKey(r))
        case None => prev
        case Some(lead) => if decide(lead, r).Some? then prev + [decide(lead, r).value] else prev
  }

  lemma LeadStep(rows: seq<Row>, closed: map<string, int>, n: nat, key: string)
    requires n < |rows|
    ensures Lead(rows[..n + 1], closed, key) ==
            if Lead(rows[..n], closed, key).Some? then Lead(rows[..n], closed, key)
            else if IsConsidered(rows[n], closed) && CommunityKey(rows[n]) == key then Some(rows[n]) else None
  {
    assert rows[..n + 1][..n] == rows[..n];
  }

  // ----- the attributions, one per community

  datatype Community = Community(tenants: set<string>, attribution: map<RequestKey, RequestNode>)

  ghost function Nodes(cache: map<string, Community>): set<RequestNode> {
    set k, n | k in cache && n in cache[k].attribution.Values :: n
  }

  /** The cache has the communities met so far, each attributed with the tenants of its first considered run. */
  ghost predicate Holds(cache: map<string, Community>, cal: Calendar, rows: seq<Row>, tenantsOf: Tenants,
                        closed: map<string, int>, n: nat)
    requires n <= |rows|
    reads Nodes(cache)
  {
    forall key {:trigger key in cache} :: (key in cache <==> Lead(rows[..n], closed, key).Some?) && (key in cache ==>
      (assert forall x <- cache[key].attribution.Values :: x in Nodes(cache);
       IsAttribution(cache[key].attribution, cal, Lead(rows[..n], closed, key).value.content.run.ecId,
                     CommunityOf(Lead(rows[..n], closed, key).value, tenantsOf), rows)))
  }

  lemma HoldsSkip(cache: map<string, Community>, cal: Calendar, rows: seq<Row>, tenantsOf: Tenants,
                  closed: map<string, int>, n: nat)
    requires n < |rows| && Holds(cache, cal, rows, tenantsOf, closed, n)
    requires !IsConsidered(rows[n], closed) || Lead(rows[..n], closed, CommunityKey(rows[n])).Some?
    ensures Holds(cache, cal, rows, tenantsOf, closed, n + 1)
  {
    forall key
      ensures Lead(rows[..n + 1], closed, key) == Lead(rows[..n], closed, key)
    {
      LeadStep(rows, closed, n, key);
    }
  }

  /** The attribution of a considered run's community: known already, or computed with the community's tenants. */
  method LookUp(cache: map<string, Community>, cal: Calendar, rows: seq<Row>, tenantsOf: Tenants,
                closed: map<string, int>, n: nat)
    returns (err: bool, c: Community, cache': map<string, Community>)
    requires ValidRows(rows) && closed == Summaries(rows) && n < |rows| && IsConsidered(rows[n], closed)
    requires Holds(cache, cal, rows, tenantsOf, closed, n)
    ensures !err ==> Holds(cache', cal, rows, tenantsOf, closed, n + 1)
    ensures var lead := Lead(rows[..n + 1], closed, CommunityKey(rows[n]));
            lead.Some?
            && (!err ==> IsAttribution(c.attribution, cal, lead.value.content.run.ecId, CommunityOf(lead.value, tenantsOf), rows))
  {
    var r := rows[n];
    var key := CommunityKey(r);
    LeadStep(rows, closed, n, key);
    if key in cache {
      HoldsSkip(cache, cal, rows, tenantsOf, closed, n);
      return false, cache[key], cache;
    }
    assert Lead(rows[..n], closed, key).None?;
    var list := tenantsOf(r.content.run.ecId);
    if list.None? {
      return true, Community({}, map[]), cache;
    }
    var tenants := {r.tenant} + list.value;
    var a := Attribute(cal, r.content.run.ecId, rows, tenants, closed);
    err, c, cache' := false, Community(tenants, a), cache[key := Community(tenants, a)];
    forall k
      ensures k in cache' <==> Lead(rows[..n + 1], closed, k).Some?
      ensures k in cache' ==> IsAttribution(cache'[k].attribution, cal, Lead(rows[..n + 1], closed, k).value.content.run.ecId,
                                            CommunityOf(Lead(rows[..n + 1], closed, k).value, tenantsOf), rows)
    {
      LeadStep(rows, closed, n, k);
      assert k in cache <==> Lead(rows[..n], closed, k).Some?;
    }
  }

  /** The summary of the run in row `n` and whether it can be closed. */
  method EvaluateRow(c: Community, cal: Calendar, rows: seq<Row>, tenantsOf: Tenants, now: int, ghost lead: Row, r: Row)
    returns (s: Summary, done: bool)
    requires lead.IsRun() && r.IsRun()
    requires IsAttribution(c.attribution, cal, lead.content.run.ecId, CommunityOf(lead, tenantsOf), rows)
    ensures AttemptFor(cal, rows, tenantsOf, now, lead, r) == if done then Some(Attempt(r.id, r.tenant, s)) else None
  {
    ghost var f := Found(cal, rows, tenantsOf, lead, r);
    forall m
      ensures BelongingOf(c.attribution, r.id, m) == f(m)
    {
    }
    s, done := Evaluate(r.content.run, r.id, c.attribution, now, f);
    OneSummaryOf(s, SummaryFor(r.content.run, f), r.content.run, f);
  }

  lemma OneSummaryOf(s: Summary, t: Summary, run: RunData, f: Findings)
    requires IsSummaryOf(s, run, run.meters, f) && IsSummaryOf(t, run, run.meters, f)
    ensures s == t
  {
  }

  // ----- the table

  class Table {
    var log: seq<DbRow>
    var lastId: int
    ghost var saved: map<string, int>

    ghost function Now(): State
      reads this
    {
      State(log, saved, lastId)
    }

    /** Whatever requests, other checks and other instances do meanwhile: callers know only that it is made of steps. */
    method Others()
      requires Inv(Now())
      modifies this
      ensures Reaches(old(Now()), Now())
    {
      ReachesSelf(Now());
    }

    method SummaryExists(rowId: int, runId: string) returns (found: bool)
      ensures found <==> SummaryAfter(log, rowId, runId)
    {
      found := false;
      for i := 0 to |log|
        invariant forall d <- log[..i] :: !(rowId < d.row.id && d.row.IsSummary() && d.row.content.summary.runId == runId)
      {
        assert log[..i + 1] == log[..i] + [log[i]];
        if rowId < log[i].row.id && log[i].row.IsSummary() && log[i].row.content.summary.runId == runId {
          assert log[i] in log;
          return true;
        }
      }
      assert log[..|log|] == log;
    }

    /** Writes the summary of the run read in row `rowId` unless there is one, in one transaction; `fails` for an error
        of the database. */
    method CloseEnergyRequest(tenant: string, rowId: int, summary: Summary, date: int, fails: bool)
      returns (inserted: bool, err: bool)
      requires Inv(Now()) && summary.runId in saved && saved[summary.runId] == rowId
      modifies this
      ensures (fails ==> err) && (err ==> fails || old(lastId) + 1 >= MAX_ID)
      ensures err ==> Now() == old(Now()) && !inserted
      ensures !err ==> Close(old(Now()), Now(), rowId, ClosingRow(old(lastId) + 1, tenant, summary, date))
                       && HasSummary(log, summary.runId)
      ensures inserted <==> Now() != old(Now())
      ensures inserted ==> !err && |log| == |old(log)| + 1 && log[..|old(log)|] == old(log)
                           && IsClosingRow(log[|old(log)|], tenant, summary, date)
      ensures !inserted && !err ==>
              exists d <- log :: rowId < d.row.id && d.row.rowType == MessageRow && IsSummaryFor(d.row, summary.runId)
    {
      if fails {
        return false, true;
      }
      var exists' := SummaryExists(rowId, summary.runId);
      if exists' {
        return false, false;
      }
      if lastId + 1 >= MAX_ID {
        return false, true;
      }
      var d := ClosingRow(lastId + 1, tenant, summary, date);
      log, lastId := log + [d], lastId + 1;
      assert d in log;
      return true, false;
    }
  }

  /** A message of the tenant that holds the summary. */
  predicate IsClosingRow(d: DbRow, tenant: string, summary: Summary, date: int) {
    && d.row.tenant == tenant && d.row.process == EdaProcess && d.row.rowType == MessageRow
    && d.row.content == Closing(summary) && d.date == date
  }

  predicate IsSummaryFor(r: Row, runId: string) {
    r.content.Closing? && r.content.summary.runId == runId
  }

  function ClosingRow(id: int, tenant: string, summary: Summary, date: int): DbRow {
    DbRow(Row(id, tenant, EdaProcess, MessageRow, Closing(summary)), date)
  }

  // ----- the check

  /** A row that was read was in the table, so its run id is saved. */
  lemma ReadRunIsSaved(s: State, now: int, r: Row)
    requires Inv(s) && r in Read(s.log, None, now) && r.IsRun()
    ensures r.content.run.runId in s.saved && s.saved[r.content.run.runId] == r.id
  {
    assert r in RowsOf(s.log);
    var i :| 0 <= i < |s.log| && RowsOf(s.log)[i] == r;
    assert s.log[i] in s.log;
  }

  lemma ReadIsValid(s: State, now: int)
    requires Inv(s)
    ensures ValidRows(Read(s.log, None, now))
  {
    InvMeans(s);
    var bound := Bound(s.log, now - LOOK_BACK);
    FilterValid(RowsOf(s.log), Selected(bound, FirstRun(RowsOf(s.log), bound, None), None));
  }

  ghost predicate AllClosed(log: seq<DbRow>, attempts: seq<Attempt>) {
    forall a <- attempts :: HasSummary(log, a.summary.runId)
  }

  lemma StaysClosed(s: State, t: State, attempts: seq<Attempt>)
    requires Keeps(s, t) && AllClosed(s.log, attempts)
    ensures AllClosed(t.log, attempts)
  {
  }

  /** Closing after anything else may have happened; `attempts` are the closings so far. */
  method CloseAmongOthers(table: Table, a: Attempt, date: int, fails: bool, ghost attempts: seq<Attempt>)
    returns (err: bool, ghost attempts': seq<Attempt>)
    requires Inv(table.Now()) && AllClosed(table.log, attempts)
    requires a.summary.runId in table.saved && table.saved[a.summary.runId] == a.rowId
    modifies table
    ensures Inv(table.Now()) && Reaches(old(table.Now()), table.Now()) && AllClosed(table.log, attempts')
    ensures !err ==> attempts' == attempts + [a]
  {
    ghost var before := table.Now();
    table.Others();
    ghost var mid := table.Now();
    AfterOthers(before, mid, a, attempts);
    ghost var d := ClosingRow(table.lastId + 1, a.tenant, a.summary, date);
    var inserted;
    inserted, err := table.CloseEnergyRequest(a.tenant, a.rowId, a.summary, date, fails);
    attempts' := attempts;
    if !err {
      AfterClose(before, mid, table.Now(), a, d, attempts);
      attempts' := attempts + [a];
    }
  }

  lemma AfterOthers(s: State, t: State, a: Attempt, attempts: seq<Attempt>)
    requires Inv(s) && Reaches(s, t) && AllClosed(s.log, attempts)
    requires a.summary.runId in s.saved && s.saved[a.summary.runId] == a.rowId
    ensures Inv(t) && AllClosed(t.log, attempts) && a.summary.runId in t.saved && t.saved[a.summary.runId] == a.rowId
  {
    ReachesKeeps(s, t);
    StaysClosed(s, t, attempts);
  }

  lemma AfterClose(s: State, t: State, u: State, a: Attempt, d: DbRow, attempts: seq<Attempt>)
    requires Inv(s) && Reaches(s, t) && Close(t, u, a.rowId, d) && AllClosed(t.log, attempts)
    requires HasSummary(u.log, a.summary.runId)
    ensures Inv(u) && Reaches(s, u) && AllClosed(u.log, attempts + [a])
  {
    ClosedStep(s, t, u, a.rowId, d);
    StaysClosed(t, u, attempts);
  }

  /** One row of the check: what to close, if anything. */
  method CheckRow(cache: map<string, Community>, cal: Calendar, rows: seq<Row>, tenantsOf: Tenants, now: int,
                  closed: map<string, int>, n: nat, ghost decide: Decision)
    returns (err: bool, cache': map<string, Community>, a: Option<Attempt>)
    requires decide == Decide(cal, rows, tenantsOf, now) && ValidRows(rows) && closed == Summaries(rows) && n < |rows|
    requires Holds(cache, cal, rows, tenantsOf, closed, n)
    ensures !err ==> Holds(cache', cal, rows, tenantsOf, closed, n + 1)
    ensures !err ==> Attempts(decide, rows, closed, n + 1) ==
                     Attempts(decide, rows, closed, n) + if a.Some? then [a.value] else []
    ensures a.Some? ==> rows[n].IsRun() && a.value.rowId == rows[n].id && a.value.summary.runId == rows[n].content.run.runId
  {
    var r := rows[n];
    if !IsConsidered(r, closed) {
      HoldsSkip(cache, cal, rows, tenantsOf, closed, n);
      return false, cache, None;
    }
    var c;
    err, c, cache' := LookUp(cache, cal, rows, tenantsOf, closed, n);
    if err {
      return true, cache', None;
    }
    ghost var lead := Lead(rows[..n + 1], closed, CommunityKey(r)).value;
    var s, done := EvaluateRow(c, cal, rows, tenantsOf, now, lead, r);
    a := if done then Some(Attempt(r.id, r.tenant, s)) else None;
    assert decide(lead, r) == a;
  }

  /** A state the table came to, in which the closings attempted have their summaries. */
  ghost predicate Consistent(start: State, s: State, attempts: seq<Attempt>) {
    Inv(s) && Reaches(start, s) && AllClosed(s.log, attempts)
  }

  /** The run of the attempt is saved in its row. */
  predicate IsSaved(s: State, a: Attempt) {
    a.summary.runId in s.saved && s.saved[a.summary.runId] == a.rowId
  }

  /** The attributions do not depend on the table. */
  method CloseKeeping(table: Table, a: Attempt, date: int, fails: bool, ghost attempts: seq<Attempt>, ghost start: State,
                      ghost cache: map<string, Community>, ghost cal: Calendar, ghost rows: seq<Row>, ghost tenantsOf: Tenants,
                      ghost closed: map<string, int>, ghost n: nat)
    returns (err: bool, ghost attempts': seq<Attempt>)
    requires Consistent(start, table.Now(), attempts) && IsSaved(table.Now(), a)
    requires n <= |rows| && Holds(cache, cal, rows, tenantsOf, closed, n)
    modifies table
    ensures Consistent(start, table.Now(), attempts')
    ensures !err ==> attempts' == attempts + [a]
    ensures Holds(cache, cal, rows, tenantsOf, closed, n)
  {
    ghost var mid := table.Now();
    err, attempts' := CloseAmongOthers(table, a, date, fails, attempts);
    ReachesOn(start, mid, table.Now());
  }

  /** Closes the row if it is due. */
  method CloseDue(table: Table, a: Option<Attempt>, date: int, fails: bool, ghost attempts: seq<Attempt>, ghost start: State,
                  ghost cache: map<string, Community>, ghost cal: Calendar, ghost rows: seq<Row>, ghost tenantsOf: Tenants,
                  ghost closed: map<string, int>, ghost n: nat)
    returns (err: bool, ghost attempts': seq<Attempt>)
    requires Inv(start) && RunsSaved(start, rows) && Consistent(start, table.Now(), attempts) && n < |rows|
    requires a.Some? ==> rows[n].IsRun() && a.value.rowId == rows[n].id && a.value.summary.runId == rows[n].content.run.runId
    requires Holds(cache, cal, rows, tenantsOf, closed, n + 1)
    modifies table
    ensures Consistent(start, table.Now(), attempts') && Holds(cache, cal, rows, tenantsOf, closed, n + 1)
    ensures !err ==> attempts' == attempts + if a.Some? then [a.value] else []
  {
    err, attempts' := false, attempts;
    if a.Some? {
      SavedStays(start, table.Now(), rows, n, a.value);
      err, attempts' := CloseKeeping(table, a.value, date, fails, attempts, start, cache, cal, rows, tenantsOf, closed, n + 1);
    }
  }

  /** One row: decided, and closed if it is due. */
  method CheckNext(table: Table, cache: map<string, Community>, cal: Calendar, rows: seq<Row>, tenantsOf: Tenants, now: int,
                   date: int, fails: bool, closed: map<string, int>, n: nat, ghost decide: Decision, ghost attempts: seq<Attempt>,
                   ghost start: State)
    returns (err: bool, cache': map<string, Community>, ghost attempts': seq<Attempt>)
    requires Inv(start) && RunsSaved(start, rows) && Consistent(start, table.Now(), attempts)
    requires decide == Decide(cal, rows, tenantsOf, now) && ValidRows(rows) && closed == Summaries(rows) && n < |rows|
    requires Holds(cache, cal, rows, tenantsOf, closed, n) && attempts == Attempts(decide, rows, closed, n)
    modifies table
    ensures Consistent(start, table.Now(), attempts')
    ensures !err ==> Holds(cache', cal, rows, tenantsOf, closed, n + 1) && attempts' == Attempts(decide, rows, closed, n + 1)
  {
    var a;
    err, cache', a := CheckRow(cache, cal, rows, tenantsOf, now, closed, n, decide);
    attempts' := attempts;
    if !err {
      err, attempts' := CloseDue(table, a, date, fails, attempts, start, cache', cal, rows, tenantsOf, closed, n);
    }
  }

  /** The loop over the rows; `start` is the table when they were read. */
  method CheckRows(table: Table, cal: Calendar, tenantsOf: Tenants, rows: seq<Row>, now: int, date: int, fails: int -> bool,
                   ghost start: State)
    returns (err: bool, ghost attempts: seq<Attempt>)
    requires Inv(start) && RunsSaved(start, rows) && Consistent(start, table.Now(), []) && ValidRows(rows)
    modifies table
    ensures Consistent(start, table.Now(), attempts)
    ensures !err ==> attempts == Attempts(Decide(cal, rows, tenantsOf, now), rows, Summaries(rows), |rows|)
  {
    var closed := SummariesIn(rows);
    ghost var decide := Decide(cal, rows, tenantsOf, now);
    var cache: map<string, Community> := map[];
    err, attempts := false, [];
    for n := 0 to |rows|
      invariant Consistent(start, table.Now(), attempts)
      invariant Holds(cache, cal, rows, tenantsOf, closed, n) && attempts == Attempts(decide, rows, closed, n)
    {
      err, cache, attempts :=
        CheckNext(table, cache, cal, rows, tenantsOf, now, date, fails(n), closed, n, decide, attempts, start);
      if err {
        return;
      }
    }
  }

  /** Check; `fails` are the errors of the database. */
  method Check(table: Table, cal: Calendar, tenantsOf: Tenants, now: int, date: int, fails: int -> bool)
    returns (err: bool, ghost rows: seq<Row>, ghost attempts: seq<Attempt>)
    requires Inv(table.Now())
    modifies table
    ensures Inv(table.Now()) && Reaches(old(table.Now()), table.Now())
    ensures rows == Read(old(table.log), None, now) && AllClosed(table.log, attempts)
    ensures !err ==> attempts == Attempts(Decide(cal, rows, tenantsOf, now), rows, Summaries(rows), |rows|)
  {
    ghost var start := table.Now();
    var read := Read(table.log, None, now);
    rows := read;
    ReadIsValid(start, now);
    ReachesSelf(start);
    ReadRunsAreSaved(start, now);
    err, attempts := CheckRows(table, cal, tenantsOf, read, now, date, fails, start);
  }

  /** The ids of the runs are those of their saved rows. */
  predicate RunsSaved(s: State, rows: seq<Row>) {
    forall r <- rows :: r.IsRun() ==> r.content.run.runId in s.saved && s.saved[r.content.run.runId] == r.id
  }

  lemma ReadRunsAreSaved(s: State, now: int)
    requires Inv(s)
    ensures RunsSaved(s, Read(s.log, None, now))
  {
    forall r | r in Read(s.log, None, now) && r.IsRun()
      ensures r.content.run.runId in s.saved && s.saved[r.content.run.runId] == r.id
    {
      ReadRunIsSaved(s, now, r);
    }
  }

  lemma SavedStays(start: State, s: State, rows: seq<Row>, n: nat, a: Attempt)
    requires Inv(start) && Reaches(start, s) && RunsSaved(start, rows) && n < |rows| && rows[n].IsRun()
    requires a.rowId == rows[n].id && a.summary.runId == rows[n].content.run.runId
    ensures IsSaved(s, a)
  {
    assert rows[n] in rows;
    ReachesKeeps(start, s);
  }

  lemma ReadSummaryStays(s: State, t: State, rows: seq<Row>, runId: string)
    requires Inv(s) && Reaches(s, t) && (forall r <- rows :: r in RowsOf(s.log)) && runId in Summaries(rows)
    ensures HasSummary(t.log, runId)
  {
    SummariesKeys(rows, runId);
    var j :| 0 <= j < |rows| && rows[j].IsSummary() && rows[j].content.summary.runId == runId;
    assert rows[j] in rows;
    var k :| 0 <= k < |s.log| && RowsOf(s.log)[k] == rows[j];
    assert s.log[k] in s.log;
    ReachesKeeps(s, t);
  }

  /** After a check without error every run it read that gets a summary and is as old as the deadline has one. */
  lemma AgedRunsAreClosed(s: State, t: State, cal: Calendar, tenantsOf: Tenants, now: int, i: nat)
    requires Inv(s) && Reaches(s, t)
    requires var rows := Read(s.log, None, now);
             && i < |rows| && rows[i].IsRun() && !rows[i].content.run.noSummary
             && now - rows[i].content.run.createdAt >= 24 * 3_600_000
             && AllClosed(t.log, Attempts(Decide(cal, rows, tenantsOf, now), rows, Summaries(rows), |rows|))
    ensures HasSummary(t.log, Read(s.log, None, now)[i].content.run.runId)
  {
    var rows := Read(s.log, None, now);
    var r, closed := rows[i], Summaries(rows);
    if r.content.run.runId in closed {
      ReadSummaryStays(s, t, rows, r.content.run.runId);
    } else {
      var decide := Decide(cal, rows, tenantsOf, now);
      AgedIsDecided(cal, rows, tenantsOf, now);
      var a := AgedIsAttempted(decide, rows, now, closed, |rows|, i);
    }
  }

  ghost predicate ClosesAged(decide: Decision, now: int) {
    forall lead: Row, r: Row :: lead.IsRun() && r.IsRun() && now - r.content.run.createdAt >= DEADLINE ==>
      decide(lead, r).Some? && decide(lead, r).value.summary.runId == r.content.run.runId
  }

  lemma AgedIsDecided(cal: Calendar, rows: seq<Row>, tenantsOf: Tenants, now: int)
    ensures ClosesAged(Decide(cal, rows, tenantsOf, now), now)
  {
  }

  lemma {:induction false} AgedIsAttempted(decide: Decision, rows: seq<Row>, now: int, closed: map<string, int>, n: nat, i: nat)
    returns (a: Attempt)
    requires ClosesAged(decide, now)
    requires i < n <= |rows| && IsConsidered(rows[i], closed) && now - rows[i].content.run.createdAt >= DEADLINE
    ensures a in Attempts(decide, rows, closed, n) && a.summary.runId == rows[i].content.run.runId
  {
    if i == n - 1 {
      LeadStep(rows, closed, i, CommunityKey(rows[i]));
      a := decide(Lead(rows[..n], closed, CommunityKey(rows[i])).value, rows[i]).value;
    } else {
      a := AgedIsAttempted(decide, rows, now, closed, n - 1, i);
    }
  }

  lemma ClosedStep(s: State, t: State, u: State, rowId: int, d: DbRow)
    requires Inv(s) && Reaches(s, t) && Close(t, u, rowId, d)
    ensures Reaches(s, u) && Inv(u) && Keeps(t, u)
  {
    ReachesKeeps(s, t);
    assert Step(t, u);
    ReachesStep(s, t, u);
    StepKeeps(t, u);
    StepKeepsSummaries(t, u);
  }
}
