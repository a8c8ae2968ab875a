/** What the Messages list of a tenant leaves out (energyrequest/collapse.go). */
module Collapsing {
  import opened Wrappers
  import opened EnergyTypes

  datatype Message = Message(id: int, date: int, content: Content)

  datatype CollapseRun = CollapseRun(id: int, runId: string, createdAt: int, summarised: bool, own: bool,
                                     meters: set<string>)

  /** What a Collapser knows: the runs by row id, and the row of each stored summary by run id. */
  datatype View = View(now: int, runs: map<int, CollapseRun>, summaries: map<string, int>)

  /** The request echo and the answers. */
  predicate Collapsible(c: Content) {
    c.Echo? || c.Reply?
  }

  function MetersOf(c: Content): seq<string> {
    match c
    case Echo(meters) => meters
    case Reply(answer) => answer.meters
    case _ => []
  }

  function RunOf(tenant: string, r: Row): CollapseRun
    requires r.IsRun()
  {
    var run := r.content.run;
    CollapseRun(r.id, run.runId, run.createdAt, !run.noSummary, !run.noSummary && EqualFold(r.tenant, tenant),
                set e <- run.meters :: e.meter)
  }

  // ----- the rule

  /** Whether the run can own the message. */
  predicate Eligible(v: View, r: CollapseRun, m: Message) {
    && r.id < m.id && m.date - r.createdAt <= COLLAPSE_WINDOW
    && (r.summarised ==>
          if r.runId in v.summaries then m.id < v.summaries[r.runId] else v.now - r.createdAt < DEADLINE)
  }

  /** The runs that can own the message for one of its metering points. */
  function OwnersAt(v: View, m: Message, meter: string): set<int> {
    set id | id in v.runs && meter in v.runs[id].meters && Eligible(v, v.runs[id], m)
  }

  function Owners(v: View, m: Message): set<int> {
    set meter <- MetersOf(m.content), id <- OwnersAt(v, m, meter) :: id
  }

  /** Each of the metering point's possible owners, one at least, is a summarised run of the listed tenant. */
  predicate Covered(v: View, m: Message, meter: string) {
    (exists id :: id in OwnersAt(v, m, meter)) && forall id <- OwnersAt(v, m, meter) :: v.runs[id].own
  }

  /** A message is left out when all its metering points are covered. */
  predicate Hides(v: View, m: Message) {
    Collapsible(m.content) && MetersOf(m.content) != [] && forall meter <- MetersOf(m.content) :: Covered(v, m, meter)
  }

  predicate IsMax(s: set<int>, k: int) {
    k in s && forall x <- s :: x <= k
  }

  /** The message is left out and run `k` is its newest possible owner. */
  predicate StandsFor(v: View, k: int, m: Message) {
    Hides(v, m) && IsMax(Owners(v, m), k)
  }

  predicate HasMessage(v: View, messages: seq<Message>, k: int) {
    exists m <- messages :: StandsFor(v, k, m)
  }

  predicate IsNewestOf(v: View, messages: seq<Message>, k: int, id: int) {
    (exists m <- messages :: StandsFor(v, k, m) && m.id == id) && forall m <- messages :: StandsFor(v, k, m) ==> m.id <= id
  }

  /** For each run the newest of the messages left out that it stands for. */
  ghost predicate IsLatest(v: View, messages: seq<Message>, latest: map<int, int>) {
    && (forall k {:trigger HasMessage(v, messages, k)} :: k in latest <==> HasMessage(v, messages, k))
    && (forall k {:trigger IsNewestOf(v, messages, k, latest[k])} :: k in latest ==> IsNewestOf(v, messages, k, latest[k]))
  }

  /** The specification leaves no choice: neither the map's iteration order nor anything else matters. */
  lemma LatestIsUnique(v: View, messages: seq<Message>, a: map<int, int>, b: map<int, int>)
    requires IsLatest(v, messages, a) && IsLatest(v, messages, b)
    ensures a == b
  {
    forall k <- a
      ensures k in b && a[k] == b[k]
    {
      assert HasMessage(v, messages, k) && IsNewestOf(v, messages, k, a[k]) && IsNewestOf(v, messages, k, b[k]);
    }
    forall k <- b
      ensures k in a
    {
      assert HasMessage(v, messages, k);
    }
  }

  lemma LatestSnoc(v: View, messages: seq<Message>, m: Message, latest: map<int, int>, latest': map<int, int>)
    requires IsLatest(v, messages, latest) && m.id > 0
    requires Hides(v, m) ==> exists k :: (IsMax(Owners(v, m), k) &&
               latest' == latest[k := if k in latest && latest[k] > m.id then latest[k] else m.id])
    requires !Hides(v, m) ==> latest' == latest
    ensures IsLatest(v, messages + [m], latest')
  {
    var all := messages + [m];
    assert forall x <- all :: x in messages || x == m;
    assert forall x <- messages :: x in all;
    assert m in all;
    forall k
      ensures k in latest' <==> HasMessage(v, all, k)
      ensures k in latest' ==> IsNewestOf(v, all, k, latest'[k])
    {
      assert k in latest <==> HasMessage(v, messages, k);
      assert k in latest ==> IsNewestOf(v, messages, k, latest[k]);
      if StandsFor(v, k, m) {
        assert k in latest';
        assert !HasMessage(v, messages, k) ==> forall x <- messages :: !StandsFor(v, k, x);
      } else {
        assert k in latest' ==> k in latest && latest'[k] == latest[k];
      }
    }
  }

  // ----- adding rows

  function AddedRuns(tenant: string, runs: map<int, CollapseRun>, rows: seq<Row>): map<int, CollapseRun> {
    if rows == [] then runs
    else
      var prev, r := AddedRuns(tenant, runs, rows[..|rows| - 1]), rows[|rows| - 1];
      if r.id in prev || !r.IsRun() then prev else prev[r.id := RunOf(tenant, r)]
  }

  function AddedSummaries(summaries: map<string, int>, rows: seq<Row>): map<string, int> {
    if rows == [] then summaries
    else
      var prev, r := AddedSummaries(summaries, rows[..|rows| - 1]), rows[|rows| - 1];
      if r.content.Closing? && r.content.summary.runId != "" then prev[r.content.summary.runId := r.id] else prev
  }

  /** Each entry is the run row of `log` with its id. */
  ghost predicate RunsFrom(tenant: string, log: set<Row>, runs: map<int, CollapseRun>) {
    forall id <- runs :: exists r <- log :: r.IsRun() && r.id == id && runs[id] == RunOf(tenant, r)
  }

  ghost predicate OneRowPerId(log: set<Row>) {
    forall a <- log, b <- log :: a.id == b.id ==> a == b
  }

  predicate HasRun(rows: seq<Row>, id: int) {
    exists r <- rows :: r.IsRun() && r.id == id
  }

  lemma {:induction false} AddedRunsKeys(tenant: string, log: set<Row>, runs: map<int, CollapseRun>, rows: seq<Row>)
    requires RunsFrom(tenant, log, runs) && forall r <- rows :: r.IsRun() ==> r in log
    ensures RunsFrom(tenant, log, AddedRuns(tenant, runs, rows))
    ensures forall id :: id in AddedRuns(tenant, runs, rows) <==> id in runs || HasRun(rows, id)
  {
    if rows != [] {
      var init, r := rows[..|rows| - 1], rows[|rows| - 1];
      AddedRunsKeys(tenant, log, runs, init);
      assert rows == init + [r];
      assert r in rows && forall q <- init :: q in rows;
      forall id
        ensures HasRun(rows, id) <==> HasRun(init, id) || (r.IsRun() && r.id == id)
      {
        assert HasRun(init, id) ==> exists q <- init :: q.IsRun() && q.id == id && q in rows;
      }
    }
  }

  lemma SameRuns(tenant: string, log: set<Row>, x: map<int, CollapseRun>, y: map<int, CollapseRun>)
    requires OneRowPerId(log) && RunsFrom(tenant, log, x) && RunsFrom(tenant, log, y)
    requires forall id :: id in x <==> id in y
    ensures x == y
  {
    forall id <- y
      ensures id in x
    {
    }
    forall id <- x
      ensures id in y && x[id] == y[id]
    {
      assert id in y;
      var a :| a in log && a.IsRun() && a.id == id && x[id] == RunOf(tenant, a);
      var b :| b in log && b.IsRun() && b.id == id && y[id] == RunOf(tenant, b);
    }
  }

  /** The order in which runs are added, and adding some again, does not matter. */
  lemma AddOrderIrrelevant(tenant: string, log: set<Row>, runs: map<int, CollapseRun>, a: seq<Row>, b: seq<Row>)
    requires OneRowPerId(log) && RunsFrom(tenant, log, runs)
    requires (forall r <- a :: r in log) && forall r <- b :: r in log
    ensures AddedRuns(tenant, AddedRuns(tenant, runs, a), b) == AddedRuns(tenant, AddedRuns(tenant, runs, b), a)
    ensures (forall r <- b :: r in a) ==> AddedRuns(tenant, AddedRuns(tenant, runs, a), b) == AddedRuns(tenant, runs, a)
  {
    var x, y := AddedRuns(tenant, runs, a), AddedRuns(tenant, runs, b);
    AddedRunsKeys(tenant, log, runs, a);
    AddedRunsKeys(tenant, log, runs, b);
    AddedRunsKeys(tenant, log, x, b);
    AddedRunsKeys(tenant, log, y, a);
    var xb := AddedRuns(tenant, x, b);
    assert forall id :: id in xb <==> id in AddedRuns(tenant, y, a);
    SameRuns(tenant, log, xb, AddedRuns(tenant, y, a));
    if forall r <- b :: r in a {
      assert forall id :: HasRun(b, id) ==> HasRun(a, id);
      assert forall id :: id in xb <==> id in x;
      SameRuns(tenant, log, xb, x);
    }
  }

  // ----- the view of everything

  predicate IsRunIn(r: Row, tenants: set<string>) {
    r.IsRun() && r.tenant in tenants
  }

  predicate IsClosingIn(r: Row, tenants: set<string>) {
    r.content.Closing? && r.content.summary.runId != "" && r.tenant in tenants
  }

  /** The view knows every run and every stored summary of the community in `rows`, and nothing else. */
  ghost predicate KnowsAll(v: View, tenant: string, tenants: set<string>, rows: seq<Row>) {
    && (forall r <- rows :: IsRunIn(r, tenants) ==> r.id in v.runs && v.runs[r.id] == RunOf(tenant, r))
    && (forall id <- v.runs :: exists r <- rows :: IsRunIn(r, tenants) && r.id == id)
    && (forall r <- rows :: IsClosingIn(r, tenants) ==>
          r.content.summary.runId in v.summaries && v.summaries[r.content.summary.runId] == r.id)
    && (forall runId <- v.summaries :: exists r <- rows :: IsClosingIn(r, tenants) && r.content.summary.runId == runId)
  }

  // ----- what is left out, said of the rows

  /** Run row `r` names the metering point and can own the message of row `id` and date `date`: it lies before it, is not
      more than 25 hours older, and takes answers still: it has no summary to come, or the message comes before its summary,
      or it has none yet and is younger than 24 hours. */
  predicate CanOwn(rows: seq<Row>, tenants: set<string>, now: int, r: Row, id: int, date: int, meter: string) {
    && r.rowType == RunRow && r.content.Run? && r.tenant in tenants && r.id < id && date - r.content.run.createdAt <= 25 * 3_600_000
    && (exists e <- r.content.run.meters :: e.meter == meter)
    && (|| r.content.run.noSummary
        || (HasClosing(rows, tenants, r.content.run.runId)
           && forall c <- rows :: ClosesRun(c, tenants, r.content.run.runId) ==> id < c.id)
        || (!HasClosing(rows, tenants, r.content.run.runId) && now - r.content.run.createdAt < 24 * 3_600_000))
  }

  predicate ClosesRun(c: Row, tenants: set<string>, runId: string) {
    c.content.Closing? && c.tenant in tenants && c.content.summary.runId == runId != ""
  }

  predicate HasClosing(rows: seq<Row>, tenants: set<string>, runId: string) {
    exists c <- rows :: ClosesRun(c, tenants, runId)
  }

  predicate HasOwner(rows: seq<Row>, tenants: set<string>, now: int, id: int, date: int, meter: string) {
    exists r <- rows :: CanOwn(rows, tenants, now, r, id, date, meter)
  }

  /** Every run that can own it for the metering point is a run of the listed tenant that gets a summary. */
  predicate AllOwn(rows: seq<Row>, tenant: string, tenants: set<string>, now: int, id: int, date: int, meter: string) {
    forall r <- rows :: CanOwn(rows, tenants, now, r, id, date, meter) ==> !r.content.run.noSummary && EqualFold(r.tenant, tenant)
  }

  /** An answer or a request echo with metering points, for each of which some run can own it and only such runs can. */
  predicate IsLeftOut(rows: seq<Row>, tenant: string, tenants: set<string>, now: int, m: Message) {
    && (m.content.Reply? || m.content.Echo?)
    && var meters := if m.content.Reply? then m.content.answer.meters else m.content.echoMeters;
       && meters != []
       && forall x <- meters :: HasOwner(rows, tenants, now, m.id, m.date, x) && AllOwn(rows, tenant, tenants, now, m.id, m.date, x)
  }

  lemma EligibleRun(v: View, tenant: string, tenants: set<string>, rows: seq<Row>, r: Row, m: Message, meter: string)
    requires KnowsAll(v, tenant, tenants, rows) && r in rows && IsRunIn(r, tenants)
    ensures r.id in v.runs && v.runs[r.id] == RunOf(tenant, r)
    ensures r.id in OwnersAt(v, m, meter) <==> CanOwn(rows, tenants, v.now, r, m.id, m.date, meter)
  {
    var runId := r.content.run.runId;
    forall c | c in rows
      ensures ClosesRun(c, tenants, runId) ==> runId in v.summaries && v.summaries[runId] == c.id
    {
      assert ClosesRun(c, tenants, runId) ==> IsClosingIn(c, tenants);
    }
    assert runId in v.summaries ==> HasClosing(rows, tenants, runId);
  }

  lemma OwnerIsRow(v: View, tenant: string, tenants: set<string>, rows: seq<Row>, m: Message, meter: string,
                   id: int) returns (r: Row)
    requires KnowsAll(v, tenant, tenants, rows) && id in OwnersAt(v, m, meter)
    ensures r in rows && r.id == id && IsRunIn(r, tenants) && CanOwn(rows, tenants, v.now, r, m.id, m.date, meter)
  {
    r :| r in rows && IsRunIn(r, tenants) && r.id == id;
    EligibleRun(v, tenant, tenants, rows, r, m, meter);
  }

  lemma CoveredRows(v: View, tenant: string, tenants: set<string>, rows: seq<Row>, m: Message, meter: string)
    requires KnowsAll(v, tenant, tenants, rows)
    ensures Covered(v, m, meter) <==>
            HasOwner(rows, tenants, v.now, m.id, m.date, meter) && AllOwn(rows, tenant, tenants, v.now, m.id, m.date, meter)
  {
    if id :| id in OwnersAt(v, m, meter) {
      var r := OwnerIsRow(v, tenant, tenants, rows, m, meter, id);
    }
    forall r | r in rows && CanOwn(rows, tenants, v.now, r, m.id, m.date, meter)
      ensures r.id in OwnersAt(v, m, meter) && v.runs[r.id] == RunOf(tenant, r)
    {
      EligibleRun(v, tenant, tenants, rows, r, m, meter);
    }
    forall id | id in OwnersAt(v, m, meter) && AllOwn(rows, tenant, tenants, v.now, m.id, m.date, meter)
      ensures v.runs[id].own
    {
      var r := OwnerIsRow(v, tenant, tenants, rows, m, meter, id);
      EligibleRun(v, tenant, tenants, rows, r, m, meter);
    }
  }

  /** A Collapser that knows the community leaves out exactly these messages. */
  lemma HidesRows(v: View, tenant: string, tenants: set<string>, rows: seq<Row>, m: Message)
    requires KnowsAll(v, tenant, tenants, rows)
    ensures Hides(v, m) <==> IsLeftOut(rows, tenant, tenants, v.now, m)
  {
    forall x
      ensures Covered(v, m, x) <==>
              HasOwner(rows, tenants, v.now, m.id, m.date, x) && AllOwn(rows, tenant, tenants, v.now, m.id, m.date, x)
    {
      CoveredRows(v, tenant, tenants, rows, m, x);
    }
  }

  /** Run row `k` can own the message for one of its metering points. */
  predicate CanOwnSome(rows: seq<Row>, tenants: set<string>, now: int, m: Message, k: int) {
    exists r <- rows :: r.id == k && exists x <- MetersOf(m.content) :: CanOwn(rows, tenants, now, r, m.id, m.date, x)
  }

  /** The message is left out, and `k` is the newest run row that can own it. */
  ghost predicate StandsForRow(rows: seq<Row>, tenant: string, tenants: set<string>, now: int, m: Message, k: int) {
    && IsLeftOut(rows, tenant, tenants, now, m) && CanOwnSome(rows, tenants, now, m, k)
    && forall j :: CanOwnSome(rows, tenants, now, m, j) ==> j <= k
  }

  lemma OwnersAreRows(v: View, tenant: string, tenants: set<string>, rows: seq<Row>, m: Message, k: int)
    requires KnowsAll(v, tenant, tenants, rows)
    ensures k in Owners(v, m) <==> CanOwnSome(rows, tenants, v.now, m, k)
  {
    if k in Owners(v, m) {
      var x :| x in MetersOf(m.content) && k in OwnersAt(v, m, x);
      var r := OwnerIsRow(v, tenant, tenants, rows, m, x, k);
    }
    if CanOwnSome(rows, tenants, v.now, m, k) {
      var r, x :| r in rows && r.id == k && x in MetersOf(m.content) && CanOwn(rows, tenants, v.now, r, m.id, m.date, x);
      EligibleRun(v, tenant, tenants, rows, r, m, x);
    }
  }

  lemma StandsForRows(v: View, tenant: string, tenants: set<string>, rows: seq<Row>, m: Message, k: int)
    requires KnowsAll(v, tenant, tenants, rows)
    ensures StandsFor(v, k, m) <==> StandsForRow(rows, tenant, tenants, v.now, m, k)
  {
    HidesRows(v, tenant, tenants, rows, m);
    forall j
      ensures j in Owners(v, m) <==> CanOwnSome(rows, tenants, v.now, m, j)
    {
      OwnersAreRows(v, tenant, tenants, rows, m, j);
    }
  }

  /** The entry of a run: the newest message left out for which it is the newest possible owner; without one it has none. */
  lemma LatestOfRows(v: View, tenant: string, tenants: set<string>, rows: seq<Row>, messages: seq<Message>,
                     latest: map<int, int>, k: int)
    requires KnowsAll(v, tenant, tenants, rows) && IsLatest(v, messages, latest)
    ensures k in latest <==> exists m <- messages :: StandsForRow(rows, tenant, tenants, v.now, m, k)
    ensures k in latest ==> exists m <- messages :: m.id == latest[k] && StandsForRow(rows, tenant, tenants, v.now, m, k)
    ensures k in latest ==> forall m <- messages :: StandsForRow(rows, tenant, tenants, v.now, m, k) ==> m.id <= latest[k]
  {
    forall m
      ensures StandsFor(v, k, m) <==> StandsForRow(rows, tenant, tenants, v.now, m, k)
    {
      StandsForRows(v, tenant, tenants, rows, m, k);
    }
    assert k in latest <==> HasMessage(v, messages, k);
    assert k in latest ==> IsNewestOf(v, messages, k, latest[k]);
  }

  // ----- the Collapser

  function HiddenIds(v: View, messages: seq<Message>): set<int> {
    set m <- messages | Hides(v, m) :: m.id
  }

  lemma HiddenSnoc(v: View, messages: seq<Message>, m: Message)
    ensures HiddenIds(v, messages + [m]) == HiddenIds(v, messages) + if Hides(v, m) then {m.id} else {}
  {
    var all := messages + [m];
    assert forall x <- all :: x in messages || x == m;
    assert forall x <- messages :: x in all;
    assert m in all;
  }

  lemma Inhabited(s: set<int>)
    ensures s == {} || exists x :: x in s
  {
    if forall x :: x !in s {
      assert s == {};
    }
  }

  class Collapser {
    const tenant: string
    const now: int
    var runs: map<int, CollapseRun>
    var summaries: map<string, int>

    constructor (tenant: string, now: int)
      ensures this.tenant == tenant && this.now == now && Knows() == View(now, map[], map[])
    {
      this.tenant, this.now, runs, summaries := tenant, now, map[], map[];
    }

    function Knows(): View
      reads this
    {
      View(now, runs, summaries)
    }

    /** Runs are kept under their row id; row ids are positive. */
    ghost predicate Valid()
      reads this
    {
      forall id <- runs :: 0 < id && runs[id].id == id
    }

    method AddRuns(rows: seq<Row>)
      requires Valid() && forall r <- rows :: 0 < r.id
      modifies `runs
      ensures Valid() && runs == AddedRuns(tenant, old(runs), rows)
    {
      for i := 0 to |rows|
        invariant Valid() && runs == AddedRuns(tenant, old(runs), rows[..i])
      {
        var r := rows[i];
        assert rows[..i + 1][..i] == rows[..i] && rows[i] in rows;
        if r.id !in runs && r.IsRun() {
          runs := runs[r.id := RunOf(tenant, r)];
        }
      }
      assert rows[..|rows|] == rows;
    }

    method AddSummaries(rows: seq<Row>)
      modifies `summaries
      ensures summaries == AddedSummaries(old(summaries), rows)
    {
      for i := 0 to |rows|
        invariant summaries == AddedSummaries(old(summaries), rows[..i])
      {
        var r := rows[i];
        assert rows[..i + 1][..i] == rows[..i];
        if r.content.Closing? && r.content.summary.runId != "" {
          summaries := summaries[r.content.summary.runId := r.id];
        }
      }
      assert rows[..|rows|] == rows;
    }

    /** The runs, in any order, up to one that can own the message and is not the tenant's. */
    method Cover(m: Message, meter: string, newest: int) returns (covered: bool, newest': int)
      requires Valid()
      ensures covered <==> Covered(Knows(), m, meter)
      ensures covered ==> newest <= newest' && (newest' == newest || newest' in OwnersAt(Knows(), m, meter))
      ensures covered ==> forall x <- OwnersAt(Knows(), m, meter) :: x <= newest'
    {
      var owners := 0;
      newest' := newest;
      var todo := runs.Keys;
      ghost var all := OwnersAt(Knows(), m, meter);
      while todo != {}
        invariant todo <= runs.Keys && owners >= 0 && newest <= newest'
        invariant owners == 0 <==> all <= todo
        invariant forall id <- all :: id in todo || (runs[id].own && id <= newest')
        invariant newest' == newest || newest' in all
      {
        Inhabited(todo);
        var id :| id in todo;
        todo := todo - {id};
        var r := runs[id];
        if meter in r.meters && Eligible(Knows(), r, m) {
          assert id in all;
          if !r.own {
            return false, newest';
          }
          owners := owners + 1;
          newest' := if newest' < r.id then r.id else newest';
        }
      }
      covered := owners != 0;
      Inhabited(all);
    }

    /** The metering points of a message, up to one that is not covered. */
    method CoverAll(m: Message) returns (covered: bool, newest: int)
      requires Valid() && MetersOf(m.content) != []
      ensures covered <==> forall meter <- MetersOf(m.content) :: Covered(Knows(), m, meter)
      ensures covered ==> IsMax(Owners(Knows(), m), newest)
    {
      var meters := MetersOf(m.content);
      newest := 0;
      for i := 0 to |meters|
        invariant forall j :: 0 <= j < i ==> Covered(Knows(), m, meters[j])
        invariant newest == 0 || newest in Owners(Knows(), m)
        invariant forall j :: 0 <= j < i ==> forall x <- OwnersAt(Knows(), m, meters[j]) :: x <= newest
      {
        assert meters[i] in meters;
        covered, newest := Cover(m, meters[i], newest);
        if !covered {
          return false, newest;
        }
      }
      covered := true;
      assert meters[0] in meters && Covered(Knows(), m, meters[0]);
      var some :| some in OwnersAt(Knows(), m, meters[0]);
      assert 0 < some <= newest;
    }

    /** The ids of the messages left out, and for each run the newest of them that it stands for. */
    method Hide(messages: seq<Message>) returns (hidden: set<int>, latest: map<int, int>)
      requires Valid() && forall m <- messages :: 0 < m.id
      ensures hidden == HiddenIds(Knows(), messages) && IsLatest(Knows(), messages, latest)
    {
      hidden, latest := {}, map[];
      for i := 0 to |messages|
        invariant hidden == HiddenIds(Knows(), messages[..i])
        invariant IsLatest(Knows(), messages[..i], latest)
      {
        var m := messages[i];
        ghost var before := latest;
        HiddenSnoc(Knows(), messages[..i], m);
        assert messages[..i + 1] == messages[..i] + [m] && m in messages;
        if Collapsible(m.content) && MetersOf(m.content) != [] {
          var covered, newest := CoverAll(m);
          if covered {
            hidden := hidden + {m.id};
            latest := latest[newest := if newest in latest && latest[newest] > m.id then latest[newest] else m.id];
          }
        }
        LatestSnoc(Knows(), messages[..i], m, before, latest);
      }
      assert messages[..|messages|] == messages;
    }
  }
}
