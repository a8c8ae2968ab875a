/** Assigning the answers of a log to the requests of a community (energyrequest/attribution.go, `attribute`). */
module Attribution {
  import opened Wrappers
  import opened EnergyTypes
  import opened AttributionSpec
  import opened AttributionOnline
  import opened AttributionWindows

  /** One metering point of a run, shared between the list of its metering point and the result. */
  class RequestNode {
    const rowId: int
    const meter: string
    const runId: string
    const from: int
    const to: int
    var end: int
    var closed: int
    var answers: seq<IdAnswer>

    constructor (row: Row, e: MeterRange)
      requires row.IsRun()
      ensures meter == e.meter && View() == NewRequest(row, e, MAX_ID)
    {
      rowId, meter, runId, from, to := row.id, e.meter, row.content.run.runId, e.from, e.to;
      end, closed, answers := MAX_ID, MAX_ID, [];
    }

    function View(): Request
      reads this
    {
      Request(rowId, runId, from, to, end, closed, answers)
    }
  }

  datatype RequestKey = RequestKey(rowId: int, meter: string)

  type ByMeter = map<string, seq<RequestNode>>

  function ListOf(byMeter: ByMeter, meter: string): (r: seq<RequestNode>)
    ensures meter in byMeter ==> r == byMeter[meter]
  {
    if meter in byMeter then byMeter[meter] else []
  }

  /** The nodes are all in `pool` and hold these requests of `meter`. */
  ghost predicate Shows(nodes: seq<RequestNode>, meter: string, pool: set<RequestNode>, reqs: seq<Request>)
    reads pool
  {
    && |nodes| == |reqs|
    && forall i :: 0 <= i < |nodes| ==> nodes[i] in pool && nodes[i].meter == meter && nodes[i].View() == reqs[i]
  }

  /** `a` finds each node under its row and metering point. */
  predicate Indexed(byMeter: ByMeter, a: map<RequestKey, RequestNode>) {
    && (forall m <- byMeter, i :: 0 <= i < |byMeter[m]| ==>
          RequestKey(byMeter[m][i].rowId, m) in a && a[RequestKey(byMeter[m][i].rowId, m)] == byMeter[m][i])
    && (forall k <- a :: k.meter in byMeter && a[k] in byMeter[k.meter] && a[k].rowId == k.rowId && a[k].meter == k.meter)
  }

  function OpenStep(cal: Calendar, reqs: seq<Request>, row: Row, entry: Option<MeterRange>): seq<Request>
    requires row.IsRun()
  {
    match entry
    case None => reqs
    case Some(e) => Supersede(cal, reqs, e, row.id) + [NewRequest(row, e, MAX_ID)]
  }

  lemma {:induction false} EntryOfSnoc(meters: seq<MeterRange>, e: MeterRange, m: string)
    ensures EntryOf(meters + [e], m) ==
            if EntryOf(meters, m).Some? then EntryOf(meters, m) else if e.meter == m then Some(e) else None
  {
    if meters == [] {
      assert [] + [e] == [e];
    } else {
      assert (meters + [e])[1..] == meters[1..] + [e];
      EntryOfSnoc(meters[1..], e, m);
    }
  }

  /** Sets the end of the open requests that share a day with the new one. */
  method SupersedeNodes(cal: Calendar, list: seq<RequestNode>, row: Row, e: MeterRange,
                        ghost pool: set<RequestNode>, ghost was: seq<Request>)
    requires row.IsRun()
    requires Shows(list, e.meter, pool, was) && forall i, j :: 0 <= i < j < |was| ==> was[i].rowId < was[j].rowId
    modifies list
    ensures Shows(list, e.meter, pool, Supersede(cal, was, e, row.id))
  {
    for k := 0 to |list|
      invariant forall i :: 0 <= i < |list| ==> list[i].View() == if i < k then Supersede(cal, was, e, row.id)[i] else was[i]
    {
      assert forall i :: 0 <= i < |list| && i != k ==> list[i].rowId == was[i].rowId && list[i] != list[k];
      if list[k].end == MAX_ID && Overlaps(cal, list[k].from, list[k].to, e.from, e.to) {
        list[k].end := row.id;
      }
    }
  }

  lemma IndexedUpdate(byMeter: ByMeter, a: map<RequestKey, RequestNode>, req: RequestNode)
    requires Indexed(byMeter, a)
    requires forall n <- ListOf(byMeter, req.meter) :: n.rowId != req.rowId
    ensures Indexed(byMeter[req.meter := ListOf(byMeter, req.meter) + [req]], a[RequestKey(req.rowId, req.meter) := req])
  {
    var m := req.meter;
    var list, key := ListOf(byMeter, m), RequestKey(req.rowId, m);
    var byMeter', a' := byMeter[m := list + [req]], a[key := req];
    forall k | k in a'
      ensures k.meter in byMeter' && a'[k] in byMeter'[k.meter] && a'[k].rowId == k.rowId && a'[k].meter == k.meter
    {
      if k == key {
        assert byMeter'[m][|list|] == req;
      } else if k.meter == m {
        var i :| 0 <= i < |list| && list[i] == a[k];
        assert byMeter'[m][i] == a[k];
      }
    }
  }

  method AppendRequest(cal: Calendar, list: seq<RequestNode>, row: Row, e: MeterRange,
                       ghost pool: set<RequestNode>, ghost was: seq<Request>)
    returns (req: RequestNode)
    requires row.IsRun() && Shows(list, e.meter, pool, was) && Ascending(was, row.id)
    modifies list
    ensures fresh(req) && req.meter == e.meter && req.rowId == row.id
    ensures Shows(list + [req], e.meter, pool + {req}, OpenStep(cal, was, row, Some(e)))
  {
    SupersedeNodes(cal, list, row, e, pool, was);
    req := new RequestNode(row, e);
  }

  /** The list of each metering point `m` holds the requests `f(m)`. */
  ghost predicate Table(byMeter: ByMeter, pool: set<RequestNode>, f: string -> seq<Request>)
    reads pool
  {
    forall m :: Shows(ListOf(byMeter, m), m, pool, f(m))
  }

  method AddToTable(cal: Calendar, row: Row, e: MeterRange, byMeter: ByMeter, ghost pool: set<RequestNode>,
                    ghost g: string -> seq<Request>, ghost h: string -> seq<Request>)
    returns (req: RequestNode, byMeter': ByMeter)
    requires row.IsRun() && Ascending(g(e.meter), row.id) && Table(byMeter, pool, g)
    requires forall m :: h(m) == if m == e.meter then OpenStep(cal, g(m), row, Some(e)) else g(m)
    modifies pool
    ensures fresh(req) && req.meter == e.meter && req.rowId == row.id
    ensures byMeter' == byMeter[e.meter := ListOf(byMeter, e.meter) + [req]] && Table(byMeter', pool + {req}, h)
  {
    var list := ListOf(byMeter, e.meter);
    assert Shows(list, e.meter, pool, g(e.meter));
    req := AppendRequest(cal, list, row, e, pool, g(e.meter));
    byMeter' := byMeter[e.meter := list + [req]];
    assert Shows(ListOf(byMeter', e.meter), e.meter, pool + {req}, h(e.meter));
    forall m
      ensures Shows(ListOf(byMeter', m), m, pool + {req}, h(m))
    {
      if m != e.meter {
        assert old(Shows(ListOf(byMeter, m), m, pool, g(m)));
        assert ListOf(byMeter', m) == ListOf(byMeter, m);
      }
    }
  }

  /** Adds the request of one metering point of a run; `g` and `h` are the requests before and after. */
  method AddEntry(cal: Calendar, row: Row, e: MeterRange, byMeter: ByMeter, a: map<RequestKey, RequestNode>,
                  ghost pool: set<RequestNode>, ghost g: string -> seq<Request>, ghost h: string -> seq<Request>)
    returns (byMeter': ByMeter, a': map<RequestKey, RequestNode>, ghost pool': set<RequestNode>)
    requires row.IsRun() && Indexed(byMeter, a) && Ascending(g(e.meter), row.id)
    requires Table(byMeter, pool, g)
    requires forall m :: h(m) == if m == e.meter then OpenStep(cal, g(m), row, Some(e)) else g(m)
    modifies pool
    ensures Indexed(byMeter', a') && pool <= pool' && forall n <- pool' :: n in pool || fresh(n)
    ensures Table(byMeter', pool', h)
  {
    var list := ListOf(byMeter, e.meter);
    assert Shows(list, e.meter, pool, g(e.meter));
    assert forall i :: 0 <= i < |list| ==> list[i].rowId == g(e.meter)[i].rowId && g(e.meter)[i] in g(e.meter);
    var req;
    req, byMeter' := AddToTable(cal, row, e, byMeter, pool, g, h);
    IndexedUpdate(byMeter, a, req);
    a' := a[RequestKey(row.id, e.meter) := req];
    pool' := pool + {req};
  }

  /** The requests of each metering point after the first entries of a run. */
  function RunOpened(cal: Calendar, f: string -> seq<Request>, row: Row, meters: seq<MeterRange>): string -> seq<Request>
    requires row.IsRun()
  {
    m => OpenStep(cal, f(m), row, EntryOf(meters, m))
  }

  lemma RunOpenedStep(cal: Calendar, f: string -> seq<Request>, row: Row, meters: seq<MeterRange>, j: nat, m: string)
    requires row.IsRun() && DistinctMeters(meters) && j < |meters|
    ensures RunOpened(cal, f, row, meters[..j + 1])(m) ==
            if m == meters[j].meter then OpenStep(cal, f(m), row, Some(meters[j])) else RunOpened(cal, f, row, meters[..j])(m)
    ensures m == meters[j].meter ==> RunOpened(cal, f, row, meters[..j])(m) == f(m)
  {
    assert meters[..j + 1] == meters[..j] + [meters[j]];
    EntryOfSnoc(meters[..j], meters[j], m);
  }

  lemma RunOpenedNext(cal: Calendar, f: string -> seq<Request>, row: Row, meters: seq<MeterRange>, j: nat)
    requires row.IsRun() && DistinctMeters(meters) && j < |meters| && forall m :: Ascending(f(m), row.id)
    ensures var g, h, e := RunOpened(cal, f, row, meters[..j]), RunOpened(cal, f, row, meters[..j + 1]), meters[j];
            && Ascending(g(e.meter), row.id)
            && forall m :: h(m) == if m == e.meter then OpenStep(cal, g(m), row, Some(e)) else g(m)
  {
    forall m {
      RunOpenedStep(cal, f, row, meters, j, m);
    }
    assert Ascending(f(meters[j].meter), row.id);
  }

  /** Adds the requests of one run. */
  method OpenRun(cal: Calendar, row: Row, byMeter: ByMeter, a: map<RequestKey, RequestNode>,
                 ghost pool: set<RequestNode>, ghost f: string -> seq<Request>)
    returns (byMeter': ByMeter, a': map<RequestKey, RequestNode>, ghost pool': set<RequestNode>)
    requires row.IsRun() && DistinctMeters(row.content.run.meters) && Indexed(byMeter, a)
    requires forall m :: Ascending(f(m), row.id)
    requires Table(byMeter, pool, f)
    modifies pool
    ensures Indexed(byMeter', a') && pool <= pool' && forall n <- pool' :: n in pool || fresh(n)
    ensures Table(byMeter', pool', RunOpened(cal, f, row, row.content.run.meters))
  {
    var meters := row.content.run.meters;
    byMeter', a', pool' := byMeter, a, pool;
    TableSame(byMeter, pool, f, RunOpened(cal, f, row, []));
    assert meters[..0] == [];
    for j := 0 to |meters|
      invariant Indexed(byMeter', a') && pool <= pool' && forall n <- pool' :: n in pool || fresh(n)
      invariant Table(byMeter', pool', RunOpened(cal, f, row, meters[..j]))
    {
      RunOpenedNext(cal, f, row, meters, j);
      byMeter', a', pool' := AddEntry(cal, row, meters[j], byMeter', a', pool', RunOpened(cal, f, row, meters[..j]),
                                      RunOpened(cal, f, row, meters[..j + 1]));
    }
    assert meters[..|meters|] == meters;
  }

  lemma TableSame(byMeter: ByMeter, pool: set<RequestNode>, f: string -> seq<Request>, g: string -> seq<Request>)
    requires Table(byMeter, pool, f) && forall m :: f(m) == g(m)
    ensures Table(byMeter, pool, g)
  {
    forall m
      ensures Shows(ListOf(byMeter, m), m, pool, g(m))
    {
      assert Shows(ListOf(byMeter, m), m, pool, f(m));
    }
  }

  /** The requests of each metering point that the rows open. */
  function AllOpened(cal: Calendar, ecId: string, tenants: set<string>, rows: seq<Row>): string -> seq<Request> {
    m => Opened(Scope(cal, ecId, tenants, m), rows)
  }

  lemma AllOpenedStep(cal: Calendar, ecId: string, tenants: set<string>, rows: seq<Row>, i: nat, m: string)
    requires ValidRows(rows) && i < |rows|
    ensures AllOpened(cal, ecId, tenants, rows[..i + 1])(m) ==
            var f := AllOpened(cal, ecId, tenants, rows[..i]);
            if rows[i].IsRunOf(ecId, tenants) then RunOpened(cal, f, rows[i], rows[i].content.run.meters)(m) else f(m)
    ensures Ascending(AllOpened(cal, ecId, tenants, rows[..i])(m), rows[i].id)
  {
    var p, s := rows[..i + 1], Scope(cal, ecId, tenants, m);
    assert p[..|p| - 1] == rows[..i] && p[|p| - 1] == rows[i];
    assert AllOpened(cal, ecId, tenants, p)(m) == Opened(s, p);
    assert AllOpened(cal, ecId, tenants, rows[..i])(m) == Opened(s, rows[..i]);
    ValidPrefix(rows, i);
    OpenedAscending(Scope(cal, ecId, tenants, m), rows[..i], rows[i].id);
  }

  function OpenedNext(cal: Calendar, ecId: string, tenants: set<string>, rows: seq<Row>, i: nat): string -> seq<Request>
    requires i < |rows|
  {
    var f := AllOpened(cal, ecId, tenants, rows[..i]);
    if rows[i].IsRunOf(ecId, tenants) then RunOpened(cal, f, rows[i], rows[i].content.run.meters) else f
  }

  lemma AllOpenedNext(cal: Calendar, ecId: string, tenants: set<string>, rows: seq<Row>, i: nat)
    requires ValidRows(rows) && i < |rows|
    ensures forall m :: OpenedNext(cal, ecId, tenants, rows, i)(m) == AllOpened(cal, ecId, tenants, rows[..i + 1])(m)
    ensures forall m :: Ascending(AllOpened(cal, ecId, tenants, rows[..i])(m), rows[i].id)
    ensures AnswersOf(tenants, rows[..i + 1]) == AnswersOf(tenants, rows[..i]) +
            if rows[i].IsAnswerOf(tenants) then [IdAnswer(rows[i].id, rows[i].content.answer)] else []
  {
    forall m {
      AllOpenedStep(cal, ecId, tenants, rows, i, m);
    }
    assert rows[..i + 1][..i] == rows[..i];
  }

  /** Pass one of `attribute`: the requests of all runs of the community, and the answers. */
  method OpenAll(cal: Calendar, ecId: string, rows: seq<Row>, tenants: set<string>)
    returns (byMeter: ByMeter, a: map<RequestKey, RequestNode>, answers: seq<IdAnswer>, ghost pool: set<RequestNode>)
    requires ValidRows(rows)
    ensures Indexed(byMeter, a) && fresh(pool)
    ensures Table(byMeter, pool, AllOpened(cal, ecId, tenants, rows))
    ensures answers == AnswersOf(tenants, rows)
  {
    byMeter, a, answers, pool := map[], map[], [], {};
    for i := 0 to |rows|
      invariant Indexed(byMeter, a) && fresh(pool)
      invariant Table(byMeter, pool, AllOpened(cal, ecId, tenants, rows[..i]))
      invariant answers == AnswersOf(tenants, rows[..i])
    {
      var r := rows[i];
      AllOpenedNext(cal, ecId, tenants, rows, i);
      if r.tenant !in tenants {
      } else if r.IsRun() && EqualFold(r.content.run.ecId, ecId) {
        byMeter, a, pool := OpenRun(cal, r, byMeter, a, pool, AllOpened(cal, ecId, tenants, rows[..i]));
      } else if r.IsAnswer() {
        answers := answers + [IdAnswer(r.id, r.content.answer)];
      }
      TableSame(byMeter, pool, OpenedNext(cal, ecId, tenants, rows, i), AllOpened(cal, ecId, tenants, rows[..i + 1]));
    }
    assert rows[..|rows|] == rows;
  }

  function Closed(f: string -> seq<Request>, closed: map<string, int>): string -> seq<Request> {
    m => CloseAll(f(m), closed)
  }

  /** Sets the row of the stored summary, in whatever order the map gives its entries. */
  method CloseNodes(a: map<RequestKey, RequestNode>, closed: map<string, int>, ghost was: map<RequestKey, Request>)
    requires was.Keys == a.Keys && forall k <- a :: a[k].View() == was[k]
    requires forall k <- a :: a[k].rowId == k.rowId && a[k].meter == k.meter && a[k].closed == MAX_ID
    modifies a.Values
    ensures forall k <- a :: a[k].View() == was[k].(closed := ClosedAt(closed, was[k].runId))
  {
    var todo := a.Keys;
    while todo != {}
      invariant todo <= a.Keys
      invariant forall k <- a :: a[k].View() == if k in todo then was[k] else was[k].(closed := ClosedAt(closed, was[k].runId))
    {
      var k :| k in todo;
      assert forall l <- a :: l != k ==> a[l] != a[k];
      if a[k].runId in closed {
        a[k].closed := closed[a[k].runId];
      }
      todo := todo - {k};
    }
  }

  /** The requests `f` by row and metering point. */
  predicate Recorded(byMeter: ByMeter, pool: set<RequestNode>, was: map<RequestKey, Request>, f: string -> seq<Request>,
                     m: string)
  {
    var list := ListOf(byMeter, m);
    && |list| == |f(m)|
    && forall i :: 0 <= i < |list| ==>
         && list[i] in pool && list[i].meter == m
         && RequestKey(list[i].rowId, m) in was && was[RequestKey(list[i].rowId, m)] == f(m)[i]
  }

  method CloseTable(byMeter: ByMeter, a: map<RequestKey, RequestNode>, closed: map<string, int>,
                    ghost pool: set<RequestNode>, ghost f: string -> seq<Request>)
    requires Indexed(byMeter, a) && Table(byMeter, pool, f)
    requires forall m :: forall q <- f(m) :: q.closed == MAX_ID
    modifies pool
    ensures Table(byMeter, pool, Closed(f, closed))
  {
    InPool(byMeter, a, pool, f);
    ghost var was := map k | k in a :: a[k].View();
    RecordTable(byMeter, a, pool, was, f);
    CloseNodes(a, closed, was);
    forall m
      ensures Shows(ListOf(byMeter, m), m, pool, Closed(f, closed)(m))
    {
      ShowsClosed(byMeter, a, pool, was, f, closed, m);
    }
  }

  lemma ShowsClosed(byMeter: ByMeter, a: map<RequestKey, RequestNode>, pool: set<RequestNode>, was: map<RequestKey, Request>,
                    f: string -> seq<Request>, closed: map<string, int>, m: string)
    requires Indexed(byMeter, a) && was.Keys == a.Keys && Recorded(byMeter, pool, was, f, m)
    requires forall k <- a :: a[k].View() == was[k].(closed := ClosedAt(closed, was[k].runId))
    ensures Shows(ListOf(byMeter, m), m, pool, CloseAll(f(m), closed))
  {
    var list := ListOf(byMeter, m);
    forall i | 0 <= i < |list|
      ensures list[i].View() == CloseAll(f(m), closed)[i]
    {
      assert a[RequestKey(list[i].rowId, m)] == list[i];
    }
  }

  lemma RecordTable(byMeter: ByMeter, a: map<RequestKey, RequestNode>, pool: set<RequestNode>,
                    was: map<RequestKey, Request>, f: string -> seq<Request>)
    requires Indexed(byMeter, a) && Table(byMeter, pool, f)
    requires forall m :: forall q <- f(m) :: q.closed == MAX_ID
    requires was == map k | k in a :: a[k].View()
    ensures forall m :: Recorded(byMeter, pool, was, f, m)
    ensures forall k <- a :: a[k].closed == MAX_ID
  {
    forall m
      ensures Recorded(byMeter, pool, was, f, m)
    {
      assert Shows(ListOf(byMeter, m), m, pool, f(m));
    }
    forall k | k in a
      ensures a[k].closed == MAX_ID
    {
      var list := ListOf(byMeter, k.meter);
      assert Shows(list, k.meter, pool, f(k.meter));
      var i :| 0 <= i < |list| && list[i] == a[k];
      assert f(k.meter)[i] in f(k.meter);
    }
  }

  function NodeAt(list: seq<RequestNode>, k: Option<nat>): RequestNode?
    requires k.Some? ==> k.value < |list|
  {
    if k.Some? then list[k.value] else null
  }

  lemma NodeStep(list: seq<RequestNode>, was: seq<Request>, takes: Request -> bool, k: nat)
    requires |list| == |was| && k < |was|
    ensures var f, next := FirstOpen(was, takes, k), FirstOpen(was, takes, k + 1);
            && (f.Some? <==> NodeAt(list, f) != null)
            && NodeAt(list, next) == if f.None? && takes(was[k]) && was[k].answers == [] then list[k] else NodeAt(list, f)
    ensures NodeAt(list, Newest(was, takes, k + 1)) == if takes(was[k]) then list[k] else NodeAt(list, Newest(was, takes, k))
  {
  }

  /** The request of the metering point that takes an answer: the oldest without one, else the newest. */
  method FindOwner(list: seq<RequestNode>, id: int, ghost was: seq<Request>) returns (owner: RequestNode?)
    requires |list| == |was| && forall i :: 0 <= i < |list| ==> list[i].View() == was[i]
    ensures owner == NodeAt(list, Owner(was, WindowOf(id)))
  {
    var oldestOpen: RequestNode?, newest: RequestNode? := null, null;
    ghost var takes := WindowOf(id);
    for k := 0 to |list|
      invariant oldestOpen == NodeAt(list, FirstOpen(was, takes, k))
      invariant newest == NodeAt(list, Newest(was, takes, k))
    {
      var req := list[k];
      NodeStep(list, was, takes, k);
      assert req.View() == was[k];
      if id <= req.rowId || id > req.end || id > req.closed {
        continue;
      }
      if oldestOpen == null && |req.answers| == 0 {
        oldestOpen := req;
      }
      newest := req;
    }
    owner := if oldestOpen == null then newest else oldestOpen;
  }

  /** Hands one mention of an answer to a request of the metering point. */
  method HandNode(list: seq<RequestNode>, ans: IdAnswer, ghost meter: string, ghost pool: set<RequestNode>,
                  ghost was: seq<Request>)
    requires Shows(list, meter, pool, was) && AscendingRows(was)
    modifies list
    ensures Shows(list, meter, pool, Hand(was, WindowOf(ans.id), ans))
  {
    var owner := FindOwner(list, ans.id, was);
    if owner != null {
      ghost var o := Owner(was, WindowOf(ans.id)).value;
      assert forall i :: 0 <= i < |list| && i != o ==> list[i].rowId == was[i].rowId && list[i] != list[o];
      owner.answers := owner.answers + [ans];
      assert Hand(was, WindowOf(ans.id), ans) == was[o := was[o].(answers := was[o].answers + [ans])];
    }
  }

  /** The requests of each metering point after an answer with these mentions. */
  function Handed(f: string -> seq<Request>, ans: IdAnswer, mentions: seq<string>): string -> seq<Request> {
    m => HandTimes(f(m), WindowOf(ans.id), ans, Count(mentions, m))
  }

  lemma HandedStep(f: string -> seq<Request>, ans: IdAnswer, mentions: seq<string>, j: nat)
    requires j < |mentions|
    ensures forall m :: Handed(f, ans, mentions[..j + 1])(m) ==
                        if m == mentions[j] then Hand(Handed(f, ans, mentions[..j])(m), WindowOf(ans.id), ans)
                        else Handed(f, ans, mentions[..j])(m)
  {
    var p := mentions[..j + 1];
    assert p[..|p| - 1] == mentions[..j];
    forall m
      ensures Handed(f, ans, p)(m) == if m == mentions[j] then Hand(Handed(f, ans, mentions[..j])(m), WindowOf(ans.id), ans)
                                      else Handed(f, ans, mentions[..j])(m)
    {
      assert Count(p, m) == Count(mentions[..j], m) + if m == mentions[j] then 1 else 0;
      assert Handed(f, ans, p)(m) == HandTimes(f(m), WindowOf(ans.id), ans, Count(p, m));
      assert Handed(f, ans, mentions[..j])(m) == HandTimes(f(m), WindowOf(ans.id), ans, Count(mentions[..j], m));
    }
  }

  method HandMention(byMeter: ByMeter, ans: IdAnswer, meter: string, ghost pool: set<RequestNode>,
                     ghost g: string -> seq<Request>, ghost h: string -> seq<Request>)
    requires Table(byMeter, pool, g) && AscendingRows(g(meter))
    requires forall m :: h(m) == if m == meter then Hand(g(m), WindowOf(ans.id), ans) else g(m)
    modifies pool
    ensures Table(byMeter, pool, h)
  {
    var list := ListOf(byMeter, meter);
    assert Shows(list, meter, pool, g(meter));
    HandNode(list, ans, meter, pool, g(meter));
    forall m
      ensures Shows(ListOf(byMeter, m), m, pool, h(m))
    {
      if m != meter {
        assert old(Shows(ListOf(byMeter, m), m, pool, g(m)));
      }
    }
  }

  lemma HandedAscending(f: string -> seq<Request>, ans: IdAnswer, mentions: seq<string>, m: string)
    requires AscendingRows(f(m))
    ensures AscendingRows(Handed(f, ans, mentions)(m))
  {
    HandTimesBounds(f(m), WindowOf(ans.id), ans, Count(mentions, m));
  }

  method HandAnswer(byMeter: ByMeter, ans: IdAnswer, ghost pool: set<RequestNode>, ghost f: string -> seq<Request>)
    requires Table(byMeter, pool, f) && forall m :: AscendingRows(f(m))
    modifies pool
    ensures Table(byMeter, pool, Handed(f, ans, ans.answer.meters))
  {
    var mentions := ans.answer.meters;
    TableSame(byMeter, pool, f, Handed(f, ans, mentions[..0]));
    for j := 0 to |mentions|
      invariant Table(byMeter, pool, Handed(f, ans, mentions[..j]))
    {
      HandedStep(f, ans, mentions, j);
      HandedAscending(f, ans, mentions[..j], mentions[j]);
      HandMention(byMeter, ans, mentions[j], pool, Handed(f, ans, mentions[..j]), Handed(f, ans, mentions[..j + 1]));
    }
    assert mentions[..|mentions|] == mentions;
  }

  /** The requests of each metering point after these answers. */
  function AllHanded(f: string -> seq<Request>, answers: seq<IdAnswer>): string -> seq<Request> {
    m => HandAll(m, f(m), answers)
  }

  lemma AllHandedStep(f: string -> seq<Request>, answers: seq<IdAnswer>, i: nat)
    requires i < |answers| && forall m :: AscendingRows(f(m))
    ensures forall m :: Handed(AllHanded(f, answers[..i]), answers[i], answers[i].answer.meters)(m) ==
                        AllHanded(f, answers[..i + 1])(m)
    ensures forall m :: AscendingRows(AllHanded(f, answers[..i])(m))
  {
    var p := answers[..i + 1];
    assert p[..|p| - 1] == answers[..i];
    forall m
      ensures Handed(AllHanded(f, answers[..i]), answers[i], answers[i].answer.meters)(m) == AllHanded(f, p)(m)
      ensures AscendingRows(AllHanded(f, answers[..i])(m))
    {
      assert AllHanded(f, p)(m) == HandAll(m, f(m), p);
      assert AllHanded(f, answers[..i])(m) == HandAll(m, f(m), answers[..i]);
      HandAllBounds(m, f(m), answers[..i]);
      assert AscendingRows(f(m));
    }
  }

  /** Pass two of `attribute`. */
  method HandAnswers(byMeter: ByMeter, answers: seq<IdAnswer>, ghost pool: set<RequestNode>, ghost f: string -> seq<Request>)
    requires Table(byMeter, pool, f) && forall m :: AscendingRows(f(m))
    modifies pool
    ensures Table(byMeter, pool, AllHanded(f, answers))
  {
    TableSame(byMeter, pool, f, AllHanded(f, answers[..0]));
    for i := 0 to |answers|
      invariant Table(byMeter, pool, AllHanded(f, answers[..i]))
    {
      AllHandedStep(f, answers, i);
      HandAnswer(byMeter, answers[i], pool, AllHanded(f, answers[..i]));
      TableSame(byMeter, pool, Handed(AllHanded(f, answers[..i]), answers[i], answers[i].answer.meters),
                AllHanded(f, answers[..i + 1]));
    }
    assert answers[..|answers|] == answers;
  }

  /** The answers for `meter` that belong to the run in row `rowId`, and whether a later run requests it again. */
  function BelongingOf(a: map<RequestKey, RequestNode>, rowId: int, meter: string): (seq<IdAnswer>, bool)
    reads a.Values
  {
    var key := RequestKey(rowId, meter);
    if key in a then (a[key].answers, a[key].end != MAX_ID) else ([], false)
  }

  lemma BelongingOfTable(byMeter: ByMeter, a: map<RequestKey, RequestNode>, pool: set<RequestNode>,
                         f: string -> seq<Request>, rowId: int, m: string)
    requires Indexed(byMeter, a) && Table(byMeter, pool, f) && AscendingRows(f(m))
    ensures BelongingOf(a, rowId, m) == Belonging(f(m), rowId)
  {
    var list, key := ListOf(byMeter, m), RequestKey(rowId, m);
    assert Shows(list, m, pool, f(m));
    if key in a {
      var k :| 0 <= k < |list| && list[k] == a[key];
      assert list[k].View() == f(m)[k];
      BelongingAt(f(m), k);
    } else {
      forall k | 0 <= k < |f(m)|
        ensures f(m)[k].rowId != rowId
      {
        assert list[k].View() == f(m)[k];
      }
      BelongingNone(f(m), rowId);
    }
  }

  /** Assigns the answers in `rows` to the runs of the community `ecId`; `closed` is the summaries of `rows`. For every
      metering point the result is the two-pass attribution. */
  method Attribute(cal: Calendar, ecId: string, rows: seq<Row>, tenants: set<string>, closed: map<string, int>)
    returns (a: map<RequestKey, RequestNode>)
    requires ValidRows(rows) && closed == Summaries(rows)
    ensures fresh(a.Values)
    ensures forall rowId, m :: BelongingOf(a, rowId, m) == Belonging(TwoPass(Scope(cal, ecId, tenants, m), rows), rowId)
  {
    var byMeter, answers;
    ghost var pool;
    byMeter, a, answers, pool := OpenAll(cal, ecId, rows, tenants);
    ghost var f := AllOpened(cal, ecId, tenants, rows);
    ghost var base := Closed(f, closed);
    BaseAscends(cal, ecId, tenants, rows, closed);
    CloseTable(byMeter, a, closed, pool, f);
    HandAnswers(byMeter, answers, pool, base);
    forall rowId, m
      ensures BelongingOf(a, rowId, m) == Belonging(TwoPass(Scope(cal, ecId, tenants, m), rows), rowId)
    {
      HandAllBounds(m, base(m), answers);
      BelongingOfTable(byMeter, a, pool, AllHanded(base, answers), rowId, m);
    }
  }

  lemma BaseAscends(cal: Calendar, ecId: string, tenants: set<string>, rows: seq<Row>, closed: map<string, int>)
    requires ValidRows(rows)
    ensures forall m :: AscendingRows(Closed(AllOpened(cal, ecId, tenants, rows), closed)(m))
    ensures forall m :: forall q <- AllOpened(cal, ecId, tenants, rows)(m) :: q.closed == MAX_ID
  {
    var t := if rows == [] then 0 else rows[|rows| - 1].id + 1;
    forall m
      ensures AscendingRows(Closed(AllOpened(cal, ecId, tenants, rows), closed)(m))
      ensures forall q <- AllOpened(cal, ecId, tenants, rows)(m) :: q.closed == MAX_ID
    {
      var s := Scope(cal, ecId, tenants, m);
      OpenedBefore(s, rows, t);
      OpenedAscending(s, rows, t);
      assert AllOpened(cal, ecId, tenants, rows)(m) == Opened(s, rows);
      assert Closed(AllOpened(cal, ecId, tenants, rows), closed)(m) == CloseAll(Opened(s, rows), closed);
    }
  }

  lemma InPool(byMeter: ByMeter, a: map<RequestKey, RequestNode>, pool: set<RequestNode>, f: string -> seq<Request>)
    requires Indexed(byMeter, a) && Table(byMeter, pool, f)
    ensures a.Values <= pool
  {
    forall k | k in a
      ensures a[k] in pool
    {
      assert Shows(ListOf(byMeter, k.meter), k.meter, pool, f(k.meter));
    }
  }
}
