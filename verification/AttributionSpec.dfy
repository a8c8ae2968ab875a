/** What attributing answers to requests means, for one metering point of one community (energyrequest/attribution.go).

    `TwoPass` is the computation of the program: build all requests with their row windows, then hand out the answers.
    `Online` is the process it stands for: row by row, open, supersede and close requests and hand over each answer
    when it arrives. */
module AttributionSpec {
  import opened Wrappers
  import opened EnergyTypes

  datatype IdAnswer = IdAnswer(id: int, answer: Answer)

  /** One metering point of a run. `end` is the row of the request that supersedes it, `closed` the row of its run's
      stored summary; MAX_ID when there is none. */
  datatype Request = Request(rowId: int, runId: string, from: int, to: int, end: int, closed: int,
                             answers: seq<IdAnswer>)

  /** The community, its tenants and the metering point that are looked at. */
  datatype Scope = Scope(cal: Calendar, ecId: string, tenants: set<string>, meter: string)

  /** Whether two day-granular periods share a day. */
  predicate Overlaps(cal: Calendar, fromA: int, toA: int, fromB: int, toB: int) {
    cal(fromA) <= cal(toB) && cal(fromB) <= cal(toA)
  }

  function Supersede(cal: Calendar, reqs: seq<Request>, e: MeterRange, id: int): (r: seq<Request>)
    ensures |r| == |reqs|
  {
    seq(|reqs|, i requires 0 <= i < |reqs| =>
      if reqs[i].end == MAX_ID && Overlaps(cal, reqs[i].from, reqs[i].to, e.from, e.to)
      then reqs[i].(end := id) else reqs[i])
  }

  function NewRequest(row: Row, e: MeterRange, closed: int): Request
    requires row.IsRun()
  {
    Request(row.id, row.content.run.runId, e.from, e.to, MAX_ID, closed, [])
  }

  /** Pass one: the requests of the metering point in row order, superseded by later overlapping ones. */
  function Opened(s: Scope, rows: seq<Row>): seq<Request> {
    if rows == [] then []
    else
      var prev, r := Opened(s, rows[..|rows| - 1]), rows[|rows| - 1];
      if !r.IsRunOf(s.ecId, s.tenants) then prev
      else match EntryOf(r.content.run.meters, s.meter)
        case None => prev
        case Some(e) => Supersede(s.cal, prev, e, r.id) + [NewRequest(r, e, MAX_ID)]
  }

  /** The row of each stored summary, by run id; of several the last. */
  function Summaries(rows: seq<Row>): map<string, int> {
    if rows == [] then map[]
    else
      var prev, r := Summaries(rows[..|rows| - 1]), rows[|rows| - 1];
      if r.IsSummary() then prev[r.content.summary.runId := r.id] else prev
  }

  function ClosedAt(closed: map<string, int>, runId: string): int {
    if runId in closed then closed[runId] else MAX_ID
  }

  function CloseAll(reqs: seq<Request>, closed: map<string, int>): (r: seq<Request>)
    ensures |r| == |reqs|
  {
    seq(|reqs|, i requires 0 <= i < |reqs| => reqs[i].(closed := ClosedAt(closed, reqs[i].runId)))
  }

  function AnswersOf(tenants: set<string>, rows: seq<Row>): seq<IdAnswer> {
    if rows == [] then []
    else
      var prev, r := AnswersOf(tenants, rows[..|rows| - 1]), rows[|rows| - 1];
      if r.IsAnswerOf(tenants) then prev + [IdAnswer(r.id, r.content.answer)] else prev
  }

  /** Whether row `id` lies in the rows in which the request can take answers. */
  predicate InWindow(req: Request, id: int) {
    req.rowId < id <= req.end && id <= req.closed
  }

  /** The first of the first `n` requests that may take the answer and has none yet. */
  function FirstOpen(reqs: seq<Request>, takes: Request -> bool, n: nat): (k: Option<nat>)
    requires n <= |reqs|
    ensures k.Some? ==> k.value < n && takes(reqs[k.value]) && reqs[k.value].answers == []
    ensures forall i :: 0 <= i < (if k.Some? then k.value else n) && takes(reqs[i]) ==> reqs[i].answers != []
  {
    if n == 0 then None
    else
      var k := FirstOpen(reqs, takes, n - 1);
      if k.None? && takes(reqs[n - 1]) && reqs[n - 1].answers == [] then Some(n - 1) else k
  }

  /** The last of the first `n` requests that may take the answer. */
  function Newest(reqs: seq<Request>, takes: Request -> bool, n: nat): (k: Option<nat>)
    requires n <= |reqs|
    ensures k.Some? ==> k.value < n && takes(reqs[k.value])
    ensures forall i :: (if k.Some? then k.value + 1 else 0) <= i < n ==> !takes(reqs[i])
  {
    if n == 0 then None
    else if takes(reqs[n - 1]) then Some(n - 1) else Newest(reqs, takes, n - 1)
  }

  function Owner(reqs: seq<Request>, takes: Request -> bool): (k: Option<nat>)
    ensures k.Some? ==> k.value < |reqs| && takes(reqs[k.value])
    ensures k.None? <==> forall r <- reqs :: !takes(r)
  {
    var k := FirstOpen(reqs, takes, |reqs|);
    if k.Some? then k else Newest(reqs, takes, |reqs|)
  }

  function Hand(reqs: seq<Request>, takes: Request -> bool, a: IdAnswer): (r: seq<Request>)
    ensures |r| == |reqs|
  {
    match Owner(reqs, takes)
    case None => reqs
    case Some(k) => reqs[k := reqs[k].(answers := reqs[k].answers + [a])]
  }

  /** An answer may name the metering point several times: each mention is handed over. */
  function HandTimes(reqs: seq<Request>, takes: Request -> bool, a: IdAnswer, n: nat): (r: seq<Request>)
    ensures |r| == |reqs|
  {
    if n == 0 then reqs else Hand(HandTimes(reqs, takes, a, n - 1), takes, a)
  }

  function WindowOf(id: int): Request -> bool {
    (r: Request) => InWindow(r, id)
  }

  /** Pass two. */
  function HandAll(meter: string, reqs: seq<Request>, answers: seq<IdAnswer>): (r: seq<Request>)
    ensures |r| == |reqs|
  {
    if answers == [] then reqs
    else
      var a := answers[|answers| - 1];
      HandTimes(HandAll(meter, reqs, answers[..|answers| - 1]), WindowOf(a.id), a, Count(a.answer.meters, meter))
  }

  function TwoPass(s: Scope, rows: seq<Row>): seq<Request> {
    HandAll(s.meter, CloseAll(Opened(s, rows), Summaries(rows)), AnswersOf(s.tenants, rows))
  }

  /** What belongs to the run in row `rowId`: its answers, and whether a later run requests the period again. */
  function Belonging(reqs: seq<Request>, rowId: int): (seq<IdAnswer>, bool) {
    if reqs == [] then ([], false)
    else if reqs[0].rowId == rowId then (reqs[0].answers, reqs[0].end != MAX_ID)
    else Belonging(reqs[1..], rowId)
  }

  predicate LastRejected(answers: seq<IdAnswer>) {
    answers != [] && !answers[|answers| - 1].answer.accepted
  }

  // ----- the online process

  predicate IsOpen(r: Request) {
    r.end == MAX_ID && r.closed == MAX_ID
  }

  function CloseRun(reqs: seq<Request>, runId: string, id: int): (r: seq<Request>)
    ensures |r| == |reqs|
  {
    seq(|reqs|, i requires 0 <= i < |reqs| =>
      if reqs[i].runId == runId && reqs[i].closed == MAX_ID then reqs[i].(closed := id) else reqs[i])
  }

  function OnlineStep(s: Scope, reqs: seq<Request>, closed: map<string, int>, r: Row): seq<Request> {
    if r.IsRunOf(s.ecId, s.tenants) then
      match EntryOf(r.content.run.meters, s.meter)
      case None => reqs
      case Some(e) => Supersede(s.cal, reqs, e, r.id) + [NewRequest(r, e, ClosedAt(closed, r.content.run.runId))]
    else if r.IsAnswerOf(s.tenants) then
      HandTimes(reqs, IsOpen, IdAnswer(r.id, r.content.answer), Count(r.content.answer.meters, s.meter))
    else if r.IsSummary() then CloseRun(reqs, r.content.summary.runId, r.id)
    else reqs
  }

  function Online(s: Scope, rows: seq<Row>): seq<Request> {
    if rows == [] then []
    else
      var init := rows[..|rows| - 1];
      OnlineStep(s, Online(s, init), Summaries(init), rows[|rows| - 1])
  }
}
