/** The states of a metering point and the messages of the grid operator that change them
    (database/meteringPointDao.go, eda/edaSubscription.go, eda/edaHelpers.go). Dates are day numbers. */
module Lifecycle {
  import opened Wrappers
  import opened EnergyTypes

  datatype ProcessState =
    | NEW | INIT | PENDING | APPROVED | ACTIVE | INACTIVE | REJECTED | REVOKED | INVALID | ARCHIVED | ABORTED | WARN

  datatype Stamp = Stamp(at: int, user: string)

  /** A row of base.meteringpoint. */
  datatype Entry = Entry(tenant: string, meter: string, flag: Flag, status: Status, process: ProcessState,
                         activeSince: Option<int>, inactiveSince: Option<int>, lastProcess: Option<ProcessState>,
                         statusCode: Option<int>, consentId: Option<string>, modified: Stamp)

  /** 31.12.2999, in days since 1.1.1970. */
  const END_OF_TIME: int := 376_199
  /** Codes that concern the request, not the metering point (172, 173: consent refused or not answered, 183, 188: sums
      above 100 %). */
  const KEEP_ACTIVE_CODES: seq<int> := [172, 173, 183, 188]
  const INVALID_CODES: seq<int> := [56, 57, 76, 104, 157, 158, 159, 172, 173, 177, 181, 184, 185, 188, 196, 204]
  const VALID_CODES: seq<int> := [156]
  const IGNORE_CODES: seq<int> := [86]

  // ----- codes

  function Intersection(expected: seq<int>, codes: seq<int>): seq<int> {
    if codes == [] then []
    else
      var c := codes[|codes| - 1];
      Intersection(expected, codes[..|codes| - 1]) + if c in expected then [c] else []
  }

  lemma {:induction false} IntersectionMembers(expected: seq<int>, codes: seq<int>, c: int)
    ensures c in Intersection(expected, codes) <==> c in expected && c in codes
  {
    if codes != [] {
      IntersectionMembers(expected, codes[..|codes| - 1], c);
      assert codes == codes[..|codes| - 1] + [codes[|codes| - 1]];
    }
  }

  predicate Distinct(s: seq<int>) {
    forall i, j :: 0 <= i < j < |s| ==> s[i] != s[j]
  }

  method IntersectCodes(expected: seq<int>, codes: seq<int>) returns (r: seq<int>)
    requires Distinct(expected)
    ensures r == Intersection(expected, codes)
  {
    r := [];
    for i := 0 to |codes|
      invariant r == Intersection(expected, codes[..i])
    {
      ghost var before := r;
      assert codes[..i + 1][..i] == codes[..i];
      for j := 0 to |expected|
        invariant r == before + if codes[i] in expected[..j] then [codes[i]] else []
      {
        assert expected[..j + 1] == expected[..j] + [expected[j]];
        assert forall k :: 0 <= k < j ==> expected[k] != expected[j];
        if codes[i] == expected[j] {
          r := r + [codes[i]];
        }
      }
      assert expected[..|expected|] == expected;
    }
    assert codes[..|codes|] == codes;
  }

  method CodesContains(expected: seq<int>, codes: seq<int>) returns (r: bool)
    requires Distinct(expected)
    ensures r <==> exists c <- codes :: c in expected
  {
    var both := IntersectCodes(expected, codes);
    r := |both| > 0;
    SomeInBoth(expected, codes);
  }

  lemma SomeInBoth(expected: seq<int>, codes: seq<int>)
    ensures Intersection(expected, codes) != [] <==> exists c <- codes :: c in expected
  {
    var both := Intersection(expected, codes);
    if both != [] {
      IntersectionMembers(expected, codes, both[0]);
    }
    if c :| c in codes && c in expected {
      IntersectionMembers(expected, codes, c);
    }
  }

  predicate AllKeepActive(codes: seq<int>) {
    forall c <- codes :: c in KEEP_ACTIVE_CODES
  }

  /** The code stored for a rejection: one that concerns the metering point wins, so the stored code keeps an active
      metering point active exactly when all candidates do. */
  method RejectionCode(candidates: seq<int>) returns (c: int)
    requires candidates != []
    ensures c in candidates
    ensures c in KEEP_ACTIVE_CODES <==> AllKeepActive(candidates)
    ensures if AllKeepActive(candidates) then c == candidates[0]
            else exists i :: 0 <= i < |candidates| && candidates[i] == c && AllKeepActive(candidates[..i])
  {
    for i := 0 to |candidates|
      invariant AllKeepActive(candidates[..i])
    {
      assert candidates[..i + 1] == candidates[..i] + [candidates[i]];
      if candidates[i] !in KEEP_ACTIVE_CODES {
        return candidates[i];
      }
    }
    assert candidates[..|candidates|] == candidates;
    c := candidates[0];
  }

  // ----- the statements, on one row

  /** What meteringPointsSetStatus is called with. */
  datatype Change = Change(state: ProcessState, code: Option<int>, activeSince: Option<int>, consentId: Option<string>)

  /** Took part and does no longer. */
  predicate Ended(e: Entry) {
    e.status == S_INACTIVE && e.inactiveSince.Some? && e.activeSince.Some?
  }

  predicate IsRejection(c: Change) {
    c.state == INVALID || c.state == REJECTED
  }

  predicate KeepsActive(c: Change) {
    c.code.Some? && c.code.value in KEEP_ACTIVE_CODES
  }

  function NextProcess(e: Entry, c: Change): ProcessState {
    if !IsRejection(c) then
      if c.state == APPROVED && e.process == ACTIVE then ACTIVE else c.state
    else if Ended(e) then INACTIVE
    else if KeepsActive(c) && e.status == S_ACTIVE then
      if e.process in {INIT, PENDING, APPROVED} then ACTIVE else e.process
    else c.state
  }

  function NextLast(e: Entry, c: Change): Option<ProcessState> {
    if IsRejection(c) && (Ended(e) || (KeepsActive(c) && e.status == S_ACTIVE)) then Some(c.state) else None
  }

  function Coalesce<T>(a: Option<T>, b: Option<T>): Option<T> {
    if a.Some? then a else b
  }

  function SetStatus(e: Entry, c: Change, at: int): Entry {
    e.(process := NextProcess(e, c), lastProcess := NextLast(e, c), modified := Stamp(at, "EVU"),
       consentId := Coalesce(c.consentId, e.consentId), statusCode := Coalesce(c.code, e.statusCode),
       status := if c.state == ACTIVE then S_ACTIVE else e.status,
       activeSince := Coalesce(e.activeSince, c.activeSince),
       inactiveSince := if c.activeSince.Some? then Some(END_OF_TIME) else e.inactiveSince)
  }

  /** A competing attempt is withdrawn: an ended entry goes back to INACTIVE. */
  function Restore(e: Entry): Entry {
    if Ended(e) && e.process == INIT then e.(process := INACTIVE) else e
  }

  function Revoke(e: Entry, end: int, at: int): Entry {
    e.(process := INACTIVE, status := S_INACTIVE, modified := Stamp(at, "EVU"), inactiveSince := Some(end))
  }

  /** Only an active participation that began by then ends. */
  predicate EndsActive(e: Entry, end: int) {
    e.status == S_ACTIVE && (e.activeSince.Some? ==> e.activeSince.value <= end)
  }

  /** A row that ends here while it carries a rejection. */
  predicate EndsRejected(e: Entry) {
    e.status != S_INIT && e.inactiveSince.Some? && e.activeSince.Some? && (e.process == INVALID || e.process == REJECTED)
  }

  function RevokeConsent(e: Entry, end: int, at: int): Entry {
    e.(process := if e.process == ACTIVE || EndsRejected(e) then INACTIVE else e.process,
       lastProcess := if EndsRejected(e) then Some(e.process) else e.lastProcess,
       status := if e.status == S_INIT then S_INIT else S_INACTIVE, modified := Stamp(at, "EVU"),
       inactiveSince := if e.inactiveSince.Some? then Some(end) else None)
  }

  /** A metering point of the grid operator's list. */
  datatype ListMeter = ListMeter(meter: string, from: int, consentId: Option<string>)

  function Sync(e: Entry, m: ListMeter, day: int -> int, at: int): Entry {
    var since := day(m.from);
    e.(status := S_ACTIVE, process := ACTIVE, modified := Stamp(at, "ec_podlist"),
       consentId := Coalesce(m.consentId, e.consentId), inactiveSince := Some(END_OF_TIME),
       activeSince := if e.activeSince.None? || e.activeSince.value >= since then Some(since) else e.activeSince)
  }

  // ----- one message on one row

  datatype Event =
    | SetStatusOf(tenant: string, meters: seq<string>, change: Change, at: int)
    | RestoreOf(tenant: string, meter: string)
    | RevokeOf(tenant: string, meter: string, end: int, at: int)
    | RevokeActiveOf(tenant: string, meter: string, end: int, at: int)
    | RevokeConsentOf(hit: Entry -> bool, end: int, at: int)
    | SyncOf(tenant: string, entry: ListMeter, day: int -> int, at: int)

  predicate IsAssigned(e: Entry, tenant: string, meters: seq<string>) {
    e.tenant == tenant && e.meter in meters && e.flag == Assigned
  }

  /** The WHERE of the statement. */
  function Where(ev: Event): Entry -> bool {
    match ev
    case SetStatusOf(tenant, meters, _, _) => (e: Entry) => IsAssigned(e, tenant, meters)
    case RestoreOf(tenant, meter) => (e: Entry) => IsAssigned(e, tenant, [meter])
    case RevokeOf(tenant, meter, _, _) => (e: Entry) => IsAssigned(e, tenant, [meter])
    case RevokeActiveOf(tenant, meter, end, _) => (e: Entry) => IsAssigned(e, tenant, [meter]) && EndsActive(e, end)
    case RevokeConsentOf(hit, _, _) => hit
    case SyncOf(tenant, m, _, _) => (e: Entry) => IsAssigned(e, tenant, [m.meter])
  }

  /** The SET of the statement. */
  function SetOf(ev: Event): Entry -> Entry {
    match ev
    case SetStatusOf(_, _, change, at) => (e: Entry) => SetStatus(e, change, at)
    case RestoreOf(_, _) => (e: Entry) => Restore(e)
    case RevokeOf(_, _, end, at) => (e: Entry) => Revoke(e, end, at)
    case RevokeActiveOf(_, _, end, at) => (e: Entry) => Revoke(e, end, at)
    case RevokeConsentOf(_, end, at) => (e: Entry) => RevokeConsent(e, end, at)
    case SyncOf(_, m, day, at) => (e: Entry) => Sync(e, m, day, at)
  }

  function Apply(ev: Event, e: Entry): Entry {
    if Where(ev)(e) then SetOf(ev)(e) else e
  }

  function After(events: seq<Event>, e: Entry): Entry {
    if events == [] then e else Apply(events[|events| - 1], After(events[..|events| - 1], e))
  }

  /** The table after the statements. */
  ghost predicate AllAfter(events: seq<Event>, before: seq<Entry>, after: seq<Entry>) {
    |after| == |before| && forall i :: 0 <= i < |after| ==> after[i] == After(events, before[i])
  }

  // ----- what every message keeps

  /** Never back to INIT; the start date stays, or moves back in time; the last process state is a rejection. */
  predicate Evolves(e: Entry, f: Entry) {
    && (f.status == S_INIT ==> e.status == S_INIT)
    && (e.activeSince.Some? ==> f.activeSince.Some? && f.activeSince.value <= e.activeSince.value)
    && (f.lastProcess != e.lastProcess ==> f.lastProcess in {None, Some(INVALID), Some(REJECTED)})
    && f.tenant == e.tenant && f.meter == e.meter && f.flag == e.flag
  }

  lemma ApplyEvolves(ev: Event, e: Entry)
    ensures Evolves(e, Apply(ev, e))
  {
  }

  /** Over any run of messages, in any order. */
  lemma {:induction false} AfterEvolves(events: seq<Event>, e: Entry)
    ensures Evolves(e, After(events, e))
  {
    if events != [] {
      var init := events[..|events| - 1];
      AfterEvolves(init, e);
      ApplyEvolves(events[|events| - 1], After(init, e));
    }
  }

  // ----- a rejected request leaves what was before

  /** A message of a registration in flight. */
  predicate IsRequest(ev: Event) {
    ev.SetStatusOf? && ev.change.state in {INIT, PENDING, APPROVED} && ev.change.activeSince.None?
  }

  /** None of the messages carries a code to store. */
  ghost predicate WithoutCodes(events: seq<Event>) {
    forall ev <- events :: ev.SetStatusOf? ==> ev.change.code.None?
  }

  /** The same participation. */
  predicate SamePeriod(e: Entry, f: Entry) {
    f.status == e.status && f.activeSince == e.activeSince && f.inactiveSince == e.inactiveSince
  }

  lemma {:induction false} RequestsKeepPeriod(events: seq<Event>, e: Entry)
    requires forall ev <- events :: IsRequest(ev)
    ensures SamePeriod(e, After(events, e))
    ensures WithoutCodes(events) ==> After(events, e).statusCode == e.statusCode
    ensures After(events, e).process == e.process || After(events, e).process in {INIT, PENDING, APPROVED}
    ensures After(events, e).tenant == e.tenant && After(events, e).meter == e.meter && After(events, e).flag == e.flag
  {
    if events != [] {
      var init, ev := events[..|events| - 1], events[|events| - 1];
      assert forall x <- init :: x in events;
      RequestsKeepPeriod(init, e);
      assert ev in events;
    }
  }

  predicate Rejects(ev: Event, e: Entry) {
    ev.SetStatusOf? && IsRejection(ev.change) && ev.change.activeSince.None? && IsAssigned(e, ev.tenant, ev.meters)
  }

  /** Whatever messages of a new registration came, in any order: its rejection leaves an ended entry INACTIVE with its
      dates, and notes the rejection. */
  lemma RejectionRestoresEnded(events: seq<Event>, e: Entry, rejection: Event)
    requires (forall ev <- events :: IsRequest(ev)) && Ended(e) && Rejects(rejection, e)
    ensures var f := After(events + [rejection], e);
            && SamePeriod(e, f) && f.process == INACTIVE && f.lastProcess == Some(rejection.change.state)
            && (rejection.change.code.Some? ==> f.statusCode == rejection.change.code)
            && (rejection.change.code.None? && WithoutCodes(events) ==> f.statusCode == e.statusCode)
  {
    RequestsKeepPeriod(events, e);
    assert (events + [rejection])[..|events|] == events;
  }

  /** It leaves an active metering point ACTIVE exactly when the stored code concerns the request only; with another
      code it takes the rejected state. It stays a participant in both cases. */
  lemma RejectionRestoresActive(events: seq<Event>, e: Entry, rejection: Event)
    requires (forall ev <- events :: IsRequest(ev)) && e.status == S_ACTIVE && e.process == ACTIVE && Rejects(rejection, e)
    ensures var f := After(events + [rejection], e);
            && SamePeriod(e, f) && (f.process == ACTIVE <==> KeepsActive(rejection.change))
            && (f.process != ACTIVE ==> f.process == rejection.change.state && f.lastProcess == None)
  {
    RequestsKeepPeriod(events, e);
    assert (events + [rejection])[..|events|] == events;
  }

  /** A withdrawn competing attempt: the request and its withdrawal cancel out on an ended entry at rest. */
  lemma RequestAndRestoreCancel(e: Entry, request: Event, restore: Event)
    requires Ended(e) && e.process == INACTIVE && IsRequest(request) && request.change.state == INIT
    requires IsAssigned(e, request.tenant, request.meters)
    requires restore.RestoreOf? && IsAssigned(e, restore.tenant, [restore.meter])
    ensures var f := After([request, restore], e);
            f == e.(lastProcess := None, modified := Stamp(request.at, "EVU"),
              consentId := Coalesce(request.change.consentId, e.consentId),
                    statusCode := Coalesce(request.change.code, e.statusCode))
  {
    assert [request, restore][..1] == [request] && [request][..0] == [];
    assert After([], e) == e && After([request], e) == Apply(request, e);
  }

  // ----- completion and approval in any order

  /** Equal but for the consent and who changed it when. */
  predicate AlikeButConsent(e: Entry, f: Entry) {
    f.(consentId := e.consentId, modified := e.modified) == e
  }

  /** Both orders lead to the same active row up to consent and stamp if and only if not both messages carry a code of
      their own; a completion carries none. */
  lemma CompletionAndApprovalCommute(e: Entry, completion: Change, approval: Change, at: int, at': int)
    requires completion.state == ACTIVE && completion.activeSince.Some?
    requires approval.state == APPROVED && approval.activeSince.None?
    ensures var f := SetStatus(SetStatus(e, approval, at), completion, at');
            var g := SetStatus(SetStatus(e, completion, at), approval, at');
            && f.status == g.status == S_ACTIVE && f.process == g.process == ACTIVE
            && (AlikeButConsent(f, g) <==>
                completion.code.None? || approval.code.None? || completion.code == approval.code)
  {
  }

  // ----- what the statements mean, said of a row before and after

  /** A rejection with the state: noted on an ended entry, which is INACTIVE, and on an active one whose codes concern the
      request only; else the entry takes the state. */
  predicate TakesRejection(state: ProcessState, keepsActive: bool, e: Entry, f: Entry) {
    if e.status == S_INACTIVE && e.activeSince.Some? && e.inactiveSince.Some? then
      f.process == INACTIVE && f.lastProcess == Some(state)
    else if keepsActive && e.status == S_ACTIVE then
      f.process == (if e.process in {INIT, PENDING, APPROVED} then ACTIVE else e.process) && f.lastProcess == Some(state)
    else f.process == state && f.lastProcess == None
  }

  /** The state, dates, code and consent of a change. */
  predicate IsSet(e: Entry, f: Entry, c: Change, at: int) {
    && f.tenant == e.tenant && f.meter == e.meter && f.flag == e.flag && f.modified == Stamp(at, "EVU")
    && f.status == (if c.state == ACTIVE then S_ACTIVE else e.status)
    && f.activeSince == (if e.activeSince.Some? then e.activeSince else c.activeSince)
    && f.inactiveSince == (if c.activeSince.Some? then Some(376_199) else e.inactiveSince)
    && f.statusCode == (if c.code.Some? then c.code else e.statusCode)
    && f.consentId == (if c.consentId.Some? then c.consentId else e.consentId)
    && if c.state == INVALID || c.state == REJECTED
       then TakesRejection(c.state, c.code.Some? && c.code.value in {172, 173, 183, 188}, e, f)
       else f.process == (if c.state == APPROVED && e.process == ACTIVE then ACTIVE else c.state) && f.lastProcess == None
  }

  /** An entry that took part and does no longer is INACTIVE again instead of INIT; every other entry stays. */
  predicate IsRestored(e: Entry, f: Entry) {
    f == if e.status == S_INACTIVE && e.activeSince.Some? && e.inactiveSince.Some? && e.process == INIT
         then e.(process := INACTIVE) else e
  }

  /** It ends on the day. */
  predicate IsEnded(e: Entry, f: Entry, end: int, at: int) {
    f == e.(status := S_INACTIVE, process := INACTIVE, inactiveSince := Some(end), modified := Stamp(at, "EVU"))
  }

  // ----- the table

  class MeteringPoints {
    var rows: seq<Entry>

    constructor (rows: seq<Entry>)
      ensures this.rows == rows
    {
      this.rows := rows;
    }

    /** One UPDATE; how many rows it changed. */
    method Update(ev: Event) returns (changed: nat)
      modifies this
      ensures |rows| == |old(rows)| && forall i :: 0 <= i < |rows| ==> rows[i] == Apply(ev, old(rows)[i])
      ensures changed > 0 <==> exists e <- old(rows) :: Where(ev)(e)
    {
      changed := 0;
      for i := 0 to |rows|
        invariant |rows| == |old(rows)|
        invariant forall j :: 0 <= j < |rows| ==> rows[j] == if j < i then Apply(ev, old(rows)[j]) else old(rows)[j]
        invariant changed > 0 <==> exists j :: 0 <= j < i && Where(ev)(old(rows)[j])
      {
        if Where(ev)(rows[i]) {
          rows := rows[i := SetOf(ev)(rows[i])];
          changed := changed + 1;
        }
      }
    }

    method MeteringPointsSetStatus(tenant: string, meters: seq<string>, change: Change, at: int)
      modifies this
      ensures |rows| == |old(rows)|
      ensures forall i :: 0 <= i < |rows| ==> rows[i] == Apply(SetStatusOf(tenant, meters, change, at), old(rows)[i])
      ensures forall i :: 0 <= i < |rows| ==>
                var e := old(rows)[i];
                if e.tenant == tenant && e.meter in meters && e.flag == Assigned
                then IsSet(e, rows[i], change, at) else rows[i] == e
    {
      var _ := Update(SetStatusOf(tenant, meters, change, at));
    }

    method RestoreProcessState(tenant: string, meter: string)
      modifies this
      ensures |rows| == |old(rows)|
      ensures forall i :: 0 <= i < |rows| ==> rows[i] == Apply(RestoreOf(tenant, meter), old(rows)[i])
      ensures forall i :: 0 <= i < |rows| ==>
                var e := old(rows)[i];
                if e.tenant == tenant && e.meter == meter && e.flag == Assigned then IsRestored(e, rows[i]) else rows[i] == e
    {
      var _ := Update(RestoreOf(tenant, meter));
    }

    /** Ends the participation, whatever its state. */
    method MeteringPointRevoke(tenant: string, meter: string, end: int, at: int)
      modifies this
      ensures |rows| == |old(rows)|
      ensures forall i :: 0 <= i < |rows| ==>
                var e := old(rows)[i];
                if e.tenant == tenant && e.meter == meter && e.flag == Assigned then IsEnded(e, rows[i], end, at) else rows[i] == e
    {
      var _ := Update(RevokeOf(tenant, meter, end, at));
    }

    /** Returns whether a row changed: then it was active before and no active one that this message ends is left. */
    method RevokeActive(tenant: string, meter: string, end: int, at: int) returns (changed: bool)
      modifies this
      ensures |rows| == |old(rows)|
      ensures forall i :: 0 <= i < |rows| ==> rows[i] == Apply(RevokeActiveOf(tenant, meter, end, at), old(rows)[i])
      ensures forall i :: 0 <= i < |rows| ==>
                var e := old(rows)[i];
                if e.tenant == tenant && e.meter == meter && e.flag == Assigned && e.status == S_ACTIVE &&
                   (e.activeSince.Some? ==> e.activeSince.value <= end)
                then IsEnded(e, rows[i], end, at) else rows[i] == e
      ensures changed <==> exists e <- old(rows) :: IsAssigned(e, tenant, [meter]) && EndsActive(e, end)
      ensures forall e <- rows :: !(IsAssigned(e, tenant, [meter]) && EndsActive(e, end))
    {
      var ev := RevokeActiveOf(tenant, meter, end, at);
      ghost var before := rows;
      var n := Update(ev);
      changed := n > 0;
      assert forall e <- before :: Where(ev)(e) <==> IsAssigned(e, tenant, [meter]) && EndsActive(e, end);
    }

    /** UpdateActiveMeteringPoints. */
    method UpdateActive(tenant: string, list: seq<ListMeter>, day: int -> int, at: int)
      modifies this
      ensures AllSynced(tenant, list, day, at, old(rows), rows) && ListMeans(tenant, list, day, at, old(rows), rows)
    {
      var standard := Standardize(list);
      ghost var events := SyncEvents(tenant, standard, day, at);
      for k := 0 to |standard|
        invariant AllAfter(events[..k], old(rows), rows)
      {
        var _ := Update(SyncOf(tenant, standard[k], day, at));
        assert events[..k + 1][..k] == events[..k] && events[k] == SyncOf(tenant, standard[k], day, at);
      }
      assert events[..|standard|] == events;
      SyncedAll(tenant, list, standard, day, at, old(rows), rows);
      SyncedMeans(tenant, list, day, at, old(rows), rows);
    }
  }

  // ----- one entry per metering point

  /** The entries of a metering point, in the order of the list. */
  function EntriesOf(list: seq<ListMeter>, meter: string): (r: seq<ListMeter>)
    ensures forall m :: m in r <==> m in list && m.meter == meter
  {
    if list == [] then []
    else
      var init, last := list[..|list| - 1], list[|list| - 1];
      assert list == init + [last];
      EntriesOf(init, meter) + if last.meter == meter then [last] else []
  }

  /** The latest start after 1.1.1970, 0 when there is none. */
  function LatestStart(list: seq<ListMeter>): (at: int)
    ensures at >= 0 && forall m <- list :: m.from <= at
  {
    if list == [] then 0
    else
      var at, last := LatestStart(list[..|list| - 1]), list[|list| - 1];
      assert list == list[..|list| - 1] + [last];
      if last.from > at then last.from else at
  }

  /** The first entry with that start, the first of all when there is none. */
  function LatestIndex(list: seq<ListMeter>): (k: nat)
    ensures k == 0 || k < |list|
    ensures LatestStart(list) > 0 ==> k < |list| && list[k].from == LatestStart(list)
    ensures LatestStart(list) == 0 ==> k == 0
    ensures forall j :: 0 <= j < k ==> list[j].from < LatestStart(list)
  {
    if list == [] then 0
    else
      var init, last := list[..|list| - 1], list[|list| - 1];
      if last.from > LatestStart(init) then |list| - 1 else LatestIndex(init)
  }

  function Latest(list: seq<ListMeter>): ListMeter
    requires list != []
  {
    list[LatestIndex(list)]
  }

  /** findEarliestActivation. */
  method LatestActivation(list: seq<ListMeter>) returns (m: ListMeter)
    requires list != []
    ensures m == Latest(list)
  {
    if |list| == 1 {
      return list[0];
    }
    var at, idx := 0, 0;
    for i := 0 to |list|
      invariant at == LatestStart(list[..i]) && idx == LatestIndex(list[..i])
    {
      assert list[..i + 1][..i] == list[..i];
      if list[i].from > at {
        at, idx := list[i].from, i;
      }
    }
    assert list[..|list|] == list;
    m := list[idx];
  }

  /** No other entry starts earlier. */
  predicate StartsFirst(list: seq<ListMeter>, m: ListMeter) {
    forall x <- list :: m.from <= x.from
  }

  /** The entry taken starts first if and only if all entries start at the same time, or none after 1.1.1970 and the first
      of the list starts first. */
  lemma LatestStartsFirstIff(list: seq<ListMeter>)
    requires list != []
    ensures StartsFirst(list, Latest(list)) <==>
            (forall x <- list, y <- list :: x.from == y.from) || ((forall x <- list :: x.from <= 0) && StartsFirst(list, list[0]))
  {
    if LatestStart(list) > 0 {
      assert Latest(list) in list && list[0] in list;
      assert StartsFirst(list, Latest(list)) ==> forall x <- list :: x.from == LatestStart(list);
    }
  }

  /** Of two entries from 1 and 2 the later is taken. */
  lemma LaterIsTaken(meter: string)
    ensures var list := [ListMeter(meter, 1, None), ListMeter(meter, 2, None)];
            Latest(list) == list[1] && !StartsFirst(list, Latest(list))
  {
    var list := [ListMeter(meter, 1, None), ListMeter(meter, 2, None)];
    assert list[..1] == [list[0]] && list[..1][..0] == [];
    assert LatestStart(list[..1]) == 1;
    assert list[0] in list;
  }

  /** The list holds one entry per metering point: of its entries in `list` the one that starts last. */
  ghost predicate IsStandard(list: seq<ListMeter>, standard: seq<ListMeter>) {
    DistinctEntries(standard) && (forall m <- standard :: IsTaken(list, m)) && forall x <- list :: HasEntry(standard, x.meter)
  }

  /** StandardizeMeteringPointList; the metering points come in any order. */
  method Standardize(list: seq<ListMeter>) returns (standard: seq<ListMeter>)
    ensures IsStandard(list, standard)
  {
    var byMeter := GroupByMeter(list);
    standard := [];
    var todo := byMeter.Keys;
    while todo != {}
      invariant todo <= byMeter.Keys && IsStandardOf(list, byMeter.Keys - todo, standard)
    {
      var meter :| meter in todo;
      StandardNext(list, byMeter, todo, standard, meter);
      var m := LatestActivation(byMeter[meter]);
      standard, todo := standard + [m], todo - {meter};
    }
    StandardDone(list, byMeter, standard);
  }

  lemma TakenOf(list: seq<ListMeter>, byMeter: map<string, seq<ListMeter>>, meter: string)
    requires IsGrouped(list, byMeter) && meter in byMeter
    ensures byMeter[meter] != [] && Latest(byMeter[meter]).meter == meter && IsTaken(list, Latest(byMeter[meter]))
  {
    var m := Latest(EntriesOf(list, meter));
    assert m in EntriesOf(list, meter);
  }

  lemma StandardNext(list: seq<ListMeter>, byMeter: map<string, seq<ListMeter>>, todo: set<string>, standard: seq<ListMeter>,
                     meter: string)
    requires IsGrouped(list, byMeter) && meter in todo && todo <= byMeter.Keys
    requires IsStandardOf(list, byMeter.Keys - todo, standard)
    ensures byMeter[meter] != [] && IsStandardOf(list, byMeter.Keys - (todo - {meter}), standard + [Latest(byMeter[meter])])
  {
    TakenOf(list, byMeter, meter);
    StandardStep(list, byMeter.Keys - todo, standard, Latest(byMeter[meter]));
    assert byMeter.Keys - todo + {meter} == byMeter.Keys - (todo - {meter});
  }

  lemma StandardDone(list: seq<ListMeter>, byMeter: map<string, seq<ListMeter>>, standard: seq<ListMeter>)
    requires IsGrouped(list, byMeter) && IsStandardOf(list, byMeter.Keys - {}, standard)
    ensures IsStandard(list, standard)
  {
    forall x | x in list
      ensures HasEntry(standard, x.meter)
    {
      assert x in EntriesOf(list, x.meter);
    }
  }

  ghost predicate IsGrouped(list: seq<ListMeter>, byMeter: map<string, seq<ListMeter>>) {
    && (forall meter :: meter in byMeter <==> EntriesOf(list, meter) != [])
    && forall meter <- byMeter :: byMeter[meter] == EntriesOf(list, meter)
  }

  lemma EntriesSnoc(list: seq<ListMeter>, m: ListMeter, meter: string)
    ensures EntriesOf(list + [m], meter) == if m.meter == meter then EntriesOf(list, meter) + [m] else EntriesOf(list, meter)
  {
    assert (list + [m])[..|list|] == list;
  }

  lemma GroupedStep(list: seq<ListMeter>, m: ListMeter, byMeter: map<string, seq<ListMeter>>)
    requires IsGrouped(list, byMeter)
    ensures IsGrouped(list + [m], byMeter[m.meter := (if m.meter in byMeter then byMeter[m.meter] else []) + [m]])
  {
    var next := byMeter[m.meter := (if m.meter in byMeter then byMeter[m.meter] else []) + [m]];
    forall meter
      ensures meter in next <==> EntriesOf(list + [m], meter) != []
      ensures meter in next ==> next[meter] == EntriesOf(list + [m], meter)
    {
      EntriesSnoc(list, m, meter);
      assert meter in byMeter <==> EntriesOf(list, meter) != [];
    }
  }

  method GroupByMeter(list: seq<ListMeter>) returns (byMeter: map<string, seq<ListMeter>>)
    ensures IsGrouped(list, byMeter)
  {
    byMeter := map[];
    for i := 0 to |list|
      invariant IsGrouped(list[..i], byMeter)
    {
      var m := list[i];
      GroupedStep(list[..i], m, byMeter);
      assert list[..i + 1] == list[..i] + [m];
      byMeter := byMeter[m.meter := (if m.meter in byMeter then byMeter[m.meter] else []) + [m]];
    }
    assert list[..|list|] == list;
  }

  predicate HasEntry(standard: seq<ListMeter>, meter: string) {
    exists m <- standard :: m.meter == meter
  }

  /** Of the metering point's entries in the list the one that is taken. */
  predicate IsTaken(list: seq<ListMeter>, m: ListMeter) {
    EntriesOf(list, m.meter) != [] && m == Latest(EntriesOf(list, m.meter))
  }

  predicate DistinctEntries(standard: seq<ListMeter>) {
    forall i, j :: 0 <= i < j < |standard| ==> standard[i].meter != standard[j].meter
  }

  /** The standard entries of the metering points done. */
  ghost predicate IsStandardOf(list: seq<ListMeter>, done: set<string>, standard: seq<ListMeter>) {
    && DistinctEntries(standard) && (forall m <- standard :: m.meter in done && IsTaken(list, m))
    && forall meter <- done :: HasEntry(standard, meter)
  }

  lemma StandardStep(list: seq<ListMeter>, done: set<string>, standard: seq<ListMeter>, m: ListMeter)
    requires IsStandardOf(list, done, standard) && m.meter !in done && IsTaken(list, m)
    ensures IsStandardOf(list, done + {m.meter}, standard + [m])
  {
    DistinctSnoc(standard, m);
    forall x | x in done + {m.meter}
      ensures HasEntry(standard + [m], x)
    {
      HasEntrySnoc(standard, m, x);
    }
  }

  lemma DistinctSnoc(standard: seq<ListMeter>, m: ListMeter)
    requires DistinctEntries(standard) && forall x <- standard :: x.meter != m.meter
    ensures DistinctEntries(standard + [m])
  {
    assert forall i :: 0 <= i < |standard| ==> standard[i] in standard;
  }

  lemma HasEntrySnoc(standard: seq<ListMeter>, m: ListMeter, meter: string)
    ensures HasEntry(standard + [m], meter) <==> HasEntry(standard, meter) || m.meter == meter
  {
    assert m in standard + [m];
    assert forall x <- standard :: x in standard + [m];
  }

  /** What the list makes of a row: its metering point's entry that starts last is applied. */
  function Synced(tenant: string, list: seq<ListMeter>, day: int -> int, at: int, e: Entry): Entry {
    if EntriesOf(list, e.meter) == [] then e else Apply(SyncOf(tenant, Latest(EntriesOf(list, e.meter)), day, at), e)
  }

  ghost predicate AllSynced(tenant: string, list: seq<ListMeter>, day: int -> int, at: int, before: seq<Entry>, after: seq<Entry>) {
    |after| == |before| && forall i :: 0 <= i < |after| ==> after[i] == Synced(tenant, list, day, at, before[i])
  }

  lemma SyncedAll(tenant: string, list: seq<ListMeter>, standard: seq<ListMeter>, day: int -> int, at: int, before: seq<Entry>,
                  after: seq<Entry>)
    requires IsStandard(list, standard) && AllAfter(SyncEvents(tenant, standard, day, at), before, after)
    ensures AllSynced(tenant, list, day, at, before, after)
  {
    forall i | 0 <= i < |after|
      ensures after[i] == Synced(tenant, list, day, at, before[i])
    {
      SyncedOnce(tenant, list, standard, day, at, before[i]);
    }
  }

  // ----- what the list means, said of the list and the rows

  /** Entry `k` of the list is the one that counts for its metering point: of those that start after 1.1.1970 the latest, the
      first of several; the first of all when none does. */
  predicate Counts(list: seq<ListMeter>, k: nat)
    requires k < |list|
  {
    if exists j :: 0 <= j < |list| && list[j].meter == list[k].meter && list[j].from > 0 then
      forall j :: 0 <= j < |list| && list[j].meter == list[k].meter ==>
        list[j].from <= list[k].from && (j < k ==> list[j].from < list[k].from)
    else forall j :: 0 <= j < k ==> list[j].meter != list[k].meter
  }

  /** The entry takes part until 31.12.2999, from its own start or the one listed, whichever is earlier. */
  predicate IsListed(e: Entry, f: Entry, since: int, consentId: Option<string>, at: int) {
    && f.status == S_ACTIVE && f.process == ACTIVE && f.inactiveSince == Some(376_199)
    && f.activeSince == (if e.activeSince.Some? && e.activeSince.value < since then e.activeSince else Some(since))
    && f.consentId == (if consentId.Some? then consentId else e.consentId) && f.modified == Stamp(at, "ec_podlist")
    && f.tenant == e.tenant && f.meter == e.meter && f.flag == e.flag && f.lastProcess == e.lastProcess
       && f.statusCode == e.statusCode
  }

  predicate NamesListed(list: seq<ListMeter>, meter: string) {
    exists x <- list :: x.meter == meter
  }

  /** An assigned entry of the tenant changes by the list entry that counts for its metering point, if there is one. */
  predicate ListMeansEntry(tenant: string, list: seq<ListMeter>, day: int -> int, at: int, e: Entry, f: Entry) {
    if e.tenant == tenant && e.flag == Assigned && NamesListed(list, e.meter)
    then exists k ::
           0 <= k < |list| && list[k].meter == e.meter && Counts(list, k) && IsListed(e, f, day(list[k].from), list[k].consentId, at)
    else f == e
  }

  predicate ListMeans(tenant: string, list: seq<ListMeter>, day: int -> int, at: int, before: seq<Entry>, after: seq<Entry>) {
    |after| == |before| && forall i :: 0 <= i < |before| ==> ListMeansEntry(tenant, list, day, at, before[i], after[i])
  }

  /** Where an entry of the metering point stands in the list: the earlier ones are those before it. */
  lemma {:induction false} EntryPlace(list: seq<ListMeter>, meter: string, i: nat) returns (k: nat)
    requires i < |EntriesOf(list, meter)|
    ensures k < |list| && list[k] == EntriesOf(list, meter)[i] && EntriesOf(list[..k], meter) == EntriesOf(list, meter)[..i]
  {
    var init, last := list[..|list| - 1], list[|list| - 1];
    assert list == init + [last];
    EntriesSnoc(init, last, meter);
    if i < |EntriesOf(init, meter)| {
      k := EntryPlace(init, meter, i);
      assert list[..k] == init[..k];
    } else {
      k := |list| - 1;
    }
  }

  lemma BeforePlace(list: seq<ListMeter>, meter: string, k: nat, j: nat)
    requires j < k <= |list| && list[j].meter == meter
    ensures list[j] in EntriesOf(list[..k], meter)
  {
    assert list[..k][j] == list[j];
  }

  lemma LatestCounts(list: seq<ListMeter>, meter: string) returns (k: nat)
    requires EntriesOf(list, meter) != []
    ensures k < |list| && list[k] == Latest(EntriesOf(list, meter)) && list[k].meter == meter && Counts(list, k)
  {
    var entries := EntriesOf(list, meter);
    var i := LatestIndex(entries);
    k := EntryPlace(list, meter, i);
    assert list[k] in entries;
    forall j | 0 <= j < |list| && list[j].meter == meter
      ensures list[j] in entries && list[j].from <= LatestStart(entries)
      ensures j < k ==> i > 0 && list[j].from < LatestStart(entries)
    {
      assert list[j] in list;
      if j < k {
        BeforePlace(list, meter, k, j);
        var p :| 0 <= p < i && entries[..i][p] == list[j];
      }
    }
  }

  lemma SyncedIsListed(tenant: string, list: seq<ListMeter>, day: int -> int, at: int, e: Entry, m: ListMeter)
    requires e.tenant == tenant && e.flag == Assigned && m.meter == e.meter
    ensures IsListed(e, Apply(SyncOf(tenant, m, day, at), e), day(m.from), m.consentId, at)
  {
  }

  lemma SyncedMeansEntry(tenant: string, list: seq<ListMeter>, day: int -> int, at: int, e: Entry)
    ensures ListMeansEntry(tenant, list, day, at, e, Synced(tenant, list, day, at, e))
  {
    if e.tenant == tenant && e.flag == Assigned && NamesListed(list, e.meter) {
      var x :| x in list && x.meter == e.meter;
      assert x in EntriesOf(list, e.meter);
      var k := LatestCounts(list, e.meter);
      SyncedIsListed(tenant, list, day, at, e, list[k]);
    } else if EntriesOf(list, e.meter) != [] {
      assert EntriesOf(list, e.meter)[0] in list;
    }
  }

  lemma SyncedMeans(tenant: string, list: seq<ListMeter>, day: int -> int, at: int, before: seq<Entry>, after: seq<Entry>)
    requires AllSynced(tenant, list, day, at, before, after)
    ensures ListMeans(tenant, list, day, at, before, after)
  {
    forall i | 0 <= i < |before|
      ensures ListMeansEntry(tenant, list, day, at, before[i], after[i])
    {
      SyncedMeansEntry(tenant, list, day, at, before[i]);
    }
  }

  /** The first `n` standard entries change a row as the one of its metering point does, if that is among them. */
  lemma {:induction false} SyncSteps(tenant: string, standard: seq<ListMeter>, n: nat, k: nat, day: int -> int, at: int, e: Entry)
    requires n <= |standard| && k <= |standard| && (forall i :: 0 <= i < n && i != k ==> standard[i].meter != e.meter)
    ensures After(SyncEvents(tenant, standard, day, at)[..n], e) ==
            if k < n then Apply(SyncOf(tenant, standard[k], day, at), e) else e
  {
    if n > 0 {
      var events := SyncEvents(tenant, standard, day, at);
      assert events[..n][..n - 1] == events[..n - 1];
      SyncSteps(tenant, standard, n - 1, k, day, at, e);
    }
  }

  /** In whatever order they come, one entry of the list decides a row. */
  lemma SyncedOnce(tenant: string, list: seq<ListMeter>, standard: seq<ListMeter>, day: int -> int, at: int, e: Entry)
    requires IsStandard(list, standard)
    ensures After(SyncEvents(tenant, standard, day, at), e) == Synced(tenant, list, day, at, e)
  {
    var events, n := SyncEvents(tenant, standard, day, at), |standard|;
    assert events[..n] == events;
    if EntriesOf(list, e.meter) == [] {
      assert forall i :: 0 <= i < n ==> standard[i] in standard;
      SyncSteps(tenant, standard, n, n, day, at, e);
    } else {
      var k := StandardAt(list, standard, e.meter);
      SyncSteps(tenant, standard, n, k, day, at, e);
    }
  }

  /** The standard entry of a metering point of the list. */
  lemma StandardAt(list: seq<ListMeter>, standard: seq<ListMeter>, meter: string) returns (k: nat)
    requires IsStandard(list, standard) && EntriesOf(list, meter) != []
    ensures k < |standard| && standard[k] == Latest(EntriesOf(list, meter))
    ensures forall i :: 0 <= i < |standard| && i != k ==> standard[i].meter != meter
  {
    var x := EntriesOf(list, meter)[0];
    assert x in list && x.meter == meter && HasEntry(standard, x.meter);
    var m :| m in standard && m.meter == meter;
    k :| 0 <= k < |standard| && standard[k] == m;
    assert IsTaken(list, m);
  }

  function SyncEvents(tenant: string, list: seq<ListMeter>, day: int -> int, at: int): (r: seq<Event>)
    ensures |r| == |list| && forall k :: 0 <= k < |r| ==> r[k] == SyncOf(tenant, list[k], day, at)
  {
    seq(|list|, k requires 0 <= k < |list| => SyncOf(tenant, list[k], day, at))
  }

  // ----- from a message to a change

  datatype MessageCode = Completion | Rejection | Approval | Answer | Request | Abort | OtherCode

  datatype Response = Response(meter: string, codes: seq<int>, consentId: string)

  /** A message of the registration process; `element` is its single metering point, if it has one. */
  datatype Registration = Registration(code: MessageCode, responses: seq<Response>, element: Option<string>, list: seq<ListMeter>)

  /** `Panics`: an approval whose consent id lies outside the list of consent ids. */
  datatype Command = Nothing | Panics | RestoreFirst(meters: seq<string>) | ChangeTo(meters: seq<string>, change: Change)

  /** The responses that carry codes. */
  function WithCodes(rs: seq<Response>): seq<Response> {
    if rs == [] then []
    else WithCodes(rs[..|rs| - 1]) + if rs[|rs| - 1].codes != [] then [rs[|rs| - 1]] else []
  }

  function AllCodes(rs: seq<Response>): seq<int> {
    if rs == [] then [] else AllCodes(rs[..|rs| - 1]) + rs[|rs| - 1].codes
  }

  function MetersOf(rs: seq<Response>): (r: seq<string>)
    ensures |r| == |rs| && forall i :: 0 <= i < |r| ==> r[i] == rs[i].meter
  {
    seq(|rs|, i requires 0 <= i < |rs| => rs[i].meter)
  }

  function ConsentsOf(rs: seq<Response>): (r: seq<string>)
    ensures |r| == |rs| && forall i :: 0 <= i < |r| ==> r[i] == rs[i].consentId
  {
    seq(|rs|, i requires 0 <= i < |rs| => rs[i].consentId)
  }

  /** extractResponseCodeAndMeteringPoint */
  method Extract(rs: seq<Response>) returns (codes: seq<int>, meters: seq<string>, consentIds: seq<string>)
    ensures codes == AllCodes(rs) && meters == MetersOf(WithCodes(rs)) && consentIds == ConsentsOf(WithCodes(rs))
  {
    codes, meters, consentIds := [], [], [];
    for k := 0 to |rs|
      invariant codes == AllCodes(rs[..k]) && meters == MetersOf(WithCodes(rs[..k]))
      invariant consentIds == ConsentsOf(WithCodes(rs[..k]))
    {
      assert rs[..k + 1][..k] == rs[..k];
      if |rs[k].codes| > 0 {
        codes, meters, consentIds := codes + rs[k].codes, meters + [rs[k].meter], consentIds + [rs[k].consentId];
      }
    }
    assert rs[..|rs|] == rs;
  }

  /** The codes a rejection is judged by: those that make it INVALID, else all of them. */
  function Candidates(codes: seq<int>): seq<int> {
    if Intersection(INVALID_CODES, codes) != [] then Intersection(INVALID_CODES, codes) else codes
  }

  predicate Has(codes: seq<int>, expected: seq<int>) {
    exists c <- codes :: c in expected
  }

  /** What a rejection with these codes does. */
  predicate IsRejectionOf(codes: seq<int>, meters: seq<string>, today: int, cmd: Command) {
    if Has(codes, IGNORE_CODES) then cmd == RestoreFirst(meters)
    else if Has(codes, VALID_CODES) then cmd == ChangeTo(meters, Change(ACTIVE, Some(0), Some(today), None))
    else
      && cmd.ChangeTo? && cmd.meters == meters && IsRejection(cmd.change)
      && (cmd.change.state == INVALID <==> Has(codes, INVALID_CODES))
      && cmd.change.activeSince.None? && cmd.change.consentId.None?
      && (cmd.change.code.None? <==> codes == [])
      && (cmd.change.code.Some? ==> cmd.change.code.value in Candidates(codes))
      && (KeepsActive(cmd.change) <==> Candidates(codes) != [] && AllKeepActive(Candidates(codes)))
  }

  method OnRejection(codes: seq<int>, meters: seq<string>, today: int) returns (cmd: Command)
    ensures IsRejectionOf(codes, meters, today, cmd)
  {
    var ignore := CodesContains(IGNORE_CODES, codes);
    if ignore {
      return RestoreFirst(meters);
    }
    var valid := CodesContains(VALID_CODES, codes);
    if valid {
      return ChangeTo(meters, Change(ACTIVE, Some(0), Some(today), None));
    }
    var invalid := CodesContains(INVALID_CODES, codes);
    var candidates := IntersectCodes(INVALID_CODES, codes);
    SomeInBoth(INVALID_CODES, codes);
    if invalid {
      var c := RejectionCode(candidates);
      return ChangeTo(meters, Change(INVALID, Some(c), None, None));
    }
    if |codes| > 0 {
      var c := RejectionCode(codes);
      return ChangeTo(meters, Change(REJECTED, Some(c), None, None));
    }
    cmd := ChangeTo(meters, Change(REJECTED, None, None, None));
  }

  /** An active metering point whose registration is rejected (and not ignored or already valid) stays ACTIVE exactly when
      all candidate codes concern the request only. */
  lemma ActiveStaysIffAllKeepActive(codes: seq<int>, meters: seq<string>, today: int, cmd: Command, events: seq<Event>,
                                    e: Entry, at: int)
    requires IsRejectionOf(codes, meters, today, cmd) && !Has(codes, IGNORE_CODES) && !Has(codes, VALID_CODES)
    requires (forall ev <- events :: IsRequest(ev)) && e.status == S_ACTIVE && e.process == ACTIVE
    requires IsAssigned(e, e.tenant, meters)
    ensures var f := After(events + [SetStatusOf(e.tenant, meters, cmd.change, at)], e);
            SamePeriod(e, f) && (f.process == ACTIVE <==> Candidates(codes) != [] && AllKeepActive(Candidates(codes)))
  {
    RejectionRestoresActive(events, e, SetStatusOf(e.tenant, meters, cmd.change, at));
  }

  predicate Blank(c: char) {
    c in {' ', '\t', '\n', '\r'}
  }

  /** strings.TrimSpace on ASCII. */
  function Trim(s: string): string {
    if s != [] && Blank(s[0]) then Trim(s[1..])
    else if s != [] && Blank(s[|s| - 1]) then Trim(s[..|s| - 1])
    else s
  }

  /** Only blanks are cut off, and all of them. */
  lemma {:induction false} TrimCutsBlanks(s: string) returns (i: nat, j: nat)
    ensures i <= j <= |s| && Trim(s) == s[i..j] && (Trim(s) != "" ==> !Blank(s[i]) && !Blank(s[j - 1]))
    ensures forall k :: 0 <= k < i || j <= k < |s| ==> Blank(s[k])
  {
    i, j := 0, |s|;
    if s != [] && Blank(s[0]) {
      i, j := TrimCutsBlanks(s[1..]);
      assert s[1..][i..j] == s[i + 1..j + 1];
      i, j := i + 1, j + 1;
    } else if s != [] && Blank(s[|s| - 1]) {
      i, j := TrimCutsBlanks(s[..|s| - 1]);
      assert s[..|s| - 1][i..j] == s[i..j];
    } else {
      assert s[0..|s|] == s;
    }
  }

  /** A consent id that is blank counts as none. */
  function ConsentOf(id: Option<string>): Option<string> {
    if id.Some? && Trim(id.value) != "" then Some(Trim(id.value)) else None
  }

  function ElementMeters(m: Registration): seq<string> {
    if m.element.Some? then [m.element.value] else ListMeters(m.list)
  }

  function ListMeters(list: seq<ListMeter>): (r: seq<string>)
    ensures |r| == |list| && forall i :: 0 <= i < |r| ==> r[i] == list[i].meter
  {
    seq(|list|, i requires 0 <= i < |list| => list[i].meter)
  }

  /** The last code that decides, as an index; None when no code does. */
  function LastDeciding(codes: seq<int>, decides: set<int>, n: nat): (k: Option<nat>)
    requires n <= |codes|
    ensures k.Some? ==> k.value < n && codes[k.value] in decides
    ensures forall i :: (if k.Some? then k.value + 1 else 0) <= i < n ==> codes[i] !in decides
  {
    if n == 0 then None
    else if codes[n - 1] in decides then Some(n - 1) else LastDeciding(codes, decides, n - 1)
  }

  function CodeAt(codes: seq<int>, k: Option<nat>): Option<int>
    requires k.Some? ==> k.value < |codes|
  {
    if k.Some? then Some(codes[k.value]) else None
  }

  /** What an approval asks for: the last deciding code gives the state, the last refusal the code, the last grant the
      consent; a grant beyond the consent ids panics. */
  predicate IsApprovalOf(codes: seq<int>, meters: seq<string>, consentIds: seq<string>, cmd: Command) {
    var last := LastDeciding(codes, {175, 172, 173}, |codes|);
    var refusal, grant := LastDeciding(codes, {172, 173}, |codes|), LastDeciding(codes, {175}, |codes|);
    if exists i :: |consentIds| <= i < |codes| && codes[i] == 175 then cmd == Panics
    else
      && (grant.Some? ==> grant.value < |consentIds|)
      && cmd == if last.None? then Nothing
                else ChangeTo(meters, Change(if codes[last.value] == 175 then APPROVED else INVALID, CodeAt(codes, refusal),
                                             None, ConsentOf(if grant.Some? then Some(consentIds[grant.value]) else None)))
  }

  /** What an answer asks for: received, or refused for the metering point. */
  function AnswerOf(codes: seq<int>, meters: seq<string>): Command {
    var last, refusal := LastDeciding(codes, {99, 182, 183}, |codes|), LastDeciding(codes, {182, 183}, |codes|);
    if last.None? then Nothing
    else ChangeTo(meters, Change(if codes[last.value] == 99 then PENDING else INVALID, CodeAt(codes, refusal), None, None))
  }

  /** What the loop over the first `n` codes of an approval has found. */
  predicate Found(codes: seq<int>, consentIds: seq<string>, n: nat, state: Option<ProcessState>, code: Option<int>,
                  consentId: Option<string>)
    requires n <= |codes|
  {
    var last, grant := LastDeciding(codes, {175, 172, 173}, n), LastDeciding(codes, {175}, n);
    && state == (if last.None? then None else Some(if codes[last.value] == 175 then APPROVED else INVALID))
    && code == CodeAt(codes, LastDeciding(codes, {172, 173}, n))
    && (if grant.None? then consentId == None else grant.value < |consentIds| && consentId == Some(consentIds[grant.value]))
  }

  lemma FoundStep(codes: seq<int>, consentIds: seq<string>, i: nat, state: Option<ProcessState>, code: Option<int>,
                  consentId: Option<string>)
    requires i < |codes| && Found(codes, consentIds, i, state, code, consentId) && (codes[i] == 175 ==> i < |consentIds|)
    ensures if codes[i] == 175 then Found(codes, consentIds, i + 1, Some(APPROVED), code, Some(consentIds[i]))
            else if codes[i] == 172 || codes[i] == 173
            then Found(codes, consentIds, i + 1, Some(INVALID), Some(codes[i]), consentId)
            else Found(codes, consentIds, i + 1, state, code, consentId)
  {
  }

  lemma FoundAll(codes: seq<int>, meters: seq<string>, consentIds: seq<string>, state: Option<ProcessState>, code: Option<int>,
                 consentId: Option<string>)
    requires Found(codes, consentIds, |codes|, state, code, consentId)
    requires forall j :: |consentIds| <= j < |codes| ==> codes[j] != 175
    ensures IsApprovalOf(codes, meters, consentIds,
                         if state.None? then Nothing else ChangeTo(meters, Change(state.value, code, None, ConsentOf(consentId))))
  {
  }

  method OnApproval(codes: seq<int>, meters: seq<string>, consentIds: seq<string>) returns (cmd: Command)
    ensures IsApprovalOf(codes, meters, consentIds, cmd)
  {
    var state: Option<ProcessState>, code: Option<int>, consentId: Option<string> := None, None, None;
    for i := 0 to |codes|
      invariant forall j :: |consentIds| <= j < i ==> codes[j] != 175
      invariant Found(codes, consentIds, i, state, code, consentId)
    {
      if codes[i] == 175 && i >= |consentIds| {
        return Panics;
      }
      FoundStep(codes, consentIds, i, state, code, consentId);
      if codes[i] == 175 {
        state, consentId := Some(APPROVED), Some(consentIds[i]);
      } else if codes[i] == 172 || codes[i] == 173 {
        state, code := Some(INVALID), Some(codes[i]);
      }
    }
    FoundAll(codes, meters, consentIds, state, code, consentId);
    cmd := if state.None? then Nothing else ChangeTo(meters, Change(state.value, code, None, ConsentOf(consentId)));
  }

  method OnAnswer(codes: seq<int>, meters: seq<string>) returns (cmd: Command)
    ensures cmd == AnswerOf(codes, meters)
  {
    var state: Option<ProcessState>, code: Option<int> := None, None;
    for i := 0 to |codes|
      invariant var last := LastDeciding(codes, {99, 182, 183}, i);
                state == if last.None? then None else Some(if codes[last.value] == 99 then PENDING else INVALID)
      invariant code == CodeAt(codes, LastDeciding(codes, {182, 183}, i))
    {
      if codes[i] == 99 {
        state := Some(PENDING);
      } else if codes[i] == 182 || codes[i] == 183 {
        state, code := Some(INVALID), Some(codes[i]);
      }
    }
    cmd := if state.None? then Nothing else ChangeTo(meters, Change(state.value, code, None, None));
  }

  /** The event of a command. */
  function EventsOf(tenant: string, cmd: Command, at: int): seq<Event> {
    match cmd
    case RestoreFirst(meters) => if meters == [] then [] else [RestoreOf(tenant, meters[0])]
    case ChangeTo(meters, change) => if meters == [] then [] else [SetStatusOf(tenant, meters, change, at)]
    case _ => []
  }

  /** What a registration message asks for. */
  ghost predicate Asks(m: Registration, day: int -> int, today: int, cmd: Command) {
    var codes, meters := AllCodes(m.responses), MetersOf(WithCodes(m.responses));
    var consentIds := ConsentsOf(WithCodes(m.responses));
    match m.code
    case Completion =>
      cmd == if |m.list| == 1
             then ChangeTo([m.list[0].meter], Change(ACTIVE, None, Some(day(m.list[0].from)), ConsentOf(m.list[0].consentId)))
             else Nothing
    case Rejection => IsRejectionOf(codes, meters, today, cmd)
    case Approval => IsApprovalOf(codes, meters, consentIds, cmd)
    case Answer => cmd == AnswerOf(codes, meters)
    case Request => cmd == ChangeTo(ElementMeters(m), Change(INIT, None, None, None))
    case Abort => cmd == ChangeTo(ElementMeters(m), Change(REJECTED, None, None, None))
    case OtherCode => cmd == Nothing
  }

  method Interpret(m: Registration, day: int -> int, today: int) returns (cmd: Command)
    ensures Asks(m, day, today, cmd)
  {
    var codes, meters, consentIds := Extract(m.responses);
    match m.code {
      case Completion =>
        cmd := Nothing;
        if |m.list| == 1 {
          var c := m.list[0];
          cmd := ChangeTo([c.meter], Change(ACTIVE, None, Some(day(c.from)), ConsentOf(c.consentId)));
        }
      case Rejection => cmd := OnRejection(codes, meters, today);
      case Approval => cmd := OnApproval(codes, meters, consentIds);
      case Answer => cmd := OnAnswer(codes, meters);
      case Request => cmd := ChangeTo(ElementMeters(m), Change(INIT, None, None, None));
      case Abort => cmd := ChangeTo(ElementMeters(m), Change(REJECTED, None, None, None));
      case OtherCode => cmd := Nothing;
    }
  }

  /** Executes a command; one without metering points does nothing. */
  method Execute(table: MeteringPoints, tenant: string, cmd: Command, at: int)
    modifies table
    ensures AllAfter(EventsOf(tenant, cmd, at), old(table.rows), table.rows)
  {
    if cmd.RestoreFirst? && |cmd.meters| > 0 {
      table.RestoreProcessState(tenant, cmd.meters[0]);
      AfterOne(RestoreOf(tenant, cmd.meters[0]));
    } else if cmd.ChangeTo? && |cmd.meters| > 0 {
      table.MeteringPointsSetStatus(tenant, cmd.meters, cmd.change, at);
      AfterOne(SetStatusOf(tenant, cmd.meters, cmd.change, at));
    }
  }

  /** protocolEcReqOnlHandler, for the tenant the message belongs to. */
  method HandleRegistration(table: MeteringPoints, tenant: string, m: Registration, day: int -> int, today: int, at: int)
    returns (cmd: Command)
    modifies table
    ensures Asks(m, day, today, cmd) && AllAfter(EventsOf(tenant, cmd, at), old(table.rows), table.rows)
    ensures forall i :: 0 <= i < |table.rows| ==>
              Evolves(old(table.rows)[i], table.rows[i]) && Means(tenant, m, day, today, old(table.rows)[i], table.rows[i])
  {
    ghost var before := table.rows;
    cmd := Interpret(m, day, today);
    Execute(table, tenant, cmd, at);
    RegistrationOnTable(tenant, m, day, today, cmd, at, before, table.rows);
  }

  lemma RegistrationOnTable(tenant: string, m: Registration, day: int -> int, today: int, cmd: Command, at: int, before: seq<Entry>,
                            after: seq<Entry>)
    requires Asks(m, day, today, cmd) && AllAfter(EventsOf(tenant, cmd, at), before, after)
    ensures forall i :: 0 <= i < |before| ==> Evolves(before[i], after[i]) && Means(tenant, m, day, today, before[i], after[i])
  {
    forall i | 0 <= i < |before|
      ensures Evolves(before[i], after[i]) && Means(tenant, m, day, today, before[i], after[i])
    {
      AfterEvolves(EventsOf(tenant, cmd, at), before[i]);
      RegistrationMeans(tenant, m, day, today, cmd, at, before[i]);
    }
  }

  lemma AfterOne(ev: Event)
    ensures forall e :: After([ev], e) == Apply(ev, e)
  {
    forall e
      ensures After([ev], e) == Apply(ev, e)
    {
      assert [ev][..0] == [];
    }
  }

  // ----- what a message means, said of the message and the rows

  predicate CarriesCode(m: Registration, c: int) {
    exists r <- m.responses :: c in r.codes
  }

  /** Some response carries one of the codes. */
  predicate HasCodeIn(m: Registration, codes: set<int>) {
    exists c <- codes :: CarriesCode(m, c)
  }

  /** A completion for one metering point, or a rejection because the metering point is active already. */
  predicate Completes(m: Registration) {
    || (m.code == Completion && |m.list| == 1)
    || (m.code.Rejection? && HasCodeIn(m, {156}) && !HasCodeIn(m, {86}))
  }

  /** The message names the metering point: in its list, its element, or a response that carries a code. */
  predicate IsNamed(m: Registration, meter: string) {
    match m.code
    case Completion => |m.list| == 1 && m.list[0].meter == meter
    case Request => if m.element.Some? then m.element.value == meter else exists x <- m.list :: x.meter == meter
    case Abort => if m.element.Some? then m.element.value == meter else exists x <- m.list :: x.meter == meter
    case OtherCode => false
    case _ => exists r <- m.responses :: r.codes != [] && r.meter == meter
  }

  predicate IsAddressed(tenant: string, m: Registration, e: Entry) {
    e.tenant == tenant && e.flag == Assigned && IsNamed(m, e.meter)
  }

  /** A consent id that is not blank is stored without the blanks around it. */
  predicate TakesConsent(id: Option<string>, e: Entry, f: Entry) {
    f.consentId == if id.Some? && Trim(id.value) != "" then Some(Trim(id.value)) else e.consentId
  }

  /** What a message makes of status and dates: a completed entry takes part from its own start, else from that of the
      message, to 31.12.2999; in every other case they stay. An entry the message does not reach stays as it is. */
  predicate MeansPeriod(tenant: string, m: Registration, day: int -> int, today: int, e: Entry, f: Entry) {
    && f.tenant == e.tenant && f.meter == e.meter && f.flag == e.flag
    && if !IsAddressed(tenant, m, e) then f == e
       else if Completes(m) then
         && f.status == S_ACTIVE && f.process == ACTIVE && f.lastProcess == None && f.inactiveSince == Some(376_199)
         && f.statusCode == (if m.code == Completion then e.statusCode else Some(0))
         && TakesConsent(if m.code == Completion then m.list[0].consentId else None, e, f)
         && f.activeSince == if e.activeSince.Some? then e.activeSince
                             else Some(if m.code == Completion then day(m.list[0].from) else today)
       else f.status == e.status && f.activeSince == e.activeSince && f.inactiveSince == e.inactiveSince
  }

  /** The last of the codes that decides is `c`. */
  predicate LastIs(codes: seq<int>, decides: set<int>, c: int) {
    exists k :: 0 <= k < |codes| && codes[k] == c && c in decides && forall j :: k < j < |codes| ==> codes[j] !in decides
  }

  predicate TakesCode(decides: set<int>, codes: seq<int>, e: Entry, f: Entry) {
    if forall c <- codes :: c !in decides then f.statusCode == e.statusCode
    else f.statusCode.Some? && LastIs(codes, decides, f.statusCode.value)
  }

  const INVALIDATING: set<int> := {56, 57, 76, 104, 157, 158, 159, 172, 173, 177, 181, 184, 185, 188, 196, 204}

  /** The rejection is judged by the code: by the invalidating ones if it carries such, else by each. */
  predicate IsJudgedBy(m: Registration, c: int) {
    CarriesCode(m, c) && (HasCodeIn(m, INVALIDATING) ==> c in INVALIDATING)
  }

  /** All codes it is judged by concern the request only. */
  predicate ConcernsRequest(m: Registration) {
    forall r <- m.responses :: forall c <- r.codes :: IsJudgedBy(m, c) ==> c in {172, 173, 183, 188}
  }

  /** The entry's metering point is the first with a code. */
  predicate IsFirstNamed(m: Registration, meter: string) {
    exists k :: 0 <= k < |m.responses| && m.responses[k].meter == meter && m.responses[k].codes != [] &&
                forall j :: 0 <= j < k ==> m.responses[j].codes == []
  }

  /** A withdrawn attempt sets the first metering point with a code back; any other rejection stores a code it is judged by,
      one that concerns the request only when all do. */
  predicate MeansRejection(m: Registration, e: Entry, f: Entry) {
    if HasCodeIn(m, {86}) then
      f == if IsFirstNamed(m, e.meter) && e.process == INIT && e.status == S_INACTIVE && e.activeSince.Some?
        && e.inactiveSince.Some?
           then e.(process := INACTIVE) else e
    else
      && TakesRejection(if HasCodeIn(m, INVALIDATING) then INVALID else REJECTED, ConcernsRequest(m), e, f)
      && f.consentId == e.consentId && f.statusCode.Some? && IsJudgedBy(m, f.statusCode.value)
      && (f.statusCode.value in {172, 173, 183, 188} <==> ConcernsRequest(m))
  }

  /** The consent of the last grant. */
  predicate TakesLastConsent(codes: seq<int>, consents: seq<string>, e: Entry, f: Entry) {
    if forall c <- codes :: c != 175 then f.consentId == e.consentId
    else exists k :: 0 <= k < |codes| && codes[k] == 175 && (forall j :: k < j < |codes| ==> codes[j] != 175) &&
                     k < |consents| && TakesConsent(Some(consents[k]), e, f)
  }

  /** The last of grant and refusal gives the state, the last refusal the code, the last grant the consent. */
  predicate MeansApproval(codes: seq<int>, consents: seq<string>, e: Entry, f: Entry) {
    if (exists i :: |consents| <= i < |codes| && codes[i] == 175) || (forall c <- codes :: c !in {172, 173, 175}) then f == e
    else
      && TakesCode({172, 173}, codes, e, f) && TakesLastConsent(codes, consents, e, f)
      && if LastIs(codes, {172, 173, 175}, 175)
         then f.process == (if e.process == ACTIVE then ACTIVE else APPROVED) && f.lastProcess == None
         else TakesRejection(INVALID, true, e, f)
  }

  /** The last of receipt and refusal gives the state, the last refusal the code; 183 concerns the request only. */
  predicate MeansAnswer(codes: seq<int>, e: Entry, f: Entry) {
    if forall c <- codes :: c !in {99, 182, 183} then f == e
    else
      && TakesCode({182, 183}, codes, e, f) && f.consentId == e.consentId
      && if LastIs(codes, {99, 182, 183}, 99) then f.process == PENDING && f.lastProcess == None
         else TakesRejection(INVALID, LastIs(codes, {182, 183}, 183), e, f)
  }

  /** What a message that completes nothing makes of the process state of an entry it reaches. */
  predicate MeansProcess(m: Registration, e: Entry, f: Entry) {
    match m.code
    case Request => f.process == INIT && f.lastProcess == None && f.statusCode == e.statusCode && f.consentId == e.consentId
    case Abort => TakesRejection(REJECTED, false, e, f) && f.statusCode == e.statusCode && f.consentId == e.consentId
    case Rejection => MeansRejection(m, e, f)
    case Approval => MeansApproval(AllCodes(m.responses), ConsentsOf(WithCodes(m.responses)), e, f)
    case Answer => MeansAnswer(AllCodes(m.responses), e, f)
    case _ => f == e
  }

  lemma {:induction false} AllCodesMembers(rs: seq<Response>, c: int)
    ensures c in AllCodes(rs) <==> exists r <- rs :: c in r.codes
  {
    if rs != [] {
      AllCodesMembers(rs[..|rs| - 1], c);
      assert rs == rs[..|rs| - 1] + [rs[|rs| - 1]];
    }
  }

  lemma {:induction false} WithCodesMembers(rs: seq<Response>, r: Response)
    ensures r in WithCodes(rs) <==> r in rs && r.codes != []
  {
    if rs != [] {
      WithCodesMembers(rs[..|rs| - 1], r);
      assert rs == rs[..|rs| - 1] + [rs[|rs| - 1]];
    }
  }

  lemma MetersNamed(rs: seq<Response>, meter: string)
    ensures meter in MetersOf(WithCodes(rs)) <==> exists r <- rs :: r.codes != [] && r.meter == meter
  {
    var with := WithCodes(rs);
    if meter in MetersOf(with) {
      var i :| 0 <= i < |with| && MetersOf(with)[i] == meter;
      WithCodesMembers(rs, with[i]);
    }
    if r :| r in rs && r.codes != [] && r.meter == meter {
      WithCodesMembers(rs, r);
      var i :| 0 <= i < |with| && with[i] == r;
      assert MetersOf(with)[i] == meter;
    }
  }

  /** The first response with codes. */
  lemma {:induction false} FirstWithCodes(rs: seq<Response>) returns (k: nat)
    requires WithCodes(rs) != []
    ensures k < |rs| && rs[k].codes != [] && WithCodes(rs)[0] == rs[k] && forall j :: 0 <= j < k ==> rs[j].codes == []
  {
    var init := rs[..|rs| - 1];
    if WithCodes(init) != [] {
      k := FirstWithCodes(init);
    } else {
      k := |rs| - 1;
      forall j | 0 <= j < k
        ensures rs[j].codes == []
      {
        assert init[j] in init;
        WithCodesMembers(init, init[j]);
      }
    }
  }

  lemma HasCodes(m: Registration, codes: set<int>, expected: seq<int>)
    requires forall c :: c in codes <==> c in expected
    ensures Has(AllCodes(m.responses), expected) <==> HasCodeIn(m, codes)
  {
    var all := AllCodes(m.responses);
    forall c
      ensures c in all <==> CarriesCode(m, c)
    {
      AllCodesMembers(m.responses, c);
    }
  }

  lemma NamesMeter(m: Registration, day: int -> int, today: int, cmd: Command, meter: string)
    requires Asks(m, day, today, cmd) && (cmd.ChangeTo? || cmd.RestoreFirst?)
    ensures meter in cmd.meters <==> IsNamed(m, meter)
  {
    MetersNamed(m.responses, meter);
    if m.code == Request || m.code == Abort {
      ElementNamed(m, meter);
    }
  }

  lemma ElementNamed(m: Registration, meter: string)
    ensures meter in ElementMeters(m) <==>
            if m.element.Some? then m.element.value == meter else exists x <- m.list :: x.meter == meter
  {
    if m.element.None? {
      if meter in ListMeters(m.list) {
        var i :| 0 <= i < |m.list| && ListMeters(m.list)[i] == meter;
        assert m.list[i] in m.list;
      }
      if x :| x in m.list && x.meter == meter {
        var i :| 0 <= i < |m.list| && m.list[i] == x;
        assert ListMeters(m.list)[i] == meter;
      }
    }
  }

  /** What a command makes of one row. */
  function OnRow(tenant: string, cmd: Command, at: int, e: Entry): Entry {
    if cmd.ChangeTo? && IsAssigned(e, tenant, cmd.meters) then SetStatus(e, cmd.change, at)
    else if cmd.RestoreFirst? && cmd.meters != [] && IsAssigned(e, tenant, [cmd.meters[0]]) then Restore(e)
    else e
  }

  lemma CommandOnRow(tenant: string, cmd: Command, at: int, e: Entry)
    ensures After(EventsOf(tenant, cmd, at), e) == OnRow(tenant, cmd, at, e)
  {
    assert After([], e) == e;
    if cmd.RestoreFirst? && cmd.meters != [] {
      AfterOne(RestoreOf(tenant, cmd.meters[0]));
    } else if cmd.ChangeTo? && cmd.meters != [] {
      AfterOne(SetStatusOf(tenant, cmd.meters, cmd.change, at));
    }
  }

  /** Status and dates, after any message of the registration process. */
  lemma RegistrationMeansPeriod(tenant: string, m: Registration, day: int -> int, today: int, cmd: Command, at: int, e: Entry)
    requires Asks(m, day, today, cmd)
    ensures MeansPeriod(tenant, m, day, today, e, After(EventsOf(tenant, cmd, at), e))
  {
    CommandOnRow(tenant, cmd, at, e);
    if cmd.ChangeTo? || cmd.RestoreFirst? {
      NamesMeter(m, day, today, cmd, e.meter);
    }
    if m.code.Rejection? {
      HasCodes(m, {86}, IGNORE_CODES);
      HasCodes(m, {156}, VALID_CODES);
    }
  }

  lemma NoneDecides(codes: seq<int>, decides: set<int>)
    ensures LastDeciding(codes, decides, |codes|).None? <==> forall x <- codes :: x !in decides
  {
    var k := LastDeciding(codes, decides, |codes|);
    if k.Some? {
      var x := codes[k.value];
      assert x in codes && x in decides;
    }
  }

  /** The code the loop keeps is the last that decides. */
  lemma LastDecidingIs(codes: seq<int>, decides: set<int>, c: int)
    ensures LastDeciding(codes, decides, |codes|).None? <==> forall x <- codes :: x !in decides
    ensures LastIs(codes, decides, c) <==> CodeAt(codes, LastDeciding(codes, decides, |codes|)) == Some(c)
  {
    var k := LastDeciding(codes, decides, |codes|);
    NoneDecides(codes, decides);
    if LastIs(codes, decides, c) {
      var i :| 0 <= i < |codes| && codes[i] == c && c in decides && forall j :: i < j < |codes| ==> codes[j] !in decides;
      assert k.Some? && k.value == i;
    }
  }

  lemma CandidatesJudged(m: Registration, c: int)
    ensures c in Candidates(AllCodes(m.responses)) <==> IsJudgedBy(m, c)
  {
    var all := AllCodes(m.responses);
    SomeInBoth(INVALID_CODES, all);
    HasCodes(m, INVALIDATING, INVALID_CODES);
    IntersectionMembers(INVALID_CODES, all, c);
    AllCodesMembers(m.responses, c);
  }

  /** The stored code keeps an active entry active exactly when all codes the rejection is judged by concern the request. */
  lemma CandidatesConcern(m: Registration)
    ensures AllKeepActive(Candidates(AllCodes(m.responses))) <==> ConcernsRequest(m)
  {
    forall c
      ensures c in Candidates(AllCodes(m.responses)) <==> IsJudgedBy(m, c)
    {
      CandidatesJudged(m, c);
    }
  }

  lemma RejectionTaken(e: Entry, c: Change, at: int)
    requires IsRejection(c) && c.activeSince.None? && c.consentId.None?
    ensures var f := SetStatus(e, c, at);
            TakesRejection(c.state, KeepsActive(c), e, f) && f.statusCode == Coalesce(c.code, e.statusCode)
              && f.consentId == e.consentId
  {
  }

  lemma RejectionMeans(m: Registration, today: int, cmd: Command, at: int, e: Entry, tenant: string)
    requires m.code.Rejection? && IsRejectionOf(AllCodes(m.responses), MetersOf(WithCodes(m.responses)), today, cmd)
    requires IsAddressed(tenant, m, e) && !Completes(m)
    ensures MeansRejection(m, e, OnRow(tenant, cmd, at, e))
  {
    HasCodes(m, {86}, IGNORE_CODES);
    HasCodes(m, {156}, VALID_CODES);
    MetersNamed(m.responses, e.meter);
    if HasCodeIn(m, {86}) {
      FirstIsNamed(m, e.meter);
    } else {
      var r :| r in m.responses && r.codes != [] && r.meter == e.meter;
      AllCodesMembers(m.responses, r.codes[0]);
      JudgedMeans(m, today, cmd, at, e, tenant);
    }
  }

  lemma JudgedMeans(m: Registration, today: int, cmd: Command, at: int, e: Entry, tenant: string)
    requires cmd.ChangeTo? && IsRejectionOf(AllCodes(m.responses), cmd.meters, today, cmd) && IsAssigned(e, tenant, cmd.meters)
    requires !Has(AllCodes(m.responses), IGNORE_CODES) && !Has(AllCodes(m.responses), VALID_CODES) && AllCodes(m.responses) != []
    ensures var f := OnRow(tenant, cmd, at, e);
            && TakesRejection(if HasCodeIn(m, INVALIDATING) then INVALID else REJECTED, ConcernsRequest(m), e, f)
            && f.consentId == e.consentId && f.statusCode.Some? && IsJudgedBy(m, f.statusCode.value)
            && (f.statusCode.value in {172, 173, 183, 188} <==> ConcernsRequest(m))
  {
    HasCodes(m, INVALIDATING, INVALID_CODES);
    CandidatesConcern(m);
    CandidatesJudged(m, cmd.change.code.value);
    RejectionTaken(e, cmd.change, at);
  }

  lemma FirstIsNamed(m: Registration, meter: string)
    requires WithCodes(m.responses) != []
    ensures MetersOf(WithCodes(m.responses))[0] == meter <==> IsFirstNamed(m, meter)
  {
    var k := FirstWithCodes(m.responses);
  }

  lemma LastGrantTaken(codes: seq<int>, consents: seq<string>, e: Entry, f: Entry)
    requires var grant := LastDeciding(codes, {175}, |codes|);
             && (grant.Some? ==> grant.value < |consents|)
             && TakesConsent(if grant.Some? then Some(consents[grant.value]) else None, e, f)
    ensures TakesLastConsent(codes, consents, e, f)
  {
    NoneDecides(codes, {175});
  }

  lemma ApprovalMeans(m: Registration, cmd: Command, at: int, e: Entry, tenant: string)
    requires m.code == Approval && IsAddressed(tenant, m, e)
    requires IsApprovalOf(AllCodes(m.responses), MetersOf(WithCodes(m.responses)), ConsentsOf(WithCodes(m.responses)), cmd)
    ensures MeansApproval(AllCodes(m.responses), ConsentsOf(WithCodes(m.responses)), e, OnRow(tenant, cmd, at, e))
  {
    MetersNamed(m.responses, e.meter);
    NoneDecides(AllCodes(m.responses), {172, 173, 175});
    assert {175, 172, 173} == {172, 173, 175};
    if cmd.ChangeTo? {
      GrantMeans(AllCodes(m.responses), ConsentsOf(WithCodes(m.responses)), cmd, at, e, tenant);
    }
  }

  lemma GrantMeans(codes: seq<int>, consents: seq<string>, cmd: Command, at: int, e: Entry, tenant: string)
    requires cmd.ChangeTo? && IsApprovalOf(codes, cmd.meters, consents, cmd) && IsAssigned(e, tenant, cmd.meters)
    ensures var f := OnRow(tenant, cmd, at, e);
            && TakesCode({172, 173}, codes, e, f) && TakesLastConsent(codes, consents, e, f)
            && if LastIs(codes, {172, 173, 175}, 175)
               then f.process == (if e.process == ACTIVE then ACTIVE else APPROVED) && f.lastProcess == None
               else TakesRejection(INVALID, true, e, f)
  {
    var f := OnRow(tenant, cmd, at, e);
    assert {175, 172, 173} == {172, 173, 175};
    LastDecidingIs(codes, {172, 173, 175}, 175);
    LastDecidingIs(codes, {172, 173}, if f.statusCode.Some? then f.statusCode.value else 0);
    LastIsRefusal(codes, {175, 172, 173}, {172, 173});
    LastGrantTaken(codes, consents, e, f);
  }

  /** When the last deciding code is a refusal, it is the last refusal. */
  lemma LastIsRefusal(codes: seq<int>, decides: set<int>, refusals: set<int>)
    requires refusals <= decides
    ensures var k := LastDeciding(codes, decides, |codes|);
            k.Some? && codes[k.value] in refusals ==> LastDeciding(codes, refusals, |codes|) == k
  {
  }

  lemma AnswerMeans(m: Registration, cmd: Command, at: int, e: Entry, tenant: string)
    requires m.code == MessageCode.Answer && IsAddressed(tenant, m, e)
    requires cmd == AnswerOf(AllCodes(m.responses), MetersOf(WithCodes(m.responses)))
    ensures MeansAnswer(AllCodes(m.responses), e, OnRow(tenant, cmd, at, e))
  {
    MetersNamed(m.responses, e.meter);
    NoneDecides(AllCodes(m.responses), {99, 182, 183});
    if cmd.ChangeTo? {
      ReceiptMeans(AllCodes(m.responses), cmd, at, e, tenant);
    }
  }

  lemma ReceiptMeans(codes: seq<int>, cmd: Command, at: int, e: Entry, tenant: string)
    requires cmd.ChangeTo? && cmd == AnswerOf(codes, cmd.meters) && IsAssigned(e, tenant, cmd.meters)
    ensures var f := OnRow(tenant, cmd, at, e);
            && TakesCode({182, 183}, codes, e, f) && f.consentId == e.consentId
            && if LastIs(codes, {99, 182, 183}, 99) then f.process == PENDING && f.lastProcess == None
               else TakesRejection(INVALID, LastIs(codes, {182, 183}, 183), e, f)
  {
    var f := OnRow(tenant, cmd, at, e);
    LastDecidingIs(codes, {99, 182, 183}, 99);
    LastDecidingIs(codes, {182, 183}, 183);
    LastDecidingIs(codes, {182, 183}, if f.statusCode.Some? then f.statusCode.value else 0);
    LastIsRefusal(codes, {99, 182, 183}, {182, 183});
  }

  /** The process state, after any message that completes nothing. */
  lemma RegistrationMeansProcess(tenant: string, m: Registration, day: int -> int, today: int, cmd: Command, at: int, e: Entry)
    requires Asks(m, day, today, cmd) && IsAddressed(tenant, m, e) && !Completes(m)
    ensures MeansProcess(m, e, After(EventsOf(tenant, cmd, at), e))
  {
    CommandOnRow(tenant, cmd, at, e);
    match m.code
    case Rejection => RejectionMeans(m, today, cmd, at, e, tenant);
    case Approval => ApprovalMeans(m, cmd, at, e, tenant);
    case Answer => AnswerMeans(m, cmd, at, e, tenant);
    case Request => NamesMeter(m, day, today, cmd, e.meter);
    case Abort =>
      NamesMeter(m, day, today, cmd, e.meter);
      RejectionTaken(e, cmd.change, at);
    case _ =>
  }

  /** What a message means for a row. */
  predicate Means(tenant: string, m: Registration, day: int -> int, today: int, e: Entry, f: Entry) {
    MeansPeriod(tenant, m, day, today, e, f) && (IsAddressed(tenant, m, e) && !Completes(m) ==> MeansProcess(m, e, f))
  }

  lemma RegistrationMeans(tenant: string, m: Registration, day: int -> int, today: int, cmd: Command, at: int, e: Entry)
    requires Asks(m, day, today, cmd)
    ensures Means(tenant, m, day, today, e, After(EventsOf(tenant, cmd, at), e))
  {
    RegistrationMeansPeriod(tenant, m, day, today, cmd, at, e);
    if IsAddressed(tenant, m, e) && !Completes(m) {
      RegistrationMeansProcess(tenant, m, day, today, cmd, at, e);
    }
  }
}
