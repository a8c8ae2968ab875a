/** Requesting the energy data of metering points (api/meteringPointController.go, requestMeteringPointValues): which
    participations are requested, skipped or locked, and which requests go out. */
module ValueRequest {
  import opened Wrappers
  import opened EnergyTypes
  import opened AttributionSpec
  import opened AttributionWindows
  import opened Belongings
  import opened Tracker
  import opened Locks

  /** One participation of a metering point; its period as the start of the first and the end of the last active day. */
  datatype Participation = Participation(id: string, flag: Flag, status: Status, since: Option<int>, until: Option<int>)

  datatype Period = Period(from: int, to: int)

  /** A participation after the static checks: `skip` is the reason not to request it. */
  datatype Checked = Checked(meter: Participation, from: int, to: int, skip: Option<Reason>)

  /** The period requested for a metering point: its own, else that of the request. */
  function PeriodFor(periods: map<string, Period>, whole: Period, id: string): Period {
    if id in periods then periods[id] else whole
  }

  function Check(m: Participation, p: Period): Checked {
    if m.flag != Assigned && m.flag != Moved then Checked(m, 0, 0, Some(NotAssigned))
    else if m.status == S_INIT then Checked(m, 0, 0, Some(NotRegistered))
    else if m.since.None? || m.until.None? then Checked(m, 0, 0, Some(NoActivePeriod))
    else if m.since.value > p.to || m.until.value < p.from then Checked(m, 0, 0, Some(NotActiveInPeriod))
    else Checked(m, Max(m.since.value, p.from), Min(m.until.value, p.to), None)
  }

  function CheckAll(found: seq<Participation>, periods: map<string, Period>, whole: Period): (r: seq<Checked>)
    ensures |r| == |found|
  {
    seq(|found|, i requires 0 <= i < |found| => Check(found[i], PeriodFor(periods, whole, found[i].id)))
  }

  /** A participation is requested only for days on which it is active and that are asked for. */
  lemma CheckedWithinBoth(m: Participation, p: Period)
    ensures var c := Check(m, p);
            c.skip.None? <==>
            && m.flag != Archived && m.status != S_INIT && m.since.Some? && m.until.Some?
            && m.since.value <= p.to && p.from <= m.until.value
    ensures var c := Check(m, p);
            c.skip.None? ==> m.since.value <= c.from && c.to <= m.until.value && p.from <= c.from && c.to <= p.to
  {
  }

  /** The static checks, in the order in which the participations are found. */
  method CheckParticipations(found: seq<Participation>, periods: map<string, Period>, whole: Period)
    returns (checked: seq<Checked>, candidates: nat)
    ensures checked == CheckAll(found, periods, whole)
    ensures candidates > 0 <==> exists c <- checked :: c.skip.None?
  {
    checked, candidates := [], 0;
    for i := 0 to |found|
      invariant checked == CheckAll(found[..i], periods, whole)
      invariant candidates > 0 <==> exists c <- checked :: c.skip.None?
    {
      var c := Check(found[i], PeriodFor(periods, whole, found[i].id));
      assert c in checked + [c];
      assert forall d <- checked :: d in checked + [c];
      checked := checked + [c];
      if c.skip.None? {
        candidates := candidates + 1;
      }
    }
    assert found[..|found|] == found;
  }

  /** The time (0: now) from which the locks leave the part free. */
  function LockedUntil(cal: Calendar, locks: seq<Lock>, from: int, to: int): (until: int)
    ensures until >= 0
    ensures until > 0 <==> exists k <- locks :: Overlaps(cal, k.from, k.to, from, to) && k.until > 0
  {
    if locks == [] then 0
    else
      var rest, k := LockedUntil(cal, locks[..|locks| - 1], from, to), locks[|locks| - 1];
      assert locks == locks[..|locks| - 1] + [k];
      if Overlaps(cal, k.from, k.to, from, to) && k.until > rest then k.until else rest
  }

  predicate IsFree(cal: Calendar, locks: LockMap, c: Checked) {
    c.skip.None? && LockedUntil(cal, LocksFor(locks, c.meter.id), c.from, c.to) == 0
  }

  function FreeOf(cal: Calendar, locks: LockMap, checked: seq<Checked>): (r: seq<Checked>)
    ensures forall c :: c in r <==> c in checked && IsFree(cal, locks, c)
  {
    if checked == [] then []
    else
      var rest, c := FreeOf(cal, locks, checked[..|checked| - 1]), checked[|checked| - 1];
      assert checked == checked[..|checked| - 1] + [c];
      if IsFree(cal, locks, c) then rest + [c] else rest
  }

  function SkipCall(cal: Calendar, locks: LockMap, c: Checked): Call {
    if c.skip.Some? then Skip(c.meter.id, c.skip.value, 0)
    else Skip(c.meter.id, AlreadyRequested, LockedUntil(cal, LocksFor(locks, c.meter.id), c.from, c.to))
  }

  /** The skipped and locked participations are recorded with their reason. */
  function WithSkips(l: Lists, cal: Calendar, locks: LockMap, checked: seq<Checked>): Lists {
    if checked == [] then l
    else
      var rest, c := WithSkips(l, cal, locks, checked[..|checked| - 1]), checked[|checked| - 1];
      if IsFree(cal, locks, c) then rest else Apply(rest, SkipCall(cal, locks, c))
  }

  lemma SelectStep(l: Lists, cal: Calendar, locks: LockMap, checked: seq<Checked>, i: nat)
    requires i < |checked|
    ensures FreeOf(cal, locks, checked[..i + 1]) ==
            if IsFree(cal, locks, checked[i]) then FreeOf(cal, locks, checked[..i]) + [checked[i]]
            else FreeOf(cal, locks, checked[..i])
    ensures WithSkips(l, cal, locks, checked[..i + 1]) ==
            var rest := WithSkips(l, cal, locks, checked[..i]);
            if IsFree(cal, locks, checked[i]) then rest else Apply(rest, SkipCall(cal, locks, checked[i]))
  {
    assert checked[..i + 1][..i] == checked[..i];
  }

  /** The lock decides for each participation on its own. */
  method SelectFree(cal: Calendar, run: RunBuilder, checked: seq<Checked>, locks: LockMap) returns (free: seq<Checked>)
    modifies run`skipped
    ensures free == FreeOf(cal, locks, checked)
    ensures run.Content() == WithSkips(old(run.Content()), cal, locks, checked)
  {
    free := [];
    for i := 0 to |checked|
      invariant free == FreeOf(cal, locks, checked[..i])
      invariant run.Content() == WithSkips(old(run.Content()), cal, locks, checked[..i])
    {
      SelectStep(old(run.Content()), cal, locks, checked, i);
      var c := checked[i];
      if c.skip.Some? {
        run.SkipUntil(c.meter.id, c.skip.value, 0);
        continue;
      }
      var until := UntilFree(cal, locks, c.meter.id, c.from, c.to);
      if until > 0 {
        run.SkipUntil(c.meter.id, AlreadyRequested, until);
        continue;
      }
      free := free + [c];
    }
    assert checked[..|checked|] == checked;
  }

  /** Locks.Until gives the latest end of the locks that share a day with the part. */
  method UntilFree(cal: Calendar, locks: LockMap, meter: string, from: int, to: int) returns (until: int)
    ensures until == LockedUntil(cal, LocksFor(locks, meter), from, to)
  {
    until := Until(cal, locks, meter, from, to);
    UntilIsLatest(cal, LocksFor(locks, meter), from, to, until);
  }

  lemma {:induction false} UntilIsLatest(cal: Calendar, locks: seq<Lock>, from: int, to: int, until: int)
    requires until >= 0 && forall k <- locks :: Overlaps(cal, k.from, k.to, from, to) ==> k.until <= until
    requires until > 0 ==> exists k <- locks :: Overlaps(cal, k.from, k.to, from, to) && k.until == until
    ensures until == LockedUntil(cal, locks, from, to)
  {
    LockedUntilBound(cal, locks, from, to, until);
    if until > 0 {
      var k :| k in locks && Overlaps(cal, k.from, k.to, from, to) && k.until == until;
      LockedUntilCovers(cal, locks, from, to, k);
    }
  }

  lemma {:induction false} LockedUntilBound(cal: Calendar, locks: seq<Lock>, from: int, to: int, until: int)
    requires until >= 0 && forall k <- locks :: Overlaps(cal, k.from, k.to, from, to) ==> k.until <= until
    ensures LockedUntil(cal, locks, from, to) <= until
  {
    if locks != [] {
      LockedUntilBound(cal, locks[..|locks| - 1], from, to, until);
    }
  }

  lemma {:induction false} LockedUntilCovers(cal: Calendar, locks: seq<Lock>, from: int, to: int, k: Lock)
    requires k in locks && Overlaps(cal, k.from, k.to, from, to)
    ensures k.until <= LockedUntil(cal, locks, from, to)
  {
    if k != locks[|locks| - 1] {
      LockedUntilCovers(cal, locks[..|locks| - 1], from, to, k);
    }
  }

  // ----- merging the free parts of a metering point

  /** Whether a period starting at `from` follows one ending at `to` without a free day between them. */
  predicate Touch(cal: Calendar, to: int, from: int) {
    cal(from) <= cal(to) + 1
  }

  predicate SortedByFrom(parts: seq<Checked>) {
    forall i, j :: 0 <= i < j < |parts| ==> parts[i].from <= parts[j].from
  }

  predicate Forward(parts: seq<Checked>) {
    forall p <- parts :: p.from <= p.to
  }

  predicate Covers(cal: Calendar, parts: seq<Checked>, d: int) {
    exists p <- parts :: OnDay(cal, p.from, p.to, d)
  }

  /** At least one free day lies between two successive periods. */
  predicate Separated(cal: Calendar, parts: seq<Checked>) {
    forall i, j :: 0 <= i < j < |parts| ==> cal(parts[i].to) + 1 < cal(parts[j].from)
  }

  /** It begins where a part does and ends where a part does, at its own days if it has none. */
  predicate IsHullOf(cal: Calendar, parts: seq<Checked>, q: Checked) {
    && (exists p <- parts :: p.from == q.from)
    && exists p <- parts :: p.to == q.to && (cal(q.to) < cal(q.from) ==> cal(p.from) == cal(q.from))
  }

  predicate Hulled(cal: Calendar, parts: seq<Checked>, merged: seq<Checked>) {
    forall q <- merged :: IsHullOf(cal, parts, q)
  }

  method SortParts(parts: seq<Checked>) returns (sorted: seq<Checked>)
    ensures SortedByFrom(sorted) && multiset(sorted) == multiset(parts)
  {
    sorted := [];
    for i := 0 to |parts|
      invariant SortedByFrom(sorted) && multiset(sorted) == multiset(parts[..i])
    {
      assert parts[..i + 1] == parts[..i] + [parts[i]];
      sorted := Insert(sorted, parts[i]);
    }
    assert parts[..|parts|] == parts;
  }

  method Insert(sorted: seq<Checked>, p: Checked) returns (r: seq<Checked>)
    requires SortedByFrom(sorted)
    ensures SortedByFrom(r) && multiset(r) == multiset(sorted) + multiset{p}
  {
    var k := |sorted|;
    while k > 0 && sorted[k - 1].from > p.from
      invariant 0 <= k <= |sorted| && forall i :: k <= i < |sorted| ==> p.from <= sorted[i].from
    {
      k := k - 1;
    }
    r := sorted[..k] + [p] + sorted[k..];
    InsertSorted(sorted, k, p);
  }

  lemma InsertSorted(sorted: seq<Checked>, k: nat, p: Checked)
    requires SortedByFrom(sorted) && k <= |sorted|
    requires (k > 0 ==> sorted[k - 1].from <= p.from) && forall i :: k <= i < |sorted| ==> p.from <= sorted[i].from
    ensures SortedByFrom(sorted[..k] + [p] + sorted[k..])
    ensures multiset(sorted[..k] + [p] + sorted[k..]) == multiset(sorted) + multiset{p}
  {
    InsertKeepsAll(sorted, k, p);
    var r := sorted[..k] + [p] + sorted[k..];
    assert forall i :: 0 <= i < k ==> r[i] == sorted[i] && sorted[i].from <= p.from;
    assert forall i :: k < i < |r| ==> r[i] == sorted[i - 1];
    assert r[k] == p;
  }

  lemma InsertKeepsAll(sorted: seq<Checked>, k: nat, p: Checked)
    requires k <= |sorted|
    ensures multiset(sorted[..k] + [p] + sorted[k..]) == multiset(sorted) + multiset{p}
  {
    assert sorted == sorted[..k] + sorted[k..];
  }

  /** Joins a part that touches the last merged one. */
  function Joined(last: Checked, c: Checked): Checked {
    Checked(if last.meter.flag != Assigned then c.meter else last.meter, last.from, Max(last.to, c.to), None)
  }

  lemma JoinCovers(cal: Calendar, last: Checked, c: Checked, d: int)
    requires Monotone(cal) && last.from <= c.from && Touch(cal, last.to, c.from)
    ensures OnDay(cal, Joined(last, c).from, Joined(last, c).to, d) <==>
            OnDay(cal, last.from, last.to, d) || OnDay(cal, c.from, c.to, d)
  {
    assert cal(last.from) <= cal(c.from);
    assert cal(last.to) <= cal(Max(last.to, c.to)) && cal(c.to) <= cal(Max(last.to, c.to));
  }

  predicate OfMeter(parts: seq<Checked>, id: string) {
    forall p <- parts :: p.meter.id == id
  }

  /** The merged periods are separated by a free day, cover exactly the days of the parts, and begin and end where parts
      do. None ends before it begins if no part does. */
  ghost predicate IsMerged(cal: Calendar, parts: seq<Checked>, merged: seq<Checked>, id: string) {
    && Separated(cal, merged) && Hulled(cal, parts, merged) && OfMeter(merged, id)
    && (forall d :: Covers(cal, merged, d) <==> Covers(cal, parts, d))
    && (parts != [] ==> merged != []) && (Forward(parts) ==> Forward(merged))
  }

  /** Parts that overlap or touch go out once. */
  method Merge(cal: Calendar, parts: seq<Checked>, ghost id: string) returns (merged: seq<Checked>)
    requires Monotone(cal) && SortedByFrom(parts) && OfMeter(parts, id)
    ensures IsMerged(cal, parts, merged, id)
  {
    merged := [];
    for i := 0 to |parts|
      invariant IsMerged(cal, parts[..i], merged, id)
    {
      MergeStep(cal, parts, i, merged, id);
      var c, n := parts[i], |merged|;
      if n > 0 && Touch(cal, merged[n - 1].to, c.from) {
        merged := merged[..n - 1] + [Joined(merged[n - 1], c)];
        continue;
      }
      merged := merged + [c.(skip := None)];
    }
    assert parts[..|parts|] == parts;
  }

  lemma MergeStep(cal: Calendar, parts: seq<Checked>, i: nat, merged: seq<Checked>, id: string)
    requires Monotone(cal) && SortedByFrom(parts) && OfMeter(parts, id) && i < |parts|
    requires IsMerged(cal, parts[..i], merged, id)
    ensures var c, n := parts[i], |merged|;
            if n > 0 && Touch(cal, merged[n - 1].to, c.from)
            then IsMerged(cal, parts[..i + 1], merged[..n - 1] + [Joined(merged[n - 1], c)], id)
            else IsMerged(cal, parts[..i + 1], merged + [c.(skip := None)], id)
  {
    var c, n := parts[i], |merged|;
    assert c in parts;
    assert parts[..i + 1] == parts[..i] + [c];
    MergedBefore(cal, parts, i, merged);
    if n > 0 && Touch(cal, merged[n - 1].to, c.from) {
      JoinStep(cal, parts[..i], merged, c, id);
    } else {
      NewStep(cal, parts[..i], merged, c, id);
    }
  }

  lemma JoinStep(cal: Calendar, parts: seq<Checked>, merged: seq<Checked>, c: Checked, id: string)
    requires Monotone(cal) && IsMerged(cal, parts, merged, id) && merged != [] && c.meter.id == id
    requires (forall q <- merged :: q.from <= c.from) && Touch(cal, merged[|merged| - 1].to, c.from)
    ensures IsMerged(cal, parts + [c], merged[..|merged| - 1] + [Joined(merged[|merged| - 1], c)], id)
  {
    CoversSnoc(cal, parts, c);
    MergeLast(cal, merged, c);
    JoinHulled(cal, parts, merged, c);
    JoinForward(parts, merged, c);
    assert merged[|merged| - 1] in merged;
  }

  lemma NewStep(cal: Calendar, parts: seq<Checked>, merged: seq<Checked>, c: Checked, id: string)
    requires Monotone(cal) && IsMerged(cal, parts, merged, id) && c.meter.id == id
    requires (forall q <- merged :: q.from <= c.from) && (merged != [] ==> !Touch(cal, merged[|merged| - 1].to, c.from))
    ensures IsMerged(cal, parts + [c], merged + [c.(skip := None)], id)
  {
    CoversSnoc(cal, parts, c);
    MergeNew(cal, merged, c);
    HulledMore(cal, parts, merged, c);
    assert c in parts + [c];
    assert forall p <- parts :: p in parts + [c];
  }

  lemma HulledMore(cal: Calendar, parts: seq<Checked>, merged: seq<Checked>, c: Checked)
    requires Hulled(cal, parts, merged)
    ensures Hulled(cal, parts + [c], merged)
  {
    assert forall p <- parts :: p in parts + [c];
    forall q | q in merged
      ensures IsHullOf(cal, parts + [c], q)
    {
      assert IsHullOf(cal, parts, q);
    }
  }

  lemma MergedBefore(cal: Calendar, parts: seq<Checked>, i: nat, merged: seq<Checked>)
    requires SortedByFrom(parts) && i < |parts| && Hulled(cal, parts[..i], merged)
    ensures forall q <- merged :: q.from <= parts[i].from
  {
    forall q | q in merged
      ensures q.from <= parts[i].from
    {
      assert IsHullOf(cal, parts[..i], q);
      var p :| p in parts[..i] && p.from == q.from;
      var j :| 0 <= j < i && parts[j] == p;
    }
  }

  lemma CoversSnoc(cal: Calendar, parts: seq<Checked>, c: Checked)
    ensures forall d :: Covers(cal, parts + [c], d) <==> Covers(cal, parts, d) || OnDay(cal, c.from, c.to, d)
  {
    assert c in parts + [c];
    assert forall p <- parts :: p in parts + [c];
  }

  lemma MergeLast(cal: Calendar, before: seq<Checked>, c: Checked)
    requires Monotone(cal) && before != [] && Separated(cal, before)
    requires (forall q <- before :: q.from <= c.from) && Touch(cal, before[|before| - 1].to, c.from)
    ensures var merged := before[..|before| - 1] + [Joined(before[|before| - 1], c)];
            && Separated(cal, merged)
            && forall d :: Covers(cal, merged, d) <==> Covers(cal, before, d) || OnDay(cal, c.from, c.to, d)
  {
    var init, last := before[..|before| - 1], before[|before| - 1];
    assert before == init + [last] && last in before;
    LastApart(cal, init, last, Joined(last, c));
    LastCovers(cal, init, last, c);
  }

  /** The last period may grow at its end. */
  lemma LastApart(cal: Calendar, init: seq<Checked>, last: Checked, joined: Checked)
    requires Separated(cal, init + [last]) && joined.from == last.from
    ensures Separated(cal, init + [joined])
  {
    var before, merged := init + [last], init + [joined];
    forall i, j | 0 <= i < j < |merged|
      ensures cal(merged[i].to) + 1 < cal(merged[j].from)
    {
      assert merged[i] == before[i] && merged[j].from == before[j].from;
    }
  }

  lemma LastCovers(cal: Calendar, init: seq<Checked>, last: Checked, c: Checked)
    requires Monotone(cal) && last.from <= c.from && Touch(cal, last.to, c.from)
    ensures forall d :: Covers(cal, init + [Joined(last, c)], d) <==> Covers(cal, init + [last], d) || OnDay(cal, c.from, c.to, d)
  {
    CoversSnoc(cal, init, last);
    CoversSnoc(cal, init, Joined(last, c));
    forall d
      ensures Covers(cal, init + [Joined(last, c)], d) <==> Covers(cal, init + [last], d) || OnDay(cal, c.from, c.to, d)
    {
      JoinCovers(cal, last, c, d);
    }
  }

  lemma JoinForward(parts: seq<Checked>, before: seq<Checked>, c: Checked)
    requires before != [] && (Forward(parts) ==> Forward(before))
    ensures Forward(parts + [c]) ==> Forward(before[..|before| - 1] + [Joined(before[|before| - 1], c)])
  {
    assert forall p <- parts :: p in parts + [c];
    assert before[|before| - 1] in before;
    assert forall q <- before[..|before| - 1] :: q in before;
  }

  lemma JoinHulled(cal: Calendar, parts: seq<Checked>, before: seq<Checked>, c: Checked)
    requires Monotone(cal) && before != [] && Hulled(cal, parts, before)
    requires before[|before| - 1].from <= c.from && Touch(cal, before[|before| - 1].to, c.from)
    ensures Hulled(cal, parts + [c], before[..|before| - 1] + [Joined(before[|before| - 1], c)])
  {
    var last := before[|before| - 1];
    assert last in before;
    HulledMore(cal, parts, before, c);
    assert IsHullOf(cal, parts + [c], last);
    assert c in parts + [c];
    JoinBackward(cal, last, c);
  }

  /** Joining gives a period without a day only from two such that begin on the same day. */
  lemma JoinBackward(cal: Calendar, last: Checked, c: Checked)
    requires Monotone(cal) && last.from <= c.from && Touch(cal, last.to, c.from)
    ensures var j := Joined(last, c);
            cal(j.to) < cal(j.from) ==> cal(last.to) < cal(last.from) && cal(c.from) == cal(last.from)
  {
    assert cal(last.from) <= cal(c.from);
    assert cal(last.to) <= cal(Max(last.to, c.to));
  }

  lemma MergeNew(cal: Calendar, before: seq<Checked>, c: Checked)
    requires Monotone(cal) && Separated(cal, before) && forall q <- before :: q.from <= c.from
    requires before != [] ==> !Touch(cal, before[|before| - 1].to, c.from)
    ensures var merged := before + [c.(skip := None)];
            && Separated(cal, merged)
            && forall d :: Covers(cal, merged, d) <==> Covers(cal, before, d) || OnDay(cal, c.from, c.to, d)
  {
    var merged := before + [c.(skip := None)];
    forall i, j | 0 <= i < j < |merged|
      ensures cal(merged[i].to) + 1 < cal(merged[j].from)
    {
      if j == |before| && i < |before| - 1 {
        assert before[|before| - 1] in before;
        assert cal(before[|before| - 1].from) <= cal(c.from);
      }
    }
    CoversSnoc(cal, before, c.(skip := None));
  }

  // ----- the requests that go out

  function PartsOf(parts: seq<Checked>, id: string): (r: seq<Checked>)
    ensures forall p :: p in r <==> p in parts && p.meter.id == id
  {
    if parts == [] then []
    else
      var rest, p := PartsOf(parts[..|parts| - 1], id), parts[|parts| - 1];
      assert parts == parts[..|parts| - 1] + [p];
      if p.meter.id == id then rest + [p] else rest
  }

  lemma {:induction false} PartsOfConcat(x: seq<Checked>, y: seq<Checked>, id: string)
    ensures PartsOf(x + y, id) == PartsOf(x, id) + PartsOf(y, id)
  {
    if y == [] {
      assert x + y == x;
    } else {
      assert (x + y)[..|x + y| - 1] == x + y[..|y| - 1];
      PartsOfConcat(x, y[..|y| - 1], id);
    }
  }

  lemma {:induction false} PartsOfOne(x: seq<Checked>, id: string)
    ensures OfMeter(x, id) ==> PartsOf(x, id) == x
    ensures (forall p <- x :: p.meter.id != id) ==> PartsOf(x, id) == []
  {
    if x != [] {
      assert x == x[..|x| - 1] + [x[|x| - 1]];
      PartsOfOne(x[..|x| - 1], id);
    }
  }

  /** The first part of a metering point. */
  function FirstPart(parts: seq<Checked>, id: string): (k: nat)
    ensures k <= |parts| && (k < |parts| ==> parts[k].meter.id == id)
    ensures forall j :: 0 <= j < k ==> parts[j].meter.id != id
  {
    if parts == [] || parts[0].meter.id == id then 0 else 1 + FirstPart(parts[1..], id)
  }

  /** The metering points, each once, in the order of their first part. */
  predicate ByFirstPart(parts: seq<Checked>, order: seq<string>) {
    forall i, j :: 0 <= i < j < |order| ==> FirstPart(parts, order[i]) < FirstPart(parts, order[j])
  }

  /** The first `i` parts by metering point. */
  predicate Grouped(free: seq<Checked>, i: nat, byMeter: map<string, seq<Checked>>)
    requires i <= |free|
  {
    && (forall id <- byMeter :: byMeter[id] == PartsOf(free[..i], id))
    && (forall j :: 0 <= j < i ==> free[j].meter.id in byMeter)
  }

  lemma GroupedStep(free: seq<Checked>, i: nat, byMeter: map<string, seq<Checked>>)
    requires i < |free| && Grouped(free, i, byMeter)
    ensures var id := free[i].meter.id;
            Grouped(free, i + 1, byMeter[id := (if id in byMeter then byMeter[id] else []) + [free[i]]])
  {
    assert free[..i + 1][..i] == free[..i];
    if free[i].meter.id !in byMeter {
      forall j | 0 <= j < |free[..i]|
        ensures free[..i][j].meter.id != free[i].meter.id
      {
        assert free[j].meter.id in byMeter;
      }
      PartsOfOne(free[..i], free[i].meter.id);
    }
  }

  predicate StartBefore(parts: seq<Checked>, order: seq<string>, i: nat) {
    forall id <- order :: FirstPart(parts, id) < i
  }

  lemma OrderStep(parts: seq<Checked>, i: nat, order: seq<string>)
    requires i < |parts| && forall j :: 0 <= j < i ==> parts[j].meter.id != parts[i].meter.id
    requires ByFirstPart(parts, order) && StartBefore(parts, order, i)
    ensures ByFirstPart(parts, order + [parts[i].meter.id]) && StartBefore(parts, order + [parts[i].meter.id], i + 1)
  {
    assert FirstPart(parts, parts[i].meter.id) == i;
    assert forall j :: 0 <= j < |order| ==> order[j] in order;
  }

  /** `order` holds the keys by first part. */
  ghost predicate Ordered(free: seq<Checked>, i: nat, byMeter: map<string, seq<Checked>>, order: seq<string>) {
    ByFirstPart(free, order) && StartBefore(free, order, i) && forall id :: id in order <==> id in byMeter
  }

  lemma OrderedStep(free: seq<Checked>, i: nat, byMeter: map<string, seq<Checked>>, order: seq<string>, parts: seq<Checked>)
    requires i < |free| && Grouped(free, i, byMeter) && Ordered(free, i, byMeter, order)
    ensures var id := free[i].meter.id;
            if id in byMeter then Ordered(free, i + 1, byMeter[id := parts], order)
            else Ordered(free, i + 1, byMeter[id := parts], order + [id])
  {
    if free[i].meter.id !in byMeter {
      OrderStep(free, i, order);
    }
  }

  /** The parts by metering point, and the metering points in the order of their first part. */
  method Group(free: seq<Checked>) returns (byMeter: map<string, seq<Checked>>, order: seq<string>)
    ensures Grouped(free, |free|, byMeter)
    ensures ByFirstPart(free, order) && forall id :: id in order <==> id in byMeter
  {
    byMeter, order := map[], [];
    for i := 0 to |free|
      invariant Grouped(free, i, byMeter) && Ordered(free, i, byMeter, order)
    {
      var id := free[i].meter.id;
      var parts := (if id in byMeter then byMeter[id] else []) + [free[i]];
      GroupedStep(free, i, byMeter);
      OrderedStep(free, i, byMeter, order, parts);
      if id !in byMeter {
        order := order + [id];
      }
      byMeter := byMeter[id := parts];
    }
  }

  function Ranges(parts: seq<Checked>): (r: seq<MeterRange>)
    ensures |r| == |parts|
    ensures forall i :: 0 <= i < |r| ==> r[i] == MeterRange(parts[i].meter.id, parts[i].from, parts[i].to)
  {
    seq(|parts|, i requires 0 <= i < |parts| => MeterRange(parts[i].meter.id, parts[i].from, parts[i].to))
  }

  function WithAdds(l: Lists, parts: seq<MeterRange>): Lists {
    if parts == [] then l
    else
      var p := parts[|parts| - 1];
      AddTo(WithAdds(l, parts[..|parts| - 1]), p.meter, p.from, p.to)
  }

  method RecordParts(run: RunBuilder, parts: seq<Checked>)
    modifies run`meters, run`skipped
    ensures run.Content() == WithAdds(old(run.Content()), Ranges(parts))
  {
    for j := 0 to |parts|
      invariant run.Content() == WithAdds(old(run.Content()), Ranges(parts[..j]))
    {
      assert Ranges(parts[..j + 1])[..j] == Ranges(parts[..j]);
      run.AddMeter(parts[j].meter.id, parts[j].from, parts[j].to);
    }
    assert parts[..|parts|] == parts;
  }

  lemma {:induction false} WithAddsConcat(l: Lists, x: seq<MeterRange>, y: seq<MeterRange>)
    ensures WithAdds(l, x + y) == WithAdds(WithAdds(l, x), y)
  {
    if y == [] {
      assert x + y == x;
    } else {
      assert (x + y)[..|x + y| - 1] == x + y[..|y| - 1];
      WithAddsConcat(l, x, y[..|y| - 1]);
    }
  }

  lemma AddsOf(l: Lists, x: seq<Checked>, y: seq<Checked>)
    ensures WithAdds(l, Ranges(x + y)) == WithAdds(WithAdds(l, Ranges(x)), Ranges(y))
  {
    RangesConcat(x, y);
    WithAddsConcat(l, Ranges(x), Ranges(y));
  }

  lemma RangesConcat(x: seq<Checked>, y: seq<Checked>)
    ensures Ranges(x + y) == Ranges(x) + Ranges(y)
  {
  }

  /** For each metering point the sent parts are the merged free parts. */
  ghost predicate IsPlan(cal: Calendar, free: seq<Checked>, send: seq<Checked>) {
    forall id :: IsMerged(cal, PartsOf(free, id), PartsOf(send, id), id)
  }

  /** What is planned for the metering points of the first entries of `order`. */
  ghost predicate IsPlanOf(cal: Calendar, free: seq<Checked>, send: seq<Checked>, order: seq<string>) {
    forall id :: IsPlannedAt(cal, free, PartsOf(send, id), id in order, id)
  }

  ghost predicate IsPlannedAt(cal: Calendar, free: seq<Checked>, parts: seq<Checked>, planned: bool, id: string) {
    if planned then IsMerged(cal, PartsOf(free, id), parts, id) else parts == []
  }

  lemma PartsOfMore(send: seq<Checked>, merged: seq<Checked>, id: string, other: string)
    requires OfMeter(merged, id)
    ensures PartsOf(send + merged, other) == if other == id then PartsOf(send, id) + merged else PartsOf(send, other)
  {
    PartsOfConcat(send, merged, other);
    PartsOfOne(merged, other);
    assert PartsOf(send, other) + [] == PartsOf(send, other);
  }

  lemma PlanStep(cal: Calendar, free: seq<Checked>, send: seq<Checked>, order: seq<string>, i: nat, merged: seq<Checked>)
    requires i < |order| && (forall a, b :: 0 <= a < b < |order| ==> order[a] != order[b])
    requires IsPlanOf(cal, free, send, order[..i]) && IsMerged(cal, PartsOf(free, order[i]), merged, order[i])
    ensures IsPlanOf(cal, free, send + merged, order[..i + 1])
  {
    assert IsPlannedAt(cal, free, PartsOf(send, order[i]), order[i] in order[..i], order[i]);
    forall id
      ensures IsPlannedAt(cal, free, PartsOf(send + merged, id), id in order[..i + 1], id)
    {
      TakeOne(order, i, id);
      PartsOfMore(send, merged, order[i], id);
      assert IsPlannedAt(cal, free, PartsOf(send, id), id in order[..i], id);
      assert [] + merged == merged;
    }
  }

  lemma TakeOne(order: seq<string>, i: nat, id: string)
    requires i < |order| && (forall a, b :: 0 <= a < b < |order| ==> order[a] != order[b])
    ensures id in order[..i + 1] <==> id in order[..i] || id == order[i]
    ensures order[i] !in order[..i]
  {
    assert order[..i + 1] == order[..i] + [order[i]];
  }

  lemma PlanDone(cal: Calendar, free: seq<Checked>, send: seq<Checked>, order: seq<string>)
    requires IsPlanOf(cal, free, send, order) && forall p <- free :: p.meter.id in order
    ensures IsPlan(cal, free, send)
  {
    forall id
      ensures IsMerged(cal, PartsOf(free, id), PartsOf(send, id), id)
    {
      assert IsPlannedAt(cal, free, PartsOf(send, id), id in order, id);
      if id !in order {
        PartsOfOne(free, id);
      }
    }
  }

  /** Merges the free parts of each metering point and records them in the run. */
  method Plan(cal: Calendar, run: RunBuilder, free: seq<Checked>) returns (send: seq<Checked>)
    requires Monotone(cal)
    modifies run`meters, run`skipped
    ensures IsPlan(cal, free, send)
    ensures run.Content() == WithAdds(old(run.Content()), Ranges(send))
  {
    var byMeter, order := Group(free);
    assert free[..|free|] == free;
    send := [];
    for i := 0 to |order|
      invariant IsPlanOf(cal, free, send, order[..i])
      invariant run.Content() == WithAdds(old(run.Content()), Ranges(send))
    {
      var id := order[i];
      var merged := MergeMeter(cal, byMeter[id], id);
      PlanStep(cal, free, send, order, i, merged);
      RecordParts(run, merged);
      AddsOf(old(run.Content()), send, merged);
      send := send + merged;
    }
    assert order[..|order|] == order;
    PlanDone(cal, free, send, order);
  }

  method MergeMeter(cal: Calendar, parts: seq<Checked>, id: string) returns (merged: seq<Checked>)
    requires Monotone(cal) && OfMeter(parts, id)
    ensures IsMerged(cal, parts, merged, id)
  {
    var sorted := SortParts(parts);
    assert forall p :: p in sorted <==> p in multiset(sorted);
    assert forall p :: p in parts <==> p in multiset(parts);
    merged := Merge(cal, sorted, id);
    SamePartsMerged(cal, sorted, parts, merged, id);
  }

  lemma SamePartsMerged(cal: Calendar, x: seq<Checked>, y: seq<Checked>, merged: seq<Checked>, id: string)
    requires IsMerged(cal, x, merged, id) && forall p :: p in x <==> p in y
    ensures IsMerged(cal, y, merged, id)
  {
    assert y != [] ==> y[0] in x;
    forall q | q in merged
      ensures IsHullOf(cal, y, q)
    {
      assert IsHullOf(cal, x, q);
    }
  }

  /** No sent part shares a day with a lock that none of the free parts shares a day with, nor with the code's test of it
      for a lock that has a day. */
  lemma PlanAvoidsLock(cal: Calendar, free: seq<Checked>, send: seq<Checked>, p: Checked, from: int, to: int)
    requires IsPlan(cal, free, send) && p in send && cal(from) <= cal(to)
    requires forall q <- free :: q.meter.id == p.meter.id ==> !Overlaps(cal, from, to, q.from, q.to)
    ensures !Overlaps(cal, from, to, p.from, p.to)
  {
    var id := p.meter.id;
    var parts, merged := PartsOf(free, id), PartsOf(send, id);
    assert IsMerged(cal, parts, merged, id) && p in merged;
    if cal(p.from) <= cal(p.to) {
      forall d | OnDay(cal, from, to, d)
        ensures !OnDay(cal, p.from, p.to, d)
      {
        NotCovered(cal, parts, from, to, d);
        assert OnDay(cal, p.from, p.to, d) ==> Covers(cal, merged, d);
      }
      OverlapIsSharedDay(cal, from, to, p.from, p.to);
    } else {
      assert IsHullOf(cal, parts, p);
    }
  }

  lemma NotCovered(cal: Calendar, parts: seq<Checked>, from: int, to: int, d: int)
    requires OnDay(cal, from, to, d) && forall q <- parts :: !Overlaps(cal, from, to, q.from, q.to)
    ensures !Covers(cal, parts, d)
  {
  }

  /** A candidate that no run of the last hour blocks. */
  predicate IsUnlocked(cal: Calendar, c: Checked, rows: seq<Row>, rejected: Verdict, tenant: string, now: int) {
    c.skip.None? && forall r <- rows :: !Blocks(cal, r, rejected, tenant, now, c.meter.id, c.from, c.to)
  }

  /** Day `d` is one of an unlocked candidate of the metering point. */
  predicate IsDayOfUnlocked(cal: Calendar, checked: seq<Checked>, rows: seq<Row>, rejected: Verdict, tenant: string, now: int,
                            id: string, d: int)
  {
    exists c <- checked :: c.meter.id == id && IsUnlocked(cal, c, rows, rejected, tenant, now) && OnDay(cal, c.from, c.to, d)
  }

  /** Exactly the days of the unlocked candidates are planned, and something for each of them. */
  ghost predicate PlansUnlocked(cal: Calendar, checked: seq<Checked>, rows: seq<Row>, rejected: Verdict, tenant: string, now: int,
                                send: seq<Checked>)
  {
    && (forall id, d :: Covers(cal, PartsOf(send, id), d) <==> IsDayOfUnlocked(cal, checked, rows, rejected, tenant, now, id, d))
    && forall c <- checked :: IsUnlocked(cal, c, rows, rejected, tenant, now) ==> PartsOf(send, c.meter.id) != []
  }

  lemma FreeIsUnlocked(cal: Calendar, c: Checked, locks: LockMap, rows: seq<Row>, rejected: Verdict, tenant: string, now: int)
    requires now >= 0 && LocksFor(locks, c.meter.id) == RowLocks(rows, rejected, tenant, now, c.meter.id)
    ensures IsFree(cal, locks, c) <==> IsUnlocked(cal, c, rows, rejected, tenant, now)
  {
    FreeMeansNoBlockingRun(cal, rows, rejected, tenant, now, c.meter.id, c.from, c.to);
  }

  lemma FreeAreUnlocked(cal: Calendar, checked: seq<Checked>, locks: LockMap, rows: seq<Row>, rejected: Verdict, tenant: string,
                        now: int, candidates: nat)
    requires now >= 0 && (candidates > 0 <==> exists c <- checked :: c.skip.None?)
    requires candidates > 0 ==> forall m :: LocksFor(locks, m) == RowLocks(rows, rejected, tenant, now, m)
    ensures forall c <- checked :: IsFree(cal, locks, c) <==> IsUnlocked(cal, c, rows, rejected, tenant, now)
  {
    forall c | c in checked
      ensures IsFree(cal, locks, c) <==> IsUnlocked(cal, c, rows, rejected, tenant, now)
    {
      if candidates > 0 {
        FreeIsUnlocked(cal, c, locks, rows, rejected, tenant, now);
      }
    }
  }

  lemma PlanIsOfUnlocked(cal: Calendar, checked: seq<Checked>, free: seq<Checked>, rows: seq<Row>, rejected: Verdict,
                         tenant: string,
                         now: int, send: seq<Checked>)
    requires IsPlan(cal, free, send)
    requires forall c :: c in free <==> c in checked && IsUnlocked(cal, c, rows, rejected, tenant, now)
    ensures PlansUnlocked(cal, checked, rows, rejected, tenant, now, send)
  {
    forall id, d
      ensures Covers(cal, PartsOf(send, id), d) <==> IsDayOfUnlocked(cal, checked, rows, rejected, tenant, now, id, d)
    {
      assert IsMerged(cal, PartsOf(free, id), PartsOf(send, id), id);
    }
    forall c | c in checked && IsUnlocked(cal, c, rows, rejected, tenant, now)
      ensures PartsOf(send, c.meter.id) != []
    {
      assert IsMerged(cal, PartsOf(free, c.meter.id), PartsOf(send, c.meter.id), c.meter.id);
      assert c in PartsOf(free, c.meter.id);
    }
  }

  // ----- what is planned, said of the request and the rows

  /** The participation can be requested for the period: it is the member's, registered, and active in it. */
  predicate IsWanted(m: Participation, p: Period) {
    && (m.flag == Assigned || m.flag == Moved) && m.status != S_INIT && m.since.Some? && m.until.Some?
    && m.since.value <= p.to && p.from <= m.until.value
  }

  /** A run of the last hour that was not rejected shares a day with what is asked of the participation. */
  ghost predicate IsHeldBy(cal: Calendar, rows: seq<Row>, tenants: set<string>, tenant: string, now: int, m: Participation,
                           p: Period, r: Row)
    requires IsWanted(m, p)
  {
    Holds(cal, rows, tenants, tenant, now, r, m.id) &&
    exists e <- r.content.run.meters ::
      && e.meter == m.id && cal(e.from) <= cal(m.until.value) && cal(e.from) <= cal(p.to)
      && cal(m.since.value) <= cal(e.to) && cal(p.from) <= cal(e.to)
  }

  /** The participation is planned: wanted for the period, and held by no run. */
  ghost predicate IsPlanned(cal: Calendar, rows: seq<Row>, tenants: set<string>, tenant: string, now: int,
                            m: Participation, p: Period) {
    IsWanted(m, p) && forall r <- rows :: !IsHeldBy(cal, rows, tenants, tenant, now, m, p, r)
  }

  /** Day `d` is one for which the participation is planned. */
  ghost predicate IsPlannedOn(cal: Calendar, rows: seq<Row>, tenants: set<string>, tenant: string, now: int, m: Participation,
                              p: Period, d: int)
  {
    && IsPlanned(cal, rows, tenants, tenant, now, m, p)
    && cal(m.since.value) <= d <= cal(m.until.value) && cal(p.from) <= d <= cal(p.to)
  }

  /** Day `d` is asked for a participation of the metering point that is planned: the participation is active on it, and it
      lies in the period given for the metering point, in that of the request when none is given. */
  ghost predicate IsAskedOn(cal: Calendar, found: seq<Participation>, periods: map<string, Period>, whole: Period, rows: seq<Row>,
                            tenants: set<string>, tenant: string, now: int, id: string, d: int)
  {
    var p := if id in periods then periods[id] else whole;
    exists m <- found :: m.id == id && IsPlannedOn(cal, rows, tenants, tenant, now, m, p, d)
  }

  /** Exactly the days asked for are planned, and something for each planned participation. */
  ghost predicate PlansWanted(cal: Calendar, found: seq<Participation>, periods: map<string, Period>, whole: Period, rows: seq<Row>,
                              tenants: set<string>, tenant: string, now: int, send: seq<Checked>)
  {
    && (forall id, d :: IsSentOn(cal, send, id, d) <==> IsAskedOn(cal, found, periods, whole, rows, tenants, tenant, now, id, d))
    && forall m <- found ::
         IsPlanned(cal, rows, tenants, tenant, now, m, if m.id in periods then periods[m.id] else whole) ==>
           exists q <- send :: q.meter.id == m.id
  }

  predicate IsSentOn(cal: Calendar, send: seq<Checked>, id: string, d: int) {
    exists q <- send :: q.meter.id == id && cal(q.from) <= d <= cal(q.to)
  }

  /** No wanted participation is cut to a period that ends before it begins. */
  predicate AsksForward(found: seq<Participation>, periods: map<string, Period>, whole: Period) {
    forall m <- found ::
      var p := if m.id in periods then periods[m.id] else whole;
      IsWanted(m, p) ==> m.since.value <= m.until.value && p.from <= p.to
  }

  lemma PlanSpares(cal: Calendar, send: seq<Checked>, rows: seq<Row>, tenants: set<string>, tenant: string, now: int)
    requires Unblocked(cal, send, rows, Rejections(cal, rows, tenants), tenant, now)
    ensures forall p <- Ranges(send) :: Spares(cal, rows, tenants, tenant, now, p.meter, p.from, p.to)
  {
    forall i | 0 <= i < |send|
      ensures Spares(cal, rows, tenants, tenant, now, send[i].meter.id, send[i].from, send[i].to)
    {
      assert send[i] in send;
      UnblockedSpares(cal, rows, tenants, tenant, now, send[i].meter.id, send[i].from, send[i].to);
    }
  }

  /** The time at the later of both starts is on the later of both days. */
  lemma CutDays(cal: Calendar, a: int, b: int)
    requires Monotone(cal)
    ensures cal(Max(a, b)) == Max(cal(a), cal(b)) && cal(Min(a, b)) == Min(cal(a), cal(b))
  {
  }

  lemma UnlockedIsPlanned(cal: Calendar, m: Participation, p: Period, rows: seq<Row>, tenants: set<string>, tenant: string,
                          now: int)
    requires Monotone(cal)
    ensures IsUnlocked(cal, Check(m, p), rows, Rejections(cal, rows, tenants), tenant, now) <==>
            IsPlanned(cal, rows, tenants, tenant, now, m, p)
  {
    var c := Check(m, p);
    if c.skip.None? {
      CutDays(cal, m.since.value, p.from);
      CutDays(cal, m.until.value, p.to);
      forall r | r in rows
        ensures Blocks(cal, r, Rejections(cal, rows, tenants), tenant, now, m.id, c.from, c.to) <==>
                IsHeldBy(cal, rows, tenants, tenant, now, m, p, r)
      {
        BlocksRows(cal, rows, tenants, tenant, now, r, m.id, c.from, c.to);
      }
    }
  }

  lemma UnlockedOnDay(cal: Calendar, m: Participation, p: Period, rows: seq<Row>, tenants: set<string>, tenant: string,
                      now: int, d: int)
    requires Monotone(cal)
    ensures var c := Check(m, p);
            IsUnlocked(cal, c, rows, Rejections(cal, rows, tenants), tenant, now) && OnDay(cal, c.from, c.to, d) <==>
            IsPlannedOn(cal, rows, tenants, tenant, now, m, p, d)
  {
    UnlockedIsPlanned(cal, m, p, rows, tenants, tenant, now);
    if IsWanted(m, p) {
      CutDays(cal, m.since.value, p.from);
      CutDays(cal, m.until.value, p.to);
    }
  }

  lemma DaysOfWanted(cal: Calendar, found: seq<Participation>, periods: map<string, Period>, whole: Period, rows: seq<Row>,
                     tenants: set<string>, tenant: string, now: int, id: string, d: int)
    requires Monotone(cal)
    ensures var p := if id in periods then periods[id] else whole;
            IsDayOfUnlocked(cal, CheckAll(found, periods, whole), rows, Rejections(cal, rows, tenants), tenant, now, id, d) <==>
            exists m <- found :: m.id == id && IsPlannedOn(cal, rows, tenants, tenant, now, m, p, d)
  {
    var checked, p := CheckAll(found, periods, whole), if id in periods then periods[id] else whole;
    forall i | 0 <= i < |found| && found[i].id == id
      ensures checked[i].meter.id == id
      ensures IsUnlocked(cal, checked[i], rows, Rejections(cal, rows, tenants), tenant, now)
              && OnDay(cal, checked[i].from, checked[i].to, d) <==>
              IsPlannedOn(cal, rows, tenants, tenant, now, found[i], p, d)
    {
      UnlockedOnDay(cal, found[i], p, rows, tenants, tenant, now, d);
    }
    assert forall i :: 0 <= i < |found| ==> checked[i].meter == found[i] && checked[i] in checked;
  }

  lemma SentOnCovered(cal: Calendar, send: seq<Checked>, id: string, d: int)
    ensures IsSentOn(cal, send, id, d) <==> Covers(cal, PartsOf(send, id), d)
  {
  }

  lemma UnlockedAreWanted(cal: Calendar, found: seq<Participation>, periods: map<string, Period>, whole: Period, rows: seq<Row>,
                          tenants: set<string>, tenant: string, now: int, send: seq<Checked>)
    requires Monotone(cal)
    requires PlansUnlocked(cal, CheckAll(found, periods, whole), rows, Rejections(cal, rows, tenants), tenant, now, send)
    ensures PlansWanted(cal, found, periods, whole, rows, tenants, tenant, now, send)
  {
    var checked := CheckAll(found, periods, whole);
    forall id, d
      ensures IsSentOn(cal, send, id, d) <==> IsAskedOn(cal, found, periods, whole, rows, tenants, tenant, now, id, d)
    {
      SentOnCovered(cal, send, id, d);
      DaysOfWanted(cal, found, periods, whole, rows, tenants, tenant, now, id, d);
    }
    forall i | 0 <= i < |found| && IsPlanned(cal, rows, tenants, tenant, now, found[i], PeriodFor(periods, whole, found[i].id))
      ensures exists q <- send :: q.meter.id == found[i].id
    {
      UnlockedIsPlanned(cal, found[i], PeriodFor(periods, whole, found[i].id), rows, tenants, tenant, now);
      assert checked[i] in checked && checked[i].meter == found[i];
      var parts := PartsOf(send, found[i].id);
      assert parts != [] && parts[0] in parts;
    }
  }

  lemma CheckIsForward(m: Participation, p: Period)
    requires IsWanted(m, p) ==> m.since.value <= m.until.value && p.from <= p.to
    ensures Check(m, p).skip.None? ==> Check(m, p).from <= Check(m, p).to
  {
  }

  lemma FreeIsForward(cal: Calendar, found: seq<Participation>, periods: map<string, Period>, whole: Period, locks: LockMap)
    requires AsksForward(found, periods, whole)
    ensures Forward(FreeOf(cal, locks, CheckAll(found, periods, whole)))
  {
    var checked := CheckAll(found, periods, whole);
    forall i | 0 <= i < |checked|
      ensures checked[i].skip.None? ==> checked[i].from <= checked[i].to
    {
      assert found[i] in found;
      CheckIsForward(found[i], PeriodFor(periods, whole, found[i].id));
    }
  }

  lemma PlanIsForward(cal: Calendar, free: seq<Checked>, send: seq<Checked>)
    requires IsPlan(cal, free, send) && Forward(free)
    ensures Forward(send)
  {
    forall p | p in send
      ensures p.from <= p.to
    {
      assert IsMerged(cal, PartsOf(free, p.meter.id), PartsOf(send, p.meter.id), p.meter.id);
      assert p in PartsOf(send, p.meter.id);
    }
  }

  lemma {:induction false} SkipsKeepMeters(l: Lists, cal: Calendar, locks: LockMap, checked: seq<Checked>)
    ensures WithSkips(l, cal, locks, checked).meters == l.meters
  {
    if checked != [] {
      SkipsKeepMeters(l, cal, locks, checked[..|checked| - 1]);
    }
  }

  lemma PlanIsUnblocked(cal: Calendar, lockRows: seq<Row>, rejected: Verdict, tenant: string, now: int, locks: LockMap,
                        checked: seq<Checked>, free: seq<Checked>, send: seq<Checked>, candidates: nat)
    requires now >= 0 && (candidates > 0 <==> exists c <- checked :: c.skip.None?)
    requires candidates > 0 ==> forall m :: LocksFor(locks, m) == RowLocks(lockRows, rejected, tenant, now, m)
    requires free == FreeOf(cal, locks, checked) && IsPlan(cal, free, send)
    ensures Unblocked(cal, send, lockRows, rejected, tenant, now)
  {
    forall p, r | p in send && r in lockRows
      ensures !BlocksDays(cal, r, rejected, tenant, now, p.meter.id, p.from, p.to)
    {
      PlannedPartUnblocked(cal, lockRows, rejected, tenant, now, locks, checked, free, send, p, r, candidates);
    }
  }

  lemma PlannedPartUnblocked(cal: Calendar, lockRows: seq<Row>, rejected: Verdict, tenant: string, now: int, locks: LockMap,
                             checked: seq<Checked>, free: seq<Checked>, send: seq<Checked>, p: Checked, r: Row, candidates: nat)
    requires now >= 0 && p in send && r in lockRows
    requires candidates > 0 <==> exists c <- checked :: c.skip.None?
    requires candidates > 0 ==> forall m :: LocksFor(locks, m) == RowLocks(lockRows, rejected, tenant, now, m)
    requires free == FreeOf(cal, locks, checked) && IsPlan(cal, free, send)
    ensures !BlocksDays(cal, r, rejected, tenant, now, p.meter.id, p.from, p.to)
  {
    var id := p.meter.id;
    if BlocksDays(cal, r, rejected, tenant, now, id, p.from, p.to) {
      var e :| e in r.content.run.meters && e.meter == id && cal(e.from) <= cal(e.to) && Overlaps(cal, e.from, e.to, p.from, p.to);
      forall q | q in free && q.meter.id == id
        ensures !Overlaps(cal, e.from, e.to, q.from, q.to)
      {
        assert q in checked && q.skip.None?;
        FreeMeansNoBlockingRun(cal, lockRows, rejected, tenant, now, id, q.from, q.to);
        assert !Blocks(cal, r, rejected, tenant, now, id, q.from, q.to);
      }
      PlanAvoidsLock(cal, free, send, p, e.from, e.to);
    }
  }

  /** No two parts of a metering point share a day. */
  predicate Disjoint(cal: Calendar, parts: seq<MeterRange>) {
    forall a, b :: 0 <= a < b < |parts| && parts[a].meter == parts[b].meter ==>
      !Overlaps(cal, parts[a].from, parts[a].to, parts[b].from, parts[b].to)
  }

  lemma {:induction false} PartsOfOrder(send: seq<Checked>, a: nat, b: nat) returns (i: nat, j: nat)
    requires a < b < |send| && send[a].meter.id == send[b].meter.id
    ensures var parts := PartsOf(send, send[a].meter.id); i < j < |parts| && parts[i] == send[a] && parts[j] == send[b]
  {
    var init, id := send[..|send| - 1], send[a].meter.id;
    if b < |init| {
      i, j := PartsOfOrder(init, a, b);
    } else {
      assert init[a] in PartsOf(init, id);
      i :| 0 <= i < |PartsOf(init, id)| && PartsOf(init, id)[i] == send[a];
      j := |PartsOf(init, id)|;
    }
  }

  lemma PlanIsDisjoint(cal: Calendar, free: seq<Checked>, send: seq<Checked>)
    requires IsPlan(cal, free, send)
    ensures Disjoint(cal, Ranges(send))
  {
    forall a, b | 0 <= a < b < |send| && send[a].meter.id == send[b].meter.id
      ensures !Overlaps(cal, send[a].from, send[a].to, send[b].from, send[b].to)
    {
      var i, j := PartsOfOrder(send, a, b);
      assert IsMerged(cal, PartsOf(free, send[a].meter.id), PartsOf(send, send[a].meter.id), send[a].meter.id);
    }
  }

  // ----- the calls that record the run

  function CompleteCalls(complete: seq<string>, periods: map<string, Period>): seq<Call> {
    if complete == [] then []
    else
      var init, last := complete[..|complete| - 1], complete[|complete| - 1];
      CompleteCalls(init, periods) + if last in periods then [] else [Skip(last, Complete, 0)]
  }

  function SkipCalls(cal: Calendar, locks: LockMap, checked: seq<Checked>): seq<Call> {
    if checked == [] then []
    else
      var init, last := checked[..|checked| - 1], checked[|checked| - 1];
      SkipCalls(cal, locks, init) + if IsFree(cal, locks, last) then [] else [SkipCall(cal, locks, last)]
  }

  function AddCalls(parts: seq<MeterRange>): seq<Call> {
    if parts == [] then []
    else
      var p := parts[|parts| - 1];
      AddCalls(parts[..|parts| - 1]) + [Add(p.meter, p.from, p.to)]
  }

  function NotFoundCalls(ids: seq<string>): seq<Call> {
    if ids == [] then [] else NotFoundCalls(ids[..|ids| - 1]) + [Skip(ids[|ids| - 1], NotFound, 0)]
  }

  lemma RecordSnoc(calls: seq<Call>, c: Call)
    ensures Record(calls + [c]) == Apply(Record(calls), c)
  {
    assert (calls + [c])[..|calls|] == calls;
  }

  lemma AppendCall(x: seq<Call>, y: seq<Call>, c: Call)
    ensures Record(x + (y + [c])) == Apply(Record(x + y), c)
  {
    assert x + (y + [c]) == (x + y) + [c];
    RecordSnoc(x + y, c);
  }

  lemma {:induction false} RecordsSkips(calls: seq<Call>, cal: Calendar, locks: LockMap, checked: seq<Checked>)
    ensures Record(calls + SkipCalls(cal, locks, checked)) == WithSkips(Record(calls), cal, locks, checked)
  {
    if checked == [] {
      assert calls + [] == calls;
    } else {
      var init, last := checked[..|checked| - 1], checked[|checked| - 1];
      RecordsSkips(calls, cal, locks, init);
      AppendCall(calls, SkipCalls(cal, locks, init), SkipCall(cal, locks, last));
      assert SkipCalls(cal, locks, init) + [] == SkipCalls(cal, locks, init);
    }
  }

  lemma {:induction false} RecordsAdds(calls: seq<Call>, parts: seq<MeterRange>)
    ensures Record(calls + AddCalls(parts)) == WithAdds(Record(calls), parts)
  {
    if parts == [] {
      assert calls + [] == calls;
    } else {
      var init, p := parts[..|parts| - 1], parts[|parts| - 1];
      RecordsAdds(calls, init);
      AppendCall(calls, AddCalls(init), Add(p.meter, p.from, p.to));
    }
  }

  lemma {:induction false} RecordsNotFound(calls: seq<Call>, ids: seq<string>)
    ensures Record(calls + NotFoundCalls(ids)) == SkipAll(Record(calls), ids)
  {
    if ids == [] {
      assert calls + [] == calls;
    } else {
      var init, last := ids[..|ids| - 1], ids[|ids| - 1];
      RecordsNotFound(calls, init);
      AppendCall(calls, NotFoundCalls(init), Skip(last, NotFound, 0));
    }
  }

  lemma {:induction false} CompleteMembers(complete: seq<string>, periods: map<string, Period>, c: Call)
    ensures c in CompleteCalls(complete, periods) <==>
            c.Skip? && c == Skip(c.meter, Complete, 0) && c.meter in complete && c.meter !in periods
  {
    if complete != [] {
      var init, last := complete[..|complete| - 1], complete[|complete| - 1];
      CompleteMembers(init, periods, c);
      assert c.meter in complete <==> c.meter in init || c.meter == last;
    }
  }

  lemma {:induction false} SkipMembers(cal: Calendar, locks: LockMap, checked: seq<Checked>, c: Call)
    ensures c in SkipCalls(cal, locks, checked) <==> exists x <- checked :: !IsFree(cal, locks, x) && c == SkipCall(cal, locks, x)
  {
    if checked != [] {
      var init, last := checked[..|checked| - 1], checked[|checked| - 1];
      SkipMembers(cal, locks, init, c);
      assert checked == init + [last];
    }
  }

  lemma {:induction false} AddMembers(parts: seq<MeterRange>, c: Call)
    ensures c in AddCalls(parts) <==> exists p <- parts :: c == Add(p.meter, p.from, p.to)
  {
    if parts != [] {
      AddMembers(parts[..|parts| - 1], c);
      assert parts == parts[..|parts| - 1] + [parts[|parts| - 1]];
    }
  }

  lemma {:induction false} NotFoundMembers(ids: seq<string>, c: Call)
    ensures c in NotFoundCalls(ids) <==> c.Skip? && c == Skip(c.meter, NotFound, 0) && c.meter in ids
  {
    if ids != [] {
      var init, last := ids[..|ids| - 1], ids[|ids| - 1];
      NotFoundMembers(init, c);
      assert c.meter in ids <==> c.meter in init || c.meter == last;
    }
  }

  // ----- why a participation is passed over, said of the request and the rows

  /** The first static check that fails. */
  predicate FailsFirst(m: Participation, p: Period, reason: Reason) {
    var owned := m.flag == Assigned || m.flag == Moved;
    match reason
    case NotAssigned => !owned
    case NotRegistered => owned && m.status == S_INIT
    case NoActivePeriod => owned && m.status != S_INIT && (m.since.None? || m.until.None?)
    case NotActiveInPeriod =>
      owned && m.status != S_INIT && m.since.Some? && m.until.Some? && !(m.since.value <= p.to && p.from <= m.until.value)
    case _ => false
  }

  ghost predicate IsHeldFor(cal: Calendar, rows: seq<Row>, tenants: set<string>, tenant: string, now: int,
                            m: Participation, p: Period,
                            r: Row, until: int)
    requires IsWanted(m, p)
  {
    IsHeldBy(cal, rows, tenants, tenant, now, m, p, r) && until == r.content.run.createdAt + 3_600_000
  }

  ghost predicate IsHeldTo(cal: Calendar, rows: seq<Row>, tenants: set<string>, tenant: string, now: int, m: Participation,
                           p: Period,
                           until: int)
    requires IsWanted(m, p)
  {
    exists r <- rows :: IsHeldFor(cal, rows, tenants, tenant, now, m, p, r, until)
  }

  /** Runs hold the participation, the last of them until then. */
  ghost predicate IsHeldUntil(cal: Calendar, rows: seq<Row>, tenants: set<string>, tenant: string, now: int,
                              m: Participation, p: Period,
                              until: int)
    requires IsWanted(m, p)
  {
    && IsHeldTo(cal, rows, tenants, tenant, now, m, p, until)
    && forall u :: IsHeldTo(cal, rows, tenants, tenant, now, m, p, u) ==> u <= until
  }

  /** The participation is passed over for the reason, until the time (0: for good). */
  ghost predicate IsPassed(cal: Calendar, rows: seq<Row>, tenants: set<string>, tenant: string, now: int, m: Participation,
                           p: Period,
                           reason: Reason, until: int)
  {
    || (FailsFirst(m, p, reason) && until == 0)
    || (reason == AlreadyRequested && IsWanted(m, p) && IsHeldUntil(cal, rows, tenants, tenant, now, m, p, until))
  }

  predicate IsLockFor(cal: Calendar, k: Lock, from: int, to: int, until: int) {
    Overlaps(cal, k.from, k.to, from, to) && k.until == until
  }

  predicate HasLockFor(cal: Calendar, list: seq<Lock>, from: int, to: int, until: int) {
    exists k <- list :: IsLockFor(cal, k, from, to, until)
  }

  lemma HeldHasLock(cal: Calendar, rows: seq<Row>, tenants: set<string>, tenant: string, now: int, m: Participation, p: Period,
                    list: seq<Lock>, until: int, r: Row)
    requires Monotone(cal) && IsWanted(m, p) && r in rows && IsHeldFor(cal, rows, tenants, tenant, now, m, p, r, until)
    requires forall k :: k in list <==> exists r <- rows :: HoldsBy(cal, rows, tenants, tenant, now, r, m.id, k)
    ensures HasLockFor(cal, list, Check(m, p).from, Check(m, p).to, until)
  {
    CutDays(cal, m.since.value, p.from);
    CutDays(cal, m.until.value, p.to);
    var e :| e in r.content.run.meters && e.meter == m.id && cal(e.from) <= cal(m.until.value) && cal(e.from) <= cal(p.to)
          && cal(m.since.value) <= cal(e.to) && cal(p.from) <= cal(e.to);
    var k := Lock(e.from, e.to, until);
    assert HoldsBy(cal, rows, tenants, tenant, now, r, m.id, k);
    assert IsLockFor(cal, k, Check(m, p).from, Check(m, p).to, until);
  }

  lemma LockIsHeld(cal: Calendar, rows: seq<Row>, tenants: set<string>, tenant: string, now: int, m: Participation, p: Period,
                   until: int, k: Lock, r: Row)
    requires Monotone(cal) && IsWanted(m, p) && r in rows && HoldsBy(cal, rows, tenants, tenant, now, r, m.id, k)
    requires IsLockFor(cal, k, Check(m, p).from, Check(m, p).to, until)
    ensures IsHeldFor(cal, rows, tenants, tenant, now, m, p, r, until) && now < until
  {
    CutDays(cal, m.since.value, p.from);
    CutDays(cal, m.until.value, p.to);
  }

  /** The ends of the locks that share a day with what is asked for are those of the runs that hold the participation. */
  lemma HeldToLocks(cal: Calendar, rows: seq<Row>, tenants: set<string>, tenant: string, now: int, m: Participation, p: Period,
                    list: seq<Lock>, until: int)
    requires Monotone(cal) && IsWanted(m, p)
    requires forall k :: k in list <==> exists r <- rows :: HoldsBy(cal, rows, tenants, tenant, now, r, m.id, k)
    ensures IsHeldTo(cal, rows, tenants, tenant, now, m, p, until) <==>
            HasLockFor(cal, list, Check(m, p).from, Check(m, p).to, until)
    ensures IsHeldTo(cal, rows, tenants, tenant, now, m, p, until) ==> now < until
  {
    if r :| r in rows && IsHeldFor(cal, rows, tenants, tenant, now, m, p, r, until) {
      HeldHasLock(cal, rows, tenants, tenant, now, m, p, list, until, r);
    }
    if k :| k in list && IsLockFor(cal, k, Check(m, p).from, Check(m, p).to, until) {
      var r :| r in rows && HoldsBy(cal, rows, tenants, tenant, now, r, m.id, k);
      LockIsHeld(cal, rows, tenants, tenant, now, m, p, until, k, r);
    }
  }

  lemma {:induction false} LockedUntilReached(cal: Calendar, locks: seq<Lock>, from: int, to: int)
    ensures LockedUntil(cal, locks, from, to) > 0 ==> HasLockFor(cal, locks, from, to, LockedUntil(cal, locks, from, to))
  {
    if locks != [] {
      var init, last := locks[..|locks| - 1], locks[|locks| - 1];
      var rest := LockedUntil(cal, init, from, to);
      LockedUntilReached(cal, init, from, to);
      assert locks == init + [last];
      if LockedUntil(cal, locks, from, to) == rest {
        if k :| k in init && IsLockFor(cal, k, from, to, rest) {
          assert k in locks;
        }
      } else {
        assert IsLockFor(cal, last, from, to, last.until);
      }
    }
  }

  lemma HeldUntilLocked(cal: Calendar, rows: seq<Row>, tenants: set<string>, tenant: string, now: int, m: Participation, p: Period,
                        list: seq<Lock>, until: int)
    requires Monotone(cal) && IsWanted(m, p) && now >= 0
    requires forall k :: k in list <==> exists r <- rows :: HoldsBy(cal, rows, tenants, tenant, now, r, m.id, k)
    ensures IsHeldUntil(cal, rows, tenants, tenant, now, m, p, until) <==>
            LockedUntil(cal, list, Check(m, p).from, Check(m, p).to) == until > 0
  {
    var locked := LockedUntil(cal, list, Check(m, p).from, Check(m, p).to);
    LockedUntilReached(cal, list, Check(m, p).from, Check(m, p).to);
    HeldToLocks(cal, rows, tenants, tenant, now, m, p, list, locked);
    forall u
      ensures IsHeldTo(cal, rows, tenants, tenant, now, m, p, u) ==> 0 < u <= locked
    {
      HeldToLocks(cal, rows, tenants, tenant, now, m, p, list, u);
      if k :| k in list && IsLockFor(cal, k, Check(m, p).from, Check(m, p).to, u) {
        LockedUntilCovers(cal, list, Check(m, p).from, Check(m, p).to, k);
      }
    }
  }

  /** A participation that is not free is recorded with the reason it is passed over for. */
  lemma SkipCallMeans(cal: Calendar, rows: seq<Row>, tenants: set<string>, tenant: string, now: int, m: Participation, p: Period,
                      locks: LockMap, reason: Reason, until: int)
    requires Monotone(cal) && now >= 0
    requires IsWanted(m, p) ==>
               forall k :: k in LocksFor(locks, m.id) <==> exists r <- rows :: HoldsBy(cal, rows, tenants, tenant, now, r, m.id, k)
    ensures IsPassed(cal, rows, tenants, tenant, now, m, p, reason, until) <==>
            !IsFree(cal, locks, Check(m, p)) && SkipCall(cal, locks, Check(m, p)) == Skip(m.id, reason, until)
  {
    if IsWanted(m, p) {
      HeldUntilLocked(cal, rows, tenants, tenant, now, m, p, LocksFor(locks, m.id), until);
    }
  }

  /** The participation is passed over, and the call records why. */
  ghost predicate IsSkipMeant(cal: Calendar, found: seq<Participation>, periods: map<string, Period>, whole: Period, rows: seq<Row>,
                              tenants: set<string>, tenant: string, now: int, c: Call)
  {
    var p := if c.meter in periods then periods[c.meter] else whole;
    c.Skip? && exists m <- found :: m.id == c.meter && IsPassed(cal, rows, tenants, tenant, now, m, p, c.reason, c.until)
  }

  ghost predicate AreSkips(cal: Calendar, found: seq<Participation>, periods: map<string, Period>, whole: Period, rows: seq<Row>,
                           tenants: set<string>, tenant: string, now: int, skips: seq<Call>)
  {
    forall c :: c in skips <==> IsSkipMeant(cal, found, periods, whole, rows, tenants, tenant, now, c)
  }

  predicate IsSkipAt(cal: Calendar, locks: LockMap, checked: seq<Checked>, i: nat, c: Call)
    requires i < |checked|
  {
    !IsFree(cal, locks, checked[i]) && c == SkipCall(cal, locks, checked[i])
  }

  lemma SkipByIndex(cal: Calendar, locks: LockMap, checked: seq<Checked>, c: Call)
    ensures c in SkipCalls(cal, locks, checked) <==> exists i :: 0 <= i < |checked| && IsSkipAt(cal, locks, checked, i, c)
  {
    SkipMembers(cal, locks, checked, c);
    if i :| 0 <= i < |checked| && IsSkipAt(cal, locks, checked, i, c) {
      assert checked[i] in checked;
    }
    if x :| x in checked && !IsFree(cal, locks, x) && c == SkipCall(cal, locks, x) {
      var i :| 0 <= i < |checked| && checked[i] == x;
      assert IsSkipAt(cal, locks, checked, i, c);
    }
  }

  /** The locks are those of the runs that hold metering points; without a candidate there may be none. */
  ghost predicate LocksFit(cal: Calendar, rows: seq<Row>, tenants: set<string>, tenant: string, now: int, locks: LockMap,
                           candidate: bool) {
    candidate ==> forall m, k :: k in LocksFor(locks, m) <==> exists r <- rows :: HoldsBy(cal, rows, tenants, tenant, now, r, m, k)
  }

  lemma SkipAtMeans(cal: Calendar, found: seq<Participation>, periods: map<string, Period>, whole: Period, rows: seq<Row>,
                    tenants: set<string>, tenant: string, now: int, locks: LockMap, i: nat, c: Call)
    requires Monotone(cal) && now >= 0 && i < |found|
    requires LocksFit(cal, rows, tenants, tenant, now, locks, exists x <- CheckAll(found, periods, whole) :: x.skip.None?)
    ensures IsSkipAt(cal, locks, CheckAll(found, periods, whole), i, c) <==>
            c.Skip? && c.meter == found[i].id &&
            IsPassed(cal, rows, tenants, tenant, now, found[i], PeriodFor(periods, whole, c.meter), c.reason, c.until)
  {
    var checked := CheckAll(found, periods, whole);
    assert checked[i] in checked;
    if c.Skip? {
      SkipCallMeans(cal, rows, tenants, tenant, now, found[i], PeriodFor(periods, whole, found[i].id), locks, c.reason, c.until);
    }
  }

  lemma SkipsAreMeant(cal: Calendar, found: seq<Participation>, periods: map<string, Period>, whole: Period, rows: seq<Row>,
                      tenants: set<string>, tenant: string, now: int, locks: LockMap)
    requires Monotone(cal) && now >= 0
    requires LocksFit(cal, rows, tenants, tenant, now, locks, exists x <- CheckAll(found, periods, whole) :: x.skip.None?)
    ensures AreSkips(cal, found, periods, whole, rows, tenants, tenant, now, SkipCalls(cal, locks, CheckAll(found, periods, whole)))
  {
    forall c {:trigger IsSkipMeant(cal, found, periods, whole, rows, tenants, tenant, now, c)}
      ensures c in SkipCalls(cal, locks, CheckAll(found, periods, whole)) <==>
              IsSkipMeant(cal, found, periods, whole, rows, tenants, tenant, now, c)
    {
      SkipIsMeant(cal, found, periods, whole, rows, tenants, tenant, now, locks, c);
    }
  }

  lemma SkipIsMeant(cal: Calendar, found: seq<Participation>, periods: map<string, Period>, whole: Period, rows: seq<Row>,
                    tenants: set<string>, tenant: string, now: int, locks: LockMap, c: Call)
    requires Monotone(cal) && now >= 0
    requires LocksFit(cal, rows, tenants, tenant, now, locks, exists x <- CheckAll(found, periods, whole) :: x.skip.None?)
    ensures c in SkipCalls(cal, locks, CheckAll(found, periods, whole)) <==>
            IsSkipMeant(cal, found, periods, whole, rows, tenants, tenant, now, c)
  {
    var checked := CheckAll(found, periods, whole);
    SkipByIndex(cal, locks, checked, c);
    if i :| 0 <= i < |checked| && IsSkipAt(cal, locks, checked, i, c) {
      SkipAtMeans(cal, found, periods, whole, rows, tenants, tenant, now, locks, i, c);
      assert found[i] in found;
    }
    if IsSkipMeant(cal, found, periods, whole, rows, tenants, tenant, now, c) {
      var m :| m in found && m.id == c.meter &&
               IsPassed(cal, rows, tenants, tenant, now, m, PeriodFor(periods, whole, c.meter), c.reason, c.until);
      var i :| 0 <= i < |found| && found[i] == m;
      SkipAtMeans(cal, found, periods, whole, rows, tenants, tenant, now, locks, i, c);
    }
  }

  /** Exactly the days asked for are planned and no other run holds one of them back; no two parts of a metering point share a
      day, and none ends before it begins unless that is asked for. */
  ghost predicate IsRightPlan(cal: Calendar, found: seq<Participation>, periods: map<string, Period>, whole: Period, rows: seq<Row>,
                              tenants: set<string>, tenant: string, now: int, send: seq<Checked>)
  {
    && PlansWanted(cal, found, periods, whole, rows, tenants, tenant, now, send)
    && (forall p <- Ranges(send) :: Spares(cal, rows, tenants, tenant, now, p.meter, p.from, p.to))
    && Disjoint(cal, Ranges(send)) && (AsksForward(found, periods, whole) ==> Forward(send))
  }

  /** The critical section of the handler: reads the locks at `now`, selects the free participations and plans the
      requests; `skips` are the calls for those passed over. */
  method LockAndPlan(cal: Calendar, run: RunBuilder, found: seq<Participation>, periods: map<string, Period>, whole: Period,
                     lockRows: seq<Row>, tenant: string, tenants: set<string>, now: int, ghost before: seq<Call>)
    returns (send: seq<Checked>, ghost skips: seq<Call>)
    requires Monotone(cal) && ValidRows(lockRows) && now >= 0
    requires run.meters == [] && run.Content() == Record(before)
    modifies run`meters, run`skipped
    ensures IsRightPlan(cal, found, periods, whole, lockRows, tenants, tenant, now, send)
    ensures AreHulls(run.meters, Ranges(send)) && run.noSummary == old(run.noSummary)
    ensures run.Content() == Record(before + skips + AddCalls(Ranges(send)))
    ensures AreSkips(cal, found, periods, whole, lockRows, tenants, tenant, now, skips)
  {
    var checked, candidates := CheckParticipations(found, periods, whole);
    var locks: LockMap := map[];
    if candidates > 0 {
      locks := NewLocks(cal, lockRows, tenant, tenants, now);
    }
    var free := SelectFree(cal, run, checked, locks);
    skips := SkipCalls(cal, locks, checked);
    RecordsSkips(before, cal, locks, checked);
    SkipsAreMeant(cal, found, periods, whole, lockRows, tenants, tenant, now, locks);
    SkipsKeepMeters(Record(before), cal, locks, checked);
    send := Plan(cal, run, free);
    AddsAreWidest(Record(before + skips), Ranges(send));
    RecordsAdds(before + skips, Ranges(send));
    PlanKeepsPromises(cal, found, periods, whole, lockRows, tenants, tenant, now, locks, checked, candidates, free, send);
  }

  /** What the selection and the plan together promise. */
  lemma PlanKeepsPromises(cal: Calendar, found: seq<Participation>, periods: map<string, Period>, whole: Period, lockRows: seq<Row>,
                          tenants: set<string>, tenant: string, now: int, locks: LockMap, checked: seq<Checked>, candidates: nat,
                          free: seq<Checked>, send: seq<Checked>)
    requires Monotone(cal) && now >= 0 && checked == CheckAll(found, periods, whole)
    requires candidates > 0 <==> exists c <- checked :: c.skip.None?
    requires candidates > 0 ==> forall m ::
             LocksFor(locks, m) == RowLocks(lockRows, Rejections(cal, lockRows, tenants), tenant, now, m)
    requires free == FreeOf(cal, locks, checked) && IsPlan(cal, free, send)
    ensures IsRightPlan(cal, found, periods, whole, lockRows, tenants, tenant, now, send)
  {
    var rejected := Rejections(cal, lockRows, tenants);
    PlanIsDisjoint(cal, free, send);
    PlanIsUnblocked(cal, lockRows, rejected, tenant, now, locks, checked, free, send, candidates);
    FreeAreUnlocked(cal, checked, locks, lockRows, rejected, tenant, now, candidates);
    PlanIsOfUnlocked(cal, checked, free, lockRows, rejected, tenant, now, send);
    PlanSpares(cal, send, lockRows, tenants, tenant, now);
    UnlockedAreWanted(cal, found, periods, whole, lockRows, tenants, tenant, now, send);
    if AsksForward(found, periods, whole) {
      FreeIsForward(cal, found, periods, whole, locks);
      PlanIsForward(cal, free, send);
    }
  }

  // ----- the entries of the run

  /** A reason the run gives for not requesting the metering point: it is complete and not asked for, one of its
      participations is passed over, or it was asked for and not found. */
  ghost predicate IsReasonFor(cal: Calendar, complete: seq<string>, periods: map<string, Period>, whole: Period,
                              found: seq<Participation>,
                              requested: seq<string>, rows: seq<Row>, tenants: set<string>, tenant: string, now: int, id: string,
                              reason: Reason, until: int)
  {
    || (reason == Complete && until == 0 && id in complete && id !in periods)
    || IsSkipMeant(cal, found, periods, whole, rows, tenants, tenant, now, Skip(id, reason, until))
    || (reason == NotFound && until == 0 && id in requested)
  }

  /** `a` comes before `b` in the ranking. */
  predicate TellsMore(a: Reason, b: Reason) {
    exists i :: 0 <= i < |RANKING| && RANKING[i] == a && forall j :: 0 <= j <= i ==> RANKING[j] != b
  }

  /** The entry of a metering point: requested when a part is sent; else the reason that tells most, with its latest time; none
      when there is none. */
  ghost predicate TellsWhy(e: Entry, cal: Calendar, complete: seq<string>, periods: map<string, Period>, whole: Period,
                           found: seq<Participation>, requested: seq<string>, rows: seq<Row>, tenants: set<string>, tenant: string,
                           now: int, send: seq<Checked>, id: string)
  {
    && (e.Requested? <==> exists q <- send :: q.meter.id == id)
    && (e.Nothing? ==> forall r, u ::
       !IsReasonFor(cal, complete, periods, whole, found, requested, rows, tenants, tenant, now, id, r, u))
    && (e.Passed? ==>
          && IsReasonFor(cal, complete, periods, whole, found, requested, rows, tenants, tenant, now, id, e.reason, e.until)
          && forall r, u :: IsReasonFor(cal, complete, periods, whole, found, requested, rows, tenants, tenant, now, id, r, u) ==>
               !TellsMore(r, e.reason) && (r == e.reason ==> u <= e.until))
  }

  /** Each metering point is in one of the run's lists at most, once, and its entry tells why. */
  ghost predicate ListsTellWhy(l: Lists, cal: Calendar, complete: seq<string>, periods: map<string, Period>, whole: Period,
                               found: seq<Participation>, requested: seq<string>, rows: seq<Row>, tenants: set<string>,
                                 tenant: string,
                               now: int, send: seq<Checked>)
  {
    Valid(l) && forall id :: TellsWhy(EntryFor(l, id), cal, complete, periods, whole, found, requested, rows, tenants,
      tenant, now, send, id)
  }

  lemma RankedFirst(a: Reason, b: Reason)
    ensures TellsMore(a, b) ==> Weakness(a) < Weakness(b)
  {
    if i :| 0 <= i < |RANKING| && RANKING[i] == a && forall j :: 0 <= j <= i ==> RANKING[j] != b {
      RankOf(i);
      RankingIs(b);
    }
  }

  /** The calls for the parts to be sent and the reasons given, and no others. */
  ghost predicate AreCalls(calls: seq<Call>, cal: Calendar, complete: seq<string>, periods: map<string, Period>, whole: Period,
                           found: seq<Participation>, requested: seq<string>, rows: seq<Row>, tenants: set<string>, tenant: string,
                           now: int, send: seq<Checked>)
  {
    forall c :: c in calls <==>
      if c.Add? then exists p <- Ranges(send) :: c == Add(p.meter, p.from, p.to)
      else IsReasonFor(cal, complete, periods, whole, found, requested, rows, tenants, tenant, now, c.meter, c.reason, c.until)
  }

  lemma RequestedIffSent(calls: seq<Call>, send: seq<Checked>, id: string, e: Entry)
    requires forall c <- calls :: c.Add? ==> exists p <- Ranges(send) :: c == Add(p.meter, p.from, p.to)
    requires forall p <- Ranges(send) :: Add(p.meter, p.from, p.to) in calls
    requires SaysWhatWasCalled(e, calls, id)
    ensures e.Requested? <==> exists q <- send :: q.meter.id == id
  {
    forall i | 0 <= i < |send| && send[i].meter.id == id
      ensures e.Requested?
    {
      assert Ranges(send)[i] in Ranges(send);
      assert Add(id, send[i].from, send[i].to) in calls;
    }
    if e.Requested? {
      var c :| c in calls && c.Add? && c.meter == id;
      var p :| p in Ranges(send) && c == Add(p.meter, p.from, p.to);
      var i :| 0 <= i < |send| && Ranges(send)[i] == p;
      assert send[i] in send;
    }
  }

  lemma RecordTellsWhy(cal: Calendar, complete: seq<string>, periods: map<string, Period>, whole: Period, found: seq<Participation>,
                       requested: seq<string>, rows: seq<Row>, tenants: set<string>, tenant: string, now: int, send: seq<Checked>,
                       id: string, calls: seq<Call>)
    requires AreCalls(calls, cal, complete, periods, whole, found, requested, rows, tenants, tenant, now, send)
    ensures TellsWhy(EntryFor(Record(calls), id), cal, complete, periods, whole, found, requested, rows, tenants, tenant,
            now, send, id)
  {
    RecordFolds(calls, id);
    EntrySaysWhatWasCalled(calls, id);
    var e := Folded(calls, id);
    RequestedIffSent(calls, send, id, e);
    forall r, u | IsReasonFor(cal, complete, periods, whole, found, requested, rows, tenants, tenant, now, id, r, u)
      ensures Skip(id, r, u) in calls
    {
    }
    if e.Passed? {
      forall r
        ensures TellsMore(r, e.reason) ==> Weakness(r) < Weakness(e.reason)
      {
        RankedFirst(r, e.reason);
      }
    }
  }

  // ----- the run that is stored

  lemma FindMeterNone(meters: seq<MeterRange>, id: string)
    ensures FindMeter(meters, id) == |meters| <==> forall e <- meters :: e.meter != id
  {
    var k := FindMeter(meters, id);
    if k < |meters| {
      assert meters[k] in meters;
    }
  }

  /** The entries are the hulls of the parts, one per metering point. */
  ghost predicate AreHulls(meters: seq<MeterRange>, parts: seq<MeterRange>) {
    DistinctMeters(meters) && forall e :: e in meters <==> Widest(parts, e.meter) == Some(e)
  }

  lemma WidestSnoc(parts: seq<MeterRange>, p: MeterRange, id: string)
    ensures Widest(parts + [p], id) ==
            if p.meter != id then Widest(parts, id)
            else if Widest(parts, id).None? then Some(p)
            else Some(MeterRange(id, Min(p.from, Widest(parts, id).value.from), Max(p.to, Widest(parts, id).value.to)))
  {
    assert (parts + [p])[..|parts|] == parts;
  }

  lemma AddKeepsHulls(l: Lists, parts: seq<MeterRange>, p: MeterRange)
    requires AreHulls(l.meters, parts)
    ensures AreHulls(AddTo(l, p.meter, p.from, p.to).meters, parts + [p])
  {
    var x, y, k := l.meters, AddTo(l, p.meter, p.from, p.to).meters, FindMeter(l.meters, p.meter);
    WidestSnoc(parts, p, p.meter);
    WidestIsHull(parts, p.meter);
    FindMeterNone(x, p.meter);
    assert y[k] in y && y[k].meter == p.meter;
    if k < |x| {
      assert x[k] in x;
    }
    assert Widest(parts + [p], p.meter) == Some(y[k]);
    forall e
      ensures e in y <==> Widest(parts + [p], e.meter) == Some(e)
    {
      WidestSnoc(parts, p, e.meter);
      OneChanged(x, y, k, p.meter, e);
    }
  }

  lemma OneChanged(x: seq<MeterRange>, y: seq<MeterRange>, k: nat, id: string, e: MeterRange)
    requires k < |y| && |y| == (if k < |x| then |x| else |x| + 1) && k <= |x|
    requires forall i :: 0 <= i < |x| && i != k ==> y[i] == x[i]
    requires y[k].meter == id && (k < |x| ==> x[k].meter == id)
    requires forall i :: 0 <= i < |x| && i != k ==> x[i].meter != id
    ensures e.meter == id ==> (e in y <==> e == y[k])
    ensures e.meter != id ==> (e in y <==> e in x)
  {
    if e in x && e.meter != id {
      var i :| 0 <= i < |x| && x[i] == e;
      assert y[i] == e;
    }
  }

  lemma {:induction false} AddsAreWidest(l: Lists, parts: seq<MeterRange>)
    requires l.meters == []
    ensures AreHulls(WithAdds(l, parts).meters, parts)
  {
    if parts != [] {
      var init, p := parts[..|parts| - 1], parts[|parts| - 1];
      AddsAreWidest(l, init);
      AddKeepsHulls(WithAdds(l, init), init, p);
      assert parts == init + [p];
    }
  }

  lemma CompleteStep(complete: seq<string>, periods: map<string, Period>, i: nat)
    requires i < |complete|
    ensures Record(CompleteCalls(complete[..i + 1], periods)) ==
            var l := Record(CompleteCalls(complete[..i], periods));
            if complete[i] in periods then l else SkipIn(l, complete[i], Complete, 0)
  {
    assert complete[..i + 1][..i] == complete[..i];
    RecordSnoc(CompleteCalls(complete[..i], periods), Skip(complete[i], Complete, 0));
    assert CompleteCalls(complete[..i], periods) + [] == CompleteCalls(complete[..i], periods);
  }

  /** Records what web found complete, unless it is also asked for. */
  method SkipComplete(run: RunBuilder, complete: seq<string>, periods: map<string, Period>)
    requires run.Content() == Lists([], [])
    modifies run`skipped
    ensures run.Content() == Record(CompleteCalls(complete, periods)) && run.meters == []
  {
    for i := 0 to |complete|
      invariant run.Content() == Record(CompleteCalls(complete[..i], periods))
    {
      CompleteStep(complete, periods, i);
      if complete[i] !in periods {
        run.SkipUntil(complete[i], Complete, 0);
      }
    }
    assert complete[..|complete|] == complete;
  }

  lemma {:induction false} SkipAllKeepsMeters(l: Lists, ids: seq<string>)
    ensures SkipAll(l, ids).meters == l.meters
  {
    if ids != [] {
      SkipAllKeepsMeters(l, ids[..|ids| - 1]);
    }
  }

  /** Completes and saves the planned run. */
  method SavePlanned(run: RunBuilder, requested: seq<string>, fit: bool, savedAt: int) returns (store: bool)
    requires !run.noSummary
    modifies run
    ensures run.meters == old(run.meters) && run.Content() == SkipAll(old(run.Content()), requested)
    ensures store <==> run.meters != []
    ensures store ==> run.createdAt == savedAt && run.noSummary == (|set m | m in requested| < 2)
    ensures if fit && run.meters != [] then IsSpan(run.meters, run.from, run.to)
            else run.from == old(run.from) && run.to == old(run.to)
  {
    if fit {
      run.FitPeriod();
    }
    SkipAllKeepsMeters(run.Content(), requested);
    store := run.Save(requested, savedAt);
  }

  /** Collects the run: what is complete, what is passed over and what is planned. */
  method CollectRun(cal: Calendar, run: RunBuilder, complete: seq<string>, found: seq<Participation>, periods: map<string, Period>,
                    whole: Period, lockRows: seq<Row>, tenant: string, tenants: set<string>, now: int, ghost requested: seq<string>)
    returns (send: seq<Checked>)
    requires Monotone(cal) && ValidRows(lockRows) && now >= 0 && run.Content() == Lists([], [])
    modifies run`meters, run`skipped
    ensures IsRightPlan(cal, found, periods, whole, lockRows, tenants, tenant, now, send) && AreHulls(run.meters, Ranges(send))
    ensures ListsTellWhy(SkipAll(run.Content(), requested), cal, complete, periods, whole, found, requested, lockRows,
            tenants, tenant, now, send)
  {
    SkipComplete(run, complete, periods);
    ghost var skips;
    send, skips := LockAndPlan(cal, run, found, periods, whole, lockRows, tenant, tenants, now, CompleteCalls(complete, periods));
    CallsTellWhy(cal, complete, periods, whole, found, requested, lockRows, tenants, tenant, now, send, skips);
  }

  /** The handler up to the stored run. Exactly the days asked for that no run of the last hour holds back are sent, each
      once; the run names each metering point once, with the hull of its parts or the reason it is passed over for; it is
      stored exactly when something is to be sent. */
  method RequestValues(cal: Calendar, runId: string, ecId: string, complete: seq<string>, periods: map<string, Period>,
                       whole: Period, found: seq<Participation>, requested: seq<string>, fit: bool,
                       lockRows: seq<Row>, tenant: string, tenants: set<string>, now: int, savedAt: int)
    returns (run: RunBuilder, send: seq<Checked>, store: bool)
    requires Monotone(cal) && ValidRows(lockRows) && now >= 0
    ensures fresh(run) && run.runId == runId && run.ecId == ecId
    ensures IsRightPlan(cal, found, periods, whole, lockRows, tenants, tenant, now, send)
    ensures AreHulls(run.meters, Ranges(send))
    ensures ListsTellWhy(run.Content(), cal, complete, periods, whole, found, requested, lockRows, tenants, tenant, now, send)
    ensures store <==> send != []
    ensures store ==> run.createdAt == savedAt && run.noSummary == (|set m | m in requested| < 2)
    ensures if fit && send != [] then IsSpan(run.meters, run.from, run.to) else run.from == whole.from && run.to == whole.to
  {
    run := new RunBuilder(runId, ecId, whole.from, whole.to);
    send := CollectRun(cal, run, complete, found, periods, whole, lockRows, tenant, tenants, now, requested);
    store := SavePlanned(run, requested, fit, savedAt);
    SomethingIsSent(send, run.meters);
  }

  /** The calls of the handler, in their order. */
  lemma CallsTellWhy(cal: Calendar, complete: seq<string>, periods: map<string, Period>, whole: Period, found: seq<Participation>,
                     requested: seq<string>, rows: seq<Row>, tenants: set<string>, tenant: string, now: int, send: seq<Checked>,
                     skips: seq<Call>)
    requires AreSkips(cal, found, periods, whole, rows, tenants, tenant, now, skips)
    ensures var l := SkipAll(Record(CompleteCalls(complete, periods) + skips + AddCalls(Ranges(send))), requested);
            ListsTellWhy(l, cal, complete, periods, whole, found, requested, rows, tenants, tenant, now, send)
  {
    var before := CompleteCalls(complete, periods) + skips + AddCalls(Ranges(send));
    var calls := before + NotFoundCalls(requested);
    RecordsNotFound(before, requested);
    RecordFolds(calls, "");
    forall c
      ensures c in calls <==>
              if c.Add? then exists p <- Ranges(send) :: c == Add(p.meter, p.from, p.to)
              else IsReasonFor(cal, complete, periods, whole, found, requested, rows, tenants, tenant, now, c.meter,
                c.reason, c.until)
    {
      CompleteMembers(complete, periods, c);
      AddMembers(Ranges(send), c);
      NotFoundMembers(requested, c);
    }
    assert AreCalls(calls, cal, complete, periods, whole, found, requested, rows, tenants, tenant, now, send);
    forall id
      ensures TellsWhy(EntryFor(Record(calls), id), cal, complete, periods, whole, found, requested, rows, tenants, tenant,
              now, send, id)
    {
      RecordTellsWhy(cal, complete, periods, whole, found, requested, rows, tenants, tenant, now, send, id, calls);
    }
  }

  /** No run of the last hour that was not rejected shares a day with a part. */
  predicate Unblocked(cal: Calendar, send: seq<Checked>, rows: seq<Row>, rejected: Verdict, tenant: string, now: int) {
    forall p <- send, r <- rows :: !BlocksDays(cal, r, rejected, tenant, now, p.meter.id, p.from, p.to)
  }

  lemma SomethingIsSent(send: seq<Checked>, meters: seq<MeterRange>)
    requires AreHulls(meters, Ranges(send))
    ensures meters == [] <==> send == []
  {
    var r := Ranges(send);
    if meters != [] {
      assert meters[0] in meters;
    }
    if send != [] {
      assert r[0] in r;
      WidestIsHull(r, r[0].meter);
      assert Widest(r, r[0].meter).value in meters;
    }
  }

  /** Sends the parts in turn; `ok` tells which sends succeed. */
  method SendParts(send: seq<Checked>, ok: seq<bool>) returns (sent: seq<MeterRange>, failed: bool)
    requires |ok| == |send|
    ensures sent == SentOf(send, ok)
    ensures failed <==> exists i :: 0 <= i < |ok| && !ok[i]
  {
    sent, failed := [], false;
    for i := 0 to |send|
      invariant sent == SentOf(send[..i], ok[..i])
      invariant failed <==> exists j :: 0 <= j < i && !ok[j]
    {
      assert send[..i + 1][..i] == send[..i] && ok[..i + 1][..i] == ok[..i];
      if ok[i] {
        sent := sent + [MeterRange(send[i].meter.id, send[i].from, send[i].to)];
      } else {
        failed := true;
      }
    }
    assert send[..|send|] == send && ok[..|ok|] == ok;
  }

  function SentOf(send: seq<Checked>, ok: seq<bool>): seq<MeterRange>
    requires |ok| == |send|
  {
    if send == [] then []
    else
      var n, c := |send| - 1, send[|send| - 1];
      SentOf(send[..n], ok[..n]) + if ok[n] then [MeterRange(c.meter.id, c.from, c.to)] else []
  }

  /** The parts whose sending succeeded. */
  ghost predicate AreSent(send: seq<Checked>, ok: seq<bool>, sent: seq<MeterRange>)
    requires |ok| == |send|
  {
    forall p :: p in sent <==> exists i :: 0 <= i < |ok| && ok[i] && p == MeterRange(send[i].meter.id, send[i].from, send[i].to)
  }

  lemma {:induction false} SentAre(send: seq<Checked>, ok: seq<bool>)
    requires |ok| == |send|
    ensures AreSent(send, ok, SentOf(send, ok))
  {
    if send != [] {
      var n := |send| - 1;
      SentAre(send[..n], ok[..n]);
      var last := MeterRange(send[n].meter.id, send[n].from, send[n].to);
      forall p
        ensures p in SentOf(send, ok) <==> p in SentOf(send[..n], ok[..n]) || (ok[n] && p == last)
      {
      }
      assert forall i :: 0 <= i < n ==> ok[..n][i] == ok[i] && send[..n][i] == send[i];
    }
  }

  lemma {:induction false} SentArePlanned(send: seq<Checked>, ok: seq<bool>)
    requires |ok| == |send|
    ensures forall p <- SentOf(send, ok) :: p in Ranges(send)
  {
    if send != [] {
      var n := |send| - 1;
      SentArePlanned(send[..n], ok[..n]);
      assert Ranges(send) == Ranges(send[..n]) + [Ranges(send)[n]];
    }
  }

  /** After a failed send the run names exactly the metering points with a sent part, each with the hull of its sent
      parts, and is deleted exactly when nothing was sent. */
  method SendAndKeep(run: RunBuilder, rowId: int, send: seq<Checked>, ok: seq<bool>)
    returns (sent: seq<MeterRange>, change: RowChange)
    requires |ok| == |send| && rowId > 0 && AreHulls(run.meters, Ranges(send))
    modifies run
    ensures sent == SentOf(send, ok) && AreSent(send, ok, sent)
    ensures (forall i :: 0 <= i < |ok| ==> ok[i]) ==> change == Unchanged && unchanged(run)
    ensures (exists i :: 0 <= i < |ok| && !ok[i]) ==>
              && AreHulls(run.meters, sent)
              && (change == Deleted <==> sent == [])
              && (sent != [] ==> change == Replaced(run.Stored()))
  {
    var failed;
    sent, failed := SendParts(send, ok);
    SentAre(send, ok);
    change := Unchanged;
    if failed {
      ghost var meters := run.meters;
      SentArePlanned(send, ok);
      forall p | p in sent
        ensures exists m <- meters :: m.meter == p.meter
      {
        WidestIsHull(Ranges(send), p.meter);
        assert Widest(Ranges(send), p.meter).value in meters;
      }
      change := run.KeepSent(rowId, sent);
      ReducedKeepsSent(meters, sent);
      DeletedIffNothingSent(meters, sent);
      forall e
        ensures e in run.meters <==> Widest(sent, e.meter) == Some(e)
      {
        WidestIsHull(sent, e.meter);
      }
    }
  }
}
