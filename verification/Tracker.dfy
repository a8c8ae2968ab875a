/** Collecting the run of a request (energyrequest/tracker.go): requested and skipped metering points, saving the run and
    reducing it to what was sent. */
module Tracker {
  import opened Wrappers
  import opened EnergyTypes

  /** The reasons of several participations: the higher, the sooner it gives way. */
  function Weakness(reason: Reason): (w: nat)
  {
    match reason
    case Complete => 0
    case AlreadyRequested => 1
    case NotRegistered => 2
    case NoActivePeriod => 3
    case NotActiveInPeriod => 4
    case NotAssigned => 5
    case _ => 6
  }

  datatype Lists = Lists(meters: seq<MeterRange>, skipped: seq<Skipped>)

  datatype Call = Add(meter: string, from: int, to: int) | Skip(meter: string, reason: Reason, until: int)

  function FindMeter(meters: seq<MeterRange>, meter: string): (k: nat)
    ensures k <= |meters| && (forall i :: 0 <= i < k ==> meters[i].meter != meter)
    ensures k < |meters| ==> meters[k].meter == meter
  {
    if meters == [] || meters[0].meter == meter then 0 else 1 + FindMeter(meters[1..], meter)
  }

  function FindSkipped(skipped: seq<Skipped>, meter: string): (k: nat)
    ensures k <= |skipped| && (forall i :: 0 <= i < k ==> skipped[i].meter != meter)
    ensures k < |skipped| ==> skipped[k].meter == meter
  {
    if skipped == [] || skipped[0].meter == meter then 0 else 1 + FindSkipped(skipped[1..], meter)
  }

  function Without(skipped: seq<Skipped>, meter: string): (r: seq<Skipped>)
    ensures forall s :: s in r <==> s in skipped && s.meter != meter
  {
    if skipped == [] then []
    else
      var last := skipped[|skipped| - 1];
      assert skipped == skipped[..|skipped| - 1] + [last];
      Without(skipped[..|skipped| - 1], meter) + if last.meter != meter then [last] else []
  }

  function AddTo(l: Lists, meter: string, from: int, to: int): Lists {
    var k := FindMeter(l.meters, meter);
    Lists(if k < |l.meters|
          then l.meters[k := MeterRange(meter, Min(from, l.meters[k].from), Max(to, l.meters[k].to))]
          else l.meters + [MeterRange(meter, from, to)],
          Without(l.skipped, meter))
  }

  function SkipIn(l: Lists, meter: string, reason: Reason, until: int): Lists {
    var k := FindSkipped(l.skipped, meter);
    if FindMeter(l.meters, meter) < |l.meters| then l
    else if k == |l.skipped| then l.(skipped := l.skipped + [Skipped(meter, reason, until)])
    else if Weakness(l.skipped[k].reason) > Weakness(reason) then
      l.(skipped := l.skipped[k := Skipped(meter, reason, until)])
    else if l.skipped[k].reason == reason && until > l.skipped[k].until then
      l.(skipped := l.skipped[k := Skipped(meter, reason, until)])
    else l
  }

  function Apply(l: Lists, c: Call): Lists {
    match c
    case Add(meter, from, to) => AddTo(l, meter, from, to)
    case Skip(meter, reason, until) => SkipIn(l, meter, reason, until)
  }

  function Record(calls: seq<Call>): Lists {
    if calls == [] then Lists([], []) else Apply(Record(calls[..|calls| - 1]), calls[|calls| - 1])
  }

  // ----- what the calls leave for one metering point

  datatype Entry = Nothing | Requested(from: int, to: int) | Passed(reason: Reason, until: int)

  function EntryFor(l: Lists, meter: string): Entry {
    var i, k := FindMeter(l.meters, meter), FindSkipped(l.skipped, meter);
    if i < |l.meters| then Requested(l.meters[i].from, l.meters[i].to)
    else if k < |l.skipped| then Passed(l.skipped[k].reason, l.skipped[k].until)
    else Nothing
  }

  /** Each metering point is named once, in one of the lists. */
  predicate Valid(l: Lists) {
    && DistinctMeters(l.meters)
    && DistinctSkipped(l.skipped)
    && (forall s <- l.skipped :: FindMeter(l.meters, s.meter) == |l.meters|)
  }

  /** The entry after one more call for the metering point. */
  function Join(e: Entry, c: Call): Entry {
    match (e, c)
    case (Requested(from, to), Add(_, f, t)) => Requested(Min(f, from), Max(t, to))
    case (_, Add(_, f, t)) => Requested(f, t)
    case (Requested(_, _), Skip(_, _, _)) => e
    case (Nothing, Skip(_, r, u)) => Passed(r, u)
    case (Passed(reason, until), Skip(_, r, u)) =>
      if Weakness(reason) > Weakness(r) || (reason == r && u > until) then Passed(r, u) else e
  }

  function Folded(calls: seq<Call>, meter: string): Entry {
    if calls == [] then Nothing
    else
      var e, c := Folded(calls[..|calls| - 1], meter), calls[|calls| - 1];
      if c.meter == meter then Join(e, c) else e
  }

  lemma FindMeterIs(meters: seq<MeterRange>, meter: string, k: nat)
    requires k <= |meters| && (forall i :: 0 <= i < k ==> meters[i].meter != meter)
    requires k < |meters| ==> meters[k].meter == meter
    ensures FindMeter(meters, meter) == k
  {
  }

  lemma FindSkippedIs(skipped: seq<Skipped>, meter: string, k: nat)
    requires k <= |skipped| && (forall i :: 0 <= i < k ==> skipped[i].meter != meter)
    requires k < |skipped| ==> skipped[k].meter == meter
    ensures FindSkipped(skipped, meter) == k
  {
  }

  /** A list changed in one place, or extended by one entry, for another metering point is searched alike. */
  lemma FindMeterSame(x: seq<MeterRange>, y: seq<MeterRange>, k: nat, meter: string)
    requires k <= |x| && |y| == (if k < |x| then |x| else |x| + 1)
    requires forall i :: 0 <= i < |x| && i != k ==> y[i] == x[i]
    requires y[k].meter != meter && (k < |x| ==> x[k].meter != meter)
    ensures FindMeter(x, meter) < |x| ==> FindMeter(y, meter) == FindMeter(x, meter)
    ensures FindMeter(x, meter) == |x| ==> FindMeter(y, meter) == |y|
  {
    var f := FindMeter(x, meter);
    FindMeterIs(y, meter, if f < |x| then f else |y|);
  }

  lemma FindSkippedSame(x: seq<Skipped>, y: seq<Skipped>, k: nat, meter: string)
    requires k <= |x| && |y| == (if k < |x| then |x| else |x| + 1)
    requires forall i :: 0 <= i < |x| && i != k ==> y[i] == x[i]
    requires y[k].meter != meter && (k < |x| ==> x[k].meter != meter)
    ensures FindSkipped(x, meter) < |x| ==> FindSkipped(y, meter) == FindSkipped(x, meter)
    ensures FindSkipped(x, meter) == |x| ==> FindSkipped(y, meter) == |y|
  {
    var f := FindSkipped(x, meter);
    FindSkippedIs(y, meter, if f < |x| then f else |y|);
  }

  predicate DistinctSkipped(skipped: seq<Skipped>) {
    forall i, j :: 0 <= i < j < |skipped| ==> skipped[i].meter != skipped[j].meter
  }

  lemma {:induction false} WithoutDistinct(skipped: seq<Skipped>, gone: string)
    requires DistinctSkipped(skipped)
    ensures DistinctSkipped(Without(skipped, gone))
  {
    if skipped != [] {
      var init := skipped[..|skipped| - 1];
      WithoutDistinct(init, gone);
      forall s | s in Without(init, gone)
        ensures s.meter != skipped[|skipped| - 1].meter
      {
        assert s in init;
      }
    }
  }

  /** What searching the list without `gone` finds. */
  lemma WithoutFinds(skipped: seq<Skipped>, gone: string, meter: string)
    requires DistinctSkipped(skipped)
    ensures var r, k := Without(skipped, gone), FindSkipped(skipped, meter);
            var f := FindSkipped(r, meter);
            if meter == gone || k == |skipped| then f == |r| else f < |r| && r[f] == skipped[k]
  {
    var r, k := Without(skipped, gone), FindSkipped(skipped, meter);
    WithoutDistinct(skipped, gone);
    var f := FindSkipped(r, meter);
    if k < |skipped| && meter != gone {
      assert skipped[k] in r;
    }
    if f < |r| {
      assert r[f] in r && r[f] in skipped;
      var i :| 0 <= i < |skipped| && skipped[i] == r[f];
      FindSkippedIs(skipped, meter, i);
    }
  }

  lemma AddStep(l: Lists, c: Call, meter: string)
    requires Valid(l) && c.Add?
    ensures EntryFor(Apply(l, c), meter) == if c.meter == meter then Join(EntryFor(l, meter), c) else EntryFor(l, meter)
  {
    var k, r := FindMeter(l.meters, c.meter), Apply(l, c);
    WithoutFinds(l.skipped, c.meter, meter);
    if c.meter == meter {
      FindMeterIs(r.meters, meter, k);
    } else {
      FindMeterSame(l.meters, r.meters, k, meter);
    }
  }

  lemma AddValid(l: Lists, c: Call)
    requires Valid(l) && c.Add?
    ensures Valid(Apply(l, c))
  {
    var k, r := FindMeter(l.meters, c.meter), Apply(l, c);
    WithoutDistinct(l.skipped, c.meter);
    forall s | s in r.skipped
      ensures FindMeter(r.meters, s.meter) == |r.meters|
    {
      FindMeterSame(l.meters, r.meters, k, s.meter);
    }
  }

  lemma SkipStep(l: Lists, c: Call, meter: string)
    requires Valid(l) && c.Skip?
    ensures EntryFor(Apply(l, c), meter) == if c.meter == meter then Join(EntryFor(l, meter), c) else EntryFor(l, meter)
  {
    var k, r := FindSkipped(l.skipped, c.meter), Apply(l, c);
    if r.skipped != l.skipped {
      if c.meter == meter {
        FindSkippedIs(r.skipped, meter, k);
      } else {
        FindSkippedSame(l.skipped, r.skipped, k, meter);
      }
    }
  }

  lemma SkipValid(l: Lists, c: Call)
    requires Valid(l) && c.Skip?
    ensures Valid(Apply(l, c))
  {
    var k, r := FindSkipped(l.skipped, c.meter), Apply(l, c);
    forall s | s in r.skipped
      ensures FindMeter(r.meters, s.meter) == |r.meters|
    {
      var i :| 0 <= i < |r.skipped| && r.skipped[i] == s;
      if i < |l.skipped| {
        assert l.skipped[i] in l.skipped && l.skipped[i].meter == s.meter;
      }
    }
  }

  /** After any calls each metering point is in one list at most, once, and its entry follows from the calls for it. */
  lemma {:induction false} RecordFolds(calls: seq<Call>, meter: string)
    ensures Valid(Record(calls)) && EntryFor(Record(calls), meter) == Folded(calls, meter)
  {
    if calls == [] {
      FindMeterIs([], meter, 0);
      FindSkippedIs([], meter, 0);
    } else {
      var init, c := calls[..|calls| - 1], calls[|calls| - 1];
      RecordFolds(init, meter);
      if c.Add? {
        AddStep(Record(init), c, meter);
        AddValid(Record(init), c);
      } else {
        SkipStep(Record(init), c, meter);
        SkipValid(Record(init), c);
      }
    }
  }

  lemma FoldedSnoc(calls: seq<Call>, c: Call, meter: string)
    ensures Folded(calls + [c], meter) == if c.meter == meter then Join(Folded(calls, meter), c) else Folded(calls, meter)
  {
    assert (calls + [c])[..|calls|] == calls;
  }

  // ----- what the entry says

  /** The entry of a metering point by its calls: the hull of its requested periods, else the reason that tells most with
      the latest time given for it. */
  predicate SaysWhatWasCalled(e: Entry, calls: seq<Call>, meter: string) {
    match e
    case Nothing => forall c <- calls :: c.meter != meter
    case Requested(from, to) =>
      && (exists c <- calls :: c.Add? && c.meter == meter && c.from == from)
      && (exists c <- calls :: c.Add? && c.meter == meter && c.to == to)
      && forall c <- calls :: c.Add? && c.meter == meter ==> from <= c.from && c.to <= to
    case Passed(reason, until) =>
      && (exists c <- calls :: c == Skip(meter, reason, until))
      && (forall c <- calls :: c.meter == meter ==> c.Skip? && Weakness(reason) <= Weakness(c.reason))
      && (forall c <- calls :: c.meter == meter && c.Skip? && c.reason == reason ==> c.until <= until)
  }

  lemma {:induction false} EntrySaysWhatWasCalled(calls: seq<Call>, meter: string)
    ensures SaysWhatWasCalled(Folded(calls, meter), calls, meter)
  {
    if calls != [] {
      var init, c := calls[..|calls| - 1], calls[|calls| - 1];
      EntrySaysWhatWasCalled(init, meter);
      assert calls == init + [c];
      assert forall d :: d in calls <==> d in init || d == c;
    }
  }

  /** The reasons by how much they tell. */
  const RANKING: seq<Reason> := [Complete, AlreadyRequested, NotRegistered, NoActivePeriod, NotActiveInPeriod, NotAssigned]

  predicate IsSkipFor(c: Call, meter: string, reason: Reason) {
    c.Skip? && c.meter == meter && c.reason == reason
  }

  predicate IsSkippedFor(calls: seq<Call>, meter: string, reason: Reason) {
    exists c <- calls :: IsSkipFor(c, meter, reason)
  }

  lemma RankingIs(reason: Reason)
    ensures if Weakness(reason) < 6 then RANKING[Weakness(reason)] == reason else reason !in RANKING
  {
  }

  lemma RankOf(i: nat)
    requires i < |RANKING|
    ensures Weakness(RANKING[i]) == i
  {
  }

  /** Skipped and never requested: the entry has the reason of a call, none of less rank. */
  lemma SkippedSays(calls: seq<Call>, meter: string, reason: Reason) returns (e: Entry)
    requires IsSkippedFor(calls, meter, reason) && forall c <- calls :: c.Add? ==> c.meter != meter
    ensures e == EntryFor(Record(calls), meter) && e.Passed? && Skip(meter, e.reason, e.until) in calls
    ensures IsSkippedFor(calls, meter, e.reason) && Weakness(e.reason) <= Weakness(reason)
    ensures forall c <- calls :: IsSkipFor(c, meter, e.reason) ==> c.until <= e.until
  {
    RecordFolds(calls, meter);
    EntrySaysWhatWasCalled(calls, meter);
    e := Folded(calls, meter);
    var c :| c in calls && IsSkipFor(c, meter, reason);
    assert e.Passed?;
    assert IsSkipFor(Skip(meter, e.reason, e.until), meter, e.reason);
  }

  /** Of the reasons a metering point is skipped for the one first in the ranking is kept, with the latest time given for
      it. */
  lemma FirstReasonIsKept(calls: seq<Call>, meter: string, i: nat)
    requires i < |RANKING| && IsSkippedFor(calls, meter, RANKING[i])
    requires forall c <- calls :: c.Add? ==> c.meter != meter
    requires forall j :: 0 <= j < i ==> !IsSkippedFor(calls, meter, RANKING[j])
    ensures var e := EntryFor(Record(calls), meter);
            && e.Passed? && e.reason == RANKING[i] && Skip(meter, e.reason, e.until) in calls
            && forall c <- calls :: IsSkipFor(c, meter, e.reason) ==> c.until <= e.until
  {
    var e := SkippedSays(calls, meter, RANKING[i]);
    RankOf(i);
    RankingIs(e.reason);
  }

  /** A reason without rank gives way to each of these. */
  lemma UnrankedGivesWay(calls: seq<Call>, meter: string, i: nat)
    requires i < |RANKING| && IsSkippedFor(calls, meter, RANKING[i]) && forall c <- calls :: c.Add? ==> c.meter != meter
    ensures EntryFor(Record(calls), meter).Passed? && EntryFor(Record(calls), meter).reason in RANKING
  {
    var e := SkippedSays(calls, meter, RANKING[i]);
    RankOf(i);
    RankingIs(e.reason);
  }

  // ----- the order of the calls

  /** A reason the ranking does not tell from others: NOT_FOUND or an unknown one. */
  predicate IsUnranked(c: Call, meter: string) {
    c.Skip? && c.meter == meter && Weakness(c.reason) == 6
  }

  /** A request or a ranked reason decides, or all reasons without rank are the same. */
  predicate OrderIsIrrelevant(calls: seq<Call>, meter: string) {
    || (exists c <- calls :: c.meter == meter && !IsUnranked(c, meter))
    || forall c <- calls, d <- calls :: IsUnranked(c, meter) && IsUnranked(d, meter) ==> c.reason == d.reason
  }

  lemma SaysIsUnique(e: Entry, f: Entry, calls: seq<Call>, meter: string)
    requires SaysWhatWasCalled(e, calls, meter) && SaysWhatWasCalled(f, calls, meter) && OrderIsIrrelevant(calls, meter)
    ensures e == f
  {
    if e.Passed? && f.Passed? {
      assert Weakness(e.reason) == Weakness(f.reason);
      assert Skip(meter, e.reason, e.until) in calls && Skip(meter, f.reason, f.until) in calls;
    }
  }

  lemma SaysOfSame(e: Entry, x: seq<Call>, y: seq<Call>, meter: string)
    requires SaysWhatWasCalled(e, x, meter) && forall c :: c in x <==> c in y
    ensures SaysWhatWasCalled(e, y, meter)
  {
  }

  /** Recording is confluent: the entry of a metering point depends only on which calls were made, not on their order or
      number. */
  lemma RecordIsConfluent(x: seq<Call>, y: seq<Call>, meter: string)
    requires (forall c :: c in x <==> c in y) && OrderIsIrrelevant(x, meter)
    ensures EntryFor(Record(x), meter) == EntryFor(Record(y), meter)
  {
    RecordFolds(x, meter);
    RecordFolds(y, meter);
    EntrySaysWhatWasCalled(x, meter);
    EntrySaysWhatWasCalled(y, meter);
    SaysOfSame(Folded(y, meter), y, x, meter);
    SaysIsUnique(Folded(x, meter), Folded(y, meter), x, meter);
  }

  /** The reasons the program gives. */
  predicate IsKnown(c: Call) {
    c.Skip? ==> !c.reason.OtherReason?
  }

  /** With these the order never matters: only NOT_FOUND has no rank. */
  lemma KnownReasonsAreConfluent(x: seq<Call>, y: seq<Call>, meter: string)
    requires (forall c :: c in x <==> c in y) && forall c <- x :: IsKnown(c)
    ensures EntryFor(Record(x), meter) == EntryFor(Record(y), meter)
  {
    assert forall c <- x :: IsUnranked(c, meter) ==> c.reason == NotFound;
    RecordIsConfluent(x, y, meter);
  }

  lemma {:induction false} FirstUnrankedStays(c: Call, rest: seq<Call>, meter: string)
    requires IsUnranked(c, meter) && forall d <- rest :: d.meter == meter ==> IsUnranked(d, meter)
    ensures Folded([c] + rest, meter).Passed? && Folded([c] + rest, meter).reason == c.reason
  {
    if rest == [] {
      assert [c] + rest == [] + [c];
      FoldedSnoc([], c, meter);
    } else {
      var init, d := rest[..|rest| - 1], rest[|rest| - 1];
      assert [c] + rest == ([c] + init) + [d];
      FirstUnrankedStays(c, init, meter);
      FoldedSnoc([c] + init, d, meter);
    }
  }

  /** The same calls with `c` first. */
  lemma WithFirst(x: seq<Call>, c: Call) returns (rest: seq<Call>)
    requires c in x
    ensures multiset([c] + rest) == multiset(x) && forall d <- rest :: d in x
  {
    var i :| 0 <= i < |x| && x[i] == c;
    rest := x[..i] + x[i + 1..];
    assert x == x[..i] + [c] + x[i + 1..];
  }

  lemma OrderMatters(x: seq<Call>, meter: string) returns (y: seq<Call>)
    requires !OrderIsIrrelevant(x, meter)
    ensures multiset(y) == multiset(x) && EntryFor(Record(y), meter) != EntryFor(Record(x), meter)
  {
    var c, d :| c in x && d in x && IsUnranked(c, meter) && IsUnranked(d, meter) && c.reason != d.reason;
    var afterC := WithFirst(x, c);
    var afterD := WithFirst(x, d);
    FirstUnrankedStays(c, afterC, meter);
    FirstUnrankedStays(d, afterD, meter);
    RecordFolds([c] + afterC, meter);
    RecordFolds([d] + afterD, meter);
    y := if EntryFor(Record([c] + afterC), meter) == EntryFor(Record(x), meter) then [d] + afterD else [c] + afterC;
  }

  /** No reordering of the calls changes the entry of a metering point if and only if a request or a ranked reason is among
      its calls, or at most one reason without rank. */
  lemma OrderIsIrrelevantIff(x: seq<Call>, meter: string)
    ensures OrderIsIrrelevant(x, meter) <==>
            forall y :: multiset(y) == multiset(x) ==> EntryFor(Record(y), meter) == EntryFor(Record(x), meter)
  {
    if OrderIsIrrelevant(x, meter) {
      forall y | multiset(y) == multiset(x)
        ensures EntryFor(Record(y), meter) == EntryFor(Record(x), meter)
      {
        assert forall c :: c in x <==> c in multiset(x);
        assert forall c :: c in y <==> c in multiset(y);
        RecordIsConfluent(x, y, meter);
      }
    } else {
      var y := OrderMatters(x, meter);
    }
  }

  // ----- the run that is collected

  /** What happens to the stored run after a failed send. */
  datatype RowChange = Unchanged | Replaced(run: RunData) | Deleted

  /** The widest period of the parts of a metering point. */
  function Widest(parts: seq<MeterRange>, meter: string): Option<MeterRange> {
    if parts == [] then None
    else
      var w, p := Widest(parts[..|parts| - 1], meter), parts[|parts| - 1];
      if p.meter != meter then w
      else if w.None? then Some(p)
      else Some(MeterRange(meter, Min(p.from, w.value.from), Max(p.to, w.value.to)))
  }

  /** The entries with a sent part, each reduced to the widest period of its sent parts. */
  function Reduced(meters: seq<MeterRange>, sent: seq<MeterRange>): seq<MeterRange> {
    if meters == [] then []
    else
      var rest, w := Reduced(meters[..|meters| - 1], sent), Widest(sent, meters[|meters| - 1].meter);
      if w.Some? then rest + [w.value] else rest
  }

  /** The span of the entries, from..to without entries. */
  function Span(meters: seq<MeterRange>, from: int, to: int): (int, int) {
    if meters == [] then (from, to)
    else if |meters| == 1 then (meters[0].from, meters[0].to)
    else
      var s, m := Span(meters[..|meters| - 1], from, to), meters[|meters| - 1];
      (Min(m.from, s.0), Max(m.to, s.1))
  }

  /** It begins where the first entry does and ends where the last one does. */
  predicate IsSpan(meters: seq<MeterRange>, from: int, to: int) {
    && (exists e <- meters :: e.from == from) && (exists e <- meters :: e.to == to)
    && forall e <- meters :: from <= e.from && e.to <= to
  }

  lemma {:induction false} SpanIsHull(meters: seq<MeterRange>, from: int, to: int)
    ensures meters != [] ==> IsSpan(meters, Span(meters, from, to).0, Span(meters, from, to).1)
  {
    if |meters| > 1 {
      var init, last := meters[..|meters| - 1], meters[|meters| - 1];
      SpanIsHull(init, from, to);
      assert meters == init + [last];
      assert forall e :: e in meters <==> e in init || e == last;
    } else if |meters| == 1 {
      assert meters[0] in meters;
    }
  }

  function SkipAll(l: Lists, ids: seq<string>): Lists {
    if ids == [] then l else SkipIn(SkipAll(l, ids[..|ids| - 1]), ids[|ids| - 1], NotFound, 0)
  }

  class RunBuilder {
    const runId: string
    const ecId: string
    var from: int
    var to: int
    var createdAt: int
    var meters: seq<MeterRange>
    var skipped: seq<Skipped>
    var noSummary: bool
    var fitted: bool

    constructor (runId: string, ecId: string, from: int, to: int)
      ensures this.runId == runId && this.ecId == ecId && this.from == from && this.to == to
      ensures Content() == Lists([], []) && !noSummary && !fitted
    {
      this.runId, this.ecId, this.from, this.to := runId, ecId, from, to;
      createdAt, meters, skipped, noSummary, fitted := 0, [], [], false, false;
    }

    function Content(): Lists
      reads this
    {
      Lists(meters, skipped)
    }

    function Stored(): RunData
      reads this
    {
      RunData(runId, ecId, from, to, createdAt, meters, skipped, noSummary)
    }

    method DropSkipped(meter: string)
      modifies this`skipped
      ensures skipped == Without(old(skipped), meter)
    {
      var kept := [];
      for i := 0 to |skipped|
        invariant skipped == old(skipped) && kept == Without(skipped[..i], meter)
      {
        assert skipped[..i + 1][..i] == skipped[..i];
        if skipped[i].meter != meter {
          kept := kept + [skipped[i]];
        }
      }
      assert skipped[..|skipped|] == skipped;
      skipped := kept;
    }

    /** Records a metering point that is requested for from..to; one that occurs twice gets the widest period. */
    method AddMeter(meter: string, from: int, to: int)
      modifies this`meters, this`skipped
      ensures Content() == AddTo(old(Content()), meter, from, to)
    {
      DropSkipped(meter);
      for i := 0 to |meters|
        invariant meters == old(meters) && skipped == Without(old(skipped), meter)
        invariant forall j :: 0 <= j < i ==> meters[j].meter != meter
      {
        if meters[i].meter == meter {
          FindMeterIs(meters, meter, i);
          if from < meters[i].from {
            meters := meters[i := meters[i].(from := from)];
          }
          if to > meters[i].to {
            meters := meters[i := meters[i].(to := to)];
          }
          return;
        }
      }
      FindMeterIs(meters, meter, |meters|);
      meters := meters + [MeterRange(meter, from, to)];
    }

    /** Records a metering point that is not requested, unless it is requested for another participation. */
    method SkipUntil(meter: string, reason: Reason, until: int)
      modifies this`skipped
      ensures Content() == SkipIn(old(Content()), meter, reason, until)
    {
      for i := 0 to |meters|
        invariant forall j :: 0 <= j < i ==> meters[j].meter != meter
      {
        if meters[i].meter == meter {
          FindMeterIs(meters, meter, i);
          return;
        }
      }
      FindMeterIs(meters, meter, |meters|);
      for i := 0 to |skipped|
        invariant skipped == old(skipped) && forall j :: 0 <= j < i ==> skipped[j].meter != meter
      {
        var s := skipped[i];
        if s.meter == meter {
          FindSkippedIs(skipped, meter, i);
          if Weakness(s.reason) > Weakness(reason) {
            skipped := skipped[i := s.(reason := reason, until := until)];
          } else if s.reason == reason && until > s.until {
            skipped := skipped[i := s.(until := until)];
          }
          return;
        }
      }
      FindSkippedIs(skipped, meter, |skipped|);
      skipped := skipped + [Skipped(meter, reason, until)];
    }

    /** The period becomes the span of the requested metering points. */
    method FitPeriod()
      modifies this`from, this`to, this`fitted
      ensures fitted && (from, to) == Span(meters, old(from), old(to))
      ensures if meters == [] then from == old(from) && to == old(to) else IsSpan(meters, from, to)
    {
      fitted := true;
      for i := 0 to |meters|
        invariant fitted && (from, to) == Span(meters[..i], old(from), old(to))
      {
        assert meters[..i + 1][..i] == meters[..i];
        if i == 0 || meters[i].from < from {
          from := meters[i].from;
        }
        if i == 0 || meters[i].to > to {
          to := meters[i].to;
        }
      }
      assert meters[..|meters|] == meters;
      SpanIsHull(meters, old(from), old(to));
    }

    /** Completes the run and tells whether it is to be stored: the metering points not found at all are skipped, and a
        request for fewer than two gets no summary. */
    method Save(requested: seq<string>, now: int) returns (store: bool)
      modifies this`skipped, this`noSummary, this`createdAt
      ensures Content() == SkipAll(old(Content()), requested)
      ensures store <==> meters != []
      ensures store ==> createdAt == now && noSummary == (old(noSummary) || |set m | m in requested| < 2)
      ensures !store ==> createdAt == old(createdAt) && noSummary == old(noSummary)
    {
      var distinct: set<string> := {};
      for i := 0 to |requested|
        invariant distinct == (set m | m in requested[..i]) && noSummary == old(noSummary) && createdAt == old(createdAt)
        invariant Content() == SkipAll(old(Content()), requested[..i])
        invariant forall m <- distinct :: Settled(Content(), m)
      {
        assert requested[..i + 1] == requested[..i] + [requested[i]];
        assert requested[..i + 1][..i] == requested[..i];
        SettledStays(Content(), requested[i]);
        if requested[i] !in distinct {
          distinct := distinct + {requested[i]};
          SkipUntil(requested[i], NotFound, 0);
        }
      }
      assert requested[..|requested|] == requested;
      if |meters| == 0 {
        return false;
      }
      if |distinct| < 2 {
        noSummary := true;
      }
      createdAt := now;
      return true;
    }

    /** Reduces the stored run to the parts that were sent, after a send failed. */
    method KeepSent(rowId: int, sent: seq<MeterRange>) returns (change: RowChange)
      modifies this
      ensures rowId == 0 ==> change == Unchanged && unchanged(this)
      ensures rowId != 0 ==> Content() == Lists(Reduced(old(meters), sent), old(skipped))
      ensures rowId != 0 ==> createdAt == old(createdAt) && noSummary == old(noSummary) && fitted == old(fitted)
      ensures rowId != 0 ==> (from, to) == if fitted then Span(meters, old(from), old(to)) else (old(from), old(to))
      ensures rowId != 0 ==> change == if meters == [] then Deleted else Replaced(Stored())
    {
      if rowId == 0 {
        return Unchanged;
      }
      var spans: map<string, MeterRange> := map[];
      for i := 0 to |sent|
        invariant forall m :: Widest(sent[..i], m) == if m in spans then Some(spans[m]) else None
      {
        assert sent[..i + 1][..i] == sent[..i];
        var s := sent[i];
        if s.meter in spans {
          s := MeterRange(s.meter, Min(s.from, spans[s.meter].from), Max(s.to, spans[s.meter].to));
        }
        spans := spans[s.meter := s];
      }
      assert sent[..|sent|] == sent;
      var kept := [];
      for i := 0 to |meters|
        invariant kept == Reduced(meters[..i], sent)
      {
        assert meters[..i + 1][..i] == meters[..i];
        if meters[i].meter in spans {
          kept := kept + [spans[meters[i].meter]];
        }
      }
      assert meters[..|meters|] == meters;
      meters := kept;
      if fitted {
        FitPeriod();
      }
      if |meters| == 0 {
        return Deleted;
      }
      return Replaced(Stored());
    }
  }

  /** Skipping the metering point as not found has no effect any more. */
  predicate Settled(l: Lists, meter: string) {
    SkipIn(l, meter, NotFound, 0) == l
  }

  lemma SettledStays(l: Lists, meter: string)
    ensures Settled(SkipIn(l, meter, NotFound, 0), meter)
    ensures forall m :: Settled(l, m) ==> Settled(SkipIn(l, meter, NotFound, 0), m)
  {
    var k, r := FindSkipped(l.skipped, meter), SkipIn(l, meter, NotFound, 0);
    if r != l {
      FindSkippedIs(r.skipped, meter, k);
      forall m | Settled(l, m)
        ensures Settled(r, m)
      {
        if m != meter {
          FindSkippedSame(l.skipped, r.skipped, k, m);
        }
      }
    }
  }

  /** After Save every requested metering point is in exactly one of the two lists: those found keep their entry, the
      others are skipped as not found. */
  lemma {:induction false} SavedListsEachRequested(l: Lists, ids: seq<string>, meter: string)
    requires Valid(l) && (EntryFor(l, meter).Passed? ==> EntryFor(l, meter).reason != NotFound)
    ensures Valid(SkipAll(l, ids))
    ensures EntryFor(SkipAll(l, ids), meter) ==
            if EntryFor(l, meter) == Nothing && meter in ids then Passed(NotFound, 0) else EntryFor(l, meter)
  {
    if ids != [] {
      var init, id := ids[..|ids| - 1], ids[|ids| - 1];
      SavedListsEachRequested(l, init, meter);
      SkipStep(SkipAll(l, init), Skip(id, NotFound, 0), meter);
      SkipValid(SkipAll(l, init), Skip(id, NotFound, 0));
      assert meter in ids <==> meter in init || meter == id;
    }
  }

  // ----- a run reduced to what was sent

  lemma {:induction false} WidestIsHull(parts: seq<MeterRange>, meter: string)
    ensures match Widest(parts, meter)
            case None => forall p <- parts :: p.meter != meter
            case Some(w) =>
              && w.meter == meter
              && (exists p <- parts :: p.meter == meter && p.from == w.from)
              && (exists p <- parts :: p.meter == meter && p.to == w.to)
              && forall p <- parts :: p.meter == meter ==> w.from <= p.from && p.to <= w.to
  {
    if parts != [] {
      var init, p := parts[..|parts| - 1], parts[|parts| - 1];
      WidestIsHull(init, meter);
      assert parts == init + [p];
      assert forall q :: q in parts <==> q in init || q == p;
    }
  }

  /** A reduced run names exactly the metering points with a sent part, each with the widest period of its sent parts. */
  lemma {:induction false} ReducedKeepsSent(meters: seq<MeterRange>, sent: seq<MeterRange>)
    requires DistinctMeters(meters)
    ensures DistinctMeters(Reduced(meters, sent))
    ensures forall e :: e in Reduced(meters, sent) <==>
                        (exists m <- meters :: m.meter == e.meter) && Widest(sent, e.meter) == Some(e)
  {
    if meters != [] {
      var init, last := meters[..|meters| - 1], meters[|meters| - 1];
      ReducedKeepsSent(init, sent);
      WidestIsHull(sent, last.meter);
      assert meters == init + [last];
      forall e
        ensures e in Reduced(meters, sent) <==>
                (exists m <- meters :: m.meter == e.meter) && Widest(sent, e.meter) == Some(e)
      {
        WidestIsHull(sent, e.meter);
        assert (exists m <- meters :: m.meter == e.meter) <==> (exists m <- init :: m.meter == e.meter) || last.meter == e.meter;
      }
      forall i | 0 <= i < |Reduced(init, sent)|
        ensures Reduced(init, sent)[i].meter != last.meter
      {
        var e := Reduced(init, sent)[i];
        assert e in Reduced(init, sent);
        var m :| m in init && m.meter == e.meter;
      }
    }
  }

  /** The stored run is deleted exactly when none of its metering points was sent. */
  lemma DeletedIffNothingSent(meters: seq<MeterRange>, sent: seq<MeterRange>)
    requires DistinctMeters(meters) && forall p <- sent :: exists m <- meters :: m.meter == p.meter
    ensures Reduced(meters, sent) == [] <==> sent == []
  {
    ReducedKeepsSent(meters, sent);
    var r := Reduced(meters, sent);
    if r != [] {
      assert r[0] in r;
      WidestIsHull(sent, r[0].meter);
    }
    if sent != [] {
      var p := sent[0];
      WidestIsHull(sent, p.meter);
      assert p in sent;
      assert Widest(sent, p.meter).value in r;
    }
  }
}
