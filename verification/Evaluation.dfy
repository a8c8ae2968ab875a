/** The summary of a run from its attributed answers (energyrequest/summary.go). */
module Evaluation {
  import opened Wrappers
  import opened EnergyTypes
  import opened AttributionSpec
  import opened AttributionOnline
  import opened AttributionWindows
  import opened Attribution
  import opened Belongings

  datatype Outcome = Accepted | Refused | NoAnswer | Superseded

  /** What an attribution says about each metering point of one run. */
  type Findings = string -> (seq<IdAnswer>, bool)

  /** The latest answer decides. */
  function OutcomeOf(f: (seq<IdAnswer>, bool)): Outcome {
    if f.0 == [] then if f.1 then Superseded else NoAnswer
    else if f.0[|f.0| - 1].answer.accepted then Accepted else Refused
  }

  /** The entries with an outcome, in their order. */
  function Select(meters: seq<MeterRange>, f: Findings, o: Outcome): seq<MeterRange> {
    if meters == [] then []
    else
      var m := meters[|meters| - 1];
      Select(meters[..|meters| - 1], f, o) + if OutcomeOf(f(m.meter)) == o then [m] else []
  }

  function Names(meters: seq<MeterRange>): (r: seq<string>)
    ensures |r| == |meters| && forall i :: 0 <= i < |r| ==> r[i] == meters[i].meter
  {
    seq(|meters|, i requires 0 <= i < |meters| => meters[i].meter)
  }

  /** The codes of the latest answer. */
  function CodesOf(answers: seq<IdAnswer>): seq<string> {
    if answers == [] then [] else answers[|answers| - 1].answer.codes
  }

  function Refusals(meters: seq<MeterRange>, f: Findings): (r: seq<Rejection>)
    ensures |r| == |meters|
    ensures forall i :: 0 <= i < |r| ==> r[i] == Rejection(meters[i].meter, CodesOf(f(meters[i].meter).0))
  {
    seq(|meters|, i requires 0 <= i < |meters| => Rejection(meters[i].meter, CodesOf(f(meters[i].meter).0)))
  }

  lemma {:induction false} SelectMembers(meters: seq<MeterRange>, f: Findings, o: Outcome, m: MeterRange)
    ensures m in Select(meters, f, o) <==> m in meters && OutcomeOf(f(m.meter)) == o
  {
    if meters != [] {
      var init := meters[..|meters| - 1];
      SelectMembers(init, f, o, m);
      assert meters == init + [meters[|meters| - 1]];
    }
  }

  predicate IsSummaryOf(s: Summary, run: RunData, meters: seq<MeterRange>, f: Findings) {
    && s.runId == run.runId && s.from == run.from && s.to == run.to && s.requested == |run.meters|
    && s.skipped == run.skipped && !s.live
    && s.accepted == Select(meters, f, Accepted)
    && s.noAnswer == Names(Select(meters, f, NoAnswer))
    && s.superseded == Names(Select(meters, f, Superseded))
    && s.rejected == Refusals(Select(meters, f, Refused), f)
  }

  /** Whether a run can be closed: nothing is unanswered, or the deadline has passed. */
  predicate Done(run: RunData, f: Findings, now: int) {
    Select(run.meters, f, NoAnswer) == [] || now - run.createdAt >= DEADLINE
  }

  lemma SelectStep(meters: seq<MeterRange>, f: Findings, o: Outcome, i: nat)
    requires i < |meters|
    ensures Select(meters[..i + 1], f, o) ==
            if OutcomeOf(f(meters[i].meter)) == o then Select(meters[..i], f, o) + [meters[i]] else Select(meters[..i], f, o)
  {
    assert meters[..i + 1][..i] == meters[..i];
  }

  /** The latest of the answers that belong to a metering point: whether there is one, whether it accepts, and the codes
      of a rejection. */
  method Latest(belonging: seq<IdAnswer>) returns (answered: bool, accepted: bool, codes: Option<seq<string>>)
    ensures answered <==> belonging != []
    ensures accepted <==> belonging != [] && belonging[|belonging| - 1].answer.accepted
    ensures codes == if belonging != [] && !accepted then Some(belonging[|belonging| - 1].answer.codes) else None
  {
    answered, accepted, codes := false, false, None;
    for k := 0 to |belonging|
      invariant answered <==> k > 0
      invariant accepted <==> k > 0 && belonging[k - 1].answer.accepted
      invariant codes == if k > 0 && !accepted then Some(belonging[k - 1].answer.codes) else None
    {
      answered, accepted, codes := true, belonging[k].answer.accepted, None;
      if !accepted {
        codes := Some(belonging[k].answer.codes);
      }
    }
  }

  /** Computes the summary of the run in row `rowId` from the attributed answers; `f` is what they say about it. */
  method Evaluate(run: RunData, rowId: int, a: map<RequestKey, RequestNode>, now: int, ghost f: Findings)
    returns (s: Summary, done: bool)
    requires forall m :: BelongingOf(a, rowId, m) == f(m)
    ensures IsSummaryOf(s, run, run.meters, f)
    ensures done == Done(run, f, now) && (done <==> s.noAnswer == [] || now - run.createdAt >= 24 * 3_600_000)
  {
    s := Summary(run.runId, run.from, run.to, |run.meters|, [], [], [], run.skipped, [], false);
    for i := 0 to |run.meters|
      invariant IsSummaryOf(s, run, run.meters[..i], f)
    {
      StepSummary(s, run, f, i);
      var m := run.meters[i];
      var (belonging, again) := BelongingOf(a, rowId, m.meter);
      assert (belonging, again) == f(m.meter);
      var answered, isAccepted, codes := Latest(belonging);
      if !answered && again {
        s := s.(superseded := s.superseded + [m.meter]);
      } else if codes.Some? {
        s := s.(rejected := s.rejected + [Rejection(m.meter, codes.value)]);
      } else if isAccepted {
        s := s.(accepted := s.accepted + [m]);
      } else {
        s := s.(noAnswer := s.noAnswer + [m.meter]);
      }
    }
    assert run.meters[..|run.meters|] == run.meters;
    done := |s.noAnswer| == 0 || now - run.createdAt >= DEADLINE;
  }

  lemma StepSummary(s: Summary, run: RunData, f: Findings, i: nat)
    requires i < |run.meters| && IsSummaryOf(s, run, run.meters[..i], f)
    ensures var m, next := run.meters[i], run.meters[..i + 1];
            match OutcomeOf(f(m.meter))
            case Accepted => IsSummaryOf(s.(accepted := s.accepted + [m]), run, next, f)
            case Refused => IsSummaryOf(s.(rejected := s.rejected + [Rejection(m.meter, CodesOf(f(m.meter).0))]), run, next, f)
            case NoAnswer => IsSummaryOf(s.(noAnswer := s.noAnswer + [m.meter]), run, next, f)
            case Superseded => IsSummaryOf(s.(superseded := s.superseded + [m.meter]), run, next, f)
  {
    var m := run.meters[i];
    SelectStep(run.meters, f, Accepted, i);
    SelectStep(run.meters, f, Refused, i);
    SelectStep(run.meters, f, NoAnswer, i);
    SelectStep(run.meters, f, Superseded, i);
    NamesSnoc(Select(run.meters[..i], f, NoAnswer), m);
    NamesSnoc(Select(run.meters[..i], f, Superseded), m);
    RefusalsSnoc(Select(run.meters[..i], f, Refused), f, m);
  }

  lemma NamesSnoc(meters: seq<MeterRange>, m: MeterRange)
    ensures Names(meters + [m]) == Names(meters) + [m.meter]
  {
  }

  lemma RefusalsSnoc(meters: seq<MeterRange>, f: Findings, m: MeterRange)
    ensures Refusals(meters + [m], f) == Refusals(meters, f) + [Rejection(m.meter, CodesOf(f(m.meter).0))]
  {
  }

  // ----- the four lists partition the run

  lemma {:induction false} SelectCounts(meters: seq<MeterRange>, f: Findings)
    ensures |meters| == |Select(meters, f, Accepted)| + |Select(meters, f, Refused)| + |Select(meters, f, NoAnswer)| +
                        |Select(meters, f, Superseded)|
  {
    if meters != [] {
      SelectCounts(meters[..|meters| - 1], f);
    }
  }

  /** The selected entries stand in the order of the run. */
  lemma {:induction false} SelectInOrder(meters: seq<MeterRange>, f: Findings, o: Outcome, i: nat, j: nat)
    returns (p: nat, q: nat)
    requires i < j < |Select(meters, f, o)|
    ensures p < q < |meters| && meters[p] == Select(meters, f, o)[i] && meters[q] == Select(meters, f, o)[j]
  {
    var init := meters[..|meters| - 1];
    if j < |Select(init, f, o)| {
      p, q := SelectInOrder(init, f, o, i, j);
    } else {
      SelectMembers(init, f, o, Select(init, f, o)[i]);
      p :| 0 <= p < |init| && init[p] == Select(init, f, o)[i];
      q := |meters| - 1;
    }
  }

  /** Every metering point of the run is in exactly one of the four lists, the one of its latest belonging answer. */
  lemma SummaryPartitionsRun(s: Summary, run: RunData, f: Findings, i: nat)
    requires IsSummaryOf(s, run, run.meters, f) && DistinctMeters(run.meters) && i < |run.meters|
    ensures var m, o := run.meters[i], OutcomeOf(f(run.meters[i].meter));
            && (m in s.accepted <==> o == Accepted)
            && (m.meter in RejectedNames(s) <==> o == Refused)
            && (m.meter in s.noAnswer <==> o == NoAnswer)
            && (m.meter in s.superseded <==> o == Superseded)
    ensures |s.accepted| + |s.rejected| + |s.noAnswer| + |s.superseded| == s.requested
  {
    SelectCounts(run.meters, f);
    NamedOnce(run.meters, f, Accepted, i);
    NamedOnce(run.meters, f, Refused, i);
    NamedOnce(run.meters, f, NoAnswer, i);
    NamedOnce(run.meters, f, Superseded, i);
    assert RejectedNames(s) == Names(Select(run.meters, f, Refused));
  }

  function RejectedNames(s: Summary): (r: seq<string>)
    ensures |r| == |s.rejected|
  {
    seq(|s.rejected|, i requires 0 <= i < |s.rejected| => s.rejected[i].meter)
  }

  lemma NamedOnce(meters: seq<MeterRange>, f: Findings, o: Outcome, i: nat)
    requires DistinctMeters(meters) && i < |meters|
    ensures meters[i].meter in Names(Select(meters, f, o)) <==> OutcomeOf(f(meters[i].meter)) == o
    ensures meters[i] in Select(meters, f, o) <==> OutcomeOf(f(meters[i].meter)) == o
  {
    var sel := Select(meters, f, o);
    SelectMembers(meters, f, o, meters[i]);
    if meters[i].meter in Names(sel) {
      var k :| 0 <= k < |sel| && sel[k].meter == meters[i].meter;
      SelectMembers(meters, f, o, sel[k]);
    }
    if meters[i] in sel {
      var k :| 0 <= k < |sel| && sel[k] == meters[i];
      assert Names(sel)[k] == meters[i].meter;
    }
  }

  // ----- evaluation on growing logs

  /** What the attribution of `rows` says about the run in row `rowId`. */
  function FindingsOf(cal: Calendar, ecId: string, tenants: set<string>, rows: seq<Row>, rowId: int): Findings {
    m => Belonging(TwoPass(Scope(cal, ecId, tenants, m), rows), rowId)
  }

  lemma {:induction false} BelongingContinues(x: seq<Request>, y: seq<Request>, rowId: int, t: int)
    requires Continues(x, y, t) && rowId <= t && AscendingRows(x)
    ensures Belonging(x, rowId).0 <= Belonging(y, rowId).0
    ensures Belonging(x, rowId).1 ==> Belonging(y, rowId).1
    ensures forall i :: |Belonging(x, rowId).0| <= i < |Belonging(y, rowId).0| ==> t < Belonging(y, rowId).0[i].id
  {
    if x == [] {
      BelongingNone(y, rowId);
    } else if x[0].rowId != rowId {
      assert forall i :: 0 <= i < |x[1..]| ==> x[1..][i] == x[i + 1] && y[1..][i] == y[i + 1];
      assert forall i :: |x[1..]| <= i < |y[1..]| ==> y[1..][i] == y[i + 1];
      BelongingContinues(x[1..], y[1..], rowId, t);
    }
  }

  lemma TwoPassAscends(s: Scope, rows: seq<Row>)
    requires ValidRows(rows)
    ensures AscendingRows(TwoPass(s, rows))
  {
    forall i, j | 0 <= i < j < |TwoPass(s, rows)|
      ensures TwoPass(s, rows)[i].rowId < TwoPass(s, rows)[j].rowId
    {
      WindowsOfRequests(s, rows, i);
    }
  }

  lemma FindingsGrow(s: Scope, rows: seq<Row>, n: nat, rowId: int)
    requires ValidRows(rows) && OneSummaryPerRun(rows) && 0 < n <= |rows| && rowId <= rows[n - 1].id
    ensures var x, y := Belonging(TwoPass(s, rows[..n]), rowId), Belonging(TwoPass(s, rows), rowId);
            x.0 <= y.0 && (x.1 ==> y.1)
  {
    PrefixStable(s, rows, n);
    ValidPrefix(rows, n);
    TwoPassAscends(s, rows[..n]);
    BelongingContinues(TwoPass(s, rows[..n]), TwoPass(s, rows), rowId, rows[n - 1].id);
  }

  lemma {:induction false} SelectNoAnswerShrinks(meters: seq<MeterRange>, f: Findings, g: Findings)
    requires forall m :: OutcomeOf(g(m)) == NoAnswer ==> OutcomeOf(f(m)) == NoAnswer
    ensures forall m <- Select(meters, g, NoAnswer) :: m in Select(meters, f, NoAnswer)
  {
    forall m | m in Select(meters, g, NoAnswer)
      ensures m in Select(meters, f, NoAnswer)
    {
      SelectMembers(meters, g, NoAnswer, m);
      SelectMembers(meters, f, NoAnswer, m);
    }
  }

  /** As rows are appended and time passes, fewer metering points are unanswered, and a run that can be closed stays so. */
  lemma DoneIsMonotone(cal: Calendar, tenants: set<string>, rows: seq<Row>, n: nat, run: RunData, rowId: int, now: int, later: int)
    requires ValidRows(rows) && OneSummaryPerRun(rows) && 0 < n <= |rows| && rowId <= rows[n - 1].id && now <= later
    ensures var f, g := FindingsOf(cal, run.ecId, tenants, rows[..n], rowId), FindingsOf(cal, run.ecId, tenants, rows, rowId);
            && (forall m <- Select(run.meters, g, NoAnswer) :: m in Select(run.meters, f, NoAnswer))
            && (Done(run, f, now) ==> Done(run, g, later))
  {
    var f, g := FindingsOf(cal, run.ecId, tenants, rows[..n], rowId), FindingsOf(cal, run.ecId, tenants, rows, rowId);
    forall m
      ensures OutcomeOf(g(m)) == NoAnswer ==> OutcomeOf(f(m)) == NoAnswer
    {
      UnansweredBefore(cal, run.ecId, tenants, rows, n, rowId, m);
    }
    SelectNoAnswerShrinks(run.meters, f, g);
    DoneStays(run, f, g, now, later);
  }

  lemma UnansweredBefore(cal: Calendar, ecId: string, tenants: set<string>, rows: seq<Row>, n: nat, rowId: int, m: string)
    requires ValidRows(rows) && OneSummaryPerRun(rows) && 0 < n <= |rows| && rowId <= rows[n - 1].id
    ensures OutcomeOf(FindingsOf(cal, ecId, tenants, rows, rowId)(m)) == NoAnswer ==>
            OutcomeOf(FindingsOf(cal, ecId, tenants, rows[..n], rowId)(m)) == NoAnswer
  {
    FindingsGrow(Scope(cal, ecId, tenants, m), rows, n, rowId);
  }

  lemma DoneStays(run: RunData, f: Findings, g: Findings, now: int, later: int)
    requires now <= later && forall m <- Select(run.meters, g, NoAnswer) :: m in Select(run.meters, f, NoAnswer)
    ensures Done(run, f, now) ==> Done(run, g, later)
  {
    var left := Select(run.meters, g, NoAnswer);
    assert left != [] ==> left[0] in left;
  }

  // ----- the summary, said of the rows

  /** The last belonging answer decides alone: accepted, or rejected with exactly its codes, and in no other list. */
  predicate ListedBy(s: Summary, e: MeterRange, x: Answer) {
    && (e in s.accepted <==> x.accepted) && (e.meter in RejectedNames(s) <==> !x.accepted)
    && e.meter !in s.noAnswer && e.meter !in s.superseded
    && forall r <- s.rejected :: r.meter == e.meter ==> r.codes == x.codes
  }

  /** Unanswered: superseded when the period was requested again, else without answer. */
  predicate ListedUnanswered(s: Summary, e: MeterRange, repeated: bool) {
    && e !in s.accepted && e.meter !in RejectedNames(s)
    && (e.meter in s.superseded <==> repeated) && (e.meter in s.noAnswer <==> !repeated)
  }

  lemma RejectedCodes(s: Summary, run: RunData, f: Findings, r: Rejection)
    requires IsSummaryOf(s, run, run.meters, f) && r in s.rejected
    ensures r.codes == CodesOf(f(r.meter).0)
  {
  }

  lemma ListedByFindings(s: Summary, run: RunData, f: Findings, i: nat)
    requires IsSummaryOf(s, run, run.meters, f) && DistinctMeters(run.meters) && i < |run.meters|
    ensures var e, g := run.meters[i], f(run.meters[i].meter);
            if g.0 == [] then ListedUnanswered(s, e, g.1) else ListedBy(s, e, g.0[|g.0| - 1].answer)
  {
    SummaryPartitionsRun(s, run, f, i);
    forall r | r in s.rejected && r.meter == run.meters[i].meter
      ensures r.codes == CodesOf(f(run.meters[i].meter).0)
    {
      RejectedCodes(s, run, f, r);
    }
  }

  /** What the summary of the run in row `rowId` says about the metering point: the last answer that belongs to the run
      decides; without one it is superseded exactly when a later run of the community asks for one of its days. */
  ghost predicate TellsEntry(s: Summary, m: Scope, rows: seq<Row>, rowId: int, e: MeterRange) {
    && (forall x <- rows :: Decides(m, rows, x, rowId) ==> ListedBy(s, e, x.content.answer))
    && ((forall x <- rows :: !BelongsTo(m, rows, x, rowId)) ==>
          ListedUnanswered(s, e, exists y <- rows :: Repeats(m, y, rowId, e)))
  }

  /** The names come in the order of the run. */
  predicate InRunOrder(names: seq<string>, meters: seq<MeterRange>) {
    forall i, j :: 0 <= i < j < |names| ==> ComeInOrder(meters, names[i], names[j])
  }

  predicate ComeInOrder(meters: seq<MeterRange>, a: string, b: string) {
    exists p, q :: 0 <= p < q < |meters| && meters[p].meter == a && meters[q].meter == b
  }

  /** What the summary of the run in row `i` says, read off the rows it was evaluated on: each metering point is in one list,
      in the order of the run; the rest is copied from the run. */
  ghost predicate TellsRows(s: Summary, cal: Calendar, tenants: set<string>, rows: seq<Row>, i: nat)
    requires i < |rows| && rows[i].content.Run?
  {
    var run, id := rows[i].content.run, rows[i].id;
    && s.runId == run.runId && s.from == run.from && s.to == run.to && s.skipped == run.skipped && !s.live
    && s.requested == |run.meters| == |s.accepted| + |s.rejected| + |s.noAnswer| + |s.superseded|
    && InRunOrder(Names(s.accepted), run.meters) && InRunOrder(RejectedNames(s), run.meters)
    && InRunOrder(s.noAnswer, run.meters) && InRunOrder(s.superseded, run.meters)
    && forall e <- run.meters :: TellsEntry(s, Scope(cal, run.ecId, tenants, e.meter), rows, id, e)
  }

  lemma SelectRunOrder(meters: seq<MeterRange>, f: Findings, o: Outcome)
    ensures InRunOrder(Names(Select(meters, f, o)), meters)
  {
    var names := Names(Select(meters, f, o));
    forall i, j | 0 <= i < j < |names|
      ensures ComeInOrder(meters, names[i], names[j])
    {
      var p, q := SelectInOrder(meters, f, o, i, j);
    }
  }

  ghost predicate IsLastAnswer(m: Scope, rows: seq<Row>, rowId: int, answers: seq<IdAnswer>) {
    && (answers != [] ==> exists x <- rows :: Decides(m, rows, x, rowId))
    && forall x <- rows :: Decides(m, rows, x, rowId) ==>
         answers != [] && answers[|answers| - 1] == IdAnswer(x.id, x.content.answer)
  }

  ghost predicate IsRepeated(m: Scope, rows: seq<Row>, rowId: int, e: MeterRange) {
    exists y <- rows :: Repeats(m, y, rowId, e)
  }

  lemma TellsFound(s: Summary, m: Scope, rows: seq<Row>, rowId: int, e: MeterRange, answers: seq<IdAnswer>, repeated: bool)
    requires if answers == [] then ListedUnanswered(s, e, repeated) else ListedBy(s, e, answers[|answers| - 1].answer)
    requires IsLastAnswer(m, rows, rowId, answers) && (repeated <==> IsRepeated(m, rows, rowId, e))
    ensures TellsEntry(s, m, rows, rowId, e)
  {
  }

  lemma FoundIsMeant(m: Scope, rows: seq<Row>, i: nat, e: MeterRange)
    requires ValidRows(rows) && i < |rows| && IsRunRowOf(rows[i], m.ecId, m.tenants)
    requires e in rows[i].content.run.meters && e.meter == m.meter
    ensures var g := Belonging(TwoPass(m, rows), rows[i].id);
            IsLastAnswer(m, rows, rows[i].id, g.0) && (g.1 <==> IsRepeated(m, rows, rows[i].id, e))
  {
    LastDecides(m, rows, rows[i].id);
    RepeatedRows(m, rows, i, e);
  }

  lemma FindingsTellEntry(s: Summary, m: Scope, rows: seq<Row>, i: nat, e: MeterRange)
    requires ValidRows(rows) && i < |rows| && IsRunRowOf(rows[i], m.ecId, m.tenants)
    requires e in rows[i].content.run.meters && e.meter == m.meter
    requires var g := Belonging(TwoPass(m, rows), rows[i].id);
             if g.0 == [] then ListedUnanswered(s, e, g.1) else ListedBy(s, e, g.0[|g.0| - 1].answer)
    ensures TellsEntry(s, m, rows, rows[i].id, e)
  {
    var g := Belonging(TwoPass(m, rows), rows[i].id);
    FoundIsMeant(m, rows, i, e);
    TellsFound(s, m, rows, rows[i].id, e, g.0, g.1);
  }

  lemma SummaryTellsEntry(s: Summary, cal: Calendar, tenants: set<string>, rows: seq<Row>, i: nat, k: nat)
    requires ValidRows(rows) && i < |rows| && rows[i].rowType == RunRow && rows[i].content.Run? && rows[i].tenant in tenants
    requires k < |rows[i].content.run.meters|
    requires var run := rows[i].content.run;
             IsSummaryOf(s, run, run.meters, FindingsOf(cal, run.ecId, tenants, rows, rows[i].id))
    ensures var run := rows[i].content.run;
            TellsEntry(s, Scope(cal, run.ecId, tenants, run.meters[k].meter), rows, rows[i].id, run.meters[k])
  {
    var run := rows[i].content.run;
    ListedByFindings(s, run, FindingsOf(cal, run.ecId, tenants, rows, rows[i].id), k);
    FindingsTellEntry(s, Scope(cal, run.ecId, tenants, run.meters[k].meter), rows, i, run.meters[k]);
  }

  /** Every summary an evaluation gives tells the rows it was evaluated on. */
  lemma SummaryTellsRows(s: Summary, cal: Calendar, tenants: set<string>, rows: seq<Row>, i: nat)
    requires ValidRows(rows) && i < |rows| && rows[i].rowType == RunRow && rows[i].content.Run? && rows[i].tenant in tenants
    requires var run := rows[i].content.run;
             IsSummaryOf(s, run, run.meters, FindingsOf(cal, run.ecId, tenants, rows, rows[i].id))
    ensures TellsRows(s, cal, tenants, rows, i)
  {
    var run := rows[i].content.run;
    var f := FindingsOf(cal, run.ecId, tenants, rows, rows[i].id);
    SelectCounts(run.meters, f);
    SelectRunOrder(run.meters, f, Accepted);
    SelectRunOrder(run.meters, f, Refused);
    SelectRunOrder(run.meters, f, NoAnswer);
    SelectRunOrder(run.meters, f, Superseded);
    assert RejectedNames(s) == Names(Select(run.meters, f, Refused));
    forall e | e in run.meters
      ensures TellsEntry(s, Scope(cal, run.ecId, tenants, e.meter), rows, rows[i].id, e)
    {
      var k :| 0 <= k < |run.meters| && run.meters[k] == e;
      SummaryTellsEntry(s, cal, tenants, rows, i, k);
    }
  }

  /** A run of another community's tenant has no answers there. */
  lemma OutsiderIsUnanswered(s: Summary, cal: Calendar, tenants: set<string>, ecId: string, rows: seq<Row>, i: nat, e: MeterRange)
    requires ValidRows(rows) && i < |rows| && rows[i].IsRun() && rows[i].tenant !in tenants && e in rows[i].content.run.meters
    requires var run := rows[i].content.run;
             IsSummaryOf(s, run, run.meters, FindingsOf(cal, ecId, tenants, rows, rows[i].id))
    ensures ListedUnanswered(s, e, false)
  {
    var run, f := rows[i].content.run, FindingsOf(cal, ecId, tenants, rows, rows[i].id);
    var k :| 0 <= k < |run.meters| && run.meters[k] == e;
    var m := Scope(cal, ecId, tenants, e.meter);
    forall q | q in TwoPass(m, rows)
      ensures q.rowId != rows[i].id
    {
      var j :| 0 <= j < |TwoPass(m, rows)| && TwoPass(m, rows)[j] == q;
      var n, d := RequestsAreRuns(m, rows, j);
    }
    BelongingNone(TwoPass(m, rows), rows[i].id);
    ListedByFindings(s, run, f, k);
  }

  // ----- a stored summary stays right

  /** Once closed, a request takes no further answer. */
  lemma {:induction false} ClosedTakesNothing(s: Scope, rows: seq<Row>, n: nat, k: nat)
    requires n <= |rows| && k < |Online(s, rows[..n])| && Online(s, rows[..n])[k].closed != MAX_ID
    ensures k < |Online(s, rows)| && Online(s, rows)[k].closed != MAX_ID
    ensures Online(s, rows)[k].answers == Online(s, rows[..n])[k].answers
    ensures Online(s, rows)[k].rowId == Online(s, rows[..n])[k].rowId
  {
    if n == |rows| {
      assert rows[..n] == rows;
    } else {
      var init, r := rows[..|rows| - 1], rows[|rows| - 1];
      assert init[..n] == rows[..n];
      ClosedTakesNothing(s, init, n, k);
      if r.IsAnswerOf(s.tenants) {
        NotInWindow(Online(s, init), IsOpen, IdAnswer(r.id, r.content.answer), Count(r.content.answer.meters, s.meter), k);
      }
    }
  }

  lemma SameAnswersAfterClose(s: Scope, rows: seq<Row>, n: nat, rowId: int, i: nat)
    requires ValidRows(rows) && OneSummaryPerRun(rows) && 0 < n < |rows| && i < n && rows[i].id == rowId
    requires rows[i].IsRun() && rows[n].IsSummary() && rows[n].content.summary.runId == rows[i].content.run.runId
    ensures Belonging(TwoPass(s, rows), rowId).0 == Belonging(TwoPass(s, rows[..n]), rowId).0
  {
    var snap := rows[..n];
    ValidPrefix(rows, n);
    TwoPassAscends(s, rows);
    TwoPassAscends(s, snap);
    var x, z := TwoPass(s, snap), TwoPass(s, rows);
    if k :| 0 <= k < |x| && x[k].rowId == rowId {
      RequestOfRow(s, snap, i, k);
      RequestStays(s, rows, n, k);
      BelongingAt(x, k);
      BelongingAt(z, k);
    } else {
      BelongingNone(x, rowId);
      NoRequestLater(s, rows, n, rowId);
      BelongingNone(z, rowId);
    }
  }

  /** The summary in row `n` closes the request for good. */
  lemma RequestStays(s: Scope, rows: seq<Row>, n: nat, k: nat)
    requires ValidRows(rows) && OneSummaryPerRun(rows) && n < |rows| && rows[n].IsSummary()
    requires k < |TwoPass(s, rows[..n])| && TwoPass(s, rows[..n])[k].runId == rows[n].content.summary.runId
    ensures k < |TwoPass(s, rows)|
    ensures TwoPass(s, rows)[k].rowId == TwoPass(s, rows[..n])[k].rowId
    ensures TwoPass(s, rows)[k].answers == TwoPass(s, rows[..n])[k].answers
  {
    ValidPrefix(rows, n);
    TwoPassRefinesOnline(s, rows[..n]);
    TwoPassRefinesOnline(s, rows);
    SummaryCloses(s, rows, n);
    ClosedTakesNothing(s, rows, n + 1, k);
  }

  lemma SummaryCloses(s: Scope, rows: seq<Row>, n: nat)
    requires n < |rows| && rows[n].IsSummary()
    ensures Online(s, rows[..n + 1]) == CloseRun(Online(s, rows[..n]), rows[n].content.summary.runId, rows[n].id)
  {
    assert rows[..n + 1][..n] == rows[..n] && rows[..n + 1][n] == rows[n];
  }

  lemma NoRequestLater(s: Scope, rows: seq<Row>, n: nat, rowId: int)
    requires ValidRows(rows) && OneSummaryPerRun(rows) && 0 < n <= |rows| && rowId <= rows[n - 1].id
    requires forall q <- TwoPass(s, rows[..n]) :: q.rowId != rowId
    ensures forall q <- TwoPass(s, rows) :: q.rowId != rowId
  {
    PrefixStable(s, rows, n);
    var x, z := TwoPass(s, rows[..n]), TwoPass(s, rows);
    forall k | 0 <= k < |z|
      ensures z[k].rowId != rowId
    {
      if k < |x| {
        assert x[k] in x;
      }
    }
  }

  /** The request in the row of a run carries its run id. */
  lemma RequestOfRow(s: Scope, rows: seq<Row>, i: nat, k: nat)
    requires ValidRows(rows) && i < |rows| && rows[i].IsRun() && k < |TwoPass(s, rows)|
    requires TwoPass(s, rows)[k].rowId == rows[i].id
    ensures TwoPass(s, rows)[k].runId == rows[i].content.run.runId
  {
    var j, e := RequestsAreRuns(s, rows, k);
    assert rows[i].id == rows[j].id;
  }

  /** If no row lies between the rows a summary was evaluated on and the summary, every longer log evaluates the run to
      the same accepted and rejected metering points. */
  lemma StoredSummaryStaysRight(cal: Calendar, tenants: set<string>, rows: seq<Row>, n: nat, i: nat, s: Summary, t: Summary)
    requires ValidRows(rows) && OneSummaryPerRun(rows) && i < n < |rows| && rows[i].IsRun()
    requires rows[n].IsSummary() && rows[n].content.summary.runId == rows[i].content.run.runId
    requires var run := rows[i].content.run;
             && IsSummaryOf(s, run, run.meters, FindingsOf(cal, run.ecId, tenants, rows[..n], rows[i].id))
             && IsSummaryOf(t, run, run.meters, FindingsOf(cal, run.ecId, tenants, rows, rows[i].id))
    ensures t.accepted == s.accepted && t.rejected == s.rejected
  {
    var run := rows[i].content.run;
    var f, g := FindingsOf(cal, run.ecId, tenants, rows[..n], rows[i].id), FindingsOf(cal, run.ecId, tenants, rows, rows[i].id);
    forall m
      ensures f(m).0 == g(m).0
    {
      SameAnswersAfterClose(Scope(cal, run.ecId, tenants, m), rows, n, rows[i].id, i);
    }
    SelectSame(run.meters, f, g, Accepted);
    SelectSame(run.meters, f, g, Refused);
  }

  lemma {:induction false} SelectSame(meters: seq<MeterRange>, f: Findings, g: Findings, o: Outcome)
    requires (forall m :: f(m).0 == g(m).0) && (o == Accepted || o == Refused)
    ensures Select(meters, f, o) == Select(meters, g, o)
  {
    if meters != [] {
      SelectSame(meters[..|meters| - 1], f, g, o);
    }
  }
}
