/** What a check closes, said of the rows it read. */
module CheckedRows {
  import opened Wrappers
  import opened EnergyTypes
  import opened AttributionSpec
  import opened AttributionOnline
  import opened AttributionWindows
  import opened Attribution
  import opened Belongings
  import opened Evaluation
  import opened Locks
  import opened Checking

  /** A run row that gets a summary and has none in the rows. */
  predicate IsUnclosed(rows: seq<Row>, r: Row) {
    && r.rowType == RunRow && r.content.Run? && !r.content.run.noSummary
    && forall c <- rows :: !IsClosingOf(c, r.content.run.runId)
  }

  /** Row `l` is the first unclosed run of the community of run row `i`. */
  predicate Leads(rows: seq<Row>, l: nat, i: nat)
    requires l < |rows| && i < |rows| && rows[i].content.Run?
  {
    && IsUnclosed(rows, rows[l]) && EqualFold(rows[l].content.run.ecId, rows[i].content.run.ecId)
    && forall j :: 0 <= j < l && IsUnclosed(rows, rows[j]) ==> !EqualFold(rows[j].content.run.ecId, rows[i].content.run.ecId)
  }

  /** The tenant of the run and those the database names for its community. */
  ghost predicate IsCommunityOf(tenants: set<string>, r: Row, tenantsOf: Tenants)
    requires r.content.Run?
  {
    var named := tenantsOf(r.content.run.ecId);
    forall t :: t in tenants <==> t == r.tenant || (named.Some? && t in named.value)
  }

  /** 24 hours old, or each metering point has an answer or was requested again (there is none for a tenant that is not of the
      community). */
  ghost predicate IsDue(cal: Calendar, tenants: set<string>, rows: seq<Row>, r: Row, now: int)
    requires r.content.Run?
  {
    || now - r.content.run.createdAt >= 24 * 3_600_000
    || forall e <- r.content.run.meters ::
         var m := Scope(cal, r.content.run.ecId, tenants, e.meter);
         r.tenant in tenants && ((exists x <- rows :: BelongsTo(m, rows, x, r.id)) || exists y <- rows :: Repeats(m, y, r.id, e))
  }

  /** The attempt closes the run in row `i`: with the summary that tells the rows, by the tenants of the first unclosed run
      of its community. */
  ghost predicate ClosesRow(a: Attempt, cal: Calendar, rows: seq<Row>, tenantsOf: Tenants, now: int, i: nat, l: nat,
                            tenants: set<string>)
    requires i < |rows| && l < |rows|
  {
    && IsUnclosed(rows, rows[i]) && a.rowId == rows[i].id && a.tenant == rows[i].tenant
    && Leads(rows, l, i) && IsCommunityOf(tenants, rows[l], tenantsOf)
    && IsDue(cal, tenants, rows, rows[i], now)
    && if rows[i].tenant in tenants then TellsRows(a.summary, cal, tenants, rows, i)
       else forall e <- rows[i].content.run.meters :: ListedUnanswered(a.summary, e, false)
  }

  lemma ConsideredIsUnclosed(rows: seq<Row>, r: Row)
    ensures IsConsidered(r, Summaries(rows)) <==> IsUnclosed(rows, r)
  {
    if r.content.Run? {
      ClosedIffClosing(rows, r.content.run.runId);
    }
  }

  lemma {:induction false} LeadIsFirst(rows: seq<Row>, closed: map<string, int>, n: nat, key: string) returns (l: nat)
    requires n <= |rows| && Lead(rows[..n], closed, key).Some?
    ensures l < n && rows[l] == Lead(rows[..n], closed, key).value && IsConsidered(rows[l], closed)
    ensures forall j :: 0 <= j < l && IsConsidered(rows[j], closed) ==> CommunityKey(rows[j]) != key
  {
    LeadStep(rows, closed, n - 1, key);
    if Lead(rows[..n - 1], closed, key).Some? {
      l := LeadIsFirst(rows, closed, n - 1, key);
    } else {
      l := n - 1;
      NoLeadBefore(rows, closed, n - 1, key);
    }
  }

  lemma {:induction false} NoLeadBefore(rows: seq<Row>, closed: map<string, int>, n: nat, key: string)
    requires n <= |rows| && Lead(rows[..n], closed, key).None?
    ensures forall j :: 0 <= j < n && IsConsidered(rows[j], closed) ==> CommunityKey(rows[j]) != key
  {
    if n > 0 {
      LeadStep(rows, closed, n - 1, key);
      NoLeadBefore(rows, closed, n - 1, key);
    }
  }

  /** The leading run of the community of a considered row. */
  lemma LeadOf(rows: seq<Row>, i: nat) returns (l: nat)
    requires i < |rows| && IsUnclosed(rows, rows[i])
    ensures var lead := Lead(rows[..i + 1], Summaries(rows), CommunityKey(rows[i]));
            lead.Some? && l < |rows| && rows[l] == lead.value && Leads(rows, l, i)
  {
    var closed, key := Summaries(rows), CommunityKey(rows[i]);
    ConsideredIsUnclosed(rows, rows[i]);
    LeadStep(rows, closed, i, key);
    l := LeadIsFirst(rows, closed, i + 1, key);
    forall j | 0 <= j <= l
      ensures IsConsidered(rows[j], closed) <==> IsUnclosed(rows, rows[j])
    {
      ConsideredIsUnclosed(rows, rows[j]);
    }
  }

  lemma {:induction false} SelectAlike(meters: seq<MeterRange>, f: Findings, g: Findings, o: Outcome)
    requires forall m :: f(m) == g(m)
    ensures Select(meters, f, o) == Select(meters, g, o)
  {
    if meters != [] {
      SelectAlike(meters[..|meters| - 1], f, g, o);
    }
  }

  lemma SummaryAlike(s: Summary, run: RunData, f: Findings, g: Findings)
    requires IsSummaryOf(s, run, run.meters, f) && forall m :: f(m) == g(m)
    ensures IsSummaryOf(s, run, run.meters, g)
  {
    SelectAlike(run.meters, f, g, Accepted);
    SelectAlike(run.meters, f, g, Refused);
    SelectAlike(run.meters, f, g, NoAnswer);
    SelectAlike(run.meters, f, g, Superseded);
    assert Refusals(Select(run.meters, f, Refused), f) == Refusals(Select(run.meters, g, Refused), g);
  }

  /** The summary by the spelling of the leading run is that by the run's own. */
  lemma SummaryOwnSpelling(s: Summary, cal: Calendar, rows: seq<Row>, tenants: set<string>, lead: Row, r: Row)
    requires lead.IsRun() && r.IsRun() && EqualFold(lead.content.run.ecId, r.content.run.ecId)
    requires var run := r.content.run; IsSummaryOf(s, run, run.meters, FindingsOf(cal, lead.content.run.ecId, tenants, rows, r.id))
    ensures var run := r.content.run; IsSummaryOf(s, run, run.meters, FindingsOf(cal, run.ecId, tenants, rows, r.id))
  {
    var f, g := FindingsOf(cal, lead.content.run.ecId, tenants, rows, r.id),
      FindingsOf(cal, r.content.run.ecId, tenants, rows, r.id);
    forall m
      ensures f(m) == g(m)
    {
      OpenedFoldAlike(cal, lead.content.run.ecId, r.content.run.ecId, tenants, m, rows);
    }
    SummaryAlike(s, r.content.run, f, g);
  }

  /** A summary without an unanswered metering point is one where each has an answer or was requested again. */
  lemma DueIffAnswered(s: Summary, cal: Calendar, tenants: set<string>, rows: seq<Row>, i: nat, now: int)
    requires ValidRows(rows) && i < |rows| && rows[i].content.Run? && TellsRows(s, cal, tenants, rows, i)
             && rows[i].tenant in tenants
    requires forall m <- s.noAnswer :: exists e <- rows[i].content.run.meters :: e.meter == m
    ensures s.noAnswer == [] || now - rows[i].content.run.createdAt >= 24 * 3_600_000 <==> IsDue(cal, tenants, rows, rows[i], now)
  {
    var run, id := rows[i].content.run, rows[i].id;
    forall e | e in run.meters
      ensures var m := Scope(cal, run.ecId, tenants, e.meter);
              e.meter !in s.noAnswer <==>
              (exists x <- rows :: BelongsTo(m, rows, x, id)) || exists y <- rows :: Repeats(m, y, id, e)
    {
      EntryAnswered(s, Scope(cal, run.ecId, tenants, e.meter), rows, id, e);
    }
    if s.noAnswer != [] {
      assert s.noAnswer[0] in s.noAnswer;
    }
  }

  lemma EntryAnswered(s: Summary, m: Scope, rows: seq<Row>, id: int, e: MeterRange)
    requires AscendingIds(rows) && TellsEntry(s, m, rows, id, e)
    ensures e.meter !in s.noAnswer <==> (exists x <- rows :: BelongsTo(m, rows, x, id)) || exists y <- rows :: Repeats(m, y, id, e)
  {
    LastDecides(m, rows, id);
  }

  lemma UnansweredNames(s: Summary, run: RunData, f: Findings)
    requires IsSummaryOf(s, run, run.meters, f)
    ensures forall m <- s.noAnswer :: exists e <- run.meters :: e.meter == m
  {
    var left := Select(run.meters, f, NoAnswer);
    forall k | 0 <= k < |left|
      ensures left[k] in run.meters
    {
      SelectMembers(run.meters, f, NoAnswer, left[k]);
    }
  }

  /** The summary of an unclosed row, and when it is due. */
  lemma SummaryOfUnclosed(cal: Calendar, rows: seq<Row>, tenants: set<string>, now: int, i: nat, lead: Row, s: Summary)
    requires ValidRows(rows) && i < |rows| && IsUnclosed(rows, rows[i]) && rows[i].tenant in tenants
    requires lead.IsRun() && EqualFold(lead.content.run.ecId, rows[i].content.run.ecId)
    requires var run := rows[i].content.run;
             IsSummaryOf(s, run, run.meters, FindingsOf(cal, lead.content.run.ecId, tenants, rows, rows[i].id))
    ensures TellsRows(s, cal, tenants, rows, i)
    ensures s.noAnswer == [] || now - rows[i].content.run.createdAt >= 24 * 3_600_000 <==> IsDue(cal, tenants, rows, rows[i], now)
  {
    SummaryOwnSpelling(s, cal, rows, tenants, lead, rows[i]);
    SummaryTellsRows(s, cal, tenants, rows, i);
    UnansweredNames(s, rows[i].content.run, FindingsOf(cal, lead.content.run.ecId, tenants, rows, rows[i].id));
    DueIffAnswered(s, cal, tenants, rows, i, now);
  }

  lemma OutsiderOfUnclosed(cal: Calendar, rows: seq<Row>, tenants: set<string>, now: int, i: nat, lead: Row, s: Summary)
    requires ValidRows(rows) && i < |rows| && IsUnclosed(rows, rows[i]) && rows[i].tenant !in tenants && lead.IsRun()
    requires var run := rows[i].content.run;
             IsSummaryOf(s, run, run.meters, FindingsOf(cal, lead.content.run.ecId, tenants, rows, rows[i].id))
    ensures forall e <- rows[i].content.run.meters :: ListedUnanswered(s, e, false)
    ensures s.noAnswer == [] || now - rows[i].content.run.createdAt >= 24 * 3_600_000 <==> IsDue(cal, tenants, rows, rows[i], now)
  {
    var run := rows[i].content.run;
    forall e | e in run.meters
      ensures ListedUnanswered(s, e, false)
    {
      OutsiderIsUnanswered(s, cal, tenants, lead.content.run.ecId, rows, i, e);
    }
    UnansweredNames(s, run, FindingsOf(cal, lead.content.run.ecId, tenants, rows, rows[i].id));
    if s.noAnswer != [] {
      assert s.noAnswer[0] in s.noAnswer;
    }
    if run.meters != [] {
      assert run.meters[0] in run.meters;
    }
  }

  lemma DoneIsDue(run: RunData, f: Findings, now: int)
    ensures Done(run, f, now) <==> SummaryFor(run, f).noAnswer == [] || now - run.createdAt >= 24 * 3_600_000
  {
  }

  /** What the evaluation of an unclosed row says, and when it is due. */
  lemma AttemptTellsRow(cal: Calendar, rows: seq<Row>, tenantsOf: Tenants, now: int, i: nat, l: nat)
    requires ValidRows(rows) && i < |rows| && l < |rows| && IsUnclosed(rows, rows[i]) && Leads(rows, l, i)
    ensures var tenants := CommunityOf(rows[l], tenantsOf);
            var a := AttemptFor(cal, rows, tenantsOf, now, rows[l], rows[i]);
            && (a.Some? <==> IsDue(cal, tenants, rows, rows[i], now))
            && (a.Some? ==> ClosesRow(a.value, cal, rows, tenantsOf, now, i, l, tenants))
  {
    var tenants, run := CommunityOf(rows[l], tenantsOf), rows[i].content.run;
    var f := Found(cal, rows, tenantsOf, rows[l], rows[i]);
    DoneIsDue(run, f, now);
    if rows[i].tenant in tenants {
      SummaryOfUnclosed(cal, rows, tenants, now, i, rows[l], SummaryFor(run, f));
    } else {
      OutsiderOfUnclosed(cal, rows, tenants, now, i, rows[l], SummaryFor(run, f));
    }
  }

  predicate IsAttemptOf(decide: Decision, rows: seq<Row>, i: nat, a: Attempt)
    requires i < |rows| && rows[i].IsRun()
  {
    var lead := Lead(rows[..i + 1], Summaries(rows), CommunityKey(rows[i]));
    lead.Some? && decide(lead.value, rows[i]) == Some(a)
  }

  /** What a row adds to the attempts. */
  lemma AttemptsStep(decide: Decision, rows: seq<Row>, n: nat) returns (a: Option<Attempt>)
    requires 0 < n <= |rows|
    ensures Attempts(decide, rows, Summaries(rows), n) ==
            Attempts(decide, rows, Summaries(rows), n - 1) + if a.Some? then [a.value] else []
    ensures a.Some? ==> IsUnclosed(rows, rows[n - 1]) && IsAttemptOf(decide, rows, n - 1, a.value)
    ensures IsUnclosed(rows, rows[n - 1]) ==> forall x :: IsAttemptOf(decide, rows, n - 1, x) ==> a == Some(x)
  {
    ConsideredIsUnclosed(rows, rows[n - 1]);
    if IsUnclosed(rows, rows[n - 1]) {
      var l := LeadOf(rows, n - 1);
      a := decide(rows[l], rows[n - 1]);
    } else {
      a := None;
    }
  }

  lemma {:induction false} AttemptsMembers(decide: Decision, rows: seq<Row>, n: nat, a: Attempt)
    requires n <= |rows|
    ensures a in Attempts(decide, rows, Summaries(rows), n) <==>
            exists i :: 0 <= i < n && IsUnclosed(rows, rows[i]) && IsAttemptOf(decide, rows, i, a)
  {
    if n > 0 {
      AttemptsMembers(decide, rows, n - 1, a);
      var x := AttemptsStep(decide, rows, n);
    }
  }

  lemma {:induction false} AttemptsAscend(decide: Decision, rows: seq<Row>, n: nat)
    requires AscendingIds(rows) && n <= |rows|
    requires forall i :: 0 <= i < |rows| ==> forall lead :: decide(lead, rows[i]).Some? ==>
             decide(lead, rows[i]).value.rowId == rows[i].id
    ensures var all := Attempts(decide, rows, Summaries(rows), n);
            && (forall i, j :: 0 <= i < j < |all| ==> all[i].rowId < all[j].rowId)
            && forall i :: 0 <= i < |all| ==> n > 0 && all[i].rowId <= rows[n - 1].id
  {
    if n > 0 {
      AttemptsAscend(decide, rows, n - 1);
      var x := AttemptsStep(decide, rows, n);
    }
  }

  /** The attempt closes some row. */
  ghost predicate ClosesSome(a: Attempt, cal: Calendar, rows: seq<Row>, tenantsOf: Tenants, now: int) {
    exists i, l, tenants {:trigger ClosesRow(a, cal, rows, tenantsOf, now, i, l, tenants)} ::
      0 <= i < |rows| && 0 <= l < |rows| && ClosesRow(a, cal, rows, tenantsOf, now, i, l, tenants)
  }

  /** Attempted are exactly the unclosed runs that are due, each with the summary that tells the rows, in their order. */
  ghost predicate ClosesDue(attempts: seq<Attempt>, cal: Calendar, rows: seq<Row>, tenantsOf: Tenants, now: int) {
    && (forall a <- attempts :: ClosesSome(a, cal, rows, tenantsOf, now))
    && (forall i, l, tenants :: 0 <= i < |rows| && 0 <= l < |rows| && MustClose(cal, rows, tenantsOf, now, i, l, tenants) ==>
          exists a <- attempts :: a.rowId == rows[i].id)
    && (forall i, j :: 0 <= i < j < |attempts| ==> attempts[i].rowId < attempts[j].rowId)
  }

  ghost predicate MustClose(cal: Calendar, rows: seq<Row>, tenantsOf: Tenants, now: int, i: nat, l: nat, tenants: set<string>)
    requires i < |rows| && l < |rows|
  {
    && IsUnclosed(rows, rows[i]) && Leads(rows, l, i) && IsCommunityOf(tenants, rows[l], tenantsOf)
    && IsDue(cal, tenants, rows, rows[i], now)
  }

  lemma OneLead(rows: seq<Row>, i: nat, k: nat, l: nat)
    requires i < |rows| && k < |rows| && l < |rows| && rows[i].content.Run? && Leads(rows, k, i) && Leads(rows, l, i)
    ensures k == l
  {
  }

  lemma DueIsAttempted(cal: Calendar, rows: seq<Row>, tenantsOf: Tenants, now: int, i: nat, l: nat, tenants: set<string>)
    requires ValidRows(rows) && i < |rows| && l < |rows| && MustClose(cal, rows, tenantsOf, now, i, l, tenants)
    ensures exists a <- Attempts(Decide(cal, rows, tenantsOf, now), rows, Summaries(rows), |rows|) :: a.rowId == rows[i].id
  {
    var decide := Decide(cal, rows, tenantsOf, now);
    var k := LeadOf(rows, i);
    OneLead(rows, i, k, l);
    assert tenants == CommunityOf(rows[l], tenantsOf);
    AttemptTellsRow(cal, rows, tenantsOf, now, i, l);
    var a := AttemptFor(cal, rows, tenantsOf, now, rows[l], rows[i]).value;
    assert IsAttemptOf(decide, rows, i, a);
    AttemptsMembers(decide, rows, |rows|, a);
  }

  lemma AttemptIsFor(cal: Calendar, rows: seq<Row>, tenantsOf: Tenants, now: int, i: nat, a: Attempt) returns (l: nat)
    requires i < |rows| && IsUnclosed(rows, rows[i]) && IsAttemptOf(Decide(cal, rows, tenantsOf, now), rows, i, a)
    ensures l < |rows| && Leads(rows, l, i) && AttemptFor(cal, rows, tenantsOf, now, rows[l], rows[i]) == Some(a)
  {
    l := LeadOf(rows, i);
  }

  lemma AttemptClosesSome(cal: Calendar, rows: seq<Row>, tenantsOf: Tenants, now: int, a: Attempt)
    requires ValidRows(rows) && a in Attempts(Decide(cal, rows, tenantsOf, now), rows, Summaries(rows), |rows|)
    ensures ClosesSome(a, cal, rows, tenantsOf, now)
  {
    var decide := Decide(cal, rows, tenantsOf, now);
    AttemptsMembers(decide, rows, |rows|, a);
    var i :| 0 <= i < |rows| && IsUnclosed(rows, rows[i]) && IsAttemptOf(decide, rows, i, a);
    var l := AttemptIsFor(cal, rows, tenantsOf, now, i, a);
    AttemptTellsRow(cal, rows, tenantsOf, now, i, l);
    assert ClosesRow(a, cal, rows, tenantsOf, now, i, l, CommunityOf(rows[l], tenantsOf));
  }

  lemma DecidesItself(cal: Calendar, rows: seq<Row>, tenantsOf: Tenants, now: int, lead: Row, r: Row)
    ensures var a := Decide(cal, rows, tenantsOf, now)(lead, r); a.Some? ==> a.value.rowId == r.id
  {
  }

  /** The closings a check attempts on the rows it read. */
  lemma AttemptsTellRows(cal: Calendar, rows: seq<Row>, tenantsOf: Tenants, now: int)
    requires ValidRows(rows)
    ensures ClosesDue(Attempts(Decide(cal, rows, tenantsOf, now), rows, Summaries(rows), |rows|), cal, rows, tenantsOf, now)
  {
    var decide := Decide(cal, rows, tenantsOf, now);
    forall i, lead | 0 <= i < |rows|
      ensures decide(lead, rows[i]).Some? ==> decide(lead, rows[i]).value.rowId == rows[i].id
    {
      DecidesItself(cal, rows, tenantsOf, now, lead, rows[i]);
    }
    AttemptsAscend(decide, rows, |rows|);
    forall a | a in Attempts(decide, rows, Summaries(rows), |rows|)
      ensures ClosesSome(a, cal, rows, tenantsOf, now)
    {
      AttemptClosesSome(cal, rows, tenantsOf, now, a);
    }
    forall i, l, tenants | 0 <= i < |rows| && 0 <= l < |rows| && MustClose(cal, rows, tenantsOf, now, i, l, tenants)
      ensures exists a <- Attempts(decide, rows, Summaries(rows), |rows|) :: a.rowId == rows[i].id
    {
      DueIsAttempted(cal, rows, tenantsOf, now, i, l, tenants);
    }
  }
}
