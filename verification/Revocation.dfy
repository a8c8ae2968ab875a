/** Ending a participation: revocations by consent, answers to a deregistration, and the mails about them
    (database/meteringPointDao.go, eda/edaSubscription.go, eda/revokeAnswer.go). */
module Revocation {
  import opened Wrappers
  import opened EnergyTypes
  import opened Lifecycle

  /** A row of base.eeg. */
  datatype Eeg = Eeg(tenant: string, rcNumber: string)

  /** The consent id that migrated metering points carry. */
  const MIGRATION_CONSENT: string := "Migration"

  // ----- the search for the rows of a consent

  predicate InReceiver(eegs: seq<Eeg>, receiver: string, tenant: string) {
    exists g <- eegs :: g.tenant == tenant && (ToUpper(g.rcNumber) == receiver || ToUpper(g.tenant) == receiver)
  }

  /** Without a consent id any assigned row, else an assigned row without a real consent id. */
  predicate AssignedWithoutConsent(e: Entry, consentId: Option<string>) {
    e.flag == Assigned && (consentId.Some? ==> e.consentId == None || e.consentId == Some(MIGRATION_CONSENT))
  }

  function WithConsent(eegs: seq<Eeg>, receiver: string, consentId: string, meter: string): Entry -> bool {
    (e: Entry) => e.meter == meter && (receiver != "" ==> InReceiver(eegs, receiver, e.tenant)) && e.consentId == Some(consentId)
  }

  function WithoutConsent(eegs: seq<Eeg>, receiver: string, consentId: Option<string>, meter: string): Entry -> bool {
    (e: Entry) =>
      e.meter == meter && (receiver != "" ==> InReceiver(eegs, receiver, e.tenant)) && AssignedWithoutConsent(e, consentId)
  }

  /** The conditions in the order they are tried. */
  function Steps(eegs: seq<Eeg>, receiver: string, consentId: Option<string>, meter: string): seq<Entry -> bool> {
    (if consentId.Some? then [WithConsent(eegs, receiver, consentId.value, meter)] else []) +
    [WithoutConsent(eegs, receiver, consentId, meter)]
  }

  predicate Matches(rows: seq<Entry>, hit: Entry -> bool) {
    exists i :: 0 <= i < |rows| && hit(rows[i])
  }

  /** Step `k` is the first that finds a row. */
  predicate FirstMatch(rows: seq<Entry>, steps: seq<Entry -> bool>, k: nat) {
    k < |steps| && Matches(rows, steps[k]) && forall j :: 0 <= j < k ==> !Matches(rows, steps[j])
  }

  predicate IsTenantHit(rows: seq<Entry>, hit: Entry -> bool, tenant: string) {
    exists i :: 0 <= i < |rows| && hit(rows[i]) && rows[i].tenant == tenant
  }

  /** The tenant has an active row among those found. */
  predicate IsActiveHit(rows: seq<Entry>, hit: Entry -> bool, tenant: string) {
    exists i :: 0 <= i < |rows| && hit(rows[i]) && rows[i].tenant == tenant && rows[i].status == S_ACTIVE
  }

  /** The RC numbers of the tenants found, each once. */
  function RcNumbers(eegs: seq<Eeg>, rows: seq<Entry>, hit: Entry -> bool): set<string> {
    set g <- eegs | IsTenantHit(rows, hit, g.tenant) :: ToUpper(g.rcNumber)
  }

  datatype RevokedTenant = RevokedTenant(tenant: string, wasActive: bool)

  predicate Names(revoked: seq<RevokedTenant>, tenant: string) {
    exists r <- revoked :: r.tenant == tenant
  }

  /** Each tenant found once, with whether its participation ends. */
  ghost predicate AreRevoked(rows: seq<Entry>, hit: Entry -> bool, revoked: seq<RevokedTenant>) {
    && (forall i, j :: 0 <= i < j < |revoked| ==> revoked[i].tenant != revoked[j].tenant)
    && (forall r <- revoked :: r.wasActive <==> IsActiveHit(rows, hit, r.tenant))
    && (forall t :: Names(revoked, t) <==> IsTenantHit(rows, hit, t))
  }

  /** The place of a tenant in the list. */
  method IndexOf(revoked: seq<RevokedTenant>, tenant: string) returns (k: nat)
    ensures k <= |revoked| && (k < |revoked| ==> revoked[k].tenant == tenant)
    ensures k == |revoked| ==> !Names(revoked, tenant)
  {
    k := 0;
    while k < |revoked| && revoked[k].tenant != tenant
      invariant k <= |revoked| && forall j :: 0 <= j < k ==> revoked[j].tenant != tenant
    {
      k := k + 1;
    }
  }

  lemma HitsSnoc(rows: seq<Entry>, e: Entry, hit: Entry -> bool, t: string)
    ensures IsTenantHit(rows + [e], hit, t) <==> IsTenantHit(rows, hit, t) || (hit(e) && e.tenant == t)
    ensures IsActiveHit(rows + [e], hit, t) <==> IsActiveHit(rows, hit, t) || (hit(e) && e.tenant == t && e.status == S_ACTIVE)
  {
    var next := rows + [e];
    assert forall j :: 0 <= j < |rows| ==> next[j] == rows[j];
    assert next[|rows|] == e;
  }

  /** The list after one more row. */
  function Counted(revoked: seq<RevokedTenant>, e: Entry, k: nat): seq<RevokedTenant>
    requires k <= |revoked|
  {
    var active := e.status == S_ACTIVE;
    if k < |revoked| then revoked[k := revoked[k].(wasActive := revoked[k].wasActive || active)]
    else revoked + [RevokedTenant(e.tenant, active)]
  }

  lemma CountedNames(revoked: seq<RevokedTenant>, e: Entry, k: nat, t: string)
    requires k <= |revoked| && (k < |revoked| ==> revoked[k].tenant == e.tenant)
    ensures Names(Counted(revoked, e, k), t) <==> Names(revoked, t) || e.tenant == t
  {
    var next := Counted(revoked, e, k);
    assert next[k].tenant == e.tenant && next[k] in next;
    forall j | 0 <= j < |revoked|
      ensures next[j].tenant == revoked[j].tenant && next[j] in next && revoked[j] in revoked
    {
    }
    assert forall r <- next :: r.tenant == e.tenant || r in revoked;
  }

  lemma RevokedSnoc(rows: seq<Entry>, e: Entry, hit: Entry -> bool, revoked: seq<RevokedTenant>, k: nat)
    requires AreRevoked(rows, hit, revoked) && hit(e) && k <= |revoked|
    requires if k < |revoked| then revoked[k].tenant == e.tenant else !Names(revoked, e.tenant)
    ensures AreRevoked(rows + [e], hit, Counted(revoked, e, k))
  {
    var next := Counted(revoked, e, k);
    forall t
      ensures Names(next, t) <==> IsTenantHit(rows + [e], hit, t)
    {
      HitsSnoc(rows, e, hit, t);
      CountedNames(revoked, e, k, t);
    }
    forall j | 0 <= j < |next|
      ensures next[j].wasActive <==> IsActiveHit(rows + [e], hit, next[j].tenant)
    {
      HitsSnoc(rows, e, hit, next[j].tenant);
      if j < |revoked| {
        assert revoked[j] in revoked && next[j].tenant == revoked[j].tenant;
        assert j != k ==> revoked[j].tenant != e.tenant || k == |revoked|;
      } else {
        assert !IsTenantHit(rows, hit, e.tenant);
      }
    }
    forall i, j | 0 <= i < j < |next|
      ensures next[i].tenant != next[j].tenant
    {
      assert revoked[i] in revoked;
    }
  }

  lemma RevokedSkip(rows: seq<Entry>, e: Entry, hit: Entry -> bool, revoked: seq<RevokedTenant>)
    requires AreRevoked(rows, hit, revoked) && !hit(e)
    ensures AreRevoked(rows + [e], hit, revoked)
  {
    forall t
      ensures Names(revoked, t) <==> IsTenantHit(rows + [e], hit, t)
      ensures IsActiveHit(rows + [e], hit, t) <==> IsActiveHit(rows, hit, t)
    {
      HitsSnoc(rows, e, hit, t);
    }
  }

  /** The tenants of the rows found, each once. */
  method CollectTenants(rows: seq<Entry>, hit: Entry -> bool) returns (revoked: seq<RevokedTenant>)
    ensures AreRevoked(rows, hit, revoked) && (revoked != [] <==> Matches(rows, hit))
  {
    revoked := [];
    for i := 0 to |rows|
      invariant AreRevoked(rows[..i], hit, revoked)
    {
      var r := rows[i];
      assert rows[..i + 1] == rows[..i] + [r];
      if hit(r) {
        var k := IndexOf(revoked, r.tenant);
        RevokedSnoc(rows[..i], r, hit, revoked, k);
        ghost var next := Counted(revoked, r, k);
        if k == |revoked| {
          revoked := revoked + [RevokedTenant(r.tenant, false)];
        }
        if r.status == S_ACTIVE {
          revoked := revoked[k := revoked[k].(wasActive := true)];
        }
        assert revoked == next;
      } else {
        RevokedSkip(rows[..i], r, hit, revoked);
      }
    }
    assert rows[..|rows|] == rows;
    assert revoked != [] ==> revoked[0] in revoked && Names(revoked, revoked[0].tenant);
    if i :| 0 <= i < |rows| && hit(rows[i]) {
      assert IsTenantHit(rows, hit, rows[i].tenant);
    }
  }

  /** All rows found belong to one RC number. */
  predicate OneRc(eegs: seq<Eeg>, rows: seq<Entry>, hit: Entry -> bool) {
    |RcNumbers(eegs, rows, hit)| == 1
  }

  predicate Decides(eegs: seq<Eeg>, rows: seq<Entry>, steps: seq<Entry -> bool>, k: nat) {
    FirstMatch(rows, steps, k) && OneRc(eegs, rows, steps[k])
  }

  /** The first step that finds rows decides: with one RC number they change together, else nothing does. */
  ghost predicate EndsByConsent(eegs: seq<Eeg>, receiver: string, consentId: Option<string>, meter: string, end: int, at: int,
                                before: seq<Entry>, after: seq<Entry>)
  {
    var steps := Steps(eegs, receiver, consentId, meter);
    && |after| == |before|
    && ((forall k: nat :: !Decides(eegs, before, steps, k)) ==> after == before)
    && forall k: nat :: Decides(eegs, before, steps, k) ==>
         forall i :: 0 <= i < |after| ==> after[i] == Apply(RevokeConsentOf(steps[k], end, at), before[i])
  }

  // ----- what the search means, said of the rows

  /** An entry of the metering point; with a receiver, of a tenant whose RC number or name the receiver is. */
  predicate Concerns(eegs: seq<Eeg>, receiver: string, meter: string, e: Entry) {
    && e.meter == meter
    && (receiver != "" ==>
          exists g <- eegs :: g.tenant == e.tenant && (ToUpper(g.rcNumber) == receiver || ToUpper(g.tenant) == receiver))
  }

  /** Some entry carries the consent of the message. */
  predicate ConsentIsKnown(eegs: seq<Eeg>, receiver: string, consentId: Option<string>, meter: string, rows: seq<Entry>) {
    consentId.Some? && exists x <- rows :: Concerns(eegs, receiver, meter, x) && x.consentId == consentId
  }

  /** The entries a revocation means: those that carry its consent; if there is none, the assigned ones without a consent or
      with the migration consent, all assigned ones for a message without consent. */
  predicate IsMeant(eegs: seq<Eeg>, receiver: string, consentId: Option<string>, meter: string, rows: seq<Entry>, e: Entry) {
    Concerns(eegs, receiver, meter, e) &&
    if ConsentIsKnown(eegs, receiver, consentId, meter, rows) then e.consentId == consentId
    else e.flag == Assigned && (consentId.Some? ==> e.consentId == None || e.consentId == Some("Migration"))
  }

  predicate IsMeantTenant(eegs: seq<Eeg>, receiver: string, consentId: Option<string>, meter: string, rows: seq<Entry>,
                          tenant: string) {
    exists x <- rows :: IsMeant(eegs, receiver, consentId, meter, rows, x) && x.tenant == tenant
  }

  /** All tenants of the entries meant have the RC number of `g`. */
  predicate IsMeantRc(eegs: seq<Eeg>, receiver: string, consentId: Option<string>, meter: string, rows: seq<Entry>, g: Eeg) {
    && IsMeantTenant(eegs, receiver, consentId, meter, rows, g.tenant)
    && forall h <- eegs :: IsMeantTenant(eegs, receiver, consentId, meter, rows, h.tenant) ==>
       ToUpper(h.rcNumber) == ToUpper(g.rcNumber)
  }

  /** The tenants of the entries meant have one RC number. */
  predicate MeansOneRc(eegs: seq<Eeg>, receiver: string, consentId: Option<string>, meter: string, rows: seq<Entry>) {
    exists g <- eegs :: IsMeantRc(eegs, receiver, consentId, meter, rows, g)
  }

  /** The entry `f` is `e` after its end: no longer active; an end date becomes `end`; a process that was ACTIVE, or rejected
      on an entry with both dates, is INACTIVE, and the rejection is noted. */
  predicate IsEndOf(e: Entry, f: Entry, end: int, at: int) {
    var rejected := e.status != S_INIT && e.activeSince.Some? && e.inactiveSince.Some?
      && (e.process == INVALID || e.process == REJECTED);
    && f.status == (if e.status == S_INIT then S_INIT else S_INACTIVE)
    && f.inactiveSince == (if e.inactiveSince.Some? then Some(end) else None) && f.activeSince == e.activeSince
    && f.process == (if e.process == ACTIVE || rejected then INACTIVE else e.process)
    && f.lastProcess == (if rejected then Some(e.process) else e.lastProcess)
    && f.statusCode == e.statusCode && f.consentId == e.consentId && f.modified == Stamp(at, "EVU")
    && f.tenant == e.tenant && f.meter == e.meter && f.flag == e.flag
  }

  /** The entries meant end together if they have one RC number; no other entry changes, and none without it. */
  ghost predicate EndsMeant(eegs: seq<Eeg>, receiver: string, consentId: Option<string>, meter: string, end: int, at: int,
                            before: seq<Entry>, after: seq<Entry>)
  {
    && |after| == |before|
    && forall i :: 0 <= i < |before| ==>
         if MeansOneRc(eegs, receiver, consentId, meter, before) && IsMeant(eegs, receiver, consentId, meter, before, before[i])
         then IsEndOf(before[i], after[i], end, at) else after[i] == before[i]
  }

  /** The step that is tried for the rows. */
  function StepFor(eegs: seq<Eeg>, receiver: string, consentId: Option<string>, meter: string, rows: seq<Entry>): nat {
    if consentId.None? || Matches(rows, WithConsent(eegs, receiver, consentId.value, meter)) then 0 else 1
  }

  lemma ConsentMatches(eegs: seq<Eeg>, receiver: string, consentId: string, meter: string, rows: seq<Entry>)
    ensures Matches(rows, WithConsent(eegs, receiver, consentId, meter)) <==>
            ConsentIsKnown(eegs, receiver, Some(consentId), meter, rows)
  {
    var hit := WithConsent(eegs, receiver, consentId, meter);
    if i :| 0 <= i < |rows| && hit(rows[i]) {
      assert rows[i] in rows && Concerns(eegs, receiver, meter, rows[i]);
    }
    if x :| x in rows && Concerns(eegs, receiver, meter, x) && x.consentId == Some(consentId) {
      var i :| 0 <= i < |rows| && rows[i] == x;
      assert hit(rows[i]);
    }
  }

  lemma MeantIsFound(eegs: seq<Eeg>, receiver: string, consentId: Option<string>, meter: string, rows: seq<Entry>, e: Entry)
    ensures var steps, k := Steps(eegs, receiver, consentId, meter), StepFor(eegs, receiver, consentId, meter, rows);
            k < |steps| && (steps[k](e) <==> IsMeant(eegs, receiver, consentId, meter, rows, e))
  {
    if consentId.Some? {
      ConsentMatches(eegs, receiver, consentId.value, meter, rows);
    }
  }

  lemma StepIsFirst(eegs: seq<Eeg>, receiver: string, consentId: Option<string>, meter: string, rows: seq<Entry>)
    ensures var steps, k := Steps(eegs, receiver, consentId, meter), StepFor(eegs, receiver, consentId, meter, rows);
            && k < |steps| && (forall j: nat :: FirstMatch(rows, steps, j) ==> j == k)
            && (Matches(rows, steps[k]) ==> FirstMatch(rows, steps, k))
  {
    var steps := Steps(eegs, receiver, consentId, meter);
    if consentId.Some? {
      assert |steps| == 2 && steps[0] == WithConsent(eegs, receiver, consentId.value, meter);
      assert forall j: nat :: FirstMatch(rows, steps, j) && j > 0 ==> !Matches(rows, steps[0]);
    } else {
      assert |steps| == 1;
    }
  }

  lemma MeantAreFound(eegs: seq<Eeg>, receiver: string, consentId: Option<string>, meter: string, rows: seq<Entry>)
    ensures var steps, k := Steps(eegs, receiver, consentId, meter), StepFor(eegs, receiver, consentId, meter, rows);
            && k < |steps| && (forall e :: steps[k](e) <==> IsMeant(eegs, receiver, consentId, meter, rows, e))
            && (forall j: nat :: FirstMatch(rows, steps, j) ==> j == k)
            && (Matches(rows, steps[k]) ==> FirstMatch(rows, steps, k))
  {
    StepIsFirst(eegs, receiver, consentId, meter, rows);
    forall e {
      MeantIsFound(eegs, receiver, consentId, meter, rows, e);
    }
  }

  /** The RC number of a community whose tenant has an entry meant. */
  predicate IsRcOf(eegs: seq<Eeg>, rows: seq<Entry>, hit: Entry -> bool, g: Eeg) {
    g in eegs && IsTenantHit(rows, hit, g.tenant)
  }

  predicate IsSoleRc(eegs: seq<Eeg>, rows: seq<Entry>, hit: Entry -> bool, g: Eeg) {
    IsRcOf(eegs, rows, hit, g) && forall h <- eegs :: IsRcOf(eegs, rows, hit, h) ==> ToUpper(h.rcNumber) == ToUpper(g.rcNumber)
  }

  lemma OneRcIff(eegs: seq<Eeg>, rows: seq<Entry>, hit: Entry -> bool)
    ensures OneRc(eegs, rows, hit) <==> exists g <- eegs :: IsSoleRc(eegs, rows, hit, g)
  {
    var all := RcNumbers(eegs, rows, hit);
    if |all| == 1 {
      var g := SomeRc(eegs, rows, hit);
      forall h | h in eegs && IsRcOf(eegs, rows, hit, h)
        ensures ToUpper(h.rcNumber) == ToUpper(g.rcNumber)
      {
        OneElement(all, ToUpper(g.rcNumber), ToUpper(h.rcNumber));
      }
      assert IsSoleRc(eegs, rows, hit, g);
    }
    if g :| g in eegs && IsSoleRc(eegs, rows, hit, g) {
      OnlyRc(eegs, rows, hit, g);
    }
  }

  lemma SomeRc(eegs: seq<Eeg>, rows: seq<Entry>, hit: Entry -> bool) returns (g: Eeg)
    requires RcNumbers(eegs, rows, hit) != {}
    ensures IsRcOf(eegs, rows, hit, g)
  {
    var rc :| rc in RcNumbers(eegs, rows, hit);
    g :| g in eegs && IsTenantHit(rows, hit, g.tenant) && ToUpper(g.rcNumber) == rc;
  }

  lemma OnlyRc(eegs: seq<Eeg>, rows: seq<Entry>, hit: Entry -> bool, g: Eeg)
    requires IsRcOf(eegs, rows, hit, g)
    requires forall h <- eegs :: IsRcOf(eegs, rows, hit, h) ==> ToUpper(h.rcNumber) == ToUpper(g.rcNumber)
    ensures OneRc(eegs, rows, hit)
  {
    var all, rc := RcNumbers(eegs, rows, hit), ToUpper(g.rcNumber);
    forall x
      ensures x in all <==> x == rc
    {
      if x in all {
        var h :| h in eegs && IsTenantHit(rows, hit, h.tenant) && ToUpper(h.rcNumber) == x;
        assert IsRcOf(eegs, rows, hit, h);
      }
    }
    assert all == {rc};
  }

  lemma OneRcMeant(eegs: seq<Eeg>, receiver: string, consentId: Option<string>, meter: string, rows: seq<Entry>, hit: Entry -> bool)
    requires forall e :: hit(e) <==> IsMeant(eegs, receiver, consentId, meter, rows, e)
    ensures OneRc(eegs, rows, hit) <==> MeansOneRc(eegs, receiver, consentId, meter, rows)
  {
    OneRcIff(eegs, rows, hit);
    forall g | g in eegs
      ensures IsSoleRc(eegs, rows, hit, g) <==> IsMeantRc(eegs, receiver, consentId, meter, rows, g)
    {
      SoleRcMeant(eegs, receiver, consentId, meter, rows, hit, g);
    }
  }

  lemma SoleRcMeant(eegs: seq<Eeg>, receiver: string, consentId: Option<string>, meter: string, rows: seq<Entry>,
                    hit: Entry -> bool,
                    g: Eeg)
    requires (forall e :: hit(e) <==> IsMeant(eegs, receiver, consentId, meter, rows, e)) && g in eegs
    ensures IsSoleRc(eegs, rows, hit, g) <==> IsMeantRc(eegs, receiver, consentId, meter, rows, g)
  {
    forall h | h in eegs
      ensures IsRcOf(eegs, rows, hit, h) <==> IsMeantTenant(eegs, receiver, consentId, meter, rows, h.tenant)
    {
    }
  }

  lemma RevokedIsEnd(hit: Entry -> bool, end: int, at: int, e: Entry)
    ensures if hit(e) then IsEndOf(e, Apply(RevokeConsentOf(hit, end, at), e), end, at)
            else Apply(RevokeConsentOf(hit, end, at), e) == e
  {
  }

  /** The consent comes first: what the search ends are exactly the entries the revocation means. */
  lemma ConsentComesFirst(eegs: seq<Eeg>, receiver: string, consentId: Option<string>, meter: string, end: int, at: int,
                          before: seq<Entry>, after: seq<Entry>)
    requires EndsByConsent(eegs, receiver, consentId, meter, end, at, before, after)
    ensures EndsMeant(eegs, receiver, consentId, meter, end, at, before, after)
  {
    var steps, k := Steps(eegs, receiver, consentId, meter), StepFor(eegs, receiver, consentId, meter, before);
    MeantAreFound(eegs, receiver, consentId, meter, before);
    OneRcMeant(eegs, receiver, consentId, meter, before, steps[k]);
    if MeansOneRc(eegs, receiver, consentId, meter, before) {
      assert Decides(eegs, before, steps, k);
      forall i | 0 <= i < |before|
        ensures if IsMeant(eegs, receiver, consentId, meter, before, before[i]) then IsEndOf(before[i], after[i], end, at)
                else after[i] == before[i]
      {
        RevokedIsEnd(steps[k], end, at, before[i]);
      }
    }
  }

  /** The first step that finds rows decides: they change together, or nothing does. */
  method RevokeByConsentId(table: MeteringPoints, eegs: seq<Eeg>, receiver: string, consentId: Option<string>, meter: string,
                           end: int, at: int)
    returns (r: Option<seq<RevokedTenant>>)
    modifies table
    ensures EndsMeant(eegs, receiver, consentId, meter, end, at, old(table.rows), table.rows)
    ensures EndsByConsent(eegs, receiver, consentId, meter, end, at, old(table.rows), table.rows)
    ensures r.Some? <==> exists k: nat :: Decides(eegs, old(table.rows), Steps(eegs, receiver, consentId, meter), k)
    ensures forall k: nat :: Decides(eegs, old(table.rows), Steps(eegs, receiver, consentId, meter), k) ==>
              AreRevoked(old(table.rows), Steps(eegs, receiver, consentId, meter)[k], r.value)
  {
    var steps := Steps(eegs, receiver, consentId, meter);
    ghost var rows := table.rows;
    for k := 0 to |steps|
      invariant table.rows == rows && forall j :: 0 <= j < k ==> !Matches(rows, steps[j])
    {
      var revoked := CollectTenants(table.rows, steps[k]);
      if |revoked| > 0 {
        var rcNumbers := set g <- eegs | Names(revoked, g.tenant) :: ToUpper(g.rcNumber);
        assert rcNumbers == RcNumbers(eegs, rows, steps[k]);
        assert FirstMatch(rows, steps, k);
        assert forall j: nat :: FirstMatch(rows, steps, j) ==> j == k;
        if |rcNumbers| != 1 {
          assert forall j: nat :: !Decides(eegs, rows, steps, j);
          ConsentComesFirst(eegs, receiver, consentId, meter, end, at, rows, rows);
          return None;
        }
        assert Decides(eegs, rows, steps, k);
        var _ := table.Update(RevokeConsentOf(steps[k], end, at));
        ConsentComesFirst(eegs, receiver, consentId, meter, end, at, rows, table.rows);
        return Some(revoked);
      }
    }
    ConsentComesFirst(eegs, receiver, consentId, meter, end, at, rows, rows);
    r := None;
  }

  lemma OneElement(s: set<string>, x: string, y: string)
    requires |s| == 1 && x in s && y in s
    ensures x == y
  {
    assert |s - {x}| == 0;
    assert x != y ==> y in s - {x};
  }

  /** What a revocation by consent changed: entries of the metering point and, with a receiver, of the receiver's tenants, all
      of one RC number; if some entry carries the consent only such that carry it, else none with another real consent. */
  lemma ChangesWithinOneRc(eegs: seq<Eeg>, receiver: string, consentId: Option<string>, meter: string, end: int, at: int,
                           before: seq<Entry>, after: seq<Entry>, i: nat, j: nat)
    requires EndsMeant(eegs, receiver, consentId, meter, end, at, before, after)
    requires i < |before| && after[i] != before[i] && j < |before| && after[j] != before[j]
    ensures before[i].meter == meter && (receiver != "" ==> InReceiver(eegs, receiver, before[i].tenant))
    ensures forall g <- eegs, h <- eegs :: g.tenant == before[i].tenant && h.tenant == before[j].tenant ==>
              ToUpper(g.rcNumber) == ToUpper(h.rcNumber)
    ensures consentId.Some? && before[i].consentId.Some? && before[i].consentId != consentId ==>
              before[i].consentId == Some("Migration") && forall x <- before :: Concerns(eegs, receiver, meter, x) ==>
                x.consentId != consentId
  {
    assert before[i] in before && before[j] in before;
  }

  // ----- answers to a deregistration

  datatype RevCode = RequestEcho | RejectedRequest | ByMember | ByOperator | AnswerToRequest | OtherRevocation

  datatype RevMeter = RevMeter(meter: string, codes: seq<int>, consentEnd: int, consentId: Option<string>)

  /** A message of the revocation process; `element` is the metering point of its meter element. Times are milliseconds,
      0 for none. */
  datatype RevMessage = RevMessage(code: RevCode, responses: seq<RevMeter>, element: Option<string>, elementConsent: Option<string>,
                                   consentEnd: int, topic: string)

  /** The first metering point of the message. */
  function FirstMeter(m: RevMessage): Option<RevMeter> {
    if m.code == RequestEcho && m.element.Some? then Some(RevMeter(m.element.value, [99], m.consentEnd, m.elementConsent))
    else if m.code == RequestEcho || m.code == RejectedRequest then
      if m.responses == [] then
        if m.element.Some? then Some(RevMeter(m.element.value, [], m.consentEnd, m.elementConsent)) else None
      else
        var r := m.responses[0];
        Some(if r.meter == "" && m.element.Some? then r.(meter := m.element.value) else r)
    else if m.responses == [] then None else Some(m.responses[0])
  }

  /** The deregistration request in the history, under the conversation of the answer. */
  datatype Lookup = Failed | NotFound | Found(meter: Option<string>, consentEnd: int)

  /** The end the community asked for, else that of the answer, else today. */
  function InactiveSince(request: Lookup, meter: string, answerEnd: int, day: int -> int, today: int): int {
    if request.Found? && request.meter == Some(meter) && request.consentEnd != 0 then day(request.consentEnd)
    else if answerEnd != 0 then day(answerEnd) else today
  }

  predicate EndsParticipation(code: RevCode, codes: seq<int>) {
    (code == AnswerToRequest && 176 in codes) || (code == RejectedRequest && (177 in codes || 180 in codes))
  }

  predicate MailsMember(code: RevCode, codes: seq<int>) {
    code == AnswerToRequest && 176 in codes
  }

  /** An active row of the metering point ended between the two tables. */
  predicate Ends(before: seq<Entry>, after: seq<Entry>, tenant: string, meter: string) {
    |before| == |after| && exists i :: 0 <= i < |before| && IsRowOf(before[i], tenant, meter) && before[i].status == S_ACTIVE
                                       && after[i].status == S_INACTIVE
  }

  predicate IsRowOf(e: Entry, tenant: string, meter: string) {
    e.tenant == tenant && e.meter == meter
  }

  /** Changed rows are rows of this metering point, and none became active. */
  predicate OnlyEnds(before: seq<Entry>, after: seq<Entry>, meter: string) {
    && |before| == |after|
    && forall i :: 0 <= i < |before| ==>
         && (after[i] != before[i] ==> before[i].meter == meter && after[i].status != S_ACTIVE)
         && Evolves(before[i], after[i])
  }

  predicate AnswerEnds(e: Entry, tenant: string, meter: string, end: int) {
    IsAssigned(e, tenant, [meter]) && EndsActive(e, end)
  }

  /** What an answer does to one row. */
  lemma AnswerOnRow(e: Entry, tenant: string, meter: string, end: int, at: int)
    ensures var f := Apply(RevokeActiveOf(tenant, meter, end, at), e);
            && Evolves(e, f)
            && if AnswerEnds(e, tenant, meter, end)
               then IsRowOf(e, tenant, meter) && e.status == S_ACTIVE && f.status == S_INACTIVE
               else f == e
  {
    ApplyEvolves(RevokeActiveOf(tenant, meter, end, at), e);
  }

  lemma EndedByAnswer(rows: seq<Entry>, after: seq<Entry>, tenant: string, meter: string, end: int, at: int)
    requires |after| == |rows| && forall i :: 0 <= i < |rows| ==> after[i] == Apply(RevokeActiveOf(tenant, meter, end, at), rows[i])
    ensures OnlyEnds(rows, after, meter)
    ensures (exists e <- rows :: AnswerEnds(e, tenant, meter, end)) <==> Ends(rows, after, tenant, meter)
    ensures forall t :: t != tenant ==> !Ends(rows, after, t, meter)
  {
    forall i | 0 <= i < |rows|
      ensures Evolves(rows[i], after[i])
      ensures if AnswerEnds(rows[i], tenant, meter, end)
              then IsRowOf(rows[i], tenant, meter) && rows[i].status == S_ACTIVE && after[i].status == S_INACTIVE
              else after[i] == rows[i]
    {
      AnswerOnRow(rows[i], tenant, meter, end, at);
    }
    if e :| e in rows && AnswerEnds(e, tenant, meter, end) {
      var i :| 0 <= i < |rows| && rows[i] == e;
      assert IsRowOf(rows[i], tenant, meter);
    }
  }

  /** revokeAfterAnswer: `mail` when the confirmation ended an active participation. */
  method RevokeAfterAnswer(table: MeteringPoints, tenant: string, code: RevCode, m: RevMeter, request: Lookup, answerEnd: int,
                           day: int -> int, today: int, at: int)
    returns (mail: bool)
    modifies table
    ensures OnlyEnds(old(table.rows), table.rows, m.meter)
    ensures !EndsParticipation(code, m.codes) ==> table.rows == old(table.rows)
    ensures EndsParticipation(code, m.codes) ==> forall i :: 0 <= i < |table.rows| ==>
              table.rows[i] == Apply(RevokeActiveOf(tenant, m.meter,
                InactiveSince(request, m.meter, answerEnd, day, today), at), old(table.rows)[i])
    ensures mail <==> MailsMember(code, m.codes) && Ends(old(table.rows), table.rows, tenant, m.meter)
    ensures forall t :: t != tenant ==> !Ends(old(table.rows), table.rows, t, m.meter)
  {
    ghost var rows := table.rows;
    if !EndsParticipation(code, m.codes) {
      return false;
    }
    var end := InactiveSince(request, m.meter, answerEnd, day, today);
    var changed := table.RevokeActive(tenant, m.meter, end, at);
    EndedByAnswer(rows, table.rows, tenant, m.meter, end, at);
    mail := changed && MailsMember(code, m.codes);
  }

  // ----- the handler

  function ActiveTenants(revoked: seq<RevokedTenant>): (r: seq<string>)
    ensures forall t :: t in r <==> exists x <- revoked :: x.tenant == t && x.wasActive
  {
    if revoked == [] then []
    else
      var init, x := revoked[..|revoked| - 1], revoked[|revoked| - 1];
      assert revoked == init + [x];
      ActiveTenants(init) + if x.wasActive then [x.tenant] else []
  }

  predicate DistinctTenants(tenants: seq<string>) {
    forall i, j :: 0 <= i < j < |tenants| ==> tenants[i] != tenants[j]
  }

  lemma {:induction false} ActiveTenantsDistinct(revoked: seq<RevokedTenant>)
    requires forall i, j :: 0 <= i < j < |revoked| ==> revoked[i].tenant != revoked[j].tenant
    ensures DistinctTenants(ActiveTenants(revoked))
  {
    if revoked != [] {
      var init, last := revoked[..|revoked| - 1], revoked[|revoked| - 1];
      ActiveTenantsDistinct(init);
      forall t | t in ActiveTenants(init)
        ensures t != last.tenant
      {
        var x :| x in init && x.tenant == t && x.wasActive;
      }
      forall i | 0 <= i < |ActiveTenants(init)|
        ensures ActiveTenants(init)[i] != last.tenant
      {
        assert ActiveTenants(init)[i] in ActiveTenants(init);
      }
    }
  }

  lemma ConsentEnds(rows: seq<Entry>, after: seq<Entry>, hit: Entry -> bool, meter: string, end: int, at: int)
    requires |after| == |rows| && forall i :: 0 <= i < |rows| ==> after[i] == Apply(RevokeConsentOf(hit, end, at), rows[i])
    requires forall i :: 0 <= i < |rows| && hit(rows[i]) ==> rows[i].meter == meter
    ensures OnlyEnds(rows, after, meter)
    ensures forall t :: IsActiveHit(rows, hit, t) <==> Ends(rows, after, t, meter)
  {
    forall i | 0 <= i < |rows|
      ensures Evolves(rows[i], after[i])
    {
      ApplyEvolves(RevokeConsentOf(hit, end, at), rows[i]);
    }
    forall t
      ensures IsActiveHit(rows, hit, t) <==> Ends(rows, after, t, meter)
    {
      if i :| 0 <= i < |rows| && hit(rows[i]) && rows[i].tenant == t && rows[i].status == S_ACTIVE {
        assert IsRowOf(rows[i], t, meter) && after[i].status == S_INACTIVE;
      }
    }
  }

  lemma ConsentMails(rows: seq<Entry>, after: seq<Entry>, hit: Entry -> bool, meter: string, end: int, at: int,
                     revoked: seq<RevokedTenant>)
    requires AreRevoked(rows, hit, revoked)
    requires |after| == |rows| && forall i :: 0 <= i < |rows| ==> after[i] == Apply(RevokeConsentOf(hit, end, at), rows[i])
    requires forall i :: 0 <= i < |rows| && hit(rows[i]) ==> rows[i].meter == meter
    ensures OnlyEnds(rows, after, meter) && DistinctTenants(ActiveTenants(revoked))
    ensures forall t :: t in ActiveTenants(revoked) <==> Ends(rows, after, t, meter)
  {
    ConsentEnds(rows, after, hit, meter, end, at);
    ActiveTenantsDistinct(revoked);
    forall t
      ensures t in ActiveTenants(revoked) <==> IsActiveHit(rows, hit, t)
    {
      assert IsActiveHit(rows, hit, t) ==> IsTenantHit(rows, hit, t);
      assert IsActiveHit(rows, hit, t) ==> Names(revoked, t);
    }
  }

  lemma StepMeter(eegs: seq<Eeg>, receiver: string, consentId: Option<string>, meter: string, k: nat, e: Entry)
    requires k < |Steps(eegs, receiver, consentId, meter)| && Steps(eegs, receiver, consentId, meter)[k](e)
    ensures e.meter == meter
  {
  }

  lemma NobodyEnds(rows: seq<Entry>, meter: string)
    ensures OnlyEnds(rows, rows, meter) && forall t :: !Ends(rows, rows, t, meter)
  {
  }

  /** The revocation by grid operator or member. */
  method RevokeByConsent(table: MeteringPoints, eegs: seq<Eeg>, topic: string, m: RevMeter, end: int, at: int)
    returns (mails: seq<string>)
    modifies table
    ensures EndsMeant(eegs, ToUpper(topic), m.consentId, m.meter, end, at, old(table.rows), table.rows)
    ensures OnlyEnds(old(table.rows), table.rows, m.meter) && DistinctTenants(mails)
    ensures forall t :: t in mails <==> Ends(old(table.rows), table.rows, t, m.meter)
  {
    ghost var rows := table.rows;
    var receiver := ToUpper(topic);
    var revoked := RevokeByConsentId(table, eegs, receiver, m.consentId, m.meter, end, at);
    if revoked.None? {
      NobodyEnds(rows, m.meter);
      return [];
    }
    ghost var steps := Steps(eegs, receiver, m.consentId, m.meter);
    ghost var k: nat :| Decides(eegs, rows, steps, k);
    forall i | 0 <= i < |rows| && steps[k](rows[i])
      ensures rows[i].meter == m.meter
    {
      StepMeter(eegs, receiver, m.consentId, m.meter, k, rows[i]);
    }
    ConsentMails(rows, table.rows, steps[k], m.meter, end, at, revoked.value);
    mails := ActiveTenants(revoked.value);
  }

  /** What the handler finds when a message arrives: base.eeg, the tenant the community id and metering point lead to,
      whether the message came to its RC number, the request in the history, the calendar and the time. */
  datatype Arrival = Arrival(eegs: seq<Eeg>, eeg: Option<string>, received: bool, request: Lookup, day: int -> int, today: int,
                             at: int)

  /** The day on which the participation ends by the message. */
  function EndOf(a: Arrival, m: RevMessage, first: RevMeter): int {
    if m.code in {ByMember, ByOperator} then a.day(first.consentEnd)
    else InactiveSince(a.request, first.meter, m.consentEnd, a.day, a.today)
  }

  /** Which rows a message ends, and with which date: those of the consent; the active ones begun by then of the tenant, for
      an answer that ends the participation; none otherwise. */
  ghost predicate EndsRows(a: Arrival, m: RevMessage, before: seq<Entry>, after: seq<Entry>) {
    match FirstMeter(m)
    case None => after == before
    case Some(first) =>
      if m.code in {ByMember, ByOperator} then
        EndsMeant(a.eegs, ToUpper(m.topic), first.consentId, first.meter, EndOf(a, m, first), a.at, before, after)
      else if a.received && a.eeg.Some? && EndsParticipation(m.code, first.codes) then
        AllApplied(RevokeActiveOf(a.eeg.value, first.meter, EndOf(a, m, first), a.at), before, after)
      else after == before
  }

  ghost predicate AllApplied(ev: Event, before: seq<Entry>, after: seq<Entry>) {
    |after| == |before| && forall i :: 0 <= i < |after| ==> after[i] == Apply(ev, before[i])
  }

  /** What a revocation message does: it ends its rows and nothing else; the mails go to exactly the tenants with a row that
      ended, each once, and to nobody for a request or a rejection of it. */
  ghost predicate IsRevoked(a: Arrival, m: RevMessage, before: seq<Entry>, after: seq<Entry>, mails: seq<string>) {
    && EndsRows(a, m, before, after) && DistinctTenants(mails)
    && (m.code in {RequestEcho, OtherRevocation} || FirstMeter(m).None? ==> after == before && mails == [])
    && (FirstMeter(m).Some? ==> OnlyEnds(before, after, FirstMeter(m).value.meter))
    && (m.code == RejectedRequest ==> mails == [])
    && (m.code in {ByMember, ByOperator, AnswerToRequest} && FirstMeter(m).Some? ==>
          forall t :: t in mails <==> Ends(before, after, t, FirstMeter(m).value.meter))
  }

  // ----- what a message means, said of the message and the rows

  /** The day the deregistration asked for, if it was found for the metering point and names one, else that of the answer,
      else today. */
  predicate IsAskedEnd(a: Arrival, m: RevMessage, meter: string, end: int) {
    if a.request.Found? && a.request.meter == Some(meter) && a.request.consentEnd != 0 then end == a.day(a.request.consentEnd)
    else end == if m.consentEnd != 0 then a.day(m.consentEnd) else a.today
  }

  /** Exactly the tenant's assigned active entries of the metering point that began by then end on the day. */
  predicate EndsBegun(tenant: string, meter: string, end: int, at: int, before: seq<Entry>, after: seq<Entry>) {
    && |after| == |before|
    && forall i :: 0 <= i < |before| ==>
         var e := before[i];
         after[i] == if e.tenant == tenant && e.meter == meter && e.flag == Assigned && e.status == S_ACTIVE &&
                        (e.activeSince.Some? ==> e.activeSince.value <= end)
                     then e.(status := S_INACTIVE, process := INACTIVE, inactiveSince := Some(end), modified := Stamp(at, "EVU"))
                     else e
  }

  /** An answer that came to its community's RC number; with one of the codes it ends the participation. */
  ghost predicate EndsByAnswer(a: Arrival, m: RevMessage, codes: set<int>, meter: string, before: seq<Entry>, after: seq<Entry>) {
    if m.responses != [] && a.received && a.eeg.Some? && exists c <- m.responses[0].codes :: c in codes
    then exists end :: IsAskedEnd(a, m, meter, end) && EndsBegun(a.eeg.value, meter, end, a.at, before, after)
    else after == before
  }

  /** Exactly the tenants with an entry of the metering point that was active and is inactive now get the mail. */
  ghost predicate MailsEnded(meter: string, before: seq<Entry>, after: seq<Entry>, mails: seq<string>) {
    && |after| == |before|
    && forall t :: t in mails <==>
         exists i :: 0 <= i < |before| && before[i].tenant == t && before[i].meter == meter &&
                     before[i].status == S_ACTIVE && after[i].status == S_INACTIVE
  }

  ghost predicate IsMeaning(a: Arrival, m: RevMessage, before: seq<Entry>, after: seq<Entry>, mails: seq<string>) {
    match m.code
    case RequestEcho => after == before && mails == []
    case OtherRevocation => after == before && mails == []
    case AnswerToRequest =>
      if m.responses == [] then after == before && mails == []
      else EndsByAnswer(a, m, {176}, m.responses[0].meter, before, after) && MailsEnded(m.responses[0].meter, before, after, mails)
    case RejectedRequest =>
      && mails == []
      && if m.responses == [] then after == before
         else
           var meter := if m.responses[0].meter == "" && m.element.Some? then m.element.value else m.responses[0].meter;
           EndsByAnswer(a, m, {177, 180}, meter, before, after)
    case _ =>
      if m.responses == [] then after == before && mails == []
      else
        var r := m.responses[0];
        && EndsMeant(a.eegs, ToUpper(m.topic), r.consentId, r.meter, a.day(r.consentEnd), a.at, before, after)
        && MailsEnded(r.meter, before, after, mails)
  }

  lemma BegunEnd(tenant: string, meter: string, end: int, at: int, before: seq<Entry>, after: seq<Entry>)
    requires AllApplied(RevokeActiveOf(tenant, meter, end, at), before, after)
    ensures EndsBegun(tenant, meter, end, at, before, after)
  {
  }

  lemma AnswerMeans(a: Arrival, m: RevMessage, codes: set<int>, before: seq<Entry>, after: seq<Entry>)
    requires m.code in {AnswerToRequest, RejectedRequest} && codes == (if m.code == AnswerToRequest then {176} else {177, 180})
    requires EndsRows(a, m, before, after)
    ensures if m.responses == [] then after == before
            else EndsByAnswer(a, m, codes, FirstMeter(m).value.meter, before, after)
  {
    if m.responses != [] {
      var first := FirstMeter(m).value;
      assert first.codes == m.responses[0].codes;
      assert EndsParticipation(m.code, first.codes) <==> exists c <- first.codes :: c in codes;
      if a.received && a.eeg.Some? && EndsParticipation(m.code, first.codes) {
        assert IsAskedEnd(a, m, first.meter, EndOf(a, m, first));
        BegunEnd(a.eeg.value, first.meter, EndOf(a, m, first), a.at, before, after);
      }
    }
  }

  lemma EndingsAreMailed(before: seq<Entry>, after: seq<Entry>, meter: string, mails: seq<string>)
    requires |after| == |before| && forall t :: t in mails <==> Ends(before, after, t, meter)
    ensures MailsEnded(meter, before, after, mails)
  {
  }

  /** What the handler does is what the message means: which entries end, on which day, and who gets the mail. */
  lemma RevocationMeans(a: Arrival, m: RevMessage, before: seq<Entry>, after: seq<Entry>, mails: seq<string>)
    requires IsRevoked(a, m, before, after, mails)
    ensures IsMeaning(a, m, before, after, mails)
  {
    if m.code in {AnswerToRequest, RejectedRequest} {
      AnswerMeans(a, m, if m.code == AnswerToRequest then {176} else {177, 180}, before, after);
    }
    if m.code in {ByMember, ByOperator, AnswerToRequest} && m.responses != [] {
      EndingsAreMailed(before, after, m.responses[0].meter, mails);
    }
  }

  /** protocolCmRevImpHandler: the tenants whose member gets the mail that the metering point is no longer part of the
      community. */
  method HandleRevocation(table: MeteringPoints, a: Arrival, m: RevMessage) returns (mails: seq<string>)
    modifies table
    ensures IsRevoked(a, m, old(table.rows), table.rows, mails)
  {
    var first := FirstMeter(m);
    if first.None? || (m.code != ByMember && m.code != ByOperator && !a.received) {
      return [];
    }
    match m.code {
      case ByMember =>
        mails := RevokeByConsent(table, a.eegs, m.topic, first.value, a.day(first.value.consentEnd), a.at);
      case ByOperator =>
        mails := RevokeByConsent(table, a.eegs, m.topic, first.value, a.day(first.value.consentEnd), a.at);
      case AnswerToRequest =>
        mails := Answered(table, a, m, first.value);
      case RejectedRequest =>
        mails := Answered(table, a, m, first.value);
      case _ =>
        mails := [];
    }
  }

  method Answered(table: MeteringPoints, a: Arrival, m: RevMessage, first: RevMeter) returns (mails: seq<string>)
    requires FirstMeter(m) == Some(first) && m.code in {AnswerToRequest, RejectedRequest} && a.received
    modifies table
    ensures EndsRows(a, m, old(table.rows), table.rows)
    ensures OnlyEnds(old(table.rows), table.rows, first.meter) && DistinctTenants(mails)
    ensures m.code == RejectedRequest ==> mails == []
    ensures m.code == AnswerToRequest ==> forall t :: t in mails <==> Ends(old(table.rows), table.rows, t, first.meter)
  {
    mails := [];
    if a.eeg.Some? {
      var mail := RevokeAfterAnswer(table, a.eeg.value, m.code, first, a.request, m.consentEnd, a.day, a.today, a.at);
      if mail {
        mails := [a.eeg.value];
      }
    }
  }

  // ----- no extra mails, over whole runs

  /** The active rows of a metering point in a tenant. */
  function ActiveRows(rows: seq<Entry>, tenant: string, meter: string): nat {
    if rows == [] then 0
    else
      var e := rows[|rows| - 1];
      ActiveRows(rows[..|rows| - 1], tenant, meter) + if IsRowOf(e, tenant, meter) && e.status == S_ACTIVE then 1 else 0
  }

  /** The rows that became active. */
  function Activated(before: seq<Entry>, after: seq<Entry>, tenant: string, meter: string): nat
    requires |before| == |after|
  {
    if before == [] then 0
    else
      var n := |before| - 1;
      Activated(before[..n], after[..n], tenant, meter) +
      if IsRowOf(after[n], tenant, meter) && after[n].status == S_ACTIVE && before[n].status != S_ACTIVE then 1 else 0
  }

  predicate SameRows(before: seq<Entry>, after: seq<Entry>) {
    |before| == |after| && forall i :: 0 <= i < |before| ==>
      before[i].tenant == after[i].tenant && before[i].meter == after[i].meter
  }

  lemma {:induction false} ActiveBalance(before: seq<Entry>, after: seq<Entry>, tenant: string, meter: string)
    requires SameRows(before, after)
    ensures ActiveRows(after, tenant, meter) + (if Ends(before, after, tenant, meter) then 1 else 0) <=
            ActiveRows(before, tenant, meter) + Activated(before, after, tenant, meter)
  {
    if before != [] {
      var n := |before| - 1;
      ActiveBalance(before[..n], after[..n], tenant, meter);
      if Ends(before, after, tenant, meter) {
        var i :| 0 <= i < |before| && IsRowOf(before[i], tenant, meter) && before[i].status == S_ACTIVE
          && after[i].status == S_INACTIVE;
        assert i < n ==> before[..n][i] == before[i] && after[..n][i] == after[i];
      }
    }
  }

  /** A handled message: of the registration process, a list of the grid operator, or of the revocation process. */
  datatype Message =
    | Registering(tenant: string, registration: Registration, cmd: Command, day: int -> int, today: int, at: int)
    | Listing(tenant: string, list: seq<ListMeter>, day: int -> int, at: int)
    | Revoking(arrival: Arrival, revocation: RevMessage, receivers: seq<string>)

  /** A message with the table before and after, and the mails about ended participations: tenant and metering point. */
  datatype Transaction = Transaction(message: Message, before: seq<Entry>, after: seq<Entry>, mails: set<(string, string)>)

  /** What the handlers promise (HandleRegistration, UpdateActive, HandleRevocation). */
  ghost predicate IsHandled(t: Transaction) {
    match t.message
    case Registering(tenant, m, cmd, day, today, at) =>
      Asks(m, day, today, cmd) && AllAfter(EventsOf(tenant, cmd, at), t.before, t.after) && t.mails == {}
    case Listing(tenant, list, day, at) => AllSynced(tenant, list, day, at, t.before, t.after) && t.mails == {}
    case Revoking(a, m, receivers) =>
      IsRevoked(a, m, t.before, t.after, receivers) && t.mails == MailsTo(receivers, FirstMeter(m))
  }

  function MailsTo(receivers: seq<string>, first: Option<RevMeter>): set<(string, string)> {
    if first.None? then {} else set t <- receivers :: (t, first.value.meter)
  }

  /** Mails only for rows that this very transaction ended. */
  predicate MailsEndings(t: Transaction) {
    SameRows(t.before, t.after) && forall m <- t.mails :: Ends(t.before, t.after, m.0, m.1)
  }

  lemma AfterSameRows(events: seq<Event>, before: seq<Entry>, after: seq<Entry>)
    requires AllAfter(events, before, after)
    ensures SameRows(before, after)
  {
    forall i | 0 <= i < |before|
      ensures before[i].tenant == after[i].tenant && before[i].meter == after[i].meter
    {
      AfterEvolves(events, before[i]);
    }
  }

  lemma HandledMailsEndings(t: Transaction)
    requires IsHandled(t)
    ensures MailsEndings(t)
    ensures t.message.Revoking? ==> forall tenant, meter :: Activated(t.before, t.after, tenant, meter) == 0
  {
    match t.message
    case Registering(tenant, m, cmd, day, today, at) => AfterSameRows(EventsOf(tenant, cmd, at), t.before, t.after);
    case Listing(tenant, list, day, at) =>
    case Revoking(a, m, receivers) => RevocationMailsEndings(a, m, t.before, t.after, receivers);
  }

  /** Any run of messages, repeated or in parallel: each is handled on the table the one before left. */
  ghost predicate IsHistory(run: seq<Transaction>) {
    && (forall i :: 0 <= i < |run| ==> IsHandled(run[i]))
    && (forall i :: 0 <= i < |run| - 1 ==> run[i].after == run[i + 1].before)
  }

  function MailCount(run: seq<Transaction>, tenant: string, meter: string): nat {
    if run == [] then 0
    else MailCount(run[..|run| - 1], tenant, meter) + if (tenant, meter) in run[|run| - 1].mails then 1 else 0
  }

  function ActivationCount(run: seq<Transaction>, tenant: string, meter: string): nat
  {
    if run == [] then 0
    else
      var t := run[|run| - 1];
      ActivationCount(run[..|run| - 1], tenant, meter) +
      if |t.before| == |t.after| then Activated(t.before, t.after, tenant, meter) else 0
  }

  /** Over any run, in whatever order messages are handled and repeated: each mail stands for an active row that ended,
      so there are not more than rows active at the start or activated since, less those still active. */
  lemma {:induction false} NoExtraMails(run: seq<Transaction>, tenant: string, meter: string)
    requires IsHistory(run) && run != []
    ensures MailCount(run, tenant, meter) + ActiveRows(run[|run| - 1].after, tenant, meter) <=
            ActiveRows(run[0].before, tenant, meter) + ActivationCount(run, tenant, meter)
  {
    var n := |run| - 1;
    HandledMailsEndings(run[n]);
    ActiveBalance(run[n].before, run[n].after, tenant, meter);
    if n == 0 {
      assert run[..0] == [];
    } else {
      NoExtraMails(run[..n], tenant, meter);
      assert run[..n][n - 1] == run[n - 1] && run[n - 1].after == run[n - 1 + 1].before;
    }
  }

  /** A revocation message mails only endings and activates nothing. */
  lemma RevocationMailsEndings(a: Arrival, m: RevMessage, before: seq<Entry>, after: seq<Entry>, receivers: seq<string>)
    requires IsRevoked(a, m, before, after, receivers)
    ensures SameRows(before, after) && forall x <- MailsTo(receivers, FirstMeter(m)) :: Ends(before, after, x.0, x.1)
    ensures forall tenant, meter :: Activated(before, after, tenant, meter) == 0
  {
    forall tenant, meter
      ensures Activated(before, after, tenant, meter) == 0
    {
      NoneActivated(before, after, tenant, meter);
    }
  }

  lemma {:induction false} NoneActivated(before: seq<Entry>, after: seq<Entry>, tenant: string, meter: string)
    requires |after| == |before| && forall i :: 0 <= i < |before| ==> after[i] == before[i] || after[i].status != S_ACTIVE
    ensures Activated(before, after, tenant, meter) == 0
  {
    if before != [] {
      NoneActivated(before[..|before| - 1], after[..|before| - 1], tenant, meter);
    }
  }
}
