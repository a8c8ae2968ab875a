/** The cache of the rows of a tenant's community (database/energyRequestDao.go, communityCache) under any interleaving of
    readers and writers. */
module CommunityCaching {
  import opened Wrappers
  import opened EnergyTypes
  import opened EnergyRows
  import opened LiveEntries

  datatype CommunityRows = CommunityRows(at: int, rows: seq<Row>, tenants: set<string>)

  datatype Cache = Cache(entries: map<string, CommunityRows>, generation: nat)

  /** Rows read at an older generation are not kept. */
  function Keep(c: Cache, tenant: string, generation: nat, e: CommunityRows): Cache {
    if c.generation == generation then c.(entries := c.entries[tenant := e]) else c
  }

  function Clear(c: Cache): Cache {
    Cache(map[], c.generation + 1)
  }

  /** The cache of one instance; each method runs under its mutex. */
  class CommunityCache {
    var entries: map<string, CommunityRows>
    var generation: nat

    constructor ()
      ensures Value() == Cache(map[], 0)
    {
      entries, generation := map[], 0;
    }

    function Value(): Cache
      reads this
    {
      Cache(entries, generation)
    }

    method Look(tenant: string) returns (e: Option<CommunityRows>, generation: nat)
      ensures generation == Value().generation
      ensures e == if tenant in Value().entries then Some(Value().entries[tenant]) else None
    {
      e := if tenant in entries then Some(entries[tenant]) else None;
      generation := this.generation;
    }

    method Store(tenant: string, generation: nat, e: CommunityRows)
      modifies this
      ensures Value() == Keep(old(Value()), tenant, generation, e) && this.generation == old(this.generation)
      ensures entries == if generation == old(this.generation) then old(entries)[tenant := e] else old(entries)
    {
      if this.generation == generation {
        entries := entries[tenant := e];
      }
    }

    method ClearAll()
      modifies this
      ensures Value() == Clear(old(Value()))
      ensures entries == map[] && old(generation) < generation
    {
      entries := map[];
      generation := generation + 1;
    }
  }

  // ----- readers and writers

  /** A reader that found no fresh entry: it knows the generation, then whether the tenant has a recent run, then rows.
      `version` is the table it read. */
  datatype Reader =
    | Looked(tenant: string, generation: nat)
    | Probed(tenant: string, generation: nat)
    | Got(tenant: string, generation: nat, e: CommunityRows, version: nat)

  /** A write of this instance to a run or summary row: the table it left, and whether its clear has completed. */
  datatype Write = Write(version: nat, cleared: bool)

  /** `tables` are the contents of the notification table after each write, by whomever. */
  datatype State = State(cache: Cache, tables: seq<seq<DbRow>>, writes: seq<Write>, readers: map<int, Reader>)

  function Now(s: State): nat
    requires s.tables != []
  {
    |s.tables| - 1
  }

  predicate Look(s: State, t: State, r: int, tenant: string) {
    r !in s.readers && t == s.(readers := s.readers[r := Looked(tenant, s.cache.generation)])
  }

  /** Without a recent run of the tenant the community is not read. */
  predicate Probe(s: State, t: State, r: int, at: int) {
    && s.tables != [] && r in s.readers && s.readers[r].Looked?
    && var q := s.readers[r];
       t == s.(readers := s.readers[r :=
         if HasRecentRun(s.tables[Now(s)], q.tenant, at) then Probed(q.tenant, q.generation)
         else Got(q.tenant, q.generation, CommunityRows(at, [], {q.tenant}), Now(s))])
  }

  predicate Fetch(s: State, t: State, r: int, community: set<string>, at: int) {
    && s.tables != [] && r in s.readers && s.readers[r].Probed? && s.readers[r].tenant in community
    && var q := s.readers[r];
       t == s.(readers := s.readers[r :=
         Got(q.tenant, q.generation, CommunityRows(at, Read(s.tables[Now(s)], Some(community), at), community), Now(s))])
  }

  predicate Store(s: State, t: State, r: int) {
    && r in s.readers && s.readers[r].Got?
    && var q := s.readers[r];
       t == s.(cache := Keep(s.cache, q.tenant, q.generation, q.e), readers := s.readers - {r})
  }

  predicate GiveUp(s: State, t: State, r: int) {
    r in s.readers && t == s.(readers := s.readers - {r})
  }

  predicate WriteHere(s: State, t: State, table: seq<DbRow>) {
    t == s.(tables := s.tables + [table], writes := s.writes + [Write(|s.tables|, false)])
  }

  predicate WriteElsewhere(s: State, t: State, table: seq<DbRow>) {
    t == s.(tables := s.tables + [table])
  }

  /** The clear of a write; a write that failed clears too. */
  predicate ClearAfter(s: State, t: State, w: int) {
    t == s.(cache := Clear(s.cache),
            writes := if 0 <= w < |s.writes| then s.writes[w := s.writes[w].(cleared := true)] else s.writes)
  }

  ghost predicate Step(s: State, t: State) {
    || (exists r, tenant :: Look(s, t, r, tenant))
    || (exists r, at :: Probe(s, t, r, at))
    || (exists r, community, at :: Fetch(s, t, r, community, at))
    || (exists r :: Store(s, t, r))
    || (exists r :: GiveUp(s, t, r))
    || (exists table :: WriteHere(s, t, table))
    || (exists table :: WriteElsewhere(s, t, table))
    || (exists w :: ClearAfter(s, t, w))
  }

  predicate Init(s: State) {
    s.cache.entries == map[] && s.tables != [] && s.writes == [] && s.readers == map[]
  }

  // ----- what a cached entry contains

  predicate IsReading(table: seq<DbRow>, tenant: string, e: CommunityRows, at: int) {
    || (tenant in e.tenants && e.rows == Read(table, Some(e.tenants), at))
    || (e.rows == [] && !HasRecentRun(table, tenant, at))
  }

  /** The entry shows the table of some time at which every write whose clear has completed was done. */
  predicate IsCurrent(s: State, tenant: string, e: CommunityRows, version: nat) {
    && version < |s.tables| && IsReading(s.tables[version], tenant, e, e.at)
    && forall w <- s.writes :: w.cleared ==> w.version <= version
  }

  ghost predicate Inv(s: State) {
    && s.tables != []
    && (forall w <- s.writes :: w.version < |s.tables|)
    && (forall tenant <- s.cache.entries :: exists v :: IsCurrent(s, tenant, s.cache.entries[tenant], v))
    && (forall r <- s.readers :: s.readers[r].generation <= s.cache.generation)
    && (forall r <- s.readers :: s.readers[r].Got? && s.readers[r].generation == s.cache.generation ==>
          IsCurrent(s, s.readers[r].tenant, s.readers[r].e, s.readers[r].version))
  }

  lemma CurrentStays(s: State, t: State, tenant: string, e: CommunityRows, v: nat)
    requires IsCurrent(s, tenant, e, v) && |s.tables| <= |t.tables| && t.tables[..|s.tables|] == s.tables
    requires forall w <- t.writes :: w.cleared ==> w in s.writes
    ensures IsCurrent(t, tenant, e, v)
  {
    assert t.tables[v] == t.tables[..|s.tables|][v];
  }

  lemma AllCurrentStay(s: State, t: State)
    requires Inv(s) && |s.tables| <= |t.tables| && t.tables[..|s.tables|] == s.tables && t.cache == s.cache
    requires forall w <- t.writes :: w.cleared ==> w in s.writes
    ensures forall tenant <- t.cache.entries :: exists v :: IsCurrent(t, tenant, t.cache.entries[tenant], v)
    ensures forall r <- s.readers :: s.readers[r].Got? && s.readers[r].generation == s.cache.generation ==>
              IsCurrent(t, s.readers[r].tenant, s.readers[r].e, s.readers[r].version)
  {
    forall tenant | tenant in t.cache.entries
      ensures exists v :: IsCurrent(t, tenant, t.cache.entries[tenant], v)
    {
      var v :| IsCurrent(s, tenant, s.cache.entries[tenant], v);
      CurrentStays(s, t, tenant, s.cache.entries[tenant], v);
    }
    forall r | r in s.readers && s.readers[r].Got? && s.readers[r].generation == s.cache.generation
      ensures IsCurrent(t, s.readers[r].tenant, s.readers[r].e, s.readers[r].version)
    {
      CurrentStays(s, t, s.readers[r].tenant, s.readers[r].e, s.readers[r].version);
    }
  }

  lemma ReadKeeps(s: State, t: State, r: int, q: Reader)
    requires Inv(s) && t == s.(readers := s.readers[r := q]) && q.generation <= s.cache.generation
    requires q.Got? ==> q.version == Now(s) && IsReading(s.tables[Now(s)], q.tenant, q.e, q.e.at)
    ensures Inv(t)
  {
    AllCurrentStay(s, t);
    forall x | x in t.readers
      ensures t.readers[x].generation <= t.cache.generation
      ensures t.readers[x].Got? && t.readers[x].generation == t.cache.generation ==>
                IsCurrent(t, t.readers[x].tenant, t.readers[x].e, t.readers[x].version)
    {
      if x == r {
        assert q.Got? ==> IsCurrent(t, q.tenant, q.e, q.version);
      } else {
        assert t.readers[x] == s.readers[x];
      }
    }
  }

  lemma StoreKeeps(s: State, t: State, r: int)
    requires Inv(s) && Store(s, t, r)
    ensures Inv(t)
  {
    var q, u := s.readers[r], s.(readers := s.readers - {r});
    AllCurrentStay(s, u);
    forall tenant | tenant in t.cache.entries
      ensures exists v :: IsCurrent(t, tenant, t.cache.entries[tenant], v)
    {
      if tenant == q.tenant && q.generation == s.cache.generation {
        assert IsCurrent(s, q.tenant, q.e, q.version);
        assert IsCurrent(t, tenant, t.cache.entries[tenant], q.version);
      } else {
        var v :| IsCurrent(u, tenant, u.cache.entries[tenant], v);
        assert IsCurrent(t, tenant, t.cache.entries[tenant], v);
      }
    }
    forall p | p in t.readers && t.readers[p].Got? && t.readers[p].generation == t.cache.generation
      ensures IsCurrent(t, t.readers[p].tenant, t.readers[p].e, t.readers[p].version)
    {
      assert IsCurrent(s, s.readers[p].tenant, s.readers[p].e, s.readers[p].version);
    }
  }

  lemma WriteKeeps(s: State, t: State, table: seq<DbRow>)
    requires Inv(s) && (WriteHere(s, t, table) || WriteElsewhere(s, t, table))
    ensures Inv(t)
  {
    AllCurrentStay(s, t);
  }

  lemma StepKeeps(s: State, t: State)
    requires Inv(s) && Step(s, t)
    ensures Inv(t)
  {
    if r, tenant :| Look(s, t, r, tenant) {
      ReadKeeps(s, t, r, Looked(tenant, s.cache.generation));
    } else if r, at :| Probe(s, t, r, at) {
      ReadKeeps(s, t, r, t.readers[r]);
    } else if r, community, at :| Fetch(s, t, r, community, at) {
      ReadKeeps(s, t, r, t.readers[r]);
    } else if r :| Store(s, t, r) {
      StoreKeeps(s, t, r);
    } else if r :| GiveUp(s, t, r) {
      AllCurrentStay(s, t);
    } else if table :| WriteHere(s, t, table) {
      WriteKeeps(s, t, table);
    } else if table :| WriteElsewhere(s, t, table) {
      WriteKeeps(s, t, table);
    } else {
      var w :| ClearAfter(s, t, w);
    }
  }

  ghost predicate IsTrace(trace: seq<State>) {
    trace != [] && Init(trace[0]) && forall k :: 0 <= k < |trace| - 1 ==> Step(trace[k], trace[k + 1])
  }

  lemma {:induction false} InvAlways(trace: seq<State>, n: nat)
    requires IsTrace(trace) && n < |trace|
    ensures Inv(trace[n])
  {
    if n > 0 {
      InvAlways(trace, n - 1);
      assert Step(trace[n - 1], trace[n - 1 + 1]);
      StepKeeps(trace[n - 1], trace[n]);
    }
  }

  /** At any time a cached entry was read from a table that holds every write of this instance whose clear has completed:
      rows read under an older generation are never kept. */
  lemma CachedEntriesHoldClearedWrites(trace: seq<State>, tenant: string)
    requires IsTrace(trace) && tenant in trace[|trace| - 1].cache.entries
    ensures var s := trace[|trace| - 1];
            exists v: nat :: v < |s.tables| &&
              IsReading(s.tables[v], tenant, s.cache.entries[tenant], s.cache.entries[tenant].at) &&
                             forall w <- s.writes :: w.cleared ==> w.version <= v
  {
    InvAlways(trace, |trace| - 1);
    var s := trace[|trace| - 1];
    var v :| IsCurrent(s, tenant, s.cache.entries[tenant], v);
  }
}
