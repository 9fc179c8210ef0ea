/**
 A run in which a file that is still offered disappears from the index, and one in which a batch that contradicts
 itself leaves the index exact although the record on offer has no endpoint.
 */
module LostShare {
  import opened Basics
  import opened Records
  import opened SharedIndex
  import opened ClientIDs
  import opened ShareRegistry
  import opened OpenRegistry
  import opened Listings
  import opened EndpointTables
  import opened Traces

  /** The client of connection c is registered under the ID and its handler idle. */
  predicate Registered(s: State, c: Conn, id: ClientID, offered: map<Hash, FileRecord>) {
    && c in s.sessions && s.sessions[c] == Session(id, offered, Idle)
    && id != 0 && id in s.clients && s.clients[id] == c
  }

  function Arrived(s: State, c: Conn, id: ClientID): State {
    WithSession(s, c, Session(id, map[], Idle)).(clients := s.clients[id := c])
  }

  lemma Arrives(cap: int, s: State, c: Conn, id: ClientID)
    requires c !in s.sessions && c !in s.clients.Values && id != 0 && id !in s.clients && |s.clients| < TWO_32
    ensures StepsTo(cap, s, Connect(c), WithSession(s, c, Session(0, map[], Idle)))
    ensures StepsTo(cap, WithSession(s, c, Session(0, map[], Idle)), Login(c, id), Arrived(s, c, id))
  {
  }

  function Taking(s: State, c: Conn, id: ClientID, r: FileRecord): State {
    WithSession(s, c, Session(id, map[r.hash := r], Offering([], [r])))
  }

  function Shared(s: State, c: Conn, id: ClientID, r: FileRecord): State {
    WithSession(s, c, Session(id, map[r.hash := r], Idle)).(index := Added(s.index, id, r))
  }

  lemma TakesOne(cap: int, r: FileRecord)
    ensures TakenAll(map[], cap, [r]) == Batch(map[r.hash := r], [], [r], 0)
  {
    var none: map<Hash, FileRecord> := map[];
    assert TakenFirst(none, cap, [r], 0) == Batch(none, [], [], 0);
    assert TakenAll(none, cap, [r]) == Taken(Batch(none, [], [], 0), cap, r);
    assert none[r.hash := r] == map[r.hash := r];
  }

  lemma BeginsOffer(cap: int, s: State, c: Conn, id: ClientID, r: FileRecord)
    requires Registered(s, c, id, map[])
    ensures StepsTo(cap, s, BeginOffer(c, [r]), Taking(s, c, id, r))
  {
    TakesOne(cap, r);
  }

  lemma EndsOffer(cap: int, s: State, c: Conn, id: ClientID, r: FileRecord)
    ensures StepsTo(cap, Taking(s, c, id, r), EndOffer(c), Shared(s, c, id, r))
  {
    RemoveNothing(s.index, id);
    assert HashSet([]) == {} && [r][..0] == [];
    assert AddedAll(s.index, id, [r]) == Added(AddedAll(s.index, id, []), id, r);
  }

  function Emptied(s: State, c: Conn, id: ClientID, r: FileRecord): State {
    WithSession(s, c, Session(id, map[], Clearing({r.hash})))
  }

  function Withdrawn(s: State, c: Conn, id: ClientID, r: FileRecord): State {
    WithSession(s, c, Session(id, map[], Idle)).(index := RemovedAll(s.index, id, {r.hash}))
  }

  lemma Clears(cap: int, s: State, c: Conn, id: ClientID, r: FileRecord)
    requires Registered(s, c, id, map[r.hash := r])
    ensures StepsTo(cap, s, BeginClear(c), Emptied(s, c, id, r))
    ensures StepsTo(cap, Emptied(s, c, id, r), EndClear(c), Withdrawn(s, c, id, r))
  {
    var offered := map[r.hash := r];
    assert r.hash in offered && offered[r.hash].hash == r.hash;
    assert TableHashes(offered) == {r.hash};
  }

  const ARRIVALS: seq<Step> := [Connect(0), Login(0, 1), Connect(1), Login(1, 2)]

  /** Two clients arrive; the first offers a file without an endpoint, the second offers it with one and withdraws it. */
  function LosingRun(bare: FileRecord, full: FileRecord): seq<Step> {
    ARRIVALS + [BeginOffer(0, [bare]), EndOffer(0), BeginOffer(1, [full]), EndOffer(1), BeginClear(1), EndClear(1)]
  }

  function TwoArrived(): State {
    Arrived(Arrived(INITIAL, 0, 1), 1, 2)
  }

  function FirstShared(bare: FileRecord): State {
    Shared(TwoArrived(), 0, 1, bare)
  }

  function BothShared(bare: FileRecord, full: FileRecord): State {
    Shared(FirstShared(bare), 1, 2, full)
  }

  function Lost(bare: FileRecord, full: FileRecord): State {
    Withdrawn(BothShared(bare, full), 1, 2, full)
  }

  lemma BothRegistered(bare: FileRecord, full: FileRecord)
    ensures Registered(TwoArrived(), 0, 1, map[])
    ensures Registered(FirstShared(bare), 1, 2, map[])
    ensures Registered(BothShared(bare, full), 1, 2, map[full.hash := full])
  {
  }

  lemma ReachesArrival(cap: int, steps: seq<Step>, s: State, c: Conn, id: ClientID)
    requires Reaches(cap, steps, s)
    requires c !in s.sessions && c !in s.clients.Values && id != 0 && id !in s.clients && |s.clients| < TWO_32
    ensures Reaches(cap, steps + [Connect(c)] + [Login(c, id)], Arrived(s, c, id))
  {
    Arrives(cap, s, c, id);
    ReachesNext(cap, steps, s, Connect(c), WithSession(s, c, Session(0, map[], Idle)));
    ReachesNext(cap, steps + [Connect(c)], WithSession(s, c, Session(0, map[], Idle)), Login(c, id), Arrived(s, c, id));
  }

  lemma ReachesOffer(cap: int, steps: seq<Step>, s: State, c: Conn, id: ClientID, r: FileRecord)
    requires Reaches(cap, steps, s) && Registered(s, c, id, map[])
    ensures Reaches(cap, steps + [BeginOffer(c, [r])] + [EndOffer(c)], Shared(s, c, id, r))
  {
    BeginsOffer(cap, s, c, id, r);
    EndsOffer(cap, s, c, id, r);
    ReachesNext(cap, steps, s, BeginOffer(c, [r]), Taking(s, c, id, r));
    ReachesNext(cap, steps + [BeginOffer(c, [r])], Taking(s, c, id, r), EndOffer(c), Shared(s, c, id, r));
  }

  lemma ReachesClear(cap: int, steps: seq<Step>, s: State, c: Conn, id: ClientID, r: FileRecord)
    requires Reaches(cap, steps, s) && Registered(s, c, id, map[r.hash := r])
    ensures Reaches(cap, steps + [BeginClear(c)] + [EndClear(c)], Withdrawn(s, c, id, r))
  {
    Clears(cap, s, c, id, r);
    ReachesNext(cap, steps, s, BeginClear(c), Emptied(s, c, id, r));
    ReachesNext(cap, steps + [BeginClear(c)], Emptied(s, c, id, r), EndClear(c), Withdrawn(s, c, id, r));
  }

  lemma ReachesTwoArrived(cap: int)
    ensures Reaches(cap, ARRIVALS, TwoArrived())
  {
    ReachesStart(cap);
    ReachesArrival(cap, [], INITIAL, 0, 1);
    ReachesArrival(cap, [] + [Connect(0)] + [Login(0, 1)], Arrived(INITIAL, 0, 1), 1, 2);
    assert ARRIVALS == [] + [Connect(0)] + [Login(0, 1)] + [Connect(1)] + [Login(1, 2)];
  }

  lemma ReachesLost(cap: int, bare: FileRecord, full: FileRecord)
    ensures Reaches(cap, LosingRun(bare, full), Lost(bare, full))
  {
    ReachesTwoArrived(cap);
    BothRegistered(bare, full);
    var first := ARRIVALS + [BeginOffer(0, [bare])] + [EndOffer(0)];
    var both := first + [BeginOffer(1, [full])] + [EndOffer(1)];
    ReachesOffer(cap, ARRIVALS, TwoArrived(), 0, 1, bare);
    ReachesOffer(cap, first, FirstShared(bare), 1, 2, full);
    ReachesClear(cap, both, BothShared(bare, full), 1, 2, full);
    assert LosingRun(bare, full) == both + [BeginClear(1)] + [EndClear(1)];
  }

  /** At the end of that run no handler is mid-operation, the first client offers the file, and the index does not have it. */
  lemma EndpointlessShareIsLost(cap: int, bare: FileRecord, full: FileRecord)
    requires bare.endpoints == [] && full.endpoints != [] && full.hash == bare.hash
    ensures OpenRuns(cap, INITIAL, LosingRun(bare, full))
    ensures var s := OpenAfter(cap, INITIAL, LosingRun(bare, full));
            && Quiescent(s)
            && 0 in s.sessions && bare.hash in s.sessions[0].offered
            && bare.hash !in s.index
  {
    ReachesLost(cap, bare, full);
    ReachedRuns(cap, LosingRun(bare, full), Lost(bare, full));
    FileIsLost(bare, full);
  }

  lemma FileIsLost(bare: FileRecord, full: FileRecord)
    requires bare.endpoints == [] && full.endpoints != [] && full.hash == bare.hash
    ensures var s := Lost(bare, full);
            && Quiescent(s)
            && 0 in s.sessions && bare.hash in s.sessions[0].offered
            && bare.hash !in s.index
  {
    var index := BothShared(bare, full).index;
    assert index[bare.hash].byClient - {2} == map[];
  }

  // ---------------------------------------------------------------- a batch that contradicts itself

  /** A client offers one file twice in one batch, first with an endpoint and then without. */
  function ContradictingRun(full: FileRecord, bare: FileRecord): seq<Step> {
    [Connect(0), Login(0, 1), BeginOffer(0, [full, bare]), EndOffer(0)]
  }

  lemma TakesBoth(cap: int, full: FileRecord, bare: FileRecord)
    requires full.hash == bare.hash
    ensures TakenAll(map[], cap, [full, bare]) == Batch(map[bare.hash := bare], [full], [full, bare], 0)
  {
    var none: map<Hash, FileRecord> := map[];
    var records := [full, bare];
    var one := Batch(map[full.hash := full], [], [full], 0);
    assert TakenFirst(none, cap, records, 0) == Batch(none, [], [], 0);
    assert TakenFirst(none, cap, records, 1) == Taken(Batch(none, [], [], 0), cap, full);
    assert none[full.hash := full] == map[full.hash := full];
    assert TakenFirst(none, cap, records, 1) == one;
    assert TakenAll(none, cap, records) == Taken(one, cap, bare);
    assert map[full.hash := full][bare.hash := bare] == map[bare.hash := bare];
  }

  function TakingBoth(full: FileRecord, bare: FileRecord): State {
    WithSession(Arrived(INITIAL, 0, 1), 0, Session(1, map[bare.hash := bare], Offering([full], [full, bare])))
  }

  function SharedBoth(full: FileRecord, bare: FileRecord): State {
    WithSession(Arrived(INITIAL, 0, 1), 0, Session(1, map[bare.hash := bare], Idle)).(
      index := Added(Added(map[], 1, full), 1, bare))
  }

  lemma AddsBoth(full: FileRecord, bare: FileRecord)
    ensures Offered(map[], 1, [full], [full, bare]) == Added(Added(map[], 1, full), 1, bare)
  {
    assert RemovedAll(map[], 1, HashSet([full])) == map[];
    assert [full, bare][..1] == [full] && [full][..0] == [];
    assert AddedAll(map[], 1, [full]) == Added(AddedAll(map[], 1, []), 1, full);
  }

  lemma BeginsBoth(cap: int, full: FileRecord, bare: FileRecord)
    requires full.hash == bare.hash
    ensures StepsTo(cap, Arrived(INITIAL, 0, 1), BeginOffer(0, [full, bare]), TakingBoth(full, bare))
  {
    TakesBoth(cap, full, bare);
  }

  lemma EndsBoth(cap: int, full: FileRecord, bare: FileRecord)
    ensures StepsTo(cap, TakingBoth(full, bare), EndOffer(0), SharedBoth(full, bare))
  {
    AddsBoth(full, bare);
  }

  lemma ReachesSharedBoth(cap: int, full: FileRecord, bare: FileRecord)
    requires full.hash == bare.hash
    ensures Reaches(cap, ContradictingRun(full, bare), SharedBoth(full, bare))
  {
    var s := Arrived(INITIAL, 0, 1);
    var arrival := [] + [Connect(0)] + [Login(0, 1)];
    ReachesStart(cap);
    ReachesArrival(cap, [], INITIAL, 0, 1);
    assert StepsTo(cap, s, BeginOffer(0, [full, bare]), TakingBoth(full, bare)) by { BeginsBoth(cap, full, bare); }
    ReachesNext(cap, arrival, s, BeginOffer(0, [full, bare]), TakingBoth(full, bare));
    assert StepsTo(cap, TakingBoth(full, bare), EndOffer(0), SharedBoth(full, bare)) by { EndsBoth(cap, full, bare); }
    ReachesNext(cap, arrival + [BeginOffer(0, [full, bare])], TakingBoth(full, bare), EndOffer(0), SharedBoth(full, bare));
    assert ContradictingRun(full, bare) == arrival + [BeginOffer(0, [full, bare])] + [EndOffer(0)];
  }

  /** So the condition on the tables does not decide exactness in a run with such a batch. */
  lemma ContradictingBatchIsExact(cap: int, full: FileRecord, bare: FileRecord)
    requires full.hash == bare.hash && full.endpoints != [] && bare.endpoints == []
    ensures OpenRuns(cap, INITIAL, ContradictingRun(full, bare))
    ensures var s := OpenAfter(cap, INITIAL, ContradictingRun(full, bare));
            Quiescent(s) && IndexExact(s) && !AllWithEndpoint(s)
  {
    ReachesSharedBoth(cap, full, bare);
    ReachedRuns(cap, ContradictingRun(full, bare), SharedBoth(full, bare));
    BareButListed(full, bare);
  }

  lemma BareButListed(full: FileRecord, bare: FileRecord)
    requires full.hash == bare.hash && full.endpoints != [] && bare.endpoints == []
    ensures var s := SharedBoth(full, bare);
            Quiescent(s) && IndexExact(s) && !AllWithEndpoint(s)
  {
    var s := SharedBoth(full, bare);
    var h := bare.hash;
    assert s.sessions[0].offered == map[h := bare];
    assert s.index.Keys == {h} && s.index[h].byClient.Keys == {1};
    assert OffersUnder(s, 1, h);
    forall x
      ensures FileExact(s, x)
    {
      assert x != h ==> x !in s.index;
    }
  }
}
