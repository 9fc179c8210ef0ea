/**
 What every client is listed for, computed from its requests alone: in every run of interleaved handlers, with
 repeated logins and records without endpoints, the index lists exactly that, and so decides when the index
 is exact and when a file is lost.
 */
module Listings {
  import opened Basics
  import opened Records
  import opened SharedIndex
  import opened ClientIDs
  import opened ShareRegistry
  import opened OpenRegistry

  /** The files that each ID is to be listed for. */
  type Shown = map<ClientID, set<Hash>>

  function ShownBy(shown: Shown, id: ClientID): set<Hash> {
    if id in shown then shown[id] else {}
  }

  /**
   A new ID shows nothing. A completed offer shows the accepted hashes that some record of the batch gives an
   endpoint for, and no longer the other accepted ones. A completed withdrawal or departure shows nothing.
   */
  function ShownNext(s: State, step: Step, shown: Shown): Shown
    requires Allowed(s, step)
  {
    match step
    case Login(_, preferred) => shown[Allocate(s.clients.Keys, s.nextID, preferred).id := {}]
    case EndOffer(c) =>
      var id, accepted := s.sessions[c].id, s.sessions[c].pending.accepted;
      shown[id := (ShownBy(shown, id) - HashSet(accepted)) + EndpointHashes(accepted)]
    case EndClear(c) => shown[s.sessions[c].id := {}]
    case EndLeave(c) => shown[s.sessions[c].id := {}]
    case _ => shown
  }

  function ShownAfter(cap: int, s: State, steps: seq<Step>, shown: Shown): Shown
    requires OpenRuns(cap, s, steps)
    decreases |steps|
  {
    if steps == [] then shown
    else ShownAfter(cap, Next(cap, s, steps[0]), steps[1..], ShownNext(s, steps[0], shown))
  }

  ghost predicate ListsShown(s: State, shown: Shown) {
    forall id :: IndexedBy(s.index, id) == ShownBy(shown, id)
  }

  lemma StepListsShown(cap: int, s: State, step: Step, shown: Shown)
    requires OpenInv(s) && Allowed(s, step) && ListsShown(s, shown)
    ensures ListsShown(Next(cap, s, step), ShownNext(s, step, shown))
  {
    match step
    case Login(_, preferred) => AllocateNeverInUse(s.clients.Keys, s.nextID, preferred);
    case EndOffer(c) => OfferListsShown(s, c, shown);
    case EndClear(c) => WithdrawalListsShown(s, c, shown);
    case EndLeave(c) => WithdrawalListsShown(s, c, shown);
    case _ => assert Next(cap, s, step).index == s.index;
  }

  lemma OfferListsShown(s: State, c: Conn, shown: Shown)
    requires OpenInv(s) && Allowed(s, EndOffer(c)) && ListsShown(s, shown)
    ensures var session := s.sessions[c];
            var index := Offered(s.index, session.id, session.pending.previous, session.pending.accepted);
            forall id :: IndexedBy(index, id) == ShownBy(ShownNext(s, EndOffer(c), shown), id)
  {
    var session := s.sessions[c];
    assert OwnerOK(s.index, s.clients, c, session);
    ListedIsClaimed(s.index, session.id);
    OfferLists(s.index, session.id, session.pending.previous, session.pending.accepted);
  }

  lemma WithdrawalListsShown(s: State, c: Conn, shown: Shown)
    requires OpenInv(s) && ListsShown(s, shown)
    requires c in s.sessions && (s.sessions[c].pending.Clearing? || s.sessions[c].pending.Leaving?)
    ensures var index := RemovedAll(s.index, s.sessions[c].id, s.sessions[c].pending.withdrawn);
            forall id :: IndexedBy(index, id) == ShownBy(shown[s.sessions[c].id := {}], id)
  {
    var session := s.sessions[c];
    assert OwnerOK(s.index, s.clients, c, session);
    ListedIsClaimed(s.index, session.id);
    WithdrawalLists(s.index, session.id, session.pending.withdrawn);
  }

  lemma {:induction false} RunListsShown(cap: int, s: State, steps: seq<Step>, shown: Shown)
    requires OpenInv(s) && OpenRuns(cap, s, steps) && ListsShown(s, shown)
    ensures ListsShown(OpenAfter(cap, s, steps), ShownAfter(cap, s, steps, shown))
    decreases |steps|
  {
    if steps != [] {
      OpenStep(cap, s, steps[0]);
      StepListsShown(cap, s, steps[0], shown);
      RunListsShown(cap, Next(cap, s, steps[0]), steps[1..], ShownNext(s, steps[0], shown));
    }
  }

  /** What the requests of a run show. */
  function ShownIn(cap: int, steps: seq<Step>): Shown
    requires OpenRuns(cap, INITIAL, steps)
  {
    ShownAfter(cap, INITIAL, steps, map[])
  }

  /** In every state of every run each ID, also one that no session holds any more, is listed for exactly what its requests show. */
  lemma ListedIffShown(cap: int, steps: seq<Step>, id: ClientID)
    requires OpenRuns(cap, INITIAL, steps)
    ensures IndexedBy(OpenAfter(cap, INITIAL, steps).index, id) == ShownBy(ShownIn(cap, steps), id)
  {
    InitialOpenInv();
    RunListsShown(cap, INITIAL, steps, map[]);
  }

  // ---------------------------------------------------------------- when the index is exact

  /** No session logs in twice. */
  predicate SingleLogins(cap: int, s: State, steps: seq<Step>)
    requires OpenRuns(cap, s, steps)
    decreases |steps|
  {
    steps != [] ==> !LogsInAgain(s, steps[0]) && SingleLogins(cap, Next(cap, s, steps[0]), steps[1..])
  }

  lemma {:induction false} NoFormerIDs(cap: int, s: State, steps: seq<Step>, id: ClientID)
    requires OpenInv(s) && OpenRuns(cap, s, steps) && SingleLogins(cap, s, steps) && !Former(s, id)
    ensures !Former(OpenAfter(cap, s, steps), id)
    decreases |steps|
  {
    if steps != [] {
      OpenStep(cap, s, steps[0]);
      FormerIff(cap, s, steps[0], id);
      NoFormerIDs(cap, Next(cap, s, steps[0]), steps[1..], id);
    }
  }

  /** The index holds exactly the offered files and lists each under exactly the IDs of the sessions that offer it. */
  ghost predicate IndexExact(s: State) {
    forall h :: FileExact(s, h)
  }

  ghost predicate FileExact(s: State, h: Hash) {
    && (h in s.index <==> exists c :: c in s.sessions && h in s.sessions[c].offered)
    && (h in s.index ==> forall id :: id in s.index[h].byClient <==> OffersUnder(s, id, h))
  }

  /** Every offered file is shown under its session's ID. */
  ghost predicate AllShown(s: State, shown: Shown) {
    forall c, h :: c in s.sessions && h in s.sessions[c].offered ==> h in ShownBy(shown, s.sessions[c].id)
  }

  /** What holds of a state that single logins lead to, between operations. */
  ghost predicate Settled(s: State) {
    OpenInv(s) && Quiescent(s) && forall id :: !Former(s, id)
  }

  lemma ClaimIsOffer(s: State, id: ClientID, h: Hash)
    requires Settled(s) && h in s.index && id in s.index[h].completes
    ensures OffersUnder(s, id, h)
  {
    assert h in ClaimedBy(s.index, id);
    assert !Former(s, id);
    var c := s.clients[id];
    assert OwnerOK(s.index, s.clients, c, s.sessions[c]);
    assert h in s.sessions[c].offered;
  }

  lemma ShownMakesExact(s: State, shown: Shown, h: Hash)
    requires Settled(s) && ListsShown(s, shown) && AllShown(s, shown)
    ensures FileExact(s, h)
  {
    forall c | c in s.sessions && h in s.sessions[c].offered
      ensures h in s.index && s.sessions[c].id in s.index[h].byClient
    {
      assert h in IndexedBy(s.index, s.sessions[c].id);
    }
    if h in s.index {
      assert EntryOwned(h, s.index[h]);
      var claimant := SomeKey(s.index[h].completes);
      ClaimIsOffer(s, claimant, h);
      forall id | id in s.index[h].byClient
        ensures OffersUnder(s, id, h)
      {
        ClaimIsOffer(s, id, h);
      }
    }
  }

  lemma ExactIsShown(s: State, shown: Shown, c: Conn, h: Hash)
    requires ListsShown(s, shown) && FileExact(s, h) && c in s.sessions && h in s.sessions[c].offered
    ensures h in ShownBy(shown, s.sessions[c].id)
  {
    assert OffersUnder(s, s.sessions[c].id, h);
    assert h in IndexedBy(s.index, s.sessions[c].id);
  }

  lemma SettledExactIff(s: State, shown: Shown)
    requires Settled(s) && ListsShown(s, shown)
    ensures IndexExact(s) <==> AllShown(s, shown)
  {
    if IndexExact(s) {
      forall c, h | c in s.sessions && h in s.sessions[c].offered
        ensures h in ShownBy(shown, s.sessions[c].id)
      {
        assert FileExact(s, h);
        ExactIsShown(s, shown, c, h);
      }
    }
    if AllShown(s, shown) {
      forall h
        ensures FileExact(s, h)
      {
        ShownMakesExact(s, shown, h);
      }
    }
  }

  lemma SingleLoginsSettle(cap: int, steps: seq<Step>)
    requires OpenRuns(cap, INITIAL, steps) && SingleLogins(cap, INITIAL, steps)
    requires Quiescent(OpenAfter(cap, INITIAL, steps))
    ensures Settled(OpenAfter(cap, INITIAL, steps))
  {
    InitialOpenInv();
    OpenRunKeepsInv(cap, INITIAL, steps);
    forall id
      ensures !Former(OpenAfter(cap, INITIAL, steps), id)
    {
      NoFormerIDs(cap, INITIAL, steps, id);
    }
  }

  /**
   Exactly when the index is exact between operations, in any run of single logins: the requests show every
   file that is on offer.
   */
  lemma QuiescentExactIff(cap: int, steps: seq<Step>)
    requires OpenRuns(cap, INITIAL, steps) && SingleLogins(cap, INITIAL, steps)
    requires Quiescent(OpenAfter(cap, INITIAL, steps))
    ensures IndexExact(OpenAfter(cap, INITIAL, steps)) <==> AllShown(OpenAfter(cap, INITIAL, steps), ShownIn(cap, steps))
  {
    SingleLoginsSettle(cap, steps);
    InitialOpenInv();
    RunListsShown(cap, INITIAL, steps, map[]);
    SettledExactIff(OpenAfter(cap, INITIAL, steps), ShownIn(cap, steps));
  }

  /** Every file is listed under exactly the IDs of the sessions that offer it. */
  ghost predicate ListingExact(s: State) {
    forall id, h :: h in IndexedBy(s.index, id) <==> OffersUnder(s, id, h)
  }

  /** No ID without a session shows anything. */
  ghost predicate NothingLeft(s: State, shown: Shown) {
    forall id :: Former(s, id) ==> ShownBy(shown, id) == {}
  }

  /**
   With repeated logins too: between operations the listings are exact if and only if the requests show every
   file that is on offer and none under an ID that has no session any more.
   */
  lemma QuiescentListingIff(cap: int, steps: seq<Step>)
    requires OpenRuns(cap, INITIAL, steps) && Quiescent(OpenAfter(cap, INITIAL, steps))
    ensures var s := OpenAfter(cap, INITIAL, steps);
            ListingExact(s) <==> AllShown(s, ShownIn(cap, steps)) && NothingLeft(s, ShownIn(cap, steps))
  {
    var s, shown := OpenAfter(cap, INITIAL, steps), ShownIn(cap, steps);
    InitialOpenInv();
    OpenRunKeepsInv(cap, INITIAL, steps);
    RunListsShown(cap, INITIAL, steps, map[]);
    if ListingExact(s) {
      ExactShowsAll(s, shown);
    }
    if AllShown(s, shown) && NothingLeft(s, shown) {
      forall id, h
        ensures h in IndexedBy(s.index, id) <==> OffersUnder(s, id, h)
      {
        ShownListsExactly(s, shown, id, h);
      }
    }
  }

  lemma ExactShowsAll(s: State, shown: Shown)
    requires OpenInv(s) && ListsShown(s, shown) && ListingExact(s)
    ensures AllShown(s, shown) && NothingLeft(s, shown)
  {
    forall c, h | c in s.sessions && h in s.sessions[c].offered
      ensures h in ShownBy(shown, s.sessions[c].id)
    {
      assert OffersUnder(s, s.sessions[c].id, h);
    }
    forall id, h | Former(s, id)
      ensures h !in ShownBy(shown, id)
    {
      FormerOffersNothing(s, id, h);
    }
  }

  lemma FormerOffersNothing(s: State, id: ClientID, h: Hash)
    requires OpenInv(s) && Former(s, id)
    ensures !OffersUnder(s, id, h)
  {
    forall c | c in s.sessions
      ensures s.sessions[c].id != id
    {
      assert OwnerOK(s.index, s.clients, c, s.sessions[c]);
    }
  }

  lemma ShownListsExactly(s: State, shown: Shown, id: ClientID, h: Hash)
    requires OpenInv(s) && Quiescent(s) && ListsShown(s, shown) && AllShown(s, shown) && NothingLeft(s, shown)
    ensures h in IndexedBy(s.index, id) <==> OffersUnder(s, id, h)
  {
    assert IndexedBy(s.index, id) == ShownBy(shown, id);
    if h in IndexedBy(s.index, id) {
      assert id in s.clients && !Former(s, id);
      var c := s.clients[id];
      assert OwnerOK(s.index, s.clients, c, s.sessions[c]);
      ListedIsClaimed(s.index, id);
      assert h in s.sessions[c].offered;
    }
  }

  // ---------------------------------------------------------------- files that are lost

  /**
   Exactly when the end of a withdrawal or departure takes a file out of the index, whatever the other handlers
   are in the middle of: the requests under every other ID show the file not. Sessions that offer it all the
   same have lost it.
   */
  lemma OfferedFileIsLostIff(cap: int, steps: seq<Step>, last: Step, h: Hash)
    requires OpenRuns(cap, INITIAL, steps)
    requires var s := OpenAfter(cap, INITIAL, steps);
             && Allowed(s, last) && (last.EndClear? || last.EndLeave?)
             && h in s.index && h in s.sessions[last.c].pending.withdrawn
    ensures var s := OpenAfter(cap, INITIAL, steps);
            h !in Next(cap, s, last).index <==>
            forall id :: id != s.sessions[last.c].id ==> h !in ShownBy(ShownIn(cap, steps), id)
  {
    var s := OpenAfter(cap, INITIAL, steps);
    InitialOpenInv();
    OpenRunKeepsInv(cap, INITIAL, steps);
    RunListsShown(cap, INITIAL, steps, map[]);
    StepRemovesIff(cap, s, last, h);
    assert forall id :: id in s.index[h].byClient <==> h in IndexedBy(s.index, id);
    assert forall id :: h in IndexedBy(s.index, id) <==> h in ShownBy(ShownIn(cap, steps), id);
  }
}
