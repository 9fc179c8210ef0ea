/**
 The register without the assumptions on logins and offers: a session may log in again, which gives it a
 new ID and leaves the old one in the client table, and an offered record may lack an endpoint, which claims
 the file for the client without listing it. What still holds of every run, and exactly what is lost.
 */
module OpenRegistry {
  import opened Basics
  import opened Records
  import opened SharedIndex
  import opened ClientIDs
  import opened ShareRegistry

  // ---------------------------------------------------------------- the invariant

  /** What a client will be listed for once the unfinished work of its handler is done. */
  function Final(listed: set<Hash>, pending: Pending): set<Hash> {
    match pending
    case Idle => listed
    case Left => listed
    case Offering(previous, accepted) => (listed - HashSet(previous)) + EndpointHashes(accepted)
    case Clearing(withdrawn) => listed - withdrawn
    case Leaving(withdrawn) => listed - withdrawn
  }

  /** What a client may have claims on: its table, and what its handler is about to withdraw. */
  function Covered(session: Session): set<Hash> {
    match session.pending
    case Clearing(withdrawn) => withdrawn
    case Leaving(withdrawn) => withdrawn
    case _ => session.offered.Keys
  }

  /** The file is listed under an earlier ID of the connection. */
  ghost predicate FormerlyListed(index: Index, clients: map<ClientID, Conn>, c: Conn, current: ClientID, h: Hash) {
    exists id :: id in clients && clients[id] == c && id != current && h in IndexedBy(index, id)
  }

  /** What the handler carries fits the session's table. */
  ghost predicate PendingOK(session: Session) {
    match session.pending
    case Idle => true
    case Left => session.id != 0 ==> session.offered == map[]
    case Offering(previous, accepted) =>
      session.id != 0 && HashSet(previous) <= HashSet(accepted) && HashSet(accepted) <= session.offered.Keys
    case Clearing(_) => session.id != 0 && session.offered == map[]
    case Leaving(_) => session.id != 0 && session.offered == map[]
  }

  /**
   A session's claims stay within what it offers, those its handler is about to offer again are about to be
   withdrawn first, and what it offers with an endpoint is listed, or will be
   once its handler is done, under its current ID or an earlier one.
   */
  ghost predicate OwnerOK(index: Index, clients: map<ClientID, Conn>, c: Conn, session: Session) {
    && TableOK(session.offered)
    && PendingOK(session)
    && (session.id != 0 ==> session.id in clients && clients[session.id] == c)
    && (session.id != 0 ==> ClaimedBy(index, session.id) <= Covered(session))
    && (session.pending.Offering? ==>
          ClaimedBy(index, session.id) * HashSet(session.pending.accepted) <= HashSet(session.pending.previous))
    && (forall h :: h in TableEndpoints(session.offered) ==>
          h in Final(IndexedBy(index, session.id), session.pending) || FormerlyListed(index, clients, c, session.id, h))
  }

  ghost predicate OpenInv(s: State) {
    && EntriesOwned(s.index)
    && -TWO_31 <= s.nextID < TWO_31
    && 0 !in s.clients
    && (forall id :: id !in s.clients ==> ClaimedBy(s.index, id) == {} && IndexedBy(s.index, id) == {})
    && (forall c :: c in s.sessions ==> OwnerOK(s.index, s.clients, c, s.sessions[c]))
  }

  lemma InitialOpenInv()
    ensures OpenInv(INITIAL)
  {
  }

  lemma OpenLogin(cap: int, s: State, c: Conn, preferred: ClientID)
    requires OpenInv(s) && Allowed(s, Login(c, preferred))
    ensures OpenInv(Next(cap, s, Login(c, preferred)))
  {
    AllocateNeverInUse(s.clients.Keys, s.nextID, preferred);
    var s' := Next(cap, s, Login(c, preferred));
    forall d | d in s'.sessions
      ensures OwnerOK(s'.index, s'.clients, d, s'.sessions[d])
    {
      assert OwnerOK(s.index, s.clients, d, s.sessions[d]);
      LoginKeepsOwner(s, s', c, d);
    }
  }

  /** An ID that nobody has used yet changes nothing for other sessions, and leaves c's listings under an earlier ID. */
  lemma LoginKeepsOwner(s: State, s': State, c: Conn, d: Conn)
    requires OpenInv(s) && c in s.sessions && d in s.sessions && OwnerOK(s.index, s.clients, d, s.sessions[d])
    requires s.sessions[c].pending.Idle?
    requires c in s'.sessions
    requires var id := s'.sessions[c].id;
             && id !in s.clients
             && s' == WithSession(s, c, s.sessions[c].(id := id)).(clients := if id == 0 then s.clients else s.clients[id := c], nextID := s'.nextID)
    ensures OwnerOK(s'.index, s'.clients, d, s'.sessions[d])
  {
    var session := s'.sessions[d];
    forall h | h in TableEndpoints(session.offered)
      ensures h in Final(IndexedBy(s'.index, session.id), session.pending)
              || FormerlyListed(s'.index, s'.clients, d, session.id, h)
    {
      if FormerlyListed(s.index, s.clients, d, s.sessions[d].id, h) {
        var id :| id in s.clients && s.clients[id] == d && id != s.sessions[d].id && h in IndexedBy(s.index, id);
        assert id in s'.clients && s'.clients[id] == d && id != session.id && h in IndexedBy(s'.index, id);
      } else if d == c {
        var id := s.sessions[c].id;
        assert h in IndexedBy(s.index, id);
        assert id in s'.clients && s'.clients[id] == c && id != session.id && h in IndexedBy(s'.index, id);
      }
    }
  }

  /** A change to one session keeps the invariant if that session stays in order. */
  lemma OwnerChange(s: State, c: Conn, session: Session)
    requires OpenInv(s) && OwnerOK(s.index, s.clients, c, session)
    ensures OpenInv(WithSession(s, c, session))
  {
    var s' := WithSession(s, c, session);
    forall d | d in s'.sessions
      ensures OwnerOK(s'.index, s'.clients, d, s'.sessions[d])
    {
      assert d != c ==> OwnerOK(s.index, s.clients, d, s.sessions[d]);
    }
  }

  /** So does a change of the index that lists the same for all other IDs and adds no claims for them. */
  lemma OpenIndexChange(s: State, c: Conn, session: Session, index: Index)
    requires OpenInv(s) && c in s.sessions && session.id == s.sessions[c].id && session.id != 0
    requires EntriesOwned(index) && OwnerOK(index, s.clients, c, session)
    requires forall id :: id != session.id ==> IndexedBy(index, id) == IndexedBy(s.index, id)
    requires forall id :: id != session.id ==> ClaimedBy(index, id) <= ClaimedBy(s.index, id)
    ensures OpenInv(WithSession(s, c, session).(index := index))
  {
    var s' := WithSession(s, c, session).(index := index);
    assert OwnerOK(s.index, s.clients, c, s.sessions[c]);
    forall d | d in s'.sessions
      ensures OwnerOK(s'.index, s'.clients, d, s'.sessions[d])
    {
      if d != c {
        assert OwnerOK(s.index, s.clients, d, s.sessions[d]);
        OthersKeepOwner(s.index, index, s.clients, session.id, d, s.sessions[d]);
      }
    }
  }

  lemma OthersKeepOwner(before: Index, after: Index, clients: map<ClientID, Conn>, changed: ClientID, d: Conn, session: Session)
    requires OwnerOK(before, clients, d, session)
    requires changed != 0 && changed in clients && clients[changed] != d
    requires forall id :: id != changed ==> IndexedBy(after, id) == IndexedBy(before, id)
    requires forall id :: id != changed ==> ClaimedBy(after, id) <= ClaimedBy(before, id)
    ensures OwnerOK(after, clients, d, session)
  {
    assert session.id != changed;
    forall h | h in TableEndpoints(session.offered)
      ensures h in Final(IndexedBy(after, session.id), session.pending) || FormerlyListed(after, clients, d, session.id, h)
    {
      if FormerlyListed(before, clients, d, session.id, h) {
        var id :| id in clients && clients[id] == d && id != session.id && h in IndexedBy(before, id);
        assert h in IndexedBy(after, id);
      }
    }
  }

  lemma OpenBeginOffer(cap: int, s: State, c: Conn, records: seq<FileRecord>)
    requires OpenInv(s) && Allowed(s, BeginOffer(c, records))
    ensures OpenInv(Next(cap, s, BeginOffer(c, records)))
  {
    var session := s.sessions[c];
    assert OwnerOK(s.index, s.clients, c, session);
    var batch := TakenAll(session.offered, cap, records);
    var taken := Session(session.id, batch.offered, Offering(batch.previous, batch.accepted));
    BatchTable(session.offered, cap, records, |records|);
    BatchEndpoints(session.offered, cap, records);
    assert OwnerOK(s.index, s.clients, c, taken);
    OwnerChange(s, c, taken);
  }

  lemma OpenTableEmpties(s: State, c: Conn, leaving: bool)
    requires OpenInv(s) && c in s.sessions && s.sessions[c].pending.Idle? && s.sessions[c].id != 0
    ensures OpenInv(TableEmpties(s, c, leaving))
  {
    var session := s.sessions[c];
    assert OwnerOK(s.index, s.clients, c, session);
    var withdrawn := TableHashes(session.offered);
    TableHashesCover(session.offered);
    var emptied := Session(session.id, map[], if leaving then Leaving(withdrawn) else Clearing(withdrawn));
    assert OwnerOK(s.index, s.clients, c, emptied);
    OwnerChange(s, c, emptied);
  }

  lemma OpenEndOffer(cap: int, s: State, c: Conn)
    requires OpenInv(s) && Allowed(s, EndOffer(c))
    ensures OpenInv(Next(cap, s, EndOffer(c)))
  {
    var session := s.sessions[c];
    var Offering(previous, accepted) := session.pending;
    assert OwnerOK(s.index, s.clients, c, session);
    var index := Offered(s.index, session.id, previous, accepted);
    OfferLists(s.index, session.id, previous, accepted);
    OwnListingSettles(s.index, index, s.clients, c, session, Idle);
    OpenIndexChange(s, c, session.(pending := Idle), index);
  }

  /** When the handler's work reaches the index as foreseen, its session is in order with nothing left to do. */
  lemma OwnListingSettles(before: Index, after: Index, clients: map<ClientID, Conn>, c: Conn, session: Session, done: Pending)
    requires OwnerOK(before, clients, c, session) && session.id != 0
    requires done.Idle? || (done.Left? && session.offered == map[])
    requires IndexedBy(after, session.id) == Final(IndexedBy(before, session.id), session.pending)
    requires ClaimedBy(after, session.id) <= session.offered.Keys
    requires forall id :: id != session.id ==> IndexedBy(after, id) == IndexedBy(before, id)
    ensures OwnerOK(after, clients, c, session.(pending := done))
  {
    forall h | h in TableEndpoints(session.offered)
      ensures h in IndexedBy(after, session.id) || FormerlyListed(after, clients, c, session.id, h)
    {
      if FormerlyListed(before, clients, c, session.id, h) {
        var id :| id in clients && clients[id] == c && id != session.id && h in IndexedBy(before, id);
        assert h in IndexedBy(after, id);
      }
    }
  }

  lemma OpenWithdraw(s: State, c: Conn, done: Pending)
    requires OpenInv(s) && c in s.sessions
    requires (s.sessions[c].pending.Clearing? && done == Idle) || (s.sessions[c].pending.Leaving? && done == Left)
    ensures OpenInv(WithPending(s, c, done).(index := RemovedAll(s.index, s.sessions[c].id, s.sessions[c].pending.withdrawn)))
  {
    var session := s.sessions[c];
    assert OwnerOK(s.index, s.clients, c, session);
    var index := RemovedAll(s.index, session.id, session.pending.withdrawn);
    WithdrawalLists(s.index, session.id, session.pending.withdrawn);
    OwnListingSettles(s.index, index, s.clients, c, session, done);
    OpenIndexChange(s, c, session.(pending := done), index);
  }

  lemma OpenUnregister(cap: int, s: State, c: Conn)
    requires OpenInv(s) && Allowed(s, Unregister(c))
    ensures OpenInv(Next(cap, s, Unregister(c)))
  {
    var s' := Next(cap, s, Unregister(c));
    var gone := s.sessions[c].id;
    assert OwnerOK(s.index, s.clients, c, s.sessions[c]);
    assert ClaimedBy(s.index, gone) == {};
    assert IndexedBy(s.index, gone) == {} by { ListedIsClaimed(s.index, gone); }
    forall d | d in s'.sessions
      ensures OwnerOK(s'.index, s'.clients, d, s'.sessions[d])
    {
      assert OwnerOK(s.index, s.clients, d, s.sessions[d]);
      UnregisterKeepsOwner(s, s', c, d);
    }
  }

  lemma UnregisterKeepsOwner(s: State, s': State, c: Conn, d: Conn)
    requires c in s.sessions && d in s.sessions && d != c
    requires OwnerOK(s.index, s.clients, d, s.sessions[d])
    requires var gone := s.sessions[c].id;
             && IndexedBy(s.index, gone) == {}
             && s' == s.(sessions := s.sessions - {c},
                         clients := if gone in s.clients && s.clients[gone] == c then s.clients - {gone} else s.clients)
    ensures OwnerOK(s'.index, s'.clients, d, s'.sessions[d])
  {
    var session := s.sessions[d];
    forall h | h in TableEndpoints(session.offered)
      ensures h in Final(IndexedBy(s'.index, session.id), session.pending)
              || FormerlyListed(s'.index, s'.clients, d, session.id, h)
    {
      if FormerlyListed(s.index, s.clients, d, session.id, h) {
        var id :| id in s.clients && s.clients[id] == d && id != session.id && h in IndexedBy(s.index, id);
        assert id in s'.clients && s'.clients[id] == d;
      }
    }
  }

  lemma ListedIsClaimed(index: Index, id: ClientID)
    requires EntriesOwned(index)
    ensures IndexedBy(index, id) <= ClaimedBy(index, id)
  {
    forall h | h in IndexedBy(index, id)
      ensures h in ClaimedBy(index, id)
    {
      assert EntryOwned(h, index[h]);
    }
  }

  lemma OpenBeginLeave(cap: int, s: State, c: Conn)
    requires OpenInv(s) && Allowed(s, BeginLeave(c))
    ensures OpenInv(Next(cap, s, BeginLeave(c)))
  {
    if s.sessions[c].id != 0 {
      OpenTableEmpties(s, c, true);
    } else {
      assert OwnerOK(s.index, s.clients, c, s.sessions[c]);
      OwnerChange(s, c, s.sessions[c].(pending := Left));
    }
  }

  /** Every step of every handler keeps the weaker invariant. */
  lemma OpenStep(cap: int, s: State, step: Step)
    requires OpenInv(s) && Allowed(s, step)
    ensures OpenInv(Next(cap, s, step))
  {
    match step
    case Connect(c) => OwnerChange(s, c, Session(0, map[], Idle));
    case Login(c, preferred) => OpenLogin(cap, s, c, preferred);
    case BeginOffer(c, records) => OpenBeginOffer(cap, s, c, records);
    case EndOffer(c) => OpenEndOffer(cap, s, c);
    case BeginClear(c) => OpenTableEmpties(s, c, false);
    case EndClear(c) => OpenWithdraw(s, c, Idle);
    case BeginLeave(c) => OpenBeginLeave(cap, s, c);
    case EndLeave(c) => OpenWithdraw(s, c, Left);
    case Unregister(c) => OpenUnregister(cap, s, c);
  }

  lemma {:induction false} OpenRunKeepsInv(cap: int, s: State, steps: seq<Step>)
    requires OpenInv(s) && OpenRuns(cap, s, steps)
    ensures OpenInv(OpenAfter(cap, s, steps))
    decreases |steps|
  {
    if steps != [] {
      OpenStep(cap, s, steps[0]);
      OpenRunKeepsInv(cap, Next(cap, s, steps[0]), steps[1..]);
    }
  }

  // ---------------------------------------------------------------- earlier IDs

  /** An ID in the client table that is not the current ID of a live session. */
  predicate Former(s: State, id: ClientID) {
    id in s.clients && !(s.clients[id] in s.sessions && s.sessions[s.clients[id]].id == id)
  }

  /** The step is a login of a session that has an ID already. */
  predicate LogsInAgain(s: State, step: Step)
    requires Allowed(s, step)
  {
    step.Login? && s.sessions[step.c].id != 0
  }

  /** An ID becomes a former one exactly when its session logs in again, and stays one for ever. */
  lemma FormerIff(cap: int, s: State, step: Step, id: ClientID)
    requires OpenInv(s) && Allowed(s, step)
    ensures Former(Next(cap, s, step), id) <==>
            Former(s, id) || (LogsInAgain(s, step) && id == s.sessions[step.c].id)
  {
    if step.c in s.sessions {
      assert OwnerOK(s.index, s.clients, step.c, s.sessions[step.c]);
    }
    if step.Login? {
      AllocateNeverInUse(s.clients.Keys, s.nextID, step.preferred);
    }
  }

  /** What is listed under a former ID is beyond the reach of every handler. */
  lemma FormerListingStays(cap: int, s: State, step: Step, id: ClientID)
    requires OpenInv(s) && Allowed(s, step) && Former(s, id)
    ensures IndexedBy(Next(cap, s, step).index, id) == IndexedBy(s.index, id)
  {
    if step.c in s.sessions {
      assert OwnerOK(s.index, s.clients, step.c, s.sessions[step.c]);
      var session := s.sessions[step.c];
      match step
      case EndOffer(_) => OfferLists(s.index, session.id, session.pending.previous, session.pending.accepted);
      case EndClear(_) => WithdrawalLists(s.index, session.id, session.pending.withdrawn);
      case EndLeave(_) => WithdrawalLists(s.index, session.id, session.pending.withdrawn);
      case _ =>
    }
  }

  lemma {:induction false} FormerListingStaysForEver(cap: int, s: State, steps: seq<Step>, id: ClientID)
    requires OpenInv(s) && OpenRuns(cap, s, steps) && Former(s, id)
    ensures Former(OpenAfter(cap, s, steps), id)
    ensures IndexedBy(OpenAfter(cap, s, steps).index, id) == IndexedBy(s.index, id)
    decreases |steps|
  {
    if steps != [] {
      OpenStep(cap, s, steps[0]);
      FormerIff(cap, s, steps[0], id);
      FormerListingStays(cap, s, steps[0], id);
      FormerListingStaysForEver(cap, Next(cap, s, steps[0]), steps[1..], id);
    }
  }

  /**
   A second login: whatever the session and everyone else do afterwards, also when it clears its offer or
   leaves, its old ID is listed for exactly the files it was listed for at that moment.
   */
  lemma SecondLoginLeavesListing(cap: int, s: State, c: Conn, preferred: ClientID, later: seq<Step>, h: Hash)
    requires OpenInv(s) && Allowed(s, Login(c, preferred)) && s.sessions[c].id != 0
    requires OpenRuns(cap, Next(cap, s, Login(c, preferred)), later)
    ensures var end := OpenAfter(cap, Next(cap, s, Login(c, preferred)), later);
            h in IndexedBy(end.index, s.sessions[c].id) <==> h in IndexedBy(s.index, s.sessions[c].id)
  {
    var login := Login(c, preferred);
    OpenStep(cap, s, login);
    FormerIff(cap, s, login, s.sessions[c].id);
    FormerListingStaysForEver(cap, Next(cap, s, login), later, s.sessions[c].id);
  }

  // ---------------------------------------------------------------- the index and the tables

  /** What a client is listed for, it offers, unless its handler is about to withdraw it. */
  lemma ListedIsOffered(cap: int, steps: seq<Step>, c: Conn)
    requires OpenRuns(cap, INITIAL, steps) && c in OpenAfter(cap, INITIAL, steps).sessions
    ensures var s := OpenAfter(cap, INITIAL, steps);
            s.sessions[c].id != 0 ==> IndexedBy(s.index, s.sessions[c].id) <= Covered(s.sessions[c])
  {
    var s := OpenAfter(cap, INITIAL, steps);
    InitialOpenInv();
    OpenRunKeepsInv(cap, INITIAL, steps);
    assert OwnerOK(s.index, s.clients, c, s.sessions[c]);
    ListedIsClaimed(s.index, s.sessions[c].id);
  }

  /** Between operations every file of the index is offered by some session or belongs to a former ID. */
  lemma IndexedIsOffered(cap: int, steps: seq<Step>, h: Hash)
    requires OpenRuns(cap, INITIAL, steps) && Quiescent(OpenAfter(cap, INITIAL, steps))
    requires h in OpenAfter(cap, INITIAL, steps).index
    ensures var s := OpenAfter(cap, INITIAL, steps);
            || (exists c :: c in s.sessions && h in s.sessions[c].offered)
            || (exists id :: Former(s, id) && id in s.index[h].completes)
  {
    var s := OpenAfter(cap, INITIAL, steps);
    InitialOpenInv();
    OpenRunKeepsInv(cap, INITIAL, steps);
    assert EntryOwned(h, s.index[h]);
    var id := SomeKey(s.index[h].completes);
    assert h in ClaimedBy(s.index, id);
    if !Former(s, id) {
      var c := s.clients[id];
      assert OwnerOK(s.index, s.clients, c, s.sessions[c]);
      assert h in s.sessions[c].offered;
    }
  }

  // ---------------------------------------------------------------- files that are lost

  /** Exactly when a step removes a file: it ends a withdrawal of the file, and no other client is listed for it. */
  lemma StepRemovesIff(cap: int, s: State, step: Step, h: Hash)
    requires OpenInv(s) && Allowed(s, step) && h in s.index
    ensures h !in Next(cap, s, step).index <==>
            && (step.EndClear? || step.EndLeave?)
            && h in s.sessions[step.c].pending.withdrawn
            && forall id :: id in s.index[h].byClient ==> id == s.sessions[step.c].id
  {
    if step.c in s.sessions {
      var session := s.sessions[step.c];
      assert OwnerOK(s.index, s.clients, step.c, session);
      match step
      case EndOffer(_) => OfferRemovesNothing(s.index, session.id, session.pending.previous, session.pending.accepted);
      case EndClear(_) => WithdrawalRemovesIff(s.index, session.id, session.pending.withdrawn, h);
      case EndLeave(_) => WithdrawalRemovesIff(s.index, session.id, session.pending.withdrawn, h);
      case _ =>
    }
  }
}
