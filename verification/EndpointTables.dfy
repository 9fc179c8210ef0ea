/**
 The same in terms of the sessions' tables, for runs in which no batch names a file both with and without an
 endpoint. A batch that does can leave a session listed for a file its table has without an endpoint.
 */
module EndpointTables {
  import opened Basics
  import opened Records
  import opened SharedIndex
  import opened ClientIDs
  import opened ShareRegistry
  import opened OpenRegistry
  import opened Listings

  /** No batch of the run contradicts itself about endpoints. */
  predicate AgreeingBatches(steps: seq<Step>) {
    forall i :: 0 <= i < |steps| && steps[i].BeginOffer? ==> Agreeing(steps[i].records)
  }

  /** What a client is or will be listed for, its session's table has with an endpoint. */
  ghost predicate ListedWithEndpoint(s: State) {
    forall c :: c in s.sessions && s.sessions[c].id != 0 ==> EndpointListed(s.index, s.sessions[c])
  }

  ghost predicate EndpointListed(index: Index, session: Session) {
    Final(IndexedBy(index, session.id), session.pending) <= TableEndpoints(session.offered)
  }

  lemma OfferKeepsEndpointListed(index: Index, session: Session, cap: int, records: seq<FileRecord>)
    requires TableOK(session.offered) && session.pending.Idle? && Agreeing(records) && EndpointListed(index, session)
    ensures var batch := TakenAll(session.offered, cap, records);
            EndpointListed(index, Session(session.id, batch.offered, Offering(batch.previous, batch.accepted)))
  {
    BatchEndpoints(session.offered, cap, records);
  }

  lemma StepKeepsListedWithEndpoint(cap: int, s: State, step: Step)
    requires OpenInv(s) && Allowed(s, step) && ListedWithEndpoint(s)
    requires step.BeginOffer? ==> Agreeing(step.records)
    ensures ListedWithEndpoint(Next(cap, s, step))
  {
    var s' := Next(cap, s, step);
    forall d | d in s'.sessions && s'.sessions[d].id != 0
      ensures EndpointListed(s'.index, s'.sessions[d])
    {
      if d == step.c {
        OwnStepKeepsEndpointListed(cap, s, step);
      } else {
        assert OwnerOK(s.index, s.clients, d, s.sessions[d]);
        OtherStepKeepsListing(cap, s, step, d);
      }
    }
  }

  lemma OtherStepKeepsListing(cap: int, s: State, step: Step, d: Conn)
    requires OpenInv(s) && Allowed(s, step) && d in s.sessions && d != step.c && s.sessions[d].id != 0
    ensures var s' := Next(cap, s, step);
            d in s'.sessions && s'.sessions[d] == s.sessions[d] &&
            IndexedBy(s'.index, s.sessions[d].id) == IndexedBy(s.index, s.sessions[d].id)
  {
    assert OwnerOK(s.index, s.clients, d, s.sessions[d]);
    if step.c in s.sessions {
      var session := s.sessions[step.c];
      assert OwnerOK(s.index, s.clients, step.c, session);
      match step
      case EndOffer(_) => OfferLists(s.index, session.id, session.pending.previous, session.pending.accepted);
      case EndClear(_) => WithdrawalLists(s.index, session.id, session.pending.withdrawn);
      case EndLeave(_) => WithdrawalLists(s.index, session.id, session.pending.withdrawn);
      case _ =>
    }
  }

  lemma OwnStepKeepsEndpointListed(cap: int, s: State, step: Step)
    requires OpenInv(s) && Allowed(s, step) && ListedWithEndpoint(s)
    requires step.BeginOffer? ==> Agreeing(step.records)
    requires var s' := Next(cap, s, step); step.c in s'.sessions && s'.sessions[step.c].id != 0
    ensures EndpointListed(Next(cap, s, step).index, Next(cap, s, step).sessions[step.c])
  {
    var c := step.c;
    if !step.Connect? {
      var session := s.sessions[c];
      assert OwnerOK(s.index, s.clients, c, session);
      ListedIsClaimed(s.index, session.id);
      assert session.id != 0 ==> EndpointListed(s.index, session);
      match step
      case Login(_, preferred) => AllocateNeverInUse(s.clients.Keys, s.nextID, preferred);
      case BeginOffer(_, records) => OfferKeepsEndpointListed(s.index, session, cap, records);
      case EndOffer(_) => OfferLists(s.index, session.id, session.pending.previous, session.pending.accepted);
      case EndClear(_) => WithdrawalLists(s.index, session.id, session.pending.withdrawn);
      case EndLeave(_) => WithdrawalLists(s.index, session.id, session.pending.withdrawn);
      case BeginClear(_) => TableHashesCover(session.offered);
      case BeginLeave(_) => TableHashesCover(session.offered);
      case _ =>
    }
  }

  lemma {:induction false} RunKeepsListedWithEndpoint(cap: int, s: State, steps: seq<Step>)
    requires OpenInv(s) && ListedWithEndpoint(s) && OpenRuns(cap, s, steps) && AgreeingBatches(steps)
    ensures ListedWithEndpoint(OpenAfter(cap, s, steps))
    decreases |steps|
  {
    if steps != [] {
      OpenStep(cap, s, steps[0]);
      StepKeepsListedWithEndpoint(cap, s, steps[0]);
      assert AgreeingBatches(steps[1..]);
      RunKeepsListedWithEndpoint(cap, Next(cap, s, steps[0]), steps[1..]);
    }
  }

  /** Between requests a session is listed for exactly what it offers with an endpoint, some of it perhaps under a former ID. */
  lemma EndpointListingIff(cap: int, steps: seq<Step>, c: Conn, h: Hash)
    requires OpenRuns(cap, INITIAL, steps) && AgreeingBatches(steps)
    requires var s := OpenAfter(cap, INITIAL, steps);
             c in s.sessions && s.sessions[c].pending.Idle? && s.sessions[c].id != 0
             && !FormerlyListed(s.index, s.clients, c, s.sessions[c].id, h)
    ensures var s := OpenAfter(cap, INITIAL, steps);
            h in IndexedBy(s.index, s.sessions[c].id) <==> h in s.sessions[c].offered && s.sessions[c].offered[h].endpoints != []
  {
    var s := OpenAfter(cap, INITIAL, steps);
    InitialOpenInv();
    OpenRunKeepsInv(cap, INITIAL, steps);
    RunKeepsListedWithEndpoint(cap, INITIAL, steps);
    assert OwnerOK(s.index, s.clients, c, s.sessions[c]);
    assert EndpointListed(s.index, s.sessions[c]);
    assert h in TableEndpoints(s.sessions[c].offered) <==>
           h in s.sessions[c].offered && s.sessions[c].offered[h].endpoints != [];
  }

  /** Every record in every session's table carries an endpoint. */
  ghost predicate AllWithEndpoint(s: State) {
    forall c, h :: c in s.sessions && h in s.sessions[c].offered ==> s.sessions[c].offered[h].endpoints != []
  }

  lemma SettledListingIff(s: State, c: Conn, h: Hash)
    requires Settled(s) && ListedWithEndpoint(s) && c in s.sessions && h in s.sessions[c].offered
    ensures h in IndexedBy(s.index, s.sessions[c].id) <==> s.sessions[c].offered[h].endpoints != []
  {
    var session := s.sessions[c];
    assert OwnerOK(s.index, s.clients, c, session);
    assert session.id != 0 ==> EndpointListed(s.index, session);
    assert h in TableEndpoints(session.offered) <==> session.offered[h].endpoints != [];
    FormerlyListedByFormer(s, c, h);
  }

  lemma FormerlyListedByFormer(s: State, c: Conn, h: Hash)
    requires c in s.sessions
    ensures FormerlyListed(s.index, s.clients, c, s.sessions[c].id, h) ==> exists id :: Former(s, id)
  {
    if FormerlyListed(s.index, s.clients, c, s.sessions[c].id, h) {
      var id :| id in s.clients && s.clients[id] == c && id != s.sessions[c].id && h in IndexedBy(s.index, id);
      assert Former(s, id);
    }
  }

  /** Between operations, with single logins and batches that agree: the index is exact if and only if every record on offer has an endpoint. */
  lemma EndpointExactIff(cap: int, steps: seq<Step>)
    requires OpenRuns(cap, INITIAL, steps) && AgreeingBatches(steps) && SingleLogins(cap, INITIAL, steps)
    requires Quiescent(OpenAfter(cap, INITIAL, steps))
    ensures IndexExact(OpenAfter(cap, INITIAL, steps)) <==> AllWithEndpoint(OpenAfter(cap, INITIAL, steps))
  {
    var s := OpenAfter(cap, INITIAL, steps);
    QuiescentExactIff(cap, steps);
    SingleLoginsSettle(cap, steps);
    InitialOpenInv();
    RunKeepsListedWithEndpoint(cap, INITIAL, steps);
    forall c, h | c in s.sessions && h in s.sessions[c].offered
      ensures h in ShownBy(ShownIn(cap, steps), s.sessions[c].id) <==> s.sessions[c].offered[h].endpoints != []
    {
      SettledListingIff(s, c, h);
      ListedIffShown(cap, steps, s.sessions[c].id);
    }
  }

  // ---------------------------------------------------------------- files that are lost

  /** Every other session that offers the file offers it without an endpoint, and no former ID is listed for it. */
  ghost predicate OnlyWithoutEndpoint(s: State, d: Conn, h: Hash) {
    && (forall c :: c in s.sessions && c != d && h in s.sessions[c].offered ==> s.sessions[c].offered[h].endpoints == [])
    && (forall id :: Former(s, id) ==> h !in IndexedBy(s.index, id))
  }

  lemma OthersUnlistedIff(s: State, d: Conn, h: Hash)
    requires OpenInv(s) && ListedWithEndpoint(s) && d in s.sessions && s.sessions[d].id != 0 && h in s.index
    requires forall c :: c in s.sessions && c != d ==> s.sessions[c].pending.Idle?
    ensures (forall id :: id in s.index[h].byClient ==> id == s.sessions[d].id) <==> OnlyWithoutEndpoint(s, d, h)
  {
    assert OwnerOK(s.index, s.clients, d, s.sessions[d]);
    forall id | id in s.index[h].byClient
      ensures id == s.sessions[d].id || Former(s, id) || OffersEndpoint(s, d, h)
    {
      ListedElsewhere(s, d, h, id);
    }
    forall c | c in s.sessions && c != d && h in TableEndpoints(s.sessions[c].offered)
      ensures exists id :: id in s.index[h].byClient && id != s.sessions[d].id
    {
      EndpointElsewhere(s, d, c, h);
    }
    forall id | Former(s, id) && h in IndexedBy(s.index, id)
      ensures id in s.index[h].byClient && id != s.sessions[d].id
    {
    }
    OnlyWithoutEndpointSplits(s, d, h);
  }

  /** Another session has an endpoint for the file in its table. */
  ghost predicate OffersEndpoint(s: State, d: Conn, h: Hash) {
    exists c :: c in s.sessions && c != d && h in TableEndpoints(s.sessions[c].offered)
  }

  lemma OnlyWithoutEndpointSplits(s: State, d: Conn, h: Hash)
    ensures OnlyWithoutEndpoint(s, d, h) <==>
            !OffersEndpoint(s, d, h) && forall id :: Former(s, id) ==> h !in IndexedBy(s.index, id)
  {
    forall c | c in s.sessions && c != d && h in s.sessions[c].offered
      ensures h in TableEndpoints(s.sessions[c].offered) <==> s.sessions[c].offered[h].endpoints != []
    {
    }
  }

  lemma ListedElsewhere(s: State, d: Conn, h: Hash, id: ClientID)
    requires OpenInv(s) && ListedWithEndpoint(s) && d in s.sessions && h in s.index && id in s.index[h].byClient
    requires forall c :: c in s.sessions && c != d ==> s.sessions[c].pending.Idle?
    ensures id == s.sessions[d].id || Former(s, id) || OffersEndpoint(s, d, h)
  {
    assert h in IndexedBy(s.index, id);
    assert id in s.clients;
    var c := s.clients[id];
    if !Former(s, id) && c != d {
      assert EndpointListed(s.index, s.sessions[c]);
      assert h in TableEndpoints(s.sessions[c].offered);
    }
  }

  lemma EndpointElsewhere(s: State, d: Conn, c: Conn, h: Hash)
    requires OpenInv(s) && d in s.sessions && s.sessions[d].id != 0 && h in s.index
    requires c in s.sessions && c != d && s.sessions[c].pending.Idle? && h in TableEndpoints(s.sessions[c].offered)
    ensures exists id :: id in s.index[h].byClient && id != s.sessions[d].id
  {
    assert OwnerOK(s.index, s.clients, d, s.sessions[d]);
    assert OwnerOK(s.index, s.clients, c, s.sessions[c]);
    if FormerlyListed(s.index, s.clients, c, s.sessions[c].id, h) {
      var id :| id in s.clients && s.clients[id] == c && id != s.sessions[c].id && h in IndexedBy(s.index, id);
      assert id in s.index[h].byClient && id != s.sessions[d].id;
    } else {
      var id := s.sessions[c].id;
      assert h in IndexedBy(s.index, id);
      assert id != 0;
      assert id in s.index[h].byClient && id != s.sessions[d].id;
    }
  }

  /**
   Exactly when the withdrawal or departure of d takes a file out of the index, in terms of what the sessions
   offer, in any run whose batches do not contradict themselves and with no other handler mid-operation: every
   other session that offers it has no endpoint for it, and no former ID is listed for it. Those sessions
   still offer the file, so it is lost to them.
   */
  lemma EndpointLostIff(cap: int, steps: seq<Step>, last: Step, h: Hash)
    requires OpenRuns(cap, INITIAL, steps) && AgreeingBatches(steps)
    requires var s := OpenAfter(cap, INITIAL, steps);
             && Allowed(s, last) && (last.EndClear? || last.EndLeave?)
             && h in s.index && h in s.sessions[last.c].pending.withdrawn
             && forall c :: c in s.sessions && c != last.c ==> s.sessions[c].pending.Idle?
    ensures var s := OpenAfter(cap, INITIAL, steps);
            h !in Next(cap, s, last).index <==> OnlyWithoutEndpoint(s, last.c, h)
  {
    var s := OpenAfter(cap, INITIAL, steps);
    InitialOpenInv();
    OpenRunKeepsInv(cap, INITIAL, steps);
    RunKeepsListedWithEndpoint(cap, INITIAL, steps);
    LostIff(cap, s, last, h);
  }

  lemma LostIff(cap: int, s: State, last: Step, h: Hash)
    requires OpenInv(s) && ListedWithEndpoint(s) && Allowed(s, last) && (last.EndClear? || last.EndLeave?)
    requires h in s.index && h in s.sessions[last.c].pending.withdrawn
    requires forall c :: c in s.sessions && c != last.c ==> s.sessions[c].pending.Idle?
    ensures h !in Next(cap, s, last).index <==> OnlyWithoutEndpoint(s, last.c, h)
  {
    assert s.sessions[last.c].id != 0 by {
      assert OwnerOK(s.index, s.clients, last.c, s.sessions[last.c]);
    }
    StepRemovesIff(cap, s, last, h);
    OthersUnlistedIff(s, last.c, h);
  }
}
