/**
 The register of shared files as a machine of interleaved client handlers. Each handler works through
 its requests one at a time, and an offer, a withdrawal or a disconnect is two or three separate critical
 sections, so that between them other handlers see a session's table and the shared index disagree.
 */
module ShareRegistry {
  import opened Basics
  import opened Records
  import opened SharedIndex
  import opened ClientIDs

  /** A connection, standing for the session object that belongs to it. */
  type Conn = nat

  /** What a handler still has to do in the shared index, with the locals it carries there. */
  datatype Pending =
    | Idle
    | Offering(previous: seq<FileRecord>, accepted: seq<FileRecord>)
    | Clearing(withdrawn: set<Hash>)
    | Leaving(withdrawn: set<Hash>)
    | Left

  /** id is zero until the login. */
  datatype Session = Session(id: ClientID, offered: map<Hash, FileRecord>, pending: Pending)

  datatype State = State(
    sessions: map<Conn, Session>,
    clients: map<ClientID, Conn>,
    index: Index,
    nextID: ClientID)

  const INITIAL := State(map[], map[], map[], FIRST_ID)

  /** One critical section of the handler of connection c. */
  datatype Step =
    | Connect(c: Conn)
    | Login(c: Conn, preferred: ClientID)
    | BeginOffer(c: Conn, records: seq<FileRecord>)
    | EndOffer(c: Conn)
    | BeginClear(c: Conn)
    | EndClear(c: Conn)
    | BeginLeave(c: Conn)
    | EndLeave(c: Conn)
    | Unregister(c: Conn)

  /**
   What the handlers do. A session logs in at any time between requests, also again, and offers any records.
   A connection that the client table still points to is not used for a new session.
   */
  predicate Allowed(s: State, step: Step) {
    if step.Connect? then step.c !in s.sessions && step.c !in s.clients.Values
    else
      step.c in s.sessions &&
      var session := s.sessions[step.c];
      match step
      case Connect(_) => false
      case Login(_, _) => session.pending.Idle? && |s.clients| < TWO_32
      case BeginOffer(_, records) => session.pending.Idle? && session.id != 0 && records != []
      case EndOffer(_) => session.pending.Offering?
      case BeginClear(_) => session.pending.Idle? && session.id != 0
      case EndClear(_) => session.pending.Clearing?
      case BeginLeave(_) => session.pending.Idle?
      case EndLeave(_) => session.pending.Leaving?
      case Unregister(_) => session.pending.Left?
  }

  /** The same under the assumptions: one login per session, free numbers left, an endpoint in every record. */
  predicate Enabled(s: State, step: Step) {
    && Allowed(s, step)
    && (step.Login? ==> s.sessions[step.c].id == 0 && s.nextID + |s.clients| < TWO_31 - 1)
    && (step.BeginOffer? ==> forall i :: 0 <= i < |step.records| ==> Offerable(step.records[i]))
  }

  function WithSession(s: State, c: Conn, session: Session): State {
    s.(sessions := s.sessions[c := session])
  }

  function WithPending(s: State, c: Conn, pending: Pending): State
    requires c in s.sessions
  {
    WithSession(s, c, s.sessions[c].(pending := pending))
  }

  /** The session registered under an ID takes a batch into its table; the handler of c carries on with it. */
  function TableTakes(s: State, c: Conn, cap: int, records: seq<FileRecord>): State
    requires c in s.sessions
  {
    var id := s.sessions[c].id;
    if id in s.clients && s.clients[id] in s.sessions then
      var owner := s.clients[id];
      var batch := TakenAll(s.sessions[owner].offered, cap, records);
      var s' := WithSession(s, owner, s.sessions[owner].(offered := batch.offered));
      WithPending(s', c, Offering(batch.previous, batch.accepted))
    else s
  }

  /** The session registered under an ID empties its table; the handler of c carries on with the withdrawn hashes. */
  function TableEmpties(s: State, c: Conn, leaving: bool): State
    requires c in s.sessions
  {
    var id := s.sessions[c].id;
    if id in s.clients && s.clients[id] in s.sessions then
      var owner := s.clients[id];
      var withdrawn := TableHashes(s.sessions[owner].offered);
      var s' := WithSession(s, owner, s.sessions[owner].(offered := map[]));
      WithPending(s', c, if leaving then Leaving(withdrawn) else Clearing(withdrawn))
    else if leaving then WithPending(s, c, Left)
    else s
  }

  function Next(cap: int, s: State, step: Step): State
    requires Allowed(s, step)
  {
    match step
    case Connect(c) => WithSession(s, c, Session(0, map[], Idle))
    case Login(c, preferred) =>
      var a := Allocate(s.clients.Keys, s.nextID, preferred);
      var clients := if a.id == 0 then s.clients else s.clients[a.id := c];
      WithSession(s, c, s.sessions[c].(id := a.id)).(clients := clients, nextID := a.nextID)
    case BeginOffer(c, records) => TableTakes(s, c, cap, records)
    case EndOffer(c) =>
      var session := s.sessions[c];
      WithPending(s, c, Idle).(index := Offered(s.index, session.id, session.pending.previous, session.pending.accepted))
    case BeginClear(c) => TableEmpties(s, c, false)
    case EndClear(c) =>
      var session := s.sessions[c];
      WithPending(s, c, Idle).(index := RemovedAll(s.index, session.id, session.pending.withdrawn))
    case BeginLeave(c) => if s.sessions[c].id == 0 then WithPending(s, c, Left) else TableEmpties(s, c, true)
    case EndLeave(c) =>
      var session := s.sessions[c];
      WithPending(s, c, Left).(index := RemovedAll(s.index, session.id, session.pending.withdrawn))
    case Unregister(c) =>
      var id := s.sessions[c].id;
      var clients := if id in s.clients && s.clients[id] == c then s.clients - {id} else s.clients;
      s.(sessions := s.sessions - {c}, clients := clients)
  }

  predicate Runs(cap: int, s: State, steps: seq<Step>)
    decreases |steps|
  {
    steps != [] ==> Enabled(s, steps[0]) && Runs(cap, Next(cap, s, steps[0]), steps[1..])
  }

  function After(cap: int, s: State, steps: seq<Step>): State
    requires Runs(cap, s, steps)
    decreases |steps|
  {
    if steps == [] then s else After(cap, Next(cap, s, steps[0]), steps[1..])
  }

  /** The same for steps that are merely allowed: sessions may log in again and records may lack an endpoint. */
  predicate OpenRuns(cap: int, s: State, steps: seq<Step>)
    decreases |steps|
  {
    steps != [] ==> Allowed(s, steps[0]) && OpenRuns(cap, Next(cap, s, steps[0]), steps[1..])
  }

  function OpenAfter(cap: int, s: State, steps: seq<Step>): State
    requires OpenRuns(cap, s, steps)
    decreases |steps|
  {
    if steps == [] then s else OpenAfter(cap, Next(cap, s, steps[0]), steps[1..])
  }

  // ---------------------------------------------------------------- the invariant

  /** How a session's table, its unfinished work and its share of the index fit together. */
  ghost predicate SessionOK(index: Index, session: Session) {
    var indexed := IndexedBy(index, session.id);
    && TableOK(session.offered)
    && (session.id == 0 ==> session.offered == map[] && (session.pending.Idle? || session.pending.Left?))
    && (session.id != 0 ==>
          match session.pending
          case Idle => indexed == session.offered.Keys
          case Offering(previous, accepted) =>
            && (indexed - HashSet(previous)) + HashSet(accepted) == session.offered.Keys
            && HashSet(previous) <= HashSet(accepted)
            && (forall i :: 0 <= i < |accepted| ==> Offerable(accepted[i]))
          case Clearing(withdrawn) => indexed <= withdrawn && session.offered == map[]
          case Leaving(withdrawn) => indexed <= withdrawn && session.offered == map[]
          case Left => indexed == {} && session.offered == map[])
  }

  /** The client table lists exactly the logged-in sessions, each under its own ID. */
  ghost predicate ClientsOK(s: State) {
    && (forall id :: id in s.clients ==> id != 0 && s.clients[id] in s.sessions && s.sessions[s.clients[id]].id == id)
    && (forall c :: c in s.sessions && s.sessions[c].id != 0 ==> s.sessions[c].id in s.clients && s.clients[s.sessions[c].id] == c)
  }

  ghost predicate Inv(s: State) {
    && IndexOK(s.index)
    && ClientsOK(s)
    && (forall c :: c in s.sessions ==> SessionOK(s.index, s.sessions[c]))
    && (forall id :: id !in s.clients ==> IndexedBy(s.index, id) == {})
    && s.nextID > 0
  }

  lemma InitialInv()
    ensures Inv(INITIAL)
  {
  }

  lemma LoginKeepsInv(cap: int, s: State, c: Conn, preferred: ClientID)
    requires Inv(s) && Enabled(s, Login(c, preferred))
    ensures Inv(Next(cap, s, Login(c, preferred)))
  {
    AllocateFresh(s.clients.Keys, s.nextID, preferred);
    var s' := Next(cap, s, Login(c, preferred));
    forall d | d in s'.sessions
      ensures SessionOK(s'.index, s'.sessions[d])
    {
      assert SessionOK(s.index, s.sessions[d]);
    }
  }

  /** A change to one session's table or unfinished work keeps the invariant if that session stays in order. */
  lemma SessionChangeKeepsInv(s: State, c: Conn, session: Session)
    requires Inv(s) && c in s.sessions && session.id == s.sessions[c].id && SessionOK(s.index, session)
    ensures Inv(WithSession(s, c, session))
  {
    var s' := WithSession(s, c, session);
    forall d | d in s'.sessions
      ensures SessionOK(s'.index, s'.sessions[d])
    {
      assert d != c ==> SessionOK(s.index, s.sessions[d]);
    }
  }

  /** So does a change of the index that only concerns this session's ID. */
  lemma IndexChangeKeepsInv(s: State, c: Conn, session: Session, index: Index)
    requires Inv(s) && c in s.sessions && session.id == s.sessions[c].id && session.id != 0
    requires IndexOK(index) && SessionOK(index, session)
    requires forall id :: id != session.id ==> IndexedBy(index, id) == IndexedBy(s.index, id)
    ensures Inv(WithSession(s, c, session).(index := index))
  {
    var s' := WithSession(s, c, session).(index := index);
    assert s.clients[session.id] == c;
    forall d | d in s'.sessions
      ensures SessionOK(s'.index, s'.sessions[d])
    {
      if d != c {
        assert SessionOK(s.index, s.sessions[d]);
        assert s.sessions[d].id != 0 ==> s.clients[s.sessions[d].id] == d;
      }
    }
  }

  lemma BatchKeepsSessionOK(index: Index, session: Session, cap: int, records: seq<FileRecord>)
    requires SessionOK(index, session) && session.pending.Idle? && session.id != 0
    requires forall i :: 0 <= i < |records| ==> Offerable(records[i])
    ensures var batch := TakenAll(session.offered, cap, records);
            SessionOK(index, Session(session.id, batch.offered, Offering(batch.previous, batch.accepted)))
  {
    BatchTable(session.offered, cap, records, |records|);
    AcceptedFromBatch(session.offered, cap, records, |records|);
    var batch := TakenAll(session.offered, cap, records);
    forall i | 0 <= i < |batch.accepted|
      ensures Offerable(batch.accepted[i])
    {
      assert batch.accepted[i] in records;
    }
  }

  lemma BeginOfferKeepsInv(cap: int, s: State, c: Conn, records: seq<FileRecord>)
    requires Inv(s) && Enabled(s, BeginOffer(c, records))
    ensures Inv(Next(cap, s, BeginOffer(c, records)))
  {
    var session := s.sessions[c];
    assert SessionOK(s.index, session);
    BatchKeepsSessionOK(s.index, session, cap, records);
    var batch := TakenAll(session.offered, cap, records);
    SessionChangeKeepsInv(s, c, Session(session.id, batch.offered, Offering(batch.previous, batch.accepted)));
    OwnTableTakes(s, c, cap, records);
  }

  /** A registered handler's offer goes to its own table. */
  lemma OwnTableTakes(s: State, c: Conn, cap: int, records: seq<FileRecord>)
    requires c in s.sessions && s.sessions[c].id in s.clients && s.clients[s.sessions[c].id] == c
    ensures var session := s.sessions[c];
            var batch := TakenAll(session.offered, cap, records);
            TableTakes(s, c, cap, records) ==
            WithSession(s, c, Session(session.id, batch.offered, Offering(batch.previous, batch.accepted)))
  {
  }

  lemma OwnTableEmpties(s: State, c: Conn, leaving: bool)
    requires c in s.sessions && s.sessions[c].id in s.clients && s.clients[s.sessions[c].id] == c
    ensures var session := s.sessions[c];
            var withdrawn := TableHashes(session.offered);
            TableEmpties(s, c, leaving) ==
            WithSession(s, c, Session(session.id, map[], if leaving then Leaving(withdrawn) else Clearing(withdrawn)))
  {
  }

  lemma EndOfferKeepsInv(cap: int, s: State, c: Conn)
    requires Inv(s) && Enabled(s, EndOffer(c))
    ensures Inv(Next(cap, s, EndOffer(c)))
  {
    var session := s.sessions[c];
    assert SessionOK(s.index, session);
    OfferKeeps(s.index, session.id, session.pending.previous, session.pending.accepted);
    IndexChangeKeepsInv(s, c, session.(pending := Idle),
                        Offered(s.index, session.id, session.pending.previous, session.pending.accepted));
  }

  lemma TableHashesCover(offered: map<Hash, FileRecord>)
    requires TableOK(offered)
    ensures offered.Keys <= TableHashes(offered)
  {
    forall h | h in offered
      ensures h in TableHashes(offered)
    {
      assert offered[h].hash == h;
    }
  }

  lemma TableEmptiesKeepsInv(s: State, c: Conn, leaving: bool)
    requires Inv(s) && c in s.sessions && s.sessions[c].pending.Idle? && s.sessions[c].id != 0
    ensures Inv(TableEmpties(s, c, leaving))
  {
    var session := s.sessions[c];
    assert SessionOK(s.index, session);
    var withdrawn := TableHashes(session.offered);
    TableHashesCover(session.offered);
    SessionChangeKeepsInv(s, c, Session(session.id, map[], if leaving then Leaving(withdrawn) else Clearing(withdrawn)));
    OwnTableEmpties(s, c, leaving);
  }

  lemma WithdrawKeepsInv(s: State, c: Conn, pending: Pending)
    requires Inv(s) && c in s.sessions
    requires (s.sessions[c].pending.Clearing? && pending == Idle) || (s.sessions[c].pending.Leaving? && pending == Left)
    ensures Inv(WithPending(s, c, pending).(index := RemovedAll(s.index, s.sessions[c].id, s.sessions[c].pending.withdrawn)))
  {
    var session := s.sessions[c];
    assert SessionOK(s.index, session);
    RemoveAllKeeps(s.index, session.id, session.pending.withdrawn);
    IndexChangeKeepsInv(s, c, session.(pending := pending), RemovedAll(s.index, session.id, session.pending.withdrawn));
  }

  lemma LeaveBeforeLogin(cap: int, s: State, c: Conn)
    requires Inv(s) && Enabled(s, BeginLeave(c)) && s.sessions[c].id == 0
    ensures Inv(Next(cap, s, BeginLeave(c)))
  {
    assert SessionOK(s.index, s.sessions[c]);
    SessionChangeKeepsInv(s, c, s.sessions[c].(pending := Left));
  }

  lemma UnregisterKeepsInv(cap: int, s: State, c: Conn)
    requires Inv(s) && Enabled(s, Unregister(c))
    ensures Inv(Next(cap, s, Unregister(c)))
  {
    var s' := Next(cap, s, Unregister(c));
    assert SessionOK(s.index, s.sessions[c]);
    forall d | d in s'.sessions
      ensures SessionOK(s'.index, s'.sessions[d])
    {
      assert SessionOK(s.index, s.sessions[d]);
    }
    forall id | id !in s'.clients
      ensures IndexedBy(s'.index, id) == {}
    {
      assert id in s.clients ==> id == s.sessions[c].id;
    }
  }

  /** Every step of every handler keeps the invariant. */
  lemma StepKeepsInv(cap: int, s: State, step: Step)
    requires Inv(s) && Enabled(s, step)
    ensures Inv(Next(cap, s, step))
  {
    match step
    case Connect(c) =>
    case Login(c, preferred) => LoginKeepsInv(cap, s, c, preferred);
    case BeginOffer(c, records) => BeginOfferKeepsInv(cap, s, c, records);
    case EndOffer(c) => EndOfferKeepsInv(cap, s, c);
    case BeginClear(c) => TableEmptiesKeepsInv(s, c, false);
    case EndClear(c) => WithdrawKeepsInv(s, c, Idle);
    case BeginLeave(c) =>
      if s.sessions[c].id != 0 { TableEmptiesKeepsInv(s, c, true); }
      else { LeaveBeforeLogin(cap, s, c); }
    case EndLeave(c) => WithdrawKeepsInv(s, c, Left);
    case Unregister(c) => UnregisterKeepsInv(cap, s, c);
  }

  lemma {:induction false} RunKeepsInv(cap: int, s: State, steps: seq<Step>)
    requires Inv(s) && Runs(cap, s, steps)
    ensures Inv(After(cap, s, steps))
    decreases |steps|
  {
    if steps != [] {
      StepKeepsInv(cap, s, steps[0]);
      RunKeepsInv(cap, Next(cap, s, steps[0]), steps[1..]);
    }
  }

  // ---------------------------------------------------------------- what holds between operations

  /** No handler is between two critical sections. */
  predicate Quiescent(s: State) {
    forall c :: c in s.sessions ==> s.sessions[c].pending.Idle?
  }

  /** The IDs of the sessions whose table has the hash. */
  ghost predicate OffersUnder(s: State, id: ClientID, h: Hash) {
    exists c :: c in s.sessions && s.sessions[c].id == id && h in s.sessions[c].offered
  }

  lemma QuiescentOffersListed(s: State, c: Conn, h: Hash)
    requires Inv(s) && Quiescent(s) && c in s.sessions && h in s.sessions[c].offered
    ensures h in s.index && s.sessions[c].id in s.index[h].byClient
  {
    assert SessionOK(s.index, s.sessions[c]);
    assert h in IndexedBy(s.index, s.sessions[c].id);
  }

  lemma QuiescentListedOffers(s: State, id: ClientID, h: Hash)
    requires Inv(s) && Quiescent(s) && h in s.index && id in s.index[h].byClient
    ensures OffersUnder(s, id, h)
  {
    assert h in IndexedBy(s.index, id);
    assert id in s.clients;
    var c := s.clients[id];
    assert SessionOK(s.index, s.sessions[c]);
    assert h in s.sessions[c].offered;
  }

  lemma QuiescentIsExact(s: State, h: Hash)
    requires Inv(s) && Quiescent(s)
    ensures h in s.index <==> exists c :: c in s.sessions && h in s.sessions[c].offered
    ensures h in s.index ==> forall id :: id in s.index[h].byClient <==> OffersUnder(s, id, h)
  {
    forall c | c in s.sessions && h in s.sessions[c].offered
      ensures h in s.index && s.sessions[c].id in s.index[h].byClient
    {
      QuiescentOffersListed(s, c, h);
    }
    if h in s.index {
      forall id | id in s.index[h].byClient
        ensures OffersUnder(s, id, h)
      {
        QuiescentListedOffers(s, id, h);
      }
      assert EntryOK(h, s.index[h]);
      var id := SomeKey(s.index[h].byClient);
      assert OffersUnder(s, id, h);
    }
  }

  /**
   After any interleaving, whenever no handler is mid-operation: the index holds exactly the hashes that
   some session offers, and lists each under exactly the IDs of the sessions offering it.
   */
  lemma QuiescentIndexIsExact(cap: int, steps: seq<Step>, h: Hash)
    requires Runs(cap, INITIAL, steps) && Quiescent(After(cap, INITIAL, steps))
    ensures var s := After(cap, INITIAL, steps);
            && (h in s.index <==> exists c :: c in s.sessions && h in s.sessions[c].offered)
            && (h in s.index ==> forall id :: id in s.index[h].byClient <==> OffersUnder(s, id, h))
  {
    InitialInv();
    RunKeepsInv(cap, INITIAL, steps);
    QuiescentIsExact(After(cap, INITIAL, steps), h);
  }

  /** The connections whose session offers the hash. */
  ghost function Offerers(s: State, h: Hash): set<Conn> {
    set c | c in s.sessions && h in s.sessions[c].offered
  }

  /** Different connections among cs have different IDs, and these are exactly ids: then there are equally many. */
  lemma {:induction false} SameCount(s: State, cs: set<Conn>, ids: set<ClientID>)
    requires forall c :: c in cs ==> c in s.sessions && s.sessions[c].id in ids
    requires forall c, d :: c in cs && d in cs && c != d ==> s.sessions[c].id != s.sessions[d].id
    requires forall id :: id in ids ==> exists c :: c in cs && s.sessions[c].id == id
    ensures |cs| == |ids|
    decreases |cs|
  {
    if cs == {} {
      assert forall id :: id !in ids;
      assert ids == {};
    } else {
      var c :| c in cs;
      var id := s.sessions[c].id;
      forall other | other in ids - {id}
        ensures exists d :: d in cs - {c} && s.sessions[d].id == other
      {
        var d :| d in cs && s.sessions[d].id == other;
        assert d in cs - {c};
      }
      SameCount(s, cs - {c}, ids - {id});
    }
  }

  /** Between operations the source count of a file is the number of sessions that offer it. */
  lemma QuiescentSources(cap: int, steps: seq<Step>, h: Hash)
    requires Runs(cap, INITIAL, steps) && Quiescent(After(cap, INITIAL, steps))
    requires h in After(cap, INITIAL, steps).index
    ensures |After(cap, INITIAL, steps).index[h].byClient| == |Offerers(After(cap, INITIAL, steps), h)|
  {
    InitialInv();
    RunKeepsInv(cap, INITIAL, steps);
    SourcesOfState(After(cap, INITIAL, steps), h);
  }

  lemma SourcesOfState(s: State, h: Hash)
    requires Inv(s) && Quiescent(s) && h in s.index
    ensures |s.index[h].byClient| == |Offerers(s, h)|
  {
    QuiescentIsExact(s, h);
    var cs, ids := Offerers(s, h), s.index[h].byClient.Keys;
    forall c | c in cs
      ensures s.sessions[c].id in ids && s.clients[s.sessions[c].id] == c
    {
      QuiescentOffersListed(s, c, h);
      assert SessionOK(s.index, s.sessions[c]);
    }
    forall id | id in ids
      ensures exists c :: c in cs && s.sessions[c].id == id
    {
      assert OffersUnder(s, id, h);
    }
    SameCount(s, cs, ids);
  }

  /** The client of connection c is listed for the file. */
  ghost predicate Listed(s: State, c: Conn, h: Hash) {
    c in s.sessions && h in s.index && s.sessions[c].id in s.index[h].byClient
  }

  /** The step takes c's shares out of the index because c withdrew them or left. */
  predicate Withdraws(step: Step, c: Conn) {
    step == EndClear(c) || step == EndLeave(c)
  }

  lemma OfferKeepsListed(s: State, d: Conn, id: ClientID, h: Hash)
    requires Inv(s) && Enabled(s, EndOffer(d)) && h in IndexedBy(s.index, id)
    ensures h in IndexedBy(Next(0, s, EndOffer(d)).index, id)
  {
    var session := s.sessions[d];
    assert SessionOK(s.index, session);
    OfferKeeps(s.index, session.id, session.pending.previous, session.pending.accepted);
  }

  lemma WithdrawalKeepsListed(s: State, d: Conn, withdrawn: set<Hash>, id: ClientID, h: Hash)
    requires Inv(s) && d in s.sessions && s.sessions[d].id != id && h in IndexedBy(s.index, id)
    ensures h in IndexedBy(RemovedAll(s.index, s.sessions[d].id, withdrawn), id)
  {
    RemoveAllKeeps(s.index, s.sessions[d].id, withdrawn);
  }

  lemma StepKeepsListed(cap: int, s: State, step: Step, c: Conn, h: Hash)
    requires Inv(s) && Enabled(s, step) && Listed(s, c, h) && !Withdraws(step, c)
    ensures Listed(Next(cap, s, step), c, h)
  {
    var id := s.sessions[c].id;
    assert h in IndexedBy(s.index, id);
    assert id in s.clients && s.clients[id] == c;
    match step
    case EndOffer(d) =>
      OfferKeepsListed(s, d, id, h);
      assert h in IndexedBy(Next(cap, s, step).index, id);
    case EndClear(d) => WithdrawalKeepsListed(s, d, s.sessions[d].pending.withdrawn, id, h);
    case EndLeave(d) => WithdrawalKeepsListed(s, d, s.sessions[d].pending.withdrawn, id, h);
    case Unregister(d) => assert SessionOK(s.index, s.sessions[d]);
    case BeginOffer(d, records) => OwnTableTakes(s, d, cap, records);
    case BeginClear(d) => OwnTableEmpties(s, d, false);
    case BeginLeave(d) => if s.sessions[d].id != 0 { OwnTableEmpties(s, d, true); }
    case _ =>
  }

  /**
   A reader never sees a re-offered file missing: once a client is listed for a file, it stays listed after
   every step of every handler, re-offers included, until its own withdrawal or departure reaches the index.
   */
  lemma {:induction false} ListedUntilWithdrawn(cap: int, s: State, steps: seq<Step>, c: Conn, h: Hash)
    requires Inv(s) && Runs(cap, s, steps) && Listed(s, c, h)
    requires forall i :: 0 <= i < |steps| ==> !Withdraws(steps[i], c)
    ensures Listed(After(cap, s, steps), c, h)
    decreases |steps|
  {
    if steps != [] {
      StepKeepsInv(cap, s, steps[0]);
      StepKeepsListed(cap, s, steps[0], c, h);
      ListedUntilWithdrawn(cap, Next(cap, s, steps[0]), steps[1..], c, h);
    }
  }

  // ---------------------------------------------------------------- client IDs

  /** Every ID given out is non-zero, held by no other session, and listed for no file yet. */
  lemma LoginIsFresh(cap: int, s: State, c: Conn, preferred: ClientID)
    requires Inv(s) && Enabled(s, Login(c, preferred))
    ensures var id := Next(cap, s, Login(c, preferred)).sessions[c].id;
            && id != 0
            && IndexedBy(s.index, id) == {}
            && forall d :: d in s.sessions ==> s.sessions[d].id != id
  {
    AllocateFresh(s.clients.Keys, s.nextID, preferred);
  }

  /** No two sessions share an ID. */
  lemma LiveIDsDistinct(cap: int, steps: seq<Step>, c: Conn, d: Conn)
    requires Runs(cap, INITIAL, steps)
    requires var s := After(cap, INITIAL, steps);
             c in s.sessions && d in s.sessions && c != d && s.sessions[c].id != 0
    ensures After(cap, INITIAL, steps).sessions[c].id != After(cap, INITIAL, steps).sessions[d].id
  {
    InitialInv();
    RunKeepsInv(cap, INITIAL, steps);
  }

  /** The IDs handed out by number rather than by address, in order. */
  function FallbackIDs(cap: int, s: State, steps: seq<Step>): seq<ClientID>
    requires Runs(cap, s, steps)
    decreases |steps|
  {
    if steps == [] then []
    else
      var later := FallbackIDs(cap, Next(cap, s, steps[0]), steps[1..]);
      if steps[0].Login? && UsesFallback(s.clients.Keys, steps[0].preferred)
      then [Allocate(s.clients.Keys, s.nextID, steps[0].preferred).id] + later
      else later
  }

  /** Fallback IDs only ever grow, so they never repeat among themselves. */
  lemma {:induction false} FallbackIDsAscend(cap: int, s: State, steps: seq<Step>)
    requires Inv(s) && Runs(cap, s, steps)
    ensures AscendingFrom(FallbackIDs(cap, s, steps), s.nextID)
    decreases |steps|
  {
    if steps != [] {
      var next := Next(cap, s, steps[0]);
      StepKeepsInv(cap, s, steps[0]);
      FallbackIDsAscend(cap, next, steps[1..]);
      var later := FallbackIDs(cap, next, steps[1..]);
      if steps[0].Login? {
        AllocateFresh(s.clients.Keys, s.nextID, steps[0].preferred);
        AscendingPrepend(Allocate(s.clients.Keys, s.nextID, steps[0].preferred).id, later, s.nextID, next.nextID);
      }
    }
  }

  predicate AscendingFrom(ids: seq<ClientID>, low: ClientID) {
    && (forall i :: 0 <= i < |ids| ==> low <= ids[i])
    && (forall i, j :: 0 <= i < j < |ids| ==> ids[i] < ids[j])
  }

  lemma AscendingPrepend(id: ClientID, later: seq<ClientID>, low: ClientID, next: ClientID)
    requires AscendingFrom(later, next) && low <= next
    ensures AscendingFrom(later, low)
    ensures low <= id < next ==> AscendingFrom([id] + later, low)
  {
  }

  // ---------------------------------------------------------------- metadata and caps

  /** The entry is dropped and made anew within this step: its only client re-offers the file. */
  predicate Recreates(s: State, step: Step, h: Hash)
    requires Enabled(s, step)
  {
    && step.EndOffer? && h in s.index
    && h in HashSet(s.sessions[step.c].pending.previous)
    && s.index[h].byClient - {s.sessions[step.c].id} == map[]
  }

  lemma EndOfferExtends(cap: int, s: State, c: Conn, h: Hash)
    requires Inv(s) && Enabled(s, EndOffer(c)) && h in s.index && !Recreates(s, EndOffer(c), h)
    ensures h in Next(cap, s, EndOffer(c)).index && Extends(s.index[h].record, Next(cap, s, EndOffer(c)).index[h].record)
  {
    var session := s.sessions[c];
    assert SessionOK(s.index, session);
    OfferExtends(s.index, session.id, session.pending.previous, session.pending.accepted, h);
  }

  lemma StepExtends(cap: int, s: State, step: Step, h: Hash)
    requires Inv(s) && Enabled(s, step)
    requires h in s.index && h in Next(cap, s, step).index && !Recreates(s, step, h)
    ensures Extends(s.index[h].record, Next(cap, s, step).index[h].record)
  {
    match step
    case EndOffer(c) => EndOfferExtends(cap, s, c, h);
    case _ => assert Next(cap, s, step).index[h].record == s.index[h].record;
  }

  /** The entry lives through the whole run: present after every step and never made anew. */
  predicate Survives(cap: int, s: State, steps: seq<Step>, h: Hash)
    requires Runs(cap, s, steps)
    decreases |steps|
  {
    h in s.index &&
    (steps != [] ==> !Recreates(s, steps[0], h) && Survives(cap, Next(cap, s, steps[0]), steps[1..], h))
  }

  /**
   From an entry's creation to its deletion its name and size never change, and every other field changes
   at most once, from empty to set.
   */
  lemma {:induction false} MetadataOnlyFillsIn(cap: int, s: State, steps: seq<Step>, h: Hash)
    requires Inv(s) && Runs(cap, s, steps) && Survives(cap, s, steps, h)
    ensures h in After(cap, s, steps).index && Extends(s.index[h].record, After(cap, s, steps).index[h].record)
    decreases |steps|
  {
    if steps != [] {
      var next := Next(cap, s, steps[0]);
      StepKeepsInv(cap, s, steps[0]);
      assert h in next.index;
      StepExtends(cap, s, steps[0], h);
      MetadataOnlyFillsIn(cap, next, steps[1..], h);
      ExtendsTransitive(s.index[h].record, next.index[h].record, After(cap, s, steps).index[h].record);
    }
  }

  /** In every reachable state a reader sees of every file in the index between one and all of its clients counted as complete. */
  lemma MaterializedCountsHold(cap: int, steps: seq<Step>, h: Hash, record: FileRecord)
    requires Runs(cap, INITIAL, steps) && h in After(cap, INITIAL, steps).index
    requires Materializes(After(cap, INITIAL, steps).index[h], record)
    ensures 1 <= record.completeSources <= record.sources == |record.endpoints|
  {
    InitialInv();
    RunKeepsInv(cap, INITIAL, steps);
    MaterializedCounts(h, After(cap, INITIAL, steps).index[h], record);
  }

  predicate WithinCap(cap: int, s: State) {
    forall c :: c in s.sessions ==> |s.sessions[c].offered| <= cap
  }

  /** A positive cap bounds every session's table over every run, across all of its batches and logins. */
  lemma {:induction false} TablesWithinCap(cap: int, s: State, steps: seq<Step>)
    requires cap > 0 && WithinCap(cap, s) && OpenRuns(cap, s, steps)
    ensures WithinCap(cap, OpenAfter(cap, s, steps))
    decreases |steps|
  {
    if steps != [] {
      StepWithinCap(cap, s, steps[0]);
      TablesWithinCap(cap, Next(cap, s, steps[0]), steps[1..]);
    }
  }

  lemma StepWithinCap(cap: int, s: State, step: Step)
    requires cap > 0 && WithinCap(cap, s) && Allowed(s, step)
    ensures WithinCap(cap, Next(cap, s, step))
  {
    match step
    case BeginOffer(c, records) => TakingWithinCap(cap, s, c, records);
    case _ =>
  }

  lemma TakingWithinCap(cap: int, s: State, c: Conn, records: seq<FileRecord>)
    requires cap > 0 && WithinCap(cap, s) && c in s.sessions
    ensures WithinCap(cap, TableTakes(s, c, cap, records))
  {
    var id := s.sessions[c].id;
    if id in s.clients && s.clients[id] in s.sessions {
      BatchWithinCap(s.sessions[s.clients[id]].offered, cap, records);
    }
  }
}
