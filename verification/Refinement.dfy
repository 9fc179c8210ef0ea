/**
 The objects do what the machine of interleaved handlers does: each critical section, run on objects that
 represent a state, leaves them representing the state after the corresponding step. What a handler carries
 from one section to the next is in its local variables, and in the machine in the session's unfinished work.
 */
module Refinement {
  import opened Basics
  import opened Records
  import opened SharedIndex
  import opened ClientIDs
  import opened ShareRegistry
  import opened OpenRegistry
  import opened Servers

  /** Every connection has a session object of its own, and objects and state agree on tables, clients, index and numbers. */
  ghost predicate Represents(server: Server, conns: map<Conn, ClientSession>, s: State)
    reads server, conns.Values
  {
    && (forall c, d :: c in conns && d in conns && conns[c] == conns[d] ==> c == d)
    && s.sessions.Keys <= conns.Keys
    && (forall c :: c in s.sessions ==> Alike(conns[c], s.sessions[c]))
    && s.clients.Keys == server.clients.Keys
    && (forall id :: id in s.clients ==> s.clients[id] in conns && server.clients[id] == conns[s.clients[id]])
    && s.index == server.dynamicFiles
    && s.nextID == server.nextID
  }

  ghost predicate Alike(client: ClientSession, session: Session)
    reads client
  {
    client.assignedID == session.id && client.offeredFiles == session.offered
  }

  method ConnectSection(server: Server, ghost conns: map<Conn, ClientSession>, ghost s: State, ghost c: Conn)
    returns (client: ClientSession)
    requires Represents(server, conns, s) && Allowed(s, Connect(c)) && c !in conns
    ensures fresh(client)
    ensures Represents(server, conns[c := client], Next(server.maxOfferedFilesPerClient, s, Connect(c)))
  {
    client := new ClientSession();
  }

  method LoginSection(server: Server, client: ClientSession, preferred: ClientID,
                      ghost conns: map<Conn, ClientSession>, ghost s: State, ghost c: Conn)
    requires Represents(server, conns, s) && Allowed(s, Login(c, preferred)) && -TWO_31 <= s.nextID < TWO_31
    requires c in conns && conns[c] == client
    modifies server`nextID, server`clients, client`assignedID, client`searchResult, client`searchOffset
    ensures Represents(server, conns, Next(server.maxOfferedFilesPerClient, s, Login(c, preferred)))
  {
    ghost var id := LoggedIn(server.maxOfferedFilesPerClient, s, c, preferred);
    ghost var s' := Next(server.maxOfferedFilesPerClient, s, Login(c, preferred));
    assert forall d :: d in s.sessions && d != c ==> conns[d] != client;
    server.HandleLogin(client, preferred);
    forall d | d in s'.sessions
      ensures Alike(conns[d], s'.sessions[d])
    {
      assert d != c ==> s'.sessions[d] == s.sessions[d];
    }
  }

  lemma LoggedIn(cap: int, s: State, c: Conn, preferred: ClientID) returns (id: ClientID)
    requires Allowed(s, Login(c, preferred))
    ensures var s' := Next(cap, s, Login(c, preferred));
            && Allocation(id, s'.nextID) == Allocate(s.clients.Keys, s.nextID, preferred)
            && s'.sessions == s.sessions[c := s.sessions[c].(id := id)]
            && s'.clients == (if id == 0 then s.clients else s.clients[id := c])
            && s'.index == s.index
  {
    id := Allocate(s.clients.Keys, s.nextID, preferred).id;
  }

  /** The first half of an offer. */
  method OfferTableSection(server: Server, client: ClientSession, records: seq<FileRecord>,
                           ghost conns: map<Conn, ClientSession>, ghost s: State, ghost c: Conn)
    returns (previous: seq<FileRecord>, accepted: seq<FileRecord>, dropped: nat)
    requires Represents(server, conns, s) && OpenInv(s) && Allowed(s, BeginOffer(c, records))
    requires c in conns && conns[c] == client
    modifies client`offeredFiles
    ensures var s' := Next(server.maxOfferedFilesPerClient, s, BeginOffer(c, records));
            Represents(server, conns, s') && s'.sessions[c].pending == Offering(previous, accepted)
  {
    assert OwnerOK(s.index, s.clients, c, s.sessions[c]);
    previous, accepted, dropped := client.TakeBatch(server.maxOfferedFilesPerClient, records);
  }

  /** The second half of an offer. */
  method OfferIndexSection(server: Server, client: ClientSession, previous: seq<FileRecord>, accepted: seq<FileRecord>,
                           ghost conns: map<Conn, ClientSession>, ghost s: State, ghost c: Conn)
    requires Represents(server, conns, s) && Allowed(s, EndOffer(c))
    requires c in conns && conns[c] == client && s.sessions[c].pending == Offering(previous, accepted)
    modifies server`dynamicFiles
    ensures Represents(server, conns, Next(server.maxOfferedFilesPerClient, s, EndOffer(c)))
  {
    server.UpdateShares(client.assignedID, previous, accepted);
  }

  /** The first half of a withdrawal or of a departure. */
  method WithdrawTableSection(server: Server, client: ClientSession, leaving: bool,
                              ghost conns: map<Conn, ClientSession>, ghost s: State, ghost c: Conn)
    returns (withdrawn: seq<Hash>)
    requires Represents(server, conns, s) && OpenInv(s) && c in conns && conns[c] == client
    requires Allowed(s, if leaving then BeginLeave(c) else BeginClear(c)) && s.sessions[c].id != 0
    modifies client`offeredFiles
    ensures var s' := Next(server.maxOfferedFilesPerClient, s, if leaving then BeginLeave(c) else BeginClear(c));
            && Represents(server, conns, s')
            && s'.sessions[c].pending == if leaving then Leaving(AsSet(withdrawn)) else Clearing(AsSet(withdrawn))
  {
    assert OwnerOK(s.index, s.clients, c, s.sessions[c]);
    OwnTableEmpties(s, c, leaving);
    ghost var offered := s.sessions[c].offered;
    withdrawn := client.EmptyTable();
    assert AsSet(withdrawn) == TableHashes(offered);
    ghost var s' := TableEmpties(s, c, leaving);
    assert s' == Next(server.maxOfferedFilesPerClient, s, if leaving then BeginLeave(c) else BeginClear(c));
    assert Represents(server, conns, s');
  }

  /** The second half of a withdrawal or of a departure. */
  method WithdrawIndexSection(server: Server, client: ClientSession, leaving: bool, withdrawn: seq<Hash>,
                              ghost conns: map<Conn, ClientSession>, ghost s: State, ghost c: Conn)
    requires Represents(server, conns, s) && c in conns && conns[c] == client && c in s.sessions
    requires s.sessions[c].pending == if leaving then Leaving(AsSet(withdrawn)) else Clearing(AsSet(withdrawn))
    modifies server`dynamicFiles
    ensures Represents(server, conns, Next(server.maxOfferedFilesPerClient, s, if leaving then EndLeave(c) else EndClear(c)))
  {
    server.RemoveShares(client.assignedID, withdrawn);
  }

  /** The last section of a departure. */
  method UnregisterSection(server: Server, client: ClientSession,
                           ghost conns: map<Conn, ClientSession>, ghost s: State, ghost c: Conn)
    requires Represents(server, conns, s) && Allowed(s, Unregister(c)) && c in conns && conns[c] == client
    modifies server`clients
    ensures Represents(server, conns, Next(server.maxOfferedFilesPerClient, s, Unregister(c)))
  {
    server.ForgetClient(client.assignedID, client);
  }
}
