/** A run that uses up the numbers until a client is given the ID zero. */
module ZeroID {
  import opened Basics
  import opened Records
  import opened SharedIndex
  import opened ClientIDs
  import opened ShareRegistry
  import opened Traces

  /** No clients and no files, and this the next number to try. */
  function Empty(nextID: ClientID): State {
    State(map[], map[], map[], nextID)
  }

  /** A client whose address is no use as an ID arrives and leaves. */
  const VISIT: seq<Step> := [Connect(0), Login(0, 0), BeginLeave(0), EndLeave(0), Unregister(0)]

  function Visiting(id: ClientID, pending: Pending): State {
    State(map[0 := Session(id, map[], pending)], map[id := 0], map[], Wrap32(id + 1))
  }

  lemma VisitConnects(cap: int, id: ClientID)
    ensures StepsTo(cap, Empty(id), Connect(0), State(map[0 := Session(0, map[], Idle)], map[], map[], id))
  {
    assert map[][0 := Session(0, map[], Idle)] == map[0 := Session(0, map[], Idle)];
  }

  lemma VisitLogsIn(cap: int, id: ClientID)
    requires id != 0
    ensures StepsTo(cap, State(map[0 := Session(0, map[], Idle)], map[], map[], id), Login(0, 0), Visiting(id, Idle))
  {
    var s := State(map[0 := Session(0, map[], Idle)], map[], map[], id);
    assert s.clients.Keys == {};
    assert FirstFree({}, id) == id;
    assert s.sessions[0 := Session(id, map[], Idle)] == map[0 := Session(id, map[], Idle)];
    assert s.clients[id := 0] == map[id := 0];
  }

  lemma VisitLeaves(cap: int, id: ClientID)
    requires id != 0
    ensures StepsTo(cap, Visiting(id, Idle), BeginLeave(0), Visiting(id, Leaving({})))
    ensures StepsTo(cap, Visiting(id, Leaving({})), EndLeave(0), Visiting(id, Left))
    ensures StepsTo(cap, Visiting(id, Left), Unregister(0), Empty(Wrap32(id + 1)))
  {
    assert TableHashes(map[]) == {};
    assert RemovedAll(map[], id, {}) == map[];
    assert Visiting(id, Left).clients - {id} == map[];
    assert Visiting(id, Left).sessions - {0} == map[];
    assert Visiting(id, Idle).sessions[0 := Session(id, map[], Leaving({}))] == Visiting(id, Leaving({})).sessions;
    assert Visiting(id, Leaving({})).sessions[0 := Session(id, map[], Left)] == Visiting(id, Left).sessions;
  }

  lemma Visits(cap: int, steps: seq<Step>, id: ClientID)
    requires Reaches(cap, steps, Empty(id)) && id != 0
    ensures Reaches(cap, steps + VISIT, Empty(Wrap32(id + 1)))
  {
    var connected := State(map[0 := Session(0, map[], Idle)], map[], map[], id);
    VisitConnects(cap, id);
    VisitLogsIn(cap, id);
    VisitLeaves(cap, id);
    var one := steps + [Connect(0)];
    var two := one + [Login(0, 0)];
    var three := two + [BeginLeave(0)];
    var four := three + [EndLeave(0)];
    ReachesNext(cap, steps, Empty(id), Connect(0), connected);
    ReachesNext(cap, one, connected, Login(0, 0), Visiting(id, Idle));
    ReachesNext(cap, two, Visiting(id, Idle), BeginLeave(0), Visiting(id, Leaving({})));
    ReachesNext(cap, three, Visiting(id, Leaving({})), EndLeave(0), Visiting(id, Left));
    ReachesNext(cap, four, Visiting(id, Left), Unregister(0), Empty(Wrap32(id + 1)));
    assert steps + VISIT == four + [Unregister(0)];
  }

  /** After n visits the next number is n further on, as long as none of them was zero. */
  lemma {:induction false} ManyVisits(cap: int, n: nat) returns (steps: seq<Step>)
    requires FIRST_ID + n <= TWO_32
    ensures Reaches(cap, steps, Empty(Wrap32(FIRST_ID + n)))
  {
    steps := [];
    ReachesStart(cap);
    if n > 0 {
      var before := ManyVisits(cap, n - 1);
      var id := Wrap32(FIRST_ID + n - 1);
      Visits(cap, before, id);
      assert Wrap32(id + 1) == Wrap32(FIRST_ID + n) by { CandidateNext(FIRST_ID, n - 1); }
      steps := before + VISIT;
    }
  }

  /** There is a run after which a client that logs in is given the ID zero and is not registered. */
  lemma RunToZeroID(cap: int) returns (steps: seq<Step>)
    ensures OpenRuns(cap, INITIAL, steps)
    ensures var s := OpenAfter(cap, INITIAL, steps);
            && Allowed(s, Login(0, 0))
            && Next(cap, s, Login(0, 0)).sessions[0].id == 0
            && Next(cap, s, Login(0, 0)).clients == map[]
  {
    var before := ManyVisits(cap, TWO_32 - FIRST_ID);
    var connected := State(map[0 := Session(0, map[], Idle)], map[], map[], 0);
    VisitConnects(cap, 0);
    ReachesNext(cap, before, Empty(0), Connect(0), connected);
    steps := before + [Connect(0)];
    ReachedRuns(cap, steps, connected);
    assert FirstFree({}, 0) == 0 && connected.clients.Keys == {};
  }
}
