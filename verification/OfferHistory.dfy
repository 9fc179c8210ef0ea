/**
 What an entry of the share index says, told from the offers alone: each field of its metadata, each client's
 endpoint and each client's claim to have the whole file come from particular offers since the entry was created.
 */
module OfferHistory {
  import opened Basics
  import opened Records
  import opened SharedIndex
  import opened ClientIDs
  import opened ShareRegistry
  import opened OpenRegistry

  /** A client shares a file by a record, or leaves it. */
  datatype Event = Shares(id: ClientID, record: FileRecord) | Leaves(id: ClientID)

  /** For every file of the index what happened to it since its entry was created, in order. */
  type Log = map<Hash, seq<Event>>

  /** The event is a share of the client that carries an endpoint. */
  predicate Endpoints(e: Event, id: ClientID) {
    e.Shares? && e.id == id && e.record.endpoints != []
  }

  /** The client has shared the file with an endpoint and not left it since. */
  ghost predicate ListedIn(events: seq<Event>, id: ClientID) {
    exists k :: 0 <= k < |events| && Endpoints(events[k], id) && StaysFrom(events, k, id)
  }

  ghost predicate StaysFrom(events: seq<Event>, k: nat, id: ClientID) {
    forall j :: k < j < |events| ==> events[j] != Leaves(id)
  }

  ghost predicate NobodyListed(events: seq<Event>) {
    forall id :: !ListedIn(events, id)
  }

  function Noted(log: Log, h: Hash): seq<Event> {
    if h in log then log[h] else []
  }

  function LogShare(log: Log, id: ClientID, r: FileRecord): Log {
    log[r.hash := Noted(log, r.hash) + [Shares(id, r)]]
  }

  function LogShares(log: Log, id: ClientID, records: seq<FileRecord>): Log {
    if records == [] then log
    else LogShare(LogShares(log, id, records[..|records| - 1]), id, records[|records| - 1])
  }

  /** The client leaves the files; an entry that lists nobody any more is over. */
  ghost function LogLeave(log: Log, id: ClientID, hashes: set<Hash>): Log {
    map h | h in log && !(h in hashes && NobodyListed(log[h] + [Leaves(id)])) ::
      if h in hashes then log[h] + [Leaves(id)] else log[h]
  }

  ghost function LogNext(s: State, step: Step, log: Log): Log
    requires Allowed(s, step)
  {
    match step
    case EndOffer(c) =>
      var session := s.sessions[c];
      LogShares(LogLeave(log, session.id, HashSet(session.pending.previous)), session.id, session.pending.accepted)
    case EndClear(c) => LogLeave(log, s.sessions[c].id, s.sessions[c].pending.withdrawn)
    case EndLeave(c) => LogLeave(log, s.sessions[c].id, s.sessions[c].pending.withdrawn)
    case _ => log
  }

  ghost function LogAfter(cap: int, s: State, steps: seq<Step>, log: Log): Log
    requires OpenRuns(cap, s, steps)
    decreases |steps|
  {
    if steps == [] then log else LogAfter(cap, Next(cap, s, steps[0]), steps[1..], LogNext(s, steps[0], log))
  }

  // ---------------------------------------------------------------- what an entry says

  /** The value is that of the earliest share whose own value is not empty, and empty if there is none. */
  ghost predicate Earliest<T>(value: T, none: T, events: seq<Event>, field: FileRecord -> T) {
    || (value == none && forall k :: 0 <= k < |events| && events[k].Shares? ==> field(events[k].record) == none)
    || (value != none && exists k :: 0 <= k < |events| && events[k].Shares? && field(events[k].record) == value
                                     && EmptyBefore(none, events, k, field))
  }

  ghost predicate EmptyBefore<T>(none: T, events: seq<Event>, k: nat, field: FileRecord -> T)
    requires k <= |events|
  {
    forall j :: 0 <= j < k && events[j].Shares? ==> field(events[j].record) == none
  }

  /** Every field of the metadata is that of the earliest share that has it. */
  ghost predicate MetadataTold(record: FileRecord, events: seq<Event>) {
    && Earliest(record.name, [], events, (r: FileRecord) => r.name)
    && Earliest(record.size, 0, events, (r: FileRecord) => r.size)
    && Earliest(record.fileType, [], events, (r: FileRecord) => r.fileType)
    && Earliest(record.extension, [], events, (r: FileRecord) => r.extension)
    && Earliest(record.mediaCodec, [], events, (r: FileRecord) => r.mediaCodec)
    && Earliest(record.mediaLength, 0, events, (r: FileRecord) => r.mediaLength)
    && Earliest(record.mediaBitrate, 0, events, (r: FileRecord) => r.mediaBitrate)
  }

  /** The endpoint is the first of the client's last share that carries any, and the client has not left since. */
  ghost predicate EndpointTold(endpoint: SourceEntry, events: seq<Event>, id: ClientID) {
    exists k :: 0 <= k < |events| && Endpoints(events[k], id) && endpoint == events[k].record.endpoints[0]
                && LastEndpoints(events, k, id)
  }

  ghost predicate LastEndpoints(events: seq<Event>, k: nat, id: ClientID) {
    forall j :: k < j < |events| ==> events[j] != Leaves(id) && !Endpoints(events[j], id)
  }

  ghost predicate EndpointsTold(byClient: map<ClientID, SourceEntry>, events: seq<Event>) {
    forall id ::
      && (id in byClient <==> ListedIn(events, id))
      && (id in byClient ==> EndpointTold(byClient[id], events, id))
  }

  /** The last the client did was to share the file, having all of it or not. */
  ghost predicate ClaimTold(complete: bool, events: seq<Event>, id: ClientID) {
    exists k :: 0 <= k < |events| && events[k].Shares? && events[k].id == id && complete == (events[k].record.completeSources > 0)
                && NothingAfter(events, k, id)
  }

  ghost predicate NothingAfter(events: seq<Event>, k: nat, id: ClientID) {
    forall j :: k < j < |events| ==> events[j].id != id
  }

  ghost predicate ClaimsTold(completes: map<ClientID, bool>, events: seq<Event>) {
    forall id ::
      && (id in completes ==> ClaimTold(completes[id], events, id))
      && (id !in completes ==> !ClaimTold(true, events, id) && !ClaimTold(false, events, id))
  }

  /** The zero hash, which no offered record has, is left out of the metadata. */
  ghost predicate EntryTold(h: Hash, shared: SharedFile, events: seq<Event>) {
    && (h != 0 ==> MetadataTold(shared.record, events))
    && EndpointsTold(shared.byClient, events)
    && ClaimsTold(shared.completes, events)
  }

  ghost predicate IndexTold(index: Index, log: Log) {
    index.Keys == log.Keys && forall h :: h in index ==> EntryTold(h, index[h], log[h])
  }

  // ---------------------------------------------------------------- one more event

  lemma EarliestGrows<T>(value: T, none: T, events: seq<Event>, e: Event, field: FileRecord -> T, next: T)
    requires Earliest(value, none, events, field)
    requires next == if e.Shares? && value == none then field(e.record) else value
    ensures Earliest(next, none, events + [e], field)
  {
    var longer := events + [e];
    if value != none {
      var k :| 0 <= k < |events| && events[k].Shares? && field(events[k].record) == value && EmptyBefore(none, events, k, field);
      assert longer[k] == events[k] && EmptyBefore(none, longer, k, field);
    } else if next != none {
      assert longer[|events|] == e && EmptyBefore(none, longer, |events|, field);
    }
  }

  /** What merging a record does to the metadata is what one more share tells. */
  lemma MetadataShared(record: FileRecord, events: seq<Event>, id: ClientID, r: FileRecord)
    requires MetadataTold(record, events) && record.hash != 0
    ensures MetadataTold(Merge(record, r.(endpoints := [])), events + [Shares(id, r)])
  {
    var e := Shares(id, r);
    var m := Merge(record, r.(endpoints := []));
    EarliestGrows(record.name, [], events, e, (r: FileRecord) => r.name, m.name);
    EarliestGrows(record.size, 0, events, e, (r: FileRecord) => r.size, m.size);
    EarliestGrows(record.fileType, [], events, e, (r: FileRecord) => r.fileType, m.fileType);
    EarliestGrows(record.extension, [], events, e, (r: FileRecord) => r.extension, m.extension);
    EarliestGrows(record.mediaCodec, [], events, e, (r: FileRecord) => r.mediaCodec, m.mediaCodec);
    EarliestGrows(record.mediaLength, 0, events, e, (r: FileRecord) => r.mediaLength, m.mediaLength);
    EarliestGrows(record.mediaBitrate, 0, events, e, (r: FileRecord) => r.mediaBitrate, m.mediaBitrate);
  }

  lemma MetadataLeft(record: FileRecord, events: seq<Event>, id: ClientID)
    requires MetadataTold(record, events)
    ensures MetadataTold(record, events + [Leaves(id)])
  {
    var e := Leaves(id);
    EarliestGrows(record.name, [], events, e, (r: FileRecord) => r.name, record.name);
    EarliestGrows(record.size, 0, events, e, (r: FileRecord) => r.size, record.size);
    EarliestGrows(record.fileType, [], events, e, (r: FileRecord) => r.fileType, record.fileType);
    EarliestGrows(record.extension, [], events, e, (r: FileRecord) => r.extension, record.extension);
    EarliestGrows(record.mediaCodec, [], events, e, (r: FileRecord) => r.mediaCodec, record.mediaCodec);
    EarliestGrows(record.mediaLength, 0, events, e, (r: FileRecord) => r.mediaLength, record.mediaLength);
    EarliestGrows(record.mediaBitrate, 0, events, e, (r: FileRecord) => r.mediaBitrate, record.mediaBitrate);
  }

  lemma FirstShare(id: ClientID, r: FileRecord)
    requires r.hash != 0
    ensures MetadataTold(Merge(r, r.(endpoints := [])), [Shares(id, r)])
  {
    var m := Merge(r, r.(endpoints := []));
    assert MetadataTold(FileRecord(r.hash, [], 0, [], [], [], 0, 0, 0, 0, []), []);
    MetadataShared(FileRecord(r.hash, [], 0, [], [], [], 0, 0, 0, 0, []), [], id, r);
    assert [] + [Shares(id, r)] == [Shares(id, r)];
  }

  lemma ListedGrows(events: seq<Event>, e: Event, id: ClientID)
    ensures ListedIn(events + [e], id) <==> Endpoints(e, id) || (ListedIn(events, id) && e != Leaves(id))
  {
    var longer := events + [e];
    if Endpoints(e, id) {
      assert longer[|events|] == e && StaysFrom(longer, |events|, id);
    }
    if ListedIn(events, id) && e != Leaves(id) {
      var k :| 0 <= k < |events| && Endpoints(events[k], id) && StaysFrom(events, k, id);
      assert longer[k] == events[k] && StaysFrom(longer, k, id);
    }
    if ListedIn(longer, id) && !Endpoints(e, id) {
      var k :| 0 <= k < |longer| && Endpoints(longer[k], id) && StaysFrom(longer, k, id);
      assert k < |events| && longer[k] == events[k] && longer[|events|] == e;
      assert forall j :: k < j < |events| ==> longer[j] == events[j];
      assert StaysFrom(events, k, id);
    }
  }

  lemma EndpointShared(events: seq<Event>, id: ClientID, r: FileRecord)
    requires r.endpoints != []
    ensures EndpointTold(r.endpoints[0], events + [Shares(id, r)], id)
  {
    var longer := events + [Shares(id, r)];
    assert longer[|events|] == Shares(id, r) && LastEndpoints(longer, |events|, id);
  }

  lemma EndpointStays(endpoint: SourceEntry, events: seq<Event>, e: Event, id: ClientID)
    requires EndpointTold(endpoint, events, id) && e != Leaves(id) && !Endpoints(e, id)
    ensures EndpointTold(endpoint, events + [e], id)
  {
    var longer := events + [e];
    var k :| 0 <= k < |events| && Endpoints(events[k], id) && endpoint == events[k].record.endpoints[0] && LastEndpoints(events, k, id);
    assert longer[k] == events[k] && LastEndpoints(longer, k, id);
  }

  lemma EndpointsShared(byClient: map<ClientID, SourceEntry>, events: seq<Event>, id: ClientID, r: FileRecord)
    requires EndpointsTold(byClient, events)
    ensures EndpointsTold(if r.endpoints != [] then byClient[id := r.endpoints[0]] else byClient, events + [Shares(id, r)])
  {
    var after := if r.endpoints != [] then byClient[id := r.endpoints[0]] else byClient;
    var e := Shares(id, r);
    forall other
      ensures other in after <==> ListedIn(events + [e], other)
      ensures other in after ==> EndpointTold(after[other], events + [e], other)
    {
      ListedGrows(events, e, other);
      if Endpoints(e, other) {
        EndpointShared(events, id, r);
      } else if other in byClient {
        EndpointStays(byClient[other], events, e, other);
      }
    }
  }

  lemma EndpointsLeft(byClient: map<ClientID, SourceEntry>, events: seq<Event>, id: ClientID)
    requires EndpointsTold(byClient, events)
    ensures EndpointsTold(byClient - {id}, events + [Leaves(id)])
  {
    var after, e := byClient - {id}, Leaves(id);
    forall other
      ensures other in after <==> ListedIn(events + [e], other)
      ensures other in after ==> EndpointTold(after[other], events + [e], other)
    {
      ListedGrows(events, e, other);
      if other in after {
        EndpointStays(byClient[other], events, e, other);
      }
    }
  }

  lemma ClaimGrows(complete: bool, events: seq<Event>, e: Event, id: ClientID)
    ensures ClaimTold(complete, events + [e], id) <==>
            if e.id == id then e.Shares? && complete == (e.record.completeSources > 0) else ClaimTold(complete, events, id)
  {
    var longer := events + [e];
    assert longer[|events|] == e;
    if e.id == id {
      if e.Shares? && complete == (e.record.completeSources > 0) {
        assert NothingAfter(longer, |events|, id);
      }
    } else {
      if ClaimTold(complete, events, id) {
        var k :| 0 <= k < |events| && events[k].Shares? && events[k].id == id
                 && complete == (events[k].record.completeSources > 0) && NothingAfter(events, k, id);
        assert longer[k] == events[k] && NothingAfter(longer, k, id);
      }
      if ClaimTold(complete, longer, id) {
        var k :| 0 <= k < |longer| && longer[k].Shares? && longer[k].id == id
                 && complete == (longer[k].record.completeSources > 0) && NothingAfter(longer, k, id);
        assert k < |events| && longer[k] == events[k];
        assert forall j :: k < j < |events| ==> longer[j] == events[j];
        assert NothingAfter(events, k, id);
      }
    }
  }

  lemma ClaimsShared(completes: map<ClientID, bool>, events: seq<Event>, id: ClientID, r: FileRecord)
    requires ClaimsTold(completes, events)
    ensures ClaimsTold(completes[id := r.completeSources > 0], events + [Shares(id, r)])
  {
    forall other
      ensures var after := completes[id := r.completeSources > 0];
              && (other in after ==> ClaimTold(after[other], events + [Shares(id, r)], other))
              && (other !in after ==> !ClaimTold(true, events + [Shares(id, r)], other)
                                      && !ClaimTold(false, events + [Shares(id, r)], other))
    {
      ClaimGrows(true, events, Shares(id, r), other);
      ClaimGrows(false, events, Shares(id, r), other);
    }
  }

  lemma ClaimsLeft(completes: map<ClientID, bool>, events: seq<Event>, id: ClientID)
    requires ClaimsTold(completes, events)
    ensures ClaimsTold(completes - {id}, events + [Leaves(id)])
  {
    forall other
      ensures var after := completes - {id};
              && (other in after ==> ClaimTold(after[other], events + [Leaves(id)], other))
              && (other !in after ==> !ClaimTold(true, events + [Leaves(id)], other)
                                      && !ClaimTold(false, events + [Leaves(id)], other))
    {
      ClaimGrows(true, events, Leaves(id), other);
      ClaimGrows(false, events, Leaves(id), other);
    }
  }

  // ---------------------------------------------------------------- the whole index

  lemma AddTold(index: Index, log: Log, id: ClientID, r: FileRecord)
    requires IndexTold(index, log) && EntriesOwned(index)
    ensures IndexTold(Added(index, id, r), LogShare(log, id, r))
  {
    var after := Added(index, id, r);
    var h := r.hash;
    var events := Noted(log, h);
    if h in index {
      assert EntryOwned(h, index[h]);
      assert EntryTold(h, index[h], events);
      if h != 0 {
        MetadataShared(index[h].record, events, id, r);
      }
      EndpointsShared(index[h].byClient, events, id, r);
      ClaimsShared(index[h].completes, events, id, r);
    } else {
      if h != 0 {
        FirstShare(id, r);
      }
      assert EndpointsTold(map[], []) && ClaimsTold(map[], []);
      EndpointsShared(map[], [], id, r);
      ClaimsShared(map[], [], id, r);
      assert [] + [Shares(id, r)] == [Shares(id, r)];
    }
    assert EntryTold(h, after[h], events + [Shares(id, r)]);
  }

  lemma {:induction false} AddAllTold(index: Index, log: Log, id: ClientID, records: seq<FileRecord>)
    requires IndexTold(index, log) && EntriesOwned(index)
    ensures IndexTold(AddedAll(index, id, records), LogShares(log, id, records))
  {
    if records != [] {
      var n := |records| - 1;
      AddAllTold(index, log, id, records[..n]);
      AddAllLists(index, id, records[..n]);
      AddTold(AddedAll(index, id, records[..n]), LogShares(log, id, records[..n]), id, records[n]);
    }
  }

  lemma EntryLeft(h: Hash, shared: SharedFile, events: seq<Event>, id: ClientID)
    requires EntryTold(h, shared, events)
    ensures EntryTold(h, Without(shared, id), events + [Leaves(id)])
    ensures NobodyListed(events + [Leaves(id)]) <==> (shared.byClient - {id}) == map[]
  {
    if h != 0 {
      MetadataLeft(shared.record, events, id);
    }
    EndpointsLeft(shared.byClient, events, id);
    ClaimsLeft(shared.completes, events, id);
    if (shared.byClient - {id}) != map[] {
      var other := SomeKey(shared.byClient - {id});
      assert ListedIn(events + [Leaves(id)], other);
    }
  }

  lemma RemoveTold(index: Index, log: Log, id: ClientID, hashes: set<Hash>)
    requires IndexTold(index, log)
    ensures IndexTold(RemovedAll(index, id, hashes), LogLeave(log, id, hashes))
  {
    var after, left := RemovedAll(index, id, hashes), LogLeave(log, id, hashes);
    forall h | h in index
      ensures h in after <==> h in left
      ensures h in after ==> EntryTold(h, after[h], left[h])
    {
      assert EntryTold(h, index[h], log[h]);
      EntryLeft(h, index[h], log[h], id);
    }
  }

  lemma StepTold(cap: int, s: State, step: Step, log: Log)
    requires OpenInv(s) && Allowed(s, step) && IndexTold(s.index, log)
    ensures IndexTold(Next(cap, s, step).index, LogNext(s, step, log))
  {
    match step
    case EndOffer(c) =>
      var session := s.sessions[c];
      var removed := HashSet(session.pending.previous);
      RemoveTold(s.index, log, session.id, removed);
      WithdrawalLists(s.index, session.id, removed);
      AddAllTold(RemovedAll(s.index, session.id, removed), LogLeave(log, session.id, removed), session.id, session.pending.accepted);
    case EndClear(c) => RemoveTold(s.index, log, s.sessions[c].id, s.sessions[c].pending.withdrawn);
    case EndLeave(c) => RemoveTold(s.index, log, s.sessions[c].id, s.sessions[c].pending.withdrawn);
    case _ => assert Next(cap, s, step).index == s.index;
  }

  lemma {:induction false} RunTold(cap: int, s: State, steps: seq<Step>, log: Log)
    requires OpenInv(s) && OpenRuns(cap, s, steps) && IndexTold(s.index, log)
    ensures IndexTold(OpenAfter(cap, s, steps).index, LogAfter(cap, s, steps, log))
    decreases |steps|
  {
    if steps != [] {
      OpenStep(cap, s, steps[0]);
      StepTold(cap, s, steps[0], log);
      RunTold(cap, Next(cap, s, steps[0]), steps[1..], LogNext(s, steps[0], log));
    }
  }

  /**
   In every run, with any interleaving, logins and batches: a file is in the index exactly when its log is open,
   every field of its metadata is that of the earliest offer since the entry's creation that has one, every client
   is listed with the endpoint of its last offer that has any, and counted complete by its last offer.
   */
  lemma EntriesTellOffers(cap: int, steps: seq<Step>, h: Hash)
    requires OpenRuns(cap, INITIAL, steps)
    ensures var index, log := OpenAfter(cap, INITIAL, steps).index, LogAfter(cap, INITIAL, steps, map[]);
            && (h in index <==> h in log)
            && (h in index ==> EntryTold(h, index[h], log[h]))
  {
    InitialOpenInv();
    RunTold(cap, INITIAL, steps, map[]);
  }

  // ---------------------------------------------------------------- what a reader sees

  lemma OneClaim(events: seq<Event>, id: ClientID)
    ensures !(ClaimTold(true, events, id) && ClaimTold(false, events, id))
  {
  }

  lemma WholeIsClaimed(shared: SharedFile, events: seq<Event>, id: ClientID)
    requires ClaimsTold(shared.completes, events)
    ensures id in CompleteClients(shared) <==> ClaimTold(true, events, id)
  {
    OneClaim(events, id);
  }

  /** The endpoints are those of the listed clients, one for each. */
  ghost predicate EndpointsSeen(endpoints: seq<SourceEntry>, events: seq<Event>, listed: set<ClientID>) {
    && |endpoints| == |listed|
    && (forall e :: e in endpoints ==> exists id :: id in listed && EndpointTold(e, events, id))
    && (forall id :: id in listed ==> exists e :: e in endpoints && EndpointTold(e, events, id))
  }

  /**
   What a reader sees of a file, in every run: the metadata its offers tell, as sources the clients that have shared
   it with an endpoint and not left, and as complete those whose last act was to share it as having all of it, or
   every source when nobody's was.
   */
  lemma ReadersSee(cap: int, steps: seq<Step>, h: Hash, record: FileRecord)
    returns (listed: set<ClientID>, whole: set<ClientID>)
    requires OpenRuns(cap, INITIAL, steps) && h in OpenAfter(cap, INITIAL, steps).index && h != 0
    requires Materializes(OpenAfter(cap, INITIAL, steps).index[h], record)
    ensures h in LogAfter(cap, INITIAL, steps, map[])
    ensures var events := LogAfter(cap, INITIAL, steps, map[])[h];
            && MetadataTold(record, events)
            && (forall id :: id in listed <==> ListedIn(events, id))
            && (forall id :: id in whole <==> ClaimTold(true, events, id))
            && record.sources == |listed|
            && record.completeSources == (if whole == {} then |listed| else |whole|)
            && EndpointsSeen(record.endpoints, events, listed)
  {
    EntriesTellOffers(cap, steps, h);
    var shared, events := OpenAfter(cap, INITIAL, steps).index[h], LogAfter(cap, INITIAL, steps, map[])[h];
    listed, whole := shared.byClient.Keys, CompleteClients(shared);
    CountsSeen(shared, record);
    SameMetadata(shared.record, record, events);
    ClientsSeen(shared, events);
    SourcesSeen(shared, events, record.endpoints);
  }

  lemma CountsSeen(shared: SharedFile, record: FileRecord)
    requires Materializes(shared, record)
    ensures record.sources == |shared.byClient.Keys|
    ensures record.completeSources == (if CompleteClients(shared) == {} then |shared.byClient.Keys| else |CompleteClients(shared)|)
    ensures SameFields(shared.record, record)
  {
    assert record.sources == Counted(shared).sources && record.completeSources == Counted(shared).completeSources;
  }

  lemma ClientsSeen(shared: SharedFile, events: seq<Event>)
    requires EndpointsTold(shared.byClient, events) && ClaimsTold(shared.completes, events)
    ensures forall id :: id in shared.byClient.Keys <==> ListedIn(events, id)
    ensures forall id :: id in CompleteClients(shared) <==> ClaimTold(true, events, id)
  {
    forall id
      ensures id in CompleteClients(shared) <==> ClaimTold(true, events, id)
    {
      WholeIsClaimed(shared, events, id);
    }
  }

  lemma SourcesSeen(shared: SharedFile, events: seq<Event>, endpoints: seq<SourceEntry>)
    requires EndpointsTold(shared.byClient, events) && |endpoints| == |shared.byClient|
    requires forall e :: e in endpoints <==> exists c :: c in shared.byClient && shared.byClient[c] == e
    ensures EndpointsSeen(endpoints, events, shared.byClient.Keys)
  {
    forall id | id in shared.byClient
      ensures exists e :: e in endpoints && EndpointTold(e, events, id)
    {
      assert shared.byClient[id] in endpoints;
    }
  }

  predicate SameFields(a: FileRecord, b: FileRecord) {
    && a.name == b.name && a.size == b.size && a.fileType == b.fileType && a.extension == b.extension
    && a.mediaCodec == b.mediaCodec && a.mediaLength == b.mediaLength && a.mediaBitrate == b.mediaBitrate
  }

  lemma SameMetadata(a: FileRecord, b: FileRecord, events: seq<Event>)
    requires MetadataTold(a, events) && SameFields(a, b)
    ensures MetadataTold(b, events)
  {
  }
}
