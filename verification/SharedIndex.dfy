/** The index of files offered by connected clients, and the per-session table it mirrors. */
module SharedIndex {
  import opened Basics
  import opened Records

  /** A client ID is a 32-bit signed integer on the wire. */
  type ClientID = int

  /** One shared file: its metadata, the endpoint each client gave, and which clients have all of it. */
  datatype SharedFile = SharedFile(record: FileRecord, byClient: map<ClientID, SourceEntry>, completes: map<ClientID, bool>)

  type Index = map<Hash, SharedFile>

  /** The metadata of dst with its empty fields filled in from src. */
  function Merge(dst: FileRecord, src: FileRecord): FileRecord {
    if dst.hash == 0 then src
    else
      dst.(name := if dst.name == [] then src.name else dst.name,
           size := if dst.size == 0 then src.size else dst.size,
           fileType := if dst.fileType == [] then src.fileType else dst.fileType,
           extension := if dst.extension == [] then src.extension else dst.extension,
           mediaCodec := if dst.mediaCodec == [] then src.mediaCodec else dst.mediaCodec,
           mediaLength := if dst.mediaLength == 0 then src.mediaLength else dst.mediaLength,
           mediaBitrate := if dst.mediaBitrate == 0 then src.mediaBitrate else dst.mediaBitrate)
  }

  function Added(index: Index, id: ClientID, record: FileRecord): Index {
    var shared := if record.hash in index then index[record.hash] else SharedFile(record, map[], map[]);
    var byClient := if record.endpoints != [] then shared.byClient[id := record.endpoints[0]] else shared.byClient;
    var completes := shared.completes[id := record.completeSources > 0];
    index[record.hash := SharedFile(Merge(shared.record, record.(endpoints := [])), byClient, completes)]
  }

  function Without(shared: SharedFile, id: ClientID): SharedFile {
    SharedFile(shared.record, shared.byClient - {id}, shared.completes - {id})
  }

  function Removed(index: Index, id: ClientID, h: Hash): Index {
    if h !in index then index
    else if (index[h].byClient - {id}) == map[] then index - {h}
    else index[h := Without(index[h], id)]
  }

  function AddedAll(index: Index, id: ClientID, records: seq<FileRecord>): Index {
    if records == [] then index
    else Added(AddedAll(index, id, records[..|records| - 1]), id, records[|records| - 1])
  }

  /** The client taken out of all the given files at once. */
  function RemovedAll(index: Index, id: ClientID, hashes: set<Hash>): Index {
    map h | h in index && !(h in hashes && (index[h].byClient - {id}) == map[]) ::
      if h in hashes then Without(index[h], id) else index[h]
  }

  function HashSet(records: seq<FileRecord>): set<Hash> {
    set r | r in records :: r.hash
  }

  /** The hashes of the records in a session's table. */
  function TableHashes(offered: map<Hash, FileRecord>): set<Hash> {
    set h | h in offered :: offered[h].hash
  }

  /** What an accepted offer does to the index: the replaced records leave, the accepted ones enter. */
  function Offered(index: Index, id: ClientID, previous: seq<FileRecord>, accepted: seq<FileRecord>): Index {
    AddedAll(RemovedAll(index, id, HashSet(previous)), id, accepted)
  }

  /** The files under which a client is listed. */
  function IndexedBy(index: Index, id: ClientID): set<Hash> {
    set h | h in index && id in index[h].byClient
  }

  /** Removing files one by one, in any order, is removing them at once. */
  lemma RemoveOneMore(index: Index, id: ClientID, hashes: set<Hash>, h: Hash)
    ensures Removed(RemovedAll(index, id, hashes), id, h) == RemovedAll(index, id, hashes + {h})
  {
    if h in index && h in hashes && h in RemovedAll(index, id, hashes) {
      var once := Without(index[h], id);
      assert once.byClient - {id} == once.byClient && once.completes - {id} == once.completes;
    }
  }

  lemma RemoveNothing(index: Index, id: ClientID)
    ensures RemovedAll(index, id, {}) == index
  {
  }

  // ---------------------------------------------------------------- claims and listings

  /** The files for which a client has said whether it has all of it. */
  function ClaimedBy(index: Index, id: ClientID): set<Hash> {
    set h | h in index && id in index[h].completes
  }

  /** The hashes of the records that carry an endpoint. */
  function EndpointHashes(records: seq<FileRecord>): set<Hash> {
    set r | r in records && r.endpoints != [] :: r.hash
  }

  /** Every entry is under its own hash and belongs to some client, and each client that is listed has claimed it. */
  ghost predicate EntriesOwned(index: Index) {
    forall h :: h in index ==> EntryOwned(h, index[h])
  }

  ghost predicate EntryOwned(h: Hash, shared: SharedFile) {
    shared.record.hash == h && shared.byClient.Keys <= shared.completes.Keys && shared.completes != map[]
  }

  lemma HashSetOneMore(records: seq<FileRecord>, n: nat)
    requires n < |records|
    ensures HashSet(records[..n + 1]) == HashSet(records[..n]) + {records[n].hash}
  {
    assert records[..n + 1] == records[..n] + [records[n]];
  }

  lemma AddLists(index: Index, id: ClientID, r: FileRecord)
    requires EntriesOwned(index)
    ensures EntriesOwned(Added(index, id, r))
    ensures forall c :: ClaimedBy(Added(index, id, r), c) == ClaimedBy(index, c) + (if c == id then {r.hash} else {})
    ensures forall c :: IndexedBy(Added(index, id, r), c) ==
                        IndexedBy(index, c) + (if c == id && r.endpoints != [] then {r.hash} else {})
  {
    var after := Added(index, id, r);
    assert id in after[r.hash].completes;
    forall h | h in after
      ensures EntryOwned(h, after[h])
    {
      assert h in index ==> EntryOwned(h, index[h]);
    }
  }

  lemma EndpointHashesOneMore(records: seq<FileRecord>, n: nat)
    requires n < |records|
    ensures EndpointHashes(records[..n + 1]) ==
            EndpointHashes(records[..n]) + (if records[n].endpoints != [] then {records[n].hash} else {})
  {
    assert records[..n + 1] == records[..n] + [records[n]];
  }

  /** Adding records claims all of them for the client and lists it under those that carry an endpoint. */
  lemma {:induction false} AddAllLists(index: Index, id: ClientID, records: seq<FileRecord>)
    requires EntriesOwned(index)
    ensures EntriesOwned(AddedAll(index, id, records))
    ensures forall c :: ClaimedBy(AddedAll(index, id, records), c) ==
                        ClaimedBy(index, c) + (if c == id then HashSet(records) else {})
    ensures forall c :: IndexedBy(AddedAll(index, id, records), c) ==
                        IndexedBy(index, c) + (if c == id then EndpointHashes(records) else {})
  {
    if records != [] {
      var n := |records| - 1;
      AddAllLists(index, id, records[..n]);
      AddLists(AddedAll(index, id, records[..n]), id, records[n]);
      HashSetOneMore(records, n);
      EndpointHashesOneMore(records, n);
      assert records[..n + 1] == records;
    }
  }

  /** A withdrawal removes a file exactly when no other client is listed for it, whoever else has claimed it. */
  lemma WithdrawalRemovesIff(index: Index, id: ClientID, hashes: set<Hash>, h: Hash)
    requires h in index
    ensures h !in RemovedAll(index, id, hashes) <==> h in hashes && forall c :: c in index[h].byClient ==> c == id
  {
    if h in hashes && (forall c :: c in index[h].byClient ==> c == id) {
      assert index[h].byClient - {id} == map[];
    }
    if c :| c in index[h].byClient && c != id {
      assert c in index[h].byClient - {id};
    }
  }

  /** It takes the client out of exactly these files; other clients stay listed, but can lose their claims. */
  lemma WithdrawalLists(index: Index, id: ClientID, hashes: set<Hash>)
    requires EntriesOwned(index)
    ensures EntriesOwned(RemovedAll(index, id, hashes))
    ensures forall c :: IndexedBy(RemovedAll(index, id, hashes), c) == IndexedBy(index, c) - (if c == id then hashes else {})
    ensures forall c :: ClaimedBy(RemovedAll(index, id, hashes), c) <= ClaimedBy(index, c) - (if c == id then hashes else {})
  {
    var after := RemovedAll(index, id, hashes);
    forall h | h in after
      ensures EntryOwned(h, after[h])
    {
      assert EntryOwned(h, index[h]);
    }
    forall c
      ensures IndexedBy(after, c) == IndexedBy(index, c) - (if c == id then hashes else {})
    {
      forall h | h in IndexedBy(index, c) && !(c == id && h in hashes)
        ensures h in IndexedBy(after, c)
      {
        WithdrawalRemovesIff(index, id, hashes, h);
      }
    }
  }

  /** An offer replaces what its client is listed for under the replaced hashes by what the accepted records give an endpoint for. */
  lemma OfferLists(index: Index, id: ClientID, previous: seq<FileRecord>, accepted: seq<FileRecord>)
    requires EntriesOwned(index)
    ensures EntriesOwned(Offered(index, id, previous, accepted))
    ensures forall c :: c != id ==> IndexedBy(Offered(index, id, previous, accepted), c) == IndexedBy(index, c)
    ensures forall c :: c != id ==> ClaimedBy(Offered(index, id, previous, accepted), c) <= ClaimedBy(index, c)
    ensures IndexedBy(Offered(index, id, previous, accepted), id) ==
            (IndexedBy(index, id) - HashSet(previous)) + EndpointHashes(accepted)
    ensures ClaimedBy(Offered(index, id, previous, accepted), id) <= ClaimedBy(index, id) + HashSet(accepted)
  {
    WithdrawalLists(index, id, HashSet(previous));
    AddAllLists(RemovedAll(index, id, HashSet(previous)), id, accepted);
  }

  /** An offer removes no file: what it withdraws it offers again. */
  lemma OfferRemovesNothing(index: Index, id: ClientID, previous: seq<FileRecord>, accepted: seq<FileRecord>)
    requires HashSet(previous) <= HashSet(accepted)
    ensures index.Keys <= Offered(index, id, previous, accepted).Keys
  {
    AddedKeys(RemovedAll(index, id, HashSet(previous)), id, accepted);
  }

  lemma {:induction false} AddedKeys(index: Index, id: ClientID, records: seq<FileRecord>)
    ensures AddedAll(index, id, records).Keys == index.Keys + HashSet(records)
  {
    if records != [] {
      var n := |records| - 1;
      AddedKeys(index, id, records[..n]);
      HashSetOneMore(records, n);
      assert records[..n + 1] == records;
    }
  }

  // ---------------------------------------------------------------- what the index keeps

  /** A record as the offer handler builds it, with the endpoint of the client that offers it. */
  predicate Offerable(r: FileRecord) {
    r.hash != 0 && r.name != [] && r.size > 0 && r.endpoints != []
  }

  /** Every entry is under its own hash, has a name and a size, and has the same non-empty clients in both maps. */
  ghost predicate IndexOK(index: Index) {
    forall h :: h in index ==> EntryOK(h, index[h])
  }

  ghost predicate EntryOK(h: Hash, shared: SharedFile) {
    && shared.record.hash == h && h != 0 && shared.record.name != [] && shared.record.size > 0
    && shared.byClient != map[] && shared.byClient.Keys == shared.completes.Keys
  }

  lemma KeptIsOwned(index: Index)
    requires IndexOK(index)
    ensures EntriesOwned(index)
  {
    forall h | h in index
      ensures EntryOwned(h, index[h])
    {
      assert EntryOK(h, index[h]);
    }
  }

  lemma AddKeeps(index: Index, id: ClientID, r: FileRecord)
    requires IndexOK(index) && Offerable(r)
    ensures IndexOK(Added(index, id, r))
    ensures forall c :: IndexedBy(Added(index, id, r), c) == IndexedBy(index, c) + (if c == id then {r.hash} else {})
  {
    KeptIsOwned(index);
    AddLists(index, id, r);
    assert id in Added(index, id, r)[r.hash].byClient;
  }

  lemma {:induction false} AddAllKeeps(index: Index, id: ClientID, records: seq<FileRecord>)
    requires IndexOK(index) && forall i :: 0 <= i < |records| ==> Offerable(records[i])
    ensures IndexOK(AddedAll(index, id, records))
    ensures forall c :: IndexedBy(AddedAll(index, id, records), c) ==
                        IndexedBy(index, c) + (if c == id then HashSet(records) else {})
  {
    KeptIsOwned(index);
    AddAllLists(index, id, records);
    AllHaveEndpoints(records);
    if records != [] {
      var n := |records| - 1;
      AddAllKeeps(index, id, records[..n]);
      AddKeeps(AddedAll(index, id, records[..n]), id, records[n]);
    }
  }

  lemma AllHaveEndpoints(records: seq<FileRecord>)
    requires forall i :: 0 <= i < |records| ==> Offerable(records[i])
    ensures EndpointHashes(records) == HashSet(records)
  {
    assert forall r :: r in records ==> r.endpoints != [];
  }

  lemma RemoveAllKeeps(index: Index, id: ClientID, hashes: set<Hash>)
    requires IndexOK(index)
    ensures IndexOK(RemovedAll(index, id, hashes))
    ensures forall c :: IndexedBy(RemovedAll(index, id, hashes), c) ==
                        IndexedBy(index, c) - (if c == id then hashes else {})
  {
    KeptIsOwned(index);
    WithdrawalLists(index, id, hashes);
    var after := RemovedAll(index, id, hashes);
    forall h | h in after
      ensures EntryOK(h, after[h])
    {
      assert EntryOK(h, index[h]);
    }
  }

  lemma OfferKeeps(index: Index, id: ClientID, previous: seq<FileRecord>, accepted: seq<FileRecord>)
    requires IndexOK(index) && forall i :: 0 <= i < |accepted| ==> Offerable(accepted[i])
    ensures IndexOK(Offered(index, id, previous, accepted))
    ensures forall c :: c != id ==> IndexedBy(Offered(index, id, previous, accepted), c) == IndexedBy(index, c)
    ensures IndexedBy(Offered(index, id, previous, accepted), id) == (IndexedBy(index, id) - HashSet(previous)) + HashSet(accepted)
  {
    RemoveAllKeeps(index, id, HashSet(previous));
    AddAllKeeps(RemovedAll(index, id, HashSet(previous)), id, accepted);
  }

  // ---------------------------------------------------------------- metadata

  /** Name and size are the same, and every other field is the same or was empty before. */
  predicate Extends(before: FileRecord, after: FileRecord) {
    && after.hash == before.hash && after.name == before.name && after.size == before.size
    && (before.fileType != [] ==> after.fileType == before.fileType)
    && (before.extension != [] ==> after.extension == before.extension)
    && (before.mediaCodec != [] ==> after.mediaCodec == before.mediaCodec)
    && (before.mediaLength != 0 ==> after.mediaLength == before.mediaLength)
    && (before.mediaBitrate != 0 ==> after.mediaBitrate == before.mediaBitrate)
  }

  lemma AddExtends(index: Index, id: ClientID, r: FileRecord, h: Hash)
    requires h in index && EntryOK(h, index[h])
    ensures h in Added(index, id, r) && Extends(index[h].record, Added(index, id, r)[h].record)
  {
  }

  lemma ExtendsTransitive(a: FileRecord, b: FileRecord, c: FileRecord)
    requires Extends(a, b) && Extends(b, c)
    ensures Extends(a, c)
  {
  }

  lemma {:induction false} AddAllExtends(index: Index, id: ClientID, records: seq<FileRecord>, h: Hash)
    requires IndexOK(index) && h in index
    requires forall i :: 0 <= i < |records| ==> Offerable(records[i])
    ensures h in AddedAll(index, id, records) && Extends(index[h].record, AddedAll(index, id, records)[h].record)
  {
    if records != [] {
      var n := |records| - 1;
      var before := AddedAll(index, id, records[..n]);
      AddAllExtends(index, id, records[..n], h);
      AddAllKeeps(index, id, records[..n]);
      AddExtends(before, id, records[n], h);
      ExtendsTransitive(index[h].record, before[h].record, AddedAll(index, id, records)[h].record);
    }
  }

  /** An offer extends the metadata of every entry that some other client holds, or that is not being replaced. */
  lemma OfferExtends(index: Index, id: ClientID, previous: seq<FileRecord>, accepted: seq<FileRecord>, h: Hash)
    requires IndexOK(index) && h in index
    requires forall i :: 0 <= i < |accepted| ==> Offerable(accepted[i])
    requires !(h in HashSet(previous) && (index[h].byClient - {id}) == map[])
    ensures h in Offered(index, id, previous, accepted) && Extends(index[h].record, Offered(index, id, previous, accepted)[h].record)
  {
    RemoveAllKeeps(index, id, HashSet(previous));
    AddAllExtends(RemovedAll(index, id, HashSet(previous)), id, accepted, h);
  }

  // ---------------------------------------------------------------- materialising an entry

  /** The clients that have all of the file. */
  function CompleteClients(shared: SharedFile): set<ClientID> {
    set c | c in shared.completes && shared.completes[c]
  }

  /** The record is the entry's metadata with the current endpoints, in some order, and the current counts. */
  ghost predicate Materializes(shared: SharedFile, record: FileRecord) {
    && record.(endpoints := []) == Counted(shared)
    && |record.endpoints| == |shared.byClient|
    && forall e :: e in record.endpoints <==> exists c :: c in shared.byClient && shared.byClient[c] == e
  }

  /** The metadata with the current counts. */
  ghost function Counted(shared: SharedFile): FileRecord {
    shared.record.(
      endpoints := [],
      sources := |shared.byClient|,
      completeSources := if CompleteClients(shared) == {} then |shared.byClient| else |CompleteClients(shared)|)
  }

  /** The record a reader sees. */
  method Materialize(shared: SharedFile) returns (record: FileRecord)
    ensures Materializes(shared, record)
  {
    var endpoints: seq<SourceEntry> := [];
    var remaining := shared.byClient.Keys;
    while remaining != {}
      invariant remaining <= shared.byClient.Keys
      invariant |endpoints| + |remaining| == |shared.byClient|
      invariant forall e :: e in endpoints <==> exists c :: c in shared.byClient && c !in remaining && shared.byClient[c] == e
      decreases |remaining|
    {
      var c := AnyOf(remaining);
      endpoints := endpoints + [shared.byClient[c]];
      remaining := remaining - {c};
    }
    var completeSources := CountComplete(shared);
    if completeSources == 0 {
      completeSources := |endpoints|;
    }
    record := shared.record.(endpoints := endpoints, sources := |endpoints|, completeSources := completeSources);
  }

  method CountComplete(shared: SharedFile) returns (n: nat)
    ensures n == |CompleteClients(shared)|
  {
    n := 0;
    var remaining := shared.completes.Keys;
    ghost var counted: set<ClientID> := {};
    while remaining != {}
      invariant remaining <= shared.completes.Keys
      invariant counted == set c | c in shared.completes && c !in remaining && shared.completes[c]
      invariant n == |counted|
      decreases |remaining|
    {
      var c := AnyOf(remaining);
      if shared.completes[c] {
        n := n + 1;
        counted := counted + {c};
      }
      remaining := remaining - {c};
    }
    assert counted == CompleteClients(shared);
  }

  /** What a reader sees of a consistent entry counts some client as a source, and between one and all of them as complete. */
  lemma MaterializedCounts(h: Hash, shared: SharedFile, record: FileRecord)
    requires EntryOK(h, shared) && Materializes(shared, record)
    ensures 1 <= record.completeSources <= record.sources == |record.endpoints|
  {
    assert CompleteClients(shared) <= shared.byClient.Keys;
    SubsetSize(CompleteClients(shared), shared.byClient.Keys);
    assert record.sources == Counted(shared).sources && record.completeSources == Counted(shared).completeSources;
  }

  // ---------------------------------------------------------------- the session's own table

  /** A session's table part-way through a batch of offered records. */
  datatype Batch = Batch(offered: map<Hash, FileRecord>, previous: seq<FileRecord>, accepted: seq<FileRecord>, dropped: nat)

  /** One record of the batch. A cap of zero or less means no cap. */
  function Taken(b: Batch, cap: int, r: FileRecord): Batch {
    if r.hash !in b.offered && cap > 0 && |b.offered| >= cap then b.(dropped := b.dropped + 1)
    else
      Batch(b.offered[r.hash := r],
            if r.hash in b.offered then b.previous + [b.offered[r.hash]] else b.previous,
            b.accepted + [r],
            b.dropped)
  }

  /** The first n records of the batch. */
  function TakenFirst(offered: map<Hash, FileRecord>, cap: int, records: seq<FileRecord>, n: nat): Batch
    requires n <= |records|
  {
    if n == 0 then Batch(offered, [], [], 0)
    else Taken(TakenFirst(offered, cap, records, n - 1), cap, records[n - 1])
  }

  function TakenAll(offered: map<Hash, FileRecord>, cap: int, records: seq<FileRecord>): Batch {
    TakenFirst(offered, cap, records, |records|)
  }

  /** The table is a map by hash. */
  predicate TableOK(offered: map<Hash, FileRecord>) {
    forall h :: h in offered ==> offered[h].hash == h
  }

  lemma {:induction false} FirstWithinCap(offered: map<Hash, FileRecord>, cap: int, records: seq<FileRecord>, n: nat)
    requires n <= |records|
    ensures var b := TakenFirst(offered, cap, records, n);
            && |b.accepted| + b.dropped == n
            && (cap > 0 && |offered| <= cap ==> |b.offered| <= cap)
            && (cap <= 0 ==> b.dropped == 0)
  {
    if n > 0 {
      FirstWithinCap(offered, cap, records, n - 1);
    }
  }

  /** Every record is either accepted or dropped, the table never outgrows a positive cap, and with no cap nothing is dropped. */
  lemma BatchWithinCap(offered: map<Hash, FileRecord>, cap: int, records: seq<FileRecord>)
    ensures var b := TakenAll(offered, cap, records);
            && |b.accepted| + b.dropped == |records|
            && (cap > 0 && |offered| <= cap ==> |b.offered| <= cap)
            && (cap <= 0 ==> b.dropped == 0)
  {
    FirstWithinCap(offered, cap, records, |records|);
  }

  /**
   The table after a batch holds the old hashes and the accepted ones, and the replaced records are
   exactly those of accepted hashes that were there before or repeat within the batch.
   */
  ghost predicate BatchOK(offered: map<Hash, FileRecord>, b: Batch) {
    && TableOK(b.offered)
    && b.offered.Keys == offered.Keys + HashSet(b.accepted)
    && HashSet(b.previous) <= HashSet(b.accepted)
    && offered.Keys * HashSet(b.accepted) <= HashSet(b.previous)
  }

  lemma TakenKeepsBatchOK(offered: map<Hash, FileRecord>, b: Batch, cap: int, r: FileRecord)
    requires BatchOK(offered, b)
    ensures BatchOK(offered, Taken(b, cap, r))
  {
    HashSetAppend(b.accepted, r);
    if r.hash in b.offered {
      HashSetAppend(b.previous, b.offered[r.hash]);
    }
  }

  lemma HashSetAppend(records: seq<FileRecord>, r: FileRecord)
    ensures HashSet(records + [r]) == HashSet(records) + {r.hash}
  {
    assert (records + [r])[|records|] == r;
    assert forall x :: x in records + [r] <==> x in records || x == r;
  }

  lemma {:induction false} BatchTable(offered: map<Hash, FileRecord>, cap: int, records: seq<FileRecord>, n: nat)
    requires TableOK(offered) && n <= |records|
    ensures BatchOK(offered, TakenFirst(offered, cap, records, n))
  {
    if n > 0 {
      BatchTable(offered, cap, records, n - 1);
      TakenKeepsBatchOK(offered, TakenFirst(offered, cap, records, n - 1), cap, records[n - 1]);
    }
  }

  lemma {:induction false} AcceptedFromBatch(offered: map<Hash, FileRecord>, cap: int, records: seq<FileRecord>, n: nat)
    requires n <= |records|
    ensures forall r :: r in TakenFirst(offered, cap, records, n).accepted ==> r in records
  {
    if n > 0 {
      AcceptedFromBatch(offered, cap, records, n - 1);
    }
  }

  /** The records with a hash in the set, in order. */
  function WithHash(records: seq<FileRecord>, hashes: set<Hash>): seq<FileRecord> {
    if records == [] then []
    else WithHash(records[..|records| - 1], hashes) + (if records[|records| - 1].hash in hashes then [records[|records| - 1]] else [])
  }

  lemma {:induction false} WithHashMore(records: seq<FileRecord>, hashes: set<Hash>, more: set<Hash>)
    requires hashes <= more && forall r :: r in records && r.hash in more ==> r.hash in hashes
    ensures WithHash(records, hashes) == WithHash(records, more)
  {
    if records != [] {
      var n := |records| - 1;
      WithHashMore(records[..n], hashes, more);
      assert records[n] in records;
    }
  }

  /**
   What a batch accepts are its records with a hash of the resulting table, in the order given, and the table has
   the last record of every accepted hash.
   */
  lemma {:induction false} AcceptedInOrder(offered: map<Hash, FileRecord>, cap: int, records: seq<FileRecord>, n: nat)
    requires TableOK(offered) && n <= |records|
    ensures var b := TakenFirst(offered, cap, records, n);
            && b.accepted == WithHash(records[..n], b.offered.Keys)
            && forall i :: 0 <= i < n && records[i].hash in b.offered && (forall j :: i < j < n ==> records[j].hash != records[i].hash)
                 ==> b.offered[records[i].hash] == records[i]
  {
    if n > 0 {
      AcceptedInOrder(offered, cap, records, n - 1);
      var before, after := TakenFirst(offered, cap, records, n - 1), TakenFirst(offered, cap, records, n);
      assert records[..n][..n - 1] == records[..n - 1];
      assert after.accepted == before.accepted + (if records[n - 1].hash in after.offered then [records[n - 1]] else []);
      forall r | r in records[..n - 1] && r.hash in after.offered
        ensures r.hash in before.offered
      {
        RefusedStaysRefused(offered, cap, records, n, r);
      }
      WithHashMore(records[..n - 1], before.offered.Keys, after.offered.Keys);
    }
  }

  lemma RefusedStaysRefused(offered: map<Hash, FileRecord>, cap: int, records: seq<FileRecord>, n: nat, r: FileRecord)
    requires TableOK(offered) && 0 < n <= |records| && r in records[..n - 1]
    requires r.hash in TakenFirst(offered, cap, records, n).offered
    ensures r.hash in TakenFirst(offered, cap, records, n - 1).offered
  {
    var i :| 0 <= i < n - 1 && records[i] == r;
    FirstDecided(offered, cap, records, n - 1, i);
    if r.hash !in TakenFirst(offered, cap, records, n - 1).offered {
      FullStays(TakenFirst(offered, cap, records, n - 1), cap, records[n - 1], r.hash);
    }
  }

  lemma FullStays(b: Batch, cap: int, r: FileRecord, h: Hash)
    requires h !in b.offered && cap > 0 && |b.offered| >= cap
    ensures h !in Taken(b, cap, r).offered
  {
  }

  /** The record was accepted if and only if its hash is in the table, and was dropped only if the table is full. */
  ghost predicate Decided(b: Batch, cap: int, x: FileRecord) {
    && (x in b.accepted <==> x.hash in b.offered)
    && (x !in b.accepted ==> cap > 0 && |b.offered| >= cap)
  }

  lemma AcceptedInTable(offered: map<Hash, FileRecord>, cap: int, records: seq<FileRecord>, n: nat, x: FileRecord)
    requires TableOK(offered) && n <= |records| && x in TakenFirst(offered, cap, records, n).accepted
    ensures x.hash in TakenFirst(offered, cap, records, n).offered
  {
    BatchTable(offered, cap, records, n);
    HashInSet(TakenFirst(offered, cap, records, n).accepted, x);
  }

  lemma StepDecided(offered: map<Hash, FileRecord>, cap: int, records: seq<FileRecord>, n: nat, x: FileRecord)
    requires TableOK(offered) && n < |records|
    requires x == records[n] || Decided(TakenFirst(offered, cap, records, n), cap, x)
    ensures Decided(TakenFirst(offered, cap, records, n + 1), cap, x)
  {
    var before := TakenFirst(offered, cap, records, n);
    if x in before.accepted {
      AcceptedInTable(offered, cap, records, n, x);
    }
    if x in TakenFirst(offered, cap, records, n + 1).accepted {
      AcceptedInTable(offered, cap, records, n + 1, x);
    }
    TakenDecides(before, cap, records[n], x);
  }

  lemma TakenDecides(b: Batch, cap: int, r: FileRecord, x: FileRecord)
    requires x in b.accepted ==> x.hash in b.offered
    requires x == r || Decided(b, cap, x)
    requires x in Taken(b, cap, r).accepted ==> x.hash in Taken(b, cap, r).offered
    ensures Decided(Taken(b, cap, r), cap, x)
  {
    SubsetSize(b.offered.Keys, Taken(b, cap, r).offered.Keys);
  }

  lemma {:induction false} FirstDecided(offered: map<Hash, FileRecord>, cap: int, records: seq<FileRecord>, n: nat, i: nat)
    requires TableOK(offered) && i < n <= |records|
    ensures Decided(TakenFirst(offered, cap, records, n), cap, records[i])
  {
    if i < n - 1 {
      FirstDecided(offered, cap, records, n - 1, i);
    }
    StepDecided(offered, cap, records, n - 1, records[i]);
  }

  /** Every record of a batch is decided at the end of it, and one whose hash was in the table before is never dropped. */
  lemma BatchDecided(offered: map<Hash, FileRecord>, cap: int, records: seq<FileRecord>, i: nat)
    requires TableOK(offered) && i < |records|
    ensures Decided(TakenAll(offered, cap, records), cap, records[i])
    ensures records[i].hash in offered ==> records[i] in TakenAll(offered, cap, records).accepted
  {
    FirstDecided(offered, cap, records, |records|, i);
    BatchTable(offered, cap, records, |records|);
  }

  /** The hashes a table has with an endpoint. */
  function TableEndpoints(offered: map<Hash, FileRecord>): set<Hash> {
    set h | h in offered && offered[h].endpoints != []
  }

  /** Records of the batch with the same hash agree on whether they carry an endpoint. */
  predicate Agreeing(records: seq<FileRecord>) {
    forall x, y :: x in records && y in records && x.hash == y.hash ==> (x.endpoints == [] <==> y.endpoints == [])
  }

  /** The table has an accepted record under every accepted hash and is unchanged elsewhere. */
  ghost predicate TableFrom(offered: map<Hash, FileRecord>, b: Batch) {
    forall h :: h in b.offered ==>
      b.offered[h] in b.accepted || (h !in HashSet(b.accepted) && h in offered && b.offered[h] == offered[h])
  }

  lemma {:induction false} BatchTableFrom(offered: map<Hash, FileRecord>, cap: int, records: seq<FileRecord>, n: nat)
    requires TableOK(offered) && n <= |records|
    ensures TableFrom(offered, TakenFirst(offered, cap, records, n))
  {
    if n > 0 {
      BatchTableFrom(offered, cap, records, n - 1);
      HashSetAppend(TakenFirst(offered, cap, records, n - 1).accepted, records[n - 1]);
    }
  }

  /**
   The hashes the table has with an endpoint after a batch come from the old ones that were not replaced and the
   accepted records that carry one, and are exactly these when the batch does not contradict itself.
   */
  lemma BatchEndpoints(offered: map<Hash, FileRecord>, cap: int, records: seq<FileRecord>)
    requires TableOK(offered)
    ensures var b := TakenAll(offered, cap, records);
            && TableEndpoints(b.offered) <= (TableEndpoints(offered) - HashSet(b.previous)) + EndpointHashes(b.accepted)
            && (Agreeing(records) ==>
                  TableEndpoints(b.offered) == (TableEndpoints(offered) - HashSet(b.previous)) + EndpointHashes(b.accepted))
  {
    var b := TakenAll(offered, cap, records);
    BatchTable(offered, cap, records, |records|);
    BatchTableFrom(offered, cap, records, |records|);
    AcceptedFromBatch(offered, cap, records, |records|);
    if Agreeing(records) {
      forall h | h in EndpointHashes(b.accepted)
        ensures h in TableEndpoints(b.offered)
      {
        var r :| r in b.accepted && r.endpoints != [] && r.hash == h;
        HashInSet(b.accepted, r);
        assert b.offered[h] in b.accepted && b.offered[h].hash == h;
      }
      forall h | h in TableEndpoints(offered) && h !in HashSet(b.previous)
        ensures h in TableEndpoints(b.offered)
      {
        assert h !in HashSet(b.accepted);
      }
    }
  }

  lemma HashInSet(records: seq<FileRecord>, r: FileRecord)
    requires r in records
    ensures r.hash in HashSet(records)
  {
  }
}
