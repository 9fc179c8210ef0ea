/** The server and its sessions as objects, one method for each critical section and for each request built from them. */
module Servers {
  import opened Basics
  import opened Records
  import opened SharedIndex
  import opened ClientIDs
  import opened ResultPages
  import opened Library
  import opened SearchQueries
  import TrigramIndex
  import opened Catalogs

  function AsSet(hashes: seq<Hash>): set<Hash> {
    set h | h in hashes
  }

  class ClientSession {
    var assignedID: ClientID
    var offeredFiles: map<Hash, FileRecord>
    var searchResult: seq<SharedFileEntry>
    var searchOffset: nat

    constructor ()
      ensures assignedID == 0 && offeredFiles == map[] && searchResult == [] && searchOffset == 0
    {
      assignedID := 0;
      offeredFiles := map[];
      searchResult := [];
      searchOffset := 0;
    }

    /** The part of an offer under the session's lock: the batch is taken into the table up to the cap. */
    method TakeBatch(cap: int, records: seq<FileRecord>)
      returns (previous: seq<FileRecord>, accepted: seq<FileRecord>, dropped: nat)
      modifies this`offeredFiles
      ensures Batch(offeredFiles, previous, accepted, dropped) == TakenAll(old(offeredFiles), cap, records)
    {
      previous, accepted, dropped := [], [], 0;
      for i := 0 to |records|
        invariant Batch(offeredFiles, previous, accepted, dropped) == TakenFirst(old(offeredFiles), cap, records, i)
      {
        var record := records[i];
        var known := record.hash in offeredFiles;
        if !known && cap > 0 && |offeredFiles| >= cap {
          dropped := dropped + 1;
          continue;
        }
        if known {
          previous := previous + [offeredFiles[record.hash]];
        }
        offeredFiles := offeredFiles[record.hash := record];
        accepted := accepted + [record];
      }
    }

    /** The part of a withdrawal under the session's lock: the table is emptied and its hashes handed on in some order. */
    method EmptyTable() returns (withdrawn: seq<Hash>)
      modifies this`offeredFiles
      ensures offeredFiles == map[]
      ensures forall h :: h in withdrawn <==> exists k :: k in old(offeredFiles) && old(offeredFiles)[k].hash == h
    {
      withdrawn := [];
      var remaining := offeredFiles.Keys;
      while remaining != {}
        invariant remaining <= offeredFiles.Keys && offeredFiles == old(offeredFiles)
        invariant forall h :: h in withdrawn <==> exists k :: k in offeredFiles && k !in remaining && offeredFiles[k].hash == h
        decreases |remaining|
      {
        var k := AnyOf(remaining);
        withdrawn := withdrawn + [offeredFiles[k].hash];
        remaining := remaining - {k};
      }
      offeredFiles := map[];
    }

    /** What a search found replaces the snapshot, and its first page is the reply. */
    method TakeResults(found: seq<SharedFileEntry>, maxResults: int, batchSize: nat)
      returns (page: Page<SharedFileEntry>)
      requires batchSize >= 1
      modifies this`searchResult, this`searchOffset
      ensures searchResult == found[..Deliverable(|found|, maxResults)]
      ensures page == Reply(searchResult, batchSize, 0)
      ensures searchOffset == OffsetAfter(searchResult, batchSize, 1)
    {
      searchResult := Capped(found, maxResults);
      CappedIsDeliverable(found, maxResults);
      searchOffset := 0;
      page := HandleSearchMore(batchSize);
    }

    /** The next page of the snapshot. */
    method HandleSearchMore(batchSize: nat) returns (page: Page<SharedFileEntry>)
      requires batchSize >= 1
      modifies this`searchOffset
      ensures page == PageAt(searchResult, old(searchOffset), batchSize)
      ensures searchOffset == PageEnd(searchResult, old(searchOffset), batchSize)
      ensures forall n: nat :: old(searchOffset) == OffsetAfter(searchResult, batchSize, n) ==>
                page == Reply(searchResult, batchSize, n) && searchOffset == OffsetAfter(searchResult, batchSize, n + 1)
    {
      if |searchResult| == 0 || searchOffset >= |searchResult| {
        return Page([], false);
      }
      var end := searchOffset + batchSize;
      if end > |searchResult| {
        end := |searchResult|;
      }
      page := Page(searchResult[searchOffset..end], end < |searchResult|);
      searchOffset := end;
    }
  }

  /** The shared files that match. */
  ghost function MatchingShares(lib: Library, index: Index, q: SearchQuery): set<Hash> {
    set h | h in index && QueryMatches(lib, q, Counted(index[h]))
  }

  /** The entry shows the shared file with its endpoints in some order. */
  ghost predicate Shows(lib: Library, shared: SharedFile, entry: SharedFileEntry) {
    exists record :: Materializes(shared, record) && entry == MakeSharedFileEntry(lib, record)
  }

  /** The results are the catalog's, in catalog order, and then one entry for each of the shared files in the list. */
  ghost predicate FoundAll(lib: Library, files: seq<FileRecord>, index: Index, q: SearchQuery,
                           shares: seq<Hash>, results: seq<SharedFileEntry>) {
    var own := SearchResults(lib, files, q);
    && |results| == |own| + |shares|
    && own <= results
    && TrigramIndex.Distinct(shares)
    && forall i :: 0 <= i < |shares| ==> shares[i] in index && Shows(lib, index[shares[i]], results[|own| + i])
  }

  /** What a search of everything may return: nothing that matches is left out or there twice. */
  ghost predicate IsSearchAll(lib: Library, files: seq<FileRecord>, index: Index, q: SearchQuery, results: seq<SharedFileEntry>) {
    exists shares :: FoundAll(lib, files, index, q, shares, results) && AsSet(shares) == MatchingShares(lib, index, q)
  }

  lemma MatchesAsCounted(lib: Library, q: SearchQuery, shared: SharedFile, record: FileRecord)
    requires Materializes(shared, record)
    ensures QueryMatches(lib, q, record) == QueryMatches(lib, q, Counted(shared))
  {
    if q.root.Some? {
      EndpointsDoNotMatter(lib, q.root.value, record, Counted(shared));
    }
  }

  class Server {
    const maxOfferedFilesPerClient: int
    var clients: map<ClientID, ClientSession>
    var dynamicFiles: Index
    var nextID: ClientID

    constructor (cap: int)
      ensures maxOfferedFilesPerClient == cap && clients == map[] && dynamicFiles == map[] && nextID == 16777217
    {
      maxOfferedFilesPerClient := cap;
      clients := map[];
      dynamicFiles := map[];
      nextID := FIRST_ID;
    }

    /** The numbers are 32-bit and there are fewer clients than numbers. */
    predicate NumbersOK()
      reads this
    {
      -TWO_31 <= nextID < TWO_31 && |clients| < ClientIDs.TWO_32
    }

    method AllocateClientID(preferred: ClientID) returns (id: ClientID)
      requires NumbersOK()
      modifies this`nextID
      ensures NumbersOK()
      ensures Allocation(id, nextID) == Allocate(clients.Keys, old(nextID), preferred)
      ensures id !in clients
    {
      if preferred != 0 && preferred !in clients {
        return preferred;
      }
      AllocateNeverInUse(clients.Keys, nextID, preferred);
      id := FindFreeID();
      nextID := Wrap32(id + 1);
    }

    /** The search for a number that is not in use, from nextID on. */
    method FindFreeID() returns (id: ClientID)
      requires NumbersOK()
      ensures id == FirstFree(clients.Keys, nextID)
    {
      id := nextID;
      ghost var used := clients.Keys;
      ghost var n := 0;
      ghost var last := FirstFreeFound(used, nextID);
      assert used - Tried(nextID, 0) == used;
      while id in clients
        invariant n <= last && id == Candidate(nextID, n)
        invariant FirstFree(used - Tried(nextID, n), id) == FirstFree(used, nextID)
        decreases last - n
      {
        StillToTry(used, nextID, n, last);
        TryNext(used, nextID, n);
        id := Wrap32(id + 1);
        n := n + 1;
      }
      assert id !in used - Tried(nextID, n);
    }

    method RegisterClient(client: ClientSession)
      modifies this`clients
      ensures clients == if client.assignedID == 0 then old(clients) else old(clients)[client.assignedID := client]
    {
      if client.assignedID == 0 {
        return;
      }
      clients := clients[client.assignedID := client];
    }

    /** A login as one step: the ID is chosen and registered. */
    method HandleLogin(client: ClientSession, preferred: ClientID)
      requires NumbersOK()
      modifies this`nextID, this`clients, client`assignedID, client`searchResult, client`searchOffset
      ensures Allocation(client.assignedID, nextID) == Allocate(old(clients).Keys, old(nextID), preferred)
      ensures client.assignedID !in old(clients)
      ensures clients == if client.assignedID == 0 then old(clients) else old(clients)[client.assignedID := client]
      ensures client.searchResult == [] && client.searchOffset == 0
    {
      var id := AllocateClientID(preferred);
      client.assignedID := id;
      client.searchResult := [];
      client.searchOffset := 0;
      RegisterClient(client);
    }

    /** The catalog's results followed by those of the share index, the latter in an order that is not fixed. */
    method SearchAll(catalog: Catalog, q: SearchQuery) returns (results: seq<SharedFileEntry>)
      requires catalog.Valid()
      ensures IsSearchAll(catalog.lib, catalog.files, dynamicFiles, q, results)
    {
      results := catalog.Search(q);
      ghost var shares: seq<Hash> := [];
      var remaining := dynamicFiles.Keys;
      while remaining != {}
        invariant remaining <= dynamicFiles.Keys
        invariant FoundAll(catalog.lib, catalog.files, dynamicFiles, q, shares, results)
        invariant AsSet(shares) == MatchingShares(catalog.lib, dynamicFiles, q) - remaining
        decreases |remaining|
      {
        var h := AnyOf(remaining);
        var record := Materialize(dynamicFiles[h]);
        MatchesAsCounted(catalog.lib, q, dynamicFiles[h], record);
        remaining := remaining - {h};
        if QueryMatches(catalog.lib, q, record) {
          var entry := MakeSharedFileEntry(catalog.lib, record);
          assert Shows(catalog.lib, dynamicFiles[h], entry);
          assert h !in AsSet(shares);
          FoundOneMore(catalog.lib, catalog.files, dynamicFiles, q, shares, results, h, entry);
          results := results + [entry];
          shares := shares + [h];
        }
      }
    }

    /** A new search replaces the snapshot; before the login it is ignored. */
    method HandleSearch(client: ClientSession, catalog: Catalog, q: SearchQuery, maxResults: int, batchSize: nat)
      returns (page: Page<SharedFileEntry>)
      requires catalog.Valid() && batchSize >= 1
      modifies client`searchResult, client`searchOffset
      ensures client.assignedID == 0 ==>
                && page == Page([], false)
                && client.searchResult == old(client.searchResult) && client.searchOffset == old(client.searchOffset)
      ensures client.assignedID != 0 ==>
                && (exists found :: IsSearchAll(catalog.lib, catalog.files, dynamicFiles, q, found)
                                    && client.searchResult == found[..Deliverable(|found|, maxResults)])
                && page == Reply(client.searchResult, batchSize, 0)
                && client.searchOffset == OffsetAfter(client.searchResult, batchSize, 1)
    {
      if client.assignedID == 0 {
        return Page([], false);
      }
      var found := SearchAll(catalog, q);
      page := client.TakeResults(found, maxResults, batchSize);
    }

    /** A search by a logged-in client and its next requests for more: everything that is delivered. */
    method SearchAndMore(client: ClientSession, catalog: Catalog, q: SearchQuery, maxResults: int, batchSize: nat, requests: nat)
      returns (delivered: seq<SharedFileEntry>)
      requires catalog.Valid() && batchSize >= 1 && client.assignedID != 0
      modifies client`searchResult, client`searchOffset
      ensures exists found :: IsSearchAll(catalog.lib, catalog.files, dynamicFiles, q, found)
                              && delivered == found[..Min((1 + requests) * batchSize, Deliverable(|found|, maxResults))]
    {
      var page := HandleSearch(client, catalog, q, maxResults, batchSize);
      ghost var snapshot := client.searchResult;
      delivered := page.results;
      assert Delivered(snapshot, batchSize, 1) == [] + delivered;
      for i := 0 to requests
        invariant client.searchResult == snapshot && client.searchOffset == OffsetAfter(snapshot, batchSize, 1 + i)
        invariant delivered == Delivered(snapshot, batchSize, 1 + i)
      {
        page := client.HandleSearchMore(batchSize);
        delivered := delivered + page.results;
      }
      DeliveredIsPrefix(snapshot, batchSize, 1 + requests);
      ghost var found :| IsSearchAll(catalog.lib, catalog.files, dynamicFiles, q, found)
                         && snapshot == found[..Deliverable(|found|, maxResults)];
      SearchDelivers(found, maxResults, snapshot, batchSize, 1 + requests);
    }

    method AddDynamicLocked(id: ClientID, record: FileRecord)
      modifies this`dynamicFiles
      ensures dynamicFiles == Added(old(dynamicFiles), id, record)
    {
      var shared;
      if record.hash in dynamicFiles {
        shared := dynamicFiles[record.hash];
      } else {
        shared := SharedFile(record, map[], map[]);
      }
      var base := record.(endpoints := []);
      shared := shared.(record := Merge(shared.record, base));
      if |record.endpoints| > 0 {
        shared := shared.(byClient := shared.byClient[id := record.endpoints[0]]);
      }
      shared := shared.(completes := shared.completes[id := record.completeSources > 0]);
      dynamicFiles := dynamicFiles[record.hash := shared];
    }

    method RemoveDynamicLocked(id: ClientID, h: Hash)
      modifies this`dynamicFiles
      ensures dynamicFiles == Removed(old(dynamicFiles), id, h)
    {
      if h !in dynamicFiles {
        return;
      }
      var shared := dynamicFiles[h];
      shared := SharedFile(shared.record, shared.byClient - {id}, shared.completes - {id});
      if |shared.byClient| == 0 {
        dynamicFiles := dynamicFiles - {h};
      } else {
        dynamicFiles := dynamicFiles[h := shared];
      }
    }

    /** The part of a withdrawal under the server's lock. */
    method RemoveShares(id: ClientID, hashes: seq<Hash>)
      modifies this`dynamicFiles
      ensures dynamicFiles == RemovedAll(old(dynamicFiles), id, AsSet(hashes))
    {
      RemoveNothing(dynamicFiles, id);
      for i := 0 to |hashes|
        invariant dynamicFiles == RemovedAll(old(dynamicFiles), id, AsSet(hashes[..i]))
      {
        RemoveOneMore(old(dynamicFiles), id, AsSet(hashes[..i]), hashes[i]);
        assert AsSet(hashes[..i + 1]) == AsSet(hashes[..i]) + {hashes[i]};
        RemoveDynamicLocked(id, hashes[i]);
      }
      assert hashes[..|hashes|] == hashes;
    }

    /** The part of an offer under the server's lock: the replaced records leave the index, then the accepted ones enter. */
    method UpdateShares(id: ClientID, previous: seq<FileRecord>, accepted: seq<FileRecord>)
      modifies this`dynamicFiles
      ensures dynamicFiles == Offered(old(dynamicFiles), id, previous, accepted)
    {
      RemoveNothing(dynamicFiles, id);
      assert HashSet(previous[..0]) == {};
      for i := 0 to |previous|
        invariant dynamicFiles == RemovedAll(old(dynamicFiles), id, HashSet(previous[..i]))
      {
        RemoveOneMore(old(dynamicFiles), id, HashSet(previous[..i]), previous[i].hash);
        HashSetOneMore(previous, i);
        RemoveDynamicLocked(id, previous[i].hash);
      }
      assert previous[..|previous|] == previous;
      ghost var removed := dynamicFiles;
      for i := 0 to |accepted|
        invariant dynamicFiles == AddedAll(removed, id, accepted[..i])
      {
        assert accepted[..i + 1][..i] == accepted[..i];
        AddDynamicLocked(id, accepted[i]);
      }
      assert accepted[..|accepted|] == accepted;
    }

    /** The objects an operation on behalf of an ID may change. */
    function Owner(id: ClientID): set<ClientSession>
      reads this
    {
      if id in clients then {clients[id]} else {}
    }

    /** An offer run without interruption. An empty batch withdraws everything; an unknown ID changes nothing. */
    method MergeClientOfferedFiles(id: ClientID, records: seq<FileRecord>) returns (accepted: nat, dropped: nat)
      modifies this`dynamicFiles, Owner(id)`offeredFiles
      ensures clients == old(clients)
      ensures id !in clients ==> accepted == 0 && dropped == 0 && dynamicFiles == old(dynamicFiles)
      ensures id in clients && records == [] ==>
                && accepted == 0 && dropped == 0
                && clients[id].offeredFiles == map[]
                && dynamicFiles == RemovedAll(old(dynamicFiles), id, TableHashes(old(clients[id].offeredFiles)))
      ensures id in clients && records != [] ==>
                var batch := TakenAll(old(clients[id].offeredFiles), maxOfferedFilesPerClient, records);
                && clients[id].offeredFiles == batch.offered
                && accepted == |batch.accepted| && dropped == batch.dropped
                && dynamicFiles == Offered(old(dynamicFiles), id, batch.previous, batch.accepted)
                && accepted + dropped == |records|
    {
      if id !in clients {
        return 0, 0;
      }
      var client := clients[id];
      if |records| == 0 {
        RemoveClientOfferedFiles(id);
        return 0, 0;
      }
      BatchWithinCap(client.offeredFiles, maxOfferedFilesPerClient, records);
      var previous, taken, refused := client.TakeBatch(maxOfferedFilesPerClient, records);
      UpdateShares(id, previous, taken);
      return |taken|, refused;
    }

    method RemoveClientOfferedFiles(id: ClientID)
      modifies this`dynamicFiles, Owner(id)`offeredFiles
      ensures clients == old(clients)
      ensures id !in clients ==> dynamicFiles == old(dynamicFiles)
      ensures id in clients ==>
                && clients[id].offeredFiles == map[]
                && dynamicFiles == RemovedAll(old(dynamicFiles), id, TableHashes(old(clients[id].offeredFiles)))
    {
      if id !in clients {
        return;
      }
      var client := clients[id];
      ghost var table := client.offeredFiles;
      var withdrawn := client.EmptyTable();
      assert AsSet(withdrawn) == TableHashes(table);
      RemoveShares(id, withdrawn);
    }

    /** A disconnect run without interruption. */
    method UnregisterClient(client: ClientSession)
      modifies this`dynamicFiles, this`clients, Owner(client.assignedID)`offeredFiles
      ensures client.assignedID == 0 ==> clients == old(clients) && dynamicFiles == old(dynamicFiles)
      ensures var id := old(client.assignedID);
              id != 0 ==>
                && dynamicFiles == (if id in old(clients)
                                    then RemovedAll(old(dynamicFiles), id, TableHashes(old(if id in clients then clients[id].offeredFiles else map[])))
                                    else old(dynamicFiles))
                && clients == (if id in old(clients) && old(clients)[id] == client then old(clients) - {id} else old(clients))
    {
      var id := client.assignedID;
      if id != 0 {
        RemoveClientOfferedFiles(id);
      }
      if id == 0 {
        return;
      }
      ForgetClient(id, client);
    }

    /** The last part of a disconnect: the client leaves the table if it still holds its ID. */
    method ForgetClient(id: ClientID, client: ClientSession)
      modifies this`clients
      ensures clients == (if id in old(clients) && old(clients)[id] == client then old(clients) - {id} else old(clients))
    {
      if id in clients && clients[id] == client {
        clients := clients - {id};
      }
    }
  }

  lemma FoundOneMore(lib: Library, files: seq<FileRecord>, index: Index, q: SearchQuery,
                     shares: seq<Hash>, results: seq<SharedFileEntry>, h: Hash, entry: SharedFileEntry)
    requires FoundAll(lib, files, index, q, shares, results) && h in index && h !in AsSet(shares)
    requires Shows(lib, index[h], entry)
    ensures FoundAll(lib, files, index, q, shares + [h], results + [entry])
    ensures AsSet(shares + [h]) == AsSet(shares) + {h}
  {
    var more, longer := shares + [h], results + [entry];
    var own := SearchResults(lib, files, q);
    assert AsSet(more) == AsSet(shares) + {h} by {
      assert forall x :: x in more <==> x in shares || x == h;
    }
    assert TrigramIndex.Distinct(more) by {
      assert forall i :: 0 <= i < |shares| ==> shares[i] in AsSet(shares);
    }
    forall i | 0 <= i < |more|
      ensures more[i] in index && Shows(lib, index[more[i]], longer[|own| + i])
    {
      assert i < |shares| ==> longer[|own| + i] == results[|own| + i];
    }
  }

  /** From a used candidate the search goes on with the next one. */
  lemma TryNext(used: set<ClientID>, start: ClientID, n: nat)
    requires n < ClientIDs.TWO_32 && Candidate(start, n) in used
    ensures Wrap32(Candidate(start, n) + 1) == Candidate(start, n + 1)
    ensures FirstFree(used - Tried(start, n), Candidate(start, n)) == FirstFree(used - Tried(start, n + 1), Candidate(start, n + 1))
  {
    TriedOneMore(start, n);
    CandidateNext(start, n);
    assert used - Tried(start, n) - {Candidate(start, n)} == used - Tried(start, n + 1);
  }

  /** While the search has met only used numbers it has not passed the one it will stop at. */
  lemma StillToTry(used: set<ClientID>, start: ClientID, n: nat, last: nat)
    requires n <= last && Candidate(start, last) !in used && Candidate(start, n) in used
    ensures n < last
  {
  }
}
