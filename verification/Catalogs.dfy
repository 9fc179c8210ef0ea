/** The file catalog with its trigram index. */
module Catalogs {
  import opened Basics
  import opened Library
  import opened Records
  import opened SearchQueries
  import opened TrigramIndex

  const TWO_32: int := 0x1_0000_0000

  /** A search result as it is sent: the tags of a record, with Go's 32-bit conversions, and one address to fetch it from. */
  datatype SharedFileEntry = SharedFileEntry(
    hash: Hash,
    name: Bytes,
    sizeLow: int,
    sizeHigh: Option<int>,
    sources: int,
    completeSources: int,
    fileType: Option<Bytes>,
    extension: Option<Bytes>,
    mediaCodec: Option<Bytes>,
    mediaLength: Option<int>,
    mediaBitrate: Option<int>,
    clientID: int,
    port: int)

  function NonEmpty(s: Bytes): Option<Bytes> {
    if s != [] then Some(s) else None
  }

  function MakeSharedFileEntry(lib: Library, r: FileRecord): SharedFileEntry {
    var endpoint := FirstEndpoint(lib, r);
    SharedFileEntry(
      r.hash,
      r.name,
      r.size % TWO_32,
      if r.size > 0xFFFF_FFFF then Some((r.size / TWO_32) % TWO_32) else None,
      r.sources % TWO_32,
      r.completeSources % TWO_32,
      NonEmpty(r.fileType),
      NonEmpty(r.extension),
      NonEmpty(r.mediaCodec),
      if r.mediaLength > 0 then Some(r.mediaLength % TWO_32) else None,
      if r.mediaBitrate > 0 then Some(r.mediaBitrate % TWO_32) else None,
      endpoint.ip,
      endpoint.port % 0x1_0000)
  }

  /** The address of the first endpoint, zero if there is none or it does not resolve. */
  function FirstEndpoint(lib: Library, r: FileRecord): Endpoint {
    if r.endpoints == [] then Endpoint(0, 0)
    else
      match lib.resolve(r.endpoints[0].host, r.endpoints[0].port)
      case Some(endpoint) => endpoint
      case None => Endpoint(0, 0)
  }

  // ---------------------------------------------------------------- search results

  /** The record matches and, when the index was used with a key, its name has all of the key's trigrams. */
  predicate Selected(lib: Library, q: SearchQuery, key: Option<Bytes>, r: FileRecord) {
    QueryMatches(lib, q, r) && (key.Some? ==> HasAllTrigrams(lib, r, key.value))
  }

  /** The entries of the selected records in catalog order. With no key this is the full scan. */
  function Results(lib: Library, files: seq<FileRecord>, q: SearchQuery, key: Option<Bytes>): seq<SharedFileEntry> {
    if files == [] then []
    else
      var n := |files| - 1;
      Results(lib, files[..n], q, key) + (if Selected(lib, q, key, files[n]) then [MakeSharedFileEntry(lib, files[n])] else [])
  }

  /** The first longest of the normalised keywords of at least three bytes; empty when there is none. */
  function LongestKey(lib: Library, keywords: seq<Bytes>): (key: Bytes)
    ensures key != [] ==> |key| >= 3 && exists i :: 0 <= i < |keywords| && key == Normalized(lib, keywords[i])
    ensures forall i :: 0 <= i < |keywords| && |Normalized(lib, keywords[i])| >= 3 ==> |Normalized(lib, keywords[i])| <= |key|
  {
    if keywords == [] then []
    else
      var n := |keywords| - 1;
      var key := LongestKey(lib, keywords[..n]);
      var k := Normalized(lib, keywords[n]);
      assert keywords[n] in keywords;
      if |k| >= 3 && |k| > |key| then k else key
  }

  /** The key the index is asked for, if it is asked at all. */
  function ChosenKey(lib: Library, q: SearchQuery, indexEmpty: bool): Option<Bytes> {
    if !q.summarized || indexEmpty || LongestKey(lib, q.summary.keywords) == [] then None
    else Some(LongestKey(lib, q.summary.keywords))
  }

  /** Some file name is long enough to have a trigram. */
  ghost predicate HasIndexedName(lib: Library, files: seq<FileRecord>) {
    exists i :: 0 <= i < |files| && NameTrigrams(lib, files[i]) != {}
  }

  /** What a search over these files returns. */
  ghost function SearchResults(lib: Library, files: seq<FileRecord>, q: SearchQuery): seq<SharedFileEntry> {
    Results(lib, files, q, ChosenKey(lib, q, !HasIndexedName(lib, files)))
  }

  ghost function FullScan(lib: Library, files: seq<FileRecord>, q: SearchQuery): seq<SharedFileEntry> {
    Results(lib, files, q, None)
  }

  /** As parsing produces them: a summarised query carries the summary of its own tree. */
  predicate Built(q: SearchQuery) {
    q.summarized ==> q.root.Some? && q == QueryOf(q.root.value)
  }

  lemma EmptyIndexMeansShortNames(lib: Library, files: seq<FileRecord>, index: Index)
    requires IndexExact(lib, files, index)
    ensures index == map[] <==> !HasIndexedName(lib, files)
  {
    if i :| 0 <= i < |files| && NameTrigrams(lib, files[i]) != {} {
      var g :| g in NameTrigrams(lib, files[i]);
      assert i in Holders(lib, files, g);
      assert Postings(index, g) == Holders(lib, files, g);
    }
    if index != map[] {
      var g :| g in index;
      assert Postings(index, g) == Holders(lib, files, g);
      var i := index[g][0];
      assert i in Holders(lib, files, g);
      assert g in NameTrigrams(lib, files[i]);
    }
  }

  /** A record that matches has the key's trigrams, unless the key also works as a hash. */
  lemma MatchHasKeyTrigrams(lib: Library, q: SearchQuery, r: FileRecord)
    requires Built(q) && q.summarized && QueryMatches(lib, q, r)
    requires !IsHashToken(LongestKey(lib, q.summary.keywords))
    ensures HasAllTrigrams(lib, r, LongestKey(lib, q.summary.keywords))
  {
    var key := LongestKey(lib, q.summary.keywords);
    KeywordsRequired(lib, q.root.value, r);
    if key != [] {
      var i :| 0 <= i < |q.summary.keywords| && key == Normalized(lib, q.summary.keywords[i]);
      assert KeywordMatchesRecord(lib, r, q.summary.keywords[i]);
      ContainsImpliesTrigrams(lib.lower(r.name), key);
    }
  }

  lemma {:induction false} KeyRestrictsNothing(lib: Library, files: seq<FileRecord>, q: SearchQuery)
    requires Built(q) && q.summarized && !IsHashToken(LongestKey(lib, q.summary.keywords))
    ensures Results(lib, files, q, Some(LongestKey(lib, q.summary.keywords))) == FullScan(lib, files, q)
  {
    if files != [] {
      var n := |files| - 1;
      KeyRestrictsNothing(lib, files[..n], q);
      if QueryMatches(lib, q, files[n]) {
        MatchHasKeyTrigrams(lib, q, files[n]);
      }
    }
  }

  /** The index is unobservable: the same entries in the same order as a full scan, unless the key also works as a hash. */
  lemma SearchIsFullScan(lib: Library, files: seq<FileRecord>, q: SearchQuery)
    requires Built(q)
    requires q.summarized ==> !IsHashToken(LongestKey(lib, q.summary.keywords))
    ensures SearchResults(lib, files, q) == FullScan(lib, files, q)
  {
    if q.summarized {
      KeyRestrictsNothing(lib, files, q);
    }
  }

  /** Every matching record of the catalog has the key's trigrams, if a key is used. */
  predicate NothingMissed(lib: Library, files: seq<FileRecord>, q: SearchQuery, key: Option<Bytes>) {
    key.Some? ==> forall i :: 0 <= i < |files| && QueryMatches(lib, q, files[i]) ==> HasAllTrigrams(lib, files[i], key.value)
  }

  lemma {:induction false} KeyedResults(lib: Library, files: seq<FileRecord>, q: SearchQuery, key: Option<Bytes>)
    ensures |Results(lib, files, q, key)| <= |FullScan(lib, files, q)|
    ensures NothingMissed(lib, files, q, key) ==> Results(lib, files, q, key) == FullScan(lib, files, q)
    ensures !NothingMissed(lib, files, q, key) ==> |Results(lib, files, q, key)| < |FullScan(lib, files, q)|
  {
    if files != [] {
      var n := |files| - 1;
      KeyedResults(lib, files[..n], q, key);
      assert forall i :: 0 <= i < n ==> files[..n][i] == files[i];
    }
  }

  // ---------------------------------------------------------------- the contents

  /** The two views a catalog keeps of its records. */
  datatype Contents = Contents(files: seq<FileRecord>, byHash: map<Hash, FileRecord>)

  function Hashes(files: seq<FileRecord>): seq<Hash> {
    seq(|files|, i requires 0 <= i < |files| => files[i].hash)
  }

  /** No hash occurs twice, and the map is exactly the list seen by hash. */
  ghost predicate Consistent(c: Contents) {
    && Distinct(Hashes(c.files))
    && (forall r :: r in c.files <==> r.hash in c.byHash && c.byHash[r.hash] == r)
    && (forall h :: h in c.byHash ==> c.byHash[h].hash == h)
  }

  /** The position of the first record with the hash, or the length. */
  function FirstWithHash(files: seq<FileRecord>, h: Hash): (i: nat)
    ensures i <= |files|
    ensures forall j :: 0 <= j < i ==> files[j].hash != h
    ensures i < |files| ==> files[i].hash == h
  {
    if files == [] then 0
    else if files[0].hash == h then 0
    else 1 + FirstWithHash(files[1..], h)
  }

  function Upserted(c: Contents, r: FileRecord): Contents {
    var i := FirstWithHash(c.files, r.hash);
    var files := if r.hash !in c.byHash then c.files + [r]
                 else if i < |c.files| then c.files[i := r] else c.files;
    Contents(files, c.byHash[r.hash := r])
  }

  function Deleted(c: Contents, h: Hash): Contents {
    if h !in c.byHash then c
    else
      var i := FirstWithHash(c.files, h);
      Contents(if i < |c.files| then c.files[..i] + c.files[i + 1..] else c.files, c.byHash - {h})
  }

  function ByHash(files: seq<FileRecord>): map<Hash, FileRecord> {
    if files == [] then map[]
    else ByHash(files[..|files| - 1])[files[|files| - 1].hash := files[|files| - 1]]
  }

  function Replaced(files: seq<FileRecord>): Contents {
    Contents(files, ByHash(files))
  }

  lemma UpsertKeepsConsistent(c: Contents, r: FileRecord)
    requires Consistent(c)
    ensures Consistent(Upserted(c, r))
    ensures forall f :: f in Upserted(c, r).files <==> f == r || (f in c.files && f.hash != r.hash)
  {
    var i := FirstWithHash(c.files, r.hash);
    DistinctHashesDiffer(c.files);
    if r.hash in c.byHash {
      assert c.byHash[r.hash] in c.files;
      ReplacedAt(c.files, i, r);
    } else {
      assert forall f :: f in c.files ==> f.hash != r.hash;
      AppendedNew(c.files, r);
    }
  }

  lemma ReplacedAt(files: seq<FileRecord>, i: nat, r: FileRecord)
    requires i < |files| && files[i].hash == r.hash && Distinct(Hashes(files))
    ensures Distinct(Hashes(files[i := r]))
    ensures forall f :: f in files[i := r] <==> f == r || (f in files && f.hash != r.hash)
  {
    var replaced := files[i := r];
    assert Hashes(replaced) == Hashes(files);
    DistinctHashesDiffer(files);
    assert replaced[i] == r;
    assert forall k :: 0 <= k < |files| && k != i ==> replaced[k] == files[k];
  }

  lemma AppendedNew(files: seq<FileRecord>, r: FileRecord)
    requires Distinct(Hashes(files)) && forall f :: f in files ==> f.hash != r.hash
    ensures Distinct(Hashes(files + [r]))
    ensures forall f :: f in files + [r] <==> f == r || f in files
  {
    assert Hashes(files + [r]) == Hashes(files) + [r.hash];
    assert forall k :: 0 <= k < |files| ==> files[k] in files;
  }

  lemma DistinctHashesDiffer(files: seq<FileRecord>)
    requires Distinct(Hashes(files))
    ensures forall i, j :: 0 <= i < |files| && 0 <= j < |files| && i != j ==> files[i].hash != files[j].hash
  {
    forall i, j | 0 <= i < j < |files|
      ensures files[i].hash != files[j].hash
    {
      assert Hashes(files)[i] != Hashes(files)[j];
    }
  }

  lemma DeleteKeepsConsistent(c: Contents, h: Hash)
    requires Consistent(c)
    ensures Consistent(Deleted(c, h))
    ensures forall f :: f in Deleted(c, h).files <==> f in c.files && f.hash != h
  {
    if h in c.byHash {
      var r := c.byHash[h];
      assert r in c.files && r.hash == h;
      RemovedFirst(c.files, r);
    }
  }

  lemma RemovedFirst(files: seq<FileRecord>, r: FileRecord)
    requires Distinct(Hashes(files)) && r in files
    ensures var i := FirstWithHash(files, r.hash);
            && i < |files|
            && Distinct(Hashes(files[..i] + files[i + 1..]))
            && forall f :: f in files[..i] + files[i + 1..] <==> f in files && f.hash != r.hash
  {
    var i := FirstWithHash(files, r.hash);
    DistinctHashesDiffer(files);
    assert i < |files|;
    RemovedAt(files, i);
    RemovedDistinct(files, i);
  }

  lemma RemovedDistinct(files: seq<FileRecord>, i: nat)
    requires i < |files| && Distinct(Hashes(files))
    ensures Distinct(Hashes(files[..i] + files[i + 1..]))
  {
    var hashes := Hashes(files);
    assert Hashes(files[..i] + files[i + 1..]) == hashes[..i] + hashes[i + 1..];
  }

  lemma RemovedAt(files: seq<FileRecord>, i: nat)
    requires i < |files| && forall k :: 0 <= k < |files| && k != i ==> files[k].hash != files[i].hash
    ensures forall f :: f in files[..i] + files[i + 1..] <==> f in files && f.hash != files[i].hash
  {
    var left := files[..i] + files[i + 1..];
    assert forall k :: 0 <= k < i ==> left[k] == files[k];
    assert forall k :: i < k < |files| ==> left[k - 1] == files[k];
  }

  lemma {:induction false} ByHashHoldsLast(files: seq<FileRecord>)
    ensures forall h :: h in ByHash(files) ==> ByHash(files)[h].hash == h && ByHash(files)[h] in files
    ensures forall r :: r in files ==> r.hash in ByHash(files)
    ensures Distinct(Hashes(files)) ==> forall r :: r in files ==> ByHash(files)[r.hash] == r
  {
    if files != [] {
      var n := |files| - 1;
      ByHashHoldsLast(files[..n]);
      assert files == files[..n] + [files[n]];
      if Distinct(Hashes(files)) {
        DistinctHashesDiffer(files);
        assert Hashes(files[..n]) == Hashes(files)[..n];
      }
    }
  }

  /** Replacing the contents leaves the two views consistent if and only if no hash was given twice. */
  lemma ReplaceConsistentIff(files: seq<FileRecord>)
    ensures Consistent(Replaced(files)) <==> Distinct(Hashes(files))
  {
    ByHashHoldsLast(files);
  }

  datatype Op = Upsert(record: FileRecord) | Delete(hash: Hash) | ReplaceAll(files: seq<FileRecord>)

  /** What an operation makes of the contents; a record that is refused changes nothing. */
  function Applied(lib: Library, c: Contents, op: Op): Contents {
    match op
    case Upsert(r) =>
      (match NormalizeFileRecord(lib, r)
       case Good(n) => Upserted(c, n)
       case Bad(_, _) => c)
    case Delete(h) => Deleted(c, h)
    case ReplaceAll(files) =>
      (match NormalizeAll(lib, files)
       case Good(normalized) => Replaced(normalized)
       case Bad(_, _) => c)
  }

  const EMPTY := Contents([], map[])

  function AppliedAll(lib: Library, c: Contents, ops: seq<Op>): Contents {
    if ops == [] then c else Applied(lib, AppliedAll(lib, c, ops[..|ops| - 1]), ops[|ops| - 1])
  }

  /**
   With a hash given twice the catalog loses track: after replacing the contents by a record given twice and
   deleting it, the record remains in the list and is not in the map.
   */
  lemma DuplicateSurvivesDelete(lib: Library, r: FileRecord)
    requires Stored(lib, r)
    ensures AppliedAll(lib, EMPTY, [Op.ReplaceAll([r, r]), Op.Delete(r.hash)]) == Contents([r], map[])
  {
    var ops := [Op.ReplaceAll([r, r]), Op.Delete(r.hash)];
    assert ops[..1] == [ops[0]] && [ops[0]][..0] == [];
    assert AppliedAll(lib, EMPTY, [ops[0]]) == Applied(lib, EMPTY, ops[0]);
    StoredTwice(lib, r);
    assert AppliedAll(lib, EMPTY, ops) == Deleted(Replaced([r, r]), r.hash);
    DeletedOnce(r);
  }

  lemma StoredTwice(lib: Library, r: FileRecord)
    requires Stored(lib, r)
    ensures NormalizeAll(lib, [r, r]) == Good([r, r])
  {
    assert NormalizeFirst(lib, [r, r], 0) == Good([]);
    assert NormalizeFirst(lib, [r, r], 1) == Good([] + [r]);
    assert NormalizeFirst(lib, [r, r], 2) == Good([] + [r] + [r]);
    assert [] + [r] + [r] == [r, r];
  }

  lemma DeletedOnce(r: FileRecord)
    ensures Deleted(Replaced([r, r]), r.hash) == Contents([r], map[])
  {
    assert [r, r][..1] == [r] && [r][..0] == [];
    assert ByHash([r]) == map[r.hash := r];
    assert ByHash([r, r]) == map[r.hash := r];
    assert FirstWithHash([r, r], r.hash) == 0;
  }

  /** No replacement brings a hash twice. */
  predicate DistinctReplacements(ops: seq<Op>) {
    forall i :: 0 <= i < |ops| && ops[i].ReplaceAll? ==> Distinct(Hashes(ops[i].files))
  }

  /** The two views agree, and every record is as normalisation leaves it. */
  ghost predicate Sound(lib: Library, c: Contents) {
    Consistent(c) && forall r :: r in c.files ==> Stored(lib, r)
  }

  /** Every sequence of operations whose replacements bring distinct hashes keeps the views consistent and the records normalised. */
  lemma {:induction false} RunKeepsSound(lib: Library, c: Contents, ops: seq<Op>)
    requires LawfulTrim(lib) && Sound(lib, c) && DistinctReplacements(ops)
    ensures Sound(lib, AppliedAll(lib, c, ops))
  {
    if ops != [] {
      var before := AppliedAll(lib, c, ops[..|ops| - 1]);
      RunKeepsSound(lib, c, ops[..|ops| - 1]);
      OpKeepsSound(lib, before, ops[|ops| - 1]);
    }
  }

  lemma OpKeepsSound(lib: Library, c: Contents, op: Op)
    requires LawfulTrim(lib) && Sound(lib, c) && (op.ReplaceAll? ==> Distinct(Hashes(op.files)))
    ensures Sound(lib, Applied(lib, c, op))
  {
    match op
    case Upsert(r) =>
      if NormalizeFileRecord(lib, r).Good? {
        NormalizingTwice(lib, r);
        UpsertKeepsConsistent(c, NormalizeFileRecord(lib, r).value);
      }
    case Delete(h) => DeleteKeepsConsistent(c, h);
    case ReplaceAll(files) =>
      NormalizesEach(lib, files, |files|);
      if NormalizeAll(lib, files).Good? {
        var normalized := NormalizeAll(lib, files).value;
        assert Hashes(normalized) == Hashes(files);
        ReplaceConsistentIff(normalized);
      }
  }

  // ---------------------------------------------------------------- normalisation

  datatype RecordError = HashRequired | NameRequired | SizeNotPositive | BadEndpoint(index: nat)

  datatype Checked<+T> = Good(value: T) | Bad(index: nat, error: RecordError)

  predicate Resolves(lib: Library, e: SourceEntry) {
    lib.resolve(e.host, e.port).Some?
  }

  /** The first endpoint that does not resolve. */
  function FirstBadEndpoint(lib: Library, endpoints: seq<SourceEntry>): (i: nat)
    ensures i <= |endpoints|
    ensures forall j :: 0 <= j < i ==> Resolves(lib, endpoints[j])
    ensures i < |endpoints| ==> !Resolves(lib, endpoints[i])
  {
    if endpoints == [] || !Resolves(lib, endpoints[0]) then 0 else 1 + FirstBadEndpoint(lib, endpoints[1..])
  }

  function TrimUnlessEmpty(lib: Library, s: Bytes): Bytes {
    if s != [] then lib.trim(s) else s
  }

  function NormalizeFileRecord(lib: Library, r: FileRecord): (n: Checked<FileRecord>)
    ensures n.Good? <==> r.hash != 0 && lib.trim(r.name) != [] && r.size > 0 && forall e :: e in r.endpoints ==> Resolves(lib, e)
    ensures n.Good? ==> n.value.hash == r.hash && n.value.sources >= 0 && n.value.completeSources >= 0
  {
    if r.hash == 0 then Bad(0, HashRequired)
    else if lib.trim(r.name) == [] then Bad(0, NameRequired)
    else if r.size <= 0 then Bad(0, SizeNotPositive)
    else if FirstBadEndpoint(lib, r.endpoints) < |r.endpoints| then
      Bad(0, BadEndpoint(FirstBadEndpoint(lib, r.endpoints)))
    else
      var sources := if r.sources <= 0 then |r.endpoints| else r.sources;
      var completeSources := if r.completeSources <= 0 then sources else r.completeSources;
      Good(r.(name := lib.trim(r.name), sources := sources, completeSources := completeSources,
              fileType := TrimUnlessEmpty(lib, r.fileType), extension := TrimUnlessEmpty(lib, r.extension),
              mediaCodec := TrimUnlessEmpty(lib, r.mediaCodec)))
  }

  /** A normalised record is accepted again and comes out as it is. */
  lemma NormalizingTwice(lib: Library, r: FileRecord)
    requires LawfulTrim(lib) && NormalizeFileRecord(lib, r).Good?
    ensures NormalizeFileRecord(lib, NormalizeFileRecord(lib, r).value) == NormalizeFileRecord(lib, r)
  {
    var n := NormalizeFileRecord(lib, r).value;
    assert n.endpoints == r.endpoints;
    assert lib.trim(n.name) == n.name;
  }

  predicate Stored(lib: Library, r: FileRecord) {
    NormalizeFileRecord(lib, r) == Good(r)
  }

  /** Normalising records one by one keeps their hashes and makes each of them one that is stored as it is. */
  lemma {:induction false} NormalizesEach(lib: Library, files: seq<FileRecord>, n: nat)
    requires LawfulTrim(lib) && n <= |files|
    ensures NormalizeFirst(lib, files, n).Good? ==>
              forall i :: 0 <= i < n ==>
                NormalizeFirst(lib, files, n).value[i].hash == files[i].hash && Stored(lib, NormalizeFirst(lib, files, n).value[i])
  {
    if n > 0 {
      NormalizesEach(lib, files, n - 1);
      if NormalizeFirst(lib, files, n).Good? {
        NormalizingTwice(lib, files[n - 1]);
      }
    }
  }

  /** The first n records normalised, or the first failure among them with its position. */
  function NormalizeFirst(lib: Library, files: seq<FileRecord>, n: nat): (c: Checked<seq<FileRecord>>)
    requires n <= |files|
    ensures c.Good? ==> |c.value| == n
  {
    if n == 0 then Good([])
    else
      match NormalizeFirst(lib, files, n - 1)
      case Bad(i, e) => Bad(i, e)
      case Good(before) =>
        match NormalizeFileRecord(lib, files[n - 1])
        case Bad(_, e) => Bad(n - 1, e)
        case Good(r) => Good(before + [r])
  }

  function NormalizeAll(lib: Library, files: seq<FileRecord>): Checked<seq<FileRecord>> {
    NormalizeFirst(lib, files, |files|)
  }

  lemma {:induction false} FailureStays(lib: Library, files: seq<FileRecord>, n: nat, m: nat)
    requires n <= m <= |files| && NormalizeFirst(lib, files, n).Bad?
    ensures NormalizeFirst(lib, files, m) == NormalizeFirst(lib, files, n)
  {
    if n < m {
      FailureStays(lib, files, n, m - 1);
    }
  }

  /** The loop of ReplaceAll: records normalised one by one and entered into the map, up to the first failure. */
  method NormalizeRecords(lib: Library, given: seq<FileRecord>)
    returns (checked: Checked<seq<FileRecord>>, byHash: map<Hash, FileRecord>)
    ensures checked == NormalizeAll(lib, given)
    ensures checked.Good? ==> byHash == ByHash(checked.value)
  {
    var normalized: seq<FileRecord> := [];
    byHash := map[];
    for i := 0 to |given|
      invariant NormalizeFirst(lib, given, i) == Good(normalized)
      invariant byHash == ByHash(normalized)
    {
      var record := NormalizeFileRecord(lib, given[i]);
      if record.Bad? {
        FailureStays(lib, given, i + 1, |given|);
        checked := Bad(i, record.error);
        return;
      }
      ByHashAppend(normalized, record.value);
      normalized := normalized + [record.value];
      byHash := byHash[record.value.hash := record.value];
    }
    checked := Good(normalized);
  }

  lemma ByHashAppend(files: seq<FileRecord>, r: FileRecord)
    ensures ByHash(files + [r]) == ByHash(files)[r.hash := r]
  {
    assert (files + [r])[..|files|] == files;
  }

  // ---------------------------------------------------------------- the catalog object

  class Catalog {
    const lib: Library
    var files: seq<FileRecord>
    var byHash: map<Hash, FileRecord>
    var triIndex: Index

    ghost predicate Valid()
      reads this
    {
      IndexExact(lib, files, triIndex)
    }

    ghost function View(): Contents
      reads this
    {
      Contents(files, byHash)
    }

    constructor (lib: Library)
      ensures this.lib == lib
      ensures Valid() && View() == Contents([], map[])
    {
      this.lib := lib;
      files := [];
      byHash := map[];
      triIndex := map[];
    }

    method RebuildSearchIndex()
      modifies this`triIndex
      ensures Valid()
    {
      triIndex := BuildIndex(lib, files);
    }

    method Upsert(record: FileRecord) returns (error: Option<RecordError>)
      requires Valid()
      modifies this
      ensures Valid()
      ensures match NormalizeFileRecord(lib, record)
              case Good(r) => error == None && View() == Upserted(old(View()), r)
              case Bad(_, e) => error == Some(e) && View() == old(View())
    {
      var normalized := NormalizeFileRecord(lib, record);
      if normalized.Bad? {
        return Some(normalized.error);
      }
      var r := normalized.value;
      if r.hash in byHash {
        var idx := IndexOfHash(r.hash);
        if idx < |files| {
          files := files[idx := r];
        }
      } else {
        files := files + [r];
      }
      byHash := byHash[r.hash := r];
      RebuildSearchIndex();
      return None;
    }

    /** The scan for the first record with the hash. */
    method IndexOfHash(h: Hash) returns (idx: nat)
      ensures idx == FirstWithHash(files, h)
    {
      idx := 0;
      while idx < |files| && files[idx].hash != h
        invariant idx <= |files|
        invariant FirstWithHash(files, h) == idx + FirstWithHash(files[idx..], h)
      {
        assert files[idx..][1..] == files[idx + 1..];
        idx := idx + 1;
      }
    }

    method Delete(h: Hash) returns (found: bool)
      requires Valid()
      modifies this
      ensures Valid()
      ensures found == (h in old(byHash))
      ensures View() == Deleted(old(View()), h)
    {
      if h !in byHash {
        return false;
      }
      byHash := byHash - {h};
      var idx := IndexOfHash(h);
      if idx < |files| {
        files := files[..idx] + files[idx + 1..];
      }
      RebuildSearchIndex();
      return true;
    }

    /** On failure the position of the offending record and what is wrong with it. */
    method ReplaceAll(given: seq<FileRecord>) returns (failure: Option<(nat, RecordError)>)
      modifies this
      ensures match NormalizeAll(lib, given)
              case Good(normalized) => failure == None && Valid() && View() == Replaced(normalized)
              case Bad(i, e) => failure == Some((i, e)) && View() == old(View()) && triIndex == old(triIndex)
    {
      var checked, hashed := NormalizeRecords(lib, given);
      if checked.Bad? {
        return Some((checked.index, checked.error));
      }
      files := checked.value;
      byHash := hashed;
      RebuildSearchIndex();
      return None;
    }

    /** The candidate positions for a query, or None for a scan of all files. */
    method SearchCandidates(q: SearchQuery) returns (candidates: Option<seq<nat>>)
      requires Valid()
      ensures candidates == match ChosenKey(lib, q, triIndex == map[])
                            case None => None
                            case Some(key) => Some(Candidates(lib, files, key))
    {
      if !q.summarized || |triIndex| == 0 {
        return None;
      }
      var key := [];
      for i := 0 to |q.summary.keywords|
        invariant key == LongestKey(lib, q.summary.keywords[..i])
      {
        assert q.summary.keywords[..i + 1][..i] == q.summary.keywords[..i];
        var k := Normalized(lib, q.summary.keywords[i]);
        if |k| >= 3 && |k| > |key| {
          key := k;
        }
      }
      assert q.summary.keywords[..|q.summary.keywords|] == q.summary.keywords;
      if key == [] {
        return None;
      }
      var selected := SelectCandidates(lib, files, triIndex, key);
      return Some(selected);
    }

    method Search(q: SearchQuery) returns (results: seq<SharedFileEntry>)
      requires Valid()
      ensures results == SearchResults(lib, files, q)
      ensures Built(q) && (q.summarized ==> !IsHashToken(LongestKey(lib, q.summary.keywords))) ==> results == FullScan(lib, files, q)
    {
      EmptyIndexMeansShortNames(lib, files, triIndex);
      var candidates := SearchCandidates(q);
      if candidates.None? {
        results := ScanAll(q);
      } else {
        ghost var key := ChosenKey(lib, q, triIndex == map[]).value;
        CandidatesWithin(lib, files, key);
        results := ScanCandidates(q, candidates.value);
        CandidateResults(lib, files, q, key);
      }
      if Built(q) && (q.summarized ==> !IsHashToken(LongestKey(lib, q.summary.keywords))) {
        SearchIsFullScan(lib, files, q);
      }
    }

    method ScanAll(q: SearchQuery) returns (results: seq<SharedFileEntry>)
      ensures results == FullScan(lib, files, q)
    {
      results := [];
      for i := 0 to |files|
        invariant results == FullScan(lib, files[..i], q)
      {
        assert files[..i + 1][..i] == files[..i];
        if QueryMatches(lib, q, files[i]) {
          results := results + [MakeSharedFileEntry(lib, files[i])];
        }
      }
      assert files[..|files|] == files;
    }

    method ScanCandidates(q: SearchQuery, candidates: seq<nat>) returns (results: seq<SharedFileEntry>)
      requires Within(candidates, |files|)
      ensures results == ResultsAt(lib, files, q, candidates)
    {
      results := [];
      for i := 0 to |candidates|
        invariant results == ResultsAt(lib, files, q, candidates[..i])
      {
        assert candidates[..i + 1][..i] == candidates[..i];
        if QueryMatches(lib, q, files[candidates[i]]) {
          results := results + [MakeSharedFileEntry(lib, files[candidates[i]])];
        }
      }
      assert candidates[..|candidates|] == candidates;
    }
  }

  /** A catalog of the given records, or the failure and no catalog. */
  method NewCatalog(lib: Library, given: seq<FileRecord>) returns (catalog: Option<Catalog>, failure: Option<(nat, RecordError)>)
    ensures match NormalizeAll(lib, given)
            case Good(normalized) =>
              && failure == None && catalog.Some? && fresh(catalog.value) && catalog.value.lib == lib
              && catalog.value.Valid() && catalog.value.View() == Replaced(normalized)
            case Bad(i, e) => failure == Some((i, e)) && catalog == None
  {
    var empty := new Catalog(lib);
    failure := empty.ReplaceAll(given);
    catalog := if failure.Some? then None else Some(empty);
  }

  predicate Within(at: seq<nat>, n: nat) {
    forall i :: 0 <= i < |at| ==> at[i] < n
  }

  /** The matching records at the given positions, in the order of the positions. */
  function ResultsAt(lib: Library, files: seq<FileRecord>, q: SearchQuery, at: seq<nat>): seq<SharedFileEntry>
    requires Within(at, |files|)
  {
    if at == [] then []
    else
      var n := |at| - 1;
      ResultsAt(lib, files, q, at[..n]) +
      (if QueryMatches(lib, q, files[at[n]]) then [MakeSharedFileEntry(lib, files[at[n]])] else [])
  }

  lemma {:induction false} ResultsAtPrefix(lib: Library, files: seq<FileRecord>, n: nat, q: SearchQuery, at: seq<nat>)
    requires n <= |files| && Within(at, n)
    ensures ResultsAt(lib, files, q, at) == ResultsAt(lib, files[..n], q, at)
  {
    if at != [] {
      ResultsAtPrefix(lib, files, n, q, at[..|at| - 1]);
    }
  }

  lemma CandidatesWithin(lib: Library, files: seq<FileRecord>, key: Bytes)
    ensures Within(Candidates(lib, files, key), |files|)
  {
    var r := Candidates(lib, files, key);
    assert forall i :: 0 <= i < |r| ==> r[i] in r;
  }

  lemma {:induction false} CandidateResults(lib: Library, files: seq<FileRecord>, q: SearchQuery, key: Bytes)
    requires Within(Candidates(lib, files, key), |files|)
    ensures ResultsAt(lib, files, q, Candidates(lib, files, key)) == Results(lib, files, q, Some(key))
  {
    if files != [] {
      var n := |files| - 1;
      var before := Candidates(lib, files[..n], key);
      CandidatesWithin(lib, files[..n], key);
      CandidateResults(lib, files[..n], q, key);
      ResultsAtPrefix(lib, files, n, q, before);
      if HasAllTrigrams(lib, files[n], key) {
        assert Candidates(lib, files, key) == before + [n];
        assert (before + [n])[..|before|] == before;
      } else {
        assert Candidates(lib, files, key) == before;
      }
    }
  }
}
