/** What the catalog shows and stores, field by field, and the order it keeps its records in. */
module CatalogViews {
  import opened Basics
  import opened Library
  import opened Records
  import opened SearchQueries
  import opened TrigramIndex
  import opened Catalogs

  // ---------------------------------------------------------------- entries

  /** The text of a tag is the field's own, and there is no tag for an empty one. */
  predicate ShowsText(tag: Option<Bytes>, text: Bytes) {
    (tag == None <==> text == []) && (tag.Some? ==> tag.value == text)
  }

  /** The number of a tag is the field's own, and there is no tag for one that is not positive. */
  predicate ShowsNumber(tag: Option<int>, number: int) {
    (tag == None <==> number <= 0) && (tag.Some? ==> tag.value == number)
  }

  /** The high half of a size, where it is sent. */
  function HighHalf(entry: SharedFileEntry): int {
    match entry.sizeHigh
    case Some(n) => n
    case None => 0
  }

  /**
   An entry shows every field of its record under its own tag, the size in two halves of which the high one is
   only sent when needed, as long as the numbers fit the tags.
   */
  lemma EntryShowsRecord(lib: Library, r: FileRecord)
    requires 0 <= r.size < 0x1_0000_0000_0000_0000
    requires 0 <= r.sources < 0x1_0000_0000 && 0 <= r.completeSources < 0x1_0000_0000
    requires r.mediaLength < 0x1_0000_0000 && r.mediaBitrate < 0x1_0000_0000
    ensures var entry := MakeSharedFileEntry(lib, r);
            && entry.hash == r.hash && entry.name == r.name
            && HighHalf(entry) * 0x1_0000_0000 + entry.sizeLow == r.size && 0 <= entry.sizeLow < 0x1_0000_0000
            && (entry.sizeHigh == None <==> r.size < 0x1_0000_0000)
            && entry.sources == r.sources && entry.completeSources == r.completeSources
            && ShowsText(entry.fileType, r.fileType) && ShowsText(entry.extension, r.extension)
            && ShowsText(entry.mediaCodec, r.mediaCodec)
            && ShowsNumber(entry.mediaLength, r.mediaLength) && ShowsNumber(entry.mediaBitrate, r.mediaBitrate)
  {
  }

  /** The address of an entry is that of its record's first endpoint, and zero if there is none or it does not resolve. */
  lemma EntryShowsEndpoint(lib: Library, r: FileRecord)
    ensures var entry := MakeSharedFileEntry(lib, r);
            && (forall a: Endpoint :: r.endpoints != [] && lib.resolve(r.endpoints[0].host, r.endpoints[0].port) == Some(a) ==>
                  entry.clientID == a.ip && entry.port == a.port % 65536)
            && ((r.endpoints == [] || lib.resolve(r.endpoints[0].host, r.endpoints[0].port) == None) ==>
                  entry.clientID == 0 && entry.port == 0)
  {
  }

  // ---------------------------------------------------------------- normalisation

  /** A count that is not positive is replaced by the one it defaults to. */
  predicate Defaulted(count: int, given: int, fallback: int) {
    count == if given >= 1 then given else fallback
  }

  /** Texts are trimmed, missing counts filled in, and everything else is kept. */
  lemma NormalisesFields(lib: Library, r: FileRecord)
    requires LawfulTrim(lib) && NormalizeFileRecord(lib, r).Good?
    ensures var n := NormalizeFileRecord(lib, r).value;
            && n.hash == r.hash && n.size == r.size && n.endpoints == r.endpoints
            && n.mediaLength == r.mediaLength && n.mediaBitrate == r.mediaBitrate
            && n.name == lib.trim(r.name) && n.fileType == lib.trim(r.fileType)
            && n.extension == lib.trim(r.extension) && n.mediaCodec == lib.trim(r.mediaCodec)
            && Defaulted(n.sources, r.sources, |r.endpoints|)
            && Defaulted(n.completeSources, r.completeSources, n.sources)
  {
    assert |lib.trim([])| <= 0;
  }

  /** The first thing that is wrong decides the error: hash, name, size, endpoints in order. */
  lemma RefusesInOrder(lib: Library, r: FileRecord)
    requires NormalizeFileRecord(lib, r).Bad?
    ensures var error := NormalizeFileRecord(lib, r).error;
            && (error == HashRequired <==> r.hash == 0)
            && (error == NameRequired <==> r.hash != 0 && lib.trim(r.name) == [])
            && (error == SizeNotPositive <==> r.hash != 0 && lib.trim(r.name) != [] && r.size <= 0)
            && (error.BadEndpoint? ==>
                  && error.index < |r.endpoints| && !Resolves(lib, r.endpoints[error.index])
                  && forall j :: 0 <= j < error.index ==> Resolves(lib, r.endpoints[j]))
  {
  }

  // ---------------------------------------------------------------- the order of the records

  /** An upsert replaces the record with the hash where it stands, or appends; all other records stay in place. */
  lemma UpsertPlaces(c: Contents, r: FileRecord)
    requires Consistent(c)
    ensures var files := Upserted(c, r).files;
            if exists i :: 0 <= i < |c.files| && c.files[i].hash == r.hash
            then |files| == |c.files|
                 && forall i :: 0 <= i < |files| ==> files[i] == if c.files[i].hash == r.hash then r else c.files[i]
            else files == c.files + [r]
    ensures Upserted(c, r).byHash == c.byHash[r.hash := r]
  {
    DistinctHashesDiffer(c.files);
    if i :| 0 <= i < |c.files| && c.files[i].hash == r.hash {
      assert c.files[i] in c.files;
    } else {
      NotListedIsUnknown(c, r.hash);
    }
  }

  lemma NotListedIsUnknown(c: Contents, h: Hash)
    requires Consistent(c) && forall i :: 0 <= i < |c.files| ==> c.files[i].hash != h
    ensures h !in c.byHash
  {
  }

  /** The records that do not have the hash, in order. */
  function Others(files: seq<FileRecord>, h: Hash): seq<FileRecord> {
    if files == [] then []
    else (if files[0].hash == h then [] else [files[0]]) + Others(files[1..], h)
  }

  lemma {:induction false} OthersAll(files: seq<FileRecord>, h: Hash)
    requires forall i :: 0 <= i < |files| ==> files[i].hash != h
    ensures Others(files, h) == files
  {
    if files != [] {
      OthersAll(files[1..], h);
    }
  }

  lemma {:induction false} OthersSkip(files: seq<FileRecord>, h: Hash, i: nat)
    requires i < |files| && files[i].hash == h && forall j :: 0 <= j < |files| && j != i ==> files[j].hash != h
    ensures Others(files, h) == files[..i] + files[i + 1..]
  {
    if i == 0 {
      OthersAll(files[1..], h);
      assert files[..0] == [];
    } else {
      var rest := files[1..];
      assert Others(files, h) == [files[0]] + Others(rest, h);
      assert Others(rest, h) == rest[..i - 1] + rest[i..] by { OthersSkip(rest, h, i - 1); }
      CutFirst(files, i);
    }
  }

  lemma CutFirst<T>(s: seq<T>, i: nat)
    requires 0 < i < |s|
    ensures [s[0]] + (s[1..][..i - 1] + s[1..][i..]) == s[..i] + s[i + 1..]
  {
  }

  lemma KnownIsListed(c: Contents, h: Hash)
    requires Consistent(c) && h in c.byHash
    ensures FirstWithHash(c.files, h) < |c.files|
  {
    assert c.byHash[h] in c.files;
  }

  lemma ListSkips(files: seq<FileRecord>, h: Hash)
    requires Distinct(Hashes(files)) && FirstWithHash(files, h) < |files|
    ensures var i := FirstWithHash(files, h); Others(files, h) == files[..i] + files[i + 1..]
  {
    DistinctHashesDiffer(files);
    OthersSkip(files, h, FirstWithHash(files, h));
  }

  lemma UnknownIsNotListed(c: Contents, h: Hash)
    requires Consistent(c) && h !in c.byHash
    ensures forall i :: 0 <= i < |c.files| ==> c.files[i].hash != h
  {
    forall i | 0 <= i < |c.files|
      ensures c.files[i].hash != h
    {
      assert c.files[i] in c.files;
    }
  }

  /** A delete leaves the records without the hash, in order, and the map without it. */
  lemma DeletePlaces(c: Contents, h: Hash)
    requires Consistent(c)
    ensures Deleted(c, h).files == Others(c.files, h) && Deleted(c, h).byHash == c.byHash - {h}
  {
    if h in c.byHash {
      KnownIsListed(c, h);
      ListSkips(c.files, h);
    } else {
      UnknownIsNotListed(c, h);
      OthersAll(c.files, h);
    }
  }

  /** The record at i is the last one with its hash. */
  predicate LastOfHash(files: seq<FileRecord>, i: nat)
    requires i < |files|
  {
    forall j :: i < j < |files| ==> files[j].hash != files[i].hash
  }

  lemma ByHashOneMore(files: seq<FileRecord>, r: FileRecord, h: Hash)
    ensures h in ByHash(files + [r]) <==> r.hash == h || h in ByHash(files)
    ensures h in ByHash(files + [r]) ==> ByHash(files + [r])[h] == if r.hash == h then r else ByHash(files)[h]
  {
    ByHashAppend(files, r);
  }

  /** The map of a list knows a hash exactly when a record has it. */
  lemma {:induction false} MapKnows(files: seq<FileRecord>, h: Hash)
    ensures h in ByHash(files) <==> exists i :: 0 <= i < |files| && files[i].hash == h
  {
    if files != [] {
      var before, last := files[..|files| - 1], files[|files| - 1];
      assert files == before + [last];
      MapKnows(before, h);
      ByHashOneMore(before, last, h);
    }
  }

  /** It keeps the last record of every hash. */
  lemma {:induction false} MapKeepsLast(files: seq<FileRecord>, i: nat)
    requires i < |files| && LastOfHash(files, i)
    ensures files[i].hash in ByHash(files) && ByHash(files)[files[i].hash] == files[i]
  {
    var before, last := files[..|files| - 1], files[|files| - 1];
    assert files == before + [last];
    ByHashOneMore(before, last, files[i].hash);
    if i < |before| {
      assert last.hash != files[i].hash;
      MapKeepsLast(before, i);
    }
  }

  /** A replacement brings exactly the given records in the order given; the map keeps the last record of every hash. */
  lemma ReplacePlaces(files: seq<FileRecord>)
    ensures Replaced(files).files == files
    ensures forall h :: h in Replaced(files).byHash <==> exists i :: 0 <= i < |files| && files[i].hash == h
    ensures forall i :: 0 <= i < |files| && LastOfHash(files, i) ==> Replaced(files).byHash[files[i].hash] == files[i]
  {
    forall h
      ensures h in Replaced(files).byHash <==> exists i :: 0 <= i < |files| && files[i].hash == h
    {
      MapKnows(files, h);
    }
    forall i | 0 <= i < |files| && LastOfHash(files, i)
      ensures Replaced(files).byHash[files[i].hash] == files[i]
    {
      MapKeepsLast(files, i);
    }
  }

  // ---------------------------------------------------------------- the key

  /** The key is the first of the longest keywords that have at least three bytes, trimmed and in lower case. */
  lemma {:induction false} FirstLongestKey(lib: Library, keywords: seq<Bytes>) returns (i: nat)
    ensures if LongestKey(lib, keywords) == []
            then forall j :: 0 <= j < |keywords| ==> |lib.lower(lib.trim(keywords[j]))| < 3
            else
              && i < |keywords| && LongestKey(lib, keywords) == lib.lower(lib.trim(keywords[i]))
              && |lib.lower(lib.trim(keywords[i]))| >= 3
              && (forall j :: 0 <= j < i ==> |lib.lower(lib.trim(keywords[j]))| < |lib.lower(lib.trim(keywords[i]))|)
              && (forall j :: i < j < |keywords| ==> |lib.lower(lib.trim(keywords[j]))| <= |lib.lower(lib.trim(keywords[i]))|)
  {
    if keywords == [] {
      i := 0;
    } else {
      var n := |keywords| - 1;
      i := FirstLongestKey(lib, keywords[..n]);
      var key, k := LongestKey(lib, keywords[..n]), Normalized(lib, keywords[n]);
      assert forall j :: 0 <= j < n ==> keywords[..n][j] == keywords[j];
      if |k| >= 3 && |k| > |key| {
        i := n;
      }
    }
  }
}
