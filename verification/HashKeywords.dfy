/** Keywords that also work as a file's hash: when the index makes a search differ from a full scan. */
module HashKeywords {
  import opened Basics
  import opened Library
  import opened Records
  import opened SearchQueries
  import opened TrigramIndex
  import opened SearchSyntax
  import opened Catalogs

  /** The hash that a key names. */
  function TokenHash(key: Bytes): Hash
    requires IsHashToken(key)
  {
    var token := TrimPrefix(key, ED2K_PREFIX);
    HexValueBound(token);
    Pow16Of32();
    HexValue(token)
  }

  /** A key that works as a hash matches a record by its hash exactly when it names that hash. */
  lemma MatchesByHashIff(lib: Library, r: FileRecord, key: Bytes)
    requires LawfulAscii(lib) && IsHashToken(key)
    ensures lib.fold(HashText(r.hash), TrimPrefix(key, ED2K_PREFIX)) <==> r.hash == TokenHash(key)
  {
    HashTextMatchesIff(r.hash, TrimPrefix(key, ED2K_PREFIX));
  }

  /** The one record that the key names by its hash is not in the catalog, does not match, or is found by name too. */
  predicate NamedRecordFound(lib: Library, c: Contents, q: SearchQuery, key: Bytes)
    requires IsHashToken(key)
  {
    var h := TokenHash(key);
    h in c.byHash && QueryMatches(lib, q, c.byHash[h]) ==> HasAllTrigrams(lib, c.byHash[h], key)
  }

  /** Any other record that matches has the key in its name. */
  lemma MatchHasTrigramsOrHash(lib: Library, q: SearchQuery, r: FileRecord)
    requires LawfulAscii(lib) && Built(q) && q.summarized && QueryMatches(lib, q, r)
    requires IsHashToken(LongestKey(lib, q.summary.keywords))
    ensures HasAllTrigrams(lib, r, LongestKey(lib, q.summary.keywords)) || r.hash == TokenHash(LongestKey(lib, q.summary.keywords))
  {
    var key := LongestKey(lib, q.summary.keywords);
    var i :| 0 <= i < |q.summary.keywords| && key == Normalized(lib, q.summary.keywords[i]);
    KeywordsRequired(lib, q.root.value, r);
    assert KeywordMatchesRecord(lib, r, q.summary.keywords[i]);
    if Contains(lib.lower(r.name), key) {
      ContainsImpliesTrigrams(lib.lower(r.name), key);
    } else {
      MatchesByHashIff(lib, r, key);
    }
  }

  /**
   Exactly when a search of a catalog returns the entries of a full scan, for every query a request can stand
   for: no key is used, or the key does not work as a hash, or the one record with that hash is absent, does
   not match, or has all of the key's trigrams in its name.
   */
  lemma SearchIsFullScanIff(lib: Library, c: Contents, q: SearchQuery)
    requires LawfulAscii(lib) && Built(q) && Consistent(c)
    ensures var key := ChosenKey(lib, q, !HasIndexedName(lib, c.files));
            SearchResults(lib, c.files, q) == FullScan(lib, c.files, q)
            <==> (key.Some? && IsHashToken(key.value) ==> NamedRecordFound(lib, c, q, key.value))
  {
    var key := ChosenKey(lib, q, !HasIndexedName(lib, c.files));
    KeyedResults(lib, c.files, q, key);
    if key.Some? {
      if IsHashToken(key.value) {
        NothingMissedIff(lib, c, q);
      } else {
        SearchIsFullScan(lib, c.files, q);
      }
    }
  }

  /** The same for every request that decodes and every catalog that operations can produce. */
  lemma RequestSearchIsFullScanIff(lib: Library, body: Bytes, maxDepth: int, ops: seq<Op>)
    requires LawfulTrim(lib) && LawfulAscii(lib) && DistinctReplacements(ops)
    requires RequestQuery(lib, body, maxDepth).Ok?
    ensures var q, c := RequestQuery(lib, body, maxDepth).value, AppliedAll(lib, EMPTY, ops);
            var key := ChosenKey(lib, q, !HasIndexedName(lib, c.files));
            SearchResults(lib, c.files, q) == FullScan(lib, c.files, q)
            <==> (key.Some? && IsHashToken(key.value) ==> NamedRecordFound(lib, c, q, key.value))
  {
    RunKeepsSound(lib, EMPTY, ops);
    SearchIsFullScanIff(lib, AppliedAll(lib, EMPTY, ops), RequestQuery(lib, body, maxDepth).value);
  }

  lemma NothingMissedIff(lib: Library, c: Contents, q: SearchQuery)
    requires LawfulAscii(lib) && Built(q) && q.summarized && Consistent(c)
    requires IsHashToken(LongestKey(lib, q.summary.keywords))
    ensures var key := LongestKey(lib, q.summary.keywords);
            NothingMissed(lib, c.files, q, Some(key)) <==> NamedRecordFound(lib, c, q, key)
  {
    var key := LongestKey(lib, q.summary.keywords);
    if NamedRecordFound(lib, c, q, key) {
      forall i | 0 <= i < |c.files| && QueryMatches(lib, q, c.files[i])
        ensures HasAllTrigrams(lib, c.files[i], key)
      {
        NamedOrByName(lib, c, q, c.files[i]);
      }
    } else {
      NamedIsMissed(lib, c, q, key);
    }
  }

  lemma NamedOrByName(lib: Library, c: Contents, q: SearchQuery, r: FileRecord)
    requires LawfulAscii(lib) && Built(q) && q.summarized && QueryMatches(lib, q, r)
    requires IsHashToken(LongestKey(lib, q.summary.keywords))
    requires Consistent(c) && r in c.files && NamedRecordFound(lib, c, q, LongestKey(lib, q.summary.keywords))
    ensures HasAllTrigrams(lib, r, LongestKey(lib, q.summary.keywords))
  {
    MatchHasTrigramsOrHash(lib, q, r);
    ViewsAgree(c, r);
  }

  lemma ViewsAgree(c: Contents, r: FileRecord)
    requires Consistent(c)
    ensures r in c.files <==> r.hash in c.byHash && c.byHash[r.hash] == r
    ensures r.hash in c.byHash ==> c.byHash[r.hash] in c.files
  {
  }

  lemma NamedIsMissed(lib: Library, c: Contents, q: SearchQuery, key: Bytes)
    requires Consistent(c) && IsHashToken(key) && !NamedRecordFound(lib, c, q, key)
    ensures !NothingMissed(lib, c.files, q, Some(key))
  {
    var r := c.byHash[TokenHash(key)];
    ViewsAgree(c, r);
    var i :| 0 <= i < |c.files| && c.files[i] == r;
  }

  // ---------------------------------------------------------------- a catalog where the two differ

  const ZZZ: Bytes := [0x7A, 0x7A, 0x7A]

  /** A record found by its hash alone. */
  function HashOnlyRecord(h: Hash): FileRecord {
    FileRecord(h, ZZZ, 1, [], [], [], 0, 0, 0, 0, [])
  }

  /** Unless the hash is zero, the catalog stores such a record as it is. */
  lemma HashOnlyIsStored(lib: Library, h: Hash)
    requires LawfulAscii(lib)
    ensures Stored(lib, HashOnlyRecord(h)) <==> h != 0
  {
    assert IsAscii(ZZZ) && lib.trim(ZZZ) == ZZZ;
  }

  /** The catalog after inserting that record. */
  function HashOnlyCatalog(lib: Library, h: Hash): Contents {
    AppliedAll(lib, EMPTY, [Op.Upsert(HashOnlyRecord(h))])
  }

  lemma HashOnlyContents(lib: Library, h: Hash)
    requires LawfulAscii(lib) && h != 0
    ensures HashOnlyCatalog(lib, h) == Contents([HashOnlyRecord(h)], map[h := HashOnlyRecord(h)])
  {
    var r := HashOnlyRecord(h);
    var ops := [Op.Upsert(r)];
    HashOnlyIsStored(lib, h);
    assert AppliedAll(lib, EMPTY, ops[..0]) == EMPTY;
    assert AppliedAll(lib, EMPTY, ops) == Applied(lib, EMPTY, ops[0]);
    assert Applied(lib, EMPTY, ops[0]) == Upserted(EMPTY, r);
    assert EMPTY.byHash[h := r] == map[h := r];
  }

  /** For every keyword that names a hash other than zero: one record inserted, found by the full scan and missed by the search. */
  lemma HashTokenIsMissed(lib: Library, keyword: Bytes)
    requires LawfulAscii(lib)
    requires IsHashToken(Normalized(lib, keyword)) && TokenHash(Normalized(lib, keyword)) != 0
    ensures var files := HashOnlyCatalog(lib, TokenHash(Normalized(lib, keyword))).files;
            SearchResults(lib, files, QueryOf(Keyword(keyword))) == [] && |FullScan(lib, files, QueryOf(Keyword(keyword)))| == 1
  {
    var key := Normalized(lib, keyword);
    var r := HashOnlyRecord(TokenHash(key));
    var q := QueryOf(Keyword(keyword));
    HashOnlyContents(lib, TokenHash(key));
    assert QueryMatches(lib, q, r) by { MatchesByHashIff(lib, r, key); }
    SingleKey(lib, keyword);
    NameIsZs(lib, r);
    LacksTrigrams(lib, r, key);
    SingleResult(lib, r, q, None);
    SingleResult(lib, r, q, Some(key));
    assert HasIndexedName(lib, [r]) by { assert [r][0] == r; }
  }

  lemma SingleResult(lib: Library, r: FileRecord, q: SearchQuery, key: Option<Bytes>)
    ensures Results(lib, [r], q, key) == if Selected(lib, q, key, r) then [MakeSharedFileEntry(lib, r)] else []
  {
    assert [r][..0] == [] && [r][0] == r;
  }

  lemma SingleKey(lib: Library, keyword: Bytes)
    requires |Normalized(lib, keyword)| >= 3
    ensures QueryOf(Keyword(keyword)).summary.keywords == [keyword]
    ensures LongestKey(lib, [keyword]) == Normalized(lib, keyword)
  {
    assert [keyword][0] == keyword && [keyword][..0] == [];
  }

  lemma NameIsZs(lib: Library, r: FileRecord)
    requires LawfulAscii(lib) && r.name == ZZZ
    ensures NameTrigrams(lib, r) == {ZZZ}
  {
    assert lib.lower(r.name) == ZZZ;
    assert Gram(ZZZ, 0) == ZZZ;
  }

  lemma LacksTrigrams(lib: Library, r: FileRecord, key: Bytes)
    requires IsHashToken(key) && NameTrigrams(lib, r) == {ZZZ}
    ensures !HasAllTrigrams(lib, r, key)
  {
    assert key[0] != 0x7A;
    assert Gram(key, 0) in Trigrams(key) && Gram(key, 0)[0] == key[0];
  }

  /** The catalog that operations produce is searched for the query as by a full scan. */
  ghost predicate SearchedFully(lib: Library, ops: seq<Op>, q: SearchQuery) {
    var files := AppliedAll(lib, EMPTY, ops).files;
    SearchResults(lib, files, q) == FullScan(lib, files, q)
  }

  /**
   For a single keyword: every catalog that operations can produce is searched as by a full scan if and only
   if the keyword does not work as a hash, or names the zero hash, which no stored record has.
   */
  lemma KeywordSearchIsFullScanIff(lib: Library, keyword: Bytes)
    requires LawfulTrim(lib) && LawfulAscii(lib)
    ensures (forall ops :: DistinctReplacements(ops) ==> SearchedFully(lib, ops, QueryOf(Keyword(keyword))))
            <==> (IsHashToken(Normalized(lib, keyword)) ==> TokenHash(Normalized(lib, keyword)) == 0)
  {
    var key := Normalized(lib, keyword);
    var q := QueryOf(Keyword(keyword));
    if IsHashToken(key) && TokenHash(key) != 0 {
      MissedSomewhere(lib, keyword);
    } else {
      forall ops | DistinctReplacements(ops)
        ensures SearchedFully(lib, ops, q)
      {
        KeywordSearchedFully(lib, ops, keyword);
      }
    }
  }

  lemma MissedSomewhere(lib: Library, keyword: Bytes)
    requires LawfulAscii(lib)
    requires IsHashToken(Normalized(lib, keyword)) && TokenHash(Normalized(lib, keyword)) != 0
    ensures exists ops :: DistinctReplacements(ops) && !SearchedFully(lib, ops, QueryOf(Keyword(keyword)))
  {
    var ops := [Op.Upsert(HashOnlyRecord(TokenHash(Normalized(lib, keyword))))];
    var q := QueryOf(Keyword(keyword));
    assert !SearchedFully(lib, ops, q) by {
      HashTokenIsMissed(lib, keyword);
      assert [] != FullScan(lib, AppliedAll(lib, EMPTY, ops).files, q);
    }
    assert DistinctReplacements(ops);
  }

  lemma KeywordSearchedFully(lib: Library, ops: seq<Op>, keyword: Bytes)
    requires LawfulTrim(lib) && LawfulAscii(lib) && DistinctReplacements(ops)
    requires IsHashToken(Normalized(lib, keyword)) ==> TokenHash(Normalized(lib, keyword)) == 0
    ensures SearchedFully(lib, ops, QueryOf(Keyword(keyword)))
  {
    RunKeepsSound(lib, EMPTY, ops);
    SoundSearchedFully(lib, AppliedAll(lib, EMPTY, ops), keyword);
  }

  lemma SoundSearchedFully(lib: Library, c: Contents, keyword: Bytes)
    requires LawfulAscii(lib) && Sound(lib, c)
    requires IsHashToken(Normalized(lib, keyword)) ==> TokenHash(Normalized(lib, keyword)) == 0
    ensures SearchResults(lib, c.files, QueryOf(Keyword(keyword))) == FullScan(lib, c.files, QueryOf(Keyword(keyword)))
  {
    var q := QueryOf(Keyword(keyword));
    assert q.summary.keywords == [keyword];
    NoZeroHash(lib, c);
    KeyIsKeyword(lib, keyword);
    SearchIsFullScanIff(lib, c, q);
  }

  lemma KeyIsKeyword(lib: Library, keyword: Bytes)
    ensures LongestKey(lib, [keyword]) == Normalized(lib, keyword) || LongestKey(lib, [keyword]) == []
  {
    assert [keyword][0] == keyword && [keyword][..0] == [];
  }

  lemma NoZeroHash(lib: Library, c: Contents)
    requires Sound(lib, c)
    ensures 0 !in c.byHash
  {
  }
}
