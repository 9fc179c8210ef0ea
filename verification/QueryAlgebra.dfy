/** What queries find, as sets: the operators as set operations, the comparisons as sets of numbers, the leaves by field. */
module QueryAlgebra {
  import opened Basics
  import opened Library
  import opened Records
  import opened SearchQueries
  import opened SearchSyntax
  import opened SearchProofs
  import opened TrigramIndex
  import opened Catalogs

  /** The positions in the catalog of the files that a tree finds. */
  function Found(lib: Library, files: seq<FileRecord>, e: Expr): set<nat> {
    set i: nat | i < |files| && Matches(lib, e, files[i])
  }

  /** The entries at the given positions. */
  function EntriesAt(lib: Library, files: seq<FileRecord>, at: seq<nat>): (entries: seq<SharedFileEntry>)
    requires forall k :: 0 <= k < |at| ==> at[k] < |files|
    ensures |entries| == |at|
    ensures forall k :: 0 <= k < |at| ==> entries[k] == MakeSharedFileEntry(lib, files[at[k]])
  {
    seq(|at|, k requires 0 <= k < |at| => MakeSharedFileEntry(lib, files[at[k]]))
  }

  /** A full scan returns exactly the entries at the positions found, in ascending order. */
  lemma {:induction false} FullScanReturnsFound(lib: Library, files: seq<FileRecord>, e: Expr) returns (at: seq<nat>)
    ensures Ascending(at) && forall i: nat :: i in at <==> i in Found(lib, files, e)
    ensures forall k :: 0 <= k < |at| ==> at[k] < |files|
    ensures FullScan(lib, files, QueryOf(e)) == EntriesAt(lib, files, at)
  {
    if files == [] {
      at := [];
    } else {
      var n := |files| - 1;
      at := FullScanReturnsFound(lib, files[..n], e);
      FoundOneMore(lib, files, e);
      assert forall k :: 0 <= k < |at| ==> at[k] in at;
      assert EntriesAt(lib, files, at) == EntriesAt(lib, files[..n], at);
      if Matches(lib, e, files[n]) {
        EntriesGrow(lib, files, at, n);
        at := at + [n];
      }
    }
  }

  lemma EntriesGrow(lib: Library, files: seq<FileRecord>, at: seq<nat>, i: nat)
    requires (forall k :: 0 <= k < |at| ==> at[k] < |files|) && i < |files|
    requires Ascending(at) && forall x :: x in at ==> x < i
    ensures Ascending(at + [i]) && forall x :: x in at + [i] <==> x in at || x == i
    ensures EntriesAt(lib, files, at + [i]) == EntriesAt(lib, files, at) + [MakeSharedFileEntry(lib, files[i])]
  {
    assert forall k :: 0 <= k < |at| ==> at[k] in at;
  }

  lemma FoundOneMore(lib: Library, files: seq<FileRecord>, e: Expr)
    requires files != []
    ensures var n := |files| - 1;
            Found(lib, files, e) == Found(lib, files[..n], e) + (if Matches(lib, e, files[n]) then {n} else {})
  {
  }

  /** AND, OR, AND NOT, XOR and NOT AND find the intersection, union, difference, symmetric difference and reverse difference. */
  lemma OperatorsAreSetOperations(lib: Library, files: seq<FileRecord>, l: Expr, r: Expr)
    ensures Found(lib, files, Compound(0, l, r)) == Found(lib, files, l) * Found(lib, files, r)
    ensures Found(lib, files, Compound(1, l, r)) == Found(lib, files, l) + Found(lib, files, r)
    ensures Found(lib, files, Compound(2, l, r)) == Found(lib, files, l) - Found(lib, files, r)
    ensures Found(lib, files, Compound(3, l, r)) ==
            (Found(lib, files, l) - Found(lib, files, r)) + (Found(lib, files, r) - Found(lib, files, l))
    ensures Found(lib, files, Compound(4, l, r)) == Found(lib, files, r) - Found(lib, files, l)
  {
  }

  /** The set operation of an operator byte on the wire. */
  function Combined(operator: Byte, l: set<nat>, r: set<nat>): set<nat> {
    match operator
    case 0 => l * r
    case 1 => l + r
    case 2 => l - r
    case 3 => (l - r) + (r - l)
    case 4 => r - l
    case _ => {}
  }

  /** A request of two requests joined by an operator finds the set operation of what the two find. */
  lemma JoinedRequestFinds(lib: Library, files: seq<FileRecord>, operator: Byte, l: Tree, r: Tree, maxDepth: int)
    requires operator <= 4 && WellFormed(l) && WellFormed(r) && Meaning(lib, l).Ok? && Meaning(lib, r).Ok?
    requires Height(l) < EffectiveDepth(maxDepth) && Height(r) < EffectiveDepth(maxDepth)
    ensures var joined := DecodeRequest(lib, [0, operator] + TreeBytes(l) + TreeBytes(r), maxDepth);
            var left, right := DecodeRequest(lib, TreeBytes(l), maxDepth), DecodeRequest(lib, TreeBytes(r), maxDepth);
            && joined.Ok? && left.Ok? && right.Ok?
            && Found(lib, files, joined.value) == Combined(operator, Found(lib, files, left.value), Found(lib, files, right.value))
  {
    DecodeInvertsTreeBytes(lib, l, maxDepth);
    DecodeInvertsTreeBytes(lib, r, maxDepth);
    DecodeInvertsTreeBytes(lib, Node(operator, l, r), maxDepth);
    CompoundFinds(lib, files, operator, Meaning(lib, l).value, Meaning(lib, r).value);
  }

  lemma CompoundFinds(lib: Library, files: seq<FileRecord>, operator: Byte, l: Expr, r: Expr)
    requires operator <= 4
    ensures Found(lib, files, Compound(operator, l, r)) == Combined(operator, Found(lib, files, l), Found(lib, files, r))
  {
    OperatorsAreSetOperations(lib, files, l, r);
  }

  /** An empty request finds every file. */
  lemma EmptyRequestFindsAll(lib: Library, files: seq<FileRecord>, maxDepth: int)
    ensures DecodeRequest(lib, [], maxDepth).Ok?
    ensures forall i: nat :: i in Found(lib, files, DecodeRequest(lib, [], maxDepth).value) <==> i < |files|
  {
  }

  // ---------------------------------------------------------------- comparisons

  /** The numbers a comparison lets through. */
  ghost function Values(operator: Byte, bound: int): iset<int> {
    iset x: int | Compare(x, operator, bound)
  }

  /** Equal, above and below a bound divide the numbers, and the other three operators are their complements. */
  lemma ComparisonsDivide(bound: int)
    ensures Values(0, bound) == iset{bound}
    ensures forall x: int :: x in Values(1, bound) <==> x > bound
    ensures forall x: int :: x in Values(2, bound) <==> x < bound
    ensures forall x: int :: x in Values(3, bound) <==> x !in Values(2, bound)
    ensures forall x: int :: x in Values(4, bound) <==> x !in Values(1, bound)
    ensures forall x: int :: x in Values(5, bound) <==> x !in Values(0, bound)
    ensures forall x: int, operator: Byte :: operator > 5 ==> x !in Values(operator, bound)
  {
  }

  // ---------------------------------------------------------------- leaves

  /** A numeric leaf finds the files whose own field for the tag is among the numbers of the comparison. */
  lemma NumbersFindByField(lib: Library, files: seq<FileRecord>, operator: Byte, number: UInt64)
    ensures var values := Values(operator, ToInt64(number));
            forall i: nat :: i < |files| ==>
              && (i in Found(lib, files, Numeric(0x02, operator, number)) <==> files[i].size in values)
              && (i in Found(lib, files, Numeric(0x15, operator, number)) <==> files[i].sources in values)
              && (i in Found(lib, files, Numeric(0x30, operator, number)) <==> files[i].completeSources in values)
              && (i in Found(lib, files, Numeric(0xD3, operator, number)) <==> files[i].mediaLength in values)
              && (i in Found(lib, files, Numeric(0xD4, operator, number)) <==> files[i].mediaBitrate in values)
  {
  }

  /** A text leaf finds the files whose own field equals the text, letter case aside; one dot before an extension does not count. */
  lemma TextsFindByField(lib: Library, files: seq<FileRecord>, text: Bytes)
    ensures forall i: nat :: i < |files| ==>
              && (i in Found(lib, files, StringTag(0x03, text)) <==> lib.fold(files[i].fileType, text))
              && (i in Found(lib, files, StringTag(0xD5, text)) <==> lib.fold(files[i].mediaCodec, text))
              && (i in Found(lib, files, StringTag(0x04, [0x2E] + text)) <==> lib.fold(files[i].extension, text))
              && (!([0x2E] <= text) ==>
                    (i in Found(lib, files, StringTag(0x04, text)) <==> lib.fold(files[i].extension, text)))
  {
    assert ([0x2E] + text)[1..] == text;
  }

  /** The text occurs in the other, at some place. */
  ghost predicate PartOf(part: Bytes, whole: Bytes) {
    exists before: Bytes, after: Bytes :: whole == before + part + after
  }

  lemma ContainsIffPart(whole: Bytes, part: Bytes)
    ensures Contains(whole, part) <==> PartOf(part, whole)
  {
    if Contains(whole, part) {
      var i :| 0 <= i <= |whole| - |part| && OccursAt(whole, part, i);
      assert whole == whole[..i] + part + whole[i + |part|..];
    }
    if PartOf(part, whole) {
      var before: Bytes, after: Bytes :| whole == before + part + after;
      assert OccursAt(whole, part, |before|);
    }
  }

  /** What follows "ed2k::", or all of it. */
  ghost predicate NamesHash(text: Bytes, digits: Bytes) {
    text == [0x65, 0x64, 0x32, 0x6B, 0x3A, 0x3A] + digits || (text == digits && !([0x65, 0x64, 0x32, 0x6B, 0x3A, 0x3A] <= text))
  }

  /**
   A keyword, trimmed and in lower case, finds the files whose lower-cased name it is part of, all files if it is
   empty, and the file whose hash it is, written in 32 lower-case hexadecimal digits, with or without "ed2k::".
   */
  lemma KeywordsFindByNameOrHash(lib: Library, files: seq<FileRecord>, keyword: Bytes, i: nat)
    requires i < |files| && LawfulAscii(lib)
    ensures var text := lib.lower(lib.trim(keyword));
            i in Found(lib, files, Keyword(keyword)) <==>
            || text == []
            || PartOf(text, lib.lower(files[i].name))
            || NamesThisHash(text, files[i].hash)
  {
    var text := lib.lower(lib.trim(keyword));
    ContainsIffPart(lib.lower(files[i].name), text);
    HashNamed(lib, text, files[i].hash);
  }

  /** The digits a text names are what is left of it after an optional "ed2k::". */
  lemma DigitsNamed(text: Bytes, digits: Bytes)
    ensures NamesHash(text, digits) <==> digits == TrimPrefix(text, ED2K_PREFIX)
  {
    if NamesHash(text, digits) && ED2K_PREFIX <= text {
      assert (ED2K_PREFIX + digits)[6..] == digits;
    }
  }

  /** The text names the hash. */
  ghost predicate NamesThisHash(text: Bytes, h: Hash) {
    exists digits: Bytes :: NamesHash(text, digits) && |digits| == 32 && IsLowerHex(digits) && h == HexValue(digits)
  }

  lemma HashNamed(lib: Library, text: Bytes, h: Hash)
    requires LawfulAscii(lib)
    ensures NamesThisHash(text, h) <==> IsHashToken(text) && lib.fold(HashText(h), TrimPrefix(text, ED2K_PREFIX))
  {
    var token := TrimPrefix(text, ED2K_PREFIX);
    DigitsNamed(text, token);
    if |token| == 32 && IsLowerHex(token) {
      HashTextMatchesIff(h, token);
    }
    if digits: Bytes :| NamesHash(text, digits) && |digits| == 32 && IsLowerHex(digits) && h == HexValue(digits) {
      DigitsNamed(text, digits);
    }
  }

  // ---------------------------------------------------------------- the index

  /** The trigrams of a text are its parts of three bytes. */
  lemma TrigramsAreParts(text: Bytes, g: Bytes)
    ensures g in Trigrams(text) <==> |g| == 3 && PartOf(g, text)
  {
    if g in Trigrams(text) {
      var i :| 0 <= i <= |text| - 3 && g == Gram(text, i);
      assert text == text[..i] + g + text[i + 3..];
    }
    if |g| == 3 && PartOf(g, text) {
      var before: Bytes, after: Bytes :| text == before + g + after;
      assert Gram(text, |before|) == g;
    }
  }

  /** Some name has a trigram exactly when some name, in lower case, has three bytes. */
  lemma IndexedIffLongName(lib: Library, files: seq<FileRecord>)
    ensures HasIndexedName(lib, files) <==> exists i :: 0 <= i < |files| && |lib.lower(files[i].name)| >= 3
  {
    if i :| 0 <= i < |files| && |lib.lower(files[i].name)| >= 3 {
      assert Gram(lib.lower(files[i].name), 0) in NameTrigrams(lib, files[i]);
    }
  }
}
