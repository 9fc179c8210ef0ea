/** The request parsers as the server runs them: methods that advance a shared reader. */
module SearchParser {
  import opened Basics
  import opened Library
  import opened SearchQueries
  import opened SearchSyntax

  /** A bytes.Reader: the data and the position of the next unread byte. */
  class Reader {
    const data: Bytes
    var pos: nat

    ghost predicate Valid()
      reads this
    {
      pos <= |data|
    }

    /** The unread part. */
    ghost function Rest(): Bytes
      reads this
      requires Valid()
    {
      data[pos..]
    }

    constructor (data: Bytes)
      ensures Valid() && Rest() == data
    {
      this.data := data;
      pos := 0;
    }

    method Len() returns (n: nat)
      requires Valid()
      ensures n == |Rest()|
    {
      n := |data| - pos;
    }

    method ReadByte() returns (r: Result<Byte>)
      requires Valid()
      modifies this
      ensures Valid() && Reads(this, TakeByte(old(Rest())), r)
    {
      if pos == |data| {
        return Err(UnexpectedEnd);
      }
      r := Ok(data[pos]);
      pos := pos + 1;
    }

    method ReadBytes(n: nat) returns (r: Result<Bytes>)
      requires Valid()
      modifies this
      ensures Valid() && Reads(this, TakeBytes(old(Rest()), n), r)
    {
      if |data| - pos < n {
        return Err(UnexpectedEnd);
      }
      r := Ok(data[pos..pos + n]);
      assert data[pos..][..n] == data[pos..pos + n];
      pos := pos + n;
    }

    /** A little-endian integer of the given width. */
    method ReadUInt(width: nat) returns (r: Result<nat>)
      requires Valid()
      modifies this
      ensures Valid() && Reads(this, TakeUInt(old(Rest()), width), r)
    {
      var raw := ReadBytes(width);
      if raw.Err? {
        return Err(raw.error);
      }
      r := Ok(ReadLE(raw.value));
    }
  }

  /** The outcome r and the new position of the reader are those of the parse p. */
  ghost predicate Reads<T>(reader: Reader, p: Parsed<T>, r: Result<T>)
    reads reader
    requires reader.Valid()
  {
    match p
    case Done(value, rest) => r == Ok(value) && reader.Rest() == rest
    case Fail(error) => r == Err(error)
  }

  method ReadSearchString(lib: Library, reader: Reader) returns (r: Result<Bytes>)
    requires reader.Valid()
    modifies reader
    ensures reader.Valid() && Reads(reader, TakeString(lib, old(reader.Rest())), r)
  {
    var size :- reader.ReadUInt(2);
    var raw :- reader.ReadBytes(size);
    return Ok(lib.trim(raw));
  }

  method ReadSearchTagRef(lib: Library, reader: Reader) returns (r: Result<TagRef>)
    requires reader.Valid()
    modifies reader
    ensures reader.Valid() && Reads(reader, TakeTagRef(lib, old(reader.Rest())), r)
  {
    var value :- ReadSearchString(lib, reader);
    if |value| == 1 {
      return Ok(ById(value[0]));
    }
    if value == [] {
      return Err(EmptyTag);
    }
    return Ok(ByName(value));
  }

  method ReadLegacySearchTagID(reader: Reader) returns (r: Result<Byte>)
    requires reader.Valid()
    modifies reader
    ensures reader.Valid() && Reads(reader, TakeLegacyTagID(old(reader.Rest())), r)
  {
    var tagCount :- reader.ReadUInt(2);
    if tagCount != 1 {
      return Err(BadTagCount(tagCount));
    }
    r := reader.ReadByte();
  }

  method ReadUInt64(reader: Reader, width: nat) returns (r: Result<UInt64>)
    requires reader.Valid() && (width == 4 || width == 8)
    modifies reader
    ensures reader.Valid() && Reads(reader, TakeUInt64(old(reader.Rest()), width), r)
  {
    ghost var parsed := TakeUInt64(reader.Rest(), width);
    var value :- reader.ReadUInt(width);
    assert parsed.value == value;
    return Ok(value);
  }

  method ParseMediaLength(lib: Library, raw: Bytes) returns (r: Result<int>)
    ensures r == SearchSyntax.ParseMediaLength(lib, raw)
  {
    var value := lib.trim(raw);
    if value == [] {
      return Err(BadMediaLength);
    }
    if COLON !in value {
      var seconds := Atoi(value);
      if seconds.None? || seconds.value < 0 {
        return Err(BadMediaLength);
      }
      return Ok(seconds.value);
    }
    var parts := SplitColons(value);
    if |parts| < 2 || |parts| > 3 {
      return Err(BadMediaLength);
    }
    r := SumParts(parts);
  }

  /** The parts added up as base-60 digits. */
  method SumParts(parts: seq<Bytes>) returns (r: Result<int>)
    ensures r == FoldSixty(parts, 0)
  {
    var total := 0;
    for i := 0 to |parts|
      invariant FoldSixty(parts[i..], total) == FoldSixty(parts, 0)
    {
      assert parts[i..][1..] == parts[i + 1..];
      var number := Atoi(parts[i]);
      if number.None? || number.value < 0 {
        return Err(BadMediaLength);
      }
      total := Wrap64(total * 60 + number.value);
    }
    return Ok(total);
  }

  method ParseRecursiveNumericExpr(lib: Library, reader: Reader, value: UInt64) returns (r: Result<Expr>)
    requires reader.Valid()
    modifies reader
    ensures reader.Valid() && Reads(reader, PrefixNumeric(lib, value, old(reader.Rest())), r)
  {
    var operator :- reader.ReadByte();
    if operator > OP_NOT_EQUAL {
      return Err(BadNumericOperator(operator));
    }
    var tag :- ReadSearchTagRef(lib, reader);
    return MakeNumericTag(lib, value, operator, tag);
  }

  method ParseRecursiveTerm(lib: Library, reader: Reader, termType: Byte) returns (r: Result<Expr>)
    requires reader.Valid()
    modifies reader
    ensures reader.Valid() && Reads(reader, PrefixTerm(lib, termType, old(reader.Rest())), r)
  {
    if termType == TYPE_STRING {
      var value :- ReadSearchString(lib, reader);
      return Ok(MakeKeyword(lib, value));
    } else if termType == TYPE_STR_TAG {
      var value :- ReadSearchString(lib, reader);
      var tag :- ReadSearchTagRef(lib, reader);
      return MakeStringTag(lib, value, tag);
    } else if termType == TYPE_UINT32 {
      var value :- ReadUInt64(reader, 4);
      r := ParseRecursiveNumericExpr(lib, reader, value);
    } else if termType == TYPE_UINT64 {
      var value :- ReadUInt64(reader, 8);
      r := ParseRecursiveNumericExpr(lib, reader, value);
    } else {
      return Err(BadTermType(termType));
    }
  }

  method ParseRecursiveSearchExpr(lib: Library, reader: Reader, depth: nat, maxDepth: int) returns (r: Result<Expr>)
    requires reader.Valid()
    modifies reader
    ensures reader.Valid() && Reads(reader, PrefixExpr(lib, old(reader.Rest()), depth, maxDepth), r)
    decreases |reader.Rest()|
  {
    if depth > maxDepth {
      return Err(TooDeep);
    }
    var termType :- reader.ReadByte();
    if termType == TYPE_BOOL {
      var operator :- reader.ReadByte();
      if operator > BOOL_NOT_AND {
        return Err(BadBooleanOperator(operator));
      }
      var left :- ParseRecursiveSearchExpr(lib, reader, depth + 1, maxDepth);
      var right :- ParseRecursiveSearchExpr(lib, reader, depth + 1, maxDepth);
      return Ok(Compound(operator, left, right));
    }
    r := ParseRecursiveTerm(lib, reader, termType);
  }

  method ParseRecursiveSearchRequest(lib: Library, body: Bytes, maxDepth: int) returns (r: Result<Expr>)
    ensures r == PrefixRequest(lib, body, maxDepth)
  {
    var reader := new Reader(body);
    var root :- ParseRecursiveSearchExpr(lib, reader, 0, maxDepth);
    var left := reader.Len();
    if left != 0 {
      return Err(TrailingPayload(left));
    }
    return Ok(root);
  }

  method ParseLegacyNumericExpr(lib: Library, reader: Reader, value: UInt64) returns (r: Result<Expr>)
    requires reader.Valid()
    modifies reader
    ensures reader.Valid() && Reads(reader, LegacyNumeric(lib, value, old(reader.Rest())), r)
  {
    var operator :- reader.ReadByte();
    if operator > OP_NOT_EQUAL {
      return Err(BadNumericOperator(operator));
    }
    var tagID :- ReadLegacySearchTagID(reader);
    return MakeNumericTag(lib, value, operator, ById(tagID));
  }

  method ParseLegacySearchTerm(lib: Library, reader: Reader) returns (r: Result<Expr>)
    requires reader.Valid()
    modifies reader
    ensures reader.Valid() && Reads(reader, LegacyTerm(lib, old(reader.Rest())), r)
  {
    var termType :- reader.ReadByte();
    if termType == TYPE_STRING {
      var value :- ReadSearchString(lib, reader);
      return Ok(MakeKeyword(lib, value));
    } else if termType == TYPE_STR_TAG {
      var value :- ReadSearchString(lib, reader);
      var tagID :- ReadLegacySearchTagID(reader);
      return MakeStringTag(lib, value, ById(tagID));
    } else if termType == TYPE_UINT32 {
      var value :- ReadUInt64(reader, 4);
      r := ParseLegacyNumericExpr(lib, reader, value);
    } else if termType == TYPE_UINT64 {
      var value :- ReadUInt64(reader, 8);
      r := ParseLegacyNumericExpr(lib, reader, value);
    } else {
      return Err(BadTermType(termType));
    }
  }

  method ParseLegacySearchRequest(lib: Library, body: Bytes) returns (r: Result<Expr>)
    ensures r == LegacyRequest(lib, body)
  {
    var reader := new Reader(body);
    var root :- ParseLegacySearchTerm(lib, reader);
    var left := reader.Len();
    while left > 0
      invariant reader.Valid() && left == |reader.Rest()|
      invariant LegacyTail(lib, root, reader.Rest()) == LegacyRequest(lib, body)
      decreases left
    {
      ghost var s := reader.Rest();
      var marker := reader.ReadByte();  // cannot fail: left > 0
      if marker.value != TYPE_BOOL {
        return Err(BadMarker(marker.value));
      }
      var operator :- reader.ReadByte();
      if operator > BOOL_NOT_AND {
        return Err(BadBooleanOperator(operator));
      }
      assert reader.Rest() == s[2..];
      var next :- ParseLegacySearchTerm(lib, reader);
      root := Compound(operator, root, next);
      left := reader.Len();
    }
    return Ok(root);
  }

  /** ParseSearchRequestLimited, with the summary of what it decoded. */
  method ParseSearchRequestLimited(lib: Library, body: Bytes, maxDepth: int) returns (r: Result<SearchQuery>)
    ensures r == RequestQuery(lib, body, maxDepth)
  {
    if |body| == 0 {
      return Ok(SearchQuery(Some(MatchAll), EMPTY_SUMMARY, false));
    }
    var limit := maxDepth;
    if limit <= 0 {
      limit := DEFAULT_MAX_DEPTH;
    }
    var prefixRoot := ParseRecursiveSearchRequest(lib, body, limit);
    if prefixRoot.Ok? {
      var query := MakeSearchQuery(prefixRoot.value);
      return Ok(query);
    }
    var legacyRoot := ParseLegacySearchRequest(lib, body);
    if legacyRoot.Ok? {
      var query := MakeSearchQuery(legacyRoot.value);
      return Ok(query);
    }
    return Err(BothFailed(prefixRoot.error, legacyRoot.error));
  }

  method ParseSearchRequest(lib: Library, body: Bytes) returns (r: Result<SearchQuery>)
    ensures r == RequestQuery(lib, body, DEFAULT_MAX_DEPTH)
  {
    r := ParseSearchRequestLimited(lib, body, DEFAULT_MAX_DEPTH);
  }
}
