/**
 The two encodings of a search request: what each parser computes, as functions on byte strings, and
 the syntax trees whose serialisations they accept.
 */
module SearchSyntax {
  import opened Basics
  import opened Library
  import opened SearchQueries

  const TYPE_BOOL: Byte := 0x00
  const TYPE_STRING: Byte := 0x01
  const TYPE_STR_TAG: Byte := 0x02
  const TYPE_UINT32: Byte := 0x03
  const TYPE_UINT64: Byte := 0x08

  const DEFAULT_MAX_DEPTH: int := 64

  datatype ParseError =
    | UnexpectedEnd
    | TooDeep
    | BadBooleanOperator(operator: Byte)
    | BadNumericOperator(operator: Byte)
    | BadTermType(termType: Byte)
    | BadMarker(marker: Byte)
    | EmptyTag
    | BadTagCount(count: int)
    | UnsupportedTag(tag: TagRef)
    | BadMediaLength
    | TrailingPayload(size: nat)
    | BothFailed(prefixError: ParseError, legacyError: ParseError)

  datatype TagRef = ById(id: Byte) | ByName(name: Bytes)

  datatype Result<+T> = Ok(value: T) | Err(error: ParseError) {
    predicate IsFailure() { Err? }
    function PropagateFailure<U>(): Result<U> requires Err? { Err(error) }
    function Extract(): T requires Ok? { value }
  }

  /** A value read from the front of the input, with the input that is left. */
  datatype Parsed<+T> = Done(value: T, rest: Bytes) | Fail(error: ParseError) {
    predicate IsFailure() { Fail? }
    function PropagateFailure<U>(): Parsed<U> requires Fail? { Fail(error) }
    function Extract(): (T, Bytes) requires Done? { (value, rest) }
  }

  function Finish<T>(r: Result<T>, rest: Bytes): Parsed<T> {
    match r
    case Ok(v) => Done(v, rest)
    case Err(e) => Fail(e)
  }

  // ---------------------------------------------------------------- media lengths

  predicate IsDigit(b: Byte) { 0x30 <= b <= 0x39 }

  predicate AllDigits(s: Bytes) {
    s != [] && forall i :: 0 <= i < |s| ==> IsDigit(s[i])
  }

  function DigitAt(b: Byte): nat
    requires IsDigit(b)
  {
    b - 0x30
  }

  function DecimalValue(s: Bytes): (n: nat)
    requires forall i :: 0 <= i < |s| ==> IsDigit(s[i])
  {
    if s == [] then 0 else 10 * DecimalValue(s[..|s| - 1]) + DigitAt(s[|s| - 1])
  }

  /** strconv.Atoi: an optional sign, decimal digits, and the 64-bit range. */
  function Atoi(s: Bytes): Option<int> {
    var signed := s != [] && (s[0] == 0x2B || s[0] == 0x2D);
    var digits := if signed then s[1..] else s;
    if !AllDigits(digits) then None
    else
      var magnitude: int := DecimalValue(digits);
      var n := if signed && s[0] == 0x2D then -magnitude else magnitude;
      if -TWO_63 <= n < TWO_63 then Some(n) else None
  }

  function Wrap64(x: int): (r: int)
    ensures -TWO_63 <= r < TWO_63
  {
    (x + TWO_63) % TWO_64 - TWO_63
  }

  /** strings.Split(s, ":"). */
  function SplitColons(s: Bytes): (parts: seq<Bytes>)
    ensures parts != []
    ensures |parts| == 1 <==> COLON !in s
  {
    if s == [] then [[]]
    else
      var parts := SplitColons(s[1..]);
      assert s == [s[0]] + s[1..];
      if s[0] == COLON then [[]] + parts else [[s[0]] + parts[0]] + parts[1..]
  }

  /** The parts folded as base-60 digits in 64-bit arithmetic. */
  function FoldSixty(parts: seq<Bytes>, total: int): Result<int> {
    if parts == [] then Ok(total)
    else
      var number := Atoi(parts[0]);
      if number.None? || number.value < 0 then Err(BadMediaLength)
      else FoldSixty(parts[1..], Wrap64(total * 60 + number.value))
  }

  function ParseMediaLength(lib: Library, raw: Bytes): Result<int> {
    var value := lib.trim(raw);
    if value == [] then Err(BadMediaLength)
    else if COLON !in value then
      var seconds := Atoi(value);
      if seconds.None? || seconds.value < 0 then Err(BadMediaLength) else Ok(seconds.value)
    else
      var parts := SplitColons(value);
      if !(2 <= |parts| <= 3) then Err(BadMediaLength) else FoldSixty(parts, 0)
  }

  // ---------------------------------------------------------------- from terms to expressions

  const CODEC: Bytes := [0x63, 0x6F, 0x64, 0x65, 0x63]
  const LENGTH: Bytes := [0x6C, 0x65, 0x6E, 0x67, 0x74, 0x68]
  const BITRATE: Bytes := [0x62, 0x69, 0x74, 0x72, 0x61, 0x74, 0x65]

  predicate MatchesName(lib: Library, tag: TagRef, name: Bytes) {
    tag.ByName? && lib.fold(tag.name, name)
  }

  function MakeKeyword(lib: Library, raw: Bytes): Expr {
    var value := lib.trim(raw);
    if value == [] then MatchAll else Keyword(value)
  }

  function MakeStringTag(lib: Library, raw: Bytes, tag: TagRef): Result<Expr> {
    var value := lib.trim(raw);
    if value == [] then Ok(MatchAll)
    else if tag == ById(FT_FILE_TYPE) then Ok(StringTag(FT_FILE_TYPE, value))
    else if tag == ById(FT_FILE_FORMAT) then Ok(StringTag(FT_FILE_FORMAT, value))
    else if tag == ById(FT_MEDIA_CODEC) || MatchesName(lib, tag, CODEC) then Ok(StringTag(FT_MEDIA_CODEC, value))
    else if tag == ById(FT_MEDIA_LENGTH) || MatchesName(lib, tag, LENGTH) then
      var seconds :- ParseMediaLength(lib, value);
      Ok(Numeric(FT_MEDIA_LENGTH, OP_EQUAL, seconds % TWO_64))
    else Err(UnsupportedTag(tag))
  }

  function MakeNumericTag(lib: Library, number: UInt64, operator: Byte, tag: TagRef): Result<Expr> {
    if tag == ById(FT_FILE_SIZE) then Ok(Numeric(FT_FILE_SIZE, operator, number))
    else if tag == ById(FT_SOURCES) then Ok(Numeric(FT_SOURCES, operator, number))
    else if tag == ById(FT_COMPLETE_SOURCES) then Ok(Numeric(FT_COMPLETE_SOURCES, operator, number))
    else if tag == ById(FT_MEDIA_BITRATE) || MatchesName(lib, tag, BITRATE) then Ok(Numeric(FT_MEDIA_BITRATE, operator, number))
    else if tag == ById(FT_MEDIA_LENGTH) || MatchesName(lib, tag, LENGTH) then Ok(Numeric(FT_MEDIA_LENGTH, operator, number))
    else Err(UnsupportedTag(tag))
  }

  // ---------------------------------------------------------------- reading

  function TakeBytes(s: Bytes, n: nat): Parsed<Bytes> {
    if n <= |s| then Done(s[..n], s[n..]) else Fail(UnexpectedEnd)
  }

  function TakeByte(s: Bytes): Parsed<Byte> {
    if s == [] then Fail(UnexpectedEnd) else Done(s[0], s[1..])
  }

  function TakeUInt(s: Bytes, width: nat): Parsed<nat> {
    if width <= |s| then Done(ReadLE(s[..width]), s[width..]) else Fail(UnexpectedEnd)
  }

  function TakeUInt64(s: Bytes, width: nat): Parsed<UInt64>
    requires width == 4 || width == 8
  {
    var (n, rest) :- TakeUInt(s, width);
    ReadLEBound(s[..width]);
    assert Pow256(8) == TWO_64 && Pow256(4) == 0x1_0000_0000 by { PowersOf256(); }
    Done(n, rest)
  }

  lemma PowersOf256()
    ensures Pow256(2) == 0x1_0000 && Pow256(4) == 0x1_0000_0000 && Pow256(8) == TWO_64
  {
    assert Pow256(1) == 256;
    assert Pow256(2) == 256 * Pow256(1);
    assert Pow256(3) == 256 * Pow256(2);
    assert Pow256(4) == 256 * Pow256(3);
    assert Pow256(5) == 256 * Pow256(4);
    assert Pow256(6) == 256 * Pow256(5);
    assert Pow256(7) == 256 * Pow256(6);
    assert Pow256(8) == 256 * Pow256(7);
  }

  /** A string with a 16-bit length, trimmed. */
  function TakeString(lib: Library, s: Bytes): Parsed<Bytes> {
    var (size, rest) :- TakeUInt(s, 2);
    var (raw, rest') :- TakeBytes(rest, size);
    Done(lib.trim(raw), rest')
  }

  function TakeTagRef(lib: Library, s: Bytes): Parsed<TagRef> {
    var (value, rest) :- TakeString(lib, s);
    if |value| == 1 then Done(ById(value[0]), rest)
    else if value == [] then Fail(EmptyTag)
    else Done(ByName(value), rest)
  }

  function TakeLegacyTagID(s: Bytes): Parsed<Byte> {
    var (count, rest) :- TakeUInt(s, 2);
    if count != 1 then Fail(BadTagCount(count)) else TakeByte(rest)
  }

  function PrefixNumeric(lib: Library, number: UInt64, s: Bytes): Parsed<Expr> {
    var (operator, rest) :- TakeByte(s);
    if operator > OP_NOT_EQUAL then Fail(BadNumericOperator(operator))
    else
      var (tag, rest') :- TakeTagRef(lib, rest);
      Finish(MakeNumericTag(lib, number, operator, tag), rest')
  }

  /** One term of the prefix encoding after its type byte. */
  function PrefixTerm(lib: Library, termType: Byte, s: Bytes): (p: Parsed<Expr>)
    ensures p.Done? ==> |p.rest| <= |s|
  {
    if termType == TYPE_STRING then
      var (value, rest) :- TakeString(lib, s);
      Done(MakeKeyword(lib, value), rest)
    else if termType == TYPE_STR_TAG then
      var (value, rest) :- TakeString(lib, s);
      var (tag, rest') :- TakeTagRef(lib, rest);
      Finish(MakeStringTag(lib, value, tag), rest')
    else if termType == TYPE_UINT32 then
      var (number, rest) :- TakeUInt64(s, 4);
      PrefixNumeric(lib, number, rest)
    else if termType == TYPE_UINT64 then
      var (number, rest) :- TakeUInt64(s, 8);
      PrefixNumeric(lib, number, rest)
    else Fail(BadTermType(termType))
  }

  /** The recursive-prefix parser from the front of s. */
  function PrefixExpr(lib: Library, s: Bytes, depth: nat, maxDepth: int): (p: Parsed<Expr>)
    ensures p.Done? ==> |p.rest| < |s|
    decreases |s|
  {
    if depth > maxDepth then Fail(TooDeep)
    else
      var (termType, rest) :- TakeByte(s);
      if termType == TYPE_BOOL then
        var (operator, rest) :- TakeByte(rest);
        if operator > BOOL_NOT_AND then Fail(BadBooleanOperator(operator))
        else
          var (left, rest) :- PrefixExpr(lib, rest, depth + 1, maxDepth);
          var (right, rest) :- PrefixExpr(lib, rest, depth + 1, maxDepth);
          Done(Compound(operator, left, right), rest)
      else PrefixTerm(lib, termType, rest)
  }

  function PrefixRequest(lib: Library, body: Bytes, maxDepth: int): Result<Expr> {
    match PrefixExpr(lib, body, 0, maxDepth)
    case Fail(e) => Err(e)
    case Done(root, rest) => if rest != [] then Err(TrailingPayload(|rest|)) else Ok(root)
  }

  function LegacyNumeric(lib: Library, number: UInt64, s: Bytes): Parsed<Expr> {
    var (operator, rest) :- TakeByte(s);
    if operator > OP_NOT_EQUAL then Fail(BadNumericOperator(operator))
    else
      var (id, rest') :- TakeLegacyTagID(rest);
      Finish(MakeNumericTag(lib, number, operator, ById(id)), rest')
  }

  /** One term of the linear encoding. */
  function LegacyTerm(lib: Library, s: Bytes): (p: Parsed<Expr>)
    ensures p.Done? ==> |p.rest| < |s|
  {
    var (termType, rest) :- TakeByte(s);
    if termType == TYPE_STRING then
      var (value, rest) :- TakeString(lib, rest);
      Done(MakeKeyword(lib, value), rest)
    else if termType == TYPE_STR_TAG then
      var (value, rest) :- TakeString(lib, rest);
      var (id, rest') :- TakeLegacyTagID(rest);
      Finish(MakeStringTag(lib, value, ById(id)), rest')
    else if termType == TYPE_UINT32 then
      var (number, rest) :- TakeUInt64(rest, 4);
      LegacyNumeric(lib, number, rest)
    else if termType == TYPE_UINT64 then
      var (number, rest) :- TakeUInt64(rest, 8);
      LegacyNumeric(lib, number, rest)
    else Fail(BadTermType(termType))
  }

  /** The linear parser after root has been read: every further operator and term is folded in on the left. */
  function LegacyTail(lib: Library, root: Expr, s: Bytes): Result<Expr>
    decreases |s|
  {
    if s == [] then Ok(root)
    else if s[0] != TYPE_BOOL then Err(BadMarker(s[0]))
    else if |s| == 1 then Err(UnexpectedEnd)
    else if s[1] > BOOL_NOT_AND then Err(BadBooleanOperator(s[1]))
    else
      match LegacyTerm(lib, s[2..])
      case Fail(e) => Err(e)
      case Done(next, rest) => LegacyTail(lib, Compound(s[1], root, next), rest)
  }

  function LegacyRequest(lib: Library, body: Bytes): Result<Expr> {
    match LegacyTerm(lib, body)
    case Fail(e) => Err(e)
    case Done(root, rest) => LegacyTail(lib, root, rest)
  }

  /** The whole decoder: empty means everything, then the prefix encoding, then the linear one. */
  function DecodeRequest(lib: Library, body: Bytes, maxDepth: int): Result<Expr> {
    if body == [] then Ok(MatchAll)
    else
      match PrefixRequest(lib, body, EffectiveDepth(maxDepth))
      case Ok(root) => Ok(root)
      case Err(prefixError) =>
        match LegacyRequest(lib, body)
        case Ok(root) => Ok(root)
        case Err(legacyError) => Err(BothFailed(prefixError, legacyError))
  }

  /** The query a request stands for. An empty request is left unsummarised. */
  function RequestQuery(lib: Library, body: Bytes, maxDepth: int): Result<SearchQuery> {
    var root :- DecodeRequest(lib, body, maxDepth);
    Ok(if body == [] then SearchQuery(Some(MatchAll), EMPTY_SUMMARY, false) else QueryOf(root))
  }

  function EffectiveDepth(maxDepth: int): (d: int)
    ensures d > 0
  {
    if maxDepth <= 0 then DEFAULT_MAX_DEPTH else maxDepth
  }

  // ---------------------------------------------------------------- syntax trees

  /** A term as it stands on the wire, its strings not yet trimmed. */
  datatype Term =
    | KeywordTerm(raw: Bytes)
    | StringTerm(raw: Bytes, tag: Bytes)
    | NumberTerm(wide: bool, number: UInt64, operator: Byte, tag: Bytes)

  datatype Tree = Leaf(term: Term) | Node(operator: Byte, left: Tree, right: Tree)

  predicate WellFormedTerm(t: Term) {
    match t
    case KeywordTerm(raw) => |raw| <= 0xFFFF
    case StringTerm(raw, tag) => |raw| <= 0xFFFF && |tag| <= 0xFFFF
    case NumberTerm(wide, number, _, tag) => |tag| <= 0xFFFF && (!wide ==> number < 0x1_0000_0000)
  }

  predicate WellFormed(t: Tree) {
    match t
    case Leaf(term) => WellFormedTerm(term)
    case Node(_, l, r) => WellFormed(l) && WellFormed(r)
  }

  function Max(a: nat, b: nat): nat { if a < b then b else a }

  function Height(t: Tree): nat {
    match t
    case Leaf(_) => 0
    case Node(_, l, r) => 1 + Max(Height(l), Height(r))
  }

  function StringBytes(raw: Bytes): Bytes {
    WriteLE(|raw|, 2) + raw
  }

  function Width(wide: bool): nat { if wide then 8 else 4 }

  function TermBytes(t: Term): (s: Bytes)
    ensures |s| > 0
  {
    match t
    case KeywordTerm(raw) => [TYPE_STRING] + StringBytes(raw)
    case StringTerm(raw, tag) => [TYPE_STR_TAG] + StringBytes(raw) + StringBytes(tag)
    case NumberTerm(wide, number, operator, tag) =>
      [if wide then TYPE_UINT64 else TYPE_UINT32] + WriteLE(number, Width(wide)) + [operator] + StringBytes(tag)
  }

  function TreeBytes(t: Tree): (s: Bytes)
    ensures |s| > 0
  {
    match t
    case Leaf(term) => TermBytes(term)
    case Node(operator, l, r) => [TYPE_BOOL, operator] + TreeBytes(l) + TreeBytes(r)
  }

  function TagOf(lib: Library, tag: Bytes): Result<TagRef> {
    var value := lib.trim(tag);
    if |value| == 1 then Ok(ById(value[0]))
    else if value == [] then Err(EmptyTag)
    else Ok(ByName(value))
  }

  /** The expression a term stands for. */
  function TermMeaning(lib: Library, t: Term): Result<Expr> {
    match t
    case KeywordTerm(raw) => Ok(MakeKeyword(lib, lib.trim(raw)))
    case StringTerm(raw, tag) =>
      var ref :- TagOf(lib, tag);
      MakeStringTag(lib, lib.trim(raw), ref)
    case NumberTerm(_, number, operator, tag) =>
      if operator > OP_NOT_EQUAL then Err(BadNumericOperator(operator))
      else
        var ref :- TagOf(lib, tag);
        MakeNumericTag(lib, number, operator, ref)
  }

  function Meaning(lib: Library, t: Tree): Result<Expr> {
    match t
    case Leaf(term) => TermMeaning(lib, term)
    case Node(operator, l, r) =>
      if operator > BOOL_NOT_AND then Err(BadBooleanOperator(operator))
      else
        var left :- Meaning(lib, l);
        var right :- Meaning(lib, r);
        Ok(Compound(operator, left, right))
  }
}
