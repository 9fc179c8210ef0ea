/**
 Decoded search queries: the expression tree, its evaluation against a record, and the summary that
 drives the catalog's index.
 */
module SearchQueries {
  import opened Basics
  import opened Library
  import opened Records

  const TWO_64: int := 0x1_0000_0000_0000_0000
  const TWO_63: int := 0x8000_0000_0000_0000

  type UInt64 = x: int | 0 <= x < 0x1_0000_0000_0000_0000

  const BOOL_AND: Byte := 0
  const BOOL_OR: Byte := 1
  const BOOL_AND_NOT: Byte := 2
  const BOOL_XOR: Byte := 3
  const BOOL_NOT_AND: Byte := 4

  const OP_EQUAL: Byte := 0
  const OP_GREATER: Byte := 1
  const OP_LESS: Byte := 2
  const OP_GREATER_EQUAL: Byte := 3
  const OP_LESS_EQUAL: Byte := 4
  const OP_NOT_EQUAL: Byte := 5

  datatype Expr =
    | Compound(operator: Byte, left: Expr, right: Expr)
    | Keyword(value: Bytes)
    | StringTag(tagID: Byte, text: Bytes)
    | Numeric(tagID: Byte, operator: Byte, number: UInt64)
    | MatchAll
    | MatchNone

  /** The filters collected from a tree. Zero and the empty string mean that the filter is unset. */
  datatype Summary = Summary(
    keywords: seq<Bytes>,
    minSize: int,
    maxSize: int,
    minSources: int,
    minCompleteSources: int,
    fileType: Bytes,
    extension: Bytes,
    mediaCodec: Bytes,
    minMediaLength: int,
    maxMediaLength: int,
    minMediaBitrate: int,
    maxMediaBitrate: int)

  const EMPTY_SUMMARY := Summary([], 0, 0, 0, 0, [], [], [], 0, 0, 0, 0)

  datatype SearchQuery = SearchQuery(root: Option<Expr>, summary: Summary, summarized: bool)

  /** The conversions int64(v) and int(v) of an unsigned 64-bit value. */
  function ToInt64(v: UInt64): (r: int)
    ensures -TWO_63 <= r < TWO_63
    ensures (r - v) % TWO_64 == 0
  {
    if v < TWO_63 then v else v - TWO_64
  }

  // ---------------------------------------------------------------- evaluation

  function Compare(left: int, operator: Byte, right: int): bool {
    if operator == OP_EQUAL then left == right
    else if operator == OP_GREATER then left > right
    else if operator == OP_LESS then left < right
    else if operator == OP_GREATER_EQUAL then left >= right
    else if operator == OP_LESS_EQUAL then left <= right
    else if operator == OP_NOT_EQUAL then left != right
    else false
  }

  const ED2K_PREFIX: Bytes := [0x65, 0x64, 0x32, 0x6B, 0x3A, 0x3A]

  /** What is left of a normalised keyword after an optional "ed2k::" is 32 hexadecimal digits. */
  predicate IsHashToken(normalized: Bytes) {
    var token := TrimPrefix(normalized, ED2K_PREFIX);
    |token| == 32 && IsLowerHex(token)
  }

  function Normalized(lib: Library, keyword: Bytes): Bytes {
    lib.lower(lib.trim(keyword))
  }

  predicate KeywordMatchesRecord(lib: Library, record: FileRecord, keyword: Bytes) {
    var normalized := Normalized(lib, keyword);
    || normalized == []
    || Contains(lib.lower(record.name), normalized)
    || (IsHashToken(normalized) && lib.fold(HashText(record.hash), TrimPrefix(normalized, ED2K_PREFIX)))
  }

  predicate Matches(lib: Library, e: Expr, record: FileRecord) {
    match e
    case Compound(operator, l, r) =>
      var left := Matches(lib, l, record);
      var right := Matches(lib, r, record);
      if operator == BOOL_AND then left && right
      else if operator == BOOL_OR then left || right
      else if operator == BOOL_AND_NOT then left && !right
      else if operator == BOOL_XOR then left != right
      else if operator == BOOL_NOT_AND then !left && right
      else false
    case Keyword(value) => KeywordMatchesRecord(lib, record, value)
    case StringTag(tagID, text) =>
      if tagID == FT_FILE_TYPE then lib.fold(record.fileType, text)
      else if tagID == FT_FILE_FORMAT then lib.fold(record.extension, TrimPrefix(text, [DOT]))
      else if tagID == FT_MEDIA_CODEC then lib.fold(record.mediaCodec, text)
      else false
    case Numeric(tagID, operator, number) =>
      var value := ToInt64(number);
      if tagID == FT_FILE_SIZE then Compare(record.size, operator, value)
      else if tagID == FT_SOURCES then Compare(record.sources, operator, value)
      else if tagID == FT_COMPLETE_SOURCES then Compare(record.completeSources, operator, value)
      else if tagID == FT_MEDIA_LENGTH then Compare(record.mediaLength, operator, value)
      else if tagID == FT_MEDIA_BITRATE then Compare(record.mediaBitrate, operator, value)
      else false
    case MatchAll => true
    case MatchNone => false
  }

  /** The flat form of a query: every filter of the summary in turn. */
  predicate MatchesLegacySearch(lib: Library, record: FileRecord, q: Summary) {
    && (q.fileType != [] ==> lib.fold(record.fileType, q.fileType))
    && (q.extension != [] ==> lib.fold(record.extension, TrimPrefix(q.extension, [DOT])))
    && (q.mediaCodec != [] ==> lib.fold(record.mediaCodec, q.mediaCodec))
    && (q.minSize > 0 ==> record.size >= q.minSize)
    && (q.maxSize > 0 ==> record.size <= q.maxSize)
    && (q.minSources > 0 ==> record.sources >= q.minSources)
    && (q.minCompleteSources > 0 ==> record.completeSources >= q.minCompleteSources)
    && (q.minMediaLength > 0 ==> record.mediaLength >= q.minMediaLength)
    && (q.maxMediaLength > 0 ==> record.mediaLength <= q.maxMediaLength)
    && (q.minMediaBitrate > 0 ==> record.mediaBitrate >= q.minMediaBitrate)
    && (q.maxMediaBitrate > 0 ==> record.mediaBitrate <= q.maxMediaBitrate)
    && (forall i :: 0 <= i < |q.keywords| ==> KeywordMatchesRecord(lib, record, q.keywords[i]))
  }

  predicate QueryMatches(lib: Library, query: SearchQuery, record: FileRecord) {
    match query.root
    case Some(root) => Matches(lib, root, record)
    case None => MatchesLegacySearch(lib, record, query.summary)
  }

  /** Where a file can be fetched from plays no part in whether it matches. */
  lemma {:induction false} EndpointsDoNotMatter(lib: Library, e: Expr, a: FileRecord, b: FileRecord)
    requires a.(endpoints := []) == b.(endpoints := [])
    ensures Matches(lib, e, a) == Matches(lib, e, b)
  {
    match e
    case Compound(_, l, r) =>
      EndpointsDoNotMatter(lib, l, a, b);
      EndpointsDoNotMatter(lib, r, a, b);
    case _ =>
  }

  // ---------------------------------------------------------------- the summary

  /** A lower and an upper bound after one more comparison, as (min, max). */
  function RangeSummary(minValue: int, maxValue: int, operator: Byte, value: int): (int, int) {
    if operator == OP_EQUAL then (value, value)
    else if operator == OP_GREATER || operator == OP_GREATER_EQUAL then
      (if minValue == 0 || value > minValue then value else minValue, maxValue)
    else if operator == OP_LESS || operator == OP_LESS_EQUAL then
      (minValue, if maxValue == 0 || value < maxValue then value else maxValue)
    else (minValue, maxValue)
  }

  function MinSummary(minValue: int, operator: Byte, value: int): int {
    if operator in {OP_EQUAL, OP_GREATER, OP_GREATER_EQUAL} && value > minValue then value else minValue
  }

  /** What a pair of bounds lets through. A bound of zero or less is unset. */
  predicate InBounds(v: int, bounds: (int, int)) {
    && (bounds.0 > 0 ==> v >= bounds.0)
    && (bounds.1 > 0 ==> v <= bounds.1)
  }

  /**
   A value within the bounds that also satisfies the comparison is within the new bounds. Between bounds that
   are not negative, a positive limit moves them exactly: equality replaces them, the other operators
   narrow them to their side with the limit itself still let through, inequality leaves them.
   */
  lemma RangeSummaryAdmits(v: int, minValue: int, maxValue: int, operator: Byte, value: int)
    ensures InBounds(v, (minValue, maxValue)) && Compare(v, operator, value) ==>
              InBounds(v, RangeSummary(minValue, maxValue, operator, value))
    ensures value > 0 && minValue >= 0 && maxValue >= 0 ==>
              (InBounds(v, RangeSummary(minValue, maxValue, operator, value)) <==>
                if operator == OP_EQUAL then v == value
                else
                  && InBounds(v, (minValue, maxValue))
                  && (operator in {OP_GREATER, OP_GREATER_EQUAL} ==> v >= value)
                  && (operator in {OP_LESS, OP_LESS_EQUAL} ==> v <= value))
  {
  }

  /** The same for a lower bound alone, which equality only raises. */
  lemma MinSummaryAdmits(v: int, minValue: int, operator: Byte, value: int)
    ensures InBounds(v, (minValue, 0)) && Compare(v, operator, value) ==> InBounds(v, (MinSummary(minValue, operator, value), 0))
    ensures value > 0 ==>
              (InBounds(v, (MinSummary(minValue, operator, value), 0)) <==>
                && InBounds(v, (minValue, 0))
                && (operator in {OP_EQUAL, OP_GREATER, OP_GREATER_EQUAL} ==> v >= value))
  {
  }

  /** The summary after collecting e into q, and whether all of e could be summarised. */
  function Collected(e: Expr, q: Summary): (Summary, bool) {
    match e
    case Compound(operator, l, r) =>
      if operator != BOOL_AND then (q, false)
      else
        var left := Collected(l, q);
        var right := Collected(r, left.0);
        (right.0, left.1 && right.1)
    case Keyword(value) => (q.(keywords := q.keywords + [value]), true)
    case StringTag(tagID, text) =>
      if tagID == FT_FILE_TYPE then (q.(fileType := text), true)
      else if tagID == FT_FILE_FORMAT then (q.(extension := TrimPrefix(text, [DOT])), true)
      else if tagID == FT_MEDIA_CODEC then (q.(mediaCodec := text), true)
      else (q, false)
    case Numeric(tagID, operator, number) =>
      var value := ToInt64(number);
      if tagID == FT_FILE_SIZE then
        var range := RangeSummary(q.minSize, q.maxSize, operator, value);
        (q.(minSize := range.0, maxSize := range.1), true)
      else if tagID == FT_SOURCES then
        (q.(minSources := MinSummary(q.minSources, operator, value)), true)
      else if tagID == FT_COMPLETE_SOURCES then
        (q.(minCompleteSources := MinSummary(q.minCompleteSources, operator, value)), true)
      else if tagID == FT_MEDIA_LENGTH then
        var range := RangeSummary(q.minMediaLength, q.maxMediaLength, operator, value);
        (q.(minMediaLength := range.0, maxMediaLength := range.1), true)
      else if tagID == FT_MEDIA_BITRATE then
        var range := RangeSummary(q.minMediaBitrate, q.maxMediaBitrate, operator, value);
        (q.(minMediaBitrate := range.0, maxMediaBitrate := range.1), true)
      else (q, false)
    case MatchAll => (q, true)
    case MatchNone => (q, false)
  }

  function QueryOf(root: Expr): SearchQuery {
    SearchQuery(Some(root), Collected(root, EMPTY_SUMMARY).0, Collected(root, EMPTY_SUMMARY).1)
  }

  /** The query under construction whose summary the tree walk fills in. */
  class QueryBuilder {
    var summary: Summary

    constructor ()
      ensures summary == EMPTY_SUMMARY
    {
      summary := EMPTY_SUMMARY;
    }
  }

  method ApplyRangeSummary(minValue: int, maxValue: int, operator: Byte, value: int) returns (lo: int, hi: int)
    ensures (lo, hi) == RangeSummary(minValue, maxValue, operator, value)
  {
    lo, hi := minValue, maxValue;
    if operator == OP_EQUAL {
      lo := value;
      hi := value;
    } else if operator == OP_GREATER || operator == OP_GREATER_EQUAL {
      if lo == 0 || value > lo {
        lo := value;
      }
    } else if operator == OP_LESS || operator == OP_LESS_EQUAL {
      if hi == 0 || value < hi {
        hi := value;
      }
    }
  }

  method ApplyMinSummary(minValue: int, operator: Byte, value: int) returns (lo: int)
    ensures lo == MinSummary(minValue, operator, value)
  {
    lo := minValue;
    if operator == OP_EQUAL || operator == OP_GREATER || operator == OP_GREATER_EQUAL {
      if value > lo {
        lo := value;
      }
    }
  }

  method CollectSummary(e: Expr, query: QueryBuilder) returns (ok: bool)
    modifies query
    ensures (query.summary, ok) == Collected(e, old(query.summary))
    decreases e
  {
    match e
    case Compound(operator, l, r) =>
      if operator != BOOL_AND {
        return false;
      }
      var leftOK := CollectSummary(l, query);
      var rightOK := CollectSummary(r, query);
      return leftOK && rightOK;
    case Keyword(value) =>
      query.summary := query.summary.(keywords := query.summary.keywords + [value]);
      return true;
    case StringTag(tagID, text) =>
      if tagID == FT_FILE_TYPE {
        query.summary := query.summary.(fileType := text);
      } else if tagID == FT_FILE_FORMAT {
        query.summary := query.summary.(extension := TrimPrefix(text, [DOT]));
      } else if tagID == FT_MEDIA_CODEC {
        query.summary := query.summary.(mediaCodec := text);
      } else {
        return false;
      }
      return true;
    case Numeric(tagID, operator, number) =>
      ok := CollectNumeric(tagID, operator, ToInt64(number), query);
      assert (query.summary, ok) == Collected(e, old(query.summary));
    case MatchAll => return true;
    case MatchNone => return false;
  }

  method CollectNumeric(tagID: Byte, operator: Byte, value: int, query: QueryBuilder) returns (ok: bool)
    modifies query
    ensures forall number: UInt64 ::
              ToInt64(number) == value ==>
                (query.summary, ok) == Collected(Numeric(tagID, operator, number), old(query.summary))
  {
    var lo, hi;
    if tagID == FT_FILE_SIZE {
      lo, hi := ApplyRangeSummary(query.summary.minSize, query.summary.maxSize, operator, value);
      query.summary := query.summary.(minSize := lo, maxSize := hi);
    } else if tagID == FT_SOURCES {
      lo := ApplyMinSummary(query.summary.minSources, operator, value);
      query.summary := query.summary.(minSources := lo);
    } else if tagID == FT_COMPLETE_SOURCES {
      lo := ApplyMinSummary(query.summary.minCompleteSources, operator, value);
      query.summary := query.summary.(minCompleteSources := lo);
    } else if tagID == FT_MEDIA_LENGTH {
      lo, hi := ApplyRangeSummary(query.summary.minMediaLength, query.summary.maxMediaLength, operator, value);
      query.summary := query.summary.(minMediaLength := lo, maxMediaLength := hi);
    } else if tagID == FT_MEDIA_BITRATE {
      lo, hi := ApplyRangeSummary(query.summary.minMediaBitrate, query.summary.maxMediaBitrate, operator, value);
      query.summary := query.summary.(minMediaBitrate := lo, maxMediaBitrate := hi);
    } else {
      return false;
    }
    return true;
  }

  method MakeSearchQuery(root: Expr) returns (query: SearchQuery)
    ensures query == QueryOf(root)
  {
    var builder := new QueryBuilder();
    var summarized := CollectSummary(root, builder);
    query := SearchQuery(Some(root), builder.summary, summarized);
  }

  // ---------------------------------------------------------------- what the summary promises

  /** Every operator of the tree is AND and every leaf is of a kind the summary knows. */
  predicate PureAnd(e: Expr) {
    match e
    case Compound(operator, l, r) => operator == BOOL_AND && PureAnd(l) && PureAnd(r)
    case StringTag(tagID, _) => tagID in {FT_FILE_TYPE, FT_FILE_FORMAT, FT_MEDIA_CODEC}
    case Numeric(tagID, _, _) =>
      tagID in {FT_FILE_SIZE, FT_SOURCES, FT_COMPLETE_SOURCES, FT_MEDIA_LENGTH, FT_MEDIA_BITRATE}
    case Keyword(_) => true
    case MatchAll => true
    case MatchNone => false
  }

  /** The keyword leaves from left to right. */
  function KeywordLeaves(e: Expr): seq<Bytes> {
    match e
    case Compound(_, l, r) => KeywordLeaves(l) + KeywordLeaves(r)
    case Keyword(value) => [value]
    case _ => []
  }

  lemma {:induction false} CollectsExactlyPureAnd(e: Expr, q: Summary)
    ensures Collected(e, q).1 <==> PureAnd(e)
    ensures PureAnd(e) ==> Collected(e, q).0.keywords == q.keywords + KeywordLeaves(e)
  {
    match e
    case Compound(operator, l, r) =>
      if operator == BOOL_AND {
        CollectsExactlyPureAnd(l, q);
        CollectsExactlyPureAnd(r, Collected(l, q).0);
      }
    case _ =>
  }

  /** A query is summarised exactly when its tree is a pure conjunction, and then lists its keyword leaves in order. */
  lemma SummarizedIffPureAnd(root: Expr)
    ensures QueryOf(root).summarized <==> PureAnd(root)
    ensures PureAnd(root) ==> QueryOf(root).summary.keywords == KeywordLeaves(root)
  {
    CollectsExactlyPureAnd(root, EMPTY_SUMMARY);
  }

  /** The record meets every filter collected so far, reading the extension as it stands. */
  ghost predicate Meets(lib: Library, record: FileRecord, q: Summary) {
    && (q.extension != [] ==> lib.fold(record.extension, q.extension))
    && MatchesLegacySearch(lib, record, q.(extension := []))
  }

  lemma {:induction false} CollectingKeepsMeets(lib: Library, e: Expr, q: Summary, record: FileRecord)
    requires Matches(lib, e, record) && Meets(lib, record, q) && Collected(e, q).1
    ensures Meets(lib, record, Collected(e, q).0)
  {
    match e
    case Compound(operator, l, r) =>
      CollectingKeepsMeets(lib, l, q, record);
      CollectingKeepsMeets(lib, r, Collected(l, q).0, record);
    case _ =>
  }

  /** The value of the right-most file-extension leaf, which is the one the summary keeps. */
  function LastExtension(e: Expr): Option<Bytes> {
    match e
    case Compound(_, l, r) => if LastExtension(r).Some? then LastExtension(r) else LastExtension(l)
    case StringTag(tagID, text) => if tagID == FT_FILE_FORMAT then Some(text) else None
    case _ => None
  }

  lemma {:induction false} CollectsLastExtension(e: Expr, q: Summary)
    requires PureAnd(e)
    ensures Collected(e, q).0.extension ==
            if LastExtension(e).Some? then TrimPrefix(LastExtension(e).value, [DOT]) else q.extension
  {
    match e
    case Compound(_, l, r) =>
      CollectsLastExtension(l, q);
      CollectsLastExtension(r, Collected(l, q).0);
    case _ =>
  }

  /** The right-most extension filter of the tree begins with two dots. */
  predicate EndsInDoubleDot(e: Expr) {
    LastExtension(e).Some? && HasPrefix(LastExtension(e).value, [DOT, DOT])
  }

  /** Every keyword of a summarised query is required. */
  lemma KeywordsRequired(lib: Library, root: Expr, record: FileRecord)
    requires Matches(lib, root, record) && QueryOf(root).summarized
    ensures forall i :: 0 <= i < |QueryOf(root).summary.keywords| ==>
              KeywordMatchesRecord(lib, record, QueryOf(root).summary.keywords[i])
  {
    var q := QueryOf(root).summary;
    assert Meets(lib, record, EMPTY_SUMMARY);
    CollectingKeepsMeets(lib, root, EMPTY_SUMMARY, record);
    assert q.(extension := []).keywords == q.keywords;
  }

  /**
   The whole summary is a necessary condition for the tree exactly as long as the right-most extension
   filter does not begin with two dots: the summary strips one leading dot from the extension and the
   flat filter strips another one from what is left.
   */
  lemma SummarySound(lib: Library, root: Expr, record: FileRecord)
    requires LawfulFold(lib)
    requires Matches(lib, root, record) && QueryOf(root).summarized
    ensures MatchesLegacySearch(lib, record, QueryOf(root).summary) <==> !EndsInDoubleDot(root)
  {
    var q := QueryOf(root).summary;
    assert Meets(lib, record, EMPTY_SUMMARY);
    CollectingKeepsMeets(lib, root, EMPTY_SUMMARY, record);
    CollectsExactlyPureAnd(root, EMPTY_SUMMARY);
    CollectsLastExtension(root, EMPTY_SUMMARY);
    assert q.(extension := []).keywords == q.keywords;
    if LastExtension(root).Some? {
      assert HasPrefix(q.extension, [DOT]) <==> EndsInDoubleDot(root) by {
        DoubleDotSplits(LastExtension(root).value);
      }
    }
    if HasPrefix(q.extension, [DOT]) {
      var rest := TrimPrefix(q.extension, [DOT]);
      assert q.extension == [DOT] + rest;
      assert !lib.fold(q.extension, rest);
      assert lib.fold(q.extension, record.extension);
    }
  }

  lemma DoubleDotSplits(s: Bytes)
    ensures HasPrefix(TrimPrefix(s, [DOT]), [DOT]) <==> HasPrefix(s, [DOT, DOT])
  {
    if HasPrefix(s, [DOT]) {
      assert s == [DOT] + s[1..];
      if HasPrefix(s[1..], [DOT]) {
        assert s == [DOT, DOT] + s[2..];
      }
    }
  }

  /** The doubled strip on a concrete query: extension "..x" finds the record whose extension is ".x", the flat form does not. */
  lemma DoubledDotIsLost(record: FileRecord)
    requires record.extension == [DOT, 0x78]
    ensures var root := StringTag(FT_FILE_FORMAT, [DOT, DOT, 0x78]);
            && Matches(AsciiLibrary(), root, record)
            && QueryOf(root).summarized
            && !MatchesLegacySearch(AsciiLibrary(), record, QueryOf(root).summary)
  {
    var root := StringTag(FT_FILE_FORMAT, [DOT, DOT, 0x78]);
    var text: Bytes := [DOT, DOT, 0x78];
    assert [DOT] <= text && text[1..] == [DOT, 0x78];
    assert [DOT, DOT] <= text;
    LawsAreConsistent();
    SummarySound(AsciiLibrary(), root, record);
  }
}
