/** The summary of a query field by field: what is collected from which leaves, and what each filter lets through. */
module SummaryFields {
  import opened Basics
  import opened Library
  import opened Records
  import opened SearchQueries

  /** The leaves of a tree from left to right. */
  function Leaves(e: Expr): seq<Expr> {
    match e
    case Compound(_, l, r) => Leaves(l) + Leaves(r)
    case _ => [e]
  }

  /** The text of the last leaf with the tag, or what was there before. */
  function LastText(leaves: seq<Expr>, tag: Byte, before: Bytes): Bytes {
    if leaves == [] then before
    else
      var last := leaves[|leaves| - 1];
      if last.StringTag? && last.tagID == tag then last.text else LastText(leaves[..|leaves| - 1], tag, before)
  }

  /** The bounds after the comparisons of the leaves with the tag, in order. */
  function Narrowed(leaves: seq<Expr>, tag: Byte, bounds: (int, int)): (int, int) {
    if leaves == [] then bounds
    else
      var last := leaves[|leaves| - 1];
      var before := Narrowed(leaves[..|leaves| - 1], tag, bounds);
      if last.Numeric? && last.tagID == tag then RangeSummary(before.0, before.1, last.operator, ToInt64(last.number)) else before
  }

  /** The lower bound after the comparisons of the leaves with the tag, in order. */
  function Raised(leaves: seq<Expr>, tag: Byte, bound: int): int {
    if leaves == [] then bound
    else
      var last := leaves[|leaves| - 1];
      var before := Raised(leaves[..|leaves| - 1], tag, bound);
      if last.Numeric? && last.tagID == tag then MinSummary(before, last.operator, ToInt64(last.number)) else before
  }

  /**
   One more comparison moves a bound only on its own side, to the stricter of the two, or to the new one if there was
   none; equality moves both, and inequality neither.
   */
  lemma BoundsMove(bounds: (int, int), operator: Byte, limit: int)
    ensures var moved := RangeSummary(bounds.0, bounds.1, operator, limit);
            && (operator == 0 ==> moved == (limit, limit))
            && (operator in {1, 3} ==> moved.1 == bounds.1 && moved.0 in {bounds.0, limit}
                                       && (if bounds.0 == 0 then moved.0 == limit else moved.0 >= bounds.0 && moved.0 >= limit))
            && (operator in {2, 4} ==> moved.0 == bounds.0 && moved.1 in {bounds.1, limit}
                                       && (if bounds.1 == 0 then moved.1 == limit else moved.1 <= bounds.1 && moved.1 <= limit))
            && (operator >= 5 ==> moved == bounds)
  {
  }

  /** A lower bound alone only rises: to a limit above it, if the comparison is one from below or equality. */
  lemma BoundRises(bound: int, operator: Byte, limit: int)
    ensures var moved := MinSummary(bound, operator, limit);
            if operator in {0, 1, 3} then moved >= bound && moved >= limit && moved in {bound, limit} else moved == bound
  {
  }

  lemma {:induction false} LastTextSum(a: seq<Expr>, b: seq<Expr>, tag: Byte, before: Bytes)
    ensures LastText(a + b, tag, before) == LastText(b, tag, LastText(a, tag, before))
    decreases |b|
  {
    if b == [] {
      assert a + b == a;
    } else {
      LastTextSum(a, b[..|b| - 1], tag, before);
      assert (a + b)[..|a + b| - 1] == a + b[..|b| - 1];
    }
  }

  lemma {:induction false} NarrowedSum(a: seq<Expr>, b: seq<Expr>, tag: Byte, bounds: (int, int))
    ensures Narrowed(a + b, tag, bounds) == Narrowed(b, tag, Narrowed(a, tag, bounds))
    decreases |b|
  {
    if b == [] {
      assert a + b == a;
    } else {
      NarrowedSum(a, b[..|b| - 1], tag, bounds);
      assert (a + b)[..|a + b| - 1] == a + b[..|b| - 1];
    }
  }

  lemma {:induction false} RaisedSum(a: seq<Expr>, b: seq<Expr>, tag: Byte, bound: int)
    ensures Raised(a + b, tag, bound) == Raised(b, tag, Raised(a, tag, bound))
    decreases |b|
  {
    if b == [] {
      assert a + b == a;
    } else {
      RaisedSum(a, b[..|b| - 1], tag, bound);
      assert (a + b)[..|a + b| - 1] == a + b[..|b| - 1];
    }
  }

  /** Type and codec are those of the last leaf that asks for one. */
  lemma {:induction false} CollectsTexts(e: Expr, q: Summary)
    requires PureAnd(e)
    ensures Collected(e, q).0.fileType == LastText(Leaves(e), 0x03, q.fileType)
    ensures Collected(e, q).0.mediaCodec == LastText(Leaves(e), 0xD5, q.mediaCodec)
  {
    if e.Compound? {
      var l, r := e.left, e.right;
      CollectsTexts(l, q);
      CollectsTexts(r, Collected(l, q).0);
      LastTextSum(Leaves(l), Leaves(r), 0x03, q.fileType);
      LastTextSum(Leaves(l), Leaves(r), 0xD5, q.mediaCodec);
    } else {
      assert [e][..0] == [];
    }
  }

  /** Size, length and bitrate are bounded by the comparisons of their own leaves, in order. */
  lemma {:induction false} CollectsRanges(e: Expr, q: Summary)
    requires PureAnd(e)
    ensures var s := Collected(e, q).0;
            && (s.minSize, s.maxSize) == Narrowed(Leaves(e), 0x02, (q.minSize, q.maxSize))
            && (s.minMediaLength, s.maxMediaLength) == Narrowed(Leaves(e), 0xD3, (q.minMediaLength, q.maxMediaLength))
            && (s.minMediaBitrate, s.maxMediaBitrate) == Narrowed(Leaves(e), 0xD4, (q.minMediaBitrate, q.maxMediaBitrate))
  {
    if e.Compound? {
      var l, r := e.left, e.right;
      CollectsRanges(l, q);
      CollectsRanges(r, Collected(l, q).0);
      NarrowedSum(Leaves(l), Leaves(r), 0x02, (q.minSize, q.maxSize));
      NarrowedSum(Leaves(l), Leaves(r), 0xD3, (q.minMediaLength, q.maxMediaLength));
      NarrowedSum(Leaves(l), Leaves(r), 0xD4, (q.minMediaBitrate, q.maxMediaBitrate));
    } else {
      assert [e][..0] == [];
    }
  }

  /** The source counts are bounded from below by the comparisons of their own leaves, in order. */
  lemma {:induction false} CollectsMinima(e: Expr, q: Summary)
    requires PureAnd(e)
    ensures Collected(e, q).0.minSources == Raised(Leaves(e), 0x15, q.minSources)
    ensures Collected(e, q).0.minCompleteSources == Raised(Leaves(e), 0x30, q.minCompleteSources)
  {
    if e.Compound? {
      var l, r := e.left, e.right;
      CollectsMinima(l, q);
      CollectsMinima(r, Collected(l, q).0);
      RaisedSum(Leaves(l), Leaves(r), 0x15, q.minSources);
      RaisedSum(Leaves(l), Leaves(r), 0x30, q.minCompleteSources);
    } else {
      assert [e][..0] == [];
    }
  }

  /** The filter is set and the text equals it, letter case aside, or it is not set. */
  predicate TextPasses(lib: Library, text: Bytes, filter: Bytes) {
    filter == [] || lib.fold(text, filter)
  }

  /** A record passes the summary exactly when each of its fields passes the filters for that field, and every keyword finds it. */
  lemma SummaryFiltersFields(lib: Library, r: FileRecord, q: Summary)
    ensures MatchesLegacySearch(lib, r, q) <==>
            && TextPasses(lib, r.fileType, q.fileType)
            && TextPasses(lib, r.mediaCodec, q.mediaCodec)
            && (q.extension == [] || lib.fold(r.extension, if [0x2E] <= q.extension then q.extension[1..] else q.extension))
            && InBounds(r.size, (q.minSize, q.maxSize))
            && InBounds(r.sources, (q.minSources, 0))
            && InBounds(r.completeSources, (q.minCompleteSources, 0))
            && InBounds(r.mediaLength, (q.minMediaLength, q.maxMediaLength))
            && InBounds(r.mediaBitrate, (q.minMediaBitrate, q.maxMediaBitrate))
            && forall i :: 0 <= i < |q.keywords| ==> Matches(lib, Keyword(q.keywords[i]), r)
  {
  }
}
