/** What the two request parsers accept, and how they fit together. */
module SearchProofs {
  import opened Basics
  import opened Library
  import opened SearchQueries
  import opened SearchSyntax

  // ---------------------------------------------------------------- the readers invert the writers

  lemma TakeUIntOfWrite(n: nat, width: nat, rest: Bytes)
    requires n < Pow256(width)
    ensures TakeUInt(WriteLE(n, width) + rest, width) == Done(n, rest)
  {
    ReadWriteLE(n, width);
    var s := WriteLE(n, width) + rest;
    assert s[..width] == WriteLE(n, width) && s[width..] == rest;
  }

  lemma WriteOfTakeUInt(s: Bytes, width: nat)
    requires width <= |s|
    ensures s == WriteLE(ReadLE(s[..width]), width) + s[width..]
    ensures ReadLE(s[..width]) < Pow256(width)
  {
    WriteReadLE(s[..width]);
    ReadLEBound(s[..width]);
  }

  lemma TakeRawOfWrite(raw: Bytes, rest: Bytes)
    requires |raw| <= 0xFFFF
    ensures TakeUInt(StringBytes(raw) + rest, 2) == Done(|raw|, raw + rest)
    ensures TakeBytes(raw + rest, |raw|) == Done(raw, rest)
  {
    PowersOf256();
    TakeUIntOfWrite(|raw|, 2, raw + rest);
    assert StringBytes(raw) + rest == WriteLE(|raw|, 2) + (raw + rest);
    assert (raw + rest)[..|raw|] == raw && (raw + rest)[|raw|..] == rest;
  }

  lemma TakeStringOfWrite(lib: Library, raw: Bytes, rest: Bytes)
    requires |raw| <= 0xFFFF
    ensures TakeString(lib, StringBytes(raw) + rest) == Done(lib.trim(raw), rest)
  {
    TakeRawOfWrite(raw, rest);
  }

  lemma TakeTagRefOfWrite(lib: Library, tag: Bytes, rest: Bytes)
    requires |tag| <= 0xFFFF
    ensures TakeTagRef(lib, StringBytes(tag) + rest) == Finish(TagOf(lib, tag), rest)
  {
    TakeStringOfWrite(lib, tag, rest);
  }

  lemma WriteOfTakeString(lib: Library, s: Bytes) returns (raw: Bytes)
    requires TakeString(lib, s).Done?
    ensures |raw| <= 0xFFFF && s == StringBytes(raw) + TakeString(lib, s).rest
    ensures TakeString(lib, s).value == lib.trim(raw)
  {
    PowersOf256();
    WriteOfTakeUInt(s, 2);
    var size := ReadLE(s[..2]);
    raw := s[2..][..size];
    assert s[2..] == raw + s[2..][size..];
  }

  lemma WriteOfTakeTagRef(lib: Library, s: Bytes) returns (tag: Bytes)
    requires TakeTagRef(lib, s).Done?
    ensures |tag| <= 0xFFFF && s == StringBytes(tag) + TakeTagRef(lib, s).rest
    ensures TagOf(lib, tag) == Ok(TakeTagRef(lib, s).value)
  {
    tag := WriteOfTakeString(lib, s);
  }

  // ---------------------------------------------------------------- terms of the prefix encoding

  /** One term of the prefix encoding with its type byte. */
  function PrefixLeaf(lib: Library, s: Bytes): Parsed<Expr> {
    var (termType, rest) :- TakeByte(s);
    PrefixTerm(lib, termType, rest)
  }

  lemma TermParses(lib: Library, t: Term, rest: Bytes)
    requires WellFormedTerm(t)
    ensures PrefixLeaf(lib, TermBytes(t) + rest) == Finish(TermMeaning(lib, t), rest)
  {
    match t
    case KeywordTerm(raw) => KeywordParses(lib, raw, rest);
    case StringTerm(raw, tag) => StringParses(lib, raw, tag, rest);
    case NumberTerm(_, _, _, _) => NumberParses(lib, t, rest);
  }

  lemma KeywordParses(lib: Library, raw: Bytes, rest: Bytes)
    requires |raw| <= 0xFFFF
    ensures PrefixLeaf(lib, TermBytes(KeywordTerm(raw)) + rest) == Done(MakeKeyword(lib, lib.trim(raw)), rest)
  {
    var s := TermBytes(KeywordTerm(raw)) + rest;
    assert s[0] == TYPE_STRING && s[1..] == StringBytes(raw) + rest;
    TakeStringOfWrite(lib, raw, rest);
  }

  lemma StringParses(lib: Library, raw: Bytes, tag: Bytes, rest: Bytes)
    requires |raw| <= 0xFFFF && |tag| <= 0xFFFF
    ensures PrefixLeaf(lib, TermBytes(StringTerm(raw, tag)) + rest) ==
            Finish(TermMeaning(lib, StringTerm(raw, tag)), rest)
  {
    var s := TermBytes(StringTerm(raw, tag)) + rest;
    assert s[0] == TYPE_STR_TAG && s[1..] == StringBytes(raw) + (StringBytes(tag) + rest);
    TakeStringOfWrite(lib, raw, StringBytes(tag) + rest);
    TakeTagRefOfWrite(lib, tag, rest);
  }

  lemma NumberParses(lib: Library, t: Term, rest: Bytes)
    requires t.NumberTerm? && WellFormedTerm(t)
    ensures PrefixLeaf(lib, TermBytes(t) + rest) == Finish(TermMeaning(lib, t), rest)
  {
    var s := TermBytes(t) + rest;
    var digits := WriteLE(t.number, Width(t.wide));
    var tail := [t.operator] + (StringBytes(t.tag) + rest);
    assert s[0] == NumberType(t.wide) && s[1..] == digits + tail by { NumberSplits(digits, t, rest); }
    TakeUInt64OfWrite(t.wide, t.number, tail);
    NumberLeaf(lib, s, t.wide);
    NumericParses(lib, t.number, t.operator, t.tag, rest);
  }

  function NumberType(wide: bool): Byte {
    if wide then TYPE_UINT64 else TYPE_UINT32
  }

  lemma NumberSplits(digits: Bytes, t: Term, rest: Bytes)
    requires t.NumberTerm? && digits == WriteLE(t.number, Width(t.wide))
    ensures TermBytes(t) + rest == [NumberType(t.wide)] + (digits + ([t.operator] + (StringBytes(t.tag) + rest)))
  {
    Reassociate5([NumberType(t.wide)], digits, [t.operator], StringBytes(t.tag), rest);
  }

  lemma NumberLeaf(lib: Library, s: Bytes, wide: bool)
    requires s != [] && s[0] == NumberType(wide)
    ensures PrefixLeaf(lib, s) ==
            match TakeUInt64(s[1..], Width(wide))
            case Done(number, tail) => PrefixNumeric(lib, number, tail)
            case Fail(e) => Fail(e)
  {
  }

  lemma TakeUInt64OfWrite(wide: bool, number: UInt64, tail: Bytes)
    requires !wide ==> number < 0x1_0000_0000
    ensures TakeUInt64(WriteLE(number, Width(wide)) + tail, Width(wide)) == Done(number, tail)
  {
    PowersOf256();
    TakeUIntOfWrite(number, Width(wide), tail);
  }

  lemma NumericParses(lib: Library, number: UInt64, operator: Byte, tag: Bytes, rest: Bytes)
    requires |tag| <= 0xFFFF
    ensures PrefixNumeric(lib, number, [operator] + (StringBytes(tag) + rest)) ==
            Finish(TermMeaning(lib, NumberTerm(true, number, operator, tag)), rest)
  {
    var tail := [operator] + (StringBytes(tag) + rest);
    assert tail[1..] == StringBytes(tag) + rest;
    TakeTagRefOfWrite(lib, tag, rest);
  }

  lemma TermOfParse(lib: Library, s: Bytes) returns (t: Term)
    requires PrefixLeaf(lib, s).Done?
    ensures WellFormedTerm(t) && s == TermBytes(t) + PrefixLeaf(lib, s).rest
    ensures TermMeaning(lib, t) == Ok(PrefixLeaf(lib, s).value)
  {
    if s[0] == TYPE_STRING {
      t := KeywordOfParse(lib, s);
    } else if s[0] == TYPE_STR_TAG {
      t := StringOfParse(lib, s);
    } else {
      t := NumberOfParse(lib, s);
    }
  }

  lemma KeywordOfParse(lib: Library, s: Bytes) returns (t: Term)
    requires PrefixLeaf(lib, s).Done? && s[0] == TYPE_STRING
    ensures t.KeywordTerm? && WellFormedTerm(t) && s == TermBytes(t) + PrefixLeaf(lib, s).rest
    ensures TermMeaning(lib, t) == Ok(PrefixLeaf(lib, s).value)
  {
    assert s == [s[0]] + s[1..];
    var raw := WriteOfTakeString(lib, s[1..]);
    t := KeywordTerm(raw);
  }

  lemma StringOfParse(lib: Library, s: Bytes) returns (t: Term)
    requires PrefixLeaf(lib, s).Done? && s[0] == TYPE_STR_TAG
    ensures WellFormedTerm(t) && s == TermBytes(t) + PrefixLeaf(lib, s).rest
    ensures TermMeaning(lib, t) == Ok(PrefixLeaf(lib, s).value)
  {
    var raw := WriteOfTakeString(lib, s[1..]);
    var afterText := TakeString(lib, s[1..]).rest;
    var tag := WriteOfTakeTagRef(lib, afterText);
    t := StringTerm(raw, tag);
    assert s == [s[0]] + s[1..];
    Reassociate4([s[0]], StringBytes(raw), StringBytes(tag), PrefixLeaf(lib, s).rest);
  }

  lemma NumberJoins(s: Bytes, t: Term, tail: Bytes, rest: Bytes)
    requires t.NumberTerm? && s != [] && s[0] == NumberType(t.wide) && tail != [] && tail[0] == t.operator
    requires s[1..] == WriteLE(t.number, Width(t.wide)) + tail && tail[1..] == StringBytes(t.tag) + rest
    ensures s == TermBytes(t) + rest
  {
    NumberSplits(WriteLE(t.number, Width(t.wide)), t, rest);
    HeadTail(s);
    HeadTail(tail);
  }

  lemma NumberOfParse(lib: Library, s: Bytes) returns (t: Term)
    requires PrefixLeaf(lib, s).Done? && (s[0] == TYPE_UINT32 || s[0] == TYPE_UINT64)
    ensures WellFormedTerm(t) && s == TermBytes(t) + PrefixLeaf(lib, s).rest
    ensures TermMeaning(lib, t) == Ok(PrefixLeaf(lib, s).value)
  {
    var wide := s[0] == TYPE_UINT64;
    NumberLeaf(lib, s, wide);
    var number, tail := TakeUInt64(s[1..], Width(wide)).value, TakeUInt64(s[1..], Width(wide)).rest;
    var tag := WriteOfTakeTagRef(lib, tail[1..]);
    t := NumberTerm(wide, number, tail[0], tag);
    WriteOfTakeUInt64(s[1..], wide);
    NumberJoins(s, t, tail, PrefixLeaf(lib, s).rest);
  }

  lemma WriteOfTakeUInt64(s: Bytes, wide: bool)
    requires TakeUInt64(s, Width(wide)).Done?
    ensures s == WriteLE(TakeUInt64(s, Width(wide)).value, Width(wide)) + TakeUInt64(s, Width(wide)).rest
    ensures !wide ==> TakeUInt64(s, Width(wide)).value < 0x1_0000_0000
  {
    PowersOf256();
    WriteOfTakeUInt(s, Width(wide));
  }

  // ---------------------------------------------------------------- trees of the prefix encoding

  lemma LeafParses(lib: Library, term: Term, rest: Bytes, depth: nat, maxDepth: int)
    requires WellFormedTerm(term) && depth <= maxDepth
    ensures PrefixExpr(lib, TermBytes(term) + rest, depth, maxDepth) == Finish(TermMeaning(lib, term), rest)
  {
    TermParses(lib, term, rest);
    var s := TermBytes(term) + rest;
    assert s[0] != TYPE_BOOL;
  }

  /** The bytes of a node: two bytes, then both subtrees. */
  lemma NodeSplits(operator: Byte, l: Tree, r: Tree, rest: Bytes)
    ensures TreeBytes(Node(operator, l, r)) + rest == [TYPE_BOOL, operator] + (TreeBytes(l) + (TreeBytes(r) + rest))
  {
    Reassociate4([TYPE_BOOL, operator], TreeBytes(l), TreeBytes(r), rest);
  }

  /** The parser at a node: one subtree, then the other. */
  lemma NodeParses(lib: Library, operator: Byte, body: Bytes, depth: nat, maxDepth: int)
    requires depth <= maxDepth && operator <= BOOL_NOT_AND
    ensures PrefixExpr(lib, [TYPE_BOOL, operator] + body, depth, maxDepth) ==
            match PrefixExpr(lib, body, depth + 1, maxDepth)
            case Fail(e) => Fail(e)
            case Done(left, afterLeft) =>
              match PrefixExpr(lib, afterLeft, depth + 1, maxDepth)
              case Fail(e) => Fail(e)
              case Done(right, afterRight) => Done(Compound(operator, left, right), afterRight)
  {
    AfterTwo(TYPE_BOOL, operator, body);
    assert TakeByte([TYPE_BOOL, operator] + body) == Done(TYPE_BOOL, [operator] + body);
    assert TakeByte([operator] + body) == Done(operator, body);
  }

  /**
   A parser by position and depth. The inductions over trees are made for any parser with the laws below, of which
   the prefix parser is one, so that they need not look into how terms are read.
   */
  type Parser = (Bytes, nat) -> Parsed<Expr>

  ghost function PrefixParser(lib: Library, maxDepth: int): Parser {
    (s: Bytes, depth: nat) => PrefixExpr(lib, s, depth, maxDepth)
  }

  ghost predicate StopsAtDepth(parse: Parser, maxDepth: int) {
    forall s: Bytes, depth: nat :: depth > maxDepth ==> parse(s, depth) == Fail(TooDeep)
  }

  ghost predicate ReadsTerms(lib: Library, parse: Parser, maxDepth: int) {
    forall term: Term, rest: Bytes, depth: nat ::
      WellFormedTerm(term) && depth <= maxDepth ==> ReadsTerm(lib, parse, term, rest, depth)
  }

  ghost predicate ReadsTerm(lib: Library, parse: Parser, term: Term, rest: Bytes, depth: nat) {
    parse(TermBytes(term) + rest, depth) == Finish(TermMeaning(lib, term), rest)
  }

  ghost predicate ReadsNodes(parse: Parser, maxDepth: int) {
    forall operator: Byte, l: Tree, r: Tree, rest: Bytes, depth: nat ::
      operator <= BOOL_NOT_AND && depth <= maxDepth ==> ReadsNode(parse, operator, l, r, rest, depth)
  }

  ghost predicate ReadsNode(parse: Parser, operator: Byte, l: Tree, r: Tree, rest: Bytes, depth: nat) {
    parse(TreeBytes(Node(operator, l, r)) + rest, depth) ==
    match parse(TreeBytes(l) + (TreeBytes(r) + rest), depth + 1)
    case Fail(e) => Fail(e)
    case Done(left, afterLeft) =>
      match parse(afterLeft, depth + 1)
      case Fail(e) => Fail(e)
      case Done(right, afterRight) => Done(Compound(operator, left, right), afterRight)
  }

  lemma PrefixReadsTrees(lib: Library, maxDepth: int)
    ensures StopsAtDepth(PrefixParser(lib, maxDepth), maxDepth)
    ensures ReadsTerms(lib, PrefixParser(lib, maxDepth), maxDepth)
    ensures ReadsNodes(PrefixParser(lib, maxDepth), maxDepth)
  {
    var parse := PrefixParser(lib, maxDepth);
    forall term: Term, rest: Bytes, depth: nat | WellFormedTerm(term) && depth <= maxDepth
      ensures ReadsTerm(lib, parse, term, rest, depth)
    {
      LeafParses(lib, term, rest, depth, maxDepth);
    }
    forall operator: Byte, l: Tree, r: Tree, rest: Bytes, depth: nat | operator <= BOOL_NOT_AND && depth <= maxDepth
      ensures ReadsNode(parse, operator, l, r, rest, depth)
    {
      NodeSplits(operator, l, r, rest);
      NodeParses(lib, operator, TreeBytes(l) + (TreeBytes(r) + rest), depth, maxDepth);
    }
  }

  lemma {:induction false} TreeParsesBy(lib: Library, parse: Parser, t: Tree, rest: Bytes, depth: nat, maxDepth: int)
    requires ReadsTerms(lib, parse, maxDepth) && ReadsNodes(parse, maxDepth)
    requires WellFormed(t) && Meaning(lib, t).Ok? && depth + Height(t) <= maxDepth
    ensures parse(TreeBytes(t) + rest, depth) == Done(Meaning(lib, t).value, rest)
    decreases t
  {
    match t
    case Leaf(term) =>
      assert ReadsTerm(lib, parse, term, rest, depth);
    case Node(operator, l, r) =>
      TreeParsesBy(lib, parse, l, TreeBytes(r) + rest, depth + 1, maxDepth);
      TreeParsesBy(lib, parse, r, rest, depth + 1, maxDepth);
      assert ReadsNode(parse, operator, l, r, rest, depth);
  }

  lemma {:induction false} TooDeepFailsBy(lib: Library, parse: Parser, t: Tree, rest: Bytes, depth: nat, maxDepth: int)
    requires StopsAtDepth(parse, maxDepth) && ReadsTerms(lib, parse, maxDepth) && ReadsNodes(parse, maxDepth)
    requires WellFormed(t) && Meaning(lib, t).Ok? && depth + Height(t) > maxDepth
    ensures parse(TreeBytes(t) + rest, depth) == Fail(TooDeep)
    decreases t
  {
    if depth <= maxDepth {
      var Node(operator, l, r) := t;
      if depth + 1 + Height(l) > maxDepth {
        TooDeepFailsBy(lib, parse, l, TreeBytes(r) + rest, depth + 1, maxDepth);
      } else {
        TreeParsesBy(lib, parse, l, TreeBytes(r) + rest, depth + 1, maxDepth);
        TooDeepFailsBy(lib, parse, r, rest, depth + 1, maxDepth);
      }
      assert ReadsNode(parse, operator, l, r, rest, depth);
    }
  }

  lemma TreeParses(lib: Library, t: Tree, rest: Bytes, depth: nat, maxDepth: int)
    requires WellFormed(t) && Meaning(lib, t).Ok? && depth + Height(t) <= maxDepth
    ensures PrefixExpr(lib, TreeBytes(t) + rest, depth, maxDepth) == Done(Meaning(lib, t).value, rest)
  {
    PrefixReadsTrees(lib, maxDepth);
    TreeParsesBy(lib, PrefixParser(lib, maxDepth), t, rest, depth, maxDepth);
  }

  lemma TooDeepFails(lib: Library, t: Tree, rest: Bytes, depth: nat, maxDepth: int)
    requires WellFormed(t) && Meaning(lib, t).Ok? && depth + Height(t) > maxDepth
    ensures PrefixExpr(lib, TreeBytes(t) + rest, depth, maxDepth) == Fail(TooDeep)
  {
    PrefixReadsTrees(lib, maxDepth);
    TooDeepFailsBy(lib, PrefixParser(lib, maxDepth), t, rest, depth, maxDepth);
  }

  /** Whatever is parsed from s is a term or a node, followed by what was left unread. */
  ghost predicate ReadsOnlyTrees(lib: Library, parse: Parser, maxDepth: int) {
    forall s: Bytes, depth: nat {:trigger CameFromTree(lib, parse, maxDepth, s, depth)} ::
      parse(s, depth).Done? ==> CameFromTree(lib, parse, maxDepth, s, depth)
  }

  ghost predicate CameFromTree(lib: Library, parse: Parser, maxDepth: int, s: Bytes, depth: nat)
    requires parse(s, depth).Done?
  {
    depth <= maxDepth && (CameFromTerm(lib, s, parse(s, depth)) || CameFromNode(parse, maxDepth, s, depth))
  }

  ghost predicate CameFromTerm(lib: Library, s: Bytes, parsed: Parsed<Expr>)
    requires parsed.Done?
  {
    exists term: Term :: WellFormedTerm(term) && s == TermBytes(term) + parsed.rest && TermMeaning(lib, term) == Ok(parsed.value)
  }

  ghost predicate CameFromNode(parse: Parser, maxDepth: int, s: Bytes, depth: nat)
    requires parse(s, depth).Done?
  {
    && |s| > 2 && s[0] == TYPE_BOOL && s[1] <= BOOL_NOT_AND && depth < maxDepth
    && var left := parse(s[2..], depth + 1);
    && left.Done? && |left.rest| < |s|
    && var right := parse(left.rest, depth + 1);
    && right.Done? && parse(s, depth) == Done(Compound(s[1], left.value, right.value), right.rest)
  }

  lemma PrefixReadsOnlyTrees(lib: Library, maxDepth: int)
    ensures ReadsOnlyTrees(lib, PrefixParser(lib, maxDepth), maxDepth)
  {
    var parse := PrefixParser(lib, maxDepth);
    forall s: Bytes, depth: nat | parse(s, depth).Done?
      ensures CameFromTree(lib, parse, maxDepth, s, depth)
    {
      assert parse(s, depth) == PrefixExpr(lib, s, depth, maxDepth);
      if s[0] == TYPE_BOOL {
        PrefixCameFromNode(lib, s, depth, maxDepth);
      } else {
        PrefixCameFromTerm(lib, s, depth, maxDepth);
      }
    }
  }

  lemma PrefixCameFromNode(lib: Library, s: Bytes, depth: nat, maxDepth: int)
    requires PrefixExpr(lib, s, depth, maxDepth).Done? && s[0] == TYPE_BOOL
    ensures PrefixParser(lib, maxDepth)(s, depth).Done? && CameFromNode(PrefixParser(lib, maxDepth), maxDepth, s, depth)
  {
    NodeOfParse(lib, s, depth, maxDepth);
  }

  lemma PrefixCameFromTerm(lib: Library, s: Bytes, depth: nat, maxDepth: int)
    requires PrefixExpr(lib, s, depth, maxDepth).Done? && s[0] != TYPE_BOOL
    ensures depth <= maxDepth && CameFromTerm(lib, s, PrefixExpr(lib, s, depth, maxDepth))
  {
    var term := LeafOfParse(lib, s, depth, maxDepth);
  }

  lemma LeafOfParse(lib: Library, s: Bytes, depth: nat, maxDepth: int) returns (term: Term)
    requires PrefixExpr(lib, s, depth, maxDepth).Done? && s[0] != TYPE_BOOL
    ensures WellFormedTerm(term) && s == TermBytes(term) + PrefixExpr(lib, s, depth, maxDepth).rest
    ensures TermMeaning(lib, term) == Ok(PrefixExpr(lib, s, depth, maxDepth).value)
    ensures depth <= maxDepth
  {
    assert PrefixExpr(lib, s, depth, maxDepth) == PrefixLeaf(lib, s);
    term := TermOfParse(lib, s);
  }

  lemma {:induction false} TreeOfParseBy(lib: Library, parse: Parser, s: Bytes, depth: nat, maxDepth: int) returns (t: Tree)
    requires ReadsOnlyTrees(lib, parse, maxDepth) && parse(s, depth).Done?
    ensures WellFormed(t) && s == TreeBytes(t) + parse(s, depth).rest
    ensures Meaning(lib, t) == Ok(parse(s, depth).value)
    ensures depth + Height(t) <= maxDepth
    decreases |s|
  {
    assert CameFromTree(lib, parse, maxDepth, s, depth);
    if CameFromNode(parse, maxDepth, s, depth) {
      var left := parse(s[2..], depth + 1);
      var l := TreeOfParseBy(lib, parse, s[2..], depth + 1, maxDepth);
      var r := TreeOfParseBy(lib, parse, left.rest, depth + 1, maxDepth);
      t := Node(s[1], l, r);
      NodeOfParts(lib, s, l, r, left, parse(left.rest, depth + 1), parse(s, depth));
    } else {
      t := TreeOfTerm(lib, s, parse(s, depth));
    }
  }

  lemma TreeOfTerm(lib: Library, s: Bytes, parsed: Parsed<Expr>) returns (t: Tree)
    requires parsed.Done? && CameFromTerm(lib, s, parsed)
    ensures t.Leaf? && WellFormed(t) && s == TreeBytes(t) + parsed.rest && Meaning(lib, t) == Ok(parsed.value)
  {
    var term: Term :|
      WellFormedTerm(term) && s == TermBytes(term) + parsed.rest && TermMeaning(lib, term) == Ok(parsed.value);
    t := Leaf(term);
  }

  /** The trees of both parts make the tree of the node. */
  lemma NodeOfParts(lib: Library, s: Bytes, l: Tree, r: Tree, left: Parsed<Expr>, right: Parsed<Expr>, whole: Parsed<Expr>)
    requires |s| > 2 && s[0] == TYPE_BOOL && s[1] <= BOOL_NOT_AND
    requires left.Done? && s[2..] == TreeBytes(l) + left.rest && Meaning(lib, l) == Ok(left.value)
    requires right.Done? && left.rest == TreeBytes(r) + right.rest && Meaning(lib, r) == Ok(right.value)
    requires whole == Done(Compound(s[1], left.value, right.value), right.rest)
    ensures s == TreeBytes(Node(s[1], l, r)) + whole.rest
    ensures Meaning(lib, Node(s[1], l, r)) == Ok(whole.value)
  {
    NodeJoins(s, l, r, left.rest, right.rest);
  }

  lemma TreeOfParse(lib: Library, s: Bytes, depth: nat, maxDepth: int) returns (t: Tree)
    requires PrefixExpr(lib, s, depth, maxDepth).Done?
    ensures WellFormed(t) && s == TreeBytes(t) + PrefixExpr(lib, s, depth, maxDepth).rest
    ensures Meaning(lib, t) == Ok(PrefixExpr(lib, s, depth, maxDepth).value)
    ensures depth + Height(t) <= maxDepth
  {
    PrefixReadsOnlyTrees(lib, maxDepth);
    t := TreeOfParseBy(lib, PrefixParser(lib, maxDepth), s, depth, maxDepth);
  }

  lemma NodeOfParse(lib: Library, s: Bytes, depth: nat, maxDepth: int)
    requires PrefixExpr(lib, s, depth, maxDepth).Done? && s[0] == TYPE_BOOL
    ensures |s| > 2 && s[1] <= BOOL_NOT_AND && depth < maxDepth
    ensures var left := PrefixExpr(lib, s[2..], depth + 1, maxDepth);
            && left.Done? && |left.rest| < |s|
            && PrefixExpr(lib, left.rest, depth + 1, maxDepth).Done?
            && PrefixExpr(lib, s, depth, maxDepth) ==
               Done(Compound(s[1], left.value, PrefixExpr(lib, left.rest, depth + 1, maxDepth).value),
                    PrefixExpr(lib, left.rest, depth + 1, maxDepth).rest)
  {
    assert s[1..][1..] == s[2..];
  }

  lemma NodeJoins(s: Bytes, l: Tree, r: Tree, afterLeft: Bytes, afterRight: Bytes)
    requires |s| > 2 && s[0] == TYPE_BOOL
    requires s[2..] == TreeBytes(l) + afterLeft && afterLeft == TreeBytes(r) + afterRight
    ensures s == TreeBytes(Node(s[1], l, r)) + afterRight
  {
    FrontTwo(s, TreeBytes(l), afterLeft);
    Reassociate3([s[0], s[1]], TreeBytes(l), afterLeft);
    NodeSplits(s[1], l, r, afterRight);
  }

  /** body is the serialisation of a tree no higher than maxDepth that means e. */
  ghost predicate EncodesWithin(lib: Library, body: Bytes, e: Expr, maxDepth: int) {
    exists t: Tree :: WellFormed(t) && TreeBytes(t) == body && Meaning(lib, t) == Ok(e) && Height(t) <= maxDepth
  }

  /** The prefix parser accepts exactly the serialisations of trees within the depth limit, and gives their meaning. */
  lemma PrefixAcceptsExactly(lib: Library, body: Bytes, maxDepth: int, e: Expr)
    ensures PrefixRequest(lib, body, maxDepth) == Ok(e) <==> EncodesWithin(lib, body, e, maxDepth)
  {
    if PrefixRequest(lib, body, maxDepth) == Ok(e) {
      var t := TreeOfParse(lib, body, 0, maxDepth);
      assert TreeBytes(t) + [] == TreeBytes(t);
      assert TreeBytes(t) == body;
    }
    if EncodesWithin(lib, body, e, maxDepth) {
      var t: Tree :| WellFormed(t) && TreeBytes(t) == body && Meaning(lib, t) == Ok(e) && Height(t) <= maxDepth;
      TreeParses(lib, t, [], 0, maxDepth);
      assert TreeBytes(t) + [] == TreeBytes(t);
    }
  }

  /**
   The whole decoder on the prefix encoding of any tree: the tree's meaning when its height is within
   the limit, and an error otherwise, although the linear parser is tried too.
   */
  lemma DecodeInvertsTreeBytes(lib: Library, t: Tree, maxDepth: int)
    requires WellFormed(t) && Meaning(lib, t).Ok?
    ensures DecodeRequest(lib, TreeBytes(t), maxDepth) ==
            if Height(t) <= EffectiveDepth(maxDepth) then Meaning(lib, t)
            else Err(BothFailed(TooDeep, BadTermType(TYPE_BOOL)))
  {
    var limit := EffectiveDepth(maxDepth);
    assert TreeBytes(t) + [] == TreeBytes(t);
    if Height(t) <= limit {
      TreeParses(lib, t, [], 0, limit);
    } else {
      TooDeepFails(lib, t, [], 0, limit);
      assert t.Node? && TreeBytes(t)[0] == TYPE_BOOL;
    }
  }

  // ---------------------------------------------------------------- expressions and their encoding

  /** The expressions a request can decode to: trimmed, non-empty strings, known tags and operators. */
  ghost predicate Normalised(lib: Library, e: Expr) {
    match e
    case Compound(operator, l, r) => operator <= BOOL_NOT_AND && Normalised(lib, l) && Normalised(lib, r)
    case Keyword(value) => NormalisedText(lib, value)
    case StringTag(tagID, text) =>
      tagID in {FT_FILE_TYPE, FT_FILE_FORMAT, FT_MEDIA_CODEC} && NormalisedText(lib, text)
    case Numeric(tagID, operator, _) =>
      && tagID in {FT_FILE_SIZE, FT_SOURCES, FT_COMPLETE_SOURCES, FT_MEDIA_LENGTH, FT_MEDIA_BITRATE}
      && operator <= OP_NOT_EQUAL
    case MatchAll => true
    case MatchNone => false
  }

  ghost predicate NormalisedText(lib: Library, s: Bytes) {
    lib.trim(s) == s && s != [] && |s| <= 0xFFFF
  }

  function ExprHeight(e: Expr): nat {
    match e
    case Compound(_, l, r) => 1 + Max(ExprHeight(l), ExprHeight(r))
    case _ => 0
  }

  /** How a client writes an expression down. */
  function Encoding(e: Expr): Tree {
    match e
    case Compound(operator, l, r) => Node(operator, Encoding(l), Encoding(r))
    case Keyword(value) => Leaf(KeywordTerm(value))
    case StringTag(tagID, text) => Leaf(StringTerm(text, [tagID]))
    case Numeric(tagID, operator, number) => Leaf(NumberTerm(true, number, operator, [tagID]))
    case MatchAll => Leaf(KeywordTerm([]))
    case MatchNone => Leaf(KeywordTerm([]))
  }

  lemma {:induction false} EncodingMeans(lib: Library, e: Expr)
    requires LawfulTrim(lib) && Normalised(lib, e)
    ensures WellFormed(Encoding(e)) && Meaning(lib, Encoding(e)) == Ok(e) && Height(Encoding(e)) == ExprHeight(e)
  {
    match e
    case Compound(_, l, r) =>
      EncodingMeans(lib, l);
      EncodingMeans(lib, r);
    case StringTag(tagID, text) =>
      assert SupportedTag(tagID);
      assert TagOf(lib, [tagID]) == Ok(ById(tagID));
    case Numeric(tagID, _, _) =>
      assert SupportedTag(tagID);
      assert TagOf(lib, [tagID]) == Ok(ById(tagID));
    case MatchAll =>
      assert |lib.trim([])| <= 0;
    case _ =>
  }

  /** Encoding an expression and decoding it again gives it back, within the depth limit and only there. */
  lemma DecodeInvertsEncoding(lib: Library, e: Expr, maxDepth: int)
    requires LawfulTrim(lib) && Normalised(lib, e)
    ensures DecodeRequest(lib, TreeBytes(Encoding(e)), maxDepth) == Ok(e) <==> ExprHeight(e) <= EffectiveDepth(maxDepth)
    ensures ExprHeight(e) > EffectiveDepth(maxDepth) ==> DecodeRequest(lib, TreeBytes(Encoding(e)), maxDepth).Err?
  {
    EncodingMeans(lib, e);
    DecodeInvertsTreeBytes(lib, Encoding(e), maxDepth);
  }

  lemma TermMeaningNormalised(lib: Library, t: Term)
    requires LawfulTrim(lib) && WellFormedTerm(t) && TermMeaning(lib, t).Ok?
    ensures Normalised(lib, TermMeaning(lib, t).value)
  {
  }

  lemma {:induction false} MeaningNormalised(lib: Library, t: Tree)
    requires LawfulTrim(lib) && WellFormed(t) && Meaning(lib, t).Ok?
    ensures Normalised(lib, Meaning(lib, t).value)
  {
    match t
    case Leaf(term) => TermMeaningNormalised(lib, term);
    case Node(_, l, r) =>
      MeaningNormalised(lib, l);
      MeaningNormalised(lib, r);
  }

  // ---------------------------------------------------------------- the linear encoding

  /** A term of the linear encoding: its tag is one byte. */
  predicate LegacyForm(t: Term) {
    WellFormedTerm(t) && (!t.KeywordTerm? ==> |t.tag| == 1)
  }

  /** What a linear term stands for: its tag byte is the tag ID, untrimmed. */
  function LegacyMeaning(lib: Library, t: Term): Result<Expr>
    requires LegacyForm(t)
  {
    match t
    case KeywordTerm(raw) => Ok(MakeKeyword(lib, lib.trim(raw)))
    case StringTerm(raw, tag) => MakeStringTag(lib, lib.trim(raw), ById(tag[0]))
    case NumberTerm(_, number, operator, tag) =>
      if operator > OP_NOT_EQUAL then Err(BadNumericOperator(operator))
      else MakeNumericTag(lib, number, operator, ById(tag[0]))
  }

  lemma LegacyTagBytes(id: Byte, rest: Bytes)
    ensures TakeLegacyTagID(StringBytes([id]) + rest) == Done(id, rest)
  {
    TakeRawOfWrite([id], rest);
    assert ([id] + rest)[1..] == rest;
  }

  lemma LegacyNumericParses(lib: Library, number: UInt64, operator: Byte, id: Byte, rest: Bytes)
    ensures LegacyNumeric(lib, number, [operator] + (StringBytes([id]) + rest)) ==
            Finish(LegacyMeaning(lib, NumberTerm(true, number, operator, [id])), rest)
  {
    var tail := [operator] + (StringBytes([id]) + rest);
    assert tail[1..] == StringBytes([id]) + rest;
    LegacyTagBytes(id, rest);
  }

  lemma LegacyNumberLeaf(lib: Library, s: Bytes, wide: bool)
    requires s != [] && s[0] == NumberType(wide)
    ensures LegacyTerm(lib, s) ==
            match TakeUInt64(s[1..], Width(wide))
            case Done(number, tail) => LegacyNumeric(lib, number, tail)
            case Fail(e) => Fail(e)
  {
  }

  lemma LegacyTermParses(lib: Library, t: Term, rest: Bytes)
    requires LegacyForm(t)
    ensures LegacyTerm(lib, TermBytes(t) + rest) == Finish(LegacyMeaning(lib, t), rest)
  {
    match t
    case KeywordTerm(raw) => LegacyKeywordParses(lib, raw, rest);
    case StringTerm(raw, tag) =>
      assert tag == [tag[0]];
      LegacyStringParses(lib, raw, tag[0], rest);
    case NumberTerm(_, _, _, tag) =>
      assert tag == [tag[0]];
      LegacyNumberParses(lib, t, tag[0], rest);
  }

  lemma LegacyKeywordParses(lib: Library, raw: Bytes, rest: Bytes)
    requires |raw| <= 0xFFFF
    ensures LegacyTerm(lib, TermBytes(KeywordTerm(raw)) + rest) == Done(MakeKeyword(lib, lib.trim(raw)), rest)
  {
    var s := TermBytes(KeywordTerm(raw)) + rest;
    assert s[0] == TYPE_STRING && s[1..] == StringBytes(raw) + rest;
    TakeStringOfWrite(lib, raw, rest);
  }

  lemma LegacyStringParses(lib: Library, raw: Bytes, id: Byte, rest: Bytes)
    requires |raw| <= 0xFFFF
    ensures LegacyTerm(lib, TermBytes(StringTerm(raw, [id])) + rest) ==
            Finish(LegacyMeaning(lib, StringTerm(raw, [id])), rest)
  {
    var s := TermBytes(StringTerm(raw, [id])) + rest;
    assert s[0] == TYPE_STR_TAG && s[1..] == StringBytes(raw) + (StringBytes([id]) + rest);
    TakeStringOfWrite(lib, raw, StringBytes([id]) + rest);
    LegacyTagBytes(id, rest);
  }

  lemma LegacyNumberParses(lib: Library, t: Term, id: Byte, rest: Bytes)
    requires LegacyForm(t) && t.NumberTerm? && t.tag == [id]
    ensures LegacyTerm(lib, TermBytes(t) + rest) == Finish(LegacyMeaning(lib, t), rest)
  {
    var s := TermBytes(t) + rest;
    var digits := WriteLE(t.number, Width(t.wide));
    var tail := [t.operator] + (StringBytes(t.tag) + rest);
    assert s[0] == NumberType(t.wide) && s[1..] == digits + tail by { NumberSplits(digits, t, rest); }
    TakeUInt64OfWrite(t.wide, t.number, tail);
    LegacyNumberLeaf(lib, s, t.wide);
    LegacyNumericParses(lib, t.number, t.operator, id, rest);
  }

  lemma LegacyTagOfParse(s: Bytes)
    requires TakeLegacyTagID(s).Done?
    ensures s == StringBytes([TakeLegacyTagID(s).value]) + TakeLegacyTagID(s).rest
  {
    WriteOfTakeUInt(s, 2);
    assert s[2..] == [s[2..][0]] + s[2..][1..];
  }

  lemma LegacyTermOfParse(lib: Library, s: Bytes) returns (t: Term)
    requires LegacyTerm(lib, s).Done?
    ensures LegacyForm(t) && s == TermBytes(t) + LegacyTerm(lib, s).rest
    ensures LegacyMeaning(lib, t) == Ok(LegacyTerm(lib, s).value)
  {
    if s[0] == TYPE_STRING {
      assert LegacyTerm(lib, s) == PrefixLeaf(lib, s);
      t := KeywordOfParse(lib, s);
    } else if s[0] == TYPE_STR_TAG {
      t := LegacyStringOfParse(lib, s);
    } else {
      t := LegacyNumberOfParse(lib, s);
    }
  }

  lemma LegacyStringOfParse(lib: Library, s: Bytes) returns (t: Term)
    requires LegacyTerm(lib, s).Done? && s[0] == TYPE_STR_TAG
    ensures LegacyForm(t) && s == TermBytes(t) + LegacyTerm(lib, s).rest
    ensures LegacyMeaning(lib, t) == Ok(LegacyTerm(lib, s).value)
  {
    var raw := WriteOfTakeString(lib, s[1..]);
    var afterText := TakeString(lib, s[1..]).rest;
    LegacyTagOfParse(afterText);
    var tag := [TakeLegacyTagID(afterText).value];
    t := StringTerm(raw, tag);
    assert s == [s[0]] + s[1..];
    Reassociate4([s[0]], StringBytes(raw), StringBytes(tag), LegacyTerm(lib, s).rest);
  }

  lemma LegacyNumberOfParse(lib: Library, s: Bytes) returns (t: Term)
    requires LegacyTerm(lib, s).Done? && (s[0] == TYPE_UINT32 || s[0] == TYPE_UINT64)
    ensures LegacyForm(t) && s == TermBytes(t) + LegacyTerm(lib, s).rest
    ensures LegacyMeaning(lib, t) == Ok(LegacyTerm(lib, s).value)
  {
    var wide := s[0] == TYPE_UINT64;
    LegacyNumberLeaf(lib, s, wide);
    var number, tail := TakeUInt64(s[1..], Width(wide)).value, TakeUInt64(s[1..], Width(wide)).rest;
    LegacyTagOfParse(tail[1..]);
    t := NumberTerm(wide, number, tail[0], [TakeLegacyTagID(tail[1..]).value]);
    WriteOfTakeUInt64(s[1..], wide);
    NumberJoins(s, t, tail, LegacyTerm(lib, s).rest);
  }

  /** An operator and the term it joins to everything before it. */
  datatype Link = Link(operator: Byte, term: Term)

  predicate LegacyLinks(links: seq<Link>) {
    forall i :: 0 <= i < |links| ==> LegacyForm(links[i].term)
  }

  function LinkBytes(links: seq<Link>): Bytes {
    if links == [] then [] else [TYPE_BOOL, links[0].operator] + TermBytes(links[0].term) + LinkBytes(links[1..])
  }

  /** The left fold of the links onto root. */
  function LeftFold(lib: Library, root: Expr, links: seq<Link>): Result<Expr>
    requires LegacyLinks(links)
    decreases |links|
  {
    if links == [] then Ok(root)
    else if links[0].operator > BOOL_NOT_AND then Err(BadBooleanOperator(links[0].operator))
    else
      var next :- LegacyMeaning(lib, links[0].term);
      LeftFold(lib, Compound(links[0].operator, root, next), links[1..])
  }

  function LinearMeaning(lib: Library, first: Term, links: seq<Link>): Result<Expr>
    requires LegacyForm(first) && LegacyLinks(links)
  {
    var root :- LegacyMeaning(lib, first);
    LeftFold(lib, root, links)
  }

  lemma {:induction false} LegacyTailFolds(lib: Library, root: Expr, links: seq<Link>)
    requires LegacyLinks(links)
    ensures LegacyTail(lib, root, LinkBytes(links)) == LeftFold(lib, root, links)
    decreases |links|
  {
    if links != [] {
      LinkBytesSplit(links);
      LegacyTermParses(lib, links[0].term, LinkBytes(links[1..]));
      if links[0].operator <= BOOL_NOT_AND && LegacyMeaning(lib, links[0].term).Ok? {
        LegacyTailFolds(lib, Compound(links[0].operator, root, LegacyMeaning(lib, links[0].term).value), links[1..]);
      }
    }
  }

  lemma LinkBytesSplit(links: seq<Link>)
    requires links != []
    ensures var s := LinkBytes(links);
            |s| > 2 && s[0] == TYPE_BOOL && s[1] == links[0].operator &&
            s[2..] == TermBytes(links[0].term) + LinkBytes(links[1..])
  {
    var body := TermBytes(links[0].term) + LinkBytes(links[1..]);
    Reassociate3([TYPE_BOOL, links[0].operator], TermBytes(links[0].term), LinkBytes(links[1..]));
    AfterTwo(TYPE_BOOL, links[0].operator, body);
  }

  lemma {:induction false} LinksOfTail(lib: Library, root: Expr, s: Bytes) returns (links: seq<Link>)
    requires LegacyTail(lib, root, s).Ok?
    ensures LegacyLinks(links) && LinkBytes(links) == s
    decreases |s|
  {
    if s == [] {
      links := [];
    } else {
      var term := LegacyTermOfParse(lib, s[2..]);
      var parsed := LegacyTerm(lib, s[2..]);
      var more := LinksOfTail(lib, Compound(s[1], root, parsed.value), parsed.rest);
      links := [Link(s[1], term)] + more;
      LinkJoins(s, term, more);
    }
  }

  lemma LinkJoins(s: Bytes, term: Term, more: seq<Link>)
    requires |s| > 2 && s[0] == TYPE_BOOL && s[2..] == TermBytes(term) + LinkBytes(more)
    ensures LinkBytes([Link(s[1], term)] + more) == s
  {
    var links := [Link(s[1], term)] + more;
    assert links[0] == Link(s[1], term) && links[1..] == more;
    FrontTwo(s, TermBytes(term), LinkBytes(more));
  }

  /** The linear parser accepts exactly the linear encodings, and gives the left fold of their terms. */
  lemma LegacyAcceptsExactly(lib: Library, body: Bytes, e: Expr)
    ensures LegacyRequest(lib, body) == Ok(e) <==>
            exists first: Term, links: seq<Link> ::
              LegacyForm(first) && LegacyLinks(links) && TermBytes(first) + LinkBytes(links) == body &&
              LinearMeaning(lib, first, links) == Ok(e)
  {
    if LegacyRequest(lib, body) == Ok(e) {
      var first := LegacyTermOfParse(lib, body);
      var parsed := LegacyTerm(lib, body);
      var links := LinksOfTail(lib, parsed.value, parsed.rest);
      LegacyTailFolds(lib, parsed.value, links);
      assert LinearMeaning(lib, first, links) == Ok(e);
    }
    if first: Term, links: seq<Link> :|
      LegacyForm(first) && LegacyLinks(links) && TermBytes(first) + LinkBytes(links) == body &&
      LinearMeaning(lib, first, links) == Ok(e)
    {
      LinearParses(lib, first, links);
    }
  }

  lemma LinearParses(lib: Library, first: Term, links: seq<Link>)
    requires LegacyForm(first) && LegacyLinks(links)
    ensures LegacyRequest(lib, TermBytes(first) + LinkBytes(links)) == LinearMeaning(lib, first, links)
  {
    LegacyTermParses(lib, first, LinkBytes(links));
    if LegacyMeaning(lib, first).Ok? {
      LegacyTailFolds(lib, LegacyMeaning(lib, first).value, links);
    }
  }

  // ---------------------------------------------------------------- the fallback

  /** A linear term read as a prefix term means the same, or its tag byte is white space and it means nothing. */
  lemma TermMeaningsAgree(lib: Library, t: Term)
    requires LawfulTrim(lib) && LegacyForm(t) && TermMeaning(lib, t).Ok?
    ensures LegacyMeaning(lib, t) == TermMeaning(lib, t)
  {
    if !t.KeywordTerm? {
      assert t.tag == [t.tag[0]];
    }
  }

  /** The prefix parser on a body that begins with a linear term. */
  lemma PrefixOfLinear(lib: Library, first: Term, rest: Bytes, maxDepth: int)
    requires LegacyForm(first) && maxDepth >= 0
    ensures PrefixRequest(lib, TermBytes(first) + rest, maxDepth) ==
            match TermMeaning(lib, first)
            case Err(e) => Err(e)
            case Ok(e) => if rest == [] then Ok(e) else Err(TrailingPayload(|rest|))
  {
    LeafParses(lib, first, rest, 0, maxDepth);
  }

  /** A body both parsers accept is a single term, and both give it the same meaning. */
  lemma FallbackUnambiguous(lib: Library, body: Bytes, maxDepth: int)
    requires LawfulTrim(lib) && maxDepth >= 0
    ensures PrefixRequest(lib, body, maxDepth).Ok? && LegacyRequest(lib, body).Ok? ==>
              && PrefixRequest(lib, body, maxDepth) == LegacyRequest(lib, body)
              && exists t: Term :: LegacyForm(t) && TermBytes(t) == body
  {
    if PrefixRequest(lib, body, maxDepth).Ok? && LegacyRequest(lib, body).Ok? {
      var first := LegacyTermOfParse(lib, body);
      var rest := LegacyTerm(lib, body).rest;
      PrefixOfLinear(lib, first, rest, maxDepth);
      TermMeaningsAgree(lib, first);
      assert TermBytes(first) + [] == TermBytes(first);
    }
  }

  /** The whole decoder on a linear encoding: the left fold of its terms, whatever the prefix parser makes of it. */
  lemma DecodeInvertsLinear(lib: Library, first: Term, links: seq<Link>, maxDepth: int)
    requires LawfulTrim(lib) && LegacyForm(first) && LegacyLinks(links)
    requires LinearMeaning(lib, first, links).Ok?
    ensures DecodeRequest(lib, TermBytes(first) + LinkBytes(links), maxDepth) == LinearMeaning(lib, first, links)
  {
    PrefixOfLinear(lib, first, LinkBytes(links), EffectiveDepth(maxDepth));
    LinearParses(lib, first, links);
    if TermMeaning(lib, first).Ok? {
      TermMeaningsAgree(lib, first);
    }
  }

  // ---------------------------------------------------------------- what decoding yields

  lemma {:induction false} LeftFoldNormalised(lib: Library, root: Expr, links: seq<Link>)
    requires LawfulTrim(lib) && Normalised(lib, root) && LegacyLinks(links) && LeftFold(lib, root, links).Ok?
    ensures Normalised(lib, LeftFold(lib, root, links).value)
    decreases |links|
  {
    if links != [] {
      LegacyMeaningNormalised(lib, links[0].term);
      LeftFoldNormalised(lib, Compound(links[0].operator, root, LegacyMeaning(lib, links[0].term).value), links[1..]);
    }
  }

  lemma LegacyMeaningNormalised(lib: Library, t: Term)
    requires LawfulTrim(lib) && LegacyForm(t) && LegacyMeaning(lib, t).Ok?
    ensures Normalised(lib, LegacyMeaning(lib, t).value)
  {
  }

  /** Every request that decodes, by either encoding, decodes to a normalised expression. */
  lemma DecodesNormalised(lib: Library, body: Bytes, maxDepth: int)
    requires LawfulTrim(lib) && DecodeRequest(lib, body, maxDepth).Ok?
    ensures Normalised(lib, DecodeRequest(lib, body, maxDepth).value)
  {
    var e := DecodeRequest(lib, body, maxDepth).value;
    var limit := EffectiveDepth(maxDepth);
    if body == [] {
    } else if PrefixRequest(lib, body, limit).Ok? {
      PrefixAcceptsExactly(lib, body, limit, e);
      var t: Tree :| WellFormed(t) && TreeBytes(t) == body && Meaning(lib, t) == Ok(e) && Height(t) <= limit;
      MeaningNormalised(lib, t);
    } else {
      LegacyAcceptsExactly(lib, body, e);
      var first: Term, links: seq<Link> :|
        LegacyForm(first) && LegacyLinks(links) && TermBytes(first) + LinkBytes(links) == body &&
        LinearMeaning(lib, first, links) == Ok(e);
      LegacyMeaningNormalised(lib, first);
      LeftFoldNormalised(lib, LegacyMeaning(lib, first).value, links);
    }
  }

  lemma {:induction false} PureAndIffOnlyAnds(lib: Library, e: Expr)
    requires Normalised(lib, e)
    ensures PureAnd(e) <==> OnlyAnds(e)
  {
    match e
    case Compound(_, l, r) =>
      PureAndIffOnlyAnds(lib, l);
      PureAndIffOnlyAnds(lib, r);
    case _ =>
  }

  /** The query of a request that is not empty is summarised if and only if all operators of its tree are AND. */
  lemma SummarizedIffOnlyAnds(lib: Library, body: Bytes, maxDepth: int)
    requires LawfulTrim(lib) && RequestQuery(lib, body, maxDepth).Ok?
    ensures var query := RequestQuery(lib, body, maxDepth).value;
            && query.root == Some(DecodeRequest(lib, body, maxDepth).value)
            && (query.summarized <==> body != [] && OnlyAnds(query.root.value))
  {
    var root := DecodeRequest(lib, body, maxDepth).value;
    DecodesNormalised(lib, body, maxDepth);
    PureAndIffOnlyAnds(lib, root);
    SummarizedIffPureAnd(root);
  }

  predicate OnlyAnds(e: Expr) {
    match e
    case Compound(operator, l, r) => operator == BOOL_AND && OnlyAnds(l) && OnlyAnds(r)
    case _ => true
  }
}
