/** What the depth limit does and does not bound: the height of the trees that requests decode to. */
module SearchDepth {
  import opened Basics
  import opened Library
  import opened SearchQueries
  import opened SearchSyntax
  import opened SearchProofs

  /** What the prefix encoding says is as high as the tree that is written down. */
  lemma {:induction false} MeaningHeight(lib: Library, t: Tree)
    requires Meaning(lib, t).Ok?
    ensures ExprHeight(Meaning(lib, t).value) == Height(t)
  {
    match t
    case Leaf(term) => TermHeight(lib, term);
    case Node(_, l, r) =>
      MeaningHeight(lib, l);
      MeaningHeight(lib, r);
  }

  lemma TermHeight(lib: Library, t: Term)
    requires TermMeaning(lib, t).Ok?
    ensures ExprHeight(TermMeaning(lib, t).value) == 0
  {
  }

  lemma LegacyTermHeight(lib: Library, t: Term)
    requires LegacyForm(t) && LegacyMeaning(lib, t).Ok?
    ensures ExprHeight(LegacyMeaning(lib, t).value) == 0
  {
  }

  /** Every link puts one more level on top of what came before it. */
  lemma {:induction false} FoldHeight(lib: Library, root: Expr, links: seq<Link>)
    requires LegacyLinks(links) && LeftFold(lib, root, links).Ok?
    ensures ExprHeight(LeftFold(lib, root, links).value) == ExprHeight(root) + |links|
    decreases |links|
  {
    if links != [] {
      LegacyTermHeight(lib, links[0].term);
      FoldHeight(lib, Compound(links[0].operator, root, LegacyMeaning(lib, links[0].term).value), links[1..]);
    }
  }

  lemma LinearHeight(lib: Library, first: Term, links: seq<Link>)
    requires LegacyForm(first) && LegacyLinks(links) && LinearMeaning(lib, first, links).Ok?
    ensures ExprHeight(LinearMeaning(lib, first, links).value) == |links|
  {
    LegacyTermHeight(lib, first);
    FoldHeight(lib, LegacyMeaning(lib, first).value, links);
  }

  /** A linear request decodes to a tree within the depth limit if and only if it has no more operators than that. */
  lemma LinearWithinDepthIff(lib: Library, first: Term, links: seq<Link>, maxDepth: int)
    requires LawfulTrim(lib) && LegacyForm(first) && LegacyLinks(links) && LinearMeaning(lib, first, links).Ok?
    ensures var decoded := DecodeRequest(lib, TermBytes(first) + LinkBytes(links), maxDepth);
            && decoded.Ok?
            && ExprHeight(decoded.value) == |links|
            && (ExprHeight(decoded.value) <= EffectiveDepth(maxDepth) <==> |links| <= EffectiveDepth(maxDepth))
  {
    DecodeInvertsLinear(lib, first, links, maxDepth);
    LinearHeight(lib, first, links);
  }

  /** The body is linear and has more operators than the limit allows levels. */
  ghost predicate LongLinear(body: Bytes, limit: int) {
    exists first: Term, links: seq<Link> ::
      LegacyForm(first) && LegacyLinks(links) && TermBytes(first) + LinkBytes(links) == body && |links| > limit
  }

  /** Exactly when the depth limit is exceeded, for every request that decodes. */
  lemma DecodedWithinDepthIff(lib: Library, body: Bytes, maxDepth: int)
    requires LawfulTrim(lib) && DecodeRequest(lib, body, maxDepth).Ok?
    ensures ExprHeight(DecodeRequest(lib, body, maxDepth).value) <= EffectiveDepth(maxDepth)
            <==> !LongLinear(body, EffectiveDepth(maxDepth))
  {
    var limit := EffectiveDepth(maxDepth);
    var e := DecodeRequest(lib, body, maxDepth).value;
    if LongLinear(body, limit) {
      var first: Term, links: seq<Link> :|
        LegacyForm(first) && LegacyLinks(links) && TermBytes(first) + LinkBytes(links) == body && |links| > limit;
      LinearDecodes(lib, first, links, maxDepth);
      LinearWithinDepthIff(lib, first, links, maxDepth);
    } else if body != [] {
      ShortDecoding(lib, body, maxDepth);
    }
  }

  /** A linear body of several terms can only be decoded as linear. */
  lemma LinearDecodes(lib: Library, first: Term, links: seq<Link>, maxDepth: int)
    requires LegacyForm(first) && LegacyLinks(links) && links != []
    requires DecodeRequest(lib, TermBytes(first) + LinkBytes(links), maxDepth).Ok?
    ensures LinearMeaning(lib, first, links).Ok?
  {
    LinkBytesSplit(links);
    PrefixOfLinear(lib, first, LinkBytes(links), EffectiveDepth(maxDepth));
    LinearParses(lib, first, links);
  }

  lemma ShortDecoding(lib: Library, body: Bytes, maxDepth: int)
    requires body != [] && DecodeRequest(lib, body, maxDepth).Ok? && !LongLinear(body, EffectiveDepth(maxDepth))
    ensures ExprHeight(DecodeRequest(lib, body, maxDepth).value) <= EffectiveDepth(maxDepth)
  {
    var limit := EffectiveDepth(maxDepth);
    var e := DecodeRequest(lib, body, maxDepth).value;
    if PrefixRequest(lib, body, limit).Ok? {
      PrefixAcceptsExactly(lib, body, limit, e);
      var t: Tree :| WellFormed(t) && TreeBytes(t) == body && Meaning(lib, t) == Ok(e) && Height(t) <= limit;
      MeaningHeight(lib, t);
    } else {
      LegacyAcceptsExactly(lib, body, e);
      var first: Term, links: seq<Link> :|
        LegacyForm(first) && LegacyLinks(links) && TermBytes(first) + LinkBytes(links) == body &&
        LinearMeaning(lib, first, links) == Ok(e);
      LinearHeight(lib, first, links);
    }
  }

  /** Without a limit of its own a request is held to 64 levels, and with a positive one to that. */
  lemma DefaultDepth(lib: Library, t: Tree, maxDepth: int)
    requires WellFormed(t) && Meaning(lib, t).Ok?
    ensures maxDepth <= 0 ==> (DecodeRequest(lib, TreeBytes(t), maxDepth).Ok? <==> Height(t) <= 64)
    ensures maxDepth > 0 ==> (DecodeRequest(lib, TreeBytes(t), maxDepth).Ok? <==> Height(t) <= maxDepth)
    ensures RequestQuery(lib, TreeBytes(t), DEFAULT_MAX_DEPTH).Ok? <==> Height(t) <= 64
  {
    DecodeInvertsTreeBytes(lib, t, maxDepth);
    DecodeInvertsTreeBytes(lib, t, 64);
  }

  // ---------------------------------------------------------------- a request that exceeds it

  const LETTER: Term := KeywordTerm([0x61])

  /** One letter, joined n times by AND to another of the same. */
  function Chain(n: nat): seq<Link> {
    seq(n, _ => Link(BOOL_AND, LETTER))
  }

  function ChainBody(n: nat): Bytes {
    TermBytes(LETTER) + LinkBytes(Chain(n))
  }

  /** For every limit, a request that decodes to a tree one level higher. */
  lemma DepthLimitExceeded(lib: Library, maxDepth: int)
    requires LawfulTrim(lib)
    ensures var body := ChainBody(EffectiveDepth(maxDepth) + 1);
            && DecodeRequest(lib, body, maxDepth).Ok?
            && ExprHeight(DecodeRequest(lib, body, maxDepth).value) == EffectiveDepth(maxDepth) + 1
  {
    var links := Chain(EffectiveDepth(maxDepth) + 1);
    ChainFolds(lib, MakeKeyword(lib, lib.trim([0x61])), links);
    LinearWithinDepthIff(lib, LETTER, links, maxDepth);
  }

  const WORD: Bytes := [1, 1, 0, 0x61]

  const THREE_WORDS: Bytes := WORD + [0, 0] + WORD + [0, 0] + WORD

  /** The request that exceeds a limit of one: three one-letter words, sixteen bytes. */
  lemma ThreeWordBytes()
    ensures ChainBody(2) == THREE_WORDS
  {
    LetterBytes();
    ChainBytes(2);
    ChainBytes(1);
    assert LinkBytes(Chain(0)) == [];
    Reassociate3(WORD, [0, 0] + WORD, [0, 0] + WORD);
  }

  lemma LetterBytes()
    ensures TermBytes(LETTER) == WORD
  {
    assert WriteLE(1, 2) == [1, 0];
  }

  lemma ChainBytes(n: nat)
    requires n > 0
    ensures LinkBytes(Chain(n)) == [0, 0] + TermBytes(LETTER) + LinkBytes(Chain(n - 1))
  {
    assert Chain(n)[1..] == Chain(n - 1);
  }

  lemma {:induction false} ChainFolds(lib: Library, root: Expr, links: seq<Link>)
    requires forall i :: 0 <= i < |links| ==> links[i] == Link(BOOL_AND, LETTER)
    ensures LegacyLinks(links) && LeftFold(lib, root, links).Ok?
    decreases |links|
  {
    if links != [] {
      ChainFolds(lib, Compound(BOOL_AND, root, LegacyMeaning(lib, LETTER).value), links[1..]);
    }
  }
}
