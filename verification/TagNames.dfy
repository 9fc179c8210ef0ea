/**
 Terms as clients write them, byte by byte, and what each decodes to: tags written as one byte or by name,
 for text terms and for numbers.
 */
module TagNames {
  import opened Basics
  import opened Library
  import opened SearchQueries
  import opened SearchSyntax
  import opened SearchProofs

  /** A text on the wire: its length in two bytes, low byte first, and its bytes. */
  function Text(s: Bytes): Bytes
    requires |s| <= 0xFFFF
  {
    [|s| % 256, |s| / 256] + s
  }

  function KeywordWire(raw: Bytes): Bytes
    requires |raw| <= 0xFFFF
  {
    [0x01] + Text(raw)
  }

  function TextWire(raw: Bytes, tag: Bytes): Bytes
    requires |raw| <= 0xFFFF && |tag| <= 0xFFFF
  {
    [0x02] + Text(raw) + Text(tag)
  }

  /** A 32-bit number is written low byte first after the byte 3. */
  function NumberWire(number: nat, operator: Byte, tag: Bytes): Bytes
    requires number < 0x1_0000_0000 && |tag| <= 0xFFFF
  {
    [0x03] + Four(number) + [operator] + Text(tag)
  }

  /** A 64-bit number is written low byte first after the byte 8. */
  function WideWire(number: UInt64, operator: Byte, tag: Bytes): Bytes
    requires |tag| <= 0xFFFF
  {
    [0x08] + (Four(number) + Four(number / 0x1_0000_0000)) + [operator] + Text(tag)
  }

  /** Four bytes, the lowest first. */
  function Four(n: nat): (s: Bytes)
    ensures |s| == 4
  {
    [n % 256, n / 0x100 % 256, n / 0x1_0000 % 256, n / 0x100_0000 % 256]
  }

  lemma FourIsWritten(n: nat)
    ensures WriteLE(n, 4) == Four(n)
  {
    assert n / 256 / 256 == n / 0x1_0000 && n / 0x1_0000 / 256 == n / 0x100_0000;
    assert WriteLE(n / 0x100_0000, 1) == [n / 0x100_0000 % 256];
    assert WriteLE(n / 0x1_0000, 2) == [n / 0x1_0000 % 256, n / 0x100_0000 % 256];
    assert WriteLE(n / 0x100, 3) == [n / 0x100 % 256] + WriteLE(n / 0x1_0000, 2);
  }

  lemma EightIsWritten(n: nat)
    ensures WriteLE(n, 8) == Four(n) + Four(n / 0x1_0000_0000)
  {
    var high := n / 0x1_0000_0000;
    assert n / 256 / 256 == n / 0x1_0000 && n / 0x1_0000 / 256 == n / 0x100_0000 && n / 0x100_0000 / 256 == high;
    assert WriteLE(n / 0x100_0000, 5) == [n / 0x100_0000 % 256] + WriteLE(high, 4);
    assert WriteLE(n / 0x1_0000, 6) == [n / 0x1_0000 % 256] + WriteLE(n / 0x100_0000, 5);
    assert WriteLE(n / 0x100, 7) == [n / 0x100 % 256] + WriteLE(n / 0x1_0000, 6);
    FourIsWritten(high);
  }

  lemma TextIsWritten(s: Bytes)
    requires |s| <= 0xFFFF
    ensures StringBytes(s) == Text(s)
  {
    assert WriteLE(|s| / 256, 1) == [|s| / 256];
  }

  /** The bytes of every term. */
  lemma TermsOnTheWire(t: Term)
    requires WellFormedTerm(t)
    ensures match t
            case KeywordTerm(raw) => TermBytes(t) == KeywordWire(raw)
            case StringTerm(raw, tag) => TermBytes(t) == TextWire(raw, tag)
            case NumberTerm(wide, number, operator, tag) =>
              TermBytes(t) == if wide then WideWire(number, operator, tag) else NumberWire(number, operator, tag)
  {
    match t
    case KeywordTerm(raw) => TextIsWritten(raw);
    case StringTerm(raw, tag) =>
      TextIsWritten(raw);
      TextIsWritten(tag);
    case NumberTerm(wide, number, operator, tag) =>
      TextIsWritten(tag);
      FourIsWritten(number);
      EightIsWritten(number);
  }

  /** A node of the prefix encoding is a zero byte, the operator, and the two subtrees. */
  lemma NodesOnTheWire(operator: Byte, l: Tree, r: Tree)
    ensures TreeBytes(Node(operator, l, r)) == [0x00, operator] + TreeBytes(l) + TreeBytes(r)
  {
  }

  // ---------------------------------------------------------------- the whole decoder on one term

  /** A single term decodes to its meaning in the prefix encoding, else to what the linear parser makes of it. */
  lemma TermDecodes(lib: Library, t: Term, maxDepth: int)
    requires WellFormedTerm(t)
    ensures TermMeaning(lib, t).Ok? ==> DecodeRequest(lib, TermBytes(t), maxDepth) == TermMeaning(lib, t)
    ensures TermMeaning(lib, t).Err? && LegacyForm(t) ==>
              DecodeRequest(lib, TermBytes(t), maxDepth) ==
              match LegacyMeaning(lib, t)
              case Ok(e) => Ok(e)
              case Err(e) => Err(BothFailed(TermMeaning(lib, t).error, e))
    ensures TermMeaning(lib, t).Err? && LegacyRequest(lib, TermBytes(t)).Err? ==> DecodeRequest(lib, TermBytes(t), maxDepth).Err?
  {
    var limit := EffectiveDepth(maxDepth);
    LeafParses(lib, t, [], 0, limit);
    assert TermBytes(t) + [] == TermBytes(t);
    if LegacyForm(t) {
      LinearParses(lib, t, []);
    }
  }

  /** The linear parser refuses a tag longer than one byte. */
  lemma LongTagRefused(lib: Library, t: Term)
    requires WellFormedTerm(t) && !t.KeywordTerm? && |t.tag| > 1
    ensures LegacyRequest(lib, TermBytes(t)).Err?
  {
    assert TermBytes(t) + [] == TermBytes(t);
    match t
    case StringTerm(raw, tag) => LongTextTagRefused(lib, raw, tag);
    case NumberTerm(_, _, _, _) => LongNumberTagRefused(lib, t);
  }

  lemma TagCountOfLong(tag: Bytes)
    requires 1 < |tag| <= 0xFFFF
    ensures TakeLegacyTagID(StringBytes(tag) + []).Fail?
  {
    TakeRawOfWrite(tag, []);
  }

  lemma LongTextTagRefused(lib: Library, raw: Bytes, tag: Bytes)
    requires |raw| <= 0xFFFF && 1 < |tag| <= 0xFFFF
    ensures LegacyTerm(lib, TermBytes(StringTerm(raw, tag))).Fail?
  {
    var s := TermBytes(StringTerm(raw, tag));
    assert s[0] == TYPE_STR_TAG && s[1..] == StringBytes(raw) + (StringBytes(tag) + []);
    TakeStringOfWrite(lib, raw, StringBytes(tag) + []);
    TagCountOfLong(tag);
  }

  lemma LongNumberTagRefused(lib: Library, t: Term)
    requires WellFormedTerm(t) && t.NumberTerm? && |t.tag| > 1
    ensures LegacyTerm(lib, TermBytes(t)).Fail?
  {
    var s := TermBytes(t) + [];
    assert s == TermBytes(t);
    var digits := WriteLE(t.number, Width(t.wide));
    var tail := [t.operator] + (StringBytes(t.tag) + []);
    assert s[0] == NumberType(t.wide) && s[1..] == digits + tail by { NumberSplits(digits, t, []); }
    TakeUInt64OfWrite(t.wide, t.number, tail);
    LegacyNumberLeaf(lib, s, t.wide);
    assert tail[1..] == StringBytes(t.tag) + [];
    TagCountOfLong(t.tag);
  }

  // ---------------------------------------------------------------- numbers

  const BITRATE_TEXT: Bytes := [0x62, 0x69, 0x74, 0x72, 0x61, 0x74, 0x65]
  const LENGTH_TEXT: Bytes := [0x6C, 0x65, 0x6E, 0x67, 0x74, 0x68]
  const CODEC_TEXT: Bytes := [0x63, 0x6F, 0x64, 0x65, 0x63]

  /** A number as it is written, wide or not. */
  function AnyNumberWire(wide: bool, number: UInt64, operator: Byte, tag: Bytes): Bytes
    requires |tag| <= 0xFFFF && (!wide ==> number < 0x1_0000_0000)
  {
    if wide then WideWire(number, operator, tag) else NumberWire(number, operator, tag)
  }

  /** The text is at most one of the names. */
  predicate NamesApart(lib: Library, name: Bytes) {
    && !(lib.fold(name, BITRATE_TEXT) && lib.fold(name, LENGTH_TEXT))
    && !(lib.fold(name, CODEC_TEXT) && lib.fold(name, LENGTH_TEXT))
  }

  /** The names are different also letter case aside. */
  lemma NamesDiffer(lib: Library, name: Bytes)
    requires LawfulFold(lib) && LawfulAscii(lib)
    ensures NamesApart(lib, name)
  {
    assert !lib.fold(BITRATE_TEXT, LENGTH_TEXT) && !lib.fold(CODEC_TEXT, LENGTH_TEXT) by { NameTextsApart(lib); }
    assert !(lib.fold(name, BITRATE_TEXT) && lib.fold(name, LENGTH_TEXT)) by {
      NotBoth(lib, name, BITRATE_TEXT, LENGTH_TEXT);
    }
    assert !(lib.fold(name, CODEC_TEXT) && lib.fold(name, LENGTH_TEXT)) by {
      NotBoth(lib, name, CODEC_TEXT, LENGTH_TEXT);
    }
  }

  lemma NameTextsApart(lib: Library)
    requires LawfulAscii(lib)
    ensures !lib.fold(BITRATE_TEXT, LENGTH_TEXT) && !lib.fold(CODEC_TEXT, LENGTH_TEXT)
  {
    NamesAreAscii();
    TextsApart(lib, BITRATE_TEXT, LENGTH_TEXT);
    TextsApart(lib, CODEC_TEXT, LENGTH_TEXT);
  }

  lemma NamesAreAscii()
    ensures IsAscii(BITRATE_TEXT) && IsAscii(LENGTH_TEXT) && IsAscii(CODEC_TEXT)
  {
  }

  lemma TextsApart(lib: Library, a: Bytes, b: Bytes)
    requires LawfulAscii(lib) && IsAscii(a) && IsAscii(b) && |a| != |b|
    ensures !lib.fold(a, b)
  {
    assert lib.fold(a, b) == (AsciiLower(a) == AsciiLower(b));
    assert |AsciiLower(a)| != |AsciiLower(b)|;
  }

  lemma NotBoth(lib: Library, name: Bytes, a: Bytes, b: Bytes)
    requires LawfulFold(lib) && !lib.fold(a, b)
    ensures !(lib.fold(name, a) && lib.fold(name, b))
  {
    assert lib.fold(name, a) ==> lib.fold(a, name);
  }

  /**
   A number whose tag is written by name: "bitrate" is tag 0xD4, "length" is tag 0xD3, letter case aside, and every
   other name is refused.
   */
  lemma NumberByName(lib: Library, wide: bool, number: UInt64, operator: Byte, tag: Bytes, maxDepth: int)
    requires LawfulTrim(lib) && LawfulFold(lib) && LawfulAscii(lib)
    requires operator <= 5 && (!wide ==> number < 0x1_0000_0000) && |tag| <= 0xFFFF && |lib.trim(tag)| > 1
    ensures var decoded := DecodeRequest(lib, AnyNumberWire(wide, number, operator, tag), maxDepth);
            var name := lib.trim(tag);
            && (lib.fold(name, BITRATE_TEXT) ==> decoded == Ok(Numeric(0xD4, operator, number)))
            && (lib.fold(name, LENGTH_TEXT) ==> decoded == Ok(Numeric(0xD3, operator, number)))
            && (!lib.fold(name, BITRATE_TEXT) && !lib.fold(name, LENGTH_TEXT) ==> decoded.Err?)
  {
    var t := NumberTerm(wide, number, operator, tag);
    assert |tag| > 1;
    TermsOnTheWire(t);
    TermDecodes(lib, t, maxDepth);
    LongTagRefused(lib, t);
    NamesDiffer(lib, lib.trim(tag));
    NumberNameMeans(lib, wide, number, operator, tag);
  }

  lemma NumberNameMeans(lib: Library, wide: bool, number: UInt64, operator: Byte, tag: Bytes)
    requires operator <= 5 && |lib.trim(tag)| > 1 && NamesApart(lib, lib.trim(tag))
    ensures var meaning, name := TermMeaning(lib, NumberTerm(wide, number, operator, tag)), lib.trim(tag);
            && (lib.fold(name, BITRATE_TEXT) ==> meaning == Ok(Numeric(0xD4, operator, number)))
            && (lib.fold(name, LENGTH_TEXT) ==> meaning == Ok(Numeric(0xD3, operator, number)))
            && (!lib.fold(name, BITRATE_TEXT) && !lib.fold(name, LENGTH_TEXT) ==> meaning.Err?)
  {
    assert TagOf(lib, tag) == Ok(ByName(lib.trim(tag)));
  }

  /** A number whose tag is one byte: exactly the five numeric tags are known, and each is taken as it stands. */
  lemma NumberByByte(lib: Library, wide: bool, number: UInt64, operator: Byte, tag: Byte, maxDepth: int)
    requires operator <= 5 && (!wide ==> number < 0x1_0000_0000) && lib.trim([tag]) == [tag]
    ensures var decoded := DecodeRequest(lib, AnyNumberWire(wide, number, operator, [tag]), maxDepth);
            if tag in {0x02, 0x15, 0x30, 0xD3, 0xD4} then decoded == Ok(Numeric(tag, operator, number)) else decoded.Err?
  {
    var t := NumberTerm(wide, number, operator, [tag]);
    TermsOnTheWire(t);
    TermDecodes(lib, t, maxDepth);
    NumberByteMeans(lib, wide, number, operator, tag);
  }

  lemma NumberByteMeans(lib: Library, wide: bool, number: UInt64, operator: Byte, tag: Byte)
    requires operator <= 5 && lib.trim([tag]) == [tag]
    ensures var t := NumberTerm(wide, number, operator, [tag]);
            if tag in {0x02, 0x15, 0x30, 0xD3, 0xD4} then TermMeaning(lib, t) == Ok(Numeric(tag, operator, number))
            else TermMeaning(lib, t).Err? && (LegacyForm(t) ==> LegacyMeaning(lib, t).Err?)
  {
    assert TagOf(lib, [tag]) == Ok(ById(tag));
  }

  /** A number with an operator byte above five is refused, whatever its tag. */
  lemma NumberOperatorRefused(lib: Library, wide: bool, number: UInt64, operator: Byte, tag: Bytes, maxDepth: int)
    requires operator > 5 && (!wide ==> number < 0x1_0000_0000) && |tag| <= 0xFFFF
    ensures DecodeRequest(lib, AnyNumberWire(wide, number, operator, tag), maxDepth).Err?
  {
    var t := NumberTerm(wide, number, operator, tag);
    TermsOnTheWire(t);
    TermDecodes(lib, t, maxDepth);
    var s := TermBytes(t) + [];
    assert s == TermBytes(t);
    var digits := WriteLE(number, Width(wide));
    var tail := [operator] + (StringBytes(tag) + []);
    assert s[0] == NumberType(wide) && s[1..] == digits + tail by { NumberSplits(digits, t, []); }
    TakeUInt64OfWrite(wide, number, tail);
    LegacyNumberLeaf(lib, s, wide);
  }

  // ---------------------------------------------------------------- texts

  /** A keyword decodes to itself, trimmed; an empty one finds everything. */
  lemma KeywordDecodes(lib: Library, raw: Bytes, maxDepth: int)
    requires LawfulTrim(lib) && |raw| <= 0xFFFF
    ensures DecodeRequest(lib, KeywordWire(raw), maxDepth) ==
            Ok(if lib.trim(raw) == [] then MatchAll else Keyword(lib.trim(raw)))
  {
    TermsOnTheWire(KeywordTerm(raw));
    TermDecodes(lib, KeywordTerm(raw), maxDepth);
  }

  /**
   A text whose tag is written by name: "codec" is tag 0xD5; "length" is a number with tag 0xD3 that has to be
   equal, or refused if the text is no length; every other name is refused. An empty text finds everything.
   */
  lemma TextByName(lib: Library, raw: Bytes, tag: Bytes, maxDepth: int)
    requires LawfulTrim(lib) && LawfulFold(lib) && LawfulAscii(lib)
    requires |raw| <= 0xFFFF && |tag| <= 0xFFFF && |lib.trim(tag)| > 1
    ensures var decoded := DecodeRequest(lib, TextWire(raw, tag), maxDepth);
            var name, value := lib.trim(tag), lib.trim(raw);
            && (value == [] ==> decoded == Ok(MatchAll))
            && (value != [] && lib.fold(name, CODEC_TEXT) ==> decoded == Ok(StringTag(0xD5, value)))
            && (value != [] && lib.fold(name, LENGTH_TEXT) ==> DecodedLength(lib, decoded, value))
            && (value != [] && !lib.fold(name, CODEC_TEXT) && !lib.fold(name, LENGTH_TEXT) ==> decoded.Err?)
  {
    var t := StringTerm(raw, tag);
    assert |tag| > 1;
    TermsOnTheWire(t);
    TermDecodes(lib, t, maxDepth);
    LongTagRefused(lib, t);
    NamesDiffer(lib, lib.trim(tag));
    TextNameMeans(lib, raw, tag);
  }

  lemma TextNameMeans(lib: Library, raw: Bytes, tag: Bytes)
    requires |lib.trim(tag)| > 1 && NamesApart(lib, lib.trim(tag)) && lib.trim(lib.trim(raw)) == lib.trim(raw)
    ensures var meaning, name, value := TermMeaning(lib, StringTerm(raw, tag)), lib.trim(tag), lib.trim(raw);
            && (value == [] ==> meaning == Ok(MatchAll))
            && (value != [] && lib.fold(name, CODEC_TEXT) ==> meaning == Ok(StringTag(0xD5, value)))
            && (value != [] && lib.fold(name, LENGTH_TEXT) ==> DecodedLength(lib, meaning, value))
            && (value != [] && !lib.fold(name, CODEC_TEXT) && !lib.fold(name, LENGTH_TEXT) ==> meaning.Err?)
  {
    assert TagOf(lib, tag) == Ok(ByName(lib.trim(tag)));
  }

  /** The seconds of the text, asked for exactly, or an error. */
  ghost predicate DecodedLength(lib: Library, decoded: Result<Expr>, value: Bytes) {
    match ParseMediaLength(lib, value)
    case Ok(seconds) => decoded == Ok(Numeric(0xD3, 0, seconds % 0x1_0000_0000_0000_0000))
    case Err(_) => decoded.Err?
  }

  /** A text whose tag is one byte: exactly the four text tags are known. */
  lemma TextByByte(lib: Library, raw: Bytes, tag: Byte, maxDepth: int)
    requires LawfulTrim(lib) && |raw| <= 0xFFFF && lib.trim([tag]) == [tag]
    ensures var decoded := DecodeRequest(lib, TextWire(raw, [tag]), maxDepth);
            var value := lib.trim(raw);
            if value == [] then decoded == Ok(MatchAll)
            else if tag in {0x03, 0x04, 0xD5} then decoded == Ok(StringTag(tag, value))
            else if tag == 0xD3 then DecodedLength(lib, decoded, value)
            else decoded.Err?
  {
    var t := StringTerm(raw, [tag]);
    TermsOnTheWire(t);
    TermDecodes(lib, t, maxDepth);
    TextByteMeans(lib, raw, tag);
  }

  lemma TextByteMeans(lib: Library, raw: Bytes, tag: Byte)
    requires |raw| <= 0xFFFF && lib.trim([tag]) == [tag] && lib.trim(lib.trim(raw)) == lib.trim(raw)
    ensures var t, value := StringTerm(raw, [tag]), lib.trim(raw);
            && LegacyMeaning(lib, t) == TermMeaning(lib, t)
            && if value == [] then TermMeaning(lib, t) == Ok(MatchAll)
               else if tag in {0x03, 0x04, 0xD5} then TermMeaning(lib, t) == Ok(StringTag(tag, value))
               else if tag == 0xD3 then DecodedLength(lib, TermMeaning(lib, t), value)
               else TermMeaning(lib, t).Err?
  {
    assert TagOf(lib, [tag]) == Ok(ById(tag));
  }
}
