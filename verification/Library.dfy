/**
 The library routines the server calls, as parameters. Everything that depends on them is proved for
 every choice of these functions; where a result needs one of their laws it
 asks for `Lawful`. `AsciiLibrary` is one lawful choice, so the laws do not contradict each other.
 */
module Library {
  import opened Basics

  const FT_FILE_SIZE: Byte := 0x02
  const FT_FILE_TYPE: Byte := 0x03
  const FT_FILE_FORMAT: Byte := 0x04
  const FT_SOURCES: Byte := 0x15
  const FT_COMPLETE_SOURCES: Byte := 0x30
  const FT_MEDIA_LENGTH: Byte := 0xD3
  const FT_MEDIA_BITRATE: Byte := 0xD4
  const FT_MEDIA_CODEC: Byte := 0xD5

  const DOT: Byte := 0x2E
  const COLON: Byte := 0x3A

  /** The search tags the parser supports, each named on the wire by its own byte. */
  predicate SupportedTag(id: Byte) {
    id in {FT_FILE_SIZE, FT_FILE_TYPE, FT_FILE_FORMAT, FT_SOURCES, FT_COMPLETE_SOURCES,
           FT_MEDIA_LENGTH, FT_MEDIA_BITRATE, FT_MEDIA_CODEC}
  }

  /** A network address: an IPv4 address as a signed number, and a port. */
  datatype Endpoint = Endpoint(ip: int, port: int)

  /** strings.TrimSpace, strings.ToLower, strings.EqualFold, and the parsing of a host and a port. */
  datatype Library = Library(
    trim: Bytes -> Bytes,
    lower: Bytes -> Bytes,
    fold: (Bytes, Bytes) -> bool,
    resolve: (Bytes, int) -> Option<Endpoint>)

  ghost predicate LawfulTrim(lib: Library) {
    && (forall s: Bytes :: lib.trim(lib.trim(s)) == lib.trim(s) && |lib.trim(s)| <= |s|)
    && (forall b: Byte :: lib.trim([b]) == [b] || lib.trim([b]) == [])
    && (forall b: Byte :: SupportedTag(b) ==> lib.trim([b]) == [b])
  }

  ghost predicate LawfulFold(lib: Library) {
    && (forall a: Bytes :: lib.fold(a, a))
    && (forall a: Bytes, b: Bytes :: lib.fold(a, b) ==> lib.fold(b, a))
    && (forall a: Bytes, b: Bytes, c: Bytes :: lib.fold(a, b) && lib.fold(b, c) ==> lib.fold(a, c))
    && (forall a: Bytes, b: Bytes :: a == [DOT] + b ==> !lib.fold(a, b))
  }

  /** On 7-bit strings lower and fold are the plain letter-case maps, and trim only touches outer white space. */
  ghost predicate LawfulAscii(lib: Library) {
    && (forall s: Bytes :: IsAscii(s) ==> lib.lower(s) == AsciiLower(s))
    && (forall a: Bytes, b: Bytes :: IsAscii(a) && IsAscii(b) ==> lib.fold(a, b) == (AsciiLower(a) == AsciiLower(b)))
    && (forall s: Bytes :: IsAscii(s) && s != [] && !IsSpace(s[0]) && !IsSpace(s[|s| - 1]) ==> lib.trim(s) == s)
  }

  ghost predicate Lawful(lib: Library) {
    LawfulTrim(lib) && LawfulFold(lib) && LawfulAscii(lib)
  }

  predicate IsAscii(s: Bytes) {
    forall i :: 0 <= i < |s| ==> s[i] < 0x80
  }

  function LowerByte(b: Byte): Byte {
    if 0x41 <= b <= 0x5A then b + 0x20 else b
  }

  function AsciiLower(s: Bytes): (r: Bytes)
    ensures |r| == |s|
    ensures forall i :: 0 <= i < |s| ==> r[i] == LowerByte(s[i])
  {
    seq(|s|, i requires 0 <= i < |s| => LowerByte(s[i]))
  }

  predicate IsSpace(b: Byte) {
    b == 0x20 || 0x09 <= b <= 0x0D
  }

  function AsciiTrimLeft(s: Bytes): (r: Bytes)
    ensures |r| <= |s|
    ensures r == [] || !IsSpace(r[0])
    ensures s != [] && !IsSpace(s[0]) ==> r == s
  {
    if s != [] && IsSpace(s[0]) then AsciiTrimLeft(s[1..]) else s
  }

  function AsciiTrimRight(s: Bytes): (r: Bytes)
    ensures r <= s
    ensures r == [] || !IsSpace(r[|r| - 1])
    ensures s != [] && !IsSpace(s[|s| - 1]) ==> r == s
  {
    if s != [] && IsSpace(s[|s| - 1]) then AsciiTrimRight(s[..|s| - 1]) else s
  }

  /** The routines restricted to 7-bit case and white space: a lawful library. */
  function AsciiLibrary(): Library {
    Library(s => AsciiTrim(s), s => AsciiLower(s), (a, b) => AsciiLower(a) == AsciiLower(b), (host, port) => None)
  }

  function AsciiTrim(s: Bytes): Bytes {
    AsciiTrimRight(AsciiTrimLeft(s))
  }

  lemma AsciiTrimLaw(s: Bytes)
    ensures AsciiTrim(AsciiTrim(s)) == AsciiTrim(s) && |AsciiTrim(s)| <= |s|
  {
    var t := AsciiTrim(s);
    assert t == [] || t[0] == AsciiTrimLeft(s)[0];
    assert AsciiTrimLeft(t) == t;
  }

  lemma AsciiTrimByte(b: Byte)
    ensures AsciiTrim([b]) == if IsSpace(b) then [] else [b]
  {
    assert [b][1..] == [];
  }

  lemma AsciiFoldDot(a: Bytes, b: Bytes)
    requires a == [DOT] + b
    ensures AsciiLower(a) != AsciiLower(b)
  {
    assert |AsciiLower(a)| == 1 + |AsciiLower(b)|;
  }

  lemma AsciiTrimIsLawful()
    ensures LawfulTrim(AsciiLibrary())
  {
    var lib := AsciiLibrary();
    assert forall s: Bytes :: lib.trim(s) == AsciiTrim(s);
    forall s: Bytes
      ensures AsciiTrim(AsciiTrim(s)) == AsciiTrim(s) && |AsciiTrim(s)| <= |s|
    {
      AsciiTrimLaw(s);
    }
    forall b: Byte
      ensures AsciiTrim([b]) == if IsSpace(b) then [] else [b]
    {
      AsciiTrimByte(b);
    }
  }

  lemma AsciiFoldIsLawful()
    ensures LawfulFold(AsciiLibrary()) && LawfulAscii(AsciiLibrary())
  {
    var lib := AsciiLibrary();
    assert forall a: Bytes, b: Bytes :: lib.fold(a, b) == (AsciiLower(a) == AsciiLower(b));
    forall a: Bytes, b: Bytes | a == [DOT] + b
      ensures !lib.fold(a, b)
    {
      AsciiFoldDot(a, b);
    }
  }

  lemma LawsAreConsistent()
    ensures Lawful(AsciiLibrary())
  {
    AsciiTrimIsLawful();
    AsciiFoldIsLawful();
  }
}

/** File records as the catalog and the sessions store them. */
module Records {
  import opened Basics
  import opened Library

  /** An ED2K hash: a 16-byte value, here as the number whose digits its text form shows. Zero means unset. */
  type Hash = h: int | 0 <= h < 0x1_0000_0000_0000_0000_0000_0000_0000_0000

  datatype SourceEntry = SourceEntry(host: Bytes, port: int, obfuscationOptions: Byte, userHash: Bytes)

  datatype FileRecord = FileRecord(
    hash: Hash,
    name: Bytes,
    size: int,
    fileType: Bytes,
    extension: Bytes,
    mediaCodec: Bytes,
    mediaLength: int,
    mediaBitrate: int,
    sources: int,
    completeSources: int,
    endpoints: seq<SourceEntry>)

  function HexDigit(v: int): (d: Byte)
    requires 0 <= v < 16
  {
    if v < 10 then 0x30 + v else 0x41 + v - 10
  }

  /** The last digits of n in hexadecimal. */
  function HexText(n: nat, digits: nat): (s: Bytes)
    ensures |s| == digits
    ensures IsAscii(s)
  {
    if digits == 0 then [] else HexText(n / 16, digits - 1) + [HexDigit(n % 16)]
  }

  /** A hash as text: 32 hexadecimal digits, upper case. */
  function HashText(h: Hash): (s: Bytes)
    ensures |s| == 32
    ensures IsAscii(s)
  {
    HexText(h, 32)
  }

  predicate IsLowerHexDigit(b: Byte) {
    0x30 <= b <= 0x39 || 0x61 <= b <= 0x66
  }

  predicate IsLowerHex(s: Bytes) {
    forall i :: 0 <= i < |s| ==> IsLowerHexDigit(s[i])
  }

  function DigitValue(b: Byte): (v: int)
    requires IsLowerHexDigit(b)
    ensures 0 <= v < 16
    ensures LowerByte(HexDigit(v)) == b
  {
    if b <= 0x39 then b - 0x30 else b - 0x61 + 10
  }

  function HexValue(s: Bytes): (n: nat)
    requires IsLowerHex(s)
  {
    if s == [] then 0 else 16 * HexValue(s[..|s| - 1]) + DigitValue(s[|s| - 1])
  }

  function Pow16(k: nat): nat {
    if k == 0 then 1 else 16 * Pow16(k - 1)
  }

  lemma {:induction false} HexValueBound(s: Bytes)
    requires IsLowerHex(s)
    ensures HexValue(s) < Pow16(|s|)
  {
    if s != [] {
      HexValueBound(s[..|s| - 1]);
    }
  }

  /** Reading hexadecimal digits and writing them again only changes their case. */
  lemma {:induction false} HexRoundTrip(s: Bytes)
    requires IsLowerHex(s)
    ensures AsciiLower(HexText(HexValue(s), |s|)) == s
  {
    if s != [] {
      var last := s[|s| - 1];
      var front := s[..|s| - 1];
      HexRoundTrip(front);
      assert HexValue(s) / 16 == HexValue(front) && HexValue(s) % 16 == DigitValue(last);
      LowerOfAppend(HexText(HexValue(front), |front|), HexDigit(DigitValue(last)));
      assert s == front + [last];
    }
  }

  /** The hexadecimal text of a number, in lower case, reads as that number again. */
  lemma {:induction false} HexTextReads(n: nat, digits: nat)
    requires n < Pow16(digits)
    ensures IsLowerHex(AsciiLower(HexText(n, digits))) && HexValue(AsciiLower(HexText(n, digits))) == n
  {
    if digits > 0 {
      var front := HexText(n / 16, digits - 1);
      HexTextReads(n / 16, digits - 1);
      LowerOfAppend(front, HexDigit(n % 16));
      DigitReads(n % 16);
      HexValueOfAppend(AsciiLower(front), LowerByte(HexDigit(n % 16)));
    }
  }

  lemma DigitReads(v: int)
    requires 0 <= v < 16
    ensures IsLowerHexDigit(LowerByte(HexDigit(v))) && DigitValue(LowerByte(HexDigit(v))) == v
  {
  }

  lemma HexValueOfAppend(s: Bytes, b: Byte)
    requires IsLowerHex(s) && IsLowerHexDigit(b)
    ensures IsLowerHex(s + [b]) && HexValue(s + [b]) == 16 * HexValue(s) + DigitValue(b)
  {
    assert (s + [b])[..|s|] == s;
  }

  /** Among lower-case tokens, a hash's text equals exactly the one that is its value, letter case aside. */
  lemma HashTextMatchesIff(h: Hash, token: Bytes)
    requires |token| == 32 && IsLowerHex(token)
    ensures AsciiLower(HashText(h)) == AsciiLower(token) <==> h == HexValue(token)
  {
    assert AsciiLower(token) == token;
    Pow16Of32();
    HexTextReads(h, 32);
    HexRoundTrip(token);
  }

  lemma LowerOfAppend(s: Bytes, b: Byte)
    ensures AsciiLower(s + [b]) == AsciiLower(s) + [LowerByte(b)]
  {
  }

  lemma Pow16Of32()
    ensures Pow16(32) == 0x1_0000_0000_0000_0000_0000_0000_0000_0000
  {
    assert Pow16(8) == 0x1_0000_0000;
    assert Pow16(16) == 0x1_0000_0000_0000_0000;
    assert Pow16(24) == 0x1_0000_0000_0000_0000_0000_0000;
  }
}
