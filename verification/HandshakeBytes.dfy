/** The handshake on the wire: what is sent byte by byte, and exactly which bytes from a client are accepted. */
module HandshakeBytes {
  import opened Basics
  import opened KeyStreams
  import opened Rc4
  import opened KeyAgreement
  import opened Obfuscation

  /** The k-th digit to the base 256, counted from the lowest. */
  function Digit(n: nat, k: nat): Byte {
    if k == 0 then n % 256 else Digit(n / 256, k - 1)
  }

  /** A number in so many bytes, the highest digit first. */
  lemma {:induction false} HighestFirst(n: nat, width: nat, i: nat)
    requires i < width
    ensures WriteBE(n, width)[width - 1 - i] == Digit(n, i)
    decreases width
  {
    if i > 0 {
      HighestFirst(n / 256, width - 1, i - 1);
    }
  }

  /** A number in so many bytes, the lowest digit first. */
  lemma {:induction false} LowestFirst(n: nat, width: nat, i: nat)
    requires i < width
    ensures WriteLE(n, width)[i] == Digit(n, i)
    decreases width
  {
    if i > 0 {
      LowestFirst(n / 256, width - 1, i - 1);
    }
  }

  // ---------------------------------------------------------------- what is sent

  const SYNC: Bytes := [0xC4, 0x6F, 0x5E, 0x83]

  lemma SyncIsWritten()
    ensures WriteLE(0x835E6FC4, 4) == SYNC
  {
    assert WriteLE(0x83, 1) == [0x83];
    assert WriteLE(0x835E, 2) == [0x5E] + WriteLE(0x83, 1);
    assert WriteLE(0x835E6F, 3) == [0x6F] + WriteLE(0x835E, 2);
    assert WriteLE(0x835E6FC4, 4) == [0xC4] + WriteLE(0x835E6F, 3);
  }

  /** The key of a direction is the digest of the secret in 96 bytes and one more byte. */
  function DirectionKey(md5: Digest, secret: nat, direction: Byte): Key {
    md5(WriteBE(secret, 96) + [direction])
  }

  /**
   The server sends its public value, the power of two, in 96 bytes, and then, under the keystream of byte 203, the
   four bytes of the magic, two zero bytes, the number of padding bytes and these.
   */
  lemma HelloBytes(p: nat, md5: Digest, priv: nat, clientPublic: nat, padding: Bytes)
    requires p > 1 && |padding| <= 15
    ensures ServerHello(p, md5, priv, clientPublic, padding) ==
            WriteBE(Pow(2, priv) % p, 96) +
            Crypted(KeyedStream(DirectionKey(md5, Pow(clientPublic, priv) % p, 203)), 0, SYNC + [0, 0, |padding|] + padding)
  {
    SyncIsWritten();
    ModPowIsPow(2, priv, p);
    ModPowIsPow(clientPublic, priv, p);
    assert HelloTail(padding) == SYNC + [0, 0, |padding|] + padding;
  }

  // ---------------------------------------------------------------- what is accepted

  /** A whole opening: a public value between zero and the modulus in 96 bytes, and at most 15 bytes of padding, counted by one byte. */
  predicate GoodOpening(p: nat, input: Bytes) {
    && |input| >= 97 && input[96] <= 15 && |input| >= 97 + input[96]
    && 0 < ReadBE(input[..96]) < p
  }

  /** The bytes after a whole opening. */
  function AfterOpening(input: Bytes): Bytes
    requires |input| >= 97 && |input| - 97 >= input[96]
  {
    input[97 + input[96]..]
  }

  lemma OpeningIff(p: nat, input: Bytes)
    ensures if GoodOpening(p, input) then OpeningOf(p, input) == Opened(ReadBE(input[..96]), AfterOpening(input))
            else OpeningOf(p, input).BadOpening?
  {
  }

  /** Which failure an opening that is not accepted meets first. */
  lemma OpeningFailure(p: nat, input: Bytes)
    requires !GoodOpening(p, input)
    ensures var failure := OpeningOf(p, input).failure;
            && (failure == UnexpectedEnd <==> |input| < 97 || (input[96] <= 15 && |input| < 97 + input[96]))
            && (|input| >= 97 && input[96] > 15 ==> failure == BadPadding(input[96]))
            && (failure == BadPublicValue <==> |input| >= 97 && input[96] <= 15 && |input| >= 97 + input[96])
  {
  }

  /** A whole header in clear: the magic, a zero byte, and at most 15 bytes of padding, counted by one byte. */
  predicate GoodHeader(clear: Bytes) {
    && |clear| >= 6 && clear[..4] == SYNC && clear[4] == 0 && clear[5] <= 15 && |clear| >= 6 + clear[5]
  }

  lemma SyncIff(four: Bytes)
    requires |four| == 4
    ensures ReadLE(four) == 0x835E6FC4 <==> four == SYNC
  {
    SyncIsWritten();
    WriteReadLE(four);
    assert Pow256(4) > 0x835E6FC4 by {
      assert Pow256(1) == 256 && Pow256(2) == 256 * Pow256(1) && Pow256(3) == 256 * Pow256(2);
    }
    ReadWriteLE(0x835E6FC4, 4);
  }

  lemma HeaderIff(public: nat, stream: KeyStream, input: Bytes)
    ensures var clear := Crypted(stream, 0, input);
            if GoodHeader(clear) then
              HeaderOutcome(public, stream, input) == Agreed(public, stream, 6 + clear[5], input[6 + clear[5]..])
            else HeaderOutcome(public, stream, input).Failed?
  {
    if |input| >= 6 {
      var clear := Crypted(stream, 0, input);
      assert input == input[..6] + input[6..];
      CryptedSum(stream, 0, input[..6], input[6..]);
      var header := Crypted(stream, 0, input[..6]);
      assert clear[..6] == header && clear[..4] == header[..4];
      SyncIff(header[..4]);
    }
  }

  /**
   Exactly which bytes a client can agree with: a whole opening and, under the keystream of byte 34 of the secret,
   a whole header with at least one byte after it. The stream goes on right behind the header.
   */
  lemma HandshakeIff(p: nat, md5: Digest, priv: nat, input: Bytes)
    requires p > 1
    ensures var outcome := HandshakeOutcome(p, md5, priv, input);
            outcome.Agreed? <==>
            && GoodOpening(p, input)
            && var stream := KeyedStream(DirectionKey(md5, Pow(ReadBE(input[..96]), priv) % p, 34));
            var clear := Crypted(stream, 0, AfterOpening(input));
            GoodHeader(clear) && |clear| > 6 + clear[5]
    ensures var outcome := HandshakeOutcome(p, md5, priv, input);
            outcome.Agreed? ==>
            && GoodOpening(p, input)
            && outcome.stream == KeyedStream(DirectionKey(md5, Pow(ReadBE(input[..96]), priv) % p, 34))
            && var clear := Crypted(outcome.stream, 0, AfterOpening(input));
            |clear| > 6 && outcome.at == 6 + clear[5] <= |AfterOpening(input)| && outcome.rest == AfterOpening(input)[6 + clear[5]..]
  {
    OpeningIff(p, input);
    if GoodOpening(p, input) {
      var public := ReadBE(input[..96]);
      ModPowIsPow(public, priv, p);
      HeaderIff(public, KeyedStream(DirectionKey(md5, Pow(public, priv) % p, 34)), AfterOpening(input));
    }
  }
}
