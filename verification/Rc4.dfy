/** Combining data with a keystream: the laws that make it undo itself whatever the pieces. */
module KeyStreams {
  import opened Basics

  /** The keystream byte at every position. */
  type KeyStream = nat -> Byte

  // ---------------------------------------------------------------- exclusive or

  /** The exclusive or of the lowest n bits. */
  function XorBits(a: nat, b: nat, n: nat): (r: nat)
    decreases a, b, n
  {
    if n == 0 then 0 else (a % 2 + b % 2) % 2 + 2 * XorBits(a / 2, b / 2, n - 1)
  }

  function Pow2(n: nat): (p: nat)
    ensures p > 0
  {
    if n == 0 then 1 else 2 * Pow2(n - 1)
  }

  lemma {:induction false} XorBound(a: nat, b: nat, n: nat)
    ensures XorBits(a, b, n) < Pow2(n)
  {
    if n > 0 {
      XorBound(a / 2, b / 2, n - 1);
    }
  }

  lemma Halves(bit: nat, rest: nat)
    requires bit < 2
    ensures (bit + 2 * rest) % 2 == bit && (bit + 2 * rest) / 2 == rest
  {
  }

  lemma BitTwice(x: nat, y: nat)
    requires x < 2 && y < 2
    ensures ((x + y) % 2 + y) % 2 == x
  {
  }

  lemma XorStep(bit: nat, rest: nat, b: nat, n: nat)
    requires bit < 2 && n > 0
    ensures XorBits(bit + 2 * rest, b, n) == (bit + b % 2) % 2 + 2 * XorBits(rest, b / 2, n - 1)
  {
    Halves(bit, rest);
  }

  lemma {:induction false} XorTwiceBits(a: nat, b: nat, n: nat)
    requires a < Pow2(n)
    ensures XorBits(XorBits(a, b, n), b, n) == a
  {
    if n > 0 {
      var bit, rest := (a % 2 + b % 2) % 2, XorBits(a / 2, b / 2, n - 1);
      XorTwiceBits(a / 2, b / 2, n - 1);
      BitTwice(a % 2, b % 2);
      XorStep(bit, rest, b, n);
    }
  }

  lemma Pow2Of8()
    ensures Pow2(8) == 256
  {
    assert Pow2(4) == 16;
  }

  function Xor(a: Byte, b: Byte): Byte {
    XorBound(a, b, 8);
    Pow2Of8();
    XorBits(a, b, 8)
  }

  /** Applying the same key byte twice gives the byte back. */
  lemma XorTwice(a: Byte, b: Byte)
    ensures Xor(Xor(a, b), b) == a
  {
    Pow2Of8();
    XorTwiceBits(a, b, 8);
  }

  // ---------------------------------------------------------------- whole buffers

  /** The data combined with the keystream from position at on. */
  function Crypted(ks: KeyStream, at: nat, data: Bytes): (out: Bytes)
    ensures |out| == |data|
    decreases |data|
  {
    if data == [] then [] else [Xor(data[0], ks(at))] + Crypted(ks, at + 1, data[1..])
  }

  lemma {:induction false} CryptedAt(ks: KeyStream, at: nat, data: Bytes, i: nat)
    requires i < |data|
    ensures Crypted(ks, at, data)[i] == Xor(data[i], ks(at + i))
    decreases |data|
  {
    if i > 0 {
      CryptedAt(ks, at + 1, data[1..], i - 1);
    }
  }

  /** Working on two pieces one after the other is working on them together. */
  lemma {:induction false} CryptedSum(ks: KeyStream, at: nat, a: Bytes, b: Bytes)
    ensures Crypted(ks, at, a + b) == Crypted(ks, at, a) + Crypted(ks, at + |a|, b)
    decreases |a|
  {
    if a == [] {
      assert a + b == b;
    } else {
      var first, rest, more := [Xor(a[0], ks(at))], Crypted(ks, at + 1, a[1..]), Crypted(ks, at + |a|, b);
      assert Crypted(ks, at + 1, a[1..] + b) == rest + more by { CryptedSum(ks, at + 1, a[1..], b); }
      assert Crypted(ks, at, a + b) == first + (rest + more) by { assert (a + b)[1..] == a[1..] + b; }
      Reassociate3(first, rest, more);
    }
  }

  /** A second pass over the same positions of the same keystream undoes the first. */
  lemma {:induction false} CryptedTwice(ks: KeyStream, at: nat, data: Bytes)
    ensures Crypted(ks, at, Crypted(ks, at, data)) == data
    decreases |data|
  {
    if data != [] {
      var out := Crypted(ks, at, data);
      XorTwice(data[0], ks(at));
      assert out[0] == Xor(data[0], ks(at)) && out[1..] == Crypted(ks, at + 1, data[1..]);
      CryptedTwice(ks, at + 1, data[1..]);
      assert data == [data[0]] + data[1..];
    }
  }

  function Joined(chunks: seq<Bytes>): Bytes
  {
    if chunks == [] then [] else chunks[0] + Joined(chunks[1..])
  }

  /** The outputs of successive calls that share one position in the keystream. */
  function CryptedChunks(ks: KeyStream, at: nat, chunks: seq<Bytes>): seq<Bytes>
    decreases |chunks|
  {
    if chunks == [] then [] else [Crypted(ks, at, chunks[0])] + CryptedChunks(ks, at + |chunks[0]|, chunks[1..])
  }

  lemma JoinedFirst(first: Bytes, rest: seq<Bytes>)
    ensures Joined([first] + rest) == first + Joined(rest)
  {
    assert ([first] + rest)[1..] == rest;
  }

  lemma {:induction false} ChunkingIsInvisible(ks: KeyStream, at: nat, chunks: seq<Bytes>)
    ensures Joined(CryptedChunks(ks, at, chunks)) == Crypted(ks, at, Joined(chunks))
    decreases |chunks|
  {
    if chunks != [] {
      ChunkingIsInvisible(ks, at + |chunks[0]|, chunks[1..]);
      CryptedSum(ks, at, chunks[0], Joined(chunks[1..]));
      assert Joined(chunks) == chunks[0] + Joined(chunks[1..]);
      JoinedFirst(Crypted(ks, at, chunks[0]), CryptedChunks(ks, at + |chunks[0]|, chunks[1..]));
    }
  }

  /** Sender and receiver with the same keystream undo each other, however each side cuts the stream into pieces. */
  lemma AnyTwoChunkingsCancel(ks: KeyStream, at: nat, sent: seq<Bytes>, received: seq<Bytes>)
    requires Joined(received) == Joined(CryptedChunks(ks, at, sent))
    ensures Joined(CryptedChunks(ks, at, received)) == Joined(sent)
  {
    ChunkingIsInvisible(ks, at, sent);
    ChunkingIsInvisible(ks, at, received);
    CryptedTwice(ks, at, Joined(sent));
  }
}

/** The RC4 generator as aMule runs it, with its first 1024 bytes discarded. */
module Rc4 {
  import opened Basics
  import opened KeyStreams

  const DISCARD: nat := 1024

  datatype State = State(s: seq<Byte>, x: Byte, y: Byte)

  // ---------------------------------------------------------------- the permutation

  /** 256 different bytes. */
  predicate IsPermutation(s: seq<Byte>) {
    |s| == 256 && forall i, j :: 0 <= i < j < 256 ==> s[i] != s[j]
  }

  function Swapped(s: seq<Byte>, i: Byte, j: Byte): seq<Byte>
    requires |s| == 256
  {
    s[i := s[j]][j := s[i]]
  }

  lemma SwapKeepsPermutation(s: seq<Byte>, i: Byte, j: Byte)
    requires IsPermutation(s)
    ensures IsPermutation(Swapped(s, i, j))
  {
  }

  /** All the bytes below n. */
  function BytesBelow(n: nat): (r: set<int>)
    ensures |r| == n && forall v :: v in r <==> 0 <= v < n
  {
    if n == 0 then {} else BytesBelow(n - 1) + {n - 1}
  }

  function Members(s: seq<Byte>, n: nat): (r: set<int>)
    requires n <= |s|
    ensures forall v :: v in r <==> v in s[..n]
  {
    if n == 0 then {}
    else
      assert s[..n] == s[..n - 1] + [s[n - 1]];
      Members(s, n - 1) + {s[n - 1] as int}
  }

  lemma {:induction false} DistinctMembers(s: seq<Byte>, n: nat)
    requires IsPermutation(s) && n <= 256
    ensures |Members(s, n)| == n
  {
    if n > 0 {
      DistinctMembers(s, n - 1);
      assert s[n - 1] !in s[..n - 1];
    }
  }

  /** Being different, the 256 entries are all the bytes from 0 to 255. */
  lemma PermutationHasAll(s: seq<Byte>, v: Byte)
    requires IsPermutation(s)
    ensures v in s
  {
    DistinctMembers(s, 256);
    assert s[..256] == s;
    var all := BytesBelow(256);
    assert Members(s, 256) <= all;
    if v !in s {
      assert Members(s, 256) <= all - {v as int};
      SubsetSize(Members(s, 256), all - {v as int});
      assert false;
    }
  }

  // ---------------------------------------------------------------- one step, and the stream

  /** 8-bit addition. */
  function Add(a: int, b: int): Byte {
    (a + b) % 256
  }

  function Step(r: State): State
    requires |r.s| == 256
  {
    var x := Add(r.x, 1);
    var y := Add(r.s[x], r.y);
    State(Swapped(r.s, x, y), x, y)
  }

  /** The keystream byte of the state a step leads to. */
  function Output(r: State): Byte
    requires |r.s| == 256
  {
    r.s[Add(r.s[r.x], r.s[r.y])]
  }

  /** The state after n steps. */
  function After(r: State, n: nat): (r': State)
    requires |r.s| == 256
    ensures |r'.s| == 256
  {
    if n == 0 then r else Step(After(r, n - 1))
  }

  /** The n-th byte the generator in state r is going to produce. */
  function KeyByte(r: State, n: nat): Byte
    requires |r.s| == 256
    decreases n
  {
    if n == 0 then Output(Step(r)) else KeyByte(Step(r), n - 1)
  }

  lemma {:induction false} AfterFromFirst(r: State, n: nat)
    requires |r.s| == 256
    ensures After(Step(r), n) == After(r, n + 1)
  {
    if n > 0 {
      AfterFromFirst(r, n - 1);
    }
  }

  /** It is what the state reached after n more steps shows. */
  lemma {:induction false} KeyByteIsOutput(r: State, n: nat)
    requires |r.s| == 256
    ensures KeyByte(r, n) == Output(After(r, n + 1))
    decreases n
  {
    if n > 0 {
      KeyByteIsOutput(Step(r), n - 1);
      AfterFromFirst(r, n);
    } else {
      assert After(r, 1) == Step(After(r, 0));
    }
  }

  /** The keystream that starts in state r. */
  function StreamFrom(r: State): KeyStream
    requires |r.s| == 256
  {
    n => KeyByte(r, n)
  }

  lemma {:induction false} AfterKeepsPermutation(r: State, n: nat)
    requires IsPermutation(r.s)
    ensures IsPermutation(After(r, n).s)
  {
    if n > 0 {
      AfterKeepsPermutation(r, n - 1);
      SwapKeepsPermutation(After(r, n - 1).s, After(r, n).x, After(r, n).y);
    }
  }

  // ---------------------------------------------------------------- key setup

  function Identity(): (s: seq<Byte>)
    ensures IsPermutation(s) && forall i :: 0 <= i < 256 ==> s[i] == i
  {
    seq(256, i requires 0 <= i < 256 => i)
  }

  datatype Mix = Mix(s: seq<Byte>, index1: Byte, index2: Byte)

  /** The permutation and the two indices after n rounds of mixing in the key. */
  function Mixed(key: Bytes, n: nat): (m: Mix)
    requires key != [] && n <= 256
    ensures |m.s| == 256 && m.index1 < |key|
  {
    if n == 0 then Mix(Identity(), 0, 0)
    else
      var m := Mixed(key, n - 1);
      var index2 := Add(key[m.index1] as int + m.s[n - 1] as int, m.index2);
      Mix(Swapped(m.s, n - 1, index2), NextIndex(m.index1, |key|), index2)
  }

  /** The next position of the key, coming round after its last. */
  function NextIndex(i: Byte, size: nat): (next: Byte)
    requires i < size
    ensures next < size
  {
    (i as int + 1) % size % 256
  }

  lemma {:induction false} MixedPermutation(key: Bytes, n: nat)
    requires key != [] && n <= 256
    ensures IsPermutation(Mixed(key, n).s)
  {
    if n > 0 {
      MixedPermutation(key, n - 1);
      SwapKeepsPermutation(Mixed(key, n - 1).s, n - 1, Mixed(key, n).index2);
    }
  }

  /** The state right after key setup and the discarded bytes: where the stream starts. */
  function Keyed(key: Bytes): (r: State)
    requires key != []
    ensures |r.s| == 256
  {
    After(State(Mixed(key, 256).s, 0, 0), DISCARD)
  }

  /** The keystream of a key. */
  function KeyedStream(key: Bytes): KeyStream
    requires key != []
  {
    StreamFrom(Keyed(key))
  }

  /** The generator's table is a permutation of all bytes from key setup on, after any number of steps. */
  lemma AlwaysPermutation(key: Bytes, n: nat)
    requires key != []
    ensures IsPermutation(After(Keyed(key), n).s)
  {
    MixedPermutation(key, 256);
    AfterKeepsPermutation(State(Mixed(key, 256).s, 0, 0), DISCARD);
    AfterKeepsPermutation(Keyed(key), n);
  }

  // ---------------------------------------------------------------- the generator object

  lemma StreamIsAhead(key: Bytes, r: State)
    requires key != [] && r == Keyed(key)
    ensures forall n: nat :: KeyByte(r, n) == KeyedStream(key)(n)
  {
  }

  class Generator {
    const s: array<Byte>
    var x: Byte
    var y: Byte
    ghost var stream: KeyStream
    ghost var pos: nat

    ghost function View(): State
      reads this, s
    {
      State(s[..], x, y)
    }

    /** From here on the generator produces its keystream from position pos on. */
    ghost predicate Valid()
      reads this, s
    {
      s.Length == 256 && forall n: nat :: KeyByte(View(), n) == stream(pos + n)
    }

    constructor (key: Bytes)
      requires key != []
      ensures fresh(s) && Valid() && stream == KeyedStream(key) && pos == 0
      ensures View() == Keyed(key)
    {
      var table: array<Byte> := new Byte[256](i => if 0 <= i < 256 then i else 0);
      s := table;
      x := 0;
      y := 0;
      stream := KeyedStream(key);
      pos := 0;
      new;
      assert s[..] == Identity();
      Setup(key);
    }

    method Setup(key: Bytes)
      requires key != [] && s.Length == 256 && s[..] == Identity() && x == 0 && y == 0
      modifies this`x, this`y, s
      ensures View() == Keyed(key)
      ensures forall n: nat :: KeyByte(View(), n) == KeyedStream(key)(n)
    {
      MixKey(key);
      Discard(DISCARD);
      StreamIsAhead(key, View());
    }

    /** The key mixed into the identity permutation. */
    method MixKey(key: Bytes)
      requires key != [] && s.Length == 256 && s[..] == Identity()
      modifies s
      ensures s[..] == Mixed(key, 256).s
    {
      var index1: Byte := 0;
      var index2: Byte := 0;
      for i := 0 to 256
        invariant Mix(s[..], index1, index2) == Mixed(key, i)
      {
        index2 := Add(key[index1] as int + s[i] as int, index2);
        SwapEntries(i, index2);
        index1 := (index1 + 1) % |key| % 256;
      }
    }

    method SwapEntries(i: Byte, j: Byte)
      requires s.Length == 256
      modifies s
      ensures s[..] == Swapped(old(s[..]), i, j)
    {
      s[i], s[j] := s[j], s[i];
    }

    method NextKeystreamByte() returns (b: Byte)
      requires s.Length == 256
      modifies this`x, this`y, s
      ensures View() == Step(old(View())) && b == Output(View())
    {
      x := Add(x, 1);
      y := Add(s[x], y);
      SwapEntries(x, y);
      b := s[Add(s[x], s[y])];
    }

    method Discard(n: nat)
      requires s.Length == 256
      modifies this`x, this`y, s
      ensures View() == After(old(View()), n)
    {
      for i := 0 to n
        invariant View() == After(old(View()), i)
      {
        var b := NextKeystreamByte();
      }
    }

    /** One keystream byte, with the position moved along. */
    method TakeKeystreamByte() returns (b: Byte)
      requires Valid()
      modifies this`x, this`y, this`pos, s
      ensures Valid() && pos == old(pos) + 1 && b == stream(old(pos))
    {
      ghost var before := View();
      assert KeyByte(before, 0) == stream(pos + 0);
      b := NextKeystreamByte();
      pos := pos + 1;
      forall n: nat
        ensures KeyByte(View(), n) == stream(pos + n)
      {
        assert KeyByte(before, n + 1) == stream(old(pos) + (n + 1));
        assert old(pos) + (n + 1) == pos + n;
      }
    }

    /** The first n bytes of the buffer combined with the next n keystream bytes. */
    method XorInPlace(p: array<Byte>, n: nat)
      requires Valid() && p != s && n <= p.Length
      modifies this`x, this`y, this`pos, s, p
      ensures Valid() && pos == old(pos) + n
      ensures p[..n] == Crypted(stream, old(pos), old(p[..n]))
      ensures p[n..] == old(p[n..])
    {
      for i := 0 to n
        invariant Valid() && pos == old(pos) + i
        invariant forall k :: 0 <= k < i ==> p[k] == Xor(old(p[k]), stream(old(pos) + k))
        invariant forall k :: i <= k < p.Length ==> p[k] == old(p[k])
      {
        var k := TakeKeystreamByte();
        p[i] := Xor(p[i], k);
      }
      PointwiseCrypted(stream, old(pos), old(p[..n]), p[..n]);
    }
  }

  /** A buffer combined byte by byte is the buffer combined as a whole. */
  lemma PointwiseCrypted(ks: KeyStream, at: nat, input: Bytes, output: Bytes)
    requires |output| == |input| && forall k :: 0 <= k < |input| ==> output[k] == Xor(input[k], ks(at + k))
    ensures output == Crypted(ks, at, input)
  {
    forall k | 0 <= k < |input|
      ensures output[k] == Crypted(ks, at, input)[k]
    {
      CryptedAt(ks, at, input, k);
    }
  }
}
