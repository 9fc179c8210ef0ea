/** Byte strings, little-endian fixed-width integers and the option type that the other modules share. */
module Basics {

  type Byte = x: int | 0 <= x < 256

  type Bytes = seq<Byte>

  datatype Option<+T> = None | Some(value: T)

  /** n written little-endian in exactly width bytes (higher digits are dropped). */
  function WriteLE(n: nat, width: nat): (s: Bytes)
    ensures |s| == width
    decreases n, width
  {
    if width == 0 then [] else [n % 256] + WriteLE(n / 256, width - 1)
  }

  function ReadLE(s: Bytes): (n: nat)
  {
    if s == [] then 0 else s[0] + 256 * ReadLE(s[1..])
  }

  function Pow256(k: nat): (p: nat)
    ensures p > 0
  {
    if k == 0 then 1 else 256 * Pow256(k - 1)
  }

  lemma {:induction false} ReadLEBound(s: Bytes)
    ensures ReadLE(s) < Pow256(|s|)
  {
    if s != [] {
      ReadLEBound(s[1..]);
    }
  }

  lemma {:induction false} ReadWriteLE(n: nat, width: nat)
    requires n < Pow256(width)
    ensures ReadLE(WriteLE(n, width)) == n
    decreases width
  {
    if width != 0 {
      ReadWriteLE(n / 256, width - 1);
      assert WriteLE(n, width)[1..] == WriteLE(n / 256, width - 1);
    }
  }

  lemma {:induction false} WriteReadLE(s: Bytes)
    ensures WriteLE(ReadLE(s), |s|) == s
  {
    if s != [] {
      WriteReadLE(s[1..]);
      assert ReadLE(s) % 256 == s[0] && ReadLE(s) / 256 == ReadLE(s[1..]);
      assert s == [s[0]] + s[1..];
    }
  }

  /** Some member of a set: the next key of a Go map iteration, whose order is not fixed. */
  method AnyOf<T>(s: set<T>) returns (x: T)
    requires s != {}
    ensures x in s
  {
    x :| x in s;
  }

  lemma SomeKey<K, V>(m: map<K, V>) returns (k: K)
    requires m != map[]
    ensures k in m
  {
    assert m.Keys != {};
    k :| k in m.Keys;
  }

  lemma SubsetSize<T>(a: set<T>, b: set<T>)
    requires a <= b
    ensures |a| <= |b|
  {
    assert b == a + (b - a);
  }

  lemma Reassociate3<T>(a: seq<T>, b: seq<T>, c: seq<T>)
    ensures a + b + c == a + (b + c)
  {
  }

  lemma Reassociate4<T>(a: seq<T>, b: seq<T>, c: seq<T>, d: seq<T>)
    ensures a + b + c + d == a + (b + (c + d))
  {
    Reassociate3(a + b, c, d);
    Reassociate3(a, b, c + d);
  }

  lemma Reassociate5<T>(a: seq<T>, b: seq<T>, c: seq<T>, d: seq<T>, e: seq<T>)
    ensures a + b + c + d + e == a + (b + (c + (d + e)))
  {
    Reassociate4(a + b, c, d, e);
    Reassociate3(a, b, c + (d + e));
  }

  lemma HeadTail<T>(s: seq<T>)
    requires s != []
    ensures s == [s[0]] + s[1..]
  {
  }

  lemma FrontTwo<T>(s: seq<T>, a: seq<T>, b: seq<T>)
    requires |s| >= 2 && s[2..] == a + b
    ensures s == [s[0], s[1]] + a + b
  {
    assert s == [s[0], s[1]] + s[2..];
    Reassociate3([s[0], s[1]], a, b);
  }

  lemma AfterTwo<T>(x: T, y: T, rest: seq<T>)
    ensures ([x, y] + rest)[1..] == [y] + rest
    ensures ([x, y] + rest)[1..][1..] == rest && ([x, y] + rest)[2..] == rest
  {
  }

  predicate HasPrefix(s: Bytes, p: Bytes) {
    p <= s
  }

  /** strings.TrimPrefix: one leading p is removed when there is one. */
  function TrimPrefix(s: Bytes, p: Bytes): (r: Bytes)
    ensures s == r || s == p + r
  {
    if p <= s then s[|p|..] else s
  }

  /** strings.Contains, with the position of an occurrence as witness. */
  predicate Contains(s: Bytes, sub: Bytes) {
    exists i :: 0 <= i <= |s| - |sub| && OccursAt(s, sub, i)
  }

  predicate OccursAt(s: Bytes, sub: Bytes, i: int) {
    0 <= i <= |s| - |sub| && s[i..i + |sub|] == sub
  }
}
