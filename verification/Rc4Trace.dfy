/**
 RC4 as it is written down: a table that begins as the numbers in order, entries exchanged in pairs while a
 running sum follows the key and then the table, and a byte looked up at the sum of the last two entries exchanged.
 Every byte of the model's keystream is one of these, from the 1024th on.
 */
module Rc4Trace {
  import opened Basics
  import opened KeyStreams
  import opened KeyAgreement
  import opened Rc4

  /** The tables and sums of key setup, and those of the generation after it. */
  datatype Trace = Trace(mixed: nat -> seq<Byte>, mixSum: nat -> Byte, table: nat -> seq<Byte>, sum: nat -> Byte)

  /** The tables are the same but for two entries, which have changed places. */
  ghost predicate Exchanged(a: seq<Byte>, b: seq<Byte>, i: int, j: int) {
    && |a| == 256 && |b| == 256 && 0 <= i < 256 && 0 <= j < 256
    && b[i] == a[j] && b[j] == a[i]
    && forall k :: 0 <= k < 256 && k != i && k != j ==> b[k] == a[k]
  }

  /** The key, repeated as often as needed. */
  function KeyAt(key: Bytes, n: nat): Byte
    requires key != []
  {
    key[n % |key|]
  }

  ghost predicate MixStep(key: Bytes, t: Trace, n: nat)
    requires key != []
  {
    && |t.mixed(n)| == 256 && n < 256
    && t.mixSum(n + 1) == (t.mixSum(n) as int + t.mixed(n)[n] as int + KeyAt(key, n) as int) % 256
    && Exchanged(t.mixed(n), t.mixed(n + 1), n, t.mixSum(n + 1))
  }

  ghost predicate GenerateStep(t: Trace, n: nat) {
    var i := (n + 1) % 256;
    && |t.table(n)| == 256
    && t.sum(n + 1) == (t.sum(n) as int + t.table(n)[i] as int) % 256
    && Exchanged(t.table(n), t.table(n + 1), i, t.sum(n + 1))
  }

  /** The trace of a key. */
  ghost predicate IsRc4(key: Bytes, t: Trace)
    requires key != []
  {
    && |t.mixed(0)| == 256 && (forall v: Byte :: t.mixed(0)[v] == v) && t.mixSum(0) == 0
    && (forall n: nat :: n < 256 ==> MixStep(key, t, n))
    && t.table(0) == t.mixed(256) && t.sum(0) == 0
    && (forall n: nat :: GenerateStep(t, n))
  }

  /** Byte n of a trace: the entry at the sum of the two entries exchanged last. */
  function TraceByte(t: Trace, n: nat): int {
    var table, i, j := t.table(n + 1), (n + 1) % 256, t.sum(n + 1);
    if |table| == 256 then table[(table[i] as int + table[j] as int) % 256] else -1
  }

  lemma NextMod(n: nat, size: nat)
    requires size > 0
    ensures (n + 1) % size == if n % size + 1 < size then n % size + 1 else 0
  {
    var q, r := n / size, n % size;
    assert n == q * size + r;
    if r + 1 < size {
      ModUnique(n + 1, q, r + 1, size);
    } else {
      assert (q + 1) * size == q * size + size;
      ModUnique(n + 1, q + 1, 0, size);
    }
  }

  /** The position in the key after n rounds, as long as it is needed. */
  lemma NextIndexCounts(n: nat, size: nat, i: Byte)
    requires size > 0 && n + 1 < 256 && i == n % size
    ensures NextIndex(i, size) == (n + 1) % size
  {
    NextMod(n, size);
    assert i <= n by { ModSmaller(n, size); }
    var next: nat := i + 1;
    if next < size {
      ModUnique(next, 0, next, size);
    } else {
      assert next == size by { ModBelow(n, size); }
      ModUnique(next, 1, 0, size);
    }
  }

  lemma ModBelow(n: nat, size: nat)
    requires size > 0
    ensures n % size < size
  {
  }

  lemma ModSmaller(n: nat, size: nat)
    requires size > 0
    ensures n % size <= n
  {
    assert n == (n / size) * size + n % size;
    assert (n / size) * size >= 0;
  }

  lemma ExchangedIsSwapped(a: seq<Byte>, b: seq<Byte>, i: Byte, j: Byte)
    requires |a| == 256
    ensures Exchanged(a, b, i, j) <==> b == Swapped(a, i, j)
  {
    if Exchanged(a, b, i, j) {
      assert forall k :: 0 <= k < 256 ==> b[k] == Swapped(a, i, j)[k];
    }
  }

  /** One more round of key setup. */
  lemma MixedNext(key: Bytes, n: nat)
    requires key != [] && n < 256
    ensures var m, next := Mixed(key, n), Mixed(key, n + 1);
            && next.index2 == (key[m.index1] as int + m.s[n] as int + m.index2 as int) % 256
            && next.s == Swapped(m.s, n, next.index2)
            && next.index1 == NextIndex(m.index1, |key|)
  {
  }

  lemma {:induction false} FirstIndexCounts(key: Bytes, n: nat)
    requires key != [] && n < 256
    ensures Mixed(key, n).index1 == n % |key|
  {
    if n > 0 {
      FirstIndexCounts(key, n - 1);
      MixedNext(key, n - 1);
      NextIndexCounts(n - 1, |key|, Mixed(key, n - 1).index1);
    } else {
      assert Mixed(key, 0).index1 == 0;
      ModSmaller(0, |key|);
    }
  }

  lemma SetupNext(key: Bytes, t: Trace, n: nat)
    requires key != [] && n < 256 && MixStep(key, t, n)
    requires Mixed(key, n).s == t.mixed(n) && Mixed(key, n).index2 == t.mixSum(n)
    ensures Mixed(key, n + 1).s == t.mixed(n + 1) && Mixed(key, n + 1).index2 == t.mixSum(n + 1)
  {
    MixedNext(key, n);
    FirstIndexCounts(key, n);
    ExchangedIsSwapped(t.mixed(n), t.mixed(n + 1), n, t.mixSum(n + 1));
  }

  lemma SetupBegins(key: Bytes, t: Trace)
    requires key != [] && |t.mixed(0)| == 256 && (forall v: Byte :: t.mixed(0)[v] == v) && t.mixSum(0) == 0
    ensures Mixed(key, 0).s == t.mixed(0) && Mixed(key, 0).index2 == t.mixSum(0)
  {
    assert forall v :: 0 <= v < 256 ==> Identity()[v] == t.mixed(0)[v];
  }

  lemma {:induction false} SetupFollows(key: Bytes, t: Trace, n: nat)
    requires key != [] && IsRc4(key, t) && n <= 256
    ensures Mixed(key, n).s == t.mixed(n) && Mixed(key, n).index2 == t.mixSum(n)
  {
    if n == 0 {
      SetupBegins(key, t);
    } else {
      SetupFollows(key, t, n - 1);
      SetupNext(key, t, n - 1);
    }
  }

  /** The generator's state after n steps from key setup, before any byte is discarded. */
  function Raw(key: Bytes, n: nat): State
    requires key != []
  {
    After(State(Mixed(key, 256).s, 0, 0), n)
  }

  /** One more step of the generator. */
  lemma RawNext(key: Bytes, n: nat)
    requires key != []
    ensures var r, next := Raw(key, n), Raw(key, n + 1);
            && next.x == (r.x as int + 1) % 256
            && next.y == (r.y as int + r.s[next.x] as int) % 256
            && next.s == Swapped(r.s, next.x, next.y)
  {
  }

  lemma {:induction false} CounterCounts(key: Bytes, n: nat)
    requires key != []
    ensures Raw(key, n).x == n % 256
  {
    if n > 0 {
      CounterCounts(key, n - 1);
      assert Raw(key, n).x == (Raw(key, n - 1).x as int + 1) % 256 by { RawNext(key, n - 1); }
      CountOn(n - 1, Raw(key, n - 1).x);
    } else {
      assert Raw(key, 0) == State(Mixed(key, 256).s, 0, 0);
    }
  }

  lemma CountOn(n: nat, x: Byte)
    requires x == n % 256
    ensures (x as int + 1) % 256 == (n + 1) % 256
  {
  }

  lemma GenerationNext(key: Bytes, t: Trace, n: nat)
    requires key != [] && GenerateStep(t, n) && Raw(key, n).s == t.table(n) && Raw(key, n).y == t.sum(n)
    ensures Raw(key, n + 1).s == t.table(n + 1) && Raw(key, n + 1).y == t.sum(n + 1)
  {
    RawNext(key, n);
    CounterCounts(key, n + 1);
    ExchangedIsSwapped(t.table(n), t.table(n + 1), (n + 1) % 256, t.sum(n + 1));
  }

  lemma {:induction false} GenerationFollows(key: Bytes, t: Trace, n: nat)
    requires key != [] && IsRc4(key, t)
    ensures Raw(key, n).s == t.table(n) && Raw(key, n).y == t.sum(n)
  {
    if n == 0 {
      SetupFollows(key, t, 256);
    } else {
      GenerationFollows(key, t, n - 1);
      GenerationNext(key, t, n - 1);
    }
  }

  function Iterated<T>(f: T -> T, x: T, n: nat): T {
    if n == 0 then x else f(Iterated(f, x, n - 1))
  }

  lemma {:induction false} IteratedSum<T>(f: T -> T, x: T, m: nat, n: nat)
    ensures Iterated(f, Iterated(f, x, m), n) == Iterated(f, x, m + n)
  {
    if n > 0 {
      IteratedSum(f, x, m, n - 1);
    }
  }

  /** One step of a state with a whole table. */
  function StepIfWhole(r: State): State {
    if |r.s| == 256 then Step(r) else r
  }

  lemma {:induction false} AfterIterates(r: State, n: nat)
    requires |r.s| == 256
    ensures After(r, n) == Iterated(StepIfWhole, r, n)
  {
    if n > 0 {
      AfterIterates(r, n - 1);
    }
  }

  lemma AfterSum(r: State, m: nat, n: nat)
    requires |r.s| == 256
    ensures After(After(r, m), n) == After(r, m + n)
  {
    var f := StepIfWhole;
    AfterIterates(r, m);
    AfterIterates(After(r, m), n);
    AfterIterates(r, m + n);
    IteratedSum(f, r, m, n);
  }

  /** Every byte of the keystream of a key is the byte of every trace of that key 1024 places further on. */
  lemma StreamIsRc4(key: Bytes, t: Trace, m: nat)
    requires key != [] && IsRc4(key, t)
    ensures KeyedStream(key)(m) == TraceByte(t, 1024 + m)
  {
    var discarded := DISCARD;
    StreamShows(key, discarded, m);
    RawShows(key, t, discarded + m);
  }

  lemma StreamShows(key: Bytes, discarded: nat, m: nat)
    requires key != [] && discarded == DISCARD
    ensures KeyedStream(key)(m) == Output(Raw(key, discarded + m + 1))
  {
    KeyByteIsOutput(Keyed(key), m);
    AfterSum(State(Mixed(key, 256).s, 0, 0), discarded, m + 1);
  }

  lemma ShowsByte(r: State, t: Trace, n: nat)
    requires |r.s| == 256 && r.s == t.table(n + 1) && r.y == t.sum(n + 1) && r.x == (n + 1) % 256
    ensures Output(r) == TraceByte(t, n)
  {
  }

  lemma RawShows(key: Bytes, t: Trace, n: nat)
    requires key != [] && IsRc4(key, t)
    ensures Output(Raw(key, n + 1)) == TraceByte(t, n)
  {
    var r := Raw(key, n + 1);
    assert r.s == t.table(n + 1) && r.y == t.sum(n + 1) by { GenerationFollows(key, t, n + 1); }
    assert r.x == (n + 1) % 256 by { CounterCounts(key, n + 1); }
    ShowsByte(r, t, n);
  }

  // ---------------------------------------------------------------- traces exist

  function ModelTrace(key: Bytes): Trace
    requires key != []
  {
    Trace((n: nat) => Mixed(key, if n <= 256 then n else 256).s,
          (n: nat) => Mixed(key, if n <= 256 then n else 256).index2,
          (n: nat) => Raw(key, n).s,
          (n: nat) => Raw(key, n).y)
  }

  lemma ModelMixes(key: Bytes, n: nat)
    requires key != [] && n < 256
    ensures MixStep(key, ModelTrace(key), n)
  {
    var t := ModelTrace(key);
    MixedNext(key, n);
    FirstIndexCounts(key, n);
    ExchangedIsSwapped(t.mixed(n), t.mixed(n + 1), n, t.mixSum(n + 1));
  }

  lemma ModelGenerates(key: Bytes, n: nat)
    requires key != []
    ensures GenerateStep(ModelTrace(key), n)
  {
    var t := ModelTrace(key);
    RawNext(key, n);
    CounterCounts(key, n + 1);
    ExchangedIsSwapped(t.table(n), t.table(n + 1), (n + 1) % 256, t.sum(n + 1));
  }

  lemma ModelBegins(key: Bytes)
    requires key != []
    ensures var t := ModelTrace(key);
            && |t.mixed(0)| == 256 && (forall v: Byte :: t.mixed(0)[v] == v) && t.mixSum(0) == 0
            && t.table(0) == t.mixed(256) && t.sum(0) == 0
  {
    assert Mixed(key, 0) == Mix(Identity(), 0, 0);
    assert Raw(key, 0) == State(Mixed(key, 256).s, 0, 0);
  }

  /** Every key has a trace. */
  lemma EveryKeyHasTrace(key: Bytes)
    requires key != []
    ensures exists t :: IsRc4(key, t)
  {
    var t := ModelTrace(key);
    forall n: nat | n < 256
      ensures MixStep(key, t, n)
    {
      ModelMixes(key, n);
    }
    forall n: nat
      ensures GenerateStep(t, n)
    {
      ModelGenerates(key, n);
    }
    ModelBegins(key);
    assert IsRc4(key, t);
  }

  // ---------------------------------------------------------------- exclusive or

  /** The k-th binary digit, counted from the lowest. */
  function Bit(x: nat, k: nat): nat {
    if k == 0 then x % 2 else Bit(x / 2, k - 1)
  }

  lemma {:induction false} XorBitsDiffer(a: nat, b: nat, n: nat, k: nat)
    requires k < n
    ensures Bit(XorBits(a, b, n), k) == 1 <==> Bit(a, k) != Bit(b, k)
    decreases k
  {
    var bit, rest := (a % 2 + b % 2) % 2, XorBits(a / 2, b / 2, n - 1);
    Halves(bit, rest);
    if k > 0 {
      XorBitsDiffer(a / 2, b / 2, n - 1, k - 1);
    }
  }

  /** A digit of the exclusive or is set exactly where the digits of the two bytes differ. */
  lemma XorDiffers(a: Byte, b: Byte, k: nat)
    requires k < 8
    ensures Bit(Xor(a, b), k) == 1 <==> Bit(a, k) != Bit(b, k)
  {
    XorBitsDiffer(a, b, 8, k);
  }
}
