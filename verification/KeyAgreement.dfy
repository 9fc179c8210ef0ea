/** The Diffie-Hellman exchange behind the obfuscated handshake, and its fixed-width big-endian numbers. */
module KeyAgreement {
  import opened Basics

  const PRIME_SIZE: nat := 96

  const GENERATOR: nat := 2

  // ---------------------------------------------------------------- big-endian numbers

  /** n can be written in width bytes. */
  predicate Fits(n: nat, width: nat)
    decreases n, width
  {
    if width == 0 then n == 0 else Fits(n / 256, width - 1)
  }

  /** n in exactly width bytes, most significant first (higher digits are dropped). */
  function WriteBE(n: nat, width: nat): (s: Bytes)
    ensures |s| == width
    decreases n, width
  {
    if width == 0 then [] else WriteBE(n / 256, width - 1) + [n % 256]
  }

  function ReadBE(s: Bytes): nat {
    if s == [] then 0 else 256 * ReadBE(s[..|s| - 1]) + s[|s| - 1]
  }

  lemma {:induction false} ReadBEFits(s: Bytes)
    ensures Fits(ReadBE(s), |s|)
  {
    if s != [] {
      ReadBEFits(s[..|s| - 1]);
      assert ReadBE(s) / 256 == ReadBE(s[..|s| - 1]);
    }
  }

  lemma {:induction false} ReadWriteBE(n: nat, width: nat)
    requires Fits(n, width)
    ensures ReadBE(WriteBE(n, width)) == n
    decreases width
  {
    if width > 0 {
      ReadWriteBE(n / 256, width - 1);
      assert WriteBE(n, width)[..width - 1] == WriteBE(n / 256, width - 1);
    }
  }

  lemma {:induction false} SmallerFits(m: nat, n: nat, width: nat)
    requires m <= n && Fits(n, width)
    ensures Fits(m, width)
    decreases width
  {
    if width > 0 {
      SmallerFits(m / 256, n / 256, width - 1);
    }
  }

  // ---------------------------------------------------------------- the group

  const PRIME_BYTES: Bytes := [
    0xF2, 0xBF, 0x52, 0xC5, 0x5F, 0x58, 0x7A, 0xDD, 0x53, 0x71, 0xA9, 0x36,
    0xE8, 0x86, 0xEB, 0x3C, 0x62, 0x17, 0xA3, 0x3E, 0xC3, 0x4C, 0xB4, 0x0D,
    0xC7, 0x3A, 0x41, 0xA6, 0x43, 0xAF, 0xFC, 0xE7, 0x21, 0xFC, 0x28, 0x63,
    0x66, 0x53, 0x5B, 0xDB, 0xCE, 0x25, 0x9F, 0x22, 0x86, 0xDA, 0x4A, 0x91,
    0xB2, 0x07, 0xCB, 0xAA, 0x52, 0x55, 0xD4, 0xF6, 0x1C, 0xCE, 0xAE, 0xD4,
    0x5A, 0xD5, 0xE0, 0x74, 0x7D, 0xF7, 0x78, 0x18, 0x28, 0x10, 0x5F, 0x34,
    0x0F, 0x76, 0x23, 0x87, 0xF8, 0x8B, 0x28, 0x91, 0x42, 0xFB, 0x42, 0x68,
    0x8F, 0x05, 0x15, 0x0F, 0x54, 0x8B, 0x5F, 0x43, 0x6A, 0xF7, 0x0D, 0xF3]

  /** What the exchange needs of its modulus. */
  predicate GoodModulus(p: nat) {
    p > 1 && p % 2 == 1 && Fits(p, PRIME_SIZE)
  }

  lemma OddByLastByte(s: Bytes)
    requires s != []
    ensures ReadBE(s) % 2 == s[|s| - 1] % 2
    ensures ReadBE(s) >= s[|s| - 1]
  {
  }

  /** The modulus the server uses is one. */
  lemma PrimeIsGood()
    ensures GoodModulus(ReadBE(PRIME_BYTES))
  {
    ReadBEFits(PRIME_BYTES);
    OddByLastByte(PRIME_BYTES);
  }

  function Pow(b: nat, e: nat): nat {
    if e == 0 then 1 else b * Pow(b, e - 1)
  }

  /** b to the power e, modulo p. */
  function ModPow(b: nat, e: nat, p: nat): (r: nat)
    requires p > 1
    ensures r < p
  {
    if e == 0 then 1 else b * ModPow(b, e - 1, p) % p
  }

  lemma MulBounds(d: int, p: int)
    requires p >= 0
    ensures d >= 1 ==> d * p >= p
    ensures d <= -1 ==> d * p <= -p
    ensures d == 0 ==> d * p == 0
  {
  }

  lemma NoSmallMultiple(d: int, p: int, diff: int)
    requires p > 0 && d * p == diff && -p < diff < p
    ensures diff == 0
  {
    MulBounds(d, p);
  }

  lemma ModUnique(x: nat, q: nat, r: nat, p: nat)
    requires p > 0 && x == q * p + r && r < p
    ensures x % p == r
  {
    assert x == (x / p) * p + x % p;
    assert (x / p - q) * p == (x / p) * p - q * p;
    NoSmallMultiple(x / p - q, p, r - x % p);
  }

  /** Reducing a factor first does not change the product's residue. */
  lemma ModOfProduct(x: nat, y: nat, p: nat)
    requires p > 0
    ensures (x * (y % p)) % p == (x * y) % p
  {
    var z := x * (y % p);
    assert y == (y / p) * p + y % p;
    assert x * y == (x * (y / p)) * p + z;
    assert z == (z / p) * p + z % p;
    var q := x * (y / p) + z / p;
    assert x * y == q * p + z % p;
    ModUnique(x * y, q, z % p, p);
  }

  lemma {:induction false} ModPowIsPow(b: nat, e: nat, p: nat)
    requires p > 1
    ensures ModPow(b, e, p) == Pow(b, e) % p
  {
    if e > 0 {
      ModPowIsPow(b, e - 1, p);
      ModOfProduct(b, Pow(b, e - 1), p);
    } else {
      ModUnique(1, 0, 1, p);
    }
  }

  lemma {:induction false} PowOfResidue(b: nat, e: nat, p: nat)
    requires p > 1
    ensures Pow(b % p, e) % p == Pow(b, e) % p
  {
    if e > 0 {
      PowOfResidue(b, e - 1, p);
      var x, y := Pow(b % p, e - 1), Pow(b, e - 1);
      ModOfProduct(b % p, x, p);
      ModOfProduct(b % p, y, p);
      ModOfProduct(y, b, p);
      assert (b % p) * y == y * (b % p) && y * b == b * y;
    }
  }

  lemma ProductAssociates(a: nat, b: nat, c: nat)
    ensures a * (b * c) == (a * b) * c
  {
  }

  lemma {:induction false} PowSum(b: nat, m: nat, n: nat)
    ensures Pow(b, m + n) == Pow(b, m) * Pow(b, n)
  {
    if m > 0 {
      PowSum(b, m - 1, n);
      assert m + n - 1 == (m - 1) + n;
      ProductAssociates(b, Pow(b, m - 1), Pow(b, n));
    }
  }

  lemma {:induction false} PowOfPow(b: nat, m: nat, n: nat)
    ensures Pow(Pow(b, m), n) == Pow(b, m * n)
  {
    if n > 0 {
      PowOfPow(b, m, n - 1);
      PowSum(b, m, m * (n - 1));
      assert m + m * (n - 1) == m * n;
    }
  }

  lemma ModPowTwice(b: nat, m: nat, n: nat, p: nat)
    requires p > 1
    ensures ModPow(ModPow(b, m, p), n, p) == Pow(b, m * n) % p
  {
    ModPowIsPow(b, m, p);
    ModPowIsPow(Pow(b, m) % p, n, p);
    PowOfResidue(Pow(b, m), n, p);
    PowOfPow(b, m, n);
  }

  /** Both sides of the exchange arrive at the same secret. */
  lemma SecretsAgree(a: nat, b: nat, p: nat)
    requires p > 1
    ensures ModPow(ModPow(GENERATOR, a, p), b, p) == ModPow(ModPow(GENERATOR, b, p), a, p)
  {
    ModPowTwice(GENERATOR, a, b, p);
    ModPowTwice(GENERATOR, b, a, p);
    assert a * b == b * a;
  }

  /** An odd number above one divides no power of two. */
  lemma {:induction false} OddDividesNoPower(p: nat, k: nat, e: nat)
    requires p > 1 && p % 2 == 1
    ensures p * k != Pow(2, e)
    decreases e
  {
    if e == 0 {
      MulBounds(k, p);
    } else if p * k == Pow(2, e) {
      var half, h := Pow(2, e - 1), p / 2;
      assert p * k == 2 * (h * k) + k by { assert p == 2 * h + 1; }
      var j := half - h * k;
      assert k == 2 * j;
      assert p * k == 2 * (p * j);
      OddDividesNoPower(p, j, e - 1);
    }
  }

  /** So a conforming client's public value is never refused. */
  lemma PublicValueInRange(a: nat, p: nat)
    requires p > 1 && p % 2 == 1
    ensures 0 < ModPow(GENERATOR, a, p) < p
  {
    ModPowIsPow(GENERATOR, a, p);
    if Pow(2, a) % p == 0 {
      assert p * (Pow(2, a) / p) == Pow(2, a);
      OddDividesNoPower(p, Pow(2, a) / p, a);
    }
  }
}
