/** What the text of a media length means: seconds, minutes and seconds, or hours, minutes and seconds. */
module MediaLengths {
  import opened Basics
  import opened Library
  import opened SearchQueries
  import opened SearchSyntax

  predicate NoColons(parts: seq<Bytes>) {
    forall i :: 0 <= i < |parts| ==> 0x3A !in parts[i]
  }

  /** The parts with a colon between any two. */
  function JoinColons(parts: seq<Bytes>): Bytes {
    if parts == [] then []
    else if |parts| == 1 then parts[0]
    else parts[0] + [0x3A] + JoinColons(parts[1..])
  }

  lemma {:induction false} SplitFirst(part: Bytes, rest: Bytes)
    requires COLON !in part
    ensures SplitColons(part) == [part]
    ensures SplitColons(part + [COLON] + rest) == [part] + SplitColons(rest)
    decreases |part|
  {
    var s := part + [COLON] + rest;
    if part == [] {
      assert s == [COLON] + rest && s[1..] == rest;
    } else {
      assert COLON !in part[1..];
      SplitFirst(part[1..], rest);
      assert s[1..] == part[1..] + [COLON] + rest;
      assert [part[0]] + part[1..] == part && part[0] != COLON && s[0] == part[0];
      var later := [part[1..]] + SplitColons(rest);
      assert later[0] == part[1..] && later[1..] == SplitColons(rest);
      assert [part] + [part[1..]][1..] == [part];
    }
  }

  lemma {:induction false} SplitOfJoin(parts: seq<Bytes>)
    requires parts != [] && NoColons(parts)
    ensures SplitColons(JoinColons(parts)) == parts
  {
    if |parts| == 1 {
      SplitFirst(parts[0], []);
      assert parts == [parts[0]];
    } else {
      var rest := parts[1..];
      assert NoColons(rest);
      SplitOfJoin(rest);
      SplitFirst(parts[0], JoinColons(rest));
      assert parts == [parts[0]] + rest;
    }
  }

  /** Every text is its parts joined, so what holds of joined parts holds of every text. */
  lemma {:induction false} JoinOfSplit(s: Bytes)
    ensures NoColons(SplitColons(s)) && JoinColons(SplitColons(s)) == s
    decreases |s|
  {
    if s != [] {
      JoinOfSplit(s[1..]);
      HeadTail(s);
      var parts := SplitColons(s[1..]);
      if s[0] == COLON {
        JoinNext([], parts);
      } else {
        JoinLonger(s[0], parts);
      }
    }
  }

  lemma JoinNext(part: Bytes, parts: seq<Bytes>)
    requires parts != []
    ensures JoinColons([part] + parts) == part + [COLON] + JoinColons(parts)
    ensures COLON !in part && NoColons(parts) ==> NoColons([part] + parts)
  {
    assert ([part] + parts)[1..] == parts;
  }

  lemma JoinLonger(b: Byte, parts: seq<Bytes>)
    requires parts != []
    ensures JoinColons([[b] + parts[0]] + parts[1..]) == [b] + JoinColons(parts)
    ensures b != COLON && NoColons(parts) ==> NoColons([[b] + parts[0]] + parts[1..])
  {
    if |parts| > 1 {
      JoinNext([b] + parts[0], parts[1..]);
      Reassociate4([b], parts[0], [COLON], JoinColons(parts[1..]));
      Reassociate3(parts[0], [COLON], JoinColons(parts[1..]));
    }
  }

  /** A number in decimal digits. */
  function Decimal(n: nat): (s: Bytes)
    ensures s != []
  {
    if n < 10 then [0x30 + n] else Decimal(n / 10) + [0x30 + n % 10]
  }

  lemma {:induction false} DecimalReads(n: nat)
    ensures AllDigits(Decimal(n)) && DecimalValue(Decimal(n)) == n
  {
    if n >= 10 {
      DecimalReads(n / 10);
      var front, last := Decimal(n / 10), 0x30 + n % 10;
      assert (front + [last])[..|front|] == front && (front + [last])[|front|] == last;
    } else {
      assert [0x30 + n][..0] == [];
    }
  }

  /** Decimal digits are read as their number if that is below 2 to the power 63, after a sign too, and else refused. */
  lemma NumbersRead(n: nat)
    ensures Atoi(Decimal(n)) == (if n < 0x8000_0000_0000_0000 then Some(n) else None)
    ensures Atoi([0x2B] + Decimal(n)) == (if n < 0x8000_0000_0000_0000 then Some(n) else None)
    ensures n <= 0x8000_0000_0000_0000 ==> Atoi([0x2D] + Decimal(n)) == Some(-(n as int))
    ensures n > 0x8000_0000_0000_0000 ==> Atoi([0x2D] + Decimal(n)) == None
  {
    DecimalReads(n);
    UnsignedReads(Decimal(n), n);
    SignedReads(0x2B, Decimal(n), n);
    SignedReads(0x2D, Decimal(n), n);
  }

  lemma UnsignedReads(digits: Bytes, n: nat)
    requires AllDigits(digits) && DecimalValue(digits) == n
    ensures Atoi(digits) == if n < 0x8000_0000_0000_0000 then Some(n) else None
  {
    assert IsDigit(digits[0]);
  }

  lemma SignedReads(sign: Byte, digits: Bytes, n: nat)
    requires (sign == 0x2B || sign == 0x2D) && AllDigits(digits) && DecimalValue(digits) == n
    ensures sign == 0x2B ==> Atoi([sign] + digits) == (if n < 0x8000_0000_0000_0000 then Some(n) else None)
    ensures sign == 0x2D && n <= 0x8000_0000_0000_0000 ==> Atoi([sign] + digits) == Some(-(n as int))
    ensures sign == 0x2D && n > 0x8000_0000_0000_0000 ==> Atoi([sign] + digits) == None
  {
    var s := [sign] + digits;
    assert s[0] == sign && s[1..] == digits;
  }

  /** What has anything but digits after at most one sign, or no digits at all, is no number. */
  lemma OthersDoNotRead(s: Bytes, i: nat)
    requires i < |s| && !(0x30 <= s[i] <= 0x39) && (i > 0 || (s[0] != 0x2B && s[0] != 0x2D))
    ensures Atoi(s) == None && Atoi([]) == None && Atoi([0x2B]) == None && Atoi([0x2D]) == None
  {
    assert i > 0 ==> s[1..][i - 1] == s[i];
    assert [0x2B][1..] == [] && [0x2D][1..] == [];
  }

  /** The part is the text of a number that is not negative. */
  predicate IsCount(part: Bytes) {
    Atoi(part).Some? && Atoi(part).value >= 0
  }

  function CountOf(part: Bytes): nat
    requires IsCount(part)
  {
    Atoi(part).value
  }

  lemma WrapShift(x: int, k: int)
    ensures Wrap64(x - k * TWO_64) == Wrap64(x)
  {
    var a := x + TWO_63;
    var q, q' := a / TWO_64, (a - k * TWO_64) / TWO_64;
    assert (a - k * TWO_64) % TWO_64 - a % TWO_64 == (q - k - q') * TWO_64;
  }

  lemma WrapOnce(x: int, n: int)
    ensures Wrap64(Wrap64(x) * 60 + n) == Wrap64(x * 60 + n)
  {
    var k := (x + TWO_63) / TWO_64;
    assert Wrap64(x) == x - k * TWO_64;
    WrapShift(x * 60 + n, 60 * k);
  }

  predicate AllCounts(parts: seq<Bytes>) {
    forall i :: 0 <= i < |parts| ==> IsCount(parts[i])
  }

  function Counts(parts: seq<Bytes>): seq<nat>
    requires AllCounts(parts)
  {
    seq(|parts|, i requires 0 <= i < |parts| => CountOf(parts[i]))
  }

  /** The numbers as the digits of a base-60 number that continues total. */
  function Sixties(numbers: seq<nat>, total: int): int {
    if numbers == [] then total else Sixties(numbers[1..], 60 * total + numbers[0])
  }

  lemma CountsSplit(parts: seq<Bytes>, total: int)
    requires parts != [] && IsCount(parts[0])
    ensures AllCounts(parts) <==> AllCounts(parts[1..])
    ensures AllCounts(parts) ==>
              Sixties(Counts(parts), total) == Sixties(Counts(parts[1..]), 60 * total + CountOf(parts[0]))
  {
    assert parts == [parts[0]] + parts[1..];
    if AllCounts(parts) {
      assert Counts(parts)[1..] == Counts(parts[1..]);
    }
  }

  lemma {:induction false} FoldMeans(parts: seq<Bytes>, total: int)
    ensures FoldSixty(parts, Wrap64(total)).Ok? <==> AllCounts(parts)
    ensures AllCounts(parts) ==> FoldSixty(parts, Wrap64(total)) == Ok(Wrap64(Sixties(Counts(parts), total)))
    decreases |parts|
  {
    if parts == [] {
      WrapShift(total, 0);
    } else if IsCount(parts[0]) {
      var n := CountOf(parts[0]);
      assert FoldSixty(parts, Wrap64(total)) == FoldSixty(parts[1..], Wrap64(60 * total + n)) by { WrapOnce(total, n); }
      FoldMeans(parts[1..], 60 * total + n);
      CountsSplit(parts, total);
    }
  }

  /** Seconds, minutes and seconds, or hours, minutes and seconds. */
  function Seconds(numbers: seq<nat>): int
    requires 1 <= |numbers| <= 3
  {
    if |numbers| == 1 then numbers[0]
    else if |numbers| == 2 then 60 * numbers[0] + numbers[1]
    else 3600 * numbers[0] + 60 * numbers[1] + numbers[2]
  }

  lemma SixtiesAreSeconds(numbers: seq<nat>)
    requires 1 <= |numbers| <= 3
    ensures Sixties(numbers, 0) == Seconds(numbers)
  {
    var later := numbers[1..];
    if |numbers| == 2 {
      assert later[1..] == [];
      assert Sixties(later, numbers[0]) == Sixties([], 60 * numbers[0] + later[0]);
    } else if |numbers| == 3 {
      var minutes := 60 * numbers[0] + numbers[1];
      assert later[1..] == [numbers[2]] && [numbers[2]][1..] == [];
      assert Sixties(later, numbers[0]) == Sixties([numbers[2]], minutes);
      assert Sixties([numbers[2]], minutes) == Sixties([], 60 * minutes + numbers[2]);
    }
  }

  /**
   A media length is one to three numbers that are not negative, separated by colons, and stands for seconds,
   for minutes and seconds, or for hours, minutes and seconds, reduced to 64 bits; anything else is refused.
   */
  lemma MediaLengthMeans(lib: Library, raw: Bytes, parts: seq<Bytes>)
    requires parts != [] && NoColons(parts) && lib.trim(raw) == JoinColons(parts)
    ensures ParseMediaLength(lib, raw).Ok? <==> |parts| <= 3 && AllCounts(parts)
    ensures |parts| <= 3 && AllCounts(parts) ==> ParseMediaLength(lib, raw) == Ok(Wrap64(Seconds(Counts(parts))))
  {
    SplitOfJoin(parts);
    SplitMeans(lib, raw);
  }

  lemma SplitMeans(lib: Library, raw: Bytes)
    ensures var parts := SplitColons(lib.trim(raw));
            && (ParseMediaLength(lib, raw).Ok? <==> |parts| <= 3 && AllCounts(parts))
            && (|parts| <= 3 && AllCounts(parts) ==> ParseMediaLength(lib, raw) == Ok(Wrap64(Seconds(Counts(parts)))))
  {
    var parts := SplitColons(lib.trim(raw));
    if |parts| == 1 {
      JoinOfSplit(lib.trim(raw));
      SingleMeans(lib, raw);
    } else {
      SeveralMean(lib, raw);
      PartsMean(parts);
    }
  }

  lemma PartsMean(parts: seq<Bytes>)
    ensures FoldSixty(parts, 0).Ok? <==> AllCounts(parts)
    ensures AllCounts(parts) && 1 <= |parts| <= 3 ==> FoldSixty(parts, 0) == Ok(Wrap64(Seconds(Counts(parts))))
  {
    assert Wrap64(0) == 0;
    FoldMeans(parts, 0);
    if AllCounts(parts) && 1 <= |parts| <= 3 {
      SixtiesAreSeconds(Counts(parts));
    }
  }

  lemma SeveralMean(lib: Library, raw: Bytes)
    requires COLON in lib.trim(raw)
    ensures ParseMediaLength(lib, raw) ==
            if |SplitColons(lib.trim(raw))| <= 3 then FoldSixty(SplitColons(lib.trim(raw)), 0) else Err(BadMediaLength)
  {
  }

  lemma SingleMeans(lib: Library, raw: Bytes)
    requires COLON !in lib.trim(raw)
    ensures ParseMediaLength(lib, raw).Ok? <==> IsCount(lib.trim(raw))
    ensures IsCount(lib.trim(raw)) ==> ParseMediaLength(lib, raw) == Ok(Wrap64(CountOf(lib.trim(raw))))
  {
    assert Atoi([]).None?;
  }

  /** A length that fits is not changed by the reduction. */
  lemma FittingLength(parts: seq<Bytes>)
    requires AllCounts(parts) && 1 <= |parts| <= 3 && Seconds(Counts(parts)) < TWO_63
    ensures Wrap64(Seconds(Counts(parts))) == Seconds(Counts(parts))
  {
    assert Seconds(Counts(parts)) >= 0;
  }
}
