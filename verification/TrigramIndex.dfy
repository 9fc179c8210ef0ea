/** The trigram index over file names: what it holds, and which files it selects for a key. */
module TrigramIndex {
  import opened Basics
  import opened Library
  import opened Records

  type Index = map<Bytes, seq<nat>>

  /** The three bytes at position i. */
  function Gram(s: Bytes, i: int): Bytes
    requires 0 <= i <= |s| - 3
  {
    s[i..i + 3]
  }

  function Trigrams(s: Bytes): set<Bytes> {
    set i | 0 <= i <= |s| - 3 :: Gram(s, i)
  }

  function NameTrigrams(lib: Library, record: FileRecord): set<Bytes> {
    Trigrams(lib.lower(record.name))
  }

  /** The positions, in ascending order, of the files whose lower-cased name contains g. */
  function Holders(lib: Library, files: seq<FileRecord>, g: Bytes): (r: seq<nat>)
    ensures forall x :: x in r <==> 0 <= x < |files| && g in NameTrigrams(lib, files[x])
    ensures Ascending(r)
  {
    if files == [] then []
    else
      var n := |files| - 1;
      var r := Holders(lib, files[..n], g);
      assert forall i :: 0 <= i < |r| ==> r[i] in r;
      r + (if g in NameTrigrams(lib, files[n]) then [n] else [])
  }

  predicate Ascending(s: seq<nat>) {
    forall i, j :: 0 <= i < j < |s| ==> s[i] < s[j]
  }

  function Postings(index: Index, g: Bytes): seq<nat> {
    if g in index then index[g] else []
  }

  /** Every posting list is exactly the list of holders, and only trigrams that occur have one. */
  ghost predicate IndexExact(lib: Library, files: seq<FileRecord>, index: Index) {
    && (forall g :: g in index ==> index[g] != [])
    && (forall g :: Postings(index, g) == Holders(lib, files, g))
  }

  /** The file contains every trigram of the key. */
  predicate HasAllTrigrams(lib: Library, record: FileRecord, key: Bytes) {
    Trigrams(key) <= NameTrigrams(lib, record)
  }

  /** The positions, in ascending order, of the files that contain every trigram of the key. */
  function Candidates(lib: Library, files: seq<FileRecord>, key: Bytes): (r: seq<nat>)
    ensures forall x :: x in r <==> 0 <= x < |files| && HasAllTrigrams(lib, files[x], key)
    ensures Ascending(r)
  {
    if files == [] then []
    else
      var n := |files| - 1;
      var r := Candidates(lib, files[..n], key);
      assert forall i :: 0 <= i < |r| ==> r[i] in r;
      r + (if HasAllTrigrams(lib, files[n], key) then [n] else [])
  }

  /** How many of the trigrams have x in their posting list. */
  function Hits(index: Index, grams: seq<Bytes>, x: nat): (n: nat)
    ensures n <= |grams|
  {
    if grams == [] then 0
    else
      var last := |grams| - 1;
      Hits(index, grams[..last], x) + (if x in Postings(index, grams[last]) then 1 else 0)
  }

  lemma {:induction false} FullHits(index: Index, grams: seq<Bytes>, x: nat)
    ensures Hits(index, grams, x) == |grams| <==> forall i :: 0 <= i < |grams| ==> x in Postings(index, grams[i])
  {
    if grams != [] {
      FullHits(index, grams[..|grams| - 1], x);
    }
  }

  lemma GramShift(s: Bytes, key: Bytes, at: int, i: int)
    requires OccursAt(s, key, at) && 0 <= i <= |key| - 3
    ensures Gram(key, i) in Trigrams(s)
  {
    forall k | 0 <= k < 3
      ensures Gram(s, at + i)[k] == Gram(key, i)[k]
    {
      assert s[at..at + |key|][i + k] == s[at + i + k];
    }
    assert Gram(s, at + i) == Gram(key, i);
  }

  /** A name that contains the key contains all of the key's trigrams. */
  lemma ContainsImpliesTrigrams(s: Bytes, key: Bytes)
    requires Contains(s, key)
    ensures Trigrams(key) <= Trigrams(s)
  {
    var at :| OccursAt(s, key, at);
    forall g | g in Trigrams(key)
      ensures g in Trigrams(s)
    {
      var i :| 0 <= i <= |key| - 3 && g == Gram(key, i);
      GramShift(s, key, at, i);
    }
  }

  lemma CoverNonempty(a: seq<nat>, b: seq<nat>)
    requires a != [] && forall x :: x in a ==> x in b
    ensures b != []
  {
    assert a[0] in b;
  }

  /** Two ascending lists with the same elements are the same list. */
  lemma {:induction false} AscendingUnique(a: seq<nat>, b: seq<nat>)
    requires Ascending(a) && Ascending(b) && forall x :: x in a <==> x in b
    ensures a == b
  {
    if b != [] { CoverNonempty(b, a); }
    if a != [] {
      CoverNonempty(a, b);
      assert a[|a| - 1] in b;
      var m, n := |a| - 1, |b| - 1;
      assert b[n] in a;
      assert a[m] == b[n];
      forall x
        ensures x in a[..m] <==> x in b[..n]
      {
        if x in a[..m] {
          assert x in b;
          var j :| 0 <= j < |b| && b[j] == x;
          assert x in b[..n];
        }
        if x in b[..n] {
          assert x in a;
          var j :| 0 <= j < |a| && a[j] == x;
          assert x in a[..m];
        }
      }
      AscendingUnique(a[..m], b[..n]);
      assert a == a[..m] + [a[m]] && b == b[..n] + [b[n]];
    }
  }

  predicate Distinct<T(==)>(s: seq<T>) {
    forall i, j :: 0 <= i < j < |s| ==> s[i] != s[j]
  }

  /** x placed before the first greater element. */
  function InsertSorted(s: seq<nat>, x: nat): (r: seq<nat>)
    requires Ascending(s) && x !in s
    ensures Ascending(r)
    ensures forall y :: y in r <==> y == x || y in s
  {
    if s == [] then [x]
    else if x < s[0] then [x] + s
    else
      var r := InsertSorted(s[1..], x);
      assert forall y :: y in s <==> y == s[0] || y in s[1..];
      assert forall i :: 0 <= i < |r| ==> r[i] in r;
      [s[0]] + r
  }

  /** sort.Ints on distinct numbers. */
  function SortInts(s: seq<nat>): (r: seq<nat>)
    requires Distinct(s)
    ensures Ascending(r)
    ensures forall y :: y in r <==> y in s
  {
    if s == [] then []
    else
      var last := |s| - 1;
      var r := SortInts(s[..last]);
      assert s[last] !in s[..last];
      InsertSorted(r, s[last])
  }

  method UniqueTrigrams(s: Bytes) returns (out: seq<Bytes>)
    ensures Distinct(out)
    ensures forall g :: g in out <==> g in Trigrams(s)
  {
    out := [];
    if |s| < 3 {
      return;
    }
    var seen: set<Bytes> := {};
    var i := 0;
    while i + 3 <= |s|
      invariant 0 <= i <= |s| - 2
      invariant Distinct(out)
      invariant forall g :: g in seen <==> g in out
      invariant forall g :: g in out <==> exists k :: 0 <= k < i && g == Gram(s, k)
    {
      var g := Gram(s, i);
      if g !in seen {
        seen := seen + {g};
        out := out + [g];
      }
      i := i + 1;
    }
  }

  /** The index rebuilt from nothing. */
  method BuildIndex(lib: Library, files: seq<FileRecord>) returns (index: Index)
    ensures IndexExact(lib, files, index)
  {
    index := map[];
    for n := 0 to |files|
      invariant IndexExact(lib, files[..n], index)
    {
      var grams := UniqueTrigrams(lib.lower(files[n].name));
      index := AppendPosting(index, grams, n);
      assert files[..n + 1][..n] == files[..n];
    }
    assert files[..|files|] == files;
  }

  /** Appends n to the posting list of every trigram. */
  method AppendPosting(before: Index, grams: seq<Bytes>, n: nat) returns (index: Index)
    requires Distinct(grams)
    requires forall g :: g in before ==> before[g] != []
    ensures forall g :: g in index ==> index[g] != []
    ensures forall g :: Postings(index, g) == Postings(before, g) + (if g in grams then [n] else [])
  {
    index := before;
    for j := 0 to |grams|
      invariant forall g :: g in index ==> index[g] != []
      invariant forall g :: Postings(index, g) == Postings(before, g) + (if g in grams[..j] then [n] else [])
    {
      assert grams[j] !in grams[..j];
      index := index[grams[j] := Postings(index, grams[j]) + [n]];
    }
    assert grams[..|grams|] == grams;
  }

  /** How often each file occurs in the posting lists of the trigrams; nothing if some trigram has no list. */
  method CountHits(index: Index, grams: seq<Bytes>) returns (counts: Option<map<nat, nat>>)
    requires forall g :: Ascending(Postings(index, g))
    ensures counts.None? <==> exists i :: 0 <= i < |grams| && grams[i] !in index
    ensures counts.Some? ==> forall x :: x in counts.value <==> Hits(index, grams, x) > 0
    ensures counts.Some? ==> forall x :: x in counts.value ==> counts.value[x] == Hits(index, grams, x)
  {
    var found: map<nat, nat> := map[];
    for i := 0 to |grams|
      invariant forall k :: 0 <= k < i ==> grams[k] in index
      invariant forall x :: x in found <==> Hits(index, grams[..i], x) > 0
      invariant forall x :: x in found ==> found[x] == Hits(index, grams[..i], x)
    {
      if grams[i] !in index {
        return None;
      }
      assert Postings(index, grams[i]) == index[grams[i]];
      found := CountPostings(index[grams[i]], found);
      assert grams[..i + 1][..i] == grams[..i];
    }
    assert grams[..|grams|] == grams;
    return Some(found);
  }

  /** The inner loop of the count: one more for every member of the list. */
  method CountPostings(postings: seq<nat>, counts: map<nat, nat>) returns (found: map<nat, nat>)
    requires Ascending(postings)
    ensures forall x :: x in found <==> x in counts || x in postings
    ensures forall x :: x in found ==>
              found[x] == (if x in counts then counts[x] else 0) + (if x in postings then 1 else 0)
  {
    found := counts;
    for j := 0 to |postings|
      invariant forall x :: x in found <==> x in counts || x in postings[..j]
      invariant forall x :: x in found ==>
                  found[x] == (if x in counts then counts[x] else 0) + (if x in postings[..j] then 1 else 0)
    {
      var x := postings[j];
      assert x !in postings[..j];
      found := found[x := (if x in found then found[x] else 0) + 1];
    }
    assert postings[..|postings|] == postings;
  }

  /** The files whose count is full, sorted. */
  method FullyCounted(counts: map<nat, nat>, full: nat) returns (candidates: seq<nat>)
    ensures Ascending(candidates)
    ensures forall x :: x in candidates <==> x in counts && counts[x] == full
  {
    candidates := [];
    var remaining := counts.Keys;
    while remaining != {}
      invariant remaining <= counts.Keys
      invariant Distinct(candidates)
      invariant forall x :: x in candidates <==> x in counts && x !in remaining && counts[x] == full
      decreases |remaining|
    {
      var x := AnyOf(remaining);
      if counts[x] == full {
        candidates := candidates + [x];
      }
      remaining := remaining - {x};
    }
    candidates := SortInts(candidates);
  }

  /** Counting posting-list hits selects exactly the files that contain every trigram of the key. */
  method SelectCandidates(lib: Library, ghost files: seq<FileRecord>, index: Index, key: Bytes) returns (candidates: seq<nat>)
    requires IndexExact(lib, files, index)
    requires |key| >= 3
    ensures candidates == Candidates(lib, files, key)
  {
    var grams := UniqueTrigrams(key);
    assert Gram(key, 0) in Trigrams(key);
    var counts := CountHits(index, grams);
    if counts.None? {
      var i :| 0 <= i < |grams| && grams[i] !in index;
      MissingTrigram(lib, files, index, key, grams[i]);
      return [];
    }
    candidates := FullyCounted(counts.value, |grams|);
    forall x: nat
      ensures x in candidates <==> x in Candidates(lib, files, key)
    {
      FullHitsAreCandidates(lib, files, index, key, grams, x);
    }
    AscendingUnique(candidates, Candidates(lib, files, key));
  }

  lemma MissingTrigram(lib: Library, files: seq<FileRecord>, index: Index, key: Bytes, g: Bytes)
    requires IndexExact(lib, files, index) && g in Trigrams(key) && g !in index
    ensures Candidates(lib, files, key) == []
  {
    var selected := Candidates(lib, files, key);
    assert forall x :: x in selected ==> x in Holders(lib, files, g);
    assert selected != [] ==> selected[0] in Holders(lib, files, g);
    assert Postings(index, g) == Holders(lib, files, g);
  }

  lemma FullHitsAreCandidates(lib: Library, files: seq<FileRecord>, index: Index, key: Bytes, grams: seq<Bytes>, x: nat)
    requires IndexExact(lib, files, index) && grams != [] && forall g :: g in grams <==> g in Trigrams(key)
    ensures Hits(index, grams, x) == |grams| <==> x in Candidates(lib, files, key)
  {
    FullHits(index, grams, x);
    if Hits(index, grams, x) == |grams| {
      assert x in Postings(index, grams[0]) && x in Holders(lib, files, grams[0]);
      forall g | g in Trigrams(key)
        ensures g in NameTrigrams(lib, files[x])
      {
        assert g in grams;
        assert x in Holders(lib, files, g);
      }
    }
    if x in Candidates(lib, files, key) {
      forall i | 0 <= i < |grams|
        ensures x in Postings(index, grams[i])
      {
        assert grams[i] in Trigrams(key);
        assert x in Holders(lib, files, grams[i]);
      }
    }
  }
}
