/** The sources of a file as they go into a reply: without repetitions, reachable clients first, capped. */
module SourceReplies {
  import opened Basics
  import opened Records
  import opened SharedIndex

  const PROTOCOL_LIMIT: int := 255

  datatype Source = Source(clientID: ClientID, port: int, obfuscationOptions: Byte, userHash: Option<Hash>)

  /** A routable ID: as an unsigned 32-bit number it is at least 0x1000000. */
  predicate HighID(s: Source) {
    s.clientID % 0x1_0000_0000 >= 0x100_0000
  }

  function Key(s: Source): (ClientID, int) {
    (s.clientID, s.port)
  }

  predicate HasKey(sources: seq<Source>, key: (ClientID, int)) {
    exists i :: 0 <= i < |sources| && Key(sources[i]) == key
  }

  /** The first source of every (ID, port) pair, in order. */
  function FirstOccurrences(sources: seq<Source>): seq<Source> {
    if sources == [] then []
    else
      var n := |sources| - 1;
      if HasKey(sources[..n], Key(sources[n])) then FirstOccurrences(sources[..n])
      else FirstOccurrences(sources[..n]) + [sources[n]]
  }

  /** The sources with high IDs, or those without, in order. */
  function Class(sources: seq<Source>, high: bool): (r: seq<Source>)
    ensures forall i :: 0 <= i < |r| ==> HighID(r[i]) == high
  {
    if sources == [] then []
    else
      var n := |sources| - 1;
      if HighID(sources[n]) == high then Class(sources[..n], high) + [sources[n]] else Class(sources[..n], high)
  }

  function Cap(max: int): (c: int)
    ensures 1 <= c <= PROTOCOL_LIMIT
  {
    if max <= 0 || max > PROTOCOL_LIMIT then PROTOCOL_LIMIT else max
  }

  /** High IDs in order of first occurrence, then low IDs likewise. */
  function Ordered(sources: seq<Source>): seq<Source> {
    Class(FirstOccurrences(sources), true) + Class(FirstOccurrences(sources), false)
  }

  function Reply(sources: seq<Source>, max: int): seq<Source> {
    if |Ordered(sources)| > Cap(max) then Ordered(sources)[..Cap(max)] else Ordered(sources)
  }

  predicate DistinctKeys(sources: seq<Source>) {
    forall i, j :: 0 <= i < j < |sources| ==> Key(sources[i]) != Key(sources[j])
  }

  lemma {:induction false} FirstOccurrencesDistinct(sources: seq<Source>)
    ensures DistinctKeys(FirstOccurrences(sources))
    ensures forall k :: HasKey(FirstOccurrences(sources), k) <==> HasKey(sources, k)
  {
    if sources != [] {
      var n := |sources| - 1;
      var before := FirstOccurrences(sources[..n]);
      FirstOccurrencesDistinct(sources[..n]);
      forall k
        ensures HasKey(FirstOccurrences(sources), k) <==> HasKey(sources, k)
      {
        KeyOfAppend(sources[..n], sources[n], k);
        KeyOfAppend(before, sources[n], k);
        assert sources == sources[..n] + [sources[n]];
      }
      if !HasKey(sources[..n], Key(sources[n])) {
        assert !HasKey(before, Key(sources[n]));
      }
    }
  }

  lemma KeyOfAppend(sources: seq<Source>, s: Source, k: (ClientID, int))
    ensures HasKey(sources + [s], k) <==> HasKey(sources, k) || Key(s) == k
  {
    if HasKey(sources, k) {
      var i :| 0 <= i < |sources| && Key(sources[i]) == k;
      assert (sources + [s])[i] == sources[i];
    }
    assert (sources + [s])[|sources|] == s;
  }

  /** Splitting into the two classes loses nothing, repeats nothing and keeps the length. */
  lemma {:induction false} ClassesSplit(sources: seq<Source>)
    ensures |Class(sources, true)| + |Class(sources, false)| == |sources|
    ensures forall s :: s in sources <==> s in Class(sources, true) || s in Class(sources, false)
  {
    if sources != [] {
      var n := |sources| - 1;
      ClassesSplit(sources[..n]);
      assert sources == sources[..n] + [sources[n]];
    }
  }

  lemma {:induction false} ClassDistinct(sources: seq<Source>, high: bool)
    requires DistinctKeys(sources)
    ensures DistinctKeys(Class(sources, high))
    ensures forall i :: 0 <= i < |Class(sources, high)| ==> HasKey(sources, Key(Class(sources, high)[i]))
  {
    if sources != [] {
      var n := |sources| - 1;
      ClassDistinct(sources[..n], high);
      forall k
        ensures HasKey(sources, k) <==> HasKey(sources[..n], k) || Key(sources[n]) == k
      {
        KeyOfAppend(sources[..n], sources[n], k);
        assert sources == sources[..n] + [sources[n]];
      }
      assert !HasKey(sources[..n], Key(sources[n])) by {
        assert forall i :: 0 <= i < n ==> sources[..n][i] == sources[i];
      }
    }
  }

  lemma HighLowKeysDiffer(a: Source, b: Source)
    requires HighID(a) != HighID(b)
    ensures Key(a) != Key(b)
  {
  }

  lemma OrderedDistinct(sources: seq<Source>)
    ensures DistinctKeys(Ordered(sources))
  {
    var d := FirstOccurrences(sources);
    FirstOccurrencesDistinct(sources);
    ClassDistinct(d, true);
    ClassDistinct(d, false);
    var highs, lows := Class(d, true), Class(d, false);
    forall i, j | 0 <= i < j < |highs + lows|
      ensures Key((highs + lows)[i]) != Key((highs + lows)[j])
    {
      if i < |highs| <= j {
        HighLowKeysDiffer(highs[i], lows[j - |highs|]);
      }
    }
  }

  /**
   A reply has no repeated (ID, port), at most 255 sources, as many as the cap and the distinct sources
   allow, and a low ID in it only if every distinct high ID is in it too.
   */
  lemma ReplyShape(sources: seq<Source>, max: int)
    ensures var r := Reply(sources, max);
            && DistinctKeys(r)
            && |r| <= 255
            && |r| == (if |FirstOccurrences(sources)| > Cap(max) then Cap(max) else |FirstOccurrences(sources)|)
            && (forall i :: 0 <= i < |r| && !HighID(r[i]) ==>
                  forall s :: s in FirstOccurrences(sources) && HighID(s) ==> s in r)
  {
    var d := FirstOccurrences(sources);
    var r := Reply(sources, max);
    var highs := Class(d, true);
    OrderedDistinct(sources);
    ClassesSplit(d);
    forall i | 0 <= i < |r| && !HighID(r[i])
      ensures forall s :: s in d && HighID(s) ==> s in r
    {
      assert i >= |highs|;
      forall s | s in d && HighID(s)
        ensures s in r
      {
        assert s in highs;
        var k :| 0 <= k < |highs| && highs[k] == s;
        assert r[k] == s;
      }
    }
  }

  // ---------------------------------------------------------------- the stable sort

  predicate Less(a: Source, b: Source) {
    HighID(a) && !HighID(b)
  }

  /** x placed before the first source it is less than, as a stable insertion sort places it. */
  function Insert(sorted: seq<Source>, x: Source): seq<Source> {
    if sorted == [] then [x]
    else if Less(x, sorted[0]) then [x] + sorted
    else [sorted[0]] + Insert(sorted[1..], x)
  }

  /** sort.SliceStable. */
  function StableSort(sources: seq<Source>): seq<Source> {
    if sources == [] then [] else Insert(StableSort(sources[..|sources| - 1]), sources[|sources| - 1])
  }

  lemma {:induction false} InsertIntoClasses(highs: seq<Source>, lows: seq<Source>, x: Source)
    requires forall i :: 0 <= i < |highs| ==> HighID(highs[i])
    requires forall i :: 0 <= i < |lows| ==> !HighID(lows[i])
    ensures Insert(highs + lows, x) == if HighID(x) then highs + [x] + lows else highs + lows + [x]
    decreases |highs| + |lows|
  {
    var all := highs + lows;
    if all != [] && !Less(x, all[0]) {
      if highs != [] {
        InsertIntoClasses(highs[1..], lows, x);
        assert all[1..] == highs[1..] + lows;
      } else {
        InsertIntoClasses([], lows[1..], x);
        assert all == lows && [] + lows[1..] == all[1..];
      }
    }
  }

  /** Sorting stably by "high before low" is the high IDs in order followed by the low IDs in order. */
  lemma {:induction false} StableSortSplits(sources: seq<Source>)
    ensures StableSort(sources) == Class(sources, true) + Class(sources, false)
  {
    if sources != [] {
      var n := |sources| - 1;
      StableSortSplits(sources[..n]);
      InsertIntoClasses(Class(sources[..n], true), Class(sources[..n], false), sources[n]);
    }
  }

  method OrderAndCapSources(sources: seq<Source>, max: int) returns (r: seq<Source>)
    ensures r == Reply(sources, max)
  {
    var limit := max;
    if limit <= 0 || limit > PROTOCOL_LIMIT {
      limit := PROTOCOL_LIMIT;
    }
    r := sources;
    if |r| > 1 {
      r := Deduplicate(sources);
    } else {
      ShortListDistinct(sources);
    }
    StableSortSplits(r);
    r := StableSort(r);
    if |r| > limit {
      r := r[..limit];
    }
  }

  lemma ShortListDistinct(sources: seq<Source>)
    requires |sources| <= 1
    ensures FirstOccurrences(sources) == sources
  {
    if |sources| == 1 {
      assert sources[..0] == [] && sources == [] + [sources[0]];
    }
  }

  method Deduplicate(sources: seq<Source>) returns (deduped: seq<Source>)
    ensures deduped == FirstOccurrences(sources)
  {
    var seen: set<(ClientID, int)> := {};
    deduped := [];
    for i := 0 to |sources|
      invariant deduped == FirstOccurrences(sources[..i])
      invariant forall k :: k in seen <==> HasKey(sources[..i], k)
    {
      assert sources[..i + 1] == sources[..i] + [sources[i]];
      forall k
        ensures HasKey(sources[..i + 1], k) <==> HasKey(sources[..i], k) || Key(sources[i]) == k
      {
        KeyOfAppend(sources[..i], sources[i], k);
      }
      var key := Key(sources[i]);
      if key in seen {
        continue;
      }
      seen := seen + {key};
      deduped := deduped + [sources[i]];
    }
    assert sources[..|sources|] == sources;
  }
}
