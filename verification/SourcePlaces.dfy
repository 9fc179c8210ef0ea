/** A reply's sources by their places in the list it was made from. */
module SourcePlaces {
  import opened Basics
  import opened SourceReplies
  import opened TrigramIndex

  /** The sources at the given places. */
  function At(sources: seq<Source>, places: seq<nat>): (r: seq<Source>)
    requires forall k :: 0 <= k < |places| ==> places[k] < |sources|
    ensures |r| == |places| && forall k :: 0 <= k < |places| ==> r[k] == sources[places[k]]
  {
    seq(|places|, k requires 0 <= k < |places| => sources[places[k]])
  }

  /** No source before this one has the same ID and the same port. */
  predicate FirstPlace(sources: seq<Source>, i: nat)
    requires i < |sources|
  {
    forall j :: 0 <= j < i ==> sources[j].clientID != sources[i].clientID || sources[j].port != sources[i].port
  }

  /** As a signed 32-bit number a routable ID is negative or at least 2 to the power 24. */
  predicate Routable(s: Source) {
    s.clientID < 0 || s.clientID >= 16777216
  }

  predicate Is32Bit(s: Source) {
    -2147483648 <= s.clientID < 2147483648
  }

  lemma {:induction false} FirstPlaces(sources: seq<Source>) returns (places: seq<nat>)
    ensures Ascending(places) && (forall k :: 0 <= k < |places| ==> places[k] < |sources|)
    ensures forall i: nat :: i in places <==> i < |sources| && FirstPlace(sources, i)
    ensures FirstOccurrences(sources) == At(sources, places)
  {
    if sources == [] {
      places := [];
    } else {
      var n := |sources| - 1;
      var front := sources[..n];
      places := FirstPlaces(front);
      FirstPlaceOfFront(sources);
      assert HasKey(front, Key(sources[n])) <==> !FirstPlace(sources, n);
      assert At(sources, places) == At(front, places);
      if FirstPlace(sources, n) {
        assert forall k :: 0 <= k < |places| ==> places[k] in places;
        assert At(sources, places + [n]) == At(sources, places) + [sources[n]];
        places := places + [n];
      }
    }
  }

  lemma FirstPlaceOfFront(sources: seq<Source>)
    requires sources != []
    ensures forall i: nat :: i < |sources| - 1 ==> (FirstPlace(sources[..|sources| - 1], i) <==> FirstPlace(sources, i))
  {
  }

  /** The places of one class of sources among given places. */
  lemma {:induction false} ClassPlaces(sources: seq<Source>, places: seq<nat>, high: bool) returns (chosen: seq<nat>)
    requires Ascending(places) && forall k :: 0 <= k < |places| ==> places[k] < |sources|
    ensures Ascending(chosen) && (forall k :: 0 <= k < |chosen| ==> chosen[k] < |sources|)
    ensures forall i: nat :: i in chosen <==> i in places && HighID(sources[i]) == high
    ensures Class(At(sources, places), high) == At(sources, chosen)
  {
    if places == [] {
      chosen := [];
    } else {
      var n := |places| - 1;
      var before := ClassPlaces(sources, places[..n], high);
      assert places == places[..n] + [places[n]];
      ClassOneMore(sources, places[..n], places[n], high);
      if HighID(sources[places[n]]) == high {
        PlacesGrow(sources, before, places[n]);
        chosen := before + [places[n]];
      } else {
        chosen := before;
      }
    }
  }

  lemma ClassOneMore(sources: seq<Source>, places: seq<nat>, i: nat, high: bool)
    requires (forall k :: 0 <= k < |places| ==> places[k] < |sources|) && i < |sources|
    ensures Class(At(sources, places + [i]), high) ==
            Class(At(sources, places), high) + (if HighID(sources[i]) == high then [sources[i]] else [])
  {
    var longer := At(sources, places + [i]);
    assert longer[..|places|] == At(sources, places) && longer[|places|] == sources[i];
  }

  lemma PlacesGrow(sources: seq<Source>, places: seq<nat>, i: nat)
    requires Ascending(places) && (forall k :: 0 <= k < |places| ==> places[k] < |sources|) && i < |sources|
    requires forall p :: p in places ==> p < i
    ensures Ascending(places + [i]) && At(sources, places + [i]) == At(sources, places) + [sources[i]]
    ensures forall p :: p in places + [i] <==> p in places || p == i
  {
    assert forall k :: 0 <= k < |places| ==> places[k] in places;
  }

  lemma HighIsRoutable(s: Source)
    requires Is32Bit(s)
    ensures HighID(s) <==> Routable(s)
  {
  }

  /**
   The reply is the routable sources without repetition of ID and port, in the order given, and then the others
   likewise, as many as the cap allows, which is the given one from 1 to 255 and otherwise 255.
   */
  lemma ReplyPlaces(sources: seq<Source>, max: int) returns (highs: seq<nat>, lows: seq<nat>)
    requires forall i :: 0 <= i < |sources| ==> Is32Bit(sources[i])
    ensures Ascending(highs) && Ascending(lows)
    ensures forall i: nat :: i in highs <==> i < |sources| && FirstPlace(sources, i) && Routable(sources[i])
    ensures forall i: nat :: i in lows <==> i < |sources| && FirstPlace(sources, i) && !Routable(sources[i])
    ensures var places, cap := highs + lows, if 1 <= max <= 255 then max else 255;
            && |Reply(sources, max)| == (if |places| > cap then cap else |places|)
            && forall k :: 0 <= k < |Reply(sources, max)| ==> places[k] < |sources| && Reply(sources, max)[k] == sources[places[k]]
  {
    var firsts := FirstPlaces(sources);
    highs := ClassPlaces(sources, firsts, true);
    lows := ClassPlaces(sources, firsts, false);
    forall i: nat | i < |sources|
      ensures HighID(sources[i]) <==> Routable(sources[i])
    {
      HighIsRoutable(sources[i]);
    }
    var places := highs + lows;
    assert Ordered(sources) == At(sources, highs) + At(sources, lows);
    assert forall k :: 0 <= k < |places| ==> places[k] < |sources| && Ordered(sources)[k] == sources[places[k]];
  }
}
