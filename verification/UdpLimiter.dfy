/** The per-address token bucket, and what sweeping its table does and does not change. */
module UdpLimiter {
  import opened Basics

  type Address = Bytes

  datatype Bucket = Bucket(tokens: real, last: real)

  type Table = map<Address, Bucket>

  datatype Event = Event(ip: Address, now: real)

  const MAX_ENTRIES: nat := 65536

  // ---------------------------------------------------------------- one call

  /** The bucket brought up to date. */
  function Refreshed(b: Bucket, now: real, rate: real): Bucket {
    var elapsed := now - b.last;
    if elapsed > 0.0 then
      var tokens := b.tokens + elapsed * rate;
      Bucket(if tokens > rate then rate else tokens, now)
    else b
  }

  function Answer(t: Table, ip: Address, now: real, rate: real): bool {
    ip !in t || Refreshed(t[ip], now, rate).tokens >= 1.0
  }

  /** The table after a packet from ip. */
  function Charged(t: Table, ip: Address, now: real, rate: real): Table {
    if ip !in t then t[ip := Bucket(rate - 1.0, now)]
    else
      var b := Refreshed(t[ip], now, rate);
      t[ip := if b.tokens < 1.0 then b else b.(tokens := b.tokens - 1.0)]
  }

  /** The table without the buckets that would be full again by now. */
  function Swept(t: Table, now: real, rate: real): Table {
    map ip | ip in t && !(t[ip].tokens + (now - t[ip].last) * rate >= rate) :: t[ip]
  }

  /** The table a call works on: swept first when it has reached the limit. None means never sweep. */
  function Prepared(t: Table, now: real, rate: real, limit: Option<nat>): Table {
    if limit.Some? && |t| >= limit.value then Swept(t, now, rate) else t
  }

  /** The answers to a run of calls. */
  function Answers(t: Table, events: seq<Event>, rate: real, limit: Option<nat>): (r: seq<bool>)
    ensures |r| == |events|
    decreases |events|
  {
    if events == [] then []
    else
      var p := Prepared(t, events[0].now, rate, limit);
      [Answer(p, events[0].ip, events[0].now, rate)] +
      Answers(Charged(p, events[0].ip, events[0].now, rate), events[1..], rate, limit)
  }

  function TableAfter(t: Table, events: seq<Event>, rate: real, limit: Option<nat>): Table
    decreases |events|
  {
    if events == [] then t
    else
      var p := Prepared(t, events[0].now, rate, limit);
      TableAfter(Charged(p, events[0].ip, events[0].now, rate), events[1..], rate, limit)
  }

  predicate NotBefore(events: seq<Event>, now: real) {
    forall i :: 0 <= i < |events| ==> now <= events[i].now
  }

  predicate NotAfter(events: seq<Event>, now: real) {
    forall i :: 0 <= i < |events| ==> events[i].now <= now
  }

  /** The clock does not run backwards. */
  predicate InOrder(events: seq<Event>)
    decreases |events|
  {
    events != [] ==> NotBefore(events[1..], events[0].now) && InOrder(events[1..])
  }

  lemma {:induction false} SuffixInOrder(events: seq<Event>, i: nat)
    requires InOrder(events) && i <= |events|
    ensures InOrder(events[i..])
    ensures i < |events| ==> NotBefore(events[i..], events[i].now) && NotAfter(events[..i], events[i].now)
    decreases |events|
  {
    if i > 0 {
      SuffixInOrder(events[1..], i - 1);
      assert events[1..][i - 1..] == events[i..];
      assert i < |events| ==> events[..i] == [events[0]] + events[1..][..i - 1];
    } else {
      assert events[0..] == events;
    }
  }

  lemma {:induction false} PrefixInOrder(events: seq<Event>, j: nat)
    requires InOrder(events) && j <= |events|
    ensures InOrder(events[..j])
    decreases |events|
  {
    if j > 0 {
      PrefixInOrder(events[1..], j - 1);
      assert events[..j][1..] == events[1..][..j - 1];
    }
  }

  /** Every bucket holds between none and all of its tokens and was last used no later than now. */
  predicate TableOK(t: Table, now: real, rate: real) {
    forall ip :: ip in t ==> BucketOK(t[ip], now, rate)
  }

  predicate BucketOK(b: Bucket, now: real, rate: real) {
    0.0 <= b.tokens <= rate && b.last <= now
  }

  lemma TimesMonotone(a: real, b: real, rate: real)
    requires a <= b && rate >= 0.0
    ensures a * rate <= b * rate
  {
  }

  lemma ZeroTimes(a: real, rate: real)
    requires a == 0.0
    ensures a * rate == 0.0
  {
  }

  lemma SplitTimes(from: real, between: real, to: real, rate: real)
    ensures (to - from) * rate == (between - from) * rate + (to - between) * rate
  {
  }

  /** Never more tokens than the rate. */
  function Filled(tokens: real, rate: real): real {
    if tokens > rate then rate else tokens
  }

  /** A refreshed bucket has its tokens and those earned since, up to the rate. */
  lemma RefreshedIs(b: Bucket, now: real, rate: real, earned: real)
    requires b.tokens <= rate && b.last <= now && earned == (now - b.last) * rate
    ensures Refreshed(b, now, rate) == Bucket(Filled(b.tokens + earned, rate), now)
  {
    if now - b.last == 0.0 {
      ZeroTimes(now - b.last, rate);
    }
  }

  /** When no time has passed, or the clock stands earlier, the bucket stays as it is. */
  lemma NoTimeNoTokens(b: Bucket, now: real, rate: real)
    requires now <= b.last
    ensures Refreshed(b, now, rate) == b
  {
  }

  lemma FilledTwice(tokens: real, early: real, late: real, rate: real)
    requires early >= 0.0 && late >= 0.0
    ensures Filled(Filled(tokens + early, rate) + late, rate) == Filled(tokens + (early + late), rate)
  {
  }

  lemma RefreshedOK(b: Bucket, now: real, rate: real)
    requires rate >= 1.0 && 0.0 <= b.tokens <= rate && b.last <= now
    ensures BucketOK(Refreshed(b, now, rate), now, rate)
    ensures Refreshed(b, now, rate).last == now
  {
    var earned := (now - b.last) * rate;
    assert earned >= 0.0 by { EarnedNotNegative(b.last, now, rate); }
    RefreshedIs(b, now, rate, earned);
  }

  lemma EarnedNotNegative(from: real, to: real, rate: real)
    requires from <= to && rate >= 0.0
    ensures (to - from) * rate >= 0.0
  {
    TimesMonotone(0.0, to - from, rate);
    ZeroTimes(0.0, rate);
  }

  /** Bringing a bucket up to date on the way to a later time makes no difference. */
  lemma RefreshTwice(b: Bucket, between: real, now: real, rate: real)
    requires rate >= 1.0 && 0.0 <= b.tokens <= rate && b.last <= between <= now
    ensures Refreshed(Refreshed(b, between, rate), now, rate) == Refreshed(b, now, rate)
  {
    var early, late := (between - b.last) * rate, (now - between) * rate;
    var both := (now - b.last) * rate;
    assert both == early + late by { SplitTimes(b.last, between, now, rate); }
    assert early >= 0.0 by { EarnedNotNegative(b.last, between, rate); }
    assert late >= 0.0 by { EarnedNotNegative(between, now, rate); }
    RefreshedIs(b, between, rate, early);
    RefreshedIs(Bucket(Filled(b.tokens + early, rate), between), now, rate, late);
    RefreshedIs(b, now, rate, both);
    FilledTwice(b.tokens, early, late, rate);
  }

  lemma ChargedOK(t: Table, ip: Address, before: real, now: real, rate: real)
    requires rate >= 1.0 && TableOK(t, before, rate) && before <= now
    ensures TableOK(Charged(t, ip, now, rate), now, rate)
  {
    if ip in t {
      RefreshedOK(t[ip], now, rate);
    }
    forall other | other in Charged(t, ip, now, rate)
      ensures BucketOK(Charged(t, ip, now, rate)[other], now, rate)
    {
      assert other != ip ==> BucketOK(t[other], before, rate);
    }
  }

  /** Right after a sweep every bucket left was used less than one second ago. */
  lemma SweptIsRecent(t: Table, now: real, rate: real, ip: Address)
    requires rate >= 1.0 && TableOK(t, now, rate) && ip in Swept(t, now, rate)
    ensures now - Swept(t, now, rate)[ip].last < 1.0
  {
    assert BucketOK(t[ip], now, rate);
    if now - t[ip].last >= 1.0 {
      TimesMonotone(1.0, now - t[ip].last, rate);
    }
  }

  // ---------------------------------------------------------------- sweeping cannot be observed

  /** What a caller could ever learn of an address: its tokens if asked now. An unknown address is full. */
  function Level(t: Table, ip: Address, now: real, rate: real): real {
    if ip in t then Refreshed(t[ip], now, rate).tokens else rate
  }

  /** The two tables agree on every address, now and at any later time. */
  ghost predicate Alike(a: Table, b: Table, now: real, rate: real) {
    forall ip :: AlikeAt(a, b, ip, now, rate)
  }

  ghost predicate AlikeAt(a: Table, b: Table, ip: Address, now: real, rate: real) {
    if ip in a && ip in b then a[ip] == b[ip]
    else if ip in b then FullAgain(b[ip], now, rate)
    else ip !in a
  }

  /** The bucket would be full if it were refreshed now. */
  predicate FullAgain(b: Bucket, now: real, rate: real) {
    b.tokens + (now - b.last) * rate >= rate
  }

  lemma StaysFull(b: Bucket, now: real, later: real, rate: real)
    requires rate >= 1.0 && FullAgain(b, now, rate) && now <= later && BucketOK(b, now, rate)
    ensures FullAgain(b, later, rate)
    ensures Refreshed(b, later, rate) == Bucket(rate, later)
  {
    var before, earned := (now - b.last) * rate, (later - b.last) * rate;
    assert b.tokens + before >= rate;
    TimesMonotone(now - b.last, later - b.last, rate);
    assert before <= earned;
    RefreshedIs(b, later, rate, earned);
  }

  lemma SweepKeepsAlike(a: Table, b: Table, now: real, rate: real)
    requires rate >= 1.0 && Alike(a, b, now, rate) && TableOK(b, now, rate)
    ensures Alike(Swept(a, now, rate), b, now, rate)
  {
    forall ip
      ensures AlikeAt(Swept(a, now, rate), b, ip, now, rate)
    {
      assert AlikeAt(a, b, ip, now, rate);
    }
  }

  lemma LaterKeepsAlike(a: Table, b: Table, now: real, later: real, rate: real)
    requires rate >= 1.0 && Alike(a, b, now, rate) && TableOK(b, now, rate) && now <= later
    ensures Alike(a, b, later, rate)
  {
    forall ip
      ensures AlikeAt(a, b, ip, later, rate)
    {
      assert AlikeAt(a, b, ip, now, rate);
      if ip in b && ip !in a {
        assert BucketOK(b[ip], now, rate);
        StaysFull(b[ip], now, later, rate);
      }
    }
  }

  lemma CallKeepsAlike(a: Table, b: Table, ip: Address, now: real, rate: real)
    requires rate >= 1.0 && Alike(a, b, now, rate) && TableOK(b, now, rate)
    ensures Answer(a, ip, now, rate) == Answer(b, ip, now, rate)
    ensures Alike(Charged(a, ip, now, rate), Charged(b, ip, now, rate), now, rate)
  {
    assert AlikeAt(a, b, ip, now, rate);
    if ip in b && ip !in a {
      assert BucketOK(b[ip], now, rate);
      StaysFull(b[ip], now, now, rate);
    }
    var a', b' := Charged(a, ip, now, rate), Charged(b, ip, now, rate);
    assert a'[ip] == b'[ip];
    forall other
      ensures AlikeAt(a', b', other, now, rate)
    {
      assert AlikeAt(a, b, other, now, rate);
    }
  }

  lemma {:induction false} AlikeTablesAnswerAlike(a: Table, b: Table, now: real, events: seq<Event>, rate: real, limit: Option<nat>)
    requires rate >= 1.0 && Alike(a, b, now, rate) && TableOK(b, now, rate)
    requires InOrder(events) && NotBefore(events, now)
    ensures Answers(a, events, rate, limit) == Answers(b, events, rate, None)
    decreases |events|
  {
    if events != [] {
      var Event(ip, later) := events[0];
      LaterKeepsAlike(a, b, now, later, rate);
      assert TableOK(b, later, rate) by {
        forall x | x in b
          ensures BucketOK(b[x], later, rate)
        {
          assert BucketOK(b[x], now, rate);
        }
      }
      SweepKeepsAlike(a, b, later, rate);
      var p := Prepared(a, later, rate, limit);
      CallKeepsAlike(p, b, ip, later, rate);
      ChargedOK(b, ip, later, later, rate);
      AlikeTablesAnswerAlike(Charged(p, ip, later, rate), Charged(b, ip, later, rate), later, events[1..], rate, limit);
    }
  }

  /** For every run of calls the limiter that sweeps gives the same answers as one that never does. */
  lemma SweepingIsUnobservable(events: seq<Event>, rate: real, limit: nat)
    requires rate >= 1.0 && InOrder(events)
    ensures Answers(map[], events, rate, Some(limit)) == Answers(map[], events, rate, None)
  {
    if events != [] {
      AlikeTablesAnswerAlike(map[], map[], events[0].now, events, rate, Some(limit));
    }
  }

  // ---------------------------------------------------------------- how much an address is allowed

  /** How many packets of ip are allowed. */
  function Allowed(events: seq<Event>, answers: seq<bool>, ip: Address): nat
    requires |events| == |answers|
  {
    if events == [] then 0
    else (if events[0].ip == ip && answers[0] then 1 else 0) + Allowed(events[1..], answers[1..], ip)
  }

  /** Tokens come back no faster than the rate. */
  lemma LevelGrowth(t: Table, ip: Address, before: real, now: real, rate: real)
    requires rate >= 1.0 && TableOK(t, before, rate) && before <= now
    ensures 0.0 <= Level(t, ip, now, rate) <= rate
    ensures Level(t, ip, now, rate) <= Level(t, ip, before, rate) + (now - before) * rate
  {
    if ip in t {
      assert BucketOK(t[ip], before, rate);
      TokensGrow(t[ip], before, now, rate);
    } else {
      EarnedNotNegative(before, now, rate);
    }
  }

  lemma TokensGrow(b: Bucket, before: real, now: real, rate: real)
    requires rate >= 1.0 && BucketOK(b, before, rate) && before <= now
    ensures 0.0 <= Refreshed(b, now, rate).tokens <= rate
    ensures Refreshed(b, now, rate).tokens <= Refreshed(b, before, rate).tokens + (now - before) * rate
  {
    var early, late := (before - b.last) * rate, (now - before) * rate;
    var both := (now - b.last) * rate;
    assert both == early + late by { SplitTimes(b.last, before, now, rate); }
    assert early >= 0.0 by { EarnedNotNegative(b.last, before, rate); }
    assert late >= 0.0 by { EarnedNotNegative(before, now, rate); }
    RefreshedIs(b, before, rate, early);
    RefreshedIs(b, now, rate, both);
    FilledGrows(b.tokens, early, late, rate);
  }

  lemma FilledGrows(tokens: real, early: real, late: real, rate: real)
    requires 0.0 <= tokens && early >= 0.0 && late >= 0.0 && rate >= 0.0
    ensures 0.0 <= Filled(tokens + (early + late), rate) <= Filled(tokens + early, rate) + late
    ensures Filled(tokens + (early + late), rate) <= rate
  {
  }

  /** An allowed packet costs its address one token; nothing else costs anything. */
  lemma CallCost(t: Table, caller: Address, ip: Address, now: real, rate: real)
    requires rate >= 1.0 && TableOK(t, now, rate)
    ensures Level(Charged(t, caller, now, rate), ip, now, rate) ==
            Level(t, ip, now, rate) - (if caller == ip && Answer(t, caller, now, rate) then 1.0 else 0.0)
  {
    if caller in t {
      RefreshedOK(t[caller], now, rate);
    }
  }

  lemma {:induction false} AllowedWithinBudget(t: Table, from: real, events: seq<Event>, to: real, rate: real, ip: Address)
    requires rate >= 1.0 && TableOK(t, from, rate) && InOrder(events) && NotBefore(events, from) && from <= to
    requires NotAfter(events, to)
    ensures Allowed(events, Answers(t, events, rate, None), ip) as real <= Level(t, ip, from, rate) + (to - from) * rate
    decreases |events|
  {
    LevelGrowth(t, ip, from, to, rate);
    if events != [] {
      var Event(caller, now) := events[0];
      LevelGrowth(t, ip, from, now, rate);
      assert TableOK(t, now, rate) by {
        forall x | x in t
          ensures BucketOK(t[x], now, rate)
        {
          assert BucketOK(t[x], from, rate);
        }
      }
      CallCost(t, caller, ip, now, rate);
      ChargedOK(t, caller, now, now, rate);
      AllowedWithinBudget(Charged(t, caller, now, rate), now, events[1..], to, rate, ip);
      SplitTimes(from, now, to, rate);
      var answers := Answers(t, events, rate, None);
      assert answers[1..] == Answers(Charged(t, caller, now, rate), events[1..], rate, None);
    }
  }

  lemma {:induction false} TableAfterOK(t: Table, now: real, events: seq<Event>, rate: real, later: real)
    requires rate >= 1.0 && TableOK(t, now, rate) && InOrder(events) && NotBefore(events, now) && now <= later
    requires NotAfter(events, later)
    ensures TableOK(TableAfter(t, events, rate, None), later, rate)
    decreases |events|
  {
    if events == [] {
      forall x | x in t
        ensures BucketOK(t[x], later, rate)
      {
        assert BucketOK(t[x], now, rate);
      }
    } else {
      ChargedOK(t, events[0].ip, now, events[0].now, rate);
      TableAfterOK(Charged(t, events[0].ip, events[0].now, rate), events[0].now, events[1..], rate, later);
    }
  }

  lemma {:induction false} AnswersSplit(t: Table, events: seq<Event>, i: nat, rate: real)
    requires i <= |events|
    ensures Answers(t, events, rate, None)[i..] == Answers(TableAfter(t, events[..i], rate, None), events[i..], rate, None)
    decreases |events|
  {
    if i > 0 {
      AnswersSplit(Charged(t, events[0].ip, events[0].now, rate), events[1..], i - 1, rate);
      assert events[..i][1..] == events[1..][..i - 1];
      assert events[1..][i - 1..] == events[i..];
    } else {
      assert events[..0] == [] && events[0..] == events;
    }
  }

  lemma {:induction false} AnswersPrefix(t: Table, events: seq<Event>, j: nat, rate: real)
    requires j <= |events|
    ensures Answers(t, events, rate, None)[..j] == Answers(t, events[..j], rate, None)
    decreases |events|
  {
    if j > 0 {
      AnswersPrefix(Charged(t, events[0].ip, events[0].now, rate), events[1..], j - 1, rate);
      assert events[..j][1..] == events[1..][..j - 1];
    }
  }

  /** The answers inside a window are those of a run from the table at its start. */
  lemma WindowAnswers(events: seq<Event>, rate: real, i: nat, j: nat)
    requires i <= j <= |events|
    ensures Answers(map[], events, rate, None)[i..j] ==
            Answers(TableAfter(map[], events[..i], rate, None), events[i..j], rate, None)
  {
    var answers := Answers(map[], events, rate, None);
    var t := TableAfter(map[], events[..i], rate, None);
    AnswersSplit(map[], events, i, rate);
    AnswersPrefix(t, events[i..], j - i, rate);
    assert events[i..][..j - i] == events[i..j];
    assert answers[i..][..j - i] == answers[i..j];
  }

  /** What one address may send from one time to another: a full bucket, and the rate for every second between. */
  function MaxPackets(rate: real, from: real, to: real): real {
    rate * (1.0 + (to - from))
  }

  lemma Budget(tokens: real, rate: real, from: real, to: real)
    requires tokens <= rate
    ensures tokens + (to - from) * rate <= MaxPackets(rate, from, to)
  {
  }

  /**
   In every window of every run, sweeping or not, one address is allowed at most rate * (1 + T) packets,
   T being the time between the window's first and last call.
   */
  lemma WindowBound(events: seq<Event>, rate: real, limit: nat, i: nat, j: nat, ip: Address)
    requires rate >= 1.0 && InOrder(events) && i < j <= |events|
    ensures var answers := Answers(map[], events, rate, Some(limit));
            Allowed(events[i..j], answers[i..j], ip) as real <= MaxPackets(rate, events[i].now, events[j - 1].now)
  {
    WindowPart(events, rate, limit, i, j);
    WindowOfRun(events, rate, i, j, ip, TableAfter(map[], events[..i], rate, None),
                events[i..j], Answers(map[], events, rate, Some(limit))[i..j]);
  }

  lemma WindowPart(events: seq<Event>, rate: real, limit: nat, i: nat, j: nat)
    requires rate >= 1.0 && InOrder(events) && i <= j <= |events|
    ensures Answers(map[], events, rate, Some(limit))[i..j] ==
            Answers(TableAfter(map[], events[..i], rate, None), events[i..j], rate, None)
  {
    SweepingIsUnobservable(events, rate, limit);
    WindowAnswers(events, rate, i, j);
  }

  lemma WindowOfRun(events: seq<Event>, rate: real, i: nat, j: nat, ip: Address,
                    t: Table, window: seq<Event>, part: seq<bool>)
    requires rate >= 1.0 && InOrder(events) && i < j <= |events|
    requires window == events[i..j] && t == TableAfter(map[], events[..i], rate, None)
    requires part == Answers(t, window, rate, None)
    ensures Allowed(window, part, ip) as real <= MaxPackets(rate, events[i].now, events[j - 1].now)
  {
    var from, to := events[i].now, events[j - 1].now;
    WindowTableOK(events, rate, i);
    WindowInOrder(events, i, j);
    WindowFrom(t, window, from, to, rate, ip);
  }

  lemma WindowTableOK(events: seq<Event>, rate: real, i: nat)
    requires rate >= 1.0 && InOrder(events) && i < |events|
    ensures TableOK(TableAfter(map[], events[..i], rate, None), events[i].now, rate)
  {
    SuffixInOrder(events, i);
    PrefixInOrder(events, i);
    assert NotBefore(events, events[0].now);
    TableAfterOK(map[], events[0].now, events[..i], rate, events[i].now);
  }

  lemma WindowInOrder(events: seq<Event>, i: nat, j: nat)
    requires InOrder(events) && i < j <= |events|
    ensures InOrder(events[i..j]) && NotBefore(events[i..j], events[i].now) && NotAfter(events[i..j], events[j - 1].now)
    ensures events[i].now <= events[j - 1].now
  {
    WindowOrdered(events, i, j);
    assert NotBefore(events[i..], events[i].now) by { SuffixInOrder(events, i); }
    WindowNotBefore(events, i, j);
    WindowNotAfter(events, i, j);
  }

  lemma WindowOrdered(events: seq<Event>, i: nat, j: nat)
    requires InOrder(events) && i <= j <= |events|
    ensures InOrder(events[i..j])
  {
    var suffix := events[i..];
    assert InOrder(suffix) by { SuffixInOrder(events, i); }
    PrefixInOrder(suffix, j - i);
    assert suffix[..j - i] == events[i..j];
  }

  lemma WindowNotBefore(events: seq<Event>, i: nat, j: nat)
    requires i < j <= |events| && NotBefore(events[i..], events[i].now)
    ensures NotBefore(events[i..j], events[i].now)
  {
    forall k | 0 <= k < j - i
      ensures events[i].now <= events[i..j][k].now
    {
      assert events[i..j][k] == events[i..][k];
    }
  }

  lemma WindowNotAfter(events: seq<Event>, i: nat, j: nat)
    requires InOrder(events) && i < j <= |events|
    ensures NotAfter(events[i..j], events[j - 1].now) && events[i].now <= events[j - 1].now
  {
    SuffixInOrder(events, j - 1);
    var to := events[j - 1].now;
    forall k | i <= k < j
      ensures events[k].now <= to
    {
      assert k < j - 1 ==> events[..j - 1][k] == events[k];
    }
  }

  lemma WindowFrom(t: Table, window: seq<Event>, from: real, to: real, rate: real, ip: Address)
    requires rate >= 1.0 && TableOK(t, from, rate) && InOrder(window) && NotBefore(window, from) && from <= to
    requires NotAfter(window, to)
    ensures Allowed(window, Answers(t, window, rate, None), ip) as real <= MaxPackets(rate, from, to)
  {
    AllowedWithinBudget(t, from, window, to, rate, ip);
    LevelGrowth(t, ip, from, from, rate);
    Budget(Level(t, ip, from, rate), rate, from, to);
  }

  /** At least 1/rate apart. */
  predicate FarApart(before: real, after: real, rate: real) {
    (after - before) * rate >= 1.0
  }

  /** Any two packets of ip are at least 1/rate apart. */
  predicate SpacedOut(events: seq<Event>, ip: Address, rate: real) {
    forall i, j :: 0 <= i < j < |events| && events[i].ip == ip && events[j].ip == ip ==>
      FarApart(events[i].now, events[j].now, rate)
  }

  /** The next packet of ip comes at least 1/rate after its bucket was last used. */
  predicate WaitedFor(t: Table, events: seq<Event>, ip: Address, rate: real) {
    ip in t ==> forall i :: 0 <= i < |events| && events[i].ip == ip ==> FarApart(t[ip].last, events[i].now, rate)
  }

  lemma {:induction false} SpacedNeverRefused(t: Table, now: real, events: seq<Event>, rate: real, ip: Address, k: nat)
    requires rate >= 1.0 && TableOK(t, now, rate) && InOrder(events) && NotBefore(events, now)
    requires SpacedOut(events, ip, rate) && WaitedFor(t, events, ip, rate)
    requires k < |events| && events[k].ip == ip
    ensures Answers(t, events, rate, None)[k]
    decreases |events|
  {
    var Event(caller, later) := events[0];
    if caller == ip {
      WaitedIsAllowed(t, ip, now, later, rate);
    }
    if k > 0 {
      ChargedOK(t, caller, now, later, rate);
      WaitedNext(t, now, events, rate, ip);
      SpacedNeverRefused(Charged(t, caller, later, rate), later, events[1..], rate, ip, k - 1);
    }
  }

  /** A packet that comes late enough finds a token and leaves its bucket used just now. */
  lemma WaitedIsAllowed(t: Table, ip: Address, before: real, now: real, rate: real)
    requires rate >= 1.0 && TableOK(t, before, rate) && before <= now
    requires ip in t ==> FarApart(t[ip].last, now, rate)
    ensures Answer(t, ip, now, rate) && Charged(t, ip, now, rate)[ip].last == now
  {
    if ip in t {
      assert BucketOK(t[ip], before, rate);
      RefreshedOK(t[ip], now, rate);
      FarIsLater(t[ip].last, now, rate);
    }
  }

  lemma FarIsLater(before: real, after: real, rate: real)
    requires rate >= 1.0 && FarApart(before, after, rate)
    ensures before < after
  {
    if after - before <= 0.0 {
      TimesMonotone(after - before, 0.0, rate);
    }
  }

  lemma WaitedNext(t: Table, now: real, events: seq<Event>, rate: real, ip: Address)
    requires rate >= 1.0 && TableOK(t, now, rate) && events != [] && NotBefore(events, now)
    requires SpacedOut(events, ip, rate) && WaitedFor(t, events, ip, rate)
    ensures SpacedOut(events[1..], ip, rate)
    ensures WaitedFor(Charged(t, events[0].ip, events[0].now, rate), events[1..], ip, rate)
  {
    var Event(caller, later) := events[0];
    var t' := Charged(t, caller, later, rate);
    if caller == ip {
      WaitedIsAllowed(t, ip, now, later, rate);
      assert forall i :: 0 <= i < |events[1..]| ==> events[1..][i] == events[i + 1];
    } else {
      assert ip in t' ==> t'[ip] == t[ip];
    }
  }

  /** In every run, sweeping or not, an address whose packets are at least 1/rate apart is never refused. */
  lemma SpacedIsNeverRefused(events: seq<Event>, rate: real, limit: nat, ip: Address, k: nat)
    requires rate >= 1.0 && InOrder(events) && SpacedOut(events, ip, rate)
    requires k < |events| && events[k].ip == ip
    ensures Answers(map[], events, rate, Some(limit))[k]
  {
    SweepingIsUnobservable(events, rate, limit);
    SpacedNeverRefused(map[], events[0].now, events, rate, ip, k);
  }

  // ---------------------------------------------------------------- the size of the table

  /** Every bucket was used less than one second ago. */
  predicate AllRecent(t: Table, now: real) {
    forall ip :: ip in t ==> now - t[ip].last < 1.0
  }

  /**
   Exactly when one packet leaves the table above the limit: it had reached the limit, and the buckets the
   sweep could not drop, with that of the packet's address, are more than the limit. Above the limit,
   every bucket was used less than one second ago.
   */
  lemma GrowsPastLimitIff(t: Table, ip: Address, now: real, rate: real, limit: nat)
    requires rate >= 1.0 && TableOK(t, now, rate)
    ensures var after := Charged(Prepared(t, now, rate, Some(limit)), ip, now, rate);
            && (|after| > limit <==> |t| >= limit && |Swept(t, now, rate).Keys + {ip}| > limit)
            && (|after| <= limit || AllRecent(after, now))
  {
    var swept := Swept(t, now, rate);
    assert Charged(swept, ip, now, rate).Keys == swept.Keys + {ip};
    assert Charged(t, ip, now, rate).Keys == t.Keys + {ip};
    if |t| >= limit {
      ChargedStaysRecent(t, ip, now, rate);
    } else {
      SubsetSize(t.Keys, t.Keys + {ip});
      assert |t.Keys + {ip}| <= |t.Keys| + 1;
    }
  }

  lemma ChargedStaysRecent(t: Table, ip: Address, now: real, rate: real)
    requires rate >= 1.0 && TableOK(t, now, rate)
    ensures AllRecent(Charged(Swept(t, now, rate), ip, now, rate), now)
  {
    var swept := Swept(t, now, rate);
    var after := Charged(swept, ip, now, rate);
    forall other | other in after
      ensures now - after[other].last < 1.0
    {
      if other in swept {
        SweptIsRecent(t, now, rate, other);
        assert BucketOK(t[other], now, rate);
      }
    }
  }

  /** Over every run: the table is within its limit, or all its buckets were used less than one second before the last packet. */
  lemma {:induction false} TableBounded(t: Table, now: real, events: seq<Event>, rate: real, limit: nat)
    requires rate >= 1.0 && TableOK(t, now, rate) && InOrder(events) && NotBefore(events, now) && events != []
    ensures var after := TableAfter(t, events, rate, Some(limit));
            |after| <= limit || AllRecent(after, events[|events| - 1].now)
    decreases |events|
  {
    var Event(ip, later) := events[0];
    assert TableOK(t, later, rate) by {
      forall x | x in t
        ensures BucketOK(t[x], later, rate)
      {
        assert BucketOK(t[x], now, rate);
      }
    }
    GrowsPastLimitIff(t, ip, later, rate, limit);
    var p := Prepared(t, later, rate, Some(limit));
    ChargedOK(p, ip, later, later, rate);
    if |events| == 1 {
      assert events[1..] == [];
    } else {
      TableBounded(Charged(p, ip, later, rate), later, events[1..], rate, limit);
    }
  }

  /** A flood: packets from different addresses, all at one time. */
  predicate Flood(events: seq<Event>, now: real) {
    && (forall i :: 0 <= i < |events| ==> events[i].now == now)
    && (forall i, j :: 0 <= i < j < |events| ==> events[i].ip != events[j].ip)
  }

  /** Every bucket has just been opened. */
  predicate JustOpened(t: Table, now: real, rate: real) {
    forall ip :: ip in t ==> t[ip] == Bucket(rate - 1.0, now)
  }

  lemma SweepKeepsJustOpened(t: Table, now: real, rate: real)
    requires JustOpened(t, now, rate)
    ensures Swept(t, now, rate) == t
  {
    forall ip | ip in t
      ensures t[ip].tokens + (now - t[ip].last) * rate < rate
    {
      ZeroTimes(now - t[ip].last, rate);
    }
  }

  lemma {:induction false} FloodGrows(t: Table, events: seq<Event>, now: real, rate: real, limit: nat)
    requires JustOpened(t, now, rate) && Flood(events, now)
    requires forall i :: 0 <= i < |events| ==> events[i].ip !in t
    ensures |TableAfter(t, events, rate, Some(limit))| == |t| + |events|
    decreases |events|
  {
    if events != [] {
      SweepKeepsJustOpened(t, now, rate);
      var next := t[events[0].ip := Bucket(rate - 1.0, now)];
      assert Charged(Prepared(t, now, rate, Some(limit)), events[0].ip, now, rate) == next;
      assert next.Keys == t.Keys + {events[0].ip};
      FloodGrows(next, events[1..], now, rate, limit);
    }
  }

  /** Whatever the limit, a flood leaves as many buckets as it had packets: nothing bounds the table. */
  lemma FloodPassesLimit(events: seq<Event>, now: real, rate: real, limit: nat)
    requires Flood(events, now)
    ensures |TableAfter(map[], events, rate, Some(limit))| == |events|
  {
    FloodGrows(map[], events, now, rate, limit);
  }

  /** There is such a flood of every size up to the number of four-byte addresses. */
  lemma FloodOfSize(n: nat, now: real) returns (events: seq<Event>)
    requires n <= Pow256(4)
    ensures Flood(events, now) && |events| == n
  {
    events := seq(n, i requires 0 <= i < n => Event(WriteLE(i, 4), now));
    forall i, j | 0 <= i < j < n
      ensures events[i].ip != events[j].ip
    {
      ReadWriteLE(i, 4);
      ReadWriteLE(j, 4);
    }
  }

  // ---------------------------------------------------------------- the limiter object

  class Limiter {
    const rate: real
    var seen: Table

    constructor (packetsPerSecond: int)
      ensures rate == (if packetsPerSecond <= 0 then 20 else packetsPerSecond) as real
      ensures rate >= 1.0 && seen == map[]
    {
      var perSecond := packetsPerSecond;
      if perSecond <= 0 {
        perSecond := 20;
      }
      rate := perSecond as real;
      seen := map[];
    }

    /** One token for a packet from ip at the time now, if there is one. */
    method Allow(ip: Address, now: real) returns (ok: bool)
      modifies this`seen
      ensures ok == Answer(Prepared(old(seen), now, rate, Some(65536)), ip, now, rate)
      ensures seen == Charged(Prepared(old(seen), now, rate, Some(65536)), ip, now, rate)
      ensures rate >= 1.0 && old(TableOK(seen, now, rate)) ==>
                TableOK(seen, now, rate) && (|seen| <= 65536 || AllRecent(seen, now))
    {
      ghost var wasOK := rate >= 1.0 && TableOK(seen, now, rate);
      if wasOK {
        GrowsPastLimitIff(seen, ip, now, rate, MAX_ENTRIES);
      }
      if |seen| >= MAX_ENTRIES {
        SweepLocked(now);
      }
      if wasOK {
        ChargedOK(seen, ip, now, now, rate);
      }
      ok := Charge(ip, now);
    }

    /** The part of Allow after the sweep. */
    method Charge(ip: Address, now: real) returns (ok: bool)
      modifies this`seen
      ensures ok == Answer(old(seen), ip, now, rate)
      ensures seen == Charged(old(seen), ip, now, rate)
    {
      if ip !in seen {
        seen := seen[ip := Bucket(rate - 1.0, now)];
        return true;
      }
      var bucket := Refresh(seen[ip], now);
      if bucket.tokens < 1.0 {
        seen := seen[ip := bucket];
        return false;
      }
      seen := seen[ip := bucket.(tokens := bucket.tokens - 1.0)];
      return true;
    }

    method Refresh(b: Bucket, now: real) returns (bucket: Bucket)
      ensures bucket == Refreshed(b, now, rate)
    {
      bucket := b;
      var elapsed := now - bucket.last;
      if elapsed > 0.0 {
        bucket := bucket.(tokens := bucket.tokens + elapsed * rate);
        if bucket.tokens > rate {
          bucket := bucket.(tokens := rate);
        }
        bucket := bucket.(last := now);
      }
    }

    method SweepLocked(now: real)
      modifies this`seen
      ensures seen == Swept(old(seen), now, rate)
      ensures rate >= 1.0 && old(TableOK(seen, now, rate)) ==>
                TableOK(seen, now, rate) && AllRecent(seen, now)
    {
      var remaining := seen.Keys;
      while remaining != {}
        invariant remaining <= old(seen).Keys
        invariant seen == map ip | ip in old(seen) && (ip in remaining || ip in Swept(old(seen), now, rate)) :: old(seen)[ip]
        decreases |remaining|
      {
        var ip := AnyOf(remaining);
        var refilled := seen[ip].tokens + (now - seen[ip].last) * rate;
        if refilled >= rate {
          seen := seen - {ip};
        }
        remaining := remaining - {ip};
      }
      assert seen == Swept(old(seen), now, rate);
      if rate >= 1.0 && TableOK(old(seen), now, rate) {
        forall ip | ip in seen
          ensures now - seen[ip].last < 1.0
        {
          SweptIsRecent(old(seen), now, rate, ip);
        }
      }
    }
  }
}
