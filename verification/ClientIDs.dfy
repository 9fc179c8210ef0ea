/** Choosing an ID for a client: its own address if that is free, else the next free number. */
module ClientIDs {
  import opened Basics
  import opened SharedIndex

  const TWO_31: int := 0x8000_0000
  const TWO_32: int := 0x1_0000_0000

  const FIRST_ID: int := 16777217

  /** The 32-bit signed value of n. */
  function Wrap32(n: int): (r: int)
    ensures -TWO_31 <= r < TWO_31
    ensures -TWO_31 <= n < TWO_31 ==> r == n
    ensures (r - n) % TWO_32 == 0
  {
    (n + TWO_31) % TWO_32 - TWO_31
  }

  /** The first of from, from+1, ... (wrapping around) that is not in use. */
  function FirstFree(used: set<ClientID>, from: ClientID): ClientID
    decreases |used|
  {
    if from !in used then from else FirstFree(used - {from}, Wrap32(from + 1))
  }

  datatype Allocation = Allocation(id: ClientID, nextID: ClientID)

  /** The chosen ID and the next number to try. preferred is the client's address as an ID, zero if it has none. */
  function Allocate(used: set<ClientID>, nextID: ClientID, preferred: ClientID): Allocation {
    if preferred != 0 && preferred !in used then Allocation(preferred, nextID)
    else
      var id := FirstFree(used, nextID);
      Allocation(id, Wrap32(id + 1))
  }

  predicate UsesFallback(used: set<ClientID>, preferred: ClientID) {
    preferred == 0 || preferred in used
  }

  /** The candidate tried after i others, counting from `from`. */
  function Candidate(from: ClientID, i: nat): ClientID {
    Wrap32(from + i)
  }

  lemma CandidatesDistinct(from: ClientID, i: nat, j: nat)
    requires i < j < TWO_32
    ensures Candidate(from, i) != Candidate(from, j)
  {
    var a, b := from + i + TWO_31, from + j + TWO_31;
    var k := b / TWO_32 - a / TWO_32;
    assert Candidate(from, j) - Candidate(from, i) == b - a - TWO_32 * k;
    assert k == 0 || k == 1;
  }

  lemma CandidateNext(from: ClientID, i: nat)
    ensures Wrap32(Candidate(from, i) + 1) == Candidate(from, i + 1)
  {
  }

  /** The first n candidates. */
  function Tried(from: ClientID, n: nat): set<ClientID> {
    set i: nat | i < n :: Candidate(from, i)
  }

  lemma TriedOneMore(from: ClientID, n: nat)
    requires n < TWO_32
    ensures Candidate(from, n) !in Tried(from, n)
    ensures Tried(from, n + 1) == Tried(from, n) + {Candidate(from, n)}
  {
    if i: nat :| i < n && Candidate(from, i) == Candidate(from, n) {
      CandidatesDistinct(from, i, n);
    }
  }

  lemma {:induction false} TriedSize(from: ClientID, n: nat)
    requires n <= TWO_32
    ensures |Tried(from, n)| == n
  {
    if n > 0 {
      TriedSize(from, n - 1);
      TriedOneMore(from, n - 1);
    } else {
      assert Tried(from, 0) == {};
    }
  }

  /**
   The search stops within |used|+1 candidates: there is an n no larger than |used| such that the first
   n candidates are all in use and the next one is free; that one is the result.
   */
  lemma {:induction false} FirstFreeFrom(used: set<ClientID>, from: ClientID, n: nat) returns (m: nat)
    requires |used| < TWO_32 && n <= |used| && Tried(from, n) <= used
    ensures n <= m <= |used| && Tried(from, m) <= used
    ensures Candidate(from, m) !in used
    ensures FirstFree(used - Tried(from, n), Candidate(from, n)) == Candidate(from, m)
    decreases |used| - n
  {
    TriedOneMore(from, n);
    if Candidate(from, n) !in used {
      m := n;
    } else {
      TriedSize(from, n + 1);
      SubsetSize(Tried(from, n + 1), used);
      m := FirstFreeFrom(used, from, n + 1);
      CandidateNext(from, n);
      assert used - Tried(from, n) - {Candidate(from, n)} == used - Tried(from, n + 1);
    }
  }

  lemma FirstFreeFound(used: set<ClientID>, from: ClientID) returns (m: nat)
    requires -TWO_31 <= from < TWO_31 && |used| < TWO_32
    ensures m <= |used| && Tried(from, m) <= used && Candidate(from, m) !in used
    ensures FirstFree(used, from) == Candidate(from, m)
  {
    assert Tried(from, 0) == {};
    m := FirstFreeFrom(used, from, 0);
    assert used - Tried(from, 0) == used;
  }

  /** As long as the numbers do not run out, the fallback ID is new, at least nextID, and below every later fallback. */
  lemma AllocateFresh(used: set<ClientID>, nextID: ClientID, preferred: ClientID)
    requires -TWO_31 <= nextID && nextID + |used| < TWO_31 - 1
    ensures var a := Allocate(used, nextID, preferred);
            && a.id !in used
            && nextID <= a.nextID <= nextID + |used| + 1
            && (UsesFallback(used, preferred) ==> nextID <= a.id < a.nextID)
            && (nextID > 0 ==> a.id != 0)
  {
    var m := FirstFreeFound(used, nextID);
  }

  /**
   A client's address is its ID if it is not zero and free, and then the next number stays. Otherwise the ID is the
   first free one of nextID, nextID + 1, ... in 32 bits, and the next number is the one after it.
   */
  lemma AllocateMeans(used: set<ClientID>, nextID: ClientID, preferred: ClientID) returns (m: nat)
    requires -TWO_31 <= nextID < TWO_31 && |used| < TWO_32
    ensures var a := Allocate(used, nextID, preferred);
            if preferred != 0 && preferred !in used then a.id == preferred && a.nextID == nextID
            else
              && a.id == Candidate(nextID, m) && a.id !in used
              && (forall k: nat :: k < m ==> Candidate(nextID, k) in used)
              && a.nextID == Candidate(nextID, m + 1)
  {
    m := FirstFreeFound(used, nextID);
    CandidateNext(nextID, m);
    forall k: nat | k < m
      ensures Candidate(nextID, k) in used
    {
      assert Candidate(nextID, k) in Tried(nextID, m);
    }
  }

  /** The chosen ID is never in use, even when the numbers wrap around. */
  lemma AllocateNeverInUse(used: set<ClientID>, nextID: ClientID, preferred: ClientID)
    requires -TWO_31 <= nextID < TWO_31 && |used| < TWO_32
    ensures Allocate(used, nextID, preferred).id !in used
  {
    var m := FirstFreeFound(used, nextID);
  }

  /** How many candidates come before zero when counting up from a number. */
  function BeforeZero(from: ClientID): nat {
    (-from) % TWO_32
  }

  /**
   Exactly when the ID handed out is zero, the value that means not logged in: the client's address does not
   serve, zero is free, and every number from nextID up to zero, wrapping around, is in use.
   */
  lemma ZeroIDIff(used: set<ClientID>, nextID: ClientID, preferred: ClientID)
    requires -TWO_31 <= nextID < TWO_31 && |used| < TWO_32
    ensures Allocate(used, nextID, preferred).id == 0 <==>
            UsesFallback(used, preferred) && 0 !in used && Tried(nextID, BeforeZero(nextID)) <= used
  {
    var n := BeforeZero(nextID);
    var m := FirstFreeFound(used, nextID);
    assert Candidate(nextID, n) == 0;
    if m < n {
      CandidatesDistinct(nextID, m, n);
      assert Candidate(nextID, m) in Tried(nextID, n);
    } else if n < m {
      CandidatesDistinct(nextID, n, m);
      assert Candidate(nextID, n) in Tried(nextID, m);
    }
  }
}
