/** The greedy packer that puts whole reply blocks into datagrams of bounded size. */
module Datagrams {
  import opened Basics

  const DEFAULT_MAX: int := 1300

  /** The parts one after the other: blocks make a payload, groups of blocks make the list of blocks. */
  function Concat<T>(parts: seq<seq<T>>): seq<T> {
    if parts == [] then [] else Concat(parts[..|parts| - 1]) + parts[|parts| - 1]
  }

  /** The datagrams that carry the groups. */
  function Payloads(groups: seq<seq<Bytes>>): (d: seq<Bytes>)
    ensures |d| == |groups| && forall i :: 0 <= i < |groups| ==> d[i] == Concat(groups[i])
  {
    seq(|groups|, i requires 0 <= i < |groups| => Concat(groups[i]))
  }

  /** The groups already sent and the one still open. */
  datatype Groups = Groups(sent: seq<seq<Bytes>>, open: seq<Bytes>)

  function Flushed(g: Groups): Groups {
    if Concat(g.open) == [] then g else Groups(g.sent + [g.open], [])
  }

  function WithBlock(g: Groups, block: Bytes, max: int): Groups {
    var h := if |Concat(g.open)| > 0 && |Concat(g.open)| + |block| > max then Flushed(g) else g;
    Groups(h.sent, h.open + [block])
  }

  function Grouped(blocks: seq<Bytes>, max: int): Groups {
    if blocks == [] then Groups([], []) else WithBlock(Grouped(blocks[..|blocks| - 1], max), blocks[|blocks| - 1], max)
  }

  /** The groups after all blocks and a final flush. */
  function Packing(blocks: seq<Bytes>, max: int): seq<seq<Bytes>> {
    Flushed(Grouped(blocks, max)).sent
  }

  /** A datagram may hold this group: it is within the limit, or a single block that alone exceeds it. */
  predicate Fits(group: seq<Bytes>, max: int) {
    |Concat(group)| <= max || |group| == 1
  }

  predicate NoneEmpty(blocks: seq<Bytes>) {
    forall i :: 0 <= i < |blocks| ==> blocks[i] != []
  }

  /** Another way to pack the same blocks: whole, in order, every group fitting. */
  predicate IsPacking(groups: seq<seq<Bytes>>, blocks: seq<Bytes>, max: int) {
    Concat(groups) == blocks && forall i :: 0 <= i < |groups| ==> Fits(groups[i], max)
  }

  lemma ConcatAppend<T>(parts: seq<seq<T>>, part: seq<T>)
    ensures Concat(parts + [part]) == Concat(parts) + part
  {
    assert (parts + [part])[..|parts|] == parts;
  }

  lemma NonEmptyConcat(blocks: seq<Bytes>)
    requires NoneEmpty(blocks)
    ensures Concat(blocks) == [] <==> blocks == []
  {
    if blocks != [] {
      assert blocks[|blocks| - 1] != [];
    }
  }

  /** The groups hold exactly the blocks in order, every group fits, and none of those sent is empty. */
  predicate GroupsOK(g: Groups, blocks: seq<Bytes>, max: int) {
    && Concat(g.sent) + g.open == blocks
    && (forall i :: 0 <= i < |g.sent| ==> g.sent[i] != [] && Fits(g.sent[i], max))
    && (g.open == [] <==> blocks == [])
    && (g.open != [] ==> Fits(g.open, max))
  }

  lemma OpenNonEmpty(g: Groups, blocks: seq<Bytes>, max: int)
    requires NoneEmpty(blocks) && GroupsOK(g, blocks, max)
    ensures Concat(g.open) == [] <==> g.open == []
  {
    assert g.open == blocks[|Concat(g.sent)|..];
    NonEmptyConcat(g.open);
  }

  lemma FlushKeepsOK(g: Groups, blocks: seq<Bytes>, max: int)
    requires NoneEmpty(blocks) && GroupsOK(g, blocks, max)
    ensures Flushed(g).open == [] && Concat(Flushed(g).sent) == blocks
    ensures forall i :: 0 <= i < |Flushed(g).sent| ==> Flushed(g).sent[i] != [] && Fits(Flushed(g).sent[i], max)
  {
    OpenNonEmpty(g, blocks, max);
    ConcatAppend(g.sent, g.open);
  }

  lemma AddKeepsOK(g: Groups, blocks: seq<Bytes>, block: Bytes, max: int)
    requires NoneEmpty(blocks) && GroupsOK(g, blocks, max)
    ensures GroupsOK(WithBlock(g, block, max), blocks + [block], max)
  {
    if |Concat(g.open)| > 0 && |Concat(g.open)| + |block| > max {
      AddAfterFlush(g, blocks, block, max);
    } else {
      AddToOpen(g, blocks, block, max);
    }
  }

  lemma AddAfterFlush(g: Groups, blocks: seq<Bytes>, block: Bytes, max: int)
    requires NoneEmpty(blocks) && GroupsOK(g, blocks, max)
    requires |Concat(g.open)| > 0 && |Concat(g.open)| + |block| > max
    ensures GroupsOK(WithBlock(g, block, max), blocks + [block], max)
  {
    FlushKeepsOK(g, blocks, max);
    assert WithBlock(g, block, max) == Groups(Flushed(g).sent, [] + [block]);
    assert [] + [block] == [block];
  }

  lemma AddToOpen(g: Groups, blocks: seq<Bytes>, block: Bytes, max: int)
    requires NoneEmpty(blocks) && GroupsOK(g, blocks, max)
    requires !(|Concat(g.open)| > 0 && |Concat(g.open)| + |block| > max)
    ensures GroupsOK(WithBlock(g, block, max), blocks + [block], max)
  {
    OpenNonEmpty(g, blocks, max);
    ConcatAppend(g.open, block);
    assert WithBlock(g, block, max) == Groups(g.sent, g.open + [block]);
    Reassociate3(Concat(g.sent), g.open, [block]);
  }

  lemma {:induction false} GroupedOK(blocks: seq<Bytes>, max: int)
    requires NoneEmpty(blocks)
    ensures GroupsOK(Grouped(blocks, max), blocks, max)
  {
    if blocks != [] {
      var front, block := blocks[..|blocks| - 1], blocks[|blocks| - 1];
      GroupedOK(front, max);
      assert blocks == front + [block];
      GroupedStep(front, block, max);
    }
  }

  lemma GroupedStep(front: seq<Bytes>, block: Bytes, max: int)
    requires NoneEmpty(front) && GroupsOK(Grouped(front, max), front, max)
    ensures GroupsOK(Grouped(front + [block], max), front + [block], max)
  {
    var g := Grouped(front, max);
    assert Grouped(front + [block], max) == WithBlock(g, block, max) by {
      assert (front + [block])[..|front|] == front;
    }
    AddKeepsOK(g, front, block, max);
  }

  /** What is sent is an order-preserving packing of the blocks, and no datagram is empty. */
  lemma PackingIsPacking(blocks: seq<Bytes>, max: int)
    requires NoneEmpty(blocks)
    ensures IsPacking(Packing(blocks, max), blocks, max)
    ensures NoneEmpty(Payloads(Packing(blocks, max)))
  {
    GroupedOK(blocks, max);
    FlushKeepsOK(Grouped(blocks, max), blocks, max);
    var p := Packing(blocks, max);
    forall i | 0 <= i < |p|
      ensures Concat(p[i]) != []
    {
      GroupNonEmpty(p, blocks, i);
    }
  }

  lemma {:induction false} GroupNonEmpty(groups: seq<seq<Bytes>>, blocks: seq<Bytes>, i: nat)
    requires NoneEmpty(blocks) && Concat(groups) == blocks && i < |groups| && groups[i] != []
    ensures Concat(groups[i]) != []
    decreases |groups|
  {
    var n := |groups| - 1;
    var front := Concat(groups[..n]);
    assert front == blocks[..|front|] && groups[n] == blocks[|front|..];
    if i < n {
      GroupNonEmpty(groups[..n], front, i);
    } else {
      NonEmptyConcat(groups[n]);
    }
  }

  /** All payload bytes together are the blocks' bytes in order. */
  lemma {:induction false} PayloadBytes(groups: seq<seq<Bytes>>)
    ensures Concat(Payloads(groups)) == Concat(Concat(groups))
  {
    if groups != [] {
      var n := |groups| - 1;
      PayloadBytes(groups[..n]);
      assert Payloads(groups)[..n] == Payloads(groups[..n]);
      ConcatOfSum(Concat(groups[..n]), groups[n]);
    }
  }

  lemma {:induction false} ConcatOfSum(a: seq<Bytes>, b: seq<Bytes>)
    ensures Concat(a + b) == Concat(a) + Concat(b)
    decreases |b|
  {
    if b == [] {
      assert a + b == a;
    } else {
      var n := |b| - 1;
      ConcatOfSum(a, b[..n]);
      assert a + b == (a + b[..n]) + [b[n]];
      ConcatAppend(a + b[..n], b[n]);
      Reassociate3(Concat(a), Concat(b[..n]), b[n]);
    }
  }

  /** The datagrams sent carry the bytes of all the blocks in order, none lost or repeated. */
  lemma PackingKeepsBytes(blocks: seq<Bytes>, max: int)
    requires NoneEmpty(blocks)
    ensures Concat(Payloads(Packing(blocks, max))) == Concat(blocks)
  {
    PackingIsPacking(blocks, max);
    PayloadBytes(Packing(blocks, max));
  }

  // ---------------------------------------------------------------- no packing uses fewer datagrams

  function Count(g: Groups): nat {
    |g.sent| + (if g.open == [] then 0 else 1)
  }

  /** Fewer groups than p, or as many with no more in the last one. */
  predicate Ahead(g: Groups, p: seq<seq<Bytes>>) {
    Count(g) < |p| || (Count(g) == |p| && (p == [] || |Concat(g.open)| <= |Concat(p[|p| - 1])|))
  }

  /** One more block on both sides: the greedy packer stays ahead. */
  lemma StepStaysAhead(g: Groups, front: seq<seq<Bytes>>, last: seq<Bytes>, block: Bytes, max: int)
    requires Ahead(g, front + [last]) && Fits(last + [block], max) && block != []
    requires g.open == [] ==> g.sent == []
    requires Concat(g.open) == [] ==> g.open == []
    ensures Ahead(WithBlock(g, block, max), front + [last + [block]])
  {
    ConcatAppend(last, block);
    ConcatAppend(g.open, block);
    ConcatAppend([], block);
    assert (front + [last])[|front|] == last;
    if |last| == 0 {
      assert Concat(last) == [];
    }
  }

  /** A packing without its very last block. */
  lemma DropLastBlock(p: seq<seq<Bytes>>, blocks: seq<Bytes>, max: int)
    requires IsPacking(p, blocks, max) && p != [] && p[|p| - 1] != [] && max >= 0
    ensures var n := |p| - 1;
            var last := p[n][..|p[n]| - 1];
            blocks != [] && p[n] == last + [blocks[|blocks| - 1]] && IsPacking(p[..n] + [last], blocks[..|blocks| - 1], max)
  {
    var n := |p| - 1;
    var last, block := p[n][..|p[n]| - 1], p[n][|p[n]| - 1];
    assert p[n] == last + [block];
    ConcatAppend(p[..n], last);
    ConcatAppend(last, block);
    var q := p[..n] + [last];
    assert Concat(q) == blocks[..|blocks| - 1];
    assert forall i :: 0 <= i < n ==> q[i] == p[i];
    assert Fits(last, max);
  }

  lemma {:induction false} GreedyStaysAhead(blocks: seq<Bytes>, max: int, p: seq<seq<Bytes>>)
    requires NoneEmpty(blocks) && IsPacking(p, blocks, max) && max >= 0
    ensures Ahead(Grouped(blocks, max), p)
    decreases |blocks| + |p|
  {
    if p != [] {
      var n := |p| - 1;
      assert p == p[..n] + [p[n]];
      if p[n] == [] {
        GreedyStaysAhead(blocks, max, p[..n]);
      } else {
        DropLastBlock(p, blocks, max);
        var last := p[n][..|p[n]| - 1];
        var front, block := blocks[..|blocks| - 1], blocks[|blocks| - 1];
        GreedyStaysAhead(front, max, p[..n] + [last]);
        GroupedOK(front, max);
        OpenNonEmpty(Grouped(front, max), front, max);
        StepStaysAhead(Grouped(front, max), p[..n], last, block, max);
      }
    }
  }

  /** No packing of the same blocks under the same rule uses fewer datagrams. */
  lemma GreedyIsOptimal(blocks: seq<Bytes>, max: int, p: seq<seq<Bytes>>)
    requires NoneEmpty(blocks) && IsPacking(p, blocks, max) && max >= 0
    ensures |Packing(blocks, max)| <= |p|
  {
    GreedyStaysAhead(blocks, max, p);
    GroupedOK(blocks, max);
    OpenNonEmpty(Grouped(blocks, max), blocks, max);
  }

  // ---------------------------------------------------------------- the writer object

  class DatagramWriter {
    const max: int
    var buf: Bytes
    var sent: seq<Bytes>
    ghost var groups: Groups

    /** The bytes are those of the groups. */
    ghost predicate Valid()
      reads this
    {
      buf == Concat(groups.open) && sent == Payloads(groups.sent)
    }

    constructor (maxPayload: int)
      ensures Valid() && groups == Groups([], []) && buf == [] && sent == []
      ensures max == if maxPayload <= 0 then 1300 else maxPayload
    {
      max := if maxPayload <= 0 then DEFAULT_MAX else maxPayload;
      buf := [];
      sent := [];
      groups := Groups([], []);
    }

    method Add(block: Bytes)
      requires Valid()
      modifies this
      ensures Valid() && groups == WithBlock(old(groups), block, max)
    {
      if |buf| > 0 && |buf| + |block| > max {
        Flush();
      }
      ConcatAppend(groups.open, block);
      buf := buf + block;
      groups := Groups(groups.sent, groups.open + [block]);
    }

    method Flush()
      requires Valid()
      modifies this
      ensures Valid() && groups == Flushed(old(groups))
    {
      if |buf| == 0 {
        return;
      }
      sent := sent + [buf];
      buf := [];
      groups := Groups(groups.sent + [groups.open], []);
    }
  }

  /** The packets a search reply is sent in: every block added, then a flush. */
  method SendBlocks(blocks: seq<Bytes>, maxPayload: int) returns (datagrams: seq<Bytes>)
    ensures datagrams == Payloads(Packing(blocks, if maxPayload <= 0 then 1300 else maxPayload))
  {
    var writer := new DatagramWriter(maxPayload);
    for i := 0 to |blocks|
      invariant writer.Valid() && writer.groups == Grouped(blocks[..i], writer.max)
    {
      assert blocks[..i + 1][..i] == blocks[..i];
      writer.Add(blocks[i]);
    }
    assert blocks[..|blocks|] == blocks;
    writer.Flush();
    datagrams := writer.sent;
  }
}
