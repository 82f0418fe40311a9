/** The kernel heap allocator: block headers linked through an array of bytes. */
module Heap {
  import opened HeapModel

  /** A pointer into the heap array. */
  datatype Ptr = Null | At(offset: nat)

  /** A block header stored in the array. */
  datatype Meta = Meta(size: nat, isFree: bool, next: Ptr)

  type Headers = map<nat, Meta>

  /** From p, the next chain runs through blocks b laid out from offset off and leaves at q. */
  ghost predicate Segment(m: Headers, p: Ptr, off: nat, b: seq<Block>, q: Ptr)
    decreases |b|
  {
    if b == [] then p == q
    else
      && p == At(off) && off in m
      && m[off].size == b[0].size && m[off].isFree == b[0].free
      && Segment(m, m[off].next, off + HEADER + b[0].size, b[1..], q)
  }

  /** The two heaps hold the same headers from lo up to, and without, hi. */
  ghost predicate Agree(m: Headers, m': Headers, lo: nat, hi: nat) {
    forall x :: lo <= x < hi && x in m ==> x in m' && m'[x] == m[x]
  }

  lemma {:induction false} SegmentAgree(m: Headers, m': Headers, p: Ptr, off: nat, b: seq<Block>, q: Ptr)
    requires Segment(m, p, off, b, q) && Agree(m, m', off, End(b, off))
    ensures Segment(m', p, off, b, q)
    decreases |b|
  {
    if b != [] {
      SegmentAgree(m, m', m[off].next, off + HEADER + b[0].size, b[1..], q);
    }
  }

  lemma {:induction false} SegmentConcat(m: Headers, p: Ptr, off: nat, a: seq<Block>, r: Ptr, b: seq<Block>, q: Ptr)
    requires Segment(m, p, off, a, r) && Segment(m, r, End(a, off), b, q)
    ensures Segment(m, p, off, a + b, q)
    decreases |a|
  {
    if a == [] {
      assert a + b == b;
    } else {
      SegmentConcat(m, m[off].next, off + HEADER + a[0].size, a[1..], r, b, q);
      assert (a + b)[1..] == a[1..] + b;
    }
  }

  /** The pointer at which a chain can be cut before the blocks of b, which start at off. */
  ghost function Cut(off: nat, b: seq<Block>): Ptr {
    if b == [] then Null else At(off)
  }

  lemma {:induction false} SegmentSplit(m: Headers, p: Ptr, off: nat, a: seq<Block>, b: seq<Block>)
    requires Segment(m, p, off, a + b, Null)
    ensures Segment(m, p, off, a, Cut(End(a, off), b)) && Segment(m, Cut(End(a, off), b), End(a, off), b, Null)
    decreases |a|
  {
    if a == [] {
      assert a + b == b;
    } else {
      assert (a + b)[1..] == a[1..] + b;
      SegmentSplit(m, m[off].next, off + HEADER + a[0].size, a[1..], b);
    }
  }

  lemma SegmentOne(m: Headers, off: nat, x: Block, q: Ptr)
    requires off in m && m[off] == Meta(x.size, x.free, q)
    ensures Segment(m, At(off), off, [x], q) && End([x], off) == off + HEADER + x.size
  {
    assert [x][1..] == [];
  }

  lemma SegmentTwo(m: Headers, off: nat, x: Block, y: Block, q: Ptr)
    requires off in m && m[off] == Meta(x.size, x.free, At(off + HEADER + x.size))
    requires off + HEADER + x.size in m && m[off + HEADER + x.size] == Meta(y.size, y.free, q)
    ensures Segment(m, At(off), off, [x, y], q)
    ensures End([x, y], off) == off + HEADER + x.size + HEADER + y.size
  {
    SegmentOne(m, off + HEADER + x.size, y, q);
    assert [x, y][1..] == [y];
  }

  /** Replacing a run of blocks within its own extent leaves the rest of the chain alone. */
  lemma SegmentReplace(m: Headers, m': Headers, p: Ptr, pre: seq<Block>, mid: seq<Block>, mid': seq<Block>, post: seq<Block>)
    requires Segment(m, p, 0, pre + (mid + post), Null) && mid != []
    requires End(mid', End(pre, 0)) == End(mid, End(pre, 0))
    requires Agree(m, m', 0, End(pre, 0)) && Agree(m, m', End(mid, End(pre, 0)), End(post, End(mid, End(pre, 0))))
    requires Segment(m', At(End(pre, 0)), End(pre, 0), mid', Cut(End(mid, End(pre, 0)), post))
    ensures Segment(m', p, 0, pre + (mid' + post), Null)
  {
    var off := End(pre, 0);
    var end := End(mid, off);
    SegmentSplit(m, p, 0, pre, mid + post);
    SegmentSplit(m, At(off), off, mid, post);
    SegmentAgree(m, m', p, 0, pre, At(off));
    SegmentAgree(m, m', Cut(end, post), end, post, Null);
    SegmentConcat(m', At(off), off, mid', Cut(end, post), post, Null);
    SegmentConcat(m', p, 0, pre, At(off), mid' + post, Null);
  }

  // ----- walking the chain

  /** The pointer to block i, null past the last one. */
  ghost function PtrTo(b: seq<Block>, i: nat): Ptr
    requires i <= |b|
  {
    if i == |b| then Null else At(End(b[..i], 0))
  }

  lemma EndStep(b: seq<Block>, i: nat)
    requires i < |b|
    ensures End(b[..i + 1], 0) == End(b[..i], 0) + HEADER + b[i].size
  {
    assert b[..i + 1] == b[..i] + [b[i]];
    EndConcat(b[..i], [b[i]], 0);
    assert [b[i]][1..] == [];
  }

  /** The header of block i, as the chain stores it. */
  lemma NodeAt(m: Headers, p: Ptr, b: seq<Block>, i: nat)
    requires Segment(m, p, 0, b, Null) && i < |b|
    ensures End(b[..i], 0) in m
    ensures m[End(b[..i], 0)] == Meta(b[i].size, b[i].free, PtrTo(b, i + 1))
  {
    assert b == b[..i] + b[i..];
    SegmentSplit(m, p, 0, b[..i], b[i..]);
    EndStep(b, i);
    assert b[i..][1..] == b[i + 1..];
  }

  lemma HeadIs(m: Headers, p: Ptr, b: seq<Block>)
    requires Segment(m, p, 0, b, Null)
    ensures p == PtrTo(b, 0)
  {
    assert b[..0] == [];
  }

  // ----- what the three header updates do to the chain

  lemma Parts(b: seq<Block>, i: nat, mid: seq<Block>)
    requires i < |b|
    ensures b == b[..i] + ([b[i]] + b[i + 1..])
    ensures b[..i] + mid + b[i + 1..] == b[..i] + (mid + b[i + 1..])
    ensures Cut(End([b[i]], End(b[..i], 0)), b[i + 1..]) == PtrTo(b, i + 1)
    ensures End([b[i]], End(b[..i], 0)) == End(b[..i], 0) + HEADER + b[i].size
  {
    EndStep(b, i);
    assert [b[i]][1..] == [];
  }

  /** Marking block i used or free. */
  lemma MarkNode(m: Headers, p: Ptr, b: seq<Block>, i: nat, free: bool)
    requires Segment(m, p, 0, b, Null) && i < |b|
    ensures End(b[..i], 0) in m
    ensures var off := End(b[..i], 0);
      Segment(m[off := m[off].(isFree := free)], p, 0, b[..i] + [Block(b[i].size, free)] + b[i + 1..], Null)
  {
    var off := End(b[..i], 0);
    NodeAt(m, p, b, i);
    Parts(b, i, [Block(b[i].size, free)]);
    var m' := m[off := m[off].(isFree := free)];
    SegmentOne(m', off, Block(b[i].size, free), PtrTo(b, i + 1));
    SegmentReplace(m, m', p, b[..i], [b[i]], [Block(b[i].size, free)], b[i + 1..]);
  }

  /** Splitting block i after n payload bytes. */
  lemma SplitNode(m: Headers, p: Ptr, b: seq<Block>, i: nat, n: nat, m': Headers)
    requires Segment(m, p, 0, b, Null) && i < |b| && b[i].size >= n + HEADER
    requires var off := End(b[..i], 0);
      off in m
      && m' == m[off + HEADER + n := Meta(b[i].size - n - HEADER, true, PtrTo(b, i + 1))]
                [off := Meta(n, false, At(off + HEADER + n))]
    ensures Segment(m', p, 0, b[..i] + [Block(n, false), Block(b[i].size - n - HEADER, true)] + b[i + 1..], Null)
  {
    var off := End(b[..i], 0);
    var mid := [Block(n, false), Block(b[i].size - n - HEADER, true)];
    NodeAt(m, p, b, i);
    Parts(b, i, mid);
    SegmentTwo(m', off, mid[0], mid[1], PtrTo(b, i + 1));
    SegmentReplace(m, m', p, b[..i], [b[i]], mid, b[i + 1..]);
  }

  lemma EndOfPair(x: Block, y: Block, off: nat)
    ensures End([x, y], off) == off + HEADER + x.size + HEADER + y.size
  {
    var pair, second := [x, y], [y];
    assert pair[1..] == second && second[1..] == [];
    assert End(pair, off) == End(second, off + HEADER + x.size);
  }

  lemma PairParts(b: seq<Block>, i: nat, mid: seq<Block>, merged: seq<Block>)
    requires i + 1 < |b| && mid == [b[i], b[i + 1]]
    ensures b == b[..i] + (mid + b[i + 2..])
    ensures b[..i] + merged + b[i + 2..] == b[..i] + (merged + b[i + 2..])
    ensures Cut(End(mid, End(b[..i], 0)), b[i + 2..]) == PtrTo(b, i + 2)
    ensures End(mid, End(b[..i], 0)) == End(b[..i], 0) + HEADER + b[i].size + HEADER + b[i + 1].size
  {
    EndStep(b, i);
    EndStep(b, i + 1);
    EndOfPair(b[i], b[i + 1], End(b[..i], 0));
  }

  /** Merging block i with block i + 1. */
  lemma MergeNodes(m: Headers, p: Ptr, b: seq<Block>, i: nat, m': Headers)
    requires Segment(m, p, 0, b, Null) && i + 1 < |b| && b[i].free && b[i + 1].free
    requires var off := End(b[..i], 0);
      off in m && m' == m[off := Meta(b[i].size + HEADER + b[i + 1].size, true, PtrTo(b, i + 2))]
    ensures Segment(m', p, 0, b[..i] + [Block(b[i].size + HEADER + b[i + 1].size, true)] + b[i + 2..], Null)
  {
    var off := End(b[..i], 0);
    var mid, merged := [b[i], b[i + 1]], [Block(b[i].size + HEADER + b[i + 1].size, true)];
    PairParts(b, i, mid, merged);
    SegmentOne(m', off, merged[0], PtrTo(b, i + 2));
    SegmentReplace(m, m', p, b[..i], mid, merged, b[i + 2..]);
  }

  // ----- the coalescing pass

  /** Blocks before i are done; the pass still has the blocks from i on to coalesce. */
  ghost predicate Pass(goal: seq<Block>, b: seq<Block>, i: nat) {
    i <= |b| && goal == b[..i] + Coalesce(b[i..])
  }

  lemma PassMerges(goal: seq<Block>, b: seq<Block>, i: nat)
    requires Pass(goal, b, i) && i + 1 < |b| && b[i].free && b[i + 1].free
    ensures Pass(goal, b[..i] + [Block(b[i].size + HEADER + b[i + 1].size, true)] + b[i + 2..], i)
  {
    var merged := [Block(b[i].size + HEADER + b[i + 1].size, true)];
    var b' := b[..i] + merged + b[i + 2..];
    assert b'[..i] == b[..i] && b'[i..] == merged + b[i..][2..];
  }

  lemma PassAdvances(goal: seq<Block>, b: seq<Block>, i: nat)
    requires Pass(goal, b, i) && i < |b| && (i + 1 < |b| ==> !(b[i].free && b[i + 1].free))
    ensures Pass(goal, b, i + 1)
  {
    assert b[i..][1..] == b[i + 1..];
    assert b[..i] + ([b[i]] + Coalesce(b[i + 1..])) == b[..i + 1] + Coalesce(b[i + 1..]);
  }

  lemma PassEnds(goal: seq<Block>, b: seq<Block>)
    requires Pass(goal, b, |b|)
    ensures goal == b
  {
  }

  class Allocator {
    var headers: Headers
    var head: Ptr
    /** The block list that the chain represents. */
    ghost var blocks: seq<Block>

    ghost predicate Chained()
      reads this
    {
      Segment(headers, head, 0, blocks, Null)
    }

    ghost predicate Valid()
      reads this
    {
      Chained() && HeapOk(blocks)
    }

    constructor ()
      ensures Valid() && blocks == INITIAL
    {
      head := At(0);
      headers := map[0 := Meta(HEAP_SIZE - HEADER, true, Null)];
      blocks := INITIAL;
      new;
      InitialOk();
      SegmentOne(headers, 0, INITIAL[0], Null);
    }

    /** First fit with splitting; the result points at the payload. */
    method Kmalloc(size: nat) returns (ptr: Ptr)
      requires Valid()
      modifies this
      ensures Valid() && blocks == Apply(old(blocks), Malloc(size))
      ensures var i := FirstFit(old(blocks), size, 0);
        ptr == if i == |old(blocks)| then Null else At(Payload(old(blocks), i))
    {
      ApplyKeeps(blocks, Malloc(size));
      HeadIs(headers, head, blocks);
      var curr := head;
      ghost var i := 0;
      while curr != Null
        invariant blocks == old(blocks) && Chained()
        invariant i <= |blocks| && curr == PtrTo(blocks, i) && FirstFit(blocks, size, 0) == FirstFit(blocks, size, i)
        decreases |blocks| - i
      {
        NodeAt(headers, head, blocks, i);
        var h := headers[curr.offset];
        if h.isFree && h.size >= size {
          Claim(curr.offset, size, i);
          return At(curr.offset + HEADER);
        }
        curr := h.next;
        i := i + 1;
      }
      return Null;
    }

    /** Hand out the free block at off, splitting off the remainder when it is worth a block. */
    method Claim(off: nat, size: nat, ghost i: nat)
      requires Chained() && i < |blocks| && off == End(blocks[..i], 0)
      requires blocks[i].free && blocks[i].size >= size
      modifies this
      ensures head == old(head) && blocks == Take(old(blocks), size, i) && Chained()
    {
      NodeAt(headers, head, blocks, i);
      if headers[off].size > size + HEADER + 4 {
        var newOff := off + HEADER + size;
        headers := headers[newOff := Meta(headers[off].size - size - HEADER, true, headers[off].next)];
        headers := headers[off := headers[off].(size := size, next := At(newOff))];
        headers := headers[off := headers[off].(isFree := false)];
        SplitNode(old(headers), head, blocks, i, size, headers);
      } else {
        MarkNode(headers, head, blocks, i, false);
        headers := headers[off := headers[off].(isFree := false)];
      }
      blocks := Take(blocks, size, i);
    }

    /** Free a live pointer, then merge free neighbours over the whole chain; a null pointer is ignored. */
    method Kfree(ptr: Ptr)
      requires Valid() && (ptr.At? ==> ptr.offset in Live(blocks, 0))
      modifies this
      ensures Valid()
      ensures blocks == if ptr == Null then old(blocks) else Apply(old(blocks), Free(ptr.offset))
    {
      if ptr == Null {
        return;
      }
      ApplyKeeps(blocks, Free(ptr.offset));
      BlockOfLive(blocks, 0, ptr.offset);
      ghost var i := BlockOf(blocks, 0, ptr.offset);
      ghost var goal := Release(blocks, i);
      var off := ptr.offset - HEADER;
      MarkNode(headers, head, blocks, i, true);
      headers := headers[off := headers[off].(isFree := true)];
      blocks := blocks[..i] + [Block(blocks[i].size, true)] + blocks[i + 1..];
      CoalesceChain(goal);
    }

    /** The pass of kfree: a free block absorbs the next one while that is free, else the walk moves on. */
    method CoalesceChain(ghost goal: seq<Block>)
      requires Chained() && goal == Coalesce(blocks)
      modifies this
      ensures Chained() && blocks == goal
    {
      HeadIs(headers, head, blocks);
      assert blocks[..0] + Coalesce(blocks[0..]) == goal by {
        assert blocks[0..] == blocks;
      }
      var curr := head;
      ghost var i := 0;
      while curr != Null
        invariant Chained() && Pass(goal, blocks, i) && curr == PtrTo(blocks, i)
        decreases |blocks| - i
      {
        NodeAt(headers, head, blocks, i);
        var off := curr.offset;
        var next := headers[off].next;
        if next != Null {
          NodeAt(headers, head, blocks, i + 1);
        }
        if headers[off].isFree && next != Null && headers[next.offset].isFree {
          PassMerges(goal, blocks, i);
          MergeNext(off, next.offset, i);
        } else {
          PassAdvances(goal, blocks, i);
          curr := next;
          i := i + 1;
        }
      }
      PassEnds(goal, blocks);
    }

    method MergeNext(off: nat, next: nat, ghost i: nat)
      requires Chained() && i + 1 < |blocks| && blocks[i].free && blocks[i + 1].free
      requires off == End(blocks[..i], 0) && next == End(blocks[..i + 1], 0)
      modifies this
      ensures Chained() && head == old(head)
      ensures blocks == old(blocks)[..i] + [Block(old(blocks)[i].size + HEADER + old(blocks)[i + 1].size, true)]
                        + old(blocks)[i + 2..]
      ensures PtrTo(blocks, i) == At(off)
    {
      NodeAt(headers, head, blocks, i);
      NodeAt(headers, head, blocks, i + 1);
      headers := headers[off := headers[off].(size := headers[off].size + HEADER + headers[next].size)];
      headers := headers[off := headers[off].(next := headers[next].next)];
      MergeNodes(old(headers), head, blocks, i, headers);
      blocks := blocks[..i] + [Block(blocks[i].size + HEADER + blocks[i + 1].size, true)] + blocks[i + 2..];
      assert blocks[..i] == old(blocks)[..i];
    }

    // ----- statistics

    method GetUsedSize() returns (used: nat)
      requires Valid()
      ensures used == UsedBytes(blocks)
    {
      HeadIs(headers, head, blocks);
      used := 0;
      var curr := head;
      ghost var i := 0;
      while curr != Null
        invariant i <= |blocks| && curr == PtrTo(blocks, i) && used + UsedBytes(blocks[i..]) == UsedBytes(blocks)
        decreases |blocks| - i
      {
        NodeAt(headers, head, blocks, i);
        assert blocks[i..][1..] == blocks[i + 1..];
        if !headers[curr.offset].isFree {
          used := used + headers[curr.offset].size;
        }
        curr := headers[curr.offset].next;
        i := i + 1;
      }
    }

    method GetFreeSize() returns (free: nat)
      requires Valid()
      ensures free == FreeBytes(blocks)
    {
      HeadIs(headers, head, blocks);
      free := 0;
      var curr := head;
      ghost var i := 0;
      while curr != Null
        invariant i <= |blocks| && curr == PtrTo(blocks, i) && free + FreeBytes(blocks[i..]) == FreeBytes(blocks)
        decreases |blocks| - i
      {
        NodeAt(headers, head, blocks, i);
        assert blocks[i..][1..] == blocks[i + 1..];
        if headers[curr.offset].isFree {
          free := free + headers[curr.offset].size;
        }
        curr := headers[curr.offset].next;
        i := i + 1;
      }
    }

    /** Both counters of the source: blocks in use and blocks free. */
    method GetCounts() returns (used: nat, free: nat)
      requires Valid()
      ensures used == UsedCount(blocks) && free == FreeCount(blocks)
    {
      HeadIs(headers, head, blocks);
      used, free := 0, 0;
      var curr := head;
      ghost var i := 0;
      while curr != Null
        invariant i <= |blocks| && curr == PtrTo(blocks, i)
        invariant used + UsedCount(blocks[i..]) == UsedCount(blocks)
        invariant free + FreeCount(blocks[i..]) == FreeCount(blocks)
        decreases |blocks| - i
      {
        NodeAt(headers, head, blocks, i);
        assert blocks[i..][1..] == blocks[i + 1..];
        if headers[curr.offset].isFree {
          free := free + 1;
        } else {
          used := used + 1;
        }
        curr := headers[curr.offset].next;
        i := i + 1;
      }
    }

    method GetLargestFreeBlock() returns (max: nat)
      requires Valid()
      ensures max == LargestFree(blocks)
    {
      HeadIs(headers, head, blocks);
      max := 0;
      var curr := head;
      ghost var i := 0;
      while curr != Null
        invariant i <= |blocks| && curr == PtrTo(blocks, i)
        invariant LargestFree(blocks) == if max > LargestFree(blocks[i..]) then max else LargestFree(blocks[i..])
        decreases |blocks| - i
      {
        NodeAt(headers, head, blocks, i);
        assert blocks[i..][1..] == blocks[i + 1..];
        if headers[curr.offset].isFree && headers[curr.offset].size > max {
          max := headers[curr.offset].size;
        }
        curr := headers[curr.offset].next;
        i := i + 1;
      }
    }
  }
}
