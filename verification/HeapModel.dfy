/** The kernel heap as a sequence of blocks: what kmalloc and kfree do to it. */
module HeapModel {
  const HEAP_SIZE := 0x10_0000
  const HEADER := 12

  datatype Block = Block(size: nat, free: bool)

  // ----- layout

  /** The offset just past n blocks that start at offset off. */
  function End(b: seq<Block>, off: nat): (e: nat)
    ensures e >= off + HEADER * |b|
  {
    if b == [] then off else End(b[1..], off + HEADER + b[0].size)
  }

  /** The blocks fill the heap array exactly. */
  predicate Tiles(b: seq<Block>) {
    End(b, 0) == HEAP_SIZE
  }

  predicate NoFreeNeighbours(b: seq<Block>) {
    forall i :: 0 <= i < |b| - 1 ==> !(b[i].free && b[i + 1].free)
  }

  ghost predicate HeapOk(b: seq<Block>) {
    Tiles(b) && NoFreeNeighbours(b)
  }

  /** The allocated payloads: offset to size. */
  function Live(b: seq<Block>, off: nat): (m: map<nat, nat>)
    ensures forall p :: p in m ==> off + HEADER <= p && p + m[p] <= End(b, off)
  {
    if b == [] then map[]
    else
      var rest := Live(b[1..], off + HEADER + b[0].size);
      if b[0].free then rest else rest[off + HEADER := b[0].size]
  }

  /** The payload of block i. */
  function Payload(b: seq<Block>, i: nat): nat
    requires i < |b|
  {
    End(b[..i], 0) + HEADER
  }

  const INITIAL: seq<Block> := [Block(HEAP_SIZE - HEADER, true)]

  // ----- kmalloc

  /** First fit: the first free block at or after i that is large enough, or |b|. */
  function FirstFit(b: seq<Block>, n: nat, i: nat): (r: nat)
    requires i <= |b|
    ensures i <= r <= |b|
    ensures forall k :: i <= k < r ==> !(b[k].free && b[k].size >= n)
    ensures r < |b| ==> b[r].free && b[r].size >= n
    decreases |b| - i
  {
    if i == |b| || (b[i].free && b[i].size >= n) then i else FirstFit(b, n, i + 1)
  }

  /** Taking block i for n bytes, splitting it when more than a header and four bytes would remain. */
  function Take(b: seq<Block>, n: nat, i: nat): seq<Block>
    requires i < |b| && b[i].size >= n
  {
    b[..i] + Taken(b[i], n) + b[i + 1..]
  }

  function Taken(x: Block, n: nat): seq<Block>
    requires x.size >= n
  {
    if x.size > n + HEADER + 4 then [Block(n, false), Block(x.size - n - HEADER, true)] else [Block(x.size, false)]
  }

  // ----- kfree

  /** The coalescing pass: a free block swallows the free blocks that follow it. */
  function Coalesce(b: seq<Block>): (r: seq<Block>)
    decreases |b|
  {
    if |b| < 2 then b
    else if b[0].free && b[1].free then Coalesce([Block(b[0].size + HEADER + b[1].size, true)] + b[2..])
    else [b[0]] + Coalesce(b[1..])
  }

  function Release(b: seq<Block>, i: nat): seq<Block>
    requires i < |b|
  {
    Coalesce(b[..i] + [Block(b[i].size, true)] + b[i + 1..])
  }

  // ----- statistics

  function UsedBytes(b: seq<Block>): nat {
    if b == [] then 0 else (if b[0].free then 0 else b[0].size) + UsedBytes(b[1..])
  }

  function FreeBytes(b: seq<Block>): nat {
    if b == [] then 0 else (if b[0].free then b[0].size else 0) + FreeBytes(b[1..])
  }

  function UsedCount(b: seq<Block>): nat {
    if b == [] then 0 else (if b[0].free then 0 else 1) + UsedCount(b[1..])
  }

  function FreeCount(b: seq<Block>): nat {
    if b == [] then 0 else (if b[0].free then 1 else 0) + FreeCount(b[1..])
  }

  /** The largest free size, 0 when nothing is free. */
  function LargestFree(b: seq<Block>): (m: nat)
    ensures forall i :: 0 <= i < |b| && b[i].free ==> b[i].size <= m
    ensures m > 0 ==> exists i :: 0 <= i < |b| && b[i].free && b[i].size == m
  {
    if b == [] then 0
    else
      var rest := LargestFree(b[1..]);
      assert forall i :: 0 < i < |b| ==> b[i] == b[1..][i - 1];
      assert rest > 0 ==> exists i :: 0 < i < |b| && b[i].free && b[i].size == rest by {
        if rest > 0 {
          var i :| 0 <= i < |b[1..]| && b[1..][i].free && b[1..][i].size == rest;
          assert b[i + 1] == b[1..][i];
        }
      }
      if b[0].free && b[0].size > rest then b[0].size else rest
  }

  // ----- concatenation lemmas

  lemma {:induction false} EndConcat(a: seq<Block>, b: seq<Block>, off: nat)
    ensures End(a + b, off) == End(b, End(a, off))
  {
    if a == [] {
      assert a + b == b;
    } else {
      assert (a + b)[1..] == a[1..] + b;
      EndConcat(a[1..], b, off + HEADER + a[0].size);
    }
  }

  lemma {:induction false} LiveConcat(a: seq<Block>, b: seq<Block>, off: nat)
    ensures Live(a + b, off) == Live(a, off) + Live(b, End(a, off))
  {
    if a == [] {
      assert a + b == b;
    } else {
      assert (a + b)[1..] == a[1..] + b;
      LiveConcat(a[1..], b, off + HEADER + a[0].size);
    }
  }

  /** Extent and payloads of a run of blocks with a middle part. */
  lemma Around(pre: seq<Block>, mid: seq<Block>, post: seq<Block>)
    ensures End(pre + mid + post, 0) == End(post, End(mid, End(pre, 0)))
    ensures Live(pre + mid + post, 0)
         == Live(pre, 0) + Live(mid, End(pre, 0)) + Live(post, End(mid, End(pre, 0)))
  {
    EndConcat(pre + mid, post, 0);
    EndConcat(pre, mid, 0);
    LiveConcat(pre + mid, post, 0);
    LiveConcat(pre, mid, 0);
  }

  lemma AddBetween(a: map<nat, nat>, c: map<nat, nat>, p: nat, size: nat)
    requires p !in a && p !in c
    ensures a + map[p := size] + c == (a + map[] + c)[p := size]
    ensures a + map[] + c == (a + map[p := size] + c) - {p}
    ensures p !in a + map[] + c
  {
  }

  /** The payload of a middle block is neither before nor after it. */
  lemma BetweenNeighbours(pre: seq<Block>, mid: seq<Block>, post: seq<Block>)
    requires mid != []
    ensures End(pre, 0) + HEADER !in Live(pre, 0)
    ensures End(pre, 0) + HEADER !in Live(post, End(mid, End(pre, 0)))
  {
    var e := End(mid, End(pre, 0));
    assert e >= End(pre, 0) + HEADER * |mid|;
  }

  /** Exchanging a free middle part for one with a single payload, or back. */
  lemma Exchange(pre: seq<Block>, idle: seq<Block>, busy: seq<Block>, post: seq<Block>, p: nat, size: nat)
    requires p == End(pre, 0) + HEADER && busy != []
    requires Live(idle, End(pre, 0)) == map[] && Live(busy, End(pre, 0)) == map[p := size]
    requires End(idle, End(pre, 0)) == End(busy, End(pre, 0))
    ensures End(pre + busy + post, 0) == End(pre + idle + post, 0)
    ensures p !in Live(pre + idle + post, 0)
    ensures Live(pre + busy + post, 0) == Live(pre + idle + post, 0)[p := size]
    ensures Live(pre + idle + post, 0) == Live(pre + busy + post, 0) - {p}
  {
    Around(pre, idle, post);
    Around(pre, busy, post);
    BetweenNeighbours(pre, busy, post);
    AddBetween(Live(pre, 0), Live(post, End(busy, End(pre, 0))), p, size);
  }

  lemma TakenLive(x: Block, n: nat, off: nat)
    requires x.free && x.size >= n
    ensures var t := Taken(x, n);
      && !t[0].free && t[0].size >= n
      && Live([x], off) == map[] && Live(t, off) == map[off + HEADER := t[0].size]
      && End(t, off) == End([x], off)
  {
    var t := Taken(x, n);
    if |t| == 2 {
      assert t[1..] == [t[1]];
      assert t[1..][1..] == [];
    }
  }

  lemma Rebuild(b: seq<Block>, i: nat)
    requires i < |b|
    ensures b[..i] + [b[i]] + b[i + 1..] == b
  {
  }

  // ----- accounting

  /** Used bytes, free bytes and headers add up to the extent of the blocks. */
  lemma {:induction false} Accounting(b: seq<Block>, off: nat)
    ensures End(b, off) == off + UsedBytes(b) + FreeBytes(b) + HEADER * (UsedCount(b) + FreeCount(b))
  {
    if b != [] {
      Accounting(b[1..], off + HEADER + b[0].size);
    }
  }

  /** kmalloc of a positive size fails exactly when it exceeds the largest free block. */
  lemma FailsIff(b: seq<Block>, n: nat)
    requires n > 0
    ensures FirstFit(b, n, 0) == |b| <==> n > LargestFree(b)
  {
    var r := FirstFit(b, n, 0);
    if n <= LargestFree(b) {
      var i :| 0 <= i < |b| && b[i].free && b[i].size == LargestFree(b);
      assert i >= r;
    }
  }

  // ----- what kmalloc keeps

  /** kmalloc adds exactly one payload, of at least n bytes, and moves no other. */
  lemma TakeKeeps(b: seq<Block>, n: nat, i: nat)
    requires HeapOk(b) && i < |b| && b[i].free && b[i].size >= n
    ensures HeapOk(Take(b, n, i))
    ensures Payload(b, i) !in Live(b, 0)
    ensures Taken(b[i], n)[0].size >= n
    ensures Live(Take(b, n, i), 0) == Live(b, 0)[Payload(b, i) := Taken(b[i], n)[0].size]
  {
    TakenLive(b[i], n, End(b[..i], 0));
    Exchange(b[..i], [b[i]], Taken(b[i], n), b[i + 1..], Payload(b, i), Taken(b[i], n)[0].size);
    Rebuild(b, i);
    TakeNeighbours(b, n, i);
  }

  lemma TakeNeighbours(b: seq<Block>, n: nat, i: nat)
    requires NoFreeNeighbours(b) && i < |b| && b[i].free && b[i].size >= n
    ensures NoFreeNeighbours(Take(b, n, i))
  {
    var t := Take(b, n, i);
    forall k | 0 <= k < |t| - 1
      ensures !(t[k].free && t[k + 1].free)
    {
      if b[i].size > n + HEADER + 4 {
        if k > i + 1 {
          assert t[k] == b[k - 1] && t[k + 1] == b[k];
        } else if k == i + 1 {
          assert t[k + 1] == b[k] && b[i].free;
        } else if k < i {
          assert t[k] == b[k];
        }
      }
    }
  }

  // ----- what kfree keeps

  lemma {:induction false} CoalesceKeeps(b: seq<Block>, off: nat)
    ensures End(Coalesce(b), off) == End(b, off)
    ensures Live(Coalesce(b), off) == Live(b, off)
    decreases |b|
  {
    if |b| >= 2 {
      if b[0].free && b[1].free {
        var m := [Block(b[0].size + HEADER + b[1].size, true)] + b[2..];
        assert m[1..] == b[2..] == b[1..][1..];
        CoalesceKeeps(m, off);
      } else {
        var c := [b[0]] + Coalesce(b[1..]);
        assert c[1..] == Coalesce(b[1..]);
        CoalesceKeeps(b[1..], off + HEADER + b[0].size);
      }
    }
  }

  lemma {:induction false} CoalesceSeparates(b: seq<Block>)
    ensures NoFreeNeighbours(Coalesce(b))
    ensures b != [] ==> Coalesce(b) != [] && Coalesce(b)[0].free == b[0].free
    decreases |b|
  {
    if |b| >= 2 {
      if b[0].free && b[1].free {
        CoalesceSeparates([Block(b[0].size + HEADER + b[1].size, true)] + b[2..]);
      } else {
        CoalesceSeparates(b[1..]);
        var c := Coalesce(b[1..]);
        forall k | 0 <= k < |[b[0]] + c| - 1
          ensures !(([b[0]] + c)[k].free && ([b[0]] + c)[k + 1].free)
        {
          if k > 0 {
            assert !(c[k - 1].free && c[k].free);
          }
        }
      }
    }
  }

  /** kfree removes exactly one payload and moves no other. */
  lemma ReleaseKeeps(b: seq<Block>, i: nat)
    requires Tiles(b) && i < |b| && !b[i].free
    ensures HeapOk(Release(b, i))
    ensures Payload(b, i) in Live(b, 0) && Live(b, 0)[Payload(b, i)] == b[i].size
    ensures Live(Release(b, i), 0) == Live(b, 0) - {Payload(b, i)}
  {
    ReleasedLive(b[i], End(b[..i], 0));
    Exchange(b[..i], [Block(b[i].size, true)], [b[i]], b[i + 1..], Payload(b, i), b[i].size);
    Rebuild(b, i);
    CoalesceKeeps(b[..i] + [Block(b[i].size, true)] + b[i + 1..], 0);
    CoalesceSeparates(b[..i] + [Block(b[i].size, true)] + b[i + 1..]);
  }

  lemma ReleasedLive(x: Block, off: nat)
    requires !x.free
    ensures Live([Block(x.size, true)], off) == map[] && Live([x], off) == map[off + HEADER := x.size]
    ensures End([Block(x.size, true)], off) == End([x], off)
  {
    assert [x][1..] == [] && [Block(x.size, true)][1..] == [];
  }

  // ----- the heap is determined by its live payloads

  /** Payloads after the first block lie beyond it. */
  lemma TailKeys(b: seq<Block>, off: nat, p: nat)
    requires b != [] && p in Live(b, off)
    ensures (p == off + HEADER && !b[0].free)
      || (p in Live(b[1..], off + HEADER + b[0].size) && p >= off + HEADER + b[0].size + HEADER)
  {
  }

  lemma FreeHeadMisses(b: seq<Block>, off: nat)
    requires b != [] && b[0].free
    ensures off + HEADER !in Live(b, off)
  {
  }

  lemma UsedHead(b: seq<Block>, off: nat)
    requires b != [] && !b[0].free
    ensures off + HEADER in Live(b, off) && Live(b, off)[off + HEADER] == b[0].size
    ensures Live(b[1..], off + HEADER + b[0].size) == Live(b, off) - {off + HEADER}
  {
  }

  /** A free block followed by anything is followed by a payload right behind it. */
  lemma FreeHeadThenUsed(b: seq<Block>, off: nat)
    requires |b| >= 2 && NoFreeNeighbours(b) && b[0].free
    ensures off + HEADER + b[0].size + HEADER in Live(b, off)
  {
    assert !(b[0].free && b[0 + 1].free);
    UsedHead(b[1..], off + HEADER + b[0].size);
  }

  lemma FreeHeadsAgree(a: seq<Block>, b: seq<Block>, off: nat)
    requires a != [] && b != [] && a[0].free && b[0].free
    requires NoFreeNeighbours(a) && End(a, off) == End(b, off) && Live(a, off) == Live(b, off)
    ensures a[0].size >= b[0].size
  {
    if |a| >= 2 {
      FreeHeadThenUsed(a, off);
      TailKeys(b, off, off + HEADER + a[0].size + HEADER);
    } else {
      assert a[1..] == [];
    }
  }

  lemma TailSeparated(b: seq<Block>)
    requires b != [] && NoFreeNeighbours(b)
    ensures NoFreeNeighbours(b[1..])
  {
    forall i | 0 <= i < |b[1..]| - 1
      ensures !(b[1..][i].free && b[1..][i + 1].free)
    {
      assert !(b[i + 1].free && b[i + 1 + 1].free);
    }
  }

  /** Same extent, same payloads, no free neighbours: the same blocks. */
  lemma {:induction false} Canonical(a: seq<Block>, b: seq<Block>, off: nat)
    requires NoFreeNeighbours(a) && NoFreeNeighbours(b)
    requires End(a, off) == End(b, off) && Live(a, off) == Live(b, off)
    ensures a == b
    decreases |a| + |b|
  {
    if a != [] && b != [] {
      HeadsAgree(a, b, off);
      TailSeparated(a);
      TailSeparated(b);
      Canonical(a[1..], b[1..], off + HEADER + a[0].size);
      assert a == [a[0]] + a[1..] && b == [b[0]] + b[1..];
    }
  }

  lemma HeadsAgree(a: seq<Block>, b: seq<Block>, off: nat)
    requires a != [] && b != [] && NoFreeNeighbours(a) && NoFreeNeighbours(b)
    requires End(a, off) == End(b, off) && Live(a, off) == Live(b, off)
    ensures a[0] == b[0]
    ensures Live(a[1..], off + HEADER + a[0].size) == Live(b[1..], off + HEADER + b[0].size)
  {
    if !a[0].free {
      UsedHead(a, off);
      TailKeys(b, off, off + HEADER);
      UsedHead(b, off);
    } else if !b[0].free {
      UsedHead(b, off);
      FreeHeadMisses(a, off);
    } else {
      FreeHeadsAgree(a, b, off);
      FreeHeadsAgree(b, a, off);
    }
  }

  /** History independence: two heaps with the same live payloads are the same block list. */
  lemma HistoryIndependence(a: seq<Block>, b: seq<Block>)
    requires HeapOk(a) && HeapOk(b) && Live(a, 0) == Live(b, 0)
    ensures a == b
  {
    Canonical(a, b, 0);
  }

  /** Freeing a block just taken restores the block list, split or not, whichever block it was. */
  lemma ReleaseUndoesTake(b: seq<Block>, n: nat, i: nat)
    requires HeapOk(b) && i < |b| && b[i].free && b[i].size >= n
    ensures Release(Take(b, n, i), i) == b
  {
    var t := Take(b, n, i);
    TakeKeeps(b, n, i);
    assert t[..i] == b[..i] && t[i] == Taken(b[i], n)[0];
    assert Payload(t, i) == Payload(b, i);
    ReleaseKeeps(t, i);
    assert Live(b, 0)[Payload(b, i) := t[i].size] - {Payload(b, i)} == Live(b, 0);
    HistoryIndependence(Release(t, i), b);
  }

  // ----- payloads never overlap

  lemma {:induction false} LiveDisjoint(b: seq<Block>, off: nat, p: nat, q: nat)
    requires p in Live(b, off) && q in Live(b, off) && p < q
    ensures p + Live(b, off)[p] + HEADER <= q
  {
    TailKeys(b, off, p);
    TailKeys(b, off, q);
    if p != off + HEADER {
      LiveDisjoint(b[1..], off + HEADER + b[0].size, p, q);
    }
  }

  // ----- runs of kmalloc and kfree

  /** The index of the used block whose payload is p, or |b|. */
  function BlockOf(b: seq<Block>, off: nat, p: nat): (i: nat)
    ensures i <= |b|
  {
    if b == [] then 0
    else if !b[0].free && p == off + HEADER then 0
    else 1 + BlockOf(b[1..], off + HEADER + b[0].size, p)
  }

  lemma {:induction false} BlockOfLive(b: seq<Block>, off: nat, p: nat)
    requires p in Live(b, off)
    ensures var i := BlockOf(b, off, p);
      i < |b| && !b[i].free && End(b[..i], off) + HEADER == p
  {
    if !(!b[0].free && p == off + HEADER) {
      TailKeys(b, off, p);
      var next := off + HEADER + b[0].size;
      BlockOfLive(b[1..], next, p);
      var i := BlockOf(b, off, p);
      assert b[..i][1..] == b[1..][..i - 1];
    }
  }

  datatype HeapOp = Malloc(n: nat) | Free(p: nat)

  function Apply(b: seq<Block>, op: HeapOp): seq<Block> {
    match op
    case Malloc(n) =>
      var i := FirstFit(b, n, 0);
      if i == |b| then b else Take(b, n, i)
    case Free(p) =>
      var i := BlockOf(b, 0, p);
      if i == |b| then b else Release(b, i)
  }

  /** Only live pointers are freed. */
  ghost predicate Legal(b: seq<Block>, op: HeapOp) {
    op.Free? ==> op.p in Live(b, 0)
  }

  /** One operation: the heap stays well formed, and exactly the named payload comes or goes. */
  lemma ApplyKeeps(b: seq<Block>, op: HeapOp)
    requires HeapOk(b) && Legal(b, op)
    ensures HeapOk(Apply(b, op))
    ensures op.Free? ==> Live(Apply(b, op), 0) == Live(b, 0) - {op.p}
    ensures op.Malloc? ==>
      var i := FirstFit(b, op.n, 0);
      if i == |b| then Apply(b, op) == b
      else
        && Payload(b, i) !in Live(b, 0) && Taken(b[i], op.n)[0].size >= op.n
        && Live(Apply(b, op), 0) == Live(b, 0)[Payload(b, i) := Taken(b[i], op.n)[0].size]
  {
    if op.Malloc? {
      var i := FirstFit(b, op.n, 0);
      if i < |b| {
        TakeKeeps(b, op.n, i);
      }
    } else {
      BlockOfLive(b, 0, op.p);
      ReleaseKeeps(b, BlockOf(b, 0, op.p));
    }
  }

  /** kfree of the pointer that kmalloc just returned restores the block list exactly. */
  lemma FreeUndoesMalloc(b: seq<Block>, n: nat)
    requires HeapOk(b) && FirstFit(b, n, 0) < |b|
    ensures Apply(Apply(b, Malloc(n)), Free(Payload(b, FirstFit(b, n, 0)))) == b
  {
    var taken, p := Apply(b, Malloc(n)), Payload(b, FirstFit(b, n, 0));
    ApplyKeeps(b, Malloc(n));
    ApplyKeeps(taken, Free(p));
    assert Live(taken, 0) - {p} == Live(b, 0);
    HistoryIndependence(Apply(taken, Free(p)), b);
  }

  // ----- what a call takes and gives back

  lemma {:induction false} StatisticsConcat(a: seq<Block>, b: seq<Block>)
    ensures UsedBytes(a + b) == UsedBytes(a) + UsedBytes(b) && FreeBytes(a + b) == FreeBytes(a) + FreeBytes(b)
    ensures UsedCount(a + b) == UsedCount(a) + UsedCount(b) && FreeCount(a + b) == FreeCount(a) + FreeCount(b)
  {
    if a == [] {
      assert a + b == b;
    } else {
      assert (a + b)[1..] == a[1..] + b;
      StatisticsConcat(a[1..], b);
    }
  }

  /** Replacing a middle part changes the statistics by the difference of the parts. */
  lemma StatisticsReplace(pre: seq<Block>, mid: seq<Block>, mid': seq<Block>, post: seq<Block>)
    ensures var b, b' := pre + mid + post, pre + mid' + post;
      && UsedBytes(b') - UsedBytes(b) == UsedBytes(mid') - UsedBytes(mid)
      && FreeBytes(b') - FreeBytes(b) == FreeBytes(mid') - FreeBytes(mid)
      && UsedCount(b') - UsedCount(b) == UsedCount(mid') - UsedCount(mid)
  {
    StatisticsConcat(pre + mid, post);
    StatisticsConcat(pre, mid);
    StatisticsConcat(pre + mid', post);
    StatisticsConcat(pre, mid');
  }

  lemma StatisticsOfOne(x: Block)
    ensures UsedBytes([x]) == (if x.free then 0 else x.size) && FreeBytes([x]) == (if x.free then x.size else 0)
    ensures UsedCount([x]) == if x.free then 0 else 1
  {
    assert [x][1..] == [];
  }

  lemma StatisticsOfTaken(x: Block, n: nat)
    requires x.free && x.size >= n
    ensures UsedBytes(Taken(x, n)) == Taken(x, n)[0].size && UsedCount(Taken(x, n)) == 1
    ensures FreeBytes(Taken(x, n)) == if x.size > n + HEADER + 4 then x.size - n - HEADER else 0
  {
    var t := Taken(x, n);
    StatisticsOfOne(t[0]);
    if |t| == 2 {
      assert t == [t[0]] + [t[1]];
      StatisticsOfOne(t[1]);
      StatisticsConcat([t[0]], [t[1]]);
    }
  }

  /** The payload kmalloc hands out: n bytes when the chosen block leaves a header and more than four, else all of it. */
  lemma GrantIs(b: seq<Block>, n: nat)
    requires HeapOk(b) && FirstFit(b, n, 0) < |b|
    ensures var x, b' := b[FirstFit(b, n, 0)], Apply(b, Malloc(n));
      var p := Payload(b, FirstFit(b, n, 0));
      && p in Live(b', 0)
      && Live(b', 0)[p] == (if x.size > n + 16 then n else x.size)
      && n <= Live(b', 0)[p] <= n + 16
      && UsedBytes(b') == UsedBytes(b) + Live(b', 0)[p] && UsedCount(b') == UsedCount(b) + 1
      && FreeBytes(b') == FreeBytes(b) - (if x.size > n + 16 then n + 12 else x.size)
      && FreeBytes(b') + n + 16 >= FreeBytes(b)
  {
    var i := FirstFit(b, n, 0);
    ApplyKeeps(b, Malloc(n));
    Rebuild(b, i);
    StatisticsReplace(b[..i], [b[i]], Taken(b[i], n), b[i + 1..]);
    StatisticsOfOne(b[i]);
    StatisticsOfTaken(b[i], n);
  }

  lemma {:induction false} CoalesceStatistics(b: seq<Block>)
    ensures UsedBytes(Coalesce(b)) == UsedBytes(b) && UsedCount(Coalesce(b)) == UsedCount(b)
    decreases |b|
  {
    if |b| >= 2 {
      if b[0].free && b[1].free {
        var merged := [Block(b[0].size + HEADER + b[1].size, true)] + b[2..];
        assert merged[1..] == b[2..] == b[1..][1..];
        CoalesceStatistics(merged);
      } else {
        assert ([b[0]] + Coalesce(b[1..]))[1..] == Coalesce(b[1..]);
        CoalesceStatistics(b[1..]);
      }
    }
  }

  /** kfree gives back exactly the payload it is given: its bytes, and its block, are no longer in use. */
  lemma FreeGivesBack(b: seq<Block>, p: nat)
    requires HeapOk(b) && p in Live(b, 0)
    ensures var b' := Apply(b, Free(p));
      UsedBytes(b') + Live(b, 0)[p] == UsedBytes(b) && UsedCount(b') + 1 == UsedCount(b)
  {
    var i := BlockOf(b, 0, p);
    BlockOfLive(b, 0, p);
    ReleaseKeeps(b, i);
    Rebuild(b, i);
    StatisticsReplace(b[..i], [b[i]], [Block(b[i].size, true)], b[i + 1..]);
    StatisticsOfOne(b[i]);
    StatisticsOfOne(Block(b[i].size, true));
    CoalesceStatistics(b[..i] + [Block(b[i].size, true)] + b[i + 1..]);
  }

  /** The two counters together count the blocks, and the blocks in use are the live payloads. */
  lemma {:induction false} CountsAre(b: seq<Block>, off: nat)
    ensures UsedCount(b) + FreeCount(b) == |b| && UsedCount(b) == |Live(b, off)|
  {
    if b != [] {
      var next := off + HEADER + b[0].size;
      CountsAre(b[1..], next);
      assert off + HEADER !in Live(b[1..], next);
    }
  }

  function Run(b: seq<Block>, ops: seq<HeapOp>): seq<Block> {
    if ops == [] then b else Apply(Run(b, ops[..|ops| - 1]), ops[|ops| - 1])
  }

  ghost predicate LegalRun(b: seq<Block>, ops: seq<HeapOp>) {
    ops == [] || (LegalRun(b, ops[..|ops| - 1]) && Legal(Run(b, ops[..|ops| - 1]), ops[|ops| - 1]))
  }

  lemma InitialOk()
    ensures HeapOk(INITIAL) && Live(INITIAL, 0) == map[]
    ensures UsedBytes(INITIAL) == 0 && FreeBytes(INITIAL) == 1024 * 1024 - 12
  {
    assert INITIAL[1..] == [];
  }

  /** After any legal run the blocks tile the heap, no two free ones touch, and the books balance. */
  lemma {:induction false} RunInvariant(ops: seq<HeapOp>)
    requires LegalRun(INITIAL, ops)
    ensures var b := Run(INITIAL, ops);
      && HeapOk(b)
      && UsedBytes(b) + FreeBytes(b) + HEADER * (UsedCount(b) + FreeCount(b)) == HEAP_SIZE
      && (forall p, q :: p in Live(b, 0) && q in Live(b, 0) && p < q ==> p + Live(b, 0)[p] + HEADER <= q)
  {
    var b := Run(INITIAL, ops);
    if ops == [] {
      InitialOk();
    } else {
      RunInvariant(ops[..|ops| - 1]);
      ApplyKeeps(Run(INITIAL, ops[..|ops| - 1]), ops[|ops| - 1]);
    }
    Accounting(b, 0);
    forall p, q | p in Live(b, 0) && q in Live(b, 0) && p < q
      ensures p + Live(b, 0)[p] + HEADER <= q
    {
      LiveDisjoint(b, 0, p, q);
    }
  }

  /** Freeing pointers one by one, in the order given. */
  function FreeEach(b: seq<Block>, ps: seq<nat>): seq<Block>
    decreases |ps|
  {
    if ps == [] then b else FreeEach(Apply(b, Free(ps[0])), ps[1..])
  }

  /** Freeing every live pointer, in any order, restores the single initial block. */
  lemma {:induction false} FreeEverything(b: seq<Block>, ps: seq<nat>)
    requires HeapOk(b)
    requires forall p :: p in Live(b, 0) <==> p in ps
    requires forall i, j :: 0 <= i < j < |ps| ==> ps[i] != ps[j]
    ensures FreeEach(b, ps) == INITIAL
    decreases |ps|
  {
    if ps == [] {
      InitialOk();
      assert Live(b, 0) == map[] by {
        assert forall p :: p !in Live(b, 0);
      }
      HistoryIndependence(b, INITIAL);
    } else {
      var b' := Apply(b, Free(ps[0]));
      ApplyKeeps(b, Free(ps[0]));
      forall p
        ensures p in Live(b', 0) <==> p in ps[1..]
      {
        assert p in ps <==> p == ps[0] || p in ps[1..];
      }
      FreeEverything(b', ps[1..]);
    }
  }
}
