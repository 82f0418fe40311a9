/** The physical frame allocator, as the kernel runs it: a packed bitmap and two counters. */
module Pmm {
  import opened Machine
  import opened Bitmap
  import M = PmmModel

  lemma UnpackOnes(bytes: seq<bv8>)
    requires |bytes| == 1024 && forall i :: 0 <= i < 1024 ==> bytes[i] == 0xFF
    ensures Unpack(bytes) == M.AllUsed()
  {
    forall f | 0 <= f < M.FRAMES
      ensures Unpack(bytes)[f] == M.AllUsed()[f]
    {
      FullByte(f % 8);
    }
  }

  class FrameAllocator {
    const bitmap: array<bv8>
    var maxBlocks: nat
    var usedBlocks: u32

    ghost predicate Shape()
      reads this, bitmap
    {
      bitmap.Length == 1024 && M.RESERVED <= maxBlocks <= M.FRAMES
    }

    ghost function State(): M.Pmm
      reads this, bitmap
      requires Shape()
    {
      M.Pmm(Unpack(bitmap[..]), maxBlocks, usedBlocks)
    }

    constructor ()
      ensures Shape() && fresh(bitmap)
    {
      bitmap := new bv8[1024];
      maxBlocks := 8192;
      usedBlocks := 0;
    }

    // ----- single bits

    method SetFrame(frame: nat)
      requires bitmap.Length == 1024 && frame < M.FRAMES
      modifies bitmap
      ensures Unpack(bitmap[..]) == old(Unpack(bitmap[..]))[frame := true]
    {
      UnpackSet(bitmap[..], frame);
      bitmap[frame / 8] := bitmap[frame / 8] | Mask(frame % 8);
      assert bitmap[..] == SetBit(old(bitmap[..]), frame);
    }

    method ClearFrame(frame: nat)
      requires bitmap.Length == 1024 && frame < M.FRAMES
      modifies bitmap
      ensures Unpack(bitmap[..]) == old(Unpack(bitmap[..]))[frame := false]
    {
      UnpackClear(bitmap[..], frame);
      bitmap[frame / 8] := bitmap[frame / 8] & !Mask(frame % 8);
      assert bitmap[..] == ClearBit(old(bitmap[..]), frame);
    }

    method TestFrame(frame: nat) returns (set_: bool)
      requires bitmap.Length == 1024 && frame < M.FRAMES
      ensures set_ == Unpack(bitmap[..])[frame]
    {
      set_ := bitmap[frame / 8] & Mask(frame % 8) != 0;
    }

    // ----- boot

    method MarkAllUsed()
      requires bitmap.Length == 1024
      modifies bitmap
      ensures Unpack(bitmap[..]) == M.AllUsed()
    {
      for i := 0 to 1024
        invariant forall j :: 0 <= j < i ==> bitmap[j] == 0xFF
      {
        bitmap[i] := 0xFF;
      }
      UnpackOnes(bitmap[..]);
    }

    method MarkFrames(base: u32, length: u32, used: bool)
      requires Shape()
      modifies bitmap
      ensures Unpack(bitmap[..]) == M.Mark(old(Unpack(bitmap[..])), maxBlocks, base, length, used)
    {
      var end := Wrap32(base + length);
      var frame := base / M.PAGE_SIZE;
      var lastFrame := Wrap32(end + M.PAGE_SIZE - 1) / M.PAGE_SIZE;
      ghost var bits := Unpack(bitmap[..]);
      ghost var first := frame;
      assert first == M.FirstFrame(base) && lastFrame == M.EndFrame(base, length);
      while frame < lastFrame && frame < maxBlocks
        invariant first <= frame
        invariant |Unpack(bitmap[..])| == M.FRAMES
        invariant forall f :: 0 <= f < M.FRAMES ==>
          Unpack(bitmap[..])[f] == if first <= f < frame && f < lastFrame && f < maxBlocks then used else bits[f]
      {
        if used {
          SetFrame(frame);
        } else {
          ClearFrame(frame);
        }
        frame := frame + 1;
      }
      ghost var goal := M.Mark(bits, maxBlocks, base, length, used);
      forall f | 0 <= f < M.FRAMES
        ensures Unpack(bitmap[..])[f] == goal[f]
      {
        assert first <= f < lastFrame && f < maxBlocks ==> f < frame;
      }
    }

    method ReserveLow()
      requires Shape()
      modifies bitmap
      ensures Unpack(bitmap[..]) == M.Reserve(old(Unpack(bitmap[..])))
    {
      ghost var bits := Unpack(bitmap[..]);
      var i := 0;
      while i < M.RESERVED && i < maxBlocks
        invariant i <= M.RESERVED && |Unpack(bitmap[..])| == M.FRAMES
        invariant forall f :: 0 <= f < M.FRAMES ==> Unpack(bitmap[..])[f] == (f < i || bits[f])
      {
        SetFrame(i);
        i := i + 1;
      }
    }

    method RecountUsed()
      requires Shape()
      modifies this`usedBlocks
      ensures usedBlocks == CountSet(Unpack(bitmap[..]), maxBlocks)
    {
      usedBlocks := 0;
      for i := 0 to maxBlocks
        invariant i <= M.FRAMES && usedBlocks == CountSet(Unpack(bitmap[..]), i)
      {
        var b := TestFrame(i);
        if b {
          usedBlocks := usedBlocks + 1;
        }
      }
    }

    /** The first walk over the map: the highest end of an entry. */
    method FindHighest(m: M.Multiboot) returns (highest: u32)
      requires m.hasMap && M.WalkEnds(m)
      ensures highest == M.HighestEnd(M.Regions(m))
    {
      highest := 0;
      var mmapAddr: u32, mmapEnd: u32 := m.mmapAddr, Wrap32(m.mmapAddr + m.mmapLength);
      ghost var seen: seq<M.Region> := [];
      while mmapAddr < mmapEnd
        invariant M.Visited(m, seen, mmapAddr) && highest == M.HighestEnd(seen)
        decreases if mmapAddr < mmapEnd then mmapEnd - mmapAddr else 0
      {
        var entry := m.memory(mmapAddr).region;
        var regionEnd := Wrap32(entry.baseLow + entry.lengthLow);
        if entry.baseHigh == 0 && regionEnd > highest {
          highest := regionEnd;
        }
        M.VisitNext(m, seen, mmapAddr);
        M.HighestEndNext(seen, entry);
        seen := seen + [entry];
        mmapAddr := Wrap32(mmapAddr + m.memory(mmapAddr).size + 4);
      }
      M.VisitedAll(m, seen, mmapAddr);
    }

    method ComputeMaxBlocks(m: M.Multiboot) returns (blocks: nat)
      requires M.WalkEnds(m)
      ensures blocks == M.MaxBlocks(m)
    {
      var highest := 0;
      if m.hasMap {
        highest := FindHighest(m);
      } else if m.hasMemory {
        highest := Wrap32((m.memLower + m.memUpper + 1024) * 1024);
      }
      blocks := highest / M.PAGE_SIZE;
      if blocks < M.RESERVED {
        blocks := M.RESERVED;
      }
      if blocks > 8192 {
        blocks := 8192;
      }
    }

    /** The second walk: every entry marks its frames. */
    method ApplyRegions(m: M.Multiboot)
      requires Shape() && m.hasMap && M.WalkEnds(m)
      modifies bitmap
      ensures Unpack(bitmap[..]) == M.MarkRegions(old(Unpack(bitmap[..])), maxBlocks, M.Regions(m))
    {
      ghost var bits := Unpack(bitmap[..]);
      var mmapAddr: u32, mmapEnd: u32 := m.mmapAddr, Wrap32(m.mmapAddr + m.mmapLength);
      ghost var seen: seq<M.Region> := [];
      while mmapAddr < mmapEnd
        invariant M.Visited(m, seen, mmapAddr)
        invariant Unpack(bitmap[..]) == M.MarkRegions(bits, maxBlocks, seen)
        decreases if mmapAddr < mmapEnd then mmapEnd - mmapAddr else 0
      {
        var entry := m.memory(mmapAddr).region;
        if entry.baseHigh == 0 {
          MarkFrames(entry.baseLow, entry.lengthLow, entry.kind != 1);
        }
        M.VisitNext(m, seen, mmapAddr);
        M.MarkRegionsNext(bits, maxBlocks, seen, entry);
        seen := seen + [entry];
        mmapAddr := Wrap32(mmapAddr + m.memory(mmapAddr).size + 4);
      }
      M.VisitedAll(m, seen, mmapAddr);
    }

    method MapMemory(m: M.Multiboot)
      requires Shape() && M.WalkEnds(m) && maxBlocks == M.MaxBlocks(m) && Unpack(bitmap[..]) == M.AllUsed()
      modifies bitmap
      ensures Unpack(bitmap[..]) == M.Mapped(m)
    {
      if m.hasMap {
        ApplyRegions(m);
      } else if m.hasMemory {
        MarkFrames(0, Wrap32((m.memLower + m.memUpper + 1024) * 1024), false);
      }
    }

    /** pmm_init_from_mmap on a non-null information pointer. */
    method InitFromMmap(m: M.Multiboot)
      requires Shape() && M.WalkEnds(m)
      modifies this, bitmap
      ensures Shape() && State() == M.Boot(m) && M.Inv(State())
    {
      M.BootInv(m);
      MarkAllUsed();
      maxBlocks := ComputeMaxBlocks(m);
      MapMemory(m);
      ReserveLow();
      RecountUsed();
    }

    // ----- allocation and release

    method FindFirstFree() returns (frame: int)
      requires Shape()
      ensures var end := M.ScanEnd(State());
        var f := LowestClear(Unpack(bitmap[..]), M.RESERVED, end);
        frame == if f == end then -1 else f
    {
      ghost var bits := Unpack(bitmap[..]);
      ghost var end := M.ScanEnd(State());
      var i := M.RESERVED / 8;
      while i < maxBlocks / 8
        invariant M.RESERVED / 8 <= i <= maxBlocks / 8
        invariant forall f :: M.RESERVED <= f < 8 * i ==> bits[f]
      {
        if bitmap[i] != 0xFF {
          for j := 0 to 8
            invariant forall f :: M.RESERVED <= f < 8 * i + j ==> bits[f]
          {
            var bit := i * 8 + j;
            var b := TestFrame(bit);
            if !b {
              LowestClearIsUnique(bits, M.RESERVED, end, bit);
              return bit;
            }
          }
        } else {
          SkipFullByte(bitmap[..], i);
        }
        i := i + 1;
      }
      LowestClearIsUnique(bits, M.RESERVED, end, end);
      return -1;
    }

    method TakeFrame(frame: nat)
      requires Shape() && frame < M.FRAMES
      modifies this`usedBlocks, bitmap
      ensures Shape() && maxBlocks == old(maxBlocks)
      ensures State() == old(State()).(bits := old(State()).bits[frame := true],
                                       usedBlocks := Wrap32(old(usedBlocks) + 1))
    {
      SetFrame(frame);
      usedBlocks := Wrap32(usedBlocks + 1);
    }

    /** The physical address of the granted frame, 0 when there is none. */
    method AllocBlock() returns (address: u32)
      requires Shape() && M.Inv(State())
      modifies this, bitmap
      ensures Shape() && M.Inv(State())
      ensures var (s, g) := M.Alloc(old(State()));
        State() == s && address == if g.NoFrame? then 0 else g.number * M.PAGE_SIZE
    {
      M.AllocKeeps(State());
      if usedBlocks >= maxBlocks {
        return 0;
      }
      var frame := FindFirstFree();
      if frame == -1 {
        return 0;
      }
      TakeFrame(frame);
      return frame * M.PAGE_SIZE;
    }

    method FreeBlock(address: u32)
      requires Shape() && M.Inv(State())
      modifies this, bitmap
      ensures Shape() && State() == M.Free(old(State()), address)
      ensures M.Inv(State()) <==>
        !M.Tracked(old(State()), address / M.PAGE_SIZE) || old(State()).bits[address / M.PAGE_SIZE]
    {
      M.FreeKeeps(State(), address);
      var frame := address / M.PAGE_SIZE;
      if frame < M.RESERVED {
        return;
      }
      if frame >= maxBlocks {
        return;
      }
      ClearFrame(frame);
      usedBlocks := Wrap32(usedBlocks - 1);
    }
  }
}
