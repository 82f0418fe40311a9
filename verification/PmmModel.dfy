/** The physical frame allocator: its bitmap after boot, and its counted allocation and release. */
module PmmModel {
  import opened Machine
  import opened Bitmap

  const PAGE_SIZE := 4096
  const FRAMES := 8192
  const RESERVED := 1024

  /** One entry of the Multiboot memory map (section 3.3 of the Multiboot Specification). */
  datatype Region = Region(baseLow: u32, baseHigh: u32, lengthLow: u32, lengthHigh: u32, kind: u32)

  /** An entry as it lies in memory, behind the field that says how far away the next one is. */
  datatype Entry = Entry(size: u32, region: Region)

  /** The Multiboot information the allocator reads: flag bits 6 and 0, what they announce, and the entry at each address. */
  datatype Multiboot = Multiboot(
    hasMap: bool, hasMemory: bool, memLower: u32, memUpper: u32,
    mmapAddr: u32, mmapLength: u32, memory: u32 -> Entry)

  datatype Pmm = Pmm(bits: seq<bool>, maxBlocks: nat, usedBlocks: u32)

  // ----- walking the memory map

  function NextEntry(memory: u32 -> Entry, addr: u32): u32 {
    Wrap32(addr + memory(addr).size + 4)
  }

  /** The walk from addr always moves forward, so that it ends. */
  predicate Advances(memory: u32 -> Entry, addr: u32, end: u32)
    decreases if addr < end then end - addr else 0
  {
    addr < end ==> NextEntry(memory, addr) > addr && Advances(memory, NextEntry(memory, addr), end)
  }

  /** The entries that the walk from addr visits before end. */
  function Walk(memory: u32 -> Entry, addr: u32, end: u32): seq<Region>
    decreases if addr < end then end - addr else 0
  {
    if addr >= end then []
    else
      var next := NextEntry(memory, addr);
      [memory(addr).region] + (if next > addr then Walk(memory, next, end) else [])
  }

  function MapEnd(m: Multiboot): u32 {
    Wrap32(m.mmapAddr + m.mmapLength)
  }

  function Regions(m: Multiboot): seq<Region> {
    Walk(m.memory, m.mmapAddr, MapEnd(m))
  }

  /** A map, if there is one, whose walk ends. */
  predicate WalkEnds(m: Multiboot) {
    m.hasMap ==> Advances(m.memory, m.mmapAddr, MapEnd(m))
  }

  /** The entries seen so far, and those from addr on, are the whole map. */
  ghost predicate Visited(m: Multiboot, seen: seq<Region>, addr: u32) {
    Advances(m.memory, addr, MapEnd(m)) && seen + Walk(m.memory, addr, MapEnd(m)) == Regions(m)
  }

  lemma WalkStep(memory: u32 -> Entry, addr: u32, end: u32)
    requires addr < end && Advances(memory, addr, end)
    ensures NextEntry(memory, addr) > addr && Advances(memory, NextEntry(memory, addr), end)
    ensures Walk(memory, addr, end) == [memory(addr).region] + Walk(memory, NextEntry(memory, addr), end)
  {
  }

  lemma MoveOne(seen: seq<Region>, r: Region, rest: seq<Region>)
    ensures seen + ([r] + rest) == seen + [r] + rest
  {
  }

  lemma VisitNext(m: Multiboot, seen: seq<Region>, addr: u32)
    requires Visited(m, seen, addr) && addr < MapEnd(m)
    ensures var more := seen + [m.memory(addr).region];
      NextEntry(m.memory, addr) > addr && Visited(m, more, NextEntry(m.memory, addr))
  {
    WalkStep(m.memory, addr, MapEnd(m));
    MoveOne(seen, m.memory(addr).region, Walk(m.memory, NextEntry(m.memory, addr), MapEnd(m)));
  }

  lemma VisitedAll(m: Multiboot, seen: seq<Region>, addr: u32)
    requires Visited(m, seen, addr) && addr >= MapEnd(m)
    ensures seen == Regions(m)
  {
  }

  /** Entries lie one behind the other from addr to end, each as far from the next as it says. */
  ghost predicate LaidOut(memory: u32 -> Entry, addr: nat, es: seq<Entry>, end: u32)
    decreases |es|
  {
    if es == [] then addr == end
    else addr < end && memory(addr) == es[0] && LaidOut(memory, addr + es[0].size + 4, es[1..], end)
  }

  function RegionsOf(es: seq<Entry>): seq<Region> {
    seq(|es|, i requires 0 <= i < |es| => es[i].region)
  }

  /** The walk over a map that is laid out like that ends, and visits exactly its entries, in order. */
  lemma {:induction false} WalkReads(memory: u32 -> Entry, addr: u32, es: seq<Entry>, end: u32)
    requires LaidOut(memory, addr, es, end)
    ensures Advances(memory, addr, end) && Walk(memory, addr, end) == RegionsOf(es)
    decreases |es|
  {
    if es != [] {
      var next := addr + es[0].size + 4;
      LaidOutWithin(memory, next, es[1..], end);
      assert NextEntry(memory, addr) == next;
      WalkReads(memory, next, es[1..], end);
      assert RegionsOf(es) == [es[0].region] + RegionsOf(es[1..]);
    } else {
      assert RegionsOf(es) == [];
    }
  }

  /** A Multiboot map of the announced length is read in full. */
  lemma MapReads(m: Multiboot, es: seq<Entry>)
    requires m.mmapAddr + m.mmapLength < 0x1_0000_0000
    requires LaidOut(m.memory, m.mmapAddr, es, m.mmapAddr + m.mmapLength)
    ensures WalkEnds(m) && Regions(m) == RegionsOf(es)
  {
    WalkReads(m.memory, m.mmapAddr, es, MapEnd(m));
  }

  lemma LaidOutWithin(memory: u32 -> Entry, addr: nat, es: seq<Entry>, end: u32)
    requires LaidOut(memory, addr, es, end)
    ensures addr <= end
  {
  }

  // ----- building the bitmap at boot

  function FirstFrame(base: u32): nat {
    base / PAGE_SIZE
  }

  /** The end of the outward-rounded range, with both additions in 32 bits. */
  function EndFrame(base: u32, length: u32): nat {
    Wrap32(Wrap32(base + length) + PAGE_SIZE - 1) / PAGE_SIZE
  }

  function Mark(bits: seq<bool>, maxBlocks: nat, base: u32, length: u32, used: bool): (r: seq<bool>)
    ensures |r| == |bits|
  {
    seq(|bits|, f requires 0 <= f < |bits| =>
      if FirstFrame(base) <= f < EndFrame(base, length) && f < maxBlocks then used else bits[f])
  }

  /** Entries are applied in order; those based above 4 GiB are skipped. */
  function MarkRegions(bits: seq<bool>, maxBlocks: nat, rs: seq<Region>): (r: seq<bool>)
    ensures |r| == |bits|
  {
    if rs == [] then bits
    else
      var before := MarkRegions(bits, maxBlocks, rs[..|rs| - 1]);
      var last := rs[|rs| - 1];
      if last.baseHigh == 0 then Mark(before, maxBlocks, last.baseLow, last.lengthLow, last.kind != 1) else before
  }

  function HighestEnd(rs: seq<Region>): u32 {
    if rs == [] then 0
    else
      var before := HighestEnd(rs[..|rs| - 1]);
      var last := rs[|rs| - 1];
      var end := Wrap32(last.baseLow + last.lengthLow);
      if last.baseHigh == 0 && end > before then end else before
  }

  lemma HighestEndNext(seen: seq<Region>, r: Region)
    ensures var end := Wrap32(r.baseLow + r.lengthLow);
      HighestEnd(seen + [r]) == if r.baseHigh == 0 && end > HighestEnd(seen) then end else HighestEnd(seen)
  {
    assert (seen + [r])[..|seen + [r]| - 1] == seen;
  }

  lemma MarkRegionsNext(bits: seq<bool>, maxBlocks: nat, seen: seq<Region>, r: Region)
    ensures var before := MarkRegions(bits, maxBlocks, seen);
      MarkRegions(bits, maxBlocks, seen + [r])
        == if r.baseHigh == 0 then Mark(before, maxBlocks, r.baseLow, r.lengthLow, r.kind != 1) else before
  {
    assert (seen + [r])[..|seen + [r]| - 1] == seen;
  }

  function MemoryBytes(m: Multiboot): u32 {
    Wrap32((m.memLower + m.memUpper + 1024) * 1024)
  }

  function MaxBlocks(m: Multiboot): (n: nat)
    ensures RESERVED <= n <= FRAMES
  {
    var highest := if m.hasMap then HighestEnd(Regions(m)) else if m.hasMemory then MemoryBytes(m) else 0;
    var blocks := highest / PAGE_SIZE;
    if blocks < RESERVED then RESERVED else if blocks > FRAMES then FRAMES else blocks
  }

  function AllUsed(): seq<bool> {
    seq(FRAMES, _ => true)
  }

  function Reserve(bits: seq<bool>): (r: seq<bool>)
    ensures |r| == |bits|
  {
    seq(|bits|, f requires 0 <= f < |bits| => f < RESERVED || bits[f])
  }

  /** The bitmap after the memory map, or else the plain memory size, has been applied. */
  function Mapped(m: Multiboot): (r: seq<bool>)
    ensures |r| == FRAMES
  {
    if m.hasMap then MarkRegions(AllUsed(), MaxBlocks(m), Regions(m))
    else if m.hasMemory then Mark(AllUsed(), MaxBlocks(m), 0, MemoryBytes(m), false)
    else AllUsed()
  }

  function BootBits(m: Multiboot): (r: seq<bool>)
    ensures |r| == FRAMES
  {
    Reserve(Mapped(m))
  }

  function Boot(m: Multiboot): Pmm {
    Pmm(BootBits(m), MaxBlocks(m), CountSet(BootBits(m), MaxBlocks(m)))
  }

  /** The entry applies to frame f. */
  predicate Covers(r: Region, f: nat) {
    r.baseHigh == 0 && FirstFrame(r.baseLow) <= f < EndFrame(r.baseLow, r.lengthLow)
  }

  /** The last entry that covers f says it is usable RAM. */
  ghost predicate LastCoverIsRam(rs: seq<Region>, f: nat) {
    exists i :: 0 <= i < |rs| && Covers(rs[i], f) && rs[i].kind == 1
      && forall j :: i < j < |rs| ==> !Covers(rs[j], f)
  }

  lemma LastCoverStep(rs: seq<Region>, r: Region, f: nat)
    ensures LastCoverIsRam(rs + [r], f) <==> if Covers(r, f) then r.kind == 1 else LastCoverIsRam(rs, f)
  {
    var all := rs + [r];
    assert all[|rs|] == r;
    if !Covers(r, f) && LastCoverIsRam(rs, f) {
      var i :| 0 <= i < |rs| && Covers(rs[i], f) && rs[i].kind == 1
        && forall j :: i < j < |rs| ==> !Covers(rs[j], f);
      assert all[i] == rs[i];
      forall j | i < j < |all|
        ensures !Covers(all[j], f)
      {
        assert j < |rs| ==> all[j] == rs[j];
      }
    }
    if LastCoverIsRam(all, f) {
      var i :| 0 <= i < |all| && Covers(all[i], f) && all[i].kind == 1
        && forall j :: i < j < |all| ==> !Covers(all[j], f);
      if i < |rs| {
        assert all[i] == rs[i];
        forall j | i < j < |rs|
          ensures !Covers(rs[j], f)
        {
          assert all[j] == rs[j];
        }
      }
    }
  }

  lemma {:induction false} MarkedRegions(maxBlocks: nat, rs: seq<Region>, f: nat)
    requires f < maxBlocks <= FRAMES
    ensures !MarkRegions(AllUsed(), maxBlocks, rs)[f] <==> LastCoverIsRam(rs, f)
    decreases |rs|
  {
    if rs != [] {
      var init, last := rs[..|rs| - 1], rs[|rs| - 1];
      MarkedRegions(maxBlocks, init, f);
      LastCoverStep(init, last, f);
      assert rs == init + [last];
    }
  }

  lemma {:induction false} UnmarkedPastMax(maxBlocks: nat, rs: seq<Region>, f: nat)
    requires maxBlocks <= f < FRAMES
    ensures MarkRegions(AllUsed(), maxBlocks, rs)[f]
    decreases |rs|
  {
    if rs != [] {
      UnmarkedPastMax(maxBlocks, rs[..|rs| - 1], f);
    }
  }

  /** An entry based below 4 GiB ends, as computed in 32 bits, at or behind the end of frame f. */
  predicate Reaches(r: Region, f: nat) {
    r.baseHigh == 0 && (f + 1) * PAGE_SIZE <= Wrap32(r.baseLow + r.lengthLow)
  }

  ghost predicate ReachedByMap(rs: seq<Region>, f: nat) {
    exists i :: 0 <= i < |rs| && Reaches(rs[i], f)
  }

  lemma {:induction false} HighestReaches(rs: seq<Region>, f: nat)
    ensures (f + 1) * PAGE_SIZE <= HighestEnd(rs) <==> ReachedByMap(rs, f)
    decreases |rs|
  {
    if rs != [] {
      var init, last := rs[..|rs| - 1], rs[|rs| - 1];
      HighestReaches(init, f);
      assert forall i :: 0 <= i < |init| ==> rs[i] == init[i];
      assert ReachedByMap(rs, f) <==> ReachedByMap(init, f) || Reaches(last, f) by {
        if ReachedByMap(init, f) {
          var i :| 0 <= i < |init| && Reaches(init[i], f);
          assert Reaches(rs[i], f);
        }
      }
    }
  }

  /** With a map, a frame above the reserve is tracked exactly when some entry reaches its end. */
  lemma LimitIs(m: Multiboot, f: nat)
    requires m.hasMap && RESERVED <= f < FRAMES
    ensures f < Boot(m).maxBlocks <==> ReachedByMap(Regions(m), f)
  {
    HighestReaches(Regions(m), f);
  }

  /** After boot a frame is free exactly when it is above the reserve, reached, and last covered by usable RAM. */
  lemma BootFreeFrames(m: Multiboot, f: nat)
    requires m.hasMap && f < FRAMES
    ensures !Boot(m).bits[f] <==> RESERVED <= f && ReachedByMap(Regions(m), f) && LastCoverIsRam(Regions(m), f)
  {
    if f >= RESERVED {
      LimitIs(m, f);
    }
    if f < MaxBlocks(m) {
      MarkedRegions(MaxBlocks(m), Regions(m), f);
    } else {
      UnmarkedPastMax(MaxBlocks(m), Regions(m), f);
    }
  }

  /** The page frames that the entry's 64-bit base and length describe, rounded outward. */
  predicate Describes(r: Region, f: nat) {
    BaseOf(r) / PAGE_SIZE <= f < (BaseOf(r) + LengthOf(r) + PAGE_SIZE - 1) / PAGE_SIZE
  }

  function BaseOf(r: Region): nat {
    r.baseLow + 0x1_0000_0000 * r.baseHigh
  }

  function LengthOf(r: Region): nat {
    r.lengthLow + 0x1_0000_0000 * r.lengthHigh
  }

  /** The rounded range ends below 4 GiB, starts past the tracked frames, or wraps to an end past them. */
  predicate FitsLow(r: Region) {
    || BaseOf(r) + LengthOf(r) + PAGE_SIZE - 1 < 0x1_0000_0000
    || BaseOf(r) / PAGE_SIZE >= FRAMES
    || EndFrame(r.baseLow, r.lengthLow) >= FRAMES
  }

  /** The range computed from the low words agrees with the described one on all tracked frames exactly then. */
  lemma CoversIsExact(r: Region)
    ensures (forall f :: 0 <= f < FRAMES ==> (Covers(r, f) <==> Describes(r, f))) <==> FitsLow(r)
  {
    var first, end := FirstFrame(r.baseLow), EndFrame(r.baseLow, r.lengthLow);
    if !FitsLow(r) {
      assert r.baseHigh == 0;
      var f := if end < first then first else end;
      assert !Covers(r, f) && Describes(r, f);
    }
  }

  /** An entry of 4 GiB does not wrap, and yet a frame that it describes is not covered. */
  lemma LongEntryMissed(kind: u32)
    ensures var r := Region(0x40_0000, 0, 0x1000, 1, kind);
      Wrap32(r.baseLow + r.lengthLow) == r.baseLow + r.lengthLow && Describes(r, 2000) && !Covers(r, 2000)
  {
  }

  /** The last entry that describes f says it is usable RAM. */
  ghost predicate LastDescribedIsRam(rs: seq<Region>, f: nat) {
    exists i :: 0 <= i < |rs| && Describes(rs[i], f) && rs[i].kind == 1
      && forall j :: i < j < |rs| ==> !Describes(rs[j], f)
  }

  /** In a map whose entries all fit, a frame is free exactly when the map's last word on it is usable RAM. */
  lemma BootFollowsMap(m: Multiboot, f: nat)
    requires m.hasMap && f < FRAMES
    requires forall i :: 0 <= i < |Regions(m)| ==> FitsLow(Regions(m)[i])
    ensures !Boot(m).bits[f] <==> RESERVED <= f && ReachedByMap(Regions(m), f) && LastDescribedIsRam(Regions(m), f)
  {
    BootFreeFrames(m, f);
    forall i | 0 <= i < |Regions(m)|
      ensures Covers(Regions(m)[i], f) <==> Describes(Regions(m)[i], f)
    {
      CoversIsExact(Regions(m)[i]);
    }
    SameLastCover(Regions(m), f);
  }

  lemma SameLastCover(rs: seq<Region>, f: nat)
    requires forall i :: 0 <= i < |rs| ==> (Covers(rs[i], f) <==> Describes(rs[i], f))
    ensures LastCoverIsRam(rs, f) <==> LastDescribedIsRam(rs, f)
  {
    if LastCoverIsRam(rs, f) {
      var i :| 0 <= i < |rs| && Covers(rs[i], f) && rs[i].kind == 1
        && forall j :: i < j < |rs| ==> !Covers(rs[j], f);
      assert Describes(rs[i], f);
    }
    if LastDescribedIsRam(rs, f) {
      var i :| 0 <= i < |rs| && Describes(rs[i], f) && rs[i].kind == 1
        && forall j :: i < j < |rs| ==> !Describes(rs[j], f);
      assert Covers(rs[i], f);
    }
  }

  /** The memory size that the information announces, without the 32-bit wrap-around. */
  function AnnouncedBytes(m: Multiboot): nat {
    (m.memLower + m.memUpper + 1024) * 1024
  }

  lemma MarkedAt(bits: seq<bool>, maxBlocks: nat, base: u32, length: u32, used: bool, f: nat)
    requires f < |bits|
    ensures Mark(bits, maxBlocks, base, length, used)[f]
         == if FirstFrame(base) <= f < EndFrame(base, length) && f < maxBlocks then used else bits[f]
  {
  }

  /** Without a map, boot frees the tracked frames, unless rounding the computed size up wraps to nothing. */
  lemma BootFromSize(m: Multiboot, f: nat)
    requires !m.hasMap && f < FRAMES
    ensures RESERVED <= f ==> (f < Boot(m).maxBlocks <==> m.hasMemory && (f + 1) * PAGE_SIZE <= MemoryBytes(m))
    ensures !Boot(m).bits[f] <==>
      m.hasMemory && RESERVED <= f < Boot(m).maxBlocks && MemoryBytes(m) + PAGE_SIZE - 1 < 0x1_0000_0000
  {
    var size, end := MemoryBytes(m), EndFrame(0, MemoryBytes(m));
    assert Wrap32(0 + size) == size;
    MarkedAt(AllUsed(), MaxBlocks(m), 0, size, false, f);
    assert m.hasMemory && RESERVED <= f < MaxBlocks(m) ==> f < size / PAGE_SIZE;
    if size + PAGE_SIZE - 1 < 0x1_0000_0000 {
      assert end == (size + PAGE_SIZE - 1) / PAGE_SIZE >= size / PAGE_SIZE;
    } else {
      assert end == 0;
    }
  }

  /** The frame lies above the reserve and wholly inside the announced memory. */
  predicate Announced(m: Multiboot, f: nat) {
    RESERVED <= f && (f + 1) * PAGE_SIZE <= AnnouncedBytes(m)
  }

  /** Rounding up does not wrap, and the size does not wrap, or wraps to one past the tracked frames. */
  predicate SizeFits(m: Multiboot) {
    MemoryBytes(m) + PAGE_SIZE - 1 < 0x1_0000_0000
    && (AnnouncedBytes(m) < 0x1_0000_0000 || MemoryBytes(m) >= FRAMES * PAGE_SIZE)
  }

  lemma BootFollowsSize(m: Multiboot, f: nat)
    requires !m.hasMap && m.hasMemory && SizeFits(m) && f < FRAMES
    ensures !Boot(m).bits[f] <==> Announced(m, f)
  {
    BootFromSize(m, f);
    assert AnnouncedBytes(m) >= MemoryBytes(m);
  }

  /** Otherwise some whole frame of the announced memory stays in use: the first above the reserve or the last. */
  lemma SizeMissesFrame(m: Multiboot) returns (f: nat)
    requires !m.hasMap && m.hasMemory && !SizeFits(m)
    ensures f < FRAMES && Boot(m).bits[f] && Announced(m, f)
  {
    f := if MemoryBytes(m) + PAGE_SIZE - 1 < 0x1_0000_0000 then FRAMES - 1 else RESERVED;
    BootFromSize(m, f);
  }

  /** Without a map, the free frames are exactly the announced ones if and only if the size fits. */
  lemma BootFromSizeIsExact(m: Multiboot)
    requires !m.hasMap && m.hasMemory
    ensures (forall f :: 0 <= f < FRAMES ==> (!Boot(m).bits[f] <==> Announced(m, f))) <==> SizeFits(m)
  {
    if SizeFits(m) {
      forall f | 0 <= f < FRAMES
        ensures !Boot(m).bits[f] <==> Announced(m, f)
      {
        BootFollowsSize(m, f);
      }
    } else {
      var f := SizeMissesFrame(m);
    }
  }

  /** 4 GiB and 8 MiB are announced, 8 MiB are seen: a frame of that memory stays in use, and no rounding wraps. */
  lemma LargeSizeMissed(m: Multiboot)
    requires !m.hasMap && m.hasMemory && m.memLower == 0 && m.memUpper == 0x40_0000 + 7168
    ensures AnnouncedBytes(m) == 0x1_0080_0000 && MemoryBytes(m) == 0x80_0000
    ensures Announced(m, 4000) && Boot(m).bits[4000]
  {
    assert MemoryBytes(m) / PAGE_SIZE == 2048;
    BootFromSize(m, 4000);
  }

  // ----- allocation and release

  predicate Shape(s: Pmm) {
    |s.bits| == FRAMES && RESERVED <= s.maxBlocks <= FRAMES
  }

  ghost predicate Inv(s: Pmm) {
    Shape(s)
    && s.usedBlocks == CountSet(s.bits, s.maxBlocks)
    && forall f :: 0 <= f < RESERVED ==> s.bits[f]
  }

  /** The scan goes over whole bytes, so up to seven frames at the end are never handed out. */
  function ScanEnd(s: Pmm): nat {
    8 * (s.maxBlocks / 8)
  }

  datatype Grant = NoFrame | Frame(number: nat)

  function Alloc(s: Pmm): (r: (Pmm, Grant))
    requires Shape(s)
    ensures Shape(r.0)
  {
    if s.usedBlocks >= s.maxBlocks then (s, NoFrame)
    else
      var f := LowestClear(s.bits, RESERVED, ScanEnd(s));
      if f == ScanEnd(s) then (s, NoFrame)
      else (s.(bits := s.bits[f := true], usedBlocks := Wrap32(s.usedBlocks + 1)), Frame(f))
  }

  predicate Tracked(s: Pmm, f: nat) {
    RESERVED <= f < s.maxBlocks
  }

  function Free(s: Pmm, address: u32): (r: Pmm)
    requires Shape(s)
    ensures Shape(r)
  {
    var f := address / PAGE_SIZE;
    if !Tracked(s, f) then s
    else s.(bits := s.bits[f := false], usedBlocks := Wrap32(s.usedBlocks - 1))
  }

  lemma BootInv(m: Multiboot)
    ensures Inv(Boot(m))
  {
  }

  /** alloc hands out the lowest free frame of the scan range, and fails exactly when there is none. */
  lemma AllocKeeps(s: Pmm)
    requires Inv(s)
    ensures Inv(Alloc(s).0)
    ensures match Alloc(s).1
      case NoFrame =>
        Alloc(s).0 == s && forall f :: RESERVED <= f < ScanEnd(s) ==> s.bits[f]
      case Frame(f) =>
        && RESERVED <= f < ScanEnd(s) && !s.bits[f] && Alloc(s).0.bits == s.bits[f := true]
        && forall g :: RESERVED <= g < f ==> s.bits[g]
  {
    CountFull(s.bits, s.maxBlocks);
    if Alloc(s).1.Frame? {
      CountUpdate(s.bits, s.maxBlocks, Alloc(s).1.number, true);
    }
  }

  /** A frame in use that is freed is free again, nothing else changes, and the next alloc finds a frame up to it. */
  lemma FreeIs(s: Pmm, address: u32)
    requires Inv(s) && RESERVED <= address / PAGE_SIZE < s.maxBlocks && s.bits[address / PAGE_SIZE]
    ensures var f, s' := address / PAGE_SIZE, Free(s, address);
      && s'.usedBlocks + 1 == s.usedBlocks
      && s' == s.(bits := s.bits[f := false], usedBlocks := s'.usedBlocks)
      && (f < ScanEnd(s) ==> Alloc(s').1.Frame? && Alloc(s').1.number <= f)
  {
    var f, s' := address / PAGE_SIZE, Free(s, address);
    CountUpdate(s.bits, s.maxBlocks, f, false);
    FreeKeeps(s, address);
    AllocKeeps(s');
    assert ScanEnd(s') == ScanEnd(s) && !s'.bits[f];
  }

  /** Freeing the frame that alloc just handed out restores the state; freeing anything untracked changes nothing. */
  lemma FreeUndoesAlloc(s: Pmm, address: u32)
    requires Inv(s)
    ensures Alloc(s).1.Frame? && address / PAGE_SIZE == Alloc(s).1.number ==> Free(Alloc(s).0, address) == s
    ensures !(RESERVED <= address / PAGE_SIZE < s.maxBlocks) ==> Free(s, address) == s
  {
    AllocKeeps(s);
    if Alloc(s).1.Frame? && address / PAGE_SIZE == Alloc(s).1.number {
      var f := Alloc(s).1.number;
      CountUpdate(s.bits, s.maxBlocks, f, true);
      CountBound(s.bits, s.maxBlocks);
      assert s.bits[f := true][f := false] == s.bits;
    }
  }

  lemma CountBound(bits: seq<bool>, n: nat)
    requires n <= |bits|
    ensures CountSet(bits, n) <= n
  {
  }

  /** free keeps the books exactly when the frame is outside the tracked range or was in use. */
  lemma FreeKeeps(s: Pmm, address: u32)
    requires Inv(s)
    ensures Inv(Free(s, address)) <==> !Tracked(s, address / PAGE_SIZE) || s.bits[address / PAGE_SIZE]
  {
    var f := address / PAGE_SIZE;
    if Tracked(s, f) {
      CountUpdate(s.bits, s.maxBlocks, f, false);
    }
  }

  // ----- runs

  datatype PmmOp = AllocOp | FreeOp(address: u32)

  /** The allocator together with the frames its users hold. */
  datatype Pool = Pool(pmm: Pmm, held: set<nat>)

  function Step(p: Pool, op: PmmOp): (r: Pool)
    requires Shape(p.pmm)
    ensures Shape(r.pmm)
  {
    match op
    case AllocOp =>
      var (s, g) := Alloc(p.pmm);
      Pool(s, if g.Frame? then p.held + {g.number} else p.held)
    case FreeOp(address) => Pool(Free(p.pmm, address), p.held - {address / PAGE_SIZE})
  }

  ghost predicate PoolInv(p: Pool) {
    Inv(p.pmm) && forall f :: f in p.held ==> RESERVED <= f < ScanEnd(p.pmm) && p.pmm.bits[f]
  }

  /** Users only free what they hold. */
  predicate Legal(p: Pool, op: PmmOp) {
    op.FreeOp? ==> op.address / PAGE_SIZE in p.held
  }

  lemma StepKeeps(p: Pool, op: PmmOp)
    requires PoolInv(p) && Legal(p, op)
    ensures PoolInv(Step(p, op))
    ensures op.AllocOp? && Alloc(p.pmm).1.Frame? ==> Alloc(p.pmm).1.number !in p.held
  {
    if op.AllocOp? {
      AllocKeeps(p.pmm);
    } else {
      FreeKeeps(p.pmm, op.address);
    }
  }

  function Run(p: Pool, ops: seq<PmmOp>): (r: Pool)
    requires Shape(p.pmm)
    ensures Shape(r.pmm)
  {
    if ops == [] then p else Step(Run(p, ops[..|ops| - 1]), ops[|ops| - 1])
  }

  ghost predicate LegalRun(p: Pool, ops: seq<PmmOp>)
    requires Shape(p.pmm)
  {
    forall i :: 0 <= i < |ops| ==> Legal(Run(p, ops[..i]), ops[i])
  }

  lemma {:induction false} RunInvariant(p: Pool, ops: seq<PmmOp>, i: nat)
    requires PoolInv(p) && LegalRun(p, ops) && i <= |ops|
    ensures PoolInv(Run(p, ops[..i]))
  {
    if i > 0 {
      RunInvariant(p, ops, i - 1);
      assert ops[..i][..|ops[..i]| - 1] == ops[..i - 1];
      StepKeeps(Run(p, ops[..i - 1]), ops[i - 1]);
    } else {
      assert ops[..i] == [];
    }
  }

  /** In every legal run alloc returns the lowest free frame, and never one that someone holds. */
  lemma RunAllocates(p: Pool, ops: seq<PmmOp>, i: nat)
    requires PoolInv(p) && LegalRun(p, ops) && i < |ops| && ops[i].AllocOp?
    ensures var now := Run(p, ops[..i]);
      && now.pmm.usedBlocks == CountSet(now.pmm.bits, now.pmm.maxBlocks)
      && match Alloc(now.pmm).1
         case NoFrame => forall f :: RESERVED <= f < ScanEnd(now.pmm) ==> now.pmm.bits[f]
         case Frame(f) =>
           f !in now.held && f < ScanEnd(now.pmm) && !now.pmm.bits[f]
           && forall g :: RESERVED <= g < f ==> now.pmm.bits[g]
  {
    RunInvariant(p, ops, i);
    AllocKeeps(Run(p, ops[..i]).pmm);
    StepKeeps(Run(p, ops[..i]), ops[i]);
  }
}
