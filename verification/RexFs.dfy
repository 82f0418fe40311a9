/** The RexFS driver: its globals, its disk sectors and its commands, as imperative code. */
module RexFs {
  import opened Machine
  import opened Bitmap
  import opened RexFsLayout
  import opened RexFsBlocks
  import opened RexFsTree
  import opened RexFsModel
  import opened RexFsRuns
  import opened RexFsRoundTrip

  /** The bits still set once the pointers with indices in js have been released. */
  ghost function ReleaseSome(bits: Bits, data: Data, ino: Inode, js: set<nat>): Bits {
    seq(BITMAP_BITS, b requires 0 <= b < BITMAP_BITS =>
      bits[b] && forall j :: j in js && j < POINTER_COUNT ==> PtrOf(data, ino, j) != DATA_START + b)
  }

  lemma ReleaseNone(bits: Bits, data: Data, ino: Inode)
    ensures ReleaseSome(bits, data, ino, {}) == bits
  {
  }

  lemma ReleaseOneMore(bits: Bits, data: Data, ino: Inode, js: set<nat>, j: nat)
    requires j < POINTER_COUNT && PtrOf(data, ino, j) < LBA_LIMIT
    ensures var some := ReleaseSome(bits, data, ino, js);
      var p := PtrOf(data, ino, j);
      ReleaseSome(bits, data, ino, js + {j}) == if p < DATA_START then some else some[p - DATA_START := false]
  {
    var some := ReleaseSome(bits, data, ino, js);
    var p := PtrOf(data, ino, j);
    var next := if p < DATA_START then some else some[p - DATA_START := false];
    forall b | 0 <= b < BITMAP_BITS
      ensures ReleaseSome(bits, data, ino, js + {j})[b] == next[b]
    {
      assert j in js + {j};
    }
  }

  lemma ReleaseAll(bits: Bits, data: Data, ino: Inode, js: set<nat>)
    requires forall j :: 0 <= j < POINTER_COUNT && PtrOf(data, ino, j) >= DATA_START ==> j in js
    ensures ReleaseSome(bits, data, ino, js) == Release(bits, data, ino)
  {
    forall b | 0 <= b < BITMAP_BITS
      ensures ReleaseSome(bits, data, ino, js)[b] == Release(bits, data, ino)[b]
    {
    }
  }

  lemma AppendFromStep(limit: nat, w: Writer, payload: seq<byte>, k: nat, p: Progress)
    requires limit <= BITMAP_BITS && k < BlocksFor(|payload|) <= MAX_FILE_BLOCKS
    requires p == AppendBlock(limit, w, payload, k)
    ensures AppendFrom(limit, w, payload, k) == if p.Appended? then AppendFrom(limit, p.w, payload, k + 1) else p.w
    ensures p.Appended? ==> p.w.written == Min(|payload|, SECTOR_SIZE * (k + 1))
  {
  }

  lemma UnpackZero()
    ensures Unpack(seq(512, _ => 0)) == EmptyBits()
  {
    var zeros: seq<bv8> := seq(512, _ => 0);
    forall i | 0 <= i < BITMAP_BITS
      ensures Unpack(zeros)[i] == EmptyBits()[i]
    {
      FullByte(i % 8);
    }
  }

  lemma PointersInRange(fs: Fs, s: nat)
    requires Inv(fs) && fs.mounted && s < MAX_INODES && fs.inodes[s].id != 0
    ensures forall j :: 0 <= j < POINTER_COUNT ==> PtrOf(fs.data, fs.inodes[s], j) < LBA_LIMIT
    ensures fs.active.dataOffset == DATA_START
  {
    forall j | 0 <= j < POINTER_COUNT
      ensures PtrOf(fs.data, fs.inodes[s], j) < LBA_LIMIT
    {
      assert Ptr(fs.inodes, fs.data, s, j) == PtrOf(fs.data, fs.inodes[s], j);
    }
  }

  class Driver {
    // the disk: sector 1, sectors 2-9, sector 10, and the data sectors by LBA
    var superblock: Superblock
    var table: Table
    var bitmap: seq<bv8>
    var data: Data
    // the driver's globals
    var mounted: bool
    var active: Superblock
    var cwd: u16

    ghost predicate Shape()
      reads this
    {
      |bitmap| == BITMAP_BITS / 8
    }

    ghost function State(): Fs
      reads this
      requires Shape()
    {
      Fs(superblock, table, Unpack(bitmap), data, mounted, active, cwd)
    }

    ghost predicate Valid()
      reads this
    {
      Shape() && Inv(State())
    }

    // ----- scanning the inode table, sector by sector

    method Scan(q: Query) returns (slot: nat)
      ensures slot == Find(table, q)
    {
      for sector := 2 to 10
        invariant forall j :: 0 <= j < 8 * (sector - 2) ==> !Matches(q, table[j])
      {
        var sectorBuf := table[8 * (sector - 2)..8 * (sector - 1)];
        for i := 0 to 8
          invariant forall j :: 0 <= j < 8 * (sector - 2) + i ==> !Matches(q, table[j])
        {
          assert sectorBuf[i] == table[8 * (sector - 2) + i];
          if Matches(q, sectorBuf[i]) {
            FindIs(table, q, 8 * (sector - 2) + i);
            return 8 * (sector - 2) + i;
          }
        }
      }
      return MAX_INODES;
    }

    // ----- the block bitmap

    /** The scan of the allocator: full bytes are skipped, clear bits past the disk are passed over. */
    method FindFreeBlock() returns (found: bool, blockIdx: nat)
      requires Shape()
      ensures found <==> LowestClear(Unpack(bitmap), 0, AllocLimit(active.totalBlocks)) < AllocLimit(active.totalBlocks)
      ensures found ==> blockIdx == LowestClear(Unpack(bitmap), 0, AllocLimit(active.totalBlocks))
    {
      ghost var bits := Unpack(bitmap);
      ghost var limit := AllocLimit(active.totalBlocks);
      for i := 0 to 512
        invariant forall j :: 0 <= j < 8 * i && j < limit ==> bits[j]
      {
        if bitmap[i] != 0xFF {
          for bit := 0 to 8
            invariant forall j :: 0 <= j < 8 * i + bit && j < limit ==> bits[j]
          {
            assert bits[8 * i + bit] == TestBit(bitmap[i], bit);
            if bitmap[i] & Mask(bit) == 0 {
              blockIdx := i * 8 + bit;
              if blockIdx < Wrap32(active.totalBlocks - DATA_START) {
                LowestClearIsUnique(bits, 0, limit, blockIdx);
                return true, blockIdx;
              }
            }
          }
        } else {
          SkipFullByte(bitmap, i);
        }
      }
      LowestClearIsUnique(bits, 0, limit, limit);
      return false, 0;
    }

    /** The LBA of bitmap index b, in the 32 bits of the superblock's data offset. */
    function OffsetBy(b: nat): (lba: u32)
      reads this`active
      ensures active.dataOffset == DATA_START && b < BITMAP_BITS ==> lba == DATA_START + b
    {
      Wrap32(active.dataOffset + b)
    }

    method AllocateFreeBlock() returns (lba: u32)
      requires Shape()
      modifies this`bitmap
      ensures Shape()
      ensures var limit := AllocLimit(active.totalBlocks);
        var b := LowestClear(old(Unpack(bitmap)), 0, limit);
        if b == limit then lba == 0 && bitmap == old(bitmap)
        else lba == OffsetBy(b) && Unpack(bitmap) == old(Unpack(bitmap))[b := true]
    {
      var found, blockIdx := FindFreeBlock();
      if !found {
        return 0;
      }
      UnpackSet(bitmap, blockIdx);
      bitmap := bitmap[blockIdx / 8 := bitmap[blockIdx / 8] | Mask(blockIdx % 8)];
      return OffsetBy(blockIdx);
    }

    method FreeBlock(lba: nat)
      requires Shape() && lba < active.dataOffset + BITMAP_BITS
      modifies this`bitmap
      ensures Shape()
      ensures Unpack(bitmap)
           == if lba < active.dataOffset then old(Unpack(bitmap))
              else old(Unpack(bitmap))[lba - active.dataOffset := false]
    {
      if lba < active.dataOffset {
        return;
      }
      var blockIdx := lba - active.dataOffset;
      UnpackClear(bitmap, blockIdx);
      bitmap := bitmap[blockIdx / 8 := bitmap[blockIdx / 8] & !Mask(blockIdx % 8)];
    }

    /** Free the block behind pointer j of an inode, unless the pointer is empty. */
    method ReleasePointer(p: u16, ghost bits: Bits, ghost ino: Inode, ghost js: set<nat>, ghost j: nat)
      requires Shape() && active.dataOffset == DATA_START && p < LBA_LIMIT
      requires j < POINTER_COUNT && p == PtrOf(data, ino, j)
      requires Unpack(bitmap) == ReleaseSome(bits, data, ino, js)
      modifies this`bitmap
      ensures Shape() && Unpack(bitmap) == ReleaseSome(bits, data, ino, js + {j})
    {
      ReleaseOneMore(bits, data, ino, js, j);
      if p != 0 {
        FreeBlock(p);
      }
    }

    /** Free the blocks that the index block of an inode lists. */
    method ReleaseEntries(ino: Inode, ghost bits: Bits, ghost before: set<nat>) returns (ghost js: set<nat>)
      requires Shape() && active.dataOffset == DATA_START && ino.indirect != 0
      requires forall j :: 0 <= j < POINTER_COUNT ==> PtrOf(data, ino, j) < LBA_LIMIT
      requires Unpack(bitmap) == ReleaseSome(bits, data, ino, before)
      modifies this`bitmap
      ensures Shape() && Unpack(bitmap) == ReleaseSome(bits, data, ino, js) && before <= js
      ensures forall j :: DIRECT_COUNT < j < POINTER_COUNT ==> j in js
    {
      js := before;
      var index := ReadSector(data, ino.indirect);
      for k := 0 to INDEX_COUNT
        invariant Shape() && Unpack(bitmap) == ReleaseSome(bits, data, ino, js) && before <= js
        invariant forall j :: DIRECT_COUNT < j <= DIRECT_COUNT + k ==> j in js
      {
        assert PtrOf(data, ino, DIRECT_COUNT + 1 + k) == IndexEntry(index, k);
        ReleasePointer(IndexEntry(index, k), bits, ino, js, DIRECT_COUNT + 1 + k);
        js := js + {DIRECT_COUNT + 1 + k};
      }
    }

    /** Release every block an inode points to: direct, then the index entries, then the index block. */
    method ReleaseBlocks(ino: Inode)
      requires Shape() && active.dataOffset == DATA_START
      requires forall j :: 0 <= j < POINTER_COUNT ==> PtrOf(data, ino, j) < LBA_LIMIT
      modifies this`bitmap
      ensures Shape() && Unpack(bitmap) == Release(old(Unpack(bitmap)), data, ino)
    {
      ghost var bits := Unpack(bitmap);
      ghost var js: set<nat> := {};
      ReleaseNone(bits, data, ino);
      for k := 0 to DIRECT_COUNT
        invariant Shape() && Unpack(bitmap) == ReleaseSome(bits, data, ino, js)
        invariant forall j :: 0 <= j < k ==> j in js
      {
        assert PtrOf(data, ino, k) == ino.direct[k];
        ReleasePointer(ino.direct[k], bits, ino, js, k);
        js := js + {k};
      }
      if ino.indirect != 0 {
        js := ReleaseEntries(ino, bits, js);
        assert PtrOf(data, ino, DIRECT_COUNT) == ino.indirect;
        ReleasePointer(ino.indirect, bits, ino, js, DIRECT_COUNT);
        js := js + {DIRECT_COUNT};
      }
      ReleaseAll(bits, data, ino, js);
    }

    // ----- the write loop

    /** A zeroed sector buffer filled with the next chunk of the payload. */
    method FillSector(payload: seq<byte>, ghost k: nat, written: nat) returns (s: Sector, chunkSize: nat)
      requires SECTOR_SIZE * k == written < |payload|
      ensures s == ChunkSector(payload, k)
      ensures chunkSize == Min(SECTOR_SIZE, |payload| - written)
    {
      var sectorBuf := new byte[512](_ => 0);
      chunkSize := |payload| - written;
      if chunkSize > 512 {
        chunkSize := 512;
      }
      for j := 0 to chunkSize
        invariant forall i :: 0 <= i < j ==> sectorBuf[i] == payload[written + i]
        invariant forall i :: j <= i < 512 ==> sectorBuf[i] == 0
      {
        sectorBuf[j] := payload[written + j];
      }
      s := sectorBuf[..];
    }

    /** Store lba in entry k of the file's index block. */
    method PutEntry(ino: Inode, k: nat, lba: u16)
      requires k < INDEX_COUNT
      modifies this`data
      ensures data == WriteSector(old(data), ino.indirect,
                                  PutIndexEntry(ReadSector(old(data), ino.indirect), k, lba))
    {
      var indirectBuf := ReadSector(data, ino.indirect);
      indirectBuf := indirectBuf[2 * k := lba % 0x100][2 * k + 1 := lba / 0x100];
      data := WriteSector(data, ino.indirect, indirectBuf);
    }

    /** Link data block k from the inode or its index block; false when no index block can be had. */
    method LinkDataBlock(start: Inode, k: nat, lba: u16, ghost written: u32) returns (ino: Inode, linked: bool)
      requires Shape() && active.dataOffset == DATA_START && k < MAX_FILE_BLOCKS
      modifies this`bitmap, this`data
      ensures Shape()
      ensures var p := LinkBlock(AllocLimit(active.totalBlocks),
                                 Writer(old(Unpack(bitmap)), old(data), start, written), k, lba);
        p.w == Writer(Unpack(bitmap), data, ino, written) && linked == p.Appended?
    {
      ino, linked := start, true;
      if k < DIRECT_COUNT {
        ino := ino.(direct := ino.direct[k := lba]);
      } else {
        if ino.indirect == 0 {
          var index := AllocateFreeBlock();
          if index == 0 {
            return ino, false;
          }
          ino := ino.(indirect := index);
          data := WriteSector(data, index, ZeroSector());
        }
        PutEntry(ino, k - DIRECT_COUNT, lba);
      }
    }

    /** One iteration of the write loop: `more` is false when it breaks off. */
    method WriteBlock(start: Inode, payload: seq<byte>, k: nat, before: u32)
      returns (ino: Inode, written: u32, more: bool)
      requires Shape() && active.dataOffset == DATA_START
      requires k < BlocksFor(|payload|) <= MAX_FILE_BLOCKS && before == SECTOR_SIZE * k
      modifies this`bitmap, this`data
      ensures Shape()
      ensures var p := AppendBlock(AllocLimit(active.totalBlocks),
                                   Writer(old(Unpack(bitmap)), old(data), start, before), payload, k);
        p.w == Writer(Unpack(bitmap), data, ino, written) && more == p.Appended?
    {
      ino, written, more := start, before, false;
      var lba := AllocateFreeBlock();
      if lba == 0 {
        return;
      }
      var sectorBuf, chunkSize := FillSector(payload, k, before);
      data := WriteSector(data, lba, sectorBuf);
      written := before + chunkSize;
      ino, more := LinkDataBlock(start, k, lba, written);
    }

    /** Running the loop from block k, or stopping it here, ends in `goal`. */
    ghost predicate Toward(goal: Writer, ino: Inode, written: u32, payload: seq<byte>, k: nat, more: bool)
      requires Shape() && BlocksFor(|payload|) <= MAX_FILE_BLOCKS
      reads this
    {
      var w := Writer(Unpack(bitmap), data, ino, written);
      if more then
        written == Min(|payload|, SECTOR_SIZE * k) && goal == AppendFrom(AllocLimit(active.totalBlocks), w, payload, k)
      else goal == w
    }

    method WriteNext(start: Inode, payload: seq<byte>, k: nat, before: u32, ghost goal: Writer)
      returns (ino: Inode, written: u32, more: bool)
      requires Shape() && active.dataOffset == DATA_START
      requires k < BlocksFor(|payload|) <= MAX_FILE_BLOCKS && Toward(goal, start, before, payload, k, true)
      modifies this`bitmap, this`data
      ensures Shape() && Toward(goal, ino, written, payload, k + 1, more)
    {
      ghost var limit := AllocLimit(active.totalBlocks);
      ghost var w := Writer(Unpack(bitmap), data, start, before);
      AppendFromStep(limit, w, payload, k, AppendBlock(limit, w, payload, k));
      ino, written, more := WriteBlock(start, payload, k, before);
    }

    method WriteBlocks(start: Inode, payload: seq<byte>) returns (ino: Inode, written: u32)
      requires Shape() && active.dataOffset == DATA_START && BlocksFor(|payload|) <= MAX_FILE_BLOCKS
      modifies this`bitmap, this`data
      ensures Shape()
      ensures Writer(Unpack(bitmap), data, ino, written)
           == AppendFrom(AllocLimit(active.totalBlocks),
                         Writer(old(Unpack(bitmap)), old(data), start, 0), payload, 0)
    {
      ghost var goal := AppendFrom(AllocLimit(active.totalBlocks), Writer(Unpack(bitmap), data, start, 0), payload, 0);
      ino, written := start, 0;
      var k, more := 0, true;
      while k < BlocksFor(|payload|) && more
        invariant Shape() && (more ==> k <= BlocksFor(|payload|)) && Toward(goal, ino, written, payload, k, more)
      {
        ino, written, more := WriteNext(ino, payload, k, written, goal);
        k := k + 1;
      }
    }

    // ----- commands

    constructor (sb: Superblock, t: Table, b: seq<bv8>, d: Data)
      requires |b| == BITMAP_BITS / 8
      ensures Shape() && State() == Fs(sb, t, Unpack(b), d, false, Superblock(0, 0, 0, 0, 0, 0), 0)
    {
      superblock, table, bitmap, data := sb, t, b, d;
      mounted, active, cwd := false, Superblock(0, 0, 0, 0, 0, 0), 0;
    }

    /** Format the disk; the capacity is what the ATA IDENTIFY command reports. */
    method MakeFs(deviceCapacity: u32) returns (out: Outcome)
      requires Valid()
      modifies this
      ensures Shape() && Effect(State(), out) == Exec(old(State()), Mkfs(deviceCapacity))
      ensures Safe(old(State()), Mkfs(deviceCapacity)) ==> Valid()
    {
      StepInvariant(State(), Mkfs(deviceCapacity));
      var capacity := deviceCapacity;
      if capacity == 0 {
        return NoCapacity;
      }
      if capacity > 4096 {
        capacity := 4096;
      }
      superblock := Superblock(REXFS_MAGIC, REXFS_VERSION, capacity, MAX_INODES, DATA_START, 1);
      for sector := 2 to 10
        invariant Shape() && bitmap == old(bitmap) && data == old(data)
        invariant mounted == old(mounted) && active == old(active) && cwd == old(cwd)
        invariant superblock == Superblock(REXFS_MAGIC, REXFS_VERSION, capacity, MAX_INODES, DATA_START, 1)
        invariant forall i :: 0 <= i < 8 * (sector - 2) ==> table[i] == EmptyInode()
      {
        table := table[..8 * (sector - 2)] + seq(8, _ => EmptyInode()) + table[8 * (sector - 1)..];
      }
      assert table == EmptyTable();
      bitmap := seq(512, _ => 0);
      UnpackZero();
      out := Done;
    }

    method MountDisk() returns (out: Outcome)
      requires Valid()
      modifies this
      ensures Valid() && Effect(State(), out) == Exec(old(State()), Mount)
    {
      StepInvariant(State(), Mount);
      var sb := superblock;
      if sb.magic != REXFS_MAGIC {
        return NoSignature;
      }
      if sb.version != REXFS_VERSION {
        return BadVersion;
      }
      out := if sb.cleanShutdown == 0 then MountedDirty else MountedClean;
      sb := sb.(cleanShutdown := 0);
      superblock := sb;
      active := sb;
      mounted := true;
      cwd := 0;
    }

    method LosePower()
      requires Shape()
      modifies this
      ensures Shape() && State() == PoweredOff(old(State()))
    {
      mounted, active, cwd := false, Superblock(0, 0, 0, 0, 0, 0), 0;
    }

    /** Power comes back: the globals are lost, and a disk with the signature is mounted at boot. */
    method BootDisk() returns (out: Outcome)
      requires Valid()
      modifies this
      ensures Valid() && Effect(State(), out) == Exec(old(State()), Reboot)
    {
      PowerOffKeeps(State());
      LosePower();
      if superblock.magic != REXFS_MAGIC {
        return NoSignature;
      }
      out := MountDisk();
    }

    method UnmountDisk() returns (out: Outcome)
      requires Valid()
      modifies this
      ensures Valid() && Effect(State(), out) == Exec(old(State()), Unmount)
    {
      StepInvariant(State(), Unmount);
      if !mounted {
        return NotMounted;
      }
      superblock := superblock.(cleanShutdown := 1);
      mounted := false;
      cwd := 0;
      out := Done;
    }

    /** The name field of a new inode: copying stops at the end of the name or after 27 characters. */
    method CopyName(name: CString) returns (stored: CString)
      ensures stored == StoredName(name)
    {
      stored := [];
      while |stored| < |name| && |stored| < 27
        invariant |stored| <= |name| && |stored| <= 27 && stored == name[..|stored|]
      {
        stored := stored + [name[|stored|]];
      }
    }

    /** Build the new inode in its slot of the table. */
    method FillSlot(slot: nat, name: CString, kind: u16)
      requires Shape() && slot < MAX_INODES
      modifies this`table
      ensures Shape() && State() == old(State()).(inodes := old(table)[slot := NewInode(slot, kind, cwd, name)])
    {
      var stored := CopyName(name);
      table := table[slot := Inode(slot + 1, 0, kind, cwd, stored, NoBlocks(), 0)];
    }

    /** mkdir (kind 2) and touch (kind 1). */
    method CreateEntry(name: CString, kind: u16) returns (out: Outcome)
      requires Valid() && (kind == FILE || kind == DIRECTORY)
      modifies this`table
      ensures Valid() && Effect(State(), out) == Create(old(State()), name, kind)
    {
      CreateKeeps(State(), name, kind);
      if !mounted {
        return NotMounted;
      }
      if |name| == 0 {
        return Usage;
      }
      var taken := Scan(Named(cwd, name));
      if taken < MAX_INODES {
        return AlreadyExists;
      }
      var slot := Scan(FreeSlot);
      if slot == MAX_INODES {
        return TableFull;
      }
      FillSlot(slot, name, kind);
      out := Done;
    }

    method ChangeDirectory(path: CString) returns (out: Outcome)
      requires Valid()
      modifies this`cwd
      ensures Valid() && Effect(State(), out) == Exec(old(State()), Cd(path))
    {
      StepInvariant(State(), Cd(path));
      if !mounted {
        return NotMounted;
      }
      if |path| == 0 {
        return Usage;
      }
      if path == SLASH {
        cwd := 0;
        return Done;
      }
      if path == DOTDOT {
        if cwd == 0 {
          return Done;
        }
        var here := Scan(WithId(cwd));
        if here < MAX_INODES {
          cwd := table[here].parent;
        }
        return Done;
      }
      var slot := Scan(DirNamed(cwd, path));
      if slot == MAX_INODES {
        return NotFound;
      }
      cwd := table[slot].id % 0x1_0000;
      out := Done;
    }

    method RemoveEntry(name: CString) returns (out: Outcome)
      requires Valid()
      modifies this`table, this`bitmap
      ensures Valid() && Effect(State(), out) == Exec(old(State()), Rm(name))
    {
      StepInvariant(State(), Rm(name));
      if !mounted {
        return NotMounted;
      }
      if |name| == 0 {
        return Usage;
      }
      var slot := Scan(Named(cwd, name));
      if slot == MAX_INODES {
        return NotFound;
      }
      var ino := table[slot];
      if ino.kind == DIRECTORY {
        var child := Scan(ChildOf(ino.id));
        if child < MAX_INODES {
          return NotEmpty;
        }
      } else {
        PointersInRange(State(), slot);
        ReleaseBlocks(ino);
      }
      table := table[slot := table[slot].(id := 0)];
      out := Done;
    }

    // ----- write and writehex

    /** Overwrite the named file; bufferOk is false when writehex got no buffer to decode into. */
    method OverwriteFile(file: CString, payload: seq<byte>, bufferOk: bool) returns (out: Outcome)
      requires Valid() && mounted
      modifies this`table, this`bitmap, this`data
      ensures Shape() && Effect(State(), out) == WriteTo(old(State()), file, payload, bufferOk)
    {
      var slot := Scan(FileNamed(cwd, file));
      if slot == MAX_INODES {
        return NotFound;
      }
      var ino := table[slot];
      PointersInRange(State(), slot);
      ReleaseBlocks(ino);
      if !bufferOk {
        return NoBuffer;
      }
      if BlocksFor(|payload|) > 266 {
        return TooLarge;
      }
      ino := ino.(direct := NoBlocks(), indirect := 0);
      var written;
      ino, written := WriteBlocks(ino, payload);
      table := table[slot := ino.(size := written)];
      out := Done;
    }

    method WriteCommand(args: CString) returns (out: Outcome)
      requires Valid()
      modifies this`table, this`bitmap, this`data
      ensures Shape() && Effect(State(), out) == Exec(old(State()), Write(args))
      ensures Safe(old(State()), Write(args)) ==> Valid()
    {
      StepInvariant(State(), Write(args));
      if !mounted {
        return NotMounted;
      }
      if |args| == 0 {
        return Usage;
      }
      var p := SplitArgs(args);
      if p.NoPayload? {
        return MissingPayload;
      }
      out := OverwriteFile(p.file, p.payload, true);
    }

    /** bufferOk is whether kmalloc could serve the decoding buffer. */
    method WriteHexCommand(args: CString, bufferOk: bool) returns (out: Outcome)
      requires Valid()
      modifies this`table, this`bitmap, this`data
      ensures Shape() && Effect(State(), out) == Exec(old(State()), WriteHex(args, bufferOk))
      ensures Safe(old(State()), WriteHex(args, bufferOk)) ==> Valid()
    {
      StepInvariant(State(), WriteHex(args, bufferOk));
      if !mounted {
        return NotMounted;
      }
      if |args| == 0 {
        return Usage;
      }
      var p := SplitArgs(args);
      if p.NoPayload? {
        return MissingPayload;
      }
      var bytes := DecodeHex(p.payload);
      out := OverwriteFile(p.file, bytes, bufferOk);
    }

    // ----- reading

    /** The LBA of data block k: a direct pointer, or an entry of the index block. */
    method LocateBlock(ino: Inode, k: nat) returns (lba: u16)
      requires k < MAX_FILE_BLOCKS
      ensures lba == BlockPtr(data, ino, k)
    {
      if k < DIRECT_COUNT {
        return ino.direct[k];
      }
      if ino.indirect == 0 {
        return 0;
      }
      var indirectBuf := ReadSector(data, ino.indirect);
      lba := IndexEntry(indirectBuf, k - DIRECT_COUNT);
    }

    /** The block loop shared by cat and the loader: out receives the bytes in order. */
    method ReadBlocks(ino: Inode) returns (out: seq<byte>)
      requires ino.size <= SECTOR_SIZE * MAX_FILE_BLOCKS
      ensures out == Contents(data, ino)
    {
      out := [];
      var needed := BlocksFor(ino.size);
      var k := 0;
      while k < needed
        invariant k <= needed <= MAX_FILE_BLOCKS && ReadSoFar(data, ino, out, k)
      {
        var lba := LocateBlock(ino, k);
        if lba == 0 {
          ReadEnds(data, ino, out, k);
          return;
        }
        var chunk := ReadChunk(ReadSector(data, lba), ino.size - |out|);
        ReadMore(data, ino, out, k, chunk);
        out := out + chunk;
        k := k + 1;
      }
      ReadEnds(data, ino, out, k);
    }

    method ReadChunk(sectorBuf: Sector, left: nat) returns (chunk: seq<byte>)
      ensures chunk == sectorBuf[..Min(left, SECTOR_SIZE)]
    {
      var chunkSize := left;
      if chunkSize > 512 {
        chunkSize := 512;
      }
      chunk := [];
      for j := 0 to chunkSize
        invariant chunk == sectorBuf[..j]
      {
        chunk := chunk + [sectorBuf[j]];
      }
    }

    method CatFile(name: CString) returns (out: Printed)
      requires Valid()
      ensures out == Cat(State(), name)
    {
      if !mounted {
        return Refused(NotMounted);
      }
      if |name| == 0 {
        return Refused(Usage);
      }
      var slot := Scan(FileNamed(cwd, name));
      if slot == MAX_INODES {
        return Refused(NotFound);
      }
      var ino := table[slot];
      if ino.size == 0 {
        return Text([]);
      }
      assert SlotOk(table, slot);
      var bytes := ReadBlocks(ino);
      out := Text(bytes + [NEWLINE]);
    }

    /** exec up to the jump: fill a buffer of the file's size, when kmalloc serves one, and inspect its header. */
    method LoadProgram(name: CString, bufferOk: bool) returns (r: Loaded)
      requires Valid()
      ensures LoadsAs(State(), name, bufferOk, r)
    {
      if !mounted {
        return LoadRefused(NotMounted);
      }
      if |name| == 0 {
        return LoadRefused(Usage);
      }
      var slot := Scan(FileNamed(cwd, name));
      if slot == MAX_INODES {
        return LoadRefused(NotFound);
      }
      var ino := table[slot];
      if ino.size < 8 {
        return LoadRefused(NotExecutable);
      }
      if !bufferOk {
        return LoadRefused(NoBuffer);
      }
      assert SlotOk(table, slot);
      var image := FillBuffer(ino);
      r := Image(image, Inspect(image));
    }

    method FillBuffer(ino: Inode) returns (image: seq<byte>)
      requires ino.size <= SECTOR_SIZE * MAX_FILE_BLOCKS
      ensures |image| == ino.size && Contents(data, ino) <= image
    {
      var codeBuffer := new byte[ino.size];
      var bytes := ReadBlocks(ino);
      for j := 0 to |bytes|
        invariant forall i :: 0 <= i < j ==> codeBuffer[i] == bytes[i]
      {
        codeBuffer[j] := bytes[j];
      }
      image := codeBuffer[..];
    }

    // ----- pwd

    /** The ids from the current directory upwards, as many as the buffer holds. */
    method CollectIds(room: nat) returns (ids: seq<u16>)
      ensures ids == Climb(table, cwd, room)
    {
      ids := [];
      var id := cwd;
      assert Climb(table, id, room) == ids + Climb(table, id, room);
      while id != 0 && |ids| < room
        invariant Collected(table, cwd, room, ids, id)
        decreases room - |ids|
      {
        var parent := 0;
        var slot := Scan(WithId(id));
        if slot < MAX_INODES {
          parent := table[slot].parent;
        }
        CollectOne(table, cwd, room, ids, id, parent);
        ids := ids + [id];
        id := parent;
      }
      assert Climb(table, id, room - |ids|) == [];
    }

    /** The names of the collected ids, in reverse. */
    method PrintNames(ids: seq<u16>) returns (names: seq<CString>)
      ensures names == NamesDown(table, ids)
    {
      names := [];
      var d := |ids|;
      while d > 0
        invariant 0 <= d <= |ids| && names == NamesDown(table, ids[d..])
      {
        d := d - 1;
        var name: CString := [];
        var slot := Scan(WithId(ids[d]));
        if slot < MAX_INODES {
          name := table[slot].name;
        }
        assert ids[d..][1..] == ids[d + 1..];
        names := names + [name];
      }
      assert ids[0..] == ids;
    }

    method PrintPath() returns (path: Path)
      requires Shape()
      ensures path == Pwd(State())
    {
      if !mounted {
        return NoPath(NotMounted);
      }
      if cwd == 0 {
        return Components([]);
      }
      var ids := CollectIds(64);
      var names := PrintNames(ids);
      path := Components(names);
    }
  }

  /** The scan of a write command: file name up to a blank or 31 characters, blanks, payload. */
  method SplitArgs(args: CString) returns (p: Parsed)
    ensures p == ParseArgs(args)
  {
    var i := 0;
    while i < |args| && args[i] != SPACE && i < 31
      invariant i <= |args| && i <= 31 && NameEnd(args, 0) == NameEnd(args, i)
    {
      i := i + 1;
    }
    var file := args[..i];
    if i == |args| {
      return NoPayload;
    }
    ghost var end := i;
    while i < |args| && args[i] == SPACE
      invariant end <= i <= |args| && SkipSpaces(args, end) == SkipSpaces(args, i)
    {
      i := i + 1;
    }
    p := Args(file, args[i..]);
  }

  method SkipBlanks(hex: CString, start: nat) returns (j: nat)
    requires start <= |hex|
    ensures start <= j <= |hex| && HexOf(hex[j..]) == HexOf(hex[start..])
    ensures j < |hex| ==> hex[j] != SPACE
  {
    j := start;
    while j < |hex| && hex[j] == SPACE
      invariant start <= j <= |hex| && HexOf(hex[j..]) == HexOf(hex[start..])
    {
      assert hex[j..][1..] == hex[j + 1..];
      j := j + 1;
    }
  }

  /** The ids collected so far, and the climb still to do, make up the whole climb. */
  ghost predicate Collected(t: Table, cwd: u16, room: nat, ids: seq<u16>, id: u16) {
    |ids| <= room && ids + Climb(t, id, room - |ids|) == Climb(t, cwd, room)
  }

  lemma CollectOne(t: Table, cwd: u16, room: nat, ids: seq<u16>, id: u16, parent: u16)
    requires Collected(t, cwd, room, ids, id) && id != 0 && |ids| < room && parent == ParentOf(t, id)
    ensures Collected(t, cwd, room, ids + [id], parent)
  {
    assert ids + Climb(t, id, room - |ids|) == ids + [id] + Climb(t, parent, room - |ids| - 1);
  }

  /** The bytes decoded from the first j characters, and those still to come, make up the result. */
  ghost predicate Decoded(hex: CString, out: seq<byte>, j: nat) {
    j <= |hex| && 2 * |out| <= j && out + HexOf(hex[j..]) == HexOf(hex)
  }

  lemma DecodePair(hex: CString, out: seq<byte>, j: nat, val: byte)
    requires Decoded(hex, out, j) && j + 1 < |hex| && hex[j] != SPACE
    requires val == 16 * Nibble(hex[j]) + Nibble(hex[j + 1])
    ensures Decoded(hex, out + [val], j + 2)
  {
    assert hex[j..][2..] == hex[j + 2..];
    assert out + ([val] + HexOf(hex[j + 2..])) == (out + [val]) + HexOf(hex[j + 2..]);
  }

  lemma DecodeEnds(hex: CString, out: seq<byte>, j: nat)
    requires Decoded(hex, out, j) && j + 1 >= |hex| && (j < |hex| ==> hex[j] != SPACE)
    ensures out == HexOf(hex)
  {
    assert HexOf(hex[j..]) == [];
  }

  /** The decoding loop of writehex, into a buffer of len / 2 + 1 bytes. */
  method DecodeHex(hex: CString) returns (bytes: seq<byte>)
    ensures bytes == HexOf(hex)
  {
    var buffer := new byte[|hex| / 2 + 1](_ => 0);
    var n, j := 0, 0;
    ghost var done: seq<byte> := [];
    assert hex[0..] == hex;
    while j < |hex|
      invariant n <= buffer.Length && buffer[..n] == done && Decoded(hex, done, j)
      decreases |hex| - j
    {
      j := SkipBlanks(hex, j);
      if j + 1 >= |hex| {
        DecodeEnds(hex, done, j);
        return buffer[..n];
      }
      var val: byte := 16 * Nibble(hex[j]) + Nibble(hex[j + 1]);
      DecodePair(hex, done, j, val);
      buffer[n] := val;
      n, j, done := n + 1, j + 2, done + [val];
    }
    DecodeEnds(hex, done, j);
    bytes := buffer[..n];
  }

  /** After k readable blocks, out holds the file's first 512 * k bytes. */
  ghost predicate ReadSoFar(data: Data, ino: Inode, out: seq<byte>, k: nat) {
    k <= MAX_FILE_BLOCKS && ReadableFrom(data, ino, 0) == ReadableFrom(data, ino, k)
    && |out| == Min(ino.size, SECTOR_SIZE * k)
    && forall i :: 0 <= i < |out| && i < SECTOR_SIZE * MAX_FILE_BLOCKS ==> out[i] == FileByte(data, ino, i)
  }

  lemma ReadEnds(data: Data, ino: Inode, out: seq<byte>, k: nat)
    requires ReadSoFar(data, ino, out, k)
    requires k >= BlocksFor(ino.size) || k == MAX_FILE_BLOCKS || BlockPtr(data, ino, k) == 0
    ensures out == Contents(data, ino)
  {
    assert ReadableFrom(data, ino, 0) == k;
  }

  lemma ReadMore(data: Data, ino: Inode, out: seq<byte>, k: nat, chunk: seq<byte>)
    requires ReadSoFar(data, ino, out, k) && k < BlocksFor(ino.size) && k < MAX_FILE_BLOCKS
    requires BlockPtr(data, ino, k) != 0
    requires chunk == ReadSector(data, BlockPtr(data, ino, k))[..Min(ino.size - |out|, SECTOR_SIZE)]
    ensures ReadSoFar(data, ino, out + chunk, k + 1)
  {
    forall i | |out| <= i < |out| + |chunk|
      ensures (out + chunk)[i] == FileByte(data, ino, i)
    {
      assert i / SECTOR_SIZE == k && i % SECTOR_SIZE == i - SECTOR_SIZE * k;
    }
  }
}
