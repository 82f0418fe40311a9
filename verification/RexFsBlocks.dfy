/** Block allocation, release and the write loop of RexFS, and who owns which block. */
module RexFsBlocks {
  import opened Machine
  import opened Bitmap
  import opened RexFsLayout

  // ----- allocation and release

  /** Bitmap indices below this bound may be handed out; the subtraction is unsigned. */
  function AllocLimit(totalBlocks: u32): (r: nat)
    ensures r <= BITMAP_BITS
  {
    Min(BITMAP_BITS, Wrap32(totalBlocks - DATA_START))
  }

  ghost predicate Owns(data: Data, ino: Inode, lba: nat) {
    exists j :: 0 <= j < POINTER_COUNT && PtrOf(data, ino, j) == lba
  }

  /** The bitmap once every block the inode points to has been released. */
  ghost function Release(bits: Bits, data: Data, ino: Inode): Bits {
    seq(BITMAP_BITS, b requires 0 <= b < BITMAP_BITS => bits[b] && !Owns(data, ino, DATA_START + b))
  }

  function Unlinked(ino: Inode): Inode {
    ino.(direct := NoBlocks(), indirect := 0)
  }

  // ----- the write loop

  datatype Writer = Writer(bits: Bits, data: Data, ino: Inode, written: u32)

  datatype Progress =
    | Appended(w: Writer)
    | DiskFull(w: Writer)
    | IndexLost(w: Writer)  // a data block was taken, but none was left for the index block

  function Claim(w: Writer, b: nat, s: Sector): Writer
    requires b < BITMAP_BITS
  {
    w.(bits := w.bits[b := true], data := WriteSector(w.data, DATA_START + b, s))
  }

  function LinkDirect(w: Writer, k: nat, lba: u16): Writer
    requires k < DIRECT_COUNT
  {
    w.(ino := w.ino.(direct := w.ino.direct[k := lba]))
  }

  function LinkEntry(w: Writer, k: nat, lba: u16): Writer
    requires k < INDEX_COUNT
  {
    w.(data := WriteSector(w.data, w.ino.indirect,
                           PutIndexEntry(ReadSector(w.data, w.ino.indirect), k, lba)))
  }

  /** Linking data block k: directly, or through the index block, which may have to be allocated first. */
  function LinkBlock(limit: nat, w: Writer, k: nat, lba: u16): Progress
    requires limit <= BITMAP_BITS && k < MAX_FILE_BLOCKS
  {
    if k < DIRECT_COUNT then Appended(LinkDirect(w, k, lba))
    else if w.ino.indirect != 0 then Appended(LinkEntry(w, k - DIRECT_COUNT, lba))
    else
      var c := LowestClear(w.bits, 0, limit);
      if c == limit then IndexLost(w) else
      var w2 := Claim(w, c, ZeroSector());
      Appended(LinkEntry(w2.(ino := w2.ino.(indirect := DATA_START + c)), k - DIRECT_COUNT, lba))
  }

  /** One iteration: block k of the payload. */
  function AppendBlock(limit: nat, w: Writer, payload: seq<byte>, k: nat): Progress
    requires limit <= BITMAP_BITS && k < MAX_FILE_BLOCKS
  {
    var b := LowestClear(w.bits, 0, limit);
    if b == limit then DiskFull(w) else
    LinkBlock(limit, Claim(w, b, ChunkSector(payload, k)).(written := Min(|payload|, SECTOR_SIZE * (k + 1))),
              k, DATA_START + b)
  }

  function AppendFrom(limit: nat, w: Writer, payload: seq<byte>, k: nat): Writer
    requires limit <= BITMAP_BITS && BlocksFor(|payload|) <= MAX_FILE_BLOCKS
    decreases MAX_FILE_BLOCKS - k, |payload|
  {
    if k >= BlocksFor(|payload|) then w
    else
      var p := AppendBlock(limit, w, payload, k);
      if p.Appended? then AppendFrom(limit, p.w, payload, k + 1) else p.w
  }

  // ----- ownership

  predicate InData(p: nat, limit: nat) {
    DATA_START <= p < DATA_START + limit
  }

  /** Every pointer of a live inode names a data block of the disk whose bitmap bit is set. */
  ghost predicate PointersMarked(t: Table, bits: Bits, data: Data, limit: nat)
    requires limit <= BITMAP_BITS
  {
    forall s, j :: 0 <= s < MAX_INODES && 0 <= j < POINTER_COUNT && Ptr(t, data, s, j) != 0 ==>
      InData(Ptr(t, data, s, j), limit) && bits[Ptr(t, data, s, j) - DATA_START]
  }

  /** No block is referenced twice, within a file or across files. */
  ghost predicate Unshared(t: Table, data: Data) {
    forall s, j, s', j' ::
      (&& 0 <= s < MAX_INODES && 0 <= j < POINTER_COUNT && 0 <= s' < MAX_INODES && 0 <= j' < POINTER_COUNT
       && Ptr(t, data, s, j) != 0 && Ptr(t, data, s, j) == Ptr(t, data, s', j'))
      ==> s == s' && j == j'
  }

  ghost predicate Owned(t: Table, bits: Bits, data: Data, limit: nat)
    requires limit <= BITMAP_BITS
  {
    PointersMarked(t, bits, data, limit) && Unshared(t, data)
  }

  ghost predicate Referenced(t: Table, data: Data, lba: nat) {
    exists s, j :: 0 <= s < MAX_INODES && 0 <= j < POINTER_COUNT && Ptr(t, data, s, j) == lba
  }

  /** The bitmap indices that are marked although no live inode references their block. */
  ghost function Leaked(t: Table, bits: Bits, data: Data): (r: set<nat>)
    ensures forall b :: b in r <==> 0 <= b < BITMAP_BITS && bits[b] && !Referenced(t, data, DATA_START + b)
  {
    set b | 0 <= b < BITMAP_BITS && bits[b] && !Referenced(t, data, DATA_START + b)
  }

  /** The set stays the same, or gains exactly one element. */
  ghost predicate Grows(before: set<nat>, after: set<nat>, gains: bool) {
    if gains then exists b :: b !in before && after == before + {b} else after == before
  }

  /** Slot s kept its inode, its pointers and every sector it points to. */
  ghost predicate FileKept(t: Table, data: Data, t': Table, data': Data, s: nat)
    requires s < MAX_INODES
  {
    t'[s] == t[s]
    && forall j :: 0 <= j < POINTER_COUNT ==>
         Ptr(t', data', s, j) == Ptr(t, data, s, j)
         && (Ptr(t, data, s, j) != 0 ==>
               ReadSector(data', Ptr(t, data, s, j)) == ReadSector(data, Ptr(t, data, s, j)))
  }

  ghost predicate OthersKept(t: Table, data: Data, t': Table, data': Data, s: nat) {
    forall o :: 0 <= o < MAX_INODES && o != s ==> FileKept(t, data, t', data', o)
  }

  lemma OthersKeptTrans(t: Table, d: Data, t1: Table, d1: Data, t2: Table, d2: Data, s: nat)
    requires OthersKept(t, d, t1, d1, s) && OthersKept(t1, d1, t2, d2, s)
    ensures OthersKept(t, d, t2, d2, s)
  {
    forall o | 0 <= o < MAX_INODES && o != s
      ensures FileKept(t, d, t2, d2, o)
    {
      assert FileKept(t, d, t1, d1, o) && FileKept(t1, d1, t2, d2, o);
    }
  }

  /** A free block is referenced by nobody, so it can be overwritten unseen. */
  lemma ClaimKeeps(t: Table, bits: Bits, data: Data, limit: nat, b: nat, sec: Sector)
    requires limit <= BITMAP_BITS && Owned(t, bits, data, limit)
    requires b < limit && !bits[b]
    ensures var data' := WriteSector(data, DATA_START + b, sec);
      && Owned(t, bits[b := true], data', limit)
      && !Referenced(t, data', DATA_START + b)
      && (forall s :: 0 <= s < MAX_INODES ==> FileKept(t, data, t, data', s))
  {
    var lba := DATA_START + b;
    var data' := WriteSector(data, lba, sec);
    forall s, j | 0 <= s < MAX_INODES && 0 <= j < POINTER_COUNT
      ensures Ptr(t, data', s, j) == Ptr(t, data, s, j) != lba
    {
      assert Ptr(t, data, s, DIRECT_COUNT) != lba;
      assert Ptr(t, data, s, j) != lba;
    }
    forall s | 0 <= s < MAX_INODES
      ensures FileKept(t, data, t, data', s)
    {
    }
  }

  /** A marked block is leaked until it is referenced. */
  lemma LeakedAfterLink(t: Table, data: Data, t': Table, data': Data, bits: Bits, lba: nat)
    requires lba >= DATA_START
    requires forall x {:trigger Referenced(t', data', x)} :: x != 0 ==>
      (Referenced(t', data', x) <==> Referenced(t, data, x) || x == lba)
    ensures Leaked(t', bits, data') == Leaked(t, bits, data) - {lba - DATA_START}
  {
  }

  /** Setting one empty pointer adds one reference. */
  lemma LinkReferences(t: Table, data: Data, t': Table, data': Data, s0: nat, j0: nat, lba: u16)
    requires s0 < MAX_INODES && j0 < POINTER_COUNT && Ptr(t, data, s0, j0) == 0
    requires forall s, j :: 0 <= s < MAX_INODES && 0 <= j < POINTER_COUNT ==>
      Ptr(t', data', s, j) == if s == s0 && j == j0 then lba else Ptr(t, data, s, j)
    ensures forall x {:trigger Referenced(t', data', x)} :: x != 0 ==>
      (Referenced(t', data', x) <==> Referenced(t, data, x) || x == lba)
  {
    forall x | x != 0
      ensures Referenced(t', data', x) <==> Referenced(t, data, x) || x == lba
    {
      if Referenced(t, data, x) {
        var s, j :| 0 <= s < MAX_INODES && 0 <= j < POINTER_COUNT && Ptr(t, data, s, j) == x;
        assert Ptr(t', data', s, j) == x;
      }
      if x == lba {
        assert Ptr(t', data', s0, j0) == x;
      }
      if Referenced(t', data', x) && x != lba {
        var s, j :| 0 <= s < MAX_INODES && 0 <= j < POINTER_COUNT && Ptr(t', data', s, j) == x;
        assert Ptr(t, data, s, j) == x;
      }
    }
  }

  /** Linking one unreferenced, marked block at an empty pointer keeps ownership exclusive. */
  lemma LinkKeeps(t: Table, data: Data, t': Table, data': Data, bits: Bits, limit: nat, s0: nat, j0: nat, lba: u16)
    requires limit <= BITMAP_BITS && Owned(t, bits, data, limit)
    requires s0 < MAX_INODES && j0 < POINTER_COUNT && Ptr(t, data, s0, j0) == 0
    requires InData(lba, limit) && bits[lba - DATA_START] && !Referenced(t, data, lba)
    requires forall s, j :: 0 <= s < MAX_INODES && 0 <= j < POINTER_COUNT ==>
      Ptr(t', data', s, j) == if s == s0 && j == j0 then lba else Ptr(t, data, s, j)
    ensures Owned(t', bits, data', limit)
    ensures Leaked(t', bits, data') == Leaked(t, bits, data) - {lba - DATA_START}
    ensures forall x {:trigger Referenced(t', data', x)} :: x != 0 ==>
      (Referenced(t', data', x) <==> Referenced(t, data, x) || x == lba)
  {
    forall s, j | 0 <= s < MAX_INODES && 0 <= j < POINTER_COUNT
      ensures Ptr(t, data, s, j) != lba
    {
    }
    LinkReferences(t, data, t', data', s0, j0, lba);
    LeakedAfterLink(t, data, t', data', bits, lba);
  }

  // ----- one iteration of the write loop

  /** The table as it will be once the writer's inode is stored in slot s. */
  function Commit(t: Table, s: nat, w: Writer): Table
    requires s < MAX_INODES
  {
    t[s := w.ino]
  }

  ghost function LeakedBy(t: Table, s: nat, w: Writer): set<nat>
    requires s < MAX_INODES
  {
    Leaked(Commit(t, s, w), w.bits, w.data)
  }

  /** The blocks of every file, with the writer's inode in slot s, are exclusively owned. */
  ghost predicate WriterOwned(t: Table, s: nat, w: Writer, limit: nat) {
    limit <= BITMAP_BITS && s < MAX_INODES && w.ino.id != 0
    && Owned(Commit(t, s, w), w.bits, w.data, limit)
  }

  /** The step from w to w' left every file other than slot s alone. */
  ghost predicate WriterFramed(t: Table, s: nat, w: Writer, w': Writer)
    requires s < MAX_INODES
  {
    OthersKept(Commit(t, s, w), w.data, Commit(t, s, w'), w'.data, s)
    && w'.ino == w.ino.(direct := w'.ino.direct, indirect := w'.ino.indirect)
  }

  /** The writer's file gained pointer j0, to lba, and its other pointers and data blocks are as before. */
  ghost predicate Gained(w: Writer, w': Writer, j0: nat, lba: u16) {
    (forall j :: 0 <= j < POINTER_COUNT ==>
       PtrOf(w'.data, w'.ino, j) == if j == j0 then lba else PtrOf(w.data, w.ino, j))
    && (forall j :: 0 <= j < POINTER_COUNT && j != DIRECT_COUNT && PtrOf(w.data, w.ino, j) != 0 ==>
       ReadSector(w'.data, PtrOf(w.data, w.ino, j)) == ReadSector(w.data, PtrOf(w.data, w.ino, j)))
  }

  /** lba is taken from the bitmap and not linked from anywhere yet. */
  ghost predicate Pending(t: Table, s: nat, w: Writer, limit: nat, lba: nat)
    requires s < MAX_INODES
  {
    limit <= BITMAP_BITS && InData(lba, limit) && w.bits[lba - DATA_START]
    && !Referenced(Commit(t, s, w), w.data, lba)
  }

  lemma ClaimStep(t: Table, s: nat, w: Writer, limit: nat, b: nat, sec: Sector)
    requires WriterOwned(t, s, w, limit) && b < limit && !w.bits[b]
    ensures var w' := Claim(w, b, sec);
      && WriterOwned(t, s, w', limit)
      && WriterFramed(t, s, w, w')
      && Pending(t, s, w', limit, DATA_START + b)
      && Gained(w, w', POINTER_COUNT, 0)
      && ReadSector(w'.data, DATA_START + b) == sec
      && LeakedBy(t, s, w') == LeakedBy(t, s, w) + {b}
      && (forall x :: Pending(t, s, w, limit, x) ==>
            Pending(t, s, w', limit, x) && ReadSector(w'.data, x) == ReadSector(w.data, x))
      && (forall x :: Referenced(Commit(t, s, w), w.data, x) <==> Referenced(Commit(t, s, w'), w'.data, x))
  {
    var T := Commit(t, s, w);
    var w' := Claim(w, b, sec);
    ClaimKeeps(T, w.bits, w.data, limit, b, sec);
    assert FileKept(T, w.data, T, w'.data, s);
    forall j | 0 <= j < POINTER_COUNT
      ensures PtrOf(w'.data, w'.ino, j) == PtrOf(w.data, w.ino, j)
      ensures PtrOf(w.data, w.ino, j) != 0 ==>
        ReadSector(w'.data, PtrOf(w.data, w.ino, j)) == ReadSector(w.data, PtrOf(w.data, w.ino, j))
    {
      assert Ptr(T, w'.data, s, j) == Ptr(T, w.data, s, j);
    }
    SameReferences(T, w.data, w'.data);
  }

  lemma SameReferences(t: Table, d: Data, d': Data)
    requires forall s :: 0 <= s < MAX_INODES ==> FileKept(t, d, t, d', s)
    ensures forall x :: Referenced(t, d, x) <==> Referenced(t, d', x)
  {
    forall x
      ensures Referenced(t, d, x) <==> Referenced(t, d', x)
    {
      forall s, j | 0 <= s < MAX_INODES && 0 <= j < POINTER_COUNT
        ensures Ptr(t, d, s, j) == Ptr(t, d', s, j)
      {
        assert FileKept(t, d, t, d', s);
      }
      if Referenced(t, d, x) {
        var s, j :| 0 <= s < MAX_INODES && 0 <= j < POINTER_COUNT && Ptr(t, d, s, j) == x;
        assert Ptr(t, d', s, j) == x;
      }
      if Referenced(t, d', x) {
        var s, j :| 0 <= s < MAX_INODES && 0 <= j < POINTER_COUNT && Ptr(t, d', s, j) == x;
        assert Ptr(t, d, s, j) == x;
      }
    }
  }

  /** Everything LinkKeeps needs, once the writer's own pointers are known to have gained only j0. */
  lemma LinkStep(t: Table, s: nat, w: Writer, w': Writer, limit: nat, j0: nat, lba: u16)
    requires WriterOwned(t, s, w, limit) && Pending(t, s, w, limit, lba)
    requires j0 < POINTER_COUNT && PtrOf(w.data, w.ino, j0) == 0
    requires w'.bits == w.bits && WriterFramed(t, s, w, w') && Gained(w, w', j0, lba)
    ensures WriterOwned(t, s, w', limit)
    ensures LeakedBy(t, s, w') == LeakedBy(t, s, w) - {lba - DATA_START}
    ensures forall x {:trigger Pending(t, s, w', limit, x)} ::
      Pending(t, s, w, limit, x) && x != lba ==> Pending(t, s, w', limit, x)
    ensures forall x {:trigger Referenced(Commit(t, s, w'), w'.data, x)} :: x != 0 ==>
      (Referenced(Commit(t, s, w'), w'.data, x) <==> Referenced(Commit(t, s, w), w.data, x) || x == lba)
  {
    var T, T' := Commit(t, s, w), Commit(t, s, w');
    forall o, j | 0 <= o < MAX_INODES && 0 <= j < POINTER_COUNT
      ensures Ptr(T', w'.data, o, j) == if o == s && j == j0 then lba else Ptr(T, w.data, o, j)
    {
      if o != s {
        assert FileKept(T, w.data, T', w'.data, o);
      } else {
        assert PtrOf(w'.data, w'.ino, j) == if j == j0 then lba else PtrOf(w.data, w.ino, j);
      }
    }
    LinkKeeps(T, w.data, T', w'.data, w.bits, limit, s, j0, lba);
  }

  lemma LinkDirectStep(t: Table, s: nat, w: Writer, limit: nat, k: nat, lba: u16)
    requires WriterOwned(t, s, w, limit) && Pending(t, s, w, limit, lba)
    requires k < DIRECT_COUNT && w.ino.direct[k] == 0
    ensures var w' := LinkDirect(w, k, lba);
      && WriterOwned(t, s, w', limit) && WriterFramed(t, s, w, w') && Gained(w, w', k, lba)
      && LeakedBy(t, s, w') == LeakedBy(t, s, w) - {lba - DATA_START}
  {
    var w' := LinkDirect(w, k, lba);
    assert OthersKept(Commit(t, s, w), w.data, Commit(t, s, w'), w'.data, s);
    LinkStep(t, s, w, w', limit, k, lba);
  }

  lemma LinkIndexStep(t: Table, s: nat, w: Writer, limit: nat, lba: u16)
    requires WriterOwned(t, s, w, limit) && Pending(t, s, w, limit, lba)
    requires w.ino.indirect == 0 && ReadSector(w.data, lba) == ZeroSector()
    ensures var w' := w.(ino := w.ino.(indirect := lba));
      && WriterOwned(t, s, w', limit) && WriterFramed(t, s, w, w') && Gained(w, w', DIRECT_COUNT, lba)
      && (forall x {:trigger Pending(t, s, w', limit, x)} ::
            Pending(t, s, w, limit, x) && x != lba ==> Pending(t, s, w', limit, x))
      && LeakedBy(t, s, w') == LeakedBy(t, s, w) - {lba - DATA_START}
  {
    var w' := w.(ino := w.ino.(indirect := lba));
    assert OthersKept(Commit(t, s, w), w.data, Commit(t, s, w'), w'.data, s);
    forall j | 0 <= j < POINTER_COUNT
      ensures PtrOf(w'.data, w'.ino, j) == if j == DIRECT_COUNT then lba else PtrOf(w.data, w.ino, j)
    {
      if j > DIRECT_COUNT {
        IndexEntryOfZero(j - DIRECT_COUNT - 1);
      }
    }
    LinkStep(t, s, w, w', limit, DIRECT_COUNT, lba);
  }

  lemma LinkEntryStep(t: Table, s: nat, w: Writer, limit: nat, k: nat, lba: u16)
    requires WriterOwned(t, s, w, limit) && Pending(t, s, w, limit, lba)
    requires k < INDEX_COUNT && w.ino.indirect != 0 && PtrOf(w.data, w.ino, DIRECT_COUNT + 1 + k) == 0
    ensures var w' := LinkEntry(w, k, lba);
      && WriterOwned(t, s, w', limit) && WriterFramed(t, s, w, w')
      && Gained(w, w', DIRECT_COUNT + 1 + k, lba) && ReadSector(w'.data, lba) == ReadSector(w.data, lba)
      && LeakedBy(t, s, w') == LeakedBy(t, s, w) - {lba - DATA_START}
  {
    var w' := LinkEntry(w, k, lba);
    var T := Commit(t, s, w);
    var index := w.ino.indirect;
    assert Ptr(T, w.data, s, DIRECT_COUNT) == index;
    forall o | 0 <= o < MAX_INODES && o != s
      ensures FileKept(T, w.data, T, w'.data, o)
    {
      assert Ptr(T, w.data, o, DIRECT_COUNT) != index;
      forall j | 0 <= j < POINTER_COUNT
        ensures Ptr(T, w.data, o, j) != index
      {
      }
    }
    forall j | 0 <= j < POINTER_COUNT
      ensures PtrOf(w'.data, w'.ino, j) == if j == DIRECT_COUNT + 1 + k then lba else PtrOf(w.data, w.ino, j)
    {
      if j > DIRECT_COUNT {
        IndexEntryAfterPut(ReadSector(w.data, index), k, lba, j - DIRECT_COUNT - 1);
      }
    }
    forall j | 0 <= j < POINTER_COUNT && j != DIRECT_COUNT
      ensures PtrOf(w.data, w.ino, j) != index
    {
      assert Ptr(T, w.data, s, j) == PtrOf(w.data, w.ino, j);
    }
    LinkStep(t, s, w, w', limit, DIRECT_COUNT + 1 + k, lba);
  }

  // ----- the whole write loop

  /** Exactly the first k data pointers are set, each to a sector holding its chunk of the payload. */
  ghost predicate DataFilled(w: Writer, payload: seq<byte>, k: nat) {
    (forall j :: 0 <= j < MAX_FILE_BLOCKS ==> (BlockPtr(w.data, w.ino, j) != 0 <==> j < k))
    && (forall j :: 0 <= j < MAX_FILE_BLOCKS && j < k ==>
          ReadSector(w.data, BlockPtr(w.data, w.ino, j)) == ChunkSector(payload, j))
  }

  /** ... and the index block exists exactly when it is needed. */
  ghost predicate Filled(w: Writer, payload: seq<byte>, k: nat) {
    DataFilled(w, payload, k) && (w.ino.indirect != 0 <==> k > DIRECT_COUNT)
  }

  lemma FilledAfter(w: Writer, w': Writer, payload: seq<byte>, k: nat, lba: u16)
    requires k < MAX_FILE_BLOCKS && DataFilled(w, payload, k)
    requires Gained(w, w', PtrIndex(k), lba) && lba != 0
    requires ReadSector(w'.data, lba) == ChunkSector(payload, k)
    ensures DataFilled(w', payload, k + 1)
  {
    forall j | 0 <= j < MAX_FILE_BLOCKS
      ensures BlockPtr(w'.data, w'.ino, j) != 0 <==> j < k + 1
      ensures j < k + 1 ==> ReadSector(w'.data, BlockPtr(w'.data, w'.ino, j)) == ChunkSector(payload, j)
    {
      assert PtrIndex(j) == PtrIndex(k) <==> j == k;
      assert BlockPtr(w.data, w.ino, j) != 0 <==> j < k;
    }
  }

  /** Gaining nothing, or only the index block, leaves the data blocks as they were. */
  lemma FilledKept(w: Writer, w': Writer, payload: seq<byte>, k: nat, j0: nat, lba: u16)
    requires DataFilled(w, payload, k)
    requires Gained(w, w', j0, lba) && (j0 == DIRECT_COUNT || j0 == POINTER_COUNT)
    ensures DataFilled(w', payload, k)
  {
    forall j | 0 <= j < MAX_FILE_BLOCKS
      ensures BlockPtr(w'.data, w'.ino, j) == BlockPtr(w.data, w.ino, j)
      ensures j < k ==> ReadSector(w'.data, BlockPtr(w.data, w.ino, j)) == ChunkSector(payload, j)
    {
      assert PtrIndex(j) != j0;
      assert BlockPtr(w.data, w.ino, j) != 0 <==> j < k;
    }
  }

  ghost predicate StepKeeps(t: Table, s: nat, limit: nat, w: Writer, w': Writer)
  {
    WriterOwned(t, s, w', limit) && WriterFramed(t, s, w, w')
  }

  lemma StepKeepsTrans(t: Table, s: nat, limit: nat, w: Writer, w1: Writer, w2: Writer)
    requires StepKeeps(t, s, limit, w, w1) && StepKeeps(t, s, limit, w1, w2)
    ensures StepKeeps(t, s, limit, w, w2)
  {
    OthersKeptTrans(Commit(t, s, w), w.data, Commit(t, s, w1), w1.data, Commit(t, s, w2), w2.data, s);
  }

  ghost predicate AppendedOne(t: Table, s: nat, limit: nat, w: Writer, w': Writer, payload: seq<byte>, k: nat)
    requires limit <= BITMAP_BITS && s < MAX_INODES
  {
    && StepKeeps(t, s, limit, w, w')
    && Filled(w', payload, k + 1)
    && w'.written == Min(|payload|, SECTOR_SIZE * (k + 1))
    && CountClear(w'.bits, limit) == CountClear(w.bits, limit) - (if k == DIRECT_COUNT then 2 else 1)
    && LeakedBy(t, s, w') == LeakedBy(t, s, w)
  }

  /** Claiming the data block for chunk k: linked blocks, index block and other files are as before. */
  lemma ClaimData(t: Table, s: nat, limit: nat, w: Writer, payload: seq<byte>, k: nat, w1: Writer)
    requires WriterOwned(t, s, w, limit) && Filled(w, payload, k) && k < MAX_FILE_BLOCKS
    requires LowestClear(w.bits, 0, limit) < limit
    requires w1 == Claim(w, LowestClear(w.bits, 0, limit), ChunkSector(payload, k))
                     .(written := Min(|payload|, SECTOR_SIZE * (k + 1)))
    ensures StepKeeps(t, s, limit, w, w1) && Filled(w1, payload, k)
    ensures CountClear(w1.bits, limit) == CountClear(w.bits, limit) - 1
    ensures var lba := DATA_START + LowestClear(w.bits, 0, limit);
      && Pending(t, s, w1, limit, lba) && ReadSector(w1.data, lba) == ChunkSector(payload, k)
      && LeakedBy(t, s, w1) == LeakedBy(t, s, w) + {lba - DATA_START}
  {
    var b := LowestClear(w.bits, 0, limit);
    ClaimStep(t, s, w, limit, b, ChunkSector(payload, k));
    CountUpdate(w.bits, limit, b, true);
    assert Gained(w, w1, POINTER_COUNT, 0);
    FilledKept(w, w1, payload, k, POINTER_COUNT, 0);
  }

  /** Taking a block and linking it leaks nothing. */
  lemma TakenAndLinked(before: set<nat>, taken: set<nat>, linked: set<nat>, b: nat)
    requires b !in before && taken == before + {b} && linked == taken - {b}
    ensures linked == before
  {
  }

  /** The two steps for a direct block: take it, link it. */
  lemma DirectSteps(t: Table, s: nat, limit: nat, w: Writer, payload: seq<byte>, k: nat, b: nat, w1: Writer, w2: Writer)
    requires WriterOwned(t, s, w, limit) && Filled(w, payload, k) && k < DIRECT_COUNT
    requires b == LowestClear(w.bits, 0, limit) < limit
    requires w1 == Claim(w, b, ChunkSector(payload, k)).(written := Min(|payload|, SECTOR_SIZE * (k + 1)))
    requires w2 == LinkDirect(w1, k, DATA_START + b)
    ensures AppendedOne(t, s, limit, w, w2, payload, k)
  {
    ClaimData(t, s, limit, w, payload, k, w1);
    assert BlockPtr(w1.data, w1.ino, k) == 0;
    LinkDirectStep(t, s, w1, limit, k, DATA_START + b);
    FilledAfter(w1, w2, payload, k, DATA_START + b);
    StepKeepsTrans(t, s, limit, w, w1, w2);
    TakenAndLinked(LeakedBy(t, s, w), LeakedBy(t, s, w1), LeakedBy(t, s, w2), b);
  }

  lemma AppendDirect(t: Table, s: nat, limit: nat, w: Writer, payload: seq<byte>, k: nat)
    requires WriterOwned(t, s, w, limit) && Filled(w, payload, k) && k < DIRECT_COUNT
    requires LowestClear(w.bits, 0, limit) < limit
    ensures AppendBlock(limit, w, payload, k).Appended?
    ensures AppendedOne(t, s, limit, w, AppendBlock(limit, w, payload, k).w, payload, k)
  {
    var b := LowestClear(w.bits, 0, limit);
    var w1 := Claim(w, b, ChunkSector(payload, k)).(written := Min(|payload|, SECTOR_SIZE * (k + 1)));
    DirectSteps(t, s, limit, w, payload, k, b, w1, LinkDirect(w1, k, DATA_START + b));
  }

  /** Linking the waiting data block of chunk k as an entry of the index block. */
  lemma LinkEntryData(t: Table, s: nat, limit: nat, w1: Writer, payload: seq<byte>, k: nat, lba: u16, w2: Writer)
    requires WriterOwned(t, s, w1, limit) && Pending(t, s, w1, limit, lba)
    requires DIRECT_COUNT <= k < MAX_FILE_BLOCKS && DataFilled(w1, payload, k) && w1.ino.indirect != 0
    requires ReadSector(w1.data, lba) == ChunkSector(payload, k)
    requires w2 == LinkEntry(w1, k - DIRECT_COUNT, lba)
    ensures StepKeeps(t, s, limit, w1, w2) && DataFilled(w2, payload, k + 1)
    ensures LeakedBy(t, s, w2) == LeakedBy(t, s, w1) - {lba - DATA_START}
  {
    assert BlockPtr(w1.data, w1.ino, k) == 0;
    LinkEntryStep(t, s, w1, limit, k - DIRECT_COUNT, lba);
    FilledAfter(w1, w2, payload, k, lba);
  }

  /** The two steps for a later block: take it, link it. */
  lemma EntrySteps(t: Table, s: nat, limit: nat, w: Writer, payload: seq<byte>, k: nat, b: nat, w1: Writer, w2: Writer)
    requires WriterOwned(t, s, w, limit) && Filled(w, payload, k) && DIRECT_COUNT < k < MAX_FILE_BLOCKS
    requires b == LowestClear(w.bits, 0, limit) < limit
    requires w1 == Claim(w, b, ChunkSector(payload, k)).(written := Min(|payload|, SECTOR_SIZE * (k + 1)))
    requires w2 == LinkEntry(w1, k - DIRECT_COUNT, DATA_START + b)
    ensures AppendedOne(t, s, limit, w, w2, payload, k)
  {
    ClaimData(t, s, limit, w, payload, k, w1);
    LinkEntryData(t, s, limit, w1, payload, k, DATA_START + b, w2);
    StepKeepsTrans(t, s, limit, w, w1, w2);
    TakenAndLinked(LeakedBy(t, s, w), LeakedBy(t, s, w1), LeakedBy(t, s, w2), b);
  }

  lemma AppendEntry(t: Table, s: nat, limit: nat, w: Writer, payload: seq<byte>, k: nat)
    requires WriterOwned(t, s, w, limit) && Filled(w, payload, k) && DIRECT_COUNT < k < MAX_FILE_BLOCKS
    requires LowestClear(w.bits, 0, limit) < limit
    ensures AppendBlock(limit, w, payload, k).Appended?
    ensures AppendedOne(t, s, limit, w, AppendBlock(limit, w, payload, k).w, payload, k)
  {
    var b := LowestClear(w.bits, 0, limit);
    var w1 := Claim(w, b, ChunkSector(payload, k)).(written := Min(|payload|, SECTOR_SIZE * (k + 1)));
    EntrySteps(t, s, limit, w, payload, k, b, w1, LinkEntry(w1, k - DIRECT_COUNT, DATA_START + b));
  }

  /** Claiming and linking an empty index block while a data block waits to be linked. */
  lemma InstallIndex(t: Table, s: nat, limit: nat, w1: Writer, c: nat, payload: seq<byte>, lba: u16, w3: Writer)
    requires WriterOwned(t, s, w1, limit) && Filled(w1, payload, DIRECT_COUNT)
    requires Pending(t, s, w1, limit, lba) && c < limit && !w1.bits[c]
    requires w3 == Claim(w1, c, ZeroSector()).(ino := w1.ino.(indirect := DATA_START + c))
    ensures StepKeeps(t, s, limit, w1, w3)
    ensures Pending(t, s, w3, limit, lba) && ReadSector(w3.data, lba) == ReadSector(w1.data, lba)
    ensures DataFilled(w3, payload, DIRECT_COUNT)
    ensures LeakedBy(t, s, w3) == LeakedBy(t, s, w1)
    ensures CountClear(w3.bits, limit) == CountClear(w1.bits, limit) - 1
  {
    var w2 := Claim(w1, c, ZeroSector());
    ClaimStep(t, s, w1, limit, c, ZeroSector());
    CountUpdate(w1.bits, limit, c, true);
    FilledKept(w1, w2, payload, DIRECT_COUNT, POINTER_COUNT, 0);
    assert Pending(t, s, w2, limit, lba) && lba != DATA_START + c;
    LinkIndexStep(t, s, w2, limit, DATA_START + c);
    FilledKept(w2, w3, payload, DIRECT_COUNT, DIRECT_COUNT, DATA_START + c);
    StepKeepsTrans(t, s, limit, w1, w2, w3);
    TakenAndLinked(LeakedBy(t, s, w1), LeakedBy(t, s, w2), LeakedBy(t, s, w3), c);
    assert Pending(t, s, w3, limit, lba);
  }

  /** The four steps for block 10: take it, take and link the index block, link it. */
  lemma FirstEntrySteps(t: Table, s: nat, limit: nat, w: Writer, payload: seq<byte>,
                        b: nat, c: nat, w1: Writer, w3: Writer, w4: Writer)
    requires WriterOwned(t, s, w, limit) && Filled(w, payload, DIRECT_COUNT)
    requires b == LowestClear(w.bits, 0, limit) < limit
    requires w1 == Claim(w, b, ChunkSector(payload, DIRECT_COUNT))
                     .(written := Min(|payload|, SECTOR_SIZE * (DIRECT_COUNT + 1)))
    requires c < limit && !w1.bits[c]
    requires w3 == Claim(w1, c, ZeroSector()).(ino := w1.ino.(indirect := DATA_START + c))
    requires w4 == LinkEntry(w3, 0, DATA_START + b)
    ensures AppendedOne(t, s, limit, w, w4, payload, DIRECT_COUNT)
  {
    ClaimData(t, s, limit, w, payload, DIRECT_COUNT, w1);
    InstallIndex(t, s, limit, w1, c, payload, DATA_START + b, w3);
    StepKeepsTrans(t, s, limit, w, w1, w3);
    LinkEntryData(t, s, limit, w3, payload, DIRECT_COUNT, DATA_START + b, w4);
    StepKeepsTrans(t, s, limit, w, w3, w4);
    TakenAndLinked(LeakedBy(t, s, w), LeakedBy(t, s, w1), LeakedBy(t, s, w4), b);
  }

  lemma AppendFirstEntry(t: Table, s: nat, limit: nat, w: Writer, payload: seq<byte>)
    requires WriterOwned(t, s, w, limit) && Filled(w, payload, DIRECT_COUNT)
    requires CountClear(w.bits, limit) >= 2
    ensures AppendBlock(limit, w, payload, DIRECT_COUNT).Appended?
    ensures AppendedOne(t, s, limit, w, AppendBlock(limit, w, payload, DIRECT_COUNT).w, payload, DIRECT_COUNT)
  {
    ClearExists(w.bits, limit);
    var b := LowestClear(w.bits, 0, limit);
    var w1 := Claim(w, b, ChunkSector(payload, DIRECT_COUNT))
                .(written := Min(|payload|, SECTOR_SIZE * (DIRECT_COUNT + 1)));
    CountUpdate(w.bits, limit, b, true);
    ClearExists(w1.bits, limit);
    var c := LowestClear(w1.bits, 0, limit);
    var w3 := Claim(w1, c, ZeroSector()).(ino := w1.ino.(indirect := DATA_START + c));
    FirstEntrySteps(t, s, limit, w, payload, b, c, w1, w3, LinkEntry(w3, 0, DATA_START + b));
  }

  /** How many data blocks a file can take when `free` blocks are free: one goes to the index past ten. */
  function Capacity(free: nat): nat {
    if free <= DIRECT_COUNT then free else free - 1
  }

  /** The write loop takes a block it cannot link exactly when eleven are free and more than ten are needed. */
  predicate LosesBlock(payload: seq<byte>, free: nat) {
    BlocksFor(|payload|) > DIRECT_COUNT && free == DIRECT_COUNT + 1
  }

  ghost predicate WriteDone(t: Table, s: nat, limit: nat, w: Writer, r: Writer, payload: seq<byte>, free: nat) {
    var linked := Min(BlocksFor(|payload|), Capacity(free));
    && StepKeeps(t, s, limit, w, r)
    && Filled(r, payload, linked)
    && r.written == Min(|payload|, SECTOR_SIZE * (linked + (if LosesBlock(payload, free) then 1 else 0)))
    && Grows(LeakedBy(t, s, w), LeakedBy(t, s, r), LosesBlock(payload, free))
  }

  /** Where the loop stands before block k: k blocks linked, and `free` were free at the start. */
  ghost predicate AtBlock(t: Table, s: nat, limit: nat, w: Writer, payload: seq<byte>, k: nat, free: nat) {
    && WriterOwned(t, s, w, limit) && Filled(w, payload, k)
    && k <= BlocksFor(|payload|) <= MAX_FILE_BLOCKS
    && w.written == Min(|payload|, SECTOR_SIZE * k)
    && CountClear(w.bits, limit) == free - k - (if k > DIRECT_COUNT then 1 else 0)
  }

  lemma AppendStops(t: Table, s: nat, limit: nat, w: Writer, payload: seq<byte>, k: nat, free: nat)
    requires AtBlock(t, s, limit, w, payload, k, free)
    requires k == BlocksFor(|payload|) || CountClear(w.bits, limit) == 0
    ensures AppendFrom(limit, w, payload, k) == w && WriteDone(t, s, limit, w, w, payload, free)
  {
    ClearExists(w.bits, limit);
    assert StepKeeps(t, s, limit, w, w);
  }

  lemma AppendLoses(t: Table, s: nat, limit: nat, w: Writer, payload: seq<byte>, free: nat)
    requires AtBlock(t, s, limit, w, payload, DIRECT_COUNT, free)
    requires DIRECT_COUNT < BlocksFor(|payload|) && CountClear(w.bits, limit) == 1
    ensures WriteDone(t, s, limit, w, AppendFrom(limit, w, payload, DIRECT_COUNT), payload, free)
  {
    ClearExists(w.bits, limit);
    var b := LowestClear(w.bits, 0, limit);
    var w1 := Claim(w, b, ChunkSector(payload, DIRECT_COUNT))
                .(written := Min(|payload|, SECTOR_SIZE * (DIRECT_COUNT + 1)));
    ClaimData(t, s, limit, w, payload, DIRECT_COUNT, w1);
    ClearExists(w1.bits, limit);
    assert AppendFrom(limit, w, payload, DIRECT_COUNT) == w1;
    assert w1.bits[b] && !Referenced(Commit(t, s, w1), w1.data, DATA_START + b);
  }

  lemma AppendOne(t: Table, s: nat, limit: nat, w: Writer, payload: seq<byte>, k: nat)
    requires WriterOwned(t, s, w, limit) && Filled(w, payload, k) && k < MAX_FILE_BLOCKS
    requires CountClear(w.bits, limit) > (if k == DIRECT_COUNT then 1 else 0)
    ensures AppendBlock(limit, w, payload, k).Appended?
    ensures AppendedOne(t, s, limit, w, AppendBlock(limit, w, payload, k).w, payload, k)
  {
    ClearExists(w.bits, limit);
    if k < DIRECT_COUNT {
      AppendDirect(t, s, limit, w, payload, k);
    } else if k == DIRECT_COUNT {
      AppendFirstEntry(t, s, limit, w, payload);
    } else {
      AppendEntry(t, s, limit, w, payload, k);
    }
  }

  /** No block is needed, none is free, or only one is free when the index block is missing too. */
  predicate LoopEnds(limit: nat, w: Writer, payload: seq<byte>, k: nat)
    requires limit <= BITMAP_BITS
  {
    k >= BlocksFor(|payload|) || CountClear(w.bits, limit) <= (if k == DIRECT_COUNT then 1 else 0)
  }

  lemma AppendEnds(t: Table, s: nat, limit: nat, w: Writer, payload: seq<byte>, k: nat, free: nat)
    requires AtBlock(t, s, limit, w, payload, k, free) && LoopEnds(limit, w, payload, k)
    ensures WriteDone(t, s, limit, w, AppendFrom(limit, w, payload, k), payload, free)
  {
    if k == BlocksFor(|payload|) || CountClear(w.bits, limit) == 0 {
      AppendStops(t, s, limit, w, payload, k, free);
    } else {
      AppendLoses(t, s, limit, w, payload, free);
    }
  }

  lemma AppendGoesOn(t: Table, s: nat, limit: nat, w: Writer, payload: seq<byte>, k: nat, free: nat)
    requires AtBlock(t, s, limit, w, payload, k, free) && !LoopEnds(limit, w, payload, k)
    ensures var p := AppendBlock(limit, w, payload, k);
      && p.Appended? && AtBlock(t, s, limit, p.w, payload, k + 1, free)
      && (WriteDone(t, s, limit, p.w, AppendFrom(limit, p.w, payload, k + 1), payload, free) ==>
            WriteDone(t, s, limit, w, AppendFrom(limit, w, payload, k), payload, free))
  {
    AppendOne(t, s, limit, w, payload, k);
    var w' := AppendBlock(limit, w, payload, k).w;
    var r := AppendFrom(limit, w', payload, k + 1);
    assert AppendFrom(limit, w, payload, k) == r;
    if WriteDone(t, s, limit, w', r, payload, free) {
      StepKeepsTrans(t, s, limit, w, w', r);
    }
  }

  /** The whole loop: ownership kept, others untouched, exactly the blocks that fit are linked. */
  lemma {:induction false} AppendAll(t: Table, s: nat, limit: nat, w: Writer, payload: seq<byte>, k: nat, free: nat)
    requires AtBlock(t, s, limit, w, payload, k, free)
    ensures WriteDone(t, s, limit, w, AppendFrom(limit, w, payload, k), payload, free)
    decreases MAX_FILE_BLOCKS - k
  {
    if LoopEnds(limit, w, payload, k) {
      AppendEnds(t, s, limit, w, payload, k, free);
    } else {
      AppendGoesOn(t, s, limit, w, payload, k, free);
      AppendAll(t, s, limit, AppendBlock(limit, w, payload, k).w, payload, k + 1, free);
    }
  }

  // ----- reading back

  lemma {:induction false} ReadableIs(data: Data, ino: Inode, linked: nat, k: nat)
    requires k <= linked <= MAX_FILE_BLOCKS && linked <= BlocksFor(ino.size)
    requires forall j :: 0 <= j < MAX_FILE_BLOCKS ==> (BlockPtr(data, ino, j) != 0 <==> j < linked)
    ensures ReadableFrom(data, ino, k) == linked
    decreases linked - k
  {
    if k < linked {
      ReadableIs(data, ino, linked, k + 1);
    }
  }

  /** Blocks that hold the chunks of a payload read back as the payload. */
  lemma ReadFilled(data: Data, ino: Inode, payload: seq<byte>, linked: nat)
    requires linked <= MAX_FILE_BLOCKS && linked <= BlocksFor(|payload|)
    requires forall j :: 0 <= j < MAX_FILE_BLOCKS ==> (BlockPtr(data, ino, j) != 0 <==> j < linked)
    requires forall j :: 0 <= j < linked ==> ReadSector(data, BlockPtr(data, ino, j)) == ChunkSector(payload, j)
    requires Min(|payload|, SECTOR_SIZE * linked) <= ino.size <= |payload|
    ensures Contents(data, ino) == payload[..Min(|payload|, SECTOR_SIZE * linked)]
  {
    ReadableIs(data, ino, linked, 0);
    forall i | 0 <= i < Min(|payload|, SECTOR_SIZE * linked)
      ensures FileByte(data, ino, i) == payload[i]
    {
      assert ReadSector(data, BlockPtr(data, ino, i / SECTOR_SIZE)) == ChunkSector(payload, i / SECTOR_SIZE);
    }
  }

  lemma {:induction false} ReadableKept(t: Table, data: Data, t': Table, data': Data, s: nat, k: nat)
    requires s < MAX_INODES && t[s].id != 0 && FileKept(t, data, t', data', s) && k <= MAX_FILE_BLOCKS
    ensures ReadableFrom(data', t'[s], k) == ReadableFrom(data, t[s], k)
    decreases MAX_FILE_BLOCKS - k
  {
    if k < MAX_FILE_BLOCKS {
      assert Ptr(t', data', s, PtrIndex(k)) == Ptr(t, data, s, PtrIndex(k));
      ReadableKept(t, data, t', data', s, k + 1);
    }
  }

  lemma {:induction false} ReadableAreLinked(data: Data, ino: Inode, k: nat, j: nat)
    requires k <= MAX_FILE_BLOCKS && k <= j < ReadableFrom(data, ino, k)
    ensures j < MAX_FILE_BLOCKS && BlockPtr(data, ino, j) != 0
    decreases MAX_FILE_BLOCKS - k
  {
    if k < j {
      ReadableAreLinked(data, ino, k + 1, j);
    }
  }

  /** A file that kept its inode, pointers and sectors still reads the same. */
  lemma ContentsKept(t: Table, data: Data, t': Table, data': Data, s: nat)
    requires s < MAX_INODES && t[s].id != 0 && FileKept(t, data, t', data', s)
    ensures Contents(data', t'[s]) == Contents(data, t[s])
  {
    ReadableKept(t, data, t', data', s, 0);
    forall i | 0 <= i < ContentsLength(data, t[s])
      ensures FileByte(data', t'[s], i) == FileByte(data, t[s], i)
    {
      var k := i / SECTOR_SIZE;
      ReadableAreLinked(data, t[s], 0, k);
      assert Ptr(t', data', s, PtrIndex(k)) == Ptr(t, data, s, PtrIndex(k));
    }
  }

  // ----- releasing a whole file

  function Fresh(bits: Bits, data: Data, ino: Inode): Writer {
    Writer(bits, data, Unlinked(ino), 0)
  }

  /** Dropping the pointers of slot s, and exactly its bits, keeps everyone else's ownership. */
  lemma DropKeeps(t: Table, bits: Bits, data: Data, limit: nat, s: nat, t': Table)
    requires limit <= BITMAP_BITS && Owned(t, bits, data, limit)
    requires s < MAX_INODES && t[s].id != 0 && t' == t[s := t'[s]]
    requires forall j :: 0 <= j < POINTER_COUNT ==> Ptr(t', data, s, j) == 0
    ensures Owned(t', Release(bits, data, t[s]), data, limit)
    ensures OthersKept(t, data, t', data, s)
    ensures Leaked(t', Release(bits, data, t[s]), data) == Leaked(t, bits, data)
  {
    var bits' := Release(bits, data, t[s]);
    forall o, j | 0 <= o < MAX_INODES && 0 <= j < POINTER_COUNT && Ptr(t', data, o, j) != 0
      ensures InData(Ptr(t', data, o, j), limit) && bits'[Ptr(t', data, o, j) - DATA_START]
    {
      var p := Ptr(t, data, o, j);
      assert o != s && Ptr(t', data, o, j) == p;
      forall i | 0 <= i < POINTER_COUNT
        ensures PtrOf(data, t[s], i) != p
      {
        assert Ptr(t, data, s, i) == PtrOf(data, t[s], i);
      }
    }
    forall o, j, o', j' |
      0 <= o < MAX_INODES && 0 <= j < POINTER_COUNT && 0 <= o' < MAX_INODES && 0 <= j' < POINTER_COUNT
      && Ptr(t', data, o, j) != 0 && Ptr(t', data, o, j) == Ptr(t', data, o', j')
      ensures o == o' && j == j'
    {
      assert Ptr(t, data, o, j) == Ptr(t, data, o', j');
    }
    forall b | 0 <= b < BITMAP_BITS
      ensures b in Leaked(t', bits', data) <==> b in Leaked(t, bits, data)
    {
      var lba := DATA_START + b;
      if Referenced(t, data, lba) && bits'[b] {
        var o, j :| 0 <= o < MAX_INODES && 0 <= j < POINTER_COUNT && Ptr(t, data, o, j) == lba;
        assert !Owns(data, t[s], lba) && Ptr(t, data, s, j) == PtrOf(data, t[s], j);
        assert Ptr(t', data, o, j) == lba;
      }
      if Referenced(t', data, lba) {
        var o, j :| 0 <= o < MAX_INODES && 0 <= j < POINTER_COUNT && Ptr(t', data, o, j) == lba;
        assert Ptr(t, data, o, j) == lba;
      }
      if Owns(data, t[s], lba) {
        var j :| 0 <= j < POINTER_COUNT && PtrOf(data, t[s], j) == lba;
        assert Ptr(t, data, s, j) == lba;
      }
    }
  }

  /** After the release the slot is ready for the write loop. */
  lemma ReleaseKeeps(t: Table, bits: Bits, data: Data, limit: nat, s: nat, payload: seq<byte>)
    requires limit <= BITMAP_BITS && Owned(t, bits, data, limit)
    requires s < MAX_INODES && t[s].id != 0
    ensures var w := Fresh(Release(bits, data, t[s]), data, t[s]);
      && WriterOwned(t, s, w, limit) && Filled(w, payload, 0)
      && OthersKept(t, data, Commit(t, s, w), data, s)
      && LeakedBy(t, s, w) == Leaked(t, bits, data)
  {
    var w := Fresh(Release(bits, data, t[s]), data, t[s]);
    forall j | 0 <= j < POINTER_COUNT
      ensures PtrOf(data, w.ino, j) == 0
    {
    }
    forall k | 0 <= k < MAX_FILE_BLOCKS
      ensures BlockPtr(data, w.ino, k) == 0
    {
      assert PtrOf(data, w.ino, PtrIndex(k)) == 0;
    }
    DropKeeps(t, bits, data, limit, s, Commit(t, s, w));
  }

  // ----- where the write loop writes

  /** Sectors outside the data area of the disk are as before. */
  ghost predicate OutsideKept(data: Data, data': Data, limit: nat) {
    forall lba :: 0 <= lba < LBA_LIMIT && !InData(lba, limit) ==> data'[lba] == data[lba]
  }

  /** The write loop writes only sectors [11, 11 + limit): never the superblock, the tables or past the disk. */
  lemma {:induction false} AppendWritesData(limit: nat, w: Writer, payload: seq<byte>, k: nat)
    requires limit <= BITMAP_BITS && BlocksFor(|payload|) <= MAX_FILE_BLOCKS
    requires w.ino.indirect == 0 || InData(w.ino.indirect, limit)
    ensures OutsideKept(w.data, AppendFrom(limit, w, payload, k).data, limit)
    decreases MAX_FILE_BLOCKS - k
  {
    if k < BlocksFor(|payload|) {
      var p := AppendBlock(limit, w, payload, k);
      assert OutsideKept(w.data, p.w.data, limit);
      if p.Appended? {
        AppendWritesData(limit, p.w, payload, k + 1);
      }
    }
  }
}
