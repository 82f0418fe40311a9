/** RexFS as a state machine: its state, its commands, and the invariant every run keeps. */
module RexFsModel {
  import opened Machine
  import opened Bitmap
  import opened RexFsLayout
  import opened RexFsBlocks
  import opened RexFsTree

  /** The disk (superblock, inode table, bitmap, data) and the globals of the driver. */
  datatype Fs = Fs(
    sb: Superblock, inodes: Table, bits: Bits, data: Data,
    mounted: bool, active: Superblock, cwd: u16)

  datatype Outcome =
    | Done | NotMounted | Usage | MissingPayload | NotFound | AlreadyExists | TableFull | NotEmpty
    | TooLarge | NoBuffer | NotExecutable | NoCapacity | NoSignature | BadVersion | MountedClean | MountedDirty

  datatype Effect = Effect(fs: Fs, out: Outcome) {
    /** A file command neither mounts nor touches the superblock, the mount flag or the mounted geometry. */
    ghost predicate OnlyFiles(before: Fs) {
      fs.sb == before.sb && fs.mounted == before.mounted && fs.active == before.active
      && out != MountedClean && out != MountedDirty
    }
  }

  // ----- hexadecimal payloads

  function Nibble(c: Char): (v: int)
    ensures 0 <= v < 16
  {
    if 48 <= c <= 57 then c - 48
    else if 97 <= c <= 102 then c - 97 + 10
    else if 65 <= c <= 70 then c - 65 + 10
    else 0
  }

  /** The bytes writehex decodes: blanks are skipped before a pair, a trailing digit is dropped. */
  function HexOf(s: CString): (r: seq<byte>)
    ensures |r| <= |s| / 2
  {
    if s == [] then []
    else if s[0] == SPACE then HexOf(s[1..])
    else if |s| == 1 then []
    else [16 * Nibble(s[0]) + Nibble(s[1])] + HexOf(s[2..])
  }

  // ----- commands

  function Format(fs: Fs, capacity: u32): Effect {
    if capacity == 0 then Effect(fs, NoCapacity)
    else
      Effect(fs.(sb := Superblock(REXFS_MAGIC, REXFS_VERSION, Min(capacity, BITMAP_BITS), MAX_INODES, DATA_START, 1),
                 inodes := EmptyTable(), bits := EmptyBits()), Done)
  }

  function MountFs(fs: Fs): Effect {
    if fs.sb.magic != REXFS_MAGIC then Effect(fs, NoSignature)
    else if fs.sb.version != REXFS_VERSION then Effect(fs, BadVersion)
    else
      var sb := fs.sb.(cleanShutdown := 0);
      Effect(fs.(sb := sb, active := sb, mounted := true, cwd := 0),
             if fs.sb.cleanShutdown == 0 then MountedDirty else MountedClean)
  }

  function UnmountFs(fs: Fs): Effect {
    if !fs.mounted then Effect(fs, NotMounted)
    else Effect(fs.(sb := fs.sb.(cleanShutdown := 1), mounted := false, cwd := 0), Done)
  }

  /** Power loss between commands: the globals are lost, the disk is not. */
  function PoweredOff(fs: Fs): Fs {
    fs.(mounted := false, cwd := 0, active := Superblock(0, 0, 0, 0, 0, 0))
  }

  /** Power loss, then the boot-time mount. */
  function Restart(fs: Fs): Effect {
    var off := PoweredOff(fs);
    if fs.sb.magic != REXFS_MAGIC then Effect(off, NoSignature) else MountFs(off)
  }

  /** mkdir and touch: the duplicate check sees the full name, the inode stores the truncated one. */
  function Create(fs: Fs, name: CString, kind: u16): (r: Effect)
    ensures r.OnlyFiles(fs)
  {
    if !fs.mounted then Effect(fs, NotMounted)
    else if name == [] then Effect(fs, Usage)
    else if Find(fs.inodes, Named(fs.cwd, name)) < MAX_INODES then Effect(fs, AlreadyExists)
    else
      var s := Find(fs.inodes, FreeSlot);
      if s == MAX_INODES then Effect(fs, TableFull)
      else Effect(fs.(inodes := fs.inodes[s := NewInode(s, kind, fs.cwd, name)]), Done)
  }

  function NewInode(s: nat, kind: u16, dir: u16, name: CString): Inode
    requires s < MAX_INODES
  {
    Inode(s + 1, 0, kind, dir, StoredName(name), NoBlocks(), 0)
  }

  function ChangeDir(fs: Fs, path: CString): (r: Effect)
    ensures r.OnlyFiles(fs)
  {
    if !fs.mounted then Effect(fs, NotMounted)
    else if path == [] then Effect(fs, Usage)
    else Effect(fs.(cwd := CdTarget(fs.inodes, fs.cwd, path)),
                if path == SLASH || path == DOTDOT || Find(fs.inodes, DirNamed(fs.cwd, path)) < MAX_INODES
                then Done else NotFound)
  }

  ghost function Remove(fs: Fs, name: CString): (r: Effect)
    ensures r.OnlyFiles(fs)
  {
    if !fs.mounted then Effect(fs, NotMounted)
    else if name == [] then Effect(fs, Usage)
    else
      var s := Find(fs.inodes, Named(fs.cwd, name));
      if s == MAX_INODES then Effect(fs, NotFound)
      else
        var ino := fs.inodes[s];
        if ino.kind == DIRECTORY && Find(fs.inodes, ChildOf(ino.id)) < MAX_INODES then Effect(fs, NotEmpty)
        else
          Effect(fs.(inodes := fs.inodes[s := ino.(id := 0)],
                     bits := if ino.kind == DIRECTORY then fs.bits else Release(fs.bits, fs.data, ino)), Done)
  }

  /** The write loop on slot s, started after the old blocks have been released. */
  ghost function StoreWriter(fs: Fs, s: nat, payload: seq<byte>): Writer
    requires s < MAX_INODES && BlocksFor(|payload|) <= MAX_FILE_BLOCKS
  {
    AppendFrom(AllocLimit(fs.active.totalBlocks),
               Fresh(Release(fs.bits, fs.data, fs.inodes[s]), fs.data, fs.inodes[s]), payload, 0)
  }

  /** Overwriting the file in slot s with a payload of at most 266 blocks. */
  ghost function Store(fs: Fs, s: nat, payload: seq<byte>): Fs
    requires s < MAX_INODES && BlocksFor(|payload|) <= MAX_FILE_BLOCKS
  {
    var w := StoreWriter(fs, s, payload);
    fs.(bits := w.bits, data := w.data, inodes := fs.inodes[s := w.ino.(size := w.written)])
  }

  /** The old blocks are released before the payload is known to fit: the two failures leave them released. */
  ghost function WriteTo(fs: Fs, file: CString, payload: seq<byte>, bufferOk: bool): (r: Effect)
    ensures r.OnlyFiles(fs)
  {
    var s := Find(fs.inodes, FileNamed(fs.cwd, file));
    if s == MAX_INODES then Effect(fs, NotFound)
    else
      var released := fs.(bits := Release(fs.bits, fs.data, fs.inodes[s]));
      if !bufferOk then Effect(released, NoBuffer)
      else if BlocksFor(|payload|) > MAX_FILE_BLOCKS then Effect(released, TooLarge)
      else Effect(Store(fs, s, payload), Done)
  }

  ghost function WriteArgs(fs: Fs, args: CString, hex: bool, bufferOk: bool): (r: Effect)
    ensures r.OnlyFiles(fs)
  {
    if !fs.mounted then Effect(fs, NotMounted)
    else if args == [] then Effect(fs, Usage)
    else if ParseArgs(args).NoPayload? then Effect(fs, MissingPayload)
    else
      var text := ParseArgs(args).payload;
      WriteTo(fs, ParseArgs(args).file, if hex then HexOf(text) else text, bufferOk)
  }

  datatype Command =
    | Mkfs(capacity: u32)
    | Mount
    | Unmount
    | Reboot
    | Mkdir(name: CString)
    | Touch(name: CString)
    | Cd(path: CString)
    | Rm(name: CString)
    | Write(args: CString)
    | WriteHex(args: CString, bufferOk: bool)  // bufferOk: kmalloc found room for the decoded bytes

  /** The commands that change entries of the current directory, and leave the session alone. */
  predicate Edits(c: Command) {
    c.Mkdir? || c.Touch? || c.Rm? || c.Write? || c.WriteHex?
  }

  ghost function Exec(fs: Fs, c: Command): Effect {
    match c
    case Mkfs(_) => Format(fs, c.capacity)
    case Mount => MountFs(fs)
    case Unmount => UnmountFs(fs)
    case Reboot => Restart(fs)
    case Mkdir(_) => Create(fs, c.name, DIRECTORY)
    case Touch(_) => Create(fs, c.name, FILE)
    case Cd(_) => ChangeDir(fs, c.path)
    case Rm(_) => Remove(fs, c.name)
    case Write(_) => WriteArgs(fs, c.args, false, true)
    case WriteHex(_, _) => WriteArgs(fs, c.args, true, c.bufferOk)
  }

  datatype Path = NoPath(why: Outcome) | Components(names: seq<CString>)

  /** What pwd prints: the names on the way down from the root, none for the root itself. */
  function Pwd(fs: Fs): Path {
    if !fs.mounted then NoPath(NotMounted) else Components(PathNames(fs.inodes, fs.cwd))
  }

  // ----- the invariant

  predicate Formatted(sb: Superblock) {
    sb.magic == REXFS_MAGIC && sb.version == REXFS_VERSION
  }

  predicate Geometry(sb: Superblock) {
    DATA_START <= sb.totalBlocks <= BITMAP_BITS && sb.dataOffset == DATA_START
  }

  /** How many data blocks the session may hand out or, without one, the disk has. */
  function Usable(fs: Fs): (n: nat)
    ensures n <= BITMAP_BITS
  {
    AllocLimit(if fs.mounted then fs.active.totalBlocks else fs.sb.totalBlocks)
  }

  /** A formatted disk: its directories form a forest and every block has at most one owner. */
  ghost predicate DiskOk(fs: Fs) {
    Geometry(fs.sb) && Forest(fs.inodes)
    && Owned(fs.inodes, fs.bits, fs.data, Usable(fs))
  }

  predicate SessionOk(fs: Fs) {
    if fs.mounted then
      Formatted(fs.sb) && DATA_START <= fs.active.totalBlocks <= fs.sb.totalBlocks
      && fs.active.dataOffset == DATA_START
      && IsDir(fs.inodes, fs.cwd)
    else fs.cwd == 0
  }

  ghost predicate Inv(fs: Fs) {
    (Formatted(fs.sb) ==> DiskOk(fs)) && SessionOk(fs)
  }

  /** The file a write or writehex command would overwrite, or MAX_INODES. */
  function WriteTarget(fs: Fs, args: CString): (s: nat)
    ensures s <= MAX_INODES
  {
    if !fs.mounted || args == [] || ParseArgs(args).NoPayload? then MAX_INODES
    else Find(fs.inodes, FileNamed(fs.cwd, ParseArgs(args).file))
  }

  ghost predicate OwnsBlocks(fs: Fs, s: nat)
    requires s < MAX_INODES
  {
    exists j :: 0 <= j < POINTER_COUNT && PtrOf(fs.data, fs.inodes[s], j) != 0
  }

  /** Whether the write is refused only after the old blocks have been released. */
  predicate RefusedLate(c: Command)
    requires c.Write? || c.WriteHex?
  {
    ParseArgs(c.args).Args?
    && (if c.Write? then BlocksFor(|ParseArgs(c.args).payload|) > MAX_FILE_BLOCKS
        else !c.bufferOk || BlocksFor(|HexOf(ParseArgs(c.args).payload)|) > MAX_FILE_BLOCKS)
  }

  /** What a user must check before a command for the invariant to survive it. */
  ghost predicate Safe(fs: Fs, c: Command) {
    match c
    case Mkfs(_) =>
      c.capacity == 0
      || (c.capacity >= DATA_START
          && (fs.mounted ==> fs.cwd == 0 && fs.active.totalBlocks <= Min(c.capacity, BITMAP_BITS)))
    case Write(_) =>
      RefusedLate(c) && WriteTarget(fs, c.args) < MAX_INODES ==> !OwnsBlocks(fs, WriteTarget(fs, c.args))
    case WriteHex(_, _) =>
      RefusedLate(c) && WriteTarget(fs, c.args) < MAX_INODES ==> !OwnsBlocks(fs, WriteTarget(fs, c.args))
    case _ => true
  }

  /** The blocks that are marked although no file has them. */
  ghost function LeakedIn(fs: Fs): set<nat> {
    Leaked(fs.inodes, fs.bits, fs.data)
  }

  lemma EmptyDiskOk(data: Data, limit: nat)
    requires limit <= BITMAP_BITS
    ensures Forest(EmptyTable()) && Owned(EmptyTable(), EmptyBits(), data, limit)
    ensures Leaked(EmptyTable(), EmptyBits(), data) == {}
  {
  }

  /** mkfs keeps the invariant exactly on at least 11 sectors, idle or in a root session that fits the new disk. */
  lemma FormatKeeps(fs: Fs, capacity: u32)
    requires Inv(fs)
    ensures Inv(Format(fs, capacity).fs) <==> Safe(fs, Mkfs(capacity))
  {
    if capacity >= DATA_START {
      EmptyDiskOk(fs.data, Usable(Format(fs, capacity).fs));
    }
  }

  lemma PowerOffKeeps(fs: Fs)
    requires Inv(fs)
    ensures Inv(PoweredOff(fs))
  {
  }

  lemma CreateKeeps(fs: Fs, name: CString, kind: u16)
    requires Inv(fs) && (kind == FILE || kind == DIRECTORY)
    ensures Inv(Create(fs, name, kind).fs)
  {
    var s := Find(fs.inodes, FreeSlot);
    if Create(fs, name, kind).out == Done {
      var ino := NewInode(s, kind, fs.cwd, name);
      ForestAfterAdd(fs.inodes, s, ino);
      AddKeepsOwned(fs.inodes, fs.bits, fs.data, Usable(fs), s, ino);
    }
  }

  /** A new inode has no pointers, so it changes nobody's blocks. */
  lemma AddKeepsOwned(t: Table, bits: Bits, data: Data, limit: nat, s: nat, ino: Inode)
    requires limit <= BITMAP_BITS && Owned(t, bits, data, limit) && s < MAX_INODES && t[s].id == 0
    requires ino.direct == NoBlocks() && ino.indirect == 0
    ensures Owned(t[s := ino], bits, data, limit)
    ensures OthersKept(t, data, t[s := ino], data, s)
    ensures Leaked(t[s := ino], bits, data) == Leaked(t, bits, data)
  {
    var t' := t[s := ino];
    forall o, j | 0 <= o < MAX_INODES && 0 <= j < POINTER_COUNT
      ensures Ptr(t', data, o, j) == Ptr(t, data, o, j)
    {
    }
    forall x
      ensures Referenced(t, data, x) <==> Referenced(t', data, x)
    {
      if Referenced(t, data, x) {
        var o, j :| 0 <= o < MAX_INODES && 0 <= j < POINTER_COUNT && Ptr(t, data, o, j) == x;
        assert Ptr(t', data, o, j) == x;
      }
      if Referenced(t', data, x) {
        var o, j :| 0 <= o < MAX_INODES && 0 <= j < POINTER_COUNT && Ptr(t', data, o, j) == x;
        assert Ptr(t, data, o, j) == x;
      }
    }
  }

  lemma ChangeDirKeeps(fs: Fs, path: CString)
    requires Inv(fs)
    ensures Inv(ChangeDir(fs, path).fs)
  {
    if fs.mounted {
      CdLeadsToDir(fs.inodes, fs.cwd, path);
    }
  }

  /** An entry of a directory differs from that directory, and a removable one is nobody's parent. */
  lemma RemovableIsLeaf(t: Table, s: nat)
    requires Forest(t) && s < MAX_INODES && t[s].id != 0
    requires t[s].kind == DIRECTORY ==> Find(t, ChildOf(t[s].id)) == MAX_INODES
    ensures t[s].id == s + 1 && t[s].parent != s + 1
    ensures forall o :: 0 <= o < MAX_INODES && t[o].id != 0 ==> t[o].parent != s + 1
  {
    assert SlotOk(t, s);
    assert Rooted(t, s + 1);
    var n: nat :| ReachesRoot(t, s + 1, n);
    NoSelfParent(t, s + 1, n);
    forall o | 0 <= o < MAX_INODES && t[o].id != 0
      ensures t[o].parent != s + 1
    {
      assert IsDir(t, t[o].parent);
      assert t[s].kind == DIRECTORY ==> !Matches(ChildOf(t[s].id), t[o]);
    }
  }

  /** Removing an entry never removes the current directory or one of its ancestors. */
  lemma RemoveKeeps(fs: Fs, name: CString)
    requires Inv(fs)
    ensures Inv(Remove(fs, name).fs)
  {
    if Remove(fs, name).out == Done {
      var t := fs.inodes;
      var s := Find(t, Named(fs.cwd, name));
      RemovableIsLeaf(t, s);
      ForestAfterRemove(t, s);
      RemoveKeepsOwned(fs, s);
      assert IsDir(t[s := t[s].(id := 0)], fs.cwd);
    }
  }

  lemma RemoveKeepsOwned(fs: Fs, s: nat)
    requires DiskOk(fs) && s < MAX_INODES && fs.inodes[s].id != 0
    ensures var ino := fs.inodes[s];
      var t' := fs.inodes[s := ino.(id := 0)];
      var bits' := if ino.kind == DIRECTORY then fs.bits else Release(fs.bits, fs.data, ino);
      && Owned(t', bits', fs.data, Usable(fs))
      && OthersKept(fs.inodes, fs.data, t', fs.data, s)
      && Leaked(t', bits', fs.data) == LeakedIn(fs)
  {
    var t, data := fs.inodes, fs.data;
    var t' := t[s := t[s].(id := 0)];
    DropKeeps(t, fs.bits, data, Usable(fs), s, t');
    assert SlotOk(t, s);
    if t[s].kind == DIRECTORY {
      assert forall j :: 0 <= j < POINTER_COUNT ==> PtrOf(data, t[s], j) == 0;
      assert Release(fs.bits, data, t[s]) == fs.bits;
    }
  }

  // ----- writing a file

  /** Free blocks once the old blocks of slot s have been released. */
  ghost function FreeAfterRelease(fs: Fs, s: nat): nat
    requires s < MAX_INODES
  {
    CountClear(Release(fs.bits, fs.data, fs.inodes[s]), AllocLimit(fs.active.totalBlocks))
  }

  lemma ResizeKeeps(t: Table, bits: Bits, data: Data, limit: nat, s: nat, size: u32)
    requires limit <= BITMAP_BITS && s < MAX_INODES && Owned(t, bits, data, limit)
    ensures var t' := t[s := t[s].(size := size)];
      && Owned(t', bits, data, limit)
      && (forall o, j :: 0 <= o < MAX_INODES && 0 <= j < POINTER_COUNT ==> Ptr(t', data, o, j) == Ptr(t, data, o, j))
      && Leaked(t', bits, data) == Leaked(t, bits, data)
  {
    var t' := t[s := t[s].(size := size)];
    forall o, j | 0 <= o < MAX_INODES && 0 <= j < POINTER_COUNT
      ensures Ptr(t', data, o, j) == Ptr(t, data, o, j)
    {
    }
    forall x
      ensures Referenced(t, data, x) <==> Referenced(t', data, x)
    {
      if Referenced(t, data, x) {
        var o, j :| 0 <= o < MAX_INODES && 0 <= j < POINTER_COUNT && Ptr(t, data, o, j) == x;
        assert Ptr(t', data, o, j) == x;
      }
      if Referenced(t', data, x) {
        var o, j :| 0 <= o < MAX_INODES && 0 <= j < POINTER_COUNT && Ptr(t', data, o, j) == x;
        assert Ptr(t, data, o, j) == x;
      }
    }
  }

  ghost predicate Writable(fs: Fs, s: nat, payload: seq<byte>) {
    Inv(fs) && fs.mounted && s < MAX_INODES && fs.inodes[s].id != 0 && fs.inodes[s].kind == FILE
    && BlocksFor(|payload|) <= MAX_FILE_BLOCKS
  }

  /** What the write loop did, seen from the whole disk. */
  lemma StoreLoop(fs: Fs, s: nat, payload: seq<byte>)
    requires Writable(fs, s, payload)
    ensures var w := StoreWriter(fs, s, payload);
      var start := Fresh(Release(fs.bits, fs.data, fs.inodes[s]), fs.data, fs.inodes[s]);
      && WriteDone(fs.inodes, s, Usable(fs), start, w, payload, FreeAfterRelease(fs, s))
      && w.written <= |payload|
      && OthersKept(fs.inodes, fs.data, Commit(fs.inodes, s, w), w.data, s)
      && LeakedBy(fs.inodes, s, start) == LeakedIn(fs)
  {
    var t := fs.inodes;
    var limit := Usable(fs);
    var start := Fresh(Release(fs.bits, fs.data, t[s]), fs.data, t[s]);
    ReleaseKeeps(t, fs.bits, fs.data, limit, s, payload);
    AppendAll(t, s, limit, start, payload, 0, FreeAfterRelease(fs, s));
    var w := StoreWriter(fs, s, payload);
    OthersKeptTrans(t, fs.data, Commit(t, s, start), start.data, Commit(t, s, w), w.data, s);
  }

  /** Storing the writer's inode with its final size. */
  lemma CommitKeeps(t: Table, data: Data, s: nat, w: Writer, limit: nat, size: u32)
    requires WriterOwned(t, s, w, limit) && OthersKept(t, data, Commit(t, s, w), w.data, s)
    requires Forest(t) && t[s].kind == FILE && size <= SECTOR_SIZE * MAX_FILE_BLOCKS
    requires w.ino == t[s].(direct := w.ino.direct, indirect := w.ino.indirect)
    ensures var t2 := t[s := w.ino.(size := size)];
      && Forest(t2) && SameTree(t, t2, s) && OthersKept(t, data, t2, w.data, s)
      && Owned(t2, w.bits, w.data, limit)
      && Leaked(t2, w.bits, w.data) == LeakedBy(t, s, w)
  {
    var t1 := Commit(t, s, w);
    var t2 := t[s := w.ino.(size := size)];
    assert t2 == t1[s := t1[s].(size := size)];
    ResizeKeeps(t1, w.bits, w.data, limit, s, size);
    ForestInSameTree(t, t2, s);
    forall o | 0 <= o < MAX_INODES && o != s
      ensures FileKept(t, data, t2, w.data, o)
    {
      assert FileKept(t, data, t1, w.data, o);
    }
  }

  /** Writing keeps the disk invariant, leaves every other file alone, and leaks only without an index block. */
  lemma StoreKeeps(fs: Fs, s: nat, payload: seq<byte>)
    requires Writable(fs, s, payload)
    ensures Inv(Store(fs, s, payload))
    ensures SameTree(fs.inodes, Store(fs, s, payload).inodes, s)
    ensures OthersKept(fs.inodes, fs.data, Store(fs, s, payload).inodes, Store(fs, s, payload).data, s)
    ensures Grows(LeakedIn(fs), LeakedIn(Store(fs, s, payload)), LosesBlock(payload, FreeAfterRelease(fs, s)))
  {
    StoreLoop(fs, s, payload);
    var w := StoreWriter(fs, s, payload);
    CommitKeeps(fs.inodes, fs.data, s, w, Usable(fs), w.written);
  }

  /** The write/read round trip, with the exact number of bytes that survive a full disk. */
  lemma StoreThenRead(fs: Fs, s: nat, payload: seq<byte>)
    requires Writable(fs, s, payload)
    ensures var fs' := Store(fs, s, payload);
      var kept := Min(|payload|, SECTOR_SIZE * Capacity(FreeAfterRelease(fs, s)));
      Contents(fs'.data, fs'.inodes[s]) == payload[..kept]
  {
    StoreLoop(fs, s, payload);
    var w := StoreWriter(fs, s, payload);
    ReadWriter(w, payload, Min(BlocksFor(|payload|), Capacity(FreeAfterRelease(fs, s))));
  }

  lemma ReadWriter(w: Writer, payload: seq<byte>, linked: nat)
    requires linked <= MAX_FILE_BLOCKS && linked <= BlocksFor(|payload|) && DataFilled(w, payload, linked)
    requires Min(|payload|, SECTOR_SIZE * linked) <= w.written <= |payload| < 0x1_0000_0000
    ensures Contents(w.data, w.ino.(size := w.written)) == payload[..Min(|payload|, SECTOR_SIZE * linked)]
  {
    var ino := w.ino.(size := w.written);
    forall j | 0 <= j < MAX_FILE_BLOCKS
      ensures BlockPtr(w.data, ino, j) == BlockPtr(w.data, w.ino, j)
    {
    }
    ReadFilled(w.data, ino, payload, linked);
  }
}
