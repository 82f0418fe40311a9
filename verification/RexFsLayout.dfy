/** The on-disk layout of RexFS and the pure meaning of its tables and pointers. */
module RexFsLayout {
  import opened Machine

  const REXFS_MAGIC: u32 := 0x52455821
  const REXFS_VERSION: u32 := 1
  const MAX_INODES := 64
  const SECTOR_SIZE := 512
  const DATA_START := 11
  const BITMAP_BITS := 4096
  const LBA_LIMIT := DATA_START + BITMAP_BITS
  const DIRECT_COUNT := 10
  const INDEX_COUNT := 256
  const MAX_FILE_BLOCKS := 266
  const POINTER_COUNT := 267
  const NAME_MAX := 27

  const FILE: u16 := 1
  const DIRECTORY: u16 := 2

  type Sector = s: seq<byte> | |s| == SECTOR_SIZE witness seq(SECTOR_SIZE, _ => 0)
  type Direct = d: seq<u16> | |d| == DIRECT_COUNT witness seq(DIRECT_COUNT, _ => 0)

  function ZeroSector(): Sector { seq(SECTOR_SIZE, _ => 0) }
  function NoBlocks(): Direct { seq(DIRECT_COUNT, _ => 0) }

  datatype Superblock = Superblock(
    magic: u32, version: u32, totalBlocks: u32, inodeCount: u32, dataOffset: u32, cleanShutdown: u32)

  datatype Inode = Inode(
    id: u32, size: u32, kind: u16, parent: u16, name: CString, direct: Direct, indirect: u16)

  /** Sectors 2 to 9: eight inodes each, slot = 8 * (sector - 2) + index. */
  type Table = t: seq<Inode> | |t| == MAX_INODES
    witness seq(MAX_INODES, _ => EmptyInode())
  /** Sector 10, as bits. */
  type Bits = b: seq<bool> | |b| == BITMAP_BITS witness seq(BITMAP_BITS, _ => false)
  /** Sectors by LBA; the entries below DATA_START stand for the typed sectors and are never used as data. */
  type Data = d: seq<Sector> | |d| == LBA_LIMIT witness seq<Sector>(LBA_LIMIT, _ => ZeroSector())

  function EmptyInode(): Inode { Inode(0, 0, 0, 0, [], NoBlocks(), 0) }
  function EmptyTable(): Table { seq(MAX_INODES, _ => EmptyInode()) }
  function EmptyBits(): Bits { seq(BITMAP_BITS, _ => false) }

  // ----- data sectors

  function ReadSector(data: Data, lba: nat): Sector {
    if lba < LBA_LIMIT then data[lba] else ZeroSector()
  }

  function WriteSector(data: Data, lba: nat, s: Sector): Data {
    if lba < LBA_LIMIT then data[lba := s] else data
  }

  /** The k-th little-endian 16-bit pointer of an index sector. */
  function IndexEntry(s: Sector, k: nat): u16
    requires k < INDEX_COUNT
  {
    s[2 * k] as int + 0x100 * (s[2 * k + 1] as int)
  }

  function PutIndexEntry(s: Sector, k: nat, p: u16): Sector
    requires k < INDEX_COUNT
  {
    s[2 * k := p % 0x100][2 * k + 1 := p / 0x100]
  }

  lemma IndexEntryAfterPut(s: Sector, k: nat, p: u16, j: nat)
    requires k < INDEX_COUNT && j < INDEX_COUNT
    ensures IndexEntry(PutIndexEntry(s, k, p), j) == if j == k then p else IndexEntry(s, j)
  {
  }

  lemma IndexEntryOfZero(j: nat)
    requires j < INDEX_COUNT
    ensures IndexEntry(ZeroSector(), j) == 0
  {
  }

  // ----- the block pointers of an inode

  /** Pointer j of an inode: 0-9 direct, 10 the index block, 11-266 the entries of the index block. */
  function PtrOf(data: Data, ino: Inode, j: nat): u16
    requires j < POINTER_COUNT
  {
    if j < DIRECT_COUNT then ino.direct[j]
    else if j == DIRECT_COUNT then ino.indirect
    else if ino.indirect == 0 then 0
    else IndexEntry(ReadSector(data, ino.indirect), j - DIRECT_COUNT - 1)
  }

  /** Pointer j of slot s, 0 when the slot is free. */
  function Ptr(t: Table, data: Data, s: nat, j: nat): u16
    requires s < MAX_INODES && j < POINTER_COUNT
  {
    if t[s].id == 0 then 0 else PtrOf(data, t[s], j)
  }

  /** The pointer index that holds the LBA of the k-th data block of a file. */
  function PtrIndex(k: nat): nat {
    if k < DIRECT_COUNT then k else k + 1
  }

  function BlockPtr(data: Data, ino: Inode, k: nat): u16
    requires k < MAX_FILE_BLOCKS
  {
    PtrOf(data, ino, PtrIndex(k))
  }

  function BlocksFor(len: nat): nat {
    (len + 511) / 512
  }

  /** How far a reader that stands before block k gets: to the file's end or its first missing block. */
  function ReadableFrom(data: Data, ino: Inode, k: nat): (n: nat)
    requires k <= MAX_FILE_BLOCKS
    ensures k <= n <= MAX_FILE_BLOCKS
    decreases MAX_FILE_BLOCKS - k, |data|
  {
    if k >= BlocksFor(ino.size) || k == MAX_FILE_BLOCKS || BlockPtr(data, ino, k) == 0 then k
    else ReadableFrom(data, ino, k + 1)
  }

  function ContentsLength(data: Data, ino: Inode): (n: nat)
    ensures n <= SECTOR_SIZE * MAX_FILE_BLOCKS
  {
    Min(ino.size, SECTOR_SIZE * ReadableFrom(data, ino, 0))
  }

  /** Byte i of a file: byte i % 512 of its block i / 512. */
  function FileByte(data: Data, ino: Inode, i: nat): byte
    requires i < SECTOR_SIZE * MAX_FILE_BLOCKS
  {
    ReadSector(data, BlockPtr(data, ino, i / SECTOR_SIZE))[i % SECTOR_SIZE]
  }

  /** The bytes a reader of the file obtains. */
  function Contents(data: Data, ino: Inode): (r: seq<byte>)
    ensures |r| == ContentsLength(data, ino)
  {
    seq(ContentsLength(data, ino), i requires 0 <= i < ContentsLength(data, ino) => FileByte(data, ino, i))
  }

  /** The sector that holds bytes [512 * k, 512 * (k + 1)) of a payload, zero padded. */
  function ChunkSector(payload: seq<byte>, k: nat): Sector
  {
    seq(SECTOR_SIZE, i requires 0 <= i =>
      if SECTOR_SIZE * k + i < |payload| then payload[SECTOR_SIZE * k + i] else 0)
  }

  // ----- scanning the inode table

  datatype Query =
    | Named(dir: u16, name: CString)
    | FileNamed(dir: u16, name: CString)
    | DirNamed(dir: u16, name: CString)
    | FreeSlot
    | WithId(id: u32)
    | ChildOf(id: u32)

  predicate Matches(q: Query, ino: Inode) {
    match q
    case Named(_, _) => ino.id != 0 && ino.parent == q.dir && ino.name == q.name
    case FileNamed(_, _) => ino.id != 0 && ino.parent == q.dir && ino.kind == FILE && ino.name == q.name
    case DirNamed(_, _) => ino.id != 0 && ino.parent == q.dir && ino.kind == DIRECTORY && ino.name == q.name
    case FreeSlot => ino.id == 0
    case WithId(_) => ino.id == q.id
    case ChildOf(_) => ino.id != 0 && ino.parent == q.id
  }

  /** The first slot at or after s that matches, or MAX_INODES. */
  function FindFrom(t: Table, q: Query, s: nat): (r: nat)
    requires s <= MAX_INODES
    ensures s <= r <= MAX_INODES
    ensures forall i :: s <= i < r ==> !Matches(q, t[i])
    ensures r < MAX_INODES ==> Matches(q, t[r])
    decreases |t| - s
  {
    if s == MAX_INODES || Matches(q, t[s]) then s else FindFrom(t, q, s + 1)
  }

  function Find(t: Table, q: Query): (r: nat)
    ensures r <= MAX_INODES
    ensures forall i :: 0 <= i < r ==> !Matches(q, t[i])
    ensures r < MAX_INODES ==> Matches(q, t[r])
  {
    FindFrom(t, q, 0)
  }

  lemma FindIs(t: Table, q: Query, r: nat)
    requires r < MAX_INODES && Matches(q, t[r])
    requires forall i :: 0 <= i < r ==> !Matches(q, t[i])
    ensures Find(t, q) == r
  {
  }

  // ----- command arguments

  /** The stored name: at most 27 characters survive. */
  function StoredName(name: CString): CString {
    if |name| <= NAME_MAX then name else name[..NAME_MAX]
  }

  /** Where the file name of a write command ends: a blank, the end, or 31 characters. */
  function NameEnd(args: CString, i: nat): (r: nat)
    requires i <= |args| && i <= 31
    ensures i <= r <= |args| && r <= 31
    decreases |args| - i
  {
    if i < |args| && args[i] != SPACE && i < 31 then NameEnd(args, i + 1) else i
  }

  function SkipSpaces(s: CString, i: nat): (r: nat)
    requires i <= |s|
    ensures i <= r <= |s|
    ensures forall k :: i <= k < r ==> s[k] == SPACE
    ensures r < |s| ==> s[r] != SPACE
    decreases |s| - i
  {
    if i < |s| && s[i] == SPACE then SkipSpaces(s, i + 1) else i
  }

  datatype Parsed = NoPayload | Args(file: CString, payload: CString)

  function ParseArgs(args: CString): Parsed {
    var e := NameEnd(args, 0);
    if e == |args| then NoPayload
    else Args(args[..e], args[SkipSpaces(args, e)..])
  }
}
