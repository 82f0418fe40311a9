/** What each command answers and does, said over the inode table: outcomes, refusals and new states. */
module RexFsCommands {
  import opened Machine
  import opened RexFsLayout
  import opened RexFsTree
  import opened RexFsModel
  import opened RexFsRuns
  import opened RexFsRoundTrip

  // ----- the table, without lookups

  /** Slot o holds a live entry of that name in that directory. */
  predicate EntryAt(t: Table, dir: u16, name: CString, o: nat) {
    o < MAX_INODES && t[o].id != 0 && t[o].parent == dir && t[o].name == name
  }

  ghost predicate Taken(t: Table, dir: u16, name: CString) {
    exists o: nat :: EntryAt(t, dir, name, o)
  }

  /** Slot o is the first one with such an entry. */
  ghost predicate FirstEntry(t: Table, dir: u16, name: CString, o: nat) {
    EntryAt(t, dir, name, o) && forall i :: 0 <= i < o ==> !EntryAt(t, dir, name, i)
  }

  /** Slot o is the first one of an entry of that kind. */
  ghost predicate FirstOfKind(t: Table, dir: u16, name: CString, kind: u16, o: nat) {
    EntryAt(t, dir, name, o) && t[o].kind == kind
    && forall i :: 0 <= i < o ==> !(EntryAt(t, dir, name, i) && t[i].kind == kind)
  }

  ghost predicate TakenBy(t: Table, dir: u16, name: CString, kind: u16) {
    exists o: nat :: EntryAt(t, dir, name, o) && t[o].kind == kind
  }

  predicate FirstFree(t: Table, s: nat) {
    s < MAX_INODES && t[s].id == 0 && forall i :: 0 <= i < s ==> t[i].id != 0
  }

  ghost predicate HasFree(t: Table) {
    exists s :: 0 <= s < MAX_INODES && t[s].id == 0
  }

  ghost predicate HasChild(t: Table, id: u32) {
    exists o :: 0 <= o < MAX_INODES && t[o].id != 0 && t[o].parent == id
  }

  // ----- lookups, in those terms

  lemma NamedIs(t: Table, dir: u16, name: CString)
    ensures var r := Find(t, Named(dir, name));
      && (r < MAX_INODES <==> Taken(t, dir, name)) && (r < MAX_INODES ==> FirstEntry(t, dir, name, r))
  {
    var q := Named(dir, name);
    assert forall i :: 0 <= i < MAX_INODES ==> (Matches(q, t[i]) <==> EntryAt(t, dir, name, i));
  }

  lemma FileIs(t: Table, dir: u16, name: CString)
    ensures var r := Find(t, FileNamed(dir, name));
      && (r < MAX_INODES <==> TakenBy(t, dir, name, FILE)) && (r < MAX_INODES ==> FirstOfKind(t, dir, name, FILE, r))
  {
    var q := FileNamed(dir, name);
    assert forall i :: 0 <= i < MAX_INODES ==> (Matches(q, t[i]) <==> EntryAt(t, dir, name, i) && t[i].kind == FILE);
  }

  lemma DirIs(t: Table, dir: u16, name: CString)
    ensures var r := Find(t, DirNamed(dir, name));
      && (r < MAX_INODES <==> TakenBy(t, dir, name, DIRECTORY))
      && (r < MAX_INODES ==> FirstOfKind(t, dir, name, DIRECTORY, r))
  {
    var q := DirNamed(dir, name);
    assert forall i :: 0 <= i < MAX_INODES ==>
      (Matches(q, t[i]) <==> EntryAt(t, dir, name, i) && t[i].kind == DIRECTORY);
  }

  lemma FreeIs(t: Table)
    ensures var r := Find(t, FreeSlot);
      && (r < MAX_INODES <==> HasFree(t)) && (r < MAX_INODES ==> FirstFree(t, r))
  {
    assert forall i :: 0 <= i < MAX_INODES ==> (Matches(FreeSlot, t[i]) <==> t[i].id == 0);
  }

  lemma ChildIs(t: Table, id: u32)
    ensures Find(t, ChildOf(id)) < MAX_INODES <==> HasChild(t, id)
  {
    assert forall i :: 0 <= i < MAX_INODES ==> (Matches(ChildOf(id), t[i]) <==> t[i].id != 0 && t[i].parent == id);
  }

  // ----- mkdir and touch

  /** An empty entry: its slot's id, the first 27 characters of the name, no size and no blocks. */
  predicate Fresh(ino: Inode, s: nat, kind: u16, dir: u16, name: CString) {
    ino.id == s + 1 && ino.size == 0 && ino.kind == kind && ino.parent == dir
    && ino.name == name[..Min(|name|, 27)]
    && ino.indirect == 0 && forall k :: 0 <= k < 10 ==> ino.direct[k] == 0
  }

  /** The answer of mkdir and touch, and that they change exactly the first free slot, or nothing. */
  lemma CreateIs(fs: Fs, c: Command)
    requires c.Mkdir? || c.Touch?
    ensures Exec(fs, c).out ==
      if !fs.mounted then NotMounted else if c.name == [] then Usage
      else if Taken(fs.inodes, fs.cwd, c.name) then AlreadyExists
      else if !HasFree(fs.inodes) then TableFull else Done
    ensures var fs', kind := Exec(fs, c).fs, if c.Mkdir? then 2 else 1;
      if Exec(fs, c).out == Done then
        exists s: nat, ino :: FirstFree(fs.inodes, s) && Fresh(ino, s, kind, fs.cwd, c.name)
                              && fs' == fs.(inodes := fs.inodes[s := ino])
      else fs' == fs
  {
    NamedIs(fs.inodes, fs.cwd, c.name);
    FreeIs(fs.inodes);
    var kind := if c.Mkdir? then DIRECTORY else FILE;
    if Exec(fs, c).out == Done {
      var s := Find(fs.inodes, FreeSlot);
      var ino := NewInode(s, kind, fs.cwd, c.name);
      assert Fresh(ino, s, kind, fs.cwd, c.name);
      assert Exec(fs, c).fs == fs.(inodes := fs.inodes[s := ino]);
    }
  }

  // ----- rm

  /** The answer of rm; it frees one slot and exactly the blocks of a file, and touches nothing else. */
  lemma RemoveIs(fs: Fs, name: CString, o: nat)
    requires Inv(fs) && fs.mounted && FirstEntry(fs.inodes, fs.cwd, name, o)
    ensures var r := Exec(fs, Rm(name));
      var ino := fs.inodes[o];
      if ino.kind == DIRECTORY && HasChild(fs.inodes, o + 1) then r == Effect(fs, NotEmpty)
      else
        && r.out == Done && r.fs == fs.(inodes := fs.inodes[o := ino.(id := 0)], bits := r.fs.bits)
        && forall b :: 0 <= b < BITMAP_BITS ==>
             (r.fs.bits[b] <==> fs.bits[b] && forall j :: 0 <= j < POINTER_COUNT ==> PtrOf(fs.data, ino, j) != 11 + b)
  {
    var t, ino := fs.inodes, fs.inodes[o];
    NamedIs(t, fs.cwd, name);
    assert Find(t, Named(fs.cwd, name)) == o;
    assert SlotOk(t, o);
    ChildIs(t, o + 1);
    if ino.kind == DIRECTORY {
      assert forall j :: 0 <= j < POINTER_COUNT ==> PtrOf(fs.data, ino, j) == 0;
    }
  }

  /** Otherwise rm refuses and changes nothing. */
  lemma RemoveRefuses(fs: Fs, name: CString)
    requires !fs.mounted || name == [] || !Taken(fs.inodes, fs.cwd, name)
    ensures Exec(fs, Rm(name)) == Effect(fs, if !fs.mounted then NotMounted else if name == [] then Usage else NotFound)
  {
    NamedIs(fs.inodes, fs.cwd, name);
  }

  // ----- cd

  /** cd by name: the first directory of that name, or a refusal. */
  lemma CdIs(fs: Fs, path: CString)
    requires Inv(fs) && fs.mounted && Navigable(path)
    ensures var r := Exec(fs, Cd(path));
      if TakenBy(fs.inodes, fs.cwd, path, DIRECTORY) then
        exists o: nat :: FirstOfKind(fs.inodes, fs.cwd, path, DIRECTORY, o) && r == Effect(fs.(cwd := o + 1), Done)
      else r == Effect(fs, NotFound)
  {
    DirIs(fs.inodes, fs.cwd, path);
    var o := Find(fs.inodes, DirNamed(fs.cwd, path));
    if o < MAX_INODES {
      assert SlotOk(fs.inodes, o);
    }
  }

  /** cd to the root, upwards, and its refusals. */
  lemma CdSpecial(fs: Fs)
    requires Inv(fs)
    ensures fs.mounted ==> Exec(fs, Cd([47])) == Effect(fs.(cwd := 0), Done)
    ensures fs.mounted && fs.cwd == 0 ==> Exec(fs, Cd([46, 46])) == Effect(fs, Done)
    ensures fs.mounted && fs.cwd != 0 ==> Exec(fs, Cd([46, 46])) == Effect(fs.(cwd := fs.inodes[fs.cwd - 1].parent), Done)
    ensures fs.mounted ==> Exec(fs, Cd([])) == Effect(fs, Usage)
    ensures forall path :: !fs.mounted ==> Exec(fs, Cd(path)) == Effect(fs, NotMounted)
  {
    if fs.mounted && fs.cwd != 0 {
      FindLive(fs.inodes, fs.cwd);
    }
  }

  // ----- write and writehex

  /** The answer of write and writehex, and that a refusal before the release changes nothing. */
  lemma WriteIs(fs: Fs, c: Command)
    requires c.Write? || c.WriteHex?
    ensures var r, a := Exec(fs, c), ParseArgs(c.args);
      && r.out == (
           if !fs.mounted then NotMounted else if c.args == [] then Usage
           else if !a.Args? then MissingPayload
           else if !TakenBy(fs.inodes, fs.cwd, a.file, FILE) then NotFound
           else if c.WriteHex? && !c.bufferOk then NoBuffer
           else if |PayloadOf(c)| > 512 * 266 then TooLarge else Done)
      && (r.out != Done && r.out != NoBuffer && r.out != TooLarge ==> r.fs == fs)
      && (r.out == NoBuffer || r.out == TooLarge ==> r.fs == fs.(bits := r.fs.bits))
  {
    if ParseArgs(c.args).Args? {
      FileIs(fs.inodes, fs.cwd, ParseArgs(c.args).file);
    }
  }

  // ----- sessions

  /** mkfs: refused without a capacity, else an empty disk of at most 4096 sectors, and the session left alone. */
  lemma MkfsIs(fs: Fs, capacity: u32)
    ensures var r := Exec(fs, Mkfs(capacity));
      if capacity == 0 then r == Effect(fs, NoCapacity)
      else
        && r.out == Done
        && r.fs == fs.(sb := r.fs.sb, inodes := r.fs.inodes, bits := r.fs.bits)
        && r.fs.sb == Superblock(0x52455821, 1, if capacity > 4096 then 4096 else capacity, 64, 11, 1)
        && (forall o :: 0 <= o < MAX_INODES ==> r.fs.inodes[o].id == 0)
        && (forall b :: 0 <= b < BITMAP_BITS ==> !r.fs.bits[b])
  {
  }

  /** mount: refused on a foreign signature or version, else a session at the root of the whole disk. */
  lemma MountIs(fs: Fs)
    requires Inv(fs)
    ensures var r := Exec(fs, Mount);
      if fs.sb.magic != 0x52455821 then r == Effect(fs, NoSignature)
      else if fs.sb.version != 1 then r == Effect(fs, BadVersion)
      else
        && r.out == (if fs.sb.cleanShutdown == 0 then MountedDirty else MountedClean)
        && r.fs.mounted && r.fs.cwd == 0 && r.fs.active.totalBlocks == fs.sb.totalBlocks
        && Usable(r.fs) == fs.sb.totalBlocks - 11 && r.fs.active.dataOffset == 11
        && r.fs == fs.(sb := fs.sb.(cleanShutdown := 0), mounted := true, active := r.fs.active, cwd := 0)
  {
  }

  /** unmount closes an open session at the root and marks the disk clean; nothing else changes. */
  lemma UnmountIs(fs: Fs)
    ensures Exec(fs, Unmount) ==
      if fs.mounted then Effect(fs.(sb := fs.sb.(cleanShutdown := 1), mounted := false, cwd := 0), Done)
      else Effect(fs, NotMounted)
    ensures !Exec(fs, Unmount).fs.mounted
  {
  }

  /** A reboot ends the session and opens one exactly when the disk can be mounted. */
  lemma RebootIs(fs: Fs)
    requires Inv(fs)
    ensures var r := Exec(fs, Reboot);
      && (r.fs.mounted <==> fs.sb.magic == 0x52455821 && fs.sb.version == 1)
      && r.fs.cwd == 0 && r.fs.inodes == fs.inodes && r.fs.bits == fs.bits && r.fs.data == fs.data
      && (r.fs.mounted ==> Usable(r.fs) == fs.sb.totalBlocks - 11)
  {
  }

  // ----- cat and the loader

  /** cat answers for exactly the live files of the current directory; an empty one prints nothing. */
  lemma CatIs(fs: Fs, name: CString)
    ensures var r := Cat(fs, name);
      if !fs.mounted then r == Refused(NotMounted) else if name == [] then r == Refused(Usage)
      else if !TakenBy(fs.inodes, fs.cwd, name, FILE) then r == Refused(NotFound)
      else exists o: nat :: FirstOfKind(fs.inodes, fs.cwd, name, FILE, o)
             && r == Text(if fs.inodes[o].size == 0 then [] else Contents(fs.data, fs.inodes[o]) + [10])
  {
    FileIs(fs.inodes, fs.cwd, name);
  }

  /** exec answers for exactly the live files of at least 8 bytes, and needs a buffer; then it has the contents in front. */
  lemma LoadIs(fs: Fs, name: CString, bufferOk: bool, r: Loaded)
    requires LoadsAs(fs, name, bufferOk, r)
    ensures
      if !fs.mounted then r == LoadRefused(NotMounted) else if name == [] then r == LoadRefused(Usage)
      else if !TakenBy(fs.inodes, fs.cwd, name, FILE) then r == LoadRefused(NotFound)
      else exists o: nat :: FirstOfKind(fs.inodes, fs.cwd, name, FILE, o)
             && if fs.inodes[o].size < 8 then r == LoadRefused(NotExecutable)
                else if !bufferOk then r == LoadRefused(NoBuffer)
                else r.Image? && |r.bytes| == fs.inodes[o].size && Contents(fs.data, fs.inodes[o]) <= r.bytes
  {
    FileIs(fs.inodes, fs.cwd, name);
  }

  /** A program image: NEX!, a version, the offset of its entry point, both low byte first, and the code. */
  function Program(version: u16, entry: u16, code: seq<byte>): (image: seq<byte>)
    ensures |image| == 8 + |code|
  {
    [78, 69, 88, 33, version % 256, version / 256, entry % 256, entry / 256] + code
  }

  /** The loader finds the entry point of every image whose entry lies inside it, and refuses all others. */
  lemma InspectIs(version: u16, entry: u16, code: seq<byte>)
    ensures Inspect(Program(version, entry, code))
         == if entry < 8 + |code| then Runnable(entry) else EntryOutOfBounds
  {
    var image := Program(version, entry, code);
    assert image[..4] == [78, 69, 88, 33];
  }

  lemma BadSignatureIs(image: seq<byte>)
    requires |image| >= 8
    ensures Inspect(image) == BadSignature
      <==> !(image[0] == 78 && image[1] == 69 && image[2] == 88 && image[3] == 33)
  {
    assert image[..4] == [image[0], image[1], image[2], image[3]];
  }

  // ----- the text of command lines

  /** How a command line is split: at the first blank, but after 31 characters at the latest; then blanks are skipped. */
  lemma ParseIs(args: CString)
    ensures var a := ParseArgs(args);
      && (a.NoPayload? <==> |args| <= 31 && SPACE !in args)
      && (a.Args? ==>
            var n := |a.file|;
            && n <= 31 && n <= |args| && a.file == args[..n] && SPACE !in a.file
            && (n == 31 || (n < |args| && args[n] == SPACE))
            && (exists k: nat :: args == a.file + Blanks(k) + a.payload)
            && (a.payload != [] ==> a.payload[0] != SPACE))
  {
    NameEndIs(args, 0);
    var e := NameEnd(args, 0);
    assert args[..|args|] == args;
    ThreeParts(args, e, SkipSpaces(args, e));
  }

  /** Around a run of blanks. */
  lemma ThreeParts(args: CString, e: nat, k: nat)
    requires e <= k <= |args| && forall i :: e <= i < k ==> args[i] == SPACE
    ensures exists n: nat :: args == args[..e] + Blanks(n) + args[k..]
  {
    assert args == args[..e] + Blanks(k - e) + args[k..];
  }

  lemma {:induction false} NameEndIs(args: CString, i: nat)
    requires i <= |args| && i <= 31 && SPACE !in args[..i]
    ensures var e := NameEnd(args, i);
      SPACE !in args[..e] && (e == |args| || e == 31 || args[e] == SPACE)
    decreases |args| - i
  {
    if i < |args| && args[i] != SPACE && i < 31 {
      assert args[..i + 1] == args[..i] + [args[i]];
      NameEndIs(args, i + 1);
    }
  }

  /** A character stands for the digit it spells in either case, and for 0 when it spells none. */
  lemma NibbleIs(c: Char)
    ensures (exists v: nat, upper: bool :: v < 16 && c == HexChar(v, upper) && Nibble(c) == v)
      || (Nibble(c) == 0 && forall v: nat, upper: bool :: v < 16 ==> c != HexChar(v, upper))
  {
    if 48 <= c <= 57 {
      assert c == HexChar(c - 48, false);
    } else if 97 <= c <= 102 {
      assert c == HexChar(c - 87, false);
    } else if 65 <= c <= 70 {
      assert c == HexChar(c - 55, true);
    }
  }

  /** Behind complete pairs a single digit is dropped. */
  lemma {:induction false} OddDigitDropped(bytes: seq<byte>, gaps: seq<nat>, upper: seq<bool>, c: Char)
    requires |gaps| == |upper| == |bytes| && c != SPACE
    ensures HexOf(Spell(bytes, gaps, upper) + [c]) == bytes
    decreases |bytes|
  {
    if bytes == [] {
      assert Spell(bytes, gaps, upper) + [c] == [c];
    } else {
      var rest := Spell(bytes[1..], gaps[1..], upper[1..]) + [c];
      var p := [HexChar(bytes[0] / 16, upper[0]), HexChar(bytes[0] % 16, upper[0])];
      assert Spell(bytes, gaps, upper) + [c] == Blanks(gaps[0]) + (p + rest);
      HexSkipsBlanks(gaps[0], p + rest);
      HexReadsPair(bytes[0], upper[0], rest);
      OddDigitDropped(bytes[1..], gaps[1..], upper[1..], c);
    }
  }
}
