/** Giving blocks back: touch, write and rm of one name return the bitmap to what it was. */
module RexFsCycle {
  import opened Machine
  import opened RexFsLayout
  import opened RexFsBlocks
  import opened RexFsTree
  import opened RexFsModel
  import opened RexFsRuns
  import opened RexFsNames
  import opened RexFsRoundTrip

  /** Two disks with the same pointers and the same leaked blocks have the same bitmap. */
  lemma SamePointersSameBits(a: Fs, b: Fs)
    requires DiskOk(a) && DiskOk(b) && LeakedIn(a) == LeakedIn(b)
    requires forall s, j :: 0 <= s < MAX_INODES && 0 <= j < POINTER_COUNT ==>
      Ptr(a.inodes, a.data, s, j) == Ptr(b.inodes, b.data, s, j)
    ensures a.bits == b.bits
  {
    SetBitsAre(a);
    SetBitsAre(b);
    forall i | 0 <= i < BITMAP_BITS
      ensures a.bits[i] == b.bits[i]
    {
      SameReferencesPointwise(a, b, DATA_START + i);
    }
  }

  /** With the same pointers, the bitmaps agree exactly when the leaked blocks do. */
  lemma SameBitsSameLeaks(a: Fs, b: Fs)
    requires DiskOk(a) && DiskOk(b)
    requires forall s, j :: 0 <= s < MAX_INODES && 0 <= j < POINTER_COUNT ==>
      Ptr(a.inodes, a.data, s, j) == Ptr(b.inodes, b.data, s, j)
    ensures a.bits == b.bits <==> LeakedIn(a) == LeakedIn(b)
  {
    if LeakedIn(a) == LeakedIn(b) {
      SamePointersSameBits(a, b);
    }
    if a.bits == b.bits {
      forall i | 0 <= i < BITMAP_BITS
        ensures i in LeakedIn(a) <==> i in LeakedIn(b)
      {
        SameReferencesPointwise(a, b, DATA_START + i);
      }
      assert LeakedIn(a) == LeakedIn(b);
    }
  }

  lemma SameReferencesPointwise(a: Fs, b: Fs, x: nat)
    requires forall s, j :: 0 <= s < MAX_INODES && 0 <= j < POINTER_COUNT ==>
      Ptr(a.inodes, a.data, s, j) == Ptr(b.inodes, b.data, s, j)
    ensures Referenced(a.inodes, a.data, x) <==> Referenced(b.inodes, b.data, x)
  {
    if Referenced(a.inodes, a.data, x) {
      var s, j :| 0 <= s < MAX_INODES && 0 <= j < POINTER_COUNT && Ptr(a.inodes, a.data, s, j) == x;
      assert Ptr(b.inodes, b.data, s, j) == x;
    }
    if Referenced(b.inodes, b.data, x) {
      var s, j :| 0 <= s < MAX_INODES && 0 <= j < POINTER_COUNT && Ptr(b.inodes, b.data, s, j) == x;
      assert Ptr(a.inodes, a.data, s, j) == x;
    }
  }

  /** After touch, the new slot is what both lookups of the name find. */
  lemma TouchThenFind(fs: Fs, name: CString)
    requires Inv(fs) && Create(fs, name, FILE).out == Done && |name| <= NAME_MAX
    ensures var s := Find(fs.inodes, FreeSlot);
      var t := Create(fs, name, FILE).fs.inodes;
      && s < MAX_INODES && fs.inodes[s].id == 0 && t == fs.inodes[s := NewInode(s, FILE, fs.cwd, name)]
      && Find(t, FileNamed(fs.cwd, name)) == s && Find(t, Named(fs.cwd, name)) == s
  {
    var s := Find(fs.inodes, FreeSlot);
    var t := Create(fs, name, FILE).fs.inodes;
    forall o | 0 <= o < MAX_INODES && o != s
      ensures !Matches(Named(fs.cwd, name), t[o]) && !Matches(FileNamed(fs.cwd, name), t[o])
    {
      assert !Matches(Named(fs.cwd, name), fs.inodes[o]);
    }
    FindIs(t, FileNamed(fs.cwd, name), s);
    FindIs(t, Named(fs.cwd, name), s);
  }

  lemma FindNamedInSameTree(t: Table, t': Table, s: nat, dir: u16, name: CString)
    requires s < MAX_INODES && SameTree(t, t', s)
    ensures Find(t', Named(dir, name)) == Find(t, Named(dir, name))
  {
    FindCongruent(t, t', Named(dir, name));
  }

  /** touch has put an empty file into slot s, and the payload to come is not too long. */
  ghost predicate CycleReady(fs: Fs, name: CString, payload: seq<byte>, s: nat, fs1: Fs) {
    && Inv(fs) && fs.mounted
    && s < MAX_INODES && fs.inodes[s].id == 0
    && fs1 == fs.(inodes := fs.inodes[s := NewInode(s, FILE, fs.cwd, name)]) && Inv(fs1)
    && BlocksFor(|payload|) <= MAX_FILE_BLOCKS
  }

  /** rm of a file: its slot and its blocks are free again. */
  ghost function WithoutFile(fs: Fs, s: nat): Fs
    requires s < MAX_INODES
  {
    fs.(inodes := fs.inodes[s := fs.inodes[s].(id := 0)], bits := Release(fs.bits, fs.data, fs.inodes[s]))
  }

  /** The three steps on slot s: every other file is untouched, and a block leaks only for lack of an index block. */
  lemma CycleFrame(fs: Fs, name: CString, payload: seq<byte>, s: nat, fs1: Fs, fs2: Fs, fs3: Fs)
    requires CycleReady(fs, name, payload, s, fs1) && fs2 == Store(fs1, s, payload) && fs3 == WithoutFile(fs2, s)
    ensures OthersKept(fs.inodes, fs.data, fs3.inodes, fs3.data, s)
    ensures Grows(LeakedIn(fs), LeakedIn(fs3), LosesBlock(payload, FreeAfterRelease(fs1, s)))
    ensures Owned(fs3.inodes, fs3.bits, fs3.data, Usable(fs))
  {
    AddKeepsOwned(fs.inodes, fs.bits, fs.data, Usable(fs), s, fs1.inodes[s]);
    StoreKeeps(fs1, s, payload);
    RemoveKeepsOwned(fs2, s);
    OthersKeptTrans(fs.inodes, fs.data, fs1.inodes, fs1.data, fs2.inodes, fs2.data, s);
    OthersKeptTrans(fs.inodes, fs.data, fs2.inodes, fs2.data, fs3.inodes, fs3.data, s);
  }

  lemma PointersOutsideKept(a: Fs, b: Fs, s: nat)
    requires s < MAX_INODES && a.inodes[s].id == 0 && b.inodes[s].id == 0
    requires OthersKept(a.inodes, a.data, b.inodes, b.data, s)
    ensures forall o, j :: 0 <= o < MAX_INODES && 0 <= j < POINTER_COUNT ==>
      Ptr(a.inodes, a.data, o, j) == Ptr(b.inodes, b.data, o, j)
  {
    forall o, j | 0 <= o < MAX_INODES && 0 <= j < POINTER_COUNT
      ensures Ptr(a.inodes, a.data, o, j) == Ptr(b.inodes, b.data, o, j)
    {
      assert o != s ==> FileKept(a.inodes, a.data, b.inodes, b.data, o);
    }
  }

  /** Storing into the slot that touch made, then removing it, restores the bitmap unless a block leaked. */
  lemma CycleEnds(fs: Fs, name: CString, payload: seq<byte>, s: nat, fs1: Fs, fs2: Fs, fs3: Fs)
    requires CycleReady(fs, name, payload, s, fs1) && fs2 == Store(fs1, s, payload) && fs3 == WithoutFile(fs2, s)
    requires DiskOk(fs3)
    ensures fs3.bits == fs.bits <==> !LosesBlock(payload, FreeAfterRelease(fs1, s))
  {
    CycleFrame(fs, name, payload, s, fs1, fs2, fs3);
    PointersOutsideKept(fs, fs3, s);
    SameBitsSameLeaks(fs, fs3);
  }

  /** rm of the file in slot s frees its blocks and its slot. */
  lemma RemoveFile(fs: Fs, name: CString, s: nat)
    requires Inv(fs) && fs.mounted && name != [] && s < MAX_INODES
    requires Find(fs.inodes, Named(fs.cwd, name)) == s && fs.inodes[s].kind == FILE
    ensures Remove(fs, name).fs == WithoutFile(fs, s) && Inv(WithoutFile(fs, s))
  {
    RemoveKeeps(fs, name);
  }

  /** Writing to the slot that touch made and removing the name restores the bitmap unless a block leaked. */
  lemma StoreThenRemove(fs: Fs, name: CString, payload: seq<byte>, s: nat, fs1: Fs)
    requires CycleReady(fs, name, payload, s, fs1) && name != []
    requires Find(fs1.inodes, Named(fs.cwd, name)) == s
    ensures Remove(Store(fs1, s, payload), name).fs.bits == fs.bits <==> !LosesBlock(payload, FreeAfterRelease(fs1, s))
  {
    var fs2 := Store(fs1, s, payload);
    StoreKeeps(fs1, s, payload);
    FindNamedInSameTree(fs1.inodes, fs2.inodes, s, fs.cwd, name);
    RemoveFile(fs2, name, s);
    CycleEnds(fs, name, payload, s, fs1, fs2, Remove(fs2, name).fs);
  }

  /** A write that is refused late finds no blocks to release, and neither does the rm that follows. */
  lemma RefusedThenRemove(fs1: Fs, name: CString, s: nat)
    requires Inv(fs1) && fs1.mounted && name != [] && s < MAX_INODES
    requires Find(fs1.inodes, Named(fs1.cwd, name)) == s && fs1.inodes[s].kind == FILE && !OwnsBlocks(fs1, s)
    ensures Remove(fs1.(bits := Release(fs1.bits, fs1.data, fs1.inodes[s])), name).fs.bits == fs1.bits
  {
    assert Release(fs1.bits, fs1.data, fs1.inodes[s]) == fs1.bits;
    RemoveFile(fs1, name, s);
  }

  lemma {:induction false} NameEndPast(args: CString, i: nat, n: nat)
    requires i <= n <= 31 && n <= |args| && forall j :: 0 <= j < n ==> args[j] != SPACE
    ensures NameEnd(args, i) >= n
    decreases n - i
  {
    if i < n {
      NameEndPast(args, i + 1, n);
    }
  }

  /** A file whose name was cut short is not what write and rm of the full name find. */
  lemma LongNameNotFound(fs1: Fs, name: CString, text: CString, args: CString)
    requires Inv(fs1) && fs1.mounted && |name| > NAME_MAX && SPACE !in name && args == name + [SPACE] + text
    ensures WriteTarget(fs1, args) == MAX_INODES
    ensures Remove(WriteArgs(fs1, args, false, true).fs, name).fs == fs1
  {
    NameEndPast(args, 0, NAME_MAX + 1);
    LongNamesAreNew(fs1.inodes, fs1.cwd, name);
    if ParseArgs(args).Args? {
      forall o | 0 <= o < MAX_INODES
        ensures !Matches(FileNamed(fs1.cwd, ParseArgs(args).file), fs1.inodes[o])
      {
        assert SlotOk(fs1.inodes, o);
      }
    }
  }

  /** The write and the rm, when both find the file that touch made in slot s. */
  lemma WriteThenRemove(fs: Fs, name: CString, args: CString, s: nat, fs1: Fs)
    requires Inv(fs) && fs.mounted && name != [] && s < MAX_INODES && fs.inodes[s].id == 0
    requires fs1 == fs.(inodes := fs.inodes[s := NewInode(s, FILE, fs.cwd, name)]) && Inv(fs1)
    requires s == WriteTarget(fs1, args) == Find(fs1.inodes, Named(fs.cwd, name))
    ensures Remove(WriteArgs(fs1, args, false, true).fs, name).fs.bits == fs.bits <==> !Leaks(fs1, Write(args))
  {
    var payload := ParseArgs(args).payload;
    if RefusedLate(Write(args)) {
      RefusedThenRemove(fs1, name, s);
    } else {
      assert WriteArgs(fs1, args, false, true).fs == Store(fs1, s, payload);
      StoreThenRemove(fs, name, payload, s, fs1);
    }
  }

  /** touch, write and rm of one name return the bitmap exactly unless the write leaks, on any disk. */
  lemma TouchWriteRm(fs: Fs, name: CString, text: CString, args: CString)
    requires Inv(fs) && fs.mounted && SPACE !in name && args == name + [SPACE] + text
    requires Create(fs, name, FILE).out == Done
    ensures Run(fs, [Touch(name), Write(args), Rm(name)]).bits == fs.bits
      <==> !Leaks(Create(fs, name, FILE).fs, Write(args))
  {
    var fs1 := Create(fs, name, FILE).fs;
    CreateKeeps(fs, name, FILE);
    ThreeCommands(fs, name, args);
    if |name| > NAME_MAX {
      LongNameNotFound(fs1, name, text, args);
    } else {
      TouchThenFind(fs, name);
      TargetOfLine(fs1, name, text);
      WriteThenRemove(fs, name, args, Find(fs.inodes, FreeSlot), fs1);
    }
  }

  lemma ThreeCommands(fs: Fs, name: CString, args: CString)
    ensures Run(fs, [Touch(name), Write(args), Rm(name)])
         == Remove(WriteArgs(Create(fs, name, FILE).fs, args, false, true).fs, name).fs
  {
    var cs := [Touch(name), Write(args), Rm(name)];
    assert cs[..2] == [Touch(name), Write(args)] && cs[..2][..1] == [Touch(name)] && cs[..1][..0] == [];
    assert Run(fs, [Touch(name)]) == Create(fs, name, FILE).fs by {
      assert [Touch(name)][..0] == [];
    }
    assert Run(fs, [Touch(name), Write(args)]) == WriteArgs(Create(fs, name, FILE).fs, args, false, true).fs by {
      assert [Touch(name), Write(args)][..1] == [Touch(name)];
    }
  }
}
