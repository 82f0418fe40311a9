/** Files whose size is what can be read of them, and what that means for the program loader. */
module RexFsWhole {
  import opened Machine
  import opened RexFsLayout
  import opened RexFsBlocks
  import opened RexFsModel
  import opened RexFsRuns
  import opened RexFsRoundTrip

  /** Every byte that the inode's size promises is there. */
  predicate Whole(data: Data, ino: Inode) {
    ino.size == |Contents(data, ino)|
  }

  /** A write leaves its file whole exactly when it does not lose a block for lack of an index block. */
  lemma StoreWhole(fs: Fs, s: nat, payload: seq<byte>)
    requires Writable(fs, s, payload)
    ensures var fs' := Store(fs, s, payload);
      Whole(fs'.data, fs'.inodes[s]) <==> !LosesBlock(payload, FreeAfterRelease(fs, s))
  {
    StoreThenRead(fs, s, payload);
    StoreLoop(fs, s, payload);
  }

  /** On a formatted disk every live entry is whole. */
  ghost predicate AllWhole(fs: Fs) {
    Formatted(fs.sb) ==> forall o :: 0 <= o < MAX_INODES && fs.inodes[o].id != 0 ==> Whole(fs.data, fs.inodes[o])
  }

  lemma EmptyIsWhole(data: Data, ino: Inode)
    requires ino.size == 0
    ensures Whole(data, ino)
  {
    assert |Contents(data, ino)| == ContentsLength(data, ino);
  }

  /** Entries that a command neither overwrites nor removes stay whole; a new one is empty. */
  lemma OthersWhole(fs: Fs, c: Command, o: nat)
    requires Inv(fs) && AllWhole(fs) && Formatted(fs.sb) && !c.Mkfs?
    requires o < MAX_INODES && Exec(fs, c).fs.inodes[o].id != 0 && o != Touched(fs, c)
    ensures Whole(Exec(fs, c).fs.data, Exec(fs, c).fs.inodes[o])
  {
    if fs.inodes[o].id != 0 {
      NonInterference(fs, c, o);
    } else {
      NewIsEmpty(fs, c, o);
      EmptyIsWhole(Exec(fs, c).fs.data, Exec(fs, c).fs.inodes[o]);
    }
  }

  lemma NewIsEmpty(fs: Fs, c: Command, o: nat)
    requires Inv(fs) && Formatted(fs.sb) && !c.Mkfs? && o < MAX_INODES && fs.inodes[o].id == 0
    requires Exec(fs, c).fs.inodes[o].id != 0
    ensures Exec(fs, c).fs.inodes[o].size == 0
  {
  }

  /** The file that a command overwrites is whole afterwards exactly when the write does not leak. */
  lemma WrittenWhole(fs: Fs, c: Command, s: nat)
    requires Inv(fs) && AllWhole(fs) && (c.Write? || c.WriteHex?) && s == WriteTarget(fs, c.args) < MAX_INODES
    ensures Whole(Exec(fs, c).fs.data, Exec(fs, c).fs.inodes[s]) <==> !Leaks(fs, c)
  {
    assert Matches(FileNamed(fs.cwd, ParseArgs(c.args).file), fs.inodes[s]);
    if !RefusedLate(c) {
      StoreWhole(fs, s, PayloadOf(c));
      assert Exec(fs, c).fs == Store(fs, s, PayloadOf(c));
    }
  }

  lemma WriteKeepsSlot(fs: Fs, c: Command, s: nat)
    requires Inv(fs) && (c.Write? || c.WriteHex?) && s == WriteTarget(fs, c.args) < MAX_INODES
    ensures Exec(fs, c).fs.inodes[s].id != 0 && Exec(fs, c).fs.sb == fs.sb
  {
    assert Matches(FileNamed(fs.cwd, ParseArgs(c.args).file), fs.inodes[s]);
    if !RefusedLate(c) {
      StoreKeeps(fs, s, PayloadOf(c));
      assert Exec(fs, c).fs == Store(fs, s, PayloadOf(c));
    }
  }

  lemma WriteStepWhole(fs: Fs, c: Command)
    requires Inv(fs) && AllWhole(fs) && Formatted(fs.sb) && (c.Write? || c.WriteHex?)
    ensures AllWhole(Exec(fs, c).fs) <==> !Leaks(fs, c)
  {
    var s, fs' := WriteTarget(fs, c.args), Exec(fs, c).fs;
    if s < MAX_INODES {
      WrittenWhole(fs, c, s);
      WriteKeepsSlot(fs, c, s);
    }
    forall o | 0 <= o < MAX_INODES && fs'.inodes[o].id != 0 && o != s
      ensures Whole(fs'.data, fs'.inodes[o])
    {
      OthersWhole(fs, c, o);
    }
  }

  lemma OtherStepWhole(fs: Fs, c: Command)
    requires Inv(fs) && AllWhole(fs) && Formatted(fs.sb) && !c.Write? && !c.WriteHex? && !c.Mkfs?
    ensures AllWhole(Exec(fs, c).fs)
  {
    var fs' := Exec(fs, c).fs;
    forall o | 0 <= o < MAX_INODES && fs'.inodes[o].id != 0
      ensures Whole(fs'.data, fs'.inodes[o])
    {
      if o == Touched(fs, c) {
        TouchedIsGone(fs, c, o);
      } else {
        OthersWhole(fs, c, o);
      }
    }
  }

  /** rm removes the entry it finds, or leaves everything as it was. */
  lemma TouchedIsGone(fs: Fs, c: Command, o: nat)
    requires !c.Write? && !c.WriteHex? && o == Touched(fs, c) < MAX_INODES
    ensures Exec(fs, c).fs.inodes[o].id == 0 || Exec(fs, c).fs == fs
  {
  }

  lemma FormatWhole(fs: Fs, capacity: u32)
    requires AllWhole(fs)
    ensures AllWhole(Format(fs, capacity).fs)
  {
  }

  /** Every command keeps all files whole, unless it is a write that cannot get its index block. */
  lemma StepWhole(fs: Fs, c: Command)
    requires Inv(fs) && AllWhole(fs)
    ensures AllWhole(Exec(fs, c).fs) <==> !Leaks(fs, c)
  {
    if c.Mkfs? {
      FormatWhole(fs, c.capacity);
    } else if !Formatted(fs.sb) {
      UnformattedStays(fs, c);
    } else if c.Write? || c.WriteHex? {
      WriteStepWhole(fs, c);
    } else {
      OtherStepWhole(fs, c);
    }
  }

  lemma UnformattedStays(fs: Fs, c: Command)
    requires Inv(fs) && !Formatted(fs.sb) && !c.Mkfs?
    ensures !Formatted(Exec(fs, c).fs.sb) && !Leaks(fs, c)
  {
  }

  /** Over every safe run without such a write each live file has exactly as many bytes as its size says. */
  lemma {:induction false} RunWhole(fs: Fs, cs: seq<Command>, i: nat)
    requires Inv(fs) && AllWhole(fs) && SafeRun(fs, cs) && i <= |cs|
    requires forall k :: 0 <= k < |cs| ==> !Leaks(At(fs, cs, k), cs[k])
    ensures AllWhole(At(fs, cs, i))
  {
    if i == 0 {
      assert cs[..0] == [];
    } else {
      RunWhole(fs, cs, i - 1);
      RunInvariant(fs, cs, i - 1);
      RunStep(fs, cs, i - 1);
      StepWhole(At(fs, cs, i - 1), cs[i - 1]);
    }
  }

  /** Whatever the loader's buffer held before, it then holds exactly the file. */
  lemma RunLoadsExactly(fs: Fs, cs: seq<Command>, i: nat, name: CString, r: Loaded)
    requires Inv(fs) && AllWhole(fs) && SafeRun(fs, cs) && i <= |cs|
    requires forall k :: 0 <= k < |cs| ==> !Leaks(At(fs, cs, k), cs[k])
    requires LoadsAs(At(fs, cs, i), name, true, r) && r.Image?
    ensures var now := At(fs, cs, i);
      var s := Find(now.inodes, FileNamed(now.cwd, name));
      s < MAX_INODES && r.bytes == Contents(now.data, now.inodes[s])
  {
    RunWhole(fs, cs, i);
    RunInvariant(fs, cs, i);
    var now := At(fs, cs, i);
    var s := Find(now.inodes, FileNamed(now.cwd, name));
    assert Whole(now.data, now.inodes[s]);
  }
}
