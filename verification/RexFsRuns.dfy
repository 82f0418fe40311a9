/** What holds over every run of RexFS commands. */
module RexFsRuns {
  import opened Machine
  import opened RexFsLayout
  import opened RexFsBlocks
  import opened RexFsModel

  // ----- the invariant, step by step and over runs

  /** A write refused after the release breaks ownership exactly when the file had blocks. */
  lemma LateRefusal(fs: Fs, s: nat)
    requires Inv(fs) && fs.mounted && s < MAX_INODES && fs.inodes[s].id != 0
    ensures Inv(fs.(bits := Release(fs.bits, fs.data, fs.inodes[s]))) <==> !OwnsBlocks(fs, s)
  {
    var t, data := fs.inodes, fs.data;
    var bits' := Release(fs.bits, data, t[s]);
    if OwnsBlocks(fs, s) {
      var j :| 0 <= j < POINTER_COUNT && PtrOf(data, t[s], j) != 0;
      var p := Ptr(t, data, s, j);
      assert InData(p, Usable(fs));
      assert Owns(data, t[s], DATA_START + (p - DATA_START));
      assert !bits'[p - DATA_START];
    } else {
      assert bits' == fs.bits;
    }
  }

  lemma WriteKeeps(fs: Fs, c: Command)
    requires Inv(fs) && (c.Write? || c.WriteHex?)
    ensures Inv(Exec(fs, c).fs) <==> Safe(fs, c)
  {
    var s := WriteTarget(fs, c.args);
    if s < MAX_INODES {
      assert Matches(FileNamed(fs.cwd, ParseArgs(c.args).file), fs.inodes[s]);
      if RefusedLate(c) {
        LateRefusal(fs, s);
      } else {
        var text := ParseArgs(c.args).payload;
        StoreKeeps(fs, s, if c.WriteHex? then HexOf(text) else text);
      }
    }
  }

  /** Every command keeps the invariant exactly under its Safe condition. */
  lemma StepInvariant(fs: Fs, c: Command)
    requires Inv(fs)
    ensures Inv(Exec(fs, c).fs) <==> Safe(fs, c)
  {
    match c
    case Mkfs(capacity) => FormatKeeps(fs, capacity);
    case Mount =>
    case Unmount =>
    case Reboot =>
    case Mkdir(_) => CreateKeeps(fs, c.name, DIRECTORY);
    case Touch(_) => CreateKeeps(fs, c.name, FILE);
    case Cd(_) => ChangeDirKeeps(fs, c.path);
    case Rm(_) => RemoveKeeps(fs, c.name);
    case Write(_) => WriteKeeps(fs, c);
    case WriteHex(_, _) => WriteKeeps(fs, c);
  }

  ghost function Run(fs: Fs, cs: seq<Command>): Fs {
    if cs == [] then fs else Exec(Run(fs, cs[..|cs| - 1]), cs[|cs| - 1]).fs
  }

  /** The state before the i-th command of a run. */
  ghost function At(fs: Fs, cs: seq<Command>, i: nat): Fs
    requires i <= |cs|
  {
    Run(fs, cs[..i])
  }

  ghost predicate SafeRun(fs: Fs, cs: seq<Command>) {
    forall i :: 0 <= i < |cs| ==> Safe(At(fs, cs, i), cs[i])
  }

  lemma RunStep(fs: Fs, cs: seq<Command>, i: nat)
    requires i < |cs|
    ensures At(fs, cs, i + 1) == Exec(At(fs, cs, i), cs[i]).fs
  {
    assert cs[..i + 1][..|cs[..i + 1]| - 1] == cs[..i];
  }

  /** Ownership, forest and session hold at every command boundary of every safe run. */
  lemma {:induction false} RunInvariant(fs: Fs, cs: seq<Command>, i: nat)
    requires Inv(fs) && SafeRun(fs, cs) && i <= |cs|
    ensures Inv(At(fs, cs, i))
  {
    if i > 0 {
      RunInvariant(fs, cs, i - 1);
      RunStep(fs, cs, i - 1);
      StepInvariant(At(fs, cs, i - 1), cs[i - 1]);
    }
  }

  /** An idle machine with an unformatted disk satisfies the invariant, whatever the disk holds. */
  lemma BlankDisk(fs: Fs)
    requires !Formatted(fs.sb) && !fs.mounted && fs.cwd == 0
    ensures Inv(fs)
  {
  }

  // ----- non-interference

  /** The slot whose file a command overwrites or removes, or MAX_INODES. */
  function Touched(fs: Fs, c: Command): nat {
    if c.Write? || c.WriteHex? then WriteTarget(fs, c.args)
    else if c.Rm? && fs.mounted && c.name != [] then Find(fs.inodes, Named(fs.cwd, c.name))
    else MAX_INODES
  }

  /** Slot o reads the same in both states. */
  ghost predicate Kept(fs: Fs, fs': Fs, o: nat)
    requires o < MAX_INODES
  {
    FileKept(fs.inodes, fs.data, fs'.inodes, fs'.data, o)
  }

  lemma CreateFrame(fs: Fs, name: CString, kind: u16, o: nat)
    requires DiskOk(fs) && o < MAX_INODES && fs.inodes[o].id != 0
    ensures Kept(fs, Create(fs, name, kind).fs, o)
  {
    if Create(fs, name, kind).out == Done {
      var s := Find(fs.inodes, FreeSlot);
      AddKeepsOwned(fs.inodes, fs.bits, fs.data, Usable(fs), s,
                    NewInode(s, kind, fs.cwd, name));
    }
  }

  lemma RemoveFrame(fs: Fs, name: CString, o: nat)
    requires DiskOk(fs) && o < MAX_INODES && fs.inodes[o].id != 0 && o != Touched(fs, Rm(name))
    ensures Kept(fs, Remove(fs, name).fs, o)
  {
    if Remove(fs, name).out == Done {
      RemoveKeepsOwned(fs, Find(fs.inodes, Named(fs.cwd, name)));
    }
  }

  lemma WriteFrame(fs: Fs, c: Command, o: nat)
    requires Inv(fs) && (c.Write? || c.WriteHex?)
    requires o < MAX_INODES && fs.inodes[o].id != 0 && o != Touched(fs, c)
    ensures Kept(fs, Exec(fs, c).fs, o)
  {
    if WriteTarget(fs, c.args) < MAX_INODES && !RefusedLate(c) {
      var text := ParseArgs(c.args).payload;
      StoreKeeps(fs, Touched(fs, c), if c.WriteHex? then HexOf(text) else text);
    }
  }

  lemma StepFrame(fs: Fs, c: Command, o: nat)
    requires Inv(fs) && Formatted(fs.sb) && !c.Mkfs?
    requires o < MAX_INODES && fs.inodes[o].id != 0 && o != Touched(fs, c)
    ensures Kept(fs, Exec(fs, c).fs, o)
  {
    if c.Mkdir? {
      CreateFrame(fs, c.name, DIRECTORY, o);
    } else if c.Touch? {
      CreateFrame(fs, c.name, FILE, o);
    } else if c.Rm? {
      RemoveFrame(fs, c.name, o);
    } else if c.Write? || c.WriteHex? {
      WriteFrame(fs, c, o);
    }
  }

  /** No command changes a live file other than the one it names: same inode, same bytes. */
  lemma NonInterference(fs: Fs, c: Command, o: nat)
    requires Inv(fs) && Formatted(fs.sb) && !c.Mkfs?
    requires o < MAX_INODES && fs.inodes[o].id != 0 && o != Touched(fs, c)
    ensures var fs' := Exec(fs, c).fs;
      fs'.inodes[o] == fs.inodes[o] && Contents(fs'.data, fs'.inodes[o]) == Contents(fs.data, fs.inodes[o])
  {
    StepFrame(fs, c, o);
    ContentsKept(fs.inodes, fs.data, Exec(fs, c).fs.inodes, Exec(fs, c).fs.data, o);
  }

  // ----- exact bitmap accounting

  function PayloadOf(c: Command): seq<byte>
    requires (c.Write? || c.WriteHex?) && ParseArgs(c.args).Args?
  {
    if c.WriteHex? then HexOf(ParseArgs(c.args).payload) else ParseArgs(c.args).payload
  }

  /** A write that needs more than ten blocks while exactly eleven are free. */
  ghost predicate Leaks(fs: Fs, c: Command) {
    (c.Write? || c.WriteHex?) && WriteTarget(fs, c.args) < MAX_INODES && !RefusedLate(c)
    && LosesBlock(PayloadOf(c), FreeAfterRelease(fs, WriteTarget(fs, c.args)))
  }

  lemma WriteLeaks(fs: Fs, c: Command)
    requires Inv(fs) && Safe(fs, c) && (c.Write? || c.WriteHex?)
    ensures Grows(LeakedIn(fs), LeakedIn(Exec(fs, c).fs), Leaks(fs, c))
  {
    var s := WriteTarget(fs, c.args);
    if s < MAX_INODES {
      assert Matches(FileNamed(fs.cwd, ParseArgs(c.args).file), fs.inodes[s]);
      if RefusedLate(c) {
        assert Release(fs.bits, fs.data, fs.inodes[s]) == fs.bits;
      } else {
        StoreKeeps(fs, s, PayloadOf(c));
      }
    }
  }

  lemma CreateLeaks(fs: Fs, name: CString, kind: u16)
    requires Inv(fs)
    ensures LeakedIn(Create(fs, name, kind).fs) == LeakedIn(fs)
  {
    if Create(fs, name, kind).out == Done {
      var s := Find(fs.inodes, FreeSlot);
      AddKeepsOwned(fs.inodes, fs.bits, fs.data, Usable(fs), s, NewInode(s, kind, fs.cwd, name));
    }
  }

  lemma RemoveLeaks(fs: Fs, name: CString)
    requires Inv(fs)
    ensures LeakedIn(Remove(fs, name).fs) == LeakedIn(fs)
  {
    if Remove(fs, name).out == Done {
      RemoveKeepsOwned(fs, Find(fs.inodes, Named(fs.cwd, name)));
    }
  }

  /** A safe command but mkfs keeps the set of leaked blocks, or adds one when a write gets no index block. */
  lemma StepLeaks(fs: Fs, c: Command)
    requires Inv(fs) && Safe(fs, c) && !c.Mkfs?
    ensures Grows(LeakedIn(fs), LeakedIn(Exec(fs, c).fs), Leaks(fs, c))
  {
    if c.Mkdir? {
      CreateLeaks(fs, c.name, DIRECTORY);
    } else if c.Touch? {
      CreateLeaks(fs, c.name, FILE);
    } else if c.Rm? {
      RemoveLeaks(fs, c.name);
    } else if c.Write? || c.WriteHex? {
      WriteLeaks(fs, c);
    }
  }

  /** mkfs takes every leaked block back. */
  lemma FormatLeaks(fs: Fs, capacity: u32)
    ensures LeakedIn(Format(fs, capacity).fs) == if capacity == 0 then LeakedIn(fs) else {}
  {
    EmptyDiskOk(fs.data, 0);
  }

  /** Leaked blocks after the first i commands: those at the start, and one for each leak since the last mkfs. */
  ghost function LeakCount(fs: Fs, cs: seq<Command>, i: nat): nat
    requires i <= |cs|
  {
    if i == 0 then |LeakedIn(fs)|
    else if cs[i - 1].Mkfs? && cs[i - 1].capacity > 0 then 0
    else LeakCount(fs, cs, i - 1) + (if Leaks(At(fs, cs, i - 1), cs[i - 1]) then 1 else 0)
  }

  /** The accounting of a whole safe run. */
  lemma {:induction false} RunLeaks(fs: Fs, cs: seq<Command>, i: nat)
    requires Inv(fs) && SafeRun(fs, cs) && i <= |cs|
    ensures |LeakedIn(At(fs, cs, i))| == LeakCount(fs, cs, i)
  {
    if i == 0 {
      assert cs[..0] == [];
    } else {
      RunLeaks(fs, cs, i - 1);
      RunInvariant(fs, cs, i - 1);
      RunStep(fs, cs, i - 1);
      StepCounts(At(fs, cs, i - 1), cs[i - 1]);
    }
  }

  lemma StepCounts(fs: Fs, c: Command)
    requires Inv(fs) && Safe(fs, c)
    ensures |LeakedIn(Exec(fs, c).fs)|
         == if c.Mkfs? && c.capacity > 0 then 0 else |LeakedIn(fs)| + (if Leaks(fs, c) then 1 else 0)
  {
    if c.Mkfs? {
      FormatLeaks(fs, c.capacity);
    } else {
      StepLeaks(fs, c);
    }
  }

  /** On a formatted disk every marked block belongs to a file. */
  ghost predicate Exact(fs: Fs) {
    Formatted(fs.sb) ==> LeakedIn(fs) == {}
  }

  /** A safe command keeps the bitmap exact unless it is a write that cannot get its index block. */
  lemma StepExact(fs: Fs, c: Command)
    requires Inv(fs) && Exact(fs) && Safe(fs, c)
    ensures Exact(Exec(fs, c).fs) <==> !Leaks(fs, c)
  {
    if c.Mkfs? {
      FormatLeaks(fs, c.capacity);
    } else {
      StepLeaks(fs, c);
    }
  }

  /** Over every safe run without such a write, the set bits are exactly the referenced blocks. */
  lemma {:induction false} RunExact(fs: Fs, cs: seq<Command>, i: nat)
    requires Inv(fs) && Exact(fs) && SafeRun(fs, cs) && i <= |cs|
    requires forall k :: 0 <= k < |cs| ==> !Leaks(At(fs, cs, k), cs[k])
    ensures Exact(At(fs, cs, i))
    ensures var now := At(fs, cs, i);
      Formatted(now.sb) ==> forall b :: 0 <= b < BITMAP_BITS ==>
        (now.bits[b] <==> Referenced(now.inodes, now.data, DATA_START + b))
  {
    RunInvariant(fs, cs, i);
    if i > 0 {
      RunExact(fs, cs, i - 1);
      RunInvariant(fs, cs, i - 1);
      RunStep(fs, cs, i - 1);
      StepExact(At(fs, cs, i - 1), cs[i - 1]);
    }
    if Formatted(At(fs, cs, i).sb) {
      SetBitsAre(At(fs, cs, i));
    }
  }

  /** The set bits are the referenced blocks and the leaked ones. */
  lemma SetBitsAre(fs: Fs)
    requires DiskOk(fs)
    ensures forall b :: 0 <= b < BITMAP_BITS ==>
      (fs.bits[b] <==> Referenced(fs.inodes, fs.data, DATA_START + b) || b in LeakedIn(fs))
  {
    forall b | 0 <= b < BITMAP_BITS && Referenced(fs.inodes, fs.data, DATA_START + b)
      ensures fs.bits[b]
    {
      var s, j :| 0 <= s < MAX_INODES && 0 <= j < POINTER_COUNT && Ptr(fs.inodes, fs.data, s, j) == DATA_START + b;
    }
  }
}
