/** Whole histories: the clean-shutdown flag, and the runs the code does not survive. */
module RexFsHistory {
  import opened Machine
  import opened RexFsLayout
  import opened RexFsBlocks
  import opened RexFsModel
  import opened RexFsRuns

  // ----- clean shutdown

  /** The command mounts the disk, on request or at boot. */
  ghost predicate Mounts(fs: Fs, c: Command) {
    Exec(fs, c).out == MountedClean || Exec(fs, c).out == MountedDirty
  }

  /** The command formats the disk or unmounts it. */
  ghost predicate Cleans(fs: Fs, c: Command) {
    (c.Mkfs? || c.Unmount?) && Exec(fs, c).out == Done
  }

  ghost function MountMarks(fs: Fs, cs: seq<Command>): seq<bool> {
    seq(|cs|, i requires 0 <= i < |cs| => Mounts(At(fs, cs, i), cs[i]))
  }

  ghost function CleanMarks(fs: Fs, cs: seq<Command>): seq<bool> {
    seq(|cs|, i requires 0 <= i < |cs| => Cleans(At(fs, cs, i), cs[i]))
  }

  /** Among the first n positions, some opening mark has no closing mark after it. */
  ghost predicate StillOpen(opens: seq<bool>, closes: seq<bool>, n: nat)
    requires n <= |opens| == |closes|
  {
    exists i :: 0 <= i < n && opens[i] && forall k :: i < k < n ==> !closes[k]
  }

  lemma StillOpenStep(opens: seq<bool>, closes: seq<bool>, n: nat)
    requires n < |opens| == |closes|
    ensures StillOpen(opens, closes, n + 1) <==> opens[n] || (StillOpen(opens, closes, n) && !closes[n])
  {
    if StillOpen(opens, closes, n) && !closes[n] {
      var i :| 0 <= i < n && opens[i] && forall k :: i < k < n ==> !closes[k];
      assert forall k :: i < k < n + 1 ==> !closes[k];
    }
  }

  /** Among the first n commands, some mount happened after the latest mkfs or successful unmount. */
  ghost predicate MountedSinceClean(fs: Fs, cs: seq<Command>, n: nat)
    requires n <= |cs|
  {
    StillOpen(MountMarks(fs, cs), CleanMarks(fs, cs), n)
  }

  /** Only mount, unmount, mkfs and reboot touch the superblock. */
  lemma SuperblockStep(fs: Fs, c: Command)
    ensures var sb := Exec(fs, c).fs.sb;
      && (Mounts(fs, c) ==> Formatted(fs.sb) && sb == fs.sb.(cleanShutdown := 0))
      && (Cleans(fs, c) ==> sb.cleanShutdown == 1)
      && (Cleans(fs, c) && c.Mkfs? ==> Formatted(sb))
      && (!Mounts(fs, c) && !Cleans(fs, c) ==> sb == fs.sb)
      && (!(Cleans(fs, c) && c.Mkfs?) ==> (Formatted(sb) <==> Formatted(fs.sb)))
  {
  }

  /** From a blank or a clean disk, the flag on disk tells whether a mount is still open. */
  lemma {:induction false} DirtyFlag(fs: Fs, cs: seq<Command>, n: nat)
    requires n <= |cs|
    requires Formatted(fs.sb) ==> fs.sb.cleanShutdown != 0
    ensures Formatted(At(fs, cs, n).sb) ==>
      (At(fs, cs, n).sb.cleanShutdown == 0 <==> MountedSinceClean(fs, cs, n))
    ensures !Formatted(At(fs, cs, n).sb) ==> !MountedSinceClean(fs, cs, n)
  {
    if n > 0 {
      DirtyFlag(fs, cs, n - 1);
      RunStep(fs, cs, n - 1);
      SuperblockStep(At(fs, cs, n - 1), cs[n - 1]);
      StillOpenStep(MountMarks(fs, cs), CleanMarks(fs, cs), n - 1);
    }
  }

  /** mount reports an unclean disk exactly when some mount happened after the latest mkfs or unmount. */
  lemma MountReport(fs: Fs, cs: seq<Command>, n: nat)
    requires n < |cs| && (cs[n].Mount? || cs[n].Reboot?) && Formatted(At(fs, cs, n).sb)
    requires Formatted(fs.sb) ==> fs.sb.cleanShutdown != 0
    ensures Exec(At(fs, cs, n), cs[n]).out
         == if MountedSinceClean(fs, cs, n) then MountedDirty else MountedClean
  {
    DirtyFlag(fs, cs, n);
  }

  /** File commands write only inside the data area: the sectors of the superblock and tables are never data. */
  lemma WritesStayInData(fs: Fs, s: nat, payload: seq<byte>)
    requires Geometry(fs.sb) && DATA_START <= fs.active.totalBlocks <= fs.sb.totalBlocks
    requires s < MAX_INODES && BlocksFor(|payload|) <= MAX_FILE_BLOCKS
    ensures OutsideKept(fs.data, Store(fs, s, payload).data, fs.sb.totalBlocks - DATA_START)
  {
    var start := Fresh(Release(fs.bits, fs.data, fs.inodes[s]), fs.data, fs.inodes[s]);
    AppendWritesData(AllocLimit(fs.active.totalBlocks), start, payload, 0);
  }

  // ----- what the code does not survive

  /** On a disk of fewer than 11 sectors the unsigned subtraction lets blocks past the end be handed out. */
  lemma AllocationInDisk(totalBlocks: u32)
    requires totalBlocks <= BITMAP_BITS
    ensures (forall lba: nat :: InData(lba, AllocLimit(totalBlocks)) ==> lba < totalBlocks)
      <==> totalBlocks >= DATA_START
  {
    if totalBlocks < DATA_START {
      assert InData(DATA_START, AllocLimit(totalBlocks));
    }
  }

  /** Overwriting any non-empty file with a payload that is too large leaves its blocks marked free. */
  lemma OversizedWriteBreaks(fs: Fs, args: CString, s: nat)
    requires Inv(fs) && s == WriteTarget(fs, args) && s < MAX_INODES && RefusedLate(Write(args))
    requires Contents(fs.data, fs.inodes[s]) != []
    ensures !Inv(Exec(fs, Write(args)).fs)
  {
    ReadableAreLinked(fs.data, fs.inodes[s], 0, 0);
    assert PtrOf(fs.data, fs.inodes[s], 0) != 0;
    assert OwnsBlocks(fs, s);
    StepInvariant(fs, Write(args));
  }
}
