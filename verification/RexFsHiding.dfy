/** A run from a blank disk that hides a file: the hypotheses about over-long names are reached. */
module RexFsHiding {
  import opened Machine
  import opened Bitmap
  import opened RexFsLayout
  import opened RexFsBlocks
  import opened RexFsTree
  import opened RexFsModel
  import opened RexFsRuns
  import opened RexFsRoundTrip
  import opened RexFsLookup

  const A: CString := [97]

  /** mkfs, mount, touch a, touch and write the long name, rm a. */
  function HidingRun(capacity: u32, name: CString, args: CString): (cs: seq<Command>)
    ensures |cs| == 6
  {
    [Mkfs(capacity), Mount, Touch(A), Touch(name), Write(args), Rm(A)]
  }

  /** A mounted, empty disk with at least one data block, at the root. */
  ghost predicate Ready(fs: Fs) {
    Inv(fs) && fs.mounted && fs.cwd == 0 && fs.inodes == EmptyTable() && fs.bits == EmptyBits()
    && fs.active.totalBlocks > DATA_START
  }

  lemma GetReady(fs: Fs, capacity: u32, fs2: Fs)
    requires Inv(fs) && !fs.mounted && capacity > DATA_START
    requires fs2 == MountFs(Format(fs, capacity).fs).fs
    ensures Ready(fs2)
  {
    FormatKeeps(fs, capacity);
    StepInvariant(Format(fs, capacity).fs, Mount);
  }

  /** Two files in the first two slots. */
  ghost predicate TwoFiles(fs: Fs, name: CString) {
    Inv(fs) && fs.mounted && fs.cwd == 0 && fs.bits == EmptyBits() && fs.active.totalBlocks > DATA_START
    && fs.inodes == EmptyTable()[0 := NewInode(0, FILE, 0, A)][1 := NewInode(1, FILE, 0, name)]
  }

  lemma TouchTwice(fs2: Fs, name: CString, fs4: Fs)
    requires Ready(fs2) && |name| == NAME_MAX
    requires fs4 == Create(Create(fs2, A, FILE).fs, name, FILE).fs
    ensures TwoFiles(fs4, name)
  {
    FindIs(fs2.inodes, FreeSlot, 0);
    var fs3 := Create(fs2, A, FILE).fs;
    assert fs3 == fs2.(inodes := fs2.inodes[0 := NewInode(0, FILE, 0, A)]);
    CreateKeeps(fs2, A, FILE);
    FindIs(fs3.inodes, FreeSlot, 1);
    CreateKeeps(fs3, name, FILE);
  }

  /** The long name's file holds the text, and the slot before it is free. */
  ghost predicate Hidden(fs: Fs, name: CString, text: seq<byte>) {
    Inv(fs) && fs.mounted && fs.cwd == 0 && Find(fs.inodes, FreeSlot) == 0
    && SlotOf(fs, 0, name) == 1 && fs.inodes[1].size == |text| && Contents(fs.data, fs.inodes[1]) == text
  }

  lemma WriteOne(fs4: Fs, name: CString, text: CString, fs5: Fs)
    requires TwoFiles(fs4, name) && |name| == NAME_MAX && |text| == 1
    requires fs5 == Store(fs4, 1, text)
    ensures Inv(fs5) && SameTree(fs4.inodes, fs5.inodes, 1)
    ensures fs5.inodes[1].size == 1 && Contents(fs5.data, fs5.inodes[1]) == text
  {
    assert Release(fs4.bits, fs4.data, fs4.inodes[1])[0] == false;
    ClearExists(Release(fs4.bits, fs4.data, fs4.inodes[1]), AllocLimit(fs4.active.totalBlocks));
    StoreKeeps(fs4, 1, text);
    StoredBytes(fs4, 1, text);
  }

  lemma RemoveFirst(fs4: Fs, fs5: Fs, name: CString, text: seq<byte>, fs6: Fs)
    requires TwoFiles(fs4, name) && |name| == NAME_MAX && |text| == 1
    requires Inv(fs5) && fs5.mounted && fs5.cwd == 0 && SameTree(fs4.inodes, fs5.inodes, 1)
    requires fs5.inodes[1].size == 1 && Contents(fs5.data, fs5.inodes[1]) == text
    requires fs6 == Remove(fs5, A).fs
    ensures Hidden(fs6, name, text)
  {
    FindIs(fs5.inodes, Named(0, A), 0);
    RemoveKeeps(fs5, A);
    FindIs(fs6.inodes, FreeSlot, 0);
    FindIs(fs6.inodes, FileNamed(0, name), 1);
  }

  /** write finds the second file and stores the text. */
  lemma WriteSecond(fs4: Fs, name: CString, text: CString, args: CString)
    requires TwoFiles(fs4, name) && |name| == NAME_MAX && SPACE !in name
    requires |text| == 1 && text[0] != SPACE && args == name + [SPACE] + text
    ensures WriteTarget(fs4, args) == 1 && !RefusedLate(Write(args))
    ensures WriteArgs(fs4, args, false, true).fs == Store(fs4, 1, text)
  {
    FindIs(fs4.inodes, FileNamed(0, name), 1);
    TargetOfLine(fs4, name, text);
    ParseLine(name, text);
    var n: nat :| text == Blanks(n) + ParseArgs(args).payload;
    assert text[0] == (Blanks(n) + ParseArgs(args).payload)[0];
  }

  lemma RunThen(fs: Fs, cs: seq<Command>, c: Command)
    ensures Run(fs, cs + [c]) == Exec(Run(fs, cs), c).fs
  {
    assert (cs + [c])[..|cs + [c]| - 1] == cs;
  }

  lemma RunTwo(fs: Fs, cs: seq<Command>, c: Command, d: Command)
    ensures Run(fs, cs + [c, d]) == Exec(Exec(Run(fs, cs), c).fs, d).fs
  {
    assert cs + [c, d] == (cs + [c]) + [d];
    RunThen(fs, cs, c);
    RunThen(fs, cs + [c], d);
  }

  /** The states of the run, two commands at a time. */
  lemma HidingStates(fs: Fs, capacity: u32, name: CString, args: CString, fs2: Fs, fs4: Fs)
    requires fs2 == MountFs(Format(fs, capacity).fs).fs
    requires fs4 == Create(Create(fs2, A, FILE).fs, name, FILE).fs
    ensures Run(fs, HidingRun(capacity, name, args)) == Remove(WriteArgs(fs4, args, false, true).fs, A).fs
  {
    var two := [Mkfs(capacity), Mount];
    var four := two + [Touch(A), Touch(name)];
    assert two == [] + two && HidingRun(capacity, name, args) == four + [Write(args), Rm(A)];
    RunTwo(fs, [], Mkfs(capacity), Mount);
    RunTwo(fs, two, Touch(A), Touch(name));
    RunTwo(fs, four, Write(args), Rm(A));
  }

  lemma HidingRunIsSafe(fs: Fs, capacity: u32, name: CString, args: CString)
    requires !fs.mounted && capacity > DATA_START && !RefusedLate(Write(args))
    ensures SafeRun(fs, HidingRun(capacity, name, args))
  {
    var cs := HidingRun(capacity, name, args);
    assert cs[..0] == [];
    forall i | 0 <= i < |cs|
      ensures Safe(At(fs, cs, i), cs[i])
    {
      assert i == 0 ==> At(fs, cs, i) == fs;
      assert cs[i] == Mkfs(capacity) || cs[i] == Mount || cs[i] == Touch(A) || cs[i] == Touch(name)
        || cs[i] == Write(args) || cs[i] == Rm(A);
    }
  }

  lemma HidingRunHides(fs: Fs, capacity: u32, name: CString, text: CString, args: CString)
    requires Inv(fs) && !fs.mounted && capacity > DATA_START && |name| == NAME_MAX && SPACE !in name
    requires |text| == 1 && text[0] != SPACE && args == name + [SPACE] + text
    ensures Hidden(Run(fs, HidingRun(capacity, name, args)), name, text) && !RefusedLate(Write(args))
  {
    var fs2 := MountFs(Format(fs, capacity).fs).fs;
    var fs4 := Create(Create(fs2, A, FILE).fs, name, FILE).fs;
    var fs5 := WriteArgs(fs4, args, false, true).fs;
    HidingStates(fs, capacity, name, args, fs2, fs4);
    GetReady(fs, capacity, fs2);
    TouchTwice(fs2, name, fs4);
    WriteSecond(fs4, name, text, args);
    WriteOne(fs4, name, text, fs5);
    RemoveFirst(fs4, fs5, name, text, Remove(fs5, A).fs);
  }

  lemma HiddenThenTouched(now: Fs, name: CString, text: seq<byte>, x: Char)
    requires Hidden(now, name, text) && |name| == NAME_MAX && |text| == 1
    ensures Safe(now, Touch(name + [x]))
    ensures Cat(now, name) == Text(text + [NEWLINE]) && Cat(Exec(now, Touch(name + [x])).fs, name) == Text([])
  {
    LongNameHides(now, name, x);
  }

  /** From any blank disk: a safe run, a file that cat prints, and one more touch after which cat prints nothing. */
  lemma BlankDiskHides(fs: Fs, capacity: u32, name: CString, text: CString, args: CString, x: Char)
    requires !Formatted(fs.sb) && !fs.mounted && fs.cwd == 0 && capacity > DATA_START
    requires |name| == NAME_MAX && SPACE !in name
    requires |text| == 1 && text[0] != SPACE && args == name + [SPACE] + text
    ensures var cs := HidingRun(capacity, name, args);
      var now := Run(fs, cs);
      && SafeRun(fs, cs) && Safe(now, Touch(name + [x]))
      && Cat(now, name) == Text(text + [NEWLINE])
      && Cat(Exec(now, Touch(name + [x])).fs, name) == Text([])
  {
    HidingRunHides(fs, capacity, name, text, args);
    HidingRunIsSafe(fs, capacity, name, args);
    HiddenThenTouched(Run(fs, HidingRun(capacity, name, args)), name, text, x);
  }
}
