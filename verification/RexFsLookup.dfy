/** What the other files read as, by name: the lookup that cat starts with, over single steps and runs. */
module RexFsLookup {
  import opened Machine
  import opened RexFsLayout
  import opened RexFsTree
  import opened RexFsModel
  import opened RexFsRuns
  import opened RexFsNames
  import opened RexFsRoundTrip
  import opened RexFsHistory

  /** The slot that cat reads for a name in a directory, or MAX_INODES. */
  function SlotOf(fs: Fs, dir: u16, name: CString): (o: nat)
    ensures o <= MAX_INODES
  {
    Find(fs.inodes, FileNamed(dir, name))
  }

  /** The three lookups by name: those of rm and of the duplicate check, of cat and write, and of cd. */
  predicate ByName(q: Query) {
    q.Named? || q.FileNamed? || q.DirNamed?
  }

  /** mkdir or touch of an over-long name that is stored as the one looked up, into an earlier slot. */
  predicate Hides(fs: Fs, c: Command, q: Query) {
    && (c.Mkdir? || c.Touch?) && fs.mounted && |c.name| > NAME_MAX
    && var s := Find(fs.inodes, FreeSlot);
       s < Find(fs.inodes, q) && Matches(q, NewInode(s, if c.Mkdir? then DIRECTORY else FILE, fs.cwd, c.name))
  }

  /** touch of a longer name that is stored as `name`, into a slot before the one that has it. */
  predicate Shadows(fs: Fs, c: Command, dir: u16, name: CString) {
    c.Touch? && fs.mounted && fs.cwd == dir && |c.name| > NAME_MAX && StoredName(c.name) == name
    && Find(fs.inodes, FreeSlot) < SlotOf(fs, dir, name)
  }

  /** For the lookup of cat only a touch can hide a file. */
  lemma ShadowsIsHiding(fs: Fs, c: Command, dir: u16, name: CString)
    ensures Shadows(fs, c, dir, name) <==> Hides(fs, c, FileNamed(dir, name))
  {
  }

  /** A new inode changes a lookup exactly when it matches and comes first. */
  lemma LookupAfterAdd(t: Table, s: nat, ino: Inode, q: Query)
    requires s < MAX_INODES && !Matches(q, t[s])
    ensures Find(t[s := ino], q) == if Matches(q, ino) && s < Find(t, q) then s else Find(t, q)
  {
    var t' := t[s := ino];
    var r := if Matches(q, ino) && s < Find(t, q) then s else Find(t, q);
    if r < MAX_INODES {
      FindIs(t', q, r);
    }
  }

  lemma CreateLookup(fs: Fs, c: Command, q: Query)
    requires Inv(fs) && Formatted(fs.sb) && (c.Mkdir? || c.Touch?) && ByName(q) && Find(fs.inodes, q) < MAX_INODES
    ensures Find(Exec(fs, c).fs.inodes, q)
         == if Hides(fs, c, q) then Find(fs.inodes, FreeSlot) else Find(fs.inodes, q)
    ensures Hides(fs, c, q) ==> Exec(fs, c).fs.inodes[Find(fs.inodes, FreeSlot)].size == 0
  {
    var kind := if c.Mkdir? then DIRECTORY else FILE;
    var s := Find(fs.inodes, FreeSlot);
    var r := Create(fs, c.name, kind);
    assert Exec(fs, c) == r;
    if |c.name| > NAME_MAX {
      LongNamesAreNew(fs.inodes, fs.cwd, c.name);
    }
    if r.out == Done {
      LookupAfterAdd(fs.inodes, s, NewInode(s, kind, fs.cwd, c.name), q);
    }
  }

  lemma RemoveLookup(fs: Fs, name: CString, q: Query, o: nat)
    requires ByName(q) && o == Find(fs.inodes, q) < MAX_INODES && o != Touched(fs, Rm(name))
    ensures Find(Remove(fs, name).fs.inodes, q) == o
  {
    FindIs(Remove(fs, name).fs.inodes, q, o);
  }

  lemma WriteLookup(fs: Fs, c: Command, q: Query)
    requires Inv(fs) && (c.Write? || c.WriteHex?) && ByName(q)
    ensures Find(Exec(fs, c).fs.inodes, q) == Find(fs.inodes, q)
  {
    var s := WriteTarget(fs, c.args);
    if s < MAX_INODES && !RefusedLate(c) {
      StoreKeeps(fs, s, PayloadOf(c));
      assert Exec(fs, c).fs == Store(fs, s, PayloadOf(c));
      FindCongruent(fs.inodes, Exec(fs, c).fs.inodes, q);
    }
  }

  /** Each lookup by name still finds its entry exactly when no over-long creation hides it. */
  lemma NameKept(fs: Fs, c: Command, q: Query)
    requires Inv(fs) && Formatted(fs.sb) && !c.Mkfs? && ByName(q)
    requires Find(fs.inodes, q) < MAX_INODES && Find(fs.inodes, q) != Touched(fs, c)
    ensures Find(Exec(fs, c).fs.inodes, q) == Find(fs.inodes, q) <==> !Hides(fs, c, q)
  {
    if c.Mkdir? || c.Touch? {
      CreateLookup(fs, c, q);
    } else if c.Rm? {
      RemoveLookup(fs, c.name, q, Find(fs.inodes, q));
    } else if c.Write? || c.WriteHex? {
      WriteLookup(fs, c, q);
    } else {
      assert Exec(fs, c).fs.inodes == fs.inodes;
    }
  }

  /** By name: every other file is still found, with its bytes, exactly when no over-long touch shadows it. */
  lemma LookupKept(fs: Fs, c: Command, dir: u16, name: CString)
    requires Inv(fs) && Formatted(fs.sb) && !c.Mkfs?
    requires SlotOf(fs, dir, name) < MAX_INODES && SlotOf(fs, dir, name) != Touched(fs, c)
    ensures var o, fs' := SlotOf(fs, dir, name), Exec(fs, c).fs;
      && fs'.inodes[o] == fs.inodes[o] && Contents(fs'.data, fs'.inodes[o]) == Contents(fs.data, fs.inodes[o])
      && (SlotOf(fs', dir, name) == o <==> !Shadows(fs, c, dir, name))
  {
    NonInterference(fs, c, SlotOf(fs, dir, name));
    NameKept(fs, c, FileNamed(dir, name));
    ShadowsIsHiding(fs, c, dir, name);
  }

  /** cd by name from a directory leads where it led, exactly unless an over-long mkdir hides the directory. */
  lemma CdKept(fs: Fs, c: Command, dir: u16, name: CString)
    requires Inv(fs) && Formatted(fs.sb) && !c.Mkfs? && Navigable(name)
    requires Find(fs.inodes, DirNamed(dir, name)) < MAX_INODES && Find(fs.inodes, DirNamed(dir, name)) != Touched(fs, c)
    ensures CdTarget(Exec(fs, c).fs.inodes, dir, name) == CdTarget(fs.inodes, dir, name)
      <==> !Hides(fs, c, DirNamed(dir, name))
  {
    var q, t' := DirNamed(dir, name), Exec(fs, c).fs.inodes;
    var o := Find(fs.inodes, q);
    NameKept(fs, c, q);
    NonInterference(fs, c, o);
    assert SlotOk(fs.inodes, o);
    if Hides(fs, c, q) {
      HiddenSlot(fs, c, q);
    }
  }

  /** The entry that hides another carries the id of its own slot. */
  lemma HiddenSlot(fs: Fs, c: Command, q: Query)
    requires Inv(fs) && Formatted(fs.sb) && ByName(q) && Find(fs.inodes, q) < MAX_INODES && Hides(fs, c, q)
    ensures var t' := Exec(fs, c).fs.inodes;
      Find(t', q) == Find(fs.inodes, FreeSlot) < MAX_INODES && t'[Find(t', q)].id == Find(t', q) + 1
  {
    CreateLookup(fs, c, q);
    LongNamesAreNew(fs.inodes, fs.cwd, c.name);
  }

  lemma EditKeepsDir(fs: Fs, c: Command)
    requires Edits(c)
    ensures Exec(fs, c).fs.mounted == fs.mounted && Exec(fs, c).fs.cwd == fs.cwd
  {
  }

  /** What cat prints for another file stays the same exactly unless a file with bytes is shadowed. */
  lemma CatKept(fs: Fs, c: Command, name: CString)
    requires Inv(fs) && fs.mounted && Edits(c)
    requires SlotOf(fs, fs.cwd, name) < MAX_INODES && SlotOf(fs, fs.cwd, name) != Touched(fs, c)
    ensures Cat(Exec(fs, c).fs, name) == Cat(fs, name)
      <==> !(Shadows(fs, c, fs.cwd, name) && fs.inodes[SlotOf(fs, fs.cwd, name)].size != 0)
  {
    var o := SlotOf(fs, fs.cwd, name);
    NamesAreNotEmpty(fs.inodes, o);
    LookupKept(fs, c, fs.cwd, name);
    EditKeepsDir(fs, c);
    ShadowsIsHiding(fs, c, fs.cwd, name);
    if Shadows(fs, c, fs.cwd, name) {
      CreateLookup(fs, c, FileNamed(fs.cwd, name));
    }
  }

  /** One character more than 27, and a file's text is gone from cat although nothing touched it. */
  lemma LongNameHides(fs: Fs, name: CString, x: Char)
    requires Inv(fs) && fs.mounted && |name| == NAME_MAX
    requires var o := SlotOf(fs, fs.cwd, name);
      Find(fs.inodes, FreeSlot) < o < MAX_INODES && fs.inodes[o].size != 0
    ensures var o, c := SlotOf(fs, fs.cwd, name), Touch(name + [x]);
      && Safe(fs, c) && o != Touched(fs, c)
      && Cat(fs, name) == Text(Contents(fs.data, fs.inodes[o]) + [NEWLINE])
      && Cat(Exec(fs, c).fs, name) == Text([])
  {
    var c := Touch(name + [x]);
    assert StoredName(name + [x]) == name;
    NamesAreNotEmpty(fs.inodes, SlotOf(fs, fs.cwd, name));
    ShadowsIsHiding(fs, c, fs.cwd, name);
    CreateLookup(fs, c, FileNamed(fs.cwd, name));
    EditKeepsDir(fs, c);
  }

  /** In the same way mkdir redirects cd and rm: both find the newcomer. */
  lemma LongNameRedirects(fs: Fs, name: CString, x: Char, q: Query)
    requires Inv(fs) && fs.mounted && |name| == NAME_MAX
    requires q == DirNamed(fs.cwd, name) || q == Named(fs.cwd, name)
    requires Find(fs.inodes, FreeSlot) < Find(fs.inodes, q) < MAX_INODES
    ensures Safe(fs, Mkdir(name + [x])) && Find(fs.inodes, q) != Touched(fs, Mkdir(name + [x]))
    ensures Find(Exec(fs, Mkdir(name + [x])).fs.inodes, q) == Find(fs.inodes, FreeSlot)
  {
    assert StoredName(name + [x]) == name;
    CreateLookup(fs, Mkdir(name + [x]), q);
  }

  // ----- over runs

  /** The command names the file: rm, write or writehex of that name in that directory. */
  predicate Addresses(fs: Fs, c: Command, dir: u16, name: CString) {
    fs.cwd == dir
    && ((c.Rm? && c.name == name)
        || ((c.Write? || c.WriteHex?) && ParseArgs(c.args).Args? && ParseArgs(c.args).file == name))
  }

  lemma TouchedIsAddressed(fs: Fs, c: Command, dir: u16, name: CString)
    requires SlotOf(fs, dir, name) < MAX_INODES && SlotOf(fs, dir, name) == Touched(fs, c)
    ensures Addresses(fs, c, dir, name)
  {
    assert Matches(FileNamed(dir, name), fs.inodes[SlotOf(fs, dir, name)]);
  }

  ghost predicate LeavesAlone(fs: Fs, c: Command, dir: u16, name: CString) {
    !c.Mkfs? && !Addresses(fs, c, dir, name) && !Shadows(fs, c, dir, name)
  }

  /** The name is still found in slot o, with the same inode and the same bytes. */
  ghost predicate ReadsAs(fs: Fs, dir: u16, name: CString, o: nat, ino: Inode, bytes: seq<byte>) {
    Formatted(fs.sb) && o < MAX_INODES && SlotOf(fs, dir, name) == o
    && fs.inodes[o] == ino && Contents(fs.data, fs.inodes[o]) == bytes
  }

  lemma StepReads(fs: Fs, c: Command, dir: u16, name: CString, o: nat, ino: Inode, bytes: seq<byte>)
    requires Inv(fs) && ReadsAs(fs, dir, name, o, ino, bytes) && LeavesAlone(fs, c, dir, name)
    ensures ReadsAs(Exec(fs, c).fs, dir, name, o, ino, bytes)
  {
    if o == Touched(fs, c) {
      TouchedIsAddressed(fs, c, dir, name);
    }
    LookupKept(fs, c, dir, name);
    SuperblockStep(fs, c);
  }

  /** Over a safe run a file that no command names or shadows is found and reads the same to the end. */
  lemma {:induction false} RunReads(fs: Fs, cs: seq<Command>, i: nat, dir: u16, name: CString,
                                    o: nat, ino: Inode, bytes: seq<byte>)
    requires Inv(fs) && SafeRun(fs, cs) && i <= |cs| && ReadsAs(fs, dir, name, o, ino, bytes)
    requires forall k :: 0 <= k < |cs| ==> LeavesAlone(At(fs, cs, k), cs[k], dir, name)
    ensures ReadsAs(At(fs, cs, i), dir, name, o, ino, bytes)
  {
    if i > 0 {
      RunReads(fs, cs, i - 1, dir, name, o, ino, bytes);
      RunInvariant(fs, cs, i - 1);
      RunStep(fs, cs, i - 1);
      StepReads(At(fs, cs, i - 1), cs[i - 1], dir, name, o, ino, bytes);
    }
  }

  /** What cat prints for a file known to read as given. */
  lemma ReadsAsCat(now: Fs, name: CString, o: nat, ino: Inode, bytes: seq<byte>)
    requires now.mounted && name != [] && ReadsAs(now, now.cwd, name, o, ino, bytes)
    requires ino.size == 0 <==> bytes == []
    ensures Cat(now, name) == Text(if bytes == [] then [] else bytes + [NEWLINE])
  {
  }

  /** A file that was just written reads as the surviving bytes. */
  lemma WrittenReads(fs: Fs, args: CString, s: nat)
    requires Inv(fs) && s == WriteTarget(fs, args) && s < MAX_INODES && !RefusedLate(Write(args))
    ensures var file, payload, fs1 := ParseArgs(args).file, ParseArgs(args).payload, Exec(fs, Write(args)).fs;
      && file != [] && Inv(fs1)
      && ReadsAs(fs1, fs.cwd, file, s, fs1.inodes[s], Surviving(fs, s, payload))
      && (fs1.inodes[s].size == 0 <==> Surviving(fs, s, payload) == [])
  {
    var file, payload := ParseArgs(args).file, ParseArgs(args).payload;
    assert Matches(FileNamed(fs.cwd, file), fs.inodes[s]);
    NamesAreNotEmpty(fs.inodes, s);
    assert Exec(fs, Write(args)).fs == Store(fs, s, payload);
    StoreKeeps(fs, s, payload);
    StoredBytes(fs, s, payload);
    FindInSameTree(fs.inodes, Store(fs, s, payload).inodes, s, fs.cwd, file);
  }

  /** After a write, any safe run that leaves the file alone ends with cat printing exactly the surviving bytes. */
  lemma WriteRunCat(fs: Fs, args: CString, s: nat, cs: seq<Command>, fs1: Fs)
    requires Inv(fs) && s == WriteTarget(fs, args) && s < MAX_INODES && !RefusedLate(Write(args))
    requires fs1 == Exec(fs, Write(args)).fs && SafeRun(fs1, cs)
    requires forall k :: 0 <= k < |cs| ==> LeavesAlone(At(fs1, cs, k), cs[k], fs.cwd, ParseArgs(args).file)
    ensures var file, kept := ParseArgs(args).file, Surviving(fs, s, ParseArgs(args).payload);
      var now := Run(fs1, cs);
      now.mounted && now.cwd == fs.cwd ==> Cat(now, file) == Text(if kept == [] then [] else kept + [NEWLINE])
  {
    var file, kept := ParseArgs(args).file, Surviving(fs, s, ParseArgs(args).payload);
    WrittenReads(fs, args, s);
    RunReads(fs1, cs, |cs|, fs.cwd, file, s, fs1.inodes[s], kept);
    assert cs[..|cs|] == cs;
    if Run(fs1, cs).mounted && Run(fs1, cs).cwd == fs.cwd {
      ReadsAsCat(Run(fs1, cs), file, s, fs1.inodes[s], kept);
    }
  }

  /** Names of at most 27 characters shadow nothing. */
  lemma ShortNamesReads(fs: Fs, cs: seq<Command>, dir: u16, name: CString, o: nat, ino: Inode, bytes: seq<byte>)
    requires Inv(fs) && SafeRun(fs, cs) && ShortNames(cs) && ReadsAs(fs, dir, name, o, ino, bytes)
    requires forall k :: 0 <= k < |cs| ==> !cs[k].Mkfs? && !Addresses(At(fs, cs, k), cs[k], dir, name)
    ensures ReadsAs(Run(fs, cs), dir, name, o, ino, bytes)
  {
    RunReads(fs, cs, |cs|, dir, name, o, ino, bytes);
    assert cs[..|cs|] == cs;
  }
}
