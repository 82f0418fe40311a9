/** Names over runs: which directories cd can enter, when siblings stay distinct, and pwd. */
module RexFsNames {
  import opened Machine
  import opened RexFsLayout
  import opened RexFsTree
  import opened RexFsModel
  import opened RexFsRuns

  /** Every directory that has entries, and the current one, has a name that cd can follow. */
  ghost predicate CanReturn(fs: Fs) {
    Formatted(fs.sb) ==> PathsEnterable(fs.inodes) && Enterable(fs.inodes, fs.cwd)
  }

  lemma EnterableAfterAdd(t: Table, s: nat, ino: Inode, id: nat)
    requires s < MAX_INODES && t[s].id == 0 && Enterable(t, id)
    ensures Enterable(t[s := ino], id)
  {
  }

  lemma CreateCanReturn(fs: Fs, name: CString, kind: u16)
    requires Inv(fs) && CanReturn(fs)
    ensures CanReturn(Create(fs, name, kind).fs)
  {
    if Create(fs, name, kind).out == Done {
      var t := fs.inodes;
      var s := Find(t, FreeSlot);
      var t' := Create(fs, name, kind).fs.inodes;
      forall o | 0 <= o < MAX_INODES && t'[o].id != 0
        ensures Enterable(t', t'[o].parent)
      {
        EnterableAfterAdd(t, s, t'[s], t'[o].parent);
      }
      EnterableAfterAdd(t, s, t'[s], fs.cwd);
    }
  }

  lemma ChangeDirCanReturn(fs: Fs, path: CString)
    requires Inv(fs) && CanReturn(fs)
    ensures CanReturn(ChangeDir(fs, path).fs)
  {
    if fs.mounted {
      CdLeadsToDir(fs.inodes, fs.cwd, path);
    }
  }

  lemma RemoveCanReturn(fs: Fs, name: CString)
    requires Inv(fs) && CanReturn(fs)
    ensures CanReturn(Remove(fs, name).fs)
  {
    if Remove(fs, name).out == Done {
      var t := fs.inodes;
      var s := Find(t, Named(fs.cwd, name));
      RemovableIsLeaf(t, s);
      var t' := t[s := t[s].(id := 0)];
      forall o | 0 <= o < MAX_INODES && t'[o].id != 0
        ensures Enterable(t', t'[o].parent)
      {
        assert Enterable(t, t[o].parent);
      }
    }
  }

  lemma WriteCanReturn(fs: Fs, c: Command)
    requires Inv(fs) && CanReturn(fs) && (c.Write? || c.WriteHex?)
    ensures CanReturn(Exec(fs, c).fs)
  {
    var s := WriteTarget(fs, c.args);
    if s < MAX_INODES && !RefusedLate(c) {
      StoreKeeps(fs, s, PayloadOf(c));
      EnterableInSameTree(fs.inodes, Exec(fs, c).fs.inodes, s, fs.cwd);
    }
  }

  lemma EnterableInSameTree(t: Table, t': Table, s: nat, cwd: nat)
    requires s < MAX_INODES && SameTree(t, t', s) && PathsEnterable(t) && Enterable(t, cwd)
    ensures PathsEnterable(t') && Enterable(t', cwd)
  {
    forall o | 0 <= o < MAX_INODES && t'[o].id != 0
      ensures Enterable(t', t'[o].parent)
    {
      assert Enterable(t, t[o].parent);
    }
  }

  lemma StepCanReturn(fs: Fs, c: Command)
    requires Inv(fs) && CanReturn(fs) && Safe(fs, c)
    ensures CanReturn(Exec(fs, c).fs)
  {
    if c.Mkdir? {
      CreateCanReturn(fs, c.name, DIRECTORY);
    } else if c.Touch? {
      CreateCanReturn(fs, c.name, FILE);
    } else if c.Cd? {
      ChangeDirCanReturn(fs, c.path);
    } else if c.Rm? {
      RemoveCanReturn(fs, c.name);
    } else if c.Write? || c.WriteHex? {
      WriteCanReturn(fs, c);
    }
  }

  // ----- distinct siblings

  /** The truncated name of a new entry is one that a live sibling already has. */
  predicate NameClash(fs: Fs, name: CString) {
    fs.mounted && |name| > NAME_MAX && Find(fs.inodes, FreeSlot) < MAX_INODES
    && Find(fs.inodes, Named(fs.cwd, StoredName(name))) < MAX_INODES
  }

  predicate TruncationClash(fs: Fs, c: Command) {
    (c.Mkdir? || c.Touch?) && NameClash(fs, c.name)
  }

  /** Adding an inode keeps siblings distinct exactly when no live sibling has its name. */
  lemma AddDistinct(t: Table, s: nat, ino: Inode)
    requires UniqueSiblings(t) && s < MAX_INODES && t[s].id == 0 && ino.id != 0
    ensures UniqueSiblings(t[s := ino]) <==> Find(t, Named(ino.parent, ino.name)) == MAX_INODES
  {
    var t' := t[s := ino];
    var clash := Find(t, Named(ino.parent, ino.name));
    if clash < MAX_INODES {
      assert t'[clash].name == t'[s].name && t'[clash].parent == t'[s].parent;
    } else {
      assert forall o :: 0 <= o < MAX_INODES ==> !Matches(Named(ino.parent, ino.name), t[o]);
    }
  }

  lemma LongNamesAreNew(t: Table, dir: u16, name: CString)
    requires SlotsOk(t) && |name| > NAME_MAX
    ensures Find(t, Named(dir, name)) == MAX_INODES
  {
    forall o | 0 <= o < MAX_INODES
      ensures !Matches(Named(dir, name), t[o])
    {
      assert SlotOk(t, o);
    }
  }

  lemma CreateDistinct(fs: Fs, name: CString, kind: u16)
    requires Inv(fs) && fs.mounted && UniqueSiblings(fs.inodes)
    ensures UniqueSiblings(Create(fs, name, kind).fs.inodes) <==> !NameClash(fs, name)
  {
    if |name| > NAME_MAX {
      LongNamesAreNew(fs.inodes, fs.cwd, name);
    }
    if Create(fs, name, kind).out == Done {
      var s := Find(fs.inodes, FreeSlot);
      AddDistinct(fs.inodes, s, NewInode(s, kind, fs.cwd, name));
    }
  }

  /** Creating one over-long name twice leaves two siblings with the same stored name. */
  lemma LongNameTwice(fs: Fs, name: CString, kind: u16)
    requires Inv(fs) && fs.mounted && (kind == FILE || kind == DIRECTORY) && |name| > NAME_MAX
    requires UniqueSiblings(fs.inodes) && !NameClash(fs, name) && Create(fs, name, kind).out == Done
    requires Find(Create(fs, name, kind).fs.inodes, FreeSlot) < MAX_INODES
    ensures UniqueSiblings(Create(fs, name, kind).fs.inodes)
    ensures !UniqueSiblings(Create(Create(fs, name, kind).fs, name, kind).fs.inodes)
  {
    var fs1 := Create(fs, name, kind).fs;
    CreateKeeps(fs, name, kind);
    CreateDistinct(fs, name, kind);
    assert Matches(Named(fs.cwd, StoredName(name)), fs1.inodes[Find(fs.inodes, FreeSlot)]);
    CreateDistinct(fs1, name, kind);
  }

  lemma SameTreeDistinct(t: Table, t': Table, s: nat)
    requires s < MAX_INODES && SameTree(t, t', s) && UniqueSiblings(t)
    ensures UniqueSiblings(t')
  {
  }

  lemma RemoveDistinct(fs: Fs, name: CString)
    requires UniqueSiblings(fs.inodes)
    ensures UniqueSiblings(Remove(fs, name).fs.inodes)
  {
  }

  lemma CreateStepDistinct(fs: Fs, c: Command)
    requires Inv(fs) && fs.mounted && UniqueSiblings(fs.inodes) && (c.Mkdir? || c.Touch?)
    ensures UniqueSiblings(Exec(fs, c).fs.inodes) <==> !NameClash(fs, c.name)
  {
    var kind := if c.Mkdir? then DIRECTORY else FILE;
    assert Exec(fs, c).fs.inodes == Create(fs, c.name, kind).fs.inodes;
    CreateDistinct(fs, c.name, kind);
  }

  lemma OtherStepDistinct(fs: Fs, c: Command)
    requires Inv(fs) && UniqueSiblings(fs.inodes) && ((c.Mkdir? || c.Touch?) ==> !fs.mounted)
    ensures UniqueSiblings(Exec(fs, c).fs.inodes)
  {
    if c.Rm? {
      RemoveDistinct(fs, c.name);
    } else if c.Write? || c.WriteHex? {
      WriteDistinct(fs, c);
    } else {
      SessionDistinct(fs, c);
    }
  }

  /** Sibling names stay distinct exactly when no created name clashes after truncation. */
  lemma StepDistinct(fs: Fs, c: Command)
    requires Inv(fs) && Formatted(fs.sb) && UniqueSiblings(fs.inodes)
    ensures UniqueSiblings(Exec(fs, c).fs.inodes) <==> !TruncationClash(fs, c)
  {
    if (c.Mkdir? || c.Touch?) && fs.mounted {
      CreateStepDistinct(fs, c);
    } else {
      OtherStepDistinct(fs, c);
    }
  }

  lemma SessionDistinct(fs: Fs, c: Command)
    requires UniqueSiblings(fs.inodes) && !c.Rm? && !c.Write? && !c.WriteHex?
    requires (c.Mkdir? || c.Touch?) ==> !fs.mounted
    ensures UniqueSiblings(Exec(fs, c).fs.inodes)
  {
    var t' := Exec(fs, c).fs.inodes;
    assert t' == fs.inodes || t' == EmptyTable();
  }

  lemma WriteDistinct(fs: Fs, c: Command)
    requires Inv(fs) && UniqueSiblings(fs.inodes) && (c.Write? || c.WriteHex?)
    ensures UniqueSiblings(Exec(fs, c).fs.inodes)
  {
    var s := WriteTarget(fs, c.args);
    if s < MAX_INODES && !RefusedLate(c) {
      StoreKeeps(fs, s, PayloadOf(c));
      assert Exec(fs, c).fs == Store(fs, s, PayloadOf(c));
      SameTreeDistinct(fs.inodes, Exec(fs, c).fs.inodes, s);
    }
  }

  ghost predicate ShortNames(cs: seq<Command>) {
    forall i :: 0 <= i < |cs| && (cs[i].Mkdir? || cs[i].Touch?) ==> |cs[i].name| <= NAME_MAX
  }

  ghost predicate NamesOk(fs: Fs) {
    CanReturn(fs) && (Formatted(fs.sb) ==> UniqueSiblings(fs.inodes))
  }

  lemma {:induction false} RunNames(fs: Fs, cs: seq<Command>, i: nat)
    requires Inv(fs) && NamesOk(fs) && SafeRun(fs, cs) && ShortNames(cs) && i <= |cs|
    ensures NamesOk(At(fs, cs, i))
  {
    if i > 0 {
      RunNames(fs, cs, i - 1);
      RunInvariant(fs, cs, i - 1);
      RunStep(fs, cs, i - 1);
      StepNames(At(fs, cs, i - 1), cs[i - 1]);
    }
  }

  lemma StepNames(fs: Fs, c: Command)
    requires Inv(fs) && NamesOk(fs) && Safe(fs, c)
    requires c.Mkdir? || c.Touch? ==> |c.name| <= NAME_MAX
    ensures NamesOk(Exec(fs, c).fs)
  {
    StepCanReturn(fs, c);
    if Formatted(fs.sb) {
      StepDistinct(fs, c);
    }
  }
}
