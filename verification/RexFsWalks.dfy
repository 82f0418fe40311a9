/** Walking the tree: mkdir and cd downwards, cd upwards, and what pwd prints on the way. */
module RexFsWalks {
  import opened Machine
  import opened RexFsLayout
  import opened RexFsTree
  import opened RexFsModel
  import opened RexFsPaths
  import opened RexFsCommands

  /** With room for the whole chain, more room changes nothing. */
  lemma PathIgnoresGuard(t: Table, id: u16, n: nat, g: nat, h: nat)
    requires SlotsOk(t) && ReachesRoot(t, id, n) && |Chain(t, id, n)| <= g && |Chain(t, id, n)| <= h
    ensures PathFrom(t, id, g) == PathFrom(t, id, h)
  {
    ClimbIsChain(t, id, n, g);
    ClimbIsChain(t, id, n, h);
  }

  /** The path of a directory is that of its parent and its own name. */
  lemma PathOfChild(t: Table, id: u16, n: nat)
    requires SlotsOk(t) && LiveId(t, id) && ReachesRoot(t, id, n)
    ensures PathNames(t, id) == PathNames(t, t[id - 1].parent) + [t[id - 1].name]
  {
    var parent := t[id - 1].parent;
    FindLive(t, id);
    ChainIsShort(t, id, n);
    PathStep(t, id, MAX_INODES);
    PathIgnoresGuard(t, parent, n - 1, MAX_INODES - 1, MAX_INODES);
  }

  /** A path without an entry of the changed directory is printed as before. */
  lemma {:induction false} PathKept(t: Table, t': Table, dir: u16, id: u16, n: nat, guard: nat)
    requires ChangedIn(t, t', dir) && ReachesRoot(t, id, n) && Avoids(t, id, n, dir)
    ensures PathFrom(t', id, guard) == PathFrom(t, id, guard)
    decreases n
  {
    if id != 0 && guard > 0 {
      var parent := t[id - 1].parent;
      LinkKept(t, t', dir, id);
      FindLive(t, id);
      PathKept(t, t', dir, parent, n - 1, guard - 1);
      PathStep(t, id, guard);
      PathStep(t', id, guard);
    }
  }

  /** The current directory reaches the root. */
  lemma CwdReaches(fs: Fs) returns (n: nat)
    requires Inv(fs) && fs.mounted
    ensures ReachesRoot(fs.inodes, fs.cwd, n)
  {
    if fs.cwd == 0 {
      n := 0;
    } else {
      assert Rooted(fs.inodes, (fs.cwd - 1) + 1);
      n :| ReachesRoot(fs.inodes, fs.cwd, n);
    }
  }

  /** cd .. leads to the parent and takes the last component off the path. */
  lemma CdUp(fs: Fs)
    requires Inv(fs) && fs.mounted && fs.cwd != 0
    ensures var up := Exec(fs, Cd([46, 46])).fs;
      && up == fs.(cwd := fs.inodes[fs.cwd - 1].parent)
      && Pwd(fs) == Components(Pwd(up).names + [fs.inodes[fs.cwd - 1].name])
  {
    CdSpecial(fs);
    var n := CwdReaches(fs);
    PathOfChild(fs.inodes, fs.cwd, n);
  }

  /** cd into a directory and back up is the very state before; in between, pwd has the name behind the path. */
  lemma CdDownUp(fs: Fs, name: CString)
    requires Inv(fs) && fs.mounted && Navigable(name) && TakenBy(fs.inodes, fs.cwd, name, DIRECTORY)
    ensures var down := Exec(fs, Cd(name)).fs;
      && Pwd(down) == Components(Pwd(fs).names + [name])
      && Exec(down, Cd([46, 46])).fs == fs
  {
    CdIs(fs, name);
    var o: nat :| FirstOfKind(fs.inodes, fs.cwd, name, DIRECTORY, o) && Exec(fs, Cd(name)).fs == fs.(cwd := o + 1);
    var down := Exec(fs, Cd(name)).fs;
    ChangeDirKeeps(fs, name);
    CdUp(down);
  }

  /** The state after mkdir: a fresh directory in the first free slot s. */
  ghost predicate Made(fs: Fs, made: Fs, name: CString, s: nat) {
    Inv(made) && FirstFree(fs.inodes, s) && Fresh(made.inodes[s], s, DIRECTORY, fs.cwd, name)
    && made == fs.(inodes := fs.inodes[s := made.inodes[s]])
  }

  lemma MkdirMakes(fs: Fs, name: CString) returns (s: nat)
    requires Inv(fs) && fs.mounted && name != [] && !Taken(fs.inodes, fs.cwd, name) && HasFree(fs.inodes)
    ensures Exec(fs, Mkdir(name)).out == Done && Made(fs, Exec(fs, Mkdir(name)).fs, name, s)
  {
    CreateIs(fs, Mkdir(name));
    CreateKeeps(fs, name, DIRECTORY);
    var ino;
    s, ino :| FirstFree(fs.inodes, s) && Fresh(ino, s, 2, fs.cwd, name)
      && Exec(fs, Mkdir(name)).fs == fs.(inodes := fs.inodes[s := ino]);
  }

  /** Nothing of the table's paths elsewhere changes, and the new directory is nobody's parent. */
  lemma NewDirectory(fs: Fs, made: Fs, name: CString, s: nat)
    requires Inv(fs) && fs.mounted && Made(fs, made, name, s) && 1 <= |name| <= 27
    ensures ChangedIn(fs.inodes, made.inodes, fs.cwd)
    ensures !HasChild(made.inodes, s + 1) && fs.cwd != s + 1
    ensures EntryAt(made.inodes, fs.cwd, name, s)
  {
    assert name[..Min(|name|, 27)] == name;
    forall o | 0 <= o < MAX_INODES && made.inodes[o].id != 0
      ensures made.inodes[o].parent != s + 1
    {
      assert o != s ==> IsDir(fs.inodes, fs.inodes[o].parent);
    }
  }

  /** No other entry has a name that was free before. */
  lemma OnlyNewOne(fs: Fs, made: Fs, name: CString, s: nat)
    requires Made(fs, made, name, s) && !Taken(fs.inodes, fs.cwd, name)
    ensures forall o: nat :: o != s ==> !EntryAt(made.inodes, fs.cwd, name, o)
  {
    forall o: nat | o != s
      ensures !EntryAt(made.inodes, fs.cwd, name, o)
    {
      assert !EntryAt(fs.inodes, fs.cwd, name, o);
    }
  }

  /** cd by the new name enters the new directory. */
  lemma EnterNewOne(fs: Fs, made: Fs, name: CString, s: nat)
    requires Inv(fs) && fs.mounted && Made(fs, made, name, s) && Navigable(name) && |name| <= 27
    requires !Taken(fs.inodes, fs.cwd, name)
    ensures TakenBy(made.inodes, made.cwd, name, DIRECTORY)
    ensures Exec(made, Cd(name)) == Effect(made.(cwd := s + 1), Done)
  {
    NewDirectory(fs, made, name, s);
    OnlyNewOne(fs, made, name, s);
    CdIs(made, name);
  }

  /** The path printed in the new directory, and in the one above it. */
  lemma PathToNewOne(fs: Fs, made: Fs, name: CString, s: nat)
    requires Inv(fs) && fs.mounted && Made(fs, made, name, s) && 1 <= |name| <= 27
    ensures Pwd(made) == Pwd(fs)
  {
    NewDirectory(fs, made, name, s);
    var n := CwdReaches(fs);
    ChainAvoids(fs.inodes, fs.cwd, n, fs.cwd, n);
    PathKept(fs.inodes, made.inodes, fs.cwd, fs.cwd, n, MAX_INODES);
  }

  /** mkdir of a new short name and cd into it: an empty directory, one name further down. */
  lemma MkdirThenCd(fs: Fs, name: CString)
    requires Inv(fs) && fs.mounted && Navigable(name) && |name| <= 27
    requires !Taken(fs.inodes, fs.cwd, name) && HasFree(fs.inodes)
    ensures var made := Exec(fs, Mkdir(name));
      var inside := Exec(made.fs, Cd(name));
      && made.out == Done && inside.out == Done
      && inside.fs == made.fs.(cwd := inside.fs.cwd) && IsDir(made.fs.inodes, inside.fs.cwd)
      && !HasChild(inside.fs.inodes, inside.fs.cwd)
      && Pwd(inside.fs) == Components(Pwd(fs).names + [name])
      && Exec(inside.fs, Cd([46, 46])).fs == made.fs
  {
    var s := MkdirMakes(fs, name);
    var made := Exec(fs, Mkdir(name)).fs;
    InsideNewOne(fs, made, name, s);
  }

  lemma InsideNewOne(fs: Fs, made: Fs, name: CString, s: nat)
    requires Inv(fs) && fs.mounted && Made(fs, made, name, s) && Navigable(name) && |name| <= 27
    requires !Taken(fs.inodes, fs.cwd, name)
    ensures var inside := Exec(made, Cd(name));
      && inside.out == Done
      && inside.fs == made.(cwd := inside.fs.cwd) && IsDir(made.inodes, inside.fs.cwd)
      && !HasChild(inside.fs.inodes, inside.fs.cwd)
      && Pwd(inside.fs) == Components(Pwd(fs).names + [name])
      && Exec(inside.fs, Cd([46, 46])).fs == made
  {
    NewDirectory(fs, made, name, s);
    EnterNewOne(fs, made, name, s);
    PathToNewOne(fs, made, name, s);
    CdDownUp(made, name);
  }

  lemma RemoveNewOne(fs: Fs, made: Fs, name: CString, s: nat)
    requires Inv(fs) && fs.mounted && Made(fs, made, name, s) && 1 <= |name| <= 27
    requires !Taken(fs.inodes, fs.cwd, name)
    ensures Exec(made, Rm(name)) == Effect(made.(inodes := made.inodes[s := made.inodes[s].(id := 0)]), Done)
  {
    NewDirectory(fs, made, name, s);
    OnlyNewOne(fs, made, name, s);
    RemoveIs(made, name, s);
    assert forall j :: 0 <= j < POINTER_COUNT ==> PtrOf(made.data, made.inodes[s], j) == 0;
    assert Exec(made, Rm(name)).fs.bits == made.bits;
  }

  /** rm of a directory that was just made takes it away again; only fields of the free slot differ from before. */
  lemma MkdirThenRm(fs: Fs, name: CString)
    requires Inv(fs) && fs.mounted && 1 <= |name| <= 27
    requires !Taken(fs.inodes, fs.cwd, name) && HasFree(fs.inodes)
    ensures var r := Exec(Exec(fs, Mkdir(name)).fs, Rm(name));
      && r.out == Done && r.fs == fs.(inodes := r.fs.inodes)
      && forall o :: 0 <= o < MAX_INODES ==>
           r.fs.inodes[o] == fs.inodes[o] || (r.fs.inodes[o].id == 0 && fs.inodes[o].id == 0)
  {
    var s := MkdirMakes(fs, name);
    RemoveNewOne(fs, Exec(fs, Mkdir(name)).fs, name, s);
  }
}
