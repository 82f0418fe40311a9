/** The way back: in every state of every safe run, following what pwd prints leads to where one is. */
module RexFsPaths {
  import opened Machine
  import opened RexFsLayout
  import opened RexFsTree
  import opened RexFsModel
  import opened RexFsRuns

  // ----- one change of the table

  /** The fields that lookups and climbs read are the same. */
  predicate SameEntry(a: Inode, b: Inode) {
    a.id == b.id && a.kind == b.kind && a.parent == b.parent && a.name == b.name
  }

  predicate FreeOrIn(ino: Inode, dir: u16) {
    ino.id == 0 || ino.parent == dir
  }

  /** Only entries of one directory came, went or changed. */
  ghost predicate ChangedIn(t: Table, t': Table, dir: u16) {
    SlotsOk(t) && SlotsOk(t')
    && forall o :: 0 <= o < MAX_INODES ==>
         SameEntry(t[o], t'[o]) || (FreeOrIn(t[o], dir) && FreeOrIn(t'[o], dir))
  }

  /** A live entry of another directory is still there, and lookups in other directories give the same. */
  lemma LinkKept(t: Table, t': Table, dir: u16, id: u16)
    requires ChangedIn(t, t', dir) && LiveId(t, id) && t[id - 1].parent != dir
    ensures LiveId(t', id) && SameEntry(t[id - 1], t'[id - 1])
    ensures ParentOf(t', id) == ParentOf(t, id) && NameOf(t', id) == NameOf(t, id)
  {
    FindLive(t, id);
    FindLive(t', id);
  }

  lemma LookupElsewhere(t: Table, t': Table, dir: u16, p: u16, name: CString)
    requires ChangedIn(t, t', dir) && p != dir
    ensures Find(t', DirNamed(p, name)) == Find(t, DirNamed(p, name))
  {
    var r, r' := Find(t, DirNamed(p, name)), Find(t', DirNamed(p, name));
    forall o | 0 <= o < MAX_INODES
      ensures Matches(DirNamed(p, name), t[o]) <==> Matches(DirNamed(p, name), t'[o])
    {
      assert SameEntry(t[o], t'[o]) || (FreeOrIn(t[o], dir) && FreeOrIn(t'[o], dir));
    }
    assert r < MAX_INODES ==> Matches(DirNamed(p, name), t'[r]);
    assert r' < MAX_INODES ==> Matches(DirNamed(p, name), t[r']);
  }

  /** cd from a directory on the path, by the name of the next one, leads to the same place. */
  lemma CdElsewhere(t: Table, t': Table, dir: u16, p: u16, name: CString)
    requires ChangedIn(t, t', dir) && p != dir && (p == 0 || (LiveId(t, p) && t[p - 1].parent != dir))
    ensures CdTarget(t', p, name) == CdTarget(t, p, name)
  {
    LookupElsewhere(t, t', dir, p, name);
    if p != 0 {
      LinkKept(t, t', dir, p);
      FindLive(t, p);
      FindLive(t', p);
    }
    var r := Find(t, DirNamed(p, name));
    if r < MAX_INODES {
      assert SlotOk(t, r) && SlotOk(t', r);
    }
  }

  // ----- the path of the current directory

  /** No entry on the chain from id lies in the given directory. */
  predicate Avoids(t: Table, id: u16, n: nat, dir: u16)
    requires ReachesRoot(t, id, n)
    decreases n
  {
    id == 0 || (t[id - 1].parent != dir && Avoids(t, t[id - 1].parent, n - 1, dir))
  }

  /** The chain of a directory has no entry of that directory. */
  lemma {:induction false} ChainAvoids(t: Table, id: u16, n: nat, dir: u16, m: nat)
    requires ReachesRoot(t, id, n) && ReachesRoot(t, dir, m) && |Chain(t, id, n)| <= |Chain(t, dir, m)|
    ensures Avoids(t, id, n, dir)
    decreases n
  {
    if id != 0 {
      var parent := t[id - 1].parent;
      if parent == dir {
        ChainIsUnique(t, dir, n - 1, m);
      }
      ChainAvoids(t, parent, n - 1, dir, m);
    }
  }

  /** A chain that avoids the changed directory is followed as before. */
  lemma {:induction false} FollowsKept(t: Table, t': Table, dir: u16, id: u16, n: nat)
    requires ChangedIn(t, t', dir) && ReachesRoot(t, id, n) && ChainFollows(t, id, n) && Avoids(t, id, n, dir)
    ensures ReachesRoot(t', id, n) && ChainFollows(t', id, n)
    decreases n
  {
    if id != 0 {
      var parent := t[id - 1].parent;
      LinkKept(t, t', dir, id);
      FollowsKept(t, t', dir, parent, n - 1);
      CdElsewhere(t, t', dir, parent, NameOf(t, id));
    }
  }

  /** From the root, each name on the way down to id leads to the next directory. */
  ghost predicate Followed(t: Table, id: u16) {
    exists n: nat :: ReachesRoot(t, id, n) && ChainFollows(t, id, n)
  }

  lemma RootIsFollowed(t: Table)
    ensures Followed(t, 0)
  {
    assert ReachesRoot(t, 0, 0) && ChainFollows(t, 0, 0);
  }

  /** Changes in the current directory do not touch its own path. */
  lemma ChangeKeepsPath(t: Table, t': Table, cwd: u16)
    requires ChangedIn(t, t', cwd) && Followed(t, cwd)
    ensures Followed(t', cwd)
  {
    var n: nat :| ReachesRoot(t, cwd, n) && ChainFollows(t, cwd, n);
    ChainAvoids(t, cwd, n, cwd, n);
    FollowsKept(t, t', cwd, cwd, n);
  }

  /** cd up shortens the path, cd down extends it by the name that was just followed. */
  lemma CdKeepsPath(t: Table, cwd: u16, path: CString)
    requires SlotsOk(t) && Followed(t, cwd)
    ensures Followed(t, CdTarget(t, cwd, path))
  {
    RootIsFollowed(t);
    var n: nat :| ReachesRoot(t, cwd, n) && ChainFollows(t, cwd, n);
    if path == DOTDOT && cwd != 0 {
      FindLive(t, cwd);
      assert ReachesRoot(t, ParentOf(t, cwd), n - 1) && ChainFollows(t, ParentOf(t, cwd), n - 1);
    } else if Navigable(path) {
      var r := Find(t, DirNamed(cwd, path));
      if r < MAX_INODES {
        assert SlotOk(t, r);
        var id: u16 := r + 1;
        FindLive(t, id);
        assert ReachesRoot(t, id, n + 1) && ChainFollows(t, id, n + 1);
      }
    }
  }

  // ----- commands and runs

  lemma CreateChangesCwd(fs: Fs, name: CString, kind: u16)
    requires Inv(fs) && Formatted(fs.sb) && (kind == FILE || kind == DIRECTORY)
    ensures ChangedIn(fs.inodes, Create(fs, name, kind).fs.inodes, fs.cwd)
  {
    CreateKeeps(fs, name, kind);
  }

  lemma RemoveChangesCwd(fs: Fs, name: CString)
    requires Inv(fs) && Formatted(fs.sb)
    ensures ChangedIn(fs.inodes, Remove(fs, name).fs.inodes, fs.cwd)
  {
    RemoveKeeps(fs, name);
  }

  lemma WriteChangesCwd(fs: Fs, c: Command)
    requires Inv(fs) && Formatted(fs.sb) && (c.Write? || c.WriteHex?)
    ensures ChangedIn(fs.inodes, Exec(fs, c).fs.inodes, fs.cwd)
  {
    var s := WriteTarget(fs, c.args);
    if s < MAX_INODES && !RefusedLate(c) {
      StoreKeeps(fs, s, PayloadOf(c));
      assert Exec(fs, c).fs == Store(fs, s, PayloadOf(c));
    }
  }

  lemma EditChangesCwd(fs: Fs, c: Command, t': Table)
    requires Inv(fs) && fs.mounted && Edits(c) && t' == Exec(fs, c).fs.inodes
    ensures ChangedIn(fs.inodes, t', fs.cwd) && Exec(fs, c).fs.cwd == fs.cwd
  {
    if c.Mkdir? {
      CreateChangesCwd(fs, c.name, DIRECTORY);
    } else if c.Touch? {
      CreateChangesCwd(fs, c.name, FILE);
    } else if c.Rm? {
      RemoveChangesCwd(fs, c.name);
    } else {
      WriteChangesCwd(fs, c);
    }
  }

  lemma SessionFollowed(fs: Fs, c: Command)
    requires Inv(fs) && Safe(fs, c) && Followed(fs.inodes, fs.cwd) && !Edits(c)
    ensures Followed(Exec(fs, c).fs.inodes, Exec(fs, c).fs.cwd)
  {
    RootIsFollowed(Exec(fs, c).fs.inodes);
    if c.Cd? && fs.mounted {
      CdKeepsPath(fs.inodes, fs.cwd, c.path);
    }
  }

  /** Every safe command keeps the way back, whatever the names. */
  lemma StepFollowed(fs: Fs, c: Command)
    requires Inv(fs) && Safe(fs, c) && Followed(fs.inodes, fs.cwd)
    ensures Followed(Exec(fs, c).fs.inodes, Exec(fs, c).fs.cwd)
  {
    if Edits(c) && fs.mounted {
      EditChangesCwd(fs, c, Exec(fs, c).fs.inodes);
      ChangeKeepsPath(fs.inodes, Exec(fs, c).fs.inodes, fs.cwd);
    } else if !Edits(c) {
      SessionFollowed(fs, c);
    }
  }

  lemma {:induction false} RunFollowed(fs: Fs, cs: seq<Command>, i: nat)
    requires Inv(fs) && Followed(fs.inodes, fs.cwd) && SafeRun(fs, cs) && i <= |cs|
    ensures Followed(At(fs, cs, i).inodes, At(fs, cs, i).cwd)
  {
    if i == 0 {
      assert cs[..0] == [];
    } else {
      RunFollowed(fs, cs, i - 1);
      RunInvariant(fs, cs, i - 1);
      RunStep(fs, cs, i - 1);
      StepFollowed(At(fs, cs, i - 1), cs[i - 1]);
    }
  }

  function CdEach(names: seq<CString>): (cs: seq<Command>) {
    seq(|names|, i requires 0 <= i < |names| => Cd(names[i]))
  }

  /** Going to the root and then following names, as commands, is a walk over the table. */
  lemma {:induction false} ReplayCommands(fs: Fs, names: seq<CString>)
    requires fs.mounted
    ensures Run(fs, [Cd(SLASH)] + CdEach(names)) == fs.(cwd := CdAll(fs.inodes, 0, names))
    decreases |names|
  {
    var cs := [Cd(SLASH)] + CdEach(names);
    if names == [] {
      assert cs[..|cs| - 1] == [];
    } else {
      var front := names[..|names| - 1];
      assert cs[..|cs| - 1] == [Cd(SLASH)] + CdEach(front);
      assert cs[|cs| - 1] == Cd(names[|names| - 1]);
      ReplayCommands(fs, front);
    }
  }

  /** A state whose current directory is followed: cd to the root and to each component of pwd returns to it. */
  lemma PathReturns(fs: Fs)
    requires fs.mounted && Followed(fs.inodes, fs.cwd)
    ensures Pwd(fs).Components? && Run(fs, [Cd(SLASH)] + CdEach(Pwd(fs).names)) == fs
  {
    var n: nat :| ReachesRoot(fs.inodes, fs.cwd, n) && ChainFollows(fs.inodes, fs.cwd, n);
    ChainIsShort(fs.inodes, fs.cwd, n);
    ReplayFromRoot(fs.inodes, fs.cwd, n, MAX_INODES);
    ReplayCommands(fs, PathNames(fs.inodes, fs.cwd));
  }

  /** The pwd/cd round trip in every state of every safe run that starts at the root, whatever the names. */
  lemma RunPwdRoundTrip(fs: Fs, cs: seq<Command>, i: nat)
    requires Inv(fs) && fs.cwd == 0 && SafeRun(fs, cs) && i <= |cs|
    ensures var now := At(fs, cs, i);
      now.mounted ==> Pwd(now).Components? && Run(now, [Cd(SLASH)] + CdEach(Pwd(now).names)) == now
  {
    RootIsFollowed(fs.inodes);
    RunFollowed(fs, cs, i);
    if At(fs, cs, i).mounted {
      PathReturns(At(fs, cs, i));
    }
  }
}
