/** The directory forest that RexFS encodes in the parent ids of its inode table. */
module RexFsTree {
  import opened Machine
  import opened RexFsLayout

  predicate LiveId(t: Table, id: nat) {
    1 <= id <= MAX_INODES && t[id - 1].id == id
  }

  /** 0 is the root; every other directory is a live inode of kind 2. */
  predicate IsDir(t: Table, id: nat) {
    id == 0 || (LiveId(t, id) && t[id - 1].kind == DIRECTORY)
  }

  /** Live slot s has id s + 1, a stored name, a known kind; a directory has no blocks. */
  predicate SlotOk(t: Table, s: nat)
    requires s < MAX_INODES
  {
    t[s].id != 0 ==>
      && t[s].id == s + 1
      && (t[s].kind == FILE || t[s].kind == DIRECTORY)
      && 1 <= |t[s].name| <= NAME_MAX
      && t[s].size <= SECTOR_SIZE * MAX_FILE_BLOCKS
      && (t[s].kind == DIRECTORY ==> t[s].direct == NoBlocks() && t[s].indirect == 0)
  }

  predicate SlotsOk(t: Table) {
    forall s :: 0 <= s < MAX_INODES ==> SlotOk(t, s)
  }

  predicate ParentsOk(t: Table) {
    forall s :: 0 <= s < MAX_INODES && t[s].id != 0 ==> IsDir(t, t[s].parent)
  }

  /** Following parent ids from id reaches the root within n steps. */
  predicate ReachesRoot(t: Table, id: nat, n: nat)
    decreases n
  {
    id == 0 || (n > 0 && LiveId(t, id) && ReachesRoot(t, t[id - 1].parent, n - 1))
  }

  ghost predicate Rooted(t: Table, id: nat) {
    exists n: nat :: ReachesRoot(t, id, n)
  }

  /** Slots, parents and chains: the table encodes a forest hanging off the root. */
  ghost predicate Forest(t: Table) {
    SlotsOk(t) && ParentsOk(t)
    && forall s :: 0 <= s < MAX_INODES && t[s].id != 0 ==> Rooted(t, s + 1)
  }

  // ----- growing, pruning and touching the forest

  lemma {:induction false} ChainAfterAdd(t: Table, s: nat, ino: Inode, id: nat, n: nat)
    requires s < MAX_INODES && t[s].id == 0 && ReachesRoot(t, id, n)
    ensures ReachesRoot(t[s := ino], id, n)
    decreases n
  {
    if id != 0 {
      ChainAfterAdd(t, s, ino, t[id - 1].parent, n - 1);
    }
  }

  lemma ForestAfterAdd(t: Table, s: nat, ino: Inode)
    requires Forest(t) && s < MAX_INODES && t[s].id == 0
    requires ino.id == s + 1 && SlotOk(t[s := ino], s) && IsDir(t, ino.parent)
    ensures Forest(t[s := ino])
  {
    var t' := t[s := ino];
    assert forall o :: 0 <= o < MAX_INODES && o != s ==> SlotOk(t, o) && t'[o] == t[o];
    assert Rooted(t, ino.parent) by {
      if ino.parent == 0 {
        assert ReachesRoot(t, 0, 0);
      } else {
        assert Rooted(t, (ino.parent - 1) + 1);
      }
    }
    var n: nat :| ReachesRoot(t, ino.parent, n);
    ChainAfterAdd(t, s, ino, ino.parent, n);
    assert ReachesRoot(t', s + 1, n + 1);
    forall o | 0 <= o < MAX_INODES && t'[o].id != 0
      ensures IsDir(t', t'[o].parent) && Rooted(t', o + 1)
    {
      if o != s {
        assert IsDir(t, t[o].parent);
        assert Rooted(t, o + 1);
        var m: nat :| ReachesRoot(t, o + 1, m);
        ChainAfterAdd(t, s, ino, o + 1, m);
      } else {
        assert IsDir(t, ino.parent) && IsDir(t', ino.parent);
      }
    }
  }

  lemma {:induction false} ChainAfterRemove(t: Table, s: nat, id: nat, n: nat)
    requires s < MAX_INODES && ReachesRoot(t, id, n) && id != s + 1
    requires forall o :: 0 <= o < MAX_INODES && t[o].id != 0 ==> t[o].parent != s + 1
    ensures ReachesRoot(t[s := t[s].(id := 0)], id, n)
    decreases n
  {
    if id != 0 {
      ChainAfterRemove(t, s, t[id - 1].parent, n - 1);
    }
  }

  lemma ForestAfterRemove(t: Table, s: nat)
    requires Forest(t) && s < MAX_INODES && t[s].id != 0
    requires forall o :: 0 <= o < MAX_INODES && t[o].id != 0 ==> t[o].parent != s + 1
    ensures Forest(t[s := t[s].(id := 0)])
  {
    var t' := t[s := t[s].(id := 0)];
    forall o | 0 <= o < MAX_INODES
      ensures SlotOk(t', o)
    {
      assert SlotOk(t, o);
    }
    forall o | 0 <= o < MAX_INODES && t'[o].id != 0
      ensures IsDir(t', t'[o].parent) && Rooted(t', o + 1)
    {
      assert IsDir(t, t[o].parent);
      assert Rooted(t, o + 1);
      var m: nat :| ReachesRoot(t, o + 1, m);
      ChainAfterRemove(t, s, o + 1, m);
    }
  }

  /** The two tables differ only in the sizes and pointers of slot s. */
  predicate SameTree(t: Table, t': Table, s: nat)
    requires s < MAX_INODES
  {
    t' == t[s := t'[s]]
    && t'[s] == t[s].(size := t'[s].size, direct := t'[s].direct, indirect := t'[s].indirect)
  }

  lemma {:induction false} ChainInSameTree(t: Table, t': Table, s: nat, id: nat, n: nat)
    requires s < MAX_INODES && SameTree(t, t', s) && ReachesRoot(t, id, n)
    ensures ReachesRoot(t', id, n)
    decreases n
  {
    if id != 0 {
      ChainInSameTree(t, t', s, t[id - 1].parent, n - 1);
    }
  }

  lemma ForestInSameTree(t: Table, t': Table, s: nat)
    requires Forest(t) && s < MAX_INODES && SameTree(t, t', s)
    requires t[s].kind == FILE && t'[s].size <= SECTOR_SIZE * MAX_FILE_BLOCKS
    ensures Forest(t')
  {
    forall o | 0 <= o < MAX_INODES
      ensures SlotOk(t', o)
    {
      assert SlotOk(t, o);
    }
    forall o | 0 <= o < MAX_INODES && t'[o].id != 0
      ensures IsDir(t', t'[o].parent) && Rooted(t', o + 1)
    {
      assert IsDir(t, t[o].parent);
      assert Rooted(t, o + 1);
      var m: nat :| ReachesRoot(t, o + 1, m);
      ChainInSameTree(t, t', s, o + 1, m);
    }
  }

  /** No live inode is its own parent. */
  lemma NoSelfParent(t: Table, id: nat, n: nat)
    requires LiveId(t, id) && ReachesRoot(t, id, n)
    ensures t[id - 1].parent != id
    decreases n
  {
    if t[id - 1].parent == id {
      NoSelfParent(t, id, n - 1);
    }
  }

  // ----- chains and their length

  /** The ids from id up to, and without, the root. */
  ghost function Chain(t: Table, id: nat, n: nat): seq<nat>
    requires ReachesRoot(t, id, n)
    decreases n
  {
    if id == 0 then [] else [id] + Chain(t, t[id - 1].parent, n - 1)
  }

  lemma {:induction false} ChainIsUnique(t: Table, id: nat, n: nat, m: nat)
    requires ReachesRoot(t, id, n) && ReachesRoot(t, id, m)
    ensures Chain(t, id, n) == Chain(t, id, m)
    decreases n
  {
    if id != 0 {
      ChainIsUnique(t, t[id - 1].parent, n - 1, m - 1);
    }
  }

  /** The chain of the i-th element is the tail of the chain from position i. */
  lemma {:induction false} ChainTail(t: Table, id: nat, n: nat, i: nat)
    requires ReachesRoot(t, id, n) && i < |Chain(t, id, n)|
    ensures var x := Chain(t, id, n)[i];
      && LiveId(t, x)
      && i <= n && ReachesRoot(t, x, n - i) && |Chain(t, x, n - i)| == |Chain(t, id, n)| - i
    decreases n
  {
    if i > 0 {
      ChainTail(t, t[id - 1].parent, n - 1, i - 1);
    }
  }

  lemma ChainHasNoRepeats(t: Table, id: nat, n: nat, i: nat, j: nat)
    requires ReachesRoot(t, id, n) && i < j < |Chain(t, id, n)|
    ensures Chain(t, id, n)[i] != Chain(t, id, n)[j]
  {
    ChainTail(t, id, n, i);
    ChainTail(t, id, n, j);
    var x := Chain(t, id, n)[i];
    if x == Chain(t, id, n)[j] {
      ChainIsUnique(t, x, n - i, n - j);
    }
  }

  lemma {:induction false} Pigeonhole(xs: seq<nat>, bound: nat)
    requires forall i :: 0 <= i < |xs| ==> 1 <= xs[i] <= bound
    requires forall i, j :: 0 <= i < j < |xs| ==> xs[i] != xs[j]
    ensures |xs| <= bound
    decreases bound
  {
    if xs != [] {
      assert 1 <= xs[0] <= bound;
      if k :| 0 <= k < |xs| && xs[k] == bound {
        Pigeonhole(xs[..k] + xs[k + 1..], bound - 1);
      } else {
        Pigeonhole(xs, bound - 1);
      }
    }
  }

  /** A chain visits each inode at most once, so it has at most 64 elements. */
  lemma ChainIsShort(t: Table, id: nat, n: nat)
    requires ReachesRoot(t, id, n)
    ensures |Chain(t, id, n)| <= MAX_INODES
  {
    var c := Chain(t, id, n);
    forall i | 0 <= i < |c|
      ensures 1 <= c[i] <= MAX_INODES
    {
      ChainTail(t, id, n, i);
    }
    forall i, j | 0 <= i < j < |c|
      ensures c[i] != c[j]
    {
      ChainHasNoRepeats(t, id, n, i, j);
    }
    Pigeonhole(c, MAX_INODES);
  }

  // ----- pwd and cd

  /** The parent recorded for id: 0 when no inode carries the id. */
  function ParentOf(t: Table, id: u16): u16 {
    if Find(t, WithId(id)) < MAX_INODES then t[Find(t, WithId(id))].parent else 0
  }

  function NameOf(t: Table, id: u16): CString {
    if Find(t, WithId(id)) < MAX_INODES then t[Find(t, WithId(id))].name else []
  }

  /** The climb of pwd: at most `guard` ids, from id upwards. */
  function Climb(t: Table, id: u16, guard: nat): (r: seq<u16>)
    ensures |r| <= guard
    decreases guard, |t|
  {
    if id == 0 || guard == 0 then [] else [id] + Climb(t, ParentOf(t, id), guard - 1)
  }

  /** The names of the climbed ids, outermost first. */
  function NamesDown(t: Table, ids: seq<u16>): (r: seq<CString>)
    ensures |r| == |ids|
  {
    if ids == [] then [] else NamesDown(t, ids[1..]) + [NameOf(t, ids[0])]
  }

  function PathFrom(t: Table, id: u16, guard: nat): seq<CString> {
    NamesDown(t, Climb(t, id, guard))
  }

  /** The path components that pwd prints. */
  function PathNames(t: Table, cwd: u16): seq<CString> {
    PathFrom(t, cwd, MAX_INODES)
  }

  const SLASH: CString := [47]
  const DOTDOT: CString := [46, 46]

  function CdTarget(t: Table, cwd: u16, path: CString): u16 {
    if path == [] then cwd
    else if path == SLASH then 0
    else if path == DOTDOT then (if cwd == 0 || Find(t, WithId(cwd)) == MAX_INODES then cwd else ParentOf(t, cwd))
    else if Find(t, DirNamed(cwd, path)) < MAX_INODES then t[Find(t, DirNamed(cwd, path))].id % 0x1_0000
    else cwd
  }

  function CdAll(t: Table, cwd: u16, path: seq<CString>): u16 {
    if path == [] then cwd else CdTarget(t, CdAll(t, cwd, path[..|path| - 1]), path[|path| - 1])
  }

  predicate Navigable(name: CString) {
    name != [] && name != SLASH && name != DOTDOT
  }

  ghost predicate UniqueSiblings(t: Table) {
    forall s, s' :: 0 <= s < s' < MAX_INODES && t[s].id != 0 && t[s'].id != 0 && t[s].parent == t[s'].parent
      ==> t[s].name != t[s'].name
  }

  /** A directory that was ever entered has a name that cd can follow. */
  ghost predicate Enterable(t: Table, id: nat) {
    id == 0 || (IsDir(t, id) && Navigable(t[id - 1].name))
  }

  ghost predicate PathsEnterable(t: Table) {
    forall s :: 0 <= s < MAX_INODES && t[s].id != 0 ==> Enterable(t, t[s].parent)
  }

  lemma FindLive(t: Table, id: u16)
    requires SlotsOk(t) && LiveId(t, id)
    ensures Find(t, WithId(id)) == id - 1
  {
    forall i | 0 <= i < id - 1
      ensures !Matches(WithId(id), t[i])
    {
      assert SlotOk(t, i);
    }
    FindIs(t, WithId(id), id - 1);
  }

  /** cd leads from a directory to a directory, and only into one that can be entered by name. */
  lemma CdLeadsToDir(t: Table, cwd: u16, path: CString)
    requires SlotsOk(t) && ParentsOk(t) && IsDir(t, cwd)
    ensures IsDir(t, CdTarget(t, cwd, path))
    ensures PathsEnterable(t) && Enterable(t, cwd) ==> Enterable(t, CdTarget(t, cwd, path))
  {
    if path == DOTDOT && cwd != 0 {
      FindLive(t, cwd);
      assert IsDir(t, t[cwd - 1].parent);
    } else if Navigable(path) {
      var s := Find(t, DirNamed(cwd, path));
      if s < MAX_INODES {
        assert SlotOk(t, s);
      }
    }
  }

  /** With enough guard, the climb of pwd is the whole chain to the root. */
  lemma {:induction false} ClimbIsChain(t: Table, id: u16, n: nat, guard: nat)
    requires SlotsOk(t) && ReachesRoot(t, id, n) && |Chain(t, id, n)| <= guard
    ensures Climb(t, id, guard) == Chain(t, id, n)
    decreases n
  {
    if id != 0 {
      FindLive(t, id);
      ClimbIsChain(t, t[id - 1].parent, n - 1, guard - 1);
    }
  }

  /** The guard of 64 steps never cuts a path short: the climb ends at the root. */
  lemma PwdReachesRoot(t: Table, id: u16, n: nat)
    requires SlotsOk(t) && ReachesRoot(t, id, n)
    ensures Climb(t, id, MAX_INODES) == Chain(t, id, n)
    ensures forall guard :: guard >= MAX_INODES ==> Climb(t, id, guard) == Climb(t, id, MAX_INODES)
  {
    ChainIsShort(t, id, n);
    ClimbIsChain(t, id, n, MAX_INODES);
    forall guard | guard >= MAX_INODES
      ensures Climb(t, id, guard) == Climb(t, id, MAX_INODES)
    {
      ClimbIsChain(t, id, n, guard);
    }
  }

  lemma CdByName(t: Table, id: u16)
    requires SlotsOk(t) && UniqueSiblings(t)
    requires LiveId(t, id) && t[id - 1].kind == DIRECTORY && Navigable(t[id - 1].name)
    ensures CdTarget(t, t[id - 1].parent, t[id - 1].name) == id
  {
    var q := DirNamed(t[id - 1].parent, t[id - 1].name);
    assert Matches(q, t[id - 1]);
    FindIs(t, q, id - 1);
  }

  /** On the chain from id to the root, each name looked up in its parent leads to its own directory. */
  ghost predicate ChainFollows(t: Table, id: u16, n: nat)
    requires ReachesRoot(t, id, n)
    decreases n
  {
    id == 0 ||
    (var parent := t[id - 1].parent;
     && ParentOf(t, id) == parent
     && CdTarget(t, parent, NameOf(t, id)) == id
     && ChainFollows(t, parent, n - 1))
  }

  lemma {:induction false} ChainIsFollowed(t: Table, id: u16, n: nat)
    requires SlotsOk(t) && UniqueSiblings(t) && PathsEnterable(t) && Enterable(t, id) && ReachesRoot(t, id, n)
    ensures ChainFollows(t, id, n)
    decreases n
  {
    if id != 0 {
      FindLive(t, id);
      CdByName(t, id);
      assert Enterable(t, t[id - 1].parent);
      ChainIsFollowed(t, t[id - 1].parent, n - 1);
    }
  }

  lemma PathStep(t: Table, id: u16, guard: nat)
    requires id != 0 && guard > 0
    ensures PathFrom(t, id, guard) == PathFrom(t, ParentOf(t, id), guard - 1) + [NameOf(t, id)]
  {
    assert Climb(t, id, guard)[1..] == Climb(t, ParentOf(t, id), guard - 1);
  }

  lemma CdAllStep(t: Table, path: seq<CString>, name: CString)
    ensures CdAll(t, 0, path + [name]) == CdTarget(t, CdAll(t, 0, path), name)
  {
    assert (path + [name])[..|path + [name]| - 1] == path;
  }

  /** Replaying cd on the path components from the root leads back to the directory. */
  lemma {:induction false} ReplayFromRoot(t: Table, id: u16, n: nat, guard: nat)
    requires ReachesRoot(t, id, n) && ChainFollows(t, id, n) && |Chain(t, id, n)| <= guard
    ensures CdAll(t, 0, PathFrom(t, id, guard)) == id
    decreases n
  {
    if id != 0 {
      var parent := t[id - 1].parent;
      ReplayFromRoot(t, parent, n - 1, guard - 1);
      PathStep(t, id, guard);
      CdAllStep(t, PathFrom(t, parent, guard - 1), NameOf(t, id));
    }
  }

  /** The pwd/cd round trip. */
  lemma PwdCdRoundTrip(t: Table, cwd: u16)
    requires Forest(t) && UniqueSiblings(t) && PathsEnterable(t) && Enterable(t, cwd)
    ensures CdAll(t, 0, PathNames(t, cwd)) == cwd
  {
    if cwd == 0 {
      assert ReachesRoot(t, cwd, 0);
    } else {
      assert Rooted(t, (cwd - 1) + 1);
    }
    var n: nat :| ReachesRoot(t, cwd, n);
    ChainIsShort(t, cwd, n);
    ChainIsFollowed(t, cwd, n);
    ReplayFromRoot(t, cwd, n, MAX_INODES);
  }
}
