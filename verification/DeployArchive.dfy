/** Deploy archives: the swap of the per-job directories with its rollback,
    and the staged archive of the current command. */
module DeployArchive {
  import opened Basics

  /** The directories that an archive replaces. */
  const DIRS := ["machine-files", "machine-commands", "file-system"]

  /** A directory of named subtrees with content T. */
  type Tree<T> = map<string, T>

  predicate IsJobDir(name: string) {
    name in DIRS
  }

  /** What a swap promises: the per-job directories of the archive, and
      everything else as it was. */
  ghost predicate Installed<T(!new)>(was: Tree<T>, archive: Tree<T>, now: Tree<T>) {
    forall d :: (d in now <==> if IsJobDir(d) then d in archive else d in was)
      && (d in now ==> now[d] == if IsJobDir(d) then archive[d] else was[d])
  }

  /** The tree that a swap promises. */
  function Overlay<T>(was: Tree<T>, archive: Tree<T>): Tree<T> {
    map d | d in was.Keys + archive.Keys && (if IsJobDir(d) then d in archive else d in was)
      :: if IsJobDir(d) then archive[d] else was[d]
  }

  lemma InstalledIsOverlay<T(!new)>(was: Tree<T>, archive: Tree<T>, now: Tree<T>)
    ensures Installed(was, archive, now) <==> now == Overlay(was, archive)
  {
    if Installed(was, archive, now) {
      assert forall d :: d in now <==> d in Overlay(was, archive);
    }
  }

  ghost predicate FaultedTwice(fails: nat -> bool, from: nat, to: nat) {
    exists j: nat, k: nat :: from <= j < k < to && fails(j) && fails(k)
  }

  /** The operations of moving the directories i to n - 1 aside, the first at
      number from. After a failure the rollback takes two operations for each
      directory moved. */
  function MoveOps(fails: nat -> bool, from: nat, i: nat, n: nat): nat
    requires i <= n
    decreases n - i
  {
    if i == n then 0 else if fails(from) then 1 + 2 * i else 1 + MoveOps(fails, from + 1, i + 1, n)
  }

  /** The operations of installing them; the rollback is for all of them. */
  function InstallOps(fails: nat -> bool, from: nat, i: nat, n: nat): nat
    requires i <= n
    decreases n - i
  {
    if i == n then 0 else if fails(from) then 1 + 2 * n else 1 + InstallOps(fails, from + 1, i + 1, n)
  }

  lemma {:induction false} MoveCount(fails: nat -> bool, from: nat, i: nat, n: nat)
    requires i <= n && !Faulted(fails, from, from + i)
    ensures MoveOps(fails, from, 0, n) == i + MoveOps(fails, from + i, i, n)
    decreases i
  {
    if i > 0 {
      assert !fails(from + i - 1);
      MoveCount(fails, from, i - 1, n);
    }
  }

  lemma {:induction false} InstallCount(fails: nat -> bool, from: nat, i: nat, n: nat)
    requires i <= n && !Faulted(fails, from, from + i)
    ensures InstallOps(fails, from, 0, n) == i + InstallOps(fails, from + i, i, n)
    decreases i
  {
    if i > 0 {
      assert !fails(from + i - 1);
      InstallCount(fails, from, i - 1, n);
    }
  }

  /** Operation k fails, and perhaps another one after it. */
  lemma FaultAt(fails: nat -> bool, from: nat, k: nat, to: nat)
    requires from <= k < to && fails(k)
    ensures Faulted(fails, from, to)
    ensures Faulted(fails, k + 1, to) ==> FaultedTwice(fails, from, to)
  {
  }

  /** The first failure is the move of directory i, and its rollback ends at
      operation end. */
  lemma MoveFailed(fails: nat -> bool, from: nat, i: nat, n: nat, end: nat)
    requires i < n && !Faulted(fails, from, from + i) && fails(from + i) && end == from + i + 1 + 2 * i
    ensures end == from + MoveOps(fails, from, 0, n) && Faulted(fails, from, end) && Faulted(fails, from, from + n)
    ensures Faulted(fails, from + i + 1, end) ==> FaultedTwice(fails, from, end)
  {
    MoveCount(fails, from, i, n);
    FaultAt(fails, from, from + i, end);
    FaultAt(fails, from, from + i, from + n);
  }

  lemma InstallFailed(fails: nat -> bool, from: nat, i: nat, n: nat, end: nat)
    requires i < n && !Faulted(fails, from, from + i) && fails(from + i) && end == from + i + 1 + 2 * n
    ensures end == from + InstallOps(fails, from, 0, n) && Faulted(fails, from, end)
    ensures Faulted(fails, from + i + 1, end) ==> FaultedTwice(fails, from, end)
  {
    InstallCount(fails, from, i, n);
    FaultAt(fails, from, from + i, end);
  }

  /** The operations of a whole swap: the first makes the directory for the
      old ones. */
  ghost function SwapOps(fails: nat -> bool, from: nat): nat {
    var n := |DIRS|;
    if fails(from) then 1
    else if Faulted(fails, from + 1, from + 1 + n) then 1 + MoveOps(fails, from + 1, 0, n)
    else 1 + n + InstallOps(fails, from + 1 + n, 0, n)
  }

  /** os.Rename of a directory: a missing source or a missing parent of the
      target is ErrNotExist. */
  datatype RenameResult = Renamed | NotExist | RenameFailed

  /** The operations so far, whether an archive is staged, and how many
      removals of a staging tree failed. */
  datatype Ledger = Ledger(ops: nat, staged: bool, failedRemovals: nat)

  /** The next operation removes the staging tree, if there is one. */
  function Dropped(l: Ledger, fails: nat -> bool): Ledger {
    if !l.staged then l
    else Ledger(l.ops + 1, false, l.failedRemovals + (if fails(l.ops) then 1 else 0))
  }

  /** The next operation makes a staging tree. A bad archive is removed again,
      by the operation after it. */
  function Staged(l: Ledger, works: bool, fails: nat -> bool): Ledger {
    if fails(l.ops) then l.(ops := l.ops + 1)
    else
      var made := l.(ops := l.ops + 1, staged := true);
      if works then made else Dropped(made, fails)
  }

  lemma StagedIs(l: Ledger, works: bool, fails: nat -> bool)
    requires !l.staged
    ensures Staged(l, works, fails) == Ledger(
      l.ops + (if !works && !fails(l.ops) then 2 else 1),
      works && !fails(l.ops),
      l.failedRemovals + (if !works && !fails(l.ops) && fails(l.ops + 1) then 1 else 0))
  {
  }

  /** The client between two calls; current is the staged archive. */
  datatype Now<T> = Now(root: Tree<T>, current: Option<Tree<T>>, leaks: nat, ops: nat)

  /** What the client keeps on disk. */
  datatype Disk<T> = Disk(
    rootExists: bool, root: Tree<T>, staged: Option<nat>, stagings: map<nat, Tree<T>>, nextId: nat, leaks: nat)

  ghost predicate Consistent<T>(d: Disk<T>) {
    match d
    case Disk(rootExists, root, staged, stagings, nextId, leaks) =>
      && (!rootExists ==> root == map[])
      && (forall i :: i in stagings ==> i < nextId)
      && (staged.Some? ==> staged.value in stagings)
      && |stagings| == leaks + (if staged.Some? then 1 else 0)
  }

  lemma RootChanged<T>(d: Disk<T>, root: Tree<T>)
    requires Consistent(d) && (!d.rootExists ==> root == map[])
    ensures Consistent(d.(root := root))
  {
  }

  lemma NewKey<T>(m: map<nat, T>, k: nat, x: T)
    requires k !in m
    ensures |m[k := x]| == |m| + 1
  {
    assert m[k := x].Keys == m.Keys + {k};
  }

  lemma OldKey<T>(m: map<nat, T>, k: nat)
    requires k in m
    ensures |m - {k}| == |m| - 1
  {
    assert (m - {k}).Keys == m.Keys - {k};
  }

  lemma TreeMade<T>(d: Disk<T>, archive: Tree<T>)
    requires Consistent(d) && d.staged == None
    ensures var i := d.nextId;
      Consistent(d.(staged := Some(i), stagings := d.stagings[i := archive], nextId := i + 1))
  {
    NewKey(d.stagings, d.nextId, archive);
  }

  /** The staging tree is gone, or it is left behind. */
  lemma TreeDropped<T>(d: Disk<T>)
    requires Consistent(d) && d.staged.Some?
    ensures Consistent(d.(staged := None, stagings := d.stagings - {d.staged.value}))
    ensures Consistent(d.(staged := None, leaks := d.leaks + 1))
  {
    OldKey(d.stagings, d.staged.value);
  }

  /** A swap of these directories on its way, from the tree was to the archive. */
  datatype Swap<T> = Swap(
    dirs: seq<string>, was: Tree<T>, archive: Tree<T>, moved: nat, n: nat, root: Tree<T>, aside: Tree<T>)

  /** The first directories are aside, the first n are replaced, and all others
      are in place. */
  ghost predicate Midway<T(!new)>(p: Swap<T>) {
    match p
    case Swap(dirs, was, archive, moved, n, root, aside) =>
      && Distinct(dirs) && moved <= |dirs| && n <= |dirs| && (n > 0 ==> moved == |dirs|)
      && (forall d :: d in aside <==> d in dirs[..moved] && d in was)
      && (forall d :: d in aside ==> was[d] == aside[d])
      && (forall d :: d in root <==> (d in was && d !in dirs[..moved]) || (d in archive && d in dirs[..n]))
      && (forall d :: d in root ==> root[d] == if d in archive && d in dirs[..n] then archive[d] else was[d])
  }

  lemma NextDir(dirs: seq<string>, i: nat)
    requires Distinct(dirs) && i < |dirs|
    ensures dirs[i] !in dirs[..i] && dirs[..i + 1] == dirs[..i] + [dirs[i]]
  {
  }

  lemma MovedOne<T(!new)>(p: Swap<T>)
    requires Midway(p) && p.n == 0 && p.moved < |p.dirs|
    ensures var d := p.dirs[p.moved];
      && (d in p.root ==> Midway(p.(moved := p.moved + 1, root := p.root - {d}, aside := p.aside[d := p.root[d]])))
      && (d !in p.root ==> Midway(p.(moved := p.moved + 1)))
  {
    NextDir(p.dirs, p.moved);
  }

  lemma NoneInstalled<T(!new)>(p: Swap<T>, archive: Tree<T>)
    requires Midway(p) && p.n == 0
    ensures Midway(p.(archive := archive))
  {
  }

  lemma InstalledOne<T(!new)>(p: Swap<T>)
    requires Midway(p) && p.moved == |p.dirs| && p.n < |p.dirs|
    ensures var d := p.dirs[p.n];
      && d !in p.root
      && (d in p.archive ==> Midway(p.(n := p.n + 1, root := p.root[d := p.archive[d]])))
      && (d !in p.archive ==> Midway(p.(n := p.n + 1)))
  {
    NextDir(p.dirs, p.n);
    assert p.dirs[..p.moved] == p.dirs;
  }

  /** A rollback on its way: the first n of the moved directories are back. */
  ghost predicate Restoring<T(!new)>(p: Swap<T>) {
    match p
    case Swap(dirs, was, _, moved, n, root, aside) =>
      && Distinct(dirs) && n <= moved <= |dirs|
      && (forall d :: d in aside ==> d in was && was[d] == aside[d])
      && (forall d :: d in dirs[..moved] && d in was ==> d in aside || d in dirs[..n])
      && (forall d :: d in aside && d !in dirs[..n] ==> d in dirs[..moved])
      && (forall d :: d !in dirs[..moved] || d in dirs[..n] ==>
        (d in root <==> d in was) && (d in root ==> root[d] == was[d]))
  }

  lemma RestoreBegins<T(!new)>(p: Swap<T>)
    requires Midway(p)
    ensures Restoring(p.(n := 0)) && p.moved <= |p.dirs| && p.aside.Keys <= p.was.Keys
  {
    assert p.n > 0 ==> p.dirs[..p.moved] == p.dirs;
  }

  lemma RestoredOne<T(!new)>(p: Swap<T>, root: Tree<T>, aside: Tree<T>)
    requires Restoring(p) && p.n < p.moved <= |p.dirs|
    requires var d := p.dirs[p.n];
      && (forall e :: e != d ==> (e in root <==> e in p.root) && (e in root ==> root[e] == p.root[e]))
      && (d in root <==> d in p.aside) && (d in root ==> root[d] == p.aside[d])
      && (aside == p.aside || aside == p.aside - {d})
    ensures Restoring(p.(n := p.n + 1, root := root, aside := aside))
  {
    NextDir(p.dirs, p.n);
    assert p.dirs[p.n] in p.dirs[..p.moved];
  }

  lemma AllRestored<T(!new)>(p: Swap<T>)
    requires Restoring(p) && p.n == p.moved
    ensures p.root == p.was
  {
  }

  lemma AllInstalled<T(!new)>(p: Swap<T>)
    requires Midway(p) && p.n == |p.dirs| && p.dirs == DIRS && p.moved == |p.dirs|
    ensures Installed(p.was, p.archive, p.root)
  {
    assert p.dirs[..|p.dirs|] == p.dirs;
  }

  class Client<T(!new)> {
    /** /deploy, and whether it exists at all. */
    var root: Tree<T>
    const rootExists: bool
    /** Which of the file system operations fail, by their number. */
    const fails: nat -> bool
    var ops: nat
    /** The old directories during a swap. */
    var aside: Tree<T>
    /** stagedDeploy: the staging tree of the current command. */
    var staged: Option<nat>
    /** The staging trees on disk. */
    var stagings: map<nat, Tree<T>>
    var nextId: nat
    /** Removals of a staging tree that failed; they are not reported. */
    var leaks: nat

    ghost predicate Valid()
      reads this
    {
      Consistent(Disk(rootExists, root, staged, stagings, nextId, leaks))
    }

    ghost function View(): Now<T>
      requires Valid()
      reads this
    {
      Now(root, if staged.Some? then Some(stagings[staged.value]) else None, leaks, ops)
    }

    ghost function Books(): Ledger
      reads this
    {
      Ledger(ops, staged.Some?, leaks)
    }

    constructor (deploy: Option<Tree<T>>, fails: nat -> bool)
      ensures Valid() && root == (if deploy.Some? then deploy.value else map[]) && rootExists == deploy.Some?
      ensures staged == None && stagings == map[] && leaks == 0 && ops == 0 && this.fails == fails
    {
      root := if deploy.Some? then deploy.value else map[];
      rootExists := deploy.Some?;
      this.fails := fails;
      aside, staged, stagings, nextId, leaks, ops := map[], None, map[], 0, 0, 0;
    }

    /** Whether the next operation fails. */
    method Fault() returns (fault: bool)
      modifies `ops
      ensures ops == old(ops) + 1 && fault == fails(old(ops))
    {
      fault := fails(ops);
      ops := ops + 1;
    }

    // ----- the swap

    /** rename root/dir to old/dir. */
    method MoveAside(dir: string) returns (r: RenameResult)
      modifies `root, `aside, `ops
      ensures ops == old(ops) + 1 && (r == RenameFailed <==> fails(old(ops)))
      ensures r != Renamed ==> root == old(root) && aside == old(aside)
      ensures r == Renamed ==>
        dir in old(root) && root == old(root) - {dir} && aside == old(aside)[dir := old(root)[dir]]
      ensures r == NotExist ==> dir !in root
    {
      var fault := Fault();
      if fault {
        return RenameFailed;
      }
      if dir !in root {
        return NotExist;
      }
      aside := aside[dir := root[dir]];
      root := root - {dir};
      return Renamed;
    }

    /** rename tree/dir to root/dir; root/dir is free. */
    method Install(archive: Tree<T>, dir: string) returns (r: RenameResult)
      requires dir !in root
      modifies `root, `ops
      ensures ops == old(ops) + 1 && (r == RenameFailed <==> fails(old(ops)))
      ensures r != Renamed ==> root == old(root)
      ensures r == Renamed ==> rootExists && dir in archive && root == old(root)[dir := archive[dir]]
      ensures r == NotExist ==> dir !in archive || !rootExists
    {
      var fault := Fault();
      if fault {
        return RenameFailed;
      }
      if dir !in archive || !rootExists {
        return NotExist;
      }
      root := root[dir := archive[dir]];
      return Renamed;
    }

    /** RemoveAll(root/dir), then rename old/dir to root/dir. */
    method PutBack(dir: string, before: bool) returns (complete: bool)
      requires aside != map[] ==> rootExists
      modifies `root, `aside, `ops
      ensures aside == old(aside) || (dir in old(aside) && aside == old(aside) - {dir})
      ensures forall d :: d != dir ==> (d in root <==> d in old(root)) && (d in root ==> root[d] == old(root)[d])
      ensures complete ==>
        before && (dir in root <==> dir in old(aside)) && (dir in root ==> root[dir] == old(aside)[dir])
      ensures ops == old(ops) + 2 && (before && !complete ==> Faulted(fails, old(ops), ops))
      ensures !rootExists && dir in root ==> dir in old(root)
    {
      complete := before;
      var fault1 := Fault();
      if dir in root {
        if fault1 {
          complete := false;
        } else {
          root := root - {dir};
        }
      }
      var fault2 := Fault();
      if dir in aside {
        if fault2 || dir in root {
          complete := false;
        } else {
          root := root[dir := aside[dir]];
          aside := aside - {dir};
        }
      }
    }

    /** The rollback: new directories out, old ones back. Its errors are
        ignored; complete tells that none did harm. */
    method Restore(dirs: seq<string>, moved: nat, ghost was: Tree<T>, ghost archive: Tree<T>, ghost n: nat)
      returns (complete: bool)
      requires Midway(Swap(dirs, was, archive, moved, n, root, aside)) && (!rootExists ==> was == map[])
      modifies `root, `aside, `ops
      ensures complete ==> root == was
      ensures ops == old(ops) + 2 * moved && (!complete ==> Faulted(fails, old(ops), ops))
      ensures !rootExists ==> forall d :: d in root ==> d in old(root)
    {
      complete := true;
      RestoreBegins(Swap(dirs, was, archive, moved, n, root, aside));
      for i := 0 to moved
        invariant aside.Keys <= was.Keys
        invariant !rootExists ==> forall d :: d in root ==> d in old(root)
        invariant ops == old(ops) + 2 * i && (!complete ==> Faulted(fails, old(ops), ops))
        invariant complete ==> Restoring(Swap(dirs, was, archive, moved, i, root, aside))
      {
        ghost var p := Swap(dirs, was, archive, moved, i, root, aside);
        complete := PutBack(dirs[i], complete);
        if complete {
          RestoredOne(p, root, aside);
        }
      }
      if complete {
        AllRestored(Swap(dirs, was, archive, moved, moved, root, aside));
      }
    }

    method MoveNext(dirs: seq<string>, i: nat, ghost was: Tree<T>) returns (r: RenameResult)
      requires Midway(Swap(dirs, was, map[], i, 0, root, aside)) && i < |dirs| && (!rootExists ==> root == map[])
      modifies `root, `aside, `ops
      ensures ops == old(ops) + 1 && (r == RenameFailed <==> fails(old(ops))) && (!rootExists ==> root == map[])
      ensures Midway(Swap(dirs, was, map[], if r == RenameFailed then i else i + 1, 0, root, aside))
    {
      MovedOne(Swap(dirs, was, map[], i, 0, root, aside));
      r := MoveAside(dirs[i]);
    }

    method MoveAllAside(dirs: seq<string>) returns (ok: bool, complete: bool)
      requires (!rootExists ==> root == map[]) && aside == map[] && Distinct(dirs)
      modifies `root, `aside, `ops
      ensures !rootExists ==> root == map[]
      ensures ops == old(ops) + MoveOps(fails, old(ops), 0, |dirs|) && (ok <==> !Faulted(fails, old(ops), ops))
      ensures ok <==> !Faulted(fails, old(ops), old(ops) + |dirs|)
      ensures ok ==> ops == old(ops) + |dirs| && Midway(Swap(dirs, old(root), map[], |dirs|, 0, root, aside))
      ensures !ok && complete ==> root == old(root)
      ensures !ok && !complete ==> FaultedTwice(fails, old(ops), ops)
    {
      ghost var from := ops;
      for i := 0 to |dirs|
        invariant !rootExists ==> root == map[]
        invariant ops == from + i && !Faulted(fails, from, ops)
        invariant Midway(Swap(dirs, old(root), map[], i, 0, root, aside))
      {
        var r := MoveNext(dirs, i, old(root));
        if r == RenameFailed {
          complete := Restore(dirs, i, old(root), map[], 0);
          MoveFailed(fails, from, i, |dirs|, ops);
          return false, complete;
        }
      }
      MoveCount(fails, from, |dirs|, |dirs|);
      return true, true;
    }

    /** installed is what the renames can take from the archive: nothing
        without /deploy. */
    method InstallNext(dirs: seq<string>, i: nat, archive: Tree<T>, ghost was: Tree<T>, ghost installed: Tree<T>)
      returns (r: RenameResult)
      requires i < |dirs| && (!rootExists ==> root == map[]) && installed == (if rootExists then archive else map[])
      requires Midway(Swap(dirs, was, installed, |dirs|, i, root, aside))
      modifies `root, `ops
      ensures ops == old(ops) + 1 && (r == RenameFailed <==> fails(old(ops))) && (!rootExists ==> root == map[])
      ensures Midway(Swap(dirs, was, installed, |dirs|, if r == RenameFailed then i else i + 1, root, aside))
    {
      InstalledOne(Swap(dirs, was, installed, |dirs|, i, root, aside));
      r := Install(archive, dirs[i]);
    }

    method InstallAll(dirs: seq<string>, archive: Tree<T>, ghost was: Tree<T>, ghost installed: Tree<T>)
      returns (ok: bool, complete: bool)
      requires !rootExists ==> root == map[] && was == map[]
      requires installed == if rootExists then archive else map[]
      requires Midway(Swap(dirs, was, installed, |dirs|, 0, root, aside))
      modifies `root, `aside, `ops
      ensures !rootExists ==> root == map[]
      ensures ops == old(ops) + InstallOps(fails, old(ops), 0, |dirs|) && (ok <==> !Faulted(fails, old(ops), ops))
      ensures ok ==> Midway(Swap(dirs, was, installed, |dirs|, |dirs|, root, aside))
      ensures !ok && complete ==> root == was
      ensures !ok && !complete ==> FaultedTwice(fails, old(ops), ops)
    {
      ghost var from := ops;
      for i := 0 to |dirs|
        invariant !rootExists ==> root == map[]
        invariant ops == from + i && !Faulted(fails, from, ops)
        invariant Midway(Swap(dirs, was, installed, |dirs|, i, root, aside))
      {
        var r := InstallNext(dirs, i, archive, was, installed);
        if r == RenameFailed {
          complete := Restore(dirs, |dirs|, was, installed, i);
          InstallFailed(fails, from, i, |dirs|, ops);
          return false, complete;
        }
      }
      InstallCount(fails, from, |dirs|, |dirs|);
      return true, true;
    }

    /** swapDeployDirs succeeds exactly when no operation fails. An error
        leaves /deploy as it was unless an operation of the rollback fails
        too. A success installs the archive, but only if /deploy exists: a
        missing /deploy looks like an archive without the directory. */
    method SwapDeployDirs(archive: Tree<T>) returns (ok: bool, complete: bool)
      requires !rootExists ==> root == map[]
      modifies `root, `aside, `ops
      ensures !rootExists ==> root == map[]
      ensures ops == old(ops) + SwapOps(fails, old(ops)) && (ok <==> !Faulted(fails, old(ops), ops))
      ensures ok ==> Installed(old(root), if rootExists then archive else map[], root)
      ensures !ok && complete ==> root == old(root)
      ensures !ok && !complete ==> FaultedTwice(fails, old(ops), ops)
    {
      aside := map[];
      var fault := Fault(); // Mkdir
      if fault {
        return false, true;
      }
      ok, complete := MoveAllAside(DIRS);
      if ok {
        ghost var installed := if rootExists then archive else map[];
        NoneInstalled(Swap(DIRS, old(root), map[], |DIRS|, 0, root, aside), installed);
        ok, complete := InstallAll(DIRS, archive, old(root), installed);
        if ok {
          AllInstalled(Swap(DIRS, old(root), installed, |DIRS|, |DIRS|, root, aside));
        }
      }
    }

    // ----- the session

    /** os.RemoveAll of the staging tree that was current, with its error
        dropped. */
    method RemoveStaging(i: nat)
      requires staged == None && Consistent(Disk(rootExists, root, Some(i), stagings, nextId, leaks))
      modifies `stagings, `leaks, `ops
      ensures Valid() && ops == old(ops) + 1
      ensures leaks == old(leaks) + (if fails(old(ops)) then 1 else 0)
      ensures stagings == if fails(old(ops)) then old(stagings) else old(stagings) - {i}
    {
      TreeDropped(Disk(rootExists, root, Some(i), stagings, nextId, leaks));
      var fault := Fault();
      if fault {
        leaks := leaks + 1;
      } else {
        stagings := stagings - {i};
      }
    }

    /** DiscardCommandFiles. */
    method Discard()
      requires Valid()
      modifies `staged, `stagings, `leaks, `ops
      ensures Valid() && staged == None
      ensures Books() == Dropped(old(Books()), fails)
    {
      if staged.Some? {
        var i := staged.value;
        staged := None;
        RemoveStaging(i);
      }
    }

    /** stageDeployArchive: a failed check drops the new staging tree. */
    method Stage(archive: Tree<T>, works: bool) returns (ok: bool)
      requires Valid() && staged == None
      modifies `staged, `stagings, `leaks, `nextId, `ops
      ensures Valid() && (ok <==> works && !fails(old(ops)))
      ensures staged.Some? <==> ok
      ensures ok ==> stagings[staged.value] == archive
      ensures ops == old(ops) + (if !works && !fails(old(ops)) then 2 else 1)
      ensures leaks == old(leaks) + (if !works && !fails(old(ops)) && fails(old(ops) + 1) then 1 else 0)
    {
      var fault := Fault(); // MkdirTemp
      if fault {
        return false;
      }
      var i := nextId;
      TreeMade(Disk(rootExists, root, staged, stagings, nextId, leaks), archive);
      nextId := nextId + 1;
      stagings := stagings[i := archive];
      if !works {
        RemoveStaging(i);
        return false;
      }
      staged := Some(i);
      return true;
    }

    /** CommandConfig: the staged archive of an earlier command never applies
        to this one. payload is the archive that it carries, if any; works
        tells whether it unpacks and its vars validate. */
    method CommandConfig(payload: Option<Tree<T>>, works: bool) returns (ok: bool)
      requires Valid()
      modifies `staged, `stagings, `leaks, `nextId, `ops
      ensures Valid()
      ensures staged.Some? <==> payload.Some? && ok
      ensures staged.Some? ==> stagings[staged.value] == payload.value
      ensures var dropped := Dropped(old(Books()), fails);
        && (ok <==> works && (payload.Some? ==> !fails(dropped.ops)))
        && Books() == if payload.Some? then Staged(dropped, works, fails) else dropped
    {
      Discard();
      if payload.None? {
        return works;
      }
      StagedIs(Books(), works, fails);
      ok := Stage(payload.value, works);
    }

    /** The swap with the staged archive, then its removal. */
    method ApplyStaged(i: nat) returns (ok: bool, complete: bool)
      requires Valid() && staged == Some(i)
      modifies `root, `aside, `staged, `stagings, `leaks, `ops
      ensures Valid() && staged == None
      ensures var end := old(ops) + SwapOps(fails, old(ops));
        && ops == end + 1 && leaks == old(leaks) + (if fails(end) then 1 else 0)
        && (ok <==> !Faulted(fails, old(ops), end))
        && (!ok && !complete ==> FaultedTwice(fails, old(ops), end))
      ensures ok ==> Installed(old(root), if rootExists then old(stagings)[i] else map[], root)
      ensures !ok && complete ==> root == old(root)
    {
      staged := None;
      ok, complete := SwapDeployDirs(stagings[i]);
      RootChanged(Disk(rootExists, old(root), Some(i), stagings, nextId, leaks), root);
      RemoveStaging(i);
    }

    /** ApplyCommandFiles: it installs the staged archive, or nothing. Its
        last operation removes the staging tree. */
    method Apply() returns (applied: bool, ok: bool, complete: bool)
      requires Valid()
      modifies `root, `aside, `staged, `stagings, `leaks, `ops
      ensures Valid() && staged == None
      ensures old(staged) == None ==>
        !applied && ok && complete && root == old(root) && ops == old(ops) && leaks == old(leaks)
      ensures old(staged).Some? ==>
        var end := old(ops) + SwapOps(fails, old(ops));
        && ops == end + 1 && leaks == old(leaks) + (if fails(end) then 1 else 0)
        && (applied <==> ok) && (ok <==> !Faulted(fails, old(ops), end))
      ensures applied ==> old(staged).Some?
      ensures applied ==> Installed(old(root), if rootExists then old(stagings[staged.value]) else map[], root)
      ensures !applied && complete ==> root == old(root)
      ensures !applied && !complete ==> FaultedTwice(fails, old(ops), ops)
    {
      if staged.None? {
        return false, true, true;
      }
      ok, complete := ApplyStaged(staged.value);
      applied := ok;
    }
  }

  /** A swap that reports success has installed the archive exactly when
      /deploy exists or the archive has no per-job directory. */
  lemma SwapInstallsIff<T(!new)>(was: Tree<T>, archive: Tree<T>, rootExists: bool, now: Tree<T>)
    requires Installed(was, if rootExists then archive else map[], now)
    ensures Installed(was, archive, now) <==> rootExists || forall d :: IsJobDir(d) ==> d !in archive
  {
  }

  /** Without /deploy and without a failing operation the swap of any archive
      with a per-job directory reports success and installs nothing. */
  method MissingDeployInstallsNothing<T(!new)>(archive: Tree<T>) returns (ok: bool, now: Tree<T>)
    requires exists d :: IsJobDir(d) && d in archive
    ensures ok && now == map[] && !Installed(map[], archive, now)
  {
    var c := new Client(None, _ => false);
    var complete;
    ok, complete := c.SwapDeployDirs(archive);
    now := c.root;
    SwapInstallsIff(map[], archive, false, now);
  }

  datatype Call<T> = Command(payload: Option<Tree<T>>, works: bool) | DiscardFiles | ApplyFiles

  /** The ledger after one more call. */
  ghost function Booked<T>(l: Ledger, c: Call<T>, fails: nat -> bool): Ledger {
    match c
    case DiscardFiles => Dropped(l, fails)
    case ApplyFiles => if l.staged then Dropped(l.(ops := l.ops + SwapOps(fails, l.ops)), fails) else l
    case Command(payload, works) =>
      if payload.Some? then Staged(Dropped(l, fails), works, fails) else Dropped(l, fails)
  }

  /** The ledger after the first n calls. */
  ghost function Balance<T>(calls: seq<Call<T>>, fails: nat -> bool, n: nat): Ledger
    requires n <= |calls|
  {
    if n == 0 then Ledger(0, false, 0) else Booked(Balance(calls, fails, n - 1), calls[n - 1], fails)
  }

  /** The command stages its archive, unless an operation fails. */
  predicate Stages<T>(c: Call<T>) {
    c.Command? && c.payload.Some? && c.works
  }

  /** An ApplyFiles call, by its position, and the archive that it installed. */
  datatype Installation<T> = Installation(call: nat, archive: Tree<T>)

  /** The call is an ApplyFiles right after the command of this archive: no
      other command, discard or apply lies between. */
  predicate Justified<T(==)>(calls: seq<Call<T>>, x: Installation<T>) {
    && 0 < x.call < |calls| && calls[x.call].ApplyFiles?
    && Stages(calls[x.call - 1]) && calls[x.call - 1].payload.value == x.archive
  }

  /** The installations of the first n calls when no operation fails. */
  function Expected<T>(calls: seq<Call<T>>, n: nat): seq<Installation<T>>
    requires n <= |calls|
  {
    if n == 0 then []
    else if n > 1 && calls[n - 1].ApplyFiles? && Stages(calls[n - 2]) then
      Expected(calls, n - 1) + [Installation(n - 1, calls[n - 2].payload.value)]
    else Expected(calls, n - 1)
  }

  /** /deploy after the installations. */
  function SwapAll<T>(deploy: Option<Tree<T>>, installs: seq<Installation<T>>): Tree<T> {
    if deploy.None? then map[]
    else if installs == [] then deploy.value
    else Overlay(SwapAll(deploy, installs[..|installs| - 1]), installs[|installs| - 1].archive)
  }

  /** What a session leaves behind. intact tells that every failed swap was
      rolled back. */
  datatype Report<T> = Report(
    root: Tree<T>, installs: seq<Installation<T>>, trees: nat, staged: bool, leaks: nat, ops: nat, intact: bool)

  ghost predicate InCallOrder<T>(installs: seq<Installation<T>>, n: nat) {
    && (forall i :: 0 <= i < |installs| ==> installs[i].call < n)
    && (forall i, j :: 0 <= i < j < |installs| ==> installs[i].call < installs[j].call)
  }

  /** The session after its first i calls. */
  ghost predicate SessionAt<T(!new)>(
    deploy: Option<Tree<T>>, calls: seq<Call<T>>, fails: nat -> bool, i: nat,
    installs: seq<Installation<T>>, intact: bool, v: Now<T>)
    requires i <= |calls|
  {
    match v
    case Now(root, current, leaks, ops) =>
      && InCallOrder(installs, i) && (forall x :: x in installs ==> Justified(calls, x))
      && (current.Some? ==> i > 0 && Stages(calls[i - 1]) && current == calls[i - 1].payload)
      && (!Faulted(fails, 0, ops) ==> installs == Expected(calls, i))
      && (!Faulted(fails, 0, ops) && i > 0 && Stages(calls[i - 1]) ==> current.Some?)
      && (intact ==> root == SwapAll(deploy, installs))
      && (!intact ==> FaultedTwice(fails, 0, ops))
      && (leaks > 0 ==> Faulted(fails, 0, ops))
  }

  ghost predicate Balanced<T>(calls: seq<Call<T>>, fails: nat -> bool, i: nat, v: Now<T>)
    requires i <= |calls|
  {
    Ledger(v.ops, v.current.Some?, v.leaks) == Balance(calls, fails, i)
  }

  /** Faults stay in sight as the count of operations grows. */
  lemma FaultsStay(fails: nat -> bool, m: nat, n: nat)
    requires m <= n
    ensures Faulted(fails, 0, m) || Faulted(fails, m, n) ==> Faulted(fails, 0, n)
    ensures FaultedTwice(fails, 0, m) || FaultedTwice(fails, m, n) ==> FaultedTwice(fails, 0, n)
  {
  }

  lemma DropFaults(l: Ledger, fails: nat -> bool)
    ensures l.ops <= Dropped(l, fails).ops && l.failedRemovals <= Dropped(l, fails).failedRemovals
    ensures Dropped(l, fails).failedRemovals > l.failedRemovals ==> Faulted(fails, l.ops, Dropped(l, fails).ops)
  {
  }

  lemma StageFaults(l: Ledger, works: bool, fails: nat -> bool)
    ensures var m := Staged(l, works, fails);
      && l.ops <= m.ops && l.failedRemovals <= m.failedRemovals
      && (m.failedRemovals > l.failedRemovals || (works && !m.staged) ==> Faulted(fails, l.ops, m.ops))
  {
    DropFaults(Ledger(l.ops + 1, true, l.failedRemovals), fails);
  }

  /** A command or a discard that fails to remove or to stage has a failing
      operation of its own. */
  lemma OtherFaults<T>(calls: seq<Call<T>>, fails: nat -> bool, i: nat)
    requires i < |calls| && !calls[i].ApplyFiles?
    ensures var l, m := Balance(calls, fails, i), Balance(calls, fails, i + 1);
      && l.ops <= m.ops
      && (m.failedRemovals > l.failedRemovals || (Stages(calls[i]) && !m.staged) ==> Faulted(fails, l.ops, m.ops))
  {
    var l := Balance(calls, fails, i);
    DropFaults(l, fails);
    StageFaults(Dropped(l, fails), calls[i].Command? && calls[i].works, fails);
  }

  lemma AfterOther<T(!new)>(
    deploy: Option<Tree<T>>, calls: seq<Call<T>>, fails: nat -> bool, i: nat,
    installs: seq<Installation<T>>, intact: bool, v: Now<T>, w: Now<T>)
    requires i < |calls| && !calls[i].ApplyFiles? && SessionAt(deploy, calls, fails, i, installs, intact, v)
    requires w.root == v.root
    requires w.current.Some? ==> Stages(calls[i]) && w.current == calls[i].payload
    requires Balanced(calls, fails, i, v) && Balanced(calls, fails, i + 1, w)
    ensures SessionAt(deploy, calls, fails, i + 1, installs, intact, w)
  {
    FaultsStay(fails, v.ops, w.ops);
    OtherFaults(calls, fails, i);
  }

  lemma RootAfter<T(!new)>(deploy: Option<Tree<T>>, installs: seq<Installation<T>>, x: Installation<T>,
          was: Tree<T>, now: Tree<T>)
    requires Installed(was, if deploy.Some? then x.archive else map[], now) && (deploy.None? ==> was == map[])
    ensures was == SwapAll(deploy, installs) ==> now == SwapAll(deploy, installs + [x])
  {
    assert (installs + [x])[..|installs|] == installs;
    InstalledIsOverlay(was, if deploy.Some? then x.archive else map[], now);
    assert deploy.None? ==> now == map[];
  }

  lemma Appended<T>(calls: seq<Call<T>>, installs: seq<Installation<T>>, x: Installation<T>)
    requires InCallOrder(installs, x.call) && Justified(calls, x) && forall y :: y in installs ==> Justified(calls, y)
    ensures InCallOrder(installs + [x], x.call + 1) && forall y :: y in installs + [x] ==> Justified(calls, y)
  {
  }

  lemma AfterApply<T(!new)>(
    deploy: Option<Tree<T>>, calls: seq<Call<T>>, fails: nat -> bool, i: nat,
    installs: seq<Installation<T>>, intact: bool, v: Now<T>, w: Now<T>, applied: bool, complete: bool)
    requires i < |calls| && calls[i].ApplyFiles? && SessionAt(deploy, calls, fails, i, installs, intact, v)
    requires v.ops <= w.ops && w.current.None?
    requires applied ==> v.current.Some? && Installed(v.root, if deploy.Some? then v.current.value else map[], w.root)
    requires applied && deploy.None? ==> v.root == map[]
    requires !applied && complete ==> w.root == v.root
    requires !applied && !complete ==> FaultedTwice(fails, v.ops, w.ops)
    requires w.leaks > v.leaks || (v.current.Some? && !applied) ==> Faulted(fails, v.ops, w.ops)
    ensures var now := if applied then installs + [Installation(i, v.current.value)] else installs;
      SessionAt(deploy, calls, fails, i + 1, now, intact && (applied || complete), w)
  {
    FaultsStay(fails, v.ops, w.ops);
    if applied {
      var x := Installation(i, v.current.value);
      Appended(calls, installs, x);
      RootAfter(deploy, installs, x, v.root, w.root);
    }
  }

  lemma ApplyBooked<T>(calls: seq<Call<T>>, fails: nat -> bool, i: nat, v: Now<T>, w: Now<T>)
    requires i < |calls| && calls[i].ApplyFiles? && Balanced(calls, fails, i, v) && w.current.None?
    requires v.current.None? ==> w.ops == v.ops && w.leaks == v.leaks
    requires v.current.Some? ==> w.ops == v.ops + SwapOps(fails, v.ops) + 1
    requires v.current.Some? ==> w.leaks == v.leaks + (if fails(w.ops - 1) then 1 else 0)
    ensures Balanced(calls, fails, i + 1, w)
  {
  }

  method ApplyCall<T(!new)>(
    c: Client<T>, ghost deploy: Option<Tree<T>>, ghost calls: seq<Call<T>>, i: nat,
    was: seq<Installation<T>>, before: bool)
    returns (installs: seq<Installation<T>>, intact: bool)
    requires c.Valid() && c.rootExists == deploy.Some? && i < |calls| && calls[i].ApplyFiles?
    requires SessionAt(deploy, calls, c.fails, i, was, before, c.View()) && Balanced(calls, c.fails, i, c.View())
    modifies c
    ensures c.Valid() && SessionAt(deploy, calls, c.fails, i + 1, installs, intact, c.View())
    ensures Balanced(calls, c.fails, i + 1, c.View())
  {
    ghost var v := c.View();
    var archive := if c.staged.Some? then c.stagings[c.staged.value] else map[];
    var applied, _, complete := c.Apply();
    ApplyBooked(calls, c.fails, i, v, c.View());
    AfterApply(deploy, calls, c.fails, i, was, before, v, c.View(), applied, complete);
    intact := before && (applied || complete);
    installs := if applied then was + [Installation(i, archive)] else was;
  }

  method OtherCall<T(!new)>(
    c: Client<T>, ghost deploy: Option<Tree<T>>, calls: seq<Call<T>>, i: nat,
    ghost installs: seq<Installation<T>>, ghost intact: bool)
    requires c.Valid() && i < |calls| && !calls[i].ApplyFiles?
    requires SessionAt(deploy, calls, c.fails, i, installs, intact, c.View()) && Balanced(calls, c.fails, i, c.View())
    modifies c
    ensures c.Valid() && SessionAt(deploy, calls, c.fails, i + 1, installs, intact, c.View())
    ensures Balanced(calls, c.fails, i + 1, c.View())
  {
    ghost var v := c.View();
    if calls[i].Command? {
      var _ := c.CommandConfig(calls[i].payload, calls[i].works);
    } else {
      c.Discard();
    }
    AfterOther(deploy, calls, c.fails, i, installs, intact, v, c.View());
  }

  /** Any sequence of calls with any pattern of failures: only the archive of
      the latest command is installed, all of them are when nothing fails,
      /deploy is the result of the installations, and the staging trees on
      disk are the current one and one for each removal that failed. */
  method Session<T(!new, ==)>(deploy: Option<Tree<T>>, calls: seq<Call<T>>, fails: nat -> bool) returns (r: Report<T>)
    ensures InCallOrder(r.installs, |calls|) && forall x :: x in r.installs ==> Justified(calls, x)
    ensures !Faulted(fails, 0, r.ops) ==> r.installs == Expected(calls, |calls|)
    ensures r.intact ==> r.root == SwapAll(deploy, r.installs)
    ensures !r.intact ==> FaultedTwice(fails, 0, r.ops)
    ensures Ledger(r.ops, r.staged, r.leaks) == Balance(calls, fails, |calls|)
    ensures r.trees == r.leaks + (if r.staged then 1 else 0)
    ensures r.trees <= 1 <==>
      var b := Balance(calls, fails, |calls|); b.failedRemovals == 0 || (b.failedRemovals == 1 && !b.staged)
    ensures r.leaks > 0 ==> Faulted(fails, 0, r.ops)
    ensures r.staged ==> calls != [] && Stages(calls[|calls| - 1])
  {
    var c := new Client(deploy, fails);
    var installs: seq<Installation<T>>, intact := [], true;
    for i := 0 to |calls|
      invariant c.Valid() && fresh(c) && c.fails == fails && c.rootExists == deploy.Some?
      invariant SessionAt(deploy, calls, fails, i, installs, intact, c.View()) && Balanced(calls, fails, i, c.View())
    {
      if calls[i].ApplyFiles? {
        installs, intact := ApplyCall(c, deploy, calls, i, installs, intact);
      } else {
        OtherCall(c, deploy, calls, i, installs, intact);
      }
    }
    r := Report(c.root, installs, |c.stagings|, c.staged.Some?, c.leaks, c.ops, intact);
  }

  /** A failed removal leaves a second tree behind: stage, discard with an
      error, stage again. */
  method LeakedTree<T(!new)>(first: Tree<T>, second: Tree<T>) returns (trees: nat)
    ensures trees == 2
  {
    var c := new Client(None, n => n == 1);
    var _ := c.CommandConfig(Some(first), true);
    c.Discard();
    var _ := c.CommandConfig(Some(second), true);
    trees := |c.stagings|;
  }
}
