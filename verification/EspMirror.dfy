/** CopyTree of the ESP mirror: stage the source on the destination, prune
    the destination, then rename the staged entries into place. */
module EspMirror {
  import opened Basics
  import opened EspTree

  datatype Outcome = Done | CleanFailed | StagingFailed | CopyFailed | SyncFailed | RemoveFailed

  /** The paths below rel that a pruned tree may still hold: below a mirrored
      directory only mirrored names are left. */
  ghost predicate PrunedAt(t: Tree, s: string, m: Tree, q: Path) {
    q in t && q != [] && !([s] <= q) && Parent(q) in m && m[Parent(q)] == Dir ==> q in m
  }

  ghost predicate StagedAt(t: Tree, s: string, m: Tree, q: Path) {
    (Staged(s, q) in t <==> q in m) && (q in m ==> t[Staged(s, q)] == m[q])
  }

  ghost predicate SupportedAt(m: Tree, q: Path) {
    q in m ==> m[q] != Special
  }

  ghost predicate Supported(m: Tree) {
    forall q :: SupportedAt(m, q)
  }

  /** What a run needs besides operations that work: a source without
      unsupported entries, and a staging name that neither tree uses for
      something other than a staging directory. */
  ghost predicate Copyable(before: Tree, source: Tree, s: string) {
    && Supported(Mirror(source))
    && [s] !in Mirror(source)
    && ([s] !in before || before[[s]] == Dir)
  }

  ghost predicate MirroredAt(t: Tree, s: string, m: Tree, q: Path) {
    !([s] <= q) ==> SameAt(t, m, q)
  }

  /** Every state is safe, and before the sync phase nothing outside the
      staging directories changed. */
  ghost predicate AllSafe(before: Tree, source: Tree, s: string, syncing: bool, states: seq<Tree>) {
    states == [] || (
      && Safe(before, source, states[|states| - 1])
      && (!syncing ==> Untouched(before, s, states[|states| - 1]))
      && AllSafe(before, source, s, syncing, states[..|states| - 1]))
  }

  lemma {:induction false} AllSafeEach(before: Tree, source: Tree, s: string, syncing: bool, states: seq<Tree>)
    requires AllSafe(before, source, s, syncing, states)
    ensures forall t :: t in states ==> Safe(before, source, t) && (!syncing ==> Untouched(before, s, t))
    ensures AllSafe(before, source, s, true, states)
  {
    if states != [] {
      var init := states[..|states| - 1];
      AllSafeEach(before, source, s, syncing, init);
      assert states == init + [states[|states| - 1]];
    }
  }

  /** A run: the trees before it and of its source, its staging name and its
      phase, the tree now, and the tree after every operation so far. */
  datatype Progress = Progress(before: Tree, source: Tree, s: string, syncing: bool, tree: Tree, history: seq<Tree>)

  /** The operations of a run, and whether one of them failed. */
  datatype Faults = Faults(fails: nat -> bool, begun: nat, ops: nat, faulted: bool)

  ghost predicate Counted(f: Faults) {
    match f
    case Faults(fails, begun, ops, faulted) => begun <= ops && (faulted <==> Faulted(fails, begun, ops))
  }

  lemma CountNext(f: Faults)
    requires Counted(f)
    ensures Counted(f.(ops := f.ops + 1, faulted := f.faulted || f.fails(f.ops)))
  {
  }

  ghost predicate Sound(p: Progress, f: Faults) {
    match p
    case Progress(before, source, s, syncing, tree, history) =>
      && Valid(before) && Valid(source)
      && history != [] && history[|history| - 1] == tree
      && AllSafe(before, source, s, syncing, history)
      && Counted(f)
  }

  /** A walk below rel, with the staging name and the mirror. */
  datatype Walk = Walk(s: string, rel: Path, m: Tree)

  /** The destination file system. Every operation can fail without a change;
      history lists the tree after every operation of the current run, so a
      crash leaves one of its elements behind. */
  class Volume {
    var tree: Tree
    var history: seq<Tree>
    ghost var before: Tree
    ghost var source: Tree
    ghost var staging: string
    ghost var syncing: bool
    /** Which of the operations fail, by their number. */
    const fails: nat -> bool
    var ops: nat
    ghost var begun: nat // the operations before the run
    ghost var faulted: bool // an operation of the run failed

    constructor (t: Tree, fails: nat -> bool)
      requires Valid(t)
      ensures tree == t && ops == 0 && this.fails == fails
    {
      tree, history, ops, this.fails := t, [t], 0, fails;
      before, source, staging, syncing, begun, faulted := t, t, STAGING_PREFIX, false, 0, false;
    }

    /** The run so far. */
    ghost predicate Running()
      reads this
    {
      Sound(Progress(before, source, staging, syncing, tree, history), Faults(fails, begun, ops, faulted))
    }

    /** The run went on from a state with history h and fault flag f. */
    ghost predicate Continues(h: seq<Tree>, f: bool)
      reads `history, `faulted
    {
      h <= history && (f ==> faulted)
    }

    /** A path that the current phase may remove. */
    ghost predicate Expendable(p: Path)
      reads `before, `source, `syncing
    {
      !Protected(before, source, p) && (!syncing ==> Reserved(before, p))
    }

    /** A path that it may also create. */
    ghost predicate Writable(p: Path)
      reads `before, `source, `syncing, `staging
    {
      Expendable(p) && (!syncing ==> [staging] <= p)
    }

    /** s names the staging directory of this run. */
    ghost predicate IsStaging(s: string)
      reads `before, `staging
    {
      s == staging && IsStagingName(s) && ([s] !in before || before[[s]] == Dir)
    }

    lemma ReservedIsExpendable(s: string, q: Path)
      requires Running() && IsStagingName(s) && ([s] !in before || before[[s]] == Dir) && [s] <= q
      ensures Expendable(q)
    {
      assert q[0] == s;
      if q in before {
        if q == [s] {
        } else {
          Ancestor(before, [s], q);
        }
      }
    }

    lemma StagingIsExpendable(s: string, q: Path)
      requires Running() && IsStaging(s) && [s] <= q
      ensures Writable(q)
    {
      ReservedIsExpendable(s, q);
    }

    // ----- file system operations

    /** Whether the next operation fails, for a reason outside the model. */
    method Fault() returns (fault: bool)
      requires Running()
      modifies `faulted, `ops
      ensures Running() && fault == fails(old(ops)) && faulted == (old(faulted) || fault)
    {
      CountNext(Faults(fails, begun, ops, faulted));
      fault := fails(ops);
      ops := ops + 1;
      faulted := faulted || fault;
    }

    method Commit(t: Tree)
      requires Running() && Safe(before, source, t)
      requires !syncing ==> Untouched(before, staging, t)
      modifies `tree, `history
      ensures Running() && tree == t && history == old(history) + [t]
    {
      tree := t;
      history := history + [t];
      assert history[..|history| - 1] == old(history);
    }

    static lemma WithoutEntry(t: Tree, p: Path)
      requires Valid(t) && p != [] && Children(t, p) == {}
      ensures Valid(t - {p})
    {
      forall q | q in t - {p} && q != []
        ensures Parent(q) in t - {p} && (t - {p})[Parent(q)] == Dir
      {
        assert q !in Children(t, p);
      }
    }

    /** unlink of a non-directory, or rmdir of an empty directory. */
    method RemoveEntry(p: Path) returns (ok: bool)
      requires Running() && p != [] && Expendable(p)
      modifies `tree, `history, `faulted, `ops
      ensures Running() && Continues(old(history), old(faulted))
      ensures tree == if ok then old(tree) - {p} else old(tree)
      ensures ok ==> p in old(tree) && Children(old(tree), p) == {}
      ensures !ok ==> faulted || p !in tree || Children(tree, p) != {}
    {
      var fault := Fault();
      ok := !fault && p in tree && Children(tree, p) == {};
      if ok {
        WithoutEntry(tree, p);
        ChangeKeeps(before, source, staging, syncing, tree, tree - {p}, p);
        Commit(tree - {p});
      }
    }

    lemma NoChildren(p: Path)
      requires Running() && (p in tree ==> tree[p] != Dir)
      ensures forall q :: p <= q && q != p ==> q !in tree
    {
      forall q | p <= q && q != p && q in tree
        ensures false
      {
        Ancestor(tree, p, q);
      }
    }

    /** mkdir, open with O_EXCL, symlink: create an entry. */
    method Create(p: Path, e: Entry) returns (ok: bool)
      requires Running() && p != [] && Writable(p)
      requires p !in tree && Parent(p) in tree && tree[Parent(p)] == Dir
      modifies `tree, `history, `faulted, `ops
      ensures Running() && Continues(old(history), old(faulted))
      ensures tree == if ok then old(tree)[p := e] else old(tree)
      ensures !ok ==> faulted
    {
      var fault := Fault();
      ok := !fault;
      if ok {
        NoChildren(p);
        ChangeKeeps(before, source, staging, syncing, tree, tree[p := e], p);
        Commit(tree[p := e]);
      }
    }

    /** write: the file grows by a chunk. */
    method Append(p: Path, chunk: seq<byte>) returns (ok: bool)
      requires Running() && Writable(p)
      requires p in tree && tree[p].File?
      modifies `tree, `history, `faulted, `ops
      ensures Running() && Continues(old(history), old(faulted))
      ensures tree == if ok then old(tree)[p := File(old(tree)[p].data + chunk)] else old(tree)
      ensures !ok ==> faulted
    {
      var fault := Fault();
      ok := !fault;
      if ok {
        var t := tree[p := File(tree[p].data + chunk)];
        assert forall q {:trigger Parent(q)} :: q in t && q != [] ==> Parent(q) in tree && tree[Parent(q)] == Dir;
        ChangeKeeps(before, source, staging, syncing, tree, t, p);
        Commit(t);
      }
    }

    static lemma WithoutLeaf(t: Tree, p: Path)
      requires Valid(t) && p != [] && forall q :: p <= q && q != p ==> q !in t
      ensures Valid(t - {p})
    {
      forall q | q in t - {p} && q != []
        ensures Parent(q) in t - {p} && (t - {p})[Parent(q)] == Dir
      {
        assert Parent(q) <= q;
      }
    }

    static lemma WithLeaf(t: Tree, p: Path, e: Entry)
      requires Valid(t) && p != [] && Parent(p) in t && t[Parent(p)] == Dir && forall q :: p <= q && q != p ==> q !in t
      ensures Valid(t[p := e])
    {
      forall q | q in t[p := e] && q != []
        ensures Parent(q) in t[p := e] && t[p := e][Parent(q)] == Dir
      {
        assert Parent(q) <= q;
      }
    }

    lemma RenameKeeps(from: Path, to: Path, t: Tree)
      requires Running() && syncing && from in tree && from != [] && to != [] && t == (tree - {from})[to := tree[from]]
      requires Parent(to) in tree && tree[Parent(to)] == Dir && tree[from] != Dir && (to in tree ==> tree[to] != Dir)
      requires Expendable(from) && (Expendable(to) || (to in source && tree[from] == source[to]))
      requires forall q :: (from <= q && q != from) || (to <= q && q != to) ==> q !in tree
      ensures Safe(before, source, t)
    {
      WithoutLeaf(tree, from);
      WithLeaf(tree - {from}, to, tree[from]);
      ChangeKeeps(before, source, staging, true, tree, tree - {from}, from);
      ChangeKeeps(before, source, staging, true, tree - {from}, t, to);
    }

    /** rename of a non-directory. It replaces a non-directory at once and
        never a directory. */
    method Rename(from: Path, to: Path) returns (ok: bool)
      requires Running() && from != [] && to != []
      requires Parent(to) in tree && tree[Parent(to)] == Dir
      requires Expendable(from)
      requires syncing && (Expendable(to) || (from in tree && to in source && tree[from] == source[to]))
      requires from in tree ==> tree[from] != Dir
      modifies `tree, `history, `faulted, `ops
      ensures Running() && Continues(old(history), old(faulted))
      ensures ok ==> from in old(tree) && (to in old(tree) ==> old(tree)[to] != Dir)
      ensures tree == if ok then (old(tree) - {from})[to := old(tree)[from]] else old(tree)
      ensures !ok ==> faulted || from !in tree || (to in tree && tree[to] == Dir)
    {
      var fault := Fault();
      ok := !fault && from in tree && (to in tree ==> tree[to] != Dir);
      if ok {
        var t := (tree - {from})[to := tree[from]];
        NoChildren(from);
        NoChildren(to);
        RenameKeeps(from, to, t);
        Commit(t);
      }
    }

    /** Only paths at or below p left the tree. */
    static ghost predicate Shrunk(a: Tree, b: Tree, p: Path) {
      forall q :: (q in b ==> q in a && b[q] == a[q]) && (q in a && !(p <= q) ==> q in b)
    }

    /** os.RemoveAll: it goes on after an entry that it can not remove. */
    method RemoveAll(p: Path) returns (ok: bool)
      requires Running() && p != []
      requires forall q :: p <= q ==> Expendable(q)
      modifies `tree, `history, `faulted, `ops
      ensures Running() && Continues(old(history), old(faulted))
      ensures Shrunk(old(tree), tree, p)
      ensures ok ==> forall q :: p <= q ==> q !in tree
      ensures !ok ==> faulted
      decreases Below(tree, p), 1
    {
      if p in tree && tree[p] == Dir {
        RemoveChildren(p);
      }
      if p in tree {
        ok := RemoveEntry(p);
      } else {
        ok := true;
      }
      if ok {
        NoChildren(p);
      }
    }

    method RemoveChildren(p: Path)
      requires Running() && p in tree
      requires forall q :: p <= q ==> Expendable(q)
      modifies `tree, `history, `faulted, `ops
      ensures Running() && Continues(old(history), old(faulted))
      ensures Shrunk(old(tree), tree, p) && (faulted || Children(tree, p) == {})
      decreases Below(tree, p), 0
    {
      var todo := Children(tree, p);
      while todo != {}
        invariant Running() && Continues(old(history), old(faulted))
        invariant Shrunk(old(tree), tree, p)
        invariant todo <= Children(old(tree), p)
        invariant faulted || Children(tree, p) <= todo
        decreases |todo|
      {
        var c :| c in todo;
        assert p < c && p in Below(old(tree), p) && p !in Below(tree, c);
        assert Below(tree, c) < Below(old(tree), p);
        var _ := RemoveAll(c);
        todo := todo - {c};
      }
    }

    // ----- the phases of CopyTree

    /** cleanStaging: remove the root-level staging directories. */
    method CleanStaging() returns (ok: bool)
      requires Running() && !syncing && tree == before
      modifies `tree, `history, `faulted, `ops
      ensures Running() && Continues(old(history), old(faulted))
      ensures ok ==> forall q :: q in tree ==> q in before && !InStagingDir(before, q)
      ensures !ok ==> faulted
    {
      var listed := tree;
      var todo := Children(listed, []);
      ok := true;
      while todo != {}
        invariant Running() && Continues(old(history), old(faulted))
        invariant todo <= Children(before, [])
        invariant forall q :: q in tree ==> q in before && tree[q] == before[q]
        invariant forall q :: q in tree && InStagingDir(before, q) ==> [q[0]] in todo
        decreases |todo|
      {
        var c :| c in todo;
        todo := todo - {c};
        if listed[c] == Dir && IsStagingName(c[0]) {
          assert c == [c[0]];
          forall q | c <= q
            ensures Expendable(q)
          {
            ReservedIsExpendable(c[0], q);
          }
          ok := RemoveAll(c);
          if !ok {
            return;
          }
        }
      }
    }

    static lemma PutStays(t: Tree, p: Path, e: Entry)
      ensures t[p := e] - {p} == t - {p}
    {
    }

    static lemma Chunk(data: seq<byte>, n: nat, k: nat)
      requires n <= k <= |data|
      ensures data[..k] == data[..n] + data[n..k]
    {
    }

    /** copyFileFromRoot: create the staged file and write it in chunks. */
    method CopyFile(s: string, rel: Path, data: seq<byte>) returns (ok: bool)
      requires Running() && IsStaging(s) && rel != []
      requires Staged(s, rel) !in tree && Parent(Staged(s, rel)) in tree && tree[Parent(Staged(s, rel))] == Dir
      modifies `tree, `history, `faulted, `ops
      ensures Running() && Continues(old(history), old(faulted))
      ensures tree - {Staged(s, rel)} == old(tree) - {Staged(s, rel)}
      ensures if ok then Staged(s, rel) in tree && tree[Staged(s, rel)] == File(data) else faulted
    {
      var target := Staged(s, rel);
      StagingIsExpendable(s, target);
      PutStays(tree, target, File([]));
      ok := Create(target, File([]));
      var n := 0;
      while ok && n < |data|
        invariant Running() && Continues(old(history), old(faulted))
        invariant tree - {target} == old(tree) - {target}
        invariant n <= |data|
        invariant if ok then target in tree && tree[target] == File(data[..n]) else faulted
        decreases |data| - n, ok
      {
        var k :| n < k <= |data|;
        Chunk(data, n, k);
        PutStays(tree, target, File(data[..k]));
        ok := Append(target, data[n..k]);
        n := k;
      }
      assert data[..|data|] == data;
    }

    static ghost predicate SameOutside(a: Tree, b: Tree, p: Path) {
      forall q :: !(p < q) ==> (q in a <==> q in b) && (q in a ==> a[q] == b[q])
    }

    /** A copy of the directory rel that still has to visit todo. */
    static ghost predicate CopyProgress(t0: Tree, t: Tree, s: string, rel: Path, kids: set<Path>,
            todo: set<Path>, m: Tree) {
      && SameOutside(t0, t, Staged(s, rel))
      && forall q :: rel < q ==>
        if ChildToward(rel, q) in kids - todo then StagedAt(t, s, m, q) && SupportedAt(m, q) else Staged(s, q) !in t
    }

    static lemma CopyCall(t: Tree, s: string, rel: Path, c: Path, kids: set<Path>, todo: set<Path>, t0: Tree, m: Tree)
      requires CopyProgress(t0, t, s, rel, kids, todo, m) && c in todo && c != [] && Parent(c) == rel
      ensures forall q :: c <= q ==> Staged(s, q) !in t
    {
      forall q | c <= q
        ensures Staged(s, q) !in t
      {
        Toward(c, q);
      }
    }

    static lemma CopyOutside(t0: Tree, t: Tree, t': Tree, s: string, rel: Path, c: Path)
      requires c != [] && Parent(c) == rel && SameOutside(t0, t, Staged(s, rel))
      requires forall q :: !(Staged(s, c) <= q) ==> SameAt(t, t', q)
      ensures SameOutside(t0, t', Staged(s, rel))
    {
      StagedPrefix(s, rel, c);
      forall q | !(Staged(s, rel) < q)
        ensures (q in t0 <==> q in t') && (q in t0 ==> t0[q] == t'[q])
      {
        assert !(Staged(s, c) <= q) && SameAt(t, t', q);
      }
    }

    static lemma CopyStep(t0: Tree, t: Tree, t': Tree, s: string, rel: Path, c: Path, kids: set<Path>,
            todo: set<Path>, m: Tree)
      requires CopyProgress(t0, t, s, rel, kids, todo, m) && c in todo && todo <= kids && c != [] && Parent(c) == rel
      requires SameOutside(t0, t', Staged(s, rel)) && forall q :: !(Staged(s, c) <= q) ==> SameAt(t, t', q)
      requires forall q :: c <= q ==> StagedAt(t', s, m, q) && SupportedAt(m, q)
      ensures CopyProgress(t0, t', s, rel, kids, todo - {c}, m)
    {
      forall q | rel < q
        ensures
          if ChildToward(rel, q) in kids - (todo - {c}) then StagedAt(t', s, m, q) && SupportedAt(m, q)
          else Staged(s, q) !in t'
      {
        Toward(c, q);
        StagedPrefix(s, c, q);
        assert !(c <= q) ==> SameAt(t, t', Staged(s, q));
      }
    }

    static lemma CopyEnd(t0: Tree, t: Tree, s: string, rel: Path, from: Tree)
      requires Valid(from) && CopyProgress(t0, t, s, rel, Children(from, rel), {}, Mirror(from))
      ensures forall q :: rel < q ==> StagedAt(t, s, Mirror(from), q) && SupportedAt(Mirror(from), q)
    {
      forall q | rel < q
        ensures StagedAt(t, s, Mirror(from), q) && SupportedAt(Mirror(from), q)
      {
        if q in Mirror(from) {
          ChildInTree(from, rel, q);
        }
      }
    }

    static lemma NothingBelow(t: Tree, s: string, c: Path)
      requires forall q :: Staged(s, c) < q ==> q !in t
      ensures forall q :: c < q ==> Staged(s, q) !in t
    {
      forall q | c < q
        ensures Staged(s, q) !in t
      {
        StagedPrefix(s, c, q);
      }
    }

    /** copyEntry for a directory, and the walk below it. */
    method CopyNewDir(from: Tree, s: string, c: Path) returns (ok: bool)
      requires Running() && IsStaging(s) && from == source && c != [] && c in Mirror(from) && from[c] == Dir
      requires Parent(Staged(s, c)) in tree && tree[Parent(Staged(s, c))] == Dir
      requires forall q :: Staged(s, c) <= q ==> q !in tree
      modifies `tree, `history, `faulted, `ops
      ensures Running() && Continues(old(history), old(faulted))
      ensures forall q :: !(Staged(s, c) <= q) ==>
        (q in tree <==> q in old(tree)) && (q in tree ==> tree[q] == old(tree)[q])
      ensures ok ==> Staged(s, c) in tree && tree[Staged(s, c)] == Dir
      ensures ok ==> forall q :: c < q ==> StagedAt(tree, s, Mirror(from), q) && SupportedAt(Mirror(from), q)
      ensures !ok ==> faulted || !Supported(Mirror(from))
      decreases Below(from, c), 3
    {
      StagingIsExpendable(s, Staged(s, c));
      ok := Create(Staged(s, c), Dir);
      if ok {
        NothingBelow(tree, s, c);
        ok := CopyDir(from, s, c);
      }
    }

    static lemma SameElsewhere(t: Tree, t': Tree, p: Path)
      requires t' - {p} == t - {p}
      ensures forall q :: q != p ==> SameAt(t, t', q)
    {
      forall q | q != p
        ensures SameAt(t, t', q)
      {
        assert q in t - {p} <==> q in t;
        assert q in t' - {p} <==> q in t';
      }
    }

    /** copyEntry for anything but a directory. */
    method CopyLeaf(from: Tree, s: string, c: Path) returns (ok: bool)
      requires Running() && IsStaging(s) && c != [] && c in from && from[c] != Dir && c in Mirror(from)
      requires Staged(s, c) !in tree && Parent(Staged(s, c)) in tree && tree[Parent(Staged(s, c))] == Dir
      modifies `tree, `history, `faulted, `ops
      ensures Running() && Continues(old(history), old(faulted))
      ensures forall q :: q != Staged(s, c) ==> SameAt(old(tree), tree, q)
      ensures ok ==> Staged(s, c) in tree && tree[Staged(s, c)] == from[c] && from[c] != Special
      ensures !ok ==> faulted || !Supported(Mirror(from))
    {
      var target := Staged(s, c);
      StagingIsExpendable(s, target);
      match from[c] {
        case File(data) =>
          ok := CopyFile(s, c, data);
          SameElsewhere(old(tree), tree, target);
        case Link(_) =>
          ok := Create(target, from[c]);
        case Special =>
          ok := false;
          assert !SupportedAt(Mirror(from), c);
      }
    }

    static lemma LeafStaged(t: Tree, t': Tree, s: string, c: Path)
      requires forall q :: q != Staged(s, c) ==> SameAt(t, t', q)
      requires forall q :: Staged(s, c) <= q ==> q !in t
      ensures forall q :: !(Staged(s, c) <= q) ==> (q in t' <==> q in t) && (q in t' ==> t'[q] == t[q])
      ensures forall q :: c < q ==> Staged(s, q) !in t'
    {
      forall q | !(Staged(s, c) <= q)
        ensures (q in t' <==> q in t) && (q in t' ==> t'[q] == t[q])
      {
        assert SameAt(t, t', q);
      }
      forall q | c < q
        ensures Staged(s, q) !in t'
      {
        StagedPrefix(s, c, q);
        assert SameAt(t, t', Staged(s, q));
      }
    }

    static lemma NothingThere(t: Tree, s: string, c: Path)
      requires Valid(t) && forall q :: c <= q ==> Staged(s, q) !in t
      ensures forall q :: Staged(s, c) <= q ==> q !in t
    {
      forall q | Staged(s, c) <= q
        ensures q !in t
      {
        assert q == Staged(s, q[1..]) && q[1..][..|c|] == Staged(s, c)[1..] == c;
      }
    }

    /** What the walk below c has to leave in the staging directory. */
    static lemma EntryStaged(t: Tree, s: string, c: Path, from: Tree)
      requires Valid(from) && c != [] && c in from && Parent(c) in Mirror(from)
      requires if InStagingDir(from, c) then forall q :: c <= q ==> Staged(s, q) !in t
        else Staged(s, c) in t && t[Staged(s, c)] == from[c] && from[c] != Special
      requires !InStagingDir(from, c) && from[c] != Dir ==> forall q :: c < q ==> Staged(s, q) !in t
      requires !InStagingDir(from, c) && from[c] == Dir ==>
        forall q :: c < q ==> StagedAt(t, s, Mirror(from), q) && SupportedAt(Mirror(from), q)
      ensures forall q :: c <= q ==> StagedAt(t, s, Mirror(from), q) && SupportedAt(Mirror(from), q)
    {
      forall q | c <= q
        ensures StagedAt(t, s, Mirror(from), q) && SupportedAt(Mirror(from), q)
      {
        if c != q && q in from {
          Ancestor(from, c, q);
        }
      }
    }

    /** One step of the walk: copyEntry, and the entries of a directory. */
    method CopyEntry(from: Tree, s: string, c: Path) returns (ok: bool)
      requires Running() && IsStaging(s) && from == source
      requires c != [] && c in from && Parent(c) in Mirror(from)
      requires Staged(s, Parent(c)) in tree && tree[Staged(s, Parent(c))] == Dir
      requires forall q :: c <= q ==> Staged(s, q) !in tree
      modifies `tree, `history, `faulted, `ops
      ensures Running() && Continues(old(history), old(faulted))
      ensures forall q :: !(Staged(s, c) <= q) ==>
        (q in tree <==> q in old(tree)) && (q in tree ==> tree[q] == old(tree)[q])
      ensures ok ==> forall q :: c <= q ==> StagedAt(tree, s, Mirror(from), q) && SupportedAt(Mirror(from), q)
      ensures !ok ==> faulted || !Supported(Mirror(from))
      decreases Below(from, Parent(c)), 0
    {
      NothingThere(tree, s, c);
      assert Parent(Staged(s, c)) == Staged(s, Parent(c));
      assert InStagingDir(from, c) <==> |c| == 1 && from[c] == Dir && IsStagingName(c[0]) by {
        assert |c| == 1 ==> c == [c[0]];
      }
      if from[c] != Dir {
        ok := CopyLeaf(from, s, c);
        LeafStaged(old(tree), tree, s, c);
      } else if |c| == 1 && IsStagingName(c[0]) {
        ok := true;
      } else {
        assert Parent(c) in Below(from, Parent(c)) - Below(from, c);
        ok := CopyNewDir(from, s, c);
      }
      if ok {
        EntryStaged(tree, s, c, from);
      }
    }

    /** copyDir below rel: the walk visits a directory before its entries. */
    method CopyDir(from: Tree, s: string, rel: Path) returns (ok: bool)
      requires Running() && IsStaging(s) && from == source
      requires rel in Mirror(from) && from[rel] == Dir
      requires Staged(s, rel) in tree && tree[Staged(s, rel)] == Dir
      requires forall q :: rel < q ==> Staged(s, q) !in tree
      modifies `tree, `history, `faulted, `ops
      ensures Running() && Continues(old(history), old(faulted))
      ensures SameOutside(old(tree), tree, Staged(s, rel))
      ensures ok ==> forall q :: rel < q ==> StagedAt(tree, s, Mirror(from), q) && SupportedAt(Mirror(from), q)
      ensures !ok ==> faulted || !Supported(Mirror(from))
      decreases Below(from, rel), 2
    {
      ghost var m := Mirror(from);
      var todo := Children(from, rel);
      ghost var kids := todo;
      ok := true;
      while todo != {}
        invariant Running() && Continues(old(history), old(faulted))
        invariant todo <= kids
        invariant CopyProgress(old(tree), tree, s, rel, kids, todo, m)
        decreases |todo|
      {
        var c :| c in todo;
        CopyCall(tree, s, rel, c, kids, todo, old(tree), m);
        ghost var t := tree;
        ok := CopyEntry(from, s, c);
        CopyOutside(old(tree), t, tree, s, rel, c);
        if !ok {
          return;
        }
        CopyStep(old(tree), t, tree, s, rel, c, kids, todo, m);
        todo := todo - {c};
      }
      CopyEnd(old(tree), tree, s, rel, from);
    }

    /** stagedEntryIsDir and isDirectory: they follow a link, so the answer
        for a link is open. */
    method StatIsDir(p: Path) returns (isDir: bool)
      ensures p !in tree ==> !isDir
      ensures p in tree && tree[p] == Dir ==> isDir
      ensures p in tree && (tree[p].File? || tree[p] == Special) ==> !isDir
    {
      isDir := *;
      isDir := p in tree && (tree[p] == Dir || (tree[p].Link? && isDir));
    }

    /** The staging directory s holds the whole mirror. */
    static ghost predicate StagedAll(t: Tree, s: string, m: Tree) {
      [s] in t && t[[s]] == Dir && forall q :: q != [] ==> StagedAt(t, s, m, q)
    }

    static lemma StagedStable(t: Tree, t': Tree, s: string, m: Tree, c: Path)
      requires StagedAll(t, s, m) && Shrunk(t, t', c) && c != [] && !([s] <= c)
      ensures StagedAll(t', s, m)
    {
      forall q | q != []
        ensures StagedAt(t', s, m, q)
      {
        assert StagedAt(t, s, m, q);
        assert Staged(s, q)[0] == s && [c[0]] == c[..1];
        assert c[0] != s;
      }
    }

    /** A prune of rel that still has to visit todo. */
    static ghost predicate PruneProgress(t0: Tree, t: Tree, s: string, rel: Path, todo: set<Path>, m: Tree,
            viaLink: bool) {
      && Shrunk(t0, t, rel) && rel in t
      && (forall q :: rel < q && ChildToward(rel, q) in todo && q in t0 ==> q in t)
      && (!viaLink ==> forall q :: rel < q && ChildToward(rel, q) !in todo ==> PrunedAt(t, s, m, q))
    }

    static lemma PruneCall(t0: Tree, t: Tree, s: string, rel: Path, c: Path, todo: set<Path>, m: Tree, viaLink: bool)
      requires PruneProgress(t0, t, s, rel, todo, m, viaLink) && todo <= Children(t0, rel)
      requires c in todo && !([s] <= rel)
      ensures c in t && Below(t, c) < Below(t0, rel)
      ensures c != Staged(s, rel) ==> !([s] <= c)
    {
      Toward(c, c);
      assert rel in Below(t0, rel) - Below(t, c);
      assert rel == [] ==> c == [c[0]];
    }

    static lemma PruneStep(t0: Tree, t: Tree, t': Tree, s: string, rel: Path, c: Path, todo: set<Path>, m: Tree,
            viaLink: bool)
      requires PruneProgress(t0, t, s, rel, todo, m, viaLink)
      requires c in todo && c != [] && Parent(c) == rel && Shrunk(t, t', c)
      requires !viaLink ==> forall q :: c <= q ==> PrunedAt(t', s, m, q)
      ensures PruneProgress(t0, t', s, rel, todo - {c}, m, viaLink)
    {
      forall q | rel < q
        ensures ChildToward(rel, q) in todo - {c} && q in t0 ==> q in t'
        ensures !viaLink && ChildToward(rel, q) !in todo - {c} ==> PrunedAt(t', s, m, q)
      {
        Toward(c, q);
        assert PrunedAt(t, s, m, q) && !(c <= q) ==> PrunedAt(t', s, m, q);
      }
    }

    /** Below a path that the mirror does not hold as a directory, nothing is
        protected. */
    lemma OnlyMirroredIsProtected(c: Path, q: Path, m: Tree)
      requires Running() && syncing && m == Mirror(source) && c <= q
      requires c !in m || (c < q && m[c] != Dir)
      ensures Expendable(q)
    {
      if Protected(before, source, q) {
        ProtectedIsMirrored(before, source, q);
        MirrorValid(source);
        if c != q {
          Ancestor(m, c, q);
        }
      }
    }

    lemma MirroredDirOnly(c: Path, q: Path, m: Tree)
      requires Running() && m == Mirror(source) && c <= q && c != q && Parent(q) in m && m[Parent(q)] == Dir
      ensures c in m && m[c] == Dir
    {
      MirrorValid(source);
      if c != Parent(q) {
        Ancestor(m, c, Parent(q));
      }
    }

    /** An entry whose name the mirror holds is pruned once a directory of both
        is. */
    lemma PrunedEntry(s: string, c: Path, m: Tree)
      requires Running() && m == Mirror(source) && c in m
      requires c in tree && tree[c] == Dir && m[c] == Dir ==> forall q :: c < q ==> PrunedAt(tree, s, m, q)
      ensures forall q :: c <= q ==> PrunedAt(tree, s, m, q)
    {
      forall q | c <= q
        ensures PrunedAt(tree, s, m, q)
      {
        if q in tree && c != q && Parent(q) in m && m[Parent(q)] == Dir {
          Ancestor(tree, c, q);
          MirroredDirOnly(c, q, m);
        }
      }
    }

    /** One entry c of pruneTree. */
    method PruneEntry(s: string, c: Path, viaLink: bool, ghost m: Tree) returns (ok: bool)
      requires Running() && syncing && m == Mirror(source) && IsStaging(s) && StagedAll(tree, s, m)
      requires c != [] && c in tree && !([s] <= c)
      requires if viaLink then forall q :: c <= q ==> Expendable(q) else Parent(c) in m && m[Parent(c)] == Dir
      modifies `tree, `history, `faulted, `ops
      ensures Running() && Continues(old(history), old(faulted)) && StagedAll(tree, s, m)
      ensures Shrunk(old(tree), tree, c)
      ensures ok && !viaLink ==> forall q :: c <= q ==> PrunedAt(tree, s, m, q)
      ensures !ok ==> faulted
      decreases Below(tree, c), 2
    {
      assert StagedAt(tree, s, m, c);
      var missing, isDir: bool := *, *;
      if !viaLink {
        missing := Staged(s, c) !in tree;
        isDir := StatIsDir(Staged(s, c));
      }
      if missing {
        forall q | c <= q
          ensures Expendable(q)
        {
          if !viaLink {
            OnlyMirroredIsProtected(c, q, m);
          }
        }
        ok := RemoveAll(c);
        StagedStable(old(tree), tree, s, m, c);
        return;
      }
      var fault := Fault(); // Lstat
      ok := !fault;
      if ok && tree[c] == Dir && isDir {
        var link := viaLink || tree[Staged(s, c)].Link?;
        forall q | link && c < q
          ensures Expendable(q)
        {
          if !viaLink {
            OnlyMirroredIsProtected(c, q, m);
          }
        }
        ok := PruneTree(s, c, link, m);
      }
      if ok && !viaLink {
        PrunedEntry(s, c, m);
      }
    }

    /** The body of the loop: every entry but the staging directory. */
    method PruneNext(s: string, rel: Path, c: Path, viaLink: bool, ghost m: Tree, ghost t0: Tree, ghost todo: set<Path>)
      returns (ok: bool)
      requires Running() && syncing && m == Mirror(source) && IsStaging(s) && StagedAll(tree, s, m)
      requires PruneProgress(t0, tree, s, rel, todo, m, viaLink) && todo <= Children(t0, rel)
      requires c in todo && !([s] <= rel)
      requires if viaLink then forall q :: rel < q ==> Expendable(q) else rel in m && m[rel] == Dir
      modifies `tree, `history, `faulted, `ops
      ensures Running() && Continues(old(history), old(faulted)) && StagedAll(tree, s, m)
      ensures Shrunk(t0, tree, rel) && rel in tree
      ensures if ok then PruneProgress(t0, tree, s, rel, todo - {c}, m, viaLink) else faulted
      decreases Below(t0, rel), 0
    {
      PruneCall(t0, tree, s, rel, c, todo, m, viaLink);
      ok := true;
      if c != Staged(s, rel) {
        ok := PruneEntry(s, c, viaLink, m);
      }
      if ok {
        PruneStep(t0, old(tree), tree, s, rel, c, todo, m, viaLink);
      }
    }

    static lemma PruneStart(t: Tree, s: string, rel: Path, m: Tree)
      requires Valid(t) && rel in t
      ensures PruneProgress(t, t, s, rel, Children(t, rel), m, false)
    {
      forall q | rel < q && q in t
        ensures ChildToward(rel, q) in Children(t, rel)
      {
        ChildInTree(t, rel, q);
      }
    }

    /** pruneTree below rel. With viaLink the staged entry of rel is a link to
        a directory, and what it holds is open. */
    method PruneTree(s: string, rel: Path, viaLink: bool, ghost m: Tree) returns (ok: bool)
      requires Running() && syncing && m == Mirror(source) && IsStaging(s) && StagedAll(tree, s, m)
      requires rel in tree && tree[rel] == Dir && !([s] <= rel)
      requires if viaLink then forall q :: rel < q ==> Expendable(q) else rel in m && m[rel] == Dir
      modifies `tree, `history, `faulted, `ops
      ensures Running() && Continues(old(history), old(faulted)) && StagedAll(tree, s, m)
      ensures Shrunk(old(tree), tree, rel) && rel in tree
      ensures ok && !viaLink ==> forall q :: rel < q ==> PrunedAt(tree, s, m, q)
      ensures !ok ==> faulted
      decreases Below(tree, rel), 1
    {
      var listed := tree;
      var todo := Children(listed, rel);
      PruneStart(tree, s, rel, m);
      ok := true;
      while todo != {}
        invariant Running() && Continues(old(history), old(faulted)) && StagedAll(tree, s, m)
        invariant todo <= Children(listed, rel)
        invariant PruneProgress(old(tree), tree, s, rel, todo, m, viaLink)
        decreases |todo|
      {
        var c :| c in todo;
        ok := PruneNext(s, rel, c, viaLink, m, old(tree), todo);
        if !ok {
          return;
        }
        todo := todo - {c};
      }
    }

    /** t' is t with the entry at from moved to c, and t is t0 without some
        paths at or below c. */
    static ghost predicate Moved(t0: Tree, t: Tree, t': Tree, from: Path, c: Path) {
      Shrunk(t0, t, c) && from in t && t' == (t - {from})[c := t[from]]
    }

    static lemma AfterMove(t0: Tree, t: Tree, t': Tree, s: string, c: Path)
      requires Valid(t) && Moved(t0, t, t', Staged(s, c), c) && (c == [s] ==> c !in t || t[c] != Dir)
      ensures c != [s] && c in t' && t'[c] == t0[Staged(s, c)]
      ensures forall q :: !(c <= q) && q != Staged(s, c) ==> SameAt(t0, t', q)
    {
      if c == [s] {
        Ancestor(t, [s], Staged(s, c));
      }
    }

    lemma SafeHere(p: Path)
      requires Running()
      ensures SafeAt(before, source, tree, p)
    {
    }

    /** The directory at c, or the link to one, that blocks a rename. */
    method RemoveBlocking(c: Path, ghost m: Tree) returns (ok: bool)
      requires Running() && syncing && m == Mirror(source) && c != [] && c in m && m[c] != Dir
      requires c in tree && (tree[c] == Dir || tree[c].Link?)
      modifies `tree, `history, `faulted, `ops
      ensures Running() && Continues(old(history), old(faulted)) && Shrunk(old(tree), tree, c)
      ensures ok ==> forall q :: c <= q ==> q !in tree
      ensures !ok ==> faulted
    {
      SafeHere(c);
      forall q | c <= q
        ensures Expendable(q)
      {
        if q != c {
          OnlyMirroredIsProtected(c, q, m);
        }
      }
      ok := RemoveAll(c);
    }

    /** A leaf of the mirror in its place: nothing is below it. */
    lemma LeafMirrored(c: Path, m: Tree)
      requires Running() && m == Mirror(source) && c in m && m[c] != Dir && c in tree && tree[c] == m[c]
      ensures forall q :: c <= q ==> SameAt(tree, m, q)
    {
      NoChildren(c);
      forall q | c <= q
        ensures SameAt(tree, m, q)
      {
        if q in m && q != c {
          MirrorValid(source);
          Ancestor(m, c, q);
        }
      }
    }

    /** Remove the directory in the way, then rename. */
    method ReplaceDirectory(s: string, c: Path, ghost m: Tree) returns (ok: bool)
      requires Running() && syncing && m == Mirror(source) && IsStaging(s)
      requires c != [] && c in m && m[c] != Dir && StagedAt(tree, s, m, c)
      requires Parent(c) in tree && tree[Parent(c)] == Dir && (c != [s] ==> !([s] <= c))
      requires c in tree && (tree[c] == Dir || tree[c].Link?)
      modifies `tree, `history, `faulted, `ops
      ensures Running() && Continues(old(history), old(faulted))
      ensures ok ==> c != [s]
      ensures !ok ==> faulted || [s] in m
      ensures ok ==> forall q :: c <= q ==> SameAt(tree, m, q)
      ensures ok ==> forall q :: !(c <= q) && q != Staged(s, c) ==> SameAt(old(tree), tree, q)
    {
      ok := RemoveBlocking(c, m);
      if !ok {
        return;
      }
      ghost var t := tree;
      StagingIsExpendable(s, Staged(s, c));
      ok := Rename(Staged(s, c), c);
      if ok {
        AfterMove(old(tree), t, tree, s, c);
        LeafMirrored(c, m);
      }
    }

    /** replacePath: rename over the target; a directory that blocks the
        rename is removed first. */
    method ReplacePath(s: string, c: Path, ghost m: Tree) returns (ok: bool)
      requires Running() && syncing && m == Mirror(source) && IsStaging(s)
      requires c != [] && c in m && m[c] != Dir && StagedAt(tree, s, m, c)
      requires Parent(c) in tree && tree[Parent(c)] == Dir && (c != [s] ==> !([s] <= c))
      requires c == [s] ==> c in tree && tree[c] == Dir
      modifies `tree, `history, `faulted, `ops
      ensures Running() && Continues(old(history), old(faulted))
      ensures ok ==> c != [s]
      ensures !ok ==> faulted || [s] in m
      ensures ok ==> forall q :: c <= q ==> SameAt(tree, m, q)
      ensures ok ==> forall q :: !(c <= q) && q != Staged(s, c) ==> SameAt(old(tree), tree, q)
    {
      var from := Staged(s, c);
      StagingIsExpendable(s, from);
      ok := Rename(from, c);
      if ok {
        AfterMove(old(tree), old(tree), tree, s, c);
        LeafMirrored(c, m);
        return;
      }
      var isDir := StatIsDir(c);
      if isDir {
        ok := ReplaceDirectory(s, c, m);
      }
    }

    /** The walk of syncTree below rel, which still has to visit todo. */
    static ghost predicate SyncProgress(w: Walk, t0: Tree, t: Tree, todo: set<Path>) {
      match w
      case Walk(s, rel, m) =>
        && rel in t && t[rel] == Dir && [s] in t && t[[s]] == Dir
        && (rel == [] && [s] in m ==> [s] in todo)
        && (forall q :: rel < q ==>
          if ChildToward(rel, q) in todo then StagedAt(t, s, m, q) && PrunedAt(t, s, m, q) else MirroredAt(t, s, m, q))
        && (forall q :: !(rel < q) && !(Staged(s, rel) < q) ==> SameAt(t0, t, q))
    }

    /** The listing of the staged directory rel, relative to the staging root. */
    static function StagedChildren(t: Tree, s: string, rel: Path): set<Path> {
      set p | p in t && |p| > 1 && p[0] == s && Parent(p[1..]) == rel :: p[1..]
    }

    static lemma ListingIsMirror(t: Tree, s: string, rel: Path, m: Tree)
      requires forall q :: rel < q ==> StagedAt(t, s, m, q)
      ensures StagedChildren(t, s, rel) == Children(m, rel)
    {
      forall c | c != [] && Parent(c) == rel
        ensures c in StagedChildren(t, s, rel) <==> c in Children(m, rel)
      {
        assert StagedAt(t, s, m, c);
        assert Staged(s, c)[1..] == c;
        forall p | p in t && |p| > 1 && p[0] == s && p[1..] == c
          ensures p == Staged(s, c)
        {
        }
      }
    }

    static lemma SyncStart(t: Tree, s: string, rel: Path, m: Tree)
      requires Valid(t) && Valid(m) && rel in t && t[rel] == Dir && rel in m && m[rel] == Dir
      requires [s] in t && t[[s]] == Dir
      requires forall q :: rel < q ==> StagedAt(t, s, m, q) && PrunedAt(t, s, m, q)
      ensures SyncProgress(Walk(s, rel, m), t, t, Children(m, rel)) && StagedChildren(t, s, rel) == Children(m, rel)
    {
      ListingIsMirror(t, s, rel, m);
      forall q | rel < q && ChildToward(rel, q) !in Children(m, rel)
        ensures MirroredAt(t, s, m, q)
      {
        var c := ChildToward(rel, q);
        assert Parent(c) == rel;
        if q in m {
          ChildInTree(m, rel, q);
        }
        if q in t {
          ChildInTree(t, rel, q);
          assert PrunedAt(t, s, m, c);
          assert [s] <= c ==> [s] <= q;
        }
      }
      assert rel == [] ==> Parent([s]) == rel;
    }

    static lemma SyncStep(t0: Tree, t: Tree, t': Tree, s: string, rel: Path, c: Path, todo: set<Path>, m: Tree)
      requires SyncProgress(Walk(s, rel, m), t0, t, todo) && !([s] <= rel)
      requires c in todo && c != [] && Parent(c) == rel && c != [s]
      requires forall q :: c <= q ==> MirroredAt(t', s, m, q)
      requires forall q :: !(c <= q) && !(Staged(s, c) <= q) ==> SameAt(t, t', q)
      ensures SyncProgress(Walk(s, rel, m), t0, t', todo - {c})
    {
      assert !([s] <= c) by {
        assert rel == [] ==> c == [c[0]];
      }
      assert !(c <= rel) && !(Staged(s, c) <= rel);
      assert SameAt(t, t', rel);
      assert SameAt(t, t', [s]);
      forall q | rel < q
        ensures
          if ChildToward(rel, q) in todo - {c} then StagedAt(t', s, m, q) && PrunedAt(t', s, m, q)
          else MirroredAt(t', s, m, q)
      {
        Toward(c, q);
        StagedPrefix(s, c, q);
        if !(c <= q) {
          assert SameAt(t, t', q) || [s] <= q;
          assert !(c <= Staged(s, q));
          assert SameAt(t, t', Staged(s, q));
        }
      }
      forall q | !(rel < q) && !(Staged(s, rel) < q)
        ensures SameAt(t0, t', q)
      {
        assert SameAt(t0, t, q);
        StagedPrefix(s, rel, c);
        assert !(c <= q) && !(Staged(s, c) <= q);
        assert SameAt(t, t', q);
      }
    }

    static lemma SyncEntryReady(t: Tree, t': Tree, s: string, c: Path, m: Tree)
      requires c != [] && !([s] <= c) && c in m && c in t' && t'[c] == Dir
      requires forall q :: c <= q ==> StagedAt(t, s, m, q) && PrunedAt(t, s, m, q)
      requires forall q :: !(c <= q) ==> SameAt(t, t', q)
      requires forall q :: c < q && q in t' ==> q in t && t'[q] == t[q]
      ensures forall q :: c < q ==> StagedAt(t', s, m, q) && PrunedAt(t', s, m, q)
    {
      forall q | c < q
        ensures StagedAt(t', s, m, q) && PrunedAt(t', s, m, q)
      {
        assert c[0] != s by {
          assert c[..1] == [c[0]];
        }
        assert !(c <= Staged(s, q));
        assert SameAt(t, t', Staged(s, q));
        assert StagedAt(t, s, m, q) && PrunedAt(t, s, m, q);
      }
    }

    /** A directory of the walk: it replaces a file or a link in its place. */
    method MakeDir(s: string, c: Path, ghost m: Tree) returns (ok: bool)
      requires Running() && syncing && m == Mirror(source) && IsStaging(s)
      requires c != [] && c in m && m[c] == Dir && Parent(c) in tree && tree[Parent(c)] == Dir && !([s] <= c)
      requires forall q :: c <= q ==> StagedAt(tree, s, m, q) && PrunedAt(tree, s, m, q)
      modifies `tree, `history, `faulted, `ops
      ensures Running() && Continues(old(history), old(faulted))
      ensures if ok then c in tree && tree[c] == Dir else faulted
      ensures ok ==> forall q :: !(c <= q) ==> SameAt(old(tree), tree, q)
      ensures ok ==> forall q :: c < q ==> StagedAt(tree, s, m, q) && PrunedAt(tree, s, m, q)
    {
      ok := true;
      if c in tree && tree[c] != Dir {
        NoChildren(c);
        forall q | c <= q
          ensures Expendable(q)
        {
          SafeHere(q);
        }
        ok := RemoveAll(c);
      }
      if ok && c !in tree {
        SafeHere(c);
        ok := Create(c, Dir);
      }
      if ok {
        SyncEntryReady(old(tree), tree, s, c, m);
      }
    }

    static lemma SyncedEntry(t0: Tree, t: Tree, t': Tree, s: string, c: Path, m: Tree)
      requires c in m && m[c] == Dir && SyncProgress(Walk(s, c, m), t, t', {})
      requires forall q :: !(c <= q) ==> SameAt(t0, t, q)
      ensures forall q :: c <= q ==> MirroredAt(t', s, m, q)
      ensures forall q :: !(c <= q) && !(Staged(s, c) <= q) ==> SameAt(t0, t', q)
    {
      forall q | c <= q
        ensures MirroredAt(t', s, m, q)
      {
        assert q == c || c < q;
      }
      forall q | !(c <= q) && !(Staged(s, c) <= q)
        ensures SameAt(t0, t', q)
      {
        assert SameAt(t0, t, q) && SameAt(t, t', q);
      }
    }

    /** One step of the walk: a directory is created and walked, any other
        entry is renamed into place. */
    method SyncEntry(s: string, c: Path, ghost m: Tree) returns (ok: bool)
      requires Running() && syncing && m == Mirror(source) && IsStaging(s) && [s] in tree && tree[[s]] == Dir
      requires c != [] && c in m && Parent(c) in tree && tree[Parent(c)] == Dir && !([s] <= Parent(c))
      requires forall q :: c <= q ==> StagedAt(tree, s, m, q) && PrunedAt(tree, s, m, q)
      modifies `tree, `history, `faulted, `ops
      ensures Running() && Continues(old(history), old(faulted))
      ensures ok ==> c != [s]
      ensures !ok ==> faulted || [s] in m
      ensures ok ==> forall q :: c <= q ==> MirroredAt(tree, s, m, q)
      ensures ok ==> forall q :: !(c <= q) && !(Staged(s, c) <= q) ==> SameAt(old(tree), tree, q)
      decreases Below(m, Parent(c)), 0
    {
      MirrorValid(source);
      assert StagedAt(tree, s, m, c);
      assert c != [s] ==> !([s] <= c) by {
        assert |c| == 1 ==> c == [c[0]];
      }
      if tree[Staged(s, c)] != Dir {
        ok := ReplacePath(s, c, m);
        return;
      }
      ok := MakeDir(s, c, m);
      if ok {
        ghost var t := tree;
        assert !(c <= [s]) && SameAt(old(tree), tree, [s]);
        assert Parent(c) in Below(m, Parent(c)) - Below(m, c);
        ok := SyncDir(s, c, m);
        if ok {
          SyncedEntry(old(tree), t, tree, s, c, m);
        }
      }
    }

    method SyncNext(s: string, rel: Path, c: Path, ghost m: Tree, ghost t0: Tree, ghost todo: set<Path>)
      returns (ok: bool)
      requires Running() && syncing && m == Mirror(source) && IsStaging(s) && !([s] <= rel)
      requires SyncProgress(Walk(s, rel, m), t0, tree, todo) && todo <= Children(m, rel) && c in todo
      modifies `tree, `history, `faulted, `ops
      ensures Running() && Continues(old(history), old(faulted))
      ensures if ok then SyncProgress(Walk(s, rel, m), t0, tree, todo - {c}) else faulted || [s] in m
      decreases Below(m, rel), 1
    {
      forall q | c <= q
        ensures StagedAt(tree, s, m, q) && PrunedAt(tree, s, m, q)
      {
        Toward(c, q);
      }
      ok := SyncEntry(s, c, m);
      if ok {
        SyncStep(t0, old(tree), tree, s, rel, c, todo, m);
      }
    }

    /** The loop of the walk over the entries all of a directory. */
    method SyncEntries(s: string, rel: Path, ghost m: Tree, ghost t0: Tree, all: set<Path>) returns (ok: bool)
      requires Running() && syncing && m == Mirror(source) && IsStaging(s) && !([s] <= rel)
      requires all <= Children(m, rel) && SyncProgress(Walk(s, rel, m), t0, tree, all)
      modifies `tree, `history, `faulted, `ops
      ensures Running() && Continues(old(history), old(faulted))
      ensures if ok then SyncProgress(Walk(s, rel, m), t0, tree, {}) else faulted || [s] in m
      decreases Below(m, rel), 2
    {
      var todo := all;
      ok := true;
      while todo != {}
        invariant Running() && Continues(old(history), old(faulted))
        invariant todo <= all && SyncProgress(Walk(s, rel, m), t0, tree, todo)
        decreases |todo|
      {
        var c :| c in todo;
        ok := SyncNext(s, rel, c, m, t0, todo);
        if !ok {
          return;
        }
        todo := todo - {c};
      }
    }

    /** syncTree below rel, after the prune. */
    method SyncDir(s: string, rel: Path, ghost m: Tree) returns (ok: bool)
      requires Running() && syncing && m == Mirror(source) && IsStaging(s) && [s] in tree && tree[[s]] == Dir
      requires rel in m && m[rel] == Dir && rel in tree && tree[rel] == Dir && !([s] <= rel)
      requires forall q :: rel < q ==> StagedAt(tree, s, m, q) && PrunedAt(tree, s, m, q)
      modifies `tree, `history, `faulted, `ops
      ensures Running() && Continues(old(history), old(faulted))
      ensures if ok then SyncProgress(Walk(s, rel, m), old(tree), tree, {}) else faulted || [s] in m
      decreases Below(m, rel), 3
    {
      MirrorValid(source);
      SyncStart(tree, s, rel, m);
      ok := SyncEntries(s, rel, m, old(tree), StagedChildren(tree, s, rel));
    }

    method Drop(s: string) returns (ok: bool)
      requires Running() && IsStaging(s)
      modifies `tree, `history, `faulted, `ops
      ensures Running() && Continues(old(history), old(faulted))
      ensures Shrunk(old(tree), tree, [s])
      ensures ok ==> forall q :: [s] <= q ==> q !in tree
      ensures !ok ==> faulted
    {
      forall q | [s] <= q
        ensures Expendable(q)
      {
        StagingIsExpendable(s, q);
      }
      ok := RemoveAll([s]);
    }

    lemma KeptHere(p: Path)
      requires Running() && !syncing
      ensures KeptAt(before, staging, tree, p)
    {
    }

    /** Clean up, then MkdirTemp. */
    method MakeStaging(s: string) returns (result: Outcome)
      requires Running() && !syncing && before == tree && IsStagingName(s) && s == staging
      modifies `tree, `history, `faulted, `ops
      ensures Running() && Continues(old(history), old(faulted))
      ensures result in {Done, CleanFailed, StagingFailed}
      ensures result == Done ==> IsStaging(s) && [s] in tree && tree[[s]] == Dir && forall q :: [s] < q ==> q !in tree
      ensures result != Done ==> faulted || !IsStaging(s)
    {
      var ok := CleanStaging();
      if !ok {
        return CleanFailed;
      }
      if [s] in tree {
        return StagingFailed;
      }
      assert IsStaging(s) by {
        KeptHere([s]);
      }
      StagingIsExpendable(s, [s]);
      NoChildren([s]);
      ok := Create([s], Dir);
      return if ok then Done else StagingFailed;
    }

    /** The first half of CopyTree, up to the staged copy of the source. */
    method Stage(from: Tree, s: string) returns (result: Outcome)
      requires Running() && !syncing && from == source && before == tree && IsStagingName(s) && s == staging
      modifies `tree, `history, `faulted, `ops
      ensures Running() && Continues(old(history), old(faulted))
      ensures result in {Done, CleanFailed, StagingFailed, CopyFailed}
      ensures result == Done ==> IsStaging(s) && StagedAll(tree, s, Mirror(from)) && Supported(Mirror(from))
      ensures result != Done ==> faulted || !Supported(Mirror(from)) || !IsStaging(s)
    {
      result := MakeStaging(s);
      if result != Done {
        return;
      }
      assert Staged(s, []) == [s];
      var ok := CopyDir(from, s, []);
      if !ok {
        var _ := Drop(s);
        return CopyFailed;
      }
      return Done;
    }

    /** syncTree: prune first, because the renames empty the staged tree. */
    method SyncTree(s: string, ghost m: Tree) returns (ok: bool)
      requires Running() && syncing && m == Mirror(source) && IsStaging(s)
      requires StagedAll(tree, s, m)
      modifies `tree, `history, `faulted, `ops
      ensures Running() && Continues(old(history), old(faulted))
      ensures ok ==> [s] !in m && forall q :: MirroredAt(tree, s, m, q)
      ensures !ok ==> faulted || [s] in m
    {
      MirrorValid(source);
      ok := PruneTree(s, [], false, m);
      if ok {
        ok := SyncDir(s, [], m);
      }
    }

    static lemma MirrorOutside(t: Tree, t': Tree, s: string, from: Tree)
      requires Valid(from) && [s] !in Mirror(from)
      requires forall q :: MirroredAt(t, s, Mirror(from), q)
      requires Shrunk(t, t', [s]) && forall q :: [s] <= q ==> q !in t'
      ensures t' == Mirror(from)
    {
      var m := Mirror(from);
      MirrorValid(from);
      forall q
        ensures q in t' <==> q in m
        ensures q in t' && q in m ==> t'[q] == m[q]
      {
        assert MirroredAt(t, s, m, q);
        if [s] <= q && q != [s] && q in m {
          Ancestor(m, [s], q);
        }
      }
    }

    /** The second half, from the staged copy to the end. */
    method SyncAndDrop(from: Tree, s: string) returns (result: Outcome)
      requires Running() && syncing && from == source && IsStaging(s) && StagedAll(tree, s, Mirror(from))
      modifies `tree, `history, `faulted, `ops
      ensures Running() && Continues(old(history), old(faulted))
      ensures result in {Done, SyncFailed, RemoveFailed}
      ensures result == Done ==> tree == Mirror(from) && [s] !in Mirror(from)
      ensures result != Done ==> faulted || [s] in Mirror(from)
    {
      var ok := SyncTree(s, Mirror(from));
      if !ok {
        var _ := Drop(s);
        return SyncFailed;
      }
      ghost var t := tree;
      ok := Drop(s);
      if !ok {
        var _ := Drop(s); // the deferred removal
        return RemoveFailed;
      }
      MirrorOutside(t, tree, s, from);
      return Done;
    }

    method Run(from: Tree, s: string) returns (result: Outcome)
      requires Running() && !syncing && from == source && before == tree && IsStagingName(s) && s == staging
      modifies `tree, `history, `faulted, `ops, `syncing
      ensures Running() && Continues(old(history), old(faulted))
      ensures result == Done ==> tree == Mirror(from) && Copyable(before, from, s)
      ensures result != Done ==> faulted || !Copyable(before, from, s)
      ensures result in {CleanFailed, StagingFailed, CopyFailed} ==> !syncing
    {
      result := Stage(from, s);
      if result != Done {
        return;
      }
      AllSafeEach(before, source, staging, syncing, history);
      syncing := true;
      result := SyncAndDrop(from, s);
    }

    /** CopyTree makes the volume a copy of the source, whatever it held: its
        contract asks nothing of the old content. s is the random name that
        MkdirTemp picks; a name that is taken fails the run. */
    method CopyTree(from: Tree, s: string) returns (result: Outcome)
      requires Valid(tree) && Valid(from) && IsStagingName(s)
      modifies this
      ensures history != [] && history[0] == old(tree) && history[|history| - 1] == tree
      ensures forall t :: t in history ==> Safe(old(tree), from, t)
      ensures result == Done ==> tree == Mirror(from) && Copyable(old(tree), from, s)
      ensures result != Done ==> Faulted(fails, old(ops), ops) || !Copyable(old(tree), from, s)
      ensures result in {CleanFailed, StagingFailed, CopyFailed} ==> forall t :: t in history ==>
        Untouched(old(tree), s, t)
    {
      before, source, staging, syncing, begun, faulted, history := tree, from, s, false, ops, false, [tree];
      result := Run(from, s);
      AllSafeEach(before, source, staging, syncing, history);
    }
  }

  /** A crash of the first run at any operation, then a full run: the same
      end state as one full run, and no protected path was ever lost. */
  method CrashThenCopy(v: Volume, from: Tree, s1: string, s2: string, cut: nat) returns (result: Outcome)
    requires Valid(v.tree) && Valid(from) && IsStagingName(s1) && IsStagingName(s2)
    modifies v
    ensures result == Done ==> v.tree == Mirror(from)
    ensures forall t :: t in v.history ==> Safe(old(v.tree), from, t)
  {
    ghost var start := v.tree;
    var _ := v.CopyTree(from, s1);
    var crashed := v.history[if cut < |v.history| then cut else 0];
    assert crashed in v.history;
    v.tree := crashed;
    result := v.CopyTree(from, s2);
    forall t | t in v.history
      ensures Safe(start, from, t)
    {
      SafeTransitive(start, from, crashed, t);
    }
  }
}
