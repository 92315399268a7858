/** File system trees of the ESP mirror, and what a mirror run promises about
    them. A tree maps every path, relative to the mounted root, to its entry. */
module EspTree {
  import opened Basics

  type Path = seq<string>

  /** Special stands for every type that the mirror does not support. */
  datatype Entry = File(data: seq<byte>) | Link(target: string) | Dir | Special

  type Tree = map<Path, Entry>

  const STAGING_PREFIX := ".booty-esp-sync-staging-"

  predicate IsStagingName(name: string) {
    STAGING_PREFIX <= name
  }

  function Parent(p: Path): Path
    requires p != []
  {
    p[..|p| - 1]
  }

  /** The entries of directory p, as full paths. */
  function Children(t: Tree, p: Path): set<Path> {
    set q | q in t && q != [] && Parent(q) == p
  }

  /** The paths at or below p. */
  ghost function Below(t: Tree, p: Path): set<Path> {
    set q | q in t && p <= q
  }

  /** The path of q inside the staging directory named s. */
  function Staged(s: string, q: Path): Path {
    [s] + q
  }

  /** The child of rel on the way to q. */
  ghost function ChildToward(rel: Path, q: Path): Path
    requires rel < q
  {
    q[..|rel| + 1]
  }

  ghost predicate Valid(t: Tree) {
    && [] in t
    && t[[]] == Dir
    && forall p {:trigger Parent(p)} :: p in t && p != [] ==> Parent(p) in t && t[Parent(p)] == Dir
  }

  ghost predicate SameAt(a: Tree, b: Tree, q: Path) {
    (q in a <==> q in b) && (q in a ==> a[q] == b[q])
  }

  /** A root-level staging directory of t, or a path in one. */
  ghost predicate InStagingDir(t: Tree, p: Path) {
    p != [] && IsStagingName(p[0]) && [p[0]] in t && t[[p[0]]] == Dir
  }

  /** What the source promises as the content of the peer: everything except
      root-level staging directories. */
  ghost function Mirror(source: Tree): Tree {
    map p | p in source && !InStagingDir(source, p) :: source[p]
  }

  /** A file, or a directory, both before the run and in the source. */
  ghost predicate Protected(before: Tree, source: Tree, p: Path) {
    && p in before && p in source && !InStagingDir(before, p)
    && ((before[p].File? && source[p].File?) || before[p] == source[p] == Dir)
  }

  ghost predicate SafeAt(before: Tree, source: Tree, t: Tree, p: Path) {
    Protected(before, source, p) ==> p in t && (t[p] == before[p] || t[p] == source[p])
  }

  /** Every protected file still holds its old or its new content, and every
      protected directory is still there. */
  ghost predicate Safe(before: Tree, source: Tree, t: Tree) {
    Valid(t) && forall p {:trigger SafeAt(before, source, t, p)} :: SafeAt(before, source, t, p)
  }

  /** A path that belongs to a staging directory: stale ones of before, and
      root names that are free for a new one. */
  ghost predicate Reserved(before: Tree, p: Path) {
    p != [] && IsStagingName(p[0]) && ([p[0]] !in before || before[[p[0]]] == Dir)
  }

  ghost predicate KeptAt(before: Tree, s: string, t: Tree, p: Path) {
    || ([s] <= p && Reserved(before, p))
    || ((p in t ==> p in before && t[p] == before[p]) && (p in before && !InStagingDir(before, p) ==> p in t))
  }

  /** Only the staging directory named s grew, and only staging directories
      shrank. */
  ghost predicate Untouched(before: Tree, s: string, t: Tree) {
    forall p {:trigger KeptAt(before, s, t, p)} :: KeptAt(before, s, t, p)
  }

  lemma {:induction false} Ancestor(t: Tree, p: Path, q: Path)
    requires Valid(t) && q in t && p < q
    ensures p in t && t[p] == Dir
    decreases |q|
  {
    var up := Parent(q);
    if p != up {
      assert p < up;
      Ancestor(t, p, up);
    }
  }

  lemma Toward(c: Path, q: Path)
    requires c != []
    ensures c <= q <==> Parent(c) < q && ChildToward(Parent(c), q) == c
  {
    if c <= q {
      assert q[..|c|] == c;
    }
  }

  /** The first step from rel to an entry is an entry of rel. */
  lemma ChildInTree(t: Tree, rel: Path, q: Path)
    requires Valid(t) && rel < q && q in t
    ensures ChildToward(rel, q) in Children(t, rel)
  {
    var c := ChildToward(rel, q);
    assert Parent(c) == rel;
    if c != q {
      Ancestor(t, c, q);
    }
  }

  lemma StagedPrefix(s: string, a: Path, b: Path)
    ensures Staged(s, a) <= Staged(s, b) <==> a <= b
    ensures Staged(s, a) < Staged(s, b) <==> a < b
    ensures Staged(s, a) == Staged(s, b) <==> a == b
  {
    assert Staged(s, a)[1..] == a && Staged(s, b)[1..] == b;
    if a <= b {
      assert Staged(s, b) == Staged(s, a) + b[|a|..];
    }
    if Staged(s, a) <= Staged(s, b) {
      assert Staged(s, b)[..|a| + 1] == Staged(s, a);
      assert b[..|a|] == Staged(s, b)[..|a| + 1][1..];
    }
  }

  lemma MirrorValid(source: Tree)
    requires Valid(source)
    ensures Valid(Mirror(source))
  {
    forall p | p in Mirror(source) && p != []
      ensures Parent(p) in Mirror(source) && Mirror(source)[Parent(p)] == Dir
    {
      if |p| > 1 {
        assert Parent(p)[0] == p[0];
      }
    }
  }

  lemma ProtectedIsMirrored(before: Tree, source: Tree, p: Path)
    requires Valid(before) && Protected(before, source, p)
    ensures p in Mirror(source)
  {
    if |p| > 1 {
      Ancestor(before, [p[0]], p);
    } else if |p| == 1 {
      assert p == [p[0]];
    }
  }

  /** Any chain of interrupted runs of the same source keeps the promise to
      the tree before the first one. */
  lemma SafeTransitive(before: Tree, source: Tree, mid: Tree, after: Tree)
    requires Valid(before) && Safe(before, source, mid) && Safe(mid, source, after)
    ensures Safe(before, source, after)
  {
    forall p
      ensures SafeAt(before, source, after, p)
    {
      assert SafeAt(before, source, mid, p) && SafeAt(mid, source, after, p);
      if Protected(before, source, p) {
        ProtectedIsMirrored(before, source, p);
        if |p| > 1 {
          Ancestor(before, [p[0]], p);
        } else if |p| == 1 {
          assert p == [p[0]];
        }
        assert |p| > 0 && [p[0]] != p ==> SafeAt(before, source, mid, [p[0]]);
      }
    }
  }

  /** A change at one path keeps the promises of the run if the path is not
      protected or gets its new content and, before the sync phase, belongs to
      a staging directory and is not created outside the one named s. */
  lemma ChangeKeeps(before: Tree, source: Tree, s: string, syncing: bool, t: Tree, t': Tree, p: Path)
    requires Valid(before) && Safe(before, source, t) && Valid(t') && (!syncing ==> Untouched(before, s, t))
    requires forall q :: q != p ==> SameAt(t, t', q)
    requires !Protected(before, source, p) || (p in t' && p in source && t'[p] == source[p])
    requires !syncing ==> Reserved(before, p) && (p in t' ==> [s] <= p)
    ensures Safe(before, source, t') && (!syncing ==> Untouched(before, s, t'))
  {
    forall q
      ensures SafeAt(before, source, t', q)
    {
      assert SafeAt(before, source, t, q);
      assert q != p ==> SameAt(t, t', q);
    }
    forall q | !syncing
      ensures KeptAt(before, s, t', q)
    {
      assert KeptAt(before, s, t, q);
      assert q != p ==> SameAt(t, t', q);
      if q == p && q in before {
        if |q| > 1 {
          Ancestor(before, [q[0]], q);
        }
        assert |q| == 1 ==> q == [q[0]];
      }
    }
  }
}
