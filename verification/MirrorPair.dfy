/** The choice of two disks for a mirror. */
module MirrorPair {
  import opened Ordering

  /** identities are the serial numbers and world wide names of the disk. */
  datatype Candidate = Candidate(path: string, device: string, identities: seq<string>, bytes: int, sectorBytes: string)

  datatype Choice = NoPair | Pair(first: Candidate, second: Candidate)

  ghost predicate Overlap(a: seq<string>, b: seq<string>) {
    exists id :: id in a && id in b
  }

  /** The two disks may mirror each other. */
  ghost predicate Mirrorable(a: Candidate, b: Candidate) {
    a.bytes == b.bytes && a.sectorBytes == b.sectorBytes && a.device != b.device && !Overlap(a.identities, b.identities)
  }

  /** Largest first, then by path. */
  predicate Before(a: Candidate, b: Candidate) {
    a.bytes > b.bytes || (a.bytes == b.bytes && AtMost(a.path, b.path))
  }

  lemma BeforeIsPreorder()
    ensures TotalPreorder(Before)
  {
    forall x, y
      ensures Before(x, y) || Before(y, x)
    {
      AtMostTotal(x.path, y.path);
    }
    forall x, y, z | Before(x, y) && Before(y, z)
      ensures Before(x, z)
    {
      if x.bytes == y.bytes == z.bytes {
        AtMostTransitive(x.path, y.path, z.path);
      }
    }
  }

  method IdentitiesOverlap(a: seq<string>, b: seq<string>) returns (yes: bool)
    ensures yes <==> Overlap(a, b)
  {
    var seen: set<string> := {};
    for i := 0 to |a|
      invariant forall id :: id in seen <==> id in a[..i]
    {
      seen := seen + {a[i]};
    }
    assert a[..|a|] == a;
    for j := 0 to |b|
      invariant forall id :: id in b[..j] ==> id !in a
    {
      if b[j] in seen {
        return true;
      }
    }
    assert b[..|b|] == b;
    return false;
  }

  /** c and d are no better choice than a and b. */
  ghost predicate NoBetter(a: Candidate, b: Candidate, c: Candidate, d: Candidate) {
    && c.bytes <= a.bytes
    && (c.bytes == a.bytes && AtMost(c.path, d.path) ==> AtMost(a.path, c.path) && (a == c ==> AtMost(b.path, d.path)))
  }

  /** No pair of s before the position (i, j) may mirror. */
  ghost predicate NoneBefore(s: seq<Candidate>, i: nat, j: nat) {
    forall p, q :: 0 <= p < q < |s| && (p < i || (p == i && q < j)) ==> !Mirrorable(s[p], s[q])
  }

  /** The scan stops a row at the first smaller disk: the rest of the row
      holds no pair. */
  lemma RestOfRow(s: seq<Candidate>, i: nat, j: nat)
    requires i < j < |s| && SortedBy(s, Before) && NoneBefore(s, i, j) && s[j].bytes != s[i].bytes
    ensures NoneBefore(s, i, |s|)
  {
    forall q | j <= q < |s|
      ensures !Mirrorable(s[i], s[q])
    {
      assert Before(s[i], s[j]) && (j < q ==> Before(s[j], s[q]));
    }
  }

  /** The first pair in the sorted order is the best of all pairs. */
  lemma FirstIsBest(s: seq<Candidate>, i: nat, j: nat, p: nat, q: nat)
    requires i < j < |s| && p < |s| && q < |s| && SortedBy(s, Before) && NoneBefore(s, i, j)
    requires Mirrorable(s[i], s[j]) && Mirrorable(s[p], s[q])
    ensures NoBetter(s[i], s[j], s[p], s[q])
  {
    var lo, hi := if p < q then p else q, if p < q then q else p;
    assert Mirrorable(s[lo], s[hi]) && i <= lo;
    assert i < lo ==> Before(s[i], s[lo]);
    AtMostTotal(s[i].path, s[i].path);
    AtMostTotal(s[j].path, s[j].path);
    if s[p].bytes == s[i].bytes && AtMost(s[p].path, s[q].path) {
      AtMostTotal(s[p].path, s[q].path);
      assert AtMost(s[lo].path, s[p].path) by {
        assert p == lo || Before(s[q], s[p]);
        AtMostTotal(s[p].path, s[p].path);
      }
      AtMostTransitive(s[i].path, s[lo].path, s[p].path);
      if s[i] == s[p] {
        assert i < q && Mirrorable(s[i], s[q]);
        assert j <= q && (j < q ==> Before(s[j], s[q]));
      }
    }
  }

  ghost predicate ExistsPair(s: seq<Candidate>) {
    exists c, d :: c in s && d in s && Mirrorable(c, d)
  }

  lemma NoneMeansNone(s: seq<Candidate>)
    requires NoneBefore(s, |s|, 0)
    ensures !ExistsPair(s)
  {
    forall c, d | c in s && d in s
      ensures !Mirrorable(c, d)
    {
      var p :| 0 <= p < |s| && s[p] == c;
      var q :| 0 <= q < |s| && s[q] == d;
      assert !Mirrorable(s[if p < q then p else q], s[if p < q then q else p]) || p == q;
    }
  }

  lemma Best(s: seq<Candidate>, i: nat, j: nat)
    requires i < j < |s| && SortedBy(s, Before) && NoneBefore(s, i, j) && Mirrorable(s[i], s[j])
    ensures forall c, d :: c in s && d in s && Mirrorable(c, d) ==> NoBetter(s[i], s[j], c, d)
  {
    forall c, d | c in s && d in s && Mirrorable(c, d)
      ensures NoBetter(s[i], s[j], c, d)
    {
      var p :| 0 <= p < |s| && s[p] == c;
      var q :| 0 <= q < |s| && s[q] == d;
      FirstIsBest(s, i, j, p, q);
    }
  }

  /** The nested scan over the sorted candidates. */
  method Scan(s: seq<Candidate>) returns (r: Choice)
    requires SortedBy(s, Before)
    ensures r.NoPair? ==> !ExistsPair(s)
    ensures r.Pair? ==> r.first in s && r.second in s && Mirrorable(r.first, r.second)
    ensures r.Pair? ==> forall c, d :: c in s && d in s && Mirrorable(c, d) ==> NoBetter(r.first, r.second, c, d)
  {
    for i := 0 to |s|
      invariant NoneBefore(s, i, 0)
    {
      var j := i + 1;
      while j < |s|
        invariant i < j <= |s| && NoneBefore(s, i, j)
      {
        if s[j].bytes != s[i].bytes {
          RestOfRow(s, i, j);
          break;
        }
        var same := IdentitiesOverlap(s[i].identities, s[j].identities);
        if s[j].device == s[i].device || s[j].sectorBytes != s[i].sectorBytes || same {
          j := j + 1;
          continue;
        }
        Best(s, i, j);
        return Pair(s[i], s[j]);
      }
      assert NoneBefore(s, i, |s|);
    }
    NoneMeansNone(s);
    return NoPair;
  }

  lemma SameElements(s: seq<Candidate>, t: seq<Candidate>)
    requires multiset(s) == multiset(t)
    ensures forall c :: c in s <==> c in t
  {
    forall c
      ensures c in s <==> c in t
    {
      assert c in s <==> c in multiset(s);
      assert c in t <==> c in multiset(t);
    }
  }

  /** DetectMirrorPair agrees with an exhaustive search of the candidates. */
  method DetectMirrorPair(candidates: seq<Candidate>) returns (r: Choice)
    ensures r.Pair? <==> ExistsPair(candidates)
    ensures r.Pair? ==> r.first in candidates && r.second in candidates && Mirrorable(r.first, r.second)
    ensures r.Pair? ==> forall c, d :: c in candidates && d in candidates && Mirrorable(c, d) ==>
      NoBetter(r.first, r.second, c, d)
  {
    BeforeIsPreorder();
    StableSortSorted(candidates, Before);
    var sorted := StableSort(candidates, Before);
    SameElements(candidates, sorted);
    r := Scan(sorted);
  }
}
