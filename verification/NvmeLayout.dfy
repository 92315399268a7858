/** The split of an NVMe controller into namespaces by percentage. */
module NvmeLayout {
  import opened Basics

  const WORD := 0x1_0000_0000_0000_0000

  datatype Namespace = Namespace(name: string, sizePct: int, blockSize: int)

  // ---------- validation ----------

  ghost predicate Acceptable(n: Namespace) {
    n.name != "" && 1 <= n.sizePct <= 100 && n.blockSize in {0, 512, 4096}
  }

  ghost predicate AllAcceptable(s: seq<Namespace>) {
    forall i :: 0 <= i < |s| ==> Acceptable(s[i])
  }

  function TotalPct(s: seq<Namespace>): int {
    if s == [] then 0 else TotalPct(s[..|s| - 1]) + s[|s| - 1].sizePct
  }

  /** The first n entries with their default block size. */
  function Defaulted(s: seq<Namespace>, n: nat): (r: seq<Namespace>)
    requires n <= |s|
    ensures |r| == |s|
  {
    seq(|s|, i requires 0 <= i < |s| => if i < n && s[i].blockSize == 0 then s[i].(blockSize := 512) else s[i])
  }

  /** The path matches ^/dev/nvme\d+$. */
  predicate IsControllerPath(path: string) {
    && |path| > 9 && path[..9] == "/dev/nvme"
    && forall i :: 9 <= i < |path| ==> '0' <= path[i] <= '9'
  }

  ghost predicate Valid(controller: string, s: seq<Namespace>) {
    IsControllerPath(controller) && s != [] && AllAcceptable(s) && TotalPct(s) <= 100
  }

  function Default(n: Namespace): Namespace {
    if n.blockSize == 0 then n.(blockSize := 512) else n
  }

  /** validateNVMeNamespace, on entry j. */
  method ValidateNamespace(ns: array<Namespace>, j: nat) returns (ok: bool)
    requires j < ns.Length
    modifies ns
    ensures ok <==> Acceptable(old(ns[j]))
    ensures !ok ==> ns[..] == old(ns[..])
    ensures ok ==> ns[..] == old(ns[..])[j := Default(old(ns[j]))]
  {
    if ns[j].name == "" || ns[j].sizePct <= 0 || ns[j].sizePct > 100 {
      return false;
    }
    if ns[j].blockSize != 0 && ns[j].blockSize != 512 && ns[j].blockSize != 4096 {
      return false;
    }
    if ns[j].blockSize == 0 {
      ns[j] := ns[j].(blockSize := 512);
    }
    return true;
  }

  /** validateNVMeControllerConfig: accepts exactly the valid configurations
      and gives every entry a block size. */
  method ValidateController(controller: string, ns: array<Namespace>) returns (ok: bool)
    modifies ns
    ensures ok <==> Valid(controller, old(ns[..]))
    ensures ok ==> ns[..] == Defaulted(old(ns[..]), ns.Length)
    ensures exists k :: 0 <= k <= ns.Length && ns[..] == Defaulted(old(ns[..]), k)
  {
    ghost var was := ns[..];
    assert ns[..] == Defaulted(was, 0);
    if controller == "" || !IsControllerPath(controller) || ns.Length == 0 {
      return false;
    }
    var totalPct := 0;
    for j := 0 to ns.Length
      invariant ns[..] == Defaulted(was, j)
      invariant AllAcceptable(was[..j]) && totalPct == TotalPct(was[..j])
    {
      assert ns[j] == was[j];
      var good := ValidateNamespace(ns, j);
      if !good {
        return false;
      }
      assert ns[..] == Defaulted(was, j)[j := Default(was[j])] == Defaulted(was, j + 1);
      assert was[..j + 1][..j] == was[..j] && was[..j + 1][j] == was[j];
      assert ns[j].sizePct == was[j].sizePct;
      totalPct := totalPct + ns[j].sizePct;
    }
    assert was[..ns.Length] == was;
    return totalPct <= 100;
  }

  // ---------- sizing ----------

  /** The size in blocks, with the product taken modulo 2^64. */
  function SizeBlocks(total: int, n: Namespace): int {
    var bs := if n.blockSize == 0 then 512 else n.blockSize;
    (total * n.sizePct % WORD) / (100 * bs)
  }

  function BlockBytes(n: Namespace): int { Default(n).blockSize }

  lemma Floor(x: int, d: int)
    requires x >= 0 && d > 0
    ensures 0 <= x / d && 0 <= x / d * d <= x < (x / d + 1) * d
    ensures x == x / d * d + x % d && 0 <= x % d < d
  {
  }

  lemma Distribute(a: int, x: int, y: int)
    ensures a * (x + y) == a * x + a * y
  {
  }

  lemma WrapBound(x: int, w: int, d: int, q: int, r: int, b: int)
    requires 0 <= q && 0 <= r < w && 0 < d <= w && x == q * w + r
    requires 0 <= b * d <= r < (b + 1) * d
    ensures b * d <= x && (x < (b + 1) * d <==> x < w)
  {
    Scale(w, 0, q);
    if q >= 1 {
      Scale(w, 1, q);
      Distribute(d, b, 1);
    }
  }

  /** Division after reduction modulo w. */
  lemma WrapFloor(x: int, w: int, d: int)
    requires 0 <= x && 0 < d <= w
    ensures 0 <= (x % w) / d * d <= x
    ensures x < ((x % w) / d + 1) * d <==> x < w
  {
    Floor(x, w);
    Floor(x % w, d);
    WrapBound(x, w, d, x / w, x % w, (x % w) / d);
  }

  lemma Regroup(b: int, bs: int)
    ensures b * (100 * bs) == 100 * (b * bs)
  {
  }

  /** The size never takes more than the share, also when the product
      overflows, and is the share rounded down exactly when it does not. */
  lemma SizeOfShare(total: int, n: Namespace)
    requires 0 <= total < WORD && Acceptable(n)
    ensures 0 <= 100 * (SizeBlocks(total, n) * BlockBytes(n)) <= total * n.sizePct
    ensures total * n.sizePct < 100 * ((SizeBlocks(total, n) + 1) * BlockBytes(n)) <==> total * n.sizePct < WORD
  {
    Scale(total, 0, n.sizePct);
    WrapFloor(total * n.sizePct, WORD, 100 * BlockBytes(n));
    Regroup(SizeBlocks(total, n), BlockBytes(n));
    Regroup(SizeBlocks(total, n) + 1, BlockBytes(n));
  }

  /** What was created: the blocks of the first namespaces. */
  function Used(s: seq<Namespace>, blocks: seq<int>): int
    requires |blocks| <= |s|
  {
    if blocks == [] then 0
    else Used(s, blocks[..|blocks| - 1]) + blocks[|blocks| - 1] * BlockBytes(s[|blocks| - 1])
  }

  ghost predicate Sized(total: int, s: seq<Namespace>, blocks: seq<int>) {
    |blocks| <= |s| && forall i :: 0 <= i < |blocks| ==> blocks[i] == SizeBlocks(total, s[i])
  }

  function Slack(s: seq<Namespace>): int {
    if s == [] then 0 else Slack(s[..|s| - 1]) + BlockBytes(s[|s| - 1])
  }

  lemma {:induction false} UsedIsShare(total: int, s: seq<Namespace>, blocks: seq<int>)
    requires 0 <= total < WORD && AllAcceptable(s) && Sized(total, s, blocks)
    ensures 0 <= 100 * Used(s, blocks) <= total * TotalPct(s[..|blocks|])
    ensures total * 100 < WORD ==> total * TotalPct(s[..|blocks|]) <= 100 * (Used(s, blocks) + Slack(s[..|blocks|]))
    decreases |blocks|
  {
    var k := |blocks|;
    if k > 0 {
      var n, pre := s[k - 1], blocks[..k - 1];
      UsedIsShare(total, s, pre);
      assert s[..k][..k - 1] == s[..k - 1];
      SizeOfShare(total, n);
      assert blocks[k - 1] == SizeBlocks(total, n);
      Distribute(total, TotalPct(s[..k - 1]), n.sizePct);
      if total * 100 < WORD {
        Scale(total, n.sizePct, 100);
        Distribute(BlockBytes(n), blocks[k - 1], 1);
      }
    }
  }

  lemma {:induction false} PctMonotone(s: seq<Namespace>, k: nat)
    requires k <= |s| && AllAcceptable(s)
    ensures 0 <= TotalPct(s[..k]) <= TotalPct(s)
    decreases |s|
  {
    if k < |s| {
      var t := s[..|s| - 1];
      PctMonotone(t, k);
      assert t[..k] == s[..k];
    } else {
      assert s[..k] == s;
      if s != [] {
        PctMonotone(s[..|s| - 1], |s| - 1);
      }
    }
  }

  /** No prefix of a valid layout exceeds the capacity, whatever it is. */
  lemma LayoutFits(total: int, controller: string, s: seq<Namespace>, blocks: seq<int>)
    requires 0 <= total < WORD && Valid(controller, s) && Sized(total, s, blocks)
    ensures 0 <= Used(s, blocks) <= total
  {
    UsedIsShare(total, s, blocks);
    PctMonotone(s, |blocks|);
    Scale(total, TotalPct(s[..|blocks|]), 100);
  }

  /** A whole layout leaves less than a block per namespace of the shares
      unused. */
  lemma WholeLayout(total: int, s: seq<Namespace>, blocks: seq<int>)
    requires 0 <= total < WORD && AllAcceptable(s) && Sized(total, s, blocks) && |blocks| == |s|
    ensures total * 100 < WORD ==> total * TotalPct(s) <= 100 * (Used(s, blocks) + Slack(s))
  {
    UsedIsShare(total, s, blocks);
    assert s[..|s|] == s;
  }

  method ShareBlocks(total: int, n: Namespace) returns (sizeBlocks: int)
    requires 0 <= total < WORD && Acceptable(n)
    ensures sizeBlocks == SizeBlocks(total, n) >= 0
  {
    var bs := n.blockSize;
    if bs == 0 {
      bs := 512;
    }
    sizeBlocks := (total * n.sizePct % WORD) / (100 * bs);
    Floor(total * n.sizePct % WORD, 100 * BlockBytes(n));
  }

  datatype Outcome = Created | ZeroBlocks | CreateFailed | AttachFailed

  /** Namespace i gets created and attached: commands 2 * i and 2 * i + 1. */
  predicate Works(total: int, s: seq<Namespace>, fails: nat -> bool, i: nat)
    requires i < |s| && s[i].blockSize >= 0
  {
    SizeBlocks(total, s[i]) > 0 && !fails(2 * i) && !fails(2 * i + 1)
  }

  /** The creation loop of applyControllerLayout; fails tells which commands
      fail. blocks are the sizes of what exists at the end, also of a namespace
      that was created and not attached. */
  method ApplyLayout(total: int, controller: string, s: seq<Namespace>, fails: nat -> bool)
    returns (blocks: seq<int>, attached: nat, r: Outcome)
    requires 0 <= total < WORD && Valid(controller, s)
    ensures Sized(total, s, blocks) && 0 <= Used(s, blocks) <= total
    ensures forall i :: 0 <= i < |blocks| ==> blocks[i] > 0
    ensures attached <= |s| && (forall i: nat :: i < attached ==> Works(total, s, fails, i))
    ensures attached < |s| ==> !Works(total, s, fails, attached)
    ensures |blocks| == if r.AttachFailed? then attached + 1 else attached
    ensures match r
      case Created => attached == |s|
      case ZeroBlocks => attached < |s| && SizeBlocks(total, s[attached]) == 0
      case CreateFailed => attached < |s| && SizeBlocks(total, s[attached]) > 0 && fails(2 * attached)
      case AttachFailed => attached < |s| && SizeBlocks(total, s[attached]) > 0 && fails(2 * attached + 1)
    ensures r.Created? && total * 100 < WORD ==> total * TotalPct(s) <= 100 * (Used(s, blocks) + Slack(s))
  {
    blocks, attached, r := [], 0, Created;
    for i := 0 to |s|
      invariant |blocks| == attached == i && r.Created? && Sized(total, s, blocks)
      invariant forall j :: 0 <= j < i ==> blocks[j] > 0
      invariant forall j: nat :: j < i ==> Works(total, s, fails, j)
    {
      var sizeBlocks := ShareBlocks(total, s[i]);
      if sizeBlocks == 0 {
        r := ZeroBlocks;
        break;
      }
      if fails(2 * i) {
        r := CreateFailed;
        break;
      }
      blocks := blocks + [sizeBlocks];
      if fails(2 * i + 1) {
        r := AttachFailed;
        break;
      }
      attached := attached + 1;
    }
    LayoutFits(total, controller, s, blocks);
    if r.Created? {
      WholeLayout(total, s, blocks);
    }
  }

  /** A capacity of 2^63 bytes wraps to zero blocks for the whole disk. */
  lemma OverflowLosesShare()
    ensures SizeBlocks(0x8000_0000_0000_0000, Namespace("data", 100, 512)) == 0
  {
    assert 0x8000_0000_0000_0000 * 100 == 50 * WORD;
  }

  lemma {:induction false} DefaultKeepsPct(s: seq<Namespace>, n: nat)
    requires n <= |s|
    ensures TotalPct(Defaulted(s, n)[..n]) == TotalPct(s[..n])
  {
    if n > 0 {
      DefaultKeepsPct(s, n - 1);
      assert Defaulted(s, n)[..n][..n - 1] == Defaulted(s, n - 1)[..n - 1];
      assert s[..n][..n - 1] == s[..n - 1];
    }
  }

  lemma DefaultKeepsValid(controller: string, s: seq<Namespace>)
    requires Valid(controller, s)
    ensures Valid(controller, Defaulted(s, |s|))
  {
    DefaultKeepsPct(s, |s|);
    assert s[..|s|] == s && Defaulted(s, |s|)[..|s|] == Defaulted(s, |s|);
    forall i | 0 <= i < |s|
      ensures Acceptable(Defaulted(s, |s|)[i])
    {
      assert Acceptable(s[i]);
    }
  }

  /** A configuration from validation to creation. */
  method Configure(total: int, controller: string, ns: array<Namespace>, fails: nat -> bool)
    returns (ok: bool, blocks: seq<int>, r: Outcome)
    requires 0 <= total < WORD
    modifies ns
    ensures ok <==> Valid(controller, old(ns[..]))
    ensures |blocks| <= ns.Length && 0 <= Used(ns[..], blocks) <= total
    ensures !ok ==> blocks == []
    ensures ok && r.Created? ==> |blocks| == ns.Length
  {
    ghost var was := ns[..];
    ok := ValidateController(controller, ns);
    blocks, r := [], Created;
    if ok {
      DefaultKeepsValid(controller, was);
      var attached;
      blocks, attached, r := ApplyLayout(total, controller, ns[..], fails);
    }
  }
}
