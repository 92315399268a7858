/** The wipe of all disks: each disk is checked on its own, right before its
    wipe, and a disk in use is skipped. */
module WipeDisks {
  import opened InUse

  datatype Check = Free | Used(reason: string) | CheckFailed

  /** CheckNotInUse: the answer for one device. */
  method CheckNotInUse(w: World, d: Device) returns (r: Check)
    ensures r == CheckFailed <==> !Checkable(w)
    ensures Checkable(w) ==> (r.Used? <==> Backs(w, BlockName(w, d)))
  {
    var scan := new Scan();
    var ok := scan.BusyDevices(w);
    if !ok {
      return CheckFailed;
    }
    if BlockName(w, d) in scan.busy {
      return Used(scan.busy[BlockName(w, d)]);
    }
    return Free;
  }

  predicate HasPrefix(s: string, p: string) {
    p <= s
  }

  /** The rest of s after its leading digits. */
  function AfterDigits(s: string): string {
    if s != [] && '0' <= s[0] <= '9' then AfterDigits(s[1..]) else s
  }

  predicate StartsWithDigit(s: string) {
    s != [] && '0' <= s[0] <= '9'
  }

  /** ^nvme\d+c\d+n\d+$, a hidden path node of NVMe multipath. */
  predicate IsNvmePathNode(s: string) {
    && HasPrefix(s, "nvme") && StartsWithDigit(s[4..])
    && var a := AfterDigits(s[4..]);
    && HasPrefix(a, "c") && StartsWithDigit(a[1..])
    && var b := AfterDigits(a[1..]);
    && HasPrefix(b, "n") && StartsWithDigit(b[1..])
    && AfterDigits(b[1..]) == []
  }

  predicate IsVirtualDisk(s: string) {
    || HasPrefix(s, "loop") || HasPrefix(s, "sr") || HasPrefix(s, "ram") || HasPrefix(s, "zram")
    || HasPrefix(s, "dm-") || HasPrefix(s, "md") || HasPrefix(s, "zd") || HasPrefix(s, "nbd")
    || IsNvmePathNode(s)
  }

  datatype Fate = Virtual | Wiped | Skipped | Failed

  /** What happens to one disk: w is what its check reads, and wipeWorks tells
      whether a wipe of it works. */
  ghost function FateOf(d: Device, w: World, wipeWorks: bool): Fate {
    if IsVirtualDisk(d.name) then Virtual
    else if !Checkable(w) then Failed
    else if Backs(w, BlockName(w, d)) then Skipped
    else if wipeWorks then Wiped
    else Failed
  }

  datatype Outcome = Done | AllFailed | SomeFailed | AllInUse

  function AllDisksResult(done: nat, skipped: nat, errs: nat): (r: Outcome)
    ensures r == Done <==> errs == 0 && (done > 0 || skipped == 0)
    ensures r == AllInUse <==> errs == 0 && done == 0 && skipped > 0
    ensures r == AllFailed <==> errs > 0 && done == 0
  {
    if errs > 0 && done == 0 then AllFailed
    else if errs > 0 then SomeFailed
    else if done == 0 && skipped > 0 then AllInUse
    else Done
  }

  /** wipeDevice may run on the disk: its check found it free. */
  ghost predicate MayTouch(d: Device, w: World) {
    !IsVirtualDisk(d.name) && Checkable(w) && !Backs(w, BlockName(w, d))
  }

  /** The loop body for one disk; touched tells whether wipeDevice ran. */
  method WipeOne(d: Device, w: World, wipeWorks: bool) returns (fate: Fate, touched: bool)
    ensures fate == FateOf(d, w, wipeWorks)
    ensures touched <==> MayTouch(d, w)
  {
    if IsVirtualDisk(d.name) {
      return Virtual, false;
    }
    var check := CheckNotInUse(w, d);
    if check == CheckFailed {
      return Failed, false;
    }
    if check.Used? {
      return Skipped, false;
    }
    return if wipeWorks then Wiped else Failed, true;
  }

  ghost function Fates(disks: seq<Device>, worlds: seq<World>, wipeWorks: seq<bool>): seq<Fate>
    requires |worlds| == |wipeWorks| == |disks|
  {
    seq(|disks|, i requires 0 <= i < |disks| => FateOf(disks[i], worlds[i], wipeWorks[i]))
  }

  /** The skipped ones of the first n disks. */
  function SkippedOf(disks: seq<Device>, fates: seq<Fate>, n: nat): seq<Device>
    requires n <= |disks| == |fates|
  {
    if n == 0 then []
    else if fates[n - 1] == Skipped then SkippedOf(disks, fates, n - 1) + [disks[n - 1]]
    else SkippedOf(disks, fates, n - 1)
  }

  ghost predicate Seen(fates: seq<Fate>, f: Fate, n: nat)
    requires n <= |fates|
  {
    exists j :: 0 <= j < n && fates[j] == f
  }

  /** The counters and the list that the loop keeps, and their verdict. */
  method Tally(disks: seq<Device>, fates: seq<Fate>) returns (skipped: seq<Device>, r: Outcome)
    requires |disks| == |fates|
    ensures skipped == SkippedOf(disks, fates, |disks|)
    ensures r == Done <==> Failed !in fates && (Wiped in fates || Skipped !in fates)
    ensures r == AllInUse <==> Failed !in fates && Wiped !in fates && Skipped in fates
    ensures r == AllFailed <==> Failed in fates && Wiped !in fates
  {
    var wiped, errs := 0, 0;
    skipped := [];
    for i := 0 to |disks|
      invariant skipped == SkippedOf(disks, fates, i)
      invariant |skipped| > 0 <==> Seen(fates, Skipped, i)
      invariant wiped > 0 <==> Seen(fates, Wiped, i)
      invariant errs > 0 <==> Seen(fates, Failed, i)
    {
      assert Seen(fates, fates[i], i + 1);
      match fates[i] {
        case Virtual =>
        case Failed => errs := errs + 1;
        case Skipped => skipped := skipped + [disks[i]];
        case Wiped => wiped := wiped + 1;
      }
    }
    r := AllDisksResult(wiped, |skipped|, errs);
  }

  lemma PrefixNext<T>(s: seq<T>, i: nat)
    requires i < |s|
    ensures s[..i + 1] == s[..i] + [s[i]]
  {
  }

  /** WipeAllDisks: every disk has one fate, only free disks are touched, and
      the wipe succeeds only without a failure and not when all it found was
      in use. */
  method WipeAllDisks(disks: seq<Device>, worlds: seq<World>, wipeWorks: seq<bool>)
    returns (fates: seq<Fate>, touched: seq<bool>, skipped: seq<Device>, r: Outcome)
    requires |worlds| == |wipeWorks| == |disks|
    ensures fates == Fates(disks, worlds, wipeWorks)
    ensures touched == seq(|disks|, i requires 0 <= i < |disks| => MayTouch(disks[i], worlds[i]))
    ensures skipped == SkippedOf(disks, fates, |disks|)
    ensures r == Done <==> Failed !in fates && (Wiped in fates || Skipped !in fates)
    ensures r == AllInUse <==> Failed !in fates && Wiped !in fates && Skipped in fates
    ensures r == AllFailed <==> Failed in fates && Wiped !in fates
  {
    fates, touched := [], [];
    ghost var all := Fates(disks, worlds, wipeWorks);
    ghost var free := seq(|disks|, i requires 0 <= i < |disks| => MayTouch(disks[i], worlds[i]));
    for i := 0 to |disks|
      invariant fates == all[..i] && touched == free[..i]
    {
      PrefixNext(all, i);
      PrefixNext(free, i);
      var fate, ran := WipeOne(disks[i], worlds[i], wipeWorks[i]);
      fates, touched := fates + [fate], touched + [ran];
    }
    skipped, r := Tally(disks, fates);
  }
}
