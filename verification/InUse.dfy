/** The in-use analysis before a wipe: which block devices back a mounted
    file system or an active swap area. */
module InUse {
  /** A kernel device name such as sda1; the empty name is never marked. */
  datatype Device = Device(name: string)

  const NO_DEVICE := Device("")

  /** A directory of names in sysfs. */
  datatype Listing = Missing | Unreadable | Names(list: seq<Device>)

  /** The partition attribute, and for a partition the disk that its sysfs
      directory lies in. */
  datatype Partition = WholeDisk | PartitionOf(disk: Device) | StatFailed | DiskUnknown

  datatype BlockDevice = BlockDevice(slaves: Listing, partition: Partition)

  /** The sysfs entry of a device number. */
  datatype Numbered = Found(d: Device) | NotFound | LinkFailed

  /** One mountinfo line: its device number, the devices that its source
      names (none without a /dev source), and the name a btrfs is looked up
      by. */
  datatype Mount = Mount(number: Numbered, sources: seq<Device>, isBtrfs: bool, source: Device, reason: string)

  datatype BtrfsListing = NoBtrfs | BtrfsUnreadable | Filesystems(devices: seq<Listing>)

  datatype Swap = Swap(d: Device, reason: string)

  /** What the check reads. A read error of the mount or swap table is
      readable == false. */
  datatype World = World(
    readable: bool,
    devices: map<Device, BlockDevice>,
    mounts: seq<Mount>,
    btrfs: BtrfsListing,
    swaps: seq<Swap>,
    links: map<Device, Device>)

  /** blockName: the kernel name behind a /dev path. */
  function BlockName(w: World, d: Device): Device {
    if d in w.links then w.links[d] else d
  }

  /** A device that sysfs does not list has no slaves and is no partition. */
  function Info(w: World, d: Device): BlockDevice {
    if d in w.devices then w.devices[d] else BlockDevice(Missing, WholeDisk)
  }

  function ListOf(l: Listing): seq<Device> {
    if l.Names? then l.list else []
  }

  /** e lies below d: a slave of d, or the disk of partition d. */
  predicate Edge(w: World, d: Device, e: Device) {
    e != NO_DEVICE && (e in ListOf(Info(w, d).slaves) || Info(w, d).partition == PartitionOf(e))
  }

  predicate ReadsFail(w: World, d: Device) {
    Info(w, d).slaves.Unreadable? || Info(w, d).partition in {StatFailed, DiskUnknown}
  }

  /** A path of edges from its first to its last device. */
  ghost predicate Path(w: World, p: seq<Device>) {
    p != [] && p[0] != NO_DEVICE && forall i :: 0 <= i < |p| - 1 ==> Edge(w, p[i], p[i + 1])
  }

  ghost predicate Reaches(w: World, a: Device, b: Device) {
    exists p :: Path(w, p) && p[0] == a && p[|p| - 1] == b
  }

  lemma ReachesSelf(w: World, a: Device)
    requires a != NO_DEVICE
    ensures Reaches(w, a, a)
  {
    assert Path(w, [a]);
  }

  lemma ReachesNext(w: World, a: Device, b: Device, c: Device)
    requires a != NO_DEVICE && Edge(w, a, b) && Reaches(w, b, c)
    ensures Reaches(w, a, c)
  {
    var p :| Path(w, p) && p[0] == b && p[|p| - 1] == c;
    var q := [a] + p;
    forall i | 0 <= i < |q| - 1
      ensures Edge(w, q[i], q[i + 1])
    {
      assert i > 0 ==> Edge(w, p[i - 1], p[i - 1 + 1]);
    }
    assert Path(w, q);
  }

  ghost predicate ClosedUnder(w: World, s: set<Device>) {
    forall d, e :: d in s && Edge(w, d, e) ==> e in s
  }

  lemma {:induction false} ClosedHoldsPath(w: World, s: set<Device>, p: seq<Device>)
    requires ClosedUnder(w, s) && Path(w, p) && p[0] in s
    ensures p[|p| - 1] in s
    decreases |p|
  {
    if |p| > 1 {
      var q := p[1..];
      assert Edge(w, p[0], p[0 + 1]);
      forall i | 0 <= i < |q| - 1
        ensures Edge(w, q[i], q[i + 1])
      {
        assert Edge(w, p[i + 1], p[i + 1 + 1]);
      }
      ClosedHoldsPath(w, s, q);
    }
  }

  /** Every name that a walk can meet. */
  ghost function Universe(w: World, starts: set<Device>): set<Device> {
    starts + w.devices.Keys + (set d, e | d in w.devices && e in ListOf(w.devices[d].slaves) :: e)
    + (set d | d in w.devices && w.devices[d].partition.PartitionOf? :: w.devices[d].partition.disk)
  }

  lemma UniverseClosed(w: World, starts: set<Device>)
    ensures ClosedUnder(w, Universe(w, starts))
  {
  }

  // ----- what counts as in use

  /** The file systems that list the device. */
  ghost predicate BtrfsMember(w: World, name: Device, d: Device) {
    w.btrfs.Filesystems? && exists l :: l in w.btrfs.devices && name in ListOf(l) && d in ListOf(l)
  }

  ghost predicate MountSeed(w: World, m: Mount, d: Device) {
    m.number == Found(d) || d in m.sources || (m.isBtrfs && BtrfsMember(w, m.source, d))
  }

  ghost predicate Seed(w: World, d: Device) {
    (exists m :: m in w.mounts && MountSeed(w, m, d)) || (exists s :: s in w.swaps && s.d == d)
  }

  /** The device backs a mounted file system or an active swap area. */
  ghost predicate Backs(w: World, d: Device) {
    exists s :: Seed(w, s) && Reaches(w, s, d)
  }

  ghost predicate BtrfsReadable(w: World) {
    !w.btrfs.BtrfsUnreadable? && (w.btrfs.Filesystems? ==> forall l :: l in w.btrfs.devices ==> !l.Unreadable?)
  }

  ghost predicate MountUncheckable(w: World, m: Mount) {
    || m.number.LinkFailed?
    || (m.isBtrfs && !BtrfsReadable(w))
    || exists s, d :: MountSeed(w, m, s) && Reaches(w, s, d) && ReadsFail(w, d)
  }

  /** Every read that the check makes works. */
  ghost predicate Checkable(w: World) {
    && w.readable
    && (forall m :: m in w.mounts ==> !m.number.LinkFailed? && (m.isBtrfs ==> BtrfsReadable(w)))
    && (forall d :: Backs(w, d) ==> !ReadsFail(w, d))
  }

  /** The map that the marking fills: a device and why it is busy. It is also
      the set of visited devices. */
  ghost predicate ReachedFrom(w: World, starts: set<Device>, d: Device) {
    exists s :: s in starts && Reaches(w, s, d)
  }

  /** The mount itself can be checked. */
  ghost predicate MountOk(w: World, m: Mount) {
    !m.number.LinkFailed? && (m.isBtrfs ==> BtrfsReadable(w))
  }

  /** d is in one of the first i file systems that hold name. */
  ghost predicate MemberBefore(fs: seq<Listing>, i: nat, name: Device, d: Device)
    requires i <= |fs|
  {
    exists j :: 0 <= j < i && name in ListOf(fs[j]) && d in ListOf(fs[j])
  }

  lemma MemberNext(fs: seq<Listing>, i: nat, name: Device)
    requires i < |fs|
    ensures forall d :: MemberBefore(fs, i + 1, name, d) <==>
      MemberBefore(fs, i, name, d) || (name in ListOf(fs[i]) && d in ListOf(fs[i]))
  {
  }

  lemma MembersAll(w: World, name: Device)
    requires w.btrfs.Filesystems?
    ensures forall d :: MemberBefore(w.btrfs.devices, |w.btrfs.devices|, name, d) <==> BtrfsMember(w, name, d)
  {
  }

  /** One of the first i mounts starts at d. */
  ghost predicate SeedBefore(w: World, i: nat, d: Device)
    requires i <= |w.mounts|
  {
    exists j :: 0 <= j < i && MountSeed(w, w.mounts[j], d)
  }

  lemma SeedNext(w: World, i: nat)
    requires i < |w.mounts|
    ensures forall d :: SeedBefore(w, i + 1, d) <==> SeedBefore(w, i, d) || MountSeed(w, w.mounts[i], d)
  {
  }

  lemma SeedsAll(w: World)
    ensures forall d :: SeedBefore(w, |w.mounts|, d) <==> exists m :: m in w.mounts && MountSeed(w, m, d)
  {
  }

  lemma MountFails(w: World, m: Mount)
    requires m in w.mounts && MountUncheckable(w, m)
    ensures !Checkable(w)
  {
    if !m.number.LinkFailed? && !(m.isBtrfs && !BtrfsReadable(w)) {
      var s, d :| MountSeed(w, m, s) && Reaches(w, s, d) && ReadsFail(w, d);
      assert Seed(w, s) && Backs(w, d);
    }
  }

  lemma ReachesEdge(w: World, a: Device, b: Device, c: Device)
    requires Reaches(w, a, b) && Edge(w, b, c)
    ensures Reaches(w, a, c)
  {
    var p :| Path(w, p) && p[0] == a && p[|p| - 1] == b;
    var q := p + [c];
    forall i | 0 <= i < |q| - 1
      ensures Edge(w, q[i], q[i + 1])
    {
      assert i < |p| - 1 ==> Edge(w, p[i], p[i + 1]);
    }
    assert Path(w, q);
  }

  lemma StartsClosed(w: World, starts: set<Device>, s: set<Device>)
    requires forall d :: d in s <==> exists x :: x in starts && Reaches(w, x, d)
    ensures ClosedUnder(w, s)
  {
    forall d, e | d in s && Edge(w, d, e)
      ensures e in s
    {
      var x :| x in starts && Reaches(w, x, d);
      ReachesEdge(w, x, d, e);
    }
  }

  class Scan {
    var busy: map<Device, string>

    constructor ()
      ensures busy == map[]
    {
      busy := map[];
    }

    /** Everything added since was is reachable from a start, is readable and
        has its successors marked; a failed read shows up below a start. */
    ghost predicate Grown(w: World, was: map<Device, string>, start: Device, ok: bool)
      reads this
    {
      && (forall d :: d in was ==> d in busy && busy[d] == was[d])
      && (forall d :: d in busy && d !in was ==> Reaches(w, start, d))
      && (ok ==> start == NO_DEVICE || start in busy)
      && (ok ==> forall d :: d in busy && d !in was ==> !ReadsFail(w, d))
      && (ok ==> forall d, e :: d in busy && d !in was && Edge(w, d, e) ==> e in busy)
      && (!ok ==> exists d :: Reaches(w, start, d) && ReadsFail(w, d))
    }

    /** The walk is inside start: everything else that it added is done. */
    ghost predicate Inside(w: World, was: map<Device, string>, start: Device)
      reads this
    {
      && (forall d :: d in was ==> d in busy && busy[d] == was[d])
      && start in busy
      && (forall d :: d in busy && d !in was ==> Reaches(w, start, d))
      && (forall d :: d in busy && d !in was && d != start ==> !ReadsFail(w, d))
      && (forall d, e :: d in busy && d !in was && d != start && Edge(w, d, e) ==> e in busy)
    }

    /** One successor of name. */
    method MarkBelow(w: World, name: Device, next: Device, reason: string, ghost all: set<Device>,
            ghost was: map<Device, string>)
      returns (ok: bool)
      requires ClosedUnder(w, all) && name in all && name != NO_DEVICE && name !in was && Inside(w, was, name)
      requires next == NO_DEVICE || Edge(w, name, next)
      modifies this
      ensures forall d :: d in old(busy) ==> d in busy
      ensures ok ==> Inside(w, was, name) && (next == NO_DEVICE || next in busy)
      ensures !ok ==> exists d :: Reaches(w, name, d) && ReadsFail(w, d)
      ensures forall d :: d in was ==> d in busy && busy[d] == was[d]
      ensures forall d :: d in busy && d !in was ==> Reaches(w, name, d)
      decreases all - was.Keys, 0, 0
    {
      ok := MarkBusy(w, next, reason, all);
      forall d | next != NO_DEVICE && Reaches(w, next, d)
        ensures Reaches(w, name, d)
      {
        ReachesNext(w, name, next, d);
      }
    }

    method MarkSlaves(w: World, name: Device, slaves: seq<Device>, reason: string, ghost all: set<Device>,
            ghost was: map<Device, string>)
      returns (ok: bool)
      requires ClosedUnder(w, all) && name in all && name != NO_DEVICE && name !in was && Inside(w, was, name)
      requires forall s :: s in slaves ==> s == NO_DEVICE || Edge(w, name, s)
      modifies this
      ensures ok ==> Inside(w, was, name) && forall s :: s in slaves ==> s == NO_DEVICE || s in busy
      ensures !ok ==> exists d :: Reaches(w, name, d) && ReadsFail(w, d)
      ensures forall d :: d in was ==> d in busy && busy[d] == was[d]
      ensures forall d :: d in busy && d !in was ==> Reaches(w, name, d)
      decreases all - was.Keys, 0, 1
    {
      for i := 0 to |slaves|
        invariant Inside(w, was, name)
        invariant forall j :: 0 <= j < i ==> slaves[j] == NO_DEVICE || slaves[j] in busy
      {
        ok := MarkBelow(w, name, slaves[i], reason, all, was);
        if !ok {
          return;
        }
      }
      ok := true;
    }

    /** markBusy: the device, the devices below it and, for a partition, its
        disk. */
    method MarkBusy(w: World, name: Device, reason: string, ghost all: set<Device>) returns (ok: bool)
      requires ClosedUnder(w, all) && (name == NO_DEVICE || name in all)
      modifies this
      ensures Grown(w, old(busy), name, ok)
      decreases all - busy.Keys, 1
    {
      if name in busy || name == NO_DEVICE {
        return true;
      }
      ghost var was := busy;
      ReachesSelf(w, name);
      busy := busy[name := reason];
      var info := Info(w, name);
      if info.slaves.Unreadable? {
        return false;
      }
      ok := MarkSlaves(w, name, ListOf(info.slaves), reason, all, was);
      if !ok || info.partition == WholeDisk {
        return;
      }
      if !info.partition.PartitionOf? {
        return false;
      }
      ok := MarkBelow(w, name, info.partition.disk, reason, all, was);
    }

    /** The marking after some starts: exactly what they reach, all of it
        readable. */
    ghost predicate Exact(w: World, starts: set<Device>)
      reads this
    {
      && (forall d :: d in busy <==> ReachedFrom(w, starts, d))
      && (forall d :: d in busy ==> !ReadsFail(w, d))
    }

    /** A start of the walk: one more device that is in use. */
    method MarkStart(w: World, name: Device, reason: string, ghost starts: set<Device>) returns (ok: bool)
      requires Exact(w, starts)
      modifies this
      ensures ok ==> Exact(w, starts + {name})
      ensures !ok ==> exists d :: Reaches(w, name, d) && ReadsFail(w, d)
    {
      ghost var all := Universe(w, starts + {name});
      UniverseClosed(w, starts + {name});
      ghost var was := busy;
      assert ClosedUnder(w, was.Keys) by {
        StartsClosed(w, starts, was.Keys);
      }
      ok := MarkBusy(w, name, reason, all);
      if ok {
        assert ClosedUnder(w, busy.Keys);
        forall d
          ensures d in busy <==> exists s :: s in starts + {name} && Reaches(w, s, d)
        {
          if exists s :: s in starts + {name} && Reaches(w, s, d) {
            var s :| s in starts + {name} && Reaches(w, s, d);
            var p :| Path(w, p) && p[0] == s && p[|p| - 1] == d;
            if s in starts {
              assert d in was;
            } else {
              ClosedHoldsPath(w, busy.Keys, p);
            }
          }
        }
      }
    }

    method MarkList(w: World, list: seq<Device>, reason: string, ghost starts: set<Device>)
      returns (ok: bool, ghost now: set<Device>)
      requires Exact(w, starts)
      modifies this
      ensures ok ==> Exact(w, now) && forall d :: d in now <==> d in starts || d in list
      ensures !ok ==> exists s, d :: s in list && Reaches(w, s, d) && ReadsFail(w, d)
    {
      now := starts;
      for i := 0 to |list|
        invariant Exact(w, now) && forall d :: d in now <==> d in starts || d in list[..i]
      {
        ok := MarkStart(w, list[i], reason, now);
        if !ok {
          return;
        }
        now := now + {list[i]};
      }
      ok := true;
    }

    /** markBtrfsMembers: every device of the file systems with this device. */
    method MarkBtrfsMembers(w: World, name: Device, reason: string, ghost starts: set<Device>)
      returns (ok: bool, ghost now: set<Device>)
      requires Exact(w, starts)
      modifies this
      ensures ok ==> BtrfsReadable(w) && Exact(w, now) && forall d :: d in now <==>
        d in starts || BtrfsMember(w, name, d)
      ensures !ok ==> !BtrfsReadable(w) || exists s, d :: BtrfsMember(w, name, s) && Reaches(w, s, d) && ReadsFail(w, d)
    {
      now := starts;
      if !w.btrfs.Filesystems? {
        return w.btrfs.NoBtrfs?, now;
      }
      var fs := w.btrfs.devices;
      for i := 0 to |fs|
        invariant Exact(w, now)
        invariant forall j :: 0 <= j < i ==> !fs[j].Unreadable?
        invariant forall d :: d in now <==> d in starts || MemberBefore(fs, i, name, d)
      {
        MemberNext(fs, i, name);
        if fs[i].Unreadable? {
          return false, now;
        }
        if name !in ListOf(fs[i]) {
          continue;
        }
        ok, now := MarkList(w, ListOf(fs[i]), reason, now);
        if !ok {
          return;
        }
      }
      MembersAll(w, name);
      ok := true;
    }

    /** One line of markMounts. */
    method MarkMount(w: World, m: Mount, ghost starts: set<Device>) returns (ok: bool, ghost now: set<Device>)
      requires Exact(w, starts)
      modifies this
      ensures ok ==> MountOk(w, m)
      ensures ok ==> Exact(w, now) && forall d :: d in now <==> d in starts || MountSeed(w, m, d)
      ensures !ok ==> MountUncheckable(w, m)
    {
      now := starts;
      if m.number.LinkFailed? {
        return false, now;
      }
      if m.number.Found? {
        ok := MarkStart(w, m.number.d, m.reason, now);
        if !ok {
          return;
        }
        now := now + {m.number.d};
      }
      ok, now := MarkList(w, m.sources, m.reason, now);
      if ok && m.isBtrfs {
        ok, now := MarkBtrfsMembers(w, m.source, m.reason, now);
      }
    }

    method MarkMounts(w: World) returns (ok: bool, ghost now: set<Device>)
      requires busy == map[]
      modifies this
      ensures ok ==> forall m :: m in w.mounts ==> MountOk(w, m)
      ensures ok ==> Exact(w, now) && forall d :: d in now <==> exists m :: m in w.mounts && MountSeed(w, m, d)
      ensures !ok ==> !Checkable(w)
    {
      now := {};
      for i := 0 to |w.mounts|
        invariant Exact(w, now)
        invariant forall j :: 0 <= j < i ==> MountOk(w, w.mounts[j])
        invariant forall d :: d in now <==> SeedBefore(w, i, d)
      {
        SeedNext(w, i);
        ok, now := MarkMount(w, w.mounts[i], now);
        if !ok {
          MountFails(w, w.mounts[i]);
          return;
        }
      }
      SeedsAll(w);
      ok := true;
    }

    /** busyDevices: it succeeds exactly when every read works, and then the
        keys of busy are the devices that back a mount or a swap. */
    method BusyDevices(w: World) returns (ok: bool)
      requires busy == map[]
      modifies this
      ensures ok <==> Checkable(w)
      ensures ok ==> forall d :: d in busy <==> Backs(w, d)
    {
      if !w.readable {
        return false;
      }
      ghost var now;
      ok, now := MarkMounts(w);
      if !ok {
        return;
      }
      for i := 0 to |w.swaps|
        invariant Exact(w, now)
        invariant forall d :: d in now <==>
          (exists m :: m in w.mounts && MountSeed(w, m, d)) || exists s :: s in w.swaps[..i] && s.d == d
      {
        assert w.swaps[..i + 1] == w.swaps[..i] + [w.swaps[i]];
        ok := MarkStart(w, w.swaps[i].d, w.swaps[i].reason, now);
        if !ok {
          assert Seed(w, w.swaps[i].d);
          return;
        }
        now := now + {w.swaps[i].d};
      }
      assert w.swaps[..|w.swaps|] == w.swaps;
      ok := true;
    }
  }
}
