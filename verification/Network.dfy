/** kernel/network/network_stack.c over the heap: the device registry as an intrusive linked list, the
    socket table, and the path of a packet from `nova_send` to the driver. */
module Networking {
  import opened Words
  import opened Packets
  import D = Descriptors
  import R = RegistryRuns

  const IFF_UP: bv32 := 0x1
  const IFF_LOOPBACK: bv32 := 0x8
  const IFF_RUNNING: bv32 := 0x40

  datatype Ops = Ops(open: Option<Driver>, startXmit: Option<Driver>)

  class NetDevice {
    var name: string
    var mtu: nat
    var flags: bv32
    var ops: Option<Ops>
    var stats: Stats
    var next: NetDevice?

    constructor ()
      ensures name == "" && mtu == 0 && flags == 0 && ops == None && stats == ZERO && next == null
    {
      name, mtu, flags, ops, stats, next := "", 0, 0, None, ZERO, null;
    }
  }

  class Socket {
    const family: int
    const kind: int
    const protocol: int
    var state: int
    var dev: NetDevice?

    constructor (family: int, kind: int, protocol: int)
      ensures this.family == family && this.kind == kind && this.protocol == protocol
      ensures state == 0 && dev == null
    {
      this.family, this.kind, this.protocol := family, kind, protocol;
      state, dev := 0, null;
    }
  }

  class SkBuff {
    var data: seq<Byte>
    var len: Word64
    var dev: NetDevice?
    var error: int

    constructor (size: Word64)
      ensures data == seq(if size == 0 then 1 else size, i => 0)
      ensures len == size && dev == null && error == 0
    {
      data := seq(if size == 0 then 1 else size, i => 0);
      len, dev, error := size, null, 0;
    }
  }

  // ---------------------------------------------------------------- lists of devices

  ghost function Nth(ds: seq<NetDevice>, i: nat): NetDevice? {
    if i < |ds| then ds[i] else null
  }

  /** Following `next` from `head` visits exactly `ds`, in order, and then ends. */
  ghost predicate Chain(head: NetDevice?, ds: seq<NetDevice>) reads ds`next {
    head == Nth(ds, 0) && forall i :: 0 <= i < |ds| ==> ds[i].next == Nth(ds, i + 1)
  }

  ghost predicate DistinctNames(ds: seq<NetDevice>) reads ds`name {
    forall i, j {:trigger ds[i].name, ds[j].name} :: 0 <= i < j < |ds| ==> ds[i].name != ds[j].name
  }

  ghost predicate Named(ds: seq<NetDevice>, name: string) reads ds`name {
    exists i {:trigger ds[i].name} :: 0 <= i < |ds| && ds[i].name == name
  }

  /** The list without its `k`-th element. */
  ghost function Cut(ds: seq<NetDevice>, k: nat): (r: seq<NetDevice>)
    requires k < |ds|
    ensures |r| == |ds| - 1
    ensures forall i :: 0 <= i < |r| ==> r[i] == if i < k then ds[i] else ds[i + 1]
  {
    ds[..k] + ds[k + 1..]
  }

  lemma NamesTellApart(ds: seq<NetDevice>)
    requires DistinctNames(ds)
    ensures forall i, j :: 0 <= i < j < |ds| ==> ds[i] != ds[j]
  {
    forall i, j | 0 <= i < j < |ds| ensures ds[i] != ds[j] {
      assert ds[i].name != ds[j].name;
    }
  }

  lemma CutKeepsNames(ds: seq<NetDevice>, k: nat)
    requires DistinctNames(ds) && k < |ds|
    ensures DistinctNames(Cut(ds, k)) && ds[k] !in Cut(ds, k)
  {
    NamesTellApart(ds);
  }

  /** Where `d` stands in the list; `|ds|` when it is not there. */
  ghost function Position(ds: seq<NetDevice>, d: NetDevice?): (k: nat)
    ensures k <= |ds|
    ensures k < |ds| ==> ds[k] == d
    ensures k == |ds| ==> d !in ds
  {
    if ds == [] || ds[0] == d then 0 else 1 + Position(ds[1..], d)
  }

  /** Redirecting the link before the `k`-th device past it leaves a list without it. */
  lemma BypassedChain(ds: seq<NetDevice>, k: nat)
    requires k < |ds|
    requires forall i :: 0 <= i < |ds| && i != k && i + 1 != k ==> ds[i].next == Nth(ds, i + 1)
    requires k > 0 ==> ds[k - 1].next == Nth(ds, k + 1)
    ensures Chain(if k == 0 then Nth(ds, 1) else ds[0], Cut(ds, k))
  {
    var r := Cut(ds, k);
    forall i | 0 <= i < |r| ensures r[i].next == Nth(r, i + 1) {
      assert r[i] == ds[if i < k then i else i + 1];
    }
  }

  /** Ending the chain at the `k`-th device leaves the devices up to it. */
  lemma EndedChain(head: NetDevice?, ds: seq<NetDevice>, k: nat)
    requires k < |ds| && head == ds[0] && ds[k].next == null
    requires forall i :: 0 <= i < k ==> ds[i].next == Nth(ds, i + 1)
    ensures Chain(head, ds[..k + 1])
  {
  }

  /** Without the devices behind the `k`-th, the names are still apart and its own is still there. */
  lemma PrefixNames(ds: seq<NetDevice>, k: nat)
    requires k < |ds| && DistinctNames(ds)
    ensures DistinctNames(ds[..k + 1]) && ds[k] in ds[..k + 1]
    ensures Named(ds[..k + 1], ds[k].name)
  {
    var r := ds[..k + 1];
    assert r[k] == ds[k] && r[k].name == ds[k].name;
  }

  // ---------------------------------------------------------------- the code

  class NetworkStack {
    var registry: NetDevice?
    const table: array<Socket?>
    var nextFd: nat
    var initialized: bool

    /** The registered devices, most recently registered first. */
    ghost var devices: seq<NetDevice>
    /** The packet buffers that are allocated, and how many were ever allocated and freed. */
    ghost var live: set<SkBuff>
    ghost var made: nat
    ghost var freed: nat

    /** The list from `registry` is finite, without cycles, and without two devices of one name. */
    ghost predicate Listed() reads this`registry, this`devices, devices`next, devices`name {
      Chain(registry, devices) && DistinctNames(devices)
    }

    ghost predicate Tabled() reads this`nextFd, table {
      && table.Length == D.SOCKET_TABLE_SIZE && 1 <= nextFd <= table.Length && table[0] == null
      && (forall fd :: nextFd <= fd < table.Length ==> table[fd] == null)
      && (forall i, j :: 0 <= i < j < table.Length && table[i] != null ==> table[i] != table[j])
    }

    ghost predicate Owned() reads this`live, this`made, this`freed {
      made == freed + |live|
    }

    ghost predicate Valid() reads this, devices`next, devices`name, table {
      Listed() && Tabled() && Owned()
    }

    ghost function Fds(): D.Fds reads this, table {
      D.Fds(initialized, nextFd, set fd: nat | fd < table.Length && table[fd] != null)
    }

    /** Static storage before the first call. */
    constructor ()
      ensures Valid() && fresh(table)
      ensures Fds() == D.COLD && devices == [] && live == {} && made == freed == 0
    {
      registry, nextFd, initialized, devices := null, 1, false, [];
      live, made, freed := {}, 0, 0;
      table := new Socket?[D.SOCKET_TABLE_SIZE](i => null);
    }

    // ---------------------------------------------------------------- the registry

    method NetworkInit()
      requires Valid()
      modifies this`registry, this`nextFd, this`initialized, this`devices, table
      ensures Valid()
      ensures devices == [] && Fds() == D.Fds.Init()
    {
      forall i | 0 <= i < table.Length {
        table[i] := null;
      }
      nextFd := 1;
      initialized := true;
      registry := null;
      devices := [];
    }

    /** Every node that was registered ends with a clear `next`. */
    method NetworkShutdown()
      requires Valid()
      modifies this`registry, this`initialized, this`devices, devices`next
      ensures Valid()
      ensures devices == [] && Fds() == old(Fds()).Shutdown()
      ensures forall d :: d in old(devices) ==> d.next == null
    {
      ClearList();
      initialized := false;
    }

    method ClearList()
      requires Listed()
      modifies this`registry, this`devices, devices`next
      ensures Listed() && devices == []
      ensures forall d :: d in old(devices) ==> d.next == null
    {
      NamesTellApart(devices);
      var dev := registry;
      ghost var k := 0;
      while dev != null
        invariant k <= |devices| && dev == Nth(devices, k)
        invariant registry == old(registry) && devices == old(devices)
        invariant forall i :: 0 <= i < k ==> devices[i].next == null
        invariant forall i :: k <= i < |devices| ==> devices[i].next == Nth(devices, i + 1)
        decreases |devices| - k
      {
        var next := dev.next;
        dev.next := null;
        dev := next;
        k := k + 1;
      }
      registry := null;
      devices := [];
    }

    method Find(name: string) returns (d: NetDevice?)
      requires Listed()
      ensures d == null <==> !Named(devices, name)
      ensures d != null ==> d in devices && d.name == name
    {
      d := registry;
      ghost var k := 0;
      while d != null
        invariant k <= |devices| && d == Nth(devices, k)
        invariant forall i :: 0 <= i < k ==> devices[i].name != name
        decreases |devices| - k
      {
        if d.name == name {
          return;
        }
        d := d.next;
        k := k + 1;
      }
    }

    /** `open` of the registered drivers only raises flags. */
    method Open(driver: Driver, dev: NetDevice)
      modifies dev`flags
      ensures dev.flags == OpenFlags(driver, old(dev.flags))
    {
      match driver
      case Loopback => dev.flags := dev.flags | (IFF_RUNNING | IFF_LOOPBACK);
      case NicStub => dev.flags := dev.flags | IFF_RUNNING;
      case Refusing =>
    }

    static function OpenFlags(driver: Driver, flags: bv32): bv32 {
      match driver
      case Loopback => flags | (IFF_RUNNING | IFF_LOOPBACK)
      case NicStub => flags | IFF_RUNNING
      case Refusing => flags
    }

    /** Puts a device whose name is free at the front. */
    method Link(dev: NetDevice)
      requires Listed() && !Named(devices, dev.name)
      modifies this`registry, this`devices, dev`next
      ensures Listed() && devices == [dev] + old(devices) && dev !in old(devices)
    {
      dev.next := registry;
      registry := dev;
      devices := [dev] + devices;
      assert forall i :: 0 < i < |devices| ==> devices[i] == old(devices)[i - 1];
    }

    /** Takes `curr`, the `k`-th device, out of the chain. */
    method Unlink(prev: NetDevice?, curr: NetDevice, ghost k: nat)
      requires Chain(registry, devices) && k < |devices| && devices[k] == curr
      requires forall i, j :: 0 <= i < j < |devices| ==> devices[i] != devices[j]
      requires prev == if k == 0 then null else devices[k - 1]
      modifies this`registry, this`devices, devices`next
      ensures devices == Cut(old(devices), k)
      ensures Chain(registry, devices) && curr.next == null
    {
      ghost var ds := devices;
      if prev == null {
        registry := curr.next;
      } else {
        prev.next := curr.next;
      }
      curr.next := null;
      devices := Cut(ds, k);
      BypassedChain(ds, k);
    }

    /** Whether a registered device has this name. */
    method Taken(name: string) returns (r: bool)
      requires Listed()
      ensures r <==> Named(devices, name)
    {
      var curr := registry;
      ghost var k := 0;
      while curr != null
        invariant k <= |devices| && curr == Nth(devices, k)
        invariant forall i :: 0 <= i < k ==> devices[i].name != name
        decreases |devices| - k
      {
        if curr.name == name {
          return true;
        }
        curr := curr.next;
        k := k + 1;
      }
      r := false;
    }

    /** A device goes to the front of the list, unless it has no name or its name is taken. In
        particular a device that is already registered is refused, by its own name. */
    method Register(dev: NetDevice?) returns (r: int)
      requires Listed()
      modifies this`registry, this`devices, if dev == null then {} else {dev}
      ensures Listed()
      ensures r == 0 || r == D.FAILED
      ensures r == D.FAILED <==> dev == null || old(dev.name) == "" || old(Named(devices, dev.name))
      ensures r == D.FAILED ==> devices == old(devices) && registry == old(registry)
      ensures r == D.FAILED && dev != null ==> unchanged(dev)
      ensures r == 0 ==>
        && dev !in old(devices) && devices == [dev] + old(devices)
        && dev.name == old(dev.name) && dev.mtu == old(dev.mtu)
        && dev.ops == old(dev.ops) && dev.stats == old(dev.stats)
        && dev.flags == if dev.ops.Some? && dev.ops.value.open.Some?
                        then OpenFlags(dev.ops.value.open.value, old(dev.flags)) else old(dev.flags)
    {
      if dev == null || dev.name == "" {
        return D.FAILED;
      }
      var taken := Taken(dev.name);
      if taken {
        return D.FAILED;
      }
      Link(dev);
      if dev.ops.Some? && dev.ops.value.open.Some? {
        Open(dev.ops.value.open.value, dev);
      }
      r := 0;
    }

    /** The node and the one before it, or NULL at the end of the list. */
    method Locate(dev: NetDevice) returns (prev: NetDevice?, curr: NetDevice?, ghost k: nat)
      requires Chain(registry, devices)
      ensures k <= |devices| && dev !in devices[..k]
      ensures curr == Nth(devices, k) && (curr == null || curr == dev)
      ensures curr == null <==> dev !in devices
      ensures prev == if k == 0 then null else devices[k - 1]
    {
      prev, curr, k := null, registry, 0;
      while curr != null
        invariant k <= |devices| && curr == Nth(devices, k)
        invariant dev !in devices[..k]
        invariant prev == if k == 0 then null else devices[k - 1]
        decreases |devices| - k
      {
        if curr == dev {
          return;
        }
        prev := curr;
        curr := curr.next;
        k := k + 1;
      }
      assert devices[..|devices|] == devices;
    }

    /** Exactly that node leaves the list, the order of the rest stays, and its `next` is clear. */
    method Unregister(dev: NetDevice?) returns (r: int)
      requires Listed()
      modifies this`registry, this`devices, devices`next
      ensures Listed()
      ensures r == if dev != null && dev in old(devices) then 0 else D.FAILED
      ensures devices == if dev == null then old(devices) else R.Without(old(devices), dev)
      ensures r == 0 ==> dev.next == null && dev !in devices
      ensures r == D.FAILED ==> registry == old(registry) && forall d :: d in devices ==> d.next == old(d.next)
    {
      if dev == null {
        return D.FAILED;
      }
      ghost var ds := devices;
      var prev, curr, k := Locate(dev);
      R.WithoutAt<NetDevice?>(ds, dev, k);
      if curr == null {
        return D.FAILED;
      }
      NamesTellApart(ds);
      Unlink(prev, curr, k);
      CutKeepsNames(ds, k);
      r := 0;
    }

    /** The device constructors wipe their static node and register it. Run again while the node is
        registered, the wipe cuts the list off behind it and the registration is refused: the registry
        survives only when nothing was registered before that node. */
    method Construct(dev: NetDevice, name: string, mtu: nat, flags: bv32, driver: Driver) returns (r: int)
      requires Listed() && name != ""
      requires dev in devices ==> dev.name == name
      modifies this`registry, this`devices, dev
      ensures Listed()
      ensures r == if old(Named(devices, name)) then D.FAILED else 0
      ensures r == 0 ==> devices == [dev] + old(devices)
      ensures dev.flags == if r == 0 then OpenFlags(driver, flags) else flags
      ensures r == D.FAILED ==>
        devices == old(devices)[..if dev in old(devices) then Position(old(devices), dev) + 1 else |old(devices)|]
      ensures r == D.FAILED ==> (devices == old(devices) <==>
        (dev !in old(devices) || dev == old(devices)[|old(devices)| - 1]))
      ensures dev.name == name && dev.mtu == mtu && dev.stats == ZERO
      ensures dev.ops == Some(Ops(Some(driver), Some(driver)))
    {
      Wipe(dev, name, mtu, flags, driver);
      r := Register(dev);
    }

    /** `memset` and the assignments that follow it. */
    static method Reset(dev: NetDevice, name: string, mtu: nat, flags: bv32, driver: Driver)
      modifies dev
      ensures dev.name == name && dev.mtu == mtu && dev.flags == flags && dev.stats == ZERO && dev.next == null
      ensures dev.ops == Some(Ops(Some(driver), Some(driver)))
    {
      dev.name, dev.mtu, dev.flags, dev.stats, dev.next := name, mtu, flags, ZERO, null;
      dev.ops := Some(Ops(Some(driver), Some(driver)));
    }

    method Wipe(dev: NetDevice, name: string, mtu: nat, flags: bv32, driver: Driver)
      requires Listed() && (dev in devices ==> dev.name == name)
      modifies this`devices, dev
      ensures Listed()
      ensures devices == old(devices)[..if dev in old(devices) then Position(old(devices), dev) + 1 else |old(devices)|]
      ensures dev in devices <==> dev in old(devices)
      ensures Named(devices, name) <==> old(Named(devices, name))
      ensures dev.name == name && dev.mtu == mtu && dev.flags == flags && dev.stats == ZERO
      ensures dev.ops == Some(Ops(Some(driver), Some(driver)))
    {
      ghost var ds, k := devices, Position(devices, dev);
      NamesTellApart(ds);
      Reset(dev, name, mtu, flags, driver);
      if dev in ds {
        devices := ds[..k + 1];
        EndedChain(registry, ds, k);
        PrefixNames(ds, k);
      }
    }

    method LoopbackInit(lo: NetDevice) returns (r: int)
      requires Listed() && (lo in devices ==> lo.name == "lo")
      modifies this`registry, this`devices, lo
      ensures Listed()
      ensures r == if old(Named(devices, "lo")) then D.FAILED else 0
      ensures r == 0 ==> devices == [lo] + old(devices)
      ensures r == D.FAILED ==>
        devices == old(devices)[..if lo in old(devices) then Position(old(devices), lo) + 1 else |old(devices)|]
      ensures lo.name == "lo" && lo.mtu == 65536 && lo.stats == ZERO
      ensures lo.flags == if r == 0 then IFF_LOOPBACK | IFF_UP | IFF_RUNNING else IFF_LOOPBACK | IFF_UP
      ensures lo.ops == Some(Ops(Some(Loopback), Some(Loopback)))
    {
      r := Construct(lo, "lo", 65536, IFF_LOOPBACK | IFF_UP, Loopback);
    }

    method NicStubInit(nic: NetDevice) returns (r: int)
      requires Listed() && (nic in devices ==> nic.name == "nic0")
      modifies this`registry, this`devices, nic
      ensures Listed()
      ensures r == if old(Named(devices, "nic0")) then D.FAILED else 0
      ensures r == 0 ==> devices == [nic] + old(devices)
      ensures r == D.FAILED ==>
        devices == old(devices)[..if nic in old(devices) then Position(old(devices), nic) + 1 else |old(devices)|]
      ensures nic.name == "nic0" && nic.mtu == 1500 && nic.stats == ZERO
      ensures nic.flags == IFF_UP | IFF_RUNNING
      ensures nic.ops == Some(Ops(Some(NicStub), Some(NicStub)))
    {
      r := Construct(nic, "nic0", 1500, IFF_UP | IFF_RUNNING, NicStub);
    }

    // ---------------------------------------------------------------- the socket table

    /** The socket behind a descriptor, as a set so that it can be a frame. */
    ghost function Behind(fd: int): (s: set<Socket>) reads table {
      if 0 < fd < table.Length && table[fd] != null then {table[fd]} else {}
    }

    method Lookup(fd: int) returns (s: Socket?)
      requires Valid()
      ensures s == null <==> !Fds().IsOpen(fd)
      ensures s != null ==> 0 < fd < table.Length && s == table[fd]
    {
      if fd <= 0 || fd >= table.Length {
        return null;
      }
      s := table[fd];
    }

    method InitializeOnce()
      requires Valid()
      modifies this`registry, this`nextFd, this`initialized, this`devices, table
      ensures Valid() && initialized
      ensures Fds() == if old(initialized) then old(Fds()) else D.Fds.Init()
      ensures devices == if old(initialized) then old(devices) else []
      ensures old(initialized) ==> forall i :: 0 <= i < table.Length ==> table[i] == old(table[i])
    {
      if !initialized {
        NetworkInit();
      }
    }

    /** `granted` tells whether `calloc` succeeds. */
    method OpenSocket(domain: int, kind: int, protocol: int, granted: bool) returns (fd: int)
      requires Valid()
      modifies this`registry, this`nextFd, this`initialized, this`devices, table
      ensures Valid()
      ensures (Fds(), fd) == old(Fds()).Socket(domain, kind, granted)
      ensures fd == (var n := if old(initialized) then old(nextFd) else 1;
                     if domain in {0, 1, 2, 10} && kind in {1, 2, 3, 5} && granted && n < 64 then n else -1)
      ensures devices == if old(initialized) then old(devices) else []
      ensures old(initialized) ==> forall i :: 0 <= i < table.Length && i != fd ==> table[i] == old(table[i])
      ensures fd > 0 ==> fd < table.Length && table[fd] != null && fresh(table[fd])
      ensures fd > 0 ==> table[fd].family == domain && table[fd].kind == kind && table[fd].protocol == protocol
      ensures fd > 0 ==> table[fd].state == 0 && (table[fd].dev == null <==> !Named(devices, "lo"))
      ensures fd > 0 && table[fd].dev != null ==> table[fd].dev in devices && table[fd].dev.name == "lo"
    {
      InitializeOnce();
      fd := OpenInTable(domain, kind, protocol, granted);
    }

    /** `nova_socket` once the table is initialised. */
    method OpenInTable(domain: int, kind: int, protocol: int, granted: bool) returns (fd: int)
      requires Valid() && initialized
      modifies this`nextFd, table
      ensures Valid()
      ensures (Fds(), fd) == old(Fds()).Socket(domain, kind, granted)
      ensures forall i :: 0 <= i < table.Length && i != fd ==> table[i] == old(table[i])
      ensures fd > 0 ==> fd < table.Length && table[fd] != null && fresh(table[fd])
      ensures fd > 0 ==> table[fd].family == domain && table[fd].kind == kind && table[fd].protocol == protocol
      ensures fd > 0 ==> table[fd].state == 0 && (table[fd].dev == null <==> !Named(devices, "lo"))
      ensures fd > 0 && table[fd].dev != null ==> table[fd].dev in devices && table[fd].dev.name == "lo"
    {
      if !D.KnownDomain(domain) || !D.KnownType(kind) {
        return D.FAILED;
      }
      if nextFd >= D.SOCKET_TABLE_SIZE {
        return D.FAILED;
      }
      fd := TakeNumber();
      if !granted {
        return D.FAILED;
      }
      ghost var open := Fds().open;
      Install(fd, domain, kind, protocol);
      assert Fds().open == open + {fd};
    }

    /** The next number, whose cell is still empty. */
    method TakeNumber() returns (fd: int)
      requires Tabled() && nextFd < D.SOCKET_TABLE_SIZE
      modifies this`nextFd
      ensures fd == old(nextFd) && table[fd] == null
      ensures Tabled() && Fds() == old(Fds()).(next := fd + 1)
    {
      ghost var open := Fds().open;
      fd := nextFd;
      nextFd := nextFd + 1;
      assert Fds().open == open;
    }

    /** A fresh socket, routed to lo where there is one, in an empty cell of the table. */
    method Install(fd: int, domain: int, kind: int, protocol: int)
      requires Listed() && Tabled() && 0 < fd < nextFd && table[fd] == null
      modifies table
      ensures Tabled()
      ensures forall i :: 0 <= i < table.Length && i != fd ==> table[i] == old(table[i])
      ensures table[fd] != null && fresh(table[fd]) && table[fd].state == 0
      ensures table[fd].family == domain && table[fd].kind == kind && table[fd].protocol == protocol
      ensures table[fd].dev == null <==> !Named(devices, "lo")
      ensures table[fd].dev != null ==> table[fd].dev in devices && table[fd].dev.name == "lo"
    {
      var lo := Find("lo");
      var sock := new Socket(domain, kind, protocol);
      sock.dev := lo;
      table[fd] := sock;
    }

    method Close(fd: int) returns (r: int)
      requires Valid()
      modifies table
      ensures Valid()
      ensures (Fds(), r) == old(Fds()).Close(fd)
      ensures forall i :: 0 <= i < table.Length && (i != fd || r == D.FAILED) ==> table[i] == old(table[i])
    {
      var s := Lookup(fd);
      if s == null {
        return D.FAILED;
      }
      ghost var open := Fds().open;
      table[fd] := null;
      assert Fds().open == open - {fd};
      r := 0;
    }

    /** A socket without a device is given lo, where there is one. */
    method RouteToLo(sock: Socket)
      requires Listed()
      modifies sock`dev
      ensures old(sock.dev) != null ==> sock.dev == old(sock.dev)
      ensures old(sock.dev) == null ==>
        if Named(devices, "lo") then sock.dev in devices && sock.dev.name == "lo" else sock.dev == null
    {
      if sock.dev == null {
        var lo := Find("lo");
        sock.dev := lo;
      }
    }

    /** On a descriptor that is not open nothing may change: the frame is empty. */
    method Connect(fd: int) returns (r: int)
      requires Valid()
      modifies Behind(fd)
      ensures Valid()
      ensures r == if Fds().IsOpen(fd) then 0 else D.FAILED
      ensures r == 0 ==> 0 < fd < table.Length && table[fd] != null && table[fd].state == 1
      ensures r == 0 && old(table[fd].dev) != null ==> table[fd].dev == old(table[fd].dev)
      ensures r == 0 && old(table[fd].dev) == null ==>
        if Named(devices, "lo") then table[fd].dev in devices && table[fd].dev.name == "lo" else table[fd].dev == null
    {
      var s := Lookup(fd);
      if s == null {
        return D.FAILED;
      }
      s.state := 1;
      RouteToLo(s);
      r := 0;
    }

    method Listen(fd: int) returns (r: int)
      requires Valid()
      modifies Behind(fd)
      ensures Valid()
      ensures r == if Fds().IsOpen(fd) then 0 else D.FAILED
      ensures r == 0 ==> 0 < fd < table.Length && table[fd] != null && table[fd].state == 2
      ensures r == 0 ==> table[fd].dev == old(table[fd].dev)
    {
      var s := Lookup(fd);
      if s == null {
        return D.FAILED;
      }
      s.state := 2;
      r := 0;
    }

    method ShutdownSocket(fd: int) returns (r: int)
      requires Valid()
      modifies Behind(fd)
      ensures Valid()
      ensures r == if Fds().IsOpen(fd) then 0 else D.FAILED
      ensures r == 0 ==> 0 < fd < table.Length && table[fd] != null && table[fd].state == 0
      ensures r == 0 ==> table[fd].dev == old(table[fd].dev)
    {
      var s := Lookup(fd);
      if s == null {
        return D.FAILED;
      }
      s.state := 0;
      r := 0;
    }

    // ---------------------------------------------------------------- packets

    /** `granted` tells whether both allocations succeed. */
    method AllocSkb(size: Word64, granted: bool) returns (skb: SkBuff?)
      requires Owned()
      modifies this`live, this`made
      ensures Owned()
      ensures skb == null <==> !granted
      ensures skb == null ==> live == old(live) && made == old(made)
      ensures skb != null ==> fresh(skb) && live == old(live) + {skb} && made == old(made) + 1
      ensures skb != null ==> skb.len == size && skb.dev == null && skb.error == 0
      ensures skb != null ==> skb.data == seq(if size == 0 then 1 else size, i => 0)
    {
      if !granted {
        return null;
      }
      var b := new SkBuff(size);
      live := live + {b};
      made := made + 1;
      skb := b;
    }

    /** Only a live buffer may be freed, and it is not live afterwards. */
    method FreeSkb(skb: SkBuff?)
      requires Owned() && (skb != null ==> skb in live)
      modifies this`live, this`freed
      ensures Owned()
      ensures skb == null ==> live == old(live) && freed == old(freed)
      ensures skb != null ==> live == old(live) - {skb} && freed == old(freed) + 1
    {
      if skb == null {
        return;
      }
      live := live - {skb};
      freed := freed + 1;
    }

    method NetifReceive(skb: SkBuff?) returns (r: int)
      requires skb != null ==> skb in live
      modifies if skb == null then {} else {skb}`error
      modifies if skb == null || skb.dev == null then {} else {skb.dev}`stats
      ensures r == if skb == null then D.FAILED else 0
      ensures skb != null ==> skb.error == 0
      ensures skb != null && skb.dev != null ==> skb.dev.stats == old(skb.dev.stats).Rx(skb.len)
    {
      if skb == null {
        return D.FAILED;
      }
      if skb.dev != null {
        skb.dev.stats := skb.dev.stats.Rx(skb.len);
      }
      skb.error := 0;
      r := 0;
    }

    /** The driver that would transmit for this device, if there is one. */
    static function XmitOf(dev: NetDevice?): Option<Driver> reads if dev == null then {} else {dev}`ops {
      if dev == null || dev.ops.None? then None else dev.ops.value.startXmit
    }

    method LoStartXmit(dev: NetDevice, skb: SkBuff) returns (r: int)
      requires skb in live && skb.dev == dev
      modifies dev`stats, skb`error
      ensures r == 0 && dev.stats == old(dev.stats).Xmit(Loopback, skb.len) && skb.error == 0
    {
      dev.stats := dev.stats.Tx(skb.len);
      dev.stats := dev.stats.Rx(skb.len);
      var _ := NetifReceive(skb);
      r := 0;
    }

    method NicStartXmit(dev: NetDevice, skb: SkBuff) returns (r: int)
      requires Owned() && skb in live
      modifies dev`stats, this`live, this`freed
      ensures Owned()
      ensures r == 0 && dev.stats == old(dev.stats).Xmit(NicStub, skb.len)
      ensures live == old(live) - {skb} && freed == old(freed) + 1
    {
      dev.stats := dev.stats.Tx(skb.len);
      FreeSkb(skb);
      r := 0;
    }

    /** Dispatch to the driver. A driver that accepts decides what becomes of the buffer: lo leaves it
        live, nic0 frees it; a refused buffer stays with the caller. */
    method DevQueueXmit(skb: SkBuff?) returns (r: int)
      requires Owned() && (skb != null ==> skb in live)
      modifies this`live, this`freed, if skb == null then {} else {skb}`error
      modifies if skb == null || skb.dev == null then {} else {skb.dev}`stats
      ensures Owned()
      ensures r == if skb != null && XmitOf(skb.dev) in {Some(Loopback), Some(NicStub)} then 0 else D.FAILED
      ensures skb != null && skb.dev != null ==>
        skb.dev.stats == match XmitOf(skb.dev) { case None => old(skb.dev.stats)
                                                 case Some(driver) => old(skb.dev.stats).Xmit(driver, skb.len) }
      ensures skb != null && XmitOf(skb.dev) == Some(NicStub) ==>
        live == old(live) - {skb} && freed == old(freed) + 1
      ensures skb == null || XmitOf(skb.dev) != Some(NicStub) ==> live == old(live) && freed == old(freed)
      ensures skb != null ==> skb.error == if XmitOf(skb.dev) == Some(Loopback) then 0 else old(skb.error)
    {
      if skb == null || skb.dev == null || skb.dev.ops.None? || skb.dev.ops.value.startXmit.None? {
        return D.FAILED;
      }
      match skb.dev.ops.value.startXmit.value
      case Loopback => r := LoStartXmit(skb.dev, skb);
      case NicStub => r := NicStartXmit(skb.dev, skb);
      case Refusing => r := D.FAILED;
    }

    /** What transmitting `buf` on `dev` comes to, by driver. */
    twostate predicate Transmitted(dev: NetDevice, buf: seq<Byte>, granted: bool, r: int)
      requires |buf| < TWO_TO_64
      reads this`live, this`made, this`freed, dev, live
    {
      match XmitOf(dev)
      case None => Untouched() && dev.stats == old(dev.stats) && r == D.FAILED
      case Some(driver) =>
        if !granted then Untouched() && dev.stats == old(dev.stats) && r == D.FAILED
        else
          && made == old(made) + 1 && dev.stats == old(dev.stats).Xmit(driver, |buf|)
          && match driver {
            case Loopback =>
              && r == |buf| && freed == old(freed)
              && exists p :: p in live && fresh(p) && live == old(live) + {p} && p.data == buf
                             && p.len == |buf| && p.dev == dev && p.error == 0
            case NicStub => r == |buf| && freed == old(freed) + 1 && live == old(live)
            case Refusing => r == D.FAILED && freed == old(freed) + 1 && live == old(live)
          }
    }

    twostate predicate Untouched()
      reads this`live, this`made, this`freed
    {
      live == old(live) && made == old(made) && freed == old(freed)
    }

    /** The second half of `nova_send`: a buffer is allocated, filled and queued. */
    method Transmit(dev: NetDevice, buf: seq<Byte>, granted: bool) returns (r: int)
      requires Owned() && 0 < |buf| < TWO_TO_64 && XmitOf(dev).Some?
      modifies this`live, this`made, this`freed, dev`stats
      ensures Owned()
      ensures Transmitted(dev, buf, granted, r)
    {
      var skb := AllocSkb(|buf|, granted);
      if skb == null {
        return D.FAILED;
      }
      skb.data := buf + skb.data[|buf|..];
      skb.len := |buf|;
      skb.dev := dev;
      var sent := DevQueueXmit(skb);
      if sent != 0 {
        FreeSkb(skb);
        return D.FAILED;
      }
      assert XmitOf(dev) == Some(Loopback) ==> skb in live && live == old(live) + {skb} && skb.data == buf;
      r := |buf|;
    }

    /** The devices whose statistics a send on `fd` could touch. */
    ghost function Reach(fd: int): set<NetDevice> reads this`devices, table, Behind(fd)`dev {
      (set d | d in devices) + (set s | s in Behind(fd) && s.dev != null :: s.dev)
    }

    /** A send that is not refused at once. */
    ghost predicate CanSend(fd: int, buf: Option<seq<Byte>>) reads table {
      Behind(fd) != {} && buf.Some? && buf.value != []
    }

    method Send(fd: int, buf: Option<seq<Byte>>, granted: bool) returns (r: int)
      requires Valid() && (buf.Some? ==> |buf.value| < TWO_TO_64)
      modifies this`live, this`made, this`freed, Behind(fd)`dev, Reach(fd)`stats
      ensures Valid()
      ensures Fds().IsOpen(fd) <==> Behind(fd) != {}
      ensures !CanSend(fd, buf) ==> r == D.FAILED && Untouched() && forall s :: s in Behind(fd) ==> s.dev == old(s.dev)
      ensures CanSend(fd, buf) && old(table[fd].dev) != null ==> table[fd].dev == old(table[fd].dev)
      ensures CanSend(fd, buf) && old(table[fd].dev) == null ==>
        if Named(devices, "lo") then table[fd].dev in devices && table[fd].dev.name == "lo" else table[fd].dev == null
      ensures CanSend(fd, buf) && table[fd].dev == null ==> r == D.FAILED && Untouched()
      ensures CanSend(fd, buf) && table[fd].dev != null ==> Transmitted(table[fd].dev, buf.value, granted, r)
      ensures forall d :: d in old(Reach(fd)) && !(CanSend(fd, buf) && d == table[fd].dev) ==> d.stats == old(d.stats)
    {
      var sock := Lookup(fd);
      if sock == null || buf.None? || buf.value == [] {
        return D.FAILED;
      }
      RouteToLo(sock);
      if sock.dev == null || sock.dev.ops.None? || sock.dev.ops.value.startXmit.None? {
        return D.FAILED;
      }
      r := Transmit(sock.dev, buf.value, granted);
    }
  }

  /** Setting up the network: after it both devices are found by name, and each has its driver. */
  method Bootstrap(stack: NetworkStack, lo: NetDevice, nic: NetDevice)
    requires stack.Valid() && lo != nic
    modifies stack, stack.table, lo, nic
    ensures stack.Valid() && stack.devices == [nic, lo] && lo.name == "lo" && nic.name == "nic0"
    ensures lo.flags == IFF_LOOPBACK | IFF_UP | IFF_RUNNING && nic.flags == IFF_UP | IFF_RUNNING
    ensures NetworkStack.XmitOf(lo) == Some(Loopback) && NetworkStack.XmitOf(nic) == Some(NicStub)
    ensures stack.Fds() == D.Fds.Init() && lo.stats == nic.stats == ZERO
    ensures stack.live == old(stack.live) && stack.made == old(stack.made) && stack.freed == old(stack.freed)
  {
    stack.NetworkInit();
    var _ := stack.LoopbackInit(lo);
    assert stack.devices[0].name == "lo";
    assert !Named(stack.devices, "nic0");
    var _ := stack.NicStubInit(nic);
    assert stack.devices[0].name == "nic0" && stack.devices[1].name == "lo";
  }

  /** A buffer is allocated, aimed at a device with a driver that accepts packets, and queued. */
  method SendByHand(stack: NetworkStack, dev: NetDevice, len: Word64) returns (r: int)
    requires stack.Owned() && NetworkStack.XmitOf(dev) in {Some(Loopback), Some(NicStub)}
    modifies stack`live, stack`made, stack`freed, dev`stats
    ensures stack.Owned() && r == 0
    ensures dev.stats == old(dev.stats).Xmit(NetworkStack.XmitOf(dev).value, len)
    ensures stack.made == old(stack.made) + 1
    ensures stack.freed == old(stack.freed) + if NetworkStack.XmitOf(dev) == Some(NicStub) then 1 else 0
  {
    var skb := stack.AllocSkb(len, true);
    skb.dev := dev;
    r := stack.DevQueueXmit(skb);
  }

  /** The first socket after `nova_network_init`, opened and connected. */
  method OpenAndConnect(stack: NetworkStack) returns (fd: int, r: int)
    requires stack.Valid() && stack.Fds() == D.Fds.Init()
    modifies stack`registry, stack`nextFd, stack`initialized, stack`devices, stack.table
    ensures stack.Valid() && stack.devices == old(stack.devices)
    ensures fd == 1 && r == 0 && stack.Fds() == D.Fds(true, 2, {1})
  {
    fd := stack.OpenSocket(2, 1, 6, true);
    r := stack.Connect(fd);
  }

  /** The host test, but for `nova_bind`: the loopback device and a socket, a packet over lo, a packet
      over nic0. */
  method HostTestScenario(stack: NetworkStack, lo: NetDevice, nic: NetDevice) returns (fd: int)
    requires stack.Valid() && lo != nic
    modifies stack, stack.table, lo, nic
    ensures stack.Valid() && stack.devices == [nic, lo]
    ensures lo.name == "lo" && lo.flags & IFF_LOOPBACK != 0 && nic.name == "nic0" && nic.flags & IFF_UP != 0
    ensures fd == 1 && stack.Fds() == D.Fds(true, 2, {})
    ensures lo.stats == Stats(64, 2, 32, 1) && nic.stats == Stats(0, 0, 20, 1)
    ensures stack.made == old(stack.made) + 2 && stack.freed == old(stack.freed) + 1
  {
    fd := HostTestOverLo(stack, lo);
    assert stack.devices[0].name == "lo";
    assert !Named(stack.devices, "nic0");
    var r := stack.NicStubInit(nic);
    r := SendByHand(stack, nic, 20);
  }

  method HostTestOverLo(stack: NetworkStack, lo: NetDevice) returns (fd: int)
    requires stack.Valid()
    modifies stack, stack.table, lo
    ensures stack.Valid() && stack.devices == [lo] && lo.name == "lo" && lo.flags & IFF_LOOPBACK != 0
    ensures fd == 1 && stack.Fds() == D.Fds(true, 2, {})
    ensures lo.stats == Stats(64, 2, 32, 1)
    ensures stack.made == old(stack.made) + 1 && stack.freed == old(stack.freed)
  {
    stack.NetworkInit();
    var r := stack.LoopbackInit(lo);
    fd, r := OpenAndConnect(stack);
    r := SendByHand(stack, lo, 32);
    r := stack.Close(fd);
  }

  /** Setting up nic0 again takes lo, registered before it, off the list. */
  method SecondNicStubInit(stack: NetworkStack, lo: NetDevice, nic: NetDevice) returns (r: int, found: NetDevice?)
    requires stack.Listed() && stack.devices == [nic, lo] && lo.name == "lo" && nic.name == "nic0"
    modifies stack, nic
    ensures stack.Listed() && stack.devices == [nic] && r == D.FAILED
    ensures lo.name == "lo" && found == null
  {
    assert stack.devices[0].name == "nic0" && stack.devices[1].name == "lo";
    r := stack.NicStubInit(nic);
    assert stack.devices == [nic];
    assert !Named(stack.devices, "lo");
    found := stack.Find("lo");
  }

  /** In the other order of registration, setting up lo again takes nic0 off the list. */
  method SecondLoopbackInit(stack: NetworkStack, lo: NetDevice, nic: NetDevice) returns (r: int, found: NetDevice?)
    requires stack.Listed() && stack.devices == [lo, nic] && lo.name == "lo" && nic.name == "nic0"
    modifies stack, lo
    ensures stack.Listed() && stack.devices == [lo] && r == D.FAILED
    ensures nic.name == "nic0" && found == null
  {
    assert stack.devices[0].name == "lo" && stack.devices[1].name == "nic0";
    r := stack.LoopbackInit(lo);
    assert stack.devices == [lo];
    assert !Named(stack.devices, "nic0");
    found := stack.Find("nic0");
  }
}
