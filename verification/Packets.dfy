/** What transmitting a packet does to device statistics and to the ownership of the packet buffer:
    kernel/network/loopback.c, nic_stub.c and the packet half of network_stack.c, as values. */
module Packets {
  import opened Words

  /** `dev->ops->start_xmit`. `Refusing` stands for a driver that returns an error and leaves the
      packet with its caller, which is what `nova_send` is prepared for. */
  datatype Driver = Loopback | NicStub | Refusing

  function Add64(a: Word64, b: Word64): Word64 {
    if a + b < 0x1_0000_0000_0000_0000 then a + b else a + b - 0x1_0000_0000_0000_0000
  }

  datatype Stats = Stats(rxBytes: Word64, rxPackets: Word64, txBytes: Word64, txPackets: Word64) {
    function Tx(len: Word64): Stats {
      this.(txPackets := Add64(txPackets, 1), txBytes := Add64(txBytes, len))
    }

    function Rx(len: Word64): Stats {
      this.(rxPackets := Add64(rxPackets, 1), rxBytes := Add64(rxBytes, len))
    }

    /** The statistics after `start_xmit`. The loopback driver counts a reception itself and then
        hands the packet to the stack, which counts it again. */
    function Xmit(driver: Driver, len: Word64): Stats {
      match driver
      case Loopback => Tx(len).Rx(len).Rx(len)
      case NicStub => Tx(len)
      case Refusing => this
    }
  }

  const ZERO := Stats(0, 0, 0, 0)

  // ---------------------------------------------------------------- runs over lo, nic0 and a refusing device

  datatype Device = Lo | Nic0 | Other

  function DriverOf(d: Device): Driver {
    match d case Lo => Loopback case Nic0 => NicStub case Other => Refusing
  }

  /** `granted` tells whether the allocations succeed. A `Send` without a device stands for one that is
      refused at once, for want of an open descriptor, a buffer, or a device; so does one of length 0. */
  datatype Op =
    | Alloc(granted: bool)
    | Free(packet: nat)
    | QueueXmit(packet: nat, dev: Option<Device>, len: Word64)
    | Send(dev: Option<Device>, len: Word64, granted: bool)

  /** Buffers are numbered as they are allocated; `freed` lists them as they are freed. The last four
      fields are the true totals of what the devices accepted. */
  datatype Net = Net(lo: Stats, nic: Stats, made: nat, live: set<nat>, freed: seq<nat>,
                     loPackets: nat, loBytes: nat, nicPackets: nat, nicBytes: nat) {
    function Transmit(packet: nat, dev: Device, len: Word64): Net {
      match dev
      case Lo => this.(lo := lo.Xmit(Loopback, len), loPackets := loPackets + 1, loBytes := loBytes + len)
      case Nic0 => this.(nic := nic.Xmit(NicStub, len), nicPackets := nicPackets + 1, nicBytes := nicBytes + len)
                   .Release(packet)
      case Other => this
    }

    function Allocate(): Net {
      this.(made := made + 1, live := live + {made})
    }

    function Release(packet: nat): Net {
      this.(live := live - {packet}, freed := freed + [packet])
    }

    /** `nova_send`: what the driver refuses is freed by the stack. */
    function SendOn(dev: Device, len: Word64): Net {
      var sent := Allocate().Transmit(made, dev, len);
      if dev == Other then sent.Release(made) else sent
    }
  }

  const QUIET := Net(ZERO, ZERO, 0, {}, [], 0, 0, 0, 0)

  function Step(n: Net, op: Op): Net {
    match op
    case Alloc(granted) => if granted then n.Allocate() else n
    case Free(p) => n.Release(p)
    case QueueXmit(p, dev, len) => if dev.None? then n else n.Transmit(p, dev.value, len)
    case Send(dev, len, granted) => if dev.None? || len == 0 || !granted then n else n.SendOn(dev.value, len)
  }

  /** C asks that only live buffers are freed or transmitted. */
  predicate Proper(n: Net, op: Op) {
    match op
    case Alloc(granted) => true
    case Free(p) => p in n.live
    case QueueXmit(p, dev, len) => p in n.live
    case Send(dev, len, granted) => true
  }

  ghost function Run(ops: seq<Op>): Net {
    if ops == [] then QUIET else Step(Run(ops[..|ops| - 1]), ops[|ops| - 1])
  }

  ghost predicate ProperRun(ops: seq<Op>) {
    forall k :: 0 <= k < |ops| ==> Proper(Run(ops[..k]), ops[k])
  }

  ghost predicate Owned(n: Net) {
    && (forall i, j :: 0 <= i < j < |n.freed| ==> n.freed[i] != n.freed[j])
    && (forall i :: 0 <= i < |n.freed| ==> n.freed[i] !in n.live && n.freed[i] < n.made)
    && (forall p :: p in n.live ==> p < n.made)
    && n.made == |n.freed| + |n.live|
  }

  /** The counter `w` shows `total`, as far as 64 bits can. */
  ghost predicate Shows64(w: Word64, total: nat) {
    w == total % 0x1_0000_0000_0000_0000
  }

  lemma AddShows(w: Word64, total: nat, a: Word64)
    requires Shows64(w, total)
    ensures Shows64(Add64(w, a), total + a)
  {
  }

  /** `s` shows these numbers of packets and bytes sent, and these received. */
  ghost predicate StatsShow(s: Stats, sent: nat, sentBytes: nat, received: nat, receivedBytes: nat) {
    && Shows64(s.txPackets, sent) && Shows64(s.txBytes, sentBytes)
    && Shows64(s.rxPackets, received) && Shows64(s.rxBytes, receivedBytes)
  }

  lemma XmitShows(s: Stats, d: Device, len: Word64, sent: nat, sentBytes: nat, received: nat, receivedBytes: nat)
    requires d != Other && StatsShow(s, sent, sentBytes, received, receivedBytes)
    ensures StatsShow(s.Xmit(DriverOf(d), len), sent + 1, sentBytes + len,
                      if d == Lo then received + 2 else received,
                      if d == Lo then receivedBytes + 2 * len else receivedBytes)
  {
    AddShows(s.txPackets, sent, 1);
    AddShows(s.txBytes, sentBytes, len);
    if d == Lo {
      AddShows(s.rxPackets, received, 1);
      AddShows(s.rxBytes, receivedBytes, len);
      AddShows(Add64(s.rxPackets, 1), received + 1, 1);
      AddShows(Add64(s.rxBytes, len), receivedBytes + len, len);
    }
  }

  ghost predicate Counted(n: Net) {
    && StatsShow(n.lo, n.loPackets, n.loBytes, 2 * n.loPackets, 2 * n.loBytes)
    && StatsShow(n.nic, n.nicPackets, n.nicBytes, 0, 0)
  }

  lemma AllocateKeepsOwnership(n: Net)
    requires Owned(n)
    ensures Owned(n.Allocate()) && n.made in n.Allocate().live
  {
    assert n.made !in n.live;
  }

  lemma ReleaseKeepsOwnership(n: Net, p: nat)
    requires Owned(n) && p in n.live
    ensures Owned(n.Release(p))
  {
  }

  lemma TransmitKeepsOwnership(n: Net, p: nat, d: Device, len: Word64)
    requires Owned(n) && p in n.live
    ensures Owned(n.Transmit(p, d, len)) && (d != Nic0 ==> p in n.Transmit(p, d, len).live)
  {
    if d == Nic0 { ReleaseKeepsOwnership(n, p); }
  }

  lemma StepKeepsOwnership(n: Net, op: Op)
    requires Owned(n) && Proper(n, op)
    ensures Owned(Step(n, op))
  {
    match op
    case Alloc(granted) => if granted { AllocateKeepsOwnership(n); }
    case Free(p) => ReleaseKeepsOwnership(n, p);
    case QueueXmit(p, dev, len) => if dev.Some? { TransmitKeepsOwnership(n, p, dev.value, len); }
    case Send(dev, len, granted) =>
      if dev.Some? && len != 0 && granted { SendKeepsOwnership(n, dev.value, len); }
  }

  lemma SendKeepsOwnership(n: Net, d: Device, len: Word64)
    requires Owned(n)
    ensures Owned(n.SendOn(d, len))
  {
    AllocateKeepsOwnership(n);
    TransmitKeepsOwnership(n.Allocate(), n.made, d, len);
    if d == Other { ReleaseKeepsOwnership(n.Allocate(), n.made); }
  }

  lemma TransmitKeepsCounts(n: Net, p: nat, d: Device, len: Word64)
    requires Counted(n)
    ensures Counted(n.Transmit(p, d, len))
  {
    match d
    case Lo => XmitShows(n.lo, Lo, len, n.loPackets, n.loBytes, 2 * n.loPackets, 2 * n.loBytes);
    case Nic0 => XmitShows(n.nic, Nic0, len, n.nicPackets, n.nicBytes, 0, 0);
    case Other =>
  }

  lemma StepKeepsCounts(n: Net, op: Op)
    requires Counted(n)
    ensures Counted(Step(n, op))
  {
    match op
    case Alloc(granted) =>
    case Free(p) =>
    case QueueXmit(p, d, len) => if d.Some? { TransmitKeepsCounts(n, p, d.value, len); }
    case Send(d, len, granted) => if d.Some? { TransmitKeepsCounts(n.Allocate(), n.made, d.value, len); }
  }

  /** In every run that touches only live buffers: no buffer is freed twice or used after it was freed,
      every buffer ever allocated was freed or is still outstanding, nic0 never receives, and lo counts
      every packet it accepts twice as received. */
  lemma {:induction false} PacketsAreAccountedFor(ops: seq<Op>)
    requires ProperRun(ops)
    ensures Owned(Run(ops)) && Counted(Run(ops))
  {
    if ops != [] {
      var front := ops[..|ops| - 1];
      assert forall k :: 0 <= k < |front| ==> front[..k] == ops[..k] && front[k] == ops[k];
      PacketsAreAccountedFor(front);
      assert Proper(Run(ops[..|ops| - 1]), ops[|ops| - 1]);
      StepKeepsOwnership(Run(front), ops[|ops| - 1]);
      StepKeepsCounts(Run(front), ops[|ops| - 1]);
    }
  }

  /** A packet sent over lo is never given back by the stack: with sends alone, what is outstanding is
      exactly what lo accepted, whatever the other sends came to. */
  lemma {:induction false} SendsOverLoStayOutstanding(ops: seq<Op>)
    requires forall k :: 0 <= k < |ops| ==> ops[k].Send?
    ensures var n := Run(ops); |n.live| == n.loPackets && n.made == n.loPackets + |n.freed| && Owned(n)
  {
    if ops != [] {
      var front := ops[..|ops| - 1];
      SendsOverLoStayOutstanding(front);
      var n := Run(front);
      assert n.made !in n.live;
      StepKeepsOwnership(n, ops[|ops| - 1]);
    }
  }
}
