/** The runs of `RegistryRuns` and `Packets` carried out on the heap: arbitrary sequences of calls on a
    `NetworkStack` end in the state that those runs compute. */
module NetworkRuns {
  import opened Words
  import P = Packets
  import R = RegistryRuns
  import opened Networking

  // ---------------------------------------------------------------- the registry

  /** The devices that the numbers in `ds` stand for. */
  ghost function Image(nodes: seq<NetDevice>, ds: seq<nat>): (r: seq<NetDevice>)
    requires Within(ds, |nodes|)
    ensures |r| == |ds| && forall i :: 0 <= i < |ds| ==> r[i] == nodes[ds[i]]
  {
    seq(|ds|, i requires 0 <= i < |ds| => nodes[ds[i]])
  }

  predicate Within(ds: seq<nat>, n: nat) {
    forall i :: 0 <= i < |ds| ==> ds[i] < n
  }

  predicate OpWithin(op: R.Op, n: nat) {
    match op
    case Init => true
    case Shutdown => true
    case Register(d) => d < n
    case Unregister(d) => d < n
  }

  /** The nodes are different objects and carry these names. */
  ghost predicate Labelled(nodes: seq<NetDevice>, name: R.Names) reads nodes`name {
    && (forall i, j :: 0 <= i < j < |nodes| ==> nodes[i] != nodes[j])
    && forall i {:trigger nodes[i].name} :: 0 <= i < |nodes| ==> nodes[i].name == name(i)
  }

  lemma WithoutStaysWithin(ds: seq<nat>, d: nat, n: nat)
    requires Within(ds, n)
    ensures Within(R.Without(ds, d), n)
  {
    var r := R.Without(ds, d);
    forall i | 0 <= i < |r| ensures r[i] < n {
      assert r[i] in ds;
    }
  }

  lemma {:induction false} RunStaysWithin(ops: seq<R.Op>, name: R.Names, n: nat)
    requires forall k :: 0 <= k < |ops| ==> OpWithin(ops[k], n)
    ensures Within(R.Run(ops, name), n)
  {
    if ops != [] {
      var front, op := ops[..|ops| - 1], ops[|ops| - 1];
      RunStaysWithin(front, name, n);
      if op.Unregister? { WithoutStaysWithin(R.Run(front, name), op.d, n); }
    }
  }

  /** Removing a number removes its device. */
  lemma {:induction false} ImageOfWithout(nodes: seq<NetDevice>, ds: seq<nat>, d: nat)
    requires Within(ds, |nodes|) && d < |nodes| && Within(R.Without(ds, d), |nodes|)
    requires forall i, j :: 0 <= i < j < |nodes| ==> nodes[i] != nodes[j]
    ensures R.Without<NetDevice?>(Image(nodes, ds), nodes[d]) == Image(nodes, R.Without(ds, d))
  {
    if ds != [] {
      var rest := ds[1..];
      assert Image(nodes, ds)[1..] == Image(nodes, rest);
      if ds[0] != d {
        WithoutStaysWithin(rest, d, |nodes|);
        ImageOfWithout(nodes, rest, d);
        assert Image(nodes, R.Without(ds, d)) == [nodes[ds[0]]] + Image(nodes, R.Without(rest, d));
      }
    }
  }

  lemma ImageOfCons(nodes: seq<NetDevice>, ds: seq<nat>, d: nat)
    requires Within(ds, |nodes|) && d < |nodes|
    ensures Within([d] + ds, |nodes|) && Image(nodes, [d] + ds) == [nodes[d]] + Image(nodes, ds)
  {
  }

  lemma RefusedByImage(nodes: seq<NetDevice>, ds: seq<nat>, d: nat, name: R.Names)
    requires Labelled(nodes, name) && Within(ds, |nodes|) && d < |nodes|
    ensures R.Refused(ds, d, name) <==> nodes[d].name == "" || Named(Image(nodes, ds), nodes[d].name)
  {
    var image := Image(nodes, ds);
    forall i | 0 <= i < |ds| ensures image[i].name == name(ds[i]) {
      assert nodes[ds[i]].name == name(ds[i]);
    }
    if exists i :: 0 <= i < |ds| && name(ds[i]) == name(d) {
      var i :| 0 <= i < |ds| && name(ds[i]) == name(d);
      assert image[i].name == nodes[d].name;
    }
  }

  method PerformRegister(stack: NetworkStack, nodes: seq<NetDevice>, d: nat, ghost ds: seq<nat>, ghost name: R.Names)
    requires stack.Listed() && Labelled(nodes, name) && d < |nodes|
    requires Within(ds, |nodes|) && stack.devices == Image(nodes, ds)
    modifies stack`registry, stack`devices, nodes[d]
    ensures stack.Listed() && Labelled(nodes, name)
    ensures Within(R.Step(ds, R.Register(d), name), |nodes|)
    ensures stack.devices == Image(nodes, R.Step(ds, R.Register(d), name))
  {
    RefusedByImage(nodes, ds, d, name);
    ImageOfCons(nodes, ds, d);
    var _ := stack.Register(nodes[d]);
  }

  method PerformUnregister(stack: NetworkStack, nodes: seq<NetDevice>, d: nat, ghost ds: seq<nat>, ghost name: R.Names)
    requires stack.Listed() && Labelled(nodes, name) && d < |nodes|
    requires Within(ds, |nodes|) && stack.devices == Image(nodes, ds)
    modifies stack`registry, stack`devices, stack.devices`next
    ensures stack.Listed() && Labelled(nodes, name)
    ensures Within(R.Step(ds, R.Unregister(d), name), |nodes|)
    ensures stack.devices == Image(nodes, R.Step(ds, R.Unregister(d), name))
  {
    WithoutStaysWithin(ds, d, |nodes|);
    ImageOfWithout(nodes, ds, d);
    var _ := stack.Unregister(nodes[d]);
  }

  /** One call on the heap is one step of the run. */
  method Perform(stack: NetworkStack, nodes: seq<NetDevice>, op: R.Op, ghost ds: seq<nat>, ghost name: R.Names)
    requires stack.Valid() && Labelled(nodes, name) && OpWithin(op, |nodes|)
    requires Within(ds, |nodes|) && stack.devices == Image(nodes, ds)
    modifies stack, stack.table, nodes
    ensures stack.Valid() && Labelled(nodes, name)
    ensures Within(R.Step(ds, op, name), |nodes|) && stack.devices == Image(nodes, R.Step(ds, op, name))
  {
    match op
    case Init =>
      stack.NetworkInit();
    case Shutdown =>
      stack.NetworkShutdown();
    case Register(d) =>
      PerformRegister(stack, nodes, d, ds, name);
    case Unregister(d) =>
      PerformUnregister(stack, nodes, d, ds, name);
  }

  /** After any sequence of calls from an empty registry, the linked list is what the run computes. */
  method RunRegistry(stack: NetworkStack, nodes: seq<NetDevice>, ops: seq<R.Op>, ghost name: R.Names)
    requires stack.Valid() && stack.devices == [] && Labelled(nodes, name)
    requires forall k :: 0 <= k < |ops| ==> OpWithin(ops[k], |nodes|)
    modifies stack, stack.table, nodes
    ensures stack.Valid() && Within(R.Run(ops, name), |nodes|)
    ensures stack.devices == Image(nodes, R.Run(ops, name))
    ensures R.InOrder(R.Run(ops, name), ops, name)
  {
    for k := 0 to |ops|
      invariant stack.Valid() && Labelled(nodes, name)
      invariant Within(R.Run(ops[..k], name), |nodes|)
      invariant stack.devices == Image(nodes, R.Run(ops[..k], name))
    {
      assert ops[..k + 1][..k] == ops[..k];
      Perform(stack, nodes, ops[k], R.Run(ops[..k], name), name);
    }
    assert ops[..|ops|] == ops;
    R.RegistryIsMostRecentFirst(ops, name);
  }

  // ---------------------------------------------------------------- packets

  datatype Ports = Ports(lo: NetDevice, nic: NetDevice, other: NetDevice)

  function PortOf(port: Ports, d: P.Device): NetDevice {
    match d case Lo => port.lo case Nic0 => port.nic case Other => port.other
  }

  /** Three different devices with the three drivers. */
  ghost predicate Wired(port: Ports) reads port.lo`ops, port.nic`ops, port.other`ops {
    && port.lo != port.nic && port.lo != port.other && port.nic != port.other
    && NetworkStack.XmitOf(port.lo) == Some(P.Loopback) && NetworkStack.XmitOf(port.nic) == Some(P.NicStub)
    && NetworkStack.XmitOf(port.other) == Some(P.Refusing)
  }

  /** The buffers the client holds pointers to. */
  ghost function Held(bufs: seq<SkBuff?>): set<SkBuff> {
    set b: SkBuff | b in bufs
  }

  /** `bufs[i]` is the `i`-th buffer allocated, NULL where only the stack ever had a pointer to it. */
  ghost predicate Numbered(bufs: seq<SkBuff?>, live: set<SkBuff>, numbers: set<nat>) {
    && (forall i :: 0 <= i < |bufs| && bufs[i] != null ==> (bufs[i] in live <==> i in numbers))
    && (forall i, j :: 0 <= i < j < |bufs| && bufs[i] != null ==> bufs[i] != bufs[j])
  }

  /** One more buffer, `b`, that has not had a number so far. */
  lemma NumberedNext(bufs: seq<SkBuff?>, live: set<SkBuff>, numbers: set<nat>,
                     b: SkBuff?, live': set<SkBuff>, numbers': set<nat>)
    requires Numbered(bufs, live, numbers)
    requires forall c: SkBuff :: c in bufs ==> (c in live' <==> c in live)
    requires forall i: nat :: i < |bufs| ==> (i in numbers' <==> i in numbers)
    requires b != null ==> b !in bufs && (b in live' <==> |bufs| in numbers')
    ensures Numbered(bufs + [b], live', numbers')
  {
    forall i | 0 <= i < |bufs| && bufs[i] != null ensures (bufs[i] in live' <==> i in numbers') && bufs[i] != b {
      assert bufs[i] in bufs;
    }
  }

  /** The heap is in the state `n`. */
  ghost predicate Matches(stack: NetworkStack, port: Ports, bufs: seq<SkBuff?>, n: P.Net)
    reads stack`live, stack`made, stack`freed, port.lo, port.nic, port.other
  {
    && stack.Owned() && Wired(port)
    && port.lo.stats == n.lo && port.nic.stats == n.nic
    && stack.made == n.made == |bufs| && stack.freed == |n.freed|
    && Numbered(bufs, stack.live, n.live)
  }

  /** Only buffers that were handed to the client are freed or queued by it. */
  predicate Holds(bufs: seq<SkBuff?>, op: P.Op) {
    match op
    case Alloc(granted) => true
    case Free(p) => p < |bufs| && bufs[p] != null
    case QueueXmit(p, dev, len) => p < |bufs| && bufs[p] != null
    case Send(dev, len, granted) => true
  }

  method PerformAlloc(stack: NetworkStack, port: Ports, bufs: seq<SkBuff?>, granted: bool, ghost n: P.Net)
    returns (bufs': seq<SkBuff?>)
    requires Matches(stack, port, bufs, n) && P.Owned(n)
    modifies stack`live, stack`made
    ensures bufs <= bufs' && |bufs'| == if granted then |bufs| + 1 else |bufs|
    ensures granted ==> bufs'[|bufs|] != null && fresh(bufs'[|bufs|])
    ensures Matches(stack, port, bufs', P.Step(n, P.Alloc(granted)))
  {
    ghost var was := stack.live;
    var skb := stack.AllocSkb(1, granted);
    bufs' := bufs;
    if granted {
      NumberedNext(bufs, was, n.live, skb, stack.live, n.Allocate().live);
      bufs' := bufs + [skb];
    }
  }

  method PerformFree(stack: NetworkStack, port: Ports, bufs: seq<SkBuff?>, p: nat, ghost n: P.Net)
    requires Matches(stack, port, bufs, n) && p in n.live && p < |bufs| && bufs[p] != null
    modifies stack`live, stack`freed
    ensures Matches(stack, port, bufs, P.Step(n, P.Free(p)))
  {
    stack.FreeSkb(bufs[p]);
  }

  /** The client aims the packet at a device, or at none, sets its length and queues it. */
  method PerformQueue(stack: NetworkStack, port: Ports, bufs: seq<SkBuff?>, p: nat, dev: Option<P.Device>,
                      len: Word64, ghost n: P.Net)
    requires Matches(stack, port, bufs, n) && p in n.live && p < |bufs| && bufs[p] != null
    modifies stack`live, stack`freed, port.lo`stats, port.nic`stats, port.other`stats, bufs[p]
    ensures Matches(stack, port, bufs, P.Step(n, P.QueueXmit(p, dev, len)))
  {
    var skb := bufs[p];
    skb.dev := if dev.None? then null else PortOf(port, dev.value);
    skb.len := len;
    var _ := stack.DevQueueXmit(skb);
  }

  method PerformSend(stack: NetworkStack, port: Ports, bufs: seq<SkBuff?>, dev: P.Device, len: Word64,
                     granted: bool, ghost n: P.Net)
    returns (bufs': seq<SkBuff?>)
    requires Matches(stack, port, bufs, n) && P.Owned(n) && len != 0
    modifies stack`live, stack`made, stack`freed, port.lo`stats, port.nic`stats, port.other`stats
    ensures bufs' == if granted then bufs + [null] else bufs
    ensures Matches(stack, port, bufs', P.Step(n, P.Send(Some(dev), len, granted)))
  {
    ghost var was := stack.live;
    var _ := stack.Transmit(PortOf(port, dev), seq(len, i => 0), granted);
    bufs' := bufs;
    if granted {
      NumberedNext(bufs, was, n.live, null, stack.live, n.SendOn(dev, len).live);
      bufs' := bufs + [null];
    }
  }

  /** A send that is refused at once. */
  method SendNothing(stack: NetworkStack, granted: bool)
    requires stack.Valid()
    modifies stack`live, stack`made, stack`freed, stack.devices`stats
    ensures stack.Valid()
    ensures stack.live == old(stack.live) && stack.made == old(stack.made) && stack.freed == old(stack.freed)
    ensures forall d :: d in stack.devices ==> d.stats == old(d.stats)
  {
    var _ := stack.Send(0, None, granted);
  }

  /** One call on the heap is one step of the run. */
  method PerformPacket(stack: NetworkStack, port: Ports, bufs: seq<SkBuff?>, op: P.Op, ghost n: P.Net)
    returns (bufs': seq<SkBuff?>)
    requires stack.Valid() && Matches(stack, port, bufs, n) && P.Owned(n)
    requires P.Proper(n, op) && Holds(bufs, op)
    modifies stack`live, stack`made, stack`freed, port.lo`stats, port.nic`stats, port.other`stats
    modifies stack.devices`stats, Held(bufs)
    ensures stack.Valid() && Matches(stack, port, bufs', P.Step(n, op))
    ensures bufs <= bufs' && |bufs'| <= |bufs| + 1
    ensures |bufs'| == |bufs| + 1 ==> (bufs'[|bufs|] != null <==> op == P.Alloc(true))
    ensures |bufs'| == |bufs| ==> op != P.Alloc(true)
    ensures |bufs'| == |bufs| + 1 && bufs'[|bufs|] != null ==> fresh(bufs'[|bufs|])
  {
    bufs' := bufs;
    match op
    case Alloc(granted) =>
      bufs' := PerformAlloc(stack, port, bufs, granted, n);
    case Free(p) =>
      PerformFree(stack, port, bufs, p, n);
    case QueueXmit(p, dev, len) =>
      PerformQueue(stack, port, bufs, p, dev, len, n);
    case Send(dev, len, granted) =>
      if dev.None? || len == 0 {
        SendNothing(stack, granted);
      } else {
        bufs' := PerformSend(stack, port, bufs, dev.value, len, granted, n);
      }
  }

  /** The numbers of the buffers that the client was given, with one more call. */
  function NextGiven(n: P.Net, given: set<nat>, op: P.Op): set<nat> {
    given + if op == P.Alloc(true) then {n.made} else {}
  }

  ghost function Given(ops: seq<P.Op>): set<nat> {
    if ops == [] then {}
    else NextGiven(P.Run(ops[..|ops| - 1]), Given(ops[..|ops| - 1]), ops[|ops| - 1])
  }

  /** Only live buffers that it was given are freed or queued by the client. */
  predicate Polite(n: P.Net, given: set<nat>, op: P.Op) {
    P.Proper(n, op) && (op.Free? || op.QueueXmit? ==> op.packet in given)
  }

  ghost predicate Client(ops: seq<P.Op>) {
    ops == [] ||
    (var front := ops[..|ops| - 1];
     Client(front) && Polite(P.Run(front), Given(front), ops[|ops| - 1]))
  }

  /** The pointers held are those of the buffers given. */
  ghost predicate HoldsGiven(bufs: seq<SkBuff?>, given: set<nat>) {
    && (forall i: nat :: i < |bufs| ==> (bufs[i] != null <==> i in given))
    && forall i: nat :: i in given ==> i < |bufs|
  }

  lemma HeldGrows(bufs: seq<SkBuff?>, bufs': seq<SkBuff?>)
    requires bufs <= bufs' && |bufs'| <= |bufs| + 1
    ensures forall b :: b in Held(bufs') - Held(bufs) ==> |bufs'| == |bufs| + 1 && bufs'[|bufs|] == b
  {
    forall b | b in Held(bufs') - Held(bufs) ensures |bufs'| == |bufs| + 1 && bufs'[|bufs|] == b {
      var i :| 0 <= i < |bufs'| && bufs'[i] == b;
      assert forall j :: 0 <= j < |bufs| ==> bufs[j] == bufs'[j] && bufs[j] in bufs;
    }
  }

  lemma HoldsGivenNext(bufs: seq<SkBuff?>, bufs': seq<SkBuff?>, n: P.Net, given: set<nat>, op: P.Op)
    requires HoldsGiven(bufs, given) && |bufs| == n.made && bufs <= bufs' && |bufs'| <= |bufs| + 1
    requires |bufs'| == |bufs| + 1 ==> (bufs'[|bufs|] != null <==> op == P.Alloc(true))
    requires |bufs'| == |bufs| ==> op != P.Alloc(true)
    ensures HoldsGiven(bufs', NextGiven(n, given, op))
  {
  }

  /** The heap at a point of a run: in the state `n`, the client having been given the buffers `given`. */
  ghost predicate At(n: P.Net, given: set<nat>, stack: NetworkStack, port: Ports, bufs: seq<SkBuff?>)
    reads stack`live, stack`made, stack`freed, port.lo, port.nic, port.other
  {
    Matches(stack, port, bufs, n) && P.Owned(n) && HoldsGiven(bufs, given)
  }

  method NextPacket(stack: NetworkStack, port: Ports, bufs: seq<SkBuff?>, op: P.Op,
                    ghost n: P.Net, ghost given: set<nat>)
    returns (bufs': seq<SkBuff?>)
    requires stack.Valid() && At(n, given, stack, port, bufs) && Polite(n, given, op)
    modifies stack`live, stack`made, stack`freed, port.lo`stats, port.nic`stats, port.other`stats
    modifies stack.devices`stats, Held(bufs)
    ensures stack.Valid() && At(P.Step(n, op), NextGiven(n, given, op), stack, port, bufs')
    ensures fresh(Held(bufs') - Held(bufs))
  {
    P.StepKeepsOwnership(n, op);
    bufs' := PerformPacket(stack, port, bufs, op, n);
    HoldsGivenNext(bufs, bufs', n, given, op);
    HeldGrows(bufs, bufs');
  }

  /** Carries out any sequence of calls by such a client. */
  method RunTraffic(stack: NetworkStack, port: Ports, ops: seq<P.Op>) returns (bufs: seq<SkBuff?>)
    requires stack.Valid() && At(P.QUIET, {}, stack, port, []) && Client(ops)
    modifies stack`live, stack`made, stack`freed, port.lo`stats, port.nic`stats, port.other`stats
    modifies stack.devices`stats
    ensures stack.Valid() && At(P.Run(ops), Given(ops), stack, port, bufs) && fresh(Held(bufs))
    decreases |ops|
  {
    if ops == [] {
      return [];
    }
    var front, op := ops[..|ops| - 1], ops[|ops| - 1];
    var held := RunTraffic(stack, port, front);
    bufs := NextPacket(stack, port, held, op, P.Run(front), Given(front));
  }

  lemma {:induction false} ClientIsProper(ops: seq<P.Op>)
    requires Client(ops)
    ensures P.ProperRun(ops)
  {
    if ops != [] {
      var front := ops[..|ops| - 1];
      ClientIsProper(front);
      forall k | 0 <= k < |ops| ensures P.Proper(P.Run(ops[..k]), ops[k]) {
        if k < |front| { assert front[..k] == ops[..k] && front[k] == ops[k]; }
      }
    }
  }

  /** What the heap then shows: the statistics and the numbers of buffers are those of the run, in which
      every buffer and every packet is accounted for. */
  lemma RunShows(ops: seq<P.Op>, stack: NetworkStack, port: Ports, bufs: seq<SkBuff?>)
    requires At(P.Run(ops), Given(ops), stack, port, bufs) && Client(ops)
    ensures port.lo.stats == P.Run(ops).lo && port.nic.stats == P.Run(ops).nic
    ensures stack.made == P.Run(ops).made && stack.freed == |P.Run(ops).freed|
    ensures |stack.live| == |P.Run(ops).live|
    ensures P.Owned(P.Run(ops)) && P.Counted(P.Run(ops))
  {
    ClientIsProper(ops);
    P.PacketsAreAccountedFor(ops);
  }

  /** The start of a run: nothing allocated, nothing counted. */
  lemma RunStarts(stack: NetworkStack, port: Ports)
    requires stack.Owned() && Wired(port) && stack.made == stack.freed == 0
    requires port.lo.stats == port.nic.stats == P.ZERO
    ensures At(P.QUIET, {}, stack, port, [])
  {
  }

  /** A driver that refuses every packet joins the registry. */
  method AddRefusing(stack: NetworkStack) returns (other: NetDevice)
    requires stack.Valid() && !Named(stack.devices, "other")
    modifies stack`registry, stack`devices
    ensures stack.Valid() && fresh(other) && stack.devices == [other] + old(stack.devices)
    ensures NetworkStack.XmitOf(other) == Some(P.Refusing)
  {
    other := new NetDevice();
    other.name := "other";
    other.ops := Some(Ops(None, Some(P.Refusing)));
    var _ := stack.Register(other);
  }

  /** A new stack with lo, nic0 and such a device. */
  method Boot() returns (stack: NetworkStack, port: Ports)
    ensures fresh(stack) && fresh(port.lo) && fresh(port.nic) && fresh(port.other)
    ensures stack.Valid() && stack.devices == [port.other, port.nic, port.lo] && fresh(stack.table)
    ensures At(P.QUIET, {}, stack, port, [])
  {
    stack := new NetworkStack();
    var lo := new NetDevice();
    var nic := new NetDevice();
    Bootstrap(stack, lo, nic);
    assert stack.devices[0].name == "nic0" && stack.devices[1].name == "lo";
    var other := AddRefusing(stack);
    port := Ports(lo, nic, other);
    RunStarts(stack, port);
  }

  /** From power-on, the traffic of any client leaves every buffer and every packet accounted for. */
  method BootAndRunTraffic(ops: seq<P.Op>) returns (stack: NetworkStack, port: Ports, bufs: seq<SkBuff?>)
    requires Client(ops)
    ensures stack.Valid() && At(P.Run(ops), Given(ops), stack, port, bufs)
    ensures port.lo.stats == P.Run(ops).lo && port.nic.stats == P.Run(ops).nic
    ensures stack.made == P.Run(ops).made == stack.freed + |stack.live|
    ensures P.Counted(P.Run(ops))
  {
    stack, port := Boot();
    bufs := RunTraffic(stack, port, ops);
    RunShows(ops, stack, port, bufs);
  }
}
