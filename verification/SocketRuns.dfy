/** The socket calls of kernel/network/network_stack.c over whole runs: what is open, where each socket is
    routed, what `nova_send` delivers. Sockets are only ever routed to the device that is found as lo,
    so lo is the one device here; it may join and leave the registry at any time. */
module SocketRuns {
  import opened Words
  import D = Descriptors
  import P = Packets
  import opened Networking

  type Payload = buf: seq<Byte> | |buf| < TWO_TO_64

  datatype Sock = Sock(family: int, kind: int, protocol: int, state: int, routed: bool) {
    /** `nova_connect` and `nova_send` look for lo when the socket has no device. */
    function Route(listed: bool): Sock {
      this.(routed := routed || listed)
    }
  }

  /** `listed` tells whether lo is in the registry. */
  datatype Sys = Sys(f: D.Fds, listed: bool, socks: map<nat, Sock>, net: P.Net) {

    predicate Open(fd: int) { 0 < fd && fd in socks }

    function Restarted(): Sys {
      Sys(D.Fds.Init(), false, map[], net)
    }

    function Socket(domain: int, kind: int, protocol: int, granted: bool): (Sys, int) {
      var (f', fd) := f.Socket(domain, kind, granted);
      var y := (if f.initialized then this else Restarted()).(f := f');
      (if fd > 0 then y.Put(fd, Sock(domain, kind, protocol, 0, y.listed)) else y, fd)
    }

    function Put(fd: nat, s: Sock): Sys {
      this.(socks := socks[fd := s])
    }

    function Close(fd: int): (Sys, int) {
      if Open(fd) then (this.(f := f.Close(fd).0, socks := socks - {fd}), 0) else (this, D.FAILED)
    }

    function Connect(fd: int): (Sys, int) {
      if Open(fd) then (Put(fd, socks[fd].Route(listed).(state := 1)), 0) else (this, D.FAILED)
    }

    function SetState(fd: int, state: int): (Sys, int) {
      if Open(fd) then (Put(fd, socks[fd].(state := state)), 0) else (this, D.FAILED)
    }

    /** `granted` tells whether the packet buffer can be allocated. */
    function Send(fd: int, buf: Option<Payload>, granted: bool): (Sys, int) {
      if !Open(fd) || buf.None? || buf.value == [] then (this, D.FAILED)
      else
        var s := socks[fd].Route(listed);
        if s.routed && granted then (Put(fd, s).(net := net.SendOn(P.Lo, |buf.value|)), |buf.value|)
        else (Put(fd, s), D.FAILED)
    }
  }

  /** Before the first call, with lo set up but not registered. */
  const START := Sys(D.COLD, false, map[], P.QUIET)

  datatype Op =
    | Init | Shutdown | RegisterLo | UnregisterLo
    | Socket(domain: int, kind: int, protocol: int, granted: bool)
    | Close(fd: int) | Connect(fd: int) | Listen(fd: int) | ShutdownSocket(fd: int)
    | Send(fd: int, buf: Option<Payload>, granted: bool)

  /** The next state, and what the call returns. */
  function Step(y: Sys, op: Op): (Sys, int) {
    match op
    case Init => (y.Restarted(), 0)
    case Shutdown => (y.(f := y.f.Shutdown(), listed := false), 0)
    case RegisterLo => (y.(listed := true), if y.listed then D.FAILED else 0)
    case UnregisterLo => (y.(listed := false), if y.listed then 0 else D.FAILED)
    case Socket(domain, kind, protocol, granted) => y.Socket(domain, kind, protocol, granted)
    case Close(fd) => y.Close(fd)
    case Connect(fd) => y.Connect(fd)
    case Listen(fd) => y.SetState(fd, 2)
    case ShutdownSocket(fd) => y.SetState(fd, 0)
    case Send(fd, buf, granted) => y.Send(fd, buf, granted)
  }

  ghost function Run(ops: seq<Op>): Sys {
    if ops == [] then START else Step(Run(ops[..|ops| - 1]), ops[|ops| - 1]).0
  }

  ghost function Answers(ops: seq<Op>): seq<int> {
    if ops == [] then []
    else Answers(ops[..|ops| - 1]) + [Step(Run(ops[..|ops| - 1]), ops[|ops| - 1]).1]
  }

  // ---------------------------------------------------------------- on the heap

  /** The sockets in the table. */
  ghost function Cells(stack: NetworkStack): set<Networking.Socket> reads stack.table {
    set s: Networking.Socket | s in stack.table[..]
  }

  ghost predicate Row(s: Networking.Socket, lo: NetDevice, v: Sock) reads s {
    && s.family == v.family && s.kind == v.kind && s.protocol == v.protocol && s.state == v.state
    && s.dev == if v.routed then lo else null
  }

  ghost predicate Rows(stack: NetworkStack, lo: NetDevice, socks: map<nat, Sock>) reads stack.table, Cells(stack) {
    && (forall fd: nat :: fd in socks <==> fd < stack.table.Length && stack.table[fd] != null)
    && forall fd: nat :: fd in socks ==> Row(stack.table[fd], lo, socks[fd])
  }

  ghost predicate Lists(stack: NetworkStack, lo: NetDevice, listed: bool) reads stack`devices, lo {
    && lo.name == "lo" && NetworkStack.XmitOf(lo) == Some(P.Loopback)
    && stack.devices == if listed then [lo] else []
  }

  ghost predicate Counts(stack: NetworkStack, lo: NetDevice, n: P.Net) reads stack`made, stack`freed, lo {
    lo.stats == n.lo && stack.made == n.made && stack.freed == |n.freed|
  }

  /** The heap is in the state `y`. */
  ghost predicate Shows(stack: NetworkStack, lo: NetDevice, y: Sys)
    reads stack, stack.devices`next, stack.devices`name, stack.table, Cells(stack), lo
  {
    && stack.Valid() && stack.Fds() == y.f && Lists(stack, lo, y.listed)
    && Rows(stack, lo, y.socks) && Counts(stack, lo, y.net)
  }

  lemma EmptyTable(stack: NetworkStack, lo: NetDevice)
    requires stack.Tabled() && stack.Fds().open == {}
    ensures Rows(stack, lo, map[]) && Cells(stack) == {}
  {
    forall fd: nat | fd < stack.table.Length ensures stack.table[fd] == null {
      assert fd !in stack.Fds().open;
    }
  }

  method PerformInit(stack: NetworkStack, lo: NetDevice, ghost y: Sys)
    requires Shows(stack, lo, y)
    modifies stack, stack.table
    ensures Shows(stack, lo, Step(y, Init).0) && Cells(stack) == {}
  {
    stack.NetworkInit();
    EmptyTable(stack, lo);
  }

  method PerformShutdown(stack: NetworkStack, lo: NetDevice, ghost y: Sys)
    requires Shows(stack, lo, y)
    modifies stack, lo
    ensures Shows(stack, lo, Step(y, Shutdown).0) && Cells(stack) == old(Cells(stack))
  {
    stack.NetworkShutdown();
  }

  method PerformRegister(stack: NetworkStack, lo: NetDevice, ghost y: Sys) returns (r: int)
    requires Shows(stack, lo, y)
    modifies stack, lo
    ensures Shows(stack, lo, Step(y, RegisterLo).0) && r == Step(y, RegisterLo).1
    ensures Cells(stack) == old(Cells(stack))
  {
    assert y.listed ==> stack.devices[0].name == "lo";
    r := stack.Register(lo);
  }

  method PerformUnregister(stack: NetworkStack, lo: NetDevice, ghost y: Sys) returns (r: int)
    requires Shows(stack, lo, y)
    modifies stack, lo
    ensures Shows(stack, lo, Step(y, UnregisterLo).0) && r == Step(y, UnregisterLo).1
    ensures Cells(stack) == old(Cells(stack))
  {
    r := stack.Unregister(lo);
  }

  /** Only lo is ever found by its name. */
  lemma FoundIsLo(stack: NetworkStack, lo: NetDevice, listed: bool)
    requires Lists(stack, lo, listed)
    ensures Named(stack.devices, "lo") <==> listed
    ensures forall d :: d in stack.devices ==> d == lo
  {
    assert listed ==> stack.devices[0].name == "lo";
  }

  /** A new socket is routed to lo where lo is listed; the table starts empty where it was not initialised. */
  method OpenRouted(stack: NetworkStack, lo: NetDevice, domain: int, kind: int, protocol: int, granted: bool,
                    ghost listed: bool) returns (fd: int)
    requires stack.Valid() && Lists(stack, lo, listed)
    modifies stack`registry, stack`nextFd, stack`initialized, stack`devices, stack.table
    ensures stack.Valid() && Lists(stack, lo, old(stack.initialized) && listed)
    ensures (stack.Fds(), fd) == old(stack.Fds()).Socket(domain, kind, granted)
    ensures forall i: nat :: i < stack.table.Length && i != fd ==>
      stack.table[i] == if old(stack.initialized) then old(stack.table[i]) else null
    ensures fd > 0 ==> fd < stack.table.Length && stack.table[fd] != null && fresh(stack.table[fd])
    ensures fd > 0 ==> Row(stack.table[fd], lo, Sock(domain, kind, protocol, 0, old(stack.initialized) && listed))
  {
    fd := stack.OpenSocket(domain, kind, protocol, granted);
    FoundIsLo(stack, lo, old(stack.initialized) && listed);
    forall i: nat | i < stack.table.Length && i != fd && !old(stack.initialized) ensures stack.table[i] == null {
      assert i !in stack.Fds().open;
    }
  }

  method PerformSocket(stack: NetworkStack, lo: NetDevice, domain: int, kind: int, protocol: int, granted: bool,
                       ghost y: Sys) returns (fd: int)
    requires Shows(stack, lo, y)
    modifies stack`registry, stack`nextFd, stack`initialized, stack`devices, stack.table
    ensures Shows(stack, lo, y.Socket(domain, kind, protocol, granted).0)
    ensures fd == y.Socket(domain, kind, protocol, granted).1
    ensures fresh(Cells(stack) - old(Cells(stack)))
  {
    fd := OpenRouted(stack, lo, domain, kind, protocol, granted, y.listed);
  }

  method PerformClose(stack: NetworkStack, lo: NetDevice, fd: int, ghost y: Sys) returns (r: int)
    requires Shows(stack, lo, y)
    modifies stack.table
    ensures Shows(stack, lo, y.Close(fd).0) && r == y.Close(fd).1
    ensures Cells(stack) <= old(Cells(stack))
  {
    r := stack.Close(fd);
  }

  method PerformConnect(stack: NetworkStack, lo: NetDevice, fd: int, ghost y: Sys) returns (r: int)
    requires Shows(stack, lo, y)
    modifies stack.Behind(fd)
    ensures Shows(stack, lo, y.Connect(fd).0) && r == y.Connect(fd).1
  {
    FoundIsLo(stack, lo, y.listed);
    r := stack.Connect(fd);
  }

  /** A send on a descriptor whose socket, if it is open, shows `v`. */
  method SendAs(stack: NetworkStack, lo: NetDevice, fd: int, buf: Option<Payload>, granted: bool,
                ghost v: Sock, ghost listed: bool, ghost n: P.Net) returns (r: int)
    requires stack.Valid() && Lists(stack, lo, listed) && Counts(stack, lo, n)
    requires forall s :: s in stack.Behind(fd) ==> Row(s, lo, v)
    modifies stack`live, stack`made, stack`freed, lo`stats, stack.Behind(fd)`dev
    ensures stack.Valid()
    ensures forall s :: s in stack.Behind(fd) ==> Row(s, lo, if stack.CanSend(fd, buf) then v.Route(listed) else v)
    ensures var sent := stack.CanSend(fd, buf) && v.Route(listed).routed && granted;
      && r == (if sent then |buf.value| else D.FAILED)
      && Counts(stack, lo, if sent then n.SendOn(P.Lo, |buf.value|) else n)
  {
    FoundIsLo(stack, lo, listed);
    r := stack.Send(fd, buf, granted);
  }

  method PerformSend(stack: NetworkStack, lo: NetDevice, fd: int, buf: Option<Payload>, granted: bool,
                     ghost y: Sys) returns (r: int)
    requires Shows(stack, lo, y)
    modifies stack`live, stack`made, stack`freed, lo`stats, stack.Behind(fd)`dev
    ensures Shows(stack, lo, y.Send(fd, buf, granted).0) && r == y.Send(fd, buf, granted).1
  {
    ghost var v := if y.Open(fd) then y.socks[fd] else Sock(0, 0, 0, 0, false);
    assert forall i: nat :: i in y.socks && i != fd ==> stack.table[i] !in stack.Behind(fd);
    r := SendAs(stack, lo, fd, buf, granted, v, y.listed, y.net);
    assert y.Open(fd) ==> stack.table[fd] in stack.Behind(fd);
  }

  method PerformSetState(stack: NetworkStack, lo: NetDevice, fd: int, op: Op, ghost y: Sys) returns (r: int)
    requires Shows(stack, lo, y) && op in {Listen(fd), ShutdownSocket(fd)}
    modifies stack.Behind(fd)
    ensures Shows(stack, lo, Step(y, op).0) && r == Step(y, op).1
  {
    if op.Listen? {
      r := stack.Listen(fd);
    } else {
      r := stack.ShutdownSocket(fd);
    }
  }

  /** One call on the heap is one step of the run. */
  method Perform(stack: NetworkStack, lo: NetDevice, op: Op, ghost y: Sys) returns (r: int)
    requires Shows(stack, lo, y)
    modifies stack, stack.table, lo, Cells(stack)
    ensures Shows(stack, lo, Step(y, op).0) && r == Step(y, op).1
    ensures fresh(Cells(stack) - old(Cells(stack)))
  {
    r := 0;
    match op
    case Init => PerformInit(stack, lo, y);
    case Shutdown => PerformShutdown(stack, lo, y);
    case RegisterLo => r := PerformRegister(stack, lo, y);
    case UnregisterLo => r := PerformUnregister(stack, lo, y);
    case Socket(domain, kind, protocol, granted) =>
      r := PerformSocket(stack, lo, domain, kind, protocol, granted, y);
    case Close(fd) => r := PerformClose(stack, lo, fd, y);
    case Connect(fd) => r := PerformConnect(stack, lo, fd, y);
    case Listen(fd) => r := PerformSetState(stack, lo, fd, op, y);
    case ShutdownSocket(fd) => r := PerformSetState(stack, lo, fd, op, y);
    case Send(fd, buf, granted) => r := PerformSend(stack, lo, fd, buf, granted, y);
  }

  /** Carries out any sequence of calls, by way of descriptors alone. */
  method RunSockets(stack: NetworkStack, lo: NetDevice, ops: seq<Op>) returns (answers: seq<int>)
    requires Shows(stack, lo, START)
    modifies stack, stack.table, lo
    ensures Shows(stack, lo, Run(ops)) && answers == Answers(ops) && fresh(Cells(stack))
    decreases |ops|
  {
    if ops == [] {
      EmptyTable(stack, lo);
      return [];
    }
    var front, op := ops[..|ops| - 1], ops[|ops| - 1];
    answers := RunSockets(stack, lo, front);
    var r := Perform(stack, lo, op, Run(front));
    answers := answers + [r];
  }

  /** From power-on: lo is set up but not registered, and then come any calls. */
  method BootAndRunSockets(ops: seq<Op>) returns (stack: NetworkStack, lo: NetDevice, answers: seq<int>)
    ensures Shows(stack, lo, Run(ops)) && answers == Answers(ops)
    ensures stack.Fds() == D.Run(TableCalls(ops)).f
    ensures var (packets, bytes) := Acknowledged(ops);
      && P.StatsShow(lo.stats, packets, bytes, 2 * packets, 2 * bytes)
      && |stack.live| == stack.made == packets && stack.freed == 0
  {
    stack := new NetworkStack();
    lo := new NetDevice();
    NetworkStack.Reset(lo, "lo", 65536, IFF_LOOPBACK | IFF_UP, P.Loopback);
    EmptyTable(stack, lo);
    answers := RunSockets(stack, lo, ops);
    SocketsFollowDescriptors(ops);
    WhatIsAcknowledgedIsSent(ops);
  }

  // ---------------------------------------------------------------- the table

  /** The same call, as far as the descriptor table is concerned. */
  function TableCall(op: Op): D.Op {
    match op
    case Init => D.Init
    case Shutdown => D.Shutdown
    case Socket(domain, kind, protocol, granted) => D.Socket(domain, kind, granted)
    case Close(fd) => D.Close(fd)
    case _ => D.Use(0)
  }

  ghost function TableCalls(ops: seq<Op>): seq<D.Op> {
    if ops == [] then [] else TableCalls(ops[..|ops| - 1]) + [TableCall(ops[|ops| - 1])]
  }

  /** Exactly the open descriptors have a socket, and those are below the next one. */
  ghost predicate Coherent(y: Sys) {
    && y.socks.Keys == y.f.open && 1 <= y.f.next <= D.SOCKET_TABLE_SIZE
    && forall fd: nat :: fd in y.socks ==> 1 <= fd < y.f.next
  }

  lemma SocketStaysCoherent(y: Sys, domain: int, kind: int, protocol: int, granted: bool)
    requires Coherent(y)
    ensures var (y', fd) := y.Socket(domain, kind, protocol, granted);
      Coherent(y') && (y'.f, fd) == y.f.Socket(domain, kind, granted)
  {
  }

  lemma CloseStaysCoherent(y: Sys, fd: int)
    requires Coherent(y)
    ensures Coherent(y.Close(fd).0) && (y.Close(fd).0.f, y.Close(fd).1) == y.f.Close(fd)
  {
  }

  lemma StepStaysCoherent(y: Sys, g: D.Log, op: Op)
    requires Coherent(y) && y.f == g.f
    ensures Coherent(Step(y, op).0) && Step(y, op).0.f == D.Step(g, TableCall(op)).f
  {
    match op
    case Socket(domain, kind, protocol, granted) => SocketStaysCoherent(y, domain, kind, protocol, granted);
    case Close(fd) => CloseStaysCoherent(y, fd);
    case _ =>
  }

  lemma {:induction false} SocketsFollowDescriptors(ops: seq<Op>)
    ensures Run(ops).f == D.Run(TableCalls(ops)).f && Coherent(Run(ops))
  {
    if ops != [] {
      var front, op := ops[..|ops| - 1], ops[|ops| - 1];
      SocketsFollowDescriptors(front);
      StepStaysCoherent(Run(front), D.Run(TableCalls(front)), op);
      D.RunSnoc(TableCalls(front), TableCall(op));
    }
  }

  /** So socket and close calls are answered as the calls before them tell. */
  lemma SocketAnswersFollowCalls(ops: seq<Op>, domain: int, kind: int, protocol: int, granted: bool, fd: int)
    ensures var calls := TableCalls(ops);
      && Step(Run(ops), Socket(domain, kind, protocol, granted)).1 ==
         (if D.Good(domain, kind) && granted && D.AskedNow(calls) < 63 then D.AskedNow(calls) + 1 else -1)
      && Step(Run(ops), Close(fd)).1 == if fd in D.InUse(calls) then 0 else -1
  {
    SocketsFollowDescriptors(ops);
    D.AnswersFollowCalls(TableCalls(ops), domain, kind, granted, fd);
    SocketStaysCoherent(Run(ops), domain, kind, protocol, granted);
    CloseStaysCoherent(Run(ops), fd);
  }

  // ---------------------------------------------------------------- what is sent

  /** The number of sends that were not answered with an error, and the sum of their answers. */
  ghost function Acknowledged(ops: seq<Op>): (nat, nat) {
    if ops == [] then (0, 0) else
      var (packets, bytes) := Acknowledged(ops[..|ops| - 1]);
      var r := Step(Run(ops[..|ops| - 1]), ops[|ops| - 1]).1;
      if ops[|ops| - 1].Send? && r >= 0 then (packets + 1, bytes + r) else (packets, bytes)
  }

  ghost predicate AllOutstanding(n: P.Net, packets: nat, bytes: nat) {
    && P.Owned(n) && P.Counted(n) && n.freed == []
    && n.loPackets == packets && n.loBytes == bytes && n.made == packets
  }

  lemma SendStaysOutstanding(n: P.Net, packets: nat, bytes: nat, len: Word64)
    requires AllOutstanding(n, packets, bytes)
    ensures AllOutstanding(n.SendOn(P.Lo, len), packets + 1, bytes + len)
  {
    P.SendKeepsOwnership(n, P.Lo, len);
    P.TransmitKeepsCounts(n.Allocate(), n.made, P.Lo, len);
  }

  lemma SendAcknowledges(y: Sys, fd: int, buf: Option<Payload>, granted: bool, packets: nat, bytes: nat)
    requires AllOutstanding(y.net, packets, bytes)
    ensures var (y', r) := y.Send(fd, buf, granted);
      if r >= 0 then AllOutstanding(y'.net, packets + 1, bytes + r) else y'.net == y.net
  {
    if buf.Some? { SendStaysOutstanding(y.net, packets, bytes, |buf.value|); }
  }

  /** In every run the packets and bytes that lo has transmitted are those that `nova_send` acknowledged,
      it has received twice as many, and none of their buffers was ever freed. */
  lemma {:induction false} WhatIsAcknowledgedIsSent(ops: seq<Op>)
    ensures var (packets, bytes) := Acknowledged(ops); AllOutstanding(Run(ops).net, packets, bytes)
  {
    if ops != [] {
      var front, op := ops[..|ops| - 1], ops[|ops| - 1];
      var (packets, bytes) := Acknowledged(front);
      WhatIsAcknowledgedIsSent(front);
      if op.Send? { SendAcknowledges(Run(front), op.fd, op.buf, op.granted, packets, bytes); }
    }
  }

  // ---------------------------------------------------------------- where a socket is routed

  /** The call neither closes `fd` nor starts the table afresh. */
  predicate Spares(y: Sys, op: Op, fd: nat) {
    op != Close(fd) && !D.Restarts(y.f, TableCall(op))
  }

  /** None of the calls in `more`, made after `ops`, does. */
  ghost predicate SparesAll(ops: seq<Op>, more: seq<Op>, fd: nat) {
    more == [] ||
    (var front := more[..|more| - 1];
     SparesAll(ops, front, fd) && Spares(Run(ops + front), more[|more| - 1], fd))
  }

  ghost predicate Routed(y: Sys, fd: nat) {
    fd in y.socks && y.socks[fd].routed
  }

  lemma RunSnoc(ops: seq<Op>, op: Op)
    ensures Run(ops + [op]) == Step(Run(ops), op).0
  {
    assert (ops + [op])[..|ops|] == ops;
  }

  lemma StepKeepsRoute(y: Sys, op: Op, fd: nat)
    requires Coherent(y) && Routed(y, fd) && Spares(y, op, fd)
    ensures Routed(Step(y, op).0, fd)
  {
  }

  /** A route outlives the registration of lo: it lasts until the descriptor is closed or the table is
      started afresh. */
  lemma {:induction false} RouteStays(ops: seq<Op>, more: seq<Op>, fd: nat)
    requires Routed(Run(ops), fd) && SparesAll(ops, more, fd)
    ensures Routed(Run(ops + more), fd)
    decreases |more|
  {
    if more == [] {
      assert ops + more == ops;
    } else {
      var front, op := more[..|more| - 1], more[|more| - 1];
      RouteStays(ops, front, fd);
      SocketsFollowDescriptors(ops + front);
      StepKeepsRoute(Run(ops + front), op, fd);
      assert ops + more == ops + front + [op];
      RunSnoc(ops + front, op);
    }
  }

  /** A call that looks for lo on behalf of `fd`, and finds it. */
  predicate FindsLo(y: Sys, op: Op, fd: nat) {
    && y.listed && fd in Step(y, op).0.socks
    && match op {
         case Socket(_, _, _, _) => y.f.initialized && Step(y, op).1 == fd
         case Connect(n) => n == fd
         case Send(n, buf, _) => n == fd && buf.Some? && buf.value != []
         case _ => false
       }
  }

  /** The `k`-th call does, and none after it closes `fd` or starts the table afresh. */
  ghost predicate FoundAt(ops: seq<Op>, k: nat, fd: nat) {
    && k < |ops| && FindsLo(Run(ops[..k]), ops[k], fd)
    && SparesAll(ops[..k + 1], ops[k + 1..], fd)
  }

  lemma StepRoutesIff(y: Sys, op: Op, fd: nat)
    requires Coherent(y)
    ensures Routed(Step(y, op).0, fd) <==> FindsLo(y, op, fd) || (Routed(y, fd) && Spares(y, op, fd))
  {
  }

  lemma FoundEarlier(ops: seq<Op>, k: nat, fd: nat)
    requires ops != [] && FoundAt(ops[..|ops| - 1], k, fd)
    requires Spares(Run(ops[..|ops| - 1]), ops[|ops| - 1], fd)
    ensures FoundAt(ops, k, fd)
  {
    var front, more := ops[..|ops| - 1], ops[k + 1..];
    assert front[..k] == ops[..k] && front[..k + 1] == ops[..k + 1];
    assert more[..|more| - 1] == front[k + 1..] && front[..k + 1] + front[k + 1..] == front;
  }

  lemma RunThrough(ops: seq<Op>, k: nat)
    requires k < |ops|
    ensures Run(ops[..k + 1]) == Step(Run(ops[..k]), ops[k]).0 && ops[..k + 1] + ops[k + 1..] == ops
  {
    RunSnoc(ops[..k], ops[k]);
    assert ops[..k] + [ops[k]] == ops[..k + 1];
  }

  lemma FoundIsRouted(ops: seq<Op>, k: nat, fd: nat)
    requires FoundAt(ops, k, fd)
    ensures Routed(Run(ops), fd)
  {
    SocketsFollowDescriptors(ops[..k]);
    StepRoutesIff(Run(ops[..k]), ops[k], fd);
    RunThrough(ops, k);
    RouteStays(ops[..k + 1], ops[k + 1..], fd);
  }

  lemma {:induction false} RoutedWasFound(ops: seq<Op>, fd: nat) returns (k: nat)
    requires Routed(Run(ops), fd)
    ensures FoundAt(ops, k, fd)
  {
    var front, op := ops[..|ops| - 1], ops[|ops| - 1];
    SocketsFollowDescriptors(front);
    StepRoutesIff(Run(front), op, fd);
    if FindsLo(Run(front), op, fd) {
      k := |front|;
    } else {
      k := RoutedWasFound(front, fd);
      FoundEarlier(ops, k, fd);
    }
  }

  /** A socket has a device exactly when lo was registered at one of the calls that looked for it since
      the descriptor was opened. */
  lemma RoutedIffLoWasFound(ops: seq<Op>, fd: nat)
    ensures Routed(Run(ops), fd) <==> exists k: nat :: FoundAt(ops, k, fd)
  {
    if Routed(Run(ops), fd) {
      var k := RoutedWasFound(ops, fd);
    }
    forall k: nat | FoundAt(ops, k, fd) ensures Routed(Run(ops), fd) {
      FoundIsRouted(ops, k, fd);
    }
  }

  /** So that is when a send is acknowledged, this call counting as one that looks for lo; the registry
      of the moment does not matter once lo was found. */
  lemma SendIsAcknowledgedIff(ops: seq<Op>, fd: nat, buf: Payload)
    requires buf != []
    ensures var y := Run(ops); var (y', r) := Step(y, Send(fd, Some(buf), true));
      && (r == |buf| <==> fd > 0 && fd in y.socks && (y.listed || exists k: nat :: FoundAt(ops, k, fd)))
      && (r != |buf| ==> r == D.FAILED && y'.net == y.net)
  {
    RoutedIffLoWasFound(ops, fd);
  }
}
