/** The socket descriptor table of kernel/network/network_stack.c, as the set of open descriptors. */
module Descriptors {

  const SOCKET_TABLE_SIZE: nat := 64
  const FAILED: int := -1

  predicate KnownDomain(domain: int) { domain in {0, 1, 2, 10} }

  predicate KnownType(kind: int) { kind in {1, 2, 3, 5} }

  datatype Fds = Fds(initialized: bool, next: nat, open: set<nat>) {

    predicate IsOpen(fd: int) {
      0 < fd < SOCKET_TABLE_SIZE && fd in open
    }

    static function Init(): Fds {
      Fds(true, 1, {})
    }

    function Shutdown(): Fds {
      this.(initialized := false)
    }

    /** `granted` tells whether `calloc` succeeds; when it does not, the number is spent all the same. */
    function Socket(domain: int, kind: int, granted: bool): (Fds, int) {
      var f := if initialized then this else Init();
      if !KnownDomain(domain) || !KnownType(kind) || f.next >= SOCKET_TABLE_SIZE then (f, FAILED)
      else if !granted then (f.(next := f.next + 1), FAILED)
      else (f.(next := f.next + 1, open := f.open + {f.next}), f.next)
    }

    function Close(fd: int): (Fds, int) {
      if IsOpen(fd) then (this.(open := open - {fd}), 0) else (this, FAILED)
    }
  }

  /** Static storage before the first call. */
  const COLD := Fds(false, 1, {})

  datatype Op = Init | Shutdown | Socket(domain: int, kind: int, granted: bool) | Close(fd: int) | Use(fd: int)

  /** With what was returned and what was closed since the table was last initialised. */
  datatype Log = Log(f: Fds, returned: seq<nat>, closed: set<nat>)

  function Step(g: Log, op: Op): Log {
    match op
    case Init => Log(Fds.Init(), [], {})
    case Shutdown => g.(f := g.f.Shutdown())
    case Socket(domain, kind, granted) =>
      var (f, fd) := g.f.Socket(domain, kind, granted);
      var (returned, closed) := if g.f.initialized then (g.returned, g.closed) else ([], {});
      Log(f, if fd > 0 then returned + [fd] else returned, closed)
    case Close(fd) =>
      var (f, r) := g.f.Close(fd);
      Log(f, g.returned, if r == 0 && fd > 0 then g.closed + {fd} else g.closed)
    case Use(fd) => g
  }

  ghost function Run(ops: seq<Op>): Log {
    if ops == [] then Log(COLD, [], {}) else Step(Run(ops[..|ops| - 1]), ops[|ops| - 1])
  }

  ghost predicate Increasing(s: seq<nat>) {
    forall i, j :: 0 <= i < j < |s| ==> s[i] < s[j]
  }

  ghost predicate Orderly(g: Log) {
    && 1 <= g.f.next <= SOCKET_TABLE_SIZE
    && Increasing(g.returned)
    && (forall i :: 0 <= i < |g.returned| ==> 1 <= g.returned[i] < g.f.next)
    && (forall fd: nat :: fd in g.closed ==> fd in g.returned)
    && (forall fd: nat :: fd in g.f.open <==> (fd in g.returned && fd !in g.closed))
  }

  lemma StepStaysOrderly(g: Log, op: Op)
    requires Orderly(g)
    ensures Orderly(Step(g, op))
  {
  }

  /** Between two initialisations the descriptors returned are strictly increasing in 1..63, so none
      comes back even after it is closed, and exactly those returned and not closed are open. */
  lemma {:induction false} DescriptorsAreNeverReused(ops: seq<Op>)
    ensures var g := Run(ops);
      && Increasing(g.returned)
      && (forall i :: 0 <= i < |g.returned| ==> 1 <= g.returned[i] < SOCKET_TABLE_SIZE)
      && (forall fd: int :: g.f.IsOpen(fd) <==> (fd > 0 && fd in g.returned && fd !in g.closed))
      && Orderly(g)
  {
    if ops != [] {
      DescriptorsAreNeverReused(ops[..|ops| - 1]);
      StepStaysOrderly(Run(ops[..|ops| - 1]), ops[|ops| - 1]);
    }
  }

  /** The calls that start the table afresh: `nova_network_init`, and `nova_socket` after a shutdown. */
  predicate Restarts(f: Fds, op: Op) {
    op.Init? || (op.Socket? && !f.initialized)
  }

  /** None of the calls in `more`, made after `ops`, starts the table afresh. */
  ghost predicate Continues(ops: seq<Op>, more: seq<Op>) {
    more == [] ||
    (var front := more[..|more| - 1];
     Continues(ops, front) && !Restarts(Run(ops + front).f, more[|more| - 1]))
  }

  lemma StepKeepsClosed(g: Log, op: Op, fd: nat)
    requires Orderly(g) && fd in g.closed && !Restarts(g.f, op)
    ensures fd in Step(g, op).closed
  {
  }

  lemma ClosedIsNotOpen(g: Log, fd: nat)
    requires Orderly(g) && fd in g.closed
    ensures !g.f.IsOpen(fd)
  {
  }

  lemma RunSnoc(ops: seq<Op>, op: Op)
    ensures Run(ops + [op]) == Step(Run(ops), op)
  {
    assert (ops + [op])[..|ops|] == ops;
  }

  /** A closed descriptor stays dead until the table is started afresh; shutting down alone does not
      revive it. */
  lemma {:induction false} ClosedStaysClosed(ops: seq<Op>, more: seq<Op>, fd: nat)
    requires fd in Run(ops).closed && Continues(ops, more)
    ensures fd in Run(ops + more).closed && !Run(ops + more).f.IsOpen(fd)
    decreases |more|
  {
    if more == [] {
      assert ops + more == ops;
    } else {
      var front, op := more[..|more| - 1], more[|more| - 1];
      ClosedStaysClosed(ops, front, fd);
      DescriptorsAreNeverReused(ops + front);
      StepKeepsClosed(Run(ops + front), op, fd);
      assert ops + more == ops + front + [op];
      RunSnoc(ops + front, op);
    }
    DescriptorsAreNeverReused(ops + more);
    ClosedIsNotOpen(Run(ops + more), fd);
  }

  // ---------------------------------------------------------------- answers, told by the calls

  /** The arguments are AF_UNSPEC, AF_UNIX, AF_INET or AF_INET6, and SOCK_STREAM, SOCK_DGRAM, SOCK_RAW or
      SOCK_SEQPACKET. */
  predicate Good(domain: int, kind: int) {
    && (domain == 0 || domain == 1 || domain == 2 || domain == 10)
    && (kind == 1 || kind == 2 || kind == 3 || kind == 5)
  }

  /** The table has been set up, by an init or by a socket call, and not shut down since. */
  ghost predicate Up(ops: seq<Op>) {
    ops != [] &&
    match ops[|ops| - 1]
    case Init => true
    case Shutdown => false
    case Socket(_, _, _) => true
    case _ => Up(ops[..|ops| - 1])
  }

  /** The number of good socket calls since the table was last started afresh, with memory or without. */
  ghost function Asked(ops: seq<Op>): nat
    decreases |ops|, 0
  {
    if ops == [] then 0 else
      var front := ops[..|ops| - 1];
      match ops[|ops| - 1]
      case Init => 0
      case Socket(domain, kind, _) => AskedNow(front) + if Good(domain, kind) then 1 else 0
      case _ => Asked(front)
  }

  /** The same, as a socket call made now finds it. */
  ghost function AskedNow(ops: seq<Op>): nat
    decreases |ops|, 1
  {
    if Up(ops) then Asked(ops) else 0
  }

  /** What a socket call made now returns. */
  ghost function Grant(ops: seq<Op>, domain: int, kind: int, granted: bool): int {
    if Good(domain, kind) && granted && AskedNow(ops) < 63 then AskedNow(ops) + 1 else -1
  }

  /** The descriptors granted since then and not closed. */
  ghost function InUse(ops: seq<Op>): set<int> {
    if ops == [] then {} else
      var front := ops[..|ops| - 1];
      match ops[|ops| - 1]
      case Init => {}
      case Shutdown => InUse(front)
      case Socket(domain, kind, granted) =>
        var fd := Grant(front, domain, kind, granted);
        (if Up(front) then InUse(front) else {}) + if fd > 0 then {fd} else {}
      case Close(fd) => InUse(front) - {fd}
      case Use(_) => InUse(front)
  }

  /** The table is in the state that the calls tell. */
  ghost predicate Tells(f: Fds, up: bool, asked: nat, inUse: set<int>) {
    && f.initialized == up
    && f.next == (if asked < 63 then asked + 1 else 64)
    && (forall fd: int :: fd in inUse <==> fd > 0 && fd in f.open)
    && 0 !in f.open && forall fd: nat :: fd in f.open ==> fd < 64
  }

  lemma SocketTells(f: Fds, up: bool, asked: nat, inUse: set<int>, domain: int, kind: int, granted: bool)
    requires Tells(f, up, asked, inUse)
    ensures var (f', fd) := f.Socket(domain, kind, granted);
      var n := if up then asked else 0;
      && fd == (if Good(domain, kind) && granted && n < 63 then n + 1 else -1)
      && Tells(f', true, n + if Good(domain, kind) then 1 else 0,
               (if up then inUse else {}) + if fd > 0 then {fd} else {})
  {
  }

  lemma CloseTells(f: Fds, up: bool, asked: nat, inUse: set<int>, fd: int)
    requires Tells(f, up, asked, inUse)
    ensures f.Close(fd).1 == if fd in inUse then 0 else -1
    ensures Tells(f.Close(fd).0, up, asked, inUse - {fd})
  {
  }

  lemma {:induction false} RunTells(ops: seq<Op>)
    ensures Tells(Run(ops).f, Up(ops), Asked(ops), InUse(ops))
  {
    if ops != [] {
      var front := ops[..|ops| - 1];
      RunTells(front);
      match ops[|ops| - 1]
      case Init =>
      case Shutdown =>
      case Socket(domain, kind, granted) =>
        SocketTells(Run(front).f, Up(front), Asked(front), InUse(front), domain, kind, granted);
      case Close(fd) => CloseTells(Run(front).f, Up(front), Asked(front), InUse(front), fd);
      case Use(_) =>
    }
  }

  /** A socket call is granted the number after those that good calls have used up, whether or not these
      had memory, exactly while there are fewer than 63 of them, it is good itself, and there is memory.
      A close succeeds exactly on a descriptor granted and not closed. */
  lemma AnswersFollowCalls(ops: seq<Op>, domain: int, kind: int, granted: bool, fd: int)
    ensures Run(ops).f.Socket(domain, kind, granted).1 ==
            if Good(domain, kind) && granted && AskedNow(ops) < 63 then AskedNow(ops) + 1 else -1
    ensures Run(ops).f.Close(fd).1 == if fd in InUse(ops) then 0 else -1
    ensures Run(ops).f.IsOpen(fd) <==> fd in InUse(ops)
  {
    RunTells(ops);
    SocketTells(Run(ops).f, Up(ops), Asked(ops), InUse(ops), domain, kind, granted);
    CloseTells(Run(ops).f, Up(ops), Asked(ops), InUse(ops), fd);
  }

  /** Calls that leave a table that is down as it is. */
  ghost predicate CloseOrUse(more: seq<Op>) {
    forall k :: 0 <= k < |more| ==> more[k].Close? || more[k].Use?
  }

  lemma {:induction false} StaysDown(ops: seq<Op>, more: seq<Op>)
    requires CloseOrUse(more)
    ensures !Up(ops + [Shutdown] + more)
    decreases |more|
  {
    var all := ops + [Shutdown] + more;
    if more != [] {
      StaysDown(ops, more[..|more| - 1]);
      assert all[..|all| - 1] == ops + [Shutdown] + more[..|more| - 1];
      assert all[|all| - 1] == more[|more| - 1];
    }
  }

  /** After a shutdown the next good socket call starts the table afresh: it returns 1, and 1 is then the
      only open descriptor, whatever was open before and whatever was closed in between. */
  lemma ShutdownStartsAfresh(ops: seq<Op>, more: seq<Op>, domain: int, kind: int, fd: int)
    requires CloseOrUse(more) && Good(domain, kind)
    ensures Run(ops + [Shutdown]).f.open == Run(ops).f.open
    ensures var (f, r) := Run(ops + [Shutdown] + more).f.Socket(domain, kind, true);
      r == 1 && (f.IsOpen(fd) <==> fd == 1)
  {
    var all := ops + [Shutdown] + more;
    RunSnoc(ops, Shutdown);
    StaysDown(ops, more);
    AnswersFollowCalls(all, domain, kind, true, fd);
    RunSnoc(all, Socket(domain, kind, true));
    AnswersFollowCalls(all + [Socket(domain, kind, true)], domain, kind, true, fd);
    assert (all + [Socket(domain, kind, true)])[..|all|] == all;
  }
}
