/** kernel/core/ipc.c: a bounded ring of messages that behaves like an unbounded FIFO history.

    The number of slots and the payload size are symbolic; the shipped values are
    `QUEUE_LENGTH` and `PAYLOAD_SIZE`. */
module Ipc {
  import opened Words

  const QUEUE_LENGTH: nat := 16
  const PAYLOAD_SIZE: nat := 64

  datatype Message = Message(sender: Word32, length: Word16, payload: seq<Byte>)

  /** What a message means to its receiver: bytes past `length` are left over from earlier use. */
  datatype Packet = Packet(sender: Word32, data: seq<Byte>)

  ghost function Meaning(m: Message): Packet
    requires m.length <= |m.payload|
  {
    Packet(m.sender, m.payload[..m.length])
  }

  // ---------------------------------------------------------------- ring positions

  /** The position `i` places after `h` on a ring of `n`. */
  function Around(h: nat, i: nat, n: nat): (r: nat)
    requires h < n && i <= n
    ensures r < n
  {
    if h + i < n then h + i else h + i - n
  }

  lemma AroundIsMod(h: nat, i: nat, n: nat)
    requires h < n && i <= n
    ensures Around(h, i, n) == (h + i) % n
  {
    if h + i >= n { WrapOnce(h + i - n, n); }
  }

  lemma WrapOnce(x: nat, n: nat)
    requires x < n
    ensures (x + n) % n == x
  {
    var q := (x + n) / n;
    assert q * n + (x + n) % n == x + n;
    if q >= 2 { TwiceIsMore(q, n); } else if q == 1 { assert q * n == n; }
  }

  lemma TwiceIsMore(q: nat, n: nat)
    requires q >= 2
    ensures q * n >= 2 * n
  {
    assert (q - 2) * n >= 0;
  }

  /** The endpoint as a value. `size` is the payload capacity of every slot. */
  datatype Ring = Ring(size: Word16, messages: seq<Message>, head: nat, tail: nat, count: nat) {

    ghost predicate Bounds() {
      && 0 < |messages|
      && head < |messages| && tail < |messages| && count <= |messages|
      && tail == Around(head, count, |messages|)
    }

    /** The `i`-th oldest message. */
    ghost function Queued(i: nat): Message
      requires Bounds() && i < count
    {
      messages[Around(head, i, |messages|)]
    }

    ghost predicate Valid() {
      && Bounds()
      && (forall i :: 0 <= i < |messages| ==> |messages[i].payload| == size)
      && (forall i: nat :: i < count ==> Queued(i).length <= size)
    }

    ghost function Means(i: nat): Packet
      requires Valid() && i < count
    {
      assert Queued(i).length <= size;
      Meaning(Queued(i))
    }

    /** The queued messages, oldest first. */
    ghost function Queue(): (q: seq<Packet>)
      requires Valid()
      ensures |q| == count
    {
      seq(count, i requires 0 <= i < count => Means(i))
    }

    function Init(): Ring {
      this.(head := 0, tail := 0, count := 0)
    }

    function Written(sender: Word32, payload: seq<Byte>): Message
      requires Valid() && |payload| <= size
    {
      Message(sender, |payload|, payload + messages[tail].payload[|payload|..])
    }

    function Send(sender: Word32, payload: seq<Byte>): (Ring, Status)
      requires Valid()
    {
      if |payload| > size then (this, Err)
      else if count == |messages| then (this, Full)
      else (this.(messages := messages[tail := Written(sender, payload)],
                  tail := (tail + 1) % |messages|, count := count + 1), Ok)
    }

    function Receive(): (Ring, Status)
      requires Valid()
    {
      if count == 0 then (this, Empty)
      else (this.(head := (head + 1) % |messages|, count := count - 1), Ok)
    }
  }

  // ---------------------------------------------------------------- one call

  lemma SentRing(r: Ring, sender: Word32, payload: seq<Byte>)
    requires r.Valid() && r.Send(sender, payload).1 == Ok
    ensures var r' := r.Send(sender, payload).0;
      && r'.Bounds() && r'.count == r.count + 1
      && (forall i: nat :: i < r.count ==> r'.Queued(i) == r.Queued(i))
      && r'.Queued(r.count) == r.Written(sender, payload)
      && r'.Valid()
  {
    var r' := r.Send(sender, payload).0;
    AroundIsMod(r.tail, 1, |r.messages|);
    forall i: nat | i < r'.count ensures r'.Queued(i).length <= r.size {
      assert i < r.count ==> r'.Queued(i) == r.Queued(i);
    }
  }

  /** Sending appends to the queue. */
  lemma SendEnqueues(r: Ring, sender: Word32, payload: seq<Byte>)
    requires r.Valid()
    ensures var (r', status) := r.Send(sender, payload);
      && r'.Valid() && |r'.messages| == |r.messages| && r'.size == r.size
      && (status == Err <==> |payload| > r.size)
      && (status == Full <==> (|payload| <= r.size && |r.Queue()| == |r.messages|))
      && (status == Ok <==> (|payload| <= r.size && |r.Queue()| < |r.messages|))
      && (status == Ok ==> r'.Queue() == r.Queue() + [Packet(sender, payload)])
      && (status == Ok ==> r'.messages[r.tail].payload[|payload|..] == r.messages[r.tail].payload[|payload|..])
      && (forall i :: 0 <= i < |r.messages| && i != r.tail ==> r'.messages[i] == r.messages[i])
      && (status != Ok ==> r' == r)
  {
    var (r', status) := r.Send(sender, payload);
    if status == Ok {
      SentRing(r, sender, payload);
      assert Meaning(r.Written(sender, payload)).data == payload;
      assert r'.Queue() == r.Queue() + [Packet(sender, payload)];
    }
  }

  lemma ReceivedRing(r: Ring)
    requires r.Valid() && r.count > 0
    ensures var r' := r.Receive().0;
      && r'.Bounds() && r'.count == r.count - 1
      && r.Queued(0) == r.messages[r.head]
      && (forall i: nat :: i < r'.count ==> r'.Queued(i) == r.Queued(i + 1))
      && r'.Valid()
  {
    var r' := r.Receive().0;
    AroundIsMod(r.head, 1, |r.messages|);
    forall i: nat | i < r'.count ensures r'.Queued(i).length <= r.size {
      assert r'.Queued(i) == r.Queued(i + 1);
    }
  }

  /** Receiving takes the oldest message, and leaves its slot as it is. */
  lemma ReceiveDequeues(r: Ring)
    requires r.Valid()
    ensures var (r', status) := r.Receive();
      && r'.Valid() && |r'.messages| == |r.messages| && r'.size == r.size
      && (status == Empty <==> r.Queue() == [])
      && (status == Ok <==> r.Queue() != [])
      && (status != Ok ==> r' == r)
      && (status == Ok ==>
            && r.messages[r.head].length <= |r.messages[r.head].payload|
            && [Meaning(r.messages[r.head])] + r'.Queue() == r.Queue())
  {
    var (r', status) := r.Receive();
    if status == Ok {
      ReceivedRing(r);
      assert r.Queued(0).length <= r.size;
      assert [Meaning(r.messages[r.head])] + r'.Queue() == r.Queue();
    }
  }

  // ---------------------------------------------------------------- histories

  datatype Op = Send(sender: Word32, payload: seq<Byte>) | Receive

  /** An endpoint with everything it ever accepted and everything it ever delivered. */
  datatype History = History(ring: Ring, accepted: seq<Packet>, delivered: seq<Packet>)

  ghost predicate Agrees(h: History) {
    h.ring.Valid() && h.accepted == h.delivered + h.ring.Queue()
  }

  ghost function Step(h: History, op: Op): History
    requires h.ring.Valid()
  {
    match op
    case Send(sender, payload) =>
      var (r, status) := h.ring.Send(sender, payload);
      h.(ring := r, accepted := h.accepted + if status == Ok then [Packet(sender, payload)] else [])
    case Receive =>
      var (r, status) := h.ring.Receive();
      var out := h.ring.messages[h.ring.head];
      h.(ring := r, delivered := h.delivered +
                                 if status == Ok && out.length <= |out.payload| then [Meaning(out)] else [])
  }

  lemma StepAgrees(h: History, op: Op)
    requires Agrees(h)
    ensures Agrees(Step(h, op))
    ensures |Step(h, op).ring.messages| == |h.ring.messages|
  {
    match op
    case Send(sender, payload) => SendEnqueues(h.ring, sender, payload);
    case Receive => ReceiveDequeues(h.ring);
  }

  /** Uninitialised memory of the right shape. */
  ghost predicate Shaped(memory: Ring) {
    0 < |memory.messages| && forall i :: 0 <= i < |memory.messages| ==> |memory.messages[i].payload| == memory.size
  }

  ghost function Run(memory: Ring, ops: seq<Op>): (h: History)
    requires Shaped(memory)
    ensures Agrees(h) && |h.ring.messages| == |memory.messages|
  {
    if ops == [] then
      History(memory.Init(), [], [])
    else
      var h := Run(memory, ops[..|ops| - 1]);
      StepAgrees(h, ops[|ops| - 1]);
      Step(h, ops[|ops| - 1])
  }

  /** The packets of one sender, in order. */
  ghost function From(sender: Word32, ps: seq<Packet>): seq<Packet> {
    if ps == [] then []
    else From(sender, ps[..|ps| - 1]) + if ps[|ps| - 1].sender == sender then [ps[|ps| - 1]] else []
  }

  lemma {:induction false} FromAppend(sender: Word32, a: seq<Packet>, b: seq<Packet>)
    ensures From(sender, a + b) == From(sender, a) + From(sender, b)
  {
    if b == [] {
      assert a + b == a;
    } else {
      FromAppend(sender, a, b[..|b| - 1]);
      assert (a + b)[..|a + b| - 1] == a + b[..|b| - 1];
    }
  }

  /** The answers are exactly what the history says: a message is accepted if and only if it fits and fewer
      messages are on their way than there are slots, and one is delivered if and only if one is on its way. */
  lemma AnswersFollowHistory(h: History, sender: Word32, payload: seq<Byte>)
    requires Agrees(h)
    ensures h.ring.Send(sender, payload).1 == Err <==> |payload| > h.ring.size
    ensures h.ring.Send(sender, payload).1 == Full <==>
            (|payload| <= h.ring.size && |h.accepted| - |h.delivered| == |h.ring.messages|)
    ensures h.ring.Send(sender, payload).1 == Ok <==>
            (|payload| <= h.ring.size && |h.accepted| - |h.delivered| < |h.ring.messages|)
    ensures h.ring.Receive().1 == Empty <==> h.accepted == h.delivered
    ensures h.ring.Receive().1 == Ok <==> |h.accepted| > |h.delivered|
  {
    assert |h.accepted| == |h.delivered| + h.ring.count;
    assert h.ring.count == 0 ==> h.delivered + h.ring.Queue() == h.delivered;
  }

  /** What was accepted is what was delivered followed by what the ring holds, for all senders together
      and for each one; and the ring holds it between `head` and `tail`. */
  ghost predicate IsFifo(h: History, sender: Word32) {
    && h.ring.Valid()
    && h.accepted == h.delivered + h.ring.Queue()
    && From(sender, h.accepted) == From(sender, h.delivered) + From(sender, h.ring.Queue())
    && h.ring.tail == (h.ring.head + h.ring.count) % |h.ring.messages|
  }

  lemma AgreeingIsFifo(h: History, sender: Word32)
    requires Agrees(h)
    ensures IsFifo(h, sender)
  {
    FromAppend(sender, h.delivered, h.ring.Queue());
    AroundIsMod(h.ring.head, h.ring.count, |h.ring.messages|);
  }

  /** Over every interleaving of sends and receives nothing is lost, repeated or reordered. */
  lemma HistoryRefinesFifo(memory: Ring, ops: seq<Op>, sender: Word32)
    requires Shaped(memory)
    ensures IsFifo(Run(memory, ops), sender)
  {
    AgreeingIsFifo(Run(memory, ops), sender);
  }

  /** The scenario of the host test, on an endpoint of the shipped size: one message goes through. */
  lemma HostTestScenario(memory: Ring, payload: seq<Byte>)
    requires Shaped(memory) && |memory.messages| == QUEUE_LENGTH && memory.size == PAYLOAD_SIZE
    requires |payload| == 15
    ensures var r := memory.Init(); var (r', sent) := r.Send(7, payload);
      && r.Valid() && r.Receive().1 == Empty
      && sent == Ok && r'.Valid() && r'.Receive().1 == Ok
      && r'.messages[r'.head].length == 15 && |r'.messages[r'.head].payload| == PAYLOAD_SIZE
      && Meaning(r'.messages[r'.head]) == Packet(7, payload)
  {
    var r := memory.Init();
    SendEnqueues(r, 7, payload);
    ReceiveDequeues(r.Send(7, payload).0);
  }

  // ---------------------------------------------------------------- the code

  class Endpoint {
    const size: Word16
    const messages: array<Message>
    var head: nat
    var tail: nat
    var count: nat

    ghost function State(): Ring reads this, messages {
      Ring(size, messages[..], head, tail, count)
    }

    ghost predicate Valid() reads this, messages {
      State().Valid()
    }

    /** Takes over uninitialised memory and runs `nova_ipc_endpoint_init` on it. */
    constructor (memory: Ring)
      requires Shaped(memory)
      ensures Valid() && fresh(messages)
      ensures State() == memory.Init() && head == tail == count == 0
    {
      size := memory.size;
      messages := new Message[|memory.messages|](i requires 0 <= i < |memory.messages| => memory.messages[i]);
      head, tail, count := 0, 0, 0;
      new;
      assert messages[..] == memory.messages;
    }

    method Init()
      requires Valid()
      modifies this
      ensures Valid()
      ensures State() == old(State()).Init() && head == tail == count == 0
      ensures State().Queue() == []
    {
      head, tail, count := 0, 0, 0;
    }

    method Send(sender: Word32, payload: seq<Byte>) returns (status: Status)
      requires Valid()
      modifies this, messages
      ensures Valid()
      ensures (State(), status) == old(State()).Send(sender, payload)
      ensures status == if |payload| > size then Err
                        else if |old(State().Queue())| == messages.Length then Full else Ok
      ensures State().Queue() == old(State().Queue()) + if status == Ok then [Packet(sender, payload)] else []
    {
      SendEnqueues(State(), sender, payload);
      if |payload| > size {
        return Err;
      }
      if count == messages.Length {
        return Full;
      }
      var slot := messages[tail];
      messages[tail] := Message(sender, |payload|, payload + slot.payload[|payload|..]);
      tail := (tail + 1) % messages.Length;
      count := count + 1;
      status := Ok;
    }

    /** `into` is what the caller's message held before; EMPTY leaves it as it is. */
    method Receive(into: Message) returns (status: Status, message: Message)
      requires Valid()
      modifies this
      ensures Valid()
      ensures (State(), status) == old(State()).Receive()
      ensures status == if old(State().Queue()) == [] then Empty else Ok
      ensures status == Ok ==> message == old(messages[head]) && message.length <= |message.payload|
      ensures status == Empty ==> message == into
      ensures status == Ok ==> [Meaning(message)] + State().Queue() == old(State().Queue())
    {
      ReceiveDequeues(State());
      if count == 0 {
        return Empty, into;
      }
      message := messages[head];
      head := (head + 1) % messages.Length;
      count := count - 1;
      status := Ok;
    }
  }
}
