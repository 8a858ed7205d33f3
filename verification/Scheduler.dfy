/** kernel/core/scheduler.c: a fixed array of threads, strict priority, fair share by `quanta`.

    The operations are pure functions on a snapshot (`Sched`); the class `Scheduler` is the
    in-place code and every one of its methods is proved to compute the matching function.
    The number of slots is symbolic; the shipped value is `MAX_THREADS`. */
module Scheduling {
  import opened Words

  const MAX_THREADS: nat := 32

  datatype ThreadState = Dead | Runnable | Blocked
  datatype Thread = Thread(id: Word32, priority: Byte, quanta: Word64, state: ThreadState)

  // ---------------------------------------------------------------- what "next" means

  predicate IsRunnable(ts: seq<Thread>, i: nat) {
    i < |ts| && ts[i].state == Runnable
  }

  /** Slot `i` is served before slot `j`: higher priority, then fewer quanta, then lower index. */
  predicate Before(ts: seq<Thread>, i: nat, j: nat)
    requires i < |ts| && j < |ts|
  {
    || ts[i].priority > ts[j].priority
    || (ts[i].priority == ts[j].priority && ts[i].quanta < ts[j].quanta)
    || (ts[i].priority == ts[j].priority && ts[i].quanta == ts[j].quanta && i < j)
  }

  ghost predicate IsBest(ts: seq<Thread>, i: nat) {
    IsRunnable(ts, i) && forall j: nat :: IsRunnable(ts, j) && j != i ==> Before(ts, i, j)
  }

  /** The best runnable slot among the first `n`, or `n` when none of them is runnable. */
  function Select(ts: seq<Thread>, n: nat): (r: nat)
    requires n <= |ts|
    ensures r <= n
    ensures r < n ==> IsRunnable(ts, r)
    ensures forall j: nat :: j < n && IsRunnable(ts, j) && j != r ==> r < n && Before(ts, r, j)
  {
    if n == 0 then 0 else
      var r := Select(ts, n - 1);
      if ts[n - 1].state != Runnable then (if r == n - 1 then n else r)
      else if r == n - 1 then n - 1
      else if Before(ts, n - 1, r) then n - 1
      else r
  }

  /** The slot that is served next; `|ts|` when no thread is runnable. */
  function Pick(ts: seq<Thread>): nat {
    Select(ts, |ts|)
  }

  lemma PickIsBest(ts: seq<Thread>)
    ensures Pick(ts) == |ts| <==> forall j: nat :: !IsRunnable(ts, j)
    ensures Pick(ts) != |ts| ==> IsBest(ts, Pick(ts))
    ensures forall i: nat :: IsBest(ts, i) ==> i == Pick(ts)
  {
    forall i: nat | IsBest(ts, i) ensures i == Pick(ts) {
      assert IsRunnable(ts, i);
    }
  }

  // ---------------------------------------------------------------- the operations

  function Buried(t: Thread): Thread { t.(state := Dead) }

  /** The first dead slot at or after `from`; `|ts|` when there is none. */
  function FirstDead(ts: seq<Thread>, from: nat := 0): (r: nat)
    requires from <= |ts|
    ensures from <= r <= |ts|
    ensures r < |ts| ==> ts[r].state == Dead
    ensures forall j :: from <= j < r ==> ts[j].state != Dead
    decreases |ts| - from
  {
    if from == |ts| || ts[from].state == Dead then from else FirstDead(ts, from + 1)
  }

  function Charge(ts: seq<Thread>, i: nat): (r: seq<Thread>)
    requires i < |ts|
    ensures |r| == |ts|
  {
    ts[i := ts[i].(quanta := Succ64(ts[i].quanta))]
  }

  datatype Sched = Sched(threads: seq<Thread>, count: Word64, tick: Word64) {

    predicate Sized() { 0 < |threads| < 0x8000_0000 }

    /** The id names a slot that is in use. */
    predicate Names(id: Word32) {
      0 < id <= |threads| && threads[id - 1].state != Dead
    }

    static function Init(memory: seq<Thread>): Sched {
      Sched(seq(|memory|, i requires 0 <= i < |memory| => Buried(memory[i])), 0, 0)
    }

    function Add(priority: Byte): (Sched, Status, Word32)
      requires Sized()
    {
      var i := FirstDead(threads);
      if i == |threads| then (this, Full, 0)
      else (Sched(threads[i := Thread(i + 1, priority, 0, Runnable)], Succ64(count), tick), Ok, i + 1)
    }

    function SetState(id: Word32, state: ThreadState): (Sched, Status) {
      if !Names(id) then (this, NotFound)
      else (this.(threads := threads[id - 1 := threads[id - 1].(state := state)]), Ok)
    }

    /** The id returned to the caller, -1 when nothing can run. */
    function PickNext(): int {
      var i := Pick(threads);
      if i == |threads| then -1 else threads[i].id
    }

    function Account(id: Word32): Sched {
      if !Names(id) then this
      else Sched(Charge(threads, id - 1), count, Succ64(tick))
    }
  }

  // ---------------------------------------------------------------- the code

  class Scheduler {
    const threads: array<Thread>
    var count: Word64
    var tick: Word64

    ghost predicate Valid() reads this {
      0 < threads.Length < 0x8000_0000
    }

    ghost function State(): Sched reads this, threads {
      Sched(threads[..], count, tick)
    }

    /** Takes over uninitialised memory and runs `nova_sched_init` on it. */
    constructor (memory: seq<Thread>)
      requires 0 < |memory| < 0x8000_0000
      ensures Valid() && fresh(threads)
      ensures State() == Sched.Init(memory)
    {
      threads := new Thread[|memory|](i requires 0 <= i < |memory| => memory[i]);
      count, tick := 0, 0;
      new;
      assert threads[..] == memory;
      Init();
    }

    method Init()
      requires Valid()
      modifies this, threads
      ensures Valid()
      ensures State() == Sched.Init(old(threads[..]))
      ensures forall i :: 0 <= i < threads.Length ==> threads[i] == old(threads[i]).(state := Dead)
    {
      count := 0;
      tick := 0;
      for index := 0 to threads.Length
        invariant count == 0 && tick == 0
        invariant forall i :: 0 <= i < index ==> threads[i] == Buried(old(threads[i]))
        invariant forall i :: index <= i < threads.Length ==> threads[i] == old(threads[i])
      {
        threads[index] := threads[index].(state := Dead);
      }
    }

    method Add(priority: Byte) returns (status: Status, id: Word32)
      requires Valid()
      modifies this, threads
      ensures Valid()
      ensures (State(), status, id) == old(State()).Add(priority)
    {
      for index := 0 to threads.Length
        invariant State() == old(State())
        invariant FirstDead(threads[..]) == FirstDead(threads[..], index)
      {
        if threads[index].state != Dead {
          continue;
        }
        threads[index] := threads[index].(id := index + 1, priority := priority, quanta := 0, state := Runnable);
        count := Succ64(count);
        assert threads[..] == old(threads[..])[index := Thread(index + 1, priority, 0, Runnable)];
        return Ok, threads[index].id;
      }
      return Full, 0;
    }

    method SetState(id: Word32, state: ThreadState) returns (status: Status)
      requires Valid()
      modifies threads
      ensures Valid()
      ensures (State(), status) == old(State()).SetState(id, state)
      ensures status == if 0 < id <= threads.Length && old(threads[id - 1].state) != Dead then Ok else NotFound
      ensures status == Ok ==> threads[id - 1] == old(threads[id - 1]).(state := state)
      ensures forall i :: 0 <= i < threads.Length && (i != id - 1 || status != Ok) ==> threads[i] == old(threads[i])
    {
      if id == 0 || id > threads.Length {
        return NotFound;
      }
      var index := id - 1;
      if threads[index].state == Dead {
        return NotFound;
      }
      threads[index] := threads[index].(state := state);
      status := Ok;
    }

    method PickNext() returns (r: int)
      requires Valid()
      ensures r == State().PickNext()
    {
      var selected := -1;
      for index := 0 to threads.Length
        invariant -1 <= selected < index
        invariant Select(threads[..], index) == if selected < 0 then index else selected
      {
        if threads[index].state != Runnable {
          continue;
        }
        if selected < 0 {
          selected := index;
          continue;
        }
        if threads[index].priority > threads[selected].priority
          || (threads[index].priority == threads[selected].priority
              && threads[index].quanta < threads[selected].quanta) {
          selected := index;
        }
      }
      r := if selected < 0 then -1 else threads[selected].id;
    }

    method Account(id: Word32)
      requires Valid()
      modifies this, threads
      ensures Valid()
      ensures State() == old(State()).Account(id)
      ensures forall i :: 0 <= i < threads.Length ==>
        threads[i] == if i == id - 1 && old(threads[i].state) != Dead
                      then old(threads[i]).(quanta := Succ64(old(threads[i].quanta))) else old(threads[i])
    {
      if id == 0 || id > threads.Length {
        return;
      }
      if threads[id - 1].state != Dead {
        threads[id - 1] := threads[id - 1].(quanta := Succ64(threads[id - 1].quanta));
        tick := Succ64(tick);
      }
    }
  }
}
