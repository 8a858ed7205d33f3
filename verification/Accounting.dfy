/** Conservation over every run of the scheduler: where the ticks and the thread count come from. */
module Accounting {
  import opened Words
  import opened Scheduling
  import opened Fairness

  datatype Op = AddThread(priority: Byte) | ChangeState(id: Word32, state: ThreadState)
              | AskNext | ChargeId(id: Word32)

  /** The scheduler together with what its history did: the slots ever handed out, the quanta lost
      when `nova_sched_add` took over a dead slot, the threads that were moved to DEAD. */
  datatype Book = Book(s: Sched, used: set<nat>, discarded: nat, deaths: nat)

  function Open(memory: seq<Thread>): Book {
    Book(Sched.Init(memory), {}, 0, 0)
  }

  function Step(b: Book, op: Op): Book
    requires b.s.Sized()
  {
    match op
    case AddThread(priority) =>
      var (s', status, id) := b.s.Add(priority);
      var i := FirstDead(b.s.threads);
      if status != Ok then b.(s := s')
      else b.(s := s', used := b.used + {i},
              discarded := b.discarded + if i in b.used then b.s.threads[i].quanta else 0)
    case ChangeState(id, state) =>
      var (s', status) := b.s.SetState(id, state);
      b.(s := s', deaths := b.deaths + if status == Ok && state == Dead then 1 else 0)
    case AskNext => b
    case ChargeId(id) => b.(s := b.s.Account(id))
  }

  ghost function Run(memory: seq<Thread>, ops: seq<Op>): (b: Book)
    requires 0 < |memory| < 0x8000_0000
    ensures b.s.Sized() && |b.s.threads| == |memory|
  {
    if ops == [] then Open(memory) else Step(Run(memory, ops[..|ops| - 1]), ops[|ops| - 1])
  }

  function UsedQuanta(ts: seq<Thread>, used: set<nat>, n: nat): nat
    requires n <= |ts|
  {
    if n == 0 then 0 else UsedQuanta(ts, used, n - 1) + if n - 1 in used then ts[n - 1].quanta else 0
  }

  function LiveCount(ts: seq<Thread>, n: nat): nat
    requires n <= |ts|
  {
    if n == 0 then 0 else LiveCount(ts, n - 1) + if ts[n - 1].state != Dead then 1 else 0
  }

  ghost predicate Balanced(b: Book) {
    && b.s.Sized()
    && (forall i: nat :: i < |b.s.threads| && b.s.threads[i].state != Dead ==> i in b.used)
    && (forall i: nat :: i < |b.s.threads| && i in b.used ==> b.s.threads[i].id == i + 1)
    && Same64(b.s.tick, UsedQuanta(b.s.threads, b.used, |b.s.threads|) + b.discarded)
    && Same64(b.s.count, LiveCount(b.s.threads, |b.s.threads|) + b.deaths)
  }

  /** Replacing one slot moves the sums by that slot's share only. */
  lemma {:induction false} SumsAfterUpdate(ts: seq<Thread>, used: set<nat>, i: nat, t: Thread, used': set<nat>, n: nat)
    requires i < |ts| && n <= |ts| && used' - {i} == used - {i}
    ensures UsedQuanta(ts[i := t], used', n) ==
            UsedQuanta(ts, used, n) + if i >= n then 0
              else (if i in used' then t.quanta else 0) - (if i in used then ts[i].quanta else 0)
    ensures LiveCount(ts[i := t], n) ==
            LiveCount(ts, n) + if i >= n then 0
              else (if t.state != Dead then 1 else 0) - (if ts[i].state != Dead then 1 else 0)
  {
    if n > 0 {
      SumsAfterUpdate(ts, used, i, t, used', n - 1);
      assert n - 1 != i ==> (n - 1 in used' <==> n - 1 in used' - {i});
    }
  }

  lemma {:induction false} NothingUsed(ts: seq<Thread>, n: nat)
    requires n <= |ts| && forall i: nat :: i < n ==> ts[i].state == Dead
    ensures UsedQuanta(ts, {}, n) == 0 && LiveCount(ts, n) == 0
  {
    if n > 0 { NothingUsed(ts, n - 1); }
  }

  /** Moving both sides by the same amount, up to `w` wrap-arounds, keeps them the same word. */
  lemma SameAfter(a: int, b: int, a': int, b': int, w: int)
    requires Same64(a, b) && a' - a == b' - b + 0x1_0000_0000_0000_0000 * w
    ensures Same64(a', b')
  {
    var v :| Wraps64(a, b, v);
    assert Wraps64(a', b', v + w);
  }

  lemma AddKeepsBalance(b: Book, priority: Byte)
    requires Balanced(b)
    ensures Balanced(Step(b, AddThread(priority)))
  {
    var ts, b' := b.s.threads, Step(b, AddThread(priority));
    var i, n := FirstDead(ts), |ts|;
    if i < n {
      SumsAfterUpdate(ts, b.used, i, Thread(i + 1, priority, 0, Runnable), b.used + {i}, n);
      SameAfter(b.s.count, LiveCount(ts, n) + b.deaths, b'.s.count, LiveCount(b'.s.threads, n) + b'.deaths,
                if b.s.count == MAX_64 then -1 else 0);
    }
  }

  lemma ChangeKeepsBalance(b: Book, id: Word32, state: ThreadState)
    requires Balanced(b)
    ensures Balanced(Step(b, ChangeState(id, state)))
  {
    var ts := b.s.threads;
    if b.s.Names(id) {
      SumsAfterUpdate(ts, b.used, id - 1, ts[id - 1].(state := state), b.used, |ts|);
    }
  }

  lemma ChargeKeepsBalance(b: Book, id: Word32)
    requires Balanced(b)
    ensures Balanced(Step(b, ChargeId(id)))
  {
    var ts, b' := b.s.threads, Step(b, ChargeId(id));
    var n := |ts|;
    if b.s.Names(id) {
      SumsAfterUpdate(ts, b.used, id - 1, ts[id - 1].(quanta := Succ64(ts[id - 1].quanta)), b.used, n);
      SameAfter(b.s.tick, UsedQuanta(ts, b.used, n) + b.discarded,
                b'.s.tick, UsedQuanta(b'.s.threads, b.used, n) + b.discarded,
                (if ts[id - 1].quanta == MAX_64 then 1 else 0) - (if b.s.tick == MAX_64 then 1 else 0));
    }
  }

  lemma StepKeepsBalance(b: Book, op: Op)
    requires Balanced(b)
    ensures Balanced(Step(b, op))
  {
    match op
    case AddThread(priority) => AddKeepsBalance(b, priority);
    case ChangeState(id, state) => ChangeKeepsBalance(b, id, state);
    case AskNext =>
    case ChargeId(id) => ChargeKeepsBalance(b, id);
  }

  lemma ZeroIsZero()
    ensures Same64(0, 0)
  {
    assert Wraps64(0, 0, 0);
  }

  lemma OpenIsBalanced(memory: seq<Thread>)
    requires 0 < |memory| < 0x8000_0000
    ensures Balanced(Open(memory))
  {
    var b := Open(memory);
    assert forall i: nat :: i < |memory| ==> b.s.threads[i].state == Dead;
    NothingUsed(b.s.threads, |memory|);
    ZeroIsZero();
  }

  lemma {:induction false} RunIsBalanced(memory: seq<Thread>, ops: seq<Op>)
    requires 0 < |memory| < 0x8000_0000
    ensures Balanced(Run(memory, ops))
  {
    if ops == [] {
      OpenIsBalanced(memory);
    } else {
      RunIsBalanced(memory, ops[..|ops| - 1]);
      StepKeepsBalance(Run(memory, ops[..|ops| - 1]), ops[|ops| - 1]);
    }
  }

  lemma SameMeansModulo(a: Word64, b: nat)
    requires Same64(a, b)
    ensures a == b % 0x1_0000_0000_0000_0000
  {
    var v :| Wraps64(a, b, v);
  }

  /** Ids address their slots, every tick is a quantum that some slot holds or that went with a reused
      slot, and the count is the live threads plus the deaths. */
  ghost predicate Conserved(b: Book) {
    && Ready(b.s)
    && b.s.tick == (UsedQuanta(b.s.threads, b.used, |b.s.threads|) + b.discarded) % 0x1_0000_0000_0000_0000
    && b.s.count == (LiveCount(b.s.threads, |b.s.threads|) + b.deaths) % 0x1_0000_0000_0000_0000
  }

  lemma BalancedIsConserved(b: Book)
    requires Balanced(b)
    ensures Conserved(b)
  {
    SameMeansModulo(b.s.tick, UsedQuanta(b.s.threads, b.used, |b.s.threads|) + b.discarded);
    SameMeansModulo(b.s.count, LiveCount(b.s.threads, |b.s.threads|) + b.deaths);
  }

  /** After every sequence of calls, whatever the memory held before, the books are in order. */
  lemma EveryRunConserves(memory: seq<Thread>, ops: seq<Op>)
    requires 0 < |memory| < 0x8000_0000
    ensures Conserved(Run(memory, ops))
  {
    RunIsBalanced(memory, ops);
    BalancedIsConserved(Run(memory, ops));
  }

  lemma {:induction false} LiveCountBound(ts: seq<Thread>, n: nat)
    requires n <= |ts|
    ensures LiveCount(ts, n) <= n
    ensures LiveCount(ts, n) == n <==> forall i: nat :: i < n ==> ts[i].state != Dead
  {
    if n > 0 { LiveCountBound(ts, n - 1); }
  }

  /** A thread is refused exactly when every slot holds a live thread; otherwise it gets a slot that
      no live thread has. So `count`, which never goes down, plays no part in it. */
  lemma AddRefusesWhenAllLive(s: Sched, priority: Byte)
    requires s.Sized()
    ensures var (s', status, id) := s.Add(priority);
      && (status == Full <==> LiveCount(s.threads, |s.threads|) == |s.threads|)
      && (status == Full ==> s' == s)
      && (status != Full ==>
            && status == Ok && 0 < id <= |s.threads| && s.threads[id - 1].state == Dead
            && (forall i: nat :: i < id - 1 ==> s.threads[i].state != Dead)
            && s'.threads[id - 1] == Thread(id, priority, 0, Runnable)
            && s'.count == (s.count + 1) % 0x1_0000_0000_0000_0000 && s'.tick == s.tick && |s'.threads| == |s.threads|
            && forall i: nat :: i < |s.threads| && i != id - 1 ==> s'.threads[i] == s.threads[i])
  {
    LiveCountBound(s.threads, |s.threads|);
  }

  lemma CountOfConserved(b: Book)
    requires Conserved(b) && b.deaths < TWO_TO_64
    ensures b.s.count == LiveCount(b.s.threads, |b.s.threads|) <==> b.deaths == 0
  {
    LiveCountBound(b.s.threads, |b.s.threads|);
  }

  /** The count is the number of live threads exactly while no thread has died. */
  lemma CountIsLiveIffNoDeaths(memory: seq<Thread>, ops: seq<Op>)
    requires 0 < |memory| < 0x8000_0000
    requires Run(memory, ops).deaths < TWO_TO_64
    ensures var b := Run(memory, ops);
      b.s.count == LiveCount(b.s.threads, |b.s.threads|) <==> b.deaths == 0
  {
    EveryRunConserves(memory, ops);
    CountOfConserved(Run(memory, ops));
  }

  /** A call sequence after which the count is not the number of live threads. */
  lemma CountKeepsTheDead(memory: seq<Thread>)
    requires 0 < |memory| < 0x8000_0000
    ensures var b := Run(memory, [AddThread(0), ChangeState(1, Dead)]);
      b.deaths == 1 && b.s.count == 1 && LiveCount(b.s.threads, |b.s.threads|) == 0
  {
    var ops := [AddThread(0), ChangeState(1, Dead)];
    assert ops[..1] == [AddThread(0)] && ops[..1][..0] == [];
    var b := Step(Open(memory), AddThread(0));
    assert FirstDead(Open(memory).s.threads) == 0;
    assert Run(memory, ops[..1]) == b;
    NothingUsed(Step(b, ops[1]).s.threads, |memory|);
  }

  /** In every reachable state the next thread is the unique best runnable one, by the id it was
      given, and charging that id charges that thread. */
  lemma NextIsBestInEveryRun(memory: seq<Thread>, ops: seq<Op>)
    requires 0 < |memory| < 0x8000_0000
    ensures var s := Run(memory, ops).s; var next := s.PickNext();
      && (next == -1 <==> forall i: nat :: !IsRunnable(s.threads, i))
      && (next != -1 ==>
            && 0 < next <= |s.threads| && IsBest(s.threads, next - 1)
            && Dispatch(s).threads == Charge(s.threads, next - 1)
            && Dispatch(s).tick == Succ64(s.tick))
      && (forall i: nat :: IsBest(s.threads, i) ==> next == i + 1)
  {
    EveryRunConserves(memory, ops);
    var s := Run(memory, ops).s;
    PickIsBest(s.threads);
    if Pick(s.threads) == |s.threads| { DispatchIdle(s); } else { DispatchCharges(s, Pick(s.threads)); }
  }

  /** Two threads of equal priority, and `k` quanta charged to the second. */
  function TwoThreads(k: nat): seq<Op> {
    [AddThread(0), AddThread(0)] + seq(k, i => ChargeId(2))
  }

  /** The state after that: both threads run, and the second has had `k` quanta. */
  ghost predicate SecondHasHad(s: Sched, k: Word64) {
    && |s.threads| >= 2
    && s.threads[0] == Thread(1, 0, 0, Runnable) && s.threads[1] == Thread(2, 0, k, Runnable)
    && forall i :: 2 <= i < |s.threads| ==> s.threads[i].state == Dead
  }

  lemma TwoAdds(memory: seq<Thread>)
    requires 2 <= |memory| < 0x8000_0000
    ensures SecondHasHad(Sched.Init(memory).Add(0).0.Add(0).0, 0)
  {
    var s0 := Sched.Init(memory);
    var s1 := s0.Add(0).0;
    assert FirstDead(s0.threads) == 0 && s1.threads[1].state == Dead;
    assert FirstDead(s1.threads) == 1;
  }

  lemma TwoThreadsAdded(memory: seq<Thread>)
    requires 2 <= |memory| < 0x8000_0000
    ensures Run(memory, TwoThreads(0)).s == Sched.Init(memory).Add(0).0.Add(0).0
  {
    var ops := TwoThreads(0);
    assert ops == [AddThread(0), AddThread(0)];
    assert ops[..1] == [AddThread(0)] && ops[..1][..0] == [];
    assert Run(memory, ops[..1]) == Step(Open(memory), AddThread(0));
  }

  lemma {:induction false} SecondIsCharged(memory: seq<Thread>, k: nat)
    requires 2 <= |memory| < 0x8000_0000 && k <= MAX_64
    ensures SecondHasHad(Run(memory, TwoThreads(k)).s, k)
  {
    if k == 0 {
      TwoThreadsAdded(memory);
      TwoAdds(memory);
    } else {
      SecondIsCharged(memory, k - 1);
      var ops := TwoThreads(k);
      assert ops[..|ops| - 1] == TwoThreads(k - 1) && ops[|ops| - 1] == ChargeId(2);
    }
  }

  lemma SecondStarves(s: Sched, k: nat)
    requires Ready(s) && SecondHasHad(s, MAX_64)
    ensures IsTop(s.threads, 1) && !CanReachTurn(s.threads, 1)
    ensures Rounds(s, k).PickNext() != 2
  {
    assert IsRunnable(s.threads, 1) && IsPeer(s.threads, 1, 0);
    SaturatedStarves(s, 1, k);
  }

  /** The state in which a thread starves is one that the scheduler's own calls reach. */
  lemma StarvationIsReachable(memory: seq<Thread>) returns (ops: seq<Op>)
    requires 2 <= |memory| < 0x8000_0000
    ensures var s := Run(memory, ops).s;
      IsTop(s.threads, 1) && !CanReachTurn(s.threads, 1) && forall k: nat :: Rounds(s, k).PickNext() != 2
  {
    ops := TwoThreads(MAX_64);
    var s := Run(memory, ops).s;
    SecondIsCharged(memory, MAX_64);
    EveryRunConserves(memory, ops);
    SecondStarves(s, 0);
    forall k: nat ensures Rounds(s, k).PickNext() != 2 {
      SecondStarves(s, k);
    }
  }

  /** Of two equal threads that have had nothing yet, both with a turn to come, the second is not served
      for ever. */
  lemma SecondIsForgotten(memory: seq<Thread>) returns (ops: seq<Op>)
    requires 2 <= |memory| < 0x8000_0000
    ensures var s := Run(memory, ops).s;
      && IsTop(s.threads, 0) && IsTop(s.threads, 1) && s.threads[0].quanta == s.threads[1].quanta == 0
      && CanReachTurn(s.threads, 1) && ServedForEver(s, 0) && !ServedForEver(s, 1)
  {
    ops := TwoThreads(0);
    var s := Run(memory, ops).s;
    SecondIsCharged(memory, 0);
    EveryRunConserves(memory, ops);
    assert IsTop(s.threads, 0) && IsTop(s.threads, 1);
    ServedForEverIffFirst(s, 0);
    ServedForEverIffFirst(s, 1);
  }

  /** The scenario of the host test, on a scheduler of the shipped size. */
  lemma HostTestScenario(memory: seq<Thread>)
    requires |memory| == MAX_THREADS
    ensures var (s1, _, low) := Sched.Init(memory).Add(10);
      var (s2, _, high) := s1.Add(50);
      var (s3, status) := s2.Account(high).SetState(high, Blocked);
      s2.PickNext() == high && status == Ok && s3.PickNext() == low
  {
    var s0 := Sched.Init(memory);
    var (s1, _, low) := s0.Add(10);
    assert FirstDead(s0.threads) == 0 && s1.threads[1].state == Dead;
    var (s2, _, high) := s1.Add(50);
    assert FirstDead(s1.threads) == 1;
    assert IsBest(s2.threads, 1);
    PickIsBest(s2.threads);
    var (s3, _) := s2.Account(high).SetState(high, Blocked);
    assert IsBest(s3.threads, 0);
    PickIsBest(s3.threads);
  }
}
