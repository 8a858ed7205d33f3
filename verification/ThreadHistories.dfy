/** What each call of the scheduler touches and what it leaves alone, and what a thread is after a run, told
    by the calls that were made about it. */
module ThreadHistories {
  import opened Words
  import opened Scheduling
  import opened Fairness
  import opened Accounting

  // ---------------------------------------------------------------- one call

  /** Every slot but the `i`-th, and the number of slots, is the same. */
  ghost predicate OnlySlot(ts: seq<Thread>, ts': seq<Thread>, i: nat) {
    |ts'| == |ts| && forall j: nat :: j < |ts| && j != i ==> ts'[j] == ts[j]
  }

  /** The slot exists and holds a live thread. */
  ghost predicate IsLive(s: Sched, id: Word32) {
    0 < id <= |s.threads| && s.threads[id - 1].state != Dead
  }

  /** A state change is refused exactly for an id without a live thread, and touches nothing but the state. */
  lemma StateChangeTouchesState(s: Sched, id: Word32, state: ThreadState)
    ensures var (s', status) := s.SetState(id, state);
      && status == (if IsLive(s, id) then Ok else NotFound)
      && (!IsLive(s, id) ==> s' == s)
      && (IsLive(s, id) ==>
            && s'.count == s.count && s'.tick == s.tick && OnlySlot(s.threads, s'.threads, id - 1)
            && var (t, t') := (s.threads[id - 1], s'.threads[id - 1]);
               t'.id == t.id && t'.priority == t.priority && t'.quanta == t.quanta && t'.state == state)
  {
  }

  /** The last of several state changes counts: blocking a thread and waking it again restores the
      scheduler, and with it the thread that is next. */
  lemma LastStateCounts(s: Sched, id: Word32, between: ThreadState, state: ThreadState)
    requires IsLive(s, id) && between != Dead
    ensures s.SetState(id, between).0.SetState(id, state) == s.SetState(id, state)
    ensures state == s.threads[id - 1].state ==> s.SetState(id, between).0.SetState(id, state) == (s, Ok)
  {
    var s1 := s.SetState(id, between).0;
    StateChangeTouchesState(s, id, between);
    StateChangeTouchesState(s1, id, state);
    StateChangeTouchesState(s, id, state);
    SameSlots(s1.SetState(id, state).0.threads, s.SetState(id, state).0.threads, id - 1);
    if state == s.threads[id - 1].state { SameSlots(s.SetState(id, state).0.threads, s.threads, id - 1); }
  }

  lemma SameSlots(ts: seq<Thread>, ts': seq<Thread>, i: nat)
    requires OnlySlot(ts, ts', i) && (i < |ts| ==> ts'[i] == ts[i])
    ensures ts == ts'
  {
  }

  /** Charging a live thread, picked or not, runnable or blocked, adds one quantum to it and one tick,
      modulo 2^64; any other id charges nothing. */
  lemma ChargeTouchesOneSlot(s: Sched, id: Word32)
    ensures var s' := s.Account(id);
      && (!IsLive(s, id) ==> s' == s)
      && (IsLive(s, id) ==>
            && s'.count == s.count && s'.tick == (s.tick + 1) % 0x1_0000_0000_0000_0000
            && OnlySlot(s.threads, s'.threads, id - 1)
            && var (t, t') := (s.threads[id - 1], s'.threads[id - 1]);
               t'.id == t.id && t'.priority == t.priority && t'.state == t.state
               && t'.quanta == (t.quanta + 1) % 0x1_0000_0000_0000_0000)
  {
  }

  // ---------------------------------------------------------------- runs

  /** A thread as the calls made about its id tell it. `charged` is not limited to 64 bits. */
  datatype Life = Unborn | Life(priority: Byte, charged: nat, state: ThreadState)

  predicate Alive(l: Life) {
    l.Life? && l.state != Dead
  }

  ghost function LifeOf(memory: seq<Thread>, ops: seq<Op>, id: nat): Life
    requires 0 < |memory| < 0x8000_0000
  {
    if ops == [] then Unborn else
      var before := LifeOf(memory, ops[..|ops| - 1], id);
      match ops[|ops| - 1]
      case AddThread(priority) =>
        var (_, status, i) := Run(memory, ops[..|ops| - 1]).s.Add(priority);
        if status == Ok && i == id then Life(priority, 0, Runnable) else before
      case ChangeState(i, state) => if i == id && Alive(before) then before.(state := state) else before
      case AskNext => before
      case ChargeId(i) => if i == id && Alive(before) then before.(charged := before.charged + 1) else before
  }

  function Mod64(n: nat): Word64 {
    n % 0x1_0000_0000_0000_0000
  }

  /** The slot holds what the life says. */
  ghost predicate Lives(t: Thread, id: nat, l: Life) {
    match l
    case Unborn => t.state == Dead
    case Life(priority, charged, state) =>
      t.id == id && t.priority == priority && t.state == state && t.quanta == Mod64(charged)
  }

  lemma AddLives(s: Sched, priority: Byte, i: nat, l: Life)
    requires s.Sized() && i < |s.threads| && Lives(s.threads[i], i + 1, l)
    ensures var (s', status, id) := s.Add(priority);
      Lives(s'.threads[i], i + 1, if status == Ok && id == i + 1 then Life(priority, 0, Runnable) else l)
  {
    AddRefusesWhenAllLive(s, priority);
  }

  lemma ChangeLives(s: Sched, id: Word32, state: ThreadState, i: nat, l: Life)
    requires s.Sized() && i < |s.threads| && Lives(s.threads[i], i + 1, l)
    ensures Lives(s.SetState(id, state).0.threads[i], i + 1,
                  if id == i + 1 && Alive(l) then l.(state := state) else l)
  {
    StateChangeTouchesState(s, id, state);
  }

  lemma NextModulo(n: nat)
    ensures (Mod64(n) + 1) % 0x1_0000_0000_0000_0000 == Mod64(n + 1)
  {
  }

  lemma ChargeLives(s: Sched, id: Word32, i: nat, l: Life)
    requires s.Sized() && i < |s.threads| && Lives(s.threads[i], i + 1, l)
    ensures Lives(s.Account(id).threads[i], i + 1,
                  if id == i + 1 && Alive(l) then l.(charged := l.charged + 1) else l)
  {
    ChargeTouchesOneSlot(s, id);
    if l.Life? { NextModulo(l.charged); }
  }

  /** In every run each slot holds the thread that the calls about its id make it: the priority it was
      added with, the state last set, and as many quanta as it was charged since, modulo 2^64. */
  lemma {:induction false} EveryThreadIsItsHistory(memory: seq<Thread>, ops: seq<Op>, i: nat)
    requires i < |memory| < 0x8000_0000
    ensures Lives(Run(memory, ops).s.threads[i], i + 1, LifeOf(memory, ops, i + 1))
  {
    if ops != [] {
      var front := ops[..|ops| - 1];
      var s, l := Run(memory, front).s, LifeOf(memory, front, i + 1);
      EveryThreadIsItsHistory(memory, front, i);
      match ops[|ops| - 1]
      case AddThread(priority) => AddLives(s, priority, i, l);
      case ChangeState(id, state) => ChangeLives(s, id, state, i, l);
      case AskNext =>
      case ChargeId(id) => ChargeLives(s, id, i, l);
    }
  }

  /** The lives of all ids, in order. */
  ghost function LivesOf(memory: seq<Thread>, ops: seq<Op>): (r: seq<Life>)
    requires 0 < |memory| < 0x8000_0000
    ensures |r| == |memory| && forall i :: 0 <= i < |r| ==> r[i] == LifeOf(memory, ops, i + 1)
  {
    seq(|memory|, i requires 0 <= i < |memory| => LifeOf(memory, ops, i + 1))
  }

  ghost predicate Waiting(lives: seq<Life>, i: nat) {
    i < |lives| && lives[i].Life? && lives[i].state == Runnable
  }

  /** By priority, then by fewest charges as far as 64 bits can tell, then by id. */
  ghost predicate Ahead(lives: seq<Life>, i: nat, j: nat)
    requires Waiting(lives, i) && Waiting(lives, j)
  {
    var (l, l') := (lives[i], lives[j]);
    || l.priority > l'.priority
    || (l.priority == l'.priority && Mod64(l.charged) < Mod64(l'.charged))
    || (l.priority == l'.priority && Mod64(l.charged) == Mod64(l'.charged) && i < j)
  }

  /** `next` is the id of the waiting life that is ahead of every other one, or -1 if none is waiting. */
  ghost predicate IsNext(lives: seq<Life>, next: int) {
    if next <= 0 then next == -1 && forall i: nat :: !Waiting(lives, i)
    else Waiting(lives, next - 1) && forall i: nat :: Waiting(lives, i) && i != next - 1 ==> Ahead(lives, next - 1, i)
  }

  /** In the scheduler `s` every slot holds what the lives say. */
  ghost predicate Told(s: Sched, lives: seq<Life>) {
    |s.threads| == |lives| && forall i: nat :: i < |lives| ==> Lives(s.threads[i], i + 1, lives[i])
  }

  lemma NextIsTold(s: Sched, lives: seq<Life>)
    requires Told(s, lives)
    ensures IsNext(lives, s.PickNext())
  {
    var ts, p := s.threads, Pick(s.threads);
    PickIsBest(ts);
    assert forall i: nat :: Waiting(lives, i) <==> IsRunnable(ts, i);
    if p < |ts| {
      assert IsRunnable(ts, p) && Waiting(lives, p);
      forall i: nat | Waiting(lives, i) && i != p ensures Ahead(lives, p, i) {
        assert IsRunnable(ts, i) && Before(ts, p, i);
      }
    }
  }

  /** Who is next, told by the calls alone. */
  lemma NextByHistory(memory: seq<Thread>, ops: seq<Op>)
    requires 0 < |memory| < 0x8000_0000
    ensures IsNext(LivesOf(memory, ops), Run(memory, ops).s.PickNext())
  {
    var s, lives := Run(memory, ops).s, LivesOf(memory, ops);
    forall i: nat | i < |lives| ensures Lives(s.threads[i], i + 1, lives[i]) {
      EveryThreadIsItsHistory(memory, ops, i);
    }
    NextIsTold(s, lives);
  }
}
