/** What "pick the next thread, then charge it one quantum" gives each thread over a whole run. */
module Fairness {
  import opened Words
  import opened Scheduling

  // ---------------------------------------------------------------- runs

  /** One turn of the dispatcher: `nova_sched_account(s, (uint32_t)nova_sched_pick_next(s))`. */
  function Dispatch(s: Sched): Sched {
    var picked := s.PickNext();
    s.Account(if 0 <= picked < 0x1_0000_0000 then picked else 0xFFFF_FFFF)
  }

  function Rounds(s: Sched, k: nat): Sched {
    if k == 0 then s else Dispatch(Rounds(s, k - 1))
  }

  /** Every slot in use carries the id that addresses it. Kept by every run, see `Accounting`. */
  ghost predicate IdsMatch(ts: seq<Thread>) {
    forall i: nat :: i < |ts| && ts[i].state != Dead ==> ts[i].id == i + 1
  }

  ghost predicate Ready(s: Sched) {
    s.Sized() && IdsMatch(s.threads)
  }

  /** A turn charges exactly the best runnable slot, and its id is the one returned. */
  lemma DispatchCharges(s: Sched, p: nat)
    requires Ready(s) && IsBest(s.threads, p)
    ensures Pick(s.threads) == p && s.PickNext() == p + 1
    ensures Ready(Dispatch(s))
    ensures Dispatch(s) == Sched(Charge(s.threads, p), s.count, Succ64(s.tick))
  {
    PickIsBest(s.threads);
  }

  lemma DispatchIdle(s: Sched)
    requires Ready(s) && forall i: nat :: !IsRunnable(s.threads, i)
    ensures s.PickNext() == -1 && Dispatch(s) == s
  {
    PickIsBest(s.threads);
  }

  /** Putting a thread to sleep (or to death) passes the turn on only if it was that thread's turn. */
  lemma SleeperIsPassedOver(s: Sched, id: Word32, state: ThreadState)
    requires Ready(s) && s.Names(id) && state != Runnable
    ensures var (s', status) := s.SetState(id, state);
      && status == Ok && Ready(s') && s'.PickNext() != id
      && (s.PickNext() != id ==> s'.PickNext() == s.PickNext())
  {
    var s' := s.SetState(id, state).0;
    var ts, ts', p, p' := s.threads, s'.threads, Pick(s.threads), Pick(s'.threads);
    PickIsBest(ts);
    PickIsBest(ts');
    assert forall j: nat :: IsRunnable(ts', j) <==> IsRunnable(ts, j) && j != id - 1;
    if p < |ts| && p != id - 1 {
      assert IsRunnable(ts', p);
      assert forall j: nat :: IsRunnable(ts', j) && j != p ==> Before(ts', p, j);
      assert IsBest(ts', p);
    }
  }

  /** A thread that wakes either takes the turn or leaves it where it was. */
  lemma WakerCompetes(s: Sched, id: Word32)
    requires Ready(s) && s.Names(id)
    ensures var (s', status) := s.SetState(id, Runnable);
      && status == Ok && Ready(s') && IsRunnable(s'.threads, id - 1)
      && (s'.PickNext() == id || s'.PickNext() == s.PickNext())
      && (s'.PickNext() == id <==> forall j: nat :: IsRunnable(s.threads, j) && j != id - 1 ==>
                                                   Before(s.threads, id - 1, j))
  {
    var s' := s.SetState(id, Runnable).0;
    var ts, ts' := s.threads, s'.threads;
    PickIsBest(ts);
    PickIsBest(ts');
    assert forall j: nat :: IsRunnable(ts', j) <==> IsRunnable(ts, j) || j == id - 1;
    assert forall i: nat, j: nat :: i < |ts| && j < |ts| ==> Before(ts', i, j) == Before(ts, i, j);
    var p' := Pick(ts');
    assert IsRunnable(ts', id - 1) && IsRunnable(ts', p');
    if p' != id - 1 {
      assert IsBest(ts, p') && !Before(ts, id - 1, p');
    } else {
      assert forall j: nat :: IsRunnable(ts, j) && j != id - 1 ==> IsRunnable(ts', j);
    }
  }

  // ---------------------------------------------------------------- the top class

  /** Runnable, and no runnable slot has a higher priority. */
  ghost predicate IsTop(ts: seq<Thread>, i: nat) {
    IsRunnable(ts, i) && forall j: nat :: IsRunnable(ts, j) ==> ts[j].priority <= ts[i].priority
  }

  /** The fields that decide who is in the top class are the same. */
  ghost predicate SameClasses(ts: seq<Thread>, ts': seq<Thread>) {
    && |ts| == |ts'|
    && forall i: nat :: i < |ts| ==> ts'[i].priority == ts[i].priority && ts'[i].state == ts[i].state
  }

  lemma SameClassesSameTop(ts: seq<Thread>, ts': seq<Thread>)
    requires SameClasses(ts, ts')
    ensures forall i: nat :: IsRunnable(ts', i) == IsRunnable(ts, i)
    ensures forall i: nat :: IsTop(ts', i) == IsTop(ts, i)
  {
    assert forall i: nat :: IsRunnable(ts', i) == IsRunnable(ts, i);
    forall i: nat ensures IsTop(ts', i) == IsTop(ts, i) {
      assert forall j: nat :: IsRunnable(ts', j) ==> ts'[j].priority == ts[j].priority;
      if IsRunnable(ts, i) {
        assert ts'[i].priority == ts[i].priority;
      }
    }
  }

  lemma BestIsTop(ts: seq<Thread>, p: nat, t: nat)
    requires IsBest(ts, p) && IsTop(ts, t)
    ensures IsTop(ts, p) && ts[p].priority == ts[t].priority
  {
    assert IsRunnable(ts, p);
    if p != t { assert Before(ts, p, t); }
  }

  /** Where there is a top class, one of its members is served. */
  lemma TopPick(ts: seq<Thread>, t: nat)
    requires IsTop(ts, t)
    ensures IsBest(ts, Pick(ts)) && IsTop(ts, Pick(ts))
  {
    PickIsBest(ts);
    assert IsRunnable(ts, t);
    BestIsTop(ts, Pick(ts), t);
  }

  // ---------------------------------------------------------------- exact waiting time

  /** `j` competes with `t`: runnable at the same priority. */
  predicate IsPeer(ts: seq<Thread>, t: nat, j: nat)
    requires t < |ts|
  {
    j != t && IsRunnable(ts, j) && ts[j].priority == ts[t].priority
  }

  /** How many times `j` is served before `t` has its turn. */
  function Lead(ts: seq<Thread>, t: nat, j: nat): nat
    requires t < |ts|
  {
    if !IsPeer(ts, t, j) then 0 else
      var d := ts[t].quanta - ts[j].quanta + (if j < t then 1 else 0);
      if d < 0 then 0 else d
  }

  function LeadSum(ts: seq<Thread>, t: nat, n: nat): nat
    requires t < |ts|
  {
    if n == 0 then 0 else LeadSum(ts, t, n - 1) + Lead(ts, t, n - 1)
  }

  /** W(t): the number of turns that go to others before `t`. */
  function Wait(ts: seq<Thread>, t: nat): nat
    requires t < |ts|
  {
    LeadSum(ts, t, |ts|)
  }

  /** Whether the turn of `t` can come at all. Its quanta are saturated exactly when the word is
      at its maximum, and then any earlier peer wraps to 0 instead of passing it. */
  ghost predicate CanReachTurn(ts: seq<Thread>, t: nat)
    requires t < |ts|
  {
    ts[t].quanta < MAX_64 || forall j: nat :: IsPeer(ts, t, j) ==> t < j
  }

  lemma {:induction false} LeadSumPositive(ts: seq<Thread>, t: nat, n: nat)
    requires t < |ts|
    ensures LeadSum(ts, t, n) == 0 <==> forall j: nat :: j < n ==> Lead(ts, t, j) == 0
  {
    if n > 0 { LeadSumPositive(ts, t, n - 1); }
  }

  /** The turn has come exactly when nothing is left to wait for. */
  lemma TurnIsZeroWait(ts: seq<Thread>, t: nat)
    requires IsTop(ts, t)
    ensures Pick(ts) == t <==> Wait(ts, t) == 0
  {
    PickIsBest(ts);
    LeadSumPositive(ts, t, |ts|);
    var p := Pick(ts);
    assert IsRunnable(ts, t);
    if p != t {
      BestIsTop(ts, p, t);
      assert Lead(ts, t, p) > 0;
    } else {
      forall j: nat | j < |ts| ensures Lead(ts, t, j) == 0 {
        if IsPeer(ts, t, j) { assert Before(ts, t, j); }
      }
    }
  }

  lemma {:induction false} ChargeLowersLeadSum(ts: seq<Thread>, t: nat, p: nat, n: nat)
    requires IsTop(ts, t) && IsBest(ts, p) && p != t && CanReachTurn(ts, t)
    ensures LeadSum(ts, t, n) == LeadSum(Charge(ts, p), t, n) + if p < n then 1 else 0
  {
    BestIsTop(ts, p, t);
    assert IsRunnable(ts, t) && Before(ts, p, t);
    if n > 0 {
      ChargeLowersLeadSum(ts, t, p, n - 1);
      assert IsRunnable(Charge(ts, p), n - 1) == IsRunnable(ts, n - 1);
      if n - 1 == p {
        assert IsPeer(ts, t, p);
      }
    }
  }

  /** Every turn of another thread brings `t` closer by exactly one, and changes nothing else about it. */
  lemma OtherTurnLowersWait(s: Sched, t: nat)
    requires Ready(s) && IsTop(s.threads, t) && CanReachTurn(s.threads, t)
    requires Pick(s.threads) != t
    ensures Ready(Dispatch(s)) && |Dispatch(s).threads| == |s.threads|
    ensures IsTop(Dispatch(s).threads, t) && CanReachTurn(Dispatch(s).threads, t)
    ensures Wait(s.threads, t) == Wait(Dispatch(s).threads, t) + 1
  {
    var ts, ts', p := s.threads, Dispatch(s).threads, Pick(s.threads);
    TopPick(ts, t);
    DispatchCharges(s, p);
    ChargeLowersLeadSum(ts, t, p, |ts|);
    SameClassesSameTop(ts, ts');
    assert forall j: nat :: IsPeer(ts', t, j) == IsPeer(ts, t, j);
  }

  /** A top-priority thread is first served after exactly `Wait` turns of others. */
  lemma {:induction false} ExactWaitingTime(s: Sched, t: nat, k: nat)
    requires Ready(s) && IsTop(s.threads, t) && CanReachTurn(s.threads, t)
    requires k <= Wait(s.threads, t)
    ensures var r := Rounds(s, k);
      && Ready(r) && |r.threads| == |s.threads|
      && IsTop(r.threads, t) && CanReachTurn(r.threads, t)
      && Wait(r.threads, t) == Wait(s.threads, t) - k
      && (r.PickNext() == t + 1 <==> k == Wait(s.threads, t))
  {
    if k > 0 {
      ExactWaitingTime(s, t, k - 1);
      var r := Rounds(s, k - 1);
      TurnIsZeroWait(r.threads, t);
      OtherTurnLowersWait(r, t);
    }
    var r := Rounds(s, k);
    TurnIsZeroWait(r.threads, t);
    TopPick(r.threads, t);
    DispatchCharges(r, Pick(r.threads));
  }

  lemma SaturatedNotBest(ts: seq<Thread>, t: nat)
    requires IsTop(ts, t) && !CanReachTurn(ts, t)
    ensures Pick(ts) != t
  {
    PickIsBest(ts);
    var j: nat :| IsPeer(ts, t, j) && j <= t;
    assert IsRunnable(ts, t) && !Before(ts, t, j);
  }

  lemma SaturatedStaysSaturated(s: Sched, t: nat)
    requires Ready(s) && IsTop(s.threads, t) && !CanReachTurn(s.threads, t)
    ensures Ready(Dispatch(s)) && |Dispatch(s).threads| == |s.threads|
    ensures IsTop(Dispatch(s).threads, t) && !CanReachTurn(Dispatch(s).threads, t)
    ensures s.PickNext() != t + 1
  {
    var ts, ts' := s.threads, Dispatch(s).threads;
    TopPick(ts, t);
    DispatchCharges(s, Pick(ts));
    SaturatedNotBest(ts, t);
    SameClassesSameTop(ts, ts');
    var j: nat :| IsPeer(ts, t, j) && j <= t;
    assert IsPeer(ts', t, j);
  }

  /** The other half: saturated behind an earlier peer, `t` is never served again. */
  lemma {:induction false} SaturatedStarves(s: Sched, t: nat, k: nat)
    requires Ready(s) && IsTop(s.threads, t) && !CanReachTurn(s.threads, t)
    ensures var r := Rounds(s, k);
      && Ready(r) && |r.threads| == |s.threads|
      && IsTop(r.threads, t) && !CanReachTurn(r.threads, t)
      && r.PickNext() != t + 1
  {
    if k > 0 {
      SaturatedStarves(s, t, k - 1);
      SaturatedStaysSaturated(Rounds(s, k - 1), t);
    }
    SaturatedStaysSaturated(Rounds(s, k), t);
  }

  /** The next turn of a top-priority thread comes, except in the one case the 64-bit counter allows. What
      happens over a whole run is `ServedForEverIffFirst`. */
  lemma ServedIffCanReachTurn(s: Sched, t: nat)
    requires Ready(s) && IsTop(s.threads, t)
    ensures CanReachTurn(s.threads, t) <==> exists k: nat :: Rounds(s, k).PickNext() == t + 1
  {
    if CanReachTurn(s.threads, t) {
      var w := Wait(s.threads, t);
      ExactWaitingTime(s, t, w);
      assert Rounds(s, w).PickNext() == t + 1;
    } else {
      forall k: nat ensures Rounds(s, k).PickNext() != t + 1 {
        SaturatedStarves(s, t, k);
      }
    }
  }

  // ---------------------------------------------------------------- catching up

  /** No top-class slot has had more than `limit` quanta. */
  ghost predicate AtMost(ts: seq<Thread>, limit: Word64) {
    forall i: nat :: IsTop(ts, i) ==> ts[i].quanta <= limit
  }

  ghost predicate AllLevel(ts: seq<Thread>, limit: Word64) {
    forall i: nat :: IsTop(ts, i) ==> ts[i].quanta == limit
  }

  /** The quanta that slot `i`, if it is of the top class, is short of `limit`. */
  ghost function Share(ts: seq<Thread>, limit: Word64, i: nat): nat {
    if IsTop(ts, i) && ts[i].quanta < limit then limit - ts[i].quanta else 0
  }

  /** The quanta that the top-class slots below `n` are short of `limit`. */
  ghost function Shortfall(ts: seq<Thread>, limit: Word64, n: nat): nat {
    if n == 0 then 0 else Shortfall(ts, limit, n - 1) + Share(ts, limit, n - 1)
  }

  lemma {:induction false} ShortfallZero(ts: seq<Thread>, limit: Word64, n: nat)
    requires AtMost(ts, limit)
    ensures Shortfall(ts, limit, n) == 0 <==> forall i: nat :: i < n && IsTop(ts, i) ==> ts[i].quanta == limit
  {
    if n > 0 { ShortfallZero(ts, limit, n - 1); }
  }

  lemma ChargeKeepsTop(ts: seq<Thread>, p: nat, i: nat)
    requires p < |ts|
    ensures SameClasses(ts, Charge(ts, p))
    ensures IsTop(Charge(ts, p), i) == IsTop(ts, i)
  {
    SameClassesSameTop(ts, Charge(ts, p));
  }

  lemma ChargeStaysAtMost(ts: seq<Thread>, limit: Word64, p: nat)
    requires AtMost(ts, limit) && IsTop(ts, p) && ts[p].quanta < limit
    ensures AtMost(Charge(ts, p), limit)
  {
    var ts' := Charge(ts, p);
    forall i: nat | IsTop(ts', i) ensures ts'[i].quanta <= limit {
      ChargeKeepsTop(ts, p, i);
    }
  }

  lemma ChargeMovesShare(ts: seq<Thread>, limit: Word64, p: nat, i: nat)
    requires IsTop(ts, p) && ts[p].quanta < limit
    ensures Share(ts, limit, i) == Share(Charge(ts, p), limit, i) + if i == p then 1 else 0
  {
    ChargeKeepsTop(ts, p, i);
  }

  lemma {:induction false} ChargeLowersShortfall(ts: seq<Thread>, limit: Word64, p: nat, n: nat)
    requires IsTop(ts, p) && ts[p].quanta < limit
    ensures Shortfall(ts, limit, n) == Shortfall(Charge(ts, p), limit, n) + if p < n then 1 else 0
  {
    if n > 0 {
      ChargeLowersShortfall(ts, limit, p, n - 1);
      ChargeMovesShare(ts, limit, p, n - 1);
    }
  }

  /** While someone in the top class is short of `limit`, the thread served is one of those. */
  lemma BestIsShort(ts: seq<Thread>, limit: Word64)
    requires AtMost(ts, limit) && Shortfall(ts, limit, |ts|) > 0
    ensures IsTop(ts, Pick(ts)) && ts[Pick(ts)].quanta < limit && IsBest(ts, Pick(ts))
  {
    ShortfallZero(ts, limit, |ts|);
    var t: nat :| t < |ts| && IsTop(ts, t) && ts[t].quanta != limit;
    PickIsBest(ts);
    BestIsTop(ts, Pick(ts), t);
    if Pick(ts) != t { assert IsRunnable(ts, t) && Before(ts, Pick(ts), t); }
  }

  lemma CatchUpStep(s: Sched, limit: Word64)
    requires Ready(s) && AtMost(s.threads, limit) && Shortfall(s.threads, limit, |s.threads|) > 0
    ensures var ts, ts', p := s.threads, Dispatch(s).threads, Pick(s.threads);
      && Ready(Dispatch(s)) && SameClasses(ts, ts') && AtMost(ts', limit)
      && Shortfall(ts', limit, |ts'|) == Shortfall(ts, limit, |ts|) - 1
      && IsTop(ts, p) && ts' == ts[p := ts'[p]]
  {
    BestIsShort(s.threads, limit);
    DispatchCharges(s, Pick(s.threads));
    ChargeStaysAtMost(s.threads, limit, Pick(s.threads));
    ChargeLowersShortfall(s.threads, limit, Pick(s.threads), |s.threads|);
  }

  /** Outside the top class nothing has changed. */
  ghost predicate OthersUntouched(ts: seq<Thread>, ts': seq<Thread>) {
    |ts| == |ts'| && forall i: nat :: i < |ts| && !IsTop(ts, i) ==> ts'[i] == ts[i]
  }

  lemma LevelIffNoShortfall(ts: seq<Thread>, limit: Word64)
    requires AtMost(ts, limit)
    ensures AllLevel(ts, limit) <==> Shortfall(ts, limit, |ts|) == 0
  {
    ShortfallZero(ts, limit, |ts|);
  }

  lemma {:induction false} CatchUpRun(s: Sched, limit: Word64, k: nat)
    requires Ready(s) && AtMost(s.threads, limit)
    requires k <= Shortfall(s.threads, limit, |s.threads|)
    ensures var r := Rounds(s, k);
      && Ready(r) && SameClasses(s.threads, r.threads) && AtMost(r.threads, limit)
      && Shortfall(r.threads, limit, |r.threads|) == Shortfall(s.threads, limit, |s.threads|) - k
      && OthersUntouched(s.threads, r.threads)
  {
    if k > 0 {
      var q := Rounds(s, k - 1);
      CatchUpRun(s, limit, k - 1);
      CatchUpStep(q, limit);
      SameClassesSameTop(s.threads, q.threads);
    }
  }

  /** Within the first `Shortfall` turns nobody passes `limit` and nobody outside the top class is
      served; the top class is level at `limit` after exactly that many turns. */
  lemma CatchUp(s: Sched, limit: Word64, k: nat)
    requires Ready(s) && AtMost(s.threads, limit)
    requires k <= Shortfall(s.threads, limit, |s.threads|)
    ensures var r := Rounds(s, k);
      && SameClasses(s.threads, r.threads) && AtMost(r.threads, limit)
      && (AllLevel(r.threads, limit) <==> k == Shortfall(s.threads, limit, |s.threads|))
      && OthersUntouched(s.threads, r.threads)
  {
    CatchUpRun(s, limit, k);
    LevelIffNoShortfall(Rounds(s, k).threads, limit);
  }

  /** `q` differs from a state with threads `ts` only in the quanta of the top class, `t` being in it. */
  ghost predicate OnlyTopServed(ts: seq<Thread>, q: Sched, t: nat) {
    Ready(q) && SameClasses(ts, q.threads) && IsTop(q.threads, t) && OthersUntouched(ts, q.threads)
  }

  lemma NextIsTop(ts: seq<Thread>, q: Sched, t: nat)
    requires OnlyTopServed(ts, q, t)
    ensures IsBest(q.threads, Pick(q.threads)) && IsTop(ts, Pick(q.threads))
  {
    TopPick(q.threads, t);
    SameClassesSameTop(ts, q.threads);
  }

  lemma TurnServesTop(ts: seq<Thread>, q: Sched, t: nat)
    requires OnlyTopServed(ts, q, t)
    ensures OnlyTopServed(ts, Dispatch(q), t)
    ensures 0 < q.PickNext() <= |ts| && IsTop(ts, q.PickNext() - 1)
  {
    var p := Pick(q.threads);
    NextIsTop(ts, q, t);
    DispatchCharges(q, p);
    ChargeKeepsTop(q.threads, p, t);
  }

  lemma NothingServedYet(s: Sched, t: nat)
    requires Ready(s) && IsTop(s.threads, t)
    ensures OnlyTopServed(s.threads, s, t)
  {
  }

  /** Strict priority: while some thread is in the top class, no turn ever goes outside it. */
  lemma {:induction false} StrictPriority(s: Sched, t: nat, k: nat)
    requires Ready(s) && IsTop(s.threads, t)
    ensures OnlyTopServed(s.threads, Rounds(s, k), t)
    ensures 0 < Rounds(s, k).PickNext() <= |s.threads| && IsTop(s.threads, Rounds(s, k).PickNext() - 1)
  {
    if k == 0 {
      NothingServedYet(s, t);
    } else {
      StrictPriority(s, t, k - 1);
      TurnServesTop(s.threads, Rounds(s, k - 1), t);
    }
    TurnServesTop(s.threads, Rounds(s, k), t);
  }

  // ---------------------------------------------------------------- in the end

  /** `f` is the lowest-indexed slot of the top class. */
  ghost predicate IsFirst(ts: seq<Thread>, f: nat) {
    IsTop(ts, f) && forall j: nat :: IsTop(ts, j) ==> f <= j
  }

  lemma {:induction false} FirstExists(ts: seq<Thread>, t: nat) returns (f: nat)
    requires IsTop(ts, t)
    ensures IsFirst(ts, f)
  {
    if j: nat :| IsTop(ts, j) && j < t { f := FirstExists(ts, j); } else { f := t; }
  }

  /** Every slot of the top class but `f` is at the maximum. */
  ghost predicate OthersSaturated(s: Sched, f: nat) {
    && Ready(s) && IsFirst(s.threads, f)
    && forall j: nat :: IsTop(s.threads, j) && j != f ==> s.threads[j].quanta == MAX_64
  }

  lemma FirstIsPicked(s: Sched, f: nat)
    requires OthersSaturated(s, f)
    ensures IsBest(s.threads, f) && Pick(s.threads) == f
  {
    var ts := s.threads;
    forall j: nat | IsRunnable(ts, j) && j != f ensures Before(ts, f, j) {
      assert ts[j].priority == ts[f].priority ==> IsTop(ts, j);
    }
    PickIsBest(ts);
  }

  /** In that state `f` is served, wraps or not, and the state remains one of that kind. */
  lemma FirstIsServed(s: Sched, f: nat)
    requires OthersSaturated(s, f)
    ensures s.PickNext() == f + 1 && OthersSaturated(Dispatch(s), f)
  {
    FirstIsPicked(s, f);
    DispatchCharges(s, f);
    var ts' := Dispatch(s).threads;
    forall j: nat ensures IsTop(ts', j) == IsTop(s.threads, j) {
      ChargeKeepsTop(s.threads, f, j);
    }
  }

  lemma {:induction false} FirstIsServedForEver(s: Sched, f: nat, k: nat, m: nat)
    requires OthersSaturated(Rounds(s, k), f)
    ensures OthersSaturated(Rounds(s, k + m), f) && Rounds(s, k + m).PickNext() == f + 1
  {
    if m > 0 {
      FirstIsServedForEver(s, f, k, m - 1);
      FirstIsServed(Rounds(s, k + m - 1), f);
    }
    FirstIsServed(Rounds(s, k + m), f);
  }

  lemma LevelIsSaturated(ts: seq<Thread>, r: Sched, f: nat)
    requires IsFirst(ts, f) && SameClasses(ts, r.threads)
    requires Ready(r) && AllLevel(r.threads, MAX_64)
    ensures OthersSaturated(r, f)
  {
    SameClassesSameTop(ts, r.threads);
  }

  lemma LevelInTheEnd(s: Sched, f: nat, k: nat)
    requires Ready(s) && IsFirst(s.threads, f) && k == Shortfall(s.threads, MAX_64, |s.threads|)
    ensures OthersSaturated(Rounds(s, k), f)
  {
    CatchUpRun(s, MAX_64, k);
    LevelIffNoShortfall(Rounds(s, k).threads, MAX_64);
    LevelIsSaturated(s.threads, Rounds(s, k), f);
  }

  lemma FirstTakesOver(s: Sched, f: nat, k: nat, m: nat)
    requires Ready(s) && IsFirst(s.threads, f) && k == Shortfall(s.threads, MAX_64, |s.threads|)
    ensures Rounds(s, k + m).PickNext() == f + 1
  {
    LevelInTheEnd(s, f, k);
    FirstIsServedForEver(s, f, k, m);
  }

  /** Once the top class has caught up with the maximum of the counter, its first slot is served for ever
      after and no other. */
  lemma OnlyFirstInTheEnd(s: Sched, f: nat, m: nat)
    requires Ready(s) && IsFirst(s.threads, f)
    ensures Rounds(s, Shortfall(s.threads, MAX_64, |s.threads|) + m).PickNext() == f + 1
  {
    FirstTakesOver(s, f, Shortfall(s.threads, MAX_64, |s.threads|), m);
  }

  /** The turn of `t` comes again and again. */
  ghost predicate ServedForEver(s: Sched, t: nat) {
    forall m: nat :: ServedAfter(s, t, m)
  }

  ghost predicate ServedAfter(s: Sched, t: nat, m: nat) {
    exists k: nat :: k >= m && ServedAt(s, t, k)
  }

  ghost predicate ServedAt(s: Sched, t: nat, k: nat) {
    Rounds(s, k).PickNext() == t + 1
  }

  lemma FirstIsServedAfter(s: Sched, f: nat, m: nat)
    requires Ready(s) && IsFirst(s.threads, f)
    ensures ServedAfter(s, f, m)
  {
    var k := Shortfall(s.threads, MAX_64, |s.threads|);
    OnlyFirstInTheEnd(s, f, m);
    assert ServedAt(s, f, k + m);
  }

  lemma OthersAreNotServedAfter(s: Sched, f: nat, t: nat)
    requires Ready(s) && IsFirst(s.threads, f) && t != f
    ensures !ServedAfter(s, t, Shortfall(s.threads, MAX_64, |s.threads|))
  {
    var k := Shortfall(s.threads, MAX_64, |s.threads|);
    forall i: nat | i >= k ensures !ServedAt(s, t, i) {
      OnlyFirstInTheEnd(s, f, i - k);
    }
  }

  /** Over a whole run a top-priority thread is served again and again exactly when it has the lowest
      slot of its class. */
  lemma ServedForEverIffFirst(s: Sched, t: nat)
    requires Ready(s) && IsTop(s.threads, t)
    ensures ServedForEver(s, t) <==> forall j: nat :: IsTop(s.threads, j) ==> t <= j
  {
    var f := FirstExists(s.threads, t);
    if f == t {
      forall m: nat ensures ServedAfter(s, t, m) {
        FirstIsServedAfter(s, t, m);
      }
    } else {
      OthersAreNotServedAfter(s, f, t);
    }
  }

  // ---------------------------------------------------------------- round robin

  /** The number of top-class slots below index `i`. */
  ghost function Rank(ts: seq<Thread>, i: nat): nat {
    if i == 0 then 0 else Rank(ts, i - 1) + if IsTop(ts, i - 1) then 1 else 0
  }

  ghost function TopCount(ts: seq<Thread>): nat { Rank(ts, |ts|) }

  /** The first `m` top-class slots have had `base + 1` quanta, the others `base`. */
  ghost predicate InRotation(ts: seq<Thread>, base: nat, m: nat) {
    forall i: nat :: IsTop(ts, i) ==> ts[i].quanta == base + if Rank(ts, i) < m then 1 else 0
  }

  lemma {:induction false} RankGrows(ts: seq<Thread>, i: nat, j: nat)
    requires i <= j
    ensures Rank(ts, i) <= Rank(ts, j)
    ensures i < j && IsTop(ts, i) ==> Rank(ts, i) < Rank(ts, j)
  {
    if i < j { RankGrows(ts, i, j - 1); }
  }

  lemma {:induction false} SlotOfRank(ts: seq<Thread>, m: nat, n: nat) returns (i: nat)
    requires m < Rank(ts, n)
    ensures i < n && IsTop(ts, i) && Rank(ts, i) == m
  {
    if IsTop(ts, n - 1) && Rank(ts, n - 1) == m { i := n - 1; }
    else { i := SlotOfRank(ts, m, n - 1); }
  }

  lemma {:induction false} SameClassesSameRank(ts: seq<Thread>, ts': seq<Thread>, i: nat)
    requires SameClasses(ts, ts')
    ensures Rank(ts', i) == Rank(ts, i)
  {
    SameClassesSameTop(ts, ts');
    if i > 0 { SameClassesSameRank(ts, ts', i - 1); }
  }

  /** In rotation, the next one served is the `m`-th top-class slot in slot order. */
  lemma RotationServesRank(ts: seq<Thread>, base: nat, m: nat)
    requires InRotation(ts, base, m) && m < TopCount(ts)
    ensures IsBest(ts, Pick(ts)) && IsTop(ts, Pick(ts)) && Rank(ts, Pick(ts)) == m
    ensures ts[Pick(ts)].quanta == base
  {
    var t := SlotOfRank(ts, m, |ts|);
    var p := Pick(ts);
    PickIsBest(ts);
    BestIsTop(ts, p, t);
    if p != t {
      assert IsRunnable(ts, t) && Before(ts, p, t);
      assert Rank(ts, p) >= m && p < t;
      RankGrows(ts, p, t);
    }
  }

  lemma ChargeKeepsRotation(ts: seq<Thread>, p: nat, base: nat, m: nat)
    requires InRotation(ts, base, m) && IsTop(ts, p) && Rank(ts, p) == m && base < MAX_64
    ensures SameClasses(ts, Charge(ts, p)) && InRotation(Charge(ts, p), base, m + 1)
  {
    var ts' := Charge(ts, p);
    SameClassesSameTop(ts, ts');
    forall i: nat | IsTop(ts', i) ensures ts'[i].quanta == base + if Rank(ts', i) < m + 1 then 1 else 0 {
      SameClassesSameRank(ts, ts', i);
      assert IsTop(ts, i);
      if i < p { RankGrows(ts, i, p); } else if p < i { RankGrows(ts, p, i); }
    }
  }

  lemma RotationStep(s: Sched, base: nat, m: nat)
    requires Ready(s) && InRotation(s.threads, base, m) && m < TopCount(s.threads)
    ensures Ready(Dispatch(s))
    ensures base < MAX_64 ==> SameClasses(s.threads, Dispatch(s).threads)
    ensures base < MAX_64 ==> InRotation(Dispatch(s).threads, base, m + 1)
    ensures 0 < s.PickNext() <= |s.threads| && IsTop(s.threads, s.PickNext() - 1)
    ensures Rank(s.threads, s.PickNext() - 1) == m
  {
    RotationServesRank(s.threads, base, m);
    DispatchCharges(s, Pick(s.threads));
    if base < MAX_64 { ChargeKeepsRotation(s.threads, Pick(s.threads), base, m); }
  }

  /** A full rotation is a rotation that starts one level up. */
  lemma FullRotation(ts: seq<Thread>, base: nat)
    requires InRotation(ts, base, TopCount(ts))
    ensures InRotation(ts, base + 1, 0)
  {
    forall i: nat | IsTop(ts, i) ensures ts[i].quanta == base + 1 {
      RankGrows(ts, i, |ts|);
    }
  }

  /** The full rotations and the place in the current one after `k` turns among `n`. */
  function Place(k: nat, n: nat): (nat, nat)
    requires n > 0
  {
    if k == 0 then (0, 0) else
      var (full, m) := Place(k - 1, n);
      if m + 1 == n then (full + 1, 0) else (full, m + 1)
  }

  lemma {:induction false} PlaceIsDivMod(k: nat, n: nat)
    requires n > 0
    ensures Place(k, n).1 < n
    ensures Place(k, n) == (k / n, k % n)
  {
    var (full, m) := Place(k, n);
    if k > 0 {
      var (full', m') := Place(k - 1, n);
      PlaceIsDivMod(k - 1, n);
      assert k - 1 == full' * n + m';
      if m' + 1 == n { assert k == (full' + 1) * n; }
    }
    DivModOf(k, n, full, m);
  }

  lemma MultipleIsFar(d: int, n: nat)
    ensures d >= 1 ==> d * n >= n
    ensures d <= -1 ==> d * n <= -1 * n
  {
    if d >= 1 { assert (d - 1) * n >= 0; }
    if d <= -1 { assert (-d - 1) * n >= 0; }
  }

  lemma DivModOf(x: nat, n: nat, q: nat, m: nat)
    requires m < n && x == q * n + m
    ensures x / n == q && x % n == m
  {
    var d := x / n - q;
    assert d * n == m - x % n;
    MultipleIsFar(d, n);
  }

  /** A turn of the rotation, with the level moving up when the rotation is complete. */
  lemma RotationTurn(s: Sched, base: nat, m: nat, n: nat)
    requires Ready(s) && m < n == TopCount(s.threads) && base < MAX_64
    requires InRotation(s.threads, base, m)
    ensures Ready(Dispatch(s)) && SameClasses(s.threads, Dispatch(s).threads)
    ensures TopCount(Dispatch(s).threads) == n
    ensures if m + 1 == n then InRotation(Dispatch(s).threads, base + 1, 0)
            else InRotation(Dispatch(s).threads, base, m + 1)
  {
    RotationStep(s, base, m);
    SameClassesSameRank(s.threads, Dispatch(s).threads, |s.threads|);
    if m + 1 == n { FullRotation(Dispatch(s).threads, base); }
  }

  lemma {:induction false} RotationRun(s: Sched, base: Word64, k: nat)
    requires Ready(s) && TopCount(s.threads) > 0 && AllLevel(s.threads, base)
    requires var (full, m) := Place(k, TopCount(s.threads));
      base + full + (if m == 0 then 0 else 1) <= MAX_64
    ensures var r := Rounds(s, k); var (full, m) := Place(k, TopCount(s.threads));
      && Ready(r) && SameClasses(s.threads, r.threads) && TopCount(r.threads) == TopCount(s.threads)
      && m < TopCount(s.threads) && InRotation(r.threads, base + full, m)
  {
    if k > 0 {
      var (full, m) := Place(k - 1, TopCount(s.threads));
      RotationRun(s, base, k - 1);
      RotationTurn(Rounds(s, k - 1), base + full, m, TopCount(s.threads));
    }
  }

  lemma {:induction false} RoundsKeepClasses(s: Sched, k: nat)
    requires Ready(s)
    ensures Ready(Rounds(s, k)) && SameClasses(s.threads, Rounds(s, k).threads)
  {
    if k > 0 {
      var q := Rounds(s, k - 1);
      RoundsKeepClasses(s, k - 1);
      PickIsBest(q.threads);
      if Pick(q.threads) == |q.threads| { DispatchIdle(q); } else { DispatchCharges(q, Pick(q.threads)); }
    }
  }

  /** The numbers of the rotation after `k` turns among `n` fit in the 64-bit counters. */
  predicate Fits(base: nat, k: nat, n: nat)
    requires n > 0
  {
    base + k / n + (if k % n == 0 then 0 else 1) <= MAX_64
  }

  /** The top-class slot of rank `r` has had `k / n` quanta since `base`, plus one when `r < k % n`. */
  ghost predicate Shared(ts: seq<Thread>, base: nat, k: nat, n: nat)
    requires n > 0
  {
    InRotation(ts, base + k / n, k % n)
  }

  /** The next turn goes to the `m`-th slot of the top class. */
  ghost predicate NextHasRank(s: Sched, m: nat) {
    && 0 < s.PickNext() <= |s.threads| && IsTop(s.threads, s.PickNext() - 1)
    && Rank(s.threads, s.PickNext() - 1) == m
  }

  /** The first slot of the top class shows the largest number of the rotation. */
  lemma RotationFits(ts: seq<Thread>, base: nat, m: nat)
    requires InRotation(ts, base, m) && TopCount(ts) > 0
    ensures base + (if m == 0 then 0 else 1) <= MAX_64
  {
    var first := SlotOfRank(ts, 0, |ts|);
    assert ts[first].quanta == base + if 0 < m then 1 else 0;
  }

  lemma RotationWhileItFits(s: Sched, base: Word64, k: nat, n: nat)
    requires Ready(s) && n == TopCount(s.threads) > 0 && AllLevel(s.threads, base) && Fits(base, k, n)
    ensures Shared(Rounds(s, k).threads, base, k, n) && NextHasRank(Rounds(s, k), k % n)
  {
    PlaceIsDivMod(k, n);
    RotationRun(s, base, k);
    RotationStep(Rounds(s, k), base + Place(k, n).0, Place(k, n).1);
  }

  /** Equal peers share the processor in slot order: after `k` turns the `r`-th of `n` has had
      `k / n` quanta, plus one when `r < k % n`, and the next turn goes to the `k % n`-th. This holds
      exactly as long as those numbers fit in the 64-bit counters. */
  lemma RoundRobin(s: Sched, base: Word64, k: nat, n: nat)
    requires Ready(s) && n == TopCount(s.threads) > 0 && AllLevel(s.threads, base)
    ensures SameClasses(s.threads, Rounds(s, k).threads)
    ensures Shared(Rounds(s, k).threads, base, k, n) <==> Fits(base, k, n)
    ensures Fits(base, k, n) ==> NextHasRank(Rounds(s, k), k % n)
  {
    RoundsKeepClasses(s, k);
    if Fits(base, k, n) {
      RotationWhileItFits(s, base, k, n);
    } else if Shared(Rounds(s, k).threads, base, k, n) {
      SameClassesSameRank(s.threads, Rounds(s, k).threads, |s.threads|);
      RotationFits(Rounds(s, k).threads, base + k / n, k % n);
    }
  }
}
