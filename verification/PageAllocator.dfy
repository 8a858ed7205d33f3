/** kernel/core/vm.c, first half: a first-fit allocator over one flag byte per physical page. */
module PageAllocator {
  import opened Words

  const VM_MAX_PAGES: nat := 128

  /** The lowest free page at or above `from`; `|flags|` when there is none. */
  function FirstFree(flags: seq<Byte>, from: nat := 0): (r: nat)
    requires from <= |flags|
    ensures from <= r <= |flags|
    ensures r < |flags| ==> flags[r] == 0
    ensures forall i :: from <= i < r ==> flags[i] != 0
    decreases |flags| - from
  {
    if from == |flags| || flags[from] == 0 then from else FirstFree(flags, from + 1)
  }

  function Held(flags: seq<Byte>): (pages: set<nat>) {
    set p: nat | p < |flags| && flags[p] != 0
  }

  function Cleared(n: nat): seq<Byte> {
    seq(n, i => 0)
  }

  function Alloc(flags: seq<Byte>): (seq<Byte>, Status, Word32)
    requires |flags| <= 0x1_0000_0000
  {
    var p := FirstFree(flags);
    if p == |flags| then (flags, Full, 0) else (flags[p := 1], Ok, p)
  }

  function Free(flags: seq<Byte>, page: Word32): (seq<Byte>, Status) {
    if page >= |flags| || flags[page] == 0 then (flags, NotFound) else (flags[page := 0], Ok)
  }

  /** One call of the allocator, told by the pages that are held. */
  lemma AllocTakesLeastFree(flags: seq<Byte>)
    requires |flags| <= 0x1_0000_0000
    ensures var (flags', status, page) := Alloc(flags);
      && |flags'| == |flags|
      && (status == Full <==> forall p: nat :: p < |flags| ==> p in Held(flags))
      && (status == Full ==> flags' == flags)
      && (status != Full ==>
            && status == Ok && page < |flags| && page !in Held(flags)
            && (forall p: nat :: p < page ==> p in Held(flags))
            && Held(flags') == Held(flags) + {page}
            && forall p: nat :: p < |flags| && p != page ==> flags'[p] == flags[p])
  {
    var p := FirstFree(flags);
    if p < |flags| { assert p !in Held(flags); }
  }

  lemma FreeGivesBack(flags: seq<Byte>, page: Word32)
    ensures var (flags', status) := Free(flags, page);
      && |flags'| == |flags|
      && (status == Ok <==> page in Held(flags))
      && (status == Ok || status == NotFound)
      && Held(flags') == Held(flags) - {page}
      && (forall p: nat :: p < |flags| && p != page ==> flags'[p] == flags[p])
      && (status != Ok ==> flags' == flags)
  {
  }

  // ---------------------------------------------------------------- histories

  datatype Op = AllocPage | FreePage(page: Word32)
  datatype Event = Took(page: nat) | Gave(page: nat)

  datatype History = History(flags: seq<Byte>, log: seq<Event>)

  /** The log records the successful calls. */
  function Step(h: History, op: Op): History
    requires |h.flags| <= 0x1_0000_0000
  {
    match op
    case AllocPage =>
      var (flags, status, page) := Alloc(h.flags);
      History(flags, h.log + if status == Ok then [Took(page)] else [])
    case FreePage(page) =>
      var (flags, status) := Free(h.flags, page);
      History(flags, h.log + if status == Ok then [Gave(page)] else [])
  }

  ghost function Run(n: nat, ops: seq<Op>): (h: History)
    requires n <= 0x1_0000_0000
    ensures |h.flags| == n
  {
    if ops == [] then History(Cleared(n), []) else Step(Run(n, ops[..|ops| - 1]), ops[|ops| - 1])
  }

  /** The pages taken and not given back since. */
  ghost function Outstanding(log: seq<Event>): set<nat> {
    if log == [] then {} else
      var before := Outstanding(log[..|log| - 1]);
      match log[|log| - 1]
      case Took(p) => before + {p}
      case Gave(p) => before - {p}
  }

  /** Nothing is taken while it is out. */
  ghost predicate NeverTakenTwice(log: seq<Event>) {
    forall i :: 0 <= i < |log| && log[i].Took? ==> log[i].page !in Outstanding(log[..i])
  }

  lemma StepKeepsHeld(h: History, op: Op)
    requires |h.flags| <= 0x1_0000_0000 && Held(h.flags) == Outstanding(h.log)
    ensures Held(Step(h, op).flags) == Outstanding(Step(h, op).log)
  {
    if op.AllocPage? { AllocTakesLeastFree(h.flags); } else { FreeGivesBack(h.flags, op.page); }
    var log := Step(h, op).log;
    if log != h.log { assert log[..|log| - 1] == h.log; }
  }

  lemma LogStaysApart(log: seq<Event>, e: Event)
    requires NeverTakenTwice(log) && (e.Took? ==> e.page !in Outstanding(log))
    ensures NeverTakenTwice(log + [e])
  {
    forall i | 0 <= i < |log + [e]| && (log + [e])[i].Took?
      ensures (log + [e])[i].page !in Outstanding((log + [e])[..i])
    {
      assert (log + [e])[..i] == log[..i];
      if i == |log| { assert log[..i] == log; }
    }
  }

  lemma StepStaysApart(h: History, op: Op)
    requires |h.flags| <= 0x1_0000_0000 && Held(h.flags) == Outstanding(h.log) && NeverTakenTwice(h.log)
    ensures NeverTakenTwice(Step(h, op).log)
  {
    match op
    case AllocPage =>
      AllocTakesLeastFree(h.flags);
      if Alloc(h.flags).1 == Ok { LogStaysApart(h.log, Took(Alloc(h.flags).2)); } else { assert h.log + [] == h.log; }
    case FreePage(page) =>
      if Free(h.flags, page).1 == Ok { LogStaysApart(h.log, Gave(page)); } else { assert h.log + [] == h.log; }
  }

  lemma {:induction false} HeldIsOutstanding(n: nat, ops: seq<Op>)
    requires n <= 0x1_0000_0000
    ensures Held(Run(n, ops).flags) == Outstanding(Run(n, ops).log)
    ensures NeverTakenTwice(Run(n, ops).log)
  {
    if ops != [] {
      var h, op := Run(n, ops[..|ops| - 1]), ops[|ops| - 1];
      HeldIsOutstanding(n, ops[..|ops| - 1]);
      StepKeepsHeld(h, op);
      StepStaysApart(h, op);
    }
  }

  /** A page that is out stays out until it is given back. */
  lemma {:induction false} StaysOut(log: seq<Event>, i: nat, j: nat, p: nat)
    requires i < j <= |log| && log[i] == Took(p)
    requires forall k :: i < k < j ==> log[k] != Gave(p)
    ensures p in Outstanding(log[..j])
  {
    assert log[..j][..j - 1] == log[..j - 1];
    if i < j - 1 { StaysOut(log, i, j - 1, p); }
  }

  /** No page is handed out twice without having been given back in between. */
  lemma FreedBetweenAllocations(n: nat, ops: seq<Op>, i: nat, j: nat)
    requires n <= 0x1_0000_0000
    requires i < j < |Run(n, ops).log|
    requires Run(n, ops).log[i].Took? && Run(n, ops).log[j] == Run(n, ops).log[i]
    ensures exists k :: i < k < j && Run(n, ops).log[k] == Gave(Run(n, ops).log[i].page)
  {
    var log := Run(n, ops).log;
    HeldIsOutstanding(n, ops);
    if forall k :: i < k < j ==> log[k] != Gave(log[i].page) {
      StaysOut(log, i, j, log[i].page);
      assert false;
    }
  }

  // ---------------------------------------------------------------- the code

  class Allocator {
    const flags: array<Byte>

    ghost predicate Valid() {
      flags.Length <= 0x1_0000_0000
    }

    /** Takes over uninitialised memory and runs `nova_vm_init` on it. */
    constructor (memory: seq<Byte>)
      requires |memory| <= 0x1_0000_0000
      ensures Valid() && fresh(flags)
      ensures flags[..] == Cleared(|memory|)
    {
      flags := new Byte[|memory|](i requires 0 <= i < |memory| => memory[i]);
      new;
      Init();
    }

    method Init()
      modifies flags
      ensures flags[..] == Cleared(flags.Length)
    {
      for index := 0 to flags.Length
        invariant forall i :: 0 <= i < index ==> flags[i] == 0
      {
        flags[index] := 0;
      }
    }

    method AllocPage() returns (status: Status, page: Word32)
      requires Valid()
      modifies flags
      ensures (flags[..], status, page) == Alloc(old(flags[..]))
    {
      for index := 0 to flags.Length
        invariant flags[..] == old(flags[..])
        invariant FirstFree(flags[..]) == FirstFree(flags[..], index)
      {
        if flags[index] != 0 {
          continue;
        }
        flags[index] := 1;
        return Ok, index;
      }
      return Full, 0;
    }

    method FreePage(page: Word32) returns (status: Status)
      modifies flags
      ensures (flags[..], status) == Free(old(flags[..]), page)
    {
      if page >= flags.Length || flags[page] == 0 {
        return NotFound;
      }
      flags[page] := 0;
      status := Ok;
    }
  }
}
