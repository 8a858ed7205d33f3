/** One page allocator and any number of address spaces: when do they keep apart?

    Isolation is not something `vm.c` enforces; it depends on what its client asks for. Here is the
    exact condition on each call, and the client discipline that always meets it. */
module Isolation {
  import opened Words
  import PA = PageAllocator
  import AS = AddressSpaces

  datatype System = System(flags: seq<Byte>, spaces: seq<AS.Table>) {
    ghost predicate Valid() {
      && |flags| <= 0x1_0000_0000
      && forall i :: 0 <= i < |spaces| ==> spaces[i].Valid()
    }
  }

  /** Space `i` translates `v` to page `p`. */
  ghost predicate Translates(y: System, i: nat, v: Word64, p: Word32) {
    i < |y.spaces| && y.spaces[i].Translate(v).0 == Ok && y.spaces[i].Translate(v).1.physicalPage == p
  }

  /** Every translated page is held, and none is reached from two places. */
  ghost predicate Isolated(y: System) {
    && y.Valid()
    && (forall i: nat, v: Word64, p: Word32 :: Translates(y, i, v, p) ==> p in PA.Held(y.flags))
    && (forall i: nat, v: Word64, j: nat, u: Word64, p: Word32 ::
          Translates(y, i, v, p) && Translates(y, j, u, p) ==> i == j && v == u)
  }

  datatype Op = Alloc | Free(page: Word32) | Reset(space: nat)
              | Map(space: nat, v: Word64, page: Word32, w: Byte)

  function Step(y: System, op: Op): System
    requires |y.flags| <= 0x1_0000_0000
  {
    match op
    case Alloc => y.(flags := PA.Alloc(y.flags).0)
    case Free(page) => y.(flags := PA.Free(y.flags, page).0)
    case Reset(i) =>
      if i >= |y.spaces| then y else y.(spaces := y.spaces[i := y.spaces[i].(entries := [])])
    case Map(i, v, page, w) =>
      if i >= |y.spaces| then y else y.(spaces := y.spaces[i := y.spaces[i].Map(v, page, w).0])
  }

  /** What the caller can check beforehand. */
  ghost predicate Allowed(y: System, op: Op) {
    match op
    case Alloc => true
    case Free(page) => forall i: nat, v: Word64 :: !Translates(y, i, v, page)
    case Reset(i) => true
    case Map(i, v, page, w) =>
      || i >= |y.spaces|
      || y.spaces[i].Map(v, page, w).1 == Full
      || (page in PA.Held(y.flags)
          && forall j: nat, u: Word64 :: Translates(y, j, u, page) ==> j == i && u == v)
  }

  // ---------------------------------------------------------------- one call

  lemma AllocKeepsIsolation(y: System)
    requires Isolated(y)
    ensures Isolated(Step(y, Alloc))
  {
    PA.AllocTakesLeastFree(y.flags);
    var y' := Step(y, Alloc);
    assert forall i: nat, v: Word64, p: Word32 :: Translates(y', i, v, p) ==> Translates(y, i, v, p);
  }

  lemma FreeKeepsIsolationIff(y: System, page: Word32)
    requires Isolated(y)
    ensures Isolated(Step(y, Free(page))) <==> Allowed(y, Free(page))
  {
    PA.FreeGivesBack(y.flags, page);
    var y' := Step(y, Free(page));
    assert forall i: nat, v: Word64, p: Word32 :: Translates(y', i, v, p) <==> Translates(y, i, v, p);
  }

  lemma ResetKeepsIsolation(y: System, i: nat)
    requires Isolated(y)
    ensures Isolated(Step(y, Reset(i)))
  {
    var y' := Step(y, Reset(i));
    forall j: nat, v: Word64, p: Word32 | Translates(y', j, v, p) ensures Translates(y, j, v, p) {
    }
  }

  /** After a successful mapping, `v` of that space translates to `page` and all else is as before. */
  lemma MapMovesOneTranslation(y: System, i: nat, v: Word64, page: Word32, w: Byte, j: nat, u: Word64, p: Word32)
    requires y.Valid() && i < |y.spaces| && y.spaces[i].Map(v, page, w).1 == Ok
    ensures var y' := Step(y, Map(i, v, page, w));
      y'.Valid() && (Translates(y', j, u, p) <==> if j == i && u == v then p == page else Translates(y, j, u, p))
  {
    AS.MappedSeenFrom(y.spaces[i], v, page, w, u);
  }

  lemma MapKeepsIsolationIff(y: System, i: nat, v: Word64, page: Word32, w: Byte)
    requires Isolated(y)
    ensures Isolated(Step(y, Map(i, v, page, w))) <==> Allowed(y, Map(i, v, page, w))
  {
    var y' := Step(y, Map(i, v, page, w));
    if i < |y.spaces| {
      AS.MapRefinesUpdate(y.spaces[i], v, page, w);
      if y.spaces[i].Map(v, page, w).1 == Full {
        assert y'.spaces == y.spaces;
      } else {
        forall j: nat, u: Word64, p: Word32
          ensures Translates(y', j, u, p) <==> if j == i && u == v then p == page else Translates(y, j, u, p)
        {
          MapMovesOneTranslation(y, i, v, page, w, j, u, p);
        }
        MapMovesOneTranslation(y, i, v, page, w, i, v, page);
        assert Translates(y', i, v, page);
      }
    }
  }

  /** Isolation survives a call exactly when the call is allowed. */
  lemma IsolationIffAllowed(y: System, op: Op)
    requires Isolated(y)
    ensures Isolated(Step(y, op)) <==> Allowed(y, op)
  {
    match op
    case Alloc => AllocKeepsIsolation(y);
    case Free(page) => FreeKeepsIsolationIff(y, page);
    case Reset(i) => ResetKeepsIsolation(y, i);
    case Map(i, v, page, w) => MapKeepsIsolationIff(y, i, v, page, w);
  }

  // ---------------------------------------------------------------- runs

  ghost function RunOn(y: System, ops: seq<Op>): (r: System)
    requires y.Valid()
    ensures r.Valid()
  {
    if ops == [] then y else
      var q := RunOn(y, ops[..|ops| - 1]);
      StepStaysValid(q, ops[|ops| - 1]);
      Step(q, ops[|ops| - 1])
  }

  /** Isolated now, and after every shorter run before. */
  ghost predicate IsolatedAlong(y: System, ops: seq<Op>)
    requires y.Valid()
  {
    Isolated(RunOn(y, ops)) && (ops == [] || IsolatedAlong(y, ops[..|ops| - 1]))
  }

  /** Every call was allowed at the time it was made. */
  ghost predicate AllowedAlong(y: System, ops: seq<Op>)
    requires y.Valid()
  {
    ops == [] ||
    (AllowedAlong(y, ops[..|ops| - 1]) && Allowed(RunOn(y, ops[..|ops| - 1]), ops[|ops| - 1]))
  }

  /** From an isolated state, isolation holds all along a run exactly when every call was allowed. */
  lemma {:induction false} IsolatedAlongIffAllowed(y: System, ops: seq<Op>)
    requires Isolated(y)
    ensures IsolatedAlong(y, ops) <==> AllowedAlong(y, ops)
  {
    if ops != [] {
      var front := ops[..|ops| - 1];
      IsolatedAlongIffAllowed(y, front);
      if IsolatedAlong(y, front) { IsolationIffAllowed(RunOn(y, front), ops[|ops| - 1]); }
    }
  }

  // ---------------------------------------------------------------- runs of a disciplined client

  /** The client remembers the pages it was handed and has not mapped or given back since. */
  datatype Client = Client(y: System, unmapped: set<Word32>)

  ghost function ClientStep(c: Client, op: Op): Client
    requires c.y.Valid()
  {
    var y' := Step(c.y, op);
    match op
    case Alloc =>
      var (flags, status, page) := PA.Alloc(c.y.flags);
      Client(y', if status == Ok then c.unmapped + {page} else c.unmapped)
    case Free(page) => Client(y', c.unmapped - {page})
    case Reset(i) => Client(y', c.unmapped)
    case Map(i, v, page, w) =>
      var done := i < |c.y.spaces| && c.y.spaces[i].Map(v, page, w).1 == Ok;
      Client(y', if done then c.unmapped - {page} else c.unmapped)
  }

  /** Map only a page that is fresh from the allocator; free only a page nobody translates to. */
  ghost predicate Disciplined(c: Client, op: Op) {
    match op
    case Alloc => true
    case Free(page) => forall i: nat, v: Word64 :: !Translates(c.y, i, v, page)
    case Reset(i) => true
    case Map(i, v, page, w) => page in c.unmapped
  }

  /** The pages kept back are held and reached from nowhere. */
  ghost predicate Tidy(c: Client) {
    && Isolated(c.y)
    && (forall p: Word32 :: p in c.unmapped ==> p in PA.Held(c.y.flags))
    && (forall i: nat, v: Word64, p: Word32 :: p in c.unmapped ==> !Translates(c.y, i, v, p))
  }

  lemma DisciplinedMapStaysTidy(c: Client, i: nat, v: Word64, page: Word32, w: Byte)
    requires Tidy(c) && page in c.unmapped
    ensures Tidy(ClientStep(c, Map(i, v, page, w)))
  {
    var y, y' := c.y, Step(c.y, Map(i, v, page, w));
    IsolationIffAllowed(y, Map(i, v, page, w));
    if i < |y.spaces| {
      AS.MapRefinesUpdate(y.spaces[i], v, page, w);
      if y.spaces[i].Map(v, page, w).1 == Ok {
        forall j: nat, u: Word64, p: Word32 | p in c.unmapped - {page} ensures !Translates(y', j, u, p) {
          MapMovesOneTranslation(y, i, v, page, w, j, u, p);
        }
      } else {
        assert y'.spaces == y.spaces;
      }
    }
  }

  lemma DisciplinedStepStaysTidy(c: Client, op: Op)
    requires Tidy(c) && Disciplined(c, op)
    ensures Tidy(ClientStep(c, op))
  {
    var y' := Step(c.y, op);
    IsolationIffAllowed(c.y, op);
    match op
    case Alloc =>
      PA.AllocTakesLeastFree(c.y.flags);
      assert forall i: nat, v: Word64, p: Word32 :: Translates(y', i, v, p) ==> Translates(c.y, i, v, p);
    case Free(page) =>
      PA.FreeGivesBack(c.y.flags, page);
      assert forall i: nat, v: Word64, p: Word32 :: Translates(y', i, v, p) ==> Translates(c.y, i, v, p);
    case Reset(i) =>
      forall j: nat, v: Word64, p: Word32 | Translates(y', j, v, p) ensures Translates(c.y, j, v, p) {
      }
    case Map(i, v, page, w) => DisciplinedMapStaysTidy(c, i, v, page, w);
  }

  ghost function Boot(pages: nat, capacities: seq<nat>): Client {
    Client(System(PA.Cleared(pages),
                  seq(|capacities|, i requires 0 <= i < |capacities| => AS.Table(capacities[i], []))), {})
  }

  ghost function Run(pages: nat, capacities: seq<nat>, ops: seq<Op>): (c: Client)
    requires pages <= 0x1_0000_0000
    ensures c.y.Valid()
  {
    if ops == [] then Boot(pages, capacities) else
      var c, op := Run(pages, capacities, ops[..|ops| - 1]), ops[|ops| - 1];
      StepStaysValid(c.y, op);
      ClientStep(c, op)
  }

  lemma StepStaysValid(y: System, op: Op)
    requires y.Valid()
    ensures Step(y, op).Valid()
  {
    if op.Map? && op.space < |y.spaces| { AS.MapRefinesUpdate(y.spaces[op.space], op.v, op.page, op.w); }
  }

  ghost predicate DisciplinedRun(pages: nat, capacities: seq<nat>, ops: seq<Op>)
    requires pages <= 0x1_0000_0000
  {
    forall k :: 0 <= k < |ops| ==> Disciplined(Run(pages, capacities, ops[..k]), ops[k])
  }

  /** In every run of a disciplined client, with remaps and refusals allowed, every translated page is
      allocated and no page is shared. */
  lemma {:induction false} DisciplinedRunIsIsolated(pages: nat, capacities: seq<nat>, ops: seq<Op>)
    requires pages <= 0x1_0000_0000 && DisciplinedRun(pages, capacities, ops)
    ensures Tidy(Run(pages, capacities, ops)) && Isolated(Run(pages, capacities, ops).y)
  {
    if ops != [] {
      var before := ops[..|ops| - 1];
      assert forall k :: 0 <= k < |before| ==> before[..k] == ops[..k] && before[k] == ops[k];
      DisciplinedRunIsIsolated(pages, capacities, before);
      DisciplinedStepStaysTidy(Run(pages, capacities, before), ops[|ops| - 1]);
    }
  }

  /** The sequence of the host test, which frees a page while it is mapped, ends without isolation. */
  lemma HostTestLosesIsolation()
    ensures var ops := [Alloc, Map(0, 0x1000, 0, 1), Free(0)];
      && Isolated(Run(PA.VM_MAX_PAGES, [AS.MAX_MAPPINGS], ops[..2]).y)
      && !Isolated(Run(PA.VM_MAX_PAGES, [AS.MAX_MAPPINGS], ops).y)
  {
    var n, caps := PA.VM_MAX_PAGES, [AS.MAX_MAPPINGS];
    var ops := [Alloc, Map(0, 0x1000, 0, 1), Free(0)];
    assert ops[..3] == ops && ops[..2][..1] == ops[..1] && ops[..1][..0] == [] && ops[..2][1] == ops[1];
    var c0, c1, c2 := Run(n, caps, []), Run(n, caps, ops[..1]), Run(n, caps, ops[..2]);
    assert ops[..1][0] == Alloc;
    assert c1 == ClientStep(c0, Alloc);
    assert c2 == ClientStep(c1, ops[1]);
    assert c1.unmapped == {0};
    assert DisciplinedRun(n, caps, ops[..2]) by {
      assert forall k :: 0 <= k < 2 ==> ops[..2][..k] == ops[..k];
    }
    DisciplinedRunIsIsolated(n, caps, ops[..2]);
    assert Translates(c2.y, 0, 0x1000, 0);
    FreeKeepsIsolationIff(c2.y, 0);
  }
}
