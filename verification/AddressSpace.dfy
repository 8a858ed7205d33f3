/** kernel/core/vm.c, second half: an append-or-overwrite table that behaves like a finite map. */
module AddressSpaces {
  import opened Words

  const MAX_MAPPINGS: nat := 128

  datatype Mapping = Mapping(virtualPage: Word64, physicalPage: Word32, writable: Byte)
  datatype Target = Target(physicalPage: Word32, writable: Byte)

  /** `entries` are the first `count` cells of the table, `capacity` is its size. */
  datatype Table = Table(capacity: nat, entries: seq<Mapping>) {

    ghost predicate Valid() {
      && |entries| <= capacity
      && forall i, j :: 0 <= i < j < |entries| ==> entries[i].virtualPage != entries[j].virtualPage
    }

    /** The first entry for `v` at or after `from`; `|entries|` when there is none. */
    function Find(v: Word64, from: nat := 0): (r: nat)
      requires from <= |entries|
      ensures from <= r <= |entries|
      ensures r < |entries| ==> entries[r].virtualPage == v
      ensures forall i :: from <= i < r ==> entries[i].virtualPage != v
      decreases |entries| - from
    {
      if from == |entries| || entries[from].virtualPage == v then from else Find(v, from + 1)
    }

    function Map(v: Word64, p: Word32, w: Byte): (Table, Status) {
      var i := Find(v);
      if i < |entries| then (this.(entries := entries[i := Mapping(v, p, w)]), Ok)
      else if |entries| == capacity then (this, Full)
      else (this.(entries := entries + [Mapping(v, p, w)]), Ok)
    }

    function Translate(v: Word64): (Status, Target) {
      var i := Find(v);
      if i < |entries| then (Ok, Target(entries[i].physicalPage, entries[i].writable)) else (NotFound, Target(0, 0))
    }

    /** The table as a map, read off its entries. */
    ghost function View(): map<Word64, Target>
      requires Valid()
    {
      map i | 0 <= i < |entries| :: entries[i].virtualPage := Target(entries[i].physicalPage, entries[i].writable)
    }
  }

  /** Virtual pages are distinct, so the entry found is the only one. */
  lemma FoundAt(t: Table, v: Word64)
    requires t.Valid()
    ensures forall i :: 0 <= i < |t.entries| && t.entries[i].virtualPage == v ==> t.Find(v) == i
  {
  }

  /** A successful mapping, seen from any page `u`. */
  lemma MappedSeenFrom(t: Table, v: Word64, p: Word32, w: Byte, u: Word64)
    requires t.Valid() && t.Map(v, p, w).1 == Ok
    ensures t.Map(v, p, w).0.Valid()
    ensures t.Map(v, p, w).0.Translate(u) == if u == v then (Ok, Target(p, w)) else t.Translate(u)
  {
    var t', i, j := t.Map(v, p, w).0, t.Find(v), t.Find(u);
    FoundAt(t', u);
    if u == v {
      assert t'.entries[i] == Mapping(v, p, w);
    } else if j < |t.entries| {
      assert t'.entries[j] == t.entries[j];
    }
  }

  /** A table that translates as the map `m` says is that map. */
  lemma SameTranslations(t: Table, m: map<Word64, Target>)
    requires t.Valid()
    requires forall u: Word64 :: t.Translate(u) == if u in m then (Ok, m[u]) else (NotFound, Target(0, 0))
    ensures t.View() == m
  {
    forall u: Word64 ensures u in t.View() <==> u in m
                     ensures u in m ==> t.View()[u] == m[u]
    {
      TranslateRefinesLookup(t, u);
      assert t.Translate(u) == if u in m then (Ok, m[u]) else (NotFound, Target(0, 0));
    }
  }

  /** Mapping is map update, refused only for a new page in a full table; nothing else moves. */
  lemma MapRefinesUpdate(t: Table, v: Word64, p: Word32, w: Byte)
    requires t.Valid()
    ensures var (t', status) := t.Map(v, p, w);
      && t'.Valid() && t'.capacity == t.capacity
      && (status == Full <==> (v !in t.View() && |t.entries| == t.capacity))
      && (status == Full ==> t' == t)
      && (status != Full ==> status == Ok && t'.View() == t.View()[v := Target(p, w)])
  {
    var (t', status) := t.Map(v, p, w);
    if status == Ok {
      var m := t.View()[v := Target(p, w)];
      forall u: Word64 ensures t'.Translate(u) == if u in m then (Ok, m[u]) else (NotFound, Target(0, 0)) {
        MappedSeenFrom(t, v, p, w, u);
        TranslateRefinesLookup(t, u);
      }
      MappedSeenFrom(t, v, p, w, v);
      SameTranslations(t', m);
    }
  }

  /** The scan finds the entry that the map has for this page, and none when it has none. */
  lemma TranslateRefinesLookup(t: Table, v: Word64)
    requires t.Valid()
    ensures t.Translate(v) == if v in t.View() then (Ok, t.View()[v]) else (NotFound, Target(0, 0))
  {
    FoundAt(t, v);
    var i := t.Find(v);
    if i < |t.entries| { assert t.entries[i].virtualPage in t.View(); }
  }

  /** The virtual pages of the first `n` entries. */
  ghost function Pages(t: Table, n: nat): set<Word64>
    requires n <= |t.entries|
  {
    set i | 0 <= i < n :: t.entries[i].virtualPage
  }

  lemma {:induction false} PagesAreDistinct(t: Table, n: nat)
    requires t.Valid() && n <= |t.entries|
    ensures |Pages(t, n)| == n
  {
    if n > 0 {
      PagesAreDistinct(t, n - 1);
      assert Pages(t, n) == Pages(t, n - 1) + {t.entries[n - 1].virtualPage};
    } else {
      assert Pages(t, 0) == {};
    }
  }

  /** The count of a valid table is the size of its domain. */
  lemma CountIsDomainSize(t: Table)
    requires t.Valid()
    ensures |t.View()| == |t.entries|
  {
    PagesAreDistinct(t, |t.entries|);
    assert t.View().Keys == Pages(t, |t.entries|);
  }

  // ---------------------------------------------------------------- histories

  datatype Op = Reset | MapPage(v: Word64, p: Word32, w: Byte) | TranslatePage(v: Word64)

  function Step(t: Table, op: Op): Table {
    match op
    case Reset => t.(entries := [])
    case MapPage(v, p, w) => t.Map(v, p, w).0
    case TranslatePage(v) => t
  }

  ghost function Run(capacity: nat, ops: seq<Op>): (t: Table)
    ensures t.Valid() && t.capacity == capacity
  {
    if ops == [] then Table(capacity, []) else
      var t, op := Run(capacity, ops[..|ops| - 1]), ops[|ops| - 1];
      if op.MapPage? then MapRefinesUpdate(t, op.v, op.p, op.w); Step(t, op) else Step(t, op)
  }

  datatype Answer = Never | Last(target: Target)

  /** The last successful mapping of `v` in the call history. */
  ghost function LastMapped(capacity: nat, ops: seq<Op>, v: Word64): Answer {
    if ops == [] then Never else
      var before, op := ops[..|ops| - 1], ops[|ops| - 1];
      match op
      case Reset => Never
      case MapPage(u, p, w) =>
        if u == v && Run(capacity, before).Map(u, p, w).1 == Ok then Last(Target(p, w))
        else LastMapped(capacity, before, v)
      case TranslatePage(u) => LastMapped(capacity, before, v)
  }

  /** In every run, translation answers with the last successful mapping of that page. */
  lemma {:induction false} TranslateIsLastMapped(capacity: nat, ops: seq<Op>, v: Word64)
    ensures var t := Run(capacity, ops);
      t.Translate(v) == match LastMapped(capacity, ops, v) {
                          case Never => (NotFound, Target(0, 0))
                          case Last(target) => (Ok, target)
                        }
  {
    if ops != [] {
      var before, op := ops[..|ops| - 1], ops[|ops| - 1];
      var t := Run(capacity, before);
      TranslateIsLastMapped(capacity, before, v);
      if op.MapPage? {
        MapRefinesUpdate(t, op.v, op.p, op.w);
        TranslateRefinesLookup(t, v);
        TranslateRefinesLookup(Step(t, op), v);
      }
    }
  }

  // ---------------------------------------------------------------- the code

  class AddressSpace {
    const mappings: array<Mapping>
    var count: nat

    ghost predicate Valid() reads this, mappings {
      count <= mappings.Length && State().Valid()
    }

    ghost function State(): Table
      requires count <= mappings.Length
      reads this, mappings
    {
      Table(mappings.Length, mappings[..count])
    }

    /** Takes over uninitialised memory and runs `nova_vm_address_space_init` on it. */
    constructor (memory: seq<Mapping>)
      ensures Valid() && fresh(mappings)
      ensures State() == Table(|memory|, [])
    {
      mappings := new Mapping[|memory|](i requires 0 <= i < |memory| => memory[i]);
      count := 0;
    }

    method Init()
      modifies this
      ensures Valid() && State() == Table(mappings.Length, [])
    {
      count := 0;
    }

    method Map(v: Word64, p: Word32, w: Byte) returns (status: Status)
      requires Valid()
      modifies this, mappings
      ensures Valid()
      ensures (State(), status) == old(State()).Map(v, p, w)
    {
      ghost var t := State();
      MapRefinesUpdate(t, v, p, w);
      for index := 0 to count
        invariant count == old(count) && mappings[..] == old(mappings[..])
        invariant t.Find(v) == t.Find(v, index)
      {
        if mappings[index].virtualPage != v {
          continue;
        }
        mappings[index] := mappings[index].(physicalPage := p, writable := w);
        assert mappings[..count] == t.entries[index := Mapping(v, p, w)];
        return Ok;
      }
      if count == mappings.Length {
        return Full;
      }
      mappings[count] := Mapping(v, p, w);
      count := count + 1;
      assert mappings[..count] == t.entries + [Mapping(v, p, w)];
      status := Ok;
    }

    method Translate(v: Word64) returns (status: Status, target: Target)
      requires Valid()
      ensures (status, target) == State().Translate(v)
    {
      for index := 0 to count
        invariant State().Find(v) == State().Find(v, index)
      {
        if mappings[index].virtualPage != v {
          continue;
        }
        return Ok, Target(mappings[index].physicalPage, mappings[index].writable);
      }
      return NotFound, Target(0, 0);
    }
  }
}
