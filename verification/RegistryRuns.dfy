/** The device registry over whole runs, as a sequence of device numbers, most recent first.

    `Networking.NetworkStack` is proved to change its list of devices in just these steps; here is what
    follows for every sequence of them. Names are fixed, as they are while a device is registered. */
module RegistryRuns {

  datatype Op = Init | Shutdown | Register(d: nat) | Unregister(d: nat)

  type Names = nat -> string

  predicate Refused(ds: seq<nat>, d: nat, name: Names) {
    name(d) == "" || exists i :: 0 <= i < |ds| && name(ds[i]) == name(d)
  }

  function Without<T(==)>(ds: seq<T>, d: T): (r: seq<T>)
    ensures forall e :: e in r ==> e in ds
  {
    if ds == [] then [] else if ds[0] == d then ds[1..] else [ds[0]] + Without(ds[1..], d)
  }

  function Step(ds: seq<nat>, op: Op, name: Names): seq<nat> {
    match op
    case Init => []
    case Shutdown => []
    case Register(d) => if Refused(ds, d, name) then ds else [d] + ds
    case Unregister(d) => Without(ds, d)
  }

  ghost function Run(ops: seq<Op>, name: Names): seq<nat> {
    if ops == [] then [] else Step(Run(ops[..|ops| - 1], name), ops[|ops| - 1], name)
  }

  /** When `d` was last put on the list, if it has not been taken off since. */
  ghost function Since(ops: seq<Op>, name: Names, d: nat): (t: int)
    ensures -1 <= t < |ops|
  {
    if ops == [] then -1 else
      var front, before := ops[..|ops| - 1], Since(ops[..|ops| - 1], name, d);
      match ops[|ops| - 1]
      case Init => -1
      case Shutdown => -1
      case Register(e) => if e == d && !Refused(Run(front, name), e, name) then |front| else before
      case Unregister(e) => if e == d then -1 else before
  }

  ghost predicate NamesDistinct(ds: seq<nat>, name: Names) {
    forall i, j :: 0 <= i < j < |ds| ==> name(ds[i]) != name(ds[j])
  }

  ghost predicate MostRecentFirst(ds: seq<nat>, ops: seq<Op>, name: Names) {
    forall i, j :: 0 <= i < j < |ds| ==> Since(ops, name, ds[i]) > Since(ops, name, ds[j])
  }

  lemma CutBehind<T>(ds: seq<T>, k: nat)
    requires k + 1 < |ds|
    ensures ds[..k + 1] + ds[k + 2..] == [ds[0]] + (ds[1..][..k] + ds[1..][k + 1..])
  {
  }

  /** Removing takes out the first place where `d` stands and keeps the order of the rest. */
  lemma {:induction false} WithoutAt<T>(ds: seq<T>, d: T, k: nat)
    requires k <= |ds| && d !in ds[..k] && (k < |ds| ==> ds[k] == d)
    ensures Without(ds, d) == if k == |ds| then ds else ds[..k] + ds[k + 1..]
  {
    if ds == [] || k == 0 {
      assert ds != [] ==> ds[..0] + ds[1..] == ds[1..];
    } else {
      var rest := ds[1..];
      assert ds[0] == ds[..k][0] && ds[..k][1..] == rest[..k - 1];
      WithoutAt(rest, d, k - 1);
      if k < |ds| { CutBehind(ds, k - 1); } else { assert [ds[0]] + rest == ds; }
    }
  }

  /** Where the list has no repetitions, only `d` is gone. */
  lemma {:induction false} WithoutMembers<T>(ds: seq<T>, d: T)
    requires forall i, j :: 0 <= i < j < |ds| ==> ds[i] != ds[j]
    ensures forall e :: e in Without(ds, d) <==> e in ds && e != d
  {
    if ds != [] {
      var rest := ds[1..];
      assert forall e :: e in ds <==> e == ds[0] || e in rest;
      if ds[0] != d {
        WithoutMembers(rest, d);
        assert forall e :: e in Without(ds, d) <==> e == ds[0] || e in Without(rest, d);
      }
    }
  }

  lemma SinceRegister(ops: seq<Op>, d: nat, name: Names, e: nat)
    ensures Run(ops + [Register(d)], name) == Step(Run(ops, name), Register(d), name)
    ensures Since(ops + [Register(d)], name, e) ==
            if e == d && !Refused(Run(ops, name), d, name) then |ops| else Since(ops, name, e)
  {
    assert (ops + [Register(d)])[..|ops|] == ops;
  }

  /** A device that is listed is refused, by its own name. */
  lemma ListedIsRefused(ds: seq<nat>, d: nat, name: Names)
    requires d in ds
    ensures Refused(ds, d, name)
  {
    var i :| 0 <= i < |ds| && ds[i] == d;
    assert name(ds[i]) == name(d);
  }

  /** What a run has to keep: distinct names, recency order, and the list as the history says. */
  ghost predicate InOrder(ds: seq<nat>, ops: seq<Op>, name: Names) {
    && NamesDistinct(ds, name) && MostRecentFirst(ds, ops, name)
    && forall e :: e in ds <==> Since(ops, name, e) >= 0
  }

  lemma RefusedStep(ds: seq<nat>, ops: seq<Op>, d: nat, name: Names)
    requires Run(ops, name) == ds && InOrder(ds, ops, name) && Refused(ds, d, name)
    ensures Run(ops + [Register(d)], name) == ds && InOrder(ds, ops + [Register(d)], name)
  {
    forall e: nat
      ensures Run(ops + [Register(d)], name) == ds && Since(ops + [Register(d)], name, e) == Since(ops, name, e)
    {
      SinceRegister(ops, d, name, e);
    }
  }

  lemma AcceptedNames(ds: seq<nat>, d: nat, name: Names)
    requires NamesDistinct(ds, name) && !Refused(ds, d, name)
    ensures NamesDistinct([d] + ds, name) && d !in ds
  {
    if d in ds { ListedIsRefused(ds, d, name); }
  }

  /** A device put on the list later than all others stands in the right place at the front. */
  lemma FrontIsRecent(ds: seq<nat>, ops: seq<Op>, ops': seq<Op>, d: nat, name: Names)
    requires MostRecentFirst(ds, ops, name) && Since(ops', name, d) == |ops|
    requires forall e: nat :: e in ds ==> Since(ops', name, e) == Since(ops, name, e)
    ensures MostRecentFirst([d] + ds, ops', name)
  {
    var ds' := [d] + ds;
    forall i, j | 0 <= i < j < |ds'| ensures Since(ops', name, ds'[i]) > Since(ops', name, ds'[j]) {
      assert ds'[j] == ds[j - 1] && ds[j - 1] in ds;
      if i > 0 { assert ds'[i] == ds[i - 1] && ds[i - 1] in ds; }
    }
  }

  lemma AcceptedStep(ds: seq<nat>, ops: seq<Op>, d: nat, name: Names)
    requires Run(ops, name) == ds && InOrder(ds, ops, name) && !Refused(ds, d, name)
    ensures Run(ops + [Register(d)], name) == [d] + ds && InOrder([d] + ds, ops + [Register(d)], name)
  {
    var ops' := ops + [Register(d)];
    AcceptedNames(ds, d, name);
    forall e: nat
      ensures Run(ops', name) == [d] + ds
      ensures Since(ops', name, e) == if e == d then |ops| else Since(ops, name, e)
      ensures e in [d] + ds <==> Since(ops', name, e) >= 0
    {
      SinceRegister(ops, d, name, e);
    }
    FrontIsRecent(ds, ops, ops', d, name);
  }

  lemma RegisterStep(ds: seq<nat>, ops: seq<Op>, d: nat, name: Names)
    requires Run(ops, name) == ds && InOrder(ds, ops, name)
    ensures InOrder(Run(ops + [Register(d)], name), ops + [Register(d)], name)
    ensures d in ds ==> Run(ops + [Register(d)], name) == ds
  {
    if d in ds { ListedIsRefused(ds, d, name); }
    if Refused(ds, d, name) { RefusedStep(ds, ops, d, name); } else { AcceptedStep(ds, ops, d, name); }
  }

  lemma SinceUnregister(ops: seq<Op>, d: nat, name: Names, e: nat)
    ensures Run(ops + [Unregister(d)], name) == Without(Run(ops, name), d)
    ensures Since(ops + [Unregister(d)], name, e) == if e == d then -1 else Since(ops, name, e)
  {
    assert (ops + [Unregister(d)])[..|ops|] == ops;
  }

  lemma CutKeepsOrder(ds: seq<nat>, ops: seq<Op>, k: nat, name: Names)
    requires NamesDistinct(ds, name) && MostRecentFirst(ds, ops, name) && k < |ds|
    ensures NamesDistinct(ds[..k] + ds[k + 1..], name) && MostRecentFirst(ds[..k] + ds[k + 1..], ops, name)
  {
    var r := ds[..k] + ds[k + 1..];
    forall i, j | 0 <= i < j < |r|
      ensures name(r[i]) != name(r[j]) && Since(ops, name, r[i]) > Since(ops, name, r[j])
    {
      var i', j' := if i < k then i else i + 1, if j < k then j else j + 1;
      assert r[i] == ds[i'] && r[j] == ds[j'];
    }
  }

  lemma NamesTellApart(ds: seq<nat>, name: Names)
    requires NamesDistinct(ds, name)
    ensures forall i, j :: 0 <= i < j < |ds| ==> ds[i] != ds[j]
  {
    forall i, j | 0 <= i < j < |ds| ensures ds[i] != ds[j] {
      assert name(ds[i]) != name(ds[j]);
    }
  }

  /** What is left keeps its names apart and its order. */
  lemma WithoutKeepsOrder(ds: seq<nat>, ops: seq<Op>, d: nat, name: Names)
    requires NamesDistinct(ds, name) && MostRecentFirst(ds, ops, name)
    ensures NamesDistinct(Without(ds, d), name) && MostRecentFirst(Without(ds, d), ops, name)
    ensures forall e :: e in Without(ds, d) <==> e in ds && e != d
  {
    NamesTellApart(ds, name);
    WithoutMembers(ds, d);
    if d in ds {
      var k :| 0 <= k < |ds| && ds[k] == d;
      WithoutAt(ds, d, k);
      CutKeepsOrder(ds, ops, k, name);
    } else {
      WithoutAt(ds, d, |ds|);
    }
  }

  lemma UnregisterStep(ds: seq<nat>, ops: seq<Op>, d: nat, name: Names)
    requires Run(ops, name) == ds && InOrder(ds, ops, name)
    ensures InOrder(Run(ops + [Unregister(d)], name), ops + [Unregister(d)], name)
  {
    var ops', ds' := ops + [Unregister(d)], Without(ds, d);
    WithoutKeepsOrder(ds, ops, d, name);
    forall e: nat
      ensures Run(ops', name) == ds' && Since(ops', name, e) == if e == d then -1 else Since(ops, name, e)
    {
      SinceUnregister(ops, d, name, e);
    }
    forall i, j | 0 <= i < j < |ds'| ensures Since(ops', name, ds'[i]) > Since(ops', name, ds'[j]) {
      assert ds'[i] in ds' && ds'[j] in ds';
    }
  }

  /** In every run the listed devices are exactly those registered and not taken off since, their names
      are pairwise distinct, and they stand in the order of registration, most recent first. */
  lemma {:induction false} RegistryIsMostRecentFirst(ops: seq<Op>, name: Names)
    ensures InOrder(Run(ops, name), ops, name)
  {
    if ops != [] {
      var front, op := ops[..|ops| - 1], ops[|ops| - 1];
      RegistryIsMostRecentFirst(front, name);
      assert front + [op] == ops;
      match op
      case Init =>
      case Shutdown =>
      case Register(d) => RegisterStep(Run(front, name), front, d, name);
      case Unregister(d) => UnregisterStep(Run(front, name), front, d, name);
    }
  }
}
