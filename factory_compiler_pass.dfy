/** The build-time wiring pass (`FactoryCompilerPass::process`). It drops abstract and
    unreflectable definitions, collects the factory definitions under their targets (two
    factories with one target are fatal), and gives every other definition one `register`
    call on the first factory, in target-map order, whose target its class implements. */
module CompilerPass {
  import opened Common
  import opened Lookup

  /** A service definition of the container: its id, its class, whether it is abstract and
      whether it is shared (`isShared()`). */
  datatype Definition = Definition(id: string, cls: ClassName, isAbstract: bool, shared: bool)

  /** One entry of the `$factories` array: a target and the factory definition recorded under it. */
  datatype FactoryEntry = FactoryEntry(target: InterfaceName, def: Definition)

  /** What the first loop leaves: the factories in insertion order, and the local
      `$definitions` copy after its `unset`s, i.e. the candidates in enumeration order. */
  datatype Split = Split(factories: seq<FactoryEntry>, candidates: seq<Definition>)

  /** `addMethodCall('register', [$d, $d->isShared()])`. */
  datatype RegisterCall = RegisterCall(registrable: Definition, shared: bool)

  /** A factory definition with its target and the `register` calls the pass added to it, in order. */
  datatype Wired = Wired(target: InterfaceName, factory: Definition, calls: seq<RegisterCall>)

  /** Definitions that the first loop records as factories: not abstract, reflectable, and
      implementing the `Factory` interface. */
  function IsFactoryDef(rt: Runtime): Definition -> bool
  {
    (d: Definition) => !d.isAbstract && d.cls in rt.classes && FactoryMarker in rt.classes[d.cls].interfaces
  }

  /** Definitions that survive the first loop as candidates: not abstract, reflectable, not factories. */
  function IsCandidate(rt: Runtime): Definition -> bool
  {
    (d: Definition) => !d.isAbstract && d.cls in rt.classes && FactoryMarker !in rt.classes[d.cls].interfaces
  }

  /** What `getTargetInterface()` of a factory class returns. */
  function DeclaredTarget(rt: Runtime, d: Definition): string
  {
    if d.cls in rt.classes then rt.classes[d.cls].declaredTarget else ""
  }

  /** `isset($factories[$t])` and `$factories[$t]`. */
  function EntryFor(factories: seq<FactoryEntry>, t: InterfaceName): (r: Option<FactoryEntry>)
    ensures r.None? <==> forall k :: 0 <= k < |factories| ==> factories[k].target != t
    ensures r.Some? ==> r.value in factories && r.value.target == t
  {
    if factories == [] then None
    else if factories[0].target == t then Some(factories[0])
    else EntryFor(factories[1..], t)
  }

  /** One iteration of the first loop on definition `d`. It throws only on a factory
      definition: with "must be an existing interface" when its target does not exist, and
      with "targeted by" naming the factory already recorded under that target. */
  function Classify(sp: Split, d: Definition, rt: Runtime): (r: Result<Split>)
    ensures r.Err? <==> IsFactoryDef(rt)(d) && (DeclaredTarget(rt, d) !in rt.interfaces
                                               || EntryFor(sp.factories, DeclaredTarget(rt, d)).Some?)
    ensures (IsFactoryDef(rt)(d) && DeclaredTarget(rt, d) !in rt.interfaces)
              ==> r == Err(InvalidTarget(d.cls, DeclaredTarget(rt, d)))
    ensures (IsFactoryDef(rt)(d) && DeclaredTarget(rt, d) in rt.interfaces
             && EntryFor(sp.factories, DeclaredTarget(rt, d)).Some?)
              ==> r == Err(DuplicateTarget(DeclaredTarget(rt, d), EntryFor(sp.factories, DeclaredTarget(rt, d)).value.def.cls, d.cls))
  {
    if d.isAbstract then Ok(sp)
    else if d.cls !in rt.classes then Ok(sp)
    else if FactoryMarker in rt.classes[d.cls].interfaces then
      match TargetOf(d.cls, rt.classes[d.cls].declaredTarget, rt)
      case Err(e) => Err(e)
      case Ok(t) =>
        match EntryFor(sp.factories, t)
        case Some(used) => Err(DuplicateTarget(t, used.def.cls, d.cls))
        case None => Ok(sp.(factories := sp.factories + [FactoryEntry(t, d)]))
    else Ok(sp.(candidates := sp.candidates + [d]))
  }

  /** The first loop over `defs`, as a fold; the first exception ends it. */
  function Partition(defs: seq<Definition>, rt: Runtime): Result<Split>
    decreases |defs|
  {
    if defs == [] then Ok(Split([], []))
    else match Partition(defs[..|defs| - 1], rt)
      case Err(e) => Err(e)
      case Ok(sp) => Classify(sp, defs[|defs| - 1], rt)
  }

  /** Once the first loop has thrown, later definitions change nothing. */
  lemma {:induction false} PartitionErrSticky(defs: seq<Definition>, n: nat, rt: Runtime)
    requires n <= |defs| && Partition(defs[..n], rt).Err?
    ensures Partition(defs, rt) == Partition(defs[..n], rt)
    decreases |defs|
  {
    if n < |defs| {
      var init := defs[..|defs| - 1];
      assert init[..n] == defs[..n];
      PartitionErrSticky(init, n, rt);
    } else {
      assert defs[..n] == defs;
    }
  }

  function Defs(factories: seq<FactoryEntry>): seq<Definition>
  {
    seq(|factories|, k requires 0 <= k < |factories| => factories[k].def)
  }

  /** A first-loop iteration that does not throw appends `d` to the candidates when it is
      one, and records it under its declared target when it is a factory. */
  lemma ClassifyOk(sp: Split, d: Definition, rt: Runtime)
    requires Classify(sp, d, rt).Ok?
    ensures Classify(sp, d, rt).value.candidates
            == sp.candidates + (if IsCandidate(rt)(d) then [d] else [])
    ensures Classify(sp, d, rt).value.factories
            == sp.factories + (if IsFactoryDef(rt)(d) then [FactoryEntry(DeclaredTarget(rt, d), d)] else [])
    ensures IsFactoryDef(rt)(d) ==> DeclaredTarget(rt, d) in rt.interfaces
                                    && EntryFor(sp.factories, DeclaredTarget(rt, d)).None?
  {
  }

  /** The candidates a completed first loop leaves are the non-abstract, reflectable
      non-factories, in enumeration order. */
  lemma {:induction false} CandidatesInOrder(defs: seq<Definition>, rt: Runtime)
    requires Partition(defs, rt).Ok?
    ensures Partition(defs, rt).value.candidates == Filter(defs, IsCandidate(rt))
    decreases |defs|
  {
    if defs != [] {
      var init := defs[..|defs| - 1];
      var d := defs[|defs| - 1];
      assert defs == init + [d];
      CandidatesInOrder(init, rt);
      ClassifyOk(Partition(init, rt).value, d, rt);
      FilterSnoc(init, d, IsCandidate(rt));
    }
  }

  /** The factories a completed first loop records are the non-abstract, reflectable factory
      definitions, in enumeration order. */
  lemma {:induction false} FactoriesInOrder(defs: seq<Definition>, rt: Runtime)
    requires Partition(defs, rt).Ok?
    ensures Defs(Partition(defs, rt).value.factories) == Filter(defs, IsFactoryDef(rt))
    decreases |defs|
  {
    if defs != [] {
      var init := defs[..|defs| - 1];
      var d := defs[|defs| - 1];
      assert defs == init + [d];
      FactoriesInOrder(init, rt);
      var sp := Partition(init, rt).value;
      ClassifyOk(sp, d, rt);
      FilterSnoc(init, d, IsFactoryDef(rt));
      if IsFactoryDef(rt)(d) {
        var f' := sp.factories + [FactoryEntry(DeclaredTarget(rt, d), d)];
        assert Defs(f') == Defs(sp.factories) + [d];
      }
    }
  }

  /** Each recorded factory sits under its own declared target, which is an existing
      interface, and no two recorded factories share a target. */
  lemma {:induction false} FactoryTargets(defs: seq<Definition>, rt: Runtime)
    requires Partition(defs, rt).Ok?
    ensures var f := Partition(defs, rt).value.factories;
            && (forall k :: 0 <= k < |f| ==> f[k].target == DeclaredTarget(rt, f[k].def) && f[k].target in rt.interfaces)
            && forall k, m :: 0 <= k < m < |f| ==> f[k].target != f[m].target
    decreases |defs|
  {
    if defs != [] {
      var init := defs[..|defs| - 1];
      var d := defs[|defs| - 1];
      FactoryTargets(init, rt);
      ClassifyOk(Partition(init, rt).value, d, rt);
    }
  }

  /** What a completed first loop produced, all together. */
  lemma PartitionShape(defs: seq<Definition>, rt: Runtime)
    requires Partition(defs, rt).Ok?
    ensures var sp := Partition(defs, rt).value;
            && sp.candidates == Filter(defs, IsCandidate(rt))
            && Defs(sp.factories) == Filter(defs, IsFactoryDef(rt))
            && (forall k :: 0 <= k < |sp.factories| ==>
                  sp.factories[k].target == DeclaredTarget(rt, sp.factories[k].def)
                  && sp.factories[k].target in rt.interfaces)
            && forall k, m :: 0 <= k < m < |sp.factories| ==> sp.factories[k].target != sp.factories[m].target
  {
    CandidatesInOrder(defs, rt);
    FactoriesInOrder(defs, rt);
    FactoryTargets(defs, rt);
  }

  /** Two factory definitions declaring the same target make the pass throw. */
  lemma DuplicateTargetFails(defs: seq<Definition>, i: nat, j: nat, rt: Runtime)
    requires i < j < |defs|
    requires IsFactoryDef(rt)(defs[i]) && IsFactoryDef(rt)(defs[j])
    requires DeclaredTarget(rt, defs[i]) == DeclaredTarget(rt, defs[j])
    ensures Partition(defs, rt).Err?
  {
    var prefix := defs[..j + 1];
    assert prefix[..j] == defs[..j];
    if Partition(defs[..j], rt).Ok? {
      var sp := Partition(defs[..j], rt).value;
      PartitionShape(defs[..j], rt);
      assert defs[..j][i] == defs[i];
      assert defs[i] in Filter(defs[..j], IsFactoryDef(rt));
      var k :| 0 <= k < |sp.factories| && Defs(sp.factories)[k] == defs[i];
      assert sp.factories[k].target == DeclaredTarget(rt, defs[j]);
      assert EntryFor(sp.factories, DeclaredTarget(rt, defs[j])).Some?;
    }
    assert Partition(prefix, rt).Err?;
    PartitionErrSticky(defs, j + 1, rt);
  }

  /** A first-loop iteration that throws "targeted by" does so on a factory definition whose
      target is already recorded for another factory. */
  lemma ClassifyDuplicate(sp: Split, d: Definition, rt: Runtime, t: InterfaceName, a: ClassName, b: ClassName)
    requires Classify(sp, d, rt) == Err(DuplicateTarget(t, a, b))
    ensures IsFactoryDef(rt)(d) && d.cls == b && DeclaredTarget(rt, d) == t
    ensures exists k :: 0 <= k < |sp.factories| && sp.factories[k].target == t && sp.factories[k].def.cls == a
  {
  }

  /** The "targeted by" exception names the target, the class of the factory recorded first
      and the class of the later one, both factory definitions declaring that target. */
  lemma {:induction false} DuplicateErrorNamesBoth(defs: seq<Definition>, rt: Runtime, t: InterfaceName, a: ClassName, b: ClassName)
    requires Partition(defs, rt) == Err(DuplicateTarget(t, a, b))
    ensures exists i, j :: 0 <= i < j < |defs| && IsFactoryDef(rt)(defs[i]) && IsFactoryDef(rt)(defs[j])
                           && defs[i].cls == a && defs[j].cls == b
                           && DeclaredTarget(rt, defs[i]) == t && DeclaredTarget(rt, defs[j]) == t
    decreases |defs|
  {
    var init := defs[..|defs| - 1];
    var last := |defs| - 1;
    if Partition(init, rt).Err? {
      DuplicateErrorNamesBoth(init, rt, t, a, b);
      var i, j :| 0 <= i < j < |init| && IsFactoryDef(rt)(init[i]) && IsFactoryDef(rt)(init[j])
                  && init[i].cls == a && init[j].cls == b
                  && DeclaredTarget(rt, init[i]) == t && DeclaredTarget(rt, init[j]) == t;
      assert init[i] == defs[i] && init[j] == defs[j];
    } else {
      var sp := Partition(init, rt).value;
      ClassifyDuplicate(sp, defs[last], rt, t, a, b);
      var k :| 0 <= k < |sp.factories| && sp.factories[k].target == t && sp.factories[k].def.cls == a;
      FactoriesInOrder(init, rt);
      FactoryTargets(init, rt);
      var f := sp.factories[k].def;
      assert Defs(sp.factories)[k] == f;
      assert f in Filter(init, IsFactoryDef(rt));
      var i :| 0 <= i < |init| && init[i] == f;
      assert defs[i] == f && IsFactoryDef(rt)(f) && DeclaredTarget(rt, f) == t;
    }
  }

  /** The inner loop from position `j` on: the first factory whose target the class of `d`
      implements; nothing when `d` is not reflectable. */
  function RouteFrom(d: Definition, factories: seq<FactoryEntry>, rt: Runtime, j: nat): (r: Option<nat>)
    ensures r.Some? ==> j <= r.value < |factories| && factories[r.value].target in Implements(rt, d.cls)
                        && forall m :: j <= m < r.value ==> factories[m].target !in Implements(rt, d.cls)
    ensures r.None? <==> forall m :: j <= m < |factories| ==> factories[m].target !in Implements(rt, d.cls)
    decreases |factories| - j
  {
    if j >= |factories| then None
    else if d.cls !in rt.classes then None
    else if factories[j].target in Implements(rt, d.cls) then Some(j)
    else RouteFrom(d, factories, rt, j + 1)
  }

  /** The factory (by position) that receives the `register` call for `d`, if any. */
  function Route(d: Definition, factories: seq<FactoryEntry>, rt: Runtime): Option<nat>
  {
    RouteFrom(d, factories, rt, 0)
  }

  function RoutedTo(factories: seq<FactoryEntry>, rt: Runtime, k: nat): Definition -> bool
  {
    (d: Definition) => Route(d, factories, rt) == Some(k)
  }

  function Calls(ds: seq<Definition>): seq<RegisterCall>
  {
    seq(|ds|, i requires 0 <= i < |ds| => RegisterCall(ds[i], ds[i].shared))
  }

  /** The `register` calls the second loop adds to the `k`-th factory: one per candidate routed
      to it, in candidate order. */
  function CallsFor(candidates: seq<Definition>, factories: seq<FactoryEntry>, rt: Runtime, k: nat): seq<RegisterCall>
  {
    Calls(Filter(candidates, RoutedTo(factories, rt, k)))
  }

  lemma CallsForSnoc(candidates: seq<Definition>, d: Definition, factories: seq<FactoryEntry>, rt: Runtime, k: nat)
    ensures CallsFor(candidates + [d], factories, rt, k)
            == CallsFor(candidates, factories, rt, k)
               + (if Route(d, factories, rt) == Some(k) then [RegisterCall(d, d.shared)] else [])
  {
    FilterSnoc(candidates, d, RoutedTo(factories, rt, k));
    var before := Filter(candidates, RoutedTo(factories, rt, k));
    assert Calls(before + [d]) == Calls(before) + [RegisterCall(d, d.shared)];
  }

  /** The whole pass: the exception of the first loop, or each factory with its `register` calls. */
  function Wiring(defs: seq<Definition>, rt: Runtime): Result<seq<Wired>>
  {
    match Partition(defs, rt)
    case Err(e) => Err(e)
    case Ok(sp) =>
      Ok(seq(|sp.factories|, k requires 0 <= k < |sp.factories| =>
               Wired(sp.factories[k].target, sp.factories[k].def, CallsFor(sp.candidates, sp.factories, rt, k))))
  }

  /** `process($container)`: the two loops of the source. The first builds `$factories` and
      keeps the candidates (the source `unset`s the others from its local copy of the
      definitions, so the container's own definitions are never removed); the second gives
      each candidate at most one `register` call (`continue 2`). */
  method Process(defs: seq<Definition>, rt: Runtime) returns (r: Result<seq<Wired>>)
    ensures r == Wiring(defs, rt)
  {
    var factories: seq<FactoryEntry> := [];
    var definitions: seq<Definition> := [];
    var i := 0;
    while i < |defs|
      invariant 0 <= i <= |defs|
      invariant Partition(defs[..i], rt) == Ok(Split(factories, definitions))
    {
      var d := defs[i];
      assert defs[..i + 1][..i] == defs[..i];
      if d.isAbstract {
      } else if d.cls !in rt.classes {
      } else if FactoryMarker in rt.classes[d.cls].interfaces {
        var t := TargetOf(d.cls, rt.classes[d.cls].declaredTarget, rt);
        if t.Err? {
          PartitionErrSticky(defs, i + 1, rt);
          return Err(t.error);
        }
        var used := EntryFor(factories, t.value);
        if used.Some? {
          PartitionErrSticky(defs, i + 1, rt);
          return Err(DuplicateTarget(t.value, used.value.def.cls, d.cls));
        }
        factories := factories + [FactoryEntry(t.value, d)];
      } else {
        definitions := definitions + [d];
      }
      i := i + 1;
    }
    assert defs[..|defs|] == defs;

    var calls: seq<seq<RegisterCall>> := seq(|factories|, k => []);
    var c := 0;
    while c < |definitions|
      invariant 0 <= c <= |definitions|
      invariant |calls| == |factories|
      invariant forall k :: 0 <= k < |factories| ==> calls[k] == CallsFor(definitions[..c], factories, rt, k)
    {
      var d := definitions[c];
      ghost var before := calls;
      var j := 0;
      while j < |factories|
        invariant 0 <= j <= |factories|
        invariant calls == before
        invariant RouteFrom(d, factories, rt, j) == Route(d, factories, rt)
      {
        if d.cls !in rt.classes {
          break;
        }
        if factories[j].target in Implements(rt, d.cls) {
          calls := calls[j := calls[j] + [RegisterCall(d, d.shared)]];
          break;
        }
        j := j + 1;
      }
      assert definitions[..c + 1] == definitions[..c] + [d];
      forall k | 0 <= k < |factories|
        ensures calls[k] == CallsFor(definitions[..c + 1], factories, rt, k)
      {
        CallsForSnoc(definitions[..c], d, factories, rt, k);
      }
      c := c + 1;
    }
    assert definitions[..|definitions|] == definitions;
    var wired := seq(|factories|, k requires 0 <= k < |factories| =>
                       Wired(factories[k].target, factories[k].def, calls[k]));
    assert Partition(defs, rt) == Ok(Split(factories, definitions));
    ghost var expected := Wiring(defs, rt).value;
    forall k | 0 <= k < |factories|
      ensures wired[k] == expected[k]
    {
    }
    assert wired == expected;
    r := Ok(wired);
  }

  /** A call for `d` is among the calls in `Calls(ds)` exactly when `d` is among `ds`, with its own shared flag. */
  lemma CallsMember(ds: seq<Definition>, d: Definition, shared: bool)
    ensures RegisterCall(d, shared) in Calls(ds) <==> d in ds && shared == d.shared
  {
    if d in ds && shared == d.shared {
      var i :| 0 <= i < |ds| && ds[i] == d;
      assert Calls(ds)[i] == RegisterCall(d, shared);
    }
  }

  /** `Calls(ds)` holds the call for `d` as often as `ds` holds `d`. */
  lemma {:induction false} CallsMultiplicity(ds: seq<Definition>, d: Definition)
    ensures multiset(Calls(ds))[RegisterCall(d, d.shared)] == multiset(ds)[d]
  {
    if ds != [] {
      CallsMultiplicity(ds[1..], d);
      assert ds == [ds[0]] + ds[1..];
      assert Calls(ds) == [RegisterCall(ds[0], ds[0].shared)] + Calls(ds[1..]);
      assert multiset(ds) == multiset([ds[0]]) + multiset(ds[1..]);
      assert multiset(Calls(ds)) == multiset([RegisterCall(ds[0], ds[0].shared)]) + multiset(Calls(ds[1..]));
    }
  }

  /** `d` is routed to the `k`-th factory exactly when that factory's target is the first one
      the class of `d` implements. */
  lemma RouteIsFirstMatch(d: Definition, factories: seq<FactoryEntry>, rt: Runtime, k: nat)
    requires k < |factories|
    ensures Route(d, factories, rt) == Some(k) <==>
              && factories[k].target in Implements(rt, d.cls)
              && forall j :: 0 <= j < k ==> factories[j].target !in Implements(rt, d.cls)
  {
    var r := Route(d, factories, rt);
    if factories[k].target in Implements(rt, d.cls) && forall j :: 0 <= j < k ==> factories[j].target !in Implements(rt, d.cls) {
      assert r.Some?;
    }
  }

  /** The calls the pass gives the `k`-th factory: a call `[d, s]` is there exactly when `d`
      is a candidate definition, `s` is its shared flag, and this factory's target is the
      first target, in target-map order, that the class of `d` implements. */
  lemma WiringCalls(defs: seq<Definition>, rt: Runtime, k: nat, d: Definition, s: bool)
    requires Wiring(defs, rt).Ok? && k < |Wiring(defs, rt).value|
    ensures var w := Wiring(defs, rt).value;
            RegisterCall(d, s) in w[k].calls <==>
              && d in defs && IsCandidate(rt)(d) && s == d.shared
              && w[k].target in Implements(rt, d.cls)
              && forall j :: 0 <= j < k ==> w[j].target !in Implements(rt, d.cls)
  {
    var sp := Partition(defs, rt).value;
    var w := Wiring(defs, rt).value;
    CandidatesInOrder(defs, rt);
    var routed := Filter(sp.candidates, RoutedTo(sp.factories, rt, k));
    assert w[k].calls == Calls(routed);
    CallsMember(routed, d, s);
    FilterMember(sp.candidates, RoutedTo(sp.factories, rt, k), d);
    FilterMember(defs, IsCandidate(rt), d);
    RouteIsFirstMatch(d, sp.factories, rt, k);
    assert forall j :: 0 <= j < |w| ==> w[j].target == sp.factories[j].target;
  }

  /** A candidate is registered into at most one factory, never into every factory it matches. */
  lemma AtMostOneFactory(defs: seq<Definition>, rt: Runtime, d: Definition, s: bool, k1: nat, k2: nat)
    requires Wiring(defs, rt).Ok? && k1 < |Wiring(defs, rt).value| && k2 < |Wiring(defs, rt).value|
    requires RegisterCall(d, s) in Wiring(defs, rt).value[k1].calls
    requires RegisterCall(d, s) in Wiring(defs, rt).value[k2].calls
    ensures k1 == k2
  {
    var w := Wiring(defs, rt).value;
    WiringCalls(defs, rt, k1, d, s);
    WiringCalls(defs, rt, k2, d, s);
  }

  /** A candidate whose class implements the targets of two factories is registered only into
      the one that comes first in the target map. */
  lemma FirstOfTwoMatches(defs: seq<Definition>, rt: Runtime, d: Definition, k1: nat, k2: nat)
    requires Wiring(defs, rt).Ok? && k1 < k2 < |Wiring(defs, rt).value|
    requires d in defs && IsCandidate(rt)(d)
    requires var w := Wiring(defs, rt).value;
             && w[k1].target in Implements(rt, d.cls) && w[k2].target in Implements(rt, d.cls)
             && forall j :: 0 <= j < k1 ==> w[j].target !in Implements(rt, d.cls)
    ensures RegisterCall(d, d.shared) in Wiring(defs, rt).value[k1].calls
    ensures RegisterCall(d, d.shared) !in Wiring(defs, rt).value[k2].calls
  {
    WiringCalls(defs, rt, k1, d, d.shared);
    WiringCalls(defs, rt, k2, d, d.shared);
  }

  /** When every factory target is valid the pass completes, and a definition whose class
      implements no factory's target gets no call. */
  lemma UnmatchedGetsNoCall(defs: seq<Definition>, rt: Runtime, d: Definition, s: bool)
    requires FactoryTargetsValid(defs, rt)
    requires forall i :: 0 <= i < |defs| && IsFactoryDef(rt)(defs[i]) ==> DeclaredTarget(rt, defs[i]) !in Implements(rt, d.cls)
    ensures Wiring(defs, rt).Ok?
    ensures forall k :: 0 <= k < |Wiring(defs, rt).value| ==> RegisterCall(d, s) !in Wiring(defs, rt).value[k].calls
  {
    PassOk(defs, rt);
    var sp := Partition(defs, rt).value;
    FactoriesInOrder(defs, rt);
    FactoryTargets(defs, rt);
    forall k | 0 <= k < |Wiring(defs, rt).value|
      ensures RegisterCall(d, s) !in Wiring(defs, rt).value[k].calls
    {
      assert Defs(sp.factories)[k] == sp.factories[k].def;
      FilterMember(defs, IsFactoryDef(rt), sp.factories[k].def);
      WiringCalls(defs, rt, k, d, s);
    }
  }

  /** Factory definitions, abstract definitions and unreflectable ones are never registered. */
  lemma OnlyCandidatesRegistered(defs: seq<Definition>, rt: Runtime, d: Definition, s: bool)
    requires Wiring(defs, rt).Ok?
    requires d.isAbstract || d.cls !in rt.classes || FactoryMarker in rt.classes[d.cls].interfaces
    ensures forall k :: 0 <= k < |Wiring(defs, rt).value| ==> RegisterCall(d, s) !in Wiring(defs, rt).value[k].calls
  {
    forall k | 0 <= k < |Wiring(defs, rt).value|
      ensures RegisterCall(d, s) !in Wiring(defs, rt).value[k].calls
    {
      WiringCalls(defs, rt, k, d, s);
    }
  }

  /** With definitions that are all different (the container keys them by id), a candidate
      that implements some factory's target gets exactly one `register` call, on the first
      such factory, and none on any other. */
  lemma RegisteredOnce(defs: seq<Definition>, rt: Runtime, d: Definition, k: nat)
    requires Distinct(defs) && d in defs && IsCandidate(rt)(d)
    requires Wiring(defs, rt).Ok? && k < |Wiring(defs, rt).value|
    requires var w := Wiring(defs, rt).value;
             && w[k].target in Implements(rt, d.cls)
             && forall j :: 0 <= j < k ==> w[j].target !in Implements(rt, d.cls)
    ensures multiset(Wiring(defs, rt).value[k].calls)[RegisterCall(d, d.shared)] == 1
    ensures forall j :: 0 <= j < |Wiring(defs, rt).value| && j != k
                        ==> multiset(Wiring(defs, rt).value[j].calls)[RegisterCall(d, d.shared)] == 0
  {
    var w := Wiring(defs, rt).value;
    CountOnFirstMatch(defs, rt, d, k);
    WiringCalls(defs, rt, k, d, d.shared);
    forall j | 0 <= j < |w| && j != k
      ensures multiset(w[j].calls)[RegisterCall(d, d.shared)] == 0
    {
      AtMostOneFactoryCount(defs, rt, d, j, k);
    }
  }

  /** The first matching factory holds the call for `d` once. */
  lemma CountOnFirstMatch(defs: seq<Definition>, rt: Runtime, d: Definition, k: nat)
    requires Distinct(defs) && d in defs && IsCandidate(rt)(d)
    requires Wiring(defs, rt).Ok? && k < |Wiring(defs, rt).value|
    requires var w := Wiring(defs, rt).value;
             && w[k].target in Implements(rt, d.cls)
             && forall j :: 0 <= j < k ==> w[j].target !in Implements(rt, d.cls)
    ensures multiset(Wiring(defs, rt).value[k].calls)[RegisterCall(d, d.shared)] == 1
  {
    var sp := Partition(defs, rt).value;
    var w := Wiring(defs, rt).value;
    CandidatesInOrder(defs, rt);
    assert forall j :: 0 <= j < |w| ==> w[j].target == sp.factories[j].target;
    var routed := Filter(sp.candidates, RoutedTo(sp.factories, rt, k));
    assert w[k].calls == Calls(routed);
    CallsMultiplicity(routed, d);
    RouteIsFirstMatch(d, sp.factories, rt, k);
    FilterMultiplicity(sp.candidates, RoutedTo(sp.factories, rt, k), d);
    FilterMultiplicity(defs, IsCandidate(rt), d);
    DistinctOnce(defs, d);
  }

  /** Any other factory holds no call for `d`. */
  lemma AtMostOneFactoryCount(defs: seq<Definition>, rt: Runtime, d: Definition, j: nat, k: nat)
    requires Wiring(defs, rt).Ok? && j < |Wiring(defs, rt).value| && k < |Wiring(defs, rt).value| && j != k
    requires RegisterCall(d, d.shared) in Wiring(defs, rt).value[k].calls
    ensures multiset(Wiring(defs, rt).value[j].calls)[RegisterCall(d, d.shared)] == 0
  {
    if RegisterCall(d, d.shared) in Wiring(defs, rt).value[j].calls {
      AtMostOneFactory(defs, rt, d, d.shared, j, k);
    }
  }

  /** Two factories with one target abort the pass before any `register` call is added: the
      result is the exception alone. */
  lemma DuplicateTargetAbortsPass(defs: seq<Definition>, i: nat, j: nat, rt: Runtime)
    requires i < j < |defs|
    requires IsFactoryDef(rt)(defs[i]) && IsFactoryDef(rt)(defs[j])
    requires DeclaredTarget(rt, defs[i]) == DeclaredTarget(rt, defs[j])
    ensures Wiring(defs, rt).Err?
  {
    DuplicateTargetFails(defs, i, j, rt);
  }

  /** The condition under which the first loop, and so the whole pass, completes: every
      factory definition declares an existing interface, and no two declare the same one. */
  ghost predicate FactoryTargetsValid(defs: seq<Definition>, rt: Runtime)
  {
    && (forall i :: 0 <= i < |defs| && IsFactoryDef(rt)(defs[i]) ==> DeclaredTarget(rt, defs[i]) in rt.interfaces)
    && forall i, j :: 0 <= i < j < |defs| && IsFactoryDef(rt)(defs[i]) && IsFactoryDef(rt)(defs[j])
                      ==> DeclaredTarget(rt, defs[i]) != DeclaredTarget(rt, defs[j])
  }

  /** After a completed first loop, `$factories[$t]` is set exactly when some factory
      definition declares `t`. */
  lemma RecordedTargets(defs: seq<Definition>, rt: Runtime, t: InterfaceName)
    requires Partition(defs, rt).Ok?
    ensures EntryFor(Partition(defs, rt).value.factories, t).Some?
            <==> exists i :: 0 <= i < |defs| && IsFactoryDef(rt)(defs[i]) && DeclaredTarget(rt, defs[i]) == t
  {
    var f := Partition(defs, rt).value.factories;
    FactoriesInOrder(defs, rt);
    FactoryTargets(defs, rt);
    if EntryFor(f, t).Some? {
      var k :| 0 <= k < |f| && f[k].target == t;
      assert Defs(f)[k] == f[k].def;
      FilterMember(defs, IsFactoryDef(rt), f[k].def);
      var i :| 0 <= i < |defs| && defs[i] == f[k].def;
    }
    if exists i :: 0 <= i < |defs| && IsFactoryDef(rt)(defs[i]) && DeclaredTarget(rt, defs[i]) == t {
      var i :| 0 <= i < |defs| && IsFactoryDef(rt)(defs[i]) && DeclaredTarget(rt, defs[i]) == t;
      assert defs[i] in Defs(f);
      var k :| 0 <= k < |f| && Defs(f)[k] == defs[i];
      assert f[k].target == t;
    }
  }

  /** The pass fails exactly when some factory definition declares a target that is not an
      existing interface, or two declare the same target. Only factory definitions appear on
      the right: abstract, unreflectable and candidate definitions can never make it fail. */
  lemma {:induction false} PassOk(defs: seq<Definition>, rt: Runtime)
    ensures Wiring(defs, rt).Ok? <==> FactoryTargetsValid(defs, rt)
    decreases |defs|
  {
    if defs != [] {
      var init := defs[..|defs| - 1];
      var d := defs[|defs| - 1];
      assert defs == init + [d];
      PassOk(init, rt);
      assert forall i :: 0 <= i < |init| ==> init[i] == defs[i];
      if Partition(init, rt).Ok? {
        RecordedTargets(init, rt, DeclaredTarget(rt, d));
      }
    }
  }

  /** The "unable to wire" condition is blind to candidates: adding a non-factory definition
      never changes whether the pass completes. */
  lemma CandidateNeverFails(defs: seq<Definition>, d: Definition, rt: Runtime)
    requires !IsFactoryDef(rt)(d)
    ensures Wiring(defs + [d], rt).Ok? <==> Wiring(defs, rt).Ok?
  {
    assert (defs + [d])[..|defs|] == defs;
  }
}
