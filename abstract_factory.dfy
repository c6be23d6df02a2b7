/** The eager registry (`AbstractFactory`): it holds the registered objects themselves,
    rejects a second registration of the same object and objects that do not implement
    the factory's target, and answers lookups by criteria, handing out a clone of an
    object that was registered unshared. */
module Eager {
  import opened Common
  import opened Lookup

  /** The state of one factory: its class (`get_class($this)`), what its `getTargetInterface()`
      returns, the registered objects in registration order and the objects registered unshared
      (the source keeps their `spl_object_hash`, which singles out the same objects). */
  datatype Registry = Registry(name: ClassName, declared: string, entries: seq<Obj>, unshared: seq<Obj>)

  /** No object is registered twice, and every unshared object is a registered one. */
  ghost predicate Consistent(st: Registry)
  {
    && Distinct(st.entries)
    && Distinct(st.unshared)
    && forall o :: o in st.unshared ==> o in st.entries
  }

  /** `getTarget()`: the declared target when it is an existing interface, else the
      "must be an existing interface" exception naming the factory and the given string. */
  function GetTarget(st: Registry, rt: Runtime): (r: Result<InterfaceName>)
    ensures r.Ok? <==> st.declared in rt.interfaces
    ensures r.Ok? ==> r.value == st.declared
    ensures r.Err? ==> r.error == InvalidTarget(st.name, st.declared)
  {
    TargetOf(st.name, st.declared, rt)
  }

  /** `register($registrable, $shared)` on the state `st`: the registry after the call, or the
      exception it throws. The duplicate check comes first, then the target, then `class_implements`. */
  function RegisterStep(st: Registry, o: Obj, shared: bool, rt: Runtime): (r: Result<Registry>)
    ensures o in st.entries ==> r == Err(AlreadyRegistered(o.cls))
    ensures o !in st.entries && st.declared !in rt.interfaces ==> r == Err(InvalidTarget(st.name, st.declared))
    ensures (o !in st.entries && st.declared in rt.interfaces && st.declared !in Implements(rt, o.cls))
              ==> r == Err(MustImplement(o.cls, st.declared))
    ensures r.Ok? <==> o !in st.entries && st.declared in rt.interfaces && st.declared in Implements(rt, o.cls)
    ensures r.Ok? ==> r.value == st.(entries := st.entries + [o],
                                     unshared := st.unshared + (if shared then [] else [o]))
  {
    if o in st.entries then Err(AlreadyRegistered(o.cls))
    else match GetTarget(st, rt)
      case Err(e) => Err(e)
      case Ok(t) =>
        if t !in Implements(rt, o.cls) then Err(MustImplement(o.cls, t))
        else Ok(st.(entries := st.entries + [o], unshared := st.unshared + (if shared then [] else [o])))
  }

  /** A successful registration keeps the registry free of duplicates. */
  lemma RegisterKeepsConsistent(st: Registry, o: Obj, shared: bool, rt: Runtime)
    requires Consistent(st)
    requires RegisterStep(st, o, shared, rt).Ok?
    ensures Consistent(RegisterStep(st, o, shared, rt).value)
  {
    var st' := RegisterStep(st, o, shared, rt).value;
    assert o !in st.unshared;
    forall i, j | 0 <= i < j < |st'.entries|
      ensures st'.entries[i] != st'.entries[j]
    {
      if j == |st.entries| {
        assert st.entries[i] in st.entries;
      }
    }
    forall i, j | 0 <= i < j < |st'.unshared|
      ensures st'.unshared[i] != st'.unshared[j]
    {
      if j == |st.unshared| {
        assert st.unshared[i] in st.unshared;
      }
    }
  }

  /** Once `o` is registered, criteria that accept `o` and nothing registered before find `o`,
      and it is handed out as a copy exactly when it was registered unshared. */
  lemma RegisterThenFind(st: Registry, o: Obj, shared: bool, rt: Runtime, p: Obj -> bool)
    requires Consistent(st)
    requires RegisterStep(st, o, shared, rt).Ok?
    requires p(o) && forall i :: 0 <= i < |st.entries| ==> !p(st.entries[i])
    ensures var st' := RegisterStep(st, o, shared, rt).value;
            Select(st'.entries, p) == OneMatch(o) && (o in st'.unshared <==> !shared)
  {
    var st' := RegisterStep(st, o, shared, rt).value;
    FilterSnoc(st.entries, o, p);
    FilterNone(st.entries, p);
    assert o !in st.unshared;
  }

  /** Registering an object the criteria reject does not change what those criteria find. */
  lemma RegisterKeepsOtherLookups(st: Registry, o: Obj, shared: bool, rt: Runtime, p: Obj -> bool)
    requires RegisterStep(st, o, shared, rt).Ok?
    requires !p(o)
    ensures Select(RegisterStep(st, o, shared, rt).value.entries, p) == Select(st.entries, p)
  {
    FilterSnoc(st.entries, o, p);
  }

  /** Every registered object stays retrievable on its own: the criteria "is this object"
      select exactly it, however many objects were registered. */
  lemma EachEntryRetrievable(st: Registry, e: Obj)
    requires Consistent(st) && e in st.entries
    ensures Select(st.entries, y => y == e) == OneMatch(e)
  {
    SelectIdentity(st.entries, e);
  }

  /** Same class and same property values: what `clone` preserves. */
  predicate SameContent(x: Obj, y: Obj)
  {
    x.cls == y.cls && x.props == y.props
  }

  /** One factory instance. Its two fields are the source's `$registry` and `$unsharedRegistry`. */
  class AbstractFactory {
    const name: ClassName
    const declared: string
    var registry: seq<Obj>
    var unsharedRegistry: seq<Obj>

    function State(): Registry
      reads this
    {
      Registry(name, declared, registry, unsharedRegistry)
    }

    ghost predicate Valid()
      reads this
    {
      Consistent(State())
    }

    /** A factory of class `name` whose `getTargetInterface()` returns `declared`, with nothing registered. */
    constructor (name: ClassName, declared: string)
      ensures Valid()
      ensures State() == Registry(name, declared, [], [])
    {
      this.name := name;
      this.declared := declared;
      registry := [];
      unsharedRegistry := [];
    }

    /** `register`: appends `o` (and, when not shared, records it as unshared), or throws
        and leaves both lists as they were. */
    method Register(o: Obj, shared: bool, rt: Runtime) returns (r: Outcome)
      requires Valid()
      modifies this
      ensures Valid()
      ensures match RegisterStep(old(State()), o, shared, rt)
              case Ok(st) => r == Pass && State() == st
              case Err(e) => r == Fail(e) && State() == old(State())
    {
      if o in registry {
        return Fail(AlreadyRegistered(o.cls));
      }
      var target := TargetOf(name, declared, rt);
      if target.Err? {
        return Fail(target.error);
      }
      if target.value !in Implements(rt, o.cls) {
        return Fail(MustImplement(o.cls, target.value));
      }
      RegisterKeepsConsistent(State(), o, shared, rt);
      if !shared {
        unsharedRegistry := unsharedRegistry + [o];
      }
      registry := registry + [o];
      r := Pass;
    }

    /** `search`: nothing for no match, "ambiguous" for several; for one match the stored
        object itself if it was registered shared, else a fresh clone of it. An object
        registered unshared is never handed out. */
    method Search(p: Obj -> bool) returns (r: Result<Option<Obj>>)
      ensures match Select(registry, p)
              case NoMatch => r == Ok(None)
              case ManyMatches => r == Err(Ambiguous(name))
              case OneMatch(e) =>
                && r.Ok? && r.value.Some?
                && if e in unsharedRegistry then fresh(r.value.value) && SameContent(r.value.value, e)
                   else r.value.value == e
      ensures r.Ok? && r.value.Some? ==> r.value.value !in unsharedRegistry
    {
      var filtered := Filter(registry, p);
      if |filtered| == 0 {
        return Ok(None);
      }
      if |filtered| > 1 {
        return Err(Ambiguous(name));
      }
      var registrable := filtered[0];
      if registrable in unsharedRegistry {
        var copy := registrable.Clone();
        return Ok(Some(copy));
      }
      r := Ok(Some(registrable));
    }

    /** `getOneOrNullBy`: exactly `search`. */
    method GetOneOrNullBy(p: Obj -> bool) returns (r: Result<Option<Obj>>)
      ensures match Select(registry, p)
              case NoMatch => r == Ok(None)
              case ManyMatches => r == Err(Ambiguous(name))
              case OneMatch(e) =>
                && r.Ok? && r.value.Some?
                && if e in unsharedRegistry then fresh(r.value.value) && SameContent(r.value.value, e)
                   else r.value.value == e
    {
      r := Search(p);
    }

    /** `getOneBy`: `search`, with no match turned into "unable to find". */
    method GetOneBy(p: Obj -> bool) returns (r: Result<Obj>)
      ensures match Select(registry, p)
              case NoMatch => r == Err(NotFound(name))
              case ManyMatches => r == Err(Ambiguous(name))
              case OneMatch(e) =>
                && r.Ok?
                && if e in unsharedRegistry then fresh(r.value) && SameContent(r.value, e)
                   else r.value == e
      ensures r.Ok? ==> r.value !in unsharedRegistry
    {
      var found := Search(p);
      match found
      case Err(e) => return Err(e);
      case Ok(None) => return Err(NotFound(name));
      case Ok(Some(o)) => return Ok(o);
    }

    /** `getByFqn`: `getOneBy` with the criteria "the concrete class is `fqn`". */
    method GetByFqn(fqn: ClassName) returns (r: Result<Obj>)
      ensures match Select(registry, ClassIs(fqn))
              case NoMatch => r == Err(NotFound(name))
              case ManyMatches => r == Err(Ambiguous(name))
              case OneMatch(e) =>
                && r.Ok? && r.value.cls == fqn
                && if e in unsharedRegistry then fresh(r.value) && SameContent(r.value, e)
                   else r.value == e
    {
      r := GetOneBy(ClassIs(fqn));
    }
  }

  /** Two lookups of an object registered unshared give two different objects with
      the same content; two lookups of a shared one give the same object twice. */
  method LookUpTwice(f: AbstractFactory, p: Obj -> bool) returns (a: Result<Obj>, b: Result<Obj>)
    requires Select(f.registry, p).OneMatch?
    ensures a.Ok? && b.Ok?
    ensures (Select(f.registry, p).item in f.unsharedRegistry)
              ==> a.value != b.value && SameContent(a.value, b.value)
    ensures Select(f.registry, p).item !in f.unsharedRegistry ==> a.value == b.value
  {
    a := f.GetOneBy(p);
    b := f.GetOneBy(p);
  }
}
