/** The lazy registry (`AbstractServiceFactory`): it stores service ids under the factory's
    target and, on every lookup, first insists that a container is set, then resolves each
    stored id through it and applies the zero / one / ambiguous rule to the objects it gets. */
module LazyServices {
  import opened Common
  import opened Lookup
  import opened Containers

  /** The state of one service factory: its class, what its `getTargetInterface()` returns,
      the container (absent until `setContainer`) and the service ids stored per target. */
  datatype ServiceState = ServiceState(
    name: ClassName,
    declared: string,
    container: Option<Container>,
    serviceIds: map<InterfaceName, seq<string>>)

  /** `$this->serviceIds[$t] ?? []`: the ids stored under `t`, in registration order. */
  function IdsAt(ids: map<InterfaceName, seq<string>>, t: InterfaceName): seq<string>
  {
    if t in ids then ids[t] else []
  }

  /** `getTarget()`, recomputed from the runtime on every call. */
  function GetTarget(st: ServiceState, rt: Runtime): (r: Result<InterfaceName>)
    ensures r.Ok? <==> st.declared in rt.interfaces
    ensures r.Ok? ==> r.value == st.declared
    ensures r.Err? ==> r.error == InvalidTarget(st.name, st.declared)
  {
    TargetOf(st.name, st.declared, rt)
  }

  /** `register($serviceId)` on the state `st`: the id is appended to the list under the current
      target (a repeated id is stored again), every other list is left alone; with an invalid
      target the call throws and stores nothing. */
  function RegisterId(st: ServiceState, id: string, rt: Runtime): (r: Result<ServiceState>)
    ensures r.Ok? <==> st.declared in rt.interfaces
    ensures r.Err? ==> r.error == InvalidTarget(st.name, st.declared)
    ensures r.Ok? ==>
              && r.value.name == st.name && r.value.declared == st.declared
              && r.value.container == st.container
              && IdsAt(r.value.serviceIds, st.declared) == IdsAt(st.serviceIds, st.declared) + [id]
              && r.value.serviceIds.Keys == st.serviceIds.Keys + {st.declared}
              && forall t :: t in st.serviceIds && t != st.declared ==> r.value.serviceIds[t] == st.serviceIds[t]
  {
    match GetTarget(st, rt)
    case Err(e) => Err(e)
    case Ok(t) => Ok(st.(serviceIds := st.serviceIds[t := IdsAt(st.serviceIds, t) + [id]]))
  }

  /** `getContainer()`: the container, or the "use setContainer" exception naming the factory class. */
  function GetContainer(st: ServiceState): (r: Result<Container>)
    ensures r.Ok? <==> st.container.Some?
    ensures r.Ok? ==> r.value == st.container.value
    ensures r.Err? ==> r.error == ContainerNotSet(st.name)
  {
    match st.container
    case None => Err(ContainerNotSet(st.name))
    case Some(c) => Ok(c)
  }

  /** `getServices()`: without a container it throws before anything else; then with an
      invalid target; otherwise it is the container's object for each id stored under the
      target, one `get` per id in registration order, and [] when no id is stored. */
  function GetServices(st: ServiceState, rt: Runtime): (r: Result<seq<Obj>>)
    ensures st.container.None? ==> r == Err(ContainerNotSet(st.name))
    ensures st.container.Some? && st.declared !in rt.interfaces ==> r == Err(InvalidTarget(st.name, st.declared))
    ensures st.container.Some? && st.declared in rt.interfaces && IdsAt(st.serviceIds, st.declared) == [] ==> r == Ok([])
    ensures r.Ok? ==>
              var ids := IdsAt(st.serviceIds, st.declared);
              && st.container.Some? && st.declared in rt.interfaces
              && |r.value| == |ids|
              && forall i :: 0 <= i < |ids| ==> ids[i] in st.container.value.services
                                                 && r.value[i] == st.container.value.services[ids[i]]
    ensures (st.container.Some? && st.declared in rt.interfaces
             && forall i :: 0 <= i < |IdsAt(st.serviceIds, st.declared)| ==> IdsAt(st.serviceIds, st.declared)[i] in st.container.value.services)
              ==> r.Ok?
    ensures (r.Err? && st.container.Some? && st.declared in rt.interfaces) ==>
              var ids := IdsAt(st.serviceIds, st.declared);
              exists k :: 0 <= k < |ids| && ids[k] !in st.container.value.services && r.error == ServiceNotFound(ids[k])
                          && forall j :: 0 <= j < k ==> ids[j] in st.container.value.services
  {
    match GetContainer(st)
    case Err(e) => Err(e)
    case Ok(c) =>
      match GetTarget(st, rt)
      case Err(e) => Err(e)
      case Ok(t) => Resolve(c, IdsAt(st.serviceIds, t))
  }

  /** `getOneOrNullBy($criteria)`: the failures of `getServices`, then null when no service
      satisfies the criteria, "ambiguous" when two do, and the one service otherwise. */
  function GetOneOrNullBy(st: ServiceState, rt: Runtime, p: Obj -> bool): (r: Result<Option<Obj>>)
    ensures GetServices(st, rt).Err? ==> r == Err(GetServices(st, rt).error)
    ensures GetServices(st, rt).Ok? ==>
              var services := GetServices(st, rt).value;
              && (r == Ok(None) <==> forall i :: 0 <= i < |services| ==> !p(services[i]))
              && (r == Err(Ambiguous(st.name)) <==> exists i, j :: 0 <= i < j < |services| && p(services[i]) && p(services[j]))
              && (r.Ok? || r == Err(Ambiguous(st.name)))
              && (r.Ok? && r.value.Some? ==>
                    exists i :: 0 <= i < |services| && services[i] == r.value.value && p(services[i])
                                && forall j :: 0 <= j < |services| && j != i ==> !p(services[j]))
  {
    match GetServices(st, rt)
    case Err(e) => Err(e)
    case Ok(services) =>
      match Select(services, p)
      case NoMatch => Ok(None)
      case ManyMatches => Err(Ambiguous(st.name))
      case OneMatch(o) => Ok(Some(o))
  }

  /** `getOneBy($criteria)`: `getOneOrNullBy`, with null turned into "unable to find". */
  function GetOneBy(st: ServiceState, rt: Runtime, p: Obj -> bool): (r: Result<Obj>)
    ensures r == Err(NotFound(st.name)) <==> GetOneOrNullBy(st, rt, p) == Ok(None)
    ensures GetOneOrNullBy(st, rt, p).Err? ==> r == Err(GetOneOrNullBy(st, rt, p).error)
    ensures r.Ok? <==> GetOneOrNullBy(st, rt, p).Ok? && GetOneOrNullBy(st, rt, p).value.Some?
    ensures r.Ok? ==> r.value == GetOneOrNullBy(st, rt, p).value.value
  {
    match GetOneOrNullBy(st, rt, p)
    case Err(e) => Err(e)
    case Ok(None) => Err(NotFound(st.name))
    case Ok(Some(o)) => Ok(o)
  }

  /** `getByFqn($fqn)`: the very object the container gave for the one stored id whose
      object's concrete class is `fqn`. */
  function GetByFqn(st: ServiceState, rt: Runtime, fqn: ClassName): (r: Result<Obj>)
    ensures r.Ok? ==>
              var ids := IdsAt(st.serviceIds, st.declared);
              && st.container.Some?
              && r.value.cls == fqn
              && exists i :: 0 <= i < |ids| && ids[i] in st.container.value.services
                             && r.value == st.container.value.services[ids[i]]
    ensures GetServices(st, rt).Err? ==> r == Err(GetServices(st, rt).error)
    ensures GetServices(st, rt).Ok? ==>
              var services := GetServices(st, rt).value;
              && (r == Err(NotFound(st.name)) <==> forall i :: 0 <= i < |services| ==> services[i].cls != fqn)
              && (r == Err(Ambiguous(st.name)) <==>
                    exists i, j :: 0 <= i < j < |services| && services[i].cls == fqn && services[j].cls == fqn)
              && forall i :: 0 <= i < |services| && services[i].cls == fqn
                             && (forall j :: 0 <= j < |services| && j != i ==> services[j].cls != fqn)
                             ==> r == Ok(services[i])
  {
    var services := GetServices(st, rt);
    assert services.Ok? ==>
             forall i :: 0 <= i < |services.value| ==> (ClassIs(fqn)(services.value[i]) <==> services.value[i].cls == fqn);
    GetOneBy(st, rt, ClassIs(fqn))
  }

  /** Every lookup fails with the "use setContainer" exception while no container is set,
      even when no id is stored. */
  lemma NoContainerNoLookup(st: ServiceState, rt: Runtime, p: Obj -> bool, fqn: ClassName)
    requires st.container.None?
    ensures GetServices(st, rt) == Err(ContainerNotSet(st.name))
    ensures GetOneOrNullBy(st, rt, p) == Err(ContainerNotSet(st.name))
    ensures GetOneBy(st, rt, p) == Err(ContainerNotSet(st.name))
    ensures GetByFqn(st, rt, fqn) == Err(ContainerNotSet(st.name))
  {
  }

  /** A registered id is seen by the next lookup: its object comes last among the services. */
  lemma RegisterThenServices(st: ServiceState, id: string, rt: Runtime)
    requires GetServices(st, rt).Ok?
    requires id in st.container.value.services
    ensures RegisterId(st, id, rt).Ok?
    ensures GetServices(RegisterId(st, id, rt).value, rt)
              == Ok(GetServices(st, rt).value + [st.container.value.services[id]])
  {
    ResolveSnoc(st.container.value, IdsAt(st.serviceIds, st.declared), id);
  }

  /** A registered service whose class no other stored service has is what `getByFqn` returns
      for that class. */
  lemma RegisterThenGetByFqn(st: ServiceState, id: string, rt: Runtime)
    requires GetServices(st, rt).Ok?
    requires id in st.container.value.services
    requires var services := GetServices(st, rt).value;
             forall i :: 0 <= i < |services| ==> services[i].cls != st.container.value.services[id].cls
    ensures RegisterId(st, id, rt).Ok?
    ensures var o := st.container.value.services[id];
            GetByFqn(RegisterId(st, id, rt).value, rt, o.cls) == Ok(o)
  {
    var o := st.container.value.services[id];
    RegisterThenServices(st, id, rt);
    var services := GetServices(st, rt).value;
    FilterSnoc(services, o, ClassIs(o.cls));
    FilterNone(services, ClassIs(o.cls));
  }

  /** One instance. Its two fields are the source's `$container` and `$serviceIds`. */
  class AbstractServiceFactory {
    const name: ClassName
    const declared: string
    var container: Option<Container>
    var serviceIds: map<InterfaceName, seq<string>>

    function State(): ServiceState
      reads this
    {
      ServiceState(name, declared, container, serviceIds)
    }

    /** A factory of class `name` whose `getTargetInterface()` returns `declared`: no container, no ids. */
    constructor (name: ClassName, declared: string)
      ensures State() == ServiceState(name, declared, None, map[])
    {
      this.name := name;
      this.declared := declared;
      container := None;
      serviceIds := map[];
    }

    /** `register($serviceId)`. */
    method Register(id: string, rt: Runtime) returns (r: Outcome)
      modifies this
      ensures match RegisterId(old(State()), id, rt)
              case Ok(st) => r == Pass && State() == st
              case Err(e) => r == Fail(e) && State() == old(State())
    {
      var target := TargetOf(name, declared, rt);
      if target.Err? {
        return Fail(target.error);
      }
      serviceIds := serviceIds[target.value := IdsAt(serviceIds, target.value) + [id]];
      r := Pass;
    }

    /** `setContainer($container)`: replaces the container; null is accepted and unsets it. */
    method SetContainer(c: Option<Container>)
      modifies this
      ensures State() == old(State()).(container := c)
    {
      container := c;
    }
  }

  /** The run of `testGetByFqn` in tests/ServiceFactoryTest.php: a factory targeting an existing
      interface, one registered id, a container giving `expected` for it; `getByFqn` of the
      class of `expected` returns `expected` itself. */
  lemma GetByFqnScenario(rt: Runtime, expected: Obj)
    requires "Traversable" in rt.interfaces && expected.cls == "stdClass"
    ensures var st0 := ServiceState("Anonymous", "Traversable", None, map[]);
            var st1 := RegisterId(st0, "some_service_id", rt);
            && st1.Ok?
            && GetByFqn(st1.value.(container := Some(Container(map["some_service_id" := expected]))), rt, "stdClass")
               == Ok(expected)
  {
    var st0 := ServiceState("Anonymous", "Traversable", Some(Container(map["some_service_id" := expected])), map[]);
    assert GetServices(st0, rt) == Ok([]);
    RegisterThenGetByFqn(st0, "some_service_id", rt);
    var st1 := RegisterId(ServiceState("Anonymous", "Traversable", None, map[]), "some_service_id", rt).value;
    assert st1.(container := st0.container) == RegisterId(st0, "some_service_id", rt).value;
  }

  /** The run of `testGetByFqnWithMissingFqn` in tests/ServiceFactoryTest.php: the test expects
      "unable to find", but with no container set the factory throws "use setContainer" first. */
  lemma MissingFqnWithoutContainer(rt: Runtime)
    requires "Traversable" in rt.interfaces
    ensures GetByFqn(ServiceState("Anonymous", "Traversable", None, map[]), rt, "stdClass")
            == Err(ContainerNotSet("Anonymous"))
  {
  }
}
