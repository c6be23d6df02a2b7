/** The older lazy registry (`ServiceFactory`). It stores ids exactly like the newer one, but
    never checks for a container up front: the container is only touched when an id is
    resolved, so a factory with no ids under its target answers lookups without one. */
module LegacyServices {
  import opened Common
  import opened Lookup
  import opened Containers
  import L = LazyServices

  /** `getServices()`: with an invalid target it throws; with no id under the target it is []
      whatever the container; otherwise the first `get` on a missing container is a PHP error,
      and with a container it is one `get` per id, in registration order. */
  function GetServices(st: L.ServiceState, rt: Runtime): (r: Result<seq<Obj>>)
    ensures st.declared !in rt.interfaces ==> r == Err(InvalidTarget(st.name, st.declared))
    ensures st.declared in rt.interfaces && L.IdsAt(st.serviceIds, st.declared) == [] ==> r == Ok([])
    ensures (st.declared in rt.interfaces && L.IdsAt(st.serviceIds, st.declared) != [] && st.container.None?)
              ==> r == Err(NullContainer)
    ensures r.Ok? ==>
              var ids := L.IdsAt(st.serviceIds, st.declared);
              && st.declared in rt.interfaces
              && |r.value| == |ids|
              && (ids != [] ==> st.container.Some?)
              && forall i :: 0 <= i < |ids| ==> ids[i] in st.container.value.services
                                                 && r.value[i] == st.container.value.services[ids[i]]
    ensures (st.container.Some? && st.declared in rt.interfaces
             && forall i :: 0 <= i < |L.IdsAt(st.serviceIds, st.declared)| ==> L.IdsAt(st.serviceIds, st.declared)[i] in st.container.value.services)
              ==> r.Ok?
    ensures (r.Err? && st.container.Some? && st.declared in rt.interfaces) ==>
              var ids := L.IdsAt(st.serviceIds, st.declared);
              exists k :: 0 <= k < |ids| && ids[k] !in st.container.value.services && r.error == ServiceNotFound(ids[k])
                          && forall j :: 0 <= j < k ==> ids[j] in st.container.value.services
  {
    match L.GetTarget(st, rt)
    case Err(e) => Err(e)
    case Ok(t) =>
      var ids := L.IdsAt(st.serviceIds, t);
      if ids == [] then Ok([])
      else match st.container
        case None => Err(NullContainer)
        case Some(c) => Resolve(c, ids)
  }

  /** `search($criteria)`: null when no service satisfies the criteria, "ambiguous" when two
      do, the one service otherwise; the failures of `getServices` pass through. */
  function Search(st: L.ServiceState, rt: Runtime, p: Obj -> bool): (r: Result<Option<Obj>>)
    ensures GetServices(st, rt).Err? ==> r == Err(GetServices(st, rt).error)
    ensures GetServices(st, rt).Ok? ==>
              var services := GetServices(st, rt).value;
              && (r == Ok(None) <==> forall i :: 0 <= i < |services| ==> !p(services[i]))
              && (r == Err(Ambiguous(st.name)) <==> exists i, j :: 0 <= i < j < |services| && p(services[i]) && p(services[j]))
              && (r.Ok? || r == Err(Ambiguous(st.name)))
              && (r.Ok? && r.value.Some? ==>
                    exists i :: 0 <= i < |services| && services[i] == r.value.value && p(services[i])
                                && forall j :: 0 <= j < |services| && j != i ==> !p(services[j]))
  {
    match GetServices(st, rt)
    case Err(e) => Err(e)
    case Ok(services) =>
      match Select(services, p)
      case NoMatch => Ok(None)
      case ManyMatches => Err(Ambiguous(st.name))
      case OneMatch(o) => Ok(Some(o))
  }

  /** `getOneOrNullBy($criteria)`: exactly `search`. */
  function GetOneOrNullBy(st: L.ServiceState, rt: Runtime, p: Obj -> bool): (r: Result<Option<Obj>>)
    ensures GetServices(st, rt).Err? ==> r == Err(GetServices(st, rt).error)
    ensures GetServices(st, rt).Ok? ==>
              var services := GetServices(st, rt).value;
              && (r == Ok(None) <==> forall i :: 0 <= i < |services| ==> !p(services[i]))
              && (r == Err(Ambiguous(st.name)) <==> exists i, j :: 0 <= i < j < |services| && p(services[i]) && p(services[j]))
              && (r.Ok? || r == Err(Ambiguous(st.name)))
              && (r.Ok? && r.value.Some? ==>
                    exists i :: 0 <= i < |services| && services[i] == r.value.value && p(services[i])
                                && forall j :: 0 <= j < |services| && j != i ==> !p(services[j]))
  {
    Search(st, rt, p)
  }

  /** `getOneBy($criteria)`: `search`, with null turned into "unable to find". */
  function GetOneBy(st: L.ServiceState, rt: Runtime, p: Obj -> bool): (r: Result<Obj>)
    ensures r == Err(NotFound(st.name)) <==> Search(st, rt, p) == Ok(None)
    ensures Search(st, rt, p).Err? ==> r == Err(Search(st, rt, p).error)
    ensures r.Ok? <==> Search(st, rt, p).Ok? && Search(st, rt, p).value.Some?
    ensures r.Ok? ==> r.value == Search(st, rt, p).value.value
  {
    match Search(st, rt, p)
    case Err(e) => Err(e)
    case Ok(None) => Err(NotFound(st.name))
    case Ok(Some(o)) => Ok(o)
  }

  /** `getByFqn($fqn)`: `getOneBy` with the criteria "the concrete class is `fqn`". */
  function GetByFqn(st: L.ServiceState, rt: Runtime, fqn: ClassName): (r: Result<Obj>)
    ensures r.Ok? ==>
              var ids := L.IdsAt(st.serviceIds, st.declared);
              && st.container.Some?
              && r.value.cls == fqn
              && exists i :: 0 <= i < |ids| && ids[i] in st.container.value.services
                             && r.value == st.container.value.services[ids[i]]
    ensures (st.declared in rt.interfaces && L.IdsAt(st.serviceIds, st.declared) == [])
              ==> r == Err(NotFound(st.name))
    ensures GetServices(st, rt).Err? ==> r == Err(GetServices(st, rt).error)
    ensures GetServices(st, rt).Ok? ==>
              var services := GetServices(st, rt).value;
              && (r == Err(NotFound(st.name)) <==> forall i :: 0 <= i < |services| ==> services[i].cls != fqn)
              && (r == Err(Ambiguous(st.name)) <==>
                    exists i, j :: 0 <= i < j < |services| && services[i].cls == fqn && services[j].cls == fqn)
              && forall i :: 0 <= i < |services| && services[i].cls == fqn
                             && (forall j :: 0 <= j < |services| && j != i ==> services[j].cls != fqn)
                             ==> r == Ok(services[i])
  {
    var services := GetServices(st, rt);
    assert services.Ok? ==>
             forall i :: 0 <= i < |services.value| ==> (ClassIs(fqn)(services.value[i]) <==> services.value[i].cls == fqn);
    GetOneBy(st, rt, ClassIs(fqn))
  }

  /** With a container set, the older factory resolves exactly what the newer one does. */
  lemma AgreesWithNewerFactory(st: L.ServiceState, rt: Runtime, p: Obj -> bool)
    requires st.container.Some?
    ensures GetServices(st, rt) == L.GetServices(st, rt)
    ensures GetOneOrNullBy(st, rt, p) == L.GetOneOrNullBy(st, rt, p)
    ensures GetOneBy(st, rt, p) == L.GetOneBy(st, rt, p)
  {
  }

  /** Without a container the two differ exactly when ids are stored: with none, the older
      factory reports "unable to find" where the newer one demands `setContainer`. */
  lemma WithoutContainerAndIds(st: L.ServiceState, rt: Runtime, fqn: ClassName)
    requires st.container.None? && st.declared in rt.interfaces
    requires L.IdsAt(st.serviceIds, st.declared) == []
    ensures GetByFqn(st, rt, fqn) == Err(NotFound(st.name))
    ensures L.GetByFqn(st, rt, fqn) == Err(ContainerNotSet(st.name))
  {
  }

  /** Only the ids stored under the current target are seen: two states that agree on that
      list (and on everything else but the other lists) give the same services. */
  lemma OnlyCurrentTargetSeen(st: L.ServiceState, other: map<InterfaceName, seq<string>>, rt: Runtime)
    requires L.IdsAt(other, st.declared) == L.IdsAt(st.serviceIds, st.declared)
    ensures GetServices(st.(serviceIds := other), rt) == GetServices(st, rt)
  {
  }

  /** A registered id is seen by the next lookup once a container is set. */
  lemma RegisterThenServices(st: L.ServiceState, id: string, rt: Runtime)
    requires GetServices(st, rt).Ok? && st.container.Some?
    requires id in st.container.value.services
    ensures L.RegisterId(st, id, rt).Ok?
    ensures GetServices(L.RegisterId(st, id, rt).value, rt)
              == Ok(GetServices(st, rt).value + [st.container.value.services[id]])
  {
    AgreesWithNewerFactory(st, rt, o => true);
    L.RegisterThenServices(st, id, rt);
  }

  /** One instance. Its two fields are the source's `$container` and `$serviceIds`. */
  class ServiceFactory {
    const name: ClassName
    const declared: string
    var container: Option<Container>
    var serviceIds: map<InterfaceName, seq<string>>

    function State(): L.ServiceState
      reads this
    {
      L.ServiceState(name, declared, container, serviceIds)
    }

    /** A factory of class `name` whose `getTargetInterface()` returns `declared`: no container, no ids. */
    constructor (name: ClassName, declared: string)
      ensures State() == L.ServiceState(name, declared, None, map[])
    {
      this.name := name;
      this.declared := declared;
      container := None;
      serviceIds := map[];
    }

    /** `register($serviceId)`: the same storing rule as the newer factory. */
    method Register(id: string, rt: Runtime) returns (r: Outcome)
      modifies this
      ensures match L.RegisterId(old(State()), id, rt)
              case Ok(st) => r == Pass && State() == st
              case Err(e) => r == Fail(e) && State() == old(State())
    {
      var target := TargetOf(name, declared, rt);
      if target.Err? {
        return Fail(target.error);
      }
      serviceIds := serviceIds[target.value := L.IdsAt(serviceIds, target.value) + [id]];
      r := Pass;
    }

    /** `setContainer($container = null)`: replaces the container; null is accepted. */
    method SetContainer(c: Option<Container>)
      modifies this
      ensures State() == old(State()).(container := c)
    {
      container := c;
    }
  }
}
