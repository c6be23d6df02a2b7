/** The dependency-injection container the service factories resolve their ids through.
    It is a collaborator outside this library; here it is a fixed partial map from
    service id to the object `get` returns for that id. */
module Containers {
  import opened Common

  datatype Container = Container(services: map<string, Obj>)

  /** `ContainerInterface::get`: the object for `id`, or the container's own "not found" error. */
  function Get(c: Container, id: string): (r: Result<Obj>)
    ensures r.Ok? <==> id in c.services
    ensures r.Ok? ==> r.value == c.services[id]
    ensures r.Err? ==> r.error == ServiceNotFound(id)
  {
    if id in c.services then Ok(c.services[id]) else Err(ServiceNotFound(id))
  }

  /** `array_map` of `get` over `ids`: one `get` per id, in order. It succeeds with one object per
      id exactly when the container knows every id, and otherwise fails with the error of the
      first unknown id, the ids before it having been resolved. */
  function Resolve(c: Container, ids: seq<string>): (r: Result<seq<Obj>>)
    ensures r.Ok? <==> forall i :: 0 <= i < |ids| ==> ids[i] in c.services
    ensures r.Ok? ==> |r.value| == |ids| && forall i :: 0 <= i < |ids| ==> r.value[i] == c.services[ids[i]]
    ensures r.Err? ==> exists k :: 0 <= k < |ids| && ids[k] !in c.services && r.error == ServiceNotFound(ids[k])
                                   && forall j :: 0 <= j < k ==> ids[j] in c.services
  {
    if ids == [] then Ok([])
    else match Get(c, ids[0])
      case Err(e) => Err(e)
      case Ok(o) =>
        match Resolve(c, ids[1..])
        case Err(e) => Err(e)
        case Ok(rest) => Ok([o] + rest)
  }

  /** Resolving one more id appends the object the container gives for it. */
  lemma ResolveSnoc(c: Container, ids: seq<string>, id: string)
    requires Resolve(c, ids).Ok? && id in c.services
    ensures Resolve(c, ids + [id]) == Ok(Resolve(c, ids).value + [c.services[id]])
  {
    var ids' := ids + [id];
    assert forall i :: 0 <= i < |ids'| ==> ids'[i] in c.services by {
      forall i | 0 <= i < |ids'| ensures ids'[i] in c.services {
        if i < |ids| { assert ids'[i] == ids[i]; }
      }
    }
    var r := Resolve(c, ids').value;
    var expected := Resolve(c, ids).value + [c.services[id]];
    assert |r| == |expected|;
    forall i | 0 <= i < |r| ensures r[i] == expected[i] {
      if i < |ids| { assert ids'[i] == ids[i]; }
    }
    assert r == expected;
  }
}
