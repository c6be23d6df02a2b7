/** Shared vocabulary of the factory library: error kinds, the runtime's view of
    classes and interfaces, and the objects the registries hold. */
module Common {

  type ClassName = string
  type InterfaceName = string

  /** The marker interface every eager factory implements (`Aeviiq\Factory\Factory`). */
  const FactoryMarker: InterfaceName := "Aeviiq\\Factory\\Factory"

  /** The exceptions the library raises, by kind, carrying the names that go into their messages. */
  datatype Error =
    | AlreadyRegistered(subject: ClassName)                      // LogicException
    | MustImplement(subject: ClassName, target: InterfaceName)   // InvalidArgumentException
    | InvalidTarget(factory: ClassName, given: string)           // LogicException
    | NotFound(factory: ClassName)                               // LogicException
    | Ambiguous(factory: ClassName)                              // LogicException
    | ContainerNotSet(factory: ClassName)                        // LogicException
    | DuplicateTarget(target: InterfaceName, usedFactory: ClassName, factory: ClassName) // LogicException
    | ServiceNotFound(id: string)    // raised by the container itself, passed through unchanged
    | NullContainer                  // PHP Error: `get()` called on a null container

  datatype Option<+T> = None | Some(value: T)

  /** A value, or the exception that was thrown instead. */
  datatype Result<+T> = Ok(value: T) | Err(error: Error)

  /** Outcome of an operation that returns nothing: it completed, or it threw. */
  datatype Outcome = Pass | Fail(error: Error)

  /** What reflection knows of one class: the interfaces it implements (with their parents)
      and, for factory classes, what its `getTargetInterface()` returns. */
  datatype ClassInfo = ClassInfo(interfaces: set<InterfaceName>, declaredTarget: string)

  /** The runtime's type information: the existing interfaces and the loadable classes. */
  datatype Runtime = Runtime(interfaces: set<InterfaceName>, classes: map<ClassName, ClassInfo>)

  /** `class_implements`: the interfaces of a class; a class the runtime does not know implements none. */
  function Implements(rt: Runtime, cls: ClassName): set<InterfaceName>
  {
    if cls in rt.classes then rt.classes[cls].interfaces else {}
  }

  /** `getTarget()` of any factory named `factory` whose `getTargetInterface()` returns `declared`:
      the declared name when `interface_exists` holds for it, the "must be an existing interface"
      exception otherwise. It depends on the runtime at the time of the call only. */
  function TargetOf(factory: ClassName, declared: string, rt: Runtime): (r: Result<InterfaceName>)
    ensures r.Ok? <==> declared in rt.interfaces
    ensures r.Ok? ==> r.value == declared
    ensures r.Err? ==> r.error == InvalidTarget(factory, declared)
  {
    if declared in rt.interfaces then Ok(declared) else Err(InvalidTarget(factory, declared))
  }

  /** A PHP object: its identity is the reference, `cls` is `get_class`, `props` its property values. */
  class Obj {
    const cls: ClassName
    const props: seq<int>

    constructor (cls: ClassName, props: seq<int>)
      ensures this.cls == cls && this.props == props
    {
      this.cls := cls;
      this.props := props;
    }

    /** `clone`: a new identity with the same class and the same property values. */
    method Clone() returns (c: Obj)
      ensures fresh(c)
      ensures c.cls == cls && c.props == props
    {
      c := new Obj(cls, props);
    }
  }

  /** The criteria `getByFqn` passes down: the object's concrete class is exactly `fqn`. */
  function ClassIs(fqn: ClassName): Obj -> bool
  {
    (o: Obj) => o.cls == fqn
  }
}
