# aeviiq/factory in Dafny

A Dafny model of the aeviiq/factory PHP library. The library provides registries
("factories") that hold the implementations of one target interface and hand them out by
criteria. It also provides a Symfony compiler pass that wires such registries at container
build time.

What the library does, and so what the model covers:

- **`AbstractFactory`** (module `Eager`) is the eager registry. `register($object, $shared)`
  stores the object itself. It rejects:
  - an object that is already registered;
  - a factory whose target is not an existing interface;
  - an object that does not implement the target.

  Lookups run the caller's criteria over the registered objects (`array_filter`). They
  yield nothing, "ambiguous" or the one match. A match that was registered unshared is
  handed out as a fresh clone. The class `Eager.AbstractFactory` keeps the source's two
  fields. Its methods are proved against the pure step `Eager.RegisterStep` and the
  selection rule `Lookup.Select`.
- **`AbstractServiceFactory`** (module `LazyServices`) is the lazy registry. It stores
  service ids per target. Every lookup first insists that a container is set. It then asks
  the container for one object per stored id and applies the same zero / one / ambiguous
  rule.
- **`ServiceFactory`** (module `LegacyServices`) is the older lazy registry. It stores ids
  the same way, but it touches the container only while resolving an id. So with no id
  stored it answers "unable to find" even without a container. With ids but no container,
  the first `get` on `null` is a PHP error (`NullContainer`).
- **`FactoryCompilerPass::process`** (module `CompilerPass`) does two things:
  - It drops abstract and unreflectable definitions. It collects the definitions whose
    class implements `Aeviiq\Factory\Factory` under their targets. Two factories with one
    target abort the pass.
  - It gives every remaining definition at most one `register` call, on the first factory
    (in target-map order) whose target its class implements. The method
    `CompilerPass.Process` keeps the source's two nested loops. It is proved equal to the
    fold `CompilerPass.Wiring`, and the routing properties are proved about that fold.
    `CompilerPass.PassOk` states exactly when the pass completes.

The runtime's type information (`interface_exists`, `class_implements`, reflection of a
definition's class, what a factory's `getTargetInterface()` returns) is one value,
`Common.Runtime`. Every operation that consults it takes it as a parameter. The container
is a partial map from service id to object (`Containers.Container`). PHP objects are
instances of the class `Common.Obj`, so that identity (`===`, `spl_object_hash`) and
`clone` are real reference identity and allocation.

Two behaviours of the code are easy to miss:

- **One factory per candidate.** A class implementing several factories' targets is
  registered only into the first of them in target-map order, because `continue 2` at
  `FactoryCompilerPass.php:44` leaves both loops (`CompilerPass.FirstOfTwoMatches`,
  `CompilerPass.AtMostOneFactory`).
- **No container, no lookup.** `tests/ServiceFactoryTest.php:38-44` expects
  `AbstractServiceFactory::getByFqn` with no container and no ids to throw "unable to
  find". `AbstractServiceFactory.php:64` calls `getContainer()` first, so the call throws
  "use setContainer" instead. `LazyServices.MissingFqnWithoutContainer` states what the
  code does. In the older `ServiceFactory`, `getServices` (`ServiceFactory.php:50-55`)
  maps over an empty id list without touching the container, so its `getByFqn` throws
  "unable to find" there (`LegacyServices.WithoutContainerAndIds`).

## Model

| member | source | states |
|---|---|---|
| Common.TargetOf | src/AbstractFactory.php:37-45 | `getTarget()` gives the declared name exactly when it is an existing interface; otherwise it gives the "must be an existing interface" error naming the factory and the given string |
| Common.Obj.Clone | src/AbstractFactory.php:103 | `clone` gives a freshly allocated object with the same class and the same property values |
| Lookup.Filter | src/AbstractFactory.php:92 | `array_filter` keeps only entries the criteria accept, keeps every accepted position, and never grows the input |
| Lookup.FilterMember | src/AbstractFactory.php:92 | an object is in the filtered registry exactly when it was registered and satisfies the criteria |
| Lookup.FilterAtLeastTwo | src/AbstractFactory.php:97 | `count($filtered) > 1` holds exactly when two different positions satisfy the criteria |
| Lookup.FilterExactlyOne | src/AbstractFactory.php:101 | when exactly one entry survives the filter, `reset` gives the one position that satisfies the criteria, and no other position does |
| Lookup.Select | src/AbstractFactory.php:92-101 | shared lookup rule: nothing exactly when no entry satisfies the criteria, "ambiguous" exactly when two do, otherwise the unique satisfying entry |
| Lookup.SelectIdentity | src/AbstractFactory.php:92-101 | in a list without repetitions, the criteria "is this object" select exactly that object |
| Containers.Get | src/AbstractServiceFactory.php:68 | `$container->get($id)` gives the container's object exactly when it knows `id`, and otherwise its "not found" error for `id` |
| Containers.Resolve | src/AbstractServiceFactory.php:66-69 | mapping `get` over the ids succeeds exactly when the container knows every id, giving the container's object for each id position by position; otherwise it fails with the error for the first unknown id |
| Containers.ResolveSnoc | src/AbstractServiceFactory.php:66-69 | resolving one more id appends the container's object for it |
| Common.Implements | src/AbstractFactory.php:26 | `class_implements` of a class: the interfaces the runtime records for it, and none for a class it does not know |
| Common.ClassIs | src/AbstractFactory.php:49-51 | the closure every `getByFqn` passes down (also AbstractServiceFactory.php:43-45 and ServiceFactory.php:37-39): the object's concrete class is exactly `fqn` |
| Eager.Consistent | src/AbstractFactory.php:20-35 | the invariant `register` keeps (see `RegisterKeepsConsistent`): no object registered twice, no unshared mark twice, every unshared object a registered one |
| Eager.GetTarget | src/AbstractFactory.php:37-45 | the target is the declared name exactly when it is an existing interface; otherwise the error names the factory class and the given string |
| Eager.RegisterStep | src/AbstractFactory.php:20-35 | an already registered object fails with "already registered"; an invalid target fails with its error; a non-implementing object fails with "must implement"; it succeeds exactly when none of these hold, and then appends the object, and records it as unshared exactly when `shared` is false |
| Eager.RegisterKeepsConsistent | src/AbstractFactory.php:20-35 | registering keeps both lists free of repetitions, and keeps every unshared object a registered one |
| Eager.RegisterThenFind | src/AbstractFactory.php:20-35 | after registering `o`, criteria that accept `o` and nothing registered before select `o`, and `o` is marked unshared exactly when it was registered unshared |
| Eager.RegisterKeepsOtherLookups | src/AbstractFactory.php:34 | registering an object the criteria reject leaves what those criteria select unchanged |
| Eager.EachEntryRetrievable | src/AbstractFactory.php:90-107 | every registered object is selected on its own by the criteria "is this object" |
| Eager.AbstractFactory.constructor | src/AbstractFactory.php:10-18 | a new factory has both registries empty |
| Eager.AbstractFactory.Register | src/AbstractFactory.php:20-35 | the new fields are exactly those of `RegisterStep` and the call passes; on an exception it fails with that error and nothing changes; the consistency invariant is kept |
| Eager.AbstractFactory.Search | src/AbstractFactory.php:90-107 | no match gives null; several give "ambiguous"; one match gives the stored object if it was shared, and otherwise a fresh clone with the same content; an object registered unshared is never handed out itself |
| Eager.AbstractFactory.GetOneOrNullBy | src/AbstractFactory.php:59-62 | the same outcomes as `search` |
| Eager.AbstractFactory.GetOneBy | src/AbstractFactory.php:67-75 | like `search`, with no match turned into "unable to find" naming the factory; an object registered unshared is never handed out itself |
| Eager.AbstractFactory.GetByFqn | src/AbstractFactory.php:47-52 | the one registered object whose concrete class is `fqn` (its clone if it was unshared), "unable to find" when there is none, "ambiguous" when there are several |
| Eager.LookUpTwice | src/AbstractFactory.php:101-106 | two lookups of an unshared object give two different objects with the same content; two lookups of a shared one give the same object |
| LazyServices.GetTarget | src/AbstractServiceFactory.php:31-39 | the target is the declared name exactly when it is an existing interface; otherwise it is the error naming the factory and the given string |
| LazyServices.IdsAt | src/AbstractServiceFactory.php:69 | `$this->serviceIds[$t] ?? []`: the ids stored under `t`, and none when nothing was stored |
| LazyServices.RegisterId | src/AbstractServiceFactory.php:26-29 | the id is appended to the list under the target (so a repeated id is stored again); only that key is added or changed; container and names are untouched; an invalid target fails and stores nothing |
| LazyServices.GetContainer | src/AbstractServiceFactory.php:111-118 | the container exactly when one is set; otherwise "use setContainer" naming the factory |
| LazyServices.GetServices | src/AbstractServiceFactory.php:62-70 | no container fails first, then an invalid target fails; with a container and a valid target it succeeds exactly when the container knows every stored id, giving the container's object for each id position by position ([] for no ids), and otherwise fails with the container's error for the first unknown id |
| LazyServices.GetOneOrNullBy | src/AbstractServiceFactory.php:92-104 | errors of `getServices` pass through; null exactly when no service satisfies the criteria; "ambiguous" exactly when two do; otherwise, in particular when exactly one does, the result is that one service and it satisfies the criteria |
| LazyServices.GetOneBy | src/AbstractServiceFactory.php:77-85 | "unable to find" exactly when `getOneOrNullBy` gives null; its errors pass through; otherwise its object |
| LazyServices.GetByFqn | src/AbstractServiceFactory.php:41-46 | errors of `getServices` pass through; over its services, "unable to find" exactly when none has concrete class `fqn`, "ambiguous" exactly when two do, and the one that does when exactly one does; a success is the very object the container gave for a stored id |
| LazyServices.NoContainerNoLookup | src/AbstractServiceFactory.php:64 | with no container, every lookup fails with "use setContainer", even when no ids are stored |
| LazyServices.RegisterThenServices | src/AbstractServiceFactory.php:26-29 | after registering an id the container knows, the services are the previous ones followed by that id's object |
| LazyServices.RegisterThenGetByFqn | src/AbstractServiceFactory.php:41-46 | a registered service whose class no other stored service has is exactly what `getByFqn` returns for that class |
| LazyServices.AbstractServiceFactory.constructor | src/AbstractServiceFactory.php:15-24 | a new factory has no container and no ids |
| LazyServices.AbstractServiceFactory.Register | src/AbstractServiceFactory.php:26-29 | the new fields are exactly those of `RegisterId`; on an invalid target it fails and nothing changes |
| LazyServices.AbstractServiceFactory.SetContainer | src/AbstractServiceFactory.php:48-51 | replaces the container (null unsets it) and changes nothing else |
| LazyServices.GetByFqnScenario | tests/ServiceFactoryTest.php:26-36 | register one id, then set a container giving `expected` for it; `getByFqn(stdClass)` then returns `expected` itself |
| LazyServices.MissingFqnWithoutContainer | tests/ServiceFactoryTest.php:38-44 | the code's outcome for this test: "use setContainer", not the "unable to find" the test expects |
| LegacyServices.GetServices | src/ServiceFactory.php:50-55 | an invalid target fails first; no ids give an empty result whatever the container; ids without a container fail with the null-container error; with a container it succeeds exactly when the container knows every stored id, giving one container object per id position by position, and otherwise fails with the container's error for the first unknown id |
| LegacyServices.Search | src/ServiceFactory.php:88-100 | errors of `getServices` pass through; null exactly when no service satisfies the criteria; "ambiguous" exactly when two do; otherwise, in particular when exactly one does, the result is that one service and it satisfies the criteria |
| LegacyServices.GetOneOrNullBy | src/ServiceFactory.php:75-78 | exactly the outcomes of `search`: errors pass through, null for no match, "ambiguous" for two, and the one matching service otherwise |
| LegacyServices.GetOneBy | src/ServiceFactory.php:62-70 | "unable to find" exactly when `search` gives null; its errors pass through; otherwise its object |
| LegacyServices.GetByFqn | src/ServiceFactory.php:35-40 | errors of `getServices` pass through; over its services, "unable to find" exactly when none has concrete class `fqn`, "ambiguous" exactly when two do, and the one that does when exactly one does; a success is the very object the container gave for a stored id; with a valid target and no ids it is "unable to find", with or without a container |
| LegacyServices.AgreesWithNewerFactory | src/ServiceFactory.php:50-55 | with a container set, the older factory's services and lookups equal the newer factory's |
| LegacyServices.WithoutContainerAndIds | src/ServiceFactory.php:50-55 | with no container and no ids, the older factory says "unable to find" where the newer one says "use setContainer" |
| LegacyServices.OnlyCurrentTargetSeen | src/ServiceFactory.php:54 | only the ids stored under the current target affect the services |
| LegacyServices.RegisterThenServices | src/ServiceFactory.php:20-23 | after registering an id the container knows, the services are the previous ones followed by that id's object |
| LegacyServices.ServiceFactory.constructor | src/ServiceFactory.php:10-18 | a new factory has no container and no ids |
| LegacyServices.ServiceFactory.Register | src/ServiceFactory.php:20-23 | the new fields are exactly those of `RegisterId`; on an invalid target it fails and nothing changes |
| LegacyServices.ServiceFactory.SetContainer | src/ServiceFactory.php:42-45 | replaces the container (null accepted) and changes nothing else |
| CompilerPass.IsFactoryDef | src/FactoryCompilerPass.php:16-26 | the definitions the first loop records as factories: not abstract, reflectable, and implementing `Aeviiq\Factory\Factory`; used by `FactoriesInOrder` and `PassOk` |
| CompilerPass.IsCandidate | src/FactoryCompilerPass.php:16-26 | the definitions the first loop keeps for the second: not abstract, reflectable, not a factory; used by `CandidatesInOrder` and `WiringCalls` |
| CompilerPass.DeclaredTarget | src/FactoryCompilerPass.php:27 | what the factory class's `getTargetInterface()` returns, which `getTarget()` then checks; `FactoryTargets` ties each recorded target to it |
| CompilerPass.Classify | src/FactoryCompilerPass.php:16-33 | one iteration of the first loop throws exactly on a factory definition whose target does not exist ("must be an existing interface" naming the factory) or is already recorded ("targeted by" naming the target, the recorded factory and this one) |
| CompilerPass.Partition | src/FactoryCompilerPass.php:15-34 | the first loop as a fold of `Classify` over the definitions, stopping at the first exception; what it produces is stated by `PartitionShape` and when it succeeds by `PassOk` |
| CompilerPass.EntryFor | src/FactoryCompilerPass.php:28-29 | `isset($factories[$t])` is false exactly when no recorded factory has target `t`; when true, the entry is a recorded one with that target |
| CompilerPass.PartitionErrSticky | src/FactoryCompilerPass.php:15-34 | once the first loop has thrown, later definitions do not change the outcome |
| CompilerPass.ClassifyOk | src/FactoryCompilerPass.php:15-34 | one step appends the definition to the candidates exactly when it is a candidate, and to the factories exactly when it is a factory, whose target then exists and is not yet recorded |
| CompilerPass.CandidatesInOrder | src/FactoryCompilerPass.php:15-34 | after the first loop, the candidates are exactly the non-abstract, reflectable, non-factory definitions, in definition order |
| CompilerPass.FactoriesInOrder | src/FactoryCompilerPass.php:26-33 | the recorded factories are exactly the factory definitions, in definition order |
| CompilerPass.FactoryTargets | src/FactoryCompilerPass.php:27-31 | every recorded target is that factory's existing declared target, and no two recorded factories share a target |
| CompilerPass.PartitionShape | src/FactoryCompilerPass.php:15-34 | a successful first loop gives candidates, factories and targets exactly as the three lemmas above state |
| CompilerPass.DuplicateTargetFails | src/FactoryCompilerPass.php:28-30 | two factory definitions with the same target make the first loop throw |
| CompilerPass.ClassifyDuplicate | src/FactoryCompilerPass.php:28-30 | a step that throws the duplicate-target error was on a factory with that target, and an earlier recorded factory has the same target |
| CompilerPass.DuplicateErrorNamesBoth | src/FactoryCompilerPass.php:29 | a duplicate-target error names the target, then the earlier factory's class, then the later one's, and both are factory definitions in that order |
| CompilerPass.RouteFrom | src/FactoryCompilerPass.php:37-46 | the inner loop stops at the first factory, from position `j` on, whose target the class implements, and at none exactly when no later target is implemented |
| CompilerPass.Route | src/FactoryCompilerPass.php:37-46 | the inner loop over `$factories` for one definition: the position of the factory it is registered into, if any; characterised by `RouteIsFirstMatch` |
| CompilerPass.Calls | src/FactoryCompilerPass.php:43 | one `register` call with the arguments `[$d, $d->isShared()]` per definition, in order; characterised by `CallsMember` and `CallsMultiplicity` |
| CompilerPass.CallsFor | src/FactoryCompilerPass.php:36-47 | the `register` calls the second loop adds to the `k`-th factory: one per candidate routed to it, in candidate order; characterised by `CallsForSnoc` and `WiringCalls` |
| CompilerPass.Wiring | src/FactoryCompilerPass.php:11-48 | the whole of `process`: the first loop's exception, or each recorded factory with its target and its `register` calls; `Process` is proved equal to it |
| CompilerPass.RouteIsFirstMatch | src/FactoryCompilerPass.php:37-46 | a definition is routed to factory `k` exactly when `k`'s target is the first in map order that its class implements |
| CompilerPass.CallsForSnoc | src/FactoryCompilerPass.php:36-47 | one more candidate adds one call to its routed factory and none elsewhere |
| CompilerPass.CallsMember | src/FactoryCompilerPass.php:43 | a call `[d, s]` is among the calls made for a list of definitions exactly when `d` is in it and `s` is `d`'s shared flag |
| CompilerPass.CallsMultiplicity | src/FactoryCompilerPass.php:43 | there is one call per occurrence of the definition |
| CompilerPass.Process | src/FactoryCompilerPass.php:11-48 | the two loops, including the early throw and the `continue 2` exits, compute exactly `Wiring` |
| CompilerPass.WiringCalls | src/FactoryCompilerPass.php:36-47 | `[d, s]` is a call on factory `k` exactly when `d` is a candidate, `s` is its shared flag, and `k`'s target is the first its class implements |
| CompilerPass.AtMostOneFactory | src/FactoryCompilerPass.php:44 | a definition's call is on at most one factory |
| CompilerPass.FirstOfTwoMatches | src/FactoryCompilerPass.php:42-45 | a class implementing two factories' targets is registered into the earlier factory and not into the later one |
| CompilerPass.UnmatchedGetsNoCall | src/FactoryCompilerPass.php:37-46 | when every factory target is valid, the pass completes, and a definition whose class implements no factory's target gets no call |
| CompilerPass.OnlyCandidatesRegistered | src/FactoryCompilerPass.php:15-34 | abstract, unreflectable and factory definitions never receive a `register` call |
| CompilerPass.RegisteredOnce | src/FactoryCompilerPass.php:36-47 | with distinct definitions, a candidate matching some target gets exactly one call, on the first matching factory, and none on any other |
| CompilerPass.CountOnFirstMatch | src/FactoryCompilerPass.php:42-45 | with distinct definitions, the first matching factory holds the call exactly once |
| CompilerPass.AtMostOneFactoryCount | src/FactoryCompilerPass.php:44 | a factory other than the one holding the call holds none |
| CompilerPass.DuplicateTargetAbortsPass | src/FactoryCompilerPass.php:28-30 | two factories with one target make the whole pass fail, with no wiring |
| CompilerPass.RecordedTargets | src/FactoryCompilerPass.php:28 | after a completed first loop, `isset($factories[$t])` holds exactly when some factory definition declares `t` |
| CompilerPass.PassOk | src/FactoryCompilerPass.php:11-48 | the pass completes exactly when every factory definition declares an existing interface and no two declare the same one; abstract, unreflectable and candidate definitions never make it throw |
| CompilerPass.CandidateNeverFails | src/FactoryCompilerPass.php:15-34 | adding a definition that is not a factory never changes whether the pass completes |

## Left out

- Exception classes and message texts. Errors are kinds (`Common.Error`) carrying the names that go into their messages. `LogicException` versus `InvalidArgumentException` is noted per kind, but not as a class hierarchy.
- The `Factory` and `FactoryInterface` interfaces. Their method signatures are not modelled beyond the operations they declare.
- `LegacyServices.ServiceFactory`: `ServiceFactory.php:20` declares `register(string $serviceId)`, while `Factory.php:7` declares `register(object $service, bool $shared)`. Dropping a parameter and changing its type is an incompatible declaration, so PHP refuses to load `ServiceFactory` alongside this `Factory`: the two files evidently come from different revisions of the library. The model treats `ServiceFactory` on its own terms and does not model that load-time error.
- The Symfony `ContainerBuilder` and reflection plumbing: `getDefinitions`, `getReflectionClass`, `newInstanceWithoutConstructor` and class-name resolution of parameters. They are replaced by a list of definitions and the `Runtime` value. Class and interface names are compared as exact strings (`Common.TargetOf`, `Common.Implements`, `CompilerPass.RouteFrom`). PHP's `interface_exists` (AbstractFactory.php:40) and `implementsInterface` (FactoryCompilerPass.php:42) ignore case, while the strict `in_array` at AbstractFactory.php:26 does not. So in PHP a target declared in the wrong case passes `getTarget()` and then every `register` throws "must implement"; the model cannot show this.
- `addMethodCall` is modelled only as the list of calls each factory definition receives. The container's later instantiation of the factories, which replays those calls, is not modelled.
- The container's `get` is a fixed partial map. Services the container creates on demand and the way it instantiates them are not modelled. An unknown id gives the container's own "not found" error.
- `CompilerPass.Classify` assumes that every class implementing `Factory` has the library's own `getTarget()`, which throws unless the target is an existing interface. FactoryCompilerPass.php:27 calls whatever `getTarget()` the class defines. A `Factory` implementation that extends neither `AbstractFactory` nor `ServiceFactory` is foreign code, and its `getTarget()` is not modelled. Nor is the `Error` that `newInstanceWithoutConstructor()` at FactoryCompilerPass.php:27 throws for a definition that is not marked abstract but whose class is a PHP abstract class, or an interface extending `Factory`: the model records such a definition as a factory.
- `getTargetInterface()` is a value fixed per factory instance (and per class in `Runtime`). A subclass that returns different targets on different calls is not modelled.
- `Common.Obj`: objects are immutable (class and property values are constants). Criteria cannot observe later mutation of a registered object. A `__clone` hook that changes the copy is not modelled.
- Criteria are total, side-effect-free functions. A criteria callable that throws or changes state is not modelled.
- PHP `array_filter` keeps the original array keys. The model keeps only the order, which is all that `reset` / `array_shift` of a one-entry result observe.
- Concurrency is not modelled; PHP requests are single-threaded.
