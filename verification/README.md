# fluentservicecollection, modelled in Dafny

`fluentservicecollection` registers the implementations of an interface with a
.NET dependency-injection container in two stages:

1. **Discovery** (`ServiceCollectionExtensions.AddImplementationsOfType`) scans
   every loaded assembly. It collects each concrete class assignable to a target
   type into the candidate list `Types` of a fresh `SelectedTypesContext`.
2. **Selection** (`SelectedTypesContext`) is a fluent builder over that list:
   - the setters `WithServiceFirstInterface`, `WithServiceLastInterface`,
     `WithServiceDefaultInterface`, `WithService` and `AsSelf` replace the
     service-type policy;
   - `Except` removes a candidate;
   - the terminal methods `Scoped` and `AsSingleton` add one
     `(service type, implementation, lifetime)` registration for every
     candidate the policy maps to a non-null service type that the candidate
     is assignable to.

The model is functional:

- **Types.** A type is an opaque handle (`Reflection.Type`). Everything .NET
  reflection reports about a type is an explicit `Reflection.Host` input: its
  simple name, `IsClass`, `IsAbstract`, `IsGenericType`, the ordered
  `GetInterfaces()` list, `IsAssignableFrom` and `IsAssignableToGenericType`.
- **Assemblies.** The loaded assemblies are a `seq<seq<Type>>`: assemblies in
  load order, each listing its types in `GetTypes()` order.
- **Policy.** The policy closure becomes the tagged variant
  `SelectedTypesContext.Policy`. Its meaning for each tag is `ServiceTypeOf`,
  and null is `None`.
- **Context.** A context is a value: the content of the wrapped service
  collection, the candidate list and the policy. Every operation returns the
  context as it stands after the call. A commit returns it with the new
  descriptors appended to `services`.
- **Library operators.** The .NET operators the code relies on are modelled in
  `Linq`: `Where`, `FirstOrDefault`, `LastOrDefault`, `FirstOrDefault(predicate)`
  and `List<T>.Remove`.
- **Unit tests.** The store scenario of the non-generic unit tests is restated
  in `NonGenericTests` over an example host. The test classes are not part of
  this model, so only some of that host's facts come from the tests:
  - taken from the tests' messages: the full `GetInterfaces()` order of
    `CombinedStore` (`ICheckoutStore, IStore, IOrderStore, IProductStore`) and
    `IStore` as the last interface of `OrderStore`;
  - assumed: `[IProductStore, IStore]` for `ProductStore` (by analogy with
    `OrderStore`), the interface lists of the interfaces themselves, and
    the loaded assemblies — one assembly with no store in it, then one whose
    `GetTypes()` lists the four interfaces and then the three stores.

## Behaviour worth knowing

- Discovery does not deduplicate. A type listed twice is collected twice (`ctx.Types.Add`).
- Discovery has no error path. An exception from reflection simply propagates.
- The generic branch is chosen by `typedef.IsGenericType`, not by the target
  being an open generic definition.
- A context can be committed again. It re-appends the same descriptors.
- `Except` removes only the first occurrence. It is therefore not idempotent
  when a candidate is listed twice.
- `WithService(T)` does not check assignability itself. The commit guard does,
  so a candidate that does not implement `T` is skipped at commit.

## Model

| member | source | states |
|---|---|---|
| SelectedTypesContext.New | fluentservicecollection/SelectedTypesContext.cs:17-22 | a new context wraps the caller's collection unchanged, has no candidates, and its policy maps every candidate of every host to the discovery target |
| SelectedTypesContext.TargetIsWithService | fluentservicecollection/SelectedTypesContext.cs:17-22 | the constructor's default policy commits exactly what `WithService(target)` would, for any candidate list |
| SelectedTypesContext.ServiceTypeOf | fluentservicecollection/SelectedTypesContext.cs:48-58 | the first-interface policy yields the head of the host's interface list and the last-interface policy its last element; both yield null when the list is empty |
| SelectedTypesContext.DefaultInterfaceChoice | fluentservicecollection/SelectedTypesContext.cs:60-64 | the default-interface policy yields null exactly when no interface is named `I` + the class name, and otherwise the earliest interface so named |
| SelectedTypesContext.WithServiceFirstInterface | fluentservicecollection/SelectedTypesContext.cs:48-52 | candidates and collection untouched; every candidate maps to its first interface, or null when it has none |
| SelectedTypesContext.WithServiceLastInterface | fluentservicecollection/SelectedTypesContext.cs:54-58 | candidates and collection untouched; every candidate maps to its last interface, or null when it has none |
| SelectedTypesContext.WithServiceDefaultInterface | fluentservicecollection/SelectedTypesContext.cs:60-64 | candidates and collection untouched; any service type chosen is one of the candidate's interfaces named after it, and null is chosen exactly when there is none |
| SelectedTypesContext.WithService | fluentservicecollection/SelectedTypesContext.cs:71-75 | candidates and collection untouched; every candidate maps to the given type |
| SelectedTypesContext.AsSelf | fluentservicecollection/SelectedTypesContext.cs:77-81 | candidates and collection untouched; every candidate maps to itself |
| SelectedTypesContext.LastSetterWins | fluentservicecollection/SelectedTypesContext.cs:48-81 | after any chain of setters the context equals what the last setter alone produces from the start, and the candidates and collection are unchanged |
| SelectedTypesContext.ExceptCommutesWithSetter | fluentservicecollection/SelectedTypesContext.cs:48-92 | an exclusion and a policy setter give the same context in either order |
| SelectedTypesContext.Except | fluentservicecollection/SelectedTypesContext.cs:88-92 | policy and collection untouched; an absent type leaves the context as it was; otherwise exactly the first occurrence is deleted and the rest keep their order; one copy leaves the multiset of candidates |
| Linq.Remove | fluentservicecollection/SelectedTypesContext.cs:90 | removing an absent element changes nothing; removing a present one shortens the list by one |
| Linq.RemoveFirstOccurrence | fluentservicecollection/SelectedTypesContext.cs:90 | the element removed is the first occurrence; the elements before and after it are kept in order |
| Linq.RemoveCount | fluentservicecollection/SelectedTypesContext.cs:90 | the multiset of elements loses exactly one copy of the removed element |
| SelectedTypesContext.ExceptAllCount | fluentservicecollection/SelectedTypesContext.cs:88-92 | a series of exclusions takes one copy of each excluded type out of the candidates and changes neither policy nor collection |
| SelectedTypesContext.ExcludingEveryCandidateCommitsNothing | fluentservicecollection/SelectedTypesContext.cs:88-92 | once every candidate has been excluded as often as it occurs, a commit adds nothing, whatever the policy |
| SelectedTypesContext.ExceptRemovesFromCommit | fluentservicecollection/SelectedTypesContext.cs:88-92 | an excluded type that was listed at most once is never committed, whatever the policy |
| SelectedTypesContext.Registrations | fluentservicecollection/SelectedTypesContext.cs:36-43 | the commit loop adds at most one descriptor per candidate |
| SelectedTypesContext.RegistrationsSound | fluentservicecollection/SelectedTypesContext.cs:36-43 | every added descriptor has the commit's lifetime, comes from a candidate, and pairs it with the service type the policy yields, which the candidate is assignable to |
| SelectedTypesContext.RegistrationsComplete | fluentservicecollection/SelectedTypesContext.cs:36-43 | every candidate with a non-null, assignable service type is registered under that service type |
| SelectedTypesContext.RegistrationsAsFilter | fluentservicecollection/SelectedTypesContext.cs:36-43 | the added descriptors are, position by position, the candidates the guard accepts (in list order, with repetitions), each under its policy's service type |
| SelectedTypesContext.RegistrationsAppend | fluentservicecollection/SelectedTypesContext.cs:38-43 | the loop over `a + b` adds the descriptors for `a` and then those for `b` |
| SelectedTypesContext.RegistrationsSingle | fluentservicecollection/SelectedTypesContext.cs:40-42 | one candidate is registered exactly when its service type is non-null and assignable from it, and skipped silently otherwise |
| SelectedTypesContext.Commit | fluentservicecollection/SelectedTypesContext.cs:24-46 | committing changes neither candidates nor policy and only appends to the collection; every appended descriptor has the commit's lifetime and a candidate accepted by the guard |
| SelectedTypesContext.CommitRegistersAccepted | fluentservicecollection/SelectedTypesContext.cs:24-46 | the appended descriptors are exactly the accepted candidates in list order, each under its policy's service type and with the commit's lifetime |
| SelectedTypesContext.Scoped | fluentservicecollection/SelectedTypesContext.cs:36-46 | candidates and policy unchanged, the collection only grows at its end, and every added descriptor is scoped |
| SelectedTypesContext.AsSingleton | fluentservicecollection/SelectedTypesContext.cs:24-34 | candidates and policy unchanged, the collection only grows at its end, and every added descriptor is a singleton |
| SelectedTypesContext.ScopedAndSingletonAgree | fluentservicecollection/SelectedTypesContext.cs:24-46 | `Scoped` and `AsSingleton` add the same (service, implementation) pairs in the same order and differ only in lifetime |
| SelectedTypesContext.CommitTwice | fluentservicecollection/SelectedTypesContext.cs:24-46 | a second commit of the same context appends the same descriptors again |
| SelectedTypesContext.WithServiceCommit | fluentservicecollection/SelectedTypesContext.cs:71-75 | after `WithService(x)` every committed descriptor has service type `x` and an implementation assignable to `x`, and every candidate assignable to `x` is committed |
| SelectedTypesContext.AsSelfCommit | fluentservicecollection/SelectedTypesContext.cs:77-81 | after `AsSelf()` every committed descriptor registers its implementation as itself |
| SelectedTypesContext.AsSelfCommitsAll | fluentservicecollection/SelectedTypesContext.cs:77-81 | when assignability is reflexive on the candidates, `AsSelf()` commits every candidate, in order, as itself |
| Linq.FirstOrDefaultWhere | fluentservicecollection/SelectedTypesContext.cs:62 | null exactly when no element satisfies the predicate; otherwise the earliest element that does |
| Linq.Where | fluentservicecollection/ServiceCollectionExtensions.cs:36-39 | `Enumerable.Where` keeps exactly the elements that satisfy the predicate, and is never longer than its input |
| Linq.WhereCount | fluentservicecollection/ServiceCollectionExtensions.cs:36-39 | `Where` keeps every satisfying element as often as it occurs (no deduplication), and drops every other one |
| Linq.WhereAppend | fluentservicecollection/ServiceCollectionExtensions.cs:36-39 | filtering `a + b` gives the filtered `a` followed by the filtered `b`, so `Where` keeps the input's order |
| ServiceCollectionExtensions.WithClassesOfType | fluentservicecollection/ServiceCollectionExtensions.cs:34-43 | a type of the assembly is visited exactly when it is assignable to the target, a class and not abstract |
| ServiceCollectionExtensions.WithClassesOfGenericType | fluentservicecollection/ServiceCollectionExtensions.cs:45-54 | a type of the assembly is visited exactly when it is assignable to the generic target, a class and not abstract |
| ServiceCollectionExtensions.Discover | fluentservicecollection/ServiceCollectionExtensions.cs:15-32 | soundness: every collected type is a concrete class that passes the branch's assignability test; completeness: every such type of every assembly is collected |
| ServiceCollectionExtensions.AddImplementationsOfType | fluentservicecollection/ServiceCollectionExtensions.cs:15-24 | the returned context wraps the caller's collection with nothing registered, maps every candidate to the target, and holds exactly the filter of all assemblies' types laid end to end (order and repetitions kept), which is sound and complete |
| ServiceCollectionExtensions.CollectCandidates | fluentservicecollection/ServiceCollectionExtensions.cs:15-32 | the nested scan over assemblies and their types, appending as it goes, yields exactly the discovered candidate list |
| ServiceCollectionExtensions.DiscoverIsFilterOfConcat | fluentservicecollection/ServiceCollectionExtensions.cs:26-54 | the candidate list is the filter applied to all assemblies' types laid end to end: assembly order first, `GetTypes()` order within each |
| ServiceCollectionExtensions.DiscoverCount | fluentservicecollection/ServiceCollectionExtensions.cs:19-21 | a candidate is collected once for every time an assembly lists it (no deduplication), and a non-candidate never |
| ServiceCollectionExtensions.DiscoverAppend | fluentservicecollection/ServiceCollectionExtensions.cs:26-32 | scanning `a + b` collects the candidates of `a` and then those of `b` |
| ServiceCollectionExtensions.BranchOnIsGenericType | fluentservicecollection/ServiceCollectionExtensions.cs:18-21 | the result depends on the generic assignability test only when `IsGenericType` holds for the target, and on plain assignability only when it does not |
| NonGenericTests.StoresDiscovered | fluentservicecollection.UnitTests/NonGeneric/NonGenericTests.cs:14-17 | discovering `IStore` over the example host's assemblies yields `ProductStore`, `OrderStore`, `CombinedStore` in the assumed `GetTypes()` order, with nothing registered |
| NonGenericTests.StoresScanned | fluentservicecollection.UnitTests/NonGeneric/NonGenericTests.cs:17 | scanning the example host's assemblies for `IStore` skips the interfaces and the non-store class and finds the three stores in the assumed `GetTypes()` order |
| NonGenericTests.StoresStartScenarios | fluentservicecollection.UnitTests/NonGeneric/NonGenericTests.cs:10-26 | the first-interface scenario holds for the context discovery actually returns |
| NonGenericTests.CanAddWithServiceFirstInterface | fluentservicecollection.UnitTests/NonGeneric/NonGenericTests.cs:10-26 | the stores are registered as `IProductStore`, `IOrderStore` and `ICheckoutStore` |
| NonGenericTests.CanAddWithServiceDefaultInterface | fluentservicecollection.UnitTests/NonGeneric/NonGenericTests.cs:28-44 | `ProductStore` and `OrderStore` are registered under their default interfaces; `CombinedStore` is not registered at all |
| NonGenericTests.CanAddWithServiceLastInterface | fluentservicecollection.UnitTests/NonGeneric/NonGenericTests.cs:46-62 | the two single stores are registered as `IStore` and `CombinedStore` as `IProductStore`; nothing is registered as `IOrderStore` or `ICheckoutStore` |
| NonGenericTests.CanAddWithService | fluentservicecollection.UnitTests/NonGeneric/NonGenericTests.cs:64-80 | only `CombinedStore` is registered, as `ICheckoutStore` |
| NonGenericTests.CanAddCanExclude | fluentservicecollection.UnitTests/NonGeneric/NonGenericTests.cs:82-97 | with `ProductStore` excluded, `CombinedStore` is the only `IProductStore` registered |
| NonGenericTests.CanAddAsSelf | fluentservicecollection.UnitTests/NonGeneric/NonGenericTests.cs:99-118 | each store is registered as itself, and no interface is registered |
| NonGenericTests.DuplicatesAreKept | fluentservicecollection/ServiceCollectionExtensions.cs:19-21 | a class listed by two assemblies is collected twice |
| NonGenericTests.ExceptRemovesOneOccurrence | fluentservicecollection/SelectedTypesContext.cs:88-92 | with a candidate listed twice, excluding it once still commits the second copy |

## Left out

- Reflection: `AppDomain.GetAssemblies`, `Assembly.GetTypes`, `Type.IsAssignableFrom`,
  `GetInterfaces()` (including its depth-first order), `Type.Name` and the
  `IsAssignableToGenericType` extension are given functions of the host. The
  extension is not part of this model. Lemmas that need a property of these
  functions, such as reflexive assignability, take it as a premise.
- Generic overloads: `AddImplementationsOfType<T>`, `WithService<T>` and
  `Except<T>` only pass `typeof(T)` to the overloads modelled here. Dafny has
  no runtime type objects to stand for `typeof(T)`.
- The container: `AddScoped`/`AddSingleton` are modelled as appending a
  descriptor. `BuildServiceProvider` and `GetService` resolution are left out,
  including "the last registration for a service type wins". The scenario
  lemmas therefore state the registrations, not the objects the tests resolve.
- Aliasing of the builder: in the code, the setters and `Except` mutate the
  context and return `this`. The model returns a new value instead, which is
  exact only for a linear chain of calls. A caller who keeps an earlier
  reference, or ignores a setter's result, sees the later changes in the
  code but not in the model.
- Sharing: the caller and the context share one mutable `IServiceCollection`.
  The model threads its content through the context value, and the terminal
  methods' returned collection is the `services` field of the result.
- Null type arguments: `Reflection.Type` has no null, so these paths are left out.
  - A null target of `AddImplementationsOfType` throws at `typedef.IsGenericType`.
  - `new SelectedTypesContext(services, null)` and `WithService(null)` throw
    nothing. They install a policy that yields null, so a later commit skips
    every candidate.
  - `Except(null)` throws nothing. `List<T>.Remove` finds no null candidate
    and leaves the list as it is.
- Exceptions from `GetTypes()` propagate out of the code and are not modelled.
- The public `Types` list can be mutated directly by callers. Only changes
  through discovery and `Except` are modelled.
- `WithClassesOfType`/`WithClassesOfGenericType` hand each type to a callback.
  Here they return the sequence of types the callback would receive, and the
  callback's effect is the append in `Discover` and `CollectCandidates`.
- SelectedTypesContext.ExceptRemovesFromCommit: stated only for types listed at most once.
  With duplicates, `Except` removes one copy and the others are still committed.
  `NonGenericTests.ExceptRemovesOneOccurrence` shows this case.
