/**
 The store scenario of the non-generic unit tests, restated against the
 model over an example host. From the tests' messages come the
 `GetInterfaces()` order of `CombinedStore` and the last interface of
 `OrderStore`. Everything else is assumed:
 - the interface list of `ProductStore`, by analogy with `OrderStore`;
 - the interface lists of the interfaces;
 - the loaded assemblies: one assembly with no store in it, then one whose
   `GetTypes()` lists the four interfaces and then the three stores.
 */
module NonGenericTests {
  import opened Reflection
  import opened Linq
  import DI = DependencyInjection
  import opened SelectedTypesContext
  import opened ServiceCollectionExtensions

  const IStore := Type(0)
  const IProductStore := Type(1)
  const IOrderStore := Type(2)
  const ICheckoutStore := Type(3)
  const ProductStore := Type(4)
  const OrderStore := Type(5)
  const CombinedStore := Type(6)
  const Object := Type(7)

  function Name(t: Type): string
  {
    if t == IStore then "IStore"
    else if t == IProductStore then "IProductStore"
    else if t == IOrderStore then "IOrderStore"
    else if t == ICheckoutStore then "ICheckoutStore"
    else if t == ProductStore then "ProductStore"
    else if t == OrderStore then "OrderStore"
    else if t == CombinedStore then "CombinedStore"
    else "Object"
  }

  /** `GetInterfaces()` of each type, in the order the host reports it. Only
      `CombinedStore`'s list and the last entry of `OrderStore`'s are stated
      by the tests; the rest is assumed. */
  function Interfaces(t: Type): seq<Type>
  {
    if t == ProductStore then [IProductStore, IStore]
    else if t == OrderStore then [IOrderStore, IStore]
    else if t == CombinedStore then [ICheckoutStore, IStore, IOrderStore, IProductStore]
    else if t == IProductStore || t == IOrderStore then [IStore]
    else if t == ICheckoutStore then [IStore, IOrderStore, IProductStore]
    else []
  }

  predicate IsClass(t: Type)
  {
    t == ProductStore || t == OrderStore || t == CombinedStore || t == Object
  }

  predicate IsAbstract(t: Type)
  {
    false
  }

  predicate IsGenericType(t: Type)
  {
    false
  }

  /** `a.IsAssignableFrom(b)` for these types: `b` is `a` or implements it. */
  predicate IsAssignableFrom(a: Type, b: Type)
  {
    a == b || a in Interfaces(b)
  }

  predicate IsAssignableToGenericType(t: Type, g: Type)
  {
    false
  }

  function StoreHost(): Host
  {
    Host(Name, IsClass, IsAbstract, IsGenericType, Interfaces, IsAssignableFrom, IsAssignableToGenericType)
  }

  function LoadedAssemblies(): seq<seq<Type>>
  {
    [[Object], [IStore, IProductStore, IOrderStore, ICheckoutStore, ProductStore, OrderStore, CombinedStore]]
  }

  /** `services.AddImplementationsOfType<IStore>()` on an empty collection. */
  function Stores(): Context
  {
    AddImplementationsOfType(StoreHost(), [], LoadedAssemblies(), IStore)
  }

  /** The test assembly contributes the three store classes, in order. */
  lemma TestAssemblyStores()
    ensures WithClassesOfType(StoreHost(), LoadedAssemblies()[1], IStore) ==
            [ProductStore, OrderStore, CombinedStore]
  {
    var keep := ClassOfType(StoreHost(), IStore);
    var interfaces := [IStore, IProductStore, IOrderStore, ICheckoutStore];
    var classes := [ProductStore, OrderStore, CombinedStore];
    assert LoadedAssemblies()[1] == interfaces + classes;
    assert !IsClass(IStore) && !IsClass(IProductStore) && !IsClass(IOrderStore) && !IsClass(ICheckoutStore);
    assert forall i :: 0 <= i < |interfaces| ==> !keep(interfaces[i]);
    WhereNone(interfaces, keep);
    assert IsAssignableFrom(IStore, ProductStore) && IsAssignableFrom(IStore, OrderStore) &&
           IsAssignableFrom(IStore, CombinedStore);
    assert forall i :: 0 <= i < |classes| ==> keep(classes[i]);
    WhereAll(classes, keep);
    WhereAppend(interfaces, classes, keep);
  }

  /** Scanning the assumed assemblies for `IStore` finds the three store
      classes, in the assumed `GetTypes()` order. */
  lemma StoresScanned()
    ensures Discover(StoreHost(), LoadedAssemblies(), IStore) == StoreTypes()
  {
    var host := StoreHost();
    var assemblies := LoadedAssemblies();
    assert WithClassesOfType(host, [Object], IStore) == [] by {
      WhereSingle(Object, ClassOfType(host, IStore));
    }
    assert assemblies[..1] == [[Object]];
    assert [[Object]][..0] == [];
    assert Discover(host, [[Object]], IStore) == [];
    TestAssemblyStores();
  }

  /** Discovery finds the three store classes, in the assumed `GetTypes()`
      order, and registers nothing. */
  lemma StoresDiscovered()
    ensures Stores().types == StoreTypes()
    ensures Stores().services == []
  {
    StoresScanned();
    assert Stores().types == [] + Discover(StoreHost(), LoadedAssemblies(), IStore);
  }

  /** What committing one store under `policy` adds. */
  function Commits(policy: Policy, t: Type): seq<DI.ServiceDescriptor>
  {
    Registrations(StoreHost(), policy, [t], DI.Scoped)
  }

  /** A store the policy maps to an interface it implements is registered
      under that interface. */
  lemma CommitsAs(policy: Policy, t: Type, s: Type)
    requires ServiceTypeOf(StoreHost(), policy, t) == Some(s)
    requires IsAssignableFrom(s, t)
    ensures Commits(policy, t) == [DI.ServiceDescriptor(s, t, DI.Scoped)]
  {
    RegistrationsSingle(StoreHost(), policy, t, DI.Scoped);
  }

  /** A store the policy maps to null, or to a type it does not implement,
      is skipped. */
  lemma CommitsNothing(policy: Policy, t: Type)
    requires !Registers(StoreHost(), policy, t)
    ensures Commits(policy, t) == []
  {
    RegistrationsSingle(StoreHost(), policy, t, DI.Scoped);
  }

  /** The three stores, as discovery lists them. */
  function StoreTypes(): seq<Type>
  {
    [ProductStore, OrderStore, CombinedStore]
  }

  /** Committing the three stores is committing each of them in turn. */
  lemma CommitStores(c: Context, product: seq<DI.ServiceDescriptor>, order: seq<DI.ServiceDescriptor>,
                     combined: seq<DI.ServiceDescriptor>)
    requires c.types == StoreTypes() && c.services == []
    requires Commits(c.policy, ProductStore) == product
    requires Commits(c.policy, OrderStore) == order
    requires Commits(c.policy, CombinedStore) == combined
    ensures Scoped(StoreHost(), c).services == product + order + combined
  {
    assert c.types == [ProductStore] + [OrderStore] + [CombinedStore];
    RegistrationsAppend(StoreHost(), c.policy, [ProductStore] + [OrderStore], [CombinedStore], DI.Scoped);
    RegistrationsAppend(StoreHost(), c.policy, [ProductStore], [OrderStore], DI.Scoped);
  }

  /** What each store commits under the policy of `CanAddWithServiceFirstInterface`. */
  lemma WithServiceFirstInterfaceCommits()
    ensures Commits(FirstInterface, ProductStore) ==
            [DI.ServiceDescriptor(IProductStore, ProductStore, DI.Scoped)]
    ensures Commits(FirstInterface, OrderStore) ==
            [DI.ServiceDescriptor(IOrderStore, OrderStore, DI.Scoped)]
    ensures Commits(FirstInterface, CombinedStore) ==
            [DI.ServiceDescriptor(ICheckoutStore, CombinedStore, DI.Scoped)]
  {
    var p := FirstInterface;
    var product := [DI.ServiceDescriptor(IProductStore, ProductStore, DI.Scoped)];
    var order := [DI.ServiceDescriptor(IOrderStore, OrderStore, DI.Scoped)];
    var combined := [DI.ServiceDescriptor(ICheckoutStore, CombinedStore, DI.Scoped)];
    assert Commits(p, ProductStore) == product by { CommitsAs(p, ProductStore, IProductStore); }
    assert Commits(p, OrderStore) == order by { CommitsAs(p, OrderStore, IOrderStore); }
    assert Commits(p, CombinedStore) == combined by { CommitsAs(p, CombinedStore, ICheckoutStore); }
  }

  /** `CanAdd_WithServiceFirstInterface`. */
  lemma CanAddWithServiceFirstInterface(c: Context)
    requires c.types == StoreTypes() && c.services == []
    ensures Scoped(StoreHost(), WithServiceFirstInterface(c)).services ==
            [ DI.ServiceDescriptor(IProductStore, ProductStore, DI.Scoped),
              DI.ServiceDescriptor(IOrderStore, OrderStore, DI.Scoped),
              DI.ServiceDescriptor(ICheckoutStore, CombinedStore, DI.Scoped) ]
  {
    WithServiceFirstInterfaceCommits();
    CommitStores(WithServiceFirstInterface(c),
                 [DI.ServiceDescriptor(IProductStore, ProductStore, DI.Scoped)],
                 [DI.ServiceDescriptor(IOrderStore, OrderStore, DI.Scoped)],
                 [DI.ServiceDescriptor(ICheckoutStore, CombinedStore, DI.Scoped)]);
  }

  /** What each store commits under the policy of `CanAddWithServiceDefaultInterface`. */
  lemma WithServiceDefaultInterfaceCommits()
    ensures Commits(DefaultInterface, ProductStore) ==
            [DI.ServiceDescriptor(IProductStore, ProductStore, DI.Scoped)]
    ensures Commits(DefaultInterface, OrderStore) ==
            [DI.ServiceDescriptor(IOrderStore, OrderStore, DI.Scoped)]
    ensures Commits(DefaultInterface, CombinedStore) == []
  {
    var host := StoreHost();
    var p := DefaultInterface;
    var product := [DI.ServiceDescriptor(IProductStore, ProductStore, DI.Scoped)];
    var order := [DI.ServiceDescriptor(IOrderStore, OrderStore, DI.Scoped)];
    assert Commits(p, ProductStore) == product by {
      assert IsDefaultInterface(host, ProductStore, IProductStore);
      CommitsAs(p, ProductStore, IProductStore);
    }
    assert Commits(p, OrderStore) == order by {
      assert IsDefaultInterface(host, OrderStore, IOrderStore);
      CommitsAs(p, OrderStore, IOrderStore);
    }
    CombinedStoreHasNoDefaultInterface();
  }

  /** None of the interfaces of `CombinedStore` is called `ICombinedStore`. */
  lemma CombinedStoreHasNoDefaultInterface()
    ensures Commits(DefaultInterface, CombinedStore) == []
  {
    var host := StoreHost();
    var ifs := Interfaces(CombinedStore);
    assert forall i :: 0 <= i < |ifs| ==> !IsDefaultInterface(host, CombinedStore, ifs[i]) by {
      assert Name(ICheckoutStore) != "ICombinedStore";
      assert Name(IStore) != "ICombinedStore";
      assert Name(IOrderStore) != "ICombinedStore";
      assert Name(IProductStore) != "ICombinedStore";
    }
    CommitsNothing(DefaultInterface, CombinedStore);
  }

  /** `CanAdd_WithServiceDefaultInterface`: `CombinedStore` has no interface
      called `ICombinedStore`, so it is skipped. */
  lemma CanAddWithServiceDefaultInterface(c: Context)
    requires c.types == StoreTypes() && c.services == []
    ensures Scoped(StoreHost(), WithServiceDefaultInterface(c)).services ==
            [ DI.ServiceDescriptor(IProductStore, ProductStore, DI.Scoped),
              DI.ServiceDescriptor(IOrderStore, OrderStore, DI.Scoped) ]
  {
    WithServiceDefaultInterfaceCommits();
    CommitStores(WithServiceDefaultInterface(c),
                 [DI.ServiceDescriptor(IProductStore, ProductStore, DI.Scoped)],
                 [DI.ServiceDescriptor(IOrderStore, OrderStore, DI.Scoped)],
                 []);
  }

  /** What each store commits under the policy of `CanAddWithServiceLastInterface`. */
  lemma WithServiceLastInterfaceCommits()
    ensures Commits(LastInterface, ProductStore) ==
            [DI.ServiceDescriptor(IStore, ProductStore, DI.Scoped)]
    ensures Commits(LastInterface, OrderStore) ==
            [DI.ServiceDescriptor(IStore, OrderStore, DI.Scoped)]
    ensures Commits(LastInterface, CombinedStore) ==
            [DI.ServiceDescriptor(IProductStore, CombinedStore, DI.Scoped)]
  {
    var p := LastInterface;
    var product := [DI.ServiceDescriptor(IStore, ProductStore, DI.Scoped)];
    var order := [DI.ServiceDescriptor(IStore, OrderStore, DI.Scoped)];
    var combined := [DI.ServiceDescriptor(IProductStore, CombinedStore, DI.Scoped)];
    assert Commits(p, ProductStore) == product by { CommitsAs(p, ProductStore, IStore); }
    assert Commits(p, OrderStore) == order by { CommitsAs(p, OrderStore, IStore); }
    assert Commits(p, CombinedStore) == combined by { CommitsAs(p, CombinedStore, IProductStore); }
  }

  /** `CanAdd_WithServiceLastInterface`: the depth-first order makes `IStore`
      the last interface of the two single stores and `IProductStore` that
      of `CombinedStore`. */
  lemma CanAddWithServiceLastInterface(c: Context)
    requires c.types == StoreTypes() && c.services == []
    ensures Scoped(StoreHost(), WithServiceLastInterface(c)).services ==
            [ DI.ServiceDescriptor(IStore, ProductStore, DI.Scoped),
              DI.ServiceDescriptor(IStore, OrderStore, DI.Scoped),
              DI.ServiceDescriptor(IProductStore, CombinedStore, DI.Scoped) ]
  {
    WithServiceLastInterfaceCommits();
    CommitStores(WithServiceLastInterface(c),
                 [DI.ServiceDescriptor(IStore, ProductStore, DI.Scoped)],
                 [DI.ServiceDescriptor(IStore, OrderStore, DI.Scoped)],
                 [DI.ServiceDescriptor(IProductStore, CombinedStore, DI.Scoped)]);
  }

  /** What each store commits under the policy of `CanAddWithService`. */
  lemma WithServiceCommits()
    ensures Commits(Explicit(ICheckoutStore), ProductStore) == []
    ensures Commits(Explicit(ICheckoutStore), OrderStore) == []
    ensures Commits(Explicit(ICheckoutStore), CombinedStore) ==
            [DI.ServiceDescriptor(ICheckoutStore, CombinedStore, DI.Scoped)]
  {
    var p := Explicit(ICheckoutStore);
    var combined := [DI.ServiceDescriptor(ICheckoutStore, CombinedStore, DI.Scoped)];
    assert Commits(p, ProductStore) == [] by { CommitsNothing(p, ProductStore); }
    assert Commits(p, OrderStore) == [] by { CommitsNothing(p, OrderStore); }
    assert Commits(p, CombinedStore) == combined by { CommitsAs(p, CombinedStore, ICheckoutStore); }
  }

  /** `CanAdd_WithService`: only `CombinedStore` implements `ICheckoutStore`. */
  lemma CanAddWithService(c: Context)
    requires c.types == StoreTypes() && c.services == []
    ensures Scoped(StoreHost(), WithService(c, ICheckoutStore)).services ==
            [ DI.ServiceDescriptor(ICheckoutStore, CombinedStore, DI.Scoped) ]
  {
    WithServiceCommits();
    CommitStores(WithService(c, ICheckoutStore),
                 [],
                 [],
                 [DI.ServiceDescriptor(ICheckoutStore, CombinedStore, DI.Scoped)]);
  }

  /** Under `WithService<IProductStore>()`, of the two stores left after the
      exclusion only `CombinedStore` is registered. */
  lemma ExcludeCommits()
    ensures Registrations(StoreHost(), Explicit(IProductStore), [OrderStore, CombinedStore], DI.Scoped) ==
            [ DI.ServiceDescriptor(IProductStore, CombinedStore, DI.Scoped) ]
  {
    var p := Explicit(IProductStore);
    assert Commits(p, OrderStore) == [] by { CommitsNothing(p, OrderStore); }
    assert Commits(p, CombinedStore) ==
            [DI.ServiceDescriptor(IProductStore, CombinedStore, DI.Scoped)] by {
      CommitsAs(p, CombinedStore, IProductStore);
    }
    RegistrationsAppend(StoreHost(), p, [OrderStore], [CombinedStore], DI.Scoped);
    assert [OrderStore] + [CombinedStore] == [OrderStore, CombinedStore];
  }

  /** `CanAdd_CanExclude`: with `ProductStore` excluded, `CombinedStore` is
      the only `IProductStore`. */
  lemma CanAddCanExclude(c: Context)
    requires c.types == StoreTypes() && c.services == []
    ensures Scoped(StoreHost(), Except(WithService(c, IProductStore), ProductStore)).services ==
            [ DI.ServiceDescriptor(IProductStore, CombinedStore, DI.Scoped) ]
  {
    var e := Except(WithService(c, IProductStore), ProductStore);
    assert e.types == [OrderStore, CombinedStore] by {
      assert IndexOf(StoreTypes(), ProductStore) == 0;
    }
    ExcludeCommits();
  }

  /** What each store commits under the policy of `CanAddAsSelf`. */
  lemma AsSelfCommits()
    ensures Commits(Self, ProductStore) ==
            [DI.ServiceDescriptor(ProductStore, ProductStore, DI.Scoped)]
    ensures Commits(Self, OrderStore) == [DI.ServiceDescriptor(OrderStore, OrderStore, DI.Scoped)]
    ensures Commits(Self, CombinedStore) ==
            [DI.ServiceDescriptor(CombinedStore, CombinedStore, DI.Scoped)]
  {
    var p := Self;
    var product := [DI.ServiceDescriptor(ProductStore, ProductStore, DI.Scoped)];
    var order := [DI.ServiceDescriptor(OrderStore, OrderStore, DI.Scoped)];
    var combined := [DI.ServiceDescriptor(CombinedStore, CombinedStore, DI.Scoped)];
    assert Commits(p, ProductStore) == product by { CommitsAs(p, ProductStore, ProductStore); }
    assert Commits(p, OrderStore) == order by { CommitsAs(p, OrderStore, OrderStore); }
    assert Commits(p, CombinedStore) == combined by { CommitsAs(p, CombinedStore, CombinedStore); }
  }

  /** `CanAdd_AsSelf`: each store is registered as itself only. */
  lemma CanAddAsSelf(c: Context)
    requires c.types == StoreTypes() && c.services == []
    ensures Scoped(StoreHost(), AsSelf(c)).services ==
            [ DI.ServiceDescriptor(ProductStore, ProductStore, DI.Scoped),
              DI.ServiceDescriptor(OrderStore, OrderStore, DI.Scoped),
              DI.ServiceDescriptor(CombinedStore, CombinedStore, DI.Scoped) ]
  {
    AsSelfCommits();
    CommitStores(AsSelf(c),
                 [DI.ServiceDescriptor(ProductStore, ProductStore, DI.Scoped)],
                 [DI.ServiceDescriptor(OrderStore, OrderStore, DI.Scoped)],
                 [DI.ServiceDescriptor(CombinedStore, CombinedStore, DI.Scoped)]);
  }

  /** The scenarios above start from the context discovery returns. */
  lemma StoresStartScenarios()
    ensures Stores().types == StoreTypes() && Stores().services == []
    ensures Scoped(StoreHost(), WithServiceFirstInterface(Stores())).services ==
            [ DI.ServiceDescriptor(IProductStore, ProductStore, DI.Scoped),
              DI.ServiceDescriptor(IOrderStore, OrderStore, DI.Scoped),
              DI.ServiceDescriptor(ICheckoutStore, CombinedStore, DI.Scoped) ]
  {
    StoresDiscovered();
    CanAddWithServiceFirstInterface(Stores());
  }

  /** A type listed by two assemblies is discovered twice: discovery keeps
      duplicates. */
  lemma DuplicatesAreKept()
    ensures Discover(StoreHost(), [[ProductStore], [ProductStore]], IStore) ==
            [ProductStore, ProductStore]
  {
    var host := StoreHost();
    assert WithClassesOfType(host, [ProductStore], IStore) == [ProductStore] by {
      WhereSingle(ProductStore, ClassOfType(host, IStore));
    }
    DiscoverAppend(host, [[ProductStore]], [[ProductStore]], IStore);
    assert [[ProductStore]][..0] == [];
    assert Discover(host, [[ProductStore]], IStore) == [ProductStore];
  }

  /** `Except` removes one occurrence only: with the candidate listed twice,
      the second copy is still committed. */
  lemma ExceptRemovesOneOccurrence()
    ensures var c := Context([], [ProductStore, ProductStore], Self);
            Scoped(StoreHost(), Except(c, ProductStore)).services ==
            [ DI.ServiceDescriptor(ProductStore, ProductStore, DI.Scoped) ]
  {
    var c := Context([], [ProductStore, ProductStore], Self);
    assert Except(c, ProductStore).types == [ProductStore] by {
      assert IndexOf(c.types, ProductStore) == 0;
    }
    assert Commits(Self, ProductStore) ==
            [DI.ServiceDescriptor(ProductStore, ProductStore, DI.Scoped)] by {
      CommitsAs(Self, ProductStore, ProductStore);
    }
  }
}
