/**
 `SelectedTypesContext`: the fluent builder that holds the discovered
 candidate types and one service-type policy, and that commits one
 registration per eligible candidate to the wrapped service collection.

 The source keeps the policy as a `Func<Type, Type>` closure; here it is a
 tagged variant, and `ServiceTypeOf` is the closure's body for each tag.
 The mutable builder becomes a value: every operation returns the
 context as it stands after the call.
 */
module SelectedTypesContext {
  import opened Reflection
  import opened Linq
  import opened DependencyInjection

  /** The service-type policy, one tag per closure the source installs. */
  datatype Policy =
    | Target(interfaceType: Type)  // constructor default: the discovery target
    | FirstInterface               // WithServiceFirstInterface
    | LastInterface                // WithServiceLastInterface
    | DefaultInterface             // WithServiceDefaultInterface
    | Explicit(serviceType: Type)  // WithService(typedef)
    | Self                         // AsSelf

  /** The naming convention of the default-interface policy: interface `i`
      of class `t` is its default interface when `i` is called `I` followed
      by the simple name of `t`. */
  predicate IsDefaultInterface(host: Host, t: Type, i: Type)
  {
    host.name(i) == "I" + host.name(t)
  }

  /** The service type the policy yields for candidate `t`; `None` stands for
      the null the closure may return. */
  function ServiceTypeOf(host: Host, policy: Policy, t: Type): (r: Option<Type>)
    ensures policy.FirstInterface? ==>
              r == (if |host.interfaces(t)| == 0 then None else Some(host.interfaces(t)[0]))
    ensures policy.LastInterface? ==>
              r == (if |host.interfaces(t)| == 0 then None
                    else Some(host.interfaces(t)[|host.interfaces(t)| - 1]))
  {
    match policy
    case Target(interfaceType) => Some(interfaceType)
    case FirstInterface => FirstOrDefault(host.interfaces(t))
    case LastInterface => LastOrDefault(host.interfaces(t))
    case DefaultInterface =>
      FirstOrDefaultWhere(host.interfaces(t), i => IsDefaultInterface(host, t, i))
    case Explicit(serviceType) => Some(serviceType)
    case Self => Some(t)
  }

  /** The default-interface policy picks the earliest interface named after
      the candidate, and yields null exactly when there is none. */
  lemma DefaultInterfaceChoice(host: Host, t: Type)
    ensures var r := ServiceTypeOf(host, DefaultInterface, t);
            && (r.None? <==> forall i :: 0 <= i < |host.interfaces(t)| ==>
                                           !IsDefaultInterface(host, t, host.interfaces(t)[i]))
            && (r.Some? ==>
                  exists i :: 0 <= i < |host.interfaces(t)| && host.interfaces(t)[i] == r.value &&
                              IsDefaultInterface(host, t, r.value) &&
                              forall j :: 0 <= j < i ==> !IsDefaultInterface(host, t, host.interfaces(t)[j]))
  {
  }

  /** The state of a `SelectedTypesContext`: the contents of the wrapped
      service collection, the candidate list `Types`, and the policy. */
  datatype Context = Context(services: ServiceCollection, types: seq<Type>, policy: Policy)

  /** `new SelectedTypesContext(services, interfaceType)`: no candidates yet,
      and every candidate would be registered under `interfaceType`. */
  function New(services: ServiceCollection, interfaceType: Type): (c: Context)
    ensures c.services == services
    ensures c.types == []
    ensures forall host: Host, t: Type :: ServiceTypeOf(host, c.policy, t) == Some(interfaceType)
  {
    Context(services, [], Target(interfaceType))
  }

  /** `WithServiceFirstInterface()`: each candidate maps to the first entry of
      its interface list, or to null when it has none. */
  function WithServiceFirstInterface(c: Context): (r: Context)
    ensures r.services == c.services && r.types == c.types
    ensures forall host: Host, t: Type :: ServiceTypeOf(host, r.policy, t) ==
              (if |host.interfaces(t)| == 0 then None else Some(host.interfaces(t)[0]))
  {
    c.(policy := FirstInterface)
  }

  /** `WithServiceLastInterface()`: each candidate maps to the last entry of
      its interface list, or to null when it has none. */
  function WithServiceLastInterface(c: Context): (r: Context)
    ensures r.services == c.services && r.types == c.types
    ensures forall host: Host, t: Type :: ServiceTypeOf(host, r.policy, t) ==
              (if |host.interfaces(t)| == 0 then None
               else Some(host.interfaces(t)[|host.interfaces(t)| - 1]))
  {
    c.(policy := LastInterface)
  }

  /** `WithServiceDefaultInterface()`: each candidate maps to the first of its
      interfaces named after it, or to null when none is. */
  function WithServiceDefaultInterface(c: Context): (r: Context)
    ensures r.services == c.services && r.types == c.types
    ensures forall host: Host, t: Type, s: Type :: ServiceTypeOf(host, r.policy, t) == Some(s) ==>
              s in host.interfaces(t) && IsDefaultInterface(host, t, s)
    ensures forall host: Host, t: Type :: ServiceTypeOf(host, r.policy, t).None? <==>
              forall i :: 0 <= i < |host.interfaces(t)| ==> !IsDefaultInterface(host, t, host.interfaces(t)[i])
  {
    assert forall host: Host, t: Type :: ServiceTypeOf(host, DefaultInterface, t).None? <==>
             forall i :: 0 <= i < |host.interfaces(t)| ==> !IsDefaultInterface(host, t, host.interfaces(t)[i]) by {
      forall host: Host, t: Type {
        DefaultInterfaceChoice(host, t);
      }
    }
    c.(policy := DefaultInterface)
  }

  /** `WithService(typedef)`: every candidate maps to `typedef`. */
  function WithService(c: Context, typedef: Type): (r: Context)
    ensures r.services == c.services && r.types == c.types
    ensures forall host: Host, t: Type :: ServiceTypeOf(host, r.policy, t) == Some(typedef)
  {
    c.(policy := Explicit(typedef))
  }

  /** `AsSelf()`: every candidate maps to itself. */
  function AsSelf(c: Context): (r: Context)
    ensures r.services == c.services && r.types == c.types
    ensures forall host: Host, t: Type :: ServiceTypeOf(host, r.policy, t) == Some(t)
  {
    c.(policy := Self)
  }

  /** `Except(t)`: `Types.Remove(t)` — the first occurrence of `t` leaves the
      candidate list, the others keep their order, and nothing else changes. */
  function Except(c: Context, t: Type): (r: Context)
    ensures r.services == c.services && r.policy == c.policy
    ensures t !in c.types ==> r == c
    ensures t in c.types ==>
              r.types == c.types[..IndexOf(c.types, t)] + c.types[IndexOf(c.types, t) + 1..]
    ensures multiset(r.types) == multiset(c.types) - multiset{t}
  {
    var r := c.(types := Remove(c.types, t));
    RemoveCount(c.types, t);
    if t in c.types then RemoveFirstOccurrence(c.types, t); r else r
  }

  /** The guard of the commit loop: the policy yields a non-null service type
      that is assignable from the candidate. */
  predicate Registers(host: Host, policy: Policy, t: Type)
  {
    var s := ServiceTypeOf(host, policy, t);
    s.Some? && host.isAssignableFrom(s.value, t)
  }

  /** The guard as a predicate value, for filtering. */
  function Eligible(host: Host, policy: Policy): Type -> bool
  {
    t => Registers(host, policy, t)
  }

  /** The descriptors the commit loop adds after visiting `types` in order
      (the body shared by `Scoped` and `AsSingleton`): at most one per
      candidate. What they are is stated by `RegistrationsSound`,
      `RegistrationsComplete` and `RegistrationsAsFilter`. */
  function Registrations(host: Host, policy: Policy, types: seq<Type>, lifetime: ServiceLifetime)
    : (r: seq<ServiceDescriptor>)
    ensures |r| <= |types|
    decreases |types|
  {
    if |types| == 0 then []
    else Visit(host, policy, Registrations(host, policy, types[..|types| - 1], lifetime),
               types[|types| - 1], lifetime)
  }

  /** One pass of the commit loop: candidate `t` is appended to the
      descriptors registered so far when the guard accepts it. */
  function Visit(host: Host, policy: Policy, visited: seq<ServiceDescriptor>, t: Type,
                 lifetime: ServiceLifetime): seq<ServiceDescriptor>
  {
    var serviceType := ServiceTypeOf(host, policy, t);
    if serviceType.Some? && host.isAssignableFrom(serviceType.value, t)
    then visited + [ServiceDescriptor(serviceType.value, t, lifetime)]
    else visited
  }

  /** Every descriptor the commit loop adds comes from a candidate the guard
      accepts, under the service type the policy yields for it. */
  lemma {:induction false} RegistrationsSound(host: Host, policy: Policy, types: seq<Type>,
                                              lifetime: ServiceLifetime)
    ensures forall d :: d in Registrations(host, policy, types, lifetime) ==>
              && d.lifetime == lifetime
              && d.implementationType in types
              && ServiceTypeOf(host, policy, d.implementationType) == Some(d.serviceType)
              && host.isAssignableFrom(d.serviceType, d.implementationType)
    decreases |types|
  {
    if |types| > 0 {
      var init := types[..|types| - 1];
      RegistrationsSound(host, policy, init, lifetime);
      assert forall t :: t in init ==> t in types;
    }
  }

  /** Every candidate the guard accepts is registered under the service type
      the policy yields for it. */
  lemma {:induction false} RegistrationsComplete(host: Host, policy: Policy, types: seq<Type>,
                                                 lifetime: ServiceLifetime)
    ensures forall t :: t in types && Registers(host, policy, t) ==>
              ServiceDescriptor(ServiceTypeOf(host, policy, t).value, t, lifetime) in
                Registrations(host, policy, types, lifetime)
    decreases |types|
  {
    if |types| > 0 {
      var init := types[..|types| - 1];
      RegistrationsComplete(host, policy, init, lifetime);
      assert types == init + [types[|types| - 1]];
    }
  }

  /** The terminal operation shared by `Scoped` and `AsSingleton`: the
      candidates and the policy are left as they are, and the collection
      only grows at its end. */
  function Commit(host: Host, c: Context, lifetime: ServiceLifetime): (r: Context)
    ensures r.types == c.types && r.policy == c.policy
    ensures |c.services| <= |r.services| && r.services[..|c.services|] == c.services
    ensures forall k :: |c.services| <= k < |r.services| ==>
              && r.services[k].lifetime == lifetime
              && r.services[k].implementationType in c.types
              && Registers(host, c.policy, r.services[k].implementationType)
  {
    var added := Registrations(host, c.policy, c.types, lifetime);
    RegistrationsSound(host, c.policy, c.types, lifetime);
    var r := c.(services := c.services + added);
    assert forall k :: |c.services| <= k < |r.services| ==> r.services[k] in added by {
      forall k | |c.services| <= k < |r.services| ensures r.services[k] in added {
        assert r.services[k] == added[k - |c.services|];
      }
    }
    r
  }

  /** `Scoped()`: commits every eligible candidate with the scoped lifetime. */
  function Scoped(host: Host, c: Context): (r: Context)
    ensures r.types == c.types && r.policy == c.policy
    ensures |c.services| <= |r.services| && r.services[..|c.services|] == c.services
    ensures forall k :: |c.services| <= k < |r.services| ==>
              r.services[k].lifetime == ServiceLifetime.Scoped
  {
    Commit(host, c, ServiceLifetime.Scoped)
  }

  /** `AsSingleton()`: commits every eligible candidate with the singleton lifetime. */
  function AsSingleton(host: Host, c: Context): (r: Context)
    ensures r.types == c.types && r.policy == c.policy
    ensures |c.services| <= |r.services| && r.services[..|c.services|] == c.services
    ensures forall k :: |c.services| <= k < |r.services| ==>
              r.services[k].lifetime == ServiceLifetime.Singleton
  {
    Commit(host, c, ServiceLifetime.Singleton)
  }

  /** A call of one of the policy setters, so that chains of them can be
      stated and reasoned about. */
  datatype Setter =
    | SetFirstInterface
    | SetLastInterface
    | SetDefaultInterface
    | SetService(typedef: Type)
    | SetSelf

  function Apply(c: Context, s: Setter): Context
  {
    match s
    case SetFirstInterface => WithServiceFirstInterface(c)
    case SetLastInterface => WithServiceLastInterface(c)
    case SetDefaultInterface => WithServiceDefaultInterface(c)
    case SetService(typedef) => WithService(c, typedef)
    case SetSelf => AsSelf(c)
  }

  /** A fluent chain of setter calls, applied left to right. */
  function ApplyAll(c: Context, chain: seq<Setter>): Context
    decreases |chain|
  {
    if |chain| == 0 then c else ApplyAll(Apply(c, chain[0]), chain[1..])
  }

  /** Setters replace the policy: after any chain, the context is the one the
      last setter alone would have produced, so the last setter wins and
      candidates and collection are never touched. */
  lemma {:induction false} LastSetterWins(c: Context, chain: seq<Setter>)
    ensures |chain| == 0 ==> ApplyAll(c, chain) == c
    ensures |chain| > 0 ==> ApplyAll(c, chain) == Apply(c, chain[|chain| - 1])
    ensures ApplyAll(c, chain).types == c.types && ApplyAll(c, chain).services == c.services
    decreases |chain|
  {
    if |chain| > 0 {
      LastSetterWins(Apply(c, chain[0]), chain[1..]);
    }
  }

  /** Setters and `Except` act on disjoint parts of the state, so their order
      in a chain does not matter. */
  lemma ExceptCommutesWithSetter(c: Context, s: Setter, t: Type)
    ensures Apply(Except(c, t), s) == Except(Apply(c, s), t)
  {
  }

  /** The commit loop over `a + b` adds the descriptors for `a`, then those
      for `b`: registration follows the candidate order. */
  lemma {:induction false} RegistrationsAppend(host: Host, policy: Policy, a: seq<Type>, b: seq<Type>,
                                               lifetime: ServiceLifetime)
    ensures Registrations(host, policy, a + b, lifetime) ==
            Registrations(host, policy, a, lifetime) + Registrations(host, policy, b, lifetime)
    decreases |b|
  {
    if |b| == 0 {
      assert a + b == a;
    } else {
      var ab := a + b;
      var init := b[..|b| - 1];
      var x := b[|b| - 1];
      assert ab[..|ab| - 1] == a + init;
      assert ab[|ab| - 1] == x;
      RegistrationsAppend(host, policy, a, init, lifetime);
      var ra := Registrations(host, policy, a, lifetime);
      var ri := Registrations(host, policy, init, lifetime);
      assert Registrations(host, policy, ab, lifetime) == Visit(host, policy, ra + ri, x, lifetime);
      assert Registrations(host, policy, b, lifetime) == Visit(host, policy, ri, x, lifetime);
    }
  }

  /** The commit loop on a single candidate registers it exactly when the
      guard accepts it. */
  lemma RegistrationsSingle(host: Host, policy: Policy, t: Type, lifetime: ServiceLifetime)
    ensures Registrations(host, policy, [t], lifetime) ==
            if Registers(host, policy, t)
            then [ServiceDescriptor(ServiceTypeOf(host, policy, t).value, t, lifetime)]
            else []
  {
    assert [t][..0] == [];
  }

  /** The commit loop is "filter, then map": the implementations registered
      are, in order and with repetitions, exactly the candidates the guard
      accepts, each under the service type its policy yields. */
  lemma {:induction false} RegistrationsAsFilter(host: Host, policy: Policy, types: seq<Type>,
                                                 lifetime: ServiceLifetime)
    ensures var r := Registrations(host, policy, types, lifetime);
            var accepted := Where(types, Eligible(host, policy));
            && |r| == |accepted|
            && forall i :: 0 <= i < |r| ==>
                 && r[i].implementationType == accepted[i]
                 && ServiceTypeOf(host, policy, accepted[i]) == Some(r[i].serviceType)
                 && r[i].lifetime == lifetime
    decreases |types|
  {
    if |types| > 0 {
      RegistrationsAsFilter(host, policy, types[..|types| - 1], lifetime);
    }
  }

  /** The constructor's default policy registers exactly as `WithService`
      with the discovery target would. */
  lemma {:induction false} TargetIsWithService(host: Host, x: Type, types: seq<Type>,
                                               lifetime: ServiceLifetime)
    ensures Registrations(host, Target(x), types, lifetime) ==
            Registrations(host, Explicit(x), types, lifetime)
    decreases |types|
  {
    if |types| > 0 {
      TargetIsWithService(host, x, types[..|types| - 1], lifetime);
    }
  }

  /** `Scoped` and `AsSingleton` register the same (service, implementation)
      pairs in the same order; only the lifetime differs. */
  lemma ScopedAndSingletonAgree(host: Host, c: Context)
    ensures |Scoped(host, c).services| == |AsSingleton(host, c).services|
    ensures forall k :: |c.services| <= k < |Scoped(host, c).services| ==>
              Scoped(host, c).services[k] ==
              AsSingleton(host, c).services[k].(lifetime := ServiceLifetime.Scoped)
  {
    RegistrationsAsFilter(host, c.policy, c.types, ServiceLifetime.Scoped);
    RegistrationsAsFilter(host, c.policy, c.types, ServiceLifetime.Singleton);
  }

  /** Committing leaves candidates and policy in place, so a second commit
      appends the very same descriptors a second time. */
  lemma CommitTwice(host: Host, c: Context, lifetime: ServiceLifetime)
    ensures var once := Commit(host, c, lifetime);
            var added := once.services[|c.services|..];
            Commit(host, once, lifetime).services == c.services + added + added
  {
  }

  /** After `WithService(x)`, every committed descriptor has service type `x`
      and an implementation assignable to `x`, and every candidate assignable
      to `x` is committed. */
  lemma WithServiceCommit(host: Host, c: Context, x: Type, lifetime: ServiceLifetime)
    ensures var r := Commit(host, WithService(c, x), lifetime);
            forall k :: |c.services| <= k < |r.services| ==>
              r.services[k].serviceType == x && host.isAssignableFrom(x, r.services[k].implementationType)
    ensures var r := Commit(host, WithService(c, x), lifetime);
            forall t :: t in c.types && host.isAssignableFrom(x, t) ==>
              ServiceDescriptor(x, t, lifetime) in r.services[|c.services|..]
  {
    var r := Commit(host, WithService(c, x), lifetime);
    var added := Registrations(host, Explicit(x), c.types, lifetime);
    RegistrationsSound(host, Explicit(x), c.types, lifetime);
    RegistrationsComplete(host, Explicit(x), c.types, lifetime);
    assert r.services[|c.services|..] == added;
    forall k | |c.services| <= k < |r.services|
      ensures r.services[k].serviceType == x && host.isAssignableFrom(x, r.services[k].implementationType)
    {
      assert r.services[k] == added[k - |c.services|];
    }
  }

  /** After `AsSelf()`, every committed descriptor registers a type as itself. */
  lemma AsSelfCommit(host: Host, c: Context, lifetime: ServiceLifetime)
    ensures var r := Commit(host, AsSelf(c), lifetime);
            forall k :: |c.services| <= k < |r.services| ==>
              r.services[k].serviceType == r.services[k].implementationType
  {
    var r := Commit(host, AsSelf(c), lifetime);
    var added := Registrations(host, Self, c.types, lifetime);
    RegistrationsSound(host, Self, c.types, lifetime);
    assert r.services == c.services + added;
    forall k | |c.services| <= k < |r.services|
      ensures r.services[k].serviceType == r.services[k].implementationType
    {
      assert r.services[k] == added[k - |c.services|];
    }
  }

  /** When every candidate is assignable to itself, `AsSelf()` commits every
      candidate, in order, as itself. */
  lemma AsSelfCommitsAll(host: Host, c: Context, lifetime: ServiceLifetime)
    requires forall t :: t in c.types ==> host.isAssignableFrom(t, t)
    ensures var r := Commit(host, AsSelf(c), lifetime);
            && |r.services| == |c.services| + |c.types|
            && forall i :: 0 <= i < |c.types| ==>
                 r.services[|c.services| + i] == ServiceDescriptor(c.types[i], c.types[i], lifetime)
  {
    var r := Commit(host, AsSelf(c), lifetime);
    var added := Registrations(host, Self, c.types, lifetime);
    assert r.services == c.services + added;
    WhereAll(c.types, Eligible(host, Self));
    RegistrationsAsFilter(host, Self, c.types, lifetime);
    forall i | 0 <= i < |c.types|
      ensures r.services[|c.services| + i] == ServiceDescriptor(c.types[i], c.types[i], lifetime)
    {
      assert r.services[|c.services| + i] == added[i];
    }
  }

  /** A candidate that occurs at most once is never committed after `Except`
      names it, whatever the policy. */
  lemma ExceptRemovesFromCommit(host: Host, c: Context, t: Type, lifetime: ServiceLifetime)
    requires multiset(c.types)[t] <= 1
    ensures var r := Commit(host, Except(c, t), lifetime);
            forall k :: |c.services| <= k < |r.services| ==> r.services[k].implementationType != t
  {
    var e := Except(c, t);
    assert multiset(e.types)[t] == 0;
    assert t !in e.types;
  }

  /** `Except` called once for each type of `ts`, in order. */
  function ExceptAll(c: Context, ts: seq<Type>): Context
    decreases |ts|
  {
    if |ts| == 0 then c else ExceptAll(Except(c, ts[0]), ts[1..])
  }

  /** Each exclusion takes one copy of its type out of the candidates and
      touches nothing else. */
  lemma {:induction false} ExceptAllCount(c: Context, ts: seq<Type>)
    ensures ExceptAll(c, ts).services == c.services && ExceptAll(c, ts).policy == c.policy
    ensures multiset(ExceptAll(c, ts).types) == multiset(c.types) - multiset(ts)
    decreases |ts|
  {
    if |ts| > 0 {
      var t, rest := ts[0], ts[1..];
      var e := Except(c, t);
      assert multiset(e.types) == multiset(c.types) - multiset{t};
      assert ExceptAll(c, ts) == ExceptAll(e, rest);
      ExceptAllCount(e, rest);
      MultisetOfCons(ts);
      DifferenceOfSum(multiset(c.types), multiset{t}, multiset(rest));
    }
  }

  /** Excluding every candidate (as often as it occurs) leaves nothing to
      commit: the collection comes back as it was, whatever the policy. */
  lemma ExcludingEveryCandidateCommitsNothing(host: Host, c: Context, ts: seq<Type>,
                                              lifetime: ServiceLifetime)
    requires multiset(c.types) <= multiset(ts)
    ensures Commit(host, ExceptAll(c, ts), lifetime).services == c.services
  {
    ExceptAllCount(c, ts);
    var e := ExceptAll(c, ts);
    assert multiset(e.types) == multiset{};
    assert |e.types| == 0;
  }

  /** Committing is "filter, then map" on the candidate list: the added
      descriptors are, in order and with repetitions, the candidates the
      guard accepts, each under the service type the policy yields for it. */
  lemma CommitRegistersAccepted(host: Host, c: Context, lifetime: ServiceLifetime)
    ensures var r := Commit(host, c, lifetime);
            var accepted := Where(c.types, Eligible(host, c.policy));
            && |r.services| == |c.services| + |accepted|
            && forall i :: 0 <= i < |accepted| ==>
                 && r.services[|c.services| + i].implementationType == accepted[i]
                 && ServiceTypeOf(host, c.policy, accepted[i]) == Some(r.services[|c.services| + i].serviceType)
                 && r.services[|c.services| + i].lifetime == lifetime
  {
    var r := Commit(host, c, lifetime);
    var added := Registrations(host, c.policy, c.types, lifetime);
    assert r.services == c.services + added;
    RegistrationsAsFilter(host, c.policy, c.types, lifetime);
    forall i | 0 <= i < |added| ensures r.services[|c.services| + i] == added[i] {
    }
  }
}
