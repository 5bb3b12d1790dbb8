/**
 `ServiceCollectionExtensions.AddImplementationsOfType`: scans the types of
 every loaded assembly, in assembly order and then in `GetTypes()` order,
 and appends to a fresh context's candidate list each concrete class that
 implements the target. The loaded assemblies are an explicit input here;
 the target's kind (`IsGenericType`) picks which assignability test runs.
 */
module ServiceCollectionExtensions {
  import opened Reflection
  import opened Linq
  import opened DependencyInjection
  import opened SelectedTypesContext

  /** The filter of `WithClassesOfType`: assignable to `typedef`, a class,
      and not abstract. */
  function ClassOfType(host: Host, typedef: Type): Type -> bool
  {
    t => host.isAssignableFrom(typedef, t) && host.isClass(t) && !host.isAbstract(t)
  }

  /** The filter of `WithClassesOfGenericType`: assignable to the generic
      type `typedef`, a class, and not abstract. */
  function ClassOfGenericType(host: Host, typedef: Type): Type -> bool
  {
    t => host.isAssignableToGenericType(t, typedef) && host.isClass(t) && !host.isAbstract(t)
  }

  /** The filter `AddImplementationsOfType` applies, chosen by
      `typedef.IsGenericType` alone. */
  function CandidateFilter(host: Host, typedef: Type): Type -> bool
  {
    if host.isGenericType(typedef) then ClassOfGenericType(host, typedef) else ClassOfType(host, typedef)
  }

  /** What a discovered type satisfies, spelled out for either branch. */
  predicate IsCandidate(host: Host, typedef: Type, t: Type)
  {
    && host.isClass(t)
    && !host.isAbstract(t)
    && (if host.isGenericType(typedef) then host.isAssignableToGenericType(t, typedef)
        else host.isAssignableFrom(typedef, t))
  }

  /** `WithClassesOfType(assembly, typedef, ...)`: the types of one assembly
      that pass the non-generic filter, in `GetTypes()` order. */
  function WithClassesOfType(host: Host, assembly: seq<Type>, typedef: Type): (r: seq<Type>)
    ensures forall t :: t in r <==>
              t in assembly && host.isAssignableFrom(typedef, t) && host.isClass(t) && !host.isAbstract(t)
  {
    Where(assembly, ClassOfType(host, typedef))
  }

  /** `WithClassesOfGenericType(assembly, typedef, ...)`: the types of one
      assembly that pass the generic filter, in `GetTypes()` order. */
  function WithClassesOfGenericType(host: Host, assembly: seq<Type>, typedef: Type): (r: seq<Type>)
    ensures forall t :: t in r <==>
              t in assembly && host.isAssignableToGenericType(t, typedef) && host.isClass(t) && !host.isAbstract(t)
  {
    Where(assembly, ClassOfGenericType(host, typedef))
  }

  /** The candidates discovery collects from `assemblies`: each assembly's
      matching types, assemblies one after the other. Every collected type
      is a concrete class implementing the target, and every such type of
      every assembly is collected. */
  function Discover(host: Host, assemblies: seq<seq<Type>>, typedef: Type): (r: seq<Type>)
    ensures forall t :: t in r ==> IsCandidate(host, typedef, t)
    ensures forall i, j ::
              (0 <= i < |assemblies| && 0 <= j < |assemblies[i]| && IsCandidate(host, typedef, assemblies[i][j]))
              ==> assemblies[i][j] in r
    decreases |assemblies|
  {
    if |assemblies| == 0 then []
    else
      var scanned := assemblies[..|assemblies| - 1];
      var assembly := assemblies[|assemblies| - 1];
      var found := Discover(host, scanned, typedef);
      var r := found +
        (if host.isGenericType(typedef) then WithClassesOfGenericType(host, assembly, typedef)
         else WithClassesOfType(host, assembly, typedef));
      assert forall i, j ::
              (0 <= i < |assemblies| && 0 <= j < |assemblies[i]| && IsCandidate(host, typedef, assemblies[i][j]))
              ==> assemblies[i][j] in r by {
        forall i, j | 0 <= i < |assemblies| && 0 <= j < |assemblies[i]| &&
                      IsCandidate(host, typedef, assemblies[i][j])
          ensures assemblies[i][j] in r
        {
          if i < |assemblies| - 1 {
            assert assemblies[i] == scanned[i];
          }
        }
      }
      r
  }

  /** `AddImplementationsOfType(services, typedef)`: a fresh context on the
      caller's collection, holding the discovered candidates and the default
      policy that maps every candidate to `typedef`. Discovery registers
      nothing. */
  function AddImplementationsOfType(host: Host, services: ServiceCollection,
                                    assemblies: seq<seq<Type>>, typedef: Type): (ctx: Context)
    ensures ctx.services == services
    ensures forall h: Host, t: Type :: ServiceTypeOf(h, ctx.policy, t) == Some(typedef)
    ensures forall t :: t in ctx.types ==> IsCandidate(host, typedef, t)
    ensures forall i, j ::
              (0 <= i < |assemblies| && 0 <= j < |assemblies[i]| && IsCandidate(host, typedef, assemblies[i][j]))
              ==> assemblies[i][j] in ctx.types
    ensures ctx.types == Where(Concat(assemblies), CandidateFilter(host, typedef))
  {
    DiscoverIsFilterOfConcat(host, assemblies, typedef);
    var ctx := New(services, typedef);
    ctx.(types := ctx.types + Discover(host, assemblies, typedef))
  }

  /** The loops of `AddImplementationsOfType`: the branch on
      `typedef.IsGenericType` is taken once, then every assembly is walked
      and each matching type is appended to `Types` as it is met. */
  method CollectCandidates(host: Host, assemblies: seq<seq<Type>>, typedef: Type) returns (types: seq<Type>)
    ensures types == Discover(host, assemblies, typedef)
  {
    var keep := CandidateFilter(host, typedef);
    types := [];
    var i := 0;
    while i < |assemblies|
      invariant 0 <= i <= |assemblies|
      invariant types == Discover(host, assemblies[..i], typedef)
    {
      var assembly := assemblies[i];
      var j := 0;
      ghost var before := types;
      while j < |assembly|
        invariant 0 <= j <= |assembly|
        invariant types == before + Where(assembly[..j], keep)
      {
        assert assembly[..j + 1][..j] == assembly[..j];
        if keep(assembly[j]) {
          types := types + [assembly[j]];
        }
        j := j + 1;
      }
      assert assembly[..j] == assembly;
      assert assemblies[..i + 1][..i] == assemblies[..i];
      i := i + 1;
    }
    assert assemblies[..i] == assemblies;
  }

  /** Scanning assembly by assembly is filtering the concatenation of all
      assemblies: candidates keep their `GetTypes()` order within an
      assembly and the assembly order across them. */
  lemma {:induction false} DiscoverIsFilterOfConcat(host: Host, assemblies: seq<seq<Type>>, typedef: Type)
    ensures Discover(host, assemblies, typedef) == Where(Concat(assemblies), CandidateFilter(host, typedef))
    decreases |assemblies|
  {
    if |assemblies| > 0 {
      var scanned := assemblies[..|assemblies| - 1];
      var assembly := assemblies[|assemblies| - 1];
      DiscoverIsFilterOfConcat(host, scanned, typedef);
      WhereAppend(Concat(scanned), assembly, CandidateFilter(host, typedef));
    }
  }

  /** Discovery never deduplicates: a candidate is collected once for every
      time an assembly lists it, and a non-candidate never. */
  lemma DiscoverCount(host: Host, assemblies: seq<seq<Type>>, typedef: Type, t: Type)
    ensures multiset(Discover(host, assemblies, typedef))[t] ==
            (if IsCandidate(host, typedef, t) then multiset(Concat(assemblies))[t] else 0)
  {
    DiscoverIsFilterOfConcat(host, assemblies, typedef);
    WhereCount(Concat(assemblies), CandidateFilter(host, typedef), t);
  }

  /** Discovery over `a + b` is discovery over `a` followed by discovery over `b`. */
  lemma DiscoverAppend(host: Host, a: seq<seq<Type>>, b: seq<seq<Type>>, typedef: Type)
    ensures Discover(host, a + b, typedef) == Discover(host, a, typedef) + Discover(host, b, typedef)
  {
    ConcatAppend(a, b);
    DiscoverIsFilterOfConcat(host, a + b, typedef);
    DiscoverIsFilterOfConcat(host, a, typedef);
    DiscoverIsFilterOfConcat(host, b, typedef);
    WhereAppend(Concat(a), Concat(b), CandidateFilter(host, typedef));
  }

  /** The branch is chosen by `typedef.IsGenericType` alone: for a
      non-generic target the generic assignability test is never consulted,
      and for a generic target plain assignability is never consulted. */
  lemma BranchOnIsGenericType(host: Host, assemblies: seq<seq<Type>>, typedef: Type,
                              other: (Type, Type) -> bool)
    ensures !host.isGenericType(typedef) ==>
              Discover(host.(isAssignableToGenericType := other), assemblies, typedef) ==
              Discover(host, assemblies, typedef)
    ensures host.isGenericType(typedef) ==>
              Discover(host.(isAssignableFrom := other), assemblies, typedef) ==
              Discover(host, assemblies, typedef)
  {
    var types := Concat(assemblies);
    DiscoverIsFilterOfConcat(host, assemblies, typedef);
    if host.isGenericType(typedef) {
      var h := host.(isAssignableFrom := other);
      DiscoverIsFilterOfConcat(h, assemblies, typedef);
      WhereExtensional(types, CandidateFilter(h, typedef), CandidateFilter(host, typedef));
    } else {
      var h := host.(isAssignableToGenericType := other);
      DiscoverIsFilterOfConcat(h, assemblies, typedef);
      WhereExtensional(types, CandidateFilter(h, typedef), CandidateFilter(host, typedef));
    }
  }
}
