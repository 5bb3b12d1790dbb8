/**
 The few sequence operators of the .NET base library that the pipeline
 uses: `Enumerable.Where`, `FirstOrDefault`, `LastOrDefault`, and
 `List<T>.Remove`. Each is stated by what it keeps, in which order and
 how often, so that the pipeline's contracts can be read off them.
 */
module Linq {
  import opened Reflection

  /** `Enumerable.Where`: the elements of `s` satisfying `p`, in the order of
      `s`, each as often as it occurs in `s` (no deduplication). */
  function Where<T(==,!new)>(s: seq<T>, p: T -> bool): (r: seq<T>)
    ensures |r| <= |s|
    ensures forall x :: x in r <==> x in s && p(x)
    decreases |s|
  {
    if |s| == 0 then []
    else
      var last := s[|s| - 1];
      var init := Where(s[..|s| - 1], p);
      assert s == s[..|s| - 1] + [last];
      if p(last) then init + [last] else init
  }

  /** `Where` keeps every satisfying element as often as it occurs in `s`
      and drops every other one: it never deduplicates. */
  lemma {:induction false} WhereCount<T(!new)>(s: seq<T>, p: T -> bool, x: T)
    ensures multiset(Where(s, p))[x] == (if p(x) then multiset(s)[x] else 0)
    decreases |s|
  {
    if |s| > 0 {
      var last := s[|s| - 1];
      assert s == s[..|s| - 1] + [last];
      WhereCount(s[..|s| - 1], p, x);
    }
  }

  /** Filtering commutes with concatenation: the result for `a + b` is the
      result for `a` followed by the result for `b`. Together with the
      one-element case this fixes the order of `Where` completely. */
  lemma {:induction false} WhereAppend<T(!new)>(a: seq<T>, b: seq<T>, p: T -> bool)
    ensures Where(a + b, p) == Where(a, p) + Where(b, p)
    decreases |b|
  {
    if |b| == 0 {
      assert a + b == a;
    } else {
      var ab := a + b;
      var init := b[..|b| - 1];
      var x := b[|b| - 1];
      assert ab[..|ab| - 1] == a + init;
      assert ab[|ab| - 1] == x;
      assert Where(ab, p) == if p(x) then Where(a + init, p) + [x] else Where(a + init, p);
      assert Where(b, p) == if p(x) then Where(init, p) + [x] else Where(init, p);
      WhereAppend(a, init, p);
    }
  }

  /** `Where` over a single element keeps it exactly when it satisfies `p`. */
  lemma WhereSingle<T(!new)>(x: T, p: T -> bool)
    ensures Where([x], p) == (if p(x) then [x] else [])
  {
    assert [x][..0] == [];
  }

  /** `Where` only looks at the values of its predicate: two predicates that
      agree on every element of `s` select the same elements. */
  lemma {:induction false} WhereExtensional<T(!new)>(s: seq<T>, p: T -> bool, q: T -> bool)
    requires forall i :: 0 <= i < |s| ==> p(s[i]) == q(s[i])
    ensures Where(s, p) == Where(s, q)
    decreases |s|
  {
    if |s| > 0 {
      WhereExtensional(s[..|s| - 1], p, q);
    }
  }

  /** A predicate every element satisfies keeps the whole sequence. */
  lemma {:induction false} WhereAll<T(!new)>(s: seq<T>, p: T -> bool)
    requires forall i :: 0 <= i < |s| ==> p(s[i])
    ensures Where(s, p) == s
    decreases |s|
  {
    if |s| > 0 {
      WhereAll(s[..|s| - 1], p);
      assert s == s[..|s| - 1] + [s[|s| - 1]];
    }
  }

  /** A predicate no element satisfies keeps nothing. */
  lemma {:induction false} WhereNone<T(!new)>(s: seq<T>, p: T -> bool)
    requires forall i :: 0 <= i < |s| ==> !p(s[i])
    ensures Where(s, p) == []
    decreases |s|
  {
    if |s| > 0 {
      WhereNone(s[..|s| - 1], p);
    }
  }

  /** `Enumerable.SelectMany` with the identity selector: the sequences of
      `ss` one after the other. */
  function Concat<T>(ss: seq<seq<T>>): seq<T>
    decreases |ss|
  {
    if |ss| == 0 then [] else Concat(ss[..|ss| - 1]) + ss[|ss| - 1]
  }

  /** Concatenation of `a + b` is the concatenation of `a` followed by that of `b`. */
  lemma {:induction false} ConcatAppend<T>(a: seq<seq<T>>, b: seq<seq<T>>)
    ensures Concat(a + b) == Concat(a) + Concat(b)
    decreases |b|
  {
    if |b| == 0 {
      assert a + b == a;
    } else {
      var ab := a + b;
      assert ab[..|ab| - 1] == a + b[..|b| - 1];
      assert ab[|ab| - 1] == b[|b| - 1];
      ConcatAppend(a, b[..|b| - 1]);
    }
  }

  /** `Enumerable.FirstOrDefault` on a sequence of references. */
  function FirstOrDefault<T>(s: seq<T>): Option<T>
  {
    if |s| == 0 then None else Some(s[0])
  }

  /** `Enumerable.LastOrDefault` on a sequence of references. */
  function LastOrDefault<T>(s: seq<T>): Option<T>
  {
    if |s| == 0 then None else Some(s[|s| - 1])
  }

  /** `Enumerable.FirstOrDefault(predicate)`: the earliest element satisfying
      `p`, or `None` when no element does. */
  function FirstOrDefaultWhere<T(==)>(s: seq<T>, p: T -> bool): (r: Option<T>)
    ensures r.None? <==> forall i :: 0 <= i < |s| ==> !p(s[i])
    ensures r.Some? ==>
              exists i :: 0 <= i < |s| && s[i] == r.value && p(s[i]) &&
                          forall j :: 0 <= j < i ==> !p(s[j])
    decreases |s|
  {
    if |s| == 0 then None
    else if p(s[0]) then
      assert s[0] == s[0] && p(s[0]);
      Some(s[0])
    else
      var r := FirstOrDefaultWhere(s[1..], p);
      if r.Some? then
        var k :| 0 <= k < |s[1..]| && s[1..][k] == r.value && p(s[1..][k]) &&
                 forall j :: 0 <= j < k ==> !p(s[1..][j]);
        assert s[k + 1] == r.value && p(s[k + 1]);
        assert forall j :: 0 <= j < k + 1 ==> !p(s[j]) by {
          forall j | 0 <= j < k + 1 ensures !p(s[j]) {
            if j > 0 { assert s[j] == s[1..][j - 1]; }
          }
        }
        r
      else
        assert forall i :: 0 <= i < |s| ==> !p(s[i]) by {
          forall i | 0 <= i < |s| ensures !p(s[i]) {
            if i > 0 { assert s[i] == s[1..][i - 1]; }
          }
        }
        r
  }

  /** Position of the first occurrence of `x` in `s`. */
  function IndexOf<T(==)>(s: seq<T>, x: T): (i: nat)
    requires x in s
    ensures i < |s| && s[i] == x
    ensures x !in s[..i]
    decreases |s|
  {
    if s[0] == x then 0
    else
      var k := IndexOf(s[1..], x);
      assert s[..k + 1] == [s[0]] + s[1..][..k];
      k + 1
  }

  /** `List<T>.Remove`: deletes the first occurrence of `x`; leaves `s` as
      it is when `x` is absent. */
  function Remove<T(==)>(s: seq<T>, x: T): (r: seq<T>)
    ensures x !in s ==> r == s
    ensures x in s ==> |r| == |s| - 1
    decreases |s|
  {
    if |s| == 0 then []
    else if s[0] == x then s[1..]
    else [s[0]] + Remove(s[1..], x)
  }

  /** Exactly one copy of `x` leaves the multiset of elements, when there is one. */
  lemma {:induction false} RemoveCount<T>(s: seq<T>, x: T)
    ensures multiset(Remove(s, x)) == multiset(s) - multiset{x}
    decreases |s|
  {
    if |s| > 0 {
      assert s == [s[0]] + s[1..];
      if s[0] != x {
        RemoveCount(s[1..], x);
      }
    }
  }

  /** The element `Remove` deletes is the first occurrence of `x`, and the
      elements before and after it keep their relative order. */
  lemma {:induction false} RemoveFirstOccurrence<T>(s: seq<T>, x: T)
    requires x in s
    ensures Remove(s, x) == s[..IndexOf(s, x)] + s[IndexOf(s, x) + 1..]
    decreases |s|
  {
    if s[0] != x {
      var tail := s[1..];
      assert x in tail;
      var k := IndexOf(tail, x);
      assert IndexOf(s, x) == k + 1;
      assert Remove(s, x) == [s[0]] + Remove(tail, x);
      RemoveFirstOccurrence(tail, x);
      assert s[..k + 1] == [s[0]] + tail[..k];
      assert s[k + 2..] == tail[k + 1..];
    }
  }

  /** The elements of a non-empty sequence are its head and those of its tail. */
  lemma MultisetOfCons<T>(s: seq<T>)
    requires |s| > 0
    ensures multiset(s) == multiset{s[0]} + multiset(s[1..])
  {
    assert s == [s[0]] + s[1..];
  }

  /** Taking away `a` and then `b` takes away `a + b`. */
  lemma DifferenceOfSum<T>(m: multiset<T>, a: multiset<T>, b: multiset<T>)
    ensures (m - a) - b == m - (a + b)
  {
    assert forall x :: ((m - a) - b)[x] == (m - (a + b))[x];
  }
}
