/**
 Counting: different numbers below a bound are at most as many as the bound, and
 when they are as many, none is missing.
 */
module Counting {

  ghost predicate Distinct<T>(s: seq<T>) {
    forall i, j :: 0 <= i < j < |s| ==> s[i] != s[j]
  }

  lemma DistinctCons<T>(x: T, s: seq<T>)
    requires Distinct(s) && x !in s
    ensures Distinct([x] + s)
  {
    forall i, j | 0 <= i < j < |s| + 1
      ensures ([x] + s)[i] != ([x] + s)[j]
    {
      assert s[j - 1] in s;
    }
  }

  ghost function Elements<T(!new)>(s: seq<T>): (r: set<T>)
    ensures forall x :: x in r <==> x in s
  {
    if s == [] then {} else Elements(s[..|s| - 1]) + {s[|s| - 1]}
  }

  ghost function UpTo(m: nat): (r: set<nat>)
    ensures |r| == m
    ensures forall x: nat :: x in r <==> x < m
  {
    if m == 0 then {} else UpTo(m - 1) + {m - 1}
  }

  lemma {:induction false} ElementsCount<T(!new)>(s: seq<T>)
    requires Distinct(s)
    ensures |Elements(s)| == |s|
  {
    if s != [] {
      ElementsCount(s[..|s| - 1]);
    }
  }

  lemma {:induction false} SubsetCount<T>(a: set<T>, b: set<T>)
    requires a <= b
    ensures |a| <= |b|
    ensures |a| == |b| ==> a == b
  {
    if a != {} {
      var x :| x in a;
      SubsetCount(a - {x}, b - {x});
    }
  }

  lemma DistinctBelow(s: seq<nat>, m: nat)
    requires Distinct(s) && forall i :: 0 <= i < |s| ==> s[i] < m
    ensures |s| <= m
    ensures |s| == m ==> forall x :: 0 <= x < m ==> x in s
  {
    ElementsCount(s);
    SubsetCount(Elements(s), UpTo(m));
    if |s| == m {
      forall x | 0 <= x < m
        ensures x in s
      {
        assert x in UpTo(m);
      }
    }
  }

  /** When some number is missing, there is room for it. */
  lemma RoomFor(s: seq<nat>, m: nat, missing: nat)
    requires Distinct(s) && forall i :: 0 <= i < |s| ==> s[i] < m
    requires missing < m && missing !in s
    ensures |s| < m
  {
    DistinctBelow(s + [missing], m);
  }

  /** When `n` numbers leave out none below `n`, they are all different. */
  lemma OntoIsDistinct(s: seq<nat>, n: nat)
    requires |s| == n && forall x :: 0 <= x < n ==> x in s
    ensures Distinct(s)
  {
    SubsetCount(UpTo(n), Elements(s));
    AsManyElements(s);
  }

  lemma {:induction false} AsManyElements<T(!new)>(s: seq<T>)
    requires |Elements(s)| >= |s|
    ensures Distinct(s)
  {
    if s != [] {
      var last := |s| - 1;
      var rest := s[..last];
      ElementsAtMost(rest);
      NewElement(s, rest, s[last]);
      AsManyElements(rest);
      hide Elements;
      DistinctSnoc(rest, s[last]);
      assert s == rest + [s[last]];
    }
  }

  lemma NewElement<T(!new)>(s: seq<T>, rest: seq<T>, x: T)
    requires s == rest + [x] && |Elements(s)| >= |s| && |Elements(rest)| <= |rest|
    ensures x !in rest && |Elements(rest)| >= |rest|
  {
    assert s[..|s| - 1] == rest;
    var e := Elements(rest);
    assert Elements(s) == e + {x};
    hide Elements;
    AddElement(e, x);
  }

  lemma AddElement<T>(e: set<T>, x: T)
    ensures |e + {x}| == if x in e then |e| else |e| + 1
  {
    if x in e {
      assert e + {x} == e;
    }
  }

  lemma DistinctSnoc<T>(s: seq<T>, x: T)
    requires Distinct(s) && x !in s
    ensures Distinct(s + [x])
  {
    forall i, j | 0 <= i < j < |s| + 1
      ensures (s + [x])[i] != (s + [x])[j]
    {
      assert s[i] in s;
    }
  }

  lemma {:induction false} ElementsAtMost<T(!new)>(s: seq<T>)
    ensures |Elements(s)| <= |s|
  {
    if s != [] {
      ElementsAtMost(s[..|s| - 1]);
    }
  }
}
