/**
 What hangs outside the 2-core of a graph: sets of edges outside it have no more edges than vertices
 outside it, so that a vertex outside a connected part has at most one edge to that part.
 */
module Forests {
  import opened Counting
  import opened Graphs

  /** The vertices of a set of edges */
  ghost function VerticesOf(ends: seq<Edge>, s: set<nat>): (vs: set<nat>)
    requires forall e :: e in s ==> e < |ends|
    ensures forall v: nat :: v in vs <==> EndOf(ends, s, v)
  {
    (set e | e in s :: ends[e].a) + (set e | e in s :: ends[e].b)
  }

  ghost predicate InRange(ends: seq<Edge>, s: set<nat>) {
    forall e :: e in s ==> e < |ends|
  }

  /** The largest core */
  ghost predicate IsTwoCore(ends: seq<Edge>, core: set<nat>) {
    Core(ends, core) && forall e :: e in core <==> 0 <= e < |ends| && InTwoCore(ends, e)
  }

  lemma ForestHasEmptyCore(ends: seq<Edge>)
    requires Acyclic(ends)
    ensures IsTwoCore(ends, {})
  {
  }

  lemma TwoCoreIsCore(ends: seq<Edge>, core: set<nat>)
    requires IsTwoCore(ends, core)
    ensures Core(ends, core) && InRange(ends, core)
  {
  }

  lemma LargerIsNoCore(ends: seq<Edge>, core: set<nat>, s: set<nat>, x: nat)
    requires IsTwoCore(ends, core) && x in s && x !in core
    ensures !Core(ends, s)
  {
    assert x < |ends| ==> !InTwoCore(ends, x);
  }

  /** In a set of edges outside the 2-core, some vertex has just one edge of the set and of the 2-core. */
  lemma LeafExists(ends: seq<Edge>, core: set<nat>, s: set<nat>) returns (e: nat, v: nat)
    requires IsTwoCore(ends, core) && s != {} && s !! core && InRange(ends, s)
    ensures e in s && ends[e].Has(v) && !Shared(ends, s, e, v) && !EndOf(ends, core, v)
  {
    var x :| x in s;
    LargerIsNoCore(ends, core, s + core, x);
    TwoCoreIsCore(ends, core);
    hide IsTwoCore;
    e, v := LoneEnd(ends, s + core);
    LoneOutside(ends, core, s, e, v);
  }

  lemma LoneEnd(ends: seq<Edge>, s: set<nat>) returns (e: nat, v: nat)
    requires InRange(ends, s) && !Core(ends, s)
    ensures e in s && ends[e].Has(v) && !Shared(ends, s, e, v)
  {
    e, v :| e in s && ends[e].Has(v) && !Shared(ends, s, e, v);
  }

  lemma LoneOutside(ends: seq<Edge>, core: set<nat>, s: set<nat>, e: nat, v: nat)
    requires Core(ends, core) && s !! core && InRange(ends, s)
    requires e in s + core && ends[e].Has(v) && !Shared(ends, s + core, e, v)
    ensures e in s && !Shared(ends, s, e, v) && !EndOf(ends, core, v)
  {
    hide Shared, EndOf;
    NotEndOf(ends, s + core, core, e, v);
    SharedInLarger(ends, s, s + core, e, v);
    SharedInLarger(ends, core, s + core, e, v);
  }

  lemma NotEndOf(ends: seq<Edge>, all: set<nat>, core: set<nat>, e: nat, v: nat)
    requires core <= all && !Shared(ends, all, e, v)
    ensures EndOf(ends, core, v) ==> e in core
  {
  }

  lemma SharedInLarger(ends: seq<Edge>, s: set<nat>, t: set<nat>, e: nat, v: nat)
    requires s <= t
    ensures Shared(ends, s, e, v) ==> Shared(ends, t, e, v)
  {
  }

  /** Edges outside the 2-core are at most as many as their vertices outside the 2-core; they are fewer than
      their vertices if none of these is in the 2-core. */
  lemma {:induction false} OutsideIsSmall(ends: seq<Edge>, core: set<nat>, s: set<nat>, n: nat)
    requires IsTwoCore(ends, core) && InRange(ends, core) && EdgesOk(ends, n) && s !! core && InRange(ends, s)
    ensures |s| <= |VerticesOf(ends, s) - VerticesOf(ends, core)|
    ensures s != {} && VerticesOf(ends, s) !! VerticesOf(ends, core) ==> |s| < |VerticesOf(ends, s)|
    decreases |s|
  {
    if s != {} {
      hide IsTwoCore, Shared;
      var e, v := LeafExists(ends, core, s);
      OutsideIsSmall(ends, core, s - {e}, n);
      LeafIsNew(ends, s, e, v);
      assert EdgeOk(ends[e], n);
      var inner := VerticesOf(ends, core);
      assert v !in inner && EndOf(ends, s, ends[e].a) && EndOf(ends, s, ends[e].b);
      hide EndOf, VerticesOf;
      AddLeaf(s, e, VerticesOf(ends, s), VerticesOf(ends, s - {e}), inner, v, ends[e].a, ends[e].b);
    }
  }

  lemma LeafIsNew(ends: seq<Edge>, s: set<nat>, e: nat, v: nat)
    requires InRange(ends, s) && e in s && ends[e].Has(v) && !Shared(ends, s, e, v)
    ensures v in VerticesOf(ends, s) && v !in VerticesOf(ends, s - {e})
    ensures VerticesOf(ends, s - {e}) <= VerticesOf(ends, s)
  {
  }

  lemma AddLeaf(s: set<nat>, e: nat, vs: set<nat>, vs': set<nat>, inner: set<nat>, v: nat, a: nat, b: nat)
    requires e in s && v in vs && v !in vs' && vs' <= vs && v !in inner && a in vs && b in vs && a != b
    requires |s - {e}| <= |vs' - inner|
    requires s - {e} != {} && vs' !! inner ==> |s - {e}| < |vs'|
    ensures |s| <= |vs - inner|
    ensures vs !! inner ==> |s| < |vs|
  {
    SubsetCount((vs' - inner) + {v}, vs - inner);
    SubsetCount(vs' + {v}, vs);
    SubsetCount({a, b}, vs);
    assert |s| == |s - {e}| + 1;
    assert s - {e} == {} ==> |s| == 1;
  }

  /** A connected part: its edges outside the 2-core form a tree, or trees that hang from the 2-core. */
  ghost predicate Hanging(ends: seq<Edge>, core: set<nat>, comp: set<nat>, tree: set<nat>) {
    && InRange(ends, core) && InRange(ends, tree) && tree !! core
    && VerticesOf(ends, tree) <= comp
    && (|tree| == |comp - VerticesOf(ends, core)| || (comp !! VerticesOf(ends, core) && |tree| + 1 == |comp|))
  }

  /** A vertex outside has at most one edge to a connected part. */
  lemma OneEdgeToPart(ends: seq<Edge>, core: set<nat>, n: nat, comp: set<nat>, tree: set<nat>, w: nat, e: nat, f: nat)
    requires IsTwoCore(ends, core) && EdgesOk(ends, n) && Hanging(ends, core, comp, tree)
    requires w !in comp && !EndOf(ends, core, w)
    requires e < |ends| && ends[e].Has(w) && ends[e].Other(w) in comp
    requires f < |ends| && ends[f].Has(w) && ends[f].Other(w) in comp
    ensures e == f && e !in core && e !in tree
  {
    hide IsTwoCore, EndOf, VerticesOf, EdgesOk;
    var s := tree + {e} + {f};
    NotInPart(ends, core, comp, tree, w, e);
    NotInPart(ends, core, comp, tree, w, f);
    OutsideIsSmall(ends, core, s, n);
    TwoMoreVertices(ends, comp, tree, w, e, f);
    OnlyOneMore(tree, e, f, comp, VerticesOf(ends, core), w, VerticesOf(ends, s));
  }

  lemma NotInPart(ends: seq<Edge>, core: set<nat>, comp: set<nat>, tree: set<nat>, w: nat, e: nat)
    requires InRange(ends, tree) && VerticesOf(ends, tree) <= comp && w !in comp && !EndOf(ends, core, w)
    requires e < |ends| && ends[e].Has(w)
    ensures e !in tree && e !in core
  {
    assert e in tree ==> EndOf(ends, tree, w);
  }

  lemma TwoMoreVertices(ends: seq<Edge>, comp: set<nat>, tree: set<nat>, w: nat, e: nat, f: nat)
    requires InRange(ends, tree) && VerticesOf(ends, tree) <= comp
    requires e < |ends| && ends[e].Has(w) && ends[e].Other(w) in comp
    requires f < |ends| && ends[f].Has(w) && ends[f].Other(w) in comp
    ensures VerticesOf(ends, tree + {e} + {f}) <= comp + {w}
  {
    forall v | v in VerticesOf(ends, tree + {e} + {f})
      ensures v in comp + {w}
    {
      var x :| x in tree + {e} + {f} && x < |ends| && ends[x].Has(v);
      assert x in tree ==> EndOf(ends, tree, v);
    }
  }

  /** The counting part: one vertex more does not make room for two edges more. */
  lemma OnlyOneMore(tree: set<nat>, e: nat, f: nat, comp: set<nat>, inner: set<nat>, w: nat, vs: set<nat>)
    requires e !in tree && f !in tree && w !in comp && w !in inner && vs <= comp + {w}
    requires |tree| == |comp - inner| || (comp !! inner && |tree| + 1 == |comp|)
    requires |tree + {e} + {f}| <= |vs - inner| && (vs !! inner ==> |tree + {e} + {f}| < |vs|)
    ensures e == f
  {
    SubsetCount(vs, comp + {w});
    assert (comp + {w}) - inner == (comp - inner) + {w};
    SubsetCount(vs - inner, (comp - inner) + {w});
    SubsetCount(tree + {e}, tree + {e} + {f});
    assert |tree + {e}| == |tree| + 1;
    assert tree + {e} == tree + {e} + {f};
    assert f in tree + {e};
  }

  lemma PartGrows(ends: seq<Edge>, core: set<nat>, comp: set<nat>, tree: set<nat>, w: nat, e: nat)
    requires Hanging(ends, core, comp, tree) && w !in comp && !EndOf(ends, core, w)
    requires e < |ends| && ends[e].Has(w) && ends[e].Other(w) in comp
    ensures e !in tree && e !in core && Hanging(ends, core, comp + {w}, tree + {e})
  {
    hide EndOf, VerticesOf;
    NotInPart(ends, core, comp, tree, w, e);
    TwoMoreVertices(ends, comp, tree, w, e, e);
    assert tree + {e} + {e} == tree + {e};
    var inner := VerticesOf(ends, core);
    assert (comp + {w}) - inner == (comp - inner) + {w};
  }

  /** An edge between two vertices of the 2-core is in the 2-core itself. */
  lemma ChordInCore(ends: seq<Edge>, core: set<nat>, e: nat)
    requires IsTwoCore(ends, core) && e < |ends|
    requires EndOf(ends, core, ends[e].a) && EndOf(ends, core, ends[e].b)
    ensures e in core
  {
    hide Core, Shared, EndOf;
    TwoCoreIsCore(ends, core);
    ChordMakesCore(ends, core, e);
    assert InTwoCore(ends, e);
  }

  lemma ChordMakesCore(ends: seq<Edge>, core: set<nat>, e: nat)
    requires Core(ends, core) && e < |ends|
    requires EndOf(ends, core, ends[e].a) && EndOf(ends, core, ends[e].b)
    ensures Core(ends, core + {e})
  {
    hide Shared, EndOf;
    forall x, v: nat | x in core + {e} && ends[x].Has(v)
      ensures Shared(ends, core + {e}, x, v)
    {
      if x in core {
        SharedInLarger(ends, core, core + {e}, x, v);
      } else {
        EndIsShared(ends, core, e, v);
      }
    }
  }

  lemma EndIsShared(ends: seq<Edge>, core: set<nat>, e: nat, v: nat)
    requires e !in core && EndOf(ends, core, v)
    ensures Shared(ends, core + {e}, e, v)
  {
  }
}
