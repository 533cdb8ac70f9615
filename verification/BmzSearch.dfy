/**
 What the first half of BMZ's search (bmz.c) does, as a function of the graph: which vertex gets which label, in which
 order, and how the search ends.
 */
module BmzSearch {
  import opened Graphs
  import opened Forests
  import opened Visits

  /** No two edges join the same vertices. */
  ghost predicate Simple(ends: seq<Edge>) {
    forall e, f :: 0 <= e < f < |ends| ==> !Joins(ends[f], ends[e].a, ends[e].b)
  }

  /** The vertex is in the 2-core. */
  ghost predicate IsCritical(ends: seq<Edge>, v: nat) {
    exists e: nat :: e < |ends| && ends[e].Has(v) && InTwoCore(ends, e)
  }

  ghost function CriticalOf(ends: seq<Edge>, n: nat): (crit: seq<bool>)
    ensures |crit| == n && forall v: nat :: v < n ==> (crit[v] <==> IsCritical(ends, v))
  {
    seq(n, v requires 0 <= v < n => IsCritical(ends, v))
  }

  lemma CriticalOnes(ends: seq<Edge>, core: set<nat>, crit: seq<bool>)
    requires IsTwoCore(ends, core) && CriticalNodes(ends, core, crit)
    ensures crit == CriticalOf(ends, |crit|)
  {
    hide Core, InTwoCore;
    forall v: nat | v < |crit|
      ensures crit[v] <==> IsCritical(ends, v)
    {
      if e :| 0 <= e < |ends| && ends[e].Has(v) && InTwoCore(ends, e) {
        assert e in core;
      }
    }
  }

  /** Without critical vertices there is no cycle, and the other way round. */
  lemma NoneCritical(ends: seq<Edge>, n: nat)
    requires EdgesOk(ends, n)
    ensures Acyclic(ends) <==> forall v: nat :: v < n ==> !CriticalOf(ends, n)[v]
  {
    hide Core, EdgesOk, InTwoCore;
    var crit := CriticalOf(ends, n);
    if v: nat :| v < n && IsCritical(ends, v) {
      assert crit[v];
      var e: nat :| e < |ends| && ends[e].Has(v) && InTwoCore(ends, e);
      NotAcyclic(ends, e);
    } else {
      forall core: set<nat> | Core(ends, core)
        ensures core == {}
      {
        if e :| e in core {
          EndIsCritical(ends, core, e, n);
        }
      }
    }
  }

  lemma NotAcyclic(ends: seq<Edge>, e: nat)
    requires InTwoCore(ends, e)
    ensures !Acyclic(ends)
  {
    hide Core;
  }

  lemma EndIsCritical(ends: seq<Edge>, core: set<nat>, e: nat, n: nat)
    requires Core(ends, core) && e in core && EdgesOk(ends, n)
    ensures e < |ends| && ends[e].a < n && IsCritical(ends, ends[e].a)
  {
    hide Shared;
    assert InTwoCore(ends, e) && EdgeOk(ends[e], n);
  }

  // ---------- the edges of a vertex ----------

  /** Of the first `k` edges those at `v`, in the order of the vertex's list: the last one added comes first. */
  function EdgesDown(ends: seq<Edge>, v: nat, k: nat): (ids: seq<nat>)
    requires k <= |ends|
    ensures forall j :: 0 <= j < |ids| ==> ids[j] < k && ends[ids[j]].Has(v)
  {
    if k == 0 then [] else (if ends[k - 1].Has(v) then [k - 1] else []) + EdgesDown(ends, v, k - 1)
  }

  function Around(ends: seq<Edge>, v: nat): (ids: seq<nat>)
    ensures forall j :: 0 <= j < |ids| ==> ids[j] < |ends| && ends[ids[j]].Has(v)
  {
    EdgesDown(ends, v, |ends|)
  }

  /** These are all the edges at `v`. */
  lemma {:induction false} EdgeIsDown(ends: seq<Edge>, v: nat, k: nat, e: nat)
    requires e < k <= |ends| && ends[e].Has(v)
    ensures e in EdgesDown(ends, v, k)
  {
    if e < k - 1 {
      EdgeIsDown(ends, v, k - 1, e);
    }
  }

  /** The lists of the graph are in this order. */
  ghost predicate InOrder(ends: seq<Edge>, adj: seq<seq<nat>>, m: nat) {
    forall v :: 0 <= v < |adj| ==> Ids(adj[v], m) == Around(ends, v)
  }

  lemma InOrderNone(adj: seq<seq<nat>>, m: nat)
    requires forall v :: 0 <= v < |adj| ==> adj[v] == []
    ensures InOrder([], adj, m)
  {
  }

  lemma {:induction false} EdgesDownSame(ends: seq<Edge>, t: Edge, v: nat, k: nat)
    requires k <= |ends|
    ensures EdgesDown(ends + [t], v, k) == EdgesDown(ends, v, k)
  {
    if k != 0 {
      EdgesDownSame(ends, t, v, k - 1);
    }
  }

  /** Adding an edge to the graph keeps the order. */
  lemma InOrderMore(ends: seq<Edge>, adj: seq<seq<nat>>, m: nat, t: Edge)
    requires InOrder(ends, adj, m) && |ends| < m && EdgeOk(t, |adj|)
    ensures InOrder(ends + [t], LinkedAdj(adj, |ends|, t, m), m)
  {
    hide LinkedAdj, Ids, Around;
    forall v | 0 <= v < |adj|
      ensures Ids(LinkedAdj(adj, |ends|, t, m)[v], m) == Around(ends + [t], v)
    {
      ListMore(ends, adj, m, t, v);
    }
  }

  lemma ListMore(ends: seq<Edge>, adj: seq<seq<nat>>, m: nat, t: Edge, v: nat)
    requires |ends| < m && EdgeOk(t, |adj|) && v < |adj| && Ids(adj[v], m) == Around(ends, v)
    ensures Ids(LinkedAdj(adj, |ends|, t, m)[v], m) == Around(ends + [t], v)
  {
    var e := |ends|;
    EdgesDownSame(ends, t, v, e);
    if t.Has(v) {
      IdsMore(adj[v], e, if v == t.a then e else e + m, m);
    }
  }

  lemma IdsMore(list: seq<nat>, e: nat, half: nat, m: nat)
    requires e < m && (half == e || half == e + m)
    ensures Ids([half] + list, m) == [e] + Ids(list, m)
  {
    HalfModulo(half, m);
    var ids, more := Ids(list, m), Ids([half] + list, m);
    assert more[0] == e;
    assert forall j :: 0 <= j < |list| ==> more[j + 1] == ids[j];
  }

  // ---------- labels ----------

  /** A state of the search. The labels that were skipped, and the queue, are those of the current component. */
  datatype Stage = Stage(vis: seq<bool>, g: seq<nat>, used: seq<bool>, biggestG: nat, biggestEdge: nat,
                         unused: seq<nat>, queue: seq<nat>)

  ghost predicate Shaped(ends: seq<Edge>, crit: seq<bool>, st: Stage) {
    |st.vis| == |st.g| == |crit| && |st.used| == |ends| && EdgesOk(ends, |crit|)
  }

  /** What the neighbours say of a label, in the order of the list */
  datatype Verdict = Fitting | Collides | TooLarge

  /** The neighbours by the edges from place `k` on */
  ghost function Judged(ends: seq<Edge>, st: Stage, u: nat, x: nat, k: nat): (r: Verdict)
    requires Shaped(ends, st.vis, st)
    ensures r.Collides? ==> x < |st.used|
    decreases |Around(ends, u)| - k
  {
    var ids := Around(ends, u);
    if k >= |ids| then Fitting
    else
      assert EdgeOk(ends[ids[k]], |st.vis|);
      var w := ends[ids[k]].Other(u);
      if !st.vis[w] then Judged(ends, st, u, x, k + 1)
      else if x + st.g[w] >= |st.used| then TooLarge
      else if st.used[x + st.g[w]] then Collides
      else Judged(ends, st, u, x, k + 1)
  }

  /** The label for a vertex, and the labels that stay skipped */
  datatype Choice = Take(value: nat, unused: seq<nat>) | GiveUp

  /** The labels from `y` on are tried one after the other; those that collide are skipped. */
  ghost function TakeAbove(ends: seq<Edge>, st: Stage, u: nat, y: nat, skipped: seq<nat>): (r: Choice)
    requires Shaped(ends, st.vis, st)
    decreases |st.used| - y
  {
    match Judged(ends, st, u, y, 0)
    case Fitting => Take(y, skipped)
    case TooLarge => GiveUp
    case Collides => TakeAbove(ends, st, u, y + 1, skipped + [y])
  }

  /** A skipped label is taken out; the last one of the list comes to its place. */
  function TakenOut(unused: seq<nat>, i: nat): (r: seq<nat>)
    requires i < |unused|
    ensures |r| == |unused| - 1
  {
    unused[i := unused[|unused| - 1]][..|unused| - 1]
  }

  /** The others keep their places, but for the last, which comes to the one that is free. */
  lemma TakenOutMeans(unused: seq<nat>, i: nat)
    requires i < |unused|
    ensures var r := TakenOut(unused, i);
            && (forall j :: 0 <= j < |r| && j != i ==> r[j] == unused[j])
            && (i < |r| ==> r[i] == unused[|r|])
            && multiset(unused) == multiset(r) + multiset{unused[i]}
  {
    var last := |unused| - 1;
    var r := TakenOut(unused, i);
    assert unused == unused[..last] + [unused[last]];
    if i < last {
      assert unused[..last] == unused[..i] + [unused[i]] + unused[i + 1..last];
      assert r == unused[..i] + [unused[last]] + unused[i + 1..last];
    } else {
      assert r == unused[..last];
    }
  }

  /** Skipped labels come first, from place `i` on, and those above the largest after them. */
  ghost function TakeSkipped(ends: seq<Edge>, st: Stage, u: nat, i: nat): (r: Choice)
    requires Shaped(ends, st.vis, st)
    decreases |st.unused| - i
  {
    if i >= |st.unused| then TakeAbove(ends, st, u, st.biggestG + 1, st.unused)
    else
      match Judged(ends, st, u, st.unused[i], 0)
      case Fitting => Take(st.unused[i], TakenOut(st.unused, i))
      case TooLarge => GiveUp
      case Collides => TakeSkipped(ends, st, u, i + 1)
  }

  ghost function Choose(ends: seq<Edge>, heuristic: bool, st: Stage, u: nat): (r: Choice)
    requires Shaped(ends, st.vis, st)
  {
    if heuristic then TakeSkipped(ends, st, u, 0)
    else match TakeAbove(ends, st, u, st.biggestG + 1, [])
         case GiveUp => GiveUp
         case Take(x, _) => Take(x, [])
  }

  /** The label makes no number with a labelled neighbour that is out of range or in use. */
  ghost predicate Suits(ends: seq<Edge>, st: Stage, u: nat, x: nat) {
    forall e :: 0 <= e < |ends| && ends[e].Has(u) ==> SuitsNeighbour(st, ends[e].Other(u), x)
  }

  ghost predicate SuitsNeighbour(st: Stage, w: nat, x: nat) {
    w < |st.vis| && w < |st.g| && st.vis[w] ==> x + st.g[w] < |st.used| && !st.used[x + st.g[w]]
  }

  /** The neighbours allow a label exactly if it suits them; if one finds it too large, no larger one suits either. */
  lemma {:induction false} JudgedMeans(ends: seq<Edge>, st: Stage, u: nat, x: nat, k: nat)
    requires Shaped(ends, st.vis, st)
    ensures Suits(ends, st, u, x) ==> Judged(ends, st, u, x, k).Fitting?
    ensures Judged(ends, st, u, x, k).Fitting? ==>
              forall j :: k <= j < |Around(ends, u)| ==> SuitsNeighbour(st, ends[Around(ends, u)[j]].Other(u), x)
    ensures Judged(ends, st, u, x, k).TooLarge? ==> forall y: nat :: y >= x ==> !Suits(ends, st, u, y)
    decreases |Around(ends, u)| - k
  {
    var ids := Around(ends, u);
    if k < |ids| {
      JudgedMeans(ends, st, u, x, k + 1);
      assert EdgeOk(ends[ids[k]], |st.vis|);
      var w := ends[ids[k]].Other(u);
      forall y: nat | st.vis[w] && y + st.g[w] >= |st.used|
        ensures !Suits(ends, st, u, y)
      {
        assert !SuitsNeighbour(st, w, y);
      }
      assert st.vis[w] && x + st.g[w] < |st.used| && st.used[x + st.g[w]] ==> !SuitsNeighbour(st, w, x);
    }
  }

  lemma JudgedSuits(ends: seq<Edge>, st: Stage, u: nat, x: nat)
    requires Shaped(ends, st.vis, st)
    ensures Judged(ends, st, u, x, 0).Fitting? <==> Suits(ends, st, u, x)
  {
    hide Judged, SuitsNeighbour, Shaped;
    JudgedMeans(ends, st, u, x, 0);
    var ids := Around(ends, u);
    forall e | 0 <= e < |ends| && ends[e].Has(u) && Judged(ends, st, u, x, 0).Fitting?
      ensures SuitsNeighbour(st, ends[e].Other(u), x)
    {
      EdgeIsDown(ends, u, |ends|, e);
      var j :| 0 <= j < |ids| && ids[j] == e;
    }
  }

  /** Of the labels from `y` on the first that suits is taken; there is none only if none suits. */
  lemma {:induction false} TakeAboveMeans(ends: seq<Edge>, st: Stage, u: nat, y: nat, skipped: seq<nat>)
    requires Shaped(ends, st.vis, st)
    ensures match TakeAbove(ends, st, u, y, skipped)
            case Take(x, _) => x >= y && Suits(ends, st, u, x) && forall z: nat :: y <= z < x ==> !Suits(ends, st, u, z)
            case GiveUp => forall z: nat :: z >= y ==> !Suits(ends, st, u, z)
    decreases |st.used| - y
  {
    hide Judged, Suits, Shaped;
    JudgedMeans(ends, st, u, y, 0);
    JudgedSuits(ends, st, u, y);
    if Judged(ends, st, u, y, 0).Collides? {
      TakeAboveMeans(ends, st, u, y + 1, skipped + [y]);
    }
  }

  /** The heuristic variant takes a skipped label that suits, or else the first suitable one above the largest; it gives
      up only if no larger one suits. */
  lemma {:induction false} TakeSkippedMeans(ends: seq<Edge>, st: Stage, u: nat, i: nat)
    requires Shaped(ends, st.vis, st) && forall x :: x in st.unused ==> x <= st.biggestG
    ensures match TakeSkipped(ends, st, u, i)
            case Take(x, _) => Suits(ends, st, u, x) && (x > st.biggestG || x in st.unused)
            case GiveUp => forall z: nat :: z > st.biggestG ==> !Suits(ends, st, u, z)
    decreases |st.unused| - i
  {
    hide Judged, TakeAbove, Suits, Shaped;
    if i >= |st.unused| {
      TakeAboveMeans(ends, st, u, st.biggestG + 1, st.unused);
    } else {
      assert st.unused[i] in st.unused;
      JudgedMeans(ends, st, u, st.unused[i], 0);
      JudgedSuits(ends, st, u, st.unused[i]);
      TakeSkippedMeans(ends, st, u, i + 1);
    }
  }

  /** Otherwise the first neighbour that it does not suit decides: the number is out of range, or in use. */
  lemma JudgedByFirst(ends: seq<Edge>, st: Stage, u: nat, x: nat, j: nat)
    requires Shaped(ends, st.vis, st) && j < |Around(ends, u)|
    requires !SuitsNeighbour(st, ends[Around(ends, u)[j]].Other(u), x)
    requires forall i :: 0 <= i < j ==> SuitsNeighbour(st, ends[Around(ends, u)[i]].Other(u), x)
    ensures var w := ends[Around(ends, u)[j]].Other(u);
            && w < |st.g| && st.vis[w]
            && Judged(ends, st, u, x, 0) == if x + st.g[w] >= |st.used| then TooLarge else Collides
  {
    hide Around;
    assert EdgeOk(ends[Around(ends, u)[j]], |st.vis|);
    JudgedFrom(ends, st, u, x, 0, j);
  }

  lemma {:induction false} JudgedFrom(ends: seq<Edge>, st: Stage, u: nat, x: nat, k: nat, j: nat)
    requires Shaped(ends, st.vis, st) && k <= j < |Around(ends, u)|
    requires forall i :: k <= i < j ==> SuitsNeighbour(st, ends[Around(ends, u)[i]].Other(u), x)
    ensures Judged(ends, st, u, x, k) == Judged(ends, st, u, x, j)
    decreases j - k
  {
    hide Around;
    if k < j {
      JudgedFrom(ends, st, u, x, k + 1, j);
      assert EdgeOk(ends[Around(ends, u)[k]], |st.vis|);
      assert SuitsNeighbour(st, ends[Around(ends, u)[k]].Other(u), x);
    }
  }

  /** The labels passed over on the way to the one taken are skipped, in their order. */
  lemma {:induction false} PassedAreSkipped(ends: seq<Edge>, st: Stage, u: nat, y: nat, skipped: seq<nat>)
    requires Shaped(ends, st.vis, st)
    ensures var r := TakeAbove(ends, st, u, y, skipped);
            r.Take? ==>
              && r.value >= y && |r.unused| == |skipped| + (r.value - y) && r.unused[..|skipped|] == skipped
              && forall i :: |skipped| <= i < |r.unused| ==> r.unused[i] == y + i - |skipped|
    decreases |st.used| - y
  {
    hide Judged, Shaped;
    if Judged(ends, st, u, y, 0).Collides? {
      PassedAreSkipped(ends, st, u, y + 1, skipped + [y]);
      var r := TakeAbove(ends, st, u, y, skipped);
      assert r.Take? ==> r.unused[..|skipped|] == r.unused[..|skipped| + 1][..|skipped|];
      assert r.Take? ==> r.unused[..|skipped| + 1][|skipped|] == r.unused[|skipped|] == y;
    }
  }

  /** Skipped labels are tried in the order of their list. The first that suits is taken out of it; only if none does,
      the one taken is the least suitable above the largest. */
  lemma {:induction false} SkippedInOrder(ends: seq<Edge>, st: Stage, u: nat, i: nat)
    requires Shaped(ends, st.vis, st) && i <= |st.unused| && SkippedBelow(st.unused, st.biggestG)
    ensures var r := TakeSkipped(ends, st, u, i);
            && (r.Take? && r.value <= st.biggestG ==>
                  exists j :: && i <= j < |st.unused| && st.unused[j] == r.value && NoneBetween(ends, st, u, i, j)
                              && r.unused == TakenOut(st.unused, j))
            && (r.Take? && r.value > st.biggestG ==>
                  && NoneBetween(ends, st, u, i, |st.unused|)
                  && r == TakeAbove(ends, st, u, st.biggestG + 1, st.unused))
    decreases |st.unused| - i
  {
    hide Judged, TakeAbove, Shaped, TakenOut, Suits;
    if i < |st.unused| {
      assert st.unused[i] in st.unused;
      JudgedSuits(ends, st, u, st.unused[i]);
      var r := TakeSkipped(ends, st, u, i);
      if Judged(ends, st, u, st.unused[i], 0).Collides? {
        SkippedInOrder(ends, st, u, i + 1);
        if r.Take? && r.value <= st.biggestG {
          var next := i + 1;
          var j :| && next <= j < |st.unused| && st.unused[j] == r.value && NoneBetween(ends, st, u, next, j)
                   && r.unused == TakenOut(st.unused, j);
          assert NoneBetween(ends, st, u, i, j);
        }
      } else if r.Take? {
        assert NoneBetween(ends, st, u, i, i);
      }
    } else {
      TakeAboveMeans(ends, st, u, st.biggestG + 1, st.unused);
    }
  }

  /** None of the skipped labels at these places suits. */
  ghost predicate NoneBetween(ends: seq<Edge>, st: Stage, u: nat, lo: nat, hi: nat) {
    hi <= |st.unused| && forall k :: lo <= k < hi ==> !Suits(ends, st, u, st.unused[k])
  }

  /** What the choice of a label means. A restart is asked for exactly if no label above the largest suits; in the
      heuristic variant, only if none does. */
  lemma ChooseMeans(ends: seq<Edge>, heuristic: bool, st: Stage, u: nat)
    requires Shaped(ends, st.vis, st) && forall x :: x in st.unused ==> x <= st.biggestG
    ensures var r := Choose(ends, heuristic, st, u);
            && (r.Take? ==> Suits(ends, st, u, r.value))
            && (r.Take? && !heuristic ==>
                  r.value > st.biggestG && forall y: nat :: st.biggestG < y < r.value ==> !Suits(ends, st, u, y))
            && (r.Take? && heuristic ==> r.value > st.biggestG || r.value in st.unused)
            && (r.GiveUp? ==> forall y: nat :: y > st.biggestG ==> !Suits(ends, st, u, y))
  {
    hide TakeAbove, TakeSkipped, Suits, Shaped;
    TakeAboveMeans(ends, st, u, st.biggestG + 1, []);
    TakeSkippedMeans(ends, st, u, 0);
  }

  /** The marks after the numbers of the first `k` edges to labelled neighbours are marked */
  ghost function Marks(ends: seq<Edge>, st: Stage, u: nat, x: nat, k: nat): (used: seq<bool>)
    requires Shaped(ends, st.vis, st) && k <= |Around(ends, u)|
    ensures |used| == |ends|
  {
    if k == 0 then st.used
    else
      assert EdgeOk(ends[Around(ends, u)[k - 1]], |st.vis|);
      var before, w := Marks(ends, st, u, x, k - 1), ends[Around(ends, u)[k - 1]].Other(u);
      if st.vis[w] && x + st.g[w] < |ends| then before[x + st.g[w] := true] else before
  }

  /** The largest number after that */
  ghost function Biggest(ends: seq<Edge>, st: Stage, u: nat, x: nat, k: nat): (b: nat)
    requires Shaped(ends, st.vis, st) && k <= |Around(ends, u)|
  {
    if k == 0 then st.biggestEdge
    else
      assert EdgeOk(ends[Around(ends, u)[k - 1]], |st.vis|);
      var before, w := Biggest(ends, st, u, x, k - 1), ends[Around(ends, u)[k - 1]].Other(u);
      if st.vis[w] && x + st.g[w] > before then x + st.g[w] else before
  }

  /** Number `z` belongs to an edge to a labelled neighbour, if the vertex gets label `x`. */
  ghost predicate SumAround(ends: seq<Edge>, st: Stage, u: nat, x: nat, k: nat, z: nat)
    requires k <= |Around(ends, u)|
  {
    exists j :: 0 <= j < k && SumAt(ends, st, u, x, j, z)
  }

  ghost predicate SumAt(ends: seq<Edge>, st: Stage, u: nat, x: nat, j: nat, z: nat)
    requires j < |Around(ends, u)|
  {
    var w := ends[Around(ends, u)[j]].Other(u);
    w < |st.vis| && w < |st.g| && st.vis[w] && z == x + st.g[w]
  }

  /** The numbers of those edges are marked in addition, and the largest number is the largest of them and the last. */
  lemma {:induction false} MarksMean(ends: seq<Edge>, st: Stage, u: nat, x: nat, k: nat)
    requires Shaped(ends, st.vis, st) && k <= |Around(ends, u)|
    ensures forall z :: 0 <= z < |ends| ==>
              (Marks(ends, st, u, x, k)[z] <==> st.used[z] || SumAround(ends, st, u, x, k, z))
    ensures var b := Biggest(ends, st, u, x, k);
            && b >= st.biggestEdge && (b == st.biggestEdge || SumAround(ends, st, u, x, k, b))
            && forall z: nat :: SumAround(ends, st, u, x, k, z) ==> z <= b
  {
    hide Around;
    if k != 0 {
      MarksMean(ends, st, u, x, k - 1);
      assert EdgeOk(ends[Around(ends, u)[k - 1]], |st.vis|);
      var b := Biggest(ends, st, u, x, k);
      forall z: nat
        ensures SumAround(ends, st, u, x, k, z)
                <==> SumAround(ends, st, u, x, k - 1, z) || SumAt(ends, st, u, x, k - 1, z)
      {
        assert SumAt(ends, st, u, x, k - 1, z) ==> SumAround(ends, st, u, x, k, z);
      }
    }
  }

  function Larger(x: nat, y: nat): nat {
    if x > y then x else y
  }

  /** After a vertex got its label */
  ghost function WithLabel(ends: seq<Edge>, st: Stage, u: nat, x: nat, unused: seq<nat>): (r: Stage)
    requires Shaped(ends, st.vis, st) && u < |st.vis|
    ensures Shaped(ends, r.vis, r) && |r.vis| == |st.vis|
  {
    var all := |Around(ends, u)|;
    Stage(st.vis[u := true], st.g[u := x], Marks(ends, st, u, x, all), Larger(st.biggestG, x),
          Biggest(ends, st, u, x, all), unused, st.queue + [u])
  }

  /** Edge `e` joins the vertex to a labelled neighbour, and its number is `z` if the vertex gets label `x`. */
  ghost predicate MakesNumber(ends: seq<Edge>, st: Stage, u: nat, x: nat, e: nat, z: nat) {
    && e < |ends| && ends[e].Has(u)
    && ends[e].Other(u) < |st.vis| && ends[e].Other(u) < |st.g| && st.vis[ends[e].Other(u)]
    && z == x + st.g[ends[e].Other(u)]
  }

  lemma SumsOfEdges(ends: seq<Edge>, st: Stage, u: nat, x: nat, z: nat)
    ensures SumAround(ends, st, u, x, |Around(ends, u)|, z) <==> exists e :: MakesNumber(ends, st, u, x, e, z)
  {
    var ids := Around(ends, u);
    hide Around;
    if j :| 0 <= j < |ids| && SumAt(ends, st, u, x, j, z) {
      assert MakesNumber(ends, st, u, x, ids[j], z);
    }
    if e: nat :| MakesNumber(ends, st, u, x, e, z) {
      AllAround(ends, u, e);
      var j :| 0 <= j < |ids| && ids[j] == e;
      assert SumAt(ends, st, u, x, j, z);
    }
  }

  lemma AllAround(ends: seq<Edge>, u: nat, e: nat)
    requires e < |ends| && ends[e].Has(u)
    ensures e in Around(ends, u)
  {
    EdgeIsDown(ends, u, |ends|, e);
  }

  /** A vertex that gets a label is queued; the numbers of its edges to labelled neighbours are marked as used, and the
      largest label and the largest number are kept. */
  lemma WithLabelMeans(ends: seq<Edge>, st: Stage, u: nat, x: nat, unused: seq<nat>)
    requires Shaped(ends, st.vis, st) && u < |st.vis|
    ensures var r := WithLabel(ends, st, u, x, unused);
            && r.vis == st.vis[u := true] && r.g == st.g[u := x] && r.queue == st.queue + [u] && r.unused == unused
            && r.biggestG >= st.biggestG && r.biggestG >= x && r.biggestG in {st.biggestG, x}
            && (forall z :: 0 <= z < |ends| ==>
                  (r.used[z] <==> st.used[z] || exists e :: MakesNumber(ends, st, u, x, e, z)))
            && r.biggestEdge >= st.biggestEdge
            && (r.biggestEdge == st.biggestEdge || exists e :: MakesNumber(ends, st, u, x, e, r.biggestEdge))
            && (forall e: nat, z: nat :: MakesNumber(ends, st, u, x, e, z) ==> z <= r.biggestEdge)
  {
    hide Around, Marks, Biggest, SumAround, MakesNumber;
    MarksMean(ends, st, u, x, |Around(ends, u)|);
    forall z: nat
      ensures SumAround(ends, st, u, x, |Around(ends, u)|, z) <==> exists e :: MakesNumber(ends, st, u, x, e, z)
    {
      SumsOfEdges(ends, st, u, x, z);
    }
    forall e: nat, z: nat | MakesNumber(ends, st, u, x, e, z)
      ensures z <= Biggest(ends, st, u, x, |Around(ends, u)|)
    {
      SumsOfEdges(ends, st, u, x, z);
    }
  }

  // ---------- the breadth-first search ----------

  /** The room in the queue: for all critical vertices and one more, or for half of them and one more */
  function Room(heuristic: bool, ncritical: nat): nat {
    if heuristic then ncritical / 2 + 1 else ncritical + 1
  }

  /** Half of the critical vertices, rounded down, and one more fit, or all of them and one more. */
  lemma RoomMeans(ncritical: nat)
    ensures Room(false, ncritical) == ncritical + 1
    ensures ncritical + 1 <= 2 * Room(true, ncritical) <= ncritical + 2
  {
  }

  /** How a part of the search ends: in some state, a vertex may get no label, or the queue may have no room for it. */
  datatype Ending = Going(stage: Stage) | NoLabel(stage: Stage, vertex: nat) | NoRoom(stage: Stage, vertex: nat)

  /** What is left to do */
  ghost function Work(vis: seq<bool>, queue: seq<nat>): nat {
    |Unvisited(vis)| + |queue|
  }

  lemma SameWork(vis: seq<bool>, queue: seq<nat>, u: nat)
    requires u < |vis| && !vis[u]
    ensures Work(vis[u := true], queue + [u]) == Work(vis, queue)
  {
    assert Unvisited(vis) == Unvisited(vis[u := true]) + {u};
  }

  /** A neighbour is labelled and queued, if it is critical and has no label yet. */
  ghost function VisitOne(ends: seq<Edge>, crit: seq<bool>, heuristic: bool, room: nat, st: Stage, u: nat): (r: Ending)
    requires Shaped(ends, crit, st) && u < |crit|
    ensures r.Going? ==> Shaped(ends, crit, r.stage) && Work(r.stage.vis, r.stage.queue) == Work(st.vis, st.queue)
  {
    if !crit[u] || st.vis[u] then Going(st)
    else
      SameWork(st.vis, st.queue, u);
      match Choose(ends, heuristic, st, u)
      case GiveUp => NoLabel(st, u)
      case Take(x, unused) => if |st.queue| >= room then NoRoom(st, u) else Going(WithLabel(ends, st, u, x, unused))
  }

  /** The neighbours of `v` by its first `k` edges */
  ghost function VisitAll(ends: seq<Edge>, crit: seq<bool>, heuristic: bool, room: nat, st: Stage, v: nat, k: nat)
    : (r: Ending)
    requires Shaped(ends, crit, st) && k <= |Around(ends, v)|
    ensures r.Going? ==> Shaped(ends, crit, r.stage) && Work(r.stage.vis, r.stage.queue) == Work(st.vis, st.queue)
  {
    if k == 0 then Going(st)
    else match VisitAll(ends, crit, heuristic, room, st, v, k - 1)
         case Going(st') =>
           assert EdgeOk(ends[Around(ends, v)[k - 1]], |crit|);
           VisitOne(ends, crit, heuristic, room, st', ends[Around(ends, v)[k - 1]].Other(v))
         case other => other
  }

  /** The rest of a component: vertices leave the queue, and their neighbours are visited. */
  ghost function Component(ends: seq<Edge>, crit: seq<bool>, heuristic: bool, room: nat, st: Stage): (r: Ending)
    requires Shaped(ends, crit, st)
    ensures r.Going? ==> Shaped(ends, crit, r.stage)
    decreases Work(st.vis, st.queue)
  {
    if st.queue == [] then Going(st)
    else match VisitAll(ends, crit, heuristic, room, st.(queue := st.queue[1..]), st.queue[0],
                        |Around(ends, st.queue[0])|)
         case Going(st') => Component(ends, crit, heuristic, room, st')
         case other => other
  }

  /** The start of a component: the label of its root comes from the largest number, rounded up when halved. */
  ghost function Root(ends: seq<Edge>, st: Stage, v: nat): (r: Stage)
    requires Shaped(ends, st.vis, st) && v < |st.vis|
    ensures Shaped(ends, r.vis, r) && |r.vis| == |st.vis|
  {
    var x := (st.biggestEdge + 1) / 2 - 1;
    st.(vis := st.vis[v := true], g := st.g[v := if x < 0 then 0 else x], unused := [], queue := [v])
  }

  /** The root's label is one less than half of the largest number, rounded up. */
  lemma RootMeans(ends: seq<Edge>, st: Stage, v: nat)
    requires Shaped(ends, st.vis, st) && v < |st.vis| && st.biggestEdge >= 1
    ensures var r := Root(ends, st, v);
            && st.biggestEdge <= 2 * (r.g[v] + 1) <= st.biggestEdge + 1
            && (forall w: nat :: w < |st.g| && w != v ==> r.g[w] == st.g[w])
            && (forall w: nat :: w < |st.vis| ==> (r.vis[w] <==> w == v || st.vis[w]))
            && r.used == st.used && r.biggestG == st.biggestG && r.biggestEdge == st.biggestEdge
            && r.unused == [] && r.queue == [v]
  {
  }

  ghost function Start(m: nat, n: nat): (st: Stage)
  {
    Stage(seq(n, _ => false), seq(n, _ => 0), seq(m, _ => false), 0, 1, [], [])
  }

  /** So the first root gets label 0, while no label and no number is in use and the next label to be tried is 1. */
  lemma FirstRoot(ends: seq<Edge>, n: nat, v: nat)
    requires EdgesOk(ends, n) && v < n
    ensures var r := Root(ends, Start(|ends|, n), v);
            && |r.g| == |r.vis| == n && |r.used| == |ends|
            && (forall w :: 0 <= w < n ==> r.g[w] == 0 && (r.vis[w] <==> w == v))
            && (forall z :: 0 <= z < |ends| ==> !r.used[z]) && r.biggestG == 0 && r.biggestEdge == 1
  {
  }

  /** The search up to vertex `k`: each critical vertex without a label is the root of a component. */
  ghost function CoreSearch(ends: seq<Edge>, crit: seq<bool>, heuristic: bool, room: nat, k: nat): (r: Ending)
    requires k <= |crit| && Shaped(ends, crit, Start(|ends|, |crit|))
    ensures r.Going? ==> Shaped(ends, crit, r.stage)
  {
    if k == 0 then Going(Start(|ends|, |crit|))
    else match CoreSearch(ends, crit, heuristic, room, k - 1)
         case Going(st) =>
           if crit[k - 1] && !st.vis[k - 1] then Component(ends, crit, heuristic, room, Root(ends, st, k - 1))
           else Going(st)
         case other => other
  }

  lemma {:induction false} SearchStops(ends: seq<Edge>, crit: seq<bool>, heuristic: bool, room: nat, k: nat, l: nat)
    requires k <= l <= |crit| && Shaped(ends, crit, Start(|ends|, |crit|))
    requires !CoreSearch(ends, crit, heuristic, room, k).Going?
    ensures CoreSearch(ends, crit, heuristic, room, l) == CoreSearch(ends, crit, heuristic, room, k)
  {
    if k != l {
      SearchStops(ends, crit, heuristic, room, k, l - 1);
    }
  }

  /** How the searching step ends. In the heuristic variant the queue may run full, and the program is aborted then. */
  datatype Outcome = Labelled | Restart | QueueFull

  /** The end of the searching step on a graph. A restart asked for by an earlier round stays if this graph has no
      2-core: no component is labelled then, and nothing takes it back. */
  ghost function OutcomeOf(ends: seq<Edge>, n: nat, heuristic: bool, restart0: bool): (r: Outcome)
    requires EdgesOk(ends, n)
  {
    var crit := CriticalOf(ends, n);
    match CoreSearch(ends, crit, heuristic, Room(heuristic, |Trues(crit)|), n)
    case NoLabel(_, _) => Restart
    case NoRoom(_, _) => QueueFull
    case Going(_) => if restart0 && Acyclic(ends) then Restart else Labelled
  }

  /** Vertices before the first critical one change nothing. */
  lemma {:induction false} NothingBefore(ends: seq<Edge>, crit: seq<bool>, heuristic: bool, room: nat, k: nat)
    requires k <= |crit| && Shaped(ends, crit, Start(|ends|, |crit|)) && forall w :: 0 <= w < k ==> !crit[w]
    ensures CoreSearch(ends, crit, heuristic, room, k) == Going(Start(|ends|, |crit|))
  {
    if k != 0 {
      NothingBefore(ends, crit, heuristic, room, k - 1);
    }
  }

  // ---------- why the search asks for a restart ----------

  /** The vertex is to be labelled, and no label above the largest suits it. */
  ghost predicate NoneSuits(ends: seq<Edge>, crit: seq<bool>, st: Stage, u: nat) {
    && Shaped(ends, crit, st) && u < |crit| && crit[u] && !st.vis[u]
    && forall y: nat :: y > st.biggestG ==> !Suits(ends, st, u, y)
  }

  /** Skipped labels are not above the largest. */
  ghost predicate SkippedBelow(unused: seq<nat>, bound: nat) {
    forall x :: x in unused ==> x <= bound
  }

  lemma {:induction false} RestBelow(ends: seq<Edge>, st: Stage, u: nat, y: nat, skipped: seq<nat>)
    requires Shaped(ends, st.vis, st) && SkippedBelow(skipped, y)
    ensures var r := TakeAbove(ends, st, u, y, skipped); r.Take? ==> r.value >= y && SkippedBelow(r.unused, r.value)
    decreases |st.used| - y
  {
    hide Judged, Shaped;
    if Judged(ends, st, u, y, 0).Collides? {
      RestBelow(ends, st, u, y + 1, skipped + [y]);
    }
  }

  lemma {:induction false} RestOfSkipped(ends: seq<Edge>, st: Stage, u: nat, i: nat)
    requires Shaped(ends, st.vis, st) && SkippedBelow(st.unused, st.biggestG)
    ensures var r := TakeSkipped(ends, st, u, i);
            r.Take? ==> SkippedBelow(r.unused, Larger(st.biggestG, r.value))
    decreases |st.unused| - i
  {
    hide Judged, TakeAbove, Shaped;
    if i >= |st.unused| {
      RestBelow(ends, st, u, st.biggestG + 1, st.unused);
    } else {
      assert forall x :: x in TakenOut(st.unused, i) ==> x in st.unused;
      RestOfSkipped(ends, st, u, i + 1);
    }
  }

  /** A part of the search keeps the skipped labels small, and if it ends without a label, none suits. */
  ghost predicate EndsRightly(ends: seq<Edge>, crit: seq<bool>, r: Ending) {
    && (r.Going? ==> SkippedBelow(r.stage.unused, r.stage.biggestG))
    && (r.NoLabel? ==> NoneSuits(ends, crit, r.stage, r.vertex))
  }

  lemma OneEndsRightly(ends: seq<Edge>, crit: seq<bool>, heuristic: bool, room: nat, st: Stage, u: nat)
    requires Shaped(ends, crit, st) && u < |crit| && SkippedBelow(st.unused, st.biggestG)
    ensures EndsRightly(ends, crit, VisitOne(ends, crit, heuristic, room, st, u))
  {
    hide Suits, Marks, Biggest, TakeAbove, TakeSkipped;
    ChooseMeans(ends, heuristic, st, u);
    RestBelow(ends, st, u, st.biggestG + 1, []);
    RestOfSkipped(ends, st, u, 0);
  }

  lemma {:induction false} AllEndRightly(ends: seq<Edge>, crit: seq<bool>, heuristic: bool, room: nat, st: Stage,
                                         v: nat, k: nat)
    requires Shaped(ends, crit, st) && k <= |Around(ends, v)| && SkippedBelow(st.unused, st.biggestG)
    ensures EndsRightly(ends, crit, VisitAll(ends, crit, heuristic, room, st, v, k))
  {
    hide VisitOne, NoneSuits, SkippedBelow;
    if k != 0 {
      AllEndRightly(ends, crit, heuristic, room, st, v, k - 1);
      var r := VisitAll(ends, crit, heuristic, room, st, v, k - 1);
      if r.Going? {
        assert EdgeOk(ends[Around(ends, v)[k - 1]], |crit|);
        OneEndsRightly(ends, crit, heuristic, room, r.stage, ends[Around(ends, v)[k - 1]].Other(v));
      }
    }
  }

  lemma {:induction false} ComponentEndsRightly(ends: seq<Edge>, crit: seq<bool>, heuristic: bool, room: nat, st: Stage)
    requires Shaped(ends, crit, st) && SkippedBelow(st.unused, st.biggestG)
    ensures EndsRightly(ends, crit, Component(ends, crit, heuristic, room, st))
    decreases Work(st.vis, st.queue)
  {
    hide VisitAll, NoneSuits, SkippedBelow;
    if st.queue != [] {
      var st1, v := st.(queue := st.queue[1..]), st.queue[0];
      AllEndRightly(ends, crit, heuristic, room, st1, v, |Around(ends, v)|);
      var r := VisitAll(ends, crit, heuristic, room, st1, v, |Around(ends, v)|);
      if r.Going? {
        ComponentEndsRightly(ends, crit, heuristic, room, r.stage);
      }
    }
  }

  lemma {:induction false} CoreEndsRightly(ends: seq<Edge>, crit: seq<bool>, heuristic: bool, room: nat, k: nat)
    requires k <= |crit| && Shaped(ends, crit, Start(|ends|, |crit|))
    ensures EndsRightly(ends, crit, CoreSearch(ends, crit, heuristic, room, k))
  {
    hide Component, NoneSuits;
    if k != 0 {
      CoreEndsRightly(ends, crit, heuristic, room, k - 1);
      var r := CoreSearch(ends, crit, heuristic, room, k - 1);
      if r.Going? && crit[k - 1] && !r.stage.vis[k - 1] {
        ComponentEndsRightly(ends, crit, heuristic, room, Root(ends, r.stage, k - 1));
      }
    }
  }

  /** A restart is asked for exactly if the search has come to a state and a vertex that gets no label, or if the graph
      is a forest and an earlier round has asked for one. No label above the largest suits the vertex then. */
  lemma RestartMeans(ends: seq<Edge>, n: nat, heuristic: bool, restart0: bool)
    requires EdgesOk(ends, n)
    ensures var crit := CriticalOf(ends, n);
            var r := CoreSearch(ends, crit, heuristic, Room(heuristic, |Trues(crit)|), n);
            && (OutcomeOf(ends, n, heuristic, restart0).Restart? <==> r.NoLabel? || (restart0 && Acyclic(ends)))
            && (r.NoLabel? ==> NoneSuits(ends, crit, r.stage, r.vertex))
  {
    hide CoreSearch, CriticalOf, IsCritical, Room, NoneSuits, Acyclic, Trues;
    var crit := CriticalOf(ends, n);
    CoreEndsRightly(ends, crit, heuristic, Room(heuristic, |Trues(crit)|), n);
    if restart0 && Acyclic(ends) {
      NoneCritical(ends, n);
      NothingBefore(ends, crit, heuristic, Room(heuristic, |Trues(crit)|), n);
    }
  }
}
