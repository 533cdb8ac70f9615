/**
 BMZ (bmz.c): keys are the edges of a simple random graph. The vertices get labels such that the sums over
 the edges are all the numbers below the number of keys, each once; first on the 2-core, then on the trees.
 */
module Bmz {
  import opened Words
  import opened Counting
  import opened PerfectHashing
  import opened Graphs
  import opened Forests
  import opened Visits
  import opened BmzSearch
  import opened BmzQueues
  import opened BmzTrees
  import opened BmzCritical
  import opened Hashing
  import opened KeyEdges
  import opened Options

  // ---------- the mapping step ----------

  /** `bmz_gen_edges` accepts exactly the simple graphs. */
  method GenEdges<Key>(graph: Graph, hash: HashPairs<Key>, seed: nat, keys: seq<Key>)
    returns (ok: bool, ghost adj: seq<seq<nat>>)
    requires graph.Allocated() && graph.nnodes >= 1 && |keys| == graph.nedges >= 1
    modifies graph, graph.edges, graph.first, graph.next
    ensures ok <==> graph.nnodes >= 2 && Simple(Ends(hash, seed, keys, graph.nnodes))
    ensures ok ==> graph.Holds(Ends(hash, seed, keys, graph.nnodes), adj)
                   && InOrder(Ends(hash, seed, keys, graph.nnodes), adj, graph.nedges)
  {
    hide Represents, LinkedAdj, AreJoined, Simple, InOrder;
    ghost var ends := Ends(hash, seed, keys, graph.nnodes);
    graph.ClearEdges();
    adj := seq(graph.nnodes, _ => []);
    assert ends[..0] == [];
    SimpleSoFar(ends);
    InOrderNone(adj, graph.nedges);
    for e := 0 to |keys|
      invariant graph.Holds(ends[..e], adj) && (e >= 1 ==> graph.nnodes >= 2) && Simple(ends[..e])
      invariant InOrder(ends[..e], adj, graph.nedges) && |adj| == graph.nnodes
    {
      var t := EdgeOf(hash(seed, keys[e]), graph.nnodes);
      assert t == ends[e] == Edge(t.a, t.b);
      if t.a == t.b {
        return false, adj;
      }
      var multipleEdges := graph.ContainsEdge(t.a, t.b, ends[..e], adj);
      SimpleNext(ends, e);
      if multipleEdges {
        return false, adj;
      }
      ghost var lists := LinkedAdj(adj, e, t, graph.nedges);
      InOrderMore(ends[..e], adj, graph.nedges, t);
      graph.AddEdge(t.a, t.b, ends[..e], adj);
      adj := lists;
      assert ends[..e] + [ends[e]] == ends[..e + 1];
    }
    assert ends[..|keys|] == ends;
    ok := true;
  }

  lemma SimpleSoFar(ends: seq<Edge>)
    ensures Simple(ends[..0])
  {
  }

  /** An edge keeps the graph simple unless its vertices are joined already. */
  lemma SimpleNext(ends: seq<Edge>, e: nat)
    requires e < |ends| && Simple(ends[..e])
    ensures Simple(ends[..e + 1]) <==> !AreJoined(ends[..e], ends[e].a, ends[e].b)
    ensures AreJoined(ends[..e], ends[e].a, ends[e].b) ==> !Simple(ends)
  {
    if f :| 0 <= f < e && Joins(ends[..e][f], ends[e].a, ends[e].b) {
      assert Joins(ends[e], ends[f].a, ends[f].b);
      assert ends[..e + 1][e] == ends[e] && ends[..e + 1][f] == ends[f];
    } else {
      var more := ends[..e + 1];
      forall f, h | 0 <= f < h < |more|
        ensures !Joins(more[h], more[f].a, more[f].b)
      {
        assert more[f] == ends[f] == ends[..e][f];
        if h < e {
          assert more[h] == ends[..e][h];
        }
      }
    }
  }

  // ---------- from the first half of the search to the second ----------

  ghost predicate AllCriticalVisited(crit: seq<bool>, vis: seq<bool>, k: nat) {
    |crit| == |vis| && k <= |vis| && forall v :: 0 <= v < k && crit[v] ==> vis[v]
  }

  /** When all critical vertices are labelled, the finished edges are exactly those of the 2-core. */
  lemma FinishedIsCore(ends: seq<Edge>, core: set<nat>, crit: seq<bool>, vis: seq<bool>, g: seq<nat>, used: seq<bool>,
                       biggestG: nat, biggestEdge: nat, e: nat)
    requires IsTwoCore(ends, core) && CriticalNodes(ends, core, crit) && e < |ends|
    requires Labelling(ends, core, crit, vis, g, used, biggestG, biggestEdge, {})
             && AllCriticalVisited(crit, vis, |vis|)
    ensures Finished(vis, ends[e]) <==> e in core
  {
    hide IsTwoCore, CoreApart, UsedOk, SumInRange, SumsDiffer, EndOf;
    assert EdgeOk(ends[e], |vis|);
    if e in core {
      EdgeEnds(ends, core, e);
      assert crit[ends[e].a] && crit[ends[e].b];
    } else if Finished(vis, ends[e]) {
      assert EndOf(ends, core, ends[e].a) && EndOf(ends, core, ends[e].b);
      ChordInCore(ends, core, e);
    }
  }

  lemma EdgeEnds(ends: seq<Edge>, core: set<nat>, e: nat)
    requires e in core && e < |ends|
    ensures EndOf(ends, core, ends[e].a) && EndOf(ends, core, ends[e].b)
  {
  }

  /** The numbers of some edges */
  ghost function NumbersOf(ends: seq<Edge>, g: seq<nat>, s: set<nat>): (r: set<nat>)
    requires InRange(ends, s) && EdgesOk(ends, |g|)
    ensures forall x :: x in r <==> exists e :: e in s && Sum(g, ends[e]) == x
  {
    set e | e in s :: Sum(g, ends[e])
  }

  /** Different numbers are as many as their edges. */
  lemma {:induction false} NumbersCount(ends: seq<Edge>, g: seq<nat>, s: set<nat>)
    requires InRange(ends, s) && EdgesOk(ends, |g|)
    requires forall e, f :: e in s && f in s && e != f ==> Sum(g, ends[e]) != Sum(g, ends[f])
    ensures |NumbersOf(ends, g, s)| == |s|
  {
    hide Sum;
    if s != {} {
      var e :| e in s;
      NumbersCount(ends, g, s - {e});
      assert NumbersOf(ends, g, s) == NumbersOf(ends, g, s - {e}) + {Sum(g, ends[e])};
      assert Sum(g, ends[e]) !in NumbersOf(ends, g, s - {e});
    } else {
      assert NumbersOf(ends, g, s) == {};
    }
  }

  /** As many numbers are used as the 2-core has edges. */
  lemma UsedCount(ends: seq<Edge>, core: set<nat>, vis: seq<bool>, g: seq<nat>, used: seq<bool>)
    requires InRange(ends, core) && SumsApart(ends, vis, g) && UsedOk(ends, vis, g, used)
    requires forall e :: 0 <= e < |ends| ==> (Finished(vis, ends[e]) <==> e in core)
    ensures |core| == |Trues(used)|
  {
    hide Sum, Finished;
    forall e, f | e in core && f in core && e != f
      ensures Sum(g, ends[e]) != Sum(g, ends[f])
    {
      assert SumsDiffer(ends, vis, g, e, f) || SumsDiffer(ends, vis, g, f, e);
    }
    NumbersCount(ends, g, core);
    forall x: nat
      ensures x in Trues(used) <==> x in NumbersOf(ends, g, core)
    {
      if x < |used| && used[x] {
        assert Taken(ends, vis, g, x);
        var e :| 0 <= e < |ends| && Finished(vis, ends[e]) && Sum(g, ends[e]) == x;
        assert e in core;
      }
    }
    assert Trues(used) == NumbersOf(ends, g, core);
  }

  /** What the second half needs of the first */
  lemma CoreNumbered(ends: seq<Edge>, core: set<nat>, crit: seq<bool>, vis: seq<bool>, g: seq<nat>, used: seq<bool>,
                     biggestG: nat, biggestEdge: nat)
    requires IsTwoCore(ends, core) && CriticalNodes(ends, core, crit)
    requires Labelling(ends, core, crit, vis, g, used, biggestG, biggestEdge, {})
             && AllCriticalVisited(crit, vis, |vis|)
    ensures SumsApart(ends, vis, g) && NumbersOk(ends, core, vis, g, used, 0)
    ensures forall v: nat :: v < |vis| ==> (vis[v] <==> EndOf(ends, core, v))
  {
    hide IsTwoCore, EndOf, Sum, SumsApart, Taken, CoreApart, CompOk;
    CoreInRange(ends, core);
    forall e | 0 <= e < |ends|
      ensures Finished(vis, ends[e]) <==> e in core
    {
      FinishedIsCore(ends, core, crit, vis, g, used, biggestG, biggestEdge, e);
    }
    UsedCount(ends, core, vis, g, used);
    hide Finished;
    forall e | 0 <= e < |ends|
      ensures NumberOk(ends, core, vis, g, used, 0, e)
    {
      assert Finished(vis, ends[e]) <==> e in core;
    }
    assert NumberedOutside(ends, core, vis) == {};
    assert UnusedBelow(used, 0) == {};
  }

  // ---------- the search ----------

  lemma StartLabelling(ends: seq<Edge>, core: set<nat>, crit: seq<bool>, vis: seq<bool>, g: seq<nat>, used: seq<bool>)
    requires EdgesOk(ends, |vis|) && |crit| == |vis| == |g| && 1 <= |ends| == |used| && 2 * |ends| <= EMPTY
    requires (forall v :: 0 <= v < |vis| ==> !vis[v] && g[v] == 0) && forall s :: 0 <= s < |used| ==> !used[s]
    ensures Labelling(ends, core, crit, vis, g, used, 0, 1, {}) && AllCriticalVisited(crit, vis, 0)
    ensures Stands(Start(|ends|, |crit|), vis, g, used, 0, 1)
  {
    forall e | 0 <= e < |ends|
      ensures !Finished(vis, ends[e])
    {
      assert EdgeOk(ends[e], |vis|);
    }
  }

  lemma NextCritical(crit: seq<bool>, vis: seq<bool>, vis': seq<bool>, i: nat)
    requires AllCriticalVisited(crit, vis, i) && i < |vis| && Later(vis, vis') && (crit[i] ==> vis'[i])
    ensures AllCriticalVisited(crit, vis', i + 1)
  {
  }

  /** The searching step of `bmz_new`, on a simple graph. How it ends depends on the graph alone, and on whether an
      earlier round has asked for a restart. */
  method SearchingStep(graph: Graph, heuristic: bool, restart0: bool, ghost ends: seq<Edge>, ghost adj: seq<seq<nat>>)
    returns (outcome: Outcome, g: array<nat>)
    requires graph.Holds(ends, adj) && graph.nnodes <= NO_NEIGHBOR && |ends| == graph.nedges >= 1 && Simple(ends)
    requires InOrder(ends, adj, graph.nedges) && EdgesOk(ends, graph.nnodes)
    ensures g.Length == graph.nnodes && fresh(g)
    ensures outcome == OutcomeOf(ends, graph.nnodes, heuristic, restart0)
    ensures outcome.Labelled? ==> SumsApart(ends, seq(graph.nnodes, _ => true), g[..])
  {
    hide Represents, Simple, IsTwoCore, CriticalNodes, Labelling, Trues, AllCriticalVisited, Core, InTwoCore, SumsApart,
      OutcomeOf, InOrder, EdgesOk, Stands;
    graph.FewEdges(ends, adj);
    var critical, ncritical; ghost var core;
    critical, ncritical, core := graph.ObtainCriticalNodes(ends, adj);
    TwoCoreObtained(ends, core);
    var visited := new bool[graph.nnodes](_ => false);
    var usedEdges := new bool[graph.nedges](_ => false);
    g := new nat[graph.nnodes](_ => 0);
    ghost var crit, biggestG, biggestEdge := critical[..], 0, 1;
    StartLabelling(ends, core, crit, visited[..], g[..], usedEdges[..]);
    outcome, biggestG, biggestEdge :=
      LabelCore(graph, g, usedEdges, visited, critical, ncritical, heuristic, restart0, ends, adj, core);
    if outcome.Labelled? {
      CoreNumbered(ends, core, crit, visited[..], g[..], usedEdges[..], biggestG, biggestEdge);
      TraverseNonCritical(graph, g, usedEdges, visited, ends, adj, core);
    }
  }

  /** Its loop over the critical vertices */
  method LabelCore(graph: Graph, g: array<nat>, usedEdges: array<bool>, visited: array<bool>, critical: array<bool>,
                   ncritical: nat, heuristic: bool, restart0: bool, ghost ends: seq<Edge>, ghost adj: seq<seq<nat>>,
                   ghost core: set<nat>)
    returns (outcome: Outcome, ghost biggestG: nat, ghost biggestEdge: nat)
    requires graph.Holds(ends, adj) && g.Length == visited.Length == critical.Length == graph.nnodes <= NO_NEIGHBOR
    requires usedEdges != visited && usedEdges != critical && visited != critical && usedEdges.Length == |ends|
    requires g != graph.first && g != graph.next && g != graph.edges && ncritical == |Trues(critical[..])|
    requires IsTwoCore(ends, core) && CriticalNodes(ends, core, critical[..]) && Simple(ends)
    requires Labelling(ends, core, critical[..], visited[..], g[..], usedEdges[..], 0, 1, {})
    requires Stands(Start(|ends|, graph.nnodes), visited[..], g[..], usedEdges[..], 0, 1)
    requires InOrder(ends, adj, graph.nedges) && EdgesOk(ends, graph.nnodes)
    modifies g, usedEdges, visited
    ensures graph.Holds(ends, adj) && critical[..] == old(critical[..])
    ensures outcome == OutcomeOf(ends, graph.nnodes, heuristic, restart0)
    ensures outcome.Labelled? ==>
              && Labelling(ends, core, critical[..], visited[..], g[..], usedEdges[..], biggestG, biggestEdge, {})
              && AllCriticalVisited(critical[..], visited[..], graph.nnodes)
  {
    hide Represents, Simple, IsTwoCore, CriticalNodes, Labelling, Trues, AllCriticalVisited, Later, Stuck, OutcomeOf,
      InOrder, EdgesOk, CoreSearch, Stands, Shaped, CriticalOf, IsCritical, Component, Root, Start, Untouched, Room;
    ghost var crit, n := critical[..], graph.nnodes;
    ghost var room, st := Room(heuristic, ncritical), Start(|ends|, n);
    CriticalOnes(ends, core, crit);
    SearchBegins(ends, crit, heuristic, room, visited[..], g[..], usedEdges[..]);
    var bigG, bigEdge := 0, 1;
    outcome := if restart0 then Restart else Labelled;
    for i := 0 to graph.nnodes
      invariant graph.Holds(ends, adj) && critical[..] == crit && |crit| == n
      invariant Labelling(ends, core, crit, visited[..], g[..], usedEdges[..], bigG, bigEdge, {})
      invariant AllCriticalVisited(crit, visited[..], i)
      invariant outcome == if restart0 && Untouched(crit, visited[..], i) then Restart else Labelled
      invariant Shaped(ends, crit, st) && Stands(st, visited[..], g[..], usedEdges[..], bigG, bigEdge)
      invariant Shaped(ends, crit, Start(|ends|, n))
      invariant CoreSearch(ends, crit, heuristic, room, i) == Going(st)
      modifies g, visited, usedEdges
    {
      ghost var before := visited[..];
      SearchNext(ends, crit, heuristic, room, i, st, before, g[..], usedEdges[..], bigG, bigEdge);
      if critical[i] && !visited[i] {
        outcome, bigG, bigEdge, st :=
          TraverseCritical(graph, g, usedEdges, visited, critical, ncritical, heuristic, i, bigG, bigEdge, ends, adj,
                           core, st);
        if !outcome.Labelled? {
          SearchStops(ends, crit, heuristic, room, i + 1, n);
          SearchFails(ends, crit, heuristic, restart0, st, outcome);
          return outcome, bigG, bigEdge;
        }
      } else {
        LaterSelf(before);
      }
      NextCritical(crit, before, visited[..], i);
      NextUntouched(crit, before, visited[..], i);
    }
    OnlyCritical(ends, core, crit, visited[..], g[..], usedEdges[..], bigG, bigEdge);
    SearchIsDone(ends, crit, heuristic, restart0, st, visited[..]);
    biggestG, biggestEdge := bigG, bigEdge;
  }

  /** No component is labelled yet: none of the first `k` vertices is critical. */
  ghost predicate Untouched(crit: seq<bool>, vis: seq<bool>, k: nat) {
    && |crit| == |vis| && k <= |crit| && (forall v :: 0 <= v < k ==> !crit[v])
    && forall v :: 0 <= v < |vis| ==> !vis[v]
  }

  lemma NextUntouched(crit: seq<bool>, vis: seq<bool>, vis': seq<bool>, i: nat)
    requires i < |crit| == |vis| == |vis'|
    requires if crit[i] && !vis[i] then vis'[i] else vis' == vis
    ensures crit[i] && !vis[i] ==> !Untouched(crit, vis', i + 1)
    ensures !(crit[i] && !vis[i]) ==> (Untouched(crit, vis', i + 1) <==> Untouched(crit, vis, i))
  {
  }

  lemma SearchBegins(ends: seq<Edge>, crit: seq<bool>, heuristic: bool, room: nat, vis: seq<bool>, g: seq<nat>,
                     used: seq<bool>)
    requires EdgesOk(ends, |crit|) && Stands(Start(|ends|, |crit|), vis, g, used, 0, 1)
    ensures Shaped(ends, crit, Start(|ends|, |crit|))
    ensures CoreSearch(ends, crit, heuristic, room, 0) == Going(Start(|ends|, |crit|))
    ensures AllCriticalVisited(crit, vis, 0) && Untouched(crit, vis, 0)
  {
  }

  /** One more vertex: the root of a component, or none */
  lemma SearchNext(ends: seq<Edge>, crit: seq<bool>, heuristic: bool, room: nat, i: nat, st: Stage, vis: seq<bool>,
                   g: seq<nat>, used: seq<bool>, biggestG: nat, biggestEdge: nat)
    requires i < |crit| && Shaped(ends, crit, Start(|ends|, |crit|)) && Shaped(ends, crit, st)
    requires CoreSearch(ends, crit, heuristic, room, i) == Going(st) && Stands(st, vis, g, used, biggestG, biggestEdge)
    ensures |vis| == |crit| && Shaped(ends, st.vis, st) && Shaped(ends, crit, Root(ends, st, i))
    ensures CoreSearch(ends, crit, heuristic, room, i + 1)
            == if crit[i] && !vis[i] then Component(ends, crit, heuristic, room, Root(ends, st, i)) else Going(st)
  {
    hide Component;
  }

  lemma SearchFails(ends: seq<Edge>, crit: seq<bool>, heuristic: bool, restart0: bool, st: Stage, outcome: Outcome)
    requires EdgesOk(ends, |crit|) && crit == CriticalOf(ends, |crit|) && Shaped(ends, crit, Start(|ends|, |crit|))
    requires !outcome.Labelled?
    requires EndsAs(outcome, CoreSearch(ends, crit, heuristic, Room(heuristic, |Trues(crit)|), |crit|), st)
    ensures outcome == OutcomeOf(ends, |crit|, heuristic, restart0)
  {
    hide CoreSearch, Room, CriticalOf;
  }

  lemma OnlyCritical(ends: seq<Edge>, core: set<nat>, crit: seq<bool>, vis: seq<bool>, g: seq<nat>, used: seq<bool>,
                     biggestG: nat, biggestEdge: nat)
    requires Labelling(ends, core, crit, vis, g, used, biggestG, biggestEdge, {})
    ensures |vis| == |crit| && forall v :: 0 <= v < |vis| && vis[v] ==> crit[v]
  {
  }

  lemma SearchIsDone(ends: seq<Edge>, crit: seq<bool>, heuristic: bool, restart0: bool, st: Stage, vis: seq<bool>)
    requires EdgesOk(ends, |crit|) && crit == CriticalOf(ends, |crit|) && Shaped(ends, crit, Start(|ends|, |crit|))
    requires CoreSearch(ends, crit, heuristic, Room(heuristic, |Trues(crit)|), |crit|) == Going(st)
    requires |vis| == |crit| && forall v :: 0 <= v < |vis| && vis[v] ==> crit[v]
    ensures OutcomeOf(ends, |crit|, heuristic, restart0)
            == if restart0 && Untouched(crit, vis, |crit|) then Restart else Labelled
  {
    hide CoreSearch, Room, Acyclic;
    NoneCritical(ends, |crit|);
  }

  lemma TwoCoreObtained(ends: seq<Edge>, core: set<nat>)
    requires Core(ends, core) && forall e :: e in core <==> 0 <= e < |ends| && InTwoCore(ends, e)
    ensures IsTwoCore(ends, core)
  {
  }

  // ---------- the function ----------

  /** `bmz_data_t`; the seed stands for the two hash states. */
  datatype Bmz = Bmz(seed: nat, n: nat, m: nat, g: seq<nat>)

  /** The numbers of the edges of the keys, in 32-bit arithmetic */
  function KeySums(ends: seq<Edge>, g: seq<nat>): (values: seq<nat>)
    requires EdgesOk(ends, |g|)
    ensures |values| == |ends|
  {
    seq<nat>(|ends|, e requires 0 <= e < |ends| => SumOf(ends, g, e))
  }

  function SumOf(ends: seq<Edge>, g: seq<nat>, e: nat): (s: nat)
    requires EdgesOk(ends, |g|) && e < |ends|
  {
    assert EdgeOk(ends[e], |g|);
    Sum(g, ends[e])
  }

  /** What a successful construction promises: the sums over the edges are all the numbers below `m`, each once. */
  ghost predicate BuiltFor<Key>(f: Bmz, hash: HashPairs<Key>, keys: seq<Key>) {
    && f.n >= 2 && f.m == |keys| && |f.g| == f.n
    && MinimalPerfect(KeySums(Ends(hash, f.seed, keys, f.n), f.g))
  }

  lemma SumsArePermutation(ends: seq<Edge>, g: seq<nat>, n: nat)
    requires |g| == n && SumsApart(ends, seq(n, _ => true), g)
    ensures EdgesOk(ends, |g|) && MinimalPerfect(KeySums(ends, g))
  {
    hide Sum;
    var vis, values := seq(n, _ => true), KeySums(ends, g);
    forall e | 0 <= e < |ends|
      ensures Finished(vis, ends[e]) && values[e] == Sum(g, ends[e]) < |ends|
    {
      assert EdgeOk(ends[e], n) && SumInRange(ends, vis, g, e);
    }
    forall e, f | 0 <= e < f < |values|
      ensures values[e] != values[f]
    {
      assert SumsDiffer(ends, vis, g, e, f);
    }
    DistinctBelow(values, |values|);
  }

  /** The graph of a seed is of no use: it has one vertex, a loop, or several edges between two vertices. */
  ghost predicate CannotMap<Key>(hash: HashPairs<Key>, keys: seq<Key>, n: nat, seed: nat)
    requires n >= 1
  {
    n == 1 || !Simple(Ends(hash, seed, keys, n))
  }

  /** Of a hundred seeds from `start` on, this is the first of use. */
  ghost predicate MapsAt<Key>(hash: HashPairs<Key>, keys: seq<Key>, n: nat, start: nat, seed: nat)
    requires n >= 1
  {
    && start <= seed < start + 100 && !CannotMap(hash, keys, n, seed)
    && forall s :: start <= s < seed ==> CannotMap(hash, keys, n, s)
  }

  ghost predicate NoneMaps<Key>(hash: HashPairs<Key>, keys: seq<Key>, n: nat, start: nat)
    requires n >= 1
  {
    forall s :: start <= s < start + 100 ==> CannotMap(hash, keys, n, s)
  }

  /** The loop of the mapping step: up to a hundred pairs of hash functions */
  method MapKeys<Key>(graph: Graph, hash: HashPairs<Key>, seed0: nat, keys: seq<Key>)
    returns (ok: bool, seed: nat, ghost adj: seq<seq<nat>>)
    requires graph.Allocated() && graph.nnodes >= 1 && |keys| == graph.nedges >= 1
    modifies graph, graph.edges, graph.first, graph.next
    ensures ok ==> MapsAt(hash, keys, graph.nnodes, seed0, seed)
    ensures ok ==> seed <= seed0 + 99 && graph.nnodes >= 2 && Simple(Ends(hash, seed, keys, graph.nnodes))
    ensures forall s :: seed0 <= s < (if ok then seed else seed0 + 100) ==>
              graph.nnodes == 1 || !Simple(Ends(hash, s, keys, graph.nnodes))
    ensures ok ==> graph.Holds(Ends(hash, seed, keys, graph.nnodes), adj)
                   && InOrder(Ends(hash, seed, keys, graph.nnodes), adj, graph.nedges)
    ensures !ok ==> seed == seed0 + 99 && NoneMaps(hash, keys, graph.nnodes, seed0)
  {
    hide Represents, Simple, Ends, InOrder;
    var iterations := 100;
    seed := seed0;
    while true
      invariant iterations >= 1 && seed + iterations == seed0 + 100
      invariant forall s :: seed0 <= s < seed ==> CannotMap(hash, keys, graph.nnodes, s)
      invariant forall s :: seed0 <= s < seed ==> graph.nnodes == 1 || !Simple(Ends(hash, s, keys, graph.nnodes))
      decreases iterations
    {
      ok, adj := GenEdges(graph, hash, seed, keys);
      if ok {
        break;
      }
      iterations := iterations - 1;
      if iterations == 0 {
        break;
      }
      seed := seed + 1;
    }
  }

  /** How the construction ends: with a function for a seed, without one, or by an assertion of the queue */
  datatype Construction = Builds(seed: nat) | GivesUp | Aborts

  /** The rounds after so many have failed, from a seed on: the first simple graph is searched, and a restart leads to
      the next round, with the next seed. */
  ghost function Rounds<Key>(hash: HashPairs<Key>, keys: seq<Key>, n: nat, heuristic: bool, failed: nat, start: nat)
    : (r: Construction)
    requires n >= 1
    decreases 20 - failed
  {
    if failed >= 20 || NoneMaps(hash, keys, n, start) then GivesUp
    else
      SomeMaps(hash, keys, n, start);
      var seed: nat :| MapsAt(hash, keys, n, start, seed);
      match OutcomeOf(Ends(hash, seed, keys, n), n, heuristic, failed > 0)
      case Labelled => Builds(seed)
      case QueueFull => Aborts
      case Restart => Rounds(hash, keys, n, heuristic, failed + 1, seed + 1)
  }

  lemma SomeMaps<Key>(hash: HashPairs<Key>, keys: seq<Key>, n: nat, start: nat)
    requires n >= 1 && !NoneMaps(hash, keys, n, start)
    ensures exists seed: nat :: MapsAt(hash, keys, n, start, seed)
  {
    hide CannotMap;
    var seed := start;
    while CannotMap(hash, keys, n, seed) && seed < start + 99
      invariant start <= seed < start + 100
      invariant forall s :: start <= s < seed ==> CannotMap(hash, keys, n, s)
    {
      seed := seed + 1;
    }
    assert MapsAt(hash, keys, n, start, seed);
  }

  /** One round: there is only one first simple graph. */
  lemma RoundOn<Key>(hash: HashPairs<Key>, keys: seq<Key>, n: nat, heuristic: bool, failed: nat, start: nat,
                     seed: nat)
    requires n >= 1 && failed < 20 && MapsAt(hash, keys, n, start, seed)
    ensures n >= 2 && Simple(Ends(hash, seed, keys, n))
    ensures Rounds(hash, keys, n, heuristic, failed, start)
            == match OutcomeOf(Ends(hash, seed, keys, n), n, heuristic, failed > 0)
               case Labelled => Builds(seed)
               case QueueFull => Aborts
               case Restart => Rounds(hash, keys, n, heuristic, failed + 1, seed + 1)
  {
    hide OutcomeOf, Ends, Simple, MapsAt, NoneMaps;
    forall other: nat | MapsAt(hash, keys, n, start, other)
      ensures other == seed
    {
      MapsOnce(hash, keys, n, start, seed, other);
    }
    MapsOnce(hash, keys, n, start, seed, seed);
  }

  lemma MapsOnce<Key>(hash: HashPairs<Key>, keys: seq<Key>, n: nat, start: nat, seed: nat, other: nat)
    requires n >= 1 && MapsAt(hash, keys, n, start, seed) && MapsAt(hash, keys, n, start, other)
    ensures seed == other && n >= 2 && Simple(Ends(hash, seed, keys, n)) && !NoneMaps(hash, keys, n, start)
  {
    hide Simple, Ends;
    assert !CannotMap(hash, keys, n, seed);
  }

  lemma Built<Key>(hash: HashPairs<Key>, seed: nat, keys: seq<Key>, n: nat, g: seq<nat>)
    requires n >= 2 && |g| == n && SumsApart(Ends(hash, seed, keys, n), seq(n, _ => true), g)
    ensures BuiltFor(Bmz(seed, n, |keys|, g), hash, keys)
  {
    hide SumsApart, MinimalPerfect;
    SumsArePermutation(Ends(hash, seed, keys, n), g, n);
  }

  /** `bmz_new`. The number of vertices comes from a floating-point expression, and is given; `heuristic` says that the
      factor `c` is at most 1.14. The second result tells whether an assertion of the queue stopped the program. */
  method New<Key>(hash: HashPairs<Key>, keys: seq<Key>, n: Uint32, heuristic: bool)
    returns (f: Option<Bmz>, aborted: bool)
    requires |keys| >= 1 && n >= 1 && 2 * |keys| <= EMPTY
    ensures f.Some? ==> BuiltFor(f.value, hash, keys) && f.value.n == n
    ensures Rounds(hash, keys, n, heuristic, 0, 0)
            == if aborted then Aborts else if f.Some? then Builds(f.value.seed) else GivesUp
    ensures aborted ==> f.None?
  {
    hide Represents, Ends, Simple, SumsApart, BuiltFor, MapsAt, OutcomeOf, Rounds, InOrder;
    var graph := new Graph(n, |keys|);
    var iterationsMap, seed, restartMapping := 20, 0, false;
    while true
      invariant 1 <= iterationsMap <= 20 && (restartMapping <==> iterationsMap < 20)
      invariant Rounds(hash, keys, n, heuristic, 0, 0) == Rounds(hash, keys, n, heuristic, 20 - iterationsMap, seed)
      decreases iterationsMap
    {
      ghost var start := seed;
      var ok; ghost var adj;
      ok, seed, adj := MapKeys(graph, hash, seed, keys);
      if !ok {
        NoRoundLeft(hash, keys, n, heuristic, 20 - iterationsMap, start);
        return None, false;
      }
      RoundOn(hash, keys, n, heuristic, 20 - iterationsMap, start, seed);
      var outcome, g := SearchingStep(graph, heuristic, restartMapping, Ends(hash, seed, keys, n), adj);
      if outcome.Labelled? {
        Built(hash, seed, keys, n, g[..]);
        return Some(Bmz(seed, n, |keys|, g[..])), false;
      }
      if outcome.QueueFull? {
        return None, true;
      }
      restartMapping := true;
      iterationsMap := iterationsMap - 1;
      if iterationsMap == 0 {
        NoRoundLeft(hash, keys, n, heuristic, 20, seed + 1);
        return None, false;
      }
      seed := seed + 1;
    }
  }

  /** After twenty rounds, or a hundred graphs in a row that are not simple, nothing is built. */
  lemma NoRoundLeft<Key>(hash: HashPairs<Key>, keys: seq<Key>, n: nat, heuristic: bool, failed: nat, start: nat)
    requires n >= 1 && (failed >= 20 || NoneMaps(hash, keys, n, start))
    ensures Rounds(hash, keys, n, heuristic, failed, start) == GivesUp
  {
  }

  // ---------- how construction ends ----------

  /** The first round takes a forest; a later one does not, since an earlier one has asked for a restart. */
  lemma ForestRound<Key>(hash: HashPairs<Key>, keys: seq<Key>, n: nat, heuristic: bool, failed: nat, start: nat,
                         seed: nat)
    requires n >= 1 && failed < 20 && MapsAt(hash, keys, n, start, seed) && Acyclic(Ends(hash, seed, keys, n))
    ensures Rounds(hash, keys, n, heuristic, failed, start)
            == if failed == 0 then Builds(seed) else Rounds(hash, keys, n, heuristic, failed + 1, seed + 1)
  {
    hide MapsAt, Ends, Simple, CoreSearch, CriticalOf, Acyclic;
    RoundOn(hash, keys, n, heuristic, failed, start, seed);
    var ends := Ends(hash, seed, keys, n);
    NoneCritical(ends, n);
    var crit := CriticalOf(ends, n);
    NothingBefore(ends, crit, heuristic, Room(heuristic, |Trues(crit)|), n);
  }

  /** The program is aborted only in the heuristic variant, on a simple graph whose queue runs full: one component of
      its 2-core has more than half of the critical vertices, and two more. */
  lemma {:induction false} AbortsOnFullQueue<Key>(hash: HashPairs<Key>, keys: seq<Key>, n: nat, heuristic: bool,
                                                  failed: nat, start: nat)
    returns (seed: nat)
    requires n >= 1 && Rounds(hash, keys, n, heuristic, failed, start).Aborts?
    ensures heuristic && n >= 2 && seed >= start && Simple(Ends(hash, seed, keys, n))
    ensures QueueRunsFull(Ends(hash, seed, keys, n), n, true)
    ensures var crit := CriticalOf(Ends(hash, seed, keys, n), n);
            !PartsAtMost(Ends(hash, seed, keys, n), crit, |Trues(crit)| / 2 + 2)
    decreases 20 - failed
  {
    hide CannotMap, Ends, Simple, OutcomeOf, CriticalOf, QueueRunsFull, PartsAtMost, Trues;
    SomeMaps(hash, keys, n, start);
    seed :| MapsAt(hash, keys, n, start, seed);
    RoundOn(hash, keys, n, heuristic, failed, start, seed);
    var ends := Ends(hash, seed, keys, n);
    if OutcomeOf(ends, n, heuristic, failed > 0).QueueFull? {
      AbortedIfFull(ends, n, heuristic, failed > 0);
      AllFitOtherwise(ends, n);
      if PartsAtMost(ends, CriticalOf(ends, n), |Trues(CriticalOf(ends, n))| / 2 + 2) {
        SmallPartsFit(ends, n, heuristic);
      }
    } else {
      seed := AbortsOnFullQueue(hash, keys, n, heuristic, failed + 1, seed + 1);
    }
  }

  /** It is aborted if the first simple graph begins with a hub. */
  lemma HubAborts<Key>(hash: HashPairs<Key>, keys: seq<Key>, n: nat, seed: nat, v: nat)
    requires n >= 1 && MapsAt(hash, keys, n, 0, seed)
    requires HubFirst(Ends(hash, seed, keys, n), CriticalOf(Ends(hash, seed, keys, n), n), v)
    ensures Rounds(hash, keys, n, true, 0, 0).Aborts?
  {
    hide MapsAt, Ends, Simple, OutcomeOf, HubFirst, CriticalOf;
    RoundOn(hash, keys, n, true, 0, 0, seed);
    HubFillsQueue(Ends(hash, seed, keys, n), n, v, false);
  }

  /** Ten keys with these hash values bring `bmz_new` to a stop. */
  lemma TwoHubsAtFirst<Key>(hash: HashPairs<Key>, keys: seq<Key>, n: nat)
    requires n >= 7 && |keys| == 10
    requires forall e :: 0 <= e < 10 ==> hash(0, keys[e]) == HashPair(HubEdge(e).a, HubEdge(e).b)
    ensures Rounds(hash, keys, n, true, 0, 0).Aborts?
  {
    forall e | 0 <= e < 10
      ensures Ends(hash, 0, keys, n)[e] == HubEdge(e)
    {
    }
    assert Ends(hash, 0, keys, n) == TwoHubs();
    TwoHubsFillQueue(n, false);
    hide Simple, TwoHubs, Ends, OutcomeOf;
    assert MapsAt(hash, keys, n, 0, 0);
    RoundOn(hash, keys, n, true, 0, 0, 0);
  }

  // ---------- looking up ----------

  /** The edge of a key in `bmz_search`: it wraps around one step later than the construction. */
  function SearchEdge(hp: HashPair, n: nat): (t: Edge)
    requires n >= 1
  {
    var h1, h2 := Mod(hp.h1, n), Mod(hp.h2, n);
    if h1 == h2 then Edge(h1, if h2 + 1 > n then 0 else h2 + 1) else Edge(h1, h2)
  }

  /** Search and construction see the same edge exactly unless both hash values fall on the last vertex; then the
      search reads past the labels. */
  lemma SearchEdgeAgrees(hp: HashPair, n: nat)
    requires n >= 2
    ensures SearchEdge(hp, n) == EdgeOf(hp, n) <==> !(Mod(hp.h1, n) == Mod(hp.h2, n) == n - 1)
    ensures SearchEdge(hp, n).b < n <==> !(Mod(hp.h1, n) == Mod(hp.h2, n) == n - 1)
  {
  }

  /** Again the remainders are the ends, but for the step past the last vertex. */
  lemma SearchEdgeMeans(hp: HashPair, n: nat)
    requires n >= 1
    ensures SearchEdge(hp, n).a == hp.h1 % n
    ensures SearchEdge(hp, n).b == if hp.h1 % n != hp.h2 % n then hp.h2 % n else hp.h1 % n + 1
  {
    ModIsRemainder(hp.h1, n);
    ModIsRemainder(hp.h2, n);
  }

  /** `bmz_search`, where it stays within the labels */
  function Search<Key>(f: Bmz, hash: HashPairs<Key>, key: Key): (v: nat)
    requires f.n >= 2 && |f.g| == f.n && SearchEdge(hash(f.seed, key), f.n).b < f.n
  {
    Sum(f.g, SearchEdge(hash(f.seed, key), f.n))
  }

  /** For any key within the labels: those at the remainders of its hash values, the second moved on if they are equal,
      are added in 32 bits. */
  lemma SearchMeans<Key>(f: Bmz, hash: HashPairs<Key>, key: Key)
    requires f.n >= 2 && |f.g| == f.n && SearchEdge(hash(f.seed, key), f.n).b < f.n
    ensures var hp, t := hash(f.seed, key), SearchEdge(hash(f.seed, key), f.n);
            && t.a == hp.h1 % f.n && t.b == (if hp.h1 % f.n != hp.h2 % f.n then hp.h2 % f.n else hp.h1 % f.n + 1)
            && Search(f, hash, key) == (f.g[t.a] + f.g[t.b]) % 0x1_0000_0000
  {
    SearchEdgeMeans(hash(f.seed, key), f.n);
  }

  /** A key that does not fall twice on the last vertex is found at the number of its edge. */
  lemma SearchFindsSum<Key>(f: Bmz, hash: HashPairs<Key>, keys: seq<Key>, i: nat)
    requires BuiltFor(f, hash, keys) && i < |keys|
    requires !(Mod(hash(f.seed, keys[i]).h1, f.n) == Mod(hash(f.seed, keys[i]).h2, f.n) == f.n - 1)
    ensures SearchEdge(hash(f.seed, keys[i]), f.n).b < f.n
    ensures Search(f, hash, keys[i]) == KeySums(Ends(hash, f.seed, keys, f.n), f.g)[i] < f.m
  {
    var hp := hash(f.seed, keys[i]);
    SearchEdgeAgrees(hp, f.n);
    assert Ends(hash, f.seed, keys, f.n)[i] == EdgeOf(hp, f.n);
  }

  /** The input on which they disagree: one key with both hash values on the last of two vertices. Construction
      succeeds in its first round, and the search for the key reads past the labels. */
  lemma LastVertexTwice<Key>(hash: HashPairs<Key>, key: Key, heuristic: bool)
    requires Mod(hash(0, key).h1, 2) == Mod(hash(0, key).h2, 2) == 1
    ensures Rounds(hash, [key], 2, heuristic, 0, 0) == Builds(0)
    ensures SearchEdge(hash(0, key), 2).b == 2
  {
    hide Rounds;
    var ends := Ends(hash, 0, [key], 2);
    assert |ends| == 1;
    hide Ends;
    OneEdgeIsForest(ends);
    assert MapsAt(hash, [key], 2, 0, 0);
    ForestRound(hash, [key], 2, heuristic, 0, 0, 0);
  }

  lemma OneEdgeIsForest(ends: seq<Edge>)
    requires |ends| == 1
    ensures Acyclic(ends)
  {
    hide Shared;
    forall core: set<nat> | Core(ends, core)
      ensures core == {}
    {
      if e :| e in core {
        NoOtherEdge(ends, core, e, ends[e].a);
      }
    }
  }

  lemma NoOtherEdge(ends: seq<Edge>, core: set<nat>, e: nat, v: nat)
    requires |ends| == 1 && e == 0
    ensures !Shared(ends, core, e, v)
  {
  }
}
