/**
 CHM (chm.c): keys are the edges of a random graph. When it is a forest, vertices can be
 labelled so that the labels of the ends of every edge add up to its number: the hash function keeps the order
 of the keys.
 */
module Chm {
  import opened Words
  import opened Graphs
  import opened Forests
  import opened Visits
  import opened Hashing
  import opened KeyEdges
  import opened Options

  // ---------- the state of the search ----------

  /** Edges between visited vertices have labels that add up to their number, in 32-bit arithmetic. */
  ghost predicate Labelled(ends: seq<Edge>, vis: seq<bool>, g: seq<nat>) {
    && |vis| == |g| && EdgesOk(ends, |vis|)
    && (forall v :: 0 <= v < |vis| && vis[v] ==> g[v] < WORD_LIMIT)
    && (forall e :: 0 <= e < |ends| && vis[ends[e].a] && vis[ends[e].b] ==> Sum(g, ends[e]) == e)
  }

  /** The current tree is visited, and nothing else is near it. */
  ghost predicate Growing(ends: seq<Edge>, vis: seq<bool>, g: seq<nat>, comp: set<nat>, tree: set<nat>) {
    && Labelled(ends, vis, g) && Hanging(ends, {}, comp, tree) && Apart(ends, vis, comp)
    && forall v :: v in comp ==> v < |vis| && vis[v]
  }

  /** The new vertex has just the one edge to visited vertices. */
  lemma OnlyEdge(ends: seq<Edge>, vis: seq<bool>, comp: set<nat>, tree: set<nat>, w: nat, e: nat, f: nat)
    requires Acyclic(ends) && EdgesOk(ends, |vis|) && Hanging(ends, {}, comp, tree) && Apart(ends, vis, comp)
    requires w < |vis| && !vis[w] && w !in comp
    requires e < |ends| && ends[e].Has(w) && ends[e].Other(w) in comp
    requires f < |ends| && ends[f].Has(w) && ends[f].Other(w) < |vis| && vis[ends[f].Other(w)]
    ensures f == e
  {
    assert !Outside(vis, comp, w);
    assert !Outside(vis, comp, ends[f].Other(w));
    hide Hanging, EndOf;
    NothingEnds(ends, w);
    ForestHasEmptyCore(ends);
    OneEdgeToPart(ends, {}, |vis|, comp, tree, w, f, e);
  }

  lemma GrowLabels(ends: seq<Edge>, vis: seq<bool>, g: seq<nat>, comp: set<nat>, tree: set<nat>, v: nat, w: nat, e: nat)
    requires Acyclic(ends) && |ends| <= WORD_LIMIT && Growing(ends, vis, g, comp, tree)
    requires v in comp && w < |vis| && !vis[w] && e < |ends| && Joins(ends[e], v, w)
    ensures g[v] < WORD_LIMIT && Labelled(ends, vis[w := true], g[w := LabelFor(e, g[v])])
  {
    assert w !in comp && ends[e].Other(w) == v;
    var vis', g' := vis[w := true], g[w := LabelFor(e, g[v])];
    SumOfLabelled(g, ends[e], v, w, e);
    hide LabelFor, Acyclic, Hanging, Apart, Sum;
    forall f | 0 <= f < |ends| && vis'[ends[f].a] && vis'[ends[f].b]
      ensures Sum(g', ends[f]) == f
    {
      assert EdgeOk(ends[f], |vis|);
      if ends[f].Has(w) {
        OnlyEdge(ends, vis, comp, tree, w, e, f);
      } else {
        SumSame(g, g', ends[f]);
      }
    }
  }

  /** Labelling and visiting a neighbour */
  lemma Grow(ends: seq<Edge>, vis: seq<bool>, g: seq<nat>, comp: set<nat>, tree: set<nat>, v: nat, w: nat, e: nat)
    requires Acyclic(ends) && |ends| <= WORD_LIMIT && Growing(ends, vis, g, comp, tree)
    requires v in comp && w < |vis| && !vis[w] && e < |ends| && Joins(ends[e], v, w)
    ensures g[v] < WORD_LIMIT
    ensures Growing(ends, vis[w := true], g[w := LabelFor(e, g[v])], comp + {w}, tree + {e})
  {
    hide Labelled, LabelFor, Acyclic, Hanging, EndOf;
    assert w !in comp && ends[e].Other(w) == v && ends[e].Has(w);
    GrowLabels(ends, vis, g, comp, tree, v, w, e);
    assert !EndOf(ends, {}, w) by {
      NothingEnds(ends, w);
    }
    PartGrows(ends, {}, comp, tree, w, e);
    SameOutside(vis, comp, w);
  }

  lemma NothingEnds(ends: seq<Edge>, w: nat)
    ensures !EndOf(ends, {}, w)
  {
  }

  // ---------- the search ----------

  /** `chm_traverse`: depth-first search from a labelled vertex */
  method Traverse(graph: Graph, g: array<nat>, visited: array<bool>, v: nat,
                  ghost ends: seq<Edge>, ghost adj: seq<seq<nat>>, ghost comp: set<nat>, ghost tree: set<nat>)
    returns (ghost comp': set<nat>, ghost tree': set<nat>)
    requires graph.Holds(ends, adj) && g.Length == visited.Length == graph.nnodes <= NO_NEIGHBOR
    requires g != graph.first && g != graph.next && g != graph.edges && Acyclic(ends)
    requires v in comp && v < graph.nnodes && !visited[v]
    requires Growing(ends, visited[..][v := true], g[..], comp, tree)
    modifies g, visited
    ensures Growing(ends, visited[..], g[..], comp', tree') && comp <= comp'
    ensures visited[v] && Surrounded(ends, visited[..], v)
    ensures DoneBut(ends, old(visited[..]), visited[..], v)
    decreases Unvisited(visited[..]), 0
  {
    ghost var before := visited[..];
    graph.IdsHold(v, ends, adj);
    ghost var ids := Ids(adj[v], graph.nedges);
    hide Growing, Surrounded, Acyclic, EdgesAt, Represents, Ids, DoneBut, VisitedUpTo, Joins;
    var it := graph.NeighborsIt(v, ends, adj);
    visited[v] := true;
    NoneVisitedYet(ends, before, v, ids);
    assert visited[..] == before[v := true];
    comp', tree' := comp, tree;
    ghost var p := 0;
    while true
      invariant it.vertex == v && graph.StandsAt(it, adj[v], p)
      invariant VisitedUpTo(ends, visited[..], ids, v, p)
      invariant Growing(ends, visited[..], g[..], comp', tree') && comp <= comp'
      invariant visited[v] && DoneBut(ends, before, visited[..], v)
      decreases |adj[v]| - p
    {
      var neighbor: nat;
      neighbor, it := graph.NextNeighbor(it, ends, adj, p);
      if neighbor == NO_NEIGHBOR {
        break;
      }
      ghost var now, e := visited[..], ids[p];
      DoneIsLater(ends, before, now, v);
      if !visited[neighbor] {
        FewerUnvisited(before, now, v);
        comp', tree' := Visit(graph, g, visited, v, neighbor, ends, adj, comp', tree', e);
        DoneAfter(ends, before, now, visited[..], v, neighbor);
        DoneIsLater(ends, now, visited[..], neighbor);
        DoneIsLater(ends, before, visited[..], v);
      }
      VisitOneMore(ends, now, visited[..], ids, v, p, neighbor);
      p := p + 1;
    }
    AllVisited(ends, visited[..], ids, v);
  }

  /** The part of the loop for an unvisited neighbour: label it, and go on from there. */
  method Visit(graph: Graph, g: array<nat>, visited: array<bool>, v: nat, neighbor: nat, ghost ends: seq<Edge>,
               ghost adj: seq<seq<nat>>, ghost comp: set<nat>, ghost tree: set<nat>, ghost e: nat)
    returns (ghost comp': set<nat>, ghost tree': set<nat>)
    requires graph.Holds(ends, adj) && g.Length == visited.Length == graph.nnodes <= NO_NEIGHBOR
    requires g != graph.first && g != graph.next && g != graph.edges && Acyclic(ends)
    requires v in comp && v < graph.nnodes && neighbor < graph.nnodes && !visited[neighbor]
    requires e < |ends| && Joins(ends[e], v, neighbor)
    requires Growing(ends, visited[..], g[..], comp, tree)
    modifies g, visited
    ensures Growing(ends, visited[..], g[..], comp', tree') && comp <= comp'
    ensures visited[neighbor] && Surrounded(ends, visited[..], neighbor)
    ensures DoneBut(ends, old(visited[..]), visited[..], neighbor)
    decreases Unvisited(visited[..]), 1
  {
    hide Surrounded, Acyclic, DoneBut, Growing, Represents;
    graph.FewEdges(ends, adj);
    ghost var labels := g[..];
    var id := graph.EdgeId(v, neighbor, ends, adj, e);
    Grow(ends, visited[..], labels, comp, tree, v, neighbor, id);
    g[neighbor] := (id + WORD_LIMIT - g[v]) % WORD_LIMIT;
    assert g[..] == labels[neighbor := LabelFor(id, labels[v])];
    comp', tree' := Traverse(graph, g, visited, neighbor, ends, adj, comp + {neighbor}, tree + {id});
  }

  // ---------- the assignment step ----------

  lemma StartComponent(ends: seq<Edge>, vis: seq<bool>, g: seq<nat>, i: nat)
    requires Labelled(ends, vis, g) && Closed(ends, vis) && i < |vis| && !vis[i]
    ensures Growing(ends, vis[i := true], g[i := 0], {i}, {})
  {
    var vis', g' := vis[i := true], g[i := 0];
    forall v
      ensures Outside(vis', {i}, v) <==> Outside(vis, {}, v)
    {
    }
    forall e | 0 <= e < |ends| && vis'[ends[e].a] && vis'[ends[e].b]
      ensures Sum(g', ends[e]) == e
    {
      assert EdgeOk(ends[e], |vis|);
      assert Outside(vis, {}, ends[e].a) <==> Outside(vis, {}, ends[e].b);
    }
  }

  /** The assignment step of `chm_new`: a search from every vertex that no search has reached. All edges are
      labelled in the end. */
  method AssignLabels(graph: Graph, ghost ends: seq<Edge>, ghost adj: seq<seq<nat>>) returns (g: array<nat>)
    requires graph.Holds(ends, adj) && graph.nnodes <= NO_NEIGHBOR && Acyclic(ends)
    ensures fresh(g) && g.Length == graph.nnodes
    ensures Labelled(ends, seq(graph.nnodes, _ => true), g[..])
  {
    var visited := new bool[graph.nnodes](_ => false);
    g := new nat[graph.nnodes];
    graph.FewEdges(ends, adj);
    StartLabels(ends, visited[..], g[..]);
    hide Labelled, Closed, Acyclic, Surrounded, Represents;
    for i := 0 to graph.nnodes
      invariant Labelled(ends, visited[..], g[..]) && Closed(ends, visited[..])
      invariant forall v :: 0 <= v < i ==> visited[v]
    {
      if !visited[i] {
        StartSearch(graph, g, visited, i, ends, adj);
      }
    }
    assert visited[..] == seq(graph.nnodes, _ => true);
  }

  lemma StartLabels(ends: seq<Edge>, vis: seq<bool>, g: seq<nat>)
    requires EdgesOk(ends, |vis|) && |vis| == |g| && forall v :: 0 <= v < |vis| ==> !vis[v]
    ensures Labelled(ends, vis, g) && Closed(ends, vis)
  {
    forall e | 0 <= e < |ends|
      ensures !vis[ends[e].a] && !vis[ends[e].b]
    {
      assert EdgeOk(ends[e], |vis|);
    }
  }

  method StartSearch(graph: Graph, g: array<nat>, visited: array<bool>, i: nat, ghost ends: seq<Edge>,
                     ghost adj: seq<seq<nat>>)
    requires graph.Holds(ends, adj) && g.Length == visited.Length == graph.nnodes <= NO_NEIGHBOR
    requires g != graph.first && g != graph.next && g != graph.edges && Acyclic(ends)
    requires Labelled(ends, visited[..], g[..]) && Closed(ends, visited[..]) && i < graph.nnodes && !visited[i]
    modifies g, visited
    ensures Labelled(ends, visited[..], g[..]) && Closed(ends, visited[..])
    ensures visited[i] && Later(old(visited[..]), visited[..])
  {
    ghost var labels, before := g[..], visited[..];
    graph.FewEdges(ends, adj);
    StartComponent(ends, before, labels, i);
    hide Closed, Represents, Acyclic, Apart, Hanging, Surrounded;
    g[i] := 0;
    assert g[..] == labels[i := 0];
    ghost var comp, tree := Traverse(graph, g, visited, i, ends, adj, {i}, {});
    EndComponent(ends, before, visited[..], i);
  }

  // ---------- the mapping step ----------

  /** `chm_gen_edges` accepts exactly the forests without loops. */
  method GenEdges<Key>(graph: Graph, hash: HashPairs<Key>, seed: nat, keys: seq<Key>)
    returns (ok: bool, ghost adj: seq<seq<nat>>)
    requires graph.Allocated() && graph.nnodes >= 1 && |keys| == graph.nedges >= 1
    modifies graph, graph.edges, graph.first, graph.next
    ensures ok <==> graph.nnodes >= 2 && Acyclic(Ends(hash, seed, keys, graph.nnodes))
    ensures ok ==> graph.Holds(Ends(hash, seed, keys, graph.nnodes), adj)
  {
    ghost var ends := Ends(hash, seed, keys, graph.nnodes);
    graph.ClearEdges();
    adj := seq(graph.nnodes, _ => []);
    assert ends[..0] == [];
    hide Represents, Acyclic, LinkedAdj;
    for e := 0 to |keys|
      invariant graph.Holds(ends[..e], adj) && (e >= 1 ==> graph.nnodes >= 2)
    {
      var t := EdgeOf(hash(seed, keys[e]), graph.nnodes);
      assert t == ends[e] == Edge(t.a, t.b);
      if t.a == t.b {
        return false, adj;
      }
      ghost var lists := LinkedAdj(adj, e, t, graph.nedges);
      graph.AddEdge(t.a, t.b, ends[..e], adj);
      adj := lists;
      assert ends[..e] + [ends[e]] == ends[..e + 1];
    }
    assert ends[..|keys|] == ends;
    var cycles := graph.IsCyclic(ends, adj);
    ok := !cycles;
  }

  // ---------- the function ----------

  /** `chm_data_t`; the seed stands for the two hash states. */
  datatype Chm = Chm(seed: nat, n: nat, m: nat, g: seq<nat>)

  /** `chm_search`. The sum wraps around before the remainder is taken. */
  function Search<Key>(f: Chm, hash: HashPairs<Key>, key: Key): (v: nat)
    requires f.n >= 1 && f.m >= 1 && |f.g| == f.n
    ensures v < f.m
  {
    var t := EdgeOf(hash(f.seed, key), f.n);
    Sum(f.g, t) % f.m
  }

  /** For any key: the labels at the remainders of its hash values, the second of them moved on if they are equal, are
      added in 32 bits and reduced. */
  lemma SearchMeans<Key>(f: Chm, hash: HashPairs<Key>, key: Key)
    requires f.n >= 1 && f.m >= 1 && |f.g| == f.n
    ensures var h1, h2 := hash(f.seed, key).h1, hash(f.seed, key).h2;
            Search(f, hash, key)
            == (f.g[h1 % f.n] + f.g[if h1 % f.n != h2 % f.n then h2 % f.n else (h1 + 1) % f.n]) % 0x1_0000_0000 % f.m
  {
    EdgeOfMeans(hash(f.seed, key), f.n);
  }

  /** What a successful construction promises: every key is found at its place in the input. */
  ghost predicate BuiltFor<Key>(f: Chm, hash: HashPairs<Key>, keys: seq<Key>) {
    && f.n >= 1 && f.m == |keys| >= 1 && |f.g| == f.n
    && forall i :: 0 <= i < |keys| ==> Search(f, hash, keys[i]) == i
  }

  lemma LabelsFindKeys<Key>(f: Chm, hash: HashPairs<Key>, keys: seq<Key>)
    requires f.n >= 2 && f.m == |keys| >= 1 && |f.g| == f.n
    requires Labelled(Ends(hash, f.seed, keys, f.n), seq(f.n, _ => true), f.g)
    ensures BuiltFor(f, hash, keys)
  {
    var ends := Ends(hash, f.seed, keys, f.n);
    forall i | 0 <= i < |keys|
      ensures Search(f, hash, keys[i]) == i
    {
      var t := ends[i];
      assert t == EdgeOf(hash(f.seed, keys[i]), f.n) && EdgeOk(t, f.n);
      assert Sum(f.g, t) == i;
      SmallModulo(i, f.m);
    }
  }

  /** `chm_new`. The number of vertices comes from a floating-point expression, and is given. It fails exactly when
      none of twenty pairs of hash functions gives a forest. */
  method New<Key>(hash: HashPairs<Key>, keys: seq<Key>, n: Uint32) returns (f: Option<Chm>)
    requires |keys| >= 1 && n >= 1 && 2 * |keys| <= EMPTY
    ensures f.Some? ==> BuiltFor(f.value, hash, keys)
    ensures f.None? <==> n == 1 || forall seed: nat :: seed < 20 ==> !Acyclic(Ends(hash, seed, keys, n))
  {
    hide Acyclic, Ends, Represents, Labelled;
    var graph := new Graph(n, |keys|);
    var iterations, seed := 20, 0;
    ghost var adj;
    while true
      invariant 1 <= iterations <= 20 && seed == 20 - iterations
      invariant forall s: nat :: s < seed ==> n == 1 || !Acyclic(Ends(hash, s, keys, n))
      decreases iterations
    {
      var ok;
      ok, adj := GenEdges(graph, hash, seed, keys);
      if ok {
        break;
      }
      iterations := iterations - 1;
      if iterations == 0 {
        return None;
      }
      seed := seed + 1;
    }
    var g := AssignLabels(graph, Ends(hash, seed, keys, n), adj);
    f := Some(Chm(seed, n, |keys|, g[..]));
    LabelsFindKeys(f.value, hash, keys);
  }
}
