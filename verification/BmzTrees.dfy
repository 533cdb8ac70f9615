/**
 The second half of BMZ's search (bmz.c): the trees that hang from the 2-core, and the trees of their own,
 are labelled by depth-first search, each edge taking the next number that no edge of the 2-core has.
 */
module BmzTrees {
  import opened Words
  import opened Counting
  import opened Graphs
  import opened Forests
  import opened Visits

  // ---------- the numbers of the edges ----------

  /** Both ends of the edge are visited. */
  predicate Finished(vis: seq<bool>, t: Edge) {
    t.a < |vis| && t.b < |vis| && vis[t.a] && vis[t.b]
  }

  ghost predicate SumInRange(ends: seq<Edge>, vis: seq<bool>, g: seq<nat>, e: nat)
    requires e < |ends| && |vis| == |g|
  {
    Finished(vis, ends[e]) ==> Sum(g, ends[e]) < |ends|
  }

  ghost predicate SumsDiffer(ends: seq<Edge>, vis: seq<bool>, g: seq<nat>, e: nat, f: nat)
    requires e < |ends| && f < |ends| && |vis| == |g|
  {
    Finished(vis, ends[e]) && Finished(vis, ends[f]) ==> Sum(g, ends[e]) != Sum(g, ends[f])
  }

  /** Edges with both ends visited have different numbers, all of them below the number of edges. */
  ghost predicate SumsApart(ends: seq<Edge>, vis: seq<bool>, g: seq<nat>) {
    && |vis| == |g| && EdgesOk(ends, |vis|)
    && (forall v :: 0 <= v < |vis| && vis[v] ==> g[v] < WORD_LIMIT)
    && (forall e :: 0 <= e < |ends| ==> SumInRange(ends, vis, g, e))
    && (forall e, f :: 0 <= e < f < |ends| ==> SumsDiffer(ends, vis, g, e, f))
  }

  /** The edges outside the 2-core that have a number */
  ghost function NumberedOutside(ends: seq<Edge>, core: set<nat>, vis: seq<bool>): (s: set<nat>)
    ensures forall e: nat :: e in s <==> e < |ends| && e !in core && Finished(vis, ends[e])
  {
    set e: nat | e < |ends| && e !in core && Finished(vis, ends[e])
  }

  /** The numbers below `k` that no edge of the 2-core has */
  ghost function UnusedBelow(used: seq<bool>, k: nat): (s: set<nat>)
    requires k <= |used|
    ensures forall x: nat :: x in s <==> x < k && !used[x]
  {
    set x: nat | x < k && !used[x]
  }

  /** Numbers of edges of the 2-core are marked as used; other edges have those not used below `idx`. */
  ghost predicate NumberOk(ends: seq<Edge>, core: set<nat>, vis: seq<bool>, g: seq<nat>, used: seq<bool>, idx: nat,
                           e: nat)
    requires e < |ends| == |used| && |vis| == |g|
  {
    Finished(vis, ends[e]) && Sum(g, ends[e]) < |used| ==>
      if e in core then used[Sum(g, ends[e])] else !used[Sum(g, ends[e])] && Sum(g, ends[e]) < idx
  }

  ghost predicate NumbersOk(ends: seq<Edge>, core: set<nat>, vis: seq<bool>, g: seq<nat>, used: seq<bool>, idx: nat) {
    && |used| == |ends| && idx <= |used| && |vis| == |g|
    && (forall e :: 0 <= e < |ends| ==> NumberOk(ends, core, vis, g, used, idx, e))
    && |NumberedOutside(ends, core, vis)| == |UnusedBelow(used, idx)|
    && |core| == |Trues(used)| && InRange(ends, core)
  }

  /** Enough numbers are left for an edge that has none yet. */
  lemma NumberLeft(ends: seq<Edge>, core: set<nat>, vis: seq<bool>, g: seq<nat>, used: seq<bool>, idx: nat, e: nat)
    returns (x: nat)
    requires NumbersOk(ends, core, vis, g, used, idx) && e < |ends| && e !in core && !Finished(vis, ends[e])
    ensures idx <= x < |used| && !used[x]
  {
    var m := |ends|;
    var numbered := NumberedOutside(ends, core, vis);
    SubsetCount(numbered + core + {e}, UpTo(m));
    assert |numbered + core| == |numbered| + |core|;
    assert |numbered + core + {e}| == |numbered| + |core| + 1;
    assert UnusedBelow(used, m) + Trues(used) == UpTo(m);
    assert |UnusedBelow(used, m)| == m - |core|;
    if UnusedBelow(used, m) <= UnusedBelow(used, idx) {
      SubsetCount(UnusedBelow(used, m), UnusedBelow(used, idx));
    }
    x :| x in UnusedBelow(used, m) && x !in UnusedBelow(used, idx);
  }

  // ---------- one more edge ----------

  /** All that the traversal keeps: the numbers, and the part that it is growing */
  ghost predicate Numbered(ends: seq<Edge>, core: set<nat>, vis: seq<bool>, g: seq<nat>, used: seq<bool>, idx: nat,
                           comp: set<nat>, tree: set<nat>) {
    && SumsApart(ends, vis, g) && NumbersOk(ends, core, vis, g, used, idx)
    && PartOk(ends, core, vis, comp, tree)
  }

  ghost predicate PartOk(ends: seq<Edge>, core: set<nat>, vis: seq<bool>, comp: set<nat>, tree: set<nat>) {
    && Hanging(ends, core, comp, tree) && Apart(ends, vis, comp)
    && (forall v :: v in comp ==> v < |vis| && vis[v])
    && (forall v: nat :: v < |vis| && EndOf(ends, core, v) ==> vis[v])
  }

  /** The new vertex has just the one edge to visited vertices. */
  lemma OnlyEdge(ends: seq<Edge>, core: set<nat>, vis: seq<bool>, comp: set<nat>, tree: set<nat>, w: nat, e: nat,
                 f: nat)
    requires IsTwoCore(ends, core) && EdgesOk(ends, |vis|) && PartOk(ends, core, vis, comp, tree)
    requires w < |vis| && !vis[w]
    requires e < |ends| && ends[e].Has(w) && ends[e].Other(w) in comp
    requires f < |ends| && ends[f].Has(w) && ends[f].Other(w) < |vis| && vis[ends[f].Other(w)]
    ensures f == e && e !in core
  {
    assert !Outside(vis, comp, w);
    assert !Outside(vis, comp, ends[f].Other(w));
    hide Hanging, EndOf, IsTwoCore;
    OneEdgeToPart(ends, core, |vis|, comp, tree, w, f, e);
  }

  /** Visiting `w` finishes edge `f` only if that is `e`. */
  ghost predicate FinishedWith(ends: seq<Edge>, vis: seq<bool>, w: nat, e: nat, f: nat)
    requires w < |vis| && f < |ends|
  {
    && (Finished(vis[w := true], ends[f]) <==> Finished(vis, ends[f]) || f == e)
    && (f != e && Finished(vis, ends[f]) ==> ends[f].a != w && ends[f].b != w)
  }

  lemma FinishesOne(ends: seq<Edge>, core: set<nat>, vis: seq<bool>, comp: set<nat>, tree: set<nat>, v: nat, w: nat,
                    e: nat, f: nat)
    requires IsTwoCore(ends, core) && EdgesOk(ends, |vis|) && PartOk(ends, core, vis, comp, tree)
    requires v in comp && v < |vis| && vis[v] && w < |vis| && !vis[w]
    requires e < |ends| && Joins(ends[e], v, w) && f < |ends|
    ensures e !in core && !Finished(vis, ends[e]) && FinishedWith(ends, vis, w, e, f)
  {
    hide PartOk, IsTwoCore;
    assert v != w && ends[e].Other(w) == v && EdgeOk(ends[e], |vis|) && EdgeOk(ends[f], |vis|);
    OnlyEdge(ends, core, vis, comp, tree, w, e, e);
    if ends[f].Has(w) && vis[ends[f].Other(w)] {
      OnlyEdge(ends, core, vis, comp, tree, w, e, f);
    }
  }

  lemma SumsGrow(ends: seq<Edge>, core: set<nat>, vis: seq<bool>, g: seq<nat>, used: seq<bool>, idx: nat,
                 v: nat, w: nat, e: nat, x: nat)
    requires SumsApart(ends, vis, g) && NumbersOk(ends, core, vis, g, used, idx) && |ends| <= WORD_LIMIT
    requires v < |vis| && vis[v] && w < |vis| && !vis[w] && e < |ends| && Joins(ends[e], v, w) && e !in core
    requires forall f :: 0 <= f < |ends| ==> FinishedWith(ends, vis, w, e, f)
    requires idx <= x < |used| && !used[x]
    ensures g[v] < WORD_LIMIT
    ensures SumsApart(ends, vis[w := true], g[w := LabelFor(x, g[v])])
  {
    var vis', g' := vis[w := true], g[w := LabelFor(x, g[v])];
    assert EdgeOk(ends[e], |vis|);
    SumOfLabelled(g, ends[e], v, w, x);
    hide Sum, LabelFor, Joins;
    forall f | 0 <= f < |ends| && f != e && Finished(vis', ends[f])
      ensures Sum(g', ends[f]) == Sum(g, ends[f]) < |ends| && Sum(g, ends[f]) != x
    {
      assert FinishedWith(ends, vis, w, e, f);
      SumSame(g, g', ends[f]);
      assert SumInRange(ends, vis, g, f) && NumberOk(ends, core, vis, g, used, idx, f);
    }
    forall f, h | 0 <= f < h < |ends|
      ensures SumsDiffer(ends, vis', g', f, h)
    {
      assert SumsDiffer(ends, vis, g, f, h);
      assert FinishedWith(ends, vis, w, e, f) && FinishedWith(ends, vis, w, e, h);
    }
  }

  lemma NumbersGrow(ends: seq<Edge>, core: set<nat>, vis: seq<bool>, g: seq<nat>, used: seq<bool>, idx: nat,
                    v: nat, w: nat, e: nat, x: nat)
    requires SumsApart(ends, vis, g) && NumbersOk(ends, core, vis, g, used, idx) && |ends| <= WORD_LIMIT
    requires v < |vis| && vis[v] && w < |vis| && !vis[w] && e < |ends| && Joins(ends[e], v, w) && e !in core
    requires !Finished(vis, ends[e])
    requires forall f :: 0 <= f < |ends| ==> FinishedWith(ends, vis, w, e, f)
    requires idx <= x < |used| && !used[x] && forall y :: idx <= y < x ==> used[y]
    ensures g[v] < WORD_LIMIT
    ensures NumbersOk(ends, core, vis[w := true], g[w := LabelFor(x, g[v])], used, x + 1)
  {
    assert EdgeOk(ends[e], |vis|);
    SumOfLabelled(g, ends[e], v, w, x);
    hide Sum, LabelFor, Joins, NumberOk, FinishedWith, Finished;
    NumbersStill(ends, core, vis, vis[w := true], g, g[w := LabelFor(x, g[v])], used, idx, w, e, x, x + 1);
    NumberedMore(ends, core, vis, w, e);
    UnusedMore(used, idx, x);
    hide NumberedOutside, UnusedBelow, SumsApart, Trues;
  }

  lemma UnusedMore(used: seq<bool>, idx: nat, x: nat)
    requires idx <= x < |used| && !used[x] && forall y :: idx <= y < x ==> used[y]
    ensures |UnusedBelow(used, x + 1)| == |UnusedBelow(used, idx)| + 1
  {
    assert UnusedBelow(used, x + 1) == UnusedBelow(used, idx) + {x};
  }

  lemma NumbersStill(ends: seq<Edge>, core: set<nat>, vis: seq<bool>, vis': seq<bool>, g: seq<nat>, g': seq<nat>,
                     used: seq<bool>, idx: nat, w: nat, e: nat, x: nat, next: nat)
    requires NumbersOk(ends, core, vis, g, used, idx) && EdgesOk(ends, |vis|) && w < |vis| && e < |ends| && e !in core
    requires vis' == vis[w := true] && |g'| == |g| && forall v :: 0 <= v < |g| && v != w ==> g'[v] == g[v]
    requires forall f :: 0 <= f < |ends| ==> FinishedWith(ends, vis, w, e, f)
    requires idx <= x < |used| && !used[x] && next == x + 1 && Sum(g', ends[e]) == x
    ensures forall f :: 0 <= f < |ends| ==> NumberOk(ends, core, vis', g', used, next, f)
  {
    hide Sum;
    forall f | 0 <= f < |ends|
      ensures NumberOk(ends, core, vis', g', used, next, f)
    {
      assert FinishedWith(ends, vis, w, e, f) && NumberOk(ends, core, vis, g, used, idx, f) && EdgeOk(ends[f], |vis|);
      if f != e && Finished(vis', ends[f]) {
        SumSame(g, g', ends[f]);
      }
    }
  }

  lemma NumberedMore(ends: seq<Edge>, core: set<nat>, vis: seq<bool>, w: nat, e: nat)
    requires w < |vis| && e < |ends| && e !in core && !Finished(vis, ends[e])
    requires forall f :: 0 <= f < |ends| ==> FinishedWith(ends, vis, w, e, f)
    ensures NumberedOutside(ends, core, vis[w := true]) == NumberedOutside(ends, core, vis) + {e}
    ensures |NumberedOutside(ends, core, vis[w := true])| == |NumberedOutside(ends, core, vis)| + 1
  {
    forall f: nat
      ensures f in NumberedOutside(ends, core, vis[w := true]) <==> f in NumberedOutside(ends, core, vis) || f == e
    {
      assert f < |ends| ==> FinishedWith(ends, vis, w, e, f);
    }
  }

  /** Numbering an edge, and visiting its other end */
  lemma NumberEdge(ends: seq<Edge>, core: set<nat>, vis: seq<bool>, g: seq<nat>, used: seq<bool>, idx: nat,
                   comp: set<nat>, tree: set<nat>, v: nat, w: nat, e: nat, x: nat)
    requires IsTwoCore(ends, core) && |ends| <= WORD_LIMIT && Numbered(ends, core, vis, g, used, idx, comp, tree)
    requires v in comp && w < |vis| && !vis[w] && e < |ends| && Joins(ends[e], v, w)
    requires idx <= x < |used| && !used[x] && forall y :: idx <= y < x ==> used[y]
    ensures g[v] < WORD_LIMIT
    ensures Numbered(ends, core, vis[w := true], g[w := LabelFor(x, g[v])], used, x + 1, comp + {w}, tree + {e})
  {
    hide IsTwoCore, SumsApart, NumbersOk, Hanging, EndOf, LabelFor;
    assert EdgesOk(ends, |vis|) by {
      SumsHaveEdges(ends, vis, g);
    }
    forall f | 0 <= f < |ends|
      ensures FinishedWith(ends, vis, w, e, f)
    {
      FinishesOne(ends, core, vis, comp, tree, v, w, e, f);
    }
    FinishesOne(ends, core, vis, comp, tree, v, w, e, e);
    SumsGrow(ends, core, vis, g, used, idx, v, w, e, x);
    NumbersGrow(ends, core, vis, g, used, idx, v, w, e, x);
    assert w !in comp && ends[e].Other(w) == v && ends[e].Has(w);
    PartGrows(ends, core, comp, tree, w, e);
    SameOutside(vis, comp, w);
  }

  lemma SumsHaveEdges(ends: seq<Edge>, vis: seq<bool>, g: seq<nat>)
    requires SumsApart(ends, vis, g)
    ensures EdgesOk(ends, |vis|) && |vis| == |g|
  {
  }

  // ---------- the traversal ----------

  /** `next_unused_edge`: the next number that no edge of the 2-core has, when there is one */
  method NextUnusedEdge(usedEdges: array<bool>, unusedEdgeIndex: nat, ghost left: nat) returns (x: nat)
    requires unusedEdgeIndex <= left < usedEdges.Length && !usedEdges[left]
    ensures unusedEdgeIndex <= x < usedEdges.Length && !usedEdges[x]
    ensures forall y :: unusedEdgeIndex <= y < x ==> usedEdges[y]
  {
    x := unusedEdgeIndex;
    while true
      invariant unusedEdgeIndex <= x <= left && forall y :: unusedEdgeIndex <= y < x ==> usedEdges[y]
      decreases left - x
    {
      if usedEdges[x] {
        x := x + 1;
      } else {
        break;
      }
    }
  }

  /** The part has grown by the newly visited vertices. */
  ghost predicate GrownBy(vis: seq<bool>, vis': seq<bool>, comp: set<nat>, comp': set<nat>) {
    |vis| == |vis'| && comp <= comp' && forall v: nat :: v < |vis| && vis'[v] && !vis[v] ==> v in comp'
  }

  lemma GrownByMore(vis: seq<bool>, vis1: seq<bool>, vis2: seq<bool>, comp: set<nat>, comp1: set<nat>, comp2: set<nat>)
    requires GrownBy(vis, vis1, comp, comp1) && GrownBy(vis1, vis2, comp1, comp2)
    ensures GrownBy(vis, vis2, comp, comp2)
  {
  }

  lemma DoneNothing(ends: seq<Edge>, vis: seq<bool>, v: nat, ids: seq<nat>, comp: set<nat>)
    ensures DoneBut(ends, vis, vis, v) && VisitedUpTo(ends, vis, ids, v, 0) && GrownBy(vis, vis, comp, comp)
  {
  }

  /** `bmz_traverse`: depth-first search from a visited vertex */
  method Traverse(graph: Graph, g: array<nat>, usedEdges: array<bool>, visited: array<bool>, v: nat,
                  unusedEdgeIndex: nat,
                  ghost ends: seq<Edge>, ghost adj: seq<seq<nat>>, ghost core: set<nat>, ghost comp: set<nat>,
                  ghost tree: set<nat>)
    returns (idx: nat, ghost comp': set<nat>, ghost tree': set<nat>)
    requires graph.Holds(ends, adj) && g.Length == visited.Length == graph.nnodes <= NO_NEIGHBOR && usedEdges != visited
    requires g != graph.first && g != graph.next && g != graph.edges && IsTwoCore(ends, core)
    requires v in comp && v < graph.nnodes && visited[v]
    requires Numbered(ends, core, visited[..], g[..], usedEdges[..], unusedEdgeIndex, comp, tree)
    modifies g, visited
    ensures Numbered(ends, core, visited[..], g[..], usedEdges[..], idx, comp', tree')
    ensures GrownBy(old(visited[..]), visited[..], comp, comp') && Surrounded(ends, visited[..], v)
    ensures DoneBut(ends, old(visited[..]), visited[..], v)
    decreases Unvisited(visited[..]), 1
  {
    ghost var before := visited[..];
    graph.IdsHold(v, ends, adj);
    ghost var ids := Ids(adj[v], graph.nedges);
    hide Numbered, Surrounded, IsTwoCore, EdgesAt, Represents, Ids, DoneBut, VisitedUpTo, Joins, GrownBy, Unvisited;
    DoneNothing(ends, before, v, ids, comp);
    var it := graph.NeighborsIt(v, ends, adj);
    idx, comp', tree' := unusedEdgeIndex, comp, tree;
    ghost var p := 0;
    while true
      invariant it.vertex == v && graph.StandsAt(it, adj[v], p)
      invariant VisitedUpTo(ends, visited[..], ids, v, p) && v in comp'
      invariant Numbered(ends, core, visited[..], g[..], usedEdges[..], idx, comp', tree')
      invariant visited[v] && DoneBut(ends, before, visited[..], v) && GrownBy(before, visited[..], comp, comp')
      invariant Unvisited(visited[..]) <= Unvisited(before)
      decreases |adj[v]| - p
    {
      var neighbor: nat;
      neighbor, it := graph.NextNeighbor(it, ends, adj, p);
      if neighbor == NO_NEIGHBOR {
        break;
      }
      ghost var now, e, comp1 := visited[..], ids[p], comp';
      DoneIsLater(ends, before, now, v);
      if !visited[neighbor] {
        idx, comp', tree' := Visit(graph, g, usedEdges, visited, v, neighbor, idx, ends, adj, core, comp', tree', e);
        AfterVisit(ends, before, now, visited[..], comp, comp1, comp', v, neighbor);
      }
      VisitOneMore(ends, now, visited[..], ids, v, p, neighbor);
      p := p + 1;
    }
    AllVisited(ends, visited[..], ids, v);
  }

  /** Two parts of a search, the second from a neighbour, one after the other */
  lemma AfterVisit(ends: seq<Edge>, before: seq<bool>, now: seq<bool>, after: seq<bool>, comp: set<nat>,
                   comp1: set<nat>, comp2: set<nat>, v: nat, neighbor: nat)
    requires DoneBut(ends, before, now, v) && GrownBy(before, now, comp, comp1) && v in comp1 && v < |now| && now[v]
    requires DoneBut(ends, now, after, neighbor) && GrownBy(now, after, comp1, comp2) && neighbor < |now|
    requires Surrounded(ends, after, neighbor)
    ensures DoneBut(ends, before, after, v) && GrownBy(before, after, comp, comp2) && v in comp2
    ensures Later(now, after) && after[v] && Unvisited(after) <= Unvisited(before)
  {
    DoneAfter(ends, before, now, after, v, neighbor);
    GrownByMore(before, now, after, comp, comp1, comp2);
    StillIn(now, after, comp1, comp2, v);
    hide GrownBy, Surrounded;
  }

  lemma StillIn(vis: seq<bool>, vis': seq<bool>, comp: set<nat>, comp': set<nat>, v: nat)
    requires GrownBy(vis, vis', comp, comp') && v in comp
    ensures v in comp'
  {
  }

  /** The part of the loop for an unvisited neighbour */
  method Visit(graph: Graph, g: array<nat>, usedEdges: array<bool>, visited: array<bool>, v: nat, neighbor: nat,
               unusedEdgeIndex: nat,
               ghost ends: seq<Edge>, ghost adj: seq<seq<nat>>, ghost core: set<nat>, ghost comp: set<nat>,
               ghost tree: set<nat>, ghost e: nat)
    returns (idx: nat, ghost comp': set<nat>, ghost tree': set<nat>)
    requires graph.Holds(ends, adj) && g.Length == visited.Length == graph.nnodes <= NO_NEIGHBOR && usedEdges != visited
    requires g != graph.first && g != graph.next && g != graph.edges && IsTwoCore(ends, core)
    requires v in comp && v < graph.nnodes && neighbor < graph.nnodes && !visited[neighbor]
    requires e < |ends| && Joins(ends[e], v, neighbor)
    requires Numbered(ends, core, visited[..], g[..], usedEdges[..], unusedEdgeIndex, comp, tree)
    modifies g, visited
    ensures Numbered(ends, core, visited[..], g[..], usedEdges[..], idx, comp', tree')
    ensures GrownBy(old(visited[..]), visited[..], comp, comp')
    ensures visited[neighbor] && Surrounded(ends, visited[..], neighbor)
            && DoneBut(ends, old(visited[..]), visited[..], neighbor)
    ensures Unvisited(visited[..]) < Unvisited(old(visited[..]))
    decreases Unvisited(visited[..]), 0
  {
    ghost var before := visited[..];
    hide Numbered, Surrounded, IsTwoCore, Represents, DoneBut, GrownBy, Joins;
    idx := LabelNeighbor(graph, g, usedEdges, visited, v, neighbor, unusedEdgeIndex, ends, adj, core, comp, tree, e);
    ghost var now := visited[..];
    VisitedNow(ends, before, comp, neighbor);
    idx, comp', tree' := Traverse(graph, g, usedEdges, visited, neighbor, idx, ends, adj, core, comp + {neighbor},
                                  tree + {e});
    GrownByMore(before, now, visited[..], comp, comp + {neighbor}, comp');
    DoneWithIt(ends, before, now, visited[..], neighbor);
  }

  /** The next unused number goes to the edge, and its other end gets the label for it. */
  method LabelNeighbor(graph: Graph, g: array<nat>, usedEdges: array<bool>, visited: array<bool>, v: nat, neighbor: nat,
                       unusedEdgeIndex: nat,
                       ghost ends: seq<Edge>, ghost adj: seq<seq<nat>>, ghost core: set<nat>, ghost comp: set<nat>,
                       ghost tree: set<nat>, ghost e: nat)
    returns (idx: nat)
    requires graph.Holds(ends, adj) && g.Length == visited.Length == graph.nnodes && usedEdges != visited
    requires g != graph.first && g != graph.next && g != graph.edges && IsTwoCore(ends, core)
    requires v in comp && v < graph.nnodes && neighbor < graph.nnodes && !visited[neighbor]
    requires e < |ends| && Joins(ends[e], v, neighbor)
    requires Numbered(ends, core, visited[..], g[..], usedEdges[..], unusedEdgeIndex, comp, tree)
    modifies g, visited
    ensures visited[..] == old(visited[..])[neighbor := true]
    ensures Numbered(ends, core, visited[..], g[..], usedEdges[..], idx, comp + {neighbor}, tree + {e})
  {
    hide Numbered, IsTwoCore, Represents, Joins, LabelFor;
    ghost var before, labels, used := visited[..], g[..], usedEdges[..];
    graph.FewEdges(ends, adj);
    ghost var left := NumberLeftFor(ends, core, before, labels, used, unusedEdgeIndex, comp, tree, v, neighbor, e);
    idx := NextUnusedEdge(usedEdges, unusedEdgeIndex, left);
    NumberEdge(ends, core, before, labels, used, unusedEdgeIndex, comp, tree, v, neighbor, e, idx);
    SetLabel(g, neighbor, idx, v);
    visited[neighbor] := true;
    assert visited[..] == before[neighbor := true] && usedEdges[..] == used;
    idx := idx + 1;
  }

  /** `g[neighbor] = id - g[v]`, in 32-bit arithmetic */
  method SetLabel(g: array<nat>, neighbor: nat, id: nat, v: nat)
    requires neighbor < g.Length && v < g.Length && id < WORD_LIMIT && g[v] < WORD_LIMIT
    modifies g
    ensures g[..] == old(g[..])[neighbor := LabelFor(id, old(g[v]))]
  {
    g[neighbor] := (id + WORD_LIMIT - g[v]) % WORD_LIMIT;
  }

  lemma NumberLeftFor(ends: seq<Edge>, core: set<nat>, vis: seq<bool>, g: seq<nat>, used: seq<bool>, idx: nat,
                      comp: set<nat>, tree: set<nat>, v: nat, w: nat, e: nat) returns (x: nat)
    requires IsTwoCore(ends, core) && Numbered(ends, core, vis, g, used, idx, comp, tree)
    requires v in comp && w < |vis| && !vis[w] && e < |ends| && Joins(ends[e], v, w)
    ensures idx <= x < |used| && !used[x]
  {
    hide IsTwoCore, NumbersOk, Hanging, EndOf;
    FinishesOne(ends, core, vis, comp, tree, v, w, e, e);
    x := NumberLeft(ends, core, vis, g, used, idx, e);
  }

  lemma VisitedNow(ends: seq<Edge>, vis: seq<bool>, comp: set<nat>, w: nat)
    requires w < |vis| && !vis[w]
    ensures GrownBy(vis, vis[w := true], comp, comp + {w})
    ensures Unvisited(vis[w := true]) < Unvisited(vis)
  {
    FewerUnvisited(vis, vis[w := true], w);
  }

  lemma DoneWithIt(ends: seq<Edge>, vis: seq<bool>, now: seq<bool>, vis': seq<bool>, w: nat)
    requires w < |vis| && !vis[w] && now == vis[w := true] && DoneBut(ends, now, vis', w)
    ensures DoneBut(ends, vis, vis', w) && vis'[w] && Unvisited(vis') < Unvisited(vis)
  {
    FewerUnvisited(vis, vis', w);
  }

  // ---------- both loops ----------

  /** The first `k` edges have both ends visited, or none. */
  ghost predicate Balanced(ends: seq<Edge>, vis: seq<bool>, k: nat) {
    forall e :: 0 <= e < k && e < |ends| ==> (Outside(vis, {}, ends[e].a) <==> Outside(vis, {}, ends[e].b))
  }

  lemma BalancedAfter(ends: seq<Edge>, vis: seq<bool>, vis': seq<bool>, v: nat, k: nat)
    requires EdgesOk(ends, |vis|) && Balanced(ends, vis, k) && k < |ends| && ends[k].Has(v) && v < |vis| && vis[v]
    requires DoneBut(ends, vis, vis', v) && Surrounded(ends, vis', v)
    ensures Balanced(ends, vis', k + 1)
  {
    forall e | 0 <= e < k + 1 && e < |ends|
      ensures Outside(vis', {}, ends[e].a) <==> Outside(vis', {}, ends[e].b)
    {
      assert EdgeOk(ends[e], |vis|);
      if e < k {
        assert Outside(vis, {}, ends[e].a) <==> Outside(vis, {}, ends[e].b);
        if !vis[ends[e].a] && vis'[ends[e].a] {
          EndVisited(ends, vis, vis', v, e, ends[e].a);
        }
        if !vis[ends[e].b] && vis'[ends[e].b] {
          EndVisited(ends, vis, vis', v, e, ends[e].b);
        }
      }
    }
  }

  lemma AllBalanced(ends: seq<Edge>, vis: seq<bool>)
    requires Balanced(ends, vis, |ends|)
    ensures Closed(ends, vis)
  {
  }

  /** The visited vertices are all in the current part. */
  ghost predicate AllIn(vis: seq<bool>, comp: set<nat>) {
    forall v: nat :: v < |vis| && vis[v] ==> v in comp
  }

  lemma StillAllIn(vis: seq<bool>, vis': seq<bool>, comp: set<nat>, comp': set<nat>)
    requires AllIn(vis, comp) && GrownBy(vis, vis', comp, comp')
    ensures AllIn(vis', comp')
  {
  }

  /** To begin with, the part is the 2-core. */
  lemma PartStart(ends: seq<Edge>, core: set<nat>, vis: seq<bool>)
    requires InRange(ends, core) && EdgesOk(ends, |vis|)
             && forall v: nat :: v < |vis| ==> (vis[v] <==> EndOf(ends, core, v))
    ensures PartOk(ends, core, vis, Trues(vis), {}) && AllIn(vis, Trues(vis))
  {
    NoVertices(ends);
    hide EndOf;
    assert Trues(vis) - VerticesOf(ends, core) == {};
  }

  lemma NoVertices(ends: seq<Edge>)
    ensures VerticesOf(ends, {}) == {}
  {
  }

  lemma NumberedStart(ends: seq<Edge>, core: set<nat>, vis: seq<bool>, g: seq<nat>, used: seq<bool>)
    requires InRange(ends, core) && EdgesOk(ends, |vis|)
             && forall v: nat :: v < |vis| ==> (vis[v] <==> EndOf(ends, core, v))
    requires SumsApart(ends, vis, g) && NumbersOk(ends, core, vis, g, used, 0)
    ensures Numbered(ends, core, vis, g, used, 0, Trues(vis), {}) && AllIn(vis, Trues(vis))
  {
    hide SumsApart, NumbersOk, EndOf;
    PartStart(ends, core, vis);
  }

  /** Later on, a part is a tree of its own. */
  lemma TreeStart(ends: seq<Edge>, core: set<nat>, vis: seq<bool>, g: seq<nat>, used: seq<bool>, idx: nat, i: nat)
    requires InRange(ends, core) && SumsApart(ends, vis, g) && NumbersOk(ends, core, vis, g, used, idx)
    requires Closed(ends, vis) && i < |vis| && !vis[i]
    requires forall v: nat :: v < |vis| && EndOf(ends, core, v) ==> vis[v]
    ensures Numbered(ends, core, vis[i := true], g[i := 0], used, idx, {i}, {})
  {
    var vis', g' := vis[i := true], g[i := 0];
    hide Sum, EndOf, PartOk, NumberedOutside, NumberOk, SumInRange, SumsDiffer;
    forall f | 0 <= f < |ends|
      ensures Finished(vis', ends[f]) <==> Finished(vis, ends[f])
      ensures Finished(vis, ends[f]) ==> Sum(g', ends[f]) == Sum(g, ends[f])
    {
      assert EdgeOk(ends[f], |vis|);
      assert Outside(vis, {}, ends[f].a) <==> Outside(vis, {}, ends[f].b);
      if Finished(vis, ends[f]) {
        SumSame(g, g', ends[f]);
      }
    }
    assert PartOk(ends, core, vis', {i}, {}) by {
      TreePart(ends, core, vis, i);
    }
    SumsSame(ends, vis, vis', g, g', i);
    NumbersSame(ends, core, vis, vis', g, g', used, idx);
  }

  lemma TreePart(ends: seq<Edge>, core: set<nat>, vis: seq<bool>, i: nat)
    requires InRange(ends, core) && Closed(ends, vis) && i < |vis| && !vis[i]
    requires forall v: nat :: v < |vis| && EndOf(ends, core, v) ==> vis[v]
    ensures PartOk(ends, core, vis[i := true], {i}, {})
  {
    hide Hanging, EndOf, InRange;
    TreeHangs(ends, core, vis, i);
    SameOutside(vis, {}, i);
    assert {} + {i} == {i};
  }

  lemma TreeHangs(ends: seq<Edge>, core: set<nat>, vis: seq<bool>, i: nat)
    requires InRange(ends, core) && i < |vis| && !vis[i]
    requires forall v: nat :: v < |vis| && EndOf(ends, core, v) ==> vis[v]
    ensures Hanging(ends, core, {i}, {})
  {
    hide EndOf;
    NoVertices(ends);
    assert i !in VerticesOf(ends, core);
    hide VerticesOf;
    assert |{i}| == 1;
  }

  lemma SumsSame(ends: seq<Edge>, vis: seq<bool>, vis': seq<bool>, g: seq<nat>, g': seq<nat>, i: nat)
    requires SumsApart(ends, vis, g) && |vis'| == |vis| && i < |vis| && vis' == vis[i := true] && g' == g[i := 0]
    requires forall f :: 0 <= f < |ends| ==> (Finished(vis', ends[f]) <==> Finished(vis, ends[f]))
    requires forall f :: 0 <= f < |ends| && Finished(vis, ends[f]) ==> Sum(g', ends[f]) == Sum(g, ends[f])
    ensures SumsApart(ends, vis', g')
  {
    forall e | 0 <= e < |ends|
      ensures SumInRange(ends, vis', g', e)
    {
      assert SumInRange(ends, vis, g, e);
    }
    forall e, f | 0 <= e < f < |ends|
      ensures SumsDiffer(ends, vis', g', e, f)
    {
      assert SumsDiffer(ends, vis, g, e, f);
    }
  }

  lemma NumbersSame(ends: seq<Edge>, core: set<nat>, vis: seq<bool>, vis': seq<bool>, g: seq<nat>, g': seq<nat>,
                    used: seq<bool>, idx: nat)
    requires NumbersOk(ends, core, vis, g, used, idx) && |vis'| == |g'| && EdgesOk(ends, |g'|) && EdgesOk(ends, |g|)
    requires forall f :: 0 <= f < |ends| ==> (Finished(vis', ends[f]) <==> Finished(vis, ends[f]))
    requires forall f :: 0 <= f < |ends| && Finished(vis, ends[f]) ==> Sum(g', ends[f]) == Sum(g, ends[f])
    ensures NumbersOk(ends, core, vis', g', used, idx)
  {
    forall e | 0 <= e < |ends|
      ensures NumberOk(ends, core, vis', g', used, idx, e)
    {
      assert NumberOk(ends, core, vis, g, used, idx, e);
    }
    assert NumberedOutside(ends, core, vis') == NumberedOutside(ends, core, vis);
  }

  /** `bmz_traverse_non_critical_nodes`: when the vertices of the 2-core are labelled, the edges outside it get the
      numbers that are left. */
  method TraverseNonCritical(graph: Graph, g: array<nat>, usedEdges: array<bool>, visited: array<bool>,
                             ghost ends: seq<Edge>, ghost adj: seq<seq<nat>>, ghost core: set<nat>)
    requires graph.Holds(ends, adj) && g.Length == visited.Length == graph.nnodes <= NO_NEIGHBOR && usedEdges != visited
    requires g != graph.first && g != graph.next && g != graph.edges && IsTwoCore(ends, core)
    requires forall v: nat :: v < visited.Length ==> (visited[v] <==> EndOf(ends, core, v))
    requires SumsApart(ends, visited[..], g[..]) && NumbersOk(ends, core, visited[..], g[..], usedEdges[..], 0)
    requires |ends| == graph.nedges
    modifies g, visited
    ensures SumsApart(ends, seq(graph.nnodes, _ => true), g[..])
  {
    hide Represents, IsTwoCore, SumsApart, NumbersOk, EndOf, Numbered, AllIn, Closed, CoreVisited, Trues;
    graph.FewEdges(ends, adj);
    CoreInRange(ends, core);
    NumberedStart(ends, core, visited[..], g[..], usedEdges[..]);
    var idx := TraverseHanging(graph, g, usedEdges, visited, ends, adj, core);
    for i := 0 to graph.nnodes
      invariant SumsApart(ends, visited[..], g[..]) && NumbersOk(ends, core, visited[..], g[..], usedEdges[..], idx)
      invariant Closed(ends, visited[..]) && CoreVisited(ends, core, visited[..])
      invariant forall v :: 0 <= v < i ==> visited[v]
    {
      if !visited[i] {
        idx := TraverseTree(graph, g, usedEdges, visited, i, idx, ends, adj, core);
      }
    }
    assert visited[..] == seq(graph.nnodes, _ => true);
  }

  lemma CoreInRange(ends: seq<Edge>, core: set<nat>)
    requires IsTwoCore(ends, core)
    ensures InRange(ends, core)
  {
  }

  ghost predicate CoreVisited(ends: seq<Edge>, core: set<nat>, vis: seq<bool>) {
    forall v: nat :: v < |vis| && EndOf(ends, core, v) ==> vis[v]
  }

  /** Its first loop */
  method TraverseHanging(graph: Graph, g: array<nat>, usedEdges: array<bool>, visited: array<bool>,
                         ghost ends: seq<Edge>, ghost adj: seq<seq<nat>>, ghost core: set<nat>)
    returns (idx: nat)
    requires graph.Holds(ends, adj) && g.Length == visited.Length == graph.nnodes <= NO_NEIGHBOR && usedEdges != visited
    requires g != graph.first && g != graph.next && g != graph.edges && IsTwoCore(ends, core) && |ends| == graph.nedges
    requires Numbered(ends, core, visited[..], g[..], usedEdges[..], 0, Trues(visited[..]), {})
    requires AllIn(visited[..], Trues(visited[..]))
    modifies g, visited
    ensures SumsApart(ends, visited[..], g[..]) && NumbersOk(ends, core, visited[..], g[..], usedEdges[..], idx)
    ensures Closed(ends, visited[..]) && CoreVisited(ends, core, visited[..])
  {
    hide Represents, IsTwoCore, Numbered, Balanced, AllIn, GrownBy, EdgesOk;
    graph.FewEdges(ends, adj);
    idx := 0;
    ghost var comp, tree: set<nat> := Trues(visited[..]), {};
    assert Balanced(ends, visited[..], 0) by {
      NoneBalanced(ends, visited[..]);
    }
    for i := 0 to graph.nedges
      invariant Numbered(ends, core, visited[..], g[..], usedEdges[..], idx, comp, tree)
      invariant AllIn(visited[..], comp) && Balanced(ends, visited[..], i)
    {
      graph.EdgeInArrays(ends, adj, i);
      var v1, v2 := graph.edges[i], graph.edges[i + graph.nedges];
      if (visited[v1] && visited[v2]) || (!visited[v1] && !visited[v2]) {
        BalancedEdge(ends, visited[..], i);
        continue;
      }
      ghost var before, comp1 := visited[..], comp;
      var v := if visited[v1] then v1 else v2;
      InPart(before, comp, v);
      idx, comp, tree := Traverse(graph, g, usedEdges, visited, v, idx, ends, adj, core, comp, tree);
      StillAllIn(before, visited[..], comp1, comp);
      BalancedAfter(ends, before, visited[..], v, i);
    }
    AllBalanced(ends, visited[..]);
    NumberedParts(ends, core, visited[..], g[..], usedEdges[..], idx, comp, tree);
  }

  lemma NoneBalanced(ends: seq<Edge>, vis: seq<bool>)
    ensures Balanced(ends, vis, 0)
  {
  }

  lemma BalancedEdge(ends: seq<Edge>, vis: seq<bool>, k: nat)
    requires Balanced(ends, vis, k) && k < |ends| && EdgeOk(ends[k], |vis|) && vis[ends[k].a] == vis[ends[k].b]
    ensures Balanced(ends, vis, k + 1)
  {
  }

  lemma InPart(vis: seq<bool>, comp: set<nat>, v: nat)
    requires AllIn(vis, comp) && v < |vis| && vis[v]
    ensures v in comp
  {
  }

  lemma NumberedParts(ends: seq<Edge>, core: set<nat>, vis: seq<bool>, g: seq<nat>, used: seq<bool>, idx: nat,
                      comp: set<nat>, tree: set<nat>)
    requires Numbered(ends, core, vis, g, used, idx, comp, tree)
    ensures SumsApart(ends, vis, g) && NumbersOk(ends, core, vis, g, used, idx) && CoreVisited(ends, core, vis)
  {
  }

  /** The part of its second loop for an unvisited vertex: a tree of its own */
  method TraverseTree(graph: Graph, g: array<nat>, usedEdges: array<bool>, visited: array<bool>, i: nat,
                      unusedEdgeIndex: nat,
                      ghost ends: seq<Edge>, ghost adj: seq<seq<nat>>, ghost core: set<nat>)
    returns (idx: nat)
    requires graph.Holds(ends, adj) && g.Length == visited.Length == graph.nnodes <= NO_NEIGHBOR && usedEdges != visited
    requires g != graph.first && g != graph.next && g != graph.edges && IsTwoCore(ends, core)
    requires i < graph.nnodes && !visited[i]
    requires SumsApart(ends, visited[..], g[..])
             && NumbersOk(ends, core, visited[..], g[..], usedEdges[..], unusedEdgeIndex)
    requires Closed(ends, visited[..]) && CoreVisited(ends, core, visited[..])
    modifies g, visited
    ensures SumsApart(ends, visited[..], g[..]) && NumbersOk(ends, core, visited[..], g[..], usedEdges[..], idx)
    ensures Closed(ends, visited[..]) && CoreVisited(ends, core, visited[..])
    ensures visited[i] && Later(old(visited[..]), visited[..])
  {
    hide Represents, IsTwoCore, SumsApart, NumbersOk, Closed, Numbered, Core;
    ghost var before, labels := visited[..], g[..];
    graph.FewEdges(ends, adj);
    CoreInRange(ends, core);
    TreeStart(ends, core, before, labels, usedEdges[..], unusedEdgeIndex, i);
    g[i] := 0;
    visited[i] := true;
    ghost var now := visited[..];
    assert g[..] == labels[i := 0] && now == before[i := true];
    ghost var comp, tree;
    idx, comp, tree := Traverse(graph, g, usedEdges, visited, i, unusedEdgeIndex, ends, adj, core, {i}, {});
    NumberedParts(ends, core, visited[..], g[..], usedEdges[..], idx, comp, tree);
    DoneWithIt(ends, before, now, visited[..], i);
    EndComponent(ends, before, visited[..], i);
  }
}
