/**
 Depth-first search on the graph of graph.c: which vertices are visited, and what visiting has
 completed.
 */
module Visits {
  import opened Words
  import opened Graphs

  ghost predicate Outside(vis: seq<bool>, comp: set<nat>, v: nat) {
    v < |vis| && vis[v] && v !in comp
  }

  /** No edge leads from the visited vertices outside the current tree to any other vertex. */
  ghost predicate Apart(ends: seq<Edge>, vis: seq<bool>, comp: set<nat>) {
    forall e :: 0 <= e < |ends| ==> (Outside(vis, comp, ends[e].a) <==> Outside(vis, comp, ends[e].b))
  }

  /** Visiting a vertex of the current tree changes nothing outside it. */
  lemma SameOutside(vis: seq<bool>, comp: set<nat>, w: nat)
    requires w < |vis| && !vis[w]
    ensures forall u :: Outside(vis[w := true], comp + {w}, u) <==> Outside(vis, comp, u)
  {
  }

  /** All neighbours of the vertex are visited. */
  ghost predicate Surrounded(ends: seq<Edge>, vis: seq<bool>, v: nat) {
    forall e :: 0 <= e < |ends| && ends[e].Has(v) ==> ends[e].Other(v) < |vis| && vis[ends[e].Other(v)]
  }

  /** Visiting goes on: nothing visited is forgotten. */
  ghost predicate Later(vis: seq<bool>, vis': seq<bool>) {
    |vis| == |vis'| && forall v :: 0 <= v < |vis| && vis[v] ==> vis'[v]
  }

  /** The vertices visited in between have all their neighbours visited, but for `v`. */
  ghost predicate DoneBut(ends: seq<Edge>, vis: seq<bool>, vis': seq<bool>, v: nat) {
    && Later(vis, vis')
    && forall u :: 0 <= u < |vis| && vis'[u] && !vis[u] && u != v ==> Surrounded(ends, vis', u)
  }

  /** The label that the code gives to a neighbour */
  function LabelFor(id: nat, gv: nat): (x: nat)
    requires id < WORD_LIMIT && gv < WORD_LIMIT
    ensures x < WORD_LIMIT && (gv + x) % WORD_LIMIT == id
  {
    (id + WORD_LIMIT - gv) % WORD_LIMIT
  }

  /** The sum of the labels of its ends, in 32-bit arithmetic */
  function Sum(g: seq<nat>, t: Edge): (s: nat)
    requires t.a < |g| && t.b < |g|
    ensures s < WORD_LIMIT
  {
    (g[t.a] + g[t.b]) % WORD_LIMIT
  }

  lemma SumSame(g: seq<nat>, g': seq<nat>, t: Edge)
    requires t.a < |g| == |g'| && t.b < |g| && g[t.a] == g'[t.a] && g[t.b] == g'[t.b]
    ensures Sum(g', t) == Sum(g, t)
  {
  }

  lemma SumOfLabelled(g: seq<nat>, t: Edge, v: nat, w: nat, x: nat)
    requires t.a < |g| && t.b < |g| && Joins(t, v, w) && v != w && g[v] < WORD_LIMIT && x < WORD_LIMIT
    ensures Sum(g[w := LabelFor(x, g[v])], t) == x
  {
  }

  lemma DoneAfter(ends: seq<Edge>, vis0: seq<bool>, vis: seq<bool>, vis': seq<bool>, v: nat, w: nat)
    requires DoneBut(ends, vis0, vis, v) && DoneBut(ends, vis, vis', w) && w < |vis'| && Surrounded(ends, vis', w)
    ensures DoneBut(ends, vis0, vis', v)
  {
    forall u | 0 <= u < |vis0| && vis'[u] && !vis0[u] && u != v
      ensures Surrounded(ends, vis', u)
    {
      if vis[u] {
        assert Surrounded(ends, vis, u);
      }
    }
  }

  ghost function Unvisited(vis: seq<bool>): (u: set<nat>)
    ensures forall v: nat :: v in u <==> v < |vis| && !vis[v]
  {
    set v: nat | v < |vis| && !vis[v]
  }

  lemma FewerUnvisited(vis: seq<bool>, vis': seq<bool>, v: nat)
    requires Later(vis, vis') && v < |vis| && !vis[v] && vis'[v]
    ensures Unvisited(vis') < Unvisited(vis)
  {
    assert v in Unvisited(vis);
  }

  /** The neighbours by the first `k` edges of a list are visited. */
  ghost predicate VisitedUpTo(ends: seq<Edge>, vis: seq<bool>, ids: seq<nat>, v: nat, k: nat) {
    k <= |ids| && forall j :: 0 <= j < k ==>
      ids[j] < |ends| && ends[ids[j]].Other(v) < |vis| && vis[ends[ids[j]].Other(v)]
  }

  lemma VisitOneMore(ends: seq<Edge>, vis: seq<bool>, vis': seq<bool>, ids: seq<nat>, v: nat, k: nat, w: nat)
    requires VisitedUpTo(ends, vis, ids, v, k) && Later(vis, vis')
    requires k < |ids| && ids[k] < |ends| && Joins(ends[ids[k]], v, w) && w < |vis'| && vis'[w]
    ensures VisitedUpTo(ends, vis', ids, v, k + 1)
  {
  }

  lemma NoneVisitedYet(ends: seq<Edge>, vis: seq<bool>, v: nat, ids: seq<nat>)
    requires v < |vis| && !vis[v]
    ensures DoneBut(ends, vis, vis[v := true], v) && VisitedUpTo(ends, vis[v := true], ids, v, 0)
    ensures Unvisited(vis[v := true]) < Unvisited(vis)
  {
    FewerUnvisited(vis, vis[v := true], v);
  }

  lemma DoneIsLater(ends: seq<Edge>, vis: seq<bool>, vis': seq<bool>, v: nat)
    requires DoneBut(ends, vis, vis', v)
    ensures Later(vis, vis')
  {
  }

  lemma AllVisited(ends: seq<Edge>, vis: seq<bool>, ids: seq<nat>, v: nat)
    requires EdgesAt(ends, v, ids) && VisitedUpTo(ends, vis, ids, v, |ids|)
    ensures Surrounded(ends, vis, v)
  {
    forall e | 0 <= e < |ends| && ends[e].Has(v)
      ensures ends[e].Other(v) < |vis| && vis[ends[e].Other(v)]
    {
      assert e in ids;
    }
  }

  lemma OtherOfJoin(t: Edge, v: nat, w: nat)
    requires Joins(t, v, w)
    ensures t.Other(v) == w && t.Has(v)
  {
  }

  /** No edge leads from a visited vertex to another. */
  ghost predicate Closed(ends: seq<Edge>, vis: seq<bool>) {
    Apart(ends, vis, {})
  }

  lemma EndComponent(ends: seq<Edge>, vis: seq<bool>, vis': seq<bool>, v: nat)
    requires EdgesOk(ends, |vis|) && Closed(ends, vis) && v < |vis| && DoneBut(ends, vis, vis', v)
             && Surrounded(ends, vis', v)
    ensures Closed(ends, vis')
  {
    forall e | 0 <= e < |ends|
      ensures Outside(vis', {}, ends[e].a) <==> Outside(vis', {}, ends[e].b)
    {
      assert EdgeOk(ends[e], |vis|);
      assert Outside(vis, {}, ends[e].a) <==> Outside(vis, {}, ends[e].b);
      if !vis[ends[e].a] && vis'[ends[e].a] {
        EndVisited(ends, vis, vis', v, e, ends[e].a);
      }
      if !vis[ends[e].b] && vis'[ends[e].b] {
        EndVisited(ends, vis, vis', v, e, ends[e].b);
      }
    }
  }

  lemma EndVisited(ends: seq<Edge>, vis: seq<bool>, vis': seq<bool>, v: nat, e: nat, u: nat)
    requires EdgesOk(ends, |vis|) && DoneBut(ends, vis, vis', v) && Surrounded(ends, vis', v)
    requires e < |ends| && ends[e].Has(u) && u < |vis| && !vis[u] && vis'[u]
    ensures vis'[ends[e].Other(u)]
  {
    assert Surrounded(ends, vis', u);
  }
}
