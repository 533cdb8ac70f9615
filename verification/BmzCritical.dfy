/**
 The first half of BMZ's search (bmz.c): the vertices of the 2-core are labelled in breadth-first order.
 A label is taken only if no edge to a labelled neighbour gets a number that is out of range or already used.
 */
module BmzCritical {
  import opened Words
  import opened Counting
  import opened Graphs
  import opened Forests
  import opened Visits
  import opened BmzSearch
  import opened BmzTrees
  import opened VQueue

  // ---------- what the labelling keeps ----------

  /** Labelled vertices are critical, with labels up to the biggest; the biggest number is at most twice that. */
  ghost predicate Labels(crit: seq<bool>, vis: seq<bool>, g: seq<nat>, m: nat, biggestG: nat, biggestEdge: nat) {
    && |crit| == |vis| == |g| && biggestG < m && 2 * m <= EMPTY && 1 <= biggestEdge <= 2 * biggestG + 1
    && (forall v :: 0 <= v < |vis| && vis[v] ==> crit[v] && g[v] <= biggestG)
    && (biggestG == 0 || exists v :: 0 <= v < |vis| && vis[v] && g[v] == biggestG)
  }

  /** No vertex has this label. */
  ghost predicate FreshLabel(vis: seq<bool>, g: seq<nat>, x: nat) {
    forall v :: 0 <= v < |vis| && v < |g| && vis[v] ==> g[v] != x
  }

  /** Some finished edge has the number. */
  ghost predicate Taken(ends: seq<Edge>, vis: seq<bool>, g: seq<nat>, s: nat)
    requires |vis| == |g|
  {
    exists e :: 0 <= e < |ends| && Finished(vis, ends[e]) && Sum(g, ends[e]) == s
  }

  /** Exactly the numbers of finished edges are marked as used. */
  ghost predicate UsedOk(ends: seq<Edge>, vis: seq<bool>, g: seq<nat>, used: seq<bool>) {
    && |used| == |ends| && |vis| == |g|
    && (forall s :: 0 <= s < |used| && used[s] ==> Taken(ends, vis, g, s))
    && (forall e :: 0 <= e < |ends| && Finished(vis, ends[e]) ==> Sum(g, ends[e]) < |used| && used[Sum(g, ends[e])])
  }

  /** The labels of the current component are all different. */
  ghost predicate CompOk(vis: seq<bool>, g: seq<nat>, comp: set<nat>) {
    && |vis| == |g| && (forall v :: v in comp ==> v < |vis| && vis[v])
    && forall v, w :: v in comp && w in comp && v != w ==> g[v] != g[w]
  }

  /** No edge of the 2-core leads from a labelled vertex outside the current component to any other. */
  ghost predicate CoreApart(ends: seq<Edge>, core: set<nat>, vis: seq<bool>, comp: set<nat>) {
    forall e :: e in core && e < |ends| ==> (Outside(vis, comp, ends[e].a) <==> Outside(vis, comp, ends[e].b))
  }

  ghost predicate Labelling(ends: seq<Edge>, core: set<nat>, crit: seq<bool>, vis: seq<bool>, g: seq<nat>,
                            used: seq<bool>,
                            biggestG: nat, biggestEdge: nat, comp: set<nat>) {
    && Labels(crit, vis, g, |ends|, biggestG, biggestEdge)
    && SumsApart(ends, vis, g) && UsedOk(ends, vis, g, used)
    && CompOk(vis, g, comp) && CoreApart(ends, core, vis, comp)
  }

  // ---------- one more label ----------

  /** The label fits for the neighbours by the first `k` edges. */
  ghost predicate Fits(ends: seq<Edge>, vis: seq<bool>, g: seq<nat>, used: seq<bool>, ids: seq<nat>, u: nat, x: nat,
                       k: nat) {
    && k <= |ids| && |vis| == |g|
    && forall j :: 0 <= j < k ==> ids[j] < |ends| && FitsEdge(vis, g, used, ends[ids[j]].Other(u), x)
  }

  /** If the neighbour is labelled, the sum is in range and not used. */
  ghost predicate FitsEdge(vis: seq<bool>, g: seq<nat>, used: seq<bool>, w: nat, x: nat) {
    w < |vis| && w < |g| && (vis[w] ==> x + g[w] < |used| && !used[x + g[w]])
  }

  /** A labelled neighbour by one of the first `k` edges makes this number. */
  ghost predicate MadeBy(ends: seq<Edge>, vis: seq<bool>, g: seq<nat>, ids: seq<nat>, u: nat, x: nat, k: nat, s: nat) {
    exists j :: 0 <= j < k && j < |ids| && ids[j] < |ends| && ends[ids[j]].Other(u) < |vis|
      && ends[ids[j]].Other(u) < |g|
      && vis[ends[ids[j]].Other(u)] && s == x + g[ends[ids[j]].Other(u)]
  }

  /** The numbers made by the first `k` edges are marked in addition. */
  ghost predicate MarkedUpTo(ends: seq<Edge>, vis: seq<bool>, g: seq<nat>, used: seq<bool>, used': seq<bool>,
                             ids: seq<nat>,
                             u: nat, x: nat, k: nat) {
    && |used'| == |used|
    && forall s :: 0 <= s < |used| ==> (used'[s] <==> used[s] || MadeBy(ends, vis, g, ids, u, x, k, s))
  }

  /** A labelled neighbour of an unlabelled critical vertex is in the current component. */
  lemma NeighbourInComp(ends: seq<Edge>, core: set<nat>, crit: seq<bool>, vis: seq<bool>, comp: set<nat>, u: nat,
                        e: nat)
    requires IsTwoCore(ends, core) && CriticalNodes(ends, core, crit) && CoreApart(ends, core, vis, comp)
    requires |crit| == |vis| && u < |vis| && crit[u] && !vis[u] && e < |ends| && ends[e].Has(u)
             && ends[e].Other(u) < |vis|
    requires vis[ends[e].Other(u)] && crit[ends[e].Other(u)]
    ensures ends[e].Other(u) in comp && e in core
  {
    hide EndOf, IsTwoCore;
    assert EndOf(ends, core, u) && EndOf(ends, core, ends[e].Other(u));
    ChordInCore(ends, core, e);
    assert !Outside(vis, comp, u);
  }

  /** Edges that get their numbers with `u` get the sums of the labels; no two of them the same. */
  lemma NewSum(ends: seq<Edge>, crit: seq<bool>, vis: seq<bool>, g: seq<nat>, biggestG: nat, biggestEdge: nat,
               ids: seq<nat>, used: seq<bool>, u: nat, x: nat, e: nat)
    requires Labels(crit, vis, g, |ends|, biggestG, biggestEdge) && EdgesAt(ends, u, ids) && |used| == |ends|
    requires Fits(ends, vis, g, used, ids, u, x, |ids|) && u < |vis| && !vis[u]
    requires e < |ends| && EdgeOk(ends[e], |vis|) && ends[e].Has(u) && vis[ends[e].Other(u)]
    ensures Sum(g[u := x], ends[e]) == x + g[ends[e].Other(u)] < |used| && !used[x + g[ends[e].Other(u)]]
    ensures MadeBy(ends, vis, g, ids, u, x, |ids|, x + g[ends[e].Other(u)])
  {
    assert e in ids;
    var j :| 0 <= j < |ids| && ids[j] == e;
    assert FitsEdge(vis, g, used, ends[ids[j]].Other(u), x);
  }

  /** What `NewEdge` says: an edge at `u` gets an unused number by its labelled end, any other keeps a used one. */
  ghost predicate NumberedAnew(g: seq<nat>, used: seq<bool>, comp: set<nat>, u: nat, x: nat, t: Edge)
    requires t.a < |g| && t.b < |g| && u < |g|
  {
    Sum(g[u := x], t) < |used| &&
    if t.Has(u) then
      t.Other(u) in comp && t.Other(u) < |g| && Sum(g[u := x], t) == x + g[t.Other(u)] && !used[Sum(g[u := x], t)]
    else
      Sum(g[u := x], t) == Sum(g, t) && used[Sum(g, t)]
  }

  lemma NewEdge(ends: seq<Edge>, core: set<nat>, crit: seq<bool>, vis: seq<bool>, g: seq<nat>, used: seq<bool>,
                biggestG: nat, biggestEdge: nat, comp: set<nat>, ids: seq<nat>, u: nat, x: nat, e: nat)
    requires IsTwoCore(ends, core) && CriticalNodes(ends, core, crit) && EdgesAt(ends, u, ids)
    requires Labelling(ends, core, crit, vis, g, used, biggestG, biggestEdge, comp)
    requires u < |vis| && crit[u] && !vis[u] && Fits(ends, vis, g, used, ids, u, x, |ids|)
    requires e < |ends| && Finished(vis[u := true], ends[e])
    ensures NumberedAnew(g, used, comp, u, x, ends[e])
    ensures !ends[e].Has(u) ==> Finished(vis, ends[e])
  {
    hide IsTwoCore, CriticalNodes, EdgesAt, Fits, MadeBy, Sum, CoreApart, SumInRange, SumsDiffer, Taken;
    assert EdgeOk(ends[e], |vis|);
    if ends[e].Has(u) {
      NewSum(ends, crit, vis, g, biggestG, biggestEdge, ids, used, u, x, e);
      NeighbourInComp(ends, core, crit, vis, comp, u, e);
    } else {
      SumSame(g, g[u := x], ends[e]);
    }
  }

  /** The numbers after `u` is labelled */
  lemma NewSums(ends: seq<Edge>, core: set<nat>, crit: seq<bool>, vis: seq<bool>, g: seq<nat>, used: seq<bool>,
                biggestG: nat, biggestEdge: nat, comp: set<nat>, ids: seq<nat>, u: nat, x: nat)
    requires IsTwoCore(ends, core) && CriticalNodes(ends, core, crit) && Simple(ends) && EdgesAt(ends, u, ids)
    requires Labelling(ends, core, crit, vis, g, used, biggestG, biggestEdge, comp)
    requires u < |vis| && crit[u] && !vis[u] && x < WORD_LIMIT && Fits(ends, vis, g, used, ids, u, x, |ids|)
    ensures SumsApart(ends, vis[u := true], g[u := x])
  {
    var vis', g' := vis[u := true], g[u := x];
    hide IsTwoCore, CriticalNodes, Simple, EdgesAt, Fits, MadeBy, Sum, CoreApart, CompOk, Labelling, NumberedAnew,
         SumsApart, SumInRange, SumsDiffer, Finished;
    LabellingFacts(ends, core, crit, vis, g, used, biggestG, biggestEdge, comp);
    forall e | 0 <= e < |ends|
      ensures Finished(vis', ends[e]) ==> NumberedAnew(g, used, comp, u, x, ends[e])
    {
      if Finished(vis', ends[e]) {
        NewEdge(ends, core, crit, vis, g, used, biggestG, biggestEdge, comp, ids, u, x, e);
      }
    }
    forall e | 0 <= e < |ends|
      ensures SumInRange(ends, vis', g', e)
    {
      AnewInRange(ends, vis', g, used, comp, u, x, e);
    }
    forall e, f | 0 <= e < f < |ends|
      ensures SumsDiffer(ends, vis', g', e, f)
    {
      AnewDiffer(ends, vis, g, used, comp, u, x, e, f);
    }
    SumsFrom(ends, vis, vis', g, g', u, x);
  }

  lemma SumsFrom(ends: seq<Edge>, vis: seq<bool>, vis': seq<bool>, g: seq<nat>, g': seq<nat>, u: nat, x: nat)
    requires SumsApart(ends, vis, g) && u < |vis| && x < WORD_LIMIT
    requires vis' == vis[u := true] && g' == g[u := x]
    requires forall e :: 0 <= e < |ends| ==> SumInRange(ends, vis', g', e)
    requires forall e, f :: 0 <= e < f < |ends| ==> SumsDiffer(ends, vis', g', e, f)
    ensures SumsApart(ends, vis', g')
  {
    hide SumInRange, SumsDiffer;
  }

  lemma LabellingFacts(ends: seq<Edge>, core: set<nat>, crit: seq<bool>, vis: seq<bool>, g: seq<nat>, used: seq<bool>,
                       biggestG: nat, biggestEdge: nat, comp: set<nat>)
    requires Labelling(ends, core, crit, vis, g, used, biggestG, biggestEdge, comp)
    ensures |crit| == |vis| == |g| && |used| == |ends| && EdgesOk(ends, |vis|) && SumsApart(ends, vis, g)
            && CompOk(vis, g, comp)
  {
  }

  lemma AnewInRange(ends: seq<Edge>, vis': seq<bool>, g: seq<nat>, used: seq<bool>, comp: set<nat>, u: nat, x: nat,
                    e: nat)
    requires |vis'| == |g| && |used| == |ends| && u < |g| && e < |ends| && EdgeOk(ends[e], |g|)
    requires Finished(vis', ends[e]) ==> NumberedAnew(g, used, comp, u, x, ends[e])
    ensures SumInRange(ends, vis', g[u := x], e)
  {
  }

  /** Two edges at `u` have different ends, with different labels; an edge at `u` and another differ, one number being
      used and the other not. */
  lemma AnewDiffer(ends: seq<Edge>, vis: seq<bool>, g: seq<nat>, used: seq<bool>, comp: set<nat>, u: nat, x: nat,
                   e: nat, f: nat)
    requires SumsApart(ends, vis, g) && CompOk(vis, g, comp) && Simple(ends) && u < |vis| && e < f < |ends|
    requires Finished(vis[u := true], ends[e]) ==> NumberedAnew(g, used, comp, u, x, ends[e])
    requires Finished(vis[u := true], ends[f]) ==> NumberedAnew(g, used, comp, u, x, ends[f])
    ensures SumsDiffer(ends, vis[u := true], g[u := x], e, f)
  {
    hide Sum, SumInRange;
    assert EdgeOk(ends[e], |vis|) && EdgeOk(ends[f], |vis|) && SumsDiffer(ends, vis, g, e, f);
    assert ends[e].Has(u) && ends[f].Has(u) ==> ends[e].Other(u) != ends[f].Other(u);
  }

  /** The used numbers after `u` is labelled */
  lemma NewUsed(ends: seq<Edge>, crit: seq<bool>, vis: seq<bool>, g: seq<nat>, used: seq<bool>, used': seq<bool>,
                biggestG: nat, biggestEdge: nat, ids: seq<nat>, u: nat, x: nat)
    requires EdgesAt(ends, u, ids) && EdgesOk(ends, |vis|) && |used| == |ends|
    requires Labels(crit, vis, g, |ends|, biggestG, biggestEdge) && UsedOk(ends, vis, g, used)
    requires u < |vis| && !vis[u] && Fits(ends, vis, g, used, ids, u, x, |ids|)
    requires MarkedUpTo(ends, vis, g, used, used', ids, u, x, |ids|)
    ensures UsedOk(ends, vis[u := true], g[u := x], used')
  {
    var vis', g' := vis[u := true], g[u := x];
    forall s | 0 <= s < |used'| && used'[s]
      ensures Taken(ends, vis', g', s)
    {
      if used[s] {
        StillTaken(ends, vis, g, u, x, s);
      } else {
        MadeIsTaken(ends, crit, vis, g, used, biggestG, biggestEdge, ids, u, x, s);
      }
    }
    hide Taken, EdgesAt, Fits, MadeBy, Sum;
    forall e | 0 <= e < |ends| && Finished(vis', ends[e])
      ensures Sum(g', ends[e]) < |used'| && used'[Sum(g', ends[e])]
    {
      assert EdgeOk(ends[e], |vis|);
      if ends[e].Has(u) {
        NewSum(ends, crit, vis, g, biggestG, biggestEdge, ids, used, u, x, e);
      } else {
        SumSame(g, g', ends[e]);
      }
    }
  }

  lemma StillTaken(ends: seq<Edge>, vis: seq<bool>, g: seq<nat>, u: nat, x: nat, s: nat)
    requires |vis| == |g| && u < |vis| && !vis[u] && Taken(ends, vis, g, s)
    ensures Taken(ends, vis[u := true], g[u := x], s)
  {
    var e :| 0 <= e < |ends| && Finished(vis, ends[e]) && Sum(g, ends[e]) == s;
    SumSame(g, g[u := x], ends[e]);
    assert Finished(vis[u := true], ends[e]);
  }

  lemma MadeIsTaken(ends: seq<Edge>, crit: seq<bool>, vis: seq<bool>, g: seq<nat>, used: seq<bool>,
                    biggestG: nat, biggestEdge: nat, ids: seq<nat>, u: nat, x: nat, s: nat)
    requires EdgesAt(ends, u, ids) && EdgesOk(ends, |vis|) && |used| == |ends|
    requires Labels(crit, vis, g, |ends|, biggestG, biggestEdge) && u < |vis| && !vis[u]
    requires Fits(ends, vis, g, used, ids, u, x, |ids|) && MadeBy(ends, vis, g, ids, u, x, |ids|, s)
    ensures Taken(ends, vis[u := true], g[u := x], s)
  {
    var j :| 0 <= j < |ids| && ids[j] < |ends| && ends[ids[j]].Other(u) < |vis|
             && vis[ends[ids[j]].Other(u)] && s == x + g[ends[ids[j]].Other(u)];
    assert ends[ids[j]].Has(u) && EdgeOk(ends[ids[j]], |vis|);
    NewSum(ends, crit, vis, g, biggestG, biggestEdge, ids, used, u, x, ids[j]);
    assert Finished(vis[u := true], ends[ids[j]]);
  }

  /** Labelling `u` keeps all of it. */
  lemma LabelStep(ends: seq<Edge>, core: set<nat>, crit: seq<bool>, vis: seq<bool>, g: seq<nat>, used: seq<bool>,
                  used': seq<bool>,
                  biggestG: nat, biggestEdge: nat, biggestEdge': nat, comp: set<nat>, ids: seq<nat>, u: nat, x: nat)
    requires IsTwoCore(ends, core) && CriticalNodes(ends, core, crit) && Simple(ends) && EdgesAt(ends, u, ids)
    requires Labelling(ends, core, crit, vis, g, used, biggestG, biggestEdge, comp)
    requires u < |vis| && crit[u] && !vis[u] && Fits(ends, vis, g, used, ids, u, x, |ids|)
    requires FreshLabel(vis, g, x) && x < |ends| && 1 <= biggestEdge' <= 2 * Larger(biggestG, x) + 1
    requires MarkedUpTo(ends, vis, g, used, used', ids, u, x, |ids|)
    ensures Labelling(ends, core, crit, vis[u := true], g[u := x], used', Larger(biggestG, x), biggestEdge', comp + {u})
  {
    hide IsTwoCore, CriticalNodes, Simple, EdgesAt, Fits, MarkedUpTo, SumsApart, UsedOk;
    assert EdgesOk(ends, |vis|) by {
      SumsHaveEdges(ends, vis, g);
    }
    assert |used| == |ends| by {
      UsedSize(ends, vis, g, used);
    }
    NewSums(ends, core, crit, vis, g, used, biggestG, biggestEdge, comp, ids, u, x);
    NewUsed(ends, crit, vis, g, used, used', biggestG, biggestEdge, ids, u, x);
    SameOutside(vis, comp, u);
    MoreLabels(crit, vis, g, |ends|, biggestG, biggestEdge, biggestEdge', u, x);
  }

  lemma MoreLabels(crit: seq<bool>, vis: seq<bool>, g: seq<nat>, m: nat, biggestG: nat, biggestEdge: nat,
                   biggestEdge': nat, u: nat, x: nat)
    requires Labels(crit, vis, g, m, biggestG, biggestEdge) && u < |vis| && crit[u] && !vis[u] && x < m
    requires 1 <= biggestEdge' <= 2 * Larger(biggestG, x) + 1
    ensures Labels(crit, vis[u := true], g[u := x], m, Larger(biggestG, x), biggestEdge')
  {
    if x > biggestG {
      assert vis[u := true][u] && g[u := x][u] == x;
    } else if biggestG != 0 {
      var v :| 0 <= v < |vis| && vis[v] && g[v] == biggestG;
      assert vis[u := true][v] && g[u := x][v] == biggestG;
    }
  }

  lemma UsedSize(ends: seq<Edge>, vis: seq<bool>, g: seq<nat>, used: seq<bool>)
    requires UsedOk(ends, vis, g, used)
    ensures |used| == |ends|
  {
  }

  /** Starting a component: the root gets a label without an edge to any labelled vertex. */
  lemma RootStep(ends: seq<Edge>, core: set<nat>, crit: seq<bool>, vis: seq<bool>, g: seq<nat>, used: seq<bool>,
                 biggestG: nat, biggestEdge: nat, u: nat, x: nat)
    requires IsTwoCore(ends, core) && CriticalNodes(ends, core, crit)
    requires Labelling(ends, core, crit, vis, g, used, biggestG, biggestEdge, {})
    requires u < |vis| && crit[u] && !vis[u] && x <= biggestG
    ensures Labelling(ends, core, crit, vis[u := true], g[u := x], used, biggestG, biggestEdge, {u})
  {
    var vis', g' := vis[u := true], g[u := x];
    hide IsTwoCore, CriticalNodes, Sum, EndOf, Taken, SumsApart, UsedOk, Finished, CoreApart, Labels, CompOk;
    SumsHaveEdges(ends, vis, g);
    RootLabels(crit, vis, g, |ends|, biggestG, biggestEdge, u, x);
    forall e | 0 <= e < |ends|
      ensures Finished(vis', ends[e]) <==> Finished(vis, ends[e])
      ensures Finished(vis, ends[e]) ==> Sum(g', ends[e]) == Sum(g, ends[e])
    {
      RootEdge(ends, core, crit, vis, g, u, x, e);
    }
    RootSums(ends, vis, vis', g, g', u, x);
    RootUsed(ends, vis, vis', g, g', used, u, x);
    RootApart(ends, core, vis, u);
  }

  lemma RootLabels(crit: seq<bool>, vis: seq<bool>, g: seq<nat>, m: nat, biggestG: nat, biggestEdge: nat, u: nat,
                   x: nat)
    requires Labels(crit, vis, g, m, biggestG, biggestEdge) && u < |vis| && crit[u] && !vis[u] && x <= biggestG
    ensures Labels(crit, vis[u := true], g[u := x], m, biggestG, biggestEdge) && CompOk(vis[u := true], g[u := x], {u})
    ensures |crit| == |vis| == |g| && x < WORD_LIMIT && forall v :: 0 <= v < |vis| && vis[v] ==> crit[v]
  {
    if biggestG != 0 {
      var v :| 0 <= v < |vis| && vis[v] && g[v] == biggestG;
      assert vis[u := true][v] && g[u := x][v] == biggestG;
    }
  }

  lemma RootApart(ends: seq<Edge>, core: set<nat>, vis: seq<bool>, u: nat)
    requires CoreApart(ends, core, vis, {}) && u < |vis| && !vis[u]
    ensures CoreApart(ends, core, vis[u := true], {u})
  {
    SameOutside(vis, {}, u);
    assert {} + {u} == {u};
  }

  lemma RootEdge(ends: seq<Edge>, core: set<nat>, crit: seq<bool>, vis: seq<bool>, g: seq<nat>, u: nat, x: nat, e: nat)
    requires IsTwoCore(ends, core) && CriticalNodes(ends, core, crit) && CoreApart(ends, core, vis, {})
    requires |crit| == |vis| == |g| && u < |vis| && crit[u] && !vis[u] && e < |ends| && EdgeOk(ends[e], |vis|)
    requires forall v :: 0 <= v < |vis| && vis[v] ==> crit[v]
    ensures Finished(vis[u := true], ends[e]) <==> Finished(vis, ends[e])
    ensures Finished(vis, ends[e]) ==> Sum(g[u := x], ends[e]) == Sum(g, ends[e])
  {
    hide IsTwoCore, CriticalNodes, Sum, CoreApart;
    if ends[e].Has(u) && vis[ends[e].Other(u)] {
      NeighbourInComp(ends, core, crit, vis, {}, u, e);
    }
    if Finished(vis, ends[e]) {
      SumSame(g, g[u := x], ends[e]);
    }
  }

  lemma RootSums(ends: seq<Edge>, vis: seq<bool>, vis': seq<bool>, g: seq<nat>, g': seq<nat>, u: nat, x: nat)
    requires SumsApart(ends, vis, g) && u < |vis| && x < WORD_LIMIT && vis' == vis[u := true] && g' == g[u := x]
    requires forall e :: 0 <= e < |ends| ==> (Finished(vis', ends[e]) <==> Finished(vis, ends[e]))
    requires forall e :: 0 <= e < |ends| && Finished(vis, ends[e]) ==> Sum(g', ends[e]) == Sum(g, ends[e])
    ensures SumsApart(ends, vis', g')
  {
    hide Sum;
    forall e | 0 <= e < |ends|
      ensures SumInRange(ends, vis', g', e)
    {
      assert SumInRange(ends, vis, g, e);
    }
    forall e, f | 0 <= e < f < |ends|
      ensures SumsDiffer(ends, vis', g', e, f)
    {
      assert SumsDiffer(ends, vis, g, e, f);
    }
  }

  lemma RootUsed(ends: seq<Edge>, vis: seq<bool>, vis': seq<bool>, g: seq<nat>, g': seq<nat>, used: seq<bool>, u: nat,
                 x: nat)
    requires UsedOk(ends, vis, g, used) && EdgesOk(ends, |vis|) && u < |vis| && !vis[u] && vis' == vis[u := true]
             && g' == g[u := x]
    requires forall e :: 0 <= e < |ends| ==> (Finished(vis', ends[e]) <==> Finished(vis, ends[e]))
    requires forall e :: 0 <= e < |ends| && Finished(vis, ends[e]) ==> Sum(g', ends[e]) == Sum(g, ends[e])
    ensures UsedOk(ends, vis', g', used)
  {
    hide Sum, Taken;
    forall s | 0 <= s < |used| && used[s]
      ensures Taken(ends, vis', g', s)
    {
      StillTaken(ends, vis, g, u, x, s);
    }
  }

  // ---------- finding and taking a label ----------

  /** Larger than all the labels given so far */
  ghost predicate AboveLabels(vis: seq<bool>, g: seq<nat>, y: nat) {
    forall v :: 0 <= v < |vis| && v < |g| && vis[v] ==> g[v] < y
  }

  /** No label larger than all those given fits the critical vertex `u`, whose edges are `ids`. */
  ghost predicate StuckAt(ends: seq<Edge>, crit: seq<bool>, vis: seq<bool>, g: seq<nat>, used: seq<bool>, u: nat,
                          ids: seq<nat>) {
    && |crit| == |vis| == |g| && u < |vis| && crit[u] && !vis[u]
    && EdgesAt(ends, u, ids) && UsedOk(ends, vis, g, used)
    && forall y: nat :: AboveLabels(vis, g, y) ==> !Fits(ends, vis, g, used, ids, u, y, |ids|)
  }

  /** The labelling cannot go on at some vertex: the reason for a restart. */
  ghost predicate Stuck(ends: seq<Edge>, crit: seq<bool>, vis: seq<bool>, g: seq<nat>, used: seq<bool>) {
    exists u, ids :: StuckAt(ends, crit, vis, g, used, u, ids)
  }

  lemma NoLabelFound(ends: seq<Edge>, core: set<nat>, crit: seq<bool>, vis: seq<bool>, g: seq<nat>, used: seq<bool>,
                     biggestG: nat, biggestEdge: nat, comp: set<nat>, queue: seq<nat>, more: set<nat>, u: nat,
                     ids: seq<nat>, w: nat)
    requires Searching(ends, core, crit, vis, g, used, biggestG, biggestEdge, comp, queue, more)
    requires u < |vis| && u < |crit| && crit[u] && !vis[u] && EdgesAt(ends, u, ids) && w < |vis| && vis[w]
    requires forall y: nat :: y > biggestG ==> !Fits(ends, vis, g, used, ids, u, y, |ids|)
    ensures Stuck(ends, crit, vis, g, used)
  {
    hide SumsApart, CompOk, CoreApart, Frontier, EdgesAt, Fits, UsedOk;
    forall y: nat | AboveLabels(vis, g, y)
      ensures !Fits(ends, vis, g, used, ids, u, y, |ids|)
    {
      assert g[w] < y;
    }
    assert StuckAt(ends, crit, vis, g, used, u, ids);
  }

  /** The stage is this one. */
  ghost predicate Held(st: Stage, vis: seq<bool>, g: seq<nat>, used: seq<bool>, biggestG: nat, biggestEdge: nat,
                       unused: seq<nat>, queue: seq<nat>) {
    st == Stage(vis, g, used, biggestG, biggestEdge, unused, queue)
  }

  /** The stage has these arrays. */
  ghost predicate Shows(st: Stage, vis: seq<bool>, g: seq<nat>, used: seq<bool>) {
    st.vis == vis && st.g == g && st.used == used
  }

  lemma JudgedNext(ends: seq<Edge>, st: Stage, u: nat, x: nat, k: nat, w: nat)
    requires Shaped(ends, st.vis, st) && k <= |Around(ends, u)|
    requires k < |Around(ends, u)| ==> Joins(ends[Around(ends, u)[k]], u, w)
    ensures k == |Around(ends, u)| ==> Judged(ends, st, u, x, k) == Fitting
    ensures k < |Around(ends, u)| ==>
              && w < |st.vis|
              && Judged(ends, st, u, x, k)
                 == if !st.vis[w] then Judged(ends, st, u, x, k + 1)
                    else if x + st.g[w] >= |st.used| then TooLarge
                    else if st.used[x + st.g[w]] then Collides
                    else Judged(ends, st, u, x, k + 1)
  {
    if k < |Around(ends, u)| {
      assert EdgeOk(ends[Around(ends, u)[k]], |st.vis|);
      OtherOfJoin(ends[Around(ends, u)[k]], u, w);
    }
  }

  /** The innermost loop: whether a label fits for all labelled neighbours. A sum that is out of range asks for a
      restart: then no larger label fits either. */
  method CheckLabel(graph: Graph, g: array<nat>, usedEdges: array<bool>, visited: array<bool>, critical: array<bool>,
                    u: nat, nextG: nat, ghost ends: seq<Edge>, ghost adj: seq<seq<nat>>, ghost st: Stage)
    returns (collision: bool, restart: bool)
    requires graph.Holds(ends, adj) && u < graph.nnodes <= NO_NEIGHBOR && InOrder(ends, adj, graph.nedges)
    requires Shows(st, visited[..], g[..], usedEdges[..]) && EdgesOk(ends, graph.nnodes)
    requires g.Length == visited.Length == critical.Length == graph.nnodes && usedEdges.Length == |ends|
    requires forall v :: 0 <= v < visited.Length && visited[v] ==> critical[v]
    ensures var ids := Ids(adj[u], graph.nedges);
            && (collision || restart <==> !Fits(ends, visited[..], g[..], usedEdges[..], ids, u, nextG, |ids|))
            && (restart ==>
                  forall y: nat :: y >= nextG ==> !Fits(ends, visited[..], g[..], usedEdges[..], ids, u, y, |ids|))
    ensures collision && !restart ==> nextG < usedEdges.Length
    ensures Judged(ends, st, u, nextG, 0) == if restart then TooLarge else if collision then Collides else Fitting
  {
    hide Represents, Ids, Fits, Joins, Judged, InOrder, Around, EdgesOk;
    graph.IdsHold(u, ends, adj);
    InOrderAt(ends, adj, graph.nedges, u);
    ghost var ids := Ids(adj[u], graph.nedges);
    var it1 := graph.NeighborsIt(u, ends, adj);
    collision, restart := false, false;
    ghost var p := 0;
    NothingFits(ends, visited[..], g[..], usedEdges[..], ids, u, nextG);
    while true
      invariant it1.vertex == u && graph.StandsAt(it1, adj[u], p)
      invariant Fits(ends, visited[..], g[..], usedEdges[..], ids, u, nextG, p)
      invariant Judged(ends, st, u, nextG, 0) == Judged(ends, st, u, nextG, p)
      decreases |adj[u]| - p
    {
      var lav: nat;
      lav, it1 := graph.NextNeighbor(it1, ends, adj, p);
      JudgedNext(ends, st, u, nextG, p, lav);
      if lav == NO_NEIGHBOR {
        break;
      }
      if critical[lav] && visited[lav] {
        if nextG + g[lav] >= usedEdges.Length {
          NothingLargerFits(ends, visited[..], g[..], usedEdges[..], ids, u, nextG, p, lav);
          return collision, true;
        }
        if usedEdges[nextG + g[lav]] {
          UsedDoesNotFit(ends, visited[..], g[..], usedEdges[..], ids, u, nextG, p, lav);
          return true, false;
        }
      }
      FitsOneMore(ends, visited[..], g[..], usedEdges[..], ids, u, nextG, p, lav);
      p := p + 1;
    }
  }

  lemma NothingFits(ends: seq<Edge>, vis: seq<bool>, g: seq<nat>, used: seq<bool>, ids: seq<nat>, u: nat, x: nat)
    requires |vis| == |g|
    ensures Fits(ends, vis, g, used, ids, u, x, 0)
  {
  }

  lemma FitsOneMore(ends: seq<Edge>, vis: seq<bool>, g: seq<nat>, used: seq<bool>, ids: seq<nat>, u: nat, x: nat,
                    k: nat, w: nat)
    requires Fits(ends, vis, g, used, ids, u, x, k) && k < |ids| && ids[k] < |ends| && Joins(ends[ids[k]], u, w)
    requires FitsEdge(vis, g, used, w, x)
    ensures Fits(ends, vis, g, used, ids, u, x, k + 1)
  {
  }

  lemma NothingLargerFits(ends: seq<Edge>, vis: seq<bool>, g: seq<nat>, used: seq<bool>, ids: seq<nat>, u: nat, x: nat,
                          k: nat, w: nat)
    requires k < |ids| && ids[k] < |ends| && Joins(ends[ids[k]], u, w) && w < |vis| == |g|
    requires vis[w] && x + g[w] >= |used|
    ensures forall y: nat :: y >= x ==> !Fits(ends, vis, g, used, ids, u, y, |ids|)
  {
    OtherOfJoin(ends[ids[k]], u, w);
    forall y: nat | y >= x
      ensures !Fits(ends, vis, g, used, ids, u, y, |ids|)
    {
      assert !FitsEdge(vis, g, used, ends[ids[k]].Other(u), y);
    }
  }

  lemma UsedDoesNotFit(ends: seq<Edge>, vis: seq<bool>, g: seq<nat>, used: seq<bool>, ids: seq<nat>, u: nat, x: nat,
                       k: nat, w: nat)
    requires k < |ids| && ids[k] < |ends| && Joins(ends[ids[k]], u, w) && w < |vis| == |g|
    requires vis[w] && x + g[w] < |used| && used[x + g[w]]
    ensures !Fits(ends, vis, g, used, ids, u, x, |ids|)
  {
    OtherOfJoin(ends[ids[k]], u, w);
    assert !FitsEdge(vis, g, used, ends[ids[k]].Other(u), x);
  }

  /** The loop that looks for a label: it finds the least number above the biggest label that fits, and asks for a
      restart exactly when none does. */
  method FindLabel(graph: Graph, g: array<nat>, usedEdges: array<bool>, visited: array<bool>, critical: array<bool>,
                   u: nat, biggestG: nat, ghost ends: seq<Edge>, ghost adj: seq<seq<nat>>, ghost e: nat,
                   ghost st: Stage)
    returns (restart: bool, nextG: nat, biggestG': nat)
    requires graph.Holds(ends, adj) && u < graph.nnodes <= NO_NEIGHBOR && biggestG < usedEdges.Length
    requires InOrder(ends, adj, graph.nedges) && Shows(st, visited[..], g[..], usedEdges[..])
    requires EdgesOk(ends, graph.nnodes) && st.biggestG == biggestG
    requires g.Length == visited.Length == critical.Length == graph.nnodes && usedEdges.Length == |ends|
    requires forall v :: 0 <= v < visited.Length && visited[v] ==> critical[v]
    requires e < |ends| && ends[e].Has(u) && ends[e].Other(u) < visited.Length && visited[ends[e].Other(u)]
    ensures !restart ==> biggestG < nextG == biggestG' < usedEdges.Length
    ensures var ids := Ids(adj[u], graph.nedges);
            && (!restart ==> Fits(ends, visited[..], g[..], usedEdges[..], ids, u, nextG, |ids|))
            && forall y: nat :: y > biggestG && (restart || y < nextG) ==>
                 !Fits(ends, visited[..], g[..], usedEdges[..], ids, u, y, |ids|)
    ensures Choose(ends, false, st, u) == if restart then GiveUp else Take(nextG, [])
  {
    hide Represents, Ids, Fits, EdgesAt, Judged, TakeAbove, InOrder, EdgesOk;
    graph.IdsHold(u, ends, adj);
    ghost var ids := Ids(adj[u], graph.nedges);
    var collision := true;
    restart, nextG, biggestG' := false, 0, biggestG;
    ghost var passed: seq<nat> := [];
    while collision
      invariant collision ==>
                  TakeAbove(ends, st, u, biggestG + 1, []) == TakeAbove(ends, st, u, biggestG' + 1, passed)
      invariant !collision ==> TakeAbove(ends, st, u, biggestG + 1, []) == Take(nextG, passed)
      invariant biggestG <= biggestG' < usedEdges.Length
      invariant !collision ==> nextG == biggestG' > biggestG
                               && Fits(ends, visited[..], g[..], usedEdges[..], ids, u, nextG, |ids|)
      invariant forall y: nat :: biggestG < y <= biggestG' && (collision || y < nextG) ==>
                  !Fits(ends, visited[..], g[..], usedEdges[..], ids, u, y, |ids|)
      decreases usedEdges.Length - biggestG'
    {
      nextG := biggestG' + 1;
      collision, restart := CheckLabel(graph, g, usedEdges, visited, critical, u, nextG, ends, adj, st);
      TakeAboveNext(ends, st, u, nextG, passed);
      if restart {
        return;
      }
      if collision {
        passed := passed + [nextG];
      }
      if !collision {
        FitsInRange(ends, visited[..], g[..], usedEdges[..], ids, u, nextG, e);
      }
      if nextG > biggestG' {
        biggestG' := nextG;
      }
    }
  }

  lemma TakeAboveNext(ends: seq<Edge>, st: Stage, u: nat, y: nat, skipped: seq<nat>)
    requires Shaped(ends, st.vis, st)
    ensures TakeAbove(ends, st, u, y, skipped)
            == match Judged(ends, st, u, y, 0)
               case Fitting => Take(y, skipped)
               case TooLarge => GiveUp
               case Collides => TakeAbove(ends, st, u, y + 1, skipped + [y])
  {
    hide Judged;
  }

  lemma FitsInRange(ends: seq<Edge>, vis: seq<bool>, g: seq<nat>, used: seq<bool>, ids: seq<nat>, u: nat, x: nat,
                    e: nat)
    requires EdgesAt(ends, u, ids) && Fits(ends, vis, g, used, ids, u, x, |ids|)
    requires e < |ends| && ends[e].Has(u) && ends[e].Other(u) < |vis| && vis[ends[e].Other(u)]
    ensures x < |used|
  {
    assert e in ids;
  }

  // ---------- the variant that comes back to labels it has skipped ----------

  /** Labels that were skipped: different, not above the largest label, and not in use */
  ghost predicate Skipped(unused: seq<nat>, vis: seq<bool>, g: seq<nat>, biggestG: nat) {
    && Distinct(unused)
    && forall i :: 0 <= i < |unused| ==> unused[i] <= biggestG && FreshLabel(vis, g, unused[i])
  }

  /** The largest label so far has failed, and is kept for later. */
  lemma SkipLargest(unused: seq<nat>, vis: seq<bool>, g: seq<nat>, biggestG: nat)
    requires Skipped(unused, vis, g, biggestG) && FreshLabel(vis, g, biggestG + 1)
    ensures Skipped(unused + [biggestG + 1], vis, g, biggestG + 1)
  {
    hide FreshLabel;
  }

  lemma TakenOutIsGone(unused: seq<nat>, vis: seq<bool>, g: seq<nat>, biggestG: nat, i: nat)
    requires Skipped(unused, vis, g, biggestG) && i < |unused|
    ensures Skipped(TakenOut(unused, i), vis, g, biggestG) && unused[i] !in TakenOut(unused, i)
  {
    hide FreshLabel;
    var r, last := TakenOut(unused, i), |unused| - 1;
    forall j | 0 <= j < |r|
      ensures r[j] == unused[if j == i then last else j] && r[j] != unused[i]
    {
    }
  }

  /** Labels skipped before stay so when another label is given. */
  lemma StillSkipped(unused: seq<nat>, vis: seq<bool>, g: seq<nat>, biggestG: nat, u: nat, x: nat)
    requires Skipped(unused, vis, g, biggestG) && x !in unused && u < |vis| && u < |g|
    ensures Skipped(unused, vis[u := true], g[u := x], biggestG)
  {
    forall i | 0 <= i < |unused|
      ensures FreshLabel(vis[u := true], g[u := x], unused[i])
    {
      assert unused[i] in unused;
    }
  }

  lemma AboveIsFresh(vis: seq<bool>, g: seq<nat>, biggestG: nat, x: nat)
    requires x > biggestG && forall v :: 0 <= v < |vis| && v < |g| && vis[v] ==> g[v] <= biggestG
    ensures FreshLabel(vis, g, x)
  {
  }

  /** How far the search for a label has come: labels between the largest at first and the largest now do not fit. */
  ghost predicate Tried(ends: seq<Edge>, vis: seq<bool>, g: seq<nat>, used: seq<bool>, ids: seq<nat>, u: nat,
                        lo: nat, hi: nat) {
    forall y: nat :: lo < y <= hi ==> !Fits(ends, vis, g, used, ids, u, y, |ids|)
  }

  /** The same loop in the heuristic variant: skipped labels come first, new ones after them. */
  method FindSkippedLabel(graph: Graph, g: array<nat>, usedEdges: array<bool>, visited: array<bool>,
                          critical: array<bool>, u: nat, biggestG: nat, unused0: seq<nat>, ghost ends: seq<Edge>,
                          ghost adj: seq<seq<nat>>, ghost e: nat, ghost st: Stage)
    returns (restart: bool, nextG: nat, biggestG': nat, unused: seq<nat>)
    requires graph.Holds(ends, adj) && u < graph.nnodes <= NO_NEIGHBOR && biggestG < usedEdges.Length < EMPTY
    requires g.Length == visited.Length == critical.Length == graph.nnodes && usedEdges.Length == |ends|
    requires forall v :: 0 <= v < visited.Length && visited[v] ==> critical[v] && g[v] <= biggestG
    requires e < |ends| && ends[e].Has(u) && ends[e].Other(u) < visited.Length && visited[ends[e].Other(u)]
    requires Skipped(unused0, visited[..], g[..], biggestG)
    requires InOrder(ends, adj, graph.nedges) && Shows(st, visited[..], g[..], usedEdges[..])
    requires EdgesOk(ends, graph.nnodes) && st.biggestG == biggestG && st.unused == unused0
    ensures !restart ==>
              && nextG < usedEdges.Length && biggestG' == Larger(biggestG, nextG)
              && FreshLabel(visited[..], g[..], nextG)
              && Fits(ends, visited[..], g[..], usedEdges[..], Ids(adj[u], graph.nedges), u, nextG, |adj[u]|)
              && Skipped(unused, visited[..], g[..], biggestG') && nextG !in unused
    ensures restart ==> forall y: nat :: y > biggestG ==>
              !Fits(ends, visited[..], g[..], usedEdges[..], Ids(adj[u], graph.nedges), u, y, |adj[u]|)
    ensures Choose(ends, true, st, u) == if restart then GiveUp else Take(nextG, unused)
  {
    graph.IdsHold(u, ends, adj);
    ghost var vis, labels, used, ids := visited[..], g[..], usedEdges[..], Ids(adj[u], graph.nedges);
    restart, nextG, biggestG', unused := false, 0, biggestG, unused0;
    var nextGIndex: nat, collision := 0, true;
    hide Represents, Ids, Fits, EdgesAt, FreshLabel, Skipped, Tried, Trying, Choosing, TakeSkipped, InOrder, EdgesOk;
    StartTrying(ends, vis, labels, used, ids, u, biggestG, unused);
    StartChoosing(ends, st, u);
    while collision
      invariant !restart && Trying(ends, vis, labels, used, ids, u, biggestG, biggestG', unused, nextGIndex, nextG,
                                   collision)
      invariant Choosing(ends, st, u, nextGIndex, biggestG', unused, nextG, collision)
      decreases TriesLeft(unused, nextGIndex), usedEdges.Length - biggestG'
    {
      collision, restart, nextG, nextGIndex, biggestG', unused :=
        TryLabel(graph, g, usedEdges, visited, critical, u, biggestG, biggestG', unused, nextGIndex, nextG, ends, adj,
                 e, ids, st);
      if restart {
        return;
      }
    }
    LabelFound(ends, vis, labels, used, ids, u, biggestG, biggestG', unused, nextGIndex, nextG);
    LabelChosen(ends, st, u, nextGIndex, biggestG', unused, nextG);
    nextGIndex := nextGIndex - 1;
    if nextGIndex < |unused| {
      unused := TakenOut(unused, nextGIndex);
    }
  }

  ghost function TriesLeft(unused: seq<nat>, nextGIndex: nat): int {
    if nextGIndex == EMPTY then 0 else 1 + |unused| - nextGIndex
  }

  /** The state of the loop: skipped labels are tried up to the index, and then, at `EMPTY`, those above the largest. */
  ghost predicate Trying(ends: seq<Edge>, vis: seq<bool>, g: seq<nat>, used: seq<bool>, ids: seq<nat>, u: nat,
                         biggestG: nat, biggestG': nat, unused: seq<nat>, nextGIndex: nat, nextG: nat,
                         collision: bool) {
    && biggestG <= biggestG' < |used| && Skipped(unused, vis, g, biggestG')
    && (if nextGIndex == EMPTY then biggestG' > biggestG else nextGIndex <= |unused| && biggestG' == biggestG)
    && (collision ==> Tried(ends, vis, g, used, ids, u, biggestG, biggestG'))
    && (!collision ==>
          && Fits(ends, vis, g, used, ids, u, nextG, |ids|) && nextG < |used|
          && if nextGIndex == EMPTY then nextG == biggestG' && FreshLabel(vis, g, nextG) && nextG !in unused
             else nextGIndex >= 1 && unused[nextGIndex - 1] == nextG)
  }

  lemma StartTrying(ends: seq<Edge>, vis: seq<bool>, g: seq<nat>, used: seq<bool>, ids: seq<nat>, u: nat,
                    biggestG: nat, unused: seq<nat>)
    requires biggestG < |used| && Skipped(unused, vis, g, biggestG)
    ensures Trying(ends, vis, g, used, ids, u, biggestG, biggestG, unused, 0, 0, true)
  {
  }

  lemma LabelFound(ends: seq<Edge>, vis: seq<bool>, g: seq<nat>, used: seq<bool>, ids: seq<nat>, u: nat,
                   biggestG: nat, biggestG': nat, unused: seq<nat>, nextGIndex: nat, nextG: nat)
    requires Trying(ends, vis, g, used, ids, u, biggestG, biggestG', unused, nextGIndex, nextG, false)
    requires |used| < EMPTY
    ensures nextGIndex >= 1 && nextG < |used| && biggestG' == Larger(biggestG, nextG)
    ensures FreshLabel(vis, g, nextG) && Fits(ends, vis, g, used, ids, u, nextG, |ids|)
    ensures var rest := if nextGIndex - 1 < |unused| then TakenOut(unused, nextGIndex - 1) else unused;
            Skipped(rest, vis, g, biggestG') && nextG !in rest
  {
    hide Skipped, FreshLabel, Fits, Tried;
    SkippedAreFew(unused, vis, g, biggestG');
    if nextGIndex - 1 < |unused| {
      SkippedIsSmall(unused, vis, g, biggestG', nextGIndex - 1);
      TakenOutIsGone(unused, vis, g, biggestG', nextGIndex - 1);
    }
  }

  /** How far the choice has come, as `Choose` makes it */
  ghost predicate Choosing(ends: seq<Edge>, st: Stage, u: nat, nextGIndex: nat, biggestG: nat, unused: seq<nat>,
                           nextG: nat, collision: bool) {
    && Shaped(ends, st.vis, st) && (nextGIndex != EMPTY ==> unused == st.unused && biggestG == st.biggestG)
    && (collision ==>
          TakeSkipped(ends, st, u, 0) == if nextGIndex == EMPTY then TakeAbove(ends, st, u, biggestG + 1, unused)
                                         else TakeSkipped(ends, st, u, nextGIndex))
    && (!collision ==>
          TakeSkipped(ends, st, u, 0)
          == Take(nextG, if 1 <= nextGIndex <= |unused| then TakenOut(unused, nextGIndex - 1) else unused))
  }

  lemma StartChoosing(ends: seq<Edge>, st: Stage, u: nat)
    requires Shaped(ends, st.vis, st)
    ensures Choosing(ends, st, u, 0, st.biggestG, st.unused, 0, true)
  {
  }

  lemma LabelChosen(ends: seq<Edge>, st: Stage, u: nat, nextGIndex: nat, biggestG: nat, unused: seq<nat>, nextG: nat)
    requires Choosing(ends, st, u, nextGIndex, biggestG, unused, nextG, false) && nextGIndex >= 1
    ensures Choose(ends, true, st, u)
            == Take(nextG, if nextGIndex - 1 < |unused| then TakenOut(unused, nextGIndex - 1) else unused)
  {
    hide TakeSkipped;
  }

  lemma ChoosingNext(ends: seq<Edge>, st: Stage, u: nat, nextGIndex: nat, biggestG: nat, unused: seq<nat>, nextG0: nat,
                     nextG: nat, nextGIndex': nat)
    requires Choosing(ends, st, u, nextGIndex, biggestG, unused, nextG0, true) && |unused| < EMPTY
    requires if nextGIndex < |unused| then nextG == unused[nextGIndex] <= biggestG && nextGIndex' == nextGIndex + 1
             else nextG == biggestG + 1 && nextGIndex' == EMPTY && (nextGIndex == |unused| || nextGIndex == EMPTY)
    ensures Judged(ends, st, u, nextG, 0).TooLarge? ==> Choose(ends, true, st, u) == GiveUp
    ensures Judged(ends, st, u, nextG, 0).Collides? && nextG < |st.used| ==>
              Choosing(ends, st, u, nextGIndex', if nextG > biggestG then nextG else biggestG,
                       if nextG > biggestG then unused + [nextG] else unused, nextG, true)
    ensures Judged(ends, st, u, nextG, 0).Fitting? ==>
              Choosing(ends, st, u, nextGIndex', if nextG > biggestG then nextG else biggestG, unused, nextG, false)
  {
    hide Judged, TakeAbove, TakenOut;
    TakeAboveNext(ends, st, u, nextG, unused);
    TakeSkippedNext(ends, st, u, nextGIndex);
    hide TakeSkipped;
  }

  lemma TakeSkippedNext(ends: seq<Edge>, st: Stage, u: nat, i: nat)
    requires Shaped(ends, st.vis, st)
    ensures TakeSkipped(ends, st, u, i)
            == if i >= |st.unused| then TakeAbove(ends, st, u, st.biggestG + 1, st.unused)
               else
                 match Judged(ends, st, u, st.unused[i], 0)
                 case Fitting => Take(st.unused[i], TakenOut(st.unused, i))
                 case TooLarge => GiveUp
                 case Collides => TakeSkipped(ends, st, u, i + 1)
  {
    hide Judged, TakeAbove, TakenOut;
  }

  /** The body of the loop: the next label to try, and whether it fits */
  method TryLabel(graph: Graph, g: array<nat>, usedEdges: array<bool>, visited: array<bool>, critical: array<bool>,
                  u: nat, ghost biggestG: nat, biggestG': nat, unused: seq<nat>, nextGIndex: nat, ghost nextG: nat,
                  ghost ends: seq<Edge>, ghost adj: seq<seq<nat>>, ghost e: nat, ghost ids: seq<nat>, ghost st: Stage)
    returns (collision: bool, restart: bool, nextG': nat, nextGIndex': nat, biggestG'': nat, unused': seq<nat>)
    requires graph.Holds(ends, adj) && u < graph.nnodes <= NO_NEIGHBOR && usedEdges.Length < EMPTY
    requires g.Length == visited.Length == critical.Length == graph.nnodes && usedEdges.Length == |ends|
    requires forall v :: 0 <= v < visited.Length && visited[v] ==> critical[v] && g[v] <= biggestG
    requires e < |ends| && ends[e].Has(u) && ends[e].Other(u) < visited.Length && visited[ends[e].Other(u)]
    requires ids == Ids(adj[u], graph.nedges) && EdgesAt(ends, u, ids)
    requires Trying(ends, visited[..], g[..], usedEdges[..], ids, u, biggestG, biggestG', unused, nextGIndex, nextG,
                    true)
    requires Choosing(ends, st, u, nextGIndex, biggestG', unused, nextG, true)
    requires InOrder(ends, adj, graph.nedges) && Shows(st, visited[..], g[..], usedEdges[..])
    requires EdgesOk(ends, graph.nnodes)
    ensures restart ==>
              && (forall y: nat :: y > biggestG ==> !Fits(ends, visited[..], g[..], usedEdges[..], ids, u, y, |ids|))
              && Choose(ends, true, st, u) == GiveUp
    ensures !restart ==>
              && Trying(ends, visited[..], g[..], usedEdges[..], ids, u, biggestG, biggestG'', unused', nextGIndex',
                        nextG', collision)
              && Choosing(ends, st, u, nextGIndex', biggestG'', unused', nextG', collision)
              && 0 <= TriesLeft(unused', nextGIndex') <= TriesLeft(unused, nextGIndex)
              && (TriesLeft(unused', nextGIndex') == TriesLeft(unused, nextGIndex) ==>
                    biggestG' < biggestG'' <= usedEdges.Length)
  {
    hide Represents, Ids, Fits, EdgesAt, FreshLabel, Skipped, Tried, Choosing, Judged, InOrder, EdgesOk, Choose;
    ghost var vis, labels, used := visited[..], g[..], usedEdges[..];
    biggestG'', unused' := biggestG', unused;
    SkippedAreFew(unused, vis, labels, biggestG');
    if nextGIndex < |unused| {
      nextG', nextGIndex' := unused[nextGIndex], nextGIndex + 1;
      SkippedIsSmall(unused, vis, labels, biggestG', nextGIndex);
    } else {
      nextG', nextGIndex' := biggestG' + 1, EMPTY;
      AboveIsFresh(vis, labels, biggestG, nextG');
    }
    collision, restart := CheckLabel(graph, g, usedEdges, visited, critical, u, nextG', ends, adj, st);
    ChoosingNext(ends, st, u, nextGIndex, biggestG', unused, nextG, nextG', nextGIndex');
    if restart {
      NothingAbove(ends, vis, labels, used, ids, u, biggestG, biggestG', nextG');
      return;
    }
    if collision && nextG' > biggestG' {
      SkipLargest(unused, vis, labels, biggestG');
      TriedMore(ends, vis, labels, used, ids, u, biggestG, biggestG');
      unused' := unused + [nextG'];
    }
    if !collision {
      FitsInRange(ends, vis, labels, used, ids, u, nextG', e);
      if nextG' > biggestG' {
        LargestIsNew(unused, vis, labels, biggestG');
      }
    }
    if nextG' > biggestG' {
      biggestG'' := nextG';
    }
  }

  lemma SkippedAreFew(unused: seq<nat>, vis: seq<bool>, g: seq<nat>, biggestG: nat)
    requires Skipped(unused, vis, g, biggestG)
    ensures |unused| <= biggestG + 1
  {
    DistinctBelow(unused, biggestG + 1);
  }

  lemma SkippedIsSmall(unused: seq<nat>, vis: seq<bool>, g: seq<nat>, biggestG: nat, i: nat)
    requires Skipped(unused, vis, g, biggestG) && i < |unused|
    ensures unused[i] <= biggestG && FreshLabel(vis, g, unused[i])
  {
  }

  lemma LargestIsNew(unused: seq<nat>, vis: seq<bool>, g: seq<nat>, biggestG: nat)
    requires Skipped(unused, vis, g, biggestG)
    ensures Skipped(unused, vis, g, biggestG + 1) && biggestG + 1 !in unused
  {
    hide FreshLabel;
  }

  lemma TriedMore(ends: seq<Edge>, vis: seq<bool>, g: seq<nat>, used: seq<bool>, ids: seq<nat>, u: nat, lo: nat,
                  hi: nat)
    requires Tried(ends, vis, g, used, ids, u, lo, hi) && !Fits(ends, vis, g, used, ids, u, hi + 1, |ids|)
    ensures Tried(ends, vis, g, used, ids, u, lo, hi + 1)
  {
    hide Fits;
  }

  lemma NothingAbove(ends: seq<Edge>, vis: seq<bool>, g: seq<nat>, used: seq<bool>, ids: seq<nat>, u: nat, lo: nat,
                     hi: nat, x: nat)
    requires Tried(ends, vis, g, used, ids, u, lo, hi) && x <= hi + 1
    requires forall y: nat :: y >= x ==> !Fits(ends, vis, g, used, ids, u, y, |ids|)
    ensures forall y: nat :: y > lo ==> !Fits(ends, vis, g, used, ids, u, y, |ids|)
  {
    hide Fits;
  }

  // ---------- marking the numbers ----------

  /** The loop that marks the numbers of the edges to labelled neighbours */
  method MarkSums(graph: Graph, g: array<nat>, usedEdges: array<bool>, visited: array<bool>, critical: array<bool>,
                  u: nat, nextG: nat, biggestEdge: nat, ghost ends: seq<Edge>, ghost adj: seq<seq<nat>>,
                  ghost bound: nat, ghost st: Stage)
    returns (biggestEdge': nat)
    requires InOrder(ends, adj, graph.nedges) && Shows(st, visited[..], g[..], usedEdges[..])
    requires EdgesOk(ends, graph.nnodes) && st.biggestEdge == biggestEdge
    requires graph.Holds(ends, adj) && u < graph.nnodes <= NO_NEIGHBOR && usedEdges != visited && usedEdges != critical
    requires g.Length == visited.Length == critical.Length == graph.nnodes && usedEdges.Length == |ends|
    requires forall v :: 0 <= v < visited.Length && visited[v] ==> critical[v] && g[v] <= bound
    requires Fits(ends, visited[..], g[..], usedEdges[..], Ids(adj[u], graph.nedges), u, nextG, |adj[u]|)
    requires 1 <= biggestEdge <= 2 * bound + 1 && nextG <= bound
    modifies usedEdges
    ensures MarkedUpTo(ends, visited[..], g[..], old(usedEdges[..]), usedEdges[..], Ids(adj[u], graph.nedges), u, nextG,
                       |adj[u]|)
    ensures 1 <= biggestEdge' <= 2 * bound + 1
    ensures MarkedAs(ends, st, u, nextG, |Around(ends, u)|, usedEdges[..], biggestEdge')
  {
    hide Represents, Ids, Fits, MarkedUpTo, Joins, AbsEdge, MarkedAs, InOrder, Around, EdgesOk;
    graph.IdsHold(u, ends, adj);
    InOrderAt(ends, adj, graph.nedges, u);
    ghost var ids, used := Ids(adj[u], graph.nedges), usedEdges[..];
    NoMarks(ends, st, u, nextG);
    biggestEdge' := biggestEdge;
    var it1 := graph.NeighborsIt(u, ends, adj);
    ghost var p := 0;
    NothingMarked(ends, visited[..], g[..], used, ids, u, nextG);
    while true
      invariant it1.vertex == u && graph.StandsAt(it1, adj[u], p) && 1 <= biggestEdge' <= 2 * bound + 1
      invariant MarkedUpTo(ends, visited[..], g[..], used, usedEdges[..], ids, u, nextG, p)
      invariant MarkedAs(ends, st, u, nextG, p, usedEdges[..], biggestEdge')
      decreases |adj[u]| - p
    {
      var lav: nat;
      lav, it1 := graph.NextNeighbor(it1, ends, adj, p);
      if lav == NO_NEIGHBOR {
        break;
      }
      ghost var now, big := usedEdges[..], biggestEdge';
      biggestEdge' := MarkNeighbour(g, usedEdges, visited, critical, lav, u, nextG, biggestEdge', ends, used, ids, p,
                                    bound);
      MarksNext(ends, st, u, nextG, p, lav, now, big, usedEdges[..], biggestEdge');
      p := p + 1;
    }
  }

  /** The body of that loop */
  method MarkNeighbour(g: array<nat>, usedEdges: array<bool>, visited: array<bool>, critical: array<bool>, lav: nat,
                       ghost u: nat,
                       nextG: nat, biggestEdge: nat, ghost ends: seq<Edge>, ghost used: seq<bool>, ghost ids: seq<nat>,
                       ghost p: nat, ghost bound: nat)
    returns (biggestEdge': nat)
    requires lav < g.Length == visited.Length == critical.Length && usedEdges.Length == |used|
    requires usedEdges != visited && usedEdges != critical
    requires visited[lav] ==> critical[lav] && g[lav] <= bound
    requires Fits(ends, visited[..], g[..], used, ids, u, nextG, |ids|)
    requires MarkedUpTo(ends, visited[..], g[..], used, usedEdges[..], ids, u, nextG, p)
    requires p < |ids| && ids[p] < |ends| && Joins(ends[ids[p]], u, lav)
    requires 1 <= biggestEdge <= 2 * bound + 1 && nextG <= bound
    modifies usedEdges
    ensures MarkedUpTo(ends, visited[..], g[..], used, usedEdges[..], ids, u, nextG, p + 1)
    ensures 1 <= biggestEdge' <= 2 * bound + 1
    ensures visited[lav] ==> nextG + g[lav] < usedEdges.Length
    ensures usedEdges[..] == if visited[lav] then old(usedEdges[..])[nextG + g[lav] := true] else old(usedEdges[..])
    ensures biggestEdge' == if visited[lav] && nextG + g[lav] > biggestEdge then nextG + g[lav] else biggestEdge
  {
    hide Fits, MarkedUpTo, Joins;
    FitsAt(ends, visited[..], g[..], used, ids, u, nextG, p, lav);
    MarkOneMore(ends, visited[..], g[..], used, usedEdges[..], ids, u, nextG, p, lav);
    biggestEdge' := biggestEdge;
    if critical[lav] && visited[lav] {
      biggestEdge' := MarkUsed(usedEdges, nextG + g[lav], biggestEdge');
    }
  }

  method MarkUsed(usedEdges: array<bool>, s: nat, biggestEdge: nat) returns (biggestEdge': nat)
    requires s < usedEdges.Length
    modifies usedEdges
    ensures usedEdges[..] == old(usedEdges[..])[s := true]
    ensures biggestEdge' == if s > biggestEdge then s else biggestEdge
  {
    usedEdges[s] := true;
    biggestEdge' := biggestEdge;
    if s > biggestEdge' {
      biggestEdge' := s;
    }
  }

  /** The marks and the largest number are those after the first `k` edges. */
  ghost predicate MarkedAs(ends: seq<Edge>, st: Stage, u: nat, x: nat, k: nat, used: seq<bool>, biggestEdge: nat) {
    && Shaped(ends, st.vis, st) && k <= |Around(ends, u)|
    && used == Marks(ends, st, u, x, k) && biggestEdge == Biggest(ends, st, u, x, k)
  }

  lemma NoMarks(ends: seq<Edge>, st: Stage, u: nat, x: nat)
    requires Shaped(ends, st.vis, st)
    ensures MarkedAs(ends, st, u, x, 0, st.used, st.biggestEdge)
  {
  }

  lemma MarksNext(ends: seq<Edge>, st: Stage, u: nat, x: nat, k: nat, w: nat, used: seq<bool>, biggestEdge: nat,
                  used': seq<bool>, biggestEdge': nat)
    requires MarkedAs(ends, st, u, x, k, used, biggestEdge)
    requires k < |Around(ends, u)| && Joins(ends[Around(ends, u)[k]], u, w) && w < |st.vis|
    requires st.vis[w] ==> x + st.g[w] < |used|
    requires used' == if st.vis[w] then used[x + st.g[w] := true] else used
    requires biggestEdge' == if st.vis[w] && x + st.g[w] > biggestEdge then x + st.g[w] else biggestEdge
    ensures MarkedAs(ends, st, u, x, k + 1, used', biggestEdge')
  {
    assert EdgeOk(ends[Around(ends, u)[k]], |st.vis|);
    OtherOfJoin(ends[Around(ends, u)[k]], u, w);
  }

  lemma NothingMarked(ends: seq<Edge>, vis: seq<bool>, g: seq<nat>, used: seq<bool>, ids: seq<nat>, u: nat, x: nat)
    ensures MarkedUpTo(ends, vis, g, used, used, ids, u, x, 0)
  {
  }

  lemma FitsAt(ends: seq<Edge>, vis: seq<bool>, g: seq<nat>, used: seq<bool>, ids: seq<nat>, u: nat, x: nat, k: nat,
               w: nat)
    requires Fits(ends, vis, g, used, ids, u, x, |ids|) && k < |ids| && ids[k] < |ends| && Joins(ends[ids[k]], u, w)
    ensures FitsEdge(vis, g, used, w, x)
  {
  }

  lemma MarkOneMore(ends: seq<Edge>, vis: seq<bool>, g: seq<nat>, used: seq<bool>, used': seq<bool>, ids: seq<nat>,
                    u: nat, x: nat, k: nat, w: nat)
    requires MarkedUpTo(ends, vis, g, used, used', ids, u, x, k) && FitsEdge(vis, g, used, w, x)
    requires k < |ids| && ids[k] < |ends| && Joins(ends[ids[k]], u, w)
    ensures |used'| == |used|
    ensures vis[w] ==> MarkedUpTo(ends, vis, g, used, used'[x + g[w] := true], ids, u, x, k + 1)
    ensures !vis[w] ==> MarkedUpTo(ends, vis, g, used, used', ids, u, x, k + 1)
  {
    var next := k + 1;
    forall s: nat
      ensures MadeBy(ends, vis, g, ids, u, x, next, s)
              <==> MadeBy(ends, vis, g, ids, u, x, k, s) || (vis[w] && s == x + g[w])
    {
      MadeByOneMore(ends, vis, g, ids, u, x, k, w, s);
    }
  }

  lemma MadeByOneMore(ends: seq<Edge>, vis: seq<bool>, g: seq<nat>, ids: seq<nat>, u: nat, x: nat, k: nat, w: nat,
                      s: nat)
    requires k < |ids| && ids[k] < |ends| && Joins(ends[ids[k]], u, w) && w < |vis| && w < |g|
    ensures MadeBy(ends, vis, g, ids, u, x, k + 1, s)
            <==> MadeBy(ends, vis, g, ids, u, x, k, s) || (vis[w] && s == x + g[w])
  {
    OtherOfJoin(ends[ids[k]], u, w);
    if MadeBy(ends, vis, g, ids, u, x, k + 1, s) {
      var j :| 0 <= j < k + 1 && j < |ids| && ids[j] < |ends| && ends[ids[j]].Other(u) < |vis|
        && ends[ids[j]].Other(u) < |g|
               && vis[ends[ids[j]].Other(u)] && s == x + g[ends[ids[j]].Other(u)];
      assert j < k || j == k;
    }
  }

  // ---------- the breadth-first search ----------

  /** All neighbours in the 2-core are labelled. */
  ghost predicate CoreSurrounded(ends: seq<Edge>, core: set<nat>, vis: seq<bool>, u: nat) {
    forall e :: e in core && e < |ends| && ends[e].Has(u) ==> ends[e].Other(u) < |vis| && vis[ends[e].Other(u)]
  }

  /** The queue has different vertices of the component; the others, but for `more`, have all their neighbours
      labelled. */
  ghost predicate Frontier(ends: seq<Edge>, core: set<nat>, vis: seq<bool>, comp: set<nat>, queue: seq<nat>,
                           more: set<nat>) {
    && Distinct(queue) && (forall i :: 0 <= i < |queue| ==> queue[i] in comp)
    && forall u :: u in comp && u !in queue && u !in more ==> CoreSurrounded(ends, core, vis, u)
  }

  /** The state of the search, all together */
  ghost predicate Searching(ends: seq<Edge>, core: set<nat>, crit: seq<bool>, vis: seq<bool>, g: seq<nat>,
                            used: seq<bool>,
                            biggestG: nat, biggestEdge: nat, comp: set<nat>, queue: seq<nat>, more: set<nat>) {
    && Labelling(ends, core, crit, vis, g, used, biggestG, biggestEdge, comp)
    && Frontier(ends, core, vis, comp, queue, more)
  }

  /** The queue has room: its vertices are different, and all critical. */
  lemma QueueHasRoom(ends: seq<Edge>, core: set<nat>, crit: seq<bool>, vis: seq<bool>, g: seq<nat>, used: seq<bool>,
                     biggestG: nat, biggestEdge: nat, comp: set<nat>, queue: seq<nat>, more: set<nat>)
    requires Searching(ends, core, crit, vis, g, used, biggestG, biggestEdge, comp, queue, more)
    ensures |queue| <= |Trues(crit)|
  {
    ElementsCount(queue);
    hide SumsApart, UsedOk, CoreApart;
    SubsetCount(Elements(queue), Trues(crit));
  }

  /** Labelling `u` puts it into the queue. */
  lemma FrontierGrows(ends: seq<Edge>, core: set<nat>, vis: seq<bool>, comp: set<nat>, queue: seq<nat>, more: set<nat>,
                      u: nat)
    requires Frontier(ends, core, vis, comp, queue, more) && u < |vis| && u !in comp
    ensures Frontier(ends, core, vis[u := true], comp + {u}, queue + [u], more)
  {
    assert u !in queue;
    forall w | w in comp + {u} && w !in queue + [u] && w !in more
      ensures CoreSurrounded(ends, core, vis[u := true], w)
    {
      assert w != u by {
        assert (queue + [u])[|queue|] == u;
      }
      assert w !in queue by {
        assert forall i :: 0 <= i < |queue| ==> (queue + [u])[i] == queue[i];
      }
      assert CoreSurrounded(ends, core, vis, w);
    }
  }

  /** A label for an unlabelled critical neighbour, found in one way or the other */
  method FindEither(graph: Graph, g: array<nat>, usedEdges: array<bool>, visited: array<bool>, critical: array<bool>,
                    heuristic: bool, u: nat, biggestG: nat, unused: seq<nat>, ghost ends: seq<Edge>,
                    ghost adj: seq<seq<nat>>, ghost e: nat, ghost st: Stage)
    returns (restart: bool, nextG: nat, biggestG': nat, unused': seq<nat>)
    requires graph.Holds(ends, adj) && u < graph.nnodes <= NO_NEIGHBOR && biggestG < usedEdges.Length < EMPTY
    requires g.Length == visited.Length == critical.Length == graph.nnodes && usedEdges.Length == |ends|
    requires forall v :: 0 <= v < visited.Length && visited[v] ==> critical[v] && g[v] <= biggestG
    requires e < |ends| && ends[e].Has(u) && ends[e].Other(u) < visited.Length && visited[ends[e].Other(u)]
    requires Skipped(unused, visited[..], g[..], biggestG)
    requires InOrder(ends, adj, graph.nedges) && Shows(st, visited[..], g[..], usedEdges[..])
    requires EdgesOk(ends, graph.nnodes) && st.biggestG == biggestG && st.unused == unused
    ensures !restart ==>
              && nextG < usedEdges.Length && biggestG' == Larger(biggestG, nextG)
              && FreshLabel(visited[..], g[..], nextG)
              && Fits(ends, visited[..], g[..], usedEdges[..], Ids(adj[u], graph.nedges), u, nextG, |adj[u]|)
              && Skipped(unused', visited[..], g[..], biggestG') && nextG !in unused'
    ensures restart ==> forall y: nat :: y > biggestG ==>
              !Fits(ends, visited[..], g[..], usedEdges[..], Ids(adj[u], graph.nedges), u, y, |adj[u]|)
    ensures Choose(ends, heuristic, st, u) == if restart then GiveUp else Take(nextG, unused')
  {
    hide Represents, Fits, Ids, InOrder, Choose, EdgesOk;
    if heuristic {
      restart, nextG, biggestG', unused' :=
        FindSkippedLabel(graph, g, usedEdges, visited, critical, u, biggestG, unused, ends, adj, e, st);
    } else {
      unused' := [];
      restart, nextG, biggestG' := FindLabel(graph, g, usedEdges, visited, critical, u, biggestG, ends, adj, e, st);
    }
  }

  /** A label for an unlabelled critical neighbour: find it, mark the numbers, and set it. */
  method LabelVertex(graph: Graph, g: array<nat>, usedEdges: array<bool>, visited: array<bool>, critical: array<bool>,
                     heuristic: bool, u: nat, biggestG: nat, biggestEdge: nat, unused: seq<nat>,
                     ghost ends: seq<Edge>, ghost adj: seq<seq<nat>>,
                     ghost core: set<nat>, ghost comp: set<nat>, ghost queue: seq<nat>, ghost more: set<nat>,
                     ghost e: nat, ghost st: Stage)
    returns (restart: bool, biggestG': nat, biggestEdge': nat, unused': seq<nat>)
    requires Held(st, visited[..], g[..], usedEdges[..], biggestG, biggestEdge, unused, queue)
    requires graph.Holds(ends, adj) && u < graph.nnodes <= NO_NEIGHBOR
    requires g.Length == visited.Length == critical.Length == graph.nnodes && usedEdges.Length == |ends|
    requires usedEdges != visited && usedEdges != critical && visited != critical
    requires g != graph.first && g != graph.next && g != graph.edges
    requires IsTwoCore(ends, core) && CriticalNodes(ends, core, critical[..]) && Simple(ends)
    requires Searching(ends, core, critical[..], visited[..], g[..], usedEdges[..], biggestG, biggestEdge, comp, queue,
                       more)
    requires InOrder(ends, adj, graph.nedges)
    requires critical[u] && !visited[u] && e < |ends| && ends[e].Has(u) && ends[e].Other(u) < visited.Length
             && visited[ends[e].Other(u)]
    requires Skipped(unused, visited[..], g[..], biggestG)
    modifies g, usedEdges, visited
    ensures restart ==> Stuck(ends, critical[..], visited[..], g[..], usedEdges[..])
    ensures !restart ==> visited[..] == old(visited[..])[u := true]
    ensures !restart ==> Searching(ends, core, critical[..], visited[..], g[..], usedEdges[..], biggestG', biggestEdge',
                                   comp + {u}, queue + [u], more)
    ensures !restart ==> Skipped(unused', visited[..], g[..], biggestG')
    ensures Shaped(ends, critical[..], st) && (restart <==> Choose(ends, heuristic, st, u).GiveUp?)
    ensures !restart ==>
              var choice := Choose(ends, heuristic, st, u);
              Held(WithLabel(ends, st, u, choice.value, choice.unused), visited[..], g[..], usedEdges[..], biggestG',
                   biggestEdge', unused', queue + [u])
  {
    hide Represents, IsTwoCore, CriticalNodes, Simple, Searching, Labelling, Frontier, Fits, MarkedUpTo, Ids, EdgesAt,
      Stuck, Skipped, FreshLabel, Trues, InOrder, Choose, Marks, Biggest, Around, EdgesOk;
    ghost var vis, labels, used, crit := visited[..], g[..], usedEdges[..], critical[..];
    graph.IdsHold(u, ends, adj);
    ghost var ids := Ids(adj[u], graph.nedges);
    LabelsHold(ends, core, crit, vis, labels, used, biggestG, biggestEdge, comp, queue, more);
    var nextG;
    restart, nextG, biggestG', unused' := FindEither(graph, g, usedEdges, visited, critical, heuristic, u, biggestG,
                                                     unused, ends, adj, e, st);
    biggestEdge' := biggestEdge;
    if restart {
      assert visited[..] == vis && g[..] == labels && usedEdges[..] == used;
      NoLabelFound(ends, core, crit, vis, labels, used, biggestG, biggestEdge, comp, queue, more, u, ids,
                   ends[e].Other(u));
      return;
    }
    biggestEdge' := MarkSums(graph, g, usedEdges, visited, critical, u, nextG, biggestEdge, ends, adj, biggestG', st);
    LabelAndQueue(ends, core, crit, vis, labels, used, usedEdges[..], biggestG, biggestEdge, biggestEdge', comp, queue,
                  more, ids, u, nextG);
    StillSkipped(unused', vis, labels, biggestG', u, nextG);
    g[u] := nextG;
    visited[u] := true;
    assert g[..] == labels[u := nextG] && visited[..] == vis[u := true];
  }

  /** The outcome says how the search has ended, and if it goes on, in which state. */
  ghost predicate EndsAs(outcome: Outcome, ending: Ending, st: Stage) {
    match outcome
    case Labelled => ending == Going(st)
    case Restart => ending.NoLabel?
    case QueueFull => ending.NoRoom?
  }

  /** What the arrays of the search have to be like */
  ghost predicate Arrays(graph: Graph, g: array<nat>, usedEdges: array<bool>, visited: array<bool>,
                         critical: array<bool>, q: Queue) {
    && g.Length == visited.Length == critical.Length == graph.nnodes <= NO_NEIGHBOR
    && usedEdges != visited && usedEdges != critical && visited != critical
    && g != graph.first && g != graph.next && g != graph.edges && q.values != g
    && q.values != graph.first && q.values != graph.next && q.values != graph.edges
  }

  /** The part of the search for one neighbour: unless it is labelled or not critical, label it and queue it. */
  method VisitNeighbour(graph: Graph, g: array<nat>, usedEdges: array<bool>, visited: array<bool>,
                        critical: array<bool>, q: Queue, heuristic: bool,
                        u: nat, biggestG: nat, biggestEdge: nat, unused: seq<nat>,
                        ghost ends: seq<Edge>, ghost adj: seq<seq<nat>>,
                        ghost core: set<nat>, ghost comp: set<nat>, ghost more: set<nat>, ghost e: nat,
                        ghost st: Stage)
    returns (outcome: Outcome, biggestG': nat, biggestEdge': nat, unused': seq<nat>, ghost comp': set<nat>,
             ghost st': Stage)
    requires graph.Holds(ends, adj) && u < graph.nnodes && Arrays(graph, g, usedEdges, visited, critical, q)
    requires usedEdges.Length == |ends| && q.Valid() && q.capacity == Room(heuristic, |Trues(critical[..])|) + 1
    requires IsTwoCore(ends, core) && CriticalNodes(ends, core, critical[..]) && Simple(ends)
    requires Searching(ends, core, critical[..], visited[..], g[..], usedEdges[..], biggestG, biggestEdge, comp,
                       q.Contents(), more)
    requires Skipped(unused, visited[..], g[..], biggestG)
    requires InOrder(ends, adj, graph.nedges)
    requires Held(st, visited[..], g[..], usedEdges[..], biggestG, biggestEdge, unused, q.Contents())
    requires e < |ends| && ends[e].Has(u) && ends[e].Other(u) < visited.Length && visited[ends[e].Other(u)]
    modifies g, usedEdges, visited, q, q.values
    ensures graph.Holds(ends, adj) && critical[..] == old(critical[..]) && q.Valid()
    ensures outcome.Restart? ==> Stuck(ends, critical[..], visited[..], g[..], usedEdges[..])
    ensures outcome.QueueFull? ==> heuristic
    ensures outcome.Labelled? ==>
              && Searching(ends, core, critical[..], visited[..], g[..], usedEdges[..], biggestG', biggestEdge', comp',
                           q.Contents(), more)
              && Skipped(unused', visited[..], g[..], biggestG')
              && comp <= comp' && Later(old(visited[..]), visited[..]) && (critical[u] ==> visited[u])
              && Work(visited[..], q.Contents()) == old(Work(visited[..], q.Contents()))
              && Held(st', visited[..], g[..], usedEdges[..], biggestG', biggestEdge', unused', q.Contents())
    ensures Shaped(ends, critical[..], st)
    ensures EndsAs(outcome, VisitOne(ends, critical[..], heuristic, Room(heuristic, |Trues(critical[..])|), st, u), st')
  {
    hide Represents, IsTwoCore, CriticalNodes, Simple, Searching, Trues, Work, Stuck, Skipped, InOrder, Choose,
      WithLabel, Shaped, VisitOne, Held;
    ghost var crit, room := critical[..], Room(heuristic, |Trues(critical[..])|);
    StageShaped(ends, core, crit, visited[..], g[..], usedEdges[..], biggestG, biggestEdge, comp, q.Contents(), more,
                unused, st);
    VisitOneIs(ends, crit, heuristic, room, st, u);
    outcome, biggestG', biggestEdge', unused', comp', st' := Labelled, biggestG, biggestEdge, unused, comp, st;
    if critical[u] && !visited[u] {
      ghost var vis, queue := visited[..], q.Contents();
      QueueHasRoom(ends, core, crit, vis, g[..], usedEdges[..], biggestG, biggestEdge, comp, queue, more);
      var restart;
      restart, biggestG', biggestEdge', unused' :=
        LabelVertex(graph, g, usedEdges, visited, critical, heuristic, u, biggestG, biggestEdge, unused, ends, adj,
                    core, comp, queue, more, e, st);
      if restart {
        outcome := Restart;
        return;
      }
      var full := q.IsFull();
      if full {
        outcome := QueueFull;
        return;
      }
      q.Insert(u);
      comp', st' := comp + {u}, VisitOne(ends, crit, heuristic, room, st, u).stage;
      SameWork(vis, queue, u);
    }
  }

  lemma VisitOneIs(ends: seq<Edge>, crit: seq<bool>, heuristic: bool, room: nat, st: Stage, u: nat)
    requires Shaped(ends, crit, st) && u < |crit|
    ensures !crit[u] || st.vis[u] ==> VisitOne(ends, crit, heuristic, room, st, u) == Going(st)
    ensures crit[u] && !st.vis[u] ==>
              var choice := Choose(ends, heuristic, st, u);
              VisitOne(ends, crit, heuristic, room, st, u)
              == if choice.GiveUp? then NoLabel(st, u)
                 else if |st.queue| >= room then NoRoom(st, u)
                 else Going(WithLabel(ends, st, u, choice.value, choice.unused))
  {
    hide Choose, WithLabel;
  }

  lemma StageShaped(ends: seq<Edge>, core: set<nat>, crit: seq<bool>, vis: seq<bool>, g: seq<nat>, used: seq<bool>,
                    biggestG: nat, biggestEdge: nat, comp: set<nat>, queue: seq<nat>, more: set<nat>, unused: seq<nat>,
                    st: Stage)
    requires Searching(ends, core, crit, vis, g, used, biggestG, biggestEdge, comp, queue, more)
    requires Held(st, vis, g, used, biggestG, biggestEdge, unused, queue)
    ensures Shaped(ends, crit, st) && st.vis == vis && st.queue == queue
  {
    LabelsHold(ends, core, crit, vis, g, used, biggestG, biggestEdge, comp, queue, more);
  }

  lemma LabelsHold(ends: seq<Edge>, core: set<nat>, crit: seq<bool>, vis: seq<bool>, g: seq<nat>, used: seq<bool>,
                   biggestG: nat, biggestEdge: nat, comp: set<nat>, queue: seq<nat>, more: set<nat>)
    requires Searching(ends, core, crit, vis, g, used, biggestG, biggestEdge, comp, queue, more)
    ensures |crit| == |vis| == |g| && biggestG < |ends| == |used| < EMPTY && 1 <= biggestEdge <= 2 * biggestG + 1
    ensures forall v :: 0 <= v < |vis| && vis[v] ==> crit[v] && g[v] <= biggestG
    ensures (forall v :: v in comp ==> v < |vis| && vis[v]) && EdgesOk(ends, |vis|)
  {
  }

  lemma LabelAndQueue(ends: seq<Edge>, core: set<nat>, crit: seq<bool>, vis: seq<bool>, g: seq<nat>, used: seq<bool>,
                      used': seq<bool>,
                      biggestG: nat, biggestEdge: nat, biggestEdge': nat, comp: set<nat>, queue: seq<nat>,
                      more: set<nat>,
                      ids: seq<nat>, u: nat, x: nat)
    requires IsTwoCore(ends, core) && CriticalNodes(ends, core, crit) && Simple(ends) && EdgesAt(ends, u, ids)
    requires Searching(ends, core, crit, vis, g, used, biggestG, biggestEdge, comp, queue, more)
    requires u < |vis| && u < |crit| && crit[u] && !vis[u] && Fits(ends, vis, g, used, ids, u, x, |ids|)
    requires FreshLabel(vis, g, x) && x < |ends| && 1 <= biggestEdge' <= 2 * Larger(biggestG, x) + 1
    requires MarkedUpTo(ends, vis, g, used, used', ids, u, x, |ids|)
    ensures u < |g| && Searching(ends, core, crit, vis[u := true], g[u := x], used', Larger(biggestG, x), biggestEdge',
                                 comp + {u}, queue + [u], more)
  {
    hide IsTwoCore, CriticalNodes, Simple, EdgesAt, Fits, MarkedUpTo, Labelling, Frontier;
    LabelsHold(ends, core, crit, vis, g, used, biggestG, biggestEdge, comp, queue, more);
    LabelStep(ends, core, crit, vis, g, used, used', biggestG, biggestEdge, biggestEdge', comp, ids, u, x);
    FrontierGrows(ends, core, vis, comp, queue, more, u);
  }

  /** The critical neighbours by the first `k` edges are labelled. */
  ghost predicate CriticalVisited(ends: seq<Edge>, crit: seq<bool>, vis: seq<bool>, ids: seq<nat>, v: nat, k: nat) {
    |crit| == |vis| && k <= |ids| && forall j :: 0 <= j < k ==>
      ids[j] < |ends| && ends[ids[j]].Other(v) < |vis| && (crit[ends[ids[j]].Other(v)] ==> vis[ends[ids[j]].Other(v)])
  }

  lemma CriticalOneMore(ends: seq<Edge>, crit: seq<bool>, vis: seq<bool>, vis': seq<bool>, ids: seq<nat>, v: nat,
                        k: nat, u: nat)
    requires CriticalVisited(ends, crit, vis, ids, v, k) && Later(vis, vis') && k < |ids| && ids[k] < |ends|
    requires Joins(ends[ids[k]], v, u) && u < |vis'| && (crit[u] ==> vis'[u])
    ensures CriticalVisited(ends, crit, vis', ids, v, k + 1)
  {
  }

  lemma NothingScanned(ends: seq<Edge>, crit: seq<bool>, vis: seq<bool>, ids: seq<nat>, v: nat)
    requires |crit| == |vis|
    ensures CriticalVisited(ends, crit, vis, ids, v, 0)
  {
  }

  lemma Scanned(ends: seq<Edge>, core: set<nat>, crit: seq<bool>, vis: seq<bool>, ids: seq<nat>, v: nat)
    requires CriticalNodes(ends, core, crit) && EdgesAt(ends, v, ids) && EdgesOk(ends, |vis|)
    requires CriticalVisited(ends, crit, vis, ids, v, |ids|)
    ensures CoreSurrounded(ends, core, vis, v)
  {
    forall e | e in core && e < |ends| && ends[e].Has(v)
      ensures ends[e].Other(v) < |vis| && vis[ends[e].Other(v)]
    {
      assert e in ids && EdgeOk(ends[e], |vis|);
      assert ends[e].Has(ends[e].Other(v)) && EndOf(ends, core, ends[e].Other(v));
    }
  }

  lemma NoMore(ends: seq<Edge>, core: set<nat>, crit: seq<bool>, vis: seq<bool>, g: seq<nat>, used: seq<bool>,
               biggestG: nat, biggestEdge: nat, comp: set<nat>, queue: seq<nat>, v: nat)
    requires Searching(ends, core, crit, vis, g, used, biggestG, biggestEdge, comp, queue, {v})
             && CoreSurrounded(ends, core, vis, v)
    ensures Searching(ends, core, crit, vis, g, used, biggestG, biggestEdge, comp, queue, {})
  {
    hide Labelling, CoreSurrounded;
  }

  lemma OtherEnd(t: Edge, v: nat, u: nat, n: nat)
    requires Joins(t, v, u) && EdgeOk(t, n)
    ensures t.Has(u) && t.Other(u) == v
  {
  }

  /** The loop over the neighbours of a vertex that comes out of the queue */
  method Scan(graph: Graph, g: array<nat>, usedEdges: array<bool>, visited: array<bool>, critical: array<bool>,
              q: Queue, heuristic: bool,
              v: nat, biggestG: nat, biggestEdge: nat, unused: seq<nat>,
              ghost ends: seq<Edge>, ghost adj: seq<seq<nat>>, ghost core: set<nat>, ghost comp: set<nat>,
              ghost st: Stage)
    returns (outcome: Outcome, biggestG': nat, biggestEdge': nat, unused': seq<nat>, ghost comp': set<nat>,
             ghost st': Stage)
    requires graph.Holds(ends, adj) && v < graph.nnodes && Arrays(graph, g, usedEdges, visited, critical, q)
    requires usedEdges.Length == |ends| && q.Valid() && q.capacity == Room(heuristic, |Trues(critical[..])|) + 1
    requires IsTwoCore(ends, core) && CriticalNodes(ends, core, critical[..]) && Simple(ends) && v in comp && visited[v]
    requires Searching(ends, core, critical[..], visited[..], g[..], usedEdges[..], biggestG, biggestEdge, comp,
                       q.Contents(), {v})
    requires Skipped(unused, visited[..], g[..], biggestG) && InOrder(ends, adj, graph.nedges)
    requires Held(st, visited[..], g[..], usedEdges[..], biggestG, biggestEdge, unused, q.Contents())
    modifies g, usedEdges, visited, q, q.values
    ensures graph.Holds(ends, adj) && critical[..] == old(critical[..]) && q.Valid()
    ensures outcome.Restart? ==> Stuck(ends, critical[..], visited[..], g[..], usedEdges[..])
    ensures outcome.QueueFull? ==> heuristic
    ensures outcome.Labelled? ==>
              && Searching(ends, core, critical[..], visited[..], g[..], usedEdges[..], biggestG', biggestEdge', comp',
                           q.Contents(), {})
              && Skipped(unused', visited[..], g[..], biggestG')
              && comp <= comp' && Later(old(visited[..]), visited[..])
              && Work(visited[..], q.Contents()) == old(Work(visited[..], q.Contents()))
              && Held(st', visited[..], g[..], usedEdges[..], biggestG', biggestEdge', unused', q.Contents())
    ensures Shaped(ends, critical[..], st)
    ensures EndsAs(outcome, VisitAll(ends, critical[..], heuristic, Room(heuristic, |Trues(critical[..])|), st, v,
                                     |Around(ends, v)|), st')
  {
    hide Represents, IsTwoCore, CriticalNodes, Simple, Searching, Trues, Work, Ids, EdgesAt, Joins, CriticalVisited,
      Later, Stuck, Skipped, Room, InOrder, VisitOne, VisitAll, Shaped, Around, Held;
    ghost var crit, room := critical[..], Room(heuristic, |Trues(critical[..])|);
    StageShaped(ends, core, crit, visited[..], g[..], usedEdges[..], biggestG, biggestEdge, comp, q.Contents(), {v},
                unused, st);
    VisitNone(ends, crit, heuristic, room, st, v);
    graph.FewEdges(ends, adj);
    graph.IdsHold(v, ends, adj);
    ghost var ids, before := Ids(adj[v], graph.nedges), visited[..];
    InOrderAt(ends, adj, graph.nedges, v);
    outcome, biggestG', biggestEdge', unused', comp', st' := Labelled, biggestG, biggestEdge, unused, comp, st;
    var it := graph.NeighborsIt(v, ends, adj);
    ghost var p := 0;
    NothingScanned(ends, critical[..], before, ids, v);
    LaterSelf(before);
    while true
      invariant graph.Holds(ends, adj) && critical[..] == old(critical[..]) && q.Valid()
                && graph.StandsAt(it, adj[v], p)
      invariant Searching(ends, core, critical[..], visited[..], g[..], usedEdges[..], biggestG', biggestEdge', comp',
                          q.Contents(), {v})
      invariant comp <= comp' && Later(before, visited[..]) && it.vertex == v && visited[v]
      invariant outcome.Labelled? && Skipped(unused', visited[..], g[..], biggestG')
      invariant CriticalVisited(ends, critical[..], visited[..], ids, v, p)
      invariant VisitAll(ends, crit, heuristic, room, st, v, p) == Going(st')
      invariant Held(st', visited[..], g[..], usedEdges[..], biggestG', biggestEdge', unused', q.Contents())
      invariant Work(visited[..], q.Contents()) == old(Work(visited[..], q.Contents()))
      decreases |adj[v]| - p
    {
      var u: nat;
      u, it := graph.NextNeighbor(it, ends, adj, p);
      if u == NO_NEIGHBOR {
        break;
      }
      ghost var now := visited[..];
      OtherEnd(ends[ids[p]], v, u, graph.nnodes);
      VisitNext(ends, crit, heuristic, room, st, v, p, u);
      outcome, biggestG', biggestEdge', unused', comp', st' :=
        VisitNeighbour(graph, g, usedEdges, visited, critical, q, heuristic, u, biggestG', biggestEdge', unused', ends,
                       adj, core, comp', {v}, ids[p], st');
      if !outcome.Labelled? {
        VisitStops(ends, crit, heuristic, room, st, v, p + 1, |Around(ends, v)|);
        return;
      }
      CriticalOneMore(ends, critical[..], now, visited[..], ids, v, p, u);
      LaterBoth(before, now, visited[..], v);
      p := p + 1;
    }
    Scanned(ends, core, critical[..], visited[..], ids, v);
    NoMore(ends, core, critical[..], visited[..], g[..], usedEdges[..], biggestG', biggestEdge', comp', q.Contents(),
           v);
  }

  lemma InOrderAt(ends: seq<Edge>, adj: seq<seq<nat>>, m: nat, v: nat)
    requires InOrder(ends, adj, m) && v < |adj|
    ensures Ids(adj[v], m) == Around(ends, v)
  {
  }

  lemma VisitNone(ends: seq<Edge>, crit: seq<bool>, heuristic: bool, room: nat, st: Stage, v: nat)
    requires Shaped(ends, crit, st)
    ensures VisitAll(ends, crit, heuristic, room, st, v, 0) == Going(st)
  {
  }

  lemma VisitNext(ends: seq<Edge>, crit: seq<bool>, heuristic: bool, room: nat, st: Stage, v: nat, k: nat, u: nat)
    requires Shaped(ends, crit, st) && k < |Around(ends, v)| && Joins(ends[Around(ends, v)[k]], v, u)
    ensures u < |crit|
    ensures VisitAll(ends, crit, heuristic, room, st, v, k + 1)
            == var r := VisitAll(ends, crit, heuristic, room, st, v, k);
               if r.Going? then VisitOne(ends, crit, heuristic, room, r.stage, u) else r
  {
    hide VisitOne;
    assert EdgeOk(ends[Around(ends, v)[k]], |crit|);
    OtherOfJoin(ends[Around(ends, v)[k]], v, u);
  }

  /** A search that has come to its end stays there. */
  lemma {:induction false} VisitStops(ends: seq<Edge>, crit: seq<bool>, heuristic: bool, room: nat, st: Stage, v: nat,
                                      k: nat, l: nat)
    requires Shaped(ends, crit, st) && k <= l <= |Around(ends, v)|
    requires !VisitAll(ends, crit, heuristic, room, st, v, k).Going?
    ensures VisitAll(ends, crit, heuristic, room, st, v, l) == VisitAll(ends, crit, heuristic, room, st, v, k)
  {
    if k != l {
      VisitStops(ends, crit, heuristic, room, st, v, k, l - 1);
    }
  }

  lemma LaterSelf(vis: seq<bool>)
    ensures Later(vis, vis)
  {
  }

  lemma LaterBoth(vis: seq<bool>, vis1: seq<bool>, vis2: seq<bool>, v: nat)
    requires Later(vis, vis1) && Later(vis1, vis2)
    ensures Later(vis, vis2) && (v < |vis1| && vis1[v] ==> vis2[v])
  {
  }

  /** When the queue is empty, the component is closed. */
  lemma CloseComponent(ends: seq<Edge>, core: set<nat>, crit: seq<bool>, vis: seq<bool>, g: seq<nat>, used: seq<bool>,
                       biggestG: nat, biggestEdge: nat, comp: set<nat>)
    requires Searching(ends, core, crit, vis, g, used, biggestG, biggestEdge, comp, [], {})
    ensures Labelling(ends, core, crit, vis, g, used, biggestG, biggestEdge, {})
  {
    hide Labels, SumsApart, UsedOk;
    CompClosed(ends, core, vis, g, comp);
  }

  lemma CompClosed(ends: seq<Edge>, core: set<nat>, vis: seq<bool>, g: seq<nat>, comp: set<nat>)
    requires CompOk(vis, g, comp) && CoreApart(ends, core, vis, comp) && Frontier(ends, core, vis, comp, [], {})
    ensures CoreApart(ends, core, vis, {})
  {
    forall e | e in core && e < |ends|
      ensures Outside(vis, {}, ends[e].a) <==> Outside(vis, {}, ends[e].b)
    {
      assert Outside(vis, comp, ends[e].a) <==> Outside(vis, comp, ends[e].b);
      if ends[e].a in comp {
        assert CoreSurrounded(ends, core, vis, ends[e].a);
      }
      if ends[e].b in comp {
        assert CoreSurrounded(ends, core, vis, ends[e].b);
      }
    }
  }

  lemma RootSearch(ends: seq<Edge>, core: set<nat>, crit: seq<bool>, vis: seq<bool>, g: seq<nat>, used: seq<bool>,
                   biggestG: nat, biggestEdge: nat, u: nat)
    requires IsTwoCore(ends, core) && CriticalNodes(ends, core, crit)
    requires Labelling(ends, core, crit, vis, g, used, biggestG, biggestEdge, {})
    requires |crit| == |vis| == |g| && u < |vis| && crit[u] && !vis[u]
    ensures biggestEdge >= 1 && (biggestEdge + 1) / 2 - 1 <= biggestG
    ensures Searching(ends, core, crit, vis[u := true], g[u := (biggestEdge + 1) / 2 - 1], used, biggestG, biggestEdge,
                      {u}, [u], {})
  {
    hide IsTwoCore, CriticalNodes, SumsApart, UsedOk, CoreApart, CompOk;
    RootStep(ends, core, crit, vis, g, used, biggestG, biggestEdge, u, (biggestEdge + 1) / 2 - 1);
  }

  lemma TakeFromQueue(ends: seq<Edge>, core: set<nat>, crit: seq<bool>, vis: seq<bool>, g: seq<nat>, used: seq<bool>,
                      biggestG: nat, biggestEdge: nat, comp: set<nat>, queue: seq<nat>, rest: seq<nat>, v: nat)
    requires Searching(ends, core, crit, vis, g, used, biggestG, biggestEdge, comp, queue, {}) && queue == [v] + rest
    ensures Searching(ends, core, crit, vis, g, used, biggestG, biggestEdge, comp, rest, {v})
    ensures v in comp && v < |vis| && vis[v] && Work(vis, rest) + 1 == Work(vis, queue)
  {
    hide Labels, SumsApart, UsedOk, CoreApart, CoreSurrounded;
    assert queue[0] == v;
    assert rest == queue[1..];
    assert forall u :: u in queue ==> u == v || u in rest;
  }

  /** `bmz_traverse_critical_nodes`, and with `heuristic` its variant: one component of the 2-core, in breadth-first
      order. Unless it asks for a restart (or is aborted), the numbers stay different and in range. The root's label
      comes from the biggest number, rounded up when halved. */
  method TraverseCritical(graph: Graph, g: array<nat>, usedEdges: array<bool>, visited: array<bool>,
                          critical: array<bool>, ncritical: nat, heuristic: bool,
                          v0: nat, biggestG: nat, biggestEdge: nat, ghost ends: seq<Edge>, ghost adj: seq<seq<nat>>,
                          ghost core: set<nat>, ghost st: Stage)
    returns (outcome: Outcome, biggestG': nat, biggestEdge': nat, ghost st': Stage)
    requires graph.Holds(ends, adj) && g.Length == visited.Length == critical.Length == graph.nnodes <= NO_NEIGHBOR
    requires usedEdges != visited && usedEdges != critical && visited != critical && usedEdges.Length == |ends|
    requires g != graph.first && g != graph.next && g != graph.edges && ncritical == |Trues(critical[..])|
    requires IsTwoCore(ends, core) && CriticalNodes(ends, core, critical[..]) && Simple(ends)
    requires Labelling(ends, core, critical[..], visited[..], g[..], usedEdges[..], biggestG, biggestEdge, {})
    requires v0 < graph.nnodes && critical[v0] && !visited[v0] && InOrder(ends, adj, graph.nedges)
    requires Stands(st, visited[..], g[..], usedEdges[..], biggestG, biggestEdge) && Shaped(ends, critical[..], st)
    modifies g, usedEdges, visited
    ensures graph.Holds(ends, adj) && critical[..] == old(critical[..])
    ensures EndsAs(outcome, Component(ends, critical[..], heuristic, Room(heuristic, ncritical), Root(ends, st, v0)),
                   st')
    ensures outcome.Restart? ==> Stuck(ends, critical[..], visited[..], g[..], usedEdges[..])
    ensures outcome.QueueFull? ==> heuristic
    ensures outcome.Labelled? ==>
              && Labelling(ends, core, critical[..], visited[..], g[..], usedEdges[..], biggestG', biggestEdge', {})
              && visited[v0] && Later(old(visited[..]), visited[..])
              && Stands(st', visited[..], g[..], usedEdges[..], biggestG', biggestEdge')
  {
    hide Represents, IsTwoCore, CriticalNodes, Simple, Searching, Labelling, Trues, Work, Later, Stuck, InOrder,
      Component, Shaped;
    ghost var vis, labels := visited[..], g[..];
    RootSearch(ends, core, critical[..], vis, labels, usedEdges[..], biggestG, biggestEdge, v0);
    RootHeld(ends, critical[..], vis, labels, usedEdges[..], biggestG, biggestEdge, st, v0);
    var q := new Queue(Room(heuristic, ncritical));
    var root: nat := (biggestEdge + 1) / 2 - 1;
    g[v0] := root;
    visited[v0] := true;
    assert g[..] == labels[v0 := root] && visited[..] == vis[v0 := true];
    q.Insert(v0);
    assert q.Contents() == [v0];
    LaterNow(vis, v0);
    outcome, biggestG', biggestEdge', st' := SearchComponent(graph, g, usedEdges, visited, critical, q, heuristic,
                                                             biggestG, biggestEdge, ends, adj, core, {v0},
                                                             Root(ends, st, v0));
    if outcome.Labelled? {
      LaterBoth(vis, vis[v0 := true], visited[..], v0);
    }
  }

  /** The stage has these arrays and largest numbers. */
  ghost predicate Stands(st: Stage, vis: seq<bool>, g: seq<nat>, used: seq<bool>, biggestG: nat, biggestEdge: nat) {
    Shows(st, vis, g, used) && st.biggestG == biggestG && st.biggestEdge == biggestEdge
  }

  lemma RootHeld(ends: seq<Edge>, crit: seq<bool>, vis: seq<bool>, g: seq<nat>, used: seq<bool>, biggestG: nat,
                 biggestEdge: nat, st: Stage, v: nat)
    requires Stands(st, vis, g, used, biggestG, biggestEdge) && Shaped(ends, crit, st) && v < |crit|
    requires (biggestEdge + 1) / 2 >= 1
    ensures Shaped(ends, st.vis, st) && Shaped(ends, crit, Root(ends, st, v)) && v < |vis| == |g|
    ensures Held(Root(ends, st, v), vis[v := true], g[v := (biggestEdge + 1) / 2 - 1], used, biggestG, biggestEdge, [],
                 [v])
  {
  }

  lemma NothingSkipped(vis: seq<bool>, g: seq<nat>, biggestG: nat)
    ensures Skipped([], vis, g, biggestG)
  {
  }

  lemma LaterNow(vis: seq<bool>, v: nat)
    requires v < |vis|
    ensures Later(vis, vis[v := true])
  {
  }

  /** The loop over the queue */
  method SearchComponent(graph: Graph, g: array<nat>, usedEdges: array<bool>, visited: array<bool>,
                         critical: array<bool>, q: Queue, heuristic: bool,
                         biggestG: nat, biggestEdge: nat, ghost ends: seq<Edge>, ghost adj: seq<seq<nat>>,
                         ghost core: set<nat>, ghost comp0: set<nat>, ghost st: Stage)
    returns (outcome: Outcome, biggestG': nat, biggestEdge': nat, ghost st': Stage)
    requires graph.Holds(ends, adj) && Arrays(graph, g, usedEdges, visited, critical, q)
    requires usedEdges.Length == |ends| && q.Valid() && q.capacity == Room(heuristic, |Trues(critical[..])|) + 1
    requires IsTwoCore(ends, core) && CriticalNodes(ends, core, critical[..]) && Simple(ends)
    requires Searching(ends, core, critical[..], visited[..], g[..], usedEdges[..], biggestG, biggestEdge, comp0,
                       q.Contents(), {})
    requires InOrder(ends, adj, graph.nedges)
    requires Held(st, visited[..], g[..], usedEdges[..], biggestG, biggestEdge, [], q.Contents())
    modifies g, usedEdges, visited, q, q.values
    ensures graph.Holds(ends, adj) && critical[..] == old(critical[..])
    ensures Shaped(ends, critical[..], st)
    ensures EndsAs(outcome, Component(ends, critical[..], heuristic, Room(heuristic, |Trues(critical[..])|), st), st')
    ensures outcome.Restart? ==> Stuck(ends, critical[..], visited[..], g[..], usedEdges[..])
    ensures outcome.QueueFull? ==> heuristic
    ensures outcome.Labelled? ==>
              && Labelling(ends, core, critical[..], visited[..], g[..], usedEdges[..], biggestG', biggestEdge', {})
              && Later(old(visited[..]), visited[..])
              && Stands(st', visited[..], g[..], usedEdges[..], biggestG', biggestEdge')
  {
    hide Represents, IsTwoCore, CriticalNodes, Simple, Searching, Labelling, Trues, Work, Later, Stuck, InOrder,
      Component, VisitAll, Shaped, Around, Held, Skipped, Room;
    ghost var crit, room := critical[..], Room(heuristic, |Trues(critical[..])|);
    StageShaped(ends, core, crit, visited[..], g[..], usedEdges[..], biggestG, biggestEdge, comp0, q.Contents(), {}, [],
                st);
    ghost var before, comp := visited[..], comp0;
    outcome, biggestG', biggestEdge' := Labelled, biggestG, biggestEdge;
    var unused: seq<nat> := [];
    NothingSkipped(visited[..], g[..], biggestG);
    LaterSelf(before);
    st' := st;
    var empty := q.IsEmpty();
    while !empty
      invariant graph.Holds(ends, adj) && critical[..] == crit && q.Valid() && (empty <==> q.Contents() == [])
      invariant Searching(ends, core, crit, visited[..], g[..], usedEdges[..], biggestG', biggestEdge', comp,
                          q.Contents(), {})
      invariant Later(before, visited[..]) && outcome.Labelled? && Skipped(unused, visited[..], g[..], biggestG')
      invariant Held(st', visited[..], g[..], usedEdges[..], biggestG', biggestEdge', unused, q.Contents())
      invariant Shaped(ends, crit, st')
      invariant Component(ends, crit, heuristic, room, st) == Component(ends, crit, heuristic, room, st')
      decreases Work(visited[..], q.Contents())
    {
      ghost var now, queue := visited[..], q.Contents();
      var v := q.Remove();
      FirstOfQueue(v, q.Contents(), queue);
      ComponentNext(ends, crit, heuristic, room, st', now, g[..], usedEdges[..], biggestG', biggestEdge', unused,
                    queue);
      TakeFromQueue(ends, core, crit, now, g[..], usedEdges[..], biggestG', biggestEdge', comp, queue, q.Contents(), v);
      outcome, biggestG', biggestEdge', unused, comp, st' :=
        Scan(graph, g, usedEdges, visited, critical, q, heuristic, v, biggestG', biggestEdge', unused, ends, adj, core,
             comp, st'.(queue := queue[1..]));
      if !outcome.Labelled? {
        return;
      }
      LaterBoth(before, now, visited[..], v);
      empty := q.IsEmpty();
    }
    ComponentNext(ends, crit, heuristic, room, st', visited[..], g[..], usedEdges[..], biggestG', biggestEdge', unused,
                  []);
    CloseComponent(ends, core, critical[..], visited[..], g[..], usedEdges[..], biggestG', biggestEdge', comp);
  }

  lemma FirstOfQueue(v: nat, rest: seq<nat>, queue: seq<nat>)
    requires [v] + rest == queue
    ensures queue != [] && queue[0] == v && queue[1..] == rest
  {
  }

  /** Either the search is at its end, or it goes on with the first vertex of the queue. */
  lemma ComponentNext(ends: seq<Edge>, crit: seq<bool>, heuristic: bool, room: nat, st: Stage, vis: seq<bool>,
                      g: seq<nat>, used: seq<bool>, biggestG: nat, biggestEdge: nat, unused: seq<nat>, queue: seq<nat>)
    requires Shaped(ends, crit, st) && Held(st, vis, g, used, biggestG, biggestEdge, unused, queue)
    ensures Stands(st, vis, g, used, biggestG, biggestEdge)
    ensures queue == [] ==> Component(ends, crit, heuristic, room, st) == Going(st)
    ensures queue != [] ==>
              var st1 := st.(queue := queue[1..]);
              && Shaped(ends, crit, st1) && Held(st1, vis, g, used, biggestG, biggestEdge, unused, queue[1..])
              && var r := VisitAll(ends, crit, heuristic, room, st1, queue[0], |Around(ends, queue[0])|);
                 && (r.Going? ==> Shaped(ends, crit, r.stage))
                 && Component(ends, crit, heuristic, room, st)
                    == if r.Going? then Component(ends, crit, heuristic, room, r.stage) else r
  {
    hide VisitAll;
  }
}
