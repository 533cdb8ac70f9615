/**
 The queue of BMZ's search (bmz.c). Which vertices wait in it, and in which order, depends on the graph and not on the
 labels; in the heuristic variant, that has room for half of the critical vertices and one more, it may run full.
 */
module BmzQueues {
  import opened Counting
  import opened Graphs
  import opened Visits
  import opened BmzSearch

  // ---------- the queue without the labels ----------

  /** The vertices that have come into the queue so far, and those that are in it */
  datatype Front = Front(vis: seq<bool>, queue: seq<nat>)

  datatype Filling = Runs(front: Front) | Full

  ghost function QueueOne(crit: seq<bool>, room: nat, fr: Front, u: nat): (r: Filling)
    requires u < |crit| == |fr.vis|
    ensures r.Runs? ==> |r.front.vis| == |crit| && Work(r.front.vis, r.front.queue) == Work(fr.vis, fr.queue)
  {
    if !crit[u] || fr.vis[u] then Runs(fr)
    else
      SameWork(fr.vis, fr.queue, u);
      if |fr.queue| >= room then Full else Runs(Front(fr.vis[u := true], fr.queue + [u]))
  }

  /** The critical neighbours of `v` by its first `k` edges are queued, if they were not before. */
  ghost function QueueAll(ends: seq<Edge>, crit: seq<bool>, room: nat, fr: Front, v: nat, k: nat): (r: Filling)
    requires |crit| == |fr.vis| && EdgesOk(ends, |crit|) && k <= |Around(ends, v)|
    ensures r.Runs? ==> |r.front.vis| == |crit| && Work(r.front.vis, r.front.queue) == Work(fr.vis, fr.queue)
  {
    if k == 0 then Runs(fr)
    else match QueueAll(ends, crit, room, fr, v, k - 1)
         case Full => Full
         case Runs(fr') =>
           assert EdgeOk(ends[Around(ends, v)[k - 1]], |crit|);
           QueueOne(crit, room, fr', ends[Around(ends, v)[k - 1]].Other(v))
  }

  ghost function QueueComponent(ends: seq<Edge>, crit: seq<bool>, room: nat, fr: Front): (r: Filling)
    requires |crit| == |fr.vis| && EdgesOk(ends, |crit|)
    ensures r.Runs? ==> |r.front.vis| == |crit|
    decreases Work(fr.vis, fr.queue)
  {
    if fr.queue == [] then Runs(fr)
    else match QueueAll(ends, crit, room, Front(fr.vis, fr.queue[1..]), fr.queue[0], |Around(ends, fr.queue[0])|)
         case Full => Full
         case Runs(fr') => QueueComponent(ends, crit, room, fr')
  }

  /** Breadth-first search over the critical vertices, from each of the first `k` that was not reached before */
  ghost function QueueCore(ends: seq<Edge>, crit: seq<bool>, room: nat, k: nat): (r: Filling)
    requires k <= |crit| && EdgesOk(ends, |crit|)
    ensures r.Runs? ==> |r.front.vis| == |crit|
  {
    if k == 0 then Runs(Front(seq(|crit|, _ => false), []))
    else match QueueCore(ends, crit, room, k - 1)
         case Full => Full
         case Runs(fr) =>
           if crit[k - 1] && !fr.vis[k - 1]
           then QueueComponent(ends, crit, room, Front(fr.vis[k - 1 := true], [k - 1])) else Runs(fr)
  }

  /** On this graph the queue runs full, if no missing label ends the search before. */
  ghost predicate QueueRunsFull(ends: seq<Edge>, n: nat, heuristic: bool)
    requires EdgesOk(ends, n)
  {
    QueueCore(ends, CriticalOf(ends, n), Room(heuristic, |Trues(CriticalOf(ends, n))|), n).Full?
  }

  // ---------- the search fills its queue in this way ----------

  /** The front of a state of the search */
  function FrontOf(st: Stage): Front {
    Front(st.vis, st.queue)
  }

  /** The search is at the same point, or has ended because a vertex got no label. */
  ghost predicate Follows(r: Ending, f: Filling) {
    match r
    case Going(st) => f == Runs(FrontOf(st))
    case NoRoom(_, _) => f == Full
    case NoLabel(_, _) => true
  }

  lemma FollowsOne(ends: seq<Edge>, crit: seq<bool>, heuristic: bool, room: nat, st: Stage, u: nat)
    requires Shaped(ends, crit, st) && u < |crit|
    ensures Follows(VisitOne(ends, crit, heuristic, room, st, u), QueueOne(crit, room, FrontOf(st), u))
  {
    hide Choose;
  }

  lemma {:induction false} FollowsAll(ends: seq<Edge>, crit: seq<bool>, heuristic: bool, room: nat, st: Stage, v: nat,
                                      k: nat)
    requires Shaped(ends, crit, st) && k <= |Around(ends, v)|
    ensures Follows(VisitAll(ends, crit, heuristic, room, st, v, k), QueueAll(ends, crit, room, FrontOf(st), v, k))
  {
    hide VisitOne, QueueOne;
    if k != 0 {
      FollowsAll(ends, crit, heuristic, room, st, v, k - 1);
      var r := VisitAll(ends, crit, heuristic, room, st, v, k - 1);
      if r.Going? {
        assert EdgeOk(ends[Around(ends, v)[k - 1]], |crit|);
        FollowsOne(ends, crit, heuristic, room, r.stage, ends[Around(ends, v)[k - 1]].Other(v));
      }
    }
  }

  lemma {:induction false} FollowsComponent(ends: seq<Edge>, crit: seq<bool>, heuristic: bool, room: nat, st: Stage)
    requires Shaped(ends, crit, st)
    ensures Follows(Component(ends, crit, heuristic, room, st), QueueComponent(ends, crit, room, FrontOf(st)))
    decreases Work(st.vis, st.queue)
  {
    hide VisitAll, QueueAll;
    if st.queue != [] {
      var st1, v := st.(queue := st.queue[1..]), st.queue[0];
      FollowsAll(ends, crit, heuristic, room, st1, v, |Around(ends, v)|);
      var r := VisitAll(ends, crit, heuristic, room, st1, v, |Around(ends, v)|);
      if r.Going? {
        FollowsComponent(ends, crit, heuristic, room, r.stage);
      }
    }
  }

  lemma {:induction false} FollowsCore(ends: seq<Edge>, crit: seq<bool>, heuristic: bool, room: nat, k: nat)
    requires k <= |crit| && Shaped(ends, crit, Start(|ends|, |crit|))
    ensures Follows(CoreSearch(ends, crit, heuristic, room, k), QueueCore(ends, crit, room, k))
  {
    hide Component, QueueComponent;
    if k != 0 {
      FollowsCore(ends, crit, heuristic, room, k - 1);
      var r := CoreSearch(ends, crit, heuristic, room, k - 1);
      if r.Going? && crit[k - 1] && !r.stage.vis[k - 1] {
        FollowsComponent(ends, crit, heuristic, room, Root(ends, r.stage, k - 1));
      }
    }
  }

  /** The program is aborted exactly on the graphs where the queue runs full, unless a vertex gets no label before. */
  lemma AbortedIfFull(ends: seq<Edge>, n: nat, heuristic: bool, restart0: bool)
    requires EdgesOk(ends, n)
    ensures OutcomeOf(ends, n, heuristic, restart0).QueueFull?
            <==> QueueRunsFull(ends, n, heuristic) && !OutcomeOf(ends, n, heuristic, restart0).Restart?
  {
    hide CoreSearch, QueueCore, CriticalOf, Room, EdgesOk, Acyclic, Trues;
    var crit := CriticalOf(ends, n);
    FollowsCore(ends, crit, heuristic, Room(heuristic, |Trues(crit)|), n);
  }

  // ---------- graphs whose queue does not run full ----------

  /** No edge between critical vertices leads out of this part. */
  ghost predicate ClosedPart(ends: seq<Edge>, crit: seq<bool>, part: set<nat>) {
    forall e :: 0 <= e < |ends| && ends[e].a < |crit| && ends[e].b < |crit| && crit[ends[e].a] && crit[ends[e].b] ==>
      (ends[e].a in part <==> ends[e].b in part)
  }

  /** Each critical vertex is in a closed part of at most this size: no component of the 2-core is larger. */
  ghost predicate PartsAtMost(ends: seq<Edge>, crit: seq<bool>, size: nat) {
    forall v :: 0 <= v < |crit| && crit[v] ==> HasPart(ends, crit, size, v)
  }

  ghost predicate HasPart(ends: seq<Edge>, crit: seq<bool>, size: nat, v: nat) {
    exists part: set<nat> :: v in part && ClosedPart(ends, crit, part) && |part| <= size
  }

  /** The queue has different critical vertices of the part. */
  ghost predicate InPart(crit: seq<bool>, part: set<nat>, fr: Front) {
    && |crit| == |fr.vis| && Distinct(fr.queue)
    && forall u :: u in fr.queue ==> u in part && u < |crit| && crit[u] && fr.vis[u]
  }

  /** So is the vertex that has left it last. */
  ghost predicate Within(crit: seq<bool>, part: set<nat>, fr: Front, v: nat) {
    InPart(crit, part, fr) && v !in fr.queue && v in part && v < |crit| && crit[v] && fr.vis[v]
  }

  lemma OneFits(crit: seq<bool>, room: nat, fr: Front, u: nat, v: nat, part: set<nat>)
    requires Within(crit, part, fr, v) && |part| <= room + 1 && u < |crit| && (crit[u] ==> u in part)
    ensures var r := QueueOne(crit, room, fr, u); r.Runs? && Within(crit, part, r.front, v)
  {
    if crit[u] && !fr.vis[u] {
      PartHasMore(part, fr.queue, u, v);
    }
  }

  lemma PartHasMore(part: set<nat>, queue: seq<nat>, u: nat, v: nat)
    requires Distinct(queue) && (forall w :: w in queue ==> w in part) && u !in queue && v !in queue && u != v
    requires u in part && v in part
    ensures |queue| + 2 <= |part| && Distinct(queue + [u])
  {
    DistinctSnoc(queue, u);
    hide Distinct, Elements;
    ElementsCount(queue);
    AddElement(Elements(queue), u);
    AddElement(Elements(queue) + {u}, v);
    SubsetCount(Elements(queue) + {u} + {v}, part);
  }

  lemma {:induction false} AllFit(ends: seq<Edge>, crit: seq<bool>, room: nat, fr: Front, v: nat, k: nat,
                                  part: set<nat>)
    requires Within(crit, part, fr, v) && |part| <= room + 1 && ClosedPart(ends, crit, part) && EdgesOk(ends, |crit|)
    requires k <= |Around(ends, v)|
    ensures var r := QueueAll(ends, crit, room, fr, v, k); r.Runs? && Within(crit, part, r.front, v)
  {
    hide Distinct, QueueOne;
    if k != 0 {
      AllFit(ends, crit, room, fr, v, k - 1, part);
      var r, t := QueueAll(ends, crit, room, fr, v, k - 1), ends[Around(ends, v)[k - 1]];
      assert EdgeOk(t, |crit|);
      SameSide(ends, crit, part, fr, v, Around(ends, v)[k - 1]);
      OneFits(crit, room, r.front, t.Other(v), v, part);
    }
  }

  lemma SameSide(ends: seq<Edge>, crit: seq<bool>, part: set<nat>, fr: Front, v: nat, e: nat)
    requires Within(crit, part, fr, v) && ClosedPart(ends, crit, part) && e < |ends| && EdgeOk(ends[e], |crit|)
    requires ends[e].Has(v)
    ensures ends[e].Other(v) < |crit| && (crit[ends[e].Other(v)] ==> ends[e].Other(v) in part)
  {
  }

  lemma {:induction false} ComponentFits(ends: seq<Edge>, crit: seq<bool>, room: nat, fr: Front, part: set<nat>)
    requires InPart(crit, part, fr) && |part| <= room + 1 && ClosedPart(ends, crit, part) && EdgesOk(ends, |crit|)
    ensures QueueComponent(ends, crit, room, fr).Runs?
    decreases Work(fr.vis, fr.queue)
  {
    hide QueueAll, ClosedPart;
    if fr.queue != [] {
      var v, fr1 := fr.queue[0], Front(fr.vis, fr.queue[1..]);
      assert v in fr.queue && forall u :: u in fr1.queue ==> u in fr.queue;
      AllFit(ends, crit, room, fr1, v, |Around(ends, v)|, part);
      ComponentFits(ends, crit, room, QueueAll(ends, crit, room, fr1, v, |Around(ends, v)|).front, part);
    }
  }

  lemma {:induction false} CoreFits(ends: seq<Edge>, crit: seq<bool>, room: nat, k: nat)
    requires k <= |crit| && EdgesOk(ends, |crit|) && PartsAtMost(ends, crit, room + 1)
    ensures QueueCore(ends, crit, room, k).Runs?
  {
    hide QueueComponent, ClosedPart;
    if k != 0 {
      CoreFits(ends, crit, room, k - 1);
      var fr := QueueCore(ends, crit, room, k - 1).front;
      if crit[k - 1] && !fr.vis[k - 1] {
        assert HasPart(ends, crit, room + 1, k - 1);
        var part: set<nat> :| k - 1 in part && ClosedPart(ends, crit, part) && |part| <= room + 1;
        ComponentFits(ends, crit, room, Front(fr.vis[k - 1 := true], [k - 1]), part);
      }
    }
  }

  /** If no component of the 2-core has more vertices than the queue has room for, and one, it does not run full. */
  lemma SmallPartsFit(ends: seq<Edge>, n: nat, heuristic: bool)
    requires EdgesOk(ends, n)
    requires PartsAtMost(ends, CriticalOf(ends, n), Room(heuristic, |Trues(CriticalOf(ends, n))|) + 1)
    ensures !QueueRunsFull(ends, n, heuristic)
  {
    hide QueueCore, PartsAtMost, CriticalOf, Room, EdgesOk, Trues;
    CoreFits(ends, CriticalOf(ends, n), Room(heuristic, |Trues(CriticalOf(ends, n))|), n);
  }

  /** The queue for all critical vertices never does. */
  lemma AllFitOtherwise(ends: seq<Edge>, n: nat)
    requires EdgesOk(ends, n)
    ensures !QueueRunsFull(ends, n, false)
  {
    hide QueueCore, CriticalOf;
    var crit := CriticalOf(ends, n);
    forall v | 0 <= v < |crit| && crit[v]
      ensures HasPart(ends, crit, Room(false, |Trues(crit)|) + 1, v)
    {
      assert v in Trues(crit) && ClosedPart(ends, crit, Trues(crit));
    }
    SmallPartsFit(ends, n, false);
  }

  // ---------- a queue that runs full ----------

  /** A critical vertex next to `v` */
  ghost predicate Beside(ends: seq<Edge>, crit: seq<bool>, v: nat, w: nat) {
    w < |crit| && crit[w] && AreJoined(ends, v, w)
  }

  ghost function CriticalNeighbours(ends: seq<Edge>, crit: seq<bool>, v: nat): (r: set<nat>)
    ensures forall w :: w in r <==> Beside(ends, crit, v, w)
  {
    set w: nat | w < |crit| && Beside(ends, crit, v, w)
  }

  /** The critical neighbours of `v` are more than the queue of the heuristic variant has room for, and no two of them
      are joined. */
  ghost predicate Hub(ends: seq<Edge>, crit: seq<bool>, v: nat) {
    && Room(true, |Trues(crit)|) < |CriticalNeighbours(ends, crit, v)|
    && forall w, w' :: Beside(ends, crit, v, w) && Beside(ends, crit, v, w') ==> !AreJoined(ends, w, w')
  }

  /** The first critical vertex is a hub. */
  ghost predicate HubFirst(ends: seq<Edge>, crit: seq<bool>, v: nat) {
    v < |crit| && crit[v] && (forall w :: 0 <= w < v ==> !crit[w]) && Hub(ends, crit, v)
  }

  /** There are more edges than the labels 1, 2, 3 and so on make numbers before the queue is full: one to each
      neighbour, and another one from there. */
  lemma HubHasEdges(ends: seq<Edge>, crit: seq<bool>, v: nat)
    requires EdgesOk(ends, |crit|) && Simple(ends) && Hub(ends, crit, v)
    requires forall w: nat :: w < |crit| && crit[w] ==> IsCritical(ends, w)
    ensures Room(true, |Trues(crit)|) + 1 < |ends|
  {
    hide Room, Simple, EdgesOk, Beside, Trues, OtherIn, UpTo, IsCritical;
    var all := CriticalNeighbours(ends, crit, v);
    var w :| w in all;
    NeighbourIsOther(ends, crit, v, w);
    var more := EdgeAway(ends, |crit|, v, w);
    var at := set e: nat | e < |ends| && ends[e].Has(v);
    forall w | w in all
      ensures OtherIn(ends, v, at, w)
    {
      JoiningEdge(ends, crit, v, w, at);
    }
    OthersAtMost(ends, v, at, all);
    SubsetCount(at + {more}, UpTo(|ends|));
    assert |at + {more}| == |at| + 1;
  }

  ghost predicate OtherIn(ends: seq<Edge>, v: nat, edges: set<nat>, w: nat) {
    exists e :: e in edges && e < |ends| && ends[e].Other(v) == w
  }

  lemma JoiningEdge(ends: seq<Edge>, crit: seq<bool>, v: nat, w: nat, at: set<nat>)
    requires Beside(ends, crit, v, w) && forall e :: 0 <= e < |ends| && ends[e].Has(v) ==> e in at
    ensures OtherIn(ends, v, at, w)
  {
    var e :| 0 <= e < |ends| && Joins(ends[e], v, w);
    OtherOfJoin(ends[e], v, w);
    assert e in at;
  }

  /** From a neighbour, an edge leads to another vertex. */
  lemma EdgeAway(ends: seq<Edge>, n: nat, v: nat, w: nat) returns (f: nat)
    requires Simple(ends) && EdgesOk(ends, n) && IsCritical(ends, w) && v != w
    ensures f < |ends| && !ends[f].Has(v)
  {
    hide Core, Shared, InTwoCore;
    var d: nat :| d < |ends| && ends[d].Has(w) && InTwoCore(ends, d);
    var e := OneMoreEdge(ends, d, w);
    assert EdgeOk(ends[d], n) && EdgeOk(ends[e], n);
    f := if ends[d].Has(v) then e else d;
    assert ends[d].Has(v) && ends[e].Has(v) ==> Joins(ends[d], ends[e].a, ends[e].b);
  }

  lemma OneMoreEdge(ends: seq<Edge>, d: nat, w: nat) returns (e: nat)
    requires d < |ends| && ends[d].Has(w) && InTwoCore(ends, d)
    ensures e < |ends| && e != d && ends[e].Has(w)
  {
    var core: set<nat> :| Core(ends, core) && d in core;
    assert Shared(ends, core, d, w);
    hide Core;
    e :| e in core && e != d && e < |ends| && ends[e].Has(w);
  }

  lemma NeighbourIsOther(ends: seq<Edge>, crit: seq<bool>, v: nat, w: nat)
    requires Beside(ends, crit, v, w) && EdgesOk(ends, |crit|)
    ensures v != w && w < |crit| && crit[w]
  {
    var e :| 0 <= e < |ends| && Joins(ends[e], v, w);
    assert EdgeOk(ends[e], |crit|);
  }

  lemma {:induction false} OthersAtMost(ends: seq<Edge>, v: nat, at: set<nat>, others: set<nat>)
    requires forall w :: w in others ==> OtherIn(ends, v, at, w)
    ensures |others| <= |at|
  {
    if others != {} {
      var w :| w in others;
      assert OtherIn(ends, v, at, w);
      var e :| e in at && e < |ends| && ends[e].Other(v) == w;
      forall x | x in others - {w}
        ensures OtherIn(ends, v, at - {e}, x)
      {
        assert OtherIn(ends, v, at, x);
        var f :| f in at && f < |ends| && ends[f].Other(v) == x;
        assert f in at - {e};
      }
      OthersAtMost(ends, v, at - {e}, others - {w});
    }
  }

  /** The first root has label 0, and those of its neighbours that have a label got 1, 2, 3 and so on, and are all in
      the queue. */
  ghost predicate Star(ends: seq<Edge>, crit: seq<bool>, st: Stage, v: nat) {
    && Shaped(ends, crit, st) && v < |crit| && st.vis[v] && st.g[v] == 0 && st.biggestG == |st.queue| && st.unused == []
    && (forall s :: 0 <= s < |st.used| && st.used[s] ==> s <= st.biggestG)
    && (forall w :: 0 <= w < |crit| && st.vis[w] ==> w == v || w in st.queue)
    && forall w :: w in st.queue ==> Beside(ends, crit, v, w) && st.vis[w]
  }

  /** The only labelled neighbour of a neighbour of the root is the root. */
  lemma OnlyRoot(ends: seq<Edge>, crit: seq<bool>, st: Stage, v: nat, u: nat, e: nat)
    requires Hub(ends, crit, v) && Star(ends, crit, st, v) && Beside(ends, crit, v, u) && e < |ends| && ends[e].Has(u)
    requires ends[e].Other(u) < |crit| && st.vis[ends[e].Other(u)]
    ensures ends[e].Other(u) == v
  {
    var w := ends[e].Other(u);
    assert Joins(ends[e], u, w);
    assert AreJoined(ends, u, w);
    hide Room, CriticalNeighbours, AreJoined, Trues;
    assert w == v || w in st.queue;
    assert w == v || Beside(ends, crit, v, w);
  }

  /** The next label suits at once. */
  lemma NextSuits(ends: seq<Edge>, crit: seq<bool>, st: Stage, v: nat, u: nat)
    requires Hub(ends, crit, v) && Star(ends, crit, st, v) && Beside(ends, crit, v, u) && st.biggestG + 1 < |ends|
    ensures Choose(ends, true, st, u) == Take(st.biggestG + 1, [])
  {
    hide Hub, Beside, Judged;
    forall e | 0 <= e < |ends| && ends[e].Has(u)
      ensures SuitsNeighbour(st, ends[e].Other(u), st.biggestG + 1)
    {
      assert EdgeOk(ends[e], |crit|);
      if st.vis[ends[e].Other(u)] {
        OnlyRoot(ends, crit, st, v, u, e);
      }
    }
    JudgedSuits(ends, st, u, st.biggestG + 1);
  }

  /** No number above the label is marked with it. */
  lemma {:induction false} MarksBelow(ends: seq<Edge>, crit: seq<bool>, st: Stage, v: nat, u: nat, k: nat, s: nat)
    requires Hub(ends, crit, v) && Star(ends, crit, st, v) && Beside(ends, crit, v, u) && k <= |Around(ends, u)|
    requires s < |ends| && Marks(ends, st, u, st.biggestG + 1, k)[s]
    ensures s <= st.biggestG + 1
  {
    hide Hub, Beside;
    if k != 0 {
      var e := Around(ends, u)[k - 1];
      assert EdgeOk(ends[e], |crit|);
      if Marks(ends, st, u, st.biggestG + 1, k - 1)[s] {
        MarksBelow(ends, crit, st, v, u, k - 1, s);
      } else {
        OnlyRoot(ends, crit, st, v, u, e);
      }
    }
  }

  lemma StarGrows(ends: seq<Edge>, crit: seq<bool>, st: Stage, v: nat, u: nat)
    requires Hub(ends, crit, v) && Star(ends, crit, st, v) && Beside(ends, crit, v, u) && !st.vis[u]
    ensures Star(ends, crit, WithLabel(ends, st, u, st.biggestG + 1, []), v)
  {
    hide Hub, AreJoined, Marks, Around, Biggest;
    var st' := WithLabel(ends, st, u, st.biggestG + 1, []);
    forall s | 0 <= s < |st'.used| && st'.used[s]
      ensures s <= st'.biggestG
    {
      MarksBelow(ends, crit, st, v, u, |Around(ends, u)|, s);
    }
    assert u in st'.queue by {
      assert st'.queue[|st.queue|] == u;
    }
    assert forall w :: w in st.queue ==> w in st'.queue;
  }

  /** The neighbours of the root get their labels, until the queue is full. */
  lemma {:induction false} StarScanned(ends: seq<Edge>, crit: seq<bool>, st: Stage, v: nat, k: nat)
    requires Hub(ends, crit, v) && Star(ends, crit, st, v) && k <= |Around(ends, v)| && st.queue == []
    requires Room(true, |Trues(crit)|) + 1 < |ends|
    ensures var r := VisitAll(ends, crit, true, Room(true, |Trues(crit)|), st, v, k);
            r.NoRoom? || (r.Going? && Star(ends, crit, r.stage, v) && |r.stage.queue| <= Room(true, |Trues(crit)|)
                          && AllQueued(ends, crit, r.stage, v, k))
  {
    hide Hub, Star, Room, Choose, Marks, Biggest, Trues, Work;
    var room := Room(true, |Trues(crit)|);
    StarIs(ends, crit, st, v);
    if k != 0 {
      StarScanned(ends, crit, st, v, k - 1);
      var r, e := VisitAll(ends, crit, true, room, st, v, k - 1), Around(ends, v)[k - 1];
      assert EdgeOk(ends[e], |crit|);
      var u := ends[e].Other(v);
      if r.Going? {
        StarIs(ends, crit, r.stage, v);
        if crit[u] && !r.stage.vis[u] {
          assert Joins(ends[e], v, u);
          NextSuits(ends, crit, r.stage, v, u);
          StarGrows(ends, crit, r.stage, v, u);
          StarIs(ends, crit, WithLabel(ends, r.stage, u, r.stage.biggestG + 1, []), v);
        }
      }
    }
  }

  ghost predicate AllQueued(ends: seq<Edge>, crit: seq<bool>, st: Stage, v: nat, k: nat) {
    && |crit| == |st.vis| && k <= |Around(ends, v)|
    && forall j :: 0 <= j < k ==> (var w := ends[Around(ends, v)[j]].Other(v); w < |crit| && (crit[w] ==> st.vis[w]))
  }

  lemma StarIs(ends: seq<Edge>, crit: seq<bool>, st: Stage, v: nat)
    requires Star(ends, crit, st, v)
    ensures Shaped(ends, crit, st) && st.biggestG == |st.queue|
  {
  }

  /** When all its critical neighbours are queued, the queue is fuller than it can be. */
  lemma HubIsNotDone(ends: seq<Edge>, crit: seq<bool>, st: Stage, v: nat)
    requires Hub(ends, crit, v) && Star(ends, crit, st, v) && AllQueued(ends, crit, st, v, |Around(ends, v)|)
    ensures |st.queue| > Room(true, |Trues(crit)|)
  {
    hide Room, Beside, Trues;
    var all := CriticalNeighbours(ends, crit, v);
    forall w | w in all
      ensures w in Elements(st.queue)
    {
      IsQueued(ends, crit, st, v, w);
    }
    SubsetCount(all, Elements(st.queue));
    ElementsAtMost(st.queue);
  }

  lemma IsQueued(ends: seq<Edge>, crit: seq<bool>, st: Stage, v: nat, w: nat)
    requires Star(ends, crit, st, v) && AllQueued(ends, crit, st, v, |Around(ends, v)|) && Beside(ends, crit, v, w)
    ensures w in st.queue
  {
    NeighbourIsOther(ends, crit, v, w);
    var e :| 0 <= e < |ends| && Joins(ends[e], v, w);
    OtherOfJoin(ends[e], v, w);
    EdgeIsDown(ends, v, |ends|, e);
    var j :| 0 <= j < |Around(ends, v)| && Around(ends, v)[j] == e;
  }

  lemma RootIsStar(ends: seq<Edge>, crit: seq<bool>, v: nat)
    requires EdgesOk(ends, |crit|) && v < |crit|
    ensures var st := Start(|ends|, |crit|);
            && Shaped(ends, st.vis, st) && Shaped(ends, crit, st) && Shaped(ends, crit, Root(ends, st, v))
            && !st.vis[v] && Root(ends, st, v).queue == [v]
            && Star(ends, crit, Root(ends, st, v).(queue := []), v)
  {
  }

  lemma HubStopsComponent(ends: seq<Edge>, crit: seq<bool>, st: Stage, v: nat)
    requires Hub(ends, crit, v) && Room(true, |Trues(crit)|) + 1 < |ends| && Shaped(ends, crit, st)
    requires st.queue == [v] && Star(ends, crit, st.(queue := []), v)
    ensures Component(ends, crit, true, Room(true, |Trues(crit)|), st).NoRoom?
  {
    hide Hub, Star, Room, Trues, VisitAll;
    var st1, all := st.(queue := []), |Around(ends, v)|;
    assert st.(queue := st.queue[1..]) == st1;
    StarScanned(ends, crit, st1, v, all);
    var r := VisitAll(ends, crit, true, Room(true, |Trues(crit)|), st1, v, all);
    if r.Going? {
      HubIsNotDone(ends, crit, r.stage, v);
    }
  }

  /** A simple graph that begins with a hub fills the queue. */
  lemma HubFillsQueue(ends: seq<Edge>, n: nat, v: nat, restart0: bool)
    requires EdgesOk(ends, n) && Simple(ends) && HubFirst(ends, CriticalOf(ends, n), v)
    ensures OutcomeOf(ends, n, true, restart0).QueueFull?
  {
    hide Hub, Star, Room, Trues, Component, Simple, CriticalOf, Root, Start, IsCritical, Acyclic, Shaped;
    var crit := CriticalOf(ends, n);
    var room, st := Room(true, |Trues(crit)|), Start(|ends|, n);
    HubHasEdges(ends, crit, v);
    RootIsStar(ends, crit, v);
    NothingBefore(ends, crit, true, room, v);
    HubStopsComponent(ends, crit, Root(ends, st, v), v);
    SearchStops(ends, crit, true, room, v + 1, n);
  }

  // ---------- such a graph ----------

  /** Vertices 0 and 1, each joined to the five after them */
  function TwoHubs(): (ends: seq<Edge>)
  {
    seq<Edge>(10, e requires 0 <= e < 10 => HubEdge(e))
  }

  function HubEdge(e: nat): Edge
    requires e < 10
  {
    if e < 5 then Edge(0, e + 2) else Edge(1, e - 3)
  }

  /** Its seven vertices are critical, the queue has room for four, and the first root has five neighbours. */
  lemma TwoHubsFillQueue(n: nat, restart0: bool)
    requires n >= 7
    ensures Simple(TwoHubs()) && EdgesOk(TwoHubs(), n) && OutcomeOf(TwoHubs(), n, true, restart0).QueueFull?
  {
    hide TwoHubs, Hub, Simple, EdgesOk, CriticalOf, OutcomeOf;
    var ends, crit := TwoHubs(), CriticalOf(TwoHubs(), n);
    TwoHubsSimple(ends, n);
    TwoHubsCritical(ends, crit);
    TwoHubsRoot(ends, crit);
    HubFillsQueue(ends, n, 0, restart0);
  }

  lemma TwoHubsSimple(ends: seq<Edge>, n: nat)
    requires ends == TwoHubs() && n >= 7
    ensures Simple(ends) && EdgesOk(ends, n) && |ends| == 10
  {
    forall e, f | 0 <= e < f < |ends|
      ensures !Joins(ends[f], ends[e].a, ends[e].b)
    {
      assert ends[e] == HubEdge(e) && ends[f] == HubEdge(f);
    }
  }

  lemma TwoHubsCore(ends: seq<Edge>, core: set<nat>)
    requires ends == TwoHubs() && |ends| == 10 && forall e: nat :: e in core <==> e < 10
    ensures Core(ends, core)
  {
    hide TwoHubs, Shared;
    forall e, v: nat | e in core && ends[e].Has(v)
      ensures Shared(ends, core, e, v)
    {
      HubEdgeShared(ends, core, e, v);
    }
  }

  lemma HubEdgeShared(ends: seq<Edge>, core: set<nat>, e: nat, v: nat)
    requires ends == TwoHubs() && (forall f: nat :: f in core <==> f < 10) && e < 10 && ends[e].Has(v)
    ensures Shared(ends, core, e, v)
  {
    assert ends[e] == HubEdge(e);
    var f := if v == 0 then (if e == 0 then 1 else 0) else if v == 1 then (if e == 5 then 6 else 5)
             else if e < 5 then e + 5 else e - 5;
    assert ends[f] == HubEdge(f) && f in core;
  }

  lemma TwoHubsCritical(ends: seq<Edge>, crit: seq<bool>)
    requires ends == TwoHubs() && |crit| >= 7 && crit == CriticalOf(ends, |crit|)
    ensures (forall v :: 0 <= v < |crit| ==> (crit[v] <==> v < 7)) && |Trues(crit)| == 7
  {
    hide IsCritical, UpTo, TwoHubs;
    forall v: nat | v < |crit|
      ensures IsCritical(ends, v) <==> v < 7
    {
      CriticalInHubs(ends, v);
    }
    assert Trues(crit) == UpTo(7);
  }

  lemma CriticalInHubs(ends: seq<Edge>, v: nat)
    requires ends == TwoHubs()
    ensures IsCritical(ends, v) <==> v < 7
  {
    hide Core, UpTo;
    if v < 7 {
      var e := if v == 0 then 0 else if v == 1 then 5 else v - 2;
      TwoHubsCore(ends, UpTo(10));
      assert InTwoCore(ends, e) && ends[e] == HubEdge(e) && ends[e].Has(v);
    } else {
      forall e | 0 <= e < |ends|
        ensures !ends[e].Has(v)
      {
        assert ends[e] == HubEdge(e);
      }
    }
  }

  lemma TwoHubsRoot(ends: seq<Edge>, crit: seq<bool>)
    requires ends == TwoHubs() && |crit| >= 7 && (forall v :: 0 <= v < |crit| ==> (crit[v] <==> v < 7))
    requires |Trues(crit)| == 7
    ensures Hub(ends, crit, 0)
  {
    hide Trues, Beside, AreJoined, TwoHubs, UpTo;
    var others := UpTo(7) - UpTo(2);
    assert |others| == 5 by {
      assert UpTo(2) + others == UpTo(7);
    }
    forall w | w in others
      ensures Beside(ends, crit, 0, w)
    {
      BesideRoot(ends, crit, w);
    }
    SubsetCount(others, CriticalNeighbours(ends, crit, 0));
    BesideHub(ends, crit);
  }

  lemma BesideRoot(ends: seq<Edge>, crit: seq<bool>, w: nat)
    requires ends == TwoHubs() && 2 <= w < 7 <= |crit| && crit[w]
    ensures Beside(ends, crit, 0, w)
  {
    assert ends[w - 2] == HubEdge(w - 2) && Joins(ends[w - 2], 0, w);
  }

  lemma BesideHub(ends: seq<Edge>, crit: seq<bool>)
    requires ends == TwoHubs()
    ensures |ends| == 10
    ensures forall w, w' :: Beside(ends, crit, 0, w) && Beside(ends, crit, 0, w') ==> !AreJoined(ends, w, w')
  {
    assert forall e :: 0 <= e < |ends| ==> HubEdge(e).a < 2 <= HubEdge(e).b;
    assert forall e :: 0 <= e < |ends| ==> ends[e] == HubEdge(e);
    hide TwoHubs, HubEdge;
    forall w | Beside(ends, crit, 0, w)
      ensures w >= 2
    {
      var e :| 0 <= e < |ends| && Joins(ends[e], 0, w);
    }
  }
}
