/**
 The graph of CHM and BMZ (graph.c): an edge is two half-edges, `e` in the list of its first
 vertex and `e + nedges` in the list of its second, each naming the vertex at the other end.
 Edges are only marked as deleted, so that the lists do not change once the graph is built.
 */
module Graphs {
  import opened Words
  import opened Counting

  const EMPTY: nat := 0xffff_ffff

  datatype Edge = Edge(a: nat, b: nat) {
    predicate Has(v: nat) {
      a == v || b == v
    }

    function Other(v: nat): nat {
      if a == v then b else a
    }
  }

  /** The edge joins the two vertices. */
  predicate Joins(t: Edge, v: nat, w: nat) {
    (t.a == v && t.b == w) || (t.a == w && t.b == v)
  }

  ghost predicate AreJoined(ends: seq<Edge>, v: nat, w: nat) {
    exists e :: 0 <= e < |ends| && Joins(ends[e], v, w)
  }

  const NO_NEIGHBOR: nat := 0xffff_ffff

  /** `graph_iterator_t` */
  datatype GraphIterator = GraphIterator(vertex: nat, edge: nat)

  /** Loop-free edges on `n` vertices */
  ghost predicate EdgesOk(ends: seq<Edge>, n: nat) {
    forall e :: 0 <= e < |ends| ==> EdgeOk(ends[e], n)
  }

  ghost predicate EdgeOk(t: Edge, n: nat) {
    t.a < n && t.b < n && t.a != t.b
  }

  // ---------- cores ----------

  /** Another of these edges has vertex `v`. */
  ghost predicate Shared(ends: seq<Edge>, edges: set<nat>, e: nat, v: nat) {
    exists e' :: e' in edges && e' != e && e' < |ends| && ends[e'].Has(v)
  }

  /** Every vertex of these edges is in at least two of them. */
  ghost predicate Core(ends: seq<Edge>, core: set<nat>) {
    && (forall e :: e in core ==> e < |ends|)
    && forall e, v: nat :: e in core && ends[e].Has(v) ==> Shared(ends, core, e, v)
  }

  /** No nonempty set of edges has all its degrees at least two: the graph is a forest. */
  ghost predicate Acyclic(ends: seq<Edge>) {
    forall core: set<nat> :: Core(ends, core) ==> core == {}
  }

  /** The edge is in some core. The union of all of them is the 2-core. */
  ghost predicate InTwoCore(ends: seq<Edge>, e: nat) {
    exists core: set<nat> :: Core(ends, core) && e in core
  }

  // ---------- the half-edges ----------

  datatype HalfEdges = HalfEdges(nedges: nat, first: seq<nat>, next: seq<nat>, edges: seq<nat>)

  /** The `abs_edge` macro */
  function AbsEdge(e: nat, i: nat, nedges: nat): (id: nat)
    requires e < 2 * nedges
    ensures id == (if e < nedges then e else e - nedges) + (if i == 0 then 0 else i * nedges)
  {
    HalfModulo(e, nedges);
    e % nedges + i * nedges
  }

  lemma HalfModulo(e: nat, n: nat)
    requires e < 2 * n
    ensures e % n == if e < n then e else e - n
  {
    if e < n {
      SmallModulo(e, n);
    } else {
      DivModUnique(e, n, 1, e - n);
    }
  }

  /** Entry `j` of a list links to the next. */
  ghost predicate LinkOk(next: seq<nat>, list: seq<nat>, j: nat)
    requires j < |list|
  {
    list[j] < |next| && next[list[j]] == if j + 1 < |list| then list[j + 1] else EMPTY
  }

  ghost predicate Chain(next: seq<nat>, start: nat, list: seq<nat>) {
    && start == (if list == [] then EMPTY else list[0])
    && forall j :: 0 <= j < |list| ==> LinkOk(next, list, j)
  }

  /** The half-edge starts at the vertex. */
  ghost predicate StartsAt(ends: seq<Edge>, nedges: nat, h: nat, v: nat) {
    (h < |ends| && ends[h].a == v) || (nedges <= h < nedges + |ends| && ends[h - nedges].b == v)
  }

  /** A list has exactly the half-edges that start at its vertex. */
  ghost predicate ListOk(s: HalfEdges, ends: seq<Edge>, v: nat, list: seq<nat>) {
    && v < |s.first| && Chain(s.next, s.first[v], list) && Distinct(list)
    && forall h: nat :: h in list <==> StartsAt(ends, s.nedges, h, v)
  }

  ghost predicate EndsStored(s: HalfEdges, ends: seq<Edge>) {
    && |ends| <= s.nedges && |s.next| == |s.edges| == 2 * s.nedges <= EMPTY
    && forall e :: 0 <= e < |ends| ==> s.edges[e] == ends[e].b && s.edges[e + s.nedges] == ends[e].a
  }

  /** The arrays hold the edges, the lists being `adj`. */
  ghost predicate Represents(s: HalfEdges, ends: seq<Edge>, adj: seq<seq<nat>>) {
    && |adj| == |s.first| && EdgesOk(ends, |adj|) && EndsStored(s, ends)
    && forall v :: 0 <= v < |adj| ==> ListOk(s, ends, v, adj[v])
  }

  /** The half-edges after an edge is put in front of the lists of its vertices */
  function Linked(s: HalfEdges, e: nat, t: Edge): HalfEdges
    requires e < s.nedges && |s.next| == |s.edges| == 2 * s.nedges && t.a < |s.first| && t.b < |s.first|
  {
    var m := s.nedges;
    HalfEdges(m, s.first[t.a := e][t.b := e + m], s.next[e := s.first[t.a]][e + m := s.first[t.b]],
              s.edges[e := t.b][e + m := t.a])
  }

  function LinkedAdj(adj: seq<seq<nat>>, e: nat, t: Edge, nedges: nat): (r: seq<seq<nat>>)
    requires t.a < |adj| && t.b < |adj|
    ensures |r| == |adj|
  {
    adj[t.a := [e] + adj[t.a]][t.b := [e + nedges] + adj[t.b]]
  }

  lemma LinkedList(s: HalfEdges, ends: seq<Edge>, adj: seq<seq<nat>>, t: Edge, v: nat)
    requires Represents(s, ends, adj) && |ends| < s.nedges && EdgeOk(t, |adj|) && v < |adj|
    ensures ListOk(Linked(s, |ends|, t), ends + [t], v, LinkedAdj(adj, |ends|, t, s.nedges)[v])
  {
    assert ListOk(s, ends, v, adj[v]);
    var s', ends', list := Linked(s, |ends|, t), ends + [t], LinkedAdj(adj, |ends|, t, s.nedges)[v];
    assert forall h :: h in adj[v] ==> h != |ends| && h != |ends| + s.nedges;
    DistinctCons(if t.a == v then |ends| else |ends| + s.nedges, adj[v]);
    assert forall h: nat :: StartsAt(ends', s.nedges, h, v) <==>
                            StartsAt(ends, s.nedges, h, v) || (h == |ends| && t.a == v)
                            || (h == |ends| + s.nedges && t.b == v);
    forall j | 0 <= j < |list|
      ensures LinkOk(s'.next, list, j)
    {
      if t.Has(v) {
        if j > 0 {
          assert LinkOk(s.next, adj[v], j - 1);
          assert adj[v][j - 1] in adj[v];
        }
      } else {
        assert LinkOk(s.next, adj[v], j);
        assert adj[v][j] in adj[v];
      }
    }
  }

  lemma LinkedGraph(s: HalfEdges, ends: seq<Edge>, adj: seq<seq<nat>>, t: Edge)
    requires Represents(s, ends, adj) && |ends| < s.nedges && EdgeOk(t, |adj|)
    ensures Represents(Linked(s, |ends|, t), ends + [t], LinkedAdj(adj, |ends|, t, s.nedges))
  {
    forall v | 0 <= v < |adj|
      ensures ListOk(Linked(s, |ends|, t), ends + [t], v, LinkedAdj(adj, |ends|, t, s.nedges)[v])
    {
      LinkedList(s, ends, adj, t, v);
    }
  }

  // ---------- deleted edges ----------

  /** The only edge of the vertex that is not deleted */
  ghost predicate LoneEdge(ends: seq<Edge>, deleted: seq<bool>, v: nat, x: nat)
    requires |ends| == |deleted|
  {
    && x < |ends| && ends[x].Has(v) && !deleted[x]
    && forall e :: 0 <= e < |ends| && e != x && ends[e].Has(v) ==> deleted[e]
  }

  /** The vertex does not have degree one. */
  ghost predicate NoLone(ends: seq<Edge>, deleted: seq<bool>, v: nat)
    requires |ends| == |deleted|
  {
    forall x :: 0 <= x < |ends| ==> !LoneEdge(ends, deleted, v, x)
  }

  /** No edge of any core is deleted. */
  ghost predicate KeepsCores(ends: seq<Edge>, deleted: seq<bool>)
    requires |ends| == |deleted|
  {
    forall core: set<nat>, e :: Core(ends, core) && e in core ==> !deleted[e]
  }

  /** Deleting the lone edge of a vertex deletes no edge of a core, and lowers the degree of no vertex
      but its two. */
  lemma DeleteLone(ends: seq<Edge>, deleted: seq<bool>, v: nat, x: nat)
    requires |ends| == |deleted| && LoneEdge(ends, deleted, v, x) && KeepsCores(ends, deleted)
    ensures KeepsCores(ends, deleted[x := true]) && NoLone(ends, deleted[x := true], v)
    ensures forall u :: !ends[x].Has(u) && NoLone(ends, deleted, u) ==> NoLone(ends, deleted[x := true], u)
  {
    var deleted' := deleted[x := true];
    forall core: set<nat>, e | Core(ends, core) && e in core
      ensures !deleted'[e]
    {
      assert !Shared(ends, core, x, v);
    }
    forall u | !ends[x].Has(u) && NoLone(ends, deleted, u)
      ensures NoLone(ends, deleted', u)
    {
      forall y | 0 <= y < |ends|
        ensures !LoneEdge(ends, deleted', u, y)
      {
        assert !LoneEdge(ends, deleted, u, y);
      }
    }
  }

  ghost function Live(deleted: seq<bool>): (live: set<nat>)
    ensures forall e: nat :: e in live <==> e < |deleted| && !deleted[e]
  {
    set e: nat | e < |deleted| && !deleted[e]
  }

  /** When no vertex has degree one, the edges that are left are exactly the 2-core. */
  lemma RestIsTwoCore(ends: seq<Edge>, deleted: seq<bool>, n: nat)
    requires |ends| == |deleted| && EdgesOk(ends, n) && KeepsCores(ends, deleted)
    requires forall v :: 0 <= v < n ==> NoLone(ends, deleted, v)
    ensures Core(ends, Live(deleted))
    ensures forall e :: 0 <= e < |ends| ==> (!deleted[e] <==> InTwoCore(ends, e))
  {
    var live := Live(deleted);
    forall e, v: nat | e in live && ends[e].Has(v)
      ensures Shared(ends, live, e, v)
    {
      assert EdgeOk(ends[e], n);
      assert NoLone(ends, deleted, v) && !LoneEdge(ends, deleted, v, e);
      var e' :| 0 <= e' < |ends| && e' != e && ends[e'].Has(v) && !deleted[e'];
      assert e' in live;
    }
    assert Core(ends, live);
  }

  lemma TwoCoreDecides(ends: seq<Edge>, deleted: seq<bool>)
    requires |ends| == |deleted|
    requires forall e :: 0 <= e < |ends| ==> (!deleted[e] <==> InTwoCore(ends, e))
    ensures Acyclic(ends) <==> forall e :: 0 <= e < |ends| ==> deleted[e]
  {
    if forall e :: 0 <= e < |ends| ==> deleted[e] {
      forall core: set<nat> | Core(ends, core)
        ensures core == {}
      {
        if core != {} {
          var e :| e in core;
          assert InTwoCore(ends, e);
        }
      }
    } else {
      var e :| 0 <= e < |ends| && !deleted[e];
      assert InTwoCore(ends, e);
      var core: set<nat> :| Core(ends, core) && e in core;
      assert core != {};
    }
  }

  // ---------- one list, and the edges of its vertex ----------

  /** The edges of the half-edges of a list */
  function Ids(list: seq<nat>, m: nat): (ids: seq<nat>)
    ensures |ids| == |list|
  {
    seq<nat>(|list|, j requires 0 <= j < |list| => if list[j] < 2 * m then AbsEdge(list[j], 0, m) else 0)
  }

  /** These are the edges that have the vertex, each once. */
  ghost predicate EdgesAt(ends: seq<Edge>, v: nat, ids: seq<nat>) {
    && Distinct(ids)
    && (forall j :: 0 <= j < |ids| ==> ids[j] < |ends| && ends[ids[j]].Has(v))
    && (forall e :: 0 <= e < |ends| && ends[e].Has(v) ==> e in ids)
  }

  lemma HalvesInRange(ends: seq<Edge>, m: nat, v: nat, list: seq<nat>)
    requires |ends| <= m && forall h: nat :: h in list <==> StartsAt(ends, m, h, v)
    ensures forall j :: 0 <= j < |list| ==> list[j] < 2 * m && AbsEdge(list[j], 0, m) < |ends|
  {
    forall j | 0 <= j < |list|
      ensures list[j] < 2 * m && AbsEdge(list[j], 0, m) < |ends|
    {
      assert list[j] in list;
    }
  }

  lemma IdsAt(ends: seq<Edge>, m: nat, n: nat, v: nat, list: seq<nat>)
    requires |ends| <= m && EdgesOk(ends, n) && Distinct(list)
    requires forall h: nat :: h in list <==> StartsAt(ends, m, h, v)
    ensures EdgesAt(ends, v, Ids(list, m))
  {
    var ids := Ids(list, m);
    HalvesInRange(ends, m, v, list);
    forall j | 0 <= j < |list|
      ensures ends[ids[j]].Has(v)
    {
      assert list[j] in list;
    }
    forall e | 0 <= e < |ends| && ends[e].Has(v)
      ensures e in ids
    {
      var h := if ends[e].a == v then e else e + m;
      assert StartsAt(ends, m, h, v) && h in list;
      var j :| 0 <= j < |list| && list[j] == h;
      assert ids[j] == e;
    }
    forall i, j | 0 <= i < j < |ids|
      ensures ids[i] != ids[j]
    {
      assert list[i] in list && list[j] in list && list[i] != list[j];
      assert EdgeOk(ends[ids[i]], n);
    }
  }

  ghost predicate NoneLive(ids: seq<nat>, deleted: seq<bool>, k: nat) {
    k <= |ids| && forall j :: 0 <= j < k ==> ids[j] < |deleted| && deleted[ids[j]]
  }

  ghost predicate OnlyLive(ids: seq<nat>, deleted: seq<bool>, k: nat, at: nat) {
    && at < k <= |ids| && ids[at] < |deleted| && !deleted[ids[at]]
    && forall j :: 0 <= j < k && j != at ==> ids[j] < |deleted| && deleted[ids[j]]
  }

  ghost predicate Counted(ids: seq<nat>, deleted: seq<bool>, k: nat, found: bool, at: nat) {
    if found then OnlyLive(ids, deleted, k, at) else NoneLive(ids, deleted, k)
  }

  lemma CountMore(ids: seq<nat>, deleted: seq<bool>, k: nat, found: bool, at: nat)
    requires Counted(ids, deleted, k, found, at) && k < |ids| && ids[k] < |deleted|
    ensures deleted[ids[k]] ==> Counted(ids, deleted, k + 1, found, at)
    ensures !deleted[ids[k]] && !found ==> Counted(ids, deleted, k + 1, true, k)
    ensures !deleted[ids[k]] && found ==> at < k && ids[at] < |deleted| && !deleted[ids[at]]
  {
  }

  lemma NothingLeft(ends: seq<Edge>, deleted: seq<bool>, v: nat, ids: seq<nat>)
    requires |ends| == |deleted| && EdgesAt(ends, v, ids) && NoneLive(ids, deleted, |ids|)
    ensures NoLone(ends, deleted, v)
  {
    forall x | 0 <= x < |ends|
      ensures !LoneEdge(ends, deleted, v, x)
    {
      assert ends[x].Has(v) ==> x in ids;
    }
  }

  lemma OneLeft(ends: seq<Edge>, deleted: seq<bool>, v: nat, ids: seq<nat>, at: nat)
    requires |ends| == |deleted| && EdgesAt(ends, v, ids) && OnlyLive(ids, deleted, |ids|, at)
    ensures LoneEdge(ends, deleted, v, ids[at])
  {
    forall e | 0 <= e < |ends| && e != ids[at] && ends[e].Has(v)
      ensures deleted[e]
    {
      assert e in ids;
    }
  }

  lemma NothingCounted(ids: seq<nat>, deleted: seq<bool>, at: nat)
    ensures Counted(ids, deleted, 0, false, at)
  {
  }

  lemma LoneDecided(ends: seq<Edge>, deleted: seq<bool>, v: nat, ids: seq<nat>, found: bool, at: nat)
    requires |ends| == |deleted| && EdgesAt(ends, v, ids) && Counted(ids, deleted, |ids|, found, at)
    ensures found ==> at < |ids| && LoneEdge(ends, deleted, v, ids[at])
    ensures !found ==> NoLone(ends, deleted, v)
  {
    if found {
      OneLeft(ends, deleted, v, ids, at);
    } else {
      NothingLeft(ends, deleted, v, ids);
    }
  }

  lemma TwoLeft(ends: seq<Edge>, deleted: seq<bool>, v: nat, ids: seq<nat>, i: nat, j: nat)
    requires |ends| == |deleted| && EdgesAt(ends, v, ids) && i < j < |ids|
    requires !deleted[ids[i]] && !deleted[ids[j]]
    ensures NoLone(ends, deleted, v)
  {
    assert ids[i] != ids[j];
  }

  // ---------- the class ----------

  /** `graph_t`, as far as the two algorithms use it */
  class Graph {
    const nnodes: nat
    const nedges: nat
    const edges: array<nat>
    const first: array<nat>
    const next: array<nat>
    var cedges: nat

    function View(): HalfEdges
      reads this, edges, first, next
    {
      HalfEdges(nedges, first[..], next[..], edges[..])
    }

    /** The arrays are separate, and have their sizes; half-edges are not mistaken for `EMPTY`. */
    ghost predicate Allocated() {
      && edges != first && edges != next && first != next
      && first.Length == nnodes && edges.Length == next.Length == 2 * nedges <= EMPTY
    }

    ghost predicate Holds(ends: seq<Edge>, adj: seq<seq<nat>>)
      reads this, edges, first, next
    {
      Allocated() && |ends| == cedges && Represents(View(), ends, adj)
    }

    lemma FewEdges(ends: seq<Edge>, adj: seq<seq<nat>>)
      requires Holds(ends, adj)
      ensures |ends| <= nedges < EMPTY && EdgesOk(ends, nnodes)
    {
    }

    /** `graph_new` without its call of `graph_clear_edges` */
    constructor (nnodes: nat, nedges: nat)
      requires 2 * nedges <= EMPTY
      ensures Allocated() && this.nnodes == nnodes && this.nedges == nedges
      ensures fresh(edges) && fresh(first) && fresh(next)
    {
      this.nnodes, this.nedges, this.cedges := nnodes, nedges, 0;
      edges := new nat[2 * nedges];
      first := new nat[nnodes];
      next := new nat[2 * nedges];
    }

    /** `graph_clear_edges` */
    method ClearEdges()
      requires Allocated()
      modifies this, edges, first, next
      ensures Holds([], seq(nnodes, _ => []))
    {
      for i := 0 to nnodes
        invariant forall v :: 0 <= v < i ==> first[v] == EMPTY
      {
        first[i] := EMPTY;
      }
      for i := 0 to 2 * nedges
        invariant forall v :: 0 <= v < nnodes ==> first[v] == EMPTY
      {
        edges[i] := EMPTY;
        next[i] := EMPTY;
      }
      cedges := 0;
      assert forall v :: 0 <= v < nnodes ==> ListOk(View(), [], v, []);
    }

    /** `graph_add_edge` */
    method AddEdge(v1: nat, v2: nat, ghost ends: seq<Edge>, ghost adj: seq<seq<nat>>)
      requires Holds(ends, adj) && cedges < nedges && EdgeOk(Edge(v1, v2), nnodes)
      modifies this, edges, first, next
      ensures Holds(ends + [Edge(v1, v2)], LinkedAdj(adj, old(cedges), Edge(v1, v2), nedges))
    {
      ghost var s := View();
      LinkedGraph(s, ends, adj, Edge(v1, v2));
      hide Represents;
      var e := cedges;
      next[e] := first[v1];
      first[v1] := e;
      edges[e] := v2;
      next[e + nedges] := first[v2];
      first[v2] := e + nedges;
      edges[e + nedges] := v1;
      cedges := cedges + 1;
      assert first[..] == s.first[v1 := e][v2 := e + nedges];
      assert next[..] == s.next[e := s.first[v1]][e + nedges := s.first[v2]];
      assert edges[..] == s.edges[e := v2][e + nedges := v1];
    }

    lemma IdsHold(v: nat, ends: seq<Edge>, adj: seq<seq<nat>>)
      requires Holds(ends, adj) && v < nnodes
      ensures |adj| == nnodes && EdgesAt(ends, v, Ids(adj[v], nedges))
      ensures if adj[v] == [] then first[v] == EMPTY else first[v] == adj[v][0] != EMPTY
    {
      assert ListOk(View(), ends, v, adj[v]);
      assert adj[v] != [] ==> adj[v][0] in adj[v];
      IdsAt(ends, nedges, nnodes, v, adj[v]);
    }

    lemma LinkAt(v: nat, p: nat, ends: seq<Edge>, adj: seq<seq<nat>>)
      requires Holds(ends, adj) && v < nnodes && p < |adj[v]|
      ensures adj[v][p] < 2 * nedges
      ensures if p + 1 < |adj[v]| then next[adj[v][p]] == adj[v][p + 1] != EMPTY else next[adj[v][p]] == EMPTY
      ensures AbsEdge(adj[v][p], 0, nedges) == Ids(adj[v], nedges)[p] < |ends|
      ensures EdgeOk(ends[Ids(adj[v], nedges)[p]], nnodes)
      ensures ends[Ids(adj[v], nedges)[p]].Has(v) && edges[adj[v][p]] == ends[Ids(adj[v], nedges)[p]].Other(v) != v
    {
      assert ListOk(View(), ends, v, adj[v]) && adj[v][p] in adj[v];
      assert p + 1 < |adj[v]| ==> adj[v][p + 1] in adj[v];
      assert LinkOk(next[..], adj[v], p);
      assert EdgeOk(ends[Ids(adj[v], nedges)[p]], nnodes);
    }

    /** `find_degree1_edge`: whether a vertex has just one edge left, and the half-edge that starts there */
    method FindDegree1Edge(v: nat, deleted: array<bool>, ghost ends: seq<Edge>, ghost adj: seq<seq<nat>>)
      returns (found: bool, e: nat)
      requires Holds(ends, adj) && v < nnodes && deleted.Length == nedges == |ends|
      ensures found ==> e < 2 * nedges && LoneEdge(ends, deleted[..], v, AbsEdge(e, 0, nedges))
      ensures !found ==> NoLone(ends, deleted[..], v)
    {
      ghost var list, ids := adj[v], Ids(adj[v], nedges);
      IdsHold(v, ends, adj);
      hide EdgesAt, NoLone, LoneEdge, Represents, Ids, AbsEdge, OnlyLive, NoneLive, Counted;
      var edge := first[v];
      found, e := false, 0;
      NothingCounted(ids, deleted[..], 0);
      if edge == EMPTY {
        LoneDecided(ends, deleted[..], v, ids, false, 0);
        return;
      }
      ghost var p, at := 0, 0;
      LinkAt(v, p, ends, adj);
      CountMore(ids, deleted[..], p, found, at);
      if !deleted[AbsEdge(edge, 0, nedges)] {
        found, e := true, edge;
      }
      while true
        invariant p < |list| && edge == list[p]
        invariant Counted(ids, deleted[..], p + 1, found, at) && (found ==> at <= p && e == list[at])
        decreases |list| - p
      {
        LinkAt(v, p, ends, adj);
        edge := next[edge];
        if edge == EMPTY {
          break;
        }
        p := p + 1;
        LinkAt(v, p, ends, adj);
        CountMore(ids, deleted[..], p, found, at);
        if deleted[AbsEdge(edge, 0, nedges)] {
          continue;
        }
        if found {
          TwoLeft(ends, deleted[..], v, ids, at, p);
          return false, e;
        }
        e, at, found := edge, p, true;
      }
      LoneDecided(ends, deleted[..], v, ids, found, at);
      if found {
        LinkAt(v, at, ends, adj);
      }
    }

    /** `cyclic_del_edge`: delete the lone edge of a vertex, and go on from its other end while that has
        only one edge left. */
    method CyclicDelEdge(v: nat, deleted: array<bool>, ghost ends: seq<Edge>, ghost adj: seq<seq<nat>>)
      requires Holds(ends, adj) && v < nnodes && deleted.Length == nedges == |ends|
      requires KeepsCores(ends, deleted[..]) && forall u :: 0 <= u < v ==> NoLone(ends, deleted[..], u)
      modifies deleted
      ensures KeepsCores(ends, deleted[..]) && forall u :: 0 <= u <= v ==> NoLone(ends, deleted[..], u)
    {
      hide KeepsCores, NoLone, LoneEdge;
      var v1: nat := v;
      var degree1: bool, e: nat := FindDegree1Edge(v1, deleted, ends, adj);
      if !degree1 {
        return;
      }
      while true
        invariant v1 < nnodes && e < 2 * nedges && LoneEdge(ends, deleted[..], v1, AbsEdge(e, 0, nedges))
        invariant KeepsCores(ends, deleted[..])
        invariant forall u :: 0 <= u <= v && u != v1 ==> NoLone(ends, deleted[..], u)
        decreases Live(deleted[..])
      {
        var v2 := DeleteEdge(v1, e, deleted, v, ends, adj);
        degree1, e := FindDegree1Edge(v2, deleted, ends, adj);
        if degree1 {
          v1 := v2;
        } else {
          break;
        }
      }
    }

    /** The deletion in the loop of `cyclic_del_edge`, and the step to the other end */
    method DeleteEdge(v1: nat, e: nat, deleted: array<bool>, ghost v: nat, ghost ends: seq<Edge>,
                      ghost adj: seq<seq<nat>>)
      returns (v2: nat)
      requires Holds(ends, adj) && v1 < nnodes && deleted.Length == nedges == |ends|
      requires e < 2 * nedges && LoneEdge(ends, deleted[..], v1, AbsEdge(e, 0, nedges))
      requires KeepsCores(ends, deleted[..])
      requires forall u :: 0 <= u <= v && u != v1 ==> NoLone(ends, deleted[..], u)
      modifies deleted
      ensures KeepsCores(ends, deleted[..]) && v2 < nnodes
      ensures forall u :: 0 <= u <= v && u != v2 ==> NoLone(ends, deleted[..], u)
      ensures Live(deleted[..]) < old(Live(deleted[..]))
    {
      ghost var before := deleted[..];
      var id := AbsEdge(e, 0, nedges);
      DeleteLone(ends, before, v1, id);
      assert EdgeOk(ends[id], nnodes);
      deleted[id] := true;
      assert deleted[..] == before[id := true];
      v2 := edges[id];
      if v2 == v1 {
        v2 := edges[AbsEdge(e, 1, nedges)];
      }
      assert v2 == ends[id].Other(v1);
      forall u | 0 <= u <= v && u != v2
        ensures NoLone(ends, deleted[..], u)
      {
        assert u != v1 ==> !ends[id].Has(u);
      }
      assert id in Live(before) && id !in Live(deleted[..]);
    }

    /** The pass over the vertices in `graph_is_cyclic` and `graph_obtain_critical_nodes` */
    method DeleteForest(ghost ends: seq<Edge>, ghost adj: seq<seq<nat>>) returns (deleted: array<bool>)
      requires Holds(ends, adj) && nedges == |ends|
      ensures fresh(deleted) && deleted.Length == nedges
      ensures Core(ends, Live(deleted[..]))
      ensures forall e :: 0 <= e < nedges ==> (!deleted[e] <==> InTwoCore(ends, e))
    {
      deleted := new bool[nedges](_ => false);
      hide NoLone, LoneEdge, InTwoCore;
      for v := 0 to nnodes
        invariant KeepsCores(ends, deleted[..]) && forall u :: 0 <= u < v ==> NoLone(ends, deleted[..], u)
      {
        CyclicDelEdge(v, deleted, ends, adj);
      }
      RestIsTwoCore(ends, deleted[..], nnodes);
    }

    /** `graph_is_cyclic`, on a graph with all its edges added */
    method IsCyclic(ghost ends: seq<Edge>, ghost adj: seq<seq<nat>>) returns (cyclic: bool)
      requires Holds(ends, adj) && nedges == |ends|
      ensures cyclic <==> !Acyclic(ends)
    {
      var deleted := DeleteForest(ends, adj);
      TwoCoreDecides(ends, deleted[..]);
      for i := 0 to nedges
        invariant forall e :: 0 <= e < i ==> deleted[e]
      {
        if !deleted[i] {
          return true;
        }
      }
      return false;
    }

    /** `check_edge` */
    function CheckEdge(e: nat, v1: nat, v2: nat): (r: bool)
      requires e < 2 * nedges && edges.Length == 2 * nedges
      reads edges
    {
      var e0, e1 := edges[AbsEdge(e, 0, nedges)], edges[AbsEdge(e, 1, nedges)];
      (e0 == v1 && e1 == v2) || (e0 == v2 && e1 == v1)
    }

    /** `graph_edge_id`: an edge that joins the two vertices */
    method EdgeId(v1: nat, v2: nat, ghost ends: seq<Edge>, ghost adj: seq<seq<nat>>, ghost joining: nat)
      returns (id: nat)
      requires Holds(ends, adj) && v1 < nnodes && joining < |ends| && Joins(ends[joining], v1, v2)
      ensures id < |ends| && Joins(ends[id], v1, v2)
    {
      ghost var list, ids := adj[v1], Ids(adj[v1], nedges);
      IdsHold(v1, ends, adj);
      assert joining in ids;
      ghost var q :| 0 <= q < |ids| && ids[q] == joining;
      hide EdgesAt, Represents, Ids, Joins, CheckEdge, AbsEdge, StandsAt;
      var e := first[v1];
      LookAt(v1, v2, 0, ends, adj);
      if CheckEdge(e, v1, v2) {
        return AbsEdge(e, 0, nedges);
      }
      e := next[e];
      ghost var p := 1;
      LookAt(v1, v2, p, ends, adj);
      while !CheckEdge(e, v1, v2)
        invariant p <= q && e == list[p] < 2 * nedges && AbsEdge(e, 0, nedges) == ids[p] < |ends|
        invariant CheckEdge(e, v1, v2) <==> Joins(ends[ids[p]], v1, v2)
        invariant p < q ==> next[e] == list[p + 1]
        decreases q - p
      {
        e := next[e];
        p := p + 1;
        LookAt(v1, v2, p, ends, adj);
      }
      return AbsEdge(e, 0, nedges);
    }

    /** The iterator stands at place `p` of the list of its vertex. */
    ghost predicate StandsAt(it: GraphIterator, list: seq<nat>, p: nat) {
      p <= |list| && it.edge == if p < |list| then list[p] else EMPTY
    }

    /** `graph_neighbors_it` */
    method NeighborsIt(v: nat, ghost ends: seq<Edge>, ghost adj: seq<seq<nat>>) returns (it: GraphIterator)
      requires Holds(ends, adj) && v < nnodes
      ensures it.vertex == v && StandsAt(it, adj[v], 0)
    {
      IdsHold(v, ends, adj);
      it := GraphIterator(v, first[v]);
    }

    /** What a half-edge names, unless that is the vertex itself. The second half-edge of a loop would lead out
        of the array. */
    method OtherEnd(h: nat, v: nat) returns (w: nat)
      requires h < edges.Length && (edges[h] == v ==> h + nedges < edges.Length)
      ensures w == if edges[h] == v then edges[h + nedges] else edges[h]
    {
      if edges[h] == v {
        w := edges[h + nedges];
      } else {
        w := edges[h];
      }
    }

    /** `graph_next_neighbor`: the other end of the edge that the iterator stands at */
    method NextNeighbor(it: GraphIterator, ghost ends: seq<Edge>, ghost adj: seq<seq<nat>>, ghost p: nat)
      returns (ret: nat, it': GraphIterator)
      requires Holds(ends, adj) && it.vertex < nnodes <= NO_NEIGHBOR && StandsAt(it, adj[it.vertex], p)
      ensures p == |adj[it.vertex]| <==> ret == NO_NEIGHBOR
      ensures p < |adj[it.vertex]| ==>
                && it'.vertex == it.vertex && StandsAt(it', adj[it.vertex], p + 1) && ret < nnodes
                && var id := Ids(adj[it.vertex], nedges)[p];
                   id < |ends| && Joins(ends[id], it.vertex, ret)
    {
      if it.edge == EMPTY {
        assert p < |adj[it.vertex]| ==>
            ListOk(View(), ends, it.vertex, adj[it.vertex]) && LinkOk(next[..], adj[it.vertex], p);
        return NO_NEIGHBOR, it;
      }
      LinkAt(it.vertex, p, ends, adj);
      hide Represents, Ids;
      ret := OtherEnd(it.edge, it.vertex);
      it' := it.(edge := next[it.edge]);
    }

    /** `graph_contains_edge` */
    method ContainsEdge(v1: nat, v2: nat, ghost ends: seq<Edge>, ghost adj: seq<seq<nat>>) returns (r: bool)
      requires Holds(ends, adj) && v1 < nnodes
      ensures r <==> AreJoined(ends, v1, v2)
    {
      ghost var list, ids := adj[v1], Ids(adj[v1], nedges);
      hide EdgesAt, Represents, Ids, CheckEdge, AbsEdge, NoJoin, AreJoined;
      IdsHold(v1, ends, adj);
      var e := first[v1];
      if e == EMPTY {
        NoneJoins(ends, v1, v2, ids);
        return false;
      }
      ghost var p := 0;
      NoneSoFar(ends, v1, v2, ids);
      CheckAt(v1, v2, p, ends, adj);
      if CheckEdge(e, v1, v2) {
        return true;
      }
      while true
        invariant p < |list| && e == list[p] < next.Length && NoJoin(ends, v1, v2, ids, p + 1)
        invariant next[e] == if p + 1 < |list| then list[p + 1] else EMPTY
        invariant p + 1 < |list| ==> list[p + 1] != EMPTY
        decreases |list| - p
      {
        e := next[e];
        if e == EMPTY {
          NoneJoins(ends, v1, v2, ids);
          return false;
        }
        p := p + 1;
        CheckAt(v1, v2, p, ends, adj);
        if CheckEdge(e, v1, v2) {
          return true;
        }
      }
    }

    /** What a look at an edge of the list tells, and where the next one is */
    lemma LookAt(v1: nat, v2: nat, p: nat, ends: seq<Edge>, adj: seq<seq<nat>>)
      requires Holds(ends, adj) && v1 < nnodes && p < |adj[v1]|
      ensures adj[v1][p] < 2 * nedges && AbsEdge(adj[v1][p], 0, nedges) == Ids(adj[v1], nedges)[p] < |ends|
      ensures CheckEdge(adj[v1][p], v1, v2) <==> Joins(ends[Ids(adj[v1], nedges)[p]], v1, v2)
      ensures next[adj[v1][p]] == if p + 1 < |adj[v1]| then adj[v1][p + 1] else EMPTY
      ensures p + 1 < |adj[v1]| ==> adj[v1][p + 1] != EMPTY
    {
      var h := adj[v1][p];
      hide Represents, Ids, Joins, CheckEdge, AbsEdge;
      LinkAt(v1, p, ends, adj);
      CheckIsJoins(h, v1, v2, ends, adj);
    }

    /** The same, when none of the edges before joins the two vertices */
    lemma CheckAt(v1: nat, v2: nat, p: nat, ends: seq<Edge>, adj: seq<seq<nat>>)
      requires Holds(ends, adj) && v1 < nnodes && p < |adj[v1]| && NoJoin(ends, v1, v2, Ids(adj[v1], nedges), p)
      ensures adj[v1][p] < 2 * nedges
      ensures CheckEdge(adj[v1][p], v1, v2) ==> AreJoined(ends, v1, v2)
      ensures !CheckEdge(adj[v1][p], v1, v2) ==> NoJoin(ends, v1, v2, Ids(adj[v1], nedges), p + 1)
      ensures next[adj[v1][p]] == if p + 1 < |adj[v1]| then adj[v1][p + 1] else EMPTY
      ensures p + 1 < |adj[v1]| ==> adj[v1][p + 1] != EMPTY
    {
      hide Represents, Ids, Joins, CheckEdge, AbsEdge;
      LookAt(v1, v2, p, ends, adj);
    }

    lemma CheckIsJoins(e: nat, v1: nat, v2: nat, ends: seq<Edge>, adj: seq<seq<nat>>)
      requires Holds(ends, adj) && e < 2 * nedges && AbsEdge(e, 0, nedges) < |ends|
      ensures CheckEdge(e, v1, v2) <==> Joins(ends[AbsEdge(e, 0, nedges)], v1, v2)
    {
    }

    /** `graph_obtain_critical_nodes`: the vertices of the 2-core, and their number. They are fields of the graph in
        the source. */
    method ObtainCriticalNodes(ghost ends: seq<Edge>, ghost adj: seq<seq<nat>>)
      returns (critical: array<bool>, ncritical: nat, ghost core: set<nat>)
      requires Holds(ends, adj) && nedges == |ends|
      ensures fresh(critical) && critical.Length == nnodes && ncritical == |Trues(critical[..])|
      ensures Core(ends, core) && forall e :: e in core <==> 0 <= e < |ends| && InTwoCore(ends, e)
      ensures CriticalNodes(ends, core, critical[..])
    {
      hide Represents, InTwoCore, Core, EndsBefore, CriticalNodes, Live, Trues;
      var deleted := DeleteForest(ends, adj);
      ghost var del := deleted[..];
      core := Live(del);
      critical := new bool[nnodes](_ => false);
      ncritical := 0;
      NoTrues(critical[..]);
      NoEnds(ends, deleted[..], critical[..]);
      TwoCoreSet(ends, deleted[..]);
      for i := 0 to nedges
        invariant ncritical == |Trues(critical[..])|
        invariant EndsBefore(ends, deleted[..], critical[..], i)
        modifies critical
      {
        ncritical := MarkEnds(critical, i, deleted[..], ncritical, ends, adj);
      }
      assert deleted[..] == del;
      AllEnds(ends, del, critical[..]);
    }

    /** The body of its second loop */
    method MarkEnds(critical: array<bool>, i: nat, deleted: seq<bool>, n: nat, ghost ends: seq<Edge>,
                    ghost adj: seq<seq<nat>>)
      returns (n': nat)
      requires Holds(ends, adj) && i < |ends| == |deleted| && critical.Length == nnodes && n == |Trues(critical[..])|
      requires EndsBefore(ends, deleted, critical[..], i)
      modifies critical
      ensures n' == |Trues(critical[..])| && EndsBefore(ends, deleted, critical[..], i + 1)
    {
      ghost var before := critical[..];
      EndsOfOneMore(ends, deleted, before, i);
      EdgeInArrays(ends, adj, i);
      hide Represents, EndsBefore;
      n' := n;
      if !deleted[i] {
        n' := MarkCritical(critical, edges[i], n');
        n' := MarkCritical(critical, edges[i + nedges], n');
        assert critical[..] == before[ends[i].b := true][ends[i].a := true];
      } else {
        assert critical[..] == before;
      }
    }

    lemma EdgeInArrays(ends: seq<Edge>, adj: seq<seq<nat>>, e: nat)
      requires Holds(ends, adj) && e < |ends|
      ensures e < nedges && edges[e] == ends[e].b && edges[e + nedges] == ends[e].a && EdgeOk(ends[e], nnodes)
    {
    }
  }

  method MarkCritical(critical: array<bool>, v: nat, n: nat) returns (n': nat)
    requires v < critical.Length && n == |Trues(critical[..])|
    modifies critical
    ensures critical[..] == old(critical[..])[v := true] && n' == |Trues(critical[..])|
  {
    ghost var before := critical[..];
    n' := n;
    if !critical[v] {
      OneMoreTrue(before, v);
      n' := n' + 1;
      critical[v] := true;
    }
    assert critical[..] == before[v := true];
  }

  ghost function Trues(s: seq<bool>): (r: set<nat>)
    ensures forall v: nat :: v in r <==> v < |s| && s[v]
  {
    set v: nat | v < |s| && s[v]
  }

  lemma NoTrues(s: seq<bool>)
    requires forall v :: 0 <= v < |s| ==> !s[v]
    ensures |Trues(s)| == 0
  {
    assert Trues(s) == {};
  }

  lemma OneMoreTrue(s: seq<bool>, v: nat)
    requires v < |s| && !s[v]
    ensures |Trues(s[v := true])| == |Trues(s)| + 1
  {
    assert Trues(s[v := true]) == Trues(s) + {v};
  }

  /** One of the first `k` edges is left, and has the vertex. */
  ghost predicate EndBefore(ends: seq<Edge>, deleted: seq<bool>, v: nat, k: nat) {
    exists e :: 0 <= e < k && e < |ends| && e < |deleted| && !deleted[e] && ends[e].Has(v)
  }

  ghost predicate EndsBefore(ends: seq<Edge>, deleted: seq<bool>, critical: seq<bool>, k: nat) {
    forall v :: 0 <= v < |critical| ==> (critical[v] <==> EndBefore(ends, deleted, v, k))
  }

  lemma EndsOfOneMore(ends: seq<Edge>, deleted: seq<bool>, critical: seq<bool>, k: nat)
    requires k < |ends| == |deleted| && EdgeOk(ends[k], |critical|) && EndsBefore(ends, deleted, critical, k)
    ensures EndsBefore(ends, deleted, if deleted[k] then critical else critical[ends[k].b := true][ends[k].a := true],
                       k + 1)
  {
    var critical' := if deleted[k] then critical else critical[ends[k].b := true][ends[k].a := true];
    forall v | 0 <= v < |critical|
      ensures critical'[v] <==> EndBefore(ends, deleted, v, k + 1)
    {
      assert critical[v] <==> EndBefore(ends, deleted, v, k);
      if EndBefore(ends, deleted, v, k + 1) {
        var e :| 0 <= e < k + 1 && !deleted[e] && ends[e].Has(v);
        assert e == k || EndBefore(ends, deleted, v, k);
      }
    }
  }

  lemma NoEnds(ends: seq<Edge>, deleted: seq<bool>, critical: seq<bool>)
    requires forall v :: 0 <= v < |critical| ==> !critical[v]
    ensures EndsBefore(ends, deleted, critical, 0)
  {
  }

  lemma TwoCoreSet(ends: seq<Edge>, deleted: seq<bool>)
    requires |ends| == |deleted|
    requires forall e :: 0 <= e < |ends| ==> (!deleted[e] <==> InTwoCore(ends, e))
    ensures forall e :: e in Live(deleted) <==> 0 <= e < |ends| && InTwoCore(ends, e)
  {
  }

  lemma AllEnds(ends: seq<Edge>, deleted: seq<bool>, critical: seq<bool>)
    requires |ends| == |deleted|
    requires EndsBefore(ends, deleted, critical, |ends|)
    ensures CriticalNodes(ends, Live(deleted), critical)
  {
    forall v: nat | v < |critical|
      ensures critical[v] <==> EndOf(ends, Live(deleted), v)
    {
      if EndBefore(ends, deleted, v, |ends|) {
        var e :| 0 <= e < |ends| && !deleted[e] && ends[e].Has(v);
        assert e in Live(deleted);
      }
    }
  }

  /** One of these edges has the vertex. */
  ghost predicate EndOf(ends: seq<Edge>, edges: set<nat>, v: nat) {
    exists e :: e in edges && e < |ends| && ends[e].Has(v)
  }

  /** The vertices of the 2-core are marked. */
  ghost predicate CriticalNodes(ends: seq<Edge>, core: set<nat>, critical: seq<bool>) {
    forall v: nat :: v < |critical| ==> (critical[v] <==> EndOf(ends, core, v))
  }

  /** None of the first `k` edges of a list joins the two vertices. */
  ghost predicate NoJoin(ends: seq<Edge>, v1: nat, v2: nat, ids: seq<nat>, k: nat) {
    k <= |ids| && forall j :: 0 <= j < k ==> ids[j] < |ends| && !Joins(ends[ids[j]], v1, v2)
  }

  lemma NoneSoFar(ends: seq<Edge>, v1: nat, v2: nat, ids: seq<nat>)
    ensures NoJoin(ends, v1, v2, ids, 0)
  {
  }

  lemma NoneJoins(ends: seq<Edge>, v1: nat, v2: nat, ids: seq<nat>)
    requires EdgesAt(ends, v1, ids) && NoJoin(ends, v1, v2, ids, |ids|)
    ensures !AreJoined(ends, v1, v2)
  {
    forall e | 0 <= e < |ends|
      ensures !Joins(ends[e], v1, v2)
    {
      assert ends[e].Has(v1) ==> e in ids;
    }
  }
}
