/**
 The 3-uniform hypergraph of BDZ (bdz.c): every vertex heads a linked list of its
 edges, and every edge carries three links, one for the list of each of its vertices.
 */
module Hypergraph {
  import opened Counting

  const NULL_EDGE: nat := 0xffff_ffff

  /** The three vertices, or the three links, of an edge */
  datatype Triple = Triple(x0: nat, x1: nat, x2: nat) {
    function At(i: nat): nat
      requires i < 3
    {
      if i == 0 then x0 else if i == 1 then x1 else x2
    }

    function With(i: nat, x: nat): Triple
      requires i < 3
    {
      if i == 0 then this.(x0 := x) else if i == 1 then this.(x1 := x) else this.(x2 := x)
    }

    predicate Has(v: nat) {
      x0 == v || x1 == v || x2 == v
    }

    /** Which link of an edge belongs to the list of `v` */
    function Side(v: nat): (i: nat)
      ensures i < 3
      ensures Has(v) ==> At(i) == v
    {
      if x0 == v then 0 else if x1 == v then 1 else 2
    }
  }

  /** The vertices of an edge come from three separate ranges, so they are different. */
  ghost predicate EdgeOk(t: Triple, n: nat) {
    t.x0 < n && t.x1 < n && t.x2 < n && t.x0 != t.x1 && t.x0 != t.x2 && t.x1 != t.x2
  }

  // ---------- the state as a value ----------

  datatype Links = Links(verts: seq<Triple>, next: seq<Triple>, first: seq<nat>)

  /** The link that leads from edge `e` onwards in the list of `v` */
  function NextOf(g: Links, e: nat, v: nat): nat
    requires e < |g.verts| == |g.next|
  {
    g.next[e].At(g.verts[e].Side(v))
  }

  /** Edge `j` of a list is one of `v`'s, and links to the next. */
  ghost predicate LinkOk(g: Links, v: nat, list: seq<nat>, j: nat)
    requires j < |list|
  {
    && list[j] < |g.verts| == |g.next|
    && g.verts[list[j]].Has(v)
    && NextOf(g, list[j], v) == if j + 1 < |list| then list[j + 1] else NULL_EDGE
  }

  /** The list of vertex `v` */
  ghost predicate ListOk(g: Links, v: nat, list: seq<nat>) {
    && v < |g.first|
    && g.first[v] == (if list == [] then NULL_EDGE else list[0])
    && Distinct(list)
    && forall j :: 0 <= j < |list| ==> LinkOk(g, v, list, j)
  }

  /** All the lists, and the shape of the edges */
  ghost predicate GraphOk(g: Links, nedges: nat, adj: seq<seq<nat>>) {
    && |adj| == |g.first| && nedges <= |g.verts| == |g.next| <= NULL_EDGE
    && (forall e :: 0 <= e < nedges ==> EdgeOk(g.verts[e], |g.first|))
    && (forall v :: 0 <= v < |adj| ==> VertexOk(g, nedges, v, adj[v]))
  }

  ghost predicate VertexOk(g: Links, nedges: nat, v: nat, list: seq<nat>) {
    ListOk(g, v, list) && forall j :: 0 <= j < |list| ==> list[j] < nedges
  }

  /** The edges in the graph are exactly those of `alive`, each in the lists of its three vertices. */
  ghost predicate Contains(verts: seq<Triple>, adj: seq<seq<nat>>, alive: set<nat>) {
    && (forall e :: e in alive ==> e < |verts|)
    && forall e: nat, v {:trigger e in adj[v]} :: 0 <= v < |adj| ==>
                                                    (e in adj[v] <==> e in alive && verts[e].Has(v))
  }

  // ---------- unlinking ----------

  function Without(list: seq<nat>, p: nat): (r: seq<nat>)
    requires p < |list|
    ensures |r| == |list| - 1
  {
    list[..p] + list[p + 1..]
  }

  /** The links after the edge at place `p` of the list of `v` is taken out */
  function Unlinked(g: Links, v: nat, list: seq<nat>, p: nat): Links
    requires p < |list| && |g.verts| == |g.next| && v < |g.first|
    requires forall j :: 0 <= j < |list| ==> list[j] < |g.verts|
  {
    var after := NextOf(g, list[p], v);
    if p == 0 then
      g.(first := g.first[v := after])
    else
      var prev := list[p - 1];
      g.(next := g.next[prev := g.next[prev].With(g.verts[prev].Side(v), after)])
  }

  lemma UnlinkedList(g: Links, v: nat, list: seq<nat>, p: nat)
    requires p < |list| && |g.verts| == |g.next| && ListOk(g, v, list)
    requires forall j :: 0 <= j < |list| ==> list[j] < |g.verts|
    ensures ListOk(Unlinked(g, v, list, p), v, Without(list, p))
  {
    var g', list' := Unlinked(g, v, list, p), Without(list, p);
    assert LinkOk(g, v, list, p);
    forall j | 0 <= j < |list'|
      ensures LinkOk(g', v, list', j)
    {
      assert LinkOk(g, v, list, if j < p then j else j + 1);
      if p >= 1 {
        assert LinkOk(g, v, list, p - 1);
      }
    }
  }

  lemma UnlinkedOther(g: Links, v: nat, list: seq<nat>, p: nat, w: nat, other: seq<nat>)
    requires p < |list| && |g.verts| == |g.next| && ListOk(g, v, list) && ListOk(g, w, other) && v != w
    requires forall j :: 0 <= j < |list| ==> list[j] < |g.verts| && EdgeOk(g.verts[list[j]], |g.first|)
    ensures ListOk(Unlinked(g, v, list, p), w, other)
  {
    var g' := Unlinked(g, v, list, p);
    forall j | 0 <= j < |other|
      ensures LinkOk(g', w, other, j)
    {
      assert LinkOk(g, w, other, j);
      if p >= 1 && other[j] == list[p - 1] {
        assert LinkOk(g, v, list, p - 1);
      }
    }
  }

  lemma UnlinkedGraph(g: Links, nedges: nat, adj: seq<seq<nat>>, v: nat, p: nat)
    requires GraphOk(g, nedges, adj) && v < |adj| && p < |adj[v]|
    requires forall j :: 0 <= j < |adj[v]| ==> adj[v][j] < |g.verts|
    ensures GraphOk(Unlinked(g, v, adj[v], p), nedges, adj[v := Without(adj[v], p)])
  {
    var g', adj' := Unlinked(g, v, adj[v], p), adj[v := Without(adj[v], p)];
    assert VertexOk(g, nedges, v, adj[v]);
    forall w | 0 <= w < |adj'|
      ensures VertexOk(g', nedges, w, adj'[w])
    {
      if w == v {
        UnlinkedList(g, v, adj[v], p);
      } else {
        assert VertexOk(g, nedges, w, adj[w]);
        UnlinkedOther(g, v, adj[v], p, w, adj[w]);
      }
    }
  }

  // ---------- linking ----------

  /** The links after a new edge is put in front of the lists of its vertices */
  function Linked(g: Links, e: nat, t: Triple): Links
    requires e < |g.verts| == |g.next| && t.x0 < |g.first| && t.x1 < |g.first| && t.x2 < |g.first|
  {
    Links(g.verts[e := t], g.next[e := Triple(g.first[t.x0], g.first[t.x1], g.first[t.x2])],
          g.first[t.x0 := e][t.x1 := e][t.x2 := e])
  }

  function LinkedAdj(adj: seq<seq<nat>>, e: nat, t: Triple): (r: seq<seq<nat>>)
    ensures |r| == |adj|
  {
    seq(|adj|, v requires 0 <= v < |adj| => if t.Has(v) then [e] + adj[v] else adj[v])
  }

  lemma LinkedGraph(g: Links, nedges: nat, adj: seq<seq<nat>>, t: Triple)
    requires GraphOk(g, nedges, adj) && nedges < |g.verts| && EdgeOk(t, |g.first|)
    ensures GraphOk(Linked(g, nedges, t), nedges + 1, LinkedAdj(adj, nedges, t))
  {
    var g', adj', next := Linked(g, nedges, t), LinkedAdj(adj, nedges, t), nedges + 1;
    forall v | 0 <= v < |adj'|
      ensures VertexOk(g', next, v, adj'[v])
    {
      assert VertexOk(g, nedges, v, adj[v]);
      forall j | 0 <= j < |adj'[v]|
        ensures LinkOk(g', v, adj'[v], j)
      {
        if t.Has(v) {
          if j > 0 {
            assert LinkOk(g, v, adj[v], j - 1);
          }
        } else {
          assert LinkOk(g, v, adj[v], j);
        }
      }
    }
  }

  // ---------- degrees ----------

  ghost predicate DegreesOk(degrees: seq<nat>, adj: seq<seq<nat>>) {
    |degrees| == |adj| && forall v :: 0 <= v < |adj| ==> degrees[v] == |adj[v]| % 256
  }

  function Increased(degrees: seq<nat>, t: Triple): (r: seq<nat>)
    ensures |r| == |degrees|
  {
    seq(|degrees|, v requires 0 <= v < |degrees| => if t.Has(v) then (degrees[v] + 1) % 256 else degrees[v])
  }

  lemma DegreesLinked(degrees: seq<nat>, adj: seq<seq<nat>>, e: nat, t: Triple)
    requires DegreesOk(degrees, adj)
    ensures DegreesOk(Increased(degrees, t), LinkedAdj(adj, e, t))
  {
    forall v | 0 <= v < |adj|
      ensures Increased(degrees, t)[v] == |LinkedAdj(adj, e, t)[v]| % 256
    {
      DegreeStep(|adj[v]|);
    }
  }

  /** Degrees are bytes: adding and taking away one wrap around. */
  lemma DegreeStep(k: nat)
    ensures (k % 256 + 1) % 256 == (k + 1) % 256
    ensures k >= 1 ==> (k % 256 + 255) % 256 == (k - 1) % 256
  {
  }

  lemma DegreesUnlinked(degrees: seq<nat>, adj: seq<seq<nat>>, v: nat, p: nat)
    requires DegreesOk(degrees, adj) && v < |adj| && p < |adj[v]|
    ensures DegreesOk(degrees[v := (degrees[v] + 255) % 256], adj[v := Without(adj[v], p)])
  {
    DegreeStep(|adj[v]|);
  }

  lemma WithoutElements(list: seq<nat>, p: nat, x: nat)
    requires p < |list| && Distinct(list)
    ensures x in Without(list, p) <==> x in list && x != list[p]
  {
    assert list == list[..p] + [list[p]] + list[p + 1..];
  }

  /** The list without this edge; the others stay in their order. */
  function Minus(list: seq<nat>, e: nat): (r: seq<nat>)
  {
    if list == [] then [] else if list[0] == e then Minus(list[1..], e) else [list[0]] + Minus(list[1..], e)
  }

  lemma {:induction false} MinusNone(list: seq<nat>, e: nat)
    requires e !in list
    ensures Minus(list, e) == list
  {
    if list != [] {
      MinusNone(list[1..], e);
      assert list == [list[0]] + list[1..];
    }
  }

  lemma {:induction false} MinusLength(list: seq<nat>, e: nat)
    requires Distinct(list)
    ensures |Minus(list, e)| == |list| - if e in list then 1 else 0
  {
    if list != [] {
      MinusLength(list[1..], e);
      assert list == [list[0]] + list[1..];
      assert list[0] !in list[1..];
    }
  }

  lemma {:induction false} WithoutIsMinus(list: seq<nat>, p: nat)
    requires p < |list| && Distinct(list)
    ensures Without(list, p) == Minus(list, list[p])
  {
    var rest := list[1..];
    if p == 0 {
      MinusNone(rest, list[0]);
    } else {
      WithoutIsMinus(rest, p - 1);
      assert Without(list, p) == [list[0]] + Without(rest, p - 1);
    }
  }

  /** Taking an edge out of one list */
  ghost predicate TakenOut(adj: seq<seq<nat>>, adj': seq<seq<nat>>, v: nat, e: nat) {
    && |adj'| == |adj| && v < |adj| && adj'[v] == Minus(adj[v], e)
    && (forall w :: 0 <= w < |adj| && w != v ==> adj'[w] == adj[w])
    && |adj'[v]| == |adj[v]| - 1
    && (forall x :: x in adj'[v] <==> x in adj[v] && x != e)
  }

  /** Taking an edge out of the lists of all its vertices takes it out of the graph. */
  lemma TakenOutOfAll(verts: seq<Triple>, adj0: seq<seq<nat>>, adj1: seq<seq<nat>>, adj2: seq<seq<nat>>,
                      adj3: seq<seq<nat>>, alive: set<nat>, e: nat)
    requires Contains(verts, adj0, alive) && e in alive && EdgeOk(verts[e], |adj0|)
    requires TakenOut(adj0, adj1, verts[e].x0, e)
    requires TakenOut(adj1, adj2, verts[e].x1, e)
    requires TakenOut(adj2, adj3, verts[e].x2, e)
    ensures Contains(verts, adj3, alive - {e})
    ensures forall v :: 0 <= v < |adj0| ==> |adj3[v]| == |adj0[v]| - (if verts[e].Has(v) then 1 else 0)
    ensures forall v :: 0 <= v < |adj0| ==> adj3[v] == if verts[e].Has(v) then Minus(adj0[v], e) else adj0[v]
  {
    hide Minus;
  }

  // ---------- the graph of the source ----------

  /** `bdz_graph3_t`. The degrees are bytes. */
  class Graph3 {
    var nedges: nat
    const vertices: array<Triple>
    const nextEdges: array<Triple>
    const firstEdge: array<nat>
    const vertDegree: array<nat>

    function View(): Links
      reads this, vertices, nextEdges, firstEdge
    {
      Links(vertices[..], nextEdges[..], firstEdge[..])
    }

    /** The lists and the degrees of the graph */
    ghost predicate Holds(adj: seq<seq<nat>>)
      reads this, vertices, nextEdges, firstEdge, vertDegree
    {
      && firstEdge != vertDegree && vertices != nextEdges
      && GraphOk(View(), nedges, adj)
      && DegreesOk(vertDegree[..], adj)
    }

    /** `bdz_alloc_graph3` */
    constructor (medges: nat, nvertices: nat)
      requires medges <= NULL_EDGE
      ensures Allocated() && vertices.Length == medges && firstEdge.Length == nvertices
      ensures fresh(vertices) && fresh(nextEdges) && fresh(firstEdge) && fresh(vertDegree)
    {
      nedges := 0;
      vertices := new Triple[medges](_ => Triple(0, 0, 0));
      nextEdges := new Triple[medges](_ => Triple(0, 0, 0));
      firstEdge := new nat[nvertices](_ => NULL_EDGE);
      vertDegree := new nat[nvertices](_ => 0);
    }

    /** The arrays are separate, and have their sizes. */
    ghost predicate Allocated() {
      && firstEdge != vertDegree && vertices != nextEdges
      && vertices.Length == nextEdges.Length <= NULL_EDGE && firstEdge.Length == vertDegree.Length
    }

    /** `bdz_init_graph3`: no edges, whatever was there before */
    method Init()
      requires Allocated()
      modifies this, firstEdge, vertDegree
      ensures Holds(seq(firstEdge.Length, _ => [])) && nedges == 0
    {
      for i := 0 to firstEdge.Length
        invariant forall v :: 0 <= v < i ==> firstEdge[v] == NULL_EDGE && vertDegree[v] == 0
      {
        firstEdge[i] := NULL_EDGE;
        vertDegree[i] := 0;
      }
      nedges := 0;
      assert forall v :: 0 <= v < firstEdge.Length ==> VertexOk(View(), 0, v, []);
    }

    /** `bdz_add_edge` */
    method AddEdge(v0: nat, v1: nat, v2: nat, ghost adj: seq<seq<nat>>)
      requires Holds(adj) && nedges < vertices.Length && EdgeOk(Triple(v0, v1, v2), |adj|)
      modifies this, vertices, nextEdges, firstEdge, vertDegree
      ensures Holds(LinkedAdj(adj, old(nedges), Triple(v0, v1, v2))) && nedges == old(nedges) + 1
      ensures vertices[..] == old(vertices[..])[old(nedges) := Triple(v0, v1, v2)]
    {
      ghost var g, degrees := View(), vertDegree[..];
      LinkedGraph(g, nedges, adj, Triple(v0, v1, v2));
      DegreesLinked(degrees, adj, nedges, Triple(v0, v1, v2));
      LinkEdge(v0, v1, v2);
      IncreaseDegrees(v0, v1, v2);
      nedges := nedges + 1;
    }

    method LinkEdge(v0: nat, v1: nat, v2: nat)
      requires nedges < vertices.Length == nextEdges.Length && vertices != nextEdges
      requires firstEdge != vertDegree && EdgeOk(Triple(v0, v1, v2), firstEdge.Length)
      modifies vertices, nextEdges, firstEdge
      ensures View() == Linked(old(View()), nedges, Triple(v0, v1, v2))
      ensures vertDegree[..] == old(vertDegree[..])
    {
      ghost var g := View();
      vertices[nedges] := Triple(v0, v1, v2);
      nextEdges[nedges] := Triple(firstEdge[v0], firstEdge[v1], firstEdge[v2]);
      firstEdge[v0] := nedges;
      firstEdge[v1] := nedges;
      firstEdge[v2] := nedges;
      assert vertices[..] == g.verts[nedges := Triple(v0, v1, v2)];
      assert firstEdge[..] == g.first[v0 := nedges][v1 := nedges][v2 := nedges];
    }

    method IncreaseDegrees(v0: nat, v1: nat, v2: nat)
      requires EdgeOk(Triple(v0, v1, v2), vertDegree.Length)
      modifies vertDegree
      ensures vertDegree[..] == Increased(old(vertDegree[..]), Triple(v0, v1, v2))
    {
      vertDegree[v0] := (vertDegree[v0] + 1) % 256;
      vertDegree[v1] := (vertDegree[v1] + 1) % 256;
      vertDegree[v2] := (vertDegree[v2] + 1) % 256;
    }

    /** The walk of `bdz_remove_edge` along the list of a vertex, to an edge that is in it */
    method FindInList(vert: nat, currEdge: nat, ghost list: seq<nat>) returns (edge2: nat, j: nat, ghost p: nat)
      requires vertices.Length == nextEdges.Length <= NULL_EDGE
      requires ListOk(View(), vert, list) && currEdge in list
      ensures p < |list| && list[p] == currEdge
      ensures edge2 == if p == 0 then NULL_EDGE else list[p - 1]
      ensures p > 0 ==> edge2 < vertices.Length && j == vertices[edge2].Side(vert)
    {
      var edge1 := firstEdge[vert];
      edge2, j, p := NULL_EDGE, 0, 0;
      while edge1 != currEdge && edge1 != NULL_EDGE
        invariant p < |list| && edge1 == list[p] && currEdge in list[p..]
        invariant edge2 == if p == 0 then NULL_EDGE else list[p - 1]
        invariant p > 0 ==> edge2 < vertices.Length && j == vertices[edge2].Side(vert)
        decreases |list| - p
      {
        assert LinkOk(View(), vert, list, p);
        assert list[p..] == [list[p]] + list[p + 1..];
        edge2 := edge1;
        j := vertices[edge1].Side(vert);
        edge1 := nextEdges[edge1].At(j);
        p := p + 1;
      }
      assert LinkOk(View(), vert, list, p);
    }

    /** One round of the loop of `bdz_remove_edge`: take the edge out of the list of its vertex `i` */
    method Unlink(currEdge: nat, i: nat, ghost adj: seq<seq<nat>>) returns (ghost p: nat)
      requires Holds(adj) && currEdge < nedges && i < 3
      requires currEdge in adj[vertices[currEdge].At(i)]
      modifies nextEdges, firstEdge, vertDegree
      ensures var v := vertices[currEdge].At(i);
              p < |adj[v]| && adj[v][p] == currEdge && Holds(adj[v := Without(adj[v], p)])
    {
      ghost var g := View();
      var vert := vertices[currEdge].At(i);
      assert VertexOk(g, nedges, vert, adj[vert]);
      var edge2, j;
      edge2, j, p := FindInList(vert, currEdge, adj[vert]);
      UnlinkedGraph(g, nedges, adj, vert, p);
      assert vertices[currEdge].Side(vert) == i;
      if edge2 != NULL_EDGE {
        nextEdges[edge2] := nextEdges[edge2].With(j, nextEdges[currEdge].At(i));
      } else {
        firstEdge[vert] := nextEdges[currEdge].At(i);
      }
      assert View() == Unlinked(g, vert, adj[vert], p);
      DegreesUnlinked(vertDegree[..], adj, vert, p);
      ghost var degrees := vertDegree[..];
      vertDegree[vert] := (vertDegree[vert] + 255) % 256;
      assert vertDegree[..] == degrees[vert := (degrees[vert] + 255) % 256];
    }

    /** One round, as a change of the lists */
    method RemoveFromList(currEdge: nat, i: nat, ghost adj: seq<seq<nat>>) returns (ghost adj': seq<seq<nat>>)
      requires Holds(adj) && currEdge < nedges && i < 3
      requires currEdge in adj[vertices[currEdge].At(i)]
      modifies nextEdges, firstEdge, vertDegree
      ensures Holds(adj') && TakenOut(adj, adj', vertices[currEdge].At(i), currEdge)
    {
      ghost var v := vertices[currEdge].At(i);
      assert VertexOk(View(), nedges, v, adj[v]);
      ghost var p := Unlink(currEdge, i, adj);
      adj' := adj[v := Without(adj[v], p)];
      WithoutIsMinus(adj[v], p);
      forall x
        ensures x in adj'[v] <==> x in adj[v] && x != currEdge
      {
        WithoutElements(adj[v], p, x);
      }
    }

    /** `bdz_remove_edge` */
    method RemoveEdge(currEdge: nat, ghost adj: seq<seq<nat>>, ghost alive: set<nat>)
      returns (ghost adj': seq<seq<nat>>)
      requires Holds(adj) && Contains(vertices[..], adj, alive) && currEdge in alive && currEdge < nedges
      modifies nextEdges, firstEdge, vertDegree
      ensures Holds(adj') && Contains(vertices[..], adj', alive - {currEdge})
      ensures forall v :: 0 <= v < |adj| ==>
                |adj'[v]| == |adj[v]| - (if vertices[currEdge].Has(v) then 1 else 0)
      ensures |adj'| == |adj| && forall v :: 0 <= v < |adj| ==>
                adj'[v] == if vertices[currEdge].Has(v) then Minus(adj[v], currEdge) else adj[v]
    {
      hide Minus;
      ghost var t := vertices[currEdge];
      assert EdgeOk(t, |adj|) && t.Has(t.x0) && t.Has(t.x1) && t.Has(t.x2);
      ghost var adj1 := RemoveFromList(currEdge, 0, adj);
      ghost var adj2 := RemoveFromList(currEdge, 1, adj1);
      adj' := RemoveFromList(currEdge, 2, adj2);
      TakenOutOfAll(vertices[..], adj, adj1, adj2, adj', alive, currEdge);
    }
  }
}
