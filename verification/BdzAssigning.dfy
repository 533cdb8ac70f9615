/**
 The assigning step of BDZ and BDZ_PH (bdz.c, bdz_ph.c): in reverse peeling order every
 edge gives a value to a vertex that no edge before it in this order has, so that the sum of the
 values of its vertices points at that vertex.
 */
module BdzAssigning {
  import opened Counting
  import opened Hypergraph
  import opened BdzPeeling
  import opened TwoBits

  /** The vertex that the values of an edge's vertices point at */
  function Choice(vals: seq<nat>, t: Triple): (v: nat)
    requires t.x0 < |vals| && t.x1 < |vals| && t.x2 < |vals|
    ensures t.Has(v) && v < |vals|
  {
    t.At((vals[t.x0] + vals[t.x1] + vals[t.x2]) % 3)
  }

  /** The sum of the values of the vertices other than vertex `k` of the edge */
  function OtherSum(vals: seq<nat>, t: Triple, k: nat): (s: nat)
    requires k < 3 && t.x0 < |vals| && t.x1 < |vals| && t.x2 < |vals|
  {
    if k == 0 then vals[t.x1] + vals[t.x2]
    else if k == 1 then vals[t.x0] + vals[t.x2]
    else vals[t.x0] + vals[t.x1]
  }

  /** The vertex of the edge that gets the value: the first that is not marked */
  function FirstUnmarked(marked: seq<bool>, t: Triple): (k: nat)
    requires t.x0 < |marked| && t.x1 < |marked| && t.x2 < |marked|
    ensures k < 3
  {
    if !marked[t.x0] then 0 else if !marked[t.x1] then 1 else 2
  }

  function MarkAll(marked: seq<bool>, t: Triple): (r: seq<bool>)
    requires t.x0 < |marked| && t.x1 < |marked| && t.x2 < |marked|
    ensures |r| == |marked|
  {
    marked[t.x0 := true][t.x1 := true][t.x2 := true]
  }

  /** The values after an edge has been processed */
  function WithValue(vals: seq<nat>, t: Triple, k: nat): (r: seq<nat>)
    requires k < 3 && t.x0 < |vals| && t.x1 < |vals| && t.x2 < |vals|
    requires OtherSum(vals, t, k) <= 6
    ensures |r| == |vals|
  {
    vals[t.At(k) := (6 + k - OtherSum(vals, t, k)) % 3]
  }

  /** The edge's values point at the vertex that got the value. */
  lemma ValuePoints(vals: seq<nat>, t: Triple, k: nat)
    requires k < 3 && EdgeOk(t, |vals|) && OtherSum(vals, t, k) <= 6
    ensures Choice(WithValue(vals, t, k), t) == t.At(k)
  {
    SumPoints(OtherSum(vals, t, k), k);
    var vals' := WithValue(vals, t, k);
    assert vals'[t.x0] + vals'[t.x1] + vals'[t.x2] == OtherSum(vals, t, k) + (6 + k - OtherSum(vals, t, k)) % 3;
  }

  lemma SumPoints(s: nat, k: nat)
    requires k < 3 && s <= 6
    ensures (s + (6 + k - s) % 3) % 3 == k
  {
  }

  // ---------- the state of the loop ----------

  ghost predicate EdgesOk(order: seq<Triple>, n: nat) {
    forall j :: 0 <= j < |order| ==> EdgeOk(order[j], n)
  }

  /** Vertex `k` of the edge at place `i` is in no edge after it. */
  ghost predicate NotLater(order: seq<Triple>, i: nat, k: nat)
    requires i < |order| && k < 3
  {
    forall j :: i < j < |order| ==> !order[j].Has(order[i].At(k))
  }

  /** Every edge has a vertex that is in no later edge. */
  ghost predicate Peelable(order: seq<Triple>) {
    forall i :: 0 <= i < |order| ==> NotLater(order, i, 0) || NotLater(order, i, 1) || NotLater(order, i, 2)
  }

  /** The edge at a place has been processed: its vertices are marked, and it points at an assigned one. */
  ghost predicate EdgeDone(vals: seq<nat>, marked: seq<bool>, t: Triple)
    requires EdgeOk(t, |marked|) && |marked| <= |vals|
  {
    marked[t.x0] && marked[t.x1] && marked[t.x2] && vals[Choice(vals, t)] < 3
  }

  /** Some edge from place `i` on has the vertex. */
  ghost predicate InLater(order: seq<Triple>, i: nat, v: nat) {
    exists j :: i <= j < |order| && order[j].Has(v)
  }

  /** Some edge from place `i` on points at the vertex. */
  ghost predicate PointedAt(vals: seq<nat>, order: seq<Triple>, i: nat, v: nat)
    requires EdgesOk(order, |vals|)
  {
    exists j :: i <= j < |order| && Choice(vals, order[j]) == v
  }

  lemma EdgesOkWider(order: seq<Triple>, n: nat, n': nat)
    requires EdgesOk(order, n) && n <= n'
    ensures EdgesOk(order, n')
  {
  }

  /** The edges from place `i` on have been processed, and point at different vertices. */
  ghost predicate EdgesDone(vals: seq<nat>, marked: seq<bool>, order: seq<Triple>, i: nat)
    requires EdgesOk(order, |marked|) && |marked| <= |vals|
  {
    && (forall j :: 0 <= i <= j < |order| ==> EdgeDone(vals, marked, order[j]))
    && (forall j, l :: 0 <= i <= j < l < |order| ==> Choice(vals, order[j]) != Choice(vals, order[l]))
  }

  /** A vertex is marked exactly if it is in a processed edge; unless one points at it, it is unset. */
  ghost predicate VerticesDone(vals: seq<nat>, marked: seq<bool>, order: seq<Triple>, i: nat, unset: nat)
    requires EdgesOk(order, |vals|) && |marked| <= |vals|
  {
    && (forall v :: 0 <= v < |vals| ==> vals[v] < 4)
    && (forall v :: 0 <= v < |marked| ==> (marked[v] <==> InLater(order, i, v)))
    && (forall v :: 0 <= v < |marked| && !marked[v] ==> vals[v] == unset)
    && (forall v :: 0 <= v < |marked| && vals[v] != unset ==> PointedAt(vals, order, i, v))
  }

  /** The first vertex of the edge at place `i` that is in no edge after it */
  ghost function FirstOwn(order: seq<Triple>, i: nat): (k: nat)
    requires i < |order|
    ensures k < 3
  {
    if NotLater(order, i, 0) then 0 else if NotLater(order, i, 1) then 1 else 2
  }

  /** From place `i` on, each edge picks that vertex. */
  ghost predicate PicksFirst(vals: seq<nat>, order: seq<Triple>, i: nat)
    requires EdgesOk(order, |vals|)
  {
    forall j :: i <= j < |order| ==> Choice(vals, order[j]) == order[j].At(FirstOwn(order, j))
  }

  ghost predicate AssignedFrom(vals: seq<nat>, marked: seq<bool>, order: seq<Triple>, i: nat, unset: nat) {
    && i <= |order| && |marked| <= |vals| && EdgesOk(order, |marked|) && EdgesOk(order, |vals|)
    && EdgesDone(vals, marked, order, i)
    && VerticesDone(vals, marked, order, i, unset)
    && PicksFirst(vals, order, i)
  }

  /** The next edge to process has a vertex that is not marked. */
  lemma SomeUnmarked(vals: seq<nat>, marked: seq<bool>, order: seq<Triple>, i: nat, unset: nat)
    requires Peelable(order) && 1 <= i && AssignedFrom(vals, marked, order, i, unset)
    ensures var t := order[i - 1];
            EdgeOk(t, |marked|) && !marked[t.At(FirstUnmarked(marked, t))]
  {
    hide PicksFirst, EdgeDone, PointedAt;
    var last := i - 1;
    var t := order[last];
    assert EdgeOk(t, |marked|);
    var k := if NotLater(order, last, 0) then 0 else if NotLater(order, last, 1) then 1 else 2;
    assert NotLater(order, last, k);
    assert !InLater(order, i, t.At(k));
  }

  /** Values of processed edges do not change. */
  lemma DoneEdgeKept(vals: seq<nat>, marked: seq<bool>, t: Triple, v: nat, x: nat)
    requires EdgeOk(t, |marked|) && |marked| <= |vals| && EdgeDone(vals, marked, t)
    requires v < |marked| && !marked[v]
    ensures Choice(vals[v := x], t) == Choice(vals, t) != v
    ensures vals[v := x][Choice(vals, t)] == vals[Choice(vals, t)]
  {
  }

  lemma EdgesStep(vals: seq<nat>, marked: seq<bool>, order: seq<Triple>, i: nat, k: nat)
    requires 1 <= i <= |order| && |marked| <= |vals| && EdgesOk(order, |marked|) && EdgesOk(order, |vals|)
    requires EdgesDone(vals, marked, order, i)
    requires k < 3 && !marked[order[i - 1].At(k)] && OtherSum(vals, order[i - 1], k) <= 6
    ensures EdgesDone(WithValue(vals, order[i - 1], k), MarkAll(marked, order[i - 1]), order, i - 1)
    ensures forall j :: i <= j < |order| ==>
               Choice(WithValue(vals, order[i - 1], k), order[j]) == Choice(vals, order[j])
    ensures Choice(WithValue(vals, order[i - 1], k), order[i - 1]) == order[i - 1].At(k)
  {
    var t := order[i - 1];
    var v := t.At(k);
    var vals', marked' := WithValue(vals, t, k), MarkAll(marked, t);
    ValuePoints(vals, t, k);
    forall j | i <= j < |order|
      ensures EdgeDone(vals', marked', order[j]) && Choice(vals', order[j]) == Choice(vals, order[j]) != v
    {
      assert EdgeDone(vals, marked, order[j]);
      DoneEdgeKept(vals, marked, order[j], v, vals'[v]);
    }
  }

  lemma MarksStep(marked: seq<bool>, marked': seq<bool>, order: seq<Triple>, i: nat, first: nat)
    requires first == i - 1 && i <= |order| && EdgesOk(order, |marked|) && marked' == MarkAll(marked, order[first])
    requires forall v :: 0 <= v < |marked| ==> (marked[v] <==> InLater(order, i, v))
    ensures forall v :: 0 <= v < |marked'| ==> (marked'[v] <==> InLater(order, first, v))
  {
    forall v | 0 <= v < |marked|
      ensures marked'[v] <==> InLater(order, first, v)
    {
      assert marked[v] <==> InLater(order, i, v);
      assert order[first].Has(v) || !order[first].Has(v);
    }
  }

  lemma PointersStep(vals: seq<nat>, order: seq<Triple>, i: nat, unset: nat, k: nat, v: nat)
    requires 1 <= i <= |order| && EdgesOk(order, |vals|)
    requires k < 3 && OtherSum(vals, order[i - 1], k) <= 6
    requires forall j :: i <= j < |order| ==>
               Choice(WithValue(vals, order[i - 1], k), order[j]) == Choice(vals, order[j])
    requires Choice(WithValue(vals, order[i - 1], k), order[i - 1]) == order[i - 1].At(k)
    requires v < |vals| && (v == order[i - 1].At(k) || PointedAt(vals, order, i, v))
    ensures PointedAt(WithValue(vals, order[i - 1], k), order, i - 1, v)
  {
    hide Choice;
    var first := i - 1;
    var vals' := WithValue(vals, order[first], k);
    if v == order[first].At(k) {
      assert Choice(vals', order[first]) == v;
    } else {
      var j :| i <= j < |order| && Choice(vals, order[j]) == v;
      assert Choice(vals', order[j]) == v;
    }
  }

  lemma VerticesStep(vals: seq<nat>, marked: seq<bool>, order: seq<Triple>, i: nat, unset: nat, k: nat)
    requires 1 <= i <= |order| && |marked| <= |vals| && EdgesOk(order, |marked|) && EdgesOk(order, |vals|)
    requires VerticesDone(vals, marked, order, i, unset)
    requires k < 3 && OtherSum(vals, order[i - 1], k) <= 6
    requires forall j :: i <= j < |order| ==>
               Choice(WithValue(vals, order[i - 1], k), order[j]) == Choice(vals, order[j])
    requires Choice(WithValue(vals, order[i - 1], k), order[i - 1]) == order[i - 1].At(k)
    ensures VerticesDone(WithValue(vals, order[i - 1], k), MarkAll(marked, order[i - 1]), order, i - 1, unset)
  {
    hide Choice, InLater, PointedAt;
    var vals' := WithValue(vals, order[i - 1], k);
    MarksStep(marked, MarkAll(marked, order[i - 1]), order, i, i - 1);
    forall v | 0 <= v < |marked| && vals'[v] != unset
      ensures PointedAt(vals', order, i - 1, v)
    {
      PointersStep(vals, order, i, unset, k, v);
    }
  }

  /** The vertices that are not marked are those in no later edge. */
  lemma FirstUnmarkedIsOwn(marked: seq<bool>, order: seq<Triple>, i: nat, last: nat)
    requires last == i - 1 && i <= |order| && EdgesOk(order, |marked|)
    requires forall v :: 0 <= v < |marked| ==> (marked[v] <==> InLater(order, i, v))
    requires NotLater(order, last, 0) || NotLater(order, last, 1) || NotLater(order, last, 2)
    ensures EdgeOk(order[last], |marked|) && FirstUnmarked(marked, order[last]) == FirstOwn(order, last)
  {
    var t := order[last];
    assert EdgeOk(t, |marked|);
    forall k: nat | k < 3
      ensures NotLater(order, last, k) <==> !marked[t.At(k)]
    {
      assert marked[t.At(k)] <==> InLater(order, i, t.At(k));
    }
  }

  lemma PicksStep(vals: seq<nat>, vals': seq<nat>, order: seq<Triple>, i: nat, k: nat)
    requires 1 <= i <= |order| && |vals| == |vals'| && EdgesOk(order, |vals|)
    requires forall j :: i <= j < |order| ==> Choice(vals', order[j]) == Choice(vals, order[j])
    requires k < 3 && Choice(vals', order[i - 1]) == order[i - 1].At(k)
    requires k == FirstOwn(order, i - 1) && PicksFirst(vals, order, i)
    ensures PicksFirst(vals', order, i - 1)
  {
    hide Choice, NotLater;
  }

  /** Processing the edge at place `i - 1` */
  lemma AssignStep(vals: seq<nat>, marked: seq<bool>, order: seq<Triple>, i: nat, unset: nat)
    requires Peelable(order) && 1 <= i && unset < 4 && AssignedFrom(vals, marked, order, i, unset)
    ensures var t := order[i - 1];
            && EdgeOk(t, |marked|) && EdgeOk(t, |vals|)
            && var k := FirstUnmarked(marked, t);
               && vals[t.At(k)] == unset && OtherSum(vals, t, k) <= 6
               && AssignedFrom(WithValue(vals, t, k), MarkAll(marked, t), order, i - 1, unset)
  {
    hide Choice, EdgeDone, InLater, PointedAt, NotLater, EdgesDone, PicksFirst, FirstOwn;
    SomeUnmarked(vals, marked, order, i, unset);
    var k := FirstUnmarked(marked, order[i - 1]);
    EdgesStep(vals, marked, order, i, k);
    VerticesStep(vals, marked, order, i, unset, k);
    FirstUnmarkedIsOwn(marked, order, i, i - 1);
    PicksStep(vals, WithValue(vals, order[i - 1], k), order, i, k);
  }

  lemma NothingAssigned(vals: seq<nat>, marked: seq<bool>, order: seq<Triple>, unset: nat)
    requires |marked| <= |vals| && EdgesOk(order, |marked|) && unset < 4
    requires forall v :: 0 <= v < |vals| ==> vals[v] == unset
    requires forall v :: 0 <= v < |marked| ==> !marked[v]
    ensures AssignedFrom(vals, marked, order, |order|, unset)
  {
    EdgesOkWider(order, |marked|, |vals|);
  }

  /** What assigning promises: each edge points at a vertex of its own, and the other vertices are unset. */
  ghost predicate PointsApart(vals: seq<nat>, edges: seq<Triple>, n: nat, unset: nat) {
    && |vals| >= n && EdgesOk(edges, n) && EdgesOk(edges, |vals|)
    && (forall v :: 0 <= v < |vals| ==> vals[v] < 4)
    && (forall e :: 0 <= e < |edges| ==> vals[Choice(vals, edges[e])] < 3)
    && (forall e, f :: 0 <= e < f < |edges| ==> Choice(vals, edges[e]) != Choice(vals, edges[f]))
    && (forall v :: 0 <= v < n && vals[v] != unset ==> PointedAt(vals, edges, 0, v))
  }

  lemma AllAssigned(vals: seq<nat>, marked: seq<bool>, order: seq<Triple>, unset: nat)
    requires AssignedFrom(vals, marked, order, 0, unset)
    ensures PointsApart(vals, order, |marked|, unset) && PicksFirst(vals, order, 0)
  {
    forall e | 0 <= e < |order|
      ensures vals[Choice(vals, order[e])] < 3
    {
      assert EdgeDone(vals, marked, order[e]);
    }
  }

  // ---------- from the queue to the edges ----------

  /** The edges in the order of the queue */
  function InOrder(edges: seq<Triple>, queue: seq<nat>): (order: seq<Triple>)
    requires forall j :: 0 <= j < |queue| ==> queue[j] < |edges|
    ensures |order| == |queue|
  {
    seq(|queue|, j requires 0 <= j < |queue| => edges[queue[j]])
  }

  /** A peeling order, as the construction hands it over */
  ghost predicate PeeledOk(edges: seq<Triple>, queue: seq<nat>, n: nat) {
    && Distinct(queue) && PeelingOf(edges, queue, |edges|) && EdgesOk(edges, n)
    && forall j :: 0 <= j < |queue| ==> queue[j] < |edges|
  }

  lemma QueueIsPeelable(edges: seq<Triple>, queue: seq<nat>, n: nat)
    requires PeeledOk(edges, queue, n)
    ensures EdgesOk(InOrder(edges, queue), n) && Peelable(InOrder(edges, queue))
  {
    var order := InOrder(edges, queue);
    forall i | 0 <= i < |order|
      ensures NotLater(order, i, 0) || NotLater(order, i, 1) || NotLater(order, i, 2)
    {
      assert PeeledAt(edges, queue, |edges|, i);
      var k :| 0 <= k < 3 && FreeVertex(edges, queue, |edges|, i, edges[queue[i]].At(k));
      forall j | i < j < |order|
        ensures !order[j].Has(order[i].At(k))
      {
        LaterInQueue(queue, i, j);
      }
      assert NotLater(order, i, k);
    }
  }

  lemma LaterInQueue(queue: seq<nat>, i: nat, j: nat)
    requires Distinct(queue) && i < j < |queue|
    ensures queue[j] !in queue[..i] && queue[j] != queue[i]
  {
  }

  lemma PlaceOf(edges: seq<Triple>, queue: seq<nat>, n: nat, e: nat) returns (j: nat)
    requires PeeledOk(edges, queue, n) && e < |edges|
    ensures j < |queue| && queue[j] == e && InOrder(edges, queue)[j] == edges[e]
  {
    assert e in queue;
    j :| 0 <= j < |queue| && queue[j] == e;
  }

  /** What the edges in peeling order point at, in the order of the keys */
  lemma PointsApartInAnyOrder(vals: seq<nat>, edges: seq<Triple>, queue: seq<nat>, n: nat, unset: nat)
    requires PeeledOk(edges, queue, n) && PointsApart(vals, InOrder(edges, queue), n, unset)
    ensures PointsApart(vals, edges, n, unset)
  {
    EdgesOkWider(edges, n, |vals|);
    forall e | 0 <= e < |edges|
      ensures vals[Choice(vals, edges[e])] < 3
    {
      var j := PlaceOf(edges, queue, n, e);
    }
    forall e, f | 0 <= e < f < |edges|
      ensures Choice(vals, edges[e]) != Choice(vals, edges[f])
    {
      DifferentChoices(vals, edges, queue, n, unset, e, f);
    }
    forall v | 0 <= v < n && vals[v] != unset
      ensures PointedAt(vals, edges, 0, v)
    {
      PointedAtInAnyOrder(vals, edges, queue, n, unset, v);
    }
  }

  lemma DifferentChoices(vals: seq<nat>, edges: seq<Triple>, queue: seq<nat>, n: nat, unset: nat, e: nat, f: nat)
    requires PeeledOk(edges, queue, n) && PointsApart(vals, InOrder(edges, queue), n, unset)
    requires e < f < |edges| && EdgesOk(edges, |vals|)
    ensures Choice(vals, edges[e]) != Choice(vals, edges[f])
  {
    hide Choice;
    var order := InOrder(edges, queue);
    hide PeeledOk;
    var j := PlaceOf(edges, queue, n, e);
    var l := PlaceOf(edges, queue, n, f);
    if j < l {
      assert Choice(vals, order[j]) != Choice(vals, order[l]);
    } else {
      assert Choice(vals, order[l]) != Choice(vals, order[j]);
    }
  }

  lemma PointedAtInAnyOrder(vals: seq<nat>, edges: seq<Triple>, queue: seq<nat>, n: nat, unset: nat, v: nat)
    requires PeeledOk(edges, queue, n) && PointsApart(vals, InOrder(edges, queue), n, unset)
    requires EdgesOk(edges, |vals|) && v < n && vals[v] != unset
    ensures PointedAt(vals, edges, 0, v)
  {
    var order := InOrder(edges, queue);
    assert PointedAt(vals, order, 0, v);
    var j :| 0 <= j < |order| && Choice(vals, order[j]) == v;
    assert Choice(vals, edges[queue[j]]) == v;
  }

  // ---------- the loops ----------

  /** The marks of the vertices of one edge */
  method Mark(marked: array<bool>, t: Triple)
    requires t.x0 < marked.Length && t.x1 < marked.Length && t.x2 < marked.Length
    modifies marked
    ensures marked[..] == MarkAll(old(marked[..]), t)
  {
    marked[t.x0] := true;
    marked[t.x1] := true;
    marked[t.x2] := true;
  }

  /** The value that an edge gives to its vertex `k` */
  function NewValue(vals: seq<nat>, t: Triple, k: nat): (x: nat)
    requires k < 3 && t.x0 < |vals| && t.x1 < |vals| && t.x2 < |vals|
    requires forall v :: 0 <= v < |vals| ==> vals[v] < 4
    ensures x < 3
  {
    (6 + k - OtherSum(vals, t, k)) % 3
  }

  /** The body of the loop of bdz.c: unmarked vertices are set to `UNASSIGNED`, which changes nothing. The value is
      masked into what the vertex has, so that it is stored if the vertex is unset. */
  method AssignEdge(g: array<Byte>, marked: seq<bool>, t: Triple)
    requires EdgeOk(t, |marked|) && |marked| <= 4 * g.Length
    modifies g
    ensures var k, vals := FirstUnmarked(marked, t), old(Values(g[..]));
            Values(g[..]) == vals[t.At(k) := Anded(vals[t.At(k)], NewValue(vals, t, k))]
  {
    hide GetValue, Values;
    if !marked[t.x0] {
      if !marked[t.x1] {
        SetUnassigned(g, t.x1);
      }
      if !marked[t.x2] {
        SetUnassigned(g, t.x2);
      }
      SetValue1(g, t.x0, (6 - (GetValue(g[..], t.x1) + GetValue(g[..], t.x2))) % 3);
    } else if !marked[t.x1] {
      if !marked[t.x2] {
        SetUnassigned(g, t.x2);
      }
      SetValue1(g, t.x1, (7 - (GetValue(g[..], t.x0) + GetValue(g[..], t.x2))) % 3);
    } else {
      SetValue1(g, t.x2, (8 - (GetValue(g[..], t.x0) + GetValue(g[..], t.x1))) % 3);
    }
  }

  /** Masking with all ones changes nothing. */
  method SetUnassigned(g: array<Byte>, i: nat)
    requires i < 4 * g.Length
    modifies g
    ensures Values(g[..]) == old(Values(g[..]))
  {
    hide Values;
    SetValue1(g, i, UNASSIGNED);
  }

  /** One round of the loop of `assigning` of bdz.c. What it keeps, it keeps if each edge has a vertex that is in no
      later one. */
  method AssignOne(g: array<Byte>, marked: array<bool>, t: Triple, ghost order: seq<Triple>, ghost i: nat, n: nat)
    requires 1 <= i <= |order| && t == order[i - 1] && EdgeOk(t, n) && marked.Length == n <= 4 * g.Length
    requires Peelable(order) ==> AssignedFrom(Values(g[..]), marked[..], order, i, UNASSIGNED)
    requires PaddingUnset(Values(g[..]), n)
    modifies g, marked
    ensures Peelable(order) ==> AssignedFrom(Values(g[..]), marked[..], order, i - 1, UNASSIGNED)
    ensures PaddingUnset(Values(g[..]), n)
  {
    hide AssignedFrom, Peelable, Choice, NewValue, Values;
    ghost var vals, mk := Values(g[..]), marked[..];
    if Peelable(order) {
      AssignStep(vals, mk, order, i, UNASSIGNED);
      NewValueIsStored(vals, mk, t);
    }
    AssignEdge(g, marked[..], t);
    Mark(marked, t);
  }

  lemma NewValueIsStored(vals: seq<nat>, marked: seq<bool>, t: Triple)
    requires EdgeOk(t, |marked|) && |marked| <= |vals| && forall v :: 0 <= v < |vals| ==> vals[v] < 4
    requires OtherSum(vals, t, FirstUnmarked(marked, t)) <= 6
    ensures NewValue(vals, t, FirstUnmarked(marked, t)) ==
            WithValue(vals, t, FirstUnmarked(marked, t))[t.At(FirstUnmarked(marked, t))]
    ensures WithValue(vals, t, FirstUnmarked(marked, t)) ==
            vals[t.At(FirstUnmarked(marked, t)) := NewValue(vals, t, FirstUnmarked(marked, t))]
  {
  }

  /** The tables before the loop: no vertex is marked, and every value has all its bits set or all clear. */
  method StartAssigning(ghost order: seq<Triple>, n: nat, bit: bool) returns (g: array<Byte>, marked: array<bool>)
    requires EdgesOk(order, n)
    ensures fresh(g) && fresh(marked) && g.Length == (n + 3) / 4 && marked.Length == n
    ensures AssignedFrom(Values(g[..]), marked[..], order, |order|, if bit then UNASSIGNED else 0)
    ensures bit ==> PaddingUnset(Values(g[..]), n)
  {
    hide AssignedFrom, EdgesOk, Values;
    g := NewTable(n, bit);
    marked := new bool[n](_ => false);
    NothingAssigned(Values(g[..]), marked[..], order, if bit then UNASSIGNED else 0);
  }

  /** `assigning` of bdz.c: for a peeling order, the edges point at vertices of their own. */
  method Assigning(edges: seq<Triple>, queue: seq<nat>, n: nat) returns (g: array<Byte>)
    requires EdgesOk(edges, n) && forall j :: 0 <= j < |queue| ==> queue[j] < |edges|
    ensures fresh(g) && g.Length == (n + 3) / 4
    ensures PeeledOk(edges, queue, n) ==> PointsApart(Values(g[..]), edges, n, UNASSIGNED)
    ensures PeeledOk(edges, queue, n) ==> PicksInOrder(Values(g[..]), edges, queue)
    ensures PaddingUnset(Values(g[..]), n)
  {
    hide AssignedFrom, Peelable, PointsApart, Values, PicksFirst;
    ghost var order := InOrder(edges, queue);
    InOrderOk(edges, queue, n);
    hide PeeledOk, EdgesOk;
    var marked;
    g, marked := StartAssigning(order, n, true);
    var i := |queue|;
    while i > 0
      invariant 0 <= i <= |queue|
      invariant Peelable(order) ==> AssignedFrom(Values(g[..]), marked[..], order, i, UNASSIGNED)
      invariant PaddingUnset(Values(g[..]), n) && fresh(g) && fresh(marked) && marked.Length == n <= 4 * g.Length
    {
      assert edges[queue[i - 1]] == order[i - 1];
      AssignOne(g, marked, edges[queue[i - 1]], order, i, n);
      i := i - 1;
    }
    if PeeledOk(edges, queue, n) {
      AllAssigned(Values(g[..]), marked[..], order, UNASSIGNED);
      PointsApartInAnyOrder(Values(g[..]), edges, queue, n, UNASSIGNED);
      PicksFromQueue(Values(g[..]), edges, queue, n);
    }
  }

  /** Each edge picks the first of its vertices that is in no edge after it in the queue. */
  ghost predicate PicksInOrder(vals: seq<nat>, edges: seq<Triple>, queue: seq<nat>) {
    forall j: nat :: j < |queue| ==> PicksAt(vals, edges, queue, j)
  }

  ghost predicate PicksAt(vals: seq<nat>, edges: seq<Triple>, queue: seq<nat>, j: nat)
    requires j < |queue|
  {
    && queue[j] < |edges| && EdgeOk(edges[queue[j]], |vals|)
    && var t := edges[queue[j]];
       Choice(vals, t) == if OnlyBefore(edges, queue, j, t.x0) then t.x0
                          else if OnlyBefore(edges, queue, j, t.x1) then t.x1 else t.x2
  }

  ghost predicate OnlyBefore(edges: seq<Triple>, queue: seq<nat>, j: nat, v: nat) {
    forall l :: j < l < |queue| && queue[l] < |edges| ==> !edges[queue[l]].Has(v)
  }

  lemma PicksFromQueue(vals: seq<nat>, edges: seq<Triple>, queue: seq<nat>, n: nat)
    requires PeeledOk(edges, queue, n) && EdgesOk(InOrder(edges, queue), |vals|)
    requires PicksFirst(vals, InOrder(edges, queue), 0)
    ensures PicksInOrder(vals, edges, queue)
  {
    hide Choice, PeelingOf, Distinct;
    var order := InOrder(edges, queue);
    forall j: nat | j < |queue|
      ensures PicksAt(vals, edges, queue, j)
    {
      assert order[j] == edges[queue[j]] && EdgeOk(order[j], |vals|);
      forall k: nat | k < 3
        ensures NotLater(order, j, k) <==> OnlyBefore(edges, queue, j, order[j].At(k))
      {
        assert forall l :: j < l < |queue| ==> order[l] == edges[queue[l]];
      }
    }
  }

  /** In any order the edges stay within the vertices; in a peeling order, each has a vertex that is in no later one. */
  lemma InOrderOk(edges: seq<Triple>, queue: seq<nat>, n: nat)
    requires EdgesOk(edges, n) && forall j :: 0 <= j < |queue| ==> queue[j] < |edges|
    ensures EdgesOk(InOrder(edges, queue), n)
    ensures forall j :: 0 <= j < |queue| ==> InOrder(edges, queue)[j] == edges[queue[j]] && EdgeOk(edges[queue[j]], n)
    ensures PeeledOk(edges, queue, n) ==> Peelable(InOrder(edges, queue))
  {
    if PeeledOk(edges, queue, n) {
      QueueIsPeelable(edges, queue, n);
    }
  }

  /** Entries past the last vertex stay unset. */
  ghost predicate PaddingUnset(vals: seq<nat>, n: nat) {
    forall v :: n <= v < |vals| ==> vals[v] == UNASSIGNED
  }
}
