/**
 The peeling of BDZ (bdz.c): edges that have a vertex to themselves are queued and
 removed, which frees further vertices. As long as the bytes that count the edges are
 not misread, the queue is complete if and only if the hypergraph can be peeled at all.
 */
module BdzPeeling {
  import opened Counting
  import opened Hypergraph
  import opened BdzQueue

  // ---------- peeling orders ----------

  /** Vertex `v` of the `i`-th queued edge is in no other edge that is not queued before it. */
  ghost predicate FreeVertex(verts: seq<Triple>, queue: seq<nat>, m: nat, i: nat, v: nat)
    requires i < |queue| && m <= |verts|
  {
    && queue[i] < m && verts[queue[i]].Has(v)
    && forall e :: 0 <= e < m && e !in queue[..i] && e != queue[i] ==> !verts[e].Has(v)
  }

  ghost predicate PeeledAt(verts: seq<Triple>, queue: seq<nat>, m: nat, i: nat)
    requires i < |queue| && m <= |verts|
  {
    queue[i] < m && exists k :: 0 <= k < 3 && FreeVertex(verts, queue, m, i, verts[queue[i]].At(k))
  }

  /** The first `k` queued edges can be removed in this order. */
  ghost predicate PeelingOrder(verts: seq<Triple>, queue: seq<nat>, m: nat, k: nat)
    requires k <= |queue| && m <= |verts|
  {
    forall i :: 0 <= i < k ==> PeeledAt(verts, queue, m, i)
  }

  /** Another of these edges has vertex `v`. */
  ghost predicate Shared(verts: seq<Triple>, edges: set<nat>, e: nat, v: nat) {
    exists e' :: e' in edges && e' != e && e' < |verts| && verts[e'].Has(v)
  }

  /** Every vertex of these edges is in at least two of them. */
  ghost predicate Core(verts: seq<Triple>, core: set<nat>) {
    && (forall e :: e in core ==> e < |verts|)
    && forall e, v: nat :: e in core && verts[e].Has(v) ==> Shared(verts, core, e, v)
  }

  /** A nonempty core cannot be peeled: no order removes all the edges. */
  lemma CoreCannotBePeeled(verts: seq<Triple>, m: nat, core: set<nat>, order: seq<nat>)
    requires m <= |verts| && core != {} && Core(verts, core) && forall e :: e in core ==> e < m
    requires forall e :: 0 <= e < m ==> e in order
    ensures !PeelingOrder(verts, order, m, |order|)
  {
    var i := FirstOfCore(order, core);
    forall k | 0 <= k < 3
      ensures !FreeVertex(verts, order, m, i, verts[order[i]].At(k))
    {
      CoreEdgeNotFree(verts, m, core, order, i, verts[order[i]].At(k));
    }
    assert !PeeledAt(verts, order, m, i);
  }

  lemma CoreEdgeNotFree(verts: seq<Triple>, m: nat, core: set<nat>, order: seq<nat>, i: nat, v: nat)
    requires m <= |verts| && Core(verts, core) && forall e :: e in core ==> e < m
    requires i < |order| && order[i] in core && verts[order[i]].Has(v)
    requires forall j :: 0 <= j < i ==> order[j] !in core
    ensures !FreeVertex(verts, order, m, i, v)
  {
    assert Shared(verts, core, order[i], v);
    var e :| e in core && e != order[i] && e < |verts| && verts[e].Has(v);
    assert e !in order[..i];
  }

  lemma FirstOfCore(order: seq<nat>, core: set<nat>) returns (i: nat)
    requires core != {} && forall e :: e in core ==> e in order
    ensures i < |order| && order[i] in core && forall j :: 0 <= j < i ==> order[j] !in core
  {
    var e :| e in core;
    i := 0;
    while order[i] !in core
      invariant i < |order| && forall j :: 0 <= j < i ==> order[j] !in core
      invariant e in order[i..]
      decreases |order| - i
    {
      assert order[i..] == [order[i]] + order[i + 1..];
      i := i + 1;
    }
  }

  // ---------- the state of the queue ----------

  /** `queue` has the marked edges; the first `tail` of them are removed, and `adj` has the rest. */
  ghost predicate Queued(verts: seq<Triple>, adj: seq<seq<nat>>, alive: set<nat>, queue: seq<nat>, tail: nat,
                         marked: seq<bool>) {
    && |marked| <= |verts| && tail <= |queue| && Distinct(queue)
    && (forall i :: 0 <= i < |queue| ==> queue[i] < |marked|)
    && (forall e :: 0 <= e < |marked| ==> (marked[e] <==> e in queue))
    && (forall e :: e in alive <==> 0 <= e < |marked| && e !in queue[..tail])
    && Contains(verts, adj, alive)
    && (forall e :: 0 <= e < |marked| ==> EdgeOk(verts[e], |adj|))
  }

  /** The counters of these degrees, which are bytes, cannot be misread: 256 reads as 0, and only from 257 on is there
      another degree that reads as 1. */
  ghost predicate CountersFit(adj: seq<seq<nat>>) {
    forall v :: 0 <= v < |adj| ==> |adj[v]| <= 256
  }

  lemma ReadsOne(degree: nat)
    ensures degree == 1 ==> degree % 256 == 1
    ensures degree % 256 == 1 ==> degree >= 1 && (degree <= 256 ==> degree == 1)
    ensures 257 % 256 == 1
  {
  }

  /** The counter of one of the edge's vertices reads 1. */
  ghost predicate ReadsFree(verts: seq<Triple>, adj: seq<seq<nat>>, e: nat)
    requires e < |verts| && EdgeOk(verts[e], |adj|)
  {
    |adj[verts[e].x0]| % 256 == 1 || |adj[verts[e].x1]| % 256 == 1 || |adj[verts[e].x2]| % 256 == 1
  }

  /** Every edge has such a counter. */
  ghost predicate AllReadFree(verts: seq<Triple>, adj: seq<seq<nat>>, m: nat) {
    m <= |verts| && forall e :: 0 <= e < m ==> EdgeOk(verts[e], |adj|) && ReadsFree(verts, adj, e)
  }

  ghost predicate AllMarked(marked: seq<bool>) {
    forall e :: 0 <= e < |marked| ==> marked[e]
  }

  /** Marks are not taken back. */
  ghost predicate MoreMarked(marked: seq<bool>, marked': seq<bool>) {
    |marked| == |marked'| && forall e :: 0 <= e < |marked| && marked[e] ==> marked'[e]
  }

  /** An edge has a vertex to itself. */
  ghost predicate HasFreeVertex(verts: seq<Triple>, adj: seq<seq<nat>>, e: nat)
    requires e < |verts| && EdgeOk(verts[e], |adj|)
  {
    |adj[verts[e].x0]| == 1 || |adj[verts[e].x1]| == 1 || |adj[verts[e].x2]| == 1
  }

  /** Every pending edge has a vertex to itself. */
  ghost predicate PendingFree(verts: seq<Triple>, adj: seq<seq<nat>>, queue: seq<nat>, tail: nat) {
    forall i :: 0 <= tail <= i < |queue| ==>
      queue[i] < |verts| && EdgeOk(verts[queue[i]], |adj|) && HasFreeVertex(verts, adj, queue[i])
  }

  /** The lone edge of a vertex, when it has only one, is marked. */
  ghost predicate LoneEdgeMarked(adj: seq<seq<nat>>, marked: seq<bool>, v: nat)
    requires v < |adj|
  {
    |adj[v]| == 1 ==> adj[v][0] < |marked| && marked[adj[v][0]]
  }

  ghost predicate LoneEdgesMarked(adj: seq<seq<nat>>, marked: seq<bool>) {
    forall v :: 0 <= v < |adj| ==> LoneEdgeMarked(adj, marked, v)
  }

  /** What the peeling keeps: every vertex of degree one has its edge queued; if the degrees fit their counters, every
      edge that waits has a vertex to itself, and those that are gone went in a peeling order. */
  ghost predicate Peeling(verts: seq<Triple>, adj: seq<seq<nat>>, alive: set<nat>, queue: seq<nat>, tail: nat,
                          marked: seq<bool>, fits: bool) {
    && Queued(verts, adj, alive, queue, tail, marked) && LoneEdgesMarked(adj, marked)
    && (fits ==> Orderly(verts, adj, queue, tail, |marked|))
  }

  ghost predicate Orderly(verts: seq<Triple>, adj: seq<seq<nat>>, queue: seq<nat>, tail: nat, m: nat) {
    && tail <= |queue| && m <= |verts|
    && CountersFit(adj) && PendingFree(verts, adj, queue, tail) && PeelingOrder(verts, queue, m, tail)
  }

  lemma RemovedNext(verts: seq<Triple>, adj: seq<seq<nat>>, adj': seq<seq<nat>>, alive: set<nat>, queue: seq<nat>,
                    tail: nat, marked: seq<bool>)
    requires Queued(verts, adj, alive, queue, tail, marked) && tail < |queue|
    requires |adj'| == |adj| && Contains(verts, adj', alive - {queue[tail]})
    ensures Queued(verts, adj', alive - {queue[tail]}, queue, tail + 1, marked)
  {
    assert queue[..tail + 1] == queue[..tail] + [queue[tail]];
  }

  /** Removing the next edge of the queue */
  lemma Dequeue(verts: seq<Triple>, adj: seq<seq<nat>>, adj': seq<seq<nat>>, alive: set<nat>, queue: seq<nat>,
                tail: nat, marked: seq<bool>, fits: bool)
    requires Peeling(verts, adj, alive, queue, tail, marked, fits) && tail < |queue|
    requires |adj'| == |adj| && Contains(verts, adj', alive - {queue[tail]})
    requires forall v :: 0 <= v < |adj| ==>
               |adj'[v]| == |adj[v]| - (if verts[queue[tail]].Has(v) then 1 else 0)
    ensures Queued(verts, adj', alive - {queue[tail]}, queue, tail + 1, marked)
    ensures fits ==> Orderly(verts, adj', queue, tail + 1, |marked|)
    ensures forall v :: 0 <= v < |adj| && !verts[queue[tail]].Has(v) ==> LoneEdgeMarked(adj', marked, v)
  {
    hide PeeledAt, HasFreeVertex;
    RemovedNext(verts, adj, adj', alive, queue, tail, marked);
    if fits {
      LoneVertexIsFree(verts, adj, alive, queue, tail, marked);
      forall i | tail + 1 <= i < |queue|
        ensures HasFreeVertex(verts, adj', queue[i])
      {
        PendingStaysFree(verts, adj, adj', alive, queue, tail, marked, i);
      }
    }
    forall v | 0 <= v < |adj| && !verts[queue[tail]].Has(v)
      ensures LoneEdgeMarked(adj', marked, v)
    {
      LoneStaysMarked(verts, adj, adj', alive, queue, tail, marked, v);
    }
  }

  lemma LoneStaysMarked(verts: seq<Triple>, adj: seq<seq<nat>>, adj': seq<seq<nat>>, alive: set<nat>, queue: seq<nat>,
                        tail: nat, marked: seq<bool>, v: nat)
    requires Queued(verts, adj, alive, queue, tail, marked) && tail < |queue| && v < |adj| == |adj'|
    requires Contains(verts, adj', alive - {queue[tail]}) && LoneEdgeMarked(adj, marked, v) && |adj'[v]| == |adj[v]|
    ensures LoneEdgeMarked(adj', marked, v)
  {
    if |adj'[v]| == 1 {
      var x := adj'[v][0];
      assert x in adj'[v] && x in adj[v];
      assert adj[v][0] in adj[v] && adj[v] == [adj[v][0]];
    }
  }

  lemma LoneVertexIsFree(verts: seq<Triple>, adj: seq<seq<nat>>, alive: set<nat>, queue: seq<nat>,
                         tail: nat, marked: seq<bool>)
    requires Queued(verts, adj, alive, queue, tail, marked) && tail < |queue|
    requires PendingFree(verts, adj, queue, tail)
    ensures PeeledAt(verts, queue, |marked|, tail)
  {
    var e := queue[tail];
    var t := verts[e];
    assert HasFreeVertex(verts, adj, e);
    var k := if |adj[t.x0]| == 1 then 0 else if |adj[t.x1]| == 1 then 1 else 2;
    var v := t.At(k);
    assert t.Has(v) && |adj[v]| == 1;
    NotQueuedBefore(queue, tail);
    assert e in adj[v] && adj[v] == [adj[v][0]];
    forall x | 0 <= x < |marked| && x !in queue[..tail] && x != e
      ensures !verts[x].Has(v)
    {
      assert x in adj[v] <==> x in alive && verts[x].Has(v);
    }
    assert FreeVertex(verts, queue, |marked|, tail, t.At(k));
  }

  lemma NotQueuedBefore(queue: seq<nat>, i: nat)
    requires Distinct(queue) && i < |queue|
    ensures queue[i] !in queue[..i]
  {
  }

  lemma PendingStaysFree(verts: seq<Triple>, adj: seq<seq<nat>>, adj': seq<seq<nat>>, alive: set<nat>,
                         queue: seq<nat>, tail: nat, marked: seq<bool>, i: nat)
    requires Queued(verts, adj, alive, queue, tail, marked) && tail < i < |queue|
    requires PendingFree(verts, adj, queue, tail)
    requires |adj'| == |adj| && Contains(verts, adj', alive - {queue[tail]})
    requires forall v :: 0 <= v < |adj| ==>
               |adj'[v]| == |adj[v]| - (if verts[queue[tail]].Has(v) then 1 else 0)
    ensures HasFreeVertex(verts, adj', queue[i])
  {
    var e := queue[i];
    var t := verts[e];
    NotQueuedBefore(queue, i);
    assert e !in queue[..tail] && e != queue[tail] by {
      assert queue[tail] in queue[..i];
      assert forall x :: x in queue[..tail] ==> x in queue[..i];
    }
    assert HasFreeVertex(verts, adj, e);
    var v := if |adj[t.x0]| == 1 then t.x0 else if |adj[t.x1]| == 1 then t.x1 else t.x2;
    assert t.Has(v) && |adj[v]| == 1;
    assert e in adj'[v];
  }

  /** Queueing an unmarked edge */
  lemma QueuedNext(verts: seq<Triple>, adj: seq<seq<nat>>, alive: set<nat>, q: seq<nat>, tail: nat, mk: seq<bool>,
                   e: nat)
    requires Queued(verts, adj, alive, q, tail, mk) && e < |mk| && !mk[e]
    ensures Queued(verts, adj, alive, q + [e], tail, mk[e := true]) && MoreMarked(mk, mk[e := true])
  {
    var q' := q + [e];
    assert q'[..tail] == q[..tail];
  }

  lemma OrderlyNext(verts: seq<Triple>, adj: seq<seq<nat>>, q: seq<nat>, tail: nat, m: nat, e: nat, v: nat)
    requires Orderly(verts, adj, q, tail, m) && e < m && EdgeOk(verts[e], |adj|)
    requires v < |adj| && |adj[v]| == 1 && verts[e].Has(v)
    ensures Orderly(verts, adj, q + [e], tail, m)
  {
    var q' := q + [e];
    forall i | 0 <= i < tail
      ensures PeeledAt(verts, q', m, i)
    {
      assert PeeledAt(verts, q, m, i);
      var k :| 0 <= k < 3 && FreeVertex(verts, q, m, i, verts[q[i]].At(k));
      assert q'[..i] == q[..i];
      assert FreeVertex(verts, q', m, i, verts[q'[i]].At(k));
    }
  }

  // ---------- what the queue of the bytes means ----------

  /** The edges with a counter that reads 1 are queued first, each once. */
  lemma {:induction false} FirstQueueIs(verts: seq<Triple>, m: nat, adj: seq<seq<nat>>, k: nat)
    requires InStep(verts, m, adj, [], 0) && k <= m && forall e :: 0 <= e < m ==> EdgeOk(verts[e], |adj|)
    ensures Distinct(FirstQueue(verts, m, k))
    ensures forall e :: e in FirstQueue(verts, m, k) <==> 0 <= e < k && ReadsFree(verts, adj, e)
  {
    hide ReadsFree, EdgesLeft;
    if k != 0 {
      FirstQueueIs(verts, m, adj, k - 1);
      FirstQueueNext(verts, m, adj, k - 1);
      hide FirstQueue;
      if k - 1 !in FirstQueue(verts, m, k - 1) {
        DistinctSnoc(FirstQueue(verts, m, k - 1), k - 1);
      }
    }
  }

  lemma FirstQueueNext(verts: seq<Triple>, m: nat, adj: seq<seq<nat>>, k: nat)
    requires InStep(verts, m, adj, [], 0) && k < m && EdgeOk(verts[k], |adj|)
    ensures FirstQueue(verts, m, k + 1) == FirstQueue(verts, m, k) + if ReadsFree(verts, adj, k) then [k] else []
  {
    hide EdgesLeft;
  }

  ghost function MarksFor(m: nat, q: seq<nat>): (marked: seq<bool>)
    ensures |marked| == m && forall e :: 0 <= e < m ==> (marked[e] <==> e in q)
  {
    seq(m, e requires 0 <= e < m => e in q)
  }

  lemma PeelingStarts(verts: seq<Triple>, m: nat, adj: seq<seq<nat>>)
    requires InStep(verts, m, adj, [], 0) && (forall e :: 0 <= e < m ==> EdgeOk(verts[e], |adj|))
    ensures var q := FirstQueue(verts, m, m);
            Peeling(verts, adj, UpTo(m), q, 0, MarksFor(m, q), CountersFit(adj))
    ensures AllReadFree(verts, adj, m) ==> AllMarked(MarksFor(m, FirstQueue(verts, m, m)))
  {
    hide FirstQueue, ReadsFree, EdgesLeft;
    FirstQueueIs(verts, m, adj, m);
    var q := FirstQueue(verts, m, m);
    AllThere(verts, m, adj);
    forall v | 0 <= v < |adj|
      ensures LoneEdgeMarked(adj, MarksFor(m, q), v)
    {
      if |adj[v]| == 1 {
        LoneEdgeReadsFree(verts, m, adj, v);
      }
    }
    forall i | 0 <= i < |q| && CountersFit(adj)
      ensures HasFreeVertex(verts, adj, q[i])
    {
      assert q[i] in q;
      FreeIfFits(verts, adj, q[i]);
    }
  }

  lemma FreeIfFits(verts: seq<Triple>, adj: seq<seq<nat>>, e: nat)
    requires CountersFit(adj) && e < |verts| && EdgeOk(verts[e], |adj|) && ReadsFree(verts, adj, e)
    ensures HasFreeVertex(verts, adj, e)
  {
  }

  /** The lists hold all edges. */
  lemma AllThere(verts: seq<Triple>, m: nat, adj: seq<seq<nat>>)
    requires InStep(verts, m, adj, [], 0)
    ensures Contains(verts, adj, UpTo(m))
  {
    hide EdgesLeft;
    forall e: nat, v | 0 <= v < |adj|
      ensures e in adj[v] <==> e in UpTo(m) && verts[e].Has(v)
    {
      LeftAre(verts, v, m, [], e);
    }
  }

  lemma LoneEdgeReadsFree(verts: seq<Triple>, m: nat, adj: seq<seq<nat>>, v: nat)
    requires InStep(verts, m, adj, [], 0) && v < |adj| && |adj[v]| == 1
    requires forall e :: 0 <= e < m ==> EdgeOk(verts[e], |adj|)
    ensures adj[v][0] < m && ReadsFree(verts, adj, adj[v][0])
  {
  }

  /** The lists after the next edge is gone */
  ghost function ListsAfter(verts: seq<Triple>, m: nat, n: nat, gone: seq<nat>): (adj: seq<seq<nat>>)
    requires m <= |verts|
    ensures |adj| == n
  {
    seq(n, v requires 0 <= v < n => EdgesLeft(verts, v, m, gone))
  }

  lemma NextIsGone(verts: seq<Triple>, adj: seq<seq<nat>>, alive: set<nat>, queue: seq<nat>, tail: nat,
                   marked: seq<bool>)
    requires Queued(verts, adj, alive, queue, tail, marked) && tail < |queue|
    requires InStep(verts, |marked|, adj, queue, tail)
    ensures queue[tail] in alive && queue[tail] < |marked|
    ensures var adj' := ListsAfter(verts, |marked|, |adj|, queue[..tail + 1]);
            && Contains(verts, adj', alive - {queue[tail]})
            && forall v :: 0 <= v < |adj| ==> |adj'[v]| == |adj[v]| - (if verts[queue[tail]].Has(v) then 1 else 0)
  {
    hide EdgesLeft, Minus;
    var e, m := queue[tail], |marked|;
    NotQueuedBefore(queue, tail);
    assert queue[..tail + 1] == queue[..tail] + [e];
    var adj' := ListsAfter(verts, m, |adj|, queue[..tail + 1]);
    forall v | 0 <= v < |adj|
      ensures |adj'[v]| == |adj[v]| - (if verts[e].Has(v) then 1 else 0)
    {
      LeftMinus(verts, v, m, queue[..tail], e);
      LeftDistinct(verts, v, m, queue[..tail]);
      LeftAre(verts, v, m, queue[..tail], e);
      MinusLength(adj[v], e);
    }
    forall x: nat, v | 0 <= v < |adj|
      ensures x in adj'[v] <==> x in alive - {e} && verts[x].Has(v)
    {
      LeftAre(verts, v, m, queue[..tail + 1], x);
    }
  }

  /** One vertex of the edge that is gone: its lone edge is queued now. */
  lemma FreedJoins(verts: seq<Triple>, adj: seq<seq<nat>>, alive: set<nat>, queue: seq<nat>, tail: nat,
                   marked: seq<bool>, v: nat, fits: bool)
    returns (marked': seq<bool>)
    requires Queued(verts, adj, alive, queue, tail, marked) && InStep(verts, |marked|, adj, queue, tail) && v < |adj|
    requires fits ==> Orderly(verts, adj, queue, tail, |marked|)
    ensures var q := WithFreed(verts, |marked|, queue, tail, v);
            && Queued(verts, adj, alive, q, tail, marked') && InStep(verts, |marked|, adj, q, tail)
            && (fits ==> Orderly(verts, adj, q, tail, |marked|))
    ensures MoreMarked(marked, marked') && LoneEdgeMarked(adj, marked', v)
  {
    hide EdgesLeft, PendingFree, PeelingOrder;
    marked' := marked;
    ReadsOne(|adj[v]|);
    if |adj[v]| % 256 == 1 {
      var e := adj[v][0];
      assert e in adj[v];
      if e !in queue {
        QueuedNext(verts, adj, alive, queue, tail, marked, e);
        if fits {
          OrderlyNext(verts, adj, queue, tail, |marked|, e, v);
        }
        marked' := marked[e := true];
        assert (queue + [e])[..tail] == queue[..tail];
      }
    }
  }

  /** One round of the main loop: the next edge is removed, and the edges that become free are queued. */
  lemma PeelingStep(verts: seq<Triple>, adj: seq<seq<nat>>, alive: set<nat>, queue: seq<nat>, tail: nat,
                    marked: seq<bool>, fits: bool)
    returns (adj': seq<seq<nat>>, alive': set<nat>, marked': seq<bool>)
    requires Peeling(verts, adj, alive, queue, tail, marked, fits) && InStep(verts, |marked|, adj, queue, tail)
    requires tail < |queue|
    ensures var q := WithFreedBy(verts, |marked|, queue, tail + 1, verts[queue[tail]]);
            && Peeling(verts, adj', alive', q, tail + 1, marked', fits) && InStep(verts, |marked|, adj', q, tail + 1)
    ensures MoreMarked(marked, marked') && |adj'| == |adj|
  {
    hide Queued, Orderly, LoneEdgesMarked, LoneEdgeMarked, MoreMarked, EdgesLeft, WithFreed, Contains;
    var m := |marked|;
    var t := NextEdge(verts, adj, alive, queue, tail, marked);
    NextIsGone(verts, adj, alive, queue, tail, marked);
    adj', alive' := ListsAfter(verts, m, |adj|, queue[..tail + 1]), alive - {queue[tail]};
    Dequeue(verts, adj, adj', alive, queue, tail, marked, fits);
    var marked1 := FreedJoins(verts, adj', alive', queue, tail + 1, marked, t.x0, fits);
    var q1 := WithFreed(verts, m, queue, tail + 1, t.x0);
    SameSizes(marked, marked1);
    var marked2 := FreedJoins(verts, adj', alive', q1, tail + 1, marked1, t.x1, fits);
    var q2 := WithFreed(verts, m, q1, tail + 1, t.x1);
    SameSizes(marked1, marked2);
    marked' := FreedJoins(verts, adj', alive', q2, tail + 1, marked2, t.x2, fits);
    SameSizes(marked2, marked');
    AllLoneMarked(adj', t, marked, marked1, marked2, marked');
  }

  lemma SameSizes(mk: seq<bool>, mk': seq<bool>)
    requires MoreMarked(mk, mk')
    ensures |mk| == |mk'|
  {
  }

  lemma NextEdge(verts: seq<Triple>, adj: seq<seq<nat>>, alive: set<nat>, queue: seq<nat>, tail: nat, marked: seq<bool>)
    returns (t: Triple)
    requires Queued(verts, adj, alive, queue, tail, marked) && tail < |queue|
    ensures queue[tail] < |marked| <= |verts| && t == verts[queue[tail]] && EdgeOk(t, |adj|)
    ensures forall i :: 0 <= i < |queue| ==> queue[i] < |marked|
  {
    t := verts[queue[tail]];
  }

  /** The lone edges of the vertices of `t` are marked one after the other, those of other vertices were so before. */
  lemma AllLoneMarked(adj: seq<seq<nat>>, t: Triple, mk: seq<bool>, mk1: seq<bool>, mk2: seq<bool>, mk3: seq<bool>)
    requires EdgeOk(t, |adj|) && MoreMarked(mk, mk1) && MoreMarked(mk1, mk2) && MoreMarked(mk2, mk3)
    requires forall v :: 0 <= v < |adj| && !t.Has(v) ==> LoneEdgeMarked(adj, mk, v)
    requires LoneEdgeMarked(adj, mk1, t.x0) && LoneEdgeMarked(adj, mk2, t.x1) && LoneEdgeMarked(adj, mk3, t.x2)
    ensures LoneEdgesMarked(adj, mk3) && MoreMarked(mk, mk3)
  {
    forall v | 0 <= v < |adj|
      ensures LoneEdgeMarked(adj, mk3, v)
    {
      assert !t.Has(v) ==> LoneEdgeMarked(adj, mk, v);
    }
  }

  /** All rounds */
  lemma {:induction false} PeelingEnds(verts: seq<Triple>, adj: seq<seq<nat>>, alive: set<nat>, queue: seq<nat>,
                                       tail: nat, marked: seq<bool>, fits: bool)
    returns (adj': seq<seq<nat>>, alive': set<nat>, marked': seq<bool>)
    requires Peeling(verts, adj, alive, queue, tail, marked, fits) && InStep(verts, |marked|, adj, queue, tail)
    requires forall i :: 0 <= i < |queue| ==> queue[i] < |marked|
    ensures var q := QueueFrom(verts, |marked|, queue, tail);
            && Peeling(verts, adj', alive', q, |q|, marked', fits) && InStep(verts, |marked|, adj', q, |q|)
    ensures AllMarked(marked) ==> AllMarked(marked')
    ensures |marked'| == |marked|
    decreases |marked| - tail
  {
    hide Peeling, InStep, EdgesLeft, WithFreedBy, MoreMarked, AllMarked;
    QueueSize(verts, adj, alive, queue, tail, marked, fits);
    if tail < |queue| {
      var adj1, alive1, marked1 := PeelingStep(verts, adj, alive, queue, tail, marked, fits);
      StillAllMarked(marked, marked1);
      adj', alive', marked' :=
        PeelingEnds(verts, adj1, alive1, WithFreedBy(verts, |marked|, queue, tail + 1, verts[queue[tail]]), tail + 1,
                    marked1, fits);
    } else {
      adj', alive', marked' := adj, alive, marked;
    }
  }

  lemma QueueSize(verts: seq<Triple>, adj: seq<seq<nat>>, alive: set<nat>, queue: seq<nat>, tail: nat,
                  marked: seq<bool>, fits: bool)
    requires Peeling(verts, adj, alive, queue, tail, marked, fits)
    ensures tail <= |queue| <= |marked| <= |verts|
  {
    DistinctBelow(queue, |marked|);
  }

  lemma StillAllMarked(mk: seq<bool>, mk': seq<bool>)
    requires MoreMarked(mk, mk')
    ensures |mk| == |mk'| && (AllMarked(mk) ==> AllMarked(mk'))
  {
  }

  /** The queue of the bytes leaves a nonempty core, unless it takes all edges. It takes them in a peeling order if the
      degrees fit their counters; and it takes them when every edge has a counter that reads 1, whatever the degrees
      are. */
  lemma ByteQueueMeans(verts: seq<Triple>, m: nat, adj: seq<seq<nat>>)
    requires InStep(verts, m, adj, [], 0) && (forall e :: 0 <= e < m ==> EdgeOk(verts[e], |adj|))
    ensures var q := ByteQueue(verts, m);
            && (|q| == m ==> QueueOf(q, m) && (CountersFit(adj) ==> PeelingOf(verts, q, m)))
            && (|q| != m ==> HasCore(verts, m) && NoOrder(verts, m))
            && (AllReadFree(verts, adj, m) ==> |q| == m)
  {
    hide QueueFrom, FirstQueue, EdgesLeft, CountersFit, AllReadFree, AllMarked, QueueOf, PeelingOf, HasCore, NoOrder,
      Peeling;
    var q0 := FirstQueue(verts, m, m);
    var none: seq<nat> := [];
    assert none[..0] == q0[..0];
    PeelingStarts(verts, m, adj);
    var fits := CountersFit(adj);
    var adj', alive', marked' := PeelingEnds(verts, adj, UpTo(m), q0, 0, MarksFor(m, q0), fits);
    EndOfQueue(verts, adj', alive', ByteQueue(verts, m), marked', fits, m);
  }

  /** Unqueued edges when the queue has run dry are a core. */
  lemma RestIsCore(verts: seq<Triple>, adj: seq<seq<nat>>, alive: set<nat>, q: seq<nat>, mk: seq<bool>)
    requires Queued(verts, adj, alive, q, |q|, mk) && LoneEdgesMarked(adj, mk) && InStep(verts, |mk|, adj, q, |q|)
    ensures Core(verts, alive)
  {
    hide EdgesLeft;
    assert q[..|q|] == q;
    forall e, v: nat | e in alive && verts[e].Has(v)
      ensures Shared(verts, alive, e, v)
    {
      assert EdgeOk(verts[e], |adj|) && e in adj[v];
      assert LoneEdgeMarked(adj, mk, v);
      LeftDistinct(verts, v, |mk|, q);
      var j :| 0 <= j < |adj[v]| && adj[v][j] == e;
      assert |adj[v]| >= 2;
      var e' := adj[v][if j == 0 then 1 else 0];
      assert e' in adj[v] && e' != e;
    }
  }

  /** Some nonempty set of edges is a core. */
  ghost predicate HasCore(verts: seq<Triple>, m: nat) {
    exists core :: core != {} && Core(verts, core) && core <= UpTo(m)
  }

  /** No order peels all edges. */
  ghost predicate NoOrder(verts: seq<Triple>, m: nat) {
    forall order :: !PeelingOf(verts, order, m)
  }

  /** Every edge is in the queue, once. */
  ghost predicate QueueOf(queue: seq<nat>, m: nat) {
    && |queue| == m && Distinct(queue) && (forall e :: 0 <= e < m ==> e in queue)
    && forall j :: 0 <= j < m ==> queue[j] < m
  }

  /** What the queue says when it has run dry */
  lemma EndOfQueue(verts: seq<Triple>, adj: seq<seq<nat>>, alive: set<nat>, q: seq<nat>, mk: seq<bool>, fits: bool,
                   m: nat)
    requires Peeling(verts, adj, alive, q, |q|, mk, fits) && InStep(verts, |mk|, adj, q, |q|) && |mk| == m
    ensures |q| == m ==> QueueOf(q, m) && (fits ==> PeelingOf(verts, q, m))
    ensures |q| != m ==> HasCore(verts, m) && NoOrder(verts, m)
    ensures AllMarked(mk) ==> |q| == m
  {
    hide NoOrder, Core, EdgesLeft, FreeVertex;
    DistinctBelow(q, m);
    if |q| != m {
      RestIsCore(verts, adj, alive, q, mk);
      SomeUnqueued(q, m, alive);
      NoPeelingOrder(verts, m, alive);
      var e :| e in alive;
      assert q[..|q|] == q;
      assert !mk[e];
    }
  }

  lemma NoPeelingOrder(verts: seq<Triple>, m: nat, core: set<nat>)
    requires m <= |verts| && core != {} && Core(verts, core) && core <= UpTo(m)
    ensures NoOrder(verts, m)
  {
    forall order
      ensures !PeelingOf(verts, order, m)
    {
      if PeelingOf(verts, order, m) {
        CoreCannotBePeeled(verts, m, core, order);
      }
    }
  }

  lemma SomeUnqueued(q: seq<nat>, m: nat, alive: set<nat>)
    requires |q| < m && forall e :: e in alive <==> 0 <= e < m && e !in q[..|q|]
    ensures alive != {} && alive <= UpTo(m)
  {
    assert q[..|q|] == q;
    if alive == {} {
      assert UpTo(m) <= Elements(q) by {
        forall e | e in UpTo(m)
          ensures e in Elements(q)
        {
          assert !(e in alive);
        }
      }
      SubsetCount(UpTo(m), Elements(q));
      ElementsAtMost(q);
    }
  }

  /** A queue that removes all of the `m` edges, one after the other */
  ghost predicate PeelingOf(verts: seq<Triple>, queue: seq<nat>, m: nat) {
    && m <= |verts| && |queue| == m
    && (forall e :: 0 <= e < m ==> e in queue)
    && PeelingOrder(verts, queue, m, m)
  }

  // ---------- the loops ----------

  /** The part of `bdz_generate_queue` for one vertex: queue the first edge of its list, if its counter reads 1, unless
      the edge is marked. */
  method EnqueueLone(graph: Graph3, queue: array<nat>, head: nat, marked: array<bool>, v: nat,
                     ghost adj: seq<seq<nat>>, ghost alive: set<nat>, ghost tail: nat)
    returns (head': nat)
    requires graph.Holds(adj) && v < |adj| && head <= queue.Length == marked.Length <= graph.vertices.Length
    requires queue != graph.firstEdge && queue != graph.vertDegree && tail <= head
    requires Queued(graph.vertices[..], adj, alive, queue[..head], tail, marked[..])
    requires InStep(graph.vertices[..], marked.Length, adj, queue[..head], tail)
    modifies queue, marked
    ensures head <= head' <= queue.Length && graph.Holds(adj)
    ensures Queued(graph.vertices[..], adj, alive, queue[..head'], tail, marked[..])
    ensures InStep(graph.vertices[..], marked.Length, adj, queue[..head'], tail)
    ensures queue[..head'] == WithFreed(graph.vertices[..], marked.Length, old(queue[..head]), tail, v)
  {
    hide EdgesLeft;
    head' := head;
    ReadsOne(|adj[v]|);
    ghost var q := queue[..head];
    if graph.vertDegree[v] == 1 {
      assert |adj[v]| >= 1 && VertexOk(graph.View(), graph.nedges, v, adj[v]);
      var tmpEdge := graph.firstEdge[v];
      assert tmpEdge in adj[v];
      if !marked[tmpEdge] {
        head' := Enqueue(graph.vertices[..], queue, head, marked, tmpEdge, adj, alive, tail);
        assert queue[..head'][..tail] == q[..tail];
      }
    }
  }

  /** Queue an unmarked edge. */
  method Enqueue(ghost verts: seq<Triple>, queue: array<nat>, head: nat, marked: array<bool>, e: nat,
                 ghost adj: seq<seq<nat>>, ghost alive: set<nat>, ghost tail: nat)
    returns (head': nat)
    requires head <= queue.Length == marked.Length && e < marked.Length && !marked[e]
    requires tail <= head && Queued(verts, adj, alive, queue[..head], tail, marked[..])
    modifies queue, marked
    ensures head' == head + 1 <= queue.Length
    ensures queue[..head'] == old(queue[..head]) + [e] && marked[..] == old(marked[..])[e := true]
    ensures Queued(verts, adj, alive, queue[..head'], tail, marked[..])
  {
    ghost var q, mk := queue[..head], marked[..];
    RoomFor(q, |mk|, e);
    QueuedNext(verts, adj, alive, q, tail, mk, e);
    queue[head] := e;
    marked[e] := true;
    head' := head + 1;
    assert queue[..head'] == q + [e];
    assert marked[..] == mk[e := true];
  }

  /** The first loop of `bdz_generate_queue`: queue every edge that has a vertex whose counter reads 1. */
  method QueueFreeEdges(graph: Graph3, queue: array<nat>, marked: array<bool>, m: nat,
                        ghost adj: seq<seq<nat>>, ghost alive: set<nat>)
    returns (head: nat)
    requires graph.Holds(adj) && graph.nedges == m == queue.Length == marked.Length <= graph.vertices.Length
    requires queue != graph.firstEdge && queue != graph.vertDegree
    requires Queued(graph.vertices[..], adj, alive, [], 0, marked[..])
    requires InStep(graph.vertices[..], m, adj, [], 0)
    modifies queue, marked
    ensures head <= m && graph.Holds(adj) && queue[..head] == FirstQueue(graph.vertices[..], m, m)
    ensures Queued(graph.vertices[..], adj, alive, queue[..head], 0, marked[..])
  {
    hide Queued, InStep, EdgesLeft;
    head := 0;
    assert queue[..0] == [];
    for i := 0 to m
      invariant head <= m && graph.Holds(adj) && queue[..head] == FirstQueue(graph.vertices[..], m, i)
      invariant Queued(graph.vertices[..], adj, alive, queue[..head], 0, marked[..])
    {
      head := QueueIfFree(graph, queue, head, marked, i, adj, alive);
    }
  }

  /** The body of that loop */
  method QueueIfFree(graph: Graph3, queue: array<nat>, head: nat, marked: array<bool>, i: nat,
                     ghost adj: seq<seq<nat>>, ghost alive: set<nat>)
    returns (head': nat)
    requires graph.Holds(adj) && i < queue.Length == marked.Length <= graph.vertices.Length && head <= queue.Length
    requires queue != graph.firstEdge && queue != graph.vertDegree && graph.nedges == marked.Length
    requires Queued(graph.vertices[..], adj, alive, queue[..head], 0, marked[..])
    requires InStep(graph.vertices[..], marked.Length, adj, [], 0)
    requires queue[..head] == FirstQueue(graph.vertices[..], marked.Length, i)
    modifies queue, marked
    ensures head' <= queue.Length && graph.Holds(adj)
    ensures queue[..head'] == FirstQueue(graph.vertices[..], marked.Length, i + 1)
    ensures Queued(graph.vertices[..], adj, alive, queue[..head'], 0, marked[..])
  {
    hide Queued, FirstQueue, EdgesLeft, InStep;
    head' := head;
    var t := graph.vertices[i];
    assert EdgeOk(graph.View().verts[i], |adj|);
    FirstQueueNext(graph.vertices[..], marked.Length, adj, i);
    NotMarkedYet(graph.vertices[..], adj, alive, queue[..head], marked[..], i);
    if graph.vertDegree[t.x0] == 1 || graph.vertDegree[t.x1] == 1 || graph.vertDegree[t.x2] == 1 {
      if !marked[i] {
        head' := Enqueue(graph.vertices[..], queue, head, marked, i, adj, alive, 0);
      }
    }
  }

  lemma NotMarkedYet(verts: seq<Triple>, adj: seq<seq<nat>>, alive: set<nat>, q: seq<nat>, mk: seq<bool>, i: nat)
    requires Queued(verts, adj, alive, q, 0, mk) && i < |mk| <= |verts| && q == FirstQueue(verts, |mk|, i)
    ensures !mk[i]
  {
    hide FirstQueue;
  }

  /** One round of the main loop */
  method PeelOne(graph: Graph3, queue: array<nat>, head: nat, marked: array<bool>, tail: nat,
                 ghost adj: seq<seq<nat>>, ghost alive: set<nat>)
    returns (head': nat, ghost adj': seq<seq<nat>>, ghost alive': set<nat>)
    requires graph.Holds(adj) && graph.nedges == queue.Length == marked.Length <= graph.vertices.Length
    requires queue != graph.firstEdge && queue != graph.vertDegree && tail < head <= queue.Length
    requires Queued(graph.vertices[..], adj, alive, queue[..head], tail, marked[..])
    requires InStep(graph.vertices[..], marked.Length, adj, queue[..head], tail)
    modifies graph.nextEdges, graph.firstEdge, graph.vertDegree, queue, marked
    ensures head <= head' <= queue.Length && graph.Holds(adj') && |adj'| == |adj|
    ensures Queued(graph.vertices[..], adj', alive', queue[..head'], tail + 1, marked[..])
    ensures InStep(graph.vertices[..], marked.Length, adj', queue[..head'], tail + 1)
    ensures (forall i :: 0 <= i < head ==> old(queue[i]) < marked.Length)
            && queue[..head'] == WithFreedBy(graph.vertices[..], marked.Length, old(queue[..head]), tail + 1,
                                             graph.vertices[old(queue[tail])])
  {
    hide Queued, Contains, InStep, WithFreedBy, Minus;
    var currEdge := queue[tail];
    ghost var q, mk, verts := queue[..head], marked[..], graph.vertices[..];
    assert q[tail] == currEdge;
    NextIsAlive(verts, adj, alive, q, tail, mk);
    adj' := graph.RemoveEdge(currEdge, adj, alive);
    alive' := alive - {currEdge};
    RemovedNext(verts, adj, adj', alive, q, tail, mk);
    StaysInStep(verts, |mk|, adj, adj', q, tail);
    assert queue[..head] == q;
    head' := EnqueueFreed(graph, queue, head, marked, graph.vertices[currEdge], adj', alive', tail + 1);
  }

  /** The second half of a round: the three vertices of the edge that was removed */
  method EnqueueFreed(graph: Graph3, queue: array<nat>, head: nat, marked: array<bool>, t: Triple,
                      ghost adj: seq<seq<nat>>, ghost alive: set<nat>, ghost tail: nat)
    returns (head': nat)
    requires graph.Holds(adj) && queue.Length == marked.Length <= graph.vertices.Length && EdgeOk(t, |adj|)
    requires queue != graph.firstEdge && queue != graph.vertDegree && tail <= head <= queue.Length
    requires Queued(graph.vertices[..], adj, alive, queue[..head], tail, marked[..])
    requires InStep(graph.vertices[..], marked.Length, adj, queue[..head], tail)
    requires forall i :: 0 <= i < head ==> queue[i] < marked.Length
    modifies queue, marked
    ensures head <= head' <= queue.Length && graph.Holds(adj)
    ensures Queued(graph.vertices[..], adj, alive, queue[..head'], tail, marked[..])
    ensures InStep(graph.vertices[..], marked.Length, adj, queue[..head'], tail)
    ensures queue[..head'] == WithFreedBy(graph.vertices[..], marked.Length, old(queue[..head]), tail, t)
  {
    hide Queued, InStep, WithFreed;
    head' := EnqueueLone(graph, queue, head, marked, t.x0, adj, alive, tail);
    head' := EnqueueLone(graph, queue, head', marked, t.x1, adj, alive, tail);
    head' := EnqueueLone(graph, queue, head', marked, t.x2, adj, alive, tail);
  }

  lemma NextIsAlive(verts: seq<Triple>, adj: seq<seq<nat>>, alive: set<nat>, q: seq<nat>, tail: nat, mk: seq<bool>)
    requires Queued(verts, adj, alive, q, tail, mk) && tail < |q|
    ensures q[tail] in alive && q[tail] < |mk| <= |verts| && EdgeOk(verts[q[tail]], |adj|)
    ensures Contains(verts, adj, alive) && forall i :: 0 <= i < |q| ==> q[i] < |mk|
  {
    NotQueuedBefore(q, tail);
  }

  /** The main loop */
  method PeelAll(graph: Graph3, queue: array<nat>, head0: nat, marked: array<bool>, ghost adj0: seq<seq<nat>>,
                 ghost alive0: set<nat>)
    returns (head: nat)
    requires graph.Holds(adj0) && graph.nedges == queue.Length == marked.Length <= graph.vertices.Length
    requires queue != graph.firstEdge && queue != graph.vertDegree && head0 <= queue.Length
    requires Queued(graph.vertices[..], adj0, alive0, queue[..head0], 0, marked[..])
    requires InStep(graph.vertices[..], marked.Length, adj0, queue[..head0], 0)
    requires forall i :: 0 <= i < head0 ==> queue[i] < marked.Length
    modifies graph.nextEdges, graph.firstEdge, graph.vertDegree, queue, marked
    ensures head <= queue.Length
    ensures queue[..head] == QueueFrom(graph.vertices[..], marked.Length, old(queue[..head0]), 0)
  {
    hide Queued, InStep, QueueGives, WithFreedBy, QueueFrom;
    head := head0;
    ghost var adj, alive := adj0, alive0;
    ghost var r := QueueBegins(graph.vertices[..], marked.Length, queue[..head0]);
    var tail := 0;
    while tail != head
      invariant tail <= head <= queue.Length && graph.Holds(adj)
      invariant Queued(graph.vertices[..], adj, alive, queue[..head], tail, marked[..])
      invariant InStep(graph.vertices[..], marked.Length, adj, queue[..head], tail)
      invariant QueueGives(graph.vertices[..], marked.Length, queue[..head], tail, r)
      decreases queue.Length - tail
    {
      ghost var mk, q := marked[..], queue[..head];
      assert q[tail] == queue[tail];
      head, adj, alive := PeelOne(graph, queue, head, marked, tail, adj, alive);
      QueueStep(graph.vertices[..], |mk|, q, tail, r, queue[..head]);
      tail := tail + 1;
    }
    QueueIsDone(graph.vertices[..], marked.Length, queue[..head], tail, r);
  }

  /** What is left of the peeling comes to this queue. */
  ghost predicate QueueGives(verts: seq<Triple>, m: nat, q: seq<nat>, tail: nat, r: seq<nat>) {
    m <= |verts| && (forall i :: 0 <= i < |q| ==> q[i] < m) && QueueFrom(verts, m, q, tail) == r
  }

  lemma QueueBegins(verts: seq<Triple>, m: nat, q: seq<nat>) returns (r: seq<nat>)
    requires m <= |verts| && forall i :: 0 <= i < |q| ==> q[i] < m
    ensures QueueGives(verts, m, q, 0, r) && r == QueueFrom(verts, m, q, 0)
  {
    r := QueueFrom(verts, m, q, 0);
  }

  lemma QueueStep(verts: seq<Triple>, m: nat, q: seq<nat>, tail: nat, r: seq<nat>, q': seq<nat>)
    requires QueueGives(verts, m, q, tail, r) && tail < |q| <= m
    requires q[tail] < |verts| && (forall i :: 0 <= i < |q| ==> q[i] < m)
    requires q' == WithFreedBy(verts, m, q, tail + 1, verts[q[tail]])
    ensures QueueGives(verts, m, q', tail + 1, r)
  {
    hide WithFreedBy;
  }

  lemma QueueIsDone(verts: seq<Triple>, m: nat, q: seq<nat>, tail: nat, r: seq<nat>)
    requires QueueGives(verts, m, q, tail, r) && tail == |q|
    ensures q == r
  {
  }

  /** `bdz_generate_queue`: it succeeds exactly if the queue of the bytes takes all edges. When it fails, the edges left
      over are a nonempty core, and the hypergraph cannot be peeled. When it succeeds, and the degrees fit their
      counters, the queue is a peeling order. But it also succeeds when every edge has a counter that reads 1, whatever
      the degrees are. */
  method GenerateQueue(graph: Graph3, m: nat, queue: array<nat>, ghost adj0: seq<seq<nat>>) returns (ok: bool)
    requires graph.Holds(adj0) && graph.nedges == m == queue.Length <= graph.vertices.Length
    requires queue != graph.firstEdge && queue != graph.vertDegree
    requires InStep(graph.vertices[..], m, adj0, [], 0)
    modifies graph.nextEdges, graph.firstEdge, graph.vertDegree, queue
    ensures ok <==> |ByteQueue(graph.vertices[..], m)| == m
    ensures ok ==> QueueOf(queue[..], m) && queue[..] == ByteQueue(graph.vertices[..], m)
    ensures ok && CountersFit(adj0) ==> PeelingOf(graph.vertices[..], queue[..], m)
    ensures !ok ==> HasCore(graph.vertices[..], m) && NoOrder(graph.vertices[..], m)
    ensures AllReadFree(graph.vertices[..], adj0, m) ==> ok
  {
    hide Queued, CountersFit, AllReadFree, QueueOf, Contains, PeelingOf, HasCore, NoOrder, InStep, FirstQueue,
      QueueFrom, UpTo;
    var marked := new bool[m](_ => false);
    ghost var verts, adj := graph.vertices[..], adj0;
    EdgesAreOk(graph.View(), m, adj);
    AllThere(verts, m, adj);
    NothingQueued(verts, adj, marked[..]);
    var head := QueueFreeEdges(graph, queue, marked, m, adj, UpTo(m));
    FirstInStep(verts, m, adj, queue[..head]);
    head := PeelAll(graph, queue, head, marked, adj, UpTo(m));
    ok := head == m;
    assert ok ==> queue[..] == queue[..head];
    ByteQueueMeans(verts, m, adj);
  }

  lemma FirstInStep(verts: seq<Triple>, m: nat, adj: seq<seq<nat>>, q: seq<nat>)
    requires InStep(verts, m, adj, [], 0) && q == FirstQueue(verts, m, m)
    ensures InStep(verts, m, adj, q, 0) && forall i :: 0 <= i < |q| ==> q[i] < m
  {
    hide EdgesLeft, FirstQueue;
    var none: seq<nat> := [];
    assert none[..0] == q[..0];
  }

  lemma NothingQueued(verts: seq<Triple>, adj: seq<seq<nat>>, mk: seq<bool>)
    requires |mk| <= |verts| && Contains(verts, adj, UpTo(|mk|))
    requires forall e :: 0 <= e < |mk| ==> EdgeOk(verts[e], |adj|)
    requires forall e :: 0 <= e < |mk| ==> !mk[e]
    ensures Queued(verts, adj, UpTo(|mk|), [], 0, mk)
  {
  }

  lemma EdgesAreOk(g: Links, nedges: nat, adj: seq<seq<nat>>)
    requires GraphOk(g, nedges, adj)
    ensures nedges <= |g.verts| && forall e :: 0 <= e < nedges ==> EdgeOk(g.verts[e], |adj|)
  {
  }
}
