/**
 The queue that the peeling of BDZ (bdz.c) builds, as a function of the hypergraph. A vertex gives up an edge when the
 byte that counts its edges reads 1.
 */
module BdzQueue {
  import opened Counting
  import opened Hypergraph

  /** Of the first `k` edges those at `v` that are not gone yet, in the order of the vertex's list: the last comes
      first. */
  function EdgesLeft(verts: seq<Triple>, v: nat, k: nat, gone: seq<nat>): (r: seq<nat>)
    requires k <= |verts|
    ensures forall j :: 0 <= j < |r| ==> r[j] < k && verts[r[j]].Has(v) && r[j] !in gone
  {
    if k == 0 then []
    else
      var rest := EdgesLeft(verts, v, k - 1, gone);
      if verts[k - 1].Has(v) && k - 1 !in gone then [k - 1] + rest else rest
  }

  lemma {:induction false} LeftMinus(verts: seq<Triple>, v: nat, k: nat, gone: seq<nat>, e: nat)
    requires k <= |verts|
    ensures EdgesLeft(verts, v, k, gone + [e]) == Minus(EdgesLeft(verts, v, k, gone), e)
  {
    if k != 0 {
      LeftMinus(verts, v, k - 1, gone, e);
      var rest := EdgesLeft(verts, v, k - 1, gone);
      assert k - 1 in gone + [e] <==> k - 1 in gone || k - 1 == e;
      assert ([k - 1] + rest)[1..] == rest;
    }
  }

  /** These are all of them, each once. */
  lemma {:induction false} LeftAre(verts: seq<Triple>, v: nat, k: nat, gone: seq<nat>, e: nat)
    requires k <= |verts|
    ensures e in EdgesLeft(verts, v, k, gone) <==> e < k && verts[e].Has(v) && e !in gone
  {
    if k != 0 {
      LeftAre(verts, v, k - 1, gone, e);
    }
  }

  lemma {:induction false} LeftDistinct(verts: seq<Triple>, v: nat, k: nat, gone: seq<nat>)
    requires k <= |verts|
    ensures Distinct(EdgesLeft(verts, v, k, gone))
  {
    if k != 0 {
      LeftDistinct(verts, v, k - 1, gone);
      var rest := EdgesLeft(verts, v, k - 1, gone);
      if k - 1 !in rest {
        DistinctCons(k - 1, rest);
      }
    }
  }

  /** The lists hold the edges that are left when the first `tail` of the queue are gone. */
  ghost predicate InStep(verts: seq<Triple>, m: nat, adj: seq<seq<nat>>, queue: seq<nat>, tail: nat) {
    && m <= |verts| && tail <= |queue|
    && forall v :: 0 <= v < |adj| ==> adj[v] == EdgesLeft(verts, v, m, queue[..tail])
  }

  lemma StaysInStep(verts: seq<Triple>, m: nat, adj: seq<seq<nat>>, adj': seq<seq<nat>>, queue: seq<nat>, tail: nat)
    requires InStep(verts, m, adj, queue, tail) && tail < |queue| && queue[tail] < |verts| && |adj'| == |adj|
    requires forall v :: 0 <= v < |adj| ==>
               adj'[v] == if verts[queue[tail]].Has(v) then Minus(adj[v], queue[tail]) else adj[v]
    ensures InStep(verts, m, adj', queue, tail + 1)
  {
    hide EdgesLeft, Minus;
    var e := queue[tail];
    assert queue[..tail + 1] == queue[..tail] + [e];
    forall v | 0 <= v < |adj|
      ensures adj'[v] == EdgesLeft(verts, v, m, queue[..tail + 1])
    {
      LeftMinus(verts, v, m, queue[..tail], e);
      if !verts[e].Has(v) {
        MinusNone(adj[v], e);
      }
    }
  }

  /** With all edges there, the counter of the vertex reads 1. */
  ghost predicate CounterReadsOne(verts: seq<Triple>, m: nat, v: nat)
    requires m <= |verts|
  {
    |EdgesLeft(verts, v, m, [])| % 256 == 1
  }

  /** What the first loop has queued after `k` edges */
  ghost function FirstQueue(verts: seq<Triple>, m: nat, k: nat): (q: seq<nat>)
    requires k <= m <= |verts|
    ensures forall i :: 0 <= i < |q| ==> q[i] < k
  {
    if k == 0 then []
    else
      var t := verts[k - 1];
      FirstQueue(verts, m, k - 1)
      + if CounterReadsOne(verts, m, t.x0) || CounterReadsOne(verts, m, t.x1) || CounterReadsOne(verts, m, t.x2)
        then [k - 1] else []
  }

  /** These are the edges with a vertex whose counter reads 1, in increasing order. */
  lemma {:induction false} FirstQueueMeans(verts: seq<Triple>, m: nat, k: nat)
    requires k <= m <= |verts|
    ensures forall i, j :: 0 <= i < j < |FirstQueue(verts, m, k)| ==>
              FirstQueue(verts, m, k)[i] < FirstQueue(verts, m, k)[j]
    ensures forall e :: e in FirstQueue(verts, m, k)
                        <==> 0 <= e < k && exists v :: verts[e].Has(v) && CounterReadsOne(verts, m, v)
  {
    hide CounterReadsOne;
    if k != 0 {
      FirstQueueMeans(verts, m, k - 1);
      var t := verts[k - 1];
      assert t.Has(t.x0) && t.Has(t.x1) && t.Has(t.x2);
    }
  }

  /** If the counter of `v` reads 1 when the first `tail` edges of the queue are gone, the first of its list joins the
      queue. */
  ghost function WithFreed(verts: seq<Triple>, m: nat, queue: seq<nat>, tail: nat, v: nat): (q: seq<nat>)
    requires m <= |verts| && tail <= |queue| && forall i :: 0 <= i < |queue| ==> queue[i] < m
    ensures queue <= q && forall i :: 0 <= i < |q| ==> q[i] < m
  {
    var left := EdgesLeft(verts, v, m, queue[..tail]);
    if |left| % 256 == 1 && left[0] !in queue then queue + [left[0]] else queue
  }

  /** The same for the three vertices of an edge */
  ghost function WithFreedBy(verts: seq<Triple>, m: nat, queue: seq<nat>, tail: nat, t: Triple): (q: seq<nat>)
    requires m <= |verts| && tail <= |queue| && forall i :: 0 <= i < |queue| ==> queue[i] < m
    ensures queue <= q && forall i :: 0 <= i < |q| ==> q[i] < m
  {
    var q0 := WithFreed(verts, m, queue, tail, t.x0);
    var q1 := WithFreed(verts, m, q0, tail, t.x1);
    WithFreed(verts, m, q1, tail, t.x2)
  }

  /** The rest of the peeling: the edge at place `tail` goes, and those that it frees join the queue. */
  ghost function QueueFrom(verts: seq<Triple>, m: nat, queue: seq<nat>, tail: nat): (q: seq<nat>)
    requires m <= |verts| && forall i :: 0 <= i < |queue| ==> queue[i] < m
    decreases m - tail
  {
    if tail >= |queue| || tail >= m then queue
    else QueueFrom(verts, m, WithFreedBy(verts, m, queue, tail + 1, verts[queue[tail]]), tail + 1)
  }

  /** The queue in the end */
  ghost function ByteQueue(verts: seq<Triple>, m: nat): (q: seq<nat>)
    requires m <= |verts|
  {
    QueueFrom(verts, m, FirstQueue(verts, m, m), 0)
  }
}
