/**
 BDZ (bdz.c): a key is an edge of a random 3-partite hypergraph. When the hypergraph can be
 peeled, every edge gets a vertex of its own, and the number of assigned vertices below that one is the
 value of the key.
 */
module Bdz {
  import opened Words
  import opened Counting
  import opened Select
  import opened PerfectHashing
  import opened Hypergraph
  import opened BdzQueue
  import opened BdzPeeling
  import opened BdzAssigning
  import opened TwoBits
  import opened Hashing
  import opened Options

  // ---------- the hypergraph ----------

  /** The vertices of a key: one in each third of the `3 * r` vertices */
  function EdgeOf(hl: HashVector, r: nat): (t: Triple)
    requires r >= 1
    ensures EdgeOk(t, 3 * r)
  {
    Triple(Mod(hl.h0, r), Mod(hl.h1, r) + r, Mod(hl.h2, r) + 2 * r)
  }

  function Edges<Key>(hash: HashFamily<Key>, seed: nat, keys: seq<Key>, r: nat): (edges: seq<Triple>)
    requires r >= 1
    ensures |edges| == |keys| && EdgesOk(edges, 3 * r)
  {
    var edges := seq(|keys|, i requires 0 <= i < |keys| => EdgeOf(hash(seed, keys[i]), r));
    assert forall i :: 0 <= i < |edges| ==> edges[i] == EdgeOf(hash(seed, keys[i]), r);
    edges
  }

  /** One vertex in each third, where the remainder of its hash value says */
  lemma EdgeOfMeans(hl: HashVector, r: nat)
    requires r >= 1
    ensures var t := EdgeOf(hl, r);
            && t.x0 < r <= t.x1 < 2 * r <= t.x2 < 3 * r
            && t.x0 == hl.h0 % r && t.x1 == hl.h1 % r + r && t.x2 == hl.h2 % r + 2 * r
  {
    ModIsRemainder(hl.h0, r);
    ModIsRemainder(hl.h1, r);
    ModIsRemainder(hl.h2, r);
  }

  /** Two keys share their i-th vertex if and only if their i-th hash values leave the same remainder; they share no
      other vertices. */
  lemma SharedVertices<Key>(hash: HashFamily<Key>, seed: nat, keys: seq<Key>, r: nat, i: nat, j: nat)
    requires r >= 1 && i < |keys| && j < |keys|
    ensures var h, h' := hash(seed, keys[i]), hash(seed, keys[j]);
            var t, t' := Edges(hash, seed, keys, r)[i], Edges(hash, seed, keys, r)[j];
            && (t.x0 == t'.x0 <==> h.h0 % r == h'.h0 % r)
            && (t.x1 == t'.x1 <==> h.h1 % r == h'.h1 % r)
            && (t.x2 == t'.x2 <==> h.h2 % r == h'.h2 % r)
            && t.x0 != t'.x1 && t.x0 != t'.x2 && t.x1 != t'.x2
  {
    EdgeOfMeans(hash(seed, keys[i]), r);
    EdgeOfMeans(hash(seed, keys[j]), r);
  }

  /** How many of the first `k` edges have vertex `v` */
  function Degree(edges: seq<Triple>, v: nat, k: nat): (d: nat)
    requires k <= |edges|
  {
    if k == 0 then 0 else Degree(edges, v, k - 1) + (if edges[k - 1].Has(v) then 1 else 0)
  }

  /** The lists of the graph after the first `k` edges are added */
  ghost function Lists(edges: seq<Triple>, n: nat, k: nat): (adj: seq<seq<nat>>)
    requires k <= |edges|
    ensures |adj| == n
  {
    if k == 0 then seq(n, _ => []) else LinkedAdj(Lists(edges, n, k - 1), k - 1, edges[k - 1])
  }

  lemma {:induction false} ListsHold(edges: seq<Triple>, n: nat, k: nat)
    requires k <= |edges|
    ensures forall v :: 0 <= v < n ==> |Lists(edges, n, k)[v]| == Degree(edges, v, k)
  {
    if k != 0 {
      ListsHold(edges, n, k - 1);
    }
  }

  /** The degrees of the hypergraph cannot be misread from bytes. */
  ghost predicate DegreesFit(edges: seq<Triple>, n: nat) {
    forall v :: 0 <= v < n ==> Degree(edges, v, |edges|) <= 256
  }

  /** Every edge has a vertex whose degree reads as 1. */
  ghost predicate AllReadOne(edges: seq<Triple>) {
    forall e :: 0 <= e < |edges| ==> ReadsOneAt(edges, e)
  }

  ghost predicate ReadsOneAt(edges: seq<Triple>, e: nat)
    requires e < |edges|
  {
    || Degree(edges, edges[e].x0, |edges|) % 256 == 1
    || Degree(edges, edges[e].x1, |edges|) % 256 == 1
    || Degree(edges, edges[e].x2, |edges|) % 256 == 1
  }

  /** The lists are in the order in which the edges came, the last first. */
  lemma {:induction false} ListsInOrder(edges: seq<Triple>, n: nat, k: nat, v: nat)
    requires k <= |edges| && v < n
    ensures Lists(edges, n, k)[v] == EdgesLeft(edges, v, k, [])
  {
    if k != 0 {
      ListsInOrder(edges, n, k - 1, v);
    }
  }

  lemma ListsInStep(edges: seq<Triple>, n: nat)
    ensures InStep(edges, |edges|, Lists(edges, n, |edges|), [], 0)
  {
    hide Lists, EdgesLeft;
    forall v | 0 <= v < n
      ensures Lists(edges, n, |edges|)[v] == EdgesLeft(edges, v, |edges|, [][..0])
    {
      ListsInOrder(edges, n, |edges|, v);
    }
  }

  lemma DegreesOfLists(edges: seq<Triple>, n: nat)
    requires EdgesOk(edges, n)
    ensures DegreesFit(edges, n) ==> CountersFit(Lists(edges, n, |edges|))
    ensures AllReadOne(edges) ==> AllReadFree(edges, Lists(edges, n, |edges|), |edges|)
  {
    ListsHold(edges, n, |edges|);
    var adj := Lists(edges, n, |edges|);
    assert forall v :: 0 <= v < n ==> |adj[v]| == Degree(edges, v, |edges|);
    hide Degree, Lists;
    forall e | 0 <= e < |edges| && AllReadOne(edges)
      ensures EdgeOk(edges[e], |adj|) && ReadsFree(edges, adj, e)
    {
      assert EdgeOk(edges[e], n) && ReadsOneAt(edges, e);
    }
  }

  /** The loop of `bdz_mapping`: one edge for every key */
  method AddEdges<Key>(hash: HashFamily<Key>, seed: nat, keys: seq<Key>, r: nat, graph: Graph3)
    requires r >= 1 && graph.Allocated() && graph.vertices.Length == |keys| && graph.firstEdge.Length == 3 * r
    modifies graph, graph.vertices, graph.nextEdges, graph.firstEdge, graph.vertDegree
    ensures graph.Holds(Lists(Edges(hash, seed, keys, r), 3 * r, |keys|)) && graph.nedges == |keys|
    ensures graph.vertices[..] == Edges(hash, seed, keys, r)
  {
    ghost var edges := Edges(hash, seed, keys, r);
    graph.Init();
    hide EdgeOf, LinkedAdj;
    for e := 0 to |keys|
      invariant graph.Holds(Lists(edges, 3 * r, e)) && graph.nedges == e
      invariant graph.vertices[..e] == edges[..e]
    {
      var t := EdgeOf(hash(seed, keys[e]), r);
      ghost var before := graph.vertices[..];
      graph.AddEdge(t.x0, t.x1, t.x2, Lists(edges, 3 * r, e));
      assert t == edges[e] == Triple(t.x0, t.x1, t.x2);
      OneMore(before, edges, e);
    }
  }

  lemma OneMore(before: seq<Triple>, edges: seq<Triple>, e: nat)
    requires e < |edges| == |before| && before[..e] == edges[..e]
    ensures before[e := edges[e]][..e + 1] == edges[..e + 1]
  {
  }

  /** There is an order in which the edges can be peeled. */
  ghost predicate CanBePeeled(edges: seq<Triple>) {
    exists order :: PeelingOf(edges, order, |edges|)
  }

  /** With the counters as bytes, all edges go. */
  ghost predicate Accepted(edges: seq<Triple>) {
    |ByteQueue(edges, |edges|)| == |edges|
  }

  /** They go in a peeling order. */
  ghost predicate PeelsInOrder(edges: seq<Triple>, n: nat) {
    Accepted(edges) && PeeledOk(edges, ByteQueue(edges, |edges|), n)
  }

  /** Every hypergraph that can be peeled is accepted. If the degrees fit their counters, no other is, and the edges go
      in a peeling order. Whatever the degrees are, it is accepted if every edge has a vertex whose degree reads as 1.
      */
  lemma AcceptedMeans(edges: seq<Triple>, n: nat)
    requires EdgesOk(edges, n)
    ensures CanBePeeled(edges) ==> Accepted(edges)
    ensures DegreesFit(edges, n) && Accepted(edges) ==> CanBePeeled(edges) && PeelsInOrder(edges, n)
    ensures AllReadOne(edges) ==> Accepted(edges)
    ensures Accepted(edges) ==> QueueOf(ByteQueue(edges, |edges|), |edges|)
  {
    hide DegreesFit, HasCore, CountersFit, AllReadFree, AllReadOne, QueueOf, PeelingOf, NoOrder, CanBePeeled, PeeledOk,
      InStep, ByteQueue, EdgesOk, Lists;
    var q := ByteQueue(edges, |edges|);
    DegreesOfLists(edges, n);
    ListsInStep(edges, n);
    EachEdgeOk(edges, n);
    ByteQueueMeans(edges, |edges|, Lists(edges, n, |edges|));
    if Accepted(edges) {
      PeeledInOrder(edges, q, n);
      if DegreesFit(edges, n) {
        PeeledCanBe(edges, q, n);
      }
    } else {
      NotPeeled(edges);
    }
  }

  lemma EachEdgeOk(edges: seq<Triple>, n: nat)
    requires EdgesOk(edges, n)
    ensures forall e :: 0 <= e < |edges| ==> EdgeOk(edges[e], n)
  {
  }

  /** `bdz_mapping` */
  method Mapping<Key>(hash: HashFamily<Key>, seed: nat, keys: seq<Key>, r: nat, graph: Graph3, queue: array<nat>)
    returns (ok: bool)
    requires r >= 1 && graph.Allocated() && graph.vertices.Length == |keys| == queue.Length
    requires graph.firstEdge.Length == 3 * r && queue != graph.firstEdge && queue != graph.vertDegree
    modifies graph, graph.vertices, graph.nextEdges, graph.firstEdge, graph.vertDegree, queue
    ensures graph.vertices[..] == Edges(hash, seed, keys, r)
    ensures ok <==> Accepted(Edges(hash, seed, keys, r))
    ensures ok ==> QueueOf(queue[..], |keys|) && queue[..] == ByteQueue(Edges(hash, seed, keys, r), |keys|)
    ensures CanBePeeled(Edges(hash, seed, keys, r)) ==> ok
    ensures ok && DegreesFit(Edges(hash, seed, keys, r), 3 * r) ==> CanBePeeled(Edges(hash, seed, keys, r))
  {
    hide Edges, DegreesFit, HasCore, CountersFit, AllReadFree, AllReadOne, QueueOf, PeelingOf, NoOrder, CanBePeeled,
      PeeledOk, InStep, ByteQueue, Lists;
    ghost var edges := Edges(hash, seed, keys, r);
    AddEdges(hash, seed, keys, r, graph);
    ListsInStep(edges, 3 * r);
    AcceptedMeans(edges, 3 * r);
    ok := GenerateQueue(graph, |keys|, queue, Lists(edges, 3 * r, |keys|));
  }

  lemma PeeledInOrder(edges: seq<Triple>, queue: seq<nat>, n: nat)
    requires QueueOf(queue, |edges|) && EdgesOk(edges, n)
    ensures PeelingOf(edges, queue, |edges|) ==> PeeledOk(edges, queue, n)
  {
  }

  lemma NotPeeled(edges: seq<Triple>)
    requires NoOrder(edges, |edges|)
    ensures !CanBePeeled(edges)
  {
  }

  lemma PeeledCanBe(edges: seq<Triple>, queue: seq<nat>, n: nat)
    requires PeeledOk(edges, queue, n)
    ensures CanBePeeled(edges)
  {
  }

  /** Equal edges */
  ghost predicate AllEqual(edges: seq<Triple>, t: Triple) {
    forall e :: 0 <= e < |edges| ==> edges[e] == t
  }

  /** Two equal edges or more cannot be peeled. */
  lemma EqualEdgesAreCore(edges: seq<Triple>, t: Triple)
    requires |edges| >= 2 && AllEqual(edges, t)
    ensures !CanBePeeled(edges)
  {
    var core := UpTo(|edges|);
    forall e, v: nat | e in core && edges[e].Has(v)
      ensures Shared(edges, core, e, v)
    {
      var other := if e == 0 then 1 else 0;
      assert other in core && edges[other] == t == edges[e];
    }
    assert 0 in core;
    NoPeelingOrder(edges, |edges|, core);
    NotPeeled(edges);
  }

  lemma EqualEdgesReadOne(edges: seq<Triple>, t: Triple)
    requires |edges| == 257 && AllEqual(edges, t)
    ensures AllReadOne(edges)
  {
    DegreeOfEqual(edges, t, |edges|);
    ReadsOne(|edges|);
    hide Degree;
    forall e | 0 <= e < |edges|
      ensures ReadsOneAt(edges, e)
    {
      assert edges[e].x0 == t.x0;
    }
  }

  /** The input on which the counters mislead: 257 equal edges all read as free, so that the mapping accepts them. They
      cannot be peeled, and whatever the values are, all of them pick the same vertex. */
  lemma EqualEdgesMislead(edges: seq<Triple>, t: Triple, vals: seq<nat>)
    requires |edges| == 257 && AllEqual(edges, t) && EdgeOk(t, |vals|)
    ensures AllReadOne(edges) && !CanBePeeled(edges)
    ensures forall e :: 0 <= e < |edges| ==> Choice(vals, edges[e]) == Choice(vals, t)
  {
    EqualEdgesReadOne(edges, t);
    EqualEdgesAreCore(edges, t);
  }

  lemma {:induction false} DegreeOfEqual(edges: seq<Triple>, t: Triple, k: nat)
    requires k <= |edges| && AllEqual(edges, t)
    ensures Degree(edges, t.x0, k) == k
  {
    if k != 0 {
      DegreeOfEqual(edges, t, k - 1);
    }
  }

  /** None of the first `k` hash functions gives a hypergraph that is accepted, or one that can be peeled. */
  ghost predicate NoneTaken<Key>(hash: HashFamily<Key>, keys: seq<Key>, r: nat, k: nat)
    requires r >= 1
  {
    forall seed: nat :: seed < k ==> !Accepted(Edges(hash, seed, keys, r)) && !CanBePeeled(Edges(hash, seed, keys, r))
  }

  /** The mapping step of `bdz_new` and `bdz_ph_new`: up to `tries` hash functions. It stops at the first whose
      hypergraph is accepted. */
  method MappingStep<Key>(hash: HashFamily<Key>, keys: seq<Key>, r: nat, tries: nat)
    returns (ok: bool, seed: nat, edges: seq<Triple>, queue: seq<nat>)
    requires r >= 1 && |keys| <= NULL_EDGE && tries >= 1
    ensures seed < tries && NoneTaken(hash, keys, r, seed)
    ensures ok <==> !NoneTaken(hash, keys, r, tries)
    ensures ok ==> edges == Edges(hash, seed, keys, r) && Accepted(edges)
    ensures ok ==> QueueOf(queue, |keys|) && queue == ByteQueue(edges, |edges|)
    ensures ok && DegreesFit(edges, 3 * r) ==> CanBePeeled(edges) && PeelsInOrder(edges, 3 * r)
  {
    hide CanBePeeled, DegreesFit, Edges, QueueOf, PeeledOk, Accepted, ByteQueue;
    var graph := new Graph3(|keys|, 3 * r);
    var edgeQueue := new nat[|keys|];
    var iterations := tries;
    seed := 0;
    while true
      invariant 1 <= iterations <= tries && seed == tries - iterations
      invariant NoneTaken(hash, keys, r, seed)
      decreases iterations
    {
      ok := Mapping(hash, seed, keys, r, graph, edgeQueue);
      if ok {
        break;
      }
      iterations := iterations - 1;
      if iterations == 0 {
        return false, seed, [], [];
      }
      seed := seed + 1;
    }
    edges, queue := graph.vertices[..], edgeQueue[..];
    AcceptedMeans(edges, 3 * r);
  }

  // ---------- ranks ----------

  /** Which vertices are assigned */
  function Assigned(vals: seq<nat>): (b: seq<bool>)
    ensures |b| == |vals|
  {
    seq(|vals|, v requires 0 <= v < |vals| => vals[v] != UNASSIGNED)
  }

  /** The assigned vertices of the first `k` bytes, by the lookup table */
  function AssignedInBytes(g: seq<Byte>, k: nat): (c: nat)
    requires k <= |g|
  {
    if k == 0 then 0 else AssignedInBytes(g, k - 1) + AssignedLookup(g[k - 1])
  }

  lemma {:induction false} BytesCountVertices(g: seq<Byte>, k: nat)
    requires k <= |g|
    ensures AssignedInBytes(g, k) == TakenBelow(Assigned(Values(g)), 4 * k)
  {
    if k != 0 {
      BytesCountVertices(g, k - 1);
      ByteOfVertices(g, k - 1);
      FourSteps(Assigned(Values(g)), 4 * (k - 1));
      hide Values, Assigned, PairValue, TakenBelow;
    }
  }

  lemma FourSteps(b: seq<bool>, v: nat)
    requires v + 4 <= |b|
    ensures TakenBelow(b, v + 4) == TakenBelow(b, v) + (if b[v] then 1 else 0) + (if b[v + 1] then 1 else 0)
                                    + (if b[v + 2] then 1 else 0) + (if b[v + 3] then 1 else 0)
  {
    OnesStep(b, v);
    OnesStep(b, v + 1);
    OnesStep(b, v + 2);
    OnesStep(b, v + 3);
  }

  lemma ByteOfVertices(g: seq<Byte>, k: nat)
    requires k < |g|
    ensures var b := Assigned(Values(g));
            && b[4 * k] == (PairValue(g[k], 0) != UNASSIGNED)
            && b[4 * k + 1] == (PairValue(g[k], 1) != UNASSIGNED)
            && b[4 * k + 2] == (PairValue(g[k], 2) != UNASSIGNED)
            && b[4 * k + 3] == (PairValue(g[k], 3) != UNASSIGNED)
  {
    assert (4 * k + 1) / 4 == k && (4 * k + 2) / 4 == k && (4 * k + 3) / 4 == k;
  }

  /** Entry `i` of the rank table counts the assigned vertices below vertex `i << b`. */
  ghost predicate RankEntry(table: seq<nat>, g: seq<Byte>, b: nat, i: nat)
    requires i < |table| && 2 <= b
  {
    ShiftLeft(i, b - 2) <= |g| && table[i] == AssignedInBytes(g, ShiftLeft(i, b - 2))
  }

  ghost predicate RankTable(table: seq<nat>, g: seq<Byte>, b: nat, k: nat)
    requires k <= |table| && 2 <= b
  {
    forall i :: 0 <= i < k ==> RankEntry(table, g, b, i)
  }

  /** `ceil(n / 2^b)`: the entries of the rank table */
  function RankTableSize(n: nat, b: nat): (size: nat)
  {
    ShiftRight(n + Pow2(b) - 1, b)
  }

  lemma {:induction false} ShiftRightPlusPow2(x: nat, b: nat)
    ensures ShiftRight(x + Pow2(b), b) == ShiftRight(x, b) + 1
  {
    if b != 0 {
      ShiftRightPlusPow2(x / 2, b - 1);
    }
  }

  lemma {:induction false} ShiftOfOne(b: nat)
    ensures ShiftLeft(1, b) == Pow2(b)
  {
    if b != 0 {
      ShiftOfOne(b - 1);
    }
  }

  /** Every vertex has an entry. */
  lemma EntryOfVertex(n: nat, b: nat, v: nat)
    requires v < n
    ensures ShiftRight(v, b) < RankTableSize(n, b)
  {
    ShiftRightPlusPow2(v, b);
    ShiftRightMonotone(v + Pow2(b), n + Pow2(b) - 1, b);
  }

  /** Every entry belongs to a vertex. */
  lemma VertexOfEntry(n: nat, b: nat, i: nat)
    requires i < RankTableSize(n, b)
    ensures ShiftLeft(i, b) < n
  {
    hide ShiftLeft, ShiftRight;
    var size := RankTableSize(n, b);
    ShiftAndLow(n + Pow2(b) - 1, b);
    ShiftLeftAdd(i + 1, size - (i + 1), b);
    ShiftLeftAdd(i, 1, b);
    ShiftOfOne(b);
  }

  lemma EntryInBytes(n: nat, b: nat, i: nat)
    requires 2 <= b && i < RankTableSize(n, b)
    ensures ShiftLeft(i, b) == 4 * ShiftLeft(i, b - 2) && ShiftLeft(i, b - 2) < (n + 3) / 4
  {
    VertexOfEntry(n, b, i);
    assert ShiftLeft(i, b) == 2 * ShiftLeft(i, b - 1);
  }

  /** That is, the number of entries is the quotient rounded up, and entry `i` counts what is below vertex `i * 2^b`. */
  lemma RankEntryMeans(table: seq<nat>, g: seq<Byte>, b: nat, i: nat)
    requires i < |table| && 2 <= b && RankEntry(table, g, b, i)
    ensures i * Pow2(b) <= 4 * |g| && table[i] == TakenBelow(Assigned(Values(g)), i * Pow2(b))
  {
    hide ShiftLeft, TakenBelow, Values, Assigned, AssignedInBytes;
    BytesCountVertices(g, ShiftLeft(i, b - 2));
    ShiftLeftIsProduct(i, b);
    ShiftLeftIsProduct(i, b - 2);
    assert Pow2(b) == 2 * Pow2(b - 1) == 4 * Pow2(b - 2);
    assert i * Pow2(b) == 4 * (i * Pow2(b - 2));
  }

  lemma RankTableSizeMeans(n: nat, b: nat)
    requires n >= 1
    ensures RankTableSize(n, b) >= 1 && (RankTableSize(n, b) - 1) * Pow2(b) < n <= RankTableSize(n, b) * Pow2(b)
  {
    hide Pow2, ShiftRight;
    var x := n + Pow2(b) - 1;
    ShiftAndLow(x, b);
    ShiftLeftIsProduct(ShiftRight(x, b), b);
    RoundedUp(n, Pow2(b), ShiftRight(x, b), LowBits(x, b));
  }

  lemma RoundedUp(n: nat, p: nat, q: nat, r: nat)
    requires n >= 1 && n + p - 1 == q * p + r && r < p
    ensures q >= 1 && (q - 1) * p < n <= q * p
  {
    assert (q - 1) * p == q * p - p;
  }

  /** One round of `ranking`: the bytes between two entries */
  method CountBytes(g: seq<Byte>, offset: nat, nbytes: nat, count0: nat) returns (count: nat)
    requires offset + nbytes <= |g| && count0 == AssignedInBytes(g, offset)
    ensures count == AssignedInBytes(g, offset + nbytes)
  {
    count := count0;
    for j := 0 to nbytes
      invariant count == AssignedInBytes(g, offset + j)
    {
      count := count + AssignedLookup(g[offset + j]);
    }
  }

  /** `ranking` */
  method Ranking(g: seq<Byte>, n: nat, b: nat) returns (ranktable: array<nat>)
    requires 3 <= b && 1 <= n && |g| == (n + 3) / 4
    ensures ranktable.Length == RankTableSize(n, b) && RankTable(ranktable[..], g, b, ranktable.Length)
  {
    var ranktablesize := RankTableSize(n, b);
    EntryOfVertex(n, b, 0);
    var size := Pow2(b) / 4;
    ranktable := new nat[ranktablesize](_ => 0);
    var offset, count, nbytesTotal := 0, 0, (n + 3) / 4;
    var i := 1;
    FirstEntry(ranktable[..], g, b);
    hide RankTable, RankTableSize, ShiftLeft, AssignedInBytes;
    while i != ranktablesize
      invariant 1 <= i <= ranktablesize && RankTable(ranktable[..], g, b, i)
      invariant offset == ShiftLeft(i - 1, b - 2) <= |g| && count == AssignedInBytes(g, offset)
      invariant nbytesTotal == (n + 3) / 4 - offset
      decreases ranktablesize - i
    {
      NextEntry(n, b, i);
      var nbytes := if size < nbytesTotal then size else nbytesTotal;
      count := CountBytes(g, offset, nbytes, count);
      SetEntry(ranktable, g, b, i, count);
      offset := offset + nbytes;
      nbytesTotal := nbytesTotal - size;
      i := i + 1;
    }
  }

  lemma FirstEntry(table: seq<nat>, g: seq<Byte>, b: nat)
    requires 2 <= b && |table| >= 1 && table[0] == 0
    ensures RankTable(table, g, b, 1) && ShiftLeft(0, b - 2) == 0 && AssignedInBytes(g, 0) == 0
  {
    ShiftLeftAdd(0, 0, b - 2);
  }

  /** The step from one entry to the next is always a full one. */
  lemma NextEntry(n: nat, b: nat, i: nat)
    requires 3 <= b && 1 <= i < RankTableSize(n, b)
    ensures ShiftLeft(i, b - 2) == ShiftLeft(i - 1, b - 2) + Pow2(b) / 4 < (n + 3) / 4
  {
    EntryInBytes(n, b, i);
    ShiftLeftAdd(i - 1, 1, b - 2);
    ShiftOfOne(b - 2);
    assert Pow2(b) == 2 * Pow2(b - 1) == 4 * Pow2(b - 2);
  }

  method SetEntry(table: array<nat>, g: seq<Byte>, b: nat, i: nat, count: nat)
    requires 2 <= b && i < table.Length && RankTable(table[..], g, b, i)
    requires ShiftLeft(i, b - 2) <= |g| && count == AssignedInBytes(g, ShiftLeft(i, b - 2))
    modifies table
    ensures RankTable(table[..], g, b, i + 1)
  {
    ghost var before := table[..];
    table[i] := count;
    assert table[..] == before[i := count];
    forall k | 0 <= k < i + 1
      ensures RankEntry(table[..], g, b, k)
    {
      assert k < i ==> RankEntry(before, g, b, k);
    }
  }

  /** Where the counting starts: at the entry of the vertex, in its byte or before */
  lemma StartOfRank(b: nat, ranktable: seq<nat>, g: seq<Byte>, vertex: nat, n: nat)
    requires 3 <= b && |g| == (n + 3) / 4 && vertex < n
    requires |ranktable| == RankTableSize(n, b) && RankTable(ranktable, g, b, |ranktable|)
    ensures var index := ShiftRight(vertex, b);
            var beg := ShiftLeft(index, b) / 4;
            && index < |ranktable| && beg <= vertex / 4 < |g| && ranktable[index] == AssignedInBytes(g, beg)
  {
    hide ShiftLeft, ShiftRight, RankTableSize, AssignedInBytes, LowBits;
    var index := ShiftRight(vertex, b);
    EntryOfVertex(n, b, vertex);
    assert RankEntry(ranktable, g, b, index);
    EntryInBytes(n, b, index);
    ShiftAndLow(vertex, b);
  }

  lemma OneMoreByte(g: seq<Byte>, k: nat)
    requires k < |g|
    ensures AssignedInBytes(g, k + 1) == AssignedInBytes(g, k) + AssignedLookup(g[k])
  {
  }

  /** `rank`: whole bytes by the lookup table, then single vertices */
  method Rank(b: nat, ranktable: seq<nat>, g: seq<Byte>, vertex: nat, ghost n: nat) returns (baseRank: nat)
    requires 3 <= b && |g| == (n + 3) / 4 && vertex < n
    requires |ranktable| == RankTableSize(n, b) && RankTable(ranktable, g, b, |ranktable|)
    ensures baseRank == TakenBelow(Assigned(Values(g)), vertex)
  {
    hide RankTable, RankTableSize, ShiftLeft, ShiftRight, Values, TakenBelow, AssignedInBytes, Assigned;
    StartOfRank(b, ranktable, g, vertex, n);
    var index := ShiftRight(vertex, b);
    baseRank := ranktable[index];
    var begIdxB, endIdxB := ShiftLeft(index, b) / 4, vertex / 4;
    while begIdxB < endIdxB
      invariant begIdxB <= endIdxB && baseRank == AssignedInBytes(g, begIdxB)
    {
      OneMoreByte(g, begIdxB);
      baseRank := baseRank + AssignedLookup(g[begIdxB]);
      begIdxB := begIdxB + 1;
    }
    BytesCountVertices(g, begIdxB);
    var begIdxV := 4 * begIdxB;
    while begIdxV < vertex
      invariant begIdxV <= vertex && baseRank == TakenBelow(Assigned(Values(g)), begIdxV)
    {
      TakenStep(Values(g), begIdxV);
      if GetValue(g, begIdxV) != UNASSIGNED {
        baseRank := baseRank + 1;
      }
      begIdxV := begIdxV + 1;
    }
  }

  lemma TakenStep(vals: seq<nat>, v: nat)
    requires v < |vals|
    ensures TakenBelow(Assigned(vals), v + 1) == TakenBelow(Assigned(vals), v) + if vals[v] != UNASSIGNED then 1 else 0
  {
    OnesStep(Assigned(vals), v);
  }

  // ---------- the function ----------

  /** `bdz_data_t`; the seed stands for the hash state. */
  datatype Bdz = Bdz(seed: nat, r: nat, b: nat, g: seq<Byte>, ranktable: seq<nat>)

  /** The tables fit each other. */
  ghost predicate Ranked(f: Bdz) {
    && f.r >= 1 && 3 <= f.b && |f.g| == (3 * f.r + 3) / 4
    && |f.ranktable| == RankTableSize(3 * f.r, f.b) && RankTable(f.ranktable, f.g, f.b, |f.ranktable|)
  }

  /** The vertex of a key: the one that the values of its three vertices point at */
  function Vertex(hl: HashVector, r: nat, vals: seq<nat>): (v: nat)
    requires r >= 1 && |vals| >= 3 * r
    ensures v < 3 * r
  {
    var t := EdgeOf(hl, r);
    assert EdgeOk(t, |vals|);
    Choice(vals, t)
  }

  /** In full: the three values, added, say which of the three vertices it is. */
  lemma VertexMeans(hl: HashVector, r: nat, vals: seq<nat>)
    requires r >= 1 && |vals| >= 3 * r
    ensures var x0, x1, x2 := hl.h0 % r, hl.h1 % r + r, hl.h2 % r + 2 * r;
            && x0 < |vals| && x1 < |vals| && x2 < |vals|
            && var i := (vals[x0] + vals[x1] + vals[x2]) % 3;
               Vertex(hl, r, vals) == if i == 0 then x0 else if i == 1 then x1 else x2
  {
    hide EdgeOf, Choice;
    EdgeOfMeans(hl, r);
    ChoiceMeans(vals, EdgeOf(hl, r));
  }

  lemma ChoiceMeans(vals: seq<nat>, t: Triple)
    requires EdgeOk(t, |vals|)
    ensures var i := (vals[t.x0] + vals[t.x1] + vals[t.x2]) % 3;
            Choice(vals, t) == if i == 0 then t.x0 else if i == 1 then t.x1 else t.x2
  {
  }

  /** `bdz_search`: for any key, the number of assigned vertices below its vertex */
  method Search<Key>(f: Bdz, hash: HashFamily<Key>, key: Key) returns (v: nat)
    requires Ranked(f)
    ensures v == TakenBelow(Assigned(Values(f.g)), Vertex(hash(f.seed, key), f.r, Values(f.g)))
  {
    var t := EdgeOf(hash(f.seed, key), f.r);
    assert EdgeOk(t, 4 * |f.g|);
    hide Values, GetValue, EdgeOf;
    var vertex := t.At((GetValue(f.g, t.x0) + GetValue(f.g, t.x1) + GetValue(f.g, t.x2)) % 3);
    v := Rank(f.b, f.ranktable, f.g, vertex, 3 * f.r);
  }

  /** The vertices of all the keys */
  function Vertices<Key>(hash: HashFamily<Key>, seed: nat, keys: seq<Key>, r: nat, vals: seq<nat>): (slots: seq<nat>)
    requires r >= 1 && |vals| >= 3 * r
    ensures |slots| == |keys|
  {
    seq<nat>(|keys|, i requires 0 <= i < |keys| => Vertex(hash(seed, keys[i]), r, vals))
  }

  /** What a successful construction promises for its keys */
  ghost predicate BuiltFor<Key>(f: Bdz, hash: HashFamily<Key>, keys: seq<Key>) {
    && Ranked(f)
    && PerfectlyHashed(Assigned(Values(f.g)), Vertices(hash, f.seed, keys, f.r, Values(f.g)))
  }

  /** The assigned vertices are exactly those of the keys, one each. */
  lemma AssigningIsPerfect<Key>(hash: HashFamily<Key>, seed: nat, keys: seq<Key>, r: nat, vals: seq<nat>)
    requires r >= 1 && PointsApart(vals, Edges(hash, seed, keys, r), 3 * r, UNASSIGNED) && PaddingUnset(vals, 3 * r)
    ensures PerfectlyHashed(Assigned(vals), Vertices(hash, seed, keys, r, vals))
  {
    var edges, slots := Edges(hash, seed, keys, r), Vertices(hash, seed, keys, r, vals);
    forall i | 0 <= i < |keys|
      ensures slots[i] == Choice(vals, edges[i])
    {
      assert edges[i] == EdgeOf(hash(seed, keys[i]), r);
    }
    forall v | 0 <= v < |vals| && Assigned(vals)[v]
      ensures v in slots
    {
      assert PointedAt(vals, edges, 0, v);
      var j :| 0 <= j < |edges| && Choice(vals, edges[j]) == v;
      assert slots[j] == v;
    }
  }

  lemma QueueStays(queue: seq<nat>, m: nat)
    requires QueueOf(queue, m)
    ensures forall j :: 0 <= j < |queue| ==> queue[j] < m
  {
  }

  /** `bdz_new`. The size `r` comes from a floating-point expression, and is given. The hypergraph of the seed taken is
      the first that can be peeled, if its degrees fit their counters; only then the function is promised to work. */
  method New<Key>(hash: HashFamily<Key>, keys: seq<Key>, r: nat, b: nat) returns (f: Option<Bdz>)
    requires r >= 1 && 3 * r < WORD_LIMIT && |keys| <= NULL_EDGE && 3 <= b <= 10
    ensures f.None? <==> NoneTaken(hash, keys, r, 1000)
    ensures f.Some? ==> f.value.r == r && Ranked(f.value)
    ensures f.Some? ==> f.value.seed < 1000 && NoneTaken(hash, keys, r, f.value.seed)
    ensures f.Some? ==> Accepted(Edges(hash, f.value.seed, keys, r))
    ensures f.Some? && PeelsInOrder(Edges(hash, f.value.seed, keys, r), 3 * r) ==> BuiltFor(f.value, hash, keys)
    ensures f.Some? && DegreesFit(Edges(hash, f.value.seed, keys, r), 3 * r) ==>
              CanBePeeled(Edges(hash, f.value.seed, keys, r)) && BuiltFor(f.value, hash, keys)
  {
    hide CanBePeeled, DegreesFit, Edges, RankTable, PerfectlyHashed, PeeledOk, PointsApart, ByteQueue, Accepted,
      QueueOf, NoneTaken;
    var ok, seed, edges, queue := MappingStep(hash, keys, r, 1000);
    if !ok {
      return None;
    }
    QueueStays(queue, |edges|);
    var g := Assigning(edges, queue, 3 * r);
    if PeelsInOrder(edges, 3 * r) {
      AssigningIsPerfect(hash, seed, keys, r, Values(g[..]));
    }
    var ranktable := Ranking(g[..], 3 * r, b);
    f := Some(Bdz(seed, r, b, g[..], ranktable[..]));
  }

  /** The values that the search gives to the keys */
  function KeyValues<Key>(hash: HashFamily<Key>, seed: nat, keys: seq<Key>, r: nat, vals: seq<nat>): (values: seq<nat>)
    requires r >= 1 && |vals| >= 3 * r
    ensures |values| == |keys|
  {
    seq<nat>(|keys|, i requires 0 <= i < |keys| => TakenBelow(Assigned(vals), Vertex(hash(seed, keys[i]), r, vals)))
  }

  /** End to end: the searched values of the keys are a minimal perfect hash. */
  lemma BuiltIsMinimalPerfect<Key>(f: Bdz, hash: HashFamily<Key>, keys: seq<Key>)
    requires BuiltFor(f, hash, keys)
    ensures MinimalPerfect(KeyValues(hash, f.seed, keys, f.r, Values(f.g)))
  {
    var vals := Values(f.g);
    var slots, values := Vertices(hash, f.seed, keys, f.r, vals), KeyValues(hash, f.seed, keys, f.r, vals);
    forall i | 0 <= i < |keys|
      ensures values[i] == TakenBelow(Assigned(vals), slots[i])
    {
      assert slots[i] == Vertex(hash(f.seed, keys[i]), f.r, vals);
    }
    RanksAreMinimalPerfect(Assigned(vals), slots, values);
  }

  /** Keys that all have the same edge at first, 257 of them, are taken with this hash function, and no function for it
      is what the construction promises. */
  lemma EqualKeysTaken<Key>(hash: HashFamily<Key>, keys: seq<Key>, r: nat, t: Triple, k: nat)
    requires r >= 1 && |keys| == 257 && AllEqual(Edges(hash, 0, keys, r), t)
    ensures Accepted(Edges(hash, 0, keys, r)) && (NoneTaken(hash, keys, r, k) ==> k == 0)
    ensures forall f: Bdz :: f.seed == 0 && f.r == r ==> !BuiltFor(f, hash, keys)
  {
    hide CanBePeeled, AllReadOne, RankTable, Degree, Accepted, ByteQueue, QueueOf, DegreesFit;
    var edges := Edges(hash, 0, keys, r);
    EqualEdgesReadOne(edges, t);
    AcceptedMeans(edges, 3 * r);
    forall f: Bdz | f.seed == 0 && f.r == r && Ranked(f)
      ensures !BuiltFor(f, hash, keys)
    {
      EqualKeysMeet(hash, keys, r, Values(f.g));
    }
  }

  lemma EqualKeysMeet<Key>(hash: HashFamily<Key>, keys: seq<Key>, r: nat, vals: seq<nat>)
    requires r >= 1 && |vals| >= 3 * r && |keys| >= 2 && Edges(hash, 0, keys, r)[0] == Edges(hash, 0, keys, r)[1]
    ensures !Distinct(Vertices(hash, 0, keys, r, vals))
  {
    var edges, slots := Edges(hash, 0, keys, r), Vertices(hash, 0, keys, r, vals);
    assert edges[0] == EdgeOf(hash(0, keys[0]), r) && edges[1] == EdgeOf(hash(0, keys[1]), r);
    assert slots[0] == Vertex(hash(0, keys[0]), r, vals) && slots[1] == Vertex(hash(0, keys[1]), r, vals);
  }
}
