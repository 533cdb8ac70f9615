/**
 BDZ_PH (bdz_ph.c): the perfect hash function inside BDZ, without ranks. Unassigned vertices hold
 zero, so that the values are base-3 digits, and five of them fit in a byte.
 */
module BdzPh {
  import opened Words
  import opened Counting
  import opened Hypergraph
  import opened BdzAssigning
  import opened TwoBits
  import opened Hashing
  import opened Options
  import opened Bdz

  // ---------- the assigning step ----------

  /** The body of the loop of `assigning`: no value is stored in a vertex that is only marked. */
  method AssignEdgeFromZero(g: array<Byte>, marked: seq<bool>, t: Triple)
    requires EdgeOk(t, |marked|) && |marked| <= 4 * g.Length
    modifies g
    ensures var k, vals := FirstUnmarked(marked, t), old(Values(g[..]));
            Values(g[..]) == vals[t.At(k) := Ored(vals[t.At(k)], NewValue(vals, t, k))]
  {
    hide GetValue, Values;
    if !marked[t.x0] {
      SetValue0(g, t.x0, (6 - (GetValue(g[..], t.x1) + GetValue(g[..], t.x2))) % 3);
    } else if !marked[t.x1] {
      SetValue0(g, t.x1, (7 - (GetValue(g[..], t.x0) + GetValue(g[..], t.x2))) % 3);
    } else {
      SetValue0(g, t.x2, (8 - (GetValue(g[..], t.x0) + GetValue(g[..], t.x1))) % 3);
    }
  }

  method AssignOneFromZero(g: array<Byte>, marked: array<bool>, t: Triple, ghost order: seq<Triple>, ghost i: nat)
    requires 1 <= i <= |order| && t == order[i - 1] && EdgeOk(t, marked.Length) && marked.Length <= 4 * g.Length
    requires Peelable(order) ==> AssignedFrom(Values(g[..]), marked[..], order, i, 0)
    modifies g, marked
    ensures Peelable(order) ==> AssignedFrom(Values(g[..]), marked[..], order, i - 1, 0)
  {
    hide AssignedFrom, Peelable, Choice, NewValue, Values;
    ghost var vals, mk := Values(g[..]), marked[..];
    if Peelable(order) {
      AssignStep(vals, mk, order, i, 0);
      NewValueIsStored(vals, mk, t);
    }
    AssignEdgeFromZero(g, marked[..], t);
    Mark(marked, t);
  }

  /** `assigning` of bdz_ph.c */
  method AssigningFromZero(edges: seq<Triple>, queue: seq<nat>, n: nat) returns (g: array<Byte>)
    requires EdgesOk(edges, n) && forall j :: 0 <= j < |queue| ==> queue[j] < |edges|
    ensures fresh(g) && g.Length == (n + 3) / 4
    ensures PeeledOk(edges, queue, n) ==> PointsApart(Values(g[..]), edges, n, 0)
    ensures PeeledOk(edges, queue, n) ==> PicksInOrder(Values(g[..]), edges, queue)
  {
    hide AssignedFrom, Peelable, PointsApart, Values, PicksFirst;
    ghost var order := InOrder(edges, queue);
    InOrderOk(edges, queue, n);
    hide PeeledOk, EdgesOk;
    var marked;
    g, marked := StartAssigning(order, n, false);
    var i := |queue|;
    while i > 0
      invariant 0 <= i <= |queue|
      invariant Peelable(order) ==> AssignedFrom(Values(g[..]), marked[..], order, i, 0)
      invariant fresh(g) && fresh(marked) && marked.Length == n <= 4 * g.Length
    {
      assert edges[queue[i - 1]] == order[i - 1];
      AssignOneFromZero(g, marked, edges[queue[i - 1]], order, i);
      i := i - 1;
    }
    if PeeledOk(edges, queue, n) {
      AllAssigned(Values(g[..]), marked[..], order, 0);
      PointsApartInAnyOrder(Values(g[..]), edges, queue, n, 0);
      PicksFromQueue(Values(g[..]), edges, queue, n);
    }
  }

  /** The values are base-3 digits. */
  ghost predicate Digits(vals: seq<nat>, n: nat) {
    n <= |vals| && forall v :: 0 <= v < n ==> vals[v] < 3
  }

  lemma AssignedDigits(vals: seq<nat>, edges: seq<Triple>, n: nat)
    requires PointsApart(vals, edges, n, 0)
    ensures Digits(vals, n)
  {
    forall v | 0 <= v < n
      ensures vals[v] < 3
    {
      if vals[v] != 0 {
        assert PointedAt(vals, edges, 0, v);
        var j :| 0 <= j < |edges| && Choice(vals, edges[j]) == v;
      }
    }
  }

  // ---------- five digits in a byte ----------

  /** `pow3_table` */
  function Pow3(k: nat): (p: nat)
    requires k < 5
  {
    if k == 0 then 1 else if k == 1 then 3 else if k == 2 then 9 else if k == 3 then 27 else 81
  }

  /** `lookup_table[k][byte]` */
  function Digit(byte: nat, k: nat): (d: nat)
    requires k < 5
    ensures d < 3
  {
    byte / Pow3(k) % 3
  }

  /** The byte that holds the first `k` of five values, the others being zero */
  function PackedByte(vals: seq<nat>, base: nat, k: nat): (byte: nat)
    requires k <= 5 && base + k <= |vals|
  {
    if k == 0 then 0 else PackedByte(vals, base, k - 1) + vals[base + k - 1] * Pow3(k - 1)
  }

  /** Digits come back out of the byte, and it does not overflow. */
  lemma PackedDigits(vals: seq<nat>, base: nat, k: nat)
    requires k <= 5 && base + k <= |vals| && forall v :: base <= v < base + k ==> vals[v] < 3
    ensures PackedByte(vals, base, k) <= 242
    ensures forall j :: 0 <= j < k ==> Digit(PackedByte(vals, base, k), j) == vals[base + j]
  {
    var a := if k > 0 then vals[base] else 0;
    var b := if k > 1 then vals[base + 1] else 0;
    var c := if k > 2 then vals[base + 2] else 0;
    var d := if k > 3 then vals[base + 3] else 0;
    var e := if k > 4 then vals[base + 4] else 0;
    assert PackedByte(vals, base, k) == a + 3 * b + 9 * c + 27 * d + 81 * e by {
      SumOfFive(vals, base, k);
    }
    FiveDigits(a, b, c, d, e);
  }

  lemma SumOfFive(vals: seq<nat>, base: nat, k: nat)
    requires k <= 5 && base + k <= |vals|
    ensures PackedByte(vals, base, k)
         == (if k > 0 then vals[base] else 0) + 3 * (if k > 1 then vals[base + 1] else 0)
            + 9 * (if k > 2 then vals[base + 2] else 0) + 27 * (if k > 3 then vals[base + 3] else 0)
            + 81 * (if k > 4 then vals[base + 4] else 0)
  {
    if k != 0 {
      SumOfFive(vals, base, k - 1);
    }
  }

  lemma FiveDigits(a: nat, b: nat, c: nat, d: nat, e: nat)
    requires a < 3 && b < 3 && c < 3 && d < 3 && e < 3
    ensures var byte := a + 3 * b + 9 * c + 27 * d + 81 * e;
            && byte <= 242
            && Digit(byte, 0) == a && Digit(byte, 1) == b && Digit(byte, 2) == c
            && Digit(byte, 3) == d && Digit(byte, 4) == e
  {
    var byte := a + 3 * b + 9 * c + 27 * d + 81 * e;
    assert byte / 3 == b + 3 * c + 9 * d + 27 * e;
    assert byte / 9 == c + 3 * d + 9 * e;
    assert byte / 27 == d + 3 * e;
    assert byte / 81 == e;
  }

  /** How many of the five values of byte `j` are among the first `i` values */
  function InByte(i: nat, j: nat): (k: nat)
    ensures k <= 5
    ensures i >= 5 * j ==> 5 * j + k <= i
  {
    if i <= 5 * j then 0 else if i >= 5 * j + 5 then 5 else i - 5 * j
  }

  /** The packed table of the first `i` values */
  ghost predicate PackedTable(newG: seq<nat>, vals: seq<nat>, i: nat)
    requires i <= |vals|
  {
    forall j :: 0 <= j < |newG| ==> newG[j] == PackedByte(vals, if i >= 5 * j then 5 * j else 0, InByte(i, j))
  }

  /** One more value goes to its byte, which stays below 256. */
  lemma PackOne(newG: seq<nat>, vals: seq<nat>, i: nat)
    requires i < |vals| && i / 5 < |newG| && PackedTable(newG, vals, i) && Digits(vals, |vals|)
    ensures newG[i / 5] + vals[i] * Pow3(i % 5) < 256
    ensures PackedTable(newG[i / 5 := newG[i / 5] + vals[i] * Pow3(i % 5)], vals, i + 1)
  {
    var q := i / 5;
    assert InByte(i, q) == i % 5 && InByte(i + 1, q) == i % 5 + 1;
    PackedDigits(vals, 5 * q, i % 5 + 1);
    var newG' := newG[q := newG[q] + vals[i] * Pow3(i % 5)];
    forall j | 0 <= j < |newG'|
      ensures newG'[j] == PackedByte(vals, if i + 1 >= 5 * j then 5 * j else 0, InByte(i + 1, j))
    {
      if j != q {
        assert InByte(i + 1, j) == InByte(i, j);
      }
    }
  }

  /** The body of the loop of `bdz_ph_optimization`; the conversion to a byte drops what is above it. */
  method PackValue(newG: array<nat>, g: seq<Byte>, i: nat, ghost vals: seq<nat>)
    requires i < |vals| <= 4 * |g| && i / 5 < newG.Length && vals == Values(g)[..|vals|]
    requires Digits(vals, |vals|) ==> PackedTable(newG[..], vals, i)
    modifies newG
    ensures Digits(vals, |vals|) ==> PackedTable(newG[..], vals, i + 1)
    ensures forall j :: 0 <= j < newG.Length ==> newG[j] == old(newG[j]) || newG[j] < 256
  {
    ghost var before := newG[..];
    if Digits(vals, |vals|) {
      PackOne(before, vals, i);
    }
    assert GetValue(g, i) == vals[i];
    hide Values, Pow3, PackedTable, GetValue, Digits;
    var idx := i / 5;
    var byte := newG[idx];
    var value := GetValue(g, i);
    byte := (byte + value * Pow3(i % 5)) % 256;
    newG[idx] := byte;
    assert newG[..] == before[i / 5 := (before[i / 5] + vals[i] * Pow3(i % 5)) % 256];
  }

  /** `bdz_ph_optimization`: digits are packed, five in a byte. */
  method Optimization(g: seq<Byte>, n: nat) returns (newG: array<nat>)
    requires n <= 4 * |g|
    ensures newG.Length == (n + 4) / 5 && forall j :: 0 <= j < newG.Length ==> newG[j] < 256
    ensures Digits(Values(g), n) ==> PackedTable(newG[..], Values(g)[..n], n)
  {
    ghost var vals := Values(g)[..n];
    newG := new nat[(n + 4) / 5](_ => 0);
    assert PackedTable(newG[..], vals, 0) && (Digits(Values(g), n) ==> Digits(vals, n));
    hide Values, PackedTable, Digits;
    for i := 0 to n
      invariant Digits(vals, n) ==> PackedTable(newG[..], vals, i)
      invariant forall j :: 0 <= j < newG.Length ==> newG[j] < 256
    {
      PackValue(newG, g, i, vals);
    }
  }

  /** Unpacking any of the values gives it back. */
  lemma Unpacked(newG: seq<nat>, vals: seq<nat>, v: nat)
    requires v < |vals| && v / 5 < |newG| && PackedTable(newG, vals, |vals|) && Digits(vals, |vals|)
    ensures Digit(newG[v / 5], v % 5) == vals[v] && newG[v / 5] <= 242
  {
    var j := v / 5;
    assert newG[j] == PackedByte(vals, 5 * j, InByte(|vals|, j));
    PackedDigits(vals, 5 * j, InByte(|vals|, j));
    assert vals[5 * j + v % 5] == vals[v];
  }

  // ---------- the function ----------

  /** `bdz_ph_data_t`; the seed stands for the hash state. */
  datatype BdzPh = BdzPh(seed: nat, r: nat, g: seq<nat>)

  /** The table holds the values, packed. */
  ghost predicate Holds(f: BdzPh, vals: seq<nat>) {
    && f.r >= 1 && |vals| == 3 * f.r && |f.g| == (3 * f.r + 4) / 5
    && PackedTable(f.g, vals, |vals|) && Digits(vals, |vals|)
  }

  /** `bdz_ph_search`: for any key, the vertex that the values of its vertices point at */
  method Search<Key>(f: BdzPh, hash: HashFamily<Key>, key: Key, ghost vals: seq<nat>) returns (vertex: nat)
    requires Holds(f, vals)
    ensures vertex == Vertex(hash(f.seed, key), f.r, vals) < 3 * f.r
  {
    var t := EdgeOf(hash(f.seed, key), f.r);
    Unpacked(f.g, vals, t.x0);
    Unpacked(f.g, vals, t.x1);
    Unpacked(f.g, vals, t.x2);
    hide Digit, EdgeOf, PackedTable;
    var byte0, byte1, byte2 := f.g[t.x0 / 5], f.g[t.x1 / 5], f.g[t.x2 / 5];
    byte0, byte1, byte2 := Digit(byte0, t.x0 % 5), Digit(byte1, t.x1 % 5), Digit(byte2, t.x2 % 5);
    vertex := t.At((byte0 + byte1 + byte2) % 3);
  }

  /** What a successful construction promises: the vertices of the keys are all different. */
  ghost predicate BuiltFor<Key>(f: BdzPh, hash: HashFamily<Key>, keys: seq<Key>, vals: seq<nat>) {
    Holds(f, vals) && Distinct(Vertices(hash, f.seed, keys, f.r, vals))
  }

  /** Only the values of real vertices matter. */
  lemma DistinctVertices<Key>(hash: HashFamily<Key>, seed: nat, keys: seq<Key>, r: nat, vals: seq<nat>)
    requires r >= 1 && PointsApart(vals, Edges(hash, seed, keys, r), 3 * r, 0)
    ensures Distinct(Vertices(hash, seed, keys, r, vals[..3 * r]))
  {
    var edges, slots := Edges(hash, seed, keys, r), Vertices(hash, seed, keys, r, vals[..3 * r]);
    forall i | 0 <= i < |keys|
      ensures slots[i] == Choice(vals, edges[i])
    {
      VertexOfKey(hash, seed, keys, r, vals, i);
    }
    hide Choice, Edges, Vertices;
    forall i, j | 0 <= i < j < |slots|
      ensures slots[i] != slots[j]
    {
      assert Choice(vals, edges[i]) != Choice(vals, edges[j]);
    }
  }

  lemma VertexOfKey<Key>(hash: HashFamily<Key>, seed: nat, keys: seq<Key>, r: nat, vals: seq<nat>, i: nat)
    requires r >= 1 && |vals| >= 3 * r && i < |keys|
    ensures EdgeOk(Edges(hash, seed, keys, r)[i], 3 * r)
    ensures Vertices(hash, seed, keys, r, vals[..3 * r])[i] == Choice(vals, Edges(hash, seed, keys, r)[i])
  {
    var t := EdgeOf(hash(seed, keys[i]), r);
    assert Edges(hash, seed, keys, r)[i] == t;
    assert Choice(vals[..3 * r], t) == Choice(vals, t);
  }

  /** `bdz_ph_new`. The size `r` comes from a floating-point expression, and is given. */
  method New<Key>(hash: HashFamily<Key>, keys: seq<Key>, r: nat) returns (f: Option<BdzPh>, ghost vals: seq<nat>)
    requires r >= 1 && 3 * r < WORD_LIMIT && |keys| <= NULL_EDGE
    ensures f.None? <==> NoneTaken(hash, keys, r, 100)
    ensures f.Some? ==> f.value.r == r && f.value.seed < 100 && NoneTaken(hash, keys, r, f.value.seed)
    ensures f.Some? ==> Accepted(Edges(hash, f.value.seed, keys, r))
    ensures f.Some? && PeelsInOrder(Edges(hash, f.value.seed, keys, r), 3 * r) ==> BuiltFor(f.value, hash, keys, vals)
    ensures f.Some? && DegreesFit(Edges(hash, f.value.seed, keys, r), 3 * r) ==>
              CanBePeeled(Edges(hash, f.value.seed, keys, r)) && BuiltFor(f.value, hash, keys, vals)
  {
    hide CanBePeeled, DegreesFit, Edges, PackedTable, Distinct, PointsApart, PeeledOk, Accepted, NoneTaken;
    var ok, seed, edges, queue := MappingStep(hash, keys, r, 100);
    if !ok {
      return None, [];
    }
    QueueStays(queue, |edges|);
    var g := AssigningFromZero(edges, queue, 3 * r);
    if PeelsInOrder(edges, 3 * r) {
      AssignedDigits(Values(g[..]), edges, 3 * r);
      DistinctVertices(hash, seed, keys, r, Values(g[..]));
    }
    vals := Values(g[..])[..3 * r];
    var newG := Optimization(g[..], 3 * r);
    f := Some(BdzPh(seed, r, newG[..]));
  }
}
