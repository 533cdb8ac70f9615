/**
 FCH (fch.c): every bucket gets one displacement, so that all its keys fall on free slots. Free and
 taken slots are kept apart by two tables that stay each other's inverse, whatever is undone.
 */
module Fch {
  import opened Words
  import opened Counting
  import opened FchBuckets
  import opened Hashing
  import opened Options
  import opened PerfectHashing
  import VQueue

  // ---------- buckets and slots of keys ----------

  /** `mixh10h11h12`; `p1` and `p2` are rounded up to whole numbers. */
  function Mix(b: nat, p1: nat, p2: nat, initialIndex: nat): (index: nat)
    requires b >= 1 && p2 >= 1
  {
    if initialIndex < p1 then Mod(initialIndex, p2)
    else if Mod(initialIndex, b) < p2 then Mod(initialIndex, b) + p2
    else Mod(initialIndex, b)
  }

  /** The bucket exists if the smaller part is at most half of the buckets. */
  lemma MixInRange(b: nat, p1: nat, p2: nat, initialIndex: nat)
    requires p2 >= 1 && 2 * p2 <= b
    ensures Mix(b, p1, p2, initialIndex) < b
    ensures initialIndex >= p1 ==> Mix(b, p1, p2, initialIndex) >= p2
  {
  }

  /** An index below `p1` goes to one of the first `p2` buckets, by its remainder there. Any other goes by its remainder
      over all the buckets, which is moved past the first `p2` if it is one of them. */
  lemma MixMeans(b: nat, p1: nat, p2: nat, initialIndex: nat)
    requires p2 >= 1 && 2 * p2 <= b
    ensures initialIndex < p1 ==> Mix(b, p1, p2, initialIndex) == initialIndex % p2 < p2
    ensures initialIndex >= p1 && initialIndex % b >= p2 ==> Mix(b, p1, p2, initialIndex) == initialIndex % b
    ensures initialIndex >= p1 && initialIndex % b < p2 ==> Mix(b, p1, p2, initialIndex) == initialIndex % b + p2
  {
    ModIsRemainder(initialIndex, p2);
    ModIsRemainder(initialIndex, b);
  }

  /** The parts have no bucket in common. Two indexes of the first part share theirs if and only if they leave the same
      remainder by `p2`; two of the second part, if those by `b` are the same or, one below `p2`, that far apart. */
  lemma MixShared(b: nat, p1: nat, p2: nat, i: nat, j: nat)
    requires p2 >= 1 && 2 * p2 <= b
    ensures i < p1 && j < p1 ==> (Mix(b, p1, p2, i) == Mix(b, p1, p2, j) <==> i % p2 == j % p2)
    ensures i < p1 <= j ==> Mix(b, p1, p2, i) < p2 <= Mix(b, p1, p2, j)
    ensures p1 <= i && p1 <= j ==>
              (Mix(b, p1, p2, i) == Mix(b, p1, p2, j)
               <==> || i % b == j % b
                    || (i % b < p2 && j % b == i % b + p2)
                    || (j % b < p2 && i % b == j % b + p2))
  {
    MixMeans(b, p1, p2, i);
    MixMeans(b, p1, p2, j);
    hide Mix;
  }

  /** With a single bucket, the second part is empty: its keys would go past the table. This does not happen, since
      `fch_new` takes a factor above 2, and `fch_calc_b` then gives three buckets or more. */
  lemma OneBucketIsTooFew(p1: nat, initialIndex: nat)
    requires initialIndex >= p1
    ensures Mix(1, p1, 1, initialIndex) == 1
  {
  }

  /** The buckets of all keys */
  function BucketNumbers<Key>(hash: HashPairs<Key>, seed1: nat, keys: seq<Key>, b: nat, p1: nat, p2: nat)
    : (cls: seq<nat>)
    requires |keys| >= 1 && p2 >= 1 && 2 * p2 <= b
    ensures |cls| == |keys| && forall i :: 0 <= i < |cls| ==> cls[i] < b
  {
    var cls := seq<nat>(|keys|, i requires 0 <= i < |keys| => Mix(b, p1, p2, Mod(hash(seed1, keys[i]).h1, |keys|)));
    BucketNumbersInRange(hash, seed1, keys, b, p1, p2, cls);
    cls
  }

  lemma BucketNumbersInRange<Key>(hash: HashPairs<Key>, seed1: nat, keys: seq<Key>, b: nat, p1: nat, p2: nat,
                                  cls: seq<nat>)
    requires |keys| >= 1 && p2 >= 1 && 2 * p2 <= b && |cls| == |keys|
    requires forall i :: 0 <= i < |keys| ==> cls[i] == Mix(b, p1, p2, Mod(hash(seed1, keys[i]).h1, |keys|))
    ensures forall i :: 0 <= i < |cls| ==> cls[i] < b
  {
    forall i | 0 <= i < |cls|
      ensures cls[i] < b
    {
      MixInRange(b, p1, p2, Mod(hash(seed1, keys[i]).h1, |keys|));
    }
  }

  /** The index of a key is the remainder of its first hash value. */
  lemma BucketNumberMeans<Key>(hash: HashPairs<Key>, seed1: nat, keys: seq<Key>, b: nat, p1: nat, p2: nat, i: nat)
    requires |keys| >= 1 && p2 >= 1 && 2 * p2 <= b && i < |keys|
    ensures var x := hash(seed1, keys[i]).h1 % |keys|;
            BucketNumbers(hash, seed1, keys, b, p1, p2)[i]
            == if x < p1 then x % p2 else if x % b < p2 then x % b + p2 else x % b
  {
    ModIsRemainder(hash(seed1, keys[i]).h1, |keys|);
    MixMeans(b, p1, p2, Mod(hash(seed1, keys[i]).h1, |keys|));
    hide Mix;
  }

  /** The second hash values of all keys, below their number */
  function SlotSeeds<Key>(hash: HashPairs<Key>, seed2: nat, keys: seq<Key>): (h2: seq<nat>)
    requires |keys| >= 1
    ensures |h2| == |keys| && forall i :: 0 <= i < |h2| ==> h2[i] < |h2|
  {
    var h2 := seq<nat>(|keys|, i requires 0 <= i < |keys| => Mod(hash(seed2, keys[i]).h2, |keys|));
    assert forall i :: 0 <= i < |h2| ==> h2[i] == Mod(hash(seed2, keys[i]).h2, |keys|);
    h2
  }

  /** The slot of a key under the displacement of its bucket */
  function SlotOf(h2: seq<nat>, cls: seq<nat>, g: seq<nat>, i: nat): (s: nat)
    requires i < |h2| == |cls| && cls[i] < |g|
    ensures s < |h2|
  {
    Mod(h2[i] + g[cls[i]], |h2|)
  }

  /** A key goes to the slot whose number leaves the same remainder as its second hash value and the displacement of its
      bucket together. */
  lemma SlotOfMeans<Key>(hash: HashPairs<Key>, seed2: nat, keys: seq<Key>, cls: seq<nat>, g: seq<nat>, i: nat)
    requires i < |keys| == |cls| && cls[i] < |g|
    ensures SlotOf(SlotSeeds(hash, seed2, keys), cls, g, i) == (hash(seed2, keys[i]).h2 + g[cls[i]]) % |keys|
  {
    var h, m := hash(seed2, keys[i]).h2, |keys|;
    ModIsRemainder(h, m);
    ModIsRemainder(h % m + g[cls[i]], m);
    SumRemainder(h, g[cls[i]], m);
  }

  lemma SumRemainder(x: nat, y: nat, m: nat)
    requires m >= 1
    ensures (x % m + y) % m == (x + y) % m
  {
    var q, z := x / m, x % m + y;
    assert x == q * m + x % m && z == z / m * m + z % m;
    assert x + y == (q + z / m) * m + z % m;
    DivModUnique(x + y, m, q + z / m, z % m);
  }

  // ---------- the two tables ----------

  /** `random_table` and `map_table` are inverse permutations. */
  ghost predicate Inverse(random: seq<nat>, mapped: seq<nat>) {
    && |random| == |mapped|
    && (forall k :: 0 <= k < |random| ==> random[k] < |mapped| && mapped[random[k]] == k)
    && (forall x :: 0 <= x < |mapped| ==> mapped[x] < |random| && random[mapped[x]] == x)
  }

  function Swapped(random: seq<nat>, y: nat, filled: nat): (r: seq<nat>)
    requires y < |random| && filled < |random|
    ensures |r| == |random|
  {
    random[y := random[filled]][filled := random[y]]
  }

  lemma SwapKeepsInverse(random: seq<nat>, mapped: seq<nat>, y: nat, filled: nat)
    requires Inverse(random, mapped) && y < |random| && filled < |random|
    ensures var r := Swapped(random, y, filled); Inverse(r, mapped[r[y] := y][r[filled] := filled])
  {
    var r := Swapped(random, y, filled);
    var m := mapped[r[y] := y][r[filled] := filled];
    assert mapped[random[y]] == y && mapped[random[filled]] == filled;
    forall k | 0 <= k < |r|
      ensures r[k] < |m| && m[r[k]] == k
    {
      assert mapped[random[k]] == k;
    }
    forall x | 0 <= x < |m|
      ensures m[x] < |r| && r[m[x]] == x
    {
      assert random[mapped[x]] == x;
    }
  }

  // ---------- what is placed ----------

  /** The keys placed so far are on the slots at the front of the table, in the order of their placement. */
  ghost predicate Placed(h2: seq<nat>, cls: seq<nat>, g: seq<nat>, random: seq<nat>, mapped: seq<nat>,
                         placed: seq<nat>) {
    && Inverse(random, mapped) && |random| == |h2| == |cls| && |placed| <= |random|
    && (forall i :: 0 <= i < |cls| ==> cls[i] < |g|)
    && forall k :: 0 <= k < |placed| ==> placed[k] < |h2| && SlotOf(h2, cls, g, placed[k]) == random[k]
  }

  /** A key whose slot is free goes next. */
  lemma PlaceNext(h2: seq<nat>, cls: seq<nat>, g: seq<nat>, random: seq<nat>, mapped: seq<nat>, placed: seq<nat>,
                  i: nat)
    requires Placed(h2, cls, g, random, mapped, placed) && i < |h2|
    requires mapped[SlotOf(h2, cls, g, i)] >= |placed|
    ensures |placed| < |random|
    ensures var y := mapped[SlotOf(h2, cls, g, i)];
            var r := Swapped(random, y, |placed|);
            Placed(h2, cls, g, r, mapped[r[y] := y][r[|placed|] := |placed|], placed + [i])
  {
    var index := SlotOf(h2, cls, g, i);
    var y := mapped[index];
    assert random[y] == index;
    SwapKeepsInverse(random, mapped, y, |placed|);
    hide SlotOf, Inverse;
    var r, more := Swapped(random, y, |placed|), placed + [i];
    forall k | 0 <= k < |more|
      ensures more[k] < |h2| && SlotOf(h2, cls, g, more[k]) == r[k]
    {
      assert k < |placed| ==> r[k] == random[k] && more[k] == placed[k];
    }
  }

  /** Taking the last placements back leaves the others where they are. */
  lemma Undo(h2: seq<nat>, cls: seq<nat>, g: seq<nat>, random: seq<nat>, mapped: seq<nat>, placed: seq<nat>,
             more: seq<nat>)
    requires Placed(h2, cls, g, random, mapped, placed + more)
    ensures Placed(h2, cls, g, random, mapped, placed)
  {
    forall k | 0 <= k < |placed|
      ensures placed[k] < |h2| && SlotOf(h2, cls, g, placed[k]) == random[k]
    {
      assert (placed + more)[k] == placed[k];
    }
  }

  /** A bucket without placed keys can get another displacement. */
  lemma OtherDisplacement(h2: seq<nat>, cls: seq<nat>, g: seq<nat>, random: seq<nat>, mapped: seq<nat>,
                          placed: seq<nat>, c: nat, d: nat)
    requires Placed(h2, cls, g, random, mapped, placed) && c < |g|
    requires forall k :: 0 <= k < |placed| ==> placed[k] < |cls| && cls[placed[k]] != c
    ensures Placed(h2, cls, g[c := d], random, mapped, placed)
  {
    forall k | 0 <= k < |placed|
      ensures SlotOf(h2, cls, g[c := d], placed[k]) == random[k]
    {
      assert SlotOf(h2, cls, g, placed[k]) == random[k];
    }
  }

  /** When all keys are placed, their slots are all the slots. */
  lemma AllPlaced(h2: seq<nat>, cls: seq<nat>, g: seq<nat>, random: seq<nat>, mapped: seq<nat>, placed: seq<nat>)
    requires Placed(h2, cls, g, random, mapped, placed) && forall i :: 0 <= i < |h2| ==> i in placed
    ensures forall i, j :: 0 <= i < j < |h2| ==> SlotOf(h2, cls, g, i) != SlotOf(h2, cls, g, j)
  {
    forall i, j | 0 <= i < j < |h2|
      ensures SlotOf(h2, cls, g, i) != SlotOf(h2, cls, g, j)
    {
      assert i in placed && j in placed;
      var k :| 0 <= k < |placed| && placed[k] == i;
      var l :| 0 <= l < |placed| && placed[l] == j;
      assert mapped[random[k]] == k && mapped[random[l]] == l;
    }
  }

  // ---------- the search as a function of the tables ----------

  datatype Tables = Tables(random: seq<nat>, mapped: seq<nat>)

  ghost predicate TablesOk(t: Tables, m: nat) {
    Inverse(t.random, t.mapped) && |t.random| == m
  }

  /** The slot goes to this place of the table, and the one that was there to where the slot was. */
  ghost function Took(t: Tables, index: nat, filled: nat): (r: Tables)
    requires Inverse(t.random, t.mapped) && index < |t.mapped| && filled < |t.random|
    ensures Inverse(r.random, r.mapped) && |r.random| == |t.random|
  {
    SwapKeepsInverse(t.random, t.mapped, t.mapped[index], filled);
    var y, r := t.mapped[index], Swapped(t.random, t.mapped[index], filled);
    Tables(r, t.mapped[r[y] := y][r[filled] := filled])
  }

  /** The slots before a place are taken: the place of any other slot comes after it. */
  lemma TookMeans(t: Tables, index: nat, filled: nat, s: nat)
    requires Inverse(t.random, t.mapped) && index < |t.mapped| && s < |t.mapped|
    requires filled <= t.mapped[index]
    ensures filled < |t.random| && |Took(t, index, filled).mapped| == |t.mapped|
    ensures Took(t, index, filled).mapped[s] > filled <==> t.mapped[s] >= filled && s != index
  {
    assert t.random[t.mapped[s]] == s && t.random[t.mapped[index]] == index;
    assert t.mapped[t.random[filled]] == filled;
  }

  datatype Trial = Trial(fits: bool, tables: Tables)

  /** The bucket's keys and their second hash values are in range. */
  ghost predicate KeysOk(h2: seq<nat>, bucket: seq<nat>) {
    (forall i :: 0 <= i < |h2| ==> h2[i] < |h2|) && forall k :: 0 <= k < |bucket| ==> bucket[k] < |h2|
  }

  function SlotUnder(h2: seq<nat>, bucket: seq<nat>, d: nat, k: nat): (s: nat)
    requires k < |bucket| && bucket[k] < |h2|
    ensures s < |h2|
  {
    Mod(h2[bucket[k]] + d, |h2|)
  }

  /** The keys of a bucket from place `j` on take their slots one after the other, until a slot is taken already. */
  ghost function TryKeys(h2: seq<nat>, bucket: seq<nat>, d: nat, t: Tables, filled: nat, j: nat): (r: Trial)
    requires TablesOk(t, |h2|) && KeysOk(h2, bucket)
    ensures TablesOk(r.tables, |h2|)
    decreases |bucket| - j
  {
    if j >= |bucket| then Trial(true, t)
    else if t.mapped[SlotUnder(h2, bucket, d, j)] < filled + j then Trial(false, t)
    else TryKeys(h2, bucket, d, Took(t, SlotUnder(h2, bucket, d, j), filled + j), filled, j + 1)
  }

  /** The key's slot is not at one of these places, and no key of the bucket before it, from `j` on, has the same. */
  ghost predicate FreeFor(h2: seq<nat>, bucket: seq<nat>, d: nat, t: Tables, filled: nat, j: nat, k: nat)
    requires TablesOk(t, |h2|) && KeysOk(h2, bucket) && k < |bucket|
  {
    && t.mapped[SlotUnder(h2, bucket, d, k)] >= filled
    && forall l :: j <= l < k ==> SlotUnder(h2, bucket, d, l) != SlotUnder(h2, bucket, d, k)
  }

  ghost predicate AllFree(h2: seq<nat>, bucket: seq<nat>, d: nat, t: Tables, filled: nat, j: nat)
    requires TablesOk(t, |h2|) && KeysOk(h2, bucket)
  {
    forall k :: j <= k < |bucket| ==> FreeFor(h2, bucket, d, t, filled, j, k)
  }

  /** A displacement fits exactly if it sends the keys to different free slots. */
  lemma {:induction false} TryKeysMeans(h2: seq<nat>, bucket: seq<nat>, d: nat, t: Tables, filled: nat, j: nat)
    requires TablesOk(t, |h2|) && KeysOk(h2, bucket)
    ensures TryKeys(h2, bucket, d, t, filled, j).fits <==> AllFree(h2, bucket, d, t, filled + j, j)
    decreases |bucket| - j
  {
    hide SlotUnder, Inverse, KeysOk, Took;
    if j < |bucket| {
      SlotsOk(h2, bucket, t, d);
      var s, place, next := SlotUnder(h2, bucket, d, j), filled + j, j + 1;
      assert FreeFor(h2, bucket, d, t, place, j, j) <==> t.mapped[s] >= place;
      if t.mapped[s] >= place {
        TookMeans(t, s, place, s);
        var t', place' := Took(t, s, place), place + 1;
        TryKeysMeans(h2, bucket, d, t', filled, next);
        forall k | next <= k < |bucket|
          ensures FreeFor(h2, bucket, d, t', place', next, k) <==> FreeFor(h2, bucket, d, t, place, j, k)
        {
          TookMeans(t, s, place, SlotUnder(h2, bucket, d, k));
        }
      }
    }
  }

  lemma SlotsOk(h2: seq<nat>, bucket: seq<nat>, t: Tables, d: nat)
    requires TablesOk(t, |h2|) && KeysOk(h2, bucket)
    ensures |t.mapped| == |h2|
    ensures forall k :: 0 <= k < |bucket| ==> bucket[k] < |h2| && SlotUnder(h2, bucket, d, k) < |h2|
  {
  }

  /** What is left of the try, from key `j` on, comes to this end. */
  ghost predicate KeysGive(h2: seq<nat>, bucket: seq<nat>, d: nat, t: Tables, filled: nat, j: nat, r: Trial) {
    TablesOk(t, |h2|) && KeysOk(h2, bucket) && TryKeys(h2, bucket, d, t, filled, j) == r
  }

  lemma KeysStep(h2: seq<nat>, bucket: seq<nat>, d: nat, t: Tables, filled: nat, j: nat, r: Trial, taken: bool,
                 t': Tables)
    requires KeysGive(h2, bucket, d, t, filled, j, r) && j < |bucket| && bucket[j] < |h2|
    requires var index := Mod(h2[bucket[j]] + d, |h2|);
             && index < |t.mapped| && (taken <==> t.mapped[index] < filled + j)
             && (taken ==> t' == t)
             && (!taken ==> Inverse(t.random, t.mapped) && filled + j < |t.random| && t' == Took(t, index, filled + j))
    ensures taken ==> r == Trial(false, t')
    ensures !taken ==> KeysGive(h2, bucket, d, t', filled, j + 1, r) && (j + 1 == |bucket| ==> r == Trial(true, t'))
  {
    hide Took, KeysOk;
  }

  datatype Placing = Fits(displacement: nat, tables: Tables) | NoPlace(tables: Tables)

  /** The displacement that sends the first key to the slot at this place of the table */
  ghost function DisplacementFor(h2: seq<nat>, bucket: seq<nat>, t: Tables, place: nat): (d: nat)
    requires TablesOk(t, |h2|) && KeysOk(h2, bucket) && bucket != [] && place < |h2|
  {
    Mod(|h2| + t.random[place] - h2[bucket[0]], |h2|)
  }

  lemma DisplacementMeans(h2: seq<nat>, bucket: seq<nat>, t: Tables, place: nat)
    requires TablesOk(t, |h2|) && KeysOk(h2, bucket) && bucket != [] && place < |h2|
    ensures DisplacementFor(h2, bucket, t, place) < |h2|
    ensures (h2[bucket[0]] + DisplacementFor(h2, bucket, t, place)) % |h2| == t.random[place]
  {
    FirstKeyLands(h2[bucket[0]], t.random[place], |h2|);
    ModIsRemainder(h2[bucket[0]] + DisplacementFor(h2, bucket, t, place), |h2|);
  }

  /** The places from `filled + z` on are tried for the first key; a try that fails leaves its swaps behind. */
  ghost function TryPlaces(h2: seq<nat>, bucket: seq<nat>, t: Tables, filled: nat, z: nat): (r: Placing)
    requires TablesOk(t, |h2|) && KeysOk(h2, bucket) && bucket != []
    ensures TablesOk(r.tables, |h2|)
    decreases |h2| - z
  {
    if filled + z >= |h2| then NoPlace(t)
    else
      var d := DisplacementFor(h2, bucket, t, filled + z);
      var r := TryKeys(h2, bucket, d, t, filled, 0);
      if r.fits then Fits(d, r.tables) else TryPlaces(h2, bucket, r.tables, filled, z + 1)
  }

  ghost predicate PlacesGive(h2: seq<nat>, bucket: seq<nat>, t: Tables, filled: nat, z: nat, r: Placing) {
    TablesOk(t, |h2|) && KeysOk(h2, bucket) && bucket != [] && TryPlaces(h2, bucket, t, filled, z) == r
  }

  lemma PlacesStep(h2: seq<nat>, bucket: seq<nat>, t: Tables, filled: nat, z: nat, r: Placing, d: nat, fits: bool,
                   t': Tables)
    requires PlacesGive(h2, bucket, t, filled, z, r) && filled + z < |h2| == |t.random|
    requires bucket != [] && bucket[0] < |h2| && h2[bucket[0]] < |h2|
    requires d == Mod(|h2| + t.random[filled + z] - h2[bucket[0]], |h2|)
    requires KeysGive(h2, bucket, d, t, filled, 0, Trial(fits, t'))
    ensures fits ==> r == Fits(d, t')
    ensures !fits ==>
              PlacesGive(h2, bucket, t', filled, z + 1, r) && (filled + z + 1 == |h2| ==> r == NoPlace(t'))
  {
    hide TryKeys, KeysOk, Inverse;
  }

  datatype Finding = Found(tables: Tables) | Stuck(place: nat, filled: nat, tables: Tables)

  /** The buckets from place `i` of the order on are placed one after the other, up to the first empty one. */
  ghost function SearchFrom(h2: seq<nat>, values: seq<seq<nat>>, sorted: seq<nat>, t: Tables, i: nat, filled: nat)
    : (r: Finding)
    requires TablesOk(t, |h2|) && BucketsOk(h2, values, sorted)
    ensures TablesOk(r.tables, |h2|)
    decreases |sorted| - i
  {
    if i >= |sorted| || values[sorted[i]] == [] then Found(t)
    else
      assert KeysOk(h2, values[sorted[i]]);
      match TryPlaces(h2, values[sorted[i]], t, filled, 0)
      case NoPlace(t') => Stuck(i, filled, t')
      case Fits(_, t') => SearchFrom(h2, values, sorted, t', i + 1, filled + |values[sorted[i]]|)
  }

  ghost predicate SearchGives(h2: seq<nat>, values: seq<seq<nat>>, sorted: seq<nat>, t: Tables, i: nat, filled: nat,
                              r: Finding) {
    TablesOk(t, |h2|) && BucketsOk(h2, values, sorted) && SearchFrom(h2, values, sorted, t, i, filled) == r
  }

  lemma SearchStep(h2: seq<nat>, values: seq<seq<nat>>, sorted: seq<nat>, t: Tables, i: nat, filled: nat, r: Finding,
                   placing: Placing)
    requires SearchGives(h2, values, sorted, t, i, filled, r) && i < |sorted| && sorted[i] < |values|
    requires PlacesGive(h2, values[sorted[i]], t, filled, 0, placing)
    ensures match placing
            case NoPlace(t') => r == Stuck(i, filled, t')
            case Fits(_, t') => SearchGives(h2, values, sorted, t', i + 1, filled + |values[sorted[i]]|, r)
  {
    hide TryPlaces, KeysOk, Inverse;
  }

  ghost predicate BucketsOk(h2: seq<nat>, values: seq<seq<nat>>, sorted: seq<nat>) {
    && (forall i :: 0 <= i < |sorted| ==> sorted[i] < |values|)
    && forall c :: 0 <= c < |values| ==> KeysOk(h2, values[c])
  }

  // ---------- one bucket ----------

  /** The swap in the innermost loop */
  method TakeSlot(random: array<nat>, mapped: array<nat>, index: nat, filledCount: nat)
    requires random != mapped && Inverse(random[..], mapped[..]) && index < mapped.Length && filledCount < random.Length
    modifies random, mapped
    ensures Tables(random[..], mapped[..]) == Took(Tables(old(random[..]), old(mapped[..])), index, filledCount)
  {
    ghost var before, was := random[..], mapped[..];
    var y := mapped[index];
    var ry := random[y];
    random[y] := random[filledCount];
    random[filledCount] := ry;
    assert random[..] == Swapped(before, y, filledCount);
    mapped[random[y]] := y;
    mapped[random[filledCount]] := filledCount;
  }

  /** Two of these keys are on the same slot, a key of the bucket being one of them. */
  ghost predicate Conflict(h2: seq<nat>, cls: seq<nat>, g: seq<nat>, placed: seq<nat>, bucket: seq<nat>) {
    exists t, k :: 0 <= t < |bucket| && 0 <= k < |placed| + t && SameSlot(h2, cls, g, bucket[t], (placed + bucket)[k])
  }

  ghost predicate SameSlot(h2: seq<nat>, cls: seq<nat>, g: seq<nat>, i: nat, j: nat) {
    && i < |h2| == |cls| && j < |h2| && cls[i] < |g| && cls[j] < |g|
    && SlotOf(h2, cls, g, i) == SlotOf(h2, cls, g, j)
  }

  /** A key on the slot of a placed one */
  ghost predicate OnTakenSlot(h2: seq<nat>, cls: seq<nat>, g: seq<nat>, placed: seq<nat>, key: nat) {
    exists k :: 0 <= k < |placed| && SameSlot(h2, cls, g, key, placed[k])
  }

  lemma TakenIsConflict(h2: seq<nat>, cls: seq<nat>, g: seq<nat>, placed: seq<nat>, bucket: seq<nat>, j: nat)
    requires j < |bucket| && OnTakenSlot(h2, cls, g, placed + bucket[..j], bucket[j])
    ensures Conflict(h2, cls, g, placed, bucket)
  {
    var k :| 0 <= k < |placed| + j && SameSlot(h2, cls, g, bucket[j], (placed + bucket[..j])[k]);
    assert (placed + bucket)[k] == (placed + bucket[..j])[k];
  }

  lemma TakenSlotHasKey(h2: seq<nat>, cls: seq<nat>, g: seq<nat>, random: seq<nat>, mapped: seq<nat>, placed: seq<nat>,
                        key: nat)
    requires Placed(h2, cls, g, random, mapped, placed) && key < |h2| && mapped[SlotOf(h2, cls, g, key)] < |placed|
    ensures OnTakenSlot(h2, cls, g, placed, key)
  {
    var index := SlotOf(h2, cls, g, key);
    var k := mapped[index];
    assert random[k] == index;
    assert SlotOf(h2, cls, g, placed[k]) == random[k];
    assert SameSlot(h2, cls, g, key, placed[k]);
  }

  /** The innermost loop of `searching`: place the keys of a bucket one by one; at a taken slot, undo. */
  method TryBucket(h2: seq<nat>, ghost cls: seq<nat>, g: array<nat>, random: array<nat>, mapped: array<nat>,
                   bucket: seq<nat>, c: nat, filledCount0: nat, ghost placed: seq<nat>)
    returns (restart: bool, filledCount: nat)
    requires random != mapped && random != g && mapped != g && |bucket| >= 1 && c < g.Length
    requires Placed(h2, cls, g[..], random[..], mapped[..], placed) && filledCount0 == |placed|
    requires forall t :: 0 <= t < |bucket| ==> bucket[t] < |cls| && cls[bucket[t]] == c
    requires forall i :: 0 <= i < |h2| ==> h2[i] < |h2|
    modifies random, mapped
    ensures filledCount == filledCount0 + if restart then 0 else |bucket|
    ensures Placed(h2, cls, g[..], random[..], mapped[..], if restart then placed else placed + bucket)
    ensures restart ==> Conflict(h2, cls, g[..], placed, bucket)
    ensures KeysGive(h2, bucket, g[c], Tables(old(random[..]), old(mapped[..])), filledCount0, 0,
                     Trial(!restart, Tables(random[..], mapped[..])))
  {
    hide Placed, Inverse, SlotOf, Conflict, OnTakenSlot, KeysGive, TryKeys, Took;
    filledCount, restart := filledCount0, false;
    var j, counter := 0, 0;
    assert placed + bucket[..0] == placed;
    ghost var r := KeysBegin(h2, cls, g[..], random[..], mapped[..], placed, bucket, c);
    while true
      invariant counter == j < |bucket| && filledCount == filledCount0 + counter && !restart
      invariant Placed(h2, cls, g[..], random[..], mapped[..], placed + bucket[..j])
      invariant KeysGive(h2, bucket, g[c], Tables(random[..], mapped[..]), filledCount0, j, r)
      decreases |bucket| - j
    {
      PlacedSizes(h2, cls, g[..], random[..], mapped[..], placed + bucket[..j]);
      ghost var t := Tables(random[..], mapped[..]);
      var taken := PlaceKey(h2, cls, g, random, mapped, bucket[j], c, filledCount, placed + bucket[..j]);
      KeysStep(h2, bucket, g[c], t, filledCount0, j, r, taken, Tables(random[..], mapped[..]));
      if taken {
        restart := true;
        filledCount := filledCount - counter;
        Undo(h2, cls, g[..], random[..], mapped[..], placed, bucket[..j]);
        TakenIsConflict(h2, cls, g[..], placed, bucket, j);
        return;
      }
      assert placed + bucket[..j] + [bucket[j]] == placed + bucket[..j + 1];
      filledCount := filledCount + 1;
      counter := counter + 1;
      if VQueue.Next(j, |bucket|) == 0 {
        break;
      }
      j := VQueue.Next(j, |bucket|);
    }
    assert bucket[..|bucket|] == bucket;
  }

  lemma KeysBegin(h2: seq<nat>, cls: seq<nat>, g: seq<nat>, random: seq<nat>, mapped: seq<nat>, placed: seq<nat>,
                  bucket: seq<nat>, c: nat)
    returns (r: Trial)
    requires Placed(h2, cls, g, random, mapped, placed) && c < |g| && forall i :: 0 <= i < |h2| ==> h2[i] < |h2|
    requires forall t :: 0 <= t < |bucket| ==> bucket[t] < |cls|
    ensures KeysGive(h2, bucket, g[c], Tables(random, mapped), |placed|, 0, r)
  {
    r := TryKeys(h2, bucket, g[c], Tables(random, mapped), |placed|, 0);
  }

  method PlaceKey(h2: seq<nat>, ghost cls: seq<nat>, g: array<nat>, random: array<nat>, mapped: array<nat>,
                  key: nat, c: nat, filledCount: nat, ghost placed: seq<nat>)
    returns (taken: bool)
    requires random != mapped && random != g && mapped != g && c < g.Length && key < |cls| && cls[key] == c
    requires Placed(h2, cls, g[..], random[..], mapped[..], placed) && filledCount == |placed|
    modifies random, mapped
    ensures Placed(h2, cls, g[..], random[..], mapped[..], if taken then placed else placed + [key])
    ensures taken ==> OnTakenSlot(h2, cls, g[..], placed, key)
    ensures var t, index := Tables(old(random[..]), old(mapped[..])), Mod(h2[key] + g[c], |h2|);
            && |t.random| == |t.mapped| == |h2| && Inverse(t.random, t.mapped)
            && (taken <==> t.mapped[index] < filledCount) && (!taken ==> filledCount < |h2|)
            && Tables(random[..], mapped[..]) == if taken then t else Took(t, index, filledCount)
  {
    hide OnTakenSlot;
    var index := Mod(h2[key] + g[c], |h2|);
    assert index == SlotOf(h2, cls, g[..], key);
    taken := mapped[index] < filledCount;
    if taken {
      TakenSlotHasKey(h2, cls, g[..], random[..], mapped[..], placed, key);
    } else {
      PlaceNext(h2, cls, g[..], random[..], mapped[..], placed, key);
      hide SlotOf, Placed;
      TakeSlot(random, mapped, index, filledCount);
    }
  }

  /** The first key of the bucket would be on a free slot, but two keys are on one slot. */
  ghost predicate Failed(h2: seq<nat>, cls: seq<nat>, g: seq<nat>, placed: seq<nat>, bucket: seq<nat>) {
    bucket != [] && !OnTakenSlot(h2, cls, g, placed, bucket[0]) && Conflict(h2, cls, g, placed, bucket)
  }

  /** Each of these displacements of bucket `c` has failed. */
  ghost predicate AllConflict(h2: seq<nat>, cls: seq<nat>, g: seq<nat>, placed: seq<nat>, bucket: seq<nat>, c: nat,
                              tried: seq<nat>)
    requires c < |g|
  {
    forall z :: 0 <= z < |tried| ==> Failed(h2, cls, g[c := tried[z]], placed, bucket)
  }

  lemma ConflictsMore(h2: seq<nat>, cls: seq<nat>, g: seq<nat>, placed: seq<nat>, bucket: seq<nat>, c: nat,
                      tried: seq<nat>, d: nat)
    requires c < |g| && AllConflict(h2, cls, g, placed, bucket, c, tried)
    requires Failed(h2, cls, g[c := d], placed, bucket)
    ensures AllConflict(h2, cls, g, placed, bucket, c, tried + [d])
  {
    hide Failed;
  }

  /** A key whose slot is at a place of the table past the placed ones is on a free slot. */
  lemma PlaceIsFree(h2: seq<nat>, cls: seq<nat>, g: seq<nat>, random: seq<nat>, mapped: seq<nat>, placed: seq<nat>,
                    key: nat, p: nat)
    requires Placed(h2, cls, g, random, mapped, placed) && key < |h2| && |placed| <= p < |random|
    requires SlotOf(h2, cls, g, key) == random[p]
    ensures !OnTakenSlot(h2, cls, g, placed, key)
  {
    forall k | 0 <= k < |placed|
      ensures !SameSlot(h2, cls, g, key, placed[k])
    {
      assert mapped[random[p]] == p && mapped[random[k]] == k;
      assert SlotOf(h2, cls, g, placed[k]) == random[k];
    }
  }

  /** The loop that tries one displacement for every free slot. The swaps of a try that failed stay, so that a slot may
      be skipped and another tried twice; what holds is that each displacement tried failed for a reason. */
  method PlaceBucket(h2: seq<nat>, ghost cls: seq<nat>, g: array<nat>, random: array<nat>, mapped: array<nat>,
                     bucket: seq<nat>, c: nat, filledCount0: nat, ghost placed: seq<nat>)
    returns (restart: bool, filledCount: nat, ghost tried: seq<nat>)
    requires random != mapped && random != g && mapped != g && |bucket| >= 1 && c < g.Length
    requires Placed(h2, cls, g[..], random[..], mapped[..], placed) && filledCount0 == |placed|
    requires forall t :: 0 <= t < |bucket| ==> bucket[t] < |cls| && cls[bucket[t]] == c
    requires forall k :: 0 <= k < |placed| ==> placed[k] < |cls| && cls[placed[k]] != c
    requires forall i :: 0 <= i < |h2| ==> h2[i] < |h2|
    modifies g, random, mapped
    ensures filledCount == filledCount0 + if restart then 0 else |bucket|
    ensures Placed(h2, cls, g[..], random[..], mapped[..], if restart then placed else placed + bucket)
    ensures restart ==> |tried| + |placed| == |h2|
    ensures AllConflict(h2, cls, old(g[..]), placed, bucket, c, tried) && g[..] == old(g[..])[c := g[c]]
    ensures var now := Tables(random[..], mapped[..]);
            PlacesGive(h2, bucket, Tables(old(random[..]), old(mapped[..])), filledCount0, 0,
                       if restart then NoPlace(now) else Fits(g[c], now))
  {
    hide Placed, Inverse, Failed, AllConflict, KeysGive, PlacesGive;
    PlacedSizes(h2, cls, g[..], random[..], mapped[..], placed);
    ghost var g0 := g[..];
    tried := [];
    NoneConflicts(h2, cls, g0, placed, bucket, c);
    ghost var r := PlacesBegin(h2, cls, g0, random[..], mapped[..], placed, bucket);
    var m := |h2|;
    filledCount, restart := filledCount0, true;
    var z := 0;
    while z < m - filledCount && restart
      invariant filledCount == filledCount0 + if restart then 0 else |bucket|
      invariant Placed(h2, cls, g[..], random[..], mapped[..], if restart then placed else placed + bucket)
      invariant AllConflict(h2, cls, g0, placed, bucket, c, tried) && |tried| == z - if restart then 0 else 1
      invariant g[..] == g0[c := g[c]] && (restart ==> z <= m - filledCount0)
      invariant restart ==> PlacesGive(h2, bucket, Tables(random[..], mapped[..]), filledCount0, z, r)
      invariant z == m - filledCount0 && restart ==> r == NoPlace(Tables(random[..], mapped[..]))
      invariant !restart ==> r == Fits(g[c], Tables(random[..], mapped[..]))
      decreases m - z
    {
      ghost var gs, t := g[..], Tables(random[..], mapped[..]);
      restart, filledCount := TrySlot(h2, cls, g, random, mapped, bucket, c, filledCount, z, placed);
      assert g[..] == gs[c := g[c]] == g0[c := g[c]];
      PlacesStep(h2, bucket, t, filledCount0, z, r, g[c], !restart, Tables(random[..], mapped[..]));
      if restart {
        ConflictsMore(h2, cls, g0, placed, bucket, c, tried, g[c]);
        tried := tried + [g[c]];
      }
      z := z + 1;
    }
  }

  lemma NoneConflicts(h2: seq<nat>, cls: seq<nat>, g: seq<nat>, placed: seq<nat>, bucket: seq<nat>, c: nat)
    requires c < |g|
    ensures AllConflict(h2, cls, g, placed, bucket, c, []) && g[c := g[c]] == g
  {
  }

  lemma PlacesBegin(h2: seq<nat>, cls: seq<nat>, g: seq<nat>, random: seq<nat>, mapped: seq<nat>, placed: seq<nat>,
                    bucket: seq<nat>)
    returns (r: Placing)
    requires Placed(h2, cls, g, random, mapped, placed) && forall i :: 0 <= i < |h2| ==> h2[i] < |h2|
    requires |bucket| >= 1 && forall t :: 0 <= t < |bucket| ==> bucket[t] < |cls|
    ensures PlacesGive(h2, bucket, Tables(random, mapped), |placed|, 0, r)
    ensures |placed| == |h2| ==> r == NoPlace(Tables(random, mapped))
  {
    r := TryPlaces(h2, bucket, Tables(random, mapped), |placed|, 0);
  }

  /** One displacement: the first key of the bucket would go to the free slot at place `z`. */
  method TrySlot(h2: seq<nat>, ghost cls: seq<nat>, g: array<nat>, random: array<nat>, mapped: array<nat>,
                 bucket: seq<nat>, c: nat, filledCount0: nat, z: nat, ghost placed: seq<nat>)
    returns (restart: bool, filledCount: nat)
    requires random != mapped && random != g && mapped != g && |bucket| >= 1 && c < g.Length
    requires Placed(h2, cls, g[..], random[..], mapped[..], placed) && filledCount0 == |placed|
    requires z < |h2| - filledCount0 && random.Length == |h2| == |cls|
    requires forall t :: 0 <= t < |bucket| ==> bucket[t] < |cls| && cls[bucket[t]] == c
    requires forall k :: 0 <= k < |placed| ==> placed[k] < |cls| && cls[placed[k]] != c
    requires forall i :: 0 <= i < |h2| ==> h2[i] < |h2|
    modifies g, random, mapped
    ensures g[..] == old(g[..])[c := g[c]] && g[c] == Mod(|h2| + old(random[filledCount0 + z]) - h2[bucket[0]], |h2|)
    ensures filledCount == filledCount0 + if restart then 0 else |bucket|
    ensures Placed(h2, cls, g[..], random[..], mapped[..], if restart then placed else placed + bucket)
    ensures restart ==> Failed(h2, cls, g[..], placed, bucket)
    ensures KeysGive(h2, bucket, g[c], Tables(old(random[..]), old(mapped[..])), filledCount0, 0,
                     Trial(!restart, Tables(random[..], mapped[..])))
  {
    hide Placed, Conflict, OnTakenSlot, KeysGive;
    PlacedSizes(h2, cls, g[..], random[..], mapped[..], placed);
    ghost var gs := g[..];
    var target := random[filledCount0 + z];
    var d := Mod(|h2| + target - h2[bucket[0]], |h2|);
    OtherDisplacement(h2, cls, gs, random[..], mapped[..], placed, c, d);
    g[c] := d;
    assert g[..] == gs[c := d];
    TargetInRange(h2, cls, gs, random[..], mapped[..], placed, filledCount0 + z);
    FirstKeyLands(h2[bucket[0]], target, |h2|);
    assert SlotOf(h2, cls, g[..], bucket[0]) == target;
    PlaceIsFree(h2, cls, g[..], random[..], mapped[..], placed, bucket[0], filledCount0 + z);
    restart, filledCount := TryBucket(h2, cls, g, random, mapped, bucket, c, filledCount0, placed);
  }

  lemma PlacedSizes(h2: seq<nat>, cls: seq<nat>, g: seq<nat>, random: seq<nat>, mapped: seq<nat>, placed: seq<nat>)
    requires Placed(h2, cls, g, random, mapped, placed)
    ensures |random| == |mapped| == |h2| == |cls| && |placed| <= |h2|
    ensures forall i :: 0 <= i < |cls| ==> cls[i] < |g|
  {
  }

  lemma TargetInRange(h2: seq<nat>, cls: seq<nat>, g: seq<nat>, random: seq<nat>, mapped: seq<nat>, placed: seq<nat>,
                      p: nat)
    requires Placed(h2, cls, g, random, mapped, placed) && p < |h2|
    ensures p < |random| && random[p] < |h2|
  {
  }

  // ---------- all the buckets ----------

  /** The placed keys are exactly those of the first `k` buckets in order. */
  ghost predicate Covers(cls: seq<nat>, sorted: seq<nat>, k: nat, placed: seq<nat>) {
    && k <= |sorted| && (forall t :: 0 <= t < |placed| ==> placed[t] < |cls|)
    && forall x :: 0 <= x < |cls| ==> (x in placed <==> cls[x] in sorted[..k])
  }

  lemma CoversNext(cls: seq<nat>, sorted: seq<nat>, k: nat, placed: seq<nat>)
    requires Covers(cls, sorted, k, placed) && k < |sorted| && Distinct(sorted)
    ensures Covers(cls, sorted, k + 1, placed + BucketKeys(cls, sorted[k], |cls|))
    ensures forall t :: 0 <= t < |placed| ==> placed[t] < |cls| && cls[placed[t]] != sorted[k]
  {
    var bucket := BucketKeys(cls, sorted[k], |cls|);
    assert sorted[..k + 1] == sorted[..k] + [sorted[k]];
    forall x | 0 <= x < |cls|
      ensures x in bucket <==> cls[x] == sorted[k]
    {
      if x in bucket {
        var t :| 0 <= t < |bucket| && bucket[t] == x;
        BucketHasItsKeys(cls, sorted[k], t);
      }
      if cls[x] == sorted[k] {
        KeyInBucket(cls, x);
      }
    }
    forall t | 0 <= t < |bucket|
      ensures bucket[t] < |cls|
    {
      BucketHasItsKeys(cls, sorted[k], t);
    }
    forall t | 0 <= t < |placed|
      ensures cls[placed[t]] != sorted[k]
    {
      assert placed[t] in placed;
      assert cls[placed[t]] in sorted[..k];
    }
  }

  lemma CoversNone(cls: seq<nat>, sorted: seq<nat>)
    ensures Covers(cls, sorted, 0, [])
  {
  }

  /** When only empty buckets are left, all keys are placed. */
  lemma CoversAll(cls: seq<nat>, sorted: seq<nat>, values: seq<seq<nat>>, k: nat, placed: seq<nat>)
    requires Covers(cls, sorted, k, placed) && SortedBySize(sorted, BucketSizes(values))
    requires (forall i :: 0 <= i < |cls| ==> cls[i] < |values|)
             && forall c :: 0 <= c < |values| ==> values[c] == BucketKeys(cls, c, |cls|)
    requires k < |sorted| ==> values[sorted[k]] == []
    ensures forall i :: 0 <= i < |cls| ==> i in placed
  {
    forall i | 0 <= i < |cls|
      ensures i in placed
    {
      KeyInBucket(cls, i);
      assert cls[i] in sorted;
      var p :| 0 <= p < |sorted| && sorted[p] == cls[i];
      assert BucketSizes(values)[sorted[p]] >= 1;
      if k < |sorted| {
        assert BucketSizes(values)[sorted[k]] == 0;
      }
      assert p < k;
      assert sorted[..k][p] == cls[i];
    }
  }

  /** The keys of the first `i` buckets are placed, and the next bucket, that has keys, has failed with as many
      displacements as there were free slots. */
  ghost predicate BucketStuck(h2: seq<nat>, cls: seq<nat>, g: seq<nat>, t: Tables, values: seq<seq<nat>>,
                              sorted: seq<nat>, i: nat, placed: seq<nat>, tried: seq<nat>) {
    && i < |sorted| && sorted[i] < |values| == |g| && values[sorted[i]] != [] && |tried| + |placed| == |h2|
    && |placed| < |h2|
    && Placed(h2, cls, g, t.random, t.mapped, placed) && Covers(cls, sorted, i, placed)
    && AllConflict(h2, cls, g, placed, values[sorted[i]], sorted[i], tried)
  }

  /** Where the search of these tables is stuck, and why */
  ghost predicate StuckFor(h2: seq<nat>, cls: seq<nat>, values: seq<seq<nat>>, sorted: seq<nat>, t0: Tables,
                           g: seq<nat>, t: Tables, i: nat, placed: seq<nat>, tried: seq<nat>) {
    && SearchGives(h2, values, sorted, t0, 0, 0, Stuck(i, |placed|, t))
    && BucketStuck(h2, cls, g, t, values, sorted, i, placed, tried)
  }

  /** With these tables to begin with, the search comes to a bucket that is stuck. */
  ghost predicate StuckFrom(h2: seq<nat>, cls: seq<nat>, values: seq<seq<nat>>, sorted: seq<nat>, t0: Tables) {
    exists g, t, i, placed, tried :: StuckFor(h2, cls, values, sorted, t0, g, t, i, placed, tried)
  }

  lemma StuckNow(h2: seq<nat>, cls: seq<nat>, values: seq<seq<nat>>, sorted: seq<nat>, t0: Tables, g: seq<nat>,
                 t: Tables, i: nat, placed: seq<nat>, tried: seq<nat>, d: nat)
    requires SearchGives(h2, values, sorted, t0, 0, 0, Stuck(i, |placed|, t))
    requires i < |sorted| && sorted[i] < |values| == |g| && |tried| + |placed| == |h2|
    requires values[sorted[i]] != [] && BucketsKnown(cls, values)
    requires Placed(h2, cls, g[sorted[i] := d], t.random, t.mapped, placed) && Covers(cls, sorted, i, placed)
    requires Distinct(sorted) && AllConflict(h2, cls, g, placed, values[sorted[i]], sorted[i], tried)
    ensures StuckFrom(h2, cls, values, sorted, t0)
  {
    hide Failed, SearchGives;
    var c := sorted[i];
    forall z | 0 <= z < |tried|
      ensures Failed(h2, cls, g[c := d][c := tried[z]], placed, values[c])
    {
      assert g[c := d][c := tried[z]] == g[c := tried[z]];
    }
    RoomIsLeft(h2, cls, g[c := d], t, values, sorted, i, placed);
    assert StuckFor(h2, cls, values, sorted, t0, g[c := d], t, i, placed, tried);
  }

  /** The values are the buckets of the keys. */
  ghost predicate BucketsKnown(cls: seq<nat>, values: seq<seq<nat>>) {
    forall c :: 0 <= c < |values| ==> values[c] == BucketKeys(cls, c, |cls|)
  }

  /** As long as a bucket has keys, there is a free slot. */
  lemma RoomIsLeft(h2: seq<nat>, cls: seq<nat>, g: seq<nat>, t: Tables, values: seq<seq<nat>>, sorted: seq<nat>, i: nat,
                   placed: seq<nat>)
    requires i < |sorted| && sorted[i] < |values| && values[sorted[i]] != [] && BucketsKnown(cls, values)
    requires Placed(h2, cls, g, t.random, t.mapped, placed) && Covers(cls, sorted, i, placed) && Distinct(sorted)
    ensures |placed| < |h2|
  {
    var c := sorted[i];
    BucketHasItsKeys(cls, c, 0);
    var x := values[c][0];
    assert cls[x] !in sorted[..i];
    PlacedApart(h2, cls, g, t.random, t.mapped, placed);
    RoomFor(placed, |h2|, x);
  }

  lemma PlacedApart(h2: seq<nat>, cls: seq<nat>, g: seq<nat>, random: seq<nat>, mapped: seq<nat>, placed: seq<nat>)
    requires Placed(h2, cls, g, random, mapped, placed)
    ensures Distinct(placed) && forall k :: 0 <= k < |placed| ==> placed[k] < |h2|
  {
    forall k, l | 0 <= k < l < |placed|
      ensures placed[k] != placed[l]
    {
      assert mapped[random[k]] == k && mapped[random[l]] == l;
    }
  }

  /** How the search of these tables ends: stuck or not, with these tables */
  ghost predicate SearchEnds(h2: seq<nat>, cls: seq<nat>, values: seq<seq<nat>>, sorted: seq<nat>, t0: Tables,
                             restart: bool, t: Tables) {
    && TablesOk(t0, |h2|) && BucketsOk(h2, values, sorted)
    && (restart <==> SearchFrom(h2, values, sorted, t0, 0, 0).Stuck?)
    && SearchFrom(h2, values, sorted, t0, 0, 0).tables == t && (restart ==> StuckFrom(h2, cls, values, sorted, t0))
  }

  lemma ItIsStuck(h2: seq<nat>, cls: seq<nat>, values: seq<seq<nat>>, sorted: seq<nat>, t0: Tables, t: Tables, i: nat,
                  filled: nat)
    requires SearchGives(h2, values, sorted, t0, 0, 0, Stuck(i, filled, t)) && StuckFrom(h2, cls, values, sorted, t0)
    ensures SearchEnds(h2, cls, values, sorted, t0, true, t)
  {
    hide SearchFrom, StuckFrom, BucketsOk, Inverse;
  }

  lemma ItIsFound(h2: seq<nat>, cls: seq<nat>, values: seq<seq<nat>>, sorted: seq<nat>, t0: Tables, t: Tables, i: nat,
                  filled: nat, r: Finding)
    requires SearchGives(h2, values, sorted, t0, 0, 0, r) && SearchGives(h2, values, sorted, t, i, filled, r)
    requires i < |sorted| ==> sorted[i] < |values| && values[sorted[i]] == []
    ensures SearchEnds(h2, cls, values, sorted, t0, false, t)
  {
    hide StuckFrom, KeysOk, Inverse;
  }

  lemma SearchBegins(h2: seq<nat>, cls: seq<nat>, g: seq<nat>, t: Tables, values: seq<seq<nat>>, sorted: seq<nat>)
    returns (r: Finding)
    requires Placed(h2, cls, g, t.random, t.mapped, []) && BucketsKnown(cls, values)
    requires (forall i :: 0 <= i < |h2| ==> h2[i] < |h2|) && SortedBySize(sorted, BucketSizes(values))
    ensures SearchGives(h2, values, sorted, t, 0, 0, r)
  {
    BucketsAreOk(h2, cls, values, sorted);
    r := SearchFrom(h2, values, sorted, t, 0, 0);
  }

  lemma BucketsAreOk(h2: seq<nat>, cls: seq<nat>, values: seq<seq<nat>>, sorted: seq<nat>)
    requires |h2| == |cls| && BucketsKnown(cls, values) && SortedBySize(sorted, BucketSizes(values))
    requires forall i :: 0 <= i < |h2| ==> h2[i] < |h2|
    ensures BucketsOk(h2, values, sorted)
  {
    forall c | 0 <= c < |values|
      ensures KeysOk(h2, values[c])
    {
      BucketsKeys(cls, c, values[c]);
    }
  }

  /** The loop over the buckets, largest first. It ends at the first empty bucket, or when a bucket is stuck. */
  method SearchBuckets(h2: seq<nat>, ghost cls: seq<nat>, g: array<nat>, random: array<nat>, mapped: array<nat>,
                       values: seq<seq<nat>>, sortedIndexes: seq<nat>, restart0: bool)
    returns (restart: bool)
    requires random != mapped && random != g && mapped != g && g.Length == |values|
             && SortedBySize(sortedIndexes, BucketSizes(values))
    requires (forall i :: 0 <= i < |cls| ==> cls[i] < |values|)
             && forall c :: 0 <= c < |values| ==> values[c] == BucketKeys(cls, c, |cls|)
    requires Placed(h2, cls, g[..], random[..], mapped[..], []) && forall i :: 0 <= i < |h2| ==> h2[i] < |h2|
    modifies g, random, mapped
    ensures Placed(h2, cls, g[..], random[..], mapped[..], [])
    ensures !restart ==> forall i, j :: 0 <= i < j < |h2| ==> SlotOf(h2, cls, g[..], i) != SlotOf(h2, cls, g[..], j)
    ensures restart0 ==> restart && Tables(random[..], mapped[..]) == Tables(old(random[..]), old(mapped[..]))
    ensures !restart0 ==>
              SearchEnds(h2, cls, values, sortedIndexes, Tables(old(random[..]), old(mapped[..])), restart,
                         Tables(random[..], mapped[..]))
  {
    hide Placed, Inverse, Covers, SlotOf, SearchEnds, AllConflict, SearchGives, PlacesGive, Distinct, StuckFrom;
    ghost var t0 := Tables(random[..], mapped[..]);
    ghost var placed: seq<nat> := [];
    var filledCount := 0;
    restart := restart0;
    PlacedSizes(h2, cls, g[..], random[..], mapped[..], placed);
    CoversNone(cls, sortedIndexes);
    ghost var r := SearchBegins(h2, cls, g[..], t0, values, sortedIndexes);
    var i := 0;
    while i < |sortedIndexes| && !restart
      invariant i <= |sortedIndexes| && filledCount == |placed|
      invariant Placed(h2, cls, g[..], random[..], mapped[..], placed)
      invariant !restart ==> Covers(cls, sortedIndexes, i, placed)
      invariant restart0 ==> restart && Tables(random[..], mapped[..]) == t0
      invariant !restart ==> SearchGives(h2, values, sortedIndexes, Tables(random[..], mapped[..]), i, filledCount, r)
      invariant restart && !restart0 ==>
                  SearchEnds(h2, cls, values, sortedIndexes, t0, restart, Tables(random[..], mapped[..]))
    {
      var c := sortedIndexes[i];
      assert values[c] == BucketKeys(cls, c, |cls|);
      if |values[c]| == 0 {
        restart := false;
        break;
      }
      CoversNext(cls, sortedIndexes, i, placed);
      BucketsKeys(cls, c, values[c]);
      ghost var tried, g0, t := [], g[..], Tables(random[..], mapped[..]);
      restart, filledCount, tried := PlaceBucket(h2, cls, g, random, mapped, values[c], c, filledCount, placed);
      ghost var now := Tables(random[..], mapped[..]);
      SearchStep(h2, values, sortedIndexes, t, i, |placed|, r, if restart then NoPlace(now) else Fits(g[c], now));
      if restart {
        assert g0[c := g[c]] == g[..];
        StuckNow(h2, cls, values, sortedIndexes, t0, g0, now, i, placed, tried, g[c]);
        ItIsStuck(h2, cls, values, sortedIndexes, t0, now, i, |placed|);
      }
      if !restart {
        placed := placed + values[c];
      }
      i := i + 1;
    }
    if !restart {
      ItIsFound(h2, cls, values, sortedIndexes, t0, Tables(random[..], mapped[..]), i, filledCount, r);
      CoversAll(cls, sortedIndexes, values, i, placed);
      AllPlaced(h2, cls, g[..], random[..], mapped[..], placed);
    }
    assert [] + placed == placed;
    Undo(h2, cls, g[..], random[..], mapped[..], [], placed);
  }

  lemma BucketsKeys(cls: seq<nat>, c: nat, bucket: seq<nat>)
    requires bucket == BucketKeys(cls, c, |cls|)
    ensures forall t :: 0 <= t < |bucket| ==> bucket[t] < |cls| && cls[bucket[t]] == c
  {
    forall t | 0 <= t < |bucket|
      ensures bucket[t] < |cls| && cls[bucket[t]] == c
    {
      BucketHasItsKeys(cls, c, t);
    }
  }

  // ---------- the tables to begin with ----------

  /** `permut`: any random choices leave a permutation. */
  method Permut(vector: array<nat>)
    requires Distinct(vector[..]) && forall i :: 0 <= i < vector.Length ==> vector[i] < vector.Length
    modifies vector
    ensures Distinct(vector[..]) && forall i :: 0 <= i < vector.Length ==> vector[i] < vector.Length
  {
    var n := vector.Length;
    for i := 0 to n
      invariant Distinct(vector[..]) && forall k :: 0 <= k < n ==> vector[k] < n
    {
      var j: nat :| j < n;
      Exchange(vector, i, j);
    }
  }

  method Exchange(vector: array<nat>, i: nat, j: nat)
    requires i < vector.Length && j < vector.Length && Distinct(vector[..])
    requires forall k :: 0 <= k < vector.Length ==> vector[k] < vector.Length
    modifies vector
    ensures Distinct(vector[..]) && forall k :: 0 <= k < vector.Length ==> vector[k] < vector.Length
  {
    ghost var before := vector[..];
    var b := vector[i];
    vector[i] := vector[j];
    vector[j] := b;
    assert vector[..] == before[i := before[j]][j := before[i]];
  }

  /** The tables at the start of `searching` */
  method NewTables(m: nat) returns (random: array<nat>, mapped: array<nat>)
    ensures fresh(random) && fresh(mapped) && random != mapped && random.Length == m && Inverse(random[..], mapped[..])
  {
    random := new nat[m](i => i);
    mapped := new nat[m](_ => 0);
    Permut(random);
    ghost var r := random[..];
    for i := 0 to m
      invariant random[..] == r && forall k :: 0 <= k < i ==> mapped[r[k]] == k
    {
      mapped[random[i]] := i;
    }
    InverseFrom(r, mapped[..]);
  }

  lemma InverseFrom(random: seq<nat>, mapped: seq<nat>)
    requires |random| == |mapped| && Distinct(random)
    requires forall k :: 0 <= k < |random| ==> random[k] < |random| && mapped[random[k]] == k
    ensures Inverse(random, mapped)
  {
    DistinctBelow(random, |random|);
    forall x | 0 <= x < |mapped|
      ensures mapped[x] < |random| && random[mapped[x]] == x
    {
      assert x in random;
      var k :| 0 <= k < |random| && random[k] == x;
    }
  }

  // ---------- the searching step ----------

  /** The displacement that a bucket tries sends its first key to the free slot it was made for. */
  lemma FirstKeyLands(h2: nat, target: nat, m: nat)
    requires h2 < m && target < m
    ensures Mod(h2 + Mod(m + target - h2, m), m) == target
  {
  }

  /** Two keys of one bucket have the same second hash value, so that no displacement can part them. */
  ghost predicate Collide(h2: seq<nat>, cls: seq<nat>, x: nat, y: nat) {
    x < y < |cls| && |cls| == |h2| && cls[x] == cls[y] && h2[x] == h2[y]
  }

  lemma CollidingNeverPart(h2: seq<nat>, cls: seq<nat>, g: seq<nat>, x: nat, y: nat)
    requires Collide(h2, cls, x, y) && cls[x] < |g|
    ensures SlotOf(h2, cls, g, x) == SlotOf(h2, cls, g, y)
  {
  }

  /** The first bucket finds a place at once, if its keys have different second hash values. */
  lemma FirstBucketFits(h2: seq<nat>, values: seq<seq<nat>>, sorted: seq<nat>, t: Tables)
    requires TablesOk(t, |h2|) && BucketsOk(h2, values, sorted) && |sorted| >= 1
    requires !BucketCollides(h2, values[sorted[0]], |values[sorted[0]]|)
    ensures SearchFrom(h2, values, sorted, t, 0, 0).Stuck? ==> SearchFrom(h2, values, sorted, t, 0, 0).place >= 1
    ensures var bucket := values[sorted[0]];
            bucket != [] ==>
              && TryPlaces(h2, bucket, t, 0, 0).Fits? && bucket[0] < |h2|
              && (h2[bucket[0]] + TryPlaces(h2, bucket, t, 0, 0).displacement) % |h2| == t.random[0]
  {
    hide TryKeys, DisplacementFor, BucketCollides;
    var bucket := values[sorted[0]];
    assert KeysOk(h2, bucket);
    if bucket != [] {
      assert |h2| >= 1 && bucket[0] < |h2|;
      FirstTryFits(h2, bucket, t);
      var d := DisplacementFor(h2, bucket, t, 0);
      LaterPlace(h2, values, sorted, TryKeys(h2, bucket, d, t, 0, 0).tables, 1, |bucket|);
    }
  }

  lemma FirstTryFits(h2: seq<nat>, bucket: seq<nat>, t: Tables)
    requires TablesOk(t, |h2|) && KeysOk(h2, bucket) && bucket != [] && !BucketCollides(h2, bucket, |bucket|)
    ensures bucket[0] < |h2|
    ensures TryKeys(h2, bucket, DisplacementFor(h2, bucket, t, 0), t, 0, 0).fits
    ensures (h2[bucket[0]] + DisplacementFor(h2, bucket, t, 0)) % |h2| == t.random[0]
  {
    hide TryKeys, DisplacementFor;
    var d := DisplacementFor(h2, bucket, t, 0);
    DisplacementMeans(h2, bucket, t, 0);
    forall k | 0 <= k < |bucket|
      ensures FreeFor(h2, bucket, d, t, 0, 0, k)
    {
      SlotsDiffer(h2, bucket, t, d, k);
    }
    TryKeysMeans(h2, bucket, d, t, 0, 0);
  }

  lemma SlotsDiffer(h2: seq<nat>, bucket: seq<nat>, t: Tables, d: nat, k: nat)
    requires TablesOk(t, |h2|) && KeysOk(h2, bucket) && k < |bucket| && !BucketCollides(h2, bucket, |bucket|)
    ensures FreeFor(h2, bucket, d, t, 0, 0, k)
  {
    forall l | 0 <= l < k
      ensures SlotUnder(h2, bucket, d, l) != SlotUnder(h2, bucket, d, k)
    {
      assert h2[bucket[l]] != h2[bucket[k]];
      ShiftApart(h2[bucket[l]], h2[bucket[k]], d, |h2|);
    }
  }

  lemma {:induction false} LaterPlace(h2: seq<nat>, values: seq<seq<nat>>, sorted: seq<nat>, t: Tables, i: nat,
                                      filled: nat)
    requires TablesOk(t, |h2|) && BucketsOk(h2, values, sorted)
    ensures var r := SearchFrom(h2, values, sorted, t, i, filled); r.Stuck? ==> r.place >= i
    decreases |sorted| - i
  {
    hide TryPlaces, KeysOk, Inverse;
    if i < |sorted| && values[sorted[i]] != [] {
      var r := TryPlaces(h2, values[sorted[i]], t, filled, 0);
      if r.Fits? {
        LaterPlace(h2, values, sorted, r.tables, i + 1, filled + |values[sorted[i]]|);
      }
    }
  }

  lemma {:induction false} ShiftApart(a: nat, b: nat, d: nat, m: nat)
    requires a < m && b < m && a != b
    ensures Mod(a + d, m) != Mod(b + d, m)
  {
    if d >= m {
      ShiftApart(a, b, d - m, m);
    }
  }

  /** The second hash values of the first `k` keys of a bucket are marked. */
  ghost predicate MarkedValues(table: seq<bool>, h2: seq<nat>, bucket: seq<nat>, k: nat) {
    && k <= |bucket| && |table| == |h2| && (forall t :: 0 <= t < |bucket| ==> bucket[t] < |h2|)
    && forall s :: 0 <= s < |table| ==> (table[s] <==> HasValue(h2, bucket, k, s))
  }

  ghost predicate HasValue(h2: seq<nat>, bucket: seq<nat>, k: nat, s: nat) {
    exists t :: 0 <= t < k && t < |bucket| && bucket[t] < |h2| && h2[bucket[t]] == s
  }

  ghost predicate BucketCollides(h2: seq<nat>, bucket: seq<nat>, k: nat) {
    exists t, u :: 0 <= t < u < k && u < |bucket| && bucket[t] < |h2| && bucket[u] < |h2|
      && h2[bucket[t]] == h2[bucket[u]]
  }

  lemma MarkNext(table: seq<bool>, h2: seq<nat>, bucket: seq<nat>, k: nat)
    requires MarkedValues(table, h2, bucket, k) && k < |bucket| && h2[bucket[k]] < |h2|
             && !BucketCollides(h2, bucket, k)
    ensures BucketCollides(h2, bucket, k + 1) <==> table[h2[bucket[k]]]
    ensures MarkedValues(table[h2[bucket[k]] := true], h2, bucket, k + 1)
  {
    var next := k + 1;
    forall s: nat
      ensures HasValue(h2, bucket, next, s) <==> HasValue(h2, bucket, k, s) || s == h2[bucket[k]]
    {
      if HasValue(h2, bucket, next, s) {
        var t :| 0 <= t < next && h2[bucket[t]] == s;
        assert t < k || t == k;
      }
    }
    if BucketCollides(h2, bucket, next) {
      var t, u :| 0 <= t < u < next && h2[bucket[t]] == h2[bucket[u]];
      assert u == k;
    }
  }

  /** The part of `check_for_collisions_h2` for one bucket */
  method CheckBucket(h2: seq<nat>, bucket: seq<nat>) returns (collision: bool)
    requires (forall i :: 0 <= i < |h2| ==> h2[i] < |h2|) && forall t :: 0 <= t < |bucket| ==> bucket[t] < |h2|
    ensures collision <==> BucketCollides(h2, bucket, |bucket|)
  {
    var hashtable := new bool[|h2|](_ => false);
    hide BucketCollides, HasValue;
    NothingHasValue(h2, bucket);
    for j := 0 to |bucket|
      invariant MarkedValues(hashtable[..], h2, bucket, j) && !BucketCollides(h2, bucket, j)
    {
      var index := h2[bucket[j]];
      ghost var before := hashtable[..];
      MarkNext(before, h2, bucket, j);
      if hashtable[index] {
        CollidesLater(h2, bucket, j + 1);
        return true;
      }
      hashtable[index] := true;
      assert hashtable[..] == before[index := true];
    }
    return false;
  }

  lemma NothingHasValue(h2: seq<nat>, bucket: seq<nat>)
    ensures !BucketCollides(h2, bucket, 0) && forall s: nat :: !HasValue(h2, bucket, 0, s)
  {
  }

  lemma CollidesLater(h2: seq<nat>, bucket: seq<nat>, k: nat)
    requires BucketCollides(h2, bucket, k) && k <= |bucket|
    ensures BucketCollides(h2, bucket, |bucket|)
  {
  }

  lemma CollisionMeans(h2: seq<nat>, values: seq<seq<nat>>)
    requires forall c, t :: 0 <= c < |values| && 0 <= t < |values[c]| ==> values[c][t] < |h2|
    ensures (exists c :: 0 <= c < |values| && BucketCollides(h2, values[c], |values[c]|))
            <==> exists c, t, u :: 0 <= c < |values| && 0 <= t < u < |values[c]|
                                   && h2[values[c][t]] == h2[values[c][u]]
  {
    if c, t, u :| 0 <= c < |values| && 0 <= t < u < |values[c]| && h2[values[c][t]] == h2[values[c][u]] {
      assert BucketCollides(h2, values[c], |values[c]|);
    }
  }

  /** `check_for_collisions_h2`: whether some bucket has two keys with the same second hash value */
  method CheckForCollisions(h2: seq<nat>, values: seq<seq<nat>>, sortedIndexes: seq<nat>) returns (collision: bool)
    requires forall i :: 0 <= i < |h2| ==> h2[i] < |h2|
    requires forall c, t :: 0 <= c < |values| && 0 <= t < |values[c]| ==> values[c][t] < |h2|
    requires SortedBySize(sortedIndexes, BucketSizes(values))
    ensures collision <==> exists c :: 0 <= c < |values| && BucketCollides(h2, values[c], |values[c]|)
    ensures collision <==> exists c, t, u :: 0 <= c < |values| && 0 <= t < u < |values[c]|
                                             && h2[values[c][t]] == h2[values[c][u]]
  {
    hide BucketCollides;
    CollisionMeans(h2, values);
    for i := 0 to |sortedIndexes|
      invariant forall p :: 0 <= p < i ==> !BucketCollides(h2, values[sortedIndexes[p]], |values[sortedIndexes[p]]|)
    {
      collision := CheckBucket(h2, values[sortedIndexes[i]]);
      if collision {
        return;
      }
    }
    forall c | 0 <= c < |values|
      ensures !BucketCollides(h2, values[c], |values[c]|)
    {
      assert c in sortedIndexes;
    }
    return false;
  }

  /** The slots of all keys are different. */
  ghost predicate SlotsApart(h2: seq<nat>, cls: seq<nat>, g: seq<nat>) {
    && |h2| == |cls| && (forall i :: 0 <= i < |cls| ==> cls[i] < |g|)
    && forall i, j :: 0 <= i < j < |h2| ==> SlotOf(h2, cls, g, i) != SlotOf(h2, cls, g, j)
  }

  /** Two keys of some bucket have the same second hash value. */
  ghost predicate Collides(h2: seq<nat>, values: seq<seq<nat>>)
    requires forall c, t :: 0 <= c < |values| && 0 <= t < |values[c]| ==> values[c][t] < |h2|
  {
    exists c :: 0 <= c < |values| && BucketCollides(h2, values[c], |values[c]|)
  }

  /** What `values` and `sorted` have to be for the bucket numbers */
  ghost predicate Bucketed(cls: seq<nat>, values: seq<seq<nat>>, sorted: seq<nat>) {
    && |cls| >= 1 && SortedBySize(sorted, BucketSizes(values)) && (forall i :: 0 <= i < |cls| ==> cls[i] < |values|)
    && forall c :: 0 <= c < |values| ==> values[c] == BucketKeys(cls, c, |cls|)
  }

  /** Why a hash function for the slots is given up */
  ghost predicate SeedFails<Key>(hash: HashPairs<Key>, keys: seq<Key>, cls: seq<nat>, values: seq<seq<nat>>,
                                 sorted: seq<nat>, seed: nat)
    requires |keys| == |cls| && Bucketed(cls, values, sorted)
  {
    || SeedCollides(hash, keys, cls, values, sorted, seed)
    || exists t :: StuckFrom(SlotSeeds(hash, seed, keys), cls, values, sorted, t)
  }

  ghost predicate SeedCollides<Key>(hash: HashPairs<Key>, keys: seq<Key>, cls: seq<nat>, values: seq<seq<nat>>,
                                    sorted: seq<nat>, seed: nat)
    requires |keys| == |cls| && Bucketed(cls, values, sorted)
  {
    ValuesInRange(cls, values);
    Collides(SlotSeeds(hash, seed, keys), values)
  }

  /** How many of these seeds were searched with, because they do not collide */
  ghost function Searched<Key>(hash: HashPairs<Key>, keys: seq<Key>, cls: seq<nat>, values: seq<seq<nat>>,
                               sorted: seq<nat>, lo: nat, hi: nat): (n: nat)
    requires |keys| == |cls| && Bucketed(cls, values, sorted) && lo <= hi
    decreases hi - lo
  {
    if lo == hi then 0
    else Searched(hash, keys, cls, values, sorted, lo, hi - 1)
         + if SeedCollides(hash, keys, cls, values, sorted, hi - 1) then 0 else 1
  }

  /** All seeds from `lo` to below `hi` fail. */
  ghost predicate AllFail<Key>(hash: HashPairs<Key>, keys: seq<Key>, cls: seq<nat>, values: seq<seq<nat>>,
                               sorted: seq<nat>, lo: nat, hi: nat)
    requires |keys| == |cls| && Bucketed(cls, values, sorted)
  {
    forall s :: lo <= s < hi ==> SeedFails(hash, keys, cls, values, sorted, s)
  }

  /** The last `n` of these seeds collide. */
  ghost predicate LastCollide<Key>(hash: HashPairs<Key>, keys: seq<Key>, cls: seq<nat>, values: seq<seq<nat>>,
                                   sorted: seq<nat>, n: nat, hi: nat)
    requires |keys| == |cls| && Bucketed(cls, values, sorted)
  {
    n <= hi && forall s :: hi - n <= s < hi ==> SeedCollides(hash, keys, cls, values, sorted, s)
  }

  /** The searching step gives up after the seeds from `lo` to below `hi`: all fail, and ten were searched with, or
      the last thousand collide. */
  ghost predicate GivesUp<Key>(hash: HashPairs<Key>, keys: seq<Key>, cls: seq<nat>, values: seq<seq<nat>>,
                               sorted: seq<nat>, lo: nat, hi: nat)
    requires |keys| == |cls| && Bucketed(cls, values, sorted)
  {
    && lo <= hi && AllFail(hash, keys, cls, values, sorted, lo, hi)
    && (Searched(hash, keys, cls, values, sorted, lo, hi) == 10
        || LastCollide(hash, keys, cls, values, sorted, 1000, hi))
  }

  /** How the searching step ends, and at which seed */
  datatype StepEnd = SlotsAt(seed: nat) | NoSlots(seed: nat)

  /** The searching step from this seed on, after so many searches and so many collisions in a row. A search that is
      stuck leaves its tables to the next. */
  ghost function StepFrom<Key>(hash: HashPairs<Key>, keys: seq<Key>, cls: seq<nat>, values: seq<seq<nat>>,
                               sorted: seq<nat>, seed: nat, searches: nat, run: nat, t: Tables): (r: StepEnd)
    requires |keys| == |cls| && Bucketed(cls, values, sorted) && TablesOk(t, |keys|)
    decreases 10 - searches, 1000 - run
  {
    if SeedCollides(hash, keys, cls, values, sorted, seed) then
      if run + 1 >= 1000 then NoSlots(seed)
      else StepFrom(hash, keys, cls, values, sorted, seed + 1, searches, run + 1, t)
    else
      BucketsAreOk(SlotSeeds(hash, seed, keys), cls, values, sorted);
      match SearchFrom(SlotSeeds(hash, seed, keys), values, sorted, t, 0, 0)
      case Found(_) => SlotsAt(seed)
      case Stuck(_, _, t') =>
        if searches + 1 >= 10 then NoSlots(seed)
        else StepFrom(hash, keys, cls, values, sorted, seed + 1, searches + 1, 0, t')
  }

  /** What is left of the step, from this seed on, comes to this end. */
  ghost predicate StepGives<Key>(hash: HashPairs<Key>, keys: seq<Key>, cls: seq<nat>, values: seq<seq<nat>>,
                                 sorted: seq<nat>, seed: nat, searches: nat, run: nat, t: Tables, r: StepEnd)
    requires |keys| == |cls| && Bucketed(cls, values, sorted)
  {
    TablesOk(t, |keys|) && StepFrom(hash, keys, cls, values, sorted, seed, searches, run, t) == r
  }

  lemma StepBegins<Key>(hash: HashPairs<Key>, keys: seq<Key>, cls: seq<nat>, values: seq<seq<nat>>, sorted: seq<nat>,
                        seed: nat, t: Tables)
    returns (r: StepEnd)
    requires |keys| == |cls| && Bucketed(cls, values, sorted) && TablesOk(t, |keys|)
    ensures StepGives(hash, keys, cls, values, sorted, seed, 0, 0, t, r)
  {
    r := StepFrom(hash, keys, cls, values, sorted, seed, 0, 0, t);
  }

  /** One search, or none when two keys collide */
  lemma StepNext<Key>(hash: HashPairs<Key>, keys: seq<Key>, cls: seq<nat>, values: seq<seq<nat>>, sorted: seq<nat>,
                      seed: nat, searches: nat, run: nat, t: Tables, r: StepEnd, restart: bool, t': Tables)
    requires |keys| == |cls| && Bucketed(cls, values, sorted) && searches < 10 && run < 1000
    requires StepGives(hash, keys, cls, values, sorted, seed, searches, run, t, r)
    requires if SeedCollides(hash, keys, cls, values, sorted, seed) then restart && t' == t
             else SearchEnds(SlotSeeds(hash, seed, keys), cls, values, sorted, t, restart, t')
    ensures var c := SeedCollides(hash, keys, cls, values, sorted, seed);
            var searches', run' := if c then searches else searches + 1, if c then run + 1 else 0;
            && (!restart ==> r == SlotsAt(seed))
            && (restart && (searches' >= 10 || run' >= 1000) ==> r == NoSlots(seed))
            && (restart && searches' < 10 && run' < 1000 ==>
                  StepGives(hash, keys, cls, values, sorted, seed + 1, searches', run', t', r))
  {
    hide SearchFrom, SeedCollides, SlotSeeds, StuckFrom, BucketsOk, Bucketed;
  }

  /** One search, for a hash function that collides or not */
  method SearchAll<Key>(ghost hash: HashPairs<Key>, ghost seed: nat, ghost keys: seq<Key>, h2: seq<nat>,
                        ghost cls: seq<nat>, g: array<nat>, random: array<nat>, mapped: array<nat>,
                        values: seq<seq<nat>>, sortedIndexes: seq<nat>, collides: bool)
    returns (restart: bool)
    requires |keys| == |cls| && Bucketed(cls, values, sortedIndexes) && h2 == SlotSeeds(hash, seed, keys)
    requires collides <==> SeedCollides(hash, keys, cls, values, sortedIndexes, seed)
    requires Inverse(random[..], mapped[..]) && random.Length == |keys| && g.Length == |values|
    requires random != mapped && random != g && mapped != g
    modifies g, random, mapped
    ensures Inverse(random[..], mapped[..])
    ensures restart <== collides
    ensures if restart then SeedFails(hash, keys, cls, values, sortedIndexes, seed) else SlotsApart(h2, cls, g[..])
    ensures var t0, t := Tables(old(random[..]), old(mapped[..])), Tables(random[..], mapped[..]);
            if collides then t == t0 else SearchEnds(h2, cls, values, sortedIndexes, t0, restart, t)
  {
    hide SlotSeeds, Inverse, SlotOf, BucketCollides, StuckFrom, BucketsOk, SearchFrom;
    NothingPlaced(h2, cls, g[..], random[..], mapped[..]);
    restart := SearchBuckets(h2, cls, g, random, mapped, values, sortedIndexes, collides);
    StillInverse(h2, cls, g[..], random[..], mapped[..]);
  }

  /** `searching`: up to ten searches, each with up to a thousand hash functions for the slots. What it does depends
      only on the tables that the random choices leave at its start. */
  method SearchingStep<Key>(hash: HashPairs<Key>, seed0: nat, keys: seq<Key>, values: seq<seq<nat>>,
                            sortedIndexes: seq<nat>, ghost cls: seq<nat>)
    returns (restart: bool, seed2: nat, g: array<nat>, ghost tables: Tables)
    requires |keys| == |cls| && Bucketed(cls, values, sortedIndexes)
    ensures g.Length == |values| && fresh(g) && seed2 >= seed0
    ensures StepGives(hash, keys, cls, values, sortedIndexes, seed0, 0, 0, tables,
                      if restart then NoSlots(seed2) else SlotsAt(seed2))
    ensures !restart ==> SlotsApart(SlotSeeds(hash, seed2, keys), cls, g[..])
    ensures !restart ==> AllFail(hash, keys, cls, values, sortedIndexes, seed0, seed2)
    ensures restart ==> GivesUp(hash, keys, cls, values, sortedIndexes, seed0, seed2 + 1)
    ensures restart ==> Searched(hash, keys, cls, values, sortedIndexes, seed0, seed2 + 1) == 10
                        || LastCollide(hash, keys, cls, values, sortedIndexes, 1000, seed2 + 1)
    ensures Searched(hash, keys, cls, values, sortedIndexes, seed0, seed2) < 10
    ensures forall hi :: seed0 + 1000 <= hi <= seed2 ==>
              !LastCollide(hash, keys, cls, values, sortedIndexes, 1000, hi)
  {
    hide SlotSeeds, Inverse, SlotOf, SlotsApart, BucketCollides, SeedFails, AllFail, LastCollide, Searched, StepGives,
      SearchEnds, NoMoreCollide;
    var random, mapped := NewTables(|keys|);
    g := new nat[|values|](_ => 0);
    ValuesInRange(cls, values);
    tables := Tables(random[..], mapped[..]);
    ghost var r := StepBegins(hash, keys, cls, values, sortedIndexes, seed0, tables);
    var searchingIterations, iterationToGenerateH2 := 0, 0;
    seed2 := seed0;
    var h2 := SlotSeeds(hash, seed2, keys);
    NoneTried(hash, keys, cls, values, sortedIndexes, seed0);
    while true
      invariant seed2 >= seed0 && AllFail(hash, keys, cls, values, sortedIndexes, seed0, seed2)
      invariant Searched(hash, keys, cls, values, sortedIndexes, seed0, seed2) == searchingIterations
      invariant LastCollide(hash, keys, cls, values, sortedIndexes, iterationToGenerateH2, seed2)
      invariant NoMoreCollide(hash, keys, cls, values, sortedIndexes, iterationToGenerateH2, seed0, seed2)
      invariant forall hi :: seed0 + 1000 <= hi <= seed2 ==>
                  !LastCollide(hash, keys, cls, values, sortedIndexes, 1000, hi)
      invariant Inverse(random[..], mapped[..]) && random.Length == |keys|
      invariant fresh(random) && fresh(mapped) && fresh(g) && searchingIterations < 10 && iterationToGenerateH2 < 1000
      invariant h2 == SlotSeeds(hash, seed2, keys) && g.Length == |values|
      invariant StepGives(hash, keys, cls, values, sortedIndexes, seed2, searchingIterations, iterationToGenerateH2,
                          Tables(random[..], mapped[..]), r)
      decreases 10 - searchingIterations, 1000 - iterationToGenerateH2
    {
      restart := CheckForCollisions(h2, values, sortedIndexes);
      ghost var searches, run, t := searchingIterations, iterationToGenerateH2, Tables(random[..], mapped[..]);
      if !restart {
        searchingIterations, iterationToGenerateH2 := searchingIterations + 1, 0;
      } else {
        iterationToGenerateH2 := iterationToGenerateH2 + 1;
      }
      restart := SearchAll(hash, seed2, keys, h2, cls, g, random, mapped, values, sortedIndexes, restart);
      StepNext(hash, keys, cls, values, sortedIndexes, seed2, searches, run, t, r, restart,
               Tables(random[..], mapped[..]));
      if restart {
        OneMoreTried(hash, keys, cls, values, sortedIndexes, seed0, seed2, run);
      }
      if !(restart && searchingIterations < 10 && iterationToGenerateH2 < 1000) {
        break;
      }
      seed2 := seed2 + 1;
      ShortRun(hash, keys, cls, values, sortedIndexes, iterationToGenerateH2, seed0, seed2);
      h2 := SlotSeeds(hash, seed2, keys);
    }
  }

  /** The run of collisions that ends before seed `hi` is no longer than that. */
  ghost predicate NoMoreCollide<Key>(hash: HashPairs<Key>, keys: seq<Key>, cls: seq<nat>, values: seq<seq<nat>>,
                                     sorted: seq<nat>, run: nat, lo: nat, hi: nat)
    requires |keys| == |cls| && Bucketed(cls, values, sorted)
  {
    lo + run <= hi && (lo + run < hi ==> !SeedCollides(hash, keys, cls, values, sorted, hi - run - 1))
  }

  lemma ShortRun<Key>(hash: HashPairs<Key>, keys: seq<Key>, cls: seq<nat>, values: seq<seq<nat>>, sorted: seq<nat>,
                      run: nat, lo: nat, hi: nat)
    requires |keys| == |cls| && Bucketed(cls, values, sorted)
    requires NoMoreCollide(hash, keys, cls, values, sorted, run, lo, hi) && run < 1000
    ensures lo + 1000 <= hi ==> !LastCollide(hash, keys, cls, values, sorted, 1000, hi)
  {
    hide SeedCollides;
  }

  lemma NoneTried<Key>(hash: HashPairs<Key>, keys: seq<Key>, cls: seq<nat>, values: seq<seq<nat>>, sorted: seq<nat>,
                       lo: nat)
    requires |keys| == |cls| && Bucketed(cls, values, sorted)
    ensures AllFail(hash, keys, cls, values, sorted, lo, lo) && Searched(hash, keys, cls, values, sorted, lo, lo) == 0
    ensures LastCollide(hash, keys, cls, values, sorted, 0, lo)
    ensures NoMoreCollide(hash, keys, cls, values, sorted, 0, lo, lo)
  {
  }

  lemma OneMoreTried<Key>(hash: HashPairs<Key>, keys: seq<Key>, cls: seq<nat>, values: seq<seq<nat>>, sorted: seq<nat>,
                          lo: nat, hi: nat, run: nat)
    requires |keys| == |cls| && Bucketed(cls, values, sorted) && lo <= hi
    requires AllFail(hash, keys, cls, values, sorted, lo, hi) && SeedFails(hash, keys, cls, values, sorted, hi)
    requires LastCollide(hash, keys, cls, values, sorted, run, hi)
             && NoMoreCollide(hash, keys, cls, values, sorted, run, lo, hi)
    ensures AllFail(hash, keys, cls, values, sorted, lo, hi + 1)
    ensures var c := SeedCollides(hash, keys, cls, values, sorted, hi);
            && Searched(hash, keys, cls, values, sorted, lo, hi + 1)
               == Searched(hash, keys, cls, values, sorted, lo, hi) + (if c then 0 else 1)
            && LastCollide(hash, keys, cls, values, sorted, if c then run + 1 else 0, hi + 1)
            && NoMoreCollide(hash, keys, cls, values, sorted, if c then run + 1 else 0, lo, hi + 1)
  {
    hide SeedFails, SeedCollides;
  }

  lemma ValuesInRange(cls: seq<nat>, values: seq<seq<nat>>)
    requires forall c :: 0 <= c < |values| ==> values[c] == BucketKeys(cls, c, |cls|)
    ensures forall c, t :: 0 <= c < |values| && 0 <= t < |values[c]| ==> values[c][t] < |cls|
  {
    forall c, t | 0 <= c < |values| && 0 <= t < |values[c]|
      ensures values[c][t] < |cls|
    {
      BucketHasItsKeys(cls, c, t);
    }
  }

  lemma NothingPlaced(h2: seq<nat>, cls: seq<nat>, g: seq<nat>, random: seq<nat>, mapped: seq<nat>)
    requires Inverse(random, mapped) && |random| == |h2| == |cls| && forall i :: 0 <= i < |cls| ==> cls[i] < |g|
    ensures Placed(h2, cls, g, random, mapped, [])
  {
  }

  lemma StillInverse(h2: seq<nat>, cls: seq<nat>, g: seq<nat>, random: seq<nat>, mapped: seq<nat>)
    requires Placed(h2, cls, g, random, mapped, [])
    ensures Inverse(random, mapped) && |random| == |h2| == |cls| && forall i :: 0 <= i < |cls| ==> cls[i] < |g|
  {
  }

  // ---------- the function ----------

  /** `fch_data_t`; the seeds stand for the two hash states. */
  datatype Fch = Fch(seed1: nat, seed2: nat, m: nat, b: nat, p1: nat, p2: nat, g: seq<nat>)

  /** `fch_search` */
  function Search<Key>(f: Fch, hash: HashPairs<Key>, key: Key): (v: nat)
    requires f.m >= 1 && f.p2 >= 1 && 2 * f.p2 <= f.b && |f.g| == f.b
    ensures v < f.m
  {
    var h1, h2 := Mod(hash(f.seed1, key).h1, f.m), Mod(hash(f.seed2, key).h2, f.m);
    MixInRange(f.b, f.p1, f.p2, h1);
    Mod(h2 + f.g[Mix(f.b, f.p1, f.p2, h1)], f.m)
  }

  /** For any key: the remainder of the first hash value picks the bucket, and that of the second and the displacement
      of the bucket are added. */
  lemma SearchMeans<Key>(f: Fch, hash: HashPairs<Key>, key: Key)
    requires f.m >= 1 && f.p2 >= 1 && 2 * f.p2 <= f.b && |f.g| == f.b
    ensures var x := hash(f.seed1, key).h1 % f.m;
            var c := if x < f.p1 then x % f.p2 else if x % f.b < f.p2 then x % f.b + f.p2 else x % f.b;
            c < f.b && Search(f, hash, key) == (hash(f.seed2, key).h2 % f.m + f.g[c]) % f.m
  {
    hide Mix;
    var x := Mod(hash(f.seed1, key).h1, f.m);
    ModIsRemainder(hash(f.seed1, key).h1, f.m);
    ModIsRemainder(hash(f.seed2, key).h2, f.m);
    MixMeans(f.b, f.p1, f.p2, x);
    MixInRange(f.b, f.p1, f.p2, x);
    ModIsRemainder(hash(f.seed2, key).h2 % f.m + f.g[Mix(f.b, f.p1, f.p2, x)], f.m);
  }

  /** What a successful construction promises: the values of the keys are all the numbers below their number. */
  ghost predicate BuiltFor<Key>(f: Fch, hash: HashPairs<Key>, keys: seq<Key>) {
    && f.m == |keys| >= 1 && f.p2 >= 1 && 2 * f.p2 <= f.b && |f.g| == f.b
    && MinimalPerfect(KeyValues(f, hash, keys))
  }

  function KeyValues<Key>(f: Fch, hash: HashPairs<Key>, keys: seq<Key>): (values: seq<nat>)
    requires f.m >= 1 && f.p2 >= 1 && 2 * f.p2 <= f.b && |f.g| == f.b
    ensures |values| == |keys|
  {
    seq<nat>(|keys|, i requires 0 <= i < |keys| => Search(f, hash, keys[i]))
  }

  lemma SlotsAreMinimalPerfect<Key>(f: Fch, hash: HashPairs<Key>, keys: seq<Key>)
    requires f.m == |keys| >= 1 && f.p2 >= 1 && 2 * f.p2 <= f.b && |f.g| == f.b
    requires SlotsApart(SlotSeeds(hash, f.seed2, keys), BucketNumbers(hash, f.seed1, keys, f.b, f.p1, f.p2), f.g)
    ensures BuiltFor(f, hash, keys)
  {
    var h2, cls := SlotSeeds(hash, f.seed2, keys), BucketNumbers(hash, f.seed1, keys, f.b, f.p1, f.p2);
    var values := KeyValues(f, hash, keys);
    forall i | 0 <= i < |keys|
      ensures values[i] == SlotOf(h2, cls, f.g, i)
    {
      assert values[i] == Search(f, hash, keys[i]);
    }
    hide SlotOf, SlotSeeds, BucketNumbers, KeyValues;
    forall i, j | 0 <= i < j < |values|
      ensures values[i] != values[j]
    {
      assert SlotOf(h2, cls, f.g, i) != SlotOf(h2, cls, f.g, j);
    }
    DistinctBelow(values, |values|);
  }

  /** The loop of `mapping` */
  method MapKeys<Key>(hash: HashPairs<Key>, seed1: nat, keys: seq<Key>, b: nat, p1: nat, p2: nat)
    returns (buckets: Buckets)
    requires |keys| >= 1 && p2 >= 1 && 2 * p2 <= b
    ensures buckets.nbuckets == b && buckets.Holds(BucketNumbers(hash, seed1, keys, b, p1, p2), |keys|)
  {
    ghost var cls := BucketNumbers(hash, seed1, keys, b, p1, p2);
    buckets := new Buckets(b, cls);
    for i := 0 to |keys|
      invariant buckets.nbuckets == b && buckets.Holds(cls, i) && fresh(buckets) && fresh(buckets.values)
    {
      var h1 := Mix(b, p1, p2, Mod(hash(seed1, keys[i]).h1, |keys|));
      assert h1 == cls[i];
      buckets.Insert(h1, i, cls);
    }
  }

  /** The buckets that the keys fall into */
  function BucketsOf(cls: seq<nat>, b: nat): (values: seq<seq<nat>>)
    ensures |values| == b
  {
    seq<seq<nat>>(b, c requires 0 <= c => BucketKeys(cls, c, |cls|))
  }

  /** The round that starts with this seed for the buckets comes to this end, for some random choices. */
  ghost predicate RoundEnds<Key>(hash: HashPairs<Key>, keys: seq<Key>, b: nat, p1: nat, p2: nat, seed: nat, r: StepEnd)
    requires |keys| >= 1 && p2 >= 1 && 2 * p2 <= b
  {
    exists sorted, t :: RoundEndsWith(hash, keys, b, p1, p2, seed, sorted, t, r)
  }

  ghost predicate RoundEndsWith<Key>(hash: HashPairs<Key>, keys: seq<Key>, b: nat, p1: nat, p2: nat, seed: nat,
                                     sorted: seq<nat>, t: Tables, r: StepEnd)
    requires |keys| >= 1 && p2 >= 1 && 2 * p2 <= b
  {
    var cls := BucketNumbers(hash, seed, keys, b, p1, p2);
    && Bucketed(cls, BucketsOf(cls, b), sorted)
    && StepGives(hash, keys, cls, BucketsOf(cls, b), sorted, seed + 1, 0, 0, t, r)
    && (r.NoSlots? ==> GivesUp(hash, keys, cls, BucketsOf(cls, b), sorted, seed + 1, r.seed + 1))
  }

  /** With this seed for the buckets, the searching step gives up; the next round starts with seed `next`. */
  ghost predicate RoundFails<Key>(hash: HashPairs<Key>, keys: seq<Key>, b: nat, p1: nat, p2: nat, seed: nat, next: nat)
    requires |keys| >= 1 && p2 >= 1 && 2 * p2 <= b
  {
    next >= 1 && RoundEnds(hash, keys, b, p1, p2, seed, NoSlots(next - 1))
  }

  /** Rounds that start with these seeds: all but the last have failed. */
  ghost predicate Rounds<Key>(hash: HashPairs<Key>, keys: seq<Key>, b: nat, p1: nat, p2: nat, starts: seq<nat>)
    requires |keys| >= 1 && p2 >= 1 && 2 * p2 <= b
  {
    && |starts| >= 1 && starts[0] == 0
    && forall i :: 0 <= i < |starts| - 1 ==> RoundFails(hash, keys, b, p1, p2, starts[i], starts[i + 1])
  }

  /** So many rounds, all but the last of which have failed, lead to this seed. */
  ghost predicate Reached<Key>(hash: HashPairs<Key>, keys: seq<Key>, b: nat, p1: nat, p2: nat, rounds: nat, seed: nat)
    requires |keys| >= 1 && p2 >= 1 && 2 * p2 <= b
  {
    exists starts :: Rounds(hash, keys, b, p1, p2, starts) && |starts| == rounds && starts[rounds - 1] == seed
  }

  lemma FirstRound<Key>(hash: HashPairs<Key>, keys: seq<Key>, b: nat, p1: nat, p2: nat)
    requires |keys| >= 1 && p2 >= 1 && 2 * p2 <= b
    ensures Reached(hash, keys, b, p1, p2, 1, 0)
  {
    var starts := [0];
    assert Rounds(hash, keys, b, p1, p2, starts) && |starts| == 1 && starts[0] == 0;
  }

  lemma OneMoreRound<Key>(hash: HashPairs<Key>, keys: seq<Key>, b: nat, p1: nat, p2: nat, rounds: nat, seed: nat,
                          next: nat)
    requires |keys| >= 1 && p2 >= 1 && 2 * p2 <= b && Reached(hash, keys, b, p1, p2, rounds, seed)
    requires RoundFails(hash, keys, b, p1, p2, seed, next)
    ensures Reached(hash, keys, b, p1, p2, rounds + 1, next)
  {
    hide RoundFails;
    var starts :| Rounds(hash, keys, b, p1, p2, starts) && |starts| == rounds && starts[rounds - 1] == seed;
    var more := starts + [next];
    forall i | 0 <= i < |more| - 1
      ensures RoundFails(hash, keys, b, p1, p2, more[i], more[i + 1])
    {
      assert i < |starts| - 1 ==> RoundFails(hash, keys, b, p1, p2, starts[i], starts[i + 1]);
    }
    assert Rounds(hash, keys, b, p1, p2, more) && |more| == rounds + 1 && more[rounds] == next;
  }

  lemma RoundHasEnded<Key>(hash: HashPairs<Key>, keys: seq<Key>, b: nat, p1: nat, p2: nat, seed: nat,
                           values: seq<seq<nat>>, sorted: seq<nat>, t: Tables, r: StepEnd)
    requires |keys| >= 1 && p2 >= 1 && 2 * p2 <= b
    requires var cls := BucketNumbers(hash, seed, keys, b, p1, p2);
             && values == BucketsOf(cls, b) && Bucketed(cls, values, sorted)
             && StepGives(hash, keys, cls, values, sorted, seed + 1, 0, 0, t, r)
             && (r.NoSlots? ==> GivesUp(hash, keys, cls, values, sorted, seed + 1, r.seed + 1))
    ensures RoundEnds(hash, keys, b, p1, p2, seed, r)
  {
    hide BucketNumbers, BucketsOf, Bucketed, StepGives, GivesUp;
    assert RoundEndsWith(hash, keys, b, p1, p2, seed, sorted, t, r);
  }

  lemma MappedBuckets(cls: seq<nat>, values: seq<seq<nat>>, sorted: seq<nat>)
    requires |cls| >= 1 && SortedBySize(sorted, BucketSizes(values)) && forall i :: 0 <= i < |cls| ==> cls[i] < |values|
    requires forall c :: 0 <= c < |values| ==> values[c] == BucketKeys(cls, c, |cls|)
    ensures Bucketed(cls, values, sorted) && values == BucketsOf(cls, |values|)
  {
  }

  /** `fch_new`. The numbers of buckets come from floating-point expressions, and are given. Without a function, the
      first 99 of a hundred rounds have failed: what the last one finds is refused. */
  method New<Key>(hash: HashPairs<Key>, keys: seq<Key>, b: nat, p1: nat, p2: nat) returns (f: Option<Fch>)
    requires |keys| >= 1 && 2 * |keys| <= WORD_LIMIT && p2 >= 1 && 2 * p2 <= b
    ensures f.Some? ==> BuiltFor(f.value, hash, keys)
    ensures f.Some? ==> exists rounds :: 1 <= rounds <= 99 && Reached(hash, keys, b, p1, p2, rounds, f.value.seed1)
    ensures f.Some? ==> RoundEnds(hash, keys, b, p1, p2, f.value.seed1, SlotsAt(f.value.seed2))
    ensures f.None? ==> exists seed :: Reached(hash, keys, b, p1, p2, 100, seed)
  {
    hide BucketNumbers, SlotsApart, Reached, GivesUp, AllFail, Bucketed, SortedBySize, RoundEnds, StepGives, BuiltFor;
    var iterations, seed := 100, 0;
    FirstRound(hash, keys, b, p1, p2);
    while true
      invariant 1 <= iterations <= 100 && Reached(hash, keys, b, p1, p2, 101 - iterations, seed)
      decreases iterations
    {
      ghost var cls := BucketNumbers(hash, seed, keys, b, p1, p2);
      var buckets := MapKeys(hash, seed, keys, b, p1, p2);
      var sortedIndexes := buckets.GetIndexesSortedBySize();
      MappedBuckets(cls, buckets.values[..], sortedIndexes[..]);
      var restartMapping, seed2, g; ghost var t;
      restartMapping, seed2, g, t := SearchingStep(hash, seed + 1, keys, buckets.values[..], sortedIndexes[..], cls);
      RoundHasEnded(hash, keys, b, p1, p2, seed, buckets.values[..], sortedIndexes[..], t,
                    if restartMapping then NoSlots(seed2) else SlotsAt(seed2));
      iterations := iterations - 1;
      if iterations == 0 {
        return None;
      }
      if restartMapping {
        OneMoreRound(hash, keys, b, p1, p2, 100 - iterations, seed, seed2 + 1);
      } else {
        f := Some(Fch(seed, seed2, |keys|, b, p1, p2, g[..]));
        SlotsAreMinimalPerfect(f.value, hash, keys);
        return;
      }
      seed := seed2 + 1;
    }
  }
}
