/**
 The perfect hash function underneath CHD (chd_ph.c): mapping, ordering and searching
 are repeated until every bucket is placed; the displacements are then compressed.
 */
module ChdPh {
  import opened Words
  import opened BitTable
  import opened Counting
  import opened CountingSort
  import opened ChdPhMapping
  import opened ChdPhOrdering
  import opened ChdPhSearching
  import opened ChdPhGreedy
  import opened PerfectHashing
  import opened Hashing
  import CompressedSeq

  // ---------- the bins of the keys ----------

  /** The bin of a key: what `chd_ph_search` computes from the displacements. */
  function KeyBin(hl: HashVector, n: nat, disp: seq<nat>): (k: nat)
    requires n >= 2 && |disp| >= 1
    ensures k < n
  {
    var mi := MapKey(hl, n, |disp|);
    BinAt(mi.item, disp[mi.bucketNum], n)
  }

  /** The formula in full: the first hash value picks the displacement, and the other two and its parts the bin. */
  lemma KeyBinMeans(hl: HashVector, n: nat, disp: seq<nat>)
    requires n >= 2 && |disp| >= 1
    ensures var d := disp[hl.h0 % |disp|];
            KeyBin(hl, n, disp) == (hl.h1 % n + (hl.h2 % (n - 1) + 1) * (d % n) + d / n) % n
  {
    var mi := MapKey(hl, n, |disp|);
    var d := disp[mi.bucketNum];
    MapKeyMeans(hl, n, |disp|);
    ModIsRemainder(d, n);
    BinFormula(mi.item, Probe0(d, n), Probe1(d, n), n);
    hide MapKey, Bin;
  }

  function KeyBins<Key>(hash: HashFamily<Key>, seed: nat, keys: seq<Key>, n: nat, disp: seq<nat>): (bins: seq<nat>)
    requires n >= 2 && |disp| >= 1
    ensures |bins| == |keys|
  {
    seq<nat>(|keys|, i requires 0 <= i < |keys| => KeyBin(hash(seed, keys[i]), n, disp))
  }

  lemma KeyBinsOfMapped<Key>(hash: HashFamily<Key>, seed: nat, keys: seq<Key>, n: nat, disp: seq<nat>)
    requires n >= 2 && |disp| >= 1
    ensures var mapped := MapKeys(hash, seed, keys, n, |disp|);
            forall i :: 0 <= i < |mapped| ==>
              KeyBins(hash, seed, keys, n, disp)[i] == BinAt(mapped[i].item, disp[mapped[i].bucketNum], n)
  {
    var mapped := MapKeys(hash, seed, keys, n, |disp|);
    forall i | 0 <= i < |mapped|
      ensures KeyBins(hash, seed, keys, n, disp)[i] == BinAt(mapped[i].item, disp[mapped[i].bucketNum], n)
    {
      assert mapped[i] == MapKey(hash(seed, keys[i]), n, |disp|);
      assert KeyBins(hash, seed, keys, n, disp)[i] == KeyBin(hash(seed, keys[i]), n, disp);
    }
  }

  // ---------- from the mapping to the ordering ----------

  lemma {:induction false} SizesSum(mapped: seq<MapItem>, nbuckets: nat, hi: nat, k: nat)
    requires k <= nbuckets
    ensures SumRange(Sizes(Groups(mapped, nbuckets)), 1, hi, k) <= Start(Classes(mapped), 0, k)
  {
    if k != 0 {
      SizesSum(mapped, nbuckets, hi, k - 1);
      StartNext(Items(mapped), Classes(mapped), 0, k - 1);
    }
  }

  lemma MappingFeedsOrdering(buckets: seq<Bucket>, items: seq<Item>, mapped: seq<MapItem>)
    requires Inserted(buckets, items, mapped, |mapped|)
    ensures BucketsHold(buckets, items, Groups(mapped, |buckets|))
  {
    var groups := Groups(mapped, |buckets|);
    forall g | 0 <= g < |groups|
      ensures buckets[g].tag == |groups[g]| && BlockHolds(buckets[g], items, groups[g])
    {
      assert BucketInserted(buckets[g], mapped, g, |mapped|);
      assert ClassFilled(items, Items(mapped), Classes(mapped), 0, g, |mapped|);
    }
  }

  // ---------- from the placement to the keys ----------

  /** Item `t` of bucket `g` is where key `i` went. */
  lemma KeyIsPlaced(mapped: seq<MapItem>, nbuckets: nat, disp: seq<nat>, n: nat, b: seq<bool>, pl: Placement, i: nat)
    requires n >= 1 && i < |mapped| && mapped[i].bucketNum < nbuckets
    requires Placed(b, Groups(mapped, nbuckets), disp, n, pl) && AllPlaced(Groups(mapped, nbuckets), pl)
    ensures var g := mapped[i].bucketNum;
            var k := BinAt(mapped[i].item, disp[g], n);
            k in pl.own && pl.own[k] == (g, |Group(mapped, g, i)|)
  {
    var g, groups := mapped[i].bucketNum, Groups(mapped, nbuckets);
    PickedAt(Items(mapped), Classes(mapped), i, |mapped|);
    assert GroupPlaced(groups, disp, n, pl.own, g);
    assert ItemPlaced(groups[g][|Group(mapped, g, i)|], disp[g], n, pl.own, (g, |Group(mapped, g, i)|));
  }

  lemma PlacementIsPerfect(mapped: seq<MapItem>, bins: seq<nat>, disp: seq<nat>, n: nat, b: seq<bool>, pl: Placement)
    requires 1 <= n <= |b| && |bins| == |mapped|
    requires forall i :: 0 <= i < |mapped| ==> mapped[i].bucketNum < |disp|
    requires forall i :: 0 <= i < |mapped| ==> bins[i] == BinAt(mapped[i].item, disp[mapped[i].bucketNum], n)
    requires Placed(b, Groups(mapped, |disp|), disp, n, pl) && AllPlaced(Groups(mapped, |disp|), pl)
    ensures PerfectlyHashed(b, bins)
  {
    var groups := Groups(mapped, |disp|);
    forall i | 0 <= i < |bins|
      ensures bins[i] < |b| && b[bins[i]]
    {
      KeyIsPlaced(mapped, |disp|, disp, n, b, pl, i);
    }
    forall i, j | 0 <= i < j < |bins|
      ensures bins[i] != bins[j]
    {
      KeyIsPlaced(mapped, |disp|, disp, n, b, pl, i);
      KeyIsPlaced(mapped, |disp|, disp, n, b, pl, j);
      if mapped[i].bucketNum == mapped[j].bucketNum {
        PickedAt(Items(mapped), Classes(mapped), i, j);
      }
    }
    forall k | 0 <= k < |b| && b[k]
      ensures k in bins
    {
      var (g, t) := pl.own[k];
      assert OwnerOk(groups, disp, n, pl.placed, k, pl.own[k]);
      var i := PickedSource(Items(mapped), Classes(mapped), g, |mapped|, t);
      assert bins[i] == k;
    }
  }

  // ---------- the displacements can be compressed ----------

  /** The source draws at most this many probes: `(log2(m) / 20) * (1 << 20)` for `m` below 2^32. */
  const PROBE_LIMIT: nat := 0x1F_FFFE

  lemma {:induction false} TotalLengthSmall(vals: seq<nat>, k: nat)
    requires k <= |vals| && AtMost(vals, PROBE_LIMIT)
    ensures CompressedSeq.TotalLength(vals, k) <= 20 * k
  {
    if k != 0 {
      TotalLengthSmall(vals, k - 1);
      CodeLengthSmall(vals[k - 1]);
    }
  }

  lemma CodeLengthSmall(v: nat)
    requires v <= PROBE_LIMIT
    ensures CompressedSeq.CodeLength(v) <= 20
  {
    assert Pow2(10) == 1024;
    Pow2Add(10, 10);
    assert Pow2(21) == PROBE_LIMIT + 2;
    if CompressedSeq.CodeLength(v) >= 21 {
      Pow2Monotone(21, CompressedSeq.CodeLength(v));
    }
  }

  lemma DisplacementsFit(disp: seq<nat>)
    requires |disp| >= 1 && AtMost(disp, PROBE_LIMIT) && 21 * |disp| + 31 < WORD_LIMIT
    ensures CompressedSeq.SizesFit(disp)
  {
    TotalLengthSmall(disp, |disp|);
  }

  // ---------- construction ----------

  /** `chd_ph_data_t`: the seed stands for the hash state */
  class ChdPhFunction {
    var seed: nat
    var n: Uint32
    var nbuckets: Uint32
    var cs: CompressedSeq.CompressedSeqStructure

    ghost predicate Holds(disp: seq<nat>)
      reads this, cs, cs.sel, cs.sel.bitsVec, cs.sel.selectTable, cs.lengthRems, cs.storeTable
    {
      n >= 2 && nbuckets == |disp| >= 1 && cs.Holds(disp)
    }

    constructor (seed: nat, n: Uint32, disp: seq<nat>)
      requires n >= 2 && CompressedSeq.SizesFit(disp)
      ensures Holds(disp) && this.seed == seed && this.n == n
    {
      this.seed, this.n, this.nbuckets := seed, n, |disp|;
      cs := new CompressedSeq.CompressedSeqStructure.Generate(disp);
    }

    /** `chd_ph_search` */
    method Search(hl: HashVector, ghost disp: seq<nat>) returns (position: nat)
      requires Holds(disp)
      ensures position == KeyBin(hl, n, disp)
    {
      var mi := MapKey(hl, n, nbuckets);
      var d := cs.Query(mi.bucketNum, disp);
      var probe0, probe1 := Probe0(d, n), Probe1(d, n);
      position := Bin(mi.item, probe0, probe1, n);
    }

    /** `chd_ph_pack`, without the words of the hash state */
    function Packed(ghost disp: seq<nat>): (mem: seq<Word>)
      requires Holds(disp)
      reads this, cs, cs.sel, cs.sel.bitsVec, cs.sel.selectTable, cs.lengthRems, cs.storeTable
    {
      [ToWord(n), ToWord(nbuckets)] + cs.Packed(disp)
    }

    lemma PackedIsFound(disp: seq<nat>)
      requires Holds(disp)
      ensures PackedHashes(Packed(disp), n, disp)
      ensures FromWord(Packed(disp)[0]) == n && FromWord(Packed(disp)[1]) == |disp|
      ensures Packed(disp)[2..] == cs.Packed(disp)
    {
      cs.PackedIsFound(disp, []);
      assert cs.Packed(disp) + [] == cs.Packed(disp);
      assert Packed(disp)[2..] == cs.Packed(disp);
      WordRoundTrip(n);
      WordRoundTrip(nbuckets);
    }
  }

  ghost predicate PackedHashes(mem: seq<Word>, n: nat, disp: seq<nat>) {
    && |mem| >= 2 && n >= 2 && |disp| >= 1
    && FromWord(mem[0]) == n && FromWord(mem[1]) == |disp|
    && CompressedSeq.PackedStores(mem[2..], disp)
  }

  /** `chd_ph_search_packed` */
  method SearchPacked(mem: seq<Word>, hl: HashVector, ghost n0: nat, ghost disp: seq<nat>) returns (position: nat)
    requires PackedHashes(mem, n0, disp)
    ensures position == KeyBin(hl, n0, disp)
  {
    var n, nbuckets := FromWord(mem[0]), FromWord(mem[1]);
    var mi := MapKey(hl, n, nbuckets);
    var d := CompressedSeq.QueryPacked(mem[2..], mi.bucketNum, disp);
    var probe0, probe1 := Probe0(d, n), Probe1(d, n);
    position := Bin(mi.item, probe0, probe1, n);
  }

  method ClearTable(t: array<Word>)
    modifies t
    ensures Bits(t[..]) == Zeros(32 * t.Length)
  {
    for i := 0 to t.Length
      invariant forall j :: 0 <= j < i ==> t[j] == Zeros(32)
    {
      t[i] := Zeros(32);
    }
  }

  // ---------- when construction fails ----------

  /** The search over the buckets of these keys, from the largest down, spends its probes before all are placed. */
  ghost predicate SearchFails(mapped: seq<MapItem>, nbuckets: nat, n: nat, maxProbes: nat)
    requires n >= 1
  {
    GreedySearch(Zeros(32 * WordsFor(n)), Groups(mapped, nbuckets), n, maxProbes, |mapped|).None?
  }

  /** The size at which the search starts does not matter. */
  lemma WhereSearchStarts(mapped: seq<MapItem>, nbuckets: nat, n: nat, maxProbes: nat, s: nat)
    requires n >= 1 && forall g :: 0 <= g < nbuckets ==> |Groups(mapped, nbuckets)[g]| <= s
    ensures SearchFails(mapped, nbuckets, n, maxProbes)
            <==> GreedySearch(Zeros(32 * WordsFor(n)), Groups(mapped, nbuckets), n, maxProbes, s).None?
  {
    hide GreedySearch, Zeros;
    var groups, b := Groups(mapped, nbuckets), Zeros(32 * WordsFor(n));
    if s <= |mapped| {
      SearchFromLargest(b, groups, n, maxProbes, s, |mapped|);
    } else {
      assert forall g :: 0 <= g < nbuckets ==> |groups[g]| <= |mapped|;
      SearchFromLargest(b, groups, n, maxProbes, |mapped|, s);
    }
  }

  /** It fails if and only if a bucket is left when the probes that count, one fewer than the limit and than `n * n`,
      have been tried on its size; and such a bucket fits under none of them. */
  lemma SearchFailsMeans(mapped: seq<MapItem>, nbuckets: nat, n: nat, maxProbes: nat)
    requires n >= 1
    ensures var b, groups, k := Zeros(32 * WordsFor(n)), Groups(mapped, nbuckets), UsefulProbes(maxProbes, n);
            && (SearchFails(mapped, nbuckets, n, maxProbes)
                <==> exists z, g :: LeftAtSize(b, groups, n, k, |mapped|, z, g))
            && (forall z: nat, g: nat :: LeftAtSize(b, groups, n, k, |mapped|, z, g) ==>
                  && z >= 1 && g < nbuckets && |groups[g]| == z
                  && Misfits(AfterSizes(b, groups, n, k, |mapped|, z - 1), groups, n, [g], k))
  {
    hide GreedySearch, AfterSizes, AfterProbes, IdsOfSize, UsefulProbes, Misfits, Zeros;
    var b, groups, k := Zeros(32 * WordsFor(n)), Groups(mapped, nbuckets), UsefulProbes(maxProbes, n);
    GreedyMeans(b, groups, n, maxProbes, |mapped|);
    forall z: nat, g: nat | LeftAtSize(b, groups, n, k, |mapped|, z, g)
      ensures z >= 1 && g < nbuckets && |groups[g]| == z
      ensures Misfits(AfterSizes(b, groups, n, k, |mapped|, z - 1), groups, n, [g], k)
    {
      LeftAtSizeMisfits(b, groups, n, k, |mapped|, z, g);
    }
  }

  /** No seed from `lo` to below `hi` keeps the keys apart in their buckets. */
  ghost predicate AllClash<Key>(hash: HashFamily<Key>, keys: seq<Key>, n: nat, nbuckets: nat, lo: nat, hi: nat)
    requires n >= 2 && nbuckets >= 1
  {
    forall sd :: lo <= sd < hi ==> !Distinct(MapKeys(hash, sd, keys, n, nbuckets))
  }

  /** The mapping takes the first seed from `start` on that keeps the keys apart. */
  ghost predicate Maps<Key>(hash: HashFamily<Key>, keys: seq<Key>, n: nat, nbuckets: nat, start: nat, seed: nat)
    requires n >= 2 && nbuckets >= 1
  {
    && start <= seed < start + 1000 && AllClash(hash, keys, n, nbuckets, start, seed)
    && Distinct(MapKeys(hash, seed, keys, n, nbuckets))
  }

  /** Rounds that start with these seeds: all but the last map the keys, and fail to place them. */
  ghost predicate Rounds<Key>(hash: HashFamily<Key>, keys: seq<Key>, n: nat, nbuckets: nat, maxProbes: nat,
                                    starts: seq<nat>)
    requires n >= 2 && nbuckets >= 1
  {
    && |starts| >= 1 && starts[0] == 0
    && forall i :: 0 <= i < |starts| - 1 ==> RoundFails(hash, keys, n, nbuckets, maxProbes, starts, i)
  }

  ghost predicate RoundFails<Key>(hash: HashFamily<Key>, keys: seq<Key>, n: nat, nbuckets: nat, maxProbes: nat,
                                        starts: seq<nat>, i: nat)
    requires n >= 2 && nbuckets >= 1 && i < |starts| - 1
  {
    && starts[i + 1] >= 1 && Maps(hash, keys, n, nbuckets, starts[i], starts[i + 1] - 1)
    && SearchFails(MapKeys(hash, starts[i + 1] - 1, keys, n, nbuckets), nbuckets, n, maxProbes)
  }

  /** Why there is no function: a hundred rounds have failed, or in some round a thousand seeds have clashed. */
  ghost predicate Fails<Key>(hash: HashFamily<Key>, keys: seq<Key>, n: nat, nbuckets: nat, maxProbes: nat)
    requires n >= 2 && nbuckets >= 1
  {
    exists starts :: Rounds(hash, keys, n, nbuckets, maxProbes, starts) && LastFails(hash, keys, n, nbuckets, starts)
  }

  ghost predicate LastFails<Key>(hash: HashFamily<Key>, keys: seq<Key>, n: nat, nbuckets: nat, starts: seq<nat>)
    requires n >= 2 && nbuckets >= 1
  {
    && 1 <= |starts| <= 101
    && (|starts| <= 100 ==> AllClash(hash, keys, n, nbuckets, starts[|starts| - 1], starts[|starts| - 1] + 1000))
  }

  lemma OneMoreRound<Key>(hash: HashFamily<Key>, keys: seq<Key>, n: nat, nbuckets: nat, maxProbes: nat,
                                starts: seq<nat>, seed: nat)
    requires n >= 2 && nbuckets >= 1 && Rounds(hash, keys, n, nbuckets, maxProbes, starts)
    requires Maps(hash, keys, n, nbuckets, starts[|starts| - 1], seed)
    requires SearchFails(MapKeys(hash, seed, keys, n, nbuckets), nbuckets, n, maxProbes)
    ensures Rounds(hash, keys, n, nbuckets, maxProbes, starts + [seed + 1])
  {
    hide Maps, SearchFails, MapKeys;
    var more := starts + [seed + 1];
    forall i | 0 <= i < |more| - 1
      ensures RoundFails(hash, keys, n, nbuckets, maxProbes, more, i)
    {
      if i < |starts| - 1 {
        assert RoundFails(hash, keys, n, nbuckets, maxProbes, starts, i);
      }
    }
  }

  /** One round leads to the next in one way only. */
  lemma {:induction false} RoundsAgree<Key>(hash: HashFamily<Key>, keys: seq<Key>, n: nat, nbuckets: nat,
                                            maxProbes: nat, starts: seq<nat>, others: seq<nat>, k: nat)
    requires n >= 2 && nbuckets >= 1 && k < |starts| && k < |others|
    requires Rounds(hash, keys, n, nbuckets, maxProbes, starts) && Rounds(hash, keys, n, nbuckets, maxProbes, others)
    ensures starts[k] == others[k]
  {
    hide MapKeys, Distinct, SearchFails;
    if k > 0 {
      RoundsAgree(hash, keys, n, nbuckets, maxProbes, starts, others, k - 1);
      assert RoundFails(hash, keys, n, nbuckets, maxProbes, starts, k - 1);
      assert RoundFails(hash, keys, n, nbuckets, maxProbes, others, k - 1);
      MapsOnce(hash, keys, n, nbuckets, starts[k - 1], starts[k] - 1, others[k] - 1);
    }
  }

  lemma MapsOnce<Key>(hash: HashFamily<Key>, keys: seq<Key>, n: nat, nbuckets: nat, start: nat, seed: nat, other: nat)
    requires n >= 2 && nbuckets >= 1
    requires Maps(hash, keys, n, nbuckets, start, seed) && Maps(hash, keys, n, nbuckets, start, other)
    ensures seed == other
  {
    hide MapKeys, Distinct;
  }

  /** A round that places the keys, among the first hundred, rules out failure. */
  lemma SucceedsInstead<Key>(hash: HashFamily<Key>, keys: seq<Key>, n: nat, nbuckets: nat, maxProbes: nat,
                             starts: seq<nat>, seed: nat)
    requires n >= 2 && nbuckets >= 1 && Rounds(hash, keys, n, nbuckets, maxProbes, starts) && |starts| <= 100
    requires Maps(hash, keys, n, nbuckets, starts[|starts| - 1], seed)
    requires !SearchFails(MapKeys(hash, seed, keys, n, nbuckets), nbuckets, n, maxProbes)
    ensures !Fails(hash, keys, n, nbuckets, maxProbes)
  {
    hide MapKeys, Distinct, SearchFails;
    if Fails(hash, keys, n, nbuckets, maxProbes) {
      var others :| Rounds(hash, keys, n, nbuckets, maxProbes, others) && LastFails(hash, keys, n, nbuckets, others);
      var k := (if |starts| < |others| then |starts| else |others|) - 1;
      RoundsAgree(hash, keys, n, nbuckets, maxProbes, starts, others, k);
      assert k < |starts| - 1 ==> RoundFails(hash, keys, n, nbuckets, maxProbes, starts, k);
      if k < |others| - 1 {
        assert RoundFails(hash, keys, n, nbuckets, maxProbes, others, k);
        MapsOnce(hash, keys, n, nbuckets, others[k], seed, others[k + 1] - 1);
      }
    }
  }

  /** A round among the first hundred places the keys. */
  ghost predicate Places<Key>(hash: HashFamily<Key>, keys: seq<Key>, n: nat, nbuckets: nat, maxProbes: nat,
                              starts: seq<nat>, seed: nat)
    requires n >= 2 && nbuckets >= 1
  {
    && Rounds(hash, keys, n, nbuckets, maxProbes, starts) && |starts| <= 100
    && Maps(hash, keys, n, nbuckets, starts[|starts| - 1], seed)
    && !SearchFails(MapKeys(hash, seed, keys, n, nbuckets), nbuckets, n, maxProbes)
  }

  /** Construction fails unless one of the first hundred rounds places the keys. */
  lemma FailsOrPlaces<Key>(hash: HashFamily<Key>, keys: seq<Key>, n: nat, nbuckets: nat, maxProbes: nat)
    requires n >= 2 && nbuckets >= 1
    ensures Fails(hash, keys, n, nbuckets, maxProbes)
            <==> !exists starts, seed :: && 1 <= |starts| <= 100
                                         && Places(hash, keys, n, nbuckets, maxProbes, starts, seed)
  {
    hide Maps, SearchFails, MapKeys, AllClash, Fails, Rounds;
    if starts, seed :| 1 <= |starts| <= 100 && Places(hash, keys, n, nbuckets, maxProbes, starts, seed) {
      SucceedsInstead(hash, keys, n, nbuckets, maxProbes, starts, seed);
    } else {
      FirstRound(hash, keys, n, nbuckets, maxProbes);
      RoundsEnd(hash, keys, n, nbuckets, maxProbes, [0]);
    }
  }

  lemma FirstRound<Key>(hash: HashFamily<Key>, keys: seq<Key>, n: nat, nbuckets: nat, maxProbes: nat)
    requires n >= 2 && nbuckets >= 1
    ensures Rounds(hash, keys, n, nbuckets, maxProbes, [0])
  {
  }

  lemma {:induction false} RoundsEnd<Key>(hash: HashFamily<Key>, keys: seq<Key>, n: nat, nbuckets: nat,
                                          maxProbes: nat, starts: seq<nat>)
    requires n >= 2 && nbuckets >= 1 && Rounds(hash, keys, n, nbuckets, maxProbes, starts) && 1 <= |starts| <= 101
    ensures || Fails(hash, keys, n, nbuckets, maxProbes)
            || exists starts, seed :: && 1 <= |starts| <= 100
                                      && Places(hash, keys, n, nbuckets, maxProbes, starts, seed)
    decreases 101 - |starts|
  {
    hide Maps, SearchFails, MapKeys, Rounds, Distinct;
    var start := starts[|starts| - 1];
    if |starts| == 101 || AllClash(hash, keys, n, nbuckets, start, start + 1000) {
      assert LastFails(hash, keys, n, nbuckets, starts);
    } else {
      var seed := FirstMapped(hash, keys, n, nbuckets, start, 0);
      if SearchFails(MapKeys(hash, seed, keys, n, nbuckets), nbuckets, n, maxProbes) {
        OneMoreRound(hash, keys, n, nbuckets, maxProbes, starts, seed);
        RoundsEnd(hash, keys, n, nbuckets, maxProbes, starts + [seed + 1]);
      } else {
        assert Places(hash, keys, n, nbuckets, maxProbes, starts, seed);
      }
    }
  }

  /** Unless all clash, one of the seeds is the first that does not. */
  lemma {:induction false} FirstMapped<Key>(hash: HashFamily<Key>, keys: seq<Key>, n: nat, nbuckets: nat, start: nat,
                                            k: nat) returns (seed: nat)
    requires n >= 2 && nbuckets >= 1 && k <= 1000 && AllClash(hash, keys, n, nbuckets, start, start + k)
    requires !AllClash(hash, keys, n, nbuckets, start, start + 1000)
    ensures Maps(hash, keys, n, nbuckets, start, seed)
    decreases 1000 - k
  {
    hide MapKeys, Distinct;
    if k == 1000 {
      assert false;
    } else if Distinct(MapKeys(hash, start + k, keys, n, nbuckets)) {
      return start + k;
    } else {
      seed := FirstMapped(hash, keys, n, nbuckets, start, k + 1);
    }
  }

  /** One round of mapping, ordering and searching. */
  method TryOnce<Key>(hash: HashFamily<Key>, keys: seq<Key>, n: nat, maxProbes: nat, firstSeed: nat,
                      buckets: array<Bucket>, items: array<Item>, occup: array<Word>, disp: array<nat>)
    returns (mapped: bool, placed: bool, seed: nat, buckets': array<Bucket>, items': array<Item>)
    requires n >= 2 && occup.Length == WordsFor(n) && |keys| >= 1
    requires buckets.Length == disp.Length >= 1 && items.Length == |keys|
    requires Bits(occup[..]) == Zeros(32 * occup.Length) && AtMost(disp[..], maxProbes)
    modifies buckets, items, occup, disp
    ensures buckets'.Length == disp.Length && items'.Length == |keys| && AtMost(disp[..], maxProbes)
    ensures buckets' == buckets || fresh(buckets')
    ensures items' == items || fresh(items')
    ensures mapped && placed ==> PerfectlyHashed(Bits(occup[..]), KeyBins(hash, seed, keys, n, disp[..]))
    ensures if mapped then Maps(hash, keys, n, disp.Length, firstSeed, seed)
            else AllClash(hash, keys, n, disp.Length, firstSeed, firstSeed + 1000)
    ensures mapped ==>
              (placed <==> !SearchFails(MapKeys(hash, seed, keys, n, disp.Length), disp.Length, n, maxProbes))
    ensures maxProbes <= 1 ==> !(mapped && placed)
  {
    var maxBucketSize;
    mapped, seed, maxBucketSize := Mapping(hash, keys, n, buckets, items, firstSeed);
    if !mapped {
      return false, false, seed, buckets, items;
    }
    hide SearchFails, Placed, AllPlaced, PerfectlyHashed, Inserted, Bits, Zeros;
    ghost var mis := MapKeys(hash, seed, keys, n, buckets.Length);
    ghost var pl;
    placed, buckets', items', pl := OrderAndSearch(buckets[..], items[..], n, maxProbes, maxBucketSize, occup, disp,
                                                   mis);
    if placed {
      KeyBinsOfMapped(hash, seed, keys, n, disp[..]);
      PlacementIsPerfect(mis, KeyBins(hash, seed, keys, n, disp[..]), disp[..], n, Bits(occup[..]), pl);
    }
  }

  /** The ordering and searching steps, for keys that are kept apart in their buckets */
  method OrderAndSearch(buckets: seq<Bucket>, items: seq<Item>, n: nat, maxProbes: nat, maxBucketSize: nat,
                        occup: array<Word>, disp: array<nat>, ghost mapped: seq<MapItem>)
    returns (placed: bool, buckets': array<Bucket>, items': array<Item>, ghost pl: Placement)
    requires n >= 1 && occup.Length == WordsFor(n) && disp.Length == |buckets| >= 1 && |items| == |mapped| >= 1
    requires Inserted(buckets, items, mapped, |mapped|) && maxBucketSize >= 1 && mapped[0].bucketNum < |buckets|
    requires forall g :: 0 <= g < |buckets| ==> |Group(mapped, g, |mapped|)| <= maxBucketSize
    requires Bits(occup[..]) == Zeros(32 * occup.Length) && AtMost(disp[..], maxProbes)
    modifies occup, disp
    ensures fresh(buckets') && fresh(items') && buckets'.Length == |buckets| && items'.Length == |items|
    ensures AtMost(disp[..], maxProbes) && Placed(Bits(occup[..]), Groups(mapped, |buckets|), disp[..], n, pl)
    ensures placed ==> AllPlaced(Groups(mapped, |buckets|), pl)
    ensures placed <==> !SearchFails(mapped, |buckets|, n, maxProbes)
    ensures maxProbes <= 1 ==> !placed
  {
    hide GreedySearch, SearchFails, Placed, AllPlaced, Bits, Zeros, GaveUp, Spent, AtMost, Ordered;
    ghost var groups := Groups(mapped, |buckets|);
    MappingFeedsOrdering(buckets, items, mapped);
    SizesSum(mapped, |buckets|, maxBucketSize + 1, |buckets|);
    var lists;
    buckets', items', lists := Ordering(buckets, items, maxBucketSize, groups);
    FirstBucketHasKey(mapped, |buckets|);
    WhereSearchStarts(mapped, |buckets|, n, maxProbes, lists.Length - 1);
    placed, pl := PlaceBuckets(occup, buckets', items'[..], disp, n, maxProbes, lists, groups);
  }

  lemma FirstBucketHasKey(mapped: seq<MapItem>, nbuckets: nat)
    requires |mapped| >= 1 && mapped[0].bucketNum < nbuckets
    ensures exists g :: 0 <= g < nbuckets && |Groups(mapped, nbuckets)[g]| >= 1
  {
    PickedAt(Items(mapped), Classes(mapped), 0, |mapped|);
    assert |Groups(mapped, nbuckets)[mapped[0].bucketNum]| >= 1;
  }

  function BucketCount(m: nat, keysPerBucket: nat): (nbuckets: nat)
    requires keysPerBucket >= 1
    ensures nbuckets >= 1
  {
    m / keysPerBucket + 1
  }

  /** As many buckets as it takes for the keys to fit with a place to spare */
  lemma BucketCountMeans(m: nat, keysPerBucket: nat)
    requires keysPerBucket >= 1
    ensures var nb := BucketCount(m, keysPerBucket); keysPerBucket * (nb - 1) <= m < keysPerBucket * nb
  {
    assert m == m / keysPerBucket * keysPerBucket + m % keysPerBucket;
  }

  /** `chd_ph_new`. The number of bins and the probe limit come from floating-point expressions, and are given. */
  method New<Key>(hash: HashFamily<Key>, keys: seq<Key>, keysPerBucket: nat, n: Uint32, maxProbes: nat)
    returns (phf: ChdPhFunction?, occup: array<Word>, ghost disp: seq<nat>)
    requires |keys| >= 1 && keysPerBucket >= 1 && n >= 2 && maxProbes <= PROBE_LIMIT
    requires 21 * BucketCount(|keys|, keysPerBucket) + 31 < WORD_LIMIT
    ensures fresh(occup) && occup.Length == WordsFor(n)
    ensures phf != null ==> phf.Holds(disp) && phf.n == n
    ensures phf != null ==> PerfectlyHashed(Bits(occup[..]), KeyBins(hash, phf.seed, keys, n, disp))
    ensures phf != null ==> |disp| == BucketCount(|keys|, keysPerBucket)
    ensures phf != null ==> Distinct(MapKeys(hash, phf.seed, keys, n, |disp|))
    ensures maxProbes <= 1 ==> phf == null
    ensures phf == null <==> Fails(hash, keys, n, BucketCount(|keys|, keysPerBucket), maxProbes)
  {
    hide BucketCount, PerfectlyHashed, KeyBins, MapKeys, Distinct;
    var nbuckets := BucketCount(|keys|, keysPerBucket);
    var buckets := new Bucket[nbuckets](_ => Bucket(0, 0));
    var items := new Item[|keys|](_ => Item(0, 0));
    occup := Calloc(WordsFor(n));
    var dispTable := new nat[nbuckets](_ => 0);
    var iterations, seed := 100, 0;
    var mapped, placed := false, false;
    phf, disp := null, [];
    ghost var starts := [0];
    assert AtMost(dispTable[..], maxProbes) && Rounds(hash, keys, n, nbuckets, maxProbes, starts);
    hide AtMost, Rounds, Maps, AllClash, SearchFails;
    while true
      invariant iterations >= 1
      invariant fresh(buckets) && fresh(items) && fresh(dispTable) && fresh(occup)
      invariant buckets.Length == dispTable.Length == nbuckets && items.Length == |keys|
      invariant occup.Length == WordsFor(n) && Bits(occup[..]) == Zeros(32 * occup.Length)
      invariant AtMost(dispTable[..], maxProbes)
      invariant |starts| + iterations == 101 && starts[|starts| - 1] == seed
      invariant Rounds(hash, keys, n, nbuckets, maxProbes, starts)
      decreases iterations
    {
      iterations := iterations - 1;
      mapped, placed, seed, buckets, items := TryOnce(hash, keys, n, maxProbes, seed, buckets, items, occup, dispTable);
      if !mapped {
        assert LastFails(hash, keys, n, nbuckets, starts);
        return;
      }
      if placed {
        SucceedsInstead(hash, keys, n, nbuckets, maxProbes, starts, seed);
        break;
      }
      OneMoreRound(hash, keys, n, nbuckets, maxProbes, starts, seed);
      starts := starts + [seed + 1];
      ClearTable(occup);
      if iterations == 0 {
        assert LastFails(hash, keys, n, nbuckets, starts);
        return;
      }
      seed := seed + 1;
    }
    disp := dispTable[..];
    DisplacementsFit(disp);
    phf := new ChdPhFunction(seed, n, dispTable[..]);
  }
}
