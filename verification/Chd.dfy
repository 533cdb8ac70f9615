/**
 CHD, the minimal perfect hash function that Johnny uses (chd.c): the bin of a key
 in the underlying perfect hash function, less the number of free bins below it.
 */
module Chd {
  import opened Words
  import opened BitTable
  import opened Select
  import opened Hashing
  import opened Options
  import opened PerfectHashing
  import ChdPh
  import CompressedRank
  import MillerRabin
  import NumberTheory

  // ---------- the free bins ----------

  /** The free bins among the first `k`, in increasing order. */
  function FreeBins(b: seq<bool>, k: nat): (free: seq<nat>)
    requires k <= |b|
    ensures forall i :: 0 <= i < |free| ==> free[i] < k
  {
    if k == 0 then [] else FreeBins(b, k - 1) + (if b[k - 1] then [] else [k - 1])
  }

  lemma {:induction false} FreeBinsIncrease(b: seq<bool>, k: nat)
    requires k <= |b|
    ensures forall i, j :: 0 <= i < j < |FreeBins(b, k)| ==> FreeBins(b, k)[i] < FreeBins(b, k)[j]
  {
    if k != 0 {
      FreeBinsIncrease(b, k - 1);
    }
  }

  /** Free and taken bins together are all the bins. */
  lemma {:induction false} FreeAndTaken(b: seq<bool>, k: nat)
    requires k <= |b|
    ensures |FreeBins(b, k)| + Ones(b[..k]) == k
  {
    if k != 0 {
      FreeAndTaken(b, k - 1);
      OnesStep(b, k - 1);
    }
  }

  /** The free bins below `x`, counted by the rank, are those that are not taken. */
  lemma {:induction false} RankOfFreeBins(b: seq<bool>, n: nat, x: nat)
    requires x <= n <= |b|
    ensures CompressedRank.CountBelow(FreeBins(b, n), x) + Ones(b[..x]) == x
  {
    if x == n {
      FreeAndTaken(b, n);
      CompressedRank.CountBelowAt(FreeBins(b, n), x, |FreeBins(b, n)|);
    } else {
      RankOfFreeBins(b, n - 1, x);
      if b[n - 1] {
        assert FreeBins(b, n) == FreeBins(b, n - 1);
      } else {
        assert FreeBins(b, n)[..|FreeBins(b, n)| - 1] == FreeBins(b, n - 1);
      }
    }
  }

  /** As many bins are free as there are more bins than keys. */
  lemma FreeBinCount(b: seq<bool>, bins: seq<nat>, n: nat)
    requires PerfectlyHashed(b, bins) && n <= |b|
    requires forall i :: 0 <= i < |bins| ==> bins[i] < n
    ensures |FreeBins(b, n)| == n - |bins|
  {
    TakenSlots(b, bins);
    OnesSplit(b, n, |b|);
    assert b[..|b|] == b;
    assert b[n..|b|] == Zeros(|b| - n);
    OnesOfZeros(|b| - n);
    FreeAndTaken(b, n);
  }

  // ---------- construction ----------

  /** The loop of `chd_new` that gathers the free bins. */
  method CollectFreeBins(occup: seq<Word>, nbins: nat, nvals: nat) returns (vals: array<nat>)
    requires nbins <= 32 * |occup| && nvals == |FreeBins(Bits(occup), nbins)|
    ensures vals[..] == FreeBins(Bits(occup), nbins)
  {
    hide Bits, FreeBins;
    ghost var b := Bits(occup);
    NoFreeBins(b);
    vals := new nat[nvals](_ => 0);
    var idx := 0;
    for i := 0 to nbins
      invariant idx == |FreeBins(b, i)| <= nvals
      invariant vals[..idx] == FreeBins(b, i)
    {
      FreeBinsGrow(b, i + 1, nbins);
      FreeBinsNext(b, i);
      if !GetBit32(occup, i) {
        vals[idx] := i;
        idx := idx + 1;
      }
    }
  }

  lemma NoFreeBins(b: seq<bool>)
    ensures FreeBins(b, 0) == []
  {
  }

  lemma FreeBinsNext(b: seq<bool>, i: nat)
    requires i < |b|
    ensures FreeBins(b, i + 1) == if b[i] then FreeBins(b, i) else FreeBins(b, i) + [i]
  {
  }

  lemma {:induction false} FreeBinsGrow(b: seq<bool>, j: nat, k: nat)
    requires j <= k <= |b|
    ensures |FreeBins(b, j)| <= |FreeBins(b, k)|
  {
    if j < k {
      FreeBinsGrow(b, j, k - 1);
    }
  }

  /** The last free bin is 2 at least. Otherwise the select structure inside the compressed rank gets no keys, and reads
      past its empty table. */
  predicate LastIsLarge(vals: seq<nat>) {
    |vals| >= 1 && vals[|vals| - 1] >= 2
  }

  /** Then the free bins can be stored. */
  lemma FreeBinsRankable(b: seq<bool>, n: nat)
    requires n <= |b| && 2 * n + 31 < WORD_LIMIT
    ensures LastIsLarge(FreeBins(b, n)) <==> CompressedRank.Rankable(FreeBins(b, n))
  {
    var free := FreeBins(b, n);
    FreeBinsIncrease(b, n);
    FreeAndTaken(b, n);
    assert forall i, j :: 0 <= i <= j < |free| ==> free[i] <= free[j];
  }

  /** With three free bins or more it always is. */
  lemma ThreeAreEnough(b: seq<bool>, n: nat)
    requires n <= |b| && |FreeBins(b, n)| >= 3
    ensures LastIsLarge(FreeBins(b, n))
  {
    var free := FreeBins(b, n);
    FreeBinsIncrease(b, n);
    assert free[0] < free[1] < free[2] <= free[|free| - 1];
  }

  /** `chd_data_t`: two packed structures; the seed stands for the hash state. */
  datatype Chd = Chd(seed: nat, packedChdPhf: seq<Word>, packedCr: seq<Word>)

  ghost predicate Represents(chd: Chd, n: nat, disp: seq<nat>, b: seq<bool>) {
    && n <= |b|
    && ChdPh.PackedHashes(chd.packedChdPhf, n, disp)
    && CompressedRank.PackedRanks(chd.packedCr, FreeBins(b, n))
  }

  /** What a successful construction promises for its keys. */
  ghost predicate BuiltFor<Key>(chd: Chd, hash: HashFamily<Key>, keys: seq<Key>, n: nat, disp: seq<nat>, b: seq<bool>) {
    && Represents(chd, n, disp, b)
    && PerfectlyHashed(b, ChdPh.KeyBins(hash, chd.seed, keys, n, disp))
  }

  /** `_chd_search`: any key, in the construction or not, gets the number of occupied bins below its bin. */
  method Search<Key>(chd: Chd, hash: HashFamily<Key>, key: Key, ghost n: nat, ghost disp: seq<nat>, ghost b: seq<bool>)
    returns (v: nat)
    requires n < WORD_LIMIT && Represents(chd, n, disp, b)
    ensures v == TakenBelow(b, ChdPh.KeyBin(hash(chd.seed, key), n, disp))
  {
    var binIdx := ChdPh.SearchPacked(chd.packedChdPhf, hash(chd.seed, key), n, disp);
    var rank := CompressedRank.QueryPacked(chd.packedCr, binIdx, FreeBins(b, n));
    RankOfFreeBins(b, n, binIdx);
    v := binIdx - rank;
  }

  /** The compressed rank of the free bins, packed, if the code is defined for them */
  method PackRank(occup: seq<Word>, nbins: nat, nvals: nat) returns (defined: bool, packedCr: seq<Word>)
    requires nbins <= 32 * |occup| && 2 * nbins + 31 < WORD_LIMIT
    requires nvals == |FreeBins(Bits(occup), nbins)|
    ensures defined <==> LastIsLarge(FreeBins(Bits(occup), nbins))
    ensures defined ==> CompressedRank.PackedRanks(packedCr, FreeBins(Bits(occup), nbins))
  {
    FreeBinsRankable(Bits(occup), nbins);
    var vals := CollectFreeBins(occup, nbins, nvals);
    if !LastIsLarge(vals[..]) {
      return false, [];
    }
    defined := true;
    var cr := new CompressedRank.CompressedRankStructure.Generate(vals[..]);
    packedCr := cr.Packed(vals[..]);
    cr.PackedIsFound(vals[..], []);
    assert packedCr + [] == packedCr;
  }

  lemma BinsBelow<Key>(hash: HashFamily<Key>, seed: nat, keys: seq<Key>, n: nat, disp: seq<nat>)
    requires n >= 2 && |disp| >= 1
    ensures forall i :: 0 <= i < |keys| ==> ChdPh.KeyBins(hash, seed, keys, n, disp)[i] < n
  {
    forall i | 0 <= i < |keys|
      ensures ChdPh.KeyBins(hash, seed, keys, n, disp)[i] < n
    {
      assert ChdPh.KeyBins(hash, seed, keys, n, disp)[i] == ChdPh.KeyBin(hash(seed, keys[i]), n, disp);
    }
  }

  /** How construction ends; `Undefined` is a function for which the compressed rank cannot be built. */
  datatype Construction = Built(chd: Chd) | Failed | Undefined

  /** `chd_new` */
  method New<Key>(hash: HashFamily<Key>, keys: seq<Key>, keysPerBucket: nat, n: Uint32, maxProbes: nat)
    returns (r: Construction, ghost disp: seq<nat>, ghost b: seq<bool>)
    requires |keys| >= 1 && keysPerBucket >= 1 && maxProbes <= ChdPh.PROBE_LIMIT
    requires n >= 2 && 2 * n + 31 < WORD_LIMIT
    requires 21 * ChdPh.BucketCount(|keys|, keysPerBucket) + 31 < WORD_LIMIT
    ensures r.Built? ==> BuiltFor(r.chd, hash, keys, n, disp, b)
    ensures !r.Failed? ==> n <= |b| && (r.Built? <==> LastIsLarge(FreeBins(b, n)))
    ensures |keys| + 3 <= n ==> !r.Undefined?
    ensures r.Failed? <==> ChdPh.Fails(hash, keys, n, ChdPh.BucketCount(|keys|, keysPerBucket), maxProbes)
    ensures maxProbes <= 1 ==> r.Failed?
  {
    var phf, occup;
    phf, occup, disp := ChdPh.New(hash, keys, keysPerBucket, n, maxProbes);
    b := Bits(occup[..]);
    if phf == null {
      return Failed, disp, b;
    }
    hide ChdPh.Fails, ChdPh.BucketCount;
    var packedChdPhf := phf.Packed(disp);
    phf.PackedIsFound(disp);
    BinsBelow(hash, phf.seed, keys, n, disp);
    FreeBinCount(b, ChdPh.KeyBins(hash, phf.seed, keys, n, disp), n);
    if |keys| + 3 <= n {
      ThreeAreEnough(b, n);
    }
    var defined, packedCr := PackRank(occup[..], n, n - |keys|);
    r := if defined then Built(Chd(phf.seed, packedChdPhf, packedCr)) else Undefined;
  }

  /** `chd_new` with the default load factor of one half: the number of bins is the first number above twice the number
      of keys that the primality check accepts. The 32-bit sizes hold if a prime above 61 leaves room for them. */
  method NewWithDefaultLoad<Key>(hash: HashFamily<Key>, keys: seq<Key>, keysPerBucket: nat, maxProbes: nat,
                                 ghost prime: nat)
    returns (chd: Option<Chd>, n: nat, ghost disp: seq<nat>, ghost b: seq<bool>)
    requires |keys| >= 1 && keysPerBucket >= 1 && maxProbes <= ChdPh.PROBE_LIMIT
    requires NumberTheory.Prime(prime) && prime > 61 && prime >= 2 * |keys| + 1 && 2 * prime + 31 < WORD_LIMIT
    requires 21 * ChdPh.BucketCount(|keys|, keysPerBucket) + 31 < WORD_LIMIT
    ensures 2 * |keys| + 1 <= n <= prime && MillerRabin.Accepted(n)
    ensures forall k :: 2 * |keys| + 1 <= k < n ==> !MillerRabin.Accepted(k)
    ensures chd.Some? ==> BuiltFor(chd.value, hash, keys, n, disp, b)
    ensures chd.None? <==> ChdPh.Fails(hash, keys, n, ChdPh.BucketCount(|keys|, keysPerBucket), maxProbes)
  {
    n := MillerRabin.BinCount(2 * |keys| + 1, prime);
    MillerRabin.DefaultLeavesBinsFree(|keys|, n);
    hide BuiltFor, MillerRabin.Accepted, ChdPh.Fails, ChdPh.BucketCount;
    var r;
    r, disp, b := New(hash, keys, keysPerBucket, n, maxProbes);
    chd := if r.Built? then Some(r.chd) else None;
  }

  /** The values that the search gives to the keys. */
  function Values<Key>(hash: HashFamily<Key>, seed: nat, keys: seq<Key>, n: nat, disp: seq<nat>, b: seq<bool>)
    : (values: seq<nat>)
    requires 2 <= n <= |b| && |disp| >= 1
    ensures |values| == |keys|
  {
    seq<nat>(|keys|, i requires 0 <= i < |keys| => TakenBelow(b, ChdPh.KeyBin(hash(seed, keys[i]), n, disp)))
  }

  /** End to end: the searched values of the keys are a minimal perfect hash. */
  lemma BuiltIsMinimalPerfect<Key>(chd: Chd, hash: HashFamily<Key>, keys: seq<Key>, n: nat, disp: seq<nat>,
                                   b: seq<bool>)
    requires BuiltFor(chd, hash, keys, n, disp, b)
    ensures MinimalPerfect(Values(hash, chd.seed, keys, n, disp, b))
  {
    var bins := ChdPh.KeyBins(hash, chd.seed, keys, n, disp);
    var values := Values(hash, chd.seed, keys, n, disp, b);
    BinsBelow(hash, chd.seed, keys, n, disp);
    forall i | 0 <= i < |bins|
      ensures values[i] == TakenBelow(b, bins[i])
    {
      assert bins[i] == ChdPh.KeyBin(hash(chd.seed, keys[i]), n, disp);
    }
    RanksAreMinimalPerfect(b, bins, values);
  }

  /** End to end, for any key: the value is in range exactly when some occupied bin is at or above its bin. */
  lemma BuiltValueInRange<Key>(chd: Chd, hash: HashFamily<Key>, keys: seq<Key>, n: nat, disp: seq<nat>, b: seq<bool>,
                               key: Key)
    requires BuiltFor(chd, hash, keys, n, disp, b)
    ensures var bin := ChdPh.KeyBin(hash(chd.seed, key), n, disp);
            && TakenBelow(b, bin) <= |keys|
            && (TakenBelow(b, bin) < |keys| <==> exists k :: bin <= k < |b| && b[k])
  {
    var bins := ChdPh.KeyBins(hash, chd.seed, keys, n, disp);
    BinsBelow(hash, chd.seed, keys, n, disp);
    RankRange(b, bins, ChdPh.KeyBin(hash(chd.seed, key), n, disp));
  }
}
