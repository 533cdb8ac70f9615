/**
 The buckets of FCH (fch_buckets.c): keys are gathered by bucket, and the buckets are
 counting-sorted by decreasing size. A key is its number in the input.
 */
module FchBuckets {
  import opened Counting
  import opened CountingSort

  function Numbers(n: nat): (r: seq<nat>)
    ensures |r| == n && forall i :: 0 <= i < n ==> r[i] == i
  {
    seq<nat>(n, i requires 0 <= i => i)
  }

  /** The keys of bucket `c` among the first `k`, in order */
  function BucketKeys(cls: seq<nat>, c: nat, k: nat): (r: seq<nat>)
    requires k <= |cls|
  {
    Picked(Numbers(|cls|), cls, c, k)
  }

  /** The bucket of a key has it, and only keys of that bucket. */
  lemma KeyInBucket(cls: seq<nat>, i: nat)
    requires i < |cls|
    ensures i in BucketKeys(cls, cls[i], |cls|)
  {
    PickedAt(Numbers(|cls|), cls, i, |cls|);
  }

  lemma BucketHasItsKeys(cls: seq<nat>, c: nat, t: nat)
    requires t < |BucketKeys(cls, c, |cls|)|
    ensures BucketKeys(cls, c, |cls|)[t] < |cls| && cls[BucketKeys(cls, c, |cls|)[t]] == c
  {
    var i := PickedSource(Numbers(|cls|), cls, c, |cls|, t);
  }

  // ---------- sorted by decreasing size ----------

  /** All the buckets, each once: the larger ones first, and those of one size in the order of their numbers */
  ghost predicate SortedBySize(sorted: seq<nat>, sizes: seq<nat>) {
    && |sorted| == |sizes| && Distinct(sorted)
    && (forall p :: 0 <= p < |sorted| ==> sorted[p] < |sizes|)
    && (forall i :: 0 <= i < |sizes| ==> i in sorted)
    && (forall p, q :: 0 <= p < q < |sorted| ==> sizes[sorted[p]] >= sizes[sorted[q]])
    && (forall p, q :: 0 <= p < q < |sorted| && sizes[sorted[p]] == sizes[sorted[q]] ==> sorted[p] < sorted[q])
  }

  /** Sizes turned around, so that larger buckets come first */
  function Turned(sizes: seq<nat>, maxSize: nat): (cls: seq<nat>)
    requires forall i :: 0 <= i < |sizes| ==> sizes[i] <= maxSize
    ensures |cls| == |sizes| && forall i :: 0 <= i < |sizes| ==> cls[i] == maxSize - sizes[i]
  {
    seq<nat>(|sizes|, i requires 0 <= i < |sizes| => maxSize - sizes[i])
  }

  lemma {:induction false} ClassOfSlot(cls: seq<nat>, p: nat, hi: nat) returns (c: nat)
    requires p < Start(cls, 0, hi)
    ensures c < hi && Start(cls, 0, c) <= p < Start(cls, 0, c + 1)
  {
    CountRangeEmpty(cls, 0, |cls|);
    if Start(cls, 0, hi - 1) <= p {
      c := hi - 1;
    } else {
      c := ClassOfSlot(cls, p, hi - 1);
    }
  }

  /** A filled slot has an element of the class that the slot belongs to. */
  lemma SlotHasClass(out: seq<nat>, cls: seq<nat>, hi: nat, p: nat) returns (c: nat)
    requires Filled(out, Numbers(|cls|), cls, 0, hi, |cls|) && p < |out| && p < Start(cls, 0, hi)
    ensures out[p] < |cls| && cls[out[p]] == c < hi && Start(cls, 0, c) <= p < Start(cls, 0, c + 1)
  {
    var src := Numbers(|cls|);
    c := ClassOfSlot(cls, p, hi);
    StartNext(src, cls, 0, c);
    assert ClassFilled(out, src, cls, 0, c, |cls|);
    var start, picked := Start(cls, 0, c), Picked(src, cls, c, |cls|);
    assert out[p] == out[start..start + |picked|][p - start];
    var i := PickedSource(src, cls, c, |cls|, p - start);
  }

  lemma ClassesIncrease(out: seq<nat>, cls: seq<nat>, hi: nat, p: nat, q: nat)
    requires Filled(out, Numbers(|cls|), cls, 0, hi, |cls|) && p < q < |out| && q < Start(cls, 0, hi)
    ensures out[p] < |cls| && out[q] < |cls| && cls[out[p]] <= cls[out[q]]
  {
    var c := SlotHasClass(out, cls, hi, p);
    var d := SlotHasClass(out, cls, hi, q);
    if d < c {
      CountRangeMonotone(cls, 0, d + 1, c, |cls|);
    }
  }

  /** The keys of a bucket are in increasing order. */
  lemma {:induction false} BucketKeysIncrease(cls: seq<nat>, c: nat, k: nat)
    requires k <= |cls|
    ensures forall t :: 0 <= t < |BucketKeys(cls, c, k)| ==> BucketKeys(cls, c, k)[t] < k
    ensures forall t, u :: 0 <= t < u < |BucketKeys(cls, c, k)| ==> BucketKeys(cls, c, k)[t] < BucketKeys(cls, c, k)[u]
  {
    if k != 0 {
      BucketKeysIncrease(cls, c, k - 1);
      assert BucketKeys(cls, c, k) == BucketKeys(cls, c, k - 1) + if cls[k - 1] == c then [k - 1] else [];
    }
  }

  lemma SameClassIncreases(out: seq<nat>, cls: seq<nat>, hi: nat, p: nat, q: nat)
    requires Filled(out, Numbers(|cls|), cls, 0, hi, |cls|) && p < q < |out| && q < Start(cls, 0, hi)
    requires out[p] < |cls| && out[q] < |cls| && cls[out[p]] == cls[out[q]]
    ensures out[p] < out[q]
  {
    var src, c := Numbers(|cls|), cls[out[p]];
    var c0 := SlotHasClass(out, cls, hi, p);
    var c1 := SlotHasClass(out, cls, hi, q);
    var start, picked := Start(cls, 0, c), Picked(src, cls, c, |cls|);
    assert ClassFilled(out, src, cls, 0, c, |cls|);
    StartNext(src, cls, 0, c);
    BucketKeysIncrease(cls, c, |cls|);
    assert picked == BucketKeys(cls, c, |cls|);
    assert out[p] == out[start..start + |picked|][p - start] && out[q] == out[start..start + |picked|][q - start];
  }

  lemma ElementHasSlot(out: seq<nat>, cls: seq<nat>, hi: nat, i: nat)
    requires Filled(out, Numbers(|cls|), cls, 0, hi, |cls|) && i < |cls| && cls[i] < hi
    ensures i in out
  {
    var src := Numbers(|cls|);
    assert ClassFilled(out, src, cls, 0, cls[i], |cls|);
    PickedAt(src, cls, i, |cls|);
    var start, picked, t := Start(cls, 0, cls[i]), Picked(src, cls, cls[i], |cls|), |Picked(src, cls, cls[i], i)|;
    assert out[start + t] == out[start..start + |picked|][t];
  }

  lemma FilledIsSorted(out: seq<nat>, sizes: seq<nat>, maxSize: nat)
    requires forall i :: 0 <= i < |sizes| ==> sizes[i] <= maxSize
    requires |out| == |sizes| && Filled(out, Numbers(|sizes|), Turned(sizes, maxSize), 0, maxSize + 1, |sizes|)
    ensures SortedBySize(out, sizes)
  {
    var cls, hi := Turned(sizes, maxSize), maxSize + 1;
    CountRangeAll(cls, 0, hi, |cls|);
    hide Filled, Turned, CountRange, Start;
    forall p | 0 <= p < |out|
      ensures out[p] < |sizes|
    {
      var c := SlotHasClass(out, cls, hi, p);
    }
    forall p, q | 0 <= p < q < |out|
      ensures sizes[out[p]] >= sizes[out[q]]
    {
      ClassesIncrease(out, cls, hi, p, q);
    }
    forall p, q | 0 <= p < q < |out| && sizes[out[p]] == sizes[out[q]]
      ensures out[p] < out[q]
    {
      SameClassIncreases(out, cls, hi, p, q);
    }
    forall i | 0 <= i < |sizes|
      ensures i in out
    {
      ElementHasSlot(out, cls, hi, i);
    }
    OntoIsDistinct(out, |out|);
  }

  // ---------- the class ----------

  /** `fch_buckets_t` */
  class Buckets {
    const values: array<seq<nat>>
    const nbuckets: nat
    var maxSize: nat

    /** The buckets have the first `k` keys. */
    ghost predicate Holds(cls: seq<nat>, k: nat)
      reads this, values
    {
      && values.Length == nbuckets && k <= |cls|
      && forall c :: 0 <= c < nbuckets ==> values[c] == BucketKeys(cls, c, k) && |values[c]| <= maxSize
    }

    /** `fch_buckets_new` */
    constructor (nbuckets: nat, ghost cls: seq<nat>)
      ensures Holds(cls, 0) && this.nbuckets == nbuckets && fresh(values)
    {
      values := new seq<nat>[nbuckets](_ => []);
      this.nbuckets, maxSize := nbuckets, 0;
    }

    /** `fch_buckets_insert` of the next key */
    method Insert(index: nat, key: nat, ghost cls: seq<nat>)
      requires index < nbuckets && key < |cls| && cls[key] == index && Holds(cls, key)
      modifies this, values
      ensures Holds(cls, key + 1)
    {
      values[index] := values[index] + [key];
      if |values[index]| > maxSize {
        maxSize := |values[index]|;
      }
    }

    /** The sizes of the buckets */
    function Sizes(): (sizes: seq<nat>)
      reads this, values
      ensures |sizes| == values.Length
    {
      BucketSizes(values[..])
    }

    /** `fch_buckets_get_indexes_sorted_by_size` */
    method GetIndexesSortedBySize() returns (sortedIndexes: array<nat>)
      requires values.Length == nbuckets && forall c :: 0 <= c < nbuckets ==> |values[c]| <= maxSize
      ensures fresh(sortedIndexes) && SortedBySize(sortedIndexes[..], Sizes())
    {
      ghost var sizes, cls := Sizes(), Turned(Sizes(), maxSize);
      var bucketSizes := CountSizes(values[..], maxSize, cls);
      SizesToOffsets(bucketSizes, maxSize, cls);
      sortedIndexes := PlaceIndexes(values[..], bucketSizes, maxSize, cls);
      FilledIsSorted(sortedIndexes[..], sizes, maxSize);
    }
  }

  function BucketSizes(values: seq<seq<nat>>): (sizes: seq<nat>)
    ensures |sizes| == |values| && forall c :: 0 <= c < |values| ==> sizes[c] == |values[c]|
  {
    seq<nat>(|values|, c requires 0 <= c < |values| => |values[c]|)
  }

  // ---------- its loops ----------

  /** How many buckets each size has, among the first `k` */
  ghost predicate SizesCounted(counts: seq<nat>, cls: seq<nat>, maxSize: nat, k: nat)
    requires k <= |cls|
  {
    |counts| == maxSize + 1 && forall s :: 0 <= s <= maxSize ==> counts[s] == |BucketKeys(cls, maxSize - s, k)|
  }

  method CountSizes(values: seq<seq<nat>>, maxSize: nat, ghost cls: seq<nat>) returns (counts: array<nat>)
    requires forall c :: 0 <= c < |values| ==> |values[c]| <= maxSize
    requires cls == Turned(BucketSizes(values), maxSize)
    ensures fresh(counts) && SizesCounted(counts[..], cls, maxSize, |cls|)
  {
    counts := new nat[maxSize + 1](_ => 0);
    for i := 0 to |values|
      invariant SizesCounted(counts[..], cls, maxSize, i)
    {
      ghost var before := counts[..];
      counts[|values[i]|] := counts[|values[i]|] + 1;
      assert counts[..] == before[|values[i]| := before[|values[i]|] + 1];
      CountOneMore(before, cls, maxSize, i);
    }
  }

  lemma CountOneMore(counts: seq<nat>, cls: seq<nat>, maxSize: nat, k: nat)
    requires k < |cls| && cls[k] <= maxSize && SizesCounted(counts, cls, maxSize, k)
    ensures SizesCounted(counts[maxSize - cls[k] := counts[maxSize - cls[k]] + 1], cls, maxSize, k + 1)
  {
  }

  /** Sizes from `i` up have their offset, the others still their count. */
  ghost predicate OffsetsFrom(counts: seq<nat>, cls: seq<nat>, maxSize: nat, i: nat) {
    && |counts| == maxSize + 1
    && forall s :: 0 <= s <= maxSize ==>
      counts[s] == if s >= i then Start(cls, 0, maxSize - s) else |BucketKeys(cls, maxSize - s, |cls|)|
  }

  /** The running sums, from the largest size down */
  method SizesToOffsets(counts: array<nat>, maxSize: nat, ghost cls: seq<nat>)
    requires SizesCounted(counts[..], cls, maxSize, |cls|)
    modifies counts
    ensures OffsetsFrom(counts[..], cls, maxSize, 0)
  {
    var sum := 0;
    var value := counts[maxSize];
    CountRangeEmpty(cls, 0, |cls|);
    counts[maxSize] := sum;
    for i := maxSize downto 0
      invariant OffsetsFrom(counts[..], cls, maxSize, i)
      invariant sum == Start(cls, 0, maxSize - i) && value == |BucketKeys(cls, maxSize - i, |cls|)|
    {
      ghost var before := counts[..];
      StartNext(Numbers(|cls|), cls, 0, maxSize - (i + 1));
      sum := sum + value;
      value := counts[i];
      counts[i] := sum;
      assert counts[..] == before[i := sum];
    }
  }

  /** The next free slot of each size, when the first `k` buckets are placed */
  ghost predicate SlotsNext(counts: seq<nat>, cls: seq<nat>, maxSize: nat, k: nat)
    requires k <= |cls|
  {
    && |counts| == maxSize + 1
    && forall s :: 0 <= s <= maxSize ==> counts[s] == Start(cls, 0, maxSize - s) + |BucketKeys(cls, maxSize - s, k)|
  }

  method PlaceIndexes(values: seq<seq<nat>>, counts: array<nat>, maxSize: nat, ghost cls: seq<nat>)
    returns (out: array<nat>)
    requires forall c :: 0 <= c < |values| ==> |values[c]| <= maxSize
    requires cls == Turned(BucketSizes(values), maxSize) && OffsetsFrom(counts[..], cls, maxSize, 0)
    modifies counts
    ensures fresh(out) && out.Length == |values| && Filled(out[..], Numbers(|cls|), cls, 0, maxSize + 1, |cls|)
  {
    out := new nat[|values|](_ => 0);
    FilledNone(out[..], Numbers(|cls|), cls, 0, maxSize + 1);
    for i := 0 to |values|
      invariant SlotsNext(counts[..], cls, maxSize, i)
      invariant Filled(out[..], Numbers(|cls|), cls, 0, maxSize + 1, i)
    {
      PlaceIndex(out, counts, i, |values[i]|, maxSize, cls);
    }
  }

  method PlaceIndex(out: array<nat>, counts: array<nat>, i: nat, size: nat, maxSize: nat, ghost cls: seq<nat>)
    requires out.Length == |cls| && out != counts && i < |cls| && size <= maxSize && cls[i] == maxSize - size
    requires SlotsNext(counts[..], cls, maxSize, i) && Filled(out[..], Numbers(|cls|), cls, 0, maxSize + 1, i)
    modifies out, counts
    ensures SlotsNext(counts[..], cls, maxSize, i + 1) && Filled(out[..], Numbers(|cls|), cls, 0, maxSize + 1, i + 1)
  {
    ghost var filled, slots := out[..], counts[..];
    FilledNext(filled, Numbers(|cls|), cls, 0, maxSize + 1, i);
    hide Filled, Start;
    out[counts[size]] := i;
    counts[size] := counts[size] + 1;
    assert counts[..] == slots[size := slots[size] + 1];
    assert out[..] == filled[slots[size] := i];
  }
}
