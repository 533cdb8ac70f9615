/**
 The mapping step of CHD (chd_ph.c): every key goes to a bucket, and the items of
 a bucket are gathered side by side. Two equal items in one bucket make the step
 start over with another seed.
 */
module ChdPhMapping {
  import opened Words
  import opened Counting
  import opened CountingSort
  import opened Hashing

  /** `chd_ph_item_t` */
  datatype Item = Item(f: nat, h: nat)

  /** `chd_ph_map_item_t` */
  datatype MapItem = MapItem(item: Item, bucketNum: nat)

  /** `chd_ph_bucket_t`; the union of `size` and `bucket_id` is `tag`. */
  datatype Bucket = Bucket(itemsList: nat, tag: nat)

  /** The bucket and the item of a key. */
  function MapKey(hl: HashVector, n: nat, nbuckets: nat): (mi: MapItem)
    requires n >= 2 && nbuckets >= 1
    ensures mi.bucketNum < nbuckets && mi.item.f < n && 1 <= mi.item.h < n
  {
    MapItem(Item(Mod(hl.h1, n), Mod(hl.h2, n - 1) + 1), Mod(hl.h0, nbuckets))
  }

  /** The parts of a key are remainders of its hash values. */
  lemma MapKeyMeans(hl: HashVector, n: nat, nbuckets: nat)
    requires n >= 2 && nbuckets >= 1
    ensures MapKey(hl, n, nbuckets).bucketNum == hl.h0 % nbuckets
    ensures MapKey(hl, n, nbuckets).item.f == hl.h1 % n
    ensures MapKey(hl, n, nbuckets).item.h == hl.h2 % (n - 1) + 1
  {
    ModIsRemainder(hl.h0, nbuckets);
    ModIsRemainder(hl.h1, n);
    ModIsRemainder(hl.h2, n - 1);
  }

  /** The map items of all the keys under one seed. */
  function MapKeys<Key>(hash: HashFamily<Key>, seed: nat, keys: seq<Key>, n: nat, nbuckets: nat): (r: seq<MapItem>)
    requires n >= 2 && nbuckets >= 1
    ensures |r| == |keys|
    ensures forall i :: 0 <= i < |r| ==> r[i].bucketNum < nbuckets
  {
    var r := seq(|keys|, i requires 0 <= i < |keys| => MapKey(hash(seed, keys[i]), n, nbuckets));
    assert forall i :: 0 <= i < |r| ==> r[i] == MapKey(hash(seed, keys[i]), n, nbuckets);
    r
  }

  /** Every key has the parts of its own hash values. */
  lemma MapKeysMean<Key>(hash: HashFamily<Key>, seed: nat, keys: seq<Key>, n: nat, nbuckets: nat, i: nat)
    requires n >= 2 && nbuckets >= 1 && i < |keys|
    ensures var hl, mi := hash(seed, keys[i]), MapKeys(hash, seed, keys, n, nbuckets)[i];
            && mi.bucketNum == hl.h0 % nbuckets && mi.item.f == hl.h1 % n && mi.item.h == hl.h2 % (n - 1) + 1
  {
    MapKeyMeans(hash(seed, keys[i]), n, nbuckets);
  }

  function Classes(mapped: seq<MapItem>): (cls: seq<nat>)
    ensures |cls| == |mapped|
  {
    seq(|mapped|, i requires 0 <= i < |mapped| => mapped[i].bucketNum)
  }

  function Items(mapped: seq<MapItem>): (items: seq<Item>)
    ensures |items| == |mapped|
  {
    seq(|mapped|, i requires 0 <= i < |mapped| => mapped[i].item)
  }

  /** The items of bucket `g` among the first `k` keys. */
  function Group(mapped: seq<MapItem>, g: nat, k: nat): (r: seq<Item>)
    requires k <= |mapped|
  {
    Picked(Items(mapped), Classes(mapped), g, k)
  }

  /** The buckets after a successful mapping, as the items they hold. */
  function Groups(mapped: seq<MapItem>, nbuckets: nat): (r: seq<seq<Item>>)
    ensures |r| == nbuckets
  {
    seq(nbuckets, g requires 0 <= g => Group(mapped, g, |mapped|))
  }

  // ---------- counting and offsets ----------

  /** The sizes counted for the first `k` keys. */
  ghost predicate SizesCounted(buckets: seq<Bucket>, mapped: seq<MapItem>, k: nat)
    requires k <= |mapped|
  {
    forall g :: 0 <= g < |buckets| ==> buckets[g].tag == |Group(mapped, g, k)|
  }

  method CleanBuckets(buckets: array<Bucket>)
    modifies buckets
    ensures forall g :: 0 <= g < buckets.Length ==> buckets[g].tag == 0
  {
    for i := 0 to buckets.Length
      invariant forall g :: 0 <= g < i ==> buckets[g].tag == 0
    {
      buckets[i] := buckets[i].(tag := 0);
    }
  }

  /** The first loop: count the keys of each bucket, and keep the largest count. */
  method CountSizes(buckets: array<Bucket>, mapped: seq<MapItem>, maxSize0: nat) returns (maxSize: nat)
    requires forall i :: 0 <= i < |mapped| ==> mapped[i].bucketNum < buckets.Length
    requires forall g :: 0 <= g < buckets.Length ==> buckets[g].tag == 0
    modifies buckets
    ensures SizesCounted(buckets[..], mapped, |mapped|)
    ensures maxSize >= maxSize0 && (|mapped| >= 1 ==> maxSize >= 1)
    ensures forall g :: 0 <= g < buckets.Length ==> |Group(mapped, g, |mapped|)| <= maxSize
  {
    maxSize := maxSize0;
    for i := 0 to |mapped|
      invariant maxSize >= maxSize0 && (i >= 1 ==> maxSize >= 1)
      invariant SizesCounted(buckets[..], mapped, i)
      invariant forall g :: 0 <= g < buckets.Length ==> buckets[g].tag <= maxSize
    {
      CountOne(buckets, mapped, i);
      var g := mapped[i].bucketNum;
      if buckets[g].tag > maxSize {
        maxSize := buckets[g].tag;
      }
    }
    assert forall g :: 0 <= g < buckets.Length ==> buckets[..][g].tag <= maxSize;
  }

  method CountOne(buckets: array<Bucket>, mapped: seq<MapItem>, i: nat)
    requires i < |mapped| && mapped[i].bucketNum < buckets.Length
    requires SizesCounted(buckets[..], mapped, i)
    modifies buckets
    ensures SizesCounted(buckets[..], mapped, i + 1)
    ensures forall g :: 0 <= g < buckets.Length && g != mapped[i].bucketNum ==> buckets[g] == old(buckets[g])
    ensures buckets[mapped[i].bucketNum].tag == old(buckets[mapped[i].bucketNum].tag) + 1
  {
    var g := mapped[i].bucketNum;
    ghost var before := buckets[..];
    buckets[g] := buckets[g].(tag := buckets[g].tag + 1);
    assert buckets[..] == before[g := before[g].(tag := before[g].tag + 1)];
  }

  /** The offsets are set and the sizes cleared, for the buckets below `i`. */
  ghost predicate OffsetsSet(buckets: seq<Bucket>, mapped: seq<MapItem>, i: nat) {
    && (forall g :: 0 <= g < i && g < |buckets| ==> buckets[g] == Bucket(Start(Classes(mapped), 0, g), 0))
    && (forall g :: i <= g < |buckets| ==> buckets[g].tag == |Group(mapped, g, |mapped|)|)
  }

  /** The second loop: running sums give the offsets, and the sizes start again from zero. */
  method SetOffsets(buckets: array<Bucket>, ghost mapped: seq<MapItem>)
    requires buckets.Length >= 1 && SizesCounted(buckets[..], mapped, |mapped|)
    modifies buckets
    ensures OffsetsSet(buckets[..], mapped, buckets.Length)
  {
    var nbuckets := buckets.Length;
    buckets[0] := buckets[0].(itemsList := 0);
    ghost var cls := Classes(mapped);
    CountRangeEmpty(cls, 0, |cls|);
    var i := 1;
    while i < nbuckets
      invariant 1 <= i <= nbuckets
      invariant forall g :: 0 <= g < i - 1 ==> buckets[g] == Bucket(Start(cls, 0, g), 0)
      invariant buckets[i - 1].itemsList == Start(cls, 0, i - 1)
      invariant forall g :: i - 1 <= g < nbuckets ==> buckets[g].tag == |Group(mapped, g, |mapped|)|
    {
      StartNext(Items(mapped), cls, 0, i - 1);
      buckets[i] := buckets[i].(itemsList := buckets[i - 1].itemsList + buckets[i - 1].tag);
      buckets[i - 1] := buckets[i - 1].(tag := 0);
      i := i + 1;
    }
    buckets[i - 1] := buckets[i - 1].(tag := 0);
  }

  // ---------- inserting ----------

  /** The first `k` items are in their buckets. */
  ghost predicate Inserted(buckets: seq<Bucket>, items: seq<Item>, mapped: seq<MapItem>, k: nat)
    requires k <= |mapped|
  {
    && (forall g :: 0 <= g < |buckets| ==> BucketInserted(buckets[g], mapped, g, k))
    && Filled(items, Items(mapped), Classes(mapped), 0, |buckets|, k)
  }

  ghost predicate BucketInserted(b: Bucket, mapped: seq<MapItem>, g: nat, k: nat)
    requires k <= |mapped|
  {
    && b == Bucket(Start(Classes(mapped), 0, g), |Group(mapped, g, k)|)
    && Distinct(Group(mapped, g, k))
  }

  /** The search for an equal item, which goes through the items of the bucket so far. */
  method FindItem(items: seq<Item>, start: nat, size: nat, item: Item) returns (found: bool)
    requires start + size <= |items|
    ensures found <==> item in items[start..start + size]
  {
    for i := 0 to size
      invariant item !in items[start..start + i]
    {
      if items[start + i] == item {
        return true;
      }
      assert items[start..start + (i + 1)] == items[start..start + i] + [items[start + i]];
    }
    return false;
  }

  /** `chd_ph_bucket_insert` */
  method BucketInsert(buckets: array<Bucket>, items: array<Item>, mapped: seq<MapItem>, k: nat) returns (ok: bool)
    requires k < |mapped| && items.Length == |mapped|
    requires mapped[k].bucketNum < buckets.Length
    requires Inserted(buckets[..], items[..], mapped, k)
    modifies buckets, items
    ensures ok ==> Inserted(buckets[..], items[..], mapped, k + 1)
    ensures ok <==> mapped[k].item !in Group(mapped, mapped[k].bucketNum, k)
  {
    var g, item := mapped[k].bucketNum, mapped[k].item;
    ghost var bs, its := buckets[..], items[..];
    assert BucketInserted(bs[g], mapped, g, k);
    assert ClassFilled(its, Items(mapped), Classes(mapped), 0, g, k);
    var bucket := buckets[g];
    var found := FindItem(items[..], bucket.itemsList, bucket.tag, item);
    if found {
      return false;
    }
    InsertStep(bs, its, mapped, k);
    items[bucket.itemsList + bucket.tag] := item;
    buckets[g] := bucket.(tag := bucket.tag + 1);
    assert items[..] == its[bucket.itemsList + bucket.tag := item];
    assert buckets[..] == bs[g := bucket.(tag := bucket.tag + 1)];
    return true;
  }

  lemma InsertStep(bs: seq<Bucket>, its: seq<Item>, mapped: seq<MapItem>, k: nat)
    requires k < |mapped| == |its| && mapped[k].bucketNum < |bs|
    requires Inserted(bs, its, mapped, k)
    requires mapped[k].item !in Group(mapped, mapped[k].bucketNum, k)
    ensures var g := mapped[k].bucketNum;
            && bs[g].itemsList + bs[g].tag < |its|
            && Inserted(bs[g := bs[g].(tag := bs[g].tag + 1)],
                        its[bs[g].itemsList + bs[g].tag := mapped[k].item], mapped, k + 1)
  {
    var g := mapped[k].bucketNum;
    var bs' := bs[g := bs[g].(tag := bs[g].tag + 1)];
    var next := k + 1;
    assert BucketInserted(bs[g], mapped, g, k);
    FilledNext(its, Items(mapped), Classes(mapped), 0, |bs|, k);
    forall j | 0 <= j < |bs|
      ensures BucketInserted(bs'[j], mapped, j, next)
    {
      assert BucketInserted(bs[j], mapped, j, k);
    }
  }

  /** Two keys have become the same item of the same bucket: no displacement can part them. */
  ghost predicate Clash(mapped: seq<MapItem>) {
    exists k :: 0 <= k < |mapped| && ClashAt(mapped, k)
  }

  ghost predicate ClashAt(mapped: seq<MapItem>, k: nat)
    requires k < |mapped|
  {
    mapped[k].item in Group(mapped, mapped[k].bucketNum, k)
  }

  /** Independently of buckets: a clash is a pair of equal entries. */
  lemma ClashIsDuplicate(mapped: seq<MapItem>)
    ensures Clash(mapped) <==> !Distinct(mapped)
  {
    if Clash(mapped) {
      var k :| 0 <= k < |mapped| && ClashAt(mapped, k);
      var group := Group(mapped, mapped[k].bucketNum, k);
      var t :| 0 <= t < |group| && group[t] == mapped[k].item;
      var i := PickedSource(Items(mapped), Classes(mapped), mapped[k].bucketNum, k, t);
      assert mapped[i] == mapped[k];
    } else {
      forall i, k | 0 <= i < k < |mapped|
        ensures mapped[i] != mapped[k]
      {
        PickedAt(Items(mapped), Classes(mapped), i, k);
        assert !ClashAt(mapped, k);
      }
    }
  }

  lemma ClashFound(mapped: seq<MapItem>, k: nat)
    requires k < |mapped| && ClashAt(mapped, k)
    ensures Clash(mapped)
  {
  }

  lemma NoClash(mapped: seq<MapItem>)
    requires forall k :: 0 <= k < |mapped| ==> !ClashAt(mapped, k)
    ensures !Clash(mapped)
  {
  }

  /** The third loop: insert every item, or stop at the first that is already there. */
  method InsertAll(buckets: array<Bucket>, items: array<Item>, mapped: seq<MapItem>) returns (ok: bool)
    requires items.Length == |mapped|
    requires forall i :: 0 <= i < |mapped| ==> mapped[i].bucketNum < buckets.Length
    requires OffsetsSet(buckets[..], mapped, buckets.Length)
    modifies buckets, items
    ensures ok ==> Inserted(buckets[..], items[..], mapped, |mapped|)
    ensures ok <==> Distinct(mapped)
  {
    ClashIsDuplicate(mapped);
    FilledNone(items[..], Items(mapped), Classes(mapped), 0, buckets.Length);
    assert Inserted(buckets[..], items[..], mapped, 0);
    hide Inserted, Distinct, Group, Clash;
    var i := 0;
    while i < |mapped|
      invariant 0 <= i <= |mapped| && Inserted(buckets[..], items[..], mapped, i)
      invariant forall k :: 0 <= k < i ==> !ClashAt(mapped, k)
    {
      ok := BucketInsert(buckets, items, mapped, i);
      if !ok {
        ClashFound(mapped, i);
        return false;
      }
      i := i + 1;
    }
    NoClash(mapped);
    return true;
  }

  /** `chd_ph_mapping`. `firstSeed` counts the seeds drawn so far, and the result tells the seed that worked: the first
      for which no two keys are the same item of the same bucket. A thousand seeds are tried. */
  method Mapping<Key>(hash: HashFamily<Key>, keys: seq<Key>, n: nat, buckets: array<Bucket>, items: array<Item>,
                      firstSeed: nat) returns (ok: bool, seed: nat, maxBucketSize: nat)
    requires n >= 2 && buckets.Length >= 1 && |keys| >= 1 && items.Length == |keys|
    modifies buckets, items
    ensures firstSeed <= seed < firstSeed + 1000 && (!ok ==> seed == firstSeed + 999)
    ensures forall sd :: firstSeed <= sd < seed ==> !Distinct(MapKeys(hash, sd, keys, n, buckets.Length))
    ensures ok <==> Distinct(MapKeys(hash, seed, keys, n, buckets.Length))
    ensures ok ==> var mapped := MapKeys(hash, seed, keys, n, buckets.Length);
                   && Inserted(buckets[..], items[..], mapped, |mapped|)
                   && maxBucketSize >= 1
                   && forall g :: 0 <= g < buckets.Length ==> |Group(mapped, g, |mapped|)| <= maxBucketSize
  {
    var mappingIterations := 1000;
    maxBucketSize := 0;
    seed := firstSeed;
    while true
      invariant mappingIterations >= 1 && seed + mappingIterations == firstSeed + 1000 && seed >= firstSeed
      invariant forall sd :: firstSeed <= sd < seed ==> !Distinct(MapKeys(hash, sd, keys, n, buckets.Length))
      decreases mappingIterations
    {
      mappingIterations := mappingIterations - 1;
      var mapped := MapKeys(hash, seed, keys, n, buckets.Length);
      CleanBuckets(buckets);
      maxBucketSize := CountSizes(buckets, mapped, maxBucketSize);
      SetOffsets(buckets, mapped);
      ok := InsertAll(buckets, items, mapped);
      if ok {
        return;
      }
      if mappingIterations == 0 {
        return;
      }
      seed := seed + 1;
    }
  }
}
