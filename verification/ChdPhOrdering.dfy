/**
 The ordering step of CHD (chd_ph.c): the nonempty buckets are counting-sorted by
 size, and the blocks of items are moved into the new order.
 */
module ChdPhOrdering {
  import opened Words
  import opened CountingSort
  import opened ChdPhMapping

  /** `chd_ph_sorted_list_t`: the buckets of one size */
  datatype SortedList = SortedList(bucketsList: nat, size: nat)

  /** The buckets hold these groups of items. */
  ghost predicate BucketsHold(buckets: seq<Bucket>, items: seq<Item>, groups: seq<seq<Item>>) {
    && |buckets| == |groups|
    && forall g :: 0 <= g < |groups| ==>
         buckets[g].tag == |groups[g]| && BlockHolds(buckets[g], items, groups[g])
  }

  ghost predicate BlockHolds(b: Bucket, items: seq<Item>, group: seq<Item>) {
    b.itemsList + |group| <= |items| && items[b.itemsList..b.itemsList + |group|] == group
  }

  /** The sizes of the groups: what the buckets are sorted by. */
  function Sizes(groups: seq<seq<Item>>): (cls: seq<nat>)
    ensures |cls| == |groups|
  {
    seq(|groups|, g requires 0 <= g < |groups| => |groups[g]|)
  }

  function Ids(n: nat): (ids: seq<nat>)
    ensures |ids| == n
  {
    seq(n, i requires 0 <= i => i)
  }

  /** The ids of the buckets of size `s`, in increasing order. */
  function IdsOfSize(groups: seq<seq<Item>>, s: nat): (ids: seq<nat>) {
    Picked(Ids(|groups|), Sizes(groups), s, |groups|)
  }

  /** What the sort puts into the output: the id of a bucket and where its items are. */
  function Entries(buckets: seq<Bucket>): (r: seq<Bucket>)
    ensures |r| == |buckets|
  {
    seq(|buckets|, g requires 0 <= g < |buckets| => Bucket(buckets[g].itemsList, g))
  }

  // ---------- the total size ----------

  /** The sizes of the first `k` groups with a size in `[lo, hi)`, added up. */
  function SumRange(cls: seq<nat>, lo: nat, hi: nat, k: nat): (n: nat)
    requires k <= |cls|
  {
    if k == 0 then 0
    else SumRange(cls, lo, hi, k - 1) + (if lo <= cls[k - 1] < hi then cls[k - 1] else 0)
  }

  lemma {:induction false} SumRangeNext<T>(src: seq<T>, cls: seq<nat>, lo: nat, c: nat, k: nat)
    requires k <= |cls| == |src| && lo <= c
    ensures SumRange(cls, lo, c + 1, k) == SumRange(cls, lo, c, k) + FieldPos(|Picked(src, cls, c, k)|, c)
  {
    if k != 0 {
      SumRangeNext(src, cls, lo, c, k - 1);
    }
  }

  lemma {:induction false} SumRangeMonotone(cls: seq<nat>, lo: nat, c: nat, d: nat, k: nat)
    requires k <= |cls| && c <= d
    ensures SumRange(cls, lo, c, k) <= SumRange(cls, lo, d, k)
  {
    if k != 0 {
      SumRangeMonotone(cls, lo, c, d, k - 1);
    }
  }

  lemma {:induction false} SumRangeEmpty(cls: seq<nat>, lo: nat, k: nat)
    requires k <= |cls|
    ensures SumRange(cls, lo, lo, k) == 0
  {
    if k != 0 {
      SumRangeEmpty(cls, lo, k - 1);
    }
  }

  lemma FieldPosLess(t: nat, count: nat, s: nat)
    requires t < count
    ensures FieldPos(t, s) + s == FieldPos(t + 1, s) <= FieldPos(count, s)
  {
    FieldPosMonotone(t, count, s);
  }

  // ---------- the three loops that sort ----------

  ghost predicate ListsCounted(lists: seq<SortedList>, cls: seq<nat>, k: nat)
    requires k <= |cls|
  {
    forall s :: 1 <= s < |lists| ==> lists[s].size == |Picked(cls, cls, s, k)|
  }

  ghost predicate ListsPlaced(lists: seq<SortedList>, cls: seq<nat>, k: nat)
    requires k <= |cls|
  {
    forall s :: 1 <= s < |lists| ==> lists[s] == SortedList(Start(cls, 1, s), |Picked(cls, cls, s, k)|)
  }

  method CountLists(buckets: seq<Bucket>, lists: array<SortedList>, ghost cls: seq<nat>)
    requires |cls| == |buckets| && forall g :: 0 <= g < |buckets| ==> buckets[g].tag == cls[g] < lists.Length
    requires forall s :: 0 <= s < lists.Length ==> lists[s].size == 0
    modifies lists
    ensures ListsCounted(lists[..], cls, |cls|)
  {
    for i := 0 to |buckets|
      invariant ListsCounted(lists[..], cls, i)
    {
      var bucketSize := buckets[i].tag;
      if bucketSize != 0 {
        ghost var before := lists[..];
        lists[bucketSize] := lists[bucketSize].(size := lists[bucketSize].size + 1);
        assert lists[..] == before[bucketSize := before[bucketSize].(size := before[bucketSize].size + 1)];
      }
    }
  }

  /** Running sums give the place of each list, and the sizes start again from zero. */
  method PlaceLists(lists: array<SortedList>, ghost cls: seq<nat>)
    requires lists.Length >= 2 && ListsCounted(lists[..], cls, |cls|)
    modifies lists
    ensures ListsPlaced(lists[..], cls, 0)
  {
    CountRangeEmpty(cls, 1, |cls|);
    assert Start(cls, 1, 1) == 0;
    hide Start, Picked;
    var maxBucketSize := lists.Length - 1;
    lists[1] := lists[1].(bucketsList := 0);
    var i := 2;
    while i <= maxBucketSize
      invariant 2 <= i <= maxBucketSize + 1
      invariant forall s :: 1 <= s < i - 1 ==> lists[s] == SortedList(Start(cls, 1, s), 0)
      invariant lists[i - 1].bucketsList == Start(cls, 1, i - 1)
      invariant forall s :: i - 1 <= s < lists.Length ==> lists[s].size == |Picked(cls, cls, s, |cls|)|
    {
      StartNext(cls, cls, 1, i - 1);
      lists[i] := lists[i].(bucketsList := lists[i - 1].bucketsList + lists[i - 1].size);
      lists[i - 1] := lists[i - 1].(size := 0);
      i := i + 1;
    }
    lists[i - 1] := lists[i - 1].(size := 0);
  }

  /** Every nonempty bucket goes to the next place of its list. */
  method StoreBuckets(buckets: seq<Bucket>, lists: array<SortedList>, output: array<Bucket>, ghost cls: seq<nat>)
    requires |cls| == |buckets| == output.Length
    requires forall g :: 0 <= g < |buckets| ==> buckets[g].tag == cls[g] < lists.Length
    requires lists.Length >= 2 && ListsPlaced(lists[..], cls, 0)
    modifies lists, output
    ensures ListsPlaced(lists[..], cls, |cls|)
    ensures Filled(output[..], Entries(buckets), cls, 1, lists.Length, |cls|)
  {
    FilledNone(output[..], Entries(buckets), cls, 1, lists.Length);
    for i := 0 to |buckets|
      invariant ListsPlaced(lists[..], cls, i)
      invariant Filled(output[..], Entries(buckets), cls, 1, lists.Length, i)
    {
      if buckets[i].tag == 0 {
        FilledSkip(output[..], Entries(buckets), cls, 1, lists.Length, i);
      } else {
        StoreBucket(buckets, lists, output, i, cls);
      }
    }
  }

  method StoreBucket(buckets: seq<Bucket>, lists: array<SortedList>, output: array<Bucket>, i: nat, ghost cls: seq<nat>)
    requires |cls| == |buckets| == output.Length && i < |buckets|
    requires 1 <= buckets[i].tag == cls[i] < lists.Length
    requires ListsPlaced(lists[..], cls, i)
    requires Filled(output[..], Entries(buckets), cls, 1, lists.Length, i)
    modifies lists, output
    ensures ListsPlaced(lists[..], cls, i + 1)
    ensures Filled(output[..], Entries(buckets), cls, 1, lists.Length, i + 1)
  {
    ghost var before, out := lists[..], output[..];
    var bucketSize := buckets[i].tag;
    var position := lists[bucketSize].bucketsList + lists[bucketSize].size;
    assert before[bucketSize] == SortedList(Start(cls, 1, bucketSize), |Picked(cls, cls, bucketSize, i)|);
    PickedLength(cls, Entries(buckets), cls, bucketSize, i);
    FilledNext(out, Entries(buckets), cls, 1, lists.Length, i);
    output[position] := Bucket(buckets[i].itemsList, i);
    lists[bucketSize] := lists[bucketSize].(size := lists[bucketSize].size + 1);
    assert output[..] == out[position := Bucket(buckets[i].itemsList, i)];
    assert lists[..] == before[bucketSize := before[bucketSize].(size := before[bucketSize].size + 1)];
  }

  // ---------- moving the items ----------

  /** The places from `start` on hold the buckets `ids`, each with its block of `s` items. */
  ghost predicate ListHolds(buckets: seq<Bucket>, items: seq<Item>, groups: seq<seq<Item>>,
                            start: nat, ids: seq<nat>, s: nat) {
    && start + |ids| <= |buckets|
    && forall j :: 0 <= j < |ids| ==> PlaceHolds(buckets[start + j], items, groups, ids[j], s)
  }

  ghost predicate PlaceHolds(b: Bucket, items: seq<Item>, groups: seq<seq<Item>>, id: nat, s: nat) {
    b.tag == id < |groups| && |groups[id]| == s && BlockHolds(b, items, groups[id])
  }

  /** After sorting, the list of size `s` holds the buckets of that size, their items still in the old order. */
  lemma SortedListHolds(output: seq<Bucket>, buckets: seq<Bucket>, items: seq<Item>, groups: seq<seq<Item>>,
                        hi: nat, s: nat)
    requires BucketsHold(buckets, items, groups)
    requires Filled(output, Entries(buckets), Sizes(groups), 1, hi, |groups|) && 1 <= s < hi
    ensures ListHolds(output, items, groups, Start(Sizes(groups), 1, s), IdsOfSize(groups, s), s)
  {
    var cls, ids, start := Sizes(groups), IdsOfSize(groups, s), Start(Sizes(groups), 1, s);
    var entries := Picked(Entries(buckets), cls, s, |groups|);
    PickedLength(Ids(|groups|), Entries(buckets), cls, s, |groups|);
    assert ClassFilled(output, Entries(buckets), cls, 1, s, |groups|);
    forall j | 0 <= j < |ids|
      ensures PlaceHolds(output[start + j], items, groups, ids[j], s)
    {
      assert output[start + j] == output[start..start + |entries|][j];
      var g := PickedSource(Entries(buckets), cls, s, |groups|, j);
      PickedLength(Ids(|groups|), Entries(buckets), cls, s, g);
      PickedAt(Ids(|groups|), cls, g, |groups|);
      assert buckets[g].tag == |groups[g]| && BlockHolds(buckets[g], items, groups[g]);
    }
  }

  /** Copy a block of items. */
  method CopyBlock(output: array<Item>, position0: nat, input: seq<Item>, position20: nat, s: nat)
    requires position0 + s <= output.Length && position20 + s <= |input|
    modifies output
    ensures output[..] == Replaced(old(output[..]), position0, input[position20..position20 + s])
  {
    var position, position2 := position0, position20;
    ghost var before := output[..];
    for j := 0 to s
      invariant position == position0 + j && position2 == position20 + j
      invariant output[..] == before[..position0] + input[position20..position20 + j] + before[position0 + j..]
    {
      output[position] := input[position2];
      position := position + 1;
      position2 := position2 + 1;
    }
  }

  /** The first `p` places have their items in the new order, below `position`; the others still in the old one. */
  ghost predicate Moving(buckets: seq<Bucket>, newItems: seq<Item>, sorted: seq<Bucket>, groups: seq<seq<Item>>,
                         p: nat, position: nat) {
    && |buckets| == |sorted| && p <= |buckets|
    && (forall q :: 0 <= q < p ==> MovedPlace(buckets[q], newItems, sorted[q], groups, position))
    && (forall q :: p <= q < |buckets| ==> buckets[q] == sorted[q])
  }

  ghost predicate MovedPlace(b: Bucket, newItems: seq<Item>, was: Bucket, groups: seq<seq<Item>>, position: nat) {
    && b.tag == was.tag < |groups|
    && b.itemsList + |groups[b.tag]| <= position <= |newItems|
    && BlockHolds(b, newItems, groups[b.tag])
  }

  lemma MoveStep(buckets: seq<Bucket>, newItems: seq<Item>, sorted: seq<Bucket>, groups: seq<seq<Item>>,
                 p: nat, position: nat, block: seq<Item>)
    requires Moving(buckets, newItems, sorted, groups, p, position) && p < |buckets|
    requires position + |block| <= |newItems|
    requires buckets[p].tag < |groups| && block == groups[buckets[p].tag]
    ensures Moving(buckets[p := buckets[p].(itemsList := position)], Replaced(newItems, position, block), sorted,
                   groups,
                   p + 1, position + |block|)
  {
    var next, newItems' := position + |block|, Replaced(newItems, position, block);
    forall q | 0 <= q < p
      ensures MovedPlace(buckets[q], newItems', sorted[q], groups, next)
    {
      assert MovedPlace(buckets[q], newItems, sorted[q], groups, position);
      var from, to := buckets[q].itemsList, buckets[q].itemsList + |groups[buckets[q].tag]|;
      assert newItems'[from..to] == newItems[from..to];
    }
  }

  method MoveBlock(buckets: array<Bucket>, newItems: array<Item>, items: seq<Item>, i: nat, position: nat, s: nat,
                   ghost sorted: seq<Bucket>, ghost groups: seq<seq<Item>>, ghost id: nat)
    requires i < buckets.Length && position + s <= newItems.Length
    requires Moving(buckets[..], newItems[..], sorted, groups, i, position)
    requires PlaceHolds(sorted[i], items, groups, id, s)
    modifies buckets, newItems
    ensures Moving(buckets[..], newItems[..], sorted, groups, i + 1, position + s)
  {
    ghost var bs, its := buckets[..], newItems[..];
    var position2 := buckets[i].itemsList;
    MoveStep(bs, its, sorted, groups, i, position, groups[id]);
    buckets[i] := buckets[i].(itemsList := position);
    CopyBlock(newItems, position, items, position2, s);
    assert buckets[..] == bs[i := bs[i].(itemsList := position)];
  }

  /** Move the blocks of one list. */
  method MoveList(buckets: array<Bucket>, newItems: array<Item>, items: seq<Item>, list: SortedList, position0: nat,
                  s: nat, ghost sorted: seq<Bucket>, ghost groups: seq<seq<Item>>, ghost ids: seq<nat>)
    returns (position: nat)
    requires list.size == |ids| && ListHolds(sorted, items, groups, list.bucketsList, ids, s)
    requires position0 + FieldPos(|ids|, s) <= newItems.Length
    requires Moving(buckets[..], newItems[..], sorted, groups, list.bucketsList, position0)
    modifies buckets, newItems
    ensures position == position0 + FieldPos(|ids|, s)
    ensures Moving(buckets[..], newItems[..], sorted, groups, list.bucketsList + |ids|, position)
  {
    position := position0;
    var i := list.bucketsList;
    while i < list.size + list.bucketsList
      invariant list.bucketsList <= i <= list.bucketsList + |ids|
      invariant position == position0 + FieldPos(i - list.bucketsList, s)
      invariant Moving(buckets[..], newItems[..], sorted, groups, i, position)
    {
      FieldPosLess(i - list.bucketsList, |ids|, s);
      assert PlaceHolds(sorted[list.bucketsList + (i - list.bucketsList)], items, groups, ids[i - list.bucketsList], s);
      MoveBlock(buckets, newItems, items, i, position, s, sorted, groups, ids[i - list.bucketsList]);
      position := position + s;
      i := i + 1;
    }
  }

  /** What the ordering step hands to the searching step. */
  ghost predicate Ordered(buckets: seq<Bucket>, items: seq<Item>, lists: seq<SortedList>, groups: seq<seq<Item>>) {
    forall s :: 1 <= s < |lists| ==> ListOrdered(buckets, items, lists[s], groups, s)
  }

  ghost predicate ListOrdered(buckets: seq<Bucket>, items: seq<Item>, list: SortedList, groups: seq<seq<Item>>,
                              s: nat) {
    && list == SortedList(Start(Sizes(groups), 1, s), |IdsOfSize(groups, s)|)
    && ListHolds(buckets, items, groups, list.bucketsList, IdsOfSize(groups, s), s)
  }

  /** A moved list holds the same buckets as before. */
  lemma MovedListHolds(buckets: seq<Bucket>, newItems: seq<Item>, sorted: seq<Bucket>, items: seq<Item>,
                       groups: seq<seq<Item>>, p: nat, position: nat, start: nat, ids: seq<nat>, s: nat)
    requires Moving(buckets, newItems, sorted, groups, p, position)
    requires ListHolds(sorted, items, groups, start, ids, s) && start + |ids| <= p
    ensures ListHolds(buckets, newItems, groups, start, ids, s)
  {
    forall j | 0 <= j < |ids|
      ensures PlaceHolds(buckets[start + j], newItems, groups, ids[j], s)
    {
      assert PlaceHolds(sorted[start + j], items, groups, ids[j], s);
      assert MovedPlace(buckets[start + j], newItems, sorted[start + j], groups, position);
    }
  }

  /** The loops that move all the blocks. */
  method MoveItems(buckets: array<Bucket>, items: seq<Item>, lists: seq<SortedList>,
                   ghost oldBuckets: seq<Bucket>, ghost groups: seq<seq<Item>>)
    returns (newItems: array<Item>)
    requires BucketsHold(oldBuckets, items, groups)
    requires |lists| >= 2 && ListsPlaced(lists, Sizes(groups), |groups|)
    requires Filled(buckets[..], Entries(oldBuckets), Sizes(groups), 1, |lists|, |groups|)
    requires SumRange(Sizes(groups), 1, |lists|, |groups|) <= |items|
    modifies buckets
    ensures fresh(newItems) && newItems.Length == |items|
    ensures Ordered(buckets[..], newItems[..], lists, groups)
  {
    ghost var cls, sorted := Sizes(groups), buckets[..];
    newItems := new Item[|items|](_ => Item(0, 0));
    var position := 0;
    CountRangeEmpty(cls, 1, |cls|);
    SumRangeEmpty(cls, 1, |cls|);
    for bucketSize := 1 to |lists|
      invariant position == SumRange(cls, 1, bucketSize, |cls|)
      invariant Moving(buckets[..], newItems[..], sorted, groups, Start(cls, 1, bucketSize), position)
    {
      ghost var ids := IdsOfSize(groups, bucketSize);
      SortedListHolds(sorted, oldBuckets, items, groups, |lists|, bucketSize);
      PickedLength(Ids(|groups|), cls, cls, bucketSize, |groups|);
      SumRangeNext(Ids(|groups|), cls, 1, bucketSize, |cls|);
      SumRangeMonotone(cls, 1, bucketSize + 1, |lists|, |cls|);
      StartNext(Ids(|groups|), cls, 1, bucketSize);
      position := MoveList(buckets, newItems, items, lists[bucketSize], position, bucketSize, sorted, groups, ids);
    }
    forall s | 1 <= s < |lists|
      ensures ListOrdered(buckets[..], newItems[..], lists[s], groups, s)
    {
      SortedListHolds(sorted, oldBuckets, items, groups, |lists|, s);
      PickedLength(Ids(|groups|), cls, cls, s, |groups|);
      StartsApart(Ids(|groups|), cls, 1, s, |lists|);
      MovedListHolds(buckets[..], newItems[..], sorted, items, groups, Start(cls, 1, |lists|), position,
                     Start(cls, 1, s), IdsOfSize(groups, s), s);
    }
  }

  /** `chd_ph_ordering` */
  method Ordering(buckets: seq<Bucket>, items: seq<Item>, maxBucketSize: nat, ghost groups: seq<seq<Item>>)
    returns (outBuckets: array<Bucket>, outItems: array<Item>, lists: array<SortedList>)
    requires BucketsHold(buckets, items, groups)
    requires maxBucketSize >= 1 && forall g :: 0 <= g < |groups| ==> |groups[g]| <= maxBucketSize
    requires SumRange(Sizes(groups), 1, maxBucketSize + 1, |groups|) <= |items|
    ensures fresh(outBuckets) && fresh(outItems) && fresh(lists)
    ensures outBuckets.Length == |buckets| && outItems.Length == |items| && lists.Length == maxBucketSize + 1
    ensures Ordered(outBuckets[..], outItems[..], lists[..], groups)
  {
    ghost var cls := Sizes(groups);
    lists := new SortedList[maxBucketSize + 1](_ => SortedList(0, 0));
    CountLists(buckets, lists, cls);
    PlaceLists(lists, cls);
    outBuckets := new Bucket[|buckets|](_ => Bucket(0, 0));
    StoreBuckets(buckets, lists, outBuckets, cls);
    outItems := MoveItems(outBuckets, items, lists[..], buckets, groups);
  }
}
