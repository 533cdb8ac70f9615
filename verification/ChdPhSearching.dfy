/**
 The searching step of CHD (chd_ph.c), one key per bin: buckets are placed into a
 table of bins, larger buckets first. A probe shifts all the items of a bucket; when
 two collide, the probe is undone and the next one tried.
 */
module ChdPhSearching {
  import opened Words
  import opened BitTable
  import opened Counting
  import opened CountingSort
  import opened ChdPhMapping
  import opened ChdPhOrdering
  import opened Options

  // ---------- probes ----------

  /** The bin of an item under a probe. */
  function Bin(item: Item, probe0: nat, probe1: nat, n: nat): (k: nat)
    requires n >= 1
    ensures k < n
  {
    Mod(item.f + FieldPos(probe0, item.h) + probe1, n)
  }

  /** The formula of the source. */
  lemma BinFormula(item: Item, probe0: nat, probe1: nat, n: nat)
    requires n >= 1
    ensures Bin(item, probe0, probe1, n) == (item.f + item.h * probe0 + probe1) % n
  {
    FieldPosIsProduct(probe0, item.h);
    ModIsRemainder(item.f + item.h * probe0 + probe1, n);
  }

  /** `probe0 + probe1 * n`: probes are tried in this order, and their number is what gets stored as displacement. */
  function ProbeNumber(probe0: nat, probe1: nat, n: nat): (d: nat) {
    probe0 + FieldPos(probe1, n)
  }

  function Probe0(d: nat, n: nat): (p: nat)
    requires n >= 1
    ensures p < n
  {
    Mod(d, n)
  }

  function Probe1(d: nat, n: nat): (p: nat)
    requires n >= 1
  {
    Div(d, n)
  }

  /** Remainder and quotient recover both parts of a probe from its number. */
  lemma {:induction false} ProbeParts(probe0: nat, probe1: nat, n: nat)
    requires probe0 < n
    ensures Probe0(ProbeNumber(probe0, probe1, n), n) == probe0
    ensures Probe1(ProbeNumber(probe0, probe1, n), n) == probe1
  {
    if probe1 != 0 {
      ProbeParts(probe0, probe1 - 1, n);
    }
  }

  /** The step to the next probe increases the number by one. */
  lemma ProbeAdvance(probe0: nat, probe1: nat, n: nat)
    requires probe0 < n
    ensures ProbeNumber(if probe0 + 1 >= n then probe0 + 1 - n else probe0 + 1,
                        if probe0 + 1 >= n then probe1 + 1 else probe1, n)
            == ProbeNumber(probe0, probe1, n) + 1
  {
  }

  /** The bin of an item under a displacement, as `chd_ph_search` computes it. */
  function BinAt(item: Item, d: nat, n: nat): (k: nat)
    requires n >= 1
    ensures k < n
  {
    Bin(item, Probe0(d, n), Probe1(d, n), n)
  }

  /** The bins of all the items of a bucket under a probe. */
  function Bins(group: seq<Item>, probe0: nat, probe1: nat, n: nat): (r: seq<nat>)
    requires n >= 1
    ensures |r| == |group|
    ensures forall t :: 0 <= t < |r| ==> r[t] < n
  {
    seq(|group|, t requires 0 <= t < |group| => Bin(group[t], probe0, probe1, n))
  }

  // ---------- one probe ----------

  /** The table with some more bins taken. */
  function Marked(b: seq<bool>, bins: seq<nat>): (r: seq<bool>)
    ensures |r| == |b|
  {
    seq(|b|, k requires 0 <= k < |b| => b[k] || k in bins)
  }

  /** A bucket fits: its items go to different bins, and all of them are free. */
  ghost predicate Placeable(b: seq<bool>, bins: seq<nat>) {
    Distinct(bins) && forall t :: 0 <= t < |bins| ==> bins[t] < |b| && !b[bins[t]]
  }

  lemma MarkNext(b: seq<bool>, bins: seq<nat>, i: nat)
    requires i < |bins| && bins[i] < |b|
    requires Placeable(b, bins[..i]) && !Marked(b, bins[..i])[bins[i]]
    ensures Placeable(b, bins[..i + 1])
    ensures Marked(b, bins[..i + 1]) == Marked(b, bins[..i])[bins[i] := true]
  {
    assert bins[..i + 1] == bins[..i] + [bins[i]];
    assert bins[i] !in bins[..i];
  }

  lemma UnmarkNext(b: seq<bool>, bins: seq<nat>)
    requires Placeable(b, bins) && bins != []
    ensures Marked(b, bins)[bins[0]]
    ensures Marked(b, bins)[bins[0] := false] == Marked(b, bins[1..])
    ensures Placeable(b, bins[1..])
  {
    assert bins == [bins[0]] + bins[1..];
    forall j | 0 <= j < |bins[1..]|
      ensures bins[1..][j] != bins[0]
    {
      assert bins[1..][j] == bins[j + 1];
    }
  }

  lemma MarkedNone(b: seq<bool>)
    ensures Marked(b, []) == b
  {
  }

  lemma CollisionNotPlaceable(b: seq<bool>, bins: seq<nat>, i: nat)
    requires i < |bins| && bins[i] < |b| && Marked(b, bins[..i])[bins[i]]
    ensures !Placeable(b, bins)
  {
  }

  /** `place_bucket_probe`: place all the items of a bucket, or leave the table as it was. */
  method PlaceBucketProbe(occup: array<Word>, items: seq<Item>, itemsList: nat, probe0: nat, probe1: nat, n: nat,
                          size: nat) returns (placed: bool)
    requires 1 <= n <= 32 * occup.Length && itemsList + size <= |items|
    modifies occup
    ensures var bins := Bins(items[itemsList..itemsList + size], probe0, probe1, n);
            && placed == Placeable(old(Bits(occup[..])), bins)
            && Bits(occup[..]) == if placed then Marked(old(Bits(occup[..])), bins) else old(Bits(occup[..]))
    ensures var bins := Bins(items[itemsList..itemsList + size], probe0, probe1, n);
            placed <==> && (forall i, j :: 0 <= i < j < size ==> bins[i] != bins[j])
                        && (forall i :: 0 <= i < size ==> !old(Bits(occup[..]))[bins[i]])
  {
    ghost var before := Bits(occup[..]);
    ghost var bins := Bins(items[itemsList..itemsList + size], probe0, probe1, n);
    MarkedNone(before);
    var i := 0;
    while i < size
      invariant 0 <= i <= size
      invariant Bits(occup[..]) == Marked(before, bins[..i]) && Placeable(before, bins[..i])
    {
      var position := Bin(items[itemsList + i], probe0, probe1, n);
      assert position == bins[i];
      if GetBit32(occup[..], position) {
        break;
      }
      MarkNext(before, bins, i);
      SetBit32(occup, position);
      i := i + 1;
    }
    if i != size {
      CollisionNotPlaceable(before, bins, i);
      UndoPlacement(occup, items, itemsList, probe0, probe1, n, size, i, before);
      return false;
    }
    assert bins[..size] == bins;
    return true;
  }

  /** The undo loop clears the bins of the first `count` items. */
  method UndoPlacement(occup: array<Word>, items: seq<Item>, itemsList: nat, probe0: nat, probe1: nat, n: nat,
                       size: nat, count: nat, ghost before: seq<bool>)
    requires 1 <= n <= 32 * occup.Length && itemsList + size <= |items| && count <= size
    requires var bins := Bins(items[itemsList..itemsList + size], probe0, probe1, n);
             Bits(occup[..]) == Marked(before, bins[..count]) && Placeable(before, bins[..count])
    modifies occup
    ensures Bits(occup[..]) == before
  {
    ghost var bins := Bins(items[itemsList..itemsList + size], probe0, probe1, n);
    var item, i := itemsList, count;
    while i != 0
      invariant 0 <= i <= count && item == itemsList + (count - i)
      invariant Bits(occup[..]) == Marked(before, bins[count - i..count]) && Placeable(before, bins[count - i..count])
      decreases i
    {
      var position := Bin(items[item], probe0, probe1, n);
      ghost var rest := bins[count - i..count];
      assert position == bins[count - i] == rest[0];
      UnmarkNext(before, rest);
      assert rest[1..] == bins[count - i + 1..count];
      UnsetBit32(occup, position);
      item := item + 1;
      i := i - 1;
    }
    MarkedNone(before);
  }

  // ---------- what is placed so far ----------

  /** The buckets placed so far, and for every taken bin the bucket and the item that own it. */
  datatype Placement = Placement(placed: set<nat>, own: map<nat, (nat, nat)>)

  ghost predicate OwnerOk(groups: seq<seq<Item>>, disp: seq<nat>, n: nat, placed: set<nat>, k: nat, owner: (nat, nat))
    requires n >= 1 && |disp| == |groups|
  {
    && owner.0 in placed && owner.0 < |groups| && owner.1 < |groups[owner.0]|
    && k == BinAt(groups[owner.0][owner.1], disp[owner.0], n)
  }

  ghost predicate GroupPlaced(groups: seq<seq<Item>>, disp: seq<nat>, n: nat, own: map<nat, (nat, nat)>, g: nat)
    requires n >= 1 && |disp| == |groups|
  {
    && g < |groups|
    && forall t :: 0 <= t < |groups[g]| ==> ItemPlaced(groups[g][t], disp[g], n, own, (g, t))
  }

  ghost predicate ItemPlaced(item: Item, d: nat, n: nat, own: map<nat, (nat, nat)>, owner: (nat, nat))
    requires n >= 1
  {
    BinAt(item, d, n) in own && own[BinAt(item, d, n)] == owner
  }

  /** The table is exactly the bins of the placed buckets, and every taken bin has one owner. */
  ghost predicate Placed(b: seq<bool>, groups: seq<seq<Item>>, disp: seq<nat>, n: nat, pl: Placement)
    requires n >= 1
  {
    && |disp| == |groups|
    && (forall k :: 0 <= k < |b| ==> (b[k] <==> k in pl.own))
    && (forall k :: k in pl.own ==> OwnerOk(groups, disp, n, pl.placed, k, pl.own[k]))
    && (forall g :: g in pl.placed ==> GroupPlaced(groups, disp, n, pl.own, g))
  }

  /** The ownership of the bins of one bucket. */
  function OwnMap(bins: seq<nat>, g: nat): (own: map<nat, (nat, nat)>)
    ensures forall k :: k in own <==> k in bins
    ensures forall k :: k in own ==> own[k].0 == g && own[k].1 < |bins| && bins[own[k].1] == k
  {
    if bins == [] then map[] else OwnMap(bins[..|bins| - 1], g)[bins[|bins| - 1] := (g, |bins| - 1)]
  }

  lemma OwnMapAt(bins: seq<nat>, g: nat, t: nat)
    requires Distinct(bins) && t < |bins|
    ensures bins[t] in OwnMap(bins, g) && OwnMap(bins, g)[bins[t]] == (g, t)
  {
    assert bins[t] in bins;
  }

  function Extend(pl: Placement, g: nat, bins: seq<nat>): Placement {
    Placement(pl.placed + {g}, pl.own + OwnMap(bins, g))
  }

  /** Placing one more bucket. */
  lemma PlaceStep(b: seq<bool>, groups: seq<seq<Item>>, disp: seq<nat>, n: nat, pl: Placement, g: nat, d: nat)
    requires 1 <= n <= |b| && Placed(b, groups, disp, n, pl)
    requires g < |groups| && g !in pl.placed
    requires Placeable(b, Bins(groups[g], Probe0(d, n), Probe1(d, n), n))
    ensures var bins := Bins(groups[g], Probe0(d, n), Probe1(d, n), n);
            Placed(Marked(b, bins), groups, disp[g := d], n, Extend(pl, g, bins))
  {
    var bins := Bins(groups[g], Probe0(d, n), Probe1(d, n), n);
    OwnersAfter(b, groups, disp, n, pl, g, d, bins);
    GroupsAfter(b, groups, disp, n, pl, g, d, bins);
    hide OwnerOk, GroupPlaced, Bins;
  }

  /** The new owners are right, and the old ones stay. */
  lemma OwnersAfter(b: seq<bool>, groups: seq<seq<Item>>, disp: seq<nat>, n: nat, pl: Placement, g: nat, d: nat,
                    bins: seq<nat>)
    requires 1 <= n <= |b| && Placed(b, groups, disp, n, pl) && g < |groups| && g !in pl.placed
    requires bins == Bins(groups[g], Probe0(d, n), Probe1(d, n), n)
    ensures var pl' := Extend(pl, g, bins);
            forall k :: k in pl'.own ==> OwnerOk(groups, disp[g := d], n, pl'.placed, k, pl'.own[k])
  {
    hide GroupPlaced;
    var pl', disp' := Extend(pl, g, bins), disp[g := d];
    forall k | k in pl'.own
      ensures OwnerOk(groups, disp', n, pl'.placed, k, pl'.own[k])
    {
      if k !in bins {
        assert OwnerOk(groups, disp, n, pl.placed, k, pl.own[k]);
      }
    }
  }

  /** All the items of the new bucket are placed, and those of the old ones stay so. */
  lemma GroupsAfter(b: seq<bool>, groups: seq<seq<Item>>, disp: seq<nat>, n: nat, pl: Placement, g: nat, d: nat,
                    bins: seq<nat>)
    requires 1 <= n <= |b| && Placed(b, groups, disp, n, pl) && g < |groups| && g !in pl.placed
    requires bins == Bins(groups[g], Probe0(d, n), Probe1(d, n), n) && Placeable(b, bins)
    ensures var pl' := Extend(pl, g, bins);
            forall g' :: g' in pl'.placed ==> GroupPlaced(groups, disp[g := d], n, pl'.own, g')
  {
    hide OwnerOk, OwnMap, BinAt;
    var pl', disp' := Extend(pl, g, bins), disp[g := d];
    forall g', t: nat | g' in pl'.placed && g' < |groups| && t < |groups[g']|
      ensures ItemPlaced(groups[g'][t], disp'[g'], n, pl'.own, (g', t))
    {
      if g' == g {
        OwnMapAt(bins, g, t);
        BinOfItem(groups[g], d, n, t);
      } else {
        OldItem(b, groups, disp, n, pl, bins, g', t);
      }
    }
    assert forall g' :: g' in pl.placed ==> GroupPlaced(groups, disp, n, pl.own, g');
  }

  lemma BinOfItem(items: seq<Item>, d: nat, n: nat, t: nat)
    requires n >= 1 && t < |items|
    ensures Bins(items, Probe0(d, n), Probe1(d, n), n)[t] == BinAt(items[t], d, n)
  {
  }

  lemma OldItem(b: seq<bool>, groups: seq<seq<Item>>, disp: seq<nat>, n: nat, pl: Placement, bins: seq<nat>, g': nat,
                t: nat)
    requires 1 <= n <= |b| && Placed(b, groups, disp, n, pl) && Placeable(b, bins)
    requires g' in pl.placed && g' < |groups| && t < |groups[g']|
    ensures ItemPlaced(groups[g'][t], disp[g'], n, pl.own, (g', t)) && BinAt(groups[g'][t], disp[g'], n) !in bins
  {
    assert GroupPlaced(groups, disp, n, pl.own, g');
    assert ItemPlaced(groups[g'][t], disp[g'], n, pl.own, (g', t));
    TakenNotInBins(b, bins, BinAt(groups[g'][t], disp[g'], n));
  }

  lemma TakenNotInBins(b: seq<bool>, bins: seq<nat>, k: nat)
    requires Placeable(b, bins) && k < |b| && b[k]
    ensures k !in bins
  {
  }

  ghost predicate AtMost(s: seq<nat>, bound: nat) {
    forall i :: 0 <= i < |s| ==> s[i] <= bound
  }

  /** Only the places of one list have changed. */
  ghost predicate SameOutside(bs: seq<Bucket>, bs': seq<Bucket>, start: nat, len: nat) {
    && |bs| == |bs'|
    && forall q :: 0 <= q < |bs| && !(start <= q < start + len) ==> bs'[q] == bs[q]
  }

  // ---------- one pass over the buckets of a size ----------

  /** These buckets are still to be placed. */
  ghost predicate Pending(ids: seq<nat>, pl: Placement) {
    Distinct(ids) && forall j :: 0 <= j < |ids| ==> ids[j] !in pl.placed
  }

  /** The bins taken in `b` stay taken in `b'`. */
  ghost predicate Grown(b: seq<bool>, b': seq<bool>) {
    |b| == |b'| && forall k :: 0 <= k < |b| && b[k] ==> b'[k]
  }

  /** Bucket `g` does not fit under probe `d`: two of its items collide, or one meets a taken bin. */
  ghost predicate Misfit(b: seq<bool>, groups: seq<seq<Item>>, n: nat, g: nat, d: nat)
    requires n >= 1
  {
    g < |groups| && !Placeable(b, Bins(groups[g], Probe0(d, n), Probe1(d, n), n))
  }

  /** That is, an item's bin is taken, or two items have the same. */
  lemma MisfitMeans(b: seq<bool>, groups: seq<seq<Item>>, n: nat, g: nat, d: nat)
    requires 1 <= n <= |b| && g < |groups|
    ensures Misfit(b, groups, n, g, d)
            <==> || (exists t :: 0 <= t < |groups[g]| && b[BinAt(groups[g][t], d, n)])
                 || exists t, u :: 0 <= t < u < |groups[g]|
                                   && BinAt(groups[g][t], d, n) == BinAt(groups[g][u], d, n)
  {
    var bins := Bins(groups[g], Probe0(d, n), Probe1(d, n), n);
    assert forall t :: 0 <= t < |bins| ==> bins[t] == BinAt(groups[g][t], d, n);
    hide BinAt, Bins, Probe0, Probe1;
  }

  /** A bucket that did not fit will not fit later. */
  lemma StillMisfit(b: seq<bool>, b': seq<bool>, groups: seq<seq<Item>>, n: nat, g: nat, d: nat)
    requires n >= 1 && Grown(b, b') && Misfit(b, groups, n, g, d)
    ensures Misfit(b', groups, n, g, d)
  {
    var bins := Bins(groups[g], Probe0(d, n), Probe1(d, n), n);
    if Placeable(b', bins) {
      assert forall t :: 0 <= t < |bins| ==> bins[t] < |b| && !b[bins[t]];
    }
  }

  /** None of these buckets fits under probe `d`. */
  ghost predicate MisfitsAt(b: seq<bool>, groups: seq<seq<Item>>, n: nat, ids: seq<nat>, d: nat)
    requires n >= 1
  {
    forall j :: 0 <= j < |ids| ==> Misfit(b, groups, n, ids[j], d)
  }

  /** None of these buckets fits under any of the first `k` probes. */
  ghost predicate Misfits(b: seq<bool>, groups: seq<seq<Item>>, n: nat, ids: seq<nat>, k: nat)
    requires n >= 1
  {
    forall d :: 0 <= d < k ==> MisfitsAt(b, groups, n, ids, d)
  }

  lemma StillMisfitsAt(b: seq<bool>, b': seq<bool>, groups: seq<seq<Item>>, n: nat, ids: seq<nat>, left: seq<nat>,
                       d: nat)
    requires n >= 1 && Grown(b, b') && MisfitsAt(b, groups, n, ids, d)
    requires forall g :: g in left ==> g in ids
    ensures MisfitsAt(b', groups, n, left, d)
  {
    forall j | 0 <= j < |left|
      ensures Misfit(b', groups, n, left[j], d)
    {
      assert left[j] in left;
      var i :| 0 <= i < |ids| && ids[i] == left[j];
      StillMisfit(b, b', groups, n, ids[i], d);
    }
  }

  /** One more probe has failed for the buckets that are left. */
  lemma MisfitsMore(b: seq<bool>, b': seq<bool>, groups: seq<seq<Item>>, n: nat, ids: seq<nat>, left: seq<nat>,
                    k: nat)
    requires n >= 1 && Grown(b, b') && Misfits(b, groups, n, ids, k) && MisfitsAt(b', groups, n, left, k)
    requires forall g :: g in left ==> g in ids
    ensures Misfits(b', groups, n, left, k + 1)
  {
    hide MisfitsAt, Grown;
    forall d | 0 <= d < k + 1
      ensures MisfitsAt(b', groups, n, left, d)
    {
      if d < k {
        StillMisfitsAt(b, b', groups, n, ids, left, d);
      }
    }
  }

  lemma MisfitsOfOne(b: seq<bool>, b': seq<bool>, groups: seq<seq<Item>>, n: nat, ids: seq<nat>, g: nat, k: nat)
    requires n >= 1 && Grown(b, b') && Misfits(b, groups, n, ids, k) && g in ids
    ensures Misfits(b', groups, n, [g], k)
  {
    hide MisfitsAt, Grown;
    forall d | 0 <= d < k
      ensures MisfitsAt(b', groups, n, [g], d)
    {
      StillMisfitsAt(b, b', groups, n, ids, [g], d);
    }
  }

  lemma GrownMore(b: seq<bool>, b1: seq<bool>, b2: seq<bool>)
    requires Grown(b, b1) && Grown(b1, b2)
    ensures Grown(b, b2)
  {
  }

  lemma MarkedIsGrown(b: seq<bool>, bins: seq<nat>)
    ensures Grown(b, Marked(b, bins)) && Grown(b, b)
  {
  }

  /** The table after bucket `g` was tried with probe `d` */
  ghost function After(b: seq<bool>, groups: seq<seq<Item>>, n: nat, g: nat, d: nat): (r: seq<bool>)
    requires n >= 1
    ensures |r| == |b|
  {
    if g < |groups| && !Misfit(b, groups, n, g, d) then Marked(b, Bins(groups[g], Probe0(d, n), Probe1(d, n), n)) else b
  }

  /** Probe one bucket, and store its displacement if it could be placed. */
  method TryBucket(occup: array<Word>, bucket: Bucket, items: seq<Item>, disp: array<nat>, n: nat,
                   probe0: nat, probe1: nat, s: nat,
                   ghost groups: seq<seq<Item>>, ghost id: nat, ghost pl: Placement, ghost bound: nat)
    returns (placed: bool, ghost pl': Placement)
    requires 1 <= n <= 32 * occup.Length && probe0 < n
    requires AtMost(disp[..], bound) && ProbeNumber(probe0, probe1, n) <= bound
    requires PlaceHolds(bucket, items, groups, id, s) && id !in pl.placed
    requires Placed(Bits(occup[..]), groups, disp[..], n, pl)
    modifies occup, disp
    ensures Placed(Bits(occup[..]), groups, disp[..], n, pl') && AtMost(disp[..], bound)
    ensures pl'.placed == if placed then pl.placed + {id} else pl.placed
    ensures Grown(old(Bits(occup[..])), Bits(occup[..]))
    ensures !placed ==> Misfit(Bits(occup[..]), groups, n, id, ProbeNumber(probe0, probe1, n))
    ensures placed <==> !Misfit(old(Bits(occup[..])), groups, n, id, ProbeNumber(probe0, probe1, n))
    ensures Bits(occup[..]) == After(old(Bits(occup[..])), groups, n, id, ProbeNumber(probe0, probe1, n))
  {
    assert bucket.tag < disp.Length;
    hide Placed, Bits, Placeable, Marked, ProbeNumber, Grown, Probe0, Probe1, Bins, OwnMap;
    ghost var b, ds := Bits(occup[..]), disp[..];
    pl' := pl;
    ProbeParts(probe0, probe1, n);
    MarkedIsGrown(b, Bins(groups[id], probe0, probe1, n));
    placed := PlaceBucketProbe(occup, items, bucket.itemsList, probe0, probe1, n, s);
    if placed {
      var d := ProbeNumber(probe0, probe1, n);
      PlaceStep(b, groups, ds, n, pl, id, d);
      pl' := Extend(pl, id, Bins(groups[id], probe0, probe1, n));
      disp[bucket.tag] := d;
      assert disp[..] == ds[id := d];
    }
  }

  /** An unplaced bucket moves up to the kept ones; either way it is done for this pass. */
  method NextBucket(buckets: array<Bucket>, start: nat, j: nat, nonPlaced: nat, placed: bool,
                    ghost items: seq<Item>, ghost groups: seq<seq<Item>>, ghost kept: seq<nat>, ghost rest: seq<nat>,
                    ghost s: nat)
    requires rest != [] && nonPlaced == |kept| <= j && start + j + |rest| <= buckets.Length
    requires ListHolds(buckets[..], items, groups, start, kept, s)
    requires ListHolds(buckets[..], items, groups, start + j, rest, s)
    modifies buckets
    ensures ListHolds(buckets[..], items, groups, start, if placed then kept else kept + [rest[0]], s)
    ensures ListHolds(buckets[..], items, groups, start + j + 1, rest[1..], s)
    ensures SameOutside(old(buckets[..]), buckets[..], start, j + 1)
  {
    ghost var bs := buckets[..];
    ListTail(bs, items, groups, start + j, rest, s);
    if !placed {
      KeepBucket(bs, items, groups, start, j, kept, rest, s);
      ListFramed(bs, items, groups, start + j + 1, rest[1..], s, start + nonPlaced, bs[start + j]);
      buckets[start + nonPlaced] := buckets[start + j];
      assert buckets[..] == bs[start + nonPlaced := bs[start + j]];
    }
  }

  lemma KeepBucket(bs: seq<Bucket>, items: seq<Item>, groups: seq<seq<Item>>, start: nat, j: nat,
                   kept: seq<nat>, rest: seq<nat>, s: nat)
    requires rest != [] && |kept| <= j && start + j + |rest| <= |bs|
    requires ListHolds(bs, items, groups, start, kept, s) && ListHolds(bs, items, groups, start + j, rest, s)
    ensures ListHolds(bs[start + |kept| := bs[start + j]], items, groups, start, kept + [rest[0]], s)
  {
    var bs', kept' := bs[start + |kept| := bs[start + j]], kept + [rest[0]];
    forall i | 0 <= i < |kept'|
      ensures PlaceHolds(bs'[start + i], items, groups, kept'[i], s)
    {
      if i < |kept| {
        assert PlaceHolds(bs[start + i], items, groups, kept[i], s);
      } else {
        assert PlaceHolds(bs[start + j + 0], items, groups, rest[0], s);
      }
    }
  }

  lemma ListTail(bs: seq<Bucket>, items: seq<Item>, groups: seq<seq<Item>>, start: nat, rest: seq<nat>, s: nat)
    requires rest != [] && ListHolds(bs, items, groups, start, rest, s)
    ensures ListHolds(bs, items, groups, start + 1, rest[1..], s)
  {
    var next := start + 1;
    forall i | 0 <= i < |rest[1..]|
      ensures PlaceHolds(bs[next + i], items, groups, rest[1..][i], s)
    {
      assert PlaceHolds(bs[start + (i + 1)], items, groups, rest[i + 1], s);
    }
  }

  lemma ListFramed(bs: seq<Bucket>, items: seq<Item>, groups: seq<seq<Item>>, start: nat, ids: seq<nat>, s: nat,
                   q: nat, x: Bucket)
    requires q < start && start + |ids| <= |bs| && ListHolds(bs, items, groups, start, ids, s)
    ensures ListHolds(bs[q := x], items, groups, start, ids, s)
  {
    forall i | 0 <= i < |ids|
      ensures PlaceHolds(bs[q := x][start + i], items, groups, ids[i], s)
    {
      assert PlaceHolds(bs[start + i], items, groups, ids[i], s);
    }
  }

  lemma HeadIsPending(bs: seq<Bucket>, items: seq<Item>, groups: seq<seq<Item>>, start: nat,
                      kept: seq<nat>, rest: seq<nat>, s: nat, pl: Placement)
    requires rest != [] && ListHolds(bs, items, groups, start, rest, s) && Pending(kept + rest, pl)
    ensures PlaceHolds(bs[start], items, groups, rest[0], s) && rest[0] !in pl.placed
  {
    assert PlaceHolds(bs[start + 0], items, groups, rest[0], s);
    assert (kept + rest)[|kept|] == rest[0];
  }

  lemma PendingAfter(kept: seq<nat>, rest: seq<nat>, pl: Placement, placed: bool, pl': Placement)
    requires rest != [] && Pending(kept + rest, pl)
    requires pl'.placed == if placed then pl.placed + {rest[0]} else pl.placed
    ensures Pending((if placed then kept else kept + [rest[0]]) + rest[1..], pl')
  {
    var before, after := kept + rest, (if placed then kept else kept + [rest[0]]) + rest[1..];
    if placed {
      forall i | 0 <= i < |after|
        ensures after[i] == before[if i < |kept| then i else i + 1] && after[i] != rest[0]
      {
        assert before[|kept|] == rest[0];
      }
    } else {
      assert after == before;
    }
  }

  /** Between two of these states, buckets of `ids` may have been placed, and none taken back. */
  ghost predicate Progress(ids: seq<nat>, pl: Placement, left: seq<nat>, pl': Placement) {
    && pl.placed <= pl'.placed
    && (forall g :: g in pl'.placed ==> g in pl.placed || g in ids)
    && (forall g :: g in ids ==> g in left || g in pl'.placed)
    && (forall g :: g in left ==> g in ids)
  }

  lemma ProgressStep(ids: seq<nat>, pl0: Placement, kept: seq<nat>, rest: seq<nat>, pl: Placement,
                     placed: bool, pl': Placement)
    requires rest != [] && Progress(ids, pl0, kept + rest, pl)
    requires pl'.placed == if placed then pl.placed + {rest[0]} else pl.placed
    ensures Progress(ids, pl0, (if placed then kept else kept + [rest[0]]) + rest[1..], pl')
  {
    assert rest == [rest[0]] + rest[1..];
    assert rest[0] in kept + rest;
  }

  ghost function Kept(b: seq<bool>, groups: seq<seq<Item>>, n: nat, g: nat, d: nat): (r: seq<nat>)
    requires n >= 1
  {
    if Misfit(b, groups, n, g, d) then [g] else []
  }

  /** The table after probe `d` was tried on the first `k` of these buckets, in order */
  ghost function PassTable(b: seq<bool>, groups: seq<seq<Item>>, n: nat, ids: seq<nat>, d: nat, k: nat)
    : (t: seq<bool>)
    requires n >= 1 && k <= |ids|
    ensures |t| == |b|
  {
    if k == 0 then b else After(PassTable(b, groups, n, ids, d, k - 1), groups, n, ids[k - 1], d)
  }

  /** Those of them that did not fit */
  ghost function PassLeft(b: seq<bool>, groups: seq<seq<Item>>, n: nat, ids: seq<nat>, d: nat, k: nat)
    : (left: seq<nat>)
    requires n >= 1 && k <= |ids|
  {
    if k == 0 then []
    else PassLeft(b, groups, n, ids, d, k - 1) + Kept(PassTable(b, groups, n, ids, d, k - 1), groups, n, ids[k - 1], d)
  }

  ghost predicate Passed(b: seq<bool>, groups: seq<seq<Item>>, n: nat, ids: seq<nat>, d: nat, k: nat, t: seq<bool>,
                         left: seq<nat>)
    requires n >= 1
  {
    k <= |ids| && t == PassTable(b, groups, n, ids, d, k) && left == PassLeft(b, groups, n, ids, d, k)
  }

  lemma PassNone(b: seq<bool>, groups: seq<seq<Item>>, n: nat, ids: seq<nat>, d: nat)
    requires n >= 1
    ensures Passed(b, groups, n, ids, d, 0, b, [])
  {
  }

  lemma PassNext(b: seq<bool>, groups: seq<seq<Item>>, n: nat, ids: seq<nat>, d: nat, k: nat)
    requires n >= 1 && k < |ids|
    ensures var t := PassTable(b, groups, n, ids, d, k);
            && PassTable(b, groups, n, ids, d, k + 1) == After(t, groups, n, ids[k], d)
            && PassLeft(b, groups, n, ids, d, k + 1)
               == PassLeft(b, groups, n, ids, d, k) + Kept(t, groups, n, ids[k], d)
  {
    hide After, Kept;
  }

  /** Its body: the probe is tried on one bucket, which is kept among the pending ones if it does not fit. */
  method PlaceNext(occup: array<Word>, buckets: array<Bucket>, items: seq<Item>, disp: array<nat>, n: nat,
                   probe0: nat, probe1: nat, start: nat, j: nat, nonPlaced: nat, s: nat,
                   ghost groups: seq<seq<Item>>, ghost ids: seq<nat>, ghost left: seq<nat>, ghost rest: seq<nat>,
                   ghost pl0: Placement, ghost pl: Placement, ghost bound: nat, ghost b0: seq<bool>)
    returns (nonPlaced': nat, ghost left': seq<nat>, ghost pl': Placement)
    requires 1 <= n <= 32 * occup.Length && probe0 < n && rest != []
    requires AtMost(disp[..], bound) && ProbeNumber(probe0, probe1, n) <= bound
    requires nonPlaced == |left| <= j && start + j + |rest| <= buckets.Length
    requires ListHolds(buckets[..], items, groups, start, left, s)
             && ListHolds(buckets[..], items, groups, start + j, rest, s)
    requires Placed(Bits(occup[..]), groups, disp[..], n, pl) && Pending(left + rest, pl)
             && Progress(ids, pl0, left + rest, pl)
    requires MisfitsAt(Bits(occup[..]), groups, n, left, ProbeNumber(probe0, probe1, n))
    requires RestOf(ids, j, rest)
    requires Passed(b0, groups, n, ids, ProbeNumber(probe0, probe1, n), j, Bits(occup[..]), left)
    modifies occup, buckets, disp
    ensures nonPlaced' == |left'| <= j + 1
    ensures ListHolds(buckets[..], items, groups, start, left', s)
            && ListHolds(buckets[..], items, groups, start + j + 1, rest[1..], s)
    ensures Placed(Bits(occup[..]), groups, disp[..], n, pl') && Pending(left' + rest[1..], pl')
            && Progress(ids, pl0, left' + rest[1..], pl')
    ensures AtMost(disp[..], bound) && SameOutside(old(buckets[..]), buckets[..], start, j + 1)
    ensures Grown(old(Bits(occup[..])), Bits(occup[..]))
    ensures MisfitsAt(Bits(occup[..]), groups, n, left', ProbeNumber(probe0, probe1, n))
    ensures Passed(b0, groups, n, ids, ProbeNumber(probe0, probe1, n), j + 1, Bits(occup[..]), left')
  {
    RestNext(ids, j, rest);
    hide Placed, ListHolds, Pending, Progress, Bits, AtMost, PlaceHolds, Misfit, Grown, ProbeNumber, After, PassTable,
      PassLeft, RestOf;
    PassNext(b0, groups, n, ids, ProbeNumber(probe0, probe1, n), j);
    ghost var b := Bits(occup[..]);
    var placed;
    HeadIsPending(buckets[..], items, groups, start + j, left, rest, s, pl);
    placed, pl' := TryBucket(occup, buckets[start + j], items, disp, n, probe0, probe1, s, groups, rest[0], pl, bound);
    NextBucket(buckets, start, j, nonPlaced, placed, items, groups, left, rest, s);
    PendingAfter(left, rest, pl, placed, pl');
    ProgressStep(ids, pl0, left, rest, pl, placed, pl');
    StillMisfitsAt(b, Bits(occup[..]), groups, n, left, left, ProbeNumber(probe0, probe1, n));
    nonPlaced', left' := nonPlaced, left;
    if !placed {
      nonPlaced' := nonPlaced + 1;
      left' := left + [rest[0]];
    }
  }

  /** The buckets of the pass that are still to be tried */
  ghost predicate RestOf(ids: seq<nat>, j: nat, rest: seq<nat>) {
    j <= |ids| && rest == ids[j..]
  }

  lemma RestNext(ids: seq<nat>, j: nat, rest: seq<nat>)
    requires RestOf(ids, j, rest) && rest != []
    ensures RestOf(ids, j + 1, rest[1..]) && j < |ids| && rest[0] == ids[j]
  {
  }

  /** The inner loop of `place_buckets2`: one probe is tried on every pending bucket of a size. */
  method PlacePass(occup: array<Word>, buckets: array<Bucket>, items: seq<Item>, disp: array<nat>, n: nat,
                   probe0: nat, probe1: nat, list: SortedList, s: nat,
                   ghost groups: seq<seq<Item>>, ghost ids: seq<nat>, ghost pl0: Placement, ghost bound: nat)
    returns (nonPlaced: nat, ghost left: seq<nat>, ghost pl: Placement)
    requires 1 <= n <= 32 * occup.Length && probe0 < n
    requires AtMost(disp[..], bound) && ProbeNumber(probe0, probe1, n) <= bound
    requires list.size == |ids| && ListHolds(buckets[..], items, groups, list.bucketsList, ids, s)
    requires Placed(Bits(occup[..]), groups, disp[..], n, pl0) && Pending(ids, pl0)
    modifies occup, buckets, disp
    ensures nonPlaced == |left| <= |ids| && ListHolds(buckets[..], items, groups, list.bucketsList, left, s)
    ensures Placed(Bits(occup[..]), groups, disp[..], n, pl) && Pending(left, pl)
    ensures Progress(ids, pl0, left, pl) && AtMost(disp[..], bound)
    ensures SameOutside(old(buckets[..]), buckets[..], list.bucketsList, |ids|)
    ensures Grown(old(Bits(occup[..])), Bits(occup[..]))
    ensures MisfitsAt(Bits(occup[..]), groups, n, left, ProbeNumber(probe0, probe1, n))
    ensures Passed(old(Bits(occup[..])), groups, n, ids, ProbeNumber(probe0, probe1, n), |ids|, Bits(occup[..]), left)
  {
    hide Placed, ListHolds, Pending, Progress, Bits, AtMost, PlaceHolds, MisfitsAt, Grown, ProbeNumber, Passed, RestOf,
      SameOutside;
    var start := list.bucketsList;
    nonPlaced, left, pl := 0, [], pl0;
    ghost var rest, b0, d, bs0 := ids, Bits(occup[..]), ProbeNumber(probe0, probe1, n), buckets[..];
    StartPass(buckets[..], items, groups, start, ids, pl0, s, b0, n, d);
    for j := 0 to list.size
      invariant nonPlaced == |left| <= j && j + |rest| == |ids| && RestOf(ids, j, rest)
      invariant start + |ids| <= buckets.Length
      invariant Passed(b0, groups, n, ids, d, j, Bits(occup[..]), left)
      invariant ListHolds(buckets[..], items, groups, start, left, s)
      invariant ListHolds(buckets[..], items, groups, start + j, rest, s)
      invariant Placed(Bits(occup[..]), groups, disp[..], n, pl) && Pending(left + rest, pl)
      invariant Progress(ids, pl0, left + rest, pl) && AtMost(disp[..], bound)
      invariant SameOutside(old(buckets[..]), buckets[..], start, |ids|)
      invariant Grown(b0, Bits(occup[..])) && MisfitsAt(Bits(occup[..]), groups, n, left, d)
    {
      RestNext(ids, j, rest);
      ghost var b, bs := Bits(occup[..]), buckets[..];
      nonPlaced, left, pl := PlaceNext(occup, buckets, items, disp, n, probe0, probe1, start, j, nonPlaced, s,
                                       groups, ids, left, rest, pl0, pl, bound, b0);
      GrownMore(b0, b, Bits(occup[..]));
      SameOutsideMore(bs0, bs, buckets[..], start, j, |ids|);
      rest := rest[1..];
    }
    assert left + rest == left;
  }

  lemma StartPass(bs: seq<Bucket>, items: seq<Item>, groups: seq<seq<Item>>, start: nat, ids: seq<nat>, pl: Placement,
                  s: nat, b: seq<bool>, n: nat, d: nat)
    requires n >= 1 && ListHolds(bs, items, groups, start, ids, s) && Pending(ids, pl)
    ensures ListHolds(bs, items, groups, start, [], s) && Pending([] + ids, pl) && Progress(ids, pl, [] + ids, pl)
    ensures MisfitsAt(b, groups, n, [], d) && Grown(b, b) && Passed(b, groups, n, ids, d, 0, b, [])
    ensures RestOf(ids, 0, ids) && start + |ids| <= |bs| && SameOutside(bs, bs, start, |ids|)
  {
    assert [] + ids == ids;
    PassNone(b, groups, n, ids, d);
  }

  lemma SameOutsideMore(bs0: seq<Bucket>, bs: seq<Bucket>, bs': seq<Bucket>, start: nat, j: nat, len: nat)
    requires SameOutside(bs0, bs, start, len) && SameOutside(bs, bs', start, j + 1) && j < len
    ensures SameOutside(bs0, bs', start, len)
  {
  }

  lemma ProgressChain(ids: seq<nat>, pl0: Placement, left: seq<nat>, pl: Placement, left': seq<nat>, pl': Placement)
    requires Progress(ids, pl0, left, pl) && Progress(left, pl, left', pl')
    ensures Progress(ids, pl0, left', pl')
  {
  }

  /** After this many probes the search gives up: the limit is reached, or the second part of the probe is. */
  ghost predicate Spent(tried: nat, maxProbes: nat, n: nat)
    requires n >= 1
  {
    tried >= maxProbes || Probe1(tried, n) >= n
  }

  /** That is, as many have been tried as the limit allows, or as there are pairs of parts below `n`. */
  lemma SpentMeans(tried: nat, maxProbes: nat, n: nat)
    requires n >= 1
    ensures Spent(tried, maxProbes, n) <==> tried >= maxProbes || tried >= n * n
  {
    ModIsRemainder(tried, n);
    var q, r := tried / n, tried % n;
    assert tried == q * n + r;
    if q >= n {
      MulMonotone(n, q, n);
    } else {
      MulMonotone(q + 1, n, n);
      assert (q + 1) * n == q * n + n;
    }
  }

  /** The test of the source, on the parts of the probe */
  lemma SpentAt(probe0: nat, probe1: nat, maxProbes: nat, n: nat)
    requires probe0 < n
    ensures var d := ProbeNumber(probe0, probe1, n); Spent(d, maxProbes, n) <==> d >= maxProbes || probe1 >= n
  {
    ProbeParts(probe0, probe1, n);
  }

  lemma MulMonotone(a: nat, b: nat, n: nat)
    requires a <= b
    ensures a * n <= b * n
  {
    assert b * n == a * n + (b - a) * n;
  }

  /** What becomes of the table when the buckets left, all of one size, are tried with probe `d` and those after it: the
      buckets are tried in order, a probe at a time, until all are placed or the probes are spent. */
  ghost function SizeSearch(b: seq<bool>, groups: seq<seq<Item>>, n: nat, maxProbes: nat, left: seq<nat>, d: nat)
    : (r: Option<seq<bool>>)
    requires n >= 1
    decreases maxProbes - d
  {
    if left == [] then Some(b)
    else
      var t, left' := PassTable(b, groups, n, left, d, |left|), PassLeft(b, groups, n, left, d, |left|);
      if Spent(d + 1, maxProbes, n) then None else SizeSearch(t, groups, n, maxProbes, left', d + 1)
  }

  lemma SizeSearchNext(b: seq<bool>, groups: seq<seq<Item>>, n: nat, maxProbes: nat, left: seq<nat>, d: nat)
    requires n >= 1
    ensures left == [] ==> SizeSearch(b, groups, n, maxProbes, left, d) == Some(b)
    ensures left != [] ==>
              var t, left' := PassTable(b, groups, n, left, d, |left|), PassLeft(b, groups, n, left, d, |left|);
              SizeSearch(b, groups, n, maxProbes, left, d)
              == if Spent(d + 1, maxProbes, n) then None else SizeSearch(t, groups, n, maxProbes, left', d + 1)
  {
    hide PassTable, PassLeft, Spent;
  }

  /** The whole search: buckets of size `s` first, then the smaller ones. */
  ghost function GreedySearch(b: seq<bool>, groups: seq<seq<Item>>, n: nat, maxProbes: nat, s: nat)
    : (r: Option<seq<bool>>)
    requires n >= 1
    decreases s
  {
    if s == 0 then Some(b)
    else match SizeSearch(b, groups, n, maxProbes, IdsOfSize(groups, s), 0)
         case None => None
         case Some(t) => GreedySearch(t, groups, n, maxProbes, s - 1)
  }

  /** Sizes that no bucket has do not matter. */
  lemma {:induction false} SearchFromLargest(b: seq<bool>, groups: seq<seq<Item>>, n: nat, maxProbes: nat, max: nat,
                                             s: nat)
    requires n >= 1 && max <= s && forall g :: 0 <= g < |groups| ==> |groups[g]| <= max
    ensures GreedySearch(b, groups, n, maxProbes, s) == GreedySearch(b, groups, n, maxProbes, max)
  {
    hide SizeSearch;
    if s > max {
      SizeSearchNext(b, groups, n, maxProbes, IdsOfSize(groups, s), 0);
      if IdsOfSize(groups, s) != [] {
        IdHasSize(groups, s, IdsOfSize(groups, s)[0]);
      }
      SearchFromLargest(b, groups, n, maxProbes, max, s - 1);
    }
  }

  lemma NoMisfits(b: seq<bool>, groups: seq<seq<Item>>, n: nat, ids: seq<nat>)
    requires n >= 1
    ensures Misfits(b, groups, n, ids, 0)
  {
  }

  /** The middle loop of `place_buckets2`: probes are tried until every bucket of a size is placed. It gives up only
      when the probes are spent, and then the buckets that are left do not fit under any of those tried. */
  method PlaceList(occup: array<Word>, buckets: array<Bucket>, items: seq<Item>, disp: array<nat>, n: nat,
                   maxProbes: nat, lists: array<SortedList>, s: nat,
                   ghost groups: seq<seq<Item>>, ghost ids: seq<nat>, ghost pl0: Placement)
    returns (ok: bool, ghost pl: Placement, ghost left: seq<nat>, ghost tried: nat, ghost last: nat)
    requires 1 <= n <= 32 * occup.Length && s < lists.Length && AtMost(disp[..], maxProbes)
    requires lists[s].size == |ids| && ListHolds(buckets[..], items, groups, lists[s].bucketsList, ids, s)
    requires Placed(Bits(occup[..]), groups, disp[..], n, pl0) && Pending(ids, pl0)
    modifies occup, buckets, disp, lists
    ensures lists[..] == old(lists[..])
    ensures AtMost(disp[..], maxProbes)
    ensures Placed(Bits(occup[..]), groups, disp[..], n, pl) && Progress(ids, pl0, left, pl)
    ensures SameOutside(old(buckets[..]), buckets[..], lists[s].bucketsList, |ids|)
    ensures Misfits(Bits(occup[..]), groups, n, left, tried) && (ids != [] || !ok ==> tried >= 1)
    ensures tried >= 1 ==> last in ids && Misfits(Bits(occup[..]), groups, n, [last], tried - 1)
    ensures ok ==> left == [] && (ids != [] ==> tried < maxProbes && tried < n * n)
    ensures !ok ==> tried >= maxProbes || tried >= n * n
    ensures SizeSearch(old(Bits(occup[..])), groups, n, maxProbes, ids, 0)
            == if ok then Some(Bits(occup[..])) else None
  {
    hide Placed, ListHolds, Pending, AtMost, Misfits, Bits, SizeSearch, PassTable, PassLeft, Spent;
    ghost var before := lists[..];
    var probeNum, probe0, probe1 := 0, 0, 0;
    var sortedListSize := lists[s].size;
    NoMisfits(Bits(occup[..]), groups, n, ids);
    left, tried, pl, last := ids, 0, pl0, 0;
    while lists[s].size != 0
      invariant lists[..] == before[s := before[s].(size := |left|)]
      invariant 0 <= probe0 < n && 0 <= probe1
      invariant probeNum == ProbeNumber(probe0, probe1, n) <= maxProbes
      invariant |left| <= |ids| && ListHolds(buckets[..], items, groups, before[s].bucketsList, left, s)
      invariant Placed(Bits(occup[..]), groups, disp[..], n, pl) && Pending(left, pl)
      invariant Progress(ids, pl0, left, pl) && AtMost(disp[..], maxProbes)
      invariant SameOutside(old(buckets[..]), buckets[..], before[s].bucketsList, |ids|)
      invariant tried == probeNum && Misfits(Bits(occup[..]), groups, n, left, tried)
      invariant tried == 0 ==> left == ids
      invariant SizeSearch(old(Bits(occup[..])), groups, n, maxProbes, ids, 0)
                == SizeSearch(Bits(occup[..]), groups, n, maxProbes, left, tried)
      invariant tried >= 1 ==> !Spent(tried, maxProbes, n)
      invariant tried >= 1 ==> last in ids && Misfits(Bits(occup[..]), groups, n, [last], tried - 1)
      decreases maxProbes - probeNum
    {
      ghost var pl1, left1, b := pl, left, Bits(occup[..]);
      var nonPlaced;
      nonPlaced, left, pl := PlacePass(occup, buckets, items, disp, n, probe0, probe1, lists[s], s,
                                       groups, left1, pl1, maxProbes);
      ProgressChain(ids, pl0, left1, pl1, left, pl);
      MisfitsMore(b, Bits(occup[..]), groups, n, left1, left, tried);
      last := left1[0];
      MisfitsOfOne(b, Bits(occup[..]), groups, n, left1, last, tried);
      lists[s] := lists[s].(size := nonPlaced);
      assert lists[..] == before[s := before[s].(size := |left|)];
      ProbeAdvance(probe0, probe1, n);
      probe0 := probe0 + 1;
      if probe0 >= n {
        probe0 := probe0 - n;
        probe1 := probe1 + 1;
      }
      probeNum := probeNum + 1;
      SizeSearchNext(b, groups, n, maxProbes, left1, tried);
      tried := tried + 1;
      SpentAt(probe0, probe1, maxProbes, n);
      if probeNum >= maxProbes || probe1 >= n {
        lists[s] := lists[s].(size := sortedListSize);
        assert lists[..] == before;
        SpentMeans(tried, maxProbes, n);
        return false, pl, left, tried, last;
      }
    }
    SizeSearchNext(Bits(occup[..]), groups, n, maxProbes, left, tried);
    lists[s] := lists[s].(size := sortedListSize);
    assert lists[..] == before;
    SpentMeans(tried, maxProbes, n);
    return true, pl, left, tried, last;
  }

  /** Every nonempty bucket is placed. */
  ghost predicate AllPlaced(groups: seq<seq<Item>>, pl: Placement) {
    forall g :: 0 <= g < |groups| && |groups[g]| >= 1 ==> g in pl.placed
  }

  /** All larger buckets are placed, and those of size `s` that are not do not fit under any of the probes tried. Some
      bucket of that size has failed under all of them, but perhaps the last. */
  ghost predicate GaveUp(b: seq<bool>, groups: seq<seq<Item>>, n: nat, pl: Placement, s: nat, tried: nat)
    requires n >= 1
  {
    && s >= 1 && tried >= 1
    && (forall g :: 0 <= g < |groups| && |groups[g]| > s ==> g in pl.placed)
    && (exists g :: 0 <= g < |groups| && |groups[g]| == s && Misfits(b, groups, n, [g], tried - 1))
    && forall g, d :: 0 <= g < |groups| && |groups[g]| == s && g !in pl.placed && 0 <= d < tried ==>
         Misfit(b, groups, n, g, d)
  }

  lemma SizeGivenUp(b: seq<bool>, groups: seq<seq<Item>>, n: nat, pl0: Placement, pl: Placement, s: nat,
                    left: seq<nat>, tried: nat, last: nat)
    requires n >= 1 && s >= 1 && tried >= 1
    requires last in IdsOfSize(groups, s) && Misfits(b, groups, n, [last], tried - 1)
    requires LargerPlaced(groups, pl0, s) && Progress(IdsOfSize(groups, s), pl0, left, pl)
    requires Misfits(b, groups, n, left, tried)
    ensures GaveUp(b, groups, n, pl, s, tried)
  {
    IdHasSize(groups, s, last);
    hide Misfit;
    forall g, d | 0 <= g < |groups| && |groups[g]| == s && g !in pl.placed && 0 <= d < tried
      ensures Misfit(b, groups, n, g, d)
    {
      PickedAt(Ids(|groups|), Sizes(groups), g, |groups|);
      assert g in IdsOfSize(groups, s);
      var j :| 0 <= j < |left| && left[j] == g;
      assert MisfitsAt(b, groups, n, left, d);
    }
  }

  lemma IdHasSize(groups: seq<seq<Item>>, s: nat, g: nat)
    requires g in IdsOfSize(groups, s)
    ensures g < |groups| && |groups[g]| == s
  {
    var ids := IdsOfSize(groups, s);
    var j :| 0 <= j < |ids| && ids[j] == g;
    var i := PickedSource(Ids(|groups|), Sizes(groups), s, |groups|, j);
  }

  lemma NoneOfSize(groups: seq<seq<Item>>, s: nat)
    ensures IdsOfSize(groups, s) == [] ==> forall g :: 0 <= g < |groups| ==> |groups[g]| != s
  {
    forall g | 0 <= g < |groups| && |groups[g]| == s
      ensures IdsOfSize(groups, s) != []
    {
      PickedAt(Ids(|groups|), Sizes(groups), g, |groups|);
    }
  }

  /** `place_buckets2`, the searching step. The probe limit is tested after a pass, even when the pass placed all that
      was left: with a limit of one probe or none the search always fails. */
  method PlaceBuckets(occup: array<Word>, buckets: array<Bucket>, items: seq<Item>, disp: array<nat>, n: nat,
                      maxProbes: nat, lists: array<SortedList>, ghost groups: seq<seq<Item>>)
    returns (ok: bool, ghost pl: Placement)
    requires 1 <= n <= 32 * occup.Length && AtMost(disp[..], maxProbes)
    requires lists.Length >= 1 && Ordered(buckets[..], items, lists[..], groups)
    requires forall g :: 0 <= g < |groups| ==> |groups[g]| < lists.Length
    requires disp.Length == |groups| && Bits(occup[..]) == Zeros(32 * occup.Length)
    modifies occup, buckets, disp, lists
    ensures AtMost(disp[..], maxProbes)
    ensures Placed(Bits(occup[..]), groups, disp[..], n, pl)
    ensures ok ==> AllPlaced(groups, pl)
    ensures !ok ==> exists s: nat, tried: nat :: GaveUp(Bits(occup[..]), groups, n, pl, s, tried)
                                                 && (tried >= maxProbes || tried >= n * n)
    ensures maxProbes <= 1 && (exists g :: 0 <= g < |groups| && |groups[g]| >= 1) ==> !ok
    ensures GreedySearch(Zeros(32 * occup.Length), groups, n, maxProbes, lists.Length - 1)
            == if ok then Some(Bits(occup[..])) else None
  {
    ghost var before := lists[..];
    pl := Placement({}, map[]);
    var i := lists.Length - 1;
    while i > 0
      invariant 0 <= i < lists.Length && lists[..] == before && AtMost(disp[..], maxProbes)
      invariant Placed(Bits(occup[..]), groups, disp[..], n, pl)
      invariant LargerPlaced(groups, pl, i)
      invariant OrderedUpTo(buckets[..], items, before, groups, i)
      invariant maxProbes <= 1 ==> forall g :: 0 <= g < |groups| ==> |groups[g]| <= i
      invariant GreedySearch(Zeros(32 * occup.Length), groups, n, maxProbes, lists.Length - 1)
                == GreedySearch(Bits(occup[..]), groups, n, maxProbes, i)
    {
      ghost var ids := IdsOfSize(groups, i);
      assert ListOrdered(buckets[..], items, before[i], groups, i);
      IdsArePending(groups, pl, i);
      ghost var pl0, bs := pl, buckets[..];
      ghost var left, tried, last;
      ok, pl, left, tried, last := PlaceList(occup, buckets, items, disp, n, maxProbes, lists, i, groups, ids, pl0);
      if !ok {
        SizeGivenUp(Bits(occup[..]), groups, n, pl0, pl, i, left, tried, last);
        return;
      }
      SizePlaced(groups, pl0, pl, i);
      SmallerListsKept(bs, buckets[..], items, before, groups, i);
      NoneOfSize(groups, i);
      i := i - 1;
    }
    return true, pl;
  }

  /** Exactly the buckets with more than `s` items are placed. */
  ghost predicate LargerPlaced(groups: seq<seq<Item>>, pl: Placement, s: nat) {
    && (forall g :: 0 <= g < |groups| && |groups[g]| > s ==> g in pl.placed)
    && (forall g :: g in pl.placed ==> g < |groups| && |groups[g]| > s)
  }

  ghost predicate OrderedUpTo(buckets: seq<Bucket>, items: seq<Item>, lists: seq<SortedList>, groups: seq<seq<Item>>,
                              i: nat) {
    i < |lists| && forall s :: 1 <= s <= i ==> ListOrdered(buckets, items, lists[s], groups, s)
  }

  lemma IdsArePending(groups: seq<seq<Item>>, pl: Placement, s: nat)
    requires LargerPlaced(groups, pl, s)
    ensures Pending(IdsOfSize(groups, s), pl)
  {
    var ids := IdsOfSize(groups, s);
    forall i, j | 0 <= i < j < |ids|
      ensures ids[i] != ids[j]
    {
      var g := PickedSource(Ids(|groups|), Sizes(groups), s, |groups|, i);
      var h := PickedSource(Ids(|groups|), Sizes(groups), s, |groups|, j);
    }
    forall j | 0 <= j < |ids|
      ensures ids[j] !in pl.placed
    {
      var g := PickedSource(Ids(|groups|), Sizes(groups), s, |groups|, j);
    }
  }

  lemma SizePlaced(groups: seq<seq<Item>>, pl0: Placement, pl: Placement, s: nat)
    requires s >= 1 && LargerPlaced(groups, pl0, s) && Progress(IdsOfSize(groups, s), pl0, [], pl)
    ensures LargerPlaced(groups, pl, s - 1)
  {
    var ids := IdsOfSize(groups, s);
    forall g | 0 <= g < |groups| && |groups[g]| > s - 1
      ensures g in pl.placed
    {
      if |groups[g]| == s {
        PickedAt(Ids(|groups|), Sizes(groups), g, |groups|);
        assert g in ids;
      }
    }
    forall g | g in pl.placed
      ensures g < |groups| && |groups[g]| > s - 1
    {
      if g in ids {
        var j :| 0 <= j < |ids| && ids[j] == g;
        var h := PickedSource(Ids(|groups|), Sizes(groups), s, |groups|, j);
      }
    }
  }

  lemma SmallerListsKept(bs: seq<Bucket>, bs': seq<Bucket>, items: seq<Item>, lists: seq<SortedList>,
                         groups: seq<seq<Item>>, i: nat)
    requires i >= 1 && OrderedUpTo(bs, items, lists, groups, i)
    requires SameOutside(bs, bs', lists[i].bucketsList, |IdsOfSize(groups, i)|)
    ensures OrderedUpTo(bs', items, lists, groups, i - 1)
  {
    forall s | 1 <= s <= i - 1
      ensures ListOrdered(bs', items, lists[s], groups, s)
    {
      var ids := IdsOfSize(groups, s);
      assert ListOrdered(bs, items, lists[s], groups, s) && ListOrdered(bs, items, lists[i], groups, i);
      CountingSort.StartsApart(Ids(|groups|), Sizes(groups), 1, s, i);
      forall j | 0 <= j < |ids|
        ensures PlaceHolds(bs'[lists[s].bucketsList + j], items, groups, ids[j], s)
      {
        assert PlaceHolds(bs[lists[s].bucketsList + j], items, groups, ids[j], s);
      }
    }
  }
}
