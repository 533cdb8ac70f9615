/**
 What the search of CHD over all buckets comes to (chd_ph.c): on the buckets of each size, from the largest
 down, a fixed number of probes is tried, and the search fails if a bucket is left then.
 */
module ChdPhGreedy {
  import opened ChdPhMapping
  import opened ChdPhOrdering
  import opened ChdPhSearching
  import opened Options

  /** So many probes may place the last bucket of a size: one fewer than the limit and than the pairs of parts below
      `n`, since the test for the end comes before the one whether anything is left. */
  function UsefulProbes(maxProbes: nat, n: nat): (k: nat)
    requires n >= 1
    ensures k == 0 || (k < maxProbes && k < n * n)
    ensures k + 1 >= maxProbes || k + 1 >= n * n
  {
    if maxProbes == 0 then 0 else if maxProbes <= n * n then maxProbes - 1 else n * n - 1
  }

  datatype Tried = Tried(table: seq<bool>, left: seq<nat>)

  /** The table after each of the first `k` probes was tried on the buckets still left, and the buckets left then */
  ghost function AfterProbes(b: seq<bool>, groups: seq<seq<Item>>, n: nat, ids: seq<nat>, k: nat): (t: Tried)
    requires n >= 1
    ensures |t.table| == |b|
  {
    if k == 0 then Tried(b, ids)
    else
      var t := AfterProbes(b, groups, n, ids, k - 1);
      Tried(PassTable(t.table, groups, n, t.left, k - 1, |t.left|),
            PassLeft(t.table, groups, n, t.left, k - 1, |t.left|))
  }

  lemma AfterOneMore(b: seq<bool>, groups: seq<seq<Item>>, n: nat, ids: seq<nat>, k: nat)
    requires n >= 1
    ensures AfterProbes(b, groups, n, ids, 0) == Tried(b, ids)
    ensures var t := AfterProbes(b, groups, n, ids, k);
            AfterProbes(b, groups, n, ids, k + 1)
            == if t.left == [] then t
               else Tried(PassTable(t.table, groups, n, t.left, k, |t.left|),
                          PassLeft(t.table, groups, n, t.left, k, |t.left|))
  {
  }

  /** As long as the probes are not spent, the search is where these probes lead. */
  lemma {:induction false} SearchReaches(b: seq<bool>, groups: seq<seq<Item>>, n: nat, maxProbes: nat, ids: seq<nat>,
                                         k: nat)
    requires n >= 1 && (k == 0 || (k < maxProbes && k < n * n))
    ensures var t := AfterProbes(b, groups, n, ids, k);
            SizeSearch(b, groups, n, maxProbes, ids, 0) == SizeSearch(t.table, groups, n, maxProbes, t.left, k)
  {
    hide SizeSearch, Spent, AfterProbes, PassTable, PassLeft;
    AfterOneMore(b, groups, n, ids, k - if k == 0 then 0 else 1);
    if k != 0 {
      SearchReaches(b, groups, n, maxProbes, ids, k - 1);
      var t, t' := AfterProbes(b, groups, n, ids, k - 1), AfterProbes(b, groups, n, ids, k);
      SizeSearchNext(t.table, groups, n, maxProbes, t.left, k - 1);
      SizeSearchNext(t'.table, groups, n, maxProbes, t'.left, k);
      SpentMeans(k, maxProbes, n);
    }
  }

  /** The buckets of a size are placed if and only if none of them is left after so many probes. */
  lemma SizeSearchMeans(b: seq<bool>, groups: seq<seq<Item>>, n: nat, maxProbes: nat, ids: seq<nat>)
    requires n >= 1
    ensures var t := AfterProbes(b, groups, n, ids, UsefulProbes(maxProbes, n));
            SizeSearch(b, groups, n, maxProbes, ids, 0) == if t.left == [] then Some(t.table) else None
  {
    hide SizeSearch, Spent, AfterProbes, UsefulProbes;
    var k := UsefulProbes(maxProbes, n);
    var t := AfterProbes(b, groups, n, ids, k);
    SearchReaches(b, groups, n, maxProbes, ids, k);
    SizeSearchNext(t.table, groups, n, maxProbes, t.left, k);
    SpentMeans(k + 1, maxProbes, n);
  }

  /** What a pass leaves does not fit under its probe, and taken bins stay taken. */
  lemma {:induction false} PassMisfits(b: seq<bool>, groups: seq<seq<Item>>, n: nat, ids: seq<nat>, d: nat, k: nat)
    requires n >= 1 && k <= |ids|
    ensures Grown(b, PassTable(b, groups, n, ids, d, k))
    ensures MisfitsAt(PassTable(b, groups, n, ids, d, k), groups, n, PassLeft(b, groups, n, ids, d, k), d)
    ensures forall g :: g in PassLeft(b, groups, n, ids, d, k) ==> g in ids
  {
    hide Misfit;
    if k != 0 {
      PassMisfits(b, groups, n, ids, d, k - 1);
      var t, left := PassTable(b, groups, n, ids, d, k - 1), PassLeft(b, groups, n, ids, d, k - 1);
      var t' := PassTable(b, groups, n, ids, d, k);
      if ids[k - 1] < |groups| {
        MarkedIsGrown(t, Bins(groups[ids[k - 1]], Probe0(d, n), Probe1(d, n), n));
      }
      GrownMore(b, t, t');
      StillMisfitsAt(t, t', groups, n, left, left, d);
    }
  }

  /** The buckets left are some of those tried, and fit under none of the probes. */
  lemma {:induction false} LeftMisfit(b: seq<bool>, groups: seq<seq<Item>>, n: nat, ids: seq<nat>, k: nat)
    requires n >= 1
    ensures var t := AfterProbes(b, groups, n, ids, k);
            && Grown(b, t.table) && Misfits(t.table, groups, n, t.left, k) && forall g :: g in t.left ==> g in ids
  {
    hide Misfits, MisfitsAt, Grown, PassTable, PassLeft;
    if k == 0 {
      NoMisfits(b, groups, n, ids);
      MarkedIsGrown(b, []);
    } else {
      LeftMisfit(b, groups, n, ids, k - 1);
      var t, t' := AfterProbes(b, groups, n, ids, k - 1), AfterProbes(b, groups, n, ids, k);
      PassMisfits(t.table, groups, n, t.left, k - 1, |t.left|);
      MisfitsMore(t.table, t'.table, groups, n, t.left, t'.left, k - 1);
      GrownMore(b, t.table, t'.table);
    }
  }

  /** The table after `k` probes were tried on each size from `s` down to just above `low` */
  ghost function AfterSizes(b: seq<bool>, groups: seq<seq<Item>>, n: nat, k: nat, s: nat, low: nat): (t: seq<bool>)
    requires n >= 1 && low <= s
    ensures |t| == |b|
    decreases s
  {
    if s == low then b
    else AfterSizes(AfterProbes(b, groups, n, IdsOfSize(groups, s), k).table, groups, n, k, s - 1, low)
  }

  /** When the turn of size `z` is over, this bucket is left. */
  ghost predicate LeftAtSize(b: seq<bool>, groups: seq<seq<Item>>, n: nat, k: nat, s: nat, z: nat, g: nat)
    requires n >= 1
  {
    1 <= z <= s && g in AfterProbes(AfterSizes(b, groups, n, k, s, z), groups, n, IdsOfSize(groups, z), k).left
  }

  /** The search fails if and only if a bucket of some size is left after so many probes; otherwise its table is that of
      the probes. */
  lemma {:induction false} GreedyMeans(b: seq<bool>, groups: seq<seq<Item>>, n: nat, maxProbes: nat, s: nat)
    requires n >= 1
    ensures var k, r := UsefulProbes(maxProbes, n), GreedySearch(b, groups, n, maxProbes, s);
            && (r.None? <==> exists z, g :: LeftAtSize(b, groups, n, k, s, z, g))
            && (r.Some? ==> r.value == AfterSizes(b, groups, n, k, s, 0))
    decreases s
  {
    hide SizeSearch, AfterProbes, UsefulProbes, IdsOfSize;
    if s != 0 {
      var k, smaller := UsefulProbes(maxProbes, n), s - 1;
      var t := AfterProbes(b, groups, n, IdsOfSize(groups, s), k);
      SizeSearchMeans(b, groups, n, maxProbes, IdsOfSize(groups, s));
      if t.left != [] {
        assert LeftAtSize(b, groups, n, k, s, s, t.left[0]);
      } else {
        GreedyMeans(t.table, groups, n, maxProbes, smaller);
        if z, g :| LeftAtSize(b, groups, n, k, s, z, g) {
          assert LeftAtSize(t.table, groups, n, k, smaller, z, g);
        }
        if z, g :| LeftAtSize(t.table, groups, n, k, smaller, z, g) {
          assert LeftAtSize(b, groups, n, k, s, z, g);
        }
      }
    }
  }

  /** Such a bucket has the size, and fits under none of the probes when they have been tried. */
  lemma LeftAtSizeMisfits(b: seq<bool>, groups: seq<seq<Item>>, n: nat, k: nat, s: nat, z: nat, g: nat)
    requires n >= 1 && LeftAtSize(b, groups, n, k, s, z, g)
    ensures g < |groups| && |groups[g]| == z
    ensures Misfits(AfterSizes(b, groups, n, k, s, z - 1), groups, n, [g], k)
  {
    hide Misfits, AfterProbes, IdsOfSize, AfterSizes;
    var t0 := AfterSizes(b, groups, n, k, s, z);
    var t := AfterProbes(t0, groups, n, IdsOfSize(groups, z), k);
    LeftMisfit(t0, groups, n, IdsOfSize(groups, z), k);
    IdHasSize(groups, z, g);
    AfterSizesNext(b, groups, n, k, s, z);
    MarkedIsGrown(t.table, []);
    MisfitsOfOne(t.table, t.table, groups, n, t.left, g, k);
  }

  lemma {:induction false} AfterSizesNext(b: seq<bool>, groups: seq<seq<Item>>, n: nat, k: nat, s: nat, z: nat)
    requires n >= 1 && 1 <= z <= s
    ensures AfterSizes(b, groups, n, k, s, z - 1)
            == AfterProbes(AfterSizes(b, groups, n, k, s, z), groups, n, IdsOfSize(groups, z), k).table
    decreases s
  {
    hide AfterProbes, IdsOfSize;
    if z < s {
      AfterSizesNext(AfterProbes(b, groups, n, IdsOfSize(groups, s), k).table, groups, n, k, s - 1, z);
    }
  }
}
