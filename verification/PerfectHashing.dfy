/**
 From a perfect hash function to a minimal one: when every key has a slot of its own,
 the number of taken slots below it is its number among the keys.
 */
module PerfectHashing {
  import opened Words
  import opened Counting
  import opened Select

  /** Every key has a slot of its own, and no other slots are taken. */
  ghost predicate PerfectlyHashed(b: seq<bool>, slots: seq<nat>) {
    && Distinct(slots)
    && (forall i :: 0 <= i < |slots| ==> slots[i] < |b| && b[slots[i]])
    && (forall k :: 0 <= k < |b| && b[k] ==> k in slots)
  }

  /** The number of taken slots below slot `k`. */
  function TakenBelow(b: seq<bool>, k: nat): (v: nat)
    requires k <= |b|
  {
    Ones(b[..k])
  }

  /** The values of the keys are all different, and are exactly the numbers below their count. */
  ghost predicate MinimalPerfect(values: seq<nat>) {
    && Distinct(values)
    && (forall i :: 0 <= i < |values| ==> values[i] < |values|)
    && (forall r :: 0 <= r < |values| ==> r in values)
  }

  lemma {:induction false} OnesOfSet(b: seq<bool>, s: set<nat>)
    requires forall k: nat :: k in s <==> k < |b| && b[k]
    ensures |s| == Ones(b)
  {
    if b != [] {
      var last := |b| - 1;
      OnesOfSet(b[..last], s - {last});
    } else {
      assert s == {};
    }
  }

  /** As many slots are taken as there are keys. */
  lemma TakenSlots(b: seq<bool>, slots: seq<nat>)
    requires PerfectlyHashed(b, slots)
    ensures Ones(b) == |slots|
  {
    ElementsCount(slots);
    OnesOfSet(b, Elements(slots));
  }

  lemma {:induction false} NthOneExists(b: seq<bool>, r: nat) returns (p: nat)
    requires r < Ones(b)
    ensures IsNthOne(b, p, r)
  {
    var rest := b[..|b| - 1];
    if r < Ones(rest) {
      p := NthOneExists(rest, r);
      assert b[..p] == rest[..p];
    } else {
      p := |b| - 1;
    }
  }

  /** Ranking the slots of the keys maps the keys one-to-one onto 0, 1, ... up to their number. */
  lemma RanksAreMinimalPerfect(b: seq<bool>, slots: seq<nat>, values: seq<nat>)
    requires PerfectlyHashed(b, slots) && |values| == |slots|
    requires forall i :: 0 <= i < |slots| ==> values[i] == TakenBelow(b, slots[i])
    ensures MinimalPerfect(values)
  {
    TakenSlots(b, slots);
    forall i | 0 <= i < |values|
      ensures values[i] < |values|
    {
      RankBelow(b, slots[i]);
    }
    forall i, j | 0 <= i < j < |values|
      ensures values[i] != values[j]
    {
      if values[i] == values[j] {
        NthOneUnique(b, slots[i], slots[j], values[i]);
      }
    }
    forall r | 0 <= r < |values|
      ensures r in values
    {
      var p := NthOneExists(b, r);
      var i :| 0 <= i < |slots| && slots[i] == p;
      assert values[i] == r;
    }
  }

  lemma RankBelow(b: seq<bool>, k: nat)
    requires k < |b| && b[k]
    ensures TakenBelow(b, k) < Ones(b)
  {
    OnesStep(b, k);
    OnesSplit(b, k + 1, |b|);
    assert b[..|b|] == b;
  }

  /** For any slot, the rank is at most the number of keys; it is that number
      exactly when no taken slot lies at or above it. */
  lemma RankRange(b: seq<bool>, slots: seq<nat>, k: nat)
    requires PerfectlyHashed(b, slots) && k <= |b|
    ensures TakenBelow(b, k) <= |slots|
    ensures TakenBelow(b, k) < |slots| <==> exists j :: k <= j < |b| && b[j]
  {
    TakenSlots(b, slots);
    OnesSplit(b, k, |b|);
    assert b[..|b|] == b;
    if j :| k <= j < |b| && b[j] {
      RankBelow(b, j);
      OnesSplit(b, k, j);
    } else {
      assert b[k..|b|] == Zeros(|b| - k);
      OnesOfZeros(|b| - k);
    }
  }
}
