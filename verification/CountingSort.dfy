/**
 Stable counting sort, as the mapping and ordering steps of the construction
 algorithms do it: class `c` owns the slots from `CountRange(cls, lo, c)` on, and the
 elements of a class go there in their order.
 */
module CountingSort {

  /** The elements of `src`, among the first `k`, whose class is `c`, in order. */
  function Picked<T>(src: seq<T>, cls: seq<nat>, c: nat, k: nat): (r: seq<T>)
    requires k <= |cls| == |src|
    ensures |r| <= k
  {
    if k == 0 then [] else Picked(src, cls, c, k - 1) + (if cls[k - 1] == c then [src[k - 1]] else [])
  }

  /** How many of the first `k` elements have a class in `[lo, hi)`. */
  function CountRange(cls: seq<nat>, lo: nat, hi: nat, k: nat): (n: nat)
    requires k <= |cls|
    ensures n <= k
  {
    if k == 0 then 0
    else CountRange(cls, lo, hi, k - 1) + (if lo <= cls[k - 1] < hi then 1 else 0)
  }

  lemma {:induction false} CountRangeNext<T>(src: seq<T>, cls: seq<nat>, lo: nat, c: nat, k: nat)
    requires k <= |cls| == |src| && lo <= c
    ensures CountRange(cls, lo, c + 1, k) == CountRange(cls, lo, c, k) + |Picked(src, cls, c, k)|
  {
    if k != 0 {
      CountRangeNext(src, cls, lo, c, k - 1);
    }
  }

  lemma {:induction false} CountRangeEmpty(cls: seq<nat>, lo: nat, k: nat)
    requires k <= |cls|
    ensures CountRange(cls, lo, lo, k) == 0
  {
    if k != 0 {
      CountRangeEmpty(cls, lo, k - 1);
    }
  }

  lemma {:induction false} CountRangeMonotone(cls: seq<nat>, lo: nat, c: nat, d: nat, k: nat)
    requires k <= |cls| && c <= d
    ensures CountRange(cls, lo, c, k) <= CountRange(cls, lo, d, k)
  {
    if k != 0 {
      CountRangeMonotone(cls, lo, c, d, k - 1);
    }
  }

  lemma {:induction false} CountRangeAll(cls: seq<nat>, lo: nat, hi: nat, k: nat)
    requires k <= |cls| && forall i :: 0 <= i < k ==> lo <= cls[i] < hi
    ensures CountRange(cls, lo, hi, k) == k
  {
    if k != 0 {
      CountRangeAll(cls, lo, hi, k - 1);
    }
  }

  lemma {:induction false} PickedGrows<T>(src: seq<T>, cls: seq<nat>, c: nat, j: nat, k: nat)
    requires j <= k <= |cls| == |src|
    ensures Picked(src, cls, c, j) <= Picked(src, cls, c, k)
  {
    if j < k {
      PickedGrows(src, cls, c, j, k - 1);
    }
  }

  /** An element stands in its class, after those of its class that came before it. */
  lemma PickedAt<T>(src: seq<T>, cls: seq<nat>, i: nat, k: nat)
    requires i < k <= |cls| == |src|
    ensures |Picked(src, cls, cls[i], i)| < |Picked(src, cls, cls[i], k)|
    ensures Picked(src, cls, cls[i], k)[|Picked(src, cls, cls[i], i)|] == src[i]
  {
    PickedGrows(src, cls, cls[i], i + 1, k);
  }

  /** Every element of a class comes from somewhere. */
  lemma {:induction false} PickedSource<T>(src: seq<T>, cls: seq<nat>, c: nat, k: nat, t: nat) returns (i: nat)
    requires k <= |cls| == |src| && t < |Picked(src, cls, c, k)|
    ensures i < k && cls[i] == c && src[i] == Picked(src, cls, c, k)[t]
    ensures |Picked(src, cls, c, i)| == t
  {
    if t < |Picked(src, cls, c, k - 1)| {
      i := PickedSource(src, cls, c, k - 1, t);
    } else {
      i := k - 1;
    }
  }

  /** The length of a class does not depend on what is sorted. */
  lemma {:induction false} PickedLength<S, T>(src: seq<S>, src': seq<T>, cls: seq<nat>, c: nat, k: nat)
    requires k <= |cls| == |src| == |src'|
    ensures |Picked(src, cls, c, k)| == |Picked(src', cls, c, k)|
  {
    if k != 0 {
      PickedLength(src, src', cls, c, k - 1);
    }
  }

  /** The first slot of a class. */
  function Start(cls: seq<nat>, lo: nat, c: nat): (p: nat)
    ensures p <= |cls|
  {
    CountRange(cls, lo, c, |cls|)
  }

  lemma StartNext<T>(src: seq<T>, cls: seq<nat>, lo: nat, c: nat)
    requires |cls| == |src| && lo <= c
    ensures Start(cls, lo, c + 1) == Start(cls, lo, c) + |Picked(src, cls, c, |cls|)|
  {
    CountRangeNext(src, cls, lo, c, |cls|);
  }

  /** The slots of two classes do not overlap. */
  lemma StartsApart<T>(src: seq<T>, cls: seq<nat>, lo: nat, c: nat, d: nat)
    requires |cls| == |src| && lo <= c < d
    ensures Start(cls, lo, c) + |Picked(src, cls, c, |cls|)| <= Start(cls, lo, d)
  {
    StartNext(src, cls, lo, c);
    CountRangeMonotone(cls, lo, c + 1, d, |cls|);
  }

  /** The slots of class `c` start with those of the first `k` elements that belong there. */
  ghost predicate ClassFilled<T>(out: seq<T>, src: seq<T>, cls: seq<nat>, lo: nat, c: nat, k: nat)
    requires k <= |cls| == |src|
  {
    var start := Start(cls, lo, c);
    var picked := Picked(src, cls, c, k);
    start + |picked| <= |out| && out[start..start + |picked|] == picked
  }

  /** The first `k` elements are in their slots. */
  ghost predicate Filled<T>(out: seq<T>, src: seq<T>, cls: seq<nat>, lo: nat, hi: nat, k: nat)
    requires k <= |cls| == |src|
  {
    forall c :: lo <= c < hi ==> ClassFilled(out, src, cls, lo, c, k)
  }

  lemma FilledNone<T>(out: seq<T>, src: seq<T>, cls: seq<nat>, lo: nat, hi: nat)
    requires |cls| == |src| && Start(cls, lo, hi) <= |out|
    ensures Filled(out, src, cls, lo, hi, 0)
  {
    forall c | lo <= c < hi
      ensures ClassFilled(out, src, cls, lo, c, 0)
    {
      CountRangeMonotone(cls, lo, c, hi, |cls|);
    }
  }

  /** The slot for element `k` is inside the slots of its class. */
  lemma SlotInRange<T>(src: seq<T>, cls: seq<nat>, lo: nat, hi: nat, k: nat)
    requires k < |cls| == |src| && lo <= cls[k] < hi
    ensures Start(cls, lo, cls[k]) + |Picked(src, cls, cls[k], k)| < Start(cls, lo, hi)
  {
    PickedAt(src, cls, k, |cls|);
    StartNext(src, cls, lo, cls[k]);
    CountRangeMonotone(cls, lo, cls[k] + 1, hi, |cls|);
  }

  lemma OwnClassFilled<T>(out: seq<T>, src: seq<T>, cls: seq<nat>, lo: nat, c: nat, k: nat)
    requires k < |cls| == |src| && cls[k] == c
    requires ClassFilled(out, src, cls, lo, c, k)
    requires Start(cls, lo, c) + |Picked(src, cls, c, k)| < |out|
    ensures ClassFilled(out[Start(cls, lo, c) + |Picked(src, cls, c, k)| := src[k]], src, cls, lo, c, k + 1)
  {
    var start, picked := Start(cls, lo, c), Picked(src, cls, c, k);
    var out' := out[start + |picked| := src[k]];
    assert out'[start..start + |picked| + 1] == out[start..start + |picked|] + [src[k]];
  }

  lemma OtherClassFilled<T>(out: seq<T>, src: seq<T>, cls: seq<nat>, lo: nat, c: nat, k: nat, slot: nat, x: T)
    requires k < |cls| == |src| && cls[k] != c
    requires ClassFilled(out, src, cls, lo, c, k)
    requires slot < |out|
    requires slot < Start(cls, lo, c) || Start(cls, lo, c) + |Picked(src, cls, c, k)| <= slot
    ensures ClassFilled(out[slot := x], src, cls, lo, c, k + 1)
  {
  }

  /** Putting element `k` in the next slot of its class fills one more. */
  lemma FilledNext<T>(out: seq<T>, src: seq<T>, cls: seq<nat>, lo: nat, hi: nat, k: nat)
    requires k < |cls| == |src| && Start(cls, lo, hi) <= |out|
    requires Filled(out, src, cls, lo, hi, k) && lo <= cls[k] < hi
    ensures Start(cls, lo, cls[k]) + |Picked(src, cls, cls[k], k)| < |out|
    ensures Filled(out[Start(cls, lo, cls[k]) + |Picked(src, cls, cls[k], k)| := src[k]], src, cls, lo, hi, k + 1)
  {
    var slot := Start(cls, lo, cls[k]) + |Picked(src, cls, cls[k], k)|;
    SlotInRange(src, cls, lo, hi, k);
    PickedAt(src, cls, k, |cls|);
    var out', next := out[slot := src[k]], k + 1;
    forall c | lo <= c < hi
      ensures ClassFilled(out', src, cls, lo, c, next)
    {
      assert ClassFilled(out, src, cls, lo, c, k);
      if c == cls[k] {
        OwnClassFilled(out, src, cls, lo, c, k);
      } else {
        PickedGrows(src, cls, c, k, |cls|);
        if c < cls[k] {
          StartsApart(src, cls, lo, c, cls[k]);
        } else {
          StartsApart(src, cls, lo, cls[k], c);
        }
        OtherClassFilled(out, src, cls, lo, c, k, slot, src[k]);
      }
    }
  }

  /** An element of no class leaves everything as it is. */
  lemma FilledSkip<T>(out: seq<T>, src: seq<T>, cls: seq<nat>, lo: nat, hi: nat, k: nat)
    requires k < |cls| == |src|
    requires Filled(out, src, cls, lo, hi, k) && !(lo <= cls[k] < hi)
    ensures Filled(out, src, cls, lo, hi, k + 1)
  {
    var next := k + 1;
    forall c | lo <= c < hi
      ensures ClassFilled(out, src, cls, lo, c, next)
    {
      assert ClassFilled(out, src, cls, lo, c, k);
    }
  }
}
