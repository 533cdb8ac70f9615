/**
 Machine words of the cmph library: 32-bit unsigned integers, and words seen as
 the sequence of their bits, least significant bit first.
 */
module Words {

  const WORD_LIMIT: int := 0x1_0000_0000

  /** A `cmph_uint32` used as a number. Assigning to one proves that nothing wrapped around. */
  type Uint32 = x: int | 0 <= x < WORD_LIMIT

  /** A `cmph_uint32` used as a bit string, least significant bit first. */
  type Word = w: seq<bool> | |w| == 32 witness seq(32, _ => false)

  // ---------- powers of two ----------

  function Pow2(n: nat): (p: nat)
    ensures p >= 1
  {
    if n == 0 then 1 else 2 * Pow2(n - 1)
  }

  lemma {:induction false} Pow2Add(a: nat, b: nat)
    ensures Pow2(a + b) == Pow2(a) * Pow2(b)
  {
    if a != 0 {
      Pow2Add(a - 1, b);
      assert Pow2(a + b) == 2 * Pow2(a - 1 + b);
      assert 2 * (Pow2(a - 1) * Pow2(b)) == (2 * Pow2(a - 1)) * Pow2(b);
    }
  }

  lemma {:induction false} Pow2Monotone(a: nat, b: nat)
    requires a <= b
    ensures Pow2(a) <= Pow2(b)
  {
    if a < b {
      Pow2Monotone(a, b - 1);
    }
  }

  lemma Pow2At32()
    ensures Pow2(32) == WORD_LIMIT
  {
    assert Pow2(8) == 256;
    Pow2Add(8, 8);
    Pow2Add(16, 16);
  }

  // ---------- bit strings and the numbers they denote ----------

  function Value(bits: seq<bool>): (v: nat)
  {
    if bits == [] then 0 else (if bits[0] then 1 else 0) + 2 * Value(bits[1..])
  }

  function ToBits(x: nat, len: nat): (bits: seq<bool>)
    ensures |bits| == len
  {
    if len == 0 then [] else [x % 2 == 1] + ToBits(x / 2, len - 1)
  }

  /** The 32 bits of a number. */
  function ToWord(x: Uint32): Word
  {
    ToBits(x, 32)
  }

  /** The number that a word denotes. */
  function FromWord(w: Word): (x: Uint32)
  {
    ValueBound(w);
    Pow2At32();
    Value(w)
  }

  lemma {:induction false} ValueBound(bits: seq<bool>)
    ensures Value(bits) < Pow2(|bits|)
  {
    if bits != [] {
      ValueBound(bits[1..]);
    }
  }

  lemma {:induction false} ValueOfToBits(x: nat, len: nat)
    requires x < Pow2(len)
    ensures Value(ToBits(x, len)) == x
  {
    if len != 0 {
      ValueOfToBits(x / 2, len - 1);
      assert ToBits(x, len)[1..] == ToBits(x / 2, len - 1);
    }
  }

  lemma {:induction false} ToBitsOfValue(bits: seq<bool>)
    ensures ToBits(Value(bits), |bits|) == bits
  {
    if bits != [] {
      ToBitsOfValue(bits[1..]);
      assert bits == [bits[0]] + bits[1..];
    }
  }

  /** A number that fits `len` bits has only zeros above them. */
  lemma {:induction false} ToBitsHighZero(x: nat, len: nat, k: nat)
    requires k < len
    requires x < Pow2(k)
    ensures !ToBits(x, len)[k]
  {
    if k != 0 {
      ToBitsHighZero(x / 2, len - 1, k - 1);
    }
  }

  lemma {:induction false} ValueOfZeros(bits: seq<bool>)
    requires forall i :: 0 <= i < |bits| ==> !bits[i]
    ensures Value(bits) == 0
  {
    if bits != [] {
      ValueOfZeros(bits[1..]);
    }
  }

  /** Dropping leading zeros (the high end) does not change the number. */
  lemma {:induction false} ValueOfLow(bits: seq<bool>, len: nat)
    requires len <= |bits|
    requires forall i :: len <= i < |bits| ==> !bits[i]
    ensures Value(bits) == Value(bits[..len])
  {
    if len == 0 {
      ValueOfZeros(bits);
    } else {
      ValueOfLow(bits[1..], len - 1);
      assert bits[..len][1..] == bits[1..][..len - 1];
    }
  }

  /** Writing a number into a word and reading the word gives the number back. */
  lemma WordRoundTrip(x: Uint32)
    ensures FromWord(ToWord(x)) == x
  {
    Pow2At32();
    ValueOfToBits(x, 32);
  }

  // ---------- the C operators on bit strings ----------

  /** `w << s`: bits pushed past the top are lost. */
  function Shl(w: seq<bool>, s: nat): (r: seq<bool>)
    ensures |r| == |w|
  {
    seq(|w|, i requires 0 <= i < |w| => s <= i && w[i - s])
  }

  /** `w >> s` on an unsigned word: zeros enter at the top. */
  function Shr(w: seq<bool>, s: nat): (r: seq<bool>)
    ensures |r| == |w|
  {
    seq(|w|, i requires 0 <= i < |w| => i + s < |w| && w[i + s])
  }

  function And(a: seq<bool>, b: seq<bool>): (r: seq<bool>)
    requires |a| == |b|
    ensures |r| == |a|
  {
    seq(|a|, i requires 0 <= i < |a| => a[i] && b[i])
  }

  function Or(a: seq<bool>, b: seq<bool>): (r: seq<bool>)
    requires |a| == |b|
    ensures |r| == |a|
  {
    seq(|a|, i requires 0 <= i < |a| => a[i] || b[i])
  }

  function Xor(a: seq<bool>, b: seq<bool>): (r: seq<bool>)
    requires |a| == |b|
    ensures |r| == |a|
  {
    seq(|a|, i requires 0 <= i < |a| => a[i] != b[i])
  }

  function Not(a: seq<bool>): (r: seq<bool>)
    ensures |r| == |a|
  {
    seq(|a|, i requires 0 <= i < |a| => !a[i])
  }

  /** `(1U << len) - 1U`: the `len` lowest bits set. */
  function Mask(width: nat, len: nat): (r: seq<bool>)
    ensures |r| == width
  {
    seq(width, i => i < len)
  }

  /** `1U << k`. */
  function OneBit(width: nat, k: nat): (r: seq<bool>)
    ensures |r| == width
  {
    seq(width, i => i == k)
  }

  function Zeros(width: nat): (r: seq<bool>)
    ensures |r| == width
  {
    seq(width, _ => false)
  }

  /** The mask is the number the C expression computes. */
  lemma {:induction false} MaskValue(width: nat, len: nat)
    requires len <= width
    ensures Value(Mask(width, len)) == Pow2(len) - 1
  {
    if len == 0 {
      ValueOfZeros(Mask(width, 0));
    } else {
      MaskValue(width - 1, len - 1);
      assert Mask(width, len)[1..] == Mask(width - 1, len - 1);
    }
  }

  /** The elements at `pos` replaced by others */
  function Replaced<T>(s: seq<T>, pos: nat, field: seq<T>): (r: seq<T>)
    requires pos + |field| <= |s|
    ensures |r| == |s|
  {
    s[..pos] + field + s[pos + |field|..]
  }

  // ---------- shifts of numbers ----------

  /** `x >> r` */
  function ShiftRight(x: nat, r: nat): (q: nat)
    ensures q <= x
  {
    if r == 0 then x else ShiftRight(x / 2, r - 1)
  }

  /** `x << r`, on unbounded numbers */
  function ShiftLeft(x: nat, r: nat): (y: nat)
    ensures y >= x
  {
    if r == 0 then x else 2 * ShiftLeft(x, r - 1)
  }

  /** `x & ((1U << r) - 1U)` */
  function LowBits(x: nat, r: nat): (y: nat)
    ensures y <= x && y < Pow2(r)
  {
    if r == 0 then 0 else 2 * LowBits(x / 2, r - 1) + x % 2
  }

  /** A number is its high part shifted back and its low part. */
  lemma {:induction false} ShiftAndLow(x: nat, r: nat)
    ensures x == ShiftLeft(ShiftRight(x, r), r) + LowBits(x, r)
  {
    if r != 0 {
      ShiftAndLow(x / 2, r - 1);
    }
  }

  lemma {:induction false} ShiftLeftAdd(x: nat, y: nat, r: nat)
    ensures ShiftLeft(x + y, r) == ShiftLeft(x, r) + ShiftLeft(y, r)
  {
    if r != 0 {
      ShiftLeftAdd(x, y, r - 1);
    }
  }

  lemma {:induction false} ShiftRightMonotone(x: nat, y: nat, r: nat)
    requires x <= y
    ensures ShiftRight(x, r) <= ShiftRight(y, r)
  {
    if r != 0 {
      ShiftRightMonotone(x / 2, y / 2, r - 1);
    }
  }

  lemma {:induction false} LowBitsSmall(x: nat, r: nat)
    requires x < Pow2(r)
    ensures LowBits(x, r) == x && ShiftRight(x, r) == 0
  {
    if r != 0 {
      LowBitsSmall(x / 2, r - 1);
    }
  }

  /** Shifting right divides by the power of two, and the low bits are the rest. */
  lemma {:induction false} ShiftIsDivision(x: nat, r: nat)
    ensures ShiftLeft(x, r) == x * Pow2(r)
    ensures ShiftRight(x, r) == x / Pow2(r)
    ensures LowBits(x, r) == x % Pow2(r)
  {
    ShiftLeftIsProduct(x, r);
    ShiftLeftIsProduct(ShiftRight(x, r), r);
    ShiftAndLow(x, r);
    DivModUnique(x, Pow2(r), ShiftRight(x, r), LowBits(x, r));
  }

  lemma {:induction false} ShiftLeftIsProduct(x: nat, r: nat)
    ensures ShiftLeft(x, r) == x * Pow2(r)
  {
    if r != 0 {
      ShiftLeftIsProduct(x, r - 1);
      assert 2 * (x * Pow2(r - 1)) == x * (2 * Pow2(r - 1));
    }
  }

  /** The lowest bits of a word are those of the masked number. */
  lemma {:induction false} ToBitsMasked(x: nat, width: nat, len: nat)
    requires len <= width
    ensures ToBits(x, width)[..len] == ToBits(LowBits(x, len), len)
  {
    if len != 0 {
      ToBitsMasked(x / 2, width - 1, len - 1);
      assert ToBits(x, width)[..len][1..] == ToBits(x / 2, width - 1)[..len - 1];
    }
  }

  // ---------- division by a variable ----------

  /** `x % d`, by repeated subtraction */
  function Mod(x: nat, d: nat): (r: nat)
    requires d >= 1
    ensures r < d && r <= x
  {
    if x < d then x else Mod(x - d, d)
  }

  /** `x / d` */
  function Div(x: nat, d: nat): (q: nat)
    requires d >= 1
    ensures q <= x
  {
    if x < d then 0 else 1 + Div(x - d, d)
  }

  lemma {:induction false} ModIsRemainder(x: nat, d: nat)
    requires d >= 1
    ensures Mod(x, d) == x % d && Div(x, d) == x / d
  {
    if x >= d {
      ModIsRemainder(x - d, d);
      var q, r := (x - d) / d, (x - d) % d;
      assert x == (q + 1) * d + r;
      DivModUnique(x, d, q + 1, r);
    } else {
      SmallModulo(x, d);
    }
  }

  lemma SmallModulo(x: nat, d: nat)
    requires x < d
    ensures x % d == x && x / d == 0
  {
  }

  lemma DivModUnique(x: int, d: int, q: int, r: int)
    requires d > 0 && 0 <= r < d && x == q * d + r
    ensures x / d == q && x % d == r
  {
    var q', r' := x / d, x % d;
    assert (q' - q) * d == r - r';
    if q < q' {
      MulAtLeast(q' - q, d);
    } else if q' < q {
      MulAtLeast(q - q', d);
    }
  }

  lemma MulAtLeast(k: int, d: int)
    requires k >= 1 && d > 0
    ensures k * d >= d
  {
  }

  // ---------- the start of a field in a table of equal fields ----------

  /** `index * len`, by repeated addition */
  function FieldPos(index: nat, len: nat): (pos: nat) {
    if index == 0 then 0 else FieldPos(index - 1, len) + len
  }

  lemma {:induction false} FieldPosIsProduct(index: nat, len: nat)
    ensures FieldPos(index, len) == index * len
  {
    if index != 0 {
      FieldPosIsProduct(index - 1, len);
      assert index * len == (index - 1) * len + len;
    }
  }

  lemma {:induction false} FieldPosMonotone(i: nat, j: nat, len: nat)
    requires i < j
    ensures FieldPos(i, len) + len <= FieldPos(j, len)
  {
    if i < j - 1 {
      FieldPosMonotone(i, j - 1, len);
    }
  }
}
