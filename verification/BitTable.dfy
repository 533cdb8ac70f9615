/**
 Bit fields packed into tables of 32-bit words (bitbool.h). A field may straddle
 two words. Every operation is specified on the flat bit string of the table.
 */
module BitTable {
  import opened Words

  /** The bits of a table, word after word. */
  function Bits(t: seq<Word>): (b: seq<bool>)
    ensures |b| == 32 * |t|
  {
    seq(32 * |t|, k requires 0 <= k < 32 * |t| => t[k / 32][k % 32])
  }

  /** `BITS_TABLE_SIZE` and the `(bits + 31) >> 5` of the callers: words needed for some bits. */
  function WordsFor(bits: nat): (n: nat)
    ensures bits <= 32 * n < bits + 32
  {
    (bits + 31) / 32
  }

  // ---------- single bits ----------

  /** GETBIT32 */
  predicate GetBit32(t: seq<Word>, i: nat)
    requires i < 32 * |t|
    ensures GetBit32(t, i) == Bits(t)[i]
  {
    var masked := And(t[i / 32], OneBit(32, i % 32));
    MaskedBit(t[i / 32], i % 32);
    masked != Zeros(32)
  }

  lemma MaskedBit(w: Word, k: nat)
    requires k < 32
    ensures (And(w, OneBit(32, k)) != Zeros(32)) == w[k]
  {
    var masked := And(w, OneBit(32, k));
    assert masked[k] == w[k];
    if !w[k] {
      assert masked == Zeros(32);
    }
  }

  /** SETBIT32 */
  method SetBit32(t: array<Word>, i: nat)
    requires i < 32 * t.Length
    modifies t
    ensures Bits(t[..]) == old(Bits(t[..]))[i := true]
  {
    ghost var before := t[..];
    t[i / 32] := Or(t[i / 32], OneBit(32, i % 32));
    assert t[..] == before[i / 32 := Or(before[i / 32], OneBit(32, i % 32))];
  }

  /** UNSETBIT32 flips the bit, so it clears only a bit that is set. */
  method UnsetBit32(t: array<Word>, i: nat)
    requires i < 32 * t.Length
    modifies t
    ensures Bits(t[..]) == old(Bits(t[..]))[i := !old(Bits(t[..]))[i]]
  {
    ghost var before := t[..];
    t[i / 32] := Xor(t[i / 32], OneBit(32, i % 32));
    assert t[..] == before[i / 32 := Xor(before[i / 32], OneBit(32, i % 32))];
  }

  // ---------- fields of up to 31 bits ----------

  /** The common body of `get_bits_at_pos` and `get_bits_value`. */
  function GetField(t: seq<Word>, pos: nat, len: nat, mask: Word): (r: Word)
    requires 1 <= len <= 31 && pos + len <= 32 * |t|
    requires mask == Mask(32, len)
    ensures r[..len] == Bits(t)[pos..pos + len]
    ensures r[len..] == Zeros(32 - len)
  {
    var wordIdx := pos / 32;
    var shift1 := pos % 32;
    var shift2 := 32 - shift1;
    var low := And(Shr(t[wordIdx], shift1), mask);
    if shift2 < len then
      Or(low, And(Shl(t[wordIdx + 1], shift2), mask))
    else
      low
  }

  /** `get_bits_at_pos`, as a number. */
  function GetBitsAtPos(t: seq<Word>, pos: nat, len: nat): (x: Uint32)
    requires 1 <= len <= 31 && pos + len <= 32 * |t|
    ensures x == Value(Bits(t)[pos..pos + len])
  {
    var r := GetField(t, pos, len, Mask(32, len));
    HighZeroValue(r, len);
    FromWord(r)
  }

  /** `get_bits_value`: the `index`-th field of a table of equal fields. */
  function GetBitsValue(t: seq<Word>, index: nat, len: nat, mask: Word): (x: Uint32)
    requires 1 <= len <= 31 && FieldPos(index, len) + len <= 32 * |t|
    requires mask == Mask(32, len)
    ensures x == Value(Bits(t)[FieldPos(index, len)..FieldPos(index, len) + len])
  {
    FieldPosIsProduct(index, len);
    var r := GetField(t, index * len, len, mask);
    HighZeroValue(r, len);
    FromWord(r)
  }

  lemma HighZeroValue(r: Word, len: nat)
    requires len <= 32 && r[len..] == Zeros(32 - len)
    ensures Value(r) == Value(r[..len])
  {
    HighBitsClear(r, len);
    ValueOfLow(r, len);
  }

  /** What `set_bits_*` leaves in the first word it touches. */
  function LowPart(w: Word, s: Word, mask: Word, shift1: nat): Word {
    Or(And(w, Not(Shl(mask, shift1))), Shl(s, shift1))
  }

  /** What `set_bits_*` leaves in the second word it touches. */
  function HighPart(w: Word, s: Word, mask: Word, shift2: nat): Word {
    Or(And(w, Not(Shr(mask, shift2))), Shr(s, shift2))
  }

  lemma HighBitsClear(s: Word, len: nat)
    requires len <= 32 && s[len..] == Zeros(32 - len)
    ensures forall i :: len <= i < 32 ==> !s[i]
  {
    forall i | len <= i < 32
      ensures !s[i]
    {
      assert s[i] == s[len..][i - len];
    }
  }

  lemma LowPartBits(w: Word, s: Word, len: nat, shift1: nat)
    requires len <= 31 && shift1 < 32 && s[len..] == Zeros(32 - len)
    ensures forall i :: 0 <= i < 32 ==> LowPart(w, s, Mask(32, len), shift1)[i] ==
                                        if shift1 <= i < shift1 + len then s[i - shift1] else w[i]
  {
    HighBitsClear(s, len);
  }

  lemma HighPartBits(w: Word, s: Word, len: nat, shift2: nat)
    requires len <= 31 && 1 <= shift2 < len && s[len..] == Zeros(32 - len)
    ensures forall i :: 0 <= i < 32 ==> HighPart(w, s, Mask(32, len), shift2)[i] ==
                                        if i < len - shift2 then s[i + shift2] else w[i]
  {
    HighBitsClear(s, len);
  }

  /** `t` with the two words of a field rewritten, as one value. */
  function WithField(t: seq<Word>, pos: nat, s: Word, len: nat): (r: seq<Word>)
    requires 1 <= len <= 31 && pos + len <= 32 * |t|
    ensures |r| == |t|
  {
    var k := pos / 32;
    var shift1 := pos % 32;
    var t1 := t[k := LowPart(t[k], s, Mask(32, len), shift1)];
    if 32 - shift1 < len then
      t1[k + 1 := HighPart(t1[k + 1], s, Mask(32, len), 32 - shift1)]
    else
      t1
  }

  lemma WithFieldBits(t: seq<Word>, pos: nat, s: Word, len: nat)
    requires 1 <= len <= 31 && pos + len <= 32 * |t|
    requires s[len..] == Zeros(32 - len)
    ensures Bits(WithField(t, pos, s, len)) == Replaced(Bits(t), pos, s[..len])
  {
    var k, shift1 := pos / 32, pos % 32;
    var r := WithField(t, pos, s, len);
    LowPartBits(t[k], s, len, shift1);
    if 32 - shift1 < len {
      HighPartBits(t[k + 1], s, len, 32 - shift1);
    }
    forall q | 0 <= q < 32 * |t|
      ensures Bits(r)[q] == Replaced(Bits(t), pos, s[..len])[q]
    {
      if q / 32 == k {
      } else if q / 32 == k + 1 {
      }
    }
  }

  /** The common body of `set_bits_at_pos` and `set_bits_value`. */
  method SetField(t: array<Word>, pos: nat, s: Word, len: nat, mask: Word)
    requires 1 <= len <= 31 && pos + len <= 32 * t.Length
    requires mask == Mask(32, len) && s[len..] == Zeros(32 - len)
    modifies t
    ensures Bits(t[..]) == Replaced(old(Bits(t[..])), pos, s[..len])
  {
    ghost var before := t[..];
    var wordIdx := pos / 32;
    var shift1 := pos % 32;
    var shift2 := 32 - shift1;
    t[wordIdx] := And(t[wordIdx], Not(Shl(mask, shift1)));
    t[wordIdx] := Or(t[wordIdx], Shl(s, shift1));
    if shift2 < len {
      t[wordIdx + 1] := And(t[wordIdx + 1], Not(Shr(mask, shift2)));
      t[wordIdx + 1] := Or(t[wordIdx + 1], Shr(s, shift2));
    }
    assert t[..] == WithField(before, pos, s, len);
    WithFieldBits(before, pos, s, len);
  }

  /** `set_bits_at_pos` */
  method SetBitsAtPos(t: array<Word>, pos: nat, x: Uint32, len: nat)
    requires 1 <= len <= 31 && pos + len <= 32 * t.Length
    requires x < Pow2(len)
    modifies t
    ensures Bits(t[..]) == Replaced(old(Bits(t[..])), pos, ToBits(x, len))
  {
    ToWordParts(x, len);
    SetField(t, pos, ToWord(x), len, Mask(32, len));
  }

  /** `set_bits_value` */
  method SetBitsValue(t: array<Word>, index: nat, x: Uint32, len: nat, mask: Word)
    requires 1 <= len <= 31 && FieldPos(index, len) + len <= 32 * t.Length
    requires x < Pow2(len) && mask == Mask(32, len)
    modifies t
    ensures Bits(t[..]) == Replaced(old(Bits(t[..])), FieldPos(index, len), ToBits(x, len))
  {
    FieldPosIsProduct(index, len);
    ToWordParts(x, len);
    SetField(t, index * len, ToWord(x), len, mask);
  }

  lemma ToWordParts(x: Uint32, len: nat)
    requires len <= 32 && x < Pow2(len)
    ensures ToWord(x)[..len] == ToBits(x, len)
    ensures ToWord(x)[len..] == Zeros(32 - len)
  {
    ToBitsMasked(x, 32, len);
    LowBitsSmall(x, len);
    forall i | len <= i < 32
      ensures !ToWord(x)[i]
    {
      Pow2Monotone(len, i);
      ToBitsHighZero(x, 32, i);
    }
  }

  /** A field reads back as the number written there. */
  lemma FieldRoundTrip(b: seq<bool>, pos: nat, x: nat, len: nat)
    requires x < Pow2(len) && pos + len <= |b|
    ensures Value(Replaced(b, pos, ToBits(x, len))[pos..pos + len]) == x
  {
    assert Replaced(b, pos, ToBits(x, len))[pos..pos + len] == ToBits(x, len);
    ValueOfToBits(x, len);
  }

  /** Writing back what a field holds changes nothing. */
  lemma FieldPutBack(b: seq<bool>, pos: nat, len: nat)
    requires pos + len <= |b|
    ensures Replaced(b, pos, ToBits(Value(b[pos..pos + len]), len)) == b
  {
    ToBitsOfValue(b[pos..pos + len]);
  }

  /** Dropping the lowest bits shifts the number, and taking them leaves its low part. */
  lemma {:induction false} DropIsShift(b: seq<bool>, pos: nat)
    requires pos <= |b|
    ensures Value(b[pos..]) == ShiftRight(Value(b), pos)
  {
    if pos != 0 {
      DropIsShift(b[1..], pos - 1);
      assert b[pos..] == b[1..][pos - 1..];
    }
  }

  lemma {:induction false} TakeIsLowPart(b: seq<bool>, len: nat)
    requires len <= |b|
    ensures Value(b[..len]) == LowBits(Value(b), len)
  {
    if len != 0 {
      TakeIsLowPart(b[1..], len - 1);
      assert b[..len][1..] == b[1..][..len - 1];
    }
  }

  /** The table is one large number, lowest bit first, and a field of it is a quotient's rest. */
  lemma FieldIsQuotientRest(t: seq<Word>, pos: nat, len: nat)
    requires 1 <= len <= 31 && pos + len <= 32 * |t|
    ensures Pow2(pos) >= 1 && Pow2(len) >= 1
    ensures GetBitsAtPos(t, pos, len) == Value(Bits(t)) / Pow2(pos) % Pow2(len)
  {
    var b := Bits(t);
    DropIsShift(b, pos);
    TakeIsLowPart(b[pos..], len);
    assert b[pos..][..len] == b[pos..pos + len];
    ShiftIsDivision(Value(b), pos);
    ShiftIsDivision(ShiftRight(Value(b), pos), len);
  }

  /** A field that does not overlap the written one is unchanged. */
  lemma FieldUntouched(b: seq<bool>, pos: nat, field: seq<bool>, p: nat, len: nat)
    requires pos + |field| <= |b| && p + len <= |b|
    requires p + len <= pos || pos + |field| <= p
    ensures Replaced(b, pos, field)[p..p + len] == b[p..p + len]
  {
  }

  /** A fresh table from `calloc`. */
  method Calloc(n: nat) returns (t: array<Word>)
    ensures fresh(t) && t.Length == n
    ensures t[..] == seq(n, _ => Zeros(32))
    ensures Bits(t[..]) == Zeros(32 * n)
  {
    t := new Word[n](_ => Zeros(32));
    assert t[..] == seq(n, _ => Zeros(32));
  }

  /** A fresh table of `n` fields, `BITS_TABLE_SIZE(n, len)` words long. */
  method CallocFields(n: nat, len: nat) returns (t: array<Word>)
    ensures fresh(t) && t.Length == WordsFor(FieldPos(n, len))
    ensures Bits(t[..]) == Zeros(32 * t.Length)
  {
    FieldPosIsProduct(n, len);
    t := Calloc(WordsFor(n * len));
  }
}
