/**
 Two-bit numbers, four to a byte (the GETVALUE and SETVALUE macros of bitbool.h).
 */
module TwoBits {
  import opened Words

  /** A `cmph_uint8` used as a bit string, least significant bit first */
  type Byte = b: seq<bool> | |b| == 8 witness seq(8, _ => false)

  const UNASSIGNED: nat := 3

  /** GETVALUE */
  function GetValue(g: seq<Byte>, i: nat): (v: nat)
    requires i < 4 * |g|
    ensures v < 4 && v == Values(g)[i]
  {
    var field := And(Shr(g[i / 4], 2 * (i % 4)), Mask(8, 2));
    FieldValue(g[i / 4], i % 4);
    Value(field)
  }

  /** The number that the `k`-th pair of bits of a byte denotes */
  function PairValue(b: Byte, k: nat): (v: nat)
    requires k < 4
    ensures v < 4
  {
    (if b[2 * k] then 1 else 0) + (if b[2 * k + 1] then 2 else 0)
  }

  lemma FieldValue(b: Byte, k: nat)
    requires k < 4
    ensures Value(And(Shr(b, 2 * k), Mask(8, 2))) == PairValue(b, k)
  {
    var field := And(Shr(b, 2 * k), Mask(8, 2));
    ValueOfLow(field, 2);
    assert field[..2][1..] == [field[1]];
    assert Value([field[1]]) == if field[1] then 1 else 0;
  }

  /** All the numbers of a table */
  function Values(g: seq<Byte>): (vals: seq<nat>)
    ensures |vals| == 4 * |g|
    ensures forall i :: 0 <= i < |vals| ==> vals[i] < 4
  {
    seq<nat>(4 * |g|, i requires 0 <= i < 4 * |g| => PairValue(g[i / 4], i % 4))
  }

  /** A byte of `valuemask`: all ones but for the `k`-th pair */
  function ValueMask(k: nat): Byte
    requires k < 4
  {
    Not(Shl(Mask(8, 2), 2 * k))
  }

  /** `v << (2 * k)` in a byte */
  function ShiftedValue(v: nat, k: nat): Byte
    requires v < 4 && k < 4
  {
    Shl(ToBits(v, 8), 2 * k)
  }

  lemma ShiftedBits(v: nat, k: nat)
    requires v < 4 && k < 4
    ensures forall j :: 0 <= j < 8 ==> ShiftedValue(v, k)[j] ==
                                       ((j == 2 * k && v % 2 == 1) || (j == 2 * k + 1 && v / 2 == 1))
  {
    var bits := ToBits(v, 8);
    assert bits[0] == (v % 2 == 1) && bits[1] == (v / 2 % 2 == 1);
    assert v < Pow2(2);
    forall j | 2 <= j < 8
      ensures !bits[j]
    {
      Pow2Monotone(2, j);
      ToBitsHighZero(v, 8, j);
    }
  }

  /** The bits that both numbers have */
  function Anded(x: nat, y: nat): (r: nat)
    requires x < 4 && y < 4
    ensures r < 4
    ensures x == UNASSIGNED ==> r == y
    ensures y == UNASSIGNED ==> r == x
  {
    (if x % 2 == 1 && y % 2 == 1 then 1 else 0) + (if x / 2 == 1 && y / 2 == 1 then 2 else 0)
  }

  /** The bits that one of the numbers has */
  function Ored(x: nat, y: nat): (r: nat)
    requires x < 4 && y < 4
    ensures r < 4
    ensures x == 0 ==> r == y
    ensures y == 0 ==> r == x
  {
    (if x % 2 == 1 || y % 2 == 1 then 1 else 0) + (if x / 2 == 1 || y / 2 == 1 then 2 else 0)
  }

  /** SETVALUE1 masks the value in, so it stores it only where all bits are still set; `UNASSIGNED` changes nothing. */
  method SetValue1(g: array<Byte>, i: nat, v: nat)
    requires i < 4 * g.Length && v < 4
    modifies g
    ensures Values(g[..]) == old(Values(g[..]))[i := Anded(old(Values(g[..])[i]), v)]
  {
    ghost var before := g[..];
    g[i / 4] := And(g[i / 4], Or(ShiftedValue(v, i % 4), ValueMask(i % 4)));
    ghost var byte := And(before[i / 4], Or(ShiftedValue(v, i % 4), ValueMask(i % 4)));
    assert g[..] == before[i / 4 := byte];
    MaskedIn(before[i / 4], i % 4, v);
    ByteReplaced(before, i, byte, v);
  }

  /** SETVALUE0 ors the value in, which stores it where all bits are still clear. */
  method SetValue0(g: array<Byte>, i: nat, v: nat)
    requires i < 4 * g.Length && v < 4
    modifies g
    ensures Values(g[..]) == old(Values(g[..]))[i := Ored(old(Values(g[..])[i]), v)]
  {
    ghost var before := g[..];
    g[i / 4] := Or(g[i / 4], ShiftedValue(v, i % 4));
    ghost var byte := Or(before[i / 4], ShiftedValue(v, i % 4));
    assert g[..] == before[i / 4 := byte];
    OredIn(before[i / 4], i % 4, v);
    ByteReplaced(before, i, byte, v);
  }

  lemma MaskedIn(b: Byte, k: nat, v: nat)
    requires k < 4 && v < 4
    ensures var r: Byte := And(b, Or(ShiftedValue(v, k), ValueMask(k)));
            && PairValue(r, k) == Anded(PairValue(b, k), v)
            && forall j :: 0 <= j < 4 && j != k ==> PairValue(r, j) == PairValue(b, j)
  {
    ShiftedBits(v, k);
    MaskBits(k);
    hide ShiftedValue, ValueMask;
    var r: Byte := And(b, Or(ShiftedValue(v, k), ValueMask(k)));
    assert forall j :: 0 <= j < 8 ==> r[j] == (b[j] && (ShiftedValue(v, k)[j] || ValueMask(k)[j]));
    hide And, Or;
    assert forall j :: 0 <= j < 8 && j != 2 * k && j != 2 * k + 1 ==> r[j] == b[j];
  }

  lemma MaskBits(k: nat)
    requires k < 4
    ensures forall j :: 0 <= j < 8 ==> ValueMask(k)[j] == (j != 2 * k && j != 2 * k + 1)
  {
  }

  lemma OredIn(b: Byte, k: nat, v: nat)
    requires k < 4 && v < 4
    ensures var r: Byte := Or(b, ShiftedValue(v, k));
            && PairValue(r, k) == Ored(PairValue(b, k), v)
            && forall j :: 0 <= j < 4 && j != k ==> PairValue(r, j) == PairValue(b, j)
  {
    ShiftedBits(v, k);
  }

  lemma ByteReplaced(g: seq<Byte>, i: nat, byte: Byte, v: nat)
    requires i < 4 * |g| && v < 4
    requires forall j :: 0 <= j < 4 && j != i % 4 ==> PairValue(byte, j) == PairValue(g[i / 4], j)
    ensures Values(g[i / 4 := byte]) == Values(g)[i := PairValue(byte, i % 4)]
  {
    var g' := g[i / 4 := byte];
    forall q | 0 <= q < 4 * |g|
      ensures Values(g')[q] == Values(g)[i := PairValue(byte, i % 4)][q]
    {
      if q / 4 == i / 4 && q != i {
        assert q % 4 != i % 4;
      }
    }
  }

  /** `bdz_lookup_table`: how many of the four numbers of a byte are assigned */
  function AssignedLookup(b: Byte): (n: nat)
    ensures n <= 4
  {
    (if PairValue(b, 0) != UNASSIGNED then 1 else 0) + (if PairValue(b, 1) != UNASSIGNED then 1 else 0)
    + (if PairValue(b, 2) != UNASSIGNED then 1 else 0) + (if PairValue(b, 3) != UNASSIGNED then 1 else 0)
  }

  /** A table of `(n + 3) / 4` bytes with every bit set (`memset` with 0xff) or clear (`calloc`) */
  method NewTable(n: nat, bit: bool) returns (g: array<Byte>)
    ensures fresh(g) && g.Length == (n + 3) / 4
    ensures Values(g[..]) == seq<nat>(4 * g.Length, _ => if bit then UNASSIGNED else 0)
  {
    g := new Byte[(n + 3) / 4](_ => seq(8, _ => bit));
    forall i | 0 <= i < 4 * g.Length
      ensures Values(g[..])[i] == if bit then UNASSIGNED else 0
    {
      assert g[..][i / 4] == seq(8, _ => bit);
    }
  }
}
