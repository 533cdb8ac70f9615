/**
 The select structure (select.c): `n` nondecreasing numbers, at most `m` each, as
 a string of `n` ones and up to `m` zeros. The `j`-th one stands at `keys[j] + j`,
 and a sampled index plus byte tables find it.
 */
module Select {
  import opened Words
  import opened BitTable

  const STEP_SELECT_TABLE: nat := 128

  // ---------- the plain bit scan that everything is measured against ----------

  /** The number of ones in a bit string. */
  function Ones(b: seq<bool>): (n: nat)
  {
    if b == [] then 0 else Ones(b[..|b| - 1]) + (if b[|b| - 1] then 1 else 0)
  }

  lemma {:induction false} OnesConcat(a: seq<bool>, b: seq<bool>)
    ensures Ones(a + b) == Ones(a) + Ones(b)
  {
    if b == [] {
      assert a + b == a;
    } else {
      OnesConcat(a, b[..|b| - 1]);
      assert (a + b)[..|a + b| - 1] == a + b[..|b| - 1];
    }
  }

  lemma {:induction false} OnesBound(b: seq<bool>)
    ensures Ones(b) <= |b|
  {
    if b != [] {
      OnesBound(b[..|b| - 1]);
    }
  }

  lemma {:induction false} OnesOfZeros(k: nat)
    ensures Ones(Zeros(k)) == 0
  {
    if k != 0 {
      OnesOfZeros(k - 1);
      assert Zeros(k)[..k - 1] == Zeros(k - 1);
    }
  }

  lemma OnesSplit(b: seq<bool>, p: nat, q: nat)
    requires p <= q <= |b|
    ensures Ones(b[..q]) == Ones(b[..p]) + Ones(b[p..q])
    ensures Ones(b[..p]) <= Ones(b[..q])
  {
    assert b[..q] == b[..p] + b[p..q];
    OnesConcat(b[..p], b[p..q]);
  }

  lemma OnesStep(b: seq<bool>, p: nat)
    requires p < |b|
    ensures Ones(b[..p + 1]) == Ones(b[..p]) + (if b[p] then 1 else 0)
  {
    assert b[..p + 1][..p] == b[..p];
  }

  /** Position `p` holds the one that has exactly `j` ones before it. */
  ghost predicate IsNthOne(b: seq<bool>, p: nat, j: nat) {
    p < |b| && b[p] && Ones(b[..p]) == j
  }

  lemma NthOneUnique(b: seq<bool>, p: nat, q: nat, j: nat)
    requires IsNthOne(b, p, j) && IsNthOne(b, q, j)
    ensures p == q
  {
    if p < q {
      OnesStep(b, p);
      OnesSplit(b, p + 1, q);
    } else if q < p {
      OnesStep(b, q);
      OnesSplit(b, q + 1, p);
    }
  }

  // ---------- the byte tables ----------

  /** Byte `k` of a word table, as `(cmph_uint8 *)` sees it on a little-endian machine. */
  function ByteAt(t: seq<Word>, k: nat): (b: seq<bool>)
    requires k < 4 * |t|
    ensures |b| == 8 && b == Bits(t)[8 * k..8 * k + 8]
  {
    t[k / 4][8 * (k % 4)..8 * (k % 4) + 8]
  }

  /** `rank_lookup_table` */
  function RankLookup(b: seq<bool>): (n: nat)
    requires |b| == 8
    ensures n == Ones(b) <= 8
  {
    OnesBound(b);
    Ones(b)
  }

  /** `select_lookup_table`: the position of the `k`-th one, or the escape value 255. */
  function SelectLookup(b: seq<bool>, k: nat): (p: nat)
    requires |b| <= 8
    ensures if k < Ones(b) then IsNthOne(b, p, k) else p == 255
  {
    if b == [] then
      255
    else
      var rest := b[..|b| - 1];
      var p := SelectLookup(rest, k);
      if p != 255 then
        assert b[..p] == rest[..p];
        p
      else if b[|b| - 1] && k == Ones(rest) then
        |b| - 1
      else
        255
  }

  /** The ones before the bit `k` of a byte, as the queries count them. */
  lemma RankLookupMasked(b: seq<bool>, k: nat)
    requires |b| == 8 && k < 8
    ensures Ones(And(b, Mask(8, k))) == Ones(b[..k])
  {
    var masked := And(b, Mask(8, k));
    assert masked == b[..k] + Zeros(8 - k);
    OnesConcat(b[..k], Zeros(8 - k));
    OnesOfZeros(8 - k);
  }

  /** The ones in the first `k` bytes of a table. */
  ghost function OnesBefore(t: seq<Word>, k: nat): nat
    requires k <= 4 * |t|
  {
    Ones(Bits(t)[..8 * k])
  }

  /** As long as some ones are left, there is a next byte to add. */
  lemma OnesOfByte(t: seq<Word>, k: nat)
    requires k <= 4 * |t| && OnesBefore(t, k) < Ones(Bits(t))
    ensures k < 4 * |t|
    ensures OnesBefore(t, k + 1) == OnesBefore(t, k) + Ones(ByteAt(t, k))
  {
    assert Bits(t)[..8 * (4 * |t|)] == Bits(t);
    OnesSplit(Bits(t), 8 * k, 8 * k + 8);
  }

  /** A one found inside byte `k` is the one it should be in the whole table. */
  lemma NthOneInByte(t: seq<Word>, k: nat, p: nat, j: nat)
    requires k < 4 * |t| && IsNthOne(ByteAt(t, k), p, j)
    ensures IsNthOne(Bits(t), p + 8 * k, OnesBefore(t, k) + j)
  {
    hide Ones;
    var b := Bits(t);
    OnesSplit(b, 8 * k, 8 * k + p);
    assert b[8 * k..8 * k + p] == ByteAt(t, k)[..p];
  }

  // ---------- what the structure stores ----------

  ghost predicate Nondecreasing(keys: seq<nat>) {
    forall i, j :: 0 <= i <= j < |keys| ==> keys[i] <= keys[j]
  }

  /** The bit string of the keys: the `j`-th one stands at `keys[j] + j`, and there are no other ones. */
  ghost predicate Encodes(b: seq<bool>, keys: seq<nat>) {
    && Ones(b) == |keys|
    && forall j :: 0 <= j < |keys| ==> IsNthOne(b, keys[j] + j, j)
  }

  /** The sampled index: entry `k` is the position of the one numbered `128 * k`. */
  ghost predicate Samples(table: seq<Word>, b: seq<bool>, n: nat) {
    forall k :: 0 <= k < |table| && STEP_SELECT_TABLE * k < n ==>
      IsNthOne(b, FromWord(table[k]), STEP_SELECT_TABLE * k)
  }

  // ---------- queries ----------

  /** The do-while loop of all three routines: add up bytes until one holds the one numbered `target`. */
  method SkipBytes(t: seq<Word>, byteIdx: nat, partSum: nat, target: nat, ghost base: nat)
    returns (byteIdx': nat, oldPartSum: nat, partSum': nat)
    requires byteIdx <= 4 * |t|
    requires base + partSum == OnesBefore(t, byteIdx) && partSum <= target
    requires base + target < Ones(Bits(t))
    ensures byteIdx < byteIdx' <= 4 * |t|
    ensures base + oldPartSum == OnesBefore(t, byteIdx' - 1) && base + partSum' == OnesBefore(t, byteIdx')
    ensures oldPartSum <= target < partSum' == oldPartSum + Ones(ByteAt(t, byteIdx' - 1)) <= oldPartSum + 8
  {
    byteIdx', partSum', oldPartSum := byteIdx, partSum, 0;
    while true
      invariant byteIdx <= byteIdx' <= 4 * |t|
      invariant base + partSum' == OnesBefore(t, byteIdx')
      invariant partSum' <= target
      decreases 4 * |t| - byteIdx'
    {
      oldPartSum := partSum';
      OnesOfByte(t, byteIdx');
      partSum' := partSum' + RankLookup(ByteAt(t, byteIdx'));
      byteIdx' := byteIdx' + 1;
      if partSum' > target {
        break;
      }
    }
  }

  /** The scan of both queries: from byte `start`, find the one numbered `target` counted from there. */
  method ScanBytes(t: seq<Word>, start: nat, target: nat) returns (p: nat)
    requires start <= 4 * |t|
    requires OnesBefore(t, start) + target < Ones(Bits(t))
    ensures IsNthOne(Bits(t), p, OnesBefore(t, start) + target)
  {
    hide Ones, OnesBefore, IsNthOne, RankLookup, SelectLookup;
    var byteIdx, oldPartSum, partSum := SkipBytes(t, start, 0, target, OnesBefore(t, start));
    p := SelectLookup(ByteAt(t, byteIdx - 1), target - oldPartSum);
    NthOneInByte(t, byteIdx - 1, p, target - oldPartSum);
    p := p + 8 * (byteIdx - 1);
  }

  /** `_select_query` */
  method QueryBits(bits: seq<Word>, table: seq<Word>, oneIdx: nat) returns (p: nat)
    requires oneIdx < Ones(Bits(bits))
    requires oneIdx / STEP_SELECT_TABLE < |table| && Samples(table, Bits(bits), Ones(Bits(bits)))
    ensures IsNthOne(Bits(bits), p, oneIdx)
  {
    var bitIdx := FromWord(table[oneIdx / STEP_SELECT_TABLE]);
    var byteIdx := bitIdx / 8;
    var target := oneIdx % STEP_SELECT_TABLE
    + RankLookup(And(ByteAt(bits, byteIdx), Mask(8, bitIdx % 8)));
    OnesBeforeBit(bits, bitIdx);
    p := ScanBytes(bits, byteIdx, target);
  }

  /** `_select_next_query` */
  method NextQueryBits(bits: seq<Word>, bitIdx: nat) returns (p: nat)
    requires bitIdx < 32 * |bits|
    requires Ones(Bits(bits)[..bitIdx]) + 1 < Ones(Bits(bits))
    ensures IsNthOne(Bits(bits), p, Ones(Bits(bits)[..bitIdx]) + 1)
  {
    var byteIdx := bitIdx / 8;
    var target := RankLookup(And(ByteAt(bits, byteIdx), Mask(8, bitIdx % 8))) + 1;
    OnesBeforeBit(bits, bitIdx);
    p := ScanBytes(bits, byteIdx, target);
  }

  lemma OnesBeforeBit(t: seq<Word>, p: nat)
    requires p < 32 * |t|
    ensures Ones(Bits(t)[..p]) ==
            OnesBefore(t, p / 8) + Ones(And(ByteAt(t, p / 8), Mask(8, p % 8)))
  {
    OnesBeforeBitOf(t, p / 8, p % 8);
  }

  lemma OnesBeforeBitOf(t: seq<Word>, k: nat, i: nat)
    requires k < 4 * |t| && i < 8
    ensures Ones(Bits(t)[..8 * k + i]) == OnesBefore(t, k) + Ones(And(ByteAt(t, k), Mask(8, i)))
  {
    hide Ones, And, Mask;
    OnesSplit(Bits(t), 8 * k, 8 * k + i);
    assert Bits(t)[8 * k..8 * k + i] == ByteAt(t, k)[..i];
    RankLookupMasked(ByteAt(t, k), i);
  }

  // ---------- construction ----------

  lemma SamplesMean(table: seq<Word>, b: seq<bool>, n: nat)
    requires Samples(table, b, n)
    ensures forall k :: 0 <= k < |table| && 128 * k < n ==> IsNthOne(b, FromWord(table[k]), 128 * k)
  {
  }

  /** The bits `w` are written: whole words in the table, the rest at the top of the shifting buffer. */
  ghost predicate Written(t: seq<Word>, buffer: Word, w: seq<bool>) {
    var full := |w| - |w| % 32;
    && |w| <= 32 * |t|
    && Bits(t)[..full] == w[..full]
    && Bits(t)[full..] == Zeros(32 * |t| - full)
    && buffer[32 - |w| % 32..] == w[full..]
  }

  /** `select_insert_0` and `select_insert_1` */
  function PushBit(buffer: Word, bit: bool): (r: Word)
    ensures r == buffer[1..] + [bit]
  {
    var shifted := Shr(buffer, 1);
    var r := if bit then Or(shifted, OneBit(32, 31)) else shifted;
    assert r == buffer[1..] + [bit];
    r
  }

  lemma PartialBuffer(t: seq<Word>, buffer: Word, w: seq<bool>, bit: bool)
    requires |w| < 32 * |t| && Written(t, buffer, w) && (|w| + 1) % 32 != 0
    ensures Written(t, PushBit(buffer, bit), w + [bit])
  {
    hide Bits, PushBit, Zeros;
    var r := |w| % 32;
    var full := |w| - r;
    assert (|w| + 1) % 32 == r + 1;
    assert (w + [bit])[..full] == w[..full];
    assert (w + [bit])[full..] == w[full..] + [bit];
    assert (buffer[1..] + [bit])[32 - (r + 1)..] == buffer[32 - r..] + [bit];
  }

  lemma FullBuffer(t: seq<Word>, buffer: Word, w: seq<bool>, bit: bool)
    requires |w| < 32 * |t| && Written(t, buffer, w) && (|w| + 1) % 32 == 0
    ensures Written(t[|w| / 32 := PushBit(buffer, bit)], PushBit(buffer, bit), w + [bit])
  {
    var full := |w| - |w| % 32;
    var word := PushBit(buffer, bit);
    assert |w| % 32 == 31 && full == 32 * (|w| / 32) && full + 32 == |w| + 1;
    assert w + [bit] == w[..full] + word by {
      assert w == w[..full] + w[full..];
      assert word == w[full..] + [bit];
    }
    StoreWord(t, |w| / 32, word);
    var b := Bits(t);
    var b' := Replaced(b, full, word);
    assert b'[..full + 32] == b[..full] + word;
    assert b'[full + 32..] == b[full..][32..];
    assert b[full..][32..] == Zeros(32 * |t| - full - 32);
  }

  lemma StoreWord(t: seq<Word>, k: nat, x: Word)
    requires k < |t|
    ensures Bits(t[k := x]) == Replaced(Bits(t), 32 * k, x)
  {
    var r := Bits(t[k := x]);
    forall q | 0 <= q < 32 * |t|
      ensures r[q] == Replaced(Bits(t), 32 * k, x)[q]
    {
    }
  }

  /** The store after the loop: the unfinished word, shifted down into place. */
  method FlushBuffer(t: array<Word>, buffer: Word, idx: nat, ghost w: seq<bool>)
    requires idx == |w| <= 32 * t.Length
    requires Written(t[..], buffer, w)
    modifies t
    ensures Bits(t[..]) == w + Zeros(32 * t.Length - |w|)
  {
    ghost var before := t[..];
    if idx % 32 != 0 {
      var last := Shr(buffer, 32 - idx % 32);
      t[(idx - 1) / 32] := last;
      StoreWord(before, idx / 32, last);
      assert t[..] == before[idx / 32 := last];
      assert last == w[idx - idx % 32..] + Zeros(32 - idx % 32);
    } else {
      assert w[..idx] == w;
      assert Bits(before) == Bits(before)[..idx] + Bits(before)[idx..];
    }
  }

  /** The ones written so far stand where the keys say. */
  ghost predicate EncodesPrefix(w: seq<bool>, keys: seq<nat>, j: nat) {
    && j <= |keys|
    && Ones(w) == j
    && forall k :: 0 <= k < j ==> IsNthOne(w, keys[k] + k, k)
  }

  lemma EncodesAppend(w: seq<bool>, keys: seq<nat>, j: nat, bit: bool)
    requires EncodesPrefix(w, keys, j)
    requires bit ==> j < |keys| && keys[j] + j == |w|
    ensures EncodesPrefix(w + [bit], keys, if bit then j + 1 else j)
  {
    var w' := w + [bit];
    assert w'[..|w|] == w;
    forall k | 0 <= k < j
      ensures IsNthOne(w', keys[k] + k, k)
    {
      assert w'[..keys[k] + k] == w[..keys[k] + k];
    }
  }

  /** The state of the writing loop. */
  ghost predicate Writing(t: seq<Word>, buffer: Word, w: seq<bool>, keys: seq<nat>, j: nat) {
    Written(t, buffer, w) && EncodesPrefix(w, keys, j)
  }

  lemma NothingWritten(t: seq<Word>, buffer: Word, keys: seq<nat>)
    requires t == seq(|t|, _ => Zeros(32))
    ensures Writing(t, buffer, [], keys, 0)
  {
  }

  lemma WrittenSoFar(t: seq<Word>, buffer: Word, w: seq<bool>, keys: seq<nat>, j: nat)
    requires Writing(t, buffer, w, keys, j)
    ensures Written(t, buffer, w) && EncodesPrefix(w, keys, j) && |w| <= 32 * |t|
  {
  }

  /** Insert one bit, and store the buffer when it is full. */
  method InsertBit(t: array<Word>, buffer: Word, idx: nat, bit: bool, ghost w: seq<bool>,
                   ghost keys: seq<nat>, ghost j: nat) returns (buffer': Word)
    requires idx == |w| < 32 * t.Length
    requires Writing(t[..], buffer, w, keys, j)
    requires bit ==> j < |keys| && keys[j] + j == idx
    modifies t
    ensures Writing(t[..], buffer', w + [bit], keys, if bit then j + 1 else j)
  {
    hide EncodesPrefix, Written, PushBit, Bits;
    EncodesAppend(w, keys, j, bit);
    ghost var before := t[..];
    buffer' := PushBit(buffer, bit);
    if (idx + 1) % 32 == 0 {
      t[(idx + 1) / 32 - 1] := buffer';
      assert t[..] == before[idx / 32 := buffer'];
      FullBuffer(before, buffer, w, bit);
    } else {
      assert t[..] == before;
      PartialBuffer(before, buffer, w, bit);
    }
  }

  lemma EncodesPadded(w: seq<bool>, keys: seq<nat>, z: nat)
    requires EncodesPrefix(w, keys, |keys|)
    ensures Encodes(w + Zeros(z), keys)
  {
    OnesConcat(w, Zeros(z));
    OnesOfZeros(z);
    forall k | 0 <= k < |keys|
      ensures IsNthOne(w + Zeros(z), keys[k] + k, k)
    {
      assert (w + Zeros(z))[..keys[k] + k] == w[..keys[k] + k];
    }
  }

  /** The bit-writing half of `select_generate`. */
  method WriteBits(t: array<Word>, keys: seq<nat>, m: Uint32)
    requires |keys| >= 1 && Nondecreasing(keys) && keys[|keys| - 1] <= m
    requires |keys| + m <= 32 * t.Length
    requires t[..] == seq(t.Length, _ => Zeros(32))
    modifies t
    ensures Encodes(Bits(t[..]), keys)
  {
    hide Writing, Written, EncodesPrefix, Encodes, Bits;
    var n := |keys|;
    var buffer: Word := Zeros(32);
    var idx, i, j := 0, 0, 0;
    ghost var w: seq<bool> := [];
    NothingWritten(t[..], buffer, keys);
    hide Zeros;
    label Loop:
    while true
      invariant j < n && i <= m && i <= keys[j] && idx == |w| == i + j
      invariant Writing(t[..], buffer, w, keys, j)
      decreases m - i
    {
      while keys[j] == i
        invariant j < n && i <= keys[j] && idx == |w| == i + j
        invariant Writing(t[..], buffer, w, keys, j)
        decreases n - j
      {
        buffer := InsertBit(t, buffer, idx, true, w, keys, j);
        w := w + [true];
        idx := idx + 1;
        j := j + 1;
        if j == n {
          break Loop;
        }
      }
      if i == m {
        break;
      }
      while keys[j] > i
        invariant i <= keys[j] && idx == |w| == i + j
        invariant Writing(t[..], buffer, w, keys, j)
      {
        buffer := InsertBit(t, buffer, idx, false, w, keys, j);
        w := w + [false];
        idx := idx + 1;
        i := i + 1;
      }
    }
    assert j == n;
    WrittenSoFar(t[..], buffer, w, keys, n);
    FlushBuffer(t, buffer, idx, w);
    EncodesPadded(w, keys, 32 * t.Length - |w|);
  }

  lemma SampleWritten(table: seq<Word>, b: seq<bool>, k: nat, pos: nat)
    requires k < |table| && pos < WORD_LIMIT
    requires Samples(table, b, STEP_SELECT_TABLE * k) && IsNthOne(b, pos, STEP_SELECT_TABLE * k)
    ensures Samples(table[k := ToWord(pos)], b, STEP_SELECT_TABLE * k + STEP_SELECT_TABLE)
  {
    WordRoundTrip(pos);
  }

  method StoreSample(table: array<Word>, k: nat, pos: nat, ghost b: seq<bool>)
    requires k < table.Length && pos < WORD_LIMIT
    requires Samples(table[..], b, STEP_SELECT_TABLE * k) && IsNthOne(b, pos, STEP_SELECT_TABLE * k)
    modifies table
    ensures Samples(table[..], b, STEP_SELECT_TABLE * k + STEP_SELECT_TABLE)
  {
    SampleWritten(table[..], b, k, pos);
    ghost var before := table[..];
    table[k] := ToWord(pos);
    assert table[..] == before[k := ToWord(pos)];
  }

  /** `select_generate_sel_table` */
  method WriteSamples(table: array<Word>, bits: seq<Word>, n: nat)
    requires n == Ones(Bits(bits)) && 32 * |bits| <= WORD_LIMIT
    requires table.Length == n / STEP_SELECT_TABLE + 1
    modifies table
    ensures Samples(table[..], Bits(bits), n)
    ensures forall k :: 0 <= k < table.Length && 128 * k < n ==>
              IsNthOne(Bits(bits), FromWord(table[..][k]), 128 * k)
  {
    assert Samples(table[..], Bits(bits), 0);
    hide Samples, Ones, IsNthOne;
    var partSum, oldPartSum, byteIdx, oneIdx, tableIdx := 0, 0, 0, 0, 0;
    while oneIdx < n
      invariant oneIdx == STEP_SELECT_TABLE * tableIdx
      invariant byteIdx <= 4 * |bits| && partSum == OnesBefore(bits, byteIdx) <= oneIdx
      invariant Samples(table[..], Bits(bits), oneIdx)
    {
      byteIdx, oldPartSum, partSum := SkipBytes(bits, byteIdx, partSum, oneIdx, 0);
      var pos := SelectLookup(ByteAt(bits, byteIdx - 1), oneIdx - oldPartSum);
      NthOneInByte(bits, byteIdx - 1, pos, oneIdx - oldPartSum);
      pos := pos + 8 * (byteIdx - 1);
      StoreSample(table, tableIdx, pos, Bits(bits));
      oneIdx := oneIdx + STEP_SELECT_TABLE;
      tableIdx := tableIdx + 1;
    }
    SamplesMean(table[..], Bits(bits), n);
  }

  /** The tables hold `keys`, none of them above `m`. */
  ghost predicate Stored(bits: seq<Word>, table: seq<Word>, keys: seq<nat>, m: Uint32) {
    && |keys| >= 1
    && |keys| + m + 31 < WORD_LIMIT
    && |bits| == WordsFor(|keys| + m)
    && |table| == |keys| / STEP_SELECT_TABLE + 1
    && Encodes(Bits(bits), keys)
    && Samples(table, Bits(bits), |keys|)
  }

  /** `_select_query` on such tables gives the key: its position less its number. */
  method QueryStored(bits: seq<Word>, table: seq<Word>, oneIdx: nat, ghost keys: seq<nat>, ghost m: Uint32)
    returns (p: nat)
    requires Stored(bits, table, keys, m) && oneIdx < |keys|
    ensures p == keys[oneIdx] + oneIdx
  {
    p := QueryBits(bits, table, oneIdx);
    NthOneUnique(Bits(bits), p, keys[oneIdx] + oneIdx, oneIdx);
  }

  /** `_select_next_query` goes from one of the ones to the next. */
  method NextQueryFound(bits: seq<Word>, bitIdx: nat, ghost oneIdx: nat, ghost next: nat) returns (p: nat)
    requires IsNthOne(Bits(bits), bitIdx, oneIdx) && IsNthOne(Bits(bits), next, oneIdx + 1)
    requires oneIdx + 1 < Ones(Bits(bits))
    ensures p == next
  {
    p := NextQueryBits(bits, bitIdx);
    NthOneUnique(Bits(bits), p, next, oneIdx + 1);
  }

  /** `select_t` */
  class SelectStructure {
    var n: Uint32
    var m: Uint32
    var bitsVec: array<Word>
    var selectTable: array<Word>

    ghost predicate Holds(keys: seq<nat>)
      reads this, bitsVec, selectTable
    {
      n == |keys| && Stored(bitsVec[..], selectTable[..], keys, m)
    }

    /** `select_generate`, on a new structure */
    constructor Generate(keys: seq<nat>, m: Uint32)
      requires |keys| >= 1 && Nondecreasing(keys) && keys[|keys| - 1] <= m
      requires |keys| + m + 31 < WORD_LIMIT
      ensures Holds(keys) && this.m == m
      ensures fresh(bitsVec) && fresh(selectTable)
    {
      var bits := Calloc(WordsFor(|keys| + m));
      var table := Calloc(|keys| / STEP_SELECT_TABLE + 1);
      WriteBits(bits, keys, m);
      WriteSamples(table, bits[..], |keys|);
      this.n, this.m := |keys|, m;
      bitsVec, selectTable := bits, table;
    }

    /** `select_query` */
    method Query(oneIdx: nat, ghost keys: seq<nat>) returns (p: nat)
      requires Holds(keys) && oneIdx < |keys|
      ensures p == keys[oneIdx] + oneIdx
    {
      p := QueryStored(bitsVec[..], selectTable[..], oneIdx, keys, m);
    }

    /** `select_next_query` */
    method NextQuery(bitIdx: nat, ghost oneIdx: nat, ghost keys: seq<nat>) returns (p: nat)
      requires Holds(keys) && oneIdx + 1 < |keys| && bitIdx == keys[oneIdx] + oneIdx
      ensures p == keys[oneIdx + 1] + oneIdx + 1
    {
      p := NextQueryFound(bitsVec[..], bitIdx, oneIdx, keys[oneIdx + 1] + (oneIdx + 1));
    }

    /** `select_dump`: the structure as a run of words. */
    function Packed(): (mem: seq<Word>)
      reads this, bitsVec, selectTable
    {
      [ToWord(n), ToWord(m)] + bitsVec[..] + selectTable[..]
    }
  }

  /** A structure dumped at the start of some memory is found there. */
  lemma PackedFound(n: Uint32, m: Uint32, bits: seq<Word>, table: seq<Word>, keys: seq<nat>, rest: seq<Word>)
    requires n == |keys| && Stored(bits, table, keys, m)
    ensures PackedHolds([ToWord(n), ToWord(m)] + bits + table + rest, keys, m)
  {
    PartsFound([ToWord(n), ToWord(m)], bits, table, rest);
    var mem := [ToWord(n), ToWord(m)] + bits + table + rest;
    assert mem[0] == ToWord(n) && mem[1] == ToWord(m);
    hide Encodes, Samples, Bits, ToWord;
  }

  lemma PartsFound(head: seq<Word>, bits: seq<Word>, table: seq<Word>, rest: seq<Word>)
    ensures var mem := head + bits + table + rest;
            && mem[|head|..|head| + |bits|] == bits
            && mem[|head| + |bits|..|head| + |bits| + |table|] == table
  {
  }

  /** The words at `mem` are a dumped structure that holds `keys`. */
  ghost predicate PackedHolds(mem: seq<Word>, keys: seq<nat>, m: Uint32) {
    var bits := WordsFor(|keys| + m);
    && |keys| + m + 31 < WORD_LIMIT
    && |mem| >= 2 + bits + |keys| / STEP_SELECT_TABLE + 1
    && mem[0] == ToWord(|keys|) && mem[1] == ToWord(m)
    && Stored(mem[2..2 + bits], mem[2 + bits..2 + bits + |keys| / STEP_SELECT_TABLE + 1], keys, m)
  }

  /** The words a dumped structure takes. */
  function PackedSize(n: nat, m: nat): nat {
    2 + WordsFor(n + m) + n / STEP_SELECT_TABLE + 1
  }

  lemma PackedHeader(mem: seq<Word>, keys: seq<nat>, m: Uint32)
    requires PackedHolds(mem, keys, m)
    ensures |keys| < WORD_LIMIT && |mem| >= 2 + WordsFor(|keys| + m) + |keys| / STEP_SELECT_TABLE + 1
    ensures FromWord(mem[0]) == |keys| && FromWord(mem[1]) == m
    ensures var bits := WordsFor(|keys| + m);
            Stored(mem[2..2 + bits], mem[2 + bits..2 + bits + |keys| / STEP_SELECT_TABLE + 1], keys, m)
  {
    hide Stored;
    WordRoundTrip(|keys|);
    WordRoundTrip(m);
  }

  /** `select_query_packed`: the tables are found from `n` and `m` at the head of the words. */
  method QueryPacked(mem: seq<Word>, oneIdx: nat, ghost keys: seq<nat>, ghost m: Uint32) returns (p: nat)
    requires PackedHolds(mem, keys, m) && oneIdx < |keys|
    ensures p == keys[oneIdx] + oneIdx
  {
    hide PackedHolds, Stored, FromWord, WordsFor;
    PackedHeader(mem, keys, m);
    var n := FromWord(mem[0]);
    var limit := FromWord(mem[1]);
    var vecSize := WordsFor(n + limit);
    var bits := mem[2..2 + vecSize];
    var table := mem[2 + vecSize..2 + vecSize + n / STEP_SELECT_TABLE + 1];
    p := QueryStored(bits, table, oneIdx, keys, m);
  }

  lemma NthOneOfPrefix(b: seq<bool>, longer: seq<bool>, p: nat, j: nat)
    requires b <= longer && IsNthOne(b, p, j)
    ensures IsNthOne(longer, p, j)
  {
    assert longer[..p] == b[..p];
  }

  /** Every one of the dumped bits is found at the same place in all the words from the third on. */
  lemma PackedOnes(mem: seq<Word>, j: nat, keys: seq<nat>, m: Uint32)
    requires PackedHolds(mem, keys, m) && j < |keys|
    ensures IsNthOne(Bits(mem[2..]), keys[j] + j, j)
    ensures j < Ones(Bits(mem[2..]))
  {
    var b := Bits(mem[2..2 + WordsFor(|keys| + m)]);
    var longer := Bits(mem[2..]);
    assert b <= longer;
    NthOneOfPrefix(b, longer, keys[j] + j, j);
    OnesStep(longer, keys[j] + j);
    OnesSplit(longer, keys[j] + j + 1, |longer|);
    assert longer[..|longer|] == longer;
  }

  /** `select_next_query_packed` scans from the third word on, and need not know where the bits end. */
  method NextQueryPacked(mem: seq<Word>, bitIdx: nat, ghost oneIdx: nat, ghost keys: seq<nat>, ghost m: Uint32)
    returns (p: nat)
    requires PackedHolds(mem, keys, m) && oneIdx + 1 < |keys| && bitIdx == keys[oneIdx] + oneIdx
    ensures p == keys[oneIdx + 1] + oneIdx + 1
  {
    PackedOnes(mem, oneIdx, keys, m);
    PackedOnes(mem, oneIdx + 1, keys, m);
    p := NextQueryFound(mem[2..], bitIdx, oneIdx, keys[oneIdx + 1] + (oneIdx + 1));
  }
}
