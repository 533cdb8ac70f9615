/**
 The compressed rank (compressed_rank.c): for nondecreasing values, how many are
 strictly below a given number. Values are split into quotient and remainder; for
 each quotient a select structure knows how many values have a smaller one.
 */
module CompressedRank {
  import opened Words
  import opened BitTable
  import opened Select
  import CompressedSeq

  // ---------- the plain count ----------

  /** How many values are strictly below `x`. */
  function CountBelow(vals: seq<nat>, x: nat): (n: nat)
    ensures n <= |vals|
  {
    if vals == [] then 0
    else CountBelow(vals[..|vals| - 1], x) + (if vals[|vals| - 1] < x then 1 else 0)
  }

  /** Where a nondecreasing sequence passes `x`, there stands the count. */
  lemma {:induction false} CountBelowAt(vals: seq<nat>, x: nat, k: nat)
    requires k <= |vals|
    requires forall i :: 0 <= i < k ==> vals[i] < x
    requires forall i :: k <= i < |vals| ==> vals[i] >= x
    ensures CountBelow(vals, x) == k
  {
    if vals != [] {
      CountBelowAt(vals[..|vals| - 1], x, if k == |vals| then k - 1 else k);
    }
  }

  // ---------- what is stored ----------

  /** The code's 32-bit sizes fit, and the last value is large enough that the select structure is not empty. */
  ghost predicate Rankable(vals: seq<nat>) {
    && |vals| >= 1 && Nondecreasing(vals)
    && var max := vals[|vals| - 1];
       && 2 <= max < WORD_LIMIT
       && |vals| + ShiftRight(max, CompressedSeq.RemainderBits(max, |vals|)) + 31 < WORD_LIMIT
  }

  /** The first `j` values, and no others, have a quotient below `bound`. */
  ghost predicate SplitsAt(vals: seq<nat>, r: nat, bound: nat, j: nat) {
    && j <= |vals|
    && (forall k :: 0 <= k < j ==> ShiftRight(vals[k], r) < bound)
    && (forall k :: j <= k < |vals| ==> ShiftRight(vals[k], r) >= bound)
  }

  /** Key `i` of the select structure counts the values with quotient at most `i`. */
  ghost predicate QuotientCounts(keys: seq<nat>, vals: seq<nat>, r: nat) {
    forall i :: 0 <= i < |keys| ==> SplitsAt(vals, r, i + 1, keys[i])
  }

  /** The number of values whose quotient is below each of 1, 2, ... up to the largest quotient. */
  function QuotientKeys(vals: seq<nat>, r: nat): (keys: seq<nat>)
    requires |vals| >= 1
    ensures |keys| == ShiftRight(vals[|vals| - 1], r)
  {
    var quotients := seq(|vals|, k requires 0 <= k < |vals| => ShiftRight(vals[k], r));
    seq(ShiftRight(vals[|vals| - 1], r), i requires 0 <= i => CountBelow(quotients, i + 1))
  }

  lemma CountsAreQuotientKeys(keys: seq<nat>, vals: seq<nat>, r: nat)
    requires |vals| >= 1 && QuotientCounts(keys, vals, r)
    requires |keys| == ShiftRight(vals[|vals| - 1], r)
    ensures keys == QuotientKeys(vals, r)
  {
    var quotients := seq(|vals|, k requires 0 <= k < |vals| => ShiftRight(vals[k], r));
    forall i | 0 <= i < |keys|
      ensures keys[i] == QuotientKeys(vals, r)[i]
    {
      assert SplitsAt(vals, r, i + 1, keys[i]);
      CountBelowAt(quotients, i + 1, keys[i]);
    }
  }

  ghost predicate ValueRemainder(b: seq<bool>, vals: seq<nat>, r: nat, i: nat)
    requires i < |vals|
  {
    var pos := FieldPos(i, r);
    pos + r <= |b| && Value(b[pos..pos + r]) == LowBits(vals[i], r)
  }

  ghost predicate ValueRemainders(b: seq<bool>, vals: seq<nat>, r: nat, k: nat)
    requires k <= |vals|
  {
    forall i :: 0 <= i < k ==> ValueRemainder(b, vals, r, i)
  }

  /** With quotient bits of at least one, the largest value has a nonzero quotient. */
  lemma QuotientPositive(max: nat, n: nat)
    requires n >= 1 && max >= 2
    ensures ShiftRight(max, CompressedSeq.RemainderBits(max, n)) >= 1
  {
    var r := CompressedSeq.RemainderBits(max, n);
    CompressedSeq.QuotientAtMost(max, n);
    if r == 1 {
      assert ShiftRight(max, 1) == ShiftRight(max / 2, 0);
    } else {
      assert Pow2(r) <= max;
      if ShiftRight(max, r) == 0 {
        ShiftAndLow(max, r);
        ShiftLeftOfZero(r);
      }
    }
  }

  lemma {:induction false} ShiftLeftOfZero(r: nat)
    ensures ShiftLeft(0, r) == 0
  {
    if r != 0 {
      ShiftLeftOfZero(r - 1);
    }
  }

  // ---------- construction ----------

  lemma RemainderWritten(b: seq<bool>, vals: seq<nat>, r: nat, k: nat)
    requires k < |vals| && ValueRemainders(b, vals, r, k)
    requires FieldPos(k, r) + r <= |b|
    ensures ValueRemainders(Replaced(b, FieldPos(k, r), ToBits(LowBits(vals[k], r), r)), vals, r, k + 1)
  {
    var pos, field := FieldPos(k, r), ToBits(LowBits(vals[k], r), r);
    FieldRoundTrip(b, pos, LowBits(vals[k], r), r);
    forall i | 0 <= i < k
      ensures ValueRemainder(Replaced(b, pos, field), vals, r, i)
    {
      assert ValueRemainder(b, vals, r, i);
      FieldPosMonotone(i, k, r);
      FieldUntouched(b, pos, field, FieldPos(i, r), r);
    }
  }

  method StoreRemainders(vals: seq<nat>, r: nat) returns (rems: array<Word>)
    requires 1 <= r <= 31 && forall i :: 0 <= i < |vals| ==> vals[i] < WORD_LIMIT
    ensures fresh(rems) && rems.Length == WordsFor(FieldPos(|vals|, r))
    ensures ValueRemainders(Bits(rems[..]), vals, r, |vals|)
  {
    rems := CallocFields(|vals|, r);
    for i := 0 to |vals|
      invariant ValueRemainders(Bits(rems[..]), vals, r, i)
    {
      FieldPosMonotone(i, |vals|, r);
      RemainderWritten(Bits(rems[..]), vals, r, i);
      SetBitsValue(rems, i, LowBits(vals[i], r), r, Mask(32, r));
    }
  }

  /** The loop that fills `select_vec`. */
  method CountQuotients(vals: seq<nat>, r: nat) returns (selectVec: array<nat>)
    requires |vals| >= 1 && Nondecreasing(vals)
    ensures selectVec.Length == ShiftRight(vals[|vals| - 1], r)
    ensures QuotientCounts(selectVec[..], vals, r)
  {
    var quotients := ShiftRight(vals[|vals| - 1], r);
    selectVec := new nat[quotients];
    var i, j := 1, 0;
    while i <= quotients
      invariant 1 <= i <= quotients + 1
      invariant forall k :: 0 <= k < i - 1 ==> SplitsAt(vals, r, k + 1, selectVec[k])
      invariant 0 <= j < |vals| && SplitsAt(vals[..j], r, i, j)
    {
      j := NextSplit(vals, r, i, j);
      selectVec[i - 1] := j;
      i := i + 1;
    }
  }

  /** The inner loop: skip the values whose quotient is below `i`. */
  method NextSplit(vals: seq<nat>, r: nat, i: nat, j0: nat) returns (j: nat)
    requires |vals| >= 1 && Nondecreasing(vals) && i <= ShiftRight(vals[|vals| - 1], r)
    requires j0 < |vals| && SplitsAt(vals[..j0], r, i, j0)
    ensures j < |vals| && SplitsAt(vals, r, i, j)
    ensures SplitsAt(vals[..j], r, i + 1, j)
  {
    j := j0;
    while i > ShiftRight(vals[j], r)
      invariant j < |vals| && forall k :: 0 <= k < j ==> ShiftRight(vals[k], r) < i
      decreases |vals| - j
    {
      j := j + 1;
    }
    forall k | j <= k < |vals|
      ensures ShiftRight(vals[k], r) >= i
    {
      ShiftRightMonotone(vals[j], vals[k], r);
    }
  }

  lemma CountsAreKeys(keys: seq<nat>, vals: seq<nat>, r: nat)
    requires |vals| >= 1 && QuotientCounts(keys, vals, r)
    requires |keys| <= ShiftRight(vals[|vals| - 1], r)
    ensures Nondecreasing(keys)
    ensures forall i :: 0 <= i < |keys| ==> keys[i] < |vals|
  {
    forall i | 0 <= i < |keys|
      ensures keys[i] < |vals|
    {
      assert SplitsAt(vals, r, i + 1, keys[i]);
    }
    forall i, j | 0 <= i <= j < |keys|
      ensures keys[i] <= keys[j]
    {
      assert SplitsAt(vals, r, i + 1, keys[i]) && SplitsAt(vals, r, j + 1, keys[j]);
      assert ShiftRight(vals[keys[j]], r) >= j + 1;
    }
  }

  // ---------- the scan of a query ----------

  /** All that is known while a query scans: values before `rank` are below `idx`. */
  ghost predicate Scanning(vals: seq<nat>, r: nat, idx: nat, rank: nat) {
    && rank < |vals|
    && (forall k :: 0 <= k < rank ==> vals[k] < idx)
    && (forall k :: rank <= k < |vals| ==> ShiftRight(vals[k], r) >= ShiftRight(idx, r))
  }

  lemma LargerQuotient(x: nat, y: nat, r: nat)
    requires ShiftRight(x, r) < ShiftRight(y, r)
    ensures x < y
  {
    if y <= x {
      ShiftRightMonotone(y, x, r);
    }
  }

  lemma SameQuotient(x: nat, y: nat, r: nat)
    requires ShiftRight(x, r) == ShiftRight(y, r)
    ensures x < y <==> LowBits(x, r) < LowBits(y, r)
  {
    ShiftAndLow(x, r);
    ShiftAndLow(y, r);
  }

  /** The key that puts a one at the scan position is the one of the quotient being scanned. */
  lemma QuotientReached(keys: seq<nat>, vals: seq<nat>, r: nat, idx: nat, rank: nat, j: nat)
    requires QuotientCounts(keys, vals, r) && Scanning(vals, r, idx, rank)
    requires j < |keys| && keys[j] + j == rank + ShiftRight(idx, r)
    ensures j == ShiftRight(idx, r) && keys[j] == rank
    ensures forall k :: rank <= k < |vals| ==> ShiftRight(vals[k], r) > ShiftRight(idx, r)
  {
    assert SplitsAt(vals, r, j + 1, keys[j]);
    var next := ShiftRight(vals[rank], r);
    assert next <= j <==> rank < keys[j];
    if rank > 0 {
      ShiftRightMonotone(vals[rank - 1], idx, r);
      var previous := ShiftRight(vals[rank - 1], r);
      assert previous <= j <==> rank - 1 < keys[j];
    }
  }

  /** When the next value has a larger quotient, the key of this quotient is the rank. */
  lemma QuotientPassed(keys: seq<nat>, vals: seq<nat>, r: nat, idx: nat, rank: nat)
    requires QuotientCounts(keys, vals, r) && Scanning(vals, r, idx, rank)
    requires ShiftRight(idx, r) < |keys| && ShiftRight(vals[rank], r) > ShiftRight(idx, r)
    ensures keys[ShiftRight(idx, r)] == rank
  {
    var quot := ShiftRight(idx, r);
    assert SplitsAt(vals, r, quot + 1, keys[quot]);
    if rank > 0 {
      ShiftRightMonotone(vals[rank - 1], idx, r);
    }
  }

  /** A set bit at the scan position: all the values of this quotient have been passed. */
  lemma SetBitEndsQuotient(enc: seq<bool>, keys: seq<nat>, vals: seq<nat>, r: nat, idx: nat, rank: nat)
    requires Encodes(enc, keys) && QuotientCounts(keys, vals, r)
    requires Scanning(vals, r, idx, rank)
    requires rank + ShiftRight(idx, r) < |enc| && enc[rank + ShiftRight(idx, r)]
    ensures forall k :: rank <= k < |vals| ==> vals[k] >= idx
  {
    hide Ones, ShiftRight;
    var quot := ShiftRight(idx, r);
    var p := rank + quot;
    var j := Ones(enc[..p]);
    OnesStep(enc, p);
    OnesSplit(enc, p + 1, |enc|);
    assert enc[..|enc|] == enc;
    NthOneUnique(enc, p, keys[j] + j, j);
    QuotientReached(keys, vals, r, idx, rank, j);
    forall k | rank <= k < |vals|
      ensures vals[k] >= idx
    {
      LargerQuotient(idx, vals[k], r);
    }
  }

  /** A clear bit at the scan position: the next value has the quotient of `idx`. */
  lemma ClearBitSameQuotient(enc: seq<bool>, keys: seq<nat>, vals: seq<nat>, r: nat, idx: nat, rank: nat)
    requires |vals| >= 1 && Nondecreasing(vals)
    requires Encodes(enc, keys) && QuotientCounts(keys, vals, r)
    requires |keys| == ShiftRight(vals[|vals| - 1], r)
    requires Scanning(vals, r, idx, rank) && ShiftRight(idx, r) <= |keys|
    requires rank + ShiftRight(idx, r) < |enc| && !enc[rank + ShiftRight(idx, r)]
    ensures ShiftRight(vals[rank], r) == ShiftRight(idx, r)
  {
    var quot := ShiftRight(idx, r);
    ShiftRightMonotone(vals[rank], vals[|vals| - 1], r);
    if ShiftRight(vals[rank], r) > quot {
      QuotientPassed(keys, vals, r, idx, rank);
    }
  }

  /** The last loop of a query. */
  method Scan(bits: seq<Word>, valsRems: seq<Word>, r: nat, idx: nat, selRes0: nat, rank0: nat,
              ghost enc: seq<bool>, ghost keys: seq<nat>, ghost vals: seq<nat>) returns (rank: nat)
    requires |vals| >= 1 && Nondecreasing(vals) && 1 <= r <= 31
    requires enc <= Bits(bits) && Encodes(enc, keys) && QuotientCounts(keys, vals, r)
    requires |keys| == ShiftRight(vals[|vals| - 1], r) && |vals| + |keys| <= |enc|
    requires ValueRemainders(Bits(valsRems), vals, r, |vals|)
    requires idx <= vals[|vals| - 1]
    requires Scanning(vals, r, idx, rank0) && selRes0 == rank0 + ShiftRight(idx, r)
    ensures rank == CountBelow(vals, idx)
  {
    var valRem := LowBits(idx, r);
    var selRes := selRes0;
    rank := rank0;
    ShiftRightMonotone(idx, vals[|vals| - 1], r);
    while true
      invariant Scanning(vals, r, idx, rank) && selRes == rank + ShiftRight(idx, r)
      decreases |vals| - rank
    {
      if GetBit32(bits, selRes) {
        SetBitEndsQuotient(enc, keys, vals, r, idx, rank);
        break;
      }
      ClearBitSameQuotient(enc, keys, vals, r, idx, rank);
      SameQuotient(vals[rank], idx, r);
      assert ValueRemainder(Bits(valsRems), vals, r, rank);
      if GetBitsValue(valsRems, rank, r, Mask(32, r)) >= valRem {
        break;
      }
      selRes := selRes + 1;
      rank := rank + 1;
    }
    CountBelowAt(vals, idx, rank);
  }

  /** The starting point that select gives. */
  lemma ScanStart(keys: seq<nat>, vals: seq<nat>, r: nat, idx: nat, rank: nat)
    requires |vals| >= 1 && QuotientCounts(keys, vals, r)
    requires |keys| == ShiftRight(vals[|vals| - 1], r) && idx <= vals[|vals| - 1]
    requires ShiftRight(idx, r) <= |keys|
    requires rank == if ShiftRight(idx, r) == 0 then 0 else keys[ShiftRight(idx, r) - 1]
    ensures Scanning(vals, r, idx, rank)
  {
    var quot := ShiftRight(idx, r);
    if quot != 0 {
      assert SplitsAt(vals, r, quot, keys[quot - 1]);
      forall k | 0 <= k < rank
        ensures vals[k] < idx
      {
        LargerQuotient(vals[k], idx, r);
      }
    }
  }

  /** `compressed_rank_t` */
  class CompressedRankStructure {
    var maxVal: Uint32
    var n: Uint32
    var remR: nat
    var sel: SelectStructure
    var valsRems: array<Word>

    ghost predicate Holds(vals: seq<nat>)
      reads this, sel, sel.bitsVec, sel.selectTable, valsRems
    {
      && |vals| >= 1 && Nondecreasing(vals)
      && n == |vals| && maxVal == vals[n - 1] && 1 <= remR <= 31
      && QuotientCounts(QuotientKeys(vals, remR), vals, remR)
      && sel.Holds(QuotientKeys(vals, remR)) && sel.m == n
      && valsRems.Length == WordsFor(FieldPos(n, remR))
      && ValueRemainders(Bits(valsRems[..]), vals, remR, n)
    }

    /** `compressed_rank_generate`, on a new structure */
    constructor Generate(vals: seq<nat>)
      requires Rankable(vals)
      ensures Holds(vals) && remR == CompressedSeq.RemainderBits(vals[|vals| - 1], |vals|)
    {
      var last := vals[|vals| - 1];
      QuotientPositive(last, |vals|);
      var r := CompressedSeq.ComputeRemainderBits(last, |vals|);
      var rems := StoreRemainders(vals, r);
      var selectVec := CountQuotients(vals, r);
      CountsAreKeys(selectVec[..], vals, r);
      CountsAreQuotientKeys(selectVec[..], vals, r);
      maxVal, n, remR, valsRems := last, |vals|, r, rems;
      sel := new SelectStructure.Generate(selectVec[..], |vals|);
    }

    /** `compressed_rank_query` counts the values strictly below any number. */
    method Query(idx: Uint32, ghost vals: seq<nat>) returns (rank: nat)
      requires Holds(vals)
      ensures rank == CountBelow(vals, idx)
    {
      if idx > maxVal {
        CountBelowAt(vals, idx, |vals|);
        return n;
      }
      ghost var keys := QuotientKeys(vals, remR);
      var valQuot := ShiftRight(idx, remR);
      ShiftRightMonotone(idx, maxVal, remR);
      var selRes := 0;
      rank := 0;
      if valQuot != 0 {
        selRes := sel.Query(valQuot - 1, keys);
        selRes := selRes + 1;
        rank := selRes - valQuot;
      }
      ScanStart(keys, vals, remR, idx, rank);
      rank := Scan(sel.bitsVec[..], valsRems[..], remR, idx, selRes, rank, Bits(sel.bitsVec[..]), keys, vals);
    }

    /** `compressed_rank_dump`: the structure as a run of words. The size of the select structure is in bytes. */
    function Packed(ghost vals: seq<nat>): (mem: seq<Word>)
      requires Holds(vals)
      reads this, sel, sel.bitsVec, sel.selectTable, valsRems
    {
      CompressedSeq.SelectSizeFits(sel.n, sel.m);
      [ToWord(maxVal), ToWord(n), ToWord(remR), ToWord(4 * PackedSize(sel.n, sel.m))]
      + sel.Packed() + valsRems[..]
    }

    /** A dumped structure answers queries wherever it stands. */
    lemma PackedIsFound(vals: seq<nat>, rest: seq<Word>)
      requires Holds(vals)
      ensures PackedRanks(Packed(vals) + rest, vals)
    {
      hide PackedRanks, ValueRemainders, QuotientCounts, QuotientKeys, Bits, PackedSize, WordsFor, FieldPos, Stored;
      DumpFound(sel.n, sel.m, sel.bitsVec[..], sel.selectTable[..], valsRems[..], rest, vals, remR);
    }

    /** Four numbers, then the two tables */
    lemma PackedLayout(vals: seq<nat>)
      requires Holds(vals)
      ensures var mem, s := Packed(vals), |sel.Packed()|;
              && |mem| == 4 + s + valsRems.Length
              && FromWord(mem[0]) == vals[|vals| - 1] && FromWord(mem[1]) == |vals| && FromWord(mem[2]) == remR
              && FromWord(mem[3]) == 4 * s && mem[4..4 + s] == sel.Packed() && mem[4 + s..] == valsRems[..]
    {
      hide ValueRemainders, QuotientCounts, QuotientKeys, Stored, ToWord, FromWord;
      SelectWords(vals);
      CompressedSeq.SelectSizeFits(sel.n, sel.m);
      WordRoundTrip(maxVal);
      WordRoundTrip(n);
      WordRoundTrip(remR);
      WordRoundTrip(4 * PackedSize(sel.n, sel.m));
    }

    lemma SelectWords(vals: seq<nat>)
      requires Holds(vals)
      ensures |sel.Packed()| == PackedSize(sel.n, sel.m) && sel.n + sel.m + 31 < WORD_LIMIT
    {
    }
  }

  lemma DumpFound(n: Uint32, m: Uint32, bits: seq<Word>, table: seq<Word>, rems: seq<Word>, rest: seq<Word>,
                  vals: seq<nat>, r: nat)
    requires 1 <= r <= 31 && m == |vals| && 1 <= |vals| < WORD_LIMIT && Nondecreasing(vals)
             && vals[|vals| - 1] < WORD_LIMIT
    requires n == |QuotientKeys(vals, r)| && Stored(bits, table, QuotientKeys(vals, r), m)
    requires QuotientCounts(QuotientKeys(vals, r), vals, r) && ValueRemainders(Bits(rems), vals, r, |vals|)
    ensures 4 * PackedSize(n, m) < WORD_LIMIT
    ensures PackedRanks([ToWord(vals[|vals| - 1]), ToWord(|vals|), ToWord(r), ToWord(4 * PackedSize(n, m))]
                        + ([ToWord(n), ToWord(m)] + bits + table) + rems + rest, vals)
  {
    CompressedSeq.SelectSizeFits(n, m);
    var header := [ToWord(vals[|vals| - 1]), ToWord(|vals|), ToWord(r), ToWord(4 * PackedSize(n, m))];
    WordRoundTrip(vals[|vals| - 1]);
    WordRoundTrip(|vals|);
    WordRoundTrip(r);
    WordRoundTrip(4 * PackedSize(n, m));
    TablesFound(header, n, m, bits, table, rems, rest, vals, r);
    CompressedSeq.SizeOfTables(n, m, bits, table);
    hide PackedTables, QuotientKeys, QuotientCounts, ValueRemainders, ToWord, FromWord, PackedSize, Stored;
    var mem := header + ([ToWord(n), ToWord(m)] + bits + table) + rems + rest;
    assert mem[0] == header[0] && mem[1] == header[1] && mem[2] == header[2] && mem[3] == header[3];
  }

  /** The tables of a dumped structure hold what they held before. */
  lemma TablesFound(header: seq<Word>, n: Uint32, m: Uint32, bits: seq<Word>, table: seq<Word>, rems: seq<Word>,
                    rest: seq<Word>, vals: seq<nat>, r: nat)
    requires |header| == 4 && 1 <= r <= 31 && m == |vals| && 1 <= |vals| < WORD_LIMIT
    requires n == |QuotientKeys(vals, r)| && Stored(bits, table, QuotientKeys(vals, r), m)
    requires QuotientCounts(QuotientKeys(vals, r), vals, r) && ValueRemainders(Bits(rems), vals, r, |vals|)
    ensures var selWords := [ToWord(n), ToWord(m)] + bits + table;
            PackedTables(header + selWords + rems + rest, vals, r, |selWords|)
  {
    hide QuotientKeys, QuotientCounts, ValueRemainders, PackedHolds;
    var selWords := [ToWord(n), ToWord(m)] + bits + table;
    PackedFound(n, m, bits, table, QuotientKeys(vals, r), rems + rest);
    RemaindersExtend(rems, rest, vals, r);
    PointersFound(header, selWords, rems, rest);
  }

  /** Where the parts of a dumped structure are found. */
  lemma PointersFound(header: seq<Word>, selWords: seq<Word>, rems: seq<Word>, rest: seq<Word>)
    ensures var mem := header + selWords + rems + rest;
            && mem[|header|..] == selWords + (rems + rest)
            && mem[|header| + |selWords|..] == rems + rest
            && mem[..|header|] == header
  {
  }

  lemma RemaindersExtend(t: seq<Word>, rest: seq<Word>, vals: seq<nat>, r: nat)
    requires ValueRemainders(Bits(t), vals, r, |vals|)
    ensures ValueRemainders(Bits(t + rest), vals, r, |vals|)
  {
    CompressedSeq.BitsExtend(t, rest);
    forall i | 0 <= i < |vals|
      ensures ValueRemainder(Bits(t + rest), vals, r, i)
    {
      assert ValueRemainder(Bits(t), vals, r, i);
      CompressedSeq.SliceOfPrefix(Bits(t), Bits(t + rest), FieldPos(i, r), r);
    }
  }

  // ---------- the packed form ----------

  /** The words at `mem` are a dumped structure that holds `vals`; more words may follow. */
  ghost predicate PackedRanks(mem: seq<Word>, vals: seq<nat>) {
    && |mem| >= 4 && |vals| >= 1 && Nondecreasing(vals)
    && FromWord(mem[0]) == vals[|vals| - 1] && FromWord(mem[1]) == |vals|
    && PackedTables(mem, vals, FromWord(mem[2]), FromWord(mem[3]) / 4)
  }

  ghost predicate PackedTables(mem: seq<Word>, vals: seq<nat>, r: nat, selSize: nat)
    requires |vals| >= 1 && |vals| < WORD_LIMIT
  {
    && 1 <= r <= 31 && |mem| >= 4 + selSize
    && QuotientCounts(QuotientKeys(vals, r), vals, r)
    && PackedHolds(mem[4..], QuotientKeys(vals, r), |vals|)
    && ValueRemainders(Bits(mem[4 + selSize..]), vals, r, |vals|)
  }

  /** `compressed_rank_query_packed`: the same query, on pointers found from the header. */
  method QueryPacked(mem: seq<Word>, idx: Uint32, ghost vals: seq<nat>) returns (rank: nat)
    requires PackedRanks(mem, vals)
    ensures rank == CountBelow(vals, idx)
  {
    var maxVal, n, remR, buflenSel := FromWord(mem[0]), FromWord(mem[1]), FromWord(mem[2]), FromWord(mem[3]);
    var selPacked := mem[4..];
    var valsRems := selPacked[buflenSel / 4..];
    if idx > maxVal {
      CountBelowAt(vals, idx, |vals|);
      return n;
    }
    rank := QueryTables(selPacked, valsRems, remR, idx, vals);
  }

  method QueryTables(selPacked: seq<Word>, valsRems: seq<Word>, remR: nat, idx: Uint32, ghost vals: seq<nat>)
    returns (rank: nat)
    requires |vals| >= 1 && Nondecreasing(vals) && |vals| < WORD_LIMIT && 1 <= remR <= 31
    requires idx <= vals[|vals| - 1]
    requires QuotientCounts(QuotientKeys(vals, remR), vals, remR)
    requires PackedHolds(selPacked, QuotientKeys(vals, remR), |vals|)
    requires ValueRemainders(Bits(valsRems), vals, remR, |vals|)
    ensures rank == CountBelow(vals, idx)
  {
    hide Bits, ValueRemainders, QuotientCounts, QuotientKeys, CountBelow, ShiftRight, PackedHolds, Encodes, WordsFor,
      Nondecreasing, Scanning;
    ghost var keys := QuotientKeys(vals, remR);
    ghost var enc := PackedBits(selPacked, keys, |vals|);
    var bitsVec := selPacked[2..];
    ShiftRightMonotone(idx, vals[|vals| - 1], remR);
    var selRes;
    selRes, rank := StartPacked(selPacked, ShiftRight(idx, remR), keys, |vals|);
    ScanStart(keys, vals, remR, idx, rank);
    rank := Scan(bitsVec, valsRems, remR, idx, selRes, rank, enc, keys, vals);
  }

  /** The select query that finds where the scan starts */
  method StartPacked(selPacked: seq<Word>, valQuot: nat, ghost keys: seq<nat>, ghost m: Uint32)
    returns (selRes: nat, rank: nat)
    requires PackedHolds(selPacked, keys, m) && valQuot <= |keys|
    ensures valQuot == 0 ==> selRes == rank == 0
    ensures valQuot > 0 ==> selRes == keys[valQuot - 1] + valQuot && rank == keys[valQuot - 1]
  {
    selRes, rank := 0, 0;
    if valQuot != 0 {
      selRes := Select.QueryPacked(selPacked, valQuot - 1, keys, m);
      selRes := selRes + 1;
      rank := selRes - valQuot;
    }
  }

  /** The bits of the select structure, as its first words after the header give them */
  lemma PackedBits(selPacked: seq<Word>, keys: seq<nat>, m: Uint32) returns (enc: seq<bool>)
    requires PackedHolds(selPacked, keys, m)
    ensures |selPacked| >= 2 && enc <= Bits(selPacked[2..]) && Encodes(enc, keys) && m + |keys| <= |enc|
  {
    enc := Bits(selPacked[2..2 + WordsFor(|keys| + m)]);
    BitsOfTake(selPacked[2..], WordsFor(|keys| + m));
    assert selPacked[2..2 + WordsFor(|keys| + m)] == selPacked[2..][..WordsFor(|keys| + m)];
  }

  lemma BitsOfTake(t: seq<Word>, k: nat)
    requires k <= |t|
    ensures Bits(t[..k]) <= Bits(t)
  {
  }
}
