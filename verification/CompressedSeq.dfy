/**
 The compressed sequence (compressed_seq.c): each value is stored with as few bits
 as it needs, and the running code lengths, split into quotient and remainder, tell
 where a code starts. Quotients go to a select structure, remainders to a table.
 */
module CompressedSeq {
  import opened Words
  import opened BitTable
  import opened Select

  // ---------- the binary logarithm ----------

  function ILog2(x: nat): (r: nat)
    ensures x >= 1 ==> Pow2(r) <= x < Pow2(r + 1)
  {
    if x <= 1 then 0 else 1 + ILog2(x / 2)
  }

  /** `compressed_seq_i_log2` and `compressed_rank_i_log2` */
  method ComputeILog2(x0: Uint32) returns (res: nat)
    ensures res == ILog2(x0) <= 31
  {
    var x := x0;
    res := 0;
    while x > 1
      invariant res + ILog2(x) == ILog2(x0)
    {
      x := x / 2;
      res := res + 1;
    }
    ILog2Below32(x0);
  }

  lemma ILog2Below32(x: Uint32)
    ensures ILog2(x) <= 31
  {
    if ILog2(x) >= 32 {
      Pow2At32();
      Pow2Monotone(32, ILog2(x));
    }
  }

  // ---------- the code of one value, and the running code lengths ----------

  /** Adding one to a value that can be encoded does not wrap around. */
  ghost predicate Encodable(vals: seq<nat>) {
    forall i :: 0 <= i < |vals| ==> vals[i] < WORD_LIMIT - 1
  }

  /** The bits a value takes: none for 0. */
  function CodeLength(v: nat): (len: nat)
    ensures Pow2(len) - 1 <= v < 2 * Pow2(len) - 1
  {
    ILog2(v + 1)
  }

  /** What is stored for a value. */
  function Code(v: nat): (c: nat)
    ensures c < Pow2(CodeLength(v)) && Pow2(CodeLength(v)) + c == v + 1
  {
    v - (Pow2(CodeLength(v)) - 1)
  }

  lemma CodeFits(v: nat)
    requires v < WORD_LIMIT - 1
    ensures CodeLength(v) <= 31
    ensures v == 0 <==> CodeLength(v) == 0
  {
    ILog2Below32(v + 1);
  }

  /** The total code length of the first `k` values. */
  function TotalLength(vals: seq<nat>, k: nat): (t: nat)
    requires k <= |vals|
  {
    if k == 0 then 0 else TotalLength(vals, k - 1) + CodeLength(vals[k - 1])
  }

  lemma NoLength(vals: seq<nat>)
    ensures TotalLength(vals, 0) == 0
  {
  }

  lemma OneMoreLength(vals: seq<nat>, k: nat)
    requires k < |vals|
    ensures TotalLength(vals, k + 1) == TotalLength(vals, k) + CodeLength(vals[k])
  {
  }

  lemma {:induction false} TotalLengthMonotone(vals: seq<nat>, j: nat, k: nat)
    requires j <= k <= |vals|
    ensures TotalLength(vals, j) <= TotalLength(vals, k)
  {
    if j < k {
      TotalLengthMonotone(vals, j, k - 1);
    }
  }

  /** `rem_r`: how many low bits of a running length go to the remainder table. */
  function RemainderBits(total: nat, n: nat): (r: nat)
    requires n >= 1
    ensures r >= 1
  {
    if ILog2(total / n) == 0 then 1 else ILog2(total / n)
  }

  /** The binary logarithm of the mean, but 1 at least */
  lemma RemainderBitsMean(total: nat, n: nat)
    requires n >= 1
    ensures var r, q := RemainderBits(total, n), total / n;
            if q < 2 then r == 1 else Pow2(r) <= q < Pow2(r + 1)
  {
  }

  /** The sizes that the code computes with 32-bit additions do not wrap around. */
  ghost predicate SizesFit(vals: seq<nat>)
  {
    var total := TotalLength(vals, |vals|);
    && |vals| >= 1 && Encodable(vals)
    && total + 31 < WORD_LIMIT
    && |vals| + ShiftRight(total, RemainderBits(total, |vals|)) + 31 < WORD_LIMIT
  }

  lemma RemainderBitsFit(total: nat, n: nat)
    requires n >= 1 && total < WORD_LIMIT
    ensures RemainderBits(total, n) <= 31
    ensures FieldPos(n, RemainderBits(total, n)) <= (if total < n then n else total)
  {
    var q := total / n;
    var r := RemainderBits(total, n);
    QuotientAtMost(total, n);
    ILog2Below32(q);
    if r == ILog2(q) {
      LogBelow(r);
      FieldPosWiden(n, r, q);
      FieldPosIsProduct(n, q);
    }
    if ILog2(q) == 0 {
      FieldPosIsProduct(n, 1);
    }
  }

  lemma QuotientAtMost(total: nat, n: nat)
    requires n >= 1
    ensures 0 <= total / n <= total && n * (total / n) <= total
    ensures total < n ==> total / n == 0
    ensures total / n >= 1 ==> n <= total
  {
  }

  lemma {:induction false} FieldPosWiden(n: nat, r: nat, q: nat)
    requires r <= q
    ensures FieldPos(n, r) <= FieldPos(n, q)
  {
    if n != 0 {
      FieldPosWiden(n - 1, r, q);
    }
  }

  lemma {:induction false} LogBelow(r: nat)
    ensures r < Pow2(r)
  {
    if r != 0 {
      LogBelow(r - 1);
    }
  }

  // ---------- what the tables hold ----------

  ghost predicate CodeStored(b: seq<bool>, vals: seq<nat>, i: nat)
    requires i < |vals|
  {
    var pos := TotalLength(vals, i);
    var len := CodeLength(vals[i]);
    pos + len <= |b| && Value(b[pos..pos + len]) == Code(vals[i])
  }

  /** The first `k` codes stand one after the other in the store table. */
  ghost predicate CodesStored(b: seq<bool>, vals: seq<nat>, k: nat)
    requires k <= |vals|
  {
    forall i :: 0 <= i < k ==> CodeStored(b, vals, i)
  }

  ghost predicate RemainderStored(b: seq<bool>, vals: seq<nat>, r: nat, i: nat)
    requires i < |vals|
  {
    var pos := FieldPos(i, r);
    pos + r <= |b| && Value(b[pos..pos + r]) == LowBits(TotalLength(vals, i + 1), r)
  }

  /** The first `k` remainders stand in the remainder table. */
  ghost predicate RemaindersStored(b: seq<bool>, vals: seq<nat>, r: nat, k: nat)
    requires k <= |vals|
  {
    forall i :: 0 <= i < k ==> RemainderStored(b, vals, r, i)
  }

  /** The running code lengths without their low bits: the keys of the select structure. */
  function Quotients(vals: seq<nat>, r: nat): (q: seq<nat>)
    ensures |q| == |vals|
  {
    seq(|vals|, i requires 0 <= i < |vals| => ShiftRight(TotalLength(vals, i + 1), r))
  }

  lemma QuotientsNondecreasing(vals: seq<nat>, r: nat)
    ensures Nondecreasing(Quotients(vals, r))
  {
    var q := Quotients(vals, r);
    forall i, j | 0 <= i <= j < |q|
      ensures q[i] <= q[j]
    {
      TotalLengthMonotone(vals, i + 1, j + 1);
      ShiftRightMonotone(TotalLength(vals, i + 1), TotalLength(vals, j + 1), r);
    }
  }

  // ---------- one write extends what the tables hold ----------

  lemma CodeKept(b: seq<bool>, pos: nat, field: seq<bool>, vals: seq<nat>, i: nat)
    requires i < |vals| && CodeStored(b, vals, i)
    requires TotalLength(vals, i + 1) <= pos && pos + |field| <= |b|
    ensures CodeStored(Replaced(b, pos, field), vals, i)
  {
    FieldUntouched(b, pos, field, TotalLength(vals, i), CodeLength(vals[i]));
  }

  lemma CodeJustWritten(b: seq<bool>, vals: seq<nat>, k: nat)
    requires k < |vals| && TotalLength(vals, k) + CodeLength(vals[k]) <= |b|
    ensures CodeStored(Replaced(b, TotalLength(vals, k), ToBits(Code(vals[k]), CodeLength(vals[k]))), vals, k)
  {
    FieldRoundTrip(b, TotalLength(vals, k), Code(vals[k]), CodeLength(vals[k]));
  }

  lemma CodeWritten(b: seq<bool>, vals: seq<nat>, k: nat)
    requires k < |vals| && CodesStored(b, vals, k)
    requires TotalLength(vals, k) + CodeLength(vals[k]) <= |b|
    ensures CodesStored(Replaced(b, TotalLength(vals, k), ToBits(Code(vals[k]), CodeLength(vals[k]))), vals, k + 1)
  {
    hide CodeStored, Replaced, ToBits, Code, CodeLength, TotalLength;
    CodeJustWritten(b, vals, k);
    var pos, field := TotalLength(vals, k), ToBits(Code(vals[k]), CodeLength(vals[k]));
    forall i | 0 <= i < k
      ensures CodeStored(Replaced(b, pos, field), vals, i)
    {
      TotalLengthMonotone(vals, i + 1, k);
      CodeKept(b, pos, field, vals, i);
    }
  }

  lemma NoCodes(b: seq<bool>, vals: seq<nat>)
    ensures CodesStored(b, vals, 0)
  {
  }

  /** A value without code needs no write. */
  lemma EmptyCode(b: seq<bool>, vals: seq<nat>, k: nat)
    requires k < |vals| && CodesStored(b, vals, k)
    requires vals[k] == 0 && TotalLength(vals, k) <= |b|
    ensures CodesStored(b, vals, k + 1)
  {
    assert CodeLength(0) == 0;
  }

  lemma RemainderKept(b: seq<bool>, field: seq<bool>, vals: seq<nat>, r: nat, i: nat, k: nat)
    requires i < k < |vals| && RemainderStored(b, vals, r, i)
    requires |field| == r && FieldPos(k, r) + r <= |b|
    ensures RemainderStored(Replaced(b, FieldPos(k, r), field), vals, r, i)
  {
    FieldPosMonotone(i, k, r);
    FieldUntouched(b, FieldPos(k, r), field, FieldPos(i, r), r);
  }

  lemma RemainderJustWritten(b: seq<bool>, vals: seq<nat>, r: nat, k: nat)
    requires k < |vals| && FieldPos(k, r) + r <= |b|
    ensures RemainderStored(Replaced(b, FieldPos(k, r), ToBits(LowBits(TotalLength(vals, k + 1), r), r)), vals, r, k)
  {
    FieldRoundTrip(b, FieldPos(k, r), LowBits(TotalLength(vals, k + 1), r), r);
  }

  lemma RemainderWritten(b: seq<bool>, vals: seq<nat>, r: nat, k: nat)
    requires k < |vals| && RemaindersStored(b, vals, r, k)
    requires FieldPos(k, r) + r <= |b|
    ensures RemaindersStored(Replaced(b, FieldPos(k, r), ToBits(LowBits(TotalLength(vals, k + 1), r), r)), vals, r,
                             k + 1)
  {
    hide RemainderStored, Replaced, ToBits, TotalLength, LowBits, FieldPos;
    RemainderJustWritten(b, vals, r, k);
    var x := LowBits(TotalLength(vals, k + 1), r);
    var b' := Replaced(b, FieldPos(k, r), ToBits(x, r));
    forall i | 0 <= i < k
      ensures RemainderStored(b', vals, r, i)
    {
      RemainderKept(b, ToBits(x, r), vals, r, i, k);
    }
  }

  // ---------- construction ----------

  method ComputeLengths(vals: seq<nat>) returns (lengths: array<nat>, total: nat)
    requires Encodable(vals)
    ensures fresh(lengths) && lengths.Length == |vals|
    ensures forall i :: 0 <= i < |vals| ==> lengths[i] == CodeLength(vals[i])
    ensures total == TotalLength(vals, |vals|)
  {
    hide TotalLength, ILog2, Pow2;
    lengths := new nat[|vals|](_ => 0);
    total := 0;
    NoLength(vals);
    for i := 0 to |vals|
      invariant forall k :: 0 <= k < i ==> lengths[k] == CodeLength(vals[k])
      invariant total == TotalLength(vals, i)
    {
      CodeFits(vals[i]);
      OneMoreLength(vals, i);
      if vals[i] == 0 {
        lengths[i] := 0;
      } else {
        lengths[i] := ComputeILog2(vals[i] + 1);
        total := total + lengths[i];
      }
    }
  }

  method StoreCodes(vals: seq<nat>, lengths: seq<nat>, total: nat) returns (store: array<Word>)
    requires Encodable(vals) && |lengths| == |vals|
    requires forall i :: 0 <= i < |vals| ==> lengths[i] == CodeLength(vals[i])
    requires total == TotalLength(vals, |vals|)
    ensures fresh(store) && store.Length == WordsFor(total)
    ensures CodesStored(Bits(store[..]), vals, |vals|)
  {
    hide CodesStored, Bits, TotalLength, CodeLength;
    store := Calloc(WordsFor(total));
    var pos := 0;
    NoLength(vals);
    NoCodes(Bits(store[..]), vals);
    for i := 0 to |vals|
      invariant pos == TotalLength(vals, i)
      invariant CodesStored(Bits(store[..]), vals, i)
    {
      TotalLengthMonotone(vals, i + 1, |vals|);
      OneMoreLength(vals, i);
      CodeFits(vals[i]);
      if vals[i] == 0 {
        EmptyCode(Bits(store[..]), vals, i);
      } else {
        StoreCode(store, vals, i, pos, lengths[i]);
        pos := pos + lengths[i];
      }
    }
  }

  method StoreCode(store: array<Word>, vals: seq<nat>, i: nat, pos: nat, len: nat)
    requires i < |vals| && pos == TotalLength(vals, i) && len == CodeLength(vals[i]) && 1 <= len <= 31
    requires pos + len <= 32 * store.Length && CodesStored(Bits(store[..]), vals, i) && vals[i] < WORD_LIMIT
    modifies store
    ensures CodesStored(Bits(store[..]), vals, i + 1)
  {
    hide CodesStored, Bits, TotalLength, CodeLength, ToBits, Replaced;
    CodeWritten(Bits(store[..]), vals, i);
    var stored := vals[i] - (Pow2(len) - 1);
    SetBitsAtPos(store, pos, stored, len);
  }

  method StoreRemainder(rems: array<Word>, i: nat, total: nat, remR: nat, ghost vals: seq<nat>)
    requires i < |vals| && total == TotalLength(vals, i + 1) < WORD_LIMIT && 1 <= remR <= 31
    requires RemaindersStored(Bits(rems[..]), vals, remR, i)
    requires FieldPos(i, remR) + remR <= 32 * rems.Length
    modifies rems
    ensures RemaindersStored(Bits(rems[..]), vals, remR, i + 1)
  {
    RemainderWritten(Bits(rems[..]), vals, remR, i);
    SetBitsValue(rems, i, LowBits(total, remR), remR, Mask(32, remR));
  }

  /** Quotient and remainder give back the running length. */
  lemma LengthOfParts(b: seq<bool>, vals: seq<nat>, r: nat, i: nat)
    requires i < |vals| && RemainderStored(b, vals, r, i)
    ensures i * r + r <= |b|
    ensures Quotients(vals, r)[i] * Pow2(r) + Value(b[i * r..i * r + r]) == TotalLength(vals, i + 1)
  {
    hide Pow2, TotalLength, ShiftRight, ShiftLeft, LowBits, Value, FieldPos;
    FieldPosIsProduct(i, r);
    ShiftAndLow(TotalLength(vals, i + 1), r);
    ShiftLeftIsProduct(ShiftRight(TotalLength(vals, i + 1), r), r);
  }

  /** The lengths, the first `k` of them already replaced by quotients. */
  ghost predicate Replacing(lengths: seq<nat>, vals: seq<nat>, r: nat, k: nat)
    requires k <= |vals|
  {
    && |lengths| == |vals|
    && lengths[..k] == Quotients(vals, r)[..k]
    && forall i :: k <= i < |vals| ==> lengths[i] == CodeLength(vals[i])
  }

  lemma ReplaceOne(lengths: seq<nat>, vals: seq<nat>, r: nat, k: nat)
    requires k < |vals| && Replacing(lengths, vals, r, k)
    ensures Replacing(lengths[k := ShiftRight(TotalLength(vals, k + 1), r)], vals, r, k + 1)
  {
  }

  lemma NotReplaced(lengths: seq<nat>, vals: seq<nat>, r: nat, k: nat)
    requires k < |vals| && Replacing(lengths, vals, r, k)
    ensures |lengths| == |vals| && lengths[k] == CodeLength(vals[k])
  {
  }

  lemma AllReplaced(lengths: seq<nat>, vals: seq<nat>, r: nat)
    requires Replacing(lengths, vals, r, |vals|)
    ensures lengths == Quotients(vals, r)
  {
    assert lengths[..|vals|] == lengths && Quotients(vals, r)[..|vals|] == Quotients(vals, r);
  }

  lemma NoRemainders(b: seq<bool>, vals: seq<nat>, r: nat)
    ensures RemaindersStored(b, vals, r, 0)
  {
  }

  /** The remainders go to a table, and each length is replaced by its quotient. */
  method StoreRemainders(vals: seq<nat>, lengths: array<nat>, remR: nat) returns (rems: array<Word>)
    requires TotalLength(vals, |vals|) < WORD_LIMIT && Replacing(lengths[..], vals, remR, 0)
    requires 1 <= remR <= 31
    modifies lengths
    ensures fresh(rems) && rems.Length == WordsFor(FieldPos(|vals|, remR))
    ensures RemaindersStored(Bits(rems[..]), vals, remR, |vals|)
    ensures lengths[..] == Quotients(vals, remR)
  {
    rems := CallocFields(|vals|, remR);
    var total := 0;
    NoLength(vals);
    NoRemainders(Bits(rems[..]), vals, remR);
    hide RemaindersStored, Bits, TotalLength, CodeLength, Replacing, Quotients, FieldPos;
    for i := 0 to |vals|
      invariant total == TotalLength(vals, i)
      invariant RemaindersStored(Bits(rems[..]), vals, remR, i)
      invariant Replacing(lengths[..], vals, remR, i)
    {
      NotReplaced(lengths[..], vals, remR, i);
      OneMoreLength(vals, i);
      total := total + lengths[i];
      TotalLengthMonotone(vals, i + 1, |vals|);
      FieldPosMonotone(i, |vals|, remR);
      StoreRemainder(rems, i, total, remR, vals);
      ReplaceLength(lengths, i, total, remR, vals);
    }
    AllReplaced(lengths[..], vals, remR);
  }

  method ReplaceLength(lengths: array<nat>, i: nat, total: nat, remR: nat, ghost vals: seq<nat>)
    requires i < |vals| && Replacing(lengths[..], vals, remR, i) && total == TotalLength(vals, i + 1)
    modifies lengths
    ensures Replacing(lengths[..], vals, remR, i + 1)
  {
    ghost var before := lengths[..];
    lengths[i] := ShiftRight(total, remR);
    assert lengths[..] == before[i := ShiftRight(total, remR)];
    ReplaceOne(before, vals, remR, i);
  }

  method ComputeRemainderBits(total: nat, n: nat) returns (r: nat)
    requires n >= 1 && total < WORD_LIMIT
    ensures r == RemainderBits(total, n) && 1 <= r <= 31
  {
    QuotientAtMost(total, n);
    r := ComputeILog2(total / n);
    if r == 0 {
      r := 1;
    }
  }

  /** The two tables, and the quotients for the select structure. */
  method BuildTables(vals: seq<nat>)
    returns (total: nat, r: nat, store: array<Word>, rems: array<Word>, quotients: array<nat>)
    requires SizesFit(vals)
    ensures total == TotalLength(vals, |vals|) && r == RemainderBits(total, |vals|) <= 31
    ensures store.Length == WordsFor(total) && CodesStored(Bits(store[..]), vals, |vals|)
    ensures rems.Length == WordsFor(FieldPos(|vals|, r)) && RemaindersStored(Bits(rems[..]), vals, r, |vals|)
    ensures quotients[..] == Quotients(vals, r)
  {
    quotients, total := ComputeLengths(vals);
    store := StoreCodes(vals, quotients[..], total);
    r := ComputeRemainderBits(total, |vals|);
    rems := StoreRemainders(vals, quotients, r);
  }

  /** `compressed_seq_t` */
  class CompressedSeqStructure {
    var n: Uint32
    var remR: nat
    var totalLength: Uint32
    var sel: SelectStructure
    var lengthRems: array<Word>
    var storeTable: array<Word>

    ghost predicate Holds(vals: seq<nat>)
      reads this, sel, sel.bitsVec, sel.selectTable, lengthRems, storeTable
    {
      && SizesFit(vals)
      && n == |vals| && totalLength == TotalLength(vals, n) && remR == RemainderBits(totalLength, n)
      && sel.Holds(Quotients(vals, remR)) && sel.m == ShiftRight(totalLength, remR)
      && lengthRems.Length == WordsFor(FieldPos(n, remR))
      && RemaindersStored(Bits(lengthRems[..]), vals, remR, n)
      && storeTable.Length == WordsFor(totalLength)
      && CodesStored(Bits(storeTable[..]), vals, n)
    }

    /** `compressed_seq_generate`, on a new structure */
    constructor Generate(vals: seq<nat>)
      requires SizesFit(vals)
      ensures Holds(vals)
    {
      var total, r, store, rems, quotients := BuildTables(vals);
      n, remR, totalLength, lengthRems, storeTable := |vals|, r, total, rems, store;
      QuotientsNondecreasing(vals, r);
      sel := new SelectStructure.Generate(quotients[..], ShiftRight(total, r));
    }

    /** `compressed_seq_query` gives back the value that was stored. */
    method Query(idx: nat, ghost vals: seq<nat>) returns (v: Uint32)
      requires Holds(vals) && idx < |vals|
      ensures v == vals[idx]
    {
      RemainderBitsFit(totalLength, n);
      hide Quotients, RemaindersStored, CodesStored, Bits, FieldPos;
      var prevSel, selRes := Positions(sel, idx, Quotients(vals, remR));
      v := Decode(lengthRems[..], storeTable[..], remR, idx, prevSel, selRes, vals);
    }

    /** `compressed_seq_dump`: the structure as a run of words. The size of the select structure is in bytes. */
    function Packed(ghost vals: seq<nat>): (mem: seq<Word>)
      requires Holds(vals)
      reads this, sel, sel.bitsVec, sel.selectTable, lengthRems, storeTable
    {
      RemainderBitsFit(totalLength, n);
      SelectSizeFits(sel.n, sel.m);
      [ToWord(n), ToWord(remR), ToWord(totalLength), ToWord(4 * PackedSize(sel.n, sel.m))]
      + sel.Packed() + lengthRems[..] + storeTable[..]
    }

    /** A dumped structure answers queries wherever it stands. */
    lemma PackedIsFound(vals: seq<nat>, rest: seq<Word>)
      requires Holds(vals)
      ensures PackedStores(Packed(vals) + rest, vals)
    {
      RemainderBitsFit(totalLength, n);
      DumpFound(totalLength, sel.n, sel.m, sel.bitsVec[..], sel.selectTable[..], lengthRems[..], storeTable[..], rest,
                vals, remR);
    }

    /** Four numbers, then the three tables */
    lemma PackedLayout(vals: seq<nat>)
      requires Holds(vals)
      ensures var mem, s, l := Packed(vals), |sel.Packed()|, lengthRems.Length;
              && |mem| == 4 + s + l + storeTable.Length
              && FromWord(mem[0]) == |vals| && FromWord(mem[1]) == RemainderBits(TotalLength(vals, |vals|), |vals|)
              && FromWord(mem[2]) == TotalLength(vals, |vals|) && FromWord(mem[3]) == 4 * s
              && mem[4..4 + s] == sel.Packed() && mem[4 + s..4 + s + l] == lengthRems[..]
              && mem[4 + s + l..] == storeTable[..]
    {
      hide Quotients, RemaindersStored, CodesStored, Stored, TotalLength, ILog2, ToWord, FromWord, ShiftRight;
      RemainderBitsFit(totalLength, n);
      SelectSizeFits(sel.n, sel.m);
      SelectWords(vals);
      WordRoundTrip(n);
      WordRoundTrip(remR);
      WordRoundTrip(totalLength);
      WordRoundTrip(4 * PackedSize(sel.n, sel.m));
    }

    lemma SelectWords(vals: seq<nat>)
      requires Holds(vals)
      ensures |sel.Packed()| == PackedSize(sel.n, sel.m)
    {
    }
  }

  /** The select queries for the running lengths `idx - 1` and `idx` */
  method Positions(sel: SelectStructure, idx: nat, ghost q: seq<nat>) returns (prevSel: nat, selRes: nat)
    requires sel.Holds(q) && idx < |q|
    ensures idx >= 1 ==> prevSel == q[idx - 1] + (idx - 1)
    ensures selRes == q[idx] + idx
  {
    prevSel, selRes := 0, 0;
    if idx == 0 {
      selRes := sel.Query(0, q);
    } else {
      prevSel := sel.Query(idx - 1, q);
      selRes := sel.NextQuery(prevSel, idx - 1, q);
    }
  }

  lemma SizeOfTables(n: Uint32, m: Uint32, bits: seq<Word>, table: seq<Word>)
    requires |bits| == WordsFor(n + m) && |table| == n / STEP_SELECT_TABLE + 1
    ensures 4 * PackedSize(n, m) / 4 == |[ToWord(n), ToWord(m)] + bits + table|
  {
  }

  lemma DumpFound(total: Uint32, n: Uint32, m: Uint32, bits: seq<Word>, table: seq<Word>, rems: seq<Word>,
                  store: seq<Word>, rest: seq<Word>, vals: seq<nat>, r: nat)
    requires 1 <= r <= 31 && n == |vals| && m == ShiftRight(TotalLength(vals, |vals|), r) && Encodable(vals)
    requires Stored(bits, table, Quotients(vals, r), m)
    requires |rems| == WordsFor(FieldPos(|vals|, r)) && RemaindersStored(Bits(rems), vals, r, |vals|)
    requires CodesStored(Bits(store), vals, |vals|)
    ensures 4 * PackedSize(n, m) < WORD_LIMIT
    ensures PackedStores([ToWord(n), ToWord(r), ToWord(total), ToWord(4 * PackedSize(n, m))]
                         + ([ToWord(n), ToWord(m)] + bits + table) + rems + store + rest, vals)
  {
    SelectSizeFits(n, m);
    var header := [ToWord(n), ToWord(r), ToWord(total), ToWord(4 * PackedSize(n, m))];
    WordRoundTrip(n);
    WordRoundTrip(r);
    WordRoundTrip(4 * PackedSize(n, m));
    TablesFound(header, n, m, bits, table, rems, store, rest, vals, r);
    SizeOfTables(n, m, bits, table);
    hide PackedTables, RemaindersStored, CodesStored, Quotients, TotalLength, ToWord, FromWord, PackedSize, Stored;
    var mem := header + ([ToWord(n), ToWord(m)] + bits + table) + rems + store + rest;
    assert mem[0] == header[0] && mem[1] == header[1] && mem[3] == header[3];
  }

  /** The tables of a dumped structure hold what they held before. */
  lemma TablesFound(header: seq<Word>, n: Uint32, m: Uint32, bits: seq<Word>, table: seq<Word>, rems: seq<Word>,
                    store: seq<Word>, rest: seq<Word>, vals: seq<nat>, r: nat)
    requires |header| == 4 && 1 <= r <= 31 && n == |vals| && m == ShiftRight(TotalLength(vals, |vals|), r)
    requires Stored(bits, table, Quotients(vals, r), m)
    requires |rems| == WordsFor(FieldPos(|vals|, r)) && RemaindersStored(Bits(rems), vals, r, |vals|)
    requires CodesStored(Bits(store), vals, |vals|)
    ensures var selWords := [ToWord(n), ToWord(m)] + bits + table;
            PackedTables(header + selWords + rems + store + rest, vals, r, |selWords|)
  {
    hide RemaindersStored, CodesStored, Quotients, PackedHolds, TotalLength, Stored, Bits, FieldPos, ToWord;
    var selWords := [ToWord(n), ToWord(m)] + bits + table;
    PackedFound(n, m, bits, table, Quotients(vals, r), rems + store + rest);
    RemaindersExtend(rems, store + rest, vals, r);
    CodesExtend(store, rest, vals);
    PointersFound(header, selWords, rems, store, rest);
  }

  /** Where the parts of a dumped structure are found. */
  lemma PointersFound(header: seq<Word>, selWords: seq<Word>, rems: seq<Word>, store: seq<Word>, rest: seq<Word>)
    ensures var mem := header + selWords + rems + store + rest;
            && mem[|header|..] == selWords + (rems + store + rest)
            && mem[|header| + |selWords|..] == rems + (store + rest)
            && mem[|header| + |selWords| + |rems|..] == store + rest
            && mem[..|header|] == header
  {
  }

  lemma SelectSizeFits(n: nat, m: nat)
    requires n + m + 31 < WORD_LIMIT
    ensures 4 * PackedSize(n, m) < WORD_LIMIT
  {
  }

  lemma BitsExtend(t: seq<Word>, rest: seq<Word>)
    ensures Bits(t) <= Bits(t + rest)
  {
  }

  lemma RemainderExtends(b: seq<bool>, longer: seq<bool>, vals: seq<nat>, r: nat, i: nat)
    requires b <= longer && i < |vals| && RemainderStored(b, vals, r, i)
    ensures RemainderStored(longer, vals, r, i)
  {
    SliceOfPrefix(b, longer, FieldPos(i, r), r);
  }

  lemma CodeExtends(b: seq<bool>, longer: seq<bool>, vals: seq<nat>, i: nat)
    requires b <= longer && i < |vals| && CodeStored(b, vals, i)
    ensures CodeStored(longer, vals, i)
  {
    SliceOfPrefix(b, longer, TotalLength(vals, i), CodeLength(vals[i]));
  }

  /** Tables keep their contents when more words follow. */
  lemma RemaindersExtend(t: seq<Word>, rest: seq<Word>, vals: seq<nat>, r: nat)
    requires RemaindersStored(Bits(t), vals, r, |vals|)
    ensures RemaindersStored(Bits(t + rest), vals, r, |vals|)
  {
    BitsExtend(t, rest);
    hide RemainderStored, Bits;
    forall i | 0 <= i < |vals|
      ensures RemainderStored(Bits(t + rest), vals, r, i)
    {
      RemainderExtends(Bits(t), Bits(t + rest), vals, r, i);
    }
  }

  lemma CodesExtend(t: seq<Word>, rest: seq<Word>, vals: seq<nat>)
    requires CodesStored(Bits(t), vals, |vals|)
    ensures CodesStored(Bits(t + rest), vals, |vals|)
  {
    BitsExtend(t, rest);
    hide CodeStored, Bits;
    forall i | 0 <= i < |vals|
      ensures CodeStored(Bits(t + rest), vals, i)
    {
      CodeExtends(Bits(t), Bits(t + rest), vals, i);
    }
  }

  lemma SliceOfPrefix(b: seq<bool>, longer: seq<bool>, pos: nat, len: nat)
    requires b <= longer && pos + len <= |b|
    ensures longer[pos..pos + len] == b[pos..pos + len]
  {
  }

  /** A running code length, put together from its two halves. */
  method RunningLength(lengthRems: seq<Word>, remR: nat, idx: nat, quotient: nat, ghost vals: seq<nat>)
    returns (len: nat)
    requires idx < |vals| && 1 <= remR <= 31
    requires RemaindersStored(Bits(lengthRems), vals, remR, |vals|)
    requires quotient == Quotients(vals, remR)[idx]
    ensures len == TotalLength(vals, idx + 1)
  {
    assert RemainderStored(Bits(lengthRems), vals, remR, idx);
    ShiftAndLow(TotalLength(vals, idx + 1), remR);
    len := ShiftLeft(quotient, remR) + GetBitsValue(lengthRems, idx, remR, Mask(32, remR));
  }

  /** The rest of a query, once select has told where the running lengths `idx - 1` and `idx` stand. */
  method Decode(lengthRems: seq<Word>, storeTable: seq<Word>, remR: nat, idx: nat, prevSel: nat, selRes: nat,
                ghost vals: seq<nat>) returns (v: Uint32)
    requires idx < |vals| && 1 <= remR <= 31
    requires Encodable(vals) && RemaindersStored(Bits(lengthRems), vals, remR, |vals|)
    requires CodesStored(Bits(storeTable), vals, |vals|)
    requires idx >= 1 ==> prevSel == Quotients(vals, remR)[idx - 1] + (idx - 1)
    requires selRes == Quotients(vals, remR)[idx] + idx
    ensures v == vals[idx]
  {
    hide Quotients, RemaindersStored, CodesStored, Bits;
    var encIdx := 0;
    if idx != 0 {
      encIdx := RunningLength(lengthRems, remR, idx - 1, prevSel - (idx - 1), vals);
    }
    var encLength := RunningLength(lengthRems, remR, idx, selRes - idx, vals);
    encLength := encLength - encIdx;
    assert encLength == CodeLength(vals[idx]);
    v := ReadCode(storeTable, idx, encIdx, encLength, vals);
  }

  /** A code of known place and length stands for the value. */
  method ReadCode(storeTable: seq<Word>, ghost idx: nat, encIdx: nat, encLength: nat, ghost vals: seq<nat>)
    returns (v: Uint32)
    requires idx < |vals| && Encodable(vals) && CodesStored(Bits(storeTable), vals, |vals|)
    requires encIdx == TotalLength(vals, idx) && encLength == CodeLength(vals[idx])
    ensures v == vals[idx]
  {
    hide *;
    CodeFound(Bits(storeTable), vals, idx);
    if encLength == 0 {
      return 0;
    }
    var stored := GetBitsAtPos(storeTable, encIdx, encLength);
    v := stored + (Pow2(encLength) - 1);
  }

  lemma CodeFound(b: seq<bool>, vals: seq<nat>, idx: nat)
    requires idx < |vals| && Encodable(vals) && CodesStored(b, vals, |vals|)
    ensures var pos, len := TotalLength(vals, idx), CodeLength(vals[idx]);
            && pos + len <= |b| && len <= 31 && (vals[idx] == 0 <==> len == 0)
            && Value(b[pos..pos + len]) + (Pow2(len) - 1) == vals[idx] < WORD_LIMIT
  {
    hide Value, Pow2, ILog2, TotalLength, CodeLength;
    CodeFits(vals[idx]);
    assert CodeStored(b, vals, idx);
  }

  // ---------- the packed form ----------

  /** The words at `mem` are a dumped structure that holds `vals`; more words may follow. */
  ghost predicate PackedStores(mem: seq<Word>, vals: seq<nat>) {
    && |mem| >= 4 && |vals| >= 1 && Encodable(vals)
    && FromWord(mem[0]) == |vals|
    && PackedTables(mem, vals, FromWord(mem[1]), FromWord(mem[3]) / 4)
  }

  ghost predicate PackedTables(mem: seq<Word>, vals: seq<nat>, r: nat, selSize: nat) {
    var m := ShiftRight(TotalLength(vals, |vals|), r);
    var rems := 4 + selSize;
    var store := rems + WordsFor(FieldPos(|vals|, r));
    && 1 <= r <= 31 && |mem| >= store && m < WORD_LIMIT
    && PackedHolds(mem[4..], Quotients(vals, r), m)
    && RemaindersStored(Bits(mem[rems..]), vals, r, |vals|)
    && CodesStored(Bits(mem[store..]), vals, |vals|)
  }

  /** `compressed_seq_query_packed`: the same query, on pointers found from the header. */
  method QueryPacked(mem: seq<Word>, idx: nat, ghost vals: seq<nat>) returns (v: Uint32)
    requires PackedStores(mem, vals) && idx < |vals|
    ensures v == vals[idx]
  {
    var n, remR, buflenSel := FromWord(mem[0]), FromWord(mem[1]), FromWord(mem[3]);
    var selPacked, lengthRems, storeTable := Pointers(mem, buflenSel / 4, n, remR);
    v := QueryTables(selPacked, lengthRems, storeTable, remR, idx, vals);
  }

  /** The pointer arithmetic past the header and the select structure. */
  method Pointers(mem: seq<Word>, selSize: nat, n: nat, remR: nat)
    returns (selPacked: seq<Word>, lengthRems: seq<Word>, storeTable: seq<Word>)
    requires 4 + selSize + WordsFor(FieldPos(n, remR)) <= |mem|
    ensures selPacked == mem[4..] && lengthRems == mem[4 + selSize..]
    ensures storeTable == mem[4 + selSize + WordsFor(FieldPos(n, remR))..]
  {
    FieldPosIsProduct(n, remR);
    selPacked := mem[4..];
    lengthRems := selPacked[selSize..];
    storeTable := lengthRems[WordsFor(n * remR)..];
  }

  method QueryTables(selPacked: seq<Word>, lengthRems: seq<Word>, storeTable: seq<Word>, remR: nat, idx: nat,
                     ghost vals: seq<nat>) returns (v: Uint32)
    requires idx < |vals| && 1 <= remR <= 31 && Encodable(vals)
    requires ShiftRight(TotalLength(vals, |vals|), remR) < WORD_LIMIT
    requires PackedHolds(selPacked, Quotients(vals, remR), ShiftRight(TotalLength(vals, |vals|), remR))
    requires RemaindersStored(Bits(lengthRems), vals, remR, |vals|)
    requires CodesStored(Bits(storeTable), vals, |vals|)
    ensures v == vals[idx]
  {
    hide Quotients, TotalLength, RemaindersStored, CodesStored, Bits, PackedHolds;
    ghost var q, m := Quotients(vals, remR), ShiftRight(TotalLength(vals, |vals|), remR);
    var prevSel, selRes := 0, 0;
    if idx == 0 {
      selRes := Select.QueryPacked(selPacked, 0, q, m);
    } else {
      prevSel := Select.QueryPacked(selPacked, idx - 1, q, m);
      selRes := Select.NextQueryPacked(selPacked, prevSel, idx - 1, q, m);
    }
    v := Decode(lengthRems, storeTable, remR, idx, prevSel, selRes, vals);
  }
}
