/**
 Johnny's use of the hash function: at start-up the files are moved to the slots that
 the hash gives their names (johnny_setup.c), and a request is answered with the file
 in the slot of the requested name, if that is its name (johnny_worker.c).
 */
module Johnny {
  import opened Words
  import opened Hashing
  import opened Options
  import Chd
  import ChdPh
  import ChdPhMapping
  import ChdPhSearching
  import CompressedRank
  import PerfectHashing

  const HTTP_404: string := "HTTP/1.1 404 Not Found\r\nContent-length: 0\r\n\r\n"

  /** A C string ends at its first zero. */
  type CString = s: string | '\0' !in s

  /** What `strlen` and `strcmp` see of the characters from a pointer on */
  function Terminated(s: string): (r: CString)
    ensures r <= s && (|r| < |s| ==> s[|r|] == '\0')
  {
    if s == [] || s[0] == '\0' then [] else [s[0]] + Terminated(s[1..])
  }

  /** `johnny_file`; a response carries its own length. */
  datatype JohnnyFile = JohnnyFile(urlEncodedFileName: CString, response: string)

  /** The hash of the stored names: the packed function, and what it was built from. */
  datatype Index = Index(chd: Chd.Chd, ghost n: nat, ghost disp: seq<nat>, ghost b: seq<bool>)

  function Names(files: seq<JohnnyFile>): (names: seq<string>)
    ensures |names| == |files|
  {
    seq(|files|, i requires 0 <= i < |files| => files[i].urlEncodedFileName)
  }

  ghost predicate IndexFor(index: Index, hash: HashFamily<string>, names: seq<string>) {
    index.n < WORD_LIMIT && Chd.BuiltFor(index.chd, hash, names, index.n, index.disp, index.b)
  }

  /** The slot of a name, as `cmph_search` computes it. */
  ghost function Slot(index: Index, hash: HashFamily<string>, name: string): (slot: nat)
    requires 2 <= index.n <= |index.b| && |index.disp| >= 1
  {
    PerfectHashing.TakenBelow(index.b, ChdPh.KeyBin(hash(index.chd.seed, name), index.n, index.disp))
  }

  /** Every file stands in the slot of its name. */
  ghost predicate InSlots(stored: seq<JohnnyFile>, index: Index, hash: HashFamily<string>, files: seq<JohnnyFile>)
    requires IndexFor(index, hash, Names(files))
  {
    && |stored| == |files|
    && (forall i :: 0 <= i < |files| ==> FileInSlot(stored, index, hash, files[i]))
    && (forall r :: 0 <= r < |stored| ==> stored[r] in files)
  }

  ghost predicate FileInSlot(stored: seq<JohnnyFile>, index: Index, hash: HashFamily<string>, file: JohnnyFile)
    requires 2 <= index.n <= |index.b| && |index.disp| >= 1
  {
    var slot := Slot(index, hash, file.urlEncodedFileName);
    slot < |stored| && stored[slot] == file
  }

  /** The slots of the files, in the order of the files. */
  ghost function Slots(index: Index, hash: HashFamily<string>, files: seq<JohnnyFile>): (slots: seq<nat>)
    requires 2 <= index.n <= |index.b| && |index.disp| >= 1
    ensures |slots| == |files|
    ensures forall i :: 0 <= i < |files| ==> slots[i] == Slot(index, hash, files[i].urlEncodedFileName)
  {
    Chd.Values(hash, index.chd.seed, Names(files), index.n, index.disp, index.b)
  }

  /** The first `k` files are in their slots. */
  ghost predicate Moved(out: seq<JohnnyFile>, files: seq<JohnnyFile>, slots: seq<nat>, k: nat)
    requires k <= |files| == |slots|
  {
    |out| == |files| && forall i :: 0 <= i < k ==> slots[i] < |out| && out[slots[i]] == files[i]
  }

  lemma MoveOne(out: seq<JohnnyFile>, files: seq<JohnnyFile>, slots: seq<nat>, k: nat)
    requires k < |files| == |slots| && PerfectHashing.MinimalPerfect(slots) && Moved(out, files, slots, k)
    ensures slots[k] < |out| && Moved(out[slots[k] := files[k]], files, slots, k + 1)
  {
  }

  /** All slots are filled once every file has been moved. */
  lemma AllMoved(out: seq<JohnnyFile>, index: Index, hash: HashFamily<string>, files: seq<JohnnyFile>)
    requires IndexFor(index, hash, Names(files))
    requires PerfectHashing.MinimalPerfect(Slots(index, hash, files))
    requires Moved(out, files, Slots(index, hash, files), |files|)
    ensures InSlots(out, index, hash, files)
  {
    var slots := Slots(index, hash, files);
    forall r | 0 <= r < |out|
      ensures out[r] in files
    {
      assert r in slots;
      var i :| 0 <= i < |slots| && slots[i] == r;
      assert out[slots[i]] == files[i];
    }
  }

  method Search(index: Index, hash: HashFamily<string>, name: string) returns (slot: nat)
    requires index.n < WORD_LIMIT && Chd.Represents(index.chd, index.n, index.disp, index.b)
    ensures slot == Slot(index, hash, name)
  {
    slot := Chd.Search(index.chd, hash, name, index.n, index.disp, index.b);
  }

  /** `reorder_johnny_files` */
  method ReorderFiles(files: array<JohnnyFile>, index: Index, hash: HashFamily<string>)
    returns (reordered: array<JohnnyFile>)
    requires IndexFor(index, hash, Names(files[..]))
    ensures fresh(reordered) && InSlots(reordered[..], index, hash, files[..])
  {
    ghost var all := files[..];
    ghost var slots := Slots(index, hash, all);
    Chd.BuiltIsMinimalPerfect(index.chd, hash, Names(all), index.n, index.disp, index.b);
    reordered := new JohnnyFile[files.Length](_ => JohnnyFile("", ""));
    for moveFrom := 0 to files.Length
      invariant files[..] == all && Moved(reordered[..], all, slots, moveFrom)
    {
      var moveTo := Search(index, hash, files[moveFrom].urlEncodedFileName);
      assert moveTo == slots[moveFrom];
      MoveOne(reordered[..], all, slots, moveFrom);
      ghost var before := reordered[..];
      reordered[moveTo] := files[moveFrom];
      assert reordered[..] == before[moveTo := all[moveFrom]];
    }
    AllMoved(reordered[..], index, hash, all);
  }

  /** Johnny's two globals */
  class Server {
    var files: array<JohnnyFile>
    var index: Index

    ghost predicate Holds(hash: HashFamily<string>, stored: seq<JohnnyFile>)
      reads this, files
    {
      IndexFor(index, hash, Names(stored)) && InSlots(files[..], index, hash, stored)
    }

    /** The end of `johnny_setup_files`, when the hash function could be built */
    constructor (files: array<JohnnyFile>, index: Index, hash: HashFamily<string>)
      requires IndexFor(index, hash, Names(files[..]))
      ensures Holds(hash, files[..]) && this.index == index
    {
      this.index := index;
      this.files := files;
      new;
      this.files := ReorderFiles(files, index, hash);
    }

    /** The lookup of `johnny_sends_response`. Without a result, the slot is past the table: the source does not check
        it, and what it reads there is not defined. The name is a C string, so that characters after a zero do not
        count. */
    method Respond(hash: HashFamily<string>, fileName: string, ghost stored: seq<JohnnyFile>)
      returns (response: Option<string>)
      requires Holds(hash, stored)
      ensures response.None? <==> Slot(index, hash, Terminated(fileName)) == |stored|
      ensures forall i :: 0 <= i < |stored| && stored[i].urlEncodedFileName == Terminated(fileName) ==>
                response == Some(stored[i].response)
      ensures Terminated(fileName) !in Names(stored) && response.Some? ==>
                response == Some("HTTP/1.1 404 Not Found\r\nContent-length: 0\r\n\r\n")
    {
      var name := Terminated(fileName);
      SlotInTable(index, hash, stored, name);
      var slot := Search(index, hash, name);
      if slot >= files.Length {
        NotStored(stored, name);
        return None;
      }
      var file := files[slot];
      var found := name == file.urlEncodedFileName;
      response := Some(if found then file.response else HTTP_404);
      StoredAnswer(files[..], index, hash, stored, name);
    }
  }

  lemma NotStored(files: seq<JohnnyFile>, name: string)
    requires name !in Names(files)
    ensures forall i :: 0 <= i < |files| ==> files[i].urlEncodedFileName != name
  {
    forall i | 0 <= i < |files|
      ensures files[i].urlEncodedFileName != name
    {
      assert Names(files)[i] in Names(files);
    }
  }

  /** A stored name has its file in its slot, and another name does not. */
  lemma StoredAnswer(stored: seq<JohnnyFile>, index: Index, hash: HashFamily<string>, files: seq<JohnnyFile>,
                     name: string)
    requires IndexFor(index, hash, Names(files)) && InSlots(stored, index, hash, files)
    requires Slot(index, hash, name) < |stored|
    ensures forall i :: 0 <= i < |files| && files[i].urlEncodedFileName == name ==>
                          stored[Slot(index, hash, name)] == files[i]
    ensures name in Names(files) <==> stored[Slot(index, hash, name)].urlEncodedFileName == name
  {
    var slot := Slot(index, hash, name);
    forall i | 0 <= i < |files| && files[i].urlEncodedFileName == name
      ensures stored[slot] == files[i]
    {
      assert FileInSlot(stored, index, hash, files[i]);
    }
    var j :| 0 <= j < |files| && files[j] == stored[slot];
    assert Names(files)[j] == files[j].urlEncodedFileName;
    if name in Names(files) {
      var i :| 0 <= i < |files| && Names(files)[i] == name;
      assert files[i].urlEncodedFileName == name;
    }
  }

  /** The slot of a name is in the table exactly when an occupied bin lies at or above its bin;
      for every stored name it is. */
  lemma SlotInTable(index: Index, hash: HashFamily<string>, files: seq<JohnnyFile>, name: string)
    requires IndexFor(index, hash, Names(files))
    ensures Slot(index, hash, name) <= |files|
    ensures Slot(index, hash, name) < |files| <==>
            exists k :: ChdPh.KeyBin(hash(index.chd.seed, name), index.n, index.disp) <= k < |index.b| && index.b[k]
    ensures name in Names(files) || index.b[index.n - 1] ==> Slot(index, hash, name) < |files|
  {
    Chd.BuiltValueInRange(index.chd, hash, Names(files), index.n, index.disp, index.b, name);
    if name in Names(files) {
      Chd.BuiltIsMinimalPerfect(index.chd, hash, Names(files), index.n, index.disp, index.b);
      var i :| 0 <= i < |files| && Names(files)[i] == name;
      assert Slots(index, hash, files)[i] < |files|;
    }
  }

  /** A hash vector that sends a key to the last bin */
  function ToLastBin(n: nat, disp: seq<nat>): (hl: HashVector)
    requires 2 <= n < WORD_LIMIT && |disp| >= 1
  {
    var probe0, probe1 := ChdPhSearching.Probe0(disp[0], n), ChdPhSearching.Probe1(disp[0], n);
    HashVector(0, n - 1 - Mod(probe0 + probe1, n), 0)
  }

  lemma LastBinReached(n: nat, disp: seq<nat>)
    requires 2 <= n < WORD_LIMIT && |disp| >= 1
    ensures ChdPh.KeyBin(ToLastBin(n, disp), n, disp) == n - 1
  {
    var probe0, probe1 := ChdPhSearching.Probe0(disp[0], n), ChdPhSearching.Probe1(disp[0], n);
    var rest := Mod(probe0 + probe1, n);
    var mi := ChdPhMapping.MapKey(ToLastBin(n, disp), n, |disp|);
    assert mi == ChdPhMapping.MapItem(ChdPhMapping.Item(n - 1 - rest, 1), 0);
    ChdPhSearching.BinFormula(mi.item, probe0, probe1, n);
    ModIsRemainder(probe0 + probe1, n);
    assert n - 1 - rest + 1 * probe0 + probe1 == Div(probe0 + probe1, n) * n + (n - 1) by {
      DivModSum(probe0 + probe1, n);
    }
    DivModUnique(n - 1 - rest + 1 * probe0 + probe1, n, Div(probe0 + probe1, n), n - 1);
  }

  lemma {:induction false} DivModSum(x: nat, d: nat)
    requires d >= 1
    ensures x == Div(x, d) * d + Mod(x, d)
  {
    if x >= d {
      DivModSum(x - d, d);
    }
  }

  /** Hash functions that agree on the keys give them the same bins. */
  lemma SameBins(hash: HashFamily<string>, hash': HashFamily<string>, seed: nat, names: seq<string>, n: nat,
                 disp: seq<nat>)
    requires n >= 2 && |disp| >= 1 && forall i :: 0 <= i < |names| ==> hash'(seed, names[i]) == hash(seed, names[i])
    ensures ChdPh.KeyBins(hash', seed, names, n, disp) == ChdPh.KeyBins(hash, seed, names, n, disp)
  {
    hide ChdPh.KeyBin;
    var bins, bins' := ChdPh.KeyBins(hash, seed, names, n, disp), ChdPh.KeyBins(hash', seed, names, n, disp);
    forall i | 0 <= i < |names|
      ensures bins'[i] == bins[i]
    {
      assert bins[i] == ChdPh.KeyBin(hash(seed, names[i]), n, disp);
      assert bins'[i] == ChdPh.KeyBin(hash'(seed, names[i]), n, disp);
    }
  }

  /** No bin is taken from the last one on, if that is free. */
  lemma NothingFromLastBin(index: Index, hash: HashFamily<string>, names: seq<string>)
    requires IndexFor(index, hash, names) && !index.b[index.n - 1]
    ensures forall k :: index.n - 1 <= k < |index.b| ==> !index.b[k]
  {
    Chd.BinsBelow(hash, index.chd.seed, names, index.n, index.disp);
  }

  /** A hash function changed for one name only */
  function WithHash(hash: HashFamily<string>, name: string, hl: HashVector): HashFamily<string> {
    (seed: nat, other: string) => if other == name then hl else hash(seed, other)
  }

  /** The input that leaves the table: whenever the last bin is free, some hash function that does not differ on the
      stored names gives another name a slot past the table. */
  lemma SlotCanLeaveTable(index: Index, hash: HashFamily<string>, files: seq<JohnnyFile>, name: string)
    returns (hash': HashFamily<string>)
    requires IndexFor(index, hash, Names(files)) && name !in Names(files)
    requires !index.b[index.n - 1]
    ensures forall seed, other :: other != name ==> hash'(seed, other) == hash(seed, other)
    ensures IndexFor(index, hash', Names(files)) && Slot(index, hash', name) == |files|
  {
    hash' := WithHash(hash, name, ToLastBin(index.n, index.disp));
    LastBinReached(index.n, index.disp);
    forall i | 0 <= i < |files|
      ensures Names(files)[i] != name
    {
      assert Names(files)[i] in Names(files);
    }
    NothingFromLastBin(index, hash, Names(files));
    SameBins(hash, hash', index.chd.seed, Names(files), index.n, index.disp);
    hide ToLastBin, ChdPh.KeyBin, ChdPh.KeyBins, ChdPh.PackedHashes, CompressedRank.PackedRanks;
    SlotInTable(index, hash', files, name);
  }
}
