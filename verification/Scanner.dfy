/**
 Johnny's resumable request scanner (johnny_worker.c): it finds the requested file
 names in a byte stream that arrives buffer by buffer.
 */
module Scanner {
  import opened Options

  const BLANK_LINE: string := "\r\n\r\n"
  const BUFFER_SIZE: nat := 1024

  // ---------- the whole stream, byte by byte ----------

  /** Looking for the end of a request, skipping to the next name, or inside a name. */
  datatype State = Match(matched: nat) | Skip(left: nat) | InName(part: string)

  /** A state the machine can be in. */
  predicate Proper(st: State) {
    (st.Match? ==> st.matched < 4) && (st.InName? ==> st.part != "")
  }

  /** What one byte does: the next state, and the name it completes. */
  function Step(st: State, c: char): (r: (State, Option<string>))
    requires Proper(st)
    ensures Proper(r.0)
  {
    match st
    case Match(k) =>
      if c != BLANK_LINE[k] then (Match(0), None)
      else if k == 3 then (Skip(5), None)
      else (Match(k + 1), None)
    case Skip(l) =>
      if l > 0 then (Skip(l - 1), None)
      else if c == ' ' then (Match(0), Some(""))
      else (InName([c]), None)
    case InName(part) =>
      if c == ' ' then (Match(0), Some(part)) else (InName(part + [c]), None)
  }

  /** The names in a stream, and the state after it. */
  function Run(st: State, s: string): (r: (seq<string>, State))
    requires Proper(st)
    ensures Proper(r.1)
    decreases |s|
  {
    if s == [] then ([], st)
    else
      var (next, name) := Step(st, s[0]);
      var (names, last) := Run(next, s[1..]);
      ((if name.Some? then [name.value] else []) + names, last)
  }

  lemma {:induction false} RunConcat(st: State, a: string, b: string)
    requires Proper(st)
    ensures Run(st, a + b).0 == Run(st, a).0 + Run(Run(st, a).1, b).0
    ensures Run(st, a + b).1 == Run(Run(st, a).1, b).1
    decreases |a|
  {
    if a == [] {
      assert a + b == b;
    } else {
      assert (a + b)[1..] == a[1..] + b;
      RunConcat(Step(st, a[0]).0, a[1..], b);
    }
  }

  // ---------- the first name of a stream ----------

  /** The first name and what follows it, or the state in which the stream ends. */
  datatype First = Found(name: string, rest: string) | Ended(st: State)

  function FirstName(st: State, s: string): (r: First)
    requires Proper(st)
    ensures r.Found? ==> |r.rest| < |s| && r.rest == s[|s| - |r.rest|..]
    ensures r.Ended? ==> Proper(r.st)
    decreases |s|
  {
    if s == [] then Ended(st)
    else
      var (next, name) := Step(st, s[0]);
      if name.Some? then Found(name.value, s[1..]) else FirstName(next, s[1..])
  }

  lemma {:induction false} RunFromFirst(st: State, s: string)
    requires Proper(st)
    ensures match FirstName(st, s)
            case Found(name, rest) => Run(st, s) == ([name] + Run(Match(0), rest).0, Run(Match(0), rest).1)
            case Ended(last) => Run(st, s) == ([], last)
    decreases |s|
  {
    if s != [] {
      hide Step;
      var (next, name) := Step(st, s[0]);
      if name.None? {
        RunFromFirst(next, s[1..]);
        assert [] + Run(next, s[1..]).0 == Run(next, s[1..]).0;
      } else {
        assert FirstName(st, s) == Found(name.value, s[1..]);
        FoundEndsName(st, s[0]);
      }
    }
  }

  /** After a name, the next blank line is looked for. */
  lemma FoundEndsName(st: State, c: char)
    requires Proper(st) && Step(st, c).1.Some?
    ensures Step(st, c).0 == Match(0)
  {
  }

  lemma {:induction false} SkipInside(left: nat, s: string)
    requires left < |s|
    ensures FirstName(Skip(left), s) == FirstName(Skip(0), s[left..])
  {
    if left == 0 {
      assert s[0..] == s;
    } else {
      SkipInside(left - 1, s[1..]);
      assert s[1..][left - 1..] == s[left..];
    }
  }

  lemma {:induction false} SkipBeyond(left: nat, s: string)
    requires left >= |s|
    ensures FirstName(Skip(left), s) == Ended(Skip(left - |s|))
  {
    if s != [] {
      SkipBeyond(left - 1, s[1..]);
    }
  }

  lemma {:induction false} NameEndsAt(part: string, s: string, e: nat)
    requires part != "" && e <= |s| && ' ' !in s[..e] && (e < |s| ==> s[e] == ' ')
    ensures FirstName(InName(part), s) == if e < |s| then Found(part + s[..e], s[e + 1..]) else Ended(InName(part + s))
    decreases |s|
  {
    if s == [] {
      assert part + s == part;
    } else if e == 0 {
      assert part + s[..0] == part;
    } else {
      assert s[0] in s[..e];
      PartGrows(part, s, e);
      NameEndsAt(part + [s[0]], s[1..], e - 1);
    }
  }

  lemma PartGrows(part: string, s: string, e: nat)
    requires 1 <= e <= |s|
    ensures s[1..][..e - 1] == s[..e][1..]
    ensures part + [s[0]] + s[1..][..e - 1] == part + s[..e]
    ensures part + [s[0]] + s[1..] == part + s
  {
  }

  lemma FirstByteOfName(s: string)
    requires s != []
    ensures FirstName(Skip(0), s) == if s[0] == ' ' then Found("", s[1..]) else FirstName(InName([s[0]]), s[1..])
  {
    var (next, name) := Step(Skip(0), s[0]);
    assert FirstName(Skip(0), s) == if name.Some? then Found(name.value, s[1..]) else FirstName(next, s[1..]);
    hide FirstName;
  }

  /** A name starts where the skipping ends. */
  lemma NameFromSkip(s: string, e: nat)
    requires s != [] && e <= |s| && ' ' !in s[..e] && (e < |s| ==> s[e] == ' ')
    ensures FirstName(Skip(0), s) == if e < |s| then Found(s[..e], s[e + 1..]) else Ended(InName(s))
  {
    hide FirstName;
    FirstByteOfName(s);
    if e == 0 {
      assert s[..0] == "";
    } else {
      assert s[0] in s[..e];
      HeadAndTail(s, e);
      NameEndsAt([s[0]], s[1..], e - 1);
    }
  }

  lemma HeadAndTail(s: string, e: nat)
    requires 1 <= e <= |s|
    ensures s[1..][..e - 1] == s[..e][1..]
    ensures [s[0]] + s[1..][..e - 1] == s[..e]
    ensures [s[0]] + s[1..] == s
  {
  }

  // ---------- one connection ----------

  /** The first space at or after `from`, or the end: what `memchr` finds. */
  method FindSpace(s: string) returns (e: nat)
    ensures e <= |s| && ' ' !in s[..e] && (e < |s| ==> s[e] == ' ')
  {
    e := 0;
    while e < |s| && s[e] != ' '
      invariant e <= |s| && ' ' !in s[..e]
    {
      e := e + 1;
    }
  }

  /** When a name is cut off by the end of a buffer, its bytes are dropped and a new name is expected. */
  function Settled(st: State): State {
    if st.InName? then Skip(0) else st
  }

  /** The state that a prefix counter stands for: from 4 on it says how much of the skip before a name is done. */
  function CounterState(counter: nat): (st: State)
    requires counter <= 9
    ensures Proper(st)
  {
    if counter < 4 then Match(counter) else Skip(9 - counter)
  }

  /** The next value of the counter while it matches the blank line. */
  function NextCounter(counter: nat, c: char): (next: nat)
    requires counter < 4
    ensures next <= 4
  {
    if c == BLANK_LINE[counter] then counter + 1 else 0
  }

  lemma ScanByte(counter: nat, s: string)
    requires counter < 4 && s != []
    ensures FirstName(CounterState(counter), s) == FirstName(CounterState(NextCounter(counter, s[0])), s[1..])
  {
  }

  /** The names found so far and those ahead, when the first of these is taken */
  lemma NamesAhead(names: seq<string>, st: State, s: string)
    requires Proper(st)
    ensures match FirstName(st, s)
            case Found(name, rest) =>
              names + Run(st, s).0 == names + [name] + Run(Match(0), rest).0
              && Run(st, s).1 == Run(Match(0), rest).1
            case Ended(last) => names + Run(st, s).0 == names && Run(st, s).1 == last
  {
    hide Run, FirstName;
    RunFromFirst(st, s);
    assert names + [] == names;
  }

  lemma ChunkAhead(names: seq<string>, st: State, chunks: seq<string>, i: nat)
    requires Proper(st) && i < |chunks|
    ensures names + ChunkedNames(st, chunks[i..])
            == names + Run(st, chunks[i]).0 + ChunkedNames(Settled(Run(st, chunks[i]).1), chunks[i + 1..])
  {
    hide Run;
    assert chunks[i..][0] == chunks[i] && chunks[i..][1..] == chunks[i + 1..];
  }

  lemma NoChunks(st: State, chunks: seq<string>)
    requires Proper(st) && chunks == []
    ensures ChunkedNames(st, chunks) == []
  {
  }

  lemma NothingAhead(st: State, s: string)
    requires Proper(st) && s == []
    ensures FirstName(st, s) == Ended(st)
  {
  }

  /** The scanner's part of `connection_context`, and the buffer of the connection */
  class Connection {
    var prefixCounter: nat
    var bufferOffset: nat
    var bufferSize: nat
    var buffer: array<char>

    constructor ()
      ensures Valid() && fresh(buffer) && buffer.Length == 1024 && bufferSize == 0 && Abstract() == Skip(5)
    {
      prefixCounter, bufferOffset, bufferSize := 4, 0, 0;
      buffer := new char[BUFFER_SIZE](_ => '\0');
    }

    ghost predicate Valid()
      reads this, buffer
    {
      && buffer.Length == BUFFER_SIZE && bufferSize <= BUFFER_SIZE
      && bufferOffset <= bufferSize && prefixCounter <= 9
    }

    function Abstract(): (st: State)
      requires prefixCounter <= 9
      reads this
      ensures Proper(st)
    {
      CounterState(prefixCounter)
    }

    /** The bytes still to be scanned. */
    function Unscanned(): string
      requires Valid()
      reads this, buffer
    {
      buffer[bufferOffset..bufferSize]
    }

    /** `recv` into the empty buffer. */
    method Receive(chunk: string)
      requires Valid() && bufferSize == 0 && |chunk| <= BUFFER_SIZE
      modifies this, buffer
      ensures Valid() && Unscanned() == chunk && prefixCounter == old(prefixCounter) && buffer == old(buffer)
    {
      for i := 0 to |chunk|
        invariant buffer[..i] == chunk[..i]
        invariant prefixCounter == old(prefixCounter) && buffer == old(buffer) && bufferOffset == old(bufferOffset)
        invariant buffer.Length == BUFFER_SIZE
        modifies buffer
      {
        buffer[i] := chunk[i];
      }
      bufferSize := |chunk|;
    }

    /** What a call must do when the scan of its bytes ends as `found`. */
    ghost predicate Answers(found: First, name: Option<string>)
      reads this, buffer
    {
      && Valid()
      && match found
         case Found(w, rest) => name == Some(w) && Unscanned() == rest && Abstract() == Match(0)
         case Ended(st) => name == None && bufferSize == 0 && Abstract() == Settled(st)
    }

    /** `johnny_finds_filename` */
    method FindFilename() returns (name: Option<string>)
      requires Valid()
      modifies this, buffer
      ensures buffer == old(buffer) && Answers(old(FirstName(Abstract(), Unscanned())), name)
    {
      hide FirstName, NextCounter;
      ghost var found := FirstName(Abstract(), Unscanned());
      var counter := prefixCounter;
      var bytesParsed := bufferOffset;
      while bytesParsed < bufferSize
        invariant bufferOffset <= bytesParsed <= bufferSize && 0 <= counter <= 9
        invariant FirstName(CounterState(counter), buffer[bytesParsed..bufferSize]) == found
        modifies {}
      {
        if counter >= 4 {
          break;
        }
        ScanByte(counter, buffer[bytesParsed..bufferSize]);
        assert buffer[bytesParsed..bufferSize][1..] == buffer[bytesParsed + 1..bufferSize];
        counter := NextCounter(counter, buffer[bytesParsed]);
        bytesParsed := bytesParsed + 1;
      }
      if bytesParsed < bufferSize {
        name := ReadName(bytesParsed, counter, found);
        return;
      }
      NothingAhead(CounterState(counter), buffer[bytesParsed..bufferSize]);
      prefixCounter := counter;
      bufferOffset, bufferSize := 0, 0;
      return None;
    }

    /** The branch of `johnny_finds_filename` that skips to a name. */
    method ReadName(position: nat, counter: nat, ghost found: First) returns (name: Option<string>)
      requires Valid() && bufferOffset <= position < bufferSize && 4 <= counter <= 9
      requires FirstName(CounterState(counter), buffer[position..bufferSize]) == found
      modifies this, buffer
      ensures buffer == old(buffer) && Answers(found, name)
    {
      hide FirstName;
      ghost var ahead, skip := buffer[position..bufferSize], 9 - counter;
      var bytesParsed := position + (9 - counter);
      if bytesParsed >= bufferSize {
        SkipBeyond(skip, ahead);
        prefixCounter := 9 - (bytesParsed - bufferSize);
        bufferOffset, bufferSize := 0, 0;
        return None;
      }
      SkipInside(skip, ahead);
      assert ahead[skip..] == buffer[bytesParsed..bufferSize];
      name := TakeName(bytesParsed, found);
    }

    /** The part of `johnny_finds_filename` from the start of a name on. */
    method TakeName(bytesParsed: nat, ghost found: First) returns (name: Option<string>)
      requires Valid() && bufferOffset <= bytesParsed < bufferSize
      requires FirstName(Skip(0), buffer[bytesParsed..bufferSize]) == found
      modifies this, buffer
      ensures buffer == old(buffer) && Answers(found, name)
    {
      hide FirstName;
      var ahead := buffer[bytesParsed..bufferSize];
      var e := FindSpace(ahead);
      NameFromSkip(ahead, e);
      if e == |ahead| {
        prefixCounter, bufferOffset, bufferSize := 9, 0, 0;
        return None;
      }
      name := Some(ahead[..e]);
      buffer[bytesParsed + e] := '\0';
      bufferOffset := bytesParsed + e + 1;
      prefixCounter := 0;
      assert ahead[e + 1..] == buffer[bytesParsed + e + 1..bufferSize];
    }

    /** `johnny_handles_requests`: all the names of a buffer, in order. */
    method HandleRequests() returns (names: seq<string>)
      requires Valid()
      modifies this, buffer
      ensures Valid() && buffer == old(buffer) && bufferSize == 0
      ensures names == old(Run(Abstract(), Unscanned()).0)
      ensures Abstract() == Settled(old(Run(Abstract(), Unscanned()).1))
    {
      hide Run, FirstName;
      ghost var expected, last := Run(Abstract(), Unscanned()).0, Run(Abstract(), Unscanned()).1;
      names := [];
      while true
        invariant Valid() && buffer == old(buffer)
        invariant names + Run(Abstract(), Unscanned()).0 == expected && Run(Abstract(), Unscanned()).1 == last
        decreases |Unscanned()|
      {
        NamesAhead(names, Abstract(), Unscanned());
        var name := FindFilename();
        if name == None {
          break;
        }
        names := names + [name.value];
      }
    }

    /** A whole connection: buffers are received and handled one after the other. */
    method Serve(chunks: seq<string>) returns (names: seq<string>)
      requires Valid() && bufferSize == 0
      requires forall i :: 0 <= i < |chunks| ==> |chunks[i]| <= BUFFER_SIZE
      modifies this, buffer
      ensures Valid()
      ensures names == ChunkedNames(old(Abstract()), chunks)
    {
      hide Run, ChunkedNames, CounterState;
      names := [];
      assert chunks[0..] == chunks && names + ChunkedNames(Abstract(), chunks) == ChunkedNames(Abstract(), chunks);
      for i := 0 to |chunks|
        invariant Valid() && bufferSize == 0 && buffer == old(buffer)
        invariant names + ChunkedNames(Abstract(), chunks[i..]) == ChunkedNames(old(Abstract()), chunks)
        modifies this, buffer
      {
        ChunkAhead(names, Abstract(), chunks, i);
        Receive(chunks[i]);
        var more := HandleRequests();
        names := names + more;
      }
      NoChunks(Abstract(), chunks[|chunks|..]);
    }
  }

  // ---------- chunking ----------

  /** The names that a connection finds when the stream arrives in these chunks. */
  function ChunkedNames(st: State, chunks: seq<string>): (names: seq<string>)
    requires Proper(st)
    decreases |chunks|
  {
    if chunks == [] then []
    else Run(st, chunks[0]).0 + ChunkedNames(Settled(Run(st, chunks[0]).1), chunks[1..])
  }

  function Joined(chunks: seq<string>): (s: string) {
    if chunks == [] then [] else chunks[0] + Joined(chunks[1..])
  }

  /** No chunk ends strictly inside a name that is completed later. */
  ghost predicate NoCutInsideName(st: State, chunks: seq<string>)
    requires Proper(st)
    decreases |chunks|
  {
    chunks != [] ==>
      var last := Run(st, chunks[0]).1;
      && (last.InName? ==> ' ' !in Joined(chunks[1..]))
      && NoCutInsideName(Settled(last), chunks[1..])
  }

  /** The rest of a name is what a fresh scan finds there; everything after is the same. */
  lemma RestOfName(part: string, s: string)
    requires part != ""
    ensures Run(InName(part), s).1 == (if ' ' in s then Run(Skip(0), s).1 else InName(part + s))
    ensures if ' ' in s
            then Run(Skip(0), s).0 != [] &&
                 Run(InName(part), s).0 == [part + Run(Skip(0), s).0[0]] + Run(Skip(0), s).0[1..]
            else Run(Skip(0), s).0 == Run(InName(part), s).0 == []
  {
    var e := FirstSpace(s);
    NameEndsAt(part, s, e);
    RunFromFirst(InName(part), s);
    if s != [] {
      NameFromSkip(s, e);
      RunFromFirst(Skip(0), s);
    }
    if e < |s| {
      assert s[e] in s;
    } else {
      assert s[..e] == s;
    }
  }

  function FirstSpace(s: string): (e: nat)
    ensures e <= |s| && ' ' !in s[..e] && (e < |s| ==> s[e] == ' ')
  {
    if s == [] || s[0] == ' ' then 0
    else
      var e := 1 + FirstSpace(s[1..]);
      assert s[..e] == [s[0]] + s[1..][..e - 1];
      e
  }

  /** The names found chunk by chunk are as many as in the whole stream, and none is longer. */
  lemma {:induction false} ChunkedShorter(st: State, chunks: seq<string>)
    requires Proper(st)
    ensures |ChunkedNames(st, chunks)| == |Run(st, Joined(chunks)).0|
    ensures forall i :: 0 <= i < |ChunkedNames(st, chunks)| ==>
                          |ChunkedNames(st, chunks)[i]| <= |Run(st, Joined(chunks)).0[i]|
    decreases |chunks|
  {
    if chunks != [] {
      var last, rest := Run(st, chunks[0]).1, Joined(chunks[1..]);
      RunConcat(st, chunks[0], rest);
      ChunkedShorter(Settled(last), chunks[1..]);
      if last.InName? {
        RestOfName(last.part, rest);
      }
    }
  }

  /** A cut inside a name shortens it, so the names differ from those of the whole stream. */
  lemma CutNameDiffers(part: string, chunks: seq<string>)
    requires part != ""
    ensures ChunkedNames(Skip(0), chunks) == Run(InName(part), Joined(chunks)).0
            <==> ' ' !in Joined(chunks) && NoCutInsideName(Skip(0), chunks)
    decreases |chunks|, 1
  {
    ChunkedShorter(Skip(0), chunks);
    ChunkingIndependent(Skip(0), chunks);
    RestOfName(part, Joined(chunks));
    if ' ' in Joined(chunks) {
      assert |ChunkedNames(Skip(0), chunks)[0]| < |Run(InName(part), Joined(chunks)).0[0]|;
    }
  }

  /** Chunk by chunk, the scanner finds the same names as over the whole stream if and only if
      no chunk ends inside a name that is completed later. */
  lemma {:induction false} ChunkingIndependent(st: State, chunks: seq<string>)
    requires Proper(st)
    ensures ChunkedNames(st, chunks) == Run(st, Joined(chunks)).0 <==> NoCutInsideName(st, chunks)
    decreases |chunks|, 0
  {
    if chunks != [] {
      var (names, last) := Run(st, chunks[0]);
      var chunked, whole := ChunkedNames(Settled(last), chunks[1..]), Run(last, Joined(chunks[1..])).0;
      RunConcat(st, chunks[0], Joined(chunks[1..]));
      if last.InName? {
        CutNameDiffers(last.part, chunks[1..]);
      } else {
        ChunkingIndependent(last, chunks[1..]);
      }
      SamePrefix(names, chunked, whole);
    }
  }

  lemma SamePrefix<T>(a: seq<T>, b: seq<T>, c: seq<T>)
    ensures a + b == a + c <==> b == c
  {
    assert (a + b)[|a|..] == b && (a + c)[|a|..] == c;
  }

  // ---------- where the next name starts ----------

  predicate BlankLineAt(s: string, p: nat) {
    p + 4 <= |s| && s[p] == '\r' && s[p + 1] == '\n' && s[p + 2] == '\r' && s[p + 3] == '\n'
  }

  /** How many carriage returns in a row the first `k` bytes end with */
  function ReturnsBefore(s: string, k: nat): (n: nat)
    requires k <= |s|
    ensures n <= k
  {
    if k > 0 && s[k - 1] == '\r' then ReturnsBefore(s, k - 1) + 1 else 0
  }

  /** A blank line that the scanner sees: the carriage returns before it come in pairs. After one of a pair it expects
      a line feed, and gets the other, which it does not take for the start of a blank line. */
  predicate SeenAt(s: string, p: nat) {
    BlankLineAt(s, p) && ReturnsBefore(s, p) % 2 == 0
  }

  ghost predicate NoneSeen(s: string, k: nat) {
    forall p :: 0 <= p && p + 4 <= k ==> !SeenAt(s, p)
  }

  /** How much of a blank line is matched after `k` bytes, when none was seen: what they end with, after an even number
      of carriage returns */
  function MatchedAt(s: string, k: nat): (m: nat)
    requires k <= |s|
    ensures m <= 3
  {
    if k >= 3 && s[k - 3] == '\r' && s[k - 2] == '\n' && s[k - 1] == '\r' && ReturnsBefore(s, k - 3) % 2 == 0 then 3
    else if k >= 2 && s[k - 2] == '\r' && s[k - 1] == '\n' && ReturnsBefore(s, k - 2) % 2 == 0 then 2
    else if k >= 1 && s[k - 1] == '\r' && ReturnsBefore(s, k - 1) % 2 == 0 then 1
    else 0
  }

  lemma RunOneMore(st: State, s: string, k: nat)
    requires Proper(st) && k < |s|
    ensures var (next, name) := Step(Run(st, s[..k]).1, s[k]);
            && Run(st, s[..k + 1]).1 == next
            && Run(st, s[..k + 1]).0 == Run(st, s[..k]).0 + (if name.Some? then [name.value] else [])
  {
    assert s[..k + 1] == s[..k] + [s[k]];
    RunConcat(st, s[..k], [s[k]]);
    var (next, name) := Step(Run(st, s[..k]).1, s[k]);
    assert [s[k]][1..] == [];
    assert (if name.Some? then [name.value] else []) + [] == if name.Some? then [name.value] else [];
  }

  /** One more byte, when no blank line was seen before */
  lemma MatchedNext(s: string, k: nat)
    requires k < |s|
    ensures Step(Match(MatchedAt(s, k)), s[k])
            == (if k >= 3 && SeenAt(s, k - 3) then Skip(5) else Match(MatchedAt(s, k + 1)), None)
  {
  }

  /** As long as no blank line is seen, there is no name, and the scanner matches one. */
  lemma {:induction false} NoneSeenYet(s: string, k: nat)
    requires k <= |s| && NoneSeen(s, k)
    ensures Run(Match(0), s[..k]) == ([], Match(MatchedAt(s, k)))
  {
    if k != 0 {
      NoneSeenYet(s, k - 1);
      RunOneMore(Match(0), s, k - 1);
      MatchedNext(s, k - 1);
      hide Run, MatchedAt, ReturnsBefore, Step;
      assert k >= 4 ==> !SeenAt(s, k - 4);
    }
  }

  lemma {:induction false} RunSkips(left: nat, s: string)
    requires left <= |s|
    ensures Run(Skip(left), s) == Run(Skip(0), s[left..])
  {
    if left == 0 {
      assert s[0..] == s;
    } else {
      RunSkips(left - 1, s[1..]);
      assert s[1..][left - 1..] == s[left..];
      var names := Run(Skip(left - 1), s[1..]).0;
      assert [] + names == names;
    }
  }

  /** After a name, a blank line is found where it stands if and only if it is preceded by an even number of carriage
      returns, unless another was found before. */
  lemma FoundIfSeen(s: string, p: nat)
    requires BlankLineAt(s, p) && NoneSeen(s, p + 3)
    ensures Run(Match(0), s[..p + 4]).0 == []
    ensures Run(Match(0), s[..p + 4]).1 == Skip(5) <==> ReturnsBefore(s, p) % 2 == 0
  {
    hide Run, MatchedAt, ReturnsBefore;
    NoneSeenYet(s, p + 3);
    RunOneMore(Match(0), s, p + 3);
    MatchedNext(s, p + 3);
  }

  /** The next name starts 5 bytes after the first blank line that is seen. */
  lemma NextNameStart(s: string, p: nat)
    requires SeenAt(s, p) && p + 9 <= |s| && NoneSeen(s, p + 3)
    ensures Run(Match(0), s) == Run(Skip(0), s[p + 9..])
  {
    hide Run;
    FoundIfSeen(s, p);
    assert s[..p + 4] + s[p + 4..] == s;
    RunConcat(Match(0), s[..p + 4], s[p + 4..]);
    RunSkips(5, s[p + 4..]);
    assert s[p + 4..][5..] == s[p + 9..];
    var names := Run(Skip(0), s[p + 9..]).0;
    assert [] + names == names;
  }

  /** Without one there is no further name. */
  lemma NoneSeenNoName(s: string)
    requires NoneSeen(s, |s|)
    ensures Run(Match(0), s).0 == []
  {
    NoneSeenYet(s, |s|);
    assert s[..|s|] == s;
  }

  /** Without any blank line, none is seen. */
  lemma NoBlankLineNoName(s: string)
    requires forall q :: 0 <= q < |s| ==> !BlankLineAt(s, q)
    ensures Run(Match(0), s).0 == []
  {
    NoneSeenNoName(s);
  }

  /** One carriage return more hides a blank line: the scanner goes on looking. */
  lemma UnpairedReturnHidesBlankLine()
    ensures var s := "\r\r\n\r\n";
            BlankLineAt(s, 1) && Run(Match(0), s) == ([], Match(2))
  {
    var s := "\r\r\n\r\n";
    RunOneMore(Match(0), s, 0);
    RunOneMore(Match(0), s, 1);
    RunOneMore(Match(0), s, 2);
    RunOneMore(Match(0), s, 3);
    RunOneMore(Match(0), s, 4);
    assert s[..0] == [] && s[..5] == s;
  }

  /** A stream that is one name and its end has that name alone. */
  lemma OneName(name: string)
    requires ' ' !in name
    ensures Run(Skip(0), name + " ") == ([name], Match(0))
  {
    var s := name + " ";
    assert s[|name|] == ' ' && s[..|name|] == name && s[|name| + 1..] == [];
    NameFromSkip(s, |name|);
    assert FirstName(Skip(0), s) == Found(name, []);
    RunFromFirst(Skip(0), s);
    assert Run(Match(0), []) == ([], Match(0)) && [name] + [] == [name];
  }

  /** A cut inside a name loses what comes before it: `ab` in one buffer, or `a` in one and `b` in the next. */
  lemma CutLosesHead()
    ensures var chunks := ["a", "b "];
            && Run(Skip(0), Joined(chunks)).0 == ["ab"]
            && ChunkedNames(Skip(0), chunks) == ["b"]
            && !NoCutInsideName(Skip(0), chunks)
  {
    var chunks := ["a", "b "];
    assert chunks[1..] == ["b "] && ["b "][1..] == [];
    assert Joined(["b "]) == "b " + Joined([]) == "b ";
    assert Joined(chunks) == "a" + "b " == "ab" + " ";
    assert "a"[1..] == [] && Step(Skip(0), "a"[0]) == (InName("a"), None);
    assert Run(InName("a"), []) == ([], InName("a"));
    OneName("ab");
    OneName("b");
    hide Run;
    assert ChunkedNames(Skip(0), ["b "]) == ["b"] + ChunkedNames(Match(0), []);
    assert ChunkedNames(Skip(0), chunks) == [] + ChunkedNames(Skip(0), ["b "]);
    assert "b "[1] == ' ';
  }
}
