/** The byte-at-a-time status-line matcher of `readStatusCode`
    (M2XStreamClient.cpp), as pure state-transition functions.
    It loosely matches the nine-byte pattern HeaderText (the HTTP-Version
    and the space of the Status-Line of section 6.1 of RFC 1945, with the
    two version digits as wildcards) and then
    folds the next three bytes into the status code. */
module StatusLine {
  import opened Octets
  import opened Wrappers

  /** The pattern of the header phase; `*` matches any byte. */
  const HeaderText: string := "HTTP/*.* "
  const HeaderLen: nat := 9
  /** The value of `headerIndex` once the third status-code byte is read. */
  const CodeEnd: nat := 12

  /** The two locals of `readStatusCode`. */
  datatype Parse = Parse(headerIndex: int, responseCode: int)

  const Start: Parse := Parse(0, 0)

  /** Whether byte `c` lets pattern position `i` advance. */
  predicate Matches(c: char, i: nat)
    requires i < HeaderLen
  {
    c == HeaderText[i] || HeaderText[i] == '*'
  }

  /** One trip through the body of the inner loop, for the byte `c`. */
  function Step(p: Parse, c: Octet): (q: Parse)
    requires 0 <= p.headerIndex < CodeEnd
    ensures p.headerIndex <= q.headerIndex <= p.headerIndex + 1
    ensures p.headerIndex < HeaderLen ==>
      q.responseCode == p.responseCode &&
      (q.headerIndex == p.headerIndex + 1 <==> Matches(c, p.headerIndex))
    ensures p.headerIndex >= HeaderLen ==>
      q.headerIndex == p.headerIndex + 1 &&
      q.responseCode == p.responseCode * 10 + DigitValue(c)
  {
    if p.headerIndex < HeaderLen then
      if Matches(c, p.headerIndex) then Parse(p.headerIndex + 1, p.responseCode) else p
    else
      Parse(p.headerIndex + 1, p.responseCode * 10 + DigitValue(c))
  }

  /** How far a run of bytes gets: the status code and the number of bytes
      read up to and including the third code byte, or the state reached when
      the bytes run out first. */
  datatype Scanned = Complete(code: int, used: nat) | Incomplete(state: Parse)

  /** Feeds `s` to the matcher starting in state `p`, one byte at a time,
      stopping at once when `headerIndex` reaches 12. */
  function Scan(p: Parse, s: seq<Octet>): (r: Scanned)
    requires 0 <= p.headerIndex < CodeEnd
    ensures r.Complete? ==> CodeEnd - p.headerIndex <= r.used <= |s|
    ensures r.Incomplete? ==> p.headerIndex <= r.state.headerIndex < CodeEnd
    decreases |s|
  {
    if s == [] then Incomplete(p)
    else
      var q := Step(p, s[0]);
      if q.headerIndex == CodeEnd then Complete(q.responseCode, 1)
      else Shift(Scan(q, s[1..]), 1)
  }

  /** The same outcome seen from `k` bytes earlier in the stream. */
  function Shift(r: Scanned, k: nat): (r': Scanned)
    ensures r'.Complete? <==> r.Complete?
  {
    match r
    case Complete(code, used) => Complete(code, used + k)
    case Incomplete(q) => r
  }

  /** Bytes arriving after completion are never looked at; bytes arriving
      when the scan is incomplete continue it from the state it reached. */
  lemma {:induction false} ScanAppend(p: Parse, a: seq<Octet>, b: seq<Octet>)
    requires 0 <= p.headerIndex < CodeEnd
    ensures Scan(p, a + b) == match Scan(p, a)
      case Complete(code, used) => Complete(code, used)
      case Incomplete(q) => Shift(Scan(q, b), |a|)
    decreases |a|
  {
    if a == [] {
      assert a + b == b;
      match Scan(p, b)
      case Complete(_, _) =>
      case Incomplete(_) =>
    } else {
      var q := Step(p, a[0]);
      assert (a + b)[0] == a[0] && (a + b)[1..] == a[1..] + b;
      if q.headerIndex != CodeEnd {
        ScanAppend(q, a[1..], b);
      }
    }
  }

  /** Scanning one more byte. */
  lemma ScanSnoc(p: Parse, a: seq<Octet>, c: Octet)
    requires 0 <= p.headerIndex < CodeEnd
    requires Scan(p, a).Incomplete?
    ensures var q := Step(Scan(p, a).state, c);
      Scan(p, a + [c]) ==
        if q.headerIndex == CodeEnd then Complete(q.responseCode, |a| + 1) else Incomplete(q)
  {
    ScanAppend(p, a, [c]);
  }

  /** The number of bytes the loose matcher consumes to move from pattern
      position `i` to the end of the pattern, if `s` is long enough. */
  function HeaderEnd(i: nat, s: seq<Octet>): (r: Option<nat>)
    requires i <= HeaderLen
    ensures r.Some? ==> HeaderLen - i <= r.value <= |s|
    decreases |s|
  {
    if i == HeaderLen then Some(0)
    else if s == [] then None
    else match HeaderEnd(if Matches(s[0], i) then i + 1 else i, s[1..])
      case None => None
      case Some(n) => Some(n + 1)
  }

  /** The header phase in isolation: it leaves the code at 0 and ends at
      position 9 exactly after the bytes HeaderEnd counts. */
  lemma {:induction false} HeaderPhase(i: nat, s: seq<Octet>)
    requires i <= HeaderLen
    ensures HeaderEnd(i, s).None? ==>
      Scan(Parse(i, 0), s).Incomplete? && Scan(Parse(i, 0), s).state.headerIndex < HeaderLen
    ensures HeaderEnd(i, s).Some? ==>
      Scan(Parse(i, 0), s[..HeaderEnd(i, s).value]) == Incomplete(Parse(HeaderLen, 0))
    decreases |s|
  {
    if i == HeaderLen {
      assert s[..0] == [];
    } else if s != [] {
      var j := if Matches(s[0], i) then i + 1 else i;
      assert Step(Parse(i, 0), s[0]) == Parse(j, 0);
      HeaderPhase(j, s[1..]);
      if HeaderEnd(i, s).Some? {
        var n := HeaderEnd(i, s).value;
        assert s[..n][0] == s[0] && s[..n][1..] == s[1..][..n - 1];
      }
    }
  }

  /** What the matcher computes, stated without its state machine: a status
      line is complete exactly when the loose header match ends with three
      more bytes to spare, and then the code is those three bytes read as a
      decimal number and nothing beyond them is consumed. */
  lemma ScanIsHeaderThenCode(s: seq<Octet>)
    ensures Scan(Start, s).Complete? <==>
      HeaderEnd(0, s).Some? && HeaderEnd(0, s).value + 3 <= |s|
    ensures Scan(Start, s).Complete? ==>
      var h := HeaderEnd(0, s).value;
      Scan(Start, s) == Complete(DecimalValue(s[h..h + 3]), h + 3)
  {
    var e := HeaderEnd(0, s);
    if e.Some? {
      CodeAfterHeaderEnd(s, e.value);
    } else {
      NoHeaderEnd(s);
    }
  }

  /** Without the full header nothing completes. */
  lemma NoHeaderEnd(s: seq<Octet>)
    requires HeaderEnd(0, s).None?
    ensures Scan(Start, s).Incomplete?
  {
    HeaderPhase(0, s);
  }

  /** The header phase ended after `h` bytes: the code phase decides the rest. */
  lemma CodeAfterHeaderEnd(s: seq<Octet>, h: nat)
    requires HeaderEnd(0, s) == Some(h)
    ensures Scan(Start, s).Complete? <==> h + 3 <= |s|
    ensures h + 3 <= |s| ==> Scan(Start, s) == Complete(DecimalValue(s[h..h + 3]), h + 3)
  {
    AfterHeader(s, h);
    CodeAfterHeader(s, h);
    var code := if h + 3 <= |s| then DecimalValue(s[h..h + 3]) else 0;
    ShiftedCode(Scan(Start, s), Scan(Parse(HeaderLen, 0), s[h..]), h, |s| - h, code);
  }

  /** An outcome seen `h` bytes later completes exactly when the original does. */
  lemma ShiftedCode(x: Scanned, r: Scanned, h: nat, n: int, code: int)
    requires x == Shift(r, h)
    requires n >= 3 ==> r == Complete(code, 3)
    requires n < 3 ==> r.Incomplete?
    ensures x.Complete? <==> n >= 3
    ensures n >= 3 ==> x == Complete(code, h + 3)
  {
  }

  /** The code phase from its start at byte `h`: three bytes complete it. */
  lemma CodeAfterHeader(s: seq<Octet>, h: nat)
    requires h <= |s|
    ensures h + 3 <= |s| ==> Scan(Parse(HeaderLen, 0), s[h..]) == Complete(DecimalValue(s[h..h + 3]), 3)
    ensures h + 3 > |s| ==> Scan(Parse(HeaderLen, 0), s[h..]).Incomplete?
  {
    var t := s[h..];
    var p0 := Parse(HeaderLen, 0);
    if t != [] {
      var p1 := Step(p0, t[0]);
      ScanFirst(p0, t);
      if |t| >= 2 {
        var p2 := Step(p1, t[1]);
        assert t[1..][0] == t[1] && t[1..][1..] == t[2..];
        ScanFirst(p1, t[1..]);
        if |t| >= 3 {
          ScanFirst(p2, t[2..]);
          ThreeByteFoldBounds(s[h..h + 3]);
          var code := DecimalValue(s[h..h + 3]);
          assert Step(p2, t[2]) == Parse(CodeEnd, code);
          assert Scan(p1, t[1..]) == Complete(code, 2);
        }
      }
    }
  }

  /** One step of the scan. */
  lemma ScanFirst(p: Parse, t: seq<Octet>)
    requires 0 <= p.headerIndex < CodeEnd && t != []
    ensures var q := Step(p, t[0]);
      Scan(p, t) == if q.headerIndex == CodeEnd then Complete(q.responseCode, 1) else Shift(Scan(q, t[1..]), 1)
  {
  }

  /** Once the header phase is over, the rest of the stream is scanned from
      pattern position 9 with the code still 0. */
  lemma AfterHeader(s: seq<Octet>, h: nat)
    requires HeaderEnd(0, s) == Some(h)
    ensures Scan(Start, s) == Shift(Scan(Parse(HeaderLen, 0), s[h..]), h)
  {
    HeaderPhase(0, s);
    assert s == s[..h] + s[h..];
    ScanAppend(Start, s[..h], s[h..]);
  }

  /** A byte string that matches the pattern position by position is
      consumed by the header phase in exactly nine bytes. */
  lemma {:induction false} HeaderEndExact(i: nat, s: seq<Octet>)
    requires i <= HeaderLen
    requires |s| >= HeaderLen - i
    requires forall j :: 0 <= j < HeaderLen - i ==> Matches(s[j], i + j)
    ensures HeaderEnd(i, s) == Some(HeaderLen - i)
    decreases HeaderLen - i
  {
    if i < HeaderLen {
      assert Matches(s[0], i);
      HeaderEndExact(i + 1, s[1..]);
    }
  }

  /** A stream whose first nine bytes fit the pattern position by position
      gives the fold of bytes 9..11, read as the 12th byte arrives. */
  lemma NineByteHeader(s: seq<Octet>)
    requires |s| >= CodeEnd
    requires forall j :: 0 <= j < HeaderLen ==> Matches(s[j], j)
    ensures Scan(Start, s) == Complete(DecimalValue(s[HeaderLen..CodeEnd]), CodeEnd)
  {
    HeaderEndExact(0, s);
    CodeAfterHeaderEnd(s, HeaderLen);
  }

  /** A well-formed status line `HTTP/x.y ddd...` gives the decimal value of
      its three digits, read as the 12th byte arrives. */
  lemma WellFormedStatusLine(x: Octet, y: Octet, digits: seq<Octet>, rest: seq<Octet>)
    requires |digits| == 3
    ensures var s := "HTTP/" + [x] + "." + [y] + " " + digits + rest;
      Scan(Start, s) == Complete(DecimalValue(digits), 12)
  {
    var s: seq<Octet> := "HTTP/" + [x] + "." + [y] + " " + digits + rest;
    assert forall j :: 0 <= j < HeaderLen ==> Matches(s[j], j);
    NineByteHeader(s);
    ThreeByteFoldBounds(s[9..12]);
    ThreeByteFoldBounds(digits);
  }

  /** The chunked view of the same stream: the loop resumes, in each new
      chunk, from the state the previous chunk left. */
  function ScanChunks(p: Parse, chunks: seq<seq<Octet>>): (r: Scanned)
    requires 0 <= p.headerIndex < CodeEnd
    decreases |chunks|
  {
    if chunks == [] then Incomplete(p)
    else match Scan(p, chunks[0])
      case Complete(code, used) => Complete(code, used)
      case Incomplete(q) => Shift(ScanChunks(q, chunks[1..]), |chunks[0]|)
  }

  function Concat(chunks: seq<seq<Octet>>): (s: seq<Octet>)
    ensures chunks != [] ==> s == chunks[0] + Concat(chunks[1..])
  {
    if chunks == [] then [] else chunks[0] + Concat(chunks[1..])
  }

  /** Chunk boundaries do not matter: scanning chunk by chunk is scanning
      their concatenation, down to the number of bytes consumed. */
  lemma {:induction false} ChunkingIrrelevant(p: Parse, chunks: seq<seq<Octet>>)
    requires 0 <= p.headerIndex < CodeEnd
    ensures ScanChunks(p, chunks) == Scan(p, Concat(chunks))
    decreases |chunks|
  {
    if chunks != [] {
      ScanAppend(p, chunks[0], Concat(chunks[1..]));
      match Scan(p, chunks[0])
      case Complete(_, _) =>
      case Incomplete(q) =>
        ChunkingIrrelevant(q, chunks[1..]);
    }
  }

  /** One byte per poll. */
  function Singletons(s: seq<Octet>): (chunks: seq<seq<Octet>>)
    ensures |chunks| == |s|
    ensures forall i :: 0 <= i < |s| ==> chunks[i] == [s[i]]
  {
    if s == [] then [] else [[s[0]]] + Singletons(s[1..])
  }

  lemma {:induction false} ConcatSingletons(s: seq<Octet>)
    ensures Concat(Singletons(s)) == s
  {
    if s != [] {
      assert Singletons(s)[1..] == Singletons(s[1..]);
      ConcatSingletons(s[1..]);
    }
  }

  // The examples below name their streams through parameters: a literal
  // argument would make the verifier unfold the scanner byte by byte.

  /** `HTTP/1.1 204 No Content` gives 204 after exactly twelve bytes. */
  lemma NoContentExample(s: seq<Octet>)
    requires s == "HTTP/1.1 204 No Content\r\n"
    ensures Scan(Start, s) == Complete(204, 12)
  {
    assert forall j :: 0 <= j < HeaderLen ==> Matches(s[j], j);
    NineByteHeader(s);
    ThreeByteFoldBounds(s[9..12]);
  }

  /** A stream delivered one byte per poll is scanned as if it came whole. */
  lemma OneBytePerPoll(p: Parse, s: seq<Octet>)
    requires 0 <= p.headerIndex < CodeEnd
    ensures ScanChunks(p, Singletons(s)) == Scan(p, s)
  {
    ChunkingIrrelevant(p, Singletons(s));
    ConcatSingletons(s);
  }

  /** The same response delivered one byte per poll. */
  lemma NoContentOneBytePerPoll(s: seq<Octet>)
    requires s == "HTTP/1.1 204 No Content\r\n"
    ensures ScanChunks(Start, Singletons(s)) == Complete(204, 12)
  {
    var r := Scan(Start, s);
    NoContentExample(s);
    OneBytePerPoll(Start, s);
    assert r == Complete(204, 12);
  }

  /** A status line cut off after `HTTP/1.1 20` is incomplete. */
  lemma CutOffExample(s: seq<Octet>)
    requires s == "HTTP/1.1 20"
    ensures Scan(Start, s).Incomplete?
  {
    assert forall j :: 0 <= j < HeaderLen ==> Matches(s[j], j);
    HeaderEndExact(0, s);
    ScanIsHeaderThenCode(s);
  }

  /** The matcher is loose: a byte that does not fit the pattern is skipped,
      so `XHTTP/1.1 200` still gives 200, one byte later. */
  lemma LeadingGarbageSkipped(s: seq<Octet>)
    requires s == "XHTTP/1.1 200"
    ensures Scan(Start, s) == Complete(200, 13)
  {
    var t := s[1..];
    assert Step(Start, s[0]) == Start;
    ScanFirst(Start, s);
    assert forall j :: 0 <= j < HeaderLen ==> Matches(t[j], j);
    NineByteHeader(t);
    ThreeByteFoldBounds(t[9..12]);
  }
}
