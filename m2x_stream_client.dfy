/** M2XStreamClient: uploads one value to a stream of an M2X feed with an
    HTTP/1.0 PUT request (RFC 1945) and returns the status code of the
    response, or a negative error code. */
module M2X {
  import opened Octets
  import opened PercentEncoding
  import opened StatusLine
  import opened Arduino

  /** The error codes and the default port are declared in M2XStreamClient.h,
      which is not part of this model; the values here are distinct negatives
      and the conventional HTTP port. */
  const DefaultM2XPort: int := 80
  const ErrNoConnection: int := -1
  const ErrDisconnected: int := -2

  // ---------------------------------------------------------------------
  // What `readStatusCode` returns and reads, as functions of the bytes the
  // peer delivers before the link goes down.

  /** The status code of a response stream, or ErrDisconnected when the
      stream ends before the third code byte. */
  function StatusOf(stream: seq<Octet>): (r: int)
    ensures var e := HeaderEnd(0, stream);
      if e.Some? && e.value + 3 <= |stream|
      then r == DecimalValue(stream[e.value..e.value + 3])
      else r == ErrDisconnected
  {
    ScanIsHeaderThenCode(stream);
    match Scan(Start, stream)
    case Complete(code, _) => code
    case Incomplete(_) => ErrDisconnected
  }

  /** How many bytes of the stream are read: up to the third code byte, or
      all of them when the status line never completes. */
  function BytesRead(stream: seq<Octet>): (n: nat)
    ensures n <= |stream|
  {
    match Scan(Start, stream)
    case Complete(_, used) => used
    case Incomplete(_) => |stream|
  }

  /** A well-formed status line gives its three digits as a number in
      0..999, which is never one of the error codes. */
  lemma StatusOfWellFormedLine(x: Octet, y: Octet, digits: seq<Octet>, rest: seq<Octet>)
    requires |digits| == 3 && forall i :: 0 <= i < 3 ==> IsDigit(digits[i])
    ensures var stream := "HTTP/" + [x] + "." + [y] + " " + digits + rest;
      StatusOf(stream) == DecimalValue(digits) &&
      0 <= StatusOf(stream) <= 999 &&
      BytesRead(stream) == 12
  {
    WellFormedStatusLine(x, y, digits, rest);
    DecimalValueOfDigits(digits);
  }

  /** Whatever the peer sends, the result is ErrDisconnected or the fold of
      three bytes read as 0..255, which fits a 16-bit `int`. */
  lemma StatusOfBounds(stream: seq<Octet>)
    ensures StatusOf(stream) == ErrDisconnected || -5328 <= StatusOf(stream) <= 22977
    ensures Scan(Start, stream).Incomplete? ==> StatusOf(stream) == ErrDisconnected
  {
    ScanIsHeaderThenCode(stream);
    if Scan(Start, stream).Complete? {
      var h := HeaderEnd(0, stream).value;
      ThreeByteFoldBounds(stream[h..h + 3]);
    }
  }

  /** A response cut off after `HTTP/1.1 20` gives ErrDisconnected, never
      the partial code 20. */
  lemma CutOffGivesDisconnected(s: seq<Octet>)
    requires s == "HTTP/1.1 20"
    ensures StatusOf(s) == ErrDisconnected
  {
    CutOffExample(s);
  }

  /** Because the code bytes are not checked to be digits, a complete but
      malformed status line can yield the very value of ErrDisconnected. */
  lemma MalformedLineMimicsDisconnected(s: seq<Octet>)
    requires s == "HTTP/1.1 00."
    ensures Scan(Start, s).Complete?
    ensures StatusOf(s) == ErrDisconnected
  {
    assert forall j :: 0 <= j < HeaderLen ==> Matches(s[j], j);
    NineByteHeader(s);
    ThreeByteFoldBounds(s[9..12]);
  }

  // ---------------------------------------------------------------------
  // The request `send` writes.

  /** The Request-URI: both identifiers percent-encoded. */
  function ResourcePath(feedId: seq<Octet>, streamName: seq<Octet>): string {
    "/v1/feeds/" + Enc(feedId) + "/streams/" + Enc(streamName)
  }

  /** The Request-Line of section 5.1 of RFC 1945, without its CR LF. */
  function RequestLine(feedId: seq<Octet>, streamName: seq<Octet>): string {
    "PUT " + ResourcePath(feedId, streamName) + " HTTP/1.0"
  }

  /** What follows the host in the Host header: the port, only when it is
      not the default one. */
  function PortSuffix(port: int): string {
    if port != DefaultM2XPort then ":" + IntToDecimal(port) else ""
  }

  /** The Host header: the encoded host and the port suffix. */
  function HostHeader(host: seq<Octet>, port: int): string {
    "Host: " + Enc(host) + PortSuffix(port)
  }

  /** The header lines after the request line, and the empty line that ends
      them. The key goes out verbatim. */
  function HeaderLines(key: seq<Octet>, host: seq<Octet>, port: int): string {
    ("X-M2X-KEY: " + key + "\r\n") +
    (HostHeader(host, port) + "\r\n") +
    ("Content-Type: application/x-www-form-urlencoded" + "\r\n") +
    "\r\n"
  }

  /** The form body; `valueText` is the decimal text `print(double)` writes. */
  function FormBody(valueText: string): string {
    "value=" + valueText
  }

  /** Every byte `send` writes after a successful connect. */
  function PutRequest(feedId: seq<Octet>, streamName: seq<Octet>, key: seq<Octet>,
                      host: seq<Octet>, port: int, valueText: string): (r: string)
    ensures RequestLine(feedId, streamName) + "\r\n" <= r
  {
    var head := RequestLine(feedId, streamName) + "\r\n";
    Extend(head, HeaderLines(key, host, port), FormBody(valueText));
    head + HeaderLines(key, host, port) + FormBody(valueText)
  }

  /** The request line is well formed whatever the identifiers hold: the
      path has no space, CR or LF, so the line splits into exactly method,
      path and version, and it is the first line of the request. */
  lemma RequestLineWellFormed(feedId: seq<Octet>, streamName: seq<Octet>, key: seq<Octet>,
                              host: seq<Octet>, port: int, valueText: string)
    ensures var path := ResourcePath(feedId, streamName);
      ' ' !in path && '\r' !in path && '\n' !in path &&
      '\r' !in RequestLine(feedId, streamName) && '\n' !in RequestLine(feedId, streamName)
    ensures PutRequest(feedId, streamName, key, host, port, valueText)[..|RequestLine(feedId, streamName)| + 2]
      == RequestLine(feedId, streamName) + "\r\n"
  {
    PathAvoids(feedId, streamName);
    RequestLineFirst(feedId, streamName, key, host, port, valueText);
  }

  lemma PathAvoids(feedId: seq<Octet>, streamName: seq<Octet>)
    ensures var path := ResourcePath(feedId, streamName);
      ' ' !in path && '\r' !in path && '\n' !in path &&
      '\r' !in RequestLine(feedId, streamName) && '\n' !in RequestLine(feedId, streamName)
  {
    EncAvoids(feedId);
    EncAvoids(streamName);
    PathShape(Enc(feedId), Enc(streamName));
  }

  /** The literal parts of the path hold no space, CR or LF. */
  lemma PathShape(e1: string, e2: string)
    requires ' ' !in e1 && '\r' !in e1 && '\n' !in e1
    requires ' ' !in e2 && '\r' !in e2 && '\n' !in e2
    ensures var path := "/v1/feeds/" + e1 + "/streams/" + e2;
      ' ' !in path && '\r' !in path && '\n' !in path &&
      '\r' !in "PUT " + path + " HTTP/1.0" && '\n' !in "PUT " + path + " HTTP/1.0"
  {
    Clean("/v1/feeds/");
    Clean("/streams/");
    Clean("PUT ");
    Clean(" HTTP/1.0");
  }

  /** A literal with no CR or LF, and none of the spaces that matter. */
  lemma Clean(t: string)
    requires t == "/v1/feeds/" || t == "/streams/" || t == "PUT " || t == " HTTP/1.0"
    ensures '\r' !in t && '\n' !in t
    ensures t == "/v1/feeds/" || t == "/streams/" ==> ' ' !in t
  {
  }

  lemma RequestLineFirst(feedId: seq<Octet>, streamName: seq<Octet>, key: seq<Octet>,
                         host: seq<Octet>, port: int, valueText: string)
    ensures PutRequest(feedId, streamName, key, host, port, valueText)[..|RequestLine(feedId, streamName)| + 2]
      == RequestLine(feedId, streamName) + "\r\n"
  {
    var head := RequestLine(feedId, streamName) + "\r\n";
    var tail := HeaderLines(key, host, port) + FormBody(valueText);
    Extend(head, HeaderLines(key, host, port), FormBody(valueText));
    assert (head + tail)[..|head|] == head;
  }

  /** No encoding holds a space, CR, LF or slash. */
  lemma EncAvoids(s: seq<Octet>)
    ensures ' ' !in Enc(s) && '\r' !in Enc(s) && '\n' !in Enc(s) && '/' !in Enc(s)
  {
    var e := Enc(s);
    assert forall i :: 0 <= i < |e| ==> e[i] != ' ' && e[i] != '\r' && e[i] != '\n' && e[i] != '/';
  }

  /** Splitting at the first occurrence of a separator that neither head contains. */
  lemma SplitAtSeparator(x1: string, y1: string, x2: string, y2: string, c: char)
    requires c !in x1 && c !in x2
    requires y1 != [] && y2 != [] && y1[0] == c && y2[0] == c
    requires x1 + y1 == x2 + y2
    ensures x1 == x2 && y1 == y2
  {
    IndexOfAfterHead(x1, y1, c);
    IndexOfAfterHead(x2, y2, c);
    assert x1 == (x1 + y1)[..|x1|] == (x2 + y2)[..|x2|] == x2;
    assert y1 == (x1 + y1)[|x1|..] == (x2 + y2)[|x2|..] == y2;
  }

  /** The request names the stream it updates: different feed or stream
      identifiers always give different request paths. */
  lemma ResourcePathIdentifiesStream(f1: seq<Octet>, s1: seq<Octet>, f2: seq<Octet>, s2: seq<Octet>)
    requires ResourcePath(f1, s1) == ResourcePath(f2, s2)
    ensures f1 == f2 && s1 == s2
  {
    PathAfterFeeds(f1, s1);
    PathAfterFeeds(f2, s2);
    StripPrefix("/v1/feeds/", Enc(f1) + ("/streams/" + Enc(s1)), Enc(f2) + ("/streams/" + Enc(s2)));
    EncAvoids(f1);
    EncAvoids(f2);
    SplitAtSeparator(Enc(f1), "/streams/" + Enc(s1), Enc(f2), "/streams/" + Enc(s2), '/');
    StripPrefix("/streams/", Enc(s1), Enc(s2));
    EncInjective(f1, f2);
    EncInjective(s1, s2);
  }

  lemma PathAfterFeeds(f: seq<Octet>, s: seq<Octet>)
    ensures ResourcePath(f, s) == "/v1/feeds/" + (Enc(f) + ("/streams/" + Enc(s)))
  {
  }

  lemma StripPrefix(p: string, a: string, b: string)
    requires p + a == p + b
    ensures a == b
  {
    assert a == (p + a)[|p|..];
  }


  // The examples below name their strings through parameters: a literal
  // argument would make the verifier unfold the encoder character by
  // character.

  /** Identifiers made of unreserved bytes appear in the path verbatim. */
  lemma UnreservedPath(feedId: seq<Octet>, streamName: seq<Octet>)
    requires forall i :: 0 <= i < |feedId| ==> IsUnreserved(feedId[i])
    requires forall i :: 0 <= i < |streamName| ==> IsUnreserved(streamName[i])
    ensures ResourcePath(feedId, streamName) == "/v1/feeds/" + feedId + "/streams/" + streamName
  {
    EncUnreservedIsIdentity(feedId);
    EncUnreservedIsIdentity(streamName);
  }

  /** A space in a stream name is escaped in the path. */
  lemma EscapedPath(feedId: seq<Octet>, streamName: seq<Octet>)
    requires feedId == "f1" && streamName == "a b"
    ensures ResourcePath(feedId, streamName) == "/v1/feeds/" + feedId + "/streams/a%20b"
  {
    EncUnreservedIsIdentity(feedId);
    EscapedSpace(streamName);
    assert ResourcePath(feedId, streamName) == "/v1/feeds/" + feedId + "/streams/" + "a%20b";
  }

  lemma EscapedSpace(streamName: seq<Octet>)
    requires streamName == "a b"
    ensures Enc(streamName) == "a%20b"
  {
    assert streamName == ['a'] + ([' '] + ['b']);
    EncAppend(['a'], [' '] + ['b']);
    EncAppend([' '], ['b']);
    assert Enc(['a']) == "a" && Enc(['b']) == "b" && Enc([' ']) == "%20";
  }

  /** On the default port the Host header names the encoded host alone; here
      for the default host `kDefaultM2XHost` (M2XStreamClient.cpp:5). */
  lemma DefaultPortHostHeader(host: seq<Octet>)
    requires host == "api-m2x.att.com"
    ensures HostHeader(host, DefaultM2XPort) == "Host: " + host
  {
    EncUnreservedIsIdentity(host);
    HostHeaderOf(host, DefaultM2XPort, host, "");
  }

  /** A port other than the default one is appended to the Host header. */
  lemma OtherPortExample(host: seq<Octet>, port: int)
    requires host == "api-m2x.att.com" && port == 8080
    ensures HostHeader(host, port) == "Host: " + host + ":8080"
  {
    EncUnreservedIsIdentity(host);
    PortSuffix8080(port);
    HostHeaderOf(host, port, host, ":8080");
  }

  lemma PortSuffix8080(port: int)
    requires port == 8080
    ensures PortSuffix(port) == ":8080"
  {
    Decimal8080();
  }

  lemma HostHeaderOf(host: seq<Octet>, port: int, e: string, suffix: string)
    requires Enc(host) == e && PortSuffix(port) == suffix
    ensures HostHeader(host, port) == "Host: " + e + suffix
  {
  }

  lemma Decimal8080()
    ensures IntToDecimal(8080) == "8080"
  {
    assert NatToDecimal(8) == "8";
    assert NatToDecimal(80) == "80";
    assert NatToDecimal(808) == "808";
    assert NatToDecimal(8080) == "8080";
  }

  // ---------------------------------------------------------------------
  // The client object.

  class M2XStreamClient {
    const client: Client
    const key: CStr
    const host: CStr
    const port: int

    /** Stores the transport and the configuration; nothing else happens. */
    constructor (client: Client, key: CStr, host: CStr, port: int)
      ensures this.client == client && this.key == key && this.host == host && this.port == port
    {
      this.client := client;
      this.key := key;
      this.host := host;
      this.port := port;
    }

    /** Connects, writes the PUT request and returns the response status.
        A failed connect returns ErrNoConnection and touches nothing else. */
    method Send(feedId: CStr, streamName: CStr, valueText: string) returns (r: int)
      modifies client`linkUp, client`log, client`pending, client`consumed, client`script, client`calls
      ensures !old(client.connectOk) ==>
        r == ErrNoConnection && !client.linkUp &&
        client.log == old(client.log) && client.consumed == old(client.consumed) &&
        client.calls == old(client.calls) &&
        client.pending == old(client.pending) && client.script == old(client.script)
      ensures old(client.connectOk) ==>
        var stream := old(client.pending + Flatten(client.script));
        client.log == old(client.log) +
          PutRequest(Content(feedId), Content(streamName), Content(key), Content(host), port, valueText) &&
        r == StatusOf(stream) &&
        client.consumed == old(client.consumed) + stream[..BytesRead(stream)] &&
        client.calls == old(client.calls) + [Flushed, Stopped] &&
        client.pending == [] && !client.linkUp && client.script == []
    {
      var ok := client.Connect(Content(host), port);
      if ok {
        WriteRequest(feedId, streamName, valueText);
      } else {
        return ErrNoConnection;
      }
      r := ReadStatusCode();
    }

    /** Everything `send` writes once connected. */
    method WriteRequest(feedId: CStr, streamName: CStr, valueText: string)
      modifies client`log
      ensures client.log == old(client.log) +
        PutRequest(Content(feedId), Content(streamName), Content(key), Content(host), port, valueText)
    {
      ghost var l0 := client.log;
      ghost var f, n := Content(feedId), Content(streamName);
      WriteRequestLine(feedId, streamName);
      Extend(l0, RequestLine(f, n), "\r\n");
      WriteHeaderLines();
      Extend(l0, RequestLine(f, n) + "\r\n", HeaderLines(Content(key), Content(host), port));
      WriteFormBody(valueText);
      Extend(l0, RequestLine(f, n) + "\r\n" + HeaderLines(Content(key), Content(host), port), FormBody(valueText));
    }

    /** The first part of `send`'s output: the request line. */
    method WriteRequestLine(feedId: CStr, streamName: CStr)
      modifies client`log
      ensures client.log == old(client.log) + RequestLine(Content(feedId), Content(streamName)) + "\r\n"
    {
      // `w` is what has been written so far; Extend regroups each append.
      ghost var l0 := client.log;
      client.Print("PUT /v1/feeds/");
      ghost var w: string := "PUT /v1/feeds/";
      PrintEncodedString(feedId);
      Extend(l0, w, Enc(Content(feedId)));
      w := w + Enc(Content(feedId));
      client.Print("/streams/");
      Extend(l0, w, "/streams/");
      w := w + "/streams/";
      PrintEncodedString(streamName);
      Extend(l0, w, Enc(Content(streamName)));
      w := w + Enc(Content(streamName));
      client.Println(" HTTP/1.0");
      Extend(l0, w, " HTTP/1.0");
      Extend(l0, w + " HTTP/1.0", "\r\n");
      RequestLineText(Content(feedId), Content(streamName));
    }

    /** The key, Host and Content-Type headers and the blank line after them. */
    method WriteHeaderLines()
      modifies client`log
      ensures client.log == old(client.log) + HeaderLines(Content(key), Content(host), port)
    {
      ghost var l0 := client.log;
      ghost var keyLine := "X-M2X-KEY: " + Content(key) + "\r\n";
      ghost var hostLine := HostHeader(Content(host), port) + "\r\n";
      ghost var typeLine := "Content-Type: application/x-www-form-urlencoded" + "\r\n";
      WriteKeyHeader();
      WriteHostHeader();
      Extend(l0, keyLine, hostLine);
      client.Println("Content-Type: application/x-www-form-urlencoded");
      Extend(l0, keyLine + hostLine, "Content-Type: application/x-www-form-urlencoded");
      Extend(l0, keyLine + hostLine + "Content-Type: application/x-www-form-urlencoded", "\r\n");
      Extend(keyLine + hostLine, "Content-Type: application/x-www-form-urlencoded", "\r\n");
      assert client.log == l0 + (keyLine + hostLine + typeLine);
      client.Println("");
      Extend(l0, keyLine + hostLine + typeLine, "\r\n");
    }

    /** The key header line; the key goes out verbatim. */
    method WriteKeyHeader()
      modifies client`log
      ensures client.log == old(client.log) + ("X-M2X-KEY: " + Content(key) + "\r\n")
    {
      ghost var l0 := client.log;
      client.Print("X-M2X-KEY: ");
      client.Println(Content(key));
      Extend(l0, "X-M2X-KEY: ", Content(key));
      Extend(l0, "X-M2X-KEY: " + Content(key), "\r\n");
    }

    /** The Host header line. */
    method WriteHostHeader()
      modifies client`log
      ensures client.log == old(client.log) + (HostHeader(Content(host), port) + "\r\n")
    {
      ghost var l0 := client.log;
      client.Print("Host: ");
      PrintEncodedString(host);
      ghost var w: string := "Host: " + Enc(Content(host));
      assert client.log == l0 + w;
      if port != DefaultM2XPort {
        client.Print(":");
        Extend(l0, w, ":");
        client.PrintInt(port);
        Extend(l0, w + ":", IntToDecimal(port));
        Extend(w, ":", IntToDecimal(port));
      } else {
        assert w + PortSuffix(port) == w;
      }
      Extend(l0, w, PortSuffix(port));
      client.Println("");
      Extend(l0, HostHeader(Content(host), port), "\r\n");
    }

    /** The form body. */
    method WriteFormBody(valueText: string)
      modifies client`log
      ensures client.log == old(client.log) + FormBody(valueText)
    {
      client.Print("value=");
      client.Print(valueText);
    }

    /** Reads the response byte by byte until the status code is complete or
        the link is down, then tears the connection down. The result and the
        bytes read depend only on the bytes delivered, not on how they were
        split across polls. */
    method ReadStatusCode() returns (r: int)
      modifies client`pending, client`consumed, client`script, client`linkUp, client`calls
      ensures var stream := old(client.Incoming());
        r == StatusOf(stream) &&
        client.consumed == old(client.consumed) + stream[..BytesRead(stream)]
      ensures client.calls == old(client.calls) + [Flushed, Stopped]
      ensures client.pending == [] && !client.linkUp && client.script == []
    {
      ghost var stream := client.Incoming();
      ghost var consumed0 := client.consumed;
      ghost var seen: seq<Octet> := [];
      var headerIndex := 0;
      var responseCode := 0;
      while true
        invariant seen + client.Incoming() == stream
        invariant client.consumed == consumed0 + seen
        invariant Scan(Start, seen) == Incomplete(Parse(headerIndex, responseCode))
        invariant client.calls == old(client.calls)
        decreases client.Remaining()
      {
        headerIndex, responseCode, seen := ReadAvailable(headerIndex, responseCode, seen, stream, consumed0);
        if headerIndex == CodeEnd {
          CloseCurrentConnection();
          return responseCode;
        }
        var connected := client.Connected();
        if !connected {
          assert client.Incoming() == [] && seen + [] == seen;
          NothingMoreToRead(seen, stream);
          CloseCurrentConnection();
          return ErrDisconnected;
        }
        client.Wait();
      }
    }

    /** The inner loop of `readStatusCode`: reads and matches bytes while
        some are available, and stops right after the third code byte. `seen`
        is what has been read of the whole response `stream` so far. */
    method ReadAvailable(headerIndex: int, responseCode: int, ghost seen: seq<Octet>,
                         ghost stream: seq<Octet>, ghost consumed0: seq<Octet>)
      returns (headerIndex': int, responseCode': int, ghost seen': seq<Octet>)
      requires seen + client.Incoming() == stream
      requires client.consumed == consumed0 + seen
      requires Scan(Start, seen) == Incomplete(Parse(headerIndex, responseCode))
      modifies client`pending, client`consumed
      ensures headerIndex <= headerIndex' <= CodeEnd
      ensures client.consumed == consumed0 + seen'
      ensures headerIndex' == CodeEnd ==>
        StatusOf(stream) == responseCode' && stream[..BytesRead(stream)] == seen'
      ensures headerIndex' != CodeEnd ==>
        client.pending == [] && seen' + client.Incoming() == stream &&
        Scan(Start, seen') == Incomplete(Parse(headerIndex', responseCode'))
    {
      headerIndex', responseCode', seen' := headerIndex, responseCode, seen;
      var available := client.Available();
      while available
        invariant available <==> client.pending != []
        invariant headerIndex <= headerIndex' < CodeEnd
        invariant seen' + client.Incoming() == stream
        invariant client.consumed == consumed0 + seen'
        invariant Scan(Start, seen') == Incomplete(Parse(headerIndex', responseCode'))
        decreases |client.pending|
      {
        ghost var incoming := client.Incoming();
        var c := client.Read();
        TakeFirst(seen', incoming, client.Incoming(), c, stream);
        Extend(consumed0, seen', [c]);
        headerIndex', responseCode' := ConsumeByte(headerIndex', responseCode', c);
        ReadOneByte(seen', c, client.Incoming());
        seen' := seen' + [c];
        if headerIndex' == CodeEnd {
          return;
        }
        available := client.Available();
      }
    }

    /** The body of the inner loop of `readStatusCode` for one byte `c`:
        while the header is being matched, the position advances when the
        byte matches the pattern or the pattern has a wildcard there; after
        the header, every byte is folded into the code as a decimal digit. */
    static method ConsumeByte(headerIndex: int, responseCode: int, c: Octet)
      returns (headerIndex': int, responseCode': int)
      requires 0 <= headerIndex < CodeEnd
      ensures Parse(headerIndex', responseCode') == Step(Parse(headerIndex, responseCode), c)
    {
      headerIndex', responseCode' := headerIndex, responseCode;
      if headerIndex' < HeaderLen {
        ghost var matches := Matches(c, headerIndex');
        if c == HeaderText[headerIndex'] || HeaderText[headerIndex'] == '*' {
          headerIndex' := headerIndex' + 1;
          assert matches;
        } else {
          assert !matches;
        }
      } else {
        headerIndex' := headerIndex' + 1;
        responseCode' := responseCode' * 10 + (c as int - '0' as int);
      }
    }

    /** Discards the unread input, then closes the connection. */
    method CloseCurrentConnection()
      modifies client`pending, client`linkUp, client`script, client`calls
      ensures client.calls == old(client.calls) + [Flushed, Stopped]
      ensures client.pending == [] && !client.linkUp && client.script == []
    {
      client.Flush();
      client.Stop();
    }

    /** Writes the percent-encoding of the C string `str`, byte by byte. */
    method PrintEncodedString(str: CStr)
      modifies client`log
      ensures client.log == old(client.log) + Enc(Content(str))
    {
      ghost var l0 := client.log;
      var i := 0;
      while str[i] != '\0'
        invariant 0 <= i <= NulIndex(str)
        invariant client.log == l0 + Enc(str[..i])
        decreases NulIndex(str) - i
      {
        PrintEncodedByte(str[i]);
        Extend(l0, Enc(str[..i]), EncodeByte(str[i]));
        EncSnoc(str, i);
        i := i + 1;
      }
    }

    /** The body of the loop of `printEncodedString`, for one byte. */
    method PrintEncodedByte(b: Octet)
      modifies client`log
      ensures client.log == old(client.log) + EncodeByte(b)
    {
      if ('A' <= b <= 'Z') || ('a' <= b <= 'z') || ('0' <= b <= '9') ||
         b == '-' || b == '_' || b == '.' || b == '~'
      {
        client.Print([b]);
      } else {
        ghost var l0 := client.log;
        client.Print("%");
        // The characters HEX computes; the source hands them to print(int),
        // see PercentEncoding.EncodeByteAsWritten.
        client.Print([Hex(b as int / 16)]);
        client.Print([Hex(b as int % 16)]);
        assert client.log == l0 + ['%', Hex(b as int / 16), Hex(b as int % 16)];
      }
    }
  }

  /** What reading one more byte `c` does to the scan of the bytes `seen`
      before it: one Step, and when that completes the status line, the
      outcome of the whole stream is decided whatever `rest` follows. */
  lemma ReadOneByte(seen: seq<Octet>, c: Octet, rest: seq<Octet>)
    requires Scan(Start, seen).Incomplete?
    ensures var q := Step(Scan(Start, seen).state, c);
      if q.headerIndex == CodeEnd
      then var stream := seen + [c] + rest;
        StatusOf(stream) == q.responseCode && BytesRead(stream) == |seen| + 1 &&
        stream[..BytesRead(stream)] == seen + [c]
      else Scan(Start, seen + [c]) == Incomplete(q)
  {
    ScanSnoc(Start, seen, c);
    ScanAppend(Start, seen + [c], rest);
    assert (seen + [c] + rest)[..|seen| + 1] == seen + [c];
  }

  /** `read` hands out the first incoming byte. */
  lemma TakeFirst(seen: seq<Octet>, incoming: seq<Octet>, incoming': seq<Octet>, c: Octet, stream: seq<Octet>)
    requires seen + incoming == stream
    requires incoming != [] && c == incoming[0] && incoming' == incoming[1..]
    ensures seen + [c] + incoming' == stream
  {
    assert incoming == [c] + incoming';
  }

  /** When nothing more can arrive, everything delivered has been read. */
  lemma NothingMoreToRead(seen: seq<Octet>, stream: seq<Octet>)
    requires seen == stream && Scan(Start, seen).Incomplete?
    ensures StatusOf(stream) == ErrDisconnected && stream[..BytesRead(stream)] == seen
  {
  }

  /** Encoding one more byte of a buffer. */
  lemma EncSnoc(s: seq<Octet>, i: nat)
    requires i < |s|
    ensures Enc(s[..i + 1]) == Enc(s[..i]) + EncodeByte(s[i])
  {
    assert s[..i + 1] == s[..i] + [s[i]];
    EncAppend(s[..i], [s[i]]);
    assert Enc([s[i]]) == EncodeByte(s[i]) + Enc([]);
  }

  /** Appending to what was already appended to `l`. */
  lemma Extend(l: string, w: string, s: string)
    ensures l + w + s == l + (w + s)
  {
  }

  /** The pieces `send` prints for the request line, in order. */
  lemma RequestLineText(f: seq<Octet>, s: seq<Octet>)
    ensures "PUT /v1/feeds/" + Enc(f) + "/streams/" + Enc(s) + " HTTP/1.0" + "\r\n" == RequestLine(f, s) + "\r\n"
  {
  }

}
