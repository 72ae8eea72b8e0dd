# M2XStreamClient, modelled in Dafny

`M2XStreamClient` is a small Arduino library. It uploads one value to a stream
of an AT&T M2X feed: it connects to the server, writes an HTTP/1.0 `PUT`
request (RFC 1945) whose path holds the percent-encoded feed and stream
identifiers (RFC 3986), and reads the response byte by byte until the
three-digit status code of the Status-Line is complete. Then it drains and
closes the connection and returns the code, or a negative error code.

The model has five modules:

- `Octets`: bytes as characters 0..255, NUL-terminated C strings (`CStr`,
  whose `Content` is everything before the first NUL), and decimal text.
- `PercentEncoding`: the pure specification `Enc` of what
  `printEncodedString` writes. It comes with a decoder, so the encoding can be
  proved to round-trip and to be injective.
- `StatusLine`: the state machine of `readStatusCode` as pure functions.
  `Step` is one trip through the inner loop. `Scan` runs a whole byte
  string and stops at once when `headerIndex` reaches 12. `ScanChunks` is the
  same run seen chunk by chunk.
- `Arduino`: the transport the client borrows, as a class with an output log
  and a scripted input. A script is a sequence of poll events: a chunk of
  bytes arrives, or the peer hangs up.
- `M2X`: the client class. Its methods follow the source's statements. Each
  one is proved against the functions above: the exact bytes written, the
  value returned, the bytes read, and the teardown calls made.

On the connect-failure path (M2XStreamClient.cpp:45-50) `send` returns
`E_NOCONNECTION` at once, without calling `closeCurrentConnection`; `Send`
leaves the teardown trace untouched there.

## Model

| member | source | states |
|---|---|---|
| Octets.Content | M2XStreamClient.cpp:107 | a C string's content holds no NUL and, followed by a NUL, is a prefix of the buffer |
| Octets.DecimalRoundTrip | M2XStreamClient.cpp:36 | reading back the decimal text `print(int)` writes for a natural number gives that number |
| Octets.DecimalValueOfDigits | M2XStreamClient.cpp:76 | folding k decimal digits gives a value in 0 .. 10^k - 1 |
| Octets.ThreeByteFoldBounds | M2XStreamClient.cpp:76 | folding any three bytes gives 100·d0 + 10·d1 + d2, which for bytes read as 0..255 lies in -5328..22977, within a 16-bit `int` |
| PercentEncoding.Hex | M2XStreamClient.cpp:3 | `HEX` sends a nibble to the upper-case hexadecimal digit whose value it is |
| PercentEncoding.HexOfHexValue | M2XStreamClient.cpp:3 | every upper-case hexadecimal digit is `HEX` of its value |
| PercentEncoding.EncodeByte | M2XStreamClient.cpp:108-118 | an unreserved byte is emitted unchanged; any other byte becomes `%` and two upper-case hexadecimal digits spelling its value |
| PercentEncoding.Enc | M2XStreamClient.cpp:107-120 | every character of an encoding is unreserved or `%` |
| PercentEncoding.ReservedCount | M2XStreamClient.cpp:108-112 | the number of bytes needing escapes is at most the length |
| PercentEncoding.EncAppend | M2XStreamClient.cpp:107-120 | the encoding of a concatenation is the concatenation of the encodings |
| PercentEncoding.EncLength | M2XStreamClient.cpp:107-119 | output length = input length + 2 × number of bytes that are not unreserved |
| PercentEncoding.EncUnreservedIsIdentity | M2XStreamClient.cpp:108-113 | a string of unreserved bytes is its own encoding |
| PercentEncoding.DecodeEncodeByte | M2XStreamClient.cpp:113-118 | decoding undoes the encoding of one byte, whatever follows |
| PercentEncoding.DecodeEnc | M2XStreamClient.cpp:107-120 | decoding an encoding gives back the original bytes |
| PercentEncoding.EncDecode | M2XStreamClient.cpp:107-120 | whatever the decoder accepts is the encoding of what it decodes to |
| PercentEncoding.EncInjective | M2XStreamClient.cpp:107-120 | distinct strings have distinct encodings |
| PercentEncoding.EncodeByteAsWritten | M2XStreamClient.cpp:113-118 | as written: an unreserved byte passes through; any other byte becomes `%` and the decimal codes of the two `HEX` characters, five characters, the `%` followed by the two-digit decimal codes of the high and the low `HEX` character |
| PercentEncoding.SpaceAsWritten | M2XStreamClient.cpp:117-118 | as written, a space comes out as `%5048` rather than `%20`, and that does not decode to a space |
| StatusLine.Step | M2XStreamClient.cpp:67-81 | `headerIndex` never decreases and grows by at most 1. Before position 9 it advances exactly when the byte equals the pattern byte or the pattern has `*`, and the code is unchanged. From position 9 on it advances and the code becomes code·10 + (c - '0') |
| StatusLine.Scan | M2XStreamClient.cpp:61-82 | from a state at position i, a completed scan has read at least 12 − i bytes and no more than were given; an incomplete one stops at a position in i..11 |
| StatusLine.ScanAppend | M2XStreamClient.cpp:61-93 | bytes after completion are never looked at; bytes after an incomplete scan continue it from the state it reached |
| StatusLine.ScanSnoc | M2XStreamClient.cpp:62-82 | reading one more byte after an incomplete scan is one `Step` |
| StatusLine.HeaderEnd | M2XStreamClient.cpp:67-69 | the loose match of the 9-byte pattern finishes after at least 9 and at most all the given bytes |
| StatusLine.HeaderPhase | M2XStreamClient.cpp:67-69 | the header phase leaves the code at 0 and reaches position 9 right after the bytes `HeaderEnd` counts, or never |
| StatusLine.AfterHeader | M2XStreamClient.cpp:61-82 | after the header phase the remaining bytes are scanned from position 9 with code 0 |
| StatusLine.CodeAfterHeader | M2XStreamClient.cpp:70-80 | from position 9, three bytes complete the scan with their decimal fold, and fewer leave it incomplete |
| StatusLine.CodeAfterHeaderEnd | M2XStreamClient.cpp:67-80 | once the header has matched, the scan completes exactly when three more bytes are there, and then with their fold |
| StatusLine.NoHeaderEnd | M2XStreamClient.cpp:67-69 | without a full header match nothing completes |
| StatusLine.ScanIsHeaderThenCode | M2XStreamClient.cpp:56-81 | a response completes exactly when the loose header match ends with three bytes to spare; then the code is those three bytes read as a decimal number, and nothing after them is read |
| StatusLine.HeaderEndExact | M2XStreamClient.cpp:67-69 | bytes that fit the pattern position by position are matched in exactly nine bytes |
| StatusLine.NineByteHeader | M2XStreamClient.cpp:56-80 | a stream whose first nine bytes fit the pattern gives the fold of bytes 9..11 after 12 bytes |
| StatusLine.WellFormedStatusLine | M2XStreamClient.cpp:56-80 | `HTTP/x.y ddd…` gives the fold of `ddd` after exactly 12 bytes |
| StatusLine.ChunkingIrrelevant | M2XStreamClient.cpp:61-93 | scanning chunk by chunk gives the same result as scanning their concatenation, down to the number of bytes read |
| StatusLine.OneBytePerPoll | M2XStreamClient.cpp:61-93 | bytes delivered one per poll are scanned as if they came in one chunk |
| StatusLine.NoContentExample | M2XStreamClient.cpp:56-80 | `HTTP/1.1 204 No Content` gives 204 after 12 bytes |
| StatusLine.NoContentOneBytePerPoll | M2XStreamClient.cpp:61-93 | delivered one byte per poll, the same response gives 204 after 12 bytes |
| StatusLine.CutOffExample | M2XStreamClient.cpp:61-82 | a stream cut off after `HTTP/1.1 20` leaves the scan incomplete |
| StatusLine.LeadingGarbageSkipped | M2XStreamClient.cpp:67-69 | a byte that does not fit the pattern is skipped without resetting: `XHTTP/1.1 200` gives 200 after 13 bytes |
| M2X.StatusOf | M2XStreamClient.cpp:77-89 | what `readStatusCode` returns: when the loose header match ends with three bytes to spare, the decimal fold of those three bytes; otherwise ErrDisconnected |
| M2X.BytesRead | M2XStreamClient.cpp:61-93 | the parser never reads more bytes than were delivered |
| M2X.StatusOfWellFormedLine | M2XStreamClient.cpp:70-80 | a status line with three digit bytes gives their decimal value, in 0..999 and never an error code, after 12 bytes |
| M2X.StatusOfBounds | M2XStreamClient.cpp:76-89 | the result is ErrDisconnected or a fold of three bytes (read as 0..255) within -5328..22977, and is ErrDisconnected whenever the status line is incomplete |
| M2X.CutOffGivesDisconnected | M2XStreamClient.cpp:84-89 | a response cut off after `HTTP/1.1 20` gives ErrDisconnected, never the partial code |
| M2X.MalformedLineMimicsDisconnected | M2XStreamClient.cpp:76-89 | code bytes are not checked to be digits, so the complete line `HTTP/1.1 00.` yields the value of ErrDisconnected |
| M2X.PutRequest | M2XStreamClient.cpp:23-44 | the bytes `send` writes; they begin with the request line and CR LF |
| M2X.RequestLineWellFormed | M2XStreamClient.cpp:23-27 | whatever the identifiers hold, the path has no space, CR or LF, and the request line is the first line of the request |
| M2X.PathAvoids | M2XStreamClient.cpp:23-27 | the path has no space, CR or LF, and the request line no CR or LF |
| M2X.RequestLineFirst | M2XStreamClient.cpp:23-27 | the request begins with the request line and CR LF |
| M2X.EncAvoids | M2XStreamClient.cpp:108-118 | no encoding holds a space, CR, LF or `/` |
| M2X.ResourcePathIdentifiesStream | M2XStreamClient.cpp:23-26 | different feed or stream identifiers always give different request paths |
| M2X.UnreservedPath | M2XStreamClient.cpp:23-26 | feed and stream identifiers made of unreserved bytes appear in the path verbatim |
| M2X.EscapedPath | M2XStreamClient.cpp:23-26 | a space in the stream name is written as `%20` in the path |
| M2X.DefaultPortHostHeader | M2XStreamClient.cpp:31-38 | for the default host `api-m2x.att.com`, which needs no escaping, on the default port the header is exactly `Host: api-m2x.att.com` |
| M2X.OtherPortExample | M2XStreamClient.cpp:33-37 | for the default host on port 8080 the Host header ends in `:8080` |
| M2X.M2XStreamClient.constructor | M2XStreamClient.cpp:7-14 | the constructor stores the transport, key, host and port, and does nothing else |
| M2X.M2XStreamClient.Send | M2XStreamClient.cpp:16-53 | If `connect` fails: ErrNoConnection is returned, the link stays down, nothing is written or read, and no teardown happens. Otherwise: the log grows by exactly the request, with the key verbatim; the result is the status of the delivered bytes; exactly the bytes up to the third code byte are read; then flush and stop are called, in that order, and the transport is left with nothing more to deliver |
| M2X.M2XStreamClient.WriteRequest | M2XStreamClient.cpp:23-44 | after a connect, the log grows by exactly: request line, key, Host and Content-Type headers, blank line, `value=` and the value text |
| M2X.M2XStreamClient.WriteRequestLine | M2XStreamClient.cpp:23-27 | writes `PUT /v1/feeds/` + Enc(feed) + `/streams/` + Enc(stream) + ` HTTP/1.0` CR LF |
| M2X.M2XStreamClient.WriteHeaderLines | M2XStreamClient.cpp:29-40 | writes the key, Host and Content-Type header lines and the empty line |
| M2X.M2XStreamClient.WriteKeyHeader | M2XStreamClient.cpp:29-30 | writes `X-M2X-KEY: `, the key unencoded, and CR LF |
| M2X.M2XStreamClient.WriteHostHeader | M2XStreamClient.cpp:31-38 | writes `Host: ` and the encoded host, then `:` and the port only when it is not the default one, then CR LF |
| M2X.M2XStreamClient.WriteFormBody | M2XStreamClient.cpp:42-44 | writes `value=` and the value text |
| M2X.M2XStreamClient.ReadStatusCode | M2XStreamClient.cpp:55-97 | returns the status of everything the peer delivers before hanging up, reads exactly the bytes up to the third code byte (all of them when it never completes), and always ends with flush then stop, after which the transport has nothing more to deliver |
| M2X.M2XStreamClient.ReadAvailable | M2XStreamClient.cpp:62-82 | `headerIndex` only grows and stays within 0..12. The call stops right after the third code byte, and then the stream's status is decided. Otherwise it drains every available byte, and the state is that of the scan of the bytes read so far |
| M2X.M2XStreamClient.ConsumeByte | M2XStreamClient.cpp:67-81 | the branches of the inner loop body compute exactly one `Step` |
| M2X.M2XStreamClient.CloseCurrentConnection | M2XStreamClient.cpp:99-103 | discards unread input, then closes: a flush followed by a stop, which also drops what the peer had yet to send |
| M2X.M2XStreamClient.PrintEncodedString | M2XStreamClient.cpp:106-121 | writes `Enc` of the bytes before the first NUL, and nothing else |
| M2X.M2XStreamClient.PrintEncodedByte | M2XStreamClient.cpp:108-119 | writes the encoding of one byte |
| M2X.ReadOneByte | M2XStreamClient.cpp:62-80 | reading one byte is one `Step`; when it completes the line, the status and the number of bytes read are decided whatever follows |
| M2X.NothingMoreToRead | M2XStreamClient.cpp:84-89 | when the link is down and nothing is pending, the status is ErrDisconnected and every delivered byte has been read |
| M2X.EncSnoc | M2XStreamClient.cpp:107-119 | encoding one more byte of a buffer appends that byte's encoding |
| Arduino.Client.Wait | M2XStreamClient.cpp:92 | waiting lets the next poll event take effect and never changes the bytes still to be read |

## Left out

- The real transport, sockets and DNS are not modelled. `Arduino.Client`
  stands in for them: `connect` answers a given flag, `print`/`println` append
  to a log, and the input is a finite script of poll events.
- `Arduino.Client.Connect` does not record the host and port it is given; the
  model only states whether the connection succeeds.
- `delay(1000)` and the unbounded wait are not modelled. Each wait takes the
  next script event, and an exhausted script reads as a peer that has gone
  away, so the loop terminates.
- The `#ifdef DEBUG` printing to `Serial` is diagnostic only and left out.
- The rendering of the `double` value by `print(value)` is floating-point
  formatting inside the Arduino library. It is the parameter `valueText`.
- The values of `E_NOCONNECTION`, `E_DISCONNECTED` and `kDefaultM2XPort` come
  from M2XStreamClient.h, which is not part of this model. They are distinct
  negative constants and port 80.
- The `return E_NOTREACHABLE` after the endless loop is dead code and is not
  modelled.
- Bytes are unsigned, 0..255. Where `char` is signed (as on AVR), bytes of
  0x80 and above are negative: `str[i] / 16` and `str[i] % 16` at lines
  117-118 and `c - '0'` at line 76 then give other values. For example the
  model gives 1720 for `HTTP/1.1 2`, byte 0xC8, `0`, where such a target
  computes -840, and the three-byte fold ranges over -19536..8769 instead of
  -5328..22977. That is not modelled.
- `int` arithmetic is unbounded in the model. For bytes read as 0..255 the
  response-code fold is proved to stay within 16 bits
  (`Octets.ThreeByteFoldBounds`), so no overflow is lost there. `print(int)` of the port writes the decimal text of
  the unbounded value.
- Poll events take effect only in `Arduino.Client.Wait`, so the peer can
  never hang up between `available()` reporting nothing and `connected()`
  while bytes are still unread. `ReadStatusCode`'s result, the status of every
  delivered byte, relies on that. Arduino's Ethernet `connected()` stays true
  while received data is pending, which makes the assumption hold there.
- `Arduino.Client.Stop` drops the rest of the script with the connection, so a
  later `Send` through the same client reads an empty script and returns
  ErrDisconnected. Scripted input for a second connection is not modelled.
- `Arduino.Client.Read` requires a pending byte. The source only calls `read`
  after `available()` reports one.
- `send`, `readStatusCode` and `printEncodedString` are each split into
  several methods: `WriteRequestLine`, `WriteHeaderLines`, `WriteKeyHeader`,
  `WriteHostHeader` and `WriteFormBody` for `send`; `ReadAvailable` and
  `ConsumeByte` for the inner loop; `PrintEncodedByte` for the loop body. The
  statements are those of the source, in the same order.
- `M2X.M2XStreamClient.PrintEncodedByte` writes the characters `HEX`
  computes, which is what the encoder evidently intends. See Findings for
  what `print(int)` writes instead.

## Findings

| source | as written | input that shows it | evidently intended | confidence | as-written member | corrected member |
|---|---|---|---|---|---|---|
| M2XStreamClient.cpp:117-118 | `HEX(...)` is an `int`, so `print(HEX(...))` selects `print(int)` and writes the decimal value of the character code | a space in a stream name is written `%5048`, not `%20` | write the hexadecimal digit characters, giving `%20` | not executed | PercentEncoding.EncodeByteAsWritten, PercentEncoding.SpaceAsWritten | PercentEncoding.EncodeByte, PercentEncoding.DecodeEnc |
