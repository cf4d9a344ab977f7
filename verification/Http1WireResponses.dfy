/** HTTP/1 responses on the wire, their round trip, and the one kind of response that has none. */
module Http1WireResponses {
  import opened Basics
  import opened Scan
  import opened Messages
  import opened Http1Spec
  import opened Http1Wire

  /** `digits` writes the code. */
  datatype WireResponse = WireResponse(version: Bytes, code: nat, digits: Bytes, reason: Bytes,
                                       headers: seq<Header>, framing: Framing)

  /** A status line has the shape of a request line: three parts, the last of which may hold blanks. */
  function AsMessage(r: WireResponse): WireRequest {
    WireRequest(r.version, r.digits, r.reason, r.headers, r.framing)
  }

  ghost predicate WellWritten(r: WireResponse) {
    && NoCR(r.version) && 32 !in r.version && NoCR(r.reason)
    && r.code <= MAX_INT && SpellsNumber(Text(r.digits), r.code, 10)
    && WrittenHeaders(r.headers) && Announces(r.headers, r.framing) && FramingOk(r.framing)
  }

  /** A 1xx, 204 or 304 response ends with its head (section 6.3 of RFC 9112). */
  predicate NoBody(code: nat) { code / 100 == 1 || code in {204, 304} }

  /** The last header of that name has this value, in whatever case. */
  ghost predicate LastSays(hs: seq<Header>, key: string, word: string) {
    exists k :: IsLastHeader(hs, key, k) && SameLetters(Text(hs[k].value), word)
  }

  /** The connection stays open: HTTP/1.1 unless told to close, HTTP/1.0 only if told to keep alive. */
  ghost predicate StaysOpen(version: string, hs: seq<Header>) {
    || (version == "HTTP/1.1" && !LastSays(hs, "connection", "close"))
    || (version == "HTTP/1.0" && LastSays(hs, "connection", "keep-alive"))
  }

  /** A response without a length that is not on a persistent connection ends with the connection. */
  ghost predicate EndsWithConnection(r: WireResponse) {
    r.framing.Bare? && !NoBody(r.code) && !StaysOpen(Text(r.version), r.headers)
  }

  /** A status without a body comes without one. */
  ghost predicate CanonicalResponse(r: WireResponse) {
    WellWritten(r) && !EndsWithConnection(r) && (NoBody(r.code) ==> Payload(r.framing) == [])
  }

  function SerialiseResponse(r: WireResponse): Bytes { Serialise(AsMessage(r)) }

  /** Of a response without a body the headers are not read either. */
  function ParsedResponse(r: WireResponse): HTTPResponse {
    if NoBody(r.code) then HTTPResponse(Text(r.version), Text(r.reason), r.code, map[], [])
    else HTTPResponse(Text(r.version), Text(r.reason), r.code, HeaderMap(r.headers), BodyOf(r.framing))
  }

  lemma StatusLine(r: WireResponse)
    requires WellWritten(r)
    ensures HeadOk(AsMessage(r)) && 32 !in r.digits && ScanInt(Text(r.digits), 10) == Some(r.code)
  {
    hide WrittenHeaders, Announces, FramingOk, SpellsNumber, ScanInt;
    SpelledBytes(r.digits, r.code, 10);
    SpelledNumber(Text(r.digits), r.code, 10);
  }

  lemma NoBodyIs(code: nat)
    ensures Bodiless(code) <==> NoBody(code)
  {
  }

  lemma WordIs(value: string, word: string)
    requires NoCapitals(word)
    ensures ToLower(value) == word <==> SameLetters(value, word)
  {
    LowerIs(value, word);
  }

  /** The connection header decides as it is written. */
  lemma PersistentIs(version: string, hs: seq<Header>)
    ensures Persistent(version, HeaderMap(hs)) <==> StaysOpen(version, hs)
  {
    hide SameLetters, IsLastHeader, ToLower;
    LastHeader(hs, "connection");
    var headers := HeaderMap(hs);
    WordIs("", "close");
    WordIs("", "keep-alive");
    EmptyIsNoWord();
    if "connection" in headers {
      WordIs(headers["connection"], "close");
      WordIs(headers["connection"], "keep-alive");
    }
  }

  lemma EmptyIsNoWord()
    ensures !SameLetters("", "close") && !SameLetters("", "keep-alive")
  {
  }

  /** What the parser makes of a head and the bytes behind it. */
  function Framed(data: Bytes, pos: nat, resp: HTTPResponse, head: Head): Outcome<HTTPResponse>
    requires pos <= |data|
  {
    if Bodiless(resp.code) then Done(resp.(headers := map[]), pos)
    else if head.chunked then FramedResponse(resp, ReadChunked(data, pos))
    else if head.contentLength >= 0 then FramedResponse(resp, ReadFixed(data, pos, head.contentLength))
    else if Persistent(resp.version, head.headers) then Done(resp, pos)
    else UntilClose(resp.(body := data[pos..]))
  }

  lemma BehindStatus(data: Bytes, pos: nat, lines: seq<Bytes>, head: Head, version: Bytes, code: Bytes,
                     reason: Bytes, n: int)
    requires pos <= |data| && lines != [] && SplitSpace3(lines[0]) == [version, code, reason]
    requires ReadHead(lines[1..]) == head && ScanInt(Text(code), 10) == Some(n)
    ensures ResponseBehind(data, pos, lines) ==
            Framed(data, pos, HTTPResponse(Text(version), Text(reason), n, head.headers, []), head)
  {
    hide ScanInt, ReadHead, ReadChunked, ReadFixed, SplitSpace3, Persistent, Bodiless;
  }

  /** What the response is answered with, once its head is read and its payload stands at `pos`. */
  ghost function Answer(r: WireResponse, data: Bytes, pos: nat): Outcome<HTTPResponse>
    requires pos <= |data|
  {
    if NoBody(r.code) then Done(ParsedResponse(r), pos)
    else if EndsWithConnection(r) then UntilClose(ParsedResponse(r).(body := data[pos..]))
    else Done(ParsedResponse(r), pos + |Payload(r.framing)|)
  }

  lemma FramedParsed(r: WireResponse, data: Bytes, pos: nat, head: Head)
    requires WellWritten(r) && |data| <= MAX_INT && BytesAt(data, pos, Payload(r.framing))
    requires head.headers == HeaderMap(r.headers) && head.chunked == r.framing.Chunked?
    requires r.framing.Fixed? ==> head.contentLength == |r.framing.body|
    requires r.framing.Bare? ==> head.contentLength == -1
    ensures Framed(data, pos, HTTPResponse(Text(r.version), Text(r.reason), r.code, head.headers, []), head) ==
            Answer(r, data, pos)
  {
    hide ReadChunked, ReadFixed, Persistent, StaysOpen, HeaderMap, Bodiless, NoBody, WrittenHeaders, FramingOk;
    hide Announces;
    NoBodyIs(r.code);
    PersistentIs(Text(r.version), r.headers);
    match r.framing
    case Bare =>
    case Fixed(body) => FixedPayloadParsed(data, pos, body);
    case Chunked(_, _, _, _) => ChunkedPayloadParsed(data, pos, r.framing);
  }

  lemma WellWrittenParts(r: WireResponse)
    requires WellWritten(r)
    ensures 32 !in r.version && WrittenHeaders(r.headers) && Announces(r.headers, r.framing)
  {
  }

  lemma ResponseBehindParsed(r: WireResponse, data: Bytes, pos: nat)
    requires WellWritten(r) && |data| <= MAX_INT && BytesAt(data, pos, Payload(r.framing))
    ensures ResponseBehind(data, pos, Lines(AsMessage(r))) == Answer(r, data, pos)
  {
    hide ResponseBehind, ReadHead, SplitSpace3, ScanInt, HeadOk, Framed, Answer, BytesAt;
    hide WellWritten, Payload, HeaderMap, Bodiless, WrittenHeaders, Announces;
    var m := AsMessage(r);
    StatusLine(r);
    WellWrittenParts(r);
    BodyFits(r.framing, data, pos);
    var head := ReadAllHeaders(r.headers, r.framing);
    SplitRequestLine(m);
    LinesParts(m);
    BehindStatus(data, pos, Lines(m), head, r.version, r.digits, r.reason, r.code);
    FramedParsed(r, data, pos, head);
  }

  lemma OutcomeOfSerialised(r: WireResponse, tail: Bytes)
    requires WellWritten(r) && |SerialiseResponse(r) + tail| <= MAX_INT
    ensures |Payload(r.framing)| <= |SerialiseResponse(r)|
    ensures ResponseOutcome(SerialiseResponse(r) + tail) ==
            Answer(r, SerialiseResponse(r) + tail, |SerialiseResponse(r)| - |Payload(r.framing)|)
  {
    hide ResponseBehind, Find, SplitLines, Wired, HeadOk, Answer, WellWritten, Payload, BytesAt, Lines;
    var m := AsMessage(r);
    var data := SerialiseResponse(r) + tail;
    StatusLine(r);
    HeadParsed(m, data);
    ResponseBehindParsed(r, data, |Wired(Lines(m))| + 2);
  }

  /** Round trip: parsing a serialised response, whatever bytes follow, returns it and consumes exactly its bytes. */
  lemma {:induction false} ParseSerialisedResponse(r: WireResponse, tail: Bytes)
    requires CanonicalResponse(r) && |SerialiseResponse(r) + tail| <= MAX_INT
    ensures ResponseOutcome(SerialiseResponse(r) + tail) == Done(ParsedResponse(r), |SerialiseResponse(r)|)
  {
    hide ResponseOutcome, SerialiseResponse, Payload, ParsedResponse, WellWritten, EndsWithConnection;
    OutcomeOfSerialised(r, tail);
  }

  /** A 1xx, 204 or 304 response is complete with its head, whatever length or coding it announces; what it calls its
      payload is left for the next response. */
  lemma HeadOnlyResponse(r: WireResponse, tail: Bytes)
    requires WellWritten(r) && |SerialiseResponse(r) + tail| <= MAX_INT
    requires 100 <= r.code <= 199 || r.code == 204 || r.code == 304
    ensures |Payload(r.framing)| <= |SerialiseResponse(r)|
    ensures ResponseOutcome(SerialiseResponse(r) + tail) ==
            Done(HTTPResponse(Text(r.version), Text(r.reason), r.code, map[], []),
                 |SerialiseResponse(r)| - |Payload(r.framing)|)
  {
    hide ResponseOutcome, SerialiseResponse, Payload, WellWritten;
    OutcomeOfSerialised(r, tail);
  }

  /** A response that ends with the connection takes whatever is there. */
  lemma TakesWhatFollows(r: WireResponse, tail: Bytes)
    requires WellWritten(r) && EndsWithConnection(r) && |SerialiseResponse(r) + tail| <= MAX_INT
    ensures ResponseOutcome(SerialiseResponse(r) + tail) == UntilClose(ParsedResponse(r).(body := tail))
  {
    hide ResponseOutcome, SerialiseResponse, ParsedResponse, WellWritten;
    OutcomeOfSerialised(r, tail);
    assert (SerialiseResponse(r) + tail)[|SerialiseResponse(r)|..] == tail;
  }

  /** "HTTP/1.0 200 OK" and an empty line. */
  const OLD_OK: Bytes := [72, 84, 84, 80, 47, 49, 46, 48, 32, 50, 48, 48, 32, 79, 75, 13, 10, 13, 10]

  const OLD_VERSION: Bytes := [72, 84, 84, 80, 47, 49, 46, 48]

  const OLD_RESPONSE := WireResponse(OLD_VERSION, 200, [50, 48, 48], [79, 75], [], Bare)

  lemma TwoHundred()
    ensures SpellsNumber("200", 200, 10)
  {
    assert Numeral([2], 10) == 2 && [2, 0][..1] == [2];
    assert Numeral([2, 0], 10) == 20 && [2, 0, 0][..2] == [2, 0];
    assert Spells("200", [2, 0, 0], 10) && Numeral([2, 0, 0], 10) == 200;
  }

  lemma OneLine(line: Bytes)
    ensures Wired([line]) == line + CRLF
  {
    assert Wired([]) == [];
  }

  lemma OldOnTheWire()
    ensures SerialiseResponse(OLD_RESPONSE) == OLD_OK
  {
    hide Wired;
    var line := RequestLine(AsMessage(OLD_RESPONSE));
    assert line == [72, 84, 84, 80, 47, 49, 46, 48, 32, 50, 48, 48, 32, 79, 75];
    assert Lines(AsMessage(OLD_RESPONSE)) == [line];
    OneLine(line);
  }

  lemma OldTexts()
    ensures Text(OLD_VERSION) == "HTTP/1.0" && Text([79, 75]) == "OK" && Text([50, 48, 48]) == "200"
  {
  }

  lemma OldEndsWithConnection()
    ensures WellWritten(OLD_RESPONSE) && EndsWithConnection(OLD_RESPONSE)
    ensures ParsedResponse(OLD_RESPONSE) == HTTPResponse("HTTP/1.0", "OK", 200, map[], [])
  {
    hide Text, SpellsNumber, MentionsChunked, SameLetters;
    OldTexts();
    TwoHundred();
    assert "HTTP/1.0"[7] != "HTTP/1.1"[7];
    NoHeaders();
  }

  /** Such a response, parsed alone and with one byte behind it. */
  lemma OldResponseUnstable(b: byte)
    ensures var ok := HTTPResponse("HTTP/1.0", "OK", 200, map[], []);
            && ResponseOutcome(OLD_OK) == UntilClose(ok)
            && ResponseOutcome(OLD_OK + [b]) == UntilClose(ok.(body := [b]))
  {
    hide SerialiseResponse, WellWritten, EndsWithConnection, ParsedResponse, ResponseOutcome;
    OldOnTheWire();
    OldEndsWithConnection();
    TakesWhatFollows(OLD_RESPONSE, []);
    TakesWhatFollows(OLD_RESPONSE, [b]);
    assert OLD_OK + [] == OLD_OK;
  }

  function SerialiseResponses(rs: seq<WireResponse>): Bytes {
    if rs == [] then [] else SerialiseResponse(rs[0]) + SerialiseResponses(rs[1..])
  }

  function ParsedResponses(rs: seq<WireResponse>): seq<HTTPResponse> {
    seq(|rs|, k requires 0 <= k < |rs| => ParsedResponse(rs[k]))
  }

  lemma ParsedResponsesCons(rs: seq<WireResponse>)
    requires rs != []
    ensures ParsedResponses(rs) == [ParsedResponse(rs[0])] + ParsedResponses(rs[1..])
  {
    hide ParsedResponse;
  }

  lemma NoneParsed(msgs: seq<HTTPResponse>)
    ensures ParsedResponses([]) + msgs == msgs
  {
  }

  /** Pipelined responses are returned in order, and then what the tail holds: an incomplete one is left as it is, and
      one that ends with the connection is returned with all its bytes, which are not kept. */
  lemma {:induction false} DrainSerialisedResponses(rs: seq<WireResponse>, tail: Bytes)
    requires forall k :: 0 <= k < |rs| ==> CanonicalResponse(rs[k])
    requires |SerialiseResponses(rs) + tail| <= MAX_INT
    ensures ResponsesIn(SerialiseResponses(rs) + tail) ==
            ResponsesIn(tail).(msgs := ParsedResponses(rs) + ResponsesIn(tail).msgs)
    ensures ResponseOutcome(tail) == Incomplete ==>
              ResponsesIn(SerialiseResponses(rs) + tail) == Drained(ParsedResponses(rs), tail, false, false)
    ensures ResponseOutcome(tail) == Crash ==>
              ResponsesIn(SerialiseResponses(rs) + tail) == Drained(ParsedResponses(rs), [], true, false)
    ensures ResponseOutcome(tail).UntilClose? ==>
              ResponsesIn(SerialiseResponses(rs) + tail) ==
              Drained(ParsedResponses(rs) + [ResponseOutcome(tail).msg], [], false, true)
    decreases |rs|
  {
    ResponseParser();
    hide ResponseOutcome, DrainAll, SerialiseResponse, ParsedResponse, CanonicalResponse, ParsedResponses;
    DrainNothing(ResponseOutcome, tail);
    assert ParsedResponses(rs) + [] == ParsedResponses(rs);
    if rs == [] {
      assert SerialiseResponses(rs) + tail == tail;
      NoneParsed(ResponsesIn(tail).msgs);
    } else {
      var first, later := SerialiseResponse(rs[0]), SerialiseResponses(rs[1..]) + tail;
      assert SerialiseResponses(rs) + tail == first + later;
      ParseSerialisedResponse(rs[0], later);
      DrainStep(ResponseOutcome, first, ParsedResponse(rs[0]), later);
      DrainSerialisedResponses(rs[1..], tail);
      ParsedResponsesCons(rs);
      var one, msgs := [ParsedResponse(rs[0])], ResponsesIn(tail).msgs;
      assert one + (ParsedResponses(rs[1..]) + msgs) == (one + ParsedResponses(rs[1..])) + msgs;
    }
  }
}
