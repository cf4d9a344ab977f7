/** HTTP/1 bytes that are no message: heads that are never answered, and the lengths that make a parser panic, a slice
    bound beyond the machine integer or before its own start. */
module Http1Faults {
  import opened Basics
  import opened Scan
  import opened Messages
  import opened Http1Spec
  import opened Http1Wire
  import opened Http1WireResponses

  /** A written head with its empty line, and what follows it. */
  function HeadAnd(r: WireRequest, rest: Bytes): Bytes { Wired(Lines(r)) + (CRLF + rest) }

  function BodyAt(r: WireRequest): nat { |Wired(Lines(r))| + 2 }

  /** The parser sees the lines of the head, and the rest behind them. */
  lemma HeadSeen(r: WireRequest, rest: Bytes)
    requires HeadOk(r)
    ensures var data := HeadAnd(r, rest);
            && BodyAt(r) + |rest| == |data| && data[BodyAt(r)..] == rest && BytesAt(data, BodyAt(r), rest)
            && RequestOutcome(data) == RequestBehind(data, BodyAt(r), Lines(r))
            && ResponseOutcome(data) == ResponseBehind(data, BodyAt(r), Lines(r))
  {
    hide RequestBehind, ResponseBehind, Wired, Find, SplitLines, HeadOk, Lines;
    var data := HeadAnd(r, rest);
    var m := r.(framing := Fixed(rest));
    SameHead(r, m);
    assert Serialise(m) == data;
    HeadParsed(m, data);
    assert data[BodyAt(r)..] == rest;
  }

  lemma SameHead(r: WireRequest, m: WireRequest)
    requires m == r.(framing := m.framing)
    ensures HeadOk(r) <==> HeadOk(m)
    ensures Lines(r) == Lines(m)
  {
  }

  /** The announced length `n` at `pos`: beyond the largest integer it panics, with fewer bytes there it waits, and
      otherwise it takes exactly `n` bytes. */
  lemma FixedIs(data: Bytes, pos: nat, n: nat)
    requires pos <= |data| <= MAX_INT
    ensures ReadFixed(data, pos, n) ==
            if pos + n > 0x7fff_ffff_ffff_ffff then Crashes
            else if |data[pos..]| < n then Short
            else Got(data[pos..][..n], pos + n)
  {
    if pos + n <= |data| {
      assert data[pos..][..n] == data[pos..pos + n];
    }
  }

  /** A request that announces a length and no chunks. */
  lemma LengthAnnounced(r: WireRequest, n: nat, rest: Bytes)
    requires HeadOk(r) && !SaysChunked(r.headers) && SaysLength(r.headers, n) && n <= MAX_INT
    requires |HeadAnd(r, rest)| <= MAX_INT
    ensures RequestOutcome(HeadAnd(r, rest)) ==
            if BodyAt(r) + n > 0x7fff_ffff_ffff_ffff then Crash
            else if |rest| < n then Incomplete
            else Done(HTTPRequest(Text(r.verb), Text(r.path), Text(r.version), HeaderMap(r.headers), rest[..n]),
                      BodyAt(r) + n)
  {
    hide RequestOutcome, RequestBehind, ReadFixed, ReadHead, HeadAnd, SaysChunked, SaysLength, WrittenHeaders;
    HeadWrites(r);
    HeadSeen(r, rest);
    BehindHead(r, HeadAnd(r, rest), BodyAt(r));
    CodingRead(r.headers);
    LengthRead(r.headers, n);
    FixedIs(HeadAnd(r, rest), BodyAt(r), n);
  }

  lemma HeadWrites(r: WireRequest)
    requires HeadOk(r)
    ensures 32 !in r.verb && 32 !in r.path && WrittenHeaders(r.headers)
  {
  }

  /** What is made of a written response head, wherever its body stands. */
  lemma BehindResponseHead(r: WireResponse, data: Bytes, pos: nat)
    requires HeadOk(AsMessage(r)) && pos <= |data| && ScanInt(Text(r.digits), 10) == Some(r.code)
    ensures ResponseBehind(data, pos, Lines(AsMessage(r))) ==
            Framed(data, pos, HTTPResponse(Text(r.version), Text(r.reason), r.code, HeaderMap(r.headers), []),
                   ReadHead(HeaderLines(r.headers)))
  {
    hide ResponseBehind, ReadHead, SplitSpace3, WrittenHeaders, HeaderMap, Lines, Framed, ScanInt;
    SplitRequestLine(AsMessage(r));
    LinesParts(AsMessage(r));
    HeadersKept(r.headers);
    BehindStatus(data, pos, Lines(AsMessage(r)), ReadHead(HeaderLines(r.headers)), r.version, r.digits, r.reason,
                 r.code);
  }

  /** A response that announces a length and no chunks. */
  lemma ResponseLengthAnnounced(r: WireResponse, n: nat, rest: Bytes)
    requires HeadOk(AsMessage(r)) && SpellsNumber(Text(r.digits), r.code, 10) && r.code <= MAX_INT && !NoBody(r.code)
    requires !SaysChunked(r.headers) && SaysLength(r.headers, n) && n <= MAX_INT
    requires |HeadAnd(AsMessage(r), rest)| <= MAX_INT
    ensures ResponseOutcome(HeadAnd(AsMessage(r), rest)) ==
            if BodyAt(AsMessage(r)) + n > 0x7fff_ffff_ffff_ffff then Crash
            else if |rest| < n then Incomplete
            else Done(HTTPResponse(Text(r.version), Text(r.reason), r.code, HeaderMap(r.headers), rest[..n]),
                      BodyAt(AsMessage(r)) + n)
  {
    hide ResponseOutcome, ResponseBehind, ReadFixed, ReadHead, HeadAnd, SaysChunked, SaysLength, WrittenHeaders;
    hide ScanInt;
    hide SpellsNumber, Bodiless, NoBody;
    var m := AsMessage(r);
    HeadWrites(m);
    HeadSeen(m, rest);
    SpelledNumber(Text(r.digits), r.code, 10);
    BehindResponseHead(r, HeadAnd(m, rest), BodyAt(m));
    NoBodyIs(r.code);
    CodingRead(r.headers);
    LengthRead(r.headers, n);
    FixedIs(HeadAnd(m, rest), BodyAt(m), n);
  }

  /** A chunk size that no chunk has: the size line itself, and what stands behind it. */
  function BadLine(sign: string, size: Bytes, ext: Bytes): Bytes
    requires sign in {"", "-"}
  {
    (if sign == "-" then [45] else []) + (size + ext)
  }

  /** It panics if the slice would end beyond the largest integer, or before it starts. */
  predicate BadSize(sign: string, n: nat, start: nat, length: nat) {
    if sign == "-" then 0 < n <= 0x8000_0000_0000_0000 && start + 2 <= length + n
    else 0 < n <= 0x7fff_ffff_ffff_ffff && start + n + 2 > 0x7fff_ffff_ffff_ffff
  }

  lemma SignedSizeLine(data: Bytes, pos: nat, sign: string, n: nat, size: Bytes, ext: Bytes)
    requires sign in {"", "-"} && ExtOk(ext) && SpellsNumber(Text(size), n, 16) && Signed(sign, n).Some?
    requires LineAt(data, pos, BadLine(sign, size, ext))
    ensures SizeLine(data, pos) == Some((Signed(sign, n).value, pos + |BadLine(sign, size, ext)| + 2))
  {
    hide ScanInt, Find, BeforeSemicolon, Numeral, Spells;
    var line := BadLine(sign, size, ext);
    SpelledBytes(size, n, 16);
    assert NoCR(line);
    FindLineEnd(data, pos, line);
    assert data[pos..pos + |line|] == line;
    assert Text(line) == (sign + Text(size)) + Text(ext);
    assert ';' !in sign + Text(size) by {
      assert forall k :: 0 <= k < |size| ==> Text(size)[k] as int == size[k];
    }
    BeforeSemicolonOf(sign + Text(size), Text(ext));
    var ds :| Spells(Text(size), ds, 16) && Numeral(ds, 16) == n;
    ScanSpelled("", sign, Text(size), ds, "", 16);
    assert "" + (sign + (Text(size) + "")) == sign + Text(size);
  }

  lemma BadStep(data: Bytes, pos: nat, body: Bytes, size: int, start: nat)
    requires pos <= |data| <= MAX_INT && SizeLine(data, pos) == Some((size, start))
    requires if size < 0 then start + size + 2 <= |data| else size > 0 && start + size + 2 > MAX_INT
    ensures ReadChunks(data, pos, body) == Crashes
  {
    hide SizeLine;
  }

  /** Chunks, then such a line, then anything. */
  function BadPayload(chunks: seq<Chunk>, line: Bytes, tail: Bytes): Bytes {
    WiredChunks(chunks) + ((line + CRLF) + tail)
  }

  /** Where the chunk data would start. */
  function BadStart(pos: nat, chunks: seq<Chunk>, line: Bytes): nat { pos + |WiredChunks(chunks)| + |line| + 2 }

  lemma BadLineStands(data: Bytes, pos: nat, chunks: seq<Chunk>, line: Bytes, tail: Bytes)
    requires BytesAt(data, pos, BadPayload(chunks, line, tail))
    ensures BytesAt(data, pos, WiredChunks(chunks)) && LineAt(data, pos + |WiredChunks(chunks)|, line)
  {
    hide WiredChunks;
    StandsAt(data, pos, WiredChunks(chunks), (line + CRLF) + tail);
    var p := pos + |WiredChunks(chunks)|;
    StandsAt(data, p, line + CRLF, tail);
    LineStands(data, p, line);
  }

  /** Behind any chunks, such a size makes the chunk loop panic. */
  lemma BadSizePanics(data: Bytes, pos: nat, chunks: seq<Chunk>, sign: string, n: nat, size: Bytes, ext: Bytes,
                      tail: Bytes)
    requires |data| <= MAX_INT && ChunksOk(chunks)
    requires sign in {"", "-"} && ExtOk(ext) && SpellsNumber(Text(size), n, 16)
    requires BytesAt(data, pos, BadPayload(chunks, BadLine(sign, size, ext), tail))
    requires BadSize(sign, n, BadStart(pos, chunks, BadLine(sign, size, ext)), |data|)
    ensures ReadChunked(data, pos) == Crashes
  {
    hide WiredChunks, ChunksOk, ExtOk, SpellsNumber, LineAt, BytesAt, BadLine, BadPayload, SizeLine, ChunkData;
    hide ReadChunks;
    var line, end := BadLine(sign, size, ext), pos + |WiredChunks(chunks)|;
    BadLineStands(data, pos, chunks, line, tail);
    ChunksRead(data, pos, chunks, []);
    SignedSizeLine(data, end, sign, n, size, ext);
    BadStep(data, end, [] + ChunkData(chunks), Signed(sign, n).value, end + |line| + 2);
  }

  /** So does it on the wire, in a request ... */
  lemma BadRequestPanics(r: WireRequest, chunks: seq<Chunk>, sign: string, n: nat, size: Bytes, ext: Bytes, tail: Bytes)
    requires HeadOk(r) && SaysChunked(r.headers) && ChunksOk(chunks)
    requires sign in {"", "-"} && ExtOk(ext) && SpellsNumber(Text(size), n, 16)
    requires var data := HeadAnd(r, BadPayload(chunks, BadLine(sign, size, ext), tail));
             |data| <= MAX_INT && BadSize(sign, n, BadStart(BodyAt(r), chunks, BadLine(sign, size, ext)), |data|)
    ensures RequestOutcome(HeadAnd(r, BadPayload(chunks, BadLine(sign, size, ext), tail))) == Crash
  {
    hide RequestOutcome, RequestBehind, ReadChunked, ReadHead, HeadAnd, SaysChunked, WrittenHeaders, BytesAt;
    hide BadPayload;
    hide BadSize, SpellsNumber, ExtOk, ChunksOk, BadStart, BadLine;
    var rest := BadPayload(chunks, BadLine(sign, size, ext), tail);
    HeadWrites(r);
    HeadSeen(r, rest);
    BehindHead(r, HeadAnd(r, rest), BodyAt(r));
    CodingRead(r.headers);
    BadSizePanics(HeadAnd(r, rest), BodyAt(r), chunks, sign, n, size, ext, tail);
  }

  /** ... and in a response that has a body. */
  lemma BadResponsePanics(r: WireResponse, chunks: seq<Chunk>, sign: string, n: nat, size: Bytes, ext: Bytes,
                          tail: Bytes)
    requires HeadOk(AsMessage(r)) && SpellsNumber(Text(r.digits), r.code, 10) && r.code <= MAX_INT && !NoBody(r.code)
    requires SaysChunked(r.headers) && ChunksOk(chunks)
    requires sign in {"", "-"} && ExtOk(ext) && SpellsNumber(Text(size), n, 16)
    requires var m := AsMessage(r);
             var data := HeadAnd(m, BadPayload(chunks, BadLine(sign, size, ext), tail));
             |data| <= MAX_INT && BadSize(sign, n, BadStart(BodyAt(m), chunks, BadLine(sign, size, ext)), |data|)
    ensures ResponseOutcome(HeadAnd(AsMessage(r), BadPayload(chunks, BadLine(sign, size, ext), tail))) == Crash
  {
    hide ResponseOutcome, ResponseBehind, ReadChunked, ReadHead, HeadAnd, SaysChunked, WrittenHeaders, BytesAt, ScanInt;
    hide BadSize, SpellsNumber, ExtOk, ChunksOk, BadStart, BadLine, BadPayload, Bodiless, NoBody;
    var m, rest := AsMessage(r), BadPayload(chunks, BadLine(sign, size, ext), tail);
    HeadWrites(m);
    HeadSeen(m, rest);
    SpelledNumber(Text(r.digits), r.code, 10);
    BehindResponseHead(r, HeadAnd(m, rest), BodyAt(m));
    NoBodyIs(r.code);
    CodingRead(r.headers);
    BadSizePanics(HeadAnd(m, rest), BodyAt(m), chunks, sign, n, size, ext, tail);
  }

  // ---------- first lines with parts missing ----------

  /** Any lines with their empty line, and what follows them. */
  lemma LinesSeen(lines: seq<Bytes>, tail: Bytes)
    requires lines != [] && LinesOk(lines)
    ensures var data, pos := Wired(lines) + (CRLF + tail), |Wired(lines)| + 2;
            && pos <= |data| && RequestOutcome(data) == RequestBehind(data, pos, lines)
            && ResponseOutcome(data) == ResponseBehind(data, pos, lines)
  {
    hide RequestBehind, ResponseBehind, Wired, Find, SplitLines, LinesOk;
    var data := Wired(lines) + (CRLF + tail);
    PartsStand(Wired(lines), tail, data);
    LinesFound(lines, data);
  }

  /** A request line with fewer than two spaces is never answered: more bytes do not help. */
  lemma ShortRequestLine(a: Bytes, b: Option<Bytes>, rest: seq<Bytes>, tail: Bytes)
    requires 32 !in a && (b.Some? ==> 32 !in b.value)
    requires LinesOk([a + if b.Some? then [32] + b.value else []] + rest)
    ensures var line := a + if b.Some? then [32] + b.value else [];
            RequestOutcome(Wired([line] + rest) + (CRLF + tail)) == Incomplete
  {
    hide RequestOutcome, IndexByte, Wired, LinesOk;
    var line := a + if b.Some? then [32] + b.value else [];
    LinesSeen([line] + rest, tail);
    if b.Some? {
      assert line == a + [32] + b.value;
      FirstByte(a, 32, b.value);
      NotThere(b.value, 32);
    } else {
      assert line == a;
      NotThere(a, 32);
    }
  }

  lemma NotThere(line: Bytes, x: byte)
    requires x !in line
    ensures IndexByte(line, x) == None
  {
    var r := IndexByte(line, x);
  }

  /** A status line without a space is never answered. */
  lemma ShortStatusLine(line: Bytes, rest: seq<Bytes>, tail: Bytes)
    requires 32 !in line && LinesOk([line] + rest)
    ensures ResponseOutcome(Wired([line] + rest) + (CRLF + tail)) == Incomplete
  {
    hide ResponseOutcome, IndexByte, Wired, LinesOk;
    LinesSeen([line] + rest, tail);
    NotThere(line, 32);
  }

  lemma ThreeParts(a: Bytes, b: Bytes, c: Bytes)
    requires 32 !in a && 32 !in b
    ensures SplitSpace3(a + [32] + (b + [32] + c)) == [a, b, c]
    ensures SplitSpace3(a + [32] + b) == [a, b]
  {
    hide IndexByte;
    FirstByte(a, 32, b + [32] + c);
    FirstByte(b, 32, c);
    FirstByte(a, 32, b);
    NotThere(b, 32);
  }

  /** A status line that ends with the code is one with an empty reason. */
  lemma ReasonMissing(data: Bytes, pos: nat, version: Bytes, code: Bytes, rest: seq<Bytes>)
    requires pos <= |data| && 32 !in version && 32 !in code
    ensures ResponseBehind(data, pos, [version + [32] + code] + rest) ==
            ResponseBehind(data, pos, [version + [32] + (code + [32] + [])] + rest)
  {
    hide SplitSpace3, ScanInt, ReadHead, ReadChunked, ReadFixed, Persistent, Bodiless;
    ThreeParts(version, code, []);
    var a, b := [version + [32] + code] + rest, [version + [32] + (code + [32] + [])] + rest;
    assert a[1..] == rest && b[1..] == rest;
  }

  /** A code that is no number counts as 0. */
  lemma CodeUnreadable(data: Bytes, pos: nat, version: Bytes, code: Bytes, reason: Bytes, rest: seq<Bytes>)
    requires pos <= |data| && 32 !in version && 32 !in code && NoDigitFirst(Text(code), 10)
    requires code == [] || !(code[0] in {9, 10, 11, 12, 13, 43, 45})
    ensures ResponseBehind(data, pos, [version + [32] + (code + [32] + reason)] + rest) ==
            ResponseBehind(data, pos, [version + [32] + ([48] + [32] + reason)] + rest)
  {
    hide SplitSpace3, ScanInt, ReadHead, ReadChunked, ReadFixed, Persistent, Bodiless, Numeral, NoDigitFirst;
    ThreeParts(version, code, reason);
    ThreeParts(version, [48], reason);
    ScanNothing("", "", Text(code), 10);
    assert "" + ("" + Text(code)) == Text(code);
    ZeroScanned();
    var a, b := [version + [32] + (code + [32] + reason)] + rest, [version + [32] + ([48] + [32] + reason)] + rest;
    assert a[1..] == rest && b[1..] == rest;
  }

  lemma ZeroScanned()
    ensures ScanInt(Text([48]), 10) == Some(0)
  {
    assert Text([48]) == "0" && Spells("0", [0], 10) && Numeral([0], 10) == 0;
    SpelledNumber("0", 0, 10);
  }
}
