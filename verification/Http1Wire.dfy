/** HTTP/1 requests on the wire (sections 3, 6.3 and 7.1 of RFC 9112), and the round trip: parsing what
    was serialised returns it, pipelined requests included. */
module Http1Wire {
  import opened Basics
  import opened Scan
  import opened Messages
  import opened Http1Spec

  /** A chunk: its data, its size in hexadecimal as it is written, and its extension. */
  datatype Chunk = Chunk(data: Bytes, size: Bytes, ext: Bytes)

  /** No body, a body of announced length, or chunks with extensions and trailers; `last` writes the size 0. */
  datatype Framing =
    | Bare
    | Fixed(body: Bytes)
    | Chunked(chunks: seq<Chunk>, last: Bytes, lastExt: Bytes, trailers: seq<Bytes>)

  /** A header as it is written: name and value, and what stands before and behind each. `key` is the name in lower
      case. */
  datatype Header = Header(before: Bytes, name: Bytes, after: Bytes, gap: Bytes, value: Bytes, tail: Bytes, key: string)

  datatype WireRequest = WireRequest(verb: Bytes, path: Bytes, version: Bytes, headers: seq<Header>, framing: Framing)

  // ---------- what may be serialised ----------

  predicate NoCR(b: Bytes) { 13 !in b }

  /** Header text is ASCII: what the parser trims and lower-cases is then the same in any encoding. */
  predicate IsAscii(b: Bytes) {
    forall k :: 0 <= k < |b| ==> b[k] < 128
  }

  predicate Padding(b: Bytes) { AllWhite(b) && NoCR(b) }

  /** Any case of letters in the name, any blanks around name and value. */
  predicate WrittenHeader(h: Header) {
    && IsAscii(h.name) && NoCR(h.name) && 58 !in h.name && Solid(h.name)
    && IsAscii(h.value) && NoCR(h.value) && Solid(h.value)
    && SameLetters(Text(h.name), h.key) && NoCapitals(h.key)
    && Padding(h.before) && Padding(h.after) && Padding(h.gap) && Padding(h.tail)
  }

  predicate WrittenHeaders(hs: seq<Header>) {
    forall k :: 0 <= k < |hs| ==> WrittenHeader(hs[k])
  }

  /** Header `k` is the last one of that name. */
  predicate IsLastHeader(hs: seq<Header>, key: string, k: int) {
    0 <= k < |hs| && hs[k].key == key && forall j :: k < j < |hs| ==> hs[j].key != key
  }

  /** The last Transfer-Encoding mentions "chunked", in whatever case. */
  ghost predicate SaysChunked(hs: seq<Header>) {
    exists k :: IsLastHeader(hs, "transfer-encoding", k) && MentionsChunked(Text(hs[k].value))
  }

  /** The last Content-Length writes `n`. */
  ghost predicate SaysLength(hs: seq<Header>, n: nat) {
    exists k :: IsLastHeader(hs, "content-length", k) && SpellsNumber(Text(hs[k].value), n, 10)
  }

  /** The headers announce the body, wherever the framing headers stand among the others. A chunked message may carry
      any Content-Length as well: it is to be ignored. */
  ghost predicate Announces(hs: seq<Header>, f: Framing) {
    match f
    case Bare => !SaysChunked(hs) && forall k :: 0 <= k < |hs| ==> hs[k].key != "content-length"
    case Fixed(body) => !SaysChunked(hs) && SaysLength(hs, |body|)
    case Chunked(_, _, _, _) => SaysChunked(hs)
  }

  /** An extension is empty or starts with ";" */
  predicate ExtOk(ext: Bytes) { NoCR(ext) && (ext == [] || ext[0] == 59) }

  ghost predicate FramingOk(f: Framing) {
    match f
    case Bare => true
    case Fixed(_) => true
    case Chunked(chunks, last, lastExt, trailers) =>
      && ChunksOk(chunks) && SpellsNumber(Text(last), 0, 16) && ExtOk(lastExt)
      && (forall k :: 0 <= k < |trailers| ==> trailers[k] != [] && NoCR(trailers[k]))
  }

  ghost predicate HeadOk(r: WireRequest) {
    && NoCR(r.verb) && 32 !in r.verb && NoCR(r.path) && 32 !in r.path && NoCR(r.version) && WrittenHeaders(r.headers)
  }

  ghost predicate Canonical(r: WireRequest) {
    HeadOk(r) && Announces(r.headers, r.framing) && FramingOk(r.framing)
  }

  // ---------- serialising ----------

  function HeaderLine(h: Header): Bytes {
    (h.before + (h.name + h.after)) + [58] + (h.gap + (h.value + h.tail))
  }

  function HeaderLines(hs: seq<Header>): seq<Bytes> {
    seq(|hs|, k requires 0 <= k < |hs| => HeaderLine(hs[k]))
  }

  function RequestLine(r: WireRequest): Bytes { r.verb + [32] + r.path + [32] + r.version }

  function Lines(r: WireRequest): seq<Bytes> { [RequestLine(r)] + HeaderLines(r.headers) }

  /** Each line followed by CRLF. */
  function Wired(lines: seq<Bytes>): Bytes {
    if lines == [] then [] else lines[0] + CRLF + Wired(lines[1..])
  }

  function WiredLength(lines: seq<Bytes>): nat {
    if lines == [] then 0 else |lines[0]| + 2 + WiredLength(lines[1..])
  }

  lemma {:induction false} WiredLengthIs(lines: seq<Bytes>)
    ensures |Wired(lines)| == WiredLength(lines)
  {
    if lines != [] {
      WiredLengthIs(lines[1..]);
    }
  }

  function WiredSize(size: Bytes, ext: Bytes): Bytes { size + ext }

  function WiredChunks(chunks: seq<Chunk>): Bytes {
    if chunks == [] then []
    else (WiredSize(chunks[0].size, chunks[0].ext) + CRLF) + ((chunks[0].data + CRLF) + WiredChunks(chunks[1..]))
  }

  function Payload(f: Framing): Bytes {
    match f
    case Bare => []
    case Fixed(body) => body
    case Chunked(chunks, last, lastExt, trailers) =>
      WiredChunks(chunks) + ((WiredSize(last, lastExt) + CRLF) + (Wired(trailers) + CRLF))
  }

  function Serialise(r: WireRequest): Bytes { Wired(Lines(r)) + (CRLF + Payload(r.framing)) }

  function SerialiseAll(rs: seq<WireRequest>): Bytes {
    if rs == [] then [] else Serialise(rs[0]) + SerialiseAll(rs[1..])
  }

  // ---------- what parsing should return ----------

  /** Every header under its name in lower case; of a repeated name the last value. */
  function HeaderMap(hs: seq<Header>): map<string, string> {
    if hs == [] then map[]
    else HeaderMap(hs[..|hs| - 1])[hs[|hs| - 1].key := Text(hs[|hs| - 1].value)]
  }

  function ChunkData(chunks: seq<Chunk>): Bytes {
    if chunks == [] then [] else chunks[0].data + ChunkData(chunks[1..])
  }

  function BodyOf(f: Framing): Bytes {
    match f
    case Bare => []
    case Fixed(body) => body
    case Chunked(chunks, _, _, _) => ChunkData(chunks)
  }

  function Parsed(r: WireRequest): HTTPRequest {
    HTTPRequest(Text(r.verb), Text(r.path), Text(r.version), HeaderMap(r.headers), BodyOf(r.framing))
  }

  // ---------- finding the ends of lines ----------

  lemma {:induction false} FindFrom(data: Bytes, pattern: Bytes, from: nat, upto: nat)
    requires from <= upto <= |data| && pattern != []
    requires forall k :: from <= k < upto ==> data[k] != pattern[0]
    ensures Find(data, pattern, from) == Find(data, pattern, upto)
    decreases upto - from
  {
    if from < upto {
      NoOccurrence(data, pattern, from, 0);
      FindFrom(data, pattern, from + 1, upto);
    }
  }

  lemma NoOccurrence(data: Bytes, pattern: Bytes, k: nat, offset: nat)
    requires offset < |pattern| && k + offset < |data| && data[k + offset] != pattern[offset]
    ensures !OccursAt(data, pattern, k)
  {
    assert k + |pattern| <= |data| ==> data[k..k + |pattern|][offset] == data[k + offset];
  }

  /** `line` stands at `pos`, followed by CRLF. */
  predicate LineAt(data: Bytes, pos: nat, line: Bytes) {
    && pos + |line| + 2 <= |data|
    && (forall j {:trigger line[j]} :: 0 <= j < |line| ==> data[pos + j] == line[j])
    && data[pos + |line|] == 13 && data[pos + |line| + 1] == 10
  }

  /** A line without CR ends at the first CRLF. */
  lemma FindLineEnd(data: Bytes, pos: nat, line: Bytes)
    requires LineAt(data, pos, line) && NoCR(line)
    ensures Find(data, CRLF, pos) == Some(pos + |line|)
  {
    var end := pos + |line|;
    forall k | pos <= k < end ensures data[k] != CRLF[0] {
      assert data[k] == line[k - pos];
    }
    FindFrom(data, CRLF, pos, end);
    assert data[end..end + 2] == CRLF;
  }

  predicate LinesOk(lines: seq<Bytes>) {
    forall k :: 0 <= k < |lines| ==> lines[k] != [] && NoCR(lines[k])
  }

  predicate LinesAt(data: Bytes, pos: nat, lines: seq<Bytes>)
    decreases |lines|
  {
    lines == [] || (LineAt(data, pos, lines[0]) && LinesAt(data, pos + |lines[0]| + 2, lines[1..]))
  }

  lemma StandsAt(data: Bytes, pos: nat, a: Bytes, b: Bytes)
    requires pos + |a + b| <= |data| && data[pos..pos + |a + b|] == a + b
    ensures data[pos..pos + |a|] == a && data[pos + |a|..pos + |a| + |b|] == b
  {
    assert (a + b)[..|a|] == a && (a + b)[|a|..] == b;
    assert data[pos..pos + |a + b|][..|a|] == data[pos..pos + |a|];
    assert data[pos..pos + |a + b|][|a|..] == data[pos + |a|..pos + |a| + |b|];
  }

  lemma LineStands(data: Bytes, pos: nat, line: Bytes)
    requires pos + |line| + 2 <= |data| && data[pos..pos + |line| + 2] == line + CRLF
    ensures LineAt(data, pos, line)
  {
    StandsAt(data, pos, line, CRLF);
    var end := pos + |line|;
    forall j | 0 <= j < |line| ensures data[pos + j] == line[j] {
      assert data[pos + j] == data[pos..end][j];
    }
    assert data[end] == data[end..end + 2][0] && data[end + 1] == data[end..end + 2][1];
  }

  lemma {:induction false} LinesStand(data: Bytes, pos: nat, lines: seq<Bytes>)
    requires pos + |Wired(lines)| <= |data| && data[pos..pos + |Wired(lines)|] == Wired(lines)
    ensures LinesAt(data, pos, lines)
    decreases |lines|
  {
    if lines != [] {
      var line := lines[0];
      StandsAt(data, pos, line + CRLF, Wired(lines[1..]));
      LineStands(data, pos, line);
      LinesStand(data, pos + |line| + 2, lines[1..]);
    }
  }

  lemma FoundHere(data: Bytes, k: nat)
    requires k + 4 <= |data| && data[k] == 13 && data[k + 1] == 10 && data[k + 2] == 13 && data[k + 3] == 10
    ensures Find(data, BLANK_LINE, k) == Some(k)
  {
    assert data[k..k + 4] == BLANK_LINE;
  }

  lemma SkipLine(data: Bytes, pos: nat, line: Bytes)
    requires LineAt(data, pos, line) && NoCR(line)
    ensures Find(data, BLANK_LINE, pos) == Find(data, BLANK_LINE, pos + |line|)
  {
    forall j | pos <= j < pos + |line| ensures data[j] != BLANK_LINE[0] {
      assert data[j] == line[j - pos];
    }
    FindFrom(data, BLANK_LINE, pos, pos + |line|);
  }

  lemma SkipEnd(data: Bytes, k: nat)
    requires k + 2 < |data| && data[k + 1] == 10 && data[k + 2] != 13
    ensures Find(data, BLANK_LINE, k) == Find(data, BLANK_LINE, k + 2)
  {
    NoOccurrence(data, BLANK_LINE, k, 2);
    NoOccurrence(data, BLANK_LINE, k + 1, 0);
    assert Find(data, BLANK_LINE, k + 1) == Find(data, BLANK_LINE, k + 2);
  }

  /** The header ends where the last line's CRLF begins. */
  lemma {:induction false} FindHeadEnd(data: Bytes, pos: nat, lines: seq<Bytes>, end: nat)
    requires lines != [] && LinesOk(lines) && LinesAt(data, pos, lines)
    requires end == pos + WiredLength(lines) && end + 2 <= |data| && data[end] == 13 && data[end + 1] == 10
    ensures 2 <= end && Find(data, BLANK_LINE, pos) == Some(end - 2)
    decreases |lines|
  {
    hide Find;
    hide Wired;
    var line, rest := lines[0], lines[1..];
    var k := pos + |line|;
    SkipLine(data, pos, line);
    if rest == [] {
      FoundHere(data, k);
    } else {
      assert rest[0][0] in rest[0];
      SkipEnd(data, k);
      FindHeadEnd(data, k + 2, rest, end);
    }
  }

  /** Splitting the header (without its last CRLF) gives back the lines. */
  lemma {:induction false} SplitHead(data: Bytes, lines: seq<Bytes>)
    requires lines != [] && LinesOk(lines) && |Wired(lines)| - 2 == |data|
    requires data + CRLF == Wired(lines)
    ensures SplitLines(data) == lines
    decreases |lines|
  {
    hide Find;
    var line, rest := lines[0], lines[1..];
    var wire := Wired(lines);
    assert wire == (line + CRLF) + Wired(rest);
    StandsAt(wire, 0, line + CRLF, Wired(rest));
    if rest == [] {
      assert data == wire[..|line|] == line;
      NothingFound(line);
    } else {
      assert |Wired(rest)| >= 2;
      assert data[..|line| + 2] == wire[..|line| + 2] == line + CRLF;
      LineStands(data, 0, line);
      FindLineEnd(data, 0, line);
      var inner := data[|line| + 2..];
      assert inner + CRLF == wire[|line| + 2..];
      SplitHead(inner, rest);
      assert data[..|line|] == line;
    }
  }

  lemma NothingFound(line: Bytes)
    requires NoCR(line)
    ensures Find(line, CRLF, 0) == None
  {
    FindFrom(line, CRLF, 0, |line|);
  }

  // ---------- the request line and the headers ----------

  lemma IndexByteIs(line: Bytes, b: byte, i: nat)
    requires i < |line| && line[i] == b && forall k :: 0 <= k < i ==> line[k] != b
    ensures IndexByte(line, b) == Some(i)
  {
    var r := IndexByte(line, b);
    assert b in line;
  }

  /** The first of these bytes behind a part without one. */
  lemma FirstByte(a: Bytes, x: byte, b: Bytes)
    requires x !in a
    ensures var line := a + [x] + b;
            IndexByte(line, x) == Some(|a|) && line[..|a|] == a && line[|a| + 1..] == b
  {
    hide IndexByte;
    var line := a + [x] + b;
    forall k | 0 <= k < |a| ensures line[k] != x { assert line[k] == a[k]; }
    IndexByteIs(line, x, |a|);
  }

  lemma SplitRequestLine(r: WireRequest)
    requires 32 !in r.verb && 32 !in r.path
    ensures SplitSpace3(RequestLine(r)) == [r.verb, r.path, r.version]
  {
    hide IndexByte;
    var rest := r.path + [32] + r.version;
    assert RequestLine(r) == r.verb + [32] + rest;
    FirstByte(r.verb, 32, rest);
    FirstByte(r.path, 32, r.version);
  }

  lemma NoColon(h: Header)
    requires WrittenHeader(h)
    ensures 58 !in h.before + (h.name + h.after)
  {
    var left := h.before + (h.name + h.after);
    forall k | 0 <= k < |left| ensures left[k] != 58 {
      if k < |h.before| {
        assert White(h.before[k]);
      } else if k >= |h.before| + |h.name| {
        assert White(h.after[k - |h.before| - |h.name|]);
      }
    }
  }

  /** A written header is read as its name in lower case and its value. */
  lemma HeaderRead(h: Header)
    requires WrittenHeader(h)
    ensures KeyOf(HeaderLine(h)) == Some(h.key) && ValueOf(HeaderLine(h)) == Text(h.value)
  {
    hide IndexByte, Trim, ToLower, AllWhite, Solid, SameLetters;
    NoColon(h);
    FirstByte(h.before + (h.name + h.after), 58, h.gap + (h.value + h.tail));
    TrimIs(h.before, h.name, h.after);
    TrimIs(h.gap, h.value, h.tail);
    LowerIs(Text(h.name), h.key);
  }

  lemma HeadersRead(hs: seq<Header>)
    requires WrittenHeaders(hs)
    ensures forall k :: 0 <= k < |hs| ==>
              KeyOf(HeaderLines(hs)[k]) == Some(hs[k].key) && ValueOf(HeaderLines(hs)[k]) == Text(hs[k].value)
  {
    hide KeyOf, ValueOf, WrittenHeader, HeaderLine;
    forall k | 0 <= k < |hs|
      ensures KeyOf(HeaderLines(hs)[k]) == Some(hs[k].key) && ValueOf(HeaderLines(hs)[k]) == Text(hs[k].value)
    {
      HeaderRead(hs[k]);
    }
  }

  lemma HeaderMapSnoc(hs: seq<Header>)
    requires hs != []
    ensures var n := |hs| - 1;
            && HeaderMap(hs) == HeaderMap(hs[..n])[hs[n].key := Text(hs[n].value)]
            && HeaderLines(hs)[..n] == HeaderLines(hs[..n])
  {
    hide HeaderLine;
  }

  /** The headers read are those written. */
  lemma {:induction false} HeadersKept(hs: seq<Header>)
    requires WrittenHeaders(hs)
    ensures ReadHead(HeaderLines(hs)).headers == HeaderMap(hs)
  {
    hide KeyOf, ValueOf, WrittenHeader, HeaderLine, HeaderMap, ReadHead;
    if hs == [] {
      EmptyHead();
      NoHeaders();
    } else {
      HeadersKept(hs[..|hs| - 1]);
      HeaderMapSnoc(hs);
      HeadersRead(hs);
      ReadHeadStep(HeaderLines(hs));
    }
  }

  lemma NoHeaders()
    ensures HeaderMap([]) == map[]
  {
  }

  /** Of each name the last header counts. */
  lemma {:induction false} LastHeader(hs: seq<Header>, key: string)
    ensures key in HeaderMap(hs) <==> exists k :: IsLastHeader(hs, key, k)
    ensures forall k :: IsLastHeader(hs, key, k) ==> key in HeaderMap(hs) && HeaderMap(hs)[key] == Text(hs[k].value)
  {
    if hs != [] {
      var n := |hs| - 1;
      LastHeader(hs[..n], key);
      if hs[n].key == key {
        assert IsLastHeader(hs, key, n);
      } else {
        forall k ensures IsLastHeader(hs, key, k) <==> IsLastHeader(hs[..n], key, k) {
        }
      }
    }
  }

  lemma SpelledNumber(s: string, n: nat, base: nat)
    requires IsBase(base) && n <= MAX_INT && SpellsNumber(s, n, base)
    ensures ScanInt(s, base) == Some(n)
  {
    hide ScanInt, Spells, Numeral;
    var ds :| Spells(s, ds, base) && Numeral(ds, base) == n;
    ScanSpelled("", "", s, ds, "", base);
    assert "" + ("" + (s + "")) == s;
  }

  lemma LengthRead(hs: seq<Header>, n: nat)
    requires WrittenHeaders(hs) && SaysLength(hs, n) && n <= MAX_INT
    ensures ReadHead(HeaderLines(hs)).contentLength == n
  {
    hide ReadHead, KeyOf, ValueOf, WrittenHeader, HeaderLine, ScanInt, SpellsNumber;
    var k :| IsLastHeader(hs, "content-length", k) && SpellsNumber(Text(hs[k].value), n, 10);
    var lines := HeaderLines(hs);
    HeadersRead(hs);
    SpelledNumber(Text(hs[k].value), n, 10);
    assert LengthIn(lines[k]) == Some(n);
    forall j | k < j < |lines| ensures LengthIn(lines[j]).None? {
      assert KeyOf(lines[j]) == Some(hs[j].key);
    }
    LastLengthKept(lines, k);
  }

  lemma NoLengthRead(hs: seq<Header>)
    requires WrittenHeaders(hs) && forall k :: 0 <= k < |hs| ==> hs[k].key != "content-length"
    ensures ReadHead(HeaderLines(hs)).contentLength == -1
  {
    hide ReadHead, KeyOf, ValueOf, WrittenHeader, HeaderLine, ScanInt;
    var lines := HeaderLines(hs);
    HeadersRead(hs);
    forall k | 0 <= k < |lines| ensures LengthIn(lines[k]).None? {
      assert KeyOf(lines[k]) == Some(hs[k].key);
    }
    NoFramingKept(lines);
  }

  lemma CodingRead(hs: seq<Header>)
    requires WrittenHeaders(hs)
    ensures ReadHead(HeaderLines(hs)).chunked <==> SaysChunked(hs)
  {
    hide ReadHead, KeyOf, ValueOf, WrittenHeader, HeaderLine, Contains, ToLower, MentionsChunked;
    var lines := HeaderLines(hs);
    HeadersRead(hs);
    LastOfName(hs, "transfer-encoding");
    if k :| IsLastHeader(hs, "transfer-encoding", k) {
      assert KeyOf(lines[k]) == Some("transfer-encoding");
      LastCodingKept(lines, k);
      MentionsIs(ValueOf(lines[k]));
      forall j | IsLastHeader(hs, "transfer-encoding", j) ensures j == k {
      }
    } else {
      forall k | 0 <= k < |lines| ensures KeyOf(lines[k]) != Some("transfer-encoding") {
        assert hs[k].key != "transfer-encoding";
      }
      NoFramingKept(lines);
    }
  }

  /** A name that occurs has a last occurrence. */
  lemma {:induction false} LastOfName(hs: seq<Header>, key: string)
    ensures (exists k :: IsLastHeader(hs, key, k)) || forall k :: 0 <= k < |hs| ==> hs[k].key != key
  {
    if hs != [] {
      var n := |hs| - 1;
      LastOfName(hs[..n], key);
      if hs[n].key == key {
        assert IsLastHeader(hs, key, n);
      } else if k :| IsLastHeader(hs[..n], key, k) {
        assert IsLastHeader(hs, key, k);
      }
    }
  }

  /** The headers are those written, and the framing is the announced one. */
  lemma ReadAllHeaders(hs: seq<Header>, f: Framing) returns (head: Head)
    requires WrittenHeaders(hs) && Announces(hs, f) && (f.Fixed? ==> |f.body| <= MAX_INT)
    ensures head == ReadHead(HeaderLines(hs))
    ensures head.headers == HeaderMap(hs) && head.chunked == f.Chunked?
    ensures f.Fixed? ==> head.contentLength == |f.body|
    ensures f.Bare? ==> head.contentLength == -1
  {
    hide ReadHead, HeaderMap, HeaderLines, WrittenHeaders, SaysChunked, SaysLength;
    head := ReadHead(HeaderLines(hs));
    HeadersKept(hs);
    CodingRead(hs);
    match f
    case Bare => NoLengthRead(hs);
    case Fixed(body) => LengthRead(hs, |body|);
    case Chunked(_, _, _, _) =>
  }

  // ---------- the body ----------

  lemma {:induction false} BeforeSemicolonOf(digits: string, rest: string)
    requires ';' !in digits && (rest == "" || rest[0] == ';')
    ensures BeforeSemicolon(digits + rest) == digits
  {
    if digits == "" {
      assert digits + rest == rest;
    } else {
      assert (digits + rest)[1..] == digits[1..] + rest;
      BeforeSemicolonOf(digits[1..], rest);
    }
  }

  /** A numeral is ASCII text without CR, ";" and blanks. */
  lemma SpelledBytes(b: Bytes, n: nat, base: nat)
    requires IsBase(base) && SpellsNumber(Text(b), n, base)
    ensures b != [] && forall k :: 0 <= k < |b| ==> 48 <= b[k] < 128 && b[k] != 59
  {
    var ds :| Spells(Text(b), ds, base) && Numeral(ds, base) == n;
    forall k | 0 <= k < |b| ensures 48 <= b[k] < 128 && b[k] != 59 {
      assert Writes(Text(b)[k], ds[k]);
    }
  }

  lemma SizeLineParsed(data: Bytes, pos: nat, n: nat, size: Bytes, ext: Bytes)
    requires n <= MAX_INT && ExtOk(ext) && SpellsNumber(Text(size), n, 16) && LineAt(data, pos, WiredSize(size, ext))
    ensures SizeLine(data, pos) == Some((n, pos + |WiredSize(size, ext)| + 2))
  {
    hide ScanInt, Find, BeforeSemicolon, SpellsNumber;
    var line := WiredSize(size, ext);
    SpelledBytes(size, n, 16);
    assert NoCR(line);
    FindLineEnd(data, pos, line);
    assert data[pos..pos + |line|] == line;
    assert Text(line) == Text(size) + Text(ext);
    assert ';' !in Text(size) by {
      assert forall k :: 0 <= k < |size| ==> Text(size)[k] as int == size[k];
    }
    BeforeSemicolonOf(Text(size), Text(ext));
    SpelledNumber(Text(size), n, 16);
  }

  /** The size of a chunk is written right, in whatever case and with whatever leading zeros. */
  ghost predicate ChunksOk(chunks: seq<Chunk>) {
    forall k :: 0 <= k < |chunks| ==>
      chunks[k].data != [] && SpellsNumber(Text(chunks[k].size), |chunks[k].data|, 16) && ExtOk(chunks[k].ext)
  }

  /** `bytes` stand at `pos`. */
  predicate BytesAt(data: Bytes, pos: nat, bytes: Bytes) {
    pos + |bytes| <= |data| && data[pos..pos + |bytes|] == bytes
  }

  /** One chunk: its size line is read, and its data stands behind it. */
  lemma ChunkParsed(data: Bytes, pos: nat, c: Chunk, later: Bytes)
    requires |data| <= MAX_INT && ExtOk(c.ext) && SpellsNumber(Text(c.size), |c.data|, 16)
    requires BytesAt(data, pos, (WiredSize(c.size, c.ext) + CRLF) + ((c.data + CRLF) + later))
    ensures var start := pos + |WiredSize(c.size, c.ext)| + 2;
            && SizeLine(data, pos) == Some((|c.data|, start))
            && BytesAt(data, start, c.data) && BytesAt(data, start + |c.data| + 2, later)
  {
    hide SizeLine;
    var size := WiredSize(c.size, c.ext);
    StandsAt(data, pos, size + CRLF, (c.data + CRLF) + later);
    LineStands(data, pos, size);
    SizeLineParsed(data, pos, |c.data|, c.size, c.ext);
    var start := pos + |size| + 2;
    StandsAt(data, start, c.data + CRLF, later);
    StandsAt(data, start, c.data, CRLF);
  }

  lemma ChunksStep(data: Bytes, pos: nat, body: Bytes, size: nat, start: nat)
    requires pos <= |data| <= MAX_INT && SizeLine(data, pos) == Some((size, start))
    requires size > 0 ==> start + size + 2 <= |data|
    ensures ReadChunks(data, pos, body) ==
            if size == 0 then Got(body, start)
            else ReadChunks(data, start + size + 2, body + data[start..start + size])
  {
    hide SizeLine;
  }

  lemma WiredChunksCons(chunks: seq<Chunk>)
    requires chunks != []
    ensures var c, rest := chunks[0], chunks[1..];
            && WiredChunks(chunks) ==
               (WiredSize(c.size, c.ext) + CRLF) + ((c.data + CRLF) + WiredChunks(rest))
            && |WiredChunks(chunks)| == |WiredSize(c.size, c.ext)| + 2 + |c.data| + 2 + |WiredChunks(rest)|
  {
  }

  lemma ChunkDataCons(chunks: seq<Chunk>)
    ensures ChunkData(chunks) == if chunks == [] then [] else chunks[0].data + ChunkData(chunks[1..])
    ensures WiredChunks([]) == []
  {
  }

  /** Reading the first of several chunks leads to the rest. */
  lemma FirstChunkParsed(data: Bytes, pos: nat, chunks: seq<Chunk>, body: Bytes)
    requires |data| <= MAX_INT && ChunksOk(chunks) && chunks != [] && BytesAt(data, pos, WiredChunks(chunks))
    ensures var next := pos + |WiredSize(chunks[0].size, chunks[0].ext)| + 2 + |chunks[0].data| + 2;
            && ReadChunks(data, pos, body) == ReadChunks(data, next, body + chunks[0].data)
            && BytesAt(data, next, WiredChunks(chunks[1..]))
            && next + |WiredChunks(chunks[1..])| == pos + |WiredChunks(chunks)|
  {
    hide SizeLine, ReadChunks, WiredSize, WiredChunks, ExtOk, CRLF, SpellsNumber;
    var c, rest := chunks[0], chunks[1..];
    WiredChunksCons(chunks);
    ChunkParsed(data, pos, c, WiredChunks(rest));
    ChunksStep(data, pos, body, |c.data|, pos + |WiredSize(c.size, c.ext)| + 2);
  }

  lemma ChunksEnd(data: Bytes, pos: nat, last: Bytes, lastExt: Bytes, body: Bytes)
    requires |data| <= MAX_INT && ExtOk(lastExt) && SpellsNumber(Text(last), 0, 16)
    requires LineAt(data, pos, WiredSize(last, lastExt))
    ensures ReadChunks(data, pos, body) == Got(body, pos + |WiredSize(last, lastExt)| + 2)
  {
    hide SizeLine, ReadChunks, WiredSize, ExtOk;
    SizeLineParsed(data, pos, 0, last, lastExt);
    ChunksStep(data, pos, body, 0, pos + |WiredSize(last, lastExt)| + 2);
  }

  /** Reading well-written chunks collects their data. */
  lemma {:induction false} ChunksRead(data: Bytes, pos: nat, chunks: seq<Chunk>, body: Bytes)
    requires |data| <= MAX_INT && ChunksOk(chunks) && BytesAt(data, pos, WiredChunks(chunks))
    ensures pos + |WiredChunks(chunks)| <= |data|
    ensures ReadChunks(data, pos, body) == ReadChunks(data, pos + |WiredChunks(chunks)|, body + ChunkData(chunks))
    decreases |chunks|
  {
    hide ReadChunks, WiredSize, WiredChunks, ChunkData, ExtOk, SpellsNumber;
    ChunkDataCons(chunks);
    if chunks == [] {
      assert body + [] == body;
    } else {
      var c, rest := chunks[0], chunks[1..];
      FirstChunkParsed(data, pos, chunks, body);
      ChunksRead(data, pos + |WiredSize(c.size, c.ext)| + 2 + |c.data| + 2, rest, body + c.data);
      assert (body + c.data) + ChunkData(rest) == body + (c.data + ChunkData(rest));
    }
  }

  /** Serialised chunks and the line behind them are read as the data of the chunks. */
  lemma ChunksParsed(data: Bytes, pos: nat, chunks: seq<Chunk>, last: Bytes, lastExt: Bytes, body: Bytes)
    requires |data| <= MAX_INT && ExtOk(lastExt) && SpellsNumber(Text(last), 0, 16) && ChunksOk(chunks)
    requires BytesAt(data, pos, WiredChunks(chunks))
    requires LineAt(data, pos + |WiredChunks(chunks)|, WiredSize(last, lastExt))
    ensures ReadChunks(data, pos, body) ==
            Got(body + ChunkData(chunks), pos + |WiredChunks(chunks)| + |WiredSize(last, lastExt)| + 2)
  {
    hide ReadChunks, WiredSize, WiredChunks, ChunkData, ExtOk, LineAt, BytesAt, SpellsNumber, ChunksOk;
    ChunksRead(data, pos, chunks, body);
    ChunksEnd(data, pos + |WiredChunks(chunks)|, last, lastExt, body + ChunkData(chunks));
  }

  lemma {:induction false} TrailersParsed(data: Bytes, pos: nat, trailers: seq<Bytes>, end: nat)
    requires LinesOk(trailers) && LinesAt(data, pos, trailers)
    requires end == pos + WiredLength(trailers) && LineAt(data, end, [])
    ensures pos <= |data| && SkipTrailers(data, pos) == Some(end + 2)
    decreases |trailers|
  {
    if trailers == [] {
      FindLineEnd(data, pos, []);
    } else {
      assert trailers[0] != [];
      FindLineEnd(data, pos, trailers[0]);
      TrailersParsed(data, pos + |trailers[0]| + 2, trailers[1..], end);
    }
  }

  lemma ChunkedFrom(data: Bytes, pos: nat, body: Bytes, p: nat, q: nat)
    requires pos <= |data| && ReadChunks(data, pos, []) == Got(body, p) && SkipTrailers(data, p) == Some(q)
    ensures ReadChunked(data, pos) == Got(body, q)
  {
  }

  lemma ChunkedPayload(f: Framing)
    requires f.Chunked?
    ensures var chunks, last, trailers := WiredChunks(f.chunks), WiredSize(f.last, f.lastExt), Wired(f.trailers);
            && Payload(f) == chunks + ((last + CRLF) + (trailers + CRLF))
            && |Payload(f)| == |chunks| + |last| + 2 + |trailers| + 2
  {
  }

  /** Where the parts of a chunked payload stand. */
  lemma ChunkedPartsStand(data: Bytes, pos: nat, chunks: Bytes, last: Bytes, trailers: Bytes)
    requires BytesAt(data, pos, chunks + ((last + CRLF) + (trailers + CRLF)))
    ensures BytesAt(data, pos, chunks) && LineAt(data, pos + |chunks|, last)
    ensures BytesAt(data, pos + |chunks| + |last| + 2, trailers + CRLF)
  {
    StandsAt(data, pos, chunks, (last + CRLF) + (trailers + CRLF));
    var p := pos + |chunks|;
    StandsAt(data, p, last + CRLF, trailers + CRLF);
    LineStands(data, p, last);
  }

  /** The trailers and the empty line behind them. */
  function Trailing(trailers: seq<Bytes>): Bytes { Wired(trailers) + CRLF }

  lemma PayloadStands(data: Bytes, pos: nat, f: Framing)
    requires f.Chunked? && BytesAt(data, pos, Payload(f))
    ensures var p := pos + |WiredChunks(f.chunks)|;
            var q := p + |WiredSize(f.last, f.lastExt)| + 2;
            && BytesAt(data, pos, WiredChunks(f.chunks)) && LineAt(data, p, WiredSize(f.last, f.lastExt))
            && BytesAt(data, q, Trailing(f.trailers)) && pos + |Payload(f)| == q + |Wired(f.trailers)| + 2
  {
    hide WiredChunks, WiredSize, Wired, Payload, LineAt, BytesAt;
    ChunkedPayload(f);
    ChunkedPartsStand(data, pos, WiredChunks(f.chunks), WiredSize(f.last, f.lastExt), Wired(f.trailers));
  }

  lemma ChunksOfPayload(data: Bytes, pos: nat, f: Framing)
    requires |data| <= MAX_INT && FramingOk(f) && f.Chunked?
    requires BytesAt(data, pos, WiredChunks(f.chunks))
    requires LineAt(data, pos + |WiredChunks(f.chunks)|, WiredSize(f.last, f.lastExt))
    ensures ReadChunks(data, pos, []) ==
              Got(ChunkData(f.chunks), pos + |WiredChunks(f.chunks)| + |WiredSize(f.last, f.lastExt)| + 2)
  {
    hide WiredChunks, WiredSize, ReadChunks, LineAt, BytesAt, ChunkData;
    ChunksParsed(data, pos, f.chunks, f.last, f.lastExt, []);
    assert [] + ChunkData(f.chunks) == ChunkData(f.chunks);
  }

  lemma BodyOfChunks(f: Framing)
    requires f.Chunked?
    ensures BodyOf(f) == ChunkData(f.chunks)
  {
  }

  lemma TrailersOk(f: Framing)
    requires FramingOk(f) && f.Chunked?
    ensures LinesOk(f.trailers)
  {
  }

  /** A payload standing at `pos` is read as its body, up to its end. */
  lemma ChunkedPayloadParsed(data: Bytes, pos: nat, f: Framing)
    requires |data| <= MAX_INT && FramingOk(f) && f.Chunked? && BytesAt(data, pos, Payload(f))
    ensures ReadChunked(data, pos) == Got(BodyOf(f), pos + |Payload(f)|)
  {
    hide WiredChunks, WiredSize, Wired, Payload, ReadChunks, SkipTrailers, ReadChunked;
    hide ChunkData, LinesOk, FramingOk, LineAt, BytesAt, Trailing, BodyOf;
    TrailersOk(f);
    BodyOfChunks(f);
    PayloadStands(data, pos, f);
    ChunksOfPayload(data, pos, f);
    var q := pos + |WiredChunks(f.chunks)| + |WiredSize(f.last, f.lastExt)| + 2;
    TrailersStand(data, q, f.trailers);
    ChunkedFrom(data, pos, ChunkData(f.chunks), q, q + |Wired(f.trailers)| + 2);
  }

  lemma TrailersStand(data: Bytes, pos: nat, trailers: seq<Bytes>)
    requires LinesOk(trailers) && BytesAt(data, pos, Trailing(trailers))
    ensures SkipTrailers(data, pos) == Some(pos + |Wired(trailers)| + 2)
  {
    hide Find;
    hide SkipTrailers;
    StandsAt(data, pos, Wired(trailers), CRLF);
    LinesStand(data, pos, trailers);
    WiredLengthIs(trailers);
    LineStands(data, pos + |Wired(trailers)|, []);
    TrailersParsed(data, pos, trailers, pos + |Wired(trailers)|);
  }

  // ---------- the round trip ----------

  lemma LineWithoutCR(h: Header)
    requires WrittenHeader(h)
    ensures HeaderLine(h) != [] && NoCR(HeaderLine(h))
  {
  }

  lemma LinesAreOk(r: WireRequest)
    requires HeadOk(r)
    ensures LinesOk(Lines(r))
  {
    hide WrittenHeader, HeaderLine;
    forall k | 0 <= k < |Lines(r)| ensures Lines(r)[k] != [] && NoCR(Lines(r)[k]) {
      if k > 0 {
        LineWithoutCR(r.headers[k - 1]);
      }
    }
  }

  lemma BeforeBlankLine(data: Bytes, head: nat)
    requires 2 <= head <= |data| && OccursAt(data, BLANK_LINE, head - 2)
    ensures data[..head - 2] + CRLF == data[..head]
  {
    assert data[head - 2..head + 2] == BLANK_LINE;
    assert data[head - 2] == data[head - 2..head + 2][0] && data[head - 1] == data[head - 2..head + 2][1];
  }

  /** A head of lines, an empty line and a payload, standing at the front. */
  lemma PartsStand(wire: Bytes, payload: Bytes, data: Bytes)
    requires wire + (CRLF + payload) <= data
    ensures var head := |wire|;
            && head + 2 <= |data| && data[..head] == wire && data[head] == 13 && data[head + 1] == 10
            && BytesAt(data, head + 2, payload)
  {
    var whole := wire + (CRLF + payload);
    var head := |wire|;
    assert data[0..|whole|] == whole;
    StandsAt(data, 0, wire, CRLF + payload);
    StandsAt(data, head, CRLF, payload);
    assert data[head] == data[head..head + 2][0] && data[head + 1] == data[head..head + 2][1];
  }

  lemma LinesFound(lines: seq<Bytes>, data: Bytes)
    requires lines != [] && LinesOk(lines)
    requires var head := |Wired(lines)|;
             head + 2 <= |data| && data[..head] == Wired(lines) && data[head] == 13 && data[head + 1] == 10
    ensures var head := |Wired(lines)|;
            2 <= head && Find(data, BLANK_LINE, 0) == Some(head - 2) && SplitLines(data[..head - 2]) == lines
  {
    hide Wired, Find, SplitLines, LinesOk, LinesAt;
    var head := |Wired(lines)|;
    WiredLengthIs(lines);
    assert data[0..head] == Wired(lines);
    LinesStand(data, 0, lines);
    FindHeadEnd(data, 0, lines, head);
    FindFirst(data, BLANK_LINE, 0);
    BeforeBlankLine(data, head);
    SplitHead(data[..head - 2], lines);
  }

  /** What the parser sees of a serialised message: the lines, and where the payload stands. */
  lemma HeadParsed(r: WireRequest, data: Bytes)
    requires HeadOk(r) && Serialise(r) <= data
    ensures var head := |Wired(Lines(r))|;
            && 2 <= head && head + 2 + |Payload(r.framing)| == |Serialise(r)|
            && Find(data, BLANK_LINE, 0) == Some(head - 2)
            && SplitLines(data[..head - 2]) == Lines(r)
            && BytesAt(data, head + 2, Payload(r.framing))
  {
    LinesAreOk(r);
    assert Lines(r) != [];
    hide Wired, Payload, HeadOk, Find, SplitLines, LinesOk, Lines, BytesAt;
    PartsStand(Wired(Lines(r)), Payload(r.framing), data);
    LinesFound(Lines(r), data);
  }

  lemma BehindFrom(data: Bytes, pos: nat, lines: seq<Bytes>, head: Head, parts: seq<Bytes>)
    requires pos <= |data| && lines != [] && |parts| == 3
    requires SplitSpace3(lines[0]) == parts && ReadHead(lines[1..]) == head
    ensures RequestBehind(data, pos, lines) ==
            FramedRequest(HTTPRequest(Text(parts[0]), Text(parts[1]), Text(parts[2]), head.headers, []),
                          if head.chunked then ReadChunked(data, pos)
                          else ReadFixed(data, pos, if head.contentLength < 0 then 0 else head.contentLength))
  {
  }

  lemma LinesParts(r: WireRequest)
    ensures Lines(r) != [] && Lines(r)[0] == RequestLine(r) && Lines(r)[1..] == HeaderLines(r.headers)
  {
  }

  lemma PartsOfCanonical(r: WireRequest)
    requires Canonical(r)
    ensures HeadOk(r) && WrittenHeaders(r.headers) && Announces(r.headers, r.framing) && FramingOk(r.framing)
  {
  }

  lemma BodyFits(f: Framing, data: Bytes, pos: nat)
    requires |data| <= MAX_INT && BytesAt(data, pos, Payload(f))
    ensures pos <= |data| && (f.Fixed? ==> |f.body| <= MAX_INT)
    ensures !f.Chunked? ==> Payload(f) == BodyOf(f)
  {
  }

  /** What is made of a written head, wherever its body stands. */
  lemma BehindHead(r: WireRequest, data: Bytes, pos: nat)
    requires HeadOk(r) && pos <= |data|
    ensures RequestBehind(data, pos, Lines(r)) ==
            var head := ReadHead(HeaderLines(r.headers));
            FramedRequest(HTTPRequest(Text(r.verb), Text(r.path), Text(r.version), HeaderMap(r.headers), []),
                          if head.chunked then ReadChunked(data, pos)
                          else ReadFixed(data, pos, if head.contentLength < 0 then 0 else head.contentLength))
  {
    hide RequestBehind, ReadChunked, ReadFixed, ReadHead, SplitSpace3, WrittenHeaders, HeaderMap, Lines, FramedRequest;
    SplitRequestLine(r);
    LinesParts(r);
    HeadersKept(r.headers);
    BehindFrom(data, pos, Lines(r), ReadHead(HeaderLines(r.headers)), [r.verb, r.path, r.version]);
  }

  lemma BehindParsed(r: WireRequest, data: Bytes, pos: nat)
    requires Canonical(r) && |data| <= MAX_INT && BytesAt(data, pos, Payload(r.framing))
    ensures RequestBehind(data, pos, Lines(r)) == Done(Parsed(r), pos + |Payload(r.framing)|)
  {
    hide RequestBehind, ReadChunked, ReadFixed, ReadHead, HeadOk, Payload, BytesAt, FramingOk, Announces;
    hide HeaderMap, WrittenHeaders, BodyOf, Lines;
    PartsOfCanonical(r);
    BodyFits(r.framing, data, pos);
    BehindHead(r, data, pos);
    var head := ReadAllHeaders(r.headers, r.framing);
    if r.framing.Chunked? {
      ChunkedPayloadParsed(data, pos, r.framing);
    } else {
      BodyLength(r.framing);
      FixedPayloadParsed(data, pos, BodyOf(r.framing));
    }
  }

  lemma BodyLength(f: Framing)
    ensures f.Fixed? ==> |BodyOf(f)| == |f.body|
    ensures f.Bare? ==> |BodyOf(f)| == 0
  {
  }

  lemma FixedPayloadParsed(data: Bytes, pos: nat, body: Bytes)
    requires |data| <= MAX_INT && BytesAt(data, pos, body)
    ensures ReadFixed(data, pos, |body|) == Got(body, pos + |body|)
  {
  }

  /** Round trip: parsing a serialised request, whatever bytes follow, returns it and consumes exactly
      its bytes. Transfer-Encoding wins over Content-Length, extensions and trailers are dropped. */
  lemma ParseSerialised(r: WireRequest, tail: Bytes)
    requires Canonical(r) && |Serialise(r) + tail| <= MAX_INT
    ensures RequestOutcome(Serialise(r) + tail) == Done(Parsed(r), |Serialise(r)|)
  {
    hide RequestBehind, Find, SplitLines, Serialise, Wired, Payload, HeadOk, Parsed, Lines, BytesAt;
    var data := Serialise(r) + tail;
    HeadParsed(r, data);
    BehindParsed(r, data, |Wired(Lines(r))| + 2);
  }

  function ParsedAll(rs: seq<WireRequest>): seq<HTTPRequest> {
    seq(|rs|, k requires 0 <= k < |rs| => Parsed(rs[k]))
  }

  lemma DrainStep<R(!new)>(parse: Parser<R>, first: Bytes, msg: R, later: Bytes)
    requires Progresses(parse) && parse(first + later) == Done(msg, |first|)
    ensures var d := DrainAll(parse, later);
            DrainAll(parse, first + later) == d.(msgs := [msg] + d.msgs)
  {
    assert (first + later)[|first|..] == later;
  }

  /** A drain that starts with no complete message. */
  lemma DrainNothing<R(!new)>(parse: Parser<R>, tail: Bytes)
    requires Progresses(parse)
    ensures parse(tail) == Incomplete ==> DrainAll(parse, tail) == Drained([], tail, false, false)
    ensures parse(tail) == Crash ==> DrainAll(parse, tail) == Drained([], [], true, false)
    ensures parse(tail).UntilClose? ==> DrainAll(parse, tail) == Drained([parse(tail).msg], [], false, true)
  {
  }

  /** Pipelining: draining serialised requests returns exactly those, in order, and then what the tail holds. An
      incomplete tail is left as it is; one that makes the parser panic does so after they were returned. */
  lemma {:induction false} DrainSerialised(rs: seq<WireRequest>, tail: Bytes)
    requires forall k :: 0 <= k < |rs| ==> Canonical(rs[k])
    requires |SerialiseAll(rs) + tail| <= MAX_INT
    ensures RequestsIn(SerialiseAll(rs) + tail) == RequestsIn(tail).(msgs := ParsedAll(rs) + RequestsIn(tail).msgs)
    ensures RequestOutcome(tail) == Incomplete ==>
              RequestsIn(SerialiseAll(rs) + tail) == Drained(ParsedAll(rs), tail, false, false)
    ensures RequestOutcome(tail) == Crash ==>
              RequestsIn(SerialiseAll(rs) + tail) == Drained(ParsedAll(rs), [], true, false)
    decreases |rs|
  {
    RequestParser();
    hide RequestOutcome, DrainAll, Canonical, ParsedAll, Serialise, Parsed;
    DrainNothing(RequestOutcome, tail);
    assert ParsedAll(rs) + [] == ParsedAll(rs);
    if rs == [] {
      assert SerialiseAll(rs) + tail == tail;
      ParsedNone(RequestsIn(tail).msgs);
    } else {
      var later := SerialiseAll(rs[1..]) + tail;
      SerialiseAllCons(rs, tail);
      ParseSerialised(rs[0], later);
      DrainStep(RequestOutcome, Serialise(rs[0]), Parsed(rs[0]), later);
      DrainSerialised(rs[1..], tail);
      ParsedAllCons(rs);
      var msgs := RequestsIn(tail).msgs;
      assert [Parsed(rs[0])] + (ParsedAll(rs[1..]) + msgs) == ([Parsed(rs[0])] + ParsedAll(rs[1..])) + msgs;
    }
  }

  lemma ParsedNone(msgs: seq<HTTPRequest>)
    ensures ParsedAll([]) + msgs == msgs
  {
  }

  lemma SerialiseAllCons(rs: seq<WireRequest>, tail: Bytes)
    requires rs != []
    ensures SerialiseAll(rs) + tail == Serialise(rs[0]) + (SerialiseAll(rs[1..]) + tail)
  {
    var first, rest := Serialise(rs[0]), SerialiseAll(rs[1..]);
    assert (first + rest) + tail == first + (rest + tail);
  }

  lemma ParsedAllCons(rs: seq<WireRequest>)
    requires rs != []
    ensures ParsedAll(rs) == [Parsed(rs[0])] + ParsedAll(rs[1..])
  {
    hide Parsed;
  }
}
