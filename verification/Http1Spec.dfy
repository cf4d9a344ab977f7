/** What one HTTP/1 message parse attempt yields on the bytes buffered so far (RFC 9112), and the
    stability of that answer when more bytes arrive. Text is ASCII. */
module Http1Spec {
  import opened Basics
  import opened Scan
  import opened Messages

  const CRLF: Bytes := [13, 10]
  const BLANK_LINE: Bytes := [13, 10, 13, 10]

  // ---------- the library calls ----------

  predicate OccursAt<T(==)>(data: seq<T>, pattern: seq<T>, k: nat) {
    k + |pattern| <= |data| && data[k..k + |pattern|] == pattern
  }

  /** `bytes.Index(data[from:], pattern)`, as an index into `data`. */
  function Find(data: Bytes, pattern: Bytes, from: nat): (r: Option<nat>)
    requires from <= |data|
    ensures r.Some? ==> from <= r.value && r.value + |pattern| <= |data|
    decreases |data| - from
  {
    if OccursAt(data, pattern, from) then Some(from)
    else if from == |data| then None
    else Find(data, pattern, from + 1)
  }

  /** It is the first occurrence. */
  lemma {:induction false} FindFirst(data: Bytes, pattern: Bytes, from: nat)
    requires from <= |data|
    ensures match Find(data, pattern, from)
            case Some(i) => OccursAt(data, pattern, i) && forall k :: from <= k < i ==> !OccursAt(data, pattern, k)
            case None => forall k :: from <= k ==> !OccursAt(data, pattern, k)
    decreases |data| - from
  {
    if !OccursAt(data, pattern, from) && from < |data| {
      FindFirst(data, pattern, from + 1);
    }
  }

  /** `bytes.Split(data, "\r\n")`. */
  function SplitLines(data: Bytes): (lines: seq<Bytes>)
    ensures lines != []
    decreases |data|
  {
    match Find(data, CRLF, 0)
    case None => [data]
    case Some(i) => [data[..i]] + SplitLines(data[i + 2..])
  }

  function IndexByte(line: Bytes, b: byte): (r: Option<nat>)
    ensures r.Some? ==> r.value < |line| && line[r.value] == b && b !in line[..r.value]
    ensures r.None? ==> b !in line
  {
    if line == [] then None
    else if line[0] == b then Some(0)
    else
      match IndexByte(line[1..], b)
      case None => None
      case Some(i) =>
        assert line[..i + 1] == [line[0]] + line[1..][..i];
        Some(i + 1)
  }

  /** `bytes.SplitN(line, " ", 3)`. */
  function SplitSpace3(line: Bytes): (parts: seq<Bytes>)
    ensures 1 <= |parts| <= 3
  {
    match IndexByte(line, 32)
    case None => [line]
    case Some(i) =>
      var rest := line[i + 1..];
      match IndexByte(rest, 32)
      case None => [line[..i], rest]
      case Some(j) => [line[..i], rest[..j], rest[j + 1..]]
  }

  predicate IsBlank(b: byte) { 9 <= b <= 13 || b == 32 }

  function TrimLeft(s: Bytes): Bytes {
    if s != [] && IsBlank(s[0]) then TrimLeft(s[1..]) else s
  }

  function TrimRight(s: Bytes): Bytes {
    if s != [] && IsBlank(s[|s| - 1]) then TrimRight(s[..|s| - 1]) else s
  }

  function Trim(s: Bytes): Bytes { TrimRight(TrimLeft(s)) }

  function LowerChar(ch: char): char {
    if 'A' <= ch <= 'Z' then (ch as int + 32) as char else ch
  }

  function ToLower(s: string): string {
    seq(|s|, i requires 0 <= i < |s| => LowerChar(s[i]))
  }

  predicate Contains(s: string, part: string) {
    exists i: nat :: i <= |s| && OccursAt(s, part, i)
  }

  /** The text before the first ";". */
  function BeforeSemicolon(s: string): string {
    if s == "" || s[0] == ';' then "" else [s[0]] + BeforeSemicolon(s[1..])
  }

  // ---------- what these calls mean ----------

  lemma CutAt(line: Bytes, x: byte)
    ensures match IndexByte(line, x)
            case None => x !in line
            case Some(i) => x !in line[..i] && line == line[..i] + ([x] + line[i + 1..])
  {
    hide IndexByte;
  }

  /** The parts of a line are those between its first two spaces. */
  lemma SplitSpace3Is(line: Bytes)
    ensures var parts := SplitSpace3(line);
            && (forall k :: 0 <= k < |parts| && k < 2 ==> 32 !in parts[k])
            && line == if |parts| == 1 then parts[0]
                       else if |parts| == 2 then parts[0] + ([32] + parts[1])
                       else parts[0] + ([32] + (parts[1] + ([32] + parts[2])))
  {
    hide IndexByte;
    CutAt(line, 32);
    var i := IndexByte(line, 32);
    if i.Some? {
      CutAt(line[i.value + 1..], 32);
    }
  }

  /** Tab, line feed, vertical tab, form feed, carriage return, space. */
  predicate White(b: byte) { b in {9, 10, 11, 12, 13, 32} }

  predicate AllWhite(b: Bytes) {
    forall k :: 0 <= k < |b| ==> White(b[k])
  }

  /** Neither end is blank. */
  predicate Solid(b: Bytes) {
    b == [] || !(White(b[0]) || White(b[|b| - 1]))
  }

  lemma {:induction false} LeftTrimmed(a: Bytes, b: Bytes)
    requires AllWhite(a) && (b == [] || !White(b[0]))
    ensures TrimLeft(a + b) == b
  {
    if a == [] {
      assert a + b == b;
    } else {
      assert White(a[0]);
      assert (a + b)[1..] == a[1..] + b;
      LeftTrimmed(a[1..], b);
    }
  }

  lemma {:induction false} RightTrimmed(a: Bytes, b: Bytes)
    requires AllWhite(b) && (a == [] || !White(a[|a| - 1]))
    ensures TrimRight(a + b) == a
  {
    if b == [] {
      assert a + b == a;
    } else {
      assert White(b[|b| - 1]);
      assert (a + b)[..|a + b| - 1] == a + b[..|b| - 1];
      RightTrimmed(a, b[..|b| - 1]);
    }
  }

  /** Trimming takes the blanks at both ends, and only those. */
  lemma TrimIs(a: Bytes, b: Bytes, c: Bytes)
    requires AllWhite(a) && Solid(b) && AllWhite(c)
    ensures Trim(a + (b + c)) == b
  {
    hide TrimLeft, TrimRight;
    if b == [] {
      assert a + (b + c) == (a + c) + [];
      LeftTrimmed(a + c, []);
    } else {
      LeftTrimmed(a, b + c);
      RightTrimmed(b, c);
    }
    NothingTrimmed();
  }

  lemma NothingTrimmed()
    ensures TrimRight([]) == []
  {
  }

  /** One letter, in the same case or the other. */
  predicate SameLetter(a: char, b: char) {
    || a == b
    || (65 <= a as int <= 90 && b as int == a as int + 32)
    || (65 <= b as int <= 90 && a as int == b as int + 32)
  }

  predicate SameLetters(s: string, t: string) {
    |s| == |t| && forall k :: 0 <= k < |s| ==> SameLetter(s[k], t[k])
  }

  predicate NoCapitals(s: string) {
    forall k :: 0 <= k < |s| ==> !(65 <= s[k] as int <= 90)
  }

  /** The lower-case form is the one with the same letters and no capitals, and it is the same for every way to
      write the letters. */
  lemma LowerIs(s: string, t: string)
    ensures ToLower(s) == t <==> SameLetters(s, t) && NoCapitals(t)
    ensures SameLetters(s, t) ==> ToLower(s) == ToLower(t)
  {
  }

  /** A part occurs where something stands before and behind it. */
  lemma ContainsIs(s: string, part: string)
    ensures Contains(s, part) <==> exists a: string, b: string :: s == a + (part + b)
  {
    if Contains(s, part) {
      var i: nat :| i <= |s| && OccursAt(s, part, i);
      assert s == s[..i] + (part + s[i + |part|..]);
    }
    if a: string, b: string :| s == a + (part + b) {
      assert s[|a|..|a| + |part|] == part;
      assert OccursAt(s, part, |a|);
    }
  }

  /** The word "chunked" stands in `s`, in whatever case. */
  ghost predicate MentionsChunked(s: string) {
    exists a: string, w: string, b: string :: s == a + (w + b) && SameLetters(w, "chunked")
  }

  lemma LowerConcat(a: string, b: string)
    ensures ToLower(a + b) == ToLower(a) + ToLower(b)
  {
    hide LowerChar;
  }

  /** What a lower-case form is made of was made of the same parts. */
  lemma LowerParts(s: string, a: string, w: string, b: string)
    requires ToLower(s) == a + (w + b)
    ensures var i, j := |a|, |a| + |w|;
            j <= |s| && s == s[..i] + (s[i..j] + s[j..]) && ToLower(s[i..j]) == w
  {
    hide LowerChar;
    var i, j, t := |a|, |a| + |w|, ToLower(s);
    assert t[i..j] == w;
    assert ToLower(s[i..j]) == t[i..j];
  }

  lemma MentionsIs(s: string)
    ensures Contains(ToLower(s), "chunked") <==> MentionsChunked(s)
  {
    hide ToLower, SameLetters, Contains;
    ContainsIs(ToLower(s), "chunked");
    if a: string, b: string :| ToLower(s) == a + ("chunked" + b) {
      LowerParts(s, a, "chunked", b);
      var i, j := |a|, |a| + 7;
      LowerIs(s[i..j], "chunked");
      assert s == s[..i] + (s[i..j] + s[j..]) && SameLetters(s[i..j], "chunked");
    }
    if a: string, w: string, b: string :| s == a + (w + b) && SameLetters(w, "chunked") {
      LowerIs(w, "chunked");
      LowerConcat(a, w + b);
      LowerConcat(w, b);
      assert ToLower(s) == ToLower(a) + ("chunked" + ToLower(b));
    }
  }

  // ---------- header lines ----------

  /** What the header lines say: the headers, the last readable Content-Length (-1 if none), and
      whether the last Transfer-Encoding mentions chunked. */
  datatype Head = Head(headers: map<string, string>, contentLength: int, chunked: bool)

  function Noted(h: Head, key: string, val: string): Head {
    var h' := h.(headers := h.headers[key := val]);
    if key == "content-length" then
      match ScanInt(val, 10)
      case None => h'
      case Some(n) => h'.(contentLength := n)
    else if key == "transfer-encoding" then h'.(chunked := Contains(ToLower(val), "chunked"))
    else h'
  }

  /** A line without a colon is skipped. */
  function ReadLine(h: Head, line: Bytes): Head {
    match IndexByte(line, 58)
    case None => h
    case Some(i) => Noted(h, ToLower(Text(Trim(line[..i]))), Text(Trim(line[i + 1..])))
  }

  function ReadHead(lines: seq<Bytes>): Head {
    if lines == [] then Head(map[], -1, false)
    else ReadLine(ReadHead(lines[..|lines| - 1]), lines[|lines| - 1])
  }

  function KeyOf(line: Bytes): Option<string> {
    match IndexByte(line, 58)
    case None => None
    case Some(i) => Some(ToLower(Text(Trim(line[..i]))))
  }

  function ValueOf(line: Bytes): string {
    match IndexByte(line, 58)
    case None => ""
    case Some(i) => Text(Trim(line[i + 1..]))
  }

  /** The Content-Length a line gives, if it gives a readable one. */
  function LengthIn(line: Bytes): Option<int> {
    if KeyOf(line) == Some("content-length") then ScanInt(ValueOf(line), 10) else None
  }

  /** Line `k` is the last one with this name. */
  ghost predicate IsLast(lines: seq<Bytes>, key: string, k: nat) {
    k < |lines| && KeyOf(lines[k]) == Some(key) && forall j :: k < j < |lines| ==> KeyOf(lines[j]) != Some(key)
  }

  ghost predicate IsLastLength(lines: seq<Bytes>, k: nat) {
    k < |lines| && LengthIn(lines[k]).Some? && forall j :: k < j < |lines| ==> LengthIn(lines[j]).None?
  }

  lemma ReadHeadStep(lines: seq<Bytes>)
    requires lines != []
    ensures var h, line := ReadHead(lines[..|lines| - 1]), lines[|lines| - 1];
            ReadHead(lines) == if KeyOf(line).None? then h else Noted(h, KeyOf(line).value, ValueOf(line))
  {
  }

  lemma EmptyHead()
    ensures ReadHead([]) == Head(map[], -1, false)
  {
  }

  /** Only a line with a colon has a name. */
  lemma NameNeedsColon(line: Bytes)
    ensures KeyOf(line).None? <==> 58 !in line
  {
  }

  /** The names kept are those of the lines ... */
  lemma {:induction false} NamesKept(lines: seq<Bytes>, key: string)
    ensures key in ReadHead(lines).headers <==> exists k :: 0 <= k < |lines| && KeyOf(lines[k]) == Some(key)
  {
    hide ReadHead, KeyOf, ValueOf;
    if lines == [] {
      EmptyHead();
    } else {
      var n := |lines| - 1;
      ReadHeadStep(lines);
      NamesKept(lines[..n], key);
      assert forall k :: 0 <= k < n ==> lines[..n][k] == lines[k];
      assert key in ReadHead(lines).headers <==> key in ReadHead(lines[..n]).headers || KeyOf(lines[n]) == Some(key);
    }
  }

  /** ... each with its last value ... */
  lemma {:induction false} LastValueKept(lines: seq<Bytes>, key: string, k: nat)
    requires IsLast(lines, key, k)
    ensures key in ReadHead(lines).headers && ReadHead(lines).headers[key] == ValueOf(lines[k])
  {
    hide ReadHead, KeyOf, ValueOf;
    var n := |lines| - 1;
    ReadHeadStep(lines);
    if k < n {
      LastValueKept(lines[..n], key, k);
    }
  }

  /** ... and the length is the last readable one ... */
  lemma {:induction false} LastLengthKept(lines: seq<Bytes>, k: nat)
    requires IsLastLength(lines, k)
    ensures ReadHead(lines).contentLength == LengthIn(lines[k]).value
  {
    hide ReadHead, KeyOf, ValueOf;
    var n := |lines| - 1;
    ReadHeadStep(lines);
    if k < n {
      LastLengthKept(lines[..n], k);
    }
  }

  /** ... and chunking is what the last Transfer-Encoding says ... */
  lemma {:induction false} LastCodingKept(lines: seq<Bytes>, k: nat)
    requires IsLast(lines, "transfer-encoding", k)
    ensures ReadHead(lines).chunked == Contains(ToLower(ValueOf(lines[k])), "chunked")
  {
    hide ReadHead, KeyOf, ValueOf, Contains, ToLower;
    var n := |lines| - 1;
    ReadHeadStep(lines);
    if k < n {
      LastCodingKept(lines[..n], k);
    }
  }

  /** ... and without such lines there is no length and no chunking. */
  lemma {:induction false} NoFramingKept(lines: seq<Bytes>)
    ensures (forall k :: 0 <= k < |lines| ==> LengthIn(lines[k]).None?) ==> ReadHead(lines).contentLength == -1
    ensures (forall k :: 0 <= k < |lines| ==> KeyOf(lines[k]) != Some("transfer-encoding")) ==> !ReadHead(lines).chunked
  {
    hide ReadHead, KeyOf, ValueOf, Contains, ToLower;
    if lines == [] {
      EmptyHead();
    } else {
      var n := |lines| - 1;
      ReadHeadStep(lines);
      NoFramingKept(lines[..n]);
      assert forall k :: 0 <= k < n ==> lines[..n][k] == lines[k];
    }
  }

  // ---------- bodies ----------

  /** `Crash` is a Go run-time panic (a slice bound that is negative or beyond the buffer). */
  datatype ChunkResult = Short | Crashes | Got(body: Bytes, pos: nat)

  /** The size line at `pos`: the size and the position behind the line. A line that is not a number
      is answered like missing bytes. */
  function SizeLine(data: Bytes, pos: nat): (r: Option<(int, nat)>)
    requires pos <= |data|
    ensures r.Some? ==> pos + 2 <= r.value.1 <= |data|
  {
    match Find(data, CRLF, pos)
    case None => None
    case Some(end) =>
      match ScanInt(BeforeSemicolon(Text(data[pos..end])), 16)
      case None => None
      case Some(size) => Some((size, end + 2))
  }

  /** The chunk loop, from `pos` with `body` collected (section 7.1 of RFC 9112). */
  function ReadChunks(data: Bytes, pos: nat, body: Bytes): (r: ChunkResult)
    requires pos <= |data|
    ensures r.Got? ==> pos < r.pos <= |data|
    decreases |data| - pos
  {
    match SizeLine(data, pos)
    case None => Short
    case Some((size, start)) =>
      if size == 0 then Got(body, start)
      else if start + size + 2 > MAX_INT then Crashes
      else if |data| < start + size + 2 then Short
      else if size < 0 then Crashes
      else ReadChunks(data, start + size + 2, body + data[start..start + size])
  }

  /** The trailer loop: the position behind the empty line. */
  function SkipTrailers(data: Bytes, pos: nat): (r: Option<nat>)
    requires pos <= |data|
    ensures r.Some? ==> pos < r.value <= |data|
    decreases |data| - pos
  {
    match Find(data, CRLF, pos)
    case None => None
    case Some(end) => if end == pos then Some(pos + 2) else SkipTrailers(data, end + 2)
  }

  /** The chunked body and trailers behind the header. */
  function ReadChunked(data: Bytes, pos: nat): (r: ChunkResult)
    requires pos <= |data|
    ensures r.Got? ==> pos < r.pos <= |data|
  {
    match ReadChunks(data, pos, [])
    case Short => Short
    case Crashes => Crashes
    case Got(body, p) =>
      match SkipTrailers(data, p)
      case None => Short
      case Some(q) => Got(body, q)
  }

  /** A body of announced length. */
  function ReadFixed(data: Bytes, pos: nat, length: nat): (r: ChunkResult)
    requires pos <= |data|
    ensures r.Got? ==> pos <= r.pos <= |data|
  {
    if pos + length > MAX_INT then Crashes
    else if |data| < pos + length then Short
    else Got(data[pos..pos + length], pos + length)
  }

  // ---------- one message ----------

  datatype Outcome<+R> = Incomplete | Done(msg: R, consumed: nat) | UntilClose(msg: R) | Crash

  function FramedRequest(req: HTTPRequest, r: ChunkResult): Outcome<HTTPRequest> {
    match r
    case Short => Incomplete
    case Crashes => Crash
    case Got(body, pos) => Done(req.(body := body), pos)
  }

  /** The part of `ParseRequest` behind the header lines; `pos` is where the body starts. */
  function RequestBehind(data: Bytes, pos: nat, lines: seq<Bytes>): (o: Outcome<HTTPRequest>)
    requires pos <= |data| && lines != []
    ensures o.Done? ==> pos <= o.consumed <= |data|
    ensures !o.UntilClose?
  {
    var parts := SplitSpace3(lines[0]);
    if |parts| != 3 then Incomplete
    else
      var head := ReadHead(lines[1..]);
      var req := HTTPRequest(Text(parts[0]), Text(parts[1]), Text(parts[2]), head.headers, []);
      if !head.chunked then
        FramedRequest(req, ReadFixed(data, pos, if head.contentLength < 0 then 0 else head.contentLength))
      else FramedRequest(req, ReadChunked(data, pos))
  }

  function RequestOutcome(data: Bytes): (o: Outcome<HTTPRequest>)
    ensures o.Done? ==> 0 < o.consumed <= |data|
    ensures !o.UntilClose?
  {
    match Find(data, BLANK_LINE, 0)
    case None => Incomplete
    case Some(end) => RequestBehind(data, end + 4, SplitLines(data[..end]))
  }

  predicate Bodiless(code: int) { 100 <= code < 200 || code == 204 || code == 304 }

  predicate Persistent(version: string, headers: map<string, string>) {
    var connection := ToLower(if "connection" in headers then headers["connection"] else "");
    (version == "HTTP/1.1" && connection != "close") || (version == "HTTP/1.0" && connection == "keep-alive")
  }

  function FramedResponse(resp: HTTPResponse, r: ChunkResult): Outcome<HTTPResponse> {
    match r
    case Short => Incomplete
    case Crashes => Crash
    case Got(body, pos) => Done(resp.(body := body), pos)
  }

  /** The part of `ParseResponse` behind the header lines; `pos` is where the body starts. */
  function ResponseBehind(data: Bytes, pos: nat, lines: seq<Bytes>): (o: Outcome<HTTPResponse>)
    requires pos <= |data| && lines != []
    ensures o.Done? ==> pos <= o.consumed <= |data|
  {
    var parts := SplitSpace3(lines[0]);
    if |parts| < 2 then Incomplete
    else
      var code := match ScanInt(Text(parts[1]), 10) case None => 0 case Some(n) => n;
      var resp := HTTPResponse(Text(parts[0]), if |parts| == 3 then Text(parts[2]) else "", code, map[], []);
      if Bodiless(code) then Done(resp, pos)
      else
        var head := ReadHead(lines[1..]);
        var resp' := resp.(headers := head.headers);
        if !head.chunked && head.contentLength >= 0 then
          FramedResponse(resp', ReadFixed(data, pos, head.contentLength))
        else if head.chunked then FramedResponse(resp', ReadChunked(data, pos))
        else if Persistent(resp'.version, resp'.headers) then Done(resp', pos)
        else UntilClose(resp'.(body := data[pos..]))
  }

  function ResponseOutcome(data: Bytes): (o: Outcome<HTTPResponse>)
    ensures o.Done? ==> 0 < o.consumed <= |data|
  {
    match Find(data, BLANK_LINE, 0)
    case None => Incomplete
    case Some(end) => ResponseBehind(data, end + 4, SplitLines(data[..end]))
  }

  // ---------- stability under extension ----------

  lemma {:induction false} FindStable(data: Bytes, more: Bytes, pattern: Bytes, from: nat)
    requires from <= |data| && Find(data, pattern, from).Some?
    ensures Find(data + more, pattern, from) == Find(data, pattern, from)
    decreases |data| - from
  {
    if !OccursAt(data, pattern, from) {
      var r := Find(data, pattern, from).value;
      assert from + |pattern| <= |data|;
      assert (data + more)[from..from + |pattern|] == data[from..from + |pattern|];
      FindStable(data, more, pattern, from + 1);
    } else {
      assert (data + more)[from..from + |pattern|] == data[from..from + |pattern|];
    }
  }

  lemma SizeLineStable(data: Bytes, more: Bytes, pos: nat)
    requires pos <= |data| && SizeLine(data, pos).Some?
    ensures SizeLine(data + more, pos) == SizeLine(data, pos)
  {
    hide ScanInt;
    hide Find;
    hide BeforeSemicolon;
    FindStable(data, more, CRLF, pos);
    var end := Find(data, CRLF, pos).value;
    assert (data + more)[pos..end] == data[pos..end];
  }

  lemma {:induction false} ChunksStable(data: Bytes, more: Bytes, pos: nat, body: Bytes)
    requires pos <= |data| && ReadChunks(data, pos, body) != Short
    ensures ReadChunks(data + more, pos, body) == ReadChunks(data, pos, body)
    decreases |data| - pos
  {
    hide SizeLine;
    SizeLineStable(data, more, pos);
    var (size, start) := SizeLine(data, pos).value;
    if size > 0 && start + size + 2 <= MAX_INT {
      assert (data + more)[start..start + size] == data[start..start + size];
      ChunksStable(data, more, start + size + 2, body + data[start..start + size]);
    }
  }

  lemma {:induction false} TrailersStable(data: Bytes, more: Bytes, pos: nat)
    requires pos <= |data| && SkipTrailers(data, pos).Some?
    ensures SkipTrailers(data + more, pos) == SkipTrailers(data, pos)
    decreases |data| - pos
  {
    hide Find, CRLF;
    FindStable(data, more, CRLF, pos);
    var end := Find(data, CRLF, pos).value;
    if end != pos {
      TrailersStable(data, more, end + 2);
    }
  }

  lemma ChunkedStable(data: Bytes, more: Bytes, pos: nat)
    requires pos <= |data| && ReadChunked(data, pos) != Short
    ensures ReadChunked(data + more, pos) == ReadChunked(data, pos)
  {
    ChunksStable(data, more, pos, []);
    var r := ReadChunks(data, pos, []);
    if r.Got? {
      TrailersStable(data, more, r.pos);
    }
  }

  lemma FixedStable(data: Bytes, more: Bytes, pos: nat, length: nat)
    requires pos <= |data| && ReadFixed(data, pos, length) != Short
    ensures ReadFixed(data + more, pos, length) == ReadFixed(data, pos, length)
  {
    if pos + length <= |data| {
      assert (data + more)[pos..pos + length] == data[pos..pos + length];
    }
  }

  lemma RequestBehindStable(data: Bytes, more: Bytes, pos: nat, lines: seq<Bytes>)
    requires pos <= |data| && lines != [] && RequestBehind(data, pos, lines) != Incomplete
    ensures RequestBehind(data + more, pos, lines) == RequestBehind(data, pos, lines)
  {
    hide ReadHead;
    hide SplitSpace3;
    hide ReadFixed;
    hide ReadChunked;
    var head := ReadHead(lines[1..]);
    if head.chunked {
      ChunkedStable(data, more, pos);
    } else {
      FixedStable(data, more, pos, if head.contentLength < 0 then 0 else head.contentLength);
    }
  }

  /** Prefix stability: an answer other than "incomplete" is final. */
  lemma RequestStable(data: Bytes, more: Bytes)
    requires RequestOutcome(data) != Incomplete
    ensures RequestOutcome(data + more) == RequestOutcome(data)
  {
    hide RequestBehind;
    hide SplitLines;
    hide Find;
    FindStable(data, more, BLANK_LINE, 0);
    var end := Find(data, BLANK_LINE, 0).value;
    assert (data + more)[..end] == data[..end];
    RequestBehindStable(data, more, end + 4, SplitLines(data[..end]));
  }

  /** The same for responses, outside the read-until-close branch; and that branch is chosen again on
      every extension, with all the bytes then present. */
  lemma {:induction false} ResponseStable(data: Bytes, more: Bytes)
    requires ResponseOutcome(data) != Incomplete
    ensures var o := ResponseOutcome(data);
            ResponseOutcome(data + more) == if o.UntilClose? then UntilClose(o.msg.(body := o.msg.body + more)) else o
  {
    hide ResponseBehind;
    hide SplitLines;
    hide Find;
    FindStable(data, more, BLANK_LINE, 0);
    var end := Find(data, BLANK_LINE, 0).value;
    assert (data + more)[..end] == data[..end];
    BehindStable(data, more, end + 4, SplitLines(data[..end]));
  }

  lemma BehindStable(data: Bytes, more: Bytes, pos: nat, lines: seq<Bytes>)
    requires pos <= |data| && lines != [] && ResponseBehind(data, pos, lines) != Incomplete
    ensures var o := ResponseBehind(data, pos, lines);
            ResponseBehind(data + more, pos, lines) ==
              if o.UntilClose? then UntilClose(o.msg.(body := o.msg.body + more)) else o
  {
    hide ReadHead;
    hide SplitSpace3;
    hide ReadFixed;
    hide ReadChunked;
    hide ScanInt;
    assert (data + more)[pos..] == data[pos..] + more;
    var head := ReadHead(lines[1..]);
    if head.chunked && ReadChunked(data, pos) != Short {
      ChunkedStable(data, more, pos);
    }
    if head.contentLength >= 0 && ReadFixed(data, pos, head.contentLength) != Short {
      FixedStable(data, more, pos, head.contentLength);
    }
  }

  /** The guard of the read-until-close branch, read from the header lines: a status line, a status that has a
      body, no length, no chunking, and no persistent connection (section 6.3 of RFC 9112). */
  predicate LinesClosed(lines: seq<Bytes>)
    requires lines != []
  {
    var parts := SplitSpace3(lines[0]);
    |parts| >= 2 &&
    var code := match ScanInt(Text(parts[1]), 10) case None => 0 case Some(n) => n;
    var head := ReadHead(lines[1..]);
    !Bodiless(code) && !head.chunked && head.contentLength < 0 && !Persistent(Text(parts[0]), head.headers)
  }

  predicate CloseFramed(data: Bytes) {
    match Find(data, BLANK_LINE, 0)
    case None => false
    case Some(end) => LinesClosed(SplitLines(data[..end]))
  }

  /** Where the body starts. */
  function BodyStart(data: Bytes): (n: nat)
    ensures n <= |data|
  {
    match Find(data, BLANK_LINE, 0)
    case None => |data|
    case Some(end) => end + 4
  }

  lemma CloseFramedIs(data: Bytes)
    ensures ResponseOutcome(data).UntilClose? <==> CloseFramed(data)
    ensures CloseFramed(data) ==> ResponseOutcome(data).msg.body == data[BodyStart(data)..]
  {
    hide ReadHead, SplitSpace3, SplitLines, Find, ScanInt, ReadFixed, ReadChunked, Persistent;
  }

  /** So a found response is final exactly when its header lines do not leave its end to the connection. */
  lemma ResponseStableIff(data: Bytes)
    requires ResponseOutcome(data) != Incomplete
    ensures (forall more :: ResponseOutcome(data + more) == ResponseOutcome(data)) <==> !CloseFramed(data)
  {
    hide ResponseOutcome, CloseFramed;
    CloseFramedIs(data);
    forall more ensures !CloseFramed(data) ==> ResponseOutcome(data + more) == ResponseOutcome(data) {
      ResponseStable(data, more);
    }
    if CloseFramed(data) {
      ResponseStable(data, [0]);
      assert ResponseOutcome(data + [0]) != ResponseOutcome(data);
    }
  }

  // ---------- draining a buffer ----------

  /** What the drain loop emits, what it leaves, whether it crashed, and whether it met a message
      framed by the end of the connection. */
  datatype Drained<+R> = Drained(msgs: seq<R>, rest: Bytes, crashed: bool, untilClose: bool)

  type Parser<!R> = Bytes -> Outcome<R>

  ghost predicate Progresses<R(!new)>(parse: Parser<R>) {
    forall data :: var o := parse(data); o.Done? ==> 0 < o.consumed <= |data|
  }

  /** A final answer stays, and only a buffer with bytes in it can be taken as read-until-close. */
  ghost predicate Stable<R(!new)>(parse: Parser<R>) {
    && (forall data, more :: parse(data).Done? || parse(data).Crash? ==> parse(data + more) == parse(data))
    && parse([]) == Incomplete
  }

  function DrainAll<R(!new)>(parse: Parser<R>, buf: Bytes): Drained<R>
    requires Progresses(parse)
    decreases |buf|
  {
    match parse(buf)
    case Incomplete => Drained([], buf, false, false)
    case Crash => Drained([], [], true, false)
    case UntilClose(m) => Drained([m], [], false, true)
    case Done(m, n) =>
      var d := DrainAll(parse, buf[n..]);
      d.(msgs := [m] + d.msgs)
  }

  /** Draining early and again later emits what draining the whole emits. */
  lemma {:induction false} DrainConcat<R(!new)>(parse: Parser<R>, a: Bytes, b: Bytes)
    requires Progresses(parse) && Stable(parse)
    ensures var d := DrainAll(parse, a);
            && (d.crashed ==> DrainAll(parse, a + b) == d)
            && (!d.crashed && !d.untilClose ==>
                  var e := DrainAll(parse, d.rest + b);
                  DrainAll(parse, a + b) == e.(msgs := d.msgs + e.msgs))
    decreases |a|
  {
    var o := parse(a);
    if o.Done? {
      assert parse(a + b) == o;
      assert (a + b)[o.consumed..] == a[o.consumed..] + b;
      DrainConcat(parse, a[o.consumed..], b);
      var d := DrainAll(parse, a[o.consumed..]);
      var e := DrainAll(parse, d.rest + b);
      assert [o.msg] + (d.msgs + e.msgs) == ([o.msg] + d.msgs) + e.msgs;
    } else if o.Crash? {
      assert parse(a + b) == o;
    } else if o.Incomplete? {
      assert DrainAll(parse, a).rest == a;
      var e := DrainAll(parse, a + b);
      assert [] + e.msgs == e.msgs;
    }
  }

  /** Appending each piece and draining. */
  function DrainPieces<R(!new)>(parse: Parser<R>, pieces: seq<Bytes>): Drained<R>
    requires Progresses(parse)
  {
    if pieces == [] then Drained([], [], false, false)
    else
      var d := DrainPieces(parse, pieces[..|pieces| - 1]);
      if d.crashed then d
      else
        var e := DrainAll(parse, d.rest + pieces[|pieces| - 1]);
        Drained(d.msgs + e.msgs, e.rest, e.crashed, d.untilClose || e.untilClose)
  }

  lemma RequestParser()
    ensures Progresses(RequestOutcome) && Stable(RequestOutcome)
  {
    forall data, more | RequestOutcome(data).Done? || RequestOutcome(data).Crash?
      ensures RequestOutcome(data + more) == RequestOutcome(data)
    {
      RequestStable(data, more);
    }
  }

  lemma ResponseParser()
    ensures Progresses(ResponseOutcome) && Stable(ResponseOutcome)
  {
    forall data, more | ResponseOutcome(data).Done? || ResponseOutcome(data).Crash?
      ensures ResponseOutcome(data + more) == ResponseOutcome(data)
    {
      ResponseStable(data, more);
    }
  }

  /** The two drain loops on a given buffer, and over pieces. */
  function RequestsIn(buf: Bytes): Drained<HTTPRequest> {
    RequestParser();
    DrainAll(RequestOutcome, buf)
  }

  function ResponsesIn(buf: Bytes): Drained<HTTPResponse> {
    ResponseParser();
    DrainAll(ResponseOutcome, buf)
  }

  function RequestsInPieces(pieces: seq<Bytes>): Drained<HTTPRequest> {
    RequestParser();
    DrainPieces(RequestOutcome, pieces)
  }

  function ResponsesInPieces(pieces: seq<Bytes>): Drained<HTTPResponse> {
    ResponseParser();
    DrainPieces(ResponseOutcome, pieces)
  }

  lemma {:induction false} RequestsNeverUntilClose(buf: Bytes)
    ensures !RequestsIn(buf).untilClose
    decreases |buf|
  {
    RequestParser();
    hide RequestOutcome;
    var o := RequestOutcome(buf);
    if o.Done? {
      RequestsNeverUntilClose(buf[o.consumed..]);
    }
  }

  /** Draining the requests of `a` and then, with what they left, of `b`. */
  lemma {:induction false} RequestsConcat(a: Bytes, b: Bytes)
    ensures var d := RequestsIn(a);
            && (d.crashed ==> RequestsIn(a + b) == d)
            && (!d.crashed ==>
                  var e := RequestsIn(d.rest + b);
                  RequestsIn(a + b) == e.(msgs := d.msgs + e.msgs))
  {
    RequestParser();
    RequestsNeverUntilClose(a);
    DrainConcat(RequestOutcome, a, b);
  }

  /** Requests never end with the connection, so their stream depends on the bytes alone, not on how
      they were cut. */
  lemma {:induction false} RequestsAnyPieces(pieces: seq<Bytes>)
    ensures RequestsInPieces(pieces) == RequestsIn(Flatten(pieces))
  {
    RequestParser();
    hide RequestOutcome;
    if pieces != [] {
      var init, last := pieces[..|pieces| - 1], pieces[|pieces| - 1];
      RequestsAnyPieces(init);
      RequestsConcat(Flatten(init), last);
      RequestsNeverUntilClose(Flatten(init));
      RequestsNeverUntilClose(RequestsInPieces(init).rest + last);
    } else {
      assert RequestsIn([]) == Drained([], [], false, false);
    }
  }
}
