/** How the cuts of a byte string matter for HTTP/1 responses: only behind a response whose end is left to the
    connection. */
module Http1Cuts {
  import opened Basics
  import opened Scan
  import opened Messages
  import opened Http1Spec

  /** One of the pipelined responses in `buf` ends with the connection. */
  predicate OpenEnded(buf: Bytes)
    decreases |buf|
  {
    CloseFramed(buf) ||
    match ResponseOutcome(buf)
    case Done(_, n) => OpenEnded(buf[n..])
    case _ => false
  }

  /** And there are bytes of its body. */
  predicate TakesRest(buf: Bytes)
    decreases |buf|
  {
    if CloseFramed(buf) then BodyStart(buf) < |buf|
    else
      match ResponseOutcome(buf)
      case Done(_, n) => TakesRest(buf[n..])
      case _ => false
  }

  lemma {:induction false} OpenEndedIs(buf: Bytes)
    ensures ResponsesIn(buf).untilClose <==> OpenEnded(buf)
    ensures OpenEnded(buf) ==> ResponsesIn(buf).rest == [] && !ResponsesIn(buf).crashed
    decreases |buf|
  {
    ResponseParser();
    hide ResponseOutcome, CloseFramed;
    CloseFramedIs(buf);
    var o := ResponseOutcome(buf);
    if o.Done? {
      OpenEndedIs(buf[o.consumed..]);
    }
  }

  /** More bytes do not end it; they go to its body. */
  lemma {:induction false} OpenEndedStays(a: Bytes, b: Bytes)
    ensures OpenEnded(a) ==> OpenEnded(a + b) && (b != [] ==> TakesRest(a + b))
    ensures TakesRest(a) ==> TakesRest(a + b)
    decreases |a|
  {
    hide ResponseOutcome, CloseFramed, BodyStart;
    CloseFramedIs(a);
    CloseFramedIs(a + b);
    var o := ResponseOutcome(a);
    if o.Done? {
      ResponseStable(a, b);
      assert (a + b)[o.consumed..] == a[o.consumed..] + b;
      OpenEndedStays(a[o.consumed..], b);
    } else if o.UntilClose? {
      ResponseStable(a, b);
      assert |ResponseOutcome(a + b).msg.body| == |o.msg.body| + |b|;
    }
  }

  lemma ResponsesConcat(a: Bytes, b: Bytes)
    ensures var d := ResponsesIn(a);
            && (d.crashed ==> ResponsesIn(a + b) == d)
            && (!d.crashed && !OpenEnded(a) ==>
                  var e := ResponsesIn(d.rest + b);
                  ResponsesIn(a + b) == e.(msgs := d.msgs + e.msgs))
  {
    ResponseParser();
    OpenEndedIs(a);
    DrainConcat(ResponseOutcome, a, b);
  }

  /** Without bytes of such a body, every cutting gives the responses of the whole. */
  lemma {:induction false} ResponsesAnyPieces(pieces: seq<Bytes>)
    requires !TakesRest(Flatten(pieces))
    ensures ResponsesInPieces(pieces) == ResponsesIn(Flatten(pieces))
  {
    ResponseParser();
    hide ResponseOutcome;
    if pieces == [] {
      NothingIn();
    } else {
      var init, last := pieces[..|pieces| - 1], pieces[|pieces| - 1];
      var a := Flatten(init);
      OpenEndedStays(a, last);
      ResponsesAnyPieces(init);
      ResponsesConcat(a, last);
      OpenEndedIs(a);
      if OpenEnded(a) {
        NothingIn();
        assert a + [] == a && ResponsesIn(a).msgs + [] == ResponsesIn(a).msgs;
      }
    }
  }

  lemma NothingIn()
    ensures ResponsesIn([]) == Drained([], [], false, false)
  {
    ResponseParser();
  }

  /** A head cut off from its body is the same head. */
  lemma HeadAlone(buf: Bytes)
    requires CloseFramed(buf)
    ensures CloseFramed(buf[..BodyStart(buf)]) && BodyStart(buf[..BodyStart(buf)]) == BodyStart(buf) > 0
  {
    hide LinesClosed, SplitLines;
    var n := BodyStart(buf);
    var head := buf[..n];
    FindFirst(buf, BLANK_LINE, 0);
    FindFirst(head, BLANK_LINE, 0);
    assert head + buf[n..] == buf;
    assert head[n - 4..] == buf[n - 4..n];
    assert OccursAt(head, BLANK_LINE, n - 4);
    FindStable(head, buf[n..], BLANK_LINE, 0);
    assert head[..n - 4] == buf[..n - 4];
  }

  /** The place to cut: there the last response so far is answered with an empty body. */
  lemma {:induction false} CutInside(buf: Bytes) returns (k: nat)
    requires TakesRest(buf)
    ensures k <= |buf|
    ensures var d, whole := ResponsesIn(buf[..k]).msgs, ResponsesIn(buf).msgs;
            0 < |d| <= |whole| && d[|d| - 1].body == [] != whole[|d| - 1].body
    decreases |buf|
  {
    ResponseParser();
    hide ResponseOutcome, CloseFramed, BodyStart;
    CloseFramedIs(buf);
    if CloseFramed(buf) {
      k := BodyStart(buf);
      HeadAlone(buf);
      CloseFramedIs(buf[..k]);
    } else {
      var n := ResponseOutcome(buf).consumed;
      var j := CutInside(buf[n..]);
      k := n + j;
      CutBehind(buf, k);
    }
  }

  // ---------- an answer depends on the bytes it consumes ----------

  lemma {:induction false} FindWithin(data: Bytes, pattern: Bytes, from: nat, k: nat)
    requires from <= k <= |data| && Find(data, pattern, from).Some?
    requires Find(data, pattern, from).value + |pattern| <= k
    ensures Find(data[..k], pattern, from) == Find(data, pattern, from)
    decreases |data| - from
  {
    if from + |pattern| <= k {
      assert data[..k][from..from + |pattern|] == data[from..from + |pattern|];
    }
    if !OccursAt(data, pattern, from) {
      FindWithin(data, pattern, from + 1, k);
    }
  }

  lemma SizeLineWithin(data: Bytes, pos: nat, k: nat)
    requires pos <= k <= |data| && SizeLine(data, pos).Some? && SizeLine(data, pos).value.1 <= k
    ensures SizeLine(data[..k], pos) == SizeLine(data, pos)
  {
    hide ScanInt, Find, BeforeSemicolon;
    FindWithin(data, CRLF, pos, k);
    var end := Find(data, CRLF, pos).value;
    assert data[..k][pos..end] == data[pos..end];
  }

  lemma {:induction false} ChunksWithin(data: Bytes, pos: nat, body: Bytes, k: nat)
    requires pos <= k <= |data| && ReadChunks(data, pos, body).Got? && ReadChunks(data, pos, body).pos <= k
    ensures ReadChunks(data[..k], pos, body) == ReadChunks(data, pos, body)
    decreases |data| - pos
  {
    hide SizeLine;
    var (size, start) := SizeLine(data, pos).value;
    SizeLineWithin(data, pos, k);
    if size != 0 {
      assert data[..k][start..start + size] == data[start..start + size];
      ChunksWithin(data, start + size + 2, body + data[start..start + size], k);
    }
  }

  lemma {:induction false} TrailersWithin(data: Bytes, pos: nat, k: nat)
    requires pos <= k <= |data| && SkipTrailers(data, pos).Some? && SkipTrailers(data, pos).value <= k
    ensures SkipTrailers(data[..k], pos) == SkipTrailers(data, pos)
    decreases |data| - pos
  {
    hide Find;
    var end := Find(data, CRLF, pos).value;
    FindWithin(data, CRLF, pos, k);
    if end != pos {
      TrailersWithin(data, end + 2, k);
    }
  }

  lemma ChunkedWithin(data: Bytes, pos: nat, k: nat)
    requires pos <= k <= |data| && ReadChunked(data, pos).Got? && ReadChunked(data, pos).pos <= k
    ensures ReadChunked(data[..k], pos) == ReadChunked(data, pos)
  {
    hide ReadChunks, SkipTrailers;
    ChunksWithin(data, pos, [], k);
    TrailersWithin(data, ReadChunks(data, pos, []).pos, k);
  }

  lemma BehindWithin(data: Bytes, pos: nat, lines: seq<Bytes>, k: nat)
    requires pos <= k <= |data| && lines != []
    requires ResponseBehind(data, pos, lines).Done? && ResponseBehind(data, pos, lines).consumed <= k
    ensures ResponseBehind(data[..k], pos, lines) == ResponseBehind(data, pos, lines)
  {
    hide ReadHead, SplitSpace3, ReadChunked, ScanInt;
    var head := ReadHead(lines[1..]);
    if head.chunked && ReadChunked(data, pos).Got? && ReadChunked(data, pos).pos <= k {
      ChunkedWithin(data, pos, k);
    }
    if head.contentLength >= 0 && pos + head.contentLength <= k {
      assert data[..k][pos..pos + head.contentLength] == data[pos..pos + head.contentLength];
    }
  }

  /** A complete response is found as well when the buffer ends anywhere behind it. */
  lemma CutBehind(buf: Bytes, k: nat)
    requires ResponseOutcome(buf).Done? && ResponseOutcome(buf).consumed <= k <= |buf|
    ensures var n := ResponseOutcome(buf).consumed;
            ResponseOutcome(buf[..k]) == ResponseOutcome(buf) && buf[..k][n..] == buf[n..][..k - n]
  {
    hide ResponseBehind, SplitLines, Find;
    var end := Find(buf, BLANK_LINE, 0).value;
    FindWithin(buf, BLANK_LINE, 0, k);
    assert buf[..k][..end] == buf[..end];
    BehindWithin(buf, end + 4, SplitLines(buf[..end]), k);
  }

  // ---------- the exact condition ----------

  /** The exact condition: the responses do not depend on the cuts if and only if no bytes follow the head of a
      response that ends with the connection. */
  lemma {:induction false} ResponsesAnyCutIff(bytes: Bytes)
    ensures (forall pieces: seq<Bytes> :: Flatten<byte>(pieces) == bytes ==>
              ResponsesInPieces(pieces) == ResponsesIn(bytes)) <==>
            !TakesRest(bytes)
  {
    hide ResponsesIn, ResponsesInPieces, TakesRest;
    if TakesRest(bytes) {
      var k := CutInside(bytes);
      var pieces := [bytes[..k], bytes[k..]];
      CutInTwo(bytes, k);
      assert ResponsesInPieces(pieces).msgs != ResponsesIn(bytes).msgs;
    } else {
      forall pieces: seq<Bytes> | Flatten<byte>(pieces) == bytes
        ensures ResponsesInPieces(pieces) == ResponsesIn(bytes)
      {
        ResponsesAnyPieces(pieces);
      }
    }
  }

  lemma CutInTwo(bytes: Bytes, k: nat)
    requires k <= |bytes|
    ensures var pieces := [bytes[..k], bytes[k..]];
            Flatten<byte>(pieces) == bytes && ResponsesIn(bytes[..k]).msgs <= ResponsesInPieces(pieces).msgs
  {
    ResponseParser();
    hide ResponseOutcome;
    NothingIn();
    var a, b := bytes[..k], bytes[k..];
    var none: seq<Bytes>, one: seq<Bytes>, two: seq<Bytes> := [], [a], [a, b];
    assert two[..|two| - 1] == one && one[..|one| - 1] == none && [] + a == a && a + b == bytes;
    assert Flatten<byte>(one) == a;
    assert Flatten<byte>(two) == Flatten<byte>(two[..|two| - 1]) + two[|two| - 1];
    assert ResponsesInPieces(none) == Drained([], [], false, false);
    assert ResponsesInPieces(one).msgs == ResponsesIn(a).msgs;
  }
}
