/** The HTTP/1 parsers as they run: over a shared buffer that a successful parse advances. */
module Http1 {
  import opened Basics
  import opened Scan
  import opened Messages
  import opened Http1Spec

  /** The unread part of a `bytes.Buffer`. */
  class ByteBuffer {
    var data: Bytes

    constructor ()
      ensures data == []
    {
      data := [];
    }

    method Write(p: Bytes)
      modifies this
      ensures data == old(data) + p
    {
      data := data + p;
    }

    method Next(n: nat)
      requires n <= |data|
      modifies this
      ensures data == old(data)[n..]
    {
      data := data[n..];
    }

    method Reset()
      modifies this
      ensures data == []
    {
      data := [];
    }
  }

  method ReadHeaderLines(lines: seq<Bytes>) returns (head: Head)
    ensures head == ReadHead(lines)
  {
    hide ReadLine;
    head := Head(map[], -1, false);
    for i := 0 to |lines|
      invariant head == ReadHead(lines[..i])
    {
      assert lines[..i + 1][..i] == lines[..i];
      head := ReadLine(head, lines[i]);
    }
    assert lines[..|lines|] == lines;
  }

  /** The chunk loop and the trailer loop, from where the body starts. */
  method ReadChunkedBody(data: Bytes, bodyStart: nat) returns (r: ChunkResult)
    requires bodyStart <= |data|
    ensures r == ReadChunked(data, bodyStart)
  {
    hide SizeLine;
    var pos, body := bodyStart, [];
    while true
      invariant pos <= |data| && ReadChunks(data, pos, body) == ReadChunks(data, bodyStart, [])
      decreases |data| - pos
    {
      var line := SizeLine(data, pos);
      if line.None? {
        return Short;
      }
      var (size, start) := line.value;
      pos := start;
      if size == 0 {
        break;
      }
      if pos + size + 2 > MAX_INT {
        return Crashes;
      }
      if |data| < pos + size + 2 {
        return Short;
      }
      if size < 0 {
        return Crashes;
      }
      body := body + data[pos..pos + size];
      pos := pos + size + 2;
    }
    assert ReadChunks(data, bodyStart, []) == Got(body, pos);
    ghost var trailers := pos;
    while true
      invariant pos <= |data| && SkipTrailers(data, pos) == SkipTrailers(data, trailers)
      decreases |data| - pos
    {
      var end := Find(data, CRLF, pos);
      if end.None? {
        return Short;
      }
      if end.value == pos {
        return Got(body, pos + 2);
      }
      pos := end.value + 2;
    }
  }

  /** The buffer after a parse: advanced past the message, emptied, or untouched. */
  function After<R>(data: Bytes, o: Outcome<R>): Bytes {
    match o
    case Done(_, n) => if n <= |data| then data[n..] else []
    case UntilClose(_) => []
    case Incomplete => data
    case Crash => data
  }

  method ParseRequest(buf: ByteBuffer) returns (o: Outcome<HTTPRequest>)
    modifies buf
    ensures o == RequestOutcome(old(buf.data)) && buf.data == After(old(buf.data), o)
  {
    hide ReadHead, ReadChunked, SplitLines, SplitSpace3;
    var data := buf.data;
    var headerEnd := Find(data, BLANK_LINE, 0);
    if headerEnd.None? {
      return Incomplete;
    }
    var lines := SplitLines(data[..headerEnd.value]);
    var parts := SplitSpace3(lines[0]);
    if |parts| != 3 {
      return Incomplete;
    }
    var head := ReadHeaderLines(lines[1..]);
    var req := HTTPRequest(Text(parts[0]), Text(parts[1]), Text(parts[2]), head.headers, []);
    var pos := headerEnd.value + 4;
    var body: ChunkResult;
    if !head.chunked {
      var contentLength := if head.contentLength < 0 then 0 else head.contentLength;
      body := ReadFixed(data, pos, contentLength);
    } else {
      body := ReadChunkedBody(data, pos);
    }
    o := FramedRequest(req, body);
    if o.Done? {
      buf.Next(o.consumed);
    }
  }

  method ParseResponse(buf: ByteBuffer) returns (o: Outcome<HTTPResponse>)
    modifies buf
    ensures o == ResponseOutcome(old(buf.data)) && buf.data == After(old(buf.data), o)
  {
    hide ReadHead, ReadChunked, SplitLines, SplitSpace3, ScanInt;
    var data := buf.data;
    var headerEnd := Find(data, BLANK_LINE, 0);
    if headerEnd.None? {
      return Incomplete;
    }
    var lines := SplitLines(data[..headerEnd.value]);
    var parts := SplitSpace3(lines[0]);
    if |parts| < 2 {
      return Incomplete;
    }
    var pos := headerEnd.value + 4;
    var scanned := ScanInt(Text(parts[1]), 10);
    var code := if scanned.Some? then scanned.value else 0;
    var resp := HTTPResponse(Text(parts[0]), if |parts| == 3 then Text(parts[2]) else "", code, map[], []);
    if Bodiless(code) {
      buf.Next(pos);
      return Done(resp, pos);
    }
    var head := ReadHeaderLines(lines[1..]);
    resp := resp.(headers := head.headers);
    if !head.chunked && head.contentLength >= 0 {
      o := FramedResponse(resp, ReadFixed(data, pos, head.contentLength));
    } else if head.chunked {
      var body := ReadChunkedBody(data, pos);
      o := FramedResponse(resp, body);
    } else if Persistent(resp.version, resp.headers) {
      o := Done(resp, pos);
    } else {
      buf.Reset();
      return UntilClose(resp.(body := data[pos..]));
    }
    if o.Done? {
      buf.Next(o.consumed);
    }
  }

  lemma RequestsUnfold(buf: Bytes)
    ensures var o := RequestOutcome(buf);
            var later := RequestsIn(After(buf, o));
            RequestsIn(buf) == if o.Done? then later.(msgs := [o.msg] + later.msgs) else
                                 Drained([], if o.Crash? then [] else buf, o.Crash?, false)
  {
    RequestParser();
    hide RequestOutcome;
  }

  lemma ResponsesUnfold(buf: Bytes)
    ensures var o := ResponseOutcome(buf);
            var later := ResponsesIn(After(buf, o));
            && (o.Done? ==> ResponsesIn(buf) == later.(msgs := [o.msg] + later.msgs))
            && (o.UntilClose? ==>
                  later == Drained([], [], false, false) && ResponsesIn(buf) == Drained([o.msg], [], false, true))
            && (!o.Done? && !o.UntilClose? ==>
                  ResponsesIn(buf) == Drained([], if o.Crash? then [] else buf, o.Crash?, false))
  {
    ResponseParser();
    hide ResponseOutcome;
  }

  /** The request loop of the sniffer: emit until the buffer holds no complete request. */
  method DrainRequests(buf: ByteBuffer) returns (out: seq<HTTPRequest>, crashed: bool)
    modifies buf
    ensures var d := RequestsIn(old(buf.data));
            out == d.msgs && crashed == d.crashed && (!crashed ==> buf.data == d.rest)
  {
    hide RequestOutcome, RequestsIn;
    out, crashed := [], false;
    while true
      invariant !crashed
      invariant var d, e := RequestsIn(old(buf.data)), RequestsIn(buf.data);
                out + e.msgs == d.msgs && e.crashed == d.crashed && (!d.crashed ==> e.rest == d.rest)
      decreases |buf.data|
    {
      RequestsUnfold(buf.data);
      var o := ParseRequest(buf);
      if !o.Done? {
        crashed := o.Crash?;
        return;
      }
      ghost var later := RequestsIn(buf.data);
      assert out + ([o.msg] + later.msgs) == (out + [o.msg]) + later.msgs;
      out := out + [o.msg];
    }
  }

  /** The response loop; a response framed by the end of the connection takes all the bytes there are. */
  method DrainResponses(buf: ByteBuffer) returns (out: seq<HTTPResponse>, crashed: bool)
    modifies buf
    ensures var d := ResponsesIn(old(buf.data));
            out == d.msgs && crashed == d.crashed && (!crashed ==> buf.data == d.rest)
  {
    hide ResponseOutcome, ResponsesIn;
    out, crashed := [], false;
    while true
      invariant !crashed
      invariant var d, e := ResponsesIn(old(buf.data)), ResponsesIn(buf.data);
                out + e.msgs == d.msgs && e.crashed == d.crashed && (!d.crashed ==> e.rest == d.rest)
      decreases |buf.data|
    {
      ResponsesUnfold(buf.data);
      var o := ParseResponse(buf);
      if !o.Done? && !o.UntilClose? {
        crashed := o.Crash?;
        return;
      }
      ghost var later := ResponsesIn(buf.data);
      assert out + ([o.msg] + later.msgs) == (out + [o.msg]) + later.msgs;
      out := out + [o.msg];
    }
  }
}
