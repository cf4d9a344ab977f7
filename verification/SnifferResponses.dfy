/** What the response stream of a connection depends on. Unlike requests, responses can arrive before the protocol
    is known, and an HTTP/1 response may be framed by the end of the connection. */
module SnifferResponses {
  import opened Basics
  import opened Hpack
  import opened Messages
  import opened Http2Spec
  import opened Http2Framing
  import opened Http2
  import opened Http1Spec
  import opened Http1Cuts
  import opened SnifferSpec

  /** The response-direction bytes of the events. */
  function ResponseBytes(events: seq<Event>): Bytes {
    if events == [] then []
    else ResponseBytes(events[..|events| - 1]) + if events[|events| - 1].isReq then [] else events[|events| - 1].data
  }

  /** All responses seen on the way. */
  function Answered<D>(c: Codec<D>, events: seq<Event>): seq<SeenResponse> {
    if events == [] then []
    else
      var init := events[..|events| - 1];
      Answered(c, init) + Step(c, SnifferSpec.Run(c, init).0, events[|events| - 1]).1.responses
  }

  // ---------- HTTP/2 ----------

  /** The response direction is where the reference is, or was stopped before. */
  ghost predicate Answers<D>(c: Codec<D>, h: Feeder<D>, out: seq<SeenResponse>, bytes: Bytes) {
    var expected := MultiplexedResponses(Reference(c, bytes).dir.tab.done);
    && h.dir.tab.done == [] && out <= expected
    && (Stopped(h) || (h == Cleared(Reference(c, bytes)) && out == expected))
  }

  lemma ResponsesOfMore(a: seq<Finished>, b: seq<Finished>)
    ensures MultiplexedResponses(a + b) == MultiplexedResponses(a) + MultiplexedResponses(b)
    ensures a <= b ==> MultiplexedResponses(a) <= MultiplexedResponses(b)
  {
  }

  lemma AnswersOn<D>(c: Codec<D>, h: Feeder<D>, out: seq<SeenResponse>, bytes: Bytes, piece: Bytes, truncated: bool)
    requires Answers(c, h, out, bytes)
    ensures var fed := Fed(c, h, piece, truncated);
            Answers(c, Cleared(fed), out + MultiplexedResponses(fed.dir.tab.done), bytes + piece)
  {
    hide Reference, Fed;
    var queue, queue' := Reference(c, bytes).dir.tab.done, Reference(c, bytes + piece).dir.tab.done;
    ReferenceGrows(c, bytes, piece);
    ResponsesOfMore(queue, queue');
    if Stopped(h) {
      StoppedStays(c, h, piece, truncated);
    } else {
      FedFollows(c, bytes, piece, truncated);
      ResponsesOfMore(queue, Fed(c, h, piece, truncated).dir.tab.done);
    }
  }

  lemma NothingAnswered<D>(c: Codec<D>)
    ensures Answers(c, NewFeeder(c), [], [])
  {
    FreshIsReference(c);
  }

  // ---------- HTTP/1 ----------

  /** What a drain leaves holds no complete response. */
  lemma {:induction false} RestIsDrained(a: Bytes)
    ensures var d := ResponsesIn(a);
            !d.crashed ==> ResponsesIn(d.rest) == Drained([], d.rest, false, false)
    decreases |a|
  {
    ResponseParser();
    hide ResponseOutcome;
    var o := ResponseOutcome(a);
    if o.Done? {
      RestIsDrained(a[o.consumed..]);
    }
  }

  /** What was emitted and what the buffer still holds are together what the bytes hold. */
  ghost predicate Covers(buffer: Bytes, out: seq<SeenResponse>, bytes: Bytes) {
    var d, e := ResponsesIn(bytes), ResponsesIn(buffer);
    !TakesRest(bytes) ==>
      && PlainResponses(d.msgs) == out + PlainResponses(e.msgs)
      && d == e.(msgs := d.msgs, untilClose := d.untilClose)
      && (!OpenEnded(bytes) ==> !e.untilClose)
  }

  lemma PlainOfMore(a: seq<HTTPResponse>, b: seq<HTTPResponse>)
    ensures PlainResponses(a + b) == PlainResponses(a) + PlainResponses(b)
  {
  }

  lemma PlainOfNone(out: seq<SeenResponse>)
    ensures out + PlainResponses([]) == out
  {
  }

  lemma CoversOn(buffer: Bytes, out: seq<SeenResponse>, bytes: Bytes, data: Bytes)
    requires Covers(buffer, out, bytes)
    requires !ResponsesIn(buffer + data).crashed
    ensures var d := ResponsesIn(buffer + data);
            Covers(d.rest, out + PlainResponses(d.msgs), bytes + data)
  {
    hide ResponsesIn, OpenEnded, TakesRest, PlainResponses;
    OpenEndedStays(bytes, data);
    OpenEndedIs(bytes);
    OpenEndedIs(buffer);
    OpenEndedIs(bytes + data);
    RestIsDrained(buffer + data);
    PlainOfNone(out + PlainResponses(ResponsesIn(buffer + data).msgs));
    if OpenEnded(bytes) {
      if data == [] {
        assert bytes + data == bytes && buffer + data == buffer;
      }
    } else if !TakesRest(bytes + data) {
      var d, e := ResponsesIn(bytes), ResponsesIn(buffer);
      ResponsesConcat(bytes, data);
      ResponsesConcat(buffer, data);
      var more := ResponsesIn(d.rest + data).msgs;
      PlainOfMore(d.msgs, more);
      PlainOfMore(e.msgs, more);
    }
  }

  // ---------- the response stream ----------

  ghost predicate Tallies<D>(c: Codec<D>, conn: Conn<D>, out: seq<SeenResponse>, bytes: Bytes) {
    !conn.crashed ==>
      match conn.proto
      case Unknown => out == [] && conn.responseBuffer == bytes
      case HTTP1 => Covers(conn.responseBuffer, out, bytes)
      case HTTP2 => Answers(c, conn.h2resp, out, bytes)
  }

  lemma Http1Tallies<D>(c: Codec<D>, conn: Conn<D>, out: seq<SeenResponse>, bytes: Bytes, e: Event)
    requires Covers(conn.responseBuffer, out, bytes) && conn.proto == HTTP1
    ensures var (conn', more) := OnHttp1(Buffered(conn, e), e);
            Tallies(c, conn', out + more.responses, bytes + if e.isReq then [] else e.data)
  {
    hide ResponsesIn, RequestsIn, Covers;
    assert bytes + [] == bytes && out + [] == out;
    if !e.isReq && !ResponsesIn(conn.responseBuffer + e.data).crashed {
      CoversOn(conn.responseBuffer, out, bytes, e.data);
    }
  }

  lemma HandOverTallies<D>(c: Codec<D>, conn: Conn<D>)
    requires |conn.requestBuffer| >= |Preface()|
    ensures var (conn', more) := HandOver(c, conn);
            Tallies(c, conn', more.responses, conn.responseBuffer)
  {
    hide Answers, Fed, NewFeeder, Preface, Cleared;
    NothingAnswered(c);
    AnswersOn(c, NewFeeder(c), [], [], conn.responseBuffer, false);
    NewIsClear(c);
    assert [] + conn.responseBuffer == conn.responseBuffer;
    var fed := Fed(c, NewFeeder(c), conn.responseBuffer, false);
    assert [] + MultiplexedResponses(fed.dir.tab.done) == MultiplexedResponses(fed.dir.tab.done);
  }

  lemma NewIsClear<D>(c: Codec<D>)
    ensures Cleared(NewFeeder(c)) == NewFeeder(c) && MultiplexedResponses(NewFeeder(c).dir.tab.done) == []
  {
  }

  lemma StartCovers(bytes: Bytes)
    ensures Covers(bytes, [], bytes)
  {
    hide ResponsesIn, OpenEnded, TakesRest, PlainResponses;
    OpenEndedIs(bytes);
    var msgs := ResponsesIn(bytes).msgs;
    assert [] + PlainResponses(msgs) == PlainResponses(msgs);
  }

  lemma StepTallies<D>(c: Codec<D>, conn: Conn<D>, out: seq<SeenResponse>, bytes: Bytes, e: Event)
    requires Tallies(c, conn, out, bytes)
    ensures var (conn', more) := Step(c, conn, e);
            Tallies(c, conn', out + more.responses, bytes + if e.isReq then [] else e.data)
  {
    hide Preface, HandOver, OnHttp1, Covers, Answers, Fed, DetectProto;
    assert bytes + [] == bytes && out + [] == out;
    if conn.crashed {
    } else if conn.proto == HTTP2 {
      if !e.isReq {
        AnswersOn(c, conn.h2resp, out, bytes, e.data, |e.data| == MAX_CAPTURED_READ);
      }
    } else if conn.proto == HTTP1 {
      Http1Tallies(c, conn, out, bytes, e);
    } else {
      var conn' := Buffered(conn, e);
      VerdictStable(conn'.requestBuffer, []);
      match DetectProto(conn'.requestBuffer)
      case Unknown =>
      case HTTP1 =>
        StartCovers(bytes);
        Http1Tallies(c, conn.(proto := HTTP1), out, bytes, e);
      case HTTP2 =>
        HandOverTallies(c, conn');
        assert [] + HandOver(c, conn').1.responses == HandOver(c, conn').1.responses;
    }
  }

  lemma {:induction false} RunTallies<D>(c: Codec<D>, events: seq<Event>)
    ensures Tallies(c, SnifferSpec.Run(c, events).0, Answered(c, events), ResponseBytes(events))
  {
    hide Tallies, Step;
    if events == [] {
      NoneTallied(c);
    } else {
      var init := events[..|events| - 1];
      RunTallies(c, init);
      StepTallies(c, SnifferSpec.Run(c, init).0, Answered(c, init), ResponseBytes(init), events[|events| - 1]);
    }
  }

  lemma NoneTallied<D>(c: Codec<D>)
    ensures Tallies(c, NewConn(c), [], [])
  {
  }

  /** The responses seen on a connection. On HTTP/2 they are those of the response bytes taken at once, early bytes
      included, up to where an overflow or a capture gap stopped the direction. On HTTP/1, unless bytes follow the
      head of a response framed by the end of the connection, they are those of the bytes, less the ones that
      arrived before the protocol was known and still wait in the buffer. */
  lemma {:induction false} ResponseStream<D>(c: Codec<D>, events: seq<Event>)
    requires !SnifferSpec.Run(c, events).0.crashed
    ensures var conn, out, bytes := SnifferSpec.Run(c, events).0, Answered(c, events), ResponseBytes(events);
            match conn.proto
            case Unknown => out == []
            case HTTP1 =>
              !TakesRest(bytes) ==>
                PlainResponses(ResponsesIn(bytes).msgs) == out + PlainResponses(ResponsesIn(conn.responseBuffer).msgs)
            case HTTP2 =>
              var expected := MultiplexedResponses(Reference(c, bytes).dir.tab.done);
              out <= expected && (!Stopped(conn.h2resp) ==> out == expected)
  {
    hide SnifferSpec.Run, Answered, ResponsesIn, Reference;
    RunTallies(c, events);
  }

  lemma StepAsHttp1<D>(c: Codec<D>, conn: Conn<D>, e: Event)
    requires var conn' := Step(c, conn, e).0; !conn'.crashed && conn'.proto == HTTP1
    ensures Step(c, conn, e) == OnHttp1(Buffered(conn, e).(proto := HTTP1), e)
  {
    hide ResponsesIn, RequestsIn, Fed;
  }

  /** After a response event the buffer holds no complete response. */
  lemma DrainedAfter<D>(c: Codec<D>, conn: Conn<D>, e: Event)
    requires var conn' := Step(c, conn, e).0; !conn'.crashed && conn'.proto == HTTP1
    requires !e.isReq
    ensures ResponsesIn(Step(c, conn, e).0.responseBuffer).msgs == []
  {
    StepAsHttp1(c, conn, e);
    hide Step;
    RestIsDrained(Buffered(conn, e).responseBuffer);
    hide ResponsesIn;
  }

  /** So then the HTTP/1 responses seen are exactly those of the bytes. */
  lemma {:induction false} WholeResponseStream<D>(c: Codec<D>, events: seq<Event>)
    requires !SnifferSpec.Run(c, events).0.crashed && SnifferSpec.Run(c, events).0.proto == HTTP1
    requires events != [] && !events[|events| - 1].isReq
    requires !TakesRest(ResponseBytes(events))
    ensures Answered(c, events) == PlainResponses(ResponsesIn(ResponseBytes(events)).msgs)
  {
    hide Answered, ResponseBytes, ResponsesIn, Step;
    ResponseStream(c, events);
    DrainedAfter(c, SnifferSpec.Run(c, events[..|events| - 1]).0, events[|events| - 1]);
  }

  // ---------- no panic ----------

  /** The bytes of the connection hold no length that makes a parser panic: none among the requests, none among the
      responses, and none behind the head of a response that ends with the connection, where the cuts decide what
      is parsed. */
  predicate Harmless(requests: Bytes, responses: Bytes) {
    DetectProto(requests) == HTTP1 ==>
      !RequestsIn(requests).crashed && !ResponsesIn(responses).crashed && !TakesRest(responses)
  }

  lemma HarmStays(requests: Bytes, responses: Bytes, a: Bytes, b: Bytes)
    requires !Harmless(requests, responses)
    ensures !Harmless(requests + a, responses + b)
  {
    hide DetectProto, RequestsIn, ResponsesIn, OpenEnded, TakesRest;
    VerdictStable(requests, a);
    RequestsConcat(requests, a);
    ResponsesConcat(responses, b);
    OpenEndedStays(responses, b);
  }

  /** A step that panics does so over the HTTP/1 loops. */
  lemma PanicIsHttp1<D>(c: Codec<D>, conn: Conn<D>, e: Event)
    requires !conn.crashed && Step(c, conn, e).0.crashed
    ensures conn.proto == HTTP1 || (conn.proto == Unknown && DetectProto(Buffered(conn, e).requestBuffer) == HTTP1)
    ensures if e.isReq then RequestsIn(conn.requestBuffer + e.data).crashed
            else ResponsesIn(conn.responseBuffer + e.data).crashed
  {
    hide RequestsIn, ResponsesIn, Fed, Preface;
  }

  /** A drain that panics does so over what the bytes hold. */
  lemma PanicCovered(buffer: Bytes, out: seq<SeenResponse>, bytes: Bytes, data: Bytes)
    requires Covers(buffer, out, bytes) && ResponsesIn(buffer + data).crashed && !TakesRest(bytes + data)
    ensures ResponsesIn(bytes + data).crashed
  {
    hide ResponsesIn, OpenEnded, TakesRest, PlainResponses;
    OpenEndedStays(bytes, data);
    OpenEndedIs(bytes);
    OpenEndedIs(buffer);
    assert data == [] ==> buffer + data == buffer;
    if !OpenEnded(bytes) {
      ResponsesConcat(bytes, data);
      ResponsesConcat(buffer, data);
    }
  }

  lemma PanicIsHarm<D>(c: Codec<D>, conn: Conn<D>, seen: seq<SeenRequest>, out: seq<SeenResponse>,
                       requests: Bytes, responses: Bytes, e: Event)
    requires Follows(c, conn, seen, requests) && Tallies(c, conn, out, responses)
    requires !conn.crashed && Step(c, conn, e).0.crashed
    ensures !Harmless(requests + if e.isReq then e.data else [], responses + if e.isReq then [] else e.data)
  {
    hide RequestsIn, ResponsesIn, DetectProto, Step, Reference, TakesRest, ReferenceRequests, Covers, Answers;
    PanicIsHttp1(c, conn, e);
    assert requests + [] == requests && responses + [] == responses;
    VerdictStable(requests, e.data);
    if e.isReq {
      if conn.proto == HTTP1 {
        RequestsConcat(requests, e.data);
      }
    } else if conn.proto == HTTP1 && !TakesRest(responses + e.data) {
      PanicCovered(conn.responseBuffer, out, responses, e.data);
    }
  }

  lemma {:induction false} NoPanic<D>(c: Codec<D>, events: seq<Event>)
    requires Harmless(RequestBytes(events), ResponseBytes(events))
    ensures !SnifferSpec.Run(c, events).0.crashed
  {
    hide Harmless, Step, Follows, Tallies;
    if events != [] {
      var init, e := events[..|events| - 1], events[|events| - 1];
      var requests, responses := RequestBytes(init), ResponseBytes(init);
      var a, b := if e.isReq then e.data else [], if e.isReq then [] else e.data;
      if !Harmless(requests, responses) {
        HarmStays(requests, responses, a, b);
      }
      NoPanic(c, init);
      RunFollows(c, init);
      RunTallies(c, init);
      var (conn, seen) := SnifferSpec.Run(c, init);
      if Step(c, conn, e).0.crashed {
        PanicIsHarm(c, conn, seen, Answered(c, init), requests, responses, e);
      }
    }
  }

  /** From the bytes alone: with reads below the capture limit, frames that leave room for one read and no length
      that makes a parser panic, the requests seen are exactly the reference. */
  lemma {:induction false} WholeRequestStream<D>(c: Codec<D>, events: seq<Event>, size: nat)
    requires SmallReads(events) && SmallFrames(RequestBytes(events), size)
    requires FRAME_HEADER_LEN <= size <= MAX_DIR_BUFFER - MAX_CAPTURED_READ
    requires Harmless(RequestBytes(events), ResponseBytes(events))
    ensures SnifferSpec.Run(c, events).1 == ReferenceRequests(c, RequestBytes(events))
  {
    NoPanic(c, events);
    RequestStream(c, events);
    SmallReadsNeverStopped(c, events, size);
  }
}
