/** One connection of the sniffer as a pure state machine: protocol detection, the hand-over to HTTP/2 and
    the HTTP/1 drain loops; and what its request stream depends on. */
module SnifferSpec {
  import opened Basics
  import opened Hpack
  import opened Messages
  import opened Http2Spec
  import opened Http2Framing
  import opened Http2
  import opened Http1Spec

  // ---------- protocol detection ----------

  datatype Proto = Unknown | HTTP1 | HTTP2

  /** "PRI * HTTP/2.0", two line ends, "SM", two line ends (section 3.4 of RFC 9113). */
  function Preface(): (b: Bytes)
    ensures |b| == 24
  {
    [80, 82, 73, 32, 42, 32, 72, 84, 84, 80, 47, 50, 46, 48, 13, 10, 13, 10, 83, 77, 13, 10, 13, 10]
  }

  function DetectProto(b: Bytes): Proto {
    if |b| >= |Preface()| then (if Preface() <= b then HTTP2 else HTTP1)
    else if b <= Preface() then Unknown
    else HTTP1
  }

  lemma PrefaceText()
    ensures Text(Preface()) == "PRI * HTTP/2.0\r\n\r\nSM\r\n\r\n"
  {
  }

  /** A verdict does not change when more bytes arrive; HTTP/2 is only ever decided with the whole preface
      in hand. */
  lemma VerdictStable(b: Bytes, more: Bytes)
    ensures DetectProto(b) != Unknown ==> DetectProto(b + more) == DetectProto(b)
    ensures DetectProto(b) == HTTP2 <==> Preface() <= b
    ensures DetectProto(b) == Unknown <==> b < Preface()
  {
    hide Preface;
    assert (b + more)[..|b|] == b;
    if |b| >= |Preface()| {
      assert (b + more)[..|Preface()|] == b[..|Preface()|];
    }
  }

  // ---------- the connection ----------

  const MAX_CAPTURED_READ := 8191

  datatype Event = Event(isReq: bool, data: Bytes)

  datatype SeenRequest = Plain(request: HTTPRequest) | Multiplexed(completed: CompletedRequest)

  datatype SeenResponse = PlainResponse(response: HTTPResponse) | MultiplexedResponse(answered: CompletedResponse)

  /** `crashed`: a parser panicked, which ends the process. */
  datatype Conn<D> = Conn(requestBuffer: Bytes, responseBuffer: Bytes, proto: Proto,
                          h2req: Feeder<D>, h2resp: Feeder<D>, crashed: bool)

  function NewConn<D>(c: Codec<D>): Conn<D> {
    Conn([], [], Unknown, NewFeeder(c), NewFeeder(c), false)
  }

  datatype Seen = Seen(requests: seq<SeenRequest>, responses: seq<SeenResponse>)

  function PlainAll(reqs: seq<HTTPRequest>): seq<SeenRequest> {
    seq(|reqs|, k requires 0 <= k < |reqs| => Plain(reqs[k]))
  }

  function PlainResponses(resps: seq<HTTPResponse>): seq<SeenResponse> {
    seq(|resps|, k requires 0 <= k < |resps| => PlainResponse(resps[k]))
  }

  function MultiplexedAll(done: seq<Finished>): seq<SeenRequest> {
    seq(|done|, k requires 0 <= k < |done| => Multiplexed(BuiltRequest(done[k])))
  }

  function MultiplexedResponses(done: seq<Finished>): seq<SeenResponse> {
    seq(|done|, k requires 0 <= k < |done| => MultiplexedResponse(BuiltResponse(done[k])))
  }

  /** An event on a connection already known to speak HTTP/2. */
  function OnHttp2<D>(c: Codec<D>, conn: Conn<D>, e: Event): (Conn<D>, Seen) {
    var truncated := |e.data| == MAX_CAPTURED_READ;
    if e.isReq then
      var fed := Fed(c, conn.h2req, e.data, truncated);
      (conn.(h2req := Cleared(fed)), Seen(MultiplexedAll(fed.dir.tab.done), []))
    else
      var fed := Fed(c, conn.h2resp, e.data, truncated);
      (conn.(h2resp := Cleared(fed)), Seen([], MultiplexedResponses(fed.dir.tab.done)))
  }

  /** The switch to HTTP/2: the bytes behind the preface go to the request direction, any early response
      bytes to the other. */
  function HandOver<D>(c: Codec<D>, conn: Conn<D>): (Conn<D>, Seen)
    requires |conn.requestBuffer| >= |Preface()|
  {
    var fed := Fed(c, NewFeeder(c), conn.requestBuffer[|Preface()|..], false);
    var back := if conn.responseBuffer == [] then NewFeeder(c) else Fed(c, NewFeeder(c), conn.responseBuffer, false);
    (Conn([], [], HTTP2, Cleared(fed), Cleared(back), false),
     Seen(MultiplexedAll(fed.dir.tab.done), MultiplexedResponses(back.dir.tab.done)))
  }

  function OnHttp1<D>(conn: Conn<D>, e: Event): (Conn<D>, Seen) {
    if e.isReq then
      var d := RequestsIn(conn.requestBuffer);
      (conn.(requestBuffer := d.rest, crashed := d.crashed), Seen(PlainAll(d.msgs), []))
    else
      var d := ResponsesIn(conn.responseBuffer);
      (conn.(responseBuffer := d.rest, crashed := d.crashed), Seen([], PlainResponses(d.msgs)))
  }

  function Buffered<D>(conn: Conn<D>, e: Event): Conn<D> {
    if e.isReq then conn.(requestBuffer := conn.requestBuffer + e.data)
    else conn.(responseBuffer := conn.responseBuffer + e.data)
  }

  function Step<D>(c: Codec<D>, conn: Conn<D>, e: Event): (Conn<D>, Seen) {
    if conn.crashed then (conn, Seen([], []))
    else if conn.proto == HTTP2 then OnHttp2(c, conn, e)
    else
      var conn' := Buffered(conn, e);
      if conn.proto == HTTP1 then OnHttp1(conn', e)
      else
        match DetectProto(conn'.requestBuffer)
        case HTTP2 => HandOver(c, conn')
        case HTTP1 => OnHttp1(conn'.(proto := HTTP1), e)
        case Unknown => (conn', Seen([], []))
  }

  /** An event reports messages of its own direction only, but for the switch to HTTP/2, which also reports what arrived
      early; and an event of the other direction leaves a direction's bytes and state alone. */
  lemma OwnDirection<D>(c: Codec<D>, conn: Conn<D>, e: Event)
    requires conn.proto != Unknown || DetectProto(Buffered(conn, e).requestBuffer) != HTTP2
    ensures var (conn', seen) := Step(c, conn, e);
            if e.isReq then
              seen.responses == [] && conn'.responseBuffer == conn.responseBuffer && conn'.h2resp == conn.h2resp
            else
              seen.requests == [] && conn'.requestBuffer == conn.requestBuffer && conn'.h2req == conn.h2req
  {
    hide RequestsIn, ResponsesIn, Fed, Preface, DetectProto;
  }

  /** A connection after `events`, and all requests seen on the way. */
  function Run<D>(c: Codec<D>, events: seq<Event>): (Conn<D>, seq<SeenRequest>) {
    if events == [] then (NewConn(c), [])
    else
      var (conn, seen) := Run(c, events[..|events| - 1]);
      var (conn', more) := Step(c, conn, events[|events| - 1]);
      (conn', seen + more.requests)
  }

  /** The request-direction bytes of the events. */
  function RequestBytes(events: seq<Event>): Bytes {
    if events == [] then []
    else RequestBytes(events[..|events| - 1]) + if events[|events| - 1].isReq then events[|events| - 1].data else []
  }

  /** The reference: decide the protocol on all request bytes at once, and read all requests at once. */
  function ReferenceRequests<D>(c: Codec<D>, bytes: Bytes): seq<SeenRequest> {
    match DetectProto(bytes)
    case Unknown => []
    case HTTP1 => PlainAll(RequestsIn(bytes).msgs)
    case HTTP2 => VerdictStable(bytes, []); MultiplexedAll(Reference(c, bytes[|Preface()|..]).dir.tab.done)
  }

  // ---------- feeding with completions taken out ----------

  lemma {:induction false} DrainBehind<D>(c: Codec<D>, queue: seq<Finished>, h: Feeder<D>)
    ensures Drain(c, h.(dir := Behind(queue, h.dir))) == Drain(c, h).(dir := Behind(queue, Drain(c, h).dir))
    decreases |h.buf|
  {
    hide HandleFrame;
    if !h.dir.Poisoned() && HasFrame(h.buf) {
      var f := FirstFrame(h.buf);
      HandleBehind(c, queue, h.dir, f);
      var dir := HandleFrame(c, h.dir, f);
      if !dir.Poisoned() {
        DrainBehind(c, queue, Feeder(dir, h.buf[Announced(h.buf)..]));
      }
    }
  }

  predicate Stopped<D>(h: Feeder<D>) {
    h.dir.reason == DirectionOverflow || h.dir.reason == CaptureGap
  }

  /** A read without a gap that fits the buffer is handled as by the reference. */
  lemma FedFits<D>(c: Codec<D>, bytes: Bytes, piece: Bytes)
    requires !Trips(Reference(c, bytes), piece)
    ensures var fed := Feed(c, Cleared(Reference(c, bytes)), piece);
            var queue := Reference(c, bytes).dir.tab.done;
            Cleared(fed) == Cleared(Reference(c, bytes + piece))
            && queue + fed.dir.tab.done == Reference(c, bytes + piece).dir.tab.done
  {
    FeedContinues(c, bytes, piece);
    hide Reference, Drain;
    var r := Reference(c, bytes);
    var h, queue := Cleared(r), r.dir.tab.done;
    assert r == h.(dir := Behind(queue, h.dir));
    if !r.dir.Poisoned() {
      DrainBehind(c, queue, h.(buf := h.buf + piece));
    }
  }

  /** One read fed to a direction that follows the reference: it follows on, or is stopped by overflow or
      a capture gap without completing anything. */
  lemma {:induction false} FedFollows<D>(c: Codec<D>, bytes: Bytes, piece: Bytes, truncated: bool)
    ensures var fed := Fed(c, Cleared(Reference(c, bytes)), piece, truncated);
            var queue := Reference(c, bytes).dir.tab.done;
            if Stopped(fed) then (truncated || Trips(Reference(c, bytes), piece)) && fed.dir.tab.done == []
            else
              && Cleared(fed) == Cleared(Reference(c, bytes + piece))
              && queue + fed.dir.tab.done == Reference(c, bytes + piece).dir.tab.done
  {
    RunNeverOverflows(c, Fresh(c), Frames(bytes));
    RunNeverOverflows(c, Fresh(c), Frames(bytes + piece));
    var r := Reference(c, bytes);
    assert !Stopped(r) && !Stopped(Reference(c, bytes + piece));
    hide Reference, Drain;
    if !Trips(r, piece) {
      FedFits(c, bytes, piece);
    }
  }

  lemma StoppedStays<D>(c: Codec<D>, h: Feeder<D>, piece: Bytes, truncated: bool)
    requires Stopped(h) && h.dir.tab.done == []
    ensures Fed(c, h, piece, truncated) == h
  {
  }

  // ---------- the request stream of a connection ----------

  lemma PlainConcat(a: seq<HTTPRequest>, b: seq<HTTPRequest>)
    ensures PlainAll(a + b) == PlainAll(a) + PlainAll(b)
  {
  }

  lemma MultiplexedConcat(a: seq<Finished>, b: seq<Finished>)
    ensures MultiplexedAll(a + b) == MultiplexedAll(a) + MultiplexedAll(b)
  {
  }

  lemma MultiplexedPrefix(a: seq<Finished>, b: seq<Finished>)
    requires a <= b
    ensures MultiplexedAll(a) <= MultiplexedAll(b)
  {
    MultiplexedConcat(a, b[|a|..]);
    assert a + b[|a|..] == b;
  }

  /** More bytes only add requests. */
  lemma ReferenceRequestsGrow<D>(c: Codec<D>, a: Bytes, b: Bytes)
    ensures ReferenceRequests(c, a) <= ReferenceRequests(c, a + b)
  {
    hide Preface;
    VerdictStable(a, b);
    hide RequestsIn, Reference;
    match DetectProto(a)
    case Unknown =>
    case HTTP1 =>
      RequestsConcat(a, b);
      var d := RequestsIn(a);
      if !d.crashed {
        PlainConcat(d.msgs, RequestsIn(d.rest + b).msgs);
      }
    case HTTP2 =>
      var n := |Preface()|;
      assert (a + b)[n..] == a[n..] + b;
      ReferenceGrows(c, a[n..], b);
      MultiplexedPrefix(Reference(c, a[n..]).dir.tab.done, Reference(c, a[n..] + b).dir.tab.done);
  }

  /** What holds between the state of a connection, the requests seen so far, and the request bytes. */
  ghost predicate Follows<D>(c: Codec<D>, conn: Conn<D>, seen: seq<SeenRequest>, bytes: Bytes) {
    && seen <= ReferenceRequests(c, bytes)
    && (!conn.crashed ==>
          match conn.proto
          case Unknown => DetectProto(bytes) == Unknown && conn.requestBuffer == bytes && seen == []
          case HTTP1 =>
            var d := RequestsIn(bytes);
            DetectProto(bytes) == HTTP1 && !d.crashed && conn.requestBuffer == d.rest && seen == PlainAll(d.msgs)
          case HTTP2 => Preface() <= bytes && Tracks(c, conn.h2req, seen, bytes[|Preface()|..]))
  }

  /** The HTTP/2 request direction is where the reference is, or was stopped before. */
  ghost predicate Tracks<D>(c: Codec<D>, h: Feeder<D>, seen: seq<SeenRequest>, bytes: Bytes) {
    && h.dir.tab.done == []
    && (Stopped(h) || (h == Cleared(Reference(c, bytes)) && seen == MultiplexedAll(Reference(c, bytes).dir.tab.done)))
  }

  lemma TracksOn<D>(c: Codec<D>, h: Feeder<D>, seen: seq<SeenRequest>, bytes: Bytes, piece: Bytes, truncated: bool)
    requires Tracks(c, h, seen, bytes)
    ensures var fed := Fed(c, h, piece, truncated);
            var seen' := seen + MultiplexedAll(fed.dir.tab.done);
            && Tracks(c, Cleared(fed), seen', bytes + piece)
            && (seen' == seen || seen' == MultiplexedAll(Reference(c, bytes + piece).dir.tab.done))
  {
    hide Reference, Fed;
    var fed := Fed(c, h, piece, truncated);
    if Stopped(h) {
      StoppedStays(c, h, piece, truncated);
      assert seen + MultiplexedAll([]) == seen;
    } else {
      var queue := Reference(c, bytes).dir.tab.done;
      FedFollows(c, bytes, piece, truncated);
      MultiplexedConcat(queue, fed.dir.tab.done);
    }
  }

  lemma NothingYet<D>(c: Codec<D>)
    ensures Tracks(c, NewFeeder(c), [], [])
  {
    assert Frames([]) == [];
  }

  lemma Http2Follows<D>(c: Codec<D>, conn: Conn<D>, seen: seq<SeenRequest>, bytes: Bytes, e: Event)
    requires Follows(c, conn, seen, bytes) && !conn.crashed && conn.proto == HTTP2
    ensures var (conn', more) := OnHttp2(c, conn, e);
            Follows(c, conn', seen + more.requests, if e.isReq then bytes + e.data else bytes)
  {
    hide Preface;
    hide ReferenceRequests, Tracks, Fed;
    if e.isReq {
      var n := |Preface()|;
      TracksOn(c, conn.h2req, seen, bytes[n..], e.data, |e.data| == MAX_CAPTURED_READ);
      ReferenceRequestsGrow(c, bytes, e.data);
      Http2Reference(c, bytes + e.data);
      assert (bytes + e.data)[n..] == bytes[n..] + e.data;
    } else {
      assert seen + [] == seen;
    }
  }

  lemma Http2Reference<D>(c: Codec<D>, bytes: Bytes)
    requires Preface() <= bytes
    ensures ReferenceRequests(c, bytes) == MultiplexedAll(Reference(c, bytes[|Preface()|..]).dir.tab.done)
  {
    hide Preface;
    VerdictStable(bytes, []);
  }

  lemma TracksFromStart<D>(c: Codec<D>, bytes: Bytes)
    ensures var fed := Fed(c, NewFeeder(c), bytes, false);
            var seen := MultiplexedAll(fed.dir.tab.done);
            && Tracks(c, Cleared(fed), seen, bytes)
            && seen <= MultiplexedAll(Reference(c, bytes).dir.tab.done)
  {
    NothingYet(c);
    hide Tracks, Fed, Reference, NewFeeder;
    TracksOn(c, NewFeeder(c), [], [], bytes, false);
    var seen := MultiplexedAll(Fed(c, NewFeeder(c), bytes, false).dir.tab.done);
    assert [] + bytes == bytes && [] + seen == seen;
  }

  lemma HandOverFollows<D>(c: Codec<D>, conn: Conn<D>)
    requires Preface() <= conn.requestBuffer
    ensures var (conn', more) := HandOver(c, conn);
            Follows(c, conn', more.requests, conn.requestBuffer)
  {
    hide Preface, ReferenceRequests, Tracks, Fed, Reference;
    TracksFromStart(c, conn.requestBuffer[|Preface()|..]);
    Http2Reference(c, conn.requestBuffer);
  }

  lemma Http1Follows<D>(c: Codec<D>, conn: Conn<D>, seen: seq<SeenRequest>, before: Bytes, e: Event)
    requires !conn.crashed && conn.proto == HTTP1
    requires var bytes := before + if e.isReq then e.data else [];
             DetectProto(bytes) == HTTP1
    requires var d := RequestsIn(before);
             && !d.crashed && seen == PlainAll(d.msgs)
             && conn.requestBuffer == d.rest + if e.isReq then e.data else []
    ensures var (conn', more) := OnHttp1(conn, e);
            Follows(c, conn', seen + more.requests, before + if e.isReq then e.data else [])
  {
    hide Preface;
    hide RequestsIn, ResponsesIn, DetectProto;
    var d := RequestsIn(before);
    if e.isReq {
      RequestsConcat(before, e.data);
      PlainConcat(d.msgs, RequestsIn(d.rest + e.data).msgs);
    } else {
      assert before + [] == before && d.rest + [] == d.rest && seen + [] == seen;
    }
  }

  /** The verdict HTTP/1 is reached with every request byte still in the buffer. */
  lemma Http1Starts<D>(c: Codec<D>, conn: Conn<D>, e: Event)
    requires !conn.crashed && conn.proto == HTTP1 && e.isReq && DetectProto(conn.requestBuffer) == HTTP1
    ensures var (conn', more) := OnHttp1(conn, e);
            Follows(c, conn', [] + more.requests, conn.requestBuffer)
  {
    hide RequestsIn, DetectProto;
    var d := RequestsIn(conn.requestBuffer);
    assert [] + PlainAll(d.msgs) == PlainAll(d.msgs);
  }

  /** While the protocol is undecided. */
  lemma UndecidedFollows<D>(c: Codec<D>, conn: Conn<D>, seen: seq<SeenRequest>, bytes: Bytes, e: Event)
    requires Follows(c, conn, seen, bytes) && !conn.crashed && conn.proto == Unknown
    ensures var (conn', more) := Step(c, conn, e);
            Follows(c, conn', seen + more.requests, bytes + if e.isReq then e.data else [])
  {
    hide Preface;
    var conn' := Buffered(conn, e);
    var bytes' := bytes + if e.isReq then e.data else [];
    assert conn'.requestBuffer == bytes';
    VerdictStable(bytes', []);
    hide HandOver, OnHttp1, RequestsIn, Reference;
    match DetectProto(bytes')
    case Unknown => assert seen + [] == [];
    case HTTP1 =>
      Http1Starts(c, conn'.(proto := HTTP1), e);
    case HTTP2 =>
      HandOverFollows(c, conn');
      assert [] + HandOver(c, conn').1.requests == HandOver(c, conn').1.requests;
  }

  lemma StepFollows<D>(c: Codec<D>, conn: Conn<D>, seen: seq<SeenRequest>, bytes: Bytes, e: Event)
    requires Follows(c, conn, seen, bytes)
    ensures var (conn', more) := Step(c, conn, e);
            Follows(c, conn', seen + more.requests, bytes + if e.isReq then e.data else [])
  {
    hide Preface;
    hide HandOver, OnHttp1, OnHttp2, RequestsIn, Reference, Tracks, ReferenceRequests;
    var added := if e.isReq then e.data else [];
    assert bytes + [] == bytes && seen + [] == seen;
    ReferenceRequestsGrow(c, bytes, added);
    if conn.crashed {
    } else if conn.proto == HTTP2 {
      Http2Follows(c, conn, seen, bytes, e);
    } else if conn.proto == Unknown {
      UndecidedFollows(c, conn, seen, bytes, e);
    } else {
      VerdictStable(bytes, added);
      Http1Follows(c, Buffered(conn, e), seen, bytes, e);
    }
  }

  lemma {:induction false} RunFollows<D>(c: Codec<D>, events: seq<Event>)
    ensures var (conn, seen) := Run(c, events);
            Follows(c, conn, seen, RequestBytes(events))
  {
    hide Follows, Step;
    if events == [] {
      StartFollows(c);
    } else {
      var init := events[..|events| - 1];
      RunFollows(c, init);
      var (conn, seen) := Run(c, init);
      StepFollows(c, conn, seen, RequestBytes(init), events[|events| - 1]);
    }
  }

  lemma StartFollows<D>(c: Codec<D>)
    ensures Follows(c, NewConn(c), [], [])
  {
    VerdictStable([], []);
  }

  /** Was this connection stopped short by a panic, an overflow or a capture gap? */
  predicate CutShort<D>(conn: Conn<D>) {
    conn.crashed || (conn.proto == HTTP2 && Stopped(conn.h2req))
  }

  /** The requests seen on a connection depend on its request-direction bytes alone: whatever the read
      boundaries and however response events interleave, they are a prefix of the reference, and all of
      it unless the connection was cut short. */
  lemma {:induction false} RequestStream<D>(c: Codec<D>, events: seq<Event>)
    ensures var (conn, seen) := Run(c, events);
            && seen <= ReferenceRequests(c, RequestBytes(events))
            && (!CutShort(conn) ==> seen == ReferenceRequests(c, RequestBytes(events)))
  {
    hide Preface;
    hide Run;
    RunFollows(c, events);
    var bytes := RequestBytes(events);
    if Preface() <= bytes {
      Http2Reference(c, bytes);
    }
  }

  /** Hence two runs over the same request bytes, neither cut short, saw the same requests. */
  lemma {:induction false} RequestStreamsAgree<D>(c: Codec<D>, a: seq<Event>, b: seq<Event>)
    requires RequestBytes(a) == RequestBytes(b)
    requires !CutShort(Run(c, a).0) && !CutShort(Run(c, b).0)
    ensures Run(c, a).1 == Run(c, b).1
  {
    RequestStream(c, a);
    RequestStream(c, b);
  }

  // ---------- when nothing cuts a connection short ----------

  /** A read shorter than the capture limit that continues small frames is never refused. */
  lemma SmallReadFollows<D>(c: Codec<D>, bytes: Bytes, piece: Bytes, size: nat)
    requires |piece| < MAX_CAPTURED_READ && FRAME_HEADER_LEN <= size <= MAX_DIR_BUFFER - MAX_CAPTURED_READ
    requires FramesWithin(bytes + piece, size)
    ensures !Stopped(Fed(c, Cleared(Reference(c, bytes)), piece, false))
  {
    RestWithin(bytes, piece, size);
    assert !Trips(Reference(c, bytes), piece);
    FedFollows(c, bytes, piece, false);
  }

  predicate SmallReads(events: seq<Event>) {
    forall k :: 0 <= k < |events| ==> |events[k].data| < MAX_CAPTURED_READ
  }

  /** The HTTP/2 frames of the request bytes, if they are HTTP/2, are at most `size` bytes long. */
  predicate SmallFrames(bytes: Bytes, size: nat) {
    Preface() <= bytes ==> FramesWithin(bytes[|Preface()|..], size)
  }

  lemma SmallStep<D>(c: Codec<D>, conn: Conn<D>, seen: seq<SeenRequest>, bytes: Bytes, e: Event, size: nat)
    requires Follows(c, conn, seen, bytes) && !Stopped(conn.h2req)
    requires |e.data| < MAX_CAPTURED_READ && FRAME_HEADER_LEN <= size <= MAX_DIR_BUFFER - MAX_CAPTURED_READ
    requires SmallFrames(bytes + if e.isReq then e.data else [], size)
    ensures !Stopped(Step(c, conn, e).0.h2req)
  {
    hide Preface;
    hide RequestsIn, ResponsesIn, Reference, Fed, ReferenceRequests, FramesWithin;
    var n := |Preface()|;
    var bytes' := bytes + if e.isReq then e.data else [];
    VerdictStable(bytes', []);
    if !conn.crashed && e.isReq && conn.proto == HTTP2 {
      assert bytes'[..n] == bytes[..n] && bytes'[n..] == bytes[n..] + e.data;
      SmallReadFollows(c, bytes[n..], e.data, size);
    } else if !conn.crashed && conn.proto == Unknown && Preface() <= bytes' {
      VerdictStable(bytes, []);
      NothingYet(c);
      var first := bytes'[n..];
      assert [] + first == first && |first| <= |e.data|;
      SmallReadFollows(c, [], first, size);
      FreshIsReference(c);
    }
  }

  lemma FreshIsReference<D>(c: Codec<D>)
    ensures NewFeeder(c) == Cleared(Reference(c, []))
  {
    assert Frames([]) == [];
  }

  lemma {:induction false} SmallReadsNeverStopped<D>(c: Codec<D>, events: seq<Event>, size: nat)
    requires SmallReads(events) && SmallFrames(RequestBytes(events), size)
    requires FRAME_HEADER_LEN <= size <= MAX_DIR_BUFFER - MAX_CAPTURED_READ
    ensures !Stopped(Run(c, events).0.h2req)
  {
    hide Preface;
    hide Step, Follows;
    if events != [] {
      var init, e := events[..|events| - 1], events[|events| - 1];
      var bytes, added := RequestBytes(init), if e.isReq then e.data else [];
      if Preface() <= bytes {
        var n := |Preface()|;
        assert (bytes + added)[n..] == bytes[n..] + added && Preface() <= bytes + added;
        RestWithin(bytes[n..], added, size);
      }
      SmallReadsNeverStopped(c, init, size);
      RunFollows(c, init);
      var (conn, seen) := Run(c, init);
      SmallStep(c, conn, seen, bytes, e, size);
    }
  }

  // ---------- all connections ----------

  /** A ring-buffer record: a read on the connection `ptr`, or its close. */
  datatype Record = Read(ptr: nat, event: Event) | Close(ptr: nat)

  /** `seen`: the requests each open connection has emitted. */
  datatype World<D> = World(conns: map<nat, Conn<D>>, seen: map<nat, seq<SeenRequest>>, crashed: bool)

  function ConnOf<D>(c: Codec<D>, w: World<D>, ptr: nat): Conn<D> {
    if ptr in w.conns then w.conns[ptr] else NewConn(c)
  }

  function SeenOn<D>(w: World<D>, ptr: nat): seq<SeenRequest> {
    if ptr in w.seen then w.seen[ptr] else []
  }

  /** One turn of the event loop; a crash ends it. */
  function WorldStep<D>(c: Codec<D>, w: World<D>, r: Record): World<D> {
    if w.crashed then w
    else
      match r
      case Close(ptr) => w.(conns := w.conns - {ptr}, seen := w.seen - {ptr})
      case Read(ptr, event) =>
        var (conn, more) := Step(c, ConnOf(c, w, ptr), event);
        World(w.conns[ptr := conn], w.seen[ptr := SeenOn(w, ptr) + more.requests], conn.crashed)
  }

  function RunWorld<D>(c: Codec<D>, records: seq<Record>): World<D> {
    if records == [] then World(map[], map[], false)
    else WorldStep(c, RunWorld(c, records[..|records| - 1]), records[|records| - 1])
  }

  /** What one record lets the loop see. */
  function SeenAt<D>(c: Codec<D>, w: World<D>, r: Record): Seen {
    if r.Close? then Seen([], []) else Step(c, ConnOf(c, w, r.ptr), r.event).1
  }

  /** `out` is what the loop saw at the first |out| of `records`, having handled `past`. */
  ghost predicate SeenAll<D>(c: Codec<D>, past: seq<Record>, records: seq<Record>, out: seq<Seen>) {
    && |out| <= |records|
    && forall k :: 0 <= k < |out| ==> out[k] == SeenAt(c, RunWorld(c, past + records[..k]), records[k])
  }

  lemma NothingSeen<D>(c: Codec<D>, past: seq<Record>, records: seq<Record>)
    ensures SeenAll(c, past, records, [])
  {
  }

  lemma SeenCons<D>(c: Codec<D>, past: seq<Record>, r: Record, rest: seq<Record>, seen: Seen, later: seq<Seen>)
    requires seen == SeenAt(c, RunWorld(c, past), r) && SeenAll(c, past + [r], rest, later)
    ensures SeenAll(c, past, [r] + rest, [seen] + later)
  {
    hide SeenAt, RunWorld;
    var records, out := [r] + rest, [seen] + later;
    assert past + records[..0] == past;
    forall k | 0 < k < |out| ensures out[k] == SeenAt(c, RunWorld(c, past + records[..k]), records[k]) {
      assert past + records[..k] == (past + [r]) + rest[..k - 1];
    }
  }

  lemma WorldSnoc<D>(c: Codec<D>, records: seq<Record>, r: Record)
    ensures RunWorld(c, records + [r]) == WorldStep(c, RunWorld(c, records), r)
  {
    assert (records + [r])[..|records|] == records;
  }

  lemma {:induction false} CrashedStays<D>(c: Codec<D>, records: seq<Record>, more: seq<Record>)
    requires RunWorld(c, records).crashed
    ensures RunWorld(c, records + more) == RunWorld(c, records)
  {
    if more == [] {
      assert records + more == records;
    } else {
      var init, last := more[..|more| - 1], more[|more| - 1];
      CrashedStays(c, records, init);
      assert records + more == (records + init) + [last];
      WorldSnoc(c, records + init, last);
    }
  }

  /** The events of `ptr` since it was last closed. */
  function CurrentEvents(records: seq<Record>, ptr: nat): seq<Event> {
    if records == [] then []
    else
      var init, last := CurrentEvents(records[..|records| - 1], ptr), records[|records| - 1];
      if last.ptr != ptr then init else if last.Close? then [] else init + [last.event]
  }

  /** Connections do not interfere: each is in the state its own events since its last close put it in, and has
      emitted what they emit. */
  lemma {:induction false} ConnectionsIndependent<D>(c: Codec<D>, records: seq<Record>, ptr: nat)
    requires !RunWorld(c, records).crashed
    ensures var w := RunWorld(c, records);
            && (ptr in w.conns <==> CurrentEvents(records, ptr) != [])
            && (ConnOf(c, w, ptr), SeenOn(w, ptr)) == Run(c, CurrentEvents(records, ptr))
  {
    hide Step;
    if records != [] {
      var init, last := records[..|records| - 1], records[|records| - 1];
      ConnectionsIndependent(c, init, ptr);
      if last.ptr == ptr && last.Read? {
        var es := CurrentEvents(init, ptr);
        assert (es + [last.event])[..|es|] == es;
      }
    }
  }

  /** The requests emitted for one of many interleaved connections depend on that connection's own
      request-direction bytes alone. */
  lemma StreamOfConnection<D>(c: Codec<D>, records: seq<Record>, ptr: nat)
    requires !RunWorld(c, records).crashed
    ensures var w := RunWorld(c, records);
            var expected := ReferenceRequests(c, RequestBytes(CurrentEvents(records, ptr)));
            && SeenOn(w, ptr) <= expected
            && (!CutShort(ConnOf(c, w, ptr)) ==> SeenOn(w, ptr) == expected)
  {
    ConnectionsIndependent(c, records, ptr);
    RequestStream(c, CurrentEvents(records, ptr));
  }
}
