/** What one HTTP/2 stream contributes to the messages seen on its connection. */
module SnifferStreams {
  import opened Basics
  import opened Hpack
  import opened Http2Spec
  import opened Http2Framing
  import opened Http2Grammar
  import opened Http2Lifetimes
  import opened Http2
  import opened SnifferSpec
  import opened SnifferResponses

  /** The requests seen for stream `sid`, in order. */
  function RequestsFor(seen: seq<SeenRequest>, sid: nat): seq<SeenRequest> {
    if seen == [] then []
    else
      var last := seen[|seen| - 1];
      RequestsFor(seen[..|seen| - 1], sid) + if last.Multiplexed? && last.completed.streamID == sid then [last] else []
  }

  /** The responses seen for stream `sid`, in order. */
  function ResponsesFor(seen: seq<SeenResponse>, sid: nat): seq<SeenResponse> {
    if seen == [] then []
    else
      var last := seen[|seen| - 1];
      ResponsesFor(seen[..|seen| - 1], sid) +
      if last.MultiplexedResponse? && last.answered.streamID == sid then [last] else []
  }

  /** The lives of stream `sid` as requests. */
  function RequestsOfLives(sid: nat, lives: seq<Stream>): seq<SeenRequest> {
    seq(|lives|, k requires 0 <= k < |lives| => Multiplexed(BuiltRequest(Finished(sid, lives[k]))))
  }

  /** The lives of stream `sid` as responses. */
  function ResponsesOfLives(sid: nat, lives: seq<Stream>): seq<SeenResponse> {
    seq(|lives|, k requires 0 <= k < |lives| => MultiplexedResponse(BuiltResponse(Finished(sid, lives[k]))))
  }

  lemma LivesSnoc(sid: nat, lives: seq<Stream>, life: Stream)
    ensures RequestsOfLives(sid, lives + [life]) ==
            RequestsOfLives(sid, lives) + [Multiplexed(BuiltRequest(Finished(sid, life)))]
    ensures ResponsesOfLives(sid, lives + [life]) ==
            ResponsesOfLives(sid, lives) + [MultiplexedResponse(BuiltResponse(Finished(sid, life)))]
  {
  }

  lemma SeenSnoc(done: seq<Finished>, f: Finished)
    ensures MultiplexedAll(done + [f]) == MultiplexedAll(done) + [Multiplexed(BuiltRequest(f))]
    ensures MultiplexedResponses(done + [f]) == MultiplexedResponses(done) + [MultiplexedResponse(BuiltResponse(f))]
  {
  }

  /** The messages of a queue that belong to one stream are those of the stream's completions. */
  lemma {:induction false} QueueOfStream(done: seq<Finished>, sid: nat)
    ensures RequestsFor(MultiplexedAll(done), sid) == RequestsOfLives(sid, DoneOf(done, sid))
    ensures ResponsesFor(MultiplexedResponses(done), sid) == ResponsesOfLives(sid, DoneOf(done, sid))
  {
    hide MultiplexedAll, MultiplexedResponses, RequestsOfLives, ResponsesOfLives;
    NothingSeenFor(sid);
    if done != [] {
      var init, last := done[..|done| - 1], done[|done| - 1];
      QueueOfStream(init, sid);
      assert done == init + [last];
      SeenSnoc(init, last);
      var request, response := Multiplexed(BuiltRequest(last)), MultiplexedResponse(BuiltResponse(last));
      assert (MultiplexedAll(init) + [request])[..|MultiplexedAll(init)|] == MultiplexedAll(init);
      assert (MultiplexedResponses(init) + [response])[..|MultiplexedResponses(init)|] == MultiplexedResponses(init);
      if last.streamID == sid {
        LivesSnoc(sid, DoneOf(init, sid), last.st);
        assert Finished(sid, last.st) == last;
      } else {
        assert DoneOf(done, sid) == DoneOf(init, sid);
        assert RequestsFor(MultiplexedAll(done), sid) == RequestsFor(MultiplexedAll(init), sid);
        assert ResponsesFor(MultiplexedResponses(done), sid) == ResponsesFor(MultiplexedResponses(init), sid);
      }
    }
  }

  lemma NothingSeenFor(sid: nat)
    ensures MultiplexedAll([]) == [] && MultiplexedResponses([]) == []
    ensures RequestsOfLives(sid, []) == [] && ResponsesOfLives(sid, []) == []
  {
  }

  lemma {:induction false} RequestsForPrefix(a: seq<SeenRequest>, b: seq<SeenRequest>, sid: nat)
    requires a <= b
    ensures RequestsFor(a, sid) <= RequestsFor(b, sid)
  {
    if |a| < |b| {
      RequestsForPrefix(a, b[..|b| - 1], sid);
    } else {
      assert a == b;
    }
  }

  lemma {:induction false} ResponsesForPrefix(a: seq<SeenResponse>, b: seq<SeenResponse>, sid: nat)
    requires a <= b
    ensures ResponsesFor(a, sid) <= ResponsesFor(b, sid)
  {
    if |a| < |b| {
      ResponsesForPrefix(a, b[..|b| - 1], sid);
    } else {
      assert a == b;
    }
  }

  /** The requests seen for one stream of an HTTP/2 connection. Its request bytes hold whole units and the start of a
      block, up to the frame that poisons, if one does; the requests seen for the stream are those of the lives that
      reached it, a prefix of them if the connection was cut short. With room in the table the lives are a function of
      the stream's own events: no cut of the bytes and no other stream matters. */
  lemma {:induction false} RequestsOfStream<D>(c: Codec<D>, events: seq<SnifferSpec.Event>, sid: nat)
    returns (n: nat, us: seq<Unit>, partial: seq<Frame>)
    requires Preface() <= RequestBytes(events)
    ensures var fs := Frames(RequestBytes(events)[|Preface()|..]);
            && n <= |fs| && Accepts(c, us, partial, fs[..n])
            && (n < |fs| ==> Http2Spec.Run(c, Fresh(c), fs[..n + 1]).Poisoned())
    ensures var (conn, seen) := SnifferSpec.Run(c, events);
            var es := Events(c, us);
            var expected := RequestsOfLives(sid, Completed(Reaching(es, sid)));
            && RequestsFor(seen, sid) <= expected
            && (!CutShort(conn) ==> RequestsFor(seen, sid) == expected)
            && (Roomy(es) ==> expected == RequestsOfLives(sid, Completed(Own(es, sid))))
  {
    hide Preface, SnifferSpec.Run, Http2Spec.Run, CutShort, Accepts, RequestsOfLives, Reaching, Roomy, Own, Completed;
    hide RequestsFor, MultiplexedAll, ReferenceRequests, Frames, Events, DoneOf;
    var bytes := RequestBytes(events)[|Preface()|..];
    RequestStream(c, events);
    Http2Reference(c, RequestBytes(events));
    n, us, partial := MessagesOfRun(c, Frames(bytes), sid);
    QueueOfStream(Reference(c, bytes).dir.tab.done, sid);
    RequestsForPrefix(SnifferSpec.Run(c, events).1, ReferenceRequests(c, RequestBytes(events)), sid);
  }

  /** The same for the responses, over the response bytes. */
  lemma {:induction false} ResponsesOfStream<D>(c: Codec<D>, events: seq<SnifferSpec.Event>, sid: nat)
    returns (n: nat, us: seq<Unit>, partial: seq<Frame>)
    requires SnifferSpec.Run(c, events).0.proto == HTTP2 && !SnifferSpec.Run(c, events).0.crashed
    ensures var fs := Frames(ResponseBytes(events));
            && n <= |fs| && Accepts(c, us, partial, fs[..n])
            && (n < |fs| ==> Http2Spec.Run(c, Fresh(c), fs[..n + 1]).Poisoned())
    ensures var conn, seen := SnifferSpec.Run(c, events).0, Answered(c, events);
            var es := Events(c, us);
            var expected := ResponsesOfLives(sid, Completed(Reaching(es, sid)));
            && ResponsesFor(seen, sid) <= expected
            && (!Stopped(conn.h2resp) ==> ResponsesFor(seen, sid) == expected)
            && (Roomy(es) ==> expected == ResponsesOfLives(sid, Completed(Own(es, sid))))
  {
    hide SnifferSpec.Run, Http2Spec.Run, Answered, Accepts, ResponsesOfLives, Reaching, Roomy, Own, Completed;
    hide ResponsesFor, MultiplexedResponses, Frames, Events, DoneOf;
    var bytes := ResponseBytes(events);
    ResponseStream(c, events);
    n, us, partial := MessagesOfRun(c, Frames(bytes), sid);
    var done := Reference(c, bytes).dir.tab.done;
    QueueOfStream(done, sid);
    ResponsesForPrefix(Answered(c, events), MultiplexedResponses(done), sid);
  }
}
