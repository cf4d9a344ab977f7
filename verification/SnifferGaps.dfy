/** A read of exactly the capture limit on an HTTP/2 connection may have lost bytes: it gives its direction up, for
    good, and nothing else does so for that reason. */
module SnifferGaps {
  import opened Basics
  import opened Hpack
  import opened Http2Spec
  import opened Http2Framing
  import opened Http2
  import opened Http1Spec
  import opened SnifferSpec
  import opened SnifferResponses

  predicate GivenUp<D>(h: Feeder<D>) { h.dir.Poisoned() && h.dir.tab.done == [] }

  lemma GapPoisons<D>(c: Codec<D>, h: Feeder<D>, data: Bytes)
    requires h.dir.tab.done == []
    ensures var fed := Fed(c, h, data, true);
            && GivenUp(fed) && fed.dir.reason == if h.dir.Poisoned() then h.dir.reason else CaptureGap
  {
  }

  lemma GivenUpStays<D>(c: Codec<D>, h: Feeder<D>, data: Bytes, truncated: bool)
    requires GivenUp(h)
    ensures Fed(c, h, data, truncated) == h && Cleared(h) == h
  {
  }

  /** Between any two reads everything completed has been handed out. */
  lemma {:induction false} HandedOut<D>(c: Codec<D>, events: seq<SnifferSpec.Event>)
    ensures var conn := SnifferSpec.Run(c, events).0;
            conn.h2req.dir.tab.done == [] && conn.h2resp.dir.tab.done == []
  {
    hide RequestsIn, ResponsesIn, Fed, Preface, DetectProto;
    if events != [] {
      HandedOut(c, events[..|events| - 1]);
    }
  }

  /** Such a read hands nothing out and gives up its own direction only; the reason is the gap unless there was one
      already. */
  lemma GapStep<D>(c: Codec<D>, conn: Conn<D>, e: SnifferSpec.Event)
    requires conn.proto == HTTP2 && !conn.crashed && |e.data| == 8191
    requires conn.h2req.dir.tab.done == [] && conn.h2resp.dir.tab.done == []
    ensures var (conn', seen) := Step(c, conn, e);
            && seen == Seen([], [])
            && conn' == (if e.isReq then conn.(h2req := conn'.h2req) else conn.(h2resp := conn'.h2resp))
            && var (h, h') := if e.isReq then (conn.h2req, conn'.h2req) else (conn.h2resp, conn'.h2resp);
               GivenUp(h') && h'.dir.reason == if h.dir.Poisoned() then h.dir.reason else CaptureGap
  {
    hide Fed;
    GapPoisons(c, if e.isReq then conn.h2req else conn.h2resp, e.data);
  }

  /** After it the direction reports nothing more, whatever arrives. */
  lemma GivenUpStep<D>(c: Codec<D>, conn: Conn<D>, e: SnifferSpec.Event)
    requires conn.proto == HTTP2 && !conn.crashed
    ensures var (conn', seen) := Step(c, conn, e);
            && conn'.proto == HTTP2 && !conn'.crashed
            && (GivenUp(conn.h2req) ==> conn'.h2req == conn.h2req && seen.requests == [])
            && (GivenUp(conn.h2resp) ==> conn'.h2resp == conn.h2resp && seen.responses == [])
  {
    hide Fed, GivenUp;
    if GivenUp(conn.h2req) {
      GivenUpStays(c, conn.h2req, e.data, |e.data| == MAX_CAPTURED_READ);
      GivenUpIsClear(conn.h2req);
    }
    if GivenUp(conn.h2resp) {
      GivenUpStays(c, conn.h2resp, e.data, |e.data| == MAX_CAPTURED_READ);
      GivenUpIsClear(conn.h2resp);
    }
  }

  lemma GivenUpIsClear<D>(h: Feeder<D>)
    requires GivenUp(h)
    ensures h.dir.tab.done == [] && MultiplexedAll([]) == [] && MultiplexedResponses([]) == []
  {
  }

  lemma RunSnoc<D>(c: Codec<D>, events: seq<SnifferSpec.Event>, e: SnifferSpec.Event)
    ensures var (conn, seen) := SnifferSpec.Run(c, events);
            var (conn', more) := Step(c, conn, e);
            && SnifferSpec.Run(c, events + [e]) == (conn', seen + more.requests)
            && Answered(c, events + [e]) == Answered(c, events) + more.responses
  {
    hide Step;
    assert (events + [e])[..|events|] == events;
  }

  lemma {:induction false} NothingMore<D>(c: Codec<D>, events: seq<SnifferSpec.Event>, later: seq<SnifferSpec.Event>)
    requires SnifferSpec.Run(c, events).0.proto == HTTP2 && !SnifferSpec.Run(c, events).0.crashed
    ensures var conn, conn' := SnifferSpec.Run(c, events).0, SnifferSpec.Run(c, events + later).0;
            && conn'.proto == HTTP2 && !conn'.crashed
            && (GivenUp(conn.h2req) ==>
                  conn'.h2req == conn.h2req && SnifferSpec.Run(c, events + later).1 == SnifferSpec.Run(c, events).1)
            && (GivenUp(conn.h2resp) ==>
                  conn'.h2resp == conn.h2resp && Answered(c, events + later) == Answered(c, events))
  {
    hide SnifferSpec.Run, Answered, Step, GivenUp;
    if later == [] {
      assert events + later == events;
    } else {
      var init, last := later[..|later| - 1], later[|later| - 1];
      NothingMore(c, events, init);
      assert events + later == (events + init) + [last];
      RunSnoc(c, events + init, last);
      GivenUpStep(c, SnifferSpec.Run(c, events + init).0, last);
    }
  }

  /** On a connection known to speak HTTP/2, a read of exactly 8191 bytes ends the reports of its direction: neither it
      nor anything behind it adds a message. */
  lemma GapStops<D>(c: Codec<D>, events: seq<SnifferSpec.Event>, e: SnifferSpec.Event, later: seq<SnifferSpec.Event>)
    requires SnifferSpec.Run(c, events).0.proto == HTTP2 && !SnifferSpec.Run(c, events).0.crashed && |e.data| == 8191
    ensures var conn, conn' := SnifferSpec.Run(c, events).0, SnifferSpec.Run(c, events + [e] + later).0;
            if e.isReq then
              && SnifferSpec.Run(c, events + [e] + later).1 == SnifferSpec.Run(c, events).1
              && (!conn.h2req.dir.Poisoned() ==> conn'.h2req.dir.reason == CaptureGap)
            else
              && Answered(c, events + [e] + later) == Answered(c, events)
              && (!conn.h2resp.dir.Poisoned() ==> conn'.h2resp.dir.reason == CaptureGap)
  {
    hide SnifferSpec.Run, Answered, Step, GivenUp;
    HandedOut(c, events);
    RunSnoc(c, events, e);
    GapStep(c, SnifferSpec.Run(c, events).0, e);
    NothingMore(c, events + [e], later);
  }

  /** A direction is given up for a gap only by such a read. */
  lemma NoGapFed<D>(c: Codec<D>, h: Feeder<D>, data: Bytes)
    requires h.dir.reason != CaptureGap
    ensures Fed(c, h, data, false).dir.reason != CaptureGap
  {
    hide Frames, Rest, HandleFrame, HasFrame;
    if !h.dir.Poisoned() && !Trips(h, data) {
      DrainIsRun(c, h.(buf := h.buf + data));
      RunNeverOverflows(c, h.dir, Frames(h.buf + data));
    }
  }

  lemma NoGapStep<D>(c: Codec<D>, conn: Conn<D>, e: SnifferSpec.Event)
    requires |e.data| != 8191 && conn.h2req.dir.reason != CaptureGap && conn.h2resp.dir.reason != CaptureGap
    ensures var conn' := Step(c, conn, e).0;
            conn'.h2req.dir.reason != CaptureGap && conn'.h2resp.dir.reason != CaptureGap
  {
    hide Fed, RequestsIn, ResponsesIn, Preface;
    NoGapFed(c, conn.h2req, e.data);
    NoGapFed(c, conn.h2resp, e.data);
    var conn' := Buffered(conn, e);
    if DetectProto(conn'.requestBuffer) == HTTP2 {
      NoGapFed(c, NewFeeder(c), conn'.requestBuffer[|Preface()|..]);
      NoGapFed(c, NewFeeder(c), conn'.responseBuffer);
    }
  }

  lemma {:induction false} NoGapNoReason<D>(c: Codec<D>, events: seq<SnifferSpec.Event>)
    requires forall k :: 0 <= k < |events| ==> |events[k].data| != 8191
    ensures var conn := SnifferSpec.Run(c, events).0;
            conn.h2req.dir.reason != CaptureGap && conn.h2resp.dir.reason != CaptureGap
  {
    hide Step;
    if events != [] {
      NoGapNoReason(c, events[..|events| - 1]);
      NoGapStep(c, SnifferSpec.Run(c, events[..|events| - 1]).0, events[|events| - 1]);
    }
  }
}
