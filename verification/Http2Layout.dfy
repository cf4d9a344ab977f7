/** The layout of frames, read the other way round: what a frame is whose payload was put together by section 6 of
    RFC 9113, and what the direction makes of it. */
module Http2Layout {
  import opened Basics
  import opened Hpack
  import opened Http2Spec
  import opened Http2Framing
  import opened Http2Grammar

  // ---------- flags and stream identifiers ----------

  type bit = x: nat | x < 2

  /** The flag byte with these bits, `x1`, `x4`, `x6` and `x7` being those without a meaning here. */
  function FlagByte(endStream: bit, endHeaders: bit, padded: bit, priority: bit, x1: bit, x4: bit, x6: bit,
                    x7: bit): byte
  {
    128 * x7 + 64 * x6 + 32 * priority + 16 * x4 + 8 * padded + 4 * endHeaders + 2 * x1 + endStream
  }

  lemma Bit0(flags: byte, high: nat, b: bit)
    requires flags == 2 * high + b
    ensures HasFlag(flags, 0x1) <==> b == 1
  {
  }

  lemma Bit2(flags: byte, high: nat, b: bit, low: nat)
    requires low < 4 && flags == 8 * high + 4 * b + low
    ensures HasFlag(flags, 0x4) <==> b == 1
  {
    assert flags / 4 == 2 * high + b;
  }

  lemma Bit3(flags: byte, high: nat, b: bit, low: nat)
    requires low < 8 && flags == 16 * high + 8 * b + low
    ensures HasFlag(flags, 0x8) <==> b == 1
  {
    assert flags / 8 == 2 * high + b;
  }

  lemma Bit5(flags: byte, high: nat, b: bit, low: nat)
    requires low < 32 && flags == 64 * high + 32 * b + low
    ensures HasFlag(flags, 0x20) <==> b == 1
  {
    assert flags / 32 == 2 * high + b;
  }

  /** Each flag is read from its own bit, whatever the other bits are. */
  lemma FlagBits(f: Frame, endStream: bit, endHeaders: bit, padded: bit, priority: bit, x1: bit, x4: bit, x6: bit,
                 x7: bit)
    requires f.flags == FlagByte(endStream, endHeaders, padded, priority, x1, x4, x6, x7)
    ensures (f.Ends() <==> endStream == 1) && (f.EndsHeaders() <==> endHeaders == 1)
    ensures (f.Padded() <==> padded == 1) && (f.Prioritised() <==> priority == 1)
  {
    hide HasFlag;
    var high := 8 * x7 + 4 * x6 + 2 * priority + x4;
    Bit5(f.flags, 2 * x7 + x6, priority, 16 * x4 + 8 * padded + 4 * endHeaders + 2 * x1 + endStream);
    Bit3(f.flags, high, padded, 4 * endHeaders + 2 * x1 + endStream);
    Bit2(f.flags, 2 * high + padded, endHeaders, 2 * x1 + endStream);
    Bit0(f.flags, 8 * high + 4 * padded + 2 * endHeaders + x1, endStream);
  }

  /** The four bytes of a stream identifier behind its reserved bit. */
  function IdBytes(reserved: bit, sid: nat): (b: Bytes)
    requires sid < 0x8000_0000
    ensures |b| == 4
  {
    [sid / 0x100_0000 + 128 * reserved, sid / 0x1_0000 % 0x100, sid / 0x100 % 0x100, sid % 0x100]
  }

  lemma IdValue(reserved: bit, sid: nat, rest: Bytes)
    requires sid < 0x8000_0000
    ensures U32(IdBytes(reserved, sid) + rest) == sid + 0x8000_0000 * reserved
  {
    Base256(sid);
    var a, b, c, d := sid / 0x100_0000, sid / 0x1_0000 % 0x100, sid / 0x100 % 0x100, sid % 0x100;
    var p := IdBytes(reserved, sid) + rest;
    assert p[0] == a + 128 * reserved && p[1] == b && p[2] == c && p[3] == d;
  }

  lemma TopBit(reserved: bit, sid: nat)
    requires sid < 0x8000_0000
    ensures (sid + 0x8000_0000 * reserved) % 0x8000_0000 == sid
  {
  }

  /** The reserved bit is ignored (section 4.1 of RFC 9113). */
  lemma ReservedBit(reserved: bit, sid: nat, rest: Bytes)
    requires sid < 0x8000_0000
    ensures StreamId(IdBytes(reserved, sid) + rest) == sid
  {
    IdValue(reserved, sid, rest);
    hide U32, IdBytes;
    TopBit(reserved, sid);
  }

  // ---------- DATA ----------

  /** A payload with its padding: the pad length, the content, the padding. */
  function WithPadding(padded: bool, content: Bytes, padding: Bytes): Bytes
    requires |padding| < 256
  {
    if padded then ([|padding|] + content) + padding else content
  }

  /** The pad length exceeds what is left of the payload, or is missing. */
  predicate BadPadding(f: Frame) { f.Padded() && (f.payload == [] || f.payload[0] >= |f.payload|) }

  lemma Unpadded(content: Bytes, padding: Bytes)
    requires |padding| < 256
    ensures StripPadding(([|padding|] + content) + padding) == Some(content)
  {
    var p := ([|padding|] + content) + padding;
    assert p[1..|p| - p[0]] == content;
  }

  /** A DATA frame contributes its content, without pad length and padding (section 6.1 of RFC 9113); one whose padding
      does not fit contributes nothing. */
  lemma DataContent(f: Frame, content: Bytes, padding: Bytes)
    requires |padding| < 256
    ensures f.payload == WithPadding(f.Padded(), content, padding) ==> DataBytes(f) == content
    ensures BadPadding(f) ==> DataBytes(f) == []
  {
    hide HasFlag;
    Unpadded(content, padding);
  }

  /** An entry that takes `more`: the first `MAX_BODY_PER_STREAM` bytes of both. */
  function Extended(st: Stream, more: Bytes): Stream {
    var body := st.body + more;
    if st.bodyTrunc || |body| <= 8_388_608 then if st.bodyTrunc then st else st.(body := body)
    else st.(body := body[..8_388_608], bodyTrunc := true)
  }

  lemma WrittenIsExtended(st: Stream, more: Bytes)
    requires StreamBounded(st)
    ensures WriteBody(st, more) == Extended(st, more)
  {
    if |more| == 0 {
      assert st.body + more == st.body;
    } else if |st.body| == MAX_BODY_PER_STREAM {
      assert (st.body + more)[..8_388_608] == st.body;
    } else if |st.body + more| > MAX_BODY_PER_STREAM {
      assert (st.body + more)[..8_388_608] == st.body + more[..MAX_BODY_PER_STREAM - |st.body|];
    }
  }

  /** What a DATA frame does to the open entry of its stream, END_STREAM completing it. */
  lemma DataOnOpenStream<D>(c: Codec<D>, d: Dir<D>, f: Frame, content: Bytes, padding: Bytes)
    requires f.kind == 0x0 && f.stream != 0 && f.stream in d.tab.streams
    requires !d.Poisoned() && !d.assembling && Bounded(d) && |padding| < 256
    requires f.payload == WithPadding(f.Padded(), content, padding)
             || (BadPadding(f) && content == [])
    ensures var st := Extended(d.tab.streams[f.stream], content);
            HandleFrame(c, d, f) ==
            d.(tab := if !f.Ends() then Table(d.tab.streams[f.stream := st], d.tab.done)
                      else Table(d.tab.streams - {f.stream},
                                 if st.gotHeader then d.tab.done + [Finished(f.stream, st)] else d.tab.done))
  {
    hide HasFlag, DataBytes, WriteBody, Extended;
    DataContent(f, content, padding);
    WrittenIsExtended(d.tab.streams[f.stream], content);
  }

  // ---------- block-opening frames ----------

  /** HEADERS: padding around the five priority bytes, if flagged, and the fragment (section 6.2 of RFC 9113). */
  lemma HeadersContent(f: Frame, priority: Bytes, frag: Bytes, padding: Bytes)
    requires f.kind == 0x1 && f.stream != 0 && |padding| < 256
    requires |priority| == if f.Prioritised() then 5 else 0
    requires f.payload == WithPadding(f.Padded(), priority + frag, padding)
    ensures OpeningOf(f) == Some(Opening(f.stream, f.Ends(), frag))
  {
    hide HasFlag;
    FragmentStands(f.Padded(), priority, frag, padding);
  }

  lemma FragmentStands(padded: bool, fixed: Bytes, frag: Bytes, padding: Bytes)
    requires |padding| < 256
    ensures var p, lead := WithPadding(padded, fixed + frag, padding), if padded then 1 else 0;
            var pad := if padded then |padding| else 0;
            && |p| == lead + |fixed| + |frag| + pad && (padded ==> p[0] == |padding|)
            && p[lead + |fixed|..|p| - pad] == frag && p[lead..][..|fixed|] == fixed
  {
    var p, lead := WithPadding(padded, fixed + frag, padding), if padded then 1 else 0;
    var pad := if padded then |padding| else 0;
    if padded {
      assert p == [|padding|] + fixed + frag + padding;
    }
    assert p[lead + |fixed|..|p| - pad] == frag;
    assert p[lead..][..|fixed|] == fixed;
  }

  /** PUSH_PROMISE: padding around the promised stream and the fragment (section 6.6 of RFC 9113). */
  lemma PromiseContent(f: Frame, reserved: bit, promised: nat, frag: Bytes, padding: Bytes)
    requires f.kind == 0x5 && promised < 0x8000_0000 && |padding| < 256
    requires f.payload == WithPadding(f.Padded(), IdBytes(reserved, promised) + frag, padding)
    ensures OpeningOf(f) == Some(Opening(promised, false, frag))
  {
    hide HasFlag, StreamId;
    FragmentStands(f.Padded(), IdBytes(reserved, promised), frag, padding);
    ReservedBit(reserved, promised, []);
    var lead := if f.Padded() then 1 else 0;
    SameStreamId(f.payload[lead..], IdBytes(reserved, promised) + []);
  }

  /** Nothing opens when the announced parts do not fit, or when HEADERS names stream 0. */
  lemma NothingOpens(f: Frame)
    requires f.kind == 0x1 || f.kind == 0x5
    requires var pad: int := if !f.Padded() then 0 else if f.payload == [] then 1 else 1 + f.payload[0] as int;
             var fixed := if f.kind == 0x5 then 4 else if f.Prioritised() then 5 else 0;
             (f.kind == 0x1 && f.stream == 0) || pad + fixed > |f.payload|
    ensures OpeningOf(f) == None
  {
    hide HasFlag, StreamId;
  }

  // ---------- from the frame types and flags of the standard to a completed message ----------

  /** HEADERS (type 0x1, END_HEADERS 0x4), then DATA (type 0x0, END_STREAM 0x1 and PADDED 0x8). */
  function PaddedRequest(sid: nat, frag: Bytes, content: Bytes, padding: Bytes): seq<Frame>
    requires |padding| < 256
  {
    [Frame(0x1, 0x4, sid, frag), Frame(0x0, 0x9, sid, ([|padding|] + content) + padding)]
  }

  lemma TwoFrames<D>(c: Codec<D>, a: Frame, b: Frame)
    ensures var d := HandleFrame(c, Fresh(c), a);
            Run(c, Fresh(c), [a, b]) == if d.Poisoned() then d else HandleFrame(c, d, b)
  {
    hide HandleFrame;
    RunNone(c, Fresh(c));
    RunSnoc(c, Fresh(c), [], a);
    RunSnoc(c, Fresh(c), [a], b);
    assert [] + [a] == [a] && [a] + [b] == [a, b];
  }

  lemma ReadFlags(f: Frame)
    ensures f.flags == 0x4 ==> !f.Ends() && f.EndsHeaders() && !f.Padded() && !f.Prioritised()
    ensures f.flags == 0x9 ==> f.Ends() && !f.EndsHeaders() && f.Padded() && !f.Prioritised()
    ensures f.flags == 0x29 ==> f.Ends() && !f.EndsHeaders() && f.Padded() && f.Prioritised()
  {
  }

  /** The request is completed with the decoded fields and the content, whatever the padding. */
  lemma PaddedRequestCompletes<D>(c: Codec<D>, sid: nat, frag: Bytes, fields: seq<Field>, content: Bytes,
                                  padding: Bytes)
    requires sid != 0 && |frag| <= 262_144 && |content| <= 8_388_608 && |padding| < 256
    requires c.decode(c.initial, frag).1 == Fields(fields)
    ensures var d := Run(c, Fresh(c), PaddedRequest(sid, frag, content, padding));
            && !d.Poisoned() && d.dec == c.decode(c.initial, frag).0
            && d.tab == Table(map[], [Finished(sid, Stream(fields, true, content, false))])
  {
    hide HasFlag, StripPadding, OpeningOf, FlagByte;
    var a, b := PaddedRequest(sid, frag, content, padding)[0], PaddedRequest(sid, frag, content, padding)[1];
    TwoFrames(c, a, b);
    ReadFlags(a);
    ReadFlags(b);
    assert [] + frag == frag;
    HeadersContent(a, [], frag, []);
    HandleOpening(c, Fresh(c), a);
    DataContent(b, content, padding);
    OneOpen(sid, Stream(fields, true, [], false));
    assert [] + content == content;
  }

  lemma OneOpen(sid: nat, st: Stream)
    ensures map[][sid := st] - {sid} == map[]
  {
  }

  /** HEADERS with padding and priority (type 0x1, flags 0x29), finished by a CONTINUATION (type 0x9, flags 0x4). */
  lemma SplitRequestCompletes<D>(c: Codec<D>, sid: nat, priority: Bytes, frag: Bytes, rest: Bytes, padding: Bytes,
                                 fields: seq<Field>)
    requires sid != 0 && |frag + rest| <= 262_144 && |priority| == 5 && |padding| < 256
    requires c.decode(c.initial, frag + rest).1 == Fields(fields)
    ensures var d := Run(c, Fresh(c), [Frame(0x1, 0x29, sid, ([|padding|] + (priority + frag)) + padding),
                                       Frame(0x9, 0x4, sid, rest)]);
            && !d.Poisoned() && d.dec == c.decode(c.initial, frag + rest).0
            && d.tab == Table(map[], [Finished(sid, Stream(fields, true, [], false))])
  {
    hide HasFlag, StripPadding, OpeningOf;
    var a, b := Frame(0x1, 0x29, sid, ([|padding|] + (priority + frag)) + padding), Frame(0x9, 0x4, sid, rest);
    TwoFrames(c, a, b);
    ReadFlags(a);
    ReadFlags(b);
    HeadersContent(a, priority, frag, padding);
    HandleOpening(c, Fresh(c), a);
  }

  /** PUSH_PROMISE (type 0x5) opens the promised stream, and RST_STREAM (type 0x3) on it forgets it. */
  lemma PromiseIsReset<D>(c: Codec<D>, sid: nat, promised: nat, frag: Bytes, fields: seq<Field>, code: Bytes)
    requires promised < 0x8000_0000 && |frag| <= 262_144 && c.decode(c.initial, frag).1 == Fields(fields)
    ensures var push := Frame(0x5, 0x4, sid, IdBytes(0, promised) + frag);
            var d := Run(c, Fresh(c), [push, Frame(0x3, 0x0, promised, code)]);
            && HandleFrame(c, Fresh(c), push).tab == Table(map[promised := Stream(fields, true, [], false)], [])
            && !d.Poisoned() && d.tab == Table(map[], [])
  {
    hide HasFlag, StripPadding, OpeningOf, StreamId, IdBytes;
    var a, b := Frame(0x5, 0x4, sid, IdBytes(0, promised) + frag), Frame(0x3, 0x0, promised, code);
    TwoFrames(c, a, b);
    ReadFlags(a);
    PromiseContent(a, 0, promised, frag, []);
    HandleOpening(c, Fresh(c), a);
    OneOpen(promised, Stream(fields, true, [], false));
  }

  // ---------- why a direction is given up ----------

  /** The reason given for each fault: what is wrong with the first frame that does not fit. */
  lemma FaultsNamed<D>(c: Codec<D>, d: Dir<D>, f: Frame)
    requires !d.Poisoned()
    ensures d.assembling && (f.kind != 0x9 || f.stream != d.contStream) ==> HandleFrame(c, d, f).reason == Interleaved
    ensures !d.assembling && f.kind == 0x9 ==> HandleFrame(c, d, f).reason == StrayContinuation
    ensures d.assembling && f.kind == 0x9 && f.stream == d.contStream && |d.frag| + |f.payload| > 262_144 ==>
              HandleFrame(c, d, f).reason == ContinuationFlood
    ensures !d.assembling && f.kind == 0x0 && f.stream == 0 ==> HandleFrame(c, d, f).reason == DataOnStream0
    ensures !d.assembling && f.kind == 0x1 && f.stream == 0 ==> HandleFrame(c, d, f).reason == HeadersOnStream0
    ensures !d.assembling && f.kind == 0x1 && f.stream != 0 && BadPadding(f) ==>
              HandleFrame(c, d, f).reason == BadHeadersPadding
    ensures !d.assembling && f.kind == 0x5 && BadPadding(f) ==>
              HandleFrame(c, d, f).reason == BadPushPadding
    ensures !d.assembling && f.kind == 0x1 && f.stream != 0 && OpeningOf(f).None? && !BadPadding(f) ==>
              HandleFrame(c, d, f).reason == HeadersPriorityUnderflow
    ensures !d.assembling && f.kind == 0x5 && OpeningOf(f).None? && !BadPadding(f) ==>
              HandleFrame(c, d, f).reason == PushUnderflow
    ensures !d.assembling && Opens(f) && OpeningOf(f).Some? && |OpeningOf(f).value.frag| > 262_144 ==>
              HandleFrame(c, d, f).reason == BlockTooLarge
  {
    hide HasFlag, FinishBlock, StreamId;
    if Opens(f) && !d.assembling {
      HandleOpening(c, d, f);
    }
  }

  /** An undecodable block is reported with the decoder's message. */
  lemma DecodeFaultNamed<D>(c: Codec<D>, d: Dir<D>)
    requires !d.Poisoned() && c.decode(d.dec, d.frag).1.BadBlock?
    ensures FinishBlock(c, d).reason == HpackError(c.decode(d.dec, d.frag).1.message)
  {
  }
}
