/** One direction of an HTTP/2 connection as a pure state machine: the functional specification that
    the methods of `Http2.H2Direction` are proved against (RFC 9113). */
module Http2Spec {
  import opened Basics
  import opened Hpack

  const FRAME_HEADER_LEN := 9
  const MAX_FRAME_SIZE := 0xFF_FFFF
  const MAX_HEADER_BLOCK := 256 * 1024
  const MAX_BODY_PER_STREAM := 8 * 1024 * 1024
  const MAX_STREAMS := 4096
  const MAX_DIR_BUFFER := MAX_FRAME_SIZE + FRAME_HEADER_LEN

  const DATA: byte := 0
  const HEADERS: byte := 1
  const RST_STREAM: byte := 3
  const PUSH_PROMISE: byte := 5
  const CONTINUATION: byte := 9

  const END_STREAM: byte := 0x1
  const END_HEADERS: byte := 0x4
  const PADDED: byte := 0x8
  const PRIORITY: byte := 0x20

  /** `flags&bit != 0`, for a single-bit mask. */
  predicate HasFlag(flags: byte, bit: byte)
    requires bit > 0
  {
    flags / bit % 2 == 1
  }

  datatype Frame = Frame(kind: byte, flags: byte, stream: nat, payload: Bytes) {
    predicate Ends() { HasFlag(flags, END_STREAM) }
    predicate EndsHeaders() { HasFlag(flags, END_HEADERS) }
    predicate Padded() { HasFlag(flags, PADDED) }
    predicate Prioritised() { HasFlag(flags, PRIORITY) }
  }

  // ---------- the stream table ----------

  datatype Stream = Stream(headers: seq<Field>, gotHeader: bool, body: Bytes, bodyTrunc: bool)

  const NEW_STREAM := Stream([], false, [], false)

  datatype Finished = Finished(streamID: nat, st: Stream)

  datatype Table = Table(streams: map<nat, Stream>, done: seq<Finished>)

  const EMPTY_TABLE := Table(map[], [])

  predicate Refuses(t: Table, sid: nat) {
    sid !in t.streams && |t.streams| >= MAX_STREAMS
  }

  function EntryOf(t: Table, sid: nat): Stream {
    if sid in t.streams then t.streams[sid] else NEW_STREAM
  }

  function WriteBody(st: Stream, p: Bytes): Stream {
    if |p| == 0 || st.bodyTrunc then st
    else
      var room := MAX_BODY_PER_STREAM - |st.body|;
      if room <= 0 then st.(bodyTrunc := true)
      else if |p| > room then st.(body := st.body + p[..room], bodyTrunc := true)
      else st.(body := st.body + p)
  }

  function AddBlock(st: Stream, fields: seq<Field>): Stream {
    if !st.gotHeader then st.(headers := fields, gotHeader := true)
    else st.(headers := st.headers + fields)
  }

  function CompleteStream(t: Table, sid: nat, st: Stream): Table {
    Table(t.streams - {sid}, if st.gotHeader then t.done + [Finished(sid, st)] else t.done)
  }

  function Stored(t: Table, sid: nat, st: Stream): Table {
    t.(streams := t.streams[sid := st])
  }

  /** Storing an entry twice keeps the second, and completing forgets what was stored. */
  lemma StoredAgain(t: Table, sid: nat, a: Stream, b: Stream)
    ensures Stored(Stored(t, sid, a), sid, b) == Stored(t, sid, b)
    ensures CompleteStream(Stored(t, sid, a), sid, b) == CompleteStream(t, sid, b)
    ensures sid in t.streams && t.streams[sid] == a ==> Stored(t, sid, a) == t
  {
    assert t.streams[sid := a][sid := b] == t.streams[sid := b];
    assert t.streams[sid := a] - {sid} == t.streams - {sid};
    if sid in t.streams && t.streams[sid] == a {
      assert t.streams[sid := a] == t.streams;
    }
  }

  /** Store the entry, and complete it when this frame ended its stream. */
  function Settle(t: Table, sid: nat, st: Stream, endStream: bool): Table {
    if endStream then CompleteStream(t, sid, st) else Stored(t, sid, st)
  }

  function FieldsArrive(t: Table, target: nat, fields: seq<Field>, endStream: bool): Table {
    if Refuses(t, target) then t
    else Settle(t, target, AddBlock(EntryOf(t, target), fields), endStream)
  }

  function DataArrives(t: Table, sid: nat, p: Bytes, endStream: bool): Table {
    if Refuses(t, sid) then t
    else Settle(t, sid, WriteBody(EntryOf(t, sid), p), endStream)
  }

  function ResetArrives(t: Table, sid: nat): Table {
    t.(streams := t.streams - {sid})
  }

  // ---------- one direction ----------

  datatype Reason =
    | NoReason | CaptureGap | DirectionOverflow | Interleaved
    | HeadersOnStream0 | BadHeadersPadding | HeadersPriorityUnderflow
    | StrayContinuation | ContinuationOnWrongStream | ContinuationFlood
    | BadPushPadding | PushUnderflow | BlockTooLarge | HpackError(message: string) | DataOnStream0

  datatype Dir<D> = Dir(dec: D, tab: Table, reason: Reason,
                        assembling: bool, contStream: nat, target: nat, endStream: bool, frag: Bytes)
  {
    predicate Poisoned() { reason != NoReason }
  }

  function Fresh<D>(c: Codec<D>): Dir<D> {
    Dir(c.initial, EMPTY_TABLE, NoReason, false, 0, 0, false, [])
  }

  function Poison<D>(d: Dir<D>, reason: Reason): Dir<D> {
    if d.Poisoned() then d
    else d.(reason := reason, tab := d.tab.(streams := map[]), frag := [], assembling := false)
  }

  function StripPadding(p: Bytes): Option<Bytes> {
    if |p| < 1 || p[0] > |p| - 1 then None else Some(p[1..|p| - p[0]])
  }

  function U32(p: Bytes): nat
    requires |p| >= 4
  {
    (p[0] as int) * 0x100_0000 + (p[1] as int) * 0x1_0000 + (p[2] as int) * 0x100 + p[3]
  }

  /** A stream identifier: the reserved top bit is cleared. */
  function StreamId(p: Bytes): nat
    requires |p| >= 4
  {
    U32(p) % 0x8000_0000
  }

  function FinishBlock<D>(c: Codec<D>, d: Dir<D>): Dir<D> {
    var (dec, out) := c.decode(d.dec, d.frag);
    var d' := d.(dec := dec, assembling := false, frag := []);
    match out
    case BadBlock(message) => Poison(d', HpackError(message))
    case Fields(fields) => d'.(tab := FieldsArrive(d.tab, d.target, fields, d.endStream))
  }

  function BeginBlock<D>(c: Codec<D>, d: Dir<D>, contStream: nat, target: nat, endStream: bool,
                         frag: Bytes, endHeaders: bool): Dir<D>
  {
    var d' := d.(assembling := true, contStream := contStream, target := target,
                 endStream := endStream, frag := frag);
    if |frag| > MAX_HEADER_BLOCK then Poison(d', BlockTooLarge)
    else if endHeaders then FinishBlock(c, d')
    else d'
  }

  function OnHeaders<D>(c: Codec<D>, d: Dir<D>, f: Frame): Dir<D> {
    if f.stream == 0 then Poison(d, HeadersOnStream0)
    else
      var unpadded := if f.Padded() then StripPadding(f.payload) else Some(f.payload);
      if unpadded.None? then Poison(d, BadHeadersPadding)
      else
        var p := unpadded.value;
        if f.Prioritised() && |p| < 5 then Poison(d, HeadersPriorityUnderflow)
        else
          BeginBlock(c, d, f.stream, f.stream, f.Ends(),
                     if f.Prioritised() then p[5..] else p, f.EndsHeaders())
  }

  function OnPushPromise<D>(c: Codec<D>, d: Dir<D>, f: Frame): Dir<D> {
    var unpadded := if f.Padded() then StripPadding(f.payload) else Some(f.payload);
    if unpadded.None? then Poison(d, BadPushPadding)
    else
      var p := unpadded.value;
      if |p| < 4 then Poison(d, PushUnderflow)
      else BeginBlock(c, d, f.stream, StreamId(p), false, p[4..], f.EndsHeaders())
  }

  function OnContinuation<D>(c: Codec<D>, d: Dir<D>, f: Frame): Dir<D> {
    if !d.assembling then Poison(d, StrayContinuation)
    else if f.stream != d.contStream then Poison(d, ContinuationOnWrongStream)
    else
      var d' := d.(frag := d.frag + f.payload);
      if |d'.frag| > MAX_HEADER_BLOCK then Poison(d', ContinuationFlood)
      else if f.EndsHeaders() then FinishBlock(c, d')
      else d'
  }

  /** The bytes a DATA frame contributes: a frame whose padding is malformed contributes none. */
  function DataBytes(f: Frame): Bytes {
    if !f.Padded() then f.payload
    else
      match StripPadding(f.payload)
      case None => []
      case Some(p) => p
  }

  function OnData<D>(d: Dir<D>, f: Frame): Dir<D> {
    if f.stream == 0 then Poison(d, DataOnStream0)
    else d.(tab := DataArrives(d.tab, f.stream, DataBytes(f), f.Ends()))
  }

  function HandleFrame<D>(c: Codec<D>, d: Dir<D>, f: Frame): Dir<D> {
    if d.assembling && (f.kind != CONTINUATION || f.stream != d.contStream) then Poison(d, Interleaved)
    else if f.kind == HEADERS then OnHeaders(c, d, f)
    else if f.kind == CONTINUATION then OnContinuation(c, d, f)
    else if f.kind == DATA then OnData(d, f)
    else if f.kind == PUSH_PROMISE then OnPushPromise(c, d, f)
    else if f.kind == RST_STREAM then d.(tab := ResetArrives(d.tab, f.stream))
    else d
  }

  // ---------- what opens a header block ----------

  datatype Opening = Opening(target: nat, endStream: bool, frag: Bytes)

  /** The layout of a block-opening frame by sections 6.2 and 6.6 of RFC 9113: an optional pad-length
      byte, the 5 priority bytes or the 4 bytes of the promised stream, the fragment, the padding.
      `None` when the announced parts do not fit or HEADERS names stream 0. */
  function OpeningOf(f: Frame): Option<Opening> {
    var lead := if f.Padded() then 1 else 0;
    var fixed := if f.kind == PUSH_PROMISE then 4 else if f.Prioritised() then 5 else 0;
    var pad := if f.Padded() && |f.payload| > 0 then f.payload[0] else 0;
    if (f.kind != PUSH_PROMISE && f.stream == 0) || lead + fixed + pad > |f.payload| then None
    else
      var frag := f.payload[lead + fixed..|f.payload| - pad];
      if f.kind == PUSH_PROMISE then Some(Opening(StreamId(f.payload[lead..]), false, frag))
      else Some(Opening(f.stream, f.Ends(), frag))
  }

  predicate Opens(f: Frame) { f.kind == HEADERS || f.kind == PUSH_PROMISE }

  lemma SameStreamId(p: Bytes, q: Bytes)
    requires |p| >= 4 && |q| >= 4 && p[..4] == q[..4]
    ensures StreamId(p) == StreamId(q)
  {
    assert forall k :: 0 <= k < 4 ==> p[k] == p[..4][k] && q[k] == q[..4][k];
  }

  /** Outside a block, a HEADERS or PUSH_PROMISE frame whose layout is sound begins a block with exactly
      the target and fragment of that layout; any other poisons the direction. */
  lemma HandleOpening<D>(c: Codec<D>, d: Dir<D>, f: Frame)
    requires Opens(f) && !d.assembling && !d.Poisoned()
    ensures match OpeningOf(f)
            case Some(o) => HandleFrame(c, d, f) ==
                            BeginBlock(c, d, f.stream, o.target, o.endStream, o.frag, f.EndsHeaders())
            case None => exists r :: r != NoReason && HandleFrame(c, d, f) == Poison(d, r)
  {
    hide HasFlag, StreamId, BeginBlock;
    var p := f.payload;
    if f.Padded() && |p| > 0 && p[0] <= |p| - 1 {
      var q := p[1..|p| - p[0]];
      if |q| >= 5 { assert q[5..] == p[6..|p| - p[0]]; }
      if |q| >= 4 {
        assert q[4..] == p[5..|p| - p[0]];
        assert q[..4] == p[1..][..4];
        SameStreamId(q, p[1..]);
      }
    } else if !f.Padded() {
      assert p[0..|p|] == p && p[0..] == p;
    }
    if OpeningOf(f).None? {
      assert HandleFrame(c, d, f) == Poison(d, HandleFrame(c, d, f).reason);
    }
  }

  /** Handling frames one after the other; a poisoned direction ignores the rest. */
  function Run<D>(c: Codec<D>, d: Dir<D>, frames: seq<Frame>): Dir<D> {
    if frames == [] then d
    else
      var before := Run(c, d, frames[..|frames| - 1]);
      if before.Poisoned() then before else HandleFrame(c, before, frames[|frames| - 1])
  }

  lemma RunSnoc<D>(c: Codec<D>, d: Dir<D>, frames: seq<Frame>, f: Frame)
    ensures Run(c, d, frames + [f]) ==
            var before := Run(c, d, frames);
            if before.Poisoned() then before else HandleFrame(c, before, f)
  {
    assert (frames + [f])[..|frames|] == frames;
  }

  lemma RunNone<D>(c: Codec<D>, d: Dir<D>)
    ensures Run(c, d, []) == d
  {
  }

  lemma {:induction false} RunConcat<D>(c: Codec<D>, d: Dir<D>, a: seq<Frame>, b: seq<Frame>)
    ensures Run(c, d, a + b) == Run(c, Run(c, d, a), b)
  {
    hide Run, HandleFrame;
    if b == [] {
      assert a + b == a;
      RunNone(c, Run(c, d, a));
    } else {
      var init, f := b[..|b| - 1], b[|b| - 1];
      assert b == init + [f];
      assert a + b == (a + init) + [f];
      RunConcat(c, d, a, init);
      RunSnoc(c, d, a + init, f);
      RunSnoc(c, Run(c, d, a), init, f);
    }
  }

  // ---------- the completion queue is write-only ----------

  function Queued(queue: seq<Finished>, t: Table): Table {
    t.(done := queue + t.done)
  }

  /** The same direction with `queue` ahead of its own completions. */
  function Behind<D>(queue: seq<Finished>, d: Dir<D>): Dir<D> {
    d.(tab := Queued(queue, d.tab))
  }

  lemma SettleBehind(queue: seq<Finished>, t: Table, sid: nat, st: Stream, endStream: bool)
    ensures Settle(Queued(queue, t), sid, st, endStream) == Queued(queue, Settle(t, sid, st, endStream))
  {
    assert queue + t.done + [Finished(sid, st)] == queue + (t.done + [Finished(sid, st)]);
  }

  lemma FinishBehind<D>(c: Codec<D>, queue: seq<Finished>, d: Dir<D>)
    ensures FinishBlock(c, Behind(queue, d)) == Behind(queue, FinishBlock(c, d))
  {
    var out := c.decode(d.dec, d.frag).1;
    if out.Fields? {
      SettleBehind(queue, d.tab, d.target, AddBlock(EntryOf(d.tab, d.target), out.fields), d.endStream);
    }
  }

  lemma BeginBehind<D>(c: Codec<D>, queue: seq<Finished>, d: Dir<D>, contStream: nat, target: nat,
                       endStream: bool, frag: Bytes, endHeaders: bool)
    ensures BeginBlock(c, Behind(queue, d), contStream, target, endStream, frag, endHeaders) ==
            Behind(queue, BeginBlock(c, d, contStream, target, endStream, frag, endHeaders))
  {
    FinishBehind(c, queue, d.(assembling := true, contStream := contStream, target := target,
                              endStream := endStream, frag := frag));
  }

  /** Handling a frame only appends to the queue, and what it appends does not depend on what was
      already there. */
  lemma HandleBehind<D>(c: Codec<D>, queue: seq<Finished>, d: Dir<D>, f: Frame)
    requires !d.Poisoned()
    ensures HandleFrame(c, Behind(queue, d), f) == Behind(queue, HandleFrame(c, d, f))
  {
    if Opens(f) && !d.assembling {
      HandleOpening(c, d, f);
      HandleOpening(c, Behind(queue, d), f);
      if OpeningOf(f).Some? {
        var o := OpeningOf(f).value;
        BeginBehind(c, queue, d, f.stream, o.target, o.endStream, o.frag, f.EndsHeaders());
      }
    } else if f.kind == CONTINUATION {
      FinishBehind(c, queue, d.(frag := d.frag + f.payload));
    } else if f.kind == DATA {
      SettleBehind(queue, d.tab, f.stream, WriteBody(EntryOf(d.tab, f.stream), DataBytes(f)), f.Ends());
    }
  }

  lemma {:induction false} RunBehind<D>(c: Codec<D>, queue: seq<Finished>, d: Dir<D>, frames: seq<Frame>)
    ensures Run(c, Behind(queue, d), frames) == Behind(queue, Run(c, d, frames))
  {
    if frames != [] {
      var before := Run(c, d, frames[..|frames| - 1]);
      RunBehind(c, queue, d, frames[..|frames| - 1]);
      if !before.Poisoned() {
        HandleBehind(c, queue, before, frames[|frames| - 1]);
      }
    }
  }

  // ---------- resource bounds ----------

  predicate StreamBounded(st: Stream) {
    && |st.body| <= MAX_BODY_PER_STREAM
    && (st.bodyTrunc ==> |st.body| == MAX_BODY_PER_STREAM)
    && (!st.gotHeader ==> st.headers == [])
  }

  ghost predicate TableBounded(t: Table) {
    && |t.streams| <= MAX_STREAMS
    && (forall sid :: sid in t.streams ==> StreamBounded(t.streams[sid]))
    && (forall f :: f in t.done ==> StreamBounded(f.st) && f.st.gotHeader)
  }

  /** What holds of a direction between any two frames. */
  ghost predicate Bounded<D>(d: Dir<D>) {
    && TableBounded(d.tab)
    && |d.frag| <= MAX_HEADER_BLOCK
    && (!d.assembling ==> d.frag == [])
    && (d.Poisoned() ==> d.tab.streams == map[] && !d.assembling)
  }

  lemma RemoveKeepsBounds(t: Table, sid: nat)
    requires TableBounded(t)
    ensures TableBounded(t.(streams := t.streams - {sid}))
  {
    if sid in t.streams {
      assert t.streams == (t.streams - {sid})[sid := t.streams[sid]];
    } else {
      assert t.streams - {sid} == t.streams;
    }
  }

  lemma SettleKeepsBounds(t: Table, sid: nat, st: Stream, endStream: bool)
    requires TableBounded(t) && StreamBounded(st) && !Refuses(t, sid)
    ensures TableBounded(Settle(t, sid, st, endStream))
  {
    RemoveKeepsBounds(t, sid);
    if sid in t.streams {
      assert t.streams[sid := st].Keys == t.streams.Keys;
    }
  }

  lemma FinishKeepsBounds<D>(c: Codec<D>, d: Dir<D>)
    requires TableBounded(d.tab) && !d.Poisoned()
    ensures Bounded(FinishBlock(c, d))
  {
    var out := c.decode(d.dec, d.frag).1;
    if out.Fields? && !Refuses(d.tab, d.target) {
      SettleKeepsBounds(d.tab, d.target, AddBlock(EntryOf(d.tab, d.target), out.fields), d.endStream);
    }
  }

  lemma DataKeepsBounds(t: Table, sid: nat, p: Bytes, endStream: bool)
    requires TableBounded(t)
    ensures TableBounded(DataArrives(t, sid, p, endStream))
  {
    hide Settle;
    if !Refuses(t, sid) {
      SettleKeepsBounds(t, sid, WriteBody(EntryOf(t, sid), p), endStream);
    }
  }

  lemma PoisonKeepsBounds<D>(d: Dir<D>, reason: Reason)
    requires TableBounded(d.tab) && !d.Poisoned() && reason != NoReason
    ensures Bounded(Poison(d, reason))
  {
  }

  lemma BeginKeepsBounds<D>(c: Codec<D>, d: Dir<D>, contStream: nat, target: nat, endStream: bool, frag: Bytes,
                            endHeaders: bool)
    requires TableBounded(d.tab) && !d.Poisoned()
    ensures Bounded(BeginBlock(c, d, contStream, target, endStream, frag, endHeaders))
  {
    hide TableBounded, FinishBlock, Poison;
    var d' := d.(assembling := true, contStream := contStream, target := target, endStream := endStream, frag := frag);
    PoisonKeepsBounds(d', BlockTooLarge);
    FinishKeepsBounds(c, d');
  }

  lemma ContinuationKeepsBounds<D>(c: Codec<D>, d: Dir<D>, f: Frame)
    requires Bounded(d) && !d.Poisoned()
    ensures Bounded(OnContinuation(c, d, f))
  {
    hide TableBounded, FinishBlock, Poison, HasFlag;
    var d' := d.(frag := d.frag + f.payload);
    PoisonKeepsBounds(d, StrayContinuation);
    PoisonKeepsBounds(d, ContinuationOnWrongStream);
    PoisonKeepsBounds(d', ContinuationFlood);
    FinishKeepsBounds(c, d');
  }

  lemma HandleKeepsBounds<D>(c: Codec<D>, d: Dir<D>, f: Frame)
    requires Bounded(d) && !d.Poisoned()
    ensures Bounded(HandleFrame(c, d, f))
  {
    hide HasFlag, OpeningOf, DataBytes, DataArrives, TableBounded, BeginBlock, OnHeaders, OnPushPromise, OnContinuation;
    hide Poison;
    if d.assembling && (f.kind != CONTINUATION || f.stream != d.contStream) {
      PoisonKeepsBounds(d, Interleaved);
    } else if Opens(f) {
      HandleOpening(c, d, f);
      match OpeningOf(f)
      case Some(o) => BeginKeepsBounds(c, d, f.stream, o.target, o.endStream, o.frag, f.EndsHeaders());
      case None =>
        var reason :| reason != NoReason && HandleFrame(c, d, f) == Poison(d, reason);
        PoisonKeepsBounds(d, reason);
    } else if f.kind == CONTINUATION {
      ContinuationKeepsBounds(c, d, f);
    } else if f.kind == DATA {
      PoisonKeepsBounds(d, DataOnStream0);
      DataKeepsBounds(d.tab, f.stream, DataBytes(f), f.Ends());
    } else if f.kind == RST_STREAM {
      RemoveKeepsBounds(d.tab, f.stream);
    }
  }

  lemma {:induction false} RunKeepsBounds<D>(c: Codec<D>, d: Dir<D>, frames: seq<Frame>)
    requires Bounded(d)
    ensures Bounded(Run(c, d, frames))
  {
    if frames != [] {
      RunKeepsBounds(c, d, frames[..|frames| - 1]);
      var before := Run(c, d, frames[..|frames| - 1]);
      if !before.Poisoned() {
        HandleKeepsBounds(c, before, frames[|frames| - 1]);
      }
    }
  }
}
