/** The HTTP/2 reassembler as it runs: mutable directions whose stream entries live on the heap. */
module Http2 {
  import opened Basics
  import opened Hpack
  import opened Messages
  import opened Http2Spec
  import opened Http2Framing

  class H2Stream {
    var headers: seq<Field>
    var gotHeader: bool
    var body: Bytes
    var bodyTrunc: bool
    ghost const owner: object // the direction that created the entry
    ghost const id: nat // the stream it was created for
    ghost var ticket: Option<nat> // its number among the direction's completions, once completed

    constructor (ghost direction: object, ghost sid: nat)
      ensures Value() == NEW_STREAM && owner == direction && id == sid && ticket == None
    {
      headers, gotHeader, body, bodyTrunc := [], false, [], false;
      owner, id, ticket := direction, sid, None;
    }

    ghost function Value(): Stream
      reads this
    {
      Stream(headers, gotHeader, body, bodyTrunc)
    }

    method TakeBlock(fields: seq<Field>)
      modifies `headers, `gotHeader
      ensures Value() == AddBlock(old(Value()), fields)
    {
      if !gotHeader {
        headers := fields;
        gotHeader := true;
      } else {
        headers := headers + fields;
      }
    }

    method TakeData(p: Bytes)
      modifies `body, `bodyTrunc
      ensures Value() == WriteBody(old(Value()), p)
    {
      if |p| > 0 && !bodyTrunc {
        var room := MAX_BODY_PER_STREAM - |body|;
        if room <= 0 {
          bodyTrunc := true;
        } else if |p| > room {
          body := body + p[..room];
          bodyTrunc := true;
        } else {
          body := body + p;
        }
      }
    }
  }

  datatype FinishedRef = FinishedRef(streamID: nat, st: H2Stream)

  class H2Direction<D> {
    const codec: Codec<D>
    var dec: D
    var buf: Bytes
    var streams: map<nat, H2Stream>
    var done: seq<FinishedRef>
    var poisoned: bool
    var reason: Reason
    var assembling: bool
    var contStream: nat
    var target: nat
    var endStream: bool
    var frag: Bytes

    // What the stream table and the queue hold, as values.
    ghost var tab: Table
    ghost var handed: nat // completions already handed to the caller
    ghost var queued: set<H2Stream> // the entries of the queue

    ghost function Entries(): set<H2Stream>
      reads this
    {
      streams.Values + queued
    }

    /** The open entries are `m`; each belongs to one stream and has no completion number. */
    ghost predicate Opened(m: map<nat, Stream>)
      reads this`streams, streams.Values
    {
      && streams.Keys == m.Keys
      && forall sid :: sid in streams ==>
           && streams[sid].owner == this && streams[sid].id == sid && streams[sid].ticket == None
           && streams[sid].Value() == m[sid]
    }

    /** The queue is `q`; its entries are numbered in the order they completed. */
    ghost predicate Queued(q: seq<Finished>)
      reads this`done, this`handed, this`queued, queued
    {
      && |done| == |q| && (done == [] ==> queued == {})
      && (forall st :: st in queued ==> st.owner == this && st.ticket != None)
      && forall k :: 0 <= k < |done| ==>
           && done[k].st in queued && done[k].st.ticket == Some(handed + k)
           && q[k] == Finished(done[k].streamID, done[k].st.Value())
    }

    /** The heap invariant: no two streams share an entry, no entry is queued twice, and a queued entry is never
        open. */
    ghost predicate Linked()
      reads this, Entries()
    {
      && (poisoned <==> reason != NoReason)
      && (poisoned ==> buf == [])
      && Opened(tab.streams) && Queued(tab.done)
    }

    lemma NotQueued(st: H2Stream)
      requires Queued(tab.done) && st.ticket == None
      ensures st !in queued && |done| == |tab.done|
    {
    }

    lemma NoneOpen()
      requires streams == map[]
      ensures Opened(map[])
    {
    }

    lemma OneEntryEach(sid: nat)
      requires Opened(tab.streams)
      ensures sid in streams <==> sid in tab.streams
      ensures sid in streams ==> streams[sid].Value() == tab.streams[sid]
      ensures |streams| == |tab.streams|
    {
      assert |streams.Keys| == |tab.streams.Keys|;
    }

    lemma NotOpenElsewhere(sid: nat, st: H2Stream)
      requires Opened(tab.streams) && sid in streams && streams[sid] == st
      ensures st.ticket == None && st.owner == this && st.Value() == tab.streams[sid] && sid in tab.streams
      ensures forall other :: other in streams && other != sid ==> streams[other] != st
    {
    }

    /** A new entry joins the open ones. */
    twostate lemma Joined(sid: nat, new st: H2Stream)
      requires old(Opened(tab.streams)) && streams == old(streams)[sid := st]
      requires st.owner == this && st.id == sid && st.ticket == None
      requires forall other: H2Stream :: other in old(streams).Values ==> unchanged(other)
      ensures Opened(old(tab.streams)[sid := st.Value()])
    {
      forall other | other in streams && other != sid
        ensures streams[other].Value() == old(tab.streams)[other] && unchanged(streams[other])
      {
        assert streams[other] in old(streams).Values;
      }
    }

    /** What one open entry's new value does to the table. */
    twostate lemma Regrown(sid: nat)
      requires old(Opened(tab.streams)) && streams == old(streams) && sid in streams
      requires streams[sid].ticket == None
      requires forall st: H2Stream :: st in streams.Values && st != streams[sid] ==> unchanged(st)
      ensures Opened(old(tab.streams)[sid := streams[sid].Value()])
    {
      forall other | other in streams && other != sid
        ensures streams[other].Value() == old(tab.streams)[other] && unchanged(streams[other])
      {
        assert streams[other] in streams.Values && streams[other] != streams[sid];
      }
    }

    /** Taking one stream out of the table leaves the other entries open. */
    twostate lemma Shrunk(sid: nat)
      requires old(Opened(tab.streams)) && streams == old(streams) - {sid}
      requires forall st: H2Stream :: st in streams.Values ==> unchanged(st)
      ensures Opened(old(tab.streams) - {sid})
    {
      forall other | other in streams
        ensures streams[other].Value() == old(tab.streams)[other] && unchanged(streams[other])
      {
        assert streams[other] in streams.Values;
      }
    }

    /** An entry with the next number may join the queue. */
    twostate lemma Enqueued(sid: nat, new st: H2Stream)
      requires old(Queued(tab.done)) && handed == old(handed)
      requires done == old(done) + [FinishedRef(sid, st)] && queued == old(queued) + {st}
      requires st.owner == this && st.ticket == Some(handed + |old(done)|)
      requires forall other: H2Stream :: other in old(queued) ==> unchanged(other)
      ensures Queued(old(tab.done) + [Finished(sid, st.Value())])
    {
    }

    /** Every entry in the table was there before, under the same stream, or is new. */
    twostate predicate SameOrFresh()
      reads this
    {
      forall sid :: sid in streams ==> (sid in old(streams) && streams[sid] == old(streams)[sid]) || fresh(streams[sid])
    }

    ghost function State(): Dir<D>
      reads this
    {
      Dir(dec, tab, reason, assembling, contStream, target, endStream, frag)
    }

    ghost function Contents(): Feeder<D>
      reads this
    {
      Feeder(State(), buf)
    }

    ghost predicate Valid()
      reads this, Entries()
    {
      Linked() && Bounded(State())
    }

    constructor (codec: Codec<D>)
      ensures Valid() && Contents() == NewFeeder(codec) && this.codec == codec && streams == map[] && done == []
    {
      this.codec := codec;
      dec := codec.initial;
      buf, streams, done := [], map[], [];
      poisoned, reason := false, NoReason;
      assembling, contStream, target, endStream, frag := false, 0, 0, false, [];
      tab, handed, queued := EMPTY_TABLE, 0, {};
    }

    method SetPoison(why: Reason)
      requires Linked() && why != NoReason
      modifies this
      ensures Linked() && SameOrFresh() && State() == Poison(old(State()), why) && buf == []
      ensures done == old(done) && handed == old(handed)
    {
      hide H2Direction.Opened, H2Direction.Queued;
      if !poisoned {
        poisoned, reason, buf, frag, assembling := true, why, [], [], false;
        streams, tab := map[], tab.(streams := map[]);
        NoneOpen();
      }
    }

    /** The open entry of a stream, created when the table has room; `null` when it has not. */
    method Entry(sid: nat) returns (st: H2Stream?)
      requires Linked()
      modifies this`streams, this`tab
      ensures Linked()
      ensures st == null <==> Refuses(old(tab), sid)
      ensures st == null ==> tab == old(tab)
      ensures st != null ==> sid in streams && streams[sid] == st && st.Value() == EntryOf(old(tab), sid)
      ensures st != null ==> tab == Stored(old(tab), sid, st.Value())
      ensures SameOrFresh()
    {
      hide H2Direction.Opened, H2Direction.Queued;
      OneEntryEach(sid);
      if sid in streams {
        st := streams[sid];
        StoredAgain(tab, sid, st.Value(), st.Value());
      } else if |streams| >= MAX_STREAMS {
        st := null;
      } else {
        st := new H2Stream(this, sid);
        label created:
        streams := streams[sid := st];
        Joined@created(sid, st);
        tab := Stored(tab, sid, NEW_STREAM);
      }
    }

    method GiveBlock(sid: nat, st: H2Stream, fields: seq<Field>)
      requires Linked() && sid in streams && streams[sid] == st
      modifies st`headers, st`gotHeader, this`tab
      ensures Linked() && st.Value() == AddBlock(old(st.Value()), fields)
      ensures tab == Stored(old(tab), sid, st.Value())
    {
      hide AddBlock, H2Direction.Opened, H2Direction.Queued;
      NotOpenElsewhere(sid, st);
      NotQueued(st);
      st.TakeBlock(fields);
      Regrown(sid);
      tab := Stored(tab, sid, st.Value());
    }

    method GiveData(sid: nat, st: H2Stream, p: Bytes)
      requires Linked() && sid in streams && streams[sid] == st
      modifies st`body, st`bodyTrunc, this`tab
      ensures Linked() && st.Value() == WriteBody(old(st.Value()), p)
      ensures tab == Stored(old(tab), sid, st.Value())
    {
      hide WriteBody, H2Direction.Opened, H2Direction.Queued;
      NotOpenElsewhere(sid, st);
      NotQueued(st);
      st.TakeData(p);
      Regrown(sid);
      tab := Stored(tab, sid, st.Value());
    }

    /** Close an entry: queue it if it has a header block, forget it otherwise. */
    method Complete(sid: nat, st: H2Stream)
      requires Linked() && sid in streams && streams[sid] == st
      modifies this`streams, this`done, this`queued, this`tab, st`ticket
      ensures Linked() && SameOrFresh()
      ensures tab == CompleteStream(old(tab), sid, st.Value())
    {
      hide H2Direction.Opened, H2Direction.Queued;
      NotOpenElsewhere(sid, st);
      NotQueued(st);
      streams := streams - {sid};
      Shrunk(sid);
      if st.gotHeader {
        st.ticket := Some(handed + |done|);
        label numbered:
        done, queued := done + [FinishedRef(sid, st)], queued + {st};
        Enqueued@numbered(sid, st);
      }
      tab := CompleteStream(tab, sid, st.Value());
    }

    /** After an entry found in `before` has grown to its present value: complete it if its stream ended. */
    method SettleEntry(sid: nat, st: H2Stream, ends: bool, ghost before: Table, ghost found: Stream)
      requires Linked() && sid in streams && streams[sid] == st
      requires tab == Stored(Stored(before, sid, found), sid, st.Value())
      modifies this`streams, this`tab, this`done, this`queued, st`ticket
      ensures Linked() && SameOrFresh() && tab == Settle(before, sid, st.Value(), ends)
    {
      hide H2Direction.Opened, H2Direction.Queued, CompleteStream, Stored;
      StoredAgain(before, sid, found, st.Value());
      if ends {
        StoredAgain(before, sid, st.Value(), st.Value());
        Complete(sid, st);
      }
    }

    /** The second half of `finishBlock`: file the decoded fields under the target stream. */
    method FileFields(fields: seq<Field>)
      requires Linked()
      modifies this`streams, this`tab, this`done, this`queued, streams.Values
      ensures Linked() && SameOrFresh() && tab == FieldsArrive(old(tab), target, fields, endStream)
    {
      hide AddBlock, Settle, Stored, H2Direction.Opened, H2Direction.Queued;
      var st := Entry(target);
      if st != null {
        ghost var found := st.Value();
        GiveBlock(target, st, fields);
        SettleEntry(target, st, endStream, old(tab), found);
      }
    }

    /** Decode the collected block; the decoder advances whether or not the block is sound. */
    method DecodeBlock() returns (out: Decoded)
      requires Linked()
      modifies this`dec, this`assembling, this`frag
      ensures Linked() && out == codec.decode(old(dec), old(frag)).1
      ensures State() == old(State()).(dec := codec.decode(old(dec), old(frag)).0, assembling := false, frag := [])
    {
      hide H2Direction.Opened, H2Direction.Queued;
      var (dec', result) := codec.decode(dec, frag);
      dec, assembling, frag, out := dec', false, [], result;
    }

    method Finish()
      requires Linked() && !poisoned
      modifies this, streams.Values
      ensures Linked() && SameOrFresh() && State() == FinishBlock(codec, old(State()))
      ensures !poisoned ==> buf == old(buf)
      ensures handed == old(handed)
    {
      hide FieldsArrive, H2Direction.Opened, H2Direction.Queued;
      var out := DecodeBlock();
      if out.BadBlock? {
        SetPoison(HpackError(out.message));
      } else {
        FileFields(out.fields);
      }
    }

    method StartBlock(cont: nat, tgt: nat, ends: bool, fragment: Bytes)
      requires Linked()
      modifies this`assembling, this`contStream, this`target, this`endStream, this`frag
      ensures Linked()
      ensures State() == old(State()).(assembling := true, contStream := cont, target := tgt,
                                       endStream := ends, frag := fragment)
    {
      hide H2Direction.Opened, H2Direction.Queued;
      assembling, contStream, target, endStream, frag := true, cont, tgt, ends, fragment;
    }

    method BeginBlockOn(cont: nat, tgt: nat, ends: bool, fragment: Bytes, endHeaders: bool)
      requires Linked() && !poisoned
      modifies this, streams.Values
      ensures Linked() && SameOrFresh()
      ensures State() == BeginBlock(codec, old(State()), cont, tgt, ends, fragment, endHeaders)
      ensures !poisoned ==> buf == old(buf)
      ensures handed == old(handed)
    {
      hide FinishBlock, H2Direction.Opened, H2Direction.Queued;
      StartBlock(cont, tgt, ends, fragment);
      if |frag| > MAX_HEADER_BLOCK {
        SetPoison(BlockTooLarge);
      } else if endHeaders {
        Finish();
      }
    }

    method TakeHeaders(f: Frame)
      requires Linked() && !poisoned
      modifies this, streams.Values
      ensures Linked() && SameOrFresh() && State() == OnHeaders(codec, old(State()), f)
      ensures !poisoned ==> buf == old(buf)
      ensures handed == old(handed)
    {
      hide BeginBlock, HasFlag, H2Direction.Opened, H2Direction.Queued;
      if f.stream == 0 {
        SetPoison(HeadersOnStream0);
        return;
      }
      var p := f.payload;
      if f.Padded() {
        var stripped := StripPadding(p);
        if stripped.None? {
          SetPoison(BadHeadersPadding);
          return;
        }
        p := stripped.value;
      }
      if f.Prioritised() {
        if |p| < 5 {
          SetPoison(HeadersPriorityUnderflow);
          return;
        }
        p := p[5..];
      }
      BeginBlockOn(f.stream, f.stream, f.Ends(), p, f.EndsHeaders());
    }

    method TakePushPromise(f: Frame)
      requires Linked() && !poisoned
      modifies this, streams.Values
      ensures Linked() && SameOrFresh() && State() == OnPushPromise(codec, old(State()), f)
      ensures !poisoned ==> buf == old(buf)
      ensures handed == old(handed)
    {
      hide BeginBlock, HasFlag, StreamId, H2Direction.Opened, H2Direction.Queued;
      var p := f.payload;
      if f.Padded() {
        var stripped := StripPadding(p);
        if stripped.None? {
          SetPoison(BadPushPadding);
          return;
        }
        p := stripped.value;
      }
      if |p| < 4 {
        SetPoison(PushUnderflow);
        return;
      }
      BeginBlockOn(f.stream, StreamId(p), false, p[4..], f.EndsHeaders());
    }

    method TakeContinuation(f: Frame)
      requires Linked() && !poisoned
      modifies this, streams.Values
      ensures Linked() && SameOrFresh() && State() == OnContinuation(codec, old(State()), f)
      ensures !poisoned ==> buf == old(buf)
      ensures handed == old(handed)
    {
      hide FinishBlock, HasFlag, H2Direction.Opened, H2Direction.Queued;
      if !assembling {
        SetPoison(StrayContinuation);
        return;
      }
      if f.stream != contStream {
        SetPoison(ContinuationOnWrongStream);
        return;
      }
      frag := frag + f.payload;
      if |frag| > MAX_HEADER_BLOCK {
        SetPoison(ContinuationFlood);
      } else if f.EndsHeaders() {
        Finish();
      }
    }

    method FileData(sid: nat, p: Bytes, ends: bool)
      requires Linked()
      modifies this`streams, this`tab, this`done, this`queued, streams.Values
      ensures Linked() && SameOrFresh() && tab == DataArrives(old(tab), sid, p, ends)
    {
      hide WriteBody, Settle, Stored, H2Direction.Opened, H2Direction.Queued;
      var st := Entry(sid);
      if st != null {
        ghost var found := st.Value();
        GiveData(sid, st, p);
        SettleEntry(sid, st, ends, old(tab), found);
      }
    }

    method TakeDataFrame(f: Frame)
      requires Linked() && !poisoned
      modifies this, streams.Values
      ensures Linked() && SameOrFresh() && State() == OnData(old(State()), f)
      ensures !poisoned ==> buf == old(buf)
      ensures handed == old(handed)
    {
      hide DataArrives, HasFlag, H2Direction.Opened, H2Direction.Queued;
      if f.stream == 0 {
        SetPoison(DataOnStream0);
        return;
      }
      var p := f.payload;
      if f.Padded() {
        var stripped := StripPadding(p);
        p := if stripped.Some? then stripped.value else [];
      }
      FileData(f.stream, p, f.Ends());
    }

    method Reset(sid: nat)
      requires Linked()
      modifies this`streams, this`tab
      ensures Linked() && SameOrFresh() && tab == ResetArrives(old(tab), sid)
    {
      hide H2Direction.Queued;
      streams, tab := streams - {sid}, ResetArrives(tab, sid);
    }

    method Dispatch(f: Frame)
      requires Linked() && !poisoned
      modifies this, streams.Values
      ensures Linked() && SameOrFresh() && State() == HandleFrame(codec, old(State()), f)
      ensures !poisoned ==> buf == old(buf)
      ensures handed == old(handed)
    {
      hide OnHeaders, OnContinuation, OnData, OnPushPromise, H2Direction.Opened, H2Direction.Queued;
      if assembling && (f.kind != CONTINUATION || f.stream != contStream) {
        SetPoison(Interleaved);
      } else if f.kind == HEADERS {
        TakeHeaders(f);
      } else if f.kind == CONTINUATION {
        TakeContinuation(f);
      } else if f.kind == DATA {
        TakeDataFrame(f);
      } else if f.kind == PUSH_PROMISE {
        TakePushPromise(f);
      } else if f.kind == RST_STREAM {
        Reset(f.stream);
      }
    }

    method CutFront(total: nat)
      requires Valid() && !poisoned && total <= |buf|
      modifies this`buf
      ensures Valid() && buf == old(buf)[total..]
    {
      hide Bounded, H2Direction.Opened, H2Direction.Queued;
      buf := buf[total..];
    }

    /** Handle the frame at the front of the buffer, if it is there, and cut it off. */
    method TakeFrame() returns (more: bool)
      requires Valid() && !poisoned
      modifies this, streams.Values
      ensures Valid() && SameOrFresh() && handed == old(handed)
      ensures more <==> HasFrame(old(buf))
      ensures more ==> |buf| < |old(buf)|
      ensures !more ==> Contents() == old(Contents())
      ensures more ==>
                var dir := HandleFrame(codec, old(State()), FirstFrame(old(buf)));
                Contents() == Feeder(dir, if dir.Poisoned() then [] else old(buf)[Announced(old(buf))..])
    {
      hide HandleFrame, StreamId, H2Direction.Opened, H2Direction.Queued;
      if |buf| < FRAME_HEADER_LEN {
        return false;
      }
      var total := FRAME_HEADER_LEN + (buf[0] as int) * 0x1_0000 + (buf[1] as int) * 0x100 + buf[2];
      if |buf| < total {
        return false;
      }
      var f := Frame(buf[3], buf[4], StreamId(buf[5..9]), buf[FRAME_HEADER_LEN..total]);
      HandleKeepsBounds(codec, State(), f);
      assert f == FirstFrame(buf) && total == Announced(buf);
      Dispatch(f);
      if !poisoned {
        CutFront(total);
      }
      return true;
    }

    /** Consume every complete frame that is buffered. A 24-bit length is never above the maximum, so it is not
        tested. */
    method DrainBuffer()
      requires Valid()
      modifies this, streams.Values
      ensures Valid() && SameOrFresh() && Contents() == Drain(codec, old(Contents()))
      ensures handed == old(handed)
    {
      hide HandleFrame, HasFrame, FirstFrame, Bounded, H2Direction.Opened, H2Direction.Queued;
      while !poisoned
        invariant Valid() && SameOrFresh() && handed == old(handed)
        invariant Drain(codec, Contents()) == Drain(codec, old(Contents()))
        decreases |buf|
      {
        var more := TakeFrame();
        if !more {
          break;
        }
      }
    }

    method FeedPiece(data: Bytes)
      requires Valid()
      modifies this, streams.Values
      ensures Valid() && SameOrFresh() && Contents() == Feed(codec, old(Contents()), data)
      ensures handed == old(handed)
    {
      hide Drain, H2Direction.Opened, H2Direction.Queued;
      if poisoned {
        return;
      }
      if |buf| + |data| > MAX_DIR_BUFFER {
        SetPoison(DirectionOverflow);
        return;
      }
      buf := buf + data;
      DrainBuffer();
    }

    /** Feed a read; one that may have lost bytes poisons the direction first. */
    method FeedMarked(data: Bytes, truncated: bool)
      requires Valid()
      modifies this, streams.Values
      ensures Valid() && SameOrFresh() && Contents() == Fed(codec, old(Contents()), data, truncated)
    {
      hide Feed, H2Direction.Opened, H2Direction.Queued;
      if truncated {
        SetPoison(CaptureGap);
      }
      FeedPiece(data);
    }

    /** Empty the queue once its entries have been built into messages. */
    method ClearDone()
      requires Valid()
      modifies this`done, this`queued, this`tab, this`handed
      ensures Valid() && done == [] && Contents() == Cleared(old(Contents()))
    {
      hide H2Direction.Opened;
      handed := handed + |done|;
      done, queued, tab := [], {}, tab.(done := []);
    }
  }

  // ---------- a connection: two directions ----------

  datatype CompletedRequest = CompletedRequest(streamID: nat, request: HTTPRequest, bodyTruncated: bool)

  datatype CompletedResponse = CompletedResponse(streamID: nat, response: HTTPResponse, bodyTruncated: bool)

  function BuiltRequest(f: Finished): CompletedRequest {
    CompletedRequest(f.streamID, RequestOf("HTTP/2", f.st.headers, f.st.body), f.st.bodyTrunc)
  }

  function BuiltResponse(f: Finished): CompletedResponse {
    CompletedResponse(f.streamID, ResponseOf("HTTP/2", f.st.headers, f.st.body), f.st.bodyTrunc)
  }

  /** A message names its stream, is built from the fields and the body of its entry, and is marked if the body was
      cut. */
  lemma BuiltDescribed(f: Finished)
    ensures var r := BuiltRequest(f);
            && r.streamID == f.streamID && r.bodyTruncated == f.st.bodyTrunc
            && DescribesRequest(r.request, "HTTP/2", f.st.headers, f.st.body)
    ensures var r := BuiltResponse(f);
            && r.streamID == f.streamID && r.bodyTruncated == f.st.bodyTrunc
            && DescribesResponse(r.response, "HTTP/2", f.st.headers, f.st.body)
  {
    hide DescribesRequest, DescribesResponse, RequestOf, ResponseOf;
    MessagesDescribed("HTTP/2", f.st.headers, f.st.body);
  }

  function BuiltRequests(done: seq<Finished>): seq<CompletedRequest> {
    seq(|done|, k requires 0 <= k < |done| => BuiltRequest(done[k]))
  }

  function BuiltResponses(done: seq<Finished>): seq<CompletedResponse> {
    seq(|done|, k requires 0 <= k < |done| => BuiltResponse(done[k]))
  }

  function Cleared<D>(h: Feeder<D>): Feeder<D> {
    h.(dir := h.dir.(tab := h.dir.tab.(done := [])))
  }

  /** One call of `FeedRequest` or `FeedResponse`, before its completions are taken out. */
  function Fed<D>(c: Codec<D>, h: Feeder<D>, data: Bytes, truncated: bool): Feeder<D> {
    Feed(c, if truncated then PoisonFeeder(h, CaptureGap) else h, data)
  }

  /** The messages a direction has completed and not yet handed out. */
  method BuildRequests<D>(d: H2Direction<D>) returns (out: seq<CompletedRequest>)
    requires d.Valid()
    ensures d.Valid() && out == BuiltRequests(d.tab.done)
  {
    hide DescribesRequest, DescribesResponse, Folded, RequestOf, ResponseOf;
    out := [];
    for k := 0 to |d.done|
      invariant |out| == k && forall j :: 0 <= j < k ==> out[j] == BuiltRequest(d.tab.done[j])
    {
      var f := d.done[k];
      assert f.st.Value() == d.tab.done[k].st;
      var request := BuildH2Request(f.st.headers, f.st.body);
      out := out + [CompletedRequest(f.streamID, request, f.st.bodyTrunc)];
    }
  }

  /** The messages a direction has completed and not yet handed out. */
  method BuildResponses<D>(d: H2Direction<D>) returns (out: seq<CompletedResponse>)
    requires d.Valid()
    ensures d.Valid() && out == BuiltResponses(d.tab.done)
  {
    hide DescribesRequest, DescribesResponse, Folded, RequestOf, ResponseOf;
    out := [];
    for k := 0 to |d.done|
      invariant |out| == k && forall j :: 0 <= j < k ==> out[j] == BuiltResponse(d.tab.done[j])
    {
      var f := d.done[k];
      assert f.st.Value() == d.tab.done[k].st;
      var response := BuildH2Response(f.st.headers, f.st.body);
      out := out + [CompletedResponse(f.streamID, response, f.st.bodyTrunc)];
    }
  }

  /** With nothing queued, a direction's entries are its own. */
  lemma OwnEntries<D>(d: H2Direction<D>)
    requires d.Valid() && d.done == []
    ensures forall st :: st in d.Entries() ==> st.owner == d
    ensures d.Entries() == d.streams.Values
  {
  }

  method ExchangeRequest<D>(d: H2Direction<D>, data: Bytes, truncated: bool) returns (out: seq<CompletedRequest>)
    requires d.Valid()
    modifies d, d.streams.Values
    ensures d.Valid() && d.SameOrFresh() && d.done == []
    ensures var fed := Fed(d.codec, old(d.Contents()), data, truncated);
            d.Contents() == Cleared(fed) && out == BuiltRequests(fed.dir.tab.done)
  {
    hide Fed;
    hide BuiltRequests, Bounded, H2Direction.Linked;
    d.FeedMarked(data, truncated);
    out := BuildRequests(d);
    d.ClearDone();
  }

  method ExchangeResponse<D>(d: H2Direction<D>, data: Bytes, truncated: bool) returns (out: seq<CompletedResponse>)
    requires d.Valid()
    modifies d, d.streams.Values
    ensures d.Valid() && d.SameOrFresh() && d.done == []
    ensures var fed := Fed(d.codec, old(d.Contents()), data, truncated);
            d.Contents() == Cleared(fed) && out == BuiltResponses(fed.dir.tab.done)
  {
    hide Fed;
    hide BuiltResponses, Bounded, H2Direction.Linked;
    d.FeedMarked(data, truncated);
    out := BuildResponses(d);
    d.ClearDone();
  }

  class HTTP2Conn<D> {
    const req: H2Direction<D>
    const resp: H2Direction<D>

    ghost function Entries(): set<object>
      reads this, req, resp
    {
      {req, resp} + req.Entries() + resp.Entries()
    }

    ghost predicate Valid()
      reads this, req, resp, Entries()
    {
      && req != resp && req.codec == resp.codec
      && req.Valid() && req.done == []
      && resp.Valid() && resp.done == []
    }

    constructor (codec: Codec<D>)
      ensures Valid() && req.codec == codec
      ensures req.Contents() == NewFeeder(codec) && resp.Contents() == NewFeeder(codec)
      ensures fresh(req) && fresh(resp) && req.streams == map[] && resp.streams == map[]
    {
      req := new H2Direction(codec);
      resp := new H2Direction(codec);
    }

    /** Feeds the request direction and hands out what it completed; the response direction is left
        alone. */
    method FeedRequest(data: Bytes, truncated: bool) returns (out: seq<CompletedRequest>)
      requires Valid()
      modifies req, req.streams.Values
      ensures Valid() && req.SameOrFresh()
      ensures resp.Contents() == old(resp.Contents()) && resp.streams == old(resp.streams)
      ensures var fed := Fed(req.codec, old(req.Contents()), data, truncated);
              req.Contents() == Cleared(fed) && out == BuiltRequests(fed.dir.tab.done)
    {
      hide Bounded, Fed, Cleared, H2Direction.Linked, H2Direction.Valid;
      OwnEntries(req);
      OwnEntries(resp);
      out := ExchangeRequest(req, data, truncated);
    }

    method FeedResponse(data: Bytes, truncated: bool) returns (out: seq<CompletedResponse>)
      requires Valid()
      modifies resp, resp.streams.Values
      ensures Valid() && resp.SameOrFresh()
      ensures req.Contents() == old(req.Contents()) && req.streams == old(req.streams)
      ensures var fed := Fed(resp.codec, old(resp.Contents()), data, truncated);
              resp.Contents() == Cleared(fed) && out == BuiltResponses(fed.dir.tab.done)
    {
      hide Bounded, Fed, Cleared, H2Direction.Linked, H2Direction.Valid;
      OwnEntries(req);
      OwnEntries(resp);
      out := ExchangeResponse(resp, data, truncated);
    }
  }
}
