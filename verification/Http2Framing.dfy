/** Cutting frames out of a byte stream that arrives in arbitrary pieces (section 4.1 of RFC 9113), and
    the theorem that the cuts do not matter. */
module Http2Framing {
  import opened Basics
  import opened Hpack
  import opened Http2Spec

  // ---------- frames in a byte string ----------

  /** The length the frame header announces, header included. */
  function Announced(b: Bytes): (n: nat)
    requires |b| >= FRAME_HEADER_LEN
    ensures n >= FRAME_HEADER_LEN
  {
    FRAME_HEADER_LEN + (b[0] as int) * 0x1_0000 + (b[1] as int) * 0x100 + b[2]
  }

  predicate HasFrame(b: Bytes) {
    |b| >= FRAME_HEADER_LEN && |b| >= Announced(b)
  }

  function FirstFrame(b: Bytes): Frame
    requires HasFrame(b)
  {
    Frame(b[3], b[4], StreamId(b[5..9]), b[FRAME_HEADER_LEN..Announced(b)])
  }

  function Frames(b: Bytes): seq<Frame> {
    if HasFrame(b) then [FirstFrame(b)] + Frames(b[Announced(b)..]) else []
  }

  /** What is left when every complete frame is cut off. */
  function Rest(b: Bytes): (r: Bytes)
    ensures !HasFrame(r) && |r| <= |b|
  {
    if HasFrame(b) then Rest(b[Announced(b)..]) else b
  }

  lemma SameAnnounced(a: Bytes, b: Bytes)
    requires |a| >= FRAME_HEADER_LEN
    ensures Announced(a + b) == Announced(a)
  {
  }

  /** The first frame stands at the front, whatever follows. */
  lemma SameFront(a: Bytes, b: Bytes)
    requires HasFrame(a)
    ensures HasFrame(a + b) && FirstFrame(a + b) == FirstFrame(a)
    ensures (a + b)[Announced(a)..] == a[Announced(a)..] + b
  {
    SameAnnounced(a, b);
    hide Announced, StreamId;
    assert (a + b)[5..9] == a[5..9];
    assert (a + b)[FRAME_HEADER_LEN..Announced(a)] == a[FRAME_HEADER_LEN..Announced(a)];
  }

  lemma FramesUnfold(b: Bytes)
    ensures if HasFrame(b) then
              var later := b[Announced(b)..];
              Frames(b) == [FirstFrame(b)] + Frames(later) && Rest(b) == Rest(later)
            else Frames(b) == [] && Rest(b) == b
  {
    hide HasFrame, FirstFrame, Announced;
  }

  /** Cutting early and appending later gives the frames and the remainder of the whole. */
  lemma {:induction false} FramesConcat(a: Bytes, b: Bytes)
    ensures Frames(a + b) == Frames(a) + Frames(Rest(a) + b)
    ensures Rest(a + b) == Rest(Rest(a) + b)
    decreases |a|
  {
    FramesUnfold(a);
    if HasFrame(a) {
      var later := a[Announced(a)..];
      assert |later| < |a|;
      SameAnnounced(a, b);
      SameFront(a, b);
      FramesUnfold(a + b);
      hide Frames, Rest, FirstFrame, Announced, HasFrame;
      FramesConcat(later, b);
      assert [FirstFrame(a)] + (Frames(later) + Frames(Rest(later) + b)) ==
        ([FirstFrame(a)] + Frames(later)) + Frames(Rest(later) + b);
    }
  }

  // ---------- the wire form of a frame ----------

  predicate Encodable(f: Frame) {
    f.stream < 0x8000_0000 && |f.payload| <= MAX_FRAME_SIZE
  }

  function Encode(f: Frame): Bytes
    requires Encodable(f)
  {
    var n := |f.payload|;
    [n / 0x1_0000, n / 0x100 % 0x100, n % 0x100, f.kind, f.flags,
     f.stream / 0x100_0000, f.stream / 0x1_0000 % 0x100, f.stream / 0x100 % 0x100, f.stream % 0x100]
    + f.payload
  }

  function EncodeAll(fs: seq<Frame>): Bytes
    requires forall f :: f in fs ==> Encodable(f)
  {
    if fs == [] then [] else Encode(fs[0]) + EncodeAll(fs[1..])
  }

  lemma TwoBytesUp(s: nat)
    ensures s / 0x100 / 0x100 == s / 0x1_0000
  {
  }

  lemma ThreeBytesUp(s: nat)
    ensures s / 0x1_0000 / 0x100 == s / 0x100_0000
  {
  }

  lemma Base256(s: nat)
    ensures (s / 0x100_0000) * 0x100_0000 + (s / 0x1_0000 % 0x100) * 0x1_0000 + (s / 0x100 % 0x100) * 0x100 +
              s % 0x100 == s
  {
    TwoBytesUp(s);
    ThreeBytesUp(s);
    var a, b, c := s / 0x100, s / 0x1_0000, s / 0x100_0000;
    assert s == a * 0x100 + s % 0x100 && a == b * 0x100 + a % 0x100 && b == c * 0x100 + b % 0x100;
  }

  lemma ThreeDigits(n: nat)
    ensures (n / 0x1_0000) * 0x1_0000 + (n / 0x100 % 0x100) * 0x100 + n % 0x100 == n
  {
    TwoBytesUp(n);
    var a, b := n / 0x100, n / 0x1_0000;
    assert n == a * 0x100 + n % 0x100 && a == b * 0x100 + a % 0x100;
  }

  lemma EncodedLength(f: Frame, tail: Bytes)
    requires Encodable(f)
    ensures Announced(Encode(f) + tail) == FRAME_HEADER_LEN + |f.payload|
  {
    ThreeDigits(|f.payload|);
  }

  lemma EncodedStream(f: Frame, tail: Bytes)
    requires Encodable(f)
    ensures StreamId((Encode(f) + tail)[5..9]) == f.stream
  {
    var b := Encode(f) + tail;
    Base256(f.stream);
    var id := b[5..9];
    assert id[0] == b[5] && id[1] == b[6] && id[2] == b[7] && id[3] == b[8];
  }

  lemma EncodeCuts(f: Frame, tail: Bytes)
    requires Encodable(f)
    ensures var b := Encode(f) + tail;
            HasFrame(b) && FirstFrame(b) == f && b[Announced(b)..] == tail
  {
    EncodedLength(f, tail);
    EncodedStream(f, tail);
    hide Announced, StreamId;
    var b := Encode(f) + tail;
    assert b[FRAME_HEADER_LEN..FRAME_HEADER_LEN + |f.payload|] == f.payload;
  }

  /** Round trip: the encodings of any frames, followed by bytes holding no complete frame, are cut
      into exactly those frames and leave exactly those bytes. */
  lemma {:induction false} FramesOfEncoding(fs: seq<Frame>, tail: Bytes)
    requires forall f :: f in fs ==> Encodable(f)
    requires !HasFrame(tail)
    ensures Frames(EncodeAll(fs) + tail) == fs && Rest(EncodeAll(fs) + tail) == tail
  {
    hide Encode, FirstFrame, Announced, HasFrame, Frames, Rest;
    FramesUnfold(EncodeAll(fs) + tail);
    if fs == [] {
      assert EncodeAll(fs) + tail == tail;
    } else {
      var later := EncodeAll(fs[1..]) + tail;
      assert EncodeAll(fs) + tail == Encode(fs[0]) + later;
      EncodeCuts(fs[0], later);
      FramesOfEncoding(fs[1..], tail);
    }
  }

  // ---------- feeding ----------

  /** A direction together with its buffer. */
  datatype Feeder<D> = Feeder(dir: Dir<D>, buf: Bytes)

  function NewFeeder<D>(c: Codec<D>): Feeder<D> { Feeder(Fresh(c), []) }

  function PoisonFeeder<D>(h: Feeder<D>, reason: Reason): Feeder<D> {
    if h.dir.Poisoned() then h else Feeder(Poison(h.dir, reason), [])
  }

  function Drain<D>(c: Codec<D>, h: Feeder<D>): Feeder<D>
    decreases |h.buf|
  {
    if h.dir.Poisoned() || !HasFrame(h.buf) then h
    else
      var dir := HandleFrame(c, h.dir, FirstFrame(h.buf));
      if dir.Poisoned() then Feeder(dir, []) else Drain(c, Feeder(dir, h.buf[Announced(h.buf)..]))
  }

  /** The guard of `feed`: would this piece overflow the buffer? */
  predicate Trips<D>(h: Feeder<D>, piece: Bytes) {
    !h.dir.Poisoned() && |h.buf| + |piece| > MAX_DIR_BUFFER
  }

  function Feed<D>(c: Codec<D>, h: Feeder<D>, piece: Bytes): Feeder<D> {
    if h.dir.Poisoned() then h
    else if Trips(h, piece) then PoisonFeeder(h, DirectionOverflow)
    else Drain(c, h.(buf := h.buf + piece))
  }

  function FeedAll<D>(c: Codec<D>, pieces: seq<Bytes>): Feeder<D> {
    if pieces == [] then NewFeeder(c)
    else Feed(c, FeedAll(c, pieces[..|pieces| - 1]), pieces[|pieces| - 1])
  }

  /** The reference: cut the whole byte string into frames at once and handle them in order. */
  function Reference<D>(c: Codec<D>, bytes: Bytes): Feeder<D> {
    var dir := Run(c, Fresh(c), Frames(bytes));
    Feeder(dir, if dir.Poisoned() then [] else Rest(bytes))
  }

  /** No frame handler poisons for overflow: only the guard of `feed` does. */
  lemma HandleNeverOverflows<D>(c: Codec<D>, d: Dir<D>, f: Frame)
    requires d.reason == NoReason
    ensures HandleFrame(c, d, f).reason !in {DirectionOverflow, CaptureGap}
  {
    hide HasFlag, StripPadding, StreamId, DataBytes, FieldsArrive, DataArrives;
  }

  lemma {:induction false} RunNeverOverflows<D>(c: Codec<D>, d: Dir<D>, fs: seq<Frame>)
    requires d.reason !in {DirectionOverflow, CaptureGap}
    ensures Run(c, d, fs).reason !in {DirectionOverflow, CaptureGap}
  {
    if fs != [] {
      RunNeverOverflows(c, d, fs[..|fs| - 1]);
      var before := Run(c, d, fs[..|fs| - 1]);
      if !before.Poisoned() {
        HandleNeverOverflows(c, before, fs[|fs| - 1]);
      }
    }
  }

  lemma {:induction false} PoisonedRunStops<D>(c: Codec<D>, d: Dir<D>, fs: seq<Frame>)
    requires d.Poisoned()
    ensures Run(c, d, fs) == d
  {
    if fs != [] {
      PoisonedRunStops(c, d, fs[..|fs| - 1]);
    }
  }

  /** The drain loop handles exactly the complete frames of the buffer, in order. */
  lemma {:induction false} DrainIsRun<D>(c: Codec<D>, h: Feeder<D>)
    requires h.dir.Poisoned() ==> h.buf == []
    ensures Drain(c, h).dir == Run(c, h.dir, Frames(h.buf))
    ensures Drain(c, h).buf == if Drain(c, h).dir.Poisoned() then [] else Rest(h.buf)
    decreases |h.buf|
  {
    if !h.dir.Poisoned() && HasFrame(h.buf) {
      var f, later := FirstFrame(h.buf), h.buf[Announced(h.buf)..];
      var dir := HandleFrame(c, h.dir, f);
      RunConcat(c, h.dir, [f], Frames(later));
      assert Run(c, h.dir, [f]) == dir by {
        assert [f] == [] + [f];
        RunSnoc(c, h.dir, [], f);
      }
      if dir.Poisoned() {
        PoisonedRunStops(c, dir, Frames(later));
      } else {
        DrainIsRun(c, Feeder(dir, later));
      }
    }
  }

  /** One call of `feed` that passes the guard continues the reference. */
  lemma FeedContinues<D>(c: Codec<D>, bytes: Bytes, piece: Bytes)
    requires !Trips(Reference(c, bytes), piece)
    ensures Feed(c, Reference(c, bytes), piece) == Reference(c, bytes + piece)
  {
    var h := Reference(c, bytes);
    FramesConcat(bytes, piece);
    RunConcat(c, Fresh(c), Frames(bytes), Frames(Rest(bytes) + piece));
    if h.dir.Poisoned() {
      PoisonedRunStops(c, h.dir, Frames(Rest(bytes) + piece));
    } else {
      DrainIsRun(c, h.(buf := h.buf + piece));
    }
  }

  predicate TripsAt<D>(c: Codec<D>, pieces: seq<Bytes>, k: nat)
    requires k < |pieces|
  {
    Trips(FeedAll(c, pieces[..k]), pieces[k])
  }

  lemma TripsAtPrefix<D>(c: Codec<D>, pieces: seq<Bytes>, k: nat)
    requires k < |pieces| - 1
    ensures TripsAt(c, pieces, k) == TripsAt(c, pieces[..|pieces| - 1], k)
  {
    assert pieces[..|pieces| - 1][..k] == pieces[..k];
  }

  lemma {:induction false} NoTripIsReference<D>(c: Codec<D>, pieces: seq<Bytes>)
    requires forall k :: 0 <= k < |pieces| ==> !TripsAt(c, pieces, k)
    ensures FeedAll(c, pieces) == Reference(c, Flatten(pieces))
  {
    if pieces == [] {
      assert Frames([]) == [];
    } else {
      var n := |pieces| - 1;
      forall k | 0 <= k < n ensures !TripsAt(c, pieces[..n], k) {
        TripsAtPrefix(c, pieces, k);
      }
      NoTripIsReference(c, pieces[..n]);
      assert !TripsAt(c, pieces, n);
      FeedContinues(c, Flatten(pieces[..n]), pieces[n]);
    }
  }

  lemma {:induction false} TripIsVisible<D>(c: Codec<D>, pieces: seq<Bytes>, k: nat)
    requires k < |pieces| && TripsAt(c, pieces, k)
    ensures FeedAll(c, pieces).dir.reason == DirectionOverflow
  {
    if k == |pieces| - 1 {
    } else {
      TripsAtPrefix(c, pieces, k);
      TripIsVisible(c, pieces[..|pieces| - 1], k);
    }
  }

  ghost predicate AnyTrip<D>(c: Codec<D>, pieces: seq<Bytes>) {
    exists k :: 0 <= k < |pieces| && TripsAt(c, pieces, k)
  }

  /** Segmentation independence with its exact condition: the result of feeding pieces is that of the
      whole byte string if and only if no call trips the buffer guard, and a trip is visible as the
      overflow reason. In particular two cuttings of one byte string without trips agree in stream
      table, decoder state, remaining buffer, poison reason and completions. */
  lemma {:induction false} SegmentationIndependence<D>(c: Codec<D>, pieces: seq<Bytes>)
    ensures FeedAll(c, pieces) == Reference(c, Flatten(pieces)) <==> !AnyTrip(c, pieces)
    ensures FeedAll(c, pieces).dir.reason == DirectionOverflow <==> AnyTrip(c, pieces)
  {
    RunNeverOverflows(c, Fresh(c), Frames(Flatten(pieces)));
    if AnyTrip(c, pieces) {
      var k :| 0 <= k < |pieces| && TripsAt(c, pieces, k);
      TripIsVisible(c, pieces, k);
    } else {
      NoTripIsReference(c, pieces);
    }
  }

  // ---------- completions under every cutting ----------

  lemma HandleQueueGrows<D>(c: Codec<D>, d: Dir<D>, f: Frame)
    requires !d.Poisoned()
    ensures d.tab.done <= HandleFrame(c, d, f).tab.done
    ensures HandleFrame(c, d, f).Poisoned() ==> HandleFrame(c, d, f).tab.done == d.tab.done
  {
    hide HasFlag, StripPadding, StreamId, DataBytes, AddBlock, WriteBody, EntryOf, Refuses;
  }

  lemma {:induction false} RunQueueGrows<D>(c: Codec<D>, d: Dir<D>, fs: seq<Frame>)
    ensures d.tab.done <= Run(c, d, fs).tab.done
  {
    if fs != [] {
      RunQueueGrows(c, d, fs[..|fs| - 1]);
      var before := Run(c, d, fs[..|fs| - 1]);
      if !before.Poisoned() {
        HandleQueueGrows(c, before, fs[|fs| - 1]);
      }
    }
  }

  /** The completions of a longer byte string extend those of a shorter one. */
  lemma ReferenceGrows<D>(c: Codec<D>, a: Bytes, b: Bytes)
    ensures Reference(c, a).dir.tab.done <= Reference(c, a + b).dir.tab.done
  {
    FramesConcat(a, b);
    RunConcat(c, Fresh(c), Frames(a), Frames(Rest(a) + b));
    RunQueueGrows(c, Reference(c, a).dir, Frames(Rest(a) + b));
  }

  // ---------- the guard never fires on small frames ----------

  /** Every frame announced in `b`, complete or not, is at most `size` bytes with its header. */
  predicate FramesWithin(b: Bytes, size: nat) {
    |b| >= FRAME_HEADER_LEN ==>
      Announced(b) <= size && (HasFrame(b) ==> FramesWithin(b[Announced(b)..], size))
  }

  lemma {:induction false} RestWithin(a: Bytes, b: Bytes, size: nat)
    requires FramesWithin(a + b, size) && size >= FRAME_HEADER_LEN
    ensures FramesWithin(a, size) && |Rest(a)| < size
    decreases |a|
  {
    if |a| >= FRAME_HEADER_LEN {
      assert Announced(a + b) == Announced(a);
      if HasFrame(a) {
        assert (a + b)[Announced(a)..] == a[Announced(a)..] + b;
        RestWithin(a[Announced(a)..], b, size);
      }
    }
  }

  /** What the reference holds back leaves room for one more piece. */
  lemma ReferenceFits<D>(c: Codec<D>, bytes: Bytes, next: Bytes, size: nat, piece: nat)
    requires FRAME_HEADER_LEN <= size && size - 1 + piece <= MAX_DIR_BUFFER && |next| <= piece
    requires FramesWithin(bytes + next, size)
    ensures FramesWithin(bytes, size) && !Trips(Reference(c, bytes), next)
  {
    hide FramesWithin, Rest, Frames, Run;
    RestWithin(bytes, next, size);
  }

  /** No false overflow: when frame size plus piece size stays within the buffer (counting that an
      incomplete frame is short of at least one byte), no call ever trips the guard. */
  lemma {:induction false} NoFalseOverflow<D>(c: Codec<D>, pieces: seq<Bytes>, size: nat, piece: nat)
    requires FRAME_HEADER_LEN <= size && size - 1 + piece <= MAX_DIR_BUFFER
    requires FramesWithin(Flatten(pieces), size)
    requires forall k :: 0 <= k < |pieces| ==> |pieces[k]| <= piece
    ensures FeedAll(c, pieces) == Reference(c, Flatten(pieces))
  {
    hide FramesWithin, Reference, Feed, Trips;
    if pieces == [] {
      TwoPieces(c, [], []);
    } else {
      var n := |pieces| - 1;
      var before, last := Flatten(pieces[..n]), pieces[n];
      assert Flatten(pieces) == before + last;
      ReferenceFits(c, before, last, size, piece);
      NoFalseOverflow(c, pieces[..n], size, piece);
      FeedContinues(c, before, last);
    }
  }

  lemma OnlyFrame(whole: Bytes)
    requires HasFrame(whole) && |whole| == Announced(whole)
    ensures Frames(whole) == [FirstFrame(whole)] && Rest(whole) == []
  {
    hide FirstFrame;
    assert whole[Announced(whole)..] == [];
    assert Frames([]) == [];
  }

  lemma RunOne<D>(c: Codec<D>, d: Dir<D>, f: Frame)
    requires !d.Poisoned()
    ensures Run(c, d, [f]) == HandleFrame(c, d, f)
  {
    hide HandleFrame;
    assert [f] == [] + [f];
    RunSnoc(c, d, [], f);
  }

  lemma FitsEmpty<D>(c: Codec<D>, piece: Bytes)
    requires |piece| <= MAX_DIR_BUFFER
    ensures Feed(c, NewFeeder(c), piece) == Reference(c, piece)
  {
    hide Feed, FeedAll, Reference, Poison;
    TwoPieces(c, [], []);
    assert [] + piece == piece;
    FeedContinues(c, [], piece);
  }

  lemma OneByteWaits<D>(c: Codec<D>, h: Feeder<D>, next: byte)
    requires !h.dir.Poisoned() && h.buf == []
    ensures Feed(c, h, [next]) == h.(buf := [next])
  {
    hide HandleFrame, Announced;
    assert [] + [next] == [next];
  }

  /** Without that bound the guard can fire on legal input, and then the cuts do matter: a frame of
      maximal size that no handler objects to, followed by one byte of the next, is accepted when the
      two arrive apart ... */
  lemma LongestFrameThenByte<D>(c: Codec<D>, whole: Bytes, next: byte)
    requires HasFrame(whole) && |whole| == Announced(whole)
    requires |whole| <= MAX_DIR_BUFFER && !HandleFrame(c, Fresh(c), FirstFrame(whole)).Poisoned()
    ensures !FeedAll(c, [whole, [next]]).dir.Poisoned()
  {
    hide HandleFrame, Feed, FeedAll, Frames, Rest, Run, HasFrame, Announced, FirstFrame;
    OnlyFrame(whole);
    RunOne(c, Fresh(c), FirstFrame(whole));
    TwoPieces(c, whole, [next]);
    FitsEmpty(c, whole);
    OneByteWaits(c, Reference(c, whole), next);
  }

  /** ... and poisons when the frame's last byte arrives together with the extra one. */
  lemma LongestFrameCutShort<D>(c: Codec<D>, whole: Bytes, last: byte, next: byte)
    requires |whole| == MAX_DIR_BUFFER - 1 && Announced(whole) == MAX_DIR_BUFFER
    ensures FeedAll(c, [whole, [last, next]]).dir.reason == DirectionOverflow
  {
    hide HandleFrame, Drain, Announced;
    TwoPieces(c, whole, [last, next]);
    FitsEmpty(c, whole);
    assert Frames(whole) == [] && Rest(whole) == whole;
  }

  /** A PING frame of the greatest length is such a frame. */
  lemma LongestPing<D>(c: Codec<D>, next: byte)
    ensures var head: Bytes := [255, 255, 255, 6, 0, 0, 0, 0, 0] + seq(MAX_FRAME_SIZE - 1, _ => 0);
            && head + [0] + [next] == head + [0, next]
            && !FeedAll(c, [head + [0], [next]]).dir.Poisoned()
            && FeedAll(c, [head, [0, next]]).dir.reason == DirectionOverflow
  {
    var head: Bytes := [255, 255, 255, 6, 0, 0, 0, 0, 0] + seq(MAX_FRAME_SIZE - 1, _ => 0);
    var whole := head + [0];
    assert Announced(head) == Announced(whole) == MAX_DIR_BUFFER;
    assert FirstFrame(whole).kind == 6;
    LongestFrameThenByte(c, whole, next);
    LongestFrameCutShort(c, head, 0, next);
  }

  lemma TwoPieces<D>(c: Codec<D>, a: Bytes, b: Bytes)
    ensures FeedAll(c, [a, b]) == Feed(c, Feed(c, NewFeeder(c), a), b)
    ensures NewFeeder(c) == Reference(c, [])
  {
    assert [a, b][..1] == [a] && [a][..0] == [];
    assert FeedAll(c, [a]) == Feed(c, NewFeeder(c), a);
    assert Frames([]) == [];
  }
}
