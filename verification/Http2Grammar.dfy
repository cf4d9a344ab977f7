/** Which frame sequences a direction accepts, and what they mean: the frame language of sections 4.3,
    6.2, 6.6 and 6.10 of RFC 9113 as a grammar, and the state machine's agreement with it. */
module Http2Grammar {
  import opened Basics
  import opened Hpack
  import opened Http2Spec

  // ---------- the grammar ----------

  /** A frame on its own, or a header block: an opening frame and its CONTINUATION frames. */
  datatype Unit = Plain(f: Frame) | Headed(opener: Frame, conts: seq<Frame>)

  predicate PlainOk(f: Frame) {
    !Opens(f) && f.kind != CONTINUATION && (f.kind == DATA ==> f.stream != 0)
  }

  function Payloads(conts: seq<Frame>): Bytes {
    if conts == [] then [] else Payloads(conts[..|conts| - 1]) + conts[|conts| - 1].payload
  }

  /** The header block a run of frames carries: the opener's fragment, then the CONTINUATION payloads. */
  function BlockBytes(opener: Frame, conts: seq<Frame>): Bytes
    requires OpeningOf(opener).Some?
  {
    OpeningOf(opener).value.frag + Payloads(conts)
  }

  /** A sound opener, contiguous CONTINUATIONs on its stream, and a block within the size limit. */
  predicate BlockShape(opener: Frame, conts: seq<Frame>) {
    && Opens(opener) && OpeningOf(opener).Some?
    && (forall k :: 0 <= k < |conts| ==> conts[k].kind == CONTINUATION && conts[k].stream == opener.stream)
    && |BlockBytes(opener, conts)| <= MAX_HEADER_BLOCK
  }

  predicate NoneEnds(fs: seq<Frame>) {
    forall k :: 0 <= k < |fs| ==> !fs[k].EndsHeaders()
  }

  /** END_HEADERS is set on the last frame of the block and on no other. */
  predicate UnitOk(u: Unit) {
    match u
    case Plain(f) => PlainOk(f)
    case Headed(opener, conts) =>
      && BlockShape(opener, conts)
      && if conts == [] then opener.EndsHeaders()
         else !opener.EndsHeaders() && NoneEnds(conts[..|conts| - 1]) && conts[|conts| - 1].EndsHeaders()
  }

  predicate UnitsOk(us: seq<Unit>) {
    forall k :: 0 <= k < |us| ==> UnitOk(us[k])
  }

  /** The start of a header block whose END_HEADERS has not arrived, or nothing. */
  predicate PartialOk(fs: seq<Frame>) {
    fs == [] || (BlockShape(fs[0], fs[1..]) && !fs[0].EndsHeaders() && NoneEnds(fs[1..]))
  }

  function FramesOf(u: Unit): seq<Frame> {
    match u
    case Plain(f) => [f]
    case Headed(opener, conts) => [opener] + conts
  }

  function AllFrames(us: seq<Unit>): seq<Frame> {
    if us == [] then [] else AllFrames(us[..|us| - 1]) + FramesOf(us[|us| - 1])
  }

  /** The header blocks of the units, in wire order: those of PUSH_PROMISE included, and whatever
      becomes of the streams they belong to. */
  function Blocks(us: seq<Unit>): seq<Bytes>
    requires UnitsOk(us)
  {
    if us == [] then []
    else
      var init := Blocks(us[..|us| - 1]);
      match us[|us| - 1]
      case Plain(_) => init
      case Headed(opener, conts) => init + [BlockBytes(opener, conts)]
  }

  ghost predicate WellFormed<D>(c: Codec<D>, us: seq<Unit>) {
    UnitsOk(us) && AllDecode(c, Blocks(us))
  }

  /** `fs` reads as whole well-formed units, then the start of a sound block, whose bytes are not decoded yet. */
  ghost predicate Accepts<D>(c: Codec<D>, us: seq<Unit>, partial: seq<Frame>, fs: seq<Frame>) {
    WellFormed(c, us) && PartialOk(partial) && fs == AllFrames(us) + partial
  }

  // ---------- what the units mean for the stream table ----------

  datatype Event =
    | BlockEvent(stream: nat, fields: seq<Field>, ends: bool)
    | DataEvent(stream: nat, bytes: Bytes, ends: bool)
    | ResetEvent(stream: nat)

  function Apply(t: Table, e: Event): Table {
    match e
    case BlockEvent(sid, fields, ends) => FieldsArrive(t, sid, fields, ends)
    case DataEvent(sid, bytes, ends) => DataArrives(t, sid, bytes, ends)
    case ResetEvent(sid) => ResetArrives(t, sid)
  }

  function ApplyAll(es: seq<Event>): Table {
    if es == [] then EMPTY_TABLE else Apply(ApplyAll(es[..|es| - 1]), es[|es| - 1])
  }

  function PlainEvents(f: Frame): (es: seq<Event>)
    ensures |es| <= 1
  {
    if f.kind == DATA then [DataEvent(f.stream, DataBytes(f), f.Ends())]
    else if f.kind == RST_STREAM then [ResetEvent(f.stream)]
    else []
  }

  /** The events of the units, each header block decoded in the state its predecessors left. */
  ghost function Events<D>(c: Codec<D>, us: seq<Unit>): seq<Event>
    requires WellFormed(c, us)
  {
    if us == [] then []
    else
      var init, last := us[..|us| - 1], us[|us| - 1];
      WellFormedInit(c, us);
      Events(c, init) +
      match last
      case Plain(f) => PlainEvents(f)
      case Headed(opener, conts) =>
        var o := OpeningOf(opener).value;
        [BlockEvent(o.target, DecodedAt(c, Blocks(us), |Blocks(init)|).fields, o.endStream)]
  }

  lemma WellFormedInit<D>(c: Codec<D>, us: seq<Unit>)
    requires WellFormed(c, us) && us != []
    ensures WellFormed(c, us[..|us| - 1]) && UnitOk(us[|us| - 1])
    ensures us[|us| - 1].Headed? ==>
              var init := Blocks(us[..|us| - 1]);
              |Blocks(us)| == |init| + 1 && DecodedAt(c, Blocks(us), |init|).Fields?
  {
    var init, last := us[..|us| - 1], us[|us| - 1];
    assert UnitOk(last) && UnitsOk(init);
    if last.Headed? {
      DecodeSnoc(c, Blocks(init), BlockBytes(last.opener, last.conts));
    }
  }

  // ---------- running over one unit ----------

  /** The state in the middle of a block. */
  function Within<D>(d: Dir<D>, opener: Frame, conts: seq<Frame>): Dir<D>
    requires OpeningOf(opener).Some?
  {
    var o := OpeningOf(opener).value;
    d.(assembling := true, contStream := opener.stream, target := o.target, endStream := o.endStream,
       frag := BlockBytes(opener, conts))
  }

  predicate AtRest<D>(d: Dir<D>) { !d.Poisoned() && !d.assembling }

  lemma BlockBytesSnoc(opener: Frame, conts: seq<Frame>, f: Frame)
    requires OpeningOf(opener).Some?
    ensures BlockBytes(opener, conts + [f]) == BlockBytes(opener, conts) + f.payload
  {
    assert (conts + [f])[..|conts|] == conts;
  }

  lemma BlockShapeInit(opener: Frame, conts: seq<Frame>)
    requires BlockShape(opener, conts) && conts != []
    ensures BlockShape(opener, conts[..|conts| - 1])
  {
    hide Opens, OpeningOf, BlockBytes, HasFlag;
    var init, f := conts[..|conts| - 1], conts[|conts| - 1];
    assert conts == init + [f];
    BlockBytesSnoc(opener, init, f);
  }

  /** A block that starts within the limit is either finished at once or collected. */
  lemma BeginWithin<D>(c: Codec<D>, d: Dir<D>, opener: Frame)
    requires BlockShape(opener, [])
    ensures var o, inside := OpeningOf(opener).value, Within(d, opener, []);
            BeginBlock(c, d, opener.stream, o.target, o.endStream, o.frag, opener.EndsHeaders()) ==
            if opener.EndsHeaders() then FinishBlock(c, inside) else inside
  {
    hide OpeningOf, FinishBlock, HasFlag;
    assert BlockBytes(opener, []) == OpeningOf(opener).value.frag;
  }

  /** The first frame of a block ... */
  lemma RunOpener<D>(c: Codec<D>, d: Dir<D>, opener: Frame)
    requires AtRest(d) && BlockShape(opener, [])
    ensures var inside := Within(d, opener, []);
            Run(c, d, [opener]) == if opener.EndsHeaders() then FinishBlock(c, inside) else inside
  {
    hide HandleFrame, OpeningOf, BeginBlock, HasFlag;
    assert [opener] == [] + [opener];
    RunSnoc(c, d, [], opener);
    HandleOpening(c, d, opener);
    BeginWithin(c, d, opener);
  }

  /** ... and each further one. */
  lemma HandleFurther<D>(c: Codec<D>, d: Dir<D>, opener: Frame, conts: seq<Frame>, f: Frame)
    requires AtRest(d) && BlockShape(opener, conts + [f])
    ensures var inside := Within(d, opener, conts + [f]);
            HandleFrame(c, Within(d, opener, conts), f) == if f.EndsHeaders() then FinishBlock(c, inside) else inside
  {
    hide OpeningOf, BlockBytes, FinishBlock, HasFlag;
    BlockBytesSnoc(opener, conts, f);
    assert (conts + [f])[|conts|] == f;
  }

  /** A block without END_HEADERS is collected and changes nothing else. */
  lemma {:induction false} RunPartial<D>(c: Codec<D>, d: Dir<D>, opener: Frame, conts: seq<Frame>)
    requires AtRest(d) && BlockShape(opener, conts) && !opener.EndsHeaders() && NoneEnds(conts)
    ensures Run(c, d, [opener] + conts) == Within(d, opener, conts)
  {
    hide Run, HandleFrame, BlockShape, HasFlag;
    if conts == [] {
      assert [opener] + conts == [opener];
      RunOpener(c, d, opener);
    } else {
      var init, f := conts[..|conts| - 1], conts[|conts| - 1];
      BlockShapeInit(opener, conts);
      RunPartial(c, d, opener, init);
      assert conts == init + [f] && [opener] + conts == ([opener] + init) + [f];
      RunSnoc(c, d, [opener] + init, f);
      HandleFurther(c, d, opener, init, f);
    }
  }

  /** A whole block is decoded once, as one string. */
  lemma RunHeaded<D>(c: Codec<D>, d: Dir<D>, opener: Frame, conts: seq<Frame>)
    requires AtRest(d) && UnitOk(Headed(opener, conts))
    ensures Run(c, d, [opener] + conts) == FinishBlock(c, Within(d, opener, conts))
  {
    hide Run, HandleFrame, FinishBlock, BlockShape, HasFlag;
    if conts == [] {
      assert [opener] + conts == [opener];
      RunOpener(c, d, opener);
    } else {
      var init, f := conts[..|conts| - 1], conts[|conts| - 1];
      BlockShapeInit(opener, conts);
      RunPartial(c, d, opener, init);
      assert conts == init + [f] && [opener] + conts == ([opener] + init) + [f];
      RunSnoc(c, d, [opener] + init, f);
      HandleFurther(c, d, opener, init, f);
    }
  }

  // ---------- running over a sentence ----------

  /** A frame on its own touches neither the decoder nor an assembly. */
  lemma PlainStep<D>(c: Codec<D>, d: Dir<D>, f: Frame)
    requires AtRest(d) && PlainOk(f)
    ensures var d', es := HandleFrame(c, d, f), PlainEvents(f);
            AtRest(d') && d'.dec == d.dec && d'.tab == if es == [] then d.tab else Apply(d.tab, es[0])
  {
    hide HasFlag, DataBytes, DataArrives, ResetArrives, OnHeaders, OnPushPromise, OnContinuation;
  }

  /** A block that decodes becomes one event. */
  lemma FinishApplies<D>(c: Codec<D>, d: Dir<D>)
    requires !d.Poisoned()
    ensures var (dec, out) := c.decode(d.dec, d.frag);
            var d' := FinishBlock(c, d);
            out.Fields? ==>
              AtRest(d') && d'.dec == dec && d'.tab == Apply(d.tab, BlockEvent(d.target, out.fields, d.endStream))
  {
    hide FieldsArrive;
  }

  /** One unit, from a direction at rest. */
  lemma RunUnit<D>(c: Codec<D>, d: Dir<D>, u: Unit)
    requires AtRest(d) && UnitOk(u)
    requires u.Headed? ==> c.decode(d.dec, BlockBytes(u.opener, u.conts)).1.Fields?
    ensures AtRest(Run(c, d, FramesOf(u)))
    ensures u.Plain? ==>
              var d', es := Run(c, d, FramesOf(u)), PlainEvents(u.f);
              d'.dec == d.dec && d'.tab == if es == [] then d.tab else Apply(d.tab, es[0])
    ensures u.Headed? ==>
              var d', o := Run(c, d, FramesOf(u)), OpeningOf(u.opener).value;
              var (dec, out) := c.decode(d.dec, BlockBytes(u.opener, u.conts));
              d'.dec == dec && d'.tab == Apply(d.tab, BlockEvent(o.target, out.fields, o.endStream))
  {
    hide Run, HandleFrame, BlockBytes, OpeningOf, HasFlag, PlainOk, PlainEvents, Apply, NoneEnds;
    match u
    case Plain(f) =>
      assert [f] == [] + [f];
      RunNone(c, d);
      RunSnoc(c, d, [], f);
      PlainStep(c, d, f);
    case Headed(opener, conts) =>
      RunHeaded(c, d, opener, conts);
      FinishApplies(c, Within(d, opener, conts));
  }

  lemma ApplySnoc(es: seq<Event>, e: Event)
    ensures ApplyAll(es + [e]) == Apply(ApplyAll(es), e)
  {
    assert (es + [e])[..|es|] == es;
  }

  /** What the last unit adds to blocks and events. */
  lemma LastUnit<D>(c: Codec<D>, us: seq<Unit>)
    requires WellFormed(c, us) && us != []
    ensures var init, last := us[..|us| - 1], us[|us| - 1];
            && WellFormed(c, init) && UnitOk(last)
            && AllFrames(us) == AllFrames(init) + FramesOf(last)
            && (last.Plain? ==> Blocks(us) == Blocks(init) && Events(c, us) == Events(c, init) + PlainEvents(last.f))
            && (last.Headed? ==>
                  var block, o := BlockBytes(last.opener, last.conts), OpeningOf(last.opener).value;
                  var (dec, out) := c.decode(DecoderAfter(c, Blocks(init)), block);
                  && Blocks(us) == Blocks(init) + [block] && DecoderAfter(c, Blocks(us)) == dec && out.Fields?
                  && Events(c, us) == Events(c, init) + [BlockEvent(o.target, out.fields, o.endStream)])
  {
    hide DecodedAt, DecoderAfter, AllDecode, BlockBytes, OpeningOf, PlainOk, NoneEnds, HasFlag;
    WellFormedInit(c, us);
    var init, last := us[..|us| - 1], us[|us| - 1];
    if last.Headed? {
      DecodeSnoc(c, Blocks(init), BlockBytes(last.opener, last.conts));
    }
  }

  /** Over well-formed units the direction stays sound, its HPACK decoder is exactly the fold over the
      header blocks in wire order (section 4.3 of RFC 9113), and its stream table is the fold of the
      units' events. */
  lemma {:induction false} RunUnits<D>(c: Codec<D>, us: seq<Unit>)
    requires WellFormed(c, us)
    ensures var d := Run(c, Fresh(c), AllFrames(us));
            AtRest(d) && d.dec == DecoderAfter(c, Blocks(us)) && d.tab == ApplyAll(Events(c, us))
  {
    if us == [] {
      RunNone(c, Fresh(c));
    } else {
      hide Run, HandleFrame, Apply, ApplyAll, Events, Blocks, AllFrames, FramesOf, PlainEvents;
      hide BlockBytes, OpeningOf, UnitOk, UnitsOk, WellFormed, DecoderAfter, AtRest, Fresh;
      var init, last := us[..|us| - 1], us[|us| - 1];
      LastUnit(c, us);
      RunUnits(c, init);
      var d, es := Run(c, Fresh(c), AllFrames(init)), Events(c, init);
      RunConcat(c, Fresh(c), AllFrames(init), FramesOf(last));
      RunUnit(c, d, last);
      match last
      case Plain(f) =>
        if |PlainEvents(f)| == 1 {
          assert PlainEvents(f) == [PlainEvents(f)[0]];
          ApplySnoc(es, PlainEvents(f)[0]);
        } else {
          assert PlainEvents(f) == [] && es + [] == es;
        }
      case Headed(opener, conts) =>
        var o := OpeningOf(opener).value;
        var fields := c.decode(DecoderAfter(c, Blocks(init)), BlockBytes(opener, conts)).1.fields;
        ApplySnoc(es, BlockEvent(o.target, fields, o.endStream));
    }
  }

  /** The same with an unfinished block behind the units: it is collected, undecoded, and touches
      neither the decoder nor the table. */
  lemma {:induction false} RunSentence<D>(c: Codec<D>, us: seq<Unit>, partial: seq<Frame>, fs: seq<Frame>)
    requires Accepts(c, us, partial, fs)
    ensures var d := Run(c, Fresh(c), fs);
            && !d.Poisoned() && d.dec == DecoderAfter(c, Blocks(us)) && d.tab == ApplyAll(Events(c, us))
            && (d.assembling <==> partial != [])
            && (partial != [] ==> d.contStream == partial[0].stream && d.frag == BlockBytes(partial[0], partial[1..])
                                  && d == Within(Run(c, Fresh(c), AllFrames(us)), partial[0], partial[1..]))
  {
    hide Run, Fresh, AllFrames, WellFormed, UnitsOk, Blocks, DecoderAfter, Events, ApplyAll, BlockBytes, BlockShape;
    hide OpeningOf, NoneEnds;
    RunUnits(c, us);
    if partial == [] {
      assert AllFrames(us) + partial == AllFrames(us);
    } else {
      RunConcat(c, Fresh(c), AllFrames(us), partial);
      assert partial == [partial[0]] + partial[1..];
      RunPartial(c, Run(c, Fresh(c), AllFrames(us)), partial[0], partial[1..]);
    }
  }

  lemma AllFramesSnoc(us: seq<Unit>, u: Unit)
    ensures AllFrames(us + [u]) == AllFrames(us) + FramesOf(u)
  {
    hide FramesOf;
    assert (us + [u])[..|us|] == us;
  }

  lemma WellFormedSnoc<D>(c: Codec<D>, us: seq<Unit>, u: Unit)
    requires WellFormed(c, us) && UnitOk(u)
    requires u.Headed? ==> c.decode(DecoderAfter(c, Blocks(us)), BlockBytes(u.opener, u.conts)).1.Fields?
    ensures WellFormed(c, us + [u])
  {
    hide AllDecode, DecoderAfter, BlockBytes, OpeningOf, PlainOk, NoneEnds, HasFlag;
    assert (us + [u])[..|us|] == us;
    if u.Headed? {
      DecodeSnoc(c, Blocks(us), BlockBytes(u.opener, u.conts));
    }
  }

  // ---------- reading frames as units ----------

  lemma AcceptsNothing<D>(c: Codec<D>)
    ensures Accepts(c, [], [], [])
  {
  }

  /** A unit behind whole units. */
  lemma AcceptsUnit<D>(c: Codec<D>, us: seq<Unit>, fs: seq<Frame>, u: Unit)
    requires WellFormed(c, us) && fs == AllFrames(us) && UnitOk(u)
    requires u.Headed? ==> c.decode(DecoderAfter(c, Blocks(us)), BlockBytes(u.opener, u.conts)).1.Fields?
    ensures Accepts(c, us + [u], [], fs + FramesOf(u))
  {
    hide WellFormed, AllFrames, FramesOf, UnitOk, BlockBytes, DecoderAfter, Blocks;
    WellFormedSnoc(c, us, u);
    AllFramesSnoc(us, u);
    assert AllFrames(us + [u]) + [] == AllFrames(us + [u]);
  }

  /** A frame that a direction at rest takes without poison is a sound opener ... */
  lemma SoundOpener<D>(c: Codec<D>, d: Dir<D>, f: Frame)
    requires AtRest(d) && Opens(f) && !HandleFrame(c, d, f).Poisoned()
    ensures BlockShape(f, [])
    ensures f.EndsHeaders() ==> c.decode(d.dec, BlockBytes(f, [])).1.Fields?
  {
    hide HandleFrame, OpeningOf, HasFlag, FieldsArrive;
    HandleOpening(c, d, f);
    if OpeningOf(f).Some? {
      assert BlockBytes(f, []) == OpeningOf(f).value.frag;
    }
  }

  /** ... or a sound frame on its own. */
  lemma SoundPlain<D>(c: Codec<D>, d: Dir<D>, f: Frame)
    requires AtRest(d) && !Opens(f) && !HandleFrame(c, d, f).Poisoned()
    ensures PlainOk(f)
  {
    hide HasFlag, DataBytes, DataArrives, ResetArrives, OnHeaders, OnPushPromise;
  }

  /** Reading a unit boundary: one more frame after whole units. */
  lemma ExtendAtRest<D>(c: Codec<D>, us: seq<Unit>, fs: seq<Frame>, f: Frame)
    returns (us': seq<Unit>, partial': seq<Frame>)
    requires Accepts(c, us, [], fs) && !Run(c, Fresh(c), fs + [f]).Poisoned()
    ensures Accepts(c, us', partial', fs + [f])
  {
    RunSentence(c, us, [], fs);
    RunSnoc(c, Fresh(c), fs, f);
    assert fs == AllFrames(us);
    hide Run, HandleFrame, Opens, BlockShape, BlockBytes, WellFormed, AllFrames, PlainOk, NoneEnds, HasFlag;
    var d := Run(c, Fresh(c), fs);
    if !Opens(f) {
      SoundPlain(c, d, f);
      us', partial' := us + [Plain(f)], [];
      AcceptsUnit(c, us, fs, Plain(f));
    } else {
      SoundOpener(c, d, f);
      if f.EndsHeaders() {
        us', partial' := us + [Headed(f, [])], [];
        AcceptsUnit(c, us, fs, Headed(f, []));
        assert [f] + [] == [f];
      } else {
        us', partial' := us, [f];
        NoneIn();
        assert [f][1..] == [];
      }
    }
  }

  lemma NoneIn()
    ensures NoneEnds([])
  {
  }

  /** What a frame inside a block must be for the run to stay unpoisoned. */
  lemma StepWithin<D>(c: Codec<D>, d: Dir<D>, opener: Frame, conts: seq<Frame>, f: Frame)
    requires BlockShape(opener, conts) && !d.Poisoned()
    requires !HandleFrame(c, Within(d, opener, conts), f).Poisoned()
    ensures f.kind == CONTINUATION && f.stream == opener.stream
    ensures |BlockBytes(opener, conts) + f.payload| <= MAX_HEADER_BLOCK
    ensures f.EndsHeaders() ==> c.decode(d.dec, BlockBytes(opener, conts) + f.payload).1.Fields?
  {
    hide HasFlag, OpeningOf, BlockBytes, FieldsArrive;
  }

  /** In the middle of a block, the run is in the state `Within` of the units before it. */
  lemma RunIntoBlock<D>(c: Codec<D>, us: seq<Unit>, partial: seq<Frame>, fs: seq<Frame>, f: Frame)
    returns (d: Dir<D>)
    requires Accepts(c, us, partial, fs) && partial != []
    ensures AtRest(d) && d.dec == DecoderAfter(c, Blocks(us))
    ensures Run(c, Fresh(c), fs + [f]) == HandleFrame(c, Within(d, partial[0], partial[1..]), f)
  {
    hide Run, HandleFrame, BlockShape, WellFormed, AllFrames;
    d := Run(c, Fresh(c), AllFrames(us));
    RunUnits(c, us);
    RunSentence(c, us, partial, fs);
    RunSnoc(c, Fresh(c), fs, f);
  }

  /** A sound block grows by a sound frame. */
  lemma LongerBlock(opener: Frame, conts: seq<Frame>, f: Frame)
    requires BlockShape(opener, conts) && !opener.EndsHeaders() && NoneEnds(conts)
    requires f.kind == CONTINUATION && f.stream == opener.stream
    requires |BlockBytes(opener, conts) + f.payload| <= MAX_HEADER_BLOCK
    ensures BlockShape(opener, conts + [f])
    ensures BlockBytes(opener, conts + [f]) == BlockBytes(opener, conts) + f.payload
    ensures if f.EndsHeaders() then UnitOk(Headed(opener, conts + [f])) else NoneEnds(conts + [f])
  {
    hide HasFlag, OpeningOf, BlockBytes;
    BlockBytesSnoc(opener, conts, f);
    assert (conts + [f])[..|conts|] == conts;
  }

  /** Reading inside a block. */
  lemma ExtendWithin<D>(c: Codec<D>, us: seq<Unit>, partial: seq<Frame>, fs: seq<Frame>, f: Frame)
    returns (us': seq<Unit>, partial': seq<Frame>)
    requires Accepts(c, us, partial, fs) && partial != [] && !Run(c, Fresh(c), fs + [f]).Poisoned()
    ensures Accepts(c, us', partial', fs + [f])
  {
    hide HandleFrame, Run, BlockBytes, BlockShape, NoneEnds, WellFormed, AllFrames, UnitOk, HasFlag;
    var opener, conts := partial[0], partial[1..];
    var d := RunIntoBlock(c, us, partial, fs, f);
    StepWithin(c, d, opener, conts, f);
    LongerBlock(opener, conts, f);
    assert partial == [opener] + conts;
    assert AllFrames(us) + ([opener] + (conts + [f])) == fs + [f];
    if f.EndsHeaders() {
      us', partial' := us + [Headed(opener, conts + [f])], [];
      AcceptsUnit(c, us, AllFrames(us), Headed(opener, conts + [f]));
    } else {
      us', partial' := us, [opener] + (conts + [f]);
      assert partial'[1..] == conts + [f];
    }
  }

  /** Every unpoisoned run reads as whole units and the start of a block. */
  lemma {:induction false} Parse<D>(c: Codec<D>, fs: seq<Frame>) returns (us: seq<Unit>, partial: seq<Frame>)
    requires !Run(c, Fresh(c), fs).Poisoned()
    ensures Accepts(c, us, partial, fs)
  {
    if fs == [] {
      us, partial := [], [];
      AcceptsNothing(c);
    } else {
      var init, f := fs[..|fs| - 1], fs[|fs| - 1];
      assert fs == init + [f];
      hide HandleFrame, Accepts;
      RunSnoc(c, Fresh(c), init, f);
      us, partial := Parse(c, init);
      if partial == [] {
        us, partial := ExtendAtRest(c, us, init, f);
      } else {
        us, partial := ExtendWithin(c, us, partial, init, f);
      }
    }
  }

  /** Acceptance: a direction stays unpoisoned exactly on whole well-formed units followed by the start of a sound
      block. */
  lemma Acceptance<D>(c: Codec<D>, fs: seq<Frame>)
    ensures !Run(c, Fresh(c), fs).Poisoned() <==> exists us, partial :: Accepts(c, us, partial, fs)
  {
    if !Run(c, Fresh(c), fs).Poisoned() {
      var us, partial := Parse(c, fs);
    }
    forall us, partial | Accepts(c, us, partial, fs) ensures !Run(c, Fresh(c), fs).Poisoned() {
      RunSentence(c, us, partial, fs);
    }
  }

  /** A PUSH_PROMISE block completes no stream, whatever its flags. */
  lemma PushCompletesNothing<D>(c: Codec<D>, d: Dir<D>, u: Unit)
    requires AtRest(d) && UnitOk(u) && u.Headed? && u.opener.kind == PUSH_PROMISE
    ensures Run(c, d, FramesOf(u)).tab.done == d.tab.done
  {
    RunHeaded(c, d, u.opener, u.conts);
  }
}
