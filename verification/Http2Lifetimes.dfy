/** What becomes of a single stream: the entry that is open and the messages that were completed are a
    function of the events that reach it, which are all of its own exactly as long as the table has room. */
module Http2Lifetimes {
  import opened Basics
  import opened Hpack
  import opened Http2Spec
  import opened Http2Framing
  import opened Http2Grammar

  // ---------- one stream, declaratively ----------

  /** RST_STREAM and END_STREAM end the life of an entry. */
  predicate Terminates(e: Event) { e.ResetEvent? || e.ends }

  /** The events since the last one that ended a life. */
  function CurrentLife(es: seq<Event>): seq<Event> {
    if es == [] || Terminates(es[|es| - 1]) then []
    else CurrentLife(es[..|es| - 1]) + [es[|es| - 1]]
  }

  function FieldsIn(es: seq<Event>): seq<Field> {
    if es == [] then []
    else FieldsIn(es[..|es| - 1]) + if es[|es| - 1].BlockEvent? then es[|es| - 1].fields else []
  }

  function DataIn(es: seq<Event>): Bytes {
    if es == [] then []
    else DataIn(es[..|es| - 1]) + if es[|es| - 1].DataEvent? then es[|es| - 1].bytes else []
  }

  predicate HasBlock(es: seq<Event>) {
    exists k :: 0 <= k < |es| && es[k].BlockEvent?
  }

  function Capped(b: Bytes): Bytes {
    if |b| <= MAX_BODY_PER_STREAM then b else b[..MAX_BODY_PER_STREAM]
  }

  /** The message a life collects: all fields of its blocks, the first bytes of its data, and whether
      the data was longer. */
  function Collected(life: seq<Event>): Stream {
    Stream(FieldsIn(life), HasBlock(life), Capped(DataIn(life)), |DataIn(life)| > MAX_BODY_PER_STREAM)
  }

  function OpenEntry(es: seq<Event>): Option<Stream> {
    if CurrentLife(es) == [] then None else Some(Collected(CurrentLife(es)))
  }

  /** A life is completed by END_STREAM if it holds a header block, and discarded otherwise. */
  function Completed(es: seq<Event>): seq<Stream> {
    if es == [] then []
    else
      var init, last := es[..|es| - 1], es[|es| - 1];
      var life := CurrentLife(init) + [last];
      Completed(init) + if !last.ResetEvent? && last.ends && HasBlock(life) then [Collected(life)] else []
  }

  // ---------- the same stream in the shared table ----------

  /** The events that reach stream `sid`: all of its own, except those that would have created an entry
      while the table was full. */
  function Reaching(es: seq<Event>, sid: nat): seq<Event> {
    if es == [] then []
    else
      var init, last := es[..|es| - 1], es[|es| - 1];
      Reaching(init, sid) +
      if last.stream == sid && (last.ResetEvent? || !Refuses(ApplyAll(init), sid)) then [last] else []
  }

  function Lookup(t: Table, sid: nat): Option<Stream> {
    if sid in t.streams then Some(t.streams[sid]) else None
  }

  /** The completions of one stream, in order. */
  function DoneOf(done: seq<Finished>, sid: nat): seq<Stream> {
    if done == [] then []
    else DoneOf(done[..|done| - 1], sid) + if done[|done| - 1].streamID == sid then [done[|done| - 1].st] else []
  }

  lemma CurrentLifeSnoc(es: seq<Event>, e: Event)
    ensures CurrentLife(es + [e]) == if Terminates(e) then [] else CurrentLife(es) + [e]
    ensures Completed(es + [e]) == Completed(es) +
            (if !e.ResetEvent? && e.ends && HasBlock(CurrentLife(es) + [e])
             then [Collected(CurrentLife(es) + [e])] else [])
  {
    assert (es + [e])[..|es|] == es;
  }

  lemma HasBlockSnoc(life: seq<Event>, e: Event)
    ensures HasBlock(life + [e]) <==> HasBlock(life) || e.BlockEvent?
    ensures !HasBlock([])
  {
    var more := life + [e];
    if HasBlock(life) {
      var k :| 0 <= k < |life| && life[k].BlockEvent?;
      assert more[k].BlockEvent?;
    }
    if e.BlockEvent? {
      assert more[|life|].BlockEvent?;
    }
    if HasBlock(more) && !e.BlockEvent? {
      var k :| 0 <= k < |more| && more[k].BlockEvent?;
      assert life[k].BlockEvent?;
    }
  }

  lemma ContentSnoc(life: seq<Event>, e: Event)
    ensures FieldsIn(life + [e]) == FieldsIn(life) + if e.BlockEvent? then e.fields else []
    ensures DataIn(life + [e]) == DataIn(life) + if e.DataEvent? then e.bytes else []
    ensures FieldsIn([]) == [] && DataIn([]) == []
  {
    assert (life + [e])[..|life|] == life;
  }

  /** Keeping the first bytes of the data so far and then of more is keeping those of both. */
  lemma CappedMore(st: Stream, data: Bytes, more: Bytes)
    requires st.body == Capped(data) && st.bodyTrunc == (|data| > MAX_BODY_PER_STREAM)
    ensures WriteBody(st, more) ==
            st.(body := Capped(data + more), bodyTrunc := |data + more| > MAX_BODY_PER_STREAM)
  {
  }

  /** Collecting one more event is what the handlers do to an entry. */
  lemma CollectedSnoc(life: seq<Event>, e: Event)
    ensures Collected([]) == NEW_STREAM
    ensures e.BlockEvent? ==> Collected(life + [e]) == AddBlock(Collected(life), e.fields)
    ensures e.DataEvent? ==> Collected(life + [e]) == WriteBody(Collected(life), e.bytes)
  {
    hide HasBlock, FieldsIn, DataIn, WriteBody;
    HasBlockSnoc(life, e);
    ContentSnoc(life, e);
    if e.DataEvent? {
      CappedMore(Collected(life), DataIn(life), e.bytes);
    }
    if !HasBlock(life) {
      NoBlockNoFields(life);
    }
    assert DataIn(life) + [] == DataIn(life);
  }

  lemma {:induction false} NoBlockNoFields(life: seq<Event>)
    requires !HasBlock(life)
    ensures FieldsIn(life) == []
  {
    if life != [] {
      var init := life[..|life| - 1];
      assert !life[|life| - 1].BlockEvent?;
      assert forall k :: 0 <= k < |init| ==> init[k] == life[k];
      NoBlockNoFields(init);
    }
  }

  lemma DoneOfSnoc(done: seq<Finished>, f: Finished, sid: nat)
    ensures DoneOf(done + [f], sid) == DoneOf(done, sid) + if f.streamID == sid then [f.st] else []
  {
    assert (done + [f])[..|done|] == done;
  }

  /** Settling an entry, seen from its own stream ... */
  lemma SettleOwn(t: Table, sid: nat, st: Stream, ends: bool)
    ensures Lookup(Settle(t, sid, st, ends), sid) == if ends then None else Some(st)
    ensures DoneOf(Settle(t, sid, st, ends).done, sid) ==
            DoneOf(t.done, sid) + if ends && st.gotHeader then [st] else []
  {
    DoneOfSnoc(t.done, Finished(sid, st), sid);
  }

  /** ... and from any other. */
  lemma SettleOther(t: Table, sid: nat, st: Stream, ends: bool, other: nat)
    requires other != sid
    ensures Lookup(Settle(t, sid, st, ends), other) == Lookup(t, other)
    ensures DoneOf(Settle(t, sid, st, ends).done, other) == DoneOf(t.done, other)
  {
    DoneOfSnoc(t.done, Finished(sid, st), other);
  }

  function Grown(st: Stream, e: Event): Stream
    requires !e.ResetEvent?
  {
    if e.BlockEvent? then AddBlock(st, e.fields) else WriteBody(st, e.bytes)
  }

  lemma ApplySettles(t: Table, e: Event)
    requires !e.ResetEvent?
    ensures Apply(t, e) == if Refuses(t, e.stream) then t
                           else Settle(t, e.stream, Grown(EntryOf(t, e.stream), e), e.ends)
  {
  }

  /** One event, seen from one stream. */
  lemma ApplySeenFrom(t: Table, mine: seq<Event>, e: Event, sid: nat)
    requires Lookup(t, sid) == OpenEntry(mine) && DoneOf(t.done, sid) == Completed(mine)
    ensures var t' := Apply(t, e);
            var mine' := if e.stream == sid && (e.ResetEvent? || !Refuses(t, sid)) then mine + [e] else mine;
            Lookup(t', sid) == OpenEntry(mine') && DoneOf(t'.done, sid) == Completed(mine')
  {
    var life := CurrentLife(mine);
    CurrentLifeSnoc(mine, e);
    if !e.ResetEvent? && !Refuses(t, e.stream) {
      var st := Grown(EntryOf(t, e.stream), e);
      ApplySettles(t, e);
      if e.stream == sid {
        CollectedSnoc(life, e);
        assert EntryOf(t, sid) == Collected(life);
        assert st == Collected(life + [e]);
        SettleOwn(t, sid, st, e.ends);
      } else {
        SettleOther(t, e.stream, st, e.ends, sid);
      }
    }
  }

  /** Stream lifecycle and exactness: after any events, the open entry of a stream is what its current
      life collected, and its completions are exactly the lives that ended by END_STREAM with a header
      block, once each and in order, every body being the first `MAX_BODY_PER_STREAM` bytes of its data
      and flagged exactly when there was more. */
  lemma {:induction false} StreamLives(es: seq<Event>, sid: nat)
    ensures Lookup(ApplyAll(es), sid) == OpenEntry(Reaching(es, sid))
    ensures DoneOf(ApplyAll(es).done, sid) == Completed(Reaching(es, sid))
  {
    if es != [] {
      var init := es[..|es| - 1];
      StreamLives(init, sid);
      ApplySeenFrom(ApplyAll(init), Reaching(init, sid), es[|es| - 1], sid);
      assert Reaching(init, sid) + [] == Reaching(init, sid);
    }
  }

  // ---------- every entry is accounted for ----------

  predicate Creates(t: Table, e: Event) {
    !e.ResetEvent? && e.stream !in t.streams && !Refuses(t, e.stream)
  }

  /** RST_STREAM on an open entry, or END_STREAM on an entry without a header block. */
  predicate Discards(t: Table, e: Event) {
    if e.ResetEvent? then e.stream in t.streams
    else !Refuses(t, e.stream) && e.ends && !Grown(EntryOf(t, e.stream), e).gotHeader
  }

  function CreatedBy(es: seq<Event>): nat {
    if es == [] then 0
    else CreatedBy(es[..|es| - 1]) + if Creates(ApplyAll(es[..|es| - 1]), es[|es| - 1]) then 1 else 0
  }

  function DiscardedBy(es: seq<Event>): nat {
    if es == [] then 0
    else DiscardedBy(es[..|es| - 1]) + if Discards(ApplyAll(es[..|es| - 1]), es[|es| - 1]) then 1 else 0
  }

  lemma RemovalSize(streams: map<nat, Stream>, sid: nat)
    ensures |streams - {sid}| == |streams| - if sid in streams then 1 else 0
  {
    if sid in streams {
      assert streams == (streams - {sid})[sid := streams[sid]];
    } else {
      assert streams - {sid} == streams;
    }
  }

  lemma SettleSize(t: Table, sid: nat, st: Stream, ends: bool)
    ensures |Settle(t, sid, st, ends).streams| ==
            |t.streams| + (if sid in t.streams then 0 else 1) - if ends then 1 else 0
  {
    RemovalSize(t.streams, sid);
    if sid in t.streams {
      assert t.streams[sid := st].Keys == t.streams.Keys;
    }
  }

  /** Conservation: of the entries ever created, each is still open, was completed, or was discarded; none is
      counted twice and none gets lost. */
  lemma {:induction false} EntriesConserved(es: seq<Event>)
    ensures CreatedBy(es) == |ApplyAll(es).streams| + |ApplyAll(es).done| + DiscardedBy(es)
  {
    if es != [] {
      var init, e := es[..|es| - 1], es[|es| - 1];
      EntriesConserved(init);
      var t := ApplyAll(init);
      if e.ResetEvent? {
        RemovalSize(t.streams, e.stream);
      } else {
        ApplySettles(t, e);
        SettleSize(t, e.stream, Grown(EntryOf(t, e.stream), e), e.ends);
      }
    }
  }

  // ---------- independence ----------

  function Own(es: seq<Event>, sid: nat): seq<Event> {
    if es == [] then []
    else Own(es[..|es| - 1], sid) + if es[|es| - 1].stream == sid then [es[|es| - 1]] else []
  }

  function StreamsNamed(es: seq<Event>): set<nat> {
    set k | 0 <= k < |es| :: es[k].stream
  }

  lemma NamedInit(es: seq<Event>)
    requires es != []
    ensures StreamsNamed(es[..|es| - 1]) <= StreamsNamed(es)
  {
    var init := es[..|es| - 1];
    forall sid | sid in StreamsNamed(init) ensures sid in StreamsNamed(es) {
      var k :| 0 <= k < |init| && init[k].stream == sid;
      assert es[k].stream == sid;
    }
  }

  lemma SubsetSize<T>(a: set<T>, b: set<T>)
    requires a <= b
    ensures |a| <= |b|
  {
    assert b == a + (b - a);
  }

  /** The streams whose own events leave a life unfinished. */
  function OpenIn(es: seq<Event>): set<nat> {
    set sid | sid in StreamsNamed(es) && CurrentLife(Own(es, sid)) != []
  }

  /** Whenever an event opens a stream, fewer than `MAX_STREAMS` are open. */
  ghost predicate Roomy(es: seq<Event>) {
    forall k :: 0 <= k < |es| ==>
      es[k].ResetEvent? || es[k].stream in OpenIn(es[..k]) || |OpenIn(es[..k])| < MAX_STREAMS
  }

  lemma {:induction false} OwnIsNamed(es: seq<Event>, sid: nat)
    ensures Own(es, sid) != [] ==> sid in StreamsNamed(es)
  {
    if es != [] {
      OwnIsNamed(es[..|es| - 1], sid);
      NamedInit(es);
      assert es[|es| - 1].stream in StreamsNamed(es);
    }
  }

  lemma {:induction false} ReachingIsShorter(es: seq<Event>, sid: nat)
    ensures |Reaching(es, sid)| <= |Own(es, sid)|
  {
    if es != [] {
      ReachingIsShorter(es[..|es| - 1], sid);
    }
  }

  /** No event is refused. */
  ghost predicate AllReach(es: seq<Event>) {
    forall sid :: Reaching(es, sid) == Own(es, sid)
  }

  /** While every event reaches its stream, the table holds exactly the streams open by their own events. */
  lemma TableHoldsOpen(es: seq<Event>)
    requires AllReach(es)
    ensures ApplyAll(es).streams.Keys == OpenIn(es)
  {
    forall sid: nat ensures sid in ApplyAll(es).streams <==> sid in OpenIn(es) {
      StreamLives(es, sid);
      assert Reaching(es, sid) == Own(es, sid);
      OwnIsNamed(es, sid);
    }
  }

  /** One more event: it reaches its stream if and only if it finds room. */
  lemma AllReachStep(es: seq<Event>)
    requires es != []
    ensures var init, last := es[..|es| - 1], es[|es| - 1];
            AllReach(es) <==>
            AllReach(init) && (last.ResetEvent? || last.stream in OpenIn(init) || |OpenIn(init)| < MAX_STREAMS)
  {
    hide OpenIn;
    var init, last := es[..|es| - 1], es[|es| - 1];
    if AllReach(es) {
      forall sid ensures Reaching(init, sid) == Own(init, sid) {
        assert Reaching(es, sid) == Own(es, sid);
        ReachingIsShorter(init, sid);
        var n := |Own(init, sid)|;
        assert Own(es, sid)[..n] == Own(init, sid);
        assert |Reaching(init, sid)| == n ==> Reaching(es, sid)[..n] == Reaching(init, sid);
      }
      ReachingIsShorter(init, last.stream);
    }
    if AllReach(init) {
      TableHoldsOpen(init);
      assert |ApplyAll(init).streams| == |ApplyAll(init).streams.Keys|;
      assert Reaching(init, last.stream) == Own(init, last.stream);
      if last.ResetEvent? || last.stream in OpenIn(init) || |OpenIn(init)| < MAX_STREAMS {
        forall sid ensures Reaching(es, sid) == Own(es, sid) {
          assert Reaching(init, sid) == Own(init, sid);
        }
      } else {
        assert Reaching(es, last.stream) != Own(es, last.stream);
      }
    }
  }

  /** The exact condition: every event reaches its stream if and only if the table has room whenever an event
      opens a stream, counting only the streams that are open at that moment. */
  lemma {:induction false} AllReachIff(es: seq<Event>)
    ensures AllReach(es) <==> Roomy(es)
  {
    hide OpenIn, Reaching, Own;
    if es == [] {
      NoneReach();
    } else {
      var n := |es| - 1;
      AllReachIff(es[..n]);
      AllReachStep(es);
      assert forall k :: 0 <= k < n ==> es[..n][k] == es[k] && es[..n][..k] == es[..k];
      assert Roomy(es) <==>
        Roomy(es[..n]) && (es[n].ResetEvent? || es[n].stream in OpenIn(es[..n]) || |OpenIn(es[..n])| < MAX_STREAMS);
    }
  }

  lemma NoneReach()
    ensures AllReach([])
  {
  }

  lemma {:induction false} NothingRefused(es: seq<Event>, sid: nat)
    requires Roomy(es)
    ensures Reaching(es, sid) == Own(es, sid)
  {
    AllReachIff(es);
  }

  /** In particular there is room when no more than 4096 stream identifiers are ever named. */
  lemma FewStreamsAreRoomy(es: seq<Event>)
    requires |StreamsNamed(es)| <= 4096
    ensures Roomy(es)
  {
    forall k | 0 <= k < |es|
      ensures es[k].stream in OpenIn(es[..k]) || |OpenIn(es[..k])| < MAX_STREAMS
    {
      var open := OpenIn(es[..k]);
      if es[k].stream !in open {
        forall sid | sid in open + {es[k].stream} ensures sid in StreamsNamed(es) {
          if sid != es[k].stream {
            var j :| 0 <= j < |es[..k]| && es[..k][j].stream == sid;
            assert es[j].stream == sid;
          }
        }
        SubsetSize(open + {es[k].stream}, StreamsNamed(es));
      }
    }
  }

  /** As long as the table has room, each stream's open entry and completions are a function of its own events. */
  lemma {:induction false} StreamAlone(es: seq<Event>, sid: nat)
    requires Roomy(es)
    ensures Lookup(ApplyAll(es), sid) == OpenEntry(Own(es, sid))
    ensures DoneOf(ApplyAll(es).done, sid) == Completed(Own(es, sid))
  {
    NothingRefused(es, sid);
    StreamLives(es, sid);
  }

  /** So streams do not interfere: two histories that agree on one stream's events give that stream the same
      open entry and the same completions, however different the other streams are. */
  lemma {:induction false} StreamsIndependent(es: seq<Event>, other: seq<Event>, sid: nat)
    requires Roomy(es) && Roomy(other)
    requires Own(es, sid) == Own(other, sid)
    ensures Lookup(ApplyAll(es), sid) == Lookup(ApplyAll(other), sid)
    ensures DoneOf(ApplyAll(es).done, sid) == DoneOf(ApplyAll(other).done, sid)
  {
    StreamAlone(es, sid);
    StreamAlone(other, sid);
  }

  /** Header blocks that open the first `n` client streams and leave them open. */
  function Openers(n: nat): seq<Event> {
    seq(n, k requires 0 <= k < n => BlockEvent(2 * k + 1, [], false))
  }

  lemma OpenersSnoc(n: nat)
    ensures Openers(n + 1) == Openers(n) + [BlockEvent(2 * n + 1, [], false)]
  {
  }

  /** `t` holds `n` open streams with identifiers below `bound`, and nothing was completed. */
  predicate HoldsOpen(t: Table, n: nat, bound: nat) {
    |t.streams| == n && t.done == [] && forall sid :: sid in t.streams ==> sid < bound
  }

  lemma OpensNew(t: Table, n: nat, sid: nat)
    requires HoldsOpen(t, n, sid) && n < MAX_STREAMS
    ensures HoldsOpen(Apply(t, BlockEvent(sid, [], false)), n + 1, sid + 2)
  {
    assert sid !in t.streams;
  }

  lemma NoneOpen()
    ensures HoldsOpen(ApplyAll(Openers(0)), 0, 1)
  {
  }

  lemma {:induction false} OpenersOpen(n: nat)
    requires n <= MAX_STREAMS
    ensures HoldsOpen(ApplyAll(Openers(n)), n, 2 * n + 1)
  {
    hide Apply, ApplyAll, Openers, HoldsOpen;
    if n == 0 {
      NoneOpen();
    } else {
      var m := n - 1;
      OpenersOpen(m);
      OpenersSnoc(m);
      ApplySnoc(Openers(m), BlockEvent(2 * m + 1, [], false));
      OpensNew(ApplyAll(Openers(m)), m, 2 * m + 1);
    }
  }

  /** A request alone on its connection is completed. */
  lemma LoneRequest(e: Event)
    requires e.BlockEvent? && e.ends
    ensures ApplyAll([e]).done == [Finished(e.stream, Stream(e.fields, true, [], false))]
  {
    assert [e][..0] == [];
  }

  lemma DoneOfOne(f: Finished)
    ensures DoneOf([f], f.streamID) == [f.st]
  {
    DoneOfSnoc([], f, f.streamID);
    assert [] + [f] == [f];
  }

  /** Without room they do interfere: a request that completes when it is alone is lost behind 4096
      streams that are open. */
  lemma FullTableLosesRequest(fields: seq<Field>)
    ensures var sid := 2 * 4096 + 1;
            var mine := [BlockEvent(sid, fields, true)];
            && Own(Openers(4096) + mine, sid) == mine
            && DoneOf(ApplyAll(mine).done, sid) == [Stream(fields, true, [], false)]
            && DoneOf(ApplyAll(Openers(4096) + mine).done, sid) == []
  {
    var sid := 2 * 4096 + 1;
    var e := BlockEvent(sid, fields, true);
    var before := Openers(4096);
    OpenersOpen(4096);
    OwnNone(before, sid);
    hide Openers;
    LoneRequest(e);
    DoneOfOne(Finished(sid, Stream(fields, true, [], false)));
    assert (before + [e])[..|before|] == before;
  }

  lemma {:induction false} OwnNone(es: seq<Event>, sid: nat)
    requires forall k :: 0 <= k < |es| ==> es[k].stream != sid
    ensures Own(es, sid) == []
  {
    if es != [] {
      OwnNone(es[..|es| - 1], sid);
    }
  }

  // ---------- the completions of any run ----------

  /** What a reading of the frames as units says about every stream of the direction. */
  lemma MessagesOfSentence<D>(c: Codec<D>, us: seq<Unit>, partial: seq<Frame>, fs: seq<Frame>, sid: nat)
    requires Accepts(c, us, partial, fs)
    ensures var t := Run(c, Fresh(c), fs).tab;
            && Lookup(t, sid) == OpenEntry(Reaching(Events(c, us), sid))
            && DoneOf(t.done, sid) == Completed(Reaching(Events(c, us), sid))
  {
    RunSentence(c, us, partial, fs);
    StreamLives(Events(c, us), sid);
  }

  lemma PoisonKeepsQueue<D>(c: Codec<D>, d: Dir<D>, f: Frame)
    requires !d.Poisoned() && HandleFrame(c, d, f).Poisoned()
    ensures HandleFrame(c, d, f).tab == Table(map[], d.tab.done)
  {
  }

  /** The frames a run handled without poison, and what the poisoning frame left of them. */
  lemma {:induction false} SoundPart<D>(c: Codec<D>, fs: seq<Frame>) returns (n: nat)
    ensures n <= |fs| && !Run(c, Fresh(c), fs[..n]).Poisoned()
    ensures n < |fs| <==> Run(c, Fresh(c), fs).Poisoned()
    ensures n < |fs| ==>
              && Run(c, Fresh(c), fs[..n + 1]) == Run(c, Fresh(c), fs)
              && Run(c, Fresh(c), fs).tab == Table(map[], Run(c, Fresh(c), fs[..n]).tab.done)
  {
    hide HandleFrame;
    n := |fs|;
    assert fs[..n] == fs;
    if Run(c, Fresh(c), fs).Poisoned() {
      var init, f := fs[..|fs| - 1], fs[|fs| - 1];
      n := SoundPart(c, init);
      assert init[..n] == fs[..n];
      assert fs == init + [f];
      RunSnoc(c, Fresh(c), init, f);
      if n < |init| {
        assert init[..n + 1] == fs[..n + 1];
      } else {
        assert fs[..n + 1] == fs;
        PoisonKeepsQueue(c, Run(c, Fresh(c), init), f);
      }
    }
  }

  /** Poisoned or not, the completions of a run are those of its longest well-formed part; the frame
      after that part poisons, and a poisoned direction holds no stream. */
  lemma {:induction false} MessagesOfRun<D>(c: Codec<D>, fs: seq<Frame>, sid: nat)
    returns (n: nat, us: seq<Unit>, partial: seq<Frame>)
    ensures n <= |fs| && Accepts(c, us, partial, fs[..n])
    ensures DoneOf(Run(c, Fresh(c), fs).tab.done, sid) == Completed(Reaching(Events(c, us), sid))
    ensures Roomy(Events(c, us)) ==> DoneOf(Run(c, Fresh(c), fs).tab.done, sid) == Completed(Own(Events(c, us), sid))
    ensures n < |fs| <==> Run(c, Fresh(c), fs).Poisoned()
    ensures n < |fs| ==> Run(c, Fresh(c), fs[..n + 1]).Poisoned() && Run(c, Fresh(c), fs).tab.streams == map[]
  {
    n := SoundPart(c, fs);
    us, partial := Parse(c, fs[..n]);
    MessagesOfSentence(c, us, partial, fs[..n], sid);
    if Roomy(Events(c, us)) {
      NothingRefused(Events(c, us), sid);
    }
    if n == |fs| {
      assert fs[..n] == fs;
    }
  }

  /** Over any run: every entry ever created is open, completed, discarded, or was dropped by the poison, which
      drops exactly what was open. */
  lemma {:induction false} EntriesOfRun<D>(c: Codec<D>, fs: seq<Frame>)
    returns (n: nat, us: seq<Unit>, partial: seq<Frame>, dropped: nat)
    ensures n <= |fs| && Accepts(c, us, partial, fs[..n]) && (n < |fs| <==> Run(c, Fresh(c), fs).Poisoned())
    ensures var t := Run(c, Fresh(c), fs).tab;
            CreatedBy(Events(c, us)) == |t.streams| + |t.done| + DiscardedBy(Events(c, us)) + dropped
    ensures dropped == if n < |fs| then |Run(c, Fresh(c), fs[..n]).tab.streams| else 0
    ensures n < |fs| ==> Run(c, Fresh(c), fs[..n + 1]).Poisoned()
  {
    hide Run, Events;
    n := SoundPart(c, fs);
    us, partial := Parse(c, fs[..n]);
    RunSentence(c, us, partial, fs[..n]);
    EntriesConserved(Events(c, us));
    dropped := 0;
    if n == |fs| {
      assert fs[..n] == fs;
    } else {
      dropped := |Run(c, Fresh(c), fs[..n]).tab.streams|;
    }
  }

  /** End to end: the encodings of any frames, however cut into reads that fit the buffer, are handled as those
      frames, leave nothing behind, and are accepted exactly when the frames read as whole units and the start of a
      sound block. */
  lemma {:induction false} WireAcceptance<D>(c: Codec<D>, fs: seq<Frame>, pieces: seq<Bytes>)
    requires forall f :: f in fs ==> Encodable(f)
    requires Flatten(pieces) == EncodeAll(fs) && !AnyTrip(c, pieces)
    ensures FeedAll(c, pieces) == Feeder(Run(c, Fresh(c), fs), [])
    ensures !FeedAll(c, pieces).dir.Poisoned() <==> exists us, partial :: Accepts(c, us, partial, fs)
  {
    hide Run, Accepts, FeedAll;
    SegmentationIndependence(c, pieces);
    FramesOfEncoding(fs, []);
    assert EncodeAll(fs) + [] == EncodeAll(fs);
    Acceptance(c, fs);
  }
}
