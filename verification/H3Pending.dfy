/** The HTTP/3 sniffer's shared maps under their mutex: the dynamic-table mirrors and the pending messages,
    worked on by a table loop, a response loop, a request loop and a flusher. Every critical section is one
    atomic step; the steps interleave arbitrarily. */
module H3Pending {
  import opened Basics
  import opened Hpack
  import opened Qpack

  const FLUSH_IDLE_AFTER := 50_000_000 // nanoseconds

  datatype PendingResponse = PendingResponse(fields: seq<Field>, ip: string, pidTgid: nat, base: nat, lastUpdate: int)

  datatype PendingRequest = PendingRequest(fields: seq<Field>, ip: string, pidTgid: nat)

  datatype Shared = Shared(tables: map<nat, seq<Field>>, responses: map<nat, PendingResponse>,
                           requests: map<nat, PendingRequest>)

  // ---------- the critical sections ----------

  function TableOf(s: Shared, conn: nat): seq<Field> {
    if conn in s.tables then s.tables[conn] else []
  }

  /** The table loop is the only writer of the tables, so its look-up and its insertion count as one step. */
  function AfterTableEvent(statics: seq<Field>, s: Shared, conn: nat, event: TableEvent): Shared {
    var table := Mirrored(statics, TableOf(s, conn), event);
    if table == TableOf(s, conn) then s else s.(tables := s.tables[conn := table])
  }

  function CurrentBase(s: Shared, conn: nat): nat {
    if conn in s.responses then s.responses[conn].base else |TableOf(s, conn)|
  }

  function NoFieldsYet(s: Shared, conn: nat, ip: string): PendingResponse {
    PendingResponse([], ip, 0, |TableOf(s, conn)|, 0)
  }

  function AppendResponse(s: Shared, conn: nat, ip: string, pidTgid: nat, f: Field, now: int): Shared {
    var pr := if conn in s.responses then s.responses[conn]
              else NoFieldsYet(s, conn, ip);
    s.(responses := s.responses[conn := pr.(fields := pr.fields + [f], pidTgid := pidTgid, lastUpdate := now)])
  }

  function AppendRequest(s: Shared, conn: nat, ip: string, pidTgid: nat, f: Field): Shared {
    var pr := if conn in s.requests then s.requests[conn] else PendingRequest([], ip, 0);
    s.(requests := s.requests[conn := pr.(fields := pr.fields + [f], pidTgid := pidTgid)])
  }

  predicate IsIdle(s: Shared, conn: nat, now: int) {
    conn in s.responses && now - s.responses[conn].lastUpdate >= FLUSH_IDLE_AFTER
  }

  /** The order in which the flusher meets the idle responses is arbitrary: any listing of them. */
  predicate ListsIdle(s: Shared, order: seq<nat>, now: int) {
    && (forall k :: 0 <= k < |order| ==> IsIdle(s, order[k], now))
    && (forall conn :: conn in s.responses && IsIdle(s, conn, now) ==> conn in order)
    && (forall j, k :: 0 <= j < k < |order| ==> order[j] != order[k])
  }

  function Without(s: Shared, order: seq<nat>): Shared {
    s.(responses := map conn | conn in s.responses && conn !in order :: s.responses[conn])
  }

  /** Halfway: everything idle outside `todo` is listed, nothing in `todo` is. */
  ghost predicate ListsSoFar(s: Shared, order: seq<nat>, todo: set<nat>, now: int) {
    && (forall k :: 0 <= k < |order| ==> IsIdle(s, order[k], now) && order[k] !in todo)
    && (forall conn :: conn in s.responses && IsIdle(s, conn, now) ==> conn in todo || conn in order)
    && (forall j, k :: 0 <= j < k < |order| ==> order[j] != order[k])
  }

  /** What a flush in state `s` extracts, in this order. */
  predicate InStart(s: Shared, order: seq<nat>) {
    forall k :: 0 <= k < |order| ==> order[k] in s.responses
  }

  function Extracted(s: Shared, order: seq<nat>): seq<(nat, PendingResponse)>
    requires InStart(s, order)
  {
    seq(|order|, k requires 0 <= k < |order| => (order[k], s.responses[order[k]]))
  }

  lemma ListsStart(s: Shared, now: int)
    ensures ListsSoFar(s, [], s.responses.Keys, now) && Without(s, []) == s
  {
  }

  lemma ListsEnd(s: Shared, order: seq<nat>, now: int)
    requires ListsSoFar(s, order, {}, now)
    ensures ListsIdle(s, order, now) && forall k :: 0 <= k < |order| ==> order[k] in s.responses
  {
    assert forall k :: 0 <= k < |order| ==> IsIdle(s, order[k], now);
  }

  lemma ListsFurther(s: Shared, order: seq<nat>, todo: set<nat>, conn: nat, now: int)
    requires ListsSoFar(s, order, todo, now) && conn in todo && conn in s.responses
    ensures IsIdle(s, conn, now) ==> ListsSoFar(s, order + [conn], todo - {conn}, now)
    ensures !IsIdle(s, conn, now) ==> ListsSoFar(s, order, todo - {conn}, now)
    ensures conn in Without(s, order).responses
  {
  }

  // ---------- the interleaving ----------

  /** Where the response loop is within one event. */
  datatype Handler =
    | Ready
    | Based(conn: nat, ip: string, pidTgid: nat, dynamic: bool, index: int, value: string, base: nat)
    | Named(conn: nat, ip: string, pidTgid: nat, field: Field, base: nat)

  /** `inFlight` is what the flusher took out and has not emitted yet. The last three components are history:
      the fields appended so far, in order, per direction, and the bases the fields of each pending response
      were resolved with. */
  datatype World = World(shared: Shared, handler: Handler, inFlight: seq<(nat, PendingResponse)>,
                         emitted: seq<(nat, PendingResponse)>, taken: seq<(nat, PendingRequest)>,
                         appended: seq<(nat, Field)>, requested: seq<(nat, Field)>, bases: map<nat, seq<nat>>)

  const START := World(Shared(map[], map[], map[]), Ready, [], [], [], [], [], map[])

  datatype Step =
    | TableStep(tableConn: nat, event: TableEvent)
    | ReadBase(conn: nat, ip: string, pidTgid: nat, dynamic: bool, index: int, value: string)
    | ResolveName
    | AppendField(now: int)
    | Flush(at: int, order: seq<nat>)
    | EmitNext
    | RequestField(reqConn: nat, reqIp: string, reqPid: nat, field: Field)
    | TakeRequest(takeConn: nat)

  const UNRESOLVED := "<unresolved lri index>"

  function BasesOf(w: World, conn: nat): seq<nat> {
    if conn in w.bases then w.bases[conn] else []
  }

  /** A step whose goroutine is elsewhere does not happen. */
  function Next(statics: seq<Field>, w: World, step: Step): World {
    match step
    case TableStep(conn, event) => w.(shared := AfterTableEvent(statics, w.shared, conn, event))
    case ReadBase(conn, ip, pidTgid, dynamic, index, value) =>
      if w.handler != Ready then w
      else w.(handler := Based(conn, ip, pidTgid, dynamic, index, value, CurrentBase(w.shared, conn)))
    case ResolveName =>
      if !w.handler.Based? then w
      else
        var h := w.handler;
        var found := ResolveIndexed(statics, TableOf(w.shared, h.conn), h.dynamic, h.index, h.base);
        var name := match found case None => UNRESOLVED case Some(f) => f.name;
        w.(handler := Named(h.conn, h.ip, h.pidTgid, Field(name, h.value), h.base))
    case AppendField(now) =>
      if !w.handler.Named? then w
      else
        var h := w.handler;
        w.(shared := AppendResponse(w.shared, h.conn, h.ip, h.pidTgid, h.field, now), handler := Ready,
           appended := w.appended + [(h.conn, h.field)],
           bases := w.bases[h.conn := BasesOf(w, h.conn) + [h.base]])
    case Flush(now, order) =>
      if w.inFlight != [] || !ListsIdle(w.shared, order, now) then w
      else
        w.(shared := Without(w.shared, order),
           inFlight := seq(|order|, k requires 0 <= k < |order| => (order[k], w.shared.responses[order[k]])),
           bases := map conn | conn in w.bases && conn !in order :: w.bases[conn])
    case EmitNext =>
      if w.inFlight == [] then w
      else w.(emitted := w.emitted + [w.inFlight[0]], inFlight := w.inFlight[1..])
    case RequestField(conn, ip, pidTgid, f) =>
      w.(shared := AppendRequest(w.shared, conn, ip, pidTgid, f), requested := w.requested + [(conn, f)])
    case TakeRequest(conn) =>
      if conn !in w.shared.requests then w
      else
        w.(shared := w.shared.(requests := w.shared.requests - {conn}),
           taken := w.taken + [(conn, w.shared.requests[conn])])
  }

  // What each step leaves, for the sections that take it.

  lemma OnlyFlusherMoves(statics: seq<Field>, w: World, step: Step)
    requires !step.Flush? && !step.EmitNext?
    ensures Next(statics, w, step).emitted == w.emitted && Next(statics, w, step).inFlight == w.inFlight
  {
  }

  lemma AfterTable(statics: seq<Field>, w: World, conn: nat, event: TableEvent)
    ensures Next(statics, w, TableStep(conn, event)).shared == AfterTableEvent(statics, w.shared, conn, event)
  {
  }

  lemma AfterReadBase(statics: seq<Field>, w: World, e: Step)
    requires e.ReadBase? && w.handler == Ready
    ensures var w' := Next(statics, w, e);
            w'.shared == w.shared &&
            w'.handler == Based(e.conn, e.ip, e.pidTgid, e.dynamic, e.index, e.value, CurrentBase(w.shared, e.conn))
  {
  }

  lemma AfterResolve(statics: seq<Field>, w: World)
    requires w.handler.Based?
    ensures var h, w' := w.handler, Next(statics, w, ResolveName);
            var found := ResolveIndexed(statics, TableOf(w.shared, h.conn), h.dynamic, h.index, h.base);
            w'.shared == w.shared &&
            w'.handler == Named(h.conn, h.ip, h.pidTgid,
                                Field(if found.Some? then found.value.name else UNRESOLVED, h.value), h.base)
  {
  }

  lemma AfterAppend(statics: seq<Field>, w: World, now: int)
    requires w.handler.Named?
    ensures var h, w' := w.handler, Next(statics, w, AppendField(now));
            w'.handler == Ready && w'.shared == AppendResponse(w.shared, h.conn, h.ip, h.pidTgid, h.field, now)
  {
  }

  lemma AfterRequestField(statics: seq<Field>, w: World, conn: nat, ip: string, pidTgid: nat, f: Field)
    ensures Next(statics, w, RequestField(conn, ip, pidTgid, f)).shared == AppendRequest(w.shared, conn, ip, pidTgid, f)
  {
  }

  lemma AfterTake(statics: seq<Field>, w: World, conn: nat)
    ensures Next(statics, w, TakeRequest(conn)).shared == w.shared.(requests := w.shared.requests - {conn})
  {
    assert conn !in w.shared.requests ==> w.shared.requests - {conn} == w.shared.requests;
  }

  lemma AfterFlush(statics: seq<Field>, w: World, now: int, order: seq<nat>)
    requires w.inFlight == [] && ListsIdle(w.shared, order, now)
    ensures var w' := Next(statics, w, Flush(now, order));
            && InStart(w.shared, order) && w'.shared == Without(w.shared, order)
            && w'.emitted == w.emitted && w'.inFlight == Extracted(w.shared, order) && w'.handler == w.handler
  {
    forall k | 0 <= k < |order| ensures order[k] in w.shared.responses {
      assert IsIdle(w.shared, order[k], now);
    }
  }

  lemma AfterEmit(statics: seq<Field>, w: World)
    requires w.inFlight != []
    ensures var w' := Next(statics, w, EmitNext);
            w'.shared == w.shared && w'.emitted + w'.inFlight == w.emitted + w.inFlight && w'.handler == w.handler
            && |w'.emitted| == |w.emitted| + 1
  {
    assert (w.emitted + [w.inFlight[0]]) + w.inFlight[1..] == w.emitted + w.inFlight;
  }

  function RunSteps(statics: seq<Field>, steps: seq<Step>): World {
    if steps == [] then START
    else Next(statics, RunSteps(statics, steps[..|steps| - 1]), steps[|steps| - 1])
  }

  // ---------- conservation ----------

  lemma RunSnoc(statics: seq<Field>, steps: seq<Step>, step: Step)
    ensures RunSteps(statics, steps + [step]) == Next(statics, RunSteps(statics, steps), step)
  {
    assert (steps + [step])[..|steps|] == steps;
  }

  function OwnFields(log: seq<(nat, Field)>, conn: nat): seq<Field> {
    if log == [] then []
    else OwnFields(log[..|log| - 1], conn) + if log[|log| - 1].0 == conn then [log[|log| - 1].1] else []
  }

  function ResponseFields(msgs: seq<(nat, PendingResponse)>, conn: nat): seq<Field> {
    if msgs == [] then []
    else ResponseFields(msgs[..|msgs| - 1], conn) + if msgs[|msgs| - 1].0 == conn then msgs[|msgs| - 1].1.fields else []
  }

  function RequestFields(msgs: seq<(nat, PendingRequest)>, conn: nat): seq<Field> {
    if msgs == [] then []
    else RequestFields(msgs[..|msgs| - 1], conn) + if msgs[|msgs| - 1].0 == conn then msgs[|msgs| - 1].1.fields else []
  }

  function PendingFields(s: Shared, conn: nat): seq<Field> {
    if conn in s.responses then s.responses[conn].fields else []
  }

  function PendingRequestFields(s: Shared, conn: nat): seq<Field> {
    if conn in s.requests then s.requests[conn].fields else []
  }

  /** No field is lost, duplicated or reordered. */
  ghost predicate Conserved(w: World, conn: nat) {
    && OwnFields(w.appended, conn) == ResponseFields(w.emitted + w.inFlight, conn) + PendingFields(w.shared, conn)
    && OwnFields(w.requested, conn) == RequestFields(w.taken, conn) + PendingRequestFields(w.shared, conn)
  }

  lemma OwnSnoc(log: seq<(nat, Field)>, x: (nat, Field), conn: nat)
    ensures OwnFields(log + [x], conn) == OwnFields(log, conn) + if x.0 == conn then [x.1] else []
  {
    assert (log + [x])[..|log|] == log;
  }

  lemma RequestSnoc(msgs: seq<(nat, PendingRequest)>, x: (nat, PendingRequest), conn: nat)
    ensures RequestFields(msgs + [x], conn) == RequestFields(msgs, conn) + if x.0 == conn then x.1.fields else []
  {
    assert (msgs + [x])[..|msgs|] == msgs;
  }

  lemma ResponseSnoc(msgs: seq<(nat, PendingResponse)>, x: (nat, PendingResponse), conn: nat)
    ensures ResponseFields(msgs + [x], conn) == ResponseFields(msgs, conn) + if x.0 == conn then x.1.fields else []
  {
    assert (msgs + [x])[..|msgs|] == msgs;
  }

  lemma NoResponseFields(conn: nat)
    ensures ResponseFields([], conn) == []
  {
  }

  lemma {:induction false} ResponseConcat(a: seq<(nat, PendingResponse)>, b: seq<(nat, PendingResponse)>, conn: nat)
    ensures ResponseFields(a + b, conn) == ResponseFields(a, conn) + ResponseFields(b, conn)
  {
    hide ResponseFields;
    if b == [] {
      assert a + b == a;
      NoResponseFields(conn);
    } else {
      var init, last := b[..|b| - 1], b[|b| - 1];
      ResponseConcat(a, init, conn);
      assert a + b == (a + init) + [last] && b == init + [last];
      ResponseSnoc(a + init, last, conn);
      ResponseSnoc(init, last, conn);
    }
  }

  /** The fields of distinct connections taken out together. */
  lemma {:induction false} ExtractedFields(s: Shared, order: seq<nat>, conn: nat)
    requires forall k :: 0 <= k < |order| ==> order[k] in s.responses
    requires forall j, k :: 0 <= j < k < |order| ==> order[j] != order[k]
    ensures var out := seq(|order|, k requires 0 <= k < |order| => (order[k], s.responses[order[k]]));
            ResponseFields(out, conn) == if conn in order then s.responses[conn].fields else []
  {
    if order != [] {
      var init, last := order[..|order| - 1], order[|order| - 1];
      ExtractedFields(s, init, conn);
      var out := seq(|order|, k requires 0 <= k < |order| => (order[k], s.responses[order[k]]));
      assert out[..|order| - 1] == seq(|init|, k requires 0 <= k < |init| => (init[k], s.responses[init[k]]));
      assert conn in order <==> conn in init || conn == last;
    }
  }

  lemma AppendConserves(statics: seq<Field>, w: World, now: int, conn: nat)
    requires Conserved(w, conn) && w.handler.Named?
    ensures Conserved(Next(statics, w, AppendField(now)), conn)
  {
    hide ResponseFields, RequestFields, OwnFields;
    OwnSnoc(w.appended, (w.handler.conn, w.handler.field), conn);
    var before, after := PendingFields(w.shared, conn), PendingFields(Next(statics, w, AppendField(now)).shared, conn);
    assert after == before + if w.handler.conn == conn then [w.handler.field] else [];
  }

  lemma FlushConserves(statics: seq<Field>, w: World, now: int, order: seq<nat>, conn: nat)
    requires Conserved(w, conn) && w.inFlight == [] && ListsIdle(w.shared, order, now)
    ensures Conserved(Next(statics, w, Flush(now, order)), conn)
  {
    hide ResponseFields, RequestFields, OwnFields;
    assert forall k :: 0 <= k < |order| ==> IsIdle(w.shared, order[k], now);
    ExtractedFields(w.shared, order, conn);
    ResponseConcat(w.emitted, Next(statics, w, Flush(now, order)).inFlight, conn);
    assert w.emitted + [] == w.emitted;
  }

  lemma RequestsConserve(statics: seq<Field>, w: World, step: Step, conn: nat)
    requires Conserved(w, conn) && (step.RequestField? || step.TakeRequest?)
    ensures Conserved(Next(statics, w, step), conn)
  {
    hide ResponseFields, RequestFields, OwnFields;
    if step.RequestField? {
      OwnSnoc(w.requested, (step.reqConn, step.field), conn);
    } else if step.takeConn in w.shared.requests {
      RequestSnoc(w.taken, (step.takeConn, w.shared.requests[step.takeConn]), conn);
    }
  }

  lemma NextConserves(statics: seq<Field>, w: World, step: Step, conn: nat)
    requires Conserved(w, conn)
    ensures Conserved(Next(statics, w, step), conn)
  {
    hide ResponseFields, RequestFields, OwnFields;
    match step
    case TableStep(_, _) =>
    case ReadBase(_, _, _, _, _, _) =>
    case ResolveName =>
    case AppendField(now) =>
      if w.handler.Named? {
        AppendConserves(statics, w, now, conn);
      }
    case Flush(now, order) =>
      if w.inFlight == [] && ListsIdle(w.shared, order, now) {
        FlushConserves(statics, w, now, order, conn);
      }
    case EmitNext =>
      if w.inFlight != [] {
        assert (w.emitted + [w.inFlight[0]]) + w.inFlight[1..] == w.emitted + w.inFlight;
      }
    case RequestField(_, _, _, _) => RequestsConserve(statics, w, step, conn);
    case TakeRequest(_) => RequestsConserve(statics, w, step, conn);
  }

  /** Conservation: under every interleaving, the fields of the responses emitted or in flight for a connection,
      followed by its pending ones, are exactly the appended ones in order; the same for requests. */
  lemma {:induction false} NoFieldLost(statics: seq<Field>, steps: seq<Step>, conn: nat)
    ensures Conserved(RunSteps(statics, steps), conn)
  {
    hide Conserved, Next;
    if steps == [] {
      StartConserved(conn);
    } else {
      NoFieldLost(statics, steps[..|steps| - 1], conn);
      NextConserves(statics, RunSteps(statics, steps[..|steps| - 1]), steps[|steps| - 1], conn);
    }
  }

  lemma StartConserved(conn: nat)
    ensures Conserved(START, conn)
  {
  }

  /** A response that was taken out is never changed afterwards: what is emitted or in flight only grows. */
  lemma ExtractedIsFixed(statics: seq<Field>, w: World, step: Step)
    ensures var w' := Next(statics, w, step);
            w.emitted + w.inFlight <= w'.emitted + w'.inFlight
  {
    var w' := Next(statics, w, step);
    if step.EmitNext? && w.inFlight != [] {
      assert w'.emitted + w'.inFlight == w.emitted + w.inFlight;
    }
  }

  lemma {:induction false} ExtractedNeverChanges(statics: seq<Field>, steps: seq<Step>, more: seq<Step>)
    ensures var w, w' := RunSteps(statics, steps), RunSteps(statics, steps + more);
            w.emitted + w.inFlight <= w'.emitted + w'.inFlight
  {
    hide Next;
    if more == [] {
      assert steps + more == steps;
    } else {
      var init, last := more[..|more| - 1], more[|more| - 1];
      ExtractedNeverChanges(statics, steps, init);
      assert steps + more == (steps + init) + [last];
      RunSnoc(statics, steps + init, last);
      ExtractedIsFixed(statics, RunSteps(statics, steps + init), last);
    }
  }

  // ---------- one base per response ----------

  /** The bases its fields were resolved with are those of the pending response. */
  ghost predicate OneBase(w: World) {
    forall conn :: conn in w.shared.responses ==>
      |BasesOf(w, conn)| == |w.shared.responses[conn].fields|
      && forall k :: 0 <= k < |BasesOf(w, conn)| ==> BasesOf(w, conn)[k] == w.shared.responses[conn].base
  }

  ghost predicate BasesTracked(w: World) {
    w.bases.Keys == w.shared.responses.Keys
  }

  /** Appending keeps one base per response exactly when the response is still pending with the base that was
      read, or, being opened by this very field, finds the table at the length that was read. */
  lemma AppendKeepsBaseIff(statics: seq<Field>, w: World, now: int)
    requires OneBase(w) && BasesTracked(w) && w.handler.Named?
    ensures OneBase(Next(statics, w, AppendField(now))) <==> CurrentBase(w.shared, w.handler.conn) == w.handler.base
    ensures BasesTracked(Next(statics, w, AppendField(now)))
  {
    var h := w.handler;
    var w' := Next(statics, w, AppendField(now));
    var bs := BasesOf(w', h.conn);
    assert bs == BasesOf(w, h.conn) + [h.base];
    assert bs[|bs| - 1] == h.base;
    assert w'.shared.responses[h.conn].base == CurrentBase(w.shared, h.conn);
    if OneBase(w') {
      assert h.conn in w'.shared.responses;
    }
  }

  lemma EmptyRun()
    ensures forall statics :: RunSteps(statics, []) == START
  {
  }

  lemma RunTwo(statics: seq<Field>, steps: seq<Step>, a: Step, b: Step)
    ensures RunSteps(statics, steps + [a, b]) == Next(statics, Next(statics, RunSteps(statics, steps), a), b)
  {
    hide RunSteps, Next;
    RunSnoc(statics, steps, a);
    RunSnoc(statics, steps + [a], b);
    assert (steps + [a]) + [b] == steps + [a, b];
  }

  /** A field that refers to the newest entry of the dynamic table. */
  const NEWEST := ReadBase(1, "", 0, true, 0, "v")

  /** The base is read, then the table grows, then the name is resolved. */
  function Interrupted(f: Field, g: Field): seq<Step> {
    [TableStep(1, Insert(f.name, f.value)), NEWEST] + [TableStep(1, Insert(g.name, g.value)), ResolveName]
  }

  lemma AfterInterruption(f: Field, g: Field)
    ensures var w := RunSteps([], Interrupted(f, g));
            && w.handler == Named(1, "", 0, Field(f.name, "v"), 1)
            && TableOf(w.shared, 1) == [f, g] && w.shared.responses == map[] && w.bases == map[]
  {
    EmptyRun();
    hide RunSteps;
    var first := [TableStep(1, Insert(f.name, f.value)), NEWEST];
    RunTwo([], [], first[0], NEWEST);
    assert [] + first == first;
    RunTwo([], first, TableStep(1, Insert(g.name, g.value)), ResolveName);
  }

  /** It can fail: an insertion between reading the base and appending the field. Two fields of one response then
      name the same position and are resolved to different entries. */
  lemma InsertionSplitsBase(f: Field, g: Field)
    ensures var w := RunSteps([], Interrupted(f, g) + [AppendField(0), NEWEST] + [ResolveName, AppendField(0)]);
            && 1 in w.shared.responses && w.shared.responses[1].base == 2
            && w.shared.responses[1].fields == [Field(f.name, "v"), Field(g.name, "v")]
            && BasesOf(w, 1) == [1, 2] && !OneBase(w)
  {
    AfterInterruption(f, g);
    hide RunSteps, Interrupted;
    var third := Interrupted(f, g) + [AppendField(0), NEWEST];
    RunTwo([], Interrupted(f, g), AppendField(0), NEWEST);
    var w := RunSteps([], third);
    assert w.handler == Based(1, "", 0, true, 0, "v", 2) && w.shared.responses[1].fields == [Field(f.name, "v")];
    RunTwo([], third, ResolveName, AppendField(0));
    var last := RunSteps([], third + [ResolveName, AppendField(0)]);
    assert BasesOf(last, 1)[0] == 1;
  }

  /** The three sections of one response event, run whole. */
  function HandleWhole(statics: seq<Field>, w: World, event: Step, now: int): World {
    Next(statics, Next(statics, Next(statics, w, event), ResolveName), AppendField(now))
  }

  /** Steps of the whole system in which no other goroutine gets in between those three sections. */
  datatype Turn = WholeField(event: Step, now: int) | Other(step: Step)

  predicate TurnOk(t: Turn) {
    match t
    case WholeField(event, _) => event.ReadBase?
    case Other(step) => !step.ReadBase? && !step.ResolveName? && !step.AppendField?
  }

  function RunTurns(statics: seq<Field>, turns: seq<Turn>): World {
    if turns == [] then START
    else
      var w := RunTurns(statics, turns[..|turns| - 1]);
      match turns[|turns| - 1]
      case WholeField(event, now) => HandleWhole(statics, w, event, now)
      case Other(step) => Next(statics, w, step)
  }

  lemma OtherKeepsBase(statics: seq<Field>, w: World, step: Step)
    requires OneBase(w) && BasesTracked(w) && TurnOk(Other(step))
    ensures OneBase(Next(statics, w, step)) && BasesTracked(Next(statics, w, step))
    ensures w.handler == Next(statics, w, step).handler
  {
    var w' := Next(statics, w, step);
    forall conn | conn in w'.shared.responses
      ensures conn in w.shared.responses && w'.shared.responses[conn] == w.shared.responses[conn]
      ensures BasesOf(w', conn) == BasesOf(w, conn)
    {
    }
  }

  /** With event handlers run whole, all fields of a pending response use one base, its own. */
  lemma {:induction false} WholeHandlersUseOneBase(statics: seq<Field>, turns: seq<Turn>)
    requires forall k :: 0 <= k < |turns| ==> TurnOk(turns[k])
    ensures var w := RunTurns(statics, turns);
            OneBase(w) && BasesTracked(w) && w.handler == Ready
  {
    hide OneBase, BasesTracked;
    if turns == [] {
      StartOneBase();
    } else {
      var last := turns[|turns| - 1];
      WholeHandlersUseOneBase(statics, turns[..|turns| - 1]);
      var w := RunTurns(statics, turns[..|turns| - 1]);
      assert TurnOk(last);
      match last
      case Other(step) => OtherKeepsBase(statics, w, step);
      case WholeField(event, now) => WholeKeepsBase(statics, w, event, now);
    }
  }

  lemma StartOneBase()
    ensures OneBase(START) && BasesTracked(START)
  {
  }

  lemma WholeKeepsBase(statics: seq<Field>, w: World, event: Step, now: int)
    requires OneBase(w) && BasesTracked(w) && w.handler == Ready && event.ReadBase?
    ensures var w' := HandleWhole(statics, w, event, now);
            OneBase(w') && BasesTracked(w') && w'.handler == Ready
  {
    var w1 := Next(statics, w, event);
    var w2 := Next(statics, w1, ResolveName);
    assert w2.handler.Named? && w2.shared == w.shared && w2.bases == w.bases;
    assert OneBase(w2) by {
      forall conn | conn in w2.shared.responses
        ensures BasesOf(w2, conn) == BasesOf(w, conn)
      {
      }
    }
    AppendKeepsBaseIff(statics, w2, now);
  }
}
