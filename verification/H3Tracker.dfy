/** The HTTP/3 sniffer's shared maps as they are: pending messages are heap objects, updated in place while they
    are pending and handed out by the flusher. Each method is one critical section and takes one step of the
    interleaving model, so whatever order the sections run in, the heap is where the model is. */
module H3Tracker {
  import opened Basics
  import opened Hpack
  import opened Messages
  import opened Qpack
  import opened H3Pending

  class ResponseEntry {
    var fields: seq<Field>
    var ip: string
    var pidTgid: nat
    var base: nat
    var lastUpdate: int
    ghost const conn: nat
    ghost var out: bool // taken out by the flusher

    constructor (ghost conn: nat, ip: string, base: nat)
      ensures this.conn == conn && !out && Value() == PendingResponse([], ip, 0, base, 0)
    {
      this.conn, this.ip, this.base, out := conn, ip, base, false;
      fields, pidTgid, lastUpdate := [], 0, 0;
    }

    ghost function Value(): PendingResponse
      reads this
    {
      PendingResponse(fields, ip, pidTgid, base, lastUpdate)
    }

    method Append(f: Field, pidTgid: nat, now: int)
      modifies `fields, `pidTgid, `lastUpdate
      ensures Value() == old(Value()).(fields := old(fields) + [f], pidTgid := pidTgid, lastUpdate := now)
    {
      this.pidTgid, fields, lastUpdate := pidTgid, fields + [f], now;
    }
  }

  class RequestEntry {
    var fields: seq<Field>
    var ip: string
    var pidTgid: nat
    ghost const conn: nat

    constructor (ghost conn: nat, ip: string)
      ensures this.conn == conn && Value() == PendingRequest([], ip, 0)
    {
      this.conn, this.ip := conn, ip;
      fields, pidTgid := [], 0;
    }

    ghost function Value(): PendingRequest
      reads this
    {
      PendingRequest(fields, ip, pidTgid)
    }

    method Append(f: Field, pidTgid: nat)
      modifies `fields, `pidTgid
      ensures Value() == old(Value()).(fields := old(fields) + [f], pidTgid := pidTgid)
    {
      this.pidTgid, fields := pidTgid, fields + [f];
    }
  }

  /** The entries `es` were taken out, and are on the heap what `msgs` says. */
  ghost predicate Remembered(msgs: seq<(nat, PendingResponse)>, es: seq<ResponseEntry>)
    reads es
  {
    && |es| == |msgs|
    && forall k :: 0 <= k < |es| ==> es[k].out && es[k].conn == msgs[k].0 && es[k].Value() == msgs[k].1
  }

  class Tracker {
    const statics: seq<Field>
    var dynamicTables: map<nat, seq<Field>>
    var pendingResp: map<nat, ResponseEntry>
    var pendingReq: map<nat, RequestEntry>
    ghost var steps: seq<Step> // the sections run so far
    ghost var world: World // where they lead in the model
    ghost var taken: seq<ResponseEntry> // what the flusher took out, oldest first

    ghost function Repr(): set<object>
      reads this
    {
      {this} + pendingResp.Values + pendingReq.Values
    }

    /** The pending responses; each entry belongs to one connection and has not been taken out. */
    ghost predicate HoldsResponses(m: map<nat, PendingResponse>)
      reads this`pendingResp, pendingResp.Values
    {
      && pendingResp.Keys == m.Keys
      && forall conn :: conn in pendingResp ==>
           && pendingResp[conn].conn == conn && !pendingResp[conn].out
           && pendingResp[conn].Value() == m[conn]
    }

    ghost predicate HoldsRequests(m: map<nat, PendingRequest>)
      reads this`pendingReq, pendingReq.Values
    {
      && pendingReq.Keys == m.Keys
      && forall conn :: conn in pendingReq ==> pendingReq[conn].conn == conn && pendingReq[conn].Value() == m[conn]
    }

    /** The maps hold `s`. */
    ghost predicate Holds(s: Shared)
      reads this`dynamicTables, this`pendingResp, this`pendingReq, pendingResp.Values, pendingReq.Values
    {
      dynamicTables == s.tables && HoldsResponses(s.responses) && HoldsRequests(s.requests)
    }

    /** The heap agrees with the model, also on every entry that was ever taken out. */
    ghost predicate Valid()
      reads this, pendingResp.Values, pendingReq.Values, taken
    {
      && world == RunSteps(statics, steps)
      && Holds(world.shared)
      && Remembered(world.emitted + world.inFlight, taken)
    }

    /** Where the response loop is, and what the flusher holds. */
    ghost predicate InHand(h: Handler, queue: seq<ResponseEntry>)
      reads this
    {
      && world.handler == h && |queue| == |world.inFlight|
      && |world.emitted| <= |taken| && queue == taken[|world.emitted|..]
    }

    /** One step of the model was taken; new entries are new objects. */
    twostate predicate Took(step: Step)
      reads this
    {
      && steps == old(steps) + [step] && world == Next(statics, old(world), step)
      && old(taken) <= taken && fresh(Repr() - old(Repr()))
    }

    constructor (statics: seq<Field>)
      ensures Valid() && steps == [] && taken == [] && this.statics == statics
      ensures pendingResp == map[] && pendingReq == map[]
    {
      this.statics := statics;
      dynamicTables, pendingResp, pendingReq := map[], map[], map[];
      steps, world, taken := [], START, [];
    }

    /** The heap is where `step` leads, with `more` just taken out: record that it was taken. */
    ghost method Record(step: Step, more: seq<ResponseEntry>)
      requires world == RunSteps(statics, steps)
      requires var w := Next(statics, world, step); Holds(w.shared) && Remembered(w.emitted + w.inFlight, taken + more)
      modifies this`steps, this`world, this`taken
      ensures Valid() && steps == old(steps) + [step] && world == Next(statics, old(world), step)
      ensures taken == old(taken) + more
    {
      hide RunSteps, Next, Remembered;
      RunSnoc(statics, steps, step);
      steps, world, taken := steps + [step], Next(statics, world, step), taken + more;
    }

    /** A section after which the flusher's entries are as before. */
    ghost method RecordPlain(step: Step)
      requires world == RunSteps(statics, steps)
      requires var w := Next(statics, world, step); Holds(w.shared) && Remembered(w.emitted + w.inFlight, taken)
      modifies this`steps, this`world
      ensures Valid() && steps == old(steps) + [step] && world == Next(statics, old(world), step)
    {
      hide RunSteps, Next, Remembered;
      RunSnoc(statics, steps, step);
      steps, world := steps + [step], Next(statics, world, step);
    }

    // ---------- the table loop ----------

    method Resolve(conn: nat, dynamic: bool, index: int, base: int) returns (r: Option<Field>)
      requires Valid()
      ensures r == ResolveIndexed(statics, TableOf(world.shared, conn), dynamic, index, base)
    {
      if !dynamic {
        if index < 0 || index >= |statics| {
          return None;
        }
        return Some(statics[index]);
      }
      var table := if conn in dynamicTables then dynamicTables[conn] else [];
      var abs := base - 1 - index;
      if abs < 0 || abs >= |table| {
        return None;
      }
      return Some(table[abs]);
    }

    method TableInsert(ghost s: Shared, conn: nat, f: Field)
      requires Holds(s)
      modifies this`dynamicTables
      ensures Holds(s.(tables := s.tables[conn := TableOf(s, conn) + [f]]))
    {
      var table := if conn in dynamicTables then dynamicTables[conn] else [];
      dynamicTables := dynamicTables[conn := table + [f]];
    }

    /** A reference that does not resolve is dropped. */
    method ApplyTableEvent(conn: nat, event: TableEvent)
      requires Valid()
      modifies this`dynamicTables
      ensures Holds(AfterTableEvent(statics, world.shared, conn, event))
    {
      var length := if conn in dynamicTables then |dynamicTables[conn]| else 0;
      assert length == |TableOf(world.shared, conn)|;
      hide RunSteps, Remembered, ResolveIndexed, TableOf, Tracker.Holds;
      match event {
        case Insert(name, value) =>
          TableInsert(world.shared, conn, Field(name, value));
        case RefInsert(dynamic, index, value) =>
          var pair := Resolve(conn, dynamic, index, length);
          if pair.Some? {
            TableInsert(world.shared, conn, Field(pair.value.name, value));
          }
        case Duplicate(index) =>
          var pair := Resolve(conn, true, index, length);
          if pair.Some? {
            TableInsert(world.shared, conn, pair.value);
          }
      }
    }

    /** One turn of the table loop. */
    method OnTableEvent(conn: nat, event: TableEvent)
      requires Valid()
      modifies this`dynamicTables, this`steps, this`world
      ensures Valid() && Took(TableStep(conn, event)) && taken == old(taken)
    {
      hide RunSteps, Next, Remembered, AfterTableEvent, Tracker.Holds;
      OnlyFlusherMoves(statics, world, TableStep(conn, event));
      AfterTable(statics, world, conn, event);
      ApplyTableEvent(conn, event);
      RecordPlain(TableStep(conn, event));
    }

    // ---------- the response loop ----------

    method ReadCurrentBase(e: Step) returns (base: nat)
      requires Valid() && e.ReadBase? && world.handler == Ready
      modifies this`steps, this`world
      ensures Valid() && Took(e)
      ensures world.handler == Based(e.conn, e.ip, e.pidTgid, e.dynamic, e.index, e.value, base)
    {
      hide RunSteps, Next, Remembered;
      OnlyFlusherMoves(statics, world, e);
      AfterReadBase(statics, world, e);
      if e.conn in pendingResp {
        base := pendingResp[e.conn].base;
      } else {
        base := if e.conn in dynamicTables then |dynamicTables[e.conn]| else 0;
      }
      RecordPlain(e);
    }

    method ResolveField(h: Handler) returns (f: Field)
      requires Valid() && h.Based? && world.handler == h
      modifies this`steps, this`world
      ensures Valid() && Took(ResolveName)
      ensures world.handler == Named(h.conn, h.ip, h.pidTgid, f, h.base)
    {
      hide RunSteps, Next, Remembered, ResolveIndexed, Tracker.Holds;
      OnlyFlusherMoves(statics, world, ResolveName);
      AfterResolve(statics, world);
      var pair := Resolve(h.conn, h.dynamic, h.index, h.base);
      f := Field(if pair.Some? then pair.value.name else UNRESOLVED, h.value);
      RecordPlain(ResolveName);
    }

    method AppendRespField(conn: nat, ip: string, pidTgid: nat, f: Field, ghost base: nat, now: int)
      requires Valid() && world.handler == Named(conn, ip, pidTgid, f, base)
      modifies this`pendingResp, this`steps, this`world, pendingResp.Values
      ensures Valid() && Took(AppendField(now)) && world.handler == Ready && taken == old(taken)
    {
      hide RunSteps, Next, Remembered, AppendResponse, Tracker.Holds;
      OnlyFlusherMoves(statics, world, AppendField(now));
      AfterAppend(statics, world, now);
      EntriesApart();
      AppendPending(world.shared, conn, ip, pidTgid, f, now);
      RecordPlain(AppendField(now));
    }

    method AppendPending(ghost s: Shared, conn: nat, ip: string, pidTgid: nat, f: Field, now: int)
      requires Holds(s)
      modifies this`pendingResp, pendingResp.Values
      ensures Holds(AppendResponse(s, conn, ip, pidTgid, f, now))
      ensures fresh(pendingResp.Values - old(pendingResp.Values))
    {
      hide Tracker.HoldsRequests, Tracker.HoldsResponses;
      var length := if conn in dynamicTables then |dynamicTables[conn]| else 0;
      AppendEntry(s.responses, conn, ip, pidTgid, f, now, length);
    }

    method AppendEntry(ghost m: map<nat, PendingResponse>, conn: nat, ip: string, pidTgid: nat, f: Field, now: int,
                       base: nat)
      requires HoldsResponses(m)
      modifies this`pendingResp, pendingResp.Values
      ensures var pr := if conn in m then m[conn] else PendingResponse([], ip, 0, base, 0);
              HoldsResponses(m[conn := pr.(fields := pr.fields + [f], pidTgid := pidTgid, lastUpdate := now)])
      ensures fresh(pendingResp.Values - old(pendingResp.Values))
    {
      var pr;
      if conn in pendingResp {
        pr := pendingResp[conn];
      } else {
        pr := new ResponseEntry(conn, ip, base);
        pendingResp := pendingResp[conn := pr];
      }
      assert forall c :: c in pendingResp && c != conn ==> pendingResp[c] != pr;
      pr.Append(f, pidTgid, now);
    }

    /** What was taken out is not pending. */
    lemma EntriesApart()
      requires Valid()
      ensures forall e :: e in taken ==> e !in pendingResp.Values
    {
      hide RunSteps;
      KeptFromStart();
    }

    /** One response event, its three sections run one after the other. */
    method OnRespEvent(e: Step, now: int)
      requires Valid() && e.ReadBase? && world.handler == Ready
      modifies Repr()
      ensures Valid() && world == HandleWhole(statics, old(world), e, now) && world.handler == Ready
      ensures steps == old(steps) + [e, ResolveName, AppendField(now)]
      ensures taken == old(taken) && fresh(Repr() - old(Repr()))
    {
      hide Tracker.Valid, Next;
      var base := ReadCurrentBase(e);
      var f := ResolveField(Based(e.conn, e.ip, e.pidTgid, e.dynamic, e.index, e.value, base));
      AppendRespField(e.conn, e.ip, e.pidTgid, f, base, now);
    }

    // ---------- the request loop ----------

    method AppendReqField(conn: nat, ip: string, pidTgid: nat, f: Field)
      requires Valid()
      modifies this`pendingReq, this`steps, this`world, pendingReq.Values
      ensures Valid() && Took(RequestField(conn, ip, pidTgid, f)) && taken == old(taken)
    {
      hide RunSteps, Next, Remembered, AppendRequest, Tracker.Holds;
      OnlyFlusherMoves(statics, world, RequestField(conn, ip, pidTgid, f));
      AfterRequestField(statics, world, conn, ip, pidTgid, f);
      AppendPendingReq(world.shared, conn, ip, pidTgid, f);
      RecordPlain(RequestField(conn, ip, pidTgid, f));
    }

    method AppendPendingReq(ghost s: Shared, conn: nat, ip: string, pidTgid: nat, f: Field)
      requires Holds(s)
      modifies this`pendingReq, pendingReq.Values
      ensures Holds(AppendRequest(s, conn, ip, pidTgid, f))
      ensures fresh(pendingReq.Values - old(pendingReq.Values))
    {
      hide Tracker.HoldsRequests, Tracker.HoldsResponses;
      AppendReqEntry(s.requests, conn, ip, pidTgid, f);
    }

    method AppendReqEntry(ghost m: map<nat, PendingRequest>, conn: nat, ip: string, pidTgid: nat, f: Field)
      requires HoldsRequests(m)
      modifies this`pendingReq, pendingReq.Values
      ensures var pr := if conn in m then m[conn] else PendingRequest([], ip, 0);
              HoldsRequests(m[conn := pr.(fields := pr.fields + [f], pidTgid := pidTgid)])
      ensures fresh(pendingReq.Values - old(pendingReq.Values))
    {
      var pr;
      if conn in pendingReq {
        pr := pendingReq[conn];
      } else {
        pr := new RequestEntry(conn, ip);
        pendingReq := pendingReq[conn := pr];
      }
      assert forall c :: c in pendingReq && c != conn ==> pendingReq[c] != pr;
      pr.Append(f, pidTgid);
    }

    method TakeReqFields(conn: nat) returns (pr: RequestEntry?)
      requires Valid()
      modifies this`pendingReq, this`steps, this`world
      ensures Valid() && Took(TakeRequest(conn)) && taken == old(taken) && pendingReq == old(pendingReq) - {conn}
      ensures pr == null <==> conn !in old(world).shared.requests
      ensures pr != null ==> pr.Value() == old(world).shared.requests[conn] && pr !in pendingReq.Values
    {
      hide RunSteps, Next, Remembered, Tracker.HoldsResponses;
      OnlyFlusherMoves(statics, world, TakeRequest(conn));
      AfterTake(statics, world, conn);
      pr := if conn in pendingReq then pendingReq[conn] else null;
      pendingReq := pendingReq - {conn};
      RecordPlain(TakeRequest(conn));
    }

    /** Take the fields of a finished request and build it; a request without fields is not reported. */
    method EmitRequest(conn: nat) returns (req: Option<HTTPRequest>)
      requires Valid()
      modifies this`pendingReq, this`steps, this`world
      ensures Valid() && Took(TakeRequest(conn)) && taken == old(taken)
      ensures req == AskedAt(old(world), conn)
    {
      hide RunSteps, Next, Remembered, Tracker.Holds, Tracker.Valid;
      var pr := TakeReqFields(conn);
      if pr == null || |pr.fields| == 0 {
        return None;
      }
      var built := BuildH3Request(pr.fields);
      req := Some(built);
    }

    // ---------- the flusher ----------

    lemma EntryIs(s: Shared, conn: nat)
      requires Holds(s)
      ensures conn in pendingResp <==> conn in s.responses
      ensures conn in pendingResp ==>
                && !pendingResp[conn].out && pendingResp[conn].conn == conn
                && pendingResp[conn].Value() == s.responses[conn]
    {
    }

    /** Take one pending response out. */
    method TakeOut(ghost s: Shared, conn: nat, pr: ResponseEntry)
      requires Holds(s) && conn in pendingResp && pendingResp[conn] == pr
      modifies this`pendingResp, pr`out
      ensures Holds(s.(responses := s.responses - {conn}))
      ensures pendingResp == old(pendingResp) - {conn}
      ensures pr.out && pr.conn == conn && pr.Value() == s.responses[conn]
    {
      pr.out := true;
      pendingResp := pendingResp - {conn};
    }

    /** One turn of the flusher's loop. */
    method TakeIfIdle(ghost start: Shared, conn: nat, now: int, order: seq<nat>, toEmit: seq<ResponseEntry>)
      returns (order': seq<nat>, toEmit': seq<ResponseEntry>)
      requires conn in pendingResp && Holds(Without(start, order)) && InStart(start, order)
      requires Remembered(Extracted(start, order), toEmit)
      modifies this`pendingResp, pendingResp.Values
      ensures InStart(start, order') && Holds(Without(start, order')) && Remembered(Extracted(start, order'), toEmit')
      ensures order' == if IsIdle(start, conn, now) then order + [conn] else order
      ensures pendingResp == old(pendingResp) || pendingResp == old(pendingResp) - {conn}
    {
      EntryIs(Without(start, order), conn);
      StillThere(start, order, conn, now);
      StillOut(Extracted(start, order), toEmit, pendingResp[conn]);
      hide Without, IsIdle, Remembered, Extracted, InStart;
      order', toEmit' := order, toEmit;
      var pr := pendingResp[conn];
      if now - pr.lastUpdate >= FLUSH_IDLE_AFTER {
        TakeOut(Without(start, order), conn, pr);
        OneMore(start, order, conn, toEmit, pr);
        order', toEmit' := order + [conn], toEmit + [pr];
      }
    }

    /** Take out every response that has been idle long enough, in whatever order the map yields them. */
    method TakeIdle(ghost start: Shared, now: int) returns (order: seq<nat>, toEmit: seq<ResponseEntry>)
      requires Holds(start)
      modifies this`pendingResp, pendingResp.Values
      ensures ListsIdle(start, order, now) && InStart(start, order) && Holds(Without(start, order))
      ensures Remembered(Extracted(start, order), toEmit)
      ensures pendingResp.Values <= old(pendingResp.Values)
    {
      order, toEmit := [], [];
      ListsStart(start, now);
      var todo := pendingResp.Keys;
      assert todo == start.responses.Keys && Remembered(Extracted(start, order), toEmit) && InStart(start, order);
      hide Without, IsIdle, ListsSoFar, ListsIdle, Remembered, Extracted, InStart;
      hide Tracker.Holds;
      while todo != {}
        invariant Holds(Without(start, order)) && ListsSoFar(start, order, todo, now) && todo <= start.responses.Keys
        invariant InStart(start, order) && Remembered(Extracted(start, order), toEmit)
        invariant forall c :: c in pendingResp ==> c in old(pendingResp) && pendingResp[c] == old(pendingResp)[c]
        decreases |todo|
      {
        var conn :| conn in todo;
        ListsFurther(start, order, todo, conn, now);
        EntryIs(Without(start, order), conn);
        todo := todo - {conn};
        order, toEmit := TakeIfIdle(start, conn, now, order, toEmit);
      }
      ListsEnd(start, order, now);
    }

    /** One tick of the flusher. */
    method FlushIdleResponses(now: int) returns (ghost order: seq<nat>, toEmit: seq<ResponseEntry>)
      requires Valid() && world.inFlight == []
      modifies this`pendingResp, this`steps, this`world, this`taken, pendingResp.Values
      ensures Valid() && Took(Flush(now, order)) && ListsIdle(old(world).shared, order, now)
      ensures taken == old(taken) + toEmit && Remembered(world.inFlight, toEmit) && |toEmit| == |world.inFlight|
    {
      hide RunSteps, Remembered, Next, Extracted, ListsIdle, Without, InStart, Tracker.Holds;
      assert world.emitted + [] == world.emitted;
      EntriesApart();
      var listed;
      listed, toEmit := TakeIdle(world.shared, now);
      order := listed;
      FlushedTogether(statics, world, now, order, taken, toEmit);
      Record(Flush(now, order), toEmit);
    }

    /** Build and hand out the oldest response in flight: the fields it had when it was taken out. */
    method EmitOldest(pr: ResponseEntry) returns (resp: Option<HTTPResponse>)
      requires Valid() && world.inFlight != [] && |world.emitted| < |taken| && taken[|world.emitted|] == pr
      modifies this`steps, this`world
      ensures Valid() && Took(EmitNext) && taken == old(taken)
      ensures var fields := old(world).inFlight[0].1.fields;
              resp == if fields == [] then None else Some(ResponseOf("HTTP/3", fields, []))
    {
      assert (world.emitted + world.inFlight)[|world.emitted|] == world.inFlight[0];
      assert pr.Value() == world.inFlight[0].1;
      AfterEmit(statics, world);
      hide RunSteps, Remembered, Next, Tracker.Holds;
      if |pr.fields| == 0 {
        resp := None;
      } else {
        var built := BuildH3Response(pr.fields);
        resp := Some(built);
      }
      RecordPlain(EmitNext);
    }

    // ---------- any schedule ----------

    /** Whatever sections ran, an entry that had been taken out is as it was. */
    twostate lemma TakenFixed(ran: seq<Step>)
      requires old(Valid()) && Valid() && old(taken) <= taken && steps == old(steps) + ran
      ensures forall e :: e in old(taken) ==> e.out && e.Value() == old(e.Value())
    {
      hide RunSteps, Tracker.Holds;
      ExtractedNeverChanges(statics, old(steps), ran);
      var msgs := old(world.emitted + world.inFlight);
      forall k | 0 <= k < |old(taken)|
        ensures old(taken)[k].out && old(taken)[k].Value() == old(taken[k].Value())
      {
        assert taken[k] == old(taken)[k] && (world.emitted + world.inFlight)[k] == msgs[k];
      }
    }

    /** No field is lost, duplicated or reordered on the heap: the fields of the entries taken out for a connection,
        followed by those of its pending entry, are exactly the appended ones. */
    lemma HeapConserves(conn: nat)
      requires Valid()
      ensures OwnFields(world.appended, conn) ==
              TakenFields(taken, conn) + if conn in pendingResp then pendingResp[conn].fields else []
    {
      hide RunSteps, OwnFields, RequestFields;
      NoFieldLost(statics, steps, conn);
      TakenFieldsAre(world.emitted + world.inFlight, taken, conn);
    }

    ghost method Stutter(step: Step)
      requires Valid() && Next(statics, world, step) == world
      modifies this`steps
      ensures Valid() && Took(step) && taken == old(taken)
    {
      hide RunSteps, Next, Remembered;
      RunSnoc(statics, steps, step);
      steps := steps + [step];
    }

    /** The section a step stands for, if the goroutine it belongs to is there. */
    method Turn(s: Step, h: Handler, queue: seq<ResponseEntry>)
      returns (h': Handler, queue': seq<ResponseEntry>, out: Out, ghost ran: Step)
      requires Valid() && InHand(h, queue)
      modifies Repr()
      ensures Valid() && SameSection(s, ran) && InHand(h', queue') && Reports(old(world), world, out)
      ensures steps == old(steps) + [ran] && old(taken) <= taken && fresh(Repr() - old(Repr()))
    {
      hide RunSteps, Next, Remembered, Reports, Tracker.Holds, Tracker.Valid;
      h', queue', out, ran := h, queue, Out([], []), s;
      ghost var before := world;
      match s
      case TableStep(conn, event) =>
        OtherKeepsHand(statics, before, s);
        NothingReported(statics, before, s);
        OnTableEvent(conn, event);
      case RequestField(conn, ip, pidTgid, f) =>
        OtherKeepsHand(statics, before, s);
        NothingReported(statics, before, s);
        AppendReqField(conn, ip, pidTgid, f);
      case TakeRequest(conn) =>
        OtherKeepsHand(statics, before, s);
        RequestReported(statics, before, conn);
        var req := EmitRequest(conn);
        out := Out([], Listed(req));
      case Flush(_, _) => h', queue', out, ran := TurnFlusher(s, h, queue);
      case EmitNext => h', queue', out, ran := TurnFlusher(s, h, queue);
      case _ =>
        NothingReported(statics, before, s);
        h' := TurnHandler(s, h, queue);
    }

    /** A section of the response loop. */
    method TurnHandler(s: Step, h: Handler, ghost queue: seq<ResponseEntry>) returns (h': Handler)
      requires Valid() && InHand(h, queue) && (s.ReadBase? || s.ResolveName? || s.AppendField?)
      modifies Repr()
      ensures Valid() && Took(s) && InHand(h', queue)
    {
      hide RunSteps, Remembered, Tracker.Holds, Tracker.Valid;
      h' := h;
      OnlyFlusherMoves(statics, world, s);
      if s.ReadBase? && h == Ready {
        var base := ReadCurrentBase(s);
        h' := Based(s.conn, s.ip, s.pidTgid, s.dynamic, s.index, s.value, base);
      } else if s.ResolveName? && h.Based? {
        var f := ResolveField(h);
        h' := Named(h.conn, h.ip, h.pidTgid, f, h.base);
      } else if s.AppendField? && h.Named? {
        AppendRespField(h.conn, h.ip, h.pidTgid, h.field, h.base, s.now);
        h' := Ready;
      } else {
        Stutter(s);
      }
    }

    /** A section of the flusher. */
    method TurnFlusher(s: Step, h: Handler, queue: seq<ResponseEntry>)
      returns (h': Handler, queue': seq<ResponseEntry>, out: Out, ghost ran: Step)
      requires Valid() && InHand(h, queue) && (s.Flush? || s.EmitNext?)
      modifies Repr()
      ensures Valid() && Took(ran) && SameSection(s, ran) && InHand(h', queue') && Reports(old(world), world, out)
    {
      hide RunSteps, Remembered, Reports, Tracker.Holds, Tracker.Valid;
      h', queue', out, ran := h, queue, Out([], []), s;
      ghost var before := world;
      if s.Flush? && queue == [] {
        ghost var order;
        order, queue' := FlushIdleResponses(s.at);
        ran := Flush(s.at, order);
        AfterFlush(statics, before, s.at, order);
        NothingReported(statics, before, ran);
      } else if s.EmitNext? && queue != [] {
        AfterEmit(statics, before);
        var reply := EmitOldest(queue[0]);
        queue' := queue[1..];
        out := Out(Listed(reply), []);
        ReplyReported(statics, before);
      } else {
        Stutter(s);
        Unchanged(before);
      }
    }

    /** Any schedule of sections. Along all of it the heap stays where the model is, an entry that was taken out
        keeps the value it had, and what is reported is what the model emits. */
    method Drive(schedule: seq<Step>, h: Handler, queue: seq<ResponseEntry>) returns (out: Out, ghost ran: seq<Step>)
      requires Valid() && InHand(h, queue)
      modifies Repr()
      ensures Valid() && steps == old(steps) + ran && fresh(Repr() - old(Repr()))
      ensures |ran| == |schedule| && forall k :: 0 <= k < |ran| ==> SameSection(schedule[k], ran[k])
      ensures old(taken) <= taken && forall e :: e in old(taken) ==> e.out && e.Value() == old(e.Value())
      ensures Reports(old(world), world, out)
      decreases |schedule|
    {
      hide SameSection, Reports, Tracker.Valid, Tracker.InHand;
      out, ran := Out([], []), [];
      ghost var before := world;
      Unchanged(before);
      if schedule != [] {
        var h', queue', first;
        ghost var step;
        h', queue', first, step := Turn(schedule[0], h, queue);
        ghost var between := world;
        out, ran := Drive(schedule[1..], h', queue');
        ReportsOn(before, between, world, first, out);
        out, ran := Out(first.replies + out.replies, first.requests + out.requests), [step] + ran;
      }
      TakenFixed(ran);
    }

    lemma KeptFromStart()
      requires Valid()
      ensures forall e :: e in taken ==> e.out
    {
      hide RunSteps, Tracker.Holds;
      forall e | e in taken ensures e.out {
        var k :| 0 <= k < |taken| && taken[k] == e;
      }
    }
  }

  // ---------- entries that were taken out ----------

  ghost function TakenFields(es: seq<ResponseEntry>, conn: nat): seq<Field>
    reads es
  {
    if es == [] then []
    else TakenFields(es[..|es| - 1], conn) + if es[|es| - 1].conn == conn then es[|es| - 1].fields else []
  }

  lemma {:induction false} TakenFieldsAre(msgs: seq<(nat, PendingResponse)>, es: seq<ResponseEntry>, conn: nat)
    requires Remembered(msgs, es)
    ensures TakenFields(es, conn) == ResponseFields(msgs, conn)
  {
    if es != [] {
      TakenFieldsAre(msgs[..|msgs| - 1], es[..|es| - 1], conn);
    }
  }

  /** The map decides in which order idle responses come. */
  predicate SameSection(s: Step, ran: Step) {
    s == ran || (s.Flush? && ran.Flush? && s.at == ran.at)
  }

  lemma OtherKeepsHand(statics: seq<Field>, w: World, s: Step)
    requires s.TableStep? || s.RequestField? || s.TakeRequest?
    ensures var w' := Next(statics, w, s);
            w'.handler == w.handler && w'.emitted == w.emitted && w'.inFlight == w.inFlight
  {
  }

  // ---------- what is reported ----------

  datatype Out = Out(replies: seq<HTTPResponse>, requests: seq<HTTPRequest>)

  function Listed<T>(o: Option<T>): seq<T> {
    match o case None => [] case Some(x) => [x]
  }

  /** The responses built from what was emitted; one without fields is not reported. */
  function RepliesOf(msgs: seq<(nat, PendingResponse)>): seq<HTTPResponse> {
    if msgs == [] then []
    else
      var fields := msgs[|msgs| - 1].1.fields;
      RepliesOf(msgs[..|msgs| - 1]) + if fields == [] then [] else [ResponseOf("HTTP/3", fields, [])]
  }

  function RequestsOf(msgs: seq<(nat, PendingRequest)>): seq<HTTPRequest> {
    if msgs == [] then []
    else
      var fields := msgs[|msgs| - 1].1.fields;
      RequestsOf(msgs[..|msgs| - 1]) + if fields == [] then [] else [RequestOf("HTTP/3", fields, [])]
  }

  function AskedAt(w: World, conn: nat): Option<HTTPRequest> {
    if conn !in w.shared.requests || w.shared.requests[conn].fields == [] then None
    else Some(RequestOf("HTTP/3", w.shared.requests[conn].fields, []))
  }

  /** From `w` to `w'` the model emits and takes exactly what `out` reports, in order. */
  ghost predicate Reports(w: World, w': World, out: Out) {
    && w.emitted <= w'.emitted && RepliesOf(w'.emitted) == RepliesOf(w.emitted) + out.replies
    && w.taken <= w'.taken && RequestsOf(w'.taken) == RequestsOf(w.taken) + out.requests
  }

  lemma Unchanged(w: World)
    ensures Reports(w, w, Out([], []))
  {
    assert RepliesOf(w.emitted) + [] == RepliesOf(w.emitted) && RequestsOf(w.taken) + [] == RequestsOf(w.taken);
  }

  lemma NothingReported(statics: seq<Field>, w: World, s: Step)
    requires !s.EmitNext? && !s.TakeRequest?
    ensures Reports(w, Next(statics, w, s), Out([], []))
  {
    hide RepliesOf, RequestsOf;
    Unchanged(w);
    var w' := Next(statics, w, s);
    assert w'.emitted == w.emitted && w'.taken == w.taken;
  }

  lemma ReplyReported(statics: seq<Field>, w: World)
    requires w.inFlight != []
    ensures var fields := w.inFlight[0].1.fields;
            Reports(w, Next(statics, w, EmitNext),
                    Out(if fields == [] then [] else [ResponseOf("HTTP/3", fields, [])], []))
  {
    var w' := Next(statics, w, EmitNext);
    assert w'.emitted[..|w.emitted|] == w.emitted;
    assert RequestsOf(w.taken) + [] == RequestsOf(w.taken);
  }

  lemma RequestReported(statics: seq<Field>, w: World, conn: nat)
    ensures Reports(w, Next(statics, w, TakeRequest(conn)), Out([], Listed(AskedAt(w, conn))))
  {
    var w' := Next(statics, w, TakeRequest(conn));
    assert w'.taken[..|w.taken|] == w.taken;
    assert RepliesOf(w.emitted) + [] == RepliesOf(w.emitted) && RequestsOf(w.taken) + [] == RequestsOf(w.taken);
  }

  lemma ReportsOn(a: World, b: World, c: World, first: Out, later: Out)
    requires Reports(a, b, first) && Reports(b, c, later)
    ensures Reports(a, c, Out(first.replies + later.replies, first.requests + later.requests))
  {
    hide RepliesOf, RequestsOf;
    assert RepliesOf(a.emitted) + (first.replies + later.replies) ==
      (RepliesOf(a.emitted) + first.replies) + later.replies;
    assert RequestsOf(a.taken) + (first.requests + later.requests) ==
      (RequestsOf(a.taken) + first.requests) + later.requests;
  }

  lemma StillOut(msgs: seq<(nat, PendingResponse)>, es: seq<ResponseEntry>, pr: ResponseEntry)
    requires Remembered(msgs, es) && !pr.out
    ensures pr !in es
  {
  }

  lemma OneMore(s: Shared, order: seq<nat>, conn: nat, es: seq<ResponseEntry>, pr: ResponseEntry)
    requires InStart(s, order) && Remembered(Extracted(s, order), es)
    requires conn in s.responses && pr.out && pr.conn == conn && pr.Value() == s.responses[conn]
    ensures InStart(s, order + [conn]) && Remembered(Extracted(s, order + [conn]), es + [pr])
  {
  }

  lemma FlushedTogether(statics: seq<Field>, w: World, now: int, order: seq<nat>, es: seq<ResponseEntry>,
                        more: seq<ResponseEntry>)
    requires w.inFlight == [] && ListsIdle(w.shared, order, now) && InStart(w.shared, order)
    requires Remembered(w.emitted, es) && Remembered(Extracted(w.shared, order), more)
    ensures var w' := Next(statics, w, Flush(now, order));
            && w'.shared == Without(w.shared, order) && w'.inFlight == Extracted(w.shared, order)
            && Remembered(w'.emitted + w'.inFlight, es + more) && |w'.inFlight| == |more|
  {
    AfterFlush(statics, w, now, order);
  }

  /** A response not yet taken out is as it was. */
  lemma StillThere(s: Shared, order: seq<nat>, conn: nat, now: int)
    requires conn in Without(s, order).responses
    ensures conn in s.responses && Without(s, order).responses[conn] == s.responses[conn]
    ensures IsIdle(s, conn, now) <==> now - s.responses[conn].lastUpdate >= FLUSH_IDLE_AFTER
    ensures Without(s, order + [conn]) == Without(s, order).(responses := Without(s, order).responses - {conn})
  {
    assert forall c :: c in order + [conn] <==> c in order || c == conn;
  }
}
