/** When the flusher takes a pending response: every field that is appended postpones it, and a response whose fields
    come close enough together is reported in one piece. */
module H3Idle {
  import opened Basics
  import opened Hpack
  import opened Qpack
  import opened H3Pending

  /** When the last field of the connection was appended, of all those of the run. */
  function LastAppend(statics: seq<Field>, steps: seq<Step>, conn: nat): Option<int> {
    if steps == [] then None
    else
      var init, last := steps[..|steps| - 1], steps[|steps| - 1];
      var h := RunSteps(statics, init).handler;
      if last.AppendField? && h.Named? && h.conn == conn then Some(last.now) else LastAppend(statics, init, conn)
  }

  lemma LastAppendSnoc(statics: seq<Field>, steps: seq<Step>, step: Step, conn: nat)
    ensures LastAppend(statics, steps + [step], conn) ==
            var h := RunSteps(statics, steps).handler;
            if step.AppendField? && h.Named? && h.conn == conn then Some(step.now) else LastAppend(statics, steps, conn)
  {
    hide RunSteps;
    assert (steps + [step])[..|steps|] == steps;
  }

  /** What a step leaves of a pending response: an append stamps it, and only an append makes one pending. */
  lemma StampsStep(statics: seq<Field>, w: World, step: Step, conn: nat)
    ensures var s, s', h := w.shared, Next(statics, w, step).shared, w.handler;
            if step.AppendField? && h.Named? && h.conn == conn then
              conn in s'.responses && s'.responses[conn].lastUpdate == step.now
            else conn in s'.responses ==> conn in s.responses && s'.responses[conn] == s.responses[conn]
  {
    hide Mirrored, ResolveIndexed;
  }

  /** While it is pending, a response keeps the base and the client address its first field gave it; the process is that
      of the last field. */
  lemma OwnerKept(statics: seq<Field>, w: World, step: Step, conn: nat)
    requires conn in Next(statics, w, step).shared.responses
    ensures var pr, h := Next(statics, w, step).shared.responses[conn], w.handler;
            if conn in w.shared.responses then
              var was := w.shared.responses[conn];
              && pr.ip == was.ip && pr.base == was.base
              && pr.pidTgid == if step.AppendField? && h.Named? && h.conn == conn then h.pidTgid else was.pidTgid
            else step.AppendField? && h.Named? && h.conn == conn && pr.ip == h.ip && pr.pidTgid == h.pidTgid
  {
    hide Mirrored, ResolveIndexed;
  }

  /** A pending response carries the time of its last field. */
  lemma {:induction false} Stamped(statics: seq<Field>, steps: seq<Step>, conn: nat)
    ensures var s := RunSteps(statics, steps).shared;
            conn in s.responses ==> LastAppend(statics, steps, conn) == Some(s.responses[conn].lastUpdate)
  {
    if steps != [] {
      hide Next, LastAppend, RunSteps;
      var init, last := steps[..|steps| - 1], steps[|steps| - 1];
      assert steps == init + [last];
      Stamped(statics, init, conn);
      RunSnoc(statics, init, last);
      LastAppendSnoc(statics, init, last, conn);
      StampsStep(statics, RunSteps(statics, init), last, conn);
    }
  }

  /** Right after a field was appended at `now`, its response counts as idle at `at` if and only if 50 milliseconds have
      passed since. */
  lemma AppendPostpones(statics: seq<Field>, w: World, now: int, at: int)
    requires w.handler.Named?
    ensures IsIdle(Next(statics, w, AppendField(now)).shared, w.handler.conn, at) <==> at - now >= 50_000_000
  {
    StampsStep(statics, w, AppendField(now), w.handler.conn);
  }

  /** A tick of the flusher takes a pending response if and only if its last field is 50 milliseconds old. */
  lemma FlushTakesIff(statics: seq<Field>, steps: seq<Step>, at: int, order: seq<nat>, conn: nat)
    requires var w := RunSteps(statics, steps); w.inFlight == [] && ListsIdle(w.shared, order, at)
    requires conn in RunSteps(statics, steps).shared.responses
    ensures LastAppend(statics, steps, conn).Some?
    ensures var w, w' := RunSteps(statics, steps), RunSteps(statics, steps + [Flush(at, order)]);
            && (conn !in w'.shared.responses <==> at - LastAppend(statics, steps, conn).value >= 50_000_000)
            && (conn in w'.shared.responses ==> w'.shared.responses[conn] == w.shared.responses[conn])
            && (conn !in w'.shared.responses ==> (conn, w.shared.responses[conn]) in w'.inFlight)
  {
    hide RunSteps, LastAppend;
    Stamped(statics, steps, conn);
    RunSnoc(statics, steps, Flush(at, order));
    var w := RunSteps(statics, steps);
    var w' := Next(statics, w, Flush(at, order));
    AfterFlush(statics, w, at, order);
    if conn in order {
      var k :| 0 <= k < |order| && order[k] == conn;
      assert IsIdle(w.shared, order[k], at) && w'.inFlight[k] == (conn, w.shared.responses[conn]);
    }
  }

  // ---------- a response is reported in one piece ----------

  /** In the run `steps` behind `past`, whenever the flusher ticks while a response of the connection is pending, the
      last field of that response is less than 50 milliseconds old. */
  ghost predicate Tight(statics: seq<Field>, past: seq<Step>, steps: seq<Step>, conn: nat) {
    forall k :: 0 <= k < |steps| && steps[k].Flush? ==>
      var before := past + steps[..k];
      conn in RunSteps(statics, before).shared.responses ==>
        && LastAppend(statics, before, conn).Some?
        && steps[k].at - LastAppend(statics, before, conn).value < 50_000_000
  }

  lemma TightInit(statics: seq<Field>, past: seq<Step>, steps: seq<Step>, conn: nat)
    requires steps != [] && Tight(statics, past, steps, conn)
    ensures Tight(statics, past, steps[..|steps| - 1], conn)
  {
    hide RunSteps, LastAppend;
    var init := steps[..|steps| - 1];
    forall k | 0 <= k < |init| && init[k].Flush?
      ensures var before := past + init[..k];
              conn in RunSteps(statics, before).shared.responses ==>
                && LastAppend(statics, before, conn).Some?
                && init[k].at - LastAppend(statics, before, conn).value < 50_000_000
    {
      assert init[..k] == steps[..k] && steps[k] == init[k];
    }
  }

  /** The fields of the connection that a step appends. */
  lemma FieldsStep(statics: seq<Field>, w: World, step: Step, conn: nat)
    ensures var w', h := Next(statics, w, step), w.handler;
            var added := if step.AppendField? && h.Named? && h.conn == conn then [h.field] else [];
            && OwnFields(w'.appended, conn) == OwnFields(w.appended, conn) + added
            && (!step.Flush? ==> PendingFields(w'.shared, conn) == PendingFields(w.shared, conn) + added)
  {
    hide Mirrored, ResolveIndexed, OwnFields;
    var h := w.handler;
    assert OwnFields(w.appended, conn) + [] == OwnFields(w.appended, conn);
    assert PendingFields(w.shared, conn) + [] == PendingFields(w.shared, conn);
    if step.AppendField? && h.Named? {
      OwnSnoc(w.appended, (h.conn, h.field), conn);
    }
  }

  /** A tick that finds the last field too recent, or nothing pending, leaves the response as it is. */
  lemma RecentStays(statics: seq<Field>, w: World, at: int, order: seq<nat>, conn: nat)
    requires conn in w.shared.responses ==> at - w.shared.responses[conn].lastUpdate < 50_000_000
    ensures PendingFields(Next(statics, w, Flush(at, order)).shared, conn) == PendingFields(w.shared, conn)
  {
    assert conn in order && ListsIdle(w.shared, order, at) ==> IsIdle(w.shared, conn, at);
  }

  /** While the fields come that close together, the pending response holds all that were appended since. */
  lemma {:induction false} HeldTogether(statics: seq<Field>, past: seq<Step>, steps: seq<Step>, conn: nat)
    requires conn !in RunSteps(statics, past).shared.responses && Tight(statics, past, steps, conn)
    ensures var w, w' := RunSteps(statics, past), RunSteps(statics, past + steps);
            OwnFields(w'.appended, conn) == OwnFields(w.appended, conn) + PendingFields(w'.shared, conn)
  {
    hide RunSteps, LastAppend, Next, OwnFields;
    if steps == [] {
      assert past + steps == past;
      var own := OwnFields(RunSteps(statics, past).appended, conn);
      assert own + [] == own;
    } else {
      var init, last := steps[..|steps| - 1], steps[|steps| - 1];
      TightInit(statics, past, steps, conn);
      HeldTogether(statics, past, init, conn);
      var before := RunSteps(statics, past + init);
      assert past + steps == (past + init) + [last];
      RunSnoc(statics, past + init, last);
      FieldsStep(statics, before, last, conn);
      Stamped(statics, past + init, conn);
      if last.Flush? {
        assert steps[|init|] == last && steps[..|init|] == init;
        RecentStays(statics, before, last.at, last.order, conn);
      }
    }
  }

  /** So the tick that takes the response takes it whole: its entry holds every field that was appended since nothing
      was pending. */
  lemma ReportedWhole(statics: seq<Field>, past: seq<Step>, steps: seq<Step>, at: int, order: seq<nat>, conn: nat)
    requires conn !in RunSteps(statics, past).shared.responses && Tight(statics, past, steps, conn)
    requires conn in RunSteps(statics, past + steps).shared.responses
    requires var w := RunSteps(statics, past + steps); w.inFlight == [] && ListsIdle(w.shared, order, at)
    ensures LastAppend(statics, past + steps, conn).Some?
    ensures at - LastAppend(statics, past + steps, conn).value >= 50_000_000 ==>
              exists pr ::
                && (conn, pr) in RunSteps(statics, past + steps + [Flush(at, order)]).inFlight
                && OwnFields(RunSteps(statics, past + steps).appended, conn) ==
                   OwnFields(RunSteps(statics, past).appended, conn) + pr.fields
  {
    hide RunSteps, LastAppend, Next, OwnFields;
    HeldTogether(statics, past, steps, conn);
    FlushTakesIff(statics, past + steps, at, order, conn);
  }
}
