/** The per-connection dispatch of the sniffer as it runs. */
module Sniffer {
  import opened Basics
  import opened Hpack
  import opened Http2Spec
  import opened Http2Framing
  import opened Http2
  import opened Http1Spec
  import opened Http1
  import opened SnifferSpec

  function SeenRequests(out: seq<CompletedRequest>): seq<SeenRequest> {
    seq(|out|, k requires 0 <= k < |out| => Multiplexed(out[k]))
  }

  function SeenResponses(out: seq<CompletedResponse>): seq<SeenResponse> {
    seq(|out|, k requires 0 <= k < |out| => MultiplexedResponse(out[k]))
  }

  lemma SeenIsMultiplexed(done: seq<Finished>)
    ensures SeenRequests(BuiltRequests(done)) == MultiplexedAll(done)
    ensures SeenResponses(BuiltResponses(done)) == MultiplexedResponses(done)
  {
  }

  /** A new HTTP/2 connection fed its first request bytes, and its early response bytes if there are any. */
  method StartHttp2<D>(codec: Codec<D>, first: Bytes, early: Bytes) returns (conn: HTTP2Conn<D>, seen: Seen)
    ensures conn.Valid() && conn.req.codec == codec && fresh(conn) && fresh(conn.Entries())
    ensures fresh(conn.req) && fresh(conn.resp)
    ensures var fed := Fed(codec, NewFeeder(codec), first, false);
            var back := if early == [] then NewFeeder(codec) else Fed(codec, NewFeeder(codec), early, false);
            && conn.req.Contents() == Cleared(fed) && conn.resp.Contents() == Cleared(back)
            && seen == Seen(MultiplexedAll(fed.dir.tab.done), MultiplexedResponses(back.dir.tab.done))
  {
    hide Fed, H2Direction.Valid;
    conn := new HTTP2Conn(codec);
    SeenIsMultiplexed(Fed(codec, NewFeeder(codec), first, false).dir.tab.done);
    SeenIsMultiplexed(Fed(codec, NewFeeder(codec), early, false).dir.tab.done);
    var requests := conn.FeedRequest(first, false);
    var responses: seq<CompletedResponse> := [];
    if |early| > 0 {
      responses := conn.FeedResponse(early, false);
    }
    OwnEntries(conn.req);
    OwnEntries(conn.resp);
    seen := Seen(SeenRequests(requests), SeenResponses(responses));
  }

  twostate lemma OwnBefore<D>(d: H2Direction<D>)
    requires old(d.Valid()) && old(d.done) == []
    ensures old(d.Entries()) == old(d.streams).Values
  {
  }

  class Connection<D> {
    const codec: Codec<D>
    const requestBuffer: ByteBuffer
    const responseBuffer: ByteBuffer
    var proto: Proto
    var h2: HTTP2Conn?<D>

    ghost function Repr(): set<object>
      reads this, h2, if h2 == null then {} else {h2.req, h2.resp}
    {
      {this, requestBuffer, responseBuffer} +
      if h2 == null then {} else {h2, h2.req, h2.resp} + h2.req.streams.Values + h2.resp.streams.Values
    }

    ghost predicate Valid()
      reads this, requestBuffer, responseBuffer, h2, if h2 == null then {} else h2.Entries()
    {
      && requestBuffer != responseBuffer
      && (proto == HTTP2 <==> h2 != null)
      && (h2 != null ==> h2.Valid() && h2.req.codec == codec)
    }

    ghost function State(): Conn<D>
      reads this, requestBuffer, responseBuffer, h2, if h2 == null then {} else {h2.req, h2.resp}
    {
      Conn(requestBuffer.data, responseBuffer.data, proto,
           if h2 == null then NewFeeder(codec) else h2.req.Contents(),
           if h2 == null then NewFeeder(codec) else h2.resp.Contents(), false)
    }

    /** Changes elsewhere do not reach this connection. */
    twostate lemma Untouched(changed: set<object>)
      requires old(Valid()) && old(Repr()) !! changed
      requires forall o: object :: old(allocated(o)) && o !in changed ==> unchanged(o)
      ensures Valid()
      ensures Repr() == old(Repr()) && forall o: object :: o in Repr() ==> old(allocated(o))
      ensures State() == old(State())
    {
      hide H2Direction.Valid;
      ghost var mine := old(Repr());
      assert this in mine && requestBuffer in mine && responseBuffer in mine;
      if h2 != null {
        assert h2 in mine && h2.req in mine && h2.resp in mine;
        OwnBefore(h2.req);
        OwnBefore(h2.resp);
        forall st | st in old(h2.req.Entries()) ensures unchanged(st) {
          assert st in mine;
        }
        forall st | st in old(h2.resp.Entries()) ensures unchanged(st) {
          assert st in mine;
        }
        assert h2.req.Valid();
        assert h2.resp.Valid();
      }
    }

    constructor (codec: Codec<D>)
      ensures Valid() && State() == NewConn(codec) && this.codec == codec && fresh(Repr())
    {
      this.codec := codec;
      requestBuffer := new ByteBuffer();
      responseBuffer := new ByteBuffer();
      proto, h2 := Unknown, null;
    }

    /** A read on a connection known to speak HTTP/2; a read of exactly the capture limit may have lost
        bytes. */
    method OnHttp2Event(e: Event) returns (seen: Seen)
      requires Valid() && proto == HTTP2
      modifies Repr()
      ensures Valid() && h2 == old(h2) && fresh(Repr() - old(Repr()))
      ensures (State(), seen) == OnHttp2(codec, old(State()), e)
    {
      hide Fed, Cleared, H2Direction.Valid;
      var truncated := |e.data| == MAX_CAPTURED_READ;
      if e.isReq {
        SeenIsMultiplexed(Fed(codec, h2.req.Contents(), e.data, truncated).dir.tab.done);
        var out := h2.FeedRequest(e.data, truncated);
        seen := Seen(SeenRequests(out), []);
      } else {
        SeenIsMultiplexed(Fed(codec, h2.resp.Contents(), e.data, truncated).dir.tab.done);
        var out := h2.FeedResponse(e.data, truncated);
        seen := Seen([], SeenResponses(out));
      }
    }

    /** The verdict HTTP/2: hand the bytes behind the preface and any early response bytes over. */
    method SwitchToHttp2() returns (seen: Seen)
      requires Valid() && h2 == null && |requestBuffer.data| >= |Preface()|
      modifies this, requestBuffer, responseBuffer
      ensures Valid() && h2 != null && fresh(h2) && fresh(h2.req) && fresh(h2.resp)
      ensures fresh(h2.req.streams.Values) && fresh(h2.resp.streams.Values)
      ensures (State(), seen) == HandOver(codec, old(State()))
    {
      hide Fed, Cleared, HTTP2Conn.Valid;
      var first, early := requestBuffer.data[|Preface()|..], responseBuffer.data;
      requestBuffer.Reset();
      responseBuffer.Reset();
      proto := HTTP2;
      h2, seen := StartHttp2(codec, first, early);
    }

    method OnHttp1Event(e: Event) returns (seen: Seen, crashed: bool)
      requires Valid() && h2 == null
      modifies requestBuffer, responseBuffer
      ensures Valid() && h2 == null
      ensures var (conn, s) := OnHttp1(old(State()), e);
              seen == s && crashed == conn.crashed && (!crashed ==> State() == conn)
    {
      hide RequestsIn, ResponsesIn;
      if e.isReq {
        var out;
        out, crashed := DrainRequests(requestBuffer);
        seen := Seen(PlainAll(out), []);
      } else {
        var out;
        out, crashed := DrainResponses(responseBuffer);
        seen := Seen([], PlainResponses(out));
      }
    }

    /** One event of the connection. A crash of a parser ends the process, so nothing is said of the state
        it leaves. */
    method Handle(e: Event) returns (seen: Seen, crashed: bool)
      requires Valid()
      modifies Repr()
      ensures Valid() && fresh(Repr() - old(Repr()))
      ensures var (conn, s) := Step(codec, old(State()), e);
              seen == s && crashed == conn.crashed && (!crashed ==> State() == conn)
    {
      hide OnHttp1, OnHttp2, HandOver, H2Direction.Valid;
      crashed := false;
      if proto == HTTP2 {
        seen := OnHttp2Event(e);
        return;
      }
      if e.isReq {
        requestBuffer.Write(e.data);
      } else {
        responseBuffer.Write(e.data);
      }
      if proto == Unknown {
        var verdict := DetectProto(requestBuffer.data);
        if verdict == HTTP2 {
          seen := SwitchToHttp2();
          return;
        }
        if verdict == Unknown {
          return Seen([], []), false;
        }
        proto := HTTP1;
      }
      seen, crashed := OnHttp1Event(e);
    }
  }

  /** The event loop over all connections. */
  class EventLoop<D> {
    const codec: Codec<D>
    var connections: map<nat, Connection<D>>

    /** Connections share no object. */
    ghost predicate Valid()
      reads *
    {
      && (forall p :: p in connections ==> Sound(connections[p]))
      && (forall p, q :: p in connections && q in connections && p != q ==>
            connections[p].Repr() !! connections[q].Repr())
    }

    ghost predicate Sound(conn: Connection<D>)
      reads *
    {
      conn.Valid() && conn.codec == codec && this !in conn.Repr()
    }

    ghost function Footprint(): set<object>
      reads *
    {
      set p, o | p in connections && o in connections[p].Repr() :: o
    }

    ghost function Conns(): map<nat, Conn<D>>
      reads *
    {
      map p | p in connections :: connections[p].State()
    }

    /** The connections of the table as it was, each as it was. */
    twostate predicate OthersKept()
      reads *
    {
      forall p :: p in old(connections) ==>
        var conn := old(connections)[p];
        && conn.Valid() && conn.Repr() == old(conn.Repr()) && conn.State() == old(conn.State())
        && forall o: object :: o in conn.Repr() ==> old(allocated(o))
    }

    /** A change to the loop alone leaves its connections as they were. */
    twostate lemma KeptApart(loop: set<object>)
      requires old(Valid()) && loop == {this}
      requires forall o: object :: old(allocated(o)) && o !in loop ==> unchanged(o)
      ensures OthersKept()
    {
      hide Connection.Valid, Connection.State, Connection.Repr;
      forall p | p in old(connections)
        ensures var conn := old(connections)[p];
                && conn.Valid() && conn.Repr() == old(conn.Repr()) && conn.State() == old(conn.State())
                && forall o: object :: o in conn.Repr() ==> old(allocated(o))
      {
        old(connections)[p].Untouched(loop);
      }
    }

    /** `conn` is new to the table and to the heap. */
    twostate predicate Added(ptr: nat, new conn: Connection<D>)
      reads *
    {
      && ptr !in old(connections) && connections == old(connections)[ptr := conn]
      && Sound(conn) && fresh(conn.Repr()) && conn.State() == NewConn(codec)
    }

    twostate lemma AddedValid(ptr: nat, new conn: Connection<D>)
      requires old(Valid()) && OthersKept() && Added(ptr, conn)
      ensures Valid()
    {
      hide Connection.Valid, Connection.State, Connection.Repr;
    }

    twostate lemma AddedConns(ptr: nat, new conn: Connection<D>)
      requires old(Valid()) && OthersKept() && Added(ptr, conn)
      ensures Conns() == old(Conns())[ptr := NewConn(codec)]
    {
      hide Connection.Valid, Connection.State, Connection.Repr, EventLoop.Valid;
    }

    twostate lemma AddedFootprint(ptr: nat, new conn: Connection<D>)
      requires old(Valid()) && OthersKept() && Added(ptr, conn)
      ensures fresh(Footprint() - old(Footprint()))
    {
      hide Connection.Valid, Connection.State, Connection.Repr, EventLoop.Valid;
    }

    constructor (codec: Codec<D>)
      ensures Valid() && this.codec == codec && Conns() == map[]
    {
      this.codec := codec;
      connections := map[];
    }

    method Create(ptr: nat) returns (conn: Connection<D>)
      requires Valid() && ptr !in connections
      modifies this
      ensures Valid() && connections == old(connections)[ptr := conn] && fresh(conn.Repr())
      ensures fresh(Footprint() - old(Footprint()))
      ensures Conns() == old(Conns())[ptr := NewConn(codec)]
    {
      hide Connection.Valid, Connection.State, Connection.Repr;
      hide EventLoop.Valid, EventLoop.Conns, EventLoop.Footprint;
      conn := new Connection(codec);
      label before:
      connections := connections[ptr := conn];
      conn.Untouched@before({this});
      KeptApart({this});
      AddedValid(ptr, conn);
      AddedConns(ptr, conn);
      AddedFootprint(ptr, conn);
    }

    method ConnectionFor(ptr: nat) returns (conn: Connection<D>)
      requires Valid()
      modifies this
      ensures Valid() && ptr in connections && connections[ptr] == conn
      ensures Conns() == old(Conns())[ptr := if ptr in old(Conns()) then old(Conns())[ptr] else NewConn(codec)]
      ensures fresh(Footprint() - old(Footprint())) && conn.Repr() <= Footprint()
    {
      hide Connection.Valid, Connection.State, Connection.Repr;
      if ptr in connections {
        conn := connections[ptr];
      } else {
        conn := Create(ptr);
      }
    }

    /** A read on connection `ptr`. */
    method Advance(ptr: nat, conn: Connection<D>, event: Event) returns (seen: Seen, crashed: bool)
      requires Valid() && ptr in connections && connections[ptr] == conn
      modifies conn.Repr()
      ensures var (state, s) := Step(codec, old(Conns())[ptr], event);
              seen == s && crashed == state.crashed && (!crashed ==> Valid() && Conns() == old(Conns())[ptr := state])
      ensures fresh(Footprint() - old(Footprint()))
    {
      hide Step;
      hide Connection.Valid, Connection.State, Connection.Repr;
      ghost var safe := conn.Repr();
      seen, crashed := conn.Handle(event);
      forall p | p in connections && p != ptr
        ensures connections[p].Valid()
        ensures connections[p].Repr() == old(connections[p].Repr())
        ensures forall o: object :: o in connections[p].Repr() ==> old(allocated(o))
        ensures connections[p].State() == old(connections[p].State())
      {
        connections[p].Untouched(safe);
      }
    }

    /** A close forgets the connection. */
    method Forget(ptr: nat)
      requires Valid()
      modifies this
      ensures Valid() && Conns() == old(Conns()) - {ptr} && Footprint() <= old(Footprint())
    {
      hide Connection.Valid, Connection.State, Connection.Repr;
      connections := connections - {ptr};
      forall p | p in connections
        ensures connections[p].Valid()
        ensures connections[p].Repr() == old(connections[p].Repr())
        ensures forall o: object :: o in connections[p].Repr() ==> old(allocated(o))
        ensures connections[p].State() == old(connections[p].State())
      {
        connections[p].Untouched({this});
      }
    }

    /** One record, against the pure loop: the connections are in the states `WorldStep` gives them, and what
        was seen is what it adds. Objects that are new to the loop are new. */
    method Turn(r: Record, ghost w: World<D>) returns (seen: Seen, crashed: bool)
      requires Valid() && w.conns == Conns() && !w.crashed
      modifies this, Footprint()
      ensures var w' := WorldStep(codec, w, r);
              && crashed == w'.crashed && (!crashed ==> Valid() && Conns() == w'.conns)
              && SeenOn(w', r.ptr) == if r.Close? then [] else SeenOn(w, r.ptr) + seen.requests
      ensures seen == SeenAt(codec, w, r)
      ensures fresh(Footprint() - old(Footprint()))
    {
      hide Step;
      hide Connection.Valid, Connection.State, Connection.Repr;
      match r
      case Close(ptr) =>
        Forget(ptr);
        seen, crashed := Seen([], []), false;
      case Read(ptr, event) =>
        seen, crashed := TurnRead(ptr, event, w);
    }

    method TurnRead(ptr: nat, event: Event, ghost w: World<D>) returns (seen: Seen, crashed: bool)
      requires Valid() && w.conns == Conns() && !w.crashed
      modifies this, Footprint()
      ensures var w' := WorldStep(codec, w, Read(ptr, event));
              crashed == w'.crashed && (!crashed ==> Valid() && Conns() == w'.conns)
      ensures seen == Step(codec, ConnOf(codec, w, ptr), event).1
      ensures fresh(Footprint() - old(Footprint()))
    {
      hide Step, EventLoop.Valid, EventLoop.Conns, EventLoop.Footprint;
      hide Connection.Valid, Connection.State, Connection.Repr;
      var conn := ConnectionFor(ptr);
      ghost var between := Footprint();
      label mid:
      seen, crashed := Advance(ptr, conn, event);
      forall o: object | o in Footprint() && o !in old(Footprint()) ensures fresh(o) {
        if o in between {
          assert o in between - old(Footprint());
        } else {
          assert o in Footprint() - between && fresh@mid(o);
        }
      }
    }

    /** The loop itself, over the records that remain: all of them, or up to a crash. */
    method Serve(records: seq<Record>, ghost past: seq<Record>) returns (out: seq<Seen>, crashed: bool)
      requires Valid() && !RunWorld(codec, past).crashed && Conns() == RunWorld(codec, past).conns
      modifies this, Footprint()
      ensures fresh(Footprint() - old(Footprint()))
      ensures var w := RunWorld(codec, past + records);
              crashed == w.crashed && (!crashed ==> Valid() && Conns() == w.conns && |out| == |records|)
      ensures SeenAll(codec, past, records, out)
      decreases |records|
    {
      hide Step, WorldStep, SeenAt, SeenAll, RunWorld;
      hide EventLoop.Valid, EventLoop.Conns, EventLoop.Footprint;
      out, crashed := [], false;
      if records == [] {
        NothingSeen(codec, past, records);
        assert past + records == past;
      } else {
        var r, rest := records[0], records[1..];
        WorldSnoc(codec, past, r);
        assert past + records == (past + [r]) + rest;
        var seen;
        seen, crashed := Turn(r, RunWorld(codec, past));
        var later: seq<Seen> := [];
        if crashed {
          CrashedStays(codec, past + [r], rest);
          NothingSeen(codec, past + [r], rest);
        } else {
          ghost var between := Footprint();
          label mid:
          later, crashed := Serve(rest, past + [r]);
          forall o: object | o in Footprint() && o !in old(Footprint()) ensures fresh(o) {
            if o in between {
              assert o in between - old(Footprint());
            } else {
              assert o in Footprint() - between && fresh@mid(o);
            }
          }
        }
        SeenCons(codec, past, r, rest, seen, later);
        assert records == [r] + rest;
        out := [seen] + later;
      }
    }
  }
}
