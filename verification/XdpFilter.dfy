/** The packet filter as it runs: two blocklists and two rate limiters, one of each per address family. */
module XdpFilter {
  import opened Basics
  import opened Xdp
  import RateLimit
  import opened Blocklist

  /** What the parser of the packet head yields; a frame too short for its headers passes. */
  datatype Frame = Short | IPv4(saddr: Bits) | IPv6(saddr6: Bits) | OtherProtocol

  /** What `net.ParseCIDR` yields, after a bare address got its full prefix length. */
  datatype Cidr = Malformed | Net4(prefix: Bits) | Net6(prefix6: Bits)

  /** The first 96 bits of an IPv4-mapped IPv6 address. */
  function MappedHead(): Bits { seq(96, i => i >= 80) }

  /** A sweep: collect the expired keys while iterating, then delete them. */
  method CleanupExpired(m: Table, now: nat) returns (m': Table)
    ensures m' == Collect(m, now)
  {
    var expired: seq<Bits> := [];
    var todo := m.Keys;
    while todo != {}
      invariant todo <= m.Keys
      invariant forall k :: k in expired <==> k in m && k !in todo && Expired(m[k], now)
      decreases |todo|
    {
      var k :| k in todo;
      todo := todo - {k};
      if Expired(m[k], now) {
        expired := expired + [k];
      }
    }
    m' := m;
    for i := 0 to |expired|
      invariant m' == map k | k in m && k !in expired[..i] :: m[k]
    {
      m' := m' - {expired[i]};
      assert expired[..i + 1] == expired[..i] + [expired[i]];
    }
    assert expired[..|expired|] == expired;
  }

  /** One packet of a parsed source: the blocklist decides first; a block is counted and costs no token. */
  function Judge(l: RateLimit.Rate, m: Table, b: Option<RateLimit.Bucket>, saddr: Bits, now: nat):
    (Table, Option<RateLimit.Bucket>, Verdict)
  {
    if Decide(m, saddr, now) == Drop then (Hit(m, saddr, now), b, Drop)
    else
      var (b', verdict) := RateLimit.Check(l, b, now);
      (m, Some(b'), verdict)
  }

  /** A packet of the source: the blocklist as it stands when the packet arrives, and the time. */
  datatype Arrival = Arrival(table: Table, now: nat)

  function BucketAfter(l: RateLimit.Rate, arrivals: seq<Arrival>, saddr: Bits): Option<RateLimit.Bucket> {
    if arrivals == [] then None
    else
      var last := arrivals[|arrivals| - 1];
      Judge(l, last.table, BucketAfter(l, arrivals[..|arrivals| - 1], saddr), saddr, last.now).1
  }

  // ---------- any schedule, as values ----------

  /** What happens to the filter: a packet, an addition, or a tick of the collector. */
  datatype Action =
    | Arrives(frame: Frame, now: nat)
    | Blocks(cidr: Cidr, at: nat, duration: int, reason: nat)
    | Ticks(now4: nat, now6: nat)

  /** The answer to a packet, whether an addition was accepted, nothing for a tick. */
  datatype Outcome = Decided(verdict: Verdict) | Added(ok: bool) | Swept

  datatype Family = V4 | V6

  function Width(v: Family): nat { if v == V4 then WIDTH4 else WIDTH6 }

  /** The source of a packet of that family. */
  function SourceOf(v: Family, act: Action): Option<Bits> {
    match act
    case Arrives(IPv4(saddr), _) => if v == V4 then Some(saddr) else None
    case Arrives(IPv6(saddr), _) => if v == V6 then Some(saddr) else None
    case _ => None
  }

  /** The network an addition files in the table of that family. An IPv4-mapped one is filed in neither. */
  function TargetOf(v: Family, cidr: Cidr): Option<Bits> {
    match cidr
    case Malformed => None
    case Net4(prefix) => if v == V4 then Some(prefix) else None
    case Net6(prefix) => if v == V6 && !(MappedHead() <= prefix) then Some(prefix) else None
  }

  function InfoFor(act: Action): BlockInfo
    requires act.Blocks?
  {
    BlockInfo(Expiry(act.at, act.duration), 0, act.reason)
  }

  /** What an action does to the table of a family. */
  function OpOf(v: Family, act: Action): Option<Op> {
    match act
    case Arrives(_, now) =>
      var source := SourceOf(v, act);
      if source.Some? then Some(Packet(source.value, now)) else None
    case Blocks(cidr, _, _, _) =>
      var key := TargetOf(v, cidr);
      if key.Some? then Some(Add(key.value, InfoFor(act))) else None
    case Ticks(now4, now6) => Some(Sweep(if v == V4 then now4 else now6))
  }

  function OpsOf(v: Family, acts: seq<Action>): seq<Op> {
    if acts == [] then []
    else
      var op := OpOf(v, acts[|acts| - 1]);
      OpsOf(v, acts[..|acts| - 1]) + if op.Some? then [op.value] else []
  }

  /** The table of a family after a schedule. */
  function TableAfter(v: Family, acts: seq<Action>): Table {
    DoAll(map[], Width(v), OpsOf(v, acts))
  }

  /** The packets of one source, each with the table it meets. */
  function ArrivalsOf(v: Family, acts: seq<Action>, ip: Bits): seq<Arrival> {
    if acts == [] then []
    else
      var init, last := acts[..|acts| - 1], acts[|acts| - 1];
      ArrivalsOf(v, init, ip) + if SourceOf(v, last) == Some(ip) then [Arrival(TableAfter(v, init), last.now)] else []
  }

  /** What a packet of `ip` is answered behind the schedule `acts`. */
  function AnswerTo(v: Family, acts: seq<Action>, ip: Bits, now: nat): Verdict {
    Judge(RateLimit.LIMITS, TableAfter(v, acts), BucketAfter(RateLimit.LIMITS, ArrivalsOf(v, acts, ip), ip), ip, now).2
  }

  function OutcomeOf(acts: seq<Action>, act: Action): Outcome {
    match act
    case Arrives(IPv4(saddr), now) => Decided(AnswerTo(V4, acts, saddr, now))
    case Arrives(IPv6(saddr), now) => Decided(AnswerTo(V6, acts, saddr, now))
    case Arrives(_, _) => Decided(Pass)
    case Blocks(cidr, _, _, _) =>
      var v := if cidr.Net4? then V4 else V6;
      var key := TargetOf(v, cidr);
      Added(key.Some? && Put(TableAfter(v, acts), Width(v), key.value, InfoFor(act)).Some?)
    case Ticks(_, _) => Swept
  }

  lemma TableSnoc(v: Family, acts: seq<Action>, act: Action)
    ensures TableAfter(v, acts + [act]) ==
            match OpOf(v, act) case Some(op) => Do(TableAfter(v, acts), Width(v), op) case None => TableAfter(v, acts)
  {
    hide Do, OpOf;
    assert (acts + [act])[..|acts|] == acts;
    var ops := OpsOf(v, acts);
    if OpOf(v, act).Some? {
      var op := OpOf(v, act).value;
      assert (ops + [op])[..|ops|] == ops;
    } else {
      assert ops + [] == ops;
    }
  }

  /** A packet leaves the table with its hit counted, if it is one. */
  lemma JudgedTable(l: RateLimit.Rate, m: Table, b: Option<RateLimit.Bucket>, saddr: Bits, now: nat)
    ensures Judge(l, m, b, saddr, now).0 == Hit(m, saddr, now)
  {
  }

  lemma BucketSnoc(v: Family, acts: seq<Action>, act: Action, ip: Bits)
    ensures var b := BucketAfter(RateLimit.LIMITS, ArrivalsOf(v, acts, ip), ip);
            BucketAfter(RateLimit.LIMITS, ArrivalsOf(v, acts + [act], ip), ip) ==
            if SourceOf(v, act) == Some(ip) then Judge(RateLimit.LIMITS, TableAfter(v, acts), b, ip, act.now).1 else b
  {
    hide Judge, TableAfter;
    assert (acts + [act])[..|acts|] == acts;
    var arrivals := ArrivalsOf(v, acts, ip);
    if SourceOf(v, act) == Some(ip) {
      var arrival := Arrival(TableAfter(v, acts), act.now);
      assert (arrivals + [arrival])[..|arrivals|] == arrivals;
    } else {
      assert arrivals + [] == arrivals;
    }
  }

  class Filter {
    var lpm4: Table
    var lpm6: Table
    const limiter4: RateLimit.Limiter<Bits>
    const limiter6: RateLimit.Limiter<Bits>

    ghost predicate Valid()
      reads this
    {
      limiter4 != limiter6 && limiter4.limits == limiter6.limits == RateLimit.LIMITS
    }

    /** The filter is where the schedule `acts` leaves a new one. */
    ghost predicate Behind(acts: seq<Action>)
      reads this, limiter4, limiter6
    {
      && lpm4 == TableAfter(V4, acts) && lpm6 == TableAfter(V6, acts)
      && (forall ip: Bits :: limiter4.Of(ip) == BucketAfter(RateLimit.LIMITS, ArrivalsOf(V4, acts, ip), ip))
      && (forall ip: Bits :: limiter6.Of(ip) == BucketAfter(RateLimit.LIMITS, ArrivalsOf(V6, acts, ip), ip))
    }

    constructor ()
      ensures Valid() && Behind([]) && lpm4 == map[] && lpm6 == map[]
      ensures limiter4.buckets == map[] && limiter6.buckets == map[]
    {
      lpm4, lpm6 := map[], map[];
      limiter4 := new RateLimit.Limiter(RateLimit.LIMITS);
      limiter6 := new RateLimit.Limiter(RateLimit.LIMITS);
    }

    /** A packet touches the table and the bucket of its own source and family, and nothing else. */
    method FilterPacket(p: Frame, now: nat) returns (verdict: Verdict)
      requires Valid() && now < U64
      modifies this`lpm4, this`lpm6, limiter4, limiter6
      ensures Valid()
      ensures p.IPv4? ==>
                (lpm4, limiter4.Of(p.saddr), verdict) ==
                  Judge(RateLimit.LIMITS, old(lpm4), old(limiter4.Of(p.saddr)), p.saddr, now)
      ensures p.IPv6? ==>
                (lpm6, limiter6.Of(p.saddr6), verdict) ==
                  Judge(RateLimit.LIMITS, old(lpm6), old(limiter6.Of(p.saddr6)), p.saddr6, now)
      ensures p.Short? || p.OtherProtocol? ==> verdict == Pass
      ensures !p.IPv4? ==> lpm4 == old(lpm4)
      ensures !p.IPv6? ==> lpm6 == old(lpm6)
      ensures forall ip: Bits :: !(p.IPv4? && p.saddr == ip) ==> limiter4.Of(ip) == old(limiter4.Of(ip))
      ensures forall ip: Bits :: !(p.IPv6? && p.saddr6 == ip) ==> limiter6.Of(ip) == old(limiter6.Of(ip))
    {
      match p
      case Short => verdict := Pass;
      case OtherProtocol => verdict := Pass;
      case IPv4(saddr) =>
        var status := Decide(lpm4, saddr, now);
        lpm4 := Hit(lpm4, saddr, now);
        if status == Drop {
          return Drop;
        }
        verdict := limiter4.CheckRateLimit(saddr, now);
      case IPv6(saddr) =>
        var status := Decide(lpm6, saddr, now);
        lpm6 := Hit(lpm6, saddr, now);
        if status == Drop {
          return Drop;
        }
        verdict := limiter6.CheckRateLimit(saddr, now);
    }

    /** Block a prefix for `duration` from `now`. An IPv4-mapped network is filed as IPv4 with its IPv6
        prefix length, which the IPv4 table refuses. */
    method AddBlocked(cidr: Cidr, now: nat, duration: int, reason: nat) returns (ok: bool)
      requires Valid()
      modifies this`lpm4, this`lpm6
      ensures Valid()
      ensures var info := BlockInfo(Expiry(now, duration), 0, reason);
              match cidr
              case Malformed => !ok && lpm4 == old(lpm4) && lpm6 == old(lpm6)
              case Net4(prefix) =>
                lpm6 == old(lpm6) &&
                (match Put(old(lpm4), WIDTH4, prefix, info)
                 case Some(m) => ok && lpm4 == m
                 case None => !ok && lpm4 == old(lpm4))
              case Net6(prefix) =>
                lpm4 == old(lpm4) &&
                if MappedHead() <= prefix then !ok && lpm6 == old(lpm6)
                else
                  match Put(old(lpm6), WIDTH6, prefix, info)
                  case Some(m) => ok && lpm6 == m
                  case None => !ok && lpm6 == old(lpm6)
    {
      var info := BlockInfo(Expiry(now, duration), 0, reason);
      match cidr
      case Malformed =>
        ok := false;
      case Net4(prefix) =>
        var r := Put(lpm4, WIDTH4, prefix, info);
        ok := r.Some?;
        if ok { lpm4 := r.value; }
      case Net6(prefix) =>
        if MappedHead() <= prefix {
          return false;
        }
        var r := Put(lpm6, WIDTH6, prefix, info);
        ok := r.Some?;
        if ok { lpm6 := r.value; }
    }

    /** One tick of the collector. */
    method CollectGarbage(now4: nat, now6: nat)
      requires Valid()
      modifies this`lpm4, this`lpm6
      ensures Valid() && lpm4 == Collect(old(lpm4), now4) && lpm6 == Collect(old(lpm6), now6)
    {
      lpm4 := CleanupExpired(lpm4, now4);
      lpm6 := CleanupExpired(lpm6, now6);
    }

    /** One action, behind the schedule `acts`. */
    method Act(act: Action, ghost acts: seq<Action>) returns (outcome: Outcome)
      requires Valid() && Behind(acts) && (act.Arrives? ==> act.now < U64)
      modifies this`lpm4, this`lpm6, limiter4, limiter6
      ensures Valid() && Behind(acts + [act]) && outcome == OutcomeOf(acts, act)
    {
      hide DoAll, OpsOf, TableAfter, ArrivalsOf, BucketAfter, Judge;
      TableSnoc(V4, acts, act);
      TableSnoc(V6, acts, act);
      forall ip { BucketSnoc(V4, acts, act, ip); }
      forall ip { BucketSnoc(V6, acts, act, ip); }
      match act
      case Arrives(frame, now) =>
        if frame.IPv4? {
          JudgedTable(RateLimit.LIMITS, lpm4, limiter4.Of(frame.saddr), frame.saddr, now);
        } else if frame.IPv6? {
          JudgedTable(RateLimit.LIMITS, lpm6, limiter6.Of(frame.saddr6), frame.saddr6, now);
        }
        var verdict := FilterPacket(frame, now);
        outcome := Decided(verdict);
      case Blocks(cidr, at, duration, reason) =>
        var ok := AddBlocked(cidr, at, duration, reason);
        outcome := Added(ok);
      case Ticks(now4, now6) =>
        CollectGarbage(now4, now6);
        outcome := Swept;
    }

    /** Any schedule: each table is that of its additions, sweeps and packets, each source's bucket that of its own
        packets, and every packet is answered accordingly. */
    method Drive(acts: seq<Action>) returns (outcomes: seq<Outcome>)
      requires Valid() && Behind([])
      requires forall k :: 0 <= k < |acts| && acts[k].Arrives? ==> acts[k].now < U64
      modifies this`lpm4, this`lpm6, limiter4, limiter6
      ensures Valid() && Behind(acts)
      ensures Answered(acts, outcomes)
    {
      hide Filter.Behind, OutcomeOf;
      outcomes := [];
      for n := 0 to |acts|
        invariant Valid() && Behind(acts[..n])
        invariant |outcomes| == n && forall k :: 0 <= k < n ==> outcomes[k] == OutcomeOf(acts[..k], acts[k])
      {
        var outcome := Act(acts[n], acts[..n]);
        assert acts[..n + 1] == acts[..n] + [acts[n]];
        outcomes := outcomes + [outcome];
      }
      assert acts[..|acts|] == acts;
    }
  }

  // ---------- the whole filter, from one source ----------

  /** The packets the filter passes at a time in [a, b]. */
  function FilterPassed(l: RateLimit.Rate, arrivals: seq<Arrival>, saddr: Bits, a: nat, b: nat): nat {
    if arrivals == [] then 0
    else
      var init, last := arrivals[..|arrivals| - 1], arrivals[|arrivals| - 1];
      FilterPassed(l, init, saddr, a, b) +
      if a <= last.now <= b && Judge(l, last.table, BucketAfter(l, init, saddr), saddr, last.now).2 == Pass
      then 1 else 0
  }

  /** The times of the packets that reach the limiter. */
  function Reaching(arrivals: seq<Arrival>, saddr: Bits): seq<nat> {
    if arrivals == [] then []
    else
      var last := arrivals[|arrivals| - 1];
      Reaching(arrivals[..|arrivals| - 1], saddr) +
      if Decide(last.table, saddr, last.now) == Pass then [last.now] else []
  }

  lemma {:induction false} WithinPrefix(l: RateLimit.Rate, ts: seq<nat>, t: nat, k: nat, a: nat, b: nat)
    requires k <= |ts|
    ensures RateLimit.PassedWithin(l, ts + [t], k, a, b) == RateLimit.PassedWithin(l, ts, k, a, b)
  {
    if k > 0 {
      WithinPrefix(l, ts, t, k - 1, a, b);
      assert (ts + [t])[..k - 1] == ts[..k - 1];
    }
  }

  /** Packets dropped by the blocklist leave no trace in the limiter: its bucket is that of the packets that
      reached it, and so are the packets passed. */
  lemma {:induction false} FilterIsLimiter(l: RateLimit.Rate, arrivals: seq<Arrival>, saddr: Bits, a: nat, b: nat)
    ensures var ts := Reaching(arrivals, saddr);
            && BucketAfter(l, arrivals, saddr) == RateLimit.After(l, ts)
            && FilterPassed(l, arrivals, saddr, a, b) == RateLimit.PassedWithin(l, ts, |ts|, a, b)
  {
    hide Decide, RateLimit.Check;
    if arrivals != [] {
      var init, last := arrivals[..|arrivals| - 1], arrivals[|arrivals| - 1];
      FilterIsLimiter(l, init, saddr, a, b);
      var ts := Reaching(init, saddr);
      if Decide(last.table, saddr, last.now) == Pass {
        assert (ts + [last.now])[..|ts|] == ts;
        WithinPrefix(l, ts, last.now, |ts|, a, b);
      } else {
        assert ts + [] == ts;
      }
    }
  }

  ghost predicate ClockedArrivals(arrivals: seq<Arrival>) {
    && (forall i, j :: 0 <= i <= j < |arrivals| ==> arrivals[i].now <= arrivals[j].now)
    && (forall i :: 0 <= i < |arrivals| ==> arrivals[i].now < U64)
  }

  lemma {:induction false} ReachingClocked(arrivals: seq<Arrival>, saddr: Bits)
    requires ClockedArrivals(arrivals)
    ensures RateLimit.Clocked(Reaching(arrivals, saddr))
    ensures forall i :: 0 <= i < |Reaching(arrivals, saddr)| ==>
              Reaching(arrivals, saddr)[i] <= arrivals[|arrivals| - 1].now
  {
    hide Decide;
    if arrivals != [] {
      var init, last := arrivals[..|arrivals| - 1], arrivals[|arrivals| - 1];
      ReachingClocked(init, saddr);
      var before, ts := Reaching(init, saddr), Reaching(arrivals, saddr);
      assert ts == before || ts == before + [last.now];
      hide Reaching;
      if init != [] {
        assert init[|init| - 1].now <= last.now;
      }
    }
  }

  /** The rate limit of the whole filter: however the blocklist changes meanwhile, no time window sees more than
      the burst of packets of one source pass, plus one per started token interval. */
  lemma FilterRateLimit(l: RateLimit.Rate, arrivals: seq<Arrival>, saddr: Bits, a: nat, b: nat)
    requires ClockedArrivals(arrivals) && a <= b
    ensures FilterPassed(l, arrivals, saddr, a, b) <= l.burst + RateLimit.CeilTokens(l, b - a)
  {
    FilterIsLimiter(l, arrivals, saddr, a, b);
    ReachingClocked(arrivals, saddr);
    RateLimit.RateLimitHolds(l, Reaching(arrivals, saddr), a, b);
  }

  // ---------- the verdicts of a schedule ----------

  /** The outcomes of a schedule, as `Filter.Drive` answers them. */
  ghost predicate Answered(acts: seq<Action>, outcomes: seq<Outcome>) {
    |outcomes| == |acts| && forall k :: 0 <= k < |acts| ==> outcomes[k] == OutcomeOf(acts[..k], acts[k])
  }

  /** The packets of `ip` that were passed at a time in [a, b]. */
  function PassedOf(v: Family, acts: seq<Action>, outcomes: seq<Outcome>, ip: Bits, a: nat, b: nat): nat
    requires |outcomes| == |acts|
  {
    if acts == [] then 0
    else
      var n := |acts| - 1;
      PassedOf(v, acts[..n], outcomes[..n], ip, a, b) +
      if SourceOf(v, acts[n]) == Some(ip) && a <= acts[n].now <= b && outcomes[n] == Decided(Pass) then 1 else 0
  }

  lemma PassedSnoc(arrivals: seq<Arrival>, next: Arrival, ip: Bits, a: nat, b: nat)
    ensures FilterPassed(RateLimit.LIMITS, arrivals + [next], ip, a, b) ==
            FilterPassed(RateLimit.LIMITS, arrivals, ip, a, b) +
            if a <= next.now <= b
               && Judge(RateLimit.LIMITS, next.table, BucketAfter(RateLimit.LIMITS, arrivals, ip), ip, next.now).2
                  == Pass
            then 1 else 0
  {
    hide Judge, BucketAfter;
    assert (arrivals + [next])[..|arrivals|] == arrivals;
  }

  lemma NonePassed(ip: Bits, a: nat, b: nat)
    ensures FilterPassed(RateLimit.LIMITS, [], ip, a, b) == 0
  {
  }

  lemma {:induction false} PassedOfSource(v: Family, acts: seq<Action>, outcomes: seq<Outcome>, ip: Bits, a: nat,
                                          b: nat)
    requires Answered(acts, outcomes)
    ensures PassedOf(v, acts, outcomes, ip, a, b) == FilterPassed(RateLimit.LIMITS, ArrivalsOf(v, acts, ip), ip, a, b)
  {
    hide Judge, TableAfter, BucketAfter, FilterPassed;
    NonePassed(ip, a, b);
    if acts != [] {
      var n := |acts| - 1;
      var init, last := acts[..n], acts[n];
      forall k | 0 <= k < n ensures outcomes[..n][k] == OutcomeOf(init[..k], init[k]) {
        assert init[..k] == acts[..k];
      }
      PassedOfSource(v, init, outcomes[..n], ip, a, b);
      assert outcomes[n] == OutcomeOf(init, last);
      if SourceOf(v, last) == Some(ip) {
        PassedSnoc(ArrivalsOf(v, init, ip), Arrival(TableAfter(v, init), last.now), ip, a, b);
      } else {
        assert ArrivalsOf(v, acts, ip) == ArrivalsOf(v, init, ip);
      }
    }
  }

  /** Packets arrive in order and their times fit the clock. */
  ghost predicate ClockedActions(acts: seq<Action>) {
    && (forall i, j :: 0 <= i <= j < |acts| && acts[i].Arrives? && acts[j].Arrives? ==> acts[i].now <= acts[j].now)
    && (forall i :: 0 <= i < |acts| && acts[i].Arrives? ==> acts[i].now < U64)
  }

  /** A source's packets are packets of the schedule. */
  lemma {:induction false} ArrivalsUpTo(v: Family, acts: seq<Action>, ip: Bits, t: nat)
    requires forall k :: 0 <= k < |acts| && acts[k].Arrives? ==> acts[k].now <= t
    ensures forall i :: 0 <= i < |ArrivalsOf(v, acts, ip)| ==> ArrivalsOf(v, acts, ip)[i].now <= t
  {
    hide TableAfter;
    if acts != [] {
      ArrivalsUpTo(v, acts[..|acts| - 1], ip, t);
    }
  }

  lemma MoreClocked(arrivals: seq<Arrival>, next: Arrival)
    requires ClockedArrivals(arrivals) && next.now < U64
    requires forall i :: 0 <= i < |arrivals| ==> arrivals[i].now <= next.now
    ensures ClockedArrivals(arrivals + [next])
  {
  }

  lemma {:induction false} ArrivalsClocked(v: Family, acts: seq<Action>, ip: Bits)
    requires ClockedActions(acts)
    ensures ClockedArrivals(ArrivalsOf(v, acts, ip))
  {
    hide TableAfter, ClockedArrivals;
    if acts == [] {
      NoneClocked();
    } else {
      var init, last := acts[..|acts| - 1], acts[|acts| - 1];
      ArrivalsClocked(v, init, ip);
      if SourceOf(v, last) == Some(ip) {
        ArrivalsUpTo(v, init, ip, last.now);
        MoreClocked(ArrivalsOf(v, init, ip), Arrival(TableAfter(v, init), last.now));
      } else {
        assert ArrivalsOf(v, acts, ip) == ArrivalsOf(v, init, ip);
      }
    }
  }

  lemma NoneClocked()
    ensures ClockedArrivals([])
  {
  }

  /** End to end, for the verdicts the filter gives over any schedule of packets, additions and ticks: no window sees
      more packets of one source pass than 1000 and one per started millisecond. */
  lemma DrivenRateLimit(v: Family, acts: seq<Action>, outcomes: seq<Outcome>, ip: Bits, a: nat, b: nat)
    requires ClockedActions(acts) && Answered(acts, outcomes) && a <= b
    ensures PassedOf(v, acts, outcomes, ip, a, b) <= 1000 + (b - a + 999_999) / 1_000_000
  {
    hide ArrivalsOf, FilterPassed, PassedOf, ClockedArrivals;
    PassedOfSource(v, acts, outcomes, ip, a, b);
    ArrivalsClocked(v, acts, ip);
    FilterRateLimit(RateLimit.LIMITS, ArrivalsOf(v, acts, ip), ip, a, b);
  }

  lemma {:induction false} TableConcat(v: Family, acts: seq<Action>, later: seq<Action>)
    ensures TableAfter(v, acts + later) == DoAll(TableAfter(v, acts), Width(v), OpsOf(v, later))
  {
    hide Do, OpOf, TableAfter;
    if later == [] {
      assert acts + later == acts;
    } else {
      var init, last := later[..|later| - 1], later[|later| - 1];
      TableConcat(v, acts, init);
      assert acts + later == (acts + init) + [last];
      TableSnoc(v, acts + init, last);
      var ops := OpsOf(v, init);
      if OpOf(v, last).Some? {
        assert (ops + [OpOf(v, last).value])[..|ops|] == ops;
      } else {
        assert OpsOf(v, later) == ops;
      }
    }
  }

  lemma {:induction false} OpsKeep(v: Family, acts: seq<Action>, ip: Bits, until: nat)
    requires forall k :: 0 <= k < |acts| && OpOf(v, acts[k]).Some? ==> Keeps(OpOf(v, acts[k]).value, ip, until)
    ensures forall k :: 0 <= k < |OpsOf(v, acts)| ==> Keeps(OpsOf(v, acts)[k], ip, until)
  {
    hide Keeps, OpOf;
    if acts != [] {
      OpsKeep(v, acts[..|acts| - 1], ip, until);
    }
  }

  /** And an accepted block holds: until it expires its address is answered with a drop, whatever is done to the filter
      meanwhile, short of blocking the same address for less or sweeping behind that time. */
  lemma DrivenBlock(v: Family, acts: seq<Action>, act: Action, later: seq<Action>, ip: Bits, now: nat)
    requires act.Blocks? && TargetOf(v, act.cidr) == Some(ip) && act.duration >= 0 && act.at + act.duration < U64
    requires Put(TableAfter(v, acts), Width(v), ip, InfoFor(act)).Some?
    requires forall k :: 0 <= k < |later| && OpOf(v, later[k]).Some? ==>
               Keeps(OpOf(v, later[k]).value, ip, act.at + act.duration)
    requires now <= act.at + act.duration
    ensures AnswerTo(v, acts + [act] + later, ip, now) == Drop
  {
    hide DoAll, TableAfter, OpsOf, Keeps, BucketAfter, ArrivalsOf, Decide, Put;
    TableSnoc(v, acts, act);
    TableConcat(v, acts + [act], later);
    OpsKeep(v, later, ip, act.at + act.duration);
    BlockPersists(TableAfter(v, acts), Width(v), ip, act.at, act.duration, act.reason, OpsOf(v, later), now);
  }

  lemma {:induction false} OpsLeaveAlone(v: Family, acts: seq<Action>, ip: Bits, now: nat)
    requires forall k :: 0 <= k < |acts| && OpOf(v, acts[k]).Some? ==> LeavesAlone(OpOf(v, acts[k]).value, ip, now)
    ensures forall k :: 0 <= k < |OpsOf(v, acts)| ==> LeavesAlone(OpsOf(v, acts)[k], ip, now)
  {
    hide LeavesAlone, OpOf;
    if acts != [] {
      OpsLeaveAlone(v, acts[..|acts| - 1], ip, now);
    }
  }

  /** A block ends, end to end: with no other stored prefix of an address it covers, and none added later, the
      address is answered with a drop up to the expiry, and behind it with the verdict of the rate limiter. */
  lemma DrivenBlockExactly(v: Family, acts: seq<Action>, act: Action, later: seq<Action>, key: Bits, ip: Bits, now: nat,
                           e: nat, laps: int)
    requires act.Blocks? && TargetOf(v, act.cidr) == Some(key) && key <= ip
    requires e < 0x1_0000_0000_0000_0000 && act.at + act.duration == e + laps * 0x1_0000_0000_0000_0000
    requires Put(TableAfter(v, acts), Width(v), key, InfoFor(act)).Some?
    requires forall k :: k in TableAfter(v, acts) && k <= ip ==> k == key
    requires forall k :: 0 <= k < |later| && OpOf(v, later[k]).Some? ==> LeavesAlone(OpOf(v, later[k]).value, ip, now)
    ensures var all := acts + [act] + later;
            AnswerTo(v, all, ip, now) ==
            if e == 0 || now <= e then Drop
            else RateLimit.Check(RateLimit.LIMITS, BucketAfter(RateLimit.LIMITS, ArrivalsOf(v, all, ip), ip), now).1
  {
    hide DoAll, TableAfter, OpsOf, LeavesAlone, BucketAfter, ArrivalsOf, Decide, Put, Expiry, RateLimit.Check;
    TableSnoc(v, acts, act);
    TableConcat(v, acts + [act], later);
    OpsLeaveAlone(v, later, ip, now);
    BlockExactly(TableAfter(v, acts), Width(v), key, ip, act.at, act.duration, act.reason, OpsOf(v, later), now, e,
                 laps);
  }

  /** The first 96 bits are those of an IPv4-mapped address: 80 zeros and 16 ones. */
  predicate IsMapped(prefix: Bits) {
    |prefix| >= 96 && forall i :: 0 <= i < 96 ==> (prefix[i] <==> i >= 80)
  }

  /** An addition is accepted if and only if its network is well-formed and not IPv4-mapped, no longer than an address,
      and stored already or short of the bound of the table. */
  lemma AcceptedIff(acts: seq<Action>, act: Action)
    requires act.Blocks?
    ensures OutcomeOf(acts, act) == Added(true) <==>
            match act.cidr
            case Malformed => false
            case Net4(prefix) =>
              |prefix| <= 32 && (prefix in TableAfter(V4, acts) || |TableAfter(V4, acts)| < 1024)
            case Net6(prefix) =>
              |prefix| <= 128 && !IsMapped(prefix) && (prefix in TableAfter(V6, acts) || |TableAfter(V6, acts)| < 1024)
  {
    hide TableAfter;
    if act.cidr.Net6? {
      MappedIs(act.cidr.prefix6);
    }
  }

  lemma MappedIs(prefix: Bits)
    ensures MappedHead() <= prefix <==> IsMapped(prefix)
  {
    if IsMapped(prefix) {
      assert prefix[..96] == MappedHead();
    }
  }
}
