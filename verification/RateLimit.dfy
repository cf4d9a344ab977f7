/** The per-source token bucket of the XDP filter: lazy refill in unsigned 64-bit arithmetic, and exactly
    which packets it lets through. */
module RateLimit {
  import opened Basics
  import opened Xdp

  /** A bucket holds `burst` tokens and gains one every `nsPerToken` nanoseconds. */
  datatype Limits = Limits(burst: nat, nsPerToken: nat)

  /** Positive limits that leave room for any refill below 2^64. Everything below holds for all of them. */
  type Rate = l: Limits | 0 < l.burst < U64 / 2 && 2 <= l.nsPerToken
    witness Limits(1000, 1_000_000)

  /** The limits in force: 1000 tokens, and 1000 new ones a second. */
  const LIMITS: Rate := Limits(1000, 1_000_000)

  // ---------- whole intervals ----------

  function Intervals(l: Rate, span: nat): nat { span / l.nsPerToken }

  function Duration(l: Rate, n: nat): nat { n * l.nsPerToken }

  /** The whole intervals of a time span: the one number that fits. */
  lemma IntervalsFit(l: Rate, span: nat, n: nat)
    ensures Duration(l, Intervals(l, span)) <= span < Duration(l, Intervals(l, span)) + l.nsPerToken
    ensures Duration(l, n) <= span < Duration(l, n) + l.nsPerToken ==> Intervals(l, span) == n
  {
    var d := Intervals(l, span);
    if d < n {
      DurationGrows(l, d + 1, n);
    } else if n < d {
      DurationGrows(l, n + 1, d);
    }
    DurationSum(l, d, 1);
    DurationSum(l, n, 1);
  }

  lemma DurationGrows(l: Rate, m: nat, n: nat)
    requires m <= n
    ensures Duration(l, m) <= Duration(l, n)
  {
  }

  lemma DurationSum(l: Rate, m: nat, n: nat)
    ensures Duration(l, m + n) == Duration(l, m) + Duration(l, n)
    ensures Duration(l, 0) == 0 && Duration(l, 1) == l.nsPerToken
  {
  }

  /** Of a sum of spans: the intervals add up, with one more at most, and none if the second span is made of
      whole intervals. */
  lemma IntervalsSum(l: Rate, a: nat, b: nat)
    ensures Intervals(l, a) + Intervals(l, b) <= Intervals(l, a + b) <=
              Intervals(l, a) + Intervals(l, b + l.nsPerToken - 1)
  {
    hide Intervals, Duration;
    var p, q := Intervals(l, a), Intervals(l, b);
    IntervalsFit(l, a, p);
    IntervalsFit(l, b, q);
    DurationSum(l, p, q);
    DurationSum(l, p + q, 1);
    DurationSum(l, q, 1);
    IntervalsFit(l, a + b, p + q);
    IntervalsFit(l, a + b, p + q + 1);
    IntervalsFit(l, b + l.nsPerToken - 1, q);
    IntervalsFit(l, b + l.nsPerToken - 1, q + 1);
  }

  /** No span the clock can measure holds more than 2^63 intervals. */
  lemma IntervalsBelow(l: Rate, span: nat)
    requires span < U64
    ensures Intervals(l, span) < U64 / 2
  {
    var n := Intervals(l, span);
    IntervalsFit(l, span, n);
    if n >= U64 / 2 {
      DurationGrows(l, U64 / 2, n);
    }
  }

  // ---------- one packet ----------

  datatype Bucket = Bucket(lastUpdatedAt: nat, tokens: nat)

  /** Lazy refill, wrapping as the machine does. */
  function Refill(l: Rate, b: Bucket, now: nat): Bucket {
    var elapsed := (now - b.lastUpdatedAt) % U64;
    var newTokens := Intervals(l, elapsed);
    if newTokens > 0 then
      var tokens := (b.tokens + newTokens) % U64;
      Bucket((b.lastUpdatedAt + Duration(l, newTokens)) % U64, if tokens > l.burst then l.burst else tokens)
    else b
  }

  /** One packet of a known source. */
  function Spend(b: Bucket): (Bucket, Verdict) {
    if b.tokens == 0 then (b, Drop) else (b.(tokens := b.tokens - 1), Pass)
  }

  function Check(l: Rate, b: Option<Bucket>, now: nat): (Bucket, Verdict) {
    match b
    case None => (Bucket(now, l.burst - 1), Pass)
    case Some(bucket) => Spend(Refill(l, bucket, now))
  }

  // ---------- the map of buckets, as it runs ----------

  /** The limiter of one address family; the IPv4 and the IPv6 form are this class at two key types. */
  class Limiter<Addr(==, !new)> {
    const limits: Rate
    var buckets: map<Addr, Bucket>

    constructor (limits: Rate)
      ensures buckets == map[] && this.limits == limits
    {
      this.limits, buckets := limits, map[];
    }

    ghost function Of(ip: Addr): Option<Bucket>
      reads this
    {
      if ip in buckets then Some(buckets[ip]) else None
    }

    method CheckRateLimit(ip: Addr, now: nat) returns (verdict: Verdict)
      requires now < U64
      modifies this
      ensures (Of(ip), verdict) == (Some(Check(limits, old(Of(ip)), now).0), Check(limits, old(Of(ip)), now).1)
      ensures forall other :: other != ip ==> Of(other) == old(Of(other))
    {
      if ip !in buckets {
        buckets := buckets[ip := Bucket(now, limits.burst - 1)];
        return Pass;
      }
      var b := buckets[ip];
      var elapsed := (now - b.lastUpdatedAt) % U64;
      var newTokens := Intervals(limits, elapsed);
      if newTokens > 0 {
        b := b.(tokens := (b.tokens + newTokens) % U64);
        if b.tokens > limits.burst {
          b := b.(tokens := limits.burst);
        }
        b := b.(lastUpdatedAt := (b.lastUpdatedAt + Duration(limits, newTokens)) % U64);
      }
      buckets := buckets[ip := b];
      if b.tokens == 0 {
        return Drop;
      }
      buckets := buckets[ip := b.(tokens := b.tokens - 1)];
      return Pass;
    }
  }

  // ---------- runs of one source ----------

  /** Arrival times of one source's packets at the limiter: a clock that never goes back. */
  ghost predicate Clocked(ts: seq<nat>) {
    && (forall i, j :: 0 <= i <= j < |ts| ==> ts[i] <= ts[j])
    && (forall i :: 0 <= i < |ts| ==> ts[i] < U64)
  }

  /** The bucket after the arrivals `ts`. */
  function After(l: Rate, ts: seq<nat>): (b: Option<Bucket>)
    ensures ts != [] ==> b.Some?
  {
    if ts == [] then None else Some(Check(l, After(l, ts[..|ts| - 1]), ts[|ts| - 1]).0)
  }

  predicate Passes(l: Rate, ts: seq<nat>, k: nat)
    requires k < |ts|
  {
    Check(l, After(l, ts[..k]), ts[k]).1 == Pass
  }

  /** How many of the packets `i`, ..., `j - 1` pass. */
  function PassCount(l: Rate, ts: seq<nat>, i: nat, j: nat): (n: nat)
    requires i <= j <= |ts|
    ensures n <= j - i
  {
    if i == j then 0 else PassCount(l, ts, i, j - 1) + if Passes(l, ts, j - 1) then 1 else 0
  }

  /** Whole token intervals between the first arrival and time `t`. */
  function Grid(l: Rate, ts: seq<nat>, t: nat): nat
    requires ts != [] && ts[0] <= t
  {
    (t - ts[0]) / l.nsPerToken
  }

  /** The tokens packet `k` finds, after refill (a new source finds a full bucket). */
  function Found(l: Rate, ts: seq<nat>, k: nat): nat
    requires k < |ts|
  {
    if k == 0 then l.burst else Refill(l, After(l, ts[..k]).value, ts[k]).tokens
  }

  lemma RefillSound(l: Rate, b: Bucket, now: nat)
    requires b.tokens <= l.burst && b.lastUpdatedAt <= now < U64
    ensures var n := Intervals(l, now - b.lastUpdatedAt);
            Refill(l, b, now) ==
            Bucket(b.lastUpdatedAt + Duration(l, n), if b.tokens + n > l.burst then l.burst else b.tokens + n)
    ensures Refill(l, b, now).lastUpdatedAt <= now < Refill(l, b, now).lastUpdatedAt + l.nsPerToken
  {
    hide Intervals, Duration;
    var elapsed := now - b.lastUpdatedAt;
    IntervalsFit(l, elapsed, 0);
    IntervalsBelow(l, elapsed);
    DurationSum(l, 0, 0);
  }

  /** What a later packet does, on the bucket its predecessors left. */
  lemma LastPacket(l: Rate, ts: seq<nat>)
    requires |ts| > 1
    ensures var n := |ts| - 1;
            var found := Refill(l, After(l, ts[..n]).value, ts[n]);
            && After(l, ts) == Some(Spend(found).0) && Found(l, ts, n) == found.tokens
            && (Passes(l, ts, n) <==> found.tokens > 0)
  {
    hide Refill;
  }

  lemma FirstPacket(l: Rate, t: nat)
    ensures After(l, [t]) == Some(Bucket(t, l.burst - 1)) && Found(l, [t], 0) == l.burst && Passes(l, [t], 0)
    ensures Grid(l, [t], t) == 0
  {
    assert [t][..0] == [];
    IntervalsFit(l, 0, 0);
    DurationSum(l, 0, 0);
  }

  /** Run invariants: never more tokens than the burst, never a timestamp ahead of the clock, no wrap-around;
      the timestamp is the last token instant, an exact multiple of the interval after the first
      arrival, so no remainder is ever lost. */
  lemma {:induction false} RunInvariant(l: Rate, ts: seq<nat>)
    requires Clocked(ts) && ts != []
    ensures var b := After(l, ts).value;
            var now := ts[|ts| - 1];
            && b.tokens <= l.burst && b.lastUpdatedAt <= now
            && b.lastUpdatedAt == ts[0] + Duration(l, Grid(l, ts, now))
            && b.tokens == Found(l, ts, |ts| - 1) - (if Passes(l, ts, |ts| - 1) then 1 else 0)
            && (Passes(l, ts, |ts| - 1) <==> Found(l, ts, |ts| - 1) > 0)
  {
    hide Intervals, Duration, Refill, After, Found, Passes;
    var n := |ts| - 1;
    DurationSum(l, 0, 0);
    if n == 0 {
      assert ts == [ts[0]];
      FirstPacket(l, ts[0]);
    } else {
      var init := ts[..n];
      RunInvariant(l, init);
      LastPacket(l, ts);
      var b := After(l, init).value;
      assert init[0] == ts[0] && init[n - 1] <= ts[n];
      RefillSound(l, b, ts[n]);
      GridStep(l, ts, ts[n - 1], b.lastUpdatedAt, ts[n]);
      DurationSum(l, Grid(l, ts, ts[n - 1]), Intervals(l, ts[n] - b.lastUpdatedAt));
    }
  }

  lemma TokensSince(l: Rate, start: nat, n: nat, last: nat, now: nat)
    requires last == start + Duration(l, n) && last <= now
    ensures Intervals(l, now - start) == n + Intervals(l, now - last)
  {
    hide Intervals, Duration;
    var m := Intervals(l, now - last);
    IntervalsFit(l, now - last, m);
    DurationSum(l, n, m);
    IntervalsFit(l, now - start, n + m);
  }

  lemma GridStep(l: Rate, ts: seq<nat>, s: nat, last: nat, now: nat)
    requires ts != [] && ts[0] <= s && last == ts[0] + Duration(l, Grid(l, ts, s)) && last <= now
    ensures Grid(l, ts, now) == Grid(l, ts, s) + Intervals(l, now - last)
  {
    TokensSince(l, ts[0], Grid(l, ts, s), last, now);
  }

  lemma SeenFromPrefix(l: Rate, ts: seq<nat>, k: nat)
    requires k < |ts|
    ensures var init := ts[..k + 1]; Found(l, init, k) == Found(l, ts, k) && (Passes(l, init, k) <==> Passes(l, ts, k))
  {
    assert ts[..k + 1][..k] == ts[..k];
  }

  /** What one packet leaves for the next: its tokens, less the one it spent, plus the instants passed, up
      to the burst. */
  lemma FoundStep(l: Rate, ts: seq<nat>, k: nat)
    requires Clocked(ts) && k + 1 < |ts|
    ensures ts[0] <= ts[k] <= ts[k + 1] && Grid(l, ts, ts[k]) <= Grid(l, ts, ts[k + 1])
    ensures var left := Found(l, ts, k) - (if Passes(l, ts, k) then 1 else 0) +
              Grid(l, ts, ts[k + 1]) - Grid(l, ts, ts[k]);
            Found(l, ts, k + 1) == if left > l.burst then l.burst else left
    ensures Passes(l, ts, k) <==> Found(l, ts, k) > 0
  {
    var init := ts[..k + 1];
    RunInvariant(l, init);
    SeenFromPrefix(l, ts, k);
    var b := After(l, init).value;
    assert Found(l, ts, k + 1) == Refill(l, b, ts[k + 1]).tokens;
    assert b.lastUpdatedAt == ts[0] + Duration(l, Grid(l, ts, ts[k]));
    hide Refill, Passes, Check, Found, After, Grid;
    RefillSound(l, b, ts[k + 1]);
    GridStep(l, ts, ts[k], b.lastUpdatedAt, ts[k + 1]);
  }

  /** Packet `k` finds at most the burst plus what came in since packet `i`, less what was spent. */
  lemma {:induction false} FoundAtMost(l: Rate, ts: seq<nat>, i: nat, k: nat)
    requires Clocked(ts) && i <= k < |ts|
    ensures Found(l, ts, k) + PassCount(l, ts, i, k) <= l.burst + Grid(l, ts, ts[k]) - Grid(l, ts, ts[i])
    decreases k
  {
    hide Found, Passes, Grid;
    if i == k {
      FoundBounded(l, ts, k);
    } else {
      FoundAtMost(l, ts, i, k - 1);
      FoundStep(l, ts, k - 1);
    }
  }

  lemma FoundBounded(l: Rate, ts: seq<nat>, k: nat)
    requires Clocked(ts) && k < |ts|
    ensures Found(l, ts, k) <= l.burst && (Passes(l, ts, k) <==> Found(l, ts, k) > 0)
  {
    RunInvariant(l, ts[..k + 1]);
    SeenFromPrefix(l, ts, k);
    if k > 0 {
      FoundStep(l, ts, k - 1);
    }
  }

  /** And for some `i` that bound is reached. */
  lemma {:induction false} FoundExactly(l: Rate, ts: seq<nat>, k: nat) returns (i: nat)
    requires Clocked(ts) && k < |ts|
    ensures i <= k && Found(l, ts, k) + PassCount(l, ts, i, k) == l.burst + Grid(l, ts, ts[k]) - Grid(l, ts, ts[i])
  {
    hide Found, Passes, Grid;
    if k == 0 {
      i := 0;
      FirstFindsFull(l, ts);
    } else {
      FoundStep(l, ts, k - 1);
      if Found(l, ts, k) == l.burst {
        i := k;
      } else {
        i := FoundExactly(l, ts, k - 1);
      }
    }
  }

  // ---------- which packets pass ----------

  /** The exact verdict: packet `k` passes if and only if, counted from every earlier packet `i`, fewer packets than
      the burst plus one per token instant since have passed. */
  lemma VerdictExact(l: Rate, ts: seq<nat>, k: nat)
    requires Clocked(ts) && k < |ts|
    ensures Passes(l, ts, k) <==>
            forall i :: 0 <= i <= k ==> PassCount(l, ts, i, k) < l.burst + Grid(l, ts, ts[k]) - Grid(l, ts, ts[i])
  {
    hide Found, Passes, Grid, PassCount;
    FoundBounded(l, ts, k);
    forall i | 0 <= i <= k
      ensures Found(l, ts, k) + PassCount(l, ts, i, k) <= l.burst + Grid(l, ts, ts[k]) - Grid(l, ts, ts[i])
    {
      FoundAtMost(l, ts, i, k);
    }
    var tight := FoundExactly(l, ts, k);
  }

  /** Upper bound between two packets. */
  lemma PassesBetween(l: Rate, ts: seq<nat>, i: nat, j: nat)
    requires Clocked(ts) && i < j <= |ts|
    ensures PassCount(l, ts, i, j) <= l.burst + Grid(l, ts, ts[j - 1]) - Grid(l, ts, ts[i])
  {
    hide Found, Grid, Passes;
    FoundAtMost(l, ts, i, j - 1);
    FoundBounded(l, ts, j - 1);
  }

  /** The packets among the first `k` that pass at a time in [a, b]. */
  function PassedWithin(l: Rate, ts: seq<nat>, k: nat, a: nat, b: nat): nat
    requires k <= |ts|
  {
    if k == 0 then 0
    else PassedWithin(l, ts, k - 1, a, b) + if a <= ts[k - 1] <= b && Passes(l, ts, k - 1) then 1 else 0
  }

  /** A time window holds a contiguous stretch of the packets. */
  lemma {:induction false} WindowIsStretch(l: Rate, ts: seq<nat>, k: nat, a: nat, b: nat) returns (i: nat, j: nat)
    requires Clocked(ts) && k <= |ts|
    ensures i <= j <= k && PassedWithin(l, ts, k, a, b) == PassCount(l, ts, i, j)
    ensures i < j ==> a <= ts[i] && ts[j - 1] <= b && (ts[k - 1] <= b ==> j == k)
  {
    hide Passes;
    if k == 0 {
      i, j := 0, 0;
    } else {
      i, j := WindowIsStretch(l, ts, k - 1, a, b);
      if a <= ts[k - 1] <= b {
        i, j := if i == j then k - 1 else i, k;
      }
    }
  }

  function CeilTokens(l: Rate, span: nat): nat {
    (span + l.nsPerToken - 1) / l.nsPerToken
  }

  lemma CeilIs(l: Rate, span: nat)
    ensures CeilTokens(l, span) == Intervals(l, span + l.nsPerToken - 1)
  {
  }

  lemma GridBetween(l: Rate, ts: seq<nat>, s: nat, t: nat)
    requires ts != [] && ts[0] <= s <= t
    ensures Intervals(l, t - s) <= Grid(l, ts, t) - Grid(l, ts, s) <= CeilTokens(l, t - s)
  {
    IntervalsSum(l, s - ts[0], t - s);
  }

  lemma CeilGrows(l: Rate, x: nat, y: nat)
    requires x <= y
    ensures CeilTokens(l, x) <= CeilTokens(l, y)
  {
    hide Intervals, CeilTokens;
    CeilIs(l, x);
    CeilIs(l, y);
    IntervalsSum(l, x + l.nsPerToken - 1, y - x);
  }

  /** The rate limit: in any time window of any run, at most the burst of packets plus one per started token
      interval of the window pass. */
  lemma RateLimitHolds(l: Rate, ts: seq<nat>, a: nat, b: nat)
    requires Clocked(ts) && a <= b
    ensures PassedWithin(l, ts, |ts|, a, b) <= l.burst + CeilTokens(l, b - a)
  {
    hide Passes, Grid, Intervals, CeilTokens;
    var i, j := WindowIsStretch(l, ts, |ts|, a, b);
    if i < j {
      PassesBetween(l, ts, i, j);
      GridBetween(l, ts, ts[i], ts[j - 1]);
      CeilGrows(l, ts[j - 1] - ts[i], b - a);
    }
  }

  lemma {:induction false} AllPassed(l: Rate, ts: seq<nat>, i: nat, k: nat)
    requires i <= k <= |ts| && forall m :: i <= m < k ==> Passes(l, ts, m)
    ensures PassCount(l, ts, i, k) == k - i
    decreases k
  {
    if i < k {
      AllPassed(l, ts, i, k - 1);
    }
  }

  ghost predicate Conforms(l: Rate, ts: seq<nat>)
    requires Clocked(ts)
  {
    forall i, k :: 0 <= i <= k < |ts| ==> k - i + 1 <= l.burst + Grid(l, ts, ts[k]) - Grid(l, ts, ts[i])
  }

  ghost predicate NoneDropped(l: Rate, ts: seq<nat>) {
    forall k :: 0 <= k < |ts| ==> Passes(l, ts, k)
  }

  lemma {:induction false} ConformingPasses(l: Rate, ts: seq<nat>, k: nat)
    requires Clocked(ts) && Conforms(l, ts) && k < |ts|
    ensures forall m :: 0 <= m <= k ==> Passes(l, ts, m)
  {
    hide Passes, Found, Grid;
    if k > 0 {
      ConformingPasses(l, ts, k - 1);
    }
    var i := FoundExactly(l, ts, k);
    AllPassed(l, ts, i, k);
    FoundBounded(l, ts, k);
  }

  /** Completeness, exactly: no packet of a source is dropped if and only if between any two of its
      arrivals, inclusive, there are at most the burst plus one per token instant in between. */
  lemma NeverDroppedIff(l: Rate, ts: seq<nat>)
    requires Clocked(ts)
    ensures NoneDropped(l, ts) <==> Conforms(l, ts)
  {
    hide Passes, Grid, Found;
    if NoneDropped(l, ts) {
      forall i, k | 0 <= i <= k < |ts| ensures k - i + 1 <= l.burst + Grid(l, ts, ts[k]) - Grid(l, ts, ts[i]) {
        AllPassed(l, ts, i, k);
        FoundAtMost(l, ts, i, k);
        FoundBounded(l, ts, k);
      }
    }
    if Conforms(l, ts) && ts != [] {
      ConformingPasses(l, ts, |ts| - 1);
    }
  }

  /** In terms of elapsed time alone: a source with at most the burst of arrivals plus one per full token interval
      in every stretch is never dropped. */
  lemma SlowSourceNeverDropped(l: Rate, ts: seq<nat>)
    requires Clocked(ts)
    requires forall i, k :: 0 <= i <= k < |ts| ==> k - i + 1 <= l.burst + (ts[k] - ts[i]) / l.nsPerToken
    ensures NoneDropped(l, ts)
  {
    hide Passes, Grid;
    forall i, k | 0 <= i <= k < |ts| ensures k - i + 1 <= l.burst + Grid(l, ts, ts[k]) - Grid(l, ts, ts[i]) {
      GridBetween(l, ts, ts[i], ts[k]);
    }
    NeverDroppedIff(l, ts);
  }

  // ---------- lazy and eager refill ----------

  /** Refilling at a list of instants. */
  function RefillAt(l: Rate, b: Bucket, instants: seq<nat>): Bucket {
    if instants == [] then b else Refill(l, RefillAt(l, b, instants[..|instants| - 1]), instants[|instants| - 1])
  }

  lemma RefillTwice(l: Rate, b: Bucket, s: nat, t: nat)
    requires b.tokens <= l.burst && b.lastUpdatedAt <= s <= t < U64
    ensures Refill(l, Refill(l, b, s), t) == Refill(l, b, t)
  {
    hide Refill, Intervals, Duration;
    RefillSound(l, b, s);
    RefillSound(l, b, t);
    RefillSound(l, Refill(l, b, s), t);
    TokensSince(l, b.lastUpdatedAt, Intervals(l, s - b.lastUpdatedAt), Refill(l, b, s).lastUpdatedAt, t);
    DurationSum(l, Intervals(l, s - b.lastUpdatedAt), Intervals(l, t - Refill(l, b, s).lastUpdatedAt));
  }

  /** Refilling early, at whatever instants, changes nothing: cap and remainder included. */
  lemma {:induction false} RefillAnyTime(l: Rate, b: Bucket, instants: seq<nat>, t: nat)
    requires b.tokens <= l.burst && Clocked(instants + [t])
    requires forall i :: 0 <= i < |instants| ==> b.lastUpdatedAt <= instants[i]
    requires b.lastUpdatedAt <= t
    ensures Refill(l, RefillAt(l, b, instants), t) == Refill(l, b, t)
  {
    hide Refill;
    if instants != [] {
      var init, s := instants[..|instants| - 1], instants[|instants| - 1];
      assert forall i :: 0 <= i < |instants| ==> (instants + [t])[i] == instants[i];
      assert s <= t < U64 by {
        assert (instants + [t])[|instants|] == t;
      }
      assert Clocked(init + [s]) by {
        assert init + [s] == instants;
      }
      RefillAnyTime(l, b, init, s);
      RefillTwice(l, b, s, t);
    }
  }

  /** An eager bucket: at every token instant it gains one token, up to the burst. */
  function Ticks(l: Rate, tokens: nat, n: nat): nat {
    if n == 0 then tokens
    else
      var x := Ticks(l, tokens, n - 1) + 1;
      if x > l.burst then l.burst else x
  }

  lemma {:induction false} TicksClosed(l: Rate, tokens: nat, n: nat)
    requires tokens <= l.burst
    ensures Ticks(l, tokens, n) == if tokens + n > l.burst then l.burst else tokens + n
  {
    if n > 0 {
      TicksClosed(l, tokens, n - 1);
    }
  }

  /** The tokens packet `k` finds in an eager bucket that starts full and spends one per packet. */
  function EagerFound(l: Rate, ts: seq<nat>, k: nat): nat
    requires k < |ts| && forall i :: 0 <= i < |ts| ==> ts[0] <= ts[i]
  {
    if k == 0 then l.burst
    else
      var found := EagerFound(l, ts, k - 1);
      var n := Grid(l, ts, ts[k]) - Grid(l, ts, ts[k - 1]);
      Ticks(l, if found > 0 then found - 1 else 0, if n > 0 then n else 0)
  }

  /** The lazy bucket is the eager one: same tokens before every packet, same verdict. */
  lemma {:induction false} LazyIsEager(l: Rate, ts: seq<nat>, k: nat)
    requires Clocked(ts) && k < |ts|
    ensures EagerFound(l, ts, k) == Found(l, ts, k) && (Passes(l, ts, k) <==> EagerFound(l, ts, k) > 0)
  {
    hide Found, Passes, Grid;
    if k > 0 {
      LazyIsEager(l, ts, k - 1);
      FoundStep(l, ts, k - 1);
      FoundBounded(l, ts, k - 1);
      var found, n := Found(l, ts, k - 1), Grid(l, ts, ts[k]) - Grid(l, ts, ts[k - 1]);
      TicksClosed(l, if found > 0 then found - 1 else 0, n);
    } else {
      FirstFindsFull(l, ts);
    }
    FoundBounded(l, ts, k);
  }

  lemma FirstFindsFull(l: Rate, ts: seq<nat>)
    requires ts != []
    ensures Found(l, ts, 0) == l.burst
  {
  }
}
