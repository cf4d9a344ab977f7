/** The blocklist: a longest-prefix-match table with expiry, filled by `AddBlocked`, swept by a collector and
    consulted for every packet. One table serves one address family; prefixes and addresses are bit
    strings, most significant bit first. */
module Blocklist {
  import opened Basics
  import opened Xdp

  type Bits = seq<bool>

  const MAX_ENTRIES := 1024
  const WIDTH4 := 32
  const WIDTH6 := 128

  datatype BlockInfo = BlockInfo(expiresAt: nat, hitCount: nat, reason: nat)

  type Table = map<Bits, BlockInfo>

  // ---------- the trie ----------

  /** The longest stored prefix of `addr` that has at most `n` bits. */
  function LongestUpTo(m: Table, addr: Bits, n: nat): Option<Bits>
    requires n <= |addr|
  {
    if addr[..n] in m then Some(addr[..n])
    else if n == 0 then None
    else LongestUpTo(m, addr, n - 1)
  }

  function Lookup(m: Table, addr: Bits): Option<Bits> {
    LongestUpTo(m, addr, |addr|)
  }

  ghost predicate IsLongest(m: Table, addr: Bits, k: Bits) {
    k in m && k <= addr && forall other :: other in m && other <= addr ==> |other| <= |k|
  }

  lemma {:induction false} LongestUpToIs(m: Table, addr: Bits, n: nat)
    requires n <= |addr|
    requires forall other :: other in m && other <= addr ==> |other| <= n
    ensures match LongestUpTo(m, addr, n)
            case Some(k) => IsLongest(m, addr, k)
            case None => forall k :: k in m ==> !(k <= addr)
  {
    if addr[..n] !in m {
      forall other | other in m && other <= addr ensures n > 0 && |other| <= n - 1 {
        assert other == addr[..|other|];
      }
      if n > 0 {
        LongestUpToIs(m, addr, n - 1);
      }
    }
  }

  /** A lookup finds the longest stored prefix, and there is only one. */
  lemma LookupIs(m: Table, addr: Bits)
    ensures match Lookup(m, addr)
            case Some(k) => IsLongest(m, addr, k)
            case None => forall k :: k in m ==> !(k <= addr)
    ensures forall k :: IsLongest(m, addr, k) ==> Lookup(m, addr) == Some(k)
  {
    LongestUpToIs(m, addr, |addr|);
    forall k | IsLongest(m, addr, k) ensures Lookup(m, addr) == Some(k) {
      var found := Lookup(m, addr).value;
      assert k == addr[..|k|] && found == addr[..|found|];
    }
  }

  // ---------- verdicts ----------

  predicate Expired(info: BlockInfo, now: nat) {
    info.expiresAt != 0 && now > info.expiresAt
  }

  function CheckBlock(info: Option<BlockInfo>, now: nat): Verdict {
    if info.None? || Expired(info.value, now) then Pass else Drop
  }

  function InfoOf(m: Table, addr: Bits): Option<BlockInfo> {
    LookupIs(m, addr);
    match Lookup(m, addr)
    case None => None
    case Some(k) => Some(m[k])
  }

  function Decide(m: Table, addr: Bits, now: nat): Verdict {
    CheckBlock(InfoOf(m, addr), now)
  }

  /** The table after a packet: a drop is counted on the matching entry. */
  function Hit(m: Table, addr: Bits, now: nat): Table {
    LookupIs(m, addr);
    if Decide(m, addr, now) == Pass then m
    else
      var k := Lookup(m, addr).value;
      m[k := m[k].(hitCount := (m[k].hitCount + 1) % U64)]
  }

  // ---------- adding and collecting ----------

  /** A map update: refused for a prefix longer than an address and for a new entry of a full table. */
  function Put(m: Table, width: nat, key: Bits, info: BlockInfo): Option<Table> {
    if |key| > width || (key !in m && |m| >= MAX_ENTRIES) then None else Some(m[key := info])
  }

  function Expiry(now: nat, duration: int): nat { (now + duration) % U64 }

  function Collect(m: Table, now: nat): Table {
    map k | k in m && !Expired(m[k], now) :: m[k]
  }

  // ---------- runs of one table ----------

  datatype Op = Add(key: Bits, info: BlockInfo) | Sweep(now: nat) | Packet(addr: Bits, now: nat)

  /** One step: a refused addition changes nothing, a sweep is atomic. */
  function Do(m: Table, width: nat, op: Op): Table {
    match op
    case Add(key, info) => (match Put(m, width, key, info) case None => m case Some(m') => m')
    case Sweep(now) => Collect(m, now)
    case Packet(addr, now) => Hit(m, addr, now)
  }

  function DoAll(m: Table, width: nat, ops: seq<Op>): Table {
    if ops == [] then m else Do(DoAll(m, width, ops[..|ops| - 1]), width, ops[|ops| - 1])
  }

  /** Entry `addr` is there and lasts at least until `until`. */
  predicate BlockedUntil(m: Table, addr: Bits, until: nat) {
    addr in m && !Expired(m[addr], until)
  }

  /** No operation re-adds `addr` with an expiry before `until`, and sweeps come at or before `until`. */
  predicate Keeps(op: Op, addr: Bits, until: nat) {
    match op
    case Add(key, info) => key == addr ==> !Expired(info, until)
    case Sweep(now) => now <= until
    case Packet(_, _) => true
  }

  lemma DoKeepsBlocked(m: Table, width: nat, op: Op, addr: Bits, until: nat)
    requires BlockedUntil(m, addr, until) && Keeps(op, addr, until)
    ensures BlockedUntil(Do(m, width, op), addr, until)
  {
    if op.Packet? {
      LookupIs(m, op.addr);
    }
  }

  lemma {:induction false} DoAllKeepsBlocked(m: Table, width: nat, ops: seq<Op>, addr: Bits, until: nat)
    requires BlockedUntil(m, addr, until) && forall k :: 0 <= k < |ops| ==> Keeps(ops[k], addr, until)
    ensures BlockedUntil(DoAll(m, width, ops), addr, until)
  {
    if ops != [] {
      DoAllKeepsBlocked(m, width, ops[..|ops| - 1], addr, until);
      DoKeepsBlocked(DoAll(m, width, ops[..|ops| - 1]), width, ops[|ops| - 1], addr, until);
    }
  }

  /** Block persistence: after a full address is successfully blocked at `t` for `d`, whatever other prefixes
      are or become stored and however often the table is swept, every packet from that address up to
      `t + d` is dropped, unless the same key is re-added with an earlier expiry. */
  lemma {:induction false} BlockPersists(m: Table, width: nat, addr: Bits, t: nat, d: nat, reason: nat,
                                         ops: seq<Op>, now: nat)
    requires t + d < U64 && Put(m, width, addr, BlockInfo(Expiry(t, d), 0, reason)).Some?
    requires forall k :: 0 <= k < |ops| ==> Keeps(ops[k], addr, t + d)
    requires now <= t + d
    ensures var m' := Put(m, width, addr, BlockInfo(Expiry(t, d), 0, reason)).value;
            Decide(DoAll(m', width, ops), addr, now) == Drop
  {
    var m' := Put(m, width, addr, BlockInfo(Expiry(t, d), 0, reason)).value;
    DoAllKeepsBlocked(m', width, ops, addr, t + d);
    var last := DoAll(m', width, ops);
    assert addr[..|addr|] == addr;
    assert IsLongest(last, addr, addr);
    LookupIs(last, addr);
  }

  // ---------- when a block ends ----------

  /** The expiry stored is the end of the block, on the 64-bit clock. */
  lemma ExpiryIs(t: nat, d: int, e: nat, laps: int)
    requires e < 0x1_0000_0000_0000_0000 && t + d == e + laps * 0x1_0000_0000_0000_0000
    ensures Expiry(t, d) == e
  {
  }

  /** Every stored prefix of `addr` is `key`, and expires at `e`. */
  ghost predicate Sole(m: Table, addr: Bits, key: Bits, e: nat) {
    forall k :: k in m && k <= addr ==> k == key && m[k].expiresAt == e
  }

  /** No prefix of `addr` is added, and no sweep runs behind `now`. */
  predicate LeavesAlone(op: Op, addr: Bits, now: nat) {
    match op
    case Add(key, _) => !(key <= addr)
    case Sweep(at) => at <= now
    case Packet(_, _) => true
  }

  lemma DoKeepsSole(m: Table, width: nat, op: Op, addr: Bits, key: Bits, e: nat, now: nat)
    requires Sole(m, addr, key, e) && key <= addr && LeavesAlone(op, addr, now)
    ensures Sole(Do(m, width, op), addr, key, e)
    ensures key in m && (e == 0 || now <= e) ==> key in Do(m, width, op)
  {
    hide Decide;
    if op.Packet? {
      HitKeepsExpiry(m, op.addr, op.now);
    }
  }

  lemma {:induction false} DoAllKeepsSole(m: Table, width: nat, ops: seq<Op>, addr: Bits, key: Bits, e: nat, now: nat)
    requires Sole(m, addr, key, e) && key in m && key <= addr
    requires forall k :: 0 <= k < |ops| ==> LeavesAlone(ops[k], addr, now)
    ensures Sole(DoAll(m, width, ops), addr, key, e)
    ensures e == 0 || now <= e ==> key in DoAll(m, width, ops)
  {
    if ops != [] {
      hide Do, Sole, LeavesAlone;
      var init := ops[..|ops| - 1];
      DoAllKeepsSole(m, width, init, addr, key, e, now);
      DoKeepsSole(DoAll(m, width, init), width, ops[|ops| - 1], addr, key, e, now);
    }
  }

  lemma SoleDecides(m: Table, addr: Bits, key: Bits, e: nat, now: nat)
    requires Sole(m, addr, key, e) && key <= addr && (e == 0 || now <= e ==> key in m)
    ensures Decide(m, addr, now) == Drop <==> e == 0 || now <= e
  {
    LookupIs(m, addr);
    if key in m {
      assert IsLongest(m, addr, key);
    }
  }

  /** A block ends: with no other stored prefix of an address it covers, and none added later, the address is dropped up
      to the expiry and passed behind it, however often the table was swept until then. An expiry of 0 on the 64-bit
      clock means for ever. */
  lemma BlockExactly(m: Table, width: nat, key: Bits, addr: Bits, t: nat, d: int, reason: nat, ops: seq<Op>, now: nat,
                     e: nat, laps: int)
    requires e < 0x1_0000_0000_0000_0000 && t + d == e + laps * 0x1_0000_0000_0000_0000
    requires Put(m, width, key, BlockInfo(Expiry(t, d), 0, reason)).Some? && key <= addr
    requires forall k :: k in m && k <= addr ==> k == key
    requires forall k :: 0 <= k < |ops| ==> LeavesAlone(ops[k], addr, now)
    ensures var m' := Put(m, width, key, BlockInfo(Expiry(t, d), 0, reason)).value;
            Decide(DoAll(m', width, ops), addr, now) == Drop <==> e == 0 || now <= e
  {
    hide DoAll, Decide, LeavesAlone, Expiry;
    ExpiryIs(t, d, e, laps);
    var m' := Put(m, width, key, BlockInfo(Expiry(t, d), 0, reason)).value;
    DoAllKeepsSole(m', width, ops, addr, key, e, now);
    SoleDecides(DoAll(m', width, ops), addr, key, e, now);
  }

  // ---------- hits are counted ----------

  /** Packets dropped by the entry `key`. */
  ghost function HitsOn(m: Table, width: nat, ops: seq<Op>, key: Bits): nat {
    if ops == [] then 0
    else
      var before, op := DoAll(m, width, ops[..|ops| - 1]), ops[|ops| - 1];
      HitsOn(m, width, ops[..|ops| - 1], key) +
      if op.Packet? && IsLongest(before, op.addr, key) && !Expired(before[key], op.now) then 1 else 0
  }

  predicate AddsOther(op: Op, key: Bits) { op.Add? ==> op.key != key }

  lemma DoCounts(m: Table, width: nat, op: Op, key: Bits)
    requires key in Do(m, width, op) && AddsOther(op, key)
    requires key in m ==> m[key].hitCount < 0x1_0000_0000_0000_0000
    ensures key in m
    ensures var hit := if op.Packet? && IsLongest(m, op.addr, key) && !Expired(m[key], op.now) then 1 else 0;
            Do(m, width, op)[key] == m[key].(hitCount := (m[key].hitCount + hit) % 0x1_0000_0000_0000_0000)
  {
    hide IsLongest, Expired;
    if op.Packet? {
      LookupIs(m, op.addr);
      OneLongest(m, op.addr, key);
    }
  }

  lemma OneLongest(m: Table, addr: Bits, key: Bits)
    ensures IsLongest(m, addr, key) <==> Lookup(m, addr) == Some(key)
  {
    LookupIs(m, addr);
  }

  /** An entry keeps its expiry and its reason, and counts every packet it drops, as long as it is stored and not added
      again. */
  lemma {:induction false} HitsCounted(m: Table, width: nat, ops: seq<Op>, key: Bits)
    requires key in m && m[key].hitCount == 0 && forall k :: 0 <= k < |ops| ==> AddsOther(ops[k], key)
    requires key in DoAll(m, width, ops)
    ensures DoAll(m, width, ops)[key] ==
            m[key].(hitCount := HitsOn(m, width, ops, key) % 0x1_0000_0000_0000_0000)
  {
    hide Do, DoAll, HitsOn, IsLongest, Expired, AddsOther;
    CountSteps(m, width, ops, key);
    if ops == [] {
      NoHit(m[key]);
    } else {
      var init, op := ops[..|ops| - 1], ops[|ops| - 1];
      NotAddedBack(DoAll(m, width, init), width, op, key);
      HitsCounted(m, width, init, key);
      DoCounts(DoAll(m, width, init), width, op, key);
      var hits, hit := HitsOn(m, width, init, key), HitsOn(m, width, ops, key) - HitsOn(m, width, init, key);
      assert hit == 0 || hit == 1;
      OneMoreHit(hits, hit);
    }
  }

  lemma CountSteps(m: Table, width: nat, ops: seq<Op>, key: Bits)
    ensures ops == [] ==> DoAll(m, width, ops) == m && HitsOn(m, width, ops, key) == 0
    ensures ops != [] ==>
              var init, op := ops[..|ops| - 1], ops[|ops| - 1];
              var before := DoAll(m, width, init);
              && DoAll(m, width, ops) == Do(before, width, op)
              && HitsOn(m, width, ops, key) == HitsOn(m, width, init, key) +
                 if op.Packet? && IsLongest(before, op.addr, key) && !Expired(before[key], op.now) then 1 else 0
  {
    hide Do, IsLongest, Expired;
  }

  lemma NoHit(info: BlockInfo)
    requires info.hitCount == 0
    ensures info == info.(hitCount := 0 % 0x1_0000_0000_0000_0000)
  {
  }

  lemma OneMoreHit(hits: nat, hit: nat)
    ensures (hits % 0x1_0000_0000_0000_0000 + hit) % 0x1_0000_0000_0000_0000 == (hits + hit) % 0x1_0000_0000_0000_0000
  {
  }

  lemma NotAddedBack(m: Table, width: nat, op: Op, key: Bits)
    requires key in Do(m, width, op) && AddsOther(op, key)
    ensures key in m
  {
    hide Decide;
    if op.Packet? {
      HitKeepsExpiry(m, op.addr, op.now);
    }
  }

  // ---------- does sweeping change verdicts? ----------

  /** An expired entry is the longest match of `addr` and hides a live shorter one. */
  ghost predicate Shadowed(m: Table, addr: Bits, now: nat) {
    && InfoOf(m, addr).Some? && Expired(InfoOf(m, addr).value, now)
    && exists k :: k in m && k <= addr && !Expired(m[k], now)
  }

  /** The exact condition, address by address: a sweep at `g` leaves every later verdict on an address
      unchanged if and only if no live entry is shadowed there. */
  lemma SweepTransparentIff(m: Table, addr: Bits, g: nat)
    ensures (forall now :: g <= now ==> Decide(Collect(m, g), addr, now) == Decide(m, addr, now)) <==>
            !Shadowed(m, addr, g)
  {
    var swept := Collect(m, g);
    LookupIs(m, addr);
    LookupIs(swept, addr);
    if Shadowed(m, addr, g) {
      var k :| k in m && k <= addr && !Expired(m[k], g);
      assert k in swept;
      assert Decide(m, addr, g) == Pass && Decide(swept, addr, g) == Drop;
    } else if InfoOf(m, addr).Some? && !Expired(InfoOf(m, addr).value, g) {
      assert IsLongest(swept, addr, Lookup(m, addr).value);
    } else if InfoOf(m, addr).Some? {
      assert forall k :: k in swept ==> !(k <= addr);
    }
  }

  /** It can fail: a live prefix does nothing for an address whose own entry has expired, until the sweep
      removes that entry. */
  lemma SweepUncovers()
    ensures var addr := seq(WIDTH4, _ => false);
            var m := map[addr := BlockInfo(5, 0, 0), addr[..24] := BlockInfo(100, 0, 0)];
            Decide(m, addr, 10) == Pass && Decide(Collect(m, 10), addr, 10) == Drop
  {
    var addr := seq(WIDTH4, _ => false);
    var net := addr[..24];
    assert |net| != |addr|;
    var m := map[addr := BlockInfo(5, 0, 0), net := BlockInfo(100, 0, 0)];
    LookupIs(m, addr);
    assert IsLongest(m, addr, addr);
    LookupIs(Collect(m, 10), addr);
    assert IsLongest(Collect(m, 10), addr, net);
  }

  /** No stored prefix covers another. */
  ghost predicate Disjoint(m: Table) {
    forall a, b :: a in m && b in m && a <= b ==> a == b
  }

  /** What the packets of `ops` get. */
  function Verdicts(m: Table, width: nat, ops: seq<Op>): seq<Verdict>
    decreases |ops|
  {
    if ops == [] then []
    else
      (if ops[0].Packet? then [Decide(m, ops[0].addr, ops[0].now)] else []) +
      Verdicts(Do(m, width, ops[0]), width, ops[1..])
  }

  function WithoutSweeps(ops: seq<Op>): seq<Op> {
    if ops == [] then [] else (if ops[0].Sweep? then [] else [ops[0]]) + WithoutSweeps(ops[1..])
  }

  /** Packets and sweeps come in the order of a clock that starts at `start`. */
  ghost predicate Timed(ops: seq<Op>, start: nat) {
    ops != [] ==>
      match ops[0]
      case Add(_, _) => Timed(ops[1..], start)
      case Sweep(now) => start <= now && Timed(ops[1..], now)
      case Packet(_, now) => start <= now && Timed(ops[1..], now)
  }

  /** Never swept, the table stays disjoint and has room for every new entry. */
  ghost predicate Clear(m: Table, width: nat, ops: seq<Op>)
    decreases |ops|
  {
    Disjoint(m) &&
    (ops != [] ==>
       && (ops[0].Add? ==> ops[0].key in m || |m| < MAX_ENTRIES)
       && Clear(if ops[0].Sweep? then m else Do(m, width, ops[0]), width, ops[1..]))
  }

  /** `swept` is `m` less some entries that expired by `now`; hit counts may differ. */
  ghost predicate SweptOf(swept: Table, m: Table, now: nat) {
    && (forall k :: k in swept ==> k in m && swept[k].expiresAt == m[k].expiresAt)
    && (forall k :: k in m && k !in swept ==> Expired(m[k], now))
  }

  lemma SweptDecidesAlike(swept: Table, m: Table, since: nat, addr: Bits, now: nat)
    requires Disjoint(m) && SweptOf(swept, m, since) && since <= now
    ensures Decide(swept, addr, now) == Decide(m, addr, now)
  {
    LookupIs(m, addr);
    LookupIs(swept, addr);
    match Lookup(m, addr)
    case None =>
    case Some(k) =>
      forall other | other in m && other <= addr ensures other == k {
        assert other == addr[..|other|] && k == addr[..|k|];
        assert other <= k;
      }
      if k in swept {
        assert IsLongest(swept, addr, k);
      }
  }

  lemma VerdictsStep(m: Table, width: nat, op: Op, later: seq<Op>)
    ensures Verdicts(m, width, [op] + later) ==
            (if op.Packet? then [Decide(m, op.addr, op.now)] else []) + Verdicts(Do(m, width, op), width, later)
  {
    assert ([op] + later)[1..] == later;
  }

  lemma HitKeepsExpiry(m: Table, addr: Bits, now: nat)
    ensures var m' := Hit(m, addr, now);
            m'.Keys == m.Keys && forall k :: k in m ==> m'[k].expiresAt == m[k].expiresAt
  {
    LookupIs(m, addr);
  }

  lemma HitsKeepSwept(swept: Table, m: Table, since: nat, addr: Bits, now: nat)
    requires SweptOf(swept, m, since) && since <= now
    ensures SweptOf(Hit(swept, addr, now), Hit(m, addr, now), now)
  {
    hide Hit;
    HitKeepsExpiry(m, addr, now);
    HitKeepsExpiry(swept, addr, now);
  }

  lemma FewerKeys(a: set<Bits>, b: set<Bits>)
    requires a <= b
    ensures |a| <= |b|
  {
    assert b == a + (b - a);
  }

  lemma Fewer(a: Table, b: Table)
    requires a.Keys <= b.Keys
    ensures |a| <= |b|
  {
    FewerKeys(a.Keys, b.Keys);
    assert |a| == |a.Keys| && |b| == |b.Keys|;
  }

  lemma AddsKeepSwept(swept: Table, m: Table, since: nat, width: nat, key: Bits, info: BlockInfo)
    requires SweptOf(swept, m, since) && |m| <= MAX_ENTRIES && (key in m || |m| < MAX_ENTRIES)
    ensures SweptOf(Do(swept, width, Add(key, info)), Do(m, width, Add(key, info)), since)
  {
    Fewer(swept, m);
    if key in m && key !in swept {
      assert m.Keys == (m.Keys - {key}) + {key};
      FewerKeys(swept.Keys, m.Keys - {key});
    }
  }

  /** No step lets the table outgrow its bound. */
  lemma DoKeepsSize(m: Table, width: nat, op: Op)
    requires |m| <= MAX_ENTRIES
    ensures |Do(m, width, op)| <= MAX_ENTRIES
  {
    match op
    case Add(key, info) =>
      if key in m {
        Fewer(m[key := info], m);
      }
    case Sweep(now) =>
      Fewer(Collect(m, now), m);
    case Packet(addr, now) =>
      HitKeepsExpiry(m, addr, now);
      Fewer(Hit(m, addr, now), m);
  }

  /** GC transparency over whole runs of packets, additions and sweeps: as long as no stored prefix covers
      another and the table does not fill up, sweeping at any instants changes no verdict of any packet. */
  lemma {:induction false} SweepsInvisible(swept: Table, m: Table, width: nat, ops: seq<Op>, start: nat)
    requires |m| <= MAX_ENTRIES && Clear(m, width, ops)
    requires SweptOf(swept, m, start) && Timed(ops, start)
    ensures Verdicts(swept, width, ops) == Verdicts(m, width, WithoutSweeps(ops))
    decreases |ops|
  {
    hide Decide, Hit, Disjoint, Put;
    if ops != [] {
      var op, rest := ops[0], ops[1..];
      VerdictsStep(m, width, op, WithoutSweeps(rest));
      DoKeepsSize(m, width, op);
      match op
      case Sweep(now) =>
        SweepsInvisible(Collect(swept, now), m, width, rest, now);
        assert WithoutSweeps(ops) == WithoutSweeps(rest);
      case Packet(addr, now) =>
        SweptDecidesAlike(swept, m, start, addr, now);
        HitsKeepSwept(swept, m, start, addr, now);
        SweepsInvisible(Hit(swept, addr, now), Hit(m, addr, now), width, rest, now);
      case Add(key, info) =>
        AddsKeepSwept(swept, m, start, width, key, info);
        SweepsInvisible(Do(swept, width, op), Do(m, width, op), width, rest, start);
    }
  }

  /** In particular from one table, swept or not. */
  lemma SweepingChangesNothing(m: Table, width: nat, ops: seq<Op>)
    requires |m| <= MAX_ENTRIES && Clear(m, width, ops) && Timed(ops, 0)
    ensures Verdicts(m, width, ops) == Verdicts(m, width, WithoutSweeps(ops))
  {
    SweepsInvisible(m, m, width, ops, 0);
  }
}
