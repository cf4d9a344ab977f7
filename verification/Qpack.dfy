/** The append-only mirror of the QPACK dynamic table, and its agreement with the bounded, evicting table of
    RFC 9204. */
module Qpack {
  import opened Basics
  import opened Hpack

  // ---------- the mirror ----------

  /** `index` positions before `base`; `statics` stands for the static table of the source. */
  function ResolveIndexed(statics: seq<Field>, table: seq<Field>, dynamic: bool, index: int, base: int): Option<Field> {
    if !dynamic then (if 0 <= index < |statics| then Some(statics[index]) else None)
    else
      var abs := base - 1 - index;
      if 0 <= abs < |table| then Some(table[abs]) else None
  }

  /** Relative to the newest entry, as in encoder instructions. */
  function ResolveLive(statics: seq<Field>, table: seq<Field>, dynamic: bool, index: int): Option<Field> {
    ResolveIndexed(statics, table, dynamic, index, |table|)
  }

  datatype TableEvent =
    | Insert(name: string, value: string)
    | RefInsert(dynamic: bool, index: int, newValue: string)
    | Duplicate(position: int)

  /** An event whose reference does not resolve is dropped. */
  function Mirrored(statics: seq<Field>, table: seq<Field>, e: TableEvent): seq<Field> {
    match e
    case Insert(name, value) => table + [Field(name, value)]
    case RefInsert(dynamic, index, value) =>
      (match ResolveLive(statics, table, dynamic, index)
       case None => table
       case Some(f) => table + [Field(f.name, value)])
    case Duplicate(index) =>
      match ResolveLive(statics, table, true, index)
      case None => table
      case Some(f) => table + [f]
  }

  /** A reference outside its table inserts nothing. */
  lemma UnresolvedDropped(statics: seq<Field>, table: seq<Field>, index: int, value: string)
    ensures !(0 <= index < |table|) ==> Mirrored(statics, table, RefInsert(true, index, value)) == table
    ensures !(0 <= index < |table|) ==> Mirrored(statics, table, Duplicate(index)) == table
    ensures !(0 <= index < |statics|) ==> Mirrored(statics, table, RefInsert(false, index, value)) == table
  {
  }

  // ---------- the table of RFC 9204 ----------

  /** The entries present, oldest first, how many were evicted, and the capacity (section 3.2). */
  datatype Bounded = Bounded(entries: seq<Field>, evicted: nat, capacity: nat)

  function EntrySize(f: Field): nat { |f.name| + |f.value| + 32 }

  function TotalSize(fs: seq<Field>): nat {
    if fs == [] then 0 else EntrySize(fs[0]) + TotalSize(fs[1..])
  }

  /** Evict from the oldest end until at most `room` bytes are in use (section 3.2.2). */
  function EvictTo(b: Bounded, room: nat): (r: Bounded)
    decreases |b.entries|
  {
    if TotalSize(b.entries) <= room || b.entries == [] then b
    else EvictTo(b.(entries := b.entries[1..], evicted := b.evicted + 1), room)
  }

  /** An entry larger than the capacity is an encoder error. */
  function Add(b: Bounded, f: Field): Option<Bounded> {
    if EntrySize(f) > b.capacity then None
    else
      var e := EvictTo(b, b.capacity - EntrySize(f));
      Some(e.(entries := e.entries + [f]))
  }

  /** Section 3.2.4: relative index 0 is the newest entry; a reference to an absent entry is an error. */
  function Relative(b: Bounded, index: int): Option<Field> {
    if 0 <= index < |b.entries| then Some(b.entries[|b.entries| - 1 - index]) else None
  }

  datatype Instruction = TableInstruction(event: TableEvent) | SetCapacity(capacity: nat)

  /** One encoder instruction (section 4.3); a reference is read before anything is evicted. */
  function Execute(statics: seq<Field>, b: Bounded, i: Instruction): Option<Bounded> {
    match i
    case SetCapacity(n) => Some(EvictTo(b, n).(capacity := n))
    case TableInstruction(Insert(name, value)) => Add(b, Field(name, value))
    case TableInstruction(RefInsert(dynamic, index, value)) =>
      var f := if dynamic then Relative(b, index)
               else if 0 <= index < |statics| then Some(statics[index]) else None;
      (match f case None => None case Some(g) => Add(b, Field(g.name, value)))
    case TableInstruction(Duplicate(index)) =>
      match Relative(b, index)
      case None => None
      case Some(g) => Add(b, g)
  }

  const EMPTY := Bounded([], 0, 0)

  /** `None` once an instruction was invalid. */
  function ExecuteAll(statics: seq<Field>, ins: seq<Instruction>): Option<Bounded> {
    if ins == [] then Some(EMPTY)
    else
      match ExecuteAll(statics, ins[..|ins| - 1])
      case None => None
      case Some(b) => Execute(statics, b, ins[|ins| - 1])
  }

  /** The mirror sees the insertions only. */
  function MirrorAll(statics: seq<Field>, ins: seq<Instruction>): seq<Field> {
    if ins == [] then []
    else
      var table := MirrorAll(statics, ins[..|ins| - 1]);
      match ins[|ins| - 1]
      case SetCapacity(_) => table
      case TableInstruction(e) => Mirrored(statics, table, e)
  }

  // ---------- refinement ----------

  /** The bounded table is the mirror's suffix. */
  predicate Mirrors(table: seq<Field>, b: Bounded) {
    b.evicted <= |table| && table[b.evicted..] == b.entries
  }

  lemma {:induction false} EvictKeepsMirror(table: seq<Field>, b: Bounded, room: nat)
    requires Mirrors(table, b)
    ensures var e := EvictTo(b, room);
            Mirrors(table, e) && b.evicted <= e.evicted && e.capacity == b.capacity
    ensures TotalSize(EvictTo(b, room).entries) <= room
    decreases |b.entries|
  {
    if TotalSize(b.entries) > room && b.entries != [] {
      assert table[b.evicted + 1..] == b.entries[1..];
      EvictKeepsMirror(table, b.(entries := b.entries[1..], evicted := b.evicted + 1), room);
    }
  }

  lemma AddKeepsMirror(table: seq<Field>, b: Bounded, f: Field)
    requires Mirrors(table, b) && Add(b, f).Some?
    ensures Mirrors(table + [f], Add(b, f).value) && b.evicted <= Add(b, f).value.evicted
  {
    EvictKeepsMirror(table, b, b.capacity - EntrySize(f));
    var e := EvictTo(b, b.capacity - EntrySize(f));
    assert (table + [f])[e.evicted..] == table[e.evicted..] + [f];
  }

  lemma RelativeIsLive(statics: seq<Field>, table: seq<Field>, b: Bounded, index: int)
    requires Mirrors(table, b) && Relative(b, index).Some?
    ensures ResolveLive(statics, table, true, index) == Relative(b, index)
  {
    assert table[|table| - 1 - index] == table[b.evicted..][|b.entries| - 1 - index];
  }

  lemma ExecuteKeepsMirror(statics: seq<Field>, table: seq<Field>, b: Bounded, i: Instruction)
    requires Mirrors(table, b) && Execute(statics, b, i).Some?
    ensures var table' := if i.SetCapacity? then table else Mirrored(statics, table, i.event);
            table <= table' && Mirrors(table', Execute(statics, b, i).value)
            && b.evicted <= Execute(statics, b, i).value.evicted
  {
    match i
    case SetCapacity(n) => EvictKeepsMirror(table, b, n);
    case TableInstruction(Insert(name, value)) => AddKeepsMirror(table, b, Field(name, value));
    case TableInstruction(RefInsert(dynamic, index, value)) =>
      if dynamic {
        RelativeIsLive(statics, table, b, index);
      }
      var f := ResolveLive(statics, table, dynamic, index).value;
      AddKeepsMirror(table, b, Field(f.name, value));
    case TableInstruction(Duplicate(index)) =>
      RelativeIsLive(statics, table, b, index);
      AddKeepsMirror(table, b, Relative(b, index).value);
  }

  /** Refinement: for every valid sequence of encoder instructions the mirror has the bounded table as its
      suffix, whatever was evicted on the way. */
  lemma {:induction false} MirrorRefines(statics: seq<Field>, ins: seq<Instruction>)
    requires ExecuteAll(statics, ins).Some?
    ensures Mirrors(MirrorAll(statics, ins), ExecuteAll(statics, ins).value)
  {
    hide Execute, Mirrored;
    if ins != [] {
      var init := ins[..|ins| - 1];
      MirrorRefines(statics, init);
      ExecuteKeepsMirror(statics, MirrorAll(statics, init), ExecuteAll(statics, init).value, ins[|ins| - 1]);
    }
  }

  /** A field line's reference, relative to its base, in the bounded table (section 3.2.5). */
  function RelativeToBase(b: Bounded, base: int, index: int): Option<Field> {
    var abs := base - 1 - index;
    if b.evicted <= abs < b.evicted + |b.entries| then Some(b.entries[abs - b.evicted]) else None
  }

  /** The mirror resolves every reference the bounded table resolves to the same pair; they differ exactly
      on references to evicted entries, which the mirror still knows. */
  lemma ResolveAgrees(statics: seq<Field>, ins: seq<Instruction>, base: int, index: int)
    requires ExecuteAll(statics, ins).Some?
    ensures var b, table := ExecuteAll(statics, ins).value, MirrorAll(statics, ins);
            var mirrored := ResolveIndexed(statics, table, true, index, base);
            && (RelativeToBase(b, base, index).Some? ==> mirrored == RelativeToBase(b, base, index))
            && (mirrored == RelativeToBase(b, base, index) <==> !(0 <= base - 1 - index < b.evicted))
  {
    hide ExecuteAll, MirrorAll;
    MirrorRefines(statics, ins);
    var b, table := ExecuteAll(statics, ins).value, MirrorAll(statics, ins);
    var abs := base - 1 - index;
    if b.evicted <= abs < |table| {
      assert table[abs] == table[b.evicted..][abs - b.evicted];
    }
  }

  lemma {:induction false} MirrorOnlyGrows(statics: seq<Field>, ins: seq<Instruction>, more: seq<Instruction>)
    ensures MirrorAll(statics, ins) <= MirrorAll(statics, ins + more)
  {
    hide ResolveIndexed;
    if more == [] {
      assert ins + more == ins;
    } else {
      var init := more[..|more| - 1];
      MirrorOnlyGrows(statics, ins, init);
      assert (ins + more)[..|ins + more| - 1] == ins + init;
      assert (ins + more)[|ins + more| - 1] == more[|more| - 1];
    }
  }

  /** Once its base is fixed, a reference that resolved resolves to the same pair for ever, also after the
      bounded table has evicted the entry. */
  lemma ResolveIsFixed(statics: seq<Field>, ins: seq<Instruction>, more: seq<Instruction>, base: int, index: int)
    requires ResolveIndexed(statics, MirrorAll(statics, ins), true, index, base).Some?
    ensures ResolveIndexed(statics, MirrorAll(statics, ins + more), true, index, base) ==
            ResolveIndexed(statics, MirrorAll(statics, ins), true, index, base)
  {
    MirrorOnlyGrows(statics, ins, more);
  }
}
