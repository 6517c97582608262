/**
 One pass of the payload on a healthy machine (rbx-repro/repro.cpp:38-69 as compiled into
 src/rbx_payload.S): it follows the vectors in the arena, keeps the hash and its iterators
 in fake-stack frames, passes every value through a buffer in another frame, and checks
 the shadow of each of its loads.
 */
module Payload {
  import opened Words
  import opened Binary
  import opened Memory
  import opened Fnv
  import opened FakeStack
  import opened Frames
  import opened ArenaImage

  const FRAME_MAGIC: Word := 0x41b58ab3

  // What a function leaves in the header of its frame.
  datatype Site = Site(rbp: Word, description: Word, pc: Word)

  // The inline check before a load of n bytes.
  predicate Addressable(sh: Byte, at: nat, n: nat) {
    sh == 0 || at % 8 + n - 1 < Signed(sh, 0x100)
  }

  /* ---------------- local variables in a frame ---------------- */

  // The arena as two sequences: memory and shadow.
  ghost predicate Covers(m: seq<Byte>, sh: seq<Byte>, log: nat) {
    16 <= log && Extent(log) <= |m| == 8 * |sh|
  }

  lemma FramePlace(m: seq<Byte>, sh: seq<Byte>, log: nat, s: Slot)
    requires Covers(m, sh, log) && IsSlot(log, s)
    ensures FrameOf(log, s) % 8 == 0 && FrameOf(log, s) + FrameSize(s.c) <= |m|
    ensures forall off: nat :: off + 8 <= FrameSize(s.c) ==> FrameOf(log, s) / 8 + off / 8 < |sh|
  {
    hide FrameOf;
    FrameAligned(log, s);
  }

  // The frame holds the word v at this offset, and the word is addressable.
  ghost predicate LocalAt(m: seq<Byte>, sh: seq<Byte>, log: nat, s: Slot, off: nat, v: nat)
    requires Covers(m, sh, log) && IsSlot(log, s)
  {
    FramePlace(m, sh, log, s);
    && off % 8 == 0 && off + 16 <= FrameSize(s.c)
    && Get8(m, FrameOf(log, s) + off) == v
    && sh[FrameOf(log, s) / 8 + off / 8] == 0
  }

  ghost predicate Local(a: Arena, s: Slot, off: nat, v: nat)
    requires a.Valid()
    reads a, a.mem, a.shadow
  {
    s in a.live && LocalAt(a.mem[..], a.shadow[..], a.log, s, off, v)
  }

  // The frames of these slots and their shadow are the same in both.
  ghost predicate SameFrames(m: seq<Byte>, sh: seq<Byte>, m': seq<Byte>, sh': seq<Byte>, log: nat, slots: set<Slot>)
    requires Covers(m, sh, log) && Covers(m', sh', log) && |m| == |m'|
    requires forall s :: s in slots ==> IsSlot(log, s)
  {
    && (forall s, i: nat :: s in slots && InFrame(log, s, i) && i < |m| ==> m'[i] == m[i])
    && (forall s, i: nat :: s in slots && InFrame(log, s, 8 * i) && i < |sh| ==> sh'[i] == sh[i])
  }

  lemma LocalStays(m: seq<Byte>, sh: seq<Byte>, m': seq<Byte>, sh': seq<Byte>, log: nat, slots: set<Slot>,
                   s: Slot, off: nat, v: nat)
    requires Covers(m, sh, log) && Covers(m', sh', log) && |m| == |m'|
    requires forall t :: t in slots ==> IsSlot(log, t)
    requires SameFrames(m, sh, m', sh', log, slots) && s in slots && LocalAt(m, sh, log, s, off, v)
    ensures LocalAt(m', sh', log, s, off, v)
  {
    hide FrameOf, Get8, FrameSize, Extent;
    FramePlace(m, sh, log, s);
    var at := FrameOf(log, s) + off;
    forall i: nat | at <= i < at + 8
      ensures m'[i] == m[i]
    {
      assert InFrame(log, s, i);
    }
    GetSame8(m, m', at);
    assert InFrame(log, s, 8 * (at / 8));
  }

  lemma LocalsStay(m: seq<Byte>, sh: seq<Byte>, m': seq<Byte>, sh': seq<Byte>, log: nat, slots: set<Slot>)
    requires Covers(m, sh, log) && Covers(m', sh', log) && |m| == |m'|
    requires forall t :: t in slots ==> IsSlot(log, t)
    requires SameFrames(m, sh, m', sh', log, slots)
    ensures forall s, off: nat, v: nat :: s in slots && LocalAt(m, sh, log, s, off, v) ==>
              LocalAt(m', sh', log, s, off, v)
  {
    hide LocalAt, SameFrames;
    forall s, off: nat, v: nat | s in slots && LocalAt(m, sh, log, s, off, v)
      ensures LocalAt(m', sh', log, s, off, v)
    {
      LocalStays(m, sh, m', sh', log, slots, s, off, v);
    }
  }

  // A store to one variable of a frame leaves the others.
  lemma LocalBeside(m: seq<Byte>, sh: seq<Byte>, log: nat, s: Slot, off: nat, v: nat, other: nat, w: Word)
    requires Covers(m, sh, log) && IsSlot(log, s) && LocalAt(m, sh, log, s, off, v)
    requires other + 8 <= off || off + 8 <= other
    requires other + 16 <= FrameSize(s.c)
    requires FrameOf(log, s) + FrameSize(s.c) <= |m|
    ensures LocalAt(Put8(m, FrameOf(log, s) + other, w), sh, log, s, off, v)
  {
    hide FrameOf, Get8, FrameSize, Put8, Extent;
    FramePlace(m, sh, log, s);
    GetSame8(m, Put8(m, FrameOf(log, s) + other, w), FrameOf(log, s) + off);
  }

  lemma LocalsBeside(m: seq<Byte>, sh: seq<Byte>, log: nat, s: Slot, other: nat, w: Word)
    requires Covers(m, sh, log) && IsSlot(log, s) && other % 8 == 0 && other + 16 <= FrameSize(s.c)
    requires FrameOf(log, s) + FrameSize(s.c) <= |m|
    ensures forall off: nat, v: nat :: LocalAt(m, sh, log, s, off, v) && off != other ==>
              LocalAt(Put8(m, FrameOf(log, s) + other, w), sh, log, s, off, v)
  {
    hide FrameOf, Get8, FrameSize, Put8, Extent, LocalAt;
    forall off: nat, v: nat | LocalAt(m, sh, log, s, off, v) && off != other
      ensures LocalAt(Put8(m, FrameOf(log, s) + other, w), sh, log, s, off, v)
    {
      LocalOffset(m, sh, log, s, off, v);
      LocalBeside(m, sh, log, s, off, v, other, w);
    }
  }

  lemma LocalOffset(m: seq<Byte>, sh: seq<Byte>, log: nat, s: Slot, off: nat, v: nat)
    requires Covers(m, sh, log) && IsSlot(log, s) && LocalAt(m, sh, log, s, off, v)
    ensures off % 8 == 0
  {
  }

  // Changing the shadow of one variable leaves the others.
  lemma LocalsRepainted(m: seq<Byte>, sh: seq<Byte>, log: nat, s: Slot, k: nat, b: Byte)
    requires Covers(m, sh, log) && IsSlot(log, s) && FrameOf(log, s) / 8 + k < |sh|
    ensures forall off: nat, v: nat :: LocalAt(m, sh, log, s, off, v) && off != 8 * k ==>
              LocalAt(m, Put(sh, FrameOf(log, s) / 8 + k, [b]), log, s, off, v)
  {
    hide FrameOf, Get8, FrameSize, Extent;
  }

  method StoreLocal(a: Arena, at: nat, ghost s: Slot, off: nat, v: Word)
    requires a.Valid() && s in a.live && at == FrameOf(a.log, s) && off + 16 <= FrameSize(s.c)
    modifies a.mem
    ensures a.Valid() && a.DataKept() && a.FramesKept(a.live - {s})
    ensures a.mem[..] == Put8(old(a.mem[..]), at + off, v)
    ensures off % 8 == 0 && a.shadow[at / 8 + off / 8] == 0 ==> Local(a, s, off, v)
  {
    hide Arena.Valid, FrameOf, FlagOf, Get8, Extent, FrameSize, LE64, Put, LocalAt;
    FramePlace(a.mem[..], a.shadow[..], a.log, s);
    ghost var before := a.mem[..];
    StoreBytes(a, at, s, off, LE64(v));
    LocalStored(before, a.shadow[..], a.log, s, off, v);
  }

  // Byte by byte.
  method StoreBytes(a: Arena, at: nat, ghost s: Slot, off: nat, bytes: seq<Byte>)
    requires a.Valid() && s in a.live && at == FrameOf(a.log, s) && off + |bytes| + 8 <= FrameSize(s.c)
    modifies a.mem
    ensures a.Valid() && a.DataKept() && a.FramesKept(a.live - {s})
    ensures at + FrameSize(s.c) <= a.mem.Length && a.mem[..] == Put(old(a.mem[..]), at + off, bytes)
  {
    hide Arena.Valid, FrameOf, FlagOf, Get8, Extent, FrameSize, Put;
    FramePlace(a.mem[..], a.shadow[..], a.log, s);
    ghost var before := a.mem[..];
    PutNothing(before, at + off, bytes);
    for i := 0 to |bytes|
      invariant a.Valid() && a.DataKept() && a.FramesKept(a.live - {s})
      invariant a.mem[..] == Put(before, at + off, bytes[..i])
    {
      a.OwnerWrite(at, s, off + i, bytes[i]);
      PutNext(before, at + off, bytes, i);
    }
    assert bytes[..|bytes|] == bytes;
  }

  lemma PutNothing(m: seq<Byte>, at: nat, bytes: seq<Byte>)
    requires at <= |m|
    ensures Put(m, at, bytes[..0]) == m
  {
  }

  lemma LocalStored(m: seq<Byte>, sh: seq<Byte>, log: nat, s: Slot, off: nat, v: Word)
    requires Covers(m, sh, log) && IsSlot(log, s) && off + 16 <= FrameSize(s.c)
    requires FrameOf(log, s) + FrameSize(s.c) <= |m| && FrameOf(log, s) / 8 + off / 8 < |sh|
    ensures off % 8 == 0 && sh[FrameOf(log, s) / 8 + off / 8] == 0 ==>
              LocalAt(Put8(m, FrameOf(log, s) + off, v), sh, log, s, off, v)
  {
    hide FrameOf, FrameSize, Get8, Put8;
    GetPut8(m, FrameOf(log, s) + off, v);
  }

  // Writes a run of shadow bytes of a frame, from its start.
  method PaintShadow(a: Arena, at: nat, ghost s: Slot, k: nat, pattern: seq<Byte>)
    requires a.Valid() && s in a.live && at == FrameOf(a.log, s) && 8 * (k + |pattern|) <= FrameSize(s.c)
    modifies a.shadow
    ensures a.Valid() && a.DataKept() && a.FramesKept(a.live - {s})
    ensures a.shadow[..] == Put(old(a.shadow[..]), at / 8 + k, pattern)
  {
    hide Arena.Valid, FrameOf, FlagOf, Get8, Extent, FrameSize;
    FramePlace(a.mem[..], a.shadow[..], a.log, s);
    ghost var before := a.shadow[..];
    for i := 0 to |pattern|
      invariant a.Valid() && a.DataKept() && a.FramesKept(a.live - {s})
      invariant a.shadow[..] == Put(before, at / 8 + k, pattern[..i])
    {
      a.OwnerPoison(at, s, k + i, pattern[i]);
      PutNext(before, at / 8 + k, pattern, i);
    }
    assert pattern[..|pattern|] == pattern;
  }

  /* ---------------- there is always a frame ---------------- */

  ghost function ClassSlots(c: nat, n: nat): (s: set<Slot>)
    ensures forall t :: t in s <==> t.c == c && t.pos < n
    ensures |s| == n
  {
    if n == 0 then {} else ClassSlots(c, n - 1) + {Slot(c, n - 1)}
  }

  lemma SubsetSize<T>(a: set<T>, b: set<T>)
    requires a <= b
    ensures |a| <= |b|
  {
    assert b == a + (b - a);
  }

  // Fewer live frames than a class has slots leave a slot of the class free.
  lemma RoomLeft(log: nat, c: nat, live: set<Slot>)
    requires 16 <= log && c < CLASSES && |live| < Slots(log, c)
    ensures exists p: nat :: p < Slots(log, c) && Slot(c, p) !in live
  {
    if forall p: nat :: p < Slots(log, c) ==> Slot(c, p) in live {
      var all := ClassSlots(c, Slots(log, c));
      forall t | t in all
        ensures t in live
      {
        assert t == Slot(c, t.pos);
      }
      SubsetSize(all, live);
      assert false;
    }
  }

  lemma ProbeSlots(c: nat)
    requires c <= 2
    ensures Slots(STACK_SIZE_LOG, c) >= 0x1000 && STACK_SIZE_LOG - 6 - c < 31
    ensures FrameSize(0) == 64 && FrameSize(1) == 128 && FrameSize(2) == 256
  {
    assert Pow2(6) == 64 && Pow2(7) == 128 && Pow2(8) == 256;
    hide Pow2;
    Pow2Add(6, 6);
    Pow2Monotone(12, STACK_SIZE_LOG - 6 - c);
  }

  // The prologue of an instrumented function: a frame, never the fallback on the
  // thread's own stack, with its three header words.
  method TakeFrame(a: Arena, c: nat, requested: nat, site: Site) returns (at: nat, ghost s: Slot)
    requires ProbeArena(a) && a.Valid() && c <= 2 && |a.live| < 0x1000
    requires requested <= FrameSize(c) && requested % 8 == 0
    modifies a.mem, a.shadow, a`live
    ensures a.Valid() && a.DataKept() && a.FramesKept(old(a.live))
    ensures s !in old(a.live) && a.live == old(a.live) + {s} && |a.live| == |old(a.live)| + 1
    ensures s.c == c && IsSlot(a.log, s) && at == FrameOf(a.log, s) && at % 8 == 0
    ensures HeadFilled(a.mem[..], at, site)
  {
    hide Arena.Valid, FrameOf, FlagOf, Get8, Extent, Put8, FrameSize, Slots, FramesStart, FoundFirst, Claimed;
    ProbeSlots(c);
    RoomLeft(a.log, c, a.live);
    var r, slot := a.StackMalloc(c, requested, site.rbp);
    s := slot;
    at := r.at;
    FramePlace(a.mem[..], a.shadow[..], a.log, s);
    assert a.live - {s} == old(a.live);
    FrameSizes(c);
    ghost var m := a.mem[..];
    ClaimedWords(m, a.log, a.base, s, site.rbp);
    StoreLocal(a, at, s, 0, FRAME_MAGIC);
    StoreLocal(a, at, s, 8, site.description);
    StoreLocal(a, at, s, 0x10, site.pc);
    FilledHead(m, at, site);
  }

  // The four words at the start of a frame: the magic number, the description, the address
  // of the function, and its stack pointer.
  ghost predicate HeadFilled(m: seq<Byte>, at: nat, site: Site) {
    && at + 0x20 <= |m| && Get8(m, at) == 0x41b58ab3 && Get8(m, at + 8) == site.description
    && Get8(m, at + 0x10) == site.pc && Get8(m, at + 0x18) == site.rbp
  }

  lemma ClaimedWords(m: seq<Byte>, log: nat, base: nat, s: Slot, rbp: Word)
    requires 16 <= log && IsSlot(log, s) && Claimed(m, log, base, s, rbp)
    ensures FrameOf(log, s) + 0x20 <= |m| && Get8(m, FrameOf(log, s) + 0x18) == rbp
  {
    hide FrameOf, FlagOf, Get8;
  }

  lemma FilledHead(m: seq<Byte>, at: nat, site: Site)
    requires at + 0x20 <= |m| && Get8(m, at + 0x18) == site.rbp
    ensures HeadFilled(Put8(Put8(Put8(m, at, FRAME_MAGIC), at + 8, site.description), at + 0x10, site.pc), at, site)
  {
    hide Get8, Put8;
    var m1 := Put8(m, at, FRAME_MAGIC);
    var m2 := Put8(m1, at + 8, site.description);
    var m3 := Put8(m2, at + 0x10, site.pc);
    GetPut8(m, at, FRAME_MAGIC);
    GetPut8(m1, at + 8, site.description);
    GetPut8(m2, at + 0x10, site.pc);
    PutBeside8(m, at, FRAME_MAGIC, at + 0x18);
    PutBeside8(m1, at + 8, site.description, at);
    PutBeside8(m1, at + 8, site.description, at + 0x18);
    PutBeside8(m2, at + 0x10, site.pc, at);
    PutBeside8(m2, at + 0x10, site.pc, at + 8);
    PutBeside8(m2, at + 0x10, site.pc, at + 0x18);
  }

  lemma PutBeside8(m: seq<Byte>, a: nat, v: Word, b: nat)
    requires a + 8 <= |m| && b + 8 <= |m| && (b + 8 <= a || a + 8 <= b)
    ensures Get8(Put8(m, a, v), b) == Get8(m, b)
  {
    hide Get8;
    GetSame8(m, Put8(m, a, v), b);
  }

  /* ---------------- the lambda that folds bytes into the hash ---------------- */

  const VALUE: nat := 0x20
  const CLOSURE: nat := 0x40
  const BUFFER: nat := 0x20

  // The frame of hash(): the hash so far, and the closure, which refers to it.
  ghost predicate Accumulating(a: Arena, hs: Slot, value: Word)
    requires a.Valid()
    reads a, a.mem, a.shadow
  {
    hs.c == 1 && Local(a, hs, 0x20, value) && Local(a, hs, 0x40, a.base + FrameOf(a.log, hs) + 0x20)
  }

  // The buffer of an emitting function: these bytes, and a shadow byte that admits them.
  ghost predicate BufferAt(m: seq<Byte>, sh: seq<Byte>, log: nat, s: Slot, bytes: seq<Byte>)
    requires Covers(m, sh, log) && IsSlot(log, s)
  {
    FramePlace(m, sh, log, s);
    ProbeSlots(0);
    && s.c == 0 && |bytes| <= 8
    && m[FrameOf(log, s) + BUFFER..FrameOf(log, s) + BUFFER + |bytes|] == bytes
    && sh[FrameOf(log, s) / 8 + 4] == |bytes| % 8
  }

  ghost predicate Buffered(a: Arena, s: Slot, bytes: seq<Byte>)
    requires a.Valid()
    reads a, a.mem, a.shadow
  {
    s in a.live && BufferAt(a.mem[..], a.shadow[..], a.log, s, bytes)
  }

  lemma BufferStays(m: seq<Byte>, sh: seq<Byte>, m': seq<Byte>, sh': seq<Byte>, log: nat, slots: set<Slot>,
                    s: Slot, bytes: seq<Byte>)
    requires Covers(m, sh, log) && Covers(m', sh', log) && |m| == |m'|
    requires forall t :: t in slots ==> IsSlot(log, t)
    requires SameFrames(m, sh, m', sh', log, slots) && s in slots && BufferAt(m, sh, log, s, bytes)
    ensures BufferAt(m', sh', log, s, bytes)
  {
    hide FrameOf, Get8, FrameSize, Extent;
    ProbeSlots(0);
    FramePlace(m, sh, log, s);
    var at := FrameOf(log, s);
    forall i: nat | at + BUFFER <= i < at + BUFFER + 8
      ensures m'[i] == m[i]
    {
      assert InFrame(log, s, i);
    }
    assert InFrame(log, s, 8 * (at / 8 + 4));
  }

  // The hash in its frame, read through the closure; null when a check fails.
  method LoadThrough(a: Arena, closureAt: nat, ghost hs: Slot, ghost value: Word)
    returns (trap: bool, at: nat, w: Word)
    requires ProbeArena(a) && a.Valid() && Accumulating(a, hs, value) && closureAt == FrameOf(a.log, hs) + CLOSURE
    ensures !trap && at == FrameOf(a.log, hs) + VALUE && w == value
  {
    hide Arena.Valid, FrameOf, FlagOf, Get8, Extent, FrameSize;
    ProbeSlots(1);
    FramePlace(a.mem[..], a.shadow[..], a.log, hs);
    at, w := 0, 0;
    if !Addressable(a.shadow[closureAt / 8], closureAt, 8) {
      return true, at, w;
    }
    var p := Load8(a.mem, closureAt);
    at := p - a.base;
    if !Addressable(a.shadow[at / 8], at, 8) {
      return true, at, w;
    }
    w := Load8(a.mem, at);
    trap := false;
  }

  method StoreValue(a: Arena, at: nat, ghost hs: Slot, ghost value: Word, w: Word)
    requires a.Valid() && Accumulating(a, hs, value) && at == FrameOf(a.log, hs) + VALUE
    modifies a.mem
    ensures a.Valid() && a.DataKept() && a.FramesKept(a.live - {hs})
    ensures Accumulating(a, hs, w)
  {
    hide Arena.Valid, FrameOf, FlagOf, Get8, Extent, FrameSize, Put8;
    ProbeSlots(1);
    FramePlace(a.mem[..], a.shadow[..], a.log, hs);
    ghost var m := a.mem[..];
    StoreLocal(a, at - VALUE, hs, VALUE, w);
    LocalBeside(m, a.shadow[..], a.log, hs, CLOSURE, a.base + FrameOf(a.log, hs) + VALUE, VALUE, w);
  }

  // *value ^= b; *value *= prime
  method FoldByte(a: Arena, closureAt: nat, b: Byte, ghost hs: Slot, ghost value: Word) returns (trap: bool)
    requires ProbeArena(a) && a.Valid() && Accumulating(a, hs, value) && closureAt == FrameOf(a.log, hs) + CLOSURE
    modifies a.mem
    ensures !trap && a.Valid() && a.DataKept() && a.FramesKept(a.live - {hs})
    ensures Accumulating(a, hs, Step(value, b))
  {
    hide Arena.Valid, FrameOf, FlagOf, Get8, Extent, FrameSize, Xor, Times, LocalAt;
    XorWord(value, b);
    var at, w;
    trap, at, w := LoadThrough(a, closureAt, hs, value);
    if trap {
      return true;
    }
    StoreValue(a, at, hs, value, Xor(w, b));
    trap, at, w := LoadThrough(a, closureAt, hs, Xor(value, b));
    if trap {
      return true;
    }
    StoreValue(a, at, hs, Xor(value, b), Times(w, PRIME));
  }

  lemma InWord(at: nat, i: nat)
    requires at % 8 == 0 && i < 8
    ensures (at + i) / 8 == at / 8 && (at + i) % 8 == i
  {
  }

  method LoadByte(a: Arena, at: nat, ghost bs: Slot, ghost bytes: seq<Byte>, ghost i: nat) returns (trap: bool, b: Byte)
    requires a.Valid() && Buffered(a, bs, bytes) && i < |bytes| && at == FrameOf(a.log, bs) + BUFFER + i
    ensures !trap && b == bytes[i]
  {
    hide Arena.Valid, FrameOf, FlagOf, Get8, Extent, FrameSize;
    FramePlace(a.mem[..], a.shadow[..], a.log, bs);
    ProbeSlots(0);
    assert a.shadow[..][at / 8] == |bytes| % 8 && at % 8 == i by { InWord(at - i, i); }
    b := 0;
    if !Addressable(a.shadow[at / 8], at, 1) {
      return true, b;
    }
    assert a.mem[..][at - i..at - i + |bytes|][i] == a.mem[at];
    return false, a.mem[at];
  }

  // operator(): each byte is exclusive-ored into the hash, and the hash multiplied. No
  // check of a load fails.
  method Lambda(a: Arena, closureAt: nat, bufferAt: nat, count: nat, ghost hs: Slot, ghost value: Word,
                ghost bs: Slot, ghost bytes: seq<Byte>)
    returns (trap: bool)
    requires ProbeArena(a) && a.Valid() && Accumulating(a, hs, value) && closureAt == FrameOf(a.log, hs) + CLOSURE
    requires Buffered(a, bs, bytes) && bufferAt == FrameOf(a.log, bs) + BUFFER && count == |bytes|
    modifies a.mem
    ensures !trap && a.Valid() && a.DataKept() && a.FramesKept(a.live - {hs})
    ensures Accumulating(a, hs, Absorb(value, bytes))
  {
    hide Arena.Valid, FrameOf, FlagOf, Get8, Extent, FrameSize, LocalAt, BufferAt, Step;
    BuffersElsewhere(a, hs, value, bs, bytes);
    ghost var m, sh := a.mem[..], a.shadow[..];
    for i := 0 to count
      invariant a.Valid() && a.DataKept() && a.FramesKept(a.live - {hs})
      invariant Accumulating(a, hs, Absorb(value, bytes[..i]))
      invariant Buffered(a, bs, bytes)
    {
      hide Accumulating;
      var b;
      trap, b := LoadByte(a, bufferAt + i, bs, bytes, i);
      if trap {
        return true;
      }
      AbsorbNext(value, bytes, i);
      trap := FoldByte(a, closureAt, b, hs, Absorb(value, bytes[..i]));
      if trap {
        return true;
      }
      BufferStays(m, sh, a.mem[..], a.shadow[..], a.log, a.live - {hs}, bs, bytes);
    }
    assert bytes[..count] == bytes;
    trap := false;
  }

  lemma AbsorbNext(value: Word, bytes: seq<Byte>, i: nat)
    requires i < |bytes|
    ensures Absorb(value, bytes[..i + 1]) == Step(Absorb(value, bytes[..i]), bytes[i])
  {
    assert bytes[..i + 1][..i] == bytes[..i];
  }

  lemma BuffersElsewhere(a: Arena, hs: Slot, value: Word, bs: Slot, bytes: seq<Byte>)
    requires a.Valid() && Accumulating(a, hs, value) && Buffered(a, bs, bytes)
    ensures hs != bs && hs in a.live && bs in a.live
  {
  }

  /* ---------------- emit_u64 and emit_i16 ---------------- */

  lemma AccumulatingStays(a: Arena, m: seq<Byte>, sh: seq<Byte>, slots: set<Slot>, hs: Slot, value: Word)
    requires a.Valid() && Covers(m, sh, a.log) && |m| == a.mem.Length && IsSlot(a.log, hs)
    requires forall t :: t in slots ==> IsSlot(a.log, t)
    requires SameFrames(m, sh, a.mem[..], a.shadow[..], a.log, slots) && hs in slots && hs in a.live
    requires hs.c == 1 && LocalAt(m, sh, a.log, hs, VALUE, value)
    requires LocalAt(m, sh, a.log, hs, CLOSURE, a.base + FrameOf(a.log, hs) + VALUE)
    ensures Accumulating(a, hs, value)
  {
    hide LocalAt, SameFrames, FrameOf, Get8, Extent;
    LocalsStay(m, sh, a.mem[..], a.shadow[..], a.log, slots);
  }

  // The prologue of an emitting function and the filling of its buffer.
  method OpenBuffer(a: Arena, bytes: seq<Byte>, site: Site) returns (at: nat, ghost s: Slot)
    requires ProbeArena(a) && a.Valid() && |a.live| < 0x1000 && |bytes| <= 8
    modifies a.mem, a.shadow, a`live
    ensures a.Valid() && a.DataKept() && a.FramesKept(old(a.live))
    ensures s !in old(a.live) && a.live == old(a.live) + {s} && Buffered(a, s, bytes)
    ensures s.c == 0 && at == FrameOf(a.log, s)
  {
    hide Arena.Valid, FrameOf, FlagOf, Get8, Extent, FrameSize, BufferAt;
    ProbeSlots(0);
    at, s := TakeFrame(a, 0, 0x40, site);
    assert a.live - {s} == old(a.live);
    GuardBuffer(a, at, s, |bytes| % 8);
    FillBuffer(a, at, s, bytes);
  }

  // The shadow of the frame: the buffer, out of scope, between red zones; then the
  // buffer in scope.
  method GuardBuffer(a: Arena, at: nat, ghost s: Slot, guard: Byte)
    requires a.Valid() && s in a.live && s.c == 0 && at == FrameOf(a.log, s)
    modifies a.shadow
    ensures a.Valid() && a.DataKept() && a.FramesKept(a.live - {s})
    ensures at / 8 + 4 < a.shadow.Length && a.shadow[at / 8 + 4] == guard
  {
    hide Arena.Valid, FrameOf, FlagOf, Get8, Extent, FrameSize;
    ProbeSlots(0);
    FramePlace(a.mem[..], a.shadow[..], a.log, s);
    PaintShadow(a, at, s, 0, [0xf1, 0xf1, 0xf1, 0xf1, 0xf8, 0xf3, 0xf3, 0xf3]);
    PaintShadow(a, at, s, 4, [guard]);
    assert a.shadow[..][at / 8 + 4] == guard;
  }

  method FillBuffer(a: Arena, at: nat, ghost s: Slot, bytes: seq<Byte>)
    requires a.Valid() && s in a.live && s.c == 0 && |bytes| <= 8 && at == FrameOf(a.log, s)
    requires at / 8 + 4 < a.shadow.Length && a.shadow[at / 8 + 4] == |bytes| % 8
    modifies a.mem
    ensures a.Valid() && a.DataKept() && a.FramesKept(a.live - {s})
    ensures Buffered(a, s, bytes)
  {
    hide Arena.Valid, FrameOf, FlagOf, Get8, Extent, FrameSize, Put;
    ProbeSlots(0);
    StoreBytes(a, at, s, BUFFER, bytes);
    assert a.mem[..][at + BUFFER..at + BUFFER + |bytes|] == bytes;
  }

  lemma PutNext(m: seq<Byte>, a: nat, bytes: seq<Byte>, i: nat)
    requires i < |bytes| && a + |bytes| <= |m|
    ensures Put(m, a, bytes[..i])[a + i := bytes[i]] == Put(m, a, bytes[..i + 1])
  {
  }

  method CloseBuffer(a: Arena, at: nat, ghost s: Slot)
    requires a.Valid() && s in a.live && s.c == 0 && at == FrameOf(a.log, s)
    modifies a.mem, a.shadow, a`live
    ensures a.Valid() && a.DataKept() && a.live == old(a.live) - {s} && a.FramesKept(a.live)
  {
    hide Arena.Valid, FrameOf, FlagOf, Get8, Extent, FrameSize;
    ProbeSlots(0);
    PaintShadow(a, at, s, 4, [0xf8]);
    a.FreeFrame(at, s, 0);
  }

  method EmitBytes(a: Arena, closureAt: nat, bytes: seq<Byte>, site: Site, ghost hs: Slot, ghost value: Word)
    returns (trap: bool)
    requires ProbeArena(a) && a.Valid() && |a.live| < 0x1000 && |bytes| <= 8
    requires Accumulating(a, hs, value) && closureAt == FrameOf(a.log, hs) + CLOSURE
    modifies a.mem, a.shadow, a`live
    ensures !trap && a.Valid() && a.DataKept() && a.live == old(a.live) && a.FramesKept(a.live - {hs})
    ensures Accumulating(a, hs, Absorb(value, bytes))
  {
    hide Arena.Valid, FrameOf, FlagOf, Get8, Extent, FrameSize, LocalAt, BufferAt, Absorb;
    ghost var before := a.live;
    ghost var m, sh := a.mem[..], a.shadow[..];
    var at, s := OpenBuffer(a, bytes, site);
    AccumulatingStays(a, m, sh, before, hs, value);
    trap := Lambda(a, closureAt, at + BUFFER, |bytes|, hs, value, s, bytes);
    if trap {
      return true;
    }
    m, sh := a.mem[..], a.shadow[..];
    CloseBuffer(a, at, s);
    assert a.live == before;
    AccumulatingStays(a, m, sh, before, hs, Absorb(value, bytes));
  }

  method EmitU64(a: Arena, closureAt: nat, v: Word, site: Site, ghost hs: Slot, ghost value: Word)
    returns (trap: bool)
    requires ProbeArena(a) && a.Valid() && |a.live| < 0x1000
    requires Accumulating(a, hs, value) && closureAt == FrameOf(a.log, hs) + CLOSURE
    modifies a.mem, a.shadow, a`live
    ensures !trap && a.Valid() && a.DataKept() && a.live == old(a.live) && a.FramesKept(a.live - {hs})
    ensures Accumulating(a, hs, Absorb(value, LE64(v)))
  {
    hide Arena.Valid, FrameOf, FlagOf, Get8, Extent, FrameSize, LE64, LowBytes, Absorb, LocalAt;
    LowBytesAreLE64(v);
    trap := EmitBytes(a, closureAt, LowBytes(v, 8), site, hs, value);
  }

  method EmitI16(a: Arena, closureAt: nat, v: Word16, site: Site, ghost hs: Slot, ghost value: Word)
    returns (trap: bool)
    requires ProbeArena(a) && a.Valid() && |a.live| < 0x1000
    requires Accumulating(a, hs, value) && closureAt == FrameOf(a.log, hs) + CLOSURE
    modifies a.mem, a.shadow, a`live
    ensures !trap && a.Valid() && a.DataKept() && a.live == old(a.live) && a.FramesKept(a.live - {hs})
    ensures Accumulating(a, hs, Absorb(value, LE16(v)))
  {
    hide Arena.Valid, FrameOf, FlagOf, Get8, Extent, FrameSize, Absorb, LocalAt;
    trap := EmitBytes(a, closureAt, [v % 0x100, v / 0x100], site, hs, value);
  }

  /* ---------------- reading the vectors ---------------- */

  // The shadow of everything behind the fake stack is clear.
  ghost predicate DataVisible(sh: seq<Byte>) {
    forall i: nat :: i < |sh| && STACK_REGION <= 8 * i ==> sh[i] == 0
  }

  method LoadData(a: Arena, at: nat) returns (trap: bool, w: Word)
    requires ProbeArena(a) && DataVisible(a.shadow[..]) && STACK_REGION <= at && at + 8 <= a.mem.Length
    ensures !trap && w == Get8(a.mem[..], at)
  {
    hide Get8;
    w := 0;
    assert a.shadow[..][at / 8] == 0;
    if !Addressable(a.shadow[at / 8], at, 8) {
      return true, w;
    }
    w := Load8(a.mem, at);
    trap := false;
  }

  method LoadLocal(a: Arena, at: nat, off: nat, ghost s: Slot, ghost v: Word) returns (trap: bool, w: Word)
    requires a.Valid() && Local(a, s, off, v) && at == FrameOf(a.log, s)
    ensures !trap && w == v
  {
    hide Arena.Valid, FrameOf, FlagOf, Get8, Extent, FrameSize;
    FramePlace(a.mem[..], a.shadow[..], a.log, s);
    w := 0;
    if !Addressable(a.shadow[(at + off) / 8], at + off, 8) {
      return true, w;
    }
    w := Load8(a.mem, at + off);
    trap := false;
  }

  // What the payload does to frames leaves the data and their shadow alone.
  lemma DataStays(m: seq<Byte>, sh: seq<Byte>, m': seq<Byte>, sh': seq<Byte>)
    requires |m| == |m'| == ARENA_BYTES && |sh| == |sh'| && DataVisible(sh)
    requires forall i :: Extent(STACK_SIZE_LOG) <= i < |m| ==> m'[i] == m[i]
    requires forall i :: 0 <= i < |sh| && !(FramesStart(STACK_SIZE_LOG) <= 8 * i < Extent(STACK_SIZE_LOG)) ==>
               sh'[i] == sh[i]
    ensures DataVisible(sh') && forall i :: STACK_REGION <= i < |m| ==> m'[i] == m[i]
  {
    hide Extent, FramesStart;
    ProbeArenaFits();
  }

  // begin() and end(): the pointer at an address, by way of an iterator in a frame.
  method Iterator(a: Arena, fieldAt: nat, site: Site) returns (trap: bool, w: Word)
    requires ProbeArena(a) && a.Valid() && |a.live| < 0x1000
    requires DataVisible(a.shadow[..]) && STACK_REGION <= fieldAt && fieldAt + 8 <= a.mem.Length
    modifies a.mem, a.shadow, a`live
    ensures !trap && a.Valid() && a.DataKept() && a.live == old(a.live) && a.FramesKept(a.live)
    ensures w == old(Get8(a.mem[..], fieldAt))
  {
    hide Arena.Valid, FrameOf, FlagOf, Get8, Extent, FrameSize, FramesStart, DataVisible;
    ProbeSlots(0);
    ghost var m, sh := a.mem[..], a.shadow[..];
    var at, s := TakeFrame(a, 0, 0x40, site);
    assert a.live - {s} == old(a.live);
    DataStays(m, sh, a.mem[..], a.shadow[..]);
    GetSame8(m, a.mem[..], fieldAt);
    trap, w := PassThrough(a, at, s, fieldAt);
    a.FreeFrame(at, s, 0);
  }

  method PassThrough(a: Arena, at: nat, ghost s: Slot, fieldAt: nat) returns (trap: bool, w: Word)
    requires ProbeArena(a) && a.Valid() && s in a.live && s.c == 0 && at == FrameOf(a.log, s)
    requires DataVisible(a.shadow[..]) && STACK_REGION <= fieldAt && fieldAt + 8 <= a.mem.Length
    modifies a.mem, a.shadow
    ensures !trap && a.Valid() && a.DataKept() && a.FramesKept(a.live - {s})
    ensures w == old(Get8(a.mem[..], fieldAt))
  {
    hide Arena.Valid, FrameOf, FlagOf, Get8, Extent, FrameSize, FramesStart, DataVisible;
    ProbeSlots(0);
    FramePlace(a.mem[..], a.shadow[..], a.log, s);
    ghost var m, sh := a.mem[..], a.shadow[..];
    PaintShadow(a, at, s, 0, [0xf1, 0xf1, 0xf1, 0xf1, 0, 0xf3, 0xf3, 0xf3]);
    assert a.shadow[..][at / 8 + 4] == 0;
    DataStays(m, sh, a.mem[..], a.shadow[..]);
    trap, w := LoadData(a, fieldAt);
    if trap || !Addressable(a.shadow[(at + 0x20) / 8], at + 0x20, 8) {
      return true, w;
    }
    StoreLocal(a, at, s, 0x20, w);
    trap, w := LoadLocal(a, at, 0x20, s, w);
  }

  // size(): the distance of the two pointers, as a signed shift gives it.
  method Size(a: Arena, vectorAt: nat, stride: nat) returns (trap: bool, n: Word)
    requires ProbeArena(a) && a.Valid() && 0 < stride
    requires DataVisible(a.shadow[..]) && STACK_REGION <= vectorAt && vectorAt + 16 <= a.mem.Length
    ensures !trap && n == Distance(Get8(a.mem[..], vectorAt), Get8(a.mem[..], vectorAt + 8), stride)
  {
    hide Arena.Valid, Get8;
    n := 0;
    var begin, end;
    trap, end := LoadData(a, vectorAt + 8);
    if trap {
      return true, n;
    }
    trap, begin := LoadData(a, vectorAt);
    n := Distance(begin, end, stride);
  }

  // The signed difference of two pointers over the element size, as an unsigned word.
  function Distance(begin: Word, end: Word, stride: nat): Word
    requires 0 < stride
  {
    Signed((end - begin) % W, W) / stride % W
  }

  /* ---------------- emit_state ---------------- */

  const CHUNK: nat := 0x20
  const CHUNKS_END: nat := 0x40
  const NODE: nat := 0x60
  const NODES_END: nat := 0x80

  // Where each function's frame says it comes from.
  datatype Sites = Sites(
    hash: Site, emitState: Site, emitU64: Site, emitI16: Site,
    chunksBegin: Site, chunksEnd: Site, nodesBegin: Site, nodesEnd: Site)

  // hash() and emit_state() have their frames, and the data are in sight.
  ghost predicate Emitting(a: Arena, hs: Slot, value: Word, es: Slot)
    requires a.Valid()
    reads a, a.mem, a.shadow
  {
    && ProbeArena(a) && |a.live| < 0x800
    && Accumulating(a, hs, value)
    && es in a.live && es.c == 2
    && DataVisible(a.shadow[..])
  }

  predicate IsVariable(off: nat) {
    off == 0x20 || off == 0x40 || off == 0x60 || off == 0x80
  }

  // What holds while a pass runs: the hash so far, and the chunk iterators.
  ghost predicate Running(a: Arena, hs: Slot, value: Word, es: Slot, chunk: nat, chunksEnd: nat)
    requires a.Valid()
    reads a, a.mem, a.shadow
  {
    Emitting(a, hs, value, es) && Local(a, es, 0x20, chunk) && Local(a, es, 0x40, chunksEnd)
  }

  // Whatever leaves these frames and the data alone keeps the iterators.
  lemma RunningStays(a: Arena, m: seq<Byte>, sh: seq<Byte>, slots: set<Slot>, hs: Slot, value: Word, es: Slot,
                     chunk: nat, chunksEnd: nat)
    requires a.Valid() && ProbeArena(a) && |a.live| < 0x800 && |m| == a.mem.Length && Covers(m, sh, a.log)
    requires forall t :: t in slots ==> IsSlot(a.log, t)
    requires SameFrames(m, sh, a.mem[..], a.shadow[..], a.log, slots)
    requires Accumulating(a, hs, value) && es in slots && es in a.live && es.c == 2
    requires LocalAt(m, sh, a.log, es, CHUNK, chunk) && LocalAt(m, sh, a.log, es, CHUNKS_END, chunksEnd)
    requires DataVisible(a.shadow[..])
    ensures Running(a, hs, value, es, chunk, chunksEnd)
    ensures forall off: nat, v: nat :: LocalAt(m, sh, a.log, es, off, v) ==> Local(a, es, off, v)
  {
    hide LocalAt, SameFrames, FrameOf, Get8, Extent, DataVisible, Accumulating, Arena.Valid;
    LocalsStay(m, sh, a.mem[..], a.shadow[..], a.log, slots);
  }

  // The body of the loop over the nodes of a chunk.
  method EmitNode(a: Arena, closureAt: nat, esAt: nat, sites: Sites, ghost hs: Slot, ghost value: Word,
                  ghost es: Slot, ghost chunk: nat, ghost chunksEnd: nat, ghost p: Word, ghost q: Word)
    returns (trap: bool)
    requires a.Valid() && Running(a, hs, value, es, chunk, chunksEnd)
    requires Local(a, es, 0x60, p) && Local(a, es, 0x80, q)
    requires closureAt == FrameOf(a.log, hs) + CLOSURE && esAt == FrameOf(a.log, es)
    requires a.base + STACK_REGION <= p && p % 2 == 0 && p + 2 <= a.base + a.mem.Length
    modifies a.mem, a.shadow, a`live
    ensures !trap && a.Valid() && a.DataKept() && a.live == old(a.live) && a.FramesKept(a.live - {hs, es})
    ensures Running(a, hs, Absorb(value, LE16(old(Get2(a.mem[..], p - a.base)))), es, chunk, chunksEnd)
    ensures Local(a, es, NODE, p + 2) && Local(a, es, NODES_END, q)
  {
    hide Arena.Valid, FrameOf, FlagOf, Get8, Extent, FrameSize, FramesStart, DataVisible, LocalAt, Absorb;
    var w;
    trap, w := LoadLocal(a, esAt, NODE, es, p);
    var at := w - a.base;
    DataByte(a.shadow[..], at);
    if trap || !Addressable(a.shadow[at / 8], at, 2) {
      return true;
    }
    var v := Get2(a.mem[..], at);
    ghost var m, sh := a.mem[..], a.shadow[..];
    trap := EmitI16(a, closureAt, v, sites.emitI16, hs, value);
    DataStays(m, sh, a.mem[..], a.shadow[..]);
    RunningStays(a, m, sh, a.live - {hs}, hs, Absorb(value, LE16(v)), es, chunk, chunksEnd);
    if trap {
      return true;
    }
    trap, w := LoadLocal(a, esAt, NODE, es, p);
    if trap {
      return true;
    }
    LocalShadow(a, es, NODE, p);
    AdvanceLocal(a, esAt, NODE, w + 2, hs, Absorb(value, LE16(v)), es);
  }

  lemma LocalShadow(a: Arena, s: Slot, off: nat, v: nat)
    requires a.Valid() && Local(a, s, off, v)
    ensures FrameOf(a.log, s) / 8 + off / 8 < a.shadow.Length && a.shadow[FrameOf(a.log, s) / 8 + off / 8] == 0
  {
    hide Arena.Valid, FrameOf, FlagOf, Get8, Extent, FrameSize;
    FramePlace(a.mem[..], a.shadow[..], a.log, s);
    assert a.shadow[..][FrameOf(a.log, s) / 8 + off / 8] == 0;
  }

  lemma DataByte(sh: seq<Byte>, at: nat)
    requires DataVisible(sh) && STACK_REGION <= at && at / 8 < |sh|
    ensures sh[at / 8] == 0
  {
  }

  // Gives an iterator of emit_state a value.
  method AdvanceLocal(a: Arena, esAt: nat, off: nat, w: Word, ghost hs: Slot, ghost value: Word,
                      ghost es: Slot)
    requires a.Valid() && Emitting(a, hs, value, es) && esAt == FrameOf(a.log, es)
    requires IsVariable(off)
    requires a.shadow[esAt / 8 + off / 8] == 0
    modifies a.mem
    ensures a.Valid() && a.DataKept() && a.FramesKept(a.live - {es})
    ensures Emitting(a, hs, value, es) && Local(a, es, off, w)
    ensures forall o: nat, v: nat :: o != off && old(Local(a, es, o, v)) ==> Local(a, es, o, v)
  {
    hide Arena.Valid, FrameOf, FlagOf, Get8, Extent, FrameSize, FramesStart, DataVisible, LocalAt, Put8;
    ProbeSlots(2);
    FramePlace(a.mem[..], a.shadow[..], a.log, es);
    ghost var m, sh := a.mem[..], a.shadow[..];
    StoreLocal(a, esAt, es, off, w);
    LocalsBeside(m, sh, a.log, es, off, w);
    AccumulatingStays(a, m, sh, a.live - {es}, hs, value);
  }

  // Brings a variable of emit_state into scope or takes it out.
  method SetScope(a: Arena, esAt: nat, off: nat, b: Byte, ghost hs: Slot, ghost value: Word,
                  ghost es: Slot)
    requires a.Valid() && Emitting(a, hs, value, es) && esAt == FrameOf(a.log, es)
    requires IsVariable(off)
    modifies a.shadow
    ensures a.Valid() && a.DataKept() && a.FramesKept(a.live - {es})
    ensures Emitting(a, hs, value, es)
    ensures esAt / 8 + off / 8 < a.shadow.Length && a.shadow[esAt / 8 + off / 8] == b
    ensures forall o: nat, v: nat :: o != off && old(Local(a, es, o, v)) ==> Local(a, es, o, v)
  {
    hide Arena.Valid, FrameOf, FlagOf, Get8, Extent, FrameSize, FramesStart, DataVisible, LocalAt;
    ProbeSlots(2);
    FramePlace(a.mem[..], a.shadow[..], a.log, es);
    ghost var m, sh := a.mem[..], a.shadow[..];
    PaintShadow(a, esAt, es, off / 8, [b]);
    assert a.shadow[..][esAt / 8 + off / 8] == b;
    LocalsRepainted(m, sh, a.log, es, off / 8, b);
    DataStays(m, sh, a.mem[..], a.shadow[..]);
    AccumulatingStays(a, m, sh, a.live - {es}, hs, value);
  }

  // auto it = field();
  method Declare(a: Arena, esAt: nat, off: nat, fieldAt: nat, site: Site, ghost hs: Slot, ghost value: Word,
                 ghost es: Slot)
    returns (trap: bool)
    requires a.Valid() && Emitting(a, hs, value, es) && esAt == FrameOf(a.log, es)
    requires IsVariable(off)
    requires STACK_REGION <= fieldAt && fieldAt + 8 <= a.mem.Length
    modifies a.mem, a.shadow, a`live
    ensures !trap && a.Valid() && a.DataKept() && a.live == old(a.live) && a.FramesKept(a.live - {es})
    ensures Emitting(a, hs, value, es) && Local(a, es, off, old(Get8(a.mem[..], fieldAt)))
    ensures forall o: nat, v: nat :: o != off && old(Local(a, es, o, v)) ==> Local(a, es, o, v)
  {
    hide Arena.Valid, FrameOf, FlagOf, Get8, Extent, FrameSize, FramesStart, DataVisible, LocalAt;
    SetScope(a, esAt, off, 0, hs, value, es);
    ghost var m, sh := a.mem[..], a.shadow[..];
    var w;
    trap, w := Iterator(a, fieldAt, site);
    DataStays(m, sh, a.mem[..], a.shadow[..]);
    AccumulatingStays(a, m, sh, a.live, hs, value);
    LocalsStay(m, sh, a.mem[..], a.shadow[..], a.log, a.live);
    ShadowStays(a, m, sh, es, off);
    if trap {
      return true;
    }
    AdvanceLocal(a, esAt, off, w, hs, value, es);
  }

  lemma ShadowStays(a: Arena, m: seq<Byte>, sh: seq<Byte>, s: Slot, off: nat)
    requires a.Valid() && Covers(m, sh, a.log) && |m| == a.mem.Length && s in a.live && s.c == 2
    requires SameFrames(m, sh, a.mem[..], a.shadow[..], a.log, a.live)
    requires IsVariable(off)
    ensures FrameOf(a.log, s) / 8 + off / 8 < |sh|
    ensures a.shadow[FrameOf(a.log, s) / 8 + off / 8] == sh[FrameOf(a.log, s) / 8 + off / 8]
  {
    hide Arena.Valid, FrameOf, FlagOf, Get8, Extent, FrameSize;
    ProbeSlots(2);
    FramePlace(m, sh, a.log, s);
    assert InFrame(a.log, s, 8 * (FrameOf(a.log, s) / 8 + off / 8));
    assert a.shadow[..][FrameOf(a.log, s) / 8 + off / 8] == sh[FrameOf(a.log, s) / 8 + off / 8];
  }

  // it != end
  method LoadIterators(a: Arena, at: nat, off: nat, endOff: nat, ghost s: Slot, ghost v: Word, ghost w: Word)
    returns (trap: bool, p: Word, q: Word)
    requires a.Valid() && Local(a, s, off, v) && Local(a, s, endOff, w) && at == FrameOf(a.log, s)
    ensures !trap && p == v && q == w
  {
    hide Arena.Valid, FrameOf, Local;
    q := 0;
    trap, p := LoadLocal(a, at, off, s, v);
    if trap {
      return true, p, q;
    }
    trap, q := LoadLocal(a, at, endOff, s, w);
  }

  lemma NodesFacts(m: seq<Byte>, base: nat, at: nat, nodes: seq<Word16>)
    requires RepresentsNodes(m, base, at, nodes)
    ensures at + 24 <= |m| && Get8(m, at + 8) == Get8(m, at) + 2 * |nodes|
    ensures base + STACK_REGION <= Get8(m, at) && Get8(m, at + 8) <= base + |m|
  {
  }

  lemma Get2Same(m: seq<Byte>, n: seq<Byte>, a: nat)
    requires a + 2 <= |m| && a + 2 <= |n| && m[a] == n[a] && m[a + 1] == n[a + 1]
    ensures Get2(m, a) == Get2(n, a)
  {
  }

  // Node n, in any memory that has the same data.
  lemma NodeInPlace(m: seq<Byte>, m': seq<Byte>, base: nat, at: nat, nodes: seq<Word16>, n: nat)
    requires RepresentsNodes(m, base, at, nodes) && n < |nodes| && base % 2 == 0 && |m'| == |m|
    requires forall i :: Extent(STACK_SIZE_LOG) <= i < |m| ==> m'[i] == m[i]
    ensures at + 24 <= |m| && (Get8(m, at) + 2 * n) % 2 == 0
    ensures base + STACK_REGION <= Get8(m, at) + 2 * n && Get8(m, at) + 2 * n + 2 <= base + |m'|
    ensures Get2(m', Get8(m, at) + 2 * n - base) == nodes[n]
  {
    hide Get8, Get2, Extent;
    ProbeArenaFits();
    var begin := Get8(m, at) - base;
    Get2Same(m, m', begin + 2 * n);
  }

  method DeclareNodes(a: Arena, esAt: nat, nodesAt: nat, sites: Sites, ghost hs: Slot, ghost value: Word,
                      ghost es: Slot, ghost chunk: nat, ghost chunksEnd: nat)
    returns (trap: bool)
    requires a.Valid() && Running(a, hs, value, es, chunk, chunksEnd) && esAt == FrameOf(a.log, es)
    requires STACK_REGION <= nodesAt && nodesAt + 16 <= a.mem.Length
    modifies a.mem, a.shadow, a`live
    ensures !trap && a.Valid() && a.DataKept() && a.live == old(a.live) && a.FramesKept(a.live - {es})
    ensures Running(a, hs, value, es, chunk, chunksEnd)
    ensures Local(a, es, NODE, old(Get8(a.mem[..], nodesAt)))
    ensures Local(a, es, NODES_END, old(Get8(a.mem[..], nodesAt + 8)))
  {
    hide Arena.Valid, FrameOf, FlagOf, Get8, Extent, FrameSize, FramesStart, DataVisible, LocalAt, Accumulating;
    ProbeArenaFits();
    ghost var m := a.mem[..];
    trap := Declare(a, esAt, NODE, nodesAt, sites.nodesBegin, hs, value, es);
    if trap {
      return true;
    }
    GetSame8(m, a.mem[..], nodesAt + 8);
    trap := Declare(a, esAt, NODES_END, nodesAt + 8, sites.nodesEnd, hs, value, es);
  }

  // for (node : chunk.nodes) emit_i16(emit, node);
  method EmitNodes(a: Arena, closureAt: nat, esAt: nat, nodesAt: nat, sites: Sites, ghost hs: Slot, ghost value: Word,
                   ghost es: Slot, ghost chunk: nat, ghost chunksEnd: nat, ghost nodes: seq<Word16>)
    returns (trap: bool)
    requires a.Valid() && Running(a, hs, value, es, chunk, chunksEnd)
    requires closureAt == FrameOf(a.log, hs) + CLOSURE && esAt == FrameOf(a.log, es)
    requires STACK_REGION <= nodesAt && RepresentsNodes(a.mem[..], a.base, nodesAt, nodes)
    modifies a.mem, a.shadow, a`live
    ensures !trap && a.Valid() && a.DataKept() && a.live == old(a.live) && a.FramesKept(a.live - {hs, es})
    ensures Running(a, hs, Absorb(value, NodeBytes(nodes)), es, chunk, chunksEnd)
  {
    hide Arena.Valid, FrameOf, FlagOf, Get8, Extent, FrameSize, FramesStart, DataVisible, LocalAt, Absorb, Accumulating,
         Local, Running, RepresentsNodes, NodeBytes, Get2;
    RunningFacts(a, hs, value, es, chunk, chunksEnd);
    ghost var m := a.mem[..];
    NodesFacts(m, a.base, nodesAt, nodes);
    ghost var begin, end := Get8(m, nodesAt), Get8(m, nodesAt + 8);
    trap := DeclareNodes(a, esAt, nodesAt, sites, hs, value, es, chunk, chunksEnd);
    if trap {
      return true;
    }
    var p, q;
    trap, p, q := LoadIterators(a, esAt, NODE, NODES_END, es, begin, end);
    ghost var n := 0;
    NoNodes(value, nodes);
    while p != q
      invariant n <= |nodes| && p == begin + 2 * n && q == end
      invariant a.Valid() && a.DataKept() && a.live == old(a.live) && a.FramesKept(a.live - {hs, es})
      invariant Running(a, hs, Absorb(value, NodeBytes(nodes[..n])), es, chunk, chunksEnd)
      invariant Local(a, es, NODE, p) && Local(a, es, NODES_END, q)
      decreases |nodes| - n
    {
      NextBytes(value, nodes, n);
      NodeInPlace(m, a.mem[..], a.base, nodesAt, nodes, n);
      trap := EmitNode(a, closureAt, esAt, sites, hs, Absorb(value, NodeBytes(nodes[..n])), es, chunk, chunksEnd, p, q);
      if trap {
        return true;
      }
      n := n + 1;
      trap, p, q := LoadIterators(a, esAt, NODE, NODES_END, es, p + 2, q);
    }
    assert nodes[..n] == nodes;
  }

  lemma RunningFacts(a: Arena, hs: Slot, value: Word, es: Slot, chunk: nat, chunksEnd: nat)
    requires a.Valid() && Running(a, hs, value, es, chunk, chunksEnd)
    ensures ProbeArena(a) && hs in a.live && es in a.live && hs.c == 1 && es.c == 2
    ensures a.base + ARENA_BYTES < W
  {
    ProbeArenaFits();
  }

  lemma NextBytes(value: Word, nodes: seq<Word16>, n: nat)
    requires n < |nodes|
    ensures Absorb(value, NodeBytes(nodes[..n + 1])) == Absorb(Absorb(value, NodeBytes(nodes[..n])), LE16(nodes[n]))
  {
    hide Absorb, NodeBytes;
    NodesSnoc(nodes, n);
    AbsorbConcat(value, NodeBytes(nodes[..n]), LE16(nodes[n]));
  }

  lemma SizeIs(begin: Word, end: Word, count: nat, stride: nat)
    requires 0 < stride && end == begin + stride * count && stride * count <= ARENA_BYTES
    ensures Distance(begin, end, stride) == count
  {
    var size := stride * count;
    DivModUnique(size, stride, count, 0);
    MulMonotone(count, 1, stride);
    SignedSmall(size);
  }

  lemma SignedSmall(n: nat)
    requires n <= ARENA_BYTES
    ensures Signed(n % W, W) == n
  {
  }

  // A vector of so many elements.
  ghost predicate SpanAt(m: seq<Byte>, base: nat, at: nat, stride: nat, count: nat) {
    && at + 24 <= |m| && Get8(m, at + 8) == Get8(m, at) + stride * count
    && base + STACK_REGION <= Get8(m, at) && Get8(m, at + 8) <= base + |m|
  }

  lemma SpanSize(m: seq<Byte>, base: nat, at: nat, stride: nat, count: nat)
    requires SpanAt(m, base, at, stride, count) && |m| <= ARENA_BYTES && 0 < stride
    ensures at + 16 <= |m|
    ensures Distance(Get8(m, at), Get8(m, at + 8), stride) == count
  {
    hide Get8;
    SizeIs(Get8(m, at), Get8(m, at + 8), count, stride);
  }

  // The length of a vector, handed to emit_u64.
  method EmitSize(a: Arena, closureAt: nat, at: nat, stride: nat, site: Site, ghost hs: Slot, ghost value: Word,
                  ghost count: nat)
    returns (trap: bool)
    requires ProbeArena(a) && a.Valid() && |a.live| < 0x1000 && Accumulating(a, hs, value)
    requires closureAt == FrameOf(a.log, hs) + CLOSURE && 0 < stride
    requires DataVisible(a.shadow[..]) && STACK_REGION <= at && SpanAt(a.mem[..], a.base, at, stride, count)
    modifies a.mem, a.shadow, a`live
    ensures !trap && a.Valid() && a.DataKept() && a.live == old(a.live) && a.FramesKept(a.live - {hs})
    ensures Accumulating(a, hs, Absorb(value, SizeBytes(count)))
  {
    hide Arena.Valid, FrameOf, FlagOf, Get8, Extent, FrameSize, FramesStart, DataVisible, Absorb, LE64, Accumulating,
         SpanAt, Distance;
    SpanSize(a.mem[..], a.base, at, stride, count);
    var n;
    trap, n := Size(a, at, stride);
    if trap {
      return true;
    }
    assert n == count;
    trap := EmitU64(a, closureAt, n, site, hs, value);
  }

  // The body of the loop over the chunks.
  method EmitChunk(a: Arena, closureAt: nat, esAt: nat, sites: Sites, ghost hs: Slot, ghost value: Word,
                   ghost es: Slot, ghost chunk: Word, ghost chunksEnd: nat, ghost nodes: seq<Word16>)
    returns (trap: bool)
    requires a.Valid() && Running(a, hs, value, es, chunk, chunksEnd)
    requires closureAt == FrameOf(a.log, hs) + CLOSURE && esAt == FrameOf(a.log, es)
    requires a.base + STACK_REGION <= chunk && chunk + 32 < W
    requires RepresentsNodes(a.mem[..], a.base, chunk - a.base + 8, nodes)
    modifies a.mem, a.shadow, a`live
    ensures !trap && a.Valid() && a.DataKept() && a.live == old(a.live) && a.FramesKept(a.live - {hs, es})
    ensures Running(a, hs, Absorb(value, ChunkBytes(nodes)), es, chunk + 32, chunksEnd)
  {
    hide Arena.Valid, FrameOf, FlagOf, Get8, Extent, FrameSize, FramesStart, DataVisible, LocalAt, Absorb, Accumulating,
         RepresentsNodes, NodeBytes, Get2, SizeBytes, ChunkBytes;
    var p;
    trap, p := LoadLocal(a, esAt, CHUNK, es, chunk);
    if trap {
      return true;
    }
    trap := EmitChunkNodes(a, closureAt, esAt, p - a.base + 8, sites, hs, value, es, chunk, chunksEnd, nodes);
    if trap {
      return true;
    }
    trap := NextChunk(a, esAt, hs, Absorb(value, ChunkBytes(nodes)), es, chunk, chunksEnd);
  }

  // The end of the loop body: the locals of the inner loop go out of scope, and the
  // chunk pointer moves on.
  method NextChunk(a: Arena, esAt: nat, ghost hs: Slot, ghost acc: Word, ghost es: Slot, ghost chunk: Word,
                   ghost chunksEnd: nat)
    returns (trap: bool)
    requires a.Valid() && Running(a, hs, acc, es, chunk, chunksEnd) && esAt == FrameOf(a.log, es)
    requires a.base + STACK_REGION <= chunk && chunk + 32 < W
    modifies a.mem, a.shadow, a`live
    ensures !trap && a.Valid() && a.DataKept() && a.live == old(a.live) && a.FramesKept(a.live - {hs, es})
    ensures Running(a, hs, acc, es, chunk + 32, chunksEnd)
  {
    hide Arena.Valid, FrameOf, FlagOf, Get8, Extent, FrameSize, FramesStart, DataVisible, LocalAt, Absorb, Accumulating;
    var p;
    SetScope(a, esAt, NODES_END, 0xf8, hs, acc, es);
    SetScope(a, esAt, NODE, 0xf8, hs, acc, es);
    trap, p := LoadLocal(a, esAt, CHUNK, es, chunk);
    if trap {
      return true;
    }
    LocalShadow(a, es, CHUNK, chunk);
    AdvanceLocal(a, esAt, CHUNK, p + 32, hs, acc, es);
  }

  method EmitChunkNodes(a: Arena, closureAt: nat, esAt: nat, nodesAt: nat, sites: Sites, ghost hs: Slot,
                        ghost value: Word, ghost es: Slot, ghost chunk: nat, ghost chunksEnd: nat,
                        ghost nodes: seq<Word16>)
    returns (trap: bool)
    requires a.Valid() && Running(a, hs, value, es, chunk, chunksEnd)
    requires closureAt == FrameOf(a.log, hs) + CLOSURE && esAt == FrameOf(a.log, es)
    requires STACK_REGION <= nodesAt && RepresentsNodes(a.mem[..], a.base, nodesAt, nodes)
    modifies a.mem, a.shadow, a`live
    ensures !trap && a.Valid() && a.DataKept() && a.live == old(a.live) && a.FramesKept(a.live - {hs, es})
    ensures Running(a, hs, Absorb(value, ChunkBytes(nodes)), es, chunk, chunksEnd)
  {
    hide Arena.Valid, FrameOf, FlagOf, Get8, Extent, FrameSize, FramesStart, DataVisible, LocalAt, Absorb, LE64,
         RepresentsNodes, NodeBytes, Get2;
    ghost var m, sh := a.mem[..], a.shadow[..];
    NodesFacts(m, a.base, nodesAt, nodes);
    trap := EmitSize(a, closureAt, nodesAt, 2, sites.emitU64, hs, value, |nodes|);
    if trap {
      return true;
    }
    ghost var acc := Absorb(value, SizeBytes(|nodes|));
    DataStays(m, sh, a.mem[..], a.shadow[..]);
    RunningStays(a, m, sh, a.live - {hs}, hs, acc, es, chunk, chunksEnd);
    NodesStay(m, a.mem[..], a.base, nodesAt, nodes);
    trap := EmitNodes(a, closureAt, esAt, nodesAt, sites, hs, acc, es, chunk, chunksEnd, nodes);
    AbsorbConcat(value, SizeBytes(|nodes|), NodeBytes(nodes));
  }

  // The data are read back the same while they are the same.
  lemma NodesStay(m: seq<Byte>, m': seq<Byte>, base: nat, at: nat, nodes: seq<Word16>)
    requires RepresentsNodes(m, base, at, nodes) && |m'| == |m| && STACK_REGION <= at
    requires forall i :: STACK_REGION <= i < |m| ==> m'[i] == m[i]
    ensures RepresentsNodes(m', base, at, nodes)
  {
    hide Get8, Get2;
    GetSame8(m, m', at);
    GetSame8(m, m', at + 8);
    GetSame8(m, m', at + 16);
    forall n | 0 <= n < |nodes|
      ensures Get2(m', Get8(m', at) - base + 2 * n) == nodes[n]
    {
      Get2Same(m, m', Get8(m, at) - base + 2 * n);
    }
  }

  lemma ChunksStay(m: seq<Byte>, m': seq<Byte>, base: nat, at: nat, chunks: seq<seq<Word16>>)
    requires Represents(m, base, at, chunks) && |m'| == |m| && STACK_REGION <= at
    requires forall i :: STACK_REGION <= i < |m| ==> m'[i] == m[i]
    ensures Represents(m', base, at, chunks)
  {
    hide Get8, RepresentsNodes;
    GetSame8(m, m', at);
    GetSame8(m, m', at + 8);
    GetSame8(m, m', at + 16);
    forall c | 0 <= c < |chunks|
      ensures RepresentsNodes(m', base, Get8(m', at) - base + 32 * c + 8, chunks[c])
    {
      NodesStay(m, m', base, Get8(m, at) - base + 32 * c + 8, chunks[c]);
    }
  }

  lemma ChunksFacts(m: seq<Byte>, base: nat, at: nat, chunks: seq<seq<Word16>>)
    requires Represents(m, base, at, chunks)
    ensures at + 24 <= |m| && Get8(m, at + 8) == Get8(m, at) + 32 * |chunks|
    ensures base + STACK_REGION <= Get8(m, at) && Get8(m, at + 8) <= base + |m|
  {
  }

  // Chunk c, in any memory that has the same data.
  lemma ChunkInPlace(m: seq<Byte>, m': seq<Byte>, base: nat, at: nat, chunks: seq<seq<Word16>>, c: nat)
    requires Represents(m, base, at, chunks) && c < |chunks| && |m'| == |m|
    requires forall i :: Extent(STACK_SIZE_LOG) <= i < |m| ==> m'[i] == m[i]
    ensures at + 24 <= |m| && base + STACK_REGION <= Get8(m, at) + 32 * c
    ensures RepresentsNodes(m', base, Get8(m, at) + 32 * c - base + 8, chunks[c])
  {
    hide Get8, RepresentsNodes, Extent;
    ProbeArenaFits();
    NodesStay(m, m', base, Get8(m, at) - base + 32 * c + 8, chunks[c]);
  }

  lemma NextChunkBytes(value: Word, chunks: seq<seq<Word16>>, c: nat)
    requires c < |chunks|
    ensures Absorb(value, AllChunkBytes(chunks[..c + 1])) ==
            Absorb(Absorb(value, AllChunkBytes(chunks[..c])), ChunkBytes(chunks[c]))
  {
    hide Absorb, ChunkBytes;
    assert chunks[..c + 1][..c] == chunks[..c];
    AbsorbConcat(value, AllChunkBytes(chunks[..c]), ChunkBytes(chunks[c]));
  }

  lemma NoChunks(value: Word, chunks: seq<seq<Word16>>)
    ensures Absorb(value, AllChunkBytes(chunks[..0])) == value
  {
  }

  // for (chunk : chunks) ...
  method EmitChunks(a: Arena, closureAt: nat, esAt: nat, vectorAt: nat, sites: Sites, ghost hs: Slot,
                    ghost value: Word, ghost es: Slot, ghost chunks: seq<seq<Word16>>)
    returns (trap: bool)
    requires a.Valid() && STACK_REGION <= vectorAt && Represents(a.mem[..], a.base, vectorAt, chunks)
    requires Running(a, hs, value, es, Get8(a.mem[..], vectorAt), Get8(a.mem[..], vectorAt + 8))
    requires closureAt == FrameOf(a.log, hs) + CLOSURE && esAt == FrameOf(a.log, es)
    modifies a.mem, a.shadow, a`live
    ensures !trap && a.Valid() && a.DataKept() && a.live == old(a.live) && a.FramesKept(a.live - {hs, es})
    ensures Emitting(a, hs, Absorb(value, AllChunkBytes(chunks)), es)
  {
    hide Arena.Valid, FrameOf, FlagOf, Get8, Extent, FrameSize, FramesStart, DataVisible, LocalAt, Absorb, Accumulating,
         Local, Represents, RepresentsNodes, AllChunkBytes, ChunkBytes, Emitting;
    ghost var m := a.mem[..];
    ChunksFacts(m, a.base, vectorAt, chunks);
    ghost var begin, end := Get8(m, vectorAt), Get8(m, vectorAt + 8);
    RunningFacts(a, hs, value, es, begin, end);
    var p, q;
    trap, p, q := LoadIterators(a, esAt, CHUNK, CHUNKS_END, es, begin, end);
    ghost var c := 0;
    NoChunks(value, chunks);
    while p != q
      invariant c <= |chunks| && p == begin + 32 * c && q == end
      invariant a.Valid() && a.DataKept() && a.live == old(a.live) && a.FramesKept(a.live - {hs, es})
      invariant Running(a, hs, Absorb(value, AllChunkBytes(chunks[..c])), es, p, q)
      decreases |chunks| - c
    {
      NextChunkBytes(value, chunks, c);
      ChunkInPlace(m, a.mem[..], a.base, vectorAt, chunks, c);
      trap := EmitChunk(a, closureAt, esAt, sites, hs, Absorb(value, AllChunkBytes(chunks[..c])), es, p, q, chunks[c]);
      if trap {
        return true;
      }
      c := c + 1;
      trap, p, q := LoadIterators(a, esAt, CHUNK, CHUNKS_END, es, p + 32, q);
    }
    assert chunks[..c] == chunks;
  }

  // The epilogue of emit_state and of hash: two variables leave scope, the frame is freed.
  method CloseFrame(a: Arena, at: nat, ghost s: Slot, c: nat)
    requires a.Valid() && s in a.live && s.c == c && 1 <= c <= 2 && at == FrameOf(a.log, s)
    modifies a.mem, a.shadow, a`live
    ensures a.Valid() && a.DataKept() && a.live == old(a.live) - {s} && a.FramesKept(a.live)
  {
    hide Arena.Valid, FrameOf, FlagOf, Get8, Extent, FrameSize, FramesStart;
    ProbeSlots(c);
    PaintShadow(a, at, s, 8, [0xf8]);
    PaintShadow(a, at, s, 4, [0xf8]);
    a.FreeFrame(at, s, c);
  }

  // The prologue of emit_state, and the two chunk iterators.
  method OpenState(a: Arena, vectorAt: nat, sites: Sites, ghost hs: Slot, ghost value: Word)
    returns (at: nat, ghost es: Slot)
    requires ProbeArena(a) && a.Valid() && |a.live| < 0x700 && Accumulating(a, hs, value)
    requires DataVisible(a.shadow[..])
    modifies a.mem, a.shadow, a`live
    ensures a.Valid() && a.DataKept() && a.FramesKept(old(a.live))
    ensures es !in old(a.live) && a.live == old(a.live) + {es} && at == FrameOf(a.log, es)
    ensures Emitting(a, hs, value, es)
  {
    hide Arena.Valid, FrameOf, FlagOf, Get8, Extent, FrameSize, FramesStart, DataVisible, LocalAt;
    ProbeSlots(2);
    ghost var before := a.live;
    ghost var m, sh := a.mem[..], a.shadow[..];
    at, es := TakeFrame(a, 2, 0xa0, sites.emitState);
    assert a.live - {es} == before;
    PaintShadow(a, at, es, 0, [0xf1, 0xf1, 0xf1, 0xf1, 0xf8, 0xf2, 0xf2, 0xf2, 0xf8, 0xf2, 0xf2, 0xf2,
                               0xf8, 0xf2, 0xf2, 0xf2, 0xf8, 0xf3, 0xf3, 0xf3]);
    DataStays(m, sh, a.mem[..], a.shadow[..]);
    AccumulatingStays(a, m, sh, before, hs, value);
  }

  method EmitState(a: Arena, closureAt: nat, vectorAt: nat, sites: Sites, ghost hs: Slot, ghost value: Word,
                   ghost chunks: seq<seq<Word16>>)
    returns (trap: bool)
    requires ProbeArena(a) && a.Valid() && |a.live| < 0x700 && Accumulating(a, hs, value)
    requires closureAt == FrameOf(a.log, hs) + CLOSURE
    requires DataVisible(a.shadow[..]) && STACK_REGION <= vectorAt
    requires Represents(a.mem[..], a.base, vectorAt, chunks)
    modifies a.mem, a.shadow, a`live
    ensures !trap && a.Valid() && a.DataKept() && a.live == old(a.live) && a.FramesKept(a.live - {hs})
    ensures Accumulating(a, hs, Absorb(value, StateBytes(chunks)))
  {
    hide Arena.Valid, FrameOf, FlagOf, Get8, Extent, FrameSize, FramesStart, DataVisible, LocalAt, Absorb, Represents,
         AllChunkBytes, LE64;
    ghost var before := a.live;
    ghost var m0, sh0 := a.mem[..], a.shadow[..];
    var at, es := OpenState(a, vectorAt, sites, hs, value);
    DataStays(m0, sh0, a.mem[..], a.shadow[..]);
    ChunksStay(m0, a.mem[..], a.base, vectorAt, chunks);
    trap := EmitContents(a, closureAt, at, vectorAt, sites, hs, value, es, chunks);
    if trap {
      return true;
    }
    ghost var m, sh := a.mem[..], a.shadow[..];
    ghost var acc := Absorb(value, StateBytes(chunks));
    CloseFrame(a, at, es, 2);
    assert a.live == before;
    AccumulatingStays(a, m, sh, before, hs, acc);
  }

  // The number of chunks and then the chunks.
  method EmitContents(a: Arena, closureAt: nat, esAt: nat, vectorAt: nat, sites: Sites, ghost hs: Slot,
                      ghost value: Word, ghost es: Slot, ghost chunks: seq<seq<Word16>>)
    returns (trap: bool)
    requires a.Valid() && Emitting(a, hs, value, es) && STACK_REGION <= vectorAt
    requires closureAt == FrameOf(a.log, hs) + CLOSURE && esAt == FrameOf(a.log, es)
    requires Represents(a.mem[..], a.base, vectorAt, chunks)
    modifies a.mem, a.shadow, a`live
    ensures !trap && a.Valid() && a.DataKept() && a.live == old(a.live) && a.FramesKept(a.live - {hs, es})
    ensures Emitting(a, hs, Absorb(value, StateBytes(chunks)), es)
  {
    hide Arena.Valid, FrameOf, FlagOf, Get8, Extent, FrameSize, FramesStart, DataVisible, LocalAt, Absorb, Represents,
         AllChunkBytes, LE64;
    ghost var m, sh := a.mem[..], a.shadow[..];
    ChunksFacts(m, a.base, vectorAt, chunks);
    trap := EmitSize(a, closureAt, vectorAt, 32, sites.emitU64, hs, value, |chunks|);
    if trap {
      return true;
    }
    ghost var acc := Absorb(value, SizeBytes(|chunks|));
    DataStays(m, sh, a.mem[..], a.shadow[..]);
    trap := DeclareChunks(a, esAt, vectorAt, sites, hs, acc, es);
    if trap {
      return true;
    }
    ProbeArenaFits();
    ChunksStay(m, a.mem[..], a.base, vectorAt, chunks);
    trap := EmitChunks(a, closureAt, esAt, vectorAt, sites, hs, acc, es, chunks);
    AbsorbConcat(value, SizeBytes(|chunks|), AllChunkBytes(chunks));
  }

  method DeclareChunks(a: Arena, esAt: nat, vectorAt: nat, sites: Sites, ghost hs: Slot, ghost value: Word,
                       ghost es: Slot)
    returns (trap: bool)
    requires a.Valid() && Emitting(a, hs, value, es) && esAt == FrameOf(a.log, es)
    requires STACK_REGION <= vectorAt && vectorAt + 16 <= a.mem.Length
    modifies a.mem, a.shadow, a`live
    ensures !trap && a.Valid() && a.DataKept() && a.live == old(a.live) && a.FramesKept(a.live - {es})
    ensures Running(a, hs, value, es, Get8(a.mem[..], vectorAt), Get8(a.mem[..], vectorAt + 8))
  {
    hide Arena.Valid, FrameOf, FlagOf, Get8, Extent, FrameSize, FramesStart, DataVisible, LocalAt, Accumulating;
    ProbeArenaFits();
    ghost var m := a.mem[..];
    trap := Declare(a, esAt, CHUNK, vectorAt, sites.chunksBegin, hs, value, es);
    if trap {
      return true;
    }
    GetSame8(m, a.mem[..], vectorAt + 8);
    trap := Declare(a, esAt, CHUNKS_END, vectorAt + 8, sites.chunksEnd, hs, value, es);
    GetSame8(m, a.mem[..], vectorAt);
    GetSame8(m, a.mem[..], vectorAt + 8);
  }

  /* ---------------- hash ---------------- */

  // The prologue of hash: the value starts as the basis, and the closure refers to it.
  method OpenHash(a: Arena, site: Site) returns (trap: bool, at: nat, ghost hs: Slot)
    requires ProbeArena(a) && a.Valid() && a.live == {}
    modifies a.mem, a.shadow, a`live
    ensures !trap && a.Valid() && a.DataKept() && a.live == {hs} && at == FrameOf(a.log, hs)
    ensures Accumulating(a, hs, BASIS)
  {
    hide Arena.Valid, FrameOf, FlagOf, Get8, Extent, FrameSize, FramesStart, LocalAt;
    ProbeSlots(1);
    ProbeArenaFits();
    at, hs := TakeFrame(a, 1, 0x60, site);
    FramePlace(a.mem[..], a.shadow[..], a.log, hs);
    PaintShadow(a, at, hs, 0, [0xf1, 0xf1, 0xf1, 0xf1, 0xf8, 0xf2, 0xf2, 0xf2, 0xf8, 0xf3, 0xf3, 0xf3]);
    trap := DeclareWord(a, at, hs, VALUE, BASIS, false);
    if trap {
      return true, at, hs;
    }
    trap := DeclareWord(a, at, hs, CLOSURE, a.base + at + VALUE, true);
  }

  // Brings a variable into scope and gives it its first value, with or without a check
  // of the store.
  method DeclareWord(a: Arena, at: nat, ghost s: Slot, off: nat, w: Word, checked: bool) returns (trap: bool)
    requires a.Valid() && s in a.live && at == FrameOf(a.log, s) && off % 8 == 0 && off + 16 <= FrameSize(s.c)
    modifies a.mem, a.shadow
    ensures !trap && a.Valid() && a.DataKept() && a.FramesKept(a.live - {s})
    ensures Local(a, s, off, w)
    ensures forall o: nat, v: nat :: o != off && old(Local(a, s, o, v)) ==> Local(a, s, o, v)
  {
    hide Arena.Valid, FrameOf, FlagOf, Get8, Extent, FrameSize, FramesStart, LocalAt, Put8;
    FramePlace(a.mem[..], a.shadow[..], a.log, s);
    ghost var m, sh := a.mem[..], a.shadow[..];
    PaintShadow(a, at, s, off / 8, [0]);
    LocalsRepainted(m, sh, a.log, s, off / 8, 0);
    assert a.shadow[..][at / 8 + off / 8] == 0;
    if checked && !Addressable(a.shadow[(at + off) / 8], at + off, 8) {
      return true;
    }
    StoreLocal(a, at, s, off, w);
    LocalsBeside(m, a.shadow[..], a.log, s, off, w);
    trap := false;
  }

  // hash(): on a machine that makes no mistake it returns the FNV-1a hash of the vector
  // in the arena, reaches no trap, and leaves no frame taken and no datum changed.
  method HashPass(a: Arena, vectorAt: nat, sites: Sites, ghost chunks: seq<seq<Word16>>)
    returns (trap: bool, hash: Word)
    requires ProbeArena(a) && a.Valid() && a.live == {}
    requires DataVisible(a.shadow[..]) && STACK_REGION <= vectorAt
    requires Represents(a.mem[..], a.base, vectorAt, chunks)
    modifies a.mem, a.shadow, a`live
    ensures !trap && a.Valid() && a.DataKept() && a.live == {}
    ensures hash == Hash(StateBytes(chunks))
  {
    hide Arena.Valid, FrameOf, FlagOf, Get8, Extent, FrameSize, FramesStart, DataVisible, Absorb, Represents,
         StateBytes, Hash;
    hash := 0;
    ghost var m, sh := a.mem[..], a.shadow[..];
    var stopped, at, hs := OpenHash(a, sites.hash);
    if stopped {
      return true, hash;
    }
    DataStays(m, sh, a.mem[..], a.shadow[..]);
    ChunksStay(m, a.mem[..], a.base, vectorAt, chunks);
    trap := EmitState(a, at + CLOSURE, vectorAt, sites, hs, BASIS, chunks);
    if trap {
      return true, hash;
    }
    FramePlace(a.mem[..], a.shadow[..], a.log, hs);
    hash := Load8(a.mem, at + VALUE);
    AbsorbIsHash(StateBytes(chunks));
    CloseFrame(a, at, hs, 1);
  }
}
