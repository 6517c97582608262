/**
 The fake stack (src/rbx_payload.S, __asan_stack_malloc_0/1/2 and the epilogues that free
 their frames): a ring of frames for each size class, a flag byte for each frame, a
 hint where the next search starts, and in the last word of every frame a pointer to
 its own flag.

 Addresses are offsets into the arena, whose first byte is the fake stack's header.
 */
module FakeStack {
  import opened Words
  import opened Binary
  import opened Memory

  const CLASSES: nat := 11
  const HEADER: nat := 0x1000

  /* ---------------- where things are ---------------- */

  function Slots(log: nat, c: nat): nat
    requires c < CLASSES && 16 <= log
  {
    Pow2(log - 6 - c)
  }

  function FrameSize(c: nat): nat { Pow2(6 + c) }

  function FlagArea(log: nat, c: nat): nat
    requires c < CLASSES && 16 <= log
  {
    Pow2Monotone(10 - c, 10);
    assert Pow2(10) == 0x400;
    HEADER + (0x400 - Pow2(10 - c)) * Pow2(log - 15)
  }

  function FlagAt(log: nat, c: nat, pos: nat): nat
    requires c < CLASSES && 16 <= log
  {
    FlagArea(log, c) + pos
  }

  function FrameArea(log: nat, c: nat): nat
    requires 16 <= log
  {
    HEADER + Pow2(log - 5) + c * Pow2(log)
  }

  function FrameAt(log: nat, c: nat, pos: nat): nat
    requires c < CLASSES && 16 <= log
  {
    FrameArea(log, c) + pos * FrameSize(c)
  }

  function HintAt(c: nat): nat { 8 * c }

  // The end of the fake stack.
  function Extent(log: nat): nat
    requires 16 <= log
  {
    FrameArea(log, CLASSES)
  }

  datatype Slot = Slot(c: nat, pos: nat)

  predicate IsSlot(log: nat, s: Slot)
    requires 16 <= log
  {
    s.c < CLASSES && s.pos < Slots(log, s.c)
  }

  lemma FrameSizes(c: nat)
    ensures FrameSize(c) >= 64
  {
    Pow2Monotone(6, 6 + c);
    assert Pow2(6) == 64;
  }

  // The flag areas of the classes follow each other without gaps.
  lemma FlagAreasAdjoin(log: nat, c: nat)
    requires c + 1 < CLASSES && 16 <= log
    ensures FlagArea(log, c) + Slots(log, c) == FlagArea(log, c + 1)
  {
    var p, h := Pow2(log - 15), Pow2(9 - c);
    assert Pow2(10 - c) == 2 * h;
    hide Pow2;
    Pow2Add(9 - c, log - 15);
    Distribute(0x400, h, p);
  }

  lemma Distribute(k: int, h: int, p: int)
    ensures (k - 2 * h) * p + h * p == (k - h) * p
  {
  }

  lemma {:induction false} FlagAreasOrdered(log: nat, c: nat, d: nat)
    requires c < d < CLASSES && 16 <= log
    ensures FlagArea(log, c) + Slots(log, c) <= FlagArea(log, d)
  {
    FlagAreasAdjoin(log, d - 1);
    if c < d - 1 { FlagAreasOrdered(log, c, d - 1); }
  }

  // Every flag lies behind the header and before the frames.
  lemma FlagInArea(log: nat, s: Slot)
    requires 16 <= log && IsSlot(log, s)
    ensures HEADER <= FlagAt(log, s.c, s.pos) < HEADER + Pow2(log - 5)
  {
    hide Pow2, FlagArea, Slots;
    LastFlagArea(log);
    if s.c < 10 { FlagAreasOrdered(log, s.c, 10); }
    FlagAreaStart(log, s.c);
  }

  lemma FlagAreaStart(log: nat, c: nat)
    requires c < CLASSES && 16 <= log
    ensures FlagArea(log, c) >= HEADER
  {
    Pow2Monotone(10 - c, 10);
    assert Pow2(10) == 0x400;
    MulMonotone(Pow2(log - 15), 0, 0x400 - Pow2(10 - c));
  }

  lemma LastFlagArea(log: nat)
    requires 16 <= log
    ensures FlagArea(log, 10) + Slots(log, 10) <= HEADER + Pow2(log - 5)
  {
    var p := Pow2(log - 15);
    Pow2Add(10, log - 15);
    assert Pow2(10) == 0x400 && Pow2(0) == 1;
    assert p == 2 * Pow2(log - 16);
    assert FlagArea(log, 10) == HEADER + 0x3ff * p;
  }

  lemma FlagsDistinct(log: nat, s: Slot, t: Slot)
    requires 16 <= log && IsSlot(log, s) && IsSlot(log, t) && s != t
    ensures FlagAt(log, s.c, s.pos) != FlagAt(log, t.c, t.pos)
  {
    hide FlagArea, Slots;
    if s.c < t.c { FlagAreasOrdered(log, s.c, t.c); }
    if t.c < s.c { FlagAreasOrdered(log, t.c, s.c); }
  }

  // A frame lies inside the area of its class.
  lemma FrameInArea(log: nat, s: Slot)
    requires 16 <= log && IsSlot(log, s)
    ensures FrameArea(log, s.c) <= FrameAt(log, s.c, s.pos)
    ensures FrameAt(log, s.c, s.pos) + FrameSize(s.c) <= FrameArea(log, s.c + 1)
  {
    hide Pow2;
    Pow2Add(log - 6 - s.c, 6 + s.c);
    InArea(s.pos, FrameSize(s.c), Slots(log, s.c), Pow2(log), s.c);
  }

  lemma InArea(pos: nat, f: nat, n: nat, area: nat, c: nat)
    requires pos < n && n * f == area
    ensures 0 <= pos * f && pos * f + f <= area
    ensures (c + 1) * area == c * area + area
  {
    MulMonotone(f, pos + 1, n);
    assert f * (pos + 1) == pos * f + f;
  }

  lemma FrameAreasOrdered(log: nat, c: nat, d: nat)
    requires c < d && 16 <= log
    ensures FrameArea(log, c + 1) <= FrameArea(log, d)
  {
    MulMonotone(Pow2(log), c + 1, d);
  }

  // Frames of different slots do not overlap.
  lemma FramesDisjoint(log: nat, s: Slot, t: Slot)
    requires 16 <= log && IsSlot(log, s) && IsSlot(log, t) && s != t
    ensures FrameAt(log, s.c, s.pos) + FrameSize(s.c) <= FrameAt(log, t.c, t.pos)
            || FrameAt(log, t.c, t.pos) + FrameSize(t.c) <= FrameAt(log, s.c, s.pos)
  {
    hide FrameArea;
    FrameInArea(log, s);
    FrameInArea(log, t);
    if s.c < t.c { FrameAreasOrdered(log, s.c, t.c); }
    else if t.c < s.c { FrameAreasOrdered(log, t.c, s.c); }
    else if s.pos < t.pos { SamePitch(s.pos, t.pos, FrameSize(s.c)); }
    else { SamePitch(t.pos, s.pos, FrameSize(s.c)); }
  }

  lemma SamePitch(i: nat, j: nat, f: nat)
    requires i < j
    ensures i * f + f <= j * f
  {
    MulMonotone(f, i + 1, j);
    assert f * (i + 1) == i * f + f;
  }

  // Frames lie behind every flag and inside the fake stack.
  lemma FrameBounds(log: nat, s: Slot)
    requires 16 <= log && IsSlot(log, s)
    ensures HEADER + Pow2(log - 5) <= FrameAt(log, s.c, s.pos)
    ensures FrameAt(log, s.c, s.pos) + FrameSize(s.c) <= Extent(log)
  {
    hide Pow2, FrameAt;
    FrameInArea(log, s);
    FrameAreasOrdered(log, s.c, CLASSES);
    MulMonotone(Pow2(log), 0, s.c);
  }

  /* ---------------- addresses by slot ---------------- */

  function FramesStart(log: nat): nat
    requires 16 <= log
  {
    HEADER + Pow2(log - 5)
  }

  function FlagOf(log: nat, s: Slot): (a: nat)
    requires 16 <= log && IsSlot(log, s)
    ensures HEADER <= a < FramesStart(log)
  {
    FlagInArea(log, s);
    FlagAt(log, s.c, s.pos)
  }

  function FrameOf(log: nat, s: Slot): (a: nat)
    requires 16 <= log && IsSlot(log, s)
    ensures FramesStart(log) <= a && a + FrameSize(s.c) <= Extent(log) && FrameSize(s.c) >= 64
  {
    FrameBounds(log, s);
    FrameSizes(s.c);
    FrameAt(log, s.c, s.pos)
  }

  function PointerOf(log: nat, s: Slot): (a: nat)
    requires 16 <= log && IsSlot(log, s)
    ensures FramesStart(log) <= a && a + 8 <= Extent(log)
  {
    FrameOf(log, s) + FrameSize(s.c) - 8
  }

  // No two slots share a flag or a byte of their frames.
  lemma SlotsApart(log: nat, s: Slot, t: Slot)
    requires 16 <= log && IsSlot(log, s) && IsSlot(log, t) && s != t
    ensures FlagOf(log, s) != FlagOf(log, t)
    ensures FrameOf(log, s) + FrameSize(s.c) <= FrameOf(log, t) || FrameOf(log, t) + FrameSize(t.c) <= FrameOf(log, s)
  {
    FlagsDistinct(log, s, t);
    FramesDisjoint(log, s, t);
  }

  // In a fake stack of the size the probe uses: the flags from 0x1000 on, ever fewer to
  // a class, and the frames from 0x9000 on, a mebibyte to a class.
  lemma StackPlaces(s: Slot)
    requires IsSlot(20, s)
    ensures s.c < 11 && s.pos < Pow2(14 - s.c)
    ensures FlagOf(20, s) == 0x9000 - Pow2(15 - s.c) + s.pos
    ensures FrameOf(20, s) == 0x9000 + 0x10_0000 * s.c + s.pos * Pow2(6 + s.c)
  {
    ActualPowers();
    hide Pow2;
    Pow2Add(10 - s.c, 5);
    FlagPlace(Pow2(10 - s.c));
  }

  lemma ActualPowers()
    ensures Pow2(5) == 32 && Pow2(15) == 0x8000 && Pow2(20) == 0x10_0000
  {
    assert Pow2(5) == 32 && Pow2(10) == 0x400;
    hide Pow2;
    Pow2Add(10, 5);
    Pow2Add(10, 10);
  }

  lemma FlagPlace(p: nat)
    ensures (0x400 - p) * 32 == 0x8000 - p * 32
  {
  }

  /* ---------------- the state and its invariant ---------------- */

  ghost predicate Fits(m: seq<Byte>, log: nat, base: nat) {
    16 <= log && Extent(log) <= |m| && base + Extent(log) <= W
  }

  // A flag is set exactly when its frame is live, and every live frame points to its
  // own flag.
  ghost predicate Consistent(m: seq<Byte>, log: nat, base: nat, live: set<Slot>) {
    && Fits(m, log, base)
    && (forall s :: s in live ==> IsSlot(log, s))
    && (forall s :: IsSlot(log, s) ==> m[FlagOf(log, s)] == if s in live then 1 else 0)
    && (forall s :: s in live ==> Get8(m, PointerOf(log, s)) == base + FlagOf(log, s))
  }

  // n agrees with m on every flag and every frame except those of s.
  ghost predicate SameBut(m: seq<Byte>, n: seq<Byte>, log: nat, s: Slot)
    requires 16 <= log
  {
    && |m| == |n|
    && (forall t :: IsSlot(log, t) && t != s && FlagOf(log, t) < |m| ==> n[FlagOf(log, t)] == m[FlagOf(log, t)])
    && (forall t, i :: IsSlot(log, t) && t != s && PointerOf(log, t) <= i < PointerOf(log, t) + 8 && i < |m| ==>
          n[i] == m[i])
  }

  lemma OthersConsistent(m: seq<Byte>, n: seq<Byte>, log: nat, base: nat, live: set<Slot>, s: Slot, live': set<Slot>)
    requires Consistent(m, log, base, live) && SameBut(m, n, log, s) && IsSlot(log, s)
    requires live' == live + {s} || live' == live - {s}
    requires n[FlagOf(log, s)] == if s in live' then 1 else 0
    requires s in live' ==> Get8(n, PointerOf(log, s)) == base + FlagOf(log, s)
    ensures Consistent(n, log, base, live')
  {
    hide Get8, FlagOf, PointerOf, Extent, FramesStart;
    ExtentAboveHeader(log);
    forall t | t in live' && t != s
      ensures Get8(n, PointerOf(log, t)) == base + FlagOf(log, t)
    {
      GetSame8(m, n, PointerOf(log, t));
    }
  }

  // What an allocation of slot s writes besides the advanced hint: the flag, the caller's
  // stack pointer and the flag pointer.
  function Allocated(m: seq<Byte>, log: nat, base: nat, s: Slot, rbp: Word): (n: seq<Byte>)
    requires Fits(m, log, base) && IsSlot(log, s)
    ensures |n| == |m|
  {
    FitsHeader(log, s);
    var m1 := m[FlagOf(log, s) := 1];
    Put8(Put8(m1, FrameOf(log, s) + 0x18, rbp), PointerOf(log, s), base + FlagOf(log, s))
  }

  lemma FitsHeader(log: nat, s: Slot)
    requires 16 <= log && IsSlot(log, s)
    ensures HintAt(s.c) + 8 <= HEADER < FramesStart(log) < Extent(log)
  {
    var a := FlagOf(log, s);
    var b := FrameOf(log, s);
  }

  lemma AllocatedWords(m: seq<Byte>, log: nat, base: nat, s: Slot, rbp: Word)
    requires Fits(m, log, base) && IsSlot(log, s)
    ensures FrameOf(log, s) + FrameSize(s.c) <= |m| && FrameSize(s.c) >= 64
    ensures var n := Allocated(m, log, base, s, rbp);
            && Get8(n, FrameOf(log, s) + 0x18) == rbp
            && Get8(n, FrameOf(log, s) + FrameSize(s.c) - 8) == base + FlagOf(log, s)
  {
    hide Get8, Put8, FlagOf, FrameOf, PointerOf, FramesStart;
    FitsHeader(log, s);
    PointerInFrame(log, s);
    var m1 := m[FlagOf(log, s) := 1];
    var m2 := Put8(m1, FrameOf(log, s) + 0x18, rbp);
    GetPut8(m1, FrameOf(log, s) + 0x18, rbp);
    GetPut8(m2, PointerOf(log, s), base + FlagOf(log, s));
    GetSame8(m2, Put8(m2, PointerOf(log, s), base + FlagOf(log, s)), FrameOf(log, s) + 0x18);
  }

  lemma AllocationKeeps(m: seq<Byte>, log: nat, base: nat, live: set<Slot>, s: Slot, rbp: Word)
    requires Consistent(m, log, base, live) && IsSlot(log, s)
    ensures Consistent(Allocated(m, log, base, s, rbp), log, base, live + {s})
  {
    hide Get8, Put8, FlagOf, PointerOf, FrameOf, Extent, FramesStart;
    var n := Allocated(m, log, base, s, rbp);
    AllocationWrites(m, log, base, s, rbp);
    forall t | IsSlot(log, t) && t != s
      ensures n[FlagOf(log, t)] == m[FlagOf(log, t)]
      ensures forall i :: PointerOf(log, t) <= i < PointerOf(log, t) + 8 ==> n[i] == m[i]
    {
      FitsHeader(log, t);
      SlotsApart(log, s, t);
      PointerInFrame(log, t);
      PointerInFrame(log, s);
      assert Elsewhere(log, s, FlagOf(log, t));
      assert forall i :: PointerOf(log, t) <= i < PointerOf(log, t) + 8 ==> Elsewhere(log, s, i);
    }
    OthersConsistent(m, n, log, base, live, s, live + {s});
  }

  lemma PointerInFrame(log: nat, s: Slot)
    requires 16 <= log && IsSlot(log, s)
    ensures FrameOf(log, s) + 56 <= PointerOf(log, s)
    ensures PointerOf(log, s) + 8 == FrameOf(log, s) + FrameSize(s.c)
  {
  }

  // Outside the flag and the frame nothing changes.
  ghost predicate SameOutside(m: seq<Byte>, n: seq<Byte>, log: nat, s: Slot)
    requires 16 <= log && IsSlot(log, s)
  {
    |m| == |n| && forall i :: 0 <= i < |m| && Elsewhere(log, s, i) ==> n[i] == m[i]
  }

  ghost predicate Elsewhere(log: nat, s: Slot, i: nat)
    requires 16 <= log && IsSlot(log, s)
  {
    && i != FlagOf(log, s)
    && !(FrameOf(log, s) <= i < FrameOf(log, s) + FrameSize(s.c))
  }

  lemma AllocationWrites(m: seq<Byte>, log: nat, base: nat, s: Slot, rbp: Word)
    requires Fits(m, log, base) && IsSlot(log, s)
    ensures var n := Allocated(m, log, base, s, rbp);
            && n[FlagOf(log, s)] == 1
            && Get8(n, PointerOf(log, s)) == base + FlagOf(log, s)
            && SameOutside(m, n, log, s)
  {
    hide Get8, Put8, FlagOf, PointerOf, FrameOf, Extent, FramesStart;
    FitsHeader(log, s);
    PointerInFrame(log, s);
    var m1 := m[FlagOf(log, s) := 1];
    var m2 := Put8(m1, FrameOf(log, s) + 0x18, rbp);
    GetPut8(m2, PointerOf(log, s), base + FlagOf(log, s));
  }

  // What freeing the frame of slot s writes: zero through the pointer in its last word.
  function Freed(m: seq<Byte>, log: nat, base: nat, s: Slot): (n: seq<Byte>)
    requires Fits(m, log, base) && IsSlot(log, s)
    ensures |n| == |m|
  {
    var p := Get8(m, PointerOf(log, s));
    if base <= p < base + |m| then m[p - base := 0] else m
  }

  // The pointer in a live frame frees exactly that frame.
  lemma FreeingKeeps(m: seq<Byte>, log: nat, base: nat, live: set<Slot>, s: Slot)
    requires Consistent(m, log, base, live) && s in live
    ensures IsSlot(log, s) && Freed(m, log, base, s) == m[FlagOf(log, s) := 0]
    ensures Consistent(Freed(m, log, base, s), log, base, live - {s})
  {
    hide Get8, FlagOf, PointerOf, Extent, FramesStart;
    FitsHeader(log, s);
    var n := Freed(m, log, base, s);
    assert n == m[FlagOf(log, s) := 0];
    forall t | IsSlot(log, t) && t != s
      ensures n[FlagOf(log, t)] == m[FlagOf(log, t)]
    {
      SlotsApart(log, s, t);
    }
    OthersConsistent(m, n, log, base, live, s, live - {s});
  }

  // The owner of a frame may write anything below the frame's last word.
  lemma OwnerWriteKeeps(m: seq<Byte>, log: nat, base: nat, live: set<Slot>, s: Slot, a: nat, b: Byte)
    requires Consistent(m, log, base, live) && IsSlot(log, s)
    requires FrameOf(log, s) <= a < PointerOf(log, s)
    ensures Consistent(m[a := b], log, base, live)
  {
    hide Get8, FlagOf, PointerOf, FrameOf, Extent, FramesStart;
    var n := m[a := b];
    PointerInFrame(log, s);
    forall t | IsSlot(log, t)
      ensures n[FlagOf(log, t)] == m[FlagOf(log, t)]
      ensures forall i :: PointerOf(log, t) <= i < PointerOf(log, t) + 8 ==> n[i] == m[i]
    {
      FitsHeader(log, t);
      PointerInFrame(log, t);
      if t != s { SlotsApart(log, s, t); }
    }
    GetSame8(m, n, PointerOf(log, s));
    if s in live {
      OthersConsistent(m, n, log, base, live, s, live + {s});
      assert live + {s} == live;
    } else {
      OthersConsistent(m, n, log, base, live, s, live - {s});
      assert live - {s} == live;
    }
  }

  /* ---------------- the ring ---------------- */

  // The number of slots as the 32-bit loop counter sees it.
  function Counter(log: nat, c: nat): int
    requires c < CLASSES && 16 <= log
  {
    Signed(Slots(log, c) % 0x1_0000_0000, 0x1_0000_0000)
  }

  lemma Pow2Of31()
    ensures Pow2(30) == 0x4000_0000 && Pow2(31) == 0x8000_0000
  {
    assert Pow2(10) == 0x400;
    Pow2Add(10, 10);
    Pow2Add(20, 10);
  }

  lemma CounterPositiveIff(log: nat, c: nat)
    requires c < CLASSES && 16 <= log
    ensures Counter(log, c) > 0 <==> log - 6 - c < 31
    ensures Counter(log, c) > 0 ==> Counter(log, c) == Slots(log, c) && Slots(log, c) <= 0x4000_0000
  {
    hide Pow2;
    var k := log - 6 - c;
    Pow2Of31();
    if k < 31 {
      Pow2Monotone(k, 30);
    } else if k == 31 {
    } else {
      Pow2Values();
      Pow2Add(32, k - 32);
      ModAddMultiple(0, 0x1_0000_0000, Pow2(k - 32));
    }
  }

  // The position a hint stands for, and the hint after a step.
  function RingPos(log: nat, c: nat, hint: Word): (pos: nat)
    requires c < CLASSES && 16 <= log
    ensures pos < Slots(log, c)
  {
    hint % Slots(log, c)
  }

  function NextHint(hint: Word): Word { (hint + 1) % W }

  // The position the search looks at after i steps.
  function Probe(log: nat, c: nat, hint: Word, i: nat): nat
    requires c < CLASSES && 16 <= log
  {
    RingPos(log, c, HintAfter(hint, i))
  }

  function HintAfter(hint: Word, i: nat): Word { (hint + i) % W }

  // A search of as many steps as there are slots sees every slot, whatever the hint.
  lemma SearchCovers(log: nat, c: nat, hint: Word, pos: nat) returns (i: nat)
    requires c < CLASSES && 16 <= log <= 64 && pos < Slots(log, c)
    ensures i < Slots(log, c) && Probe(log, c, hint, i) == pos
  {
    i := StepsTo(hint, pos, Slots(log, c));
    hide Pow2;
    LowBitsOfWord(hint + i, log - 6 - c);
  }

  lemma StepsTo(hint: nat, pos: nat, n: nat) returns (i: nat)
    requires pos < n
    ensures i < n && (hint + i) % n == pos
  {
    var d := pos - hint;
    var q := d / n;
    i := d % n;
    assert d == n * q + i;
    assert n * (-q) == -(n * q);
    ModAddMultiple(pos, n, -q);
    DivModUnique(pos, n, 0, pos);
  }

  lemma ExtentAboveHeader(log: nat)
    requires 16 <= log
    ensures HEADER < FramesStart(log) <= Extent(log)
  {
    assert CLASSES * Pow2(log) >= 0;
  }

  lemma HintWriteKeeps(m: seq<Byte>, log: nat, base: nat, live: set<Slot>, c: nat, hint: Word)
    requires Consistent(m, log, base, live) && c < CLASSES
    ensures HintAt(c) + 8 <= |m| && Consistent(Put8(m, HintAt(c), hint), log, base, live)
  {
    hide Get8, Put8, FlagOf, PointerOf, Extent;
    ExtentAboveHeader(log);
    var n := Put8(m, HintAt(c), hint);
    forall s | IsSlot(log, s)
      ensures n[FlagOf(log, s)] == m[FlagOf(log, s)]
    {
      FitsHeader(log, s);
    }
    forall s | s in live
      ensures Get8(n, PointerOf(log, s)) == base + FlagOf(log, s)
    {
      GetSame8(m, n, PointerOf(log, s));
    }
  }
}
