/**
 The arena as the payload uses it: frames taken from the fake stack on entry to a
 function, written by their owner, poisoned and cleared in shadow memory, and given
 back through the pointer in their last word on exit.
 */
module Frames {
  import opened Words
  import opened Memory
  import opened Shadow
  import opened FakeStack

  const SIZE_LOG_AT: nat := 0x58
  const NEEDS_GC_AT: nat := 0x60

  datatype Allocation = Null | Frame(at: nat)

  // The two header fields the allocator reads besides the hints.
  ghost predicate HeaderIntact(m: seq<Byte>, log: nat) {
    |m| >= 0x1000 && Get8(m, 0x58) == log && m[0x60] == 0
  }

  lemma HeaderKept(m: seq<Byte>, n: seq<Byte>, log: nat)
    requires HeaderIntact(m, log) && |n| == |m|
    requires forall i :: SIZE_LOG_AT <= i <= NEEDS_GC_AT ==> n[i] == m[i]
    ensures HeaderIntact(n, log)
  {
    GetSame8(m, n, SIZE_LOG_AT);
  }

  // A function activation: its frame class, the size it asks for, the stack pointer its
  // frame records, and what it does, in order.
  datatype Activation = Activation(c: nat, requested: nat, rbp: Word, acts: seq<Act>)
  datatype Act = Write(off: nat, b: Byte) | Poison(k: nat, b: Byte) | Nested(call: Activation)

  // Owners stay inside their frame and below its last word.
  predicate Proper(call: Activation) {
    && call.c < CLASSES
    && call.requested <= FrameSize(call.c) && call.requested % 8 == 0
    && forall act :: act in call.acts ==>
         match act
         case Write(off, _) => off < FrameSize(call.c) - 8
         case Poison(k, _) => k < FrameSize(call.c) / 8
         case Nested(inner) => Proper(inner)
  }

  class Arena {
    const log: nat
    const base: Word
    const mem: array<Byte>
    const shadow: array<Byte>
    ghost var live: set<Slot>

    // Freshly mapped memory and its shadow.
    constructor (log: nat, base: Word, window: nat)
      ensures this.log == log && this.base == base && fresh(mem) && fresh(shadow)
      ensures mem.Length == 8 * window && shadow.Length == window && mem != shadow && live == {}
    {
      this.log, this.base, this.live := log, base, {};
      var m, s := new Byte[8 * window](_ => 0), new Byte[window](_ => 0);
      this.mem, this.shadow := m, s;
    }

    ghost predicate Valid()
      reads this, mem
      ensures Valid() ==> Fits(mem[..], log, base) && mem.Length == 8 * shadow.Length
                          && forall s :: s in live ==> IsSlot(log, s)
    {
      && log <= 64
      && mem != shadow && mem.Length == 8 * shadow.Length
      && Mapped(base, shadow.Length)
      && Consistent(mem[..], log, base, live)
      && HeaderIntact(mem[..], log)
    }

    // Nothing behind the fake stack has changed, nor any shadow byte but those of frames.
    twostate predicate DataKept()
      requires 16 <= log
      reads this, mem, shadow
    {
      && (forall i :: Extent(log) <= i < mem.Length ==> mem[i] == old(mem[i]))
      && (forall i :: 0 <= i < shadow.Length && !(FramesStart(log) <= 8 * i < Extent(log)) ==>
            shadow[i] == old(shadow[i]))
    }

    // The frames of these slots are as they were, and so is their shadow.
    twostate predicate FramesKept(slots: set<Slot>)
      requires 16 <= log && forall s :: s in slots ==> IsSlot(log, s)
      reads this, mem, shadow
    {
      && (forall s, i: nat :: s in slots && InFrame(log, s, i) && i < mem.Length ==> mem[i] == old(mem[i]))
      && (forall s, i: nat :: s in slots && InFrame(log, s, 8 * i) && i < shadow.Length ==>
            shadow[i] == old(shadow[i]))
    }

    // Where the search for a frame of class c starts.
    ghost function Hint(c: nat): Word
      requires Valid() && c < CLASSES
      reads this, mem
    {
      ExtentAboveHeader(log);
      Get8(mem[..], HintAt(c))
    }

    // Looks for a free slot of class c, starting at the hint and going round once. The hint
    // is then behind the slot found, or one round further.
    method Search(c: nat) returns (found: bool, pos: nat, hint: Word)
      requires Valid() && c < CLASSES && Counter(log, c) > 0
      ensures found ==> IsSlot(log, Slot(c, pos)) && Slot(c, pos) !in live
      ensures found ==> FoundFirst(log, c, live, Hint(c), pos, hint)
      ensures !found ==> hint == (Get8(mem[..], HintAt(c)) + Slots(log, c)) % W
                         && forall p: nat :: p < Slots(log, c) ==> Slot(c, p) in live
    {
      hide Get8, FlagOf, PointerOf, Extent, Slots, Counter, RingPos, NextHint, HintAfter;
      ExtentAboveHeader(log);
      CounterPositiveIff(log, c);
      var n := Slots(log, c);
      var start := Load8(mem, HintAt(c));
      HintStep(start, 0);
      hint := start;
      pos := 0;
      for i := 0 to n
        invariant hint == HintAfter(start, i)
        invariant forall j: nat :: j < i ==> Slot(c, Probe(log, c, start, j)) in live
      {
        pos := RingPos(log, c, hint);
        HintStep(start, i);
        hint := NextHint(hint);
        if FlagClear(c, pos) {
          FoundAfter(log, c, live, start, i, pos, hint);
          return true, pos, hint;
        }
      }
      forall p: nat | p < n
        ensures Slot(c, p) in live
      {
        var j := SearchCovers(log, c, start, p);
      }
      HintIs(start, n);
      found := false;
    }

    method StoreHint(c: nat, hint: Word)
      requires Valid() && c < CLASSES
      modifies mem
      ensures Valid() && FramesKept(live) && Hint(c) == hint
      ensures forall i :: HintAt(CLASSES) <= i < mem.Length ==> mem[i] == old(mem[i])
    {
      hide Get8, Consistent;
      ValidFits();
      ExtentAboveHeader(log);
      HintWriteKeeps(mem[..], log, base, live, c, hint);
      FramesAboveHeader();
      ghost var before := mem[..];
      Store8(mem, HintAt(c), hint);
      GetPut8(before, HintAt(c), hint);
      HeaderKept(before, mem[..], log);
    }

    lemma FramesAboveHeader()
      requires Valid()
      ensures forall s, i: nat :: s in live && InFrame(log, s, i) ==> HEADER <= i
    {
      hide FlagOf, FrameOf, Get8;
      forall s, i: nat | s in live && InFrame(log, s, i)
        ensures HEADER <= i
      {
        SlotBounds(log, s);
      }
    }

    lemma ValidFits()
      requires Valid()
      ensures Fits(mem[..], log, base) && forall s :: s in live ==> IsSlot(log, s)
    {
    }

    // Marks the slot taken and fills in the words of its frame.
    method ClaimFrame(s: Slot, rbp: Word)
      requires Valid() && IsSlot(log, s) && s !in live
      modifies mem, this`live
      ensures Valid() && live == old(live) + {s}
      ensures SameOutside(old(mem[..]), mem[..], log, s) && FramesKept(old(live))
      ensures Claimed(mem[..], log, base, s, rbp)
    {
      hide Get8, Put8, FlagOf, PointerOf, FrameOf, Extent, FramesStart, Consistent, SameOutside;
      ValidFits();
      FitsHeader(log, s);
      PointerInFrame(log, s);
      ghost var before := mem[..];
      OthersFrames(s);
      AllocationKeeps(before, log, base, live, s, rbp);
      AllocationWrites(before, log, base, s, rbp);
      mem[FlagOf(log, s)] := 1;
      assert mem[..] == before[FlagOf(log, s) := 1];
      Store8(mem, FrameOf(log, s) + 0x18, rbp);
      Store8(mem, PointerOf(log, s), base + FlagOf(log, s));
      assert mem[..] == Allocated(before, log, base, s, rbp);
      AllocatedWords(before, log, base, s, rbp);
      live := live + {s};
      HeaderOutside(before, mem[..], log, s);
    }

    // The frame becomes addressable up to the requested size; the rest is a red zone.
    method UnpoisonFrame(s: Slot, requested: nat)
      requires Valid() && IsSlot(log, s)
      requires requested <= FrameSize(s.c) && requested % 8 == 0
      modifies shadow
      ensures forall i :: 0 <= i < shadow.Length ==>
                shadow[i] == if !InFrame(log, s, 8 * i) then old(shadow[i])
                             else if 8 * i < FrameOf(log, s) + requested then 0 else 0xf3
      ensures FramesKept(live - {s})
    {
      hide FrameOf, Extent, FramesStart, Consistent, FrameSize, Get8;
      ValidFits();
      FrameAligned(log, s);
      OthersFrames(s);
      var at := FrameOf(log, s);
      Fill(shadow, at / 8, FrameSize(s.c) / 8, 0);
      var from, size := base + at + requested, FrameSize(s.c) - requested;
      assert from % 8 == 0 && size % 8 == 0;
      var o := PoisonShadow(shadow, base, from, size, 0xf3);
      assert o == Poisoned;
    }

    // Takes a frame of class c. Null exactly when every slot of the class is taken, or
    // the number of slots does not fit the 32-bit counter of the search.
    method StackMalloc(c: nat, requested: nat, rbp: Word) returns (r: Allocation, ghost slot: Slot)
      requires Valid() && c < CLASSES
      requires requested <= FrameSize(c) && requested % 8 == 0
      modifies mem, shadow, this`live
      ensures Valid() && DataKept()
      ensures FramesKept(old(live))
      ensures r.Null? <==> log - 6 - c >= 31 || forall p: nat :: p < Slots(log, c) ==> Slot(c, p) in old(live)
      ensures r.Null? ==> live == old(live)
      ensures log - 6 - c < 31 && r.Null? ==> Hint(c) == (old(Hint(c)) + Slots(log, c)) % W
      ensures r.Frame? ==> FoundFirst(log, c, old(live), old(Hint(c)), slot.pos, Hint(c))
                           && slot.c == c && Claimed(mem[..], log, base, slot, rbp)
      ensures r.Frame? ==>
                && IsSlot(log, slot) && slot.c == c && slot !in old(live)
                && live == old(live) + {slot} && r.at == FrameOf(log, slot)
                && forall i: nat :: i < shadow.Length && InFrame(log, slot, 8 * i) ==>
                     shadow[i] == if 8 * i < r.at + requested then 0 else 0xf3
    {
      hide Get8, FlagOf, PointerOf, FrameOf, Extent, FramesStart, Slots, Consistent, Counter, FrameSize;
      slot := Slot(c, 0);
      ValidFits();
      CounterPositiveIff(log, c);
      ExtentAboveHeader(log);
      if Counter(log, c) <= 0 {
        return Null, slot;
      }
      var found, pos, hint := Search(c);
      StoreHint(c, hint);
      label Stored:
      if !found {
        return Null, slot;
      }
      var s := Slot(c, pos);
      slot := s;
      ClaimFrame(s, rbp);
      HintElsewhere(old@Stored(mem[..]), mem[..], log, s);
      UnpoisonFrame(s, requested);
      SlotBounds(log, s);
      r := Frame(FrameOf(log, s));
    }

    // The owner of a frame writes a byte of it, anywhere below the last word.
    method OwnerWrite(at: nat, ghost s: Slot, off: nat, b: Byte)
      requires Valid() && s in live && at == FrameOf(log, s) && off < FrameSize(s.c) - 8
      modifies mem
      ensures Valid() && DataKept() && FramesKept(live - {s})
      ensures mem[..] == old(mem[..])[at + off := b]
    {
      hide Get8, FlagOf, PointerOf, FrameOf, Extent, FramesStart, Consistent, FrameSize;
      ValidFits();
      SlotBounds(log, s);
      PointerInFrame(log, s);
      OthersFrames(s);
      ghost var before := mem[..];
      var a := at + off;
      assert InFrame(log, s, a);
      OwnerWriteKeeps(before, log, base, live, s, a, b);
      mem[a] := b;
      assert mem[..] == before[a := b];
      ExtentAboveHeader(log);
      HeaderKept(before, mem[..], log);
    }

    // The owner sets the shadow of eight bytes of its frame.
    method OwnerPoison(at: nat, ghost s: Slot, k: nat, b: Byte)
      requires Valid() && s in live && at == FrameOf(log, s) && k < FrameSize(s.c) / 8
      modifies shadow
      ensures Valid() && DataKept() && FramesKept(live - {s})
      ensures shadow[..] == old(shadow[..])[at / 8 + k := b]
    {
      hide Get8, FlagOf, PointerOf, FrameOf, Extent, FramesStart, Consistent, FrameSize;
      ValidFits();
      SlotBounds(log, s);
      FrameAligned(log, s);
      OthersFrames(s);
      assert InFrame(log, s, 8 * (at / 8 + k));
      shadow[at / 8 + k] := b;
    }

    // The epilogue of a function whose frame is at the given address: the frame is
    // retired and poisoned, and its flag cleared through the pointer in its last word.
    // Its first word is then the retirement mark, and all its shadow bytes are 0xf5.
    method FreeFrame(at: nat, ghost s: Slot, c: nat)
      requires Valid() && s in live && s.c == c && c < CLASSES && at == FrameOf(log, s)
      modifies mem, shadow, this`live
      ensures Valid() && DataKept() && live == old(live) - {s} && FramesKept(live)
      ensures at + 8 <= mem.Length && Get8(mem[..], at) == 0x45e0360e
      ensures forall i: nat :: i < mem.Length && InFrame(log, s, i) && at + 8 <= i ==> mem[i] == old(mem[i])
      ensures forall i: nat :: i < shadow.Length && InFrame(log, s, 8 * i) ==> shadow[i] == 0xf5
    {
      hide Get8, FlagOf, PointerOf, FrameOf, Extent, FramesStart, Consistent, FrameSize;
      ValidFits();
      SlotBounds(log, s);
      FrameAligned(log, s);
      PointerInFrame(log, s);
      ghost var start := mem[..];
      RetireFrame(at, s);
      PaintFrame(at, s, c);
      ValidFits();
      var p := Load8(mem, at + FrameSize(c) - 8);
      PointerIsOwn(s);
      OthersFrames(s);
      ghost var before := mem[..];
      FreeingKeeps(before, log, base, live, s);
      mem[p - base] := 0;
      assert mem[..] == before[FlagOf(log, s) := 0];
      live := live - {s};
      FitsHeader(log, s);
      HeaderKept(before, mem[..], log);
      Retired(start, mem[..], log, s);
    }

    // A byte of another live frame lies in neither the frame nor the flag of s.
    lemma OthersFrames(s: Slot)
      requires Valid() && IsSlot(log, s)
      ensures forall t, i: nat :: t in live && t != s && InFrame(log, t, i) ==>
                !InFrame(log, s, i) && Elsewhere(log, s, i)
    {
      hide FlagOf, FrameOf, Get8;
      forall t, i: nat | t in live && t != s && InFrame(log, t, i)
        ensures !InFrame(log, s, i) && Elsewhere(log, s, i)
      {
        SlotsApart(log, s, t);
        SlotBounds(log, s);
        SlotBounds(log, t);
      }
    }

    lemma PointerIsOwn(s: Slot)
      requires Valid() && s in live
      ensures IsSlot(log, s) && Get8(mem[..], PointerOf(log, s)) == base + FlagOf(log, s)
    {
    }

    // The retirement mark, 0x45e0360e, in the first word of the frame.
    method RetireFrame(at: nat, ghost s: Slot)
      requires Valid() && s in live && at == FrameOf(log, s)
      modifies mem
      ensures Valid() && DataKept() && FramesKept(live - {s})
      ensures at + 8 <= mem.Length && mem[..] == Put(old(mem[..]), at, LE64(0x45e0360e))
    {
      hide Get8, FlagOf, PointerOf, FrameOf, Extent, FramesStart, Consistent, FrameSize;
      ValidFits();
      SlotBounds(log, s);
      PointerInFrame(log, s);
      ExtentAboveHeader(log);
      OthersFrames(s);
      var mark := LE64(0x45e0360e);
      for i := 0 to 8
        invariant Valid() && DataKept() && live == old(live) && FramesKept(live - {s})
        invariant forall j :: 0 <= j < mem.Length ==>
                    mem[j] == if at <= j < at + i then mark[j - at] else old(mem[j])
      {
        assert InFrame(log, s, at + i);
        ghost var before := mem[..];
        OwnerWriteKeeps(before, log, base, live, s, at + i, mark[i]);
        mem[at + i] := mark[i];
        assert mem[..] == before[at + i := mark[i]];
        HeaderKept(before, mem[..], log);
      }
    }

    method PaintFrame(at: nat, ghost s: Slot, c: nat)
      requires Valid() && s in live && s.c == c && at == FrameOf(log, s)
      modifies shadow
      ensures forall i :: 0 <= i < shadow.Length && !(FramesStart(log) <= 8 * i < Extent(log)) ==>
                shadow[i] == old(shadow[i])
      ensures FramesKept(live - {s})
      ensures forall i: nat :: i < shadow.Length && InFrame(log, s, 8 * i) ==> shadow[i] == 0xf5
    {
      hide Get8, FlagOf, PointerOf, FrameOf, Extent, FramesStart, Consistent, FrameSize;
      ValidFits();
      SlotBounds(log, s);
      FrameAligned(log, s);
      Fill(shadow, at / 8, FrameSize(c) / 8, 0xf5);
      assert forall i: nat :: at / 8 <= i < at / 8 + FrameSize(c) / 8 ==> InFrame(log, s, 8 * i);
      OthersFrames(s);
    }

    // A whole activation with everything it calls. Whatever it writes, in whatever
    // order, and whether or not it got a frame, the frames that were live before are
    // live again, no others are, and nothing behind the fake stack has changed.
    method RunActivation(call: Activation)
      requires Valid() && Proper(call)
      modifies mem, shadow, this`live
      ensures Valid() && live == old(live) && DataKept() && FramesKept(live)
      decreases call
    {
      hide Get8, FlagOf, PointerOf, FrameOf, Extent, FramesStart, Consistent, FrameSize;
      ValidFits();
      ghost var before := live;
      var r, s := StackMalloc(call.c, call.requested, call.rbp);
      label Taken:
      ghost var during := live;
      for i := 0 to |call.acts|
        invariant Valid() && DataKept() && live == during && FramesKept(before)
      {
        assert call.acts[i] in call.acts;
        match call.acts[i] {
          case Write(off, b) =>
            if r.Frame? {
              OwnerWrite(r.at, s, off, b);
            }
          case Poison(k, b) =>
            if r.Frame? {
              OwnerPoison(r.at, s, k, b);
            }
          case Nested(inner) =>
            RunActivation(inner);
        }
      }
      if r.Frame? {
        FreeFrame(r.at, s, call.c);
        assert live == before;
      }
    }

    function FlagClear(c: nat, pos: nat): (clear: bool)
      requires Valid() && c < CLASSES && pos < Slots(log, c)
      reads this, mem
      ensures clear <==> Slot(c, pos) !in live
    {
      var s := Slot(c, pos);
      FlagInArea(log, s);
      ExtentAboveHeader(log);
      assert mem[..][FlagOf(log, s)] == if s in live then 1 else 0;
      mem[FlagAt(log, c, pos)] == 0
    }
  }

  ghost predicate InFrame(log: nat, s: Slot, i: nat)
    requires 16 <= log && IsSlot(log, s)
  {
    FrameOf(log, s) <= i < FrameOf(log, s) + FrameSize(s.c)
  }

  lemma SlotBounds(log: nat, s: Slot)
    requires 16 <= log && IsSlot(log, s)
    ensures HEADER <= FlagOf(log, s) < FramesStart(log)
    ensures forall i: nat :: InFrame(log, s, i) ==> FramesStart(log) <= i < Extent(log)
  {
    var a, b := FlagOf(log, s), FrameOf(log, s);
  }

  // The frame holds the stack pointer of its owner, and in its last word the flag pointer.
  ghost predicate Claimed(m: seq<Byte>, log: nat, base: nat, s: Slot, rbp: Word)
    requires 16 <= log && IsSlot(log, s)
  {
    && FrameSize(s.c) >= 64 && FrameOf(log, s) + FrameSize(s.c) <= |m|
    && Get8(m, FrameOf(log, s) + 0x18) == rbp
    && Get8(m, FrameOf(log, s) + FrameSize(s.c) - 8) == base + FlagOf(log, s)
  }

  // From the hint on, position pos is the first that is free, and the next hint lies one
  // step behind it.
  ghost predicate FoundFirst(log: nat, c: nat, live: set<Slot>, start: Word, pos: nat, next: Word)
    requires 16 <= log && c < CLASSES
  {
    exists i: nat :: IsFirst(log, c, live, start, i, pos) && next == (start + i + 1) % W
  }

  ghost predicate IsFirst(log: nat, c: nat, live: set<Slot>, start: Word, i: nat, pos: nat)
    requires 16 <= log && c < CLASSES
  {
    && i < Slots(log, c) && pos == Probe(log, c, start, i) && Slot(c, pos) !in live
    && forall j: nat :: j < i ==> Slot(c, Probe(log, c, start, j)) in live
  }

  // The search goes up from the hint and round at the number of slots.
  lemma ProbeIs(log: nat, c: nat, start: Word, j: nat)
    requires 16 <= log && c < CLASSES
    ensures Probe(log, c, start, j) == (start + j) % 0x1_0000_0000_0000_0000 % Pow2(log - 6 - c)
  {
  }

  lemma FoundAfter(log: nat, c: nat, live: set<Slot>, start: Word, i: nat, pos: nat, next: Word)
    requires 16 <= log && c < CLASSES && i < Slots(log, c) && pos == Probe(log, c, start, i)
    requires Slot(c, pos) !in live && next == HintAfter(start, i + 1)
    requires forall j: nat :: j < i ==> Slot(c, Probe(log, c, start, j)) in live
    ensures FoundFirst(log, c, live, start, pos, next)
  {
    HintIs(start, i + 1);
    hide Probe, Slots, HintAfter;
    assert IsFirst(log, c, live, start, i, pos);
  }

  // Claiming a slot does not touch the hints.
  lemma HintElsewhere(m: seq<Byte>, n: seq<Byte>, log: nat, s: Slot)
    requires 16 <= log && IsSlot(log, s) && SameOutside(m, n, log, s) && |m| > FramesStart(log)
    ensures HintAt(s.c) + 8 <= |m| && Get8(n, HintAt(s.c)) == Get8(m, HintAt(s.c))
  {
    hide FlagOf, FrameOf, FramesStart;
    FitsHeader(log, s);
    SlotBounds(log, s);
    forall i: nat | HintAt(s.c) <= i < HintAt(s.c) + 8
      ensures n[i] == m[i]
    {
      assert Elsewhere(log, s, i);
    }
    GetSame8(m, n, HintAt(s.c));
  }

  // A retired frame whose flag has been cleared.
  lemma Retired(m: seq<Byte>, n: seq<Byte>, log: nat, s: Slot)
    requires 16 <= log && IsSlot(log, s) && FrameOf(log, s) + 8 <= |m| && FlagOf(log, s) < |m|
    requires n == Put(m, FrameOf(log, s), LE64(0x45e0360e))[FlagOf(log, s) := 0]
    ensures Get8(n, FrameOf(log, s)) == 0x45e0360e
    ensures forall i: nat :: i < |m| && InFrame(log, s, i) && FrameOf(log, s) + 8 <= i ==> n[i] == m[i]
  {
    hide FlagOf, FrameOf, FrameSize, LE64, FromLE64;
    SlotBounds(log, s);
    SizeOfFrame(s.c);
    var at := FrameOf(log, s);
    assert InFrame(log, s, at);
    assert n[at..at + 8] == LE64(0x45e0360e);
    FromLE64OfLE64(0x45e0360e);
  }

  lemma SizeOfFrame(c: nat)
    ensures FrameSize(c) >= 64
  {
    Pow2Monotone(6, 6 + c);
    assert Pow2(6) == 64;
  }

  lemma HeaderOutside(m: seq<Byte>, n: seq<Byte>, log: nat, s: Slot)
    requires 16 <= log && IsSlot(log, s) && HeaderIntact(m, log) && SameOutside(m, n, log, s)
    ensures HeaderIntact(n, log)
  {
    hide Get8, FlagOf, FrameOf;
    FitsHeader(log, s);
    SlotBounds(log, s);
    forall i | SIZE_LOG_AT <= i <= NEEDS_GC_AT
      ensures n[i] == m[i]
    {
      assert Elsewhere(log, s, i);
    }
    HeaderKept(m, n, log);
  }

  lemma EightDivides(k: nat)
    requires k >= 3
    ensures Pow2(k) % 8 == 0
  {
    Pow2Add(3, k - 3);
    assert Pow2(3) == 8;
    ModAddMultiple(0, 8, Pow2(k - 3));
  }

  lemma FrameAligned(log: nat, s: Slot)
    requires 16 <= log && IsSlot(log, s)
    ensures FrameOf(log, s) % 8 == 0 && FrameSize(s.c) % 8 == 0
  {
    hide Pow2;
    EightDivides(log - 5);
    EightDivides(log);
    EightDivides(6 + s.c);
    MultipleOfEight(Pow2(log), s.c);
    MultipleOfEight(FrameSize(s.c), s.pos);
    SumOfMultiples(Pow2(log - 5), s.c * Pow2(log), s.pos * FrameSize(s.c));
  }

  lemma SumOfMultiples(a: nat, b: nat, c: nat)
    requires a % 8 == 0 && b % 8 == 0 && c % 8 == 0
    ensures (HEADER + a + b + c) % 8 == 0
  {
  }

  lemma MultipleOfEight(n: nat, k: nat)
    requires n % 8 == 0
    ensures (k * n) % 8 == 0
  {
    var q := n / 8;
    assert k * n == 8 * (k * q) by { assert n == 8 * q; }
  }

  lemma HintIs(start: Word, n: nat)
    ensures HintAfter(start, n) == (start + n) % W
  {
  }

  lemma HintStep(start: Word, i: nat)
    ensures NextHint(HintAfter(start, i)) == HintAfter(start, i + 1)
    ensures HintAfter(start, 0) == start
  {
  }
}
