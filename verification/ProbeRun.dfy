/**
 Whole runs of the probe (src/rbx.cpp:227-253 and src/sdcprobe.cpp:655-748): passes on a
 machine that may disturb any of them, and the counts that come out.
 */
module ProbeRun {
  import opened Counting
  import opened Words
  import opened Memory
  import opened Fnv
  import opened FakeStack
  import opened Frames
  import opened ArenaImage
  import opened Payload
  import opened FaultCapture
  import opened Rewind

  const CHUNK_COUNT: nat := 64
  const NODE_COUNT: nat := 4096
  const CALLS_PER_PASS: nat := 262144
  const SIGNATURE_DELTA: Word := 0xa0

  function TheData(): seq<seq<Word16>> { Intended(CHUNK_COUNT, NODE_COUNT) }

  function TheHash(): Word { Hash(StateBytes(TheData())) }

  // 64 chunks of 4096 nodes, and a call of emit_i16 for each node.
  lemma TheDataShape()
    ensures |TheData()| == 64 && forall c :: 0 <= c < 64 ==> |TheData()[c]| == 4096
    ensures CALLS_PER_PASS == 64 * 4096
  {
  }

  // What the machine does during a pass: nothing wrong; an exception, raised with these
  // registers after the arena has become this; an undetected error, after which the pass
  // ends with this hash; or a refusal to set the thread pointer. words is what the stack
  // holds in the end, and regs what the registers do.
  datatype Fate =
    | Healthy(regs: Regs, words: StackBytes)
    | Faulting(cause: Cause, regs: Regs, words: StackBytes, mem: seq<Byte>, shadow: seq<Byte>)
    | Disturbed(hash: Word, regs: Regs, words: StackBytes, mem: seq<Byte>, shadow: seq<Byte>)
    | NoThreadPointer
  {
    ghost predicate Possible() {
      match this
      case Faulting(cause, _, _, m, sh) => !Harmless(cause) && |m| == ARENA_BYTES && 8 * |sh| == ARENA_BYTES
      case Disturbed(_, _, _, m, sh) => |m| == ARENA_BYTES && 8 * |sh| == ARENA_BYTES
      case _ => true
    }

    // Everything but an error that leaves the hash right.
    ghost predicate Detectable() {
      this.Disturbed? ==> hash != TheHash()
    }

    // An error that leaves the hash right at least leaves an arena a pass can work on.
    ghost predicate Survivable() {
      Detectable() || exists data :: Holds(mem, shadow, data)
    }
  }

  // The words below the caller's stack pointer still hold what the call and the frame of
  // sdc_rbx_call put there.
  ghost predicate FrameKept(regs: Regs, flag: Word, back: Word, words: StackBytes) {
    Load(words, regs.rsp - 8) == back && SavedFrame(words, regs.rsp - 64, regs.(rsi := flag))
  }

  lemma SameFrame(r: Regs, s: Regs, flag: Word, back: Word, fate: Fate)
    requires SameSaved(r, s) && r.rsp == s.rsp
    requires fate.NoThreadPointer? || FrameKept(r, flag, back, fate.words)
    ensures fate.NoThreadPointer? || FrameKept(s, flag, back, fate.words)
  {
    hide Load;
  }

  datatype RbxPass = RbxPass(hash: Word, expected: Word, faulted: bool, mismatch: bool, regs: Recorded)

  // An arena in which a pass can start, with these chunks in it.
  ghost predicate Holds(m: seq<Byte>, sh: seq<Byte>, data: seq<seq<Word16>>) {
    && |m| == ARENA_BYTES && 8 * |sh| == ARENA_BYTES
    && Consistent(m, STACK_SIZE_LOG, ARENA_BASE, {}) && HeaderIntact(m, STACK_SIZE_LOG)
    && DataVisible(sh)
    && Represents(m, ARENA_BASE, VECTOR_AT, data)
  }

  // One with the chunks that build_arena puts there.
  ghost predicate ReadyImage(m: seq<Byte>, sh: seq<Byte>) {
    Holds(m, sh, TheData())
  }

  // The chunks an arena holds.
  ghost function DataIn(m: seq<Byte>, sh: seq<Byte>): seq<seq<Word16>> {
    if data :| Holds(m, sh, data) then data else []
  }

  lemma HoldsOne(m: seq<Byte>, sh: seq<Byte>, data: seq<seq<Word16>>)
    requires Holds(m, sh, data)
    ensures DataIn(m, sh) == data
  {
    hide Represents, Consistent, HeaderIntact, DataVisible;
    RepresentsOne(m, ARENA_BASE, VECTOR_AT, DataIn(m, sh), data);
  }

  // Chunks whose hash is wrong.
  ghost predicate Spoilt(data: seq<seq<Word16>>) {
    Hash(StateBytes(data)) != TheHash()
  }

  // What the arena holds after a pass that found these chunks in it.
  ghost function Left(data: seq<seq<Word16>>, fate: Fate): seq<seq<Word16>> {
    match fate
    case Healthy(_, _) => if Spoilt(data) then TheData() else data
    case Faulting(_, _, _, _, _) => TheData()
    case Disturbed(h, _, _, m, sh) => if h == TheHash() then DataIn(m, sh) else TheData()
    case NoThreadPointer => data
  }

  // And after a run.
  ghost function Held(fates: seq<Fate>): seq<seq<Word16>> {
    if fates == [] then TheData() else Left(Held(fates[..|fates| - 1]), fates[|fates| - 1])
  }

  // As long as no undetected error leaves anything else, these are the intended chunks.
  lemma {:induction false} HeldIsTheData(fates: seq<Fate>)
    requires forall fate :: fate in fates ==> fate.Detectable() || ReadyImage(fate.mem, fate.shadow)
    ensures Held(fates) == TheData()
  {
    hide TheData, Holds, DataIn, Hash, StateBytes;
    if fates != [] {
      var last := |fates| - 1;
      var fate := fates[last];
      HeldIsTheData(fates[..last]);
      assert fate in fates;
      if !fate.Detectable() { HoldsOne(fate.mem, fate.shadow, TheData()); }
    }
  }

  // The counters of a run.
  datatype Counts = Counts(passes: nat, detections: nat, signature: nat, otherFault: nat, mismatch: nat)

  // A fault inside emit_i16 with the frame base 0xa0 above the stack pointer.
  predicate IsSignature(regs: Recorded, begin: Word, end: Word) {
    begin <= regs.rip < end && (regs.rbx - regs.rsp) % W == SIGNATURE_DELTA
  }

  // The signature says that rbx holds what rsp was before the prologue made room for the
  // frame, and nothing else.
  lemma SignatureIff(regs: Recorded, begin: Word, end: Word, before: Word)
    requires begin <= regs.rip < end && regs.rsp == (before - SIGNATURE_DELTA) % W
    ensures IsSignature(regs, begin, end) <==> regs.rbx == before
  {
    var k := (before - SIGNATURE_DELTA) / W;
    assert regs.rsp == before - SIGNATURE_DELTA - W * k;
    if IsSignature(regs, begin, end) {
      var j := (regs.rbx - regs.rsp) / W;
      assert regs.rbx - regs.rsp == W * j + SIGNATURE_DELTA;
    }
  }

  // Where a pass is filed that found these chunks in the arena.
  ghost function Filed(c: Counts, data: seq<seq<Word16>>, fate: Fate, begin: Word, end: Word): Counts {
    var d := c.(passes := c.passes + 1);
    match fate
    case Healthy(_, _) =>
      if Spoilt(data) then d.(detections := d.detections + 1, mismatch := d.mismatch + 1) else d
    case Faulting(_, regs, _, _, _) =>
      if IsSignature(regs.Seen(), begin, end) then d.(detections := d.detections + 1, signature := d.signature + 1)
      else d.(detections := d.detections + 1, otherFault := d.otherFault + 1)
    case Disturbed(h, _, _, _, _) =>
      if h == TheHash() then d else d.(detections := d.detections + 1, mismatch := d.mismatch + 1)
    case NoThreadPointer => d.(detections := d.detections + 1, mismatch := d.mismatch + 1)
  }

  ghost function Tally(fates: seq<Fate>, begin: Word, end: Word): Counts {
    if fates == [] then Counts(0, 0, 0, 0, 0)
    else
      var before := fates[..|fates| - 1];
      Filed(Tally(before, begin, end), Held(before), fates[|fates| - 1], begin, end)
  }

  // A pass that ended in the fault the probe looks for, and one that ended in another.
  ghost predicate ProbedFault(fate: Fate, begin: Word, end: Word) {
    fate.Faulting? && IsSignature(fate.regs.Seen(), begin, end)
  }

  ghost predicate OtherFault(fate: Fate, begin: Word, end: Word) {
    fate.Faulting? && !IsSignature(fate.regs.Seen(), begin, end)
  }

  // The passes of a run that ended so, and those that ended without a fault, but with no
  // hash or a wrong one.
  ghost function Signatures(fates: seq<Fate>, begin: Word, end: Word): (s: set<nat>)
    ensures forall i: nat :: i in s <==> i < |fates| && ProbedFault(fates[i], begin, end)
  {
    set i: nat | i < |fates| && ProbedFault(fates[i], begin, end)
  }

  ghost function OtherFaults(fates: seq<Fate>, begin: Word, end: Word): (s: set<nat>)
    ensures forall i: nat :: i in s <==> i < |fates| && OtherFault(fates[i], begin, end)
  {
    set i: nat | i < |fates| && OtherFault(fates[i], begin, end)
  }

  ghost function Mismatches(fates: seq<Fate>): (s: set<nat>)
    ensures forall i: nat :: i in s <==> i < |fates| && Mismatched(fates, i)
  {
    set i: nat | i < |fates| && Mismatched(fates, i)
  }

  ghost predicate Mismatched(fates: seq<Fate>, i: nat)
    requires i < |fates|
  {
    match fates[i]
    case NoThreadPointer => true
    case Disturbed(hash, _, _, _, _) => hash != TheHash()
    case Healthy(_, _) => Hash(StateBytes(Held(fates[..i]))) != TheHash()
    case Faulting(_, _, _, _, _) => false
  }

  // In terms of what the passes did.
  lemma CountedPasses(fates: seq<Fate>, begin: Word, end: Word)
    ensures Signatures(fates, begin, end) ==
            set i: nat | i < |fates| && fates[i].Faulting? && begin <= fates[i].regs.rip < end
                         && (fates[i].regs.rbx - fates[i].regs.rsp) % W == 0xa0
    ensures OtherFaults(fates, begin, end) ==
            (set i: nat | i < |fates| && fates[i].Faulting?) - Signatures(fates, begin, end)
    ensures |Signatures(fates, begin, end)| + |OtherFaults(fates, begin, end)|
         == |set i: nat | i < |fates| && fates[i].Faulting?|
  {
    assert Signatures(fates, begin, end) + OtherFaults(fates, begin, end)
        == set i: nat | i < |fates| && fates[i].Faulting?;
  }

  // The counters of a run count these.
  ghost predicate AreCounts(fates: seq<Fate>, begin: Word, end: Word, c: Counts) {
    && c.passes == |fates|
    && c.signature == |Signatures(fates, begin, end)|
    && c.otherFault == |OtherFaults(fates, begin, end)|
    && c.mismatch == |Mismatches(fates)|
    && c.detections == c.signature + c.otherFault + c.mismatch
  }

  lemma {:induction false} TallyCounts(fates: seq<Fate>, begin: Word, end: Word)
    ensures AreCounts(fates, begin, end, Tally(fates, begin, end))
  {
    hide TheHash, Held, IsSignature;
    if fates == [] {
      NothingCounted(fates, begin, end);
    } else {
      var last := |fates| - 1;
      var before := fates[..last];
      TallyCounts(before, begin, end);
      FaultsGrow(fates, begin, end);
      MismatchesGrow(fates);
    }
  }

  lemma NothingCounted(fates: seq<Fate>, begin: Word, end: Word)
    requires fates == []
    ensures |Signatures(fates, begin, end)| == |OtherFaults(fates, begin, end)| == |Mismatches(fates)| == 0
  {
    hide Signatures, OtherFaults, Mismatches;
    assert Signatures(fates, begin, end) == {} && OtherFaults(fates, begin, end) == {} && Mismatches(fates) == {};
  }

  lemma FaultsGrow(fates: seq<Fate>, begin: Word, end: Word)
    requires fates != []
    ensures var last := |fates| - 1;
            && |Signatures(fates, begin, end)| == |Signatures(fates[..last], begin, end)|
               + (if ProbedFault(fates[last], begin, end) then 1 else 0)
            && |OtherFaults(fates, begin, end)| == |OtherFaults(fates[..last], begin, end)|
               + (if OtherFault(fates[last], begin, end) then 1 else 0)
  {
    hide Signatures, OtherFaults, ProbedFault, OtherFault;
    var last := |fates| - 1;
    var before := fates[..last];
    OneMore(Signatures(before, begin, end), Signatures(fates, begin, end), last);
    OneMore(OtherFaults(before, begin, end), OtherFaults(fates, begin, end), last);
  }

  lemma MismatchesGrow(fates: seq<Fate>)
    requires fates != []
    ensures var last := |fates| - 1;
            |Mismatches(fates)| == |Mismatches(fates[..last])| + (if Mismatched(fates, last) then 1 else 0)
  {
    hide Mismatches, Mismatched;
    var last := |fates| - 1;
    var before := fates[..last];
    forall i: nat | i < last
      ensures Mismatched(before, i) == Mismatched(fates, i)
    {
      MismatchedStays(fates, last, i);
    }
    OneMore(Mismatches(before), Mismatches(fates), last);
  }

  lemma MismatchedStays(fates: seq<Fate>, n: nat, i: nat)
    requires i < n <= |fates|
    ensures Mismatched(fates[..n], i) == Mismatched(fates, i)
  {
    assert fates[..n][..i] == fates[..i];
  }

  ghost function Unhealthy(fates: seq<Fate>): nat {
    if fates == [] then 0
    else Unhealthy(fates[..|fates| - 1]) + (if fates[|fates| - 1].Healthy? then 0 else 1)
  }

  // Every detection is filed once. No error is detected twice, and one that is still to
  // show has not been: a healthy pass over chunks an undetected error spoilt makes up for
  // it. When no error escapes detection, the detections are exactly the passes that were
  // not healthy.
  lemma {:induction false} CountsBalance(fates: seq<Fate>, begin: Word, end: Word)
    ensures var c := Tally(fates, begin, end);
            && c.passes == |fates|
            && c.detections == c.signature + c.otherFault + c.mismatch
            && c.detections + (if Spoilt(Held(fates)) then 1 else 0) <= Unhealthy(fates) <= |fates|
    ensures (forall fate :: fate in fates ==> fate.Detectable()) ==>
              Tally(fates, begin, end).detections == Unhealthy(fates)
  {
    hide TheData, Holds, Hash, StateBytes, IsSignature, DataIn;
    if fates != [] {
      CountsBalance(fates[..|fates| - 1], begin, end);
      assert fates[|fates| - 1] in fates;
      if forall fate :: fate in fates ==> fate.Detectable() {
        HeldIsTheData(fates[..|fates| - 1]);
      }
    }
  }

  lemma BuiltIsReady(a: Arena)
    requires ProbeArena(a) && a.Valid() && a.live == {}
    requires Represents(a.mem[..], a.base, VECTOR_AT, TheData())
    requires forall i :: 0 <= i < a.shadow.Length ==> a.shadow[i] == 0
    ensures ReadyImage(a.mem[..], a.shadow[..])
  {
    hide Represents, Intended, HeaderIntact, Get8, Consistent, Extent;
  }

  // A healthy pass leaves in the arena what it found there.
  lemma StaysReady(m: seq<Byte>, sh: seq<Byte>, data: seq<seq<Word16>>, a: Arena)
    requires Holds(m, sh, data) && ProbeArena(a) && a.Valid() && a.live == {}
    requires forall i :: Extent(STACK_SIZE_LOG) <= i < |m| ==> a.mem[i] == m[i]
    requires forall i :: 0 <= i < |sh| && !(FramesStart(STACK_SIZE_LOG) <= 8 * i < Extent(STACK_SIZE_LOG)) ==>
               a.shadow[i] == sh[i]
    ensures Holds(a.mem[..], a.shadow[..], data)
  {
    hide Represents, Intended, HeaderIntact, Get8, Consistent, DataVisible, Extent, FramesStart;
    DataStays(m, sh, a.mem[..], a.shadow[..]);
    ChunksStay(m, a.mem[..], ARENA_BASE, VECTOR_AT, data);
  }

  class Probe {
    const arena: Arena
    const capture: Capture
    const landing: Word
    const cpu: Machine
    // the address of the local variable faulted, and where the call of a pass returns
    const flag: Word
    const back: Word
    var expected: Word

    ghost predicate Ready()
      reads this, arena, arena.mem, arena.shadow, capture, cpu
    {
      ReadyWith(TheData())
    }

    // Ready but for the chunks, which may be others.
    ghost predicate ReadyWith(data: seq<seq<Word16>>)
      reads this, arena, arena.mem, arena.shadow, capture, cpu
    {
      ArenaReady(data) && expected == TheHash() && capture.record == null && StackReady()
    }

    // There is room below the stack pointer, and faulted lies above it.
    predicate StackReady()
      reads this, cpu
    {
      64 <= cpu.regs.rsp && cpu.regs.rsp + 8 < W && cpu.regs.rsp <= flag
    }

    ghost predicate ArenaReady(data: seq<seq<Word16>>)
      reads this, arena, arena.mem, arena.shadow
    {
      ProbeArena(arena) && arena.live == {} && Holds(arena.mem[..], arena.shadow[..], data)
    }

    // sdc_rbx_prepare, after the mappings exist.
    constructor (arena: Arena, capture: Capture, landing: Word, cpu: Machine, flag: Word, back: Word)
      requires ProbeArena(arena) && capture.record == null
      requires 64 <= cpu.regs.rsp && cpu.regs.rsp + 8 < W && cpu.regs.rsp <= flag
      modifies arena.mem, arena.shadow, arena`live
      ensures Ready() && this.arena == arena && this.capture == capture && this.cpu == cpu
      ensures this.flag == flag && this.back == back
    {
      this.arena, this.capture, this.landing := arena, capture, landing;
      this.cpu, this.flag, this.back := cpu, flag, back;
      new;
      hide Represents, Intended, Hash, StateBytes, Arena.Valid, Holds;
      ActualCountsFit();
      expected := BuildArena(arena, CHUNK_COUNT, NODE_COUNT);
      BuiltIsReady(arena);
    }

    lemma ReadyIsValid(data: seq<seq<Word16>>)
      requires ArenaReady(data)
      ensures arena.Valid() && DataVisible(arena.shadow[..])
      ensures Represents(arena.mem[..], arena.base, VECTOR_AT, data)
    {
      hide Represents, Intended, Hash, StateBytes, HeaderIntact, Get8, Consistent;
      ProbeArenaFits();
    }

    // build_arena
    method Rebuild()
      requires ProbeArena(arena) && expected == TheHash() && capture.record == null && StackReady()
      modifies this`expected, arena.mem, arena.shadow, arena`live
      ensures Ready()
    {
      hide Represents, Intended, Hash, StateBytes, Arena.Valid, Holds;
      ActualCountsFit();
      var hash := BuildArena(arena, CHUNK_COUNT, NODE_COUNT);
      BuiltIsReady(arena);
    }

    // A pass that goes wrong leaves anything at all in the arena.
    method Havoc(mem: seq<Byte>, shadow: seq<Byte>)
      requires ProbeArena(arena) && |mem| == ARENA_BYTES && 8 * |shadow| == ARENA_BYTES
      modifies arena.mem, arena.shadow, arena`live
      ensures arena.mem[..] == mem && arena.shadow[..] == shadow && arena.live == {}
    {
      forall i | 0 <= i < arena.mem.Length {
        arena.mem[i] := mem[i];
      }
      forall i | 0 <= i < arena.shadow.Length {
        arena.shadow[i] := shadow[i];
      }
      arena.live := {};
    }

    // What runs between the prologue and the epilogue of sdc_rbx_call while the capture is
    // armed: the payload to its end, or up to an exception whose handler redirects it to
    // the landing point.
    method Execute(fate: Fate, sites: Sites, ghost data: seq<seq<Word16>>) returns (left: Rewind.Payload)
      requires ArenaReady(data) && fate.Possible() && !fate.NoThreadPointer? && cpu.regs.rsp >= 56
      requires capture.record != null
      modifies arena.mem, arena.shadow, arena`live, capture`record, capture.record
      ensures left.mem == fate.words
      ensures left.Redirected? <==> fate.Faulting?
      ensures left.Redirected? ==> left.regs == fate.regs.(rip := capture.resume)
      ensures left.Returned? ==> left.regs.rsp == cpu.regs.rsp - 56
      ensures fate.Healthy? ==> left.regs.rax == Hash(StateBytes(data)) && ArenaReady(data)
      ensures fate.Disturbed? ==> left.regs.rax == fate.hash
      ensures !fate.Healthy? ==> arena.mem[..] == fate.mem && arena.shadow[..] == fate.shadow && arena.live == {}
      ensures fate.Faulting? ==> old(capture.record).regs == fate.regs.Seen()
    {
      hide Represents, Hash, StateBytes, HeaderIntact, Get8, Consistent, DataVisible, Holds;
      match fate {
        case Healthy(regs, words) =>
          ghost var m, sh := arena.mem[..], arena.shadow[..];
          ReadyIsValid(data);
          var trap, hash := HashPass(arena, VECTOR_AT, sites, data);
          StaysReady(m, sh, data, arena);
          assert !trap;
          left := Returned(regs.(rax := hash, rsp := cpu.regs.rsp - 56), words);
        case Disturbed(hash, regs, words, m, sh) =>
          Havoc(m, sh);
          left := Returned(regs.(rax := hash, rsp := cpu.regs.rsp - 56), words);
        case Faulting(cause, regs, words, m, sh) =>
          Havoc(m, sh);
          var context := new Context(regs);
          var taken := capture.Handle(cause, context);
          assert taken;
          left := Redirected(context.regs, words);
      }
    }

    // The call of a pass. However the payload ends, a caller whose saved words it has left
    // alone gets its own registers and stack pointer back, continues behind the call, and
    // finds in its flag whether there was an exception.
    method CallPayload(fate: Fate, sites: Sites, ghost data: seq<seq<Word16>>) returns (hash: Word, faulted: bool)
      requires ArenaReady(data) && fate.Possible() && !fate.NoThreadPointer? && StackReady()
      requires capture.record != null
      modifies arena.mem, arena.shadow, arena`live, capture`record, capture.record, cpu
      ensures cpu.regs.rsp == old(cpu.regs.rsp)
      ensures FrameKept(old(cpu.regs), flag, back, fate.words) ==>
                SameSaved(cpu.regs, old(cpu.regs)) && cpu.regs.rip == back && (faulted <==> fate.Faulting?)
      ensures fate.Healthy? ==> hash == Hash(StateBytes(data)) && ArenaReady(data)
      ensures fate.Disturbed? ==> hash == fate.hash
      ensures !fate.Healthy? ==> arena.mem[..] == fate.mem && arena.shadow[..] == fate.shadow && arena.live == {}
      ensures fate.Faulting? ==> old(capture.record).regs == fate.regs.Seen()
    {
      hide Holds, Hash, StateBytes, Load;
      ghost var regs := cpu.regs;
      cpu.regs := cpu.regs.(rdi := VECTOR_AT, rsi := flag);
      cpu.PushKept(back);
      var left := Execute(fate, sites, data);
      if FrameKept(regs, flag, back, fate.words) {
        assert SavedFrame(left.mem, cpu.regs.rsp - 56, regs.(rsi := flag));
        cpu.KeptIsIntact(left);
      }
      cpu.Call(left);
      hash := cpu.regs.rax;
      faulted := Load(cpu.mem, flag) != 0;
    }

    // One pass, whatever chunks the arena holds. It is faulted exactly after an exception,
    // and mismatched exactly when the hash is wrong, be it over spoilt chunks, or the
    // thread pointer was refused. After these the arena is rebuilt, so the next pass finds
    // spoilt chunks only behind an undetected error, and no other after that.
    method RunPass(fate: Fate, sites: Sites, ghost data: seq<seq<Word16>>) returns (pass: RbxPass)
      requires ReadyWith(data) && fate.Possible()
      requires fate.NoThreadPointer? || FrameKept(cpu.regs, flag, back, fate.words)
      modifies this, arena.mem, arena.shadow, arena`live, capture, cpu
      ensures SameSaved(cpu.regs, old(cpu.regs)) && cpu.regs.rsp == old(cpu.regs.rsp)
      ensures pass.expected == TheHash()
      ensures pass.faulted <==> fate.Faulting?
      ensures pass.mismatch <==> fate.NoThreadPointer? || (fate.Disturbed? && fate.hash != TheHash())
                                 || (fate.Healthy? && Spoilt(data))
      ensures fate.Healthy? ==> pass.hash == Hash(StateBytes(data))
      ensures fate.Faulting? ==> pass.regs == fate.regs.Seen()
      ensures if fate.Detectable() then ReadyWith(Left(data, fate))
              else forall d :: ReadyWith(d) <==> Holds(fate.mem, fate.shadow, d)
    {
      hide Represents, Hash, StateBytes, HeaderIntact, Get8, Consistent, DataVisible, Arena.Valid, Holds, DataIn,
           FrameKept;
      ReadyIsValid(data);
      var record := new FaultRecord();
      pass := RbxPass(0, expected, false, false, record.regs);
      if fate.NoThreadPointer? {
        pass := pass.(mismatch := true);
        return;
      }
      capture.Arm(record, landing);
      var hash, faulted := CallPayload(fate, sites, data);
      capture.Disarm();
      pass := pass.(hash := hash, regs := record.regs);
      if faulted {
        pass := pass.(faulted := true);
        Rebuild();
      } else if pass.hash != pass.expected {
        pass := pass.(mismatch := true);
        Rebuild();
      }
    }

    // The passes of one core, as many as fit before the deadline or an interrupt. An error
    // no pass notices may leave other chunks behind, for the passes after it to hash.
    method Run(fates: seq<Fate>, sites: Sites, emitI16: Word, emitI16End: Word)
      returns (counts: Counts, calls: nat)
      requires Ready()
      requires forall fate :: fate in fates ==> fate.Possible() && fate.Survivable()
      requires forall fate :: fate in fates ==> fate.NoThreadPointer? || FrameKept(cpu.regs, flag, back, fate.words)
      modifies this, arena.mem, arena.shadow, arena`live, capture, cpu
      ensures ReadyWith(Held(fates))
      ensures SameSaved(cpu.regs, old(cpu.regs)) && cpu.regs.rsp == old(cpu.regs.rsp)
      ensures counts == Tally(fates, emitI16, emitI16End)
      ensures AreCounts(fates, emitI16, emitI16End, counts)
      ensures counts.signature ==
              |set i: nat | i < |fates| && fates[i].Faulting? && emitI16 <= fates[i].regs.rip < emitI16End
                            && (fates[i].regs.rbx - fates[i].regs.rsp) % W == 0xa0|
      ensures counts.signature + counts.otherFault == |set i: nat | i < |fates| && fates[i].Faulting?|
      ensures calls == |fates| * 262144
    {
      hide Represents, Hash, StateBytes, HeaderIntact, Get8, Consistent, DataVisible, Holds, Intended, DataIn,
           FrameKept, Arena.Valid;
      counts := Counts(0, 0, 0, 0, 0);
      for i := 0 to |fates|
        invariant ReadyWith(Held(fates[..i]))
        invariant SameSaved(cpu.regs, old(cpu.regs)) && cpu.regs.rsp == old(cpu.regs.rsp)
        invariant counts == Tally(fates[..i], emitI16, emitI16End)
      {
        assert fates[i] in fates;
        SameFrame(old(cpu.regs), cpu.regs, flag, back, fates[i]);
        var pass := RunPass(fates[i], sites, Held(fates[..i]));
        if !fates[i].Detectable() {
          var data :| Holds(fates[i].mem, fates[i].shadow, data);
          HoldsOne(fates[i].mem, fates[i].shadow, data);
        }
        if pass.faulted || pass.mismatch {
          counts := counts.(detections := counts.detections + 1);
          var signature := pass.faulted && IsSignature(pass.regs, emitI16, emitI16End);
          if signature {
            counts := counts.(signature := counts.signature + 1);
          } else if pass.faulted {
            counts := counts.(otherFault := counts.otherFault + 1);
          } else {
            counts := counts.(mismatch := counts.mismatch + 1);
          }
        }
        counts := counts.(passes := counts.passes + 1);
        assert fates[..i + 1][..i] == fates[..i];
      }
      assert fates[..|fates|] == fates;
      CountsBalance(fates, emitI16, emitI16End);
      TallyCounts(fates, emitI16, emitI16End);
      CountedPasses(fates, emitI16, emitI16End);
      hide AreCounts, Signatures, OtherFaults;
      calls := counts.passes * CALLS_PER_PASS;
    }
  }
}
