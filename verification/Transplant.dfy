/**
 The generator as a whole (tools/gen_rbx_payload.py:191-376): closure, layout, trap
 stubs, and the emission of every instruction of every chosen function at its new
 address.
 */
module Transplant {
  import opened Wrappers
  import opened Words
  import opened Binary
  import opened Closure
  import opened Layout
  import opened Relocation

  datatype Failure =
    | ClosureFailed(why: Closure.Failure)
    | UnresolvedBranch(target: int, addr: int)
    | UnknownData(target: int)
    | NoRel32(addr: int)
    | UnexpectedAfterTls(addr: int)
    | NoTlsRead

  const TLS_SLOT_DISP: seq<Byte> := [0xb8, 0xff, 0xff, 0xff]

  // What is decided before anything is emitted. base and stub give the new addresses of
  // the chosen functions and of the trap stubs; data gives those of the runtime data the
  // copied code may refer to, and None for data with no known value.
  datatype Plan = Plan(
    p: Program,
    entry: Symbol,
    chosen: map<int, Symbol>,
    body: map<int, seq<Line>>,
    traps: set<int>,
    base: map<int, int>,
    stub: map<int, int>,
    data: int -> Option<int>)
  {
    ghost predicate Valid() {
      && p.Valid()
      && Sound(p, entry, chosen, body)
      && (forall a :: a in chosen <==> Reachable(p, entry, a))
      && TrapsExact(p, chosen, traps)
      && base.Keys == chosen.Keys
      && stub.Keys == traps
      && Disjoint()
    }

    // The copies lie apart from each other and from the stubs, which are all distinct.
    ghost predicate Disjoint()
      requires base.Keys == chosen.Keys
    {
      && (forall a, b :: a in chosen && b in chosen && a != b ==>
            base[a] + chosen[a].size <= base[b] || base[b] + chosen[b].size <= base[a])
      && (forall a, t :: a in chosen && t in stub ==> stub[t] < base[a])
      && (forall t, u :: t in stub && u in stub && t != u ==> stub[t] != stub[u])
    }

    // The symbol for a code address outside the current function.
    function CodeRef(target: int): Option<int> {
      if target in base then Some(base[target])
      else if target in stub then Some(stub[target])
      else
        match FunctionAt(p.functions, target)
        case None => None
        case Some(f) => if f.addr in base then Some(base[f.addr] + (target - f.addr)) else None
    }

    // Where the instruction at addr of the function at a is emitted.
    function NewAddress(a: int, addr: int): int
      requires a in base
    {
      base[a] + (addr - a)
    }
  }

  function FunctionAt(functions: seq<Symbol>, addr: int): (r: Option<Symbol>)
    ensures r.Some? ==> r.value in functions && Inside(r.value, addr)
    ensures r.None? ==> forall f :: f in functions ==> !Inside(f, addr)
  {
    if functions == [] then None
    else if Inside(functions[0], addr) then Some(functions[0])
    else FunctionAt(functions[1..], addr)
  }

  /* ---------------- one instruction ---------------- */

  function Resolve(plan: Plan, insn: Insn, target: int): Option<int> {
    var code := plan.CodeRef(target);
    if code.Some? || insn.Direct() then code else plan.data(target)
  }

  // The instruction as it is emitted for function f.
  function MovedLine(plan: Plan, f: Symbol, line: Line): (r: Result<Insn, Failure>)
    requires line.insn.WellFormed() && f.addr in plan.base
    ensures r.Err? ==> r.error.UnresolvedBranch? || r.error.UnknownData? || r.error.NoRel32?
  {
    var insn, at := line.insn, plan.NewAddress(f.addr, line.addr);
    if insn.raw == TLS_READ_FS then Ok(insn.(raw := TLS_READ_GS))
    else if !insn.Relative() then Ok(insn)
    else
      var target := insn.Target(line.addr);
      if Inside(f, target) then Ok(insn)
      else
        match Resolve(plan, insn, target)
        case None => Err(if insn.Direct() then UnresolvedBranch(target, line.addr) else UnknownData(target))
        case Some(symbol) =>
          match Rel32(insn.raw, line.addr, target, at, symbol)
          case None => Err(NoRel32(line.addr))
          case Some(bytes) => Ok(insn.(raw := bytes))
  }

  // The first count lines of f are in the image.
  ghost predicate LinesEmitted(plan: Plan, f: Symbol, lines: seq<Line>, count: nat, image: map<int, Insn>)
    requires ValidLines(lines) && f.addr in plan.base
  {
    forall i: nat :: i < count && i < |lines| ==>
      var at := plan.NewAddress(f.addr, lines[i].addr);
      at in image && MovedLine(plan, f, lines[i]) == Ok(image[at])
  }

  // Where the original reads the thread pointer at fs:0, the copy reads gs:0x28 in the same
  // way, and the instruction behind it takes the slot at -0x48. No other instruction that
  // is copied as it is reads fs:0.
  ghost predicate ReadMoved(line: Line, moved: Insn) {
    var raw := line.insn.raw;
    && (raw == [0x66, 0x66, 0x66, 0x64, 0x48, 0x8b, 0x04, 0x25, 0x00, 0x00, 0x00, 0x00] ==>
          && |moved.raw| == 12 && moved.raw[..3] == raw[..3] && moved.raw[4..8] == raw[4..8]
          && moved.raw[3] == 0x65 && FromLE32(moved.raw[8..]) == 0x28
          && moved.op == line.insn.op && moved.disp == line.insn.disp)
    && (moved.raw == [0x66, 0x66, 0x66, 0x64, 0x48, 0x8b, 0x04, 0x25, 0x00, 0x00, 0x00, 0x00] ==> line.insn.Relative())
  }

  ghost predicate TakesSlot(line: Line, next: Line) {
    line.insn.raw == [0x66, 0x66, 0x66, 0x64, 0x48, 0x8b, 0x04, 0x25, 0x00, 0x00, 0x00, 0x00]
    && next.insn.raw != line.insn.raw ==>
      var n := |next.insn.raw|; n >= 4 && Signed(FromLE32(next.insn.raw[n - 4..]), 0x1_0000_0000) == -0x48
  }

  ghost predicate ThreadPointerMoved(plan: Plan, f: Symbol, lines: seq<Line>, image: map<int, Insn>)
    requires f.addr in plan.base
  {
    && (forall i: nat :: i < |lines| ==>
          var at := plan.NewAddress(f.addr, lines[i].addr); at in image && ReadMoved(lines[i], image[at]))
    && (forall i: nat :: i + 1 < |lines| ==> TakesSlot(lines[i], lines[i + 1]))
  }

  lemma MovedRead(plan: Plan, f: Symbol, line: Line, moved: Insn)
    requires line.insn.WellFormed() && f.addr in plan.base && MovedLine(plan, f, line) == Ok(moved)
    ensures ReadMoved(line, moved)
  {
    hide Rel32, Resolve, Insn.Target;
  }

  lemma SlotTaken(plan: Plan, f: Symbol, lines: seq<Line>, i: nat)
    requires ValidLines(lines) && f.addr in plan.base && i + 1 < |lines| && LineMovable(plan, f, lines, i + 1)
    ensures TakesSlot(lines[i], lines[i + 1])
  {
    hide MovedLine;
  }

  lemma ReadsAreMoved(plan: Plan, f: Symbol, lines: seq<Line>, image: map<int, Insn>)
    requires ValidLines(lines) && f.addr in plan.base
    requires LinesEmitted(plan, f, lines, |lines|, image) && Movable(plan, f, lines, |lines|)
    ensures ThreadPointerMoved(plan, f, lines, image)
  {
    hide MovedLine, ReadMoved, LineMovable, TakesSlot;
    forall i: nat | i < |lines|
      ensures var at := plan.NewAddress(f.addr, lines[i].addr); at in image && ReadMoved(lines[i], image[at])
    {
      MovedRead(plan, f, lines[i], image[plan.NewAddress(f.addr, lines[i].addr)]);
    }
    forall i: nat | i + 1 < |lines|
      ensures TakesSlot(lines[i], lines[i + 1])
    {
      SlotTaken(plan, f, lines, i);
    }
  }

  // Addresses increase along a body and stay inside the function.
  ghost predicate Ascending(f: Symbol, lines: seq<Line>) {
    && (forall i :: 0 <= i < |lines| ==> Inside(f, lines[i].addr))
    && (forall i, j :: 0 <= i < j < |lines| ==> lines[i].addr < lines[j].addr)
  }

  lemma {:induction false} BodyAscends(p: Program, f: Symbol, addr: int)
    requires p.Valid() && f.addr <= addr
    requires BodyFrom(p, addr, f.addr + f.size).Some?
    ensures var lines := BodyFrom(p, addr, f.addr + f.size).value;
            && Ascending(f, lines)
            && (forall i :: 0 <= i < |lines| ==> addr <= lines[i].addr)
            && (addr < f.addr + f.size ==> |lines| > 0 && lines[0].addr == addr)
            && (forall i :: 0 <= i < |lines| ==>
                  lines[i].addr in p.insns && lines[i].insn == p.insns[lines[i].addr])
            && (forall i :: 0 <= i < |lines| - 1 ==>
                  lines[i + 1].addr == lines[i].addr + |lines[i].insn.raw|)
    decreases f.addr + f.size - addr
  {
    if addr < f.addr + f.size {
      BodyAscends(p, f, addr + |p.insns[addr].raw|);
    }
  }

  /* ---------------- what can be emitted ---------------- */

  predicate LoadsSlot(insn: Insn) {
    |insn.raw| >= 4 && insn.raw[|insn.raw| - 4..] == TLS_SLOT_DISP
  }

  // Every one of the first count lines can be moved, and every thread pointer read is
  // followed by the load of the slot.
  ghost predicate Movable(plan: Plan, f: Symbol, lines: seq<Line>, count: nat)
    requires ValidLines(lines) && f.addr in plan.base
  {
    forall i: nat :: i < count && i < |lines| ==> LineMovable(plan, f, lines, i)
  }

  predicate LineMovable(plan: Plan, f: Symbol, lines: seq<Line>, i: nat)
    requires ValidLines(lines) && f.addr in plan.base && i < |lines|
  {
    && (lines[i].insn.raw != TLS_READ_FS && AfterRead(lines, i) ==> LoadsSlot(lines[i].insn))
    && MovedLine(plan, f, lines[i]).Ok?
  }

  predicate AfterRead(lines: seq<Line>, i: nat)
    requires i <= |lines|
  {
    i > 0 && lines[i - 1].insn.raw == TLS_READ_FS
  }

  lemma ReadsNext(lines: seq<Line>, i: nat)
    requires i < |lines|
    ensures ReadsThreadPointer(lines, i + 1) <==> ReadsThreadPointer(lines, i) || lines[i].insn.raw == TLS_READ_FS
  {
  }

  ghost predicate ReadsThreadPointer(lines: seq<Line>, count: nat) {
    exists i: nat :: i < count && i < |lines| && lines[i].insn.raw == TLS_READ_FS
  }

  // What the emission loop accepts.
  ghost predicate Emittable(plan: Plan)
    requires plan.Valid()
  {
    && (forall f :: f in plan.chosen ==> FunctionMovable(plan, f))
    && exists f :: f in plan.chosen && FunctionReads(plan, f)
  }

  ghost predicate FunctionReads(plan: Plan, f: int)
    requires plan.Valid() && f in plan.chosen
  {
    BodyFacts(plan, plan.chosen[f]);
    ReadsThreadPointer(plan.body[f], |plan.body[f]|)
  }

  ghost predicate FunctionMovable(plan: Plan, f: int)
    requires plan.Valid() && f in plan.chosen
  {
    BodyFacts(plan, plan.chosen[f]);
    Movable(plan, plan.chosen[f], plan.body[f], |plan.body[f]|)
  }

  // The error of line i, if it has one: an instruction behind a thread pointer read that
  // is not the slot load; a reference to code that is not copied and to data without
  // a value; or a reference whose displacement cannot be located. An unresolved branch is
  // not among them.
  ghost predicate Blames(plan: Plan, f: Symbol, lines: seq<Line>, i: nat, e: Failure)
    requires ValidLines(lines) && f.addr in plan.base && i < |lines|
  {
    match e
    case UnexpectedAfterTls(addr) =>
      addr == lines[i].addr && lines[i].insn.raw != TLS_READ_FS && AfterRead(lines, i) && !LoadsSlot(lines[i].insn)
    case NoRel32(addr) => addr == lines[i].addr && Unlocated(plan, f, lines[i])
    case UnknownData(target) => Unvalued(plan, f, lines[i], target)
    case _ => false
  }

  ghost predicate Unvalued(plan: Plan, f: Symbol, line: Line, target: int)
    requires line.insn.WellFormed()
  {
    && line.insn.Relative() && !line.insn.Direct() && target == line.insn.Target(line.addr) && !Inside(f, target)
    && plan.CodeRef(target) == None && plan.data(target) == None
  }

  ghost predicate Unlocated(plan: Plan, f: Symbol, line: Line)
    requires line.insn.WellFormed() && f.addr in plan.base
  {
    && line.insn.Relative() && !Inside(f, line.insn.Target(line.addr))
    && var target := line.insn.Target(line.addr);
    && (plan.CodeRef(target).Some? || (!line.insn.Direct() && plan.data(target).Some?))
    && CountFrom(line.insn.raw, Pattern(line.insn.raw, line.addr, target), 0) != 1
  }

  ghost predicate FunctionBlamed(plan: Plan, f: int, e: Failure)
    requires plan.Valid() && f in plan.chosen
  {
    BodyFacts(plan, plan.chosen[f]);
    exists i: nat :: i < |plan.body[f]| && Blames(plan, plan.chosen[f], plan.body[f], i, e)
  }

  // The exit for an unresolved branch target is never taken.
  lemma NeverUnresolved(plan: Plan, f: int, line: Line)
    requires plan.Valid() && f in plan.chosen && f in plan.body && line in plan.body[f] && line.insn.WellFormed()
    ensures MovedLine(plan, plan.chosen[f], line).Err? ==>
              !MovedLine(plan, plan.chosen[f], line).error.UnresolvedBranch?
  {
    hide Reachable, TrapsExact, BodyOf, Rel32;
    if line.insn.Direct() && !Inside(plan.chosen[f], line.insn.Target(line.addr)) {
      EveryExitResolves(plan.p, plan.entry, plan.chosen, plan.body, plan.traps, f, line, line.insn.Target(line.addr));
    }
  }

  lemma NotMoved(plan: Plan, f: Symbol, i: nat)
    requires plan.Valid() && f.addr in plan.chosen && plan.chosen[f.addr] == f
    requires f.addr in plan.body && i < |plan.body[f.addr]|
    requires ValidLines(plan.body[f.addr]) && MovedLine(plan, f, plan.body[f.addr][i]).Err?
    ensures FunctionBlamed(plan, f.addr, MovedLine(plan, f, plan.body[f.addr][i]).error)
    ensures !FunctionMovable(plan, f.addr)
  {
    hide Reachable, BodyOf, TrapsExact, Sound;
    var line := plan.body[f.addr][i];
    assert line in plan.body[f.addr];
    NeverUnresolved(plan, f.addr, line);
    MovedError(plan, f, line);
    assert Blames(plan, f, plan.body[f.addr], i, MovedLine(plan, f, line).error);
    assert !LineMovable(plan, f, plan.body[f.addr], i);
  }

  lemma MovedError(plan: Plan, f: Symbol, line: Line)
    requires line.insn.WellFormed() && f.addr in plan.base && MovedLine(plan, f, line).Err?
    ensures match MovedLine(plan, f, line).error
            case NoRel32(addr) => addr == line.addr && Unlocated(plan, f, line)
            case UnknownData(target) => Unvalued(plan, f, line, target)
            case _ => true
  {
    hide Insn.Target, Rel32, CountFrom, Plan.CodeRef;
    var insn := line.insn;
    assert insn.Relative();
    NotLocated(insn.raw, line.addr, insn.Target(line.addr));
  }

  lemma SlotMissing(plan: Plan, f: Symbol, i: nat)
    requires plan.Valid() && f.addr in plan.chosen && plan.chosen[f.addr] == f
    requires f.addr in plan.body && i < |plan.body[f.addr]|
    requires ValidLines(plan.body[f.addr]) && plan.body[f.addr][i].insn.raw != TLS_READ_FS
    requires AfterRead(plan.body[f.addr], i) && !LoadsSlot(plan.body[f.addr][i].insn)
    ensures FunctionBlamed(plan, f.addr, UnexpectedAfterTls(plan.body[f.addr][i].addr))
    ensures !FunctionMovable(plan, f.addr)
  {
    hide Reachable, BodyOf, TrapsExact, Sound, MovedLine;
    assert Blames(plan, f, plan.body[f.addr], i, UnexpectedAfterTls(plan.body[f.addr][i].addr));
    assert !LineMovable(plan, f, plan.body[f.addr], i);
  }

  /* ---------------- the emission loop ---------------- */

  // Outside the new range of f the image is as before.
  ghost predicate KeptOutside(plan: Plan, f: Symbol, before: map<int, Insn>, after: map<int, Insn>)
    requires f.addr in plan.base
  {
    forall at :: at in before && !(plan.base[f.addr] <= at < plan.base[f.addr] + f.size) ==>
      at in after && after[at] == before[at]
  }

  lemma LineEmitted(plan: Plan, f: Symbol, lines: seq<Line>, i: nat, image: map<int, Insn>, moved: Insn)
    requires ValidLines(lines) && f.addr in plan.base && i < |lines| && Ascending(f, lines)
    requires LinesEmitted(plan, f, lines, i, image) && MovedLine(plan, f, lines[i]) == Ok(moved)
    ensures LinesEmitted(plan, f, lines, i + 1, image[plan.NewAddress(f.addr, lines[i].addr) := moved])
  {
    hide MovedLine;
  }

  lemma KeptStep(plan: Plan, f: Symbol, before: map<int, Insn>, image: map<int, Insn>, addr: int, moved: Insn)
    requires f.addr in plan.base && KeptOutside(plan, f, before, image) && Inside(f, addr)
    ensures KeptOutside(plan, f, before, image[plan.NewAddress(f.addr, addr) := moved])
  {
  }

  lemma MovableStep(plan: Plan, f: Symbol, lines: seq<Line>, i: nat)
    requires ValidLines(lines) && f.addr in plan.base && i < |lines|
    requires Movable(plan, f, lines, i) && LineMovable(plan, f, lines, i)
    ensures Movable(plan, f, lines, i + 1)
  {
    hide LineMovable;
  }

  class Assembler {
    var image: map<int, Insn>
    var tlsReads: nat

    constructor ()
      ensures image == map[] && tlsReads == 0
    {
      image, tlsReads := map[], 0;
    }

    // Emits the body of one function. What is already in the image outside the
    // function's new range stays as it is.
    method EmitFunction(plan: Plan, f: Symbol) returns (r: Result<(), Failure>)
      requires plan.Valid() && f.addr in plan.chosen && plan.chosen[f.addr] == f
      modifies this
      ensures r.Ok? ==> ValidLines(plan.body[f.addr])
                        && LinesEmitted(plan, f, plan.body[f.addr], |plan.body[f.addr]|, image)
                        && ThreadPointerMoved(plan, f, plan.body[f.addr], image)
      ensures r.Ok? <==> FunctionMovable(plan, f.addr)
      ensures r.Err? ==> FunctionBlamed(plan, f.addr, r.error)
      ensures r.Err? ==> r.error.NoRel32? || r.error.UnknownData? || r.error.UnexpectedAfterTls?
      ensures r.Ok? ==> (tlsReads > 0 <==> old(tlsReads) > 0 || FunctionReads(plan, f.addr))
      ensures KeptOutside(plan, f, old(image), image)
    {
      BodyFacts(plan, f);
      hide MovedLine, LoadsSlot, Plan.Valid, LinesEmitted, Movable, Ascending, KeptOutside, ThreadPointerMoved;
      StartsEmitted(plan, f, image);
      var lines := plan.body[f.addr];
      var expectSlot := false;
      for i := 0 to |lines|
        invariant LinesEmitted(plan, f, lines, i, image)
        invariant Movable(plan, f, lines, i)
        invariant expectSlot == AfterRead(lines, i)
        invariant tlsReads > 0 <==> old(tlsReads) > 0 || ReadsThreadPointer(lines, i)
        invariant KeptOutside(plan, f, old(image), image)
      {
        hide ReadsThreadPointer, FunctionMovable, FunctionReads;
        var line := lines[i];
        ReadsNext(lines, i);
        if line.insn.raw == TLS_READ_FS {
          expectSlot := true;
          tlsReads := tlsReads + 1;
        } else if expectSlot {
          if !LoadsSlot(line.insn) {
            SlotMissing(plan, f, i);
            return Err(UnexpectedAfterTls(line.addr));
          }
          expectSlot := false;
        }
        var moved := MovedLine(plan, f, line);
        if moved.Err? {
          NotMoved(plan, f, i);
          BlameIsNoTls(plan, f.addr, moved.error);
          return Err(moved.error);
        }
        LineEmitted(plan, f, lines, i, image, moved.value);
        AscendsInside(f, lines, i);
        KeptStep(plan, f, old(image), image, line.addr, moved.value);
        MovableStep(plan, f, lines, i);
        image := image[plan.NewAddress(f.addr, line.addr) := moved.value];
      }
      ReadsAreMoved(plan, f, lines, image);
      return Ok(());
    }

    method EmitAll(plan: Plan, order: seq<Placed>) returns (r: Result<(), Failure>)
      requires plan.Valid() && image == map[] && tlsReads == 0
      requires forall k :: 0 <= k < |order| ==>
                 order[k].f.addr in plan.chosen && plan.chosen[order[k].f.addr] == order[k].f
      requires forall j, k :: 0 <= j < k < |order| ==> order[j].f.addr != order[k].f.addr
      modifies this
      ensures r.Ok? ==> forall k :: 0 <= k < |order| ==> FunctionEmitted(plan, order[k].f.addr, image)
                                                         && ReadsMoved(plan, order[k].f.addr, image)
      ensures r.Err? && r.error != NoTlsRead ==>
                exists k :: 0 <= k < |order| && FunctionBlamed(plan, order[k].f.addr, r.error)
      ensures r.Err? ==> !r.error.ClosureFailed? && !r.error.UnresolvedBranch?
      ensures r == Err(NoTlsRead) ==> forall k :: 0 <= k < |order| ==> !FunctionReads(plan, order[k].f.addr)
      ensures r.Ok? <==> (forall k :: 0 <= k < |order| ==> FunctionMovable(plan, order[k].f.addr))
                         && exists k :: 0 <= k < |order| && FunctionReads(plan, order[k].f.addr)
    {
      hide FunctionReads, FunctionMovable, FunctionBlamed, ThreadPointerMoved, ReadsMoved;
      hide BodyOf, Reachable, MovedLine, Sound, TrapsExact;
      for k := 0 to |order|
        invariant forall j :: 0 <= j < k ==> FunctionEmitted(plan, order[j].f.addr, image)
        invariant forall j :: 0 <= j < k ==> FunctionMovable(plan, order[j].f.addr)
        invariant tlsReads > 0 <==>
                    exists j :: 0 <= j < k && FunctionReads(plan, order[j].f.addr)
      {
        ghost var before := image;
        var e := EmitFunction(plan, order[k].f);
        if e.Err? {
          return e;
        }
        forall j | 0 <= j < k
          ensures FunctionEmitted(plan, order[j].f.addr, image)
        {
          EmittedSurvives(plan, order[j].f.addr, order[k].f.addr, before, image);
        }
      }
      if tlsReads == 0 {
        return Err(NoTlsRead);
      }
      forall k | 0 <= k < |order|
        ensures ReadsMoved(plan, order[k].f.addr, image)
      {
        EmittedReadsMoved(plan, order[k].f.addr, image);
      }
      return Ok(());
    }
  }

  lemma StartsEmitted(plan: Plan, f: Symbol, image: map<int, Insn>)
    requires f.addr in plan.body && ValidLines(plan.body[f.addr]) && f.addr in plan.base
    ensures LinesEmitted(plan, f, plan.body[f.addr], 0, image) && Movable(plan, f, plan.body[f.addr], 0)
    ensures KeptOutside(plan, f, image, image)
  {
  }

  lemma AscendsInside(f: Symbol, lines: seq<Line>, i: nat)
    requires Ascending(f, lines) && i < |lines|
    ensures Inside(f, lines[i].addr)
  {
  }

  lemma BlameIsNoTls(plan: Plan, f: int, e: Failure)
    requires plan.Valid() && f in plan.chosen && FunctionBlamed(plan, f, e)
    ensures e.NoRel32? || e.UnknownData? || e.UnexpectedAfterTls?
  {
    hide Reachable, BodyOf, TrapsExact, Sound, MovedLine;
  }

  lemma BodyFacts(plan: Plan, f: Symbol)
    requires plan.Valid() && f.addr in plan.chosen && plan.chosen[f.addr] == f
    ensures f.addr in plan.body && ValidLines(plan.body[f.addr])
    ensures BodyOf(plan.p, f) == Some(plan.body[f.addr])
    ensures Ascending(f, plan.body[f.addr])
  {
    hide Reachable;
    LinesAreValid(plan.p, f, plan.body[f.addr]);
    BodyAscends(plan.p, f, f.addr);
  }

  ghost predicate FunctionEmitted(plan: Plan, a: int, image: map<int, Insn>)
    requires plan.Valid()
  {
    && a in plan.chosen
    && (BodyFacts(plan, plan.chosen[a]);
        LinesEmitted(plan, plan.chosen[a], plan.body[a], |plan.body[a]|, image))
  }

  ghost predicate ReadsMoved(plan: Plan, a: int, image: map<int, Insn>)
    requires plan.Valid()
  {
    a in plan.chosen && a in plan.body && a in plan.base && plan.chosen[a].addr == a
    && ThreadPointerMoved(plan, plan.chosen[a], plan.body[a], image)
  }

  lemma EmittedReadsMoved(plan: Plan, a: int, image: map<int, Insn>)
    requires plan.Valid() && FunctionEmitted(plan, a, image) && FunctionMovable(plan, a) && plan.chosen[a].addr == a
    ensures ReadsMoved(plan, a, image)
  {
    hide ThreadPointerMoved, LinesEmitted, Movable, Reachable, Sound, TrapsExact;
    assert a in plan.base.Keys;
    BodyFacts(plan, plan.chosen[a]);
    ReadsAreMoved(plan, plan.chosen[a], plan.body[a], image);
  }

  // Emitting function b leaves function a alone.
  lemma EmittedSurvives(plan: Plan, a: int, b: int, before: map<int, Insn>, after: map<int, Insn>)
    requires plan.Valid() && a in plan.chosen && b in plan.chosen && a != b
    requires FunctionEmitted(plan, a, before)
    requires plan.chosen[b].addr == b && KeptOutside(plan, plan.chosen[b], before, after)
    ensures FunctionEmitted(plan, a, after)
  {
    hide BodyOf, Reachable, MovedLine;
    var f, lines := plan.chosen[a], plan.body[a];
    BodyFacts(plan, f);
    forall i: nat | i < |lines|
      ensures var at := plan.NewAddress(a, lines[i].addr);
              at in after && MovedLine(plan, f, lines[i]) == Ok(after[at])
    {
      assert Inside(f, lines[i].addr);
    }
  }

  /* ---------------- sorting and placing ---------------- */

  predicate PageLess(f: Symbol, g: Symbol) {
    f.addr % PAGE < g.addr % PAGE || (f.addr % PAGE == g.addr % PAGE && f.addr <= g.addr)
  }

  ghost predicate Sorted(fs: seq<Symbol>) {
    forall i, j :: 0 <= i < j < |fs| ==> PageLess(fs[i], fs[j])
  }

  // Inserts f into a list sorted by page offset, then address.
  method InsertByPage(fs: seq<Symbol>, f: Symbol) returns (r: seq<Symbol>)
    requires Sorted(fs)
    ensures Sorted(r) && multiset(r) == multiset(fs) + multiset{f}
  {
    hide PageLess;
    var i := 0;
    while i < |fs| && PageLess(fs[i], f)
      invariant 0 <= i <= |fs|
      invariant forall j :: 0 <= j < i ==> PageLess(fs[j], f)
    {
      i := i + 1;
    }
    r := fs[..i] + [f] + fs[i..];
    assert fs == fs[..i] + fs[i..];
    InsertedSorted(fs, f, i);
  }

  lemma InsertedSorted(fs: seq<Symbol>, f: Symbol, i: nat)
    requires Sorted(fs) && i <= |fs|
    requires forall j :: 0 <= j < i ==> PageLess(fs[j], f)
    requires i < |fs| ==> !PageLess(fs[i], f)
    ensures Sorted(fs[..i] + [f] + fs[i..])
  {
    hide PageLess;
    forall j | i <= j < |fs|
      ensures PageLess(f, fs[j])
    {
      LessOrNot(fs[i], f, fs[j]);
    }
  }

  lemma LessOrNot(f: Symbol, g: Symbol, h: Symbol)
    requires !PageLess(f, g) && (f == h || PageLess(f, h))
    ensures PageLess(g, h)
  {
  }

  // The chosen functions as a list sorted by page offset, then address.
  method SortChosen(chosen: map<int, Symbol>) returns (sorted: seq<Symbol>)
    requires forall a :: a in chosen ==> chosen[a].addr == a
    ensures Sorted(sorted) && SortedByPage(sorted)
    ensures forall f :: f in sorted <==> f.addr in chosen && chosen[f.addr] == f
    ensures forall f :: multiset(sorted)[f] <= 1
  {
    sorted := [];
    var rest := chosen.Keys;
    while rest != {}
      invariant rest <= chosen.Keys && Sorted(sorted)
      invariant forall f :: f in multiset(sorted) <==> f.addr in chosen && f.addr !in rest && chosen[f.addr] == f
      invariant forall f :: multiset(sorted)[f] <= 1
      decreases rest
    {
      HasElement(rest);
      var a :| a in rest;
      sorted := InsertByPage(sorted, chosen[a]);
      rest := rest - {a};
    }
    assert forall f :: f in sorted <==> f in multiset(sorted);
  }

  function RoundUp(n: int, m: int): (r: int)
    requires m > 0
    ensures r >= n && r % m == 0
  {
    if n % m == 0 then n
    else
      ModAddMultiple(0, m, n / m + 1);
      assert n == m * (n / m) + n % m;
      m * (n / m + 1)
  }

  lemma HasElement(s: set<int>)
    requires s != {}
    ensures exists t :: t in s
  {
    if !exists t :: t in s { assert false; }
  }

  lemma {:induction false} LeastExists(s: set<int>) returns (least: int)
    requires s != {}
    ensures least in s && forall u :: u in s ==> least <= u
  {
    HasElement(s);
    var t :| t in s;
    var rest := s - {t};
    least := t;
    if rest != {} {
      var m := LeastExists(rest);
      if m < t { least := m; }
    }
    forall u | u in s ensures least <= u {
      if u != t { assert u in rest; }
    }
  }

  // One two-byte stub for each target, in address order, each aligned to eight bytes.
  method PlaceStubs(traps: set<int>, start: int) returns (stub: map<int, int>, end: int)
    ensures stub.Keys == traps && start <= end
    ensures forall t :: t in stub ==> start <= stub[t] && stub[t] + 2 <= end && stub[t] % 8 == 0
    ensures forall t, u :: t in stub && u in stub && t < u ==> stub[t] + 2 <= stub[u]
  {
    stub, end := map[], start;
    var rest := traps;
    while rest != {}
      invariant rest <= traps && stub.Keys == traps - rest && start <= end
      invariant forall t, u :: t in stub && u in rest ==> t < u
      invariant forall t :: t in stub ==> start <= stub[t] && stub[t] + 2 <= end && stub[t] % 8 == 0
      invariant forall t, u :: t in stub && u in stub && t < u ==> stub[t] + 2 <= stub[u]
      decreases rest
    {
      ghost var least := LeastExists(rest);
      var t :| t in rest && forall u :: u in rest ==> t <= u;
      var at := RoundUp(end, 8);
      stub := stub[t := at];
      end := at + 2;
      rest := rest - {t};
    }
  }

  function Bases(codeBase: int, order: seq<Placed>): map<int, int> {
    if order == [] then map[]
    else
      var last := order[|order| - 1];
      Bases(codeBase, order[..|order| - 1])[last.f.addr := codeBase + last.offset]
  }

  // No function is placed twice.
  ghost predicate Distinct(order: seq<Placed>) {
    forall j, k :: 0 <= j < k < |order| ==> order[j].f.addr != order[k].f.addr
  }

  lemma {:induction false} BaseOf(codeBase: int, order: seq<Placed>, k: nat)
    requires Distinct(order) && k < |order|
    ensures var base := Bases(codeBase, order);
            order[k].f.addr in base && base[order[k].f.addr] == codeBase + order[k].offset
  {
    if k < |order| - 1 { BaseOf(codeBase, order[..|order| - 1], k); }
  }

  lemma {:induction false} BaseIndex(codeBase: int, order: seq<Placed>, a: int) returns (k: nat)
    requires a in Bases(codeBase, order)
    ensures k < |order| && order[k].f.addr == a
  {
    k := |order| - 1;
    if order[k].f.addr != a {
      k := BaseIndex(codeBase, order[..k], a);
    }
  }

  lemma Repeats(fs: seq<Symbol>, j: nat, k: nat)
    requires j < k < |fs| && fs[j] == fs[k]
    ensures multiset(fs)[fs[j]] >= 2
  {
    assert fs == fs[..j] + [fs[j]] + fs[j + 1..k] + [fs[k]] + fs[k + 1..];
  }

  // The layout of the chosen functions holds each of them once.
  lemma LayoutIsDistinct(order: seq<Placed>, sorted: seq<Symbol>, chosen: map<int, Symbol>)
    requires multiset(Functions(order)) == multiset(sorted)
    requires forall f :: f in sorted <==> f.addr in chosen && chosen[f.addr] == f
    requires forall f :: multiset(sorted)[f] <= 1
    ensures Distinct(order)
    ensures forall k :: 0 <= k < |order| ==> order[k].f.addr in chosen && chosen[order[k].f.addr] == order[k].f
    ensures forall a :: a in chosen && chosen[a].addr == a ==> exists k :: 0 <= k < |order| && order[k].f.addr == a
  {
    var fs := Functions(order);
    assert forall f :: f in fs <==> f in sorted by {
      assert forall f :: f in fs <==> f in multiset(fs);
      assert forall f :: f in sorted <==> f in multiset(sorted);
    }
    forall k | 0 <= k < |order|
      ensures order[k].f.addr in chosen && chosen[order[k].f.addr] == order[k].f
    {
      assert fs[k] in fs;
    }
    forall j, k | 0 <= j < k < |order|
      ensures order[j].f.addr != order[k].f.addr
    {
      if fs[j] == fs[k] { Repeats(fs, j, k); }
    }
    forall a | a in chosen && chosen[a].addr == a
      ensures exists k :: 0 <= k < |order| && order[k].f.addr == a
    {
      assert chosen[a] in fs;
      var k :| 0 <= k < |fs| && fs[k] == chosen[a];
    }
  }

  lemma CopiesApart(codeBase: int, order: seq<Placed>, base: map<int, int>, chosen: map<int, Symbol>, a: int, b: int)
    requires PageCongruent(order) && Distinct(order) && base == Bases(codeBase, order)
    requires forall k :: 0 <= k < |order| ==> order[k].f.addr in chosen && chosen[order[k].f.addr] == order[k].f
    requires a in base && b in base && a != b
    ensures a in chosen && b in chosen
    ensures base[a] + chosen[a].size <= base[b] || base[b] + chosen[b].size <= base[a]
  {
    hide Bases, PageCongruent;
    var j := BaseIndex(codeBase, order, a);
    var k := BaseIndex(codeBase, order, b);
    BaseOf(codeBase, order, j);
    BaseOf(codeBase, order, k);
    if j < k { OffsetsIncrease(order, j, k); } else { OffsetsIncrease(order, k, j); }
  }

  /* ---------------- the generator ---------------- */

  // A plan and the layout it comes from.
  datatype Placement = Placement(plan: Plan, order: seq<Placed>, codeBase: int)
  {
    ghost predicate Made(p: Program, entry: Symbol, stubStart: int, data: int -> Option<int>) {
      && plan.Valid() && plan.p == p && plan.entry == entry && plan.data == data
      && LaidOut(plan, order, stubStart, codeBase)
    }
  }

  // The functions lie behind the stubs, in the order of the layout, each at its own
  // address modulo the page size and with the least padding.
  ghost predicate LaidOut(plan: Plan, order: seq<Placed>, stubStart: int, codeBase: int)
  {
    && PageCongruent(order) && Greedy(order, []) && Distinct(order) && codeBase % PAGE == 0
    && plan.base == Bases(codeBase, order)
    && (forall k :: 0 <= k < |order| ==>
          order[k].f.addr in plan.chosen && plan.chosen[order[k].f.addr] == order[k].f)
    && (forall f :: f in plan.chosen ==> exists k :: 0 <= k < |order| && order[k].f.addr == f)
    && (forall f :: f in plan.base ==> (plan.base[f] - f) % PAGE == 0)
    && stubStart <= codeBase && StubsPlaced(plan.stub, stubStart, codeBase)
  }

  // Two bytes for each stub, between the two addresses.
  ghost predicate StubsPlaced(stub: map<int, int>, start: int, end: int) {
    forall t :: t in stub ==> start <= stub[t] && stub[t] + 2 <= end
  }

  lemma OrderCovers(plan: Plan, order: seq<Placed>, stubStart: int, codeBase: int)
    requires LaidOut(plan, order, stubStart, codeBase)
    ensures forall k :: 0 <= k < |order| ==>
              order[k].f.addr in plan.chosen && plan.chosen[order[k].f.addr] == order[k].f
    ensures forall f :: f in plan.chosen ==> exists k :: 0 <= k < |order| && order[k].f.addr == f
    ensures forall j, k :: 0 <= j < k < |order| ==> order[j].f.addr != order[k].f.addr
  {
  }

  // Lays out the chosen functions behind the stubs.
  method MakePlan(p: Program, entry: Symbol, chosen: map<int, Symbol>, body: map<int, seq<Line>>,
                  traps: set<int>, stubStart: int, data: int -> Option<int>)
    returns (plan: Plan, order: seq<Placed>, codeBase: int)
    requires p.Valid() && Sound(p, entry, chosen, body) && TrapsExact(p, chosen, traps)
    requires forall a :: a in chosen <==> Reachable(p, entry, a)
    ensures Placement(plan, order, codeBase).Made(p, entry, stubStart, data)
  {
    hide Reachable, Closure.Sound, TrapsExact, PageCongruent, Greedy, Distinct, Functions, LaidOut, Bases, Plan.Valid,
         SortedByPage;
    ChosenAddresses(p, entry, chosen, body);
    var sorted := SortChosen(chosen);
    order := LayOut(sorted);
    LayoutIsDistinct(order, sorted, chosen);
    var stub, stubEnd := PlaceStubs(traps, stubStart);
    codeBase := RoundUp(stubEnd, PAGE);
    plan := Plan(p, entry, chosen, body, traps, Bases(codeBase, order), stub, data);
    PlanIsLaidOut(plan, codeBase, order, stubStart, stubEnd);
    PlanIsValid(plan, codeBase, order, stubStart, stubEnd);
  }

  // One entry of two bytes for each stub.
  ghost predicate AreStubs(plan: Plan, stubs: seq<Entry>) {
    forall s :: s in stubs ==> s.size == 2 && exists t :: t in plan.stub && plan.stub[t] == s.start
  }

  // The address a report gives is traced back to the original instruction: looking up
  // the new address of any address inside any copied function finds that function, and
  // the offset from its start is the original one. The memset lies before the stubs.
  lemma FindsOriginal(plan: Plan, order: seq<Placed>, stubStart: int, codeBase: int, memset: int, stubs: seq<Entry>,
                      f: int, addr: int, r: Option<nat>)
    requires LaidOut(plan, order, stubStart, codeBase) && AreStubs(plan, stubs)
    requires 0 < memset && memset + 0x140 <= stubStart
    requires f in plan.chosen && f in plan.base && plan.chosen[f].addr == f && Inside(plan.chosen[f], addr)
    requires FoundIn(Table(memset, codeBase, order, stubs), plan.NewAddress(f, addr), r)
    ensures r.Some? && r.value < |Table(memset, codeBase, order, stubs)|
    ensures var e := Table(memset, codeBase, order, stubs)[r.value];
            e.original == f && e.name == plan.chosen[f].name && plan.NewAddress(f, addr) - e.start == addr - f
  {
    hide FoundIn, Table, PageCongruent, Bases;
    var k :| 0 <= k < |order| && order[k].f.addr == f;
    BaseOf(codeBase, order, k);
    FindsOwnFunction(memset, codeBase, order, stubs, k, addr - f, r);
  }

  // What the plan says of an error of the emission loop.
  ghost predicate PlanBlamed(plan: Plan, e: Failure)
    requires plan.Valid()
  {
    if e == NoTlsRead then forall f :: f in plan.chosen ==> !FunctionReads(plan, f)
    else exists f :: f in plan.chosen && FunctionBlamed(plan, f, e)
  }

  // On success the plan is sound and every instruction of every function reachable from
  // the entry is in the image, at its place in the copy of its function. It fails only
  // when a reachable function has a gap, or with an error that a line of the plan made
  // for the program is to blame for.
  method Generate(p: Program, entry: Symbol, stubStart: int, data: int -> Option<int>)
    returns (r: Result<(Plan, map<int, Insn>), Failure>, made: Option<Placement>)
    requires p.Valid()
    ensures made.Some? ==> made.value.Made(p, entry, stubStart, data)
    ensures match r
            case Ok((plan, image)) =>
              && made.Some? && made.value.plan == plan
              && (forall f :: f in plan.chosen ==> FunctionEmitted(plan, f, image) && ReadsMoved(plan, f, image))
              && Emittable(plan)
            case Err(ClosureFailed(_)) =>
              exists a :: (a == entry.addr || p.ByAddr(a).Some?) && Reachable(p, entry, a)
                          && BodyOf(p, SymbolFor(p, entry, a)) == None
            case Err(e) =>
              && !e.UnresolvedBranch? && made.Some? && !Emittable(made.value.plan)
              && PlanBlamed(made.value.plan, e)
  {
    hide Reachable, Closure.Sound, TrapsExact, BodyOf, FunctionEmitted, Plan.Valid, FunctionReads, FunctionMovable,
         Emittable, FunctionBlamed, LaidOut, ReadsMoved;
    made := None;
    var selection := new Selection(entry);
    var closed := selection.Close(p, entry);
    if closed.Err? {
      return Err(ClosureFailed(closed.error)), made;
    }
    var plan, order, codeBase := MakePlan(p, entry, selection.chosen, selection.body, selection.traps, stubStart, data);
    made := Some(Placement(plan, order, codeBase));
    OrderCovers(plan, order, stubStart, codeBase);
    var assembler := new Assembler();
    var emitted := assembler.EmitAll(plan, order);
    EmittableInOrder(plan, order);
    if emitted.Err? {
      return Err(emitted.error), made;
    }
    forall f | f in plan.chosen
      ensures FunctionEmitted(plan, f, assembler.image) && ReadsMoved(plan, f, assembler.image)
    {
      var k :| 0 <= k < |order| && order[k].f.addr == f;
    }
    return Ok((plan, assembler.image)), made;
  }

  lemma EmittableInOrder(plan: Plan, order: seq<Placed>)
    requires plan.Valid() && forall k :: 0 <= k < |order| ==> order[k].f.addr in plan.chosen
    requires forall f :: f in plan.chosen ==> exists k :: 0 <= k < |order| && order[k].f.addr == f
    ensures Emittable(plan) <==>
              (forall k :: 0 <= k < |order| ==> FunctionMovable(plan, order[k].f.addr))
              && exists k :: 0 <= k < |order| && FunctionReads(plan, order[k].f.addr)
    ensures (forall k :: 0 <= k < |order| ==> !FunctionReads(plan, order[k].f.addr)) ==>
              forall f :: f in plan.chosen ==> !FunctionReads(plan, f)
  {
    hide FunctionReads, FunctionMovable, Reachable, Closure.Sound, TrapsExact, BodyOf;
  }

  lemma ChosenAddresses(p: Program, entry: Symbol, chosen: map<int, Symbol>, body: map<int, seq<Line>>)
    requires p.Valid() && Sound(p, entry, chosen, body)
    ensures forall a :: a in chosen ==> chosen[a].addr == a
  {
  }

  lemma PlacedAtOwnAddress(order: seq<Placed>)
    requires PageCongruent(order)
    ensures forall k :: 0 <= k < |order| ==> (order[k].offset - order[k].f.addr) % PAGE == 0
  {
  }

  lemma BaseFacts(codeBase: int, order: seq<Placed>, chosen: map<int, Symbol>, a: int)
    requires Distinct(order) && PageCongruent(order) && codeBase % PAGE == 0 && a in Bases(codeBase, order)
    requires forall k :: 0 <= k < |order| ==> order[k].f.addr in chosen
    ensures a in chosen && Bases(codeBase, order)[a] >= codeBase && (Bases(codeBase, order)[a] - a) % PAGE == 0
  {
    PlacedAtOwnAddress(order);
    hide PageCongruent, Bases, Distinct;
    var k := BaseIndex(codeBase, order, a);
    BaseOf(codeBase, order, k);
    assert (order[k].offset - a) % PAGE == 0;
    ModAddMultiple(order[k].offset - a, PAGE, codeBase / PAGE);
  }

  lemma BasesCover(codeBase: int, order: seq<Placed>, chosen: map<int, Symbol>)
    requires Distinct(order) && PageCongruent(order) && codeBase % PAGE == 0
    requires forall k :: 0 <= k < |order| ==> order[k].f.addr in chosen
    requires forall a :: a in chosen ==> exists k :: 0 <= k < |order| && order[k].f.addr == a
    ensures var base := Bases(codeBase, order);
            && (forall a :: a in base <==> a in chosen)
            && (forall a :: a in base ==> base[a] >= codeBase && (base[a] - a) % PAGE == 0)
  {
    hide PageCongruent, Bases, Distinct;
    var base := Bases(codeBase, order);
    forall a | a in base
      ensures a in chosen && base[a] >= codeBase && (base[a] - a) % PAGE == 0
    {
      BaseFacts(codeBase, order, chosen, a);
    }
    forall a | a in chosen
      ensures a in base
    {
      var k :| 0 <= k < |order| && order[k].f.addr == a;
      BaseOf(codeBase, order, k);
    }
  }

  lemma PlanIsLaidOut(plan: Plan, codeBase: int, order: seq<Placed>, stubStart: int, stubEnd: int)
    requires PageCongruent(order) && Greedy(order, []) && Distinct(order) && codeBase % PAGE == 0
    requires forall k :: 0 <= k < |order| ==>
               order[k].f.addr in plan.chosen && plan.chosen[order[k].f.addr] == order[k].f
    requires forall a :: a in plan.chosen ==> exists k :: 0 <= k < |order| && order[k].f.addr == a
    requires plan.base == Bases(codeBase, order)
    requires stubStart <= stubEnd <= codeBase
    requires forall t :: t in plan.stub ==> stubStart <= plan.stub[t] && plan.stub[t] + 2 <= stubEnd
    ensures LaidOut(plan, order, stubStart, codeBase)
  {
    hide PageCongruent, Greedy, Bases, Distinct;
    BasesCover(codeBase, order, plan.chosen);
  }

  lemma PlanIsValid(plan: Plan, codeBase: int, order: seq<Placed>, stubStart: int, stubEnd: int)
    requires plan.p.Valid() && Sound(plan.p, plan.entry, plan.chosen, plan.body)
    requires forall a :: a in plan.chosen <==> Reachable(plan.p, plan.entry, a)
    requires TrapsExact(plan.p, plan.chosen, plan.traps)
    requires LaidOut(plan, order, stubStart, codeBase) && stubEnd <= codeBase
    requires plan.stub.Keys == plan.traps
    requires forall t :: t in plan.stub ==> stubStart <= plan.stub[t] && plan.stub[t] + 2 <= stubEnd
    requires forall t, u :: t in plan.stub && u in plan.stub && t < u ==> plan.stub[t] + 2 <= plan.stub[u]
    ensures plan.Valid()
  {
    hide Reachable, Closure.Sound, TrapsExact, PageCongruent, Bases, Distinct;
    BasesCover(codeBase, order, plan.chosen);
    assert forall a :: a in plan.base.Keys <==> a in plan.chosen.Keys;
    PlanIsDisjoint(plan, codeBase, order, stubStart, stubEnd);
  }

  lemma PlanIsDisjoint(plan: Plan, codeBase: int, order: seq<Placed>, stubStart: int, stubEnd: int)
    requires LaidOut(plan, order, stubStart, codeBase) && stubEnd <= codeBase && plan.base.Keys == plan.chosen.Keys
    requires forall a :: a in plan.base ==> plan.base[a] >= codeBase
    requires forall t :: t in plan.stub ==> stubStart <= plan.stub[t] && plan.stub[t] + 2 <= stubEnd
    requires forall t, u :: t in plan.stub && u in plan.stub && t < u ==> plan.stub[t] + 2 <= plan.stub[u]
    ensures plan.Disjoint()
  {
    hide PageCongruent, Bases, Distinct;
    forall a, b | a in plan.chosen && b in plan.chosen && a != b
      ensures plan.base[a] + plan.chosen[a].size <= plan.base[b] || plan.base[b] + plan.chosen[b].size <= plan.base[a]
    {
      CopiesApart(codeBase, order, plan.base, plan.chosen, a, b);
    }
    forall t, u | t in plan.stub && u in plan.stub && t != u
      ensures plan.stub[t] != plan.stub[u]
    {
      if t < u { assert plan.stub[t] + 2 <= plan.stub[u]; } else { assert plan.stub[u] + 2 <= plan.stub[t]; }
    }
  }
}
