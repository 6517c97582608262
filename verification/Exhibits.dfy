/**
 Two small programs, each with a plan and an image the generator accepts: one that meets
 every assumption of the lockstep theorem, and one for which the copy goes astray.
 */
module Exhibits {
  import opened Wrappers
  import opened Words
  import opened Binary
  import opened Closure
  import opened Layout
  import opened Relocation
  import opened Transplant
  import opened Simulation

  /* ---------------- programs of an entry and one copied callee ---------------- */

  lemma TwoReachable(p: Program, f: Symbol, g: Symbol, fLines: seq<Line>, gLines: seq<Line>)
    requires p.Valid() && BodyOf(p, f) == Some(fLines) && BodyOf(p, g) == Some(gLines)
    requires f.addr != g.addr && p.ByAddr(g.addr) == Some(g) && Copied(p, g.addr)
    requires BranchesTo(p, f, g.addr)
    requires forall t :: Copied(p, t) && (BranchesTo(p, f, t) || BranchesTo(p, g, t)) ==> t == f.addr || t == g.addr
    ensures forall a :: Reachable(p, f, a) <==> a == f.addr || a == g.addr
  {
    hide BodyOf, Copied, BranchesTo;
    EntryReachable(p, f);
    assert Edge(p, f, f.addr, g.addr);
    ReachableStep(p, f, f.addr, g.addr);
    forall a | Reachable(p, f, a)
      ensures a == f.addr || a == g.addr
    {
      var path :| Path(p, f, path) && path[|path| - 1] == a;
      ClosedHoldsPath(p, f, path, {f.addr, g.addr});
    }
  }

  // A body of up to six instructions, read off the program.
  lemma {:induction false} BodyIs(p: Program, lines: seq<Line>, start: int, end: int)
    requires p.Valid() && Contiguous(lines, start, end)
    requires lines == [] ==> start == end
    requires lines != [] ==> lines[|lines| - 1].addr + |lines[|lines| - 1].insn.raw| == end
    requires forall line :: line in lines ==> line.addr in p.insns && p.insns[line.addr] == line.insn
    ensures BodyFrom(p, start, end) == Some(lines)
  {
    if lines != [] {
      var first := lines[0];
      assert first in lines;
      NextStart(lines, start, end);
      BodyIs(p, lines[1..], start + |first.insn.raw|, end);
      assert [first] + lines[1..] == lines;
    }
  }

  lemma {:induction false} NextStart(lines: seq<Line>, start: int, end: int)
    requires lines != [] && Contiguous(lines, start, end)
    requires lines[|lines| - 1].addr + |lines[|lines| - 1].insn.raw| == end
    requires forall line :: line in lines ==> |line.insn.raw| > 0
    ensures start < end && lines[0].addr == start
    ensures |lines| == 1 ==> start + |lines[0].insn.raw| == end
  {
    assert lines[0] in lines;
    if |lines| > 1 {
      NextStart(lines[1..], start + |lines[0].insn.raw|, end);
    }
  }

  /* ---------------- a program that meets the assumptions ---------------- */

  // The entry reads the thread pointer, takes the address of a datum, calls a copied
  // function, and may branch to one that is not copied. Like hash() it ends with a call
  // to a copied function.
  const READ: Insn := Insn(TLS_READ_FS, TlsRead, NoDisp)
  const SLOT: Insn := Insn([0x4c, 0x8b, 0xb0, 0xb8, 0xff, 0xff, 0xff], Plain, NoDisp)
  const LEA: Insn := Insn([0x48, 0x8d, 0x3d, 0xe6, 0x3f, 0x00, 0x00], RipRef, Disp(3, 4))
  const ENTER: Insn := Insn([0xe8, 0xe1, 0x0f, 0x00, 0x00], Call, Disp(1, 4))
  const DIE: Insn := Insn([0xe8, 0xd5, 0x0f, 0x00, 0x00], Call, Disp(1, 4))
  const NOP: Insn := Insn([0x90], Plain, NoDisp)
  const RET: Insn := Insn([0xc3], Ret, NoDisp)

  // Where the branch out of the entry goes: to the function that is not copied, or
  // behind the first instruction of the one that is.
  type Way = to: int | to == 0x3000 || to == 0x2001 witness 0x3000

  function Exit(to: Way): Insn {
    Insn([0x0f, 0x84, if to == 0x3000 then 0xdb else 0xdc, if to == 0x3000 then 0x1f else 0x0f, 0x00, 0x00],
         CondJump, Disp(2, 4))
  }

  const MAIN: Symbol := Symbol(0x1000, 0x2b, "hash")
  const HELPER: Symbol := Symbol(0x2000, 2, "helper")
  const ABORT: Symbol := Symbol(0x3000, 1, "abort")

  function MainLines(to: Way): seq<Line> {
    [Line(0x1000, READ), Line(0x100c, SLOT), Line(0x1013, LEA), Line(0x101a, ENTER), Line(0x101f, Exit(to)),
     Line(0x1025, RET), Line(0x1026, DIE)]
  }

  function HelperLines(): seq<Line> { [Line(0x2000, NOP), Line(0x2001, RET)] }

  function Full(to: Way): Program {
    Program([MAIN, HELPER, ABORT], {"hash", "helper"},
            map[0x1000 := READ, 0x100c := SLOT, 0x1013 := LEA, 0x101a := ENTER, 0x101f := Exit(to), 0x1025 := RET,
                0x1026 := DIE, 0x2000 := NOP, 0x2001 := RET])
  }

  function FullPlan(to: Way): Plan {
    Plan(Full(to), MAIN, map[0x1000 := MAIN, 0x2000 := HELPER], map[0x1000 := MainLines(to), 0x2000 := HelperLines()],
         {to}, map[0x1000 := 0x11000, 0x2000 := 0x12000], map[to as int := 0x10000],
         a => if a == 0x5000 then Some(0x9000) else None)
  }

  lemma FullTargets(to: Way)
    ensures READ.WellFormed() && SLOT.WellFormed() && NOP.WellFormed() && RET.WellFormed() && Full(to).Valid()
    ensures LEA.WellFormed() && LEA.Target(0x1013) == 0x5000
    ensures ENTER.WellFormed() && ENTER.Target(0x101a) == 0x2000
    ensures Exit(to).WellFormed() && Exit(to).Target(0x101f) == to
    ensures DIE.WellFormed() && DIE.Target(0x1026) == 0x2000
  {
    assert DIE.raw[1..5] == [0xd5, 0x0f, 0x00, 0x00];
    assert LEA.raw[3..7] == [0xe6, 0x3f, 0x00, 0x00];
    assert ENTER.raw[1..5] == [0xe1, 0x0f, 0x00, 0x00];
    assert Exit(to).raw[2..6] == [if to == 0x3000 then 0xdb else 0xdc, if to == 0x3000 then 0x1f else 0x0f, 0x00, 0x00];
  }

  lemma MainIsContiguous(to: Way)
    ensures Contiguous(MainLines(to), 0x1000, 0x102b) && Contiguous(HelperLines(), 0x2000, 0x2002)
  {
    var l0 := [Line(0x1026, DIE)];
    var l1 := [Line(0x1025, RET)] + l0;
    var l2 := [Line(0x101f, Exit(to))] + l1;
    var l3 := [Line(0x101a, ENTER)] + l2;
    var l4 := [Line(0x1013, LEA)] + l3;
    var l5 := [Line(0x100c, SLOT)] + l4;
    assert l0[1..] == [] && l1[1..] == l0 && l2[1..] == l1 && l3[1..] == l2 && l4[1..] == l3 && l5[1..] == l4;
    assert Contiguous(l0, 0x1026, 0x102b);
    assert Contiguous(l1, 0x1025, 0x102b);
    assert Contiguous(l2, 0x101f, 0x102b);
    assert Contiguous(l3, 0x101a, 0x102b);
    assert Contiguous(l4, 0x1013, 0x102b);
    assert Contiguous(l5, 0x100c, 0x102b);
    assert MainLines(to)[1..] == l5;
    assert HelperLines()[1..] == [Line(0x2001, RET)];
  }

  lemma MainBody(to: Way)
    ensures Full(to).Valid() && BodyOf(Full(to), MAIN) == Some(MainLines(to))
  {
    FullTargets(to);
    MainIsContiguous(to);
    MainInProgram(to);
    assert MainLines(to) != [] && MainLines(to)[|MainLines(to)| - 1] == Line(0x1026, DIE);
    hide Insn.Target, Contiguous, BodyFrom, Full, MainLines, Insn.WellFormed;
    BodyIs(Full(to), MainLines(to), 0x1000, 0x102b);
  }

  lemma MainInProgram(to: Way)
    ensures forall line :: line in MainLines(to) ==>
              line.addr in Full(to).insns && Full(to).insns[line.addr] == line.insn
  {
  }

  lemma HelperBody(to: Way)
    ensures Full(to).Valid() && BodyOf(Full(to), HELPER) == Some(HelperLines())
  {
    FullTargets(to);
    MainIsContiguous(to);
    hide Insn.Target, Contiguous, BodyFrom;
    BodyIs(Full(to), HelperLines(), 0x2000, 0x2002);
  }

  lemma FullBodies(to: Way)
    ensures Full(to).Valid()
    ensures BodyOf(Full(to), MAIN) == Some(MainLines(to)) && BodyOf(Full(to), HELPER) == Some(HelperLines())
    ensures forall t :: BranchesTo(Full(to), MAIN, t) <==> t == 0x2000 || t == to
    ensures forall t :: !BranchesTo(Full(to), HELPER, t)
  {
    FullTargets(to);
    MainBody(to);
    HelperBody(to);
    hide Insn.Target, BodyOf, Full;
    LinesAreValid(Full(to), MAIN, MainLines(to));
    LinesAreValid(Full(to), HELPER, HelperLines());
    assert Exits(MAIN, MainLines(to)[3], 0x2000) && Exits(MAIN, MainLines(to)[4], to);
  }

  lemma FullCopied(to: Way)
    ensures forall t :: Copied(Full(to), t) <==> t == 0x1000 || t == 0x2000
    ensures Full(to).ByAddr(0x2000) == Some(HELPER) && Full(to).ByAddr(0x1000) == Some(MAIN)
  {
    FunctionByAddr(to, 0x1000);
    FunctionByAddr(to, 0x2000);
    assert |ABORT.name| == 5 && |"hash"| == 4 && |"helper"| == 6;
    hide FirstAt;
    forall t
      ensures Copied(Full(to), t) <==> t == 0x1000 || t == 0x2000
    {
      FunctionByAddr(to, t);
    }
  }

  lemma FunctionByAddr(to: Way, t: int)
    ensures Full(to).ByAddr(t) == if t == 0x1000 then Some(MAIN) else if t == 0x2000 then Some(HELPER)
                                  else if t == 0x3000 then Some(ABORT) else None
  {
    var fs: seq<Symbol> := Full(to).functions;
    var none: seq<Symbol> := [];
    assert fs[1..] == [HELPER, ABORT] && [HELPER, ABORT][1..] == [ABORT] && [ABORT][1..] == none;
    assert FirstAt([ABORT], t) == if t == 0x3000 then Some(ABORT) else None;
    assert FirstAt([HELPER, ABORT], t) == if t == 0x2000 then Some(HELPER) else FirstAt([ABORT], t);
  }

  lemma FullPlanIsValid(to: Way)
    ensures FullPlan(to).Valid()
  {
    FullKeys(to);
    FullIsDisjoint(to);
    hide Sound, TrapsExact, Reachable, Plan.Disjoint, Program.Valid;
    FullIsReachable(to);
    FullIsSound(to);
    FullTraps(to);
  }

  lemma FullKeys(to: Way)
    ensures FullPlan(to).base.Keys == FullPlan(to).chosen.Keys == {0x1000, 0x2000}
    ensures FullPlan(to).stub.Keys == FullPlan(to).traps == {to}
  {
  }

  lemma FullIsDisjoint(to: Way)
    ensures FullPlan(to).base.Keys == FullPlan(to).chosen.Keys && FullPlan(to).Disjoint()
  {
    FullKeys(to);
    var plan := FullPlan(to);
    assert plan.base[0x1000] == 0x11000 && plan.base[0x2000] == 0x12000 && plan.stub[to] == 0x10000;
    assert plan.chosen[0x1000].size == 0x2b && plan.chosen[0x2000].size == 2;
    hide FullPlan;
  }

  lemma FullIsReachable(to: Way)
    ensures Full(to).Valid() && forall a :: Reachable(Full(to), MAIN, a) <==> a == 0x1000 || a == 0x2000
  {
    hide BodyOf, BranchesTo, Reachable, Copied;
    FullBodies(to);
    FullCopied(to);
    TwoReachable(Full(to), MAIN, HELPER, MainLines(to), HelperLines());
  }

  lemma FullIsSound(to: Way)
    ensures Full(to).Valid() && Sound(Full(to), MAIN, FullPlan(to).chosen, FullPlan(to).body)
  {
    hide BodyOf, BranchesTo, Reachable, Copied;
    FullBodies(to);
    FullCopied(to);
    FullIsReachable(to);
  }

  lemma FullTraps(to: Way)
    ensures Full(to).Valid() && TrapsExact(Full(to), FullPlan(to).chosen, {to})
  {
    hide BodyOf, BranchesTo, Copied;
    FullBodies(to);
    FullCopied(to);
    assert BranchesTo(Full(to), FullPlan(to).chosen[0x1000], to);
  }

  // In each of the references the displacement occurs once.
  lemma OccursOnce(insn: Insn, addr: int, at: int, symbol: int)
    requires insn.WellFormed() && insn.Relative() && insn.disp.width == 4
    requires forall j :: Occurs(insn.raw, Pattern(insn.raw, addr, insn.Target(addr)), j) ==> j == insn.disp.pos
    ensures FindsDisplacement(insn, addr)
    ensures Rel32(insn.raw, addr, insn.Target(addr), at, symbol) == Some(Retargeted(insn, at, symbol))
  {
    hide Rel32, RFind, CountFrom, Retargeted;
    DisplacementOccurs(insn, addr);
    FindsDisplacementIff(insn, addr);
    CountedOnce(insn.raw, Pattern(insn.raw, addr, insn.Target(addr)), 0, insn.disp.pos);
    Rel32Iff(insn, addr, at, symbol);
  }

  lemma OnlyThere(raw: seq<Byte>, pattern: seq<Byte>, pos: nat)
    requires |pattern| == 4 && 4 <= |raw| && pos == |raw| - 4
    requires forall j :: 0 <= j < pos ==> raw[j] != pattern[0]
    ensures forall j :: Occurs(raw, pattern, j) ==> j == pos
  {
    forall j | Occurs(raw, pattern, j)
      ensures j == pos
    {
      assert raw[j..j + 4][0] == raw[j];
    }
  }

  lemma ReferenceMoves(plan: Plan, f: Symbol, line: Line, symbol: int)
    requires line.insn.WellFormed() && line.insn.Relative() && line.insn.disp.width == 4 && f.addr in plan.base
    requires line.insn.raw != TLS_READ_FS && !Inside(f, line.insn.Target(line.addr))
    requires Resolve(plan, line.insn, line.insn.Target(line.addr)) == Some(symbol)
    requires var pattern := Pattern(line.insn.raw, line.addr, line.insn.Target(line.addr));
             forall j :: Occurs(line.insn.raw, pattern, j) ==> j == line.insn.disp.pos
    ensures var bytes := Retargeted(line.insn, plan.NewAddress(f.addr, line.addr), symbol);
            MovedLine(plan, f, line) == Ok(line.insn.(raw := bytes))
  {
    hide Rel32, Retargeted, Occurs, Resolve, Pattern;
    OccursOnce(line.insn, line.addr, plan.NewAddress(f.addr, line.addr), symbol);
  }

  // What the lines of the entry are emitted as.
  function MainMoved(to: Way): (moved: seq<Insn>)
    ensures |moved| == 7
  {
    FullTargets(to);
    [READ.(raw := TLS_READ_GS), SLOT, LEA.(raw := Retargeted(LEA, 0x11013, 0x9000)),
     ENTER.(raw := Retargeted(ENTER, 0x1101a, 0x12000)), Exit(to).(raw := Retargeted(Exit(to), 0x1101f, 0x10000)), RET,
     DIE.(raw := Retargeted(DIE, 0x11026, 0x12000))]
  }

  lemma ReferencesMove(to: Way)
    ensures ValidLines(MainLines(to))
    ensures forall i :: 2 <= i < 5 || i == 6 ==>
              MovedLine(FullPlan(to), MAIN, MainLines(to)[i]) == Ok(MainMoved(to)[i])
  {
    FullTargets(to);
    FullResolves(to);
    hide Retargeted, Plan.CodeRef, Insn.Target, Occurs, MovedLine, Pattern;
    DataReferenceMoves(to);
    BranchesMove(to);
  }

  lemma DataReferenceMoves(to: Way)
    ensures ValidLines(MainLines(to))
    ensures MovedLine(FullPlan(to), MAIN, MainLines(to)[2]) == Ok(MainMoved(to)[2])
  {
    FullTargets(to);
    FullResolves(to);
    LeaOnce();
    hide Retargeted, Plan.CodeRef, Insn.Target, Occurs, MovedLine, Pattern;
    ReferenceMoves(FullPlan(to), MAIN, MainLines(to)[2], 0x9000);
  }

  lemma BranchesMove(to: Way)
    ensures ValidLines(MainLines(to))
    ensures forall i :: 3 <= i < 5 || i == 6 ==>
              MovedLine(FullPlan(to), MAIN, MainLines(to)[i]) == Ok(MainMoved(to)[i])
  {
    FullTargets(to);
    FullResolves(to);
    EnterOnce();
    ExitOnce(to);
    DieOnce();
    hide Retargeted, Plan.CodeRef, Insn.Target, Occurs, MovedLine, Pattern;
    ReferenceMoves(FullPlan(to), MAIN, MainLines(to)[3], 0x12000);
    ReferenceMoves(FullPlan(to), MAIN, MainLines(to)[4], 0x10000);
    ReferenceMoves(FullPlan(to), MAIN, MainLines(to)[6], 0x12000);
  }

  lemma FullMoves(to: Way)
    ensures ValidLines(MainLines(to)) && ValidLines(HelperLines())
    ensures forall i :: 0 <= i < 7 ==> MovedLine(FullPlan(to), MAIN, MainLines(to)[i]) == Ok(MainMoved(to)[i])
    ensures MovedLine(FullPlan(to), HELPER, HelperLines()[0]) == Ok(NOP)
    ensures MovedLine(FullPlan(to), HELPER, HelperLines()[1]) == Ok(RET)
  {
    FullTargets(to);
    ReferencesMove(to);
    hide Retargeted, Plan.CodeRef, Insn.Target, Rel32;
    assert MovedLine(FullPlan(to), MAIN, MainLines(to)[0]) == Ok(MainMoved(to)[0]);
    assert MovedLine(FullPlan(to), MAIN, MainLines(to)[1]) == Ok(MainMoved(to)[1]);
    assert MovedLine(FullPlan(to), MAIN, MainLines(to)[5]) == Ok(MainMoved(to)[5]);
  }

  lemma LeaOnce()
    ensures LEA.WellFormed()
    ensures forall j :: Occurs(LEA.raw, Pattern(LEA.raw, 0x1013, LEA.Target(0x1013)), j) ==> j == 3
  {
    assert LEA.raw[3..7] == [0xe6, 0x3f, 0x00, 0x00];
    assert LEA.Target(0x1013) == 0x5000;
    hide Insn.Target;
    assert Pattern(LEA.raw, 0x1013, 0x5000) == [0xe6, 0x3f, 0x00, 0x00];
    hide Pattern;
    OnlyThere(LEA.raw, Pattern(LEA.raw, 0x1013, 0x5000), 3);
  }

  lemma EnterOnce()
    ensures ENTER.WellFormed()
    ensures forall j :: Occurs(ENTER.raw, Pattern(ENTER.raw, 0x101a, ENTER.Target(0x101a)), j) ==> j == 1
  {
    assert ENTER.raw[1..5] == [0xe1, 0x0f, 0x00, 0x00];
    assert ENTER.Target(0x101a) == 0x2000;
    hide Insn.Target;
    assert Pattern(ENTER.raw, 0x101a, 0x2000) == [0xe1, 0x0f, 0x00, 0x00];
    hide Pattern;
    OnlyThere(ENTER.raw, Pattern(ENTER.raw, 0x101a, 0x2000), 1);
  }

  lemma DieOnce()
    ensures DIE.WellFormed()
    ensures forall j :: Occurs(DIE.raw, Pattern(DIE.raw, 0x1026, DIE.Target(0x1026)), j) ==> j == 1
  {
    assert DIE.raw[1..5] == [0xd5, 0x0f, 0x00, 0x00];
    assert DIE.Target(0x1026) == 0x2000;
    hide Insn.Target;
    assert Pattern(DIE.raw, 0x1026, 0x2000) == [0xd5, 0x0f, 0x00, 0x00];
    hide Pattern;
    OnlyThere(DIE.raw, Pattern(DIE.raw, 0x1026, 0x2000), 1);
  }

  lemma ExitOnce(to: Way)
    ensures Exit(to).WellFormed()
    ensures forall j :: Occurs(Exit(to).raw, Pattern(Exit(to).raw, 0x101f, Exit(to).Target(0x101f)), j) ==> j == 2
  {
    FullTargets(to);
    hide Insn.Target;
    assert Pattern(Exit(to).raw, 0x101f, to) == Exit(to).raw[2..6];
    hide Pattern;
    OnlyThere(Exit(to).raw, Pattern(Exit(to).raw, 0x101f, to), 2);
  }

  lemma FullResolves(to: Way)
    ensures FullPlan(to).CodeRef(0x5000) == None && FullPlan(to).data(0x5000) == Some(0x9000)
    ensures FullPlan(to).CodeRef(0x2000) == Some(0x12000) && FullPlan(to).CodeRef(to) == Some(0x10000)
  {
  }

  function FullImage(to: Way): map<int, Insn> {
    var moved := MainMoved(to);
    map[0x11000 := moved[0], 0x1100c := moved[1], 0x11013 := moved[2], 0x1101a := moved[3], 0x1101f := moved[4],
        0x11025 := moved[5], 0x11026 := moved[6], 0x12000 := NOP, 0x12001 := RET]
  }

  lemma MainLinesEmitted(to: Way)
    ensures ValidLines(MainLines(to)) && LinesEmitted(FullPlan(to), MAIN, MainLines(to), 7, FullImage(to))
  {
    FullMoves(to);
    hide MovedLine, MainMoved, Insn.Target, Insn.WellFormed, Exit;
  }

  lemma HelperLinesEmitted(to: Way)
    ensures ValidLines(HelperLines()) && LinesEmitted(FullPlan(to), HELPER, HelperLines(), 2, FullImage(to))
  {
    FullMoves(to);
    hide MovedLine, MainMoved, Insn.Target, Insn.WellFormed, MainLines, Exit;
  }

  lemma EmittedIsMovable(plan: Plan, f: Symbol, lines: seq<Line>, image: map<int, Insn>)
    requires ValidLines(lines) && f.addr in plan.base && LinesEmitted(plan, f, lines, |lines|, image)
    requires forall i :: 0 <= i < |lines| && AfterRead(lines, i) ==> LoadsSlot(lines[i].insn)
    ensures Movable(plan, f, lines, |lines|)
  {
    hide MovedLine, LoadsSlot, AfterRead;
  }

  lemma FullIsMovable(to: Way)
    ensures ValidLines(MainLines(to)) && ValidLines(HelperLines())
    ensures Movable(FullPlan(to), MAIN, MainLines(to), 7) && Movable(FullPlan(to), HELPER, HelperLines(), 2)
    ensures ReadsThreadPointer(MainLines(to), 7)
  {
    MainLinesEmitted(to);
    HelperLinesEmitted(to);
    hide MovedLine, LinesEmitted, Movable, Insn.WellFormed, FullImage;
    assert LoadsSlot(SLOT) by { assert SLOT.raw[3..] == TLS_SLOT_DISP; }
    hide LoadsSlot;
    assert MainLines(to)[0].insn.raw == TLS_READ_FS;
    EmittedIsMovable(FullPlan(to), MAIN, MainLines(to), FullImage(to));
    EmittedIsMovable(FullPlan(to), HELPER, HelperLines(), FullImage(to));
  }

  lemma FullIsEmitted(to: Way)
    ensures FullPlan(to).Valid() && Emitted(FullPlan(to), FullImage(to)) && Emittable(FullPlan(to))
  {
    MainIsEmitted(to);
    HelperIsEmitted(to);
    hide Plan.Valid, FullImage, FunctionMovable, FunctionReads, FunctionEmitted;
  }

  lemma MainIsEmitted(to: Way)
    ensures FullPlan(to).Valid() && FunctionEmitted(FullPlan(to), 0x1000, FullImage(to))
    ensures FunctionMovable(FullPlan(to), 0x1000) && FunctionReads(FullPlan(to), 0x1000)
  {
    FullPlanIsValid(to);
    MainLinesEmitted(to);
    FullIsMovable(to);
    hide MovedLine, Plan.Valid, LinesEmitted, Movable, ReadsThreadPointer, FullImage;
    BodyFacts(FullPlan(to), MAIN);
  }

  lemma HelperIsEmitted(to: Way)
    ensures FullPlan(to).Valid() && FunctionEmitted(FullPlan(to), 0x2000, FullImage(to))
    ensures FunctionMovable(FullPlan(to), 0x2000)
  {
    FullPlanIsValid(to);
    HelperLinesEmitted(to);
    FullIsMovable(to);
    hide MovedLine, Plan.Valid, LinesEmitted, Movable, ReadsThreadPointer, FullImage;
    BodyFacts(FullPlan(to), HELPER);
  }

  lemma FullIsApart(to: Way)
    ensures Apart(FullPlan(to))
  {
    FullHasNoOverlap(to);
    forall f, a | f in FullPlan(to).chosen && HasLine(FullPlan(to), f, a)
      ensures FoundAs(FullPlan(to).p, f, a)
    {
      FunctionAtAddress(to, a);
    }
  }

  lemma FullHasNoOverlap(to: Way)
    ensures NoOverlap(Full(to))
  {
  }

  lemma FunctionAtAddress(to: Way, a: int)
    requires 0x1000 <= a < 0x102b || 0x2000 <= a < 0x2002
    ensures FunctionAt(Full(to).functions, a) == Some(if a < 0x2000 then MAIN else HELPER)
  {
    assert Full(to).functions[1..] == [HELPER, ABORT];
  }

  lemma FullTiles(to: Way)
    ensures FullPlan(to).Valid() && Tiles(FullPlan(to), 0x1000) && Tiles(FullPlan(to), 0x2000)
  {
    FullPlanIsValid(to);
    FullTargets(to);
    hide Plan.Valid, Insn.Target;
  }

  lemma PlainIsEncodable(plan: Plan, f: Symbol, line: Line)
    requires line.insn.WellFormed() && f.addr in plan.base && !line.insn.Relative()
    requires line.insn.raw == TLS_READ_FS <==> line.insn.op == TlsRead
    ensures LineEncodable(plan, f, line)
  {
  }

  lemma ReferenceIsEncodable(plan: Plan, f: Symbol, line: Line, symbol: int)
    requires line.insn.WellFormed() && f.addr in plan.base && line.insn.Relative() && |line.insn.raw| < 12
    requires !line.insn.Direct() ==> FindsDisplacement(line.insn, line.addr)
    requires Resolve(plan, line.insn, line.insn.Target(line.addr)) == Some(symbol)
    requires -0x8000_0000 <= symbol - (plan.NewAddress(f.addr, line.addr) + |line.insn.raw|) < 0x8000_0000
    ensures LineEncodable(plan, f, line)
  {
    hide FindsDisplacement, Resolve, Insn.Target;
  }

  lemma PlainLinesEncodable(to: Way)
    ensures ValidLines(MainLines(to)) && ValidLines(HelperLines())
    ensures forall i :: i == 0 || i == 1 || i == 5 ==> LineEncodable(FullPlan(to), MAIN, MainLines(to)[i])
    ensures forall i :: 0 <= i < 2 ==> LineEncodable(FullPlan(to), HELPER, HelperLines()[i])
  {
    FullTargets(to);
    hide Insn.Target, LineEncodable, Plan.CodeRef;
    PlainIsEncodable(FullPlan(to), MAIN, MainLines(to)[0]);
    PlainIsEncodable(FullPlan(to), MAIN, MainLines(to)[1]);
    PlainIsEncodable(FullPlan(to), MAIN, MainLines(to)[5]);
    PlainIsEncodable(FullPlan(to), HELPER, HelperLines()[0]);
    PlainIsEncodable(FullPlan(to), HELPER, HelperLines()[1]);
  }

  lemma ReferencesEncodable(to: Way)
    ensures ValidLines(MainLines(to))
    ensures forall i :: 2 <= i < 5 || i == 6 ==> LineEncodable(FullPlan(to), MAIN, MainLines(to)[i])
  {
    FullTargets(to);
    FullResolves(to);
    LeaFound();
    hide Insn.Target, FindsDisplacement, Plan.CodeRef, LineEncodable;
    ReferenceIsEncodable(FullPlan(to), MAIN, MainLines(to)[2], 0x9000);
    ReferenceIsEncodable(FullPlan(to), MAIN, MainLines(to)[3], 0x12000);
    ReferenceIsEncodable(FullPlan(to), MAIN, MainLines(to)[4], 0x10000);
    ReferenceIsEncodable(FullPlan(to), MAIN, MainLines(to)[6], 0x12000);
  }

  lemma LeaFound()
    ensures LEA.WellFormed() && FindsDisplacement(LEA, 0x1013)
  {
    hide Insn.Target, FindsDisplacement, Occurs, Pattern, Rel32, Retargeted;
    LeaOnce();
    OccursOnce(LEA, 0x1013, 0x11013, 0x9000);
  }

  lemma FullIsEncodable(to: Way)
    ensures FullPlan(to).Valid() && Encodable(FullPlan(to), 0x1000) && Encodable(FullPlan(to), 0x2000)
  {
    FullPlanIsValid(to);
    PlainLinesEncodable(to);
    ReferencesEncodable(to);
    hide Plan.Valid, LineEncodable;
    BodyFacts(FullPlan(to), MAIN);
    BodyFacts(FullPlan(to), HELPER);
  }

  lemma FullIsTransplantable(to: Way)
    ensures FullPlan(to).Valid() && Transplantable(FullPlan(to))
    ensures TrapsOutside(FullPlan(to)) <==> to == 0x3000
  {
    FullPlanIsValid(to);
    FullTiles(to);
    FullIsEncodable(to);
    FullIsApart(to);
    hide Plan.Valid, Insn.Target, Tiles, Encodable, Apart;
    assert HelperLines()[1].addr == 0x2001;
    assert HasLine(FullPlan(to), 0x2000, 0x2001);
    assert InCopied(FullPlan(to), to) <==> to == 0x2001;
  }

  // The entry ends with a call that can come back, and what lies behind it is not copied.
  lemma FullSeamsHold(to: Way)
    ensures FullPlan(to).Valid() && SeamsHold(FullPlan(to))
  {
    FullPlanIsValid(to);
    FullTargets(to);
    hide Plan.Valid, Insn.Target, Corresponds;
    assert !InCopied(FullPlan(to), 0x102b);
    assert !ComesPast(FullPlan(to), HelperLines()[1]);
    hide InCopied, ComesPast;
  }

  // The layout the generator makes of it, with the stub in front.
  function FullOrder(): seq<Placed> { [Placed(MAIN, 0, 0), Placed(HELPER, 0xfd5, 0x1000)] }

  lemma FullOrderIsLaid()
    ensures PageCongruent(FullOrder()) && Greedy(FullOrder(), []) && Distinct(FullOrder())
  {
    var order := FullOrder();
    assert order[..0] == [] && order[..1] == [Placed(MAIN, 0, 0)];
  }

  lemma FullBases(to: Way)
    ensures Bases(0x11000, FullOrder()) == FullPlan(to).base
  {
    var order := FullOrder();
    assert order[..1] == [Placed(MAIN, 0, 0)];
    assert order[..1][..0] == [];
    assert Bases(0x11000, order[..1]) == map[0x1000 := 0x11000];
  }

  lemma FullIsMade(to: Way)
    ensures Placement(FullPlan(to), FullOrder(), 0x11000).Made(Full(to), MAIN, 0x10000, FullPlan(to).data)
  {
    FullPlanIsValid(to);
    FullOrderIsLaid();
    FullBases(to);
    FullKeys(to);
    hide Plan.Valid, Bases, PageCongruent, Greedy, Distinct;
    assert FullOrder()[0].f == MAIN && FullOrder()[1].f == HELPER;
    assert FullPlan(to).base[0x1000] == 0x11000 && FullPlan(to).base[0x2000] == 0x12000;
  }

  /* ---------------- a meaning for its instructions ---------------- */

  // Memory cell 0 is the register the address is taken into, 1 holds a number that plain
  // instructions compute, 2 the thread pointer. The branch tests cell 1, and a call or
  // jump through a register goes where cell 0 says.
  function Meaning(): Semantics {
    Semantics(
      (shape, d) => d[1 := Num(|shape|)],
      (shape, d) => 1 in d && d[1] == Num(7),
      (shape, d, a) => d[0 := Addr(a)],
      (raw, d) => d[2 := Num(if raw == TLS_READ_FS || raw == TLS_READ_GS then 40 else 0)],
      (shape, d) => Cell(d),
      (shape, d, a) => Addr(a))
  }

  lemma UpdatesRelated(plan: Plan)
    ensures forall d, e, k, v, w {:trigger RelatedData(plan, d[k := v], e[k := w])} ::
              RelatedData(plan, d, e) && RelatedVal(plan, v, w) ==> RelatedData(plan, d[k := v], e[k := w])
  {
    hide RelatedVal;
  }

  lemma MeaningIsUniform(plan: Plan)
    ensures Uniform(plan, Meaning())
  {
    hide RelatedAddr;
    UpdatesRelated(plan);
    forall d, e | RelatedData(plan, d, e)
      ensures 1 in d ==> 1 in e && (d[1] == Num(7) <==> e[1] == Num(7))
      ensures 1 in e ==> 1 in d
      ensures RelatedVal(plan, Cell(d), Cell(e))
    {
      CellsRelated(plan, d, e);
      if 1 in d { assert RelatedVal(plan, d[1], e[1]); }
    }
    hide RelatedData, Cell;
  }

  // Everything assumed holds together: of a plan, an image the generator accepts, a
  // meaning that depends on the data, and data that hold a code address.
  lemma AssumptionsCanBeMet(to: Way)
    requires to == 0x3000
    ensures var plan, image := FullPlan(to), FullImage(to);
            var d, e := map[0 := Addr(0x2000), 1 := Num(7)], map[0 := Addr(0x12000), 1 := Num(7)];
            && Placement(plan, FullOrder(), 0x11000).Made(Full(to), MAIN, 0x10000, plan.data)
            && Transplantable(plan) && TrapsOutside(plan) && SeamsHold(plan) && Emittable(plan) && Emitted(plan, image)
            && Uniform(plan, Meaning())
            && InStep(plan, State(0x1000, [], d), State(0x11000, [], e))
  {
    FullIsEmitted(to);
    FullIsTransplantable(to);
    FullSeamsHold(to);
    FullIsMade(to);
    MeaningIsUniform(FullPlan(to));
    hide Plan.Valid, LaidOut, Transplantable, TrapsOutside, SeamsHold, Emittable, Emitted, Uniform, InStep, FullImage,
         Plan.CodeRef;
    FullEntry(to, map[0 := Addr(0x2000), 1 := Num(7)], map[0 := Addr(0x12000), 1 := Num(7)]);
  }

  lemma FullEntry(to: Way, d: Data, e: Data)
    requires FullPlan(to).Valid() && Transplantable(FullPlan(to))
    requires d == map[0 := Addr(0x2000), 1 := Num(7)] && e == map[0 := Addr(0x12000), 1 := Num(7)]
    ensures InStep(FullPlan(to), State(0x1000, [], d), State(0x11000, [], e))
  {
    FullResolves(to);
    hide Plan.Valid, Transplantable, InStep, Plan.CodeRef;
    EntryInStep(FullPlan(to), d, e);
  }

  /* ---------------- a branch into the middle of a copied function ---------------- */

  // The original runs from its entry to the branch.
  lemma RunsToBranch(to: Way, d: Data) returns (s: seq<State>)
    ensures |s| == 7 && s[0] == State(0x1000, [], d) && s[6] == State(0x101f, [], d)
    ensures forall i :: 0 <= i < 6 ==> Step(Full(to).insns, Probing(true), s[i]) == Some(s[i + 1])
    ensures s[1].pc == 0x100c && s[2].pc == 0x1013 && s[3].pc == 0x101a && s[4].pc == 0x2000 && s[5].pc == 0x2001
  {
    RunsToCall(to, d);
    RunsThroughCall(to, d);
    hide Step, Full;
    s := [State(0x1000, [], d), State(0x100c, [], d), State(0x1013, [], d), State(0x101a, [], d),
          State(0x2000, [0x101f], d), State(0x2001, [0x101f], d), State(0x101f, [], d)];
  }

  lemma RunsToCall(to: Way, d: Data)
    ensures Step(Full(to).insns, Probing(true), State(0x1000, [], d)) == Some(State(0x100c, [], d))
    ensures Step(Full(to).insns, Probing(true), State(0x100c, [], d)) == Some(State(0x1013, [], d))
    ensures Step(Full(to).insns, Probing(true), State(0x1013, [], d)) == Some(State(0x101a, [], d))
  {
    FullTargets(to);
    hide Insn.Target, Insn.Shape, Insn.WellFormed, Exit;
  }

  lemma RunsThroughCall(to: Way, d: Data)
    ensures Step(Full(to).insns, Probing(true), State(0x101a, [], d)) == Some(State(0x2000, [0x101f], d))
    ensures Step(Full(to).insns, Probing(true), State(0x2000, [0x101f], d)) == Some(State(0x2001, [0x101f], d))
    ensures Step(Full(to).insns, Probing(true), State(0x2001, [0x101f], d)) == Some(State(0x101f, [], d))
  {
    FullTargets(to);
    hide Insn.Target, Insn.Shape, Insn.WellFormed, Exit;
    var none: seq<int> := [];
    assert [0x101f] + none == [0x101f] && [0x101f][1..] == none;
  }

  lemma PcsAreCopied(to: Way)
    ensures FullPlan(to).Valid()
    ensures forall a :: a in {0x100c, 0x1013, 0x101a, 0x101f, 0x2000, 0x2001} ==> InCopied(FullPlan(to), a)
  {
    FullPlanIsValid(to);
    hide Plan.Valid;
    var main, helper := MainLines(to), HelperLines();
    assert main[1].addr == 0x100c && main[2].addr == 0x1013 && main[3].addr == 0x101a && main[4].addr == 0x101f;
    assert helper[0].addr == 0x2000 && helper[1].addr == 0x2001;
    assert HasLine(FullPlan(to), 0x1000, 0x100c) && HasLine(FullPlan(to), 0x1000, 0x1013);
    assert HasLine(FullPlan(to), 0x1000, 0x101a) && HasLine(FullPlan(to), 0x1000, 0x101f);
    assert HasLine(FullPlan(to), 0x2000, 0x2000) && HasLine(FullPlan(to), 0x2000, 0x2001);
  }

  // While the original stays in copied code, machines in lockstep are in step.
  lemma {:induction false} InStepAlong(plan: Plan, sem: Semantics, code: map<int, Insn>, image: map<int, Insn>,
                                       s: seq<State>, t: State) returns (u: State)
    requires |s| >= 2 && forall j :: 0 <= j < |s| - 1 ==> Step(code, sem, s[j]) == Some(s[j + 1])
    requires forall j :: 0 < j < |s| ==> InCopied(plan, s[j].pc)
    requires Lockstep(plan, sem, code, image, s[0], t, |s|)
    ensures InStep(plan, s[|s| - 1], u) && Lockstep(plan, sem, code, image, s[|s| - 1], u, 1)
  {
    hide InCopied, InStep, Step;
    assert Step(code, sem, s[0]) == Some(s[0 + 1]);
    u := Step(image, sem, t).value;
    if |s| > 2 {
      u := InStepAlong(plan, sem, code, image, s[1..], u);
    }
  }

  // The generator accepts this program, and the seventh step from the entry parts the
  // machines: the original goes on inside the copied function, the copy stops at a stub.
  lemma BranchIntoCopyParts(to: Way, d: Data, t: State)
    requires to == 0x2001
    ensures var plan, image := FullPlan(to), FullImage(to);
            && Placement(plan, FullOrder(), 0x11000).Made(Full(to), MAIN, 0x10000, plan.data)
            && Transplantable(plan) && Emittable(plan) && Emitted(plan, image)
            && SeamsHold(plan) && !TrapsOutside(plan)
            && !Lockstep(plan, Probing(true), plan.p.insns, image, State(0x1000, [], d), t, 7)
  {
    FullIsEmitted(to);
    FullIsTransplantable(to);
    PcsAreCopied(to);
    FullSeamsHold(to);
    FullIsMade(to);
    hide Plan.Valid, LaidOut, Transplantable, TrapsOutside, SeamsHold, Emittable, Emitted, InStep, FullImage,
         Lockstep, InCopied, Step, Full;
    var s := RunsToBranch(to, d);
    if Lockstep(FullPlan(to), Probing(true), Full(to).insns, FullImage(to), s[0], t, 7) {
      var u := InStepAlong(FullPlan(to), Probing(true), Full(to).insns, FullImage(to), s, t);
      BranchParts(to, s[6], u);
    }
  }

  lemma BranchParts(to: Way, s: State, t: State)
    requires to == 0x2001 && FullPlan(to).Valid() && InStep(FullPlan(to), s, t) && s.pc == 0x101f
    ensures !Lockstep(FullPlan(to), Probing(true), Full(to).insns, FullImage(to), s, t, 1)
  {
    FullIsEmitted(to);
    FullIsTransplantable(to);
    PcsAreCopied(to);
    FullTargets(to);
    hide Plan.Valid, Transplantable, TrapsOutside, Emittable, Emitted, FullImage, Lockstep, InCopied, Insn.Target, Full;
    assert Corresponds(FullPlan(to), s.pc, t.pc);
    hide InStep;
    var x := BranchSite(to, t.pc);
    PartAt(FullPlan(to), Probing(true), FullImage(to), x, s, t);
  }

  lemma BranchSite(to: Way, b: int) returns (x: Site)
    requires FullPlan(to).Valid() && Corresponds(FullPlan(to), 0x101f, b)
    ensures AtSite(FullPlan(to), x, 0x101f, b) && x == Site(0x1000, 4)
  {
    hide Plan.Valid, Corresponds, Full;
    x := CorrespondingSite(FullPlan(to), 0x101f, b);
  }
}
