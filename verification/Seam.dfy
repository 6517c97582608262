/**
 A program whose copy is torn at a seam: the entry ends with a call, and what lies
 directly behind it is a copied function, to which the call returns. The two lie in
 different pages, and the layout puts the second one first.
 */
module Seam {
  import opened Wrappers
  import opened Words
  import opened Binary
  import opened Closure
  import opened Layout
  import opened Relocation
  import opened Transplant
  import opened Simulation
  import opened Exhibits

  // A call of the next address.
  const ONWARD: Insn := Insn([0xe8, 0x00, 0x00, 0x00, 0x00], Call, Disp(1, 4))

  const FIRST: Symbol := Symbol(0x1fe8, 0x18, "hash")
  const SECOND: Symbol := Symbol(0x2000, 1, "helper")

  // The address of the entry, as a variable.
  type Start = a: int | a == 0x1fe8 witness 0x1fe8

  function FirstLines(a: Start): seq<Line> {
    [Line(a, READ), Line(0x1ff4, SLOT), Line(0x1ffb, ONWARD)]
  }

  function SecondLines(): seq<Line> { [Line(0x2000, RET)] }

  function Torn(a: Start): Program {
    Program([FIRST, SECOND], {"hash", "helper"},
            map[a as int := READ, 0x1ff4 := SLOT, 0x1ffb := ONWARD, 0x2000 := RET])
  }

  function TornPlan(a: Start): Plan {
    Plan(Torn(a), FIRST, map[a as int := FIRST, 0x2000 := SECOND],
         map[a as int := FirstLines(a), 0x2000 := SecondLines()],
         {}, map[a as int := 0x11fe8, 0x2000 := 0x11000], map[], _ => None)
  }

  function TornImage(a: Start): map<int, Insn> {
    OnwardTarget(a);
    map[0x11000 := RET, 0x11fe8 := READ.(raw := TLS_READ_GS), 0x11ff4 := SLOT,
        0x11ffb := ONWARD.(raw := Retargeted(ONWARD, 0x11ffb, 0x11000))]
  }

  /* ---------------- the plan ---------------- */

  lemma OnwardTarget(a: Start)
    ensures READ.WellFormed() && SLOT.WellFormed() && RET.WellFormed() && Torn(a).Valid()
    ensures ONWARD.WellFormed() && ONWARD.Target(0x1ffb) == 0x2000
  {
    assert ONWARD.raw[1..5] == [0, 0, 0, 0];
  }

  lemma TornBodies(a: Start)
    ensures Torn(a).Valid()
    ensures BodyOf(Torn(a), FIRST) == Some(FirstLines(a)) && BodyOf(Torn(a), SECOND) == Some(SecondLines())
    ensures forall t :: BranchesTo(Torn(a), FIRST, t) <==> t == 0x2000
    ensures forall t :: !BranchesTo(Torn(a), SECOND, t)
  {
    OnwardTarget(a);
    TornContiguous(a);
    hide Insn.Target, Contiguous, BodyFrom;
    BodyIs(Torn(a), FirstLines(a), 0x1fe8, 0x2000);
    BodyIs(Torn(a), SecondLines(), 0x2000, 0x2001);
    hide BodyOf, Torn;
    LinesAreValid(Torn(a), FIRST, FirstLines(a));
    LinesAreValid(Torn(a), SECOND, SecondLines());
    assert Exits(FIRST, FirstLines(a)[2], 0x2000);
  }

  lemma TornContiguous(a: Start)
    ensures Contiguous(FirstLines(a), 0x1fe8, 0x2000) && Contiguous(SecondLines(), 0x2000, 0x2001)
  {
    var l1 := [Line(0x1ffb, ONWARD)];
    var l2 := [Line(0x1ff4, SLOT)] + l1;
    assert l1[1..] == [] && l2[1..] == l1 && FirstLines(a)[1..] == l2 && SecondLines()[1..] == [];
    assert Contiguous(l1, 0x1ffb, 0x2000);
    assert Contiguous(l2, 0x1ff4, 0x2000);
  }

  lemma TornCopied(a: Start)
    ensures forall t :: Copied(Torn(a), t) <==> t == 0x1fe8 || t == 0x2000
    ensures Torn(a).ByAddr(0x2000) == Some(SECOND) && Torn(a).ByAddr(0x1fe8) == Some(FIRST)
  {
    var fs: seq<Symbol> := Torn(a).functions;
    var none: seq<Symbol> := [];
    assert fs[1..] == [SECOND] && [SECOND][1..] == none;
    forall t
      ensures FirstAt(fs, t) == if t == 0x1fe8 then Some(FIRST) else if t == 0x2000 then Some(SECOND) else None
    {
      assert FirstAt([SECOND], t) == if t == 0x2000 then Some(SECOND) else None;
    }
  }

  lemma TornIsReachable(a: Start)
    ensures Torn(a).Valid() && forall t :: Reachable(Torn(a), FIRST, t) <==> t == 0x1fe8 || t == 0x2000
  {
    hide BodyOf, BranchesTo, Reachable, Copied;
    TornBodies(a);
    TornCopied(a);
    TwoReachable(Torn(a), FIRST, SECOND, FirstLines(a), SecondLines());
  }

  lemma TornIsSound(a: Start)
    ensures Torn(a).Valid() && Sound(Torn(a), FIRST, TornPlan(a).chosen, TornPlan(a).body)
    ensures TrapsExact(Torn(a), TornPlan(a).chosen, {})
  {
    hide BodyOf, BranchesTo, Reachable, Copied;
    TornBodies(a);
    TornCopied(a);
    TornIsReachable(a);
  }

  lemma TornKeys(a: Start)
    ensures TornPlan(a).base.Keys == TornPlan(a).chosen.Keys == {0x1fe8, 0x2000}
    ensures TornPlan(a).stub.Keys == TornPlan(a).traps == {}
    ensures TornPlan(a).Disjoint()
  {
    assert TornPlan(a).base[0x1fe8] == 0x11fe8 && TornPlan(a).base[0x2000] == 0x11000;
    assert TornPlan(a).chosen[0x1fe8].size == 0x18 && TornPlan(a).chosen[0x2000].size == 1;
  }

  lemma TornPlanIsValid(a: Start)
    ensures TornPlan(a).Valid()
  {
    TornKeys(a);
    hide Sound, TrapsExact, Reachable, Plan.Disjoint, Program.Valid;
    TornIsReachable(a);
    TornIsSound(a);
  }

  // The layout starts with the function whose place in its page comes first.
  function TornOrder(): seq<Placed> { [Placed(SECOND, 0, 0), Placed(FIRST, 0xfe7, 0xfe8)] }

  lemma TornOrderIsLaid()
    ensures PageCongruent(TornOrder()) && Greedy(TornOrder(), []) && Distinct(TornOrder())
  {
    assert TornOrder()[..0] == [] && TornOrder()[..1] == [Placed(SECOND, 0, 0)];
  }

  lemma TornBases(a: Start)
    ensures Bases(0x11000, TornOrder()) == TornPlan(a).base
  {
    var order := TornOrder();
    assert order[..1] == [Placed(SECOND, 0, 0)];
    assert order[..1][..0] == [];
    assert Bases(0x11000, order[..1]) == map[0x2000 := 0x11000];
  }

  lemma TornIsMade(a: Start)
    ensures Placement(TornPlan(a), TornOrder(), 0x11000).Made(Torn(a), FIRST, 0x11000, TornPlan(a).data)
  {
    TornPlanIsValid(a);
    TornOrderIsLaid();
    TornBases(a);
    TornKeys(a);
    hide Plan.Valid, Bases, PageCongruent, Greedy, Distinct;
    assert TornOrder()[0].f == SECOND && TornOrder()[1].f == FIRST;
    assert TornPlan(a).base[0x1fe8] == 0x11fe8 && TornPlan(a).base[0x2000] == 0x11000;
  }

  /* ---------------- the image ---------------- */

  lemma OnwardOnce()
    ensures ONWARD.WellFormed()
    ensures forall j :: Occurs(ONWARD.raw, Pattern(ONWARD.raw, 0x1ffb, ONWARD.Target(0x1ffb)), j) ==> j == 1
  {
    assert ONWARD.raw[1..5] == [0, 0, 0, 0];
    assert ONWARD.Target(0x1ffb) == 0x2000;
    hide Insn.Target;
    assert Pattern(ONWARD.raw, 0x1ffb, 0x2000) == [0, 0, 0, 0];
    hide Pattern;
    OnlyThere(ONWARD.raw, Pattern(ONWARD.raw, 0x1ffb, 0x2000), 1);
  }

  lemma TornMoves(a: Start)
    ensures ValidLines(FirstLines(a)) && ValidLines(SecondLines())
    ensures LinesEmitted(TornPlan(a), FIRST, FirstLines(a), 3, TornImage(a))
    ensures LinesEmitted(TornPlan(a), SECOND, SecondLines(), 1, TornImage(a))
  {
    OnwardTarget(a);
    OnwardOnce();
    assert TornPlan(a).CodeRef(0x2000) == Some(0x11000);
    hide Retargeted, Plan.CodeRef, Insn.Target, Occurs, Pattern;
    ReferenceMoves(TornPlan(a), FIRST, FirstLines(a)[2], 0x11000);
    assert MovedLine(TornPlan(a), FIRST, FirstLines(a)[0]) == Ok(READ.(raw := TLS_READ_GS));
    assert MovedLine(TornPlan(a), FIRST, FirstLines(a)[1]) == Ok(SLOT);
    assert MovedLine(TornPlan(a), SECOND, SecondLines()[0]) == Ok(RET);
    hide MovedLine;
  }

  lemma TornIsMovable(a: Start)
    ensures ValidLines(FirstLines(a)) && ValidLines(SecondLines())
    ensures Movable(TornPlan(a), FIRST, FirstLines(a), 3) && Movable(TornPlan(a), SECOND, SecondLines(), 1)
    ensures ReadsThreadPointer(FirstLines(a), 3)
  {
    TornMoves(a);
    hide MovedLine, LinesEmitted, Movable, Insn.WellFormed, TornImage;
    assert LoadsSlot(SLOT) by { assert SLOT.raw[3..] == TLS_SLOT_DISP; }
    hide LoadsSlot;
    assert FirstLines(a)[0].insn.raw == TLS_READ_FS;
    EmittedIsMovable(TornPlan(a), FIRST, FirstLines(a), TornImage(a));
    EmittedIsMovable(TornPlan(a), SECOND, SecondLines(), TornImage(a));
  }

  lemma TornIsEmitted(a: Start)
    ensures TornPlan(a).Valid() && Emitted(TornPlan(a), TornImage(a)) && Emittable(TornPlan(a))
  {
    TornPlanIsValid(a);
    TornMoves(a);
    TornIsMovable(a);
    hide MovedLine, Plan.Valid, LinesEmitted, Movable, ReadsThreadPointer, TornImage;
    BodyFacts(TornPlan(a), FIRST);
    BodyFacts(TornPlan(a), SECOND);
    assert FunctionReads(TornPlan(a), 0x1fe8);
  }

  /* ---------------- what is assumed, and what does not hold ---------------- */

  lemma TornIsApart(a: Start)
    ensures Apart(TornPlan(a))
  {
    assert NoOverlap(Torn(a));
    assert Torn(a).functions[1..] == [SECOND];
    hide NoOverlap;
  }

  lemma TornIsEncodable(a: Start)
    ensures TornPlan(a).Valid() && Encodable(TornPlan(a), 0x1fe8) && Encodable(TornPlan(a), 0x2000)
  {
    TornPlanIsValid(a);
    OnwardTarget(a);
    assert TornPlan(a).CodeRef(0x2000) == Some(0x11000);
    LinesEncodable(a);
    hide Plan.Valid, Plan.CodeRef, Insn.Target, LineEncodable, Insn.WellFormed;
    BodyFacts(TornPlan(a), FIRST);
    BodyFacts(TornPlan(a), SECOND);
  }

  lemma LinesEncodable(a: Start)
    requires TornPlan(a).Valid() && TornPlan(a).CodeRef(0x2000) == Some(0x11000)
    ensures ValidLines(FirstLines(a)) && ValidLines(SecondLines())
    ensures forall line :: line in FirstLines(a) ==> LineEncodable(TornPlan(a), FIRST, line)
    ensures forall line :: line in SecondLines() ==> LineEncodable(TornPlan(a), SECOND, line)
  {
    OnwardTarget(a);
    hide Plan.Valid, Plan.CodeRef, Insn.Target, LineEncodable;
    PlainIsEncodable(TornPlan(a), FIRST, FirstLines(a)[0]);
    PlainIsEncodable(TornPlan(a), FIRST, FirstLines(a)[1]);
    ReferenceIsEncodable(TornPlan(a), FIRST, FirstLines(a)[2], 0x11000);
    PlainIsEncodable(TornPlan(a), SECOND, SecondLines()[0]);
  }

  lemma TornIsTransplantable(a: Start)
    ensures TornPlan(a).Valid() && Transplantable(TornPlan(a)) && TrapsOutside(TornPlan(a))
  {
    TornPlanIsValid(a);
    TornIsEncodable(a);
    TornIsApart(a);
    OnwardTarget(a);
    hide Plan.Valid, Encodable, Apart, Insn.Target;
    assert Tiles(TornPlan(a), 0x1fe8) && Tiles(TornPlan(a), 0x2000);
  }

  lemma SecondIsCopied(a: Start)
    ensures InCopied(TornPlan(a), 0x2000) && InCopied(TornPlan(a), 0x1ff4) && InCopied(TornPlan(a), 0x1ffb)
  {
    assert FirstLines(a)[1].addr == 0x1ff4 && FirstLines(a)[2].addr == 0x1ffb && SecondLines()[0].addr == 0x2000;
    assert HasLine(TornPlan(a), 0x1fe8, 0x1ff4) && HasLine(TornPlan(a), 0x1fe8, 0x1ffb);
    assert HasLine(TornPlan(a), 0x2000, 0x2000);
  }

  // The end of the entry is the start of the second function; its copy ends a page
  // behind the copy of the second function.
  lemma SeamIsTorn(a: Start)
    ensures TornPlan(a).Valid() && !SeamHolds(TornPlan(a), 0x1fe8)
  {
    TornPlanIsValid(a);
    SecondIsCopied(a);
    OnwardTarget(a);
    hide Plan.Valid, Insn.Target, InCopied;
    assert !Corresponds(TornPlan(a), 0x2000, 0x12000);
    assert ComesPast(TornPlan(a), FirstLines(a)[2]);
    hide Corresponds, ComesPast;
  }

  /* ---------------- the two runs ---------------- */

  lemma OriginalRuns(a: Start, d: Data) returns (s: seq<State>)
    ensures |s| == 5 && s[0] == State(0x1fe8, [], d) && s[4] == State(0x2000, [], d)
    ensures forall i :: 0 <= i < 4 ==> Step(Torn(a).insns, Probing(true), s[i]) == Some(s[i + 1])
  {
    OnwardTarget(a);
    hide Insn.Target, Insn.Shape, Insn.WellFormed;
    var none: seq<int> := [];
    assert [0x2000] + none == [0x2000] && [0x2000][1..] == none;
    s := [State(0x1fe8, [], d), State(0x1ff4, [], d), State(0x1ffb, [], d), State(0x2000, [0x2000], d),
          State(0x2000, [], d)];
  }

  lemma MovedCall(a: Start)
    ensures TornImage(a)[0x11ffb].WellFormed() && TornImage(a)[0x11ffb].op == Call
    ensures TornImage(a)[0x11ffb].Relative() && TornImage(a)[0x11ffb].Target(0x11ffb) == 0x11000
    ensures |TornImage(a)[0x11ffb].raw| == 5
  {
    OnwardTarget(a);
    BranchesAreFound(ONWARD, 0x1ffb);
    OnwardOnce();
    hide Insn.Target, Retargeted, FindsDisplacement, Rel32, Occurs, Pattern;
    OccursOnce(ONWARD, 0x1ffb, 0x11ffb, 0x11000);
    Rel32Exact(ONWARD, 0x1ffb, 0x11ffb, 0x11000, Retargeted(ONWARD, 0x11ffb, 0x11000));
  }

  lemma CopyRuns(a: Start, d: Data) returns (t: seq<State>)
    ensures |t| == 5 && t[0] == State(0x11fe8, [], d) && t[4] == State(0x12000, [], d)
    ensures forall i :: 0 <= i < 4 ==> Step(TornImage(a), Probing(true), t[i]) == Some(t[i + 1])
  {
    OnwardTarget(a);
    MovedCall(a);
    var call := TornImage(a)[0x11ffb];
    assert READ.(raw := TLS_READ_GS).WellFormed();
    hide Insn.Target, Insn.Shape, Insn.WellFormed, Retargeted;
    var none: seq<int> := [];
    assert [0x12000] + none == [0x12000] && [0x12000][1..] == none;
    t := [State(0x11fe8, [], d), State(0x11ff4, [], d), State(0x11ffb, [], d), State(0x11000, [0x12000], d),
          State(0x12000, [], d)];
  }

  // The generator makes this plan and accepts it, and no trap target is copied. The
  // machines start in step. After four steps the original is at the second function
  // again, and the copy where nothing was emitted.
  lemma TornSeamParts(a: Start, d: Data) returns (s: seq<State>, t: seq<State>)
    ensures var plan, image := TornPlan(a), TornImage(a);
            && Placement(plan, TornOrder(), 0x11000).Made(Torn(a), FIRST, 0x11000, plan.data)
            && Transplantable(plan) && Emittable(plan) && Emitted(plan, image)
            && TrapsOutside(plan) && !SeamsHold(plan)
            && |s| == |t| == 5 && s[0] == State(FIRST.addr, [], d) && t[0] == State(plan.base[FIRST.addr], [], d)
            && (forall i :: 0 <= i < 4 ==> Step(plan.p.insns, Probing(true), s[i]) == Some(s[i + 1]))
            && (forall i :: 0 <= i < 4 ==> Step(image, Probing(true), t[i]) == Some(t[i + 1]))
            && InCopied(plan, s[4].pc) && t[4].pc !in image
  {
    TornIsMade(a);
    TornIsEmitted(a);
    TornIsTransplantable(a);
    SeamIsTorn(a);
    SecondIsCopied(a);
    hide Plan.Valid, LaidOut, Transplantable, Emittable, Emitted, TrapsOutside, SeamHolds, InCopied, Step;
    s := OriginalRuns(a, d);
    t := CopyRuns(a, d);
  }
}
