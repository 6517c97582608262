/**
 What the transplanted code does: it runs in lockstep with the original.

 Both programs run on the same small machine: a program counter, a stack of return
 addresses and a data state. The meaning of an instruction other than its control
 flow is a parameter, applied to everything the decoder sees except the displacement;
 addresses reach the data only as the value of a rip-relative operand.
 */
module Simulation {
  import opened Wrappers
  import opened Words
  import opened Binary
  import opened Closure
  import opened Layout
  import opened Relocation
  import opened Transplant

  datatype Val = Num(n: int) | Addr(a: int)

  // Registers and memory.
  type Data = map<int, Val>

  datatype Semantics = Semantics(
    plain: (seq<Byte>, Data) -> Data,
    taken: (seq<Byte>, Data) -> bool,
    reference: (seq<Byte>, Data, int) -> Data,
    threadPointer: (seq<Byte>, Data) -> Data,
    operand: (seq<Byte>, Data) -> Val,
    pointer: (seq<Byte>, Data, int) -> Val)

  datatype State = State(pc: int, calls: seq<int>, data: Data)

  // Where an indirect branch goes: what its operand says, or what lies at the address
  // its operand has relative to rip.
  function Operand(sem: Semantics, insn: Insn, s: State): Val
    requires insn.WellFormed()
  {
    if insn.Relative() then sem.pointer(insn.Shape(), s.data, insn.Target(s.pc))
    else sem.operand(insn.Shape(), s.data)
  }

  // One step, or None where the machine stops: no instruction at the pc, a return with
  // no caller, or a jump through something that is not an address.
  function Step(code: map<int, Insn>, sem: Semantics, s: State): Option<State>
  {
    if s.pc !in code || !code[s.pc].WellFormed() then None
    else
      var insn := code[s.pc];
      var next := s.pc + |insn.raw|;
      match insn.op
      case Plain => Some(s.(pc := next, data := sem.plain(insn.Shape(), s.data)))
      case TlsRead => Some(s.(pc := next, data := sem.threadPointer(insn.raw, s.data)))
      case RipRef => Some(s.(pc := next, data := sem.reference(insn.Shape(), s.data, insn.Target(s.pc))))
      case Jump => Some(s.(pc := insn.Target(s.pc)))
      case CondJump => Some(s.(pc := if sem.taken(insn.Shape(), s.data) then insn.Target(s.pc) else next))
      case Call => Some(s.(pc := insn.Target(s.pc), calls := [next] + s.calls))
      case Ret => if s.calls == [] then None else Some(s.(pc := s.calls[0], calls := s.calls[1..]))
      case IndirectJump =>
        (match Operand(sem, insn, s)
         case Num(_) => None
         case Addr(a) => Some(s.(pc := a)))
      case IndirectCall =>
        (match Operand(sem, insn, s)
         case Num(_) => None
         case Addr(a) => Some(s.(pc := a, calls := [next] + s.calls)))
  }

  /* ---------------- the address map ---------------- */

  // Address a is inside the chosen function at f, and b is the same place in its copy.
  ghost predicate SamePlace(plan: Plan, f: int, a: int, b: int) {
    f in plan.chosen && f in plan.base && Inside(plan.chosen[f], a) && b == plan.NewAddress(f, a)
  }

  // The same, at the start of an instruction.
  ghost predicate SameInsn(plan: Plan, f: int, a: int, b: int) {
    SamePlace(plan, f, a, b) && f in plan.body && exists line :: line in plan.body[f] && line.addr == a
  }

  ghost predicate Corresponds(plan: Plan, a: int, b: int) {
    exists f :: SameInsn(plan, f, a, b)
  }

  // A chosen function has an instruction at a: the original is in copied code there.
  ghost predicate InCopied(plan: Plan, a: int) {
    exists f :: f in plan.chosen && HasLine(plan, f, a)
  }

  ghost predicate HasLine(plan: Plan, f: int, a: int) {
    f in plan.body && exists line :: line in plan.body[f] && line.addr == a
  }

  // The address a trap stub stands for.
  ghost predicate AtTrap(plan: Plan, a: int, b: int) {
    a !in plan.chosen && a in plan.stub && b == plan.stub[a]
  }

  // Every address the generator can put in place of another.
  ghost predicate RelatedAddr(plan: Plan, a: int, b: int) {
    || (exists f :: SamePlace(plan, f, a, b))
    || AtTrap(plan, a, b)
    || plan.CodeRef(a) == Some(b)
    || (plan.CodeRef(a).None? && plan.data(a) == Some(b))
  }

  ghost predicate RelatedVal(plan: Plan, v: Val, w: Val) {
    match (v, w)
    case (Num(m), Num(n)) => m == n
    case (Addr(a), Addr(b)) => RelatedAddr(plan, a, b)
    case _ => false
  }

  ghost predicate RelatedData(plan: Plan, d: Data, e: Data) {
    d.Keys == e.Keys && forall k :: k in d ==> RelatedVal(plan, d[k], e[k])
  }

  // The end of a chosen function and the end of its copy.
  ghost predicate AtEnd(plan: Plan, a: int, b: int) {
    exists f :: SameEnd(plan, f, a, b)
  }

  ghost predicate SameEnd(plan: Plan, f: int, a: int, b: int) {
    f in plan.chosen && f in plan.base && a == f + plan.chosen[f].size && b == plan.base[f] + plan.chosen[f].size
  }

  // Two return addresses: the same copied instruction, or the end of the same function
  // where that leads out of the copied instructions.
  ghost predicate RelatedReturn(plan: Plan, a: int, b: int) {
    Corresponds(plan, a, b) || (AtEnd(plan, a, b) && !InCopied(plan, a))
  }

  ghost predicate RelatedCalls(plan: Plan, cs: seq<int>, ds: seq<int>) {
    |cs| == |ds| && forall i :: 0 <= i < |cs| ==> RelatedReturn(plan, cs[i], ds[i])
  }

  /* ---------------- what is assumed of the input ---------------- */

  // Instructions treat addresses as opaque: on related data they have related results
  // and the same outcome of every test. The thread pointer of the original is at fs:0 and
  // that of the copy at gs:0x28.
  ghost predicate Uniform(plan: Plan, sem: Semantics) {
    && (forall s, d, e :: RelatedData(plan, d, e) ==> RelatedData(plan, sem.plain(s, d), sem.plain(s, e)))
    && (forall s, d, e :: RelatedData(plan, d, e) ==> sem.taken(s, d) == sem.taken(s, e))
    && (forall s, d, e, a, b :: RelatedData(plan, d, e) && RelatedAddr(plan, a, b) ==>
          RelatedData(plan, sem.reference(s, d, a), sem.reference(s, e, b)))
    && (forall d, e :: RelatedData(plan, d, e) ==>
          RelatedData(plan,
            sem.threadPointer([0x66, 0x66, 0x66, 0x64, 0x48, 0x8b, 0x04, 0x25, 0x00, 0x00, 0x00, 0x00], d),
            sem.threadPointer([0x66, 0x66, 0x66, 0x65, 0x48, 0x8b, 0x04, 0x25, 0x28, 0x00, 0x00, 0x00], e)))
    && (forall s, d, e :: RelatedData(plan, d, e) ==> RelatedVal(plan, sem.operand(s, d), sem.operand(s, e)))
    && (forall s, d, e, a, b :: RelatedData(plan, d, e) && RelatedAddr(plan, a, b) ==>
          RelatedVal(plan, sem.pointer(s, d, a), sem.pointer(s, e, b)))
  }

  // The instructions of a chosen function tile it.
  ghost predicate Tiles(plan: Plan, f: int)
    requires plan.Valid() && f in plan.chosen
  {
    var sym, lines := plan.chosen[f], plan.body[f];
    BodyFacts(plan, sym);
    |lines| > 0 && lines[|lines| - 1].addr + |lines[|lines| - 1].insn.raw| == sym.addr + sym.size
  }

  // The thread pointer reads are the instructions with those bytes, and for every
  // reference that leaves its function the search finds the displacement and the new
  // target is within reach.
  ghost predicate Encodable(plan: Plan, f: int)
    requires plan.Valid() && f in plan.chosen
  {
    BodyFacts(plan, plan.chosen[f]);
    forall line :: line in plan.body[f] ==> LineEncodable(plan, plan.chosen[f], line)
  }

  ghost predicate LineEncodable(plan: Plan, f: Symbol, line: Line)
    requires line.insn.WellFormed() && f.addr in plan.base
  {
    && (line.insn.raw == TLS_READ_FS <==> line.insn.op == TlsRead)
    && (line.insn.Relative() && !line.insn.Direct() && !Inside(f, line.insn.Target(line.addr)) ==>
          FindsDisplacement(line.insn, line.addr))
    && (line.insn.Relative() && !Inside(f, line.insn.Target(line.addr)) ==>
          forall symbol :: Resolve(plan, line.insn, line.insn.Target(line.addr)) == Some(symbol) ==>
            var reach := symbol - (plan.NewAddress(f.addr, line.addr) + |line.insn.raw|);
            -0x8000_0000 <= reach < 0x8000_0000)
  }

  // The decoded instructions do not overlap, and function_at finds the chosen function
  // that has an instruction at an address.
  ghost predicate Apart(plan: Plan) {
    NoOverlap(plan.p) && forall f, a :: f in plan.chosen && HasLine(plan, f, a) ==> FoundAs(plan.p, f, a)
  }

  ghost predicate NoOverlap(p: Program) {
    forall a, b :: a in p.insns && b in p.insns && a < b ==> a + |p.insns[a].raw| <= b
  }

  predicate FoundAs(p: Program, f: int, a: int) {
    FunctionAt(p.functions, a).Some? && FunctionAt(p.functions, a).value.addr == f
  }

  ghost predicate Transplantable(plan: Plan)
    requires plan.Valid()
  {
    && Apart(plan)
    && forall f :: f in plan.chosen ==> Tiles(plan, f) && Encodable(plan, f)
  }

  /* ---------------- two conditions on the plan ---------------- */

  // No branch that goes to a trap stub was meant for an instruction of a copied function.
  ghost predicate TrapsOutside(plan: Plan) {
    forall x :: x in plan.traps && x !in plan.chosen ==> !InCopied(plan, x)
  }

  // Control can run past the last instruction of a function, or come back to behind it
  // from copied code.
  ghost predicate ComesPast(plan: Plan, last: Line)
    requires last.insn.WellFormed()
  {
    match last.insn.op
    case Jump => false
    case Ret => false
    case IndirectJump => false
    case Call => InCopied(plan, last.insn.Target(last.addr))
    case _ => true
  }

  // Where a function whose end is passed adjoins an instruction of a copied function, it
  // does so in the copy.
  ghost predicate SeamsHold(plan: Plan)
    requires plan.Valid()
  {
    forall f :: f in plan.chosen ==> SeamHolds(plan, f)
  }

  ghost predicate SeamHolds(plan: Plan, f: int)
    requires plan.Valid() && f in plan.chosen
  {
    var sym, lines := plan.chosen[f], plan.body[f];
    BodyFacts(plan, sym);
    |lines| > 0 && ComesPast(plan, lines[|lines| - 1]) && InCopied(plan, f + sym.size) ==>
      Corresponds(plan, f + sym.size, plan.base[f] + sym.size)
  }

  ghost predicate Emitted(plan: Plan, image: map<int, Insn>)
    requires plan.Valid()
  {
    forall f :: f in plan.chosen ==> FunctionEmitted(plan, f, image)
  }

  /* ---------------- one instruction and its copy ---------------- */

  // What the copy of a line decodes to.
  ghost predicate Faithful(plan: Plan, f: Symbol, line: Line, moved: Insn)
    requires line.insn.WellFormed() && f.addr in plan.base
  {
    && moved.WellFormed()
    && moved.op == line.insn.op && moved.disp == line.insn.disp
    && |moved.raw| == |line.insn.raw|
    && (moved.op != TlsRead ==> moved.Shape() == line.insn.Shape())
    && (moved.op == TlsRead ==>
          && line.insn.raw == [0x66, 0x66, 0x66, 0x64, 0x48, 0x8b, 0x04, 0x25, 0x00, 0x00, 0x00, 0x00]
          && moved.raw == [0x66, 0x66, 0x66, 0x65, 0x48, 0x8b, 0x04, 0x25, 0x28, 0x00, 0x00, 0x00])
    && (line.insn.Relative() ==>
          var target, at := line.insn.Target(line.addr), plan.NewAddress(f.addr, line.addr);
          if Inside(f, target) then moved.Target(at) == plan.NewAddress(f.addr, target)
          else Resolve(plan, line.insn, target) == Some(moved.Target(at)))
  }

  lemma MovedIsFaithful(plan: Plan, f: int, line: Line, moved: Insn)
    requires plan.Valid() && f in plan.chosen && Encodable(plan, f)
    requires line in plan.body[f] && line.insn.WellFormed()
    requires MovedLine(plan, plan.chosen[f], line) == Ok(moved)
    ensures Faithful(plan, plan.chosen[f], line, moved)
  {
    hide BodyOf, Reachable, Rel32, TrapsExact;
    assert plan.chosen[f].addr == f;
    var insn, at := line.insn, plan.NewAddress(f, line.addr);
    if insn.raw == TLS_READ_FS {
    } else if insn.Relative() {
      var target := insn.Target(line.addr);
      if Inside(plan.chosen[f], target) {
        CopyMovesTarget(insn, line.addr, at);
      } else {
        var symbol := Resolve(plan, insn, target).value;
        var bytes := Rel32(insn.raw, line.addr, target, at, symbol).value;
        assert moved == insn.(raw := bytes);
        if insn.Direct() {
          LongBranch(insn, line.addr, at, symbol);
          BranchesAreFound(insn, line.addr);
        }
        Rel32Exact(insn, line.addr, at, symbol, moved.raw);
      }
    }
  }

  // A short branch out of a function has no four-byte displacement to find.
  lemma LongBranch(insn: Insn, addr: int, at: int, symbol: int)
    requires insn.WellFormed() && insn.Relative()
    requires Rel32(insn.raw, addr, insn.Target(addr), at, symbol).Some?
    ensures insn.disp.width == 4
  {
  }

  /* ---------------- lockstep ---------------- */

  // Both machines stand at the same instruction, with related stacks and data.
  ghost predicate InStep(plan: Plan, s: State, t: State) {
    Corresponds(plan, s.pc, t.pc) && RelatedCalls(plan, s.calls, t.calls) && RelatedData(plan, s.data, t.data)
  }

  // Inside a chosen function, at the same place of its copy.
  ghost predicate Within(plan: Plan, a: int, b: int) {
    exists f :: SamePlace(plan, f, a, b)
  }

  // Where the copy is when the original has just left the copied instructions through an
  // instruction of this kind. After a branch it stands at the trap stub for exactly the
  // target, or, if the branch went into the middle of an instruction, at the same place
  // of the copy; after a jump through a pointer it has followed the related pointer; and
  // otherwise it stands behind the copy of the function.
  ghost predicate LeftTo(plan: Plan, op: Op, a: int, b: int) {
    match op
    case Jump => AtTrap(plan, a, b) || Within(plan, a, b)
    case Call => AtTrap(plan, a, b) || Within(plan, a, b)
    case CondJump => AtTrap(plan, a, b) || Within(plan, a, b) || AtEnd(plan, a, b)
    case IndirectJump => RelatedAddr(plan, a, b)
    case IndirectCall => RelatedAddr(plan, a, b)
    case _ => AtEnd(plan, a, b)
  }

  // The stack below what a call has pushed.
  function Callers(op: Op, calls: seq<int>): seq<int> {
    if (op.Call? || op.IndirectCall?) && calls != [] then calls[1..] else calls
  }

  ghost predicate Left(plan: Plan, op: Op, s: State, t: State) {
    && LeftTo(plan, op, s.pc, t.pc)
    && RelatedCalls(plan, Callers(op, s.calls), Callers(op, t.calls))
    && RelatedData(plan, s.data, t.data)
  }

  // For n steps, or until the original leaves, the machines stop together or step
  // together. Leaving is a matter of the original alone: it is at an address where no
  // chosen function has an instruction.
  ghost predicate Lockstep(plan: Plan, sem: Semantics, code: map<int, Insn>, image: map<int, Insn>,
                           s: State, t: State, n: nat)
    decreases n
  {
    n == 0 ||
    match (Step(code, sem, s), Step(image, sem, t))
    case (None, None) => true
    case (Some(s'), Some(t')) =>
      if InCopied(plan, s'.pc)
      then InStep(plan, s', t') && Lockstep(plan, sem, code, image, s', t', n - 1)
      else s.pc in code && Left(plan, code[s.pc].op, s', t')
    case _ => false
  }

  // The instruction both machines stand at.
  datatype Site = Site(f: int, i: nat)

  ghost predicate AtSite(plan: Plan, x: Site, a: int, b: int)
    requires plan.Valid()
  {
    && x.f in plan.chosen && x.f in plan.body && x.f in plan.base && x.i < |plan.body[x.f]|
    && plan.body[x.f][x.i].addr == a && b == plan.NewAddress(x.f, a)
  }

  lemma PlanFacts(plan: Plan)
    requires plan.Valid()
    ensures plan.p.Valid()
  {
  }

  // What is known of a site: the original instruction, its copy, and the next site.
  lemma SiteFacts(plan: Plan, image: map<int, Insn>, x: Site, a: int, b: int) returns (line: Line, moved: Insn)
    requires plan.Valid() && Transplantable(plan) && Emitted(plan, image)
    requires AtSite(plan, x, a, b)
    ensures line == plan.body[x.f][x.i] && line.addr == a && line.insn.WellFormed()
    ensures plan.chosen[x.f].addr == x.f && Inside(plan.chosen[x.f], a)
    ensures a in plan.p.insns && plan.p.insns[a] == line.insn
    ensures b in image && image[b] == moved && Faithful(plan, plan.chosen[x.f], line, moved)
    ensures |moved.raw| == |line.insn.raw|
    ensures if x.i == |plan.body[x.f]| - 1
            then SameEnd(plan, x.f, a + |line.insn.raw|, b + |moved.raw|)
            else AtSite(plan, x.(i := x.i + 1), a + |line.insn.raw|, b + |moved.raw|)
  {
    hide Plan.Valid, Transplantable, Emitted, Faithful, Insn.WellFormed, Tiles, Encodable, FunctionEmitted;
    line := OriginalFacts(plan, x, a, b);
    AssumedAt(plan, image, x.f);
    moved := CopyFacts(plan, image, x, a, b);
    LengthKept(plan, plan.chosen[x.f], line, moved);
    LastIsLast(plan, x.f);
  }

  lemma AssumedAt(plan: Plan, image: map<int, Insn>, f: int)
    requires plan.Valid() && Transplantable(plan) && Emitted(plan, image) && f in plan.chosen
    ensures Tiles(plan, f) && Encodable(plan, f) && FunctionEmitted(plan, f, image)
  {
    hide Plan.Valid, Tiles, Encodable, FunctionEmitted;
  }

  lemma LastIsLast(plan: Plan, f: int)
    requires plan.Valid() && f in plan.chosen && Tiles(plan, f)
    ensures f in plan.body && |plan.body[f]| > 0 && plan.body[f][|plan.body[f]| - 1].insn.WellFormed()
    ensures plan.body[f][|plan.body[f]| - 1].addr + |plan.body[f][|plan.body[f]| - 1].insn.raw|
            == f + plan.chosen[f].size
  {
    ChosenAt(plan, f);
    hide Plan.Valid, BodyOf, Ascending;
    BodyFacts(plan, plan.chosen[f]);
    assert Tiles(plan, f);
    var last := plan.body[f][|plan.body[f]| - 1];
    assert last in plan.body[f];
  }

  lemma OriginalFacts(plan: Plan, x: Site, a: int, b: int) returns (line: Line)
    requires plan.Valid() && AtSite(plan, x, a, b)
    ensures line == plan.body[x.f][x.i] && line.addr == a && line.insn.WellFormed()
    ensures plan.chosen[x.f].addr == x.f && Inside(plan.chosen[x.f], a)
    ensures a in plan.p.insns && plan.p.insns[a] == line.insn
    ensures x.i < |plan.body[x.f]| - 1 ==>
              AtSite(plan, x.(i := x.i + 1), a + |line.insn.raw|, b + |line.insn.raw|)
  {
    PlanFacts(plan);
    hide Plan.Valid, Program.Valid, Contiguous, BodyOf;
    ChosenAt(plan, x.f);
    BodyFacts(plan, plan.chosen[x.f]);
    BodyLines(plan.p, plan.chosen[x.f], plan.body[x.f]);
    line := plan.body[x.f][x.i];
  }

  lemma CopyFacts(plan: Plan, image: map<int, Insn>, x: Site, a: int, b: int) returns (moved: Insn)
    requires plan.Valid() && AtSite(plan, x, a, b) && Encodable(plan, x.f) && FunctionEmitted(plan, x.f, image)
    requires plan.body[x.f][x.i].insn.WellFormed() && plan.chosen[x.f].addr == x.f
    ensures b in image && image[b] == moved && Faithful(plan, plan.chosen[x.f], plan.body[x.f][x.i], moved)
  {
    hide Plan.Valid, Encodable, Faithful, MovedLine;
    moved := image[b];
    MovedIsFaithful(plan, x.f, plan.body[x.f][x.i], moved);
  }

  // The copy has a displacement where the original has one.
  lemma SameRelative(insn: Insn, moved: Insn)
    requires insn.WellFormed() && moved.WellFormed() && moved.disp == insn.disp
    ensures moved.Relative() == insn.Relative()
  {
  }

  lemma LengthKept(plan: Plan, f: Symbol, line: Line, moved: Insn)
    requires line.insn.WellFormed() && f.addr in plan.base && Faithful(plan, f, line, moved)
    ensures |moved.raw| == |line.insn.raw|
  {
  }

  lemma SiteCorresponds(plan: Plan, x: Site, a: int, b: int)
    requires plan.Valid() && AtSite(plan, x, a, b)
    ensures Corresponds(plan, a, b)
  {
    hide Reachable, TrapsExact;
    var f := plan.chosen[x.f];
    BodyFacts(plan, f);
    assert plan.body[x.f][x.i] in plan.body[x.f];
    assert SameInsn(plan, x.f, a, b);
  }

  lemma CorrespondingSite(plan: Plan, a: int, b: int) returns (x: Site)
    requires plan.Valid() && Corresponds(plan, a, b)
    ensures AtSite(plan, x, a, b)
  {
    var f :| SameInsn(plan, f, a, b);
    var line :| line in plan.body[f] && line.addr == a;
    var i :| 0 <= i < |plan.body[f]| && plan.body[f][i] == line;
    x := Site(f, i);
  }

  // Where a direct branch leads: to a corresponding instruction, into the middle of one,
  // or to the stub of its target.
  ghost predicate Landing(plan: Plan, a: int, b: int) {
    Corresponds(plan, a, b) || (!InCopied(plan, a) && Within(plan, a, b)) || AtTrap(plan, a, b)
  }

  lemma BranchTarget(plan: Plan, image: map<int, Insn>, x: Site, a: int, b: int, line: Line, moved: Insn)
    requires plan.Valid() && Transplantable(plan) && AtSite(plan, x, a, b)
    requires line == plan.body[x.f][x.i] && line.addr == a && line.insn.WellFormed() && line.insn.Direct()
    requires Faithful(plan, plan.chosen[x.f], line, moved)
    ensures Landing(plan, line.insn.Target(a), moved.Target(b))
    ensures var target := line.insn.Target(a);
            target !in plan.chosen && !Inside(plan.chosen[x.f], target) ==> AtTrap(plan, target, moved.Target(b))
  {
    hide Reachable, TrapsExact, HasLine, Encodable, Tiles, Corresponds;
    var f, target := plan.chosen[x.f], line.insn.Target(a);
    assert f.addr == x.f && line in plan.body[x.f];
    if Inside(f, target) {
      assert SamePlace(plan, x.f, target, moved.Target(b));
      if InCopied(plan, target) {
        var g := CopiedIsInsn(plan, target);
        InsideIsLine(plan, x.f, target);
        LineCorresponds(plan, x.f, target, moved.Target(b));
      }
    } else {
      ExitResolves(plan, x.f, line, target);
      if target in plan.chosen {
        EntrySite(plan, target);
      }
    }
  }

  lemma ExitResolves(plan: Plan, f: int, line: Line, target: int)
    requires plan.Valid() && f in plan.chosen && f in plan.body && line in plan.body[f] && line.insn.WellFormed()
    requires line.insn.Direct() && line.insn.Target(line.addr) == target && !Inside(plan.chosen[f], target)
    ensures target in plan.chosen || target in plan.traps
  {
    EveryExitResolves(plan.p, plan.entry, plan.chosen, plan.body, plan.traps, f, line, target);
  }

  lemma EntrySite(plan: Plan, f: int)
    requires plan.Valid() && Transplantable(plan) && f in plan.chosen
    ensures f in plan.base && Corresponds(plan, f, plan.base[f])
  {
    PlanFacts(plan);
    assert Tiles(plan, f) && f in plan.base;
    hide Plan.Valid, Program.Valid, BodyOf, Transplantable, Corresponds, Ascending;
    ChosenAt(plan, f);
    BodyFacts(plan, plan.chosen[f]);
    BodyLines(plan.p, plan.chosen[f], plan.body[f]);
    LastIsLast(plan, f);
    hide Tiles;
    assert plan.body[f][0].addr == f;
    SiteCorresponds(plan, Site(f, 0), f, plan.base[f]);
  }

  lemma CorrespondsIsCopied(plan: Plan, a: int, b: int)
    requires Corresponds(plan, a, b)
    ensures InCopied(plan, a)
  {
    var f :| SameInsn(plan, f, a, b);
    assert HasLine(plan, f, a);
  }

  /* ---------------- pointers into the code ---------------- */

  // The lines of a body leave no gap.
  ghost predicate Contiguous(lines: seq<Line>, start: int, end: int) {
    if lines == [] then start >= end
    else lines[0].addr == start && Contiguous(lines[1..], start + |lines[0].insn.raw|, end)
  }

  lemma {:induction false} BodyIsContiguous(p: Program, addr: int, end: int)
    requires p.Valid() && BodyFrom(p, addr, end).Some?
    ensures Contiguous(BodyFrom(p, addr, end).value, addr, end)
    decreases end - addr
  {
    if addr < end {
      var rest := BodyFrom(p, addr + |p.insns[addr].raw|, end);
      BodyIsContiguous(p, addr + |p.insns[addr].raw|, end);
      assert BodyFrom(p, addr, end).value[1..] == rest.value;
    }
  }

  // So an instruction inside the function is one of them.
  lemma {:induction false} InsnIsLine(p: Program, lines: seq<Line>, start: int, end: int, a: int)
    requires Contiguous(lines, start, end) && start <= a < end && a in p.insns
    requires forall line :: line in lines ==> line.addr in p.insns && p.insns[line.addr] == line.insn
    requires NoOverlap(p)
    ensures exists line :: line in lines && line.addr == a
  {
    var first := lines[0];
    assert first in lines;
    if a != start {
      InsnIsLine(p, lines[1..], start + |first.insn.raw|, end, a);
      var line :| line in lines[1..] && line.addr == a;
      assert line in lines;
    }
  }

  lemma BodyLines(p: Program, f: Symbol, lines: seq<Line>)
    requires p.Valid() && BodyOf(p, f) == Some(lines)
    ensures Contiguous(lines, f.addr, f.addr + f.size)
    ensures forall line :: line in lines ==>
              line.addr in p.insns && p.insns[line.addr] == line.insn && Inside(f, line.addr)
    ensures forall i :: 0 <= i < |lines| - 1 ==> lines[i + 1].addr == lines[i].addr + |lines[i].insn.raw|
  {
    hide BodyFrom, Contiguous;
    BodyAscends(p, f, f.addr);
    BodyIsContiguous(p, f.addr, f.addr + f.size);
  }

  lemma InsideIsLine(plan: Plan, f: int, a: int)
    requires plan.Valid() && NoOverlap(plan.p) && f in plan.chosen && Inside(plan.chosen[f], a)
    requires a in plan.p.insns
    ensures HasLine(plan, f, a)
  {
    PlanFacts(plan);
    hide Plan.Valid, Program.Valid, Contiguous, BodyOf, Ascending, ValidLines, NoOverlap;
    ChosenAt(plan, f);
    BodyFacts(plan, plan.chosen[f]);
    BodyLines(plan.p, plan.chosen[f], plan.body[f]);
    InsnIsLine(plan.p, plan.body[f], f, f + plan.chosen[f].size, a);
  }

  lemma CopiedIsInsn(plan: Plan, a: int) returns (f: int)
    requires plan.Valid() && InCopied(plan, a)
    ensures a in plan.p.insns && f in plan.chosen && Inside(plan.chosen[f], a) && HasLine(plan, f, a)
  {
    PlanFacts(plan);
    hide Plan.Valid, Program.Valid, Contiguous, BodyOf, Ascending, ValidLines;
    f :| f in plan.chosen && HasLine(plan, f, a);
    ChosenAt(plan, f);
    BodyFacts(plan, plan.chosen[f]);
    BodyLines(plan.p, plan.chosen[f], plan.body[f]);
  }

  // A pointer to a copied instruction and the pointer the copy holds for it correspond.
  lemma PointerFollowed(plan: Plan, a: int, b: int)
    requires plan.Valid() && Transplantable(plan) && TrapsOutside(plan)
    requires RelatedAddr(plan, a, b) && InCopied(plan, a)
    ensures Corresponds(plan, a, b)
  {
    hide Reachable, TrapsExact, Sound, HasLine, Tiles, Encodable;
    var f := CopiedIsInsn(plan, a);
    assert FoundAs(plan.p, f, a);
    if g :| SamePlace(plan, g, a, b) {
      InsideIsLine(plan, g, a);
      LineCorresponds(plan, g, a, b);
    } else if a in plan.base {
      EntrySite(plan, a);
    } else {
      LineCorresponds(plan, f, a, plan.NewAddress(f, a));
    }
  }

  lemma LineCorresponds(plan: Plan, f: int, a: int, b: int)
    requires SamePlace(plan, f, a, b) && HasLine(plan, f, a)
    ensures Corresponds(plan, a, b)
  {
    assert SameInsn(plan, f, a, b);
  }

  // A trap stub is not a copied instruction.
  lemma StubIsNoInstruction(plan: Plan, a: int, b: int)
    requires plan.Valid() && AtTrap(plan, a, b)
    ensures !Corresponds(plan, a, b)
  {
    hide Reachable, TrapsExact, Sound;
    if Corresponds(plan, a, b) {
      var f :| SameInsn(plan, f, a, b);
      ChosenAt(plan, f);
    }
  }

  lemma ChosenAt(plan: Plan, f: int)
    requires plan.Valid() && f in plan.chosen
    ensures plan.chosen[f].addr == f
  {
  }

  // The state after one step, spelled out as the two outcomes of Lockstep.
  ghost predicate Together(plan: Plan, op: Op, s: State, t: State) {
    if InCopied(plan, s.pc) then InStep(plan, s, t) else Left(plan, op, s, t)
  }

  // Behind an instruction: the next one, or the end of the function.
  lemma Behind(plan: Plan, image: map<int, Insn>, x: Site, a: int, b: int, line: Line, moved: Insn)
    requires plan.Valid() && Transplantable(plan) && SeamsHold(plan) && Emitted(plan, image)
    requires AtSite(plan, x, a, b) && b in image && moved == image[b]
    requires line == plan.body[x.f][x.i] && line.insn.WellFormed()
    requires x.i == |plan.body[x.f]| - 1 ==> ComesPast(plan, line)
    ensures RelatedReturn(plan, a + |line.insn.raw|, b + |moved.raw|)
  {
    hide Plan.Valid, Faithful, Transplantable, Emitted, Corresponds, InCopied, ComesPast;
    var line', moved' := SiteFacts(plan, image, x, a, b);
    if x.i == |plan.body[x.f]| - 1 {
      assert SameEnd(plan, x.f, a + |line.insn.raw|, b + |moved.raw|);
      assert SeamHolds(plan, x.f);
    } else {
      SiteCorresponds(plan, x.(i := x.i + 1), a + |line.insn.raw|, b + |moved.raw|);
    }
  }

  // Control that arrives behind an instruction, by falling through or by returning.
  lemma Arrived(plan: Plan, op: Op, s: State, t: State)
    requires RelatedReturn(plan, s.pc, t.pc) && RelatedCalls(plan, s.calls, t.calls)
    requires RelatedData(plan, s.data, t.data)
    requires op.Plain? || op.TlsRead? || op.RipRef? || op.CondJump? || op.Ret?
    ensures Together(plan, op, s, t)
  {
    hide Corresponds, InCopied, RelatedCalls, RelatedData, AtEnd;
    if Corresponds(plan, s.pc, t.pc) { CorrespondsIsCopied(plan, s.pc, t.pc); }
  }

  lemma FallThrough(plan: Plan, image: map<int, Insn>, x: Site, s: State, t: State, d: Data, e: Data,
                    line: Line, moved: Insn)
    requires plan.Valid() && Transplantable(plan) && SeamsHold(plan) && Emitted(plan, image)
    requires AtSite(plan, x, s.pc, t.pc) && InStep(plan, s, t) && RelatedData(plan, d, e)
    requires line == plan.body[x.f][x.i] && t.pc in image && moved == image[t.pc] && line.insn.WellFormed()
    requires line.insn.op.Plain? || line.insn.op.TlsRead? || line.insn.op.RipRef? || line.insn.op.CondJump?
    ensures Together(plan, line.insn.op, s.(pc := s.pc + |line.insn.raw|, data := d),
                     t.(pc := t.pc + |moved.raw|, data := e))
  {
    hide Plan.Valid, Transplantable, Emitted, Corresponds, RelatedCalls, RelatedData, InCopied, SeamsHold,
         RelatedReturn, Together;
    Behind(plan, image, x, s.pc, t.pc, line, moved);
    Arrived(plan, line.insn.op, s.(pc := s.pc + |line.insn.raw|, data := d), t.(pc := t.pc + |moved.raw|, data := e));
  }

  // From here on code is the original program and image the emitted one, and both
  // machines stand at site x.
  ghost predicate Ready(plan: Plan, sem: Semantics, image: map<int, Insn>, x: Site, s: State, t: State)
    requires plan.Valid()
  {
    && Transplantable(plan) && TrapsOutside(plan) && SeamsHold(plan) && Emitted(plan, image) && Uniform(plan, sem)
    && AtSite(plan, x, s.pc, t.pc) && InStep(plan, s, t)
  }

  // Both machines stop, or both step to states that are together.
  ghost predicate StepAgrees(plan: Plan, sem: Semantics, image: map<int, Insn>, s: State, t: State) {
    match (Step(plan.p.insns, sem, s), Step(image, sem, t))
    case (None, None) => true
    case (Some(s'), Some(t')) => s.pc in plan.p.insns && Together(plan, plan.p.insns[s.pc].op, s', t')
    case _ => false
  }

  lemma UniformReference(plan: Plan, sem: Semantics, shape: seq<Byte>, d: Data, e: Data, a: int, b: int)
    requires Uniform(plan, sem) && RelatedData(plan, d, e) && RelatedAddr(plan, a, b)
    ensures RelatedData(plan, sem.reference(shape, d, a), sem.reference(shape, e, b))
    ensures RelatedVal(plan, sem.pointer(shape, d, a), sem.pointer(shape, e, b))
  {
    hide RelatedData, RelatedAddr, RelatedVal;
  }

  lemma UniformPlain(plan: Plan, sem: Semantics, shape: seq<Byte>, d: Data, e: Data)
    requires Uniform(plan, sem) && RelatedData(plan, d, e)
    ensures RelatedData(plan, sem.plain(shape, d), sem.plain(shape, e))
    ensures RelatedData(plan,
      sem.threadPointer([0x66, 0x66, 0x66, 0x64, 0x48, 0x8b, 0x04, 0x25, 0x00, 0x00, 0x00, 0x00], d),
      sem.threadPointer([0x66, 0x66, 0x66, 0x65, 0x48, 0x8b, 0x04, 0x25, 0x28, 0x00, 0x00, 0x00], e))
  {
    hide RelatedData;
  }

  lemma UniformOperand(plan: Plan, sem: Semantics, shape: seq<Byte>, d: Data, e: Data)
    requires Uniform(plan, sem) && RelatedData(plan, d, e)
    ensures RelatedVal(plan, sem.operand(shape, d), sem.operand(shape, e))
  {
    hide RelatedData, RelatedVal;
  }

  lemma ReferencesRelated(plan: Plan, x: Site, a: int, b: int, line: Line, moved: Insn)
    requires plan.Valid() && AtSite(plan, x, a, b) && plan.chosen[x.f].addr == x.f
    requires line == plan.body[x.f][x.i] && line.insn.WellFormed() && line.addr == a
    requires Faithful(plan, plan.chosen[x.f], line, moved) && line.insn.Relative() && !line.insn.Direct()
    ensures moved.WellFormed() && moved.Relative()
    ensures RelatedAddr(plan, line.insn.Target(a), moved.Target(b))
  {
    hide Reachable, TrapsExact, Sound;
    SameRelative(line.insn, moved);
    if Inside(plan.chosen[x.f], line.insn.Target(a)) {
      assert SamePlace(plan, x.f, line.insn.Target(a), moved.Target(b));
    }
  }

  lemma ReferenceStep(plan: Plan, sem: Semantics, image: map<int, Insn>, x: Site, s: State, t: State,
                      line: Line, moved: Insn)
    requires plan.Valid() && Ready(plan, sem, image, x, s, t)
    requires line == plan.body[x.f][x.i] && line.insn.WellFormed()
    requires s.pc in plan.p.insns && plan.p.insns[s.pc] == line.insn && line.addr == s.pc
    requires t.pc in image && image[t.pc] == moved && Faithful(plan, plan.chosen[x.f], line, moved)
    requires plan.chosen[x.f].addr == x.f
    requires line.insn.op.RipRef?
    ensures StepAgrees(plan, sem, image, s, t)
  {
    hide Plan.Valid, Emitted, Transplantable, RelatedAddr, Uniform, RelatedData, InCopied, RelatedCalls, Corresponds,
         TrapsOutside, SeamsHold, Together;
    var d, e := s.data, t.data;
    var a, b := line.insn.Target(s.pc), moved.Target(t.pc);
    ReferencesRelated(plan, x, s.pc, t.pc, line, moved);
    UniformReference(plan, sem, line.insn.Shape(), d, e, a, b);
    FallThrough(plan, image, x, s, t, sem.reference(line.insn.Shape(), d, a), sem.reference(moved.Shape(), e, b),
                line, moved);
  }

  lemma DataStep(plan: Plan, sem: Semantics, image: map<int, Insn>, x: Site, s: State, t: State,
                 line: Line, moved: Insn)
    requires plan.Valid() && Ready(plan, sem, image, x, s, t)
    requires line == plan.body[x.f][x.i] && line.insn.WellFormed()
    requires s.pc in plan.p.insns && plan.p.insns[s.pc] == line.insn && line.addr == s.pc
    requires t.pc in image && image[t.pc] == moved && Faithful(plan, plan.chosen[x.f], line, moved)
    requires plan.chosen[x.f].addr == x.f
    requires line.insn.op.Plain? || line.insn.op.TlsRead? || line.insn.op.RipRef?
    ensures StepAgrees(plan, sem, image, s, t)
  {
    hide Plan.Valid, Emitted, Transplantable, Uniform, RelatedData, InCopied, RelatedCalls, Corresponds, TrapsOutside,
         SeamsHold, Together;
    var d, e := s.data, t.data;
    UniformPlain(plan, sem, line.insn.Shape(), d, e);
    match line.insn.op {
      case Plain =>
        FallThrough(plan, image, x, s, t, sem.plain(line.insn.Shape(), d), sem.plain(moved.Shape(), e), line, moved);
      case TlsRead =>
        FallThrough(plan, image, x, s, t, sem.threadPointer(line.insn.raw, d), sem.threadPointer(moved.raw, e),
                    line, moved);
      case RipRef =>
        ReferenceStep(plan, sem, image, x, s, t, line, moved);
    }
  }

  lemma PushKeepsCalls(plan: Plan, s: State, t: State, a: int, b: int)
    requires RelatedCalls(plan, s.calls, t.calls) && RelatedReturn(plan, a, b)
    ensures RelatedCalls(plan, [a] + s.calls, [b] + t.calls)
  {
    hide RelatedReturn;
  }

  // The state behind a direct branch that is taken.
  function Taken(s: State, insn: Insn): State
    requires insn.WellFormed() && insn.Direct()
  {
    State(insn.Target(s.pc), if insn.op.Call? then [s.pc + |insn.raw|] + s.calls else s.calls, s.data)
  }

  lemma TakenTogether(plan: Plan, op: Op, s: State, t: State)
    requires plan.Valid() && TrapsOutside(plan) && RelatedData(plan, s.data, t.data)
    requires op.Jump? || op.CondJump? || op.Call?
    requires Landing(plan, s.pc, t.pc) && RelatedCalls(plan, Callers(op, s.calls), Callers(op, t.calls))
    requires Corresponds(plan, s.pc, t.pc) ==> RelatedCalls(plan, s.calls, t.calls)
    ensures Together(plan, op, s, t)
  {
    hide Reachable, TrapsExact, Sound, InCopied, Corresponds, RelatedCalls, RelatedData, Callers, Within;
    if Corresponds(plan, s.pc, t.pc) { CorrespondsIsCopied(plan, s.pc, t.pc); }
  }

  lemma BranchAgrees(plan: Plan, sem: Semantics, image: map<int, Insn>, s: State, t: State, insn: Insn, moved: Insn)
    requires s.pc in plan.p.insns && plan.p.insns[s.pc] == insn && t.pc in image && image[t.pc] == moved
    requires insn.WellFormed() && insn.Direct() && moved.WellFormed() && moved.op == insn.op
    requires Together(plan, insn.op, Taken(s, insn), Taken(t, moved))
    requires insn.op.CondJump? ==> sem.taken(insn.Shape(), s.data) == sem.taken(moved.Shape(), t.data)
    requires insn.op.CondJump? ==>
               Together(plan, insn.op, s.(pc := s.pc + |insn.raw|), t.(pc := t.pc + |moved.raw|))
    ensures StepAgrees(plan, sem, image, s, t)
  {
    hide Together, Insn.Target, Insn.Shape, Insn.WellFormed;
  }

  lemma BranchTaken(plan: Plan, image: map<int, Insn>, x: Site, s: State, t: State, line: Line, moved: Insn)
    requires plan.Valid() && Transplantable(plan) && TrapsOutside(plan) && SeamsHold(plan) && Emitted(plan, image)
    requires AtSite(plan, x, s.pc, t.pc) && InStep(plan, s, t)
    requires line == plan.body[x.f][x.i] && line.insn.WellFormed() && line.addr == s.pc && line.insn.Direct()
    requires Faithful(plan, plan.chosen[x.f], line, moved) && t.pc in image && image[t.pc] == moved
    requires moved.WellFormed() && moved.op == line.insn.op
    ensures Together(plan, line.insn.op, Taken(s, line.insn), Taken(t, moved))
  {
    hide Plan.Valid, Emitted, Transplantable, RelatedData, RelatedCalls, RelatedReturn, Corresponds, InCopied,
         TrapsOutside, SeamsHold, Landing, AtTrap, Together, Faithful;
    BranchTarget(plan, image, x, s.pc, t.pc, line, moved);
    var s', t' := Taken(s, line.insn), Taken(t, moved);
    if line.insn.op.Call? {
      CallersOfPush(line.insn.op, s.pc + |line.insn.raw|, s.calls);
      CallersOfPush(line.insn.op, t.pc + |moved.raw|, t.calls);
      if Corresponds(plan, s'.pc, t'.pc) {
        CorrespondsIsCopied(plan, s'.pc, t'.pc);
        Behind(plan, image, x, s.pc, t.pc, line, moved);
        PushKeepsCalls(plan, s, t, s.pc + |line.insn.raw|, t.pc + |moved.raw|);
      }
    }
    hide AtSite, ComesPast, InStep;
    TakenTogether(plan, line.insn.op, s', t');
  }

  lemma CallersOfPush(op: Op, a: int, calls: seq<int>)
    requires op.Call? || op.IndirectCall?
    ensures Callers(op, [a] + calls) == calls
  {
  }

  lemma SameOutcome(plan: Plan, sem: Semantics, f: Symbol, line: Line, moved: Insn, d: Data, e: Data)
    requires Uniform(plan, sem) && RelatedData(plan, d, e)
    requires line.insn.WellFormed() && f.addr in plan.base && Faithful(plan, f, line, moved) && line.insn.Direct()
    ensures moved.WellFormed() && sem.taken(line.insn.Shape(), d) == sem.taken(moved.Shape(), e)
  {
    hide RelatedData;
  }

  lemma BranchStep(plan: Plan, sem: Semantics, image: map<int, Insn>, x: Site, s: State, t: State,
                   line: Line, moved: Insn)
    requires plan.Valid() && Ready(plan, sem, image, x, s, t)
    requires line == plan.body[x.f][x.i] && line.insn.WellFormed()
    requires s.pc in plan.p.insns && plan.p.insns[s.pc] == line.insn && line.addr == s.pc
    requires t.pc in image && image[t.pc] == moved && Faithful(plan, plan.chosen[x.f], line, moved)
    requires line.insn.Direct()
    ensures StepAgrees(plan, sem, image, s, t)
  {
    hide Plan.Valid, Emitted, Transplantable, RelatedData, RelatedCalls, Corresponds, InCopied, Uniform,
         TrapsOutside, SeamsHold, Together, Insn.Shape, Insn.Target, Faithful, StepAgrees;
    ChosenAt(plan, x.f);
    SameOp(plan, plan.chosen[x.f], line, moved);
    SameOutcome(plan, sem, plan.chosen[x.f], line, moved, s.data, t.data);
    BranchTaken(plan, image, x, s, t, line, moved);
    if line.insn.op.CondJump? {
      FallThrough(plan, image, x, s, t, s.data, t.data, line, moved);
    }
    hide AtSite, InStep;
    BranchAgrees(plan, sem, image, s, t, line.insn, moved);
  }

  lemma ReturnStep(plan: Plan, sem: Semantics, image: map<int, Insn>, x: Site, s: State, t: State,
                   line: Line, moved: Insn)
    requires plan.Valid() && Ready(plan, sem, image, x, s, t)
    requires line.insn.WellFormed() && moved.WellFormed() && line.insn.op.Ret? && moved.op.Ret?
    requires s.pc in plan.p.insns && plan.p.insns[s.pc] == line.insn
    requires t.pc in image && image[t.pc] == moved
    ensures StepAgrees(plan, sem, image, s, t)
  {
    hide Plan.Valid, Emitted, Transplantable, Corresponds, InCopied, SeamsHold, TrapsOutside, Uniform, RelatedData,
         RelatedReturn, Together;
    if s.calls != [] {
      Arrived(plan, Ret, s.(pc := s.calls[0], calls := s.calls[1..]), t.(pc := t.calls[0], calls := t.calls[1..]));
    }
  }

  lemma OperandsRelated(plan: Plan, sem: Semantics, x: Site, s: State, t: State, line: Line, moved: Insn)
    requires plan.Valid() && Uniform(plan, sem) && AtSite(plan, x, s.pc, t.pc) && RelatedData(plan, s.data, t.data)
    requires line == plan.body[x.f][x.i] && line.insn.WellFormed() && line.addr == s.pc
    requires Faithful(plan, plan.chosen[x.f], line, moved) && line.insn.Indirect() && plan.chosen[x.f].addr == x.f
    ensures moved.WellFormed() && RelatedVal(plan, Operand(sem, line.insn, s), Operand(sem, moved, t))
  {
    hide Plan.Valid, RelatedAddr, RelatedData, RelatedVal, Uniform;
    SameRelative(line.insn, moved);
    UniformOperand(plan, sem, line.insn.Shape(), s.data, t.data);
    if line.insn.Relative() {
      ReferencesRelated(plan, x, s.pc, t.pc, line, moved);
      UniformReference(plan, sem, line.insn.Shape(), s.data, t.data, line.insn.Target(s.pc), moved.Target(t.pc));
    }
  }

  lemma IndirectStep(plan: Plan, sem: Semantics, image: map<int, Insn>, x: Site, s: State, t: State,
                     line: Line, moved: Insn)
    requires plan.Valid() && Ready(plan, sem, image, x, s, t)
    requires line == plan.body[x.f][x.i] && line.insn.WellFormed() && plan.chosen[x.f].addr == x.f
    requires s.pc in plan.p.insns && plan.p.insns[s.pc] == line.insn && line.addr == s.pc
    requires t.pc in image && image[t.pc] == moved && Faithful(plan, plan.chosen[x.f], line, moved)
    requires moved.op == line.insn.op
    requires line.insn.Indirect()
    ensures StepAgrees(plan, sem, image, s, t)
  {
    hide Plan.Valid, Emitted, Transplantable, Corresponds, InCopied, RelatedAddr, Uniform, RelatedData, RelatedCalls,
         TrapsOutside, SeamsHold, Operand, RelatedReturn, Callers, Faithful;
    OperandsRelated(plan, sem, x, s, t, line, moved);
    var v, w := Operand(sem, line.insn, s), Operand(sem, moved, t);
    if v.Addr? && InCopied(plan, v.a) { PointerFollowed(plan, v.a, w.a); }
    if line.insn.op.IndirectCall? {
      Behind(plan, image, x, s.pc, t.pc, line, moved);
      PushKeepsCalls(plan, s, t, s.pc + |line.insn.raw|, t.pc + |moved.raw|);
      CallersOfPush(line.insn.op, s.pc + |line.insn.raw|, s.calls);
      CallersOfPush(line.insn.op, t.pc + |moved.raw|, t.calls);
    } else {
      CallersOfJump(line.insn.op, s.calls);
      CallersOfJump(line.insn.op, t.calls);
    }
  }

  lemma CallersOfJump(op: Op, calls: seq<int>)
    requires !op.Call? && !op.IndirectCall?
    ensures Callers(op, calls) == calls
  {
  }

  lemma StepTogether(plan: Plan, sem: Semantics, image: map<int, Insn>, s: State, t: State)
    requires plan.Valid() && Transplantable(plan) && Emitted(plan, image) && Uniform(plan, sem)
    requires TrapsOutside(plan) && SeamsHold(plan)
    requires InStep(plan, s, t)
    ensures StepAgrees(plan, sem, image, s, t)
  {
    hide Reachable, TrapsExact, Sound, Emitted, Transplantable, TrapsOutside, SeamsHold, Uniform, Faithful, StepAgrees,
         InStep, AtSite;
    var x := SiteOf(plan, s, t);
    var line, moved := SiteFacts(plan, image, x, s.pc, t.pc);
    SameOp(plan, plan.chosen[x.f], line, moved);
    match line.insn.op {
      case Plain => DataStep(plan, sem, image, x, s, t, line, moved);
      case TlsRead => DataStep(plan, sem, image, x, s, t, line, moved);
      case RipRef => DataStep(plan, sem, image, x, s, t, line, moved);
      case Jump => BranchStep(plan, sem, image, x, s, t, line, moved);
      case CondJump => BranchStep(plan, sem, image, x, s, t, line, moved);
      case Call => BranchStep(plan, sem, image, x, s, t, line, moved);
      case Ret => ReturnStep(plan, sem, image, x, s, t, line, moved);
      case IndirectJump => IndirectStep(plan, sem, image, x, s, t, line, moved);
      case IndirectCall => IndirectStep(plan, sem, image, x, s, t, line, moved);
    }
  }

  lemma SiteOf(plan: Plan, s: State, t: State) returns (x: Site)
    requires plan.Valid() && InStep(plan, s, t)
    ensures AtSite(plan, x, s.pc, t.pc) && x.f in plan.body && x.f in plan.chosen && x.f in plan.base
    ensures x.i < |plan.body[x.f]|
  {
    x := CorrespondingSite(plan, s.pc, t.pc);
  }

  lemma SameOp(plan: Plan, f: Symbol, line: Line, moved: Insn)
    requires line.insn.WellFormed() && f.addr in plan.base && Faithful(plan, f, line, moved)
    ensures moved.WellFormed() && moved.op == line.insn.op
  {
  }

  // The transplanted code runs in lockstep with the original, for any number of steps,
  // any data and any meaning of the instructions that treats addresses as opaque, when
  // no branch into the middle of a copied function was sent to a trap stub, and no copied
  // function that control runs past was torn from the one behind it.
  lemma {:induction false} TransplantRunsInLockstep(plan: Plan, sem: Semantics, image: map<int, Insn>,
                                                    s: State, t: State, n: nat)
    requires plan.Valid() && Transplantable(plan) && Emitted(plan, image) && Uniform(plan, sem)
    requires TrapsOutside(plan) && SeamsHold(plan)
    requires InStep(plan, s, t)
    ensures Lockstep(plan, sem, plan.p.insns, image, s, t, n)
    decreases n
  {
    hide Reachable, TrapsExact, Sound, Emitted, Transplantable, TrapsOutside, SeamsHold, Uniform, InCopied, InStep,
         Left;
    StepTogether(plan, sem, image, s, t);
    if n > 0 && Step(plan.p.insns, sem, s).Some? && Step(image, sem, t).Some? {
      var s', t' := Step(plan.p.insns, sem, s).value, Step(image, sem, t).value;
      if InCopied(plan, s'.pc) {
        TransplantRunsInLockstep(plan, sem, image, s', t', n - 1);
      }
    }
  }

  // In particular from the entry function on.
  lemma EntryInStep(plan: Plan, d: Data, e: Data)
    requires plan.Valid() && Transplantable(plan) && RelatedData(plan, d, e)
    ensures plan.entry.addr in plan.base
    ensures InStep(plan, State(plan.entry.addr, [], d), State(plan.base[plan.entry.addr], [], e))
  {
    EntryReachable(plan.p, plan.entry);
    EntrySite(plan, plan.entry.addr);
  }

  /* ---------------- and only then ---------------- */

  // All tests come out alike, an indirect branch goes where cell 0 says, and nothing
  // changes anything.
  function Probing(taken: bool): Semantics {
    Semantics((_, d) => d, (_, _) => taken, (_, d, _) => d, (_, d) => d, (_, d) => Cell(d), (_, d, _) => Cell(d))
  }

  function Cell(d: Data): Val {
    if 0 in d then d[0] else Num(0)
  }

  lemma ProbingIsUniform(plan: Plan, taken: bool)
    ensures Uniform(plan, Probing(taken))
  {
    hide RelatedVal;
    forall d, e | RelatedData(plan, d, e)
      ensures RelatedVal(plan, Cell(d), Cell(e))
    {
      CellsRelated(plan, d, e);
    }
    hide RelatedData, Cell;
  }

  lemma CellsRelated(plan: Plan, d: Data, e: Data)
    requires RelatedData(plan, d, e)
    ensures RelatedVal(plan, Cell(d), Cell(e))
  {
    hide RelatedAddr;
    if 0 in d { assert RelatedVal(plan, d[0], e[0]); }
  }

  // At a branch into the middle of a copied function the machines part: the original
  // stays in copied code, the copy stands at a trap stub.
  lemma PartAt(plan: Plan, sem: Semantics, image: map<int, Insn>, x: Site, s: State, t: State)
    requires plan.Valid() && Transplantable(plan) && Emitted(plan, image)
    requires AtSite(plan, x, s.pc, t.pc) && plan.body[x.f][x.i].insn.WellFormed()
    requires var line := plan.body[x.f][x.i];
             line.insn.Direct() && line.insn.Target(s.pc) !in plan.chosen
             && !Inside(plan.chosen[x.f], line.insn.Target(s.pc)) && InCopied(plan, line.insn.Target(s.pc))
             && (line.insn.op.CondJump? ==> sem == Probing(true))
    ensures forall n: nat :: n > 0 ==> !Lockstep(plan, sem, plan.p.insns, image, s, t, n)
  {
    hide Reachable, TrapsExact, Sound, Emitted, Transplantable, Faithful, InCopied;
    var line, moved := SiteFacts(plan, image, x, s.pc, t.pc);
    SameOp(plan, plan.chosen[x.f], line, moved);
    BranchTarget(plan, image, x, s.pc, t.pc, line, moved);
    var a, b := line.insn.Target(s.pc), moved.Target(t.pc);
    StubIsNoInstruction(plan, a, b);
  }

  // So do they at the end of a function whose copy is torn from the function behind it:
  // the original runs on into that function, or is to return there.
  lemma PartAtSeam(plan: Plan, image: map<int, Insn>, x: Site, s: State, t: State)
    requires plan.Valid() && Transplantable(plan) && Emitted(plan, image)
    requires AtSite(plan, x, s.pc, t.pc) && x.i == |plan.body[x.f]| - 1 && plan.body[x.f][x.i].insn.WellFormed()
    requires ComesPast(plan, plan.body[x.f][x.i]) && !SeamHolds(plan, x.f)
    requires s.data == map[0 := Addr(x.f)] && t.data == map[0 := Addr(plan.base[x.f])]
    ensures forall n: nat :: n > 0 ==> !Lockstep(plan, Probing(false), plan.p.insns, image, s, t, n)
  {
    hide Plan.Valid, Emitted, Transplantable, Corresponds, InCopied, RelatedData, Faithful;
    var line, moved := SiteFacts(plan, image, x, s.pc, t.pc);
    SameOp(plan, plan.chosen[x.f], line, moved);
    var a, b := s.pc + |line.insn.raw|, t.pc + |moved.raw|;
    assert InCopied(plan, a) && !Corresponds(plan, a, b) by { BodyFacts(plan, plan.chosen[x.f]); }
    EntrySite(plan, x.f);
    CorrespondsIsCopied(plan, x.f, plan.base[x.f]);
    assert line.insn.op.IndirectCall? ==> Operand(Probing(false), line.insn, s) == Addr(x.f);
    hide SeamHolds, AtSite, Operand, Insn.WellFormed;
    FallsApart(plan, image, s, t, line.insn, moved, x.f);
  }

  lemma FallsApart(plan: Plan, image: map<int, Insn>, s: State, t: State, insn: Insn, moved: Insn, f: int)
    requires s.pc in plan.p.insns && plan.p.insns[s.pc] == insn && t.pc in image && image[t.pc] == moved
    requires insn.WellFormed() && moved.WellFormed() && moved.op == insn.op
    requires !insn.op.Jump? && !insn.op.Ret? && !insn.op.IndirectJump?
    requires insn.op.Call? ==> InCopied(plan, insn.Target(s.pc))
    requires insn.op.IndirectCall? ==> Operand(Probing(false), insn, s) == Addr(f) && InCopied(plan, f)
    requires InCopied(plan, s.pc + |insn.raw|) && !Corresponds(plan, s.pc + |insn.raw|, t.pc + |moved.raw|)
    ensures forall n: nat :: n > 0 ==> !Lockstep(plan, Probing(false), plan.p.insns, image, s, t, n)
  {
    hide InCopied, Corresponds, RelatedCalls, RelatedData, Operand, Insn.Target, Insn.Shape, Insn.WellFormed, Left;
    NotPushed(plan, s.pc + |insn.raw|, t.pc + |moved.raw|, s.calls, t.calls);
  }

  lemma NotPushed(plan: Plan, a: int, b: int, cs: seq<int>, ds: seq<int>)
    requires InCopied(plan, a) && !Corresponds(plan, a, b)
    ensures !RelatedCalls(plan, [a] + cs, [b] + ds)
  {
    hide InCopied, Corresponds, AtEnd;
    assert ([a] + cs)[0] == a && ([b] + ds)[0] == b;
  }

  lemma MisledBranch(plan: Plan, a: int) returns (x: Site)
    requires plan.Valid() && a in plan.traps
    ensures x.f in plan.chosen && x.f in plan.body && x.f in plan.base && x.i < |plan.body[x.f]|
    ensures plan.body[x.f][x.i].insn.WellFormed() && Exits(plan.chosen[x.f], plan.body[x.f][x.i], a)
    ensures AtSite(plan, x, plan.body[x.f][x.i].addr, plan.NewAddress(x.f, plan.body[x.f][x.i].addr))
  {
    hide Reachable, Copied;
    var f :| f in plan.chosen && BranchesTo(plan.p, plan.chosen[f], a);
    ChosenAt(plan, f);
    BodyFacts(plan, plan.chosen[f]);
    LinesAreValid(plan.p, plan.chosen[f], plan.body[f]);
    var line :| line in plan.body[f] && Exits(plan.chosen[f], line, a);
    var i :| 0 <= i < |plan.body[f]| && plan.body[f][i] == line;
    x := Site(f, i);
  }

  lemma TornSeam(plan: Plan, f: int) returns (x: Site)
    requires plan.Valid() && f in plan.chosen && !SeamHolds(plan, f)
    ensures x.f == f && f in plan.body && f in plan.base && x.i + 1 == |plan.body[f]|
    ensures plan.body[f][x.i].insn.WellFormed() && ComesPast(plan, plan.body[f][x.i])
    ensures AtSite(plan, x, plan.body[f][x.i].addr, plan.NewAddress(f, plan.body[f][x.i].addr))
  {
    hide Reachable, Sound, TrapsExact, ComesPast, InCopied, Corresponds;
    ChosenAt(plan, f);
    BodyFacts(plan, plan.chosen[f]);
    x := Site(f, |plan.body[f]| - 1);
    assert plan.body[f][x.i] in plan.body[f];
  }

  ghost predicate AlwaysInLockstep(plan: Plan, image: map<int, Insn>) {
    forall sem, s, t, n: nat :: Uniform(plan, sem) && InStep(plan, s, t) ==>
      Lockstep(plan, sem, plan.p.insns, image, s, t, n)
  }

  lemma FailsOnce(plan: Plan, image: map<int, Insn>, sem: Semantics, s: State, t: State)
    requires Uniform(plan, sem) && InStep(plan, s, t) && !Lockstep(plan, sem, plan.p.insns, image, s, t, 1)
    ensures !AlwaysInLockstep(plan, image)
  {
    hide Uniform, InStep, Lockstep;
  }

  lemma TrapsNeeded(plan: Plan, image: map<int, Insn>)
    requires plan.Valid() && Transplantable(plan) && Emitted(plan, image) && !TrapsOutside(plan)
    ensures !AlwaysInLockstep(plan, image)
  {
    hide Reachable, TrapsExact, Sound, Emitted, Transplantable, Uniform, InStep, Lockstep, InCopied, BodyOf, AtSite,
         AlwaysInLockstep;
    var a :| a in plan.traps && a !in plan.chosen && InCopied(plan, a);
    var x := MisledBranch(plan, a);
    var at := plan.body[x.f][x.i].addr;
    var s, t := State(at, [], map[]), State(plan.NewAddress(x.f, at), [], map[]);
    ProbingIsUniform(plan, true);
    StartsInStep(plan, x, s, t);
    PartAt(plan, Probing(true), image, x, s, t);
    FailsOnce(plan, image, Probing(true), s, t);
  }

  lemma SeamsNeeded(plan: Plan, image: map<int, Insn>)
    requires plan.Valid() && Transplantable(plan) && Emitted(plan, image) && !SeamsHold(plan)
    ensures !AlwaysInLockstep(plan, image)
  {
    hide Plan.Valid, Emitted, Transplantable, Uniform, InStep, Lockstep, InCopied, AtSite, AlwaysInLockstep,
         SeamHolds, ComesPast;
    var f :| f in plan.chosen && !SeamHolds(plan, f);
    var x := TornSeam(plan, f);
    var at := plan.body[f][x.i].addr;
    var s := State(at, [], map[0 := Addr(f)]);
    var t := State(plan.NewAddress(f, at), [], map[0 := Addr(plan.base[f])]);
    ProbingIsUniform(plan, false);
    EntriesRelated(plan, f);
    StartsInStep(plan, x, s, t);
    PartAtSeam(plan, image, x, s, t);
    FailsOnce(plan, image, Probing(false), s, t);
  }

  lemma EntriesRelated(plan: Plan, f: int)
    requires f in plan.base
    ensures RelatedData(plan, map[0 := Addr(f)], map[0 := Addr(plan.base[f])])
  {
  }

  // So the two conditions are exact: the copy runs in lockstep with the original, from
  // all corresponding states and for all uniform meanings, exactly when they hold.
  lemma LockstepIff(plan: Plan, image: map<int, Insn>)
    requires plan.Valid() && Transplantable(plan) && Emitted(plan, image)
    ensures TrapsOutside(plan) && SeamsHold(plan) <==> AlwaysInLockstep(plan, image)
  {
    hide Plan.Valid, Emitted, Transplantable, Uniform, InStep, Lockstep, TrapsOutside, SeamsHold;
    if TrapsOutside(plan) && SeamsHold(plan) {
      forall sem, s, t, n: nat | Uniform(plan, sem) && InStep(plan, s, t)
        ensures Lockstep(plan, sem, plan.p.insns, image, s, t, n)
      {
        TransplantRunsInLockstep(plan, sem, image, s, t, n);
      }
    } else if !TrapsOutside(plan) {
      TrapsNeeded(plan, image);
    } else {
      SeamsNeeded(plan, image);
    }
  }

  lemma StartsInStep(plan: Plan, x: Site, s: State, t: State)
    requires plan.Valid() && AtSite(plan, x, s.pc, t.pc)
    requires s.calls == t.calls == [] && RelatedData(plan, s.data, t.data)
    ensures InStep(plan, s, t)
  {
    hide Reachable, TrapsExact, Sound, RelatedData;
    SiteCorresponds(plan, x, s.pc, t.pc);
  }
}
