/**
 The measured loop (src/sdcprobe.cpp:208-262): sixteen hand-written instructions that
 fold the bytes of one sample into the hash accumulator, taken from ECX, CL and CH.

 The processor is a register file and an interpreter. Each of the four lane reads goes
 through a fault oracle, which is told the byte the architecture defines and may
 deliver any other. A write to a 32-bit register clears the upper half of the 64-bit
 one (section 3.4.1.1 of the Intel SDM, volume 1).
 */
module RegisterPath {
  import opened Words
  import opened Fnv
  import opened Samples

  const COLS: nat := 400

  datatype Reg = T0 | T1 | RCX | ACC | PRIME_REG

  datatype Insn =
    | MovdXmmEcx                  // movd   %[f], %ecx
    | MovssXmmMem                 // movss  %[f], %[dst]
    | MovzblCl(to: Reg)           // movzbl %cl, %k[to]
    | MovzblCh(to: Reg)           // movzbl %ch, %k[to]
    | XorReg(from: Reg, to: Reg)  // xor    %[from], %[to]
    | ImulReg(from: Reg, to: Reg) // imul   %[from], %[to]
    | MovEcx(to: Reg)             // mov    %ecx, %k[to]
    | ShrEcx24                    // shr    $0x18, %ecx
    | Shr16(to: Reg)              // shr    $0x10, %k[to]
    | MovzblLow(to: Reg)          // movzbl %b[to], %k[to]

  const SEQUENCE: seq<Insn> := [
    MovdXmmEcx,
    MovssXmmMem,
    MovzblCl(T0),
    MovzblCh(T1),
    XorReg(ACC, T0),
    ImulReg(PRIME_REG, T0),
    XorReg(T1, T0),
    MovEcx(T1),
    ShrEcx24,
    ImulReg(PRIME_REG, T0),
    Shr16(T1),
    MovzblLow(T1),
    XorReg(T1, T0),
    ImulReg(PRIME_REG, T0),
    XorReg(RCX, T0),
    ImulReg(PRIME_REG, T0)]

  datatype Cpu = Cpu(t0: Word, t1: Word, rcx: Word, acc: Word, prime: Word, xmm: Word32, mem: Word32)
  {
    function Get(r: Reg): Word {
      match r
      case T0 => t0
      case T1 => t1
      case RCX => rcx
      case ACC => acc
      case PRIME_REG => prime
    }

    function Set(r: Reg, v: Word): Cpu {
      match r
      case T0 => this.(t0 := v)
      case T1 => this.(t1 := v)
      case RCX => this.(rcx := v)
      case ACC => this.(acc := v)
      case PRIME_REG => this.(prime := v)
    }
  }

  // What a read of a lane delivers when the architecture defines the given byte.
  type Fault = (Lane, Byte) -> Byte

  function Low32(x: Word): Word32 { x % 0x1_0000_0000 }

  function Exec(i: Insn, c: Cpu, fault: Fault): Cpu {
    match i
    case MovdXmmEcx => c.Set(RCX, c.xmm)
    case MovssXmmMem => c.(mem := c.xmm)
    case MovzblCl(to) => c.Set(to, fault(0, c.rcx % 0x100))
    case MovzblCh(to) => c.Set(to, fault(1, c.rcx / 0x100 % 0x100))
    case XorReg(from, to) => XorWord(c.Get(to), c.Get(from)); c.Set(to, Xor(c.Get(to), c.Get(from)))
    case ImulReg(from, to) => c.Set(to, Times(c.Get(to), c.Get(from)))
    case MovEcx(to) => c.Set(to, Low32(c.rcx))
    case ShrEcx24 => c.Set(RCX, fault(3, Low32(c.rcx) / 0x100_0000))
    case Shr16(to) => c.Set(to, Low32(c.Get(to)) / 0x1_0000)
    case MovzblLow(to) => c.Set(to, fault(2, c.Get(to) % 0x100))
  }

  // Four FNV steps over the bytes observed for one sample, lowest lane first.
  function FoldSample(acc: Word, value: Word32, fault: Fault): Word {
    Step(Step(Step(Step(acc, Observed(value, fault, 0)), Observed(value, fault, 1)),
              Observed(value, fault, 2)), Observed(value, fault, 3))
  }

  // Executes the sequence from instruction i on.
  function RunFrom(i: nat, c: Cpu, fault: Fault): Cpu
    decreases |SEQUENCE| - i
  {
    if i >= |SEQUENCE| then c else RunFrom(i + 1, Exec(SEQUENCE[i], c, fault), fault)
  }

  function Observed(value: Word32, fault: Fault, lane: Lane): Byte {
    fault(lane, LaneOf(value, lane))
  }

  lemma Execute(i: nat, c: Cpu, fault: Fault) returns (d: Cpu)
    requires i < |SEQUENCE|
    ensures d == Exec(SEQUENCE[i], c, fault)
    ensures RunFrom(i, c, fault) == RunFrom(i + 1, d, fault)
  {
    d := Exec(SEQUENCE[i], c, fault);
  }

  // Lanes 0 and 1 are read while ECX still holds the whole sample.
  lemma ReadLanes01(c: Cpu, fault: Fault)
    ensures RunFrom(0, c, fault)
            == RunFrom(4, c.(rcx := c.xmm, mem := c.xmm, t0 := Observed(c.xmm, fault, 0),
                             t1 := Observed(c.xmm, fault, 1)), fault)
  {
    hide RunFrom, Times, Xor;
    var c1 := Execute(0, c, fault);
    var c2 := Execute(1, c1, fault);
    var c3 := Execute(2, c2, fault);
    var c4 := Execute(3, c3, fault);
  }

  lemma FoldLane0(c: Cpu, fault: Fault, b0: Byte)
    requires c.prime == PRIME && c.t0 == b0
    ensures RunFrom(4, c, fault) == RunFrom(6, c.(t0 := Step(c.acc, b0)), fault)
  {
    hide RunFrom, Times, Xor, Step;
    StepIsMul(c.acc, b0);
    XorComm(b0, c.acc);
    var c5 := Execute(4, c, fault);
    var c6 := Execute(5, c5, fault);
  }

  // ECX is saved and shifted down to lane 3 between the two halves of the second step.
  lemma FoldLane1(c: Cpu, fault: Fault, v: Word32, b1: Byte)
    requires c.prime == PRIME && c.rcx == v && c.t1 == b1
    ensures RunFrom(6, c, fault)
            == RunFrom(10, c.(t0 := Step(c.t0, b1), t1 := v, rcx := Observed(v, fault, 3)), fault)
  {
    hide RunFrom, Times, Xor, Step;
    StepIsMul(c.t0, b1);
    var c7 := Execute(6, c, fault);
    var c8 := Execute(7, c7, fault);
    var c9 := Execute(8, c8, fault);
    var c10 := Execute(9, c9, fault);
  }

  // Lane 2 comes out of the saved copy, lane 3 out of ECX.
  lemma FoldLanes23(c: Cpu, fault: Fault, v: Word32, b3: Byte)
    requires c.prime == PRIME && c.t1 == v && c.rcx == b3
    ensures RunFrom(10, c, fault)
            == c.(t0 := Step(Step(c.t0, Observed(v, fault, 2)), b3), t1 := Observed(v, fault, 2))
  {
    hide RunFrom, Times, Xor, Step;
    var b2 := Observed(v, fault, 2);
    StepIsMul(c.t0, b2);
    StepIsMul(Step(c.t0, b2), b3);
    var c1 := Execute(10, c, fault);
    var c2 := Execute(11, c1, fault);
    var c3 := Execute(12, c2, fault);
    var c4 := Execute(13, c3, fault);
    var c5 := Execute(14, c4, fault);
    var c6 := Execute(15, c5, fault);
    RunEnds(c6, fault);
  }

  lemma RunEnds(c: Cpu, fault: Fault)
    ensures RunFrom(16, c, fault) == c
  {
  }

  lemma StepIsMul(acc: Word, b: Byte)
    ensures Xor(acc, b) < W && Step(acc, b) == Times(Xor(acc, b), PRIME)
  {
    XorWord(acc, b);
  }

  // One sample: the sequence stores the value and performs four FNV steps over the
  // bytes it observed, in little-endian lane order, whatever the fault oracle does and
  // whatever the scratch registers held.
  lemma SequenceHashesLanes(c: Cpu, fault: Fault)
    requires c.prime == PRIME
    ensures var d := RunFrom(0, c, fault);
            && d.mem == c.xmm && d.acc == c.acc && d.prime == PRIME
            && d.t0 == FoldSample(c.acc, c.xmm, fault)
  {
    hide Exec, Step, RunFrom;
    var v, b0, b1, b3 := c.xmm, Observed(c.xmm, fault, 0), Observed(c.xmm, fault, 1), Observed(c.xmm, fault, 3);
    ReadLanes01(c, fault);
    var c4 := c.(rcx := v, mem := v, t0 := b0, t1 := b1);
    FoldLane0(c4, fault, b0);
    var c6 := c4.(t0 := Step(c.acc, b0));
    FoldLane1(c6, fault, v, b1);
    FoldLanes23(c6.(t0 := Step(c6.t0, b1), t1 := v, rcx := b3), fault, v, b3);
  }

  /* ---------------- the loop over the grid ---------------- */

  // Faults for the whole pass: one oracle for each sample.
  type FaultPlan = nat -> Fault

  function ObservedAt(values: seq<Word32>, plan: FaultPlan, k: nat): Byte
    requires k < 4 * |values|
  {
    Observed(values[k / 4], plan(k / 4), k % 4)
  }

  function ObservedBytes(values: seq<Word32>, plan: FaultPlan): (bytes: seq<Byte>)
    ensures |bytes| == 4 * |values|
    ensures forall k :: 0 <= k < |bytes| ==> bytes[k] == ObservedAt(values, plan, k)
  {
    seq(4 * |values|, k requires 0 <= k < 4 * |values| => ObservedAt(values, plan, k))
  }

  // The value of the sample stored at index n of the grid.
  function GridValues(load: (nat, nat) -> Word32, n: nat): (values: seq<Word32>)
    ensures |values| == n
  {
    seq(n, k requires 0 <= k < n => load(k / COLS, k % COLS))
  }

  // Row by row, 400 samples to a row.
  lemma GridAt(load: (nat, nat) -> Word32, n: nat, j: nat, i: nat)
    requires i < 400 && 400 * j + i < n
    ensures GridValues(load, n)[400 * j + i] == load(j, i)
  {
    var k := 400 * j + i;
    assert k / 400 == j && k % 400 == i;
  }

  lemma ObservedSnoc(values: seq<Word32>, v: Word32, plan: FaultPlan)
    ensures var n := |values|;
            ObservedBytes(values + [v], plan)
            == ObservedBytes(values, plan) + [Observed(v, plan(n), 0)] + [Observed(v, plan(n), 1)]
               + [Observed(v, plan(n), 2)] + [Observed(v, plan(n), 3)]
  {
  }

  lemma HashSample(values: seq<Word32>, v: Word32, plan: FaultPlan)
    ensures var n := |values|;
            Hash(ObservedBytes(values + [v], plan))
            == FoldSample(Hash(ObservedBytes(values, plan)), v, plan(n))
  {
    var n := |values|;
    var s0 := ObservedBytes(values, plan);
    ObservedSnoc(values, v, plan);
    var s1 := s0 + [Observed(v, plan(n), 0)];
    var s2 := s1 + [Observed(v, plan(n), 1)];
    var s3 := s2 + [Observed(v, plan(n), 2)];
    HashSnoc(s0, Observed(v, plan(n), 0));
    HashSnoc(s1, Observed(v, plan(n), 1));
    HashSnoc(s2, Observed(v, plan(n), 2));
    HashSnoc(s3, Observed(v, plan(n), 3));
  }

  // The assembly block: stores the sample and returns the new accumulator.
  method MeasuredBlock(samples: array<Word32>, n: nat, value: Word32, fault: Fault, acc: Word, rcx: Word)
    returns (t0: Word, rcxOut: Word)
    requires n < samples.Length
    modifies samples
    ensures samples[..] == old(samples[..])[n := value]
    ensures t0 == FoldSample(acc, value, fault)
  {
    var before := Cpu(0, 0, rcx, acc, PRIME, value, samples[n]);
    SequenceHashesLanes(before, fault);
    var after := RunFrom(0, before, fault);
    samples[n] := after.mem;
    t0, rcxOut := after.t0, after.rcx;
  }

  // Fills the first rows * COLS samples and returns the FNV-1a hash of the bytes the
  // register path observed. The load and the faults are arbitrary.
  method ComputeRows(samples: array<Word32>, load: (nat, nat) -> Word32, rows: nat, plan: FaultPlan)
    returns (acc: Word)
    requires rows * COLS <= samples.Length
    modifies samples
    ensures samples[..] == GridValues(load, rows * COLS) + old(samples[rows * COLS..])
    ensures acc == Hash(ObservedBytes(GridValues(load, rows * COLS), plan))
  {
    acc := BASIS;
    ghost var before := samples[..];
    var rcx: Word := 0;
    GridStart(before, load, plan);
    for j := 0 to rows
      invariant GridDone(samples[..], before, load, j * COLS, plan, acc)
    {
      for i := 0 to COLS
        invariant GridDone(samples[..], before, load, j * COLS + i, plan, acc)
      {
        hide GridDone;
        GridStep(samples[..], before, load, j, i, plan, acc);
        acc, rcx := MeasuredBlock(samples, j * COLS + i, load(j, i), plan(j * COLS + i), acc, rcx);
      }
    }
  }

  // The first n samples are done: stored, and folded into acc as observed.
  ghost predicate GridDone(now: seq<Word32>, before: seq<Word32>, load: (nat, nat) -> Word32, n: nat,
                           plan: FaultPlan, acc: Word)
  {
    && n <= |before|
    && now == GridValues(load, n) + before[n..]
    && acc == Hash(ObservedBytes(GridValues(load, n), plan))
  }

  lemma GridStart(before: seq<Word32>, load: (nat, nat) -> Word32, plan: FaultPlan)
    ensures GridDone(before, before, load, 0, plan, BASIS)
  {
  }

  lemma GridStep(now: seq<Word32>, before: seq<Word32>, load: (nat, nat) -> Word32, j: nat, i: nat,
                 plan: FaultPlan, acc: Word)
    requires i < COLS && GridDone(now, before, load, j * COLS + i, plan, acc)
    requires j * COLS + i < |before|
    ensures |now| == |before|
    ensures var n := j * COLS + i;
            GridDone(now[n := load(j, i)], before, load, n + 1, plan, FoldSample(acc, load(j, i), plan(n)))
  {
    hide Hash, ObservedBytes, GridValues, FoldSample;
    var n := j * COLS + i;
    assert n / COLS == j && n % COLS == i;
    GridSnoc(load, n, plan);
  }

  lemma GridSnoc(load: (nat, nat) -> Word32, n: nat, plan: FaultPlan)
    ensures GridValues(load, n + 1) == GridValues(load, n) + [load(n / COLS, n % COLS)]
    ensures Hash(ObservedBytes(GridValues(load, n + 1), plan))
            == FoldSample(Hash(ObservedBytes(GridValues(load, n), plan)), load(n / COLS, n % COLS), plan(n))
  {
    HashSample(GridValues(load, n), load(n / COLS, n % COLS), plan);
    assert GridValues(load, n + 1) == GridValues(load, n) + [load(n / COLS, n % COLS)];
  }

  // When every lane read delivers what the architecture defines, the register path
  // computes the hash of the stored bytes.
  lemma RightReadsAgree(values: seq<Word32>, plan: FaultPlan)
    requires forall k: nat, l: Lane, b: Byte :: k < |values| ==> plan(k)(l, b) == b
    ensures ObservedBytes(values, plan) == BytesOf(values)
  {
  }
}
