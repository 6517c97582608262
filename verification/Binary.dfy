/**
 The linked program the payload generator starts from (tools/gen_rbx_payload.py): its
 function symbols and its instructions, already decoded.

 An instruction is its bytes together with what the decoder knows about them: what
 kind it is and where a pc-relative displacement sits. The address a displacement
 denotes is computed from the bytes, relative to the end of the instruction.
 */
module Binary {
  import opened Wrappers
  import opened Words

  datatype Symbol = Symbol(addr: int, size: nat, name: string)

  datatype Op =
    | Plain          // falls through; touches data only
    | Jump           // jmp rel
    | CondJump       // jcc rel
    | Call           // call rel
    | Ret
    | IndirectJump   // jmp *operand
    | IndirectCall   // call *operand
    | RipRef         // falls through; an operand addressed relative to rip
    | TlsRead        // the read of the thread pointer

  datatype Displacement = NoDisp | Disp(pos: nat, width: nat)

  datatype Insn = Insn(raw: seq<Byte>, op: Op, disp: Displacement)
  {
    // call, jmp and jcc with a target in the instruction.
    predicate Direct() { op.Jump? || op.CondJump? || op.Call? }

    predicate Indirect() { op.IndirectJump? || op.IndirectCall? }

    // A direct branch, or an operand addressed relative to rip, which an indirect branch
    // may have too.
    predicate Relative() { disp.Disp? }

    predicate WellFormed() {
      && |raw| > 0
      && (Direct() || op.RipRef? ==> disp.Disp?)
      && (disp.Disp? ==> Direct() || op.RipRef? || Indirect())
      && (disp.Disp? ==> (disp.width == 1 || disp.width == 4) && disp.pos + disp.width <= |raw|)
      // a branch ends with its displacement; only short branches have a one-byte one
      && (disp.Disp? && !Direct() ==> disp.width == 4)
      && (Direct() ==> disp.pos + disp.width == |raw|)
      && (disp.Disp? && disp.width == 1 ==> |raw| < 4)
    }

    // The displacement as a signed number.
    function Offset(): int
      requires WellFormed() && Relative()
    {
      if disp.width == 1 then Signed(raw[disp.pos], 0x100)
      else Signed(FromLE32(raw[disp.pos..disp.pos + 4]), 0x1_0000_0000)
    }

    function Target(addr: int): int
      requires WellFormed() && Relative()
    {
      addr + |raw| + Offset()
    }

    // Everything the decoder sees except the displacement.
    function Shape(): seq<Byte>
      requires WellFormed()
    {
      if disp.NoDisp? then raw else raw[..disp.pos] + raw[disp.pos + disp.width..]
    }
  }

  function Signed(n: nat, modulus: nat): int {
    if n < modulus / 2 then n else n - modulus
  }

  function LE32(n: Word32): (bytes: seq<Byte>)
    ensures |bytes| == 4
  {
    [n % 0x100, n / 0x100 % 0x100, n / 0x1_0000 % 0x100, n / 0x100_0000]
  }

  function FromLE32(bytes: seq<Byte>): Word32
    requires |bytes| == 4
  {
    var b0: int, b1: int, b2: int, b3: int := bytes[0], bytes[1], bytes[2], bytes[3];
    b0 + 0x100 * b1 + 0x1_0000 * b2 + 0x100_0000 * b3
  }

  lemma FromLE32OfLE32(n: Word32)
    ensures FromLE32(LE32(n)) == n
  {
    var a, b := n / 0x100, n / 0x1_0000;
    assert b == a / 0x100 && n / 0x100_0000 == b / 0x100;
  }

  lemma LE32OfFromLE32(bytes: seq<Byte>)
    requires |bytes| == 4
    ensures LE32(FromLE32(bytes)) == bytes
  {
    FourDigits(bytes[0], bytes[1], bytes[2], bytes[3], FromLE32(bytes));
  }

  lemma FourDigits(b0: Byte, b1: Byte, b2: Byte, b3: Byte, n: int)
    requires n == (b0 as int) + 0x100 * (b1 as int) + 0x1_0000 * (b2 as int) + 0x100_0000 * (b3 as int)
    ensures n % 0x100 == b0 && n / 0x100 % 0x100 == b1 && n / 0x1_0000 % 0x100 == b2 && n / 0x100_0000 == b3
  {
    var n1, n2 := n / 0x100, n / 0x1_0000;
    assert n1 == (b1 as int) + 0x100 * (b2 as int) + 0x1_0000 * (b3 as int);
    assert n2 == (b2 as int) + 0x100 * (b3 as int);
  }

  datatype Line = Line(addr: int, insn: Insn)

  // copied holds the names of the program's own functions and of the runtime functions
  // on the hot path.
  datatype Program = Program(functions: seq<Symbol>, copied: set<string>, insns: map<int, Insn>)
  {
    ghost predicate Valid() {
      forall a :: a in insns ==> insns[a].WellFormed()
    }

    // by_addr: the first symbol with this address.
    function ByAddr(addr: int): (r: Option<Symbol>)
      ensures r.Some? ==> r.value.addr == addr && r.value in functions
    {
      FirstAt(functions, addr)
    }
  }

  function FirstAt(functions: seq<Symbol>, addr: int): (r: Option<Symbol>)
    ensures r.Some? ==> r.value.addr == addr && r.value in functions
    ensures r.Some? ==> exists k :: 0 <= k < |functions| && functions[k] == r.value
                                    && forall i :: 0 <= i < k ==> functions[i].addr != addr
    ensures r.None? ==> forall f :: f in functions ==> f.addr != addr
  {
    if functions == [] then None
    else if functions[0].addr == addr then Some(functions[0])
    else FirstAt(functions[1..], addr)
  }

  predicate Inside(f: Symbol, addr: int) {
    f.addr <= addr < f.addr + f.size
  }
}
