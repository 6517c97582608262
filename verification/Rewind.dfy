/**
 Running the payload and getting back from it (src/rbx_payload.S:101-131): the
 callee-saved registers and the address of the flag are pushed, the stack pointer is
 saved, and whatever happens in the payload the same frame is popped again.

 The callee-saved registers are those of section 3.2.1 of the System V AMD64 psABI.
 */
module Rewind {
  import opened Words
  import opened Memory
  import opened FaultCapture

  // Stack and globals, byte by byte at their addresses.
  type StackBytes = map<int, Byte>

  function ByteIn(m: StackBytes, a: int): Byte {
    if a in m then m[a] else 0
  }

  // The eight bytes at an address, and the word they are.
  function EightAt(m: StackBytes, a: int): (bytes: seq<Byte>)
    ensures |bytes| == 8
  {
    [ByteIn(m, a), ByteIn(m, a + 1), ByteIn(m, a + 2), ByteIn(m, a + 3),
     ByteIn(m, a + 4), ByteIn(m, a + 5), ByteIn(m, a + 6), ByteIn(m, a + 7)]
  }

  function Load(m: StackBytes, a: int): Word {
    FromLE64(EightAt(m, a))
  }

  function Stored(m: StackBytes, a: int, v: Word): StackBytes {
    var b := LE64(v);
    m[a := b[0]][a + 1 := b[1]][a + 2 := b[2]][a + 3 := b[3]]
     [a + 4 := b[4]][a + 5 := b[5]][a + 6 := b[6]][a + 7 := b[7]]
  }

  lemma LoadStored(m: StackBytes, a: int, v: Word)
    ensures Load(Stored(m, a, v), a) == v
  {
    FromLE64OfLE64(v);
    hide FromLE64, LE64;
    assert EightAt(Stored(m, a, v), a) == LE64(v);
  }

  lemma LoadBeside(m: StackBytes, a: int, v: Word)
    ensures forall b: int :: b + 8 <= a || a + 8 <= b ==> Load(Stored(m, a, v), b) == Load(m, b)
  {
    hide FromLE64, LE64;
    forall b: int | b + 8 <= a || a + 8 <= b
      ensures Load(Stored(m, a, v), b) == Load(m, b)
    {
      assert EightAt(Stored(m, a, v), b) == EightAt(m, b);
    }
  }

  // What the payload leaves behind: it returned, or an exception was redirected to the
  // landing point with whatever registers it had.
  datatype Payload = Returned(regs: Regs, mem: StackBytes) | Redirected(regs: Regs, mem: StackBytes)

  predicate SameSaved(r: Regs, s: Regs) {
    r.rbp == s.rbp && r.rbx == s.rbx && r.r12 == s.r12 && r.r13 == s.r13 && r.r14 == s.r14 && r.r15 == s.r15
  }

  class Machine {
    var regs: Regs
    var mem: StackBytes
    var savedRsp: Word

    constructor (regs: Regs, mem: StackBytes)
      ensures this.regs == regs && this.mem == mem
    {
      this.regs, this.mem, this.savedRsp := regs, mem, 0;
    }

    method Push(v: Word)
      requires regs.rsp >= 8
      modifies this`regs, this`mem
      ensures regs == old(regs).(rsp := old(regs.rsp) - 8)
      ensures mem == Stored(old(mem), regs.rsp, v)
    {
      regs := regs.(rsp := regs.rsp - 8);
      mem := Stored(mem, regs.rsp, v);
    }

    method StoreWord(a: Word, v: Word)
      modifies this`mem
      ensures mem == Stored(old(mem), a, v)
    {
      mem := Stored(mem, a, v);
    }

    // A word pushed is there, and the words beside it stay.
    method PushKept(v: Word)
      requires regs.rsp >= 8
      modifies this`regs, this`mem
      ensures regs == old(regs).(rsp := old(regs.rsp) - 8)
      ensures Load(mem, regs.rsp) == v
      ensures forall a :: a + 8 <= regs.rsp || regs.rsp + 8 <= a ==> Load(mem, a) == Load(old(mem), a)
    {
      hide Load, Stored;
      Push(v);
      LoadStored(old(mem), regs.rsp, v);
      LoadBeside(old(mem), regs.rsp, v);
    }

    method Pop() returns (v: Word)
      requires regs.rsp + 8 < W
      modifies this`regs
      ensures v == Load(mem, old(regs.rsp))
      ensures regs == old(regs).(rsp := old(regs.rsp) + 8)
    {
      v := Load(mem, regs.rsp);
      regs := regs.(rsp := regs.rsp + 8);
    }

    // The prologue: six callee-saved registers and the flag address, and the stack
    // pointer they lie at.
    method SaveFrame()
      requires regs.rsp >= 56
      modifies this
      ensures regs == old(regs).(rsp := old(regs.rsp) - 56)
      ensures savedRsp == regs.rsp
      ensures SavedFrame(mem, savedRsp, old(regs))
      ensures forall a :: a + 8 <= savedRsp || savedRsp + 56 <= a ==> Load(mem, a) == Load(old(mem), a)
    {
      hide Load, Stored;
      PushKept(regs.rbp);
      PushKept(regs.rbx);
      PushKept(regs.r12);
      PushKept(regs.r13);
      PushKept(regs.r14);
      PushKept(regs.r15);
      PushKept(regs.rsi);
      savedRsp := regs.rsp;
    }

    // .Lcall_return
    method PopFrame()
      requires regs.rsp + 56 < W
      modifies this`regs
      ensures regs.rsp == old(regs.rsp) + 56
      ensures regs.rip == Load(mem, old(regs.rsp) + 48)
      ensures regs.rax == old(regs.rax)
      ensures regs.r15 == Load(mem, old(regs.rsp)) && regs.r14 == Load(mem, old(regs.rsp) + 8)
      ensures regs.r13 == Load(mem, old(regs.rsp) + 16) && regs.r12 == Load(mem, old(regs.rsp) + 24)
      ensures regs.rbx == Load(mem, old(regs.rsp) + 32) && regs.rbp == Load(mem, old(regs.rsp) + 40)
    {
      hide Load;
      var v := Pop();
      regs := regs.(r15 := v);
      v := Pop();
      regs := regs.(r14 := v);
      v := Pop();
      regs := regs.(r13 := v);
      v := Pop();
      regs := regs.(r12 := v);
      v := Pop();
      regs := regs.(rbx := v);
      v := Pop();
      regs := regs.(rbp := v);
      v := Pop();
      regs := regs.(rip := v);
    }

    // sdc_rbx_call. Entered with the return address on top of the stack and the address
    // of the flag in rsi. The payload may have done anything to registers and memory: the
    // saved words and the flag address are taken from wherever the stack pointer then is,
    // and from whatever is there, the write to the flag included.
    method Call(payload: Payload)
      requires 56 <= regs.rsp && regs.rsp + 8 < W
      requires payload.Returned? ==> payload.regs.rsp + 64 < W
      modifies this
      ensures regs.rsp == old(At(payload)) + 64 && mem == old(FlagWritten(payload))
      ensures (SameSaved(regs, old(regs)) && regs.rip == Load(old(mem), old(regs).rsp)) <==>
              old(RegistersIntact(payload))
      ensures regs.rax == if payload.Redirected? then 0 else payload.regs.rax
      ensures Load(payload.mem, old(At(payload))) == old(regs).rsi ==>
                Load(mem, old(regs).rsi) == if payload.Redirected? then 1 else 0
    {
      hide Load, SavedFrame, Stored;
      SaveFrame();
      mem := payload.mem;
      regs := payload.regs;
      if payload.Redirected? {
        regs := regs.(rsp := savedRsp);
      }
      var rsi := Pop();
      regs := regs.(rsi := rsi);
      if payload.Redirected? {
        StoreWord(rsi, 1);
        regs := regs.(rax := 0);
      } else {
        StoreWord(rsi, 0);
      }
      LoadStored(payload.mem, rsi, if payload.Redirected? then 1 else 0);
      PopFrame();
    }

    // Where the epilogue finds the frame: a redirected exception gets the saved stack
    // pointer, a payload that returns keeps its own.
    function At(payload: Payload): int
      reads this
    {
      if payload.Redirected? then regs.rsp - 56 else payload.regs.rsp
    }

    // What the payload leaves in memory, with the flag written.
    function FlagWritten(payload: Payload): StackBytes
      reads this
    {
      Stored(payload.mem, Load(payload.mem, At(payload)), if payload.Redirected? then 1 else 0)
    }

    // The six saved registers and the return address, as they are on entry, are where
    // the epilogue will look for them.
    ghost predicate RegistersIntact(payload: Payload)
      reads this
    {
      var m, at := FlagWritten(payload), At(payload);
      && Load(m, at + 8) == regs.r15 && Load(m, at + 16) == regs.r14
      && Load(m, at + 24) == regs.r13 && Load(m, at + 32) == regs.r12
      && Load(m, at + 40) == regs.rbx && Load(m, at + 48) == regs.rbp
      && Load(m, at + 56) == Load(mem, regs.rsp)
    }

    // They are if the payload kept the stack pointer and all the words of the frame, and
    // the flag lies outside.
    lemma KeptIsIntact(payload: Payload)
      requires At(payload) == regs.rsp - 56 && SavedFrame(payload.mem, At(payload), regs)
      requires Load(payload.mem, regs.rsp) == Load(mem, regs.rsp)
      requires regs.rsi + 8 <= regs.rsp - 56 || regs.rsp + 8 <= regs.rsi
      ensures RegistersIntact(payload)
    {
      hide Load, Stored;
      LoadBeside(payload.mem, regs.rsi, if payload.Redirected? then 1 else 0);
    }
  }

  ghost predicate SavedFrame(m: StackBytes, at: int, r: Regs) {
    && Load(m, at) == r.rsi
    && Load(m, at + 8) == r.r15 && Load(m, at + 16) == r.r14
    && Load(m, at + 24) == r.r13 && Load(m, at + 32) == r.r12
    && Load(m, at + 40) == r.rbx && Load(m, at + 48) == r.rbp
  }
}
