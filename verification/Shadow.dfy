/**
 Shadow memory (src/rbx_payload.S, PoisonShadow and sdc_rbx_memset): one byte for every
 eight bytes of the arena, at (address >> 3) + 0x7fff8000.

 The runtime data have the values the generator gives them: no middle memory, high
 memory up to 0x7fffffffffff, poisoning allowed, and everything else zero.
 */
module Shadow {
  import opened Words
  import opened Memory

  const OFFSET: nat := 0x7fff8000
  const MID_BEG: Word := 0
  const MID_END: Word := 0
  const HIGH_END: Word := 0x7fff_ffff_ffff
  const HIGH_BEG: Word := HIGH_END / 8 + OFFSET + 1
  const CAN_POISON: bool := true
  const PROTECT_SHADOW_GAP: bool := false
  const MMAP_THRESHOLD: nat := 0

  datatype Outcome = Returned | Poisoned | TrapCheckFailed | TrapGetPageSize

  function ShadowOf(a: Word): nat { a / 8 + OFFSET }

  // Low, middle or high memory, or the gap below the shadow of high memory.
  predicate AddrIsInMem(a: Word) {
    if a < OFFSET then true
    else if (MID_BEG - 1) % W < a && a <= MID_END then true
    else if HIGH_BEG <= a && a <= HIGH_END then true
    else if PROTECT_SHADOW_GAP then false
    else if MID_BEG == 0 then a / 0x1000 >= 0x8fff7 && a <= HIGH_BEG / 8 + OFFSET - 1
    else false
  }

  // In numbers: the memory below the shadow, the gap in the middle of the shadow, and the
  // memory above it.
  lemma AddrIsInMemIff(a: Word)
    ensures AddrIsInMem(a) <==>
            a < 0x7fff_8000 || 0x8fff_7000 <= a <= 0x200_8fff_6fff || 0x1000_7fff_8000 <= a <= 0x7fff_ffff_ffff
    ensures ShadowOf(a) == a / 8 + 0x7fff_8000
  {
  }

  // memset: entry, the ladder on short lengths, and rep stosb for the rest.
  method Memset(mem: array<Byte>, a: nat, b: Byte, n: nat)
    requires a + n <= mem.Length
    modifies mem
    ensures forall i :: 0 <= i < mem.Length ==> mem[i] == if a <= i < a + n then b else old(mem[i])
  {
    if n < 0x20 && n < 0x10 && n < 8 && n < 4 && !(n > 1) {
      if n < 1 {
        return;
      }
      mem[a] := b;
    } else {
      Fill(mem, a, n, b);
    }
  }

  // The arena [base, base + 8 * window) lies in high memory with eight bytes to spare
  // below it, and shadow[0] is the shadow byte of its first eight bytes.
  ghost predicate Mapped(base: Word, window: nat) {
    base % 8 == 0 && HIGH_BEG + 8 <= base && base + 8 * window <= HIGH_END
  }

  // Poisons the shadow of [addr, addr + size) for a range inside the arena. A nonzero
  // value on an aligned range writes exactly the shadow bytes of that range; anything
  // else writes nothing and ends in a trap stub.
  method PoisonShadow(shadow: array<Byte>, base: Word, addr: Word, size: Word, value: Byte)
    returns (o: Outcome)
    requires Mapped(base, shadow.Length)
    requires base <= addr && addr + size <= base + 8 * shadow.Length
    modifies shadow
    ensures o == Poisoned <==> addr % 8 == 0 && size % 8 == 0 && value != 0
    ensures o == TrapGetPageSize <==> addr % 8 == 0 && size % 8 == 0 && value == 0
    ensures o != Returned
    ensures forall i :: 0 <= i < shadow.Length ==>
              shadow[i] == if o == Poisoned && addr <= base + 8 * i < addr + size then value else old(shadow[i])
  {
    if value != 0 && !CAN_POISON {
      return Returned;
    }
    if addr % 8 != 0 || !AddrIsInMem(addr) {
      return TrapCheckFailed;
    }
    if size % 8 != 0 {
      return TrapCheckFailed;
    }
    var last: Word := (addr + size - 8) % W;
    if !AddrIsInMem(last) {
      return TrapCheckFailed;
    }
    var begin, n := ShadowOf(addr), ShadowOf(last) + 1 - ShadowOf(addr);
    if value == 0 && n >= MMAP_THRESHOLD {
      // clearing asks for the page size, which is not cached
      return TrapGetPageSize;
    }
    Memset(shadow, begin - ShadowOf(base), value, n);
    return Poisoned;
  }
}
