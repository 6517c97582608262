/**
 Re-emitting one instruction at its new address (tools/gen_rbx_payload.py:254-289,
 339-370).

 The generator finds the displacement by searching the bytes of the instruction for
 the value it should have. The assembler then computes the new value from the symbol
 the generator wrote in its place.
 */
module Relocation {
  import opened Wrappers
  import opened Words
  import opened Binary

  const M32: int := 0x1_0000_0000

  const TLS_READ_FS: seq<Byte> := [0x66, 0x66, 0x66, 0x64, 0x48, 0x8b, 0x04, 0x25, 0x00, 0x00, 0x00, 0x00]
  const TLS_READ_GS: seq<Byte> := [0x66, 0x66, 0x66, 0x65, 0x48, 0x8b, 0x04, 0x25, 0x28, 0x00, 0x00, 0x00]

  /* ---------------- bytes.rfind and bytes.count ---------------- */

  predicate Occurs(raw: seq<Byte>, pattern: seq<Byte>, i: int) {
    0 <= i && i + |pattern| <= |raw| && raw[i..i + |pattern|] == pattern
  }

  // The last occurrence at or before i, or -1.
  function RFindFrom(raw: seq<Byte>, pattern: seq<Byte>, i: int): (pos: int)
    requires -1 <= i
    ensures -1 <= pos <= i
    ensures pos >= 0 ==> Occurs(raw, pattern, pos)
    ensures forall j :: pos < j <= i ==> !Occurs(raw, pattern, j)
  {
    if i < 0 || Occurs(raw, pattern, i) then i else RFindFrom(raw, pattern, i - 1)
  }

  function RFind(raw: seq<Byte>, pattern: seq<Byte>): int {
    RFindFrom(raw, pattern, |raw|)
  }

  // Occurrences from i on that do not overlap, counted from the left.
  function CountFrom(raw: seq<Byte>, pattern: seq<Byte>, i: nat): nat
    requires |pattern| > 0
    decreases |raw| - i
  {
    if i + |pattern| > |raw| then 0
    else if Occurs(raw, pattern, i) then 1 + CountFrom(raw, pattern, i + |pattern|)
    else CountFrom(raw, pattern, i + 1)
  }

  /* ---------------- one displacement ---------------- */

  // The bytes the displacement to target must consist of.
  function Pattern(raw: seq<Byte>, addr: int, target: int): (pattern: seq<Byte>)
    ensures |pattern| == 4
  {
    LE32((target - (addr + |raw|)) % M32)
  }

  // The instruction at addr, re-emitted at address at with the displacement to target
  // replaced by one to symbol. None when the generator gives up.
  function Rel32(raw: seq<Byte>, addr: int, target: int, at: int, symbol: int): Option<seq<Byte>> {
    var pattern := Pattern(raw, addr, target);
    var pos := RFind(raw, pattern);
    if pos < 0 || CountFrom(raw, pattern, 0) != 1 then None
    else
      var tail := |raw| - pos;
      // .long symbol - . - tail, assembled at address at + pos
      Some(raw[..pos] + LE32((symbol - (at + pos) - tail) % M32) + raw[pos + 4..])
  }

  lemma {:induction false} NoneCounted(raw: seq<Byte>, pattern: seq<Byte>, i: nat)
    requires |pattern| > 0 && forall j :: i <= j ==> !Occurs(raw, pattern, j)
    ensures CountFrom(raw, pattern, i) == 0
    decreases |raw| - i
  {
    if i + |pattern| <= |raw| { NoneCounted(raw, pattern, i + 1); }
  }

  // The generator gives up only when the pattern is not counted once.
  lemma NotLocated(raw: seq<Byte>, addr: int, target: int)
    ensures forall at, symbol :: Rel32(raw, addr, target, at, symbol) == None ==>
              CountFrom(raw, Pattern(raw, addr, target), 0) != 1
  {
    var pattern := Pattern(raw, addr, target);
    hide CountFrom, Occurs, Pattern;
    if RFind(raw, pattern) < 0 {
      forall j | 0 <= j ensures !Occurs(raw, pattern, j) { if j > |raw| { NoRoom(raw, pattern, j); } }
      NoneCounted(raw, pattern, 0);
    }
  }

  lemma NoRoom(raw: seq<Byte>, pattern: seq<Byte>, j: int)
    requires j > |raw|
    ensures !Occurs(raw, pattern, j)
  {
  }

  // The search finds the displacement, and not another occurrence of the same bytes.
  predicate FindsDisplacement(insn: Insn, addr: int)
    requires insn.WellFormed() && insn.Relative()
  {
    insn.disp.width == 4 &&
    RFind(insn.raw, Pattern(insn.raw, addr, insn.Target(addr))) == insn.disp.pos
  }

  lemma SignedOfMod(d: int)
    requires -0x8000_0000 <= d < 0x8000_0000
    ensures Signed(d % M32, M32) == d
  {
    assert d % M32 == if d >= 0 then d else d + M32;
  }

  lemma ModOfSigned(n: Word32)
    ensures Signed(n, M32) % M32 == n
  {
  }

  // The displacement itself is one of the places where the pattern occurs.
  lemma DisplacementOccurs(insn: Insn, addr: int)
    requires insn.WellFormed() && insn.Relative() && insn.disp.width == 4
    ensures Occurs(insn.raw, Pattern(insn.raw, addr, insn.Target(addr)), insn.disp.pos)
  {
    var bytes := insn.raw[insn.disp.pos..insn.disp.pos + 4];
    ModOfSigned(FromLE32(bytes));
    LE32OfFromLE32(bytes);
  }

  // So the search succeeds exactly when the pattern does not occur again further on,
  lemma FindsDisplacementIff(insn: Insn, addr: int)
    requires insn.WellFormed() && insn.Relative() && insn.disp.width == 4
    ensures FindsDisplacement(insn, addr) <==>
            forall j :: j > insn.disp.pos ==> !Occurs(insn.raw, Pattern(insn.raw, addr, insn.Target(addr)), j)
  {
    DisplacementOccurs(insn, addr);
  }

  // which is so for every branch, because a branch ends with its displacement.
  lemma BranchesAreFound(insn: Insn, addr: int)
    requires insn.WellFormed() && insn.Direct() && insn.disp.width == 4
    ensures FindsDisplacement(insn, addr)
  {
    DisplacementOccurs(insn, addr);
  }

  // A pattern that occurs at one place only is counted once.
  lemma {:induction false} CountedOnce(raw: seq<Byte>, pattern: seq<Byte>, i: nat, pos: nat)
    requires |pattern| > 0 && i <= pos && Occurs(raw, pattern, pos)
    requires forall j :: j >= i && Occurs(raw, pattern, j) ==> j == pos
    ensures CountFrom(raw, pattern, i) == 1
    decreases pos - i
  {
    if i < pos {
      CountedOnce(raw, pattern, i + 1, pos);
    } else {
      CountedNever(raw, pattern, i + |pattern|);
    }
  }

  lemma {:induction false} CountedNever(raw: seq<Byte>, pattern: seq<Byte>, i: nat)
    requires |pattern| > 0 && forall j :: j >= i ==> !Occurs(raw, pattern, j)
    ensures CountFrom(raw, pattern, i) == 0
    decreases |raw| - i
  {
    if i + |pattern| <= |raw| { CountedNever(raw, pattern, i + 1); }
  }

  // The instruction with its displacement, and nothing else, replaced: what is wanted.
  function Retargeted(insn: Insn, at: int, symbol: int): (bytes: seq<Byte>)
    requires insn.WellFormed() && insn.Relative() && insn.disp.width == 4
    ensures |bytes| == |insn.raw|
  {
    var pos := insn.disp.pos;
    insn.raw[..pos] + LE32((symbol - (at + |insn.raw|)) % M32) + insn.raw[pos + 4..]
  }

  // When the generator gives up, and when what it writes is what is wanted: when the
  // search finds the displacement, or when the distance to the target does not change.
  lemma Rel32Iff(insn: Insn, addr: int, at: int, symbol: int)
    requires insn.WellFormed() && insn.Relative() && insn.disp.width == 4
    ensures var target := insn.Target(addr);
            var r := Rel32(insn.raw, addr, target, at, symbol);
            && (r.None? <==> CountFrom(insn.raw, Pattern(insn.raw, addr, target), 0) != 1)
            && (r.Some? ==>
                  (r.value == Retargeted(insn, at, symbol) <==>
                     FindsDisplacement(insn, addr) || (symbol - at) % M32 == (target - addr) % M32))
  {
    hide CountFrom, Occurs, RFind, Pattern, LE32, Insn.Target;
    DisplacementOccurs(insn, addr);
    var raw, target := insn.raw, insn.Target(addr);
    var pattern, pos := Pattern(raw, addr, target), RFind(raw, Pattern(raw, addr, target));
    LastIsNotBefore(raw, pattern, insn.disp.pos);
    if CountFrom(raw, pattern, 0) == 1 {
      var n: Word32 := (symbol - (at + |raw|)) % M32;
      assert symbol - (at + pos) - (|raw| - pos) == symbol - (at + |raw|);
      SameDistance(symbol - at, target - addr, |raw|);
      SameWord(n, (target - (addr + |raw|)) % M32);
      PatternIs(raw, addr, target);
      OccursThere(raw, pattern, insn.disp.pos);
      OccursThere(raw, pattern, pos);
      Overlaid(raw, pattern, LE32(n), insn.disp.pos, pos);
    }
  }

  lemma PatternIs(raw: seq<Byte>, addr: int, target: int)
    ensures Pattern(raw, addr, target) == LE32((target - (addr + |raw|)) % M32)
  {
  }

  lemma LastIsNotBefore(raw: seq<Byte>, pattern: seq<Byte>, i: nat)
    requires Occurs(raw, pattern, i)
    ensures i <= RFind(raw, pattern) && Occurs(raw, pattern, RFind(raw, pattern))
  {
  }

  lemma OccursThere(raw: seq<Byte>, pattern: seq<Byte>, i: nat)
    requires Occurs(raw, pattern, i)
    ensures i + |pattern| <= |raw| && raw[i..i + |pattern|] == pattern
  {
  }

  lemma SameDistance(d: int, e: int, length: nat)
    ensures d % M32 == e % M32 <==> (d - length) % M32 == (e - length) % M32
  {
  }

  lemma SameWord(m: Word32, n: Word32)
    ensures LE32(m) == LE32(n) <==> m == n
  {
    FromLE32OfLE32(m);
    FromLE32OfLE32(n);
  }

  // Overlaying the word at a later occurrence gives the same bytes as overlaying it at
  // an earlier one only if it is the word that is there already.
  lemma Overlaid(raw: seq<Byte>, pattern: seq<Byte>, word: seq<Byte>, i: nat, j: nat)
    requires |pattern| == |word| == 4 && i <= j && j + 4 <= |raw|
    requires raw[i..i + 4] == pattern && raw[j..j + 4] == pattern
    ensures raw[..j] + word + raw[j + 4..] == raw[..i] + word + raw[i + 4..] <==> i == j || word == pattern
  {
    if word == pattern {
      Overwritten(raw, pattern, i);
      Overwritten(raw, pattern, j);
    }
    var late, early := raw[..j] + word + raw[j + 4..], raw[..i] + word + raw[i + 4..];
    if late == early && i < j {
      InPlace(raw, pattern, i);
      InPlace(raw, pattern, j);
      WordIsThere(raw, pattern, word, i, j, late);
    }
  }

  lemma Overwritten(raw: seq<Byte>, pattern: seq<Byte>, i: nat)
    requires i + |pattern| <= |raw| && raw[i..i + |pattern|] == pattern
    ensures raw[..i] + pattern + raw[i + |pattern|..] == raw
  {
  }

  lemma InPlace(raw: seq<Byte>, pattern: seq<Byte>, i: nat)
    requires i + |pattern| <= |raw| && raw[i..i + |pattern|] == pattern
    ensures forall k :: 0 <= k < |pattern| ==> raw[i + k] == pattern[k]
  {
  }

  lemma WordIsThere(raw: seq<Byte>, pattern: seq<Byte>, word: seq<Byte>, i: nat, j: nat, both: seq<Byte>)
    requires |pattern| == |word| == 4 && i < j && j + 4 <= |raw| == |both|
    requires forall k :: 0 <= k < 4 ==> raw[i + k] == pattern[k] && raw[j + k] == pattern[k]
    requires forall k :: 0 <= k < 4 ==> both[i + k] == word[k] && both[j + k] == word[k]
    requires forall k :: 0 <= k < j ==> both[k] == raw[k]
    ensures word == pattern
  {
    assert word[0] == both[i + 0] == raw[i + 0] == pattern[0];
    var d := j - i;
    assert d <= 1 ==> word[1] == both[j + (1 - d)] == word[0] && pattern[1] == raw[j + (1 - d)];
    assert d > 1 ==> word[1] == both[i + 1] == raw[i + 1] == pattern[1];
    assert word[1] == pattern[1];
    assert d <= 2 ==> word[2] == both[j + (2 - d)] == word[2 - d] && pattern[2] == raw[j + (2 - d)] == pattern[2 - d];
    assert d > 2 ==> word[2] == both[i + 2] == raw[i + 2] == pattern[2];
    assert word[2] == pattern[2];
    assert d <= 3 ==> word[3] == both[j + (3 - d)] == word[3 - d] && pattern[3] == raw[j + (3 - d)] == pattern[3 - d];
    assert d > 3 ==> word[3] == both[i + 3] == raw[i + 3] == pattern[3];
  }

  // An operand addressed relative to rip and followed by an immediate: cmpb
  // $0x1,0x1010101(%rip). Counted once, found one byte too late, and re-emitted with
  // another target than the symbol, unless the distance happens not to change.
  const OVERLAP: Insn := Insn([0x80, 0x3d, 0x01, 0x01, 0x01, 0x01, 0x01], RipRef, Disp(2, 4))

  lemma OverlapIsCountedOnce(addr: int)
    ensures OVERLAP.WellFormed() && OVERLAP.Target(addr) == addr + 0x1010108
    ensures var pattern := Pattern(OVERLAP.raw, addr, addr + 0x1010108);
            CountFrom(OVERLAP.raw, pattern, 0) == 1 && RFind(OVERLAP.raw, pattern) == 3
    ensures !FindsDisplacement(OVERLAP, addr)
  {
    var raw := OVERLAP.raw;
    assert raw[2..6] == [1, 1, 1, 1] && raw[3..7] == [1, 1, 1, 1];
    var pattern := Pattern(raw, addr, addr + 0x1010108);
    assert pattern == [1, 1, 1, 1];
    assert raw[0..4][0] == 0x80 && raw[1..5][0] == 0x3d;
    assert !Occurs(raw, pattern, 0) && !Occurs(raw, pattern, 1) && Occurs(raw, pattern, 2);
    assert CountFrom(raw, pattern, 6) == 0 && CountFrom(raw, pattern, 2) == 1 && CountFrom(raw, pattern, 1) == 1;
    assert Occurs(raw, pattern, 3);
  }

  lemma CountDoesNotRuleOutOverlap(addr: int, at: int, symbol: int)
    requires (symbol - at) % M32 != 0x1010108
    ensures var r := Rel32(OVERLAP.raw, addr, OVERLAP.Target(addr), at, symbol);
            && r.Some? && r.value != Retargeted(OVERLAP, at, symbol)
            && |r.value| == 7 && OVERLAP.(raw := r.value).WellFormed()
            && OVERLAP.(raw := r.value).Target(at) != symbol
  {
    hide RFind, CountFrom, Pattern, Retargeted, Insn.Target, Insn.Offset, FindsDisplacement, Rel32, LE32;
    OverlapIsCountedOnce(addr);
    Rel32Iff(OVERLAP, addr, at, symbol);
    OverlapBytes(addr, at, symbol);
    var n: Word32 := (symbol - (at + 7)) % M32;
    OverlapTarget(Rel32(OVERLAP.raw, addr, OVERLAP.Target(addr), at, symbol).value, n, at, symbol);
  }

  lemma OverlapBytes(addr: int, at: int, symbol: int)
    ensures OVERLAP.WellFormed()
    ensures var r := Rel32(OVERLAP.raw, addr, OVERLAP.Target(addr), at, symbol);
            r.Some? ==> r.value == OVERLAP.raw[..3] + LE32((symbol - (at + 7)) % M32) + OVERLAP.raw[7..]
  {
    hide CountFrom, RFind, LE32, Insn.Target;
    OverlapIsCountedOnce(addr);
    assert symbol - (at + 3) - 4 == symbol - (at + 7);
  }

  lemma OverlapTarget(bytes: seq<Byte>, n: Word32, at: int, symbol: int)
    requires n == (symbol - (at + 7)) % M32
    requires bytes == OVERLAP.raw[..3] + LE32(n) + OVERLAP.raw[7..]
    ensures OVERLAP.(raw := bytes).WellFormed()
    ensures OVERLAP.(raw := bytes).Target(at) == symbol ==> n == 0x1010101
  {
    var moved := OVERLAP.(raw := bytes);
    assert bytes[2..6] == [1, LE32(n)[0], LE32(n)[1], LE32(n)[2]];
    if moved.Target(at) == symbol {
      ModOfSigned(FromLE32(bytes[2..6]));
      LE32OfFromLE32(bytes[2..6]);
      assert LE32(n) == [1, 1, 1, 1];
      FromLE32OfLE32(n);
    }
  }

  // The re-emitted instruction decodes like the original one, except that its target is
  // the new symbol.
  lemma Rel32Exact(insn: Insn, addr: int, at: int, symbol: int, bytes: seq<Byte>)
    requires insn.WellFormed() && insn.Relative() && FindsDisplacement(insn, addr)
    requires Rel32(insn.raw, addr, insn.Target(addr), at, symbol) == Some(bytes)
    requires -0x8000_0000 <= symbol - (at + |insn.raw|) < 0x8000_0000
    ensures var moved := insn.(raw := bytes);
            && |bytes| == |insn.raw|
            && moved.WellFormed()
            && moved.Shape() == insn.Shape()
            && moved.Target(at) == symbol
  {
    hide RFind, CountFrom, Pattern;
    var pos := insn.disp.pos;
    var n := (symbol - (at + |insn.raw|)) % M32;
    assert symbol - (at + pos) - (|insn.raw| - pos) == symbol - (at + |insn.raw|);
    assert bytes == insn.raw[..pos] + LE32(n) + insn.raw[pos + 4..];
    assert bytes[pos..pos + 4] == LE32(n);
    assert bytes[..pos] == insn.raw[..pos] && bytes[pos + 4..] == insn.raw[pos + 4..];
    FromLE32OfLE32(n);
    SignedOfMod(symbol - (at + |insn.raw|));
  }

  // An instruction whose bytes are copied unchanged reaches as far from its new address
  // as from its old one.
  lemma CopyMovesTarget(insn: Insn, addr: int, at: int)
    requires insn.WellFormed() && insn.Relative()
    ensures insn.Target(at) == insn.Target(addr) + (at - addr)
  {
  }
}
