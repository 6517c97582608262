/**
 Machine words as natural numbers.

 A 64-bit register is a number below 2^64, and the two bit operations the program
 needs on such numbers, exclusive or and and, are defined bit by bit. The lemmas
 connect them with quotients and remainders by powers of two, which is what
 multiplication by an odd constant respects.
 */
module Words {

  const W: nat := 0x1_0000_0000_0000_0000

  type Byte = x: int | 0 <= x < 0x100
  type Word32 = x: int | 0 <= x < 0x1_0000_0000
  type Word = x: int | 0 <= x < 0x1_0000_0000_0000_0000

  function Pow2(n: nat): (p: nat)
    ensures p >= 1
  {
    if n == 0 then 1 else 2 * Pow2(n - 1)
  }

  function Xor(a: nat, b: nat): nat {
    if a == 0 && b == 0 then 0
    else 2 * Xor(a / 2, b / 2) + (if a % 2 == b % 2 then 0 else 1)
  }

  function And(a: nat, b: nat): nat {
    if a == 0 || b == 0 then 0
    else 2 * And(a / 2, b / 2) + (if a % 2 == 1 && b % 2 == 1 then 1 else 0)
  }

  // The product of two numbers modulo 2^64, by doubling and adding.
  function Times(x: nat, n: nat): Word {
    if n == 0 then 0 else (2 * Times(x, n / 2) + (if n % 2 == 1 then x else 0)) % W
  }

  // The number of bits set.
  function PopCount(a: nat): nat {
    if a == 0 then 0 else a % 2 + PopCount(a / 2)
  }

  // The position of the lowest bit set.
  function LowestBit(a: nat): nat
    requires a > 0
  {
    if a % 2 == 1 then 0 else 1 + LowestBit(a / 2)
  }

  /* ---------------- quotients and remainders ---------------- */

  lemma DivModUnique(n: int, q: nat, k: int, r: int)
    requires n == q * k + r && 0 <= r < q
    ensures n / q == k && n % q == r
  {
    var k', r' := n / q, n % q;
    assert q * (k - k') == r' - r;
    if k > k' {
      MulMonotone(q, 1, k - k');
      assert false;
    } else if k < k' {
      MulMonotone(q, 1, k' - k);
      assert false;
    }
  }

  lemma MulMonotone(q: nat, a: int, b: int)
    requires a <= b
    ensures q * a <= q * b
  {
    assert q * (b - a) >= 0;
  }

  lemma ModAddMultiple(a: int, q: nat, t: int)
    requires q > 0
    ensures (a + q * t) % q == a % q
  {
    var d, r := a / q, a % q;
    assert a + q * t == q * (d + t) + r;
    DivModUnique(a + q * t, q, d + t, r);
  }

  // Numbers that agree modulo q still agree after both are multiplied by m.
  lemma MulRespectsMod(a: int, b: int, m: int, q: nat)
    requires q > 0 && a % q == b % q
    ensures (a * m) % q == (b * m) % q
  {
    var t := a / q - b / q;
    assert a == b + q * t;
    assert a * m == b * m + q * (t * m) by {
      assert (q * t) * m == q * (t * m);
    }
    ModAddMultiple(b * m, q, t * m);
  }

  lemma {:induction false} TimesIsProduct(x: nat, n: nat)
    ensures Times(x, n) == (x * n) % W
  {
    if n > 0 {
      var h, r := n / 2, n % 2;
      TimesIsProduct(x, h);
      var q := (x * h) / W;
      assert x * n == 2 * (x * h) + (if r == 1 then x else 0) by { HalfProduct(x, n); }
      ModAddMultiple(2 * Times(x, h) + (if r == 1 then x else 0), W, 2 * q);
    }
  }

  lemma HalfProduct(x: nat, n: nat)
    ensures x * n == 2 * (x * (n / 2)) + (if n % 2 == 1 then x else 0)
  {
    assert n == 2 * (n / 2) + n % 2;
  }

  lemma Pow2Add(i: nat, j: nat)
    ensures Pow2(i + j) == Pow2(i) * Pow2(j)
  {
    if i > 0 { Pow2Add(i - 1, j); }
  }

  lemma Pow2Monotone(i: nat, j: nat)
    requires i <= j
    ensures Pow2(i) <= Pow2(j)
  {
    if i < j { Pow2Monotone(i, j - 1); }
  }

  lemma Pow2Values()
    ensures Pow2(8) == 0x100 && Pow2(16) == 0x1_0000 && Pow2(32) == 0x1_0000_0000
    ensures Pow2(64) == W
  {
    assert Pow2(8) == 0x100;
    hide Pow2;
    Pow2Add(8, 8);
    Pow2Add(16, 16);
    Pow2Add(32, 32);
  }

  // Dividing by a product divides by one factor and then by the other.
  lemma DivModAssoc(a: int, p: nat, c: nat)
    requires p > 0 && c > 0
    ensures p * c > 0
    ensures (a % (p * c)) % p == a % p
    ensures a / p / c == a / (p * c)
    ensures (a % (p * c)) / p == a / p % c
  {
    var d, k, l, m := a / p, a / p / c, a % p, a / p % c;
    assert p * c > 0;
    SplitProduct(p, c, k, m);
    MulMonotone(p, 0, m);
    MulMonotone(p, m + 1, c);
    assert p * (m + 1) == p * m + p;
    DivModUnique(a, p * c, k, p * m + l);
    DivModUnique(p * m + l, p, m, l);
  }

  lemma SplitProduct(p: int, c: int, k: int, m: int)
    ensures p * (c * k + m) == (p * c) * k + p * m
  {
    assert p * (c * k) == (p * c) * k;
  }

  // Reducing modulo 2^64 first does not change the low j bits.
  lemma LowBitsOfWord(a: nat, j: nat)
    requires j <= 64
    ensures (a % W) % Pow2(j) == a % Pow2(j)
  {
    Pow2Values();
    Pow2Add(j, 64 - j);
    DivModAssoc(a, Pow2(j), Pow2(64 - j));
  }

  /* ---------------- exclusive or ---------------- */

  lemma {:induction false} XorComm(a: nat, b: nat)
    ensures Xor(a, b) == Xor(b, a)
  {
    if !(a == 0 && b == 0) { XorComm(a / 2, b / 2); }
  }

  lemma {:induction false} XorZero(a: nat)
    ensures Xor(a, 0) == a
  {
    if a != 0 { XorZero(a / 2); }
  }

  lemma {:induction false} XorAssoc(a: nat, b: nat, c: nat)
    ensures Xor(Xor(a, b), c) == Xor(a, Xor(b, c))
    decreases a + b + c
  {
    if a == 0 && b == 0 {
      XorZero(c); XorComm(c, 0);
    } else if b == 0 && c == 0 {
      XorZero(a); XorZero(Xor(a, b));
    } else {
      assert Xor(a, b) / 2 == Xor(a / 2, b / 2);
      assert Xor(b, c) / 2 == Xor(b / 2, c / 2);
      XorAssoc(a / 2, b / 2, c / 2);
    }
  }

  lemma {:induction false} XorSelf(a: nat)
    ensures Xor(a, a) == 0
  {
    if a != 0 { XorSelf(a / 2); }
  }

  lemma XorCancel(a: nat, b: nat)
    ensures Xor(Xor(a, b), b) == a
  {
    XorAssoc(a, b, b); XorSelf(b); XorZero(a);
  }

  lemma XorInjective(a: nat, b: nat, c: nat)
    ensures Xor(a, c) == Xor(b, c) <==> a == b
  {
    XorCancel(a, c); XorCancel(b, c);
  }

  lemma XorIsZero(a: nat, b: nat)
    ensures Xor(a, b) == 0 <==> a == b
  {
    XorSelf(b); XorInjective(a, b, b);
  }

  // The number without its low j bits, and its low j bits, taken one bit at a time.
  ghost function High(a: nat, j: nat): nat {
    if j == 0 then a else High(a / 2, j - 1)
  }

  ghost function Low(a: nat, j: nat): nat {
    if j == 0 then 0 else a % 2 + 2 * Low(a / 2, j - 1)
  }

  lemma {:induction false} HighLow(a: nat, j: nat)
    ensures High(a, j) == a / Pow2(j) && Low(a, j) == a % Pow2(j)
  {
    if j > 0 {
      HighLow(a / 2, j - 1);
      DivModAssoc(a, 2, Pow2(j - 1));
    }
  }

  // Exclusive or works on the low j bits and on the rest separately.
  lemma {:induction false} XorHighLow(a: nat, b: nat, j: nat)
    ensures High(Xor(a, b), j) == Xor(High(a, j), High(b, j))
    ensures Low(Xor(a, b), j) == Xor(Low(a, j), Low(b, j))
  {
    if j > 0 {
      XorHalves(a, b);
      XorHighLow(a / 2, b / 2, j - 1);
      XorHalves(Low(a, j), Low(b, j));
      assert Low(a, j) / 2 == Low(a / 2, j - 1) && Low(b, j) / 2 == Low(b / 2, j - 1);
    }
  }

  lemma XorHalves(a: nat, b: nat)
    ensures Xor(a, b) / 2 == Xor(a / 2, b / 2)
    ensures Xor(a, b) % 2 == (if a % 2 == b % 2 then 0 else 1)
  {
  }

  lemma XorWord(a: Word, b: Word)
    ensures Xor(a, b) < W
  {
    hide Xor, High, Low, Pow2;
    Pow2Values();
    HighLow(a, 64); HighLow(b, 64); HighLow(Xor(a, b), 64);
    XorHighLow(a, b, 64);
    XorSelf(0);
    assert Xor(a, b) / W == 0;
  }

  lemma XorLowByte(a: nat, b: nat)
    ensures Xor(a, b) / 0x100 == Xor(a / 0x100, b / 0x100)
    ensures Xor(a, b) % 0x100 == Xor(a % 0x100, b % 0x100)
  {
    hide Xor, High, Low, Pow2;
    Pow2Values();
    HighLow(a, 8); HighLow(b, 8); HighLow(Xor(a, b), 8);
    XorHighLow(a, b, 8);
  }

  lemma XorByteRange(a: Byte, b: Byte)
    ensures Xor(a, b) < 0x100
  {
    hide Xor;
    XorBelowByte(a, b);
  }

  // A byte reaches only the low eight bits.
  lemma XorByte(x: nat, b: Byte)
    ensures Xor(x, b) / 0x100 == x / 0x100
    ensures Xor(x, b) % 0x100 == Xor(x % 0x100, b)
  {
    hide Xor;
    XorLowByte(x, b);
    XorZero(x / 0x100);
  }

  // Two words differ in their low j bits exactly when their difference does.
  lemma XorAgreement(a: nat, b: nat, j: nat)
    ensures Xor(a, b) % Pow2(j) == 0 <==> a % Pow2(j) == b % Pow2(j)
  {
    hide Xor, High, Low, Pow2;
    HighLow(a, j); HighLow(b, j); HighLow(Xor(a, b), j);
    XorHighLow(a, b, j);
    XorIsZero(Low(a, j), Low(b, j));
  }

  lemma XorBelowByte(a: nat, b: nat)
    ensures Xor(a, b) < 0x100 <==> a / 0x100 == b / 0x100
  {
    hide Xor;
    XorLowByte(a, b);
    XorIsZero(a / 0x100, b / 0x100);
  }

  /* ---------------- the lowest bit and the number of bits ---------------- */

  lemma {:induction false} LowestBitDivides(d: nat, j: nat)
    requires d > 0
    ensures d % Pow2(j) == 0 <==> j <= LowestBit(d)
  {
    if j > 0 {
      DivModAssoc(d, 2, Pow2(j - 1));
      assert Pow2(j) == 2 * Pow2(j - 1);
      if d % 2 == 0 {
        LowestBitDivides(d / 2, j - 1);
      }
    }
  }

  lemma {:induction false} LowestBitOfWord(d: nat, j: nat)
    requires 0 < d < Pow2(j)
    ensures LowestBit(d) < j
  {
    if d % 2 == 0 { LowestBitOfWord(d / 2, j - 1); }
  }

  // value & (value - 1) drops exactly one bit.
  lemma {:induction false} ClearLowestBit(v: nat)
    requires v > 0
    ensures And(v, v - 1) < v
    ensures PopCount(And(v, v - 1)) + 1 == PopCount(v)
  {
    AndHalves(v, v - 1);
    if v % 2 == 1 {
      assert (v - 1) / 2 == v / 2;
      AndSelf(v / 2);
    } else {
      assert (v - 1) / 2 == v / 2 - 1;
      ClearLowestBit(v / 2);
    }
  }

  lemma AndHalves(a: nat, b: nat)
    ensures And(a, b) / 2 == And(a / 2, b / 2)
    ensures And(a, b) % 2 == (if a % 2 == 1 && b % 2 == 1 then 1 else 0)
  {
  }

  lemma {:induction false} AndSelf(v: nat)
    ensures And(v, v) == v
  {
    if v != 0 { AndSelf(v / 2); }
  }

  lemma {:induction false} PopCountBound(v: nat, j: nat)
    requires v < Pow2(j)
    ensures PopCount(v) <= j
  {
    if v != 0 { PopCountBound(v / 2, j - 1); }
  }

  lemma {:induction false} PopCountPow2(i: nat)
    ensures PopCount(Pow2(i)) == 1
  {
    if i > 0 {
      PopCountPow2(i - 1);
      assert Pow2(i) / 2 == Pow2(i - 1) && Pow2(i) % 2 == 0;
    }
  }

  lemma {:induction false} OneBit(v: nat) returns (i: nat)
    requires PopCount(v) == 1
    ensures v == Pow2(i)
  {
    if v % 2 == 1 {
      PopCountZero(v / 2);
      i := 0;
    } else {
      i := OneBit(v / 2);
      i := i + 1;
    }
  }

  lemma {:induction false} PopCountZero(v: nat)
    ensures PopCount(v) == 0 <==> v == 0
  {
    if v > 0 { PopCountZero(v / 2); }
  }

  // A number has one bit set exactly when it is a power of two.
  lemma PopCountOne(v: nat)
    ensures PopCount(v) == 0 <==> v == 0
    ensures PopCount(v) == 1 <==> exists i: nat :: v == Pow2(i)
  {
    hide PopCount, Pow2;
    PopCountZero(v);
    if PopCount(v) == 1 {
      var i := OneBit(v);
    }
    if i: nat :| v == Pow2(i) {
      PopCountPow2(i);
    }
  }

  // PopCount counts the places with a bit.
  ghost function Bits(v: nat, n: nat): (s: set<nat>)
    ensures forall i: nat :: i in s <==> i < n && v / Pow2(i) % 2 == 1
  {
    set i: nat | i < n && v / Pow2(i) % 2 == 1
  }

  // The same places, one further up.
  ghost function Up(s: set<nat>): (up: set<nat>)
    ensures forall i: nat :: i in up <==> i > 0 && i - 1 in s
  {
    set i | i in s :: i + 1
  }

  lemma {:induction false} UpCount(s: set<nat>)
    ensures |Up(s)| == |s|
  {
    hide Up;
    if s == {} {
      assert Up(s) == {};
    } else {
      var k :| k in s;
      UpCount(s - {k});
      assert Up(s) == Up(s - {k}) + {k + 1};
    }
  }

  lemma BitsOfHalf(v: nat, i: nat)
    requires i > 0
    ensures v / Pow2(i) % 2 == v / 2 / Pow2(i - 1) % 2
  {
    DivModAssoc(v, 2, Pow2(i - 1));
  }

  lemma BitsUp(v: nat, n: nat)
    requires n > 0
    ensures Bits(v, n) == if v % 2 == 1 then Up(Bits(v / 2, n - 1)) + {0} else Up(Bits(v / 2, n - 1))
  {
    assert v / Pow2(0) == v;
    hide Bits, Up, Pow2;
    forall i: nat | i > 0 ensures i in Bits(v, n) <==> i - 1 in Bits(v / 2, n - 1) {
      BitsOfHalf(v, i);
    }
    assert 0 in Bits(v, n) <==> v % 2 == 1;
  }

  lemma {:induction false} PopCountBits(v: nat, n: nat)
    requires v < Pow2(n)
    ensures PopCount(v) == |Bits(v, n)|
  {
    if n == 0 {
      assert PopCount(v) == 0;
      hide Bits;
      assert Bits(v, 0) == {};
    } else {
      PopCountBits(v / 2, n - 1);
      assert PopCount(v) == v % 2 + PopCount(v / 2);
      hide Bits, Up, Pow2, PopCount;
      BitsUp(v, n);
      UpCount(Bits(v / 2, n - 1));
    }
  }

  /* ---------------- exclusive or, byte by byte ---------------- */

  // Exclusive or of two bytes, bit by bit.
  function ByteXor(a: Byte, b: Byte): int {
    Differ(a, b) + 2 * Differ(a / 2, b / 2) + 4 * Differ(a / 4, b / 4) + 8 * Differ(a / 8, b / 8)
    + 16 * Differ(a / 16, b / 16) + 32 * Differ(a / 32, b / 32) + 64 * Differ(a / 64, b / 64)
    + 128 * Differ(a / 128, b / 128)
  }

  function Differ(a: int, b: int): int { if a % 2 == b % 2 then 0 else 1 }

  lemma XorOfBytes(a: Byte, b: Byte)
    ensures Xor(a, b) == ByteXor(a, b)
  {
    hide Xor, Differ;
    XorNibbles(a, b);
    UpperXor(a, b);
  }

  lemma UpperXor(a: Byte, b: Byte)
    ensures Xor(a / 16, b / 16) == Differ(a / 16, b / 16) + 2 * Differ(a / 32, b / 32)
                                   + 4 * Differ(a / 64, b / 64) + 8 * Differ(a / 128, b / 128)
  {
    hide Xor, Differ;
    UpperNibble(a);
    UpperNibble(b);
    var c: nat, d: nat := a / 16, b / 16;
    XorNibbles(c, d);
    XorSelf(0);
  }

  lemma UpperNibble(a: Byte)
    ensures a / 16 / 2 == a / 32 && a / 16 / 4 == a / 64 && a / 16 / 8 == a / 128 && a / 16 / 16 == 0
  {
  }

  lemma XorNibbles(a: nat, b: nat)
    ensures Xor(a, b) == Differ(a, b) + 2 * Differ(a / 2, b / 2) + 4 * Differ(a / 4, b / 4)
                         + 8 * Differ(a / 8, b / 8) + 16 * Xor(a / 16, b / 16)
  {
    hide Xor;
    XorHalves(a, b);
    XorHalves(a / 2, b / 2);
    XorHalves(a / 4, b / 4);
    XorHalves(a / 8, b / 8);
    assert a / 2 / 2 == a / 4 && a / 4 / 2 == a / 8 && a / 8 / 2 == a / 16;
    assert b / 2 / 2 == b / 4 && b / 4 / 2 == b / 8 && b / 8 / 2 == b / 16;
  }
}
