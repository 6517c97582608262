/**
 The lattice hash of the synthetic load (src/load.cpp:21-37): splitmix64, which loses
 nothing of its argument, applied twice.
 */
module Lattice {
  import opened Words

  const GAMMA: Word := 0x9E3779B97F4A7C15
  const FIRST: Word := 0xBF58476D1CE4E5B9
  const SECOND: Word := 0x94D049BB133111EB
  const FIRST_INVERSE: Word := 0x96de1b173f119089
  const SECOND_INVERSE: Word := 0x319642b2d24d8ec3

  function ShiftRight(x: nat, s: nat): nat {
    QuotientNotNegative(x, Pow2(s));
    x / Pow2(s)
  }

  lemma QuotientNotNegative(x: nat, p: nat)
    requires p > 0
    ensures x / p >= 0
  {
    if x / p < 0 { MulMonotone(p, x / p, -1); }
  }

  // x ^ (x >> s)
  function XorShift(x: Word, s: nat): Word {
    ShiftedIsWord(x, s);
    XorWord(x, ShiftRight(x, s));
    Xor(x, ShiftRight(x, s))
  }

  // For shifts of more than a third of a word, two more shifts undo one.
  function UnXorShift(y: Word, s: nat): Word {
    ShiftedIsWord(y, s);
    ShiftedIsWord(y, 2 * s);
    XorWord(y, ShiftRight(y, s));
    XorWord(Xor(y, ShiftRight(y, s)), ShiftRight(y, 2 * s));
    Xor(Xor(y, ShiftRight(y, s)), ShiftRight(y, 2 * s))
  }

  function SplitMix64(x: Word): Word {
    var a := (x + GAMMA) % W;
    var b := Times(XorShift(a, 30), FIRST);
    var c := Times(XorShift(b, 27), SECOND);
    XorShift(c, 31)
  }

  function Unmix(y: Word): Word {
    var c := Times(UnXorShift(y, 31), SECOND_INVERSE);
    var b := Times(UnXorShift(c, 27), FIRST_INVERSE);
    (UnXorShift(b, 30) - GAMMA) % W
  }

  lemma ShiftedIsWord(x: Word, s: nat)
    ensures ShiftRight(x, s) < W
  {
    if ShiftRight(x, s) >= W { MulMonotone(ShiftRight(x, s), 1, Pow2(s)); }
  }

  lemma XorShiftRight(a: nat, b: nat, s: nat)
    ensures ShiftRight(Xor(a, b), s) == Xor(ShiftRight(a, s), ShiftRight(b, s))
  {
    HighLow(a, s);
    HighLow(b, s);
    HighLow(Xor(a, b), s);
    XorHighLow(a, b, s);
  }

  lemma ShiftTwice(x: nat, s: nat, t: nat)
    ensures ShiftRight(ShiftRight(x, s), t) == ShiftRight(x, s + t)
  {
    Pow2Add(s, t);
    DivModAssoc(x, Pow2(s), Pow2(t));
  }

  lemma ShiftOut(x: Word, s: nat)
    requires s >= 64
    ensures ShiftRight(x, s) == 0
  {
    Pow2Values();
    Pow2Monotone(64, s);
  }

  // The exclusive or of x, p, p, q and q.
  lemma CancelPairs(x: nat, p: nat, q: nat)
    ensures Xor(Xor(Xor(x, p), Xor(p, q)), q) == x
  {
    hide Xor;
    XorAssoc(Xor(x, p), p, q);
    XorCancel(x, p);
    XorAssoc(x, q, q);
    XorSelf(q);
    XorZero(x);
  }

  lemma {:induction false} UnXorShiftOfXorShift(x: Word, s: nat)
    requires 3 * s >= 64
    ensures UnXorShift(XorShift(x, s), s) == x
  {
    hide Xor, ShiftRight;
    var p, q := ShiftRight(x, s), ShiftRight(x, 2 * s);
    XorShiftRight(x, p, s);
    XorShiftRight(x, p, 2 * s);
    ShiftTwice(x, s, s);
    ShiftTwice(x, s, 2 * s);
    ShiftOut(x, 3 * s);
    XorZero(q);
    CancelPairs(x, p, q);
  }

  lemma {:induction false} XorShiftOfUnXorShift(y: Word, s: nat)
    requires 3 * s >= 64
    ensures XorShift(UnXorShift(y, s), s) == y
  {
    hide Xor, ShiftRight;
    var p, q := ShiftRight(y, s), ShiftRight(y, 2 * s);
    var x := UnXorShift(y, s);
    XorShiftRight(Xor(y, p), q, s);
    XorShiftRight(y, p, s);
    ShiftTwice(y, s, s);
    ShiftTwice(y, 2 * s, s);
    ShiftOut(y, 3 * s);
    XorZero(Xor(p, q));
    assert ShiftRight(x, s) == Xor(p, q);
    Regroup(y, p, q);
  }

  lemma Regroup(y: nat, p: nat, q: nat)
    ensures Xor(Xor(Xor(y, p), q), Xor(p, q)) == y
  {
    hide Xor;
    XorAssoc(y, p, q);
    XorCancel(y, Xor(p, q));
  }

  // Multiplying by an odd constant and by its inverse.
  lemma TimesUndone(x: Word, m: Word, n: Word, t: nat)
    requires m * n == 1 + W * t
    ensures Times(Times(x, m), n) == x
  {
    hide Times;
    TimesIsProduct(x, m);
    TimesIsProduct(Times(x, m), n);
    ModOfProduct(x, m, n, t);
  }

  lemma ModOfProduct(x: Word, m: nat, n: nat, t: nat)
    requires m * n == 1 + W * t
    ensures ((x * m) % W * n) % W == x
  {
    var p := x * m;
    MulRespectsMod(p % W, p, n, W);
    ProductOfInverses(x, m, n, t);
    ModAddMultiple(x, W, x * t);
  }

  lemma ProductOfInverses(x: int, m: int, n: int, t: int)
    requires m * n == 1 + W * t
    ensures (x * m) * n == x + W * (x * t)
  {
    assert (x * m) * n == x * (m * n);
    assert x * (1 + W * t) == x + W * (x * t);
  }

  lemma FirstUndone(x: Word)
    ensures Times(Times(x, FIRST), FIRST_INVERSE) == x && Times(Times(x, FIRST_INVERSE), FIRST) == x
  {
    hide Times;
    TimesUndone(x, FIRST, FIRST_INVERSE, 8125545580553827436);
    TimesUndone(x, FIRST_INVERSE, FIRST, 8125545580553827436);
  }

  lemma SecondUndone(x: Word)
    ensures Times(Times(x, SECOND), SECOND_INVERSE) == x && Times(Times(x, SECOND_INVERSE), SECOND) == x
  {
    hide Times;
    TimesUndone(x, SECOND, SECOND_INVERSE, 2077064247507883091);
    TimesUndone(x, SECOND_INVERSE, SECOND, 2077064247507883091);
  }

  // splitmix64 is a bijection on 64-bit words.
  lemma SplitMix64Bijective(x: Word)
    ensures Unmix(SplitMix64(x)) == x
    ensures SplitMix64(Unmix(x)) == x
  {
    hide Times, XorShift, UnXorShift;
    var a := (x + GAMMA) % W;
    var b := Times(XorShift(a, 30), FIRST);
    var c := Times(XorShift(b, 27), SECOND);
    UnXorShiftOfXorShift(c, 31);
    SecondUndone(XorShift(b, 27));
    UnXorShiftOfXorShift(b, 27);
    FirstUndone(XorShift(a, 30));
    UnXorShiftOfXorShift(a, 30);
    var d := Times(UnXorShift(x, 31), SECOND_INVERSE);
    var e := Times(UnXorShift(d, 27), FIRST_INVERSE);
    XorShiftOfUnXorShift(x, 31);
    SecondUndone(UnXorShift(x, 31));
    XorShiftOfUnXorShift(d, 27);
    FirstUndone(UnXorShift(d, 27));
    XorShiftOfUnXorShift(e, 30);
  }

  lemma SplitMix64Injective(x: Word, y: Word)
    ensures SplitMix64(x) == SplitMix64(y) <==> x == y
  {
    hide SplitMix64, Unmix;
    SplitMix64Bijective(x);
    SplitMix64Bijective(y);
  }

  /* ---------------- lattice nodes ---------------- */

  function Or(a: nat, b: nat): nat {
    if a == 0 && b == 0 then 0
    else 2 * Or(a / 2, b / 2) + (if a % 2 == 0 && b % 2 == 0 then 0 else 1)
  }

  type Int32 = x: int | -0x8000_0000 <= x < 0x8000_0000

  function AsUnsigned(i: Int32): Word32 { i % 0x1_0000_0000 }

  // Two halves of a word, which share no bit.
  lemma {:induction false} HalvesJoin(low: nat, high: nat, j: nat)
    requires low < Pow2(j)
    ensures Or(low, high * Pow2(j)) == low + high * Pow2(j)
    ensures Xor(low, high * Pow2(j)) == low + high * Pow2(j)
  {
    if j == 0 {
      OrZero(high);
      XorZero(high);
      XorComm(0, high);
    } else {
      var b := high * Pow2(j - 1);
      assert high * Pow2(j) == 2 * b;
      HalvesJoin(low / 2, high, j - 1);
    }
  }

  lemma {:induction false} OrZero(b: nat)
    ensures Or(0, b) == b
  {
    if b != 0 { OrZero(b / 2); }
  }

  function Packed(ix: Int32, iy: Int32): (p: Word)
    ensures p == AsUnsigned(ix) + 0x1_0000_0000 * AsUnsigned(iy)
  {
    Pow2Values();
    HalvesJoin(AsUnsigned(ix), AsUnsigned(iy), 32);
    Or(AsUnsigned(ix), AsUnsigned(iy) * 0x1_0000_0000)
  }

  function Salted(seed: Word32, salt: Word32): (s: Word)
    ensures s == seed + 0x1_0000_0000 * salt
  {
    Pow2Values();
    HalvesJoin(seed, salt, 32);
    Xor(seed, salt * 0x1_0000_0000)
  }

  function LatticeHash(seed: Word32, salt: Word32, ix: Int32, iy: Int32): Word {
    XorWord(Packed(ix, iy), SplitMix64(Salted(seed, salt)));
    SplitMix64(Xor(Packed(ix, iy), SplitMix64(Salted(seed, salt))))
  }

  lemma PackedInjective(ix: Int32, iy: Int32, jx: Int32, jy: Int32)
    ensures Packed(ix, iy) == Packed(jx, jy) <==> ix == jx && iy == jy
  {
    hide Packed;
    assert AsUnsigned(ix) == AsUnsigned(jx) <==> ix == jx;
    assert AsUnsigned(iy) == AsUnsigned(jy) <==> iy == jy;
  }

  // With the same seed and salt no two nodes have the same hash.
  lemma NodesDoNotCollide(seed: Word32, salt: Word32, ix: Int32, iy: Int32, jx: Int32, jy: Int32)
    ensures LatticeHash(seed, salt, ix, iy) == LatticeHash(seed, salt, jx, jy) <==> ix == jx && iy == jy
  {
    hide SplitMix64, Xor, Packed;
    var s := SplitMix64(Salted(seed, salt));
    XorWord(Packed(ix, iy), s);
    XorWord(Packed(jx, jy), s);
    SplitMix64Injective(Xor(Packed(ix, iy), s), Xor(Packed(jx, jy), s));
    XorInjective(Packed(ix, iy), Packed(jx, jy), s);
    PackedInjective(ix, iy, jx, jy);
  }

  // At the same node no two pairs of seed and salt have the same hash: the salt keeps
  // the layers apart.
  lemma LayersDoNotCollide(ix: Int32, iy: Int32, seed: Word32, salt: Word32, seed': Word32, salt': Word32)
    ensures LatticeHash(seed, salt, ix, iy) == LatticeHash(seed', salt', ix, iy) <==> seed == seed' && salt == salt'
  {
    hide SplitMix64, Xor, Packed, Salted;
    var s, s', p := SplitMix64(Salted(seed, salt)), SplitMix64(Salted(seed', salt')), Packed(ix, iy);
    XorWord(p, s);
    XorWord(p, s');
    SplitMix64Injective(Xor(p, s), Xor(p, s'));
    XorComm(p, s);
    XorComm(p, s');
    XorInjective(s, s', p);
    SplitMix64Injective(Salted(seed, salt), Salted(seed', salt'));
  }

  /* ---------------- a published value, and what the hash is made of ---------------- */

  function Joined(s: seq<Byte>): nat
    requires |s| == 8
  {
    (s[0] as int) + 0x100 * (s[1] as int) + 0x1_0000 * (s[2] as int) + 0x100_0000 * (s[3] as int)
    + 0x1_0000_0000 * (s[4] as int) + 0x100_0000_0000 * (s[5] as int) + 0x1_0000_0000_0000 * (s[6] as int)
    + 0x100_0000_0000_0000 * (s[7] as int)
  }

  predicate BytesDiffer(s: seq<Byte>, t: seq<Byte>, u: seq<Byte>)
    requires |s| == |t| == |u| == 8
  {
    && ByteXor(s[0], t[0]) == u[0] && ByteXor(s[1], t[1]) == u[1] && ByteXor(s[2], t[2]) == u[2]
    && ByteXor(s[3], t[3]) == u[3] && ByteXor(s[4], t[4]) == u[4] && ByteXor(s[5], t[5]) == u[5]
    && ByteXor(s[6], t[6]) == u[6] && ByteXor(s[7], t[7]) == u[7]
  }

  lemma ByteXorZero()
    ensures forall p: Byte :: ByteXor(p, 0) == p
  {
    forall p: Byte ensures ByteXor(p, 0) == p {
      XorOfBytes(p, 0);
      XorZero(p);
    }
  }

  // Exclusive or of two words by their bytes.
  lemma XorOfEight(s: seq<Byte>, t: seq<Byte>, u: seq<Byte>)
    requires |s| == |t| == |u| == 8 && BytesDiffer(s, t, u)
    ensures Xor(Joined(s), Joined(t)) == Joined(u)
  {
    hide Xor, ByteXor;
    var a7, b7, c7 := XorNext(0, 0, 0, s[7], t[7], u[7]) by { XorZero(0); }
    var a6, b6, c6 := XorNext(a7, b7, c7, s[6], t[6], u[6]);
    var a5, b5, c5 := XorNext(a6, b6, c6, s[5], t[5], u[5]);
    var a4, b4, c4 := XorNext(a5, b5, c5, s[4], t[4], u[4]);
    var a3, b3, c3 := XorNext(a4, b4, c4, s[3], t[3], u[3]);
    var a2, b2, c2 := XorNext(a3, b3, c3, s[2], t[2], u[2]);
    var a1, b1, c1 := XorNext(a2, b2, c2, s[1], t[1], u[1]);
    var a0, b0, c0 := XorNext(a1, b1, c1, s[0], t[0], u[0]);
  }

  lemma XorNext(a: nat, b: nat, c: nat, p: Byte, q: Byte, r: Byte) returns (a': nat, b': nat, c': nat)
    requires Xor(a, b) == c && ByteXor(p, q) == r
    ensures a' == 0x100 * a + p && b' == 0x100 * b + q && c' == 0x100 * c + r && Xor(a', b') == c'
  {
    hide Xor, ByteXor;
    a', b', c' := 0x100 * a + p, 0x100 * b + q, 0x100 * c + r;
    XorLowByte(a', b');
    XorOfBytes(p, q);
  }

  // x ^ (x >> s) of a given word; n is x >> s, and the words are given by their bytes too.
  lemma ShiftedValue(x: Word, s: nat, p: nat, n: nat, value: nat, xs: seq<Byte>, ns: seq<Byte>, vs: seq<Byte>)
    requires p == Pow2(s) && n * p <= x < n * p + p
    requires |xs| == |ns| == |vs| == 8 && Joined(xs) == x && Joined(ns) == n && Joined(vs) == value
    requires BytesDiffer(xs, ns, vs)
    ensures XorShift(x, s) == value
  {
    hide Xor, ByteXor, Pow2, Joined, BytesDiffer;
    DivModUnique(x, p, n, x - n * p);
    ShiftedIsWord(x, s);
    XorOfEight(xs, ns, vs);
  }

  lemma ProductValue(x: Word, m: nat, q: nat, value: Word)
    requires x * m == q * W + value
    ensures Times(x, m) == value
  {
    hide Times;
    TimesIsProduct(x, m);
    DivModUnique(x * m, W, q, value);
  }

  lemma Powers()
    ensures Pow2(27) == 0x800_0000 && Pow2(30) == 0x4000_0000 && Pow2(31) == 0x8000_0000
  {
    assert Pow2(15) == 0x8000 && Pow2(12) == 0x1000 && Pow2(1) == 2;
    hide Pow2;
    Pow2Add(15, 12);
    Pow2Add(15, 15);
    Pow2Add(30, 1);
  }

  lemma FirstShift()
    ensures XorShift(0x9e3779b97f4a7c15, 30) == 0x9e3779bb07979af0
  {
    FirstShiftLow();
    FirstShiftHigh();
    Powers();
    hide XorShift, Pow2, ByteXor;
    ByteXorZero();
    ShiftedValue(0x9e3779b97f4a7c15, 30, 0x4000_0000, 0x278dde6e5, 0x9e3779bb07979af0,
                 [0x15, 0x7c, 0x4a, 0x7f, 0xb9, 0x79, 0x37, 0x9e],
                 [0xe5, 0xe6, 0xdd, 0x78, 0x02, 0x00, 0x00, 0x00],
                 [0xf0, 0x9a, 0x97, 0x07, 0xbb, 0x79, 0x37, 0x9e]);
  }

  lemma FirstShiftLow()
    ensures ByteXor(0x15, 0xe5) == 0xf0 && ByteXor(0x7c, 0xe6) == 0x9a
    ensures ByteXor(0x4a, 0xdd) == 0x97
  {
  }

  lemma FirstShiftHigh()
    ensures ByteXor(0x7f, 0x78) == 0x7 && ByteXor(0xb9, 0x2) == 0xbb
  {
  }

  lemma SecondShift()
    ensures XorShift(0x6f68261b57e7a770, 27) == 0x6f682616bae3641a
  {
    SecondShiftLow();
    SecondShiftHigh();
    Powers();
    hide XorShift, Pow2, ByteXor;
    ByteXorZero();
    ShiftedValue(0x6f68261b57e7a770, 27, 0x800_0000, 0xded04c36a, 0x6f682616bae3641a,
                 [0x70, 0xa7, 0xe7, 0x57, 0x1b, 0x26, 0x68, 0x6f],
                 [0x6a, 0xc3, 0x04, 0xed, 0x0d, 0x00, 0x00, 0x00],
                 [0x1a, 0x64, 0xe3, 0xba, 0x16, 0x26, 0x68, 0x6f]);
  }

  lemma SecondShiftLow()
    ensures ByteXor(0x70, 0x6a) == 0x1a && ByteXor(0xa7, 0xc3) == 0x64
    ensures ByteXor(0xe7, 0x4) == 0xe3
  {
  }

  lemma SecondShiftHigh()
    ensures ByteXor(0x57, 0xed) == 0xba && ByteXor(0x1b, 0xd) == 0x16
  {
  }

  lemma ThirdShift()
    ensures XorShift(0xe220a838bf5c9dde, 31) == 0xe220a8397b1dcdaf
  {
    ThirdShiftLow();
    ThirdShiftHigh();
    Powers();
    hide XorShift, Pow2, ByteXor;
    ByteXorZero();
    ShiftedValue(0xe220a838bf5c9dde, 31, 0x8000_0000, 0x1c4415071, 0xe220a8397b1dcdaf,
                 [0xde, 0x9d, 0x5c, 0xbf, 0x38, 0xa8, 0x20, 0xe2],
                 [0x71, 0x50, 0x41, 0xc4, 0x01, 0x00, 0x00, 0x00],
                 [0xaf, 0xcd, 0x1d, 0x7b, 0x39, 0xa8, 0x20, 0xe2]);
  }

  lemma ThirdShiftLow()
    ensures ByteXor(0xde, 0x71) == 0xaf && ByteXor(0x9d, 0x50) == 0xcd
    ensures ByteXor(0x5c, 0x41) == 0x1d
  {
  }

  lemma ThirdShiftHigh()
    ensures ByteXor(0xbf, 0xc4) == 0x7b && ByteXor(0x38, 0x1) == 0x39
  {
  }

  // The first output of the published generator from the state 0.
  lemma MixedZero()
    ensures SplitMix64(0) == 0xe220a8397b1dcdaf
  {
    hide XorShift, Times;
    FirstShift();
    ProductValue(0x9e3779bb07979af0, FIRST, 0x7641f3093531f526, 0x6f68261b57e7a770);
    SecondShift();
    ProductValue(0x6f682616bae3641a, SECOND, 0x40c2daba32cdb214, 0xe220a838bf5c9dde);
    ThirdShift();
  }

  // Undoing the outer mix leaves the packed coordinates and the mixed seed and salt.
  lemma HashUnmixed(seed: Word32, salt: Word32, ix: Int32, iy: Int32)
    ensures Unmix(LatticeHash(seed, salt, ix, iy))
         == Xor(ix % 0x1_0000_0000 + 0x1_0000_0000 * (iy % 0x1_0000_0000), SplitMix64(seed + 0x1_0000_0000 * salt))
  {
    hide SplitMix64, Unmix, Xor;
    XorWord(Packed(ix, iy), SplitMix64(Salted(seed, salt)));
    SplitMix64Bijective(Xor(Packed(ix, iy), SplitMix64(Salted(seed, salt))));
  }
}
