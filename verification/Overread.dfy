/**
 The scan of the analysis can read the byte past the array (src/sdcprobe.cpp:305-346).

 It does for every array whose bytes are all below 0x80 when the hash is wrong in bit 7
 alone: no single misread has that effect, because a difference of 0x80 between two
 accumulators is multiplied by the prime at every byte, and does not come back before
 2^55 bytes. An array of zeros read wrongly in its last nine bytes has such a hash.
 */
module Overread {
  import opened Words
  import opened Fnv
  import opened Samples
  import opened Inversion
  import opened Detector
  import opened Collision
  import Sweep

  /* ---------------- powers of the prime ---------------- */

  function Power(m: nat): Word {
    if m == 0 then 1 else Times(Power(m - 1), PRIME)
  }

  lemma {:induction false} PowerMod8(m: nat)
    ensures Power(m) % 8 == if m % 2 == 0 then 1 else 3
  {
    hide Times;
    if m > 0 {
      PowerMod8(m - 1);
      var a, r := Power(m - 1), Power(m);
      assert r == Times(a, PRIME);
      hide Power;
      TimesIsProduct(a, PRIME);
      ProductMod8(a, a * PRIME / W, r);
    }
  }

  lemma ProductMod8(a: nat, q: nat, r: nat)
    requires a * PRIME == W * q + r
    ensures r % 8 == (3 * (a % 8)) % 8
  {
    var c := a / 8;
    assert r == 8 * (PRIME * c - W / 8 * q + PRIME / 8 * (a % 8)) + 3 * (a % 8);
  }

  lemma TimesAssoc(x: Word, y: Word, z: Word)
    ensures Times(Times(x, y), z) == Times(x, Times(y, z))
  {
    hide Times;
    TimesIsProduct(x, y);
    TimesIsProduct(Times(x, y), z);
    TimesIsProduct(y, z);
    TimesIsProduct(x, Times(y, z));
    ReduceFirst(x * y, z);
    ReduceFirst(y * z, x);
    ProductAssoc(x, y, z);
    Commute(x, Times(y, z));
  }

  lemma ReduceFirst(a: nat, b: nat)
    ensures (a % W * b) % W == (a * b) % W
  {
    MulRespectsMod(a % W, a, b, W);
  }

  lemma ProductAssoc(x: nat, y: nat, z: nat)
    ensures (x * y) * z == (y * z) * x
  {
  }

  lemma Commute(x: nat, y: nat)
    ensures x * y == y * x
  {
  }

  lemma TimesOne(x: Word)
    ensures Times(x, 1) == x
  {
    TimesIsProduct(x, 1);
  }

  lemma {:induction false} PowerAdd(i: nat, j: nat)
    ensures Power(i + j) == Times(Power(i), Power(j))
  {
    hide Times;
    if j == 0 {
      TimesOne(Power(i));
    } else {
      PowerAdd(i, j - 1);
      TimesAssoc(Power(i), Power(j - 1), PRIME);
    }
  }

  lemma EvenFactor(a: nat, o: nat, n: int)
    requires a * o == 2 * n && o % 2 == 1
    ensures a % 2 == 0 && (a / 2) * o == n
  {
    OddProduct(a, o / 2);
    Scale(2, a / 2, o);
  }

  lemma OddProduct(a: nat, h: nat)
    ensures a * (2 * h + 1) == 2 * (a * h) + a
  {
  }

  // A power of two that divides a product with an odd number divides the other factor.
  lemma {:induction false} OddFactor(t: nat, a: nat, o: nat, q: int)
    requires a * o == Pow2(t) * q && o % 2 == 1
    ensures a % Pow2(t) == 0
  {
    if t > 0 {
      var p := Pow2(t - 1);
      assert Pow2(t) == 2 * p;
      hide Pow2;
      Scale(2, p, q);
      EvenFactor(a, o, p * q);
      OddFactor(t - 1, a / 2, o, q);
      var w := a / 2 / p;
      Scale(2, p, w);
      DivModUnique(a, Pow2(t), w, 0);
    }
  }

  // Modulo a power of two, a number that is 1 or 3 modulo 8 has the square 1 only when
  // it is 1 modulo half of that.
  lemma SquareRootOfOne(z: nat, t: nat, q: int)
    requires t >= 2 && (z % 8 == 1 || z % 8 == 3) && z * z == Pow2(t + 2) * q + 1
    ensures z % Pow2(t + 1) == 1
  {
    Pow2Add(4, t - 2);
    Pow2Add(3, t - 2);
    assert Pow2(4) == 16 && Pow2(3) == 8;
    var a, p := z / 8, Pow2(t - 2);
    hide Pow2;
    Scale(16, p, q);
    Square(a, z % 8);
    assert z * z == 64 * (a * a) + 16 * (a * (z % 8)) + z % 8 * (z % 8);
    NotNineModSixteen(4 * (a * a) + a * (z % 8), z % 8, p * q);
    Distribute(a);
    RootIsOne(a, t, q);
  }

  lemma RootIsOne(a: nat, t: nat, q: int)
    requires t >= 2 && a * (4 * a + 1) == Pow2(t - 2) * q
    ensures (8 * a + 1) % Pow2(t + 1) == 1
  {
    Pow2Add(3, t - 2);
    assert Pow2(3) == 8;
    hide Pow2;
    var p := Pow2(t - 2);
    OddFactor(t - 2, a, 4 * a + 1, q);
    EightTimes(a, p, a / p, Pow2(t + 1));
  }

  lemma EightTimes(a: nat, p: nat, w: nat, power: nat)
    requires a == p * w && power == 8 * p && p > 0
    ensures (8 * a + 1) % power == 1
  {
    Scale(8, p, w);
    DivModUnique(8 * a + 1, power, w, 1);
  }

  lemma Scale(c: nat, p: nat, q: int)
    ensures (c * p) * q == c * (p * q)
  {
  }

  lemma Square(a: nat, r: nat)
    ensures (8 * a + r) * (8 * a + r) == 64 * (a * a) + 16 * (a * r) + r * r
  {
  }

  lemma Distribute(a: nat)
    ensures a * (4 * a + 1) == 4 * (a * a) + a
  {
  }

  lemma NotNineModSixteen(n: int, r: nat, m: int)
    requires (r == 1 || r == 3) && 16 * n + r * r == 16 * m + 1
    ensures r == 1
  {
  }

  // The powers of the prime come back to 1 as late as they can.
  lemma {:induction false} NoReturn(m: nat, t: nat)
    requires 1 <= m < Pow2(t) && t <= 62
    ensures Power(m) % Pow2(t + 2) != 1
  {
    if m % 2 == 1 {
      OddPower(m, t);
    } else {
      assert Pow2(t) == 2 * Pow2(t - 1) && (t == 1 ==> Pow2(0) == 1);
      hide Times, Power, Pow2;
      var h := m / 2;
      NoReturn(h, t - 1);
      PowerMod8(h);
      PowerAdd(h, h);
      SquareIsNotOne(Power(h), t);
    }
  }

  lemma OddPower(m: nat, t: nat)
    requires m % 2 == 1 && t >= 1
    ensures Power(m) % Pow2(t + 2) != 1
  {
    hide Power;
    PowerMod8(m);
    Pow2Add(3, t - 1);
    assert Pow2(3) == 8;
    hide Pow2;
    DivModAssoc(Power(m), 8, Pow2(t - 1));
  }

  lemma SquareIsNotOne(z: Word, t: nat)
    requires 2 <= t <= 62 && (z % 8 == 1 || z % 8 == 3) && z % Pow2(t + 1) != 1
    ensures Times(z, z) % Pow2(t + 2) != 1
  {
    hide Times, Pow2;
    TimesIsProduct(z, z);
    LowBitsOfWord(z * z, t + 2);
    if Times(z, z) % Pow2(t + 2) == 1 {
      var q := (z * z) / Pow2(t + 2);
      SquareRootOfOne(z, t, q);
    }
  }

  /* ---------------- a difference in bit 7 ---------------- */

  // A byte below 0x80 leaves the difference as it is.
  lemma XorKeepsDifference(x: Word, y: Word, b: Byte)
    requires b < 0x80 && x % 0x80 == y % 0x80
    ensures Xor(x, b) - Xor(y, b) == x - y
  {
    XorAbove(x, b);
    XorAbove(y, b);
  }

  lemma XorAbove(x: Word, b: Byte)
    requires b < 0x80
    ensures Xor(x, b) == x - x % 0x80 + Xor(x % 0x80, b)
  {
    assert Pow2(7) == 0x80;
    hide Xor, Pow2, High, Low;
    XorHighLow(x, b, 7);
    HighLow(x, 7);
    HighLow(b, 7);
    HighLow(Xor(x, b), 7);
    XorZero(x / 0x80);
  }

  lemma BitSeven(x: Word, y: Word)
    requires x != y && x / 0x100 == y / 0x100 && x % 0x80 == y % 0x80
    ensures x - y == 0x80 || x - y == -0x80
  {
  }

  lemma StepsApart(x: Word, y: Word, b: Byte, s: int, p: Word, t: int) returns (t': int)
    requires b < 0x80 && x % 0x80 == y % 0x80 && x - y == s * p + W * t
    ensures (Step(x, b) - Step(y, b)) == s * Times(p, PRIME) + W * t'
  {
    hide Xor, Times;
    XorKeepsDifference(x, y, b);
    var u, v := Xor(x, b), Xor(y, b);
    TimesIsProduct(u, PRIME);
    TimesIsProduct(v, PRIME);
    TimesIsProduct(p, PRIME);
    var i, j, k := u * PRIME / W, v * PRIME / W, p * PRIME / W;
    var r := Times(p, PRIME);
    assert p * PRIME == W * k + r;
    assert s * r == (s * p) * PRIME - W * (s * k) by { assert s * (p * PRIME) == s * (W * k) + s * r; }
    t' := PRIME * t - i + j + s * k;
  }

  // From a candidate on, the difference is multiplied by the prime at every byte.
  lemma {:induction false} DifferenceAt(bytes: seq<Byte>, wrong: Word, k: nat, j: nat, s: int) returns (t: int)
    requires k <= j <= |bytes| && forall i :: 0 <= i < |bytes| ==> bytes[i] < 0x80
    requires Forward(bytes, k) - Backward(bytes, wrong, k) == s
    requires Forward(bytes, |bytes|) % 0x80 == wrong % 0x80
    ensures Forward(bytes, j) - Backward(bytes, wrong, j) == s * Power(j - k) + W * t
    decreases j
  {
    hide Times, Step, Backward;
    if j == k {
      t := 0;
      assert Power(j - k) == 1;
    } else {
      assert Forward(bytes, j) == Step(Forward(bytes, j - 1), bytes[j - 1]);
      assert Power(j - k) == Times(Power(j - 1 - k), PRIME);
      hide Forward, Power;
      t := DifferenceAt(bytes, wrong, k, j - 1, s);
      BackwardStep(bytes, wrong, j - 1);
      LowBitsAgree(bytes, wrong, j - 1);
      t := StepsApart(Forward(bytes, j - 1), Backward(bytes, wrong, j - 1), bytes[j - 1], s, Power(j - 1 - k), t);
    }
  }

  lemma LowBitsAgree(bytes: seq<Byte>, wrong: Word, k: nat)
    requires k <= |bytes| && Forward(bytes, |bytes|) % 0x80 == wrong % 0x80
    ensures Forward(bytes, k) % 0x80 == Backward(bytes, wrong, k) % 0x80
  {
    Pow2Values();
    assert Pow2(8) == 2 * Pow2(7);
    hide Pow2, Forward;
    AgreementEverywhere(bytes, wrong, k, |bytes|, 7);
  }

  lemma WrongInBitSeven(h: Word, wrong: Word)
    requires wrong == Xor(h, 0x80)
    ensures h != wrong && h / 0x100 == wrong / 0x100 && h % 0x80 == wrong % 0x80
  {
    Pow2Values();
    assert Pow2(8) == 2 * Pow2(7) && 0x80 % Pow2(7) == 0;
    XorByte(h, 0x80);
    XorComm(h, 0x80);
    XorCancel(0x80, h);
    XorAssoc(h, h, 0x80);
    XorSelf(h);
    XorComm(0, 0x80);
    XorZero(0x80);
    XorAgreement(h, wrong, 7);
    XorIsZero(h, wrong);
  }

  lemma NoCandidate(bytes: seq<Byte>, wrong: Word, k: nat)
    requires k < |bytes| <= 0x7f_ffff_ffff_ffff && forall i :: 0 <= i < |bytes| ==> bytes[i] < 0x80
    requires wrong == Xor(Hash(bytes), 0x80)
    ensures !Candidate(bytes, wrong, k)
  {
    hide Forward, Xor, Power, Pow2;
    var n, m := |bytes|, |bytes| - k;
    var x: int, y: int := Forward(bytes, k), Backward(bytes, wrong, k);
    WrongInBitSeven(Hash(bytes), wrong);
    LowBitsAgree(bytes, wrong, k);
    XorBelowByte(x, y);
    XorIsZero(x, y);
    if Candidate(bytes, wrong, k) {
      BitSeven(x, y);
      BitSeven(Hash(bytes), wrong);
      var t := DifferenceAt(bytes, wrong, k, n, x - y);
      var h: int := Hash(bytes);
      SmallPower(m, x - y, h - wrong, t);
    }
  }

  lemma SmallPower(m: nat, s: int, d: int, t: int)
    requires 1 <= m <= 0x7f_ffff_ffff_ffff
    requires (s == 0x80 || s == -0x80) && (d == 0x80 || d == -0x80)
    ensures d != s * Power(m) + W * t
  {
    hide Power;
    Pow2At55();
    hide Pow2;
    NoReturn(m, 55);
    PowerMod8(m);
    var p, e := Power(m), if s == d then 1 else -1;
    if d == s * p + W * t {
      var u := if s == 0x80 then -t else t;
      assert p == 0x200_0000_0000_0000 * u + e;
      if e == 1 { DivModUnique(p, 0x200_0000_0000_0000, u, 1); }
    }
  }

  lemma Pow2At55()
    ensures Pow2(55) == 0x80_0000_0000_0000 && Pow2(57) == 0x200_0000_0000_0000
  {
    Pow2Values();
    Pow2Add(32, 16);
    Pow2Add(48, 7);
    Pow2Add(48, 9);
    assert Pow2(8) == 2 * Pow2(7) && Pow2(9) == 2 * Pow2(8);
  }

  // For every array of bytes below 0x80, of any length that fits a memory, a hash that is
  // wrong in bit 7 alone makes the scan read past the array.
  lemma BitSevenReadsBeyond(bytes: seq<Byte>, beyond: Byte, wrong: Word, r: ReverseResult)
    requires |bytes| <= 0x7f_ffff_ffff_ffff && forall i :: 0 <= i < |bytes| ==> bytes[i] < 0x80
    requires wrong == Xor(Hash(bytes), 0x80)
    requires Describes(bytes, beyond, wrong, r)
    ensures ReadsBeyond(bytes, r)
  {
    WrongInBitSeven(Hash(bytes), wrong);
    forall k: nat, b: Byte | k < |bytes|
      ensures !Explains(bytes, wrong, k, b)
    {
      NoCandidate(bytes, wrong, k);
      ExplainsIff(bytes, wrong, k, b);
    }
    ReadsBeyondIff(bytes, beyond, wrong, r);
  }

  /* ---------------- an observed array with such a hash ---------------- */

  function Zeros(n: nat): (samples: seq<Word32>)
    ensures |samples| == n
  {
    seq(n, _ => 0)
  }

  // As many samples as the program takes, the last three read wrongly.
  function Observed(): seq<Word32> {
    Zeros(99_997) + [0x0f000000, 0xe86b0835, 0xc2470238]
  }

  const TAIL: seq<Byte> := [0, 0, 0, 0x0f, 0x35, 0x08, 0x6b, 0xe8, 0x38, 0x02, 0x47, 0xc2]

  lemma ZeroBytes(n: nat)
    ensures forall k :: 0 <= k < 4 * n ==> BytesOf(Zeros(n))[k] == 0
  {
  }

  lemma ObservedBytes()
    ensures |BytesOf(Observed())| == 400_000
    ensures forall k :: 0 <= k < 399_988 ==> BytesOf(Observed())[k] == 0
    ensures forall k :: 399_988 <= k < 400_000 ==> BytesOf(Observed())[k] == TAIL[k - 399_988]
  {
    Lanes(0x0f000000, 0x00, 0x00, 0x00, 0x0f);
    Lanes(0xe86b0835, 0x35, 0x08, 0x6b, 0xe8);
    Lanes(0xc2470238, 0x38, 0x02, 0x47, 0xc2);
    ZeroBytes(99_997);
    hide LaneOf, Zeros;
    BytesOfSum(Zeros(99_997), [0x0f000000, 0xe86b0835, 0xc2470238]);
  }

  lemma {:induction false} ForwardZeros(bytes: seq<Byte>, k: nat)
    requires k <= |bytes| && forall i :: 0 <= i < k ==> bytes[i] == 0
    ensures Forward(bytes, k) == Times(BASIS, Power(k))
  {
    hide Times, Xor;
    if k == 0 {
      TimesOne(BASIS);
    } else {
      ForwardZeros(bytes, k - 1);
      XorZero(Forward(bytes, k - 1));
      TimesAssoc(BASIS, Power(k - 1), PRIME);
    }
  }

  lemma PowerDoubled(k: nat, v: Word, quotient: nat, next: Word)
    requires Power(k) == v && v * v == quotient * W + next
    ensures Power(k + k) == next
  {
    hide Power, Times;
    PowerAdd(k, k);
    TimesIsProduct(v, v);
    DivModUnique(v * v, W, quotient, next);
  }

  lemma PowerNext(k: nat, v: Word, quotient: nat, next: Word)
    requires Power(k) == v && v * PRIME == quotient * W + next
    ensures Power(k + 1) == next
  {
    hide Times;
    TimesIsProduct(v, PRIME);
    DivModUnique(v * PRIME, W, quotient, next);
  }

  lemma PowerOne()
    ensures Power(1) == PRIME
  {
    hide Times;
    assert Power(0) == 1 && Power(1) == Times(Power(0), PRIME);
    TimesIsProduct(1, PRIME);
  }

  lemma PowerHalfway()
    ensures Power(1562) == 0x9984a194532f6489
  {
    PowerOne();
    hide Power;
    PowerDoubled(1, 0x100000001b3, 0x10000, 0x366000002e329);
    PowerNext(2, 0x366000002e329, 0x3660000, 0x8a97b0004e7feab);
    PowerDoubled(3, 0x8a97b0004e7feab, 0x4b07e3a16dfeef, 0xdc966432edf1c639);
    PowerDoubled(6, 0xdc966432edf1c639, 0xbe12d4911bde380c, 0xf54383a05ace38b1);
    PowerDoubled(12, 0xf54383a05ace38b1, 0xeafa4bbf176bc1d5, 0x26a7a93bbd69ea61);
    PowerDoubled(24, 0x26a7a93bbd69ea61, 0x5d6340bf80c7fcb, 0x48f9aa9b542778c1);
    PowerDoubled(48, 0x48f9aa9b542778c1, 0x14cd6374b33292b8, 0xe7487b0aabc38181);
    PowerNext(96, 0xe7487b0aabc38181, 0xe7487b0c34, 0xc3aa9421dd350e33);
    PowerDoubled(97, 0xc3aa9421dd350e33, 0x958d4f54a9afca58, 0xacf946a8efe79e29);
    PowerNext(194, 0xacf946a8efe79e29, 0xacf946aa15, 0xd3313a0fa691bfab);
    PowerDoubled(195, 0xd3313a0fa691bfab, 0xae3a2f2d13bd1e2e, 0x3dc5499673369c39);
    PowerDoubled(390, 0x3dc5499673369c39, 0xee79d1c099c7e9f, 0xf6abb0cd7d6184b1);
    PowerNext(780, 0xf6abb0cd7d6184b1, 0xf6abb0cf20, 0x87421e2c0cb478c3);
    PowerDoubled(781, 0x87421e2c0cb478c3, 0x4776cce607ab3efa, 0x9984a194532f6489);
  }

  lemma PowerUpToTail()
    ensures Power(399991) == 0x74135acd4c5df21b
  {
    PowerHalfway();
    hide Power;
    PowerDoubled(1562, 0x9984a194532f6489, 0x5c0fcdda5260559d, 0x5590545ee7c95151);
    PowerDoubled(3124, 0x5590545ee7c95151, 0x1c9929660c7eddc6, 0x6c31ce8cf9065ba1);
    PowerNext(6248, 0x6c31ce8cf9065ba1, 0x6c31ce8db0, 0xdefd9a8b25cdb293);
    PowerDoubled(6249, 0xdefd9a8b25cdb293, 0xc23cd34429e52f67, 0x785be287f9fec069);
    PowerNext(12498, 0x785be287f9fec069, 0x785be288c6, 0x82e2560dcbe0f26b);
    PowerDoubled(12499, 0x82e2560dcbe0f26b, 0x42eaa7821059b51a, 0x2b0308fcd2ce78b9);
    PowerNext(24998, 0x2b0308fcd2ce78b9, 0x2b0308fd1b, 0xe4a0fe9a34d7225b);
    PowerDoubled(24999, 0xe4a0fe9a34d7225b, 0xcc2f2ac1ec179fdb, 0x8faa043bb1764c59);
    PowerDoubled(49998, 0x8faa043bb1764c59, 0x509f61a44f9bc5df, 0xce22c5438ad0f6f1);
    PowerNext(99996, 0xce22c5438ad0f6f1, 0xce22c544e9, 0x160c22c4e1139b83);
    PowerDoubled(99997, 0x160c22c4e1139b83, 0x1e6168d1ddd5bc3, 0xb9806574b9e9e509);
    PowerNext(199994, 0xb9806574b9e9e509, 0xb9806575f5, 0x1f116e57e8702e4b);
    PowerDoubled(199995, 0x1f116e57e8702e4b, 0x3c539e92187b40c, 0x8709700a79ff09f9);
    PowerNext(399990, 0x8709700a79ff09f9, 0x8709700b5f, 0x74135acd4c5df21b);
  }

  lemma PowerOfTail()
    ensures Power(9) == 0x936a555d949af613
  {
    PowerOne();
    hide Power;
    PowerDoubled(1, 0x100000001b3, 0x10000, 0x366000002e329);
    PowerDoubled(2, 0x366000002e329, 0xb8ca40013, 0x9ffaac085635bc91);
    PowerDoubled(4, 0x9ffaac085635bc91, 0x63f95726cefa554e, 0x1efac7090aef4a21);
    PowerNext(8, 0x1efac7090aef4a21, 0x1efac7093f, 0x936a555d949af613);
  }

  lemma StoredUpToTail(bytes: seq<Byte>)
    requires |bytes| >= 399991 && forall i :: 0 <= i < 399991 ==> bytes[i] == 0
    ensures Forward(bytes, 399991) == 0xe094da78f543aee7
  {
    hide Forward, Times, Power;
    PowerUpToTail();
    ForwardZeros(bytes, 399991);
    TimesIsProduct(BASIS, 0x74135acd4c5df21b);
    DivModUnique(BASIS * 0x74135acd4c5df21b, W, 0x5c795a700a1c1e7e, 0xe094da78f543aee7);
  }

  lemma StoredHash()
    ensures Hash(BytesOf(Zeros(Sweep.SAMPLE_COUNT))) == 0xb2da5b69010df525
  {
    hide Forward, Times, Power, Zeros, BytesOf;
    var bytes := BytesOf(Zeros(Sweep.SAMPLE_COUNT));
    ZeroBytes(Sweep.SAMPLE_COUNT);
    StoredUpToTail(bytes);
    ForwardZeros(bytes, 399991);
    ForwardZeros(bytes, 400_000);
    PowerAdd(399991, 9);
    TimesAssoc(BASIS, Power(399991), Power(9));
    PowerOfTail();
    TimesIsProduct(0xe094da78f543aee7, 0x936a555d949af613);
    DivModUnique(0xe094da78f543aee7 * 0x936a555d949af613, W, 0x8152c1f96fe6f28e, 0xb2da5b69010df525);
  }

  lemma ObservedHash()
    ensures Hash(BytesOf(Observed())) == 0xb2da5b69010df5a5
  {
    hide Forward, Observed, BytesOf;
    var s := BytesOf(Observed());
    ObservedBytes();
    assert s[399988] == 0x0;
    assert s[399989] == 0x0;
    assert s[399990] == 0x0;
    assert s[399991] == 0xf;
    assert s[399992] == 0x35;
    assert s[399993] == 0x8;
    assert s[399994] == 0x6b;
    assert s[399995] == 0xe8;
    assert s[399996] == 0x38;
    assert s[399997] == 0x2;
    assert s[399998] == 0x47;
    assert s[399999] == 0xc2;
    StoredUpToTail(s);
    Advance(s, 399991, 0xe094da78f543ae, 0xe7, 0xf, 0xe8, 0xe094da7a72, 0xe09e2388c2023438);
    Advance(s, 399992, 0xe09e2388c20234, 0x38, 0x35, 0xd, 0xe09e238a3f, 0xaeea6e61a9be7217);
    Advance(s, 399993, 0xaeea6e61a9be72, 0x17, 0x8, 0x1f, 0xaeea6e62d2, 0xf6cbaef36e9beaad);
    Advance(s, 399994, 0xf6cbaef36e9bea, 0xad, 0x6b, 0xc6, 0xf6cbaef511, 0xf8050da4f2efee72);
    Advance(s, 399995, 0xf8050da4f2efee, 0x72, 0xe8, 0x9a, 0xf8050da698, 0x6084c948cdb26fae);
    Advance(s, 399996, 0x6084c948cdb26f, 0xae, 0x38, 0x96, 0x6084c94971, 0xb4119cb586339be2);
    Advance(s, 399997, 0xb4119cb586339b, 0xe2, 0x2, 0xe0, 0xb4119cb6b8, 0x2d89287309b1dda0);
    Advance(s, 399998, 0x2d89287309b1dd, 0xa0, 0x47, 0xe7, 0x2d89287357, 0x11eda279793c0f85);
    Advance(s, 399999, 0x11eda279793c0f, 0x85, 0xc2, 0x47, 0x11eda27997, 0xb2da5b69010df5a5);
  }

  // All samples stored as zero, the last three observed wrongly: the scan reads past the
  // array.
  lemma ZerosReadBeyond(beyond: Byte, r: ReverseResult)
    requires Describes(BytesOf(Zeros(Sweep.SAMPLE_COUNT)), beyond, Hash(BytesOf(Observed())), r)
    ensures |Observed()| == Sweep.SAMPLE_COUNT && ReadsBeyond(BytesOf(Zeros(Sweep.SAMPLE_COUNT)), r)
  {
    hide Forward, BytesOf, Xor;
    ZeroBytes(Sweep.SAMPLE_COUNT);
    StoredHash();
    ObservedHash();
    FlipBitSeven();
    BitSevenReadsBeyond(BytesOf(Zeros(Sweep.SAMPLE_COUNT)), beyond, 0xb2da5b69010df5a5, r);
  }

  lemma FlipBitSeven()
    ensures Xor(0xb2da5b69010df525, 0x80) == 0xb2da5b69010df5a5
  {
    hide Xor;
    XorByte(0xb2da5b69010df525, 0x80);
    XorOfBytes(0x25, 0x80);
  }
}

