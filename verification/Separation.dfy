/**
 How far apart two places must be to have the same effect on the hash.

 One step maps a difference of two accumulators d to PRIME * (d + e), where e is what the
 two bytes do to it. If two accumulators that are equal become equal again after six
 bytes, the six changes satisfy a linear relation modulo 2^64. They are so small that six
 independent multiples of that relation are less than 2^64 in size; these hold exactly,
 and leave only zero.
 */
module Separation {
  import opened Words
  import opened Fnv
  import opened Inversion

  /* ---------------- one byte ---------------- */

  // What two bytes do to the difference of two accumulators: they replace the difference
  // of the low bytes, low, by another, after.
  lemma XorDifference(x: Word, y: Word, a: Byte, b: Byte) returns (low: int, after: int)
    ensures low == x % 0x100 - y % 0x100 && -0x100 < low < 0x100 && -0x100 < after < 0x100
    ensures Xor(x, a) - Xor(y, b) == x - y - low + after
    ensures x == y && after == 0 ==> a == b
  {
    hide Xor;
    var p: Byte, q: Byte := x % 0x100, y % 0x100;
    XorByte(x, a);
    XorByte(y, b);
    XorByteRange(p, a);
    XorByteRange(q, b);
    var p': int, q': int := Xor(p, a), Xor(q, b);
    low, after := p as int - q as int, p' - q';
    if x == y {
      XorComm(p, a);
      XorComm(p, b);
      XorInjective(a, b, p);
    }
  }

  lemma StepDifference(x: Word, y: Word, a: Byte, b: Byte) returns (t: int)
    ensures Step(x, a) - Step(y, b) == PRIME * (Xor(x, a) - Xor(y, b)) + W * t
  {
    hide Xor, Times;
    XorWord(x, a);
    XorWord(y, b);
    TimesIsProduct(Xor(x, a), PRIME);
    TimesIsProduct(Xor(y, b), PRIME);
    t := Xor(y, b) * PRIME / W - Xor(x, a) * PRIME / W;
  }

  lemma StepInjective(x: Word, y: Word, a: Byte, b: Byte)
    requires Step(x, a) == Step(y, b)
    ensures Xor(x, a) == Xor(y, b)
  {
    hide Xor, Times;
    XorWord(x, a);
    XorWord(y, b);
    MulInverse(Xor(x, a));
    MulInverse(Xor(y, b));
  }

  /* ---------------- linear relations modulo 2^64 ---------------- */

  function Dot(c: seq<int>, e: seq<int>): int
    requires |c| == |e|
  {
    if c == [] then 0 else c[0] * e[0] + Dot(c[1..], e[1..])
  }

  // z is the difference after each byte, e what the byte changed.
  ghost predicate Chained(e: seq<int>, z: seq<int>) {
    && |e| == |z|
    && forall i {:trigger z[i + 1]} :: 0 <= i < |e| - 1 ==> (z[i + 1] - e[i + 1] - PRIME * z[i]) % W == 0
  }

  // The coefficients of a multiple of the relation, each reduced modulo 2^64.
  predicate Multiple(c: seq<int>) {
    forall i {:trigger c[i + 1]} :: 0 <= i < |c| - 1 ==> (PRIME * c[i + 1] - c[i]) % W == 0
  }

  lemma {:induction false} Telescope(c: seq<int>, e: seq<int>, z: seq<int>)
    requires |c| == |e| > 0 && Multiple(c) && Chained(e, z)
    ensures (Dot(c, e) - c[|c| - 1] * z[|c| - 1] + c[0] * (z[0] - e[0])) % W == 0
  {
    if |c| == 1 {
      assert c[1..] == [] && e[1..] == [];
      Distribute(c[0], z[0], e[0]);
    } else {
      var c', e', z' := c[1..], e[1..], z[1..];
      MultipleTail(c);
      ChainedTail(e, z);
      Telescope(c', e', z');
      var k, t := (PRIME * c[1] - c[0]) / W, (z[1] - e[1] - PRIME * z[0]) / W;
      var n := (Dot(c', e') - c'[|c'| - 1] * z'[|c'| - 1] + c'[0] * (z'[0] - e'[0])) / W;
      FirstLink(c, e, z);
      Joined(c[0], c[1], z[0], z[1] - e[1], k, t);
      Distribute(c[0], z[0], e[0]);
      DivModUnique(Dot(c, e) - c[|c| - 1] * z[|c| - 1] + c[0] * (z[0] - e[0]), W, n - k * z[0] - c[1] * t, 0);
    }
  }

  lemma MultipleTail(c: seq<int>)
    requires |c| > 1 && Multiple(c)
    ensures Multiple(c[1..])
  {
    var c' := c[1..];
    forall i | 0 <= i < |c'| - 1
      ensures (PRIME * c'[i + 1] - c'[i]) % W == 0
    {
      var k := i + 1;
      assert (PRIME * c[k + 1] - c[k]) % W == 0;
    }
  }

  lemma ChainedTail(e: seq<int>, z: seq<int>)
    requires |e| > 1 && Chained(e, z)
    ensures Chained(e[1..], z[1..])
  {
    var e', z' := e[1..], z[1..];
    forall i | 0 <= i < |e'| - 1
      ensures (z'[i + 1] - e'[i + 1] - PRIME * z'[i]) % W == 0
    {
      var k := i + 1;
      assert (z[k + 1] - e[k + 1] - PRIME * z[k]) % W == 0;
    }
  }

  lemma FirstLink(c: seq<int>, e: seq<int>, z: seq<int>)
    requires |c| == |e| > 1 && Multiple(c) && Chained(e, z)
    ensures (PRIME * c[1] - c[0]) % W == 0 && (z[1] - e[1] - PRIME * z[0]) % W == 0
  {
    var k := 0;
    assert (PRIME * c[k + 1] - c[k]) % W == 0;
    assert (z[k + 1] - e[k + 1] - PRIME * z[k]) % W == 0;
  }

  lemma Distribute(c: int, z: int, e: int)
    ensures c * (z - e) == c * z - c * e
  {
  }

  lemma Joined(c0: int, c1: int, z: int, d: int, k: int, t: int)
    requires PRIME * c1 - c0 == W * k && d == PRIME * z + W * t
    ensures c1 * d == c0 * z + W * (k * z + c1 * t)
  {
    assert c1 * d == PRIME * c1 * z + W * (c1 * t);
    assert PRIME * c1 * z == (c0 + W * k) * z;
    assert (c0 + W * k) * z == c0 * z + W * (k * z);
  }

  // A multiple of a relation that starts and ends with equal accumulators.
  lemma Closed(c: seq<int>, e: seq<int>, z: seq<int>)
    requires |c| == |e| > 0 && Multiple(c) && Chained(e, z)
    requires z[0] == e[0] && z[|z| - 1] == 0
    ensures Dot(c, e) % W == 0
  {
    Telescope(c, e, z);
  }

  function Abs(n: int): nat { if n < 0 then -n else n }

  lemma ProductBound(c: int, e: int, bound: nat)
    requires Abs(e) <= bound
    ensures Abs(c * e) <= Abs(c) * bound
  {
    if e >= 0 { MulMonotone(Abs(c), e, bound); } else { MulMonotone(Abs(c), -e, bound); }
    if c >= 0 { assert c * e == Abs(c) * e; } else { assert c * e == Abs(c) * -e; }
    assert Abs(c) * -e == -(Abs(c) * e);
  }

  /* ---------------- six bytes ---------------- */

  lemma SixTerms(c: seq<int>, e: seq<int>)
    requires |c| == |e| == 6
    ensures Dot(c, e) == c[0] * e[0] + c[1] * e[1] + c[2] * e[2] + c[3] * e[3] + c[4] * e[4] + c[5] * e[5]
  {
    assert c[0..] == c && e[0..] == e;
    TailTerm(c, e, 5);
    TailTerm(c, e, 4);
    TailTerm(c, e, 3);
    TailTerm(c, e, 2);
    TailTerm(c, e, 1);
    TailTerm(c, e, 0);
  }

  lemma TailTerm(c: seq<int>, e: seq<int>, i: nat)
    requires |c| == |e| && i < |c|
    ensures Dot(c[i..], e[i..]) == c[i] * e[i] + Dot(c[i + 1..], e[i + 1..])
  {
    assert c[i..][1..] == c[i + 1..] && e[i..][1..] == e[i + 1..];
  }

  // The changes that six pairs of bytes make to two accumulators that start out equal.
  ghost predicate SmallSix(e: seq<int>) {
    |e| == 6 && -0x100 < e[0] < 0x100 && forall i :: 1 <= i < 6 ==> -0x1ff < e[i] < 0x1ff
  }

  // The coefficients of a multiple of the relation between six changes, each reduced
  // modulo 2^64, and small enough that the sum cannot reach 2^64.
  predicate Usable(c0: int, c1: int, c2: int, c3: int, c4: int, c5: int) {
    && (PRIME * c1 - c0) % W == 0 && (PRIME * c2 - c1) % W == 0 && (PRIME * c3 - c2) % W == 0
    && (PRIME * c4 - c3) % W == 0 && (PRIME * c5 - c4) % W == 0
    && 0xff * Abs(c0) + 0x1fe * (Abs(c1) + Abs(c2) + Abs(c3) + Abs(c4) + Abs(c5)) < W
  }

  // Such a multiple of the relation holds exactly.
  lemma SixRow(e: seq<int>, z: seq<int>, c0: int, c1: int, c2: int, c3: int, c4: int, c5: int)
    requires Usable(c0, c1, c2, c3, c4, c5)
    requires SmallSix(e) && Chained(e, z) && z[0] == e[0] && z[5] == 0
    ensures c0 * e[0] + c1 * e[1] + c2 * e[2] + c3 * e[3] + c4 * e[4] + c5 * e[5] == 0
  {
    SixDivides(e, z, c0, c1, c2, c3, c4, c5);
    ProductBound(c0, e[0], 0xff);
    ProductBound(c1, e[1], 0x1fe);
    ProductBound(c2, e[2], 0x1fe);
    ProductBound(c3, e[3], 0x1fe);
    ProductBound(c4, e[4], 0x1fe);
    ProductBound(c5, e[5], 0x1fe);
    hide Chained;
    SmallSum(c0 * e[0], c1 * e[1], c2 * e[2], c3 * e[3], c4 * e[4], c5 * e[5]);
  }

  lemma SixDivides(e: seq<int>, z: seq<int>, c0: int, c1: int, c2: int, c3: int, c4: int, c5: int)
    requires Usable(c0, c1, c2, c3, c4, c5)
    requires |e| == 6 && Chained(e, z) && z[0] == e[0] && z[5] == 0
    ensures (c0 * e[0] + c1 * e[1] + c2 * e[2] + c3 * e[3] + c4 * e[4] + c5 * e[5]) % W == 0
  {
    var c := [c0, c1, c2, c3, c4, c5];
    assert Multiple(c);
    hide Multiple, Chained, Usable;
    Closed(c, e, z);
    SixTerms(c, e);
  }

  lemma SmallSum(p0: int, p1: int, p2: int, p3: int, p4: int, p5: int)
    requires (p0 + p1 + p2 + p3 + p4 + p5) % W == 0
    requires Abs(p0) + Abs(p1) + Abs(p2) + Abs(p3) + Abs(p4) + Abs(p5) < W
    ensures p0 + p1 + p2 + p3 + p4 + p5 == 0
  {
  }

  lemma Row0()
    ensures Usable(-6302646686563376, 1535281643037936, -5452110822838448,
                   559839306353520, -5164142811992368, -4410605614494224)
  {
  }

  lemma Row1()
    ensures Usable(4482579670404340, -5247281785750212, -1973864442898476,
                   -1178876700584228, -4977183758088268, 5046382459189116)
  {
  }

  lemma Row2()
    ensures Usable(-10753435092956894, -1503490379027114, -2833942984976814,
                   84464088609638, 3509890893664258, 8107455562062582)
  {
  }

  lemma Row3()
    ensures Usable(1150927258463695, -6373219910648459, 2407835907481655,
                   7420022407511405, 521531150890079, -2434785518635867)
  {
  }

  lemma Row4()
    ensures Usable(-10117495039556816, 644476066068496, 7704392091402160,
                   -4253954618046064, -3431600937981904, 2518874921680656)
  {
  }

  lemma Row5()
    ensures Usable(-9789017738385781, -7919193472128055, -1596130608970093,
                   -6831300301736031, 4550431160430427, -563956972030023)
  {
  }

  // Six of them are independent.
  lemma SixVanish(e: seq<int>, z: seq<int>)
    requires SmallSix(e) && Chained(e, z) && z[0] == e[0] && z[5] == 0
    ensures forall i :: 0 <= i < 6 ==> e[i] == 0
  {
    Row0();
    Row1();
    Row2();
    Row3();
    Row4();
    Row5();
    hide Chained, Usable;
    SixRow(e, z, -6302646686563376, 1535281643037936, -5452110822838448,
           559839306353520, -5164142811992368, -4410605614494224);
    SixRow(e, z, 4482579670404340, -5247281785750212, -1973864442898476,
           -1178876700584228, -4977183758088268, 5046382459189116);
    SixRow(e, z, -10753435092956894, -1503490379027114, -2833942984976814,
           84464088609638, 3509890893664258, 8107455562062582);
    SixRow(e, z, 1150927258463695, -6373219910648459, 2407835907481655,
           7420022407511405, 521531150890079, -2434785518635867);
    SixRow(e, z, -10117495039556816, 644476066068496, 7704392091402160,
           -4253954618046064, -3431600937981904, 2518874921680656);
    SixRow(e, z, -9789017738385781, -7919193472128055, -1596130608970093,
           -6831300301736031, 4550431160430427, -563956972030023);
  }

  /* ---------------- two accumulators along the same number of bytes ---------------- */

  function After(x: Word, s: seq<Byte>): Word
    decreases |s|
  {
    if s == [] then x else After(Step(x, s[0]), s[1..])
  }

  lemma {:induction false} ForwardAfter(bytes: seq<Byte>, m: nat, n: nat)
    requires m <= n <= |bytes|
    ensures Forward(bytes, n) == After(Forward(bytes, m), bytes[m..n])
    decreases n - m
  {
    if m < n {
      ForwardAfter(bytes, m + 1, n);
      assert bytes[m..n][0] == bytes[m] && bytes[m..n][1..] == bytes[m + 1..n];
    }
  }

  // The differences z of two accumulators after each pair of bytes, and the changes e the
  // bytes make.
  ghost predicate Traced(x: Word, y: Word, a: seq<Byte>, b: seq<Byte>, e: seq<int>, z: seq<int>)
    requires |a| == |b| > 0
  {
    && |e| == |z| == |a| && Chained(e, z) && z[0] - e[0] == x - y
    && (forall i :: 0 <= i < |e| ==> -0x1ff < e[i] < 0x1ff)
    && (x == y ==> -0x100 < e[0] < 0x100 && (e[0] == 0 ==> a[0] == b[0]))
    && (After(x, a) == After(y, b) ==> z[|z| - 1] == 0)
  }

  lemma {:induction false} Chain(x: Word, y: Word, a: seq<Byte>, b: seq<Byte>) returns (e: seq<int>, z: seq<int>)
    requires |a| == |b| > 0
    ensures Traced(x, y, a, b, e, z)
    decreases |a|
  {
    hide Traced, Step;
    if |a| == 1 {
      e, z := OneLink(x, y, a, b);
    } else {
      e, z := Chain(Step(x, a[0]), Step(y, b[0]), a[1..], b[1..]);
      e, z := OneMoreLink(x, y, a, b, e, z);
    }
  }

  // The first link: the change, and the difference after it.
  lemma Link(x: Word, y: Word, a: Byte, b: Byte) returns (e: int, d: int, t: int)
    ensures d - e == x - y && -0x1ff < e < 0x1ff
    ensures x == y ==> -0x100 < e < 0x100 && (e == 0 ==> a == b)
    ensures Step(x, a) - Step(y, b) == PRIME * d + W * t
    ensures Step(x, a) == Step(y, b) ==> d == 0
  {
    hide Xor, Step;
    var l, m := XorDifference(x, y, a, b);
    t := StepDifference(x, y, a, b);
    if Step(x, a) == Step(y, b) { StepInjective(x, y, a, b); }
    var p: int, q: int := Xor(x, a), Xor(y, b);
    e, d := m - l, p - q;
  }

  lemma OneLink(x: Word, y: Word, a: seq<Byte>, b: seq<Byte>) returns (e: seq<int>, z: seq<int>)
    requires |a| == |b| == 1
    ensures Traced(x, y, a, b, e, z)
  {
    hide Step;
    var c, d, t := Link(x, y, a[0], b[0]);
    e, z := [c], [d];
    assert After(x, a) == After(Step(x, a[0]), a[1..]) == Step(x, a[0]);
    assert After(y, b) == After(Step(y, b[0]), b[1..]) == Step(y, b[0]);
  }

  lemma OneMoreLink(x: Word, y: Word, a: seq<Byte>, b: seq<Byte>, e': seq<int>, z': seq<int>)
    returns (e: seq<int>, z: seq<int>)
    requires |a| == |b| > 1 && Traced(Step(x, a[0]), Step(y, b[0]), a[1..], b[1..], e', z')
    ensures Traced(x, y, a, b, e, z)
  {
    hide Step;
    var c, d, t := Link(x, y, a[0], b[0]);
    e, z := [c] + e', [d] + z';
    ChainedFrom(c, d, t, e', z');
    hide Chained;
  }

  lemma ChainedFrom(first: int, d: int, t: int, e: seq<int>, z: seq<int>)
    requires Chained(e, z) && |e| > 0 && z[0] - e[0] == PRIME * d + W * t
    ensures Chained([first] + e, [d] + z)
  {
    var e', z' := [first] + e, [d] + z;
    forall i | 0 <= i < |e'| - 1
      ensures (z'[i + 1] - e'[i + 1] - PRIME * z'[i]) % W == 0
    {
      if i == 0 {
        assert z'[i + 1] == z[0] && e'[i + 1] == e[0] && z'[i] == d;
        DivModUnique(W * t, W, t, 0);
      } else {
        var k := i - 1;
        assert (z[k + 1] - e[k + 1] - PRIME * z[k]) % W == 0;
      }
    }
  }

  // FNV-1a tells windows of six bytes apart.
  lemma {:induction false} SameWindow(x: Word, a: seq<Byte>, b: seq<Byte>)
    requires |a| == |b| <= 6 && After(x, a) == After(x, b)
    ensures a == b
    decreases |a|
  {
    hide Step, Chained;
    if a != [] {
      var pad := seq(6 - |a|, _ => 0);
      AfterMore(x, a, pad);
      AfterMore(x, b, pad);
      var e, z := Chain(x, x, a + pad, b + pad);
      assert After(x, a + pad) == After(x, b + pad) && z[5] == 0;
      SixVanish(e, z);
      assert (a + pad)[0] == a[0] && (b + pad)[0] == b[0] && a[0] == b[0];
      SameWindow(Step(x, a[0]), a[1..], b[1..]);
      assert a == [a[0]] + a[1..] && b == [b[0]] + b[1..];
    }
  }

  lemma {:induction false} AfterMore(x: Word, s: seq<Byte>, more: seq<Byte>)
    ensures After(x, s + more) == After(After(x, s), more)
    decreases |s|
  {
    hide Step;
    if s == [] {
      assert s + more == more;
    } else {
      AfterMore(Step(x, s[0]), s[1..], more);
      assert (s + more)[1..] == s[1..] + more;
    }
  }

  // The streams differ in the six bytes from m on, or not at all.
  ghost predicate SameOutside(a: seq<Byte>, b: seq<Byte>, m: nat) {
    |a| == |b| && forall i :: 0 <= i < |a| && !(m <= i < m + 6) ==> a[i] == b[i]
  }

  // Different streams that differ only within six consecutive bytes have different hashes.
  lemma SameHashSameBytes(a: seq<Byte>, b: seq<Byte>, m: nat)
    requires SameOutside(a, b, m)
    requires Hash(a) == Hash(b)
    ensures a == b
  {
    hide Step, Forward, Resume, Backward;
    if m < |a| {
      var n := if m + 6 < |a| then m + 6 else |a|;
      assert a[..m] == b[..m] && a[n..] == b[n..];
      ForwardPrefix(a, b, m);
      ForwardAfter(a, m, n);
      ForwardAfter(b, m, n);
      ResumeForward(a, n);
      ResumeForward(b, n);
      ResumeSuffix(a, b, n, Forward(b, n));
      ResumeBackward(a, Hash(a), n, Forward(a, n));
      ResumeBackward(a, Hash(a), n, Forward(b, n));
      SameWindow(Forward(a, m), a[m..n], b[m..n]);
      assert a == a[..m] + a[m..n] + a[n..] && b == b[..m] + b[m..n] + b[n..];
    }
  }

  lemma DifferentHashes(a: seq<Byte>, b: seq<Byte>, m: nat, k: nat)
    requires SameOutside(a, b, m) && k < |a| && a[k] != b[k]
    ensures Hash(a) != Hash(b)
  {
    hide Forward;
    if Hash(a) == Hash(b) { SameHashSameBytes(a, b, m); }
  }

  /* ---------------- two candidates ---------------- */

  // Two bytes at most five apart do not explain the same hash.
  lemma InWindow(bytes: seq<Byte>, wrong: Word, i: nat, j: nat)
    requires i < j < |bytes| && j <= i + 5 && Candidate(bytes, wrong, i)
    ensures !Candidate(bytes, wrong, j)
  {
    hide Candidate, Forward, Backward;
    CandidateIffExplained(bytes, wrong, i);
    CandidateIffExplained(bytes, wrong, j);
    var r: Byte :| Explains(bytes, wrong, i, r);
    forall s: Byte
      ensures !Explains(bytes, wrong, j, s)
    {
      DifferentHashes(bytes[i := r], bytes[j := s], i, i);
    }
  }

  // The end of the stream is a position of a longer stream.
  lemma CandidateMore(bytes: seq<Byte>, wrong: Word, k: nat)
    requires k <= |bytes|
    ensures Candidate(bytes, wrong, k) <==> Candidate(bytes + [0], Step(wrong, 0), k)
  {
    hide Step, Xor;
    assert bytes[..k] == (bytes + [0])[..k];
    ForwardPrefix(bytes, bytes + [0], k);
    BackwardMore(bytes, wrong, k);
  }

  lemma {:induction false} BackwardMore(bytes: seq<Byte>, wrong: Word, k: nat)
    requires k <= |bytes|
    ensures Backward(bytes + [0], Step(wrong, 0), k) == Backward(bytes, wrong, k)
    decreases |bytes| - k
  {
    hide Step, Unstep;
    if k == |bytes| { StepUnstep(wrong, 0); } else { BackwardMore(bytes, wrong, k + 1); }
  }

  // Two positions at most five bytes apart are never both candidates.
  lemma CandidatesAreFarApart(bytes: seq<Byte>, wrong: Word, i: nat, j: nat)
    requires i < j <= |bytes| && j <= i + 5
    requires Candidate(bytes, wrong, i)
    ensures !Candidate(bytes, wrong, j)
  {
    hide Candidate;
    if j < |bytes| {
      InWindow(bytes, wrong, i, j);
    } else {
      CandidateMore(bytes, wrong, i);
      CandidateMore(bytes, wrong, j);
      InWindow(bytes + [0], Step(wrong, 0), i, j);
    }
  }
}
