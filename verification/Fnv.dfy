/**
 FNV-1a with 64-bit words, section 2 of draft-eastlake-fnv, forwards and backwards.

 A position in a byte stream splits the computation in two: what the accumulator is
 before that byte (Forward), and what it must have been for the rest of the stream to
 end in a given hash (Backward).
 */
module Fnv {
  import opened Words

  const BASIS: Word := 14695981039346656037
  const PRIME: Word := 1099511628211
  const PRIME_INVERSE: Word := 0xce965057aff6957b

  function Step(acc: Word, b: Byte): Word {
    Times(Xor(acc, b), PRIME)
  }

  // The accumulator before byte b, given the accumulator after it.
  function Unstep(acc: Word, b: Byte): Word {
    XorWord(Times(acc, PRIME_INVERSE), b);
    Xor(Times(acc, PRIME_INVERSE), b)
  }

  function Forward(bytes: seq<Byte>, k: nat): Word
    requires k <= |bytes|
  {
    if k == 0 then BASIS else Step(Forward(bytes, k - 1), bytes[k - 1])
  }

  function Hash(bytes: seq<Byte>): Word {
    Forward(bytes, |bytes|)
  }

  function Backward(bytes: seq<Byte>, last: Word, k: nat): Word
    requires k <= |bytes|
    decreases |bytes| - k
  {
    if k == |bytes| then last else Unstep(Backward(bytes, last, k + 1), bytes[k])
  }

  // The hash reached when the accumulator before byte k is acc.
  function Resume(bytes: seq<Byte>, k: nat, acc: Word): Word
    requires k <= |bytes|
    decreases |bytes| - k
  {
    if k == |bytes| then acc else Resume(bytes, k + 1, Step(acc, bytes[k]))
  }

  /* ---------------- one step is a bijection ---------------- */

  lemma MulInverse(x: Word)
    ensures Times(Times(x, PRIME), PRIME_INVERSE) == x
    ensures Times(Times(x, PRIME_INVERSE), PRIME) == x
  {
    hide Times;
    TimesIsProduct(x, PRIME);
    TimesIsProduct(Times(x, PRIME), PRIME_INVERSE);
    TimesIsProduct(x, PRIME_INVERSE);
    TimesIsProduct(Times(x, PRIME_INVERSE), PRIME);
    var y, t := (x * PRIME) % W, (x * PRIME) / W;
    assert x * PRIME == W * t + y;
    DivModUnique(y * PRIME_INVERSE, W, 887285111055 * x - PRIME_INVERSE * t, x);
    var z, u := (x * PRIME_INVERSE) % W, (x * PRIME_INVERSE) / W;
    assert x * PRIME_INVERSE == W * u + z;
    DivModUnique(z * PRIME, W, 887285111055 * x - PRIME * u, x);
  }

  lemma StepUnstep(acc: Word, b: Byte)
    ensures Unstep(Step(acc, b), b) == acc
    ensures Step(Unstep(acc, b), b) == acc
  {
    XorWord(acc, b);
    MulInverse(Xor(acc, b));
    XorCancel(acc, b);
    MulInverse(acc);
    XorCancel(Times(acc, PRIME_INVERSE), b);
  }

  // Reading another byte is the same as reading the right one with the
  // accumulator disturbed by the difference of the two.
  lemma StepOtherByte(acc: Word, b: Byte, r: Byte)
    ensures Xor(b, r) < 0x100 && Xor(acc, Xor(b, r)) < W
    ensures Step(acc, r) == Step(Xor(acc, Xor(b, r)), b)
  {
    XorByteRange(b, r);
    XorWord(acc, Xor(b, r));
    XorAssoc(acc, Xor(b, r), b);
    XorComm(b, r);
    XorCancel(r, b);
  }

  /* ---------------- positions ---------------- */

  lemma {:induction false} ResumeForward(bytes: seq<Byte>, k: nat)
    requires k <= |bytes|
    ensures Resume(bytes, k, Forward(bytes, k)) == Hash(bytes)
    decreases |bytes| - k
  {
    if k < |bytes| { ResumeForward(bytes, k + 1); }
  }

  // Backward is the one accumulator from which the stream ends in the given hash.
  lemma {:induction false} ResumeBackward(bytes: seq<Byte>, last: Word, k: nat, acc: Word)
    requires k <= |bytes|
    ensures Resume(bytes, k, acc) == last <==> acc == Backward(bytes, last, k)
    decreases |bytes| - k
  {
    if k < |bytes| {
      ResumeBackward(bytes, last, k + 1, Step(acc, bytes[k]));
      StepUnstep(acc, bytes[k]);
      StepUnstep(Backward(bytes, last, k + 1), bytes[k]);
    }
  }

  // Both accumulators obey the same recurrence.
  lemma BackwardStep(bytes: seq<Byte>, last: Word, k: nat)
    requires k < |bytes|
    ensures Backward(bytes, last, k + 1) == Step(Backward(bytes, last, k), bytes[k])
  {
    StepUnstep(Backward(bytes, last, k + 1), bytes[k]);
  }

  lemma {:induction false} ForwardPrefix(a: seq<Byte>, b: seq<Byte>, k: nat)
    requires k <= |a| && k <= |b| && a[..k] == b[..k]
    ensures Forward(a, k) == Forward(b, k)
  {
    if k > 0 {
      assert a[..k - 1] == a[..k][..k - 1] == b[..k][..k - 1] == b[..k - 1];
      assert a[k - 1] == a[..k][k - 1] == b[..k][k - 1] == b[k - 1];
      ForwardPrefix(a, b, k - 1);
    }
  }

  lemma {:induction false} ResumeSuffix(a: seq<Byte>, b: seq<Byte>, k: nat, acc: Word)
    requires k <= |a| == |b| && a[k..] == b[k..]
    ensures Resume(a, k, acc) == Resume(b, k, acc)
    decreases |a| - k
  {
    if k < |a| {
      assert a[k] == a[k..][0] == b[k..][0] == b[k];
      assert a[k + 1..] == a[k..][1..] == b[k..][1..] == b[k + 1..];
      ResumeSuffix(a, b, k + 1, Step(acc, a[k]));
    }
  }

  // The hash of the stream with one byte replaced.
  lemma HashOfSubstitution(bytes: seq<Byte>, k: nat, r: Byte)
    requires k < |bytes|
    ensures Xor(bytes[k], r) < 0x100 && Xor(Forward(bytes, k), Xor(bytes[k], r)) < W
    ensures Hash(bytes[k := r]) == Resume(bytes, k, Xor(Forward(bytes, k), Xor(bytes[k], r)))
  {
    var other := bytes[k := r];
    ResumeForward(other, k + 1);
    ForwardPrefix(bytes, other, k);
    ResumeSuffix(bytes, other, k + 1, Step(Forward(bytes, k), r));
    StepOtherByte(Forward(bytes, k), bytes[k], r);
  }

  lemma {:induction false} HashSnoc(bytes: seq<Byte>, b: Byte)
    ensures Hash(bytes + [b]) == Step(Hash(bytes), b)
  {
    ForwardPrefix(bytes, bytes + [b], |bytes|);
  }
}
