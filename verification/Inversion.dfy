/**
 What the difference between the forward and the backward accumulator says about a
 wrong hash, for every byte stream and every wrong hash.
 */
module Inversion {
  import opened Words
  import opened Fnv

  function Diff(bytes: seq<Byte>, wrong: Word, k: nat): Word
    requires k <= |bytes|
  {
    XorWord(Forward(bytes, k), Backward(bytes, wrong, k));
    Xor(Forward(bytes, k), Backward(bytes, wrong, k))
  }

  // A position the scan takes for the misread byte.
  predicate Candidate(bytes: seq<Byte>, wrong: Word, k: nat)
    requires k <= |bytes|
  {
    0 < Diff(bytes, wrong, k) < 0x100
  }

  // Reading r instead of the stored byte at k, and every other byte correctly,
  // ends in the wrong hash.
  predicate Explains(bytes: seq<Byte>, wrong: Word, k: nat, r: Byte)
    requires k < |bytes|
  {
    r != bytes[k] && Hash(bytes[k := r]) == wrong
  }

  /* ---------------- which byte, and what came back ---------------- */

  lemma ExplainsIff(bytes: seq<Byte>, wrong: Word, k: nat, r: Byte)
    requires k < |bytes|
    ensures Explains(bytes, wrong, k, r) <==>
            Candidate(bytes, wrong, k) && r == Xor(bytes[k], Diff(bytes, wrong, k))
  {
    var f, b, d := Forward(bytes, k), Backward(bytes, wrong, k), Xor(bytes[k], r);
    HashOfSubstitution(bytes, k, r);
    ResumeBackward(bytes, wrong, k, Xor(f, d));
    // Xor(f, d) == b exactly when d == Xor(f, b)
    XorAssoc(f, f, d); XorSelf(f); XorComm(0, d); XorZero(d);
    XorAssoc(f, f, b); XorComm(0, b); XorZero(b);
    assert Xor(f, d) == b <==> d == Diff(bytes, wrong, k);
    XorIsZero(bytes[k], r);
    XorAssoc(bytes[k], bytes[k], r); XorSelf(bytes[k]); XorComm(0, r); XorZero(r);
    var e := Diff(bytes, wrong, k);
    XorAssoc(bytes[k], bytes[k], e); XorComm(0, e); XorZero(e);
  }

  lemma CandidateIffExplained(bytes: seq<Byte>, wrong: Word, k: nat)
    requires k < |bytes|
    ensures Candidate(bytes, wrong, k) <==> exists r: Byte :: Explains(bytes, wrong, k, r)
    ensures forall r: Byte, s: Byte :: Explains(bytes, wrong, k, r) && Explains(bytes, wrong, k, s) ==> r == s
  {
    forall r: Byte, s: Byte | Explains(bytes, wrong, k, r) && Explains(bytes, wrong, k, s)
      ensures r == s
    {
      ExplainsIff(bytes, wrong, k, r);
      ExplainsIff(bytes, wrong, k, s);
    }
    if Candidate(bytes, wrong, k) {
      XorByteRange(bytes[k], Diff(bytes, wrong, k));
      ExplainsIff(bytes, wrong, k, Xor(bytes[k], Diff(bytes, wrong, k)));
    }
    if r: Byte :| Explains(bytes, wrong, k, r) {
      ExplainsIff(bytes, wrong, k, r);
    }
  }

  // At the end of the stream the difference is that of the two hashes.
  lemma CandidateAtEnd(bytes: seq<Byte>, wrong: Word)
    ensures Candidate(bytes, wrong, |bytes|) <==>
            wrong != Hash(bytes) && wrong / 0x100 == Hash(bytes) / 0x100
  {
    XorBelowByte(Hash(bytes), wrong);
    XorIsZero(Hash(bytes), wrong);
  }

  /* ---------------- the lowest differing bit ---------------- */

  lemma TimesKeepsAgreement(x: nat, y: nat, n: nat, j: nat)
    requires j <= 64 && x % Pow2(j) == y % Pow2(j)
    ensures Times(x, n) % Pow2(j) == Times(y, n) % Pow2(j)
  {
    hide Times, Pow2;
    TimesIsProduct(x, n);
    TimesIsProduct(y, n);
    MulRespectsMod(x, y, n, Pow2(j));
    LowBitsOfWord(x * n, j);
    LowBitsOfWord(y * n, j);
  }

  lemma StepKeepsAgreement(x: Word, y: Word, b: Byte, j: nat)
    requires j <= 64 && x % Pow2(j) == y % Pow2(j)
    ensures Step(x, b) % Pow2(j) == Step(y, b) % Pow2(j)
  {
    XorAgreement(x, y, j);
    XorAgreement(Xor(x, b), Xor(y, b), j);
    XorBoth(x, y, b);
    TimesKeepsAgreement(Xor(x, b), Xor(y, b), PRIME, j);
  }

  lemma XorBoth(x: nat, y: nat, b: nat)
    ensures Xor(Xor(x, b), Xor(y, b)) == Xor(x, y)
  {
    XorComm(y, b);
    XorAssoc(Xor(x, b), b, y);
    XorCancel(x, b);
  }

  lemma UnstepKeepsAgreement(x: Word, y: Word, b: Byte, j: nat)
    requires j <= 64 && x % Pow2(j) == y % Pow2(j)
    ensures Unstep(x, b) % Pow2(j) == Unstep(y, b) % Pow2(j)
  {
    TimesKeepsAgreement(x, y, PRIME_INVERSE, j);
    var u, v := Times(x, PRIME_INVERSE), Times(y, PRIME_INVERSE);
    XorAgreement(u, v, j);
    XorAgreement(Xor(u, b), Xor(v, b), j);
    XorBoth(u, v, b);
  }

  // Forward and backward agree on their low j bits at one position exactly when
  // they do at every position.
  lemma {:induction false} AgreementEverywhere(bytes: seq<Byte>, wrong: Word, i: nat, k: nat, j: nat)
    requires i <= k <= |bytes| && j <= 64
    ensures Forward(bytes, i) % Pow2(j) == Backward(bytes, wrong, i) % Pow2(j) <==>
            Forward(bytes, k) % Pow2(j) == Backward(bytes, wrong, k) % Pow2(j)
    decreases k - i
  {
    hide Step, Unstep, Pow2, Backward;
    if i < k {
      AgreementEverywhere(bytes, wrong, i, k - 1, j);
      var x, y, b := Forward(bytes, k - 1), Backward(bytes, wrong, k - 1), bytes[k - 1];
      BackwardStep(bytes, wrong, k - 1);
      StepUnstep(x, b);
      StepUnstep(y, b);
      if x % Pow2(j) == y % Pow2(j) { StepKeepsAgreement(x, y, b, j); }
      if Step(x, b) % Pow2(j) == Step(y, b) % Pow2(j) {
        UnstepKeepsAgreement(Step(x, b), Step(y, b), b, j);
      }
    }
  }

  lemma LowestBitEverywhere(bytes: seq<Byte>, wrong: Word, i: nat, k: nat)
    requires i <= k <= |bytes|
    ensures Diff(bytes, wrong, i) == 0 <==> Diff(bytes, wrong, k) == 0
    ensures Diff(bytes, wrong, i) != 0 ==>
              LowestBit(Diff(bytes, wrong, i)) == LowestBit(Diff(bytes, wrong, k))
  {
    hide Diff, Pow2, LowestBit;
    DividesEverywhere(bytes, wrong, i, k, 64);
    var d, e := Diff(bytes, wrong, i), Diff(bytes, wrong, k);
    Pow2Values();
    if d != 0 && e != 0 {
      var l, m := LowestBit(d), LowestBit(e);
      LowestBitOfWord(d, 64);
      LowestBitOfWord(e, 64);
      DividesEverywhere(bytes, wrong, i, k, l);
      LowestBitDivides(d, l); LowestBitDivides(e, l);
      DividesEverywhere(bytes, wrong, i, k, m);
      LowestBitDivides(d, m); LowestBitDivides(e, m);
    }
  }

  lemma DividesEverywhere(bytes: seq<Byte>, wrong: Word, i: nat, k: nat, j: nat)
    requires i <= k <= |bytes| && j <= 64
    ensures Diff(bytes, wrong, i) % Pow2(j) == 0 <==> Diff(bytes, wrong, k) % Pow2(j) == 0
  {
    AgreementEverywhere(bytes, wrong, i, k, j);
    XorAgreement(Forward(bytes, i), Backward(bytes, wrong, i), j);
    XorAgreement(Forward(bytes, k), Backward(bytes, wrong, k), j);
  }

  // The differences vanish exactly when the hashes are equal, so a stream read
  // correctly is never reported and a stream read wrongly never looks untouched.
  lemma DifferencesVanishTogether(bytes: seq<Byte>, wrong: Word, k: nat)
    requires k <= |bytes|
    ensures Diff(bytes, wrong, k) == 0 <==> wrong == Hash(bytes)
  {
    LowestBitEverywhere(bytes, wrong, k, |bytes|);
    XorIsZero(Hash(bytes), wrong);
  }

  // A wrong hash whose low byte is right is never the work of a single misread.
  lemma LowByteRightMeansNoCandidate(bytes: seq<Byte>, wrong: Word, k: nat)
    requires k <= |bytes| && wrong % 0x100 == Hash(bytes) % 0x100
    ensures !Candidate(bytes, wrong, k)
  {
    Pow2Values();
    assert Backward(bytes, wrong, |bytes|) == wrong;
    hide Pow2, Xor, Backward, Forward;
    AgreementEverywhere(bytes, wrong, k, |bytes|, 8);
    XorBelowByte(Forward(bytes, k), Backward(bytes, wrong, k));
    XorIsZero(Forward(bytes, k), Backward(bytes, wrong, k));
  }

  // A single wrong byte always changes the hash.
  lemma MisreadChangesHash(bytes: seq<Byte>, m: nat, r: Byte)
    requires m < |bytes| && r != bytes[m]
    ensures Hash(bytes[m := r]) != Hash(bytes)
  {
    ExplainsIff(bytes, Hash(bytes[m := r]), m, r);
    DifferencesVanishTogether(bytes, Hash(bytes[m := r]), m);
  }

  /* ---------------- one flipped accumulator bit ---------------- */

  // One bit of the accumulator before byte k, turned over, ends in the wrong hash.
  ghost predicate BitFlipExplains(bytes: seq<Byte>, wrong: Word, k: nat, i: nat)
    requires k <= |bytes|
  {
    i < 64 && Xor(Forward(bytes, k), Pow2(i)) < W &&
    Resume(bytes, k, Xor(Forward(bytes, k), Pow2(i))) == wrong
  }

  lemma PopCountOneIffBitFlip(bytes: seq<Byte>, wrong: Word, k: nat)
    requires k <= |bytes|
    ensures PopCount(Diff(bytes, wrong, k)) == 1 <==> exists i :: BitFlipExplains(bytes, wrong, k, i)
  {
    var d := Diff(bytes, wrong, k);
    PopCountOne(d);
    if PopCount(d) == 1 {
      var i: nat :| d == Pow2(i);
      Pow2Values();
      if i >= 64 { Pow2Monotone(64, i); }
      FlipIff(bytes, wrong, k, i);
    }
    if i :| BitFlipExplains(bytes, wrong, k, i) {
      FlipIff(bytes, wrong, k, i);
    }
  }

  lemma FlipIff(bytes: seq<Byte>, wrong: Word, k: nat, i: nat)
    requires k <= |bytes| && i < 64
    ensures BitFlipExplains(bytes, wrong, k, i) <==> Diff(bytes, wrong, k) == Pow2(i)
  {
    var f, b, p := Forward(bytes, k), Backward(bytes, wrong, k), Pow2(i);
    XorAssoc(f, f, p); XorSelf(f); XorComm(0, p); XorZero(p);
    XorAssoc(f, f, b); XorComm(0, b); XorZero(b);
    if Xor(f, p) < W { ResumeBackward(bytes, wrong, k, Xor(f, p)); }
  }
}
