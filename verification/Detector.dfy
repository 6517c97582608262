/**
 The memory path of the CH probe and the analysis of a wrong hash
 (src/sdcprobe.cpp): one pass over the stored bytes, the same with one byte replaced,
 and the scan that inverts the hash to name the misread byte.
 */
module Detector {
  import opened Words
  import opened Fnv
  import opened Samples
  import opened Inversion
  import opened Separation

  datatype ReverseResult = ReverseResult(
    singleByte: bool,
    lane: Lane,
    sampleIndex: nat,
    stored: Byte,
    observed: Byte,
    minPopcount: nat)

  method PopCount64(value: Word) returns (count: nat)
    ensures count == PopCount(value)
  {
    var v: nat := value;
    count := 0;
    while v != 0
      invariant count + PopCount(v) == PopCount(value)
      decreases v
    {
      ClearLowestBit(v);
      v := And(v, v - 1);
      count := count + 1;
    }
  }

  method ReplayHash(data: array<Word32>) returns (hash: Word)
    ensures hash == Hash(BytesOf(data[..]))
  {
    hash := BASIS;
    ghost var bytes := BytesOf(data[..]);
    for k := 0 to 4 * data.Length
      invariant hash == Forward(bytes, k)
    {
      hash := Step(hash, LaneOf(data[k / 4], k % 4));
    }
  }

  method ReplayHashWithSubstitution(data: array<Word32>, byteIndex: nat, replacement: Byte)
    returns (hash: Word)
    ensures byteIndex < 4 * data.Length ==> hash == Hash(BytesOf(data[..])[byteIndex := replacement])
    ensures byteIndex >= 4 * data.Length ==> hash == Hash(BytesOf(data[..]))
  {
    hash := BASIS;
    ghost var stored := BytesOf(data[..]);
    ghost var bytes := if byteIndex < |stored| then stored[byteIndex := replacement] else stored;
    for k := 0 to 4 * data.Length
      invariant hash == Forward(bytes, k)
    {
      var byte := if k == byteIndex then replacement else LaneOf(data[k / 4], k % 4);
      hash := Step(hash, byte);
    }
  }

  /* ---------------- what the scan reports ---------------- */

  // The byte the scan reads at position k. At the end of the stream it reads one byte
  // past the array; beyond stands for whatever lies there.
  function ScannedByte(bytes: seq<Byte>, beyond: Byte, k: nat): Byte
    requires k <= |bytes|
  {
    if k < |bytes| then bytes[k] else beyond
  }

  ghost predicate IsFirstCandidate(bytes: seq<Byte>, wrong: Word, k: nat)
    requires k <= |bytes|
  {
    Candidate(bytes, wrong, k) && forall i: nat :: i < k ==> !Candidate(bytes, wrong, i)
  }

  function Position(r: ReverseResult): nat {
    4 * r.sampleIndex + r.lane
  }

  // The byte fields describe the first candidate among the positions before limit.
  ghost predicate NamesFirst(bytes: seq<Byte>, beyond: Byte, wrong: Word, limit: nat, r: ReverseResult)
    requires limit <= |bytes| + 1
  {
    if r.singleByte then
      && Position(r) < limit
      && IsFirstCandidate(bytes, wrong, Position(r))
      && r.stored == ScannedByte(bytes, beyond, Position(r))
      && r.observed == Xor(r.stored, Diff(bytes, wrong, Position(r)))
    else
      forall k: nat :: k < limit ==> !Candidate(bytes, wrong, k)
  }

  // minPopcount is the least number of bits set in a difference before limit.
  ghost predicate LeastPopCount(bytes: seq<Byte>, wrong: Word, limit: nat, least: nat)
    requires limit <= |bytes| + 1
  {
    && (forall k: nat :: k < limit ==> least <= PopCount(Diff(bytes, wrong, k)))
    && (exists k: nat :: k < limit && least == PopCount(Diff(bytes, wrong, k)))
  }

  ghost predicate LeastSoFar(bytes: seq<Byte>, wrong: Word, limit: nat, least: nat)
    requires limit <= |bytes| + 1
  {
    if limit == 0 then least == 65 else LeastPopCount(bytes, wrong, limit, least)
  }

  ghost predicate Describes(bytes: seq<Byte>, beyond: Byte, wrong: Word, r: ReverseResult) {
    && NamesFirst(bytes, beyond, wrong, |bytes| + 1, r)
    && LeastPopCount(bytes, wrong, |bytes| + 1, r.minPopcount)
  }

  // The scan looked at the byte past the end of the array.
  predicate ReadsBeyond(bytes: seq<Byte>, r: ReverseResult) {
    r.singleByte && Position(r) == |bytes|
  }

  method FillForward(samples: array<Word32>, forward: array<Word>)
    requires forward.Length == 4 * samples.Length + 1
    modifies forward
    ensures forall k: nat :: k < forward.Length ==> forward[k] == Forward(BytesOf(samples[..]), k)
  {
    hide Step, LaneOf, Forward;
    ghost var bytes := BytesOf(samples[..]);
    ForwardEquations(bytes, 0);
    forward[0] := BASIS;
    for k := 0 to 4 * samples.Length
      invariant forall i: nat :: i <= k ==> forward[i] == Forward(bytes, i)
    {
      var byte := LaneOf(samples[k / 4], k % 4);
      assert byte == bytes[k];
      ForwardEquations(bytes, k + 1);
      forward[k + 1] := Step(forward[k], byte);
    }
  }

  lemma ForwardEquations(bytes: seq<Byte>, k: nat)
    requires k <= |bytes|
    ensures Forward(bytes, k) == if k == 0 then BASIS else Step(Forward(bytes, k - 1), bytes[k - 1])
  {
  }

  lemma BackwardEquations(bytes: seq<Byte>, last: Word, k: nat)
    requires k <= |bytes|
    ensures Backward(bytes, last, k) == if k == |bytes| then last else Unstep(Backward(bytes, last, k + 1), bytes[k])
  {
  }

  method FillBackward(samples: array<Word32>, wrongHash: Word, backward: array<Word>)
    requires backward.Length == 4 * samples.Length + 1
    modifies backward
    ensures forall k: nat :: k < backward.Length ==>
              backward[k] == Backward(BytesOf(samples[..]), wrongHash, k)
  {
    ghost var bytes := BytesOf(samples[..]);
    hide Unstep, LaneOf, Backward;
    var n := 4 * samples.Length;
    BackwardEquations(bytes, wrongHash, n);
    backward[n] := wrongHash;
    hide FilledDown, BytesOf;
    FilledAtEnd(backward[..], bytes, wrongHash);
    for k := n downto 0
      invariant FilledDown(backward[..], bytes, wrongHash, k)
    {
      ghost var before := backward[..];
      var byte := LaneOf(samples[k / 4], k % 4);
      FilledOneMore(before, bytes, wrongHash, k);
      backward[k] := Unstep(backward[k + 1], byte);
      assert backward[..] == before[k := Unstep(before[k + 1], bytes[k])];
    }
    FilledAll(backward[..], bytes, wrongHash);
    assert forall k: nat :: k < backward.Length ==> backward[k] == backward[..][k];
  }

  // From position k to the end the buffer holds the backward accumulators.
  ghost predicate FilledDown(backward: seq<Word>, bytes: seq<Byte>, last: Word, k: nat) {
    |backward| == |bytes| + 1
    && forall i: nat :: k <= i <= |bytes| ==> backward[i] == Backward(bytes, last, i)
  }

  lemma FilledAtEnd(backward: seq<Word>, bytes: seq<Byte>, last: Word)
    requires |backward| == |bytes| + 1 && backward[|bytes|] == last
    ensures FilledDown(backward, bytes, last, |bytes|)
  {
    BackwardEquations(bytes, last, |bytes|);
    hide Backward;
  }

  lemma FilledOneMore(backward: seq<Word>, bytes: seq<Byte>, last: Word, k: nat)
    requires k < |bytes| && FilledDown(backward, bytes, last, k + 1)
    ensures |backward| == |bytes| + 1
    ensures FilledDown(backward[k := Unstep(backward[k + 1], bytes[k])], bytes, last, k)
  {
    BackwardEquations(bytes, last, k);
    hide Backward, Unstep;
  }

  lemma FilledAll(backward: seq<Word>, bytes: seq<Byte>, last: Word)
    requires FilledDown(backward, bytes, last, 0)
    ensures |backward| == |bytes| + 1
    ensures forall k: nat :: k < |backward| ==> backward[k] == Backward(bytes, last, k)
  {
    hide Backward;
  }

  method ReverseFnv(samples: array<Word32>, wrongHash: Word, forward: array<Word>, backward: array<Word>,
                    beyond: Byte)
    returns (result: ReverseResult)
    requires forward.Length == backward.Length == 4 * samples.Length + 1
    requires forward != backward
    modifies forward, backward
    ensures Describes(BytesOf(samples[..]), beyond, wrongHash, result)
    ensures forall k: nat :: k < forward.Length ==>
              forward[k] == Forward(BytesOf(samples[..]), k) &&
              backward[k] == Backward(BytesOf(samples[..]), wrongHash, k)
  {
    FillForward(samples, forward);
    FillBackward(samples, wrongHash, backward);
    result := ScanDifferences(samples, wrongHash, forward, backward, beyond);
  }

  // bytes[k], where the scan reads it.
  function StoredAt(samples: seq<Word32>, beyond: Byte, k: nat): (b: Byte)
    requires k <= 4 * |samples|
    ensures b == ScannedByte(BytesOf(samples), beyond, k)
  {
    if k < 4 * |samples| then LaneOf(samples[k / 4], k % 4) else beyond
  }

  function Found(k: nat, stored: Byte, observed: Byte, least: nat): ReverseResult {
    ReverseResult(true, k % 4, k / 4, stored, observed, least)
  }

  method ScanDifferences(samples: array<Word32>, ghost wrongHash: Word, forward: array<Word>, backward: array<Word>,
                         beyond: Byte)
    returns (result: ReverseResult)
    requires forward.Length == backward.Length == 4 * samples.Length + 1
    requires forall k: nat :: k < forward.Length ==>
               forward[k] == Forward(BytesOf(samples[..]), k) &&
               backward[k] == Backward(BytesOf(samples[..]), wrongHash, k)
    ensures Describes(BytesOf(samples[..]), beyond, wrongHash, result)
  {
    var n := 4 * samples.Length;
    ghost var bytes := BytesOf(samples[..]);
    hide Scanned, Forward, Backward, Xor, PopCount, Describes, StoredAt, ScannedByte, Found, BytesOf, LaneOf, Diff;
    result := ReverseResult(false, 0, 0, 0, 0, 65);
    ScanStart(bytes, beyond, wrongHash, result);
    for k := 0 to n + 1
      invariant Scanned(bytes, beyond, wrongHash, k, result)
    {
      DiffIs(bytes, wrongHash, k);
      XorWord(forward[k], backward[k]);
      result := ScanPosition(samples, wrongHash, beyond, k, Xor(forward[k], backward[k]), result);
    }
    ScanEnd(bytes, beyond, wrongHash, result);
  }

  // One position, given the difference there and what was found before.
  method ScanPosition(samples: array<Word32>, ghost wrongHash: Word, beyond: Byte, k: nat, diff: Word,
                      before: ReverseResult)
    returns (result: ReverseResult)
    requires k <= 4 * samples.Length && diff == Diff(BytesOf(samples[..]), wrongHash, k)
    requires Scanned(BytesOf(samples[..]), beyond, wrongHash, k, before)
    ensures Scanned(BytesOf(samples[..]), beyond, wrongHash, k + 1, result)
  {
    ghost var bytes := BytesOf(samples[..]);
    hide Scanned, Xor, PopCount, ScannedByte, Found, BytesOf, LaneOf, Diff;
    var bits := PopCount64(diff);
    ScanStep(bytes, beyond, wrongHash, k, before);
    result := before;
    if bits < result.minPopcount {
      result := result.(minPopcount := bits);
    }
    if diff != 0 && diff < 0x100 && !result.singleByte {
      var stored := StoredAt(samples[..], beyond, k);
      XorByteRange(stored, diff);
      result := Found(k, stored, Xor(stored, diff), result.minPopcount);
    }
  }

  lemma DiffIs(bytes: seq<Byte>, wrong: Word, k: nat)
    requires k <= |bytes|
    ensures Diff(bytes, wrong, k) == Xor(Forward(bytes, k), Backward(bytes, wrong, k))
  {
  }

  lemma ScanStart(bytes: seq<Byte>, beyond: Byte, wrong: Word, r: ReverseResult)
    requires !r.singleByte && r.minPopcount == 65
    ensures Scanned(bytes, beyond, wrong, 0, r)
  {
  }

  lemma ScanEnd(bytes: seq<Byte>, beyond: Byte, wrong: Word, r: ReverseResult)
    requires Scanned(bytes, beyond, wrong, |bytes| + 1, r)
    ensures Describes(bytes, beyond, wrong, r)
  {
  }

  ghost predicate Scanned(bytes: seq<Byte>, beyond: Byte, wrong: Word, limit: nat, r: ReverseResult)
    requires limit <= |bytes| + 1
  {
    NamesFirst(bytes, beyond, wrong, limit, r) && LeastSoFar(bytes, wrong, limit, r.minPopcount)
  }

  // Position k is taken into account by lowering the least popcount and, if it is the
  // first candidate, by filling in the byte fields.
  lemma ScanStep(bytes: seq<Byte>, beyond: Byte, wrong: Word, k: nat, r: ReverseResult)
    requires k <= |bytes| && Scanned(bytes, beyond, wrong, k, r)
    ensures var stored, diff := ScannedByte(bytes, beyond, k), Diff(bytes, wrong, k);
            var bits := PopCount(diff);
            var least := if bits < r.minPopcount then bits else r.minPopcount;
            if diff != 0 && diff < 0x100 && !r.singleByte
            then Xor(stored, diff) < 0x100
                 && Scanned(bytes, beyond, wrong, k + 1, Found(k, stored, Xor(stored, diff), least))
            else Scanned(bytes, beyond, wrong, k + 1, r.(minPopcount := least))
  {
    hide Forward, Backward, Xor, PopCount;
    LeastExtends(bytes, wrong, k, r.minPopcount);
    if Diff(bytes, wrong, k) < 0x100 {
      XorByteRange(ScannedByte(bytes, beyond, k), Diff(bytes, wrong, k));
    }
    assert Position(ReverseResult(true, k % 4, k / 4, 0, 0, 0)) == k;
  }

  lemma WordPopCount(v: Word)
    ensures PopCount(v) <= 64
  {
    Pow2Values();
    PopCountBound(v, 64);
  }

  lemma LeastExtends(bytes: seq<Byte>, wrong: Word, k: nat, least: nat)
    requires k <= |bytes|
    requires LeastSoFar(bytes, wrong, k, least)
    ensures var bits := PopCount(Diff(bytes, wrong, k));
            LeastSoFar(bytes, wrong, k + 1, if bits < least then bits else least)
  {
    WordPopCount(Diff(bytes, wrong, k));
  }

  /* ---------------- what a report means ---------------- */

  // A hash is called a single misread exactly when the scan found a position, and a
  // reported position inside the stream is a byte that really explains the hash.
  lemma ReportMeansExplanation(bytes: seq<Byte>, beyond: Byte, wrong: Word, r: ReverseResult)
    requires Describes(bytes, beyond, wrong, r)
    ensures r.singleByte && !ReadsBeyond(bytes, r) ==>
              Position(r) < |bytes| && r.stored == bytes[Position(r)]
              && Explains(bytes, wrong, Position(r), r.observed)
    ensures (exists k: nat, b: Byte :: k < |bytes| && Explains(bytes, wrong, k, b)) <==>
            r.singleByte && !ReadsBeyond(bytes, r)
  {
    if r.singleByte && !ReadsBeyond(bytes, r) {
      ExplainsIff(bytes, wrong, Position(r), r.observed);
    }
    if k: nat, b: Byte :| k < |bytes| && Explains(bytes, wrong, k, b) {
      ExplainsIff(bytes, wrong, k, b);
    }
  }

  // The scan reads past the array exactly when the wrong hash differs from the right
  // one in its low byte alone and no single misread explains it.
  lemma ReadsBeyondIff(bytes: seq<Byte>, beyond: Byte, wrong: Word, r: ReverseResult)
    requires Describes(bytes, beyond, wrong, r)
    ensures ReadsBeyond(bytes, r) <==>
            && wrong != Hash(bytes)
            && wrong / 0x100 == Hash(bytes) / 0x100
            && !exists k: nat, b: Byte :: k < |bytes| && Explains(bytes, wrong, k, b)
  {
    CandidateAtEnd(bytes, wrong);
    ReportMeansExplanation(bytes, beyond, wrong, r);
  }

  // After one misread, of byte m as v: the scan stays inside the array and reports one
  // byte, which is m or lies at least six bytes before it; the right sample is never
  // reported with the wrong lane or the wrong bytes.
  lemma AfterOneMisread(bytes: seq<Byte>, beyond: Byte, m: nat, v: Byte, wrong: Word, r: ReverseResult)
    requires m < |bytes| && v != bytes[m] && wrong == Hash(bytes[m := v])
    requires Describes(bytes, beyond, wrong, r)
    ensures r.singleByte && !ReadsBeyond(bytes, r)
    ensures Position(r) == m || Position(r) + 6 <= m
    ensures Explains(bytes, wrong, Position(r), r.observed)
    ensures r.sampleIndex == m / 4 ==> Position(r) == m
    ensures Position(r) == m ==> r.lane == m % 4 && r.sampleIndex == m / 4
                                 && r.stored == bytes[m] && r.observed == v
  {
    hide Xor, Unstep;
    ExplainsIff(bytes, wrong, m, v);
    assert Position(r) <= m;
    if Position(r) < m && m <= Position(r) + 5 {
      CandidatesAreFarApart(bytes, wrong, Position(r), m);
    }
    assert Explains(bytes, wrong, Position(r), r.observed) by {
      ReportMeansExplanation(bytes, beyond, wrong, r);
    }
  }

  // The misread byte itself is named exactly when no single misread of a byte at least
  // six places earlier ends in the same hash. So one of the first six bytes always is.
  lemma NamesTheMisreadIff(bytes: seq<Byte>, beyond: Byte, m: nat, v: Byte, wrong: Word, r: ReverseResult)
    requires m < |bytes| && v != bytes[m] && wrong == Hash(bytes[m := v])
    requires Describes(bytes, beyond, wrong, r)
    ensures (r.lane == m % 4 && r.sampleIndex == m / 4 && r.stored == bytes[m] && r.observed == v) <==>
            !exists i: nat, b: Byte :: i + 6 <= m && Explains(bytes, wrong, i, b)
    ensures m < 6 ==> r.lane == m % 4 && r.sampleIndex == m / 4 && r.stored == bytes[m] && r.observed == v
  {
    AfterOneMisread(bytes, beyond, m, v, wrong, r);
    if i: nat, b: Byte :| i + 6 <= m && Explains(bytes, wrong, i, b) {
      ExplainsIff(bytes, wrong, i, b);
    }
  }

  // After any misreads within six consecutive bytes, as within one sample: the hash is
  // wrong, and a byte among the six is named only if it is the one misread, with what was
  // read. So with two misreads or more none of the six is.
  lemma AfterMisreadsTogether(bytes: seq<Byte>, seen: seq<Byte>, m: nat, beyond: Byte, r: ReverseResult)
    requires SameOutside(bytes, seen, m)
    requires Describes(bytes, beyond, Hash(seen), r)
    ensures Hash(seen) == Hash(bytes) <==> seen == bytes
    ensures r.singleByte && m <= Position(r) < m + 6 && Position(r) < |bytes| ==>
              seen == bytes[Position(r) := r.observed] && seen != bytes
  {
    hide Forward, Backward, Xor, PopCount;
    if Hash(seen) == Hash(bytes) { SameHashSameBytes(bytes, seen, m); }
    var k := Position(r);
    if r.singleByte && m <= k < m + 6 && k < |bytes| {
      ReportMeansExplanation(bytes, beyond, Hash(seen), r);
      SameHashSameBytes(bytes[k := r.observed], seen, m);
    }
  }

  // A reported least popcount of one means a flipped accumulator bit, and conversely.
  lemma LeastPopCountMeaning(bytes: seq<Byte>, beyond: Byte, wrong: Word, r: ReverseResult)
    requires Describes(bytes, beyond, wrong, r)
    ensures r.minPopcount == 0 <==> wrong == Hash(bytes)
    ensures r.minPopcount == 1 <==>
            exists k: nat, i: nat :: k <= |bytes| && BitFlipExplains(bytes, wrong, k, i)
  {
    var k: nat :| k <= |bytes| && r.minPopcount == PopCount(Diff(bytes, wrong, k));
    PopCountOne(Diff(bytes, wrong, k));
    DifferencesVanishTogether(bytes, wrong, k);
    PopCountOneIffBitFlip(bytes, wrong, k);
    if r.minPopcount == 1 {
      var i :| BitFlipExplains(bytes, wrong, k, i);
    }
    if j: nat, i: nat :| j <= |bytes| && BitFlipExplains(bytes, wrong, j, i) {
      PopCountOneIffBitFlip(bytes, wrong, j);
      DifferencesVanishTogether(bytes, wrong, j);
      PopCountOne(Diff(bytes, wrong, j));
    }
  }
}
