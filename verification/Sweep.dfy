/**
 The run of the CH probe on one core (src/sdcprobe.cpp:535-649): rounds of the measured
 loop, each checked against memory, counted by what the analysis says.

 A round is given by the values the load computes and by what the lane reads deliver;
 both are arbitrary. The clock and the interrupt flag are the number of rounds given
 and a predicate on the round number.
 */
module Sweep {
  import opened Counting
  import opened Words
  import opened Fnv
  import opened Samples
  import opened Inversion
  import opened Separation
  import opened Detector
  import opened RegisterPath

  const ROWS: nat := 250
  const SAMPLE_COUNT: nat := 100_000

  datatype Round = Round(load: (nat, nat) -> Word32, plan: FaultPlan)
  {
    function Values(): (values: seq<Word32>)
      ensures |values| == SAMPLE_COUNT
    {
      GridValues(load, SAMPLE_COUNT)
    }

    function Stored(): (bytes: seq<Byte>)
      ensures |bytes| == 4 * SAMPLE_COUNT
    {
      BytesOf(Values())
    }

    function Observed(): (bytes: seq<Byte>)
      ensures |bytes| == 4 * SAMPLE_COUNT
    {
      ObservedBytes(Values(), plan)
    }
  }

  datatype Counts = Counts(detections: nat, lanes: seq<nat>, unexplained: nat, drift: nat)
  {
    ghost predicate Valid() { |lanes| == 4 }

    function LaneTotal(): nat
      requires |lanes| == 4
    {
      lanes[0] + lanes[1] + lanes[2] + lanes[3]
    }
  }

  datatype RunResult = RunResult(rounds: nat, checks: nat, counts: Counts, interrupted: bool)

  /* ---------------- what a run should count ---------------- */

  // The first position the scan takes for the misread byte, or one past the last.
  function FirstFrom(bytes: seq<Byte>, wrong: Word, k: nat): (first: nat)
    requires k <= |bytes| + 1
    ensures k <= first <= |bytes| + 1
    ensures forall i: nat :: k <= i < first ==> !Candidate(bytes, wrong, i)
    ensures first <= |bytes| ==> Candidate(bytes, wrong, first)
    decreases |bytes| + 1 - k
  {
    if k == |bytes| + 1 || Candidate(bytes, wrong, k) then k else FirstFrom(bytes, wrong, k + 1)
  }

  function Reported(bytes: seq<Byte>, wrong: Word): (first: nat)
    ensures first <= |bytes| ==> Candidate(bytes, wrong, first)
  {
    FirstFrom(bytes, wrong, 0)
  }

  // One round added to the counts.
  function CountRound(c: Counts, round: Round, baseline: seq<Word32>): (d: Counts)
    requires c.Valid() && |baseline| == SAMPLE_COUNT
    ensures d.Valid()
  {
    var drift := c.drift + Differences(baseline, round.Values());
    var wrong := Hash(round.Observed());
    if wrong == Hash(round.Stored()) then c.(drift := drift)
    else
      var k := Reported(round.Stored(), wrong);
      if k <= |round.Stored()| then
        c.(drift := drift, detections := c.detections + 1, lanes := c.lanes[k % 4 := c.lanes[k % 4] + 1])
      else
        c.(drift := drift, detections := c.detections + 1, unexplained := c.unexplained + 1)
  }

  function Tally(rounds: seq<Round>): (c: Counts)
    ensures c.Valid()
  {
    if rounds == [] then Counts(0, [0, 0, 0, 0], 0, 0)
    else
      var last := |rounds| - 1;
      CountRound(Tally(rounds[..last]), rounds[last], rounds[0].Values())
  }

  // The number of samples that differ from the first round's.
  function Differences(a: seq<Word32>, b: seq<Word32>): nat
    requires |a| == |b|
  {
    if a == [] then 0
    else
      var last := |a| - 1;
      Differences(a[..last], b[..last]) + (if a[last] != b[last] then 1 else 0)
  }

  /* ---------------- the run ---------------- */

  class Workspace {
    const samples: array<Word32>
    const baseline: array<Word32>
    const forward: array<Word>
    const backward: array<Word>

    ghost predicate Valid()
      reads this
    {
      && samples.Length == baseline.Length == SAMPLE_COUNT
      && forward.Length == backward.Length == 4 * SAMPLE_COUNT + 1
      && samples != baseline && forward != backward
    }

    constructor ()
      ensures Valid() && fresh(samples) && fresh(baseline) && fresh(forward) && fresh(backward)
    {
      samples := new Word32[SAMPLE_COUNT](_ => 0);
      baseline := new Word32[SAMPLE_COUNT](_ => 0);
      forward := new Word[4 * SAMPLE_COUNT + 1](_ => 0);
      backward := new Word[4 * SAMPLE_COUNT + 1](_ => 0);
    }
  }

  method CountDrift(baseline: array<Word32>, samples: array<Word32>) returns (drift: nat)
    requires baseline.Length == samples.Length
    ensures drift == Differences(baseline[..], samples[..])
  {
    drift := 0;
    for k := 0 to samples.Length
      invariant drift == Differences(baseline[..k], samples[..k])
    {
      assert baseline[..k + 1][..k] == baseline[..k] && samples[..k + 1][..k] == samples[..k];
      if baseline[k] != samples[k] {
        drift := drift + 1;
      }
    }
    assert baseline[..samples.Length] == baseline[..] && samples[..samples.Length] == samples[..];
  }

  lemma NoDifferences(a: seq<Word32>)
    ensures Differences(a, a) == 0
  {
  }

  // The places at which two sequences differ.
  ghost function Changed(a: seq<Word32>, b: seq<Word32>): (places: set<nat>)
    requires |a| == |b|
    ensures forall k: nat :: k in places <==> k < |a| && a[k] != b[k]
  {
    set k: nat | k < |a| && a[k] != b[k]
  }

  lemma {:induction false} DifferencesCount(a: seq<Word32>, b: seq<Word32>)
    requires |a| == |b|
    ensures Differences(a, b) == |Changed(a, b)| == |Changed(b, a)|
  {
    assert Changed(a, b) == Changed(b, a);
    if a != [] {
      var last := |a| - 1;
      DifferencesCount(a[..last], b[..last]);
      OneMore(Changed(a[..last], b[..last]), Changed(a, b), last);
    }
  }

  method CopySamples(from: array<Word32>, to: array<Word32>)
    requires from.Length == to.Length && from != to
    modifies to
    ensures to[..] == from[..]
  {
    for k := 0 to from.Length
      invariant to[..k] == from[..k]
    {
      to[k] := from[k];
    }
  }

  // The scan's answer is the first candidate position.
  lemma ScanReportsFirst(bytes: seq<Byte>, beyond: Byte, wrong: Word, r: ReverseResult)
    requires Describes(bytes, beyond, wrong, r)
    ensures r.singleByte <==> Reported(bytes, wrong) <= |bytes|
    ensures r.singleByte ==> r.lane == Reported(bytes, wrong) % 4
  {
    hide Candidate, LeastPopCount, Diff, Xor;
    var k := Reported(bytes, wrong);
    if r.singleByte {
      assert k == Position(r);
    }
  }

  method RunOnCurrentCpu(work: Workspace, rounds: seq<Round>, interrupt: nat -> bool, beyond: Byte)
    returns (result: RunResult)
    requires work.Valid()
    modifies work.samples, work.baseline, work.forward, work.backward
    ensures result.rounds <= |rounds|
    ensures result.counts == Tally(rounds[..result.rounds])
    ensures AreCounts(rounds[..result.rounds], result.counts)
    ensures result.checks == result.rounds * SAMPLE_COUNT
    ensures forall i: nat :: i < result.rounds ==> !interrupt(i)
    ensures if result.interrupted then result.rounds < |rounds| && interrupt(result.rounds)
            else result.rounds == |rounds|
  {
    hide CountRound, GridValues, AreCounts, Added;
    var counts := Counts(0, [0, 0, 0, 0], 0, 0);
    var done := 0;
    var interrupted := false;
    while done < |rounds|
      invariant done <= |rounds|
      invariant counts == Tally(rounds[..done])
      invariant done > 0 ==> work.baseline[..] == rounds[0].Values()
      invariant forall i: nat :: i < done ==> !interrupt(i)
    {
      if interrupt(done) {
        interrupted := true;
        break;
      }
      assert rounds[..done + 1][..done] == rounds[..done];
      assert rounds[..done + 1][0] == rounds[0];
      counts := CheckRound(work, rounds[done], done == 0, counts, beyond, rounds[0].Values());
      done := done + 1;
    }
    TallyCounts(rounds[..done]);
    result := RunResult(done, done * SAMPLE_COUNT, counts, interrupted);
  }

  method CheckRound(work: Workspace, round: Round, first: bool, counts: Counts, beyond: Byte,
                    ghost baseline: seq<Word32>)
    returns (result: Counts)
    requires work.Valid() && counts.Valid() && |baseline| == SAMPLE_COUNT
    requires if first then baseline == round.Values() else work.baseline[..] == baseline
    modifies work.samples, work.baseline, work.forward, work.backward
    ensures work.baseline[..] == baseline
    ensures result == CountRound(counts, round, baseline)
    ensures Added(counts, result, round, baseline)
  {
    hide Hash, GridValues, ObservedBytes, BytesOf, Reported, Describes, Differences, Added;
    RoundAdds(counts, round, baseline);
    result := counts;
    var registerHash := ComputeRows(work.samples, round.load, ROWS, round.plan);
    assert work.samples[SAMPLE_COUNT..] == [];
    assert work.samples[..] == round.Values();
    var memoryHash := ReplayHash(work.samples);
    if first {
      CopySamples(work.samples, work.baseline);
      NoDifferences(baseline);
    } else {
      var drift := CountDrift(work.baseline, work.samples);
      result := result.(drift := result.drift + drift);
    }
    if registerHash != memoryHash {
      result := result.(detections := result.detections + 1);
      var r := ReverseFnv(work.samples, registerHash, work.forward, work.backward, beyond);
      ScanReportsFirst(round.Stored(), beyond, registerHash, r);
      if r.singleByte {
        result := result.(lanes := result.lanes[r.lane := result.lanes[r.lane] + 1]);
      } else {
        result := result.(unexplained := result.unexplained + 1);
      }
    }
  }

  /* ---------------- what the counts mean ---------------- */

  ghost predicate WrongHash(round: Round) {
    Hash(round.Observed()) != Hash(round.Stored())
  }

  // The hash is wrong, and the first position that can explain it is a byte of this lane.
  ghost predicate FiledUnder(round: Round, lane: nat) {
    WrongHash(round) &&
    exists k: nat :: k % 4 == lane && k <= |round.Stored()|
                     && IsFirstCandidate(round.Stored(), Hash(round.Observed()), k)
  }

  // The hash is wrong, and no position can explain it.
  ghost predicate LeftOver(round: Round) {
    WrongHash(round) &&
    forall k: nat :: k <= |round.Stored()| ==> !Candidate(round.Stored(), Hash(round.Observed()), k)
  }

  lemma ReportedIsFirst(bytes: seq<Byte>, wrong: Word)
    ensures forall k: nat :: k <= |bytes| && IsFirstCandidate(bytes, wrong, k) <==>
              k == Reported(bytes, wrong) && k <= |bytes|
  {
    hide Candidate;
    var first := Reported(bytes, wrong);
    if first <= |bytes| { assert Candidate(bytes, wrong, first) && IsFirstCandidate(bytes, wrong, first); }
  }

  lemma FiledIff(round: Round)
    ensures forall l: nat :: FiledUnder(round, l) <==>
              var k := Reported(round.Stored(), Hash(round.Observed()));
              WrongHash(round) && k <= |round.Stored()| && k % 4 == l
    ensures LeftOver(round) <==>
              WrongHash(round) && Reported(round.Stored(), Hash(round.Observed())) > |round.Stored()|
  {
    hide Candidate, Hash, Reported, IsFirstCandidate;
    var bytes, wrong := round.Stored(), Hash(round.Observed());
    var first := Reported(bytes, wrong);
    ReportedIsFirst(bytes, wrong);
    NothingReported(bytes, wrong);
    if first <= |bytes| { assert IsFirstCandidate(bytes, wrong, first); }
  }

  lemma NothingReported(bytes: seq<Byte>, wrong: Word)
    ensures Reported(bytes, wrong) > |bytes| <==> forall k: nat :: k <= |bytes| ==> !Candidate(bytes, wrong, k)
  {
    hide Candidate;
    var first := Reported(bytes, wrong);
    if first <= |bytes| { assert Candidate(bytes, wrong, first); }
  }

  // What one round adds to the counters.
  lemma RoundAdds(c: Counts, round: Round, baseline: seq<Word32>)
    requires c.Valid() && |baseline| == SAMPLE_COUNT
    ensures Added(c, CountRound(c, round, baseline), round, baseline)
  {
    FiledIff(round);
    hide Hash, GridValues, ObservedBytes, BytesOf, Reported, Differences, FiledUnder, LeftOver;
    DifferencesCount(baseline, round.Values());
  }

  ghost predicate Added(c: Counts, d: Counts, round: Round, baseline: seq<Word32>)
    requires c.Valid() && d.Valid() && |baseline| == SAMPLE_COUNT
  {
    && (forall l :: 0 <= l < 4 ==> d.lanes[l] == c.lanes[l] + if FiledUnder(round, l) then 1 else 0)
    && d.unexplained == c.unexplained + (if LeftOver(round) then 1 else 0)
    && d.detections == c.detections + (if WrongHash(round) then 1 else 0)
    && d.drift == c.drift + |Changed(round.Values(), baseline)|
  }

  // The bytes the register path observed in a round differ from the stored ones within
  // six consecutive bytes, as within one sample.
  ghost predicate MisreadsTogether(round: Round) {
    exists m: nat :: SameOutside(round.Stored(), round.Observed(), m)
  }

  // They differ in at most one place.
  ghost predicate AtMostOneMisread(round: Round) {
    exists m: nat :: m < |round.Stored()| && OnlyAt(round, m)
  }

  ghost predicate OnlyAt(round: Round, m: nat)
    requires m < |round.Stored()|
  {
    round.Observed() == round.Stored()[m := round.Observed()[m]]
  }

  ghost predicate Misread(round: Round) {
    round.Observed() != round.Stored()
  }

  ghost function MisreadRounds(rounds: seq<Round>): nat {
    if rounds == [] then 0
    else MisreadRounds(rounds[..|rounds| - 1]) + (if Misread(rounds[|rounds| - 1]) then 1 else 0)
  }

  // The rounds filed under a lane, those left over and those with a wrong hash, and the
  // samples, by round and place, that differ from the first round's.
  ghost function FiledRounds(rounds: seq<Round>, lane: nat): (s: set<nat>)
    ensures forall i: nat :: i in s <==> i < |rounds| && FiledUnder(rounds[i], lane)
  {
    set i: nat | i < |rounds| && FiledUnder(rounds[i], lane)
  }

  ghost function LeftOverRounds(rounds: seq<Round>): (s: set<nat>)
    ensures forall i: nat :: i in s <==> i < |rounds| && LeftOver(rounds[i])
  {
    set i: nat | i < |rounds| && LeftOver(rounds[i])
  }

  ghost function WrongRounds(rounds: seq<Round>): (s: set<nat>)
    ensures forall i: nat :: i in s <==> i < |rounds| && WrongHash(rounds[i])
  {
    set i: nat | i < |rounds| && WrongHash(rounds[i])
  }

  ghost function Drifts(rounds: seq<Round>): (s: set<(nat, nat)>)
    ensures forall p :: p in s <==>
              p.0 < |rounds| && p.1 in Changed(rounds[p.0].Values(), rounds[0].Values())
  {
    set i: nat, k: nat | i < |rounds| && k in Changed(rounds[i].Values(), rounds[0].Values()) :: (i, k)
  }

  // The counters of a run count these.
  ghost predicate AreCounts(rounds: seq<Round>, c: Counts) {
    && |c.lanes| == 4 && (forall l: nat :: l < 4 ==> c.lanes[l] == |FiledRounds(rounds, l)|)
    && c.unexplained == |LeftOverRounds(rounds)|
    && c.detections == |WrongRounds(rounds)|
    && c.drift == |Drifts(rounds)|
  }

  lemma {:induction false} TallyCounts(rounds: seq<Round>)
    ensures AreCounts(rounds, Tally(rounds))
  {
    hide CountRound, AreCounts, Added, Round.Values;
    if rounds == [] {
      NothingCounted(rounds);
    } else {
      var before := rounds[..|rounds| - 1];
      TallyCounts(before);
      RoundAdds(Tally(before), rounds[|rounds| - 1], rounds[0].Values());
      AddedIsCounted(rounds, Tally(before), Tally(rounds));
    }
  }

  lemma NothingCounted(rounds: seq<Round>)
    requires rounds == []
    ensures AreCounts(rounds, Counts(0, [0, 0, 0, 0], 0, 0))
  {
    hide FiledRounds, LeftOverRounds, WrongRounds, Drifts, Changed;
    assert LeftOverRounds(rounds) == {} && WrongRounds(rounds) == {} && Drifts(rounds) == {};
    assert forall l: nat :: FiledRounds(rounds, l) == {};
  }

  lemma AddedIsCounted(rounds: seq<Round>, c: Counts, d: Counts)
    requires rounds != [] && c.Valid() && d.Valid() && AreCounts(rounds[..|rounds| - 1], c)
    requires Added(c, d, rounds[|rounds| - 1], rounds[0].Values())
    ensures AreCounts(rounds, d)
  {
    hide GridValues, WrongHash, FiledUnder, LeftOver, Round.Values, FiledRounds, LeftOverRounds, WrongRounds, Drifts,
         Changed;
    var last := |rounds| - 1;
    var before := rounds[..last];
    forall l: nat | l < 4
      ensures |FiledRounds(rounds, l)| == |FiledRounds(before, l)| + if FiledUnder(rounds[last], l) then 1 else 0
    {
      OneMore(FiledRounds(before, l), FiledRounds(rounds, l), last);
    }
    OneMore(LeftOverRounds(before), LeftOverRounds(rounds), last);
    OneMore(WrongRounds(before), WrongRounds(rounds), last);
    DriftGrows(rounds);
  }

  lemma DriftGrows(rounds: seq<Round>)
    requires rounds != []
    ensures var last := |rounds| - 1;
            |Drifts(rounds)| == |Drifts(rounds[..last])| + |Changed(rounds[last].Values(), rounds[0].Values())|
  {
    hide GridValues, Round.Values, Changed, Drifts;
    var last := |rounds| - 1;
    var before := rounds[..last];
    var changed := Changed(rounds[last].Values(), rounds[0].Values());
    if last > 0 { assert before[0] == rounds[0]; }
    PairsCount(last, changed);
    assert Drifts(rounds) == Drifts(before) + Pairs(last, changed);
    assert Drifts(before) !! Pairs(last, changed);
  }

  ghost function Pairs(i: nat, ks: set<nat>): (s: set<(nat, nat)>)
    ensures forall p :: p in s <==> p.0 == i && p.1 in ks
  {
    set k | k in ks :: (i, k)
  }

  lemma {:induction false} PairsCount(i: nat, ks: set<nat>)
    ensures |Pairs(i, ks)| == |ks|
  {
    hide Pairs;
    if ks == {} {
      assert Pairs(i, ks) == {};
    } else {
      var k :| k in ks;
      PairsCount(i, ks - {k});
      assert Pairs(i, ks) == Pairs(i, ks - {k}) + {(i, k)};
    }
  }

  // Every detection is filed under exactly one lane or under unexplained.
  lemma {:induction false} CountsBalance(rounds: seq<Round>)
    ensures var c := Tally(rounds);
            c.detections == c.LaneTotal() + c.unexplained && c.detections <= |rounds|
  {
    hide Hash, GridValues, ObservedBytes, BytesOf, Reported, Differences;
    if rounds != [] {
      CountsBalance(rounds[..|rounds| - 1]);
    }
  }

  // A round whose one misread is among its first six bytes is filed under that byte's
  // lane, and so is one whose misread no byte at least six places earlier explains.
  lemma MisreadIsFiled(round: Round, m: nat)
    requires m < |round.Stored()| && OnlyAt(round, m) && Misread(round)
    requires m < 6 || !exists i: nat, b: Byte :: i + 6 <= m && Explains(round.Stored(), Hash(round.Observed()), i, b)
    ensures forall l: nat :: FiledUnder(round, l) <==> l == m % 4
    ensures !LeftOver(round)
  {
    hide Candidate, Hash, Reported, Explains;
    var bytes, wrong := round.Stored(), Hash(round.Observed());
    var v: Byte := round.Observed()[m];
    assert v != bytes[m];
    MisreadChangesHash(bytes, m, v);
    OneMisreadIsReported(bytes, m, v);
    FiledIff(round);
    FirstIsMisread(bytes, m, v, wrong);
  }

  lemma FirstIsMisread(bytes: seq<Byte>, m: nat, v: Byte, wrong: Word)
    requires m < |bytes| && v != bytes[m] && wrong == Hash(bytes[m := v])
    requires m < 6 || !exists i: nat, b: Byte :: i + 6 <= m && Explains(bytes, wrong, i, b)
    ensures Reported(bytes, wrong) == m
  {
    hide Candidate, Hash, Reported, Explains;
    var first := Reported(bytes, wrong);
    OneMisreadIsReported(bytes, m, v);
    CandidateIffExplained(bytes, wrong, first);
    if first + 5 >= m && first < m {
      CandidatesAreFarApart(bytes, wrong, first, m);
      MisreadIsCandidate(bytes, m, v);
    }
  }

  lemma MisreadIsCandidate(bytes: seq<Byte>, m: nat, v: Byte)
    requires m < |bytes| && v != bytes[m]
    ensures Candidate(bytes, Hash(bytes[m := v]), m)
  {
    hide Candidate, Hash;
    ExplainsIff(bytes, Hash(bytes[m := v]), m, v);
  }

  // So the counters of a run of one such round are those of that lane.
  lemma EarlyMisreadCounted(round: Round, m: nat)
    requires m < 6 && OnlyAt(round, m) && Misread(round)
    ensures Tally([round]) == Counts(1, [0, 0, 0, 0][m % 4 := 1], 0, 0)
  {
    var none: seq<Round> := [];
    assert [round][..0] == none && Tally(none) == Counts(0, [0, 0, 0, 0], 0, 0);
    assert Tally([round]) == CountRound(Tally(none), round, round.Values());
    MisreadsTogetherAreDetected(round) by { OneMisreadIsTogether(round); }
    hide Candidate, Hash, Reported, FiledUnder, LeftOver, Round.Values, Round.Stored, Round.Observed, CountRound, Tally;
    MisreadIsFiled(round, m);
    RoundAdds(Tally(none), round, round.Values());
    assert Changed(round.Values(), round.Values()) == {};
  }

  // A round with at most one misread is detected exactly when there is one, and then
  // the analysis finds a byte.
  lemma OneMisreadIsExplained(round: Round)
    requires AtMostOneMisread(round)
    ensures Misread(round) <==> Hash(round.Observed()) != Hash(round.Stored())
    ensures Misread(round) ==> Reported(round.Stored(), Hash(round.Observed())) < |round.Stored()|
  {
    hide Candidate, Reported, Hash;
    var bytes, seen := round.Stored(), round.Observed();
    var m: nat :| m < |bytes| && OnlyAt(round, m);
    if seen[m] == bytes[m] {
      assert seen == bytes;
    } else {
      var v: Byte := seen[m];
      MisreadChangesHash(bytes, m, v);
      OneMisreadIsReported(bytes, m, v);
    }
  }

  lemma OneMisreadIsReported(bytes: seq<Byte>, m: nat, v: Byte)
    requires m < |bytes| && v != bytes[m]
    ensures Reported(bytes, Hash(bytes[m := v])) <= m
  {
    hide Hash, Candidate;
    ExplainsIff(bytes, Hash(bytes[m := v]), m, v);
  }

  lemma OneMisreadIsTogether(round: Round)
    requires AtMostOneMisread(round)
    ensures MisreadsTogether(round)
  {
    var m: nat :| m < |round.Stored()| && OnlyAt(round, m);
    assert SameOutside(round.Stored(), round.Observed(), m);
  }

  // A round whose misreads lie within six consecutive bytes is detected exactly when there
  // is one.
  lemma MisreadsTogetherAreDetected(round: Round)
    requires MisreadsTogether(round)
    ensures Misread(round) <==> Hash(round.Observed()) != Hash(round.Stored())
  {
    hide Hash;
    var m: nat :| SameOutside(round.Stored(), round.Observed(), m);
    if Hash(round.Observed()) == Hash(round.Stored()) {
      SameHashSameBytes(round.Stored(), round.Observed(), m);
    }
  }

  // If the misreads of every round lie within six consecutive bytes, the detections are
  // exactly the rounds with a misread. If no round has more than one, none is unexplained,
  // and the lane counters add up to them.
  lemma {:induction false} DetectionsAreMisreads(rounds: seq<Round>)
    requires forall round :: round in rounds ==> MisreadsTogether(round)
    ensures Tally(rounds).detections == MisreadRounds(rounds)
    ensures (forall round :: round in rounds ==> AtMostOneMisread(round)) ==>
              var c := Tally(rounds); c.unexplained == 0 && c.LaneTotal() == c.detections
  {
    hide AtMostOneMisread, MisreadsTogether, Misread, Hash, GridValues, ObservedBytes, BytesOf, Reported, Differences;
    if rounds != [] {
      var last := |rounds| - 1;
      DetectionsAreMisreads(rounds[..last]);
      MisreadsTogetherAreDetected(rounds[last]);
      if AtMostOneMisread(rounds[last]) { OneMisreadIsExplained(rounds[last]); }
    }
  }

  // A run in which every read was right detects nothing.
  lemma {:induction false} NoMisreadNoDetection(rounds: seq<Round>)
    requires forall round :: round in rounds ==> !Misread(round)
    ensures Tally(rounds).detections == 0
  {
    hide Hash, GridValues, ObservedBytes, BytesOf, Reported, Differences;
    if rounds != [] {
      var last := |rounds| - 1;
      NoMisreadNoDetection(rounds[..last]);
      assert !Misread(rounds[last]);
    }
  }
}
