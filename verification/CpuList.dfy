/**
 Choosing cores (src/sdcprobe.cpp:825-957): the parser of core lists and the printer whose
 output it reads back.
 */
module CpuList {
  import opened Wrappers
  import opened CpuText

  type Index = x: int | 0 <= x < 0x1_0000_0000

  const MAX_CORE_INDEX: nat := 4095

  datatype CpuInfo = CpuInfo(index: Index, group: nat, inGroup: nat)

  datatype Error =
    | CannotParse(token: string)
    | Backwards(token: string)
    | Negative(token: string)
    | TooLarge(token: string)
    | NoCores
    | NotAvailable(index: nat)

  datatype Bounds = Bounds(low: nat, high: nat)

  /* ---------------- one token ---------------- */

  function FindDash(s: string): (n: nat)
    ensures n <= |s| && '-' !in s[..n]
    ensures n < |s| ==> s[n] == '-'
  {
    if s == "" || s[0] == '-' then 0
    else
      assert s[..1 + FindDash(s[1..])] == [s[0]] + s[1..][..FindDash(s[1..])];
      1 + FindDash(s[1..])
  }

  // strtol on c_str(), and whether it used everything.
  function ParseNumber(s: string, max: nat): Option<int> {
    var c := CString(s);
    if Strtol(c, max).end == |c| then Some(Strtol(c, max).value) else None
  }

  function CheckBounds(token: string, low: int, high: int): Result<Bounds, Error>
    requires low <= high
  {
    if low < 0 then Err(Negative(token))
    else if high > MAX_CORE_INDEX then Err(TooLarge(token))
    else Ok(Bounds(low, high))
  }

  // A number, or two with a dash between them; max is the largest long.
  function ParseToken(token: string, max: nat): Result<Bounds, Error> {
    var dash := FindDash(token);
    if dash < |token| && dash != 0 then
      var lowText, highText := token[..dash], token[dash + 1..];
      match ParseNumber(lowText, max)
      case None => Err(CannotParse(token))
      case Some(low) =>
        match ParseNumber(highText, max)
        case None => Err(CannotParse(token))
        case Some(high) =>
          if highText == "" then Err(CannotParse(token))
          else if high < low then Err(Backwards(token))
          else CheckBounds(token, low, high)
    else
      match ParseNumber(token, max)
      case None => Err(CannotParse(token))
      case Some(low) => CheckBounds(token, low, low)
  }

  function RangeOf(low: nat, high: nat): (r: seq<nat>)
    decreases high + 1 - low
  {
    if high < low then [] else [low] + RangeOf(low + 1, high)
  }

  // The core numbers all tokens stand for, or the first error.
  function Wanted(tokens: seq<string>, max: nat): Result<seq<nat>, Error> {
    if tokens == [] then Ok([])
    else
      var last := |tokens| - 1;
      match Wanted(tokens[..last], max)
      case Err(e) => Err(e)
      case Ok(w) =>
        match ParseToken(tokens[last], max)
        case Err(e) => Err(e)
        case Ok(b) => Ok(w + RangeOf(b.low, b.high))
  }

  /* ---------------- picking cores ---------------- */

  // The first core with this index.
  function Find(available: seq<CpuInfo>, index: nat): (r: Option<CpuInfo>)
    ensures r.Some? ==> exists k :: 0 <= k < |available| && available[k] == r.value && r.value.index == index
                                    && forall i :: 0 <= i < k ==> available[i].index != index
    ensures r.None? <==> forall c :: c in available ==> c.index != index
  {
    if available == [] then None
    else if available[0].index == index then Some(available[0])
    else Find(available[1..], index)
  }

  function Indices(cpus: seq<CpuInfo>): (r: seq<nat>)
    ensures |r| == |cpus| && forall i :: 0 <= i < |cpus| ==> r[i] == cpus[i].index
  {
    seq(|cpus|, i requires 0 <= i < |cpus| => cpus[i].index)
  }

  // What a selection leaves in its output, and its error if any.
  datatype Outcome = Outcome(out: seq<CpuInfo>, error: Option<Error>)

  function Pick(wanted: seq<nat>, available: seq<CpuInfo>): Outcome {
    if wanted == [] then Outcome([], None)
    else
      var last := wanted[|wanted| - 1];
      var o := Pick(wanted[..|wanted| - 1], available);
      if o.error.Some? then o
      else
        match Find(available, last)
        case None => o.(error := Some(NotAvailable(last)))
        case Some(cpu) => if last in Indices(o.out) then o else o.(out := o.out + [cpu])
  }

  function Select(input: string, available: seq<CpuInfo>, max: nat): Outcome {
    var text := Trimmed(input);
    if text == "" || SameLetters(text, "all") then Outcome(available, None)
    else
      match Wanted(Tokens(Normalized(text)), max)
      case Err(e) => Outcome([], Some(e))
      case Ok(w) => if w == [] then Outcome([], Some(NoCores)) else Pick(w, available)
  }

  /* ---------------- what is accepted ---------------- */

  // Nothing but blanks, or the letters a, l, l in any case with blanks around them.
  ghost predicate AsksForAll(input: string) {
    exists i: nat, j: nat :: Surrounded(input, i, j) && (i == j || SaysAll(input[i..j]))
  }

  predicate SaysAll(word: string) {
    |word| == 3 && word[0] in "aA" && word[1] in "lL" && word[2] in "lL"
  }

  lemma AsksForAllIff(input: string)
    ensures AsksForAll(input) <==> Trimmed(input) == "" || SameLetters(Trimmed(input), "all")
  {
    hide Trimmed;
    if i: nat, j: nat :| Surrounded(input, i, j) && (i == j || SaysAll(input[i..j])) {
      WordTrimmed(input, i, j);
    }
    var p, q := TrimmedPlace(input);
    assert SameLetters(Trimmed(input), "all") ==> SaysAll(input[p..q]);
  }

  // All cores are selected when they are asked for.
  lemma AllSelected(input: string, available: seq<CpuInfo>, max: nat)
    requires AsksForAll(input)
    ensures Select(input, available, max) == Outcome(available, None)
  {
    AsksForAllIff(input);
  }

  // Separators alone name no cores.
  lemma OnlySeparators(input: string, available: seq<CpuInfo>, max: nat)
    requires !AsksForAll(input) && forall c :: c in Trimmed(input) ==> c in " ,;"
    ensures Select(input, available, max) == Outcome([], Some(NoCores))
  {
    AsksForAllIff(input);
    var text := Trimmed(input);
    forall i | 0 <= i < |text| ensures Normalized(text)[i] == ' ' { assert text[i] in text; }
    TokensOfSpaces(Normalized(text));
  }

  // The elements of s without repetitions, in order of first occurrence.
  function FirstOccurrences(s: seq<nat>): seq<nat> {
    if s == [] then []
    else
      var r := FirstOccurrences(s[..|s| - 1]);
      if s[|s| - 1] in r then r else r + [s[|s| - 1]]
  }

  ghost predicate Distinct(s: seq<nat>) {
    forall i, j :: 0 <= i < j < |s| ==> s[i] != s[j]
  }

  // The place where x first occurs.
  function FirstAt(s: seq<nat>, x: nat): (i: nat)
    requires x in s
    ensures i < |s| && s[i] == x && x !in s[..i]
  {
    if s[0] == x then 0
    else
      assert x in s[1..];
      assert s[..1 + FirstAt(s[1..], x)] == [s[0]] + s[1..][..FirstAt(s[1..], x)];
      1 + FirstAt(s[1..], x)
  }

  lemma {:induction false} FirstAtSnoc(s: seq<nat>, x: nat, y: nat)
    ensures x in s ==> FirstAt(s + [y], x) == FirstAt(s, x)
    ensures x !in s && x == y ==> FirstAt(s + [y], x) == |s|
  {
    if s != [] {
      FirstAtSnoc(s[1..], x, y);
      assert (s + [y])[1..] == s[1..] + [y];
      assert x in s <==> x == s[0] || x in s[1..];
    }
  }

  // It keeps every element once, in the order of the places where they first occur.
  lemma {:induction false} FirstOccurrencesOrder(s: seq<nat>)
    ensures forall x :: x in FirstOccurrences(s) <==> x in s
    ensures Distinct(FirstOccurrences(s))
    ensures forall i, j :: 0 <= i < j < |FirstOccurrences(s)| ==>
              FirstAt(s, FirstOccurrences(s)[i]) < FirstAt(s, FirstOccurrences(s)[j])
  {
    if s != [] {
      var t, y := s[..|s| - 1], s[|s| - 1];
      FirstOccurrencesOrder(t);
      assert s == t + [y];
      forall x | x in s ensures x in t ==> FirstAt(s, x) == FirstAt(t, x)
                        ensures x !in t ==> FirstAt(s, x) == |t| {
        FirstAtSnoc(t, x, y);
      }
    }
  }

  // wanted[k] is the first wanted core that is not available.
  ghost predicate Misses(wanted: seq<nat>, available: seq<CpuInfo>, k: nat)
    requires k < |wanted|
  {
    Find(available, wanted[k]).None? && forall i :: 0 <= i < k ==> Find(available, wanted[i]).Some?
  }

  // A selection succeeds exactly when every wanted core is available; it then holds the
  // wanted cores, each once and in order of first mention, each the first one available
  // with its index.
  lemma {:induction false} PickIff(wanted: seq<nat>, available: seq<CpuInfo>)
    ensures Pick(wanted, available).error.None? <==> forall x :: x in wanted ==> Find(available, x).Some?
    ensures Pick(wanted, available).error.None? ==>
              Indices(Pick(wanted, available).out) == FirstOccurrences(wanted)
    ensures forall c :: c in Pick(wanted, available).out ==> Find(available, c.index) == Some(c)
  {
    if wanted != [] {
      var t, x := wanted[..|wanted| - 1], wanted[|wanted| - 1];
      PickIff(t, available);
      assert wanted == t + [x];
      var o := Pick(t, available);
      if o.error.None? && Find(available, x).Some? && x !in Indices(o.out) {
        assert Indices(o.out + [Find(available, x).value]) == Indices(o.out) + [x];
      }
    }
  }

  // Otherwise it stops at the first core that is not available, names it, and holds those
  // wanted before it.
  lemma {:induction false} PickFails(wanted: seq<nat>, available: seq<CpuInfo>, k: nat)
    requires k < |wanted| && Misses(wanted, available, k)
    ensures Pick(wanted, available).error == Some(NotAvailable(wanted[k]))
    ensures Indices(Pick(wanted, available).out) == FirstOccurrences(wanted[..k])
  {
    var last := |wanted| - 1;
    if k < last {
      PickFails(wanted[..last], available, k);
      assert wanted[..last][..k] == wanted[..k];
    } else {
      PickIff(wanted[..k], available);
    }
  }

  // What a successful selection is made of.
  lemma AcceptedSelection(input: string, available: seq<CpuInfo>, max: nat)
    requires !AsksForAll(input)
    ensures var o, w := Select(input, available, max), Wanted(Tokens(Normalized(Trimmed(input))), max);
            && (o.error.None? <==> w.Ok? && w.value != [] && forall x :: x in w.value ==> Find(available, x).Some?)
            && (o.error.None? ==>
                  && Distinct(Indices(o.out))
                  && (forall c :: c in o.out ==> c in available && Find(available, c.index) == Some(c))
                  && Indices(o.out) == FirstOccurrences(w.value))
  {
    AsksForAllIff(input);
    var w := Wanted(Tokens(Normalized(Trimmed(input))), max);
    if w.Ok? {
      PickIff(w.value, available);
      FirstOccurrencesOrder(w.value);
    }
  }

  /* ---------------- printing ---------------- */

  // The next index, in 32 bits.
  function Next(i: Index): Index { (i + 1) % 0x1_0000_0000 }

  // Positions first to last of a list, whose indices follow each other.
  datatype Run = Run(first: nat, last: nat)

  ghost predicate IsRun(cpus: seq<CpuInfo>, r: Run) {
    && r.first <= r.last < |cpus|
    && forall k :: r.first <= k < r.last ==> cpus[k + 1].index == Next(cpus[k].index)
  }

  function RunEnd(cpus: seq<CpuInfo>, i: nat): (j: nat)
    requires i < |cpus|
    ensures IsRun(cpus, Run(i, j))
    decreases |cpus| - i
  {
    if i + 1 < |cpus| && cpus[i + 1].index == Next(cpus[i].index) then RunEnd(cpus, i + 1) else i
  }

  // The list from position i on, cut into runs as long as they can be.
  function RunsFrom(cpus: seq<CpuInfo>, i: nat): seq<Run>
    requires i <= |cpus|
    decreases |cpus| - i
  {
    if i == |cpus| then [] else [Run(i, RunEnd(cpus, i))] + RunsFrom(cpus, RunEnd(cpus, i) + 1)
  }

  function RunText(cpus: seq<CpuInfo>, r: Run): (t: string)
    requires r.first <= r.last < |cpus|
  {
    ToString(cpus[r.first].index) + if r.last > r.first then "-" + ToString(cpus[r.last].index) else ""
  }

  // Runs that cover the first n positions.
  ghost predicate Tiles(cpus: seq<CpuInfo>, runs: seq<Run>, n: nat) {
    if runs == [] then n == 0
    else
      var r := runs[|runs| - 1];
      IsRun(cpus, r) && r.last + 1 == n && Tiles(cpus, runs[..|runs| - 1], r.first)
  }

  lemma NextRun(cpus: seq<CpuInfo>, runs: seq<Run>, i: nat)
    requires i < |cpus|
    ensures RunEnd(cpus, i) < |cpus|
    ensures runs + RunsFrom(cpus, i) == runs + [Run(i, RunEnd(cpus, i))] + RunsFrom(cpus, RunEnd(cpus, i) + 1)
  {
    var r := Run(i, RunEnd(cpus, i));
    Regroup(runs, r, RunsFrom(cpus, r.last + 1));
  }

  lemma Regroup<T>(a: seq<T>, b: T, c: seq<T>)
    ensures a + ([b] + c) == a + [b] + c
  {
  }

  lemma {:induction false} RunsTile(cpus: seq<CpuInfo>, runs: seq<Run>, i: nat)
    requires i <= |cpus| && Tiles(cpus, runs, i)
    ensures Tiles(cpus, runs + RunsFrom(cpus, i), |cpus|)
    decreases |cpus| - i
  {
    if i == |cpus| {
      assert runs + RunsFrom(cpus, i) == runs;
    } else {
      var r := Run(i, RunEnd(cpus, i));
      assert (runs + [r])[..|runs|] == runs;
      RunsTile(cpus, runs + [r], r.last + 1);
      NextRun(cpus, runs, i);
    }
  }

  ghost predicate InPlace(cpus: seq<CpuInfo>, runs: seq<Run>) {
    forall r :: r in runs ==> r.first <= r.last < |cpus|
  }

  function Joined(cpus: seq<CpuInfo>, runs: seq<Run>): string
    requires InPlace(cpus, runs)
  {
    if runs == [] then ""
    else
      var init, text := runs[..|runs| - 1], RunText(cpus, runs[|runs| - 1]);
      if init == [] then text else Joined(cpus, init) + "," + text
  }

  lemma {:induction false} TilesBounds(cpus: seq<CpuInfo>, runs: seq<Run>, n: nat)
    requires Tiles(cpus, runs, n)
    ensures n <= |cpus| && forall r :: r in runs ==> r.first <= r.last < |cpus|
  {
    if runs != [] { TilesBounds(cpus, runs[..|runs| - 1], runs[|runs| - 1].first); }
  }

  function Format(cpus: seq<CpuInfo>): string {
    if cpus == [] then "(none)"
    else
      RunsTile(cpus, [], 0);
      TilesBounds(cpus, [] + RunsFrom(cpus, 0), |cpus|);
      assert [] + RunsFrom(cpus, 0) == RunsFrom(cpus, 0);
      Joined(cpus, RunsFrom(cpus, 0))
  }

  /* ---------------- what is printed ---------------- */

  // A list whose indices follow each other is printed as one number or one range, as in
  // 0-7; where they do not, the parts are printed with a comma between. With the text for
  // no core at all these say what is printed for any list.
  lemma NothingPrinted()
    ensures Format([]) == "(none)"
  {
  }

  lemma OneRunPrinted(cpus: seq<CpuInfo>)
    requires cpus != []
    requires forall k :: 0 <= k < |cpus| - 1 ==> cpus[k + 1].index == (cpus[k].index + 1) % 0x1_0000_0000
    ensures Format(cpus) == if |cpus| == 1 then ToString(cpus[0].index)
                            else ToString(cpus[0].index) + "-" + ToString(cpus[|cpus| - 1].index)
  {
    RunGoesOn(cpus, 0);
    assert RunsFrom(cpus, |cpus|) == [];
    assert RunsFrom(cpus, 0) == [Run(0, |cpus| - 1)];
    JoinedOne(cpus, Run(0, |cpus| - 1));
  }

  lemma JoinedOne(cpus: seq<CpuInfo>, r: Run)
    requires r.first <= r.last < |cpus|
    ensures Joined(cpus, [r]) == RunText(cpus, r)
  {
    assert [r][..0] == [];
  }

  lemma {:induction false} RunGoesOn(cpus: seq<CpuInfo>, i: nat)
    requires i < |cpus|
    requires forall k :: 0 <= k < |cpus| - 1 ==> cpus[k + 1].index == (cpus[k].index + 1) % 0x1_0000_0000
    ensures RunEnd(cpus, i) == |cpus| - 1
    decreases |cpus| - i
  {
    if i + 1 < |cpus| { RunGoesOn(cpus, i + 1); }
  }

  lemma PartsPrinted(a: seq<CpuInfo>, b: seq<CpuInfo>)
    requires a != [] && b != [] && b[0].index != (a[|a| - 1].index + 1) % 0x1_0000_0000
    ensures Format(a + b) == Format(a) + "," + Format(b)
  {
    var c := a + b;
    assert Front(c, a) && Back(c, b) && c[|a|] == b[0];
    hide Format;
    PartsOf(a, b, c);
  }

  lemma PartsOf(a: seq<CpuInfo>, b: seq<CpuInfo>, c: seq<CpuInfo>)
    requires a != [] && b != [] && Front(c, a) && Back(c, b) && |c| == |a| + |b|
    requires c[|a|].index != Next(a[|a| - 1].index)
    ensures Format(c) == Format(a) + "," + Format(b)
  {
    hide Front, Back, RunsFrom, Joined, Shifted, Format, Next;
    FormatIs(a);
    FormatIs(b);
    FormatIs(c);
    RunsOfLeft(a, c, 0);
    RunsOfRight(b, c, 0);
    RunsInPlace(a, 0);
    RunsInPlace(b, 0);
    JoinedParts(a, b, c, RunsFrom(a, 0), RunsFrom(b, 0));
  }

  lemma FormatIs(cpus: seq<CpuInfo>)
    requires cpus != []
    ensures InPlace(cpus, RunsFrom(cpus, 0)) && Format(cpus) == Joined(cpus, RunsFrom(cpus, 0))
  {
    hide RunsFrom, Joined;
    RunsInPlace(cpus, 0);
  }

  // The list c starts with a, and ends with b.
  ghost predicate Front(c: seq<CpuInfo>, a: seq<CpuInfo>) {
    |a| <= |c| && forall k :: 0 <= k < |a| ==> c[k] == a[k]
  }

  ghost predicate Back(c: seq<CpuInfo>, b: seq<CpuInfo>) {
    |b| <= |c| && forall k :: 0 <= k < |b| ==> c[|c| - |b| + k] == b[k]
  }

  function Shifted(runs: seq<Run>, n: nat): seq<Run> {
    seq(|runs|, i requires 0 <= i < |runs| => Run(runs[i].first + n, runs[i].last + n))
  }

  lemma {:induction false} RunsInPlace(cpus: seq<CpuInfo>, i: nat)
    requires i <= |cpus|
    ensures InPlace(cpus, RunsFrom(cpus, i)) && (i < |cpus| ==> RunsFrom(cpus, i) != [])
    decreases |cpus| - i
  {
    if i < |cpus| { RunsInPlace(cpus, RunEnd(cpus, i) + 1); }
  }

  lemma FirstRun(cpus: seq<CpuInfo>, i: nat)
    requires i < |cpus|
    ensures RunEnd(cpus, i) < |cpus|
    ensures RunsFrom(cpus, i) == [Run(i, RunEnd(cpus, i))] + RunsFrom(cpus, RunEnd(cpus, i) + 1)
  {
  }

  lemma {:induction false} RunEndOfLeft(a: seq<CpuInfo>, c: seq<CpuInfo>, i: nat)
    requires i < |a| < |c| && Front(c, a) && c[|a|].index != Next(a[|a| - 1].index)
    ensures RunEnd(c, i) == RunEnd(a, i)
    decreases |a| - i
  {
    if i + 1 < |a| { RunEndOfLeft(a, c, i + 1); }
  }

  lemma {:induction false} RunEndOfRight(b: seq<CpuInfo>, c: seq<CpuInfo>, i: nat)
    requires i < |b| && Back(c, b)
    ensures RunEnd(c, |c| - |b| + i) == |c| - |b| + RunEnd(b, i)
    decreases |b| - i
  {
    if i + 1 < |b| { RunEndOfRight(b, c, i + 1); }
  }

  lemma {:induction false} RunsOfRight(b: seq<CpuInfo>, c: seq<CpuInfo>, i: nat)
    requires i <= |b| <= |c| && Back(c, b)
    ensures RunsFrom(c, |c| - |b| + i) == Shifted(RunsFrom(b, i), |c| - |b|)
    decreases |b| - i
  {
    hide Back, Next, RunEnd, Shifted;
    if i < |b| {
      hide RunsFrom;
      RunEndOfRight(b, c, i);
      var j, n := RunEnd(b, i), |c| - |b|;
      RunsOfRight(b, c, j + 1);
      FirstRun(c, n + i);
      FirstRun(b, i);
      ShiftedSum([Run(i, j)], RunsFrom(b, j + 1), n);
      ShiftedOne(Run(i, j), n);
    } else {
      assert RunsFrom(c, |c|) == [] && RunsFrom(b, i) == [];
      ShiftedNone(|c| - |b|);
    }
  }

  lemma {:induction false} RunsOfLeft(a: seq<CpuInfo>, c: seq<CpuInfo>, i: nat)
    requires i <= |a| < |c| && Front(c, a) && (a != [] ==> c[|a|].index != Next(a[|a| - 1].index))
    ensures RunsFrom(c, i) == RunsFrom(a, i) + RunsFrom(c, |a|)
    decreases |a| - i
  {
    hide Front, Next, RunEnd;
    if i < |a| {
      hide RunsFrom;
      RunEndOfLeft(a, c, i);
      var j := RunEnd(a, i);
      RunsOfLeft(a, c, j + 1);
      FirstRun(a, i);
      FirstRun(c, i);
      Associates([Run(i, j)], RunsFrom(a, j + 1), RunsFrom(c, |a|));
    } else {
      assert RunsFrom(a, i) == [];
    }
  }

  lemma JoinedSnoc(cpus: seq<CpuInfo>, runs: seq<Run>, r: Run)
    requires InPlace(cpus, runs) && r.first <= r.last < |cpus| && runs != []
    ensures InPlace(cpus, runs + [r])
    ensures Joined(cpus, runs + [r]) == Joined(cpus, runs) + "," + RunText(cpus, r)
  {
    assert (runs + [r])[..|runs|] == runs;
  }

  // The texts of the runs of a, then those of b.
  lemma {:induction false} JoinedParts(a: seq<CpuInfo>, b: seq<CpuInfo>, c: seq<CpuInfo>,
                                       runs: seq<Run>, rest: seq<Run>)
    requires Front(c, a) && Back(c, b) && |c| == |a| + |b|
    requires InPlace(a, runs) && InPlace(b, rest) && runs != [] && rest != []
    ensures InPlace(c, runs + Shifted(rest, |a|))
    ensures Joined(c, runs + Shifted(rest, |a|)) == Joined(a, runs) + "," + Joined(b, rest)
    decreases |rest|
  {
    hide RunText, Joined, Front, Back, Shifted;
    var front, r := rest[..|rest| - 1], rest[|rest| - 1];
    assert r in rest && rest == front + [r];
    PartsInPlace(a, b, c, runs, rest);
    if front == [] {
      FirstPart(a, b, c, runs, r);
    } else {
      JoinedParts(a, b, c, runs, front);
      NextPart(a, b, c, runs, front, r);
    }
  }

  lemma FirstPart(a: seq<CpuInfo>, b: seq<CpuInfo>, c: seq<CpuInfo>, runs: seq<Run>, r: Run)
    requires Front(c, a) && Back(c, b) && |c| == |a| + |b|
    requires InPlace(a, runs) && r.first <= r.last < |b| && runs != [] && InPlace(c, runs + Shifted([r], |a|))
    ensures Joined(c, runs + Shifted([r], |a|)) == Joined(a, runs) + "," + Joined(b, [r])
  {
    hide RunText, Joined, Front, Back, Shifted;
    JoinedLeft(a, c, runs);
    JoinedOne(b, r);
    ShiftedOne(r, |a|);
    SameText(b, c, r);
    JoinedSnoc(c, runs, Run(r.first + |a|, r.last + |a|));
  }

  lemma NextPart(a: seq<CpuInfo>, b: seq<CpuInfo>, c: seq<CpuInfo>, runs: seq<Run>, front: seq<Run>, r: Run)
    requires Front(c, a) && Back(c, b) && |c| == |a| + |b|
    requires InPlace(a, runs) && InPlace(b, front) && r.first <= r.last < |b| && runs != [] && front != []
    requires InPlace(c, runs + Shifted(front, |a|)) && InPlace(c, runs + Shifted(front + [r], |a|))
    requires InPlace(b, front + [r])
    requires Joined(c, runs + Shifted(front, |a|)) == Joined(a, runs) + "," + Joined(b, front)
    ensures Joined(c, runs + Shifted(front + [r], |a|)) == Joined(a, runs) + "," + Joined(b, front + [r])
  {
    hide RunText, Joined, Front, Back, Shifted, InPlace;
    NextPlaced(runs, front, r, |a|);
    SameText(b, c, r);
    TextsGrow(c, runs + Shifted(front, |a|), Run(r.first + |a|, r.last + |a|), b, front, r, Joined(a, runs));
  }

  lemma NextPlaced(runs: seq<Run>, front: seq<Run>, r: Run, n: nat)
    ensures runs + Shifted(front + [r], n) == (runs + Shifted(front, n)) + [Run(r.first + n, r.last + n)]
  {
    hide Shifted;
    ShiftedSum(front, [r], n);
    ShiftedOne(r, n);
    Associates(runs, Shifted(front, n), [Run(r.first + n, r.last + n)]);
  }

  lemma TextsGrow(c: seq<CpuInfo>, s: seq<Run>, r': Run, b: seq<CpuInfo>, front: seq<Run>, r: Run, text: string)
    requires InPlace(c, s) && InPlace(c, s + [r']) && InPlace(b, front) && InPlace(b, front + [r])
    requires s != [] && front != [] && r'.first <= r'.last < |c| && r.first <= r.last < |b|
    requires RunText(c, r') == RunText(b, r) && Joined(c, s) == text + "," + Joined(b, front)
    ensures Joined(c, s + [r']) == text + "," + Joined(b, front + [r])
  {
    hide RunText, Joined;
    JoinedSnoc(c, s, r');
    JoinedSnoc(b, front, r);
    Regrouped(text, Joined(b, front), RunText(b, r));
  }

  lemma Associates<T>(s: seq<T>, t: seq<T>, u: seq<T>)
    ensures s + (t + u) == (s + t) + u
  {
  }

  lemma ShiftedOne(r: Run, n: nat)
    ensures Shifted([r], n) == [Run(r.first + n, r.last + n)]
  {
  }

  lemma ShiftedNone(n: nat)
    ensures Shifted([], n) == []
  {
  }

  lemma ShiftedSum(s: seq<Run>, t: seq<Run>, n: nat)
    ensures Shifted(s + t, n) == Shifted(s, n) + Shifted(t, n)
  {
  }

  lemma Regrouped(s: string, t: string, u: string)
    ensures (s + "," + t) + "," + u == s + "," + (t + "," + u)
  {
  }

  lemma SameText(b: seq<CpuInfo>, c: seq<CpuInfo>, r: Run)
    requires Back(c, b) && r.first <= r.last < |b|
    ensures RunText(c, Run(r.first + (|c| - |b|), r.last + (|c| - |b|))) == RunText(b, r)
  {
  }

  lemma PartsInPlace(a: seq<CpuInfo>, b: seq<CpuInfo>, c: seq<CpuInfo>, runs: seq<Run>, rest: seq<Run>)
    requires InPlace(a, runs) && InPlace(b, rest) && |c| == |a| + |b|
    ensures InPlace(c, runs + Shifted(rest, |a|))
  {
    forall r | r in runs + Shifted(rest, |a|)
      ensures r.first <= r.last < |c|
    {
      if r !in runs {
        var k :| 0 <= k < |rest| && Shifted(rest, |a|)[k] == r;
        assert rest[k] in rest;
      }
    }
  }

  lemma {:induction false} JoinedLeft(a: seq<CpuInfo>, c: seq<CpuInfo>, runs: seq<Run>)
    requires Front(c, a) && InPlace(a, runs)
    ensures InPlace(c, runs) && Joined(c, runs) == Joined(a, runs)
  {
    if runs != [] {
      var last := |runs| - 1;
      assert runs[last] in runs;
      JoinedLeft(a, c, runs[..last]);
      assert RunText(c, runs[last]) == RunText(a, runs[last]);
    }
  }

  /* ---------------- reading back what was printed ---------------- */

  function Texts(cpus: seq<CpuInfo>, runs: seq<Run>): (r: seq<string>)
    requires forall r :: r in runs ==> r.first <= r.last < |cpus|
    ensures |r| == |runs| && forall i :: 0 <= i < |runs| ==> r[i] == RunText(cpus, runs[i])
  {
    seq(|runs|, i requires 0 <= i < |runs| => RunText(cpus, runs[i]))
  }

  predicate Plain(s: string) { forall c :: c in s ==> IsDigit(c) || c == '-' }

  lemma RunTextPlain(cpus: seq<CpuInfo>, r: Run)
    requires r.first <= r.last < |cpus|
    ensures Plain(RunText(cpus, r)) && IsWord(RunText(cpus, r)) && Normalized(RunText(cpus, r)) == RunText(cpus, r)
    ensures IsDigit(RunText(cpus, r)[0])
  {
    var t := RunText(cpus, r);
    var a := ToString(cpus[r.first].index);
    assert t[0] == a[0] && a[0] in a;
    forall i | 0 <= i < |t|
      ensures Spaced(t[i]) == t[i]
    {
      assert t[i] in t;
    }
  }

  lemma NormalizedConcat(s: string, t: string)
    ensures Normalized(s + t) == Normalized(s) + Normalized(t)
  {
  }

  lemma NoTokens()
    ensures Tokens(Normalized("")) == []
  {
  }

  // The tokens of a printed list are the texts of its runs.
  lemma {:induction false} JoinedTokens(cpus: seq<CpuInfo>, runs: seq<Run>)
    requires forall r :: r in runs ==> r.first <= r.last < |cpus|
    ensures Tokens(Normalized(Joined(cpus, runs))) == Texts(cpus, runs)
  {
    hide RunText, Tokens, ToString;
    NoTokens();
    if runs != [] {
      var init, r := runs[..|runs| - 1], runs[|runs| - 1];
      var text := RunText(cpus, r);
      RunTextPlain(cpus, r);
      JoinedTokens(cpus, init);
      assert Texts(cpus, runs) == Texts(cpus, init) + [text];
      if init == [] {
        assert Texts(cpus, init) == [];
        OneToken(text);
      } else {
        var s := Joined(cpus, init);
        NormalizedConcat(s + ",", text);
        NormalizedConcat(s, ",");
        assert Normalized(s + "," + text) == Normalized(s) + " " + text;
        TokensSnoc(Normalized(s), text);
      }
    }
  }

  // A printed list starts with a digit and ends with one.
  lemma {:induction false} JoinedEnds(cpus: seq<CpuInfo>, runs: seq<Run>)
    requires runs != [] && forall r :: r in runs ==> r.first <= r.last < |cpus|
    ensures var s := Joined(cpus, runs); s != "" && IsDigit(s[0]) && IsDigit(s[|s| - 1])
  {
    var init, r := runs[..|runs| - 1], runs[|runs| - 1];
    var text := RunText(cpus, r);
    RunTextPlain(cpus, r);
    var last := ToString(cpus[r.last].index);
    assert text[|text| - 1] == last[|last| - 1] && last[|last| - 1] in last;
    if init != [] { JoinedEnds(cpus, init); }
  }

  lemma TrimmedIsSame(s: string)
    requires s != "" && IsDigit(s[0]) && IsDigit(s[|s| - 1])
    ensures Trimmed(s) == s && !SameLetters(s, "all")
  {
  }

  lemma {:induction false} FindDashAfter(s: string, t: string)
    requires '-' !in s
    ensures FindDash(s + "-" + t) == |s|
    ensures FindDash(s) == |s|
  {
    var w := s + "-" + t;
    if s != "" {
      assert w[1..] == s[1..] + "-" + t;
      assert s[0] in s;
      FindDashAfter(s[1..], t);
    } else {
      assert w[0] == '-';
    }
  }

  // The text of a run is accepted exactly when its bounds are in order and in range.
  lemma RunParses(cpus: seq<CpuInfo>, r: Run, max: nat)
    requires r.first <= r.last < |cpus| && max > MAX_CORE_INDEX
    ensures var lo, hi := cpus[r.first].index, cpus[r.last].index;
            var p := ParseToken(RunText(cpus, r), max);
            && (p.Ok? <==> lo <= hi <= MAX_CORE_INDEX)
            && (p.Ok? ==> p.value == Bounds(lo, hi))
  {
    hide ToString, ParseToken;
    var lo, hi := cpus[r.first].index, cpus[r.last].index;
    if r.last > r.first {
      assert RunText(cpus, r) == ToString(lo) + "-" + ToString(hi);
      RangeParses(lo, hi, max);
    } else {
      assert RunText(cpus, r) == ToString(lo);
      NumberParses(lo, max);
    }
  }

  lemma ReadBack(n: nat, max: nat)
    ensures ParseNumber(ToString(n), max) == Some(if n > max then max else n)
    ensures '-' !in ToString(n) && ToString(n) != ""
  {
    StrtolOfToString(n, max);
  }

  // One core by its number.
  lemma NumberParses(n: nat, max: nat)
    requires max > 4095
    ensures ParseToken(ToString(n), max) == if n <= 4095 then Ok(Bounds(n, n)) else Err(TooLarge(ToString(n)))
  {
    hide ToString, ParseNumber;
    ReadBack(n, max);
    FindDashAfter(ToString(n), "");
  }

  // A range. Numbers above the largest long, max, count as that.
  lemma RangeParses(lo: nat, hi: nat, max: nat)
    requires max > 4095
    ensures var t := ToString(lo) + "-" + ToString(hi);
            ParseToken(t, max) == if hi < lo && hi < max then Err(Backwards(t))
                                  else if hi > 4095 then Err(TooLarge(t))
                                  else Ok(Bounds(lo, hi))
  {
    hide ToString, ParseNumber;
    ReadBack(lo, max);
    ReadBack(hi, max);
    var a, b := ToString(lo), ToString(hi);
    FindDashAfter(a, b);
    var t := a + "-" + b;
    assert t[..|a|] == a && t[|a| + 1..] == b;
  }

  // A range without an end.
  lemma OpenRangeParses(lo: nat, max: nat)
    ensures ParseToken(ToString(lo) + "-", max) == Err(CannotParse(ToString(lo) + "-"))
  {
    hide ToString, ParseNumber;
    ReadBack(lo, max);
    FindDashAfter(ToString(lo), "");
    var t := ToString(lo) + "-";
    assert t + "" == t && t[..|t| - 1] == ToString(lo) && t[|t|..] == "";
  }

  // A number with a minus sign: only zero is let through.
  lemma NegativeParses(n: nat, max: nat)
    ensures var t := "-" + ToString(n);
            ParseToken(t, max) == if n == 0 then Ok(Bounds(0, 0)) else Err(Negative(t))
  {
    var s := ToString(n);
    var t := "-" + s;
    StrtolMeans(t, 0, 1, |t|, max) by {
      forall k | 1 <= k < |t| ensures '0' <= t[k] <= '9' { assert t[k] == s[k - 1] && s[k - 1] in s; }
    }
    assert t[1..|t|] == s;
    ValueOfToString(n);
    assert '\0' !in t;
    CStringIs(t, "");
  }

  // A character that is neither a digit nor a sign nor white space.
  lemma UnreadableToken(token: string, k: nat, max: nat)
    requires '\0' !in token && k < |token|
    requires !('0' <= token[k] <= '9') && token[k] !in "+- " && !(9 <= token[k] as int <= 13)
    ensures ParseToken(token, max) == Err(CannotParse(token))
  {
    hide Strtol, CString;
    var dash := FindDash(token);
    if dash < |token| && dash != 0 {
      var lowText, highText := token[..dash], token[dash + 1..];
      if k < dash {
        Unreadable(lowText, k, max);
      } else {
        assert token[dash] == '-' && highText[k - dash - 1] == token[k];
        Unreadable(highText, k - dash - 1, max);
      }
    } else {
      Unreadable(token, k, max);
    }
  }

  lemma Unreadable(s: string, k: nat, max: nat)
    requires '\0' !in s && k < |s|
    requires !('0' <= s[k] <= '9') && s[k] !in "+- " && !(9 <= s[k] as int <= 13)
    ensures ParseNumber(s, max) == None
  {
    CStringIs(s, "");
    ScanUses(s, k);
    hide Scan, CString;
  }

  lemma {:induction false} RunIndex(cpus: seq<CpuInfo>, r: Run, k: nat)
    requires IsRun(cpus, r) && r.first <= k <= r.last
    ensures cpus[k].index == (cpus[r.first].index + (k - r.first)) % 0x1_0000_0000
  {
    if k > r.first { RunIndex(cpus, r, k - 1); }
  }

  // Distinct indices in order do not wrap around.
  lemma RunDoesNotWrap(cpus: seq<CpuInfo>, r: Run)
    requires IsRun(cpus, r) && Distinct(Indices(cpus)) && cpus[r.first].index <= cpus[r.last].index
    ensures forall k :: r.first <= k <= r.last ==> cpus[k].index == cpus[r.first].index + (k - r.first)
  {
    if r.last - r.first >= 0x1_0000_0000 { LongRunRepeats(cpus, r); }
    RunIndex(cpus, r, r.last);
    forall k | r.first <= k <= r.last
      ensures cpus[k].index == cpus[r.first].index + (k - r.first)
    {
      RunIndex(cpus, r, k);
    }
  }

  lemma LongRunRepeats(cpus: seq<CpuInfo>, r: Run)
    requires IsRun(cpus, r) && r.last - r.first >= 0x1_0000_0000
    ensures !Distinct(Indices(cpus))
  {
    RunIndex(cpus, r, r.first + 0x1_0000_0000);
    assert Indices(cpus)[r.first + 0x1_0000_0000] == Indices(cpus)[r.first];
  }

  lemma {:induction false} RangeElements(low: nat, high: nat)
    requires low <= high + 1
    ensures |RangeOf(low, high)| == high + 1 - low
    ensures forall i :: 0 <= i <= high - low ==> RangeOf(low, high)[i] == low + i
    decreases high + 1 - low
  {
    if low <= high { RangeElements(low + 1, high); }
  }

  ghost predicate InRange(cpus: seq<CpuInfo>) {
    forall c :: c in cpus ==> c.index <= 4095
  }

  // A run is accepted exactly when its indices are in range, and stands for them.
  lemma RunWanted(cpus: seq<CpuInfo>, r: Run, max: nat)
    requires IsRun(cpus, r) && Distinct(Indices(cpus)) && max > MAX_CORE_INDEX
    ensures var p, part := ParseToken(RunText(cpus, r), max), cpus[r.first..r.last + 1];
            && (p.Ok? <==> InRange(part))
            && (p.Ok? ==> RangeOf(p.value.low, p.value.high) == Indices(part))
  {
    hide RunText, ParseToken, RangeOf;
    var lo, hi, part := cpus[r.first].index, cpus[r.last].index, cpus[r.first..r.last + 1];
    RunParses(cpus, r, max);
    assert part[0] == cpus[r.first] && part[|part| - 1] == cpus[r.last];
    if InRange(part) {
      RunInOrder(cpus, r, r.last);
    }
    if lo <= hi <= MAX_CORE_INDEX {
      RunDoesNotWrap(cpus, r);
      assert InRange(part);
      RunIsRange(cpus, r);
    }
  }

  lemma RunIsRange(cpus: seq<CpuInfo>, r: Run)
    requires IsRun(cpus, r) && Distinct(Indices(cpus)) && cpus[r.first].index <= cpus[r.last].index
    ensures RangeOf(cpus[r.first].index, cpus[r.last].index) == Indices(cpus[r.first..r.last + 1])
  {
    hide RangeOf, Distinct, Indices, IsRun;
    RunDoesNotWrap(cpus, r);
    RunBounds(cpus, r);
    var lo, hi, part := cpus[r.first].index, cpus[r.last].index, cpus[r.first..r.last + 1];
    RangeElements(lo, hi);
    assert hi == lo + (r.last - r.first);
    var range, indices := RangeOf(lo, hi), Indices(part);
    forall k | 0 <= k < |part|
      ensures range[k] == indices[k]
    {
      assert part[k] == cpus[r.first + k];
      assert cpus[r.first + k].index == lo + k;
    }
  }

  lemma RunBounds(cpus: seq<CpuInfo>, r: Run)
    requires IsRun(cpus, r)
    ensures r.first <= r.last < |cpus|
  {
  }

  lemma {:induction false} RunInOrder(cpus: seq<CpuInfo>, r: Run, k: nat)
    requires IsRun(cpus, r) && r.first <= k <= r.last
    requires InRange(cpus[r.first..r.last + 1])
    ensures cpus[r.first].index <= cpus[k].index
  {
    if k > r.first {
      RunInOrder(cpus, r, k - 1);
      assert cpus[r.first..r.last + 1][k - 1 - r.first] == cpus[k - 1];
      assert cpus[k - 1] in cpus[r.first..r.last + 1];
    }
  }

  lemma {:induction false} RunsWanted(cpus: seq<CpuInfo>, runs: seq<Run>, n: nat, max: nat)
    requires Tiles(cpus, runs, n) && Distinct(Indices(cpus)) && max > MAX_CORE_INDEX
    ensures n <= |cpus| && forall r :: r in runs ==> r.first <= r.last < |cpus|
    ensures var w := Wanted(Texts(cpus, runs), max);
            && (w.Ok? <==> InRange(cpus[..n]))
            && (w.Ok? ==> w.value == Indices(cpus[..n]))
  {
    hide RunText, ParseToken, RangeOf, IsRun, InRange, Distinct;
    TilesBounds(cpus, runs, n);
    if runs != [] {
      var init, r := runs[..|runs| - 1], runs[|runs| - 1];
      RunsWanted(cpus, init, r.first, max);
      RunWanted(cpus, r, max);
      assert Texts(cpus, runs)[..|runs| - 1] == Texts(cpus, init);
      assert cpus[..n] == cpus[..r.first] + cpus[r.first..n];
      PartsInRange(cpus[..r.first], cpus[r.first..n]);
    } else {
      NoneInRange();
    }
  }

  lemma PartsInRange(a: seq<CpuInfo>, b: seq<CpuInfo>)
    ensures InRange(a + b) <==> InRange(a) && InRange(b)
    ensures Indices(a + b) == Indices(a) + Indices(b)
  {
  }

  lemma NoneInRange()
    ensures InRange([]) && Indices([]) == []
  {
  }

  lemma {:induction false} DistinctAreFirst(s: seq<nat>)
    requires Distinct(s)
    ensures FirstOccurrences(s) == s
  {
    if s != [] {
      var t := s[..|s| - 1];
      DistinctAreFirst(t);
      assert s == t + [s[|s| - 1]];
    }
  }

  // A printed list is read back as the same list exactly when every index is one the
  // parser admits; otherwise it is refused.
  lemma RoundTripIff(cpus: seq<CpuInfo>, available: seq<CpuInfo>, max: nat)
    requires cpus != [] && Distinct(Indices(cpus)) && max > MAX_CORE_INDEX
    requires forall c :: c in cpus ==> Find(available, c.index) == Some(c)
    ensures InRange(cpus) <==> Select(Format(cpus), available, max) == Outcome(cpus, None)
    ensures !InRange(cpus) <==> Select(Format(cpus), available, max).error.Some?
  {
    hide RunText, Tokens, Wanted, Pick, Joined, Tiles, Normalized, Trimmed, RunsFrom, SameLetters, Distinct;
    var runs := RunsFrom(cpus, 0);
    SomeRuns(cpus);
    NoRuns(cpus);
    RunsTile(cpus, [], 0);
    assert [] + runs == runs;
    RunsWanted(cpus, runs, |cpus|, max);
    JoinedTokens(cpus, runs);
    JoinedEnds(cpus, runs);
    TrimmedIsSame(Joined(cpus, runs));
    assert cpus[..|cpus|] == cpus;
    if InRange(cpus) {
      PickedBack(cpus, available);
    }
  }

  lemma SomeRuns(cpus: seq<CpuInfo>)
    ensures cpus != [] ==> RunsFrom(cpus, 0) != []
  {
  }

  lemma NoRuns(cpus: seq<CpuInfo>)
    ensures Tiles(cpus, [], 0)
  {
  }

  lemma PickedBack(cpus: seq<CpuInfo>, available: seq<CpuInfo>)
    requires Distinct(Indices(cpus)) && forall c :: c in cpus ==> Find(available, c.index) == Some(c)
    ensures Pick(Indices(cpus), available) == Outcome(cpus, None)
  {
    PickIff(Indices(cpus), available);
    DistinctAreFirst(Indices(cpus));
    var out := Pick(Indices(cpus), available).out;
    forall x | x in Indices(cpus)
      ensures Find(available, x).Some?
    {
      var k :| 0 <= k < |cpus| && Indices(cpus)[k] == x;
      assert cpus[k] in cpus;
    }
    forall k | 0 <= k < |cpus|
      ensures out[k] == cpus[k]
    {
      assert Indices(out)[k] == Indices(cpus)[k];
      assert out[k] in out && cpus[k] in cpus;
    }
  }

  /* ---------------- the width of long ---------------- */

  lemma {:induction false} WantedWidth(tokens: seq<string>, max: nat, max': nat)
    requires max > MAX_CORE_INDEX && max' > MAX_CORE_INDEX && Wanted(tokens, max).Ok?
    ensures Wanted(tokens, max') == Wanted(tokens, max)
  {
    hide ParseToken, RangeOf;
    if tokens != [] {
      WantedWidth(tokens[..|tokens| - 1], max, max');
      TokenWidth(tokens[|tokens| - 1], max, max');
    }
  }

  lemma TokenWidth(token: string, max: nat, max': nat)
    requires max > MAX_CORE_INDEX && max' > MAX_CORE_INDEX && ParseToken(token, max).Ok?
    ensures ParseToken(token, max') == ParseToken(token, max)
  {
    hide CString, Scan, FindDash;
  }

  // Whether long has 32 bits or 64 makes no difference to what is accepted.
  lemma WidthDoesNotMatter(input: string, available: seq<CpuInfo>, max: nat, max': nat)
    requires max > MAX_CORE_INDEX && max' > MAX_CORE_INDEX
    ensures var o, o' := Select(input, available, max), Select(input, available, max');
            (o.error.None? <==> o'.error.None?) && o.out == o'.out
  {
    hide Tokens, Pick, Trimmed;
    var tokens := Tokens(Normalized(Trimmed(input)));
    if Wanted(tokens, max).Ok? { WantedWidth(tokens, max, max'); }
    if Wanted(tokens, max').Ok? { WantedWidth(tokens, max', max); }
  }

  /* ---------------- the parser and the printer themselves ---------------- */

  method FindCpu(cpus: seq<CpuInfo>, index: nat) returns (found: Option<CpuInfo>)
    ensures found == Find(cpus, index)
  {
    for i := 0 to |cpus|
      invariant Find(cpus[i..], index) == Find(cpus, index)
    {
      if cpus[i].index == index {
        return Some(cpus[i]);
      }
      assert cpus[i..][1..] == cpus[i + 1..];
    }
    found := None;
  }

  lemma {:induction false} WantedStops(done: seq<string>, rest: seq<string>, max: nat)
    requires Wanted(done, max).Err?
    ensures Wanted(done + rest, max) == Wanted(done, max)
  {
    hide ParseToken;
    if rest == [] {
      assert done + rest == done;
    } else {
      WantedStops(done, rest[..|rest| - 1], max);
      assert (done + rest)[..|done + rest| - 1] == done + rest[..|rest| - 1];
    }
  }

  lemma WantedSnoc(done: seq<string>, token: string, max: nat)
    ensures Wanted(done, max).Ok? ==>
              Wanted(done + [token], max) ==
              match ParseToken(token, max)
              case Err(e) => Err(e)
              case Ok(b) => Ok(Wanted(done, max).value + RangeOf(b.low, b.high))
  {
    hide ParseToken, RangeOf;
    assert (done + [token])[..|done|] == done;
  }

  lemma {:induction false} RangeSnoc(low: nat, high: nat)
    requires low <= high
    ensures RangeOf(low, high) == (if high == 0 then [] else RangeOf(low, high - 1)) + [high]
    decreases high - low
  {
    if low < high { RangeSnoc(low + 1, high); }
  }

  // for (value = low; value <= high; ++value) wanted.push_back(value);
  method PushRange(wanted: seq<nat>, b: Bounds) returns (r: seq<nat>)
    requires b.low <= b.high
    ensures r == wanted + RangeOf(b.low, b.high)
  {
    r := wanted;
    var value := b.low;
    while value <= b.high
      invariant b.low <= value <= b.high + 1
      invariant r == wanted + (if value == 0 then [] else RangeOf(b.low, value - 1))
    {
      RangeSnoc(b.low, value);
      r := r + [value];
      value := value + 1;
    }
  }

  lemma ParsedInOrder(token: string, max: nat)
    requires ParseToken(token, max).Ok?
    ensures ParseToken(token, max).value.low <= ParseToken(token, max).value.high
  {
    hide ParseNumber;
  }

  method ReplaceSeparators(text: string) returns (normalized: string)
    ensures normalized == Normalized(text)
  {
    normalized := "";
    for i := 0 to |text|
      invariant normalized == Normalized(text)[..i]
    {
      normalized := normalized + [if text[i] == ',' || text[i] == ';' then ' ' else text[i]];
    }
  }

  // Where the token that starts at pos ends.
  method TokenEnd(text: string, start: nat) returns (pos: nat)
    requires start < |text| && text[start] != ' '
    ensures start < pos <= |text| && pos - start == WordEnd(text[start..])
  {
    pos := start;
    while pos < |text| && text[pos] != ' '
      invariant start <= pos <= |text|
      invariant forall i :: start <= i < pos ==> text[i] != ' '
    {
      pos := pos + 1;
    }
    WordEndIs(text[start..], pos - start);
  }

  // The core numbers of the tokens of a text without commas.
  method Collect(normalized: string, max: nat) returns (r: Result<seq<nat>, Error>)
    ensures r == Wanted(Tokens(normalized), max)
  {
    hide ParseToken, RangeOf, Wanted;
    var wanted: seq<nat>, pos: nat := [], 0;
    ghost var done: seq<string> := [];
    NothingWanted(max);
    assert normalized[0..] == normalized;
    while pos < |normalized|
      invariant pos <= |normalized|
      invariant done + Tokens(normalized[pos..]) == Tokens(normalized)
      invariant Wanted(done, max) == Ok(wanted)
    {
      ghost var rest := normalized[pos..];
      if normalized[pos] == ' ' {
        assert rest[1..] == normalized[pos + 1..];
        pos := pos + 1;
      } else {
        var start := pos;
        pos := TokenEnd(normalized, start);
        var token := normalized[start..pos];
        assert token == rest[..pos - start] && rest[pos - start..] == normalized[pos..];
        assert done + Tokens(rest) == done + [token] + Tokens(normalized[pos..]);
        WantedSnoc(done, token, max);
        done := done + [token];
        var parsed := ParseToken(token, max);
        match parsed {
          case Err(e) =>
            WantedStops(done, Tokens(normalized[pos..]), max);
            return Err(e);
          case Ok(b) =>
            ParsedInOrder(token, max);
            wanted := PushRange(wanted, b);
        }
      }
    }
    assert normalized[pos..] == "" && done + [] == done;
    r := Ok(wanted);
  }

  lemma NothingWanted(max: nat)
    ensures Wanted([], max) == Ok([]) && Tokens("") == []
  {
  }

  lemma {:induction false} PickStops(done: seq<nat>, rest: seq<nat>, available: seq<CpuInfo>)
    requires Pick(done, available).error.Some?
    ensures Pick(done + rest, available) == Pick(done, available)
  {
    if rest == [] {
      assert done + rest == done;
    } else {
      PickStops(done, rest[..|rest| - 1], available);
      assert (done + rest)[..|done + rest| - 1] == done + rest[..|rest| - 1];
    }
  }

  method Choose(wanted: seq<nat>, available: seq<CpuInfo>) returns (out: seq<CpuInfo>, error: Option<Error>)
    ensures Outcome(out, error) == Pick(wanted, available)
  {
    out, error := [], None;
    for i := 0 to |wanted|
      invariant Pick(wanted[..i], available) == Outcome(out, None)
    {
      assert wanted[..i + 1][..i] == wanted[..i];
      assert wanted[..i + 1] + wanted[i + 1..] == wanted;
      var found := FindCpu(available, wanted[i]);
      if found.None? {
        PickStops(wanted[..i + 1], wanted[i + 1..], available);
        return out, Some(NotAvailable(wanted[i]));
      }
      var already := FindCpu(out, wanted[i]);
      if already.None? {
        out := out + [found.value];
      }
    }
    assert wanted[..|wanted|] == wanted;
    error := None;
  }

  method ParseCpuSelection(input: string, available: seq<CpuInfo>, max: nat)
    returns (out: seq<CpuInfo>, error: Option<Error>)
    ensures Outcome(out, error) == Select(input, available, max)
    ensures AsksForAll(input) ==> error == None && out == available
  {
    AsksForAllIff(input);
    hide Tokens, Wanted, Pick, Trimmed, SameLetters, AsksForAll;
    var text := Trim(input);
    var all := EqualsIgnoreCase(text, "all");
    if text == "" || all {
      return available, None;
    }
    var normalized := ReplaceSeparators(text);
    var collected := Collect(normalized, max);
    match collected {
      case Err(e) =>
        return [], Some(e);
      case Ok(wanted) =>
        if wanted == [] {
          return [], Some(NoCores);
        }
        out, error := Choose(wanted, available);
    }
  }

  method FormatCpuList(cpus: seq<CpuInfo>) returns (text: string)
    ensures text == Format(cpus)
  {
    hide RunText, Tiles, IsRun, RunEnd;
    if cpus == [] {
      return "(none)";
    }
    text := "";
    var i := 0;
    ghost var runs: seq<Run> := [];
    assert runs + RunsFrom(cpus, 0) == RunsFrom(cpus, 0);
    assert RunsFrom(cpus, |cpus|) == [];
    hide RunsFrom;
    while i < |cpus|
      invariant i <= |cpus|
      invariant runs + RunsFrom(cpus, i) == RunsFrom(cpus, 0)
      invariant forall r :: r in runs ==> r.first <= r.last < |cpus|
      invariant text == Joined(cpus, runs) && (text == "" <==> runs == [])
    {
      var j := FindRunEnd(cpus, i);
      ghost var r := Run(i, j);
      assert (runs + [r])[..|runs|] == runs;
      NextRun(cpus, runs, i);
      runs := runs + [r];
      text := AppendRun(cpus, text, i, j);
      i := j + 1;
    }
    assert runs + [] == runs;
  }

  method FindRunEnd(cpus: seq<CpuInfo>, i: nat) returns (j: nat)
    requires i < |cpus|
    ensures j == RunEnd(cpus, i) && i <= j < |cpus|
  {
    j := i;
    while j + 1 < |cpus| && cpus[j + 1].index == Next(cpus[j].index)
      invariant i <= j < |cpus| && RunEnd(cpus, j) == RunEnd(cpus, i)
    {
      j := j + 1;
    }
  }

  method AppendRun(cpus: seq<CpuInfo>, text: string, i: nat, j: nat) returns (r: string)
    requires i <= j < |cpus|
    ensures r == (if text == "" then "" else text + ",") + RunText(cpus, Run(i, j)) && r != ""
  {
    r := text;
    if text != "" {
      r := r + ",";
    }
    r := r + ToString(cpus[i].index);
    if j > i {
      r := r + "-" + ToString(cpus[j].index);
    }
  }
}
