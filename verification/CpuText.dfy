/**
 The text functions under the core-list parser (src/sdcprobe.cpp:770-803, 841-862):
 trimming, comparing without case, splitting at spaces, and numbers, which follow strtol
 (section 7.22.1.4 of ISO C11) and std::to_string.
 */
module CpuText {
  /* ---------------- trimming and comparing ---------------- */

  predicate IsBlank(c: char) { c == ' ' || c == '\t' || c == '\r' || c == '\n' }

  function TrimLeft(s: string): string {
    if s != "" && IsBlank(s[0]) then TrimLeft(s[1..]) else s
  }

  function TrimRight(s: string): string {
    if s != "" && IsBlank(s[|s| - 1]) then TrimRight(s[..|s| - 1]) else s
  }

  function Trimmed(s: string): string { TrimRight(TrimLeft(s)) }

  lemma {:induction false} TrimLeftIs(s: string, i: nat)
    requires i <= |s| && forall k :: 0 <= k < i ==> IsBlank(s[k])
    requires i < |s| ==> !IsBlank(s[i])
    ensures TrimLeft(s) == s[i..]
  {
    if i > 0 {
      TrimLeftIs(s[1..], i - 1);
      assert s[1..][i - 1..] == s[i..];
    }
  }

  lemma {:induction false} TrimRightIs(s: string, j: nat)
    requires j <= |s| && forall k :: j <= k < |s| ==> IsBlank(s[k])
    requires j > 0 ==> !IsBlank(s[j - 1])
    ensures TrimRight(s) == s[..j]
  {
    if j < |s| {
      TrimRightIs(s[..|s| - 1], j);
      assert s[..|s| - 1][..j] == s[..j];
    }
  }

  // Only blanks before i and from j on.
  ghost predicate Surrounded(s: string, i: nat, j: nat) {
    && i <= j <= |s|
    && (forall k :: 0 <= k < i ==> s[k] in " \t\r\n")
    && (forall k :: j <= k < |s| ==> s[k] in " \t\r\n")
  }

  lemma {:induction false} TrimLeftPlace(s: string) returns (i: nat)
    ensures i <= |s| && TrimLeft(s) == s[i..] && forall k :: 0 <= k < i ==> s[k] in " \t\r\n"
  {
    i := 0;
    if s != "" && IsBlank(s[0]) {
      var j := TrimLeftPlace(s[1..]);
      i := j + 1;
      assert forall k :: 1 <= k < i ==> s[k] == s[1..][k - 1];
      assert s[1..][j..] == s[i..];
    }
  }

  lemma {:induction false} TrimRightPlace(s: string) returns (j: nat)
    ensures j <= |s| && TrimRight(s) == s[..j] && forall k :: j <= k < |s| ==> s[k] in " \t\r\n"
  {
    j := |s|;
    if s != "" && IsBlank(s[|s| - 1]) {
      j := TrimRightPlace(s[..|s| - 1]);
      assert s[..|s| - 1][..j] == s[..j];
    }
  }

  lemma TrimmedPlace(s: string) returns (i: nat, j: nat)
    ensures Surrounded(s, i, j) && Trimmed(s) == s[i..j]
  {
    i := TrimLeftPlace(s);
    var n := TrimRightPlace(s[i..]);
    j := i + n;
    assert forall k :: j <= k < |s| ==> s[k] == s[i..][k - i];
    assert s[i..][..n] == s[i..j];
  }

  // What lies between the blanks at both ends.
  lemma WordTrimmed(s: string, i: nat, j: nat)
    requires Surrounded(s, i, j)
    requires i < j ==> s[i] !in " \t\r\n" && s[j - 1] !in " \t\r\n"
    ensures Trimmed(s) == s[i..j]
  {
    if i < j {
      TrimLeftIs(s, i);
      assert s[i..][j - i - 1] == s[j - 1];
      TrimRightIs(s[i..], j - i);
      assert s[i..][..j - i] == s[i..j];
    } else {
      TrimLeftIs(s, |s|);
      assert s[|s|..] == "";
    }
  }

  method Trim(text: string) returns (r: string)
    ensures r == Trimmed(text)
    ensures exists i: nat, j: nat :: Surrounded(text, i, j) && r == text[i..j]
    ensures r != "" ==> r[0] !in " \t\r\n" && r[|r| - 1] !in " \t\r\n"
  {
    var first := 0;
    while first < |text| && IsBlank(text[first])
      invariant first <= |text|
      invariant TrimLeft(text[first..]) == TrimLeft(text)
    {
      assert text[first..][1..] == text[first + 1..];
      first := first + 1;
    }
    var last := |text|;
    assert text[first..last] == text[first..];
    while last > first && IsBlank(text[last - 1])
      invariant first <= last <= |text|
      invariant TrimRight(text[first..last]) == TrimRight(text[first..])
    {
      var s := text[first..last];
      assert s[..|s| - 1] == text[first..last - 1];
      last := last - 1;
    }
    r := text[first..last];
    hide Surrounded;
    ghost var i, j := TrimmedPlace(text);
  }

  function Lower(c: char): char {
    if 'A' <= c <= 'Z' then c - 'A' + 'a' else c
  }

  // Equal but for the case of the letters A to Z.
  predicate SameLetters(s: string, t: string) {
    |s| == |t| && forall i :: 0 <= i < |s| ==> Lower(s[i]) == Lower(t[i])
  }

  // Character by character the same, or a capital and its small letter.
  predicate SameButForCase(c: char, d: char) {
    c == d || ('A' <= c <= 'Z' && d as int == c as int + 32) || ('A' <= d <= 'Z' && c as int == d as int + 32)
  }

  lemma LowerIff(c: char, d: char)
    ensures Lower(c) == Lower(d) <==> SameButForCase(c, d)
  {
  }

  method EqualsIgnoreCase(text: string, literal: string) returns (same: bool)
    ensures same <==> SameLetters(text, literal)
    ensures same <==> |text| == |literal| && forall i :: 0 <= i < |text| ==> SameButForCase(text[i], literal[i])
  {
    var i := 0;
    while i < |text| && i < |literal|
      invariant i <= |text| && i <= |literal|
      invariant forall j :: 0 <= j < i ==> Lower(text[j]) == Lower(literal[j])
    {
      if Lower(text[i]) != Lower(literal[i]) {
        LowerIff(text[i], literal[i]);
        return false;
      }
      i := i + 1;
    }
    same := i == |text| && i == |literal|;
    forall j | 0 <= j < |text| && j < |literal|
      ensures Lower(text[j]) == Lower(literal[j]) <==> SameButForCase(text[j], literal[j])
    {
      LowerIff(text[j], literal[j]);
    }
  }

  /* ---------------- tokens ---------------- */

  function Spaced(c: char): char { if c == ',' || c == ';' then ' ' else c }

  function Normalized(s: string): (r: string)
    ensures |r| == |s| && forall i :: 0 <= i < |s| ==> r[i] == Spaced(s[i])
    ensures forall i :: 0 <= i < |s| ==> r[i] == if s[i] == ',' || s[i] == ';' then ' ' else s[i]
  {
    seq(|s|, i requires 0 <= i < |s| => Spaced(s[i]))
  }

  // Where the word at the start of s ends.
  function WordEnd(s: string): (n: nat)
    ensures n <= |s| && forall i :: 0 <= i < n ==> s[i] != ' '
    ensures n < |s| ==> s[n] == ' '
  {
    if s == "" || s[0] == ' ' then 0 else 1 + WordEnd(s[1..])
  }

  // The maximal runs of characters other than spaces.
  function Tokens(s: string): (r: seq<string>)
    ensures forall t :: t in r ==> t != ""
    decreases |s|
  {
    if s == "" then []
    else if s[0] == ' ' then Tokens(s[1..])
    else [s[..WordEnd(s)]] + Tokens(s[WordEnd(s)..])
  }

  predicate IsWord(t: string) { t != "" && ' ' !in t }

  lemma WordEndIs(s: string, n: nat)
    requires n <= |s| && (n < |s| ==> s[n] == ' ')
    requires forall i :: 0 <= i < n ==> s[i] != ' '
    ensures WordEnd(s) == n
  {
    if n != 0 { WordEndIs(s[1..], n - 1); }
  }

  lemma {:induction false} OneToken(t: string)
    requires IsWord(t)
    ensures Tokens(t) == [t]
  {
    WordEndIs(t, |t|);
    assert t[|t|..] == "";
    assert t[..|t|] == t;
    assert Tokens("") == [];
  }

  // A word after a space is one more token.
  lemma {:induction false} TokensSnoc(s: string, t: string)
    requires IsWord(t)
    ensures Tokens(s + " " + t) == Tokens(s) + [t]
    decreases |s|
  {
    var w := s + " " + t;
    if s == "" {
      assert w[1..] == t;
      OneToken(t);
    } else if s[0] == ' ' {
      assert w[1..] == s[1..] + " " + t;
      TokensSnoc(s[1..], t);
    } else {
      var n := WordEnd(s);
      assert forall i :: 0 <= i < n ==> w[i] == s[i];
      WordEndIs(w, n);
      assert w[..n] == s[..n] && w[n..] == s[n..] + " " + t;
      TokensSnoc(s[n..], t);
    }
  }

  // A space at the end adds none.
  lemma {:induction false} TokensSpace(s: string)
    ensures Tokens(s + " ") == Tokens(s)
    decreases |s|
  {
    var w := s + " ";
    if s == "" {
      assert w[1..] == "" && Tokens("") == [];
    } else if s[0] == ' ' {
      assert w[1..] == s[1..] + " ";
      TokensSpace(s[1..]);
    } else {
      var n := WordEnd(s);
      assert forall i :: 0 <= i < n ==> w[i] == s[i];
      WordEndIs(w, n);
      assert w[..n] == s[..n] && w[n..] == s[n..] + " ";
      TokensSpace(s[n..]);
    }
  }

  lemma {:induction false} TokensOfSpaces(s: string)
    requires forall i :: 0 <= i < |s| ==> s[i] == ' '
    ensures Tokens(s) == []
  {
    if s != "" { TokensOfSpaces(s[1..]); }
  }

  /* ---------------- numbers ---------------- */

  predicate IsDigit(c: char) { '0' <= c <= '9' }

  predicate IsSpace(c: char) { IsBlank(c) || c == '\U{B}' || c == '\U{C}' }

  function DigitValue(c: char): nat
    requires IsDigit(c)
  {
    c as int - '0' as int
  }

  function DigitOf(n: nat): (c: char)
    requires n < 10
    ensures IsDigit(c) && DigitValue(c) == n
  {
    "0123456789"[n]
  }

  predicate AllDigits(s: string) { forall c :: c in s ==> IsDigit(c) }

  function Value(s: string): nat
    requires AllDigits(s)
  {
    if s == "" then 0 else 10 * Value(s[..|s| - 1]) + DigitValue(s[|s| - 1])
  }

  function SpaceRun(s: string): (n: nat)
    ensures n <= |s|
  {
    if s != "" && IsSpace(s[0]) then 1 + SpaceRun(s[1..]) else 0
  }

  function DigitRun(s: string): (n: nat)
    ensures n <= |s| && AllDigits(s[..n])
  {
    if s != "" && IsDigit(s[0]) then
      assert forall c :: c in s[..1 + DigitRun(s[1..])] ==> c == s[0] || c in s[1..][..DigitRun(s[1..])];
      1 + DigitRun(s[1..])
    else 0
  }

  // A long between -max - 1 and max.
  function Clamp(v: int, max: nat): int {
    var least := 0 - max - 1;
    if v > max then max else if v < least then least else v
  }

  // The value, and how much of the string was used.
  datatype Number = Number(value: int, end: nat)

  // The number at the start of a string: spaces, a sign, digits; zero, and nothing
  // used, without a digit.
  function Scan(s: string): Number {
    var i := SpaceRun(s);
    var signed := i < |s| && (s[i] == '+' || s[i] == '-');
    var j := if signed then i + 1 else i;
    var k := DigitRun(s[j..]);
    if k == 0 then Number(0, 0)
    else
      var v: int := Value(s[j..][..k]);
      Number(if signed && s[i] == '-' then 0 - v else v, j + k)
  }

  function Strtol(s: string, max: nat): Number {
    Number(Clamp(Scan(s).value, max), Scan(s).end)
  }

  lemma {:induction false} SpaceRunIs(s: string, n: nat)
    requires n <= |s| && forall i :: 0 <= i < n ==> IsSpace(s[i])
    requires n < |s| ==> !IsSpace(s[n])
    ensures SpaceRun(s) == n
  {
    if n > 0 { SpaceRunIs(s[1..], n - 1); }
  }

  lemma {:induction false} DigitRunIs(s: string, n: nat)
    requires n <= |s| && forall i :: 0 <= i < n ==> IsDigit(s[i])
    requires n < |s| ==> !IsDigit(s[n])
    ensures DigitRun(s) == n
  {
    if n > 0 { DigitRunIs(s[1..], n - 1); }
  }

  // What is read ends at the first character that cannot belong to a number.
  lemma ScanUses(s: string, k: nat)
    requires k < |s| && !IsDigit(s[k]) && !IsSpace(s[k]) && s[k] != '+' && s[k] != '-'
    ensures Scan(s).end <= k
  {
    SpacesBefore(s, k);
    var i := SpaceRun(s);
    var j := if i < |s| && (s[i] == '+' || s[i] == '-') then i + 1 else i;
    DigitsBefore(s[j..], k - j);
  }

  lemma {:induction false} SpacesBefore(s: string, k: nat)
    requires k < |s| && !IsSpace(s[k])
    ensures SpaceRun(s) <= k
  {
    if k > 0 { SpacesBefore(s[1..], k - 1); }
  }

  lemma {:induction false} DigitsBefore(s: string, k: nat)
    requires k < |s| && !IsDigit(s[k])
    ensures DigitRun(s) <= k
  {
    if k > 0 { DigitsBefore(s[1..], k - 1); }
  }

  lemma IsSpaceIff(c: char)
    ensures IsSpace(c) <==> c == ' ' || 9 <= c as int <= 13
  {
  }

  lemma ScanParts(s: string, i: nat, j: nat, k: nat)
    requires i == SpaceRun(s) && i <= j <= k <= |s| && k - j == DigitRun(s[j..])
    requires j == if i < |s| && (s[i] == '+' || s[i] == '-') then i + 1 else i
    ensures AllDigits(s[j..k])
    ensures Scan(s) == if j == k then Number(0, 0)
                       else Number(if j > i && s[i] == '-' then 0 - Value(s[j..k]) else Value(s[j..k]), k)
  {
    DigitsAt(s, j, k);
    hide SpaceRun, DigitRun, Value, AllDigits;
  }

  lemma DigitsAt(s: string, j: nat, k: nat)
    requires j <= k <= |s| && k - j == DigitRun(s[j..])
    ensures s[j..][..k - j] == s[j..k] && AllDigits(s[j..k])
  {
    assert s[j..][..k - j] == s[j..k];
  }

  // White space up to i, a sign or none up to j, digits up to k, and whatever follows: the
  // digits are read, and a number too large for a long is cut to the nearest one. Without
  // digits nothing is used.
  lemma StrtolMeans(s: string, i: nat, j: nat, k: nat, max: nat)
    requires i <= j <= k <= |s|
    requires forall n :: 0 <= n < i ==> s[n] == ' ' || 9 <= s[n] as int <= 13
    requires i < |s| ==> s[i] != ' ' && !(9 <= s[i] as int <= 13)
    requires j == if i < |s| && (s[i] == '+' || s[i] == '-') then i + 1 else i
    requires forall n :: j <= n < k ==> '0' <= s[n] <= '9'
    requires k < |s| ==> !('0' <= s[k] <= '9')
    ensures AllDigits(s[j..k])
    ensures var v: int := if j == k then 0 else if j > i && s[i] == '-' then 0 - Value(s[j..k]) else Value(s[j..k]);
            && Strtol(s, max).end == (if j == k then 0 else k)
            && Strtol(s, max).value == if v > max then max else if v < 0 - max - 1 then 0 - max - 1 else v
  {
    forall c: char ensures IsSpace(c) <==> c == ' ' || 9 <= c as int <= 13 { IsSpaceIff(c); }
    hide SpaceRun, DigitRun, IsSpace, Value, Scan;
    SpaceRunIs(s, i);
    DigitRunIs(s[j..], k - j);
    ScanParts(s, i, j, k);
  }

  // What c_str() shows: everything before the first NUL.
  function CString(s: string): string {
    if s == "" || s[0] == '\0' then "" else [s[0]] + CString(s[1..])
  }

  lemma {:induction false} CStringIs(s: string, rest: string)
    requires '\0' !in s
    ensures CString(s) == s && CString(s + "\0" + rest) == s
  {
    var t := s + "\0" + rest;
    if s != "" {
      assert t[0] == s[0] && t[1..] == s[1..] + "\0" + rest;
      CStringIs(s[1..], rest);
    }
  }

  // Decimal digits, without a zero in front.
  function ToString(n: nat): (s: string)
    ensures s != "" && AllDigits(s) && (n > 0 ==> s[0] != '0')
  {
    if n < 10 then [DigitOf(n)] else ToString(n / 10) + [DigitOf(n % 10)]
  }

  lemma {:induction false} ValueOfToString(n: nat)
    ensures Value(ToString(n)) == n
  {
    var s := ToString(n);
    if n < 10 {
      assert s[..|s| - 1] == "";
    } else {
      ValueOfToString(n / 10);
      assert s[..|s| - 1] == ToString(n / 10);
    }
  }

  // Numbers are decimal.
  lemma Decimal()
    ensures ToString(4095) == "4095" && Value("4095") == 4095
  {
    assert ToString(4) == "4";
    assert ToString(40) == "40";
    assert ToString(409) == "409";
    ValueOfToString(4095);
  }

  lemma DigitRunAll(s: string)
    requires AllDigits(s)
    ensures DigitRun(s) == |s|
  {
    if s != "" { DigitRunAll(s[1..]); }
  }

  lemma CStringOfDigits(s: string)
    requires AllDigits(s)
    ensures CString(s) == s
  {
    if s != "" {
      assert s[0] in s;
      CStringOfDigits(s[1..]);
    }
  }

  // Reading back a printed number uses all of it.
  lemma {:induction false} StrtolOfToString(n: nat, max: nat)
    ensures CString(ToString(n)) == ToString(n)
    ensures Strtol(ToString(n), max) == Number(if n > max then max else n, |ToString(n)|)
  {
    var s := ToString(n);
    CStringOfDigits(s);
    DigitRunAll(s);
    ValueOfToString(n);
    assert s[0] in s;
    assert s[0..] == s && s[..|s|] == s;
  }
}
