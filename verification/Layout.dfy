/**
 Where the transplanted functions go (tools/gen_rbx_payload.py:308-322), and how a
 report finds the function an address belongs to (src/rbx.cpp:166-174).

 Every function keeps its original address modulo the page size. The next function is
 always the one that needs the least padding.
 */
module Layout {
  import opened Wrappers
  import opened Binary

  const PAGE: int := 4096

  // A function placed at an offset from the page-aligned start of the code, after pad
  // bytes of filling.
  datatype Placed = Placed(f: Symbol, pad: nat, offset: nat)

  function Padding(f: Symbol, cursor: nat): nat {
    (f.addr - cursor) % PAGE
  }

  function End(order: seq<Placed>): nat {
    if order == [] then 0 else order[|order| - 1].offset + order[|order| - 1].f.size
  }

  function Functions(order: seq<Placed>): (fs: seq<Symbol>)
    ensures |fs| == |order|
  {
    seq(|order|, i requires 0 <= i < |order| => order[i].f)
  }

  // Each function follows the one before it, at its own address modulo the page size,
  // with less than a page of padding.
  ghost predicate PageCongruent(order: seq<Placed>) {
    forall i :: 0 <= i < |order| ==>
      && order[i].pad == Padding(order[i].f, End(order[..i]))
      && order[i].offset == End(order[..i]) + order[i].pad
      && order[i].pad < PAGE
      && (order[i].offset - order[i].f.addr) % PAGE == 0
  }

  // No function left for later would have needed less padding at its place.
  ghost predicate Greedy(order: seq<Placed>, remaining: seq<Symbol>) {
    && (forall i, j :: 0 <= i < j < |order| ==> order[i].pad <= Padding(order[j].f, End(order[..i])))
    && (forall i, g :: 0 <= i < |order| && g in remaining ==> order[i].pad <= Padding(g, End(order[..i])))
  }

  ghost predicate SortedByPage(fs: seq<Symbol>) {
    forall i, j :: 0 <= i < j < |fs| ==> fs[i].addr % PAGE <= fs[j].addr % PAGE
  }

  method LayOut(sorted: seq<Symbol>) returns (order: seq<Placed>)
    requires SortedByPage(sorted)
    ensures PageCongruent(order)
    ensures Greedy(order, [])
    ensures multiset(Functions(order)) == multiset(sorted)
  {
    hide Padding, Laid, PageCongruent, Greedy, Functions;
    LaidStart(sorted);
    var cursor: nat := 0;
    var remaining := sorted;
    order := [];
    while |remaining| > 0
      invariant cursor == End(order)
      invariant Laid(order, remaining, sorted)
      decreases |remaining|
    {
      var i := Pick(remaining, cursor % PAGE);
      var f := remaining[i];
      var rest := remaining[..i] + remaining[i + 1..];
      var pad := Padding(f, cursor);
      RemainingSorted(order, remaining, sorted);
      PickNeedsLeast(remaining, cursor, i);
      PlaceNext(order, remaining, sorted, i, pad);
      order := order + [Placed(f, pad, cursor + pad)];
      remaining := rest;
      cursor := cursor + pad + f.size;
    }
    LaidEnd(order, sorted);
  }

  // The first function at or past the wanted offset in the page, else the first of all.
  method Pick(remaining: seq<Symbol>, want: int) returns (i: nat)
    requires |remaining| > 0
    ensures i < |remaining|
    ensures remaining[i].addr % PAGE >= want ==> forall j :: 0 <= j < i ==> remaining[j].addr % PAGE < want
    ensures remaining[i].addr % PAGE < want ==>
              i == 0 && forall j :: 0 <= j < |remaining| ==> remaining[j].addr % PAGE < want
  {
    i := 0;
    while i < |remaining|
      invariant i <= |remaining|
      invariant forall j :: 0 <= j < i ==> remaining[j].addr % PAGE < want
    {
      if remaining[i].addr % PAGE >= want {
        return;
      }
      i := i + 1;
    }
    i := 0;
  }

  lemma PaddingValue(f: Symbol, cursor: nat)
    ensures Padding(f, cursor) < PAGE
    ensures (cursor + Padding(f, cursor) - f.addr) % PAGE == 0
    ensures var m, want := f.addr % PAGE, cursor % PAGE;
            Padding(f, cursor) == if m >= want then m - want else m - want + PAGE
  {
    var m, want := f.addr % PAGE, cursor % PAGE;
    assert f.addr - cursor == PAGE * (f.addr / PAGE - cursor / PAGE) + (m - want);
  }

  lemma PickNeedsLeast(remaining: seq<Symbol>, cursor: nat, i: nat)
    requires SortedByPage(remaining) && i < |remaining|
    requires var want := cursor % PAGE;
             if remaining[i].addr % PAGE >= want
             then forall j :: 0 <= j < i ==> remaining[j].addr % PAGE < want
             else i == 0 && forall j :: 0 <= j < |remaining| ==> remaining[j].addr % PAGE < want
    ensures forall g :: g in remaining ==> Padding(remaining[i], cursor) <= Padding(g, cursor)
  {
    hide Padding;
    PaddingValue(remaining[i], cursor);
    forall g | g in remaining
      ensures Padding(remaining[i], cursor) <= Padding(g, cursor)
    {
      PaddingValue(g, cursor);
      var j :| 0 <= j < |remaining| && remaining[j] == g;
    }
  }

  // What the loop keeps.
  ghost predicate Laid(order: seq<Placed>, remaining: seq<Symbol>, sorted: seq<Symbol>) {
    && SortedByPage(remaining)
    && PageCongruent(order)
    && Greedy(order, remaining)
    && multiset(Functions(order)) + multiset(remaining) == multiset(sorted)
  }

  lemma LaidStart(sorted: seq<Symbol>)
    requires SortedByPage(sorted)
    ensures Laid([], sorted, sorted)
  {
  }

  lemma LaidEnd(order: seq<Placed>, sorted: seq<Symbol>)
    requires Laid(order, [], sorted)
    ensures PageCongruent(order) && Greedy(order, []) && multiset(Functions(order)) == multiset(sorted)
  {
  }

  lemma RemainingSorted(order: seq<Placed>, remaining: seq<Symbol>, sorted: seq<Symbol>)
    requires Laid(order, remaining, sorted)
    ensures SortedByPage(remaining)
  {
  }

  lemma PlaceNext(order: seq<Placed>, remaining: seq<Symbol>, sorted: seq<Symbol>, i: nat, pad: nat)
    requires i < |remaining| && Laid(order, remaining, sorted)
    requires pad == Padding(remaining[i], End(order))
    requires forall g :: g in remaining ==> pad <= Padding(g, End(order))
    ensures Laid(order + [Placed(remaining[i], pad, End(order) + pad)], remaining[..i] + remaining[i + 1..], sorted)
  {
    hide Padding, PageCongruent, Greedy, End;
    var next := Placed(remaining[i], pad, End(order) + pad);
    PlaceCongruent(order, next);
    PlaceGreedy(order, remaining, i, next);
    assert remaining == remaining[..i] + [remaining[i]] + remaining[i + 1..];
    assert Functions(order + [next]) == Functions(order) + [remaining[i]];
  }

  lemma PlaceCongruent(order: seq<Placed>, next: Placed)
    requires PageCongruent(order)
    requires next.pad == Padding(next.f, End(order)) && next.offset == End(order) + next.pad
    ensures PageCongruent(order + [next])
  {
    hide Padding, End;
    PaddingValue(next.f, End(order));
    Prefixes(order, next);
  }

  lemma PlaceGreedy(order: seq<Placed>, remaining: seq<Symbol>, i: nat, next: Placed)
    requires i < |remaining| && Greedy(order, remaining) && next.f == remaining[i]
    requires forall g :: g in remaining ==> next.pad <= Padding(g, End(order))
    ensures Greedy(order + [next], remaining[..i] + remaining[i + 1..])
  {
    hide Padding, End;
    Prefixes(order, next);
    var longer, rest := order + [next], remaining[..i] + remaining[i + 1..];
    assert longer[..|order|] == order;
    forall a, b | 0 <= a < b < |longer|
      ensures longer[a].pad <= Padding(longer[b].f, End(longer[..a]))
    {
      assert longer[..a] == order[..a];
      if b == |order| { assert longer[b].f in remaining; }
    }
    forall a, g | 0 <= a < |longer| && g in rest
      ensures longer[a].pad <= Padding(g, End(longer[..a]))
    {
      assert g in remaining;
      assert longer[..a] == order[..a];
    }
  }

  lemma Prefixes(order: seq<Placed>, next: Placed)
    ensures forall k :: 0 <= k <= |order| ==> (order + [next])[..k] == order[..k]
    ensures order[..|order|] == order
  {
  }

  /* ---------------- placed functions do not overlap ---------------- */

  lemma {:induction false} OffsetsIncrease(order: seq<Placed>, i: nat, j: nat)
    requires PageCongruent(order) && i < j < |order|
    ensures order[i].offset + order[i].f.size <= order[j].offset
    decreases j
  {
    var before := order[..j];
    assert before[|before| - 1] == order[j - 1];
    if i < j - 1 { OffsetsIncrease(order, i, j - 1); }
  }

  /* ---------------- the table for reports ---------------- */

  datatype Entry = Entry(start: int, size: nat, original: int, name: string)

  predicate Holds(e: Entry, address: int) {
    e.start <= address < e.start + e.size
  }

  // r is the first entry that holds the address, among those before the first whose
  // start is null.
  ghost predicate FoundIn(table: seq<Entry>, address: int, r: Option<nat>) {
    match r
    case Some(i) => i < |table| && Holds(table[i], address)
                    && forall j :: 0 <= j <= i ==> table[j].start != 0 && (j < i ==> !Holds(table[j], address))
    case None => exists n: nat :: n < |table| && table[n].start == 0
                                  && forall j :: 0 <= j < n ==> table[j].start != 0 && !Holds(table[j], address)
  }

  // Entries up to the one whose start is null.
  method FindFunction(table: seq<Entry>, address: int) returns (r: Option<nat>)
    requires exists i :: 0 <= i < |table| && table[i].start == 0
    ensures FoundIn(table, address, r)
  {
    var i: nat := 0;
    while table[i].start != 0
      invariant i < |table|
      invariant forall j :: 0 <= j < i ==> table[j].start != 0 && !Holds(table[j], address)
      decreases |table| - i
    {
      if Holds(table[i], address) {
        return Some(i);
      }
      i := i + 1;
    }
    return None;
  }

  // The table the generator writes: memset, the functions in the order they were
  // placed, the trap stubs, and the terminator.
  function Table(memset: int, codeBase: int, order: seq<Placed>, stubs: seq<Entry>): seq<Entry> {
    [Entry(memset, 0x140, 0, "memset")] + FunctionEntries(codeBase, order) + stubs + [Entry(0, 0, 0, "")]
  }

  function FunctionEntries(codeBase: int, order: seq<Placed>): (es: seq<Entry>)
    ensures |es| == |order|
  {
    seq(|order|, i requires 0 <= i < |order| =>
      Entry(codeBase + order[i].offset, order[i].f.size, order[i].f.addr, order[i].f.name))
  }

  // The stubs lie behind memset and before the code.
  ghost predicate StubsBefore(memset: int, codeBase: int, stubs: seq<Entry>) {
    && 0 < memset && memset + 0x140 <= codeBase
    && forall s :: s in stubs ==> memset + 0x140 <= s.start && s.start + s.size <= codeBase
  }

  // A report names the right function, and the right offset in it, for every address
  // inside every transplanted function.
  lemma FindsOwnFunction(memset: int, codeBase: int, order: seq<Placed>, stubs: seq<Entry>, k: nat, off: nat,
                         r: Option<nat>)
    requires PageCongruent(order) && StubsBefore(memset, codeBase, stubs)
    requires k < |order| && off < order[k].f.size
    requires FoundIn(Table(memset, codeBase, order, stubs), codeBase + order[k].offset + off, r)
    ensures r == Some(1 + k) && 1 + k < |Table(memset, codeBase, order, stubs)|
    ensures var e := Table(memset, codeBase, order, stubs)[1 + k];
            e.name == order[k].f.name && e.original == order[k].f.addr
            && codeBase + order[k].offset + off - e.start == off
  {
    var table, address := Table(memset, codeBase, order, stubs), codeBase + order[k].offset + off;
    assert Holds(table[1 + k], address);
    forall i | 0 <= i < |table| && i != 1 + k
      ensures !Holds(table[i], address)
      ensures i <= 1 + k ==> table[i].start != 0
    {
      if 1 <= i < 1 + |order| {
        assert table[i] == FunctionEntries(codeBase, order)[i - 1];
        if i - 1 < k { OffsetsIncrease(order, i - 1, k); } else { OffsetsIncrease(order, k, i - 1); }
      } else if 1 + |order| <= i < |table| - 1 {
        assert table[i] == stubs[i - 1 - |order|];
        assert table[i] in stubs;
      }
    }
  }
}
