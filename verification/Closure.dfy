/**
 The call-graph closure of the payload generator (tools/gen_rbx_payload.py:191-245): a
 worklist from the entry function, the functions it chooses, and the targets that
 become trap stubs.
 */
module Closure {
  import opened Wrappers
  import opened Words
  import opened Binary

  datatype Failure = NoInstruction(addr: int, name: string)

  // The instructions from addr up to end; None when one is missing.
  function BodyFrom(p: Program, addr: int, end: int): (r: Option<seq<Line>>)
    requires p.Valid()
    decreases end - addr
  {
    if addr >= end then Some([])
    else if addr !in p.insns then None
    else
      var insn := p.insns[addr];
      Prepend([Line(addr, insn)], BodyFrom(p, addr + |insn.raw|, end))
  }

  function Prepend(lines: seq<Line>, rest: Option<seq<Line>>): Option<seq<Line>> {
    if rest.None? then None else Some(lines + rest.value)
  }

  lemma PrependNothing(rest: Option<seq<Line>>)
    ensures Prepend([], rest) == rest
  {
    if rest.Some? { assert [] + rest.value == rest.value; }
  }

  lemma PrependMore(lines: seq<Line>, line: Line, rest: Option<seq<Line>>)
    ensures Prepend(lines + [line], rest) == Prepend(lines, Prepend([line], rest))
  {
    if rest.Some? { assert lines + [line] + rest.value == lines + ([line] + rest.value); }
  }

  function BodyOf(p: Program, f: Symbol): Option<seq<Line>>
    requires p.Valid()
  {
    BodyFrom(p, f.addr, f.addr + f.size)
  }

  predicate ValidLines(lines: seq<Line>) {
    forall line :: line in lines ==> line.insn.WellFormed()
  }

  lemma {:induction false} BodyIsValid(p: Program, addr: int, end: int)
    requires p.Valid()
    ensures BodyFrom(p, addr, end).Some? ==> ValidLines(BodyFrom(p, addr, end).value)
    decreases end - addr
  {
    if addr < end && addr in p.insns {
      BodyIsValid(p, addr + |p.insns[addr].raw|, end);
    }
  }

  // A line that branches out of f to the given target.
  predicate Exits(f: Symbol, line: Line, target: int)
    requires line.insn.WellFormed()
  {
    line.insn.Direct() && line.insn.Target(line.addr) == target && !Inside(f, target)
  }

  predicate Copied(p: Program, target: int) {
    p.ByAddr(target).Some? && p.ByAddr(target).value.name in p.copied
  }

  // f branches out to the given target.
  ghost predicate BranchesTo(p: Program, f: Symbol, target: int)
    requires p.Valid()
  {
    BodyIsValid(p, f.addr, f.addr + f.size);
    BodyOf(p, f).Some? && exists line :: line in BodyOf(p, f).value && Exits(f, line, target)
  }

  /* ---------------- reachability ---------------- */

  // The symbol that stands for an address: the entry keeps its own, even when another
  // symbol has the same address.
  function SymbolFor(p: Program, entry: Symbol, addr: int): (f: Symbol)
    requires addr == entry.addr || p.ByAddr(addr).Some?
    ensures f.addr == addr
  {
    if addr == entry.addr then entry else p.ByAddr(addr).value
  }

  ghost predicate Edge(p: Program, entry: Symbol, from: int, to: int)
    requires p.Valid()
  {
    && (from == entry.addr || p.ByAddr(from).Some?)
    && BranchesTo(p, SymbolFor(p, entry, from), to)
    && Copied(p, to)
  }

  ghost predicate Path(p: Program, entry: Symbol, path: seq<int>)
    requires p.Valid()
  {
    && |path| > 0 && path[0] == entry.addr
    && forall i :: 0 <= i < |path| - 1 ==> Edge(p, entry, path[i], path[i + 1])
  }

  ghost predicate Reachable(p: Program, entry: Symbol, addr: int)
    requires p.Valid()
  {
    exists path :: Path(p, entry, path) && path[|path| - 1] == addr
  }

  lemma ReachableStep(p: Program, entry: Symbol, from: int, to: int)
    requires p.Valid() && Reachable(p, entry, from) && Edge(p, entry, from, to)
    ensures Reachable(p, entry, to)
  {
    var path :| Path(p, entry, path) && path[|path| - 1] == from;
    var longer := path + [to];
    assert Path(p, entry, longer) by {
      forall i | 0 <= i < |longer| - 1
        ensures Edge(p, entry, longer[i], longer[i + 1])
      {
        if i < |path| - 1 { assert Edge(p, entry, path[i], path[i + 1]); }
      }
    }
    assert longer[|longer| - 1] == to;
  }

  // A set that holds the entry and is closed under edges holds everything reachable.
  lemma {:induction false} ClosedHoldsPath(p: Program, entry: Symbol, path: seq<int>, s: set<int>)
    requires p.Valid() && Path(p, entry, path) && entry.addr in s
    requires forall a, t :: a in s && Edge(p, entry, a, t) ==> t in s
    ensures path[|path| - 1] in s
  {
    if |path| > 1 {
      var shorter := path[..|path| - 1];
      assert Path(p, entry, shorter) by {
        forall i | 0 <= i < |shorter| - 1
          ensures Edge(p, entry, shorter[i], shorter[i + 1])
        {
          assert Edge(p, entry, path[i], path[i + 1]);
        }
      }
      ClosedHoldsPath(p, entry, shorter, s);
      assert Edge(p, entry, path[|path| - 2], path[|path| - 1]);
    }
  }

  /* ---------------- the worklist ---------------- */

  // What the generator keeps: chosen functions by address, trap targets, and bodies.
  class Selection {
    var chosen: map<int, Symbol>
    var traps: set<int>
    var body: map<int, seq<Line>>
    var work: seq<Symbol>

    constructor (entry: Symbol)
      ensures chosen == map[] && traps == {} && body == map[] && work == [entry]
    {
      chosen, traps, body, work := map[], {}, map[], [entry];
    }

    // Walks one function. None when an instruction is missing.
    method ReadBody(p: Program, f: Symbol) returns (r: Result<seq<Line>, Failure>)
      requires p.Valid()
      ensures match r
              case Ok(lines) => BodyOf(p, f) == Some(lines)
              case Err(e) => BodyOf(p, f) == None
    {
      var lines: seq<Line> := [];
      var addr, end := f.addr, f.addr + f.size;
      PrependNothing(BodyOf(p, f));
      while addr < end
        invariant BodyOf(p, f) == Prepend(lines, BodyFrom(p, addr, end))
        decreases end - addr
      {
        if addr !in p.insns {
          return Err(NoInstruction(addr, f.name));
        }
        var insn := p.insns[addr];
        PrependMore(lines, Line(addr, insn), BodyFrom(p, addr + |insn.raw|, end));
        lines := lines + [Line(addr, insn)];
        addr := addr + |insn.raw|;
      }
      assert lines + [] == lines;
      return Ok(lines);
    }

    // Sorts the branches out of f into further work and trap targets.
    method ScanBranches(p: Program, f: Symbol, lines: seq<Line>)
      requires p.Valid() && ValidLines(lines)
      modifies this`traps, this`work
      ensures Scanned(p, f, lines, old(work), work)
      ensures forall t :: t in traps <==>
                t in old(traps) || (!Copied(p, t) && exists line :: line in lines && Exits(f, line, t))
    {
      for i := 0 to |lines|
        invariant old(work) <= work
        invariant forall w :: w in work ==>
                    w in old(work) || (p.ByAddr(w.addr) == Some(w) && Copied(p, w.addr)
                                       && exists line :: line in lines[..i] && Exits(f, line, w.addr))
        invariant forall line, t :: line in lines[..i] && Exits(f, line, t) && Copied(p, t) ==>
                    InWork(work, t)
        invariant forall t :: t in traps <==>
                    t in old(traps) || (!Copied(p, t) && exists line :: line in lines[..i] && Exits(f, line, t))
      {
        ghost var before := work;
        var line := lines[i];
        assert lines[..i + 1] == lines[..i] + [line];
        if line.insn.Direct() {
          var target := line.insn.Target(line.addr);
          if !Inside(f, target) {
            assert Exits(f, line, target);
            var callee := p.ByAddr(target);
            if callee.None? {
              traps := traps + {target};
            } else if callee.value.name in p.copied {
              work := work + [callee.value];
              assert callee.value in work;
            } else {
              traps := traps + {target};
            }
          }
        }
        assert before <= work;
      }
      assert lines[..|lines|] == lines;
    }
  
    // Takes one function off the worklist: it is chosen, and its branches are sorted.
    method Choose(p: Program, entry: Symbol, f: Symbol) returns (r: Result<(), Failure>)
      requires p.Valid() && Sound(p, entry, chosen, body) && TrapsExact(p, chosen, traps)
      requires AllWaiting(p, entry, work) && Waiting(p, entry, f) && f == SymbolFor(p, entry, f.addr)
      requires f.addr !in chosen
      requires forall a, t :: a in chosen && Edge(p, entry, a, t) ==> t in chosen || t == f.addr || InWork(work, t)
      modifies this
      ensures r.Ok? ==>
                && Sound(p, entry, chosen, body) && TrapsExact(p, chosen, traps)
                && Pending(p, entry, chosen, work) && AllWaiting(p, entry, work)
                && chosen == old(chosen)[f.addr := f]
      ensures r.Err? ==> BodyOf(p, f) == None
    {
      hide BodyOf, Sound, Pending, TrapsExact, Reachable, Waiting, AllWaiting, Copied, Program.ByAddr, Edge, InWork;
      var lines := ReadBody(p, f);
      if lines.Err? {
        return Err(lines.error);
      }
      LinesAreValid(p, f, lines.value);
      chosen := chosen[f.addr := f];
      body := body[f.addr := lines.value];
      ScanBranches(p, f, lines.value);
      ChooseKeepsSound(p, entry, old(chosen), old(body), f, lines.value);
      ScanKeepsPending(p, entry, old(chosen), old(work), f, lines.value, work);
      ScanKeepsTraps(p, old(chosen), old(traps), f, lines.value, traps);
      return Ok(());
    }

    // The closure: on success the chosen functions are exactly the reachable ones and
    // the traps exactly the other targets they branch to. It fails only when a reachable
    // function has an address without an instruction.
    method Close(p: Program, entry: Symbol) returns (r: Result<(), Failure>)
      requires p.Valid()
      requires chosen == map[] && traps == {} && body == map[] && work == [entry]
      modifies this
      ensures r.Ok? ==>
                && Sound(p, entry, chosen, body)
                && (forall a :: a in chosen <==> Reachable(p, entry, a))
                && TrapsExact(p, chosen, traps)
      ensures r.Err? ==>
                exists a :: (a == entry.addr || p.ByAddr(a).Some?) && Reachable(p, entry, a)
                            && BodyOf(p, SymbolFor(p, entry, a)) == None
    {
      EntryReachable(p, entry);
      while |work| > 0
        invariant Sound(p, entry, chosen, body) && TrapsExact(p, chosen, traps)
        invariant Pending(p, entry, chosen, work) && AllWaiting(p, entry, work)
        invariant entry.addr in chosen || work == [entry]
        decreases Unchosen(p, entry, chosen), |work|
      {
        hide BodyOf, Sound, Pending, TrapsExact, Reachable, Waiting, AllWaiting, Unchosen, Copied, Program.ByAddr;
        var f := work[|work| - 1];
        PopKeepsWaiting(p, entry, work);
        PopKeepsPending(p, entry, chosen, work);
        work := work[..|work| - 1];
        if f.addr in chosen {
          continue;
        }
        WaitingFacts(p, entry, f);
        ChoosingShrinks(p, entry, chosen, f);
        var walked := Choose(p, entry, f);
        if walked.Err? {
          return walked;
        }
      }
      ClosedIsReachable(p, entry, chosen, body);
      return Ok(());
    }
  }

  /* ---------------- what the worklist keeps ---------------- */

  // A symbol on the worklist.
  ghost predicate Waiting(p: Program, entry: Symbol, w: Symbol)
    requires p.Valid()
  {
    (w == entry || p.ByAddr(w.addr) == Some(w)) && Reachable(p, entry, w.addr)
  }

  ghost predicate AllWaiting(p: Program, entry: Symbol, work: seq<Symbol>)
    requires p.Valid()
  {
    forall w :: w in work ==> Waiting(p, entry, w)
  }

  lemma PopKeepsWaiting(p: Program, entry: Symbol, work: seq<Symbol>)
    requires p.Valid() && |work| > 0 && AllWaiting(p, entry, work)
    ensures Waiting(p, entry, work[|work| - 1]) && AllWaiting(p, entry, work[..|work| - 1])
  {
    hide Waiting;
  }

  lemma WaitingFacts(p: Program, entry: Symbol, f: Symbol)
    requires p.Valid() && Waiting(p, entry, f) && (f.addr == entry.addr ==> f == entry)
    ensures f.addr == entry.addr || p.ByAddr(f.addr).Some?
    ensures f == SymbolFor(p, entry, f.addr) && Reachable(p, entry, f.addr)
    ensures f == entry || f in p.functions
  {
    hide Reachable;
  }

  // The addresses of symbols that are not chosen yet.
  ghost function Unchosen(p: Program, entry: Symbol, chosen: map<int, Symbol>): set<int> {
    {entry.addr} + (set f | f in p.functions :: f.addr) - chosen.Keys
  }

  lemma ChoosingShrinks(p: Program, entry: Symbol, chosen: map<int, Symbol>, f: Symbol)
    requires f.addr !in chosen && (f == entry || f in p.functions)
    ensures Unchosen(p, entry, chosen[f.addr := f]) < Unchosen(p, entry, chosen)
  {
    assert f.addr in Unchosen(p, entry, chosen);
  }

  ghost predicate Sound(p: Program, entry: Symbol, chosen: map<int, Symbol>, body: map<int, seq<Line>>)
    requires p.Valid()
  {
    && chosen.Keys == body.Keys
    && forall a :: a in chosen ==>
         && (a == entry.addr || p.ByAddr(a).Some?)
         && chosen[a] == SymbolFor(p, entry, a)
         && BodyOf(p, chosen[a]) == Some(body[a])
         && Reachable(p, entry, a)
  }

  // Every edge out of a chosen function leads to a chosen or a waiting one.
  ghost predicate Pending(p: Program, entry: Symbol, chosen: map<int, Symbol>, work: seq<Symbol>)
    requires p.Valid()
  {
    forall a, t :: a in chosen && Edge(p, entry, a, t) ==> t in chosen || InWork(work, t)
  }

  ghost predicate InWork(work: seq<Symbol>, t: int) {
    exists w :: w in work && w.addr == t
  }

  ghost predicate TrapsExact(p: Program, chosen: map<int, Symbol>, traps: set<int>)
    requires p.Valid()
  {
    forall t :: t in traps <==> !Copied(p, t) && exists a :: a in chosen && BranchesTo(p, chosen[a], t)
  }

  lemma EntryReachable(p: Program, entry: Symbol)
    requires p.Valid()
    ensures Reachable(p, entry, entry.addr)
  {
    assert Path(p, entry, [entry.addr]);
  }

  lemma LinesAreValid(p: Program, f: Symbol, lines: seq<Line>)
    requires p.Valid() && BodyOf(p, f) == Some(lines)
    ensures ValidLines(lines)
    ensures forall t :: BranchesTo(p, f, t) <==> exists line :: line in lines && Exits(f, line, t)
  {
    BodyIsValid(p, f.addr, f.addr + f.size);
  }

  lemma PopKeepsPending(p: Program, entry: Symbol, chosen: map<int, Symbol>, work: seq<Symbol>)
    requires p.Valid() && |work| > 0 && Pending(p, entry, chosen, work)
    ensures forall a, t :: a in chosen && Edge(p, entry, a, t) ==>
              t in chosen || t == work[|work| - 1].addr || InWork(work[..|work| - 1], t)
  {
    hide Edge;
    forall a, t | a in chosen && Edge(p, entry, a, t) && t !in chosen && t != work[|work| - 1].addr
      ensures InWork(work[..|work| - 1], t)
    {
      var w :| w in work && w.addr == t;
      assert w in work[..|work| - 1];
    }
  }

  lemma ChooseKeepsSound(p: Program, entry: Symbol, chosen: map<int, Symbol>, body: map<int, seq<Line>>,
                         f: Symbol, lines: seq<Line>)
    requires p.Valid() && Sound(p, entry, chosen, body)
    requires Waiting(p, entry, f) && f == SymbolFor(p, entry, f.addr) && BodyOf(p, f) == Some(lines)
    ensures Sound(p, entry, chosen[f.addr := f], body[f.addr := lines])
  {
    hide BodyOf, Reachable;
  }

  // work holds what was waiting before and one symbol for every copied target of f.
  ghost predicate Scanned(p: Program, f: Symbol, lines: seq<Line>, before: seq<Symbol>, work: seq<Symbol>)
    requires ValidLines(lines)
  {
    && before <= work
    && (forall w :: w in work ==>
          w in before || (p.ByAddr(w.addr) == Some(w) && Copied(p, w.addr)
                          && exists line :: line in lines && Exits(f, line, w.addr)))
    && (forall line, t :: line in lines && Exits(f, line, t) && Copied(p, t) ==> InWork(work, t))
  }

  lemma ScanKeepsPending(p: Program, entry: Symbol, chosen: map<int, Symbol>, before: seq<Symbol>,
                         f: Symbol, lines: seq<Line>, work: seq<Symbol>)
    requires p.Valid() && ValidLines(lines) && BodyOf(p, f) == Some(lines)
    requires Waiting(p, entry, f) && f == SymbolFor(p, entry, f.addr)
    requires AllWaiting(p, entry, before)
    requires forall a, t :: a in chosen && Edge(p, entry, a, t) ==>
               t in chosen || t == f.addr || InWork(before, t)
    requires Scanned(p, f, lines, before, work)
    ensures Pending(p, entry, chosen[f.addr := f], work)
    ensures AllWaiting(p, entry, work)
  {
    hide BodyOf, Reachable;
    LinesAreValid(p, f, lines);
    forall a, t | a in chosen[f.addr := f] && Edge(p, entry, a, t) && t !in chosen[f.addr := f]
      ensures InWork(work, t)
    {
      if a == f.addr {
        var line :| line in lines && Exits(f, line, t);
      } else {
        assert InWork(before, t);
        var w :| w in before && w.addr == t;
        assert w in work;
      }
    }
    forall w | w in work
      ensures Waiting(p, entry, w)
    {
      if w !in before {
        assert Edge(p, entry, f.addr, w.addr);
        ReachableStep(p, entry, f.addr, w.addr);
      }
    }
  }

  lemma ScanKeepsTraps(p: Program, chosen: map<int, Symbol>, before: set<int>, f: Symbol, lines: seq<Line>,
                       traps: set<int>)
    requires p.Valid() && ValidLines(lines) && BodyOf(p, f) == Some(lines)
    requires f.addr !in chosen && TrapsExact(p, chosen, before)
    requires forall t :: t in traps <==>
               t in before || (!Copied(p, t) && exists line :: line in lines && Exits(f, line, t))
    ensures TrapsExact(p, chosen[f.addr := f], traps)
  {
    hide BodyOf;
    LinesAreValid(p, f, lines);
    var now := chosen[f.addr := f];
    forall t
      ensures t in traps <==> !Copied(p, t) && exists a :: a in now && BranchesTo(p, now[a], t)
    {
      if a :| a in chosen && BranchesTo(p, chosen[a], t) {
        assert a in now && BranchesTo(p, now[a], t);
      }
      if BranchesTo(p, f, t) {
        assert f.addr in now && BranchesTo(p, now[f.addr], t);
      }
    }
  }

  lemma ClosedIsReachable(p: Program, entry: Symbol, chosen: map<int, Symbol>, body: map<int, seq<Line>>)
    requires p.Valid() && Sound(p, entry, chosen, body) && Pending(p, entry, chosen, [])
    requires entry.addr in chosen
    ensures forall a :: a in chosen <==> Reachable(p, entry, a)
  {
    forall a | Reachable(p, entry, a)
      ensures a in chosen
    {
      var path :| Path(p, entry, path) && path[|path| - 1] == a;
      forall b, t | b in chosen.Keys && Edge(p, entry, b, t)
        ensures t in chosen.Keys
      {
        assert !InWork([], t);
      }
      ClosedHoldsPath(p, entry, path, chosen.Keys);
    }
  }

  // Every branch out of a chosen function leads to a chosen function or to a trap, so
  // the generator always finds a symbol for it.
  lemma EveryExitResolves(p: Program, entry: Symbol, chosen: map<int, Symbol>, body: map<int, seq<Line>>,
                          traps: set<int>, a: int, line: Line, t: int)
    requires p.Valid() && Sound(p, entry, chosen, body) && TrapsExact(p, chosen, traps)
    requires forall b :: b in chosen <==> Reachable(p, entry, b)
    requires a in chosen && line in body[a] && line.insn.WellFormed() && Exits(chosen[a], line, t)
    ensures t in chosen || t in traps
  {
    LinesAreValid(p, chosen[a], body[a]);
    assert BranchesTo(p, chosen[a], t);
    if Copied(p, t) {
      assert Edge(p, entry, a, t);
      ReachableStep(p, entry, a, t);
    }
  }
}
