/**
 Catching the payload's hardware exceptions (src/platform.cpp): arming, disarming, and
 the two handlers, which record the registers and resume at the landing point, at most
 once for each arming.
 */
module FaultCapture {
  import opened Words

  datatype Regs = Regs(
    rip: Word, rsp: Word, rbp: Word, rbx: Word, rax: Word, rcx: Word, rdx: Word, rsi: Word, rdi: Word,
    r12: Word, r13: Word, r14: Word, r15: Word)
  {
    function Seen(): Recorded { Recorded(rip, rsp, rbp, rbx, rax, rcx, rdx, rsi, rdi) }
  }

  // The registers a handler keeps.
  datatype Recorded = Recorded(
    rip: Word, rsp: Word, rbp: Word, rbx: Word, rax: Word, rcx: Word, rdx: Word, rsi: Word, rdi: Word)

  datatype Signal = SIGSEGV | SIGBUS | SIGILL | SIGFPE | SIGTRAP

  // What the operating system tells a handler: a signal on Linux, an exception code on
  // Windows, and for some of them the address of the data access.
  datatype Cause = Posix(number: Signal, at: Word) | Windows(code: Word32, parameters: nat, at: Word)
  {
    // Errors and breakpoints; informational and warning codes are passed on.
    predicate Ours() {
      match this
      case Posix(_, _) => true
      case Windows(code, _, _) => code / 0x4000_0000 == 3 || code == 0x8000_0003
    }

    function DataAddress(): Word {
      match this
      case Posix(number, at) => if number == SIGSEGV || number == SIGBUS then at else 0
      case Windows(code, parameters, at) =>
        if (code == 0xC000_0005 || code == 0xC000_0006) && parameters >= 2 then at else 0
    }
  }

  class FaultRecord {
    var address: Word
    var regs: Recorded

    constructor ()
      ensures address == 0 && regs == Recorded(0, 0, 0, 0, 0, 0, 0, 0, 0)
    {
      address := 0;
      regs := Recorded(0, 0, 0, 0, 0, 0, 0, 0, 0);
    }
  }

  // The context the system restores when a handler returns.
  class Context {
    var regs: Regs

    constructor (regs: Regs)
      ensures this.regs == regs
    {
      this.regs := regs;
    }
  }

  // The two globals.
  class Capture {
    var record: FaultRecord?
    var resume: Word

    constructor ()
      ensures record == null && resume == 0
    {
      record, resume := null, 0;
    }

    method Arm(r: FaultRecord, resumeAt: Word)
      modifies this
      ensures record == r && resume == resumeAt
    {
      resume := resumeAt;
      record := r;
    }

    method Disarm()
      modifies this
      ensures record == null && resume == old(resume)
    {
      record := null;
    }

    // The handler. True when the exception is taken: the record is filled in, the
    // capture disarmed, and the interrupted thread continues at the resume point with
    // every other register as it was. Otherwise nothing is touched. While a record is
    // registered every signal is taken, and every Windows error and breakpoint.
    method Handle(cause: Cause, context: Context) returns (taken: bool)
      modifies this`record, record, context
      ensures taken <==> old(record) != null && cause.Ours()
      ensures cause.Posix? ==> (taken <==> old(record) != null)
      ensures cause.Windows? ==>
                (taken <==> old(record) != null && (cause.code >= 0xC000_0000 || cause.code == 0x8000_0003))
      ensures taken ==>
                && record == null
                && old(record).regs == old(context.regs).Seen()
                && old(record).address == cause.DataAddress()
                && context.regs == old(context.regs).(rip := resume)
      ensures taken && cause.Posix? ==>
                old(record).address == if cause.number == SIGSEGV || cause.number == SIGBUS then cause.at else 0
      ensures taken && cause.Windows? ==>
                old(record).address ==
                if (cause.code == 0xC000_0005 || cause.code == 0xC000_0006) && cause.parameters >= 2 then cause.at
                else 0
      ensures !taken ==> record == old(record) && context.regs == old(context.regs)
    {
      var r := record;
      if r == null || !cause.Ours() {
        return false;
      }
      record := null;
      r.address := cause.DataAddress();
      r.regs := context.regs.Seen();
      context.regs := context.regs.(rip := resume);
      return true;
    }

    // A whole run from the start of the program on: each arming with a record of its own,
    // each exception with the registers it interrupts. What happens is what the history
    // of the two globals says.
    method Watch(events: seq<Event>) returns (outcomes: seq<Outcome>)
      requires record == null && resume == 0
      modifies this
      ensures record != null <==> Reach(events).open
      ensures resume == Reach(events).resume
      ensures |outcomes| == |events|
      ensures forall i :: 0 <= i < |events| ==> Followed(events, i, outcomes[i])
    {
      outcomes := [];
      for i := 0 to |events|
        invariant record != null <==> Reach(events[..i]).open
        invariant record != null ==> fresh(record)
        invariant resume == Reach(events[..i]).resume
        invariant |outcomes| == i
        invariant forall k :: 0 <= k < i ==> Followed(events, k, outcomes[k])
      {
        assert events[..i + 1][..i] == events[..i];
        var outcome := Quiet;
        match events[i] {
          case Armed(at) =>
            var r := new FaultRecord();
            Arm(r, at);
          case Disarmed =>
            Disarm();
          case Raised(cause, regs) =>
            var context := new Context(regs);
            var r := record;
            var taken := Handle(cause, context);
            outcome := if taken then Taken(context.regs, r.regs, r.address) else Passed(context.regs);
        }
        assert Followed(events, i, outcome);
        outcomes := outcomes + [outcome];
      }
      assert events[..|events|] == events;
    }
  }

  /* ---------------- runs of the protocol ---------------- */

  datatype Event = Armed(resumeAt: Word) | Disarmed | Raised(cause: Cause, regs: Regs)

  // What comes of an event: the registers an exception continues with, and for one that
  // is redirected what the record then holds.
  datatype Outcome = Quiet | Passed(regs: Regs) | Taken(regs: Regs, recorded: Recorded, address: Word)

  // Whether a record is registered, and where an exception would resume.
  datatype Gate = Gate(open: bool, resume: Word)

  // The effect of an event on the two globals.
  function After(g: Gate, e: Event): Gate {
    match e
    case Armed(at) => Gate(true, at)
    case Disarmed => g.(open := false)
    case Raised(cause, _) => if cause.Ours() then g.(open := false) else g
  }

  function Reach(events: seq<Event>): Gate {
    if events == [] then Gate(false, 0) else After(Reach(events[..|events| - 1]), events[|events| - 1])
  }

  predicate Redirects(g: Gate, e: Event) {
    e.Raised? && e.cause.Ours() && g.open
  }

  // Event i is an exception that was redirected.
  predicate RedirectedAt(events: seq<Event>, i: nat)
    requires i < |events|
  {
    Redirects(Reach(events[..i]), events[i])
  }

  // An exception that is not redirected goes on with its own registers. One that is goes
  // on at the resume point of the time, and the record holds where it came from.
  predicate Followed(events: seq<Event>, i: nat, outcome: Outcome)
    requires i < |events|
  {
    match events[i]
    case Raised(cause, regs) =>
      if RedirectedAt(events, i)
      then outcome == Taken(regs.(rip := Reach(events[..i]).resume), regs.Seen(), cause.DataAddress())
      else outcome == Passed(regs)
    case _ => outcome == Quiet
  }

  // A Windows code that is neither an error nor a breakpoint.
  predicate Harmless(cause: Cause) {
    cause.Windows? && cause.code < 0xC000_0000 && cause.code != 0x8000_0003
  }

  lemma OursIff(cause: Cause)
    ensures cause.Ours() <==> !Harmless(cause)
  {
  }

  // The arming at j is still in force at i: no later arming, no disarming and nothing but
  // harmless exceptions in between.
  ghost predicate InForce(events: seq<Event>, j: nat, i: nat)
    requires i <= |events|
  {
    j < i && events[j].Armed? &&
    forall k :: j < k < i ==> events[k].Raised? && Harmless(events[k].cause)
  }

  lemma {:induction false} OpenIff(events: seq<Event>, i: nat)
    requires i <= |events|
    ensures Reach(events[..i]).open <==> exists j: nat :: InForce(events, j, i)
    ensures forall j: nat :: InForce(events, j, i) ==> Reach(events[..i]).resume == events[j].resumeAt
  {
    hide Harmless, Cause.Ours;
    if i > 0 {
      if events[i - 1].Raised? { OursIff(events[i - 1].cause); }
      OpenIff(events, i - 1);
      assert events[..i][..i - 1] == events[..i - 1];
      match events[i - 1] {
        case Armed(at) =>
          assert InForce(events, i - 1, i);
          forall j: nat | InForce(events, j, i) ensures j == i - 1 {}
        case Disarmed =>
          forall j: nat | InForce(events, j, i) ensures false {}
        case Raised(cause, _) =>
          if !cause.Ours() && Reach(events[..i - 1]).open {
            var j: nat :| InForce(events, j, i - 1);
            assert InForce(events, j, i);
          }
          forall j: nat | InForce(events, j, i)
            ensures InForce(events, j, i - 1) && !cause.Ours()
          {
            assert j < i - 1;
          }
      }
    }
  }

  // While an arming is in force every signal is redirected, and so is every Windows error
  // and breakpoint, and nothing else ever is. It resumes where that arming said.
  lemma RedirectedIff(events: seq<Event>, i: nat)
    requires i < |events|
    ensures RedirectedAt(events, i) <==>
            events[i].Raised? && !Harmless(events[i].cause) && exists j: nat :: InForce(events, j, i)
    ensures events[i].Raised? && events[i].cause.Posix? ==>
              (RedirectedAt(events, i) <==> exists j: nat :: InForce(events, j, i))
    ensures events[i].Raised? && events[i].cause.Windows? ==>
              (RedirectedAt(events, i) <==>
                (events[i].cause.code >= 0xC000_0000 || events[i].cause.code == 0x8000_0003)
                && exists j: nat :: InForce(events, j, i))
    ensures forall j: nat :: InForce(events, j, i) ==> Reach(events[..i]).resume == events[j].resumeAt
  {
    OpenIff(events, i);
    if events[i].Raised? { OursIff(events[i].cause); }
  }

  // Between two redirected exceptions there is an arming.
  lemma OneRedirectPerArming(events: seq<Event>, i: nat, k: nat)
    requires i < k < |events| && RedirectedAt(events, i) && RedirectedAt(events, k)
    ensures exists j: nat :: i < j < k && events[j].Armed?
  {
    RedirectedIff(events, k);
    var j: nat :| InForce(events, j, k);
    assert i != j && !(j < i < k);
  }
}
