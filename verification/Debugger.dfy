/**
 Stepping, running and continuing over an abstract deterministic machine. The
 registry lifts a breakpoint to step off it and plants a temporary hook to run to
 an address; the theorems compare that with a debugger that needs neither.
 */
module Debugger {
  import opened Prelude
  import opened LinuxState

  datatype End = Thrown | Halted(reason: nat)

  /** One instruction: the registry activity of the callbacks it triggers, the state
      it leaves, and how the run ended if this instruction ended it. */
  datatype Instruction<S> = Instruction(events: seq<Event>, next: S, end: Option<End>)

  /** The guest with its callbacks. A step may depend on the whole registry: callbacks
      can list breakpoints, hooks and modules. */
  datatype Machine<!S> = Machine(
    pc: S -> Word,
    framePointer: S -> Word,
    read: (S, Word) -> Option<Word>,
    step: (View, S) -> Instruction<S>)

  datatype Stop = InstructionLimit | BreakpointHit | Ended(end: End) | OutOfBudget

  datatype Run<S> = Run(view: View, state: S, executed: nat, stop: Stop)

  /** An execution hook that stops the run fires at `pc`. */
  predicate Blocked(v: View, temporary: Option<Word>, pc: Word) {
    Armed(v, pc) || pc in v.lost || temporary == Some(pc)
  }

  /** `start(limit)`: at most `limit` instructions, without limit when it is 0. The
      limit is tested first, then the hooks at pc, and both before the instruction.
      `budget` bounds the instructions followed; a run that outlasts it reports so. */
  function Start<S>(m: Machine<S>, v: View, s: S, temporary: Option<Word>, limit: nat, budget: nat): Run<S>
    decreases budget
  {
    if Blocked(v, temporary, m.pc(s)) then Run(v, s, 0, BreakpointHit)
    else if budget == 0 then Run(v, s, 0, OutOfBudget)
    else
      var i := m.step(v, s);
      var after := Exec(v, i.events);
      if i.end.Some? then Run(after, i.next, 1, Ended(i.end.value))
      else if limit == 1 then Run(after, i.next, 1, InstructionLimit)
      else
        var rest := Start(m, after, i.next, temporary, if limit == 0 then 0 else limit - 1, budget - 1);
        rest.(executed := rest.executed + 1)
  }

  function Lift(v: View, address: Word): View {
    v.(breakpoints := v.breakpoints[address := false])
  }

  /** Installing without looking: the hook of an armed entry is overwritten and lost. */
  function Rearm(v: View, address: Word): View {
    v.(breakpoints := v.breakpoints[address := true], lost := if Armed(v, address) then v.lost + {address} else v.lost)
  }

  /** `suppress_current_breakpoint_once`: lift, execute one instruction, install
      again whatever happened, including when the instruction threw. */
  function SuppressedStep<S>(m: Machine<S>, v: View, s: S): Run<S> {
    var r := Start(m, Lift(v, m.pc(s)), s, None, 1, 1);
    r.(view := Rearm(r.view, m.pc(s)))
  }

  function StepInto<S>(m: Machine<S>, v: View, s: S): Run<S> {
    if Armed(v, m.pc(s)) then SuppressedStep(m, v, s) else Start(m, v, s, None, 1, 1)
  }

  function RunTo<S>(m: Machine<S>, v: View, s: S, address: Word, budget: nat): Run<S> {
    Start(m, v, s, Some(address), 0, budget)
  }

  function ContinueExecution<S>(m: Machine<S>, v: View, s: S, budget: nat): Run<S> {
    if !Armed(v, m.pc(s)) then Start(m, v, s, None, 0, budget)
    else
      var first := SuppressedStep(m, v, s);
      if first.stop != InstructionLimit then first
      else
        var rest := Start(m, first.view, first.state, None, 0, budget);
        rest.(executed := rest.executed + first.executed)
  }

  datatype FrameError = ZeroFramePointer | UnreadableReturnAddress | ZeroReturnAddress

  datatype StepOutResult<S> = Refused(error: FrameError) | Returned(run: Run<S>)

  function StepOut<S>(m: Machine<S>, v: View, s: S, budget: nat): StepOutResult<S> {
    var framePointer := m.framePointer(s);
    if framePointer == 0 then Refused(ZeroFramePointer)
    else match m.read(s, Wrap(framePointer + 8))
      case None => Refused(UnreadableReturnAddress)
      case Some(0) => Refused(ZeroReturnAddress)
      case Some(address) => Returned(RunTo(m, v, s, address, budget))
  }

  // ---- The trace the guest follows when nothing stops it ---------------------

  /** Registry and state after `k` instructions, ignoring every execution hook. */
  function Trace<S>(m: Machine<S>, v: View, s: S, k: nat): (View, S)
    decreases k
  {
    if k == 0 then (v, s)
    else
      var i := m.step(v, s);
      Trace(m, Exec(v, i.events), i.next, k - 1)
  }

  /** The guest neither halts nor throws during its first `k` instructions. */
  predicate Runs<S>(m: Machine<S>, v: View, s: S, k: nat)
    decreases k
  {
    k == 0 ||
    var i := m.step(v, s);
    i.end.None? && Runs(m, Exec(v, i.events), i.next, k - 1)
  }

  predicate BlockedAt<S>(m: Machine<S>, v: View, s: S, temporary: Option<Word>, k: nat) {
    var c := Trace(m, v, s, k);
    Blocked(c.0, temporary, m.pc(c.1))
  }

  ghost predicate FirstHit<S>(m: Machine<S>, v: View, s: S, temporary: Option<Word>, k: nat) {
    && Runs(m, v, s, k)
    && BlockedAt(m, v, s, temporary, k)
    && forall j: nat | j < k :: !BlockedAt(m, v, s, temporary, j)
  }

  /** A run never executes an instruction at which it should have stopped, and its
      result is the trace's configuration after the instructions it executed. */
  lemma {:induction false} StartFollowsTrace<S>(m: Machine<S>, v: View, s: S, temporary: Option<Word>, budget: nat)
    ensures var r := Start(m, v, s, temporary, 0, budget);
            && r.executed <= budget && r.stop != InstructionLimit
            && (r.view, r.state) == Trace(m, v, s, r.executed)
            && (forall j: nat | j < r.executed :: !BlockedAt(m, v, s, temporary, j))
            && (r.stop == BreakpointHit <==> Runs(m, v, s, r.executed) && BlockedAt(m, v, s, temporary, r.executed))
            && (r.stop == OutOfBudget ==> r.executed == budget && Runs(m, v, s, budget))
    decreases budget
  {
    if !Blocked(v, temporary, m.pc(s)) && budget > 0 {
      var i := m.step(v, s);
      var after := Exec(v, i.events);
      if i.end.None? {
        StartFollowsTrace(m, after, i.next, temporary, budget - 1);
      }
      var r := Start(m, v, s, temporary, 0, budget);
      forall j: nat | j < r.executed
        ensures !BlockedAt(m, v, s, temporary, j)
      {
        if j > 0 {
          assert Trace(m, v, s, j) == Trace(m, after, i.next, j - 1);
          assert !BlockedAt(m, after, i.next, temporary, j - 1);
        }
      }
    }
  }

  lemma {:induction false} RunsShorter<S>(m: Machine<S>, v: View, s: S, j: nat, k: nat)
    requires j <= k && Runs(m, v, s, k)
    ensures Runs(m, v, s, j)
    decreases k
  {
    if j > 0 {
      var i := m.step(v, s);
      RunsShorter(m, Exec(v, i.events), i.next, j - 1, k - 1);
    }
  }

  /** A run that ended by itself stopped at an instruction after which the guest does
      not run on. */
  lemma {:induction false} EndedDoesNotRun<S>(m: Machine<S>, v: View, s: S, temporary: Option<Word>, budget: nat)
    requires Start(m, v, s, temporary, 0, budget).stop.Ended?
    ensures !Runs(m, v, s, Start(m, v, s, temporary, 0, budget).executed)
    decreases budget
  {
    var i := m.step(v, s);
    if i.end.None? {
      EndedDoesNotRun(m, Exec(v, i.events), i.next, temporary, budget - 1);
    }
  }

  /** An unlimited run stops after `k` instructions at a breakpoint or the temporary
      hook exactly when the k-th configuration of the trace, starting one included,
      is the first that lies at one. */
  lemma StopsAtFirstHit<S>(m: Machine<S>, v: View, s: S, temporary: Option<Word>, budget: nat, k: nat)
    requires k <= budget
    ensures var r := Start(m, v, s, temporary, 0, budget);
            r.stop == BreakpointHit && r.executed == k <==> FirstHit(m, v, s, temporary, k)
  {
    var r := Start(m, v, s, temporary, 0, budget);
    StartFollowsTrace(m, v, s, temporary, budget);
    if FirstHit(m, v, s, temporary, k) {
      assert r.executed <= k;
      RunsShorter(m, v, s, r.executed, k);
      if r.stop.Ended? {
        EndedDoesNotRun(m, v, s, temporary, budget);
      }
    }
  }

  /** A limited run is ended by its limit exactly when the trace runs that far without
      meeting a hook, and then it executed exactly that many instructions. */
  lemma {:induction false} LimitEndsRunIff<S>(m: Machine<S>, v: View, s: S, temporary: Option<Word>, limit: nat,
                                              budget: nat)
    requires limit > 0
    ensures var r := Start(m, v, s, temporary, limit, budget);
            && r.executed <= limit && (r.view, r.state) == Trace(m, v, s, r.executed)
            && (r.stop == InstructionLimit ==> r.executed == limit)
            && (r.stop == InstructionLimit <==>
                limit <= budget && Runs(m, v, s, limit) && forall j: nat | j < limit ::
                    !BlockedAt(m, v, s, temporary, j))
    decreases budget
  {
    assert BlockedAt(m, v, s, temporary, 0) == Blocked(v, temporary, m.pc(s));
    if !Blocked(v, temporary, m.pc(s)) && budget > 0 {
      var i := m.step(v, s);
      var after := Exec(v, i.events);
      if i.end.None? && limit > 1 {
        LimitEndsRunIff(m, after, i.next, temporary, limit - 1, budget - 1);
        assert forall j: nat | 0 < j < limit ::
               BlockedAt(m, v, s, temporary, j) == BlockedAt(m, after, i.next, temporary, j - 1);
        if forall j: nat | j < limit :: !BlockedAt(m, v, s, temporary, j) {
          forall j: nat | j < limit - 1
            ensures !BlockedAt(m, after, i.next, temporary, j)
          {
            assert !BlockedAt(m, v, s, temporary, j + 1);
          }
        }
      }
    }
  }

  /** A run ends after exactly `k` instructions: nothing stopped it or ended the guest before,
      and then the limit is reached, the k-th instruction ended the guest, or a hook stops it. */
  ghost predicate EndsAfter<S>(m: Machine<S>, v: View, s: S, temporary: Option<Word>, limit: nat, k: nat) {
    && (limit > 0 ==> k <= limit)
    && (forall j: nat | j < k :: Runs(m, v, s, j) && !BlockedAt(m, v, s, temporary, j))
    && (k == limit > 0 || !Runs(m, v, s, k) || BlockedAt(m, v, s, temporary, k))
  }

  /** Why it ends there: what the guest did comes first, then the limit, then hooks. */
  ghost function StopAfter<S>(m: Machine<S>, v: View, s: S, limit: nat, k: nat): Stop {
    if k > 0 && !Runs(m, v, s, k) then
      var last := Trace(m, v, s, k - 1);
      var end := m.step(last.0, last.1).end;
      if end.Some? then Ended(end.value) else OutOfBudget
    else if k == limit > 0 then InstructionLimit
    else BreakpointHit
  }

  lemma EndsLater<S>(m: Machine<S>, v: View, s: S, temporary: Option<Word>, limit: nat, k: nat)
    requires !Blocked(v, temporary, m.pc(s)) && m.step(v, s).end.None? && limit != 1 && k > 0
    ensures var i := m.step(v, s);
            var after := Exec(v, i.events);
            var left := if limit == 0 then 0 else limit - 1;
            && (EndsAfter(m, v, s, temporary, limit, k) <==> EndsAfter(m, after, i.next, temporary, left, k - 1))
            && StopAfter(m, v, s, limit, k) == StopAfter(m, after, i.next, left, k - 1)
  {
    var i := m.step(v, s);
    var after := Exec(v, i.events);
    forall j: nat | j > 0
      ensures BlockedAt(m, v, s, temporary, j) == BlockedAt(m, after, i.next, temporary, j - 1)
      ensures Runs(m, v, s, j) == Runs(m, after, i.next, j - 1)
    {
    }
    assert BlockedAt(m, v, s, temporary, 0) == Blocked(v, temporary, m.pc(s));
    var left := if limit == 0 then 0 else limit - 1;
    if EndsAfter(m, v, s, temporary, limit, k) {
      forall j: nat | j < k - 1
        ensures Runs(m, after, i.next, j) && !BlockedAt(m, after, i.next, temporary, j)
      {
        assert Runs(m, v, s, j + 1) && !BlockedAt(m, v, s, temporary, j + 1);
      }
    }
    if EndsAfter(m, after, i.next, temporary, left, k - 1) {
      forall j: nat | j < k
        ensures Runs(m, v, s, j) && !BlockedAt(m, v, s, temporary, j)
      {
        if j > 0 {
          assert Runs(m, after, i.next, j - 1) && !BlockedAt(m, after, i.next, temporary, j - 1);
        }
      }
    }
  }

  /** Every run, with or without a limit and a temporary hook, ends exactly where the trace
      says it must and for the reason found there, with the trace's configuration. */
  lemma {:induction false} StartEndsIff<S>(m: Machine<S>, v: View, s: S, temporary: Option<Word>, limit: nat,
                                           budget: nat, k: nat)
    ensures var r := Start(m, v, s, temporary, limit, budget);
            && r.executed <= budget && (r.view, r.state) == Trace(m, v, s, r.executed)
            && (r.stop != OutOfBudget && r.executed == k <==> k <= budget && EndsAfter(m, v, s, temporary, limit, k))
            && (r.stop != OutOfBudget && r.executed == k ==> r.stop == StopAfter(m, v, s, limit, k))
    decreases budget
  {
    assert BlockedAt(m, v, s, temporary, 0) == Blocked(v, temporary, m.pc(s));
    if !Blocked(v, temporary, m.pc(s)) && budget > 0 {
      var i := m.step(v, s);
      assert Runs(m, v, s, 1) == i.end.None?;
      if i.end.None? && limit != 1 {
        var left := if limit == 0 then 0 else limit - 1;
        if k > 0 {
          EndsLater(m, v, s, temporary, limit, k);
          StartEndsIff(m, Exec(v, i.events), i.next, temporary, left, budget - 1, k - 1);
        } else {
          StartEndsIff(m, Exec(v, i.events), i.next, temporary, left, budget - 1, 0);
        }
      }
    }
  }

  // ---- Continuing ------------------------------------------------------------

  /** One instruction, whatever is armed at pc. */
  function PlainStep<S>(m: Machine<S>, v: View, s: S): Run<S> {
    var i := m.step(v, s);
    Run(Exec(v, i.events), i.next, 1, if i.end.Some? then Ended(i.end.value) else InstructionLimit)
  }

  /** The debugger's promise: take one instruction, then run to the next breakpoint. */
  function StepThenRun<S>(m: Machine<S>, v: View, s: S, budget: nat): Run<S> {
    var first := PlainStep(m, v, s);
    if first.stop != InstructionLimit then first
    else
      var rest := Start(m, first.view, first.state, None, 0, budget);
      rest.(executed := rest.executed + 1)
  }

  predicate Clears(es: seq<Event>, address: Word) {
    ClearBreakpoint(address) in es
  }

  /** The callbacks clear the breakpoint and the last thing they do to it is set it. */
  predicate ClearsThenSets(es: seq<Event>, address: Word) {
    es != [] &&
    var rest := es[1..];
    (es[0] == ClearBreakpoint(address) && SetBreakpoint(address) in rest && !Clears(rest, address))
    || ClearsThenSets(rest, address)
  }

  /** Activity during a lifted step differs from activity without the lift only at
      the lifted address, and only while that breakpoint has not been cleared. */
  lemma {:induction false} LiftCommutes(v: View, es: seq<Event>, address: Word)
    requires Armed(v, address)
    ensures !Clears(es, address) ==>
              Exec(Lift(v, address), es) == Lift(Exec(v, es), address) && Armed(Exec(v, es), address)
    ensures Clears(es, address) ==> Exec(Lift(v, address), es) == Exec(v, es)
    decreases |es|
  {
    if es != [] {
      var e := es[0];
      var rest := es[1..];
      assert Clears(es, address) <==> e == ClearBreakpoint(address) || Clears(rest, address);
      if e == ClearBreakpoint(address) {
        assert Step(Lift(v, address), e) == Step(v, e) by {
          assert Lift(v, address).breakpoints - {address} == v.breakpoints - {address};
        }
      } else {
        assert Step(Lift(v, address), e) == Lift(Step(v, e), address) by { LiftCommutesStep(v, e, address); }
        LiftCommutes(Step(v, e), rest, address);
      }
    }
  }

  lemma LiftCommutesStep(v: View, e: Event, address: Word)
    requires Armed(v, address) && e != ClearBreakpoint(address)
    ensures Step(Lift(v, address), e) == Lift(Step(v, e), address) && Armed(Step(v, e), address)
  {
    match e
    case ClearBreakpoint(other) =>
      assert v.breakpoints[address := false] - {other} == (v.breakpoints - {other})[address := false];
    case SetBreakpoint(other) =>
      if other !in v.breakpoints {
        assert v.breakpoints[address := false][other := true] == v.breakpoints[other := true][address := false];
      }
    case _ =>
  }

  lemma Heads(es: seq<Event>, address: Word)
    requires es != []
    ensures Clears(es, address) <==> es[0] == ClearBreakpoint(address) || Clears(es[1..], address)
    ensures SetBreakpoint(address) in es <==> es[0] == SetBreakpoint(address) || SetBreakpoint(address) in es[1..]
  {
  }

  lemma StepBreakpoint(v: View, e: Event, address: Word)
    ensures e == ClearBreakpoint(address) ==> address !in Step(v, e).breakpoints
    ensures e == SetBreakpoint(address) ==>
              address in Step(v, e).breakpoints
                  && (Armed(Step(v, e), address) <==> Armed(v, address) || address !in v.breakpoints)
    ensures e != ClearBreakpoint(address) && e != SetBreakpoint(address) ==>
              (Armed(Step(v, e), address) <==> Armed(v, address))
                  && (address in Step(v, e).breakpoints <==> address in v.breakpoints)
  {
  }

  /** What a sequence of callbacks does to one breakpoint, by how it finds it. */
  lemma {:induction false} BreakpointFate(v: View, es: seq<Event>, address: Word)
    ensures Armed(Exec(v, es), address) <==>
            ClearsThenSets(es, address)
            || (!Clears(es, address)
               && (Armed(v, address) || (address !in v.breakpoints && SetBreakpoint(address) in es)))
    decreases |es|
  {
    if es != [] {
      BreakpointFate(Step(v, es[0]), es[1..], address);
      StepBreakpoint(v, es[0], address);
      Heads(es, address);
      if ClearsThenSets(es[1..], address) {
        ClearsThenSetsClears(es[1..], address);
      }
    }
  }

  lemma {:induction false} ClearsThenSetsClears(es: seq<Event>, address: Word)
    requires ClearsThenSets(es, address)
    ensures Clears(es, address)
    decreases |es|
  {
    if !(es[0] == ClearBreakpoint(address)) {
      ClearsThenSetsClears(es[1..], address);
      assert ClearBreakpoint(address) in es[1..];
    }
  }

  /** The addresses `list_breakpoints` reports: lifted entries are not among them. */
  function Listed(v: View): set<Word> {
    set a | a in v.breakpoints && v.breakpoints[a]
  }

  /** What a callback that lists the breakpoints during a suppressed step is told after
      any activity: everything but the breakpoint being stepped over, and that one too
      once it was cleared and set again. */
  lemma ListedWhileLifted(v: View, es: seq<Event>, address: Word)
    requires Armed(v, address)
    ensures !Clears(es, address) ==> Listed(Exec(Lift(v, address), es)) == Listed(Exec(v, es)) - {address}
    ensures Clears(es, address) ==> Listed(Exec(Lift(v, address), es)) == Listed(Exec(v, es))
    ensures address in Listed(Exec(Lift(v, address), es)) <==> ClearsThenSets(es, address)
  {
    LiftCommutes(v, es, address);
    BreakpointFate(Lift(v, address), es, address);
  }

  /** The callbacks of the instruction at pc do the same whether or not the breakpoint
      there is lifted. */
  ghost predicate LiftUnseen<S>(m: Machine<S>, v: View, s: S) {
    m.step(Lift(v, m.pc(s)), s) == m.step(v, s)
  }

  lemma LiftedStep<S>(m: Machine<S>, v: View, s: S)
    requires Armed(v, m.pc(s))
    ensures var p := PlainStep(m, Lift(v, m.pc(s)), s);
            SuppressedStep(m, v, s) ==
            if m.pc(s) in v.lost then Run(v, s, 0, BreakpointHit) else p.(view := Rearm(p.view, m.pc(s)))
  {
    RearmLifted(v, m.pc(s));
  }

  /** Callbacks of the suppressed instruction clear the breakpoint there. */
  predicate StepClears<S>(m: Machine<S>, v: View, s: S) {
    Clears(m.step(Lift(v, m.pc(s)), s).events, m.pc(s))
  }

  lemma RearmLifted(v: View, address: Word)
    requires Armed(v, address)
    ensures Rearm(Lift(v, address), address) == v
  {
    assert v.breakpoints[address := false][address := true] == v.breakpoints;
  }

  /** A suppressed step changes the registry exactly as its callbacks do, unless they
      clear the breakpoint, which then comes back: and when they had set it again, its
      hook is lost. */
  lemma SuppressedStepActs<S>(m: Machine<S>, v: View, s: S)
    requires Armed(v, m.pc(s))
    ensures var after := Exec(v, m.step(Lift(v, m.pc(s)), s).events);
            SuppressedStep(m, v, s).view ==
            if m.pc(s) in v.lost then v else if StepClears(m, v, s) then Rearm(after, m.pc(s)) else after
  {
    var es := m.step(Lift(v, m.pc(s)), s).events;
    LiftedStep(m, v, s);
    LiftCommutes(v, es, m.pc(s));
    if !Clears(es, m.pc(s)) {
      RearmLifted(Exec(v, es), m.pc(s));
    }
  }

  lemma RearmChanges(v: View, es: seq<Event>, address: Word)
    requires address !in v.lost
    ensures Rearm(Exec(v, es), address) != Exec(v, es)
  {
    ExecKeepsLost(v, es);
  }

  /** For callbacks that do not look whether it is lifted, the suppressed step is a plain
      step exactly when they do not clear the breakpoint and no lost hook stops it. */
  lemma SuppressedStepIsPlainIff<S>(m: Machine<S>, v: View, s: S)
    requires Armed(v, m.pc(s)) && LiftUnseen(m, v, s)
    ensures SuppressedStep(m, v, s) == PlainStep(m, v, s) <==> m.pc(s) !in v.lost && !StepClears(m, v, s)
    ensures m.pc(s) in v.lost ==> SuppressedStep(m, v, s) == Run(v, s, 0, BreakpointHit)
    ensures m.pc(s) !in v.lost && StepClears(m, v, s) ==>
              SuppressedStep(m, v, s) == PlainStep(m, v, s).(view := Rearm(PlainStep(m, v, s).view, m.pc(s)))
  {
    LiftedStep(m, v, s);
    SuppressedStepActs(m, v, s);
    if m.pc(s) !in v.lost {
      RearmChanges(v, m.step(v, s).events, m.pc(s));
    }
  }

  lemma {:induction false} ExecKeepsLost(v: View, es: seq<Event>)
    ensures Exec(v, es).lost == v.lost
    decreases |es|
  {
    if es != [] {
      ExecKeepsLost(Step(v, es[0]), es[1..]);
    }
  }

  /** A suppressed step loses a handle when its callbacks clear the lifted breakpoint
      and set it again. */
  predicate LosesHandle<S>(m: Machine<S>, v: View, s: S) {
    Armed(v, m.pc(s)) && m.pc(s) !in v.lost && ClearsThenSets(m.step(Lift(v, m.pc(s)), s).events, m.pc(s))
  }

  lemma {:induction false} StartKeepsLost<S>(m: Machine<S>, v: View, s: S, temporary: Option<Word>, limit: nat,
                                             budget: nat)
    ensures Start(m, v, s, temporary, limit, budget).view.lost == v.lost
    decreases budget
  {
    if !Blocked(v, temporary, m.pc(s)) && budget > 0 {
      var i := m.step(v, s);
      ExecKeepsLost(v, i.events);
      if i.end.None? && limit != 1 {
        StartKeepsLost(m, Exec(v, i.events), i.next, temporary, if limit == 0 then 0 else limit - 1, budget - 1);
      }
    }
  }

  lemma SuppressedStepLoses<S>(m: Machine<S>, v: View, s: S)
    requires Armed(v, m.pc(s))
    ensures SuppressedStep(m, v, s).view.lost == if LosesHandle(m, v, s) then v.lost + {m.pc(s)} else v.lost
  {
    var lifted := Lift(v, m.pc(s));
    LiftedStep(m, v, s);
    BreakpointFate(lifted, m.step(lifted, s).events, m.pc(s));
    ExecKeepsLost(lifted, m.step(lifted, s).events);
  }

  /** Continuing steps off a breakpoint and runs to the next one, never repeating the
      first and never skipping a later one, provided no callback of the first
      instruction clears that breakpoint. */
  lemma ContinueRefinesStepThenRun<S>(m: Machine<S>, v: View, s: S, budget: nat)
    requires m.pc(s) !in v.lost && (Armed(v, m.pc(s)) ==> LiftUnseen(m, v, s) && !StepClears(m, v, s))
    ensures ContinueExecution(m, v, s, if Armed(v, m.pc(s)) then budget else budget + 1)
         == StepThenRun(m, v, s, budget)
  {
    if Armed(v, m.pc(s)) {
      SuppressedStepIsPlainIff(m, v, s);
    }
  }

  /** And that proviso is exact: if the first instruction clears the breakpoint, or a
      lost hook lies there, some run shows the difference. */
  lemma ContinueRefinesIff<S>(m: Machine<S>, v: View, s: S)
    requires Armed(v, m.pc(s)) && LiftUnseen(m, v, s)
    ensures (forall budget: nat :: ContinueExecution(m, v, s, budget) == StepThenRun(m, v, s, budget))
       <==> m.pc(s) !in v.lost && !StepClears(m, v, s)
  {
    SuppressedStepIsPlainIff(m, v, s);
    if m.pc(s) !in v.lost && !StepClears(m, v, s) {
      forall budget: nat
        ensures ContinueExecution(m, v, s, budget) == StepThenRun(m, v, s, budget)
      {
        ContinueRefinesStepThenRun(m, v, s, budget);
      }
    } else if m.pc(s) in v.lost {
      assert ContinueExecution(m, v, s, 0).executed == 0;
      assert ContinueExecution(m, v, s, 0) != StepThenRun(m, v, s, 0);
    } else {
      RearmChanges(v, m.step(v, s).events, m.pc(s));
      assert ContinueExecution(m, v, s, 0).view == Rearm(StepThenRun(m, v, s, 0).view, m.pc(s));
      assert ContinueExecution(m, v, s, 0) != StepThenRun(m, v, s, 0);
    }
  }

  /** Stepping executes exactly one instruction and ends as that instruction does, from
      a breakpoint too, except where a lost hook stops it. */
  lemma StepIntoIsOneInstruction<S>(m: Machine<S>, v: View, s: S)
    ensures var r := StepInto(m, v, s);
            var i := m.step(if Armed(v, m.pc(s)) then Lift(v, m.pc(s)) else v, s);
            if m.pc(s) in v.lost then r == Run(v, s, 0, BreakpointHit)
            else
              && r.executed == 1 && r.state == i.next
              && r.stop == (if i.end.Some? then Ended(i.end.value) else InstructionLimit)
              && r.view == if Armed(v, m.pc(s)) && StepClears(m, v, s) then Rearm(Exec(v, i.events), m.pc(s))
                 else Exec(v, i.events)
  {
    if Armed(v, m.pc(s)) {
      LiftedStep(m, v, s);
      SuppressedStepActs(m, v, s);
    }
  }

  /** The instruction at which a debugger told to continue must stop: the first one
      after the current instruction that lies at a breakpoint. */
  ghost predicate NextBreakpoint<S>(m: Machine<S>, v: View, s: S, k: nat) {
    && k > 0
    && Runs(m, v, s, k)
    && BlockedAt(m, v, s, None, k)
    && forall j: nat | 0 < j < k :: !BlockedAt(m, v, s, None, j)
  }

  lemma ContinueStopsAtNextBreakpoint<S>(m: Machine<S>, v: View, s: S, budget: nat, k: nat)
    requires Armed(v, m.pc(s)) && LiftUnseen(m, v, s) && m.pc(s) !in v.lost && !StepClears(m, v, s)
    requires k <= budget + 1
    ensures var r := ContinueExecution(m, v, s, budget);
            && (r.stop == BreakpointHit && r.executed == k <==> NextBreakpoint(m, v, s, k))
            && (r.stop != OutOfBudget ==> r.executed > 0)
            && (r.stop == BreakpointHit ==> (r.view, r.state) == Trace(m, v, s, r.executed))
  {
    ContinueRefinesStepThenRun(m, v, s, budget);
    var first := PlainStep(m, v, s);
    if first.stop == InstructionLimit {
      StartFollowsTrace(m, first.view, first.state, None, budget);
      if k > 0 {
        StopsAtFirstHit(m, first.view, first.state, None, budget, k - 1);
        assert forall j: nat | 0 < j <= k ::
               BlockedAt(m, v, s, None, j) == BlockedAt(m, first.view, first.state, None, j - 1);
        if NextBreakpoint(m, v, s, k) {
          forall j: nat | j < k - 1
            ensures !BlockedAt(m, first.view, first.state, None, j)
          {
            assert !BlockedAt(m, v, s, None, j + 1);
          }
          assert FirstHit(m, first.view, first.state, None, k - 1);
        }
      }
    }
  }

  /** Continuing from a breakpoint ends after `k` instructions: at least one, and then where
      the guest ends or the next breakpoint lies. */
  ghost predicate ContinuesFor<S>(m: Machine<S>, v: View, s: S, k: nat) {
    && k > 0
    && (forall j: nat | j < k :: Runs(m, v, s, j))
    && (forall j: nat | 0 < j < k :: !BlockedAt(m, v, s, None, j))
    && (!Runs(m, v, s, k) || BlockedAt(m, v, s, None, k))
  }

  lemma ContinueEnds<S>(m: Machine<S>, v: View, s: S, budget: nat, k: nat)
    requires Armed(v, m.pc(s)) && LiftUnseen(m, v, s) && m.pc(s) !in v.lost && !StepClears(m, v, s)
    requires k <= budget + 1 && ContinuesFor(m, v, s, k)
    ensures var r := ContinueExecution(m, v, s, budget);
            r.executed == k && (r.view, r.state) == Trace(m, v, s, k)
  {
    ContinueRefinesStepThenRun(m, v, s, budget);
    var first := PlainStep(m, v, s);
    assert Trace(m, v, s, 1) == (first.view, first.state) by {
      assert Trace(m, first.view, first.state, 0) == (first.view, first.state);
    }
    if first.stop != InstructionLimit {
      assert k > 1 ==> Runs(m, v, s, 1);
    } else {
      forall j: nat | j < k - 1
        ensures Runs(m, first.view, first.state, j) && !BlockedAt(m, first.view, first.state, None, j)
      {
        assert Runs(m, v, s, j + 1) && !BlockedAt(m, v, s, None, j + 1);
      }
      assert BlockedAt(m, v, s, None, k) == BlockedAt(m, first.view, first.state, None, k - 1);
      StartEndsIff(m, first.view, first.state, None, 0, budget, k - 1);
    }
  }

  /** `run_to` does not step off a breakpoint: from one, from a lost hook, or from its
      own target, it stops before the first instruction. */
  lemma RunToStopsWhereItStands<S>(m: Machine<S>, v: View, s: S, address: Word, budget: nat)
    ensures var r := RunTo(m, v, s, address, budget);
            && (r.stop == BreakpointHit && r.executed == 0 <==>
               Armed(v, m.pc(s)) || m.pc(s) in v.lost || m.pc(s) == address)
            && (r.executed == 0 ==> (r.view, r.state) == (v, s))
  {
    StartFollowsTrace(m, v, s, Some(address), budget);
  }

  /** `step_out` is refused exactly when there is no frame to return from; otherwise it
      stops at the first configuration at a breakpoint or at the saved return address. */
  lemma StepOutStopsAtReturnAddress<S>(m: Machine<S>, v: View, s: S, budget: nat, k: nat)
    requires k <= budget
    ensures var saved := m.read(s, Wrap(m.framePointer(s) + 8));
            var r := StepOut(m, v, s, budget);
            && (r.Refused? <==> m.framePointer(s) == 0 || saved == None || saved == Some(0))
            && (r.Refused? ==> r.error == if m.framePointer(s) == 0 then ZeroFramePointer
                                          else if saved == None then UnreadableReturnAddress else ZeroReturnAddress)
            && (r.Returned? ==>
                  (r.run.stop == BreakpointHit && r.run.executed == k <==> FirstHit(m, v, s, saved, k)))
  {
    StopsAtFirstHit(m, v, s, m.read(s, Wrap(m.framePointer(s) + 8)), budget, k);
  }

  // ---- Commands act on the registry through callbacks only --------------------

  /** What the callbacks of the instructions executed by a run do, in order. */
  function EventsOf<S>(m: Machine<S>, v: View, s: S, temporary: Option<Word>, limit: nat, budget: nat): seq<Event>
    decreases budget
  {
    if Blocked(v, temporary, m.pc(s)) || budget == 0 then []
    else
      var i := m.step(v, s);
      if i.end.Some? || limit == 1 then i.events
      else
        i.events + EventsOf(m, Exec(v, i.events), i.next, temporary, if limit == 0 then 0 else limit - 1, budget - 1)
  }

  lemma {:induction false} StartActs<S>(m: Machine<S>, v: View, s: S, temporary: Option<Word>, limit: nat, budget: nat)
    ensures Start(m, v, s, temporary, limit, budget).view == Exec(v, EventsOf(m, v, s, temporary, limit, budget))
    decreases budget
  {
    if !Blocked(v, temporary, m.pc(s)) && budget > 0 {
      var i := m.step(v, s);
      if i.end.None? && limit != 1 {
        var left := if limit == 0 then 0 else limit - 1;
        StartActs(m, Exec(v, i.events), i.next, temporary, left, budget - 1);
        ExecAppend(v, i.events, EventsOf(m, Exec(v, i.events), i.next, temporary, left, budget - 1));
      }
    }
  }

  function SuppressedEvents<S>(m: Machine<S>, v: View, s: S): seq<Event> {
    if m.pc(s) in v.lost then [] else m.step(Lift(v, m.pc(s)), s).events
  }

  function StepIntoEvents<S>(m: Machine<S>, v: View, s: S): seq<Event> {
    if Armed(v, m.pc(s)) then SuppressedEvents(m, v, s) else EventsOf(m, v, s, None, 1, 1)
  }

  function ContinueEvents<S>(m: Machine<S>, v: View, s: S, budget: nat): seq<Event> {
    if !Armed(v, m.pc(s)) then EventsOf(m, v, s, None, 0, budget)
    else
      var first := SuppressedStep(m, v, s);
      SuppressedEvents(m, v, s)
      + if first.stop != InstructionLimit then [] else EventsOf(m, first.view, first.state, None, 0, budget)
  }

  /** No command leaves a trace of its own on the registry: lifting, stepping over,
      planting and removing hooks all cancel out, however the run ended, and what remains
      is what the callbacks did. Only a suppressed instruction that clears its own
      breakpoint is an exception. */
  lemma CommandsActThroughCallbacks<S>(m: Machine<S>, v: View, s: S, address: Word, budget: nat)
    ensures RunTo(m, v, s, address, budget).view == Exec(v, EventsOf(m, v, s, Some(address), 0, budget))
    ensures var saved := m.read(s, Wrap(m.framePointer(s) + 8));
            StepOut(m, v, s, budget).Returned? ==>
              StepOut(m, v, s, budget).run.view == Exec(v, EventsOf(m, v, s, saved, 0, budget))
    ensures !(Armed(v, m.pc(s)) && m.pc(s) !in v.lost && StepClears(m, v, s)) ==>
              && StepInto(m, v, s).view == Exec(v, StepIntoEvents(m, v, s))
              && ContinueExecution(m, v, s, budget).view == Exec(v, ContinueEvents(m, v, s, budget))
  {
    StartActs(m, v, s, Some(address), 0, budget);
    StartActs(m, v, s, m.read(s, Wrap(m.framePointer(s) + 8)), 0, budget);
    if !Armed(v, m.pc(s)) {
      StartActs(m, v, s, None, 1, 1);
      StartActs(m, v, s, None, 0, budget);
    } else if m.pc(s) in v.lost || !StepClears(m, v, s) {
      SuppressedStepActs(m, v, s);
      var first := SuppressedStep(m, v, s);
      var rest := EventsOf(m, first.view, first.state, None, 0, budget);
      StartActs(m, first.view, first.state, None, 0, budget);
      ExecAppend(v, SuppressedEvents(m, v, s), rest);
      assert SuppressedEvents(m, v, s) + [] == SuppressedEvents(m, v, s);
    }
  }

  predicate LeavesBreakpoints(es: seq<Event>) {
    forall e | e in es :: !e.SetBreakpoint? && !e.ClearBreakpoint?
  }

  lemma {:induction false} ExecLeavesBreakpoints(v: View, es: seq<Event>)
    requires LeavesBreakpoints(es)
    ensures Exec(v, es).breakpoints == v.breakpoints
    decreases |es|
  {
    if es != [] {
      assert es[0] in es;
      assert forall e | e in es[1..] :: e in es;
      ExecLeavesBreakpoints(Step(v, es[0]), es[1..]);
    }
  }

  /** A command whose own callbacks neither set nor clear breakpoints leaves the
      breakpoint table as it found it, however the run ended. */
  lemma CommandsLeaveBreakpoints<S>(m: Machine<S>, v: View, s: S, address: Word, budget: nat)
    ensures LeavesBreakpoints(EventsOf(m, v, s, Some(address), 0, budget)) ==>
              RunTo(m, v, s, address, budget).view.breakpoints == v.breakpoints
    ensures LeavesBreakpoints(EventsOf(m, v, s, m.read(s, Wrap(m.framePointer(s) + 8)), 0, budget)) ==>
              (StepOut(m, v, s, budget).Returned? ==> StepOut(m, v, s, budget).run.view.breakpoints == v.breakpoints)
    ensures LeavesBreakpoints(StepIntoEvents(m, v, s)) ==> StepInto(m, v, s).view.breakpoints == v.breakpoints
    ensures LeavesBreakpoints(ContinueEvents(m, v, s, budget)) ==>
              ContinueExecution(m, v, s, budget).view.breakpoints == v.breakpoints
  {
    CommandsActThroughCallbacks(m, v, s, address, budget);
    var stepping := StepIntoEvents(m, v, s);
    var continuing := ContinueEvents(m, v, s, budget);
    if LeavesBreakpoints(stepping) {
      ExecLeavesBreakpoints(v, stepping);
    }
    if LeavesBreakpoints(continuing) {
      assert Armed(v, m.pc(s)) ==> forall e | e in SuppressedEvents(m, v, s) :: e in continuing;
      ExecLeavesBreakpoints(v, continuing);
    }
    var target := EventsOf(m, v, s, Some(address), 0, budget);
    if LeavesBreakpoints(target) {
      ExecLeavesBreakpoints(v, target);
    }
    var out := EventsOf(m, v, s, m.read(s, Wrap(m.framePointer(s) + 8)), 0, budget);
    if LeavesBreakpoints(out) {
      ExecLeavesBreakpoints(v, out);
    }
  }
}
