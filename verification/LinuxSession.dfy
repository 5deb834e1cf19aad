/** Whole histories of the Linux registry: requests between runs, and runs. */
module LinuxSession {
  import opened Prelude
  import opened LinuxState
  import opened Debugger

  datatype Command = StartFor(limit: nat) | Into | Out | ToAddress(address: Word) | Continue

  datatype Request<S> =
    | Install(address: Word)
    | Outside(event: Event)
    | Command(command: Command, state: S, budget: nat)

  function ExecuteOn<S>(m: Machine<S>, v: View, command: Command, s: S, budget: nat): View {
    if v.running then v
    else
      var started := v.(running := true);
      var done := match command
        case StartFor(limit) => Start(m, started, s, None, limit, budget).view
        case Into => StepInto(m, started, s).view
        case Out =>
          var r := StepOut(m, started, s, budget);
          if r.Returned? then r.run.view else started
        case ToAddress(address) => RunTo(m, started, s, address, budget).view
        case Continue => ContinueExecution(m, started, s, budget).view;
      done.(running := false)
  }

  function Serve<S>(m: Machine<S>, v: View, r: Request<S>): View {
    match r
    case Install(_) => if v.running then v else AddHook(v)
    case Outside(e) => Step(v, e)
    case Command(command, s, budget) => ExecuteOn(m, v, command, s, budget)
  }

  function ServeAll<S>(m: Machine<S>, v: View, history: seq<Request<S>>): View
    decreases |history|
  {
    if history == [] then v else ServeAll(m, Serve(m, v, history[0]), history[1..])
  }

  // ---- Which run a command performs ------------------------------------------

  function Stopped(v: View): View {
    v.(running := false)
  }

  /** The registry after `k` instructions of the trace that starts with the run. */
  function After<S>(m: Machine<S>, v: View, s: S, k: nat): View {
    Stopped(Trace(m, v.(running := true), s, k).0)
  }

  /** A start executes as many instructions as its limit allows, fewer exactly when a hook or
      the guest ends it before; without a limit it goes on until one of these does. */
  lemma StartForExecutes<S>(m: Machine<S>, v: View, s: S, limit: nat, budget: nat, k: nat)
    requires !v.running && k <= budget && EndsAfter(m, v.(running := true), s, None, limit, k)
    ensures ExecuteOn(m, v, StartFor(limit), s, budget) == After(m, v, s, k)
  {
    StartEndsIff(m, v.(running := true), s, None, limit, budget, k);
  }

  /** Running to an address goes on until the run meets it, a breakpoint or the guest's end. */
  lemma ToAddressExecutes<S>(m: Machine<S>, v: View, s: S, address: Word, budget: nat, k: nat)
    requires !v.running && k <= budget && EndsAfter(m, v.(running := true), s, Some(address), 0, k)
    ensures ExecuteOn(m, v, ToAddress(address), s, budget) == After(m, v, s, k)
  {
    StartEndsIff(m, v.(running := true), s, Some(address), 0, budget, k);
  }

  /** Stepping out is running to the saved return address, and nothing without one. */
  lemma OutExecutes<S>(m: Machine<S>, v: View, s: S, budget: nat, k: nat)
    requires !v.running && k <= budget
    ensures var saved := m.read(s, Wrap(m.framePointer(s) + 8));
            var done := ExecuteOn(m, v, Out, s, budget);
            if m.framePointer(s) == 0 || saved == None || saved == Some(0) then done == v
            else EndsAfter(m, v.(running := true), s, saved, 0, k) ==> done == After(m, v, s, k)
  {
    StartEndsIff(m, v.(running := true), s, m.read(s, Wrap(m.framePointer(s) + 8)), 0, budget, k);
  }

  /** Stepping executes the one instruction there, from a breakpoint too, unless a lost hook
      stops it; a breakpoint that the instruction clears comes back. */
  lemma IntoExecutes<S>(m: Machine<S>, v: View, s: S, budget: nat)
    requires !v.running
    ensures var started := v.(running := true);
            var es := m.step(if Armed(v, m.pc(s)) then Lift(started, m.pc(s)) else started, s).events;
            var done := ExecuteOn(m, v, Into, s, budget);
            if m.pc(s) in v.lost then done == v
            else if Armed(v, m.pc(s)) && Clears(es, m.pc(s)) then
              done == Stopped(Rearm(Exec(started, es), m.pc(s)))
            else done == Stopped(Exec(started, es))
  {
    StepIntoIsOneInstruction(m, v.(running := true), s);
  }

  /** Continuing executes at least one instruction from a breakpoint and goes on until the
      next one or the guest's end; elsewhere it is a start without a limit. */
  lemma ContinueExecutes<S>(m: Machine<S>, v: View, s: S, budget: nat, k: nat)
    requires !v.running && k <= budget
    ensures var started := v.(running := true);
            var done := ExecuteOn(m, v, Continue, s, budget);
            if !Armed(v, m.pc(s)) then EndsAfter(m, started, s, None, 0, k) ==> done == After(m, v, s, k)
            else (&& m.pc(s) !in v.lost && LiftUnseen(m, started, s) && !StepClears(m, started, s)
                  && ContinuesFor(m, started, s, k)) ==> done == After(m, v, s, k)
  {
    var started := v.(running := true);
    if !Armed(v, m.pc(s)) {
      StartEndsIff(m, started, s, None, 0, budget, k);
    } else if m.pc(s) !in v.lost && LiftUnseen(m, started, s) && !StepClears(m, started, s)
              && ContinuesFor(m, started, s, k) {
      ContinueEnds(m, started, s, budget, k);
    }
  }

  // ---- A hook stays until its removal is asked for ------------------------------

  ghost predicate NeverAsksRemoval<S(!new)>(m: Machine<S>, id: HookId) {
    forall v, s :: Event.RemoveHook(id) !in m.step(v, s).events
  }

  predicate Kept(v: View, id: HookId) {
    id in v.hooks && !v.hooks[id]
  }

  lemma {:induction false} ExecKeepsHook(v: View, es: seq<Event>, id: HookId)
    requires Kept(v, id) && Event.RemoveHook(id) !in es
    ensures Kept(Exec(v, es), id)
    decreases |es|
  {
    if es != [] {
      assert es[0] in es && forall e | e in es[1..] :: e in es;
      ExecKeepsHook(Step(v, es[0]), es[1..], id);
    }
  }

  lemma {:induction false} StartKeepsHook<S(!new)>(m: Machine<S>, v: View, s: S, temporary: Option<Word>, limit: nat,
                                                   budget: nat, id: HookId)
    requires NeverAsksRemoval(m, id) && Kept(v, id)
    ensures Kept(Start(m, v, s, temporary, limit, budget).view, id)
    decreases budget
  {
    if !Blocked(v, temporary, m.pc(s)) && budget > 0 {
      var i := m.step(v, s);
      ExecKeepsHook(v, i.events, id);
      if i.end.None? && limit != 1 {
        StartKeepsHook(m, Exec(v, i.events), i.next, temporary, if limit == 0 then 0 else limit - 1, budget - 1, id);
      }
    }
  }

  lemma CommandKeepsHook<S(!new)>(m: Machine<S>, v: View, command: Command, s: S, budget: nat, id: HookId)
    requires NeverAsksRemoval(m, id) && Kept(v, id)
    ensures Kept(ExecuteOn(m, v, command, s, budget), id)
  {
    var started := v.(running := true);
    match command
    case StartFor(limit) => StartKeepsHook(m, started, s, None, limit, budget, id);
    case Into =>
      StartKeepsHook(m, started, s, None, 1, 1, id);
      StartKeepsHook(m, Lift(started, m.pc(s)), s, None, 1, 1, id);
    case Out =>
      match m.read(s, Wrap(m.framePointer(s) + 8)) {
        case None =>
        case Some(address) => StartKeepsHook(m, started, s, Some(address), 0, budget, id);
      }
    case ToAddress(address) => StartKeepsHook(m, started, s, Some(address), 0, budget, id);
    case Continue =>
      StartKeepsHook(m, started, s, None, 0, budget, id);
      StartKeepsHook(m, Lift(started, m.pc(s)), s, None, 1, 1, id);
      var first := SuppressedStep(m, started, s);
      StartKeepsHook(m, first.view, first.state, None, 0, budget, id);
  }

  lemma {:induction false} HistoryKeepsHook<S(!new)>(m: Machine<S>, v: View, history: seq<Request<S>>, id: HookId)
    requires NeverAsksRemoval(m, id) && Kept(v, id) && Outside(Event.RemoveHook(id)) !in history
    ensures Kept(ServeAll(m, v, history), id)
    decreases |history|
  {
    if history != [] {
      var r := history[0];
      assert r in history && forall q | q in history[1..] :: q in history;
      match r {
        case Install(_) =>
        case Outside(e) => ExecKeepsHook(v, [e], id); ExecOne(v, e);
        case Command(command, s, budget) => CommandKeepsHook(m, v, command, s, budget, id);
      }
      HistoryKeepsHook(m, Serve(m, v, r), history[1..], id);
    }
  }

  /** A hook that was installed stays registered, over every history, until its own callback
      or a request between runs asks for its removal. */
  lemma InstalledHookStays<S(!new)>(m: Machine<S>, v: View, address: Word, history: seq<Request<S>>)
    requires !v.running && NeverAsksRemoval(m, v.nextId) && Outside(Event.RemoveHook(v.nextId)) !in history
    ensures Kept(ServeAll(m, v, [Install(address)] + history), v.nextId)
  {
    assert ([Install(address)] + history)[1..] == history;
    HistoryKeepsHook(m, Serve(m, v, Install(address)), history, v.nextId);
  }

  predicate CommandLosesHandle<S>(m: Machine<S>, v: View, command: Command, s: S) {
    !v.running && (command.Into? || command.Continue?) && LosesHandle(m, v.(running := true), s)
  }

  /** No command of the history loses a handle. */
  predicate Conserving<S>(m: Machine<S>, v: View, history: seq<Request<S>>)
    decreases |history|
  {
    history != [] ==>
      && (history[0].Command? ==> !CommandLosesHandle(m, v, history[0].command, history[0].state))
      && Conserving(m, Serve(m, v, history[0]), history[1..])
  }

  /** A command loses at most the handle of the breakpoint it starts at, and exactly
      when its first instruction's callbacks clear that breakpoint and set it again. */
  lemma CommandLoses<S>(m: Machine<S>, v: View, command: Command, s: S, budget: nat)
    ensures ExecuteOn(m, v, command, s, budget).lost ==
            if CommandLosesHandle(m, v, command, s) then v.lost + {m.pc(s)} else v.lost
  {
    var started := v.(running := true);
    match command
    case StartFor(limit) => StartKeepsLost(m, started, s, None, limit, budget);
    case Into =>
      StartKeepsLost(m, started, s, None, 1, 1);
      if Armed(started, m.pc(s)) {
        SuppressedStepLoses(m, started, s);
      }
    case Out =>
      match m.read(s, Wrap(m.framePointer(s) + 8)) {
        case None =>
        case Some(address) => StartKeepsLost(m, started, s, Some(address), 0, budget);
      }
    case ToAddress(address) => StartKeepsLost(m, started, s, Some(address), 0, budget);
    case Continue =>
      StartKeepsLost(m, started, s, None, 0, budget);
      if Armed(started, m.pc(s)) {
        SuppressedStepLoses(m, started, s);
        var first := SuppressedStep(m, started, s);
        StartKeepsLost(m, first.view, first.state, None, 0, budget);
      }
  }

  lemma ServeLoses<S>(m: Machine<S>, v: View, r: Request<S>)
    ensures v.lost <= Serve(m, v, r).lost
    ensures Serve(m, v, r).lost == v.lost <==> !(r.Command? && CommandLosesHandle(m, v, r.command, r.state))
  {
    match r
    case Install(_) =>
    case Outside(e) => ExecKeepsLost(v, [e]); ExecOne(v, e);
    case Command(command, s, budget) => CommandLoses(m, v, command, s, budget);
  }

  /** A lost hook stays for good, whatever is requested afterwards, and a history loses
      none exactly when none of its commands does. */
  lemma {:induction false} HistoryLosesIff<S>(m: Machine<S>, v: View, history: seq<Request<S>>)
    ensures v.lost <= ServeAll(m, v, history).lost
    ensures ServeAll(m, v, history).lost == v.lost <==> Conserving(m, v, history)
    decreases |history|
  {
    if history != [] {
      ServeLoses(m, v, history[0]);
      HistoryLosesIff(m, Serve(m, v, history[0]), history[1..]);
    }
  }

  /** A guest whose one instruction has a callback that clears the breakpoint at it and
      sets it again. */
  function RearmingGuest(at: Word): Machine<bool> {
    Machine(_ => at, _ => 0, (_, _) => None, (_, s) => Instruction([ClearBreakpoint(at), SetBreakpoint(at)], s, None))
  }

  /** Losing a handle takes one breakpoint and one step. */
  lemma HandleCanBeLost(at: Word)
    ensures var m := RearmingGuest(at);
            var history := [Outside(SetBreakpoint(at)), Request.Command(Into, true, 1)];
            && WellBehaved(m) && CallbacksOnlyInRuns(history) && !Conserving(m, Initial([]), history)
            && ServeAll(m, Initial([]), history).lost == {at}
  {
    var m := RearmingGuest(at);
    var es := [ClearBreakpoint(at), SetBreakpoint(at)];
    assert es[1..] == [SetBreakpoint(at)] && es[1..][1..] == [];
    forall v: View, s: bool | v.stack == []
      ensures Admissible(v, m.step(v, s).events) && Exec(v, m.step(v, s).events).stack == []
    {
      var w := Step(v, es[0]);
      assert Exec(w, es[1..]) == Step(w, es[1]) by {
        ExecOne(w, es[1]);
      }
      assert Admissible(Step(w, es[1]), []) && Admissible(w, es[1..]);
    }
    var armed := Step(Initial([]), SetBreakpoint(at));
    var history := [Outside(SetBreakpoint(at)), Request.Command(Into, true, 1)];
    assert history[1..][1..] == [];
    assert ClearsThenSets(es, at);
    assert CommandLosesHandle(m, armed, Into, true);
    CommandLoses(m, armed, Into, true, 1);
    assert Serve(m, Initial([]), history[0]) == armed;
    assert !Conserving(m, armed, history[1..]);
    assert ServeAll(m, armed, history[1..]) == ServeAll(m, Serve(m, armed, history[1]), []);
  }

  /** Nothing removes a lost hook: whatever happens in between, clearing its breakpoint
      included, no run and no continuation ever gets past its address again. */
  lemma LostHookStopsForever<S>(m: Machine<S>, v: View, history: seq<Request<S>>, s: S, limit: nat, budget: nat)
    requires m.pc(s) in v.lost
    ensures var w := ServeAll(m, v, history);
            && Start(m, w, s, None, limit, budget) == Run(w, s, 0, BreakpointHit)
            && StepInto(m, w, s) == Run(w, s, 0, BreakpointHit)
            && ContinueExecution(m, w, s, budget) == Run(w, s, 0, BreakpointHit)
  {
    HistoryLosesIff(m, v, history);
    StepIntoIsOneInstruction(m, ServeAll(m, v, history), s);
  }

  // ---- Between requests the registry is at rest ------------------------------

  function Initial(modules: seq<Module>): View {
    View(map[], [], map[], map[], {}, false, 0, modules, modules)
  }

  predicate NoneLifted(v: View) {
    forall a | a in v.breakpoints :: v.breakpoints[a]
  }

  /** Nothing is running, pending or lifted, and symbol hooks are where their last refresh
      put them. */
  predicate Quiescent(v: View) {
    !v.running && v.stack == [] && Protocol(v) && NoneLifted(v) && SymbolsAgree(v)
  }

  /** During one instruction the emulator enters installed hooks one inside another
      and every callback returns before the instruction ends. */
  ghost predicate WellBehaved<S(!new)>(m: Machine<S>) {
    forall v, s | Protocol(v) && v.running && v.stack == [] ::
      Admissible(v, m.step(v, s).events) && Exec(v, m.step(v, s).events).stack == []
  }

  /** Hook callbacks fire only inside a run. */
  ghost predicate CallbacksOnlyInRuns<S>(history: seq<Request<S>>) {
    forall r | r in history && r.Outside? :: !r.event.Enter? && !r.event.Leave?
  }

  predicate Busy(v: View) {
    v.running && v.stack == [] && Protocol(v) && SymbolsAgree(v)
  }

  /** No callback lifts a breakpoint. */
  lemma {:induction false} ExecLiftsNothing(v: View, es: seq<Event>, a: Word)
    requires a in v.breakpoints ==> v.breakpoints[a]
    ensures a in Exec(v, es).breakpoints ==> Exec(v, es).breakpoints[a]
    decreases |es|
  {
    if es != [] {
      ExecLiftsNothing(Step(v, es[0]), es[1..], a);
    }
  }

  lemma {:induction false} StartStaysBusy<S(!new)>(m: Machine<S>, v: View, s: S, temporary: Option<Word>, limit: nat,
                                                   budget: nat, except: Option<Word>)
    requires WellBehaved(m) && Busy(v)
    requires forall a | a in v.breakpoints && except != Some(a) :: v.breakpoints[a]
    ensures var w := Start(m, v, s, temporary, limit, budget).view;
            Busy(w) && forall a | a in w.breakpoints && except != Some(a) :: w.breakpoints[a]
    decreases budget
  {
    if !Blocked(v, temporary, m.pc(s)) && budget > 0 {
      var i := m.step(v, s);
      RunKeepsProtocol(v, i.events);
      RunKeepsSymbolsAgree(v, i.events);
      var after := Exec(v, i.events);
      forall a | a in after.breakpoints && except != Some(a)
        ensures after.breakpoints[a]
      {
        ExecLiftsNothing(v, i.events, a);
      }
      if i.end.None? && limit != 1 {
        StartStaysBusy(m, after, i.next, temporary, if limit == 0 then 0 else limit - 1, budget - 1, except);
      }
    }
  }

  lemma SuppressedStepStaysBusy<S(!new)>(m: Machine<S>, v: View, s: S)
    requires WellBehaved(m) && Busy(v) && NoneLifted(v)
    ensures Busy(SuppressedStep(m, v, s).view) && NoneLifted(SuppressedStep(m, v, s).view)
  {
    StartStaysBusy(m, Lift(v, m.pc(s)), s, None, 1, 1, Some(m.pc(s)));
  }

  lemma CommandStaysQuiescent<S(!new)>(m: Machine<S>, v: View, command: Command, s: S, budget: nat)
    requires WellBehaved(m) && Quiescent(v)
    ensures Quiescent(ExecuteOn(m, v, command, s, budget))
  {
    var started := v.(running := true);
    match command
    case StartFor(limit) => StartStaysBusy(m, started, s, None, limit, budget, None);
    case Into =>
      StartStaysBusy(m, started, s, None, 1, 1, None);
      SuppressedStepStaysBusy(m, started, s);
    case Out =>
      match m.read(s, Wrap(m.framePointer(s) + 8)) {
        case None =>
        case Some(address) => StartStaysBusy(m, started, s, Some(address), 0, budget, None);
      }
    case ToAddress(address) => StartStaysBusy(m, started, s, Some(address), 0, budget, None);
    case Continue =>
      StartStaysBusy(m, started, s, None, 0, budget, None);
      SuppressedStepStaysBusy(m, started, s);
      var first := SuppressedStep(m, started, s);
      StartStaysBusy(m, first.view, first.state, None, 0, budget, None);
  }

  /** Over every history of requests, whatever the guest and its callbacks do inside
      the runs and however each run ends, the registry comes to rest: a lifted
      breakpoint or a pending removal never outlives a request, and symbol hooks are where
      their last refresh put them. */
  lemma {:induction false} HistoryStaysQuiescent<S(!new)>(m: Machine<S>, v: View, history: seq<Request<S>>)
    requires WellBehaved(m) && Quiescent(v) && CallbacksOnlyInRuns(history)
    ensures Quiescent(ServeAll(m, v, history))
    decreases |history|
  {
    if history != [] {
      var r := history[0];
      var w := Serve(m, v, r);
      assert r in history && forall q | q in history[1..] :: q in history;
      match r {
        case Install(_) =>
        case Outside(e) =>
          StepKeepsProtocol(v, e);
          StepKeepsSymbolsAgree(v, e);
          assert Quiescent(w);
        case Command(command, s, budget) => CommandStaysQuiescent(m, v, command, s, budget);
      }
      HistoryStaysQuiescent(m, w, history[1..]);
    }
  }
}
