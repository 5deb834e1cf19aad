/**
 Low-level Windows hooks: removal from inside a callback is deferred to the end of
 the run, and a single flag, not a depth, says whether a callback is executing. On the
 Dart side a hook removed during a run only stops calling its user function.
 */
module WindowsLowHooks {
  import opened Prelude

  /** The native callback ran: either the user's function, or Dart's fallback answer
      because the handle was already inactive. */
  datatype Call = Call(id: HookId, user: bool)

  datatype State = State(
    lowHooks: set<HookId>,      // low_hooks, one emulator hook each
    deferred: seq<HookId>,      // deferred_hook_removals
    nextId: HookId,
    running: bool,
    inCallback: bool,           // in_low_hook_callback
    suspended: set<HookId>,     // removed on the Dart side, still installed
    current: Option<HookId>,    // Dart's _currentCallback
    handles: set<HookId>,       // every handle Dart ever made, each with a native callable
    closed: set<HookId>,        // those whose callable was closed
    executing: seq<HookId>,     // the callables on the control stack
    disposed: bool,
    log: seq<Call>)

  /** What happens inside a run: the emulator fires a hook, whose callback does things;
      a callback asks for a removal, natively or through its Dart handle. */
  datatype Act = Fire(id: HookId, body: seq<Act>) | NativeRemove(id: HookId) | DartRemove(id: HookId)

  function Install(s: State): State {
    if s.disposed then s
    else s.(lowHooks := s.lowHooks + {s.nextId}, handles := s.handles + {s.nextId}, nextId := s.nextId + 1)
  }

  function RemovalStatus(s: State, id: HookId): Status {
    if id in s.lowHooks && s.inCallback then Ok else if s.running then BadState else Ok
  }

  function RemoveHook(s: State, id: HookId): State {
    if id !in s.lowHooks then s
    else if s.inCallback then s.(deferred := s.deferred + [id])
    else if s.running then s
    else s.(lowHooks := s.lowHooks - {id})
  }

  /** Dart refuses the removal unless the hook is the callback it is executing; the
      native hook stays installed. */
  function Suspend(s: State, id: HookId): State {
    if s.current == Some(id) then s.(suspended := s.suspended + {id}) else s
  }

  /** A hook's callback is entered: natively always, in Dart if its handle is active. */
  function EnterHook(s: State, id: HookId): State {
    s.(inCallback := true, log := s.log + [Call(id, id !in s.suspended)],
       current := if id in s.suspended then s.current else Some(id), executing := s.executing + [id])
  }

  function Perform(s: State, a: Act): State
    decreases a
  {
    match a
    case NativeRemove(id) => RemoveHook(s, id)
    case DartRemove(id) => Suspend(s, id)
    case Fire(id, body) =>
      // The emulator has deleted the hook, or its closure finds the removal pending.
      if id !in s.lowHooks || id in s.deferred then s
      else
        var entered := EnterHook(s, id);
        var done := if id in s.suspended then entered else PerformAll(entered, body);
        done.(inCallback := false, current := s.current, executing := s.executing)
  }

  function PerformAll(s: State, acts: seq<Act>): State
    decreases acts
  {
    if acts == [] then s else PerformAll(Perform(s, acts[0]), acts[1..])
  }

  /** `flush_low_hook_removals`. */
  function Flush(s: State): State {
    s.(lowHooks := s.lowHooks - (set id | id in s.deferred), deferred := [])
  }

  /** A run, whether `start` returns or throws, and Dart's `_finishRun` after it, which
      uninstalls each removed hook and then closes its callable. */
  function Start(s: State, acts: seq<Act>): State {
    if s.running || s.disposed then s
    else
      var native := Flush(PerformAll(s.(running := true), acts).(running := false));
      native.(lowHooks := native.lowHooks - native.suspended, closed := native.closed
          + native.suspended, suspended := {})
  }

  /** Removing a handle between runs: natively first, then the callable is closed. */
  function RemoveHandle(s: State, id: HookId): State {
    if s.running || s.disposed || id !in s.handles then s
    else
      var native := RemoveHook(s, id);
      native.(closed := native.closed + {id})
  }

  /** The native application goes first, then every callable is closed. */
  function DisposeAll(s: State): State {
    if s.running then s else s.(lowHooks := {}, closed := s.handles, disposed := true)
  }

  datatype Request = Installing | Removing(id: HookId) | Uninstalling(id: HookId) | Running(acts: seq<Act>) | Disposing

  function Serve(s: State, r: Request): State {
    match r
    case Installing => Install(s)
    case Removing(id) => RemoveHandle(s, id)
    case Uninstalling(id) => RemoveHook(s, id)
    case Running(acts) => Start(s, acts)
    case Disposing => DisposeAll(s)
  }

  function ServeAll(s: State, history: seq<Request>): State
    decreases |history|
  {
    if history == [] then s else ServeAll(Serve(s, history[0]), history[1..])
  }

  // ---- Removal is permanent -------------------------------------------------------------

  /** The id was handed out, and its hook is deleted or about to be. */
  predicate Gone(s: State, id: HookId) {
    id < s.nextId && (id !in s.lowHooks || id in s.deferred)
  }

  ghost predicate LogGrowsWithout(s: State, t: State, id: HookId) {
    s.log <= t.log && forall i | |s.log| <= i < |t.log| :: t.log[i].id != id
  }

  lemma RemovalMakesGone(s: State, id: HookId)
    requires id in s.lowHooks && id < s.nextId && RemovalStatus(s, id) == Ok
    ensures Gone(RemoveHook(s, id), id)
  {
  }

  lemma {:induction false} PerformKeepsGone(s: State, a: Act, id: HookId)
    requires Gone(s, id)
    ensures Gone(Perform(s, a), id) && LogGrowsWithout(s, Perform(s, a), id)
    decreases a
  {
    match a
    case Fire(other, body) =>
      if other in s.lowHooks && other !in s.deferred {
        var entered := EnterHook(s, other);
        PerformAllKeepsGone(entered, body, id);
      }
    case _ =>
  }

  lemma {:induction false} PerformAllKeepsGone(s: State, acts: seq<Act>, id: HookId)
    requires Gone(s, id)
    ensures Gone(PerformAll(s, acts), id) && LogGrowsWithout(s, PerformAll(s, acts), id)
    decreases acts
  {
    if acts != [] {
      PerformKeepsGone(s, acts[0], id);
      PerformAllKeepsGone(Perform(s, acts[0]), acts[1..], id);
    }
  }

  /** Once a removal was accepted the hook's callback never runs again, in the same run
      or any later one, and its id never comes back to life. */
  lemma {:induction false} RemovalIsPermanent(s: State, history: seq<Request>, id: HookId)
    requires Gone(s, id)
    ensures Gone(ServeAll(s, history), id) && LogGrowsWithout(s, ServeAll(s, history), id)
    decreases |history|
  {
    if history != [] {
      if history[0].Running? && !s.running && !s.disposed {
        PerformAllKeepsGone(s.(running := true), history[0].acts, id);
      }
      RemovalIsPermanent(Serve(s, history[0]), history[1..], id);
    }
  }

  // ---- Between runs nothing is pending ------------------------------------------------------

  predicate AtRest(s: State) {
    && s.deferred == [] && s.suspended == {} && !s.running && !s.inCallback && s.current == None && s.executing == []
    && forall id | id in s.lowHooks :: id < s.nextId
  }

  lemma {:induction false} PerformBounds(s: State, a: Act)
    ensures var t := Perform(s, a);
            t.running == s.running && t.nextId == s.nextId
            && (s.running ==> t.lowHooks == s.lowHooks)
            && (!s.inCallback ==> !t.inCallback)
            && t.current == s.current && t.executing == s.executing && t.closed == s.closed && t.handles == s.handles
            && t.disposed == s.disposed
    decreases a
  {
    if a.Fire? && a.id in s.lowHooks && a.id !in s.deferred {
      PerformAllBounds(EnterHook(s, a.id), a.body);
    }
  }

  lemma {:induction false} PerformAllBounds(s: State, acts: seq<Act>)
    ensures var t := PerformAll(s, acts);
            t.running == s.running && t.nextId == s.nextId
            && (s.running ==> t.lowHooks == s.lowHooks)
            && (!s.inCallback ==> !t.inCallback)
            && t.current == s.current && t.executing == s.executing && t.closed == s.closed && t.handles == s.handles
            && t.disposed == s.disposed
    decreases acts
  {
    if acts != [] {
      PerformBounds(s, acts[0]);
      PerformAllBounds(Perform(s, acts[0]), acts[1..]);
    }
  }

  /** After a run no removal is pending, and everything removed during it, natively or
      in Dart, is uninstalled; what was not removed still is installed. */
  lemma RunEndsAtRest(s: State, acts: seq<Act>)
    requires AtRest(s)
    ensures AtRest(Start(s, acts))
    ensures var t := PerformAll(s.(running := true), acts);
            !s.disposed ==>
                Start(s, acts).lowHooks == set id | id in s.lowHooks && id !in t.deferred && id !in t.suspended
  {
    PerformAllBounds(s.(running := true), acts);
  }

  lemma {:induction false} HistoryEndsAtRest(s: State, history: seq<Request>)
    requires AtRest(s)
    ensures AtRest(ServeAll(s, history))
    decreases |history|
  {
    if history != [] {
      if history[0].Running? {
        RunEndsAtRest(s, history[0].acts);
      }
      HistoryEndsAtRest(Serve(s, history[0]), history[1..]);
    }
  }

  // ---- The flag is not a depth ------------------------------------------------------------

  lemma {:induction false} PerformFlag(s: State, a: Act)
    ensures s.log <= Perform(s, a).log
    ensures Perform(s, a).log == s.log ==> Perform(s, a).inCallback == s.inCallback
    ensures Perform(s, a).log != s.log ==> !Perform(s, a).inCallback
    decreases a
  {
    if a.Fire? && a.id in s.lowHooks && a.id !in s.deferred {
      var entered := EnterHook(s, a.id);
      PerformAllFlag(entered, a.body);
      assert |Perform(s, a).log| > |s.log|;
    }
  }

  /** After any activity inside a callback the flag still says so exactly when no other
      low-level hook fired in the meantime. */
  lemma {:induction false} PerformAllFlag(s: State, acts: seq<Act>)
    ensures s.log <= PerformAll(s, acts).log
    ensures PerformAll(s, acts).log == s.log ==> PerformAll(s, acts).inCallback == s.inCallback
    ensures PerformAll(s, acts).log != s.log ==> !PerformAll(s, acts).inCallback
    decreases acts
  {
    if acts != [] {
      PerformFlag(s, acts[0]);
      PerformAllFlag(Perform(s, acts[0]), acts[1..]);
      assert PerformAll(s, acts).log == s.log ==> |Perform(s, acts[0]).log| == |s.log|;
    }
  }

  /** Some hook among the given activity fires: it is installed and its removal is not
      already pending when its turn comes. */
  predicate SomeFires(s: State, acts: seq<Act>)
    decreases |acts|
  {
    acts != [] &&
    match acts[0]
    case Fire(id, _) => (id in s.lowHooks && id !in s.deferred) || SomeFires(s, acts[1..])
    case NativeRemove(id) => SomeFires(RemoveHook(s, id), acts[1..])
    case DartRemove(id) => SomeFires(Suspend(s, id), acts[1..])
  }

  lemma {:induction false} QuietIffNoneFires(s: State, acts: seq<Act>)
    ensures PerformAll(s, acts).log == s.log <==> !SomeFires(s, acts)
    decreases |acts|
  {
    if acts != [] {
      var next := Perform(s, acts[0]);
      PerformFlag(s, acts[0]);
      PerformAllFlag(next, acts[1..]);
      if acts[0].Fire? && acts[0].id in s.lowHooks && acts[0].id !in s.deferred {
        PerformAllFlag(EnterHook(s, acts[0].id), acts[0].body);
        assert |next.log| > |s.log|;
        assert |PerformAll(s, acts).log| >= |next.log|;
      } else {
        QuietIffNoneFires(next, acts[1..]);
      }
    }
  }

  /** A callback may remove its own hook exactly as long as no other low-level hook has
      fired inside it: the inner one's return clears the flag for the outer one too. */
  lemma SelfRemovalAcceptedIff(s: State, id: HookId, before: seq<Act>)
    requires s.running && s.inCallback && id in s.lowHooks
    ensures RemovalStatus(PerformAll(s, before), id) == Ok <==> !SomeFires(s, before)
  {
    QuietIffNoneFires(s, before);
    PerformAllFlag(s, before);
    PerformAllBounds(s, before);
  }

  /** Two installed hooks and a run are enough: once the second has fired inside the
      first, the first is refused its own removal and still installed after the run. */
  lemma SelfRemovalCanBeRefused(s: State, outer: HookId, inner: HookId)
    requires AtRest(s) && !s.disposed && outer in s.lowHooks && inner in s.lowHooks
    ensures var body := [Fire(inner, []), NativeRemove(outer)];
            var inside := EnterHook(s.(running := true), outer);
            && SomeFires(inside, [Fire(inner, [])])
            && RemovalStatus(PerformAll(inside, [Fire(inner, [])]), outer) == BadState
            && outer in Start(s, [Fire(outer, body)]).lowHooks
  {
    var started := s.(running := true);
    var inside := EnterHook(started, outer);
    var nested := [Fire(inner, [])];
    var body := [Fire(inner, []), NativeRemove(outer)];
    SelfRemovalAcceptedIff(inside, outer, nested);
    var after := Perform(inside, Fire(inner, []));
    assert PerformAll(EnterHook(inside, inner), []) == EnterHook(inside, inner);
    assert body[1..] == [NativeRemove(outer)] && body[1..][1..] == [];
    assert Perform(after, NativeRemove(outer)) == after;
    assert PerformAll(inside, body) == PerformAll(after, body[1..]) == PerformAll(after, []) == after;
    assert PerformAll(started, [Fire(outer, body)]) == PerformAll(Perform(started, Fire(outer, body)), []);
  }

  // ---- Removal through the Dart handle --------------------------------------------------------

  ghost predicate OnlyFallback(s: State, t: State, id: HookId) {
    s.log <= t.log && forall i | |s.log| <= i < |t.log| && t.log[i].id == id :: !t.log[i].user
  }

  lemma {:induction false} PerformKeepsSuspended(s: State, a: Act, id: HookId)
    requires id in s.suspended
    ensures id in Perform(s, a).suspended && OnlyFallback(s, Perform(s, a), id)
    decreases a
  {
    if a.Fire? && a.id in s.lowHooks && a.id !in s.deferred {
      PerformAllKeepsSuspended(EnterHook(s, a.id), a.body, id);
    }
  }

  /** After a handle was removed in Dart during a run its user function does not run
      again; until the run ends the native hook still fires and gets the fallback. */
  lemma {:induction false} PerformAllKeepsSuspended(s: State, acts: seq<Act>, id: HookId)
    requires id in s.suspended
    ensures id in PerformAll(s, acts).suspended && OnlyFallback(s, PerformAll(s, acts), id)
    decreases acts
  {
    if acts != [] {
      PerformKeepsSuspended(s, acts[0], id);
      PerformAllKeepsSuspended(Perform(s, acts[0]), acts[1..], id);
    }
  }

  /** Dart restores its current callback after a nested one, so unlike the native
      registry it lets a callback remove its own hook whatever fired inside it, and no other. */
  lemma DartSelfRemovalAccepted(s: State, id: HookId, before: seq<Act>)
    requires s.current == Some(id)
    ensures id in Perform(PerformAll(s, before), DartRemove(id)).suspended
    ensures forall other | other != id :: Perform(PerformAll(s, before), DartRemove(other)) == PerformAll(s, before)
  {
    PerformAllBounds(s, before);
  }

  /** Until the run ends, and whatever happens in between, a hook removed in Dart still
      fires natively and gets the fallback answer, unless it was removed natively too. */
  lemma SuspendedStillFires(s: State, id: HookId, between: seq<Act>, body: seq<Act>)
    requires s.running && id in s.suspended && id in s.lowHooks
    ensures var t := PerformAll(s, between);
            Perform(t, Fire(id, body)).log == t.log + [Call(id, false)] <==> id !in t.deferred
  {
    PerformAllKeepsSuspended(s, between, id);
    PerformAllBounds(s, between);
  }

  /** Over a whole run in which Dart removed a hook at some point: from then on its user
      function never runs, and after the run, or any later history, the hook is gone. */
  lemma DartRemovalTakesEffect(s: State, before: seq<Act>, after: seq<Act>, history: seq<Request>, id: HookId)
    requires AtRest(s) && !s.disposed && id in s.lowHooks
    requires id in PerformAll(s.(running := true), before).suspended
    ensures var removed := PerformAll(s.(running := true), before);
            && OnlyFallback(removed, PerformAll(removed, after), id)
            && id !in Start(s, before + after).lowHooks && id in Start(s, before + after).closed
            && LogGrowsWithout(Start(s, before + after), ServeAll(Start(s, before + after), history), id)
            && id !in ServeAll(Start(s, before + after), history).lowHooks
  {
    var started := s.(running := true);
    PerformAllKeepsSuspended(PerformAll(started, before), after, id);
    PerformAllAppend(started, before, after);
    RunEndsAtRest(s, before + after);
    var rest := Start(s, before + after);
    PerformAllBounds(started, before + after);
    assert Gone(rest, id);
    RemovalIsPermanent(rest, history, id);
    HistoryEndsAtRest(rest, history);
  }

  lemma {:induction false} PerformAllAppend(s: State, before: seq<Act>, after: seq<Act>)
    ensures PerformAll(s, before + after) == PerformAll(PerformAll(s, before), after)
    decreases |before|
  {
    if before == [] {
      assert before + after == after;
    } else {
      assert (before + after)[1..] == before[1..] + after;
      PerformAllAppend(Perform(s, before[0]), before[1..], after);
    }
  }

  // ---- What a callback does takes place -----------------------------------------------------

  /** Reaching a hook calls its callback first, once, exactly when it is installed and not
      about to be removed, and Dart passes the call on exactly when it was not suspended. */
  lemma FireCallsIff(s: State, id: HookId, body: seq<Act>)
    ensures var t := Perform(s, Fire(id, body));
            if id in s.lowHooks && id !in s.deferred then s.log + [Call(id, id !in s.suspended)] <= t.log
            else t == s
  {
    PerformAllFlag(EnterHook(s, id), body);
  }

  /** The state in which a run finds a hook when it reaches it after `earlier`. */
  function Reached(s: State, earlier: seq<Act>): State {
    PerformAll(s.(running := true), earlier)
  }

  lemma StartInTurn(s: State, earlier: seq<Act>, a: Act, later: seq<Act>, id: HookId)
    requires AtRest(s) && !s.disposed
    requires var t := Perform(Reached(s, earlier), a); Gone(t, id) || id in t.suspended
    ensures id !in Start(s, earlier + [a] + later).lowHooks
    ensures id in Perform(Reached(s, earlier), a).suspended ==> id in Start(s, earlier + [a] + later).closed
  {
    var started := s.(running := true);
    var t := Perform(Reached(s, earlier), a);
    PerformAllAppend(started, earlier + [a], later);
    PerformAllAppend(started, earlier, [a]);
    assert PerformAll(Reached(s, earlier), [a]) == PerformAll(t, []) == t;
    PerformAllBounds(started, earlier + [a] + later);
    if Gone(t, id) {
      PerformAllKeepsGone(t, later, id);
    }
    if id in t.suspended {
      PerformAllKeepsSuspended(t, later, id);
    }
  }

  /** A callback that asks natively for its own removal before any other low-level hook fired
      inside it has it uninstalled by the end of the run, whatever it does before and after. */
  lemma NativeSelfRemovalUninstalls(s: State, earlier: seq<Act>, id: HookId, before: seq<Act>, after: seq<Act>,
                                    later: seq<Act>)
    requires AtRest(s) && !s.disposed && id in s.lowHooks
    requires !SomeFires(EnterHook(Reached(s, earlier), id), before)
    ensures id !in Start(s, earlier + [Fire(id, before + [NativeRemove(id)] + after)] + later).lowHooks
  {
    var t := Reached(s, earlier);
    var body := before + [NativeRemove(id)] + after;
    PerformAllBounds(s.(running := true), earlier);
    if id !in t.deferred && id !in t.suspended {
      var inside := EnterHook(t, id);
      SelfRemovalAcceptedIff(inside, id, before);
      PerformAllBounds(inside, before);
      var asked := Perform(PerformAll(inside, before), NativeRemove(id));
      RemovalMakesGone(PerformAll(inside, before), id);
      PerformAllAppend(inside, before + [NativeRemove(id)], after);
      PerformAllAppend(inside, before, [NativeRemove(id)]);
      assert PerformAll(PerformAll(inside, before), [NativeRemove(id)]) == PerformAll(asked, []) == asked;
      PerformAllKeepsGone(asked, after, id);
      PerformBounds(t, Fire(id, body));
    } else if id !in t.deferred {
      PerformKeepsSuspended(t, Fire(id, body), id);
    }
    StartInTurn(s, earlier, Fire(id, body), later, id);
  }

  /** One that removes itself through its Dart handle has it uninstalled and closed then,
      whatever fired inside it before. */
  lemma DartSelfRemovalUninstalls(s: State, earlier: seq<Act>, id: HookId, before: seq<Act>, after: seq<Act>,
                                  later: seq<Act>)
    requires AtRest(s) && !s.disposed && id in s.lowHooks && id !in Reached(s, earlier).deferred
    ensures var t := Start(s, earlier + [Fire(id, before + [DartRemove(id)] + after)] + later);
            id !in t.lowHooks && id in t.closed
  {
    var t := Reached(s, earlier);
    var body := before + [DartRemove(id)] + after;
    PerformAllBounds(s.(running := true), earlier);
    if id !in t.suspended {
      var inside := EnterHook(t, id);
      DartSelfRemovalAccepted(inside, id, before);
      var asked := Perform(PerformAll(inside, before), DartRemove(id));
      PerformAllAppend(inside, before + [DartRemove(id)], after);
      PerformAllAppend(inside, before, [DartRemove(id)]);
      assert PerformAll(PerformAll(inside, before), [DartRemove(id)]) == PerformAll(asked, []) == asked;
      PerformAllKeepsSuspended(asked, after, id);
    } else {
      PerformKeepsSuspended(t, Fire(id, body), id);
    }
    StartInTurn(s, earlier, Fire(id, body), later, id);
  }

  /** Somebody asks for the removal of the hook, in whatever callback. */
  predicate Asks(a: Act, id: HookId)
    decreases a
  {
    match a
    case NativeRemove(other) => other == id
    case DartRemove(other) => other == id
    case Fire(_, body) => AsksAny(body, id)
  }

  predicate AsksAny(acts: seq<Act>, id: HookId)
    decreases acts
  {
    acts != [] && (Asks(acts[0], id) || AsksAny(acts[1..], id))
  }

  lemma {:induction false} UnaskedStaysInAct(s: State, a: Act, id: HookId)
    requires !Asks(a, id) && id !in s.deferred && id !in s.suspended
    ensures id !in Perform(s, a).deferred && id !in Perform(s, a).suspended
    decreases a
  {
    if a.Fire? {
      UnaskedStaysInActs(EnterHook(s, a.id), a.body, id);
    }
  }

  lemma {:induction false} UnaskedStaysInActs(s: State, acts: seq<Act>, id: HookId)
    requires !AsksAny(acts, id) && id !in s.deferred && id !in s.suspended
    ensures id !in PerformAll(s, acts).deferred && id !in PerformAll(s, acts).suspended
    decreases acts
  {
    if acts != [] {
      UnaskedStaysInAct(s, acts[0], id);
      UnaskedStaysInActs(Perform(s, acts[0]), acts[1..], id);
    }
  }

  /** A hook nobody asks to remove survives the run, and so does its callable. */
  lemma UnaskedStays(s: State, acts: seq<Act>, id: HookId)
    requires AtRest(s) && id in s.lowHooks && !AsksAny(acts, id)
    ensures id in Start(s, acts).lowHooks && (id in Start(s, acts).closed ==> id in s.closed)
  {
    UnaskedStaysInActs(s.(running := true), acts, id);
    PerformAllBounds(s.(running := true), acts);
  }

  /** Between runs a removal, native or through the handle, takes effect at once; the handle's
      callable is closed with it. */
  lemma IdleRemovalTakesEffect(s: State, id: HookId)
    requires AtRest(s) && !s.disposed && id in s.handles
    ensures var native, dart := Serve(s, Uninstalling(id)), Serve(s, Removing(id));
            && native == s.(lowHooks := s.lowHooks - {id})
            && dart == native.(closed := s.closed + {id})
  {
  }

  /** The request does not take the hook away. */
  predicate Spares(r: Request, id: HookId) {
    match r
    case Installing => true
    case Removing(other) => other != id
    case Uninstalling(other) => other != id
    case Running(acts) => !AsksAny(acts, id)
    case Disposing => false
  }

  lemma {:induction false} HistorySpares(s: State, history: seq<Request>, id: HookId)
    requires AtRest(s) && id in s.lowHooks && forall r | r in history :: Spares(r, id)
    ensures id in ServeAll(s, history).lowHooks
    decreases |history|
  {
    if history != [] {
      var r := history[0];
      assert r in history && forall q | q in history[1..] :: q in history;
      if r.Running? {
        RunEndsAtRest(s, r.acts);
        UnaskedStays(s, r.acts, id);
      }
      HistorySpares(Serve(s, r), history[1..], id);
    }
  }

  /** A hook that was installed stays installed over every history that does not ask for its
      removal. */
  lemma InstalledHookStays(s: State, history: seq<Request>)
    requires AtRest(s) && !s.disposed && forall r | r in history :: Spares(r, s.nextId)
    ensures s.nextId in ServeAll(s, [Installing] + history).lowHooks
  {
    assert ([Installing] + history)[1..] == history;
    HistorySpares(Serve(s, Installing), history, s.nextId);
  }

  // ---- Closing the native callables ---------------------------------------------------------

  /** No closed callable can be called by native code, and none that is executing is. */
  ghost predicate InUseIsOpen(s: State) {
    && s.closed <= s.handles && s.lowHooks <= s.handles && s.closed !! s.lowHooks
    && (forall id | id in s.executing :: id !in s.closed)
    && (forall id | id in s.handles :: id < s.nextId)
  }

  /** Since the log was that of `s`, no callable of `closed` was called. */
  ghost predicate CallsNone(s: State, t: State, closed: set<HookId>) {
    s.log <= t.log && forall i | |s.log| <= i < |t.log| :: t.log[i].id !in closed
  }

  lemma EnterUsesOpen(s: State, id: HookId)
    requires InUseIsOpen(s) && id in s.lowHooks
    ensures InUseIsOpen(EnterHook(s, id)) && CallsNone(s, EnterHook(s, id), s.closed)
  {
  }

  lemma {:induction false} PerformUsesOpen(s: State, a: Act)
    requires InUseIsOpen(s) && s.running
    ensures InUseIsOpen(Perform(s, a)) && CallsNone(s, Perform(s, a), s.closed)
    decreases a
  {
    PerformBounds(s, a);
    if a.Fire? && a.id in s.lowHooks && a.id !in s.deferred {
      EnterUsesOpen(s, a.id);
      PerformAllUsesOpen(EnterHook(s, a.id), a.body);
    }
  }

  /** During a run nothing is closed, so nothing is while it executes, and only open
      callables are called. */
  lemma {:induction false} PerformAllUsesOpen(s: State, acts: seq<Act>)
    requires InUseIsOpen(s) && s.running
    ensures InUseIsOpen(PerformAll(s, acts)) && CallsNone(s, PerformAll(s, acts), s.closed)
    ensures PerformAll(s, acts).closed == s.closed
    decreases acts
  {
    PerformAllBounds(s, acts);
    if acts != [] {
      PerformUsesOpen(s, acts[0]);
      PerformBounds(s, acts[0]);
      PerformAllUsesOpen(Perform(s, acts[0]), acts[1..]);
    }
  }

  lemma ServeUsesOpen(s: State, r: Request)
    requires AtRest(s) && InUseIsOpen(s)
    ensures var t := Serve(s, r);
            AtRest(t) && InUseIsOpen(t) && s.closed <= t.closed && CallsNone(s, t, s.closed)
  {
    match r
    case Running(acts) =>
      RunEndsAtRest(s, acts);
      if !s.disposed {
        var started := s.(running := true);
        PerformAllUsesOpen(started, acts);
        PerformAllBounds(started, acts);
        SuspendedHaveHandles(started, acts);
      }
    case _ =>
  }

  /** Only a hook whose callback ran can be removed in Dart during a run. */
  ghost predicate SuspendedAreHandles(s: State) {
    && s.lowHooks <= s.handles && s.suspended <= s.handles
    && (s.current.Some? ==> s.current.value in s.handles)
  }

  lemma {:induction false} SuspendedHasHandle(s: State, a: Act)
    requires SuspendedAreHandles(s) && s.running
    ensures SuspendedAreHandles(Perform(s, a))
    decreases a
  {
    PerformBounds(s, a);
    if a.Fire? && a.id in s.lowHooks && a.id !in s.deferred {
      SuspendedHaveHandles(EnterHook(s, a.id), a.body);
      PerformAllBounds(EnterHook(s, a.id), a.body);
    }
  }

  lemma {:induction false} SuspendedHaveHandles(s: State, acts: seq<Act>)
    requires SuspendedAreHandles(s) && s.running
    ensures SuspendedAreHandles(PerformAll(s, acts))
    decreases acts
  {
    if acts != [] {
      SuspendedHasHandle(s, acts[0]);
      PerformBounds(s, acts[0]);
      SuspendedHaveHandles(Perform(s, acts[0]), acts[1..]);
    }
  }

  /** Over every history: no callable of a low-level hook is closed while native code can
      call it or while it executes, a closed one stays closed and is never called again,
      and disposal closes every one. */
  lemma {:induction false} HistoryUsesOpen(s: State, history: seq<Request>)
    requires AtRest(s) && InUseIsOpen(s)
    ensures var t := ServeAll(s, history);
            && AtRest(t) && InUseIsOpen(t) && s.closed <= t.closed && CallsNone(s, t, s.closed)
            && DisposeAll(t).closed == t.handles
    decreases |history|
  {
    if history != [] {
      ServeUsesOpen(s, history[0]);
      HistoryUsesOpen(Serve(s, history[0]), history[1..]);
    }
  }

  // ---- The application object ------------------------------------------------------------------

  class App {
    var live: set<HookId>      // the emulator's hooks, by the id their closures captured
    var lowHooks: set<HookId>
    var deferred: seq<HookId>
    var nextId: HookId
    var running: bool
    var inCallback: bool
    var suspended: set<HookId>
    var current: Option<HookId>
    var handles: set<HookId>
    var closed: set<HookId>
    ghost var executing: seq<HookId>
    var disposed: bool
    var log: seq<Call>

    ghost predicate Valid()
      reads this
    {
      live == lowHooks && forall id | id in lowHooks :: id < nextId
    }

    ghost function Snapshot(): State
      reads this
    {
      State(lowHooks, deferred, nextId, running, inCallback, suspended, current, handles, closed, executing, disposed,
          log)
    }

    constructor ()
      ensures Valid() && AtRest(Snapshot()) && InUseIsOpen(Snapshot()) && lowHooks == {} && log == []
    {
      live, lowHooks, deferred, nextId := {}, {}, [], 0x1_0000_0000;
      running, inCallback, suspended, current, log := false, false, {}, None, [];
      handles, closed, executing, disposed := {}, {}, [], false;
    }

    method DeleteHook(id: HookId)
      requires id in live
      modifies `live
      ensures live == old(live) - {id}
    {
      live := live - {id};
    }

    /** The native hook and Dart's handle for it. */
    method StoreLowHook() returns (id: HookId)
      requires Valid() && !disposed
      modifies `live, `lowHooks, `nextId, `handles
      ensures Valid() && id == old(nextId) && id !in old(lowHooks) && Snapshot() == Install(old(Snapshot()))
      ensures lowHooks == old(lowHooks) + {id} && handles == old(handles) + {id}
    {
      handles := handles + {nextId};
      id := nextId;
      nextId := nextId + 1;
      live := live + {id};
      lowHooks := lowHooks + {id};
    }

    method RemoveLowHook(id: HookId)
      requires live == lowHooks
      modifies `live, `lowHooks
      ensures live == lowHooks == old(lowHooks) - {id}
    {
      if id !in lowHooks {
        return;
      }
      DeleteHook(id);
      lowHooks := lowHooks - {id};
    }

    method Remove(id: HookId) returns (status: Status)
      requires Valid()
      modifies this
      ensures Valid() && Snapshot() == RemoveHook(old(Snapshot()), id)
      ensures status == RemovalStatus(old(Snapshot()), id)
    {
      if id in lowHooks {
        if inCallback {
          deferred := deferred + [id];
          return Ok;
        }
        if running {
          return BadState;
        }
        RemoveLowHook(id);
        return Ok;
      }
      return if running then BadState else Ok;
    }

    /** Duplicates and ids already gone are harmless. */
    method FlushRemovals()
      requires live == lowHooks
      modifies `live, `lowHooks, `deferred
      ensures live == lowHooks && Snapshot() == Flush(old(Snapshot()))
    {
      var removals := deferred;
      deferred := [];
      var i := 0;
      while i < |removals|
        invariant 0 <= i <= |removals|
        invariant live == lowHooks == old(lowHooks) - (set id | id in removals[..i])
        modifies `live, `lowHooks
      {
        RemoveLowHook(removals[i]);
        assert removals[..i + 1] == removals[..i] + [removals[i]];
        i := i + 1;
      }
      assert removals[..i] == removals;
    }

    method PerformAct(a: Act)
      requires Valid() && running
      modifies this
      ensures Valid() && running && Snapshot() == Perform(old(Snapshot()), a)
      decreases a
    {
      match a
      case NativeRemove(id) => var _ := Remove(id);
      case DartRemove(id) =>
        if current == Some(id) {
          suspended := suspended + {id};
        }
      case Fire(id, body) =>
        if id !in live || id in deferred {
          return;
        }
        ghost var around := executing;
        inCallback := true;
        executing := executing + [id];
        log := log + [Call(id, id !in suspended)];
        if id !in suspended {
          var previous := current;
          current := Some(id);
          PerformActs(body);
          current := previous;
        }
        inCallback := false;
        executing := around;
    }

    method PerformActs(acts: seq<Act>)
      requires Valid() && running
      modifies this
      ensures Valid() && running && Snapshot() == PerformAll(old(Snapshot()), acts)
      decreases acts
    {
      if acts != [] {
        PerformAct(acts[0]);
        PerformActs(acts[1..]);
      }
    }

    /** Native `start` followed by Dart's `_finishRun`. */
    method StartRun(acts: seq<Act>) returns (status: Status)
      requires Valid() && AtRest(Snapshot()) && !disposed
      modifies this
      ensures Valid() && AtRest(Snapshot()) && status == Ok
      ensures Snapshot() == Start(old(Snapshot()), acts)
    {
      RunEndsAtRest(Snapshot(), acts);
      ghost var after := Start(Snapshot(), acts);
      running := true;
      PerformActs(acts);
      running := false;
      FlushRemovals();
      ghost var flushed := lowHooks;
      ghost var removed := suspended;
      ghost var closedBefore := closed;
      while suspended != {}
        invariant suspended <= removed && live == lowHooks == flushed - (removed - suspended)
        invariant closed == closedBefore + (removed - suspended)
        modifies `live, `lowHooks, `suspended, `closed
      {
        var id :| id in suspended;
        RemoveLowHook(id);
        closed := closed + {id};
        suspended := suspended - {id};
      }
      assert Snapshot() == after;
      return Ok;
    }

    /** Dart's `_remove` between runs. */
    method RemoveFromDart(id: HookId)
      requires Valid() && AtRest(Snapshot()) && !disposed && id in handles
      modifies this
      ensures Valid() && AtRest(Snapshot()) && Snapshot() == RemoveHandle(old(Snapshot()), id)
      ensures lowHooks == old(lowHooks) - {id} && closed == old(closed) + {id}
    {
      var _ := Remove(id);
      closed := closed + {id};
    }

    method Dispose() returns (ok: bool)
      requires Valid()
      modifies this
      ensures Valid() && Snapshot() == DisposeAll(old(Snapshot())) && (ok <==> !running)
      ensures ok ==> live == {} && closed == handles && disposed
    {
      if running {
        return false;
      }
      live, lowHooks := {}, {};
      closed := handles;
      disposed := true;
      return true;
    }
  }
}
