/**
 Dart's low-level Linux hooks on top of the native registry. Each side keeps its own
 table and its own idea of the running callback; the theorems say the two stay in
 lockstep, and that a native callable is closed only when native code can no longer
 call it and it is not executing.
 */
module HookLifetime {
  import opened Prelude
  import opened LinuxState

  /** A Dart registration: its handle's `active` flag, how many of its callbacks are
      executing, and whether its native callable was closed. */
  datatype Registration = Registration(active: bool, callbackDepth: nat, closed: bool)

  datatype State = State(
    native: View,
    objects: map<HookId, Registration>,   // every registration ever made
    registered: set<HookId>,              // _registrations
    deferred: seq<HookId>,                // _deferredCallbackCloses
    current: Option<HookId>,              // _currentCallback
    saved: seq<Option<HookId>>,           // `previous` in each _invoke in progress
    running: bool,
    disposed: bool)

  datatype Op = Register | RemoveHook(id: HookId) | Invoke(id: HookId) | Return(id: HookId) | Start | Finish | Dispose

  function Close(r: Registration): Registration {
    r.(closed := true)
  }

  function CloseAll(objects: map<HookId, Registration>, ids: seq<HookId>): map<HookId, Registration> {
    map id | id in objects :: if id in ids then Close(objects[id]) else objects[id]
  }

  /** `_checkStopped` outside other callbacks, and the native side's own check. */
  function RegisterHook(s: State): State {
    if s.disposed || s.running || s.native.running then s
    else
      var id := s.native.nextId;
      s.(native := AddHook(s.native),
         objects := s.objects[id := Registration(true, 0, false)],
         registered := s.registered + {id})
  }

  /** Dart's guard, before it asks the native side. */
  predicate DartAllowsRemoval(s: State, id: HookId) {
    !s.disposed && (!s.running || s.current == Some(id))
  }

  function Unregister(s: State, id: HookId): State
    requires id in s.objects
  {
    if !s.objects[id].active || !DartAllowsRemoval(s, id) || RemovalStatus(s.native, id) != Ok then s
    else
      var r := s.objects[id].(active := false);
      var idle := r.callbackDepth == 0;
      s.(native := Remove(s.native, id),
         objects := s.objects[id := if idle then Close(r) else r],
         registered := s.registered - {id},
         deferred := if idle then s.deferred else s.deferred + [id])
  }

  /** The native scope is entered first, then Dart's `_invoke`. */
  function InvokeHook(s: State, id: HookId): State
    requires id in s.objects
  {
    var r := s.objects[id];
    s.(native := Step(s.native, Enter(id)),
       objects := s.objects[id := r.(callbackDepth := r.callbackDepth + 1)],
       saved := s.saved + [s.current],
       current := Some(id))
  }

  function ReturnFromHook(s: State, id: HookId): State
    requires id in s.objects && s.objects[id].callbackDepth > 0 && s.saved != []
  {
    var r := s.objects[id];
    s.(native := Step(s.native, Leave(id)),
       objects := s.objects[id := r.(callbackDepth := r.callbackDepth - 1)],
       current := s.saved[|s.saved| - 1],
       saved := s.saved[..|s.saved| - 1])
  }

  function StartRun(s: State): State {
    if s.disposed || s.running || s.native.running then s
    else s.(running := true, native := s.native.(running := true))
  }

  function FinishRun(s: State): State {
    s.(running := false, native := s.native.(running := false),
       objects := CloseAll(s.objects, s.deferred), deferred := [])
  }

  /** The native application is destroyed before any callable is closed. */
  function DisposeAll(s: State): State {
    if s.disposed || s.running then s
    else s.(native := s.native.(hooks := map[]),
            objects := map id | id in s.objects ::
              if id in s.registered then Close(s.objects[id].(active := false))
              else if id in s.deferred then Close(s.objects[id]) else s.objects[id],
            registered := {}, deferred := [], disposed := true)
  }

  /** What the emulator and its callers can do: call an installed hook inside a run,
      return from callbacks in order, and end a run once every callback returned.
      Nothing says a hook is not called again from inside itself. */
  predicate Possible(s: State, op: Op) {
    match op
    case RemoveHook(id) => id in s.objects
    case Invoke(id) => s.running && id in s.native.hooks && id in s.objects
    case Return(id) => IsCurrent(s.native, id) && id in s.objects && s.objects[id].callbackDepth > 0 && s.saved != []
    case Finish => s.running && s.native.stack == []
    case _ => true
  }

  function Apply(s: State, op: Op): State
    requires Possible(s, op)
  {
    match op
    case Register => RegisterHook(s)
    case RemoveHook(id) => Unregister(s, id)
    case Invoke(id) => InvokeHook(s, id)
    case Return(id) => ReturnFromHook(s, id)
    case Start => StartRun(s)
    case Finish => FinishRun(s)
    case Dispose => DisposeAll(s)
  }

  // ---- Lockstep -----------------------------------------------------------------------

  function Top(stack: seq<HookId>): Option<HookId> {
    if stack == [] then None else Some(stack[|stack| - 1])
  }

  ghost predicate StacksAgree(s: State) {
    && s.current == Top(s.native.stack)
    && |s.saved| == |s.native.stack|
    && (forall i | 0 <= i < |s.saved| :: s.saved[i] == Top(s.native.stack[..i]))
    && (forall id | id in s.native.stack :: id in s.objects)
    && (forall id | id in s.objects :: s.objects[id].callbackDepth == multiset(s.native.stack)[id])
    && s.running == s.native.running
    && (s.native.stack != [] ==> s.running)
  }

  ghost predicate TablesAgree(s: State) {
    && (forall id | id in s.native.hooks :: id in s.objects)
    && (forall id | id in s.objects :: id < s.native.nextId)
    && (forall id | id in s.registered :: id in s.objects && id in s.native.hooks && !s.native.hooks[id])
    && (forall id | id in s.objects :: s.objects[id].active <==> id in s.registered)
    && (forall id | id in s.deferred :: id in s.objects && id !in s.registered)
  }

  /** A registration that was removed: only a callback still executing can keep it in
      the native table, and it is closed or waits to be. */
  ghost predicate RemovedAreLeaving(s: State) {
    forall id | id in s.objects && id !in s.registered ::
      && (id in s.native.hooks ==> s.native.hooks[id] && id in s.native.stack)
      && (s.objects[id].closed || id in s.deferred)
  }

  /** No closed callable can be called by native code or is executing. */
  ghost predicate ClosedAreDead(s: State) {
    forall id | id in s.objects && s.objects[id].closed ::
      id !in s.native.hooks && s.objects[id].callbackDepth == 0 && !s.objects[id].active
  }

  ghost predicate Lockstep(s: State) {
    StacksAgree(s) && TablesAgree(s) && RemovedAreLeaving(s) && ClosedAreDead(s)
  }

  function Initial(native: View): State {
    State(native, map[], {}, [], None, [], false, false)
  }

  lemma RegisterKeepsLockstep(s: State)
    requires Lockstep(s)
    ensures Lockstep(RegisterHook(s))
  {
    var id := s.native.nextId;
    assert id !in s.objects && id !in s.native.stack;
  }

  /** When Dart's own guard lets a removal through, the native registry accepts it. */
  lemma NativeNeverRejects(s: State, id: HookId)
    requires Lockstep(s) && id in s.objects && s.objects[id].active && DartAllowsRemoval(s, id)
    ensures RemovalStatus(s.native, id) == Ok
    ensures IsCurrent(s.native, id) <==> s.running
  {
    if s.native.stack != [] {
      assert s.native.stack[|s.native.stack| - 1] in s.native.stack;
    }
  }

  lemma RemoveKeepsStacks(s: State, id: HookId)
    requires Lockstep(s) && id in s.objects
    ensures StacksAgree(Unregister(s, id))
  {
  }

  lemma RemoveKeepsTables(s: State, id: HookId)
    requires Lockstep(s) && id in s.objects
    ensures TablesAgree(Unregister(s, id))
  {
  }

  /** An idle hook is closed as it leaves; an executing one stays to be closed later. */
  lemma RemoveKeepsRemoved(s: State, id: HookId)
    requires Lockstep(s) && id in s.objects
    ensures RemovedAreLeaving(Unregister(s, id)) && ClosedAreDead(Unregister(s, id))
  {
    if s.objects[id].active && DartAllowsRemoval(s, id) {
      NativeNeverRejects(s, id);
      assert id in s.native.stack <==> multiset(s.native.stack)[id] > 0;
      assert IsCurrent(s.native, id) ==> id in s.native.stack;
    }
  }

  lemma RemoveKeepsLockstep(s: State, id: HookId)
    requires Lockstep(s) && id in s.objects
    ensures Lockstep(Unregister(s, id))
  {
    RemoveKeepsStacks(s, id);
    RemoveKeepsTables(s, id);
    RemoveKeepsRemoved(s, id);
  }

  lemma InvokeKeepsStacks(s: State, id: HookId)
    requires StacksAgree(s) && Possible(s, Invoke(id))
    ensures StacksAgree(InvokeHook(s, id))
  {
    var t := InvokeHook(s, id);
    var n := |s.native.stack|;
    assert t.native.stack[..n] == s.native.stack;
    assert forall i | 0 <= i < n :: t.native.stack[..i] == s.native.stack[..i];
    assert multiset(t.native.stack) == multiset(s.native.stack) + multiset{id};
  }

  /** A hook the emulator can still call was never closed. */
  lemma InvokeKeepsLockstep(s: State, id: HookId)
    requires Lockstep(s) && Possible(s, Invoke(id))
    ensures Lockstep(InvokeHook(s, id)) && !s.objects[id].closed
  {
    InvokeKeepsStacks(s, id);
    assert forall other | other in s.native.stack :: other in InvokeHook(s, id).native.stack;
  }

  lemma ReturnPopsStack(s: State, id: HookId)
    requires StacksAgree(s) && Possible(s, Return(id))
    ensures var rest := ReturnFromHook(s, id).native.stack;
            && s.native.stack == rest + [id]
            && multiset(s.native.stack) == multiset(rest) + multiset{id}
            && forall other | other in s.native.stack && other != id :: other in rest
  {
    var n := |s.native.stack| - 1;
    assert s.native.stack == s.native.stack[..n] + [id];
  }

  lemma ReturnKeepsStacks(s: State, id: HookId)
    requires StacksAgree(s) && Possible(s, Return(id))
    ensures StacksAgree(ReturnFromHook(s, id))
  {
    var t := ReturnFromHook(s, id);
    ReturnPopsStack(s, id);
    assert forall i | 0 <= i < |t.saved| :: t.native.stack[..i] == s.native.stack[..i];
    assert s.saved[|t.saved|] == Top(s.native.stack[..|t.saved|]);
    assert s.native.stack[..|t.saved|] == t.native.stack;
  }

  lemma ReturnKeepsTables(s: State, id: HookId)
    requires StacksAgree(s) && TablesAgree(s) && Possible(s, Return(id))
    ensures TablesAgree(ReturnFromHook(s, id))
  {
  }

  lemma ReturnKeepsRemoved(s: State, id: HookId)
    requires Lockstep(s) && Possible(s, Return(id))
    ensures RemovedAreLeaving(ReturnFromHook(s, id))
    ensures ClosedAreDead(ReturnFromHook(s, id))
  {
    ReturnPopsStack(s, id);
  }

  lemma ReturnKeepsLockstep(s: State, id: HookId)
    requires Lockstep(s) && Possible(s, Return(id))
    ensures Lockstep(ReturnFromHook(s, id))
  {
    ReturnKeepsStacks(s, id);
    ReturnKeepsTables(s, id);
    ReturnKeepsRemoved(s, id);
  }

  lemma FinishKeepsLockstep(s: State)
    requires Lockstep(s) && Possible(s, Finish)
    ensures Lockstep(FinishRun(s))
  {
    assert forall id | id in s.objects :: multiset(s.native.stack)[id] == 0;
  }

  lemma DisposeClosesAll(s: State)
    requires Lockstep(s) && !s.disposed && !s.running
    ensures forall id | id in s.objects :: DisposeAll(s).objects[id].closed && !DisposeAll(s).objects[id].active
    ensures forall id | id in s.objects :: s.objects[id].callbackDepth == 0
  {
    assert s.native.stack == [];
    assert forall id | id in s.objects :: multiset(s.native.stack)[id] == 0;
  }

  lemma DisposeKeepsLockstep(s: State)
    requires Lockstep(s)
    ensures Lockstep(DisposeAll(s))
  {
    if !s.disposed && !s.running {
      DisposeClosesAll(s);
      var t := DisposeAll(s);
      assert forall id | id in t.objects :: t.objects[id].callbackDepth == 0;
    }
  }

  lemma ApplyKeepsLockstep(s: State, op: Op)
    requires Lockstep(s) && Possible(s, op)
    ensures Lockstep(Apply(s, op))
  {
    match op
    case Register => RegisterKeepsLockstep(s);
    case RemoveHook(id) => RemoveKeepsLockstep(s, id);
    case Invoke(id) => InvokeKeepsLockstep(s, id);
    case Return(id) => ReturnKeepsLockstep(s, id);
    case Start =>
    case Finish => FinishKeepsLockstep(s);
    case Dispose => DisposeKeepsLockstep(s);
  }

  predicate PossibleAll(s: State, ops: seq<Op>)
    decreases |ops|
  {
    ops == [] || (Possible(s, ops[0]) && PossibleAll(Apply(s, ops[0]), ops[1..]))
  }

  function ApplyAll(s: State, ops: seq<Op>): State
    requires PossibleAll(s, ops)
    decreases |ops|
  {
    if ops == [] then s else ApplyAll(Apply(s, ops[0]), ops[1..])
  }

  /** Over every history, with hooks re-entered inside themselves allowed: Dart's
      current callback is the top of the native stack, its registrations are native
      hooks, and no callable is closed while it is callable or executing. */
  lemma {:induction false} HistoryKeepsLockstep(s: State, ops: seq<Op>)
    requires Lockstep(s) && PossibleAll(s, ops)
    ensures Lockstep(ApplyAll(s, ops))
    decreases |ops|
  {
    if ops != [] {
      ApplyKeepsLockstep(s, ops[0]);
      HistoryKeepsLockstep(Apply(s, ops[0]), ops[1..]);
    }
  }

  /** A closed callable stays closed, and a removed handle stays removed. */
  lemma {:induction false} ClosedForever(s: State, ops: seq<Op>, id: HookId)
    requires Lockstep(s) && PossibleAll(s, ops) && id in s.objects
    ensures var t := ApplyAll(s, ops);
            && id in t.objects
            && (s.objects[id].closed ==> t.objects[id].closed)
            && (!s.objects[id].active ==> !t.objects[id].active)
    decreases |ops|
  {
    if ops != [] {
      assert id < s.native.nextId;
      ApplyKeepsLockstep(s, ops[0]);
      ClosedForever(Apply(s, ops[0]), ops[1..], id);
    }
  }

  // ---- Removal, and when the callable goes ---------------------------------------------

  /** An active hook can be removed exactly outside runs and, in a run, while its callback is
      the innermost; then the native registry drops it at once or, in a run, marks it for its
      return. Otherwise nothing changes. */
  lemma RemovalAcceptedIff(s: State, id: HookId)
    requires Lockstep(s) && id in s.objects && s.objects[id].active
    ensures var t := Apply(s, Op.RemoveHook(id));
            && (!t.objects[id].active <==> !s.disposed && (!s.running || IsCurrent(s.native, id)))
            && (t.objects[id].active ==> t == s)
            && (!t.objects[id].active ==> if s.running then t.native.hooks == s.native.hooks[id := true]
                                          else t.native.hooks == s.native.hooks - {id})
  {
    if DartAllowsRemoval(s, id) {
      NativeNeverRejects(s, id);
    }
    assert id in s.native.hooks;
  }

  /** Nothing waits to be closed outside runs. */
  predicate Settled(s: State) {
    !s.running ==> s.deferred == []
  }

  lemma ApplyKeepsSettled(s: State, op: Op)
    requires Lockstep(s) && Settled(s) && Possible(s, op)
    ensures Settled(Apply(s, op))
  {
    if op.RemoveHook? && !s.running {
      assert s.native.stack == [];
      assert multiset(s.native.stack)[op.id] == 0;
    }
  }

  /** Over every history: outside runs a callable is closed exactly when its hook was removed
      or everything was disposed of, so removal closes it at once, or with the run at the
      latest. */
  lemma {:induction false} HistoryClosesRemoved(s: State, ops: seq<Op>)
    requires Lockstep(s) && Settled(s) && PossibleAll(s, ops)
    ensures var t := ApplyAll(s, ops);
            Settled(t)
                && (!t.running ==> forall id | id in t.objects :: t.objects[id].closed <==> !t.objects[id].active)
    decreases |ops|
  {
    if ops != [] {
      ApplyKeepsSettled(s, ops[0]);
      ApplyKeepsLockstep(s, ops[0]);
      HistoryClosesRemoved(Apply(s, ops[0]), ops[1..]);
    }
  }

  // ---- The Dart object ------------------------------------------------------------------

  class LinuxHooks {
    var native: View
    var objects: map<HookId, Registration>
    var registered: set<HookId>
    var deferred: seq<HookId>
    var current: Option<HookId>
    ghost var saved: seq<Option<HookId>>
    var running: bool
    var disposed: bool

    ghost function Snapshot(): State
      reads this
    {
      State(native, objects, registered, deferred, current, saved, running, disposed)
    }

    ghost predicate Valid()
      reads this
    {
      Lockstep(Snapshot())
    }

    constructor (native: View)
      requires native.hooks == map[] && native.stack == [] && !native.running
      ensures Valid() && Snapshot() == Initial(native)
    {
      this.native := native;
      objects, registered, deferred := map[], {}, [];
      current, saved, running, disposed := None, [], false, false;
    }

    method CloseRegistration(id: HookId)
      requires id in objects
      modifies `objects
      ensures objects == old(objects)[id := Close(old(objects)[id])]
    {
      if objects[id].closed {
        assert objects[id := Close(objects[id])] == objects;
        return;
      }
      objects := objects[id := objects[id].(closed := true)];
    }

    method Register() returns (id: Option<HookId>)
      requires Valid()
      modifies this
      ensures Valid() && Snapshot() == RegisterHook(old(Snapshot()))
      ensures id.Some? <==> !old(disposed) && !old(running)
      ensures id.Some? ==> id.value in objects && objects[id.value].active && id.value in native.hooks
    {
      RegisterKeepsLockstep(Snapshot());
      if disposed || running || native.running {
        return None;
      }
      id := Some(native.nextId);
      native := AddHook(native);
      objects := objects[id.value := Registration(true, 0, false)];
      registered := registered + {id.value};
    }

    method Remove(id: HookId) returns (ok: bool)
      requires Valid() && id in objects
      modifies this
      ensures Valid() && Snapshot() == Unregister(old(Snapshot()), id)
      ensures ok <==> !old(objects)[id].active || DartAllowsRemoval(old(Snapshot()), id)
    {
      ghost var before := Snapshot();
      if !objects[id].active {
        return true;
      }
      if disposed || (running && current != Some(id)) {
        return false;
      }
      NativeNeverRejects(Snapshot(), id);
      var status := RemovalStatus(native, id);
      if status != Ok {
        return false;
      }
      native := LinuxState.Remove(native, id);
      objects := objects[id := objects[id].(active := false)];
      registered := registered - {id};
      if objects[id].callbackDepth == 0 {
        CloseRegistration(id);
      } else {
        deferred := deferred + [id];
      }
      assert Snapshot() == Unregister(before, id);
      RemoveKeepsLockstep(before, id);
      return true;
    }

    /** `_invoke` around a callback whose body performs `body` on this object; the
        current callback and the depth are restored on the way out. */
    method Enter(id: HookId)
      requires Valid() && Possible(Snapshot(), Invoke(id))
      modifies this
      ensures Valid() && Snapshot() == InvokeHook(old(Snapshot()), id)
    {
      ghost var before := Snapshot();
      native := Step(native, Event.Enter(id));
      saved := saved + [current];
      current := Some(id);
      objects := objects[id := objects[id].(callbackDepth := objects[id].callbackDepth + 1)];
      assert Snapshot() == InvokeHook(before, id);
      InvokeKeepsLockstep(before, id);
    }

    method Leave(id: HookId, previous: Option<HookId>)
      requires Valid() && Possible(Snapshot(), Return(id)) && previous == saved[|saved| - 1]
      modifies this
      ensures Valid() && Snapshot() == ReturnFromHook(old(Snapshot()), id)
    {
      ghost var before := Snapshot();
      objects := objects[id := objects[id].(callbackDepth := objects[id].callbackDepth - 1)];
      current := previous;
      saved := saved[..|saved| - 1];
      native := Step(native, Event.Leave(id));
      assert Snapshot() == ReturnFromHook(before, id);
      ReturnKeepsLockstep(before, id);
    }

    method Start() returns (ok: bool)
      requires Valid()
      modifies this
      ensures Valid() && Snapshot() == StartRun(old(Snapshot()))
      ensures ok ==> running && native.running
      ensures ok <==> !old(disposed) && !old(running)
    {
      if disposed || running || native.running {
        return false;
      }
      running := true;
      native := native.(running := true);
      return true;
    }

    method Finish()
      requires Valid() && Possible(Snapshot(), Op.Finish)
      modifies this
      ensures Valid() && Snapshot() == FinishRun(old(Snapshot()))
      ensures !running && forall id | id in objects :: objects[id].closed <==> !objects[id].active
    {
      FinishKeepsLockstep(Snapshot());
      running := false;
      native := native.(running := false);
      CloseDeferred();
    }

    method CloseDeferred()
      requires forall id | id in deferred :: id in objects
      modifies `objects, `deferred
      ensures objects == CloseAll(old(objects), old(deferred)) && deferred == []
    {
      var i := 0;
      while i < |deferred|
        invariant 0 <= i <= |deferred|
        invariant objects == CloseAll(old(objects), deferred[..i])
        modifies `objects
      {
        assert deferred[i] in deferred;
        CloseRegistration(deferred[i]);
        assert deferred[..i + 1] == deferred[..i] + [deferred[i]];
        i := i + 1;
      }
      assert deferred[..i] == deferred;
      deferred := [];
    }

    /** Disposal: the native application goes first, then every callable is closed. */
    method Dispose() returns (ok: bool)
      requires Valid()
      modifies this
      ensures Valid() && Snapshot() == DisposeAll(old(Snapshot()))
      ensures ok <==> old(disposed) || !old(running)
      ensures ok && !old(disposed) ==> forall id | id in objects :: objects[id].closed
    {
      ghost var before := Snapshot();
      if disposed || running {
        return disposed;
      }
      native := native.(hooks := map[]);
      disposed := true;
      CloseRegistered();
      CloseDeferred();
      assert objects == DisposeAll(before).objects;
      assert Snapshot() == DisposeAll(before);
      DisposeKeepsLockstep(before);
      DisposeClosesAll(before);
      return true;
    }

    method CloseRegistered()
      requires forall id | id in registered :: id in objects
      modifies `objects, `registered
      ensures registered == {}
      ensures objects == map id | id in old(objects) ::
                if id in old(registered) then Close(old(objects)[id].(active := false)) else old(objects)[id]
    {
      while registered != {}
        invariant registered <= old(registered) && objects.Keys == old(objects).Keys
        invariant forall id | id in objects :: objects[id] ==
                    if id in old(registered) && id !in registered then Close(old(objects)[id].(active := false))
                        else old(objects)[id]
      {
        var id :| id in registered;
        objects := objects[id := objects[id].(active := false)];
        CloseRegistration(id);
        registered := registered - {id};
      }
    }
  }
}
