/**
 Whole histories of the Linux event callbacks: what always holds, what native code is
 left with when it fails after storing a table, and which callables are then lost.
 */
module CallbackHistory {
  import opened Prelude
  import opened CallbackTable

  /** Nothing is destroyed while it executes: disposal happens outside callbacks, and
      native code does not call what was closed. */
  predicate Harmless(s: State, op: Op) {
    (op.Dispose? ==> s.depth == 0) && (op.Call? ==> Open(s, op.callable))
  }

  lemma EndRunKeepsSound(s: State)
    requires Sound(s) && Possible(s, EndRun)
    ensures Sound(EndRunOn(s))
  {
    assert Agrees(s, Stack);
    PopKeepsSound(s);
    FinishKeepsSound(Popped(s));
  }

  lemma ApplyKeepsSound(s: State, op: Op)
    requires Sound(s) && Possible(s, op) && Harmless(s, op)
    ensures Sound(Apply(s, op))
  {
    match op
    case BeginSet(slot, handler) => BeginSetKeepsSound(s, slot, handler);
    case FailSet(slot, handler) => FailSetKeepsSound(s, slot, handler);
    case EndSet => EndSetKeepsSound(s);
    case FailSync => FailSyncKeepsSound(s);
    case Call(c) => CallKeepsSound(s, c);
    case CallHook => PushKeepsSound(s, Hooking);
    case Return =>
      assert Agrees(s, Stack);
      PopKeepsSound(s);
    case BeginRun => PushKeepsSound(s, Running);
    case EndRun => EndRunKeepsSound(s);
    case BeginOperation => PushKeepsSound(s, Operating);
    case EndOperation =>
      assert Agrees(s, Stack);
      PopKeepsSound(s);
    case Dispose => DisposeKeepsSound(s);
  }

  predicate PossibleAll(s: State, ops: seq<Op>)
    decreases |ops|
  {
    ops == [] || (Possible(s, ops[0]) && Harmless(s, ops[0]) && PossibleAll(Apply(s, ops[0]), ops[1..]))
  }

  function ApplyAll(s: State, ops: seq<Op>): State
    requires PossibleAll(s, ops)
    decreases |ops|
  {
    if ops == [] then s else ApplyAll(Apply(s, ops[0]), ops[1..])
  }

  lemma ApplyKeepsClosed(s: State, op: Op, c: Callable)
    requires Sound(s) && Possible(s, op) && c in s.made
    ensures c in Apply(s, op).made && (s.made[c].closed ==> Apply(s, op).made[c].closed)
  {
    assert Agrees(s, Tables);
  }

  /** Over every history, with callbacks installing callbacks to any depth and native
      code failing before or after it stored a table: the maps agree, everything
      registered, executing or about to be called again is open, and a closed callable
      stays closed. */
  lemma {:induction false} HistoryKeepsSound(s: State, ops: seq<Op>)
    requires Sound(s) && PossibleAll(s, ops)
    ensures Sound(ApplyAll(s, ops))
    ensures forall c | c in s.made ::
            c in ApplyAll(s, ops).made && (s.made[c].closed ==> ApplyAll(s, ops).made[c].closed)
    decreases |ops|
  {
    if ops != [] {
      var t := Apply(s, ops[0]);
      ApplyKeepsSound(s, ops[0]);
      HistoryKeepsSound(t, ops[1..]);
      forall c | c in s.made
        ensures c in t.made && (s.made[c].closed ==> t.made[c].closed)
      {
        ApplyKeepsClosed(s, ops[0], c);
      }
    }
  }

  // ---- What a late failure leaves in native code ------------------------------------------------------

  /** Native code failed after storing the table and keeps the callable that Dart closes. */
  predicate Strands(s: State, op: Op) {
    && op.FailSync? && InInstall(s)
    && s.frames.frame.created.Some? && Lists(s.native, s.made, s.frames.frame.created.value)
  }

  predicate Stores(op: Op) {
    op.BeginSet? || op.Dispose?
  }

  lemma StrandedStays(s: State, op: Op)
    requires Sound(s) && Possible(s, op) && !Stores(op) && !NativeOpen(s)
    ensures !NativeOpen(Apply(s, op))
  {
    var slot :| slot in s.native && !Open(s, s.native[slot]);
    assert Agrees(s, Tables);
    ApplyKeepsClosed(s, op, s.native[slot]);
    assert Apply(s, op).native == s.native;
    assert !Open(Apply(s, op), s.native[slot]);
  }

  lemma FailSyncStrandsIff(s: State)
    requires Sound(s) && NativeOpen(s) && InInstall(s)
    ensures NativeOpen(FailSyncOn(s)) <==> !Strands(s, FailSync)
  {
    assert Agrees(s, Tables);
    var created := s.frames.frame.created;
    var t := FailSyncOn(s);
    if Strands(s, FailSync) {
      var slot := s.made[created.value].slot;
      assert slot in t.native && !Open(t, t.native[slot]);
    } else {
      forall slot | slot in t.native
        ensures Open(t, t.native[slot])
      {
        assert created == Some(t.native[slot]) ==> Lists(s.native, s.made, created.value);
      }
    }
  }

  /** When native code fails before it calls anything, what it keeps was closed exactly
      when a callback was being installed, not removed. */
  lemma ImmediateFailureStrandsIff(s: State, slot: Slot, handler: Option<Handler>)
    requires Sound(s) && DartExecutes(s.frames)
    ensures NativeOpen(FailSyncOn(BeginSetOn(s, slot, handler))) <==> handler.None?
  {
    BeginSetKeepsSound(s, slot, handler);
    FailSyncStrandsIff(BeginSetOn(s, slot, handler));
  }

  lemma OthersStayOpen(s: State, op: Op)
    requires Sound(s) && Possible(s, op) && !Stores(op) && NativeOpen(s) && !op.FailSync?
    ensures NativeOpen(Apply(s, op))
  {
    assert Agrees(s, Native) && Agrees(s, Tables);
    var t := Apply(s, op);
    forall slot | slot in t.native
      ensures Open(t, t.native[slot])
    {
      var c := s.native[slot];
      assert t.native == s.native && Open(s, c) && c !in s.deferred && c < s.next;
      if op.EndSet? {
        OwedAround(s, c);
        EndSetLists(s, c);
      }
    }
  }

  /** Native code's table is sound after an operation exactly when it was made sound by
      it, or was sound and nothing was stranded. */
  lemma NativeOpenAfterIff(s: State, op: Op)
    requires Sound(s) && Possible(s, op) && Harmless(s, op)
    ensures NativeOpen(Apply(s, op)) <==> Stores(op) || (NativeOpen(s) && !Strands(s, op))
  {
    match op
    case BeginSet(slot, handler) => BeginSetKeepsSound(s, slot, handler);
    case Dispose =>
    case _ =>
      if !NativeOpen(s) {
        StrandedStays(s, op);
      } else if op.FailSync? {
        FailSyncStrandsIff(s);
      } else {
        OthersStayOpen(s, op);
      }
  }

  /** Something was stranded and neither a later `_set` that reached native code nor
      disposal has replaced the table since. */
  predicate EndsStranded(s: State, ops: seq<Op>, stranded: bool)
    requires PossibleAll(s, ops)
    decreases |ops|
  {
    if ops == [] then stranded
    else EndsStranded(Apply(s, ops[0]), ops[1..], Strands(s, ops[0]) || (stranded && !Stores(ops[0])))
  }

  /** Over every history: native code is left with a closed callable exactly from a late
      failure that strands one until the next table is stored. */
  lemma {:induction false} HistoryStrandsIff(s: State, ops: seq<Op>)
    requires Sound(s) && PossibleAll(s, ops)
    ensures NativeOpen(ApplyAll(s, ops)) <==> !EndsStranded(s, ops, !NativeOpen(s))
    decreases |ops|
  {
    if ops != [] {
      NativeOpenAfterIff(s, ops[0]);
      ApplyKeepsSound(s, ops[0]);
      HistoryStrandsIff(Apply(s, ops[0]), ops[1..]);
    }
  }

  /** And only then can it call one. */
  lemma ClosedCallPossibleIff(s: State)
    requires Sound(s) && s.frames.Inside? && NativeFrame(s.frames.frame)
    ensures (exists c :: Possible(s, Call(c)) && !Open(s, c)) <==> !NativeOpen(s)
  {
    assert Agrees(s, InUse) && Agrees(s, Tables);
    if !NativeOpen(s) {
      var slot :| slot in s.native && !Open(s, s.native[slot]);
      assert Possible(s, Call(s.native[slot]));
    }
    forall c | Possible(s, Call(c)) && !Open(s, c)
      ensures !NativeOpen(s)
    {
      assert Uses(s.frames.frame, c) ==> Used(s.frames, c);
    }
  }

  /** A history without such failures, whatever native code calls in it. */
  predicate Unstranded(s: State, ops: seq<Op>)
    decreases |ops|
  {
    ops == [] ||
    (&& Possible(s, ops[0]) && (ops[0].Dispose? ==> s.depth == 0) && !Strands(s, ops[0])
     && Unstranded(Apply(s, ops[0]), ops[1..]))
  }

  /** In it every call is to an open callable. */
  lemma {:induction false} UnstrandedCallsOpen(s: State, ops: seq<Op>)
    requires Sound(s) && NativeOpen(s) && Unstranded(s, ops)
    ensures PossibleAll(s, ops) && NativeOpen(ApplyAll(s, ops))
    decreases |ops|
  {
    if ops != [] {
      if ops[0].Call? {
        assert Agrees(s, InUse) && Agrees(s, Tables);
        assert Uses(s.frames.frame, ops[0].callable) ==> Used(s.frames, ops[0].callable);
        assert Open(s, ops[0].callable);
      }
      NativeOpenAfterIff(s, ops[0]);
      ApplyKeepsSound(s, ops[0]);
      UnstrandedCallsOpen(Apply(s, ops[0]), ops[1..]);
    }
  }

  // ---- What a late failure forgets -----------------------------------------------------------------------

  /** The slot holds something installed inside the `_set` that fails: it is overwritten. */
  predicate Forgets(s: State, op: Op) {
    op.FailSync? && InInstall(s)
    && Lookup(s.registrations, s.frames.frame.slot).Some?
    && Lookup(s.registrations, s.frames.frame.slot) != s.frames.frame.created
  }

  /** Open, listed nowhere, and not about to be closed by any `_set` in progress. */
  predicate Lost(s: State, c: Callable) {
    Open(s, c) && !Registered(s, c) && c !in s.deferred && !Owed(s.frames, c) && !Created(s.frames, c)
  }

  lemma ForgetsLoses(s: State)
    requires Sound(s) && Forgets(s, FailSync)
    ensures Lost(FailSyncOn(s), s.registrations[s.frames.frame.slot])
  {
    assert Agrees(s, InUse) && Agrees(s, Tables) && Agrees(s, Waiting) && Agrees(s, Ancestry);
    var f := s.frames.frame;
    var c := s.registrations[f.slot];
    assert Registered(s, c) && Lookup(s.registrations, f.slot) == Some(c);
    OwedAround(s, c);
    ListedAfterFailure(s, c);
    assert c >= f.birth;
    UnderBounds(s.frames.below, f.birth, c);
  }

  lemma FailSyncForgetsIff(s: State)
    requires Sound(s) && NoneForgotten(s) && InInstall(s)
    ensures NoneForgotten(FailSyncOn(s)) <==> !Forgets(s, FailSync)
  {
    var f := s.frames.frame;
    var t := FailSyncOn(s);
    if Forgets(s, FailSync) {
      ForgetsLoses(s);
    } else {
      forall c | Open(t, c)
        ensures Registered(t, c) || c in t.deferred || Owed(t.frames, c)
      {
        OwedAround(s, c);
        ListedAfterFailure(s, c);
        assert Open(s, c) && f.created != Some(c);
      }
    }
  }

  lemma LostStays(s: State, op: Op, c: Callable)
    requires Sound(s) && Possible(s, op) && Lost(s, c)
    ensures Lost(Apply(s, op), c)
  {
    match op
    case BeginSet(slot, handler) =>
      assert Agrees(s, Tables);
      NextIsNew(s);
      ListedAfterSet(s, slot, handler, c);
      assert Lookup(s.registrations, slot) == Some(c) ==> Registered(s, c);
    case EndSet =>
      OwedAround(s, c);
      EndSetLists(s, c);
    case FailSync =>
      OwedAround(s, c);
      ListedAfterFailure(s, c);
    case FailSet(_, _) => NextIsNew(s);
    case _ =>
  }

  lemma OthersForgetNothing(s: State, op: Op)
    requires Sound(s) && Possible(s, op) && Harmless(s, op) && NoneForgotten(s) && !op.FailSync?
    ensures NoneForgotten(Apply(s, op))
  {
    var t := Apply(s, op);
    forall c | Open(t, c)
      ensures Registered(t, c) || c in t.deferred || Owed(t.frames, c)
    {
      match op
      case BeginSet(slot, handler) =>
        assert Agrees(s, Tables);
        ListedAfterSet(s, slot, handler, c);
      case EndSet =>
        OwedAround(s, c);
        EndSetLists(s, c);
      case FailSet(_, _) => assert Open(s, c);
      case Dispose => DisposeKeepsSound(s);
      case _ =>
    }
  }

  predicate EverForgets(s: State, ops: seq<Op>)
    requires PossibleAll(s, ops)
    decreases |ops|
  {
    ops != [] && (Forgets(s, ops[0]) || EverForgets(Apply(s, ops[0]), ops[1..]))
  }

  lemma {:induction false} LostForever(s: State, ops: seq<Op>, c: Callable)
    requires Sound(s) && PossibleAll(s, ops) && Lost(s, c)
    ensures Lost(ApplyAll(s, ops), c)
    decreases |ops|
  {
    if ops != [] {
      ApplyKeepsSound(s, ops[0]);
      LostStays(s, ops[0], c);
      LostForever(Apply(s, ops[0]), ops[1..], c);
    }
  }

  /** Over every history: some open callable is lost track of exactly when a late failure
      overwrote what was installed inside it, and then it is never closed. */
  lemma {:induction false} HistoryForgetsIff(s: State, ops: seq<Op>)
    requires Sound(s) && PossibleAll(s, ops) && NoneForgotten(s)
    ensures NoneForgotten(ApplyAll(s, ops)) <==> !EverForgets(s, ops)
    decreases |ops|
  {
    if ops != [] {
      var op := ops[0];
      ApplyKeepsSound(s, op);
      if Forgets(s, op) {
        ForgetsLoses(s);
        LostForever(Apply(s, op), ops[1..], s.registrations[s.frames.frame.slot]);
      } else {
        if op.FailSync? {
          FailSyncForgetsIff(s);
        } else {
          OthersForgetNothing(s, op);
        }
        HistoryForgetsIff(Apply(s, op), ops[1..]);
      }
    }
  }

  /** A whole life: started empty and disposed of outside any callback, every callable
      ever created ends closed exactly when no late failure forgot one. */
  lemma AllClosedAfterDisposal(ops: seq<Op>)
    requires PossibleAll(Initial(), ops)
    requires Possible(ApplyAll(Initial(), ops), Dispose) && ApplyAll(Initial(), ops).depth == 0
    ensures var t := DisposeOn(ApplyAll(Initial(), ops));
            && t.registrations == map[] && t.native == map[]
            && ((forall c | c in t.made :: t.made[c].closed) <==> !EverForgets(Initial(), ops))
  {
    InitialSound();
    HistoryKeepsSound(Initial(), ops);
    HistoryForgetsIff(Initial(), ops);
    DisposeKeepsSound(ApplyAll(Initial(), ops));
  }

  // ---- What a slot holds, and when what it held is closed --------------------------------------------------

  /** What each `_set` in progress, innermost first, found in the slot, if it is for it. */
  function Formers(frames: Frames, slot: Slot): seq<Option<Option<Handler>>> {
    match frames
    case Outside => []
    case Inside(f, below) =>
      (if !f.Installing? then [] else if f.slot == slot then [Some(f.former)] else [None]) + Formers(below, slot)
  }

  /** The callbacks as one slot sees them. */
  datatype SlotView = SlotView(held: Option<Handler>, formers: seq<Option<Option<Handler>>>)

  function ViewOf(s: State, slot: Slot): SlotView {
    SlotView(Lookup(s.callbacks, slot), Formers(s.frames, slot))
  }

  /** What an operation says of one slot: it holds the handler last set, except that a `_set`
      that fails puts back what it found, whatever was set inside it. */
  function Said(v: SlotView, op: Op, slot: Slot): SlotView {
    match op
    case BeginSet(other, handler) =>
      if other == slot then SlotView(handler, [Some(v.held)] + v.formers) else v.(formers := [None] + v.formers)
    case EndSet => v.(formers := Outer(v.formers))
    case FailSync =>
      SlotView(if v.formers != [] && v.formers[0].Some? then v.formers[0].value else v.held, Outer(v.formers))
    case Dispose => v.(held := None)
    case _ => v
  }

  function Outer(formers: seq<Option<Option<Handler>>>): seq<Option<Option<Handler>>> {
    if formers == [] then [] else formers[1..]
  }

  function SaidAll(v: SlotView, ops: seq<Op>, slot: Slot): SlotView
    decreases |ops|
  {
    if ops == [] then v else SaidAll(Said(v, ops[0], slot), ops[1..], slot)
  }

  lemma InstalledSlot(s: State, slot: Slot)
    requires InInstall(s)
    ensures var f := s.frames.frame;
            Formers(s.frames, slot) == [if f.slot == slot then Some(f.former) else None] + Formers(s.frames.below, slot)
  {
  }

  lemma BegunSlot(s: State, other: Slot, handler: Option<Handler>, slot: Slot)
    ensures ViewOf(BeginSetOn(s, other, handler), slot) == Said(ViewOf(s, slot), BeginSet(other, handler), slot)
  {
    StoredLookup(s.callbacks, other, handler, slot);
    InstalledSlot(BeginSetOn(s, other, handler), slot);
  }

  lemma EndedSlot(s: State, slot: Slot)
    requires InInstall(s)
    ensures ViewOf(EndSetOn(s), slot) == Said(ViewOf(s, slot), EndSet, slot)
  {
    InstalledSlot(s, slot);
    assert Formers(s.frames, slot)[1..] == Formers(s.frames.below, slot);
  }

  lemma FailedSlot(s: State, slot: Slot)
    requires InInstall(s)
    ensures ViewOf(FailSyncOn(s), slot) == Said(ViewOf(s, slot), FailSync, slot)
  {
    InstalledSlot(s, slot);
    StoredLookup(s.callbacks, s.frames.frame.slot, s.frames.frame.former, slot);
    assert Formers(s.frames, slot)[1..] == Formers(s.frames.below, slot);
  }

  lemma AppliedSlot(s: State, op: Op, slot: Slot)
    requires Possible(s, op)
    ensures ViewOf(Apply(s, op), slot) == Said(ViewOf(s, slot), op, slot)
  {
    match op
    case BeginSet(other, handler) => BegunSlot(s, other, handler, slot);
    case EndSet => EndedSlot(s, slot);
    case FailSync => FailedSlot(s, slot);
    case _ => assert [] + Formers(s.frames, slot) == Formers(s.frames, slot);
  }

  /** Over every history each slot holds exactly the handler the history says. */
  lemma {:induction false} HandlerFate(s: State, ops: seq<Op>, slot: Slot)
    requires PossibleAll(s, ops)
    ensures ViewOf(ApplyAll(s, ops), slot) == SaidAll(ViewOf(s, slot), ops, slot)
    decreases |ops|
  {
    if ops != [] {
      AppliedSlot(s, ops[0], slot);
      HandlerFate(Apply(s, ops[0]), ops[1..], slot);
    }
  }

  /** The callable that a finished `_set` replaced is closed with it exactly when no run is in
      progress and no callback executes; otherwise it waits. Nothing else is closed. */
  lemma EndSetClosesIff(s: State, c: Callable)
    requires Sound(s) && InInstall(s) && Open(s, c)
    ensures var t := Apply(s, EndSet);
            && (!Open(t, c) <==> s.frames.frame.replaced == Some(c) && !s.running && s.depth == 0)
            && (s.frames.frame.replaced == Some(c) && Open(t, c) ==> c in t.deferred)
  {
    EndSetLists(s, c);
  }

  /** After the outermost run exactly what is registered is open, if no failure lost track of
      a callable. */
  lemma RunClosesReplaced(s: State)
    requires Sound(s) && NoneForgotten(s) && Possible(s, EndRun) && s.frames.below == Outside
    ensures var t := Apply(s, EndRun);
            t.deferred == [] && forall c :: Open(t, c) <==> Registered(t, c)
  {
    assert Agrees(s, Stack) && Agrees(s, InUse) && Agrees(s, Tables) && Agrees(s, Waiting);
    var t := EndRunOn(s);
    forall c
      ensures Open(t, c) <==> Registered(t, c)
    {
      assert !Owed(s.frames, c) && !Owed(s.frames.below, c);
      assert Open(s, c) ==> Registered(s, c) || c in s.deferred;
      assert Registered(t, c) == Registered(s, c);
      assert Open(t, c) <==> Open(s, c) && c !in s.deferred;
    }
  }

  // ---- Each failure can happen --------------------------------------------------------------------------

  lemma OneMore(s: State, op: Op, rest: seq<Op>)
    requires Possible(s, op) && Harmless(s, op)
    ensures PossibleAll(s, [op] + rest) <==> PossibleAll(Apply(s, op), rest)
    ensures PossibleAll(s, [op] + rest) ==> ApplyAll(s, [op] + rest) == ApplyAll(Apply(s, op), rest)
  {
    assert ([op] + rest)[1..] == rest;
  }

  lemma {:induction false} HistoryAppend(s: State, first: seq<Op>, after: seq<Op>)
    requires PossibleAll(s, first) && PossibleAll(ApplyAll(s, first), after)
    ensures PossibleAll(s, first + after) && ApplyAll(s, first + after) == ApplyAll(ApplyAll(s, first), after)
    decreases |first|
  {
    if first == [] {
      assert first + after == after;
    } else {
      assert (first + after)[1..] == first[1..] + after;
      HistoryAppend(Apply(s, first[0]), first[1..], after);
    }
  }

  /** Installing a module callback that disposes of the application when it is told of
      the first module closes it while it executes. */
  lemma DisposeCanCloseExecuting(handler: Handler)
    ensures var ops := [BeginSet(ModuleLoad, Some(handler)), Call(0)];
            && PossibleAll(Initial(), ops)
            && var t := ApplyAll(Initial(), ops);
               Possible(t, Dispose) && Used(t.frames, 0) && !Open(DisposeOn(t), 0)
  {
    var install, call := BeginSet(ModuleLoad, Some(handler)), Call(0);
    var s1 := Apply(Initial(), install);
    OneMore(s1, call, []);
    OneMore(Initial(), install, [call]);
    assert [install] + ([call] + []) == [install, call] && [call] + [] == [call];
    assert Lists(s1.registrations, s1.made, 0);
  }

  /** A module callback whose replay fails is closed in Dart and still called by native
      code at the next load. */
  lemma LateFailureCanStrand(handler: Handler)
    ensures var ops := [BeginSet(ModuleLoad, Some(handler)), FailSync, BeginOperation];
            && PossibleAll(Initial(), ops)
            && var t := ApplyAll(Initial(), ops);
               Possible(t, Call(0)) && !Open(t, 0) && t.registrations == map[]
  {
    var install := BeginSet(ModuleLoad, Some(handler));
    var s1 := Apply(Initial(), install);
    var s2 := Apply(s1, FailSync);
    OneMore(s2, BeginOperation, []);
    OneMore(s1, FailSync, [BeginOperation]);
    OneMore(Initial(), install, [FailSync, BeginOperation]);
    assert [BeginOperation] + [] == [BeginOperation];
    assert [FailSync] + [BeginOperation] == [FailSync, BeginOperation];
    assert [install] + [FailSync, BeginOperation] == [install, FailSync, BeginOperation];
    assert s2.registrations == map[] && Lists(s2.native, s2.made, 0);
  }

  /** The state in which a module callback has replaced itself while being replayed to. */
  function Succeeded(other: Handler): State {
    var made := map[0 := Registration(ModuleLoad, false), 1 := Registration(ModuleLoad, false)];
    State(map[ModuleLoad := other], map[ModuleLoad := 1], [0], 0, made, 2, map[ModuleLoad := 1],
          Inside(Installing(ModuleLoad, None, None, Some(0), 0), Outside), false, false)
  }

  lemma ReplayStarts(handler: Handler)
    ensures var ops := [BeginSet(ModuleLoad, Some(handler)), Call(0)];
            && PossibleAll(Initial(), ops)
            && var t := ApplyAll(Initial(), ops);
               var installing := Installing(ModuleLoad, None, None, Some(0), 0);
               t == State(map[ModuleLoad := handler], map[ModuleLoad := 0], [], 1,
                          map[0 := Registration(ModuleLoad, false)], 1, map[ModuleLoad := 0],
                          Inside(Calling(0), Inside(installing, Outside)), false, false)
  {
    var install, call := BeginSet(ModuleLoad, Some(handler)), Call(0);
    var s1 := Apply(Initial(), install);
    OneMore(s1, call, []);
    OneMore(Initial(), install, [call]);
    assert [install] + [call] == [install, call] && [call] + [] == [call];
  }

  lemma SuccessorInstalled(handler: Handler, other: Handler)
    ensures var s := ApplyAll(Initial(), [BeginSet(ModuleLoad, Some(handler)), Call(0)]);
            var ops := [BeginSet(ModuleLoad, Some(other)), EndSet, Return];
            PossibleAll(s, ops) && ApplyAll(s, ops) == Succeeded(other)
  {
    ReplayStarts(handler);
    var s := ApplyAll(Initial(), [BeginSet(ModuleLoad, Some(handler)), Call(0)]);
    var again := BeginSet(ModuleLoad, Some(other));
    var s3 := Apply(s, again);
    var s4 := Apply(s3, EndSet);
    assert Apply(s4, Return) == Succeeded(other);
    OneMore(s4, Return, []);
    OneMore(s3, EndSet, [Return]);
    OneMore(s, again, [EndSet, Return]);
    assert [Return] + [] == [Return] && [EndSet] + [Return] == [EndSet, Return];
    assert [again] + [EndSet, Return] == [again, EndSet, Return];
  }

  /** A module callback that replaced itself while being replayed to loses its successor
      when the replay then fails. */
  lemma LateFailureCanForget(handler: Handler, other: Handler)
    ensures var ops := [BeginSet(ModuleLoad, Some(handler)), Call(0)]
                       + [BeginSet(ModuleLoad, Some(other)), EndSet, Return] + [FailSync];
            PossibleAll(Initial(), ops) && Lost(ApplyAll(Initial(), ops), 1)
  {
    var ops := [BeginSet(ModuleLoad, Some(handler)), Call(0)];
    var ops' := [BeginSet(ModuleLoad, Some(other)), EndSet, Return];
    ReplayStarts(handler);
    SuccessorInstalled(handler, other);
    HistoryAppend(Initial(), ops, ops');
    OneMore(Succeeded(other), FailSync, []);
    assert [FailSync] + [] == [FailSync];
    HistoryAppend(Initial(), ops + ops', [FailSync]);
    assert FailSyncOn(Succeeded(other)).registrations == map[];
  }
}
