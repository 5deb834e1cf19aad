/**
 Dart's Linux event callbacks: each slot holds a user function and the native callable
 made for it, and the native table holds the callables' addresses. Native code runs
 callables that may install others, also while it is still replaying modules to one
 that has just been replaced, and it can fail before or after storing a new table.
 */
module CallbackTable {
  import opened Prelude

  datatype Slot =
    | Stdout | Stderr | Syscall | MemoryViolate | Signal | MemoryAllocate | MemoryProtect
    | MemoryRelease | ModuleLoad | ThreadCreate | ThreadTerminated | ThreadSwitch

  /** A user's Dart function. */
  type Handler = nat

  /** A native callable, known by its address; addresses are not reused. */
  type Callable = nat

  /** A callable is made for one slot, and closed at most once. */
  datatype Registration = Registration(slot: Slot, closed: bool)

  /** Who is executing. `_set` remembers what it replaced, what it made, and here also
      the first address not yet handed out when it began. */
  datatype Frame =
    | Installing(slot: Slot, former: Option<Handler>, replaced: Option<Callable>,
                 created: Option<Callable>, birth: Callable)
    | Running                      // native `start`
    | Operating                    // another native call that may notify
    | Calling(callable: Callable)  // `_invoke` of a callable
    | Hooking                      // a low-level or symbol hook's callback

  /** The control stack, innermost frame first. `Installing` is native `set`. */
  datatype Frames = Outside | Inside(frame: Frame, below: Frames)

  datatype State = State(
    callbacks: map<Slot, Handler>,
    registrations: map<Slot, Callable>,
    deferred: seq<Callable>,
    depth: nat,                          // _callbackDepth
    made: map<Callable, Registration>,   // every callable ever created
    next: Callable,
    native: map<Slot, Callable>,         // the table native code calls through
    frames: Frames,
    running: bool,
    disposed: bool)

  datatype Op =
    | BeginSet(slot: Slot, handler: Option<Handler>)   // up to native code holding the new table
    | EndSet                                           // `_sync` returns; the replaced callable is released
    | FailSync                                         // `_sync` throws after native code stored the table
    | FailSet(slot: Slot, handler: Option<Handler>)    // `_sync` throws before native code took the table
    | Call(callable: Callable)
    | CallHook
    | Return
    | BeginRun
    | EndRun
    | BeginOperation
    | EndOperation
    | Dispose

  predicate NativeFrame(f: Frame) {
    f.Installing? || f.Running? || f.Operating?
  }

  predicate DartExecutes(frames: Frames) {
    frames.Inside? ==> !NativeFrame(frames.frame)
  }

  /** A new module callback is told of the loaded modules through the address native
      code captured, whatever its table holds meanwhile. */
  function Replaying(f: Frame): Option<Callable> {
    if f.Installing? && f.slot == ModuleLoad then f.created else None
  }

  /** A table lists the callable. */
  predicate Lists(table: map<Slot, Callable>, made: map<Callable, Registration>, c: Callable) {
    c in made && made[c].slot in table && table[made[c].slot] == c
  }

  predicate Open(s: State, c: Callable) {
    c in s.made && !s.made[c].closed
  }

  // ---- The operations --------------------------------------------------------------------

  function Lookup<V>(table: map<Slot, V>, slot: Slot): Option<V> {
    if slot in table then Some(table[slot]) else None
  }

  function Stored<V>(table: map<Slot, V>, slot: Slot, value: Option<V>): map<Slot, V> {
    if value.None? then table - {slot} else table[slot := value.value]
  }

  function Closed(made: map<Callable, Registration>, c: Callable): map<Callable, Registration> {
    if c in made then made[c := made[c].(closed := true)] else made
  }

  function ClosedAll(made: map<Callable, Registration>, cs: seq<Callable>): map<Callable, Registration> {
    map c | c in made :: if c in cs then made[c].(closed := true) else made[c]
  }

  function Fresh(s: State, handler: Option<Handler>): Option<Callable> {
    if handler.None? then None else Some(s.next)
  }

  function WithSlot(s: State, slot: Slot, handler: Option<Handler>): State {
    var changed := s.(callbacks := Stored(s.callbacks, slot, handler),
                      registrations := Stored(s.registrations, slot, Fresh(s, handler)));
    if handler.None? then changed
    else changed.(made := s.made[s.next := Registration(slot, false)], next := s.next + 1)
  }

  function InstallFrame(s: State, slot: Slot, handler: Option<Handler>): Frame {
    Installing(slot, Lookup(s.callbacks, slot), Lookup(s.registrations, slot), Fresh(s, handler), s.next)
  }

  /** The tables change, native code takes the new one and, for a new module callback,
      goes on to replay the loaded modules. */
  function BeginSetOn(s: State, slot: Slot, handler: Option<Handler>): State {
    var changed := WithSlot(s, slot, handler);
    changed.(native := changed.registrations, frames := Inside(InstallFrame(s, slot, handler), s.frames))
  }

  predicate InInstall(s: State) {
    s.frames.Inside? && s.frames.frame.Installing?
  }

  function EndSetOn(s: State): State
    requires InInstall(s)
  {
    var done := s.(frames := s.frames.below);
    match s.frames.frame.replaced
    case None => done
    case Some(c) =>
      if s.running || s.depth != 0 then done.(deferred := s.deferred + [c])
      else done.(made := Closed(s.made, c))
  }

  function Restored(table: map<Slot, Callable>, f: Frame): map<Slot, Callable>
    requires f.Installing?
  {
    Stored(table, f.slot, f.replaced)
  }

  /** The new callable is closed and both maps get the slot's previous contents back;
      native code keeps the table it stored. */
  function FailSyncOn(s: State): State
    requires InInstall(s)
  {
    var f := s.frames.frame;
    s.(frames := s.frames.below,
       made := if f.created.Some? then Closed(s.made, f.created.value) else s.made,
       callbacks := Stored(s.callbacks, f.slot, f.former),
       registrations := Restored(s.registrations, f))
  }

  /** The same when native code never stored the table. */
  function FailSetOn(s: State, slot: Slot, handler: Option<Handler>): State {
    if handler.None? then s else s.(made := s.made[s.next := Registration(slot, true)], next := s.next + 1)
  }

  /** `_finishRun`. */
  function FinishRun(s: State): State {
    if s.depth != 0 then s else s.(made := ClosedAll(s.made, s.deferred), deferred := [])
  }

  function EndRunOn(s: State): State
    requires s.frames.Inside?
  {
    FinishRun(s.(frames := s.frames.below, running := false))
  }

  function DisposeOn(s: State): State {
    s.(native := map[],
       made := map c | c in s.made ::
         if c in s.deferred || Lists(s.registrations, s.made, c) then s.made[c].(closed := true) else s.made[c],
       callbacks := map[], registrations := map[], deferred := [], disposed := true)
  }

  /** What can happen next: native code calls through its table, or replays to the
      address it captured; Dart code starts operations; everything nests. */
  predicate Possible(s: State, op: Op) {
    match op
    case BeginSet(_, _) => DartExecutes(s.frames) && !s.disposed
    case FailSet(_, _) => DartExecutes(s.frames) && !s.disposed
    case EndSet => InInstall(s)
    case FailSync => InInstall(s)
    case Call(c) =>
      && s.frames.Inside? && NativeFrame(s.frames.frame)
      && (Lists(s.native, s.made, c) || Replaying(s.frames.frame) == Some(c))
    case CallHook => s.running && s.frames.Inside? && NativeFrame(s.frames.frame)
    case Return => s.frames.Inside? && !NativeFrame(s.frames.frame) && (s.frames.frame.Calling? ==> s.depth > 0)
    case BeginRun => DartExecutes(s.frames) && !s.running && !s.disposed
    case EndRun => s.frames.Inside? && s.frames.frame.Running?
    case BeginOperation => DartExecutes(s.frames) && !s.disposed
    case EndOperation => s.frames.Inside? && s.frames.frame.Operating?
    case Dispose => DartExecutes(s.frames) && !s.running && !s.disposed
  }

  function Apply(s: State, op: Op): State
    requires Possible(s, op)
  {
    match op
    case BeginSet(slot, handler) => BeginSetOn(s, slot, handler)
    case FailSet(slot, handler) => FailSetOn(s, slot, handler)
    case EndSet => EndSetOn(s)
    case FailSync => FailSyncOn(s)
    case Call(c) => s.(frames := Inside(Calling(c), s.frames), depth := s.depth + 1)
    case CallHook => s.(frames := Inside(Hooking, s.frames))
    case Return => s.(frames := s.frames.below, depth := if s.frames.frame.Calling? then s.depth - 1 else s.depth)
    case BeginRun => s.(frames := Inside(Running, s.frames), running := true)
    case EndRun => EndRunOn(s)
    case BeginOperation => s.(frames := Inside(Operating, s.frames))
    case EndOperation => s.(frames := s.frames.below)
    case Dispose => DisposeOn(s)
  }

  // ---- The control stack --------------------------------------------------------------------

  function Calls(frames: Frames): nat {
    match frames
    case Outside => 0
    case Inside(f, below) => Calls(below) + (if f.Calling? then 1 else 0)
  }

  /** Native and Dart frames alternate, at most one run is in progress, and hook
      callbacks execute inside it. */
  predicate Nested(frames: Frames, running: bool) {
    match frames
    case Outside => !running
    case Inside(Running, below) => running && DartExecutes(below) && Nested(below, false)
    case Inside(Hooking, below) => running && !DartExecutes(below) && Nested(below, running)
    case Inside(Calling(_), below) => !DartExecutes(below) && Nested(below, running)
    case Inside(_, below) => DartExecutes(below) && Nested(below, running)
  }

  /** A frame executes the callable or will call it again. */
  predicate Uses(f: Frame, c: Callable) {
    f == Calling(c) || Replaying(f) == Some(c)
  }

  predicate Used(frames: Frames, c: Callable) {
    frames.Inside? && (Uses(frames.frame, c) || Used(frames.below, c))
  }

  /** A `_set` in progress will release the callable, or put it back. */
  predicate Owed(frames: Frames, c: Callable) {
    frames.Inside? && ((frames.frame.Installing? && frames.frame.replaced == Some(c)) || Owed(frames.below, c))
  }

  predicate Created(frames: Frames, c: Callable) {
    frames.Inside? && ((frames.frame.Installing? && frames.frame.created == Some(c)) || Created(frames.below, c))
  }

  /** No frame inside the one that will release a callable uses it, and only one will
      release it. */
  ghost predicate Layered(frames: Frames) {
    frames.Inside? ==>
      && Layered(frames.below)
      && (forall c | Uses(frames.frame, c) :: !Owed(frames, c))
      && (forall c | frames.frame.Installing? && frames.frame.replaced == Some(c) :: !Owed(frames.below, c))
  }

  /** Every callable and address the frames mention was handed out before `bound`. */
  predicate Under(frames: Frames, bound: Callable) {
    frames.Inside? ==>
      && Under(frames.below, bound)
      && match frames.frame
         case Calling(c) => c < bound
         case Installing(_, _, replaced, created, birth) =>
           && birth <= bound && (replaced.Some? ==> replaced.value < birth)
           && (created.Some? ==> created.value == birth < bound)
         case _ => true
  }

  /** A `_set` makes a callable that no frame around it has heard of. */
  predicate Aged(frames: Frames) {
    frames.Inside? ==>
      && Aged(frames.below)
      && (frames.frame.Installing? ==>
            Under(frames.below, frames.frame.birth) && (frames.frame.former.Some? <==> frames.frame.replaced.Some?))
  }

  predicate FramesTyped(frames: Frames, made: map<Callable, Registration>) {
    frames.Inside? ==>
      && FramesTyped(frames.below, made)
      && (frames.frame.Installing? ==>
            && MadeFor(frames.frame.replaced, frames.frame.slot, made)
            && MadeFor(frames.frame.created, frames.frame.slot, made))
  }

  predicate MadeFor(c: Option<Callable>, slot: Slot, made: map<Callable, Registration>) {
    c.Some? ==> c.value in made && made[c.value].slot == slot
  }

  /** If every `_set` in progress failed, each slot would go back to something older than
      that `_set`; what it holds now was made by it or inside it. */
  predicate Lineage(frames: Frames, registrations: map<Slot, Callable>) {
    frames.Inside? ==>
      if frames.frame.Installing? then
        && (frames.frame.slot in registrations ==> registrations[frames.frame.slot] >= frames.frame.birth)
        && Lineage(frames.below, Restored(registrations, frames.frame))
      else Lineage(frames.below, registrations)
  }

  lemma {:induction false} UnderBounds(frames: Frames, bound: Callable, c: Callable)
    requires Under(frames, bound)
    ensures Used(frames, c) || Owed(frames, c) || Created(frames, c) ==> c < bound
    decreases frames
  {
    if frames.Inside? {
      UnderBounds(frames.below, bound, c);
    }
  }

  lemma {:induction false} UnderGrows(frames: Frames, bound: Callable, larger: Callable)
    requires Under(frames, bound) && bound <= larger
    ensures Under(frames, larger)
    decreases frames
  {
    if frames.Inside? {
      UnderGrows(frames.below, bound, larger);
    }
  }

  predicate Extends(made: map<Callable, Registration>, made': map<Callable, Registration>) {
    forall c | c in made :: c in made' && made'[c].slot == made[c].slot
  }

  lemma {:induction false} FramesStayTyped(frames: Frames, made: map<Callable, Registration>,
                                           made': map<Callable, Registration>)
    requires FramesTyped(frames, made) && Extends(made, made')
    ensures FramesTyped(frames, made')
    decreases frames
  {
    if frames.Inside? {
      FramesStayTyped(frames.below, made, made');
    }
  }

  ghost predicate AgreeElsewhere(a: map<Slot, Callable>, b: map<Slot, Callable>, slot: Slot) {
    forall other | other != slot :: Lookup(a, other) == Lookup(b, other)
  }

  lemma SameTable(a: map<Slot, Callable>, b: map<Slot, Callable>, slot: Slot)
    requires AgreeElsewhere(a, b, slot) && Lookup(a, slot) == Lookup(b, slot)
    ensures a == b
  {
    assert forall other :: Lookup(a, other) == Lookup(b, other);
    assert forall other :: other in a <==> Lookup(a, other).Some?;
    assert forall other :: other in b <==> Lookup(b, other).Some?;
    assert forall other | other in a :: a[other] == Lookup(a, other).value;
  }

  lemma StoredLookup<V>(table: map<Slot, V>, slot: Slot, value: Option<V>, other: Slot)
    ensures Lookup(Stored(table, slot, value), other) == if other == slot then value else Lookup(table, other)
  {
  }

  /** A slot that now holds something newer than every frame leaves the lineage intact. */
  lemma {:induction false} LineageOfNewer(frames: Frames, before: map<Slot, Callable>, after: map<Slot, Callable>,
                                          slot: Slot, birth: Callable)
    requires Lineage(frames, before) && Under(frames, birth)
    requires AgreeElsewhere(before, after, slot) && (slot in after ==> after[slot] >= birth)
    ensures Lineage(frames, after)
    decreases frames
  {
    if frames.Inside? && frames.frame.Installing? {
      var g := frames.frame;
      var back, back' := Restored(before, g), Restored(after, g);
      forall other
        ensures other != slot ==> Lookup(back, other) == Lookup(back', other)
        ensures Lookup(back, other) == if other == g.slot then g.replaced else Lookup(before, other)
        ensures Lookup(back', other) == if other == g.slot then g.replaced else Lookup(after, other)
      {
        StoredLookup(before, g.slot, g.replaced, other);
        StoredLookup(after, g.slot, g.replaced, other);
      }
      if g.slot == slot {
        SameTable(back, back', slot);
      } else {
        assert Lookup(before, g.slot) == Lookup(after, g.slot);
        assert Lookup(back', slot) == Lookup(after, slot);
        LineageOfNewer(frames.below, back, back', slot, birth);
      }
    } else if frames.Inside? {
      LineageOfNewer(frames.below, before, after, slot, birth);
    }
  }

  lemma PutBack<V>(table: map<Slot, V>, slot: Slot, value: Option<V>)
    ensures Stored(Stored(table, slot, value), slot, Lookup(table, slot)) == table
  {
  }

  /** When no callback executes and no run is in progress, at most one native call is
      in progress. */
  lemma IdleFrames(frames: Frames)
    requires Nested(frames, false) && Calls(frames) == 0
    ensures frames == Outside || frames.below == Outside
    ensures DartExecutes(frames) ==> frames == Outside
  {
  }

  // ---- The invariant -----------------------------------------------------------------------

  predicate Typed(table: map<Slot, Callable>, made: map<Callable, Registration>) {
    forall slot | slot in table :: table[slot] in made && made[table[slot]].slot == slot
  }

  predicate Registered(s: State, c: Callable) {
    Lists(s.registrations, s.made, c)
  }

  /** Both Dart maps have the same slots, and tables list callables made for the slot. */
  ghost predicate TablesAgree(s: State) {
    && s.callbacks.Keys == s.registrations.Keys
    && Typed(s.registrations, s.made) && Typed(s.native, s.made)
    && forall c | c in s.made :: c < s.next
  }

  /** Whatever Dart has registered, and whatever is executing or about to be called
      again, is open. */
  ghost predicate InUseIsOpen(s: State) {
    && (forall slot | slot in s.registrations :: Open(s, s.registrations[slot]))
    && (forall c | Used(s.frames, c) :: Open(s, c))
  }

  /** A callable waiting to be closed or put back has left its slot. */
  ghost predicate WaitingHaveLeft(s: State) {
    && (forall c | c in s.deferred :: c in s.made && !Registered(s, c) && !Owed(s.frames, c))
    && (forall c | Owed(s.frames, c) :: Open(s, c) && !Registered(s, c))
  }

  /** Native code's table lists nothing that is waiting to be closed. */
  ghost predicate NativeIsSettled(s: State) {
    forall slot | slot in s.native :: s.native[slot] !in s.deferred && !Owed(s.frames, s.native[slot])
  }

  datatype Clause = Stack | Tables | InUse | Waiting | Native | Ancestry

  ghost predicate Agrees(s: State, clause: Clause) {
    match clause
    case Stack => Nested(s.frames, s.running) && s.depth == Calls(s.frames) && Layered(s.frames)
    case Tables => TablesAgree(s)
    case InUse => InUseIsOpen(s)
    case Waiting => WaitingHaveLeft(s)
    case Native => NativeIsSettled(s)
    case Ancestry =>
      Under(s.frames, s.next) && Aged(s.frames) && FramesTyped(s.frames, s.made) && Lineage(s.frames, s.registrations)
  }

  ghost predicate Sound(s: State) {
    forall clause: Clause :: Agrees(s, clause)
  }

  lemma AllClauses(s: State)
    requires Agrees(s, Stack) && Agrees(s, Tables) && Agrees(s, InUse) && Agrees(s, Waiting) && Agrees(s, Native)
    requires Agrees(s, Ancestry)
    ensures Sound(s)
  {
    forall clause: Clause
      ensures Agrees(s, clause)
    {
      match clause
      case Stack =>
      case Tables =>
      case InUse =>
      case Waiting =>
      case Native =>
      case Ancestry =>
    }
  }

  /** Native code can call nothing that was closed. */
  ghost predicate NativeOpen(s: State) {
    forall slot | slot in s.native :: Open(s, s.native[slot])
  }

  /** No open callable is lost track of. */
  ghost predicate NoneForgotten(s: State) {
    forall c | Open(s, c) :: Registered(s, c) || c in s.deferred || Owed(s.frames, c)
  }

  function Initial(): State {
    State(map[], map[], [], 0, map[], 0, map[], Outside, false, false)
  }

  lemma InitialSound()
    ensures Sound(Initial()) && NativeOpen(Initial()) && NoneForgotten(Initial())
  {
  }

  // ---- Installing ------------------------------------------------------------------------------

  lemma ListedAfterSet(s: State, slot: Slot, handler: Option<Handler>, c: Callable)
    requires Agrees(s, Tables)
    ensures var t := BeginSetOn(s, slot, handler);
            Registered(t, c) <==>
            (Registered(s, c) && Lookup(s.registrations, slot) != Some(c)) || (handler.Some? && c == s.next)
  {
  }

  /** The address about to be handed out means nothing yet. */
  lemma NextIsNew(s: State)
    requires Sound(s)
    ensures var c := s.next;
            c !in s.made && !Registered(s, c) && c !in s.deferred && !Used(s.frames, c) && !Owed(s.frames, c)
    ensures forall slot | slot in s.registrations :: s.registrations[slot] < s.next
    ensures forall slot | slot in s.native :: s.native[slot] < s.next
  {
    assert Agrees(s, Tables) && Agrees(s, Ancestry) && Agrees(s, Waiting);
    UnderBounds(s.frames, s.next, s.next);
  }

  lemma BeginSetKeepsStack(s: State, slot: Slot, handler: Option<Handler>)
    requires Sound(s) && DartExecutes(s.frames)
    ensures Agrees(BeginSetOn(s, slot, handler), Stack)
  {
    assert Agrees(s, Stack) && Agrees(s, Waiting) && Agrees(s, Tables);
    NextIsNew(s);
    var f := InstallFrame(s, slot, handler);
    assert f.replaced.Some? ==> Registered(s, f.replaced.value);
  }

  lemma BeginSetKeepsWaiting(s: State, slot: Slot, handler: Option<Handler>)
    requires Sound(s)
    ensures Agrees(BeginSetOn(s, slot, handler), Waiting)
  {
    assert Agrees(s, Waiting) && Agrees(s, Tables) && Agrees(s, InUse);
    NextIsNew(s);
    var t := BeginSetOn(s, slot, handler);
    var replaced := Lookup(s.registrations, slot);
    forall c: Callable
      ensures c in t.deferred ==> c in t.made && !Registered(t, c) && !Owed(t.frames, c)
      ensures Owed(t.frames, c) ==> Open(t, c) && !Registered(t, c)
    {
      ListedAfterSet(s, slot, handler, c);
      assert Owed(t.frames, c) <==> replaced == Some(c) || Owed(s.frames, c);
      assert replaced == Some(c) ==> Registered(s, c);
    }
  }

  lemma BeginSetKeepsUse(s: State, slot: Slot, handler: Option<Handler>)
    requires Sound(s)
    ensures Agrees(BeginSetOn(s, slot, handler), InUse)
  {
    assert Agrees(s, InUse);
    NextIsNew(s);
    var t := BeginSetOn(s, slot, handler);
    forall c | Used(t.frames, c)
      ensures Open(t, c)
    {
      assert Used(s.frames, c) || (handler.Some? && c == s.next);
    }
    forall other | other in t.registrations
      ensures Open(t, t.registrations[other])
    {
      assert t.registrations[other] == s.next || other in s.registrations;
    }
  }

  lemma BeginSetKeepsAncestry(s: State, slot: Slot, handler: Option<Handler>)
    requires Sound(s)
    ensures Agrees(BeginSetOn(s, slot, handler), Ancestry)
  {
    assert Agrees(s, Ancestry) && Agrees(s, Tables);
    NextIsNew(s);
    var t := BeginSetOn(s, slot, handler);
    UnderGrows(s.frames, s.next, t.next);
    FramesStayTyped(s.frames, s.made, t.made);
    PutBack(s.registrations, slot, Fresh(s, handler));
    StoredLookup(s.registrations, slot, Fresh(s, handler), slot);
    assert slot in t.registrations ==> Lookup(t.registrations, slot) == Some(t.registrations[slot]);
  }

  lemma BeginSetKeepsTables(s: State, slot: Slot, handler: Option<Handler>)
    requires Sound(s)
    ensures Agrees(BeginSetOn(s, slot, handler), Tables)
  {
    assert Agrees(s, Tables);
  }

  /** A state whose native table is Dart's lists nothing that waits or was closed. */
  lemma SameTableIsSettled(s: State)
    requires s.native == s.registrations && Agrees(s, Tables) && Agrees(s, InUse) && Agrees(s, Waiting)
    ensures Agrees(s, Native) && NativeOpen(s)
  {
    assert forall slot | slot in s.native :: Registered(s, s.native[slot]);
  }

  /** Storing a table makes native code call exactly what Dart has registered. */
  lemma BeginSetKeepsSound(s: State, slot: Slot, handler: Option<Handler>)
    requires Sound(s) && DartExecutes(s.frames)
    ensures Sound(BeginSetOn(s, slot, handler)) && NativeOpen(BeginSetOn(s, slot, handler))
  {
    BeginSetKeepsStack(s, slot, handler);
    BeginSetKeepsWaiting(s, slot, handler);
    BeginSetKeepsUse(s, slot, handler);
    BeginSetKeepsAncestry(s, slot, handler);
    BeginSetKeepsTables(s, slot, handler);
    SameTableIsSettled(BeginSetOn(s, slot, handler));
    AllClauses(BeginSetOn(s, slot, handler));
  }

  // ---- Finishing a `_set` ------------------------------------------------------------------------

  lemma PopKeepsAncestry(s: State)
    requires Agrees(s, Ancestry) && s.frames.Inside?
    ensures Under(s.frames.below, s.next) && Aged(s.frames.below) && FramesTyped(s.frames.below, s.made)
    ensures !s.frames.frame.Installing? ==> Lineage(s.frames.below, s.registrations)
  {
  }

  /** What a finished `_set` leaves in its slot is newer than every frame around it. */
  lemma KeptSlotIsNewer(s: State)
    requires Sound(s) && InInstall(s)
    ensures Lineage(s.frames.below, s.registrations)
  {
    assert Agrees(s, Ancestry);
    var f := s.frames.frame;
    var back := Restored(s.registrations, f);
    forall other | other != f.slot
      ensures Lookup(back, other) == Lookup(s.registrations, other)
    {
      StoredLookup(s.registrations, f.slot, f.replaced, other);
    }
    LineageOfNewer(s.frames.below, back, s.registrations, f.slot, f.birth);
  }

  lemma EndSetKeepsUse(s: State)
    requires Sound(s) && InInstall(s)
    ensures Agrees(EndSetOn(s), Stack) && Agrees(EndSetOn(s), InUse)
  {
    assert Agrees(s, Waiting) && Agrees(s, InUse) && Agrees(s, Stack);
    var replaced := s.frames.frame.replaced;
    if replaced.Some? {
      assert Owed(s.frames, replaced.value);
      if !s.running && s.depth == 0 {
        IdleFrames(s.frames);
        assert Agrees(s, Tables);
        assert forall slot | slot in s.registrations :: Registered(s, s.registrations[slot]);
      }
    }
    assert forall c | Used(s.frames.below, c) :: Used(s.frames, c);
  }

  lemma OwedAround(s: State, c: Callable)
    requires InInstall(s)
    ensures Owed(s.frames, c) <==> s.frames.frame.replaced == Some(c) || Owed(s.frames.below, c)
  {
  }

  lemma EndSetLists(s: State, c: Callable)
    requires InInstall(s)
    ensures Registered(EndSetOn(s), c) == Registered(s, c)
    ensures s.frames.frame.replaced != Some(c) ==>
              (Open(EndSetOn(s), c) <==> Open(s, c)) && (c in EndSetOn(s).deferred <==> c in s.deferred)
    ensures c in s.made ==> c in EndSetOn(s).made
    ensures c in EndSetOn(s).deferred ==> c in s.deferred || s.frames.frame.replaced == Some(c)
  {
  }

  lemma EndSetKeepsWaiting(s: State)
    requires Sound(s) && InInstall(s)
    ensures Agrees(EndSetOn(s), Waiting)
  {
    assert Agrees(s, Waiting) && Agrees(s, Stack);
    var t := EndSetOn(s);
    forall c: Callable
      ensures c in t.deferred ==> c in t.made && !Registered(t, c) && !Owed(t.frames, c)
      ensures Owed(t.frames, c) ==> Open(t, c) && !Registered(t, c)
    {
      OwedAround(s, c);
      EndSetLists(s, c);
    }
  }

  lemma EndSetKeepsNative(s: State)
    requires Sound(s) && InInstall(s)
    ensures Agrees(EndSetOn(s), Native)
  {
    assert Agrees(s, Native);
    forall slot | slot in s.native
      ensures s.native[slot] !in EndSetOn(s).deferred && !Owed(s.frames.below, s.native[slot])
    {
      OwedAround(s, s.native[slot]);
      EndSetLists(s, s.native[slot]);
    }
  }

  lemma SameTables(s: State, t: State)
    requires TablesAgree(s) && t.callbacks == s.callbacks && t.registrations == s.registrations && t.native == s.native
    requires t.made.Keys == s.made.Keys && Extends(s.made, t.made) && t.next == s.next
    ensures TablesAgree(t)
  {
  }

  lemma EndSetLeavesTables(s: State)
    requires InInstall(s)
    ensures var t := EndSetOn(s);
            && t.callbacks == s.callbacks && t.registrations == s.registrations && t.native == s.native
            && t.made.Keys == s.made.Keys && Extends(s.made, t.made) && t.next == s.next
  {
  }

  lemma EndSetKeepsTables(s: State)
    requires Sound(s) && InInstall(s)
    ensures Agrees(EndSetOn(s), Tables)
  {
    assert Agrees(s, Tables);
    EndSetLeavesTables(s);
    SameTables(s, EndSetOn(s));
  }

  lemma EndSetKeepsAncestry(s: State)
    requires Sound(s) && InInstall(s)
    ensures Agrees(EndSetOn(s), Ancestry)
  {
    assert Agrees(s, Ancestry);
    KeptSlotIsNewer(s);
    PopKeepsAncestry(s);
    FramesStayTyped(s.frames.below, s.made, EndSetOn(s).made);
  }

  lemma EndSetKeepsSound(s: State)
    requires Sound(s) && InInstall(s)
    ensures Sound(EndSetOn(s))
  {
    EndSetKeepsUse(s);
    EndSetKeepsWaiting(s);
    EndSetKeepsNative(s);
    EndSetKeepsTables(s);
    EndSetKeepsAncestry(s);
    AllClauses(EndSetOn(s));
  }

  lemma ListedAfterFailure(s: State, c: Callable)
    requires Sound(s) && InInstall(s)
    ensures var f := s.frames.frame;
            Registered(FailSyncOn(s), c) <==>
            (Registered(s, c) && Lookup(s.registrations, f.slot) != Some(c)) || f.replaced == Some(c)
  {
    assert Agrees(s, Tables) && Agrees(s, Ancestry);
  }

  lemma FailSyncKeepsTables(s: State)
    requires Sound(s) && InInstall(s)
    ensures Agrees(FailSyncOn(s), Tables)
  {
    assert Agrees(s, Tables) && Agrees(s, Ancestry);
  }

  /** The callable that failed to be installed is used and owed by no frame around it. */
  lemma CreatedIsUnused(s: State, c: Callable)
    requires Sound(s) && InInstall(s) && s.frames.frame.created == Some(c)
    ensures !Used(s.frames.below, c) && !Owed(s.frames.below, c) && c in s.made && s.frames.frame.replaced != Some(c)
  {
    assert Agrees(s, Ancestry);
    UnderBounds(s.frames.below, s.frames.frame.birth, c);
  }

  lemma FailSyncKeepsUse(s: State)
    requires Sound(s) && InInstall(s)
    ensures Agrees(FailSyncOn(s), InUse)
  {
    assert Agrees(s, InUse) && Agrees(s, Tables) && Agrees(s, Waiting);
    var f := s.frames.frame;
    var t := FailSyncOn(s);
    if f.created.Some? {
      CreatedIsUnused(s, f.created.value);
    }
    if f.replaced.Some? {
      assert Owed(s.frames, f.replaced.value);
    }
    forall slot | slot in t.registrations
      ensures Open(t, t.registrations[slot])
    {
      assert Agrees(s, Ancestry);
      StoredLookup(s.registrations, f.slot, f.replaced, slot);
      assert slot != f.slot ==> s.made[s.registrations[slot]].slot == slot;
    }
    assert forall c | Used(s.frames.below, c) :: Used(s.frames, c);
  }

  lemma FailSyncKeepsWaiting(s: State)
    requires Sound(s) && InInstall(s)
    ensures Agrees(FailSyncOn(s), Waiting) && Agrees(FailSyncOn(s), Native)
  {
    assert Agrees(s, Waiting) && Agrees(s, Native) && Agrees(s, Stack);
    var f := s.frames.frame;
    var t := FailSyncOn(s);
    if f.created.Some? {
      CreatedIsUnused(s, f.created.value);
    }
    forall c: Callable
      ensures c in t.deferred ==> c in t.made && !Registered(t, c) && !Owed(t.frames, c)
      ensures Owed(t.frames, c) ==> Open(t, c) && !Registered(t, c)
    {
      ListedAfterFailure(s, c);
      assert Owed(s.frames, c) <==> f.replaced == Some(c) || Owed(s.frames.below, c);
    }
  }

  lemma FailSyncKeepsAncestry(s: State)
    requires Sound(s) && InInstall(s)
    ensures Agrees(FailSyncOn(s), Ancestry) && Agrees(FailSyncOn(s), Stack)
  {
    assert Agrees(s, Ancestry) && Agrees(s, Stack);
    PopKeepsAncestry(s);
    FramesStayTyped(s.frames.below, s.made, FailSyncOn(s).made);
  }

  lemma FailSyncKeepsSound(s: State)
    requires Sound(s) && InInstall(s)
    ensures Sound(FailSyncOn(s))
  {
    FailSyncKeepsTables(s);
    FailSyncKeepsUse(s);
    FailSyncKeepsWaiting(s);
    FailSyncKeepsAncestry(s);
    AllClauses(FailSyncOn(s));
  }

  lemma FailSetKeepsUse(s: State, slot: Slot, handler: Option<Handler>)
    requires Sound(s)
    ensures var t := FailSetOn(s, slot, handler); Agrees(t, Stack) && Agrees(t, Tables) && Agrees(t, InUse)
  {
    assert Agrees(s, Stack) && Agrees(s, Tables) && Agrees(s, InUse);
    NextIsNew(s);
  }

  lemma FailSetKeepsWaiting(s: State, slot: Slot, handler: Option<Handler>)
    requires Sound(s)
    ensures var t := FailSetOn(s, slot, handler); Agrees(t, Waiting) && Agrees(t, Native)
  {
    assert Agrees(s, Waiting) && Agrees(s, Native);
    NextIsNew(s);
    var t := FailSetOn(s, slot, handler);
    assert forall c: Callable | c != s.next :: Registered(t, c) == Registered(s, c);
  }

  lemma FailSetKeepsAncestry(s: State, slot: Slot, handler: Option<Handler>)
    requires Sound(s)
    ensures Agrees(FailSetOn(s, slot, handler), Ancestry)
  {
    assert Agrees(s, Ancestry);
    NextIsNew(s);
    var t := FailSetOn(s, slot, handler);
    UnderGrows(s.frames, s.next, t.next);
    FramesStayTyped(s.frames, s.made, t.made);
  }

  lemma FailSetKeepsSound(s: State, slot: Slot, handler: Option<Handler>)
    requires Sound(s)
    ensures Sound(FailSetOn(s, slot, handler))
  {
    FailSetKeepsUse(s, slot, handler);
    FailSetKeepsWaiting(s, slot, handler);
    FailSetKeepsAncestry(s, slot, handler);
    AllClauses(FailSetOn(s, slot, handler));
  }

  // ---- Calls, runs and disposal --------------------------------------------------------------------

  lemma CallKeepsSound(s: State, c: Callable)
    requires Sound(s) && Possible(s, Call(c)) && Open(s, c)
    ensures Sound(Apply(s, Call(c)))
  {
    var t := Apply(s, Call(c));
    assert Agrees(s, Stack) && Agrees(s, Native) && Agrees(s, Tables);
    assert !Owed(s.frames, c) by {
      if Replaying(s.frames.frame) == Some(c) {
        assert Uses(s.frames.frame, c);
      }
    }
    assert forall d :: Owed(t.frames, d) <==> Owed(s.frames, d);
    assert forall d :: Used(t.frames, d) <==> d == c || Used(s.frames, d);
    forall clause: Clause
      ensures Agrees(t, clause)
    {
      assert Agrees(s, clause);
      assert forall d :: Registered(t, d) == Registered(s, d);
    }
  }

  lemma PushKeepsSound(s: State, f: Frame)
    requires Sound(s) && DartExecutes(s.frames) == NativeFrame(f)
    requires f.Running? || f.Operating? || f.Hooking?
    requires if f.Running? then !s.running else f.Hooking? ==> s.running
    ensures Sound(s.(frames := Inside(f, s.frames), running := s.running || f.Running?))
  {
    var t := s.(frames := Inside(f, s.frames), running := s.running || f.Running?);
    assert forall c :: Used(t.frames, c) <==> Used(s.frames, c);
    assert forall c :: Owed(t.frames, c) <==> Owed(s.frames, c);
    forall clause: Clause
      ensures Agrees(t, clause)
    {
      assert Agrees(s, clause);
      assert forall c :: Registered(t, c) == Registered(s, c);
    }
  }

  function Popped(s: State): State
    requires s.frames.Inside?
  {
    s.(frames := s.frames.below, depth := Calls(s.frames.below), running := s.running && !s.frames.frame.Running?)
  }

  lemma PopKeepsSound(s: State)
    requires Sound(s) && s.frames.Inside? && !s.frames.frame.Installing?
    ensures Sound(Popped(s))
  {
    var t := Popped(s);
    assert forall c | Used(t.frames, c) :: Used(s.frames, c);
    assert forall c :: Owed(t.frames, c) <==> Owed(s.frames, c);
    forall clause: Clause
      ensures Agrees(t, clause)
    {
      assert Agrees(s, clause);
      assert forall c :: Registered(t, c) == Registered(s, c);
    }
  }

  lemma FinishKeepsSound(s: State)
    requires Sound(s) && DartExecutes(s.frames) && !s.running
    ensures Sound(FinishRun(s))
  {
    if s.depth == 0 {
      var t := FinishRun(s);
      assert Agrees(s, Stack);
      IdleFrames(s.frames);
      forall clause: Clause
        ensures Agrees(t, clause)
      {
        assert Agrees(s, clause) && Agrees(s, Waiting) && Agrees(s, Tables);
        if clause == InUse {
          forall slot | slot in s.registrations
            ensures s.registrations[slot] !in s.deferred
          {
            assert Registered(s, s.registrations[slot]);
          }
        }
      }
    }
  }

  lemma DisposeKeepsSound(s: State)
    requires Sound(s) && Possible(s, Dispose) && s.depth == 0
    ensures Sound(DisposeOn(s))
    ensures (forall c | c in s.made :: DisposeOn(s).made[c].closed) <==> NoneForgotten(s)
  {
    var t := DisposeOn(s);
    assert Agrees(s, Stack);
    IdleFrames(s.frames);
    forall clause: Clause
      ensures Agrees(t, clause)
    {
      assert Agrees(s, clause);
    }
    if NoneForgotten(s) {
      forall c | c in s.made
        ensures t.made[c].closed
      {
        assert Open(s, c) ==> Registered(s, c) || c in s.deferred;
      }
    } else {
      var c :| Open(s, c) && !(Registered(s, c) || c in s.deferred || Owed(s.frames, c));
      assert !t.made[c].closed;
    }
  }

  /** Disposing of the application keeps what is executing open exactly when no
      callback is executing; the code only refuses while a run is in progress. */
  lemma DisposeSafeIff(s: State)
    requires Sound(s) && NoneForgotten(s) && Possible(s, Dispose)
    ensures (forall c | Used(s.frames, c) :: Open(DisposeOn(s), c)) <==> s.depth == 0
  {
    assert Agrees(s, Stack) && Agrees(s, InUse);
    if s.depth == 0 {
      IdleFrames(s.frames);
    } else {
      assert s.frames.Inside? && s.frames.frame.Calling?;
      var c := s.frames.frame.callable;
      assert Uses(s.frames.frame, c) && Used(s.frames, c) && Open(s, c) && !Owed(s.frames, c);
      assert Registered(s, c) || c in s.deferred;
      assert !Open(DisposeOn(s), c);
    }
  }

  // ---- The Dart object -----------------------------------------------------------------------

  class LinuxCallbacks {
    var callbacks: map<Slot, Handler>
    var registrations: map<Slot, Callable>
    var deferred: seq<Callable>
    var depth: nat
    var made: map<Callable, Registration>
    var next: Callable
    var native: map<Slot, Callable>
    ghost var frames: Frames
    var running: bool
    var disposed: bool

    ghost function Snapshot(): State
      reads this
    {
      State(callbacks, registrations, deferred, depth, made, next, native, frames, running, disposed)
    }

    constructor ()
      ensures Snapshot() == Initial() && Sound(Snapshot())
    {
      callbacks, registrations, deferred, depth := map[], map[], [], 0;
      made, next, native, frames := map[], 0, map[], Outside;
      running, disposed := false, false;
      new;
      InitialSound();
    }

    method CreateRegistration(slot: Slot) returns (c: Callable)
      modifies `made, `next
      ensures c == old(next) && next == old(next) + 1 && made == old(made)[c := Registration(slot, false)]
    {
      c := next;
      made := made[c := Registration(slot, false)];
      next := next + 1;
    }

    method Close(c: Callable)
      requires c in made
      modifies `made
      ensures made == Closed(old(made), c)
    {
      if made[c].closed {
        assert Closed(made, c) == made;
        return;
      }
      made := made[c := made[c].(closed := true)];
    }

    method ChangeSlot(slot: Slot, handler: Option<Handler>) returns (registration: Option<Callable>)
      modifies `callbacks, `registrations, `made, `next
      ensures Snapshot() == WithSlot(old(Snapshot()), slot, handler)
      ensures registration == Fresh(old(Snapshot()), handler)
    {
      if handler.None? {
        callbacks := callbacks - {slot};
        registrations := registrations - {slot};
        return None;
      }
      var c := CreateRegistration(slot);
      callbacks := callbacks[slot := handler.value];
      registrations := registrations[slot := c];
      return Some(c);
    }

    /** The `catch` of `_set`: the new callable is closed and both maps are put back. */
    method RollBack(slot: Slot, registration: Option<Callable>, oldCallback: Option<Handler>,
                    oldRegistration: Option<Callable>)
      requires registration.Some? ==> registration.value in made
      requires oldCallback.Some? <==> oldRegistration.Some?
      modifies `callbacks, `registrations, `made
      ensures made == if registration.Some? then Closed(old(made), registration.value) else old(made)
      ensures callbacks == Stored(old(callbacks), slot, oldCallback)
      ensures registrations == Stored(old(registrations), slot, oldRegistration)
    {
      if registration.Some? {
        Close(registration.value);
      }
      if oldCallback.None? {
        callbacks := callbacks - {slot};
        registrations := registrations - {slot};
      } else {
        callbacks := callbacks[slot := oldCallback.value];
        registrations := registrations[slot := oldRegistration.value];
      }
    }

    /** `_set` when native code refuses before storing the table: nothing but the closed
        new callable is left behind. */
    method SetFailing(slot: Slot, handler: Option<Handler>)
      requires Sound(Snapshot()) && Possible(Snapshot(), FailSet(slot, handler))
      modifies this
      ensures Sound(Snapshot()) && Snapshot() == FailSetOn(old(Snapshot()), slot, handler)
    {
      ghost var before := Snapshot();
      assert Agrees(before, Tables);
      var oldCallback := Lookup(callbacks, slot);
      var oldRegistration := Lookup(registrations, slot);
      var registration := ChangeSlot(slot, handler);
      RollBack(slot, registration, oldCallback, oldRegistration);
      PutBack(before.callbacks, slot, handler);
      PutBack(before.registrations, slot, Fresh(before, handler));
      assert made == FailSetOn(before, slot, handler).made;
      FailSetKeepsSound(before, slot, handler);
    }

    /** `_set` up to the point where native code has copied the new table. */
    method SetBegin(slot: Slot, handler: Option<Handler>)
      returns (registration: Option<Callable>, oldCallback: Option<Handler>, oldRegistration: Option<Callable>)
      requires Sound(Snapshot()) && Possible(Snapshot(), BeginSet(slot, handler))
      modifies this
      ensures Sound(Snapshot()) && Snapshot() == BeginSetOn(old(Snapshot()), slot, handler)
      ensures frames == Inside(Installing(slot, oldCallback, oldRegistration, registration, old(next)), old(frames))
      ensures NativeOpen(Snapshot()) && native == registrations
      ensures Lookup(callbacks, slot) == handler && (handler.Some? <==> slot in registrations)
    {
      ghost var before := Snapshot();
      oldCallback := Lookup(callbacks, slot);
      oldRegistration := Lookup(registrations, slot);
      registration := ChangeSlot(slot, handler);
      native := registrations;
      frames := Inside(InstallFrame(before, slot, handler), frames);
      assert Snapshot() == BeginSetOn(before, slot, handler);
      BeginSetKeepsSound(before, slot, handler);
    }

    /** The rest of `_set`, after `_sync` returned. */
    method SetEnd(oldRegistration: Option<Callable>)
      requires Sound(Snapshot()) && Possible(Snapshot(), EndSet) && frames.frame.replaced == oldRegistration
      modifies this
      ensures Sound(Snapshot()) && Snapshot() == EndSetOn(old(Snapshot()))
    {
      ghost var before := Snapshot();
      assert Agrees(before, Waiting);
      assert oldRegistration.Some? ==> Owed(before.frames, oldRegistration.value);
      frames := frames.below;
      if oldRegistration.Some? {
        if running || depth != 0 {
          deferred := deferred + [oldRegistration.value];
        } else {
          Close(oldRegistration.value);
        }
      }
      assert Snapshot() == EndSetOn(before);
      EndSetKeepsSound(before);
    }

    /** The rest of `_set`, after `_sync` threw although native code had stored the table:
        Dart's side is put back, native code's is not. */
    method SetFailed(slot: Slot, registration: Option<Callable>, oldCallback: Option<Handler>,
                     oldRegistration: Option<Callable>)
      requires Sound(Snapshot()) && Possible(Snapshot(), FailSync)
      requires var f := frames.frame;
               f.slot == slot && f.created == registration && f.former == oldCallback && f.replaced == oldRegistration
      modifies this
      ensures Sound(Snapshot()) && Snapshot() == FailSyncOn(old(Snapshot())) && native == old(native)
    {
      ghost var before := Snapshot();
      assert Agrees(before, Ancestry);
      frames := frames.below;
      RollBack(slot, registration, oldCallback, oldRegistration);
      assert Snapshot() == FailSyncOn(before);
      FailSyncKeepsSound(before);
    }

    /** `_invoke` up to the user's function. */
    method InvokeBegin(c: Callable)
      requires Sound(Snapshot()) && Possible(Snapshot(), Call(c)) && Open(Snapshot(), c)
      modifies `depth, `frames
      ensures Sound(Snapshot()) && Snapshot() == Apply(old(Snapshot()), Call(c))
    {
      ghost var before := Snapshot();
      depth := depth + 1;
      frames := Inside(Calling(c), frames);
      assert Snapshot() == Apply(before, Call(c));
      CallKeepsSound(before, c);
    }

    /** The `finally` of `_invoke`: the callable that returns was not closed meanwhile. */
    method InvokeEnd(c: Callable)
      requires Sound(Snapshot()) && frames.Inside? && frames.frame == Calling(c)
      modifies `depth, `frames
      ensures Sound(Snapshot()) && Open(Snapshot(), c)
      ensures frames == old(frames).below && depth == old(depth) - 1
    {
      ghost var before := Snapshot();
      assert Agrees(before, Stack) && Agrees(before, InUse);
      assert Uses(frames.frame, c) && Used(frames, c);
      depth := depth - 1;
      frames := frames.below;
      assert Snapshot() == Popped(before);
      PopKeepsSound(before);
    }

    method CloseDeferred()
      requires forall c | c in deferred :: c in made
      modifies `made, `deferred
      ensures made == ClosedAll(old(made), old(deferred)) && deferred == []
    {
      var i := 0;
      while i < |deferred|
        invariant 0 <= i <= |deferred|
        invariant made == ClosedAll(old(made), deferred[..i])
        modifies `made
      {
        assert deferred[i] in deferred;
        Close(deferred[i]);
        assert deferred[..i + 1] == deferred[..i] + [deferred[i]];
        i := i + 1;
      }
      assert deferred[..i] == deferred;
      deferred := [];
    }

    method FinishRunIfIdle()
      requires Sound(Snapshot()) && DartExecutes(frames) && !running
      modifies this
      ensures Sound(Snapshot()) && Snapshot() == FinishRun(old(Snapshot()))
    {
      ghost var before := Snapshot();
      if depth != 0 {
        return;
      }
      assert Agrees(before, Waiting);
      CloseDeferred();
      assert Snapshot() == FinishRun(before);
      FinishKeepsSound(before);
    }
  }
}
