/**
 The Linux runtime registry with hook handles abstracted away: which low-level
 hooks exist, which callbacks are on the stack, where each symbol hook is
 installed and which breakpoints are armed. `Exec` is the effect of any sequence
 of callback activity; LinuxRuntime.dfy implements every step with handles.
 */
module LinuxState {
  import opened Prelude
  import opened HookKeys

  datatype Export = Export(name: string, address: Word)

  /** `stem` is the stem of the module's path, the second name a filter may use. */
  datatype Module = Module(name: string, stem: string, exports: seq<Export>)

  /** A symbol hook and the addresses at which it is currently installed. */
  datatype Symbol = Symbol(target: Target, parameterCount: nat, callback: nat, sites: seq<Word>)

  datatype View = View(
    hooks: map<HookId, bool>,         // id -> pending_removal
    stack: seq<HookId>,               // callback_stack_, innermost last
    symbols: map<string, Symbol>,
    breakpoints: map<Word, bool>,     // address -> hook installed (false: lifted)
    lost: set<Word>,                  // breakpoint hooks still installed that no table entry holds
    running: bool,
    nextId: HookId,
    modules: seq<Module>,
    hooked: seq<Module>)              // the modules at the last refresh of the symbol hooks

  /** What code running inside the emulator can do to the registry. */
  datatype Event =
    | Enter(id: HookId)
    | Leave(id: HookId)
    | RemoveHook(id: HookId)
    | SetBreakpoint(address: Word)
    | ClearBreakpoint(address: Word)
    | SetSymbol(key: string, parameterCount: nat, callback: nat)
    | RemoveSymbol(key: string)
    | ClearSymbols
    | RefreshSymbols
    | LoadModule(modules: seq<Module>)
    | ChangeModules(modules: seq<Module>)   // without telling the registry, as by unmapping

  // ---- Low-level hooks -------------------------------------------------------

  predicate IsCurrent(v: View, id: HookId) {
    v.stack != [] && v.stack[|v.stack| - 1] == id
  }

  function AddHook(v: View): View {
    v.(hooks := v.hooks[v.nextId := false], nextId := v.nextId + 1)
  }

  function RemovalStatus(v: View, id: HookId): Status {
    if id in v.hooks && !IsCurrent(v, id) && v.running then BadState else Ok
  }

  function Remove(v: View, id: HookId): View {
    if id !in v.hooks then v
    else if IsCurrent(v, id) then v.(hooks := v.hooks[id := true])
    else if v.running then v
    else v.(hooks := v.hooks - {id})
  }

  function LeaveHook(v: View, id: HookId): View {
    var stack := if v.stack == [] then [] else v.stack[..|v.stack| - 1];
    v.(stack := stack,
       hooks := if id in v.hooks && v.hooks[id] then v.hooks - {id} else v.hooks)
  }

  // ---- Symbol hooks ----------------------------------------------------------

  /** A key is usable when it names a symbol: not empty and not ending in '!'. */
  predicate ValidKey(key: string) {
    key != "" && key[|key| - 1] != '!'
  }

  predicate PassesFilter(target: Target, m: Module) {
    target.filter.None? || target.filter.value == m.name || target.filter.value == m.stem
  }

  predicate Selects(target: Target, e: Export) {
    e.name == target.name && e.address != 0
  }

  function ExportSites(target: Target, exports: seq<Export>): seq<Word> {
    if exports == [] then []
    else
      var rest := ExportSites(target, exports[..|exports| - 1]);
      var last := exports[|exports| - 1];
      if Selects(target, last) then rest + [last.address] else rest
  }

  function ModuleSites(target: Target, m: Module): seq<Word> {
    if PassesFilter(target, m) then ExportSites(target, m.exports) else []
  }

  /** Every address at which a hook on `target` belongs, module by module. */
  function Sites(target: Target, modules: seq<Module>): seq<Word> {
    if modules == [] then []
    else Sites(target, modules[..|modules| - 1]) + ModuleSites(target, modules[|modules| - 1])
  }

  function Installed(symbol: Symbol, modules: seq<Module>): Symbol {
    symbol.(sites := Sites(symbol.target, modules))
  }

  function Refresh(v: View): View {
    v.(symbols := map key | key in v.symbols :: Installed(v.symbols[key], v.modules), hooked := v.modules)
  }

  function SetSymbolHook(v: View, key: string, parameterCount: nat, callback: nat): View {
    if !ValidKey(key) then v
    else Refresh(v.(symbols := v.symbols[key := Symbol(ParseTarget(key), parameterCount, callback, [])]))
  }

  function RemoveSymbolHook(v: View, key: string): View {
    if key !in v.symbols then v else Refresh(v.(symbols := v.symbols - {key}))
  }

  // ---- Breakpoints -----------------------------------------------------------

  predicate Armed(v: View, address: Word) {
    address in v.breakpoints && v.breakpoints[address]
  }

  function SetBreak(v: View, address: Word): View {
    if address in v.breakpoints then v else v.(breakpoints := v.breakpoints[address := true])
  }

  function ClearBreak(v: View, address: Word): View {
    v.(breakpoints := v.breakpoints - {address})
  }

  // ---- Any activity ----------------------------------------------------------

  function Step(v: View, e: Event): View {
    match e
    case Enter(id) => v.(stack := v.stack + [id])
    case Leave(id) => LeaveHook(v, id)
    case RemoveHook(id) => Remove(v, id)
    case SetBreakpoint(address) => SetBreak(v, address)
    case ClearBreakpoint(address) => ClearBreak(v, address)
    case SetSymbol(key, count, callback) => SetSymbolHook(v, key, count, callback)
    case RemoveSymbol(key) => RemoveSymbolHook(v, key)
    case ClearSymbols => v.(symbols := map[])
    case RefreshSymbols => Refresh(v)
    case LoadModule(modules) => Refresh(v.(modules := modules))
    case ChangeModules(modules) => v.(modules := modules)
  }

  function Exec(v: View, es: seq<Event>): View
    decreases |es|
  {
    if es == [] then v else Exec(Step(v, es[0]), es[1..])
  }

  lemma {:induction false} ExecAppend(v: View, es: seq<Event>, fs: seq<Event>)
    ensures Exec(v, es + fs) == Exec(Exec(v, es), fs)
    decreases |es|
  {
    if es == [] {
      assert es + fs == fs;
    } else {
      assert (es + fs)[1..] == es[1..] + fs;
      ExecAppend(Step(v, es[0]), es[1..], fs);
    }
  }

  lemma ExecOne(v: View, e: Event)
    ensures Exec(v, [e]) == Step(v, e)
  {
    assert Exec(Step(v, e), []) == Step(v, e);
  }

  lemma ExecLast(v: View, es: seq<Event>)
    requires es != []
    ensures Exec(v, es) == Step(Exec(v, es[..|es| - 1]), es[|es| - 1])
  {
    var n := |es| - 1;
    assert es == es[..n] + [es[n]];
    ExecAppend(v, es[..n], [es[n]]);
    ExecOne(Exec(v, es[..n]), es[n]);
  }

  // ---- What becomes of one key, one hook and the modules -------------------------

  datatype Setting = Setting(parameterCount: nat, callback: nat)

  function SettingOf(v: View, key: string): Option<Setting> {
    if key in v.symbols then Some(Setting(v.symbols[key].parameterCount, v.symbols[key].callback)) else None
  }

  /** What the last request concerning a key says of it: with which count and callback it is
      registered, or that it is not; `before` if there is no such request. */
  function LastSaid(es: seq<Event>, key: string, before: Option<Setting>): Option<Setting>
    decreases |es|
  {
    if es == [] then before
    else
      var earlier := LastSaid(es[..|es| - 1], key, before);
      match es[|es| - 1]
      case SetSymbol(other, count, callback) =>
        if other == key && ParseTarget(key).name != "" && key[|key| - 1] != '!' then Some(Setting(count, callback))
        else earlier
      case RemoveSymbol(other) => if other == key then None else earlier
      case ClearSymbols => None
      case _ => earlier
  }

  lemma StepSetting(v: View, e: Event, key: string)
    ensures SettingOf(Step(v, e), key) ==
            match e
            case SetSymbol(other, count, callback) =>
              if other == key && ValidKey(key) then Some(Setting(count, callback)) else SettingOf(v, key)
            case RemoveSymbol(other) => if other == key then None else SettingOf(v, key)
            case ClearSymbols => None
            case _ => SettingOf(v, key)
  {
  }

  /** After any activity a key is registered with the count and callback of the last valid
      request that concerns it, and not at all if that one removed it. */
  lemma {:induction false} SymbolFate(v: View, es: seq<Event>, key: string)
    ensures SettingOf(Exec(v, es), key) == LastSaid(es, key, SettingOf(v, key))
    decreases |es|
  {
    if es != [] {
      var n := |es| - 1;
      ExecLast(v, es);
      SymbolFate(v, es[..n], key);
      StepSetting(Exec(v, es[..n]), es[n], key);
      ValidKeyIff(key);
    }
  }

  /** A key is refused exactly when the symbol name it spells is empty or ends in '!'. */
  lemma ValidKeyIff(key: string)
    ensures ValidKey(key) <==> ParseTarget(key).name != "" && key[|key| - 1] != '!'
  {
    var separator := IndexOf(key, '!');
    if key != "" && separator == |key| {
      assert key[|key| - 1] in key[..separator];
    }
  }

  /** What a key selects: exports of its name that have an address, in every module or, with
      a filter, in those whose name or path stem it is. */
  lemma KeySelects(filter: string, name: string, m: Module, e: Export)
    requires '!' !in filter
    ensures var target := ParseTarget(filter + "!" + name);
            && (PassesFilter(target, m) <==> filter == m.name || filter == m.stem)
            && (Selects(target, e) <==> e.name == name && e.address != 0)
    ensures '!' !in name ==>
              PassesFilter(ParseTarget(name), m)
                  && (Selects(ParseTarget(name), e) <==> e.name == name && e.address != 0)
  {
    ParseTargetRoundTrip(filter, name);
  }

  /** Whether a low-level hook is gone after an activity inside a run, from the callback
      stack alone: its removal is asked for while it is innermost, and it then returns. */
  predicate Erases(stack: seq<HookId>, es: seq<Event>, id: HookId, asked: bool)
    decreases |es|
  {
    es != [] &&
    match es[0]
    case Enter(other) => Erases(stack + [other], es[1..], id, asked)
    case Leave(other) =>
      (other == id && asked) || Erases(if stack == [] then [] else stack[..|stack| - 1], es[1..], id, asked)
    case RemoveHook(other) =>
      Erases(stack, es[1..], id, asked || (other == id && stack != [] && stack[|stack| - 1] == id))
    case _ => Erases(stack, es[1..], id, asked)
  }

  /** Inside a run a hook goes for no other reason: another hook's request for it, or its own
      while something is nested in it, is refused. */
  lemma {:induction false} HookFate(v: View, es: seq<Event>, id: HookId)
    requires v.running
    ensures id in Exec(v, es).hooks <==> id in v.hooks && !Erases(v.stack, es, id, v.hooks[id])
    decreases |es|
  {
    if es != [] {
      HookFate(Step(v, es[0]), es[1..], id);
      if id !in v.hooks {
        assert id !in Step(v, es[0]).hooks;
      }
    }
  }

  /** Outside runs a hook goes exactly when it is asked to. */
  lemma {:induction false} IdleHookFate(v: View, es: seq<Event>, id: HookId)
    requires !v.running && v.stack == [] && forall e | e in es :: !e.Enter? && !e.Leave?
    ensures id in Exec(v, es).hooks <==> id in v.hooks && RemoveHook(id) !in es
    decreases |es|
  {
    if es != [] {
      assert es[0] in es && forall e | e in es[1..] :: e in es;
      IdleHookFate(Step(v, es[0]), es[1..], id);
      assert RemoveHook(id) in es <==> es[0] == RemoveHook(id) || RemoveHook(id) in es[1..];
    }
  }

  function LastModules(es: seq<Event>, before: seq<Module>): seq<Module>
    decreases |es|
  {
    if es == [] then before
    else match es[|es| - 1]
      case LoadModule(modules) => modules
      case ChangeModules(modules) => modules
      case _ => LastModules(es[..|es| - 1], before)
  }

  lemma {:induction false} ModulesFate(v: View, es: seq<Event>)
    ensures Exec(v, es).modules == LastModules(es, v.modules)
    decreases |es|
  {
    if es != [] {
      ExecLast(v, es);
      ModulesFate(v, es[..|es| - 1]);
    }
  }

  // ---- The self-removal protocol ---------------------------------------------

  predicate NoRepeats<T(==)>(s: seq<T>) {
    forall i, j | 0 <= i < j < |s| :: s[i] != s[j]
  }

  /** No hook on the stack is gone, and only a hook on the stack can be pending. */
  predicate Protocol(v: View) {
    && NoRepeats(v.stack)
    && (forall id | id in v.stack :: id in v.hooks)
    && (forall id | id in v.hooks && v.hooks[id] :: id in v.stack)
    && (v.stack != [] ==> v.running)
  }

  /** The emulator enters only installed hooks not already on the stack, inside a
      run, and callbacks return in the order they were entered. */
  predicate Allowed(v: View, e: Event) {
    match e
    case Enter(id) => v.running && id in v.hooks && id !in v.stack
    case Leave(id) => IsCurrent(v, id)
    case _ => true
  }

  predicate Admissible(v: View, es: seq<Event>)
    decreases |es|
  {
    es == [] || (Allowed(v, es[0]) && Admissible(Step(v, es[0]), es[1..]))
  }

  lemma StepKeepsProtocol(v: View, e: Event)
    requires Protocol(v) && Allowed(v, e)
    ensures Protocol(Step(v, e))
    ensures Step(v, e).running == v.running
  {
    if e.Leave? {
      var n := |v.stack| - 1;
      assert v.stack == v.stack[..n] + [e.id];
      assert e.id !in v.stack[..n];
    }
  }

  /** Over every admissible run a hook on the stack stays registered, a pending
      hook is on the stack, and so an empty stack leaves nothing pending. */
  lemma {:induction false} RunKeepsProtocol(v: View, es: seq<Event>)
    requires Protocol(v) && Admissible(v, es)
    ensures Protocol(Exec(v, es))
    ensures Exec(v, es).running == v.running
    ensures Exec(v, es).stack == [] ==> forall id | id in Exec(v, es).hooks :: !Exec(v, es).hooks[id]
    decreases |es|
  {
    if es != [] {
      StepKeepsProtocol(v, es[0]);
      RunKeepsProtocol(Step(v, es[0]), es[1..]);
    }
  }

  /** Leaving `id` keeps every hook on the remaining stack registered exactly when
      `id` is not pending while it also waits further down the stack. */
  lemma LeaveSafeIff(v: View, id: HookId)
    requires IsCurrent(v, id) && (forall i | i in v.stack :: i in v.hooks)
    ensures (forall i | i in LeaveHook(v, id).stack :: i in LeaveHook(v, id).hooks)
       <==> !(v.hooks[id] && id in v.stack[..|v.stack| - 1])
  {
    var rest := v.stack[..|v.stack| - 1];
    var w := LeaveHook(v, id);
    assert w.stack == rest && id in v.stack;
    assert forall i | i in rest :: i in v.stack;
    if v.hooks[id] && id in rest {
      assert id in w.stack && id !in w.hooks;
    }
  }

  // ---- Runs in which hooks may be entered inside themselves ---------------------

  /** The emulator enters any installed hook inside a run; callbacks return in order. */
  predicate AllowedReentrant(v: View, e: Event) {
    match e
    case Enter(id) => v.running && id in v.hooks
    case Leave(id) => IsCurrent(v, id)
    case _ => true
  }

  predicate Reentrant(v: View, es: seq<Event>)
    decreases |es|
  {
    es == [] || (AllowedReentrant(v, es[0]) && Reentrant(Step(v, es[0]), es[1..]))
  }

  predicate StackRegistered(v: View) {
    forall id | id in v.stack :: id in v.hooks
  }

  /** At every moment of the activity every hook on the stack is registered. */
  predicate AlwaysRegistered(v: View, es: seq<Event>)
    decreases |es|
  {
    StackRegistered(v) && (es != [] ==> AlwaysRegistered(Step(v, es[0]), es[1..]))
  }

  /** A return that finds its own hook pending and entered once more further down. */
  predicate ErasesEarly(v: View, e: Event) {
    e.Leave? && v.stack != [] && e.id in v.hooks && v.hooks[e.id] && e.id in v.stack[..|v.stack| - 1]
  }

  predicate NeverErasesEarly(v: View, es: seq<Event>)
    decreases |es|
  {
    es != [] ==> !ErasesEarly(v, es[0]) && NeverErasesEarly(Step(v, es[0]), es[1..])
  }

  lemma StepRegisteredIff(v: View, e: Event)
    requires StackRegistered(v) && AllowedReentrant(v, e) && (v.stack != [] ==> v.running)
    ensures StackRegistered(Step(v, e)) <==> !ErasesEarly(v, e)
    ensures Step(v, e).running == v.running && (Step(v, e).stack != [] ==> v.running)
  {
    if e.Leave? {
      LeaveSafeIff(v, e.id);
      assert e.id in v.stack;
    }
  }

  /** Over every run, with any hook entered inside itself any number of times: every hook
      on the stack stays registered throughout exactly when no return finds its own hook
      pending and further down the stack. */
  lemma {:induction false} ReentrantRunSafeIff(v: View, es: seq<Event>)
    requires StackRegistered(v) && Reentrant(v, es) && (v.stack != [] ==> v.running)
    ensures AlwaysRegistered(v, es) <==> NeverErasesEarly(v, es)
    decreases |es|
  {
    if es != [] {
      StepRegisteredIff(v, es[0]);
      if !ErasesEarly(v, es[0]) {
        ReentrantRunSafeIff(Step(v, es[0]), es[1..]);
      }
    }
  }

  predicate PendingOnStack(v: View) {
    forall id | id in v.hooks && v.hooks[id] :: id in v.stack
  }

  lemma StepKeepsPendingOnStack(v: View, e: Event)
    requires PendingOnStack(v) && AllowedReentrant(v, e)
    ensures PendingOnStack(Step(v, e))
  {
    if e.Leave? {
      assert v.stack == v.stack[..|v.stack| - 1] + [e.id];
    }
  }

  /** Even with re-entry nothing stays pending once the stack is empty. */
  lemma {:induction false} ReentrantRunSettles(v: View, es: seq<Event>)
    requires PendingOnStack(v) && Reentrant(v, es)
    ensures PendingOnStack(Exec(v, es))
    ensures Exec(v, es).stack == [] ==> forall id | id in Exec(v, es).hooks :: !Exec(v, es).hooks[id]
    decreases |es|
  {
    if es != [] {
      StepKeepsPendingOnStack(v, es[0]);
      ReentrantRunSettles(Step(v, es[0]), es[1..]);
    }
  }

  /** Without distinctness the invariant breaks: a hook entered inside itself is
      erased by its inner return while its outer activation is still running. */
  lemma ReentryErasesRunningHook(v: View, id: HookId)
    requires id in v.hooks && v.running
    ensures var w := Exec(v, [Enter(id), Enter(id), RemoveHook(id), Leave(id)]);
            id in w.stack && id !in w.hooks
  {
    var v1 := Step(v, Enter(id));
    var v2 := Step(v1, Enter(id));
    var v3 := Step(v2, RemoveHook(id));
    var v4 := Step(v3, Leave(id));
    assert v3.stack == v.stack + [id, id];
    assert v4.stack == v.stack + [id] && v4.stack[|v.stack|] == id;
    ExecOne(v3, Leave(id));
    assert Exec(v2, [RemoveHook(id), Leave(id)]) == Exec(v3, [Leave(id)]) by {
      assert [RemoveHook(id), Leave(id)][1..] == [Leave(id)];
    }
    assert Exec(v1, [Enter(id), RemoveHook(id), Leave(id)]) == v4 by {
      assert [Enter(id), RemoveHook(id), Leave(id)][1..] == [RemoveHook(id), Leave(id)];
    }
    assert [Enter(id), Enter(id), RemoveHook(id), Leave(id)][1..] == [Enter(id), RemoveHook(id), Leave(id)];
  }

  /** Whether a callback body asks for the removal of `id` while `id` itself is the
      innermost callback; `depth` counts the callbacks nested inside it. */
  predicate RemovesItself(es: seq<Event>, id: HookId, depth: nat) {
    es != [] &&
    match es[0]
    case Enter(_) => RemovesItself(es[1..], id, depth + 1)
    case Leave(_) => depth > 0 && RemovesItself(es[1..], id, depth - 1)
    case RemoveHook(other) => (depth == 0 && other == id) || RemovesItself(es[1..], id, depth)
    case _ => RemovesItself(es[1..], id, depth)
  }

  /** `es` runs inside a callback without returning from it: it never pops below
      `depth` nested callbacks and ends with none open. */
  predicate Body(es: seq<Event>, depth: nat) {
    if es == [] then depth == 0
    else match es[0]
      case Enter(_) => Body(es[1..], depth + 1)
      case Leave(_) => depth > 0 && Body(es[1..], depth - 1)
      case _ => Body(es[1..], depth)
  }

  lemma {:induction false} BodyPending(v: View, es: seq<Event>, id: HookId, depth: nat)
    requires Protocol(v) && Admissible(v, es) && Body(es, depth)
    requires |v.stack| > depth && v.stack[|v.stack| - 1 - depth] == id
    ensures var w := Exec(v, es);
            && |w.stack| == |v.stack| - depth && IsCurrent(w, id) && id in w.hooks
            && (w.hooks[id] <==> v.hooks[id] || RemovesItself(es, id, depth))
    decreases |es|
  {
    assert id in v.stack;
    if es != [] {
      var w := Step(v, es[0]);
      StepKeepsProtocol(v, es[0]);
      var inner := match es[0] case Enter(_) => depth + 1 case Leave(_) => depth - 1 case _ => depth;
      assert |w.stack| > inner && w.stack[|w.stack| - 1 - inner] == id;
      assert id in w.stack;
      BodyPending(w, es[1..], id, inner);
    }
  }

  /** A callback that runs to completion unregisters its hook exactly when it asked
      for its own removal: pending removals are carried out at the hook's own leave. */
  lemma SelfRemovalTakesEffectAtLeave(v: View, id: HookId, body: seq<Event>)
    requires Protocol(v) && Allowed(v, Enter(id)) && Body(body, 0)
    requires Admissible(Step(v, Enter(id)), body)
    ensures var w := Exec(v, [Enter(id)] + body + [Leave(id)]);
            Protocol(w) && |w.stack| == |v.stack| && (id in w.hooks <==> !RemovesItself(body, id, 0))
  {
    var entered := Step(v, Enter(id));
    StepKeepsProtocol(v, Enter(id));
    assert id !in v.stack;
    BodyPending(entered, body, id, 0);
    RunKeepsProtocol(entered, body);
    var done := Exec(entered, body);
    StepKeepsProtocol(done, Leave(id));
    ExecAppend(v, [Enter(id)] + body, [Leave(id)]);
    ExecAppend(v, [Enter(id)], body);
    ExecOne(v, Enter(id));
    ExecOne(done, Leave(id));
  }

  // ---- Symbol hooks agree with the modules -----------------------------------

  /** Each symbol hook is installed where its key selected at the last refresh. */
  predicate SymbolsAgree(v: View) {
    forall key | key in v.symbols ::
      ValidKey(key) && v.symbols[key].target == ParseTarget(key)
      && v.symbols[key].sites == Sites(v.symbols[key].target, v.hooked)
  }

  /** Each symbol hook is installed where its key selects in the modules as they are. */
  predicate Current(v: View) {
    forall key | key in v.symbols :: v.symbols[key].sites == Sites(v.symbols[key].target, v.modules)
  }

  /** Activity that reinstalls the symbol hooks. */
  predicate Refreshes(v: View, e: Event) {
    match e
    case SetSymbol(key, _, _) => ValidKey(key)
    case RemoveSymbol(key) => key in v.symbols
    case RefreshSymbols => true
    case LoadModule(_) => true
    case _ => false
  }

  lemma RefreshAgrees(v: View)
    requires forall key | key in v.symbols :: ValidKey(key) && v.symbols[key].target == ParseTarget(key)
    ensures SymbolsAgree(Refresh(v)) && Refresh(v).hooked == v.modules
  {
  }

  lemma StepKeepsSymbolsAgree(v: View, e: Event)
    requires SymbolsAgree(v)
    ensures SymbolsAgree(Step(v, e))
    ensures Step(v, e).hooked == if Refreshes(v, e) then Step(v, e).modules else v.hooked
  {
    match e
    case SetSymbol(key, count, callback) =>
      if ValidKey(key) {
        RefreshAgrees(v.(symbols := v.symbols[key := Symbol(ParseTarget(key), count, callback, [])]));
      }
    case RemoveSymbol(key) => RefreshAgrees(v.(symbols := v.symbols - {key}));
    case RefreshSymbols => RefreshAgrees(v);
    case LoadModule(modules) => RefreshAgrees(v.(modules := modules));
    case _ => assert Step(v, e).symbols == v.symbols || Step(v, e).symbols == map[];
  }

  /** The modules the symbol hooks are installed in after the activity: those present
      when it last refreshed them. */
  function LastRefreshed(v: View, es: seq<Event>, last: seq<Module>): seq<Module>
    decreases |es|
  {
    if es == [] then last
    else LastRefreshed(Step(v, es[0]), es[1..], if Refreshes(v, es[0]) then Step(v, es[0]).modules else last)
  }

  /** After any activity each symbol hook is installed at exactly the exports it selects
      in the modules present at the last refresh. */
  lemma {:induction false} RunKeepsSymbolsAgree(v: View, es: seq<Event>)
    requires SymbolsAgree(v)
    ensures SymbolsAgree(Exec(v, es))
    ensures Exec(v, es).hooked == LastRefreshed(v, es, v.hooked)
    decreases |es|
  {
    if es != [] {
      StepKeepsSymbolsAgree(v, es[0]);
      RunKeepsSymbolsAgree(Step(v, es[0]), es[1..]);
    }
  }

  /** So the hooks fit the current modules exactly when every key selects the same sites
      in these as in the modules of the last refresh. */
  lemma SymbolsCurrentIff(v: View, es: seq<Event>)
    requires SymbolsAgree(v)
    ensures var w := Exec(v, es);
            Current(w) <==> forall key | key in w.symbols ::
              Sites(ParseTarget(key), w.modules) == Sites(ParseTarget(key), LastRefreshed(v, es, v.hooked))
  {
    RunKeepsSymbolsAgree(v, es);
  }

  /** A module that appears without a notification is one way to make them stale: a hook on
      its export was set before and is nowhere. */
  lemma SymbolsCanBeStale(v: View, m: Module, address: Word)
    requires v.symbols == map[] && v.modules == [] && m.exports == [Export("f", address)] && address != 0
    ensures var w := Exec(v, [SetSymbol("f", 0, 0), ChangeModules([m])]);
            && SymbolsAgree(w) && !Current(w)
            && "f" in w.symbols && w.symbols["f"].sites == [] && Sites(ParseTarget("f"), w.modules) == [address]
  {
    var hooked := Step(v, SetSymbol("f", 0, 0));
    var es := [SetSymbol("f", 0, 0), ChangeModules([m])];
    ParseTargetRoundTrip("", "f");
    assert es[1..] == [ChangeModules([m])];
    ExecOne(hooked, ChangeModules([m]));
    RunKeepsSymbolsAgree(v, es);
    var target := ParseTarget("f");
    assert m.exports[..0] == [] && ExportSites(target, m.exports) == ExportSites(target, []) + [address];
    assert [m][..0] == [] && Sites(target, [m]) == Sites(target, []) + ModuleSites(target, m);
  }

  lemma RefreshIdempotent(v: View)
    ensures Refresh(Refresh(v)) == Refresh(v) && Current(Refresh(v))
    ensures Current(v) ==> Refresh(v) == v.(hooked := v.modules)
  {
    assert Current(v) ==> Refresh(v).symbols == v.symbols;
    assert Refresh(Refresh(v)).symbols == Refresh(v).symbols;
  }

  /** The (module, export) pairs a target selects whose export lies at `address`. */
  ghost function SelectedAt(target: Target, modules: seq<Module>, address: Word): set<(int, int)> {
    set i, j | 0 <= i < |modules| && 0 <= j < |modules[i].exports|
               && PassesFilter(target, modules[i]) && Selects(target, modules[i].exports[j])
               && modules[i].exports[j].address == address :: (i, j)
  }

  ghost function SelectedIn(target: Target, exports: seq<Export>, address: Word, i: int): set<(int, int)> {
    set j | 0 <= j < |exports| && Selects(target, exports[j]) && exports[j].address == address :: (i, j)
  }

  lemma {:induction false} ExportSitesCount(target: Target, exports: seq<Export>, address: Word, i: int)
    ensures multiset(ExportSites(target, exports))[address] == |SelectedIn(target, exports, address, i)|
    decreases |exports|
  {
    if exports != [] {
      var n := |exports| - 1;
      var rest := SelectedIn(target, exports[..n], address, i);
      ExportSitesCount(target, exports[..n], address, i);
      assert (i, n) !in rest;
      if Selects(target, exports[n]) && exports[n].address == address {
        assert SelectedIn(target, exports, address, i) == rest + {(i, n)};
      } else {
        assert SelectedIn(target, exports, address, i) == rest;
      }
    }
  }

  lemma SelectedInLast(target: Target, modules: seq<Module>, address: Word)
    requires modules != []
    ensures var n := |modules| - 1;
            var rest := SelectedAt(target, modules[..n], address);
            var selected := SelectedIn(target, modules[n].exports, address, n);
            var here := if PassesFilter(target, modules[n]) then selected else {};
            SelectedAt(target, modules, address) == rest + here && rest !! here
  {
    var n := |modules| - 1;
    var rest := SelectedAt(target, modules[..n], address);
    assert forall p | p in rest :: p.0 < n;
  }

  /** An address is hooked once for every (module, export) pair selected there:
      none is missed, and none is installed twice. */
  lemma {:induction false} SitesCount(target: Target, modules: seq<Module>, address: Word)
    ensures multiset(Sites(target, modules))[address] == |SelectedAt(target, modules, address)|
    decreases |modules|
  {
    if modules != [] {
      var n := |modules| - 1;
      SitesCount(target, modules[..n], address);
      ExportSitesCount(target, modules[n].exports, address, n);
      SelectedInLast(target, modules, address);
    }
  }
}
