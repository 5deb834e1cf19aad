/**
 The Linux runtime registry with its hook handles. Every handle the emulator holds
 belongs to exactly one slot of the registry or was lost (`Valid`), every operation
 implements its handle-free counterpart, and the destructor leaves only lost ones.
 */
module LinuxRuntime {
  import opened Prelude
  import opened HookKeys
  import opened LinuxState
  import opened Debugger
  import opened LinuxSession

  /** What the closure behind a hook captured, and so which slot releases it. */
  datatype Owner = LowHook(id: HookId) | SymbolSite(key: string) | BreakpointAt | RunToTarget

  /** A hook object of the emulator; no serial number is handed out twice. */
  datatype Hook = Hook(serial: nat, owner: Owner, address: Word)

  datatype HookState = HookState(hook: Hook, pendingRemoval: bool)

  datatype SymbolEntry = SymbolEntry(target: Target, parameterCount: nat, callback: nat, hooks: seq<Hook>)

  function Addresses(hooks: seq<Hook>): seq<Word> {
    seq(|hooks|, i requires 0 <= i < |hooks| => hooks[i].address)
  }

  function AddressesOf(hooks: set<Hook>): set<Word> {
    set h | h in hooks :: h.address
  }

  function SymbolOf(entry: SymbolEntry): Symbol {
    Symbol(entry.target, entry.parameterCount, entry.callback, Addresses(entry.hooks))
  }

  function Extended(symbol: Symbol, m: Module): Symbol {
    symbol.(sites := symbol.sites + ModuleSites(symbol.target, m))
  }

  function HooksView(hooks: map<HookId, HookState>): (view: map<HookId, bool>)
    ensures view.Keys == hooks.Keys
  {
    map id | id in hooks :: hooks[id].pendingRemoval
  }

  function SymbolsView(symbols: map<string, SymbolEntry>): (view: map<string, Symbol>)
    ensures view.Keys == symbols.Keys
  {
    map key | key in symbols :: SymbolOf(symbols[key])
  }

  function BreakpointsView(breakpoints: map<Word, Option<Hook>>): (view: map<Word, bool>)
    ensures view.Keys == breakpoints.Keys
  {
    map address | address in breakpoints :: breakpoints[address].Some?
  }

  // ---- Which slot owns which live handle --------------------------------------

  /** The registry's books: the emulator's hooks, those some slot holds and those none
      holds any more, how many were ever created and deleted, and the slots. */
  datatype Books = Books(
    held: set<Hook>,
    orphans: set<Hook>,
    created: nat,
    deleted: nat,
    hooks: map<HookId, HookState>,
    nextId: HookId,
    symbols: map<string, SymbolEntry>,
    breakpoints: map<Word, Option<Hook>>,
    temporary: Option<Hook>)

  /** Created hooks are live or deleted, and serial numbers are not reused. */
  ghost predicate CountsAgree(held: set<Hook>, orphans: set<Hook>, created: nat, deleted: nat) {
    |held| + |orphans| + deleted == created && forall h | h in held :: h.serial < created
  }

  ghost predicate OrphansAgree(held: set<Hook>, orphans: set<Hook>, created: nat) {
    forall h | h in orphans :: h.owner == BreakpointAt && h.serial < created && h !in held
  }

  ghost predicate LowHooksOwned(held: set<Hook>, hooks: map<HookId, HookState>, nextId: HookId) {
    && (forall id | id in hooks :: id < nextId && hooks[id].hook in held && hooks[id].hook.owner == LowHook(id))
    && (forall h | h in held && h.owner.LowHook? :: h.owner.id in hooks && hooks[h.owner.id].hook == h)
  }

  ghost predicate SymbolsOwned(held: set<Hook>, symbols: map<string, SymbolEntry>) {
    && (forall key | key in symbols :: EntryOwned(held, key, symbols[key].hooks))
    && (forall h | h in held && h.owner.SymbolSite? :: h.owner.key in symbols && h in symbols[h.owner.key].hooks)
  }

  ghost predicate EntryOwned(held: set<Hook>, key: string, hooks: seq<Hook>) {
    NoRepeats(hooks) && forall h | h in hooks :: h in held && h.owner == SymbolSite(key)
  }

  ghost predicate BreakpointsOwned(held: set<Hook>, breakpoints: map<Word, Option<Hook>>) {
    && (forall a | a in breakpoints && breakpoints[a].Some? ::
          var h := breakpoints[a].value; h in held && h.owner == BreakpointAt && h.address == a)
    && (forall h | h in held && h.owner.BreakpointAt? :: h.address in breakpoints && breakpoints[h.address] == Some(h))
  }

  ghost predicate TemporaryOwned(held: set<Hook>, temporary: Option<Hook>) {
    && (temporary.Some? ==> temporary.value in held && temporary.value.owner == RunToTarget)
    && (forall h | h in held && h.owner.RunToTarget? :: temporary == Some(h))
  }

  datatype Account = Counts | Orphans | LowHooks | Symbols | Breakpoints | Temporary

  ghost predicate Agrees(b: Books, account: Account) {
    match account
    case Counts => CountsAgree(b.held, b.orphans, b.created, b.deleted)
    case Orphans => OrphansAgree(b.held, b.orphans, b.created)
    case LowHooks => LowHooksOwned(b.held, b.hooks, b.nextId)
    case Symbols => SymbolsOwned(b.held, b.symbols)
    case Breakpoints => BreakpointsOwned(b.held, b.breakpoints)
    case Temporary => TemporaryOwned(b.held, b.temporary)
  }

  /** The books balance: every handle but the orphans sits in the one slot that will
      release it, every slot holds a live handle, and created = live + deleted. */
  ghost predicate Balanced(b: Books) {
    forall account: Account :: Agrees(b, account)
  }

  /** A hook created or deleted concerns only the account of its owner. */
  lemma OthersAgree(b: Books, held: set<Hook>, h: Hook, account: Account)
    requires Agrees(b, account) && (held == b.held + {h} || held == b.held - {h})
    requires match account
             case Counts => false
             case Orphans => h !in b.orphans
             case LowHooks => !h.owner.LowHook?
             case Symbols => !h.owner.SymbolSite?
             case Breakpoints => !h.owner.BreakpointAt?
             case Temporary => !h.owner.RunToTarget?
    ensures Agrees(b.(held := held), account)
  {
    if account == Symbols {
      assert forall key | key in b.symbols :: EntryOwned(b.held, key, b.symbols[key].hooks);
    }
  }

  function Created(b: Books, h: Hook): Books {
    b.(held := b.held + {h}, created := b.created + 1)
  }

  function Deleted(b: Books, h: Hook): Books {
    b.(held := b.held - {h}, deleted := b.deleted + 1)
  }

  /** A new hook unbalances at most the account that is about to hold it. */
  lemma AfterCreating(b: Books, h: Hook, account: Account)
    requires Balanced(b) && h.serial == b.created
    requires match h.owner
             case LowHook(_) => account != LowHooks
             case SymbolSite(_) => account != Symbols
             case BreakpointAt => account != Breakpoints
             case RunToTarget => account != Temporary
    ensures h !in b.held && h !in b.orphans && Agrees(Created(b, h), account)
  {
    assert Agrees(b, account) && Agrees(b, Counts) && Agrees(b, Orphans);
    if account != Counts {
      OthersAgree(b, b.held + {h}, h, account);
    }
  }

  lemma AfterDeleting(b: Books, h: Hook, account: Account)
    requires Balanced(b) && h in b.held
    requires match h.owner
             case LowHook(_) => account != LowHooks
             case SymbolSite(_) => account != Symbols
             case BreakpointAt => account != Breakpoints
             case RunToTarget => account != Temporary
    ensures Agrees(Deleted(b, h), account)
  {
    assert Agrees(b, account) && Agrees(b, Orphans);
    if account != Counts {
      OthersAgree(b, b.held - {h}, h, account);
    }
  }

  ghost function LowHookHandles(hooks: map<HookId, HookState>): set<Hook> {
    set id | id in hooks :: hooks[id].hook
  }

  ghost function SymbolHandles(symbols: map<string, SymbolEntry>): set<Hook> {
    set key, h | key in symbols && h in symbols[key].hooks :: h
  }

  ghost function BreakpointHandles(breakpoints: map<Word, Option<Hook>>): set<Hook> {
    set a | a in breakpoints && breakpoints[a].Some? :: breakpoints[a].value
  }

  ghost function TemporaryHandles(temporary: Option<Hook>): set<Hook> {
    if temporary.Some? then {temporary.value} else {}
  }

  lemma LowHookHandlesAre(live: set<Hook>, hooks: map<HookId, HookState>, nextId: HookId)
    requires LowHooksOwned(live, hooks, nextId)
    ensures LowHookHandles(hooks) == set h | h in live && h.owner.LowHook?
  {
    assert forall h | h in live && h.owner.LowHook? :: h == hooks[h.owner.id].hook;
  }

  lemma SymbolHandlesAre(live: set<Hook>, symbols: map<string, SymbolEntry>)
    requires SymbolsOwned(live, symbols)
    ensures SymbolHandles(symbols) == set h | h in live && h.owner.SymbolSite?
  {
    assert forall key | key in symbols :: EntryOwned(live, key, symbols[key].hooks);
    assert forall h | h in live && h.owner.SymbolSite? :: h in symbols[h.owner.key].hooks;
  }

  lemma BreakpointHandlesAre(live: set<Hook>, breakpoints: map<Word, Option<Hook>>)
    requires BreakpointsOwned(live, breakpoints)
    ensures BreakpointHandles(breakpoints) == set h | h in live && h.owner.BreakpointAt?
  {
    assert forall h | h in live && h.owner.BreakpointAt? :: h == breakpoints[h.address].value;
  }

  lemma TemporaryHandlesAre(held: set<Hook>, temporary: Option<Hook>)
    requires TemporaryOwned(held, temporary)
    ensures TemporaryHandles(temporary) == set h | h in held && h.owner.RunToTarget?
  {
  }

  lemma OwnersPartition(held: set<Hook>)
    ensures var low := set h | h in held && h.owner.LowHook?;
            var symbol := set h | h in held && h.owner.SymbolSite?;
            var breakpoint := set h | h in held && h.owner.BreakpointAt?;
            var temporary := set h | h in held && h.owner.RunToTarget?;
            held == low + symbol + breakpoint + temporary && low !! symbol !! breakpoint !! temporary
  {
  }

  lemma ViewRefreshed(before: map<string, SymbolEntry>, cleared: map<string, SymbolEntry>,
                      after: map<string, SymbolEntry>, v: View)
    requires v.symbols == SymbolsView(before) && cleared.Keys == before.Keys && after.Keys == before.Keys
    requires forall k | k in cleared :: cleared[k] == before[k].(hooks := [])
    requires forall k | k in after :: SymbolOf(after[k]) == Installed(SymbolOf(cleared[k]), v.modules)
    ensures SymbolsView(after) == Refresh(v).symbols
  {
    assert forall k | k in after :: SymbolOf(after[k]) == Installed(SymbolOf(before[k]), v.modules);
  }

  lemma HooksViewUpdated(hooks: map<HookId, HookState>, id: HookId, state: HookState)
    ensures HooksView(hooks[id := state]) == HooksView(hooks)[id := state.pendingRemoval]
  {
  }

  lemma BreakpointsViewUpdated(breakpoints: map<Word, Option<Hook>>, address: Word, entry: Option<Hook>)
    ensures BreakpointsView(breakpoints[address := entry]) == BreakpointsView(breakpoints)[address := entry.Some?]
  {
  }

  lemma AddressesOfAdded(orphans: set<Hook>, h: Hook)
    ensures AddressesOf(orphans + {h}) == AddressesOf(orphans) + {h.address}
  {
    assert h in orphans + {h};
  }

  lemma AddressesAppended(hooks: seq<Hook>, h: Hook)
    ensures Addresses(hooks + [h]) == Addresses(hooks) + [h.address]
  {
  }

  lemma LowHookAdded(live: set<Hook>, hooks: map<HookId, HookState>, nextId: HookId, h: Hook, pending: bool)
    requires LowHooksOwned(live, hooks, nextId) && h.owner == LowHook(nextId)
    ensures LowHooksOwned(live + {h}, hooks[nextId := HookState(h, pending)], nextId + 1)
  {
  }

  lemma LowHookErased(live: set<Hook>, hooks: map<HookId, HookState>, nextId: HookId, id: HookId)
    requires LowHooksOwned(live, hooks, nextId) && id in hooks
    ensures LowHooksOwned(live - {hooks[id].hook}, hooks - {id}, nextId)
    ensures hooks[id].hook in live && hooks[id].hook.owner.LowHook?
  {
  }

  lemma SiteAdded(live: set<Hook>, symbols: map<string, SymbolEntry>, key: string, h: Hook)
    requires SymbolsOwned(live, symbols) && key in symbols && h.owner == SymbolSite(key) && h !in live
    ensures SymbolsOwned(live + {h}, symbols[key := symbols[key].(hooks := symbols[key].hooks + [h])])
  {
    forall k | k in symbols
      ensures EntryOwned(live + {h}, k, if k == key then symbols[k].hooks + [h] else symbols[k].hooks)
    {
      assert EntryOwned(live, k, symbols[k].hooks);
    }
  }

  /** Replacing one entry by an empty one after deleting its handles. */
  lemma EntryEmptied(live: set<Hook>, live': set<Hook>, symbols: map<string, SymbolEntry>, key: string,
                     entry: SymbolEntry)
    requires SymbolsOwned(live, symbols) && entry.hooks == []
    requires forall h: Hook :: h in live' <==> h in live && h.owner != SymbolSite(key)
    ensures SymbolsOwned(live', symbols[key := entry])
  {
    forall k | k in symbols && k != key
      ensures EntryOwned(live', k, symbols[k].hooks)
    {
      assert EntryOwned(live, k, symbols[k].hooks);
    }
  }

  lemma EntryReleased(b: Books, after: Books, key: string)
    requires Balanced(b) && key in b.symbols
    requires forall h: Hook :: h in after.held <==> h in b.held && h.owner != SymbolSite(key)
    requires after.symbols == b.symbols[key := b.symbols[key].(hooks := [])]
    requires after == b.(held := after.held, deleted := after.deleted, symbols := after.symbols)
    requires Agrees(after, Counts)
    ensures Balanced(after)
  {
    forall account: Account
      ensures Agrees(after, account)
    {
      assert Agrees(b, account);
      if account == Symbols {
        EntryEmptied(b.held, after.held, b.symbols, key, after.symbols[key]);
      }
    }
  }

  lemma EntryReplaced(b: Books, key: string, entry: SymbolEntry)
    requires Balanced(b) && entry.hooks == [] && (key in b.symbols ==> b.symbols[key].hooks == [])
    ensures Balanced(b.(symbols := b.symbols[key := entry]))
  {
    assert Agrees(b, Symbols);
    EntryEmptied(b.held, b.held, b.symbols, key, entry);
    SymbolsReplaced(b, b.symbols[key := entry]);
  }

  lemma EntryDropped(live: set<Hook>, symbols: map<string, SymbolEntry>, key: string)
    requires SymbolsOwned(live, symbols) && key in symbols && symbols[key].hooks == []
    ensures SymbolsOwned(live, symbols - {key})
  {
    assert forall k | k in symbols :: EntryOwned(live, k, symbols[k].hooks);
  }

  lemma EntriesGone(live: set<Hook>, symbols: map<string, SymbolEntry>)
    requires SymbolsOwned(live, symbols) && forall key | key in symbols :: symbols[key].hooks == []
    ensures SymbolsOwned(live, map[])
  {
  }

  lemma BreakpointAdded(live: set<Hook>, breakpoints: map<Word, Option<Hook>>, address: Word, h: Hook)
    requires BreakpointsOwned(live, breakpoints)
    requires h.owner == BreakpointAt && h.address == address && h !in live
    requires !(address in breakpoints && breakpoints[address].Some?)
    ensures BreakpointsOwned(live + {h}, breakpoints[address := Some(h)])
  {
  }

  lemma BreakpointDeleted(live: set<Hook>, breakpoints: map<Word, Option<Hook>>, address: Word)
    requires BreakpointsOwned(live, breakpoints) && address in breakpoints
    ensures breakpoints[address].Some? ==>
              var h := breakpoints[address].value;
              && h in live && h.owner == BreakpointAt
              && BreakpointsOwned(live - {h}, breakpoints - {address})
              && BreakpointsOwned(live - {h}, breakpoints[address := None])
    ensures breakpoints[address].None? ==> BreakpointsOwned(live, breakpoints - {address})
  {
  }

  // ---- The books balance across every change ---------------------------------

  lemma LowHookBooked(b: Books, h: Hook)
    requires Balanced(b) && h.serial == b.created && h.owner == LowHook(b.nextId)
    ensures Balanced(Created(b, h).(hooks := b.hooks[b.nextId := HookState(h, false)], nextId := b.nextId + 1))
  {
    var after := Created(b, h).(hooks := b.hooks[b.nextId := HookState(h, false)], nextId := b.nextId + 1);
    forall account: Account
      ensures Agrees(after, account)
    {
      if account == LowHooks {
        assert Agrees(b, LowHooks);
        LowHookAdded(b.held, b.hooks, b.nextId, h, false);
      } else {
        AfterCreating(b, h, account);
      }
    }
  }

  lemma LowHookMarked(b: Books, id: HookId)
    requires Balanced(b) && id in b.hooks
    ensures Balanced(b.(hooks := b.hooks[id := b.hooks[id].(pendingRemoval := true)]))
  {
    var after := b.(hooks := b.hooks[id := b.hooks[id].(pendingRemoval := true)]);
    forall account: Account
      ensures Agrees(after, account)
    {
      assert Agrees(b, account);
    }
  }

  lemma LowHookReleased(b: Books, id: HookId)
    requires Balanced(b) && id in b.hooks
    ensures b.hooks[id].hook in b.held && Balanced(Deleted(b, b.hooks[id].hook).(hooks := b.hooks - {id}))
  {
    assert Agrees(b, LowHooks);
    LowHookErased(b.held, b.hooks, b.nextId, id);
    var after := Deleted(b, b.hooks[id].hook).(hooks := b.hooks - {id});
    forall account: Account
      ensures Agrees(after, account)
    {
      if account != LowHooks {
        AfterDeleting(b, b.hooks[id].hook, account);
      }
    }
  }

  lemma SiteBooked(b: Books, key: string, h: Hook)
    requires Balanced(b) && key in b.symbols && h.serial == b.created && h.owner == SymbolSite(key)
    ensures Balanced(Created(b, h).(symbols := b.symbols[key := b.symbols[key].(hooks := b.symbols[key].hooks + [h])]))
  {
    var after := Created(b, h).(symbols := b.symbols[key := b.symbols[key].(hooks := b.symbols[key].hooks + [h])]);
    forall account: Account
      ensures Agrees(after, account)
    {
      if account == Symbols {
        assert Agrees(b, Symbols) && Agrees(b, Counts);
        SiteAdded(b.held, b.symbols, key, h);
      } else {
        AfterCreating(b, h, account);
      }
    }
  }

  /** A change of the symbol table that keeps its own account balanced. */
  lemma SymbolsReplaced(b: Books, symbols: map<string, SymbolEntry>)
    requires Balanced(b) && SymbolsOwned(b.held, symbols)
    ensures Balanced(b.(symbols := symbols))
  {
    var after := b.(symbols := symbols);
    forall account: Account
      ensures Agrees(after, account)
    {
      assert Agrees(b, account);
    }
  }

  lemma BreakpointBooked(b: Books, h: Hook)
    requires Balanced(b) && h.serial == b.created && h.owner == BreakpointAt
    requires !(h.address in b.breakpoints && b.breakpoints[h.address].Some?)
    ensures Balanced(Created(b, h).(breakpoints := b.breakpoints[h.address := Some(h)]))
  {
    var after := Created(b, h).(breakpoints := b.breakpoints[h.address := Some(h)]);
    forall account: Account
      ensures Agrees(after, account)
    {
      if account == Breakpoints {
        assert Agrees(b, Breakpoints) && Agrees(b, Counts);
        BreakpointAdded(b.held, b.breakpoints, h.address, h);
      } else {
        AfterCreating(b, h, account);
      }
    }
  }

  lemma BreakpointReleased(b: Books, address: Word, remaining: map<Word, Option<Hook>>)
    requires Balanced(b) && address in b.breakpoints && b.breakpoints[address].Some?
    requires remaining == b.breakpoints - {address} || remaining == b.breakpoints[address := None]
    ensures b.breakpoints[address].value in b.held
    ensures Balanced(Deleted(b, b.breakpoints[address].value).(breakpoints := remaining))
  {
    assert Agrees(b, Breakpoints);
    BreakpointDeleted(b.held, b.breakpoints, address);
    var after := Deleted(b, b.breakpoints[address].value).(breakpoints := remaining);
    forall account: Account
      ensures Agrees(after, account)
    {
      if account != Breakpoints {
        AfterDeleting(b, b.breakpoints[address].value, account);
      }
    }
  }

  lemma LiftedEntryDropped(b: Books, address: Word)
    requires Balanced(b) && address in b.breakpoints && b.breakpoints[address].None?
    ensures Balanced(b.(breakpoints := b.breakpoints - {address}))
  {
    var after := b.(breakpoints := b.breakpoints - {address});
    forall account: Account
      ensures Agrees(after, account)
    {
      assert Agrees(b, account);
    }
  }

  function Orphaned(b: Books, address: Word): Books
    requires ArmedIn(b, address)
  {
    var lost := b.breakpoints[address].value;
    b.(held := b.held - {lost}, orphans := b.orphans + {lost}, breakpoints := b.breakpoints - {address})
  }

  lemma BreakpointOrphaned(b: Books, address: Word)
    requires Balanced(b) && ArmedIn(b, address)
    ensures Balanced(Orphaned(b, address)) && b.breakpoints[address].value.address == address
    ensures b.breakpoints[address].value in b.held
  {
    var lost := b.breakpoints[address].value;
    assert Agrees(b, Breakpoints) && Agrees(b, Counts) && Agrees(b, Orphans);
    BreakpointDeleted(b.held, b.breakpoints, address);
    forall account: Account
      ensures Agrees(Orphaned(b, address), account)
    {
      if account.LowHooks? || account.Symbols? || account.Temporary? {
        assert Agrees(b, account);
        OthersAgree(b, b.held - {lost}, lost, account);
      }
    }
  }

  /** Overwriting an armed breakpoint makes its hook an orphan. */
  lemma BreakpointOverwritten(b: Books, h: Hook)
    requires Balanced(b) && h.serial == b.created && h.owner == BreakpointAt
    requires ArmedIn(b, h.address)
    ensures var lost := b.breakpoints[h.address].value;
            Balanced(b.(held := b.held - {lost} + {h}, orphans := b.orphans + {lost}, created := b.created + 1,
                        breakpoints := b.breakpoints[h.address := Some(h)]))
    ensures b.breakpoints[h.address].value.address == h.address && b.breakpoints[h.address].value in b.held
            && h !in b.held
  {
    assert Agrees(b, Counts);
    BreakpointOrphaned(b, h.address);
    var without := Orphaned(b, h.address);
    BreakpointBooked(without, h);
    assert without.breakpoints[h.address := Some(h)] == b.breakpoints[h.address := Some(h)];
  }

  predicate ArmedIn(b: Books, address: Word) {
    address in b.breakpoints && b.breakpoints[address].Some?
  }

  /** Storing a new hook for an address, whatever the table held there. */
  function Overwritten(b: Books, h: Hook): Books {
    var entry := b.breakpoints[h.address := Some(h)];
    if ArmedIn(b, h.address) then
      var lost := b.breakpoints[h.address].value;
      b.(held := b.held - {lost} + {h}, orphans := b.orphans + {lost}, created := b.created + 1, breakpoints := entry)
    else Created(b, h).(breakpoints := entry)
  }

  lemma OverwrittenBalances(b: Books, h: Hook)
    requires Balanced(b) && h.serial == b.created && h.owner == BreakpointAt
    ensures Balanced(Overwritten(b, h))
    ensures ArmedIn(b, h.address) ==>
              var lost := b.breakpoints[h.address].value; lost in b.held && lost != h && lost.address == h.address
  {
    if ArmedIn(b, h.address) {
      BreakpointOverwritten(b, h);
    } else {
      BreakpointBooked(b, h);
    }
  }

  lemma TemporaryBooked(b: Books, h: Hook)
    requires Balanced(b) && b.temporary == None && h.serial == b.created && h.owner == RunToTarget
    ensures Balanced(Created(b, h).(temporary := Some(h)))
  {
    var after := Created(b, h).(temporary := Some(h));
    forall account: Account
      ensures Agrees(after, account)
    {
      if account == Temporary {
        assert Agrees(b, Temporary);
      } else {
        AfterCreating(b, h, account);
      }
    }
  }

  lemma TemporaryReleased(b: Books, h: Hook)
    requires Balanced(b) && b.temporary == Some(h)
    ensures h in b.held && Balanced(Deleted(b, h).(temporary := None))
  {
    assert Agrees(b, Temporary);
    var after := Deleted(b, h).(temporary := None);
    forall account: Account
      ensures Agrees(after, account)
    {
      if account != Temporary {
        AfterDeleting(b, h, account);
      }
    }
  }

  class Registry {
    // The emulator: its hooks, those a slot of the registry holds and those none holds
    // any more, how many were ever created and deleted, its modules, and those it had
    // when the symbol hooks were last refreshed.
    var held: set<Hook>
    var orphans: set<Hook>
    var created: nat
    var deleted: nat
    var modules: seq<Module>
    var hooked: seq<Module>
    // The registry and the application's flags.
    var hooks: map<HookId, HookState>
    var callbackStack: seq<HookId>
    var symbols: map<string, SymbolEntry>
    var breakpoints: map<Word, Option<Hook>>
    var temporary: Option<Hook>   // the hook held by a run_to in progress
    var running: bool
    var nextId: HookId

    /** Handle conservation. */
    ghost predicate Valid()
      reads this
    {
      Balanced(Ledger())
    }

    ghost function Ledger(): Books
      reads this
    {
      Books(held, orphans, created, deleted, hooks, nextId, symbols, breakpoints, temporary)
    }

    function Live(): set<Hook>
      reads this
    {
      held + orphans
    }

    function View(): View
      reads this
    {
      LinuxState.View.View(HooksView(hooks), callbackStack, SymbolsView(symbols), BreakpointsView(breakpoints),
                           AddressesOf(orphans), running, nextId, modules, hooked)
    }

    /** The emulator stops a run where a breakpoint's or run_to's hook is installed. */
    predicate StopsAt(pc: Word)
      reads this
    {
      exists h :: h in Live() && h.address == pc && (h.owner.BreakpointAt? || h.owner.RunToTarget?)
    }

    lemma StopsAtBlocked(pc: Word)
      requires Valid()
      ensures StopsAt(pc) <==> Blocked(View(), TemporaryAddress(), pc)
    {
      assert Agrees(Ledger(), Breakpoints) && Agrees(Ledger(), Temporary) && Agrees(Ledger(), Orphans);
      if Armed(View(), pc) {
        assert breakpoints[pc].value in Live() && breakpoints[pc].value.address == pc;
      }
    }

    function TemporaryAddress(): Option<Word>
      reads this
    {
      if temporary.Some? then Some(temporary.value.address) else None
    }

    /** The emulator's hooks are the disjoint union of what the four owners hold and of
        the orphans, and as many as were created and not deleted. */
    lemma HandlesAreConserved()
      requires Valid()
      ensures held == LowHookHandles(hooks) + SymbolHandles(symbols)
                      + BreakpointHandles(breakpoints) + TemporaryHandles(temporary)
      ensures LowHookHandles(hooks) !! SymbolHandles(symbols) !! BreakpointHandles(breakpoints)
              !! TemporaryHandles(temporary)
      ensures held !! orphans && |Live()| + deleted == created
    {
      assert Agrees(Ledger(), LowHooks) && Agrees(Ledger(), Symbols) && Agrees(Ledger(), Breakpoints)
             && Agrees(Ledger(), Temporary);
      LowHookHandlesAre(held, hooks, nextId);
      SymbolHandlesAre(held, symbols);
      BreakpointHandlesAre(held, breakpoints);
      TemporaryHandlesAre(held, temporary);
      OwnersPartition(held);
      assert Agrees(Ledger(), Orphans) && Agrees(Ledger(), Counts);
    }

    /** No two slots share a handle, so each is released once. */
    lemma HandlesAreNotShared()
      requires Valid()
      ensures forall i, j | i in hooks && j in hooks && hooks[i].hook == hooks[j].hook :: i == j
      ensures forall a, b | a in breakpoints && b in breakpoints && breakpoints[a].Some?
              && breakpoints[a] == breakpoints[b] :: a == b
      ensures forall k, i, l, j | k in symbols && l in symbols && 0 <= i < |symbols[k].hooks|
              && 0 <= j < |symbols[l].hooks|
                                  && symbols[k].hooks[i] == symbols[l].hooks[j] :: k == l && i == j
    {
      assert Agrees(Ledger(), LowHooks) && Agrees(Ledger(), Symbols) && Agrees(Ledger(), Breakpoints);
      assert forall key | key in symbols :: EntryOwned(held, key, symbols[key].hooks);
    }

    // ---- The emulator's hooks ------------------------------------------------

    method CreateHook(owner: Owner, address: Word) returns (h: Hook)
      modifies `held, `created
      ensures h == Hook(old(created), owner, address)
      ensures held == old(held) + {h} && created == old(created) + 1
    {
      h := Hook(created, owner, address);
      held := held + {h};
      created := created + 1;
    }

    /** The emulator requires the hook it deletes to be live. */
    method DeleteHook(h: Hook)
      requires h in held
      modifies `held, `deleted
      ensures held == old(held) - {h} && deleted == old(deleted) + 1
    {
      held := held - {h};
      deleted := deleted + 1;
    }

    constructor (modules: seq<Module>)
      ensures Valid() && View() == Initial(modules) && temporary == None && fresh(this)
    {
      this.modules, hooked := modules, modules;
      held, created, deleted := {}, 0, 0;
      hooks, callbackStack, symbols, breakpoints := map[], [], map[], map[];
      temporary, orphans, running, nextId := None, {}, false, 0;
    }

    // ---- Low-level hooks -----------------------------------------------------

    method AddEmulatorHook(address: Word) returns (id: HookId)
      requires Valid()
      modifies `held, `created, `hooks, `nextId
      ensures Valid() && id == old(nextId) && id in hooks && hooks[id].hook.address == address
      ensures View() == AddHook(old(View()))
    {
      id := nextId;
      var h := CreateHook(LowHook(id), address);
      LowHookBooked(old(Ledger()), h);
      HooksViewUpdated(hooks, id, HookState(h, false));
      hooks := hooks[id := HookState(h, false)];
      nextId := nextId + 1;
    }

    method EraseHook(id: HookId)
      requires Valid()
      modifies `held, `deleted, `hooks
      ensures Valid() && View() == old(View()).(hooks := old(View()).hooks - {id})
      ensures held == if id in old(hooks) then old(held) - {old(hooks)[id].hook} else old(held)
    {
      if id in hooks {
        var state := hooks[id];
        LowHookReleased(Ledger(), id);
        DeleteHook(state.hook);
        hooks := hooks - {id};
      }
      assert HooksView(hooks) == HooksView(old(hooks)) - {id};
    }

    method RemoveHook(id: HookId) returns (status: Status)
      requires Valid()
      modifies `held, `deleted, `hooks
      ensures Valid() && status == RemovalStatus(old(View()), id)
      ensures View() == Remove(old(View()), id)
    {
      if id !in hooks {
        return Ok;
      }
      if callbackStack != [] && callbackStack[|callbackStack| - 1] == id {
        LowHookMarked(Ledger(), id);
        HooksViewUpdated(hooks, id, hooks[id].(pendingRemoval := true));
        hooks := hooks[id := hooks[id].(pendingRemoval := true)];
        return Ok;
      }
      if running {
        return BadState;
      }
      EraseHook(id);
      return Ok;
    }

    method EnterHook(id: HookId)
      requires Valid()
      modifies `callbackStack
      ensures Valid() && View() == Step(old(View()), Enter(id))
    {
      callbackStack := callbackStack + [id];
    }

    method LeaveHook(id: HookId)
      requires Valid()
      modifies `held, `deleted, `hooks, `callbackStack
      ensures Valid() && View() == Step(old(View()), Leave(id))
    {
      if callbackStack != [] {
        callbackStack := callbackStack[..|callbackStack| - 1];
      }
      if id in hooks && hooks[id].pendingRemoval {
        EraseHook(id);
      }
    }

    // ---- Symbol hooks --------------------------------------------------------

    method ClearEntryHooks(key: string)
      requires Valid() && key in symbols
      modifies `held, `deleted, `symbols
      ensures Valid() && symbols == old(symbols)[key := old(symbols)[key].(hooks := [])]
    {
      ghost var before := Ledger();
      var entry := symbols[key];
      assert Agrees(before, Symbols) && EntryOwned(held, key, entry.hooks);
      assert Agrees(before, Counts);
      var i := 0;
      while i < |entry.hooks|
        invariant 0 <= i <= |entry.hooks|
        invariant symbols == old(symbols)
        invariant forall h :: h in held <==> h in old(held) && h !in entry.hooks[..i]
        invariant CountsAgree(held, orphans, created, deleted)
      {
        assert entry.hooks[i] !in entry.hooks[..i];
        DeleteHook(entry.hooks[i]);
        i := i + 1;
      }
      assert entry.hooks[..i] == entry.hooks;
      symbols := symbols[key := entry.(hooks := [])];
      EntryReleased(before, Ledger(), key);
    }

    method AddSymbolForModule(key: string, m: Module)
      requires Valid() && key in symbols
      modifies `held, `created, `symbols
      ensures Valid() && symbols.Keys == old(symbols).Keys
      ensures forall k | k in symbols && k != key :: symbols[k] == old(symbols)[k]
      ensures SymbolOf(symbols[key]) == Extended(SymbolOf(old(symbols)[key]), m)
    {
      var target := symbols[key].target;
      if target.filter.Some? && target.filter.value != m.name && target.filter.value != m.stem {
        return;
      }
      var i := 0;
      while i < |m.exports|
        invariant 0 <= i <= |m.exports|
        invariant Valid() && symbols.Keys == old(symbols).Keys
        invariant forall k | k in symbols && k != key :: symbols[k] == old(symbols)[k]
        invariant symbols[key] == old(symbols)[key].(hooks := symbols[key].hooks)
        invariant Addresses(symbols[key].hooks)
                  == Addresses(old(symbols)[key].hooks) + ExportSites(target, m.exports[..i])
      {
        assert m.exports[..i + 1][..i] == m.exports[..i];
        if m.exports[i].name == target.name && m.exports[i].address != 0 {
          InstallSite(key, m.exports[i].address);
        }
        i := i + 1;
      }
      assert m.exports[..i] == m.exports;
    }

    method InstallSite(key: string, address: Word)
      requires Valid() && key in symbols
      modifies `held, `created, `symbols
      ensures Valid() && symbols.Keys == old(symbols).Keys
      ensures forall k | k in symbols && k != key :: symbols[k] == old(symbols)[k]
      ensures symbols[key] == old(symbols)[key].(hooks := symbols[key].hooks)
      ensures Addresses(symbols[key].hooks) == Addresses(old(symbols)[key].hooks) + [address]
    {
      var entry := symbols[key];
      var h := CreateHook(SymbolSite(key), address);
      symbols := symbols[key := entry.(hooks := entry.hooks + [h])];
      AddressesAppended(entry.hooks, h);
      SiteBooked(old(Ledger()), key, h);
    }

    method ClearAllEntries()
      requires Valid()
      modifies `held, `deleted, `symbols
      ensures Valid() && symbols.Keys == old(symbols).Keys
      ensures forall k | k in symbols :: symbols[k] == old(symbols)[k].(hooks := [])
    {
      var todo := symbols.Keys;
      while todo != {}
        invariant Valid() && symbols.Keys == old(symbols).Keys && todo <= symbols.Keys
        invariant forall k | k in symbols ::
                  symbols[k] == if k in todo then old(symbols)[k] else old(symbols)[k].(hooks := [])
      {
        var key :| key in todo;
        ClearEntryHooks(key);
        todo := todo - {key};
      }
    }

    method AddSymbolsForModule(m: Module)
      requires Valid()
      modifies `held, `created, `symbols
      ensures Valid() && symbols.Keys == old(symbols).Keys
      ensures forall k | k in symbols :: SymbolOf(symbols[k]) == Extended(SymbolOf(old(symbols)[k]), m)
    {
      var todo := symbols.Keys;
      while todo != {}
        invariant Valid() && symbols.Keys == old(symbols).Keys && todo <= symbols.Keys
        invariant forall k | k in symbols ::
                    if k in todo then symbols[k] == old(symbols)[k]
                    else SymbolOf(symbols[k]) == Extended(SymbolOf(old(symbols)[k]), m)
      {
        var key :| key in todo;
        AddSymbolForModule(key, m);
        todo := todo - {key};
      }
    }

    method AddAllSymbols()
      requires Valid() && forall k | k in symbols :: symbols[k].hooks == []
      modifies `held, `created, `symbols
      ensures Valid() && symbols.Keys == old(symbols).Keys
      ensures forall k | k in symbols :: SymbolOf(symbols[k]) == Installed(SymbolOf(old(symbols)[k]), modules)
    {
      var i := 0;
      while i < |modules|
        invariant 0 <= i <= |modules|
        invariant Valid() && symbols.Keys == old(symbols).Keys
        invariant forall k | k in symbols :: SymbolOf(symbols[k]) == Installed(SymbolOf(old(symbols)[k]), modules[..i])
      {
        assert modules[..i + 1][..i] == modules[..i];
        AddSymbolsForModule(modules[i]);
        i := i + 1;
      }
      assert modules[..i] == modules;
    }

    /** Each symbol hook is taken down everywhere and put up again at every matching
        export of every module. */
    method RefreshSymbols()
      requires Valid()
      modifies `held, `created, `deleted, `symbols, `hooked
      ensures Valid() && View() == Refresh(old(View()))
    {
      ghost var before := View();
      ClearAllEntries();
      ghost var cleared := symbols;
      AddAllSymbols();
      hooked := modules;
      ViewRefreshed(old(symbols), cleared, symbols, before);
    }

    method OnModuleLoad(modules: seq<Module>)
      requires Valid()
      modifies `held, `created, `deleted, `symbols, `modules, `hooked
      ensures Valid() && View() == Step(old(View()), LoadModule(modules))
    {
      this.modules := modules;
      RefreshSymbols();
    }

    /** Stores an entry with no hooks yet, after releasing those of the one it replaces. */
    method ReplaceEntry(key: string, entry: SymbolEntry)
      requires Valid() && entry.hooks == []
      modifies `held, `deleted, `symbols
      ensures Valid() && SymbolsView(symbols) == SymbolsView(old(symbols))[key := SymbolOf(entry)]
    {
      if key in symbols {
        ClearEntryHooks(key);
      }
      EntryReplaced(Ledger(), key, entry);
      symbols := symbols[key := entry];
    }

    method SetSymbol(key: string, parameterCount: nat, callback: nat) returns (status: Status)
      requires Valid()
      modifies `held, `created, `deleted, `symbols, `hooked
      ensures Valid() && status == if ValidKey(key) then Ok else InvalidArgument
      ensures View() == SetSymbolHook(old(View()), key, parameterCount, callback)
    {
      if key == "" || key[|key| - 1] == '!' {
        return InvalidArgument;
      }
      var entry := SymbolEntry(ParseTarget(key), parameterCount, callback, []);
      assert Addresses([]) == [];
      ReplaceEntry(key, entry);
      RefreshSymbols();
      return Ok;
    }

    method RemoveSymbol(key: string)
      requires Valid()
      modifies `held, `created, `deleted, `symbols, `hooked
      ensures Valid() && View() == RemoveSymbolHook(old(View()), key)
    {
      if key !in symbols {
        return;
      }
      ClearEntryHooks(key);
      assert Agrees(Ledger(), Symbols);
      EntryDropped(held, symbols, key);
      SymbolsReplaced(Ledger(), symbols - {key});
      symbols := symbols - {key};
      assert SymbolsView(symbols) == SymbolsView(old(symbols)) - {key};
      RefreshSymbols();
    }

    method ClearSymbols()
      requires Valid()
      modifies `held, `deleted, `symbols
      ensures Valid() && symbols == map[]
      ensures View() == Step(old(View()), Event.ClearSymbols)
    {
      ClearAllEntries();
      assert Agrees(Ledger(), Symbols);
      EntriesGone(held, symbols);
      SymbolsReplaced(Ledger(), map[]);
      symbols := map[];
      assert SymbolsView(symbols) == map[];
    }

    // ---- Breakpoints ---------------------------------------------------------

    /** The emulator keeps the hook, but no slot will hold its handle. */
    method Disown(h: Hook)
      requires h in held
      modifies `held, `orphans
      ensures held == old(held) - {h} && orphans == old(orphans) + {h} && Live() == old(Live())
      ensures AddressesOf(orphans) == AddressesOf(old(orphans)) + {h.address}
    {
      AddressesOfAdded(orphans, h);
      held, orphans := held - {h}, orphans + {h};
    }

    /** Installs unconditionally: the handle of an armed entry is overwritten, and with
        it the only way to delete that hook, which stays in the emulator. */
    method InstallBreakpoint(address: Word)
      requires Valid()
      modifies `held, `created, `breakpoints, `orphans
      ensures Valid() && View() == Rearm(old(View()), address)
      ensures orphans == old(orphans) + (if Armed(old(View()), address) then {old(breakpoints)[address].value} else {})
      ensures address in breakpoints && breakpoints[address].Some?
              && Live() == old(Live()) + {breakpoints[address].value}
    {
      ghost var before := Ledger();
      var h := CreateHook(BreakpointAt, address);
      OverwrittenBalances(before, h);
      BreakpointsViewUpdated(breakpoints, address, Some(h));
      if address in breakpoints && breakpoints[address].Some? {
        Disown(breakpoints[address].value);
      }
      breakpoints := breakpoints[address := Some(h)];
      assert Ledger() == Overwritten(before, h);
    }

    method SetBreakpoint(address: Word) returns (ok: bool)
      requires Valid()
      modifies `held, `created, `breakpoints, `orphans
      ensures Valid() && ok && View() == SetBreak(old(View()), address) && orphans == old(orphans)
    {
      if address !in breakpoints {
        InstallBreakpoint(address);
      }
      return true;
    }

    method ClearBreakpoint(address: Word) returns (ok: bool)
      requires Valid()
      modifies `held, `deleted, `breakpoints
      ensures Valid() && View() == ClearBreak(old(View()), address)
      ensures ok <==> address in old(breakpoints)
    {
      if address !in breakpoints {
        assert breakpoints - {address} == breakpoints;
        assert View().breakpoints - {address} == View().breakpoints;
        return false;
      }
      if breakpoints[address].Some? {
        BreakpointReleased(Ledger(), address, breakpoints - {address});
        DeleteHook(breakpoints[address].value);
      } else {
        LiftedEntryDropped(Ledger(), address);
      }
      breakpoints := breakpoints - {address};
      assert BreakpointsView(breakpoints) == BreakpointsView(old(breakpoints)) - {address};
      return true;
    }

    // ---- Callback activity and runs ------------------------------------------

    method Perform(e: Event)
      requires Valid()
      modifies this
      ensures Valid() && View() == Step(old(View()), e) && temporary == old(temporary)
    {
      match e
      case Enter(id) => EnterHook(id);
      case Leave(id) => LeaveHook(id);
      case RemoveHook(id) => var _ := RemoveHook(id);
      case SetBreakpoint(address) => var _ := SetBreakpoint(address);
      case ClearBreakpoint(address) => var _ := ClearBreakpoint(address);
      case SetSymbol(key, count, callback) => var _ := SetSymbol(key, count, callback);
      case RemoveSymbol(key) => RemoveSymbol(key);
      case ClearSymbols => ClearSymbols();
      case RefreshSymbols => RefreshSymbols();
      case LoadModule(ms) => OnModuleLoad(ms);
      case ChangeModules(ms) => modules := ms;
    }

    method PerformAll(es: seq<Event>)
      requires Valid()
      modifies this
      ensures Valid() && View() == Exec(old(View()), es) && temporary == old(temporary)
    {
      var i := 0;
      while i < |es|
        invariant 0 <= i <= |es|
        invariant Valid() && temporary == old(temporary)
        invariant Exec(View(), es[i..]) == Exec(old(View()), es)
      {
        Perform(es[i]);
        assert es[i..][1..] == es[i + 1..];
        i := i + 1;
      }
      assert Exec(View(), es[i..]) == View();
    }

    /** The emulator's own loop, seen through the hooks this registry installed. */
    method StartEmulator<S>(m: Machine<S>, s: S, limit: nat, budget: nat) returns (r: Run<S>)
      requires Valid()
      modifies this
      ensures Valid() && temporary == old(temporary) && r.view == View()
      ensures r == Start(m, old(View()), s, old(TemporaryAddress()), limit, budget)
      decreases budget
    {
      StopsAtBlocked(m.pc(s));
      if StopsAt(m.pc(s)) {
        return Run(View(), s, 0, BreakpointHit);
      }
      if budget == 0 {
        return Run(View(), s, 0, OutOfBudget);
      }
      var i := m.step(View(), s);
      PerformAll(i.events);
      if i.end.Some? {
        return Run(View(), i.next, 1, Ended(i.end.value));
      }
      if limit == 1 {
        return Run(View(), i.next, 1, InstructionLimit);
      }
      r := StartEmulator(m, i.next, if limit == 0 then 0 else limit - 1, budget - 1);
      r := r.(executed := r.executed + 1);
    }

    /** Takes the hook of an armed breakpoint down and keeps its table entry. */
    method LiftBreakpoint(address: Word)
      requires Valid() && address in breakpoints && breakpoints[address].Some?
      modifies `held, `deleted, `breakpoints
      ensures Valid() && View() == Lift(old(View()), address)
    {
      BreakpointReleased(Ledger(), address, breakpoints[address := None]);
      DeleteHook(breakpoints[address].value);
      BreakpointsViewUpdated(breakpoints, address, None);
      breakpoints := breakpoints[address := None];
    }

    /** Lifts, steps and installs again on every way out, with no look at what the
        callbacks left in the table. */
    method SuppressCurrentBreakpointOnce<S>(m: Machine<S>, s: S) returns (suppressed: bool, r: Run<S>)
      requires Valid() && temporary == None
      modifies this
      ensures Valid() && temporary == None && r.view == View()
      ensures suppressed == Armed(old(View()), m.pc(s))
      ensures if suppressed then r == SuppressedStep(m, old(View()), s) else View() == old(View())
    {
      var address := m.pc(s);
      if address !in breakpoints || breakpoints[address].None? {
        return false, Run(View(), s, 0, OutOfBudget);
      }
      LiftBreakpoint(address);
      r := StartEmulator(m, s, 1, 1);
      InstallBreakpoint(address);
      r := r.(view := View());
      suppressed := true;
    }

    method StepIntoCommand<S>(m: Machine<S>, s: S) returns (r: Run<S>)
      requires Valid() && temporary == None
      modifies this
      ensures Valid() && temporary == None
      ensures r == StepInto(m, old(View()), s) && r.view == View()
    {
      var suppressed;
      suppressed, r := SuppressCurrentBreakpointOnce(m, s);
      if !suppressed {
        r := StartEmulator(m, s, 1, 1);
      }
    }

    /** The temporary hook is gone on return, whether `start` returned or threw. */
    method RunToCommand<S>(m: Machine<S>, s: S, address: Word, budget: nat) returns (r: Run<S>)
      requires Valid() && temporary == None
      modifies this
      ensures Valid() && temporary == None
      ensures r == RunTo(m, old(View()), s, address, budget) && r.view == View()
    {
      var hook := CreateHook(RunToTarget, address);
      TemporaryBooked(old(Ledger()), hook);
      temporary := Some(hook);
      r := StartEmulator(m, s, 0, budget);
      TemporaryReleased(Ledger(), hook);
      DeleteHook(hook);
      temporary := None;
    }

    method StepOutCommand<S>(m: Machine<S>, s: S, budget: nat) returns (r: StepOutResult<S>)
      requires Valid() && temporary == None
      modifies this
      ensures Valid() && temporary == None
      ensures r == StepOut(m, old(View()), s, budget)
      ensures View() == if r.Returned? then r.run.view else old(View())
    {
      var framePointer := m.framePointer(s);
      if framePointer == 0 {
        return Refused(ZeroFramePointer);
      }
      var returnAddress := m.read(s, (framePointer + 8) % TWO_64);
      if returnAddress.None? {
        return Refused(UnreadableReturnAddress);
      }
      if returnAddress.value == 0 {
        return Refused(ZeroReturnAddress);
      }
      var run := RunToCommand(m, s, returnAddress.value, budget);
      return Returned(run);
    }

    method ContinueCommand<S>(m: Machine<S>, s: S, budget: nat) returns (r: Run<S>)
      requires Valid() && temporary == None
      modifies this
      ensures Valid() && temporary == None
      ensures r == ContinueExecution(m, old(View()), s, budget) && r.view == View()
    {
      var suppressed, first := SuppressCurrentBreakpointOnce(m, s);
      if suppressed && first.stop != InstructionLimit {
        return first;
      }
      if !suppressed {
        r := StartEmulator(m, s, 0, budget);
      } else {
        r := StartEmulator(m, first.state, 0, budget);
        r := r.(executed := r.executed + first.executed);
      }
    }

    /** `run_emulator` around one command: refused while running, and the flag is
        cleared on every way out. */
    method Execute<S>(m: Machine<S>, command: Command, s: S, budget: nat) returns (status: Status)
      requires Valid() && temporary == None
      modifies this
      ensures Valid() && temporary == None
      ensures status == if old(running) then BadState else Ok
      ensures View() == ExecuteOn(m, old(View()), command, s, budget)
    {
      if running {
        return BadState;
      }
      running := true;
      match command {
        case StartFor(limit) => var _ := StartEmulator(m, s, limit, budget);
        case Into => var _ := StepIntoCommand(m, s);
        case Out => var _ := StepOutCommand(m, s, budget);
        case ToAddress(address) => var _ := RunToCommand(m, s, address, budget);
        case Continue => var _ := ContinueCommand(m, s, budget);
      }
      running := false;
      return Ok;
    }

    /** Any history of the registry conserves handles and has the history's effect. */
    method Replay<S>(m: Machine<S>, history: seq<Request<S>>)
      requires Valid() && temporary == None
      modifies this
      ensures Valid() && temporary == None && View() == ServeAll(m, old(View()), history)
    {
      var i := 0;
      while i < |history|
        invariant 0 <= i <= |history|
        invariant Valid() && temporary == None
        invariant ServeAll(m, View(), history[i..]) == ServeAll(m, old(View()), history)
      {
        match history[i] {
          case Install(address) =>
            if !running {
              var _ := AddEmulatorHook(address);
            }
          case Outside(e) => Perform(e);
          case Command(command, s, budget) => var _ := Execute(m, command, s, budget);
        }
        assert history[i..][1..] == history[i + 1..];
        i := i + 1;
      }
      assert ServeAll(m, View(), history[i..]) == View();
    }

    /** The destructor releases every handle a slot holds, so only orphans remain. It
        passes each table entry to the emulator, so none may be lifted. */
    method Destroy()
      requires Valid() && temporary == None
      requires forall a | a in breakpoints :: breakpoints[a].Some?
      modifies this
      ensures Live() == orphans == old(orphans) && deleted + |orphans| == created
    {
      ClearSymbols();
      ClearAllBreakpoints();
      EraseAllHooks();
      assert Agrees(Ledger(), Counts) && Agrees(Ledger(), LowHooks) && Agrees(Ledger(), Symbols);
      assert Agrees(Ledger(), Breakpoints) && Agrees(Ledger(), Temporary);
      forall h | h in held
        ensures false
      {
        match h.owner
        case LowHook(_) =>
        case SymbolSite(_) =>
        case BreakpointAt =>
        case RunToTarget =>
      }
    }

    method ClearAllBreakpoints()
      requires Valid()
      modifies `held, `deleted, `breakpoints
      ensures Valid() && breakpoints == map[]
    {
      var addresses := breakpoints.Keys;
      while addresses != {}
        invariant Valid() && addresses == breakpoints.Keys
      {
        var address :| address in addresses;
        ghost var before := breakpoints;
        var _ := ClearBreakpoint(address);
        assert BreakpointsView(breakpoints).Keys == BreakpointsView(before).Keys - {address};
        addresses := addresses - {address};
      }
    }

    method EraseAllHooks()
      requires Valid()
      modifies `held, `deleted, `hooks
      ensures Valid() && hooks == map[]
    {
      var ids := hooks.Keys;
      while ids != {}
        invariant Valid() && ids == hooks.Keys
      {
        var id :| id in ids;
        ghost var before := hooks;
        EraseHook(id);
        assert HooksView(hooks).Keys == HooksView(before).Keys - {id};
        ids := ids - {id};
      }
    }
  }

  /** From construction to destruction, over any history: every handle created is deleted
      except those of the lost breakpoint hooks, and there are none of these exactly when
      no command of the history lost one. */
  method Lifetime<S(!new)>(m: Machine<S>, modules: seq<Module>, history: seq<Request<S>>) returns (registry: Registry)
    requires WellBehaved(m) && CallbacksOnlyInRuns(history)
    ensures AddressesOf(registry.Live()) == ServeAll(m, Initial(modules), history).lost
    ensures registry.deleted + |registry.Live()| == registry.created
    ensures registry.Live() == {} <==> Conserving(m, Initial(modules), history)
  {
    registry := new Registry(modules);
    registry.Replay(m, history);
    ghost var view := ServeAll(m, Initial(modules), history);
    HistoryStaysQuiescent(m, Initial(modules), history);
    HistoryLosesIff(m, Initial(modules), history);
    assert NoneLifted(registry.View());
    assert forall a | a in registry.breakpoints :: registry.View().breakpoints[a];
    registry.Destroy();
    assert AddressesOf(registry.orphans) == view.lost;
    assert registry.orphans != {} ==> exists h :: h in registry.orphans && h.address in view.lost;
  }
}
