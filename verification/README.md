# Hook, callback and ownership state of the Sogen binding

The binding wraps an emulator behind a C ABI and a Dart library. What it adds to the
emulator is bookkeeping: who holds which hook handle, which callback is executing, what
must be released and when. These Dafny modules model that bookkeeping and prove what it
guarantees over whole runs and histories, and, where it does not hold unconditionally,
exactly when it does.

`dafny verify dfyconfig.toml` checks everything.

## How the models are built

Code that changes state step by step is a class with the same fields and methods. Each
method is proved against a pure function on a snapshot of the state (`View()` or
`Snapshot()`), and the properties of runs and histories are lemmas about those functions.
Pure source code is modelled by functions directly.

| module | models |
|---|---|
| Prelude, HookKeys, Memory | optional values, 64-bit words, `module!symbol` keys, guest memory |
| LinuxState | the Linux registry without hook handles, and every sequence of callback activity on it |
| Debugger | start, step, run to, step out and continue over an abstract machine |
| LinuxSession | whole histories of requests to the Linux registry |
| LinuxRuntime | the registry with its hook handles: conservation of handles, refinement of the three above |
| SystemV, StackWalk | argument decoding, interception, typed arguments; the frame-pointer walk |
| ApiHooks | the Windows API hook registry, its address index and dispatch |
| OwnedModels | deep copies handed out through the C ABI, with failing allocations |
| HookLifetime | Dart's low-level Linux hooks in step with the native registry |
| CallbackTable, CallbackHistory | Dart's Linux event callbacks: replacing, replaying, closing, and native code failing before or after it stored a table |
| ModuleNotifications | the native Linux callback table: module replay and the violation observer |
| WindowsLowHooks | low-level Windows hooks: deferred removal, natively and in Dart |
| Parameters, Names | the generator's parameter splitter and the callback-name normaliser |

## What is assumed about the emulator

- Creating a hook gives a handle that was never given out before and does not throw;
  deleting a hook requires the handle to be live. Only `start` can throw.
- `start(n)` tests its limit first (0 is no limit), then the execution hooks at the
  program counter, then executes the instruction. A hook that stops the run goes before
  every other execution hook there: their callbacks belong to the instruction that was
  not executed. An emulator that calls a symbol hook at a breakpoint both when it stops
  there and when the run goes on makes one call more than the model.
- The guest is deterministic, and its callbacks may depend on everything in the registry.
  Where a suppressed instruction is compared with a plain one, they are asked not to look
  whether that one breakpoint is lifted (`LiftUnseen`); what they would see is stated
  (`Debugger.ListedWhileLifted`). An unlimited run is followed for an arbitrary number of
  instructions (`budget`); every statement holds for every budget, so it covers every run
  that returns.
- Hook callbacks execute only inside a run and return in the order they were entered.
- Addresses of heap blocks and of native callables are not reused.
- Reading memory goes byte by byte and wraps at 2^64.
- An observer registered through `add_observer` is treated like an emulator hook: its
  remover releases it.
- Text handled by the generator and the normaliser is ASCII where case and whitespace
  matter.

## Where the code does not do what one would expect

Each of these is proved, with the exact condition.

- A suppressed step loses a hook handle exactly when its callbacks clear the breakpoint
  being stepped over and then set it again (`LinuxSession.CommandLoses`,
  `LinuxSession.HandleCanBeLost`). The hook then
  outlives the registry (`LinuxRuntime.Lifetime`) and no run ever gets past its address
  again, whatever is cleared (`LinuxSession.LostHookStopsForever`). A breakpoint that was
  only cleared comes back. Continuing is "step, then run" exactly when the first
  instruction does not clear its breakpoint and no lost hook lies there
  (`Debugger.SuppressedStepIsPlainIff`, `Debugger.ContinueRefinesIff`).
- A low-level Linux hook entered inside itself is erased by its inner return
  (`LinuxState.ReentryErasesRunningHook`), and over a run nothing executing is erased
  exactly when no return finds its own hook pending and further down the stack
  (`LinuxState.ReentrantRunSafeIff`).
- Modules that change without a notification leave symbol hooks where they were, which
  fits exactly when each key selects the same sites as before (`LinuxState.SymbolsCurrentIff`,
  `LinuxState.SymbolsCanBeStale`).
- `run_to` and `step_out` do not step off a breakpoint they start at
  (`Debugger.RunToStopsWhereItStands`).
- Two intercepting symbol hooks at one address pop two return addresses
  (`SystemV.FrameRestoredIffOneInterception`, `SystemV.TwoInterceptorsSkipCaller`), whereas for Windows API hooks only the last
  interception counts (`ApiHooks.LastInterceptionWins`).
- Unsigned 64-bit arguments decode exactly only below 2^63 (`SystemV.DecodeIff`).
- The outermost frame, whose saved frame pointer is 0, is never listed (`StackWalk.OutermostFrameDropped`).
- A Windows low-level callback cannot remove its own hook natively once another one fired
  inside it (`WindowsLowHooks.SelfRemovalAcceptedIff`, `WindowsLowHooks.SelfRemovalCanBeRefused`),
  while Dart always accepts it (`WindowsLowHooks.DartSelfRemovalAccepted`) and then answers
  the native hook with its fallback until the run ends (`WindowsLowHooks.SuspendedStillFires`).
- Disposing of the application from inside an event callback that executes outside a run,
  such as a module callback being replayed, closes a callable that is executing, and that
  is the only such case (`CallbackTable.DisposeSafeIff`,
  `CallbackHistory.DisposeCanCloseExecuting`).
- Native `set` stores a callback table before it adds an observer and replays modules. When
  it throws there, Dart closes the new callable and puts its own maps back, but native code
  keeps calling through the stored table: from then until the next table is stored or the
  application is disposed of, and exactly then, it can call a closed callable
  (`CallbackHistory.HistoryStrandsIff`, `CallbackHistory.ClosedCallPossibleIff`,
  `CallbackHistory.LateFailureCanStrand`). If a callback had replaced itself meanwhile, its
  successor is never closed (`CallbackHistory.HistoryForgetsIff`,
  `CallbackHistory.LateFailureCanForget`).
- The parameter list consisting of the one parameter `void` reads back as empty
  (`Parameters.SplitInvertsJoinIff`).
- A callback named without a prefix but beginning with "on" is not found under its bare
  spellings (`Names.CamelSpellingIff`, `Names.SnakeSpellingIff`), and a native field name
  with an underscore before a letter is never matched (`Names.SnakeFieldsUnreachable`).

## Model

| member | source | states |
|---|---|---|
| HookKeys.ParseTargetRoundTrip | native/src/linux_runtime.cpp:212-220 | a bare key is a symbol name and "module!symbol" splits back into exactly its two parts, whatever the symbol contains |
| LinuxState.RunKeepsProtocol | native/src/linux_runtime.cpp:164-197 | over every run in which no hook is entered inside itself, no hook on the callback stack is erased, only a hook on the stack is pending, and an empty stack leaves nothing pending |
| LinuxState.LeaveSafeIff | native/src/linux_runtime.cpp:189-197 | a return keeps every hook still on the stack registered exactly when the returning hook is not both pending and entered again further down |
| LinuxState.ReentrantRunSafeIff | native/src/linux_runtime.cpp:164-197 | over every run, with hooks entered inside themselves at will, every hook on the stack stays registered throughout exactly when no return finds its own hook pending and further down the stack |
| LinuxState.ReentrantRunSettles | native/src/linux_runtime.cpp:164-197 | over the same runs a pending hook is on the stack, and an empty stack leaves nothing pending |
| LinuxState.ReentryErasesRunningHook | native/src/linux_runtime.cpp:164-197 | a hook entered inside itself that removes itself is gone while its outer activation runs |
| LinuxState.SelfRemovalTakesEffectAtLeave | native/src/linux_runtime.cpp:164-197 | a callback that ran to completion, with any callbacks nested in it, unregistered its hook exactly when it asked for its own removal |
| LinuxState.RunKeepsSymbolsAgree | native/src/linux_runtime.cpp:206-291 | after any activity every symbol hook is installed at exactly what its key selects in the modules present at the last refresh |
| LinuxState.SymbolsCurrentIff | native/src/linux_runtime.cpp:249-291 | after any activity, module changes without notification included, the symbol hooks fit the current modules exactly when every key selects the same sites there as at the last refresh |
| LinuxState.SymbolsCanBeStale | native/src/linux_runtime.cpp:249-291 | a symbol set before its module appears without a notification is not hooked although the module exports it |
| LinuxState.SitesCount | native/src/linux_runtime.cpp:249-291 | an address is hooked once for each (module, export) pair that passes the filter, has the name and a non-zero address |
| LinuxState.RefreshIdempotent | native/src/linux_runtime.cpp:249-258 | a refresh makes the symbol hooks fit the modules; a second one changes nothing, and neither does the first when they fit already |
| LinuxState.SymbolFate | native/src/linux_runtime.cpp:206-247 | after any activity a key is registered with the parameter count and callback of the last accepted request concerning it, not at all if that removed it or all keys, and as before if there was none |
| LinuxState.ValidKeyIff | native/src/linux_runtime.cpp:206-220 | a key is refused exactly when the symbol name it spells is empty or ends in '!' |
| LinuxState.KeySelects | native/src/linux_runtime.cpp:260-272 | a bare key selects exports of its name that have an address in every module, a qualified one only in modules whose name or path stem is the filter |
| LinuxState.HookFate | native/src/linux_runtime.cpp:150-197 | inside a run a low-level hook goes exactly when its removal is asked for while it is the innermost callback and it then returns, however callbacks nest |
| LinuxState.IdleHookFate | native/src/linux_runtime.cpp:164-178 | outside runs it goes exactly when it is asked to |
| LinuxState.ModulesFate | native/src/linux_runtime.cpp:112-117 | the modules the registry works with are those of the last load or unannounced change |
| Debugger.StartFollowsTrace | native/src/linux_runtime.cpp:340-352 | a run ends in the configuration its trace reaches, never executes an instruction at which a hook stops it, and reports a breakpoint exactly when the trace runs that far and is blocked there |
| Debugger.StopsAtFirstHit | native/src/linux_runtime.cpp:435-447 | a run stops at a breakpoint or the temporary hook after k instructions exactly when configuration k of the trace, the starting one included, is the first to lie at one |
| Debugger.LimitEndsRunIff | native/src/linux_core.cpp:103-119 | start(n) executes at most n instructions and reports its limit exactly when the trace runs that far without meeting a hook |
| Debugger.StartEndsIff | native/src/linux_core.cpp:103-119 | with any limit and temporary hook a run ends after k instructions exactly when the trace reaches k unblocked and there the guest ended, the limit is reached or a hook lies; it ends for that reason and in that configuration |
| Debugger.StepOutStopsAtReturnAddress | native/src/linux_runtime.cpp:409-433 | step_out is refused exactly for a zero frame pointer and an unreadable or zero return address, each with its own error; otherwise it stops exactly at the first configuration at a breakpoint or at that address |
| Debugger.StepIntoIsOneInstruction | native/src/linux_runtime.cpp:401-405 | a step executes exactly one instruction, from a breakpoint too, and ends as it does, except where a lost hook stops it |
| Debugger.RunToStopsWhereItStands | native/src/linux_runtime.cpp:435-447 | run_to stops at once exactly when it starts at a breakpoint, a lost hook or its target |
| Debugger.LiftCommutes | native/src/linux_runtime.cpp:383-399 | activity under a lifted breakpoint differs from activity without the lift only at that address and only until it is cleared |
| Debugger.BreakpointFate | native/src/linux_runtime.cpp:347-371 | whether a breakpoint is armed after any activity, from how it was found and what was last done to it |
| Debugger.ListedWhileLifted | native/src/linux_runtime.cpp:373-399 | a callback that lists breakpoints during a suppressed step is told of all but the one being stepped over, and of that one too exactly once it was cleared and set again |
| Debugger.SuppressedStepActs | native/src/linux_runtime.cpp:383-399 | a suppressed step changes the registry exactly as its callbacks do, except that a breakpoint they cleared comes back |
| Debugger.SuppressedStepIsPlainIff | native/src/linux_runtime.cpp:383-399 | for callbacks that do not look whether it is lifted, stepping over a breakpoint is one plain instruction exactly when its callbacks do not clear it and no lost hook lies there; otherwise the breakpoint comes back, or nothing is executed |
| Debugger.SuppressedStepLoses | native/src/linux_runtime.cpp:383-399 | a suppressed step loses the hook at its address exactly when its callbacks clear the breakpoint and then set it |
| Debugger.ContinueRefinesStepThenRun | native/src/linux_runtime.cpp:449-455 | if the first instruction does not clear its breakpoint, continuing is one instruction and then a run to the next breakpoint, ending early only if that instruction ended the run |
| Debugger.ContinueRefinesIff | native/src/linux_runtime.cpp:449-455 | for all run lengths that holds exactly when the first instruction does not clear the breakpoint and no lost hook lies there |
| Debugger.ContinueStopsAtNextBreakpoint | native/src/linux_runtime.cpp:449-455 | continuing from a breakpoint makes progress and stops exactly at the first later breakpoint, the same address or the next one included |
| Debugger.CommandsActThroughCallbacks | native/src/linux_runtime.cpp:383-455 | whatever a command lifts, plants and removes, its effect on the registry is that of the callbacks it executed, unless a suppressed instruction clears its own breakpoint |
| Debugger.CommandsLeaveBreakpoints | native/src/linux_runtime.cpp:383-455 | a command whose own callbacks neither set nor clear breakpoints leaves the table as it was, however the run ends |
| LinuxSession.CommandLoses | native/src/linux_runtime.cpp:383-455 | a command loses at most the hook of the breakpoint it starts at, and exactly when its first instruction clears that breakpoint and sets it again |
| LinuxSession.StartForExecutes | native/src/linux_core.cpp:103-119 | a start with a limit leaves the registry of the trace after that many instructions, or after as many as a hook or the guest's end allows; without a limit only these end it |
| LinuxSession.ToAddressExecutes | native/src/linux_runtime.cpp:435-447 | running to an address leaves the registry of the trace at the first meeting with it, a breakpoint, a lost hook or the guest's end |
| LinuxSession.OutExecutes | native/src/linux_runtime.cpp:409-433 | the same for the saved return address; without one nothing changes |
| LinuxSession.IntoExecutes | native/src/linux_runtime.cpp:383-405 | a step has exactly the effect of the one instruction there, with a breakpoint it cleared reinstalled, and none where a lost hook lies |
| LinuxSession.ContinueExecutes | native/src/linux_runtime.cpp:449-455 | continuing from a breakpoint leaves the registry of the trace at the next breakpoint or the guest's end, at least one instruction on; elsewhere it is a start without a limit |
| LinuxSession.InstalledHookStays | native/src/linux_runtime.cpp:136-178 | over every history an installed hook stays registered until its removal is asked for |
| LinuxSession.HandleCanBeLost | native/src/linux_runtime.cpp:383-399 | one breakpoint and one step with a callback that clears it and sets it lose a handle |
| LinuxSession.HistoryLosesIff | native/src/linux_runtime.cpp:136-455 | over every history a lost hook stays lost, and none is lost exactly when no command loses one |
| LinuxSession.LostHookStopsForever | native/src/linux_runtime.cpp:340-371 | after any history, clearing the breakpoint included, a run, step or continuation at the address of a lost hook executes nothing |
| LinuxSession.CommandStaysQuiescent | native/src/linux_runtime.cpp:383-455 | one command, however it ends and whatever its callbacks do, leaves nothing running, pending or lifted, and symbol hooks where the last refresh put them |
| LinuxSession.HistoryStaysQuiescent | native/src/linux_runtime.cpp:136-455 | the same over every history of requests |
| LinuxRuntime.Registry.HandlesAreConserved | native/src/linux_runtime.cpp:112-178 | the live handles are the disjoint union of low-level hooks, symbol hooks, armed breakpoints, the temporary run_to hook and the lost ones, and as many as were created and not deleted |
| LinuxRuntime.Registry.HandlesAreNotShared | native/src/linux_runtime.cpp:112-178 | no handle sits in two places, so none is deleted twice |
| LinuxRuntime.Registry.constructor | native/src/linux_runtime.cpp:112-117 | a new registry holds no handle and no entry |
| LinuxRuntime.Registry.AddEmulatorHook | native/src/linux_runtime.cpp:136-141 | registers one new handle, for the given address, under a new id |
| LinuxRuntime.Registry.EraseHook | native/src/linux_runtime.cpp:150-162 | drops the id and deletes exactly its handle |
| LinuxRuntime.Registry.RemoveHook | native/src/linux_runtime.cpp:164-178 | an unknown id is accepted, the executing hook is marked, any other is refused during a run and deleted outside one |
| LinuxRuntime.Registry.EnterHook | native/src/linux_runtime.cpp:185-187 | pushes the id and keeps handles conserved |
| LinuxRuntime.Registry.LeaveHook | native/src/linux_runtime.cpp:189-197 | pops the stack and carries out a pending removal with its handle |
| LinuxRuntime.Registry.ClearEntryHooks | native/src/linux_runtime.cpp:199-204 | deletes every handle of one entry and no other |
| LinuxRuntime.Registry.AddSymbolForModule | native/src/linux_runtime.cpp:260-291 | adds one handle per selected export of the module, in order, to one entry |
| LinuxRuntime.Registry.RefreshSymbols | native/src/linux_runtime.cpp:249-258 | every entry is installed anew at what it selects; nothing else changes and handles stay conserved |
| LinuxRuntime.Registry.OnModuleLoad | native/src/linux_runtime.cpp:112-117 | a module load refreshes the symbol hooks |
| LinuxRuntime.Registry.SetSymbol | native/src/linux_runtime.cpp:206-230 | an empty key or one ending in '!' is refused; otherwise the entry is replaced by one with the new count and callback (`LinuxState.SymbolFate`), its old handles deleted, and all hooks refreshed |
| LinuxRuntime.Registry.RemoveSymbol | native/src/linux_runtime.cpp:232-240 | the entry and its handles are gone |
| LinuxRuntime.Registry.ClearSymbols | native/src/linux_runtime.cpp:242-247 | all entries and their handles are gone |
| LinuxRuntime.Registry.StopsAtBlocked | native/src/linux_runtime.cpp:340-352 | a hook that stops the run is installed at an address exactly when an armed breakpoint, a lost one or the temporary hook is there |
| LinuxRuntime.Registry.InstallBreakpoint | native/src/linux_runtime.cpp:347-352 | one new hook for the address; an armed one it overwrites stays installed and is the only handle lost |
| LinuxRuntime.Registry.SetBreakpoint | native/src/linux_runtime.cpp:354-359 | an address already in the table, armed or lifted, is left alone |
| LinuxRuntime.Registry.ClearBreakpoint | native/src/linux_runtime.cpp:361-371 | drops the entry with its handle, if any, and says whether there was one |
| LinuxRuntime.Registry.StartEmulator | native/src/linux_runtime.cpp:340-345 | a run stopped by the emulator's installed hooks is the run of the handle-free registry, and handles stay conserved |
| LinuxRuntime.Registry.SuppressCurrentBreakpointOnce | native/src/linux_runtime.cpp:383-399 | lifts, runs one instruction and re-arms on every way out, with every handle accounted for whatever the callbacks do |
| LinuxRuntime.Registry.StepIntoCommand | native/src/linux_runtime.cpp:401-405 | one instruction from an armed address or any other, with every handle accounted for |
| LinuxRuntime.Registry.StepOutCommand | native/src/linux_runtime.cpp:409-433 | the three refusals leave everything as it was; otherwise a run to the saved return address |
| LinuxRuntime.Registry.RunToCommand | native/src/linux_runtime.cpp:435-447 | the temporary hook is deleted whether the run returned or threw, and handles stay conserved |
| LinuxRuntime.Registry.ContinueCommand | native/src/linux_runtime.cpp:449-455 | the effect of continuing, with handles conserved |
| LinuxRuntime.Registry.Execute | native/src/linux_runtime.cpp:55-68 | a command during a run is refused without effect; otherwise it performs the run that the `Executes` lemmas of LinuxSession describe, limit included, and the running flag is cleared on every way out |
| LinuxRuntime.Registry.Replay | native/src/linux_runtime.cpp:112-455 | every handle is accounted for over every history of requests, with exactly the effect of the handle-free history |
| LinuxRuntime.Registry.Destroy | native/src/linux_runtime.cpp:119-134 | the destructor deletes every handle a slot holds, leaving exactly the lost ones |
| LinuxRuntime.Lifetime | native/src/linux_runtime.cpp:112-455 | from construction through any history to destruction every handle created is deleted except the lost ones, and none is left exactly when no command of the history lost one |
| SystemV.InvokeSymbol | native/src/linux_runtime.cpp:293-338 | the loop computes the closed form: arguments from registers and stack with 64-bit wrap-around, no call when a word is unreadable, the three registers written on interception |
| SystemV.ArgumentsRoundTrip | native/src/linux_runtime.cpp:293-322 | any number of words laid out by section 3.2.3 of the System V AMD64 ABI is recovered exactly, at any stack pointer |
| SystemV.InterceptedCall | native/src/linux_runtime.cpp:274-338 | the callback sees the caller's words and return address, and an interception leaves the registers of "load value; ret" |
| SystemV.NotCalledIff | native/src/linux_runtime.cpp:274-322 | the callback is left out and the machine untouched exactly when the return address or a stack argument cannot be read or the key is gone |
| Memory.WordIsLittleEndian | native/src/linux_runtime.cpp:278-284 | a word is read from eight bytes upwards, the lowest first, wrapping at the end of the address space |
| SystemV.EachInterceptionPops | native/src/linux_runtime.cpp:304-336 | every interception at an address moves the stack pointer by 8 |
| SystemV.FrameRestoredIffOneInterception | native/src/linux_runtime.cpp:304-336 | the caller's stack pointer is restored exactly when one hook at the address intercepts |
| SystemV.TwoInterceptorsSkipCaller | native/src/linux_runtime.cpp:304-336 | two interceptors at one address return to the caller's caller, wherever the stack lies |
| SystemV.DecodeIff | lib/src/ctypes.dart:10-91 | integers of every width and sign decode from a word's low bits whatever the upper bits hold, except unsigned 64-bit values from 2^63 on |
| SystemV.TypedArgumentsRoundTrip | lib/src/ctypes.dart:10-91 | typed arguments survive registers or stack, decoder and ctypes |
| StackWalk.CallStack | native/src/linux_runtime.cpp:835-855 | the current frame and then the first 64 of the frame chain |
| StackWalk.ChainClimbs | native/src/linux_runtime.cpp:843-855 | frame pointers strictly increase, so no frame repeats |
| StackWalk.ChainIsLongest | native/src/linux_runtime.cpp:843-855 | frame n is listed exactly when n links lead to a frame pointer that is not zero, whose two words are readable, whose return address is not zero and whose saved frame pointer lies higher; it is listed with that return address |
| StackWalk.OutermostFrameDropped | native/src/linux_runtime.cpp:843-855 | a frame whose saved frame pointer is 0 is not listed |
| ApiHooks.PutKeepsOrder | native/src/api_hook_registry.hpp:60 | the entries stay in key order and each was there before or is the new one |
| ApiHooks.FindAfterPut | native/src/api_hook_registry.cpp:88-96 | a key finds its new entry and every other key what it found before |
| ApiHooks.FilterMatchesIff | native/src/api_hook_registry.cpp:31-44 | a filter means a module exactly when it equals the module's name, with or without its last extension, whatever the case |
| ApiHooks.HitsAreMatches | native/src/api_hook_registry.cpp:31-44 | an address is hit for a key exactly when a module passing the key's filter names it with the key's export |
| ApiHooks.HitsInOrder | native/src/api_hook_registry.cpp:120-172 | the scan lists every match of an address once, by module, then by key, then by name, and each hit names its key, id, module, export and address |
| ApiHooks.HitsResolve | native/src/api_hook_registry.cpp:202-209 | every hit of the scan still finds its entry by key and id |
| ApiHooks.WithoutDropsOnlyId | native/src/api_hook_registry.cpp:101-110 | removing an id drops the one entry that has it and no other |
| ApiHooks.LastInterceptionWins | native/src/api_hook_registry.cpp:210-241 | with callbacks that leave the registers alone, they are untouched if none intercepts and otherwise those of the last interception, computed from the stack pointer captured at the start |
| ApiHooks.ScanCallsEveryHit | native/src/api_hook_registry.cpp:197-241 | every hit is called in turn whatever the callbacks answer: the callback its key has, with the hit's names, the arguments its convention reads (fastcall in 64-bit code) and the registers the call before left; only unreadable arguments end the dispatch |
| ApiHooks.ReachingCallsEveryHit | native/src/api_hook_registry.cpp:174-200 | so reaching an address during a run calls every match of the entries and modules of that moment, and nothing without a readable return address or outside runs |
| ApiHooks.InterceptionBalancesStack | native/src/api_hook_registry.cpp:234-241 | an interception leaves the stack pointer where the intercepted function would: past its arguments for 32-bit stdcall, at them otherwise |
| ApiHooks.EntryFate | native/src/api_hook_registry.cpp:76-116 | after any history a key has the entry of the last accepted request for it, with that request's convention, count, callback and id, unless it was removed by that id or with all others outside a run |
| ApiHooks.ModulesAreLatest | native/src/api_hook_registry.cpp:60-67 | the modules are those of the last module event of the history |
| ApiHooks.Registry.EnsureExecutionHook | native/src/api_hook_registry.cpp:135-148 | one execution hook, an existing one kept |
| ApiHooks.Registry.RemoveExecutionHook | native/src/api_hook_registry.cpp:150-157 | the execution hook's handle is deleted |
| ApiHooks.Registry.AddEntryForModule | native/src/api_hook_registry.cpp:159-172 | at every address the entry's matches in the module are appended in order |
| ApiHooks.Registry.Refresh | native/src/api_hook_registry.cpp:120-133 | at every address the index is the ordered scan of modules, entries and names; the execution hook exists exactly while there are entries |
| ApiHooks.Registry.AddApiHook | native/src/api_hook_registry.cpp:76-99 | refused during runs and callbacks and for a key or convention without meaning; otherwise a new id, the entry under its key, and an index equal to the scan |
| ApiHooks.Registry.RemoveHook | native/src/api_hook_registry.cpp:101-110 | exactly the entry with the id is gone, and at every address the index is the scan of the modules that are loaded |
| ApiHooks.Registry.ClearApiHooks | native/src/api_hook_registry.cpp:112-116 | no entry, no hit, no execution hook |
| ApiHooks.Registry.InvokeHook | native/src/api_hook_registry.cpp:202-241 | one hit is one step of the linear scan although its callback may refresh the index |
| ApiHooks.Registry.DispatchAddress | native/src/api_hook_registry.cpp:174-200 | dispatching through the index makes the calls of the scan over all entries and the modules loaded when the address was reached, in order and with its registers, whatever modules come and go meanwhile; those are the modules afterwards |
| ApiHooks.Registry.Replay | native/src/api_hook_registry.cpp:60-133 | over every history of changes, module events, runs and dispatches the registry makes the calls, and ends with the entries, ids and modules, of one that has no index and scans every time, and the index is the scan of the modules loaded at the end |
| OwnedModels.Heap.SetBuffer | native/src/linux_models.cpp:45-55 | a copy owning at most one new block, or nothing |
| OwnedModels.Heap.FreeBuffer | native/src/linux_models.cpp:57-60 | releases exactly the buffer's block and leaves it empty |
| OwnedModels.Heap.SetRecordList | native/src/linux_models.cpp:97-171 | a complete copy of a list of named records, or an empty list and the heap as it was, decided by whether enough allocations succeed |
| OwnedModels.Heap.FreeRecordList | native/src/linux_models.cpp:62-84 | releases every block the list owns once, each name while it can still be read through the array, and leaves it empty |
| OwnedModels.Heap.SetModule | native/src/linux_models.cpp:173-191 | all fields copied, or none and the heap as it was |
| OwnedModels.Heap.FreeModule | native/src/linux_models.cpp:86-95 | releases every block the module owns once |
| OwnedModels.Heap.GetModules | native/src/linux_models.cpp:339-369 | for every list and every point of failure: a field-for-field copy, read back through live blocks, that owns exactly the blocks added, or an empty list and the heap, contents included, as it was |
| OwnedModels.Heap.FreeModuleList | native/src/linux_models.cpp:417-427 | releases every block of a copy once, each before the array it is found through, leaves every other block as it was and the list empty |
| OwnedModels.Heap.CopyAndFree | native/src/linux_models.cpp:339-427 | copying and freeing, once or twice, leaves the heap exactly as it was |
| HookLifetime.NativeNeverRejects | lib/src/linux_hooks.dart:360-369 | whenever Dart's own guard allows a removal the native registry accepts it, and during a run its hook is the innermost native callback |
| HookLifetime.HistoryKeepsLockstep | lib/src/linux_hooks.dart:337-423 | over every history Dart's current callback is the top of the native stack, its registrations are native hooks, and no closed callable can be called or is executing, re-entered hooks included |
| HookLifetime.InvokeKeepsLockstep | lib/src/linux_hooks.dart:380-397 | a hook the emulator can still call was never closed |
| HookLifetime.ClosedForever | lib/src/linux_hooks.dart:360-378 | a closed callable stays closed and a removed handle stays removed |
| HookLifetime.RemovalAcceptedIff | lib/src/linux_hooks.dart:360-378 | an active hook can be removed exactly outside runs or as the innermost callback, and before disposal; the native registry then drops it or, in a run, marks it, and otherwise nothing changes |
| HookLifetime.HistoryClosesRemoved | lib/src/linux_hooks.dart:360-423 | over every history, outside runs a callable is closed exactly when its hook is no longer active, so removal closes it at once or with the end of the run |
| HookLifetime.DisposeClosesAll | lib/src/linux.dart:713-763 | disposal closes every callable ever made, none of which is executing |
| HookLifetime.LinuxHooks.constructor | lib/src/linux_hooks.dart:337-345 | an empty registry is in lockstep |
| HookLifetime.LinuxHooks.Register | lib/src/linux_hooks.dart:337-358 | a new active registration under the native id, refused during a run and after disposal |
| HookLifetime.LinuxHooks.Remove | lib/src/linux_hooks.dart:360-378 | closed at once when no callback of it executes and deferred otherwise; refused in a run unless it is the current callback |
| HookLifetime.LinuxHooks.Enter | lib/src/linux_hooks.dart:380-389 | native scope and Dart's callback and depth advance together |
| HookLifetime.LinuxHooks.Leave | lib/src/linux_hooks.dart:390-397 | depth and previous callback are restored together with the native stack |
| HookLifetime.LinuxHooks.Start | lib/src/linux.dart:270-285 | refused during a run and after disposal |
| HookLifetime.LinuxHooks.Finish | lib/src/linux_hooks.dart:417-423 | every deferred callable is closed at the end of the run, after which exactly the active hooks are open |
| HookLifetime.LinuxHooks.Dispose | lib/src/linux.dart:473-479 | refused during a run; otherwise every callable is closed after the native application is gone |
| CallbackHistory.HistoryKeepsSound | lib/src/linux_callbacks.dart:114-150 | over every history, with callbacks installing callbacks to any depth and native code failing before or after it stored a table, both maps have the same slots, everything registered, executing or about to be replayed to is open, and a closed callable stays closed |
| CallbackHistory.HandlerFate | lib/src/linux_callbacks.dart:114-141 | over every history a slot holds the handler last set, except that a failed installation puts back what it found, whatever was installed inside it |
| CallbackHistory.EndSetClosesIff | lib/src/linux_callbacks.dart:143-149 | a finished installation closes exactly what it replaced, and exactly when no run is in progress and no callback executes; otherwise that waits |
| CallbackHistory.RunClosesReplaced | lib/src/linux_callbacks.dart:401-409 | after the outermost run exactly what is registered is open, if no failure lost track of a callable |
| CallbackHistory.FailSyncStrandsIff | lib/src/linux_callbacks.dart:130-140 | a failure after the store leaves a closed callable in the native table exactly when the table still lists the one that was being installed |
| CallbackHistory.ImmediateFailureStrandsIff | native/src/linux_callbacks.cpp:267-278 | without anything in between that is exactly when a callback was being installed, not removed |
| CallbackHistory.HistoryStrandsIff | lib/src/linux_callbacks.dart:114-150 | over every history the native table lists a closed callable exactly from such a failure until the next table is stored or the application is disposed of |
| CallbackHistory.ClosedCallPossibleIff | native/src/linux_callbacks.cpp:267-329 | native code can call a closed callable exactly while its table lists one |
| CallbackHistory.UnstrandedCallsOpen | lib/src/linux_callbacks.dart:376-386 | in every history without such a failure each call is to an open callable |
| CallbackHistory.FailSyncForgetsIff | lib/src/linux_callbacks.dart:130-140 | such a failure loses track of an open callable exactly when the slot holds one installed meanwhile |
| CallbackHistory.HistoryForgetsIff | lib/src/linux_callbacks.dart:114-150 | over every history an open callable is lost track of exactly when that happened once, and then it stays open for good |
| CallbackHistory.LateFailureCanStrand | lib/src/linux_callbacks.dart:130-140 | a module callback whose replay fails is closed and called at the next load |
| CallbackHistory.LateFailureCanForget | lib/src/linux_callbacks.dart:130-140 | a module callback that replaced itself before its replay failed leaves its successor open for good |
| CallbackHistory.AllClosedAfterDisposal | lib/src/linux.dart:724-747 | over a whole life every callable ever created ends closed exactly when no failure lost track of one |
| CallbackTable.DisposeSafeIff | lib/src/linux.dart:724-747 | when none was lost track of, disposal keeps executing callables open exactly when none executes |
| CallbackHistory.DisposeCanCloseExecuting | lib/src/linux.dart:724-747 | a module callback that disposes of the application during its replay is closed while it executes |
| CallbackTable.LinuxCallbacks.SetFailing | lib/src/linux_callbacks.dart:114-141 | when native code refuses the table before storing it both maps are as before and only the new callable was made and closed |
| CallbackTable.LinuxCallbacks.SetFailed | lib/src/linux_callbacks.dart:130-141 | when it fails after storing it the new callable is closed and the slot gets back what it held before, while the native table stays |
| CallbackTable.LinuxCallbacks.SetBegin | lib/src/linux_callbacks.dart:114-130 | both maps and the native table change together, which leaves native code only open callables, and what was replaced is remembered |
| CallbackTable.LinuxCallbacks.SetEnd | lib/src/linux_callbacks.dart:143-149 | the replaced callable is closed if nothing can be executing it and deferred otherwise |
| CallbackTable.LinuxCallbacks.InvokeBegin | lib/src/linux_callbacks.dart:376-379 | a call to an open callable deepens the stack and keeps everything in use open |
| CallbackTable.LinuxCallbacks.InvokeEnd | lib/src/linux_callbacks.dart:380-386 | a callable is still open when it returns |
| CallbackTable.LinuxCallbacks.FinishRunIfIdle | lib/src/linux_callbacks.dart:401-409 | deferred callables are closed once no callback executes |
| ModuleNotifications.SortIsAscending | native/src/linux_callbacks.cpp:320-325 | the replay order is ascending and has every loaded module once |
| ModuleNotifications.NotifiedExactlyOnce | native/src/linux_callbacks.cpp:267-329 | a newly installed module callback is told of each module already loaded, ascending, of each loaded meanwhile or later, and of every module present exactly once, whatever happens to other slots and whatever tables and modules it installs and loads itself while it is told |
| ModuleNotifications.InstallReportsAll | native/src/linux_callbacks.cpp:267-329 | each module loaded when a module callback is installed is reported to it, ascending, whatever the callbacks do meanwhile, replacing or removing it included |
| ModuleNotifications.InstalledTableStays | native/src/linux_callbacks.cpp:267-315 | until another table is installed every slot holds what the last one says, and violations are observed exactly while its violation slot is set |
| ModuleNotifications.ReinstallingReplays | native/src/linux_callbacks.cpp:267-278 | taking a callback out and putting it back reports everything again |
| ModuleNotifications.Registry.Set | native/src/linux_callbacks.cpp:267-278 | the new table, the observer registered exactly while the violation slot is set, and a replay only for a new module callback |
| ModuleNotifications.Registry.RefreshMemoryViolateObserver | native/src/linux_callbacks.cpp:280-315 | one observer while the slot is set and none otherwise; an existing one is kept |
| ModuleNotifications.Registry.ReplayModules | native/src/linux_callbacks.cpp:317-329 | every module is reported once in ascending image base |
| ModuleNotifications.Registry.OnModuleLoad | native/src/linux_callbacks.cpp:206-210 | a loaded module is reported once to the installed callback |
| WindowsLowHooks.RemovalMakesGone | native/src/sogen_dart.cpp:422-442 | an accepted removal leaves the hook deleted or waiting to be |
| WindowsLowHooks.RemovalIsPermanent | native/src/sogen_dart.cpp:228-266 | from then on, over every history, its callback never runs again and its id never comes back |
| WindowsLowHooks.RunEndsAtRest | native/src/sogen_dart.cpp:648-666 | after a run, returned or thrown, nothing is deferred and exactly the hooks removed during it, natively or in Dart, are uninstalled |
| WindowsLowHooks.HistoryEndsAtRest | native/src/sogen_dart.cpp:228-266 | the same over every history |
| WindowsLowHooks.SelfRemovalAcceptedIff | native/src/sogen_dart.cpp:251-259 | a callback can remove its own hook natively exactly as long as no installed low-level hook whose removal is not pending has fired inside it |
| WindowsLowHooks.SelfRemovalCanBeRefused | native/src/sogen_dart.cpp:251-259 | with two hooks, one firing inside the other, the outer one is refused its own removal and still installed after the run |
| WindowsLowHooks.DartSelfRemovalAccepted | lib/src/application.dart:1247-1299 | Dart accepts a callback's removal of its own hook whatever fired inside it, and refuses that of any other |
| WindowsLowHooks.PerformAllKeepsSuspended | lib/src/application.dart:1247-1299 | a hook removed in Dart during a run never runs its user function again in that run |
| WindowsLowHooks.SuspendedStillFires | lib/src/application.dart:1279-1286 | until the run ends, whatever happens in between, the native hook still fires and gets the fallback answer, unless it was removed natively too |
| WindowsLowHooks.FireCallsIff | native/src/sogen_dart.cpp:470-480 | reaching a hook calls it exactly when it is installed and not about to be removed, and its user function exactly when it was not removed in Dart; otherwise nothing happens |
| WindowsLowHooks.NativeSelfRemovalUninstalls | native/src/sogen_dart.cpp:422-442 | a callback, wherever in a run it fires, that asks for its own removal before another hook fired inside it has it uninstalled after the run |
| WindowsLowHooks.DartSelfRemovalUninstalls | lib/src/application.dart:1247-1318 | one that removes itself through its handle has it uninstalled and its callable closed after the run, whatever fired inside it |
| WindowsLowHooks.UnaskedStays | native/src/sogen_dart.cpp:422-442 | a hook whose removal nobody asks for in a run, at whatever depth, survives it |
| WindowsLowHooks.IdleRemovalTakesEffect | lib/src/application.dart:1261-1277 | between runs a removal uninstalls exactly that hook at once, and through the handle also closes its callable |
| WindowsLowHooks.InstalledHookStays | native/src/sogen_dart.cpp:261-266 | over every history an installed hook stays installed until its removal or disposal is asked for |
| WindowsLowHooks.DartRemovalTakesEffect | lib/src/application.dart:1247-1330 | from its removal in Dart on the user function never runs, and after the run, over every later history, the hook is gone; its callable is closed after the run |
| WindowsLowHooks.PerformAllUsesOpen | lib/src/application.dart:1247-1318 | during a run no callable is closed, so none is while it executes, and only open ones are called |
| WindowsLowHooks.HistoryUsesOpen | lib/src/application.dart:1247-1330 | over every history no callable of a low-level hook is closed while native code can call it or while it executes, a closed one is never called again, and disposal closes every one |
| WindowsLowHooks.App.StoreLowHook | native/src/sogen_dart.cpp:261-266 | a new id and one new emulator hook |
| WindowsLowHooks.App.Remove | native/src/sogen_dart.cpp:422-442 | deferred inside a callback, refused elsewhere in a run, deleted outside one |
| WindowsLowHooks.App.RemoveLowHook | native/src/sogen_dart.cpp:228-236 | a live hook is deleted once and an unknown id ignored |
| WindowsLowHooks.App.FlushRemovals | native/src/sogen_dart.cpp:243-249 | every deferred id is uninstalled, duplicates harmless, and the list is empty |
| WindowsLowHooks.App.StartRun | native/src/sogen_dart.cpp:648-666 | native run, in which every fired callback does what it asks for, flush and Dart's end of run together |
| WindowsLowHooks.App.RemoveFromDart | lib/src/application.dart:1261-1277 | between runs the native hook is deleted and the callable closed |
| WindowsLowHooks.App.Dispose | lib/src/application.dart:516-527 | refused during a run; otherwise no native hook is left and every callable is closed |
| Parameters.SplitParameters | tool/generate_bindings.py:231-250 | the loop computes the pieces between commas outside brackets, stripped and without empty ones |
| Parameters.SplitInvertsJoinIff | tool/generate_bindings.py:231-250 | splitting what was joined gives the parameters back exactly when they are not the single "void" |
| Parameters.TrailingCommaIgnored | tool/generate_bindings.py:231-250 | with a trailing comma it always gives them back |
| Parameters.BracketsProtect | tool/generate_bindings.py:231-250 | a text with a part in round or angle brackets is one parameter, whatever commas that part has |
| Parameters.BlanksIgnored | tool/generate_bindings.py:231-250 | blanks, tabs and line ends around a parameter are not part of it |
| Parameters.CParameterIsParameter | tool/generate_bindings.py:71-72 | a printed schema parameter is its type and name with a blank between unless the type ends in a star, and one the splitter keeps whole |
| Parameters.HeaderArity | tool/generate_bindings.py:115-126 | the splitter counts as many parameters in a generated callback type as the schema declares and reads each back |
| Names.PrefixedSpellings | lib/src/linux_callbacks.dart:444-453 | `on_` with snake case and `on` with Pascal case both normalise to the name |
| Names.CamelSpellingIff | lib/src/linux_callbacks.dart:444-453 | the bare name normalises to itself exactly when it does not look prefixed with "on" |
| Names.SnakeSpellingIff | lib/src/linux_callbacks.dart:444-453 | and so does its snake case |
| Names.SnakeInjective | tool/generate_bindings.py:21-22 | two names never share a snake-case spelling |
| Names.FirstAccepting | lib/src/linux_callbacks.dart:454-459 | the first slot that accepts the candidate, or none accepts it |
| Names.SlotFor | lib/src/linux_callbacks.dart:444-460 | the search loop finds that slot |
| Names.AllSpellingsFindSlot | lib/src/linux_callbacks.dart:444-460 | all four spellings of a slot's name find the same slot, its own exactly when no earlier one accepts the name |
| Names.AliasFindsSlot | lib/src/linux_callbacks.dart:444-460 | an alias works like a name: all its spellings find the first slot that accepts it |
| Names.ExceptionMeansSignal | lib/src/linux_callbacks.dart:444-460 | "exception" in its spellings sets the Linux signal callback |
| Names.SnakeFieldsUnreachable | lib/src/generated/types.g.dart:395-398 | a native field name with an underscore before a letter is matched by no spelling |
| Names.LinuxSpellings | api/schema.yaml:162-175 | each of the twelve Linux callbacks is found under all four spellings of its name |

## Left out

- The emulator, processor, disassembler, serializer, snapshots, file system and port mapper: abstracted by the assumptions above.
- Debugger.StartFollowsTrace: a symbol hook's callback that an emulator calls at a stop already, before its instruction, is not counted there.
- LinuxRuntime.Registry.Destroy: requires that no breakpoint is lifted, which `HistoryStaysQuiescent` proves of every state between requests.
- OwnedModels.Heap.SetRecordList: stands for the three list copiers, which differ only in the numeric fields beside the name.
- OwnedModels.Heap.GetModules: thread lists, stack frames and disassembly lists are copied in the same way and are not modelled.
- CallbackTable.LinuxCallbacks.SetBegin: `_set` is cut at the native call, because the callbacks executed inside that call are the other operations of the model.
- ApiHooks.Registry.DispatchAddress: the calling-convention helper that reads arguments is a parameter, and module events are the only activity of a callback that reaches the registry; attempts to change hooks are refused as the code does.
- HookLifetime.LinuxHooks.Dispose: error texts and the finalizer path, which closes the same callables, are not modelled.
- Dart's registry of Linux symbol hooks: it may change during a run, and assigning a key removes its old hook before native code is asked for the new one, so a refused assignment leaves the key without a hook.
- Dart's registry of Windows API hooks: it is refused during a run and closes callables at once; assigning a key removes the old hook first here too.
- ModuleNotifications.Registry.Set: adding the observer and replaying are taken not to throw; what a failure there leaves in the tables is modelled in CallbackTable and CallbackHistory.
- The Windows event callbacks: the Linux ones without module replay.
- Names.LinuxSpellings: the Windows slots are covered by `AllSpellingsFindSlot` but not listed.
- Parameters.SplitInvertsJoinIff: whitespace outside ASCII.
- The generator's regular-expression audits and schema validation.
- Threads, isolates, error texts, UTF-8 conversion and struct marshalling.
