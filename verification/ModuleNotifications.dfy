/**
 The native Linux callback table: installing it, the memory-violation observer that
 follows one of its slots, and telling a new module callback about modules that were
 loaded before it. Callbacks may install tables and load modules while they are told.
 */
module ModuleNotifications {
  import opened Prelude

  type Callback = nat

  datatype Module = Module(imageBase: Word, name: string)

  /** A null function pointer is an absent callback; `others` are the remaining slots. */
  datatype Table = Table(moduleLoad: Option<Callback>, memoryViolate: Option<Callback>, others: map<nat, Callback>)

  const NO_CALLBACKS := Table(None, None, map[])

  datatype Notice = Notice(callback: Callback, m: Module)

  datatype State = State(table: Table, observing: bool, modules: seq<Module>, log: seq<Notice>)

  /** Installing a table, with what its module callback does in each call of a replay; and
      a module load, with what the callback does when told. */
  datatype Event = Install(table: Table, reactions: seq<Reaction>) | Load(m: Module, reaction: Reaction)

  datatype Reaction = Reaction(events: seq<Event>)

  // ---- Ascending image base -------------------------------------------------------------

  function InsertByBase(sorted: seq<Module>, m: Module): seq<Module> {
    if sorted == [] || m.imageBase < sorted[0].imageBase then [m] + sorted
    else [sorted[0]] + InsertByBase(sorted[1..], m)
  }

  function SortByBase(modules: seq<Module>): seq<Module> {
    if modules == [] then []
    else InsertByBase(SortByBase(modules[..|modules| - 1]), modules[|modules| - 1])
  }

  predicate Ascending(modules: seq<Module>) {
    forall i, j | 0 <= i < j < |modules| :: modules[i].imageBase <= modules[j].imageBase
  }

  lemma {:induction false} InsertAdds(sorted: seq<Module>, m: Module)
    ensures multiset(InsertByBase(sorted, m)) == multiset(sorted) + multiset{m}
    decreases |sorted|
  {
    if sorted != [] && m.imageBase >= sorted[0].imageBase {
      InsertAdds(sorted[1..], m);
      assert sorted == [sorted[0]] + sorted[1..];
    }
  }

  lemma {:induction false} InsertKeepsAscending(sorted: seq<Module>, m: Module)
    requires Ascending(sorted)
    ensures Ascending(InsertByBase(sorted, m))
    decreases |sorted|
  {
    if sorted != [] && m.imageBase >= sorted[0].imageBase {
      InsertKeepsAscending(sorted[1..], m);
      InsertAdds(sorted[1..], m);
      var rest := InsertByBase(sorted[1..], m);
      forall j | 0 <= j < |rest|
        ensures sorted[0].imageBase <= rest[j].imageBase
      {
        assert rest[j] in multiset(rest);
      }
    }
  }

  lemma {:induction false} SortIsAscending(modules: seq<Module>)
    ensures Ascending(SortByBase(modules))
    ensures multiset(SortByBase(modules)) == multiset(modules)
    decreases |modules|
  {
    if modules != [] {
      var n := |modules| - 1;
      SortIsAscending(modules[..n]);
      assert multiset(modules) == multiset(modules[..n]) + multiset{modules[n]} by {
        assert modules == modules[..n] + [modules[n]];
      }
      InsertAdds(SortByBase(modules[..n]), modules[n]);
      InsertKeepsAscending(SortByBase(modules[..n]), modules[n]);
    }
  }

  // ---- What each event does ------------------------------------------------------------

  function NoticesFor(callback: Callback, modules: seq<Module>): seq<Notice> {
    seq(|modules|, i requires 0 <= i < |modules| => Notice(callback, modules[i]))
  }

  predicate Replays(s: State, table: Table) {
    table.moduleLoad.Some? && table.moduleLoad != s.table.moduleLoad
  }

  function Apply(s: State, e: Event): State
    decreases e
  {
    match e
    case Install(table, reactions) =>
      var installed := s.(table := table, observing := table.memoryViolate.Some?);
      if Replays(s, table) then Replay(installed, table.moduleLoad.value, SortByBase(s.modules), reactions)
          else installed
    case Load(m, reaction) =>
      var loaded := s.(modules := s.modules + [m]);
      if s.table.moduleLoad.None? then loaded
      else ApplyAll(loaded.(log := s.log + [Notice(s.table.moduleLoad.value, m)]), reaction.events)
  }

  function ApplyAll(s: State, es: seq<Event>): State
    decreases es
  {
    if es == [] then s else ApplyAll(Apply(s, es[0]), es[1..])
  }

  /** The callback and the modules are those captured at the start, whatever the callback
      does to the table or the modules meanwhile. */
  function Replay(s: State, callback: Callback, sorted: seq<Module>, reactions: seq<Reaction>): State
    decreases reactions, |sorted|
  {
    if sorted == [] then s
    else
      var told := s.(log := s.log + [Notice(callback, sorted[0])]);
      if reactions == [] then Replay(told, callback, sorted[1..], [])
      else Replay(ApplyAll(told, reactions[0].events), callback, sorted[1..], reactions[1..])
  }

  // ---- Exactly once --------------------------------------------------------------------

  /** The modules loaded by an event, in order, nested ones included, while a module
      callback stays installed. */
  function Loaded(e: Event): seq<Module>
    decreases e
  {
    match e
    case Install(_, _) => []
    case Load(m, reaction) => [m] + LoadedAll(reaction.events)
  }

  function LoadedAll(es: seq<Event>): seq<Module>
    decreases es
  {
    if es == [] then [] else Loaded(es[0]) + LoadedAll(es[1..])
  }

  function LoadedInReplay(count: nat, reactions: seq<Reaction>): seq<Module>
    decreases |reactions|
  {
    if count == 0 || reactions == [] then []
    else LoadedAll(reactions[0].events) + LoadedInReplay(count - 1, reactions[1..])
  }

  /** What a replay reports: each captured module, followed by those loaded when the
      callback was told of it. */
  function ReplayReports(sorted: seq<Module>, reactions: seq<Reaction>): seq<Module>
    decreases |sorted|
  {
    if sorted == [] then []
    else if reactions == [] then sorted
    else [sorted[0]] + LoadedAll(reactions[0].events) + ReplayReports(sorted[1..], reactions[1..])
  }

  /** Every table installed, at whatever depth, leaves the module callback as it is. */
  predicate Keeps(e: Event, callback: Callback)
    decreases e
  {
    match e
    case Install(table, _) => table.moduleLoad == Some(callback)
    case Load(_, reaction) => KeepsAll(reaction.events, callback)
  }

  predicate KeepsAll(es: seq<Event>, callback: Callback)
    decreases es
  {
    es == [] || (Keeps(es[0], callback) && KeepsAll(es[1..], callback))
  }

  predicate ReactionsKeep(reactions: seq<Reaction>, callback: Callback)
    decreases |reactions|
  {
    reactions == [] || (KeepsAll(reactions[0].events, callback) && ReactionsKeep(reactions[1..], callback))
  }

  /** From `s` to `t` the module callback stayed and was told of exactly `reported`, and
      exactly `loaded` was loaded. */
  ghost predicate Told(s: State, t: State, callback: Callback, reported: seq<Module>, loaded: seq<Module>) {
    && t.table.moduleLoad == Some(callback)
    && t.log == s.log + NoticesFor(callback, reported)
    && t.modules == s.modules + loaded
  }

  lemma NoticesAppend(log: seq<Notice>, callback: Callback, a: seq<Module>, b: seq<Module>)
    ensures log + NoticesFor(callback, a) + NoticesFor(callback, b) == log + NoticesFor(callback, a + b)
  {
    assert NoticesFor(callback, a + b) == NoticesFor(callback, a) + NoticesFor(callback, b);
  }

  lemma ToldAppend(s: State, t: State, u: State, callback: Callback, a: seq<Module>, b: seq<Module>, c: seq<Module>,
                   d: seq<Module>)
    requires Told(s, t, callback, a, b) && Told(t, u, callback, c, d)
    ensures Told(s, u, callback, a + c, b + d)
  {
    NoticesAppend(s.log, callback, a, c);
    assert s.modules + b + d == s.modules + (b + d);
  }

  lemma {:induction false} KeptEventTells(s: State, e: Event, callback: Callback)
    requires s.table.moduleLoad == Some(callback) && Keeps(e, callback)
    ensures Told(s, Apply(s, e), callback, Loaded(e), Loaded(e))
    decreases e
  {
    match e
    case Install(_, _) =>
      assert s.log + [] == s.log && s.modules + [] == s.modules;
    case Load(m, reaction) =>
      var told := s.(modules := s.modules + [m], log := s.log + [Notice(callback, m)]);
      assert Told(s, told, callback, [m], [m]);
      KeptCallbackSeesLoads(told, reaction.events, callback);
      var after := ApplyAll(told, reaction.events);
      ToldAppend(s, told, after, callback, [m], [m], LoadedAll(reaction.events), LoadedAll(reaction.events));
  }

  lemma {:induction false} KeptCallbackSeesLoads(s: State, es: seq<Event>, callback: Callback)
    requires s.table.moduleLoad == Some(callback) && KeepsAll(es, callback)
    ensures Told(s, ApplyAll(s, es), callback, LoadedAll(es), LoadedAll(es))
    decreases es
  {
    if es == [] {
      assert s.log + [] == s.log && s.modules + [] == s.modules;
    } else {
      var t := Apply(s, es[0]);
      KeptEventTells(s, es[0], callback);
      KeptCallbackSeesLoads(t, es[1..], callback);
      var l, r := Loaded(es[0]), LoadedAll(es[1..]);
      ToldAppend(s, t, ApplyAll(t, es[1..]), callback, l, l, r, r);
    }
  }

  lemma ToldOne(s: State, callback: Callback, m: Module)
    requires s.table.moduleLoad == Some(callback)
    ensures Told(s, s.(log := s.log + [Notice(callback, m)]), callback, [m], [])
  {
    assert s.modules + [] == s.modules;
  }

  lemma {:induction false} ReplayTells(s: State, callback: Callback, sorted: seq<Module>, reactions: seq<Reaction>)
    requires s.table.moduleLoad == Some(callback) && ReactionsKeep(reactions, callback)
    ensures Told(s, Replay(s, callback, sorted, reactions), callback,
                 ReplayReports(sorted, reactions), LoadedInReplay(|sorted|, reactions))
    decreases |sorted|
  {
    if sorted == [] {
      assert s.log + [] == s.log && s.modules + [] == s.modules;
    } else {
      var told := s.(log := s.log + [Notice(callback, sorted[0])]);
      ToldOne(s, callback, sorted[0]);
      if reactions == [] {
        ReplayTells(told, callback, sorted[1..], []);
        var end := Replay(told, callback, sorted[1..], []);
        QuietReports(sorted[1..]);
        ToldAppend(s, told, end, callback, [sorted[0]], [], sorted[1..], []);
        assert [sorted[0]] + sorted[1..] == sorted;
      } else {
        var es := reactions[0].events;
        var after := ApplyAll(told, es);
        KeptCallbackSeesLoads(told, es, callback);
        ToldAppend(s, told, after, callback, [sorted[0]], [], LoadedAll(es), LoadedAll(es));
        ReplayTells(after, callback, sorted[1..], reactions[1..]);
        var end := Replay(after, callback, sorted[1..], reactions[1..]);
        assert [] + LoadedAll(es) == LoadedAll(es);
        ToldAppend(s, after, end, callback, [sorted[0]] + LoadedAll(es), LoadedAll(es),
                   ReplayReports(sorted[1..], reactions[1..]), LoadedInReplay(|sorted| - 1, reactions[1..]));
      }
    }
  }

  lemma QuietReports(sorted: seq<Module>)
    ensures ReplayReports(sorted, []) == sorted && LoadedInReplay(|sorted|, []) == []
  {
  }

  lemma CountOneReport(m: Module, loaded: seq<Module>, reports: seq<Module>, rest: seq<Module>, inside: seq<Module>)
    requires multiset(reports) == multiset(rest) + multiset(inside)
    ensures multiset([m] + loaded + reports) == multiset([m] + rest) + multiset(loaded + inside)
  {
  }

  /** A replay reports the captured modules and those loaded during it, each once. */
  lemma {:induction false} ReportsAreModules(sorted: seq<Module>, reactions: seq<Reaction>)
    ensures multiset(ReplayReports(sorted, reactions))
            == multiset(sorted) + multiset(LoadedInReplay(|sorted|, reactions))
    decreases |sorted|
  {
    if sorted == [] {
    } else if reactions == [] {
      QuietReports(sorted);
    } else {
      var m, rest, later := sorted[0], sorted[1..], reactions[1..];
      var loaded := LoadedAll(reactions[0].events);
      ReportsAreModules(rest, later);
      CountOneReport(m, loaded, ReplayReports(rest, later), rest, LoadedInReplay(|rest|, later));
      assert [m] + rest == sorted;
      assert ReplayReports(sorted, reactions) == [m] + loaded + ReplayReports(rest, later);
      assert LoadedInReplay(|sorted|, reactions) == loaded + LoadedInReplay(|rest|, later);
    }
  }

  lemma {:induction false} QuietReplay(sorted: seq<Module>, reactions: seq<Reaction>)
    requires LoadedInReplay(|sorted|, reactions) == []
    ensures ReplayReports(sorted, reactions) == sorted
    decreases |sorted|
  {
    if sorted != [] && reactions != [] {
      var rest := sorted[1..];
      assert LoadedAll(reactions[0].events) == [] && LoadedInReplay(|rest|, reactions[1..]) == [];
      QuietReplay(rest, reactions[1..]);
      assert sorted == [sorted[0]] + rest;
    }
  }

  lemma InstallThen(s: State, e: Event, es: seq<Event>)
    ensures ApplyAll(s, [e] + es) == ApplyAll(Apply(s, e), es)
  {
    assert ([e] + es)[1..] == es;
  }

  /** From its installation on, for as long as it stays installed, whatever happens to the
      other slots, and whatever it does itself while it is told, a module callback is told
      of each module already loaded, in ascending image base, of each module loaded
      meanwhile or later, and of nothing else: every module present at the end was
      reported exactly once. */
  lemma NotifiedExactlyOnce(s: State, table: Table, reactions: seq<Reaction>, es: seq<Event>, callback: Callback)
    requires table.moduleLoad == Some(callback) && s.table.moduleLoad != Some(callback)
    requires ReactionsKeep(reactions, callback) && KeepsAll(es, callback)
    ensures var sorted := SortByBase(s.modules);
            var t := ApplyAll(s, [Install(table, reactions)] + es);
            var reported := ReplayReports(sorted, reactions) + LoadedAll(es);
            && t.log == s.log + NoticesFor(callback, reported)
            && multiset(reported) == multiset(t.modules)
            && Ascending(sorted)
            && (LoadedInReplay(|sorted|, reactions) == [] ==> reported == sorted + LoadedAll(es))
  {
    var sorted := SortByBase(s.modules);
    var installed := s.(table := table, observing := table.memoryViolate.Some?);
    var replayed := Replay(installed, callback, sorted, reactions);
    var inside := LoadedInReplay(|sorted|, reactions);
    InstallThen(s, Install(table, reactions), es);
    ReplayTells(installed, callback, sorted, reactions);
    KeptCallbackSeesLoads(replayed, es, callback);
    ToldAppend(installed, replayed, ApplyAll(replayed, es), callback, ReplayReports(sorted, reactions), inside,
               LoadedAll(es), LoadedAll(es));
    ReportsAreModules(sorted, reactions);
    if inside == [] {
      QuietReplay(sorted, reactions);
    }
    SortIsAscending(s.modules);
    SameModules(s.modules, sorted, ReplayReports(sorted, reactions), inside, LoadedAll(es));
  }

  lemma SameModules(modules: seq<Module>, sorted: seq<Module>, reports: seq<Module>, inside: seq<Module>,
                    later: seq<Module>)
    requires multiset(sorted) == multiset(modules) && multiset(reports) == multiset(sorted) + multiset(inside)
    ensures multiset(reports + later) == multiset(modules + (inside + later))
  {
  }

  // ---- The installed table ----------------------------------------------------------------

  predicate Installs(e: Event)
    decreases e
  {
    match e
    case Install(_, _) => true
    case Load(_, reaction) => InstallsAny(reaction.events)
  }

  predicate InstallsAny(es: seq<Event>)
    decreases es
  {
    es != [] && (Installs(es[0]) || InstallsAny(es[1..]))
  }

  predicate ReactionsInstall(reactions: seq<Reaction>)
    decreases |reactions|
  {
    reactions != [] && (InstallsAny(reactions[0].events) || ReactionsInstall(reactions[1..]))
  }

  ghost predicate TableKept(s: State, t: State) {
    t.table == s.table && t.observing == s.observing && (s.table.moduleLoad.None? ==> t.log == s.log)
  }

  lemma {:induction false} LoadKeepsTable(s: State, e: Event)
    requires !Installs(e)
    ensures TableKept(s, Apply(s, e))
    decreases e
  {
    match e
    case Load(m, reaction) =>
      if s.table.moduleLoad.Some? {
        var told := s.(modules := s.modules + [m], log := s.log + [Notice(s.table.moduleLoad.value, m)]);
        TableStays(told, reaction.events);
      }
  }

  /** Loads leave the table alone, and without a module callback nobody is told of them. */
  lemma {:induction false} TableStays(s: State, es: seq<Event>)
    requires !InstallsAny(es)
    ensures TableKept(s, ApplyAll(s, es))
    decreases es
  {
    if es != [] {
      LoadKeepsTable(s, es[0]);
      TableStays(Apply(s, es[0]), es[1..]);
    }
  }

  lemma {:induction false} TableStaysInReplay(s: State, callback: Callback, sorted: seq<Module>,
                                              reactions: seq<Reaction>)
    requires !ReactionsInstall(reactions)
    ensures var t := Replay(s, callback, sorted, reactions); t.table == s.table && t.observing == s.observing
    decreases |sorted|
  {
    if sorted != [] {
      var told := s.(log := s.log + [Notice(callback, sorted[0])]);
      if reactions == [] {
        TableStaysInReplay(told, callback, sorted[1..], []);
      } else {
        TableStays(told, reactions[0].events);
        TableStaysInReplay(ApplyAll(told, reactions[0].events), callback, sorted[1..], reactions[1..]);
      }
    }
  }

  /** Until another table is installed, every slot holds what the last one says, and
      violations are observed exactly while its violation slot is set. */
  lemma InstalledTableStays(s: State, table: Table, reactions: seq<Reaction>, es: seq<Event>)
    requires !ReactionsInstall(reactions) && !InstallsAny(es)
    ensures var t := ApplyAll(s, [Install(table, reactions)] + es);
            t.table == table && (t.observing <==> table.memoryViolate.Some?)
  {
    var installed := s.(table := table, observing := table.memoryViolate.Some?);
    InstallThen(s, Install(table, reactions), es);
    if Replays(s, table) {
      TableStaysInReplay(installed, table.moduleLoad.value, SortByBase(s.modules), reactions);
    }
    TableStays(Apply(s, Install(table, reactions)), es);
  }

  // ---- A callback that is replaced while it is told ---------------------------------------

  /** The notices of `part` are found in `whole`, in this order. */
  predicate Within(part: seq<Notice>, whole: seq<Notice>)
    decreases |whole|
  {
    part == []
    || (whole != [] && if part[0] == whole[0] then Within(part[1..], whole[1..]) else Within(part, whole[1..]))
  }

  lemma {:induction false} WithinLater(part: seq<Notice>, before: seq<Notice>, whole: seq<Notice>)
    requires Within(part, whole)
    ensures Within(part, before + whole)
    decreases |before|, |part|
  {
    if before == [] {
      assert before + whole == whole;
    } else if part != [] {
      assert (before + whole)[1..] == before[1..] + whole;
      if part[0] == before[0] {
        WithinTail(part, whole);
        WithinLater(part[1..], before[1..], whole);
      } else {
        WithinLater(part, before[1..], whole);
      }
    }
  }

  lemma {:induction false} WithinTail(part: seq<Notice>, whole: seq<Notice>)
    requires part != [] && Within(part, whole)
    ensures Within(part[1..], whole)
    decreases |whole|, 0
  {
    if part[0] == whole[0] {
      assert whole == [whole[0]] + whole[1..];
      WithinOneLater(part[1..], whole[0], whole[1..]);
    } else {
      WithinTail(part, whole[1..]);
      assert whole == [whole[0]] + whole[1..];
      WithinOneLater(part[1..], whole[0], whole[1..]);
    }
  }

  lemma {:induction false} WithinOneLater(part: seq<Notice>, first: Notice, whole: seq<Notice>)
    requires Within(part, whole)
    ensures Within(part, [first] + whole)
    decreases |whole|, 1
  {
    assert ([first] + whole)[1..] == whole;
    if part != [] && part[0] == first {
      WithinTail(part, whole);
    }
  }

  lemma {:induction false} EventExtendsLog(s: State, e: Event)
    ensures s.log <= Apply(s, e).log
    decreases e
  {
    match e
    case Install(table, reactions) =>
      if Replays(s, table) {
        var installed := s.(table := table, observing := table.memoryViolate.Some?);
        ReplayExtendsLog(installed, table.moduleLoad.value, SortByBase(s.modules), reactions);
      }
    case Load(m, reaction) =>
      if s.table.moduleLoad.Some? {
        var told := s.(modules := s.modules + [m], log := s.log + [Notice(s.table.moduleLoad.value, m)]);
        EventsExtendLog(told, reaction.events);
      }
  }

  lemma {:induction false} EventsExtendLog(s: State, es: seq<Event>)
    ensures s.log <= ApplyAll(s, es).log
    decreases es
  {
    if es != [] {
      EventExtendsLog(s, es[0]);
      EventsExtendLog(Apply(s, es[0]), es[1..]);
    }
  }

  lemma {:induction false} ReplayExtendsLog(s: State, callback: Callback, sorted: seq<Module>, reactions: seq<Reaction>)
    ensures s.log <= Replay(s, callback, sorted, reactions).log
    decreases reactions, |sorted|
  {
    if sorted != [] {
      var told := s.(log := s.log + [Notice(callback, sorted[0])]);
      if reactions == [] {
        ReplayExtendsLog(told, callback, sorted[1..], []);
      } else {
        EventsExtendLog(told, reactions[0].events);
        ReplayExtendsLog(ApplyAll(told, reactions[0].events), callback, sorted[1..], reactions[1..]);
      }
    }
  }

  /** Whatever the callback does while it is told, replacing or removing itself included,
      the replay reports every module captured at its start to it, in ascending order. */
  lemma {:induction false} ReplayReportsAll(s: State, callback: Callback, sorted: seq<Module>, reactions: seq<Reaction>)
    ensures var t := Replay(s, callback, sorted, reactions);
            s.log <= t.log && Within(NoticesFor(callback, sorted), t.log[|s.log|..])
    decreases |sorted|
  {
    ReplayExtendsLog(s, callback, sorted, reactions);
    if sorted != [] {
      var first := Notice(callback, sorted[0]);
      var told := s.(log := s.log + [first]);
      var next := if reactions == [] then told else ApplyAll(told, reactions[0].events);
      var rest := if reactions == [] then [] else reactions[1..];
      if reactions != [] {
        EventsExtendLog(told, reactions[0].events);
      }
      ReplayReportsAll(next, callback, sorted[1..], rest);
      var t := Replay(next, callback, sorted[1..], rest);
      var meanwhile := next.log[|told.log|..];
      WithinLater(NoticesFor(callback, sorted[1..]), meanwhile, t.log[|next.log|..]);
      assert t.log[|s.log|..] == [first] + (meanwhile + t.log[|next.log|..]);
      assert ([first] + (meanwhile + t.log[|next.log|..]))[1..] == meanwhile + t.log[|next.log|..];
      assert NoticesFor(callback, sorted)[1..] == NoticesFor(callback, sorted[1..]);
    }
  }

  /** So installing a new module callback always reports each module loaded at that time
      to it, whatever happens during the replay. */
  lemma InstallReportsAll(s: State, table: Table, reactions: seq<Reaction>)
    requires Replays(s, table)
    ensures var t := Apply(s, Install(table, reactions));
            s.log <= t.log && Within(NoticesFor(table.moduleLoad.value, SortByBase(s.modules)), t.log[|s.log|..])
  {
    var installed := s.(table := table, observing := table.memoryViolate.Some?);
    ReplayReportsAll(installed, table.moduleLoad.value, SortByBase(s.modules), reactions);
  }

  /** A callback that was taken out and put back is told of everything again. */
  lemma ReinstallingReplays(s: State, without: Table, table: Table, callback: Callback)
    requires s.table.moduleLoad == Some(callback) && without.moduleLoad == None && table.moduleLoad == Some(callback)
    ensures ApplyAll(s, [Install(without, []), Install(table, [])]).log
            == s.log + NoticesFor(callback, SortByBase(s.modules))
  {
    var out := Apply(s, Install(without, []));
    InstallThen(s, Install(without, []), [Install(table, [])]);
    InstallThen(out, Install(table, []), []);
    assert [Install(without, [])] + [Install(table, [])] == [Install(without, []), Install(table, [])];
    assert [Install(table, [])] + [] == [Install(table, [])];
    var installed := out.(table := table, observing := table.memoryViolate.Some?);
    ReplayTells(installed, callback, SortByBase(s.modules), []);
    QuietReports(SortByBase(s.modules));
  }

  // ---- The registry ----------------------------------------------------------------------

  class Registry {
    // The emulator.
    var modules: seq<Module>
    var observers: set<nat>
    var nextObserver: nat
    // The registry.
    var callbacks: Table
    var memoryViolateObserver: Option<nat>
    var log: seq<Notice>

    /** One observer while the memory-violation slot is set, none otherwise. */
    ghost predicate Valid()
      reads this
    {
      && (memoryViolateObserver.Some? <==> callbacks.memoryViolate.Some?)
      && observers == (if memoryViolateObserver.Some? then {memoryViolateObserver.value} else {})
      && (forall o | o in observers :: o < nextObserver)
    }

    ghost function Snapshot(): State
      reads this
    {
      State(callbacks, memoryViolateObserver.Some?, modules, log)
    }

    constructor (modules: seq<Module>)
      ensures Valid() && Snapshot() == State(NO_CALLBACKS, false, modules, [])
    {
      this.modules := modules;
      observers, nextObserver, memoryViolateObserver := {}, 1, None;
      callbacks, log := NO_CALLBACKS, [];
    }

    /** A change of any other slot leaves the observer and the module log alone. */
    method Set(table: Table, reactions: seq<Reaction>)
      requires Valid()
      modifies this
      ensures Valid() && Snapshot() == Apply(old(Snapshot()), Install(table, reactions))
      decreases reactions, 1
    {
      var oldMemoryViolate := callbacks.memoryViolate;
      var oldModuleLoad := callbacks.moduleLoad;
      callbacks := table;
      if oldMemoryViolate != callbacks.memoryViolate {
        RefreshMemoryViolateObserver();
      }
      if callbacks.moduleLoad.Some? && oldModuleLoad != callbacks.moduleLoad {
        ReplayModules(callbacks.moduleLoad.value, reactions);
      }
    }

    method RefreshMemoryViolateObserver()
      requires observers == if memoryViolateObserver.Some? then {memoryViolateObserver.value} else {}
      requires forall o | o in observers :: o < nextObserver
      modifies `observers, `nextObserver, `memoryViolateObserver
      ensures Valid()
      ensures old(memoryViolateObserver).Some? && callbacks.memoryViolate.Some? ==>
              memoryViolateObserver == old(memoryViolateObserver)
    {
      if callbacks.memoryViolate.None? {
        if memoryViolateObserver.Some? {
          observers := observers - {memoryViolateObserver.value};
          memoryViolateObserver := None;
        }
        return;
      }
      if memoryViolateObserver.Some? {
        return;
      }
      memoryViolateObserver := Some(nextObserver);
      observers := observers + {nextObserver};
      nextObserver := nextObserver + 1;
    }

    method ReplayModules(callback: Callback, reactions: seq<Reaction>)
      requires Valid()
      modifies this
      ensures Valid() && Snapshot() == Replay(old(Snapshot()), callback, SortByBase(old(modules)), reactions)
      decreases reactions, 0
    {
      var sorted := SortByBase(modules);
      var i := 0;
      while i < |sorted|
        invariant 0 <= i <= |sorted| && Valid()
        invariant Replay(Snapshot(), callback, sorted[i..], Remaining(reactions, i))
               == Replay(old(Snapshot()), callback, sorted, reactions)
      {
        assert sorted[i..][0] == sorted[i] && sorted[i..][1..] == sorted[i + 1..];
        log := log + [Notice(callback, sorted[i])];
        if i < |reactions| {
          assert reactions[i..][1..] == reactions[i + 1..];
          PerformAll(reactions[i].events);
        }
        i := i + 1;
      }
    }

    method OnModuleLoad(m: Module, reaction: Reaction)
      requires Valid()
      modifies this
      ensures Valid() && Snapshot() == Apply(old(Snapshot()), Load(m, reaction))
      decreases reaction
    {
      modules := modules + [m];
      if callbacks.moduleLoad.Some? {
        log := log + [Notice(callbacks.moduleLoad.value, m)];
        PerformAll(reaction.events);
      }
    }

    method Perform(e: Event)
      requires Valid()
      modifies this
      ensures Valid() && Snapshot() == Apply(old(Snapshot()), e)
      decreases e
    {
      match e
      case Install(table, reactions) => Set(table, reactions);
      case Load(m, reaction) => OnModuleLoad(m, reaction);
    }

    method PerformAll(es: seq<Event>)
      requires Valid()
      modifies this
      ensures Valid() && Snapshot() == ApplyAll(old(Snapshot()), es)
      decreases es
    {
      if es != [] {
        Perform(es[0]);
        PerformAll(es[1..]);
      }
    }
  }

  function Remaining(reactions: seq<Reaction>, i: nat): seq<Reaction> {
    if i <= |reactions| then reactions[i..] else []
  }
}
