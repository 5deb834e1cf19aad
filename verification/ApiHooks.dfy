/**
 The Windows API hook registry. Its address index caches "every module times every
 entry times every named address"; the theorems say it always agrees with that scan,
 so dispatching through it calls what a linear scan would call, in the same order.
 */
module ApiHooks {
  import opened Prelude
  import opened HookKeys

  datatype Convention = Cdecl | Stdcall | Fastcall | Syscall

  function ToConvention(value: int): Option<Convention> {
    match value
    case 0 => Some(Cdecl)
    case 1 => Some(Stdcall)
    case 2 => Some(Fastcall)
    case 3 => Some(Syscall)
    case _ => None
  }

  datatype Entry = Entry(id: HookId, target: Target, convention: Convention, parameterCount: nat, callback: nat)

  datatype Keyed = Keyed(key: string, entry: Entry)

  datatype Named = Named(address: Word, name: string)

  datatype Module = Module(name: string, addressNames: seq<Named>)

  datatype Hit = Hit(key: string, id: HookId, moduleName: string, exportName: string, address: Word)

  // ---- entries_: an ordered map from keys ----------------------------------------

  predicate Less(a: string, b: string) {
    b != "" && (a == "" || a[0] < b[0] || (a[0] == b[0] && Less(a[1..], b[1..])))
  }

  lemma {:induction false} LessTransitive(a: string, b: string, c: string)
    requires Less(a, b) && Less(b, c)
    ensures Less(a, c)
    decreases |a|
  {
    if a != "" && a[0] == b[0] && b[0] == c[0] {
      LessTransitive(a[1..], b[1..], c[1..]);
    }
  }

  lemma {:induction false} LessTotal(a: string, b: string)
    ensures Less(a, b) || Less(b, a) || a == b
    ensures !(Less(a, b) && Less(b, a)) && !Less(a, a)
    decreases |a|
  {
    if a != "" && b != "" {
      LessTotal(a[1..], b[1..]);
      LessTotal(a[1..], a[1..]);
      assert a == [a[0]] + a[1..] && b == [b[0]] + b[1..];
    } else if a != "" {
      LessTotal(a[1..], a[1..]);
    }
  }

  ghost predicate Ordered(entries: seq<Keyed>) {
    forall i, j | 0 <= i < j < |entries| :: Less(entries[i].key, entries[j].key)
  }

  function Find(entries: seq<Keyed>, key: string): Option<Entry> {
    if entries == [] then None
    else if entries[0].key == key then Some(entries[0].entry)
    else Find(entries[1..], key)
  }

  function Put(entries: seq<Keyed>, key: string, entry: Entry): seq<Keyed> {
    if entries == [] || Less(key, entries[0].key) then [Keyed(key, entry)] + entries
    else if entries[0].key == key then [Keyed(key, entry)] + entries[1..]
    else [entries[0]] + Put(entries[1..], key, entry)
  }

  lemma {:induction false} PutKeepsOrder(entries: seq<Keyed>, key: string, entry: Entry)
    requires Ordered(entries)
    ensures Ordered(Put(entries, key, entry))
    ensures forall k | k in Put(entries, key, entry) :: k == Keyed(key, entry) || (k in entries && k.key != key)
    decreases |entries|
  {
    if entries != [] {
      LessTotal(key, entries[0].key);
      if Less(key, entries[0].key) {
        forall j | 0 <= j < |entries|
          ensures Less(key, entries[j].key) && entries[j].key != key
        {
          if j > 0 {
            LessTransitive(key, entries[0].key, entries[j].key);
          }
          LessTotal(key, entries[j].key);
        }
      } else if entries[0].key == key {
        forall j | 0 < j < |entries|
          ensures entries[j].key != key
        {
          LessTotal(key, entries[j].key);
        }
      } else {
        PutKeepsOrder(entries[1..], key, entry);
        var rest := Put(entries[1..], key, entry);
        forall j | 0 <= j < |rest|
          ensures Less(entries[0].key, rest[j].key)
        {
          assert rest[j] in rest;
        }
      }
    }
  }

  lemma {:induction false} FindAfterPut(entries: seq<Keyed>, key: string, entry: Entry, other: string)
    requires Ordered(entries)
    ensures Find(Put(entries, key, entry), other) == if other == key then Some(entry) else Find(entries, other)
    decreases |entries|
  {
    if entries != [] && !Less(key, entries[0].key) && entries[0].key != key {
      FindAfterPut(entries[1..], key, entry, other);
      assert ([entries[0]] + Put(entries[1..], key, entry))[1..] == Put(entries[1..], key, entry);
    }
  }

  lemma {:induction false} FindListed(entries: seq<Keyed>, i: nat)
    requires Ordered(entries) && i < |entries|
    ensures Find(entries, entries[i].key) == Some(entries[i].entry)
    decreases |entries|
  {
    if i > 0 {
      LessTotal(entries[0].key, entries[i].key);
      FindListed(entries[1..], i - 1);
    }
  }

  // ---- The linear scan -------------------------------------------------------------

  function LowerAll(s: string): (r: string)
    ensures |r| == |s|
  {
    seq(|s|, i requires 0 <= i < |s| => Lower(s[i]))
  }

  /** Everything before the last dot, or the whole name when there is none. */
  function Stem(s: string): string {
    if '.' !in s then s
    else if s[|s| - 1] == '.' then s[..|s| - 1]
    else Stem(s[..|s| - 1])
  }

  predicate MatchesModule(target: Target, m: Module) {
    target.filter.None? ||
    (LowerAll(target.filter.value) == LowerAll(m.name) || LowerAll(target.filter.value) == Stem(LowerAll(m.name)))
  }

  lemma {:induction false} StemDropsExtension(stem: string, extension: string)
    requires '.' !in extension
    ensures Stem(stem + "." + extension) == stem
    ensures Stem(extension) == extension
    decreases |extension|
  {
    var s := stem + "." + extension;
    assert s[|stem|] == '.';
    if extension == "" {
      assert s[..|s| - 1] == stem;
    } else {
      var shorter := extension[..|extension| - 1];
      assert s[..|s| - 1] == stem + "." + shorter;
      assert s[|s| - 1] == extension[|extension| - 1] && extension[|extension| - 1] in extension;
      StemDropsExtension(stem, shorter);
    }
  }

  lemma LowerAppend(a: string, b: string)
    ensures LowerAll(a + b) == LowerAll(a) + LowerAll(b)
  {
  }

  lemma LowerKeepsDots(s: string)
    requires '.' !in s
    ensures '.' !in LowerAll(s)
  {
    assert forall i | 0 <= i < |s| :: s[i] in s;
  }

  /** The same text but for the case of ASCII letters. */
  predicate SameText(a: string, b: string) {
    |a| == |b| && forall i | 0 <= i < |a| :: SameLetter(a[i], b[i])
  }

  predicate SameLetter(c: char, d: char) {
    || c == d
    || ('A' <= c <= 'Z' && d as int == c as int + 32)
    || ('A' <= d <= 'Z' && c as int == d as int + 32)
  }

  lemma LowerIff(c: char, d: char)
    ensures Lower(c) == Lower(d) <==> SameLetter(c, d)
  {
    assert Lower(c) as int == if IsUpper(c) then c as int + 32 else c as int;
    assert Lower(d) as int == if IsUpper(d) then d as int + 32 else d as int;
  }

  lemma LowerAllIff(a: string, b: string)
    ensures LowerAll(a) == LowerAll(b) <==> SameText(a, b)
  {
    if |a| == |b| {
      forall i | 0 <= i < |a|
        ensures LowerAll(a)[i] == LowerAll(b)[i] <==> SameLetter(a[i], b[i])
      {
        LowerIff(a[i], b[i]);
      }
      assert LowerAll(a) == LowerAll(b) <==> forall i | 0 <= i < |a| :: LowerAll(a)[i] == LowerAll(b)[i];
    } else {
      assert |LowerAll(a)| != |LowerAll(b)|;
    }
  }

  /** A filter means a module whatever the case of either, with or without the module's
      last extension, and nothing else. */
  lemma FilterMatchesIff(filter: string, name: string, stem: string, extension: string, addressNames: seq<Named>)
    requires '.' !in extension
    ensures MatchesModule(Target(Some(filter), name), Module(stem + "." + extension, addressNames)) <==>
            SameText(filter, stem) || SameText(filter, stem + "." + extension)
    ensures MatchesModule(Target(Some(filter), name), Module(extension, addressNames)) <==>
            SameText(filter, extension)
    ensures MatchesModule(Target(None, name), Module(stem, addressNames))
  {
    LowerAppend(stem + ".", extension);
    LowerAppend(stem, ".");
    assert LowerAll(".") == ".";
    LowerKeepsDots(extension);
    StemDropsExtension(LowerAll(stem), LowerAll(extension));
    LowerAllIff(filter, stem);
    LowerAllIff(filter, extension);
    LowerAllIff(filter, stem + "." + extension);
  }

  /** `before`, then the hits among the first `n` named addresses of a module. */
  function NameHits(before: seq<Hit>, k: Keyed, m: Module, n: nat, address: Word): seq<Hit>
    requires n <= |m.addressNames|
  {
    if n == 0 then before
    else
      var earlier := NameHits(before, k, m, n - 1, address);
      if Names(k, m.addressNames[n - 1], address) then earlier + [HitOf(k, m, address)] else earlier
  }

  /** `before`, then an entry's hits in a module, if the module passes its filter. */
  function EntryHits(before: seq<Hit>, k: Keyed, m: Module, address: Word): seq<Hit> {
    if MatchesModule(k.entry.target, m) then NameHits(before, k, m, |m.addressNames|, address) else before
  }

  /** `before`, then the hits of the first `n` entries in a module. */
  function ModuleHits(before: seq<Hit>, entries: seq<Keyed>, n: nat, m: Module, address: Word): seq<Hit>
    requires n <= |entries|
  {
    if n == 0 then before
    else EntryHits(ModuleHits(before, entries, n - 1, m, address), entries[n - 1], m, address)
  }

  /** The hits of all entries in the first `n` modules. */
  function ModulesHits(entries: seq<Keyed>, modules: seq<Module>, n: nat, address: Word): seq<Hit>
    requires n <= |modules|
  {
    if n == 0 then []
    else ModuleHits(ModulesHits(entries, modules, n - 1, address), entries, |entries|, modules[n - 1], address)
  }

  /** Everything hooked at an address: modules in order, and for each the entries in
      key order. */
  function HitsAt(entries: seq<Keyed>, modules: seq<Module>, address: Word): seq<Hit> {
    ModulesHits(entries, modules, |modules|, address)
  }

  predicate Names(k: Keyed, named: Named, address: Word) {
    named.address == address && named.name == k.entry.target.name
  }

  function HitOf(k: Keyed, m: Module, address: Word): Hit {
    Hit(k.key, k.entry.id, m.name, k.entry.target.name, address)
  }

  lemma {:induction false} NoEntriesNoHits(modules: seq<Module>, n: nat, address: Word)
    requires n <= |modules|
    ensures ModulesHits([], modules, n, address) == []
    decreases n
  {
    if n > 0 {
      NoEntriesNoHits(modules, n - 1, address);
    }
  }

  ghost predicate IsHit(k: Keyed, m: Module, n: nat, address: Word, h: Hit)
    requires n <= |m.addressNames|
  {
    h == HitOf(k, m, address) && exists i :: 0 <= i < n && Names(k, m.addressNames[i], address)
  }

  lemma {:induction false} NameHitsAre(before: seq<Hit>, k: Keyed, m: Module, n: nat, address: Word, h: Hit)
    requires n <= |m.addressNames|
    ensures h in NameHits(before, k, m, n, address) <==> h in before || IsHit(k, m, n, address, h)
    decreases n
  {
    if n > 0 {
      NameHitsAre(before, k, m, n - 1, address, h);
    }
  }

  ghost predicate IsModuleHit(entries: seq<Keyed>, n: nat, m: Module, address: Word, h: Hit)
    requires n <= |entries|
  {
    exists e :: 0 <= e < n && MatchesModule(entries[e].entry.target, m)
        && IsHit(entries[e], m, |m.addressNames|, address, h)
  }

  lemma {:induction false} ModuleHitsAre(before: seq<Hit>, entries: seq<Keyed>, n: nat, m: Module, address: Word,
                                         h: Hit)
    requires n <= |entries|
    ensures h in ModuleHits(before, entries, n, m, address) <==> h in before || IsModuleHit(entries, n, m, address, h)
    decreases n
  {
    if n > 0 {
      ModuleHitsAre(before, entries, n - 1, m, address, h);
      NameHitsAre(ModuleHits(before, entries, n - 1, m, address), entries[n - 1], m, |m.addressNames|, address, h);
    }
  }

  /** Independently of any order, an address is hit for a key exactly when some module
      that passes the key's filter names that address with the key's export. */
  lemma {:induction false} HitsAreMatches(entries: seq<Keyed>, modules: seq<Module>, n: nat, address: Word, h: Hit)
    requires n <= |modules|
    ensures h in ModulesHits(entries, modules, n, address) <==>
            exists i :: 0 <= i < n && IsModuleHit(entries, |entries|, modules[i], address, h)
    decreases n
  {
    if n > 0 {
      HitsAreMatches(entries, modules, n - 1, address, h);
      ModuleHitsAre(ModulesHits(entries, modules, n - 1, address), entries, |entries|, modules[n - 1], address, h);
    }
  }

  // ---- The order of the scan ----------------------------------------------------------

  /** A name of a module, as an entry's match: which module, which entry, which name. */
  datatype Place = Place(m: nat, e: nat, n: nat)

  predicate Before(p: Place, q: Place) {
    p.m < q.m || (p.m == q.m && (p.e < q.e || (p.e == q.e && p.n < q.n)))
  }

  predicate IsMatch(entries: seq<Keyed>, modules: seq<Module>, address: Word, p: Place) {
    && p.m < |modules| && p.e < |entries| && p.n < |modules[p.m].addressNames|
    && MatchesModule(entries[p.e].entry.target, modules[p.m])
    && modules[p.m].addressNames[p.n] == Named(address, entries[p.e].entry.target.name)
  }

  /** The hit says whose it is, where it lies and what is found there. */
  predicate IsHitOf(entries: seq<Keyed>, modules: seq<Module>, p: Place, address: Word, hit: Hit) {
    && p.m < |modules| && p.e < |entries| && p.n < |modules[p.m].addressNames|
    && var k, m := entries[p.e], modules[p.m];
       hit == Hit(k.key, k.entry.id, m.name, m.addressNames[p.n].name, address)
  }

  /** The hits are those of the matches before `bound`, each once, by module, then by entry,
      then by name. */
  ghost predicate Enumerates(entries: seq<Keyed>, modules: seq<Module>, address: Word, hits: seq<Hit>,
                             places: seq<Place>, bound: Place) {
    && |places| == |hits|
    && (forall i, j | 0 <= i < j < |places| :: Before(places[i], places[j]))
    && (forall i | 0 <= i < |places| ::
          && IsMatch(entries, modules, address, places[i]) && Before(places[i], bound)
          && IsHitOf(entries, modules, places[i], address, hits[i]))
    && (forall p | IsMatch(entries, modules, address, p) && Before(p, bound) :: p in places)
  }

  lemma {:induction false} NamePlaces(entries: seq<Keyed>, modules: seq<Module>, address: Word, before: seq<Hit>,
                                      earlier: seq<Place>, m: nat, e: nat, n: nat)
    returns (places: seq<Place>)
    requires m < |modules| && e < |entries| && n <= |modules[m].addressNames|
    requires MatchesModule(entries[e].entry.target, modules[m])
    requires Enumerates(entries, modules, address, before, earlier, Place(m, e, 0))
    ensures Enumerates(entries, modules, address, NameHits(before, entries[e], modules[m], n, address), places,
                       Place(m, e, n))
    decreases n
  {
    if n == 0 {
      return earlier;
    }
    places := NamePlaces(entries, modules, address, before, earlier, m, e, n - 1);
    var last := Place(m, e, n - 1);
    assert forall p | Before(p, Place(m, e, n)) :: p == last || Before(p, last);
    if Names(entries[e], modules[m].addressNames[n - 1], address) {
      assert forall p | p in places :: p in places + [last];
      assert last == (places + [last])[|places|];
      places := places + [last];
    }
  }

  lemma {:induction false} ModulePlaces(entries: seq<Keyed>, modules: seq<Module>, address: Word, before: seq<Hit>,
                                        earlier: seq<Place>, m: nat, e: nat)
    returns (places: seq<Place>)
    requires m < |modules| && e <= |entries|
    requires Enumerates(entries, modules, address, before, earlier, Place(m, 0, 0))
    ensures Enumerates(entries, modules, address, ModuleHits(before, entries, e, modules[m], address), places,
                       Place(m, e, 0))
    decreases e
  {
    if e == 0 {
      return earlier;
    }
    places := ModulePlaces(entries, modules, address, before, earlier, m, e - 1);
    var names := |modules[m].addressNames|;
    var hits := ModuleHits(before, entries, e - 1, modules[m], address);
    if MatchesModule(entries[e - 1].entry.target, modules[m]) {
      places := NamePlaces(entries, modules, address, hits, places, m, e - 1, names);
      hits := NameHits(hits, entries[e - 1], modules[m], names, address);
      NoneBetween(entries, modules, address, hits, places, Place(m, e - 1, names), Place(m, e, 0));
    } else {
      NoneBetween(entries, modules, address, hits, places, Place(m, e - 1, 0), Place(m, e, 0));
    }
  }

  lemma NoneBetween(entries: seq<Keyed>, modules: seq<Module>, address: Word, hits: seq<Hit>, places: seq<Place>,
                    bound: Place, next: Place)
    requires Before(bound, next)
    requires Enumerates(entries, modules, address, hits, places, bound)
    requires forall p | IsMatch(entries, modules, address, p) && Before(p, next) :: Before(p, bound)
    ensures Enumerates(entries, modules, address, hits, places, next)
  {
    forall i | 0 <= i < |places|
      ensures Before(places[i], next)
    {
      assert Before(places[i], bound);
    }
  }

  lemma {:induction false} AllPlaces(entries: seq<Keyed>, modules: seq<Module>, address: Word, m: nat)
    returns (places: seq<Place>)
    requires m <= |modules|
    ensures Enumerates(entries, modules, address, ModulesHits(entries, modules, m, address), places, Place(m, 0, 0))
    decreases m
  {
    if m == 0 {
      return [];
    }
    places := AllPlaces(entries, modules, address, m - 1);
    var hits := ModulesHits(entries, modules, m - 1, address);
    places := ModulePlaces(entries, modules, address, hits, places, m - 1, |entries|);
  }

  /** The scan lists every match of an address once: module by module, in each the entries in
      key order. */
  lemma HitsInOrder(entries: seq<Keyed>, modules: seq<Module>, address: Word) returns (places: seq<Place>)
    ensures Enumerates(entries, modules, address, HitsAt(entries, modules, address), places, Place(|modules|, 0, 0))
    ensures forall p :: p in places <==> IsMatch(entries, modules, address, p)
  {
    places := AllPlaces(entries, modules, address, |modules|);
  }

  predicate Resolves(entries: seq<Keyed>, hit: Hit) {
    Find(entries, hit.key).Some? && Find(entries, hit.key).value.id == hit.id
  }

  lemma HitResolves(entries: seq<Keyed>, e: nat, m: Module, address: Word, h: Hit)
    requires Ordered(entries) && e < |entries| && IsHit(entries[e], m, |m.addressNames|, address, h)
    ensures Resolves(entries, h)
  {
    FindListed(entries, e);
  }

  /** Every hit of the scan names a registered entry by the id it still has. */
  lemma HitsResolve(entries: seq<Keyed>, modules: seq<Module>, address: Word)
    requires Ordered(entries)
    ensures forall h | h in HitsAt(entries, modules, address) :: Resolves(entries, h)
  {
    forall h | h in HitsAt(entries, modules, address)
      ensures Resolves(entries, h)
    {
      HitsAreMatches(entries, modules, |modules|, address, h);
      var i :| 0 <= i < |modules| && IsModuleHit(entries, |entries|, modules[i], address, h);
      var m := modules[i];
      var e :| 0 <= e < |entries| && MatchesModule(entries[e].entry.target, m)
               && IsHit(entries[e], m, |m.addressNames|, address, h);
      HitResolves(entries, e, m, address, h);
    }
  }

  // ---- Dispatch --------------------------------------------------------------------

  datatype Cpu = Cpu(rax: Word, rsp: Word, rip: Word)

  datatype Call = Call(moduleName: string, name: string, address: Word, returnAddress: Word)

  datatype Action = RunOriginal | Intercept

  /** What a callback can do to the registry while it runs. */
  datatype Event =
    | ModulesChanged(modules: seq<Module>)
    | TrySet(key: string, convention: int, parameterCount: nat, callback: nat)
    | TryRemove(id: HookId)
    | TryClear

  /** A callback's answer; `returnAddress` is the call's field as the callback left it. */
  datatype Reply = Reply(action: Action, returnValue: Word, returnAddress: Word, cpu: Cpu, events: seq<Event>)

  /** The emulator and the callbacks behind the registry. */
  datatype World = World(
    is32Bit: bool,
    readReturnAddress: Word -> Option<Word>,
    readArguments: (Cpu, Convention, nat) -> Option<seq<Word>>,
    respond: (nat, Call, seq<Word>, Cpu) -> Reply)

  datatype Invocation = Invocation(entry: Entry, call: Call, arguments: seq<Word>, reply: Reply)

  function EffectiveConvention(world: World, entry: Entry): Convention {
    if world.is32Bit then entry.convention else Fastcall
  }

  /** Bytes an interception pops: the return address, and for 32-bit stdcall the
      arguments as well. */
  function StackAdjust(world: World, entry: Entry): nat {
    if !world.is32Bit then 8
    else if EffectiveConvention(world, entry) == Stdcall then 4 + 4 * entry.parameterCount
    else 4
  }

  function CallOf(hit: Hit, returnAddress: Word): Call {
    Call(hit.moduleName, hit.exportName, hit.address, returnAddress)
  }

  ghost predicate AllResolve(entries: seq<Keyed>, hits: seq<Hit>) {
    forall i | 0 <= i < |hits| :: Resolves(entries, hits[i])
  }

  /** The registers after a hit's callback answered. */
  function After(world: World, entry: Entry, stackPointer: Word, reply: Reply): Cpu {
    if reply.action == RunOriginal then reply.cpu
    else Cpu(reply.returnValue, Wrap(stackPointer + StackAdjust(world, entry)), reply.returnAddress)
  }

  /** One hit of the linear scan, with no check that it is still registered. Without
      readable arguments the callback is not called. */
  ghost function CallHit(entries: seq<Keyed>, hit: Hit, world: World, cpu: Cpu, stackPointer: Word, returnAddress: Word)
    : (Option<Invocation>, Cpu)
    requires Resolves(entries, hit)
  {
    var entry := Find(entries, hit.key).value;
    var arguments := world.readArguments(cpu, EffectiveConvention(world, entry), entry.parameterCount);
    if arguments.None? then (None, cpu)
    else
      var call := CallOf(hit, returnAddress);
      var reply := world.respond(entry.callback, call, arguments.value, cpu);
      (Some(Invocation(entry, call, arguments.value, reply)), After(world, entry, stackPointer, reply))
  }

  /** The linear scan's dispatch from the i-th hit on, after the calls in `before`: each
      hit in turn, without the index. Unreadable arguments throw and end the dispatch. */
  ghost function ScanFrom(entries: seq<Keyed>, hits: seq<Hit>, i: nat, before: seq<Invocation>,
                          world: World, cpu: Cpu, stackPointer: Word, returnAddress: Word): (seq<Invocation>, Cpu)
    requires AllResolve(entries, hits) && i <= |hits|
    decreases |hits| - i
  {
    if i == |hits| then (before, cpu)
    else
      var (invocation, after) := CallHit(entries, hits[i], world, cpu, stackPointer, returnAddress);
      if invocation.None? then (before, cpu)
      else ScanFrom(entries, hits, i + 1, before + [invocation.value], world, after, stackPointer, returnAddress)
  }

  ghost function Scan(entries: seq<Keyed>, hits: seq<Hit>, world: World, cpu: Cpu, stackPointer: Word,
                      returnAddress: Word)
    : (seq<Invocation>, Cpu)
    requires AllResolve(entries, hits)
  {
    ScanFrom(entries, hits, 0, [], world, cpu, stackPointer, returnAddress)
  }

  /** The registers as call `j` finds them: as the callbacks before it left them. */
  function CpuBefore(world: World, calls: seq<Invocation>, j: nat, cpu: Cpu, stackPointer: Word): Cpu
    requires j <= |calls|
  {
    if j == 0 then cpu else After(world, calls[j - 1].entry, stackPointer, calls[j - 1].reply)
  }

  /** Call `j` is made for hit `j`: to the callback of the entry its key has, with the hit's
      module, export and address, and with what the entry's convention reads as arguments. */
  ghost predicate CallsHit(entries: seq<Keyed>, hits: seq<Hit>, calls: seq<Invocation>, j: nat, world: World,
                           cpu: Cpu, stackPointer: Word, returnAddress: Word)
    requires j < |calls| <= |hits|
  {
    var c := calls[j];
    var at := CpuBefore(world, calls, j, cpu, stackPointer);
    && Find(entries, hits[j].key) == Some(c.entry)
    && c.call == Call(hits[j].moduleName, hits[j].exportName, hits[j].address, returnAddress)
    && world.readArguments(at, if world.is32Bit then c.entry.convention else Fastcall, c.entry.parameterCount)
       == Some(c.arguments)
    && c.reply == world.respond(c.entry.callback, c.call, c.arguments, at)
  }

  /** The arguments of a hit's function cannot be read. */
  ghost predicate Unreadable(entries: seq<Keyed>, hit: Hit, world: World, cpu: Cpu) {
    && Find(entries, hit.key).Some?
    && var entry := Find(entries, hit.key).value;
       world.readArguments(cpu, if world.is32Bit then entry.convention else Fastcall, entry.parameterCount).None?
  }

  ghost predicate CallsInOrder(entries: seq<Keyed>, hits: seq<Hit>, calls: seq<Invocation>, world: World, cpu: Cpu,
                               stackPointer: Word, returnAddress: Word) {
    && |calls| <= |hits|
    && forall j | 0 <= j < |calls| :: CallsHit(entries, hits, calls, j, world, cpu, stackPointer, returnAddress)
  }

  lemma {:induction false} ScanFromCallsHits(entries: seq<Keyed>, hits: seq<Hit>, i: nat, before: seq<Invocation>,
                                             world: World, cpu: Cpu, stackPointer: Word, returnAddress: Word)
    requires AllResolve(entries, hits) && i <= |hits| && |before| == i
    requires CallsInOrder(entries, hits, before, world, cpu, stackPointer, returnAddress)
    ensures var at := CpuBefore(world, before, i, cpu, stackPointer);
            var (calls, after) := ScanFrom(entries, hits, i, before, world, at, stackPointer, returnAddress);
            && CallsInOrder(entries, hits, calls, world, cpu, stackPointer, returnAddress)
            && after == CpuBefore(world, calls, |calls|, cpu, stackPointer)
            && (|calls| < |hits| ==> Unreadable(entries, hits[|calls|], world, after))
    decreases |hits| - i
  {
    var at := CpuBefore(world, before, i, cpu, stackPointer);
    if i < |hits| {
      var (invocation, after) := CallHit(entries, hits[i], world, at, stackPointer, returnAddress);
      if invocation.Some? {
        var calls := before + [invocation.value];
        assert CallsHit(entries, hits, calls, i, world, cpu, stackPointer, returnAddress);
        forall j | 0 <= j < i
          ensures CallsHit(entries, hits, calls, j, world, cpu, stackPointer, returnAddress)
        {
          assert CallsHit(entries, hits, before, j, world, cpu, stackPointer, returnAddress);
        }
        ScanFromCallsHits(entries, hits, i + 1, calls, world, cpu, stackPointer, returnAddress);
      }
    }
  }

  /** Whatever the callbacks answer, interceptions included, every hit is called in turn,
      each finding the registers as the one before left them; only a hit whose arguments
      cannot be read ends the dispatch. */
  lemma ScanCallsEveryHit(entries: seq<Keyed>, hits: seq<Hit>, world: World, cpu: Cpu, stackPointer: Word,
                          returnAddress: Word)
    requires AllResolve(entries, hits)
    ensures var (calls, after) := Scan(entries, hits, world, cpu, stackPointer, returnAddress);
            && CallsInOrder(entries, hits, calls, world, cpu, stackPointer, returnAddress)
            && after == CpuBefore(world, calls, |calls|, cpu, stackPointer)
            && (|calls| < |hits| ==> Unreadable(entries, hits[|calls|], world, after))
  {
    ScanFromCallsHits(entries, hits, 0, [], world, cpu, stackPointer, returnAddress);
  }

  /** An interception leaves the stack as the intercepted function would: a 32-bit stdcall
      function takes its arguments along, every other leaves them to its caller. */
  lemma InterceptionBalancesStack(world: World, entry: Entry, callerStack: Word)
    ensures var n := entry.parameterCount;
            var atEntry := if world.is32Bit then callerStack - 4 * n - 4 else callerStack - 8;
            var left := if world.is32Bit && entry.convention != Stdcall then callerStack - 4 * n else callerStack;
            Wrap(Wrap(atEntry) + StackAdjust(world, entry)) == Wrap(left)
  {
    var n := entry.parameterCount;
    var atEntry := if world.is32Bit then callerStack - 4 * n - 4 else callerStack - 8;
    WrapAbsorbs(atEntry, StackAdjust(world, entry));
  }

  function LastInterception(calls: seq<Invocation>): Option<Invocation> {
    if calls == [] then None
    else if calls[|calls| - 1].reply.action == Intercept then Some(calls[|calls| - 1])
    else LastInterception(calls[..|calls| - 1])
  }

  ghost predicate LeavesRegisters(world: World) {
    forall callback, call, arguments, cpu :: world.respond(callback, call, arguments, cpu).cpu == cpu
  }

  /** `cpu` as an interception leaves it. */
  function Intercepted(world: World, cpu: Cpu, stackPointer: Word, interception: Option<Invocation>): Cpu {
    match interception
    case None => cpu
    case Some(i) => Cpu(i.reply.returnValue, Wrap(stackPointer + StackAdjust(world, i.entry)), i.reply.returnAddress)
  }

  lemma OneMoreInterception(calls: seq<Invocation>, last: Invocation)
    ensures LastInterception(calls + [last]) ==
            if last.reply.action == Intercept then Some(last) else LastInterception(calls)
  {
    assert (calls + [last])[..|calls|] == calls;
  }

  lemma {:induction false} LastInterceptionSoFar(entries: seq<Keyed>, hits: seq<Hit>, i: nat, before: seq<Invocation>,
                                                 world: World, initial: Cpu, stackPointer: Word, returnAddress: Word)
    requires AllResolve(entries, hits) && i <= |hits| && LeavesRegisters(world)
    ensures var cpu := Intercepted(world, initial, stackPointer, LastInterception(before));
            var (calls, after) := ScanFrom(entries, hits, i, before, world, cpu, stackPointer, returnAddress);
            after == Intercepted(world, initial, stackPointer, LastInterception(calls))
    decreases |hits| - i
  {
    var cpu := Intercepted(world, initial, stackPointer, LastInterception(before));
    if i < |hits| {
      var (invocation, after) := CallHit(entries, hits[i], world, cpu, stackPointer, returnAddress);
      if invocation.Some? {
        var calls := before + [invocation.value];
        OneMoreInterception(before, invocation.value);
        assert after == Intercepted(world, initial, stackPointer, LastInterception(calls));
        LastInterceptionSoFar(entries, hits, i + 1, calls, world, initial, stackPointer, returnAddress);
      }
    }
  }

  /** However many hits intercept, the registers are those of the last interception,
      computed from the stack pointer captured at the start; with none they are
      untouched. */
  lemma LastInterceptionWins(entries: seq<Keyed>, hits: seq<Hit>, world: World, cpu: Cpu, stackPointer: Word,
                             returnAddress: Word)
    requires AllResolve(entries, hits) && LeavesRegisters(world)
    ensures var (calls, after) := Scan(entries, hits, world, cpu, stackPointer, returnAddress);
            match LastInterception(calls)
            case None => after == cpu
            case Some(i) =>
              var adjusted := Wrap(stackPointer + StackAdjust(world, i.entry));
              after == Cpu(i.reply.returnValue, adjusted, i.reply.returnAddress)
  {
    LastInterceptionSoFar(entries, hits, 0, [], world, cpu, stackPointer, returnAddress);
  }

  // ---- A registry without an index --------------------------------------------------

  /** The modules after a callback's activity: every change notifies the registry. */
  function ModulesAfter(modules: seq<Module>, events: seq<Event>): seq<Module>
    decreases |events|
  {
    if events == [] then modules
    else ModulesAfter(if events[0].ModulesChanged? then events[0].modules else modules, events[1..])
  }

  function ModulesAfterCalls(modules: seq<Module>, calls: seq<Invocation>): seq<Module>
    decreases |calls|
  {
    if calls == [] then modules
    else
      var n := |calls| - 1;
      ModulesAfter(ModulesAfterCalls(modules, calls[..n]), calls[n].reply.events)
  }

  lemma ModulesAfterOneMore(modules: seq<Module>, calls: seq<Invocation>, last: Invocation)
    ensures ModulesAfterCalls(modules, calls + [last])
         == ModulesAfter(ModulesAfterCalls(modules, calls), last.reply.events)
  {
    assert (calls + [last])[..|calls|] == calls;
  }

  /** What reaching an address calls: nothing without a readable return address, and else
      every hit of the scan. */
  ghost function ScanDispatch(entries: seq<Keyed>, modules: seq<Module>, address: Word, world: World, cpu: Cpu)
    : (seq<Invocation>, Cpu)
    requires Ordered(entries)
  {
    HitsResolve(entries, modules, address);
    match world.readReturnAddress(cpu.rsp)
    case None => ([], cpu)
    case Some(returnAddress) => Scan(entries, HitsAt(entries, modules, address), world, cpu, cpu.rsp, returnAddress)
  }

  datatype Book = Book(entries: seq<Keyed>, nextId: HookId, modules: seq<Module>, running: bool, calls: seq<Invocation>)

  datatype Request =
    | Changing(event: Event)
    | StartRun
    | EndRun
    | Reaching(address: Word, world: World, cpu: Cpu)   // the guest is about to execute it

  ghost predicate Proper(b: Book) {
    Ordered(b.entries) && UniqueIds(b.entries, b.nextId)
  }

  /** Hooks change only between runs; modules at any time. */
  function Changed(b: Book, e: Event): Book {
    match e
    case ModulesChanged(modules) => b.(modules := modules)
    case TrySet(key, convention, count, callback) =>
      if b.running || !ValidTarget(key) || ToConvention(convention).None? then b
      else
        b.(entries := EntriesAfterSet(b.entries, b.nextId, key, ToConvention(convention).value, count, callback),
           nextId := b.nextId + 1)
    case TryRemove(id) => if b.running then b else b.(entries := Without(b.entries, id))
    case TryClear => if b.running then b else b.(entries := [])
  }

  lemma ChangedIsProper(b: Book, e: Event)
    requires Proper(b)
    ensures Proper(Changed(b, e))
  {
    match e
    case TrySet(key, convention, count, callback) =>
      if ToConvention(convention).Some? {
        PutKeepsOrder(b.entries, key,
            Entry(b.nextId, ParseTarget(key), ToConvention(convention).value, count, callback));
      }
    case TryRemove(id) =>
      WithoutIsSubsequence(b.entries, id);
    case _ =>
  }

  ghost function Serve(b: Book, r: Request): (b': Book)
    requires Proper(b)
    ensures Proper(b')
  {
    match r
    case Changing(e) =>
      ChangedIsProper(b, e);
      Changed(b, e)
    case StartRun => b.(running := true)
    case EndRun => b.(running := false)
    case Reaching(address, world, cpu) =>
      if !b.running then b
      else
        var calls := ScanDispatch(b.entries, b.modules, address, world, cpu).0;
        b.(calls := b.calls + calls, modules := ModulesAfterCalls(b.modules, calls))
  }

  ghost function ServeAll(b: Book, history: seq<Request>): Book
    requires Proper(b)
    decreases |history|
  {
    if history == [] then b else ServeAll(Serve(b, history[0]), history[1..])
  }

  // ---- What a history leaves -----------------------------------------------------------

  /** Reaching an address during a run calls every hit of the scan there, as long as the
      return address and the arguments can be read; otherwise nothing happens. */
  lemma ReachingCallsEveryHit(b: Book, address: Word, world: World, cpu: Cpu) returns (calls: seq<Invocation>)
    requires Proper(b)
    ensures Serve(b, Reaching(address, world, cpu)).calls == b.calls + calls
    ensures var hits := HitsAt(b.entries, b.modules, address);
            if !b.running || world.readReturnAddress(cpu.rsp).None? then calls == []
            else
              && CallsInOrder(b.entries, hits, calls, world, cpu, cpu.rsp, world.readReturnAddress(cpu.rsp).value)
              && (|calls| < |hits| ==>
                    Unreadable(b.entries, hits[|calls|], world, CpuBefore(world, calls, |calls|, cpu, cpu.rsp)))
  {
    HitsResolve(b.entries, b.modules, address);
    if !b.running || world.readReturnAddress(cpu.rsp).None? {
      return [];
    }
    var hits := HitsAt(b.entries, b.modules, address);
    var returnAddress := world.readReturnAddress(cpu.rsp).value;
    ScanCallsEveryHit(b.entries, hits, world, cpu, cpu.rsp, returnAddress);
    calls := Scan(b.entries, hits, world, cpu, cpu.rsp, returnAddress).0;
  }

  /** The registry as one key sees it. */
  datatype KeyView = KeyView(entry: Option<Entry>, nextId: HookId, running: bool)

  function ViewOf(b: Book, key: string): KeyView {
    KeyView(Find(b.entries, key), b.nextId, b.running)
  }

  const CONVENTIONS: seq<Convention> := [Cdecl, Stdcall, Fastcall, Syscall]   // by the value the ABI gives them

  /** What a request says of one key: a hook accepted for it replaces what it had, and its
      entry goes when that is removed by its id or with all others. Ids count the accepted
      hooks, whatever their key. */
  function Said(v: KeyView, r: Request, key: string): KeyView {
    match r
    case StartRun => v.(running := true)
    case EndRun => v.(running := false)
    case Changing(TrySet(other, convention, count, callback)) =>
      if v.running || ParseTarget(other).name == "" || !(0 <= convention <= 3) then v
      else
        var stored := Entry(v.nextId, ParseTarget(key), CONVENTIONS[convention], count, callback);
        v.(entry := if other == key then Some(stored) else v.entry, nextId := v.nextId + 1)
    case Changing(TryRemove(id)) =>
      if !v.running && v.entry.Some? && v.entry.value.id == id then v.(entry := None) else v
    case Changing(TryClear) => if v.running then v else v.(entry := None)
    case _ => v
  }

  function SaidAll(v: KeyView, history: seq<Request>, key: string): KeyView
    decreases |history|
  {
    if history == [] then v else SaidAll(Said(v, history[0], key), history[1..], key)
  }

  lemma {:induction false} NoOtherEntry(entries: seq<Keyed>, key: string)
    requires forall k | k in entries :: k.key != key
    ensures Find(entries, key) == None
    decreases |entries|
  {
    if entries != [] {
      assert entries[0] in entries;
      NoOtherEntry(entries[1..], key);
    }
  }

  lemma {:induction false} FindAfterWithout(entries: seq<Keyed>, id: HookId, nextId: HookId, key: string)
    requires Ordered(entries) && UniqueIds(entries, nextId)
    ensures var found := Find(entries, key);
            Find(Without(entries, id), key) == if found.Some? && found.value.id == id then None else found
    decreases |entries|
  {
    if entries != [] {
      var rest := entries[1..];
      forall k | k in rest
        ensures k.key != entries[0].key
      {
        var j :| 0 < j < |entries| && entries[j] == k;
        LessTotal(entries[0].key, k.key);
      }
      assert UniqueIds(rest, nextId);
      FindAfterWithout(rest, id, nextId, key);
      if entries[0].key == key {
        NoOtherEntry(rest, key);
      } else if entries[0].entry.id == id {
        forall k | k in rest
          ensures k.entry.id != id
        {
          assert k in entries && entries[0] in entries;
        }
        WithoutAbsent(rest, id);
      }
    }
  }

  lemma ChangedEntry(b: Book, e: Event, key: string)
    requires Proper(b)
    ensures ViewOf(Changed(b, e), key) == Said(ViewOf(b, key), Changing(e), key)
  {
    match e
    case TrySet(other, convention, count, callback) =>
      if ToConvention(convention).Some? {
        var stored := Entry(b.nextId, ParseTarget(other), ToConvention(convention).value, count, callback);
        FindAfterPut(b.entries, other, stored, key);
      }
    case TryRemove(id) => FindAfterWithout(b.entries, id, b.nextId, key);
    case _ =>
  }

  lemma ServedEntry(b: Book, r: Request, key: string)
    requires Proper(b)
    ensures ViewOf(Serve(b, r), key) == Said(ViewOf(b, key), r, key)
  {
    if r.Changing? {
      ChangedEntry(b, r.event, key);
    }
  }

  /** After any history each key has exactly the entry that the history says it has. */
  lemma {:induction false} EntryFate(b: Book, history: seq<Request>, key: string)
    requires Proper(b)
    ensures ViewOf(ServeAll(b, history), key) == SaidAll(ViewOf(b, key), history, key)
    decreases |history|
  {
    if history != [] {
      ServedEntry(b, history[0], key);
      EntryFate(Serve(b, history[0]), history[1..], key);
    }
  }

  /** After any history that ends with a change of the modules, these are the registry's. */
  lemma {:induction false} ModulesAreLatest(b: Book, history: seq<Request>, modules: seq<Module>)
    requires Proper(b)
    ensures ServeAll(b, history + [Changing(ModulesChanged(modules))]).modules == modules
    decreases |history|
  {
    var last := [Changing(ModulesChanged(modules))];
    if history == [] {
      assert history + last == last && last[1..] == [];
    } else {
      assert (history + last)[1..] == history[1..] + last;
      ModulesAreLatest(Serve(b, history[0]), history[1..], modules);
    }
  }

  /** The modules a callback leaves are those of the last change it was told of. */
  lemma {:induction false} ModulesAfterLastChange(modules: seq<Module>, before: seq<Event>, last: Event)
    ensures ModulesAfter(modules, before + [last])
            == if last.ModulesChanged? then last.modules else ModulesAfter(modules, before)
    ensures ModulesAfter(modules, []) == modules
    decreases |before|
  {
    if before == [] {
      assert before + [last] == [last] && [last][1..] == [];
    } else {
      assert (before + [last])[1..] == before[1..] + [last];
      ModulesAfterLastChange(if before[0].ModulesChanged? then before[0].modules else modules, before[1..], last);
    }
  }

  // ---- The registry -------------------------------------------------------------------

  function At(index: map<Word, seq<Hit>>, address: Word): seq<Hit> {
    if address in index then index[address] else []
  }

  function Append(index: map<Word, seq<Hit>>, hit: Hit): (index': map<Word, seq<Hit>>)
    ensures forall a: Word :: At(index', a) == At(index, a) + if a == hit.address then [hit] else []
    ensures (forall a | a in index :: index[a] != []) ==> forall a | a in index' :: index'[a] != []
  {
    index[hit.address := At(index, hit.address) + [hit]]
  }

  predicate ValidTarget(key: string) {
    ParseTarget(key).name != ""
  }

  function EntriesAfterSet(entries: seq<Keyed>, id: HookId, key: string, convention: Convention, count: nat,
                           callback: nat): seq<Keyed> {
    Put(entries, key, Entry(id, ParseTarget(key), convention, count, callback))
  }

  /** The first entry with the given id is dropped. */
  function Without(entries: seq<Keyed>, id: HookId): seq<Keyed> {
    if entries == [] then []
    else if entries[0].entry.id == id then entries[1..]
    else [entries[0]] + Without(entries[1..], id)
  }

  lemma {:induction false} WithoutIsSubsequence(entries: seq<Keyed>, id: HookId)
    requires Ordered(entries)
    ensures Ordered(Without(entries, id))
    ensures forall k | k in Without(entries, id) :: k in entries
    decreases |entries|
  {
    if entries != [] && entries[0].entry.id != id {
      WithoutIsSubsequence(entries[1..], id);
      var rest := Without(entries[1..], id);
      forall j | 0 <= j < |rest|
        ensures Less(entries[0].key, rest[j].key)
      {
        assert rest[j] in rest && rest[j] in entries[1..];
      }
    }
  }

  lemma {:induction false} WithoutAbsent(entries: seq<Keyed>, id: HookId)
    requires forall j | 0 <= j < |entries| :: entries[j].entry.id != id
    ensures Without(entries, id) == entries
    decreases |entries|
  {
    if entries != [] {
      WithoutAbsent(entries[1..], id);
      assert entries == [entries[0]] + entries[1..];
    }
  }

  lemma {:induction false} WithoutAt(entries: seq<Keyed>, id: HookId, i: nat)
    requires i < |entries| && entries[i].entry.id == id
    requires forall j | 0 <= j < i :: entries[j].entry.id != id
    ensures Without(entries, id) == entries[..i] + entries[i + 1..]
    decreases i
  {
    if i > 0 {
      var tail := entries[1..];
      WithoutAt(tail, id, i - 1);
      assert [entries[0]] + tail[..i - 1] == entries[..i];
      assert tail[i - 1 + 1..] == entries[i + 1..];
      assert Without(entries, id) == [entries[0]] + (tail[..i - 1] + tail[i - 1 + 1..]);
    }
  }

  ghost predicate UniqueIds(entries: seq<Keyed>, nextId: HookId) {
    && (forall k | k in entries :: k.entry.id < nextId)
    && (forall k, l | k in entries && l in entries && k.entry.id == l.entry.id :: k == l)
  }

  /** With unique ids, dropping the first entry with an id drops exactly the one. */
  lemma {:induction false} WithoutDropsOnlyId(entries: seq<Keyed>, id: HookId, nextId: HookId)
    requires Ordered(entries) && UniqueIds(entries, nextId)
    ensures forall k :: k in Without(entries, id) <==> k in entries && k.entry.id != id
    decreases |entries|
  {
    if entries != [] {
      if entries[0].entry.id == id {
        forall k | k in entries[1..]
          ensures k != entries[0]
        {
          var j :| 0 < j < |entries| && entries[j] == k;
          LessTotal(entries[0].key, entries[j].key);
        }
      } else {
        assert UniqueIds(entries[1..], nextId);
        WithoutDropsOnlyId(entries[1..], id, nextId);
      }
    }
  }

  /** Appending the next name's hit, if it is one, is one step of the scan. */
  lemma IndexFollowsNames(before: map<Word, seq<Hit>>, index: map<Word, seq<Hit>>, k: Keyed, m: Module, i: nat)
    requires i < |m.addressNames|
    requires forall a: Word :: At(index, a) == NameHits(At(before, a), k, m, i, a)
    ensures var named := m.addressNames[i];
            var index' := if named.name == k.entry.target.name
                          then Append(index, Hit(k.key, k.entry.id, m.name, named.name, named.address)) else index;
            forall a: Word :: At(index', a) == NameHits(At(before, a), k, m, i + 1, a)
  {
  }

  class Registry {
    // The emulator: its modules and the hook handles it holds.
    var modules: seq<Module>
    var live: set<nat>
    var created: nat
    // The registry.
    var entries: seq<Keyed>
    var index: map<Word, seq<Hit>>
    var executionHook: Option<nat>
    var nextId: HookId
    var inCallback: bool
    var running: bool

    ghost predicate IndexAgrees()
      reads this
    {
      && (forall a: Word :: At(index, a) == HitsAt(entries, modules, a))
      && (forall a | a in index :: index[a] != [])
    }

    /** The index is the scan of the present modules, the execution hook is installed exactly while there is
        something to dispatch, and it is the only handle held. */
    ghost predicate Valid()
      reads this
    {
      && Ordered(entries)
      && UniqueIds(entries, nextId)
      && IndexAgrees()
      && HookAgrees()
    }

    ghost predicate HookAgrees()
      reads this
    {
      && (executionHook.Some? <==> entries != [])
      && live == (if executionHook.Some? then {executionHook.value} else {})
      && (forall h | h in live :: h < created)
    }

    constructor (modules: seq<Module>)
      ensures Valid() && entries == [] && !inCallback && !running && this.modules == modules
    {
      this.modules := modules;
      live, created, entries, index := {}, 0, [], map[];
      executionHook, nextId, inCallback, running := None, 1, false, false;
      new;
      forall a: Word {
        NoEntriesNoHits(modules, |modules|, a);
      }
    }

    method EnsureExecutionHook()
      requires live == if executionHook.Some? then {executionHook.value} else {}
      requires forall h | h in live :: h < created
      modifies `live, `created, `executionHook
      ensures executionHook.Some? && live == {executionHook.value} && executionHook.value < created
      ensures old(executionHook).Some? ==> executionHook == old(executionHook)
    {
      if executionHook.Some? {
        return;
      }
      executionHook := Some(created);
      live := live + {created};
      created := created + 1;
    }

    method RemoveExecutionHook()
      requires executionHook.Some? ==> executionHook.value in live
      modifies `live, `executionHook
      ensures executionHook == None
      ensures live == if old(executionHook).Some? then old(live) - {old(executionHook).value} else old(live)
    {
      if executionHook.None? {
        return;
      }
      live := live - {executionHook.value};
      executionHook := None;
    }

    method AddEntryForModule(k: Keyed, m: Module)
      requires forall a | a in index :: index[a] != []
      modifies `index
      ensures forall a: Word :: At(index, a) == EntryHits(At(old(index), a), k, m, a)
      ensures forall a | a in index :: index[a] != []
    {
      if !MatchesModule(k.entry.target, m) {
        return;
      }
      var i := 0;
      while i < |m.addressNames|
        invariant 0 <= i <= |m.addressNames|
        invariant forall a: Word :: At(index, a) == NameHits(At(old(index), a), k, m, i, a)
        invariant forall a | a in index :: index[a] != []
      {
        IndexFollowsNames(old(index), index, k, m, i);
        var named := m.addressNames[i];
        if named.name == k.entry.target.name {
          index := Append(index, Hit(k.key, k.entry.id, m.name, named.name, named.address));
        }
        i := i + 1;
      }
    }

    method AddModule(m: Module)
      requires forall a | a in index :: index[a] != []
      modifies `index
      ensures forall a: Word :: At(index, a) == ModuleHits(At(old(index), a), entries, |entries|, m, a)
      ensures forall a | a in index :: index[a] != []
    {
      var i := 0;
      while i < |entries|
        invariant 0 <= i <= |entries|
        invariant forall a: Word :: At(index, a) == ModuleHits(At(old(index), a), entries, i, m, a)
        invariant forall a | a in index :: index[a] != []
      {
        AddEntryForModule(entries[i], m);
        i := i + 1;
      }
    }

    /** Rebuilds the index from scratch, and keeps the execution hook only while there
        are entries. */
    method Refresh()
      requires Ordered(entries) && UniqueIds(entries, nextId)
      requires live == if executionHook.Some? then {executionHook.value} else {}
      requires forall h | h in live :: h < created
      modifies `index, `live, `created, `executionHook
      ensures Valid()
      ensures old(executionHook).Some? && entries != [] ==> executionHook == old(executionHook)
    {
      index := map[];
      if |entries| == 0 {
        RemoveExecutionHook();
        forall a: Word {
          NoEntriesNoHits(modules, |modules|, a);
        }
        return;
      }
      EnsureExecutionHook();
      var i := 0;
      while i < |modules|
        invariant 0 <= i <= |modules|
        invariant forall a: Word :: At(index, a) == ModulesHits(entries, modules, i, a)
        invariant forall a | a in index :: index[a] != []
        modifies `index
      {
        AddModule(modules[i]);
        i := i + 1;
      }
    }

    /** Hooks can be changed only between runs and outside callbacks. */
    method AddApiHook(key: string, convention: int, parameterCount: nat, callback: nat)
      returns (status: Status, id: HookId)
      requires Valid()
      modifies this
      ensures Valid() && inCallback == old(inCallback) && running == old(running) && modules == old(modules)
      ensures status == if running || inCallback then BadState
                        else if !ValidTarget(key) || ToConvention(convention).None? then InvalidArgument else Ok
      ensures status == Ok ==>
                && id == old(nextId) && nextId == old(nextId) + 1
                && entries
                   == EntriesAfterSet(old(entries), id, key, ToConvention(convention).value, parameterCount, callback)
      ensures status != Ok ==> entries == old(entries) && nextId == old(nextId)
    {
      id := 0;
      if running || inCallback {
        return BadState, id;
      }
      var target := ParseTarget(key);
      var parsed := ToConvention(convention);
      if |target.name| == 0 || parsed.None? {
        return InvalidArgument, id;
      }
      id := nextId;
      nextId := nextId + 1;
      PutKeepsOrder(entries, key, Entry(id, target, parsed.value, parameterCount, callback));
      entries := Put(entries, key, Entry(id, target, parsed.value, parameterCount, callback));
      Refresh();
      return Ok, id;
    }

    method RemoveHook(id: HookId) returns (status: Status)
      requires Valid()
      modifies this
      ensures Valid() && inCallback == old(inCallback) && running == old(running) && modules == old(modules)
      ensures status == if running || inCallback then BadState else Ok
      ensures entries == if status == Ok then Without(old(entries), id) else old(entries)
      ensures status == Ok ==> forall k :: k in entries <==> k in old(entries) && k.entry.id != id
      ensures nextId == old(nextId)
    {
      if running || inCallback {
        return BadState;
      }
      var i := PositionOf(id);
      WithoutIsSubsequence(entries, id);
      WithoutDropsOnlyId(entries, id, nextId);
      if i == |entries| {
        WithoutAbsent(entries, id);
        return Ok;
      }
      WithoutAt(entries, id, i);
      entries := entries[..i] + entries[i + 1..];
      Refresh();
      return Ok;
    }

    method PositionOf(id: HookId) returns (i: nat)
      ensures i <= |entries| && (i < |entries| ==> entries[i].entry.id == id)
      ensures forall j | 0 <= j < i :: entries[j].entry.id != id
    {
      i := 0;
      while i < |entries| && entries[i].entry.id != id
        invariant i <= |entries|
        invariant forall j | 0 <= j < i :: entries[j].entry.id != id
      {
        i := i + 1;
      }
    }

    method ClearApiHooks() returns (status: Status)
      requires Valid()
      modifies this
      ensures Valid() && inCallback == old(inCallback) && running == old(running) && modules == old(modules)
      ensures status == if running || inCallback then BadState else Ok
      ensures entries == if status == Ok then [] else old(entries)
      ensures status == Ok ==> live == {}
      ensures nextId == old(nextId)
    {
      if running || inCallback {
        return BadState;
      }
      entries := [];
      index := map[];
      forall a: Word {
        NoEntriesNoHits(modules, |modules|, a);
      }
      RemoveExecutionHook();
      return Ok;
    }

    method Perform(e: Event)
      requires Valid() && inCallback
      modifies this
      ensures Valid() && inCallback && running == old(running)
      ensures entries == old(entries)
      ensures modules == if e.ModulesChanged? then e.modules else old(modules)
      ensures nextId == old(nextId)
    {
      match e
      case ModulesChanged(ms) =>
        modules := ms;
        Refresh();
      case TrySet(key, convention, count, callback) => var _, _ := AddApiHook(key, convention, count, callback);
      case TryRemove(id) => var _ := RemoveHook(id);
      case TryClear => var _ := ClearApiHooks();
    }

    /** One hit: looked up again by key and id, called, and its interception applied. */
    method InvokeHook(hit: Hit, world: World, cpu: Cpu, stackPointer: Word, returnAddress: Word)
      returns (invocation: Option<Invocation>, cpu': Cpu)
      requires Valid() && !inCallback && Resolves(entries, hit)
      modifies this
      ensures Valid() && !inCallback && running == old(running) && entries == old(entries) && nextId == old(nextId)
      ensures (invocation, cpu') == CallHit(entries, hit, world, cpu, stackPointer, returnAddress)
      ensures modules == if invocation.Some? then ModulesAfter(old(modules), invocation.value.reply.events)
              else old(modules)
    {
      var found := Find(entries, hit.key);
      if found.None? || found.value.id != hit.id {
        return None, cpu;
      }
      var entry := found.value;
      var convention := if world.is32Bit then entry.convention else Fastcall;
      var arguments := world.readArguments(cpu, convention, entry.parameterCount);
      if arguments.None? {
        return None, cpu;
      }
      var call := Call(hit.moduleName, hit.exportName, hit.address, returnAddress);
      inCallback := true;
      var reply := world.respond(entry.callback, call, arguments.value, cpu);
      var i := 0;
      while i < |reply.events|
        invariant 0 <= i <= |reply.events|
        invariant Valid() && inCallback && running == old(running) && entries == old(entries) && nextId == old(nextId)
        invariant ModulesAfter(modules, reply.events[i..]) == ModulesAfter(old(modules), reply.events)
      {
        Perform(reply.events[i]);
        assert reply.events[i..][1..] == reply.events[i + 1..];
        i := i + 1;
      }
      inCallback := false;
      invocation := Some(Invocation(entry, call, arguments.value, reply));
      cpu' := reply.cpu;
      if reply.action == Intercept {
        var stackAdjust := if world.is32Bit then 4 else 8;
        if world.is32Bit && convention == Stdcall {
          stackAdjust := stackAdjust + 4 * entry.parameterCount;
        }
        cpu' := Cpu(reply.returnValue, Wrap(stackPointer + stackAdjust), reply.returnAddress);
      }
    }

    /** The copied hits in turn, whatever the callbacks do to the index meanwhile. */
    method InvokeHits(hits: seq<Hit>, world: World, cpu: Cpu, stackPointer: Word, returnAddress: Word)
      returns (calls: seq<Invocation>, cpu': Cpu)
      requires Valid() && !inCallback && AllResolve(entries, hits)
      modifies this
      ensures Valid() && !inCallback && running == old(running) && entries == old(entries) && nextId == old(nextId)
      ensures (calls, cpu') == Scan(entries, hits, world, cpu, stackPointer, returnAddress)
      ensures modules == ModulesAfterCalls(old(modules), calls)
    {
      calls, cpu' := [], cpu;
      var i := 0;
      while i < |hits|
        invariant 0 <= i <= |hits|
        invariant Valid() && !inCallback && running == old(running) && entries == old(entries) && nextId == old(nextId)
        invariant modules == ModulesAfterCalls(old(modules), calls)
        invariant ScanFrom(entries, hits, i, calls, world, cpu', stackPointer, returnAddress) ==
                  Scan(entries, hits, world, cpu, stackPointer, returnAddress)
      {
        var invocation;
        invocation, cpu' := InvokeHook(hits[i], world, cpu', stackPointer, returnAddress);
        if invocation.None? {
          return;
        }
        ModulesAfterOneMore(old(modules), calls, invocation.value);
        calls := calls + [invocation.value];
        i := i + 1;
      }
    }

    /** Dispatching through the index makes the calls of the linear scan over the modules
        present when the address was reached, in the same order and with the same effect
        on the registers, although callbacks may refresh the index underneath it. */
    method DispatchAddress(address: Word, world: World, cpu: Cpu) returns (calls: seq<Invocation>, cpu': Cpu)
      requires Valid() && !inCallback
      modifies this
      ensures Valid() && !inCallback && running == old(running) && entries == old(entries) && nextId == old(nextId)
      ensures (calls, cpu') == ScanDispatch(entries, old(modules), address, world, cpu)
      ensures modules == ModulesAfterCalls(old(modules), calls)
    {
      HitsResolve(entries, modules, address);
      assert At(index, address) == HitsAt(entries, modules, address);
      if address !in index {
        return [], cpu;
      }
      var stackPointer := cpu.rsp;
      var read := world.readReturnAddress(stackPointer);
      if read.None? {
        return [], cpu;
      }
      var hits := index[address];
      calls, cpu' := InvokeHits(hits, world, cpu, stackPointer, read.value);
    }

    ghost function Snapshot(calls: seq<Invocation>): Book
      reads this
    {
      Book(entries, nextId, modules, running, calls)
    }

    method Change(e: Event)
      requires Valid() && !inCallback
      modifies this
      ensures Valid() && !inCallback
      ensures forall calls :: Snapshot(calls) == Changed(old(Snapshot(calls)), e)
    {
      match e
      case ModulesChanged(ms) =>
        modules := ms;
        Refresh();
      case TrySet(key, convention, count, callback) => var _, _ := AddApiHook(key, convention, count, callback);
      case TryRemove(id) => var _ := RemoveHook(id);
      case TryClear => var _ := ClearApiHooks();
    }

    method Handle(r: Request, before: seq<Invocation>) returns (calls: seq<Invocation>)
      requires Valid() && !inCallback
      modifies this
      ensures Valid() && !inCallback && Snapshot(calls) == Serve(old(Snapshot(before)), r)
    {
      calls := before;
      match r
      case Changing(e) => Change(e);
      case StartRun => running := true;
      case EndRun => running := false;
      case Reaching(address, world, cpu) =>
        if running {
          var more, _ := DispatchAddress(address, world, cpu);
          calls := calls + more;
        }
    }

    /** Over any history of changes, module events, runs and dispatches the registry makes
        the calls of a registry that has no index and scans every time, and ends with its
        entries; and its index is the scan of the modules present at the end. */
    method Replay(history: seq<Request>) returns (calls: seq<Invocation>)
      requires Valid() && !inCallback
      modifies this
      ensures Valid() && !inCallback
      ensures Snapshot(calls) == ServeAll(old(Snapshot([])), history)
      ensures forall a: Word :: At(index, a) == HitsAt(entries, modules, a)
    {
      calls := [];
      var i := 0;
      while i < |history|
        invariant 0 <= i <= |history|
        invariant Valid() && !inCallback
        invariant ServeAll(Snapshot(calls), history[i..]) == ServeAll(old(Snapshot([])), history)
      {
        assert history[i..][0] == history[i] && history[i..][1..] == history[i + 1..];
        calls := Handle(history[i], calls);
        i := i + 1;
      }
    }
  }
}
