/**
 Deep copies of the loaded modules handed out by the C ABI: a tree of heap blocks
 built in loops in which any allocation can fail. Either the whole copy is built, or
 nothing stays allocated; freeing a copy restores the heap exactly.

 What an array or buffer contains is found only in the heap, under the address of its
 block, so nothing is read or written through a block that was released.
 */
module OwnedModels {
  import opened Prelude

  // ---- What is copied ---------------------------------------------------------------

  /** An export, a needed library or a section: a name and its numeric fields. */
  datatype Item = Item(name: string, fields: seq<int>)

  datatype Source = Source(name: string, path: string, fields: seq<int>, exports: seq<Item>, needed: seq<Item>,
                           sections: seq<Item>, rpath: string, runpath: string)

  // ---- The C structures and the heap ------------------------------------------------

  type Pointer = nat

  datatype Buffer = Buffer(data: Option<Pointer>, length: nat)

  datatype Record = Record(name: Buffer, fields: seq<int>)

  datatype RecordList = RecordList(data: Option<Pointer>, length: nat)

  datatype Module = Module(name: Buffer, path: Buffer, fields: seq<int>, exports: RecordList, needed: RecordList,
                           sections: RecordList, rpath: Buffer, runpath: Buffer)

  datatype ModuleList = ModuleList(data: Option<Pointer>, length: nat)

  datatype Block = Text(bytes: string) | Records(records: seq<Record>) | Modules(modules: seq<Module>)

  /** The blocks allocated and not yet released. */
  type Contents = map<Pointer, Block>

  const NO_BUFFER := Buffer(None, 0)
  const NO_RECORD := Record(NO_BUFFER, [])
  const NO_RECORDS := RecordList(None, 0)
  const NO_MODULE := Module(NO_BUFFER, NO_BUFFER, [], NO_RECORDS, NO_RECORDS, NO_RECORDS, NO_BUFFER, NO_BUFFER)
  const NO_MODULES := ModuleList(None, 0)

  // ---- What a copy says ---------------------------------------------------------------

  /** What a reader takes from a buffer: as many bytes of its block as the buffer says. */
  function TextOf(c: Contents, b: Buffer): string {
    if b.data.Some? && b.data.value in c && c[b.data.value].Text? && b.length <= |c[b.data.value].bytes| then
      c[b.data.value].bytes[..b.length]
    else ""
  }

  function RecordsOf(c: Contents, list: RecordList): seq<Record> {
    if list.data.Some? && list.data.value in c && c[list.data.value].Records? then c[list.data.value].records else []
  }

  function ModulesOf(c: Contents, list: ModuleList): seq<Module> {
    if list.data.Some? && list.data.value in c && c[list.data.value].Modules? then c[list.data.value].modules else []
  }

  function ItemOf(c: Contents, r: Record): Item {
    Item(TextOf(c, r.name), r.fields)
  }

  function ItemsOf(c: Contents, list: RecordList): seq<Item> {
    var records := RecordsOf(c, list);
    seq(|records|, i requires 0 <= i < |records| => ItemOf(c, records[i]))
  }

  function SourceOf(c: Contents, m: Module): Source {
    Source(TextOf(c, m.name), TextOf(c, m.path), m.fields, ItemsOf(c, m.exports), ItemsOf(c, m.needed),
           ItemsOf(c, m.sections), TextOf(c, m.rpath), TextOf(c, m.runpath))
  }

  function SourcesOf(c: Contents, list: ModuleList): seq<Source> {
    var modules := ModulesOf(c, list);
    seq(|modules|, i requires 0 <= i < |modules| => SourceOf(c, modules[i]))
  }

  // ---- What can be read -----------------------------------------------------------------

  predicate BufferLive(c: Contents, b: Buffer) {
    match b.data
    case None => b.length == 0
    case Some(p) => p in c && c[p].Text? && |c[p].bytes| == b.length
  }

  predicate RecordListLive(c: Contents, list: RecordList) {
    match list.data
    case None => list.length == 0
    case Some(p) =>
      && p in c && c[p].Records? && |c[p].records| == list.length
      && forall i | 0 <= i < list.length :: BufferLive(c, c[p].records[i].name)
  }

  predicate ModuleLive(c: Contents, m: Module) {
    && BufferLive(c, m.name) && BufferLive(c, m.path) && BufferLive(c, m.rpath) && BufferLive(c, m.runpath)
    && RecordListLive(c, m.exports) && RecordListLive(c, m.needed) && RecordListLive(c, m.sections)
  }

  predicate ModuleListLive(c: Contents, list: ModuleList) {
    match list.data
    case None => list.length == 0
    case Some(p) =>
      && p in c && c[p].Modules? && |c[p].modules| == list.length
      && forall i | 0 <= i < list.length :: ModuleLive(c, c[p].modules[i])
  }

  // ---- What a copy owns: how often it will release a given block -----------------------

  function PointerCount(data: Option<Pointer>, p: Pointer): nat {
    if data == Some(p) then 1 else 0
  }

  function NameCount(records: seq<Record>, p: Pointer): nat {
    if records == [] then 0
    else NameCount(records[..|records| - 1], p) + PointerCount(records[|records| - 1].name.data, p)
  }

  function RecordListCount(c: Contents, list: RecordList, p: Pointer): nat {
    PointerCount(list.data, p) + NameCount(RecordsOf(c, list), p)
  }

  function ModuleCount(c: Contents, m: Module, p: Pointer): nat {
    PointerCount(m.name.data, p) + PointerCount(m.path.data, p) + RecordListCount(c, m.exports, p)
    + RecordListCount(c, m.needed, p) + RecordListCount(c, m.sections, p) + PointerCount(m.rpath.data, p)
    + PointerCount(m.runpath.data, p)
  }

  function Sum(counts: seq<nat>): nat {
    if counts == [] then 0 else Sum(counts[..|counts| - 1]) + counts[|counts| - 1]
  }

  function ModuleCounts(c: Contents, modules: seq<Module>, p: Pointer): seq<nat> {
    seq(|modules|, i requires 0 <= i < |modules| => ModuleCount(c, modules[i], p))
  }

  function AllModuleCount(c: Contents, modules: seq<Module>, p: Pointer): nat {
    Sum(ModuleCounts(c, modules, p))
  }

  function ModuleListCount(c: Contents, list: ModuleList, p: Pointer): nat {
    PointerCount(list.data, p) + AllModuleCount(c, ModulesOf(c, list), p)
  }

  function Held(c: Contents, p: Pointer): nat {
    if p in c then 1 else 0
  }

  lemma {:induction false} NameCountAfter(records: seq<Record>, i: nat, r: Record, p: Pointer)
    requires i < |records|
    ensures NameCount(records[i := r], p) + PointerCount(records[i].name.data, p)
         == NameCount(records, p) + PointerCount(r.name.data, p)
    ensures PointerCount(records[i].name.data, p) <= NameCount(records, p)
    decreases |records|
  {
    var n := |records| - 1;
    if i == n {
      assert records[i := r][..n] == records[..n];
    } else {
      assert records[i := r][..n] == records[..n][i := r];
      NameCountAfter(records[..n], i, r, p);
    }
  }

  lemma {:induction false} EmptyNames(records: seq<Record>, p: Pointer)
    requires forall i | 0 <= i < |records| :: records[i].name == NO_BUFFER
    ensures NameCount(records, p) == 0
    decreases |records|
  {
    if records != [] {
      EmptyNames(records[..|records| - 1], p);
    }
  }

  lemma {:induction false} SumAfter(counts: seq<nat>, i: nat, x: nat)
    requires i < |counts|
    ensures Sum(counts[i := x]) + counts[i] == Sum(counts) + x && counts[i] <= Sum(counts)
    decreases |counts|
  {
    var n := |counts| - 1;
    if i == n {
      assert counts[i := x][..n] == counts[..n];
    } else {
      assert counts[i := x][..n] == counts[..n][i := x];
      SumAfter(counts[..n], i, x);
    }
  }

  lemma {:induction false} SumOfNone(counts: seq<nat>)
    requires forall i | 0 <= i < |counts| :: counts[i] == 0
    ensures Sum(counts) == 0
    decreases |counts|
  {
    if counts != [] {
      SumOfNone(counts[..|counts| - 1]);
    }
  }

  lemma ModuleCountAfter(c: Contents, modules: seq<Module>, i: nat, m: Module, p: Pointer)
    requires i < |modules|
    ensures AllModuleCount(c, modules[i := m], p) + ModuleCount(c, modules[i], p)
         == AllModuleCount(c, modules, p) + ModuleCount(c, m, p)
    ensures ModuleCount(c, modules[i], p) <= AllModuleCount(c, modules, p)
  {
    var counts := ModuleCounts(c, modules, p);
    SumAfter(counts, i, ModuleCount(c, m, p));
    assert ModuleCounts(c, modules[i := m], p) == counts[i := ModuleCount(c, m, p)];
  }

  lemma EmptyModules(c: Contents, modules: seq<Module>, p: Pointer)
    requires forall i | 0 <= i < |modules| :: modules[i] == NO_MODULE
    ensures AllModuleCount(c, modules, p) == 0
  {
    SumOfNone(ModuleCounts(c, modules, p));
  }

  /** Two modules of a list own nothing in common if the list owns each block once. */
  lemma ModulesShareNothing(c: Contents, modules: seq<Module>, i: nat, j: nat, p: Pointer)
    requires i < |modules| && j < |modules| && i != j
    ensures ModuleCount(c, modules[i], p) + ModuleCount(c, modules[j], p) <= AllModuleCount(c, modules, p)
  {
    ModuleCountAfter(c, modules, i, NO_MODULE, p);
    ModuleCountAfter(c, modules[i := NO_MODULE], j, NO_MODULE, p);
  }

  // ---- Blocks that stay as they are ---------------------------------------------------------

  predicate SameBlock(c: Contents, c': Contents, p: Pointer) {
    p in c && p in c' && c'[p] == c[p]
  }

  /** Every block of `c` is still there, unchanged. */
  ghost predicate Preserves(c: Contents, c': Contents) {
    forall p | p in c :: SameBlock(c, c', p)
  }

  /** A record list reads the same wherever the blocks it owns are the same. */
  lemma RecordListStays(c: Contents, c': Contents, list: RecordList)
    requires RecordListLive(c, list)
    requires forall p | RecordListCount(c, list, p) > 0 :: SameBlock(c, c', p)
    ensures RecordListLive(c', list) && RecordsOf(c', list) == RecordsOf(c, list)
    ensures ItemsOf(c', list) == ItemsOf(c, list)
    ensures forall p :: RecordListCount(c', list, p) == RecordListCount(c, list, p)
  {
    if list.data.Some? {
      var q := list.data.value;
      assert RecordListCount(c, list, q) > 0;
      var records := c[q].records;
      forall i | 0 <= i < |records|
        ensures TextOf(c', records[i].name) == TextOf(c, records[i].name) && BufferLive(c', records[i].name)
      {
        if records[i].name.data.Some? {
          NameCountAfter(records, i, records[i], records[i].name.data.value);
          assert RecordListCount(c, list, records[i].name.data.value) > 0;
        }
      }
    }
  }

  lemma RecordListOwnsLive(c: Contents, list: RecordList, p: Pointer)
    requires RecordListLive(c, list) && RecordListCount(c, list, p) > 0
    ensures p in c
  {
    if list.data != Some(p) {
      NamedIn(RecordsOf(c, list), p);
    }
  }

  lemma {:induction false} NamedIn(records: seq<Record>, p: Pointer)
    requires NameCount(records, p) > 0
    ensures exists i :: 0 <= i < |records| && records[i].name.data == Some(p)
    decreases |records|
  {
    var n := |records| - 1;
    if records[n].name.data != Some(p) {
      NamedIn(records[..n], p);
      var i :| 0 <= i < n && records[..n][i].name.data == Some(p);
      assert records[i].name.data == Some(p);
    }
  }

  lemma ModuleOwnsParts(c: Contents, m: Module, p: Pointer)
    ensures RecordListCount(c, m.exports, p) <= ModuleCount(c, m, p)
    ensures RecordListCount(c, m.needed, p) <= ModuleCount(c, m, p)
    ensures RecordListCount(c, m.sections, p) <= ModuleCount(c, m, p)
    ensures PointerCount(m.name.data, p) <= ModuleCount(c, m, p) && PointerCount(m.path.data, p) <= ModuleCount(c, m, p)
    ensures PointerCount(m.rpath.data, p) <= ModuleCount(c, m, p)
            && PointerCount(m.runpath.data, p) <= ModuleCount(c, m, p)
  {
  }

  lemma TextStays(c: Contents, c': Contents, b: Buffer)
    requires BufferLive(c, b) && (b.data.Some? ==> SameBlock(c, c', b.data.value))
    ensures TextOf(c', b) == TextOf(c, b) && BufferLive(c', b)
  {
  }

  lemma ModuleListsStay(c: Contents, c': Contents, m: Module)
    requires ModuleLive(c, m)
    requires forall p | ModuleCount(c, m, p) > 0 :: SameBlock(c, c', p)
    ensures RecordListLive(c', m.exports) && ItemsOf(c', m.exports) == ItemsOf(c, m.exports)
    ensures RecordListLive(c', m.needed) && ItemsOf(c', m.needed) == ItemsOf(c, m.needed)
    ensures RecordListLive(c', m.sections) && ItemsOf(c', m.sections) == ItemsOf(c, m.sections)
    ensures forall p :: ModuleCount(c', m, p) == ModuleCount(c, m, p)
  {
    forall p: Pointer
      ensures RecordListCount(c, m.exports, p) > 0 ==> SameBlock(c, c', p)
      ensures RecordListCount(c, m.needed, p) > 0 ==> SameBlock(c, c', p)
      ensures RecordListCount(c, m.sections, p) > 0 ==> SameBlock(c, c', p)
    {
      ModuleOwnsParts(c, m, p);
    }
    RecordListStays(c, c', m.exports);
    RecordListStays(c, c', m.needed);
    RecordListStays(c, c', m.sections);
  }

  lemma OwnedTextStays(c: Contents, c': Contents, m: Module, b: Buffer)
    requires forall p | ModuleCount(c, m, p) > 0 :: SameBlock(c, c', p)
    requires BufferLive(c, b) && (b == m.name || b == m.path || b == m.rpath || b == m.runpath)
    ensures TextOf(c', b) == TextOf(c, b) && BufferLive(c', b)
  {
    if b.data.Some? {
      ModuleOwnsParts(c, m, b.data.value);
    }
    TextStays(c, c', b);
  }

  /** A module reads the same wherever the blocks it owns are the same. */
  lemma ModuleStays(c: Contents, c': Contents, m: Module)
    requires ModuleLive(c, m)
    requires forall p | ModuleCount(c, m, p) > 0 :: SameBlock(c, c', p)
    ensures ModuleLive(c', m) && SourceOf(c', m) == SourceOf(c, m)
    ensures forall p :: ModuleCount(c', m, p) == ModuleCount(c, m, p)
  {
    ModuleListsStay(c, c', m);
    OwnedTextStays(c, c', m, m.name);
    OwnedTextStays(c, c', m, m.path);
    OwnedTextStays(c, c', m, m.rpath);
    OwnedTextStays(c, c', m, m.runpath);
  }

  lemma ModuleOwnsLive(c: Contents, m: Module, p: Pointer)
    requires ModuleLive(c, m) && ModuleCount(c, m, p) > 0
    ensures p in c
  {
    if RecordListCount(c, m.exports, p) > 0 {
      RecordListOwnsLive(c, m.exports, p);
    } else if RecordListCount(c, m.needed, p) > 0 {
      RecordListOwnsLive(c, m.needed, p);
    } else if RecordListCount(c, m.sections, p) > 0 {
      RecordListOwnsLive(c, m.sections, p);
    }
  }

  // ---- How many allocations a copy takes ---------------------------------------------------

  function TextCost(text: string): nat {
    if text == "" then 0 else 1
  }

  function NamesCost(items: seq<Item>): nat {
    if items == [] then 0 else TextCost(items[0].name) + NamesCost(items[1..])
  }

  function ItemsCost(items: seq<Item>): nat {
    if items == [] then 0 else 1 + NamesCost(items)
  }

  /** The path is first converted to UTF-8, which may fail like an allocation. */
  function SourceCost(s: Source): nat {
    TextCost(s.name) + 1 + TextCost(s.path) + ItemsCost(s.exports) + ItemsCost(s.needed) + ItemsCost(s.sections)
    + TextCost(s.rpath) + TextCost(s.runpath)
  }

  function AllSourcesCost(sources: seq<Source>): nat {
    if sources == [] then 0 else SourceCost(sources[0]) + AllSourcesCost(sources[1..])
  }

  function SourcesCost(sources: seq<Source>): nat {
    if sources == [] then 0 else 1 + AllSourcesCost(sources)
  }

  // ---- What freeing leaves --------------------------------------------------------------

  /** Only blocks of `c` are left, unchanged. */
  ghost predicate Shrinks(c: Contents, c': Contents) {
    forall p | p in c' :: SameBlock(c, c', p)
  }

  /** Nothing was allocated, released or changed. */
  lemma SameContents(c: Contents, c': Contents)
    requires Shrinks(c, c') && forall p: Pointer :: Held(c', p) == Held(c, p)
    ensures c' == c
  {
    assert forall p | p in c :: Held(c', p) == 1;
  }

  /** What was built on top of a heap and released again leaves that heap. */
  lemma BackToStart(start: Contents, built: Contents, end: Contents)
    requires Preserves(start, built) && Shrinks(built, end)
    requires forall p: Pointer :: Held(end, p) == Held(start, p)
    ensures end == start
  {
    assert forall p | p in start :: Held(end, p) == 1;
    assert forall p | p in end :: Held(start, p) == 1;
  }

  class Heap {
    var contents: Contents
    var next: Pointer
    var grants: nat          // allocations that succeed before one fails

    /** Addresses are not handed out twice. */
    ghost predicate Valid()
      reads this
    {
      forall p | p in contents :: p < next
    }

    constructor (grants: nat)
      ensures Valid() && contents == map[] && this.grants == grants
    {
      contents, next, this.grants := map[], 0, grants;
    }

    method Allocate(block: Block) returns (p: Option<Pointer>)
      requires Valid()
      modifies this
      ensures Valid()
      ensures p.Some? <==> old(grants) > 0
      ensures grants == if p.Some? then old(grants) - 1 else 0
      ensures p.None? ==> contents == old(contents)
      ensures p.Some? ==> p.value !in old(contents) && contents == old(contents)[p.value := block]
    {
      if grants == 0 {
        return None;
      }
      grants := grants - 1;
      p := Some(next);
      contents := contents[next := block];
      next := next + 1;
    }

    /** Releasing a block that is not live would be a double free; null is allowed. */
    method Delete(data: Option<Pointer>)
      requires Valid() && (data.Some? ==> data.value in contents)
      modifies `contents
      ensures Valid() && contents == if data.Some? then old(contents) - {data.value} else old(contents)
    {
      if data.Some? {
        contents := contents - {data.value};
      }
    }

    method SetBuffer(text: string) returns (ok: bool, b: Buffer)
      requires Valid()
      modifies this
      ensures Valid() && (ok <==> old(grants) >= TextCost(text))
      ensures BufferBuilt(old(contents), contents, b)
      ensures ok ==> TextOf(contents, b) == text && b.length == |text| && grants == old(grants) - TextCost(text)
      ensures !ok ==> b == NO_BUFFER && contents == old(contents)
    {
      b := NO_BUFFER;
      if |text| == 0 {
        return true, b;
      }
      var p := Allocate(Text(text));
      if p.None? {
        return false, b;
      }
      return true, Buffer(p, |text|);
    }

    method FreeBuffer(b: Buffer) returns (b': Buffer)
      requires Valid() && BufferLive(contents, b)
      modifies `contents
      ensures Valid() && b' == NO_BUFFER
      ensures contents == if b.data.Some? then old(contents) - {b.data.value} else old(contents)
      ensures forall p: Pointer :: Held(contents, p) + PointerCount(b.data, p) == Held(old(contents), p)
    {
      Delete(b.data);
      return NO_BUFFER;
    }

    /** Reads the i-th name through the array, frees it, and empties it in the array. */
    method FreeName(list: RecordList, i: nat)
      requires Valid() && RecordListLive(contents, list) && i < list.length
      requires forall p: Pointer :: RecordListCount(contents, list, p) <= Held(contents, p)
      modifies `contents
      ensures Valid() && RecordListLive(contents, list)
      ensures RecordsOf(contents, list) == var records := RecordsOf(old(contents), list);
                                           records[i := records[i].(name := NO_BUFFER)]
      ensures forall p | p in contents && list.data != Some(p) :: SameBlock(old(contents), contents, p)
      ensures forall p: Pointer :: Held(contents, p) + RecordListCount(old(contents), list, p)
                                   == Held(old(contents), p) + RecordListCount(contents, list, p)
    {
      var data := list.data.value;
      var record := contents[data].records[i];
      ghost var records := contents[data].records;
      assert RecordListCount(contents, list, data) <= 1;
      NameCountAfter(records, i, record, data);
      var name := FreeBuffer(record.name);
      contents := contents[data := Records(contents[data].records[i := record.(name := name)])];
      forall p: Pointer {
        NameCountAfter(records, i, record.(name := name), p);
      }
      NamesStayLive(old(contents), contents, list, i);
    }

    /** Frees each name, then the array, then zeroes the list. */
    method FreeRecordList(list: RecordList) returns (list': RecordList)
      requires Valid() && RecordListLive(contents, list)
      requires forall p: Pointer :: RecordListCount(contents, list, p) <= Held(contents, p)
      modifies `contents
      ensures Valid() && list' == NO_RECORDS && Shrinks(old(contents), contents)
      ensures forall p: Pointer :: Held(contents, p) + RecordListCount(old(contents), list, p) == Held(old(contents), p)
    {
      var i := 0;
      while i < list.length
        invariant 0 <= i <= list.length
        invariant Valid() && RecordListLive(contents, list)
        invariant forall p | p in contents && list.data != Some(p) :: SameBlock(old(contents), contents, p)
        invariant forall p: Pointer :: Held(contents, p) + RecordListCount(old(contents), list, p)
                                       == Held(old(contents), p) + RecordListCount(contents, list, p)
        invariant forall j | 0 <= j < i :: RecordsOf(contents, list)[j].name == NO_BUFFER
      {
        FreeName(list, i);
        i := i + 1;
      }
      forall p: Pointer {
        EmptyNames(RecordsOf(contents, list), p);
      }
      Delete(list.data);
      list' := NO_RECORDS;
    }

    /** Copies one name and stores the record through the array. */
    method CopyItem(list: RecordList, i: nat, item: Item) returns (copied: bool)
      requires Valid() && RecordListLive(contents, list) && i < list.length
      requires RecordsOf(contents, list)[i] == NO_RECORD
      modifies this
      ensures Valid() && RecordListLive(contents, list) && (copied <==> old(grants) >= TextCost(item.name))
      ensures !copied ==> contents == old(contents)
      ensures copied ==> ItemsOf(contents, list) == ItemsOf(old(contents), list)[i := item]
      ensures copied ==> grants == old(grants) - TextCost(item.name)
      ensures forall j | 0 <= j < list.length && j != i ::
              RecordsOf(contents, list)[j] == RecordsOf(old(contents), list)[j]
      ensures forall p | p in old(contents) && list.data != Some(p) :: SameBlock(old(contents), contents, p)
      ensures forall p: Pointer :: Held(contents, p) + RecordListCount(old(contents), list, p)
                                   == Held(old(contents), p) + RecordListCount(contents, list, p)
    {
      var data := list.data.value;
      ghost var records := contents[data].records;
      var name;
      copied, name := SetBuffer(item.name);
      if copied {
        ghost var built := contents;
        contents := contents[data := Records(contents[data].records[i := Record(name, item.fields)])];
        forall p: Pointer {
          NameCountAfter(records, i, Record(name, item.fields), p);
        }
        forall j | 0 <= j < list.length
          ensures BufferLive(contents, contents[data].records[j].name)
          ensures ItemOf(contents, contents[data].records[j])
                  == if j == i then item else ItemOf(old(contents), records[j])
        {
          assert BufferLive(old(contents), records[j].name);
        }
      }
    }

    /** `set_export_list`, `set_buffer_list` and `set_section_list`: the array is zeroed,
        then each name is copied; a failure frees what was built and leaves the list empty. */
    method SetRecordList(items: seq<Item>) returns (ok: bool, list: RecordList)
      requires Valid()
      modifies this
      ensures Valid() && (ok <==> old(grants) >= ItemsCost(items))
      ensures ListBuilt(old(contents), contents, list)
      ensures ok ==>
              ItemsOf(contents, list) == items && list.length == |items| && grants == old(grants) - ItemsCost(items)
      ensures !ok ==> list == NO_RECORDS && contents == old(contents)
    {
      list := NO_RECORDS;
      if |items| == 0 {
        return true, list;
      }
      var q := Allocate(Records(seq(|items|, _ => NO_RECORD)));
      if q.None? {
        return false, list;
      }
      list := RecordList(q, |items|);
      forall p: Pointer {
        EmptyNames(RecordsOf(contents, list), p);
      }
      var i := 0;
      while i < |items|
        invariant 0 <= i <= |items| == list.length && list.data == q
        invariant Valid() && RecordListLive(contents, list) && Preserves(old(contents), contents)
        invariant forall p: Pointer :: Held(contents, p) == Held(old(contents), p) + RecordListCount(contents, list, p)
        invariant old(grants) - grants == 1 + NamesCost(items) - NamesCost(items[i..])
        invariant forall j | 0 <= j < i :: ItemsOf(contents, list)[j] == items[j]
        invariant forall j | i <= j < |items| :: RecordsOf(contents, list)[j] == NO_RECORD
      {
        assert items[i..][0] == items[i] && items[i..][1..] == items[i + 1..];
        ghost var built := contents;
        var copied := CopyItem(list, i, items[i]);
        if !copied {
          var _ := FreeRecordList(list);
          list := NO_RECORDS;
          BackToStart(old(contents), built, contents);
          return false, list;
        }
        i := i + 1;
      }
      ok := true;
    }

    /** Fills the fields in order; whichever allocation fails, everything already in
        the module is freed and it is zeroed. */
    method SetModule(s: Source) returns (ok: bool, m: Module)
      requires Valid()
      modifies this
      ensures Valid() && (ok <==> old(grants) >= SourceCost(s))
      ensures PartBuilt(old(contents), contents, m)
      ensures ok ==> SourceOf(contents, m) == s && grants == old(grants) - SourceCost(s)
      ensures !ok ==> m == NO_MODULE && contents == old(contents)
    {
      ghost var start := contents;
      ok, m := SetTexts(s);
      if ok {
        ok, m := SetLists(s, m, start);
      }
      if ok {
        ok, m := SetPaths(s, m, start);
      }
      if !ok {
        ghost var built := contents;
        m := FreeModule(m);
        BackToStart(start, built, contents);
      }
    }

    method SetTexts(s: Source) returns (ok: bool, m: Module)
      requires Valid()
      modifies this
      ensures Valid() && PartBuilt(old(contents), contents, m)
      ensures ok <==> old(grants) >= TextCost(s.name) + 1 + TextCost(s.path)
      ensures ok ==> grants == old(grants) - (TextCost(s.name) + 1 + TextCost(s.path))
      ensures ok ==> SourceOf(contents, m) == Source(s.name, s.path, s.fields, [], [], [], "", "")
      ensures ok ==> m == NO_MODULE.(name := m.name, path := m.path, fields := s.fields)
    {
      ghost var start := contents;
      m := NO_MODULE;
      var name, path;
      ok, name := SetBuffer(s.name);
      m := m.(name := name);
      if ok {
        ok := ConvertPath(s.path);
      }
      if ok {
        ghost var c := contents;
        ok, path := SetBuffer(s.path);
        AddPath(start, c, contents, m, path);
        m := m.(path := path);
        m := m.(fields := s.fields);
      }
    }

    /** The path is converted first, into a text of its own that does not outlive the copy. */
    method ConvertPath(path: string) returns (ok: bool)
      requires Valid()
      modifies this
      ensures Valid() && contents == old(contents) && (ok <==> old(grants) > 0) && (ok ==> grants == old(grants) - 1)
    {
      var utf8 := Allocate(Text(path));
      Delete(utf8);
      ok := utf8.Some?;
    }

    method SetLists(s: Source, before: Module, ghost start: Contents) returns (ok: bool, m: Module)
      requires Valid() && PartBuilt(start, contents, before)
      requires before.exports == before.needed == before.sections == NO_RECORDS
      modifies this
      ensures Valid() && PartBuilt(start, contents, m)
      ensures ok <==> old(grants) >= ItemsCost(s.exports) + ItemsCost(s.needed) + ItemsCost(s.sections)
      ensures ok ==> grants == old(grants) - (ItemsCost(s.exports) + ItemsCost(s.needed) + ItemsCost(s.sections))
      ensures ok ==> SourceOf(contents, m) ==
                     SourceOf(old(contents), before).(exports := s.exports, needed := s.needed, sections := s.sections)
      ensures ok ==> m == before.(exports := m.exports, needed := m.needed, sections := m.sections)
    {
      m := before;
      var exports, needed, sections;
      ghost var c := contents;
      ok, exports := SetRecordList(s.exports);
      AddExports(start, c, contents, m, exports);
      m := m.(exports := exports);
      if ok {
        c := contents;
        ok, needed := SetRecordList(s.needed);
        AddNeeded(start, c, contents, m, needed);
        m := m.(needed := needed);
      }
      if ok {
        c := contents;
        ok, sections := SetRecordList(s.sections);
        AddSections(start, c, contents, m, sections);
        m := m.(sections := sections);
      }
    }

    method SetPaths(s: Source, before: Module, ghost start: Contents) returns (ok: bool, m: Module)
      requires Valid() && PartBuilt(start, contents, before)
      requires before.rpath == before.runpath == NO_BUFFER
      modifies this
      ensures Valid() && PartBuilt(start, contents, m)
      ensures ok <==> old(grants) >= TextCost(s.rpath) + TextCost(s.runpath)
      ensures ok ==> grants == old(grants) - (TextCost(s.rpath) + TextCost(s.runpath))
      ensures ok ==> SourceOf(contents, m) == SourceOf(old(contents), before).(rpath := s.rpath, runpath := s.runpath)
    {
      m := before;
      var rpath, runpath;
      ghost var c := contents;
      ok, rpath := SetBuffer(s.rpath);
      AddRpath(start, c, contents, m, rpath);
      m := m.(rpath := rpath);
      if ok {
        c := contents;
        ok, runpath := SetBuffer(s.runpath);
        AddRunpath(start, c, contents, m, runpath);
        m := m.(runpath := runpath);
      }
    }

    /** Frees the i-th module through the array and empties it there. */
    method FreeElement(list: ModuleList, i: nat)
      requires Valid() && ModuleListLive(contents, list) && OwnsOnce(contents, list) && i < list.length
      modifies `contents
      ensures Valid() && ModuleListLive(contents, list)
      ensures ModulesOf(contents, list) == ModulesOf(old(contents), list)[i := NO_MODULE]
      ensures forall p | p in contents && list.data != Some(p) :: SameBlock(old(contents), contents, p)
      ensures forall p: Pointer :: Held(contents, p) + ModuleListCount(old(contents), list, p)
                                   == Held(old(contents), p) + ModuleListCount(contents, list, p)
    {
      ghost var c := contents;
      var data := list.data.value;
      var m := contents[data].modules[i];
      forall p: Pointer
        ensures ModuleCount(c, m, p) + PointerCount(list.data, p) <= Held(c, p)
      {
        ModuleCountAfter(c, c[data].modules, i, m, p);
        assert ModuleListCount(c, list, p) <= Held(c, p);
      }
      var freed := FreeModule(m);
      assert Held(contents, data) == 1;
      contents := contents[data := Modules(contents[data].modules[i := freed])];
      forall j, p | 0 <= j < list.length && j != i && ModuleCount(c, ModulesOf(c, list)[j], p) > 0
        ensures SameBlock(c, contents, p)
      {
        ElementsAreApart(c, list, i, j, p);
        assert Held(contents, p) == 1;
      }
      NothingOwned(contents, NO_MODULE);
      ElementReplaced(c, contents, list, i, NO_MODULE);
    }

    method FreeModuleList(list: ModuleList) returns (list': ModuleList)
      requires Valid() && ModuleListLive(contents, list) && OwnsOnce(contents, list)
      modifies `contents
      ensures Valid() && list' == NO_MODULES && Shrinks(old(contents), contents)
      ensures forall p: Pointer :: Held(contents, p) + ModuleListCount(old(contents), list, p) == Held(old(contents), p)
    {
      var i := 0;
      while i < list.length
        invariant 0 <= i <= list.length
        invariant Valid() && ModuleListLive(contents, list) && OwnsOnce(contents, list)
        invariant forall p | p in contents && list.data != Some(p) :: SameBlock(old(contents), contents, p)
        invariant forall p: Pointer :: Held(contents, p) + ModuleListCount(old(contents), list, p)
                                       == Held(old(contents), p) + ModuleListCount(contents, list, p)
        invariant forall j | 0 <= j < i :: ModulesOf(contents, list)[j] == NO_MODULE
      {
        FreeElement(list, i);
        i := i + 1;
      }
      forall p: Pointer {
        EmptyModules(contents, ModulesOf(contents, list), p);
      }
      Delete(list.data);
      list' := NO_MODULES;
    }

    /** Freeing what was built on top of `start`, complete or not. */
    method FreeCopy(list: ModuleList, ghost start: Contents) returns (list': ModuleList)
      requires Valid() && ModulesBuilt(start, contents, list)
      modifies `contents
      ensures Valid() && list' == NO_MODULES && contents == start
    {
      ghost var built := contents;
      list' := FreeModuleList(list);
      BackToStart(start, built, contents);
    }

    /** Copies the i-th module and stores it through the array. */
    method CopyElement(list: ModuleList, sources: seq<Source>, i: nat, ghost start: Contents) returns (copied: bool)
      requires Valid() && CopiedSoFar(start, contents, list, sources, i) && i < |sources|
      modifies this
      ensures Valid() && (copied <==> old(grants) >= SourceCost(sources[i]))
      ensures if copied then CopiedSoFar(start, contents, list, sources, i + 1) else contents == old(contents)
      ensures copied ==> grants == old(grants) - SourceCost(sources[i])
    {
      ghost var c := contents;
      var data := list.data.value;
      var m;
      copied, m := SetModule(sources[i]);
      assert SameBlock(c, contents, data);
      if copied {
        ghost var built := contents;
        contents := contents[data := Modules(contents[data].modules[i := m])];
        ElementIsStored(c, built, contents, list, i, m);
        OneMoreCopied(start, c, contents, list, sources, i);
      }
    }

    /** All or nothing, for every list of modules and every allocation that may fail:
        a complete copy owning exactly the blocks it added, or an empty list and the
        heap as it was. It fails exactly when the copy needs more allocations than
        succeed. */
    method GetModules(sources: seq<Source>) returns (ok: bool, list: ModuleList)
      requires Valid()
      modifies this
      ensures Valid() && (ok <==> old(grants) >= SourcesCost(sources))
      ensures ModulesBuilt(old(contents), contents, list)
      ensures ok ==> SourcesOf(contents, list) == sources && list.length == |sources|
      ensures !ok ==> list == NO_MODULES && contents == old(contents)
    {
      list := NO_MODULES;
      if |sources| == 0 {
        return true, list;
      }
      var q := Allocate(Modules(seq(|sources|, _ => NO_MODULE)));
      if q.None? {
        return false, list;
      }
      list := ModuleList(q, |sources|);
      NothingCopied(old(contents), contents, list, sources, q.value);
      ok := CopyElements(list, sources, old(contents));
      if !ok {
        list := FreeCopy(list, old(contents));
      }
    }

    /** Copies the modules in turn until one fails. */
    method CopyElements(list: ModuleList, sources: seq<Source>, ghost start: Contents) returns (ok: bool)
      requires Valid() && CopiedSoFar(start, contents, list, sources, 0)
      modifies this
      ensures Valid() && (ok <==> old(grants) >= AllSourcesCost(sources))
      ensures ModulesBuilt(start, contents, list) && (ok ==> SourcesOf(contents, list) == sources)
    {
      var i := 0;
      while i < |sources|
        invariant 0 <= i <= |sources|
        invariant Valid() && CopiedSoFar(start, contents, list, sources, i)
        invariant old(grants) - grants == AllSourcesCost(sources) - AllSourcesCost(sources[i..])
      {
        assert sources[i..][0] == sources[i] && sources[i..][1..] == sources[i + 1..];
        var copied := CopyElement(list, sources, i, start);
        if !copied {
          return false;
        }
        i := i + 1;
      }
      AllCopied(start, contents, list, sources);
      ok := true;
    }

    /** Copying and freeing, however the copy ended and however often the result is
        freed, leaves the heap exactly as it was. */
    method CopyAndFree(sources: seq<Source>)
      requires Valid()
      modifies this
      ensures Valid() && contents == old(contents)
    {
      ghost var start := contents;
      var _, list := GetModules(sources);
      list := FreeCopy(list, start);
      list := FreeModuleList(list);
      SameContents(start, contents);
    }

    /** Every part is freed and emptied in turn. */
    method FreeModule(m: Module) returns (m': Module)
      requires Valid() && ModuleLive(contents, m)
      requires forall p: Pointer :: ModuleCount(contents, m, p) <= Held(contents, p)
      modifies `contents
      ensures Valid() && m' == NO_MODULE && Shrinks(old(contents), contents)
      ensures forall p: Pointer :: Held(contents, p) + ModuleCount(old(contents), m, p) == Held(old(contents), p)
    {
      ghost var c := contents;
      var m1 := FreeTexts(m);
      ghost var c1 := contents;
      var m2 := FreeLists(m1);
      PartsFreed(c, c1, contents, m, m1, m2);
      ghost var c2 := contents;
      var m3 := FreePaths(m2);
      PartsFreed(c, c2, contents, m, m2, m3);
      NothingOwned(contents, m3);
      m' := NO_MODULE;
    }

    method FreePaths(m: Module) returns (m': Module)
      requires Valid() && ModuleLive(contents, m)
      requires forall p: Pointer :: ModuleCount(contents, m, p) <= Held(contents, p)
      modifies `contents
      ensures Valid() && m' == m.(rpath := NO_BUFFER, runpath := NO_BUFFER)
      ensures PartFreed(old(contents), contents, m, m')
    {
      var rpath := FreeBuffer(m.rpath);
      m' := m.(rpath := rpath);
      PartIsFreed(old(contents), contents, m, m');
      ghost var c := contents;
      var runpath := FreeBuffer(m'.runpath);
      PartIsFreed(c, contents, m', m'.(runpath := runpath));
      PartsFreed(old(contents), c, contents, m, m', m'.(runpath := runpath));
      m' := m'.(runpath := runpath);
    }

    method FreeTexts(m: Module) returns (m': Module)
      requires Valid() && ModuleLive(contents, m)
      requires forall p: Pointer :: ModuleCount(contents, m, p) <= Held(contents, p)
      modifies `contents
      ensures Valid() && m' == m.(name := NO_BUFFER, path := NO_BUFFER)
      ensures PartFreed(old(contents), contents, m, m')
    {
      var name := FreeBuffer(m.name);
      m' := m.(name := name);
      PartIsFreed(old(contents), contents, m, m');
      ghost var c := contents;
      var path := FreeBuffer(m'.path);
      PartIsFreed(c, contents, m', m'.(path := path));
      PartsFreed(old(contents), c, contents, m, m', m'.(path := path));
      m' := m'.(path := path);
    }

    method FreeLists(m: Module) returns (m': Module)
      requires Valid() && ModuleLive(contents, m)
      requires forall p: Pointer :: ModuleCount(contents, m, p) <= Held(contents, p)
      modifies `contents
      ensures Valid() && m' == m.(exports := NO_RECORDS, needed := NO_RECORDS, sections := NO_RECORDS)
      ensures PartFreed(old(contents), contents, m, m')
    {
      ListsAreOwned(contents, m);
      var exports := FreeRecordList(m.exports);
      m' := m.(exports := exports);
      ListIsFreed(old(contents), contents, m, m', m.exports);
      ghost var c, m1 := contents, m';
      ListsAreOwned(c, m1);
      var needed := FreeRecordList(m'.needed);
      m' := m'.(needed := needed);
      ListIsFreed(c, contents, m1, m', m1.needed);
      PartsFreed(old(contents), c, contents, m, m1, m');
      ghost var c2, m2 := contents, m';
      ListsAreOwned(c2, m2);
      var sections := FreeRecordList(m'.sections);
      m' := m'.(sections := sections);
      ListIsFreed(c2, contents, m2, m', m2.sections);
      PartsFreed(old(contents), c2, contents, m, m2, m');
    }
  }

  ghost predicate OwnsOnce(c: Contents, list: ModuleList) {
    forall p: Pointer :: ModuleListCount(c, list, p) <= Held(c, p)
  }

  /** In a list that owns each block once, a module shares nothing with the array or with
      another module. */
  lemma ElementsAreApart(c: Contents, list: ModuleList, i: nat, j: nat, p: Pointer)
    requires ModuleListLive(c, list) && OwnsOnce(c, list) && i < list.length && j < list.length && i != j
    requires ModuleCount(c, ModulesOf(c, list)[j], p) > 0
    ensures ModuleCount(c, ModulesOf(c, list)[i], p) == 0 && list.data != Some(p) && p in c
  {
    assert ModuleListCount(c, list, p) <= 1;
    ModulesShareNothing(c, ModulesOf(c, list), i, j, p);
    ModuleOwnsLive(c, ModulesOf(c, list)[j], p);
  }

  /** Replacing one element, when nothing else that the list owns is touched. */
  lemma ElementReplaced(c: Contents, c': Contents, list: ModuleList, i: nat, m: Module)
    requires ModuleListLive(c, list) && OwnsOnce(c, list) && i < list.length
    requires list.data.value in c' && c'[list.data.value] == Modules(ModulesOf(c, list)[i := m]) && ModuleLive(c', m)
    requires forall j, p | 0 <= j < list.length && j != i && ModuleCount(c, ModulesOf(c, list)[j], p) > 0 ::
               SameBlock(c, c', p)
    ensures ModuleListLive(c', list)
    ensures SourcesOf(c', list) == SourcesOf(c, list)[i := SourceOf(c', m)]
    ensures forall p: Pointer :: ModuleListCount(c', list, p) + ModuleCount(c, ModulesOf(c, list)[i], p)
                                 == ModuleListCount(c, list, p) + ModuleCount(c', m, p)
  {
    var modules := ModulesOf(c, list);
    forall j | 0 <= j < list.length && j != i
      ensures ModuleLive(c', modules[j]) && SourceOf(c', modules[j]) == SourceOf(c, modules[j])
      ensures forall p :: ModuleCount(c', modules[j], p) == ModuleCount(c, modules[j], p)
    {
      ModuleStays(c, c', modules[j]);
    }
    forall p: Pointer {
      OneCountReplaced(c, c', modules, i, m, p);
    }
  }

  lemma OneCountReplaced(c: Contents, c': Contents, modules: seq<Module>, i: nat, m: Module, p: Pointer)
    requires i < |modules|
    requires forall j | 0 <= j < |modules| && j != i :: ModuleCount(c', modules[j], p) == ModuleCount(c, modules[j], p)
    ensures AllModuleCount(c', modules[i := m], p) + ModuleCount(c, modules[i], p)
         == AllModuleCount(c, modules, p) + ModuleCount(c', m, p)
  {
    var counts := ModuleCounts(c, modules, p);
    SumAfter(counts, i, ModuleCount(c', m, p));
    assert ModuleCounts(c', modules[i := m], p) == counts[i := ModuleCount(c', m, p)];
  }

  /** One element was copied and stored, and nothing else of the list was touched. */
  ghost predicate ElementStored(c: Contents, c': Contents, list: ModuleList, i: nat, s: Source) {
    && ModuleListLive(c', list) && i < |SourcesOf(c, list)| == |SourcesOf(c', list)|
    && SourcesOf(c', list) == SourcesOf(c, list)[i := s]
    && (forall j | 0 <= j < |ModulesOf(c, list)| && j != i :: ModulesOf(c', list)[j] == ModulesOf(c, list)[j])
    && (forall p | p in c && list.data != Some(p) :: SameBlock(c, c', p))
    && forall p: Pointer :: Held(c', p) + ModuleListCount(c, list, p) == Held(c, p) + ModuleListCount(c', list, p)
  }

  lemma ElementIsStored(c: Contents, built: Contents, c': Contents, list: ModuleList, i: nat, m: Module)
    requires ModuleListLive(c, list) && OwnsOnce(c, list) && i < list.length && ModulesOf(c, list)[i] == NO_MODULE
    requires PartBuilt(c, built, m) && list.data.value in built
    requires c' == built[list.data.value := Modules(ModulesOf(c, list)[i := m])]
    ensures ElementStored(c, c', list, i, SourceOf(built, m))
  {
    var data := list.data.value;
    assert SameBlock(c, built, data);
    assert ModuleCount(built, m, data) == 0;
    StoringKeeps(built, c', m, data);
    OthersUntouched(c, built, c', list, i);
    NothingOwned(c, NO_MODULE);
    ElementReplaced(c, c', list, i, m);
    forall p: Pointer
      ensures Held(c', p) + ModuleListCount(c, list, p) == Held(c, p) + ModuleListCount(c', list, p)
    {
      assert Held(c', p) == Held(built, p) == Held(c, p) + ModuleCount(c', m, p);
    }
  }

  /** A module reads the same whatever is stored in a block it does not own. */
  lemma StoringKeeps(c: Contents, c': Contents, m: Module, data: Pointer)
    requires ModuleLive(c, m) && ModuleCount(c, m, data) == 0
    requires forall p | p in c && p != data :: SameBlock(c, c', p)
    ensures ModuleLive(c', m) && SourceOf(c', m) == SourceOf(c, m)
    ensures forall p: Pointer :: ModuleCount(c', m, p) == ModuleCount(c, m, p)
  {
    forall p | ModuleCount(c, m, p) > 0
      ensures SameBlock(c, c', p)
    {
      ModuleOwnsLive(c, m, p);
    }
    ModuleStays(c, c', m);
  }

  lemma OthersUntouched(c: Contents, built: Contents, c': Contents, list: ModuleList, i: nat)
    requires ModuleListLive(c, list) && OwnsOnce(c, list) && i < list.length && Preserves(c, built)
    requires forall p | p in built && list.data != Some(p) :: SameBlock(built, c', p)
    ensures forall p | p in c && list.data != Some(p) :: SameBlock(c, c', p)
    ensures forall j, p | 0 <= j < list.length && j != i && ModuleCount(c, ModulesOf(c, list)[j], p) > 0 ::
              SameBlock(c, c', p)
  {
    forall p | p in c && list.data != Some(p)
      ensures SameBlock(c, c', p)
    {
      assert SameBlock(c, built, p) && SameBlock(built, c', p);
    }
    forall j, p | 0 <= j < list.length && j != i && ModuleCount(c, ModulesOf(c, list)[j], p) > 0
      ensures SameBlock(c, c', p)
    {
      ElementsAreApart(c, list, i, j, p);
    }
  }

  /** On top of the heap `start`, exactly the blocks that the list owns were allocated. */
  ghost predicate ModulesBuilt(start: Contents, c: Contents, list: ModuleList) {
    && Preserves(start, c) && ModuleListLive(c, list)
    && forall p: Pointer :: Held(c, p) == Held(start, p) + ModuleListCount(c, list, p)
  }

  /** The first `i` modules were copied, and the list owns what was added to `start`. */
  ghost predicate CopiedSoFar(start: Contents, c: Contents, list: ModuleList, sources: seq<Source>, i: nat) {
    && i <= |sources| == list.length && ModulesBuilt(start, c, list)
    && list.data.Some? && (forall j | 0 <= j < i :: SourcesOf(c, list)[j] == sources[j])
    && (forall j | i <= j < |sources| :: ModulesOf(c, list)[j] == NO_MODULE)
  }

  lemma NothingCopied(start: Contents, c: Contents, list: ModuleList, sources: seq<Source>, data: Pointer)
    requires data !in start && list == ModuleList(Some(data), |sources|)
    requires c == start[data := Modules(seq(|sources|, _ => NO_MODULE))]
    ensures CopiedSoFar(start, c, list, sources, 0)
  {
    forall p: Pointer {
      EmptyModules(c, ModulesOf(c, list), p);
    }
    NothingOwned(c, NO_MODULE);
  }

  lemma AllCopied(start: Contents, c: Contents, list: ModuleList, sources: seq<Source>)
    requires CopiedSoFar(start, c, list, sources, |sources|)
    ensures SourcesOf(c, list) == sources
  {
  }

  lemma OneMoreCopied(start: Contents, c: Contents, c': Contents, list: ModuleList, sources: seq<Source>, i: nat)
    requires CopiedSoFar(start, c, list, sources, i) && i < |sources|
    requires ElementStored(c, c', list, i, sources[i])
    ensures CopiedSoFar(start, c', list, sources, i + 1)
  {
    assert Held(c, list.data.value) == 1 && ModuleListCount(c, list, list.data.value) == 1;
    forall p | p in start
      ensures SameBlock(start, c', p)
    {
      assert SameBlock(start, c, p) && SameBlock(c, c', p);
    }
  }

  /** On top of the heap `start`, exactly the blocks that `m` owns were allocated. */
  ghost predicate PartBuilt(start: Contents, c: Contents, m: Module) {
    && Preserves(start, c) && ModuleLive(c, m)
    && forall p: Pointer :: Held(c, p) == Held(start, p) + ModuleCount(c, m, p)
  }

  /** What was built stays as it is while more is built. */
  lemma BuildOn(start: Contents, c: Contents, c': Contents, m: Module)
    requires PartBuilt(start, c, m) && Preserves(c, c')
    ensures Preserves(start, c') && ModuleLive(c', m) && SourceOf(c', m) == SourceOf(c, m)
    ensures forall p: Pointer :: ModuleCount(c', m, p) == ModuleCount(c, m, p)
  {
    forall p | ModuleCount(c, m, p) > 0
      ensures SameBlock(c, c', p)
    {
      ModuleOwnsLive(c, m, p);
    }
    ModuleStays(c, c', m);
    forall p | p in start
      ensures SameBlock(start, c', p)
    {
      assert SameBlock(start, c, p) && SameBlock(c, c', p);
    }
  }

  ghost predicate BufferBuilt(c: Contents, c': Contents, b: Buffer) {
    && Preserves(c, c') && BufferLive(c', b)
    && forall p: Pointer :: Held(c', p) == Held(c, p) + PointerCount(b.data, p)
  }

  ghost predicate ListBuilt(c: Contents, c': Contents, list: RecordList) {
    && Preserves(c, c') && RecordListLive(c', list)
    && forall p: Pointer :: Held(c', p) == Held(c, p) + RecordListCount(c', list, p)
  }

  lemma AddPath(start: Contents, c: Contents, c': Contents, m: Module, b: Buffer)
    requires PartBuilt(start, c, m) && BufferBuilt(c, c', b) && m.path == NO_BUFFER
    ensures var m' := m.(path := b);
            PartBuilt(start, c', m') && SourceOf(c', m') == SourceOf(c, m).(path := TextOf(c', b))
  {
    BuildOn(start, c, c', m);
  }

  lemma AddRpath(start: Contents, c: Contents, c': Contents, m: Module, b: Buffer)
    requires PartBuilt(start, c, m) && BufferBuilt(c, c', b) && m.rpath == NO_BUFFER
    ensures var m' := m.(rpath := b);
            PartBuilt(start, c', m') && SourceOf(c', m') == SourceOf(c, m).(rpath := TextOf(c', b))
  {
    BuildOn(start, c, c', m);
  }

  lemma AddRunpath(start: Contents, c: Contents, c': Contents, m: Module, b: Buffer)
    requires PartBuilt(start, c, m) && BufferBuilt(c, c', b) && m.runpath == NO_BUFFER
    ensures var m' := m.(runpath := b);
            PartBuilt(start, c', m') && SourceOf(c', m') == SourceOf(c, m).(runpath := TextOf(c', b))
  {
    BuildOn(start, c, c', m);
  }

  lemma AddExports(start: Contents, c: Contents, c': Contents, m: Module, list: RecordList)
    requires PartBuilt(start, c, m) && ListBuilt(c, c', list) && m.exports == NO_RECORDS
    ensures var m' := m.(exports := list);
            PartBuilt(start, c', m') && SourceOf(c', m') == SourceOf(c, m).(exports := ItemsOf(c', list))
  {
    BuildOn(start, c, c', m);
  }

  lemma AddNeeded(start: Contents, c: Contents, c': Contents, m: Module, list: RecordList)
    requires PartBuilt(start, c, m) && ListBuilt(c, c', list) && m.needed == NO_RECORDS
    ensures var m' := m.(needed := list);
            PartBuilt(start, c', m') && SourceOf(c', m') == SourceOf(c, m).(needed := ItemsOf(c', list))
  {
    BuildOn(start, c, c', m);
  }

  lemma AddSections(start: Contents, c: Contents, c': Contents, m: Module, list: RecordList)
    requires PartBuilt(start, c, m) && ListBuilt(c, c', list) && m.sections == NO_RECORDS
    ensures var m' := m.(sections := list);
            PartBuilt(start, c', m') && SourceOf(c', m') == SourceOf(c, m).(sections := ItemsOf(c', list))
  {
    BuildOn(start, c, c', m);
  }

  /** What `m` owned and `m'` no longer does was released, and `m'` is intact. */
  ghost predicate PartFreed(c: Contents, c': Contents, m: Module, m': Module) {
    && Shrinks(c, c') && ModuleLive(c', m')
    && (forall p: Pointer :: Held(c', p) + ModuleCount(c, m, p) == Held(c, p) + ModuleCount(c', m', p))
    && (forall p: Pointer :: ModuleCount(c', m', p) <= Held(c', p))
  }

  lemma PartIsFreed(c: Contents, c': Contents, m: Module, m': Module)
    requires ModuleLive(c, m) && ModuleLive(c, m') && Shrinks(c, c')
    requires forall p: Pointer :: ModuleCount(c, m, p) <= Held(c, p)
    requires forall p: Pointer :: Held(c', p) + ModuleCount(c, m, p) == Held(c, p) + ModuleCount(c, m', p)
    ensures PartFreed(c, c', m, m')
  {
    assert forall p | ModuleCount(c, m', p) > 0 :: Held(c', p) > 0;
    ModuleStays(c, c', m');
  }

  lemma ListsAreOwned(c: Contents, m: Module)
    requires forall p: Pointer :: ModuleCount(c, m, p) <= Held(c, p)
    ensures forall p: Pointer :: RecordListCount(c, m.exports, p) <= Held(c, p)
    ensures forall p: Pointer :: RecordListCount(c, m.needed, p) <= Held(c, p)
    ensures forall p: Pointer :: RecordListCount(c, m.sections, p) <= Held(c, p)
  {
    forall p: Pointer
      ensures RecordListCount(c, m.exports, p) <= Held(c, p)
      ensures RecordListCount(c, m.needed, p) <= Held(c, p)
      ensures RecordListCount(c, m.sections, p) <= Held(c, p)
    {
      assert ModuleCount(c, m, p) <= Held(c, p);
    }
  }

  lemma ListIsFreed(c: Contents, c': Contents, m: Module, m': Module, list: RecordList)
    requires ModuleLive(c, m) && Shrinks(c, c') && forall p: Pointer :: ModuleCount(c, m, p) <= Held(c, p)
    requires forall p: Pointer :: Held(c', p) + RecordListCount(c, list, p) == Held(c, p)
    requires || (list == m.exports && m' == m.(exports := NO_RECORDS))
             || (list == m.needed && m' == m.(needed := NO_RECORDS))
             || (list == m.sections && m' == m.(sections := NO_RECORDS))
    ensures PartFreed(c, c', m, m')
  {
    forall p: Pointer
      ensures ModuleCount(c, m, p) == ModuleCount(c, m', p) + RecordListCount(c, list, p)
    {
    }
    PartIsFreed(c, c', m, m');
  }

  lemma NothingOwned(c: Contents, m: Module)
    requires m == NO_MODULE.(fields := m.fields)
    ensures forall p: Pointer :: ModuleCount(c, m, p) == 0
  {
  }

  lemma PartsFreed(c: Contents, c1: Contents, c2: Contents, m: Module, m1: Module, m2: Module)
    requires PartFreed(c, c1, m, m1) && PartFreed(c1, c2, m1, m2)
    ensures PartFreed(c, c2, m, m2)
  {
    forall p | p in c2
      ensures SameBlock(c, c2, p)
    {
      assert SameBlock(c1, c2, p) && SameBlock(c, c1, p);
    }
  }

  lemma NamesStayLive(c: Contents, c': Contents, list: RecordList, i: nat)
    requires RecordListLive(c, list) && list.data.Some? && i < list.length
    requires forall p: Pointer :: RecordListCount(c, list, p) <= Held(c, p)
    requires list.data.value in c'
    requires c'[list.data.value]
             == Records(c[list.data.value].records[i := c[list.data.value].records[i].(name := NO_BUFFER)])
    requires forall p | p in c && c[list.data.value].records[i].name.data != Some(p) && p != list.data.value ::
               SameBlock(c, c', p)
    ensures RecordListLive(c', list)
  {
    var records := c[list.data.value].records;
    forall j | 0 <= j < |records| && j != i && records[j].name.data.Some?
      ensures records[j].name.data != records[i].name.data
    {
      var p := records[j].name.data.value;
      NameCountAfter(records, i, NO_RECORD, p);
      NameCountAfter(records[i := NO_RECORD], j, NO_RECORD, p);
      assert RecordListCount(c, list, p) <= 1;
    }
  }
}
