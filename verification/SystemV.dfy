/**
 Symbol hooks on System V AMD64 functions: decoding INTEGER-class arguments at the
 first instruction of the callee, returning in its place, and the ctypes layer.
 */
module SystemV {
  import opened Prelude
  import opened Memory

  datatype Cpu = Cpu(rdi: Word, rsi: Word, rdx: Word, rcx: Word, r8: Word, r9: Word,
                     rax: Word, rsp: Word, rip: Word)

  // ---- The convention: section 3.2.3 of the System V AMD64 ABI ----------------

  const REGISTER_ARGUMENTS: nat := 6

  /** The words on the stack from `base` upwards. */
  function LayWords(mem: Memory, base: Word, words: seq<Word>): Memory
    decreases |words|
  {
    if words == [] then mem
    else StoreWord(LayWords(mem, Wrap(base + 8), words[1..]), base, words[0])
  }

  /** What a caller does: the first six words in registers, the rest in order just
      above the return address. Registers without an argument keep their value. */
  function PassRegisters(cpu: Cpu, words: seq<Word>): Cpu {
    cpu.(rdi := if |words| > 0 then words[0] else cpu.rdi,
         rsi := if |words| > 1 then words[1] else cpu.rsi,
         rdx := if |words| > 2 then words[2] else cpu.rdx,
         rcx := if |words| > 3 then words[3] else cpu.rcx,
         r8 := if |words| > 4 then words[4] else cpu.r8,
         r9 := if |words| > 5 then words[5] else cpu.r9)
  }

  function PassStack(cpu: Cpu, mem: Memory, words: seq<Word>): Memory {
    if |words| <= REGISTER_ARGUMENTS then mem else LayWords(mem, Wrap(cpu.rsp + 8), words[REGISTER_ARGUMENTS..])
  }

  /** What a body consisting of "load value; ret" does. */
  function Return(cpu: Cpu, returnAddress: Word, value: Word): Cpu {
    cpu.(rax := value, rsp := Wrap(cpu.rsp + 8), rip := returnAddress)
  }

  // ---- The registry's decoder --------------------------------------------------

  function StackAddress(stackPointer: Word, k: nat): Word {
    Wrap(stackPointer + 8 + k * 8)
  }

  function Argument(cpu: Cpu, mem: Memory, index: nat): Option<Word> {
    match index
    case 0 => Some(cpu.rdi)
    case 1 => Some(cpu.rsi)
    case 2 => Some(cpu.rdx)
    case 3 => Some(cpu.rcx)
    case 4 => Some(cpu.r8)
    case 5 => Some(cpu.r9)
    case _ => LoadWord(mem, StackAddress(cpu.rsp, index - 6))
  }

  predicate Readable(cpu: Cpu, mem: Memory, count: nat) {
    forall i | 0 <= i < count :: Argument(cpu, mem, i).Some?
  }

  function Arguments(cpu: Cpu, mem: Memory, count: nat): seq<Word>
    requires Readable(cpu, mem, count)
  {
    seq(count, i requires 0 <= i < count => Argument(cpu, mem, i).value)
  }

  datatype Reaction = RunOriginal | Intercept(value: Word)

  /** A callback sees its arguments and may write registers before it answers. */
  type Callback = (seq<Word>, Word, Cpu) -> (Reaction, Cpu)

  datatype Hook = Hook(parameterCount: nat, callback: Callback)

  datatype Outcome = NotCalled | Called(arguments: seq<Word>, reaction: Reaction)

  /** What happens at one execution hook, in closed form. `entry` is absent when the
      key is no longer registered or no module is mapped at the address. */
  function Respond(entry: Option<Hook>, cpu: Cpu, mem: Memory): (Outcome, Cpu) {
    var returnAddress := LoadWord(mem, cpu.rsp);
    if returnAddress.None? || entry.None? || !Readable(cpu, mem, entry.value.parameterCount) then (NotCalled, cpu)
    else
      var arguments := Arguments(cpu, mem, entry.value.parameterCount);
      var (reaction, after) := entry.value.callback(arguments, returnAddress.value, cpu);
      (Called(arguments, reaction),
       if reaction.Intercept?
       then after.(rax := reaction.value, rsp := Wrap(cpu.rsp + 8), rip := returnAddress.value)
       else after)
  }

  /** `invoke_symbol`: fills the parameter array word by word; an unreadable stack
      argument throws, and the hook swallows it without calling back. */
  method InvokeSymbol(entry: Option<Hook>, cpu: Cpu, mem: Memory) returns (outcome: Outcome, cpu': Cpu)
    ensures (outcome, cpu') == Respond(entry, cpu, mem)
  {
    var returnAddress := LoadWord(mem, cpu.rsp);
    if returnAddress.None? || entry.None? {
      return NotCalled, cpu;
    }
    var count := entry.value.parameterCount;
    var registers := [cpu.rdi, cpu.rsi, cpu.rdx, cpu.rcx, cpu.r8, cpu.r9];
    var stackPointer := cpu.rsp;
    var parameters := new Word[count](_ => 0);
    var index := 0;
    while index < count
      invariant 0 <= index <= count
      invariant forall i | 0 <= i < index :: Argument(cpu, mem, i) == Some(parameters[i])
    {
      if index < |registers| {
        parameters[index] := registers[index];
      } else {
        var word := LoadWord(mem, (stackPointer + 8 + (index - |registers|) * 8) % TWO_64);
        assert word == Argument(cpu, mem, index);
        if word.None? {
          assert !Readable(cpu, mem, count);
          return NotCalled, cpu;
        }
        parameters[index] := word.value;
      }
      index := index + 1;
    }
    assert parameters[..] == Arguments(cpu, mem, count);
    var (reaction, after) := entry.value.callback(parameters[..], returnAddress.value, cpu);
    outcome := Called(parameters[..], reaction);
    cpu' := after;
    if reaction.Intercept? {
      cpu' := cpu'.(rax := reaction.value, rsp := (stackPointer + 8) % TWO_64, rip := returnAddress.value);
    }
  }

  // ---- Round trip ---------------------------------------------------------------

  lemma {:induction false} LayWordsAt(mem: Memory, base: Word, words: seq<Word>, k: nat, address: Word)
    requires k < |words| && 8 * |words| <= TWO_64 && Offset(base, address) == 8 * k
    ensures LoadWord(LayWords(mem, base, words), address) == Some(words[k])
    decreases k
  {
    var next := Wrap(base + 8);
    var above := LayWords(mem, next, words[1..]);
    if k == 0 {
      OffsetZero(base, address);
      WordAfterStore(above, base, words[0]);
    } else {
      OffsetFrom(base, address, 8);
      LayWordsAt(mem, next, words[1..], k - 1, address);
      WordAfterDisjointStore(above, base, words[0], address);
    }
  }

  lemma {:induction false} LayWordsBelow(mem: Memory, base: Word, words: seq<Word>, b: Word)
    requires 8 * |words| <= Offset(base, b) <= TWO_64 - 8
    ensures LoadWord(LayWords(mem, base, words), b) == LoadWord(mem, b)
    decreases |words|
  {
    if words != [] {
      var next := Wrap(base + 8);
      OffsetFrom(base, b, 8);
      LayWordsBelow(mem, next, words[1..], b);
      WordAfterDisjointStore(LayWords(mem, next, words[1..]), base, words[0], b);
    }
  }

  lemma StackWordAt(stackPointer: Word, mem: Memory, words: seq<Word>, k: nat)
    requires k < |words| && 8 * |words| <= TWO_64
    ensures LoadWord(LayWords(mem, Wrap(stackPointer + 8), words), StackAddress(stackPointer, k)) == Some(words[k])
  {
    OffsetOf(stackPointer + 8, k * 8);
    LayWordsAt(mem, Wrap(stackPointer + 8), words, k, StackAddress(stackPointer, k));
  }

  lemma RegisterArgument(cpu: Cpu, mem: Memory, words: seq<Word>, i: nat)
    requires i < |words| && i < 6
    ensures Argument(PassRegisters(cpu, words), mem, i) == Some(words[i])
  {
  }

  lemma BeyondRegisters(cpu: Cpu, mem: Memory, i: nat)
    requires i >= 6
    ensures Argument(cpu, mem, i) == LoadWord(mem, StackAddress(cpu.rsp, i - 6))
  {
  }

  lemma StackArgument(cpu: Cpu, mem: Memory, words: seq<Word>, i: nat)
    requires 6 <= i < |words| && 8 * |words| <= TWO_64
    ensures Argument(PassRegisters(cpu, words), PassStack(cpu, mem, words), i) == Some(words[i])
  {
    StackWordAt(cpu.rsp, mem, words[6..], i - 6);
    BeyondRegisters(PassRegisters(cpu, words), PassStack(cpu, mem, words), i);
  }

  /** Whatever words a caller passes, in whatever number the address space can hold,
      the decoder recovers exactly those words, wherever the stack pointer lies. */
  lemma ArgumentsRoundTrip(cpu: Cpu, mem: Memory, words: seq<Word>)
    requires 8 * |words| <= TWO_64
    ensures var callee := PassRegisters(cpu, words);
            var stack := PassStack(cpu, mem, words);
            Readable(callee, stack, |words|) && Arguments(callee, stack, |words|) == words
  {
    var callee := PassRegisters(cpu, words);
    var stack := PassStack(cpu, mem, words);
    forall i | 0 <= i < |words|
      ensures Argument(callee, stack, i) == Some(words[i])
    {
      if i < 6 {
        RegisterArgument(cpu, stack, words, i);
      } else {
        StackArgument(cpu, mem, words, i);
      }
    }
  }

  lemma BelowStackWords(stackPointer: Word, mem: Memory, words: seq<Word>)
    requires 8 * |words| + 8 <= TWO_64
    ensures LoadWord(LayWords(mem, Wrap(stackPointer + 8), words), stackPointer) == LoadWord(mem, stackPointer)
  {
    OffsetBelow(stackPointer, 8);
    LayWordsBelow(mem, Wrap(stackPointer + 8), words, stackPointer);
  }

  lemma ReturnAddressSurvives(cpu: Cpu, mem: Memory, words: seq<Word>)
    requires 8 * |words| + 8 <= TWO_64
    ensures LoadWord(PassStack(cpu, mem, words), cpu.rsp) == LoadWord(mem, cpu.rsp)
  {
    if |words| > 6 {
      BelowStackWords(cpu.rsp, mem, words[6..]);
    }
  }

  /** The callback is given the caller's words and return address, and an interception
      leaves the machine as "load value; ret" would. */
  lemma InterceptedCall(cpu: Cpu, mem: Memory, words: seq<Word>, returnAddress: Word, hook: Hook)
    requires 8 * |words| + 8 <= TWO_64 && hook.parameterCount == |words|
    requires LoadWord(mem, cpu.rsp) == Some(returnAddress)
    ensures var callee := PassRegisters(cpu, words);
            var (outcome, cpu') := Respond(Some(hook), callee, PassStack(cpu, mem, words));
            var (reaction, after) := hook.callback(words, returnAddress, callee);
            && outcome == Called(words, reaction)
            && (reaction.RunOriginal? ==> cpu' == after)
            && (reaction.Intercept? && after.rsp == callee.rsp ==> cpu' == Return(after, returnAddress, reaction.value))
  {
    ArgumentsRoundTrip(cpu, mem, words);
    ReturnAddressSurvives(cpu, mem, words);
    var callee := PassRegisters(cpu, words);
    var stack := PassStack(cpu, mem, words);
    assert LoadWord(stack, callee.rsp) == Some(returnAddress);
    assert Arguments(callee, stack, hook.parameterCount) == words;
  }

  /** A callback is left out, and the machine untouched, exactly when the return address or an
      argument on the stack cannot be read or the hook is gone. */
  lemma NotCalledIff(entry: Option<Hook>, cpu: Cpu, mem: Memory)
    ensures Respond(entry, cpu, mem).0 == NotCalled <==>
            || LoadWord(mem, cpu.rsp).None? || entry.None?
            || exists k: nat :: 6 + k < entry.value.parameterCount && LoadWord(mem, StackAddress(cpu.rsp, k)).None?
    ensures Respond(entry, cpu, mem).0 == NotCalled ==> Respond(entry, cpu, mem).1 == cpu
  {
    if entry.Some? {
      var count := entry.value.parameterCount;
      if !Readable(cpu, mem, count) {
        var i :| 0 <= i < count && Argument(cpu, mem, i).None?;
        BeyondRegisters(cpu, mem, i);
        assert LoadWord(mem, StackAddress(cpu.rsp, i - 6)).None?;
      }
      forall k: nat | 6 + k < count && LoadWord(mem, StackAddress(cpu.rsp, k)).None?
        ensures !Readable(cpu, mem, count)
      {
        BeyondRegisters(cpu, mem, 6 + k);
        assert Argument(cpu, mem, 6 + k).None?;
      }
    }
  }

  // ---- Several hooks at one address ----------------------------------------------

  function RespondAll(entries: seq<Hook>, cpu: Cpu, mem: Memory): Cpu {
    if entries == [] then cpu else RespondAll(entries[1..], Respond(Some(entries[0]), cpu, mem).1, mem)
  }

  function Interceptions(entries: seq<Hook>, cpu: Cpu, mem: Memory): nat {
    if entries == [] then 0
    else
      var cpu' := Respond(Some(entries[0]), cpu, mem).1;
      Interceptions(entries[1..], cpu', mem) + (if Intercepts(entries[0], cpu, mem) then 1 else 0)
  }

  ghost predicate LeavesRegisters(hook: Hook) {
    forall words, returnAddress, cpu :: hook.callback(words, returnAddress, cpu).1 == cpu
  }

  predicate Intercepts(hook: Hook, cpu: Cpu, mem: Memory) {
    var outcome := Respond(Some(hook), cpu, mem).0;
    outcome.Called? && outcome.reaction.Intercept?
  }

  lemma OneInterceptionPops(hook: Hook, cpu: Cpu, mem: Memory)
    requires LeavesRegisters(hook)
    ensures Respond(Some(hook), cpu, mem).1.rsp == if Intercepts(hook, cpu, mem) then Wrap(cpu.rsp + 8) else cpu.rsp
  {
  }

  lemma {:induction false} EachInterceptionPops(entries: seq<Hook>, cpu: Cpu, mem: Memory)
    requires forall h | h in entries :: LeavesRegisters(h)
    ensures RespondAll(entries, cpu, mem).rsp == Wrap(cpu.rsp + 8 * Interceptions(entries, cpu, mem))
    ensures Interceptions(entries, cpu, mem) <= |entries|
    decreases |entries|
  {
    if entries != [] {
      assert entries[0] in entries && forall h | h in entries[1..] :: h in entries;
      var next := Respond(Some(entries[0]), cpu, mem).1;
      var later := Interceptions(entries[1..], next, mem);
      EachInterceptionPops(entries[1..], next, mem);
      OneInterceptionPops(entries[0], cpu, mem);
      WrapAbsorbs(cpu.rsp + 8, 8 * later);
    }
  }

  /** Every hook at an address reads the stack pointer afresh, so the caller's frame
      is restored exactly when one hook intercepts. */
  lemma FrameRestoredIffOneInterception(entries: seq<Hook>, cpu: Cpu, mem: Memory)
    requires (forall h | h in entries :: LeavesRegisters(h)) && 8 * |entries| < TWO_64
    ensures RespondAll(entries, cpu, mem).rsp == Wrap(cpu.rsp + 8) <==> Interceptions(entries, cpu, mem) == 1
  {
    EachInterceptionPops(entries, cpu, mem);
    OffsetOf(cpu.rsp, 8 * Interceptions(entries, cpu, mem));
    OffsetOf(cpu.rsp, 8);
  }

  /** A hook without parameters that always returns in the callee's place. */
  function Interceptor(value: Word): Hook {
    Hook(0, (_, _, cpu) => (Intercept(value), cpu))
  }

  lemma InterceptorPops(value: Word, cpu: Cpu, mem: Memory)
    requires LoadWord(mem, cpu.rsp).Some?
    ensures Respond(Some(Interceptor(value)), cpu, mem).1.rsp == Wrap(cpu.rsp + 8)
    ensures Respond(Some(Interceptor(value)), cpu, mem).1.rip == LoadWord(mem, cpu.rsp).value
    ensures Intercepts(Interceptor(value), cpu, mem)
  {
    assert Readable(cpu, mem, 0);
  }

  /** Wherever the stack lies, two interceptors on a call from a function that was itself
      called return to the caller's caller, with the caller's frame gone. */
  lemma TwoInterceptorsSkipCaller(cpu: Cpu, returnAddress: Word, next: Word, value: Word)
    ensures var mem := LayWords(map[], cpu.rsp, [returnAddress, next]);
            var hooks := [Interceptor(value), Interceptor(value)];
            && LoadWord(mem, cpu.rsp) == Some(returnAddress)
            && Interceptions(hooks, cpu, mem) == 2
            && RespondAll(hooks, cpu, mem).rsp == Wrap(cpu.rsp + 16) != Wrap(cpu.rsp + 8)
            && RespondAll(hooks, cpu, mem).rip == next
  {
    var words := [returnAddress, next];
    var mem := LayWords(map[], cpu.rsp, words);
    OffsetOf(cpu.rsp, 0);
    OffsetOf(cpu.rsp, 8);
    LayWordsAt(map[], cpu.rsp, words, 0, cpu.rsp);
    LayWordsAt(map[], cpu.rsp, words, 1, Wrap(cpu.rsp + 8));
    var h := Interceptor(value);
    InterceptorPops(value, cpu, mem);
    var second := Respond(Some(h), cpu, mem).1;
    InterceptorPops(value, second, mem);
    WrapAbsorbs(cpu.rsp + 8, 8);
    assert [h, h][1..] == [h] && [h][1..] == [];
    var last := Respond(Some(h), second, mem).1;
    assert RespondAll([h, h], cpu, mem) == RespondAll([h], second, mem) == RespondAll([], last, mem) == last;
    assert Interceptions([h], second, mem) == 1;
  }

  // ---- Typed arguments -------------------------------------------------------------

  datatype Width = W8 | W16 | W32 | W64

  function Modulus(width: Width): int {
    match width
    case W8 => 0x100
    case W16 => 0x1_0000
    case W32 => 0x1_0000_0000
    case W64 => TWO_64
  }

  /** A 64-bit word as the signed integer Dart sees. */
  function DartInt(w: Word): int {
    if w < TWO_64 / 2 then w else w - TWO_64
  }

  /** `1 << width` on Dart's 64-bit integers: shifting by 64 gives 0. */
  function ShiftOne(width: Width): int {
    if width == W64 then 0 else Modulus(width)
  }

  /** `raw & ((1 << width) - 1)`, where a mask of -1 keeps everything. */
  function MaskLow(raw: int, width: Width): int {
    if ShiftOne(width) == 0 then raw else raw % ShiftOne(width)
  }

  /** Bit `width - 1` of a value in two's complement. */
  predicate SignBitSet(value: int, width: Width) {
    (value / (Modulus(width) / 2)) % 2 == 1
  }

  function SignedDecode(raw: int, width: Width): int {
    var value := MaskLow(raw, width);
    if !SignBitSet(value, width) then value else value - ShiftOne(width)
  }

  datatype Type = Signed(width: Width) | Unsigned(width: Width)

  function Decode(t: Type, w: Word): int {
    if t.Signed? then SignedDecode(DartInt(w), t.width) else MaskLow(DartInt(w), t.width)
  }

  predicate InRange(t: Type, x: int) {
    if t.Signed? then -Modulus(t.width) / 2 <= x < Modulus(t.width) / 2 else 0 <= x < Modulus(t.width)
  }

  /** The low bits of the word hold `x`; the ABI leaves the bits above unspecified. */
  predicate Carries(t: Type, w: Word, x: int) {
    w % Modulus(t.width) == x % Modulus(t.width)
  }

  /** Reinterpreting a word as signed keeps every residue that divides 2^64. */
  lemma MultiplesVanish(w: int, modulus: int, times: int)
    requires modulus > 0
    ensures (w - modulus * times) % modulus == w % modulus
  {
    var q := w / modulus;
    var r := w % modulus;
    assert w - modulus * times == modulus * (q - times) + r;
    QuotientUnique(modulus, q - times, r);
  }

  lemma Bounded(modulus: int, d: int)
    requires -modulus < modulus * d < modulus
    ensures d == 0
  {
    assert d >= 1 ==> modulus * d >= modulus;
    assert d <= -1 ==> modulus * d <= -modulus;
  }

  lemma QuotientUnique(modulus: int, q: int, r: int)
    requires 0 <= r < modulus
    ensures (modulus * q + r) % modulus == r
  {
    var x := modulus * q + r;
    assert modulus * (x / modulus - q) == r - x % modulus;
    Bounded(modulus, x / modulus - q);
  }

  lemma LowBits(w: Word, width: Width)
    ensures width != W64 ==> MaskLow(DartInt(w), width) == w % Modulus(width)
  {
    match width
    case W8 => MultiplesVanish(w, 0x100, 0x100_0000_0000_0000);
    case W16 => MultiplesVanish(w, 0x1_0000, 0x1_0000_0000_0000);
    case W32 => MultiplesVanish(w, 0x1_0000_0000, 0x1_0000_0000);
    case W64 =>
  }

  lemma SignBit(value: int, width: Width)
    requires 0 <= value < Modulus(width)
    ensures SignBitSet(value, width) <==> value >= Modulus(width) / 2
  {
    match width
    case W8 => assert value / 128 == if value < 128 then 0 else 1;
    case W16 => assert value / 0x8000 == if value < 0x8000 then 0 else 1;
    case W32 => assert value / 0x8000_0000 == if value < 0x8000_0000 then 0 else 1;
    case W64 => assert value / (TWO_64 / 2) == if value < TWO_64 / 2 then 0 else 1;
  }

  /** Two's complement: the residue of `x` is `x` or `x` plus the modulus. */
  lemma Residue(x: int, modulus: int)
    requires modulus > 0 && -modulus <= x < modulus
    ensures x % modulus == if x < 0 then x + modulus else x
  {
    if x < 0 {
      assert (x + modulus) % modulus == x % modulus;
    }
  }

  lemma SignBitOfDartInt(value: int)
    requires -TWO_64 / 2 <= value < TWO_64 / 2
    ensures SignBitSet(value, W64) <==> value < 0
  {
    assert value / (TWO_64 / 2) == if value < 0 then -1 else 0;
  }

  lemma SignedDecodes(w: Word, x: int, width: Width)
    requires InRange(Signed(width), x) && Carries(Signed(width), w, x)
    ensures SignedDecode(DartInt(w), width) == x
  {
    Residue(x, Modulus(width));
    if width == W64 {
      SignBitOfDartInt(DartInt(w));
    } else {
      LowBits(w, width);
      SignBit(w % Modulus(width), width);
    }
  }

  /** Narrow arguments come back whatever the upper bits hold, except that Dart has no
      unsigned 64-bit integer: those decode exactly below 2^63. */
  lemma DecodeIff(t: Type, w: Word, x: int)
    requires InRange(t, x) && Carries(t, w, x)
    ensures Decode(t, w) == x <==> !(t == Unsigned(W64) && x >= TWO_64 / 2)
  {
    if t.Signed? {
      SignedDecodes(w, x, t.width);
    } else {
      Residue(x, Modulus(t.width));
      LowBits(w, t.width);
    }
  }

  /** Typed arguments survive the whole path: caller, registers and stack, decoder,
      ctypes. */
  lemma TypedArgumentsRoundTrip(cpu: Cpu, mem: Memory, types: seq<Type>, values: seq<int>, words: seq<Word>)
    requires |types| == |values| == |words| && 8 * |words| <= TWO_64
    requires forall i | 0 <= i < |types| :: InRange(types[i], values[i]) && Carries(types[i], words[i], values[i])
    requires forall i | 0 <= i < |types| :: types[i] != Unsigned(W64) || values[i] < TWO_64 / 2
    ensures var callee := PassRegisters(cpu, words);
            var stack := PassStack(cpu, mem, words);
            Readable(callee, stack, |types|) &&
            forall i | 0 <= i < |types| :: Decode(types[i], Arguments(callee, stack, |types|)[i]) == values[i]
  {
    ArgumentsRoundTrip(cpu, mem, words);
    forall i | 0 <= i < |types|
      ensures Decode(types[i], words[i]) == values[i]
    {
      DecodeIff(types[i], words[i], values[i]);
    }
  }
}
