/**
 Callback names: Python's snake_case, which the generator uses for C names, and Dart's
 normaliser, which accepts a callback name in any of its spellings.
 */
module Names {
  import opened Prelude

  /** An underscore before every capital. */
  function SnakeRest(s: string): string {
    if s == "" then ""
    else (if IsUpper(s[0]) then ['_', Lower(s[0])] else [Lower(s[0])]) + SnakeRest(s[1..])
  }

  /** `snake_case`: the first character gets no underscore. */
  function Snake(s: string): string {
    if s == "" then "" else [Lower(s[0])] + SnakeRest(s[1..])
  }

  /** `pascal_case`. */
  function Pascal(s: string): string {
    if s == "" then "" else [Upper(s[0])] + s[1..]
  }

  /** Every `_x` with x in a-z becomes X, reading from the left. */
  function Camel(s: string): string {
    if s == "" then ""
    else if |s| >= 2 && s[0] == '_' && IsLower(s[1]) then [Upper(s[1])] + Camel(s[2..])
    else [s[0]] + Camel(s[1..])
  }

  predicate StartsWith(s: string, prefix: string) {
    |prefix| <= |s| && s[..|prefix|] == prefix
  }

  /** What `_linuxSlotFor` looks up for a name. */
  function Normalized(name: string): string {
    Camel(if StartsWith(name, "on_") then name[3..]
          else if StartsWith(name, "on") && |name| > 2 then [Lower(name[2])] + name[3..]
          else name)
  }

  // ---- Round trips ------------------------------------------------------------------------

  predicate Alphabetic(s: string) {
    forall i | 0 <= i < |s| :: IsUpper(s[i]) || IsLower(s[i])
  }

  /** A camel-case identifier made of letters. */
  predicate IsName(s: string) {
    s != "" && IsLower(s[0]) && Alphabetic(s)
  }

  /** A name the normaliser takes for one with an "on" prefix. */
  predicate LooksPrefixed(n: string) {
    StartsWith(n, "on") && |n| > 2
  }

  lemma {:induction false} CamelOfLetters(s: string)
    requires Alphabetic(s)
    ensures Camel(s) == s
    decreases |s|
  {
    if s != "" {
      CamelOfLetters(s[1..]);
      assert s == [s[0]] + s[1..];
    }
  }

  lemma {:induction false} CamelOfSnakeRest(s: string)
    requires Alphabetic(s)
    ensures Camel(SnakeRest(s)) == s
    decreases |s|
  {
    if s != "" {
      CamelOfSnakeRest(s[1..]);
      var t := SnakeRest(s);
      assert s == [s[0]] + s[1..];
      if IsUpper(s[0]) {
        assert t[2..] == SnakeRest(s[1..]);
      } else {
        assert t[1..] == SnakeRest(s[1..]);
      }
    }
  }

  lemma CamelOfSnake(n: string)
    requires IsName(n)
    ensures Camel(Snake(n)) == n
  {
    CamelOfSnakeRest(n[1..]);
    assert Snake(n)[1..] == SnakeRest(n[1..]);
    assert n == [n[0]] + n[1..];
  }

  lemma NormalizedAfterOn(tail: string)
    requires tail != ""
    ensures tail[0] == '_' ==> Normalized("on" + tail) == Camel(tail[1..])
    ensures tail[0] != '_' ==> Normalized("on" + tail) == Camel([Lower(tail[0])] + tail[1..])
  {
    var s := "on" + tail;
    assert s[..2] == "on" && s[2] == tail[0] && s[3..] == tail[1..];
    if tail[0] == '_' {
      assert s[..3] == "on_";
    } else {
      assert s[..3][2] != "on_"[2];
    }
  }

  lemma SnakeAfterPrefix(n: string)
    requires IsName(n)
    ensures Normalized("on_" + Snake(n)) == n
  {
    CamelOfSnake(n);
    var snake := "_" + Snake(n);
    assert "on_" + Snake(n) == "on" + snake && snake[1..] == Snake(n);
    NormalizedAfterOn(snake);
  }

  lemma PascalAfterPrefix(n: string)
    requires IsName(n)
    ensures Normalized("on" + Pascal(n)) == n
  {
    var pascal := Pascal(n);
    NormalizedAfterOn(pascal);
    assert pascal[1..] == n[1..] && [Lower(pascal[0])] + n[1..] == n;
    CamelOfLetters(n);
  }

  /** With a prefix both spellings lead back to the name, whatever it starts with. */
  lemma PrefixedSpellings(n: string)
    requires IsName(n)
    ensures Normalized("on_" + Snake(n)) == n
    ensures Normalized("on" + Pascal(n)) == n
  {
    SnakeAfterPrefix(n);
    PascalAfterPrefix(n);
  }

  lemma PrefixParts(s: string)
    ensures StartsWith(s, "on_") ==> StartsWith(s, "on") && s[2] == '_'
  {
    if StartsWith(s, "on_") {
      assert s[..2] == s[..3][..2] && s[2] == s[..3][2];
    }
  }

  /** The bare camel-case spelling leads back to the name exactly when it does not look
      prefixed. */
  lemma CamelSpellingIff(n: string)
    requires IsName(n)
    ensures Normalized(n) == n <==> !LooksPrefixed(n)
  {
    PrefixParts(n);
    if LooksPrefixed(n) {
      var rest := [Lower(n[2])] + n[3..];
      CamelOfLetters(rest);
      assert |Normalized(n)| == |n| - 2;
    } else {
      CamelOfLetters(n);
    }
  }

  lemma SnakeTail(s: string)
    requires |s| > 1 && IsLower(s[1])
    ensures SnakeRest(s[1..]) == [s[1]] + SnakeRest(s[2..])
  {
    var t := s[1..];
    assert t[0] == s[1] && t[1..] == s[2..];
  }

  lemma SnakeAfterOn(n: string)
    requires IsName(n) && LooksPrefixed(n)
    ensures Snake(n) == "on" + SnakeRest(n[2..])
  {
    var on := n[..2];
    assert on[0] == n[0] && on[1] == n[1];
    SnakeTail(n);
    var rest := SnakeRest(n[2..]);
    assert Snake(n) == ['o'] + (['n'] + rest);
    assert "on" + rest == ['o'] + (['n'] + rest);
  }

  lemma CamelOfLowered(c: char, s: string)
    requires (IsUpper(c) || IsLower(c)) && Alphabetic(s)
    ensures Camel([Lower(c)] + SnakeRest(s)) == [Lower(c)] + s
  {
    CamelOfSnakeRest(s);
    assert ([Lower(c)] + SnakeRest(s))[1..] == SnakeRest(s);
  }

  lemma SnakeOfPrefixed(n: string)
    requires IsName(n) && LooksPrefixed(n)
    ensures Normalized(Snake(n)) == [Lower(n[2])] + n[3..]
  {
    var tail := SnakeRest(n[2..]);
    assert n[2..][0] == n[2] && n[2..][1..] == n[3..];
    SnakeAfterOn(n);
    NormalizedAfterOn(tail);
    CamelOfLowered(n[2], n[3..]);
    if IsUpper(n[2]) {
      assert tail[1..] == [Lower(n[2])] + SnakeRest(n[3..]);
    } else {
      assert tail[1..] == SnakeRest(n[3..]);
    }
  }

  /** And so does the bare snake-case spelling. */
  lemma SnakeSpellingIff(n: string)
    requires IsName(n)
    ensures Normalized(Snake(n)) == n <==> !LooksPrefixed(n)
  {
    if LooksPrefixed(n) {
      SnakeOfPrefixed(n);
    } else {
      var s := Snake(n);
      CamelOfSnake(n);
      if |n| > 1 {
        assert n[1..][0] == n[1];
        assert s[1] == if IsUpper(n[1]) then '_' else n[1];
      }
      if StartsWith(s, "on") {
        assert s[..2][0] == s[0] == n[0] && s[..2][1] == s[1];
        assert n[..2] == "on";
        assert |n| == 2 && n[2..] == "";
        assert SnakeRest(n[1..]) == [n[1]] + SnakeRest(n[2..]);
        assert |s| == 2;
      }
      PrefixParts(s);
    }
  }

  /** Two names with the same snake-case form are the same name. */
  lemma SnakeInjective(m: string, n: string)
    requires IsName(m) && IsName(n) && Snake(m) == Snake(n)
    ensures m == n
  {
    CamelOfSnake(m);
    CamelOfSnake(n);
  }

  // ---- The slot table -----------------------------------------------------------------------

  datatype Slot = Slot(name: string, nativeField: string, aliases: seq<string>)

  predicate Accepts(slot: Slot, candidate: string) {
    slot.name == candidate || slot.nativeField == candidate || candidate in slot.aliases
  }

  /** The first slot in declaration order that accepts the candidate. */
  function FirstAccepting(slots: seq<Slot>, candidate: string): (r: Option<nat>)
    ensures r.Some? ==> r.value < |slots| && Accepts(slots[r.value], candidate)
    ensures forall i | 0 <= i < (if r.Some? then r.value else |slots|) :: !Accepts(slots[i], candidate)
  {
    if slots == [] then None
    else if Accepts(slots[0], candidate) then Some(0)
    else match FirstAccepting(slots[1..], candidate)
      case None => None
      case Some(i) => Some(i + 1)
  }

  method SlotFor(slots: seq<Slot>, name: string) returns (slot: Option<nat>)
    ensures slot == FirstAccepting(slots, Normalized(name))
  {
    var camel := Normalized(name);
    var i := 0;
    while i < |slots|
      invariant 0 <= i <= |slots|
      invariant forall j | 0 <= j < i :: !Accepts(slots[j], camel)
    {
      if Accepts(slots[i], camel) {
        return Some(i);
      }
      i := i + 1;
    }
    return None;
  }

  /** All four spellings of a slot's name find the same slot, which is the slot itself
      exactly when none declared before it accepts that name. */
  lemma AllSpellingsFindSlot(slots: seq<Slot>, i: nat)
    requires i < |slots| && IsName(slots[i].name) && !LooksPrefixed(slots[i].name)
    ensures var n := slots[i].name;
            var found := FirstAccepting(slots, Normalized(n));
            && FirstAccepting(slots, Normalized(Snake(n))) == found
            && FirstAccepting(slots, Normalized("on_" + Snake(n))) == found
            && FirstAccepting(slots, Normalized("on" + Pascal(n))) == found
            && (found == Some(i) <==> forall j | 0 <= j < i :: !Accepts(slots[j], n))
  {
    var n := slots[i].name;
    PrefixedSpellings(n);
    CamelSpellingIff(n);
    SnakeSpellingIff(n);
    FirstIs(slots, i, n);
  }

  lemma FirstIs(slots: seq<Slot>, i: nat, candidate: string)
    requires i < |slots| && Accepts(slots[i], candidate)
    ensures FirstAccepting(slots, candidate) == Some(i) <==> forall j | 0 <= j < i :: !Accepts(slots[j], candidate)
  {
  }

  /** An alias works like the name: all its spellings find the first slot that accepts it. */
  lemma AliasFindsSlot(slots: seq<Slot>, i: nat, alias: string)
    requires i < |slots| && alias in slots[i].aliases && IsName(alias) && !LooksPrefixed(alias)
    ensures var found := FirstAccepting(slots, Normalized(alias));
            && found.Some? && found.value <= i
            && FirstAccepting(slots, Normalized(Snake(alias))) == found
            && FirstAccepting(slots, Normalized("on_" + Snake(alias))) == found
            && FirstAccepting(slots, Normalized("on" + Pascal(alias))) == found
            && (found == Some(i) <==> forall j | 0 <= j < i :: !Accepts(slots[j], alias))
  {
    PrefixedSpellings(alias);
    CamelSpellingIff(alias);
    SnakeSpellingIff(alias);
    FirstIs(slots, i, alias);
  }

  predicate HasSnakePart(s: string) {
    exists i :: 0 <= i < |s| - 1 && s[i] == '_' && IsLower(s[i + 1])
  }

  lemma {:induction false} CamelHasNoSnakePart(s: string)
    ensures !HasSnakePart(Camel(s))
    ensures Camel(s) != "" && IsLower(Camel(s)[0]) ==> IsLower(s[0])
    decreases |s|
  {
    if |s| >= 2 && s[0] == '_' && IsLower(s[1]) {
      CamelHasNoSnakePart(s[2..]);
      NoSnakePartCons(Upper(s[1]), Camel(s[2..]));
    } else if s != "" {
      CamelHasNoSnakePart(s[1..]);
      NoSnakePartCons(s[0], Camel(s[1..]));
    }
  }

  lemma NoSnakePartCons(c: char, t: string)
    requires !HasSnakePart(t) && (c == '_' && t != "" ==> !IsLower(t[0]))
    ensures !HasSnakePart([c] + t)
  {
    var s := [c] + t;
    forall i | 0 <= i < |s| - 1
      ensures !(s[i] == '_' && IsLower(s[i + 1]))
    {
      if i > 0 {
        assert s[i] == t[i - 1] && s[i + 1] == t[i];
      }
    }
  }

  /** A native field spelled with an underscore is never matched, in any spelling the
      caller may choose: only names, aliases and one-word fields can be. */
  lemma SnakeFieldsUnreachable(slot: Slot, name: string)
    requires HasSnakePart(slot.nativeField)
    ensures Normalized(name) != slot.nativeField
  {
    CamelHasNoSnakePart(if StartsWith(name, "on_") then name[3..]
                        else if LooksPrefixed(name) then [Lower(name[2])] + name[3..]
                        else name);
  }

  // ---- The Linux callbacks ------------------------------------------------------------------

  const LINUX_SLOTS: seq<Slot> := [
    Slot("stdout", "stdout_callback", []),
    Slot("stderr", "stderr_callback", []),
    Slot("syscall", "syscall", []),
    Slot("memoryViolate", "memory_violate", []),
    Slot("signal", "signal", ["exception"]),
    Slot("memoryAllocate", "memory_allocate", []),
    Slot("memoryProtect", "memory_protect", []),
    Slot("memoryRelease", "memory_release", []),
    Slot("moduleLoad", "module_load", []),
    Slot("threadCreate", "thread_create", []),
    Slot("threadTerminated", "thread_terminated", []),
    Slot("threadSwitch", "thread_switch", [])
  ]

  lemma LinuxNamesDiffer(i: nat, j: nat)
    requires j < i < |LINUX_SLOTS|
    ensures LINUX_SLOTS[j].name != LINUX_SLOTS[i].name
  {
    var m, n := LINUX_SLOTS[j].name, LINUX_SLOTS[i].name;
    assert m[1] != n[1] || m[3] != n[3] || m[6..] != n[6..];
  }

  lemma LinuxFieldsDiffer(i: nat, j: nat)
    requires j < i < |LINUX_SLOTS|
    ensures LINUX_SLOTS[j].nativeField != LINUX_SLOTS[i].name
  {
    var field := LINUX_SLOTS[j].nativeField;
    if j == 2 || j == 4 {
      LinuxNamesDiffer(i, j);
    } else {
      assert field[6] == '_';
      LinuxNamesAreNames(i);
    }
  }

  /** Each name of the Linux table differs from everything the slots before it accept. */
  lemma LinuxNamesDistinct(i: nat, j: nat)
    requires j < i < |LINUX_SLOTS|
    ensures !Accepts(LINUX_SLOTS[j], LINUX_SLOTS[i].name)
  {
    LinuxNamesDiffer(i, j);
    LinuxFieldsDiffer(i, j);
    assert LINUX_SLOTS[i].name[1] != "exception"[1];
  }

  lemma LinuxLetters()
    ensures Alphabetic("stdout") && Alphabetic("stderr") && Alphabetic("syscall") && Alphabetic("signal")
    ensures Alphabetic("moduleLoad") && Alphabetic("threadCreate")
  {
  }

  lemma LinuxLongLetters()
    ensures Alphabetic("memoryViolate") && Alphabetic("memoryAllocate") && Alphabetic("memoryProtect")
  {
  }

  lemma LinuxLongerLetters()
    ensures Alphabetic("memoryRelease") && Alphabetic("threadTerminated") && Alphabetic("threadSwitch")
  {
  }

  lemma LinuxNamesAreNames(i: nat)
    requires i < |LINUX_SLOTS|
    ensures IsName(LINUX_SLOTS[i].name) && !LooksPrefixed(LINUX_SLOTS[i].name)
  {
    LinuxLetters();
    LinuxLongLetters();
    LinuxLongerLetters();
    assert LINUX_SLOTS[i].name[0] != "on"[0];
  }

  /** Every Linux callback can be set by its name in any of the four spellings. */
  lemma LinuxSpellings(i: nat)
    requires i < |LINUX_SLOTS|
    ensures var n := LINUX_SLOTS[i].name;
            && FirstAccepting(LINUX_SLOTS, Normalized(n)) == Some(i)
            && FirstAccepting(LINUX_SLOTS, Normalized(Snake(n))) == Some(i)
            && FirstAccepting(LINUX_SLOTS, Normalized("on_" + Snake(n))) == Some(i)
            && FirstAccepting(LINUX_SLOTS, Normalized("on" + Pascal(n))) == Some(i)
  {
    LinuxNamesAreNames(i);
    forall j | 0 <= j < i
      ensures !Accepts(LINUX_SLOTS[j], LINUX_SLOTS[i].name)
    {
      LinuxNamesDistinct(i, j);
    }
    AllSpellingsFindSlot(LINUX_SLOTS, i);
  }

  lemma ExceptionIsAName()
    ensures IsName("exception") && !LooksPrefixed("exception")
  {
    assert "exception"[0] != "on"[0];
  }

  /** `onException` and its other spellings set the signal callback. */
  lemma ExceptionMeansSignal()
    ensures LINUX_SLOTS[4].name == "signal"
    ensures FirstAccepting(LINUX_SLOTS, Normalized("exception")) == Some(4)
    ensures FirstAccepting(LINUX_SLOTS, Normalized("on_" + Snake("exception"))) == Some(4)
    ensures FirstAccepting(LINUX_SLOTS, Normalized("on" + Pascal("exception"))) == Some(4)
  {
    ExceptionIsAName();
    forall j | 0 <= j < 4
      ensures !Accepts(LINUX_SLOTS[j], "exception")
    {
      assert LINUX_SLOTS[j].name[0] != "exception"[0] && LINUX_SLOTS[j].nativeField[0] != "exception"[0];
    }
    AliasFindsSlot(LINUX_SLOTS, 4, "exception");
  }
}
