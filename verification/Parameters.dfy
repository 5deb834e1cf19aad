/**
 The binding generator's parameter lists: printing them into a C declaration, and the
 bracket-aware splitter that reads them back to audit arities.
 */
module Parameters {

  /** The whitespace `strip` removes, for ASCII text. */
  predicate IsSpace(c: char) {
    c == ' ' || c == '\t' || c == '\n' || c == '\r' || c as int == 11 || c as int == 12 || 28 <= c as int <= 31
  }

  function TrimStart(s: string): string {
    if s != "" && IsSpace(s[0]) then TrimStart(s[1..]) else s
  }

  function TrimEnd(s: string): string {
    if s != "" && IsSpace(s[|s| - 1]) then TrimEnd(s[..|s| - 1]) else s
  }

  function Strip(s: string): string {
    TrimEnd(TrimStart(s))
  }

  function Bracket(c: char): int {
    if c == '(' || c == '<' then 1 else if c == ')' || c == '>' then -1 else 0
  }

  /** Bracket depth after reading the text. */
  function Depth(s: string): int {
    if s == "" then 0 else Depth(s[..|s| - 1]) + Bracket(s[|s| - 1])
  }

  /** A comma that separates parameters. */
  predicate SeparatesAt(s: string, i: int)
    requires 0 <= i < |s|
  {
    s[i] == ',' && Depth(s[..i]) == 0
  }

  // ---- The splitter ---------------------------------------------------------------------

  function Kept(piece: string): seq<string> {
    if Strip(piece) == "" then [] else [Strip(piece)]
  }

  /** Where the piece being read starts: just after the last separator. */
  function PieceStart(s: string): (start: nat)
    ensures start <= |s|
  {
    if s == "" then 0
    else if SeparatesAt(s, |s| - 1) then |s|
    else PieceStart(s[..|s| - 1])
  }

  /** The pieces completed by the separators read so far. */
  function Completed(s: string): seq<string> {
    if s == "" then []
    else
      var before := s[..|s| - 1];
      if SeparatesAt(s, |s| - 1) then Completed(before) + Kept(before[PieceStart(before)..]) else Completed(before)
  }

  function Pieces(s: string): seq<string> {
    Completed(s) + Kept(s[PieceStart(s)..])
  }

  function Split(s: string): seq<string> {
    if Strip(s) == "" || Strip(s) == "void" then [] else Pieces(s)
  }

  method SplitParameters(parameters: string) returns (result: seq<string>)
    ensures result == Split(parameters)
  {
    var stripped := Strip(parameters);
    if stripped == "" || stripped == "void" {
      return [];
    }
    result := [];
    var start := 0;
    var depth := 0;
    var index := 0;
    while index < |parameters|
      invariant 0 <= index <= |parameters|
      invariant depth == Depth(parameters[..index])
      invariant start == PieceStart(parameters[..index])
      invariant result == Completed(parameters[..index])
    {
      var character := parameters[index];
      assert parameters[..index + 1][..index] == parameters[..index];
      if character == '(' || character == '<' {
        depth := depth + 1;
      } else if character == ')' || character == '>' {
        depth := depth - 1;
      } else if character == ',' && depth == 0 {
        var parameter := Strip(parameters[start..index]);
        assert parameters[..index][start..] == parameters[start..index];
        if parameter != "" {
          result := result + [parameter];
        }
        start := index + 1;
      }
      index := index + 1;
    }
    assert parameters[..index] == parameters;
    var parameter := Strip(parameters[start..]);
    if parameter != "" {
      result := result + [parameter];
    }
  }

  // ---- The printer ------------------------------------------------------------------------

  /** `", ".join(parameters)`. */
  function Join(parameters: seq<string>): string {
    if parameters == [] then ""
    else if |parameters| == 1 then parameters[0]
    else Join(parameters[..|parameters| - 1]) + ", " + parameters[|parameters| - 1]
  }

  /** A printable parameter: trimmed, not empty, brackets that close, and commas only
      inside brackets. */
  ghost predicate IsParameter(p: string) {
    && p != "" && !IsSpace(p[0]) && !IsSpace(p[|p| - 1])
    && Depth(p) == 0
    && forall i | 0 <= i < |p| :: !SeparatesAt(p, i)
  }

  lemma {:induction false} DepthAppend(a: string, b: string)
    ensures Depth(a + b) == Depth(a) + Depth(b)
    decreases |b|
  {
    if b == "" {
      assert a + b == a;
    } else {
      assert (a + b)[..|a + b| - 1] == a + b[..|b| - 1];
      DepthAppend(a, b[..|b| - 1]);
    }
  }

  /** Reading a stretch without separators changes neither the pieces nor the start. */
  lemma {:induction false} QuietStretch(a: string, b: string)
    requires Depth(a) == 0 && forall i | 0 <= i < |b| :: !SeparatesAt(b, i)
    ensures Completed(a + b) == Completed(a) && PieceStart(a + b) == PieceStart(a)
    decreases |b|
  {
    if b == "" {
      assert a + b == a;
    } else {
      var n := |b| - 1;
      var s := a + b;
      assert s[..|s| - 1] == a + b[..n];
      DepthAppend(a, b[..n]);
      assert !SeparatesAt(b, n);
      forall i | 0 <= i < n
        ensures !SeparatesAt(b[..n], i)
      {
        assert b[..n][..i] == b[..i];
        assert !SeparatesAt(b, i);
      }
      QuietStretch(a, b[..n]);
    }
  }

  /** A comma at depth 0 completes the piece being read. */
  lemma ReadComma(s: string)
    requires Depth(s) == 0
    ensures var t := s + ",";
            && Completed(t) == Completed(s) + Kept(s[PieceStart(s)..])
            && PieceStart(t) == |t| && Depth(t) == 0
  {
    var t := s + ",";
    assert t[..|t| - 1] == s;
    assert SeparatesAt(t, |t| - 1);
  }

  lemma StripTrimmed(p: string)
    requires p != "" && !IsSpace(p[0]) && !IsSpace(p[|p| - 1])
    ensures Strip(p) == p && Strip(" " + p) == p
  {
    assert (" " + p)[1..] == p;
    assert TrimStart(" " + p) == TrimStart(p);
  }

  ghost predicate AllParameters(ps: seq<string>) {
    forall i | 0 <= i < |ps| :: IsParameter(ps[i])
  }

  /** The splitter has completed `done` and is reading `current`, outside brackets. */
  predicate Reading(s: string, done: seq<string>, current: string) {
    Depth(s) == 0 && Completed(s) == done && Strip(s[PieceStart(s)..]) == current
  }

  lemma ReadFirst(p: string)
    requires IsParameter(p)
    ensures Reading(p, [], p)
  {
    assert "" + p == p && p[0..] == p;
    QuietStretch("", p);
    StripTrimmed(p);
  }

  lemma ReadNext(before: string, done: seq<string>, current: string, p: string)
    requires Reading(before, done, current) && current != "" && IsParameter(p)
    ensures Reading(before + ", " + p, done + [current], p)
  {
    var comma := before + ",";
    var tail := " " + p;
    ReadComma(before);
    assert Depth(" ") == 0;
    SeparatorsAppend(" ", p);
    DepthAppend(" ", p);
    DepthAppend(comma, tail);
    QuietStretch(comma, tail);
    assert before + ", " + p == comma + tail;
    assert (comma + tail)[|comma|..] == tail;
    StripTrimmed(p);
  }

  /** After the printed list the splitter has completed all parameters but the last,
      and is reading that one. */
  lemma {:induction false} ReadJoined(ps: seq<string>)
    requires ps != [] && AllParameters(ps)
    ensures Reading(Join(ps), ps[..|ps| - 1], ps[|ps| - 1])
    decreases |ps|
  {
    var n := |ps| - 1;
    assert IsParameter(ps[n]);
    if n == 0 {
      ReadFirst(ps[0]);
    } else {
      assert IsParameter(ps[n - 1]);
      ReadJoined(ps[..n]);
      ReadNext(Join(ps[..n]), ps[..n][..n - 1], ps[n - 1], ps[n]);
      assert ps[..n][..n - 1] + [ps[n - 1]] == ps[..n];
    }
  }

  lemma SeparatorsAppend(a: string, b: string)
    requires Depth(a) == 0
    requires forall i | 0 <= i < |a| :: !SeparatesAt(a, i)
    requires forall i | 0 <= i < |b| :: !SeparatesAt(b, i)
    ensures forall i | 0 <= i < |a + b| :: !SeparatesAt(a + b, i)
  {
    var s := a + b;
    forall i | 0 <= i < |s|
      ensures !SeparatesAt(s, i)
    {
      if i < |a| {
        assert s[..i] == a[..i];
        assert !SeparatesAt(a, i);
      } else {
        assert s[..i] == a + b[..i - |a|];
        DepthAppend(a, b[..i - |a|]);
        assert !SeparatesAt(b, i - |a|);
      }
    }
  }

  lemma {:induction false} JoinedEnds(ps: seq<string>)
    requires ps != [] && AllParameters(ps)
    ensures var s := Join(ps);
            s != "" && !IsSpace(s[0]) && !IsSpace(s[|s| - 1])
    decreases |ps|
  {
    assert IsParameter(ps[|ps| - 1]);
    if |ps| > 1 {
      JoinedEnds(ps[..|ps| - 1]);
    }
  }

  lemma JoinHasComma(ps: seq<string>)
    requires |ps| > 1
    ensures Join(ps) != "void"
  {
    var before := Join(ps[..|ps| - 1]);
    assert Join(ps)[|before|] == ',';
    assert "void"[0] != ',' && "void"[1] != ',' && "void"[2] != ',' && "void"[3] != ',';
  }

  lemma PiecesOfJoined(ps: seq<string>)
    requires ps != [] && AllParameters(ps)
    ensures Depth(Join(ps)) == 0 && Pieces(Join(ps)) == ps
  {
    ReadJoined(ps);
    assert IsParameter(ps[|ps| - 1]);
    assert ps == ps[..|ps| - 1] + [ps[|ps| - 1]];
  }

  lemma JoinIsVoidIff(ps: seq<string>)
    requires ps != []
    ensures Join(ps) == "void" <==> ps == ["void"]
  {
    if |ps| > 1 {
      JoinHasComma(ps);
    } else {
      assert ps == [ps[0]];
    }
  }

  /** Splitting inverts printing for every list of parameters except the one that C
      spells like an empty list. */
  lemma SplitInvertsJoinIff(ps: seq<string>)
    requires AllParameters(ps)
    ensures Split(Join(ps)) == ps <==> ps != ["void"]
  {
    if ps == [] {
      assert Split("") == [];
    } else {
      JoinedEnds(ps);
      StripTrimmed(Join(ps));
      PiecesOfJoined(ps);
      JoinIsVoidIff(ps);
    }
  }

  lemma PiecesBeforeComma(s: string)
    requires Depth(s) == 0
    ensures Pieces(s + ",") == Pieces(s)
  {
    var t := s + ",";
    ReadComma(s);
    assert t[PieceStart(t)..] == "";
  }

  /** A trailing comma changes nothing, and even protects the single "void". */
  lemma TrailingCommaIgnored(ps: seq<string>)
    requires AllParameters(ps)
    ensures Split(Join(ps) + ",") == ps
  {
    var t := Join(ps) + ",";
    if ps != [] {
      JoinedEnds(ps);
      PiecesOfJoined(ps);
    } else {
      assert Pieces("") == [];
    }
    PiecesBeforeComma(Join(ps));
    StripTrimmed(t);
    assert t[|t| - 1] == ',' && "void"[3] != ',';
  }

  lemma {:induction false} PlainDepth(s: string)
    requires forall i | 0 <= i < |s| :: s[i] !in "()<>"
    ensures Depth(s) == 0
    decreases |s|
  {
    if s != "" {
      assert s[|s| - 1] !in "()<>";
      PlainDepth(s[..|s| - 1]);
    }
  }

  /** Commas between brackets, round or angled, do not separate: a text with such a part is
      one parameter. */
  lemma BracketsProtect(head: string, inner: string, angled: bool)
    requires head != "" && !IsSpace(head[0])
    requires forall i | 0 <= i < |head| :: head[i] !in "()<>,"
    requires forall i | 0 <= i < |inner| :: inner[i] !in "()<>"
    ensures var (open, close) := if angled then ("<", ">") else ("(", ")");
            Split(head + open + inner + close) == [head + open + inner + close]
  {
    var (open, close) := if angled then ("<", ">") else ("(", ")");
    var front := head + open;
    var p := front + inner + close;
    PlainDepth(head);
    assert Depth(open) == 1 && Depth(close) == -1;
    DepthAppend(head, open);
    PlainDepth(inner);
    DepthAppend(front, inner);
    DepthAppend(front + inner, close);
    forall i | 0 <= i < |p|
      ensures !SeparatesAt(p, i)
    {
      if |front| <= i < |p| - 1 {
        var read := inner[..i - |front|];
        assert p[..i] == front + read;
        PlainDepth(read);
        DepthAppend(front, read);
      }
    }
    assert IsParameter(p);
    assert p[|p| - 1] != "void"[3];
    SplitInvertsJoinIff([p]);
    assert [p][0] == p && ["void"][0] == "void";
  }

  lemma {:induction false} TrimStartSkips(blank: string, s: string)
    requires (forall i | 0 <= i < |blank| :: blank[i] in " \t\n\r") && (s == "" || !IsSpace(s[0]))
    ensures TrimStart(blank + s) == s
    decreases |blank|
  {
    if blank == "" {
      assert blank + s == s;
    } else {
      assert IsSpace(blank[0]) && (blank + s)[1..] == blank[1..] + s;
      TrimStartSkips(blank[1..], s);
    }
  }

  lemma {:induction false} TrimEndSkips(s: string, blank: string)
    requires (forall i | 0 <= i < |blank| :: blank[i] in " \t\n\r") && (s == "" || !IsSpace(s[|s| - 1]))
    ensures TrimEnd(s + blank) == s
    decreases |blank|
  {
    if blank == "" {
      assert s + blank == s;
    } else {
      var n := |blank| - 1;
      assert blank[n] in " \t\n\r" && (s + blank)[..|s + blank| - 1] == s + blank[..n];
      TrimEndSkips(s, blank[..n]);
    }
  }

  /** Blanks around a parameter are not part of it. */
  lemma BlanksIgnored(p: string, before: string, after: string)
    requires IsParameter(p) && p != "void"
    requires forall i | 0 <= i < |before| :: before[i] in " \t\n\r"
    requires forall i | 0 <= i < |after| :: after[i] in " \t\n\r"
    ensures Split(before + p + after) == [p]
  {
    var s := before + p + after;
    assert s == before + (p + after);
    TrimStartSkips(before, p + after);
    TrimEndSkips(p, after);
    PlainDepth(before);
    PlainDepth(after);
    forall i | 0 <= i < |before|
      ensures !SeparatesAt(before, i)
    {
      assert before[i] in " \t\n\r";
    }
    forall i | 0 <= i < |after|
      ensures !SeparatesAt(after, i)
    {
      assert after[i] in " \t\n\r";
    }
    SeparatorsAppend(before, p);
    DepthAppend(before, p);
    SeparatorsAppend(before + p, after);
    QuietStretch("", s);
    assert "" + s == s && s[0..] == s;
  }

  // ---- Generated callback types -----------------------------------------------------------

  datatype Declared = Declared(cType: string, name: string)

  function CParameter(d: Declared): string {
    d.cType + (if d.cType != "" && d.cType[|d.cType| - 1] == '*' then "" else " ") + d.name
  }

  function Printed(declared: seq<Declared>): seq<string> {
    seq(|declared|, i requires 0 <= i < |declared| => CParameter(declared[i]))
  }

  /** A type and a name as they appear in the schema. */
  ghost predicate Declarable(d: Declared) {
    && d.cType != "" && !IsSpace(d.cType[0]) && Depth(d.cType) == 0
    && d.name != "" && !IsSpace(d.name[|d.name| - 1]) && Depth(d.name) == 0
    && (forall i | 0 <= i < |d.cType| :: !SeparatesAt(d.cType, i))
    && (forall i | 0 <= i < |d.name| :: !SeparatesAt(d.name, i))
  }

  lemma CParameterIsParameter(d: Declared)
    requires Declarable(d)
    ensures IsParameter(CParameter(d)) && CParameter(d) != "void"
    ensures CParameter(d) == if d.cType[|d.cType| - 1] == '*' then d.cType + d.name else d.cType + " " + d.name
  {
    var n := |d.cType|;
    if d.cType[n - 1] == '*' {
      SeparatorsAppend(d.cType, d.name);
      DepthAppend(d.cType, d.name);
      assert d.cType + "" + d.name == d.cType + d.name;
      assert CParameter(d)[n - 1] == '*';
    } else {
      var head := d.cType + " ";
      assert Depth(" ") == 0;
      SeparatorsAppend(d.cType, " ");
      DepthAppend(d.cType, " ");
      SeparatorsAppend(head, d.name);
      DepthAppend(head, d.name);
      assert CParameter(d)[n] == ' ';
    }
    assert forall i | 0 <= i < 4 :: "void"[i] != '*' && "void"[i] != ' ';
  }

  /** The audit counts as many parameters in a generated callback type as the schema
      declares, and reads each of them back. */
  lemma HeaderArity(declared: seq<Declared>)
    requires forall i | 0 <= i < |declared| :: Declarable(declared[i])
    ensures Split(Join(Printed(declared))) == Printed(declared)
    ensures |Split(Join(Printed(declared)))| == |declared|
  {
    forall i | 0 <= i < |declared|
      ensures IsParameter(Printed(declared)[i]) && Printed(declared)[i] != "void"
    {
      CParameterIsParameter(declared[i]);
    }
    SplitInvertsJoinIff(Printed(declared));
    if |declared| == 1 {
      assert ["void"][0] == "void" && Printed(declared)[0] != "void";
    }
  }
}
