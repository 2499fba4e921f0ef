/** Printing configuration values so that the configuration reader gets them back: the printer of
    `configutl` and the line reader of the default configuration format. */
module ConfEscape {
  import opened CText

  const BACKSPACE: char := 8 as char

  // ---------- The reader ----------

  /** The character classes of the default format. */
  predicate IsWs(c: char) { c == ' ' || c == '\t' || c == '\r' || c == '\n' }
  predicate IsQuote(c: char) { c == '"' || c == '\'' || c == '`' }
  predicate IsNameChar(c: char) {
    '0' <= c <= '9' || 'A' <= c <= 'Z' || 'a' <= c <= 'z' || c == '_' || c in "!.%&*+,/;?@^~|-"
  }

  /** `clear_comments`: the text before the first comment character outside quotes and escapes.
      `q` is the quote that is open. */
  function ClearComments(q: Option<char>, s: string): string
    decreases |s|
  {
    if s == "" then ""
    else if s[0] == '\\' then (if |s| == 1 then s else s[..2] + ClearComments(q, s[2..]))
    else if q.Some? then [s[0]] + ClearComments(if s[0] == q.value then None else q, s[1..])
    else if s[0] == '#' then ""
    else [s[0]] + ClearComments(if IsQuote(s[0]) then Some(s[0]) else None, s[1..])
  }

  function Unescape(c: char): char {
    if c == 'r' then '\r' else if c == 'n' then '\n' else if c == 'b' then BACKSPACE else if c == 't' then '\t' else c
  }

  function Cons(c: char, r: Option<string>): Option<string> {
    if r.None? then None else Some([c] + r.value)
  }

  /** `str_copy` with quote `q` open; None where a variable would be expanded. Escape letters mean
      control characters only outside quotes. */
  function StrCopy(q: Option<char>, s: string): Option<string>
    decreases |s|
  {
    if s == "" then Some("")
    else if s[0] == '\\' then
      if |s| == 1 then Some("") else Cons(if q.Some? then s[1] else Unescape(s[1]), StrCopy(q, s[2..]))
    else if q.Some? then
      if s[0] == q.value then StrCopy(None, s[1..]) else Cons(s[0], StrCopy(q, s[1..]))
    else if IsQuote(s[0]) then StrCopy(Some(s[0]), s[1..])
    else if s[0] == '$' then None
    else Cons(s[0], StrCopy(None, s[1..]))
  }

  function EatWs(s: string): string {
    if s == "" || !IsWs(s[0]) then s else EatWs(s[1..])
  }

  function TrimWs(s: string): string {
    if s == "" || !IsWs(s[|s| - 1]) then s else TrimWs(s[..|s| - 1])
  }

  /** `eat_alpha_numeric`: how many characters the name at the front has. */
  function NameLength(s: string): (n: nat)
    ensures n <= |s|
  {
    if s == "" then 0
    else if s[0] == '\\' then (if |s| == 1 then 1 else 2 + NameLength(s[2..]))
    else if IsNameChar(s[0]) then 1 + NameLength(s[1..])
    else 0
  }

  /** A line is blank, an entry, or something else: an error, a section header, a directive, an
      entry of another section, or a value with a variable. */
  datatype Line = Blank | Entry(name: string, value: string) | Other

  function ParseLine(line: string): Line {
    ParseText(EatWs(ClearComments(None, line)))
  }

  function ParseText(s: string): Line {
    if s == "" then Blank
    else if s[0] == '[' || ".pragma" <= s || ".include" <= s then Other
    else ParseValue(s[..NameLength(s)], EatWs(s[NameLength(s)..]))
  }

  function ParseValue(name: string, p: string): Line {
    if p == "" || p[0] != '=' then Other
    else
      var v := StrCopy(None, TrimWs(EatWs(p[1..])));
      if v.None? then Other else Entry(name, v.value)
  }

  function StripCr(s: string): string {
    if s == "" || s[|s| - 1] != '\r' then s else StripCr(s[..|s| - 1])
  }

  /** A line that ends in a single backslash goes on in the next one. */
  predicate Continued(line: string) {
    line != "" && line[|line| - 1] == '\\' && (|line| == 1 || line[|line| - 2] != '\\')
  }

  /** The lines of a text, continued ones joined; `acc` is what the current line has so far. */
  function Lines(acc: string, text: string): seq<string>
    decreases |text|
  {
    if text == "" then (if acc == "" then [] else [acc])
    else
      var i := IndexOf(text, '\n');
      var line := acc + StripCr(text[..i]);
      var rest := if i < |text| then text[i + 1..] else "";
      if Continued(line) then Lines(line[..|line| - 1], rest) else [line] + Lines("", rest)
  }

  /** The entries on a list of lines; None when some line is neither blank nor an entry. */
  function Entries(lines: seq<string>): Option<seq<(string, string)>> {
    if lines == [] then Some([])
    else AddEntry(Entries(lines[..|lines| - 1]), ParseLine(lines[|lines| - 1]))
  }

  function AddEntry(es: Option<seq<(string, string)>>, l: Line): Option<seq<(string, string)>> {
    if es.None? || l.Other? then None
    else if l.Blank? then es
    else Some(es.value + [(l.name, l.value)])
  }

  // ---------- The printer ----------

  /** How one character is printed; `edge` for the first or last of the value. */
  function EscapeChar(c: char, edge: bool): (u: string)
    ensures u != ""
  {
    if c == '"' || c == '\'' || c == '#' || c == '\\' || c == '$' then ['\\', c]
    else if c == '\n' then "\\n"
    else if c == '\r' then "\\r"
    else if c == BACKSPACE then "\\b"
    else if c == '\t' then "\\t"
    else if c == ' ' && edge then "\" \""
    else [c]
  }

  function IsEdge(value: string, i: nat): bool { i == 0 || i + 1 == |value| }

  /** The printed form of the value from position `i` on. */
  function Escaped(value: string, i: nat): string
    requires i <= |value|
    decreases |value| - i
  {
    if i == |value| then "" else EscapeChar(value[i], IsEdge(value, i)) + Escaped(value, i + 1)
  }

  /** One turn of the printing loop. */
  method PrintEscapedChar(out: string, c: char, edge: bool) returns (out': string)
    ensures out' == out + EscapeChar(c, edge)
  {
    match c {
      case '"' => out' := out + ['\\', c];
      case '\'' => out' := out + ['\\', c];
      case '#' => out' := out + ['\\', c];
      case '\\' => out' := out + ['\\', c];
      case '$' => out' := out + ['\\', c];
      case '\n' => out' := out + "\\n";
      case '\r' => out' := out + "\\r";
      case '\t' => out' := out + "\\t";
      case ' ' => out' := out + if edge then "\" \"" else " ";
      case _ => out' := out + if c == BACKSPACE then "\\b" else [c];
    }
  }

  lemma Assoc(a: string, b: string, c: string)
    ensures a + (b + c) == a + b + c
  {
  }

  /** `print_escaped_value`. */
  method PrintEscapedValue(out: string, value: string) returns (out': string)
    ensures out' == out + Escaped(value, 0)
  {
    out' := out;
    var p := 0;
    while p < |value|
      invariant 0 <= p <= |value|
      invariant out' + Escaped(value, p) == out + Escaped(value, 0)
    {
      Assoc(out', EscapeChar(value[p], IsEdge(value, p)), Escaped(value, p + 1));
      out' := PrintEscapedChar(out', value[p], p == 0 || p + 1 == |value|);
      p := p + 1;
    }
    assert out' + "" == out';
  }

  function EntryLine(e: (string, string)): string {
    e.0 + " = " + Escaped(e.1, 0)
  }

  function SectionText(es: seq<(string, string)>): string {
    if es == [] then "" else SectionText(es[..|es| - 1]) + (EntryLine(es[|es| - 1]) + "\n")
  }

  method PrintEntry(out: string, e: (string, string)) returns (out': string)
    ensures out' == out + (EntryLine(e) + "\n")
  {
    out' := PrintEscapedValue(out + (e.0 + " = "), e.1);
    Assoc(out, e.0 + " = ", Escaped(e.1, 0));
    Assoc(out, EntryLine(e), "\n");
    out' := out' + "\n";
  }

  /** `print_section`. */
  method PrintSection(out: string, values: seq<(string, string)>) returns (out': string)
    ensures out' == out + SectionText(values)
  {
    out' := out;
    for idx := 0 to |values|
      invariant out' == out + SectionText(values[..idx])
    {
      assert values[..idx + 1][..idx] == values[..idx];
      Assoc(out, SectionText(values[..idx]), EntryLine(values[idx]) + "\n");
      out' := PrintEntry(out', values[idx]);
    }
    assert values[..|values|] == values;
  }

  // ---------- What the printed form looks like ----------

  /** Outside quotes, reading a printed character other than a backtick gives it back. */
  lemma CopyUnit(c: char, edge: bool, rest: string)
    requires c != '`'
    ensures StrCopy(None, EscapeChar(c, edge) + rest) == Cons(c, StrCopy(None, rest))
  {
    var u := EscapeChar(c, edge);
    var s := u + rest;
    if u == "\" \"" {
      assert s[1..][1..][1..] == rest;
      assert StrCopy(Some('"'), s[1..]) == Cons(' ', StrCopy(Some('"'), s[1..][1..]));
      assert StrCopy(Some('"'), s[1..][1..]) == StrCopy(None, rest);
    } else if |u| == 2 {
      assert s[2..] == rest;
    } else {
      assert s[1..] == rest;
    }
  }

  lemma CopyBacktick(rest: string)
    ensures StrCopy(None, "`" + rest) == StrCopy(Some('`'), rest)
    ensures StrCopy(Some('`'), "`" + rest) == StrCopy(None, rest)
  {
    assert ("`" + rest)[1..] == rest;
  }

  ghost predicate Clean(r: Option<string>) {
    r.Some? && '`' !in r.value
  }

  /** The quote that is open after a printed character. */
  function NextQuote(q: Option<char>, c: char): Option<char> {
    if c != '`' then q else if q.None? then Some('`') else None
  }

  lemma CopyStep(q: Option<char>, c: char, edge: bool, rest: string)
    requires (q.Some? ==> q.value == '`') && Clean(StrCopy(NextQuote(q, c), rest))
    ensures Clean(StrCopy(q, EscapeChar(c, edge) + rest))
  {
    if c == '`' {
      CopyBacktick(rest);
    } else if q.None? {
      CopyUnit(c, edge, rest);
    } else {
      CopyQuoted(EscapeChar(c, edge), rest, c, edge);
    }
  }

  /** A backtick opens or closes a quote and is itself never copied. */
  lemma {:induction false} CopyHasNoBacktick(value: string, i: nat, q: Option<char>)
    requires i <= |value| && (q.Some? ==> q.value == '`')
    ensures Clean(StrCopy(q, Escaped(value, i)))
    decreases |value| - i
  {
    if i < |value| {
      CopyHasNoBacktick(value, i + 1, NextQuote(q, value[i]));
      CopyStep(q, value[i], IsEdge(value, i), Escaped(value, i + 1));
    }
  }

  /** Inside backticks a printed character becomes one or more characters, none a backtick. */
  lemma CopyQuoted(u: string, rest: string, c: char, edge: bool)
    requires c != '`' && u == EscapeChar(c, edge) && Clean(StrCopy(Some('`'), rest))
    ensures Clean(StrCopy(Some('`'), u + rest))
  {
    var s := u + rest;
    if u == "\" \"" {
      assert s[1..][1..][1..] == rest;
      assert StrCopy(Some('`'), s[1..][1..]) == Cons('"', StrCopy(Some('`'), rest));
      assert StrCopy(Some('`'), s[1..]) == Cons(' ', StrCopy(Some('`'), s[1..][1..]));
    } else if |u| == 2 {
      assert s[2..] == rest;
    } else {
      assert s[1..] == rest;
    }
  }

  lemma {:induction false} CopyEscaped(value: string, i: nat)
    requires i <= |value| && '`' !in value
    ensures StrCopy(None, Escaped(value, i)) == Some(value[i..])
    decreases |value| - i
  {
    if i == |value| {
      assert value[i..] == "";
    } else {
      CopyEscaped(value, i + 1);
      CopyUnit(value[i], IsEdge(value, i), Escaped(value, i + 1));
      assert value[i..] == [value[i]] + value[i + 1..];
    }
  }

  lemma ClearQuotedSpace(q: Option<char>, rest: string)
    requires q.Some? ==> q.value == '`'
    ensures ClearComments(q, "\" \"" + rest) == "\" \"" + ClearComments(q, rest)
  {
    var s := "\" \"" + rest;
    var s1, s2 := [' ', '"'] + rest, ['"'] + rest;
    assert s[1..] == s1 && s1[1..] == s2 && s2[1..] == rest;
    var q' := if q.None? then Some('"') else q;
    var kept := ClearComments(q, rest);
    assert ClearComments(q', s2) == ['"'] + kept;
    assert ClearComments(q', s1) == [' '] + (['"'] + kept);
    assert ['"'] + ([' '] + (['"'] + kept)) == "\" \"" + kept;
  }

  lemma ClearEscaped(q: Option<char>, c: char, rest: string)
    ensures ClearComments(q, ['\\', c] + rest) == ['\\', c] + ClearComments(q, rest)
  {
    var s := ['\\', c] + rest;
    assert s[..2] == ['\\', c] && s[2..] == rest;
  }

  /** A printed character other than a backtick is kept and leaves the quote state alone. */
  lemma ClearUnit(q: Option<char>, c: char, edge: bool, rest: string)
    requires c != '`' && (q.Some? ==> q.value == '`')
    ensures ClearComments(q, EscapeChar(c, edge) + rest) == EscapeChar(c, edge) + ClearComments(q, rest)
  {
    var u := EscapeChar(c, edge);
    if |u| == 3 {
      ClearQuotedSpace(q, rest);
    } else if |u| == 2 {
      ClearEscaped(q, u[1], rest);
    } else {
      assert ([c] + rest)[1..] == rest;
    }
  }

  lemma ClearStep(q: Option<char>, c: char, edge: bool, rest: string)
    requires q.Some? ==> q.value == '`'
    ensures ClearComments(q, EscapeChar(c, edge) + rest) == EscapeChar(c, edge) + ClearComments(NextQuote(q, c), rest)
  {
    if c == '`' {
      assert (['`'] + rest)[1..] == rest;
    } else {
      ClearUnit(q, c, edge, rest);
    }
  }

  /** Nothing in a printed value is taken for a comment, inside or outside backticks. */
  lemma {:induction false} NoComment(value: string, i: nat, q: Option<char>)
    requires i <= |value| && (q.Some? ==> q.value == '`')
    ensures ClearComments(q, Escaped(value, i)) == Escaped(value, i)
    decreases |value| - i
  {
    if i < |value| {
      NoComment(value, i + 1, NextQuote(q, value[i]));
      ClearStep(q, value[i], IsEdge(value, i), Escaped(value, i + 1));
    }
  }

  lemma NotInJoin(a: string, b: string, c: char)
    requires c !in a && c !in b
    ensures c !in a + b
  {
  }

  lemma UnitHasNoNewline(c: char, edge: bool)
    ensures var u := EscapeChar(c, edge); '\n' !in u && '\r' !in u && '\t' !in u
  {
  }

  /** No raw line end is printed. */
  lemma {:induction false} NoRawNewline(value: string, i: nat)
    requires i <= |value|
    ensures '\n' !in Escaped(value, i) && '\r' !in Escaped(value, i) && '\t' !in Escaped(value, i)
    decreases |value| - i
  {
    if i < |value| {
      NoRawNewline(value, i + 1);
      UnitHasNoNewline(value[i], IsEdge(value, i));
      NotInJoin(EscapeChar(value[i], IsEdge(value, i)), Escaped(value, i + 1), '\n');
      NotInJoin(EscapeChar(value[i], IsEdge(value, i)), Escaped(value, i + 1), '\r');
      NotInJoin(EscapeChar(value[i], IsEdge(value, i)), Escaped(value, i + 1), '\t');
    }
  }

  predicate EndsWith(s: string, u: string) {
    |s| >= |u| && s[|s| - |u|..] == u
  }

  lemma EndsWithJoin(a: string, b: string, u: string)
    requires EndsWith(b, u)
    ensures EndsWith(a + b, u)
  {
    assert (a + b)[|a + b| - |u|..] == b[|b| - |u|..];
  }

  /** A printed value ends with the printed form of its last character. */
  lemma {:induction false} EscapedLast(value: string, i: nat)
    requires i < |value|
    ensures EndsWith(Escaped(value, i), EscapeChar(value[|value| - 1], true))
    decreases |value| - i
  {
    var u, rest := EscapeChar(value[i], IsEdge(value, i)), Escaped(value, i + 1);
    if i + 1 < |value| {
      EscapedLast(value, i + 1);
      EndsWithJoin(u, rest, EscapeChar(value[|value| - 1], true));
    } else {
      assert u + rest == u;
    }
  }

  /** An edge character is never printed as bare white space, and as a backslash only in a pair. */
  lemma UnitEnds(c: char)
    ensures var u := EscapeChar(c, true);
      !IsWs(u[0]) && !IsWs(u[|u| - 1]) && (u[|u| - 1] == '\\' ==> |u| == 2 && u[0] == '\\')
  {
  }

  lemma EndsWithLast(s: string, u: string)
    requires EndsWith(s, u) && u != ""
    ensures s != "" && s[|s| - 1] == u[|u| - 1]
    ensures |u| == 2 ==> |s| >= 2 && s[|s| - 2] == u[0]
  {
    assert s[|s| - 1] == s[|s| - |u|..][|u| - 1];
    if |u| == 2 { assert s[|s| - 2] == s[|s| - |u|..][0]; }
  }

  lemma EscapedFirst(value: string)
    requires value != ""
    ensures Escaped(value, 0) != "" && Escaped(value, 0)[0] == EscapeChar(value[0], true)[0]
  {
  }

  /** A printed value neither starts nor ends with white space, and is never continued on the
      next line. */
  lemma EscapedEnds(value: string)
    ensures var e := Escaped(value, 0);
      e != "" ==> !IsWs(e[0]) && !IsWs(e[|e| - 1]) && !Continued(e)
  {
    if value != "" {
      EscapedFirst(value);
      EscapedLast(value, 0);
      UnitEnds(value[0]);
      UnitEnds(value[|value| - 1]);
      EndsWithLast(Escaped(value, 0), EscapeChar(value[|value| - 1], true));
    }
  }

  /** A value is read back from its printed form exactly when it has no backtick. */
  lemma ValueRoundTripIff(value: string)
    ensures var r := StrCopy(None, TrimWs(EatWs(ClearComments(None, Escaped(value, 0)))));
      r.Some? && (r.value == value <==> '`' !in value)
  {
    NoComment(value, 0, None);
    EscapedEnds(value);
    CopyHasNoBacktick(value, 0, None);
    if '`' !in value {
      CopyEscaped(value, 0);
      assert value[0..] == value;
    }
  }

  /** A value that does not survive. */
  lemma BacktickIsLost()
    ensures StrCopy(None, Escaped("a`b", 0)) == Some("ab")
  {
    var v := "a`b";
    assert Escaped(v, 3) == "" && Escaped(v, 2) == "b" && Escaped(v, 1) == "`b" && Escaped(v, 0) == "a`b";
    assert v[1..] == "`b" && "`b"[1..] == "b" && "b"[1..] == "";
    assert StrCopy(Some('`'), "b") == Cons('b', StrCopy(Some('`'), "")) == Some("b");
    assert StrCopy(None, "`b") == Some("b");
    assert StrCopy(None, v) == Cons('a', Some("b"));
    assert ['a'] + "b" == "ab";
  }

  // ---------- A whole section ----------

  /** What reading the printed form of a value gives. */
  function Reread(value: string): (r: string)
    ensures r == value <==> '`' !in value
  {
    ValueRoundTripIff(value);
    StrCopy(None, TrimWs(EatWs(ClearComments(None, Escaped(value, 0))))).value
  }

  /** Name characters and escape pairs, as `eat_alpha_numeric` passes over them. */
  predicate NameText(name: string) {
    name == "" ||
    (if name[0] == '\\' then |name| >= 2 && NameText(name[2..]) else IsNameChar(name[0]) && NameText(name[1..]))
  }

  /** A name as the reader stores it: the raw text, with its escapes, on one line, and not that of
      a directive. */
  predicate StoredName(name: string) {
    NameText(name) && '\n' !in name && !(".pragma" <= name) && !(".include" <= name)
  }

  lemma {:induction false} ClearPlain(pre: string, t: string)
    requires forall i :: 0 <= i < |pre| ==> !IsQuote(pre[i]) && pre[i] != '#' && pre[i] != '\\'
    ensures ClearComments(None, pre + t) == pre + ClearComments(None, t)
  {
    if pre == "" {
      assert pre + t == t;
    } else {
      assert (pre + t)[1..] == pre[1..] + t;
      ClearPlain(pre[1..], t);
    }
  }

  lemma ClearNameChar(c: char, rest: string)
    requires IsNameChar(c)
    ensures ClearComments(None, [c] + rest) == [c] + ClearComments(None, rest)
  {
    assert ([c] + rest)[1..] == rest;
  }

  lemma {:induction false} ClearName(name: string, t: string)
    requires NameText(name)
    ensures ClearComments(None, name + t) == name + ClearComments(None, t)
  {
    if name == "" {
      assert name + t == t;
    } else if name[0] == '\\' {
      var pair, rest := ['\\', name[1]], name[2..];
      assert name == pair + rest;
      ClearName(rest, t);
      ClearEscaped(None, name[1], rest + t);
      Assoc(pair, rest, t);
      Assoc(pair, rest, ClearComments(None, t));
    } else {
      ClearNameChar(name[0], name[1..] + t);
      assert name == [name[0]] + name[1..];
      ClearName(name[1..], t);
      Assoc([name[0]], name[1..], t);
      Assoc([name[0]], name[1..], ClearComments(None, t));
    }
  }

  lemma {:induction false} NameLengthStored(name: string, t: string)
    requires NameText(name) && t != "" && t[0] != '\\' && !IsNameChar(t[0])
    ensures NameLength(name + t) == |name|
  {
    if name == "" {
      assert name + t == t;
    } else if name[0] == '\\' {
      assert (name + t)[2..] == name[2..] + t;
      NameLengthStored(name[2..], t);
    } else {
      assert (name + t)[1..] == name[1..] + t;
      NameLengthStored(name[1..], t);
    }
  }

  /** A directive word at the front of a line is at the front of its name. */
  lemma DirectiveInName(word: string, name: string, after: string)
    requires ' ' !in word && after != "" && after[0] == ' ' && word <= name + after
    ensures word <= name
  {
    var line := name + after;
    assert line[|name|] == ' ';
    assert forall i :: 0 <= i < |word| ==> word[i] == line[i];
    assert word == line[..|word|];
  }

  lemma EatOne(t: string)
    requires t != "" ==> !IsWs(t[0]) && !IsWs(t[|t| - 1])
    ensures TrimWs(EatWs(" " + t)) == t
  {
    assert (" " + t)[1..] == t;
  }

  lemma EatBeforeEquals(t: string)
    ensures EatWs(" = " + t) == "= " + t
  {
    assert (" = " + t)[1..] == "= " + t;
  }

  lemma ParseValuePart(name: string, p: string, t: string)
    requires (t != "" ==> !IsWs(t[0]) && !IsWs(t[|t| - 1])) && StrCopy(None, t).Some?
    requires p == "= " + t
    ensures ParseValue(name, p) == Entry(name, StrCopy(None, t).value)
  {
    assert p[1..] == " " + t;
    EatOne(t);
  }

  /** No directive word starts the line of a stored name. */
  lemma NotDirective(name: string, after: string)
    requires StoredName(name) && after != "" && after[0] == ' '
    ensures !(".pragma" <= name + after) && !(".include" <= name + after)
  {
    if ".pragma" <= name + after { DirectiveInName(".pragma", name, after); }
    if ".include" <= name + after { DirectiveInName(".include", name, after); }
  }

  /** The part of the line reader after the comments and leading white space are gone. */
  lemma ParseClean(name: string, after: string)
    requires StoredName(name) && name != "" && after != "" && after[0] == ' '
    ensures ParseText(EatWs(name + after)) == ParseValue(name, EatWs(after))
  {
    var line := name + after;
    NameStart(name);
    NameLengthStored(name, after);
    NotDirective(name, after);
    assert line[0] == name[0];
    assert EatWs(line) == line;
    assert line[|name|..] == after && line[..|name|] == name;
  }

  lemma NameStart(name: string)
    requires NameText(name) && name != ""
    ensures !IsWs(name[0]) && name[0] != '['
  {
  }

  lemma EqualsEndsName(p: string)
    requires p != "" && p[0] == '='
    ensures NameLength(p) == 0 && EatWs(p) == p && !(".pragma" <= p) && !(".include" <= p)
  {
    assert !IsNameChar('=');
    assert ".pragma"[0] == '.' && ".include"[0] == '.';
  }

  /** The empty name, which the reader accepts too. */
  lemma ParseNameless(after: string, p: string)
    requires EatWs(after) == p && p != "" && p[0] == '='
    ensures ParseText(EatWs("" + after)) == ParseValue("", p)
  {
    EqualsEndsName(p);
    assert "" + after == after && p[..0] == "" && p[0..] == p;
  }

  lemma LineIsClean(name: string, value: string)
    requires StoredName(name)
    ensures ClearComments(None, EntryLine((name, value))) == EntryLine((name, value))
  {
    var t := Escaped(value, 0);
    Assoc(name, " = ", t);
    ClearName(name, " = " + t);
    ClearPlain(" = ", t);
    NoComment(value, 0, None);
  }

  lemma RereadIs(value: string)
    ensures StrCopy(None, Escaped(value, 0)) == Some(Reread(value))
  {
    NoComment(value, 0, None);
    EscapedEnds(value);
    ValueRoundTripIff(value);
  }

  /** A printed entry is read back as its name and what is left of its value. */
  lemma LineRoundTrip(name: string, value: string)
    requires StoredName(name)
    ensures ParseLine(EntryLine((name, value))) == Entry(name, Reread(value))
  {
    var t := Escaped(value, 0);
    LineIsClean(name, value);
    Assoc(name, " = ", t);
    EscapedEnds(value);
    RereadIs(value);
    EatBeforeEquals(t);
    if name == "" { ParseNameless(" = " + t, "= " + t); } else { ParseClean(name, " = " + t); }
    ParseValuePart(name, "= " + t, t);
  }

  /** A line without line ends that is not continued is split off a text. */
  lemma SplitOff(l: string, rest: string)
    requires '\n' !in l && l != "" && l[|l| - 1] != '\r' && !Continued(l)
    ensures Lines("", l + "\n" + rest) == [l] + Lines("", rest)
  {
    IndexOfAfter(l, '\n', rest);
    var text := l + "\n" + rest;
    assert text != "" && text[..|l|] == l && text[|l| + 1..] == rest && "" + l == l;
    assert StripCr(l) == l;
  }

  lemma EntryLineShape(name: string, value: string)
    requires StoredName(name)
    ensures var l := EntryLine((name, value)); l != "" && '\n' !in l && l[|l| - 1] != '\r' && !Continued(l)
  {
    var pre, t := name + " = ", Escaped(value, 0);
    NoRawNewline(value, 0);
    EscapedEnds(value);
    assert '\n' !in pre;
    JoinShape(pre, t);
  }

  lemma JoinShape(pre: string, t: string)
    requires pre != "" && pre[|pre| - 1] == ' ' && '\n' !in pre && '\n' !in t && '\r' !in t && !Continued(t)
    ensures var l := pre + t; '\n' !in l && l[|l| - 1] != '\r' && !Continued(l)
  {
    var l := pre + t;
    assert l[|l| - 1] == if t == "" then ' ' else t[|t| - 1];
    assert |t| >= 2 ==> l[|l| - 2] == t[|t| - 2];
  }

  lemma LinesAssoc(a: seq<string>, l: string, c: seq<string>)
    ensures a + ([l] + c) == a + [l] + c
  {
  }

  /** The lines of a printed section are its entries. */
  lemma {:induction false} SectionLines(es: seq<(string, string)>, rest: string)
    requires forall i :: 0 <= i < |es| ==> StoredName(es[i].0)
    ensures Lines("", SectionText(es) + rest) == EntryLines(es) + Lines("", rest)
    decreases |es|
  {
    if es == [] {
      assert SectionText(es) + rest == rest;
    } else {
      var init, e := es[..|es| - 1], es[|es| - 1];
      var l := EntryLine(e);
      EntryLineShape(e.0, e.1);
      SplitOff(l, rest);
      Assoc(SectionText(init), l + "\n", rest);
      SectionLines(init, l + "\n" + rest);
      LinesAssoc(EntryLines(init), l, Lines("", rest));
    }
  }

  function EntryLines(es: seq<(string, string)>): seq<string> {
    if es == [] then [] else EntryLines(es[..|es| - 1]) + [EntryLine(es[|es| - 1])]
  }

  /** What reading a printed section gives. */
  function RereadAll(es: seq<(string, string)>): (r: seq<(string, string)>)
    ensures |r| == |es| && forall i :: 0 <= i < |es| ==> r[i] == (es[i].0, Reread(es[i].1))
  {
    seq(|es|, i requires 0 <= i < |es| => (es[i].0, Reread(es[i].1)))
  }

  lemma RereadAllSnoc(es: seq<(string, string)>)
    requires es != []
    ensures RereadAll(es) == RereadAll(es[..|es| - 1]) + [(es[|es| - 1].0, Reread(es[|es| - 1].1))]
  {
    var init, r := es[..|es| - 1], RereadAll(es);
    assert r[..|init|] == RereadAll(init);
    assert r == r[..|init|] + [r[|init|]];
  }

  lemma {:induction false} EntriesOfLines(es: seq<(string, string)>)
    requires forall i :: 0 <= i < |es| ==> StoredName(es[i].0)
    ensures Entries(EntryLines(es)) == Some(RereadAll(es))
    decreases |es|
  {
    if es != [] {
      var init, e := es[..|es| - 1], es[|es| - 1];
      EntriesOfLines(init);
      LineRoundTrip(e.0, e.1);
      var lines := EntryLines(es);
      assert lines[..|lines| - 1] == EntryLines(init) && lines[|lines| - 1] == EntryLine(e);
      RereadAllSnoc(es);
    }
  }

  lemma RereadAllIff(es: seq<(string, string)>)
    ensures RereadAll(es) == es <==> forall i :: 0 <= i < |es| ==> '`' !in es[i].1
  {
    var r := RereadAll(es);
    if forall i :: 0 <= i < |es| ==> '`' !in es[i].1 {
      forall i | 0 <= i < |es| ensures r[i] == es[i] {
        assert Reread(es[i].1) == es[i].1;
      }
    } else {
      var i :| 0 <= i < |es| && '`' in es[i].1;
      assert Reread(es[i].1) != es[i].1 && r[i] != es[i];
    }
  }

  /** A printed section is read back entry by entry, and equals what was printed exactly when no
      value has a backtick. */
  lemma SectionRoundTripIff(es: seq<(string, string)>)
    requires forall i :: 0 <= i < |es| ==> StoredName(es[i].0)
    ensures Entries(Lines("", SectionText(es))) == Some(RereadAll(es))
    ensures RereadAll(es) == es <==> forall i :: 0 <= i < |es| ==> '`' !in es[i].1
  {
    SectionLines(es, "");
    assert SectionText(es) + "" == SectionText(es);
    assert EntryLines(es) + Lines("", "") == EntryLines(es);
    EntriesOfLines(es);
    RereadAllIff(es);
  }

  /** How single characters and some spaces are printed. */
  lemma PrintedForms(c: char)
    ensures c in ['"', '\'', '#', '\\', '$'] ==> Escaped([c], 0) == ['\\', c]
    ensures Escaped("\n", 0) == "\\n" && Escaped("\r", 0) == "\\r" && Escaped("\t", 0) == "\\t" && Escaped([8 as char], 0) == "\\b"
    ensures Escaped(" ", 0) == "\" \"" && Escaped("a b", 0) == "a b" && Escaped("", 0) == ""
    ensures c !in ['"', '\'', '#', '\\', '$', '\n', '\r', '\t', ' ', 8 as char] ==> Escaped([c], 0) == [c]
  {
    OneCharacter(c);
    OneCharacter('\n');
    OneCharacter('\r');
    OneCharacter('\t');
    OneCharacter(8 as char);
    OneCharacter(' ');
    assert Escaped("a b", 3) == "" && Escaped("a b", 2) == "b" && Escaped("a b", 1) == " b";
  }

  lemma OneCharacter(c: char)
    ensures Escaped([c], 0) == EscapeChar(c, true)
  {
    assert Escaped([c], 1) == "" && EscapeChar(c, true) + "" == EscapeChar(c, true);
  }
}
