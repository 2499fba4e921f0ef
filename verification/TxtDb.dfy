/** The text database file: `TXT_DB_write` and `TXT_DB_read` for rows of six fields. */
module TxtDb {
  import opened CText

  /** One database row; an absent field (NULL) is written and modelled as the empty text. */
  datatype Row = Row(ty: string, exp: string, rev: string, serial: string, file: string, name: string)

  const DB_NUMBER := 6

  function Fields(r: Row): (fs: seq<string>)
    ensures |fs| == DB_NUMBER
  {
    [r.ty, r.exp, r.rev, r.serial, r.file, r.name]
  }

  function OfFields(fs: seq<string>): (r: Row)
    requires |fs| == DB_NUMBER
    ensures Fields(r) == fs
  {
    Row(fs[0], fs[1], fs[2], fs[3], fs[4], fs[5])
  }

  // ---------- Writing ----------

  /** A field with a backslash put before every tab. */
  function Escaped(s: string): string {
    if s == "" then "" else (if s[0] == '\t' then "\\\t" else [s[0]]) + Escaped(s[1..])
  }

  /** Escaped fields separated by tabs. */
  function Joined(fs: seq<string>): string
    requires fs != []
  {
    if |fs| == 1 then Escaped(fs[0]) else Escaped(fs[0]) + "\t" + Joined(fs[1..])
  }

  function WriteRows(rows: seq<Row>): string {
    if rows == [] then "" else Joined(Fields(rows[0])) + "\n" + WriteRows(rows[1..])
  }

  lemma {:induction false} EscapedSnoc(s: string, c: char)
    ensures Escaped(s + [c]) == Escaped(s) + (if c == '\t' then "\\\t" else [c])
  {
    if s == "" {
      assert s + [c] == [c] && [c][1..] == "";
    } else {
      assert (s + [c])[1..] == s[1..] + [c];
      EscapedSnoc(s[1..], c);
    }
  }

  lemma {:induction false} JoinedSnoc(fs: seq<string>, f: string)
    requires fs != []
    ensures Joined(fs + [f]) == Joined(fs) + "\t" + Escaped(f)
  {
    assert (fs + [f])[1..] == fs[1..] + [f];
    if |fs| > 1 {
      JoinedSnoc(fs[1..], f);
    } else {
      assert (fs + [f])[1..] == [f];
    }
  }

  lemma {:induction false} WriteRowsSnoc(rows: seq<Row>, r: Row)
    ensures WriteRows(rows + [r]) == WriteRows(rows) + Joined(Fields(r)) + "\n"
  {
    if rows == [] {
      assert rows + [r] == [r] && [r][1..] == [];
    } else {
      assert (rows + [r])[1..] == rows[1..] + [r];
      WriteRowsSnoc(rows[1..], r);
    }
  }

  /** The bytes of one row: every field, escaped and followed by a tab; the last tab is then
      overwritten by the newline. */
  method WriteRow(fs: seq<string>) returns (buf: string)
    requires fs != []
    ensures buf == Joined(fs) + "\n"
  {
    buf := "";
    for j := 0 to |fs|
      invariant j == 0 ==> buf == ""
      invariant j > 0 ==> buf == Joined(fs[..j]) + "\t"
    {
      ghost var before := buf;
      for k := 0 to |fs[j]|
        invariant buf == before + Escaped(fs[j][..k])
      {
        assert fs[j][..k + 1] == fs[j][..k] + [fs[j][k]];
        EscapedSnoc(fs[j][..k], fs[j][k]);
        if fs[j][k] == '\t' {
          buf := buf + "\\";
        }
        buf := buf + [fs[j][k]];
      }
      assert fs[j][..|fs[j]|] == fs[j];
      buf := buf + "\t";
      assert fs[..j + 1] == fs[..j] + [fs[j]];
      if j > 0 { JoinedSnoc(fs[..j], fs[j]); }
    }
    assert fs[..|fs|] == fs;
    buf := buf[..|buf| - 1] + "\n";
  }

  /** `TXT_DB_write`. */
  method TxtDbWrite(rows: seq<Row>) returns (out: string)
    ensures out == WriteRows(rows)
  {
    out := "";
    for i := 0 to |rows|
      invariant out == WriteRows(rows[..i])
    {
      var buf := WriteRow(Fields(rows[i]));
      assert rows[..i + 1] == rows[..i] + [rows[i]];
      WriteRowsSnoc(rows[..i], rows[i]);
      out := out + buf;
    }
    assert rows[..|rows|] == rows;
  }

  // ---------- Reading ----------

  predicate EndsInBackslash(s: string) {
    s != "" && s[|s| - 1] == '\\'
  }

  /** The fields of a line: `done` are finished, `cur` is being copied, `esc` says that the
      last character copied was a backslash. A tab ends the field unless escaped; an escaped
      tab replaces its backslash. A tab after the sixth field must end the line. */
  function Parse(f: string, cur: string, esc: bool, done: seq<string>): Option<seq<string>>
    requires esc ==> cur != ""
    decreases f
  {
    if f == "" then
      if |done| + 1 == DB_NUMBER then Some(done + [cur]) else None
    else if f[0] == '\t' && !esc then
      if |done| + 1 >= DB_NUMBER then
        if |done| + 1 == DB_NUMBER && f[1..] == "" then Some(done + [cur]) else None
      else Parse(f[1..], "", false, done + [cur])
    else
      var kept := if f[0] == '\t' then cur[..|cur| - 1] else cur;
      Parse(f[1..], kept + [f[0]], f[0] == '\\', done)
  }

  predicate IsComment(line: string) {
    line != "" && line[0] == '#'
  }

  /** The rows of a file: comment lines are skipped, every other line must have six fields,
      and a last line without newline is dropped. */
  function ReadRows(text: string): Option<seq<Row>>
    decreases |text|
  {
    var i := IndexOf(text, '\n');
    if i == |text| then Some([])
    else
      var line, rest := text[..i], text[i + 1..];
      if IsComment(line) then ReadRows(rest)
      else
        var fs := Parse(line, "", false, []);
        if fs.None? || |fs.value| != DB_NUMBER then None
        else
          After([OfFields(fs.value)], ReadRows(rest))
  }

  /** The field loop of `TXT_DB_read`. */
  method ReadLine(line: string) returns (fs: Option<seq<string>>)
    ensures fs == Parse(line, "", false, [])
    ensures fs.Some? ==> |fs.value| == DB_NUMBER
  {
    var f, cur, esc, done := 0, "", false, [];
    while f < |line|
      invariant f <= |line| && (esc ==> cur != "")
      invariant |done| < DB_NUMBER
      invariant Parse(line[f..], cur, esc, done) == Parse(line, "", false, [])
    {
      assert line[f..][1..] == line[f + 1..];
      if line[f] == '\t' {
        if esc {
          cur := cur[..|cur| - 1];
        } else {
          f := f + 1;
          if |done| + 1 >= DB_NUMBER {
            break;
          }
          done := done + [cur];
          cur := "";
          continue;
        }
      }
      esc := line[f] == '\\';
      cur := cur + [line[f]];
      f := f + 1;
    }
    fs := if |done| + 1 == DB_NUMBER && f == |line| then Some(done + [cur]) else None;
  }

  /** Rows already read, followed by the result for the rest of the file. */
  function After(acc: seq<Row>, rs: Option<seq<Row>>): Option<seq<Row>> {
    if rs.None? then None else Some(acc + rs.value)
  }

  lemma AfterSnoc(acc: seq<Row>, r: Row, rs: Option<seq<Row>>)
    ensures After(acc, After([r], rs)) == After(acc + [r], rs)
  {
    if rs.Some? {
      assert acc + ([r] + rs.value) == acc + [r] + rs.value;
    }
  }

  /** The rows before `at` have been read into `acc`. */
  ghost predicate Reading(text: string, at: nat, acc: seq<Row>) {
    at <= |text| && ReadRows(text) == After(acc, ReadRows(text[at..]))
  }

  lemma ReadStart(text: string)
    ensures Reading(text, 0, [])
  {
    assert text[0..] == text;
    if ReadRows(text).Some? {
      assert [] + ReadRows(text).value == ReadRows(text).value;
    }
  }

  /** A line stands at `at`, followed by its newline. */
  ghost predicate LineAt(text: string, at: nat, line: string) {
    at + |line| < |text| && text[at..at + |line|] == line && text[at + |line|] == '\n' && '\n' !in line
  }

  lemma LineAtIndex(text: string, at: nat, line: string)
    requires LineAt(text, at, line)
    ensures var t := text[at..];
      IndexOf(t, '\n') == |line| < |t| && t[..|line|] == line && t[|line| + 1..] == text[at + |line| + 1..]
  {
    assert text[at..] == line + ['\n'] + text[at + |line| + 1..];
    IndexOfAfter(line, '\n', text[at + |line| + 1..]);
  }

  lemma ReadEnd(text: string, at: nat, acc: seq<Row>)
    requires Reading(text, at, acc) && '\n' !in text[at..]
    ensures ReadRows(text) == Some(acc)
  {
    IndexOfAbsent(text[at..], '\n');
    assert acc + [] == acc;
  }

  lemma ReadComment(text: string, at: nat, acc: seq<Row>, line: string, at': nat)
    requires Reading(text, at, acc) && LineAt(text, at, line) && IsComment(line) && at' == at + |line| + 1
    ensures Reading(text, at', acc)
  {
    LineAtIndex(text, at, line);
  }

  lemma ReadRow(text: string, at: nat, acc: seq<Row>, line: string, fs: Option<seq<string>>, at': nat, acc': seq<Row>)
    requires Reading(text, at, acc) && LineAt(text, at, line) && !IsComment(line) && at' == at + |line| + 1
    requires fs == Parse(line, "", false, [])
    requires fs.Some? && |fs.value| == DB_NUMBER ==> acc' == acc + [OfFields(fs.value)]
    ensures fs.None? ==> ReadRows(text).None?
    ensures fs.Some? ==> Reading(text, at', acc')
  {
    ParseCount(line, "", false, []);
    ReadLineAt(text, at, line, fs, at');
    if fs.Some? { ReadingStep(text, at, acc, at', OfFields(fs.value)); }
  }

  lemma ReadLineAt(text: string, at: nat, line: string, fs: Option<seq<string>>, at': nat)
    requires LineAt(text, at, line) && !IsComment(line) && at' == at + |line| + 1
    requires fs == Parse(line, "", false, []) && (fs.Some? ==> |fs.value| == DB_NUMBER)
    ensures at <= at' <= |text|
    ensures ReadRows(text[at..]) == if fs.None? then None else After([OfFields(fs.value)], ReadRows(text[at'..]))
  {
    LineAtIndex(text, at, line);
    ReadLineOf(text[at..], line, fs);
  }

  lemma ReadingStep(text: string, at: nat, acc: seq<Row>, at': nat, r: Row)
    requires Reading(text, at, acc) && at <= at' <= |text| && ReadRows(text[at..]) == After([r], ReadRows(text[at'..]))
    ensures Reading(text, at', acc + [r])
  {
    AfterSnoc(acc, r, ReadRows(text[at'..]));
  }

  /** A text that starts with a line, unfolded once. */
  lemma ReadLineOf(t: string, line: string, fs: Option<seq<string>>)
    requires IndexOf(t, '\n') == |line| < |t| && t[..|line|] == line && !IsComment(line)
    requires fs == Parse(line, "", false, []) && (fs.Some? ==> |fs.value| == DB_NUMBER)
    ensures ReadRows(t) == if fs.None? then None else After([OfFields(fs.value)], ReadRows(t[|line| + 1..]))
  {
  }

  /** The next line of the file; None when no newline is left. */
  method GetLine(text: string, at: nat) returns (line: Option<string>)
    requires at <= |text|
    ensures line.None? ==> '\n' !in text[at..]
    ensures line.Some? ==> LineAt(text, at, line.value)
  {
    var i := IndexOf(text[at..], '\n');
    if at + i == |text| {
      assert text[at..][..i] == text[at..];
      return None;
    }
    assert text[at..][..i] == text[at..at + i] && text[at..][i] == text[at + i];
    return Some(text[at..at + i]);
  }

  /** One turn of the reading loop: at the end of the file or at a bad line it gives the
      result, otherwise it moves past a line. */
  method ReadNext(text: string, at: nat, acc: seq<Row>)
    returns (result: Option<Option<seq<Row>>>, at': nat, acc': seq<Row>)
    requires Reading(text, at, acc)
    ensures result.Some? ==> result.value == ReadRows(text)
    ensures result.None? ==> at < at' && Reading(text, at', acc')
  {
    at', acc' := at, acc;
    var line := GetLine(text, at);
    if line.None? {
      ReadEnd(text, at, acc);
      return Some(Some(acc)), at', acc';
    }
    at' := at + |line.value| + 1;
    if IsComment(line.value) {
      ReadComment(text, at, acc, line.value, at');
      return None, at', acc';
    }
    var fs := ReadLine(line.value);
    if fs.Some? {
      acc' := acc + [OfFields(fs.value)];
    }
    ReadRow(text, at, acc, line.value, fs, at', acc');
    result := if fs.None? then Some(None) else None;
  }

  /** `TXT_DB_read`. */
  method TxtDbRead(text: string) returns (rows: Option<seq<Row>>)
    ensures rows == ReadRows(text)
  {
    var at, acc := 0, [];
    ReadStart(text);
    while true
      invariant Reading(text, at, acc)
      decreases |text| - at
    {
      var result;
      result, at, acc := ReadNext(text, at, acc);
      if result.Some? {
        return result.value;
      }
    }
  }

  lemma {:induction false} ParseCount(f: string, cur: string, esc: bool, done: seq<string>)
    requires esc ==> cur != ""
    ensures Parse(f, cur, esc, done).Some? ==> |Parse(f, cur, esc, done).value| == DB_NUMBER
    decreases f
  {
    if f == "" {
    } else if f[0] == '\t' && !esc {
      if |done| + 1 < DB_NUMBER { ParseCount(f[1..], "", false, done + [cur]); }
    } else {
      var kept := if f[0] == '\t' then cur[..|cur| - 1] else cur;
      ParseCount(f[1..], kept + [f[0]], f[0] == '\\', done);
    }
  }

  // ---------- Which rows survive ----------

  /** The rows that a file can carry: no newline in a field, no field but the last ending in
      a backslash, and a first field that does not make the line a comment. */
  predicate Storable(fs: seq<string>) {
    |fs| == DB_NUMBER &&
    (forall i :: 0 <= i < DB_NUMBER ==> '\n' !in fs[i]) &&
    (forall i :: 0 <= i < DB_NUMBER - 1 ==> !EndsInBackslash(fs[i])) &&
    (fs[0] != "" ==> fs[0][0] != '#')
  }

  lemma ParseEscapedTab(tail: string, cur: string, esc: bool, done: seq<string>)
    requires esc ==> cur != ""
    ensures Parse("\\\t" + tail, cur, esc, done) == Parse(tail, cur + ['\t'], false, done)
  {
    var f := "\\\t" + tail;
    assert f[1..] == "\t" + tail && ("\t" + tail)[1..] == tail;
    assert Parse(f, cur, esc, done) == Parse("\t" + tail, cur + ['\\'], true, done);
    assert (cur + ['\\'])[..|cur|] == cur;
  }

  lemma ParsePlain(c: char, tail: string, cur: string, esc: bool, done: seq<string>)
    requires c != '\t' && (esc ==> cur != "")
    ensures Parse([c] + tail, cur, esc, done) == Parse(tail, cur + [c], c == '\\', done)
  {
    assert ([c] + tail)[1..] == tail;
  }

  lemma ParseEscapedStep(s: string, rest: string, cur: string, done: seq<string>)
    requires s != ""
    ensures Parse(Escaped(s) + rest, cur, EndsInBackslash(cur), done) ==
      Parse(Escaped(s[1..]) + rest, cur + [s[0]], EndsInBackslash(cur + [s[0]]), done)
  {
    var tail := Escaped(s[1..]) + rest;
    if s[0] == '\t' {
      assert Escaped(s) + rest == "\\\t" + tail;
      ParseEscapedTab(tail, cur, EndsInBackslash(cur), done);
    } else {
      assert Escaped(s) + rest == [s[0]] + tail;
      ParsePlain(s[0], tail, cur, EndsInBackslash(cur), done);
    }
  }

  /** Copying an escaped field gives the field back, whatever stands before it. */
  lemma {:induction false} ParseEscaped(s: string, rest: string, cur: string, done: seq<string>)
    ensures Parse(Escaped(s) + rest, cur, EndsInBackslash(cur), done) ==
      Parse(rest, cur + s, EndsInBackslash(cur + s), done)
    decreases s
  {
    if s == "" {
      assert Escaped(s) + rest == rest && cur + s == cur;
    } else {
      ParseEscapedStep(s, rest, cur, done);
      ParseEscaped(s[1..], rest, cur + [s[0]], done);
      assert cur + [s[0]] + s[1..] == cur + s;
    }
  }

  lemma {:induction false} ParseJoined(fs: seq<string>, done: seq<string>)
    requires fs != [] && |done| + |fs| == DB_NUMBER
    requires forall i :: 0 <= i < |fs| - 1 ==> !EndsInBackslash(fs[i])
    ensures Parse(Joined(fs), "", false, done) == Some(done + fs)
    decreases fs
  {
    assert "" + fs[0] == fs[0];
    if |fs| == 1 {
      ParseEscaped(fs[0], "", "", done);
      assert Escaped(fs[0]) + "" == Joined(fs);
      assert done + [fs[0]] == done + fs;
    } else {
      var rest := "\t" + Joined(fs[1..]);
      ParseEscaped(fs[0], rest, "", done);
      assert Joined(fs) == Escaped(fs[0]) + rest;
      assert rest[1..] == Joined(fs[1..]);
      ParseJoined(fs[1..], done + [fs[0]]);
      assert done + [fs[0]] + fs[1..] == done + fs;
    }
  }

  lemma JoinedNoComment(fs: seq<string>)
    requires |fs| > 1 && (fs[0] != "" ==> fs[0][0] != '#')
    ensures Joined(fs) != "" && Joined(fs)[0] != '#'
  {
    if fs[0] != "" {
      assert Escaped(fs[0])[0] == if fs[0][0] == '\t' then '\\' else fs[0][0];
    }
  }

  lemma {:induction false} StorableRoundTrip(rows: seq<Row>)
    requires forall r :: r in rows ==> Storable(Fields(r))
    ensures ReadRows(WriteRows(rows)) == Some(rows)
  {
    if rows == [] {
      IndexOfAbsent("", '\n');
    } else {
      assert rows[0] in rows;
      ReadFirstRow(rows[0], WriteRows(rows[1..]));
      StorableRoundTrip(rows[1..]);
      assert [rows[0]] + rows[1..] == rows;
    }
  }

  /** Reading only ever produces storable rows. */
  lemma {:induction false} ParseStorable(f: string, cur: string, esc: bool, done: seq<string>)
    requires esc == EndsInBackslash(cur) && |done| < DB_NUMBER
    requires '\n' !in f && '\n' !in cur
    requires forall i :: 0 <= i < |done| ==> '\n' !in done[i] && !EndsInBackslash(done[i])
    requires done != [] ==> done[0] == "" || done[0][0] != '#'
    requires done == [] ==> if cur != "" then cur[0] != '#' else f != "" ==> f[0] != '#'
    ensures Parse(f, cur, esc, done).Some? ==> Storable(Parse(f, cur, esc, done).value)
    decreases f
  {
    if f == "" {
    } else if f[0] == '\t' && !esc {
      if |done| + 1 < DB_NUMBER { ParseStorable(f[1..], "", false, done + [cur]); }
    } else {
      var kept := if f[0] == '\t' then cur[..|cur| - 1] else cur;
      assert kept != "" ==> kept[0] == cur[0];
      ParseStorable(f[1..], kept + [f[0]], f[0] == '\\', done);
    }
  }

  lemma {:induction false} ReadStorable(text: string)
    requires ReadRows(text).Some?
    ensures forall r :: r in ReadRows(text).value ==> Storable(Fields(r))
    decreases |text|
  {
    var i := IndexOf(text, '\n');
    if i < |text| {
      var line, rest := text[..i], text[i + 1..];
      ReadStorable(rest);
      if line == "" || line[0] != '#' {
        ParseStorable(line, "", false, []);
      }
    }
  }

  /** Over all row sequences: the saved file loads back as the same rows exactly when every
      row is storable. */
  lemma SaveLoadIff(rows: seq<Row>)
    ensures ReadRows(WriteRows(rows)) == Some(rows) <==> forall r :: r in rows ==> Storable(Fields(r))
  {
    if forall r :: r in rows ==> Storable(Fields(r)) {
      StorableRoundTrip(rows);
    } else if ReadRows(WriteRows(rows)) == Some(rows) {
      ReadStorable(WriteRows(rows));
    }
  }

  // ---------- Characters that never appear ----------

  // ---------- Rows whose expiry field is arbitrary ----------

  /** Every field but the second is storable; the second is any text. */
  predicate OddSecond(fs: seq<string>) {
    |fs| == DB_NUMBER &&
    (forall i :: 0 <= i < DB_NUMBER && i != 1 ==> '\n' !in fs[i]) &&
    (forall i :: 0 <= i < DB_NUMBER - 1 && i != 1 ==> !EndsInBackslash(fs[i])) &&
    (fs[0] != "" ==> fs[0][0] != '#')
  }

  lemma {:induction false} EscapedJoin(a: string, b: string)
    ensures Escaped(a + b) == Escaped(a) + Escaped(b)
  {
    if a == "" {
      assert a + b == b;
    } else {
      assert (a + b)[1..] == a[1..] + b;
      EscapedJoin(a[1..], b);
    }
  }

  /** Too few fields are never accepted, whatever the first of them already holds. */
  lemma {:induction false} ParseShort(fs: seq<string>, cur: string, done: seq<string>)
    requires fs != [] && |done| + |fs| < DB_NUMBER && !EndsInBackslash(cur)
    requires forall i :: 0 <= i < |fs| - 1 ==> !EndsInBackslash(fs[i])
    ensures Parse(Joined(fs), cur, false, done).None?
    decreases fs
  {
    if |fs| == 1 {
      ParseEscaped(fs[0], "", cur, done);
      assert Escaped(fs[0]) + "" == Joined(fs);
    } else {
      var rest := "\t" + Joined(fs[1..]);
      ParseEscaped(fs[0], rest, cur, done);
      assert Joined(fs) == Escaped(fs[0]) + rest && rest[1..] == Joined(fs[1..]);
      assert !EndsInBackslash(cur + fs[0]);
      ParseShort(fs[1..], "", done + [cur + fs[0]]);
    }
  }

  /** A field that ends in a backslash swallows the separator after it. */
  lemma SwallowTab(exp: string, j: string, done: seq<string>)
    requires EndsInBackslash(exp)
    ensures Parse(Escaped(exp) + "\t" + j, "", false, done) == Parse(j, exp[..|exp| - 1] + ['\t'], false, done)
  {
    var rest := "\t" + j;
    assert Escaped(exp) + "\t" + j == Escaped(exp) + rest;
    ParseEscaped(exp, rest, "", done);
    assert "" + exp == exp;
    TabAfterBackslash(exp, j, done);
  }

  lemma TabAfterBackslash(cur: string, j: string, done: seq<string>)
    requires cur != ""
    ensures Parse("\t" + j, cur, true, done) == Parse(j, cur[..|cur| - 1] + ['\t'], false, done)
  {
    assert ("\t" + j)[1..] == j;
  }

  lemma BackslashRefused(fs: seq<string>)
    requires OddSecond(fs) && EndsInBackslash(fs[1])
    ensures Parse(Joined(fs), "", false, []).None?
  {
    var tail, j := fs[2..], Joined(fs[2..]);
    JoinedParts(fs);
    FirstField(fs[0], Escaped(fs[1]) + "\t" + j);
    SwallowTab(fs[1], j, [fs[0]]);
    assert forall i :: 0 <= i < |tail| - 1 ==> !EndsInBackslash(tail[i]);
    ParseShort(tail, fs[1][..|fs[1]| - 1] + ['\t'], [fs[0]]);
  }

  lemma FirstField(ty: string, rest: string)
    requires !EndsInBackslash(ty)
    ensures Parse(Escaped(ty) + "\t" + rest, "", false, []) == Parse(rest, "", false, [ty])
  {
    var t := "\t" + rest;
    assert Escaped(ty) + "\t" + rest == Escaped(ty) + t;
    ParseEscaped(ty, t, "", []);
    assert "" + ty == ty && t[1..] == rest && [] + [ty] == [ty];
  }

  /** A line that ends inside the second field has too few fields. */
  lemma CutLineRefused(ty: string, p: string)
    requires !EndsInBackslash(ty)
    ensures Parse(Escaped(ty) + "\t" + Escaped(p), "", false, []).None?
  {
    FirstField(ty, Escaped(p));
    ParseEscaped(p, "", "", [ty]);
    assert Escaped(p) + "" == Escaped(p);
  }

  lemma FirstLine(line: string, rest: string)
    requires '\n' !in line && !IsComment(line) && Parse(line, "", false, []).None?
    ensures ReadRows(line + "\n" + rest).None?
  {
    var text := line + ['\n'] + rest;
    IndexOfAfter(line, '\n', rest);
    assert text[..|line|] == line;
  }

  lemma NotComment(ty: string, rest: string)
    requires ty != "" ==> ty[0] != '#'
    ensures !IsComment(Escaped(ty) + "\t" + rest)
  {
    if ty != "" { assert Escaped(ty)[0] == if ty[0] == '\t' then '\\' else ty[0]; }
  }

  lemma JoinedParts(fs: seq<string>)
    requires |fs| > 2
    ensures Joined(fs) == Escaped(fs[0]) + "\t" + (Escaped(fs[1]) + "\t" + Joined(fs[2..]))
  {
    assert fs[1..][1..] == fs[2..];
  }

  lemma EscapedCut(s: string) returns (p: string, q: string)
    requires '\n' in s
    ensures '\n' !in p && Escaped(s) == Escaped(p) + "\n" + Escaped(q)
  {
    var i := IndexOf(s, '\n');
    IndexOfPresent(s, '\n');
    p, q := s[..i], s[i + 1..];
    SplitAt(s, i);
    EscapedJoin(p, "\n" + q);
    EscapedNewline(q);
    assert Escaped(p) + ("\n" + Escaped(q)) == Escaped(p) + "\n" + Escaped(q);
  }

  lemma SplitAt(s: string, i: nat)
    requires i < |s| && s[i] == '\n'
    ensures s == s[..i] + ("\n" + s[i + 1..])
  {
  }

  lemma EscapedNewline(q: string)
    ensures Escaped("\n" + q) == "\n" + Escaped(q)
  {
    assert ("\n" + q)[1..] == q;
  }

  lemma SplitText(a: string, p: string, q: string, j: string, rest: string)
    ensures a + "\t" + (p + "\n" + q + "\t" + j) + "\n" + rest == a + "\t" + p + "\n" + (q + "\t" + j + "\n" + rest)
  {
  }

  /** A newline in the second field ends the line there. */
  lemma NewlineRefused(fs: seq<string>, rest: string)
    requires OddSecond(fs) && '\n' in fs[1]
    ensures ReadRows(Joined(fs) + "\n" + rest).None?
  {
    JoinedParts(fs);
    var p, q := EscapedCut(fs[1]);
    var line, j := Escaped(fs[0]) + "\t" + Escaped(p), Joined(fs[2..]);
    SplitText(Escaped(fs[0]), Escaped(p), Escaped(q), j, rest);
    CutLineRefused(fs[0], p);
    NotComment(fs[0], Escaped(p));
    EscapedAvoids('\n', fs[0]);
    EscapedAvoids('\n', p);
    FirstLine(line, Escaped(q) + "\t" + j + "\n" + rest);
  }

  lemma IndexOfPresent(s: string, c: char)
    requires c in s
    ensures IndexOf(s, c) < |s| && s[IndexOf(s, c)] == c
  {
    assert s[..|s|] == s;
  }

  /** A row that is storable but for its second field is refused when it is not storable. */
  lemma OddRefused(fs: seq<string>, rest: string)
    requires OddSecond(fs) && !Storable(fs)
    ensures ReadRows(Joined(fs) + "\n" + rest).None?
  {
    if '\n' in fs[1] {
      NewlineRefused(fs, rest);
    } else {
      assert EndsInBackslash(fs[1]);
      BackslashRefused(fs);
      JoinedAvoids('\n', fs);
      JoinedNoComment(fs);
      FirstLine(Joined(fs), rest);
    }
  }

  lemma ReadFirstRow(r: Row, rest: string)
    requires Storable(Fields(r))
    ensures ReadRows(Joined(Fields(r)) + "\n" + rest) == After([r], ReadRows(rest))
  {
    var line := Joined(Fields(r));
    var text := line + ['\n'] + rest;
    JoinedAvoids('\n', Fields(r));
    IndexOfAfter(line, '\n', rest);
    assert text[..|line|] == line && text[|line| + 1..] == rest;
    JoinedNoComment(Fields(r));
    ParseJoined(Fields(r), []);
    assert [] + Fields(r) == Fields(r) && OfFields(Fields(r)) == r;
  }

  /** A file of such rows is read back as it was written, or not at all: never as other rows. */
  lemma {:induction false} ReadBackOrRefused(rows: seq<Row>)
    requires forall r :: r in rows ==> OddSecond(Fields(r))
    ensures ReadRows(WriteRows(rows)).None? || ReadRows(WriteRows(rows)) == Some(rows)
    ensures ReadRows(WriteRows(rows)).Some? <==> forall r :: r in rows ==> Storable(Fields(r))
  {
    if rows == [] {
      IndexOfAbsent("", '\n');
    } else {
      var first, rest := rows[0], WriteRows(rows[1..]);
      assert first in rows && rows == [first] + rows[1..];
      ReadBackOrRefused(rows[1..]);
      if Storable(Fields(first)) {
        ReadFirstRow(first, rest);
      } else {
        OddRefused(Fields(first), rest);
      }
    }
  }

  ghost predicate Avoids(x: char, fs: seq<string>) {
    forall i :: 0 <= i < |fs| ==> x !in fs[i]
  }

  lemma {:induction false} ParseAvoids(x: char, f: string, cur: string, esc: bool, done: seq<string>)
    requires x !in f && x !in cur && Avoids(x, done) && (esc ==> cur != "")
    ensures Parse(f, cur, esc, done).Some? ==> Avoids(x, Parse(f, cur, esc, done).value)
    decreases f
  {
    if f == "" {
    } else if f[0] == '\t' && !esc {
      if |done| + 1 < DB_NUMBER { ParseAvoids(x, f[1..], "", false, done + [cur]); }
    } else {
      var kept := if f[0] == '\t' then cur[..|cur| - 1] else cur;
      ParseAvoids(x, f[1..], kept + [f[0]], f[0] == '\\', done);
    }
  }

  /** A character that is not in the file is in no field. */
  lemma {:induction false} ReadAvoids(x: char, text: string)
    requires x !in text && ReadRows(text).Some?
    ensures forall r :: r in ReadRows(text).value ==> Avoids(x, Fields(r))
    decreases |text|
  {
    var i := IndexOf(text, '\n');
    if i < |text| {
      var line, rest := text[..i], text[i + 1..];
      ReadAvoids(x, rest);
      if !IsComment(line) {
        ParseAvoids(x, line, "", false, []);
      }
    }
  }

  lemma {:induction false} EscapedAvoids(x: char, s: string)
    requires x !in s && x != '\\'
    ensures x !in Escaped(s)
  {
    if s != "" { EscapedAvoids(x, s[1..]); }
  }

  lemma {:induction false} JoinedAvoids(x: char, fs: seq<string>)
    requires fs != [] && Avoids(x, fs) && x != '\\' && x != '\t'
    ensures x !in Joined(fs)
  {
    EscapedAvoids(x, fs[0]);
    if |fs| > 1 { JoinedAvoids(x, fs[1..]); }
  }

  /** A character in no field is not in the file, apart from the ones writing adds. */
  lemma {:induction false} WriteAvoids(x: char, rows: seq<Row>)
    requires forall r :: r in rows ==> Avoids(x, Fields(r))
    requires x != '\\' && x != '\t' && x != '\n'
    ensures x !in WriteRows(rows)
  {
    if rows != [] {
      assert rows[0] in rows;
      JoinedAvoids(x, Fields(rows[0]));
      WriteAvoids(x, rows[1..]);
    }
  }

  /** How a row is written: six fields, a tab between them, a backslash before a tab inside one. */
  lemma WrittenRow(ty: string, exp: string, rev: string, serial: string, file: string, a: string, b: string)
    requires '\t' !in ty && '\t' !in exp && '\t' !in rev && '\t' !in serial && '\t' !in file && '\t' !in a && '\t' !in b
    ensures WriteRows([Row(ty, exp, rev, serial, file, a + ("\t" + b))]) ==
      ty + "\t" + (exp + "\t" + (rev + "\t" + (serial + "\t" + (file + "\t" + (a + "\\\t" + b))))) + "\n"
  {
    var name := a + ("\t" + b);
    var r := Row(ty, exp, rev, serial, file, name);
    TabInside(a, b);
    EscapedPlain(file);
    EscapedPlain(serial);
    EscapedPlain(rev);
    EscapedPlain(exp);
    EscapedPlain(ty);
    JoinedCons(file, [name]);
    JoinedCons(serial, [file] + [name]);
    JoinedCons(rev, [serial] + ([file] + [name]));
    JoinedCons(exp, [rev] + ([serial] + ([file] + [name])));
    JoinedCons(ty, [exp] + ([rev] + ([serial] + ([file] + [name]))));
    assert Fields(r) == [ty] + ([exp] + ([rev] + ([serial] + ([file] + [name]))));
    OneRow(r);
  }

  lemma OneRow(r: Row)
    ensures WriteRows([r]) == Joined(Fields(r)) + "\n"
  {
    assert [r][1..] == [] && WriteRows([]) == "";
    assert Joined(Fields(r)) + "\n" + "" == Joined(Fields(r)) + "\n";
  }

  lemma JoinedCons(f: string, fs: seq<string>)
    requires fs != []
    ensures Joined([f] + fs) == Escaped(f) + "\t" + Joined(fs)
  {
    assert ([f] + fs)[1..] == fs;
  }

  lemma TabInside(a: string, b: string)
    requires '\t' !in a && '\t' !in b
    ensures Escaped(a + ("\t" + b)) == a + "\\\t" + b && Joined([a + ("\t" + b)]) == a + "\\\t" + b
  {
    EscapedPlain(a);
    EscapedPlain(b);
    EscapedJoin(a, "\t" + b);
    assert ("\t" + b)[1..] == b;
    assert Escaped("\t" + b) == "\\\t" + b;
    assert a + ("\\\t" + b) == a + "\\\t" + b;
  }

  lemma {:induction false} EscapedPlain(s: string)
    requires '\t' !in s
    ensures Escaped(s) == s
  {
    if s != "" { EscapedPlain(s[1..]); }
  }
}
