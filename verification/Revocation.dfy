/** The revocation field of a database row: printed by `make_revocation_str`, taken apart
    by `unpack_revinfo`, and turned into a CRL entry by `make_revoked`. */
module Revocation {
  import opened CText

  /** REVINFO_TYPE. */
  datatype RevType = RevValid | RevNone | RevCrlReason | RevHold | RevKeyCompromise | RevCaCompromise

  /** Which texts the ASN.1 time parsers and the object parser accept. */
  datatype Checks = Checks(
    isTime: string -> bool,          // ASN1_TIME_set_string
    isUtc: string -> bool,           // ASN1_UTCTIME_set_string
    isGeneralized: string -> bool,   // ASN1_GENERALIZEDTIME_set_string
    isOid: string -> bool)           // OBJ_txt2obj

  /** The result of `unpack_revinfo`; a parsed object or time is named by its text. */
  datatype RevInfo = RevInfo(time: string, reason: int, hold: Option<string>, invalidity: Option<string>)

  const NO_STATUS := -1
  const REAL_REASONS := 8
  const NUM_REASONS := 11

  const CRL_REASONS: seq<string> := [
    "unspecified", "keyCompromise", "CACompromise", "affiliationChanged", "superseded",
    "cessationOfOperation", "certificateHold", "removeFromCRL",
    "holdInstruction", "keyTime", "CAkeyTime"]

  /** The first of the first `n` reason names equal to `s` up to case. */
  function ReasonIndex(s: string, n: nat): (r: Option<nat>)
    requires n <= NUM_REASONS
    ensures r.Some? ==> r.value < n && EqNoCase(s, CRL_REASONS[r.value])
    ensures r.None? ==> forall i :: 0 <= i < n ==> !EqNoCase(s, CRL_REASONS[i])
  {
    if n == 0 then None
    else
      var r := ReasonIndex(s, n - 1);
      if r.Some? then r
      else if EqNoCase(s, CRL_REASONS[n - 1]) then Some(n - 1) else None
  }

  /** The reason code of section 5.3.1 of RFC 5280 for a table position; the pseudo reasons
      stand for certificateHold, keyCompromise and cACompromise. */
  function ReasonCode(i: nat): int
    requires i < NUM_REASONS
  {
    if i == 7 then 8 else if i == 8 then 6 else if i == 9 then 1 else if i == 10 then 2 else i
  }

  /** What the revocation options ask for: the reason code, the hold instruction and the
      invalidity time; None when the argument is refused. */
  function Meaning(c: Checks, t: RevType, arg: string): Option<(int, Option<string>, Option<string>)> {
    match t
    case RevValid => Some((NO_STATUS, None, None))
    case RevNone => Some((NO_STATUS, None, None))
    case RevCrlReason =>
      var r := ReasonIndex(arg, REAL_REASONS);
      if r.None? then None else Some((ReasonCode(r.value), None, None))
    case RevHold => if c.isOid(arg) then Some((6, Some(arg), None)) else None
    case RevKeyCompromise => if c.isGeneralized(arg) then Some((1, None, Some(arg))) else None
    case RevCaCompromise => if c.isGeneralized(arg) then Some((2, None, Some(arg))) else None
  }

  /** The reason word and the extra argument that are written for a revocation. */
  function Words(c: Checks, t: RevType, arg: string): Option<(Option<string>, Option<string>)> {
    match t
    case RevValid => Some((None, None))
    case RevNone => Some((None, None))
    case RevCrlReason =>
      var r := ReasonIndex(arg, REAL_REASONS);
      if r.None? then None else Some((Some(CRL_REASONS[r.value]), None))
    case RevHold => if c.isOid(arg) then Some((Some("holdInstruction"), Some(arg))) else None
    case RevKeyCompromise => if c.isGeneralized(arg) then Some((Some("keyTime"), Some(arg))) else None
    case RevCaCompromise => if c.isGeneralized(arg) then Some((Some("CAkeyTime"), Some(arg))) else None
  }

  function CommaField(f: Option<string>): string {
    if f.Some? then "," + f.value else ""
  }

  /** The text stored in the revocation field: time[,reason[,extra]]. */
  function RevocationText(c: Checks, now: string, t: RevType, arg: string): Option<string> {
    var w := Words(c, t, arg);
    if w.None? then None
    else Some(now + CommaField(w.value.0) + CommaField(w.value.1))
  }

  /** `make_revocation_str`: the buffer is sized from the parts and filled by strlcpy and
      strlcat; nothing is cut off and the allocation is exactly the text plus its NUL. */
  method MakeRevocationStr(c: Checks, now: string, t: RevType, arg: string)
    returns (str: Option<string>, size: nat)
    ensures str == RevocationText(c, now, t, arg)
    ensures str.Some? ==> size == |str.value| + 1
  {
    var reason: Option<string>, other: Option<string> := None, None;
    size := 0;
    match t {
      case RevNone =>
      case RevValid =>
      case RevCrlReason =>
        for i := 0 to REAL_REASONS
          invariant reason.None? && other.None?
          invariant ReasonIndex(arg, i).None?
        {
          if EqNoCase(arg, CRL_REASONS[i]) {
            reason := Some(CRL_REASONS[i]);
            ReasonIndexStable(arg, i + 1, REAL_REASONS);
            break;
          }
        }
        if reason.None? {
          return None, 0;
        }
      case RevHold =>
        if !c.isOid(arg) {
          return None, 0;
        }
        reason := Some("holdInstruction");
        other := Some(arg);
      case _ =>
        if !c.isGeneralized(arg) {
          return None, 0;
        }
        other := Some(arg);
        reason := Some(if t == RevKeyCompromise then "keyTime" else "CAkeyTime");
    }
    assert Words(c, t, arg) == Some((reason, other));
    var buf;
    buf, size := FillRevocation(now, reason, other);
    str := Some(buf);
  }

  method FillRevocation(now: string, reason: Option<string>, other: Option<string>)
    returns (buf: string, size: nat)
    ensures buf == now + CommaField(reason) + CommaField(other)
    ensures size == |buf| + 1
  {
    size := |now| + 1;
    if reason.Some? { size := size + |reason.value| + 1; }
    if other.Some? { size := size + |other.value| + 1; }
    buf := Strlcpy(now, size);
    if reason.Some? {
      buf := Strlcat(buf, ",", size);
      buf := Strlcat(buf, reason.value, size);
    }
    assert buf == now + CommaField(reason);
    if other.Some? {
      buf := Strlcat(buf, ",", size);
      buf := Strlcat(buf, other.value, size);
    }
    assert buf == now + CommaField(reason) + CommaField(other);
  }

  /** A match among the first `m` names stays the first match when more are searched. */
  lemma {:induction false} ReasonIndexStable(s: string, m: nat, n: nat)
    requires m <= n <= NUM_REASONS && ReasonIndex(s, m).Some?
    ensures ReasonIndex(s, n) == ReasonIndex(s, m)
  {
    if m < n { ReasonIndexStable(s, m, n - 1); }
  }

  // ---------- Reading ----------

  /** The reason and extra part of a revocation field. */
  function UnpackReason(c: Checks, time: string, reason: string, arg: Option<string>): Option<RevInfo> {
    var r := ReasonIndex(reason, NUM_REASONS);
    if r.None? then None
    else
      var i := r.value;
      if i < 8 then Some(RevInfo(time, ReasonCode(i), None, None))
      else if arg.None? then None
      else if i == 8 then
        if c.isOid(arg.value) then Some(RevInfo(time, 6, arg, None)) else None
      else
        if c.isGeneralized(arg.value) then Some(RevInfo(time, ReasonCode(i), None, arg)) else None
  }

  /** The text before the first comma, and what follows it. */
  function SplitComma(s: string): (string, Option<string>) {
    var i := IndexOf(s, ',');
    (s[..i], if i == |s| then None else Some(s[i + 1..]))
  }

  lemma SplitCommaJoin(a: string, b: Option<string>)
    requires ',' !in a
    ensures SplitComma(a + CommaField(b)) == (a, b)
  {
    var s := a + CommaField(b);
    if b.None? {
      assert s == a;
      IndexOfAbsent(a, ',');
    } else {
      assert s == a + [','] + b.value;
      IndexOfAfter(a, ',', b.value);
      assert s[|a| + 1..] == b.value;
    }
    assert s[..|a|] == a;
  }

  /** What a revocation field says: the parts before the first comma, between the first two,
      and everything after the second. */
  function Unpack(c: Checks, s: string): Option<RevInfo> {
    var (time, rest) := SplitComma(s);
    if !c.isUtc(time) then None
    else if rest.None? then Some(RevInfo(time, NO_STATUS, None, None))
    else
      var (reason, arg) := SplitComma(rest.value);
      UnpackReason(c, time, reason, arg)
  }

  /** The C string that starts at `from` in a buffer. */
  function CStrAt(buf: seq<char>, from: nat): string
    requires from <= |buf|
  {
    var t := buf[from..];
    t[..IndexOf(t, '\0')]
  }

  lemma CStrIs(buf: seq<char>, from: nat, t: string)
    requires from + |t| < |buf| && buf[from..from + |t|] == t && '\0' !in t && buf[from + |t|] == '\0'
    ensures CStrAt(buf, from) == t
  {
    var s := buf[from..];
    assert s == t + ['\0'] + buf[from + |t| + 1..];
    IndexOfAfter(t, '\0', buf[from + |t| + 1..]);
    assert s[..|t|] == t;
  }

  /** `strchr` over a NUL-terminated part of a buffer; -1 for NULL. */
  method Strchr(buf: array<char>, from: nat, ghost t: string, c: char) returns (p: int)
    requires from + |t| < buf.Length && buf[from..from + |t|] == t
    requires '\0' !in t && buf[from + |t|] == '\0' && c != '\0'
    ensures IndexOf(t, c) == |t| ==> p == -1
    ensures IndexOf(t, c) < |t| ==> p == from + IndexOf(t, c)
  {
    p := from;
    while buf[p] != '\0'
      invariant from <= p <= from + |t|
      invariant forall k :: from <= k < from + |t| ==> buf[k] == t[k - from]
      invariant c !in t[..p - from]
      decreases buf.Length - p
    {
      assert buf[p] == t[p - from];
      if buf[p] == c {
        assert t == t[..p - from] + [c] + t[p - from + 1..];
        IndexOfAfter(t[..p - from], c, t[p - from + 1..]);
        return;
      }
      assert t[..p + 1 - from] == t[..p - from] + [t[p - from]];
      p := p + 1;
    }
    assert t[..p - from] == t;
    IndexOfAbsent(t, c);
    p := -1;
  }

  lemma CutFacts(was: seq<char>, from: nat, t: string, i: nat)
    requires from + |t| < |was| && was[from..from + |t|] == t && was[from + |t|] == '\0' && '\0' !in t && i < |t|
    ensures var b, next, rest := was[from + i := '\0'], from + i + 1, t[i + 1..];
      CStrAt(b, from) == t[..i] && b[next..next + |rest|] == rest && b[next + |rest|] == '\0' && '\0' !in rest
  {
    var b, next, rest := was[from + i := '\0'], from + i + 1, t[i + 1..];
    assert b[from..from + i] == was[from..from + |t|][..i] == t[..i];
    CStrIs(b, from, t[..i]);
    assert b[next..next + |rest|] == was[from..from + |t|][i + 1..] == rest;
  }

  /** Cuts the C string `t` at `from` in place at its first comma; `next` is where the rest
      starts, or -1. */
  method CutAtComma(buf: array<char>, from: nat, ghost t: string) returns (head: string, next: int)
    requires from + |t| < buf.Length && buf[from..from + |t|] == t
    requires '\0' !in t && buf[from + |t|] == '\0'
    modifies buf
    ensures head == SplitComma(t).0
    ensures next == -1 <==> SplitComma(t).1.None?
    ensures SplitComma(t).1.Some? ==>
      var rest := SplitComma(t).1.value;
      0 <= next && next + |rest| < buf.Length && buf[next..next + |rest|] == rest &&
      '\0' !in rest && buf[next + |rest|] == '\0'
  {
    ghost var i := IndexOf(t, ',');
    var p := Strchr(buf, from, t, ',');
    if p < 0 {
      assert t[..i] == t;
      CStrIs(buf[..], from, t);
      head := CStrAt(buf[..], from);
      next := -1;
    } else {
      CutFacts(buf[..], from, t, i);
      ghost var cut := buf[..][p := '\0'];
      buf[p] := '\0';
      assert buf[..] == cut;
      head := CStrAt(buf[..], from);
      next := p + 1;
      assert buf[next..next + |t| - i - 1] == cut[next..next + |t| - i - 1];
    }
  }

  /** Takes a copy of the field apart at its first two commas. */
  method CutFields(str: string) returns (time: string, reason: Option<string>, arg: Option<string>)
    requires '\0' !in str
    ensures time == SplitComma(str).0
    ensures reason.Some? <==> SplitComma(str).1.Some?
    ensures reason.None? ==> arg.None?
    ensures reason.Some? ==> (reason.value, arg) == SplitComma(SplitComma(str).1.value)
  {
    var tmp := new char[|str| + 1](i => if 0 <= i < |str| then str[i] else '\0');
    assert tmp[0..|str|] == str;
    reason, arg := None, None;
    var p;
    time, p := CutAtComma(tmp, 0, str);
    if p >= 0 {
      ghost var rest := SplitComma(str).1.value;
      var reasonStr, q := CutAtComma(tmp, p, rest);
      reason := Some(reasonStr);
      if q >= 0 {
        CStrIs(tmp[..], q, SplitComma(rest).1.value);
        arg := Some(CStrAt(tmp[..], q));
      }
    }
  }

  /** `unpack_revinfo`. */
  method UnpackRevinfo(c: Checks, str: string) returns (r: Option<RevInfo>)
    requires '\0' !in str
    ensures r == Unpack(c, str)
  {
    var time, reason, arg := CutFields(str);
    if !c.isUtc(time) {
      return None;
    }
    var code, hold, comp := NO_STATUS, None, None;
    if reason.Some? {
      code := FindReason(reason.value);
      if code == NO_STATUS {
        return None;
      }
      if code == 7 {
        code := 8;
      } else if code == 8 {
        if arg.None? || !c.isOid(arg.value) {
          return None;
        }
        code := 6;
        hold := arg;
      } else if code == 9 || code == 10 {
        if arg.None? || !c.isGeneralized(arg.value) {
          return None;
        }
        comp := arg;
        code := if code == 9 then 1 else 2;
      }
    }
    r := Some(RevInfo(time, code, hold, comp));
  }

  method FindReason(reason: string) returns (code: int)
    ensures code == (if ReasonIndex(reason, NUM_REASONS).Some? then ReasonIndex(reason, NUM_REASONS).value else NO_STATUS)
  {
    for i := 0 to NUM_REASONS
      invariant ReasonIndex(reason, i).None?
    {
      if EqNoCase(reason, CRL_REASONS[i]) {
        ReasonIndexStable(reason, i + 1, NUM_REASONS);
        return i;
      }
    }
    return NO_STATUS;
  }

  // ---------- Round trip ----------

  predicate Letters(s: string) {
    forall ch :: ch in s ==> 'A' <= ch <= 'Z' || 'a' <= ch <= 'z'
  }

  lemma ReasonLetters(i: nat)
    requires i < NUM_REASONS
    ensures Letters(CRL_REASONS[i])
  {
    ReasonLettersFirst();
    ReasonLettersMiddle();
    ReasonLettersLast();
  }

  lemma ReasonLettersFirst()
    ensures Letters("unspecified") && Letters("keyCompromise") && Letters("CACompromise") && Letters("affiliationChanged")
  {
  }

  lemma ReasonLettersLast()
    ensures Letters("holdInstruction") && Letters("keyTime") && Letters("CAkeyTime")
  {
  }

  lemma ReasonLettersMiddle()
    ensures Letters("superseded") && Letters("cessationOfOperation") && Letters("certificateHold") && Letters("removeFromCRL")
  {
  }

  /** No reason name equals another one up to case, so every name finds its own position. */
  lemma {:induction false} ReasonNameFound(i: nat)
    requires i < NUM_REASONS
    ensures ReasonIndex(CRL_REASONS[i], NUM_REASONS) == Some(i)
    ensures ',' !in CRL_REASONS[i]
  {
    ReasonLetters(i);
    forall k | 0 <= k < i ensures !EqNoCase(CRL_REASONS[i], CRL_REASONS[k]) {
      assert |CRL_REASONS[i]| != |CRL_REASONS[k]| || Lower(CRL_REASONS[i][0]) != Lower(CRL_REASONS[k][0]);
    }
    var r := ReasonIndex(CRL_REASONS[i], i + 1);
    ReasonIndexStable(CRL_REASONS[i], i + 1, NUM_REASONS);
  }

  /** The written words read back as the meaning of the options. */
  lemma WordsMeaning(c: Checks, t: RevType, arg: string)
    ensures Words(c, t, arg).Some? <==> Meaning(c, t, arg).Some?
    ensures Words(c, t, arg).Some? ==>
      var w, m := Words(c, t, arg).value, Meaning(c, t, arg).value;
      && (w.0.None? ==> w.1.None? && m == (NO_STATUS, None, None))
      && (w.0.Some? ==> ',' !in w.0.value)
      && (w.0.Some? ==> forall time :: UnpackReason(c, time, w.0.value, w.1) == Some(RevInfo(time, m.0, m.1, m.2)))
  {
    match t {
      case RevCrlReason =>
        var r := ReasonIndex(arg, REAL_REASONS);
        if r.Some? { ReasonNameFound(r.value); }
      case RevHold => ReasonNameFound(8);
      case RevKeyCompromise => ReasonNameFound(9);
      case RevCaCompromise => ReasonNameFound(10);
      case _ =>
    }
  }

  lemma UnpackTimeOnly(c: Checks, now: string)
    requires ',' !in now
    ensures Unpack(c, now + CommaField(None) + CommaField(None)) ==
      if c.isUtc(now) then Some(RevInfo(now, NO_STATUS, None, None)) else None
  {
    assert now + CommaField(None) + CommaField(None) == now + CommaField(None);
    SplitCommaJoin(now, None);
  }

  lemma UnpackParts(c: Checks, s: string, time: string, rest: string, reason: string, other: Option<string>)
    requires SplitComma(s) == (time, Some(rest)) && SplitComma(rest) == (reason, other)
    ensures Unpack(c, s) == if c.isUtc(time) then UnpackReason(c, time, reason, other) else None
  {
  }

  lemma JoinFields(now: string, reason: string, tail: string)
    ensures now + CommaField(Some(reason)) + tail == now + CommaField(Some(reason + tail))
  {
  }

  lemma UnpackWithReason(c: Checks, now: string, reason: string, other: Option<string>)
    requires ',' !in now && ',' !in reason
    ensures Unpack(c, now + CommaField(Some(reason)) + CommaField(other)) ==
      if c.isUtc(now) then UnpackReason(c, now, reason, other) else None
  {
    var rest := reason + CommaField(other);
    JoinFields(now, reason, CommaField(other));
    SplitCommaJoin(now, Some(rest));
    SplitCommaJoin(reason, other);
    UnpackParts(c, now + CommaField(Some(rest)), now, rest, reason, other);
  }

  /** For every kind of revocation and every argument: the field is written exactly when the
      argument is accepted, and it reads back as the same time, the reason code the options
      mean and the same extra argument, commas included, exactly when the time is a UTCTime. */
  lemma RevocationRoundTrip(c: Checks, now: string, t: RevType, arg: string)
    requires ',' !in now
    ensures RevocationText(c, now, t, arg).Some? <==> Meaning(c, t, arg).Some?
    ensures RevocationText(c, now, t, arg).Some? ==>
      var m := Meaning(c, t, arg).value;
      Unpack(c, RevocationText(c, now, t, arg).value) ==
        if c.isUtc(now) then Some(RevInfo(now, m.0, m.1, m.2)) else None
  {
    WordsMeaning(c, t, arg);
    var w := Words(c, t, arg);
    if w.Some? {
      if w.value.0.None? {
        UnpackTimeOnly(c, now);
      } else {
        UnpackWithReason(c, now, w.value.0.value, w.value.1);
      }
    }
  }

  // ---------- CRL entries ----------

  /** The extensions that `make_revoked` puts on a CRL entry. */
  datatype Revoked = Revoked(date: string, reasonExt: Option<int>, invalidityExt: Option<string>, holdExt: Option<string>)

  function EntryOf(i: RevInfo): Revoked {
    Revoked(i.time, if i.reason != NO_STATUS then Some(i.reason) else None, i.invalidity, i.hold)
  }

  /** The entry carries the time as its date, the reason code if there is one, the hold instruction
      and the invalidity time of the field, each where it belongs. */
  predicate Publishes(rev: Revoked, i: RevInfo) {
    && rev.date == i.time && rev.holdExt == i.hold && rev.invalidityExt == i.invalidity
    && (i.reason == -1 ==> rev.reasonExt == None) && (i.reason != -1 ==> rev.reasonExt == Some(i.reason))
  }

  /** `make_revoked`: 0 on error, 2 when an extension was added, else 1. */
  method MakeRevoked(c: Checks, str: string) returns (ret: nat, rev: Revoked)
    requires '\0' !in str
    ensures ret == 0 <==> Unpack(c, str).None?
    ensures ret != 0 ==> rev == EntryOf(Unpack(c, str).value) && Publishes(rev, Unpack(c, str).value)
    ensures ret == 2 <==> ret != 0 && (rev.reasonExt.Some? || rev.invalidityExt.Some? || rev.holdExt.Some?)
    ensures ret <= 2
  {
    rev := Revoked("", None, None, None);
    var info := UnpackRevinfo(c, str);
    if info.None? {
      return 0, rev;
    }
    rev := rev.(date := info.value.time);
    if info.value.reason != NO_STATUS {
      rev := rev.(reasonExt := Some(info.value.reason));
    }
    if info.value.invalidity.Some? {
      rev := rev.(invalidityExt := info.value.invalidity);
    }
    if info.value.hold.Some? {
      rev := rev.(holdExt := info.value.hold);
    }
    ExtraNeedsReason(c, str);
    ret := if info.value.reason != NO_STATUS then 2 else 1;
  }

  /** Hold and invalidity data never come without a reason, and never both. */
  lemma ExtraNeedsReason(c: Checks, s: string)
    requires Unpack(c, s).Some?
    ensures var i := Unpack(c, s).value;
      && (i.hold.Some? ==> i.reason == 6)
      && (i.invalidity.Some? ==> i.reason == 1 || i.reason == 2)
      && (i.hold.None? || i.invalidity.None?)
      && i.reason in {NO_STATUS, 0, 1, 2, 3, 4, 5, 6, 8}
  {
  }
}
