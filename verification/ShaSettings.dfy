/** The settings of `shacrypt` (rounds and salt), how they are read from the salt argument and
    printed, and the whole output line. */
module ShaSettings {
  import opened CText
  import opened Crypt64
  import opened ShaCrypt

  const ROUNDS_DEFAULT := 5000
  const ROUNDS_MIN := 1000
  const ROUNDS_MAX := 999999999
  const SALT_LEN_MAX := 16
  const ULONG_MAX := 0xFFFF_FFFF_FFFF_FFFF
  const ROUNDS_PREFIX := "rounds="

  // ---------- Decimal numbers ----------

  predicate IsDigit(c: char) {
    '0' <= c <= '9'
  }

  predicate AllDigits(s: string) {
    forall i :: 0 <= i < |s| ==> IsDigit(s[i])
  }

  function DecValue(s: string): nat
    requires AllDigits(s)
  {
    if s == "" then 0 else DecValue(s[..|s| - 1]) * 10 + (s[|s| - 1] as int - 48)
  }

  /** How many leading characters are digits. */
  function DigitPrefix(s: string): (n: nat)
    ensures n <= |s| && AllDigits(s[..n])
    ensures n < |s| ==> !IsDigit(s[n])
  {
    if s == "" || !IsDigit(s[0]) then 0
    else
      var n := 1 + DigitPrefix(s[1..]);
      assert s[..n] == [s[0]] + s[1..][..n - 1];
      n
  }

  function SpacePrefix(s: string): (n: nat)
    ensures n <= |s|
  {
    if s == "" || !IsSpace(s[0]) then 0 else 1 + SpacePrefix(s[1..])
  }

  /** `strtoul(s, &endp, 10)` with a 64-bit result: the value and where it stops. Leading space
      and a sign are accepted, a negative number wraps, an overflow gives the maximum, and
      without a digit nothing is consumed. */
  function Strtoul(s: string): (r: (nat, nat))
    ensures r.1 <= |s|
  {
    var w := SpacePrefix(s);
    var t := s[w..];
    var signed := t != "" && (t[0] == '+' || t[0] == '-');
    var u := if signed then t[1..] else t;
    var n := DigitPrefix(u);
    if n == 0 then (0, 0)
    else
      var v := DecValue(u[..n]);
      var end := w + (if signed then 1 else 0) + n;
      if v > ULONG_MAX then (ULONG_MAX, end)
      else if signed && t[0] == '-' && v != 0 then (ULONG_MAX + 1 - v, end)
      else (v, end)
  }

  /** "%u". */
  function Decimal(n: nat): (s: string)
    ensures AllDigits(s) && s != ""
  {
    if n < 10 then [(n + 48) as char] else Decimal(n / 10) + [(n % 10 + 48) as char]
  }

  lemma DecValueSnoc(s: string, c: char)
    requires AllDigits(s) && IsDigit(c)
    ensures AllDigits(s + [c]) && DecValue(s + [c]) == DecValue(s) * 10 + (c as int - 48)
  {
    assert (s + [c])[..|s|] == s;
  }

  lemma {:induction false} DecimalRead(n: nat)
    ensures DecValue(Decimal(n)) == n
  {
    if n < 10 {
      DecValueSnoc("", (n + 48) as char);
      assert "" + [(n + 48) as char] == Decimal(n);
    } else {
      DecimalRead(n / 10);
      DecValueSnoc(Decimal(n / 10), (n % 10 + 48) as char);
    }
  }

  function Pow10(k: nat): nat {
    if k == 0 then 1 else 10 * Pow10(k - 1)
  }

  lemma {:induction false} DecimalLength(n: nat, k: nat)
    requires k >= 1 && n < Pow10(k)
    ensures |Decimal(n)| <= k
  {
    if n >= 10 {
      assert Pow10(1) == 10;
      DecimalLength(n / 10, k - 1);
    }
  }

  lemma {:induction false} DigitPrefixIs(d: string, c: char, rest: string)
    requires AllDigits(d) && !IsDigit(c)
    ensures DigitPrefix(d + [c] + rest) == |d|
  {
    var s := d + [c] + rest;
    if d != "" {
      assert s[1..] == d[1..] + [c] + rest;
      DigitPrefixIs(d[1..], c, rest);
    }
  }

  /** Reading a printed number followed by a dollar sign gives the number. */
  lemma StrtoulDecimal(n: nat, rest: string)
    requires n <= ULONG_MAX
    ensures Strtoul(Decimal(n) + ['$'] + rest) == (n, |Decimal(n)|)
  {
    var d := Decimal(n);
    var s := d + ['$'] + rest;
    assert IsDigit(s[0]) && s[0] == d[0];
    assert SpacePrefix(s) == 0 && s[0..] == s;
    DigitPrefixIs(d, '$', rest);
    assert s[..|d|] == d;
    DecimalRead(n);
  }

  // ---------- Settings ----------

  /** The rounds, whether they were asked for, and the salt cut to 16 characters. */
  datatype Settings = Settings(rounds: nat, custom: bool, salt: string)

  function Clamp(v: nat): nat {
    if v > ROUNDS_MAX then ROUNDS_MAX else if v < ROUNDS_MIN then ROUNDS_MIN else v
  }

  /** How the salt argument is read; None when a rounds number is not followed by '$'. */
  function ParseSalt(arg: string): Option<Settings> {
    if ROUNDS_PREFIX <= arg then
      var num := arg[|ROUNDS_PREFIX|..];
      var (v, end) := Strtoul(num);
      if end < |num| && num[end] == '$' then
        Some(Settings(Clamp(v), true, Strlcpy(num[end + 1..], SALT_LEN_MAX + 1)))
      else None
    else Some(Settings(ROUNDS_DEFAULT, false, Strlcpy(arg, SALT_LEN_MAX + 1)))
  }

  /** `strtoul` stops at a dollar sign. */
  predicate StopsAtDollar(num: string) {
    Strtoul(num).1 < |num| && num[Strtoul(num).1] == '$'
  }

  /** The rounds an argument asks for. */
  function AskedRounds(arg: string): nat {
    if ROUNDS_PREFIX <= arg then Strtoul(arg[|ROUNDS_PREFIX|..]).0 else ROUNDS_DEFAULT
  }

  /** Of the numbers of rounds that are allowed, none is nearer to `v`. */
  ghost predicate IsNearest(r: nat, v: nat) {
    ROUNDS_MIN <= r <= ROUNDS_MAX &&
    forall x :: ROUNDS_MIN <= x <= ROUNDS_MAX ==> Distance(r, v) <= Distance(x, v)
  }

  function Distance(x: nat, y: nat): nat {
    if x < y then y - x else x - y
  }

  /** What follows the settings prefix: all of the argument, or what is after the dollar sign. */
  function SaltPart(arg: string): string {
    if ROUNDS_PREFIX <= arg && StopsAtDollar(arg[|ROUNDS_PREFIX|..])
    then arg[|ROUNDS_PREFIX| + Strtoul(arg[|ROUNDS_PREFIX|..]).1 + 1..]
    else arg
  }

  function RoundsText(st: Settings): string {
    if st.custom then ROUNDS_PREFIX + Decimal(st.rounds) + "$" else ""
  }

  /** The settings as they are printed. */
  function SettingsText(st: Settings): string {
    RoundsText(st) + st.salt
  }

  lemma SettingsBounds(arg: string)
    requires ParseSalt(arg).Some?
    ensures var st := ParseSalt(arg).value;
      ROUNDS_MIN <= st.rounds <= ROUNDS_MAX && |st.salt| <= SALT_LEN_MAX &&
      (!st.custom ==> st.rounds == ROUNDS_DEFAULT && !(ROUNDS_PREFIX <= st.salt))
  {
    if !(ROUNDS_PREFIX <= arg) {
      assert Strlcpy(arg, SALT_LEN_MAX + 1) <= arg;
    }
  }

  lemma PrefixReads(num: string, v: nat, end: nat)
    requires Strtoul(num) == (v, end) && end < |num| && num[end] == '$'
    ensures ParseSalt(ROUNDS_PREFIX + num) == Some(Settings(Clamp(v), true, Strlcpy(num[end + 1..], SALT_LEN_MAX + 1)))
  {
    var arg := ROUNDS_PREFIX + num;
    assert ROUNDS_PREFIX <= arg && arg[|ROUNDS_PREFIX|..] == num;
  }

  lemma CustomReads(rounds: nat, salt: string)
    requires rounds <= ROUNDS_MAX && rounds >= ROUNDS_MIN && |salt| <= SALT_LEN_MAX
    ensures ParseSalt(ROUNDS_PREFIX + Decimal(rounds) + "$" + salt) == Some(Settings(rounds, true, salt))
  {
    var num := Decimal(rounds) + ['$'] + salt;
    assert ROUNDS_PREFIX + Decimal(rounds) + "$" + salt == ROUNDS_PREFIX + num;
    StrtoulDecimal(rounds, salt);
    PrefixReads(num, rounds, |Decimal(rounds)|);
    assert num[|Decimal(rounds)| + 1..] == salt;
  }

  /** For every accepted salt argument: the printed settings, given as the salt argument, are
      read as the same settings. */
  lemma SettingsRoundTrip(arg: string)
    requires ParseSalt(arg).Some?
    ensures ParseSalt(SettingsText(ParseSalt(arg).value)) == ParseSalt(arg)
  {
    var st := ParseSalt(arg).value;
    SettingsBounds(arg);
    if st.custom {
      CustomReads(st.rounds, st.salt);
    } else {
      assert SettingsText(st) == st.salt;
    }
  }

  lemma RoundsTextLength(st: Settings)
    requires st.rounds <= ROUNDS_MAX
    ensures |RoundsText(st)| <= if st.custom then 17 else 0
  {
    assert Pow10(3) == 1000 && Pow10(6) == 1000000 && Pow10(9) == 1000000000;
    DecimalLength(st.rounds, 9);
  }

  // ---------- The output line ----------

  const OUT_BUF_SIZE := 3 + 17 + 17 + 86 + 1

  /** The whole result: "$", magic, "$", settings, "$" and the printed digest. An empty password
      or salt fails, because a buffer of no bytes cannot be allocated. */
  ghost function ShaCryptText(md: Md, gs: seq<Group>, magic: char, pw: string, arg: string): Option<string>
    requires md.Valid() && AllFit(gs, md.size)
  {
    var st := ParseSalt(arg);
    if st.None? then None else SettledText(md, gs, magic, pw, st.value)
  }

  /** The result once the settings are known. */
  ghost function SettledText(md: Md, gs: seq<Group>, magic: char, pw: string, st: Settings): Option<string>
    requires md.Valid() && AllFit(gs, md.size)
  {
    if pw == "" || st.salt == "" then None
    else
      var d := ShaDigest(md, BytesOf(pw), BytesOf(st.salt), st.rounds);
      Some(['$', magic, '$'] + SettingsText(st) + ['$'] + Tail(gs, d))
  }

  /** For every password and accepted salt argument: hashing again with the printed settings as
      the salt argument reproduces the output. */
  lemma SettingsReproduce(md: Md, gs: seq<Group>, magic: char, pw: string, arg: string)
    requires md.Valid() && AllFit(gs, md.size) && ParseSalt(arg).Some?
    ensures ShaCryptText(md, gs, magic, pw, SettingsText(ParseSalt(arg).value)) == ShaCryptText(md, gs, magic, pw, arg)
  {
    SettingsRoundTrip(arg);
  }

  /** `OPENSSL_strlcat` into the output buffer, whose text has length `len`. */
  method StrlcatBuf(out: array<char>, len: nat, src: string) returns (len': nat)
    requires len < out.Length && out[len] == '\0'
    modifies out
    ensures len' < out.Length && out[len'] == '\0'
    ensures out[..len'] == old(out[..len]) + Strlcpy(src, out.Length - len)
  {
    var t := Strlcpy(src, out.Length - len);
    for i := 0 to |t|
      invariant out[..len + i] == old(out[..len]) + t[..i]
    {
      ghost var before := out[..len + i];
      out[len + i] := t[i];
      assert out[..len + i + 1] == before + [t[i]];
      assert t[..i + 1] == t[..i] + [t[i]];
    }
    assert t[..|t|] == t;
    len' := len + |t|;
    ghost var done := out[..len'];
    out[len'] := '\0';
    assert out[..len'] == done;
  }

  /** A strlcat that has room. */
  method Append(out: array<char>, len: nat, src: string, ghost text: string) returns (len': nat)
    requires len + |src| < out.Length && out[len] == '\0' && out[..len] == text
    modifies out
    ensures len' == len + |src| && out[len'] == '\0'
    ensures out[..len'] == text + src
  {
    len' := StrlcatBuf(out, len, src);
    assert |out[..len']| == |text + src|;
  }

  /** The part of `shacrypt` that reads the salt argument. */
  method ReadSalt(arg: string) returns (st: Option<Settings>)
    ensures st == ParseSalt(arg)
    ensures st.Some? <==> !(ROUNDS_PREFIX <= arg) || StopsAtDollar(arg[|ROUNDS_PREFIX|..])
    ensures st.Some? ==> st.value.custom == (ROUNDS_PREFIX <= arg)
    ensures st.Some? ==> IsNearest(st.value.rounds, AskedRounds(arg))
    ensures st.Some? ==> st.value.salt <= SaltPart(arg) && (|st.value.salt| == SALT_LEN_MAX || st.value.salt == SaltPart(arg))
    ensures st.Some? ==> |st.value.salt| <= SALT_LEN_MAX
  {
    var salt, rounds, custom := arg, ROUNDS_DEFAULT, false;
    if ROUNDS_PREFIX <= arg {
      var num := arg[|ROUNDS_PREFIX|..];
      var (srounds, endp) := Strtoul(num);
      if endp == |num| || num[endp] != '$' {
        return None;
      }
      salt := num[endp + 1..];
      if srounds > ROUNDS_MAX {
        rounds := ROUNDS_MAX;
      } else if srounds < ROUNDS_MIN {
        rounds := ROUNDS_MIN;
      } else {
        rounds := srounds;
      }
      custom := true;
    }
    st := Some(Settings(rounds, custom, Strlcpy(salt, SALT_LEN_MAX + 1)));
  }

  /** The settings part of the output; the check against the expected length never fails. */
  method PrintSettings(out: array<char>, magic: char, st: Settings) returns (len: nat)
    requires out.Length == OUT_BUF_SIZE && out[0] == '\0' && st.rounds <= ROUNDS_MAX && |st.salt| <= SALT_LEN_MAX
    modifies out
    ensures len <= 3 + (if st.custom then 17 else 0) + |st.salt|
    ensures out[..len] == ['$', magic, '$'] + SettingsText(st)
  {
    RoundsTextLength(st);
    ghost var head := ['$', magic, '$'];
    assert out[..0] == [];
    len := Append(out, 0, ['$', magic, '$'], []);
    assert [] + head == head;
    if st.custom {
      len := Append(out, len, ROUNDS_PREFIX + Decimal(st.rounds), head);
      len := Append(out, len, "$", head + (ROUNDS_PREFIX + Decimal(st.rounds)));
      assert head + (ROUNDS_PREFIX + Decimal(st.rounds)) + "$" == head + RoundsText(st);
    } else {
      assert head + RoundsText(st) == head;
    }
    len := Append(out, len, st.salt, head + RoundsText(st));
    assert head + RoundsText(st) + st.salt == head + SettingsText(st);
  }

  /** The digest part of the output: a dollar sign and the printed digest. */
  method PrintDigest(out: array<char>, len: nat, gs: seq<Group>, d: Bytes) returns (text: string)
    requires AllFit(gs, |d|) && len + 1 + TailLength(gs) < out.Length
    modifies out
    ensures text == old(out[..len]) + ['$'] + Tail(gs, d)
  {
    ghost var head := out[..len];
    out[len] := '$';
    assert out[..len + 1] == head + ['$'];
    var cp := PrintTail(out, len + 1, gs, d);
    assert out[..cp] == out[..len + 1] + out[len + 1..cp];
    out[cp] := '\0';
    text := out[..cp];
  }

  /** `shacrypt` for a chosen digest and byte order: every write stays inside the buffer. */
  method ShaCryptWith(md: Md, gs: seq<Group>, magic: char, pw: string, arg: string) returns (r: Option<string>)
    requires md.Valid() && AllFit(gs, md.size) && TailLength(gs) <= 86
    ensures r == ShaCryptText(md, gs, magic, pw, arg)
  {
    var st := ReadSalt(arg);
    if st.None? {
      return None;
    }
    SettingsBounds(arg);
    r := CryptSettled(md, gs, magic, pw, st.value);
  }

  /** The part of `shacrypt` after the settings have been read. */
  method CryptSettled(md: Md, gs: seq<Group>, magic: char, pw: string, st: Settings) returns (r: Option<string>)
    requires md.Valid() && AllFit(gs, md.size) && TailLength(gs) <= 86
    requires st.rounds <= ROUNDS_MAX && |st.salt| <= SALT_LEN_MAX
    ensures r == SettledText(md, gs, magic, pw, st)
  {
    var out := new char[OUT_BUF_SIZE](_ => '\0');
    var len := PrintSettings(out, magic, st);
    if pw == "" || st.salt == "" {
      return None;
    }
    var d := ComputeDigest(md, BytesOf(pw), BytesOf(st.salt), st.rounds);
    var text := PrintDigest(out, len, gs, d);
    r := Some(text);
  }

  lemma TailLengths()
    ensures TailLength(SHA256_GROUPS) == 43 && TailLength(SHA512_GROUPS) == 86
  {
    Sha256Order();
    Sha512Order();
    FoursLength(SHA256_GROUPS, 10);
    FoursLength(SHA512_GROUPS, 21);
    assert SHA256_GROUPS[..|SHA256_GROUPS| - 1] == SHA256_GROUPS[..10];
    assert SHA512_GROUPS[..|SHA512_GROUPS| - 1] == SHA512_GROUPS[..21];
  }

  /** `shacrypt`. */
  method Shacrypt(sha256: Md, sha512: Md, pw: string, magic: string, arg: string) returns (r: Option<string>)
    requires sha256.Valid() && sha512.Valid() && sha256.size == 32 && sha512.size == 64
    ensures AllFit(SHA256_GROUPS, 32) && AllFit(SHA512_GROUPS, 64)
    ensures magic == "5" ==> r == ShaCryptText(sha256, SHA256_GROUPS, '5', pw, arg)
    ensures magic == "6" ==> r == ShaCryptText(sha512, SHA512_GROUPS, '6', pw, arg)
    ensures magic != "5" && magic != "6" ==> r == None
  {
    Sha256Covers();
    Sha512Covers();
    TailLengths();
    r := None;
    if |magic| != 1 {
      return;
    }
    if magic[0] == '5' {
      r := ShaCryptWith(sha256, SHA256_GROUPS, '5', pw, arg);
    } else if magic[0] == '6' {
      r := ShaCryptWith(sha512, SHA512_GROUPS, '6', pw, arg);
    }
  }

  /** The printed line determines the digest: under equal settings, two passwords with the same
      output have the same SHA-crypt digest. */
  lemma OutputDeterminesDigest(md: Md, gs: seq<Group>, magic: char, pw: string, pw': string, arg: string)
    requires md.Valid() && AllFit(gs, md.size) && Covers(gs, md.size) && ParseSalt(arg).Some?
    requires ShaCryptText(md, gs, magic, pw, arg).Some?
    requires ShaCryptText(md, gs, magic, pw, arg) == ShaCryptText(md, gs, magic, pw', arg)
    ensures var st := ParseSalt(arg).value;
      ShaDigest(md, BytesOf(pw), BytesOf(st.salt), st.rounds) == ShaDigest(md, BytesOf(pw'), BytesOf(st.salt), st.rounds)
  {
    var st := ParseSalt(arg).value;
    var d := ShaDigest(md, BytesOf(pw), BytesOf(st.salt), st.rounds);
    var e := ShaDigest(md, BytesOf(pw'), BytesOf(st.salt), st.rounds);
    var head := ['$', magic, '$'] + SettingsText(st) + ['$'];
    assert (head + Tail(gs, d))[|head|..] == Tail(gs, d);
    assert (head + Tail(gs, e))[|head|..] == Tail(gs, e);
    TailInjective(gs, d, e);
  }
}
