/** Serial numbers in the CA database: how a number is printed (`BN_bn2hex`), read
    (`BN_hex2bn`), accepted at load time, and compared by the serial index, which
    looks at the text and not at the number. */
module Serial {
  import opened CText

  predicate IsHexDigit(c: char) {
    '0' <= c <= '9' || 'A' <= c <= 'F' || 'a' <= c <= 'f'
  }

  predicate AllHex(s: string) {
    forall i :: 0 <= i < |s| ==> IsHexDigit(s[i])
  }

  function HexVal(c: char): (v: nat)
    requires IsHexDigit(c)
    ensures v < 16
  {
    if '0' <= c <= '9' then c as int - 48
    else if 'A' <= c <= 'F' then c as int - 55
    else c as int - 87
  }

  function Digit(d: nat): (c: char)
    requires d < 16
    ensures IsHexDigit(c) && HexVal(c) == d && Upper(c) == c
  {
    if d < 10 then (d + 48) as char else (d + 55) as char
  }

  lemma UpperDigit(c: char)
    requires IsHexDigit(c)
    ensures IsHexDigit(Upper(c)) && HexVal(Upper(c)) == HexVal(c) && Upper(c) == Digit(HexVal(c))
    ensures Upper(c) == '0' <==> c == '0'
  {
  }

  /** The number written by hexadecimal digits, most significant first. */
  function HexValue(s: string): nat
    requires AllHex(s)
  {
    if s == "" then 0 else HexValue(s[..|s| - 1]) * 16 + HexVal(s[|s| - 1])
  }

  /** The digit pairs of the bytes of `n`, leading zero bytes dropped. */
  function ByteHex(n: nat): (s: string)
    ensures AllHex(s) && |s| % 2 == 0
    ensures n == 0 <==> s == ""
  {
    if n == 0 then ""
    else ByteHex(n / 256) + [Digit(n % 256 / 16), Digit(n % 16)]
  }

  /** `BN_bn2hex`. */
  function Bn2Hex(n: int): string {
    if n == 0 then "0" else if n < 0 then "-" + ByteHex(-n) else ByteHex(n)
  }

  /** The serial text that every writer and every number lookup uses. */
  function DbSerial(n: int): string {
    if n == 0 then "00" else Bn2Hex(n)
  }

  /** How many leading characters are hexadecimal digits. */
  function HexPrefix(s: string): (n: nat)
    ensures n <= |s| && AllHex(s[..n])
    ensures n < |s| ==> !IsHexDigit(s[n])
  {
    if s == "" || !IsHexDigit(s[0]) then 0
    else
      var n := 1 + HexPrefix(s[1..]);
      assert s[..n] == [s[0]] + s[1..][..n - 1];
      n
  }

  /** `BN_hex2bn`: the number, or None where it returns 0. */
  function Hex2Bn(s: string): Option<int> {
    if s == "" then None else ReadDigits(s[0] == '-', Magnitude(s))
  }

  /** The digits at the front, with their sign. */
  function ReadDigits(neg: bool, d: string): Option<int> {
    var n := HexPrefix(d);
    if n == 0 then None
    else
      var v: int := HexValue(d[..n]);
      Some(if neg then -v else v)
  }

  lemma ReadAllDigits(neg: bool, d: string)
    requires AllHex(d) && d != ""
    ensures ReadDigits(neg, d) == Some(if neg then -(HexValue(d) as int) else HexValue(d))
  {
    HexPrefixAll(d);
    assert d[..|d|] == d;
  }

  /** The characters after an optional minus sign. */
  function Magnitude(s: string): string {
    if s != "" && s[0] == '-' then s[1..] else s
  }

  /** The load-time check of a serial field: an even number of hexadecimal digits,
      at least two, after an optional minus sign. */
  predicate Loadable(s: string) {
    var d := Magnitude(s);
    |d| % 2 == 0 && |d| >= 2 && AllHex(d)
  }

  /** The number a loadable serial text stands for. */
  function Value(s: string): int
    requires Loadable(s)
  {
    var v: int := HexValue(Magnitude(s));
    if s[0] == '-' then -v else v
  }

  /** What the index hash and the index comparison see: the text without leading '0'. */
  function Key(s: string): string {
    if s != "" && s[0] == '0' then Key(s[1..]) else s
  }

  predicate ZeroPair(d: string) {
    |d| >= 2 && d[0] == '0' && d[1] == '0'
  }

  /** A serial text that the number lookups can find: upper case, and no leading zero
      byte hidden behind a minus sign. */
  predicate Canonical(s: string) {
    UpperText(s) == s &&
    (s != "" && s[0] == '-' ==> !ZeroPair(s[1..]))
  }

  // ---------- Printing and reading ----------

  lemma HexValuePair(s: string, a: char, b: char)
    requires AllHex(s) && IsHexDigit(a) && IsHexDigit(b)
    ensures AllHex(s + [a, b]) && HexValue(s + [a, b]) == HexValue(s) * 256 + HexVal(a) * 16 + HexVal(b)
  {
    var t := s + [a, b];
    assert t[..|t| - 1] == s + [a];
    assert (s + [a])[..|s|] == s;
  }

  lemma Nibbles(n: nat)
    ensures n == n / 256 * 256 + n % 256 / 16 * 16 + n % 16
  {
  }

  lemma JoinNibbles(v: nat, a: nat, b: nat)
    requires a < 16 && b < 16
    ensures (v * 256 + a * 16 + b) / 256 == v
    ensures (v * 256 + a * 16 + b) % 256 / 16 == a
    ensures (v * 256 + a * 16 + b) % 16 == b
  {
    var low := a * 16 + b;
    assert low < 256 && (v * 256 + low) % 256 == low && low / 16 == a;
    assert v * 256 + low == 16 * (v * 16 + a) + b;
  }

  lemma {:induction false} ByteHexValue(n: nat)
    ensures HexValue(ByteHex(n)) == n
  {
    if n != 0 {
      var q, a, b := n / 256, n % 256 / 16, n % 16;
      ByteHexValue(q);
      HexValuePair(ByteHex(q), Digit(a), Digit(b));
      Nibbles(n);
      assert ByteHex(n) == ByteHex(q) + [Digit(a), Digit(b)];
    }
  }

  lemma HexPrefixAll(s: string)
    requires AllHex(s)
    ensures HexPrefix(s) == |s|
  {
  }

  lemma ZeroRoundTrip()
    ensures Loadable("00") && Value("00") == 0 && Hex2Bn("00") == Some(0)
  {
    assert Magnitude("00") == "00" && "00"[..2] == "00";
    assert "00"[..1] == "0" && "0"[..0] == "";
    assert HexValue("0") == 0 && HexValue("00") == 0;
    HexPrefixAll("00");
  }

  lemma Hex2BnPlain(d: string)
    requires AllHex(d) && d != ""
    ensures Hex2Bn(d) == Some(HexValue(d) as int)
  {
    HexPrefixAll(d);
    assert d[..|d|] == d;
  }

  lemma Hex2BnMinus(d: string)
    requires AllHex(d) && d != ""
    ensures Hex2Bn("-" + d) == Some(-(HexValue(d) as int))
  {
    ReadAllDigits(true, d);
    assert ("-" + d)[1..] == d;
  }

  lemma MinusLoadable(d: string)
    requires AllHex(d) && |d| % 2 == 0 && |d| >= 2
    ensures Loadable("-" + d) && Value("-" + d) == -(HexValue(d) as int)
  {
    assert Magnitude("-" + d) == d;
  }

  /** Reading back what was written gives the number, and it passes the load check. */
  lemma DbSerialRoundTrip(n: int)
    ensures Loadable(DbSerial(n)) && Value(DbSerial(n)) == n && Hex2Bn(DbSerial(n)) == Some(n)
  {
    if n == 0 {
      ZeroRoundTrip();
    } else {
      var m := if n < 0 then -n else n;
      ByteHexValue(m);
      if n < 0 {
        Hex2BnMinus(ByteHex(m));
        MinusLoadable(ByteHex(m));
      } else {
        Hex2BnPlain(ByteHex(m));
      }
    }
  }

  /** On every serial text that passes the load check, `BN_hex2bn` succeeds and gives
      its number. */
  lemma LoadableReads(s: string)
    requires Loadable(s)
    ensures Hex2Bn(s) == Some(Value(s))
  {
    var d := Magnitude(s);
    HexPrefixAll(d);
    assert d[..|d|] == d;
  }

  // ---------- What the index key depends on ----------

  /** The digits of `n` without any leading zero. */
  function HexDigits(n: nat): string {
    if n == 0 then "" else HexDigits(n / 16) + [Digit(n % 16)]
  }

  lemma {:induction false} KeySnoc(s: string, c: char)
    ensures Key(s + [c]) == if Key(s) == "" then (if c == '0' then "" else [c]) else Key(s) + [c]
  {
    if s == "" {
      assert s + [c] == [c];
      assert [c][1..] == "";
    } else if s[0] == '0' {
      assert (s + [c])[1..] == s[1..] + [c];
      KeySnoc(s[1..], c);
    }
  }

  lemma {:induction false} HexDigitsNonzero(n: nat)
    ensures n == 0 <==> HexDigits(n) == ""
  {
  }

  lemma HexDigitsStep(v: nat, x: nat, w: nat)
    requires x < 16 && w == v * 16 + x
    ensures HexDigits(w) == if w == 0 then "" else HexDigits(v) + [Digit(x)]
  {
    assert w / 16 == v && w % 16 == x;
  }

  lemma KeyDigitsStep(k: string, c: char, v: nat, w: nat)
    requires k == HexDigits(v) && IsHexDigit(c) && w == v * 16 + HexVal(c)
    ensures HexDigits(w) == if k == "" then (if c == '0' then "" else [Upper(c)]) else k + [Upper(c)]
  {
    HexDigitsStep(v, HexVal(c), w);
    HexDigitsNonzero(v);
    UpperDigit(c);
  }

  /** The key of upper-case digits is exactly the minimal digits of the number. */
  lemma {:induction false} KeyOfDigits(d: string)
    requires AllHex(d)
    ensures Key(UpperText(d)) == HexDigits(HexValue(d))
  {
    if d != "" {
      var p, c := d[..|d| - 1], d[|d| - 1];
      KeyOfDigits(p);
      UpperDigit(c);
      assert UpperText(d) == UpperText(p) + [Upper(c)];
      KeySnoc(UpperText(p), Upper(c));
      KeyDigitsStep(Key(UpperText(p)), c, HexValue(p), HexValue(d));
    }
  }

  lemma {:induction false} ByteHexUpper(n: nat)
    ensures UpperText(ByteHex(n)) == ByteHex(n)
  {
    if n != 0 {
      ByteHexUpper(n / 256);
      var p := ByteHex(n / 256);
      forall i | 0 <= i < |ByteHex(n)| ensures Upper(ByteHex(n)[i]) == ByteHex(n)[i] {
        if i < |p| {
          assert UpperText(p)[i] == p[i];
        }
      }
    }
  }

  lemma {:induction false} ByteHexNoZeroByte(n: nat)
    ensures !ZeroPair(ByteHex(n))
  {
    if n != 0 {
      ByteHexNoZeroByte(n / 256);
      if n / 256 == 0 {
        Nibbles(n);
        assert HexVal(Digit(n % 256 / 16)) != 0 || HexVal(Digit(n % 16)) != 0;
        assert ByteHex(n) == [Digit(n % 256 / 16), Digit(n % 16)];
      } else {
        var p := ByteHex(n / 256);
        assert ByteHex(n)[0] == p[0] && ByteHex(n)[1] == p[1];
      }
    }
  }

  lemma ByteHexUnfold(w: nat, v: nat, a: nat, b: nat)
    requires a < 16 && b < 16 && w == v * 256 + a * 16 + b && w != 0
    ensures ByteHex(w) == ByteHex(v) + [Digit(a), Digit(b)]
  {
    JoinNibbles(v, a, b);
  }

  lemma ByteHexStep(p: string, a: char, b: char, v: nat, w: nat)
    requires ByteHex(v) == p
    requires IsHexDigit(a) && IsHexDigit(b) && Upper(a) == a && Upper(b) == b
    requires v == 0 ==> a != '0' || b != '0'
    requires w == v * 256 + HexVal(a) * 16 + HexVal(b)
    ensures ByteHex(w) == p + [a, b]
  {
    UpperDigit(a);
    UpperDigit(b);
    ByteHexUnfold(w, v, HexVal(a), HexVal(b));
  }

  /** Upper-case digit pairs with a nonzero first pair are what `BN_bn2hex` prints. */
  lemma {:induction false} ByteHexOfDigits(d: string)
    requires AllHex(d) && |d| % 2 == 0 && UpperText(d) == d && !ZeroPair(d)
    ensures ByteHex(HexValue(d)) == d
  {
    if d != "" {
      var p, a, b := d[..|d| - 2], d[|d| - 2], d[|d| - 1];
      assert d == p + [a, b];
      assert Upper(a) == a && Upper(b) == b && UpperText(p) == p by {
        forall i | 0 <= i < |d| ensures Upper(d[i]) == d[i] {
          assert UpperText(d)[i] == d[i];
        }
      }
      if p != "" {
        assert d[0] == p[0] && d[1] == p[1];
      }
      ByteHexOfDigits(p);
      HexValuePair(p, a, b);
      assert HexValue(p) == 0 ==> p == "";
      ByteHexStep(p, a, b, HexValue(p), HexValue(d));
    }
  }

  lemma KeyUnsigned(d: string)
    requires AllHex(d)
    ensures AllHex(Key(d)) && (Key(d) != "" ==> Key(d)[0] != '-')
  {
  }

  lemma DbSerialKey(n: int)
    ensures n >= 0 ==> Key(DbSerial(n)) == HexDigits(n)
    ensures n < 0 ==> Key(DbSerial(n)) == "-" + ByteHex(-n)
  {
    if n == 0 {
      assert "00"[1..] == "0" && "0"[1..] == "";
    } else if n > 0 {
      ByteHexUpper(n);
      ByteHexValue(n);
      KeyOfDigits(ByteHex(n));
    }
  }

  lemma MinusInjective(a: string, b: string)
    ensures "-" + a == "-" + b <==> a == b
  {
    assert ("-" + a)[1..] == a && ("-" + b)[1..] == b;
  }

  lemma PrintedIff(d: string, v: nat)
    requires AllHex(d) && |d| % 2 == 0 && |d| >= 2 && v == HexValue(d)
    ensures d == ByteHex(v) <==> UpperText(d) == d && !ZeroPair(d)
  {
    if UpperText(d) == d && !ZeroPair(d) {
      ByteHexOfDigits(d);
    } else {
      ByteHexUpper(v);
      ByteHexNoZeroByte(v);
    }
  }

  lemma NegativeFoundIff(d: string, n: int)
    requires AllHex(d) && |d| % 2 == 0 && |d| >= 2 && n == -(HexValue(d) as int)
    ensures "-" + d == Key(DbSerial(n)) <==> UpperText(d) == d && !ZeroPair(d)
  {
    var k := Key(DbSerial(n));
    assert if n == 0 then k == "" else k == "-" + ByteHex(-n) by {
      DbSerialKey(n);
    }
    PrintedIff(d, -n);
    MinusInjective(d, ByteHex(-n));
  }

  /** Over all serial texts that pass the load check: a lookup by the number finds the
      text, that is both have the same key, exactly when the text is canonical. */
  lemma FoundByNumberIff(s: string)
    requires Loadable(s)
    ensures Key(s) == Key(DbSerial(Value(s))) <==> Canonical(s)
  {
    var d := Magnitude(s);
    if s[0] == '-' {
      assert s == "-" + d;
      NegativeFoundIff(d, Value(s));
      CanonicalMinus(d);
    } else {
      PositiveFoundIff(d, Value(s));
    }
  }

  lemma CanonicalMinus(d: string)
    ensures Canonical("-" + d) <==> UpperText(d) == d && !ZeroPair(d)
  {
    var s := "-" + d;
    assert UpperText(s) == "-" + UpperText(d);
    assert UpperText(s)[1..] == UpperText(d) && s[1..] == d;
  }

  lemma PositiveFoundIff(d: string, n: nat)
    requires AllHex(d) && n == HexValue(d)
    ensures Key(d) == Key(DbSerial(n)) <==> UpperText(d) == d
  {
    DbSerialKey(n);
    KeyOfDigits(d);
    KeyUpperIff(d);
  }

  /** Dropping leading zeros commutes with upper-casing, and loses no lower-case letter. */
  lemma {:induction false} KeyUpperIff(d: string)
    ensures Key(d) == Key(UpperText(d)) <==> UpperText(d) == d
  {
    if d != "" && d[0] == '0' {
      KeyUpperIff(d[1..]);
      assert UpperText(d) == ['0'] + UpperText(d[1..]);
      assert UpperText(d)[1..] == UpperText(d[1..]);
    } else if d != "" {
      assert UpperText(d)[0] == Upper(d[0]) != '0';
    }
  }

  /** Number lookups never confuse two numbers. */
  lemma DbSerialKeyInjective(m: int, n: int)
    requires Key(DbSerial(m)) == Key(DbSerial(n))
    ensures m == n
  {
    DbSerialKey(m);
    DbSerialKey(n);
    DbSerialRoundTrip(m);
    DbSerialRoundTrip(n);
    if m >= 0 && n >= 0 {
      HexDigitsInjective(m, n);
    } else if m < 0 && n < 0 {
      assert ByteHex(-m) == ("-" + ByteHex(-m))[1..] == ("-" + ByteHex(-n))[1..] == ByteHex(-n);
      ByteHexValue(-m);
      ByteHexValue(-n);
    } else {
      HexDigitsUnsigned(if m < 0 then n else m);
    }
  }

  lemma {:induction false} HexDigitsUnsigned(n: nat)
    ensures AllHex(HexDigits(n))
  {
    if n != 0 { HexDigitsUnsigned(n / 16); }
  }

  lemma {:induction false} HexDigitsInjective(m: nat, n: nat)
    requires HexDigits(m) == HexDigits(n)
    ensures m == n
    decreases m
  {
    HexDigitsNonzero(m);
    HexDigitsNonzero(n);
    if m != 0 {
      var s, t := HexDigits(m), HexDigits(n);
      assert s[..|s| - 1] == HexDigits(m / 16) && t[..|t| - 1] == HexDigits(n / 16);
      HexDigitsInjective(m / 16, n / 16);
      assert s[|s| - 1] == Digit(m % 16) && t[|t| - 1] == Digit(n % 16);
    }
  }

  /** Everything the program writes is canonical. */
  lemma DbSerialCanonical(n: int)
    ensures Canonical(DbSerial(n))
  {
    DbSerialRoundTrip(n);
    FoundByNumberIff(DbSerial(n));
  }

  /** Two loadable texts with the same key stand for the same number. */
  lemma SameKeySameValue(s: string, t: string)
    requires Loadable(s) && Loadable(t) && Key(s) == Key(t)
    ensures Value(s) == Value(t)
  {
    KeyValue(Magnitude(s));
    KeyValue(Magnitude(t));
    KeyUnsigned(Magnitude(s));
    KeyUnsigned(Magnitude(t));
  }

  lemma {:induction false} KeyValue(d: string)
    requires AllHex(d)
    ensures AllHex(Key(d)) && HexValue(Key(d)) == HexValue(d)
  {
    KeyUnsigned(d);
    if d != "" && d[0] == '0' {
      KeyValue(d[1..]);
      HexValueZero(d[1..]);
      assert d == "0" + d[1..];
    }
  }

  lemma {:induction false} HexValueZero(d: string)
    requires AllHex(d)
    ensures AllHex("0" + d) && HexValue("0" + d) == HexValue(d)
  {
    var t := "0" + d;
    if d == "" {
      assert t == "0" && t[..0] == "";
    } else {
      assert t[..|t| - 1] == "0" + d[..|d| - 1];
      HexValueZero(d[..|d| - 1]);
    }
  }

  /** The text `ca -status` looks up: padded to an even length, then upper-cased. */
  function StatusText(q: string): string {
    UpperText(if |q| % 2 == 1 then "0" + q else q)
  }

  /** How a number may be spelled: hexadecimal digits, or some after a minus sign. */
  predicate Spelling(q: string) {
    if q != "" && q[0] == '-' then |q| > 1 && AllHex(q[1..]) else AllHex(q)
  }

  function SpelledNumber(q: string): int
    requires Spelling(q)
  {
    if q != "" && q[0] == '-' then -(HexValue(q[1..]) as int) else HexValue(q)
  }

  /** The spellings that `ca -status` can find: all without a sign, and after a minus sign an even
      number of digits that do not start with a zero byte. */
  predicate StatusFinds(q: string) {
    q != "" && q[0] == '-' ==> |q[1..]| % 2 == 0 && !ZeroPair(q[1..])
  }

  lemma UnsignedStatusKey(q: string)
    requires AllHex(q)
    ensures Key(StatusText(q)) == Key(DbSerial(HexValue(q)))
  {
    KeyOfDigits(q);
    DbSerialKey(HexValue(q));
    if |q| % 2 == 1 {
      assert UpperText("0" + q)[1..] == UpperText(q);
    }
  }

  lemma UpperCons(c: char, t: string)
    ensures UpperText([c] + t) == [Upper(c)] + UpperText(t)
  {
  }

  lemma KeyCons(c: char, t: string)
    ensures Key([c] + t) == if c == '0' then Key(t) else [c] + t
  {
    assert ([c] + t)[1..] == t;
  }

  /** The padding counts the minus sign: an even number of digits gets a '0' in front of the sign,
      which the key drops again, and an odd number of digits stays odd. */
  lemma SignedStatusKey(d: string)
    requires AllHex(d) && d != ""
    ensures Key(StatusText("-" + d)) == "-" + UpperText(d)
  {
    UpperCons('-', d);
    UpperCons('0', "-" + d);
    KeyCons('-', UpperText(d));
    KeyCons('0', "-" + UpperText(d));
  }

  lemma UpperDigits(d: string)
    requires AllHex(d)
    ensures AllHex(UpperText(d)) && HexValue(UpperText(d)) == HexValue(d) && UpperText(UpperText(d)) == UpperText(d)
    ensures ZeroPair(UpperText(d)) <==> ZeroPair(d)
  {
    forall i | 0 <= i < |d| ensures IsHexDigit(Upper(d[i])) && Upper(Upper(d[i])) == Upper(d[i]) && (Upper(d[i]) == '0' <==> d[i] == '0') {
      UpperDigit(d[i]);
    }
    UpperValue(d);
  }

  lemma {:induction false} UpperValue(d: string)
    requires AllHex(d) && AllHex(UpperText(d))
    ensures HexValue(UpperText(d)) == HexValue(d)
  {
    if d != "" {
      var init, u := d[..|d| - 1], UpperText(d);
      assert u[..|u| - 1] == UpperText(init);
      UpperDigit(d[|d| - 1]);
      UpperValue(init);
    }
  }

  /** A printed negative number has an even number of digits. */
  lemma OddDigitsMissed(u: string, n: int)
    requires |u| % 2 == 1 && n <= 0
    ensures Key(DbSerial(n)) != "-" + u
  {
    DbSerialKey(n);
    if n < 0 { MinusInjective(u, ByteHex(-n)); }
  }

  lemma SignedKeyIff(d: string, u: string, n: int)
    requires AllHex(d) && d != "" && u == UpperText(d) && n == -(HexValue(d) as int)
    ensures "-" + u == Key(DbSerial(n)) <==> |d| % 2 == 0 && !ZeroPair(d)
  {
    UpperDigits(d);
    if |d| % 2 == 0 {
      NegativeFoundIff(u, n);
    } else {
      OddDigitsMissed(u, n);
    }
  }

  lemma SignedStatusKeyIff(d: string, n: int)
    requires AllHex(d) && d != "" && n == -(HexValue(d) as int)
    ensures Key(StatusText("-" + d)) == Key(DbSerial(n)) <==> |d| % 2 == 0 && !ZeroPair(d)
  {
    SignedStatusKey(d);
    SignedKeyIff(d, UpperText(d), n);
  }

  lemma SignedSpelling(q: string)
    requires Spelling(q) && q != "" && q[0] == '-'
    ensures q == "-" + q[1..] && q[1..] != "" && AllHex(q[1..])
  {
  }

  /** For every spelling of a number, of either sign, case and parity: `ca -status` looks up the
      key of that number exactly when there is no minus sign, or it is followed by an even number
      of digits that do not start with a zero byte. */
  lemma StatusTextKeyIff(q: string)
    requires Spelling(q)
    ensures Key(StatusText(q)) == Key(DbSerial(SpelledNumber(q))) <==> StatusFinds(q)
  {
    if q != "" && q[0] == '-' {
      SignedSpelling(q);
      SignedStatusKeyIff(q[1..], SpelledNumber(q));
    } else {
      UnsignedStatusKey(q);
    }
  }

  lemma MissedKey(u: string, s: string)
    requires Loadable(s) && Canonical(s) && (|u| % 2 == 1 || ZeroPair(u))
    ensures Key(s) != "-" + u
  {
    if s[0] == '-' {
      KeyCons('-', s[1..]);
      assert s == "-" + s[1..];
      MinusInjective(s[1..], u);
    } else {
      KeyUnsigned(s);
    }
  }

  /** A spelling that is not found selects no canonical serial at all. */
  lemma MissedSpelling(q: string, s: string)
    requires Spelling(q) && !StatusFinds(q) && Loadable(s) && Canonical(s)
    ensures Key(s) != Key(StatusText(q))
  {
    SignedSpelling(q);
    SignedStatusKey(q[1..]);
    UpperDigits(q[1..]);
    MissedKey(UpperText(q[1..]), s);
  }

  /** A negative serial spelled with an odd number of digits is missed. */
  lemma OddNegativeIsMissed()
    ensures Loadable("-0ABC") && Canonical("-0ABC") && Spelling("-ABC") && SpelledNumber("-ABC") == Value("-0ABC")
    ensures Key(StatusText("-ABC")) != Key("-0ABC")
  {
    assert "-0ABC"[1..] == "0" + "ABC" && "-ABC"[1..] == "ABC";
    HexValueZero("ABC");
    assert UpperText("-0ABC") == "-0ABC";
    MissedSpelling("-ABC", "-0ABC");
  }

  /** A lower-case serial passes the load check and is missed by every number lookup. */
  lemma LowerCaseSerialIsMissed()
    ensures Loadable("ab") && Value("ab") == 171 && Key("ab") != Key(DbSerial(171))
  {
    assert "ab"[..1] == "a" && "a"[..0] == "";
    assert HexValue("a") == 10 && HexValue("ab") == 171;
    assert UpperText("ab")[0] == 'A';
    FoundByNumberIff("ab");
  }

  /** How some numbers are written. */
  lemma WrittenSerials()
    ensures DbSerial(0) == "00" && DbSerial(171) == "AB" && DbSerial(-1) == "-01" && DbSerial(256) == "0100"
  {
    assert ByteHex(0) == "" && "" + "AB" == "AB";
    assert ByteHex(171) == ByteHex(0) + "AB";
    assert ByteHex(1) == ByteHex(0) + "01" && "" + "01" == "01";
    assert ByteHex(256) == ByteHex(1) + "00" && "01" + "00" == "0100";
    assert "-" + "01" == "-01";
  }
}
