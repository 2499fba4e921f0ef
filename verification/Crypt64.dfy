/** The 6-bit printing of password digests: the `b64_from_24bit` macro, the byte orders in which
    `shacrypt` and `md5crypt` print a digest, and why the printed text determines the digest. */
module Crypt64 {

  type Byte = i: int | 0 <= i < 256

  /** `cov_2char`: "./", the digits, the capitals and the small letters. */
  function Cov(i: nat): (c: char)
    requires i < 64
    ensures IsCov(c) && CovIndex(c) == i
  {
    if i < 12 then (46 + i) as char else if i < 38 then (53 + i) as char else (59 + i) as char
  }

  predicate IsCov(c: char) {
    '.' <= c <= '9' || 'A' <= c <= 'Z' || 'a' <= c <= 'z'
  }

  function CovIndex(c: char): (i: nat)
    requires IsCov(c)
    ensures i < 64
  {
    if c <= '9' then c as int - 46 else if c <= 'Z' then c as int - 53 else c as int - 59
  }

  const DIGITS := "./0123456789"
  const CAPITALS := "ABCDEFGHIJKLMNOPQRSTUVWXYZ"
  const SMALL := "abcdefghijklmnopqrstuvwxyz"
  const ALPHABET: string := DIGITS + CAPITALS + SMALL

  /** The digits are the sixty-four characters of the table. */
  lemma CovIsAlphabet(i: nat)
    requires i < 64
    ensures |ALPHABET| == 64 && Cov(i) == ALPHABET[i]
  {
    if i < 12 {
      assert DIGITS[i] == (46 + i) as char;
    } else if i < 38 {
      assert CAPITALS[i - 12] == (53 + i) as char;
    } else {
      assert SMALL[i - 38] == (59 + i) as char;
    }
  }

  /** `n` digits of a word, least significant first. */
  function Digits(w: nat, n: nat): (s: string)
    ensures |s| == n && forall i :: 0 <= i < n ==> IsCov(s[i])
    decreases n
  {
    if n == 0 then "" else [Cov(w % 64)] + Digits(w / 64, n - 1)
  }

  /** The word that digits stand for. */
  function WordOf(s: string): nat
    requires forall i :: 0 <= i < |s| ==> IsCov(s[i])
  {
    if s == "" then 0 else CovIndex(s[0]) + 64 * WordOf(s[1..])
  }

  function Pow64(n: nat): nat {
    if n == 0 then 1 else 64 * Pow64(n - 1)
  }

  lemma {:induction false} DigitsRead(w: nat, n: nat)
    requires w < Pow64(n)
    ensures WordOf(Digits(w, n)) == w
    decreases n
  {
    if n > 0 {
      DigitsRead(w / 64, n - 1);
      assert Digits(w, n)[1..] == Digits(w / 64, n - 1);
    }
  }

  /** Digit `k` of a word is the character for bits `6k` to `6k + 5`. */
  lemma {:induction false} DigitAt(w: nat, n: nat, k: nat)
    requires k < n
    ensures Pow64(k) > 0 && Digits(w, n)[k] == Cov(w / Pow64(k) % 64)
    decreases k
  {
    if k > 0 {
      DigitAt(w / 64, n - 1, k - 1);
      DivTwice(w, Pow64(k - 1));
    }
  }

  lemma DivTwice(w: nat, p: nat)
    requires p > 0
    ensures w / 64 / p == w / (64 * p)
  {
    var q, r := w / 64, w % 64;
    var a, b := q / p, q % p;
    assert w == 64 * (p * a + b) + r;
    assert w == (64 * p) * a + (64 * b + r) && 0 <= 64 * b + r < 64 * p;
    DivUnique(w, 64 * p, a, 64 * b + r);
  }

  lemma DivUnique(w: nat, m: nat, q: nat, r: nat)
    requires m > 0 && w == m * q + r && r < m
    ensures w / m == q
  {
    var d := w / m - q;
    assert w == m * (w / m) + w % m;
    assert m * d == r - w % m;
    if d >= 1 {
      MulMonotone(m, 1, d);
    } else if d <= -1 {
      MulMonotone(m, d, -1);
    }
  }

  lemma MulMonotone(m: nat, a: int, b: int)
    requires a <= b
    ensures m * a <= m * b
  {
  }

  // ---------- Groups ----------

  /** One use of the macro: the digest positions of B2, B1 and B0 (-1 for a constant 0) and the
      number of digits. */
  datatype Group = Group(i2: int, i1: int, i0: int, n: nat)

  function At(d: seq<Byte>, i: int): Byte
    requires i < |d|
  {
    if i < 0 then 0 else d[i]
  }

  /** The group has room for its bytes. */
  predicate Fits(g: Group, size: nat) {
    -1 <= g.i2 < size && -1 <= g.i1 < size && 0 <= g.i0 < size &&
    (g.n == 4 || (g.n == 3 && g.i2 == -1) || (g.n == 2 && g.i2 == -1 && g.i1 == -1))
  }

  predicate AllFit(gs: seq<Group>, size: nat) {
    forall k :: 0 <= k < |gs| ==> Fits(gs[k], size)
  }

  function Word(g: Group, d: seq<Byte>): nat
    requires Fits(g, |d|)
  {
    At(d, g.i2) * 65536 + At(d, g.i1) * 256 + At(d, g.i0)
  }

  /** The printed tail: group after group. */
  function Tail(gs: seq<Group>, d: seq<Byte>): string
    requires AllFit(gs, |d|)
  {
    if gs == [] then "" else Tail(gs[..|gs| - 1], d) + Digits(Word(gs[|gs| - 1], d), gs[|gs| - 1].n)
  }

  function TailLength(gs: seq<Group>): nat {
    if gs == [] then 0 else TailLength(gs[..|gs| - 1]) + gs[|gs| - 1].n
  }

  lemma {:induction false} TailHasLength(gs: seq<Group>, d: seq<Byte>)
    requires AllFit(gs, |d|)
    ensures |Tail(gs, d)| == TailLength(gs)
    ensures forall i :: 0 <= i < |Tail(gs, d)| ==> IsCov(Tail(gs, d)[i])
  {
    if gs != [] { TailHasLength(gs[..|gs| - 1], d); }
  }

  // ---------- Decoding ----------

  predicate Holds(g: Group, i: nat) {
    g.i2 == i || g.i1 == i || g.i0 == i
  }

  /** Some group holds position `i`. */
  predicate Has(gs: seq<Group>, i: nat) {
    gs != [] && (Holds(gs[|gs| - 1], i) || Has(gs[..|gs| - 1], i))
  }

  lemma {:induction false} HasAt(gs: seq<Group>, k: nat, i: nat)
    requires k < |gs| && Holds(gs[k], i)
    ensures Has(gs, i)
  {
    if k < |gs| - 1 { HasAt(gs[..|gs| - 1], k, i); }
  }

  predicate Covers(gs: seq<Group>, size: nat) {
    forall i :: 0 <= i < size ==> Has(gs, i)
  }

  /** The byte at digest position `i`, read from a word. */
  function ByteOf(g: Group, w: nat, i: nat): (b: nat)
    requires Holds(g, i)
    ensures w < 16777216 ==> b < 256
  {
    if g.i0 == i then w % 256 else if g.i1 == i then w / 256 % 256 else w / 65536
  }

  /** The last group that holds position `i`, read from the printed text. */
  function ReadAt(gs: seq<Group>, text: string, i: nat): nat
    requires |text| == TailLength(gs) && forall k :: 0 <= k < |text| ==> IsCov(text[k])
    requires Has(gs, i)
  {
    var g := gs[|gs| - 1];
    var cut := |text| - g.n;
    if Holds(g, i) then ByteOf(g, WordOf(text[cut..]), i) else ReadAt(gs[..|gs| - 1], text[..cut], i)
  }

  lemma WordBounds(g: Group, d: seq<Byte>)
    requires Fits(g, |d|)
    ensures Word(g, d) < Pow64(g.n) <= 16777216
  {
    assert Pow64(0) == 1 && Pow64(1) == 64 && Pow64(2) == 4096 && Pow64(3) == 262144 && Pow64(4) == 16777216;
  }

  lemma WordBytes(b2: Byte, b1: Byte, b0: Byte)
    ensures var w := b2 * 65536 + b1 * 256 + b0;
      w % 256 == b0 && w / 256 % 256 == b1 && w / 65536 == b2
  {
  }

  lemma GroupDecodes(g: Group, d: seq<Byte>, i: nat)
    requires Fits(g, |d|) && i < |d| && Holds(g, i)
    ensures ByteOf(g, WordOf(Digits(Word(g, d), g.n)), i) == d[i]
  {
    WordBounds(g, d);
    DigitsRead(Word(g, d), g.n);
    WordBytes(At(d, g.i2), At(d, g.i1), At(d, g.i0));
  }

  lemma TailSplit(gs: seq<Group>, d: seq<Byte>)
    requires AllFit(gs, |d|) && gs != []
    ensures var text, g := Tail(gs, d), gs[|gs| - 1];
      var cut := |text| - g.n;
      cut >= 0 && text[..cut] == Tail(gs[..|gs| - 1], d) && text[cut..] == Digits(Word(g, d), g.n)
  {
  }

  /** Reading the printed text gives every digest byte back. */
  lemma {:induction false} TailDecodes(gs: seq<Group>, d: seq<Byte>, i: nat)
    requires AllFit(gs, |d|) && i < |d| && Has(gs, i)
    ensures |Tail(gs, d)| == TailLength(gs)
    ensures forall k :: 0 <= k < |Tail(gs, d)| ==> IsCov(Tail(gs, d)[k])
    ensures ReadAt(gs, Tail(gs, d), i) == d[i]
  {
    TailHasLength(gs, d);
    TailSplit(gs, d);
    if Holds(gs[|gs| - 1], i) {
      GroupDecodes(gs[|gs| - 1], d, i);
    } else {
      TailDecodes(gs[..|gs| - 1], d, i);
    }
  }

  /** Two digests that print alike are equal. */
  lemma TailInjective(gs: seq<Group>, d: seq<Byte>, e: seq<Byte>)
    requires |d| == |e| && AllFit(gs, |d|) && Covers(gs, |d|) && Tail(gs, d) == Tail(gs, e)
    ensures d == e
  {
    forall i | 0 <= i < |d| ensures d[i] == e[i] {
      TailDecodes(gs, d, i);
      TailDecodes(gs, e, i);
    }
  }

  // ---------- The byte orders ----------

  const SHA256_GROUPS: seq<Group> := [
    Group(0, 10, 20, 4), Group(21, 1, 11, 4), Group(12, 22, 2, 4), Group(3, 13, 23, 4), Group(24, 4, 14, 4),
    Group(15, 25, 5, 4), Group(6, 16, 26, 4), Group(27, 7, 17, 4), Group(18, 28, 8, 4), Group(9, 19, 29, 4),
    Group(-1, 31, 30, 3)]

  const SHA512_GROUPS: seq<Group> := [
    Group(0, 21, 42, 4), Group(22, 43, 1, 4), Group(44, 2, 23, 4), Group(3, 24, 45, 4), Group(25, 46, 4, 4),
    Group(47, 5, 26, 4), Group(6, 27, 48, 4), Group(28, 49, 7, 4), Group(50, 8, 29, 4), Group(9, 30, 51, 4),
    Group(31, 52, 10, 4), Group(53, 11, 32, 4), Group(12, 33, 54, 4), Group(34, 55, 13, 4), Group(56, 14, 35, 4),
    Group(15, 36, 57, 4), Group(37, 58, 16, 4), Group(59, 17, 38, 4), Group(18, 39, 60, 4), Group(40, 61, 19, 4),
    Group(62, 20, 41, 4), Group(-1, -1, 63, 2)]

  /** Three positions a third of the digest apart, turned by one place from group to group. */
  function Turn(k: nat, third: nat, turn: nat): Group {
    if turn % 3 == 0 then Group(k, k + third, k + 2 * third, 4)
    else if turn % 3 == 1 then Group(k + 2 * third, k, k + third, 4)
    else Group(k + third, k + 2 * third, k, 4)
  }

  lemma Sha256Order()
    ensures |SHA256_GROUPS| == 11 && SHA256_GROUPS[10] == Group(-1, 31, 30, 3)
    ensures forall k :: 0 <= k < 10 ==> SHA256_GROUPS[k] == Turn(k, 10, k)
  {
  }

  lemma Sha512Order()
    ensures |SHA512_GROUPS| == 22 && SHA512_GROUPS[21] == Group(-1, -1, 63, 2)
    ensures forall k :: 0 <= k < 21 ==> SHA512_GROUPS[k] == Turn(k, 21, 2 * k)
  {
  }

  lemma AllFitTake(gs: seq<Group>, size: nat, k: nat)
    requires AllFit(gs, size) && k <= |gs|
    ensures AllFit(gs[..k], size)
  {
  }

  lemma TakeOne(gs: seq<Group>, k: nat)
    requires k < |gs|
    ensures gs[..k + 1] == gs[..k] + [gs[k]]
  {
  }

  lemma TailSnoc(init: seq<Group>, g: Group, d: seq<Byte>)
    requires AllFit(init, |d|) && Fits(g, |d|)
    ensures AllFit(init + [g], |d|) && Tail(init + [g], d) == Tail(init, d) + Digits(Word(g, d), g.n)
  {
    assert (init + [g])[..|init|] == init;
  }

  lemma MiddleOf(a: string, b: string, t: string, n: nat)
    requires a + b <= t && |a| == n
    ensures n + |b| <= |t| && t[n..n + |b|] == b
  {
    assert t[..|a + b|] == a + b;
    assert t[n..n + |b|] == (a + b)[n..];
  }

  /** Group `k` of an order whose earlier groups have four digits is printed at `4k`: the digits of
      the word of its bytes. */
  lemma GroupPrintedAt(gs: seq<Group>, d: seq<Byte>, k: nat)
    requires AllFit(gs, |d|) && k < |gs| && forall i :: 0 <= i < k ==> gs[i].n == 4
    ensures 4 * k + gs[k].n <= |Tail(gs, d)|
    ensures Tail(gs, d)[4 * k..4 * k + gs[k].n] == Digits(Word(gs[k], d), gs[k].n)
  {
    AllFitTake(gs, |d|, k);
    FoursLength(gs, k);
    TailHasLength(gs[..k], d);
    GroupFollows(gs, d, k, gs[..k], gs[k]);
    MiddleOf(Tail(gs[..k], d), Digits(Word(gs[k], d), gs[k].n), Tail(gs, d), 4 * k);
  }

  lemma GroupFollows(gs: seq<Group>, d: seq<Byte>, k: nat, init: seq<Group>, g: Group)
    requires AllFit(gs, |d|) && k < |gs| && init == gs[..k] && g == gs[k]
    ensures AllFit(init, |d|) && Tail(init, d) + Digits(Word(g, d), g.n) <= Tail(gs, d)
  {
    TailPrefix(gs, d, k + 1);
    TakeOne(gs, k);
    AllFitTake(gs, |d|, k);
    TailSnoc(init, g, d);
  }

  /** Three bytes, the first one highest. */
  function Packed(b2: Byte, b1: Byte, b0: Byte): nat {
    b2 * 65536 + b1 * 256 + b0
  }

  /** The word of a group: its three bytes, the first one highest, with 0 where it has none. */
  lemma WordIs(g: Group, d: seq<Byte>)
    requires Fits(g, |d|)
    ensures Word(g, d) == Packed(if g.i2 < 0 then 0 else d[g.i2], if g.i1 < 0 then 0 else d[g.i1], d[g.i0])
  {
  }

  lemma {:induction false} FoursLength(gs: seq<Group>, k: nat)
    requires k <= |gs| && forall i :: 0 <= i < k ==> gs[i].n == 4
    ensures TailLength(gs[..k]) == 4 * k
  {
    if k > 0 {
      assert gs[..k][..k - 1] == gs[..k - 1];
      FoursLength(gs, k - 1);
    }
  }

  lemma {:induction false} TailPrefix(gs: seq<Group>, d: seq<Byte>, k: nat)
    requires AllFit(gs, |d|) && k <= |gs|
    ensures AllFit(gs[..k], |d|) && Tail(gs[..k], d) <= Tail(gs, d)
    decreases |gs|
  {
    if k == |gs| {
      assert gs[..k] == gs;
    } else {
      assert gs[..|gs| - 1][..k] == gs[..k];
      TailPrefix(gs[..|gs| - 1], d, k);
    }
  }

  lemma TurnHolds(k: nat, third: nat, turn: nat, i: nat)
    requires i == k || i == k + third || i == k + 2 * third
    ensures Holds(Turn(k, third, turn), i)
  {
  }

  /** The SHA-256 order uses every position of the digest and no other. */
  lemma Sha256Covers()
    ensures AllFit(SHA256_GROUPS, 32) && Covers(SHA256_GROUPS, 32)
  {
    Sha256Order();
    forall i | 0 <= i < 32 ensures Has(SHA256_GROUPS, i) {
      var k := if i < 30 then i % 10 else 10;
      if i < 30 { TurnHolds(k, 10, k, i); }
      HasAt(SHA256_GROUPS, k, i);
    }
  }

  lemma Sha512Covers()
    ensures AllFit(SHA512_GROUPS, 64) && Covers(SHA512_GROUPS, 64)
  {
    Sha512Order();
    forall i | 0 <= i < 64 ensures Has(SHA512_GROUPS, i) {
      var k := if i < 63 then i % 21 else 21;
      if i < 63 { TurnHolds(k, 21, 2 * k, i); }
      HasAt(SHA512_GROUPS, k, i);
    }
  }

  // ---------- Printing into a buffer ----------

  lemma DigitsStep(before: string, w: nat, i: nat)
    requires i > 0
    ensures before + Digits(w, i) == before + [Cov(w % 64)] + Digits(w / 64, i - 1)
  {
  }

  /** The loop of `b64_from_24bit`: the digits of a word at `cp` in an output buffer. */
  method PrintWord(out: array<char>, cp: nat, word: nat, n: nat) returns (cp': nat)
    requires cp + n <= out.Length
    modifies out
    ensures cp' == cp + n
    ensures out[..cp] == old(out[..cp]) && out[cp..cp'] == Digits(word, n)
  {
    var w := word;
    var i := n;
    cp' := cp;
    while i > 0
      invariant 0 <= i <= n && cp' == cp + (n - i)
      invariant out[..cp] == old(out[..cp])
      invariant out[cp..cp'] + Digits(w, i) == Digits(word, n)
    {
      ghost var before := out[cp..cp'];
      out[cp'] := Cov(w % 64);
      cp' := cp' + 1;
      assert out[cp..cp'] == before + [Cov(w % 64)];
      DigitsStep(before, w, i);
      w := w / 64;
      i := i - 1;
    }
    assert out[cp..cp'] + "" == out[cp..cp'];
  }

  /** `b64_from_24bit`. */
  method B64From24Bit(out: array<char>, cp: nat, b2: Byte, b1: Byte, b0: Byte, n: nat) returns (cp': nat)
    requires cp + n <= out.Length
    modifies out
    ensures cp' == cp + n
    ensures out[..cp] == old(out[..cp]) && out[cp..cp'] == Digits(b2 * 65536 + b1 * 256 + b0, n)
  {
    cp' := PrintWord(out, cp, b2 * 65536 + b1 * 256 + b0, n);
  }

  /** The macro with the digest bytes of a group. */
  method PrintBytes(out: array<char>, cp: nat, g: Group, d: seq<Byte>) returns (next: nat)
    requires Fits(g, |d|) && cp + g.n <= out.Length
    modifies out
    ensures next == cp + g.n
    ensures out[..cp] == old(out[..cp]) && out[cp..next] == Digits(Word(g, d), g.n)
  {
    next := B64From24Bit(out, cp, At(d, g.i2), At(d, g.i1), At(d, g.i0), g.n);
  }

  /** The first `k` groups have been printed between `start` and `cp`. */
  ghost predicate Printed(was: seq<char>, buf: seq<char>, start: nat, cp: nat, gs: seq<Group>, k: nat, d: seq<Byte>) {
    k <= |gs| && AllFit(gs, |d|) && start <= cp <= |buf| == |was| && cp == start + TailLength(gs[..k]) &&
    buf[..start] == was[..start] && buf[start..cp] == Tail(gs[..k], d)
  }

  lemma PrintedStep(was: seq<char>, before: seq<char>, after: seq<char>, start: nat, cp: nat, gs: seq<Group>, k: nat,
      d: seq<Byte>, cp': nat)
    requires Printed(was, before, start, cp, gs, k, d) && k < |gs| && |after| == |before|
    requires cp' == cp + gs[k].n <= |after|
    requires after[..cp] == before[..cp] && after[cp..cp'] == Digits(Word(gs[k], d), gs[k].n)
    ensures Printed(was, after, start, cp', gs, k + 1, d)
  {
    assert gs[..k + 1][..k] == gs[..k];
    assert after[..start] == after[..cp][..start] == before[..cp][..start] == before[..start];
    assert after[start..cp] == after[..cp][start..] == before[..cp][start..] == before[start..cp];
    assert after[start..cp'] == after[start..cp] + after[cp..cp'];
  }

  lemma RoomForGroup(gs: seq<Group>, k: nat)
    requires k < |gs|
    ensures TailLength(gs[..k]) + gs[k].n <= TailLength(gs)
  {
    assert gs[..k + 1][..k] == gs[..k];
    TailLengthGrows(gs, k + 1);
  }

  /** One use of the macro. */
  method PrintGroup(out: array<char>, ghost start: nat, cp: nat, gs: seq<Group>, k: nat, d: seq<Byte>, ghost was: seq<char>)
    returns (next: nat)
    requires AllFit(gs, |d|) && start + TailLength(gs) <= out.Length && k < |gs|
    requires Printed(was, out[..], start, cp, gs, k, d)
    modifies out
    ensures Printed(was, out[..], start, next, gs, k + 1, d)
  {
    RoomForGroup(gs, k);
    ghost var before := out[..];
    next := PrintBytes(out, cp, gs[k], d);
    PrintedStep(was, before, out[..], start, cp, gs, k, d, next);
  }

  /** The switch at the end of `shacrypt`: the groups of an order, one after the other. */
  method PrintTail(out: array<char>, start: nat, gs: seq<Group>, d: seq<Byte>) returns (cp: nat)
    requires AllFit(gs, |d|) && start + TailLength(gs) <= out.Length
    modifies out
    ensures cp == start + TailLength(gs)
    ensures out[..start] == old(out[..start]) && out[start..cp] == Tail(gs, d)
  {
    cp := start;
    ghost var was := out[..];
    for k := 0 to |gs|
      invariant Printed(was, out[..], start, cp, gs, k, d)
    {
      cp := PrintGroup(out, start, cp, gs, k, d, was);
    }
    PrintedAll(was, out[..], start, cp, gs, d);
  }

  lemma PrintedAll(was: seq<char>, buf: seq<char>, start: nat, cp: nat, gs: seq<Group>, d: seq<Byte>)
    requires Printed(was, buf, start, cp, gs, |gs|, d)
    ensures cp == start + TailLength(gs) && buf[..start] == was[..start] && buf[start..cp] == Tail(gs, d)
  {
    assert gs[..|gs|] == gs;
  }

  lemma {:induction false} TailLengthGrows(gs: seq<Group>, k: nat)
    requires k <= |gs|
    ensures TailLength(gs[..k]) <= TailLength(gs)
  {
    if k == |gs| {
      assert gs[..k] == gs;
    } else {
      assert gs[..|gs| - 1][..k] == gs[..k];
      TailLengthGrows(gs[..|gs| - 1], k);
    }
  }
}
