/** `md5crypt`: the MD5 password schemes of `openssl passwd -1`, `-apr1` and `-aixmd5`. */
module Md5Crypt {
  import opened CText
  import opened Crypt64
  import opened ShaCrypt
  import opened ShaSettings

  const MD5_OUT_BUF_SIZE := 6 + 9 + 24 + 2
  const MD5_ROUNDS := 1000

  // ---------- The digest ----------

  /** The marked magic, absent for the AIX variant. */
  function MagicText(magic: string): string {
    if magic == "" then "" else "$" + magic + "$"
  }

  /** The byte fed for a 0-bit of the password length: the first password byte. */
  function FirstByte(pw: Bytes): Bytes {
    if pw == [] then [] else [pw[0]]
  }

  ghost function Md5Start(md: Md, pw: Bytes, magic: Bytes, salt: Bytes): Bytes
    requires md.Valid()
  {
    md.hash(pw + magic + salt + Cyclic(DigestB(md, pw, salt), |pw|) + BitFeed(|pw|, [0], FirstByte(pw)))
  }

  /** The scheme: a first digest, then a thousand rounds over password and salt. */
  ghost function Md5Digest(md: Md, pw: Bytes, magic: Bytes, salt: Bytes): (d: Bytes)
    requires md.Valid()
    ensures |d| == md.size
  {
    Rounds(md, Md5Start(md, pw, magic, salt), pw, salt, MD5_ROUNDS)
  }

  method ComputeStart(md: Md, pw: Bytes, magic: Bytes, salt: Bytes) returns (buf: Bytes)
    requires md.Valid()
    ensures buf == Md5Start(md, pw, magic, salt)
  {
    var ctx := new MdCtx();
    ctx.Update(pw);
    ctx.Update(magic);
    ctx.Update(salt);
    var ctx2 := new MdCtx();
    ctx2.Update(pw);
    ctx2.Update(salt);
    ctx2.Update(pw);
    assert ctx2.fed == pw + salt + pw;
    var b := ctx2.Final(md);
    FeedCyclic(ctx, b, |pw|);
    FeedBits(ctx, |pw|, [0], FirstByte(pw));
    assert ctx.fed == pw + magic + salt + Cyclic(b, |pw|) + BitFeed(|pw|, [0], FirstByte(pw));
    buf := ctx.Final(md);
  }

  // ---------- The output permutation ----------

  /** Which digest byte goes to place `dest`. */
  function Source(dest: nat): (s: nat)
    requires dest < 16
    ensures s < 16
  {
    if dest < 14 then WalkStep(dest); 6 * dest % 17 else if dest == 14 then 5 else 11
  }

  /** Where digest byte `i` goes. */
  function Destination(i: nat): (d: nat)
    requires i < 16
    ensures d < 16
  {
    if i == 5 then 14 else if i == 11 then 15 else 3 * i % 17
  }

  lemma WalkStep(dest: nat)
    requires dest < 14
    ensures 6 * dest % 17 < 16 && 6 * (dest + 1) % 17 == (6 * dest % 17 + 6) % 17
  {
    var q, r := 6 * dest / 17, 6 * dest % 17;
    assert 6 * dest == 17 * q + r && 0 <= q <= 4;
    assert 6 * (dest + 1) == 17 * q + (r + 6);
  }

  /** The walk stays inside the digest and reaches every byte of it exactly once. */
  lemma SourceIsPermutation(i: nat)
    requires i < 16
    ensures Source(i) < 16
    ensures Source(Destination(i)) == i
    ensures Destination(Source(i)) == i
  {
    TurnsCancel(i, 6, 3);
    TurnsCancel(i, 3, 6);
  }

  lemma TurnsCancel(i: nat, a: nat, b: nat)
    requires i < 16 && ((a == 6 && b == 3) || (a == 3 && b == 6))
    ensures b * (a * i % 17) % 17 == i
    ensures i != 14 ==> 6 * i % 17 != 16
  {
    var q, t := a * i / 17, a * i % 17;
    assert b * t == i + 17 * (i - b * q);
    MultipleCancels(i, i - b * q);
  }

  lemma MultipleCancels(i: nat, k: int)
    requires i < 17
    ensures (i + 17 * k) % 17 == i
  {
  }

  /** The digest in output order. */
  function PermutedBytes(d: Bytes): (perm: Bytes)
    requires |d| == 16
    ensures |perm| == 16 && forall k :: 0 <= k < 16 ==> perm[k] == d[Source(k)]
  {
    seq(16, k requires 0 <= k < 16 => d[Source(k)])
  }

  /** The loop that fills `buf_perm`. */
  method Permute(buf: Bytes) returns (perm: Bytes)
    requires |buf| == 16
    ensures perm == PermutedBytes(buf)
  {
    var p := new Byte[16](_ => 0);
    var dest, source := 0, 0;
    while dest < 14
      invariant 0 <= dest <= 14 && p.Length == 16 && source == 6 * dest % 17
      invariant forall k :: 0 <= k < dest ==> p[k] == buf[Source(k)]
    {
      WalkStep(dest);
      p[dest] := buf[source];
      dest, source := dest + 1, (source + 6) % 17;
    }
    p[14] := buf[5];
    p[15] := buf[11];
    perm := p[..];
  }

  // ---------- Printing ----------

  const MD5_GROUPS: seq<Group> := [
    Group(0, 1, 2, 4), Group(3, 4, 5, 4), Group(6, 7, 8, 4), Group(9, 10, 11, 4), Group(12, 13, 14, 4),
    Group(-1, -1, 15, 2)]

  lemma Md5Order()
    ensures |MD5_GROUPS| == 6 && MD5_GROUPS[5] == Group(-1, -1, 15, 2)
    ensures forall k :: 0 <= k < 5 ==> MD5_GROUPS[k] == Group(3 * k, 3 * k + 1, 3 * k + 2, 4)
  {
  }

  lemma Md5Covers()
    ensures AllFit(MD5_GROUPS, 16) && Covers(MD5_GROUPS, 16) && TailLength(MD5_GROUPS) == 22
  {
    Md5Order();
    forall i | 0 <= i < 16 ensures Has(MD5_GROUPS, i) {
      HasAt(MD5_GROUPS, i / 3, i);
    }
    FoursLength(MD5_GROUPS, 5);
    assert MD5_GROUPS[..|MD5_GROUPS| - 1] == MD5_GROUPS[..5];
  }

  lemma SixBits(b2: Byte, b1: Byte, b0: Byte)
    ensures var w := b2 * 65536 + b1 * 256 + b0;
      && w % 64 == b0 % 64
      && w / 64 % 64 == b1 % 16 * 4 + b0 / 64
      && w / 64 / 64 % 64 == b2 % 4 * 16 + b1 / 16
      && w / 64 / 64 / 64 % 64 == b2 / 4
  {
    Low64(b2 * 1024 + b1 * 4, b0);
    var lo := b0 / 64;
    Low64(b2 * 16, b1 * 4 + lo);
    LowFour(b1, lo);
    LowSixteen(b2, b1 / 16);
  }

  lemma Low64(x: nat, y: nat)
    ensures (64 * x + y) / 64 == x + y / 64 && (64 * x + y) % 64 == y % 64
  {
  }

  lemma LowFour(b: Byte, lo: nat)
    requires lo < 4
    ensures (b * 4 + lo) / 64 == b / 16 && (b * 4 + lo) % 64 == b % 16 * 4 + lo
  {
  }

  lemma LowSixteen(b: Byte, lo: nat)
    requires lo < 16
    ensures (b * 16 + lo) / 64 == b / 4 && (b * 16 + lo) % 64 == b % 4 * 16 + lo
  {
  }

  /** The inline printing of `md5crypt` is `b64_from_24bit`. */
  lemma InlineIsMacro(b2: Byte, b1: Byte, b0: Byte)
    ensures Digits(b2 * 65536 + b1 * 256 + b0, 4) ==
      [Cov(b0 % 64), Cov(b1 % 16 * 4 + b0 / 64), Cov(b2 % 4 * 16 + b1 / 16), Cov(b2 / 4)]
  {
    SixBits(b2, b1, b0);
    DigitsFour(b2 * 65536 + b1 * 256 + b0);
  }

  lemma DigitsFour(w: nat)
    ensures Digits(w, 4) == [Cov(w % 64), Cov(w / 64 % 64), Cov(w / 64 / 64 % 64), Cov(w / 64 / 64 / 64 % 64)]
  {
    DigitsTwo(w / 64 / 64);
    assert Digits(w / 64, 3) == [Cov(w / 64 % 64)] + Digits(w / 64 / 64, 2);
  }

  lemma DigitsTwo(w: nat)
    ensures Digits(w, 2) == [Cov(w % 64), Cov(w / 64 % 64)]
  {
    assert Digits(w / 64, 1) == [Cov(w / 64 % 64)] + Digits(w / 64 / 64, 0);
  }

  /** Four characters from three bytes, as `md5crypt` writes them out. */
  method PrintThree(out: array<char>, cp: nat, b2: Byte, b1: Byte, b0: Byte) returns (cp': nat)
    requires cp + 4 <= out.Length
    modifies out
    ensures cp' == cp + 4
    ensures out[..cp] == old(out[..cp]) && out[cp..cp'] == Digits(b2 * 65536 + b1 * 256 + b0, 4)
  {
    InlineIsMacro(b2, b1, b0);
    out[cp] := Cov(b0 % 64);
    out[cp + 1] := Cov(b1 % 16 * 4 + b0 / 64);
    out[cp + 2] := Cov(b2 % 4 * 16 + b1 / 16);
    out[cp + 3] := Cov(b2 / 4);
    cp' := cp + 4;
  }

  /** The printing loop of `md5crypt`. */
  method PrintPermuted(out: array<char>, start: nat, perm: Bytes) returns (cp: nat)
    requires |perm| == 16 && start + 22 <= out.Length && AllFit(MD5_GROUPS, 16)
    modifies out
    ensures cp == start + 22
    ensures out[..start] == old(out[..start]) && out[start..cp] == Tail(MD5_GROUPS, perm)
  {
    Md5Order();
    Md5Covers();
    cp := start;
    ghost var was := out[..];
    for k := 0 to 5
      invariant Printed(was, out[..], start, cp, MD5_GROUPS, k, perm)
    {
      cp := PrintGroup(out, start, cp, k, perm, was);
    }
    cp := PrintLast(out, start, cp, perm, was);
    PrintedAll(was, out[..], start, cp, MD5_GROUPS, perm);
  }

  /** One turn of the printing loop. */
  method PrintGroup(out: array<char>, ghost start: nat, cp: nat, k: nat, perm: Bytes, ghost was: seq<char>) returns (next: nat)
    requires |perm| == 16 && start + 22 <= out.Length && AllFit(MD5_GROUPS, 16) && k < 5
    requires Printed(was, out[..], start, cp, MD5_GROUPS, k, perm)
    modifies out
    ensures Printed(was, out[..], start, next, MD5_GROUPS, k + 1, perm)
  {
    Md5Order();
    Md5Covers();
    RoomForGroup(MD5_GROUPS, k);
    ghost var before := out[..];
    next := PrintThree(out, cp, perm[3 * k], perm[3 * k + 1], perm[3 * k + 2]);
    PrintedStep(was, before, out[..], start, cp, MD5_GROUPS, k, perm, next);
  }

  method PrintLast(out: array<char>, ghost start: nat, cp: nat, perm: Bytes, ghost was: seq<char>) returns (next: nat)
    requires |perm| == 16 && start + 22 <= out.Length && AllFit(MD5_GROUPS, 16)
    requires Printed(was, out[..], start, cp, MD5_GROUPS, 5, perm)
    modifies out
    ensures |MD5_GROUPS| == 6 && Printed(was, out[..], start, next, MD5_GROUPS, 6, perm)
  {
    Md5Order();
    Md5Covers();
    RoomForGroup(MD5_GROUPS, 5);
    ghost var before := out[..];
    next := PrintOne(out, cp, perm[15]);
    PrintedStep(was, before, out[..], start, cp, MD5_GROUPS, 5, perm, next);
  }

  /** Two characters from the last byte. */
  method PrintOne(out: array<char>, cp: nat, b: Byte) returns (cp': nat)
    requires cp + 2 <= out.Length
    modifies out
    ensures cp' == cp + 2
    ensures out[..cp] == old(out[..cp]) && out[cp..cp'] == Digits(b, 2)
  {
    DigitsTwo(b);
    out[cp] := Cov(b % 64);
    out[cp + 1] := Cov(b / 64);
    cp' := cp + 2;
  }

  /** The whole result: marked magic, salt cut to eight characters, "$" and the printed digest;
      a magic of more than four characters is refused. */
  ghost function Md5CryptText(md: Md, magic: string, pw: string, salt: string): Option<string>
    requires md.Valid() && md.size == 16 && AllFit(MD5_GROUPS, 16)
  {
    if |magic| > 4 then None
    else
      var asciiSalt := Strlcpy(salt, 9);
      var d := Md5Digest(md, BytesOf(pw), BytesOf(MagicText(magic)), BytesOf(asciiSalt));
      Some(MagicText(magic) + asciiSalt + ['$'] + Tail(MD5_GROUPS, PermutedBytes(d)))
  }

  /** `md5crypt`. */
  method Md5crypt(md5: Md, pw: string, magic: string, salt: string) returns (r: Option<string>)
    requires md5.Valid() && md5.size == 16
    ensures AllFit(MD5_GROUPS, 16)
    ensures r == Md5CryptText(md5, magic, pw, salt)
  {
    Md5Covers();
    if |magic| > 4 {
      return None;
    }
    var asciiSalt := Strlcpy(salt, 9);
    var start := ComputeStart(md5, BytesOf(pw), BytesOf(MagicText(magic)), BytesOf(asciiSalt));
    var buf := RunRounds(md5, start, BytesOf(pw), BytesOf(asciiSalt), MD5_ROUNDS);
    var perm := Permute(buf);
    var text := PrintMd5(magic, asciiSalt, perm);
    r := Some(text);
  }

  /** The output of `md5crypt`: every write stays inside its buffer. */
  method PrintMd5(magic: string, salt: string, perm: Bytes) returns (text: string)
    requires |magic| <= 4 && |salt| <= 8 && |perm| == 16 && AllFit(MD5_GROUPS, 16)
    ensures text == MagicText(magic) + salt + ['$'] + Tail(MD5_GROUPS, perm)
  {
    var out := new char[MD5_OUT_BUF_SIZE](_ => '\0');
    assert out[..0] == [];
    var len := Append(out, 0, MagicText(magic), []);
    assert [] + MagicText(magic) == MagicText(magic);
    len := Append(out, len, salt, MagicText(magic));
    text := PrintMd5Digest(out, len, perm);
  }

  method PrintMd5Digest(out: array<char>, len: nat, perm: Bytes) returns (text: string)
    requires |perm| == 16 && AllFit(MD5_GROUPS, 16) && len + 1 + 22 < out.Length
    modifies out
    ensures text == old(out[..len]) + ['$'] + Tail(MD5_GROUPS, perm)
  {
    ghost var head := out[..len];
    out[len] := '$';
    assert out[..len + 1] == head + ['$'];
    var cp := PrintPermuted(out, len + 1, perm);
    assert out[..cp] == out[..len + 1] + out[len + 1..cp];
    out[cp] := '\0';
    text := out[..cp];
  }

  /** The printed tail decodes back to the digest: digest byte `i` is read at its destination. */
  lemma Md5TailDecodes(d: Bytes, i: nat)
    requires |d| == 16 && i < 16
    ensures AllFit(MD5_GROUPS, 16) && Has(MD5_GROUPS, Destination(i))
    ensures var tail := Tail(MD5_GROUPS, PermutedBytes(d));
      && |tail| == TailLength(MD5_GROUPS) && (forall k :: 0 <= k < |tail| ==> IsCov(tail[k]))
      && ReadAt(MD5_GROUPS, tail, Destination(i)) == d[i]
  {
    Md5Covers();
    SourceIsPermutation(i);
    TailDecodes(MD5_GROUPS, PermutedBytes(d), Destination(i));
  }
}
