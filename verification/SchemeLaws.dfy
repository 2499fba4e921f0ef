/** What the digests of the password schemes are fed and how they are printed, piece by piece and
    character by character. */
module SchemeLaws {
  import opened CText
  import opened Crypt64
  import opened ShaCrypt
  import opened ShaSettings
  import opened Md5Crypt

  // ---------- Rounds ----------

  function Times(d: nat, j: nat): nat {
    d * j
  }

  ghost predicate MultipleOf(n: nat, d: nat) {
    exists j: nat :: Times(d, j) == n
  }

  lemma MultipleIff(n: nat, d: nat)
    requires d > 0
    ensures MultipleOf(n, d) <==> n % d == 0
  {
    if n % d == 0 {
      assert Times(d, n / d) == n;
    }
    if MultipleOf(n, d) {
      var j: nat :| Times(d, j) == n;
      DivModUnique(n, d, j, 0);
    }
  }

  /** What round `n` hashes: the last digest first and the sequence P last when `n` is even, and the
      other way round when it is odd; between them S unless 3 divides `n`, and then P unless 7
      divides `n`; nothing else. */
  ghost predicate FedInRound(n: nat, last: Bytes, p: Bytes, s: Bytes, m: Bytes) {
    var first, second := if MultipleOf(n, 2) then last else p, if MultipleOf(n, 2) then p else last;
    var s3, p7 := if MultipleOf(n, 3) then 0 else |s|, if MultipleOf(n, 7) then 0 else |p|;
    && |m| == |first| + s3 + p7 + |second|
    && m[..|first|] == first
    && (!MultipleOf(n, 3) ==> m[|first|..|first| + s3] == s)
    && (!MultipleOf(n, 7) ==> m[|first| + s3..|first| + s3 + p7] == p)
    && m[|first| + s3 + p7..] == second
  }

  lemma RoundIsFed(n: nat, last: Bytes, p: Bytes, s: Bytes)
    ensures FedInRound(n, last, p, s, RoundInput(n, last, p, s))
  {
    MultipleIff(n, 2);
    MultipleIff(n, 3);
    MultipleIff(n, 7);
    var first, second := if n % 2 == 1 then p else last, if n % 2 == 1 then last else p;
    var mid, mid' := if n % 3 != 0 then s else [], if n % 7 != 0 then p else [];
    Pieces(first, mid, mid', second);
  }

  lemma Pieces(a: Bytes, b: Bytes, d: Bytes, e: Bytes)
    ensures var m := a + b + d + e;
      m[..|a|] == a && m[|a|..|a| + |b|] == b && m[|a| + |b|..|a| + |b| + |d|] == d && m[|a| + |b| + |d|..] == e
  {
  }

  /** The digests of all rounds: the first one is the start, and each comes from the one before,
      round 0 first. */
  ghost predicate RoundChain(md: Md, a: Bytes, p: Bytes, s: Bytes, ds: seq<Bytes>) {
    && ds != [] && ds[0] == a
    && forall n :: 0 <= n < |ds| - 1 ==> FromRound(md, n, ds[n], p, s, ds[n + 1])
  }

  ghost predicate FromRound(md: Md, n: nat, last: Bytes, p: Bytes, s: Bytes, next: Bytes) {
    exists m :: FedInRound(n, last, p, s, m) && md.hash(m) == next
  }

  lemma ChainAdd(md: Md, a: Bytes, p: Bytes, s: Bytes, ds: seq<Bytes>, next: Bytes)
    requires RoundChain(md, a, p, s, ds) && FromRound(md, |ds| - 1, ds[|ds| - 1], p, s, next)
    ensures RoundChain(md, a, p, s, ds + [next])
  {
    var all := ds + [next];
    forall n | 0 <= n < |all| - 1 ensures FromRound(md, n, all[n], p, s, all[n + 1]) {
      assert all[n] == ds[n];
      if n < |ds| - 1 { assert all[n + 1] == ds[n + 1]; }
    }
  }

  lemma {:induction false} RoundsAreChain(md: Md, a: Bytes, p: Bytes, s: Bytes, rounds: nat) returns (ds: seq<Bytes>)
    ensures RoundChain(md, a, p, s, ds) && |ds| == rounds + 1 && ds[rounds] == Rounds(md, a, p, s, rounds)
  {
    if rounds == 0 {
      ds := [a];
    } else {
      var before := RoundsAreChain(md, a, p, s, rounds - 1);
      var last := before[rounds - 1];
      var next := NextRound(md, rounds - 1, last, p, s);
      ChainAdd(md, a, p, s, before, next);
      ds := before + [next];
    }
  }

  lemma NextRound(md: Md, n: nat, last: Bytes, p: Bytes, s: Bytes) returns (next: Bytes)
    ensures next == md.hash(RoundInput(n, last, p, s)) && FromRound(md, n, last, p, s, next)
  {
    RoundIsFed(n, last, p, s);
    next := md.hash(RoundInput(n, last, p, s));
  }

  // ---------- Sequences ----------

  lemma {:induction false} RepeatBytes(s: Bytes, n: nat)
    requires s != []
    ensures |Repeat(s, n)| == n * |s| && forall i :: 0 <= i < |Repeat(s, n)| ==> Repeat(s, n)[i] == s[i % |s|]
  {
    if n > 0 {
      RepeatBytes(s, n - 1);
      var before := Repeat(s, n - 1);
      forall i | 0 <= i < |Repeat(s, n)| ensures Repeat(s, n)[i] == s[i % |s|] {
        if i >= |before| { DivModUnique(i, |s|, n - 1, i - |before|); }
      }
    }
  }

  /** The sequences: P is as long as the password, from a hash of the password repeated once for
      each of its bytes; S is as long as the salt, from a hash of the salt repeated 16 times and
      once more for each unit of the first byte of the first digest; both repeat the hash. */
  lemma SequencesAre(md: Md, pw: Bytes, salt: Bytes, a0: Byte)
    requires md.Valid() && pw != [] && salt != []
    ensures exists m ::
      |m| == |pw| * |pw| && (forall i :: 0 <= i < |m| ==> m[i] == pw[i % |pw|]) && Stretched(md.hash(m), |pw|, SequenceP(md, pw))
    ensures exists m ::
      |m| == (16 + a0) * |salt| && (forall i :: 0 <= i < |m| ==> m[i] == salt[i % |salt|]) &&
      Stretched(md.hash(m), |salt|, SequenceS(md, salt, a0))
  {
    RepeatBytes(pw, |pw|);
    assert Stretched(md.hash(Repeat(pw, |pw|)), |pw|, SequenceP(md, pw));
    RepeatBytes(salt, 16 + a0);
    assert Stretched(md.hash(Repeat(salt, 16 + a0)), |salt|, SequenceS(md, salt, a0));
  }

  ghost predicate Stretched(h: Bytes, n: nat, r: Bytes) {
    h != [] && |r| == n && forall i :: 0 <= i < n ==> r[i] == h[i % |h|]
  }

  // ---------- First digests ----------

  /** The number with these bits, the lowest first. */
  function ValueOf(bits: seq<bool>): nat {
    if bits == [] then 0 else (if bits[0] then 1 else 0) + 2 * ValueOf(bits[1..])
  }

  /** One piece for each bit, in order. */
  function PieceForEach(bits: seq<bool>, one: Bytes, zero: Bytes): Bytes {
    if bits == [] then [] else (if bits[0] then one else zero) + PieceForEach(bits[1..], one, zero)
  }

  /** The bits of a number, without leading zeros. */
  ghost predicate BitsOf(bits: seq<bool>, n: nat) {
    ValueOf(bits) == n && (bits != [] ==> bits[|bits| - 1])
  }

  lemma {:induction false} BitFeedIs(n: nat, one: Bytes, zero: Bytes) returns (bits: seq<bool>)
    ensures BitsOf(bits, n) && BitFeed(n, one, zero) == PieceForEach(bits, one, zero)
  {
    if n == 0 {
      bits := [];
    } else {
      var rest := BitFeedIs(n / 2, one, zero);
      bits := [n % 2 == 1] + rest;
      assert bits[1..] == rest;
    }
  }

  /** The first digest of the SHA scheme: password, salt, digest B repeated to the length of the
      password, and for each bit of that length, the lowest first, digest B for 1 and the password
      for 0. Digest B is of password, salt, password. */
  lemma FirstDigestIs(md: Md, pw: Bytes, salt: Bytes) returns (bits: seq<bool>, again: Bytes)
    requires md.Valid()
    ensures var b := md.hash(pw + salt + pw);
      && BitsOf(bits, |pw|) && Stretched(b, |pw|, again)
      && DigestA(md, pw, salt) == md.hash(pw + salt + again + PieceForEach(bits, b, pw))
  {
    var b := md.hash(pw + salt + pw);
    again := Cyclic(b, |pw|);
    bits := BitFeedIs(|pw|, b, pw);
  }

  /** The first digest of the MD5 scheme: the same with the magic after the password, a NUL for a
      1 bit and the first byte of the password for a 0 bit. */
  lemma Md5StartIs(md: Md, pw: Bytes, magic: Bytes, salt: Bytes) returns (bits: seq<bool>, again: Bytes)
    requires md.Valid() && pw != []
    ensures var b := md.hash(pw + salt + pw);
      && BitsOf(bits, |pw|) && Stretched(b, |pw|, again)
      && Md5Start(md, pw, magic, salt) == md.hash(pw + magic + salt + again + PieceForEach(bits, [0], [pw[0]]))
  {
    var b := md.hash(pw + salt + pw);
    again := Cyclic(b, |pw|);
    bits := BitFeedIs(|pw|, [0], [pw[0]]);
  }

  // ---------- Printing ----------

  /** Character `4k + j` of a printed SHA-256 digest, for the ten full groups: the alphabet at bits
      `6j` to `6j + 5` of the bytes `k`, `k + 10` and `k + 20`, turned by `k` places. */
  lemma Sha256Character(d: seq<Byte>, k: nat, j: nat)
    requires |d| == 32 && k < 10 && j < 4
    ensures AllFit(SHA256_GROUPS, 32) && 4 * k + j < |Tail(SHA256_GROUPS, d)| && Pow64(j) > 0
    ensures
      var w :=
        if k % 3 == 0 then Packed(d[k], d[k + 10], d[k + 20])
        else if k % 3 == 1 then Packed(d[k + 20], d[k], d[k + 10])
        else Packed(d[k + 10], d[k + 20], d[k]);
      Tail(SHA256_GROUPS, d)[4 * k + j] == ALPHABET[w / Pow64(j) % 64]
  {
    Sha256Covers();
    Sha256Order();
    WordIs(SHA256_GROUPS[k], d);
    CharacterIs(SHA256_GROUPS, d, k, j);
  }

  lemma Sha512Character(d: seq<Byte>, k: nat, j: nat)
    requires |d| == 64 && k < 21 && j < 4
    ensures AllFit(SHA512_GROUPS, 64) && 4 * k + j < |Tail(SHA512_GROUPS, d)| && Pow64(j) > 0
    ensures
      var w :=
        if k % 3 == 0 then Packed(d[k], d[k + 21], d[k + 42])
        else if k % 3 == 1 then Packed(d[k + 21], d[k + 42], d[k])
        else Packed(d[k + 42], d[k], d[k + 21]);
      Tail(SHA512_GROUPS, d)[4 * k + j] == ALPHABET[w / Pow64(j) % 64]
  {
    Sha512Covers();
    Sha512Order();
    TwiceMod(k);
    WordIs(SHA512_GROUPS[k], d);
    CharacterIs(SHA512_GROUPS, d, k, j);
  }

  lemma TwiceMod(k: nat)
    ensures 2 * k % 3 == if k % 3 == 0 then 0 else if k % 3 == 1 then 2 else 1
  {
  }

  lemma CharacterIs(gs: seq<Group>, d: seq<Byte>, k: nat, j: nat)
    requires AllFit(gs, |d|) && k < |gs| && (forall i :: 0 <= i <= k ==> gs[i].n == 4) && j < 4
    ensures 4 * k + j < |Tail(gs, d)| && Pow64(j) > 0
    ensures Tail(gs, d)[4 * k + j] == ALPHABET[Word(gs[k], d) / Pow64(j) % 64]
  {
    var w := Word(gs[k], d);
    GroupPrintedAt(gs, d, k);
    DigitAt(w, 4, j);
    CovIsAlphabet(w / Pow64(j) % 64);
    assert Tail(gs, d)[4 * k..4 * k + 4][j] == Tail(gs, d)[4 * k + j];
  }

  /** The line that `shacrypt` prints, for rounds that were asked for and rounds that were not. */
  lemma LineIs(md: Md, gs: seq<Group>, magic: char, pw: string, arg: string)
    requires md.Valid() && AllFit(gs, md.size) && pw != "" && ParseSalt(arg).Some? && ParseSalt(arg).value.salt != ""
    ensures var st := ParseSalt(arg).value;
      var tail := Tail(gs, ShaDigest(md, BytesOf(pw), BytesOf(st.salt), st.rounds));
      && (!st.custom ==> ShaCryptText(md, gs, magic, pw, arg) == Some("$" + [magic] + "$" + st.salt + "$" + tail))
      && (st.custom ==> ShaCryptText(md, gs, magic, pw, arg) == Some("$" + [magic] + "$rounds=" + Decimal(st.rounds) + "$" + st.salt + "$" + tail))
  {
    var st := ParseSalt(arg).value;
    assert "$" + [magic] + "$" == ['$', magic, '$'];
    assert "" + st.salt == st.salt;
    if st.custom { Joins(magic, Decimal(st.rounds), st.salt); }
  }

  lemma Joins(magic: char, rounds: string, salt: string)
    ensures ['$', magic, '$'] + ("rounds=" + rounds + "$" + salt) == "$" + [magic] + "$rounds=" + rounds + "$" + salt
  {
  }

  /** The last group of each order has fewer bytes and digits. */
  lemma LastCharacters(d: seq<Byte>)
    ensures AllFit(SHA256_GROUPS, 32) && AllFit(SHA512_GROUPS, 64)
    ensures |d| == 32 ==> |Tail(SHA256_GROUPS, d)| == 43 && Tail(SHA256_GROUPS, d)[40..] == Digits(Packed(0, d[31], d[30]), 3)
    ensures |d| == 64 ==> |Tail(SHA512_GROUPS, d)| == 86 && Tail(SHA512_GROUPS, d)[84..] == Digits(Packed(0, 0, d[63]), 2)
  {
    Sha256Covers();
    Sha256Order();
    Sha512Covers();
    Sha512Order();
    TailLengths();
    if |d| == 32 { LastGroup(SHA256_GROUPS, d, 10); }
    if |d| == 64 { LastGroup(SHA512_GROUPS, d, 21); }
  }

  lemma LastGroup(gs: seq<Group>, d: seq<Byte>, k: nat)
    requires AllFit(gs, |d|) && |gs| == k + 1 && forall i :: 0 <= i < k ==> gs[i].n == 4
    ensures |Tail(gs, d)| == TailLength(gs) == 4 * k + gs[k].n
    ensures Tail(gs, d)[4 * k..] ==
      Digits(Packed(if gs[k].i2 < 0 then 0 else d[gs[k].i2], if gs[k].i1 < 0 then 0 else d[gs[k].i1], d[gs[k].i0]), gs[k].n)
  {
    GroupPrintedAt(gs, d, k);
    WordIs(gs[k], d);
    TailHasLength(gs, d);
    FoursLength(gs, k);
    assert gs[..|gs| - 1] == gs[..k];
    assert Tail(gs, d)[4 * k..4 * k + gs[k].n] == Tail(gs, d)[4 * k..];
  }

  /** The printed MD5 digest: five groups of the bytes `k`, `k + 6` and `k + 12`, the last one with
      byte 5 instead of 16, and byte 11 alone at the end. */
  lemma Md5Characters(d: Bytes, k: nat, j: nat)
    requires |d| == 16 && k < 5 && j < 4
    ensures AllFit(MD5_GROUPS, 16) && |Tail(MD5_GROUPS, PermutedBytes(d))| == 22 && Pow64(j) > 0
    ensures Tail(MD5_GROUPS, PermutedBytes(d))[4 * k + j] ==
      ALPHABET[Packed(d[k], d[k + 6], if k < 4 then d[k + 12] else d[5]) / Pow64(j) % 64]
    ensures Tail(MD5_GROUPS, PermutedBytes(d))[20..] == Digits(Packed(0, 0, d[11]), 2)
  {
    var perm := PermutedBytes(d);
    Md5Covers();
    Md5Order();
    Md5Places(k);
    WordIs(MD5_GROUPS[k], perm);
    CharacterIs(MD5_GROUPS, perm, k, j);
    LastGroup(MD5_GROUPS, perm, 5);
  }

  lemma Md5Places(k: nat)
    requires k < 5
    ensures Source(3 * k) == k && Source(3 * k + 1) == k + 6 && Source(3 * k + 2) == (if k < 4 then k + 12 else 5) && Source(15) == 11
  {
  }

  /** The line that `md5crypt` prints: the magic between dollar signs, except for the AIX variant,
      at most eight characters of the salt, a dollar sign and the digest. */
  lemma Md5LineIs(md: Md, magic: string, pw: string, salt: string)
    requires md.Valid() && md.size == 16 && AllFit(MD5_GROUPS, 16)
    ensures var marked := if magic == "" then "" else "$" + magic + "$";
      var salt8 := if |salt| > 8 then salt[..8] else salt;
      Md5CryptText(md, magic, pw, salt) ==
        if |magic| > 4 then None
        else Some(marked + salt8 + "$" + Tail(MD5_GROUPS, PermutedBytes(Md5Digest(md, BytesOf(pw), BytesOf(marked), BytesOf(salt8)))))
  {
  }
}
