/** `shacrypt`: the SHA-crypt password scheme of `openssl passwd -5` and `-6`, proved against the
    scheme as its author describes it (SHA-crypt.txt, named in the source). */
module ShaCrypt {
  import opened Crypt64

  type Bytes = seq<Byte>

  /** A message digest: its size and the hash of the bytes fed so far. */
  datatype Md = Md(size: nat, hash: Bytes -> Bytes) {
    ghost predicate Valid() {
      size > 0 && forall m: Bytes :: |hash(m)| == size
    }
  }

  function BytesOf(s: string): (b: Bytes)
    ensures |b| == |s|
  {
    seq(|s|, i requires 0 <= i < |s| => s[i] as int % 256)
  }

  // ---------- The scheme ----------

  /** `n` bytes taken from `s` round and round. */
  function Cyclic(s: Bytes, n: nat): (r: Bytes)
    requires s != []
    ensures |r| == n && forall i :: 0 <= i < n ==> r[i] == s[i % |s|]
  {
    seq(n, i requires 0 <= i < n => s[i % |s|])
  }

  function Repeat(s: Bytes, n: nat): Bytes {
    if n == 0 then [] else Repeat(s, n - 1) + s
  }

  /** For each bit of `n` from the lowest to the highest 1-bit: `one` for 1, `zero` for 0. */
  function BitFeed(n: nat, one: Bytes, zero: Bytes): Bytes {
    if n == 0 then [] else (if n % 2 == 1 then one else zero) + BitFeed(n / 2, one, zero)
  }

  /** Digest B: password, salt, password. */
  function DigestB(md: Md, pw: Bytes, salt: Bytes): Bytes {
    md.hash(pw + salt + pw)
  }

  /** Digest A: password, salt, digest B for every byte of the password, and the bits of its length. */
  function DigestA(md: Md, pw: Bytes, salt: Bytes): Bytes
    requires DigestB(md, pw, salt) != []
  {
    var b := DigestB(md, pw, salt);
    md.hash(pw + salt + Cyclic(b, |pw|) + BitFeed(|pw|, b, pw))
  }

  /** The byte sequence P: the password hashed once per password byte, stretched to its length. */
  function SequenceP(md: Md, pw: Bytes): Bytes
    requires md.hash(Repeat(pw, |pw|)) != []
  {
    Cyclic(md.hash(Repeat(pw, |pw|)), |pw|)
  }

  /** The byte sequence S: the salt hashed 16 + A[0] times, stretched to its length. */
  function SequenceS(md: Md, salt: Bytes, a0: nat): Bytes
    requires md.hash(Repeat(salt, 16 + a0)) != []
  {
    Cyclic(md.hash(Repeat(salt, 16 + a0)), |salt|)
  }

  /** What round `n` hashes: P or the last digest by parity, S unless 3 divides, P unless 7
      divides, and the other of P and the last digest. */
  function RoundInput(n: nat, last: Bytes, p: Bytes, s: Bytes): Bytes {
    (if n % 2 == 1 then p else last) + (if n % 3 != 0 then s else []) +
    (if n % 7 != 0 then p else []) + (if n % 2 == 1 then last else p)
  }

  function Rounds(md: Md, a: Bytes, p: Bytes, s: Bytes, n: nat): Bytes {
    if n == 0 then a else md.hash(RoundInput(n - 1, Rounds(md, a, p, s, n - 1), p, s))
  }

  ghost function ShaDigest(md: Md, pw: Bytes, salt: Bytes, rounds: nat): (d: Bytes)
    requires md.Valid()
    ensures |d| == md.size
  {
    var a := DigestA(md, pw, salt);
    Rounds(md, a, SequenceP(md, pw), SequenceS(md, salt, a[0]), rounds)
  }

  // ---------- The update loops ----------

  /** EVP_MD_CTX. */
  class MdCtx {
    var fed: Bytes

    constructor ()
      ensures fed == []
    {
      fed := [];
    }

    method Update(d: Bytes)
      modifies this
      ensures fed == old(fed) + d
    {
      fed := fed + d;
    }

    method Final(md: Md) returns (h: Bytes)
      ensures h == md.hash(fed)
    {
      h := md.hash(fed);
    }
  }

  lemma MulAtLeast(a: int, m: nat)
    requires a >= 1
    ensures a * m >= m
  {
    if a > 1 {
      MulAtLeast(a - 1, m);
      assert a * m == (a - 1) * m + m;
    }
  }

  lemma DivModUnique(i: nat, m: nat, q: int, r: nat)
    requires 0 <= r < m && i == q * m + r
    ensures i % m == r
  {
    var q', r' := i / m, i % m;
    assert i == q' * m + r';
    assert (q - q') * m == r' - r;
    assert (q' - q) * m == r - r';
    if q > q' {
      MulAtLeast(q - q', m);
    } else if q' > q {
      MulAtLeast(q' - q, m);
    }
  }

  lemma ModShift(i: nat, m: nat)
    requires i >= m > 0
    ensures i % m == (i - m) % m
  {
    var q, r := (i - m) / m, (i - m) % m;
    assert i - m == q * m + r;
    assert i == (q + 1) * m + r;
    DivModUnique(i, m, q + 1, r);
  }

  lemma CyclicStep(s: Bytes, n: nat)
    requires s != [] && n >= |s|
    ensures Cyclic(s, n) == s + Cyclic(s, n - |s|)
  {
    var m := n - |s|;
    assert |Cyclic(s, n)| == |s + Cyclic(s, m)|;
    forall i | 0 <= i < n ensures Cyclic(s, n)[i] == (s + Cyclic(s, m))[i] {
      if i >= |s| {
        ModShift(i, |s|);
      } else {
        DivModUnique(i, |s|, 0, i);
      }
    }
  }

  lemma CyclicShort(s: Bytes, n: nat)
    requires s != [] && n <= |s|
    ensures Cyclic(s, n) == s[..n]
  {
    forall i | 0 <= i < n ensures Cyclic(s, n)[i] == s[i] {
      DivModUnique(i, |s|, 0, i);
    }
  }

  /** Whole copies of `s`, and its beginning for the rest: how the loops produce `n` bytes. */
  function Blocks(s: Bytes, n: nat): Bytes
    requires s != []
    decreases n
  {
    if n <= |s| then s[..n] else s + Blocks(s, n - |s|)
  }

  lemma {:induction false} BlocksAreCyclic(s: Bytes, n: nat)
    requires s != []
    ensures Blocks(s, n) == Cyclic(s, n)
    decreases n
  {
    if n <= |s| {
      CyclicShort(s, n);
    } else {
      BlocksAreCyclic(s, n - |s|);
      CyclicStep(s, n);
    }
  }

  lemma BlocksStep(done: Bytes, s: Bytes, n: nat)
    requires s != [] && n > |s|
    ensures done + Blocks(s, n) == done + s + Blocks(s, n - |s|)
  {
    assert done + (s + Blocks(s, n - |s|)) == done + s + Blocks(s, n - |s|);
  }

  /** Feeds a digest once per `|buf|` bytes of a length, and its beginning for the rest. */
  method FeedCyclic(ctx: MdCtx, buf: Bytes, len: nat)
    requires buf != []
    modifies ctx
    ensures ctx.fed == old(ctx.fed) + Cyclic(buf, len)
  {
    BlocksAreCyclic(buf, len);
    var n := len;
    while n > |buf|
      invariant 0 <= n <= len
      invariant ctx.fed + Blocks(buf, n) == old(ctx.fed) + Blocks(buf, len)
    {
      BlocksStep(ctx.fed, buf, n);
      ctx.Update(buf);
      n := n - |buf|;
    }
    ctx.Update(buf[..n]);
  }

  /** Feeds one text or the other for each bit of a length. */
  method FeedBits(ctx: MdCtx, len: nat, one: Bytes, zero: Bytes)
    modifies ctx
    ensures ctx.fed == old(ctx.fed) + BitFeed(len, one, zero)
  {
    var n := len;
    while n != 0
      invariant n >= 0
      invariant ctx.fed + BitFeed(n, one, zero) == old(ctx.fed) + BitFeed(len, one, zero)
    {
      BitFeedStep(ctx.fed, n, one, zero);
      ctx.Update(if n % 2 == 1 then one else zero);
      n := n / 2;
    }
    assert ctx.fed + [] == ctx.fed;
  }

  lemma BitFeedStep(done: Bytes, n: nat, one: Bytes, zero: Bytes)
    requires n > 0
    ensures var d := if n % 2 == 1 then one else zero;
      done + BitFeed(n, one, zero) == done + d + BitFeed(n / 2, one, zero)
  {
    var d := if n % 2 == 1 then one else zero;
    assert done + (d + BitFeed(n / 2, one, zero)) == done + d + BitFeed(n / 2, one, zero);
  }

  method FeedRepeated(ctx: MdCtx, d: Bytes, times: nat)
    modifies ctx
    ensures ctx.fed == old(ctx.fed) + Repeat(d, times)
  {
    var n := times;
    while n > 0
      invariant 0 <= n <= times
      invariant ctx.fed == old(ctx.fed) + Repeat(d, times - n)
    {
      assert Repeat(d, times - n + 1) == Repeat(d, times - n) + d;
      ctx.Update(d);
      n := n - 1;
    }
  }

  /** Fills a buffer of `len` bytes with copies of a digest, the last one cut short. */
  method FillCyclic(temp: Bytes, len: nat) returns (bytes: Bytes)
    requires temp != []
    ensures bytes == Cyclic(temp, len)
  {
    bytes := FillBlocks(temp, len);
    BlocksAreCyclic(temp, len);
  }

  method FillBlocks(temp: Bytes, len: nat) returns (bytes: Bytes)
    requires temp != []
    ensures bytes == Blocks(temp, len)
  {
    var p := new Byte[len](_ => 0);
    var cp, n := 0, len;
    while n > |temp|
      invariant cp + n == len && n >= 0 && p.Length == len
      invariant p[..cp] + Blocks(temp, n) == Blocks(temp, len)
    {
      BlocksStep(p[..cp], temp, n);
      CopyAt(p, cp, temp);
      cp, n := cp + |temp|, n - |temp|;
    }
    CopyAt(p, cp, temp[..n]);
    assert p[..cp + n] == p[..];
    bytes := p[..];
  }

  /** `memcpy` into a buffer. */
  method CopyAt(p: array<Byte>, at: nat, src: Bytes)
    requires at + |src| <= p.Length
    modifies p
    ensures p[..at + |src|] == old(p[..at]) + src
  {
    for i := 0 to |src|
      invariant p[..at + i] == old(p[..at]) + src[..i]
    {
      ghost var before := p[..at + i];
      p[at + i] := src[i];
      assert p[..at + i + 1] == before + [src[i]];
      assert src[..i + 1] == src[..i] + [src[i]];
    }
    assert src[..|src|] == src;
  }

  /** The rounds loop. */
  method RunRounds(md: Md, a: Bytes, p: Bytes, s: Bytes, rounds: nat) returns (buf: Bytes)
    ensures buf == Rounds(md, a, p, s, rounds)
  {
    buf := a;
    for n := 0 to rounds
      invariant buf == Rounds(md, a, p, s, n)
    {
      buf := OneRound(md, n, buf, p, s);
    }
  }

  /** The body of the rounds loop. */
  method OneRound(md: Md, n: nat, last: Bytes, p: Bytes, s: Bytes) returns (buf: Bytes)
    ensures buf == md.hash(RoundInput(n, last, p, s))
  {
    var md2 := new MdCtx();
    var first, second := if n % 2 == 1 then p else last, if n % 2 == 1 then last else p;
    md2.Update(first);
    assert md2.fed == first;
    if n % 3 != 0 {
      md2.Update(s);
    }
    assert md2.fed == first + (if n % 3 != 0 then s else []);
    if n % 7 != 0 {
      md2.Update(p);
    }
    assert md2.fed == first + (if n % 3 != 0 then s else []) + (if n % 7 != 0 then p else []);
    md2.Update(second);
    assert md2.fed == RoundInput(n, last, p, s);
    buf := md2.Final(md);
  }

  method FirstDigest(md: Md, pw: Bytes, salt: Bytes) returns (buf: Bytes)
    requires md.Valid()
    ensures buf == DigestA(md, pw, salt)
  {
    var ctx := new MdCtx();
    ctx.Update(pw);
    ctx.Update(salt);
    var ctx2 := new MdCtx();
    ctx2.Update(pw);
    ctx2.Update(salt);
    ctx2.Update(pw);
    assert ctx2.fed == pw + salt + pw;
    var b := ctx2.Final(md);
    FeedCyclic(ctx, b, |pw|);
    FeedBits(ctx, |pw|, b, pw);
    assert ctx.fed == pw + salt + Cyclic(b, |pw|) + BitFeed(|pw|, b, pw);
    buf := ctx.Final(md);
  }

  /** A byte sequence: `d` fed `times` times, hashed, stretched to `len`. */
  method ByteSequence(md: Md, d: Bytes, times: nat, len: nat) returns (bytes: Bytes)
    requires md.Valid()
    ensures bytes == Cyclic(md.hash(Repeat(d, times)), len)
  {
    var md2 := new MdCtx();
    FeedRepeated(md2, d, times);
    assert md2.fed == Repeat(d, times);
    var temp := md2.Final(md);
    bytes := FillCyclic(temp, len);
  }

  /** The digest part of `shacrypt`: for every password, salt and number of rounds its loops
      compute what the scheme prescribes. */
  method ComputeDigest(md: Md, pw: Bytes, salt: Bytes, rounds: nat) returns (buf: Bytes)
    requires md.Valid()
    ensures buf == ShaDigest(md, pw, salt, rounds)
  {
    var a := FirstDigest(md, pw, salt);
    var p := ByteSequence(md, pw, |pw|, |pw|);
    var s := ByteSequence(md, salt, 16 + a[0] as int, |salt|);
    buf := RunRounds(md, a, p, s, rounds);
  }
}
