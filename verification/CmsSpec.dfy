/** The order-sensitive signer, key and parameter options of `cms`: what the option loop builds,
    as values, and which signer each option ends up with. */
module CmsSpec {
  import opened CText

  /** What the command does; the last operation option counts. */
  datatype Operation = Encrypt | Decrypt | Sign | Resign | OtherOperation

  datatype Opt =
    | Op(op: Operation) | Signer(arg: string) | InKey(arg: string) | KeyOpt(arg: string) | Recip(arg: string)
    | SecretKey | SecretKeyId | Password

  /** A node of the key parameter list. */
  datatype Param = Param(idx: int, args: seq<string>)

  /** `operation`, `recipfile`, and whether `secret_key`, `secret_keyid` and `pwri_pass` are settings. */
  datatype Settings = Settings(op: Option<Operation>, recip: Option<string>, secretKey: bool, secretKeyId: bool, password: bool)

  /** The settings, `signerfile`, `keyfile`, `sksigners`, `skkeys`, `encerts` and the key
      parameter list. */
  datatype OptState = OptState(settings: Settings, signer: Option<string>, key: Option<string>, signers: seq<string>,
    keys: seq<string>, certs: seq<string>, params: seq<Param>)

  const START := OptState(Settings(None, None, false, false, false), None, None, [], [], [], [])

  // ---------- The option loop ----------

  predicate Encrypts(st: OptState) { st.settings.op == Some(Encrypt) }

  /** The SMIME_SIGNERS bit. */
  predicate Signs(st: OptState) { st.settings.op == Some(Sign) || st.settings.op == Some(Resign) }

  /** The key a signer is pushed with: the open key, or the signer file itself. */
  function KeyFor(signer: string, key: Option<string>): string {
    if key.Some? then key.value else signer
  }

  /** The recipient that is open when `enc`, else the signer. */
  function OpenIndex(enc: bool, st: OptState): int {
    if enc then |st.certs| - 1
    else |st.keys| - 1 + if st.key.Some? || st.signer.Some? then 1 else 0
  }

  /** Adds a parameter to the last node, or in a new node when the index has moved. */
  function AddParam(ps: seq<Param>, idx: int, arg: string): (r: seq<Param>)
    ensures r != []
  {
    if ps == [] || ps[|ps| - 1].idx != idx then ps + [Param(idx, [arg])]
    else ps[..|ps| - 1] + [Param(idx, ps[|ps| - 1].args + [arg])]
  }

  /** One option; None where the program stops with an error. */
  function Step(st: OptState, o: Opt): Option<OptState> {
    match o
    case Signer(a) =>
      if st.signer.Some? then
        Some(st.(signers := st.signers + [st.signer.value], keys := st.keys + [KeyFor(st.signer.value, st.key)],
                 key := None, signer := Some(a)))
      else Some(st.(signer := Some(a)))
    case InKey(a) =>
      if st.key.None? then Some(st.(key := Some(a)))
      else if st.signer.None? then None
      else
        Some(st.(signers := st.signers + [st.signer.value], keys := st.keys + [st.key.value],
                 signer := None, key := Some(a)))
    case KeyOpt(a) =>
      var idx := OpenIndex(Encrypts(st), st);
      if idx < 0 then None else Some(st.(params := AddParam(st.params, idx, a)))
    case Recip(a) =>
      if Encrypts(st) then Some(st.(certs := st.certs + [a])) else Some(st.(settings := st.settings.(recip := Some(a))))
    case _ =>
      var settings := Set(st.settings, o);
      if settings.None? then None else Some(st.(settings := settings.value))
  }

  /** The options that only set a variable; a secret key or its id may not be given twice. */
  function Set(settings: Settings, o: Opt): Option<Settings> {
    match o
    case Op(p) => Some(settings.(op := Some(p)))
    case SecretKey => if settings.secretKey then None else Some(settings.(secretKey := true))
    case SecretKeyId => if settings.secretKeyId then None else Some(settings.(secretKeyId := true))
    case Password => Some(settings.(password := true))
    case _ => Some(settings)
  }

  function Run(opts: seq<Opt>): Option<OptState> {
    if opts == [] then Some(START)
    else
      var st := Run(opts[..|opts| - 1]);
      if st.None? then None else Step(st.value, opts[|opts| - 1])
  }

  /** The end of option processing for a signing operation. */
  function FinishSign(st: OptState): Option<OptState> {
    if st.key.Some? && st.signer.None? then None
    else
      var st' := if st.signer.None? then st
        else st.(signers := st.signers + [st.signer.value], keys := st.keys + [KeyFor(st.signer.value, st.key)]);
      if st'.signers == [] then None else Some(st'.(signer := None, key := None))
  }

  /** The end for an encryption: there must be a recipient of some kind, a secret key needs its id,
      and further recipient certificates come from the rest of the command line. */
  function FinishEncrypt(st: OptState, argv: seq<string>): Option<OptState> {
    if argv == [] && !st.settings.secretKey && !st.settings.password && st.certs == [] then None
    else if st.settings.secretKey && !st.settings.secretKeyId then None
    else Some(st.(certs := st.certs + argv))
  }

  /** The end of option processing; signer and key lists are for signing operations only. */
  function Finish(st: OptState, argv: seq<string>): Option<OptState> {
    if Signs(st) then FinishSign(st)
    else if st.keys != [] || st.signers != [] || st.settings.op.None? then None
    else if Encrypts(st) then FinishEncrypt(st, argv)
    else if st.settings.op == Some(Decrypt) && st.settings.recip.None? && st.key.None? && !st.settings.secretKey && !st.settings.password then None
    else Some(st)
  }

  /** A command line: its options and the arguments after them. */
  function Command(opts: seq<Opt>, argv: seq<string>): Option<OptState> {
    var st := Run(opts);
    if st.None? then None else Finish(st.value, argv)
  }

  /** The operation option that counts. */
  function LastOp(opts: seq<Opt>): Option<Operation> {
    if opts == [] then None
    else if opts[|opts| - 1].Op? then Some(opts[|opts| - 1].op)
    else LastOp(opts[..|opts| - 1])
  }

  predicate EncryptsAfter(opts: seq<Opt>) { LastOp(opts) == Some(Encrypt) }

  predicate SignsAfter(opts: seq<Opt>) { LastOp(opts) == Some(Sign) || LastOp(opts) == Some(Resign) }

  lemma {:induction false} RunLastOp(opts: seq<Opt>)
    requires Run(opts).Some?
    ensures Run(opts).value.settings.op == LastOp(opts)
  {
    if opts != [] { RunLastOp(opts[..|opts| - 1]); }
  }

  // ---------- Signers and keys ----------

  /** A signer alone, or with a key given directly after or directly before it. */
  datatype Block = Only(s: string) | SignerKey(s: string, k: string) | KeySigner(k: string, s: string)

  function BlockOpts(b: Block): seq<Opt> {
    match b
    case Only(s) => [Signer(s)]
    case SignerKey(s, k) => [Signer(s), InKey(k)]
    case KeySigner(k, s) => [InKey(k), Signer(s)]
  }

  function Flatten(bs: seq<Block>): seq<Opt> {
    if bs == [] then [] else Flatten(bs[..|bs| - 1]) + BlockOpts(bs[|bs| - 1])
  }

  function BlockKey(b: Block): string {
    if b.Only? then b.s else b.k
  }

  function SignersOf(bs: seq<Block>): (r: seq<string>)
    ensures |r| == |bs| && forall i :: 0 <= i < |bs| ==> r[i] == bs[i].s
  {
    seq(|bs|, i requires 0 <= i < |bs| => bs[i].s)
  }

  function KeysOf(bs: seq<Block>): (r: seq<string>)
    ensures |r| == |bs| && forall i :: 0 <= i < |bs| ==> r[i] == BlockKey(bs[i])
  {
    seq(|bs|, i requires 0 <= i < |bs| => BlockKey(bs[i]))
  }

  /** The signer and key options of a command line, in order. */
  function Project(opts: seq<Opt>): seq<Opt> {
    if opts == [] then []
    else
      var o := opts[|opts| - 1];
      Project(opts[..|opts| - 1]) + if o.Signer? || o.InKey? then [o] else []
  }

  /** The options of the signer that is still open: none, a signer, a key, or both in either order. */
  predicate OpenOpts(open: seq<Opt>, st: OptState) {
    match (st.signer, st.key)
    case (None, None) => open == []
    case (Some(s), None) => open == [Signer(s)]
    case (None, Some(k)) => open == [InKey(k)]
    case (Some(s), Some(k)) => open == [Signer(s), InKey(k)] || open == [InKey(k), Signer(s)]
  }

  /** Closed signers are blocks; together with the open one they are the options so far. */
  ghost predicate Parsed(st: OptState, done: seq<Opt>, bs: seq<Block>, open: seq<Opt>) {
    Flatten(bs) + open == done && OpenOpts(open, st) && st.signers == SignersOf(bs) && st.keys == KeysOf(bs) &&
    (bs != [] ==> open != [])
  }

  /** The open signer as a block. */
  function Close(open: seq<Opt>, st: OptState): Block
    requires OpenOpts(open, st) && st.signer.Some?
  {
    if st.key.None? then Only(st.signer.value)
    else if open[0].Signer? then SignerKey(st.signer.value, st.key.value)
    else KeySigner(st.key.value, st.signer.value)
  }

  /** Closing the open signer pushes it. */
  lemma CloseOpen(st: OptState, done: seq<Opt>, bs: seq<Block>, open: seq<Opt>)
    requires Parsed(st, done, bs, open) && st.signer.Some?
    ensures var b := Close(open, st);
      && Flatten(bs + [b]) == done
      && st.signers + [st.signer.value] == SignersOf(bs + [b])
      && st.keys + [KeyFor(st.signer.value, st.key)] == KeysOf(bs + [b])
  {
    var b := Close(open, st);
    assert BlockOpts(b) == open && b.s == st.signer.value && BlockKey(b) == KeyFor(st.signer.value, st.key);
    FlattenSnoc(bs, b);
  }

  lemma FlattenSnoc(bs: seq<Block>, b: Block)
    ensures Flatten(bs + [b]) == Flatten(bs) + BlockOpts(b)
    ensures SignersOf(bs + [b]) == SignersOf(bs) + [b.s] && KeysOf(bs + [b]) == KeysOf(bs) + [BlockKey(b)]
  {
    assert (bs + [b])[..|bs|] == bs;
  }

  /** The same state as far as signers and keys go. */
  predicate SamePairs(a: OptState, b: OptState) {
    a.signer == b.signer && a.key == b.key && a.signers == b.signers && a.keys == b.keys
  }

  lemma OtherKeepsPairs(st: OptState, o: Opt)
    requires Step(st, o).Some? && !o.Signer? && !o.InKey?
    ensures SamePairs(Step(st, o).value, st)
  {
  }

  lemma ParsedSigner(st: OptState, done: seq<Opt>, bs: seq<Block>, open: seq<Opt>, a: string)
    returns (bs': seq<Block>, open': seq<Opt>)
    requires Parsed(st, done, bs, open)
    ensures Parsed(Step(st, Signer(a)).value, done + [Signer(a)], bs', open')
  {
    if st.signer.Some? {
      CloseOpen(st, done, bs, open);
      bs', open' := bs + [Close(open, st)], [Signer(a)];
    } else {
      bs', open' := bs, open + [Signer(a)];
      assert Flatten(bs) + open' == done + [Signer(a)];
    }
  }

  lemma ParsedInKey(st: OptState, done: seq<Opt>, bs: seq<Block>, open: seq<Opt>, a: string)
    returns (bs': seq<Block>, open': seq<Opt>)
    requires Parsed(st, done, bs, open) && Step(st, InKey(a)).Some?
    ensures Parsed(Step(st, InKey(a)).value, done + [InKey(a)], bs', open')
  {
    if st.key.Some? {
      CloseOpen(st, done, bs, open);
      bs', open' := bs + [Close(open, st)], [InKey(a)];
    } else {
      bs', open' := bs, open + [InKey(a)];
      assert Flatten(bs) + open' == done + [InKey(a)];
    }
  }

  lemma {:induction false} RunParsed(opts: seq<Opt>) returns (bs: seq<Block>, open: seq<Opt>)
    requires Run(opts).Some?
    ensures Parsed(Run(opts).value, Project(opts), bs, open)
    decreases |opts|
  {
    if opts == [] {
      bs, open := [], [];
    } else {
      var init, o := opts[..|opts| - 1], opts[|opts| - 1];
      bs, open := RunParsed(init);
      var st := Run(init).value;
      match o {
        case Signer(a) => bs, open := ParsedSigner(st, Project(init), bs, open, a);
        case InKey(a) => bs, open := ParsedInKey(st, Project(init), bs, open, a);
        case _ =>
          OtherKeepsPairs(st, o);
          assert Project(opts) == Project(init);
      }
    }
  }

  /** Every accepted signing command line: its signer and key options fall into blocks, one per
      signer in order; the signer list is all `-signer` arguments, and the key list holds each
      `-inkey` argument once, next to the signer it was given with, and the signer's own file
      where no key was given. */
  lemma AcceptedPairs(opts: seq<Opt>, argv: seq<string>) returns (bs: seq<Block>)
    requires Command(opts, argv).Some? && SignsAfter(opts)
    ensures Flatten(bs) == Project(opts) && bs != []
    ensures Command(opts, argv).value.signers == SignersOf(bs) && Command(opts, argv).value.keys == KeysOf(bs)
  {
    RunLastOp(opts);
    var open;
    bs, open := RunParsed(opts);
    var st := Run(opts).value;
    if st.signer.Some? {
      CloseOpen(st, Project(opts), bs, open);
      bs := bs + [Close(open, st)];
    }
  }

  // ---------- Which command lines are accepted ----------

  /** What the options do to the open signer: nothing, signer, key, or both. */
  datatype Phase = Nothing | HasSigner | HasKey | HasBoth

  function PhaseOf(st: OptState): Phase {
    if st.signer.Some? then (if st.key.Some? then HasBoth else HasSigner)
    else (if st.key.Some? then HasKey else Nothing)
  }

  /** Whether the rest of the signer and key options is accepted from a phase. */
  predicate Accepted(p: Phase, rest: seq<Opt>)
    decreases |rest|
  {
    if rest == [] then p != HasKey
    else if rest[0].Signer? then Accepted(if p == HasKey then HasBoth else HasSigner, rest[1..])
    else if rest[0].InKey? then
      p != HasKey && Accepted(if p == HasSigner then HasBoth else HasKey, rest[1..])
    else Accepted(p, rest[1..])
  }

  /** More is accepted with an open signer than with a closed one, and least with an open key. */
  lemma {:induction false} AcceptedOrder(rest: seq<Opt>)
    ensures Accepted(HasKey, rest) ==> Accepted(HasBoth, rest)
    ensures Accepted(HasBoth, rest) <==> Accepted(Nothing, rest)
    ensures Accepted(Nothing, rest) ==> Accepted(HasSigner, rest)
    decreases |rest|
  {
    if rest != [] { AcceptedOrder(rest[1..]); }
  }

  lemma AcceptedBlock(b: Block, rest: seq<Opt>)
    requires Accepted(Nothing, rest)
    ensures Accepted(Nothing, BlockOpts(b) + rest)
  {
    AcceptedOrder(rest);
    var all := BlockOpts(b) + rest;
    if b.Only? {
      assert all[1..] == rest;
    } else {
      var second := [BlockOpts(b)[1]] + rest;
      assert all[1..] == second && second[1..] == rest;
    }
  }

  lemma {:induction false} BlocksAccepted(bs: seq<Block>, rest: seq<Opt>)
    requires Accepted(Nothing, rest)
    ensures Accepted(Nothing, Flatten(bs) + rest)
    decreases |bs|
  {
    if bs == [] {
      assert Flatten(bs) + rest == rest;
    } else {
      var init, b := bs[..|bs| - 1], bs[|bs| - 1];
      AcceptedBlock(b, rest);
      BlocksAccepted(init, BlockOpts(b) + rest);
      assert Flatten(bs) + rest == Flatten(init) + (BlockOpts(b) + rest);
    }
  }

  /** From any state, the options up to a point succeed when the rest is accepted. */
  lemma {:induction false} AcceptedRuns(opts: seq<Opt>)
    requires forall i :: 0 <= i < |opts| ==> opts[i].Signer? || opts[i].InKey?
    requires Accepted(Nothing, opts)
    ensures Run(opts).Some? && PhaseOf(Run(opts).value) != HasKey
  {
    assert opts[0..] == opts;
    AcceptedPrefix(opts, |opts|);
    assert opts[..|opts|] == opts && opts[|opts|..] == [];
  }

  lemma {:induction false} AcceptedPrefix(opts: seq<Opt>, n: nat)
    requires n <= |opts| && forall i :: 0 <= i < |opts| ==> opts[i].Signer? || opts[i].InKey?
    requires Accepted(Nothing, opts)
    ensures Run(opts[..n]).Some? && Accepted(PhaseOf(Run(opts[..n]).value), opts[n..])
  {
    if n == 0 {
      assert opts[0..] == opts && opts[..0] == [];
    } else {
      AcceptedPrefix(opts, n - 1);
      assert opts[..n][..n - 1] == opts[..n - 1];
      assert opts[n - 1..][0] == opts[n - 1] && opts[n - 1..][1..] == opts[n..];
    }
  }

  lemma {:induction false} BlocksOnlyPairs(bs: seq<Block>)
    ensures forall i :: 0 <= i < |Flatten(bs)| ==> Flatten(bs)[i].Signer? || Flatten(bs)[i].InKey?
    ensures |Flatten(bs)| >= |bs|
  {
    if bs != [] { BlocksOnlyPairs(bs[..|bs| - 1]); }
  }

  lemma {:induction false} ProjectPairs(opts: seq<Opt>)
    requires forall i :: 0 <= i < |opts| ==> opts[i].Signer? || opts[i].InKey?
    ensures Project(opts) == opts
  {
    if opts != [] {
      ProjectPairs(opts[..|opts| - 1]);
      assert opts[..|opts| - 1] + [opts[|opts| - 1]] == opts;
    }
  }

  /** A run over some signer or key option leaves a signer or key open. */
  lemma SomethingIsOpen(opts: seq<Opt>)
    requires Run(opts).Some? && Project(opts) != []
    ensures PhaseOf(Run(opts).value) != Nothing
  {
    var bs, open := RunParsed(opts);
    assert bs == [] ==> Flatten(bs) + open == open;
  }

  /** The other direction: whenever keys can be assigned to neighbouring signers at all, the
      option loop, which always prefers the signer already open, accepts the command line. */
  lemma AssignableIsAccepted(bs: seq<Block>)
    requires bs != []
    ensures Run(Flatten(bs)).Some? && FinishSign(Run(Flatten(bs)).value).Some?
  {
    var opts := Flatten(bs);
    BlocksOnlyPairs(bs);
    BlocksAccepted(bs, []);
    assert opts + [] == opts;
    AcceptedRuns(opts);
    ProjectPairs(opts);
    SomethingIsOpen(opts);
  }

  /** The recipients given while the operation was an encryption. */
  function EncryptRecips(opts: seq<Opt>): seq<string> {
    if opts == [] then []
    else
      var init, o := opts[..|opts| - 1], opts[|opts| - 1];
      if o.Recip? && EncryptsAfter(init) then EncryptRecips(init) + [o.arg] else EncryptRecips(init)
  }

  /** What the other options need: a parameter comes after a party of the kind then in force, and
      a secret key or its id is given once. */
  predicate InPlace(init: seq<Opt>, o: Opt) {
    match o
    case KeyOpt(_) => if EncryptsAfter(init) then EncryptRecips(init) != [] else Project(init) != []
    case SecretKey => SecretKey !in init
    case SecretKeyId => SecretKeyId !in init
    case _ => true
  }

  predicate AllInPlace(opts: seq<Opt>) {
    opts == [] || (AllInPlace(opts[..|opts| - 1]) && InPlace(opts[..|opts| - 1], opts[|opts| - 1]))
  }

  /** What the settings and the recipients say about the options so far. */
  ghost predicate Reflects(st: OptState, opts: seq<Opt>) {
    && st.settings.op == LastOp(opts) && st.certs == EncryptRecips(opts)
    && (st.settings.secretKey <==> SecretKey in opts) && (st.settings.secretKeyId <==> SecretKeyId in opts)
  }

  lemma LastOpSnoc(init: seq<Opt>, o: Opt)
    ensures LastOp(init + [o]) == if o.Op? then Some(o.op) else LastOp(init)
    ensures EncryptRecips(init + [o]) == if o.Recip? && EncryptsAfter(init) then EncryptRecips(init) + [o.arg] else EncryptRecips(init)
  {
    assert (init + [o])[..|init|] == init;
  }

  lemma StepReflects(st: OptState, init: seq<Opt>, o: Opt)
    requires Reflects(st, init) && Step(st, o).Some?
    ensures Reflects(Step(st, o).value, init + [o])
  {
    LastOpSnoc(init, o);
    assert SecretKey in init + [o] <==> SecretKey in init || o == SecretKey;
    assert SecretKeyId in init + [o] <==> SecretKeyId in init || o == SecretKeyId;
  }

  lemma {:induction false} RunReflects(opts: seq<Opt>)
    requires Run(opts).Some?
    ensures Reflects(Run(opts).value, opts)
  {
    if opts != [] {
      var init, o := opts[..|opts| - 1], opts[|opts| - 1];
      RunReflects(init);
      StepReflects(Run(init).value, init, o);
      assert opts == init + [o];
    }
  }

  lemma ProjectSnoc(init: seq<Opt>, o: Opt)
    ensures Project(init + [o]) == if o.Signer? || o.InKey? then Project(init) + [o] else Project(init)
  {
    assert (init + [o])[..|init|] == init;
  }

  lemma RunSnoc(init: seq<Opt>, o: Opt)
    ensures Run(init + [o]) == if Run(init).None? then None else Step(Run(init).value, o)
  {
    assert (init + [o])[..|init|] == init;
  }

  lemma OpenIffProject(init: seq<Opt>)
    requires Run(init).Some?
    ensures OpenIndex(false, Run(init).value) >= 0 <==> Project(init) != []
  {
    var bs, open := RunParsed(init);
    if Project(init) != [] {
      SomethingIsOpen(init);
    } else {
      BlocksOnlyPairs(bs);
    }
  }

  /** Options other than signers and keys succeed exactly in their place. */
  lemma OtherOption(init: seq<Opt>, o: Opt)
    requires Run(init).Some? && !o.Signer? && !o.InKey?
    ensures Step(Run(init).value, o).Some? <==> InPlace(init, o)
    ensures Step(Run(init).value, o).Some? ==> SamePairs(Step(Run(init).value, o).value, Run(init).value)
  {
    RunReflects(init);
    OpenIffProject(init);
    if Step(Run(init).value, o).Some? { OtherKeepsPairs(Run(init).value, o); }
  }

  /** The signer and key options decide, together with the places of the others. */
  lemma {:induction false} RunIff(opts: seq<Opt>)
    ensures Run(opts).Some? <==> AllInPlace(opts) && Run(Project(opts)).Some?
    ensures Run(opts).Some? ==> SamePairs(Run(opts).value, Run(Project(opts)).value)
    decreases |opts|
  {
    if opts != [] {
      var init, o := opts[..|opts| - 1], opts[|opts| - 1];
      assert opts == init + [o];
      RunIff(init);
      ProjectSnoc(init, o);
      RunSnoc(init, o);
      if o.Signer? || o.InKey? {
        RunSnoc(Project(init), o);
      } else if Run(init).Some? {
        OtherOption(init, o);
      }
    }
  }

  /** Which signing command lines are accepted: exactly those whose signer and key options can be
      cut into one block per signer, with the other options in their place. */
  lemma AcceptedIff(opts: seq<Opt>, argv: seq<string>)
    requires SignsAfter(opts)
    ensures Command(opts, argv).Some? <==> AllInPlace(opts) && exists bs :: bs != [] && Flatten(bs) == Project(opts)
  {
    RunIff(opts);
    if Run(opts).Some? { RunLastOp(opts); }
    if Command(opts, argv).Some? {
      var bs := AcceptedPairs(opts, argv);
    } else if AllInPlace(opts) && exists bs :: bs != [] && Flatten(bs) == Project(opts) {
      var bs :| bs != [] && Flatten(bs) == Project(opts);
      AssignableIsAccepted(bs);
    }
  }

  // ---------- The open signer keeps its place ----------

  /** Signer `s` and key `k`, where given, are at position `idx` of the lists or still open. */
  ghost predicate Placed(st: OptState, idx: int, s: Option<string>, k: Option<string>) {
    && |st.signers| == |st.keys|
    && if 0 <= idx < |st.signers| then
        (s.Some? ==> st.signers[idx] == s.value) && (k.Some? ==> st.keys[idx] == k.value)
      else
        idx == |st.signers| && (s.Some? ==> st.signer == s) && (k.Some? ==> st.key == k) && (s.Some? || k.Some?)
  }

  lemma StepPlaced(st: OptState, o: Opt, idx: int, s: Option<string>, k: Option<string>)
    requires Placed(st, idx, s, k) && Step(st, o).Some?
    ensures Placed(Step(st, o).value, idx, s, k)
  {
  }

  lemma {:induction false} RunPlaced(opts: seq<Opt>, n: nat)
    requires n <= |opts| && Run(opts).Some?
    ensures Run(opts[..n]).Some?
    ensures var st := Run(opts[..n]).value;
      PhaseOf(st) != Nothing ==> Placed(Run(opts).value, OpenIndex(false, st), st.signer, st.key)
    decreases |opts|
  {
    if n == |opts| {
      assert opts[..n] == opts;
      var bs, open := RunParsed(opts);
    } else {
      var init := opts[..|opts| - 1];
      assert init[..n] == opts[..n];
      RunPlaced(init, n);
      var st := Run(opts[..n]).value;
      if PhaseOf(st) != Nothing {
        StepPlaced(Run(init).value, opts[|opts| - 1], OpenIndex(false, st), st.signer, st.key);
      }
    }
  }

  /** The signer and key that are open at any point of an accepted signing command line are, at
      the end, the ones listed at the index then open: the index a parameter is filed under. */
  lemma OpenKeepsItsPlace(opts: seq<Opt>, argv: seq<string>, n: nat)
    requires n <= |opts| && Command(opts, argv).Some? && SignsAfter(opts)
    requires Run(opts[..n]).Some? && PhaseOf(Run(opts[..n]).value) != Nothing
    ensures var st, end := Run(opts[..n]).value, Command(opts, argv).value;
      var i := OpenIndex(false, st);
      && 0 <= i < |end.signers| == |end.keys|
      && (st.signer.Some? ==> end.signers[i] == st.signer.value)
      && (st.key.Some? ==> end.keys[i] == st.key.value)
  {
    RunLastOp(opts);
    RunPlaced(opts, n);
  }

  // ---------- Parameters ----------

  /** Who a parameter can be meant for. */
  datatype Party = SignerNo(i: int) | RecipientNo(i: int)

  function PartyOf(enc: bool, i: int): Party {
    if enc then RecipientNo(i) else SignerNo(i)
  }

  /** The party that is open under the operation in force. */
  function OpenParty(st: OptState): Party {
    PartyOf(Encrypts(st), OpenIndex(Encrypts(st), st))
  }

  /** The `-keyopt` arguments given while a party was open, in order. */
  function GivenTo(opts: seq<Opt>, p: Party): seq<string>
    requires Run(opts).Some?
  {
    if opts == [] then []
    else
      var init, o := opts[..|opts| - 1], opts[|opts| - 1];
      if o.KeyOpt? && OpenParty(Run(init).value) == p then GivenTo(init, p) + [o.arg] else GivenTo(init, p)
  }

  /** Every parameter was given under an encryption (or none was). */
  predicate AllUnder(opts: seq<Opt>, enc: bool) {
    opts == [] ||
    (AllUnder(opts[..|opts| - 1], enc) && (opts[|opts| - 1].KeyOpt? ==> EncryptsAfter(opts[..|opts| - 1]) == enc))
  }

  /** The list search of the consuming loops: the arguments of the first node with index `i`. */
  function ParamsFor(ps: seq<Param>, i: int): seq<string> {
    if ps == [] then [] else if ps[0].idx == i then ps[0].args else ParamsFor(ps[1..], i)
  }

  /** What a party is added with: signers and recipients exist only in a command of their kind. */
  function Delivered(end: OptState, p: Party): seq<string> {
    match p
    case SignerNo(i) => if Signs(end) && 0 <= i < |end.signers| then ParamsFor(end.params, i) else []
    case RecipientNo(i) => if Encrypts(end) && 0 <= i < |end.certs| then ParamsFor(end.params, i) else []
  }

  ghost predicate Increasing(ps: seq<Param>) {
    forall j, k :: 0 <= j < k < |ps| ==> ps[j].idx < ps[k].idx
  }

  /** The list is in index order and no index is above `top`. */
  ghost predicate ParamsOk(ps: seq<Param>, top: int) {
    Increasing(ps) && forall k :: 0 <= k < |ps| ==> 0 <= ps[k].idx <= top
  }

  lemma OpenIndexGrows(enc: bool, st: OptState, o: Opt)
    requires Step(st, o).Some?
    ensures OpenIndex(enc, Step(st, o).value) >= OpenIndex(enc, st)
  {
  }

  lemma AddParamOk(ps: seq<Param>, idx: int, arg: string)
    requires ParamsOk(ps, idx) && idx >= 0
    ensures ParamsOk(AddParam(ps, idx, arg), idx)
  {
    if ps != [] && ps[|ps| - 1].idx != idx {
      forall j | 0 <= j < |ps| ensures ps[j].idx < idx {
        assert j < |ps| - 1 ==> ps[j].idx < ps[|ps| - 1].idx;
      }
    }
  }

  lemma {:induction false} RunParamsOk(opts: seq<Opt>, enc: bool)
    requires Run(opts).Some? && AllUnder(opts, enc)
    ensures ParamsOk(Run(opts).value.params, OpenIndex(enc, Run(opts).value))
  {
    if opts != [] {
      var init, o := opts[..|opts| - 1], opts[|opts| - 1];
      RunParamsOk(init, enc);
      var st := Run(init).value;
      OpenIndexGrows(enc, st, o);
      if o.KeyOpt? {
        RunLastOp(init);
        AddParamOk(st.params, OpenIndex(enc, st), o.arg);
      }
    }
  }

  lemma {:induction false} ParamsForSnoc(ps: seq<Param>, p: Param, i: int)
    ensures (forall k :: 0 <= k < |ps| ==> ps[k].idx != i) ==>
      ParamsFor(ps + [p], i) == if p.idx == i then p.args else []
    ensures p.idx != i ==> ParamsFor(ps + [p], i) == ParamsFor(ps, i)
  {
    if ps == [] {
      assert ps + [p] == [p] && [p][1..] == [];
    } else {
      assert (ps + [p])[1..] == ps[1..] + [p];
      ParamsForSnoc(ps[1..], p, i);
    }
  }

  lemma {:induction false} ParamsForAbsent(ps: seq<Param>, i: int)
    requires forall k :: 0 <= k < |ps| ==> ps[k].idx != i
    ensures ParamsFor(ps, i) == []
  {
    if ps != [] { ParamsForAbsent(ps[1..], i); }
  }

  /** Adding a parameter is seen by the search for its index and by no other search. */
  lemma AddParamSeen(ps: seq<Param>, idx: int, arg: string, i: int)
    requires Increasing(ps) && forall k :: 0 <= k < |ps| ==> ps[k].idx <= idx
    ensures ParamsFor(AddParam(ps, idx, arg), i) == ParamsFor(ps, i) + if i == idx then [arg] else []
  {
    if ps == [] || ps[|ps| - 1].idx != idx {
      assert forall k :: 0 <= k < |ps| ==> ps[k].idx < idx by {
        forall k | 0 <= k < |ps| ensures ps[k].idx < idx {
          assert k < |ps| - 1 ==> ps[k].idx < ps[|ps| - 1].idx;
        }
      }
      ParamsForSnoc(ps, Param(idx, [arg]), i);
      if i == idx { ParamsForAbsent(ps, i); }
    } else {
      var init, last := ps[..|ps| - 1], ps[|ps| - 1];
      assert ps == init + [last];
      ParamsForSnoc(init, last, i);
      ParamsForSnoc(init, Param(idx, last.args + [arg]), i);
    }
  }

  /** While all parameters are given under one kind of operation, a search for index `i` finds
      exactly those given while party `i` of that kind was open. */
  lemma {:induction false} ParamsReachOpen(opts: seq<Opt>, enc: bool, i: int)
    requires Run(opts).Some? && AllUnder(opts, enc)
    ensures ParamsFor(Run(opts).value.params, i) == GivenTo(opts, PartyOf(enc, i))
    ensures GivenTo(opts, PartyOf(!enc, i)) == []
  {
    if opts != [] {
      var init, o := opts[..|opts| - 1], opts[|opts| - 1];
      ParamsReachOpen(init, enc, i);
      if o.KeyOpt? {
        RunParamsOk(init, enc);
        RunLastOp(init);
        var st := Run(init).value;
        AddParamSeen(st.params, OpenIndex(enc, st), o.arg, i);
      }
    }
  }

  /** All parameters of the list, in list order. */
  function AllArgs(ps: seq<Param>): seq<string> {
    if ps == [] then [] else AllArgs(ps[..|ps| - 1]) + ps[|ps| - 1].args
  }

  function KeyOptArgs(opts: seq<Opt>): seq<string> {
    if opts == [] then []
    else if opts[|opts| - 1].KeyOpt? then KeyOptArgs(opts[..|opts| - 1]) + [opts[|opts| - 1].arg]
    else KeyOptArgs(opts[..|opts| - 1])
  }

  lemma AddParamArgs(ps: seq<Param>, idx: int, arg: string)
    ensures AllArgs(AddParam(ps, idx, arg)) == AllArgs(ps) + [arg]
  {
    var r := AddParam(ps, idx, arg);
    if ps == [] || ps[|ps| - 1].idx != idx {
      assert r[..|ps|] == ps;
    } else {
      assert r[..|r| - 1] == ps[..|ps| - 1];
    }
  }

  lemma StepArgs(st: OptState, o: Opt)
    requires Step(st, o).Some?
    ensures AllArgs(Step(st, o).value.params) == if o.KeyOpt? then AllArgs(st.params) + [o.arg] else AllArgs(st.params)
  {
    if o.KeyOpt? { AddParamArgs(st.params, OpenIndex(Encrypts(st), st), o.arg); }
  }

  /** No `-keyopt` argument is lost, repeated or reordered. */
  lemma {:induction false} ParamsConserved(opts: seq<Opt>)
    requires Run(opts).Some?
    ensures AllArgs(Run(opts).value.params) == KeyOptArgs(opts)
  {
    if opts != [] {
      var init, o := opts[..|opts| - 1], opts[|opts| - 1];
      ParamsConserved(init);
      StepArgs(Run(init).value, o);
    }
  }

  /** Accepted signing command lines: list indices strictly increase and each names one of the
      final signers. */
  lemma SignIndicesInRange(opts: seq<Opt>, argv: seq<string>)
    requires Command(opts, argv).Some? && SignsAfter(opts) && AllUnder(opts, false)
    ensures ParamsOk(Command(opts, argv).value.params, |Command(opts, argv).value.signers| - 1)
  {
    RunLastOp(opts);
    RunParamsOk(opts, false);
    var bs, open := RunParsed(opts);
  }

  /** Accepted encryptions: each index names one of the recipients. */
  lemma EncryptIndicesInRange(opts: seq<Opt>, argv: seq<string>)
    requires Command(opts, argv).Some? && EncryptsAfter(opts) && AllUnder(opts, true)
    ensures ParamsOk(Command(opts, argv).value.params, |Command(opts, argv).value.certs| - 1)
  {
    RunLastOp(opts);
    RunParamsOk(opts, true);
  }

  // ---------- Which command lines route every parameter ----------

  /** Every party is added with exactly the parameters given while it was open. */
  ghost predicate AllReachOpen(opts: seq<Opt>, argv: seq<string>)
    requires Command(opts, argv).Some?
  {
    forall p :: Delivered(Command(opts, argv).value, p) == GivenTo(opts, p)
  }

  /** A search above the last index, or below 0, finds nothing. */
  lemma ParamsOutside(ps: seq<Param>, top: int, i: int)
    requires ParamsOk(ps, top) && !(0 <= i <= top)
    ensures ParamsFor(ps, i) == []
  {
    ParamsForAbsent(ps, i);
  }

  lemma SignersDelivered(opts: seq<Opt>, argv: seq<string>, p: Party)
    requires Command(opts, argv).Some? && SignsAfter(opts) && AllUnder(opts, false)
    ensures Delivered(Command(opts, argv).value, p) == GivenTo(opts, p)
  {
    RunLastOp(opts);
    SignIndicesInRange(opts, argv);
    ParamsReachOpen(opts, false, p.i);
    var end := Command(opts, argv).value;
    if !(0 <= p.i < |end.signers|) { ParamsOutside(end.params, |end.signers| - 1, p.i); }
  }

  lemma RecipientsDelivered(opts: seq<Opt>, argv: seq<string>, p: Party)
    requires Command(opts, argv).Some? && EncryptsAfter(opts) && AllUnder(opts, true)
    ensures Delivered(Command(opts, argv).value, p) == GivenTo(opts, p)
  {
    RunLastOp(opts);
    EncryptIndicesInRange(opts, argv);
    ParamsReachOpen(opts, true, p.i);
    var end := Command(opts, argv).value;
    if !(0 <= p.i < |end.certs|) { ParamsOutside(end.params, |end.certs| - 1, p.i); }
  }

  /** A parameter given under the other kind of operation was meant for a party of that kind. */
  lemma {:induction false} GivenUnderOther(opts: seq<Opt>, enc: bool) returns (i: int)
    requires Run(opts).Some? && !AllUnder(opts, enc)
    ensures GivenTo(opts, PartyOf(!enc, i)) != []
  {
    var init, o := opts[..|opts| - 1], opts[|opts| - 1];
    if AllUnder(init, enc) {
      RunLastOp(init);
      i := OpenIndex(!enc, Run(init).value);
    } else {
      i := GivenUnderOther(init, enc);
    }
  }

  lemma {:induction false} NothingGiven(opts: seq<Opt>, p: Party)
    requires Run(opts).Some? && KeyOptArgs(opts) == []
    ensures GivenTo(opts, p) == []
  {
    if opts != [] { NothingGiven(opts[..|opts| - 1], p); }
  }

  lemma {:induction false} SomethingGiven(opts: seq<Opt>) returns (p: Party)
    requires Run(opts).Some? && KeyOptArgs(opts) != []
    ensures GivenTo(opts, p) != []
  {
    var init, o := opts[..|opts| - 1], opts[|opts| - 1];
    if o.KeyOpt? {
      p := OpenParty(Run(init).value);
    } else {
      p := SomethingGiven(init);
    }
  }

  /** For every accepted command line: every parameter reaches the party that was open when it was
      given, and no other, if and only if all of them were given under the kind of operation
      (encryption or not) that the command ends up with. An operation that adds neither signers
      nor recipients delivers none. */
  lemma RoutingIff(opts: seq<Opt>, argv: seq<string>)
    requires Command(opts, argv).Some?
    ensures AllReachOpen(opts, argv) <==>
      if SignsAfter(opts) then AllUnder(opts, false)
      else if EncryptsAfter(opts) then AllUnder(opts, true)
      else KeyOptArgs(opts) == []
  {
    RunLastOp(opts);
    var end := Command(opts, argv).value;
    if SignsAfter(opts) {
      if AllUnder(opts, false) {
        forall p ensures Delivered(end, p) == GivenTo(opts, p) { SignersDelivered(opts, argv, p); }
      } else {
        var i := GivenUnderOther(opts, false);
        assert Delivered(end, RecipientNo(i)) != GivenTo(opts, RecipientNo(i));
      }
    } else if EncryptsAfter(opts) {
      if AllUnder(opts, true) {
        forall p ensures Delivered(end, p) == GivenTo(opts, p) { RecipientsDelivered(opts, argv, p); }
      } else {
        var i := GivenUnderOther(opts, true);
        assert Delivered(end, SignerNo(i)) != GivenTo(opts, SignerNo(i));
      }
    } else if KeyOptArgs(opts) == [] {
      forall p ensures Delivered(end, p) == GivenTo(opts, p) { NothingGiven(opts, p); }
    } else {
      var p := SomethingGiven(opts);
      assert Delivered(end, p) != GivenTo(opts, p);
    }
  }

  /** A parameter given for a signer before the command becomes an encryption is handed to the
      first recipient. */
  lemma LateOperationMisdirects(s: string, x: string, r: string)
    ensures var opts := [Signer(s), KeyOpt(x), Op(Encrypt), Recip(r)];
      && Command(opts, []).Some? && GivenTo(opts, SignerNo(0)) == [x]
      && Delivered(Command(opts, []).value, SignerNo(0)) == [] && Delivered(Command(opts, []).value, RecipientNo(0)) == [x]
  {
    var o1 := [Signer(s)];
    var o2 := o1 + [KeyOpt(x)];
    var o3 := o2 + [Op(Encrypt)];
    var o4 := o3 + [Recip(r)];
    assert [] + [Signer(s)] == o1 && o4 == [Signer(s), KeyOpt(x), Op(Encrypt), Recip(r)];
    var st1 := START.(signer := Some(s));
    var st2 := st1.(params := [Param(0, [x])]);
    var st3 := st2.(settings := st2.settings.(op := Some(Encrypt)));
    var st4 := st3.(certs := [r]);
    assert Run(o1) == Some(st1) by { RunSnoc([], Signer(s)); }
    assert AddParam([], 0, x) == [Param(0, [x])];
    assert Run(o2) == Some(st2) by { RunSnoc(o1, KeyOpt(x)); }
    assert Run(o3) == Some(st3) by { RunSnoc(o2, Op(Encrypt)); }
    assert Run(o4) == Some(st4) by {
      RunSnoc(o3, Recip(r));
      assert [] + [r] == [r];
    }
    assert Command(o4, []) == Some(st4) by { assert [r] + [] == [r]; }
    MeantForSigner(s, x, r);
  }

  lemma MeantForSigner(s: string, x: string, r: string)
    requires Run([Signer(s), KeyOpt(x), Op(Encrypt), Recip(r)]).Some?
    ensures GivenTo([Signer(s), KeyOpt(x), Op(Encrypt), Recip(r)], SignerNo(0)) == [x]
  {
    var o1, o2, o3 := [Signer(s)], [Signer(s), KeyOpt(x)], [Signer(s), KeyOpt(x), Op(Encrypt)];
    assert [Signer(s), KeyOpt(x), Op(Encrypt), Recip(r)][..3] == o3 && o3[..2] == o2 && o2[..1] == o1;
    assert o1[..0] == [] && GivenTo([], SignerNo(0)) == [];
    RunSnoc([], Signer(s));
    assert [] + [Signer(s)] == o1;
    assert Run(o1) == Some(START.(signer := Some(s)));
    assert GivenTo(o1, SignerNo(0)) == [] && GivenTo(o2, SignerNo(0)) == [] + [x];
  }
}
