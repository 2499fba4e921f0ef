/** Command lines of `cms` that do not sign: which are accepted, and which recipients they end up
    with. */
module CmsAccept {
  import opened CText
  import opened CmsSpec

  // ---------- Recipients ----------

  /** Every accepted encryption: the recipients are the `-recip` arguments given under it, in order,
      and after them the remaining arguments, in order. */
  lemma AcceptedRecipients(opts: seq<Opt>, argv: seq<string>)
    requires Command(opts, argv).Some? && EncryptsAfter(opts)
    ensures Command(opts, argv).value.certs == EncryptRecips(opts) + argv
  {
    RunReflects(opts);
  }

  /** The recipients named so far stay the first ones. */
  lemma {:induction false} EarlierRecips(opts: seq<Opt>, n: nat)
    requires n <= |opts|
    ensures EncryptRecips(opts[..n]) <= EncryptRecips(opts)
    decreases |opts|
  {
    if n == |opts| {
      assert opts[..n] == opts;
    } else {
      assert opts[..|opts| - 1][..n] == opts[..n];
      EarlierRecips(opts[..|opts| - 1], n);
    }
  }

  /** The recipient that is open at any point of an accepted encryption, the last one named, is at
      the end the one listed at the index then open: the index a parameter is filed under. */
  lemma OpenRecipientKeepsItsPlace(opts: seq<Opt>, argv: seq<string>, n: nat)
    requires n <= |opts| && Command(opts, argv).Some? && EncryptsAfter(opts)
    requires EncryptRecips(opts[..n]) != []
    ensures Run(opts[..n]).Some?
    ensures var named, end := EncryptRecips(opts[..n]), Command(opts, argv).value;
      var i := OpenIndex(true, Run(opts[..n]).value);
      0 <= i < |end.certs| && end.certs[i] == named[|named| - 1]
  {
    PrefixRuns(opts, n);
    RunReflects(opts[..n]);
    AcceptedRecipients(opts, argv);
    EarlierRecips(opts, n);
  }

  lemma {:induction false} PrefixRuns(opts: seq<Opt>, n: nat)
    requires n <= |opts| && Run(opts).Some?
    ensures Run(opts[..n]).Some?
    decreases |opts|
  {
    if n == |opts| {
      assert opts[..n] == opts;
    } else {
      assert opts[..|opts| - 1][..n] == opts[..n];
      PrefixRuns(opts[..|opts| - 1], n);
    }
  }

  // ---------- Acceptance ----------

  function SignerCount(opts: seq<Opt>): nat {
    if opts == [] then 0
    else SignerCount(opts[..|opts| - 1]) + if opts[|opts| - 1].Signer? then 1 else 0
  }

  function InKeyCount(opts: seq<Opt>): nat {
    if opts == [] then 0
    else InKeyCount(opts[..|opts| - 1]) + if opts[|opts| - 1].InKey? then 1 else 0
  }

  /** A recipient file was named outside an encryption. */
  predicate RecipFileGiven(opts: seq<Opt>) {
    opts != [] &&
    (RecipFileGiven(opts[..|opts| - 1]) || (opts[|opts| - 1].Recip? && !EncryptsAfter(opts[..|opts| - 1])))
  }

  /** While nothing is pushed, the open signer and key tell how many there were; once something is
      pushed, one of them was given twice. */
  ghost predicate Counted(st: OptState, opts: seq<Opt>) {
    && |st.signers| == |st.keys|
    && (st.signers == [] <==> SignerCount(opts) <= 1 && InKeyCount(opts) <= 1)
    && (st.signers == [] ==> (st.signer.Some? <==> SignerCount(opts) == 1) && (st.key.Some? <==> InKeyCount(opts) == 1))
    && (st.settings.password <==> Password in opts) && (st.settings.recip.Some? <==> RecipFileGiven(opts))
  }

  lemma CountsSnoc(init: seq<Opt>, o: Opt)
    ensures SignerCount(init + [o]) == SignerCount(init) + if o.Signer? then 1 else 0
    ensures InKeyCount(init + [o]) == InKeyCount(init) + if o.InKey? then 1 else 0
    ensures RecipFileGiven(init + [o]) <==> RecipFileGiven(init) || (o.Recip? && !EncryptsAfter(init))
    ensures Password in init + [o] <==> Password in init || o == Password
  {
    assert (init + [o])[..|init|] == init;
  }

  lemma StepCounted(st: OptState, init: seq<Opt>, o: Opt)
    requires Counted(st, init) && Reflects(st, init) && Step(st, o).Some?
    ensures Counted(Step(st, o).value, init + [o])
  {
    CountsSnoc(init, o);
  }

  lemma {:induction false} RunCounted(opts: seq<Opt>)
    requires Run(opts).Some?
    ensures Counted(Run(opts).value, opts)
  {
    if opts != [] {
      var init, o := opts[..|opts| - 1], opts[|opts| - 1];
      RunCounted(init);
      RunReflects(init);
      StepCounted(Run(init).value, init, o);
      assert opts == init + [o];
    }
  }

  lemma {:induction false} FewPairsRun(opts: seq<Opt>)
    requires AllInPlace(opts) && SignerCount(opts) <= 1 && InKeyCount(opts) <= 1
    ensures Run(opts).Some?
  {
    if opts != [] {
      var init, o := opts[..|opts| - 1], opts[|opts| - 1];
      FewPairsRun(init);
      RunCounted(init);
      if !o.Signer? && !o.InKey? { OtherOption(init, o); }
    }
  }

  /** What a command that does not sign needs beyond its options being in place. */
  predicate HasWhatItNeeds(opts: seq<Opt>, argv: seq<string>) {
    match LastOp(opts)
    case None => false
    case Some(Encrypt) =>
      (argv != [] || EncryptRecips(opts) != [] || SecretKey in opts || Password in opts) &&
      (SecretKey in opts ==> SecretKeyId in opts)
    case Some(Decrypt) => RecipFileGiven(opts) || InKeyCount(opts) == 1 || SecretKey in opts || Password in opts
    case Some(_) => true
  }

  /** Which command lines that do not sign are accepted: those with at most one signer and one key,
      every other option in its place, and what the operation needs: there must be one; an
      encryption needs a recipient of some kind, and an id with a secret key; a decryption needs a
      recipient file, a key, a secret key or a password. */
  lemma AcceptedOtherIff(opts: seq<Opt>, argv: seq<string>)
    requires !SignsAfter(opts)
    ensures Command(opts, argv).Some? <==>
      AllInPlace(opts) && SignerCount(opts) <= 1 && InKeyCount(opts) <= 1 && HasWhatItNeeds(opts, argv)
  {
    RunIff(opts);
    if AllInPlace(opts) && SignerCount(opts) <= 1 && InKeyCount(opts) <= 1 { FewPairsRun(opts); }
    if Run(opts).Some? {
      RunCounted(opts);
      RunReflects(opts);
    }
  }
}
