/** The option variables of `cms`, updated option by option, and the loops that consume them. */
module CmsOptions {
  import opened CText
  import opened CmsSpec

  /** `cms_key_param`: a node of the parameter list. */
  class KeyParam {
    const idx: int
    var param: seq<string>
    var next: KeyParam?

    constructor (idx: int)
      ensures this.idx == idx && param == [] && next == null
    {
      this.idx := idx;
      param := [];
      next := null;
    }
  }

  lemma {:induction false} FailureStays(opts: seq<Opt>, n: nat)
    requires n <= |opts| && Run(opts[..n]).None?
    ensures Run(opts).None?
    decreases |opts|
  {
    if n == |opts| {
      assert opts[..n] == opts;
    } else {
      assert opts[..|opts| - 1][..n] == opts[..n];
      FailureStays(opts[..|opts| - 1], n);
    }
  }

  function PushLast(ps: seq<Param>, arg: string): seq<Param>
    requires ps != []
  {
    ps[..|ps| - 1] + [Param(ps[|ps| - 1].idx, ps[|ps| - 1].args + [arg])]
  }

  /** Pushing on the last node, after appending one where the index has moved, is AddParam. */
  lemma PushedIsAdded(ps: seq<Param>, mid: seq<Param>, idx: int, arg: string)
    requires mid == if ps == [] || ps[|ps| - 1].idx != idx then ps + [Param(idx, [])] else ps
    ensures PushLast(mid, arg) == AddParam(ps, idx, arg)
  {
    if mid != ps {
      assert mid[..|mid| - 1] == ps && [] + [arg] == [arg];
    }
  }

  class CmsOptions {
    /** `operation` and the other single variables. */
    var settings: Settings
    var signerfile: Option<string>
    var keyfile: Option<string>
    var sksigners: seq<string>
    var skkeys: seq<string>
    var encerts: seq<string>
    var keyFirst: KeyParam?
    var keyParam: KeyParam?
    /** The nodes of the list, in order. */
    ghost var spine: seq<KeyParam>

    /** The spine is what following `next` from `keyFirst` visits, and `keyParam` is its last node. */
    ghost predicate Valid()
      reads this, spine
    {
      && (forall i, j :: 0 <= i < j < |spine| ==> spine[i] != spine[j])
      && (if spine == [] then keyFirst == null && keyParam == null
          else keyFirst == spine[0] && keyParam == spine[|spine| - 1] && spine[|spine| - 1].next == null)
      && (forall i :: 0 <= i < |spine| - 1 ==> spine[i].next == spine[i + 1])
    }

    ghost function Params(): (r: seq<Param>)
      reads this, spine
      ensures |r| == |spine|
      ensures forall i :: 0 <= i < |spine| ==> r[i] == Param(spine[i].idx, spine[i].param)
    {
      seq(|spine|, i requires 0 <= i < |spine| reads this, spine => Param(spine[i].idx, spine[i].param))
    }

    ghost function State(): OptState
      reads this, spine
    {
      OptState(settings, signerfile, keyfile, sksigners, skkeys, encerts, Params())
    }

    constructor ()
      ensures Valid() && State() == START && spine == []
    {
      settings := START.settings;
      signerfile, keyfile := None, None;
      sksigners, skkeys, encerts := [], [], [];
      keyFirst, keyParam := null, null;
      spine := [];
    }

    /** Pushes the open signer with its key, or with its own file for a key. */
    method PushSigner()
      requires Valid() && signerfile.Some?
      modifies this
      ensures Valid() && spine == old(spine)
      ensures var was := old(State());
        State() == was.(signers := was.signers + [was.signer.value], keys := was.keys + [KeyFor(was.signer.value, was.key)],
                        key := Some(KeyFor(was.signer.value, was.key)))
    {
      sksigners := sksigners + [signerfile.value];
      if keyfile.None? { keyfile := signerfile; }
      skkeys := skkeys + [keyfile.value];
      assert Params() == old(Params());
    }

    /** The `-signer` case. */
    method HandleSigner(arg: string)
      requires Valid()
      modifies this
      ensures Valid() && spine == old(spine)
      ensures Step(old(State()), Signer(arg)) == Some(State())
    {
      if signerfile.Some? {
        PushSigner();
        keyfile := None;
      }
      signerfile := Some(arg);
      assert Params() == old(Params());
    }

    /** The `-inkey` case. */
    method HandleInKey(arg: string) returns (ok: bool)
      requires Valid()
      modifies this
      ensures Valid() && spine == old(spine)
      ensures Step(old(State()), InKey(arg)) == if ok then Some(State()) else None
    {
      if keyfile.Some? {
        if signerfile.None? { return false; }
        sksigners := sksigners + [signerfile.value];
        signerfile := None;
        skkeys := skkeys + [keyfile.value];
      }
      keyfile := Some(arg);
      assert Params() == old(Params());
      return true;
    }

    /** The `-recip` case: a recipient of an encryption, or `recipfile`. */
    method HandleRecip(arg: string)
      requires Valid()
      modifies this`encerts, this`settings
      ensures Valid()
      ensures Step(old(State()), Recip(arg)) == Some(State())
    {
      if settings.op == Some(Encrypt) {
        encerts := encerts + [arg];
      } else {
        settings := settings.(recip := Some(arg));
      }
      assert Params() == old(Params());
    }

    /** The operation options, `-secretkey`, `-secretkeyid` and `-pwri_password`. */
    method HandleSetting(o: Opt) returns (ok: bool)
      requires Valid() && (o.Op? || o.SecretKey? || o.SecretKeyId? || o.Password?)
      modifies this`settings
      ensures Valid()
      ensures Step(old(State()), o) == if ok then Some(State()) else None
    {
      match o {
        case Op(p) => settings := settings.(op := Some(p));
        case SecretKey =>
          if settings.secretKey { return false; }
          settings := settings.(secretKey := true);
        case SecretKeyId =>
          if settings.secretKeyId { return false; }
          settings := settings.(secretKeyId := true);
        case Password => settings := settings.(password := true);
      }
      assert Params() == old(Params());
      return true;
    }

    /** Appends an empty node for index `idx`. */
    method AppendNode(idx: int)
      requires Valid()
      modifies this`keyFirst, this`keyParam, this`spine, spine
      ensures Valid() && |spine| == |old(spine)| + 1 && spine[..|old(spine)|] == old(spine)
      ensures fresh(spine[|spine| - 1])
      ensures Params() == old(Params()) + [Param(idx, [])]
    {
      var node := new KeyParam(idx);
      if keyFirst == null {
        keyFirst := node;
      } else {
        keyParam.next := node;
      }
      keyParam := node;
      spine := spine + [node];
    }

    /** Pushes `arg` on the last node. */
    method PushParam(arg: string)
      requires Valid() && spine != []
      modifies spine
      ensures Valid()
      ensures Params() == PushLast(old(Params()), arg)
    {
      keyParam.param := keyParam.param + [arg];
    }

    /** `keyidx`, counted from the lists. */
    method ComputeIndex() returns (keyidx: int)
      ensures keyidx == OpenIndex(Encrypts(State()), State())
    {
      keyidx := -1;
      if settings.op == Some(Encrypt) {
        if |encerts| > 0 { keyidx := keyidx + |encerts|; }
      } else {
        if keyfile.Some? || signerfile.Some? { keyidx := keyidx + 1; }
        keyidx := keyidx + |skkeys|;
      }
    }

    /** Files a parameter under an index. */
    method FileParam(keyidx: int, arg: string)
      requires Valid()
      modifies this`keyFirst, this`keyParam, this`spine, spine
      ensures Valid() && |spine| >= |old(spine)| && spine[..|old(spine)|] == old(spine)
      ensures fresh(spine[|old(spine)|..])
      ensures Params() == AddParam(old(Params()), keyidx, arg)
    {
      ghost var ps := Params();
      if keyParam == null || keyParam.idx != keyidx {
        AppendNode(keyidx);
      }
      PushedIsAdded(ps, Params(), keyidx, arg);
      PushParam(arg);
    }

    /** The `-keyopt` case. */
    method HandleKeyOpt(arg: string) returns (ok: bool)
      requires Valid()
      modifies this, spine
      ensures Valid() && |spine| >= |old(spine)| && spine[..|old(spine)|] == old(spine)
      ensures fresh(spine[|old(spine)|..])
      ensures Step(old(State()), KeyOpt(arg)) == if ok then Some(State()) else None
    {
      var keyidx := ComputeIndex();
      if keyidx < 0 { return false; }
      FileParam(keyidx, arg);
      return true;
    }

    /** One option; stops the program where the result is false. */
    method HandleOption(o: Opt) returns (ok: bool)
      requires Valid()
      modifies this, spine
      ensures Valid() && |spine| >= |old(spine)| && spine[..|old(spine)|] == old(spine)
      ensures forall i :: |old(spine)| <= i < |spine| ==> fresh(spine[i])
      ensures Step(old(State()), o) == if ok then Some(State()) else None
    {
      ok := true;
      match o {
        case Signer(a) => HandleSigner(a);
        case InKey(a) => ok := HandleInKey(a);
        case KeyOpt(a) => ok := HandleKeyOpt(a);
        case Recip(a) => HandleRecip(a);
        case _ => ok := HandleSetting(o);
      }
      assert forall i :: |old(spine)| <= i < |spine| ==> spine[i] in spine[|old(spine)|..];
    }

    /** One turn of the option loop. */
    method HandleNext(opts: seq<Opt>, i: nat) returns (ok: bool)
      requires Valid() && i < |opts| && Run(opts[..i]) == Some(State())
      modifies this, spine
      ensures Valid() && |spine| >= |old(spine)| && spine[..|old(spine)|] == old(spine)
      ensures forall k :: |old(spine)| <= k < |spine| ==> fresh(spine[k])
      ensures if ok then Run(opts[..i + 1]) == Some(State()) else Run(opts) == None
    {
      assert opts[..i + 1][..i] == opts[..i];
      ok := HandleOption(opts[i]);
      if !ok { FailureStays(opts, i + 1); }
    }

    /** The whole option loop computes Run. */
    method HandleAll(opts: seq<Opt>) returns (ok: bool)
      requires Valid() && State() == START && spine == []
      modifies this
      ensures Valid() && forall k :: 0 <= k < |spine| ==> fresh(spine[k])
      ensures Run(opts) == if ok then Some(State()) else None
    {
      var i := 0;
      ok := true;
      while ok && i < |opts|
        invariant 0 <= i <= |opts| && Valid()
        invariant forall k :: 0 <= k < |spine| ==> fresh(spine[k])
        invariant if ok then Run(opts[..i]) == Some(State()) else Run(opts) == None
        decreases |opts| - i, ok
      {
        ok := HandleNext(opts, i);
        if ok { i := i + 1; }
      }
      assert opts[..|opts|] == opts;
    }

    /** The final signer step of a signing operation. */
    method AppendFinalSigner() returns (ok: bool)
      requires Valid()
      modifies this
      ensures Valid() && spine == old(spine)
      ensures FinishSign(old(State())) == if ok then Some(State()) else None
    {
      if keyfile.Some? && signerfile.None? { return false; }
      if signerfile.Some? { PushSigner(); }
      ok := sksigners != [];
      if ok { signerfile, keyfile := None, None; }
      assert Params() == old(Params());
    }

    /** The search for the node of signer or recipient `i`: its parameters, if any. */
    method FindParams(i: int) returns (r: Option<seq<string>>)
      requires Valid()
      ensures r.None? <==> forall k :: 0 <= k < |spine| ==> spine[k].idx != i
      ensures ParamsFor(Params(), i) == if r.Some? then r.value else []
    {
      var kparam := keyFirst;
      ghost var n := 0;
      assert Params()[0..] == Params();
      while kparam != null
        invariant 0 <= n <= |spine| && kparam == (if n < |spine| then spine[n] else null)
        invariant forall k :: 0 <= k < n ==> spine[k].idx != i
        invariant ParamsFor(Params(), i) == ParamsFor(Params()[n..], i)
        decreases |spine| - n
      {
        if kparam.idx == i { return Some(kparam.param); }
        assert Params()[n..][1..] == Params()[n + 1..];
        kparam := kparam.next;
        n := n + 1;
      }
      return None;
    }

    /** The signing loop: what each signer is added with. */
    method CollectSigners() returns (r: seq<(string, string, seq<string>)>)
      requires Valid() && |sksigners| == |skkeys| && Signs(State())
      ensures SignedAs(r, State())
    {
      r := [];
      for i := 0 to |sksigners|
        invariant |r| == i
        invariant forall k :: 0 <= k < i ==> r[k] == (sksigners[k], skkeys[k], ParamsFor(Params(), k))
      {
        var p := FindParams(i);
        r := r + [(sksigners[i], skkeys[i], if p.Some? then p.value else [])];
      }
    }

    /** The end of option processing for an encryption: the remaining arguments are recipients. */
    method AppendRecipients(argv: seq<string>) returns (ok: bool)
      requires Valid()
      modifies this`encerts
      ensures Valid() && FinishEncrypt(old(State()), argv) == if ok then Some(State()) else None
    {
      if argv == [] && !settings.secretKey && !settings.password && encerts == [] { return false; }
      if settings.secretKey && !settings.secretKeyId { return false; }
      for i := 0 to |argv|
        invariant encerts == old(encerts) + argv[..i]
      {
        encerts := encerts + [argv[i]];
      }
      assert argv[..|argv|] == argv;
      assert Params() == old(Params());
      return true;
    }

    /** The encryption loop: what each recipient is added with. */
    method CollectRecipients() returns (r: seq<(string, seq<string>)>)
      requires Valid() && Encrypts(State())
      ensures EncryptedAs(r, State())
    {
      r := [];
      for i := 0 to |encerts|
        invariant |r| == i
        invariant forall k :: 0 <= k < i ==> r[k] == (encerts[k], ParamsFor(Params(), k))
      {
        var p := FindParams(i);
        r := r + [(encerts[i], if p.Some? then p.value else [])];
      }
    }

    /** The checks after the option loop, and the appending of what is left. */
    method FinishOptions(argv: seq<string>) returns (ok: bool)
      requires Valid()
      modifies this
      ensures Valid() && spine == old(spine)
      ensures Finish(old(State()), argv) == if ok then Some(State()) else None
    {
      if settings.op == Some(Sign) || settings.op == Some(Resign) {
        ok := AppendFinalSigner();
        return;
      }
      if skkeys != [] || sksigners != [] { return false; }
      if settings.op == Some(Decrypt) {
        ok := settings.recip.Some? || keyfile.Some? || settings.secretKey || settings.password;
      } else if settings.op == Some(Encrypt) {
        ok := AppendRecipients(argv);
      } else {
        ok := settings.op.Some?;
      }
    }
  }

  /** What a command adds: signers with key and parameters, recipients with parameters, or neither. */
  datatype Outcome =
    | Refused
    | Signed(signers: seq<(string, string, seq<string>)>)
    | Encrypted(recipients: seq<(string, seq<string>)>)
    | NoParties

  lemma EqualLists(opts: seq<Opt>, argv: seq<string>)
    requires Command(opts, argv).Some? && SignsAfter(opts)
    ensures |Command(opts, argv).value.signers| == |Command(opts, argv).value.keys|
    ensures Signs(Command(opts, argv).value)
  {
    RunLastOp(opts);
    var bs := AcceptedPairs(opts, argv);
  }

  /** The option loop and the checks after it. */
  method ProcessOptions(opts: seq<Opt>, argv: seq<string>) returns (ok: bool, c: CmsOptions)
    ensures fresh(c) && c.Valid()
    ensures Command(opts, argv) == if ok then Some(c.State()) else None
  {
    c := new CmsOptions();
    ok := c.HandleAll(opts);
    if ok { ok := c.FinishOptions(argv); }
  }

  lemma FinalOperation(opts: seq<Opt>, argv: seq<string>)
    requires Command(opts, argv).Some?
    ensures Command(opts, argv).value.settings.op == LastOp(opts)
  {
    RunLastOp(opts);
  }

  /** From the command line to what is added: refused exactly when the specification refuses, and
      otherwise every signer with its key, or every recipient, in order, with what is delivered to
      it. */
  method CmsCommand(opts: seq<Opt>, argv: seq<string>) returns (r: Outcome)
    ensures r.Refused? <==> Command(opts, argv).None?
    ensures !r.Refused? ==> (r.Signed? <==> SignsAfter(opts)) && (r.Encrypted? <==> EncryptsAfter(opts))
    ensures r.Signed? ==> SignedAs(r.signers, Command(opts, argv).value)
    ensures r.Encrypted? ==> EncryptedAs(r.recipients, Command(opts, argv).value)
  {
    var ok, c := ProcessOptions(opts, argv);
    if !ok { return Refused; }
    FinalOperation(opts, argv);
    if c.settings.op == Some(Sign) || c.settings.op == Some(Resign) {
      EqualLists(opts, argv);
      var l := c.CollectSigners();
      return Signed(l);
    } else if c.settings.op == Some(Encrypt) {
      var l := c.CollectRecipients();
      return Encrypted(l);
    }
    return NoParties;
  }

  /** One entry per signer, in order, with its key and what is delivered to it. */
  ghost predicate SignedAs(l: seq<(string, string, seq<string>)>, end: OptState) {
    |l| == |end.signers| == |end.keys| &&
    forall i :: 0 <= i < |l| ==> l[i] == (end.signers[i], end.keys[i], Delivered(end, SignerNo(i)))
  }

  ghost predicate EncryptedAs(l: seq<(string, seq<string>)>, end: OptState) {
    |l| == |end.certs| && forall i :: 0 <= i < |l| ==> l[i] == (end.certs[i], Delivered(end, RecipientNo(i)))
  }
}
