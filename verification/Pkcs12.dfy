/** The walk over the bags of a PKCS#12 file (section 4.2 of RFC 7292) that prints its keys and
    certificates. */
module Pkcs12 {

  /** The option bits that decide what is printed. */
  datatype Options = Options(nokeys: bool, nocerts: bool, clcerts: bool, cacerts: bool)

  /** A safe bag. What the library finds out about it is part of the value: whether a key can be
      decrypted, decoded and written, whether a certificate bag has a localKeyID, holds an X.509
      certificate, decodes and can be written. */
  datatype Bag =
    | KeyBag(id: nat, decodes: bool, writes: bool)
    | ShroudedKeyBag(id: nat, decrypts: bool, decodes: bool, writes: bool)
    | CertBag(id: nat, hasLocalKeyId: bool, isX509: bool, decodes: bool, writes: bool)
    | SecretBag(id: nat)
    | SafeContentsBag(id: nat, bags: seq<Bag>)
    | OtherBag(id: nat)

  /** What is put on the output stream. */
  datatype Item =
    | BagAttributes(id: nat) | KeyAttributes(id: nat) | PrivateKey(id: nat) | CertText(id: nat) | Certificate(id: nat)
    | SecretValue(id: nat)

  /** A content info of the authenticated safe: data, encrypted data, another type, or one of the
      first two that cannot be unpacked. */
  datatype Content = Data(bags: seq<Bag>) | Encrypted(bags: seq<Bag>) | OtherContent | Damaged

  // ---------- The walk ----------

  /** The common end of both key bag cases: attributes, then the key if it decodes. */
  method DumpKey(out: seq<Item>, id: nat, decodes: bool, writes: bool) returns (ok: bool, out': seq<Item>)
    ensures out' == out + KeyOutput(id, decodes, writes) && ok == (decodes && writes)
  {
    out' := out + [BagAttributes(id)];
    if !decodes { return false, out'; }
    out' := out' + [KeyAttributes(id)];
    if writes { out' := out' + [PrivateKey(id)]; }
    ok := writes;
  }

  /** The certificate bag case. */
  method DumpCert(out: seq<Item>, bag: Bag, o: Options) returns (ok: bool, out': seq<Item>)
    requires bag.CertBag?
    ensures out' == out + Output(bag, o) && ok == (Selected(bag, o) ==> Printable(bag))
  {
    out' := out;
    if o.nocerts { return true, out'; }
    if bag.hasLocalKeyId {
      if o.cacerts { return true, out'; }
    } else if o.clcerts { return true, out'; }
    out' := out' + [BagAttributes(bag.id)];
    if !bag.isX509 { return true, out'; }
    if !bag.decodes { return false, out'; }
    out' := out' + [CertText(bag.id)];
    if bag.writes { out' := out' + [Certificate(bag.id)]; }
    ok := bag.writes;
  }

  /** `dump_certs_pkeys_bag`. */
  method DumpBag(out: seq<Item>, bag: Bag, o: Options) returns (ok: bool, out': seq<Item>)
    ensures Trace(out', ok) == Onto(out, Emitted(Nodes(bag), o))
    decreases bag
  {
    SingleNode(bag, o);
    ok, out' := true, out;
    match bag {
      case KeyBag(id, decodes, writes) =>
        if !o.nokeys { ok, out' := DumpKey(out, id, decodes, writes); }
      case ShroudedKeyBag(id, decrypts, decodes, writes) =>
        if !o.nokeys { ok, out' := DumpKey(out, id, decrypts && decodes, writes); }
      case CertBag(_, _, _, _, _) =>
        ok, out' := DumpCert(out, bag, o);
      case SecretBag(id) =>
        out' := out + [BagAttributes(id), SecretValue(id)];
      case SafeContentsBag(id, bags) =>
        ContentsEmitted(bag, out, o);
        ok, out' := DumpBags(out + [BagAttributes(id)], bags, o);
      case OtherBag(_) =>
    }
  }

  /** `dump_certs_pkeys_bags`. */
  method DumpBags(out: seq<Item>, bags: seq<Bag>, o: Options) returns (ok: bool, out': seq<Item>)
    ensures Trace(out', ok) == Onto(out, Emitted(AllNodes(bags), o))
    decreases bags
  {
    ok, out' := true, out;
    for i := 0 to |bags|
      invariant Trace(out', true) == Onto(out, Emitted(AllNodes(bags[..i]), o))
    {
      AllNodesStep(bags, i, out, o);
      ok, out' := DumpBag(out', bags[i], o);
      if !ok { return; }
    }
    assert bags[..|bags|] == bags;
    ok := true;
  }

  /** `dump_certs_keys_p12`: contents of other types are skipped, a damaged one ends the walk. */
  method DumpP12(safes: seq<Content>, o: Options) returns (ok: bool, out: seq<Item>)
    ensures Trace(out, ok) == SafeTrace(safes, o)
  {
    ok, out := true, [];
    for i := 0 to |safes|
      invariant Trace(out, true) == SafeTrace(safes[..i], o)
    {
      assert safes[..i + 1][..i] == safes[..i];
      if safes[i].Damaged? {
        ok := false;
      } else if !safes[i].OtherContent? {
        ok, out := DumpBags(out, safes[i].bags, o);
      }
      assert Trace(out, ok) == SafeTrace(safes[..i + 1], o);
      if !ok {
        SafeFailureStays(safes, i + 1, o);
        return;
      }
    }
    assert safes[..|safes|] == safes;
    ok := true;
  }

  // ---------- What it prints ----------

  /** The bags of a tree in the order they are visited: a bag before the bags it contains. */
  function Nodes(bag: Bag): seq<Bag>
    decreases bag
  {
    if bag.SafeContentsBag? then [bag] + AllNodes(bag.bags) else [bag]
  }

  function AllNodes(bags: seq<Bag>): seq<Bag>
    decreases bags
  {
    if bags == [] then [] else Nodes(bags[0]) + AllNodes(bags[1..])
  }

  /** Whether the options select a key or certificate bag. */
  predicate Selected(bag: Bag, o: Options) {
    match bag
    case KeyBag(_, _, _) => !o.nokeys
    case ShroudedKeyBag(_, _, _, _) => !o.nokeys
    case CertBag(_, local, _, _, _) => !o.nocerts && !(if local then o.cacerts else o.clcerts)
    case _ => true
  }

  /** Whether a selected bag can be printed to its end. */
  predicate Printable(bag: Bag) {
    match bag
    case KeyBag(_, decodes, writes) => decodes && writes
    case ShroudedKeyBag(_, decrypts, decodes, writes) => decrypts && decodes && writes
    case CertBag(_, _, x509, decodes, writes) => x509 ==> decodes && writes
    case _ => true
  }

  /** What one bag, without the bags inside it, adds to the output. */
  function Output(bag: Bag, o: Options): seq<Item> {
    if !Selected(bag, o) then []
    else match bag
      case KeyBag(id, decodes, writes) => KeyOutput(id, decodes, writes)
      case ShroudedKeyBag(id, decrypts, decodes, writes) => KeyOutput(id, decrypts && decodes, writes)
      case CertBag(id, _, x509, decodes, writes) =>
        if !x509 || !decodes then [BagAttributes(id)]
        else [BagAttributes(id), CertText(id)] + if writes then [Certificate(id)] else []
      case SecretBag(id) => [BagAttributes(id), SecretValue(id)]
      case SafeContentsBag(id, _) => [BagAttributes(id)]
      case OtherBag(_) => []
  }

  function KeyOutput(id: nat, decodes: bool, writes: bool): seq<Item> {
    if !decodes then [BagAttributes(id)]
    else [BagAttributes(id), KeyAttributes(id)] + if writes then [PrivateKey(id)] else []
  }

  /** Output so far and whether the walk goes on. */
  datatype Trace = Trace(items: seq<Item>, ok: bool)

  function Onto(out: seq<Item>, t: Trace): Trace {
    Trace(out + t.items, t.ok)
  }

  function Then(a: Trace, b: Trace): Trace {
    if a.ok then Onto(a.items, b) else a
  }

  function Single(bag: Bag, o: Options): Trace {
    Trace(Output(bag, o), Selected(bag, o) ==> Printable(bag))
  }

  /** A flat list of bags, up to the first selected one that cannot be printed. */
  function Emitted(ns: seq<Bag>, o: Options): Trace {
    if ns == [] then Trace([], true) else Then(Single(ns[0], o), Emitted(ns[1..], o))
  }

  lemma SingleNode(bag: Bag, o: Options)
    ensures Emitted([bag], o) == Single(bag, o)
  {
    assert [bag][1..] == [];
    assert Output(bag, o) + [] == Output(bag, o);
  }

  lemma ThenAssoc(a: Trace, b: Trace, c: Trace)
    ensures Then(Then(a, b), c) == Then(a, Then(b, c))
  {
    if a.ok && b.ok { assert a.items + b.items + c.items == a.items + (b.items + c.items); }
  }

  lemma {:induction false} EmittedAppend(a: seq<Bag>, b: seq<Bag>, o: Options)
    ensures Emitted(a + b, o) == Then(Emitted(a, o), Emitted(b, o))
  {
    if a == [] {
      assert a + b == b && [] + Emitted(b, o).items == Emitted(b, o).items;
    } else {
      assert (a + b)[1..] == a[1..] + b;
      EmittedAppend(a[1..], b, o);
      ThenAssoc(Single(a[0], o), Emitted(a[1..], o), Emitted(b, o));
    }
  }

  lemma ContentsEmitted(bag: Bag, out: seq<Item>, o: Options)
    requires bag.SafeContentsBag?
    ensures Onto(out, Emitted(Nodes(bag), o)) == Onto(out + [BagAttributes(bag.id)], Emitted(AllNodes(bag.bags), o))
  {
    SingleNode(bag, o);
    EmittedAppend([bag], AllNodes(bag.bags), o);
    var l := Emitted(AllNodes(bag.bags), o).items;
    assert out + ([BagAttributes(bag.id)] + l) == out + [BagAttributes(bag.id)] + l;
  }

  lemma {:induction false} AllNodesAppend(a: seq<Bag>, b: seq<Bag>)
    ensures AllNodes(a + b) == AllNodes(a) + AllNodes(b)
  {
    if a == [] {
      assert a + b == b;
    } else {
      assert (a + b)[1..] == a[1..] + b;
      AllNodesAppend(a[1..], b);
    }
  }

  lemma AllNodesOne(bag: Bag)
    ensures AllNodes([bag]) == Nodes(bag)
  {
    assert [bag][1..] == [];
  }

  /** One more part of a walk: what the next part adds, and that a failure in it is final. */
  lemma EmittedStep(done: seq<Bag>, next: seq<Bag>, rest: seq<Bag>, out: seq<Item>, o: Options)
    requires Emitted(done, o).ok
    ensures Onto(out, Emitted(done + next, o)) == Onto(out + Emitted(done, o).items, Emitted(next, o))
    ensures !Emitted(next, o).ok ==> Emitted(done + next + rest, o) == Emitted(done + next, o)
  {
    EmittedAppend(done, next, o);
    EmittedAppend(done + next, rest, o);
    var a, b := Emitted(done, o).items, Emitted(next, o).items;
    assert out + (a + b) == out + a + b;
  }

  lemma AllNodesStep(bags: seq<Bag>, i: nat, out: seq<Item>, o: Options)
    requires i < |bags| && Emitted(AllNodes(bags[..i]), o).ok
    ensures var acc, next := out + Emitted(AllNodes(bags[..i]), o).items, Emitted(Nodes(bags[i]), o);
      && Onto(out, Emitted(AllNodes(bags[..i + 1]), o)) == Onto(acc, next)
      && (!next.ok ==> Onto(out, Emitted(AllNodes(bags), o)) == Onto(acc, next))
  {
    var done, next, rest := AllNodes(bags[..i]), Nodes(bags[i]), AllNodes(bags[i + 1..]);
    AllNodesOne(bags[i]);
    assert bags[..i + 1] == bags[..i] + [bags[i]] && bags == bags[..i + 1] + bags[i + 1..];
    AllNodesAppend(bags[..i], [bags[i]]);
    AllNodesAppend(bags[..i + 1], bags[i + 1..]);
    EmittedStep(done, next, rest, out, o);
  }

  // ---------- The whole file ----------

  function ContentTrace(c: Content, o: Options): Trace {
    if c.Damaged? then Trace([], false) else if c.OtherContent? then Trace([], true) else Emitted(AllNodes(c.bags), o)
  }

  function SafeTrace(safes: seq<Content>, o: Options): Trace {
    if safes == [] then Trace([], true)
    else Then(SafeTrace(safes[..|safes| - 1], o), ContentTrace(safes[|safes| - 1], o))
  }

  lemma {:induction false} SafeFailureStays(safes: seq<Content>, n: nat, o: Options)
    requires n <= |safes| && !SafeTrace(safes[..n], o).ok
    ensures SafeTrace(safes, o) == SafeTrace(safes[..n], o)
    decreases |safes|
  {
    if n == |safes| {
      assert safes[..n] == safes;
    } else {
      assert safes[..|safes| - 1][..n] == safes[..n];
      SafeFailureStays(safes[..|safes| - 1], n, o);
    }
  }

  /** All bags of the file, in order. */
  function SafeNodes(safes: seq<Content>): seq<Bag> {
    if safes == [] then []
    else
      var last := safes[|safes| - 1];
      SafeNodes(safes[..|safes| - 1]) + if last.Data? || last.Encrypted? then AllNodes(last.bags) else []
  }

  /** An undamaged file prints as one flat list of bags. */
  lemma {:induction false} FileIsFlat(safes: seq<Content>, o: Options)
    requires forall i :: 0 <= i < |safes| ==> !safes[i].Damaged?
    ensures SafeTrace(safes, o) == Emitted(SafeNodes(safes), o)
  {
    if safes != [] {
      var init, last := safes[..|safes| - 1], safes[|safes| - 1];
      FileIsFlat(init, o);
      EmittedAppend(SafeNodes(init), if last.Data? || last.Encrypted? then AllNodes(last.bags) else [], o);
    }
  }

  // ---------- What the options select ----------

  /** The walk succeeds exactly when every selected bag, at any depth, can be printed. */
  lemma {:induction false} SucceedsIff(ns: seq<Bag>, o: Options)
    ensures Emitted(ns, o).ok <==> forall i :: 0 <= i < |ns| && Selected(ns[i], o) ==> Printable(ns[i])
  {
    if ns != [] {
      SucceedsIff(ns[1..], o);
      assert forall i :: 1 <= i < |ns| ==> ns[i] == ns[1..][i - 1];
    }
  }

  /** The ids of the certificates among the printed items, in order. */
  function Certificates(items: seq<Item>): seq<nat> {
    if items == [] then []
    else if items[0].Certificate? then [items[0].id] + Certificates(items[1..])
    else Certificates(items[1..])
  }

  function PrivateKeys(items: seq<Item>): seq<nat> {
    if items == [] then []
    else if items[0].PrivateKey? then [items[0].id] + PrivateKeys(items[1..])
    else PrivateKeys(items[1..])
  }

  lemma {:induction false} CertificatesAppend(a: seq<Item>, b: seq<Item>)
    ensures Certificates(a + b) == Certificates(a) + Certificates(b)
  {
    if a == [] {
      assert a + b == b;
    } else {
      assert (a + b)[1..] == a[1..] + b;
      CertificatesAppend(a[1..], b);
    }
  }

  lemma {:induction false} PrivateKeysAppend(a: seq<Item>, b: seq<Item>)
    ensures PrivateKeys(a + b) == PrivateKeys(a) + PrivateKeys(b)
  {
    if a == [] {
      assert a + b == b;
    } else {
      assert (a + b)[1..] == a[1..] + b;
      PrivateKeysAppend(a[1..], b);
    }
  }

  /** The X.509 certificates of a list of bags that have, or lack, a localKeyID. */
  function X509Certs(ns: seq<Bag>, local: bool, ca: bool): seq<nat> {
    if ns == [] then []
    else
      var b, rest := ns[0], X509Certs(ns[1..], local, ca);
      if b.CertBag? && b.isX509 && (if b.hasLocalKeyId then local else ca) then [b.id] + rest else rest
  }

  function KeyIds(ns: seq<Bag>): seq<nat> {
    if ns == [] then []
    else if ns[0].KeyBag? || ns[0].ShroudedKeyBag? then [ns[0].id] + KeyIds(ns[1..])
    else KeyIds(ns[1..])
  }

  lemma OneOutput(b: Bag, o: Options)
    requires Selected(b, o) ==> Printable(b)
    ensures Certificates(Output(b, o)) == if b.CertBag? && b.isX509 && Selected(b, o) then [b.id] else []
    ensures PrivateKeys(Output(b, o)) == if (b.KeyBag? || b.ShroudedKeyBag?) && !o.nokeys then [b.id] else []
  {
    if b.KeyBag? || b.ShroudedKeyBag? {
      Three(BagAttributes(b.id), KeyAttributes(b.id), PrivateKey(b.id));
    } else if b.CertBag? {
      Three(BagAttributes(b.id), CertText(b.id), Certificate(b.id));
    } else if b.SecretBag? {
      Three(BagAttributes(b.id), SecretValue(b.id), SecretValue(b.id));
    }
  }

  lemma Three(x: Item, y: Item, z: Item)
    requires x.BagAttributes? && !y.Certificate? && !y.PrivateKey?
    ensures [x, y] + [z] == [x, y, z]
    ensures Certificates([x]) == [] && PrivateKeys([x]) == [] && Certificates([x, y]) == [] && PrivateKeys([x, y]) == []
    ensures Certificates([x, y, z]) == if z.Certificate? then [z.id] else []
    ensures PrivateKeys([x, y, z]) == if z.PrivateKey? then [z.id] else []
  {
    assert [x][1..] == [] && [z][1..] == [] && [y][1..] == [] && [x, y][1..] == [y];
    CertificatesAppend([x, y], [z]);
    PrivateKeysAppend([x, y], [z]);
  }

  /** A successful walk prints exactly the selected certificates and keys, each once, in the
      order of the tree. */
  lemma {:induction false} PrintsSelected(ns: seq<Bag>, o: Options)
    requires Emitted(ns, o).ok
    ensures Certificates(Emitted(ns, o).items) == X509Certs(ns, !o.nocerts && !o.cacerts, !o.nocerts && !o.clcerts)
    ensures PrivateKeys(Emitted(ns, o).items) == if o.nokeys then [] else KeyIds(ns)
  {
    if ns != [] {
      PrintsSelected(ns[1..], o);
      OneOutput(ns[0], o);
      CertificatesAppend(Output(ns[0], o), Emitted(ns[1..], o).items);
      PrivateKeysAppend(Output(ns[0], o), Emitted(ns[1..], o).items);
    }
  }

  /** With NOKEYS no key material is printed, however the walk ends. */
  lemma {:induction false} NoKeysPrinted(ns: seq<Bag>, o: Options)
    requires o.nokeys
    ensures forall x :: x in Emitted(ns, o).items ==> !x.PrivateKey? && !x.KeyAttributes?
  {
    if ns != [] { NoKeysPrinted(ns[1..], o); }
  }

  /** `all` is a shuffle of `a` and `b` that keeps the order of each. */
  predicate Interleaves(a: seq<nat>, b: seq<nat>, all: seq<nat>) {
    if all == [] then a == [] && b == []
    else (a != [] && a[0] == all[0] && Interleaves(a[1..], b, all[1..])) ||
         (b != [] && b[0] == all[0] && Interleaves(a, b[1..], all[1..]))
  }

  lemma {:induction false} LocalAndCa(ns: seq<Bag>)
    ensures Interleaves(X509Certs(ns, true, false), X509Certs(ns, false, true), X509Certs(ns, true, true))
  {
    if ns != [] {
      LocalAndCa(ns[1..]);
      if ns[0].CertBag? && ns[0].isX509 {
        assert X509Certs(ns, true, true)[1..] == X509Certs(ns[1..], true, true);
        if ns[0].hasLocalKeyId {
          assert X509Certs(ns, true, false)[1..] == X509Certs(ns[1..], true, false);
        } else {
          assert X509Certs(ns, false, true)[1..] == X509Certs(ns[1..], false, true);
        }
      }
    }
  }

  /** CLCERTS and CACERTS split what is printed without them: one run without either flag succeeds
      exactly when both runs with one flag do, and then its certificates are an order preserving
      shuffle of theirs. */
  lemma CertFlagsPartition(ns: seq<Bag>, o: Options)
    requires !o.clcerts && !o.cacerts
    ensures var cl, ca, all := Emitted(ns, o.(clcerts := true)), Emitted(ns, o.(cacerts := true)), Emitted(ns, o);
      && (all.ok <==> cl.ok && ca.ok)
      && (all.ok ==> Interleaves(Certificates(cl.items), Certificates(ca.items), Certificates(all.items)))
      && (all.ok ==> PrivateKeys(cl.items) == PrivateKeys(ca.items) == PrivateKeys(all.items))
  {
    var cl, ca := o.(clcerts := true), o.(cacerts := true);
    SucceedsIff(ns, o);
    SucceedsIff(ns, cl);
    SucceedsIff(ns, ca);
    assert forall b :: Selected(b, o) <==> Selected(b, cl) || Selected(b, ca);
    if Emitted(ns, o).ok {
      PrintsSelected(ns, o);
      PrintsSelected(ns, cl);
      PrintsSelected(ns, ca);
      LocalAndCa(ns);
      NoneSelected(ns);
    }
  }

  lemma {:induction false} NoneSelected(ns: seq<Bag>)
    ensures X509Certs(ns, false, false) == []
  {
    if ns != [] { NoneSelected(ns[1..]); }
  }

  /** A shuffle has the members of both, with repetition. */
  lemma {:induction false} InterleavesMembers(a: seq<nat>, b: seq<nat>, all: seq<nat>)
    requires Interleaves(a, b, all)
    ensures multiset(all) == multiset(a) + multiset(b) && |all| == |a| + |b|
    decreases |all|
  {
    if all != [] {
      assert all == [all[0]] + all[1..];
      if a != [] && a[0] == all[0] && Interleaves(a[1..], b, all[1..]) {
        assert a == [a[0]] + a[1..];
        InterleavesMembers(a[1..], b, all[1..]);
      } else {
        assert b == [b[0]] + b[1..];
        InterleavesMembers(a, b[1..], all[1..]);
      }
    }
  }

  // ---------- Attributes, secrets and failures ----------

  /** Item `i`: a key comes right after its bag and key attributes, a certificate right after its
      bag attributes and its text, a secret right after its bag attributes. */
  predicate HeadedAt(items: seq<Item>, i: nat)
    requires i < |items|
  {
    match items[i]
    case PrivateKey(id) => i >= 2 && items[i - 1] == KeyAttributes(id) && items[i - 2] == BagAttributes(id)
    case Certificate(id) => i >= 2 && items[i - 1] == CertText(id) && items[i - 2] == BagAttributes(id)
    case SecretValue(id) => i >= 1 && items[i - 1] == BagAttributes(id)
    case _ => true
  }

  ghost predicate Headed(items: seq<Item>) {
    forall i :: 0 <= i < |items| ==> HeadedAt(items, i)
  }

  lemma HeadedJoin(a: seq<Item>, b: seq<Item>)
    requires Headed(a) && Headed(b)
    ensures Headed(a + b)
  {
    var all := a + b;
    forall i | 0 <= i < |all| ensures HeadedAt(all, i) {
      if i < |a| {
        assert HeadedAt(a, i) && all[..|a|] == a;
        assert forall j :: 0 <= j <= i ==> all[j] == a[j];
      } else {
        assert HeadedAt(b, i - |a|);
        assert forall j :: |a| <= j <= i ==> all[j] == b[j - |a|];
      }
    }
  }

  /** However the walk ends, what it printed is in this order. */
  lemma {:induction false} PrintedHeaded(ns: seq<Bag>, o: Options)
    ensures Headed(Emitted(ns, o).items)
  {
    if ns != [] {
      PrintedHeaded(ns[1..], o);
      OutputHeaded(ns[0], o);
      HeadedJoin(Output(ns[0], o), Emitted(ns[1..], o).items);
    }
  }

  lemma OutputHeaded(b: Bag, o: Options)
    ensures Headed(Output(b, o))
  {
  }

  /** A bag that the options ask for and that cannot be printed: a key that is not decrypted, not
      decoded or not written, or an X.509 certificate that is not decoded or not written. */
  predicate CannotPrint(b: Bag, o: Options) {
    match b
    case KeyBag(_, decodes, writes) => !o.nokeys && !(decodes && writes)
    case ShroudedKeyBag(_, decrypts, decodes, writes) => !o.nokeys && !(decrypts && decodes && writes)
    case CertBag(_, local, x509, decodes, writes) =>
      !o.nocerts && x509 && !(decodes && writes) && (local ==> !o.cacerts) && (!local ==> !o.clcerts)
    case _ => false
  }

  /** The walk fails exactly when there is such a bag, at any depth. */
  lemma FailsIff(ns: seq<Bag>, o: Options)
    ensures !Emitted(ns, o).ok <==> exists i :: 0 <= i < |ns| && CannotPrint(ns[i], o)
  {
    SucceedsIff(ns, o);
    forall i | 0 <= i < |ns| ensures CannotPrint(ns[i], o) <==> Selected(ns[i], o) && !Printable(ns[i]) {
    }
  }

  /** The ids of the secrets, or of the bags whose attributes are printed, among printed items. */
  function Secrets(items: seq<Item>): seq<nat> {
    if items == [] then []
    else if items[0].SecretValue? then [items[0].id] + Secrets(items[1..])
    else Secrets(items[1..])
  }

  function SecretIds(ns: seq<Bag>): seq<nat> {
    if ns == [] then [] else if ns[0].SecretBag? then [ns[0].id] + SecretIds(ns[1..]) else SecretIds(ns[1..])
  }

  lemma {:induction false} SecretsAppend(a: seq<Item>, b: seq<Item>)
    ensures Secrets(a + b) == Secrets(a) + Secrets(b)
  {
    if a == [] {
      assert a + b == b;
    } else {
      assert (a + b)[1..] == a[1..] + b;
      SecretsAppend(a[1..], b);
    }
  }

  lemma {:induction false} NoSecrets(items: seq<Item>)
    requires forall i :: 0 <= i < |items| ==> !items[i].SecretValue?
    ensures Secrets(items) == []
  {
    if items != [] { NoSecrets(items[1..]); }
  }

  /** A successful walk prints every secret, whatever the options. */
  lemma {:induction false} PrintsSecrets(ns: seq<Bag>, o: Options)
    requires Emitted(ns, o).ok
    ensures Secrets(Emitted(ns, o).items) == SecretIds(ns)
  {
    if ns != [] {
      var b := ns[0];
      PrintsSecrets(ns[1..], o);
      SecretsAppend(Output(b, o), Emitted(ns[1..], o).items);
      if b.SecretBag? {
        assert [BagAttributes(b.id), SecretValue(b.id)][1..] == [SecretValue(b.id)] && [SecretValue(b.id)][1..] == [];
      } else {
        NoSecrets(Output(b, o));
      }
    }
  }
}
