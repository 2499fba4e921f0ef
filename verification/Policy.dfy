/** Building the subject name of an issued certificate: the policy loop of `do_body` and the
    removal of e-mail addresses. */
module Policy {
  import opened CText

  datatype Asn1String = Asn1String(kind: int, data: seq<int>)

  /** A name entry; `rdn` numbers the relative distinguished name it belongs to. */
  datatype Entry = Entry(oid: int, value: Asn1String, rdn: int)

  /** A line of the policy section: the object its attribute name stands for, None when
      `OBJ_txt2nid` does not know the name, and its kind. */
  datatype Item = Item(nid: Option<int>, value: string)

  // ---------- Names ----------

  /** `X509_NAME_get_index_by_OBJ`: the next entry with that object after `last`, or -1. */
  method GetIndexByObj(name: seq<Entry>, oid: int, last: int) returns (j: int)
    requires -1 <= last
    ensures j == -1 || last < j < |name|
    ensures j >= 0 ==> name[j].oid == oid && forall k :: last < k < j ==> name[k].oid != oid
    ensures j == -1 ==> forall k :: last < k < |name| ==> name[k].oid != oid
  {
    j := last + 1;
    while j < |name|
      invariant last < j
      invariant forall k :: last < k < j && k < |name| ==> name[k].oid != oid
    {
      if name[j].oid == oid {
        return;
      }
      j := j + 1;
    }
    j := -1;
  }

  /** `X509_NAME_add_entry(subject, e, -1, 0)`: a copy of the entry in a new RDN at the end. */
  function AddEntry(subject: seq<Entry>, e: Entry): seq<Entry> {
    subject + [e.(rdn := if subject == [] then 0 else subject[|subject| - 1].rdn + 1)]
  }

  /** The entries with an object, in order. */
  function Pick(name: seq<Entry>, oid: int): seq<Entry> {
    if name == [] then []
    else Pick(name[..|name| - 1], oid) + if name[|name| - 1].oid == oid then [name[|name| - 1]] else []
  }

  lemma {:induction false} PickSkips(name: seq<Entry>, oid: int, m: nat, n: nat)
    requires m <= n <= |name| && forall k :: m <= k < n ==> name[k].oid != oid
    ensures Pick(name[..n], oid) == Pick(name[..m], oid)
  {
    if m < n {
      assert name[..n][..n - 1] == name[..n - 1];
      PickSkips(name, oid, m, n - 1);
    }
  }

  lemma PickTakes(name: seq<Entry>, oid: int, j: nat)
    requires j < |name| && name[j].oid == oid
    ensures Pick(name[..j + 1], oid) == Pick(name[..j], oid) + [name[j]]
  {
    assert name[..j + 1][..j] == name[..j];
  }

  // ---------- The policy ----------

  function AddAll(subject: seq<Entry>, es: seq<Entry>): seq<Entry> {
    if es == [] then subject else AddEntry(AddAll(subject, es[..|es| - 1]), es[|es| - 1])
  }

  lemma AddAllSnoc(subject: seq<Entry>, es: seq<Entry>, e: Entry)
    ensures AddAll(subject, es + [e]) == AddEntry(AddAll(subject, es), e)
  {
    assert (es + [e])[..|es|] == es;
  }

  lemma {:induction false} AddAllAppend(subject: seq<Entry>, es: seq<Entry>, fs: seq<Entry>)
    ensures AddAll(AddAll(subject, es), fs) == AddAll(subject, es + fs)
  {
    if fs == [] {
      assert es + fs == es;
    } else {
      assert es + fs == es + fs[..|fs| - 1] + [fs[|fs| - 1]];
      AddAllAppend(subject, es, fs[..|fs| - 1]);
      AddAllSnoc(subject, es + fs[..|fs| - 1], fs[|fs| - 1]);
    }
  }

  ghost predicate Occurs(name: seq<Entry>, oid: int) {
    exists k :: 0 <= k < |name| && name[k].oid == oid
  }

  /** The CA name has this value under the object. */
  ghost predicate InCa(caName: seq<Entry>, oid: int, value: Asn1String) {
    exists k :: 0 <= k < |caName| && caName[k].oid == oid && caName[k].value == value
  }

  /** The kind of a policy line, by the comparisons of `do_body`. */
  datatype Kind = Optional | Supplied | Match | Invalid

  function KindOf(value: string): Kind {
    if value == "optional" then Optional
    else if value == "supplied" then Supplied
    else if value == "match" then Match
    else Invalid
  }

  /** What a policy line asks of the request: a known object and kind; a supplied or match
      attribute occurs; every occurrence of a match attribute has its value in the CA name. */
  ghost predicate ItemOk(nid: Option<int>, kind: Kind, name: seq<Entry>, caName: seq<Entry>) {
    nid.Some? && kind != Invalid &&
    (kind != Optional ==> Occurs(name, nid.value)) &&
    (kind == Match ==> AllInCa(name, caName, nid.value, |name|))
  }

  /** The first `n` entries of the name with the object have their values in the CA name. */
  ghost predicate AllInCa(name: seq<Entry>, caName: seq<Entry>, oid: int, n: nat)
    requires n <= |name|
  {
    forall k :: 0 <= k < n && name[k].oid == oid ==> InCa(caName, oid, name[k].value)
  }

  ghost predicate LineOk(line: Item, name: seq<Entry>, caName: seq<Entry>) {
    ItemOk(line.nid, KindOf(line.value), name, caName)
  }

  ghost predicate Accepts(policy: seq<Item>, name: seq<Entry>, caName: seq<Entry>) {
    forall i :: 0 <= i < |policy| ==> LineOk(policy[i], name, caName)
  }

  /** The request entries that the policy names, line by line and in request order. */
  function Selected(policy: seq<Item>, name: seq<Entry>): seq<Entry> {
    if policy == [] then []
    else
      var last := policy[|policy| - 1];
      Selected(policy[..|policy| - 1], name) +
        (if last.nid.Some? then Pick(name, last.nid.value) else [])
  }

  /** The search through the CA name for the value of a request entry. */
  method FindInCa(caName: seq<Entry>, oid: int, value: Asn1String) returns (j: int)
    ensures j >= 0 <==> InCa(caName, oid, value)
    ensures j >= 0 ==> j < |caName| && caName[j].oid == oid && caName[j].value == value
  {
    var last2 := -1;
    while true
      invariant -1 <= last2 < |caName|
      invariant forall k :: 0 <= k <= last2 && caName[k].oid == oid ==> caName[k].value != value
      decreases |caName| - last2
    {
      j := GetIndexByObj(caName, oid, last2);
      if j < 0 {
        return;
      }
      last2 := j;
      if caName[j].value == value {
        return;
      }
    }
  }

  /** The next entry found, and what pushing it (or an equal CA entry) adds to the subject. */
  lemma NextPicked(subject0: seq<Entry>, name: seq<Entry>, obj: int, last: int, j: nat, e: Entry)
    requires -1 <= last < j < |name| && name[j].oid == obj
    requires forall k :: last < k < j ==> name[k].oid != obj
    requires e.oid == obj && e.value == name[j].value
    ensures AddAll(subject0, Pick(name[..j + 1], obj)) == AddEntry(AddAll(subject0, Pick(name[..last + 1], obj)), e)
  {
    PickSkips(name, obj, last + 1, j);
    PickTakes(name, obj, j);
    AddAllSnoc(subject0, Pick(name[..j], obj), name[j]);
  }

  lemma NothingLeft(name: seq<Entry>, obj: int, last: int)
    requires -1 <= last < |name| && forall k :: last < k < |name| ==> name[k].oid != obj
    ensures Pick(name[..last + 1], obj) == Pick(name, obj)
  {
    PickSkips(name, obj, last + 1, |name|);
    assert name[..|name|] == name;
  }

  /** One policy line: every request entry with the object is checked by kind and pushed; for
      `match` the CA entry is pushed. `j` serves the request search and then the CA search. */
  method CheckItem(kind: Kind, obj: int, name: seq<Entry>, caName: seq<Entry>, subject0: seq<Entry>)
    returns (ok: bool, subject: seq<Entry>)
    ensures ok <==> ItemOk(Some(obj), kind, name, caName)
    ensures ok ==> subject == AddAll(subject0, Pick(name, obj))
  {
    subject := subject0;
    var last := -1;
    while true
      invariant -1 <= last < |name|
      invariant last >= 0 ==> name[last].oid == obj && kind != Invalid
      invariant subject == AddAll(subject0, Pick(name[..last + 1], obj))
      invariant kind == Match ==> AllInCa(name, caName, obj, last + 1)
      decreases |name| - last
    {
      var push: Option<Entry> := None;
      var j := GetIndexByObj(name, obj, last);
      var tne: Option<Entry> := None;
      if j < 0 {
        NothingLeft(name, obj, last);
        if last != -1 {
          break;
        }
      } else {
        tne := Some(name[j]);
        NextPicked(subject0, name, obj, last, j, name[j]);
      }
      last := j;
      match kind {
        case Optional =>
          push := tne;
        case Supplied =>
          if tne.None? {
            return false, subject;
          }
          push := tne;
        case Match =>
          if tne.None? {
            return false, subject;
          }
          j := FindInCa(caName, obj, tne.value.value);
          if j < 0 {
            assert !AllInCa(name, caName, obj, |name|);
            return false, subject;
          }
          push := Some(caName[j]);
        case Invalid =>
          return false, subject;
      }
      if push.Some? {
        subject := AddEntry(subject, push.value);
      }
      if j < 0 {
        break;
      }
    }
    ok := true;
  }

  lemma SubjectStep(policy: seq<Item>, name: seq<Entry>, i: nat, obj: int)
    requires i < |policy| && policy[i].nid == Some(obj)
    ensures AddAll(AddAll([], Selected(policy[..i], name)), Pick(name, obj)) ==
      AddAll([], Selected(policy[..i + 1], name))
  {
    assert policy[..i + 1][..i] == policy[..i];
    AddAllAppend([], Selected(policy[..i], name), Pick(name, obj));
  }

  /** One line of the policy: the object and kind are looked up and the line is checked. */
  method CheckLine(cv: Item, name: seq<Entry>, caName: seq<Entry>, acc: seq<Entry>)
    returns (ok: bool, more: seq<Entry>)
    ensures ok <==> LineOk(cv, name, caName)
    ensures ok ==> cv.nid.Some? && more == AddAll(acc, Pick(name, cv.nid.value))
  {
    var obj := cv.nid;
    if obj.None? {
      return false, acc;
    }
    ok, more := CheckItem(KindOf(cv.value), obj.value, name, caName, acc);
  }

  /** The first `n` lines are met and give this subject. */
  ghost predicate Met(policy: seq<Item>, n: nat, name: seq<Entry>, caName: seq<Entry>, acc: seq<Entry>)
    requires n <= |policy|
  {
    Accepts(policy[..n], name, caName) && acc == AddAll([], Selected(policy[..n], name))
  }

  lemma MetStep(policy: seq<Item>, n: nat, name: seq<Entry>, caName: seq<Entry>, acc: seq<Entry>, more: seq<Entry>)
    requires n < |policy| && Met(policy, n, name, caName, acc) && LineOk(policy[n], name, caName)
    requires more == AddAll(acc, Pick(name, policy[n].nid.value))
    ensures Met(policy, n + 1, name, caName, more)
  {
    assert policy[..n + 1] == policy[..n] + [policy[n]];
    SubjectStep(policy, name, n, policy[n].nid.value);
  }

  lemma MetAll(policy: seq<Item>, name: seq<Entry>, caName: seq<Entry>, acc: seq<Entry>)
    requires Met(policy, |policy|, name, caName, acc)
    ensures Accepts(policy, name, caName) && acc == AddAll([], Selected(policy, name))
  {
    assert policy[..|policy|] == policy;
  }

  /** What a policy line asks, by its own words: a known object, and one of three words; a
      "supplied" or "match" attribute occurs in the request, and every occurrence of a "match"
      attribute has its value under the same object in the CA name. */
  ghost predicate LineMet(line: Item, name: seq<Entry>, caName: seq<Entry>) {
    && line.nid.Some? && line.value in ["optional", "supplied", "match"]
    && (line.value != "optional" ==> exists k :: 0 <= k < |name| && name[k].oid == line.nid.value)
    && (line.value == "match" ==>
        forall k :: 0 <= k < |name| && name[k].oid == line.nid.value ==>
          exists j :: 0 <= j < |caName| && caName[j].oid == name[k].oid && caName[j].value == name[k].value)
  }

  lemma LineOkIff(line: Item, name: seq<Entry>, caName: seq<Entry>)
    ensures LineOk(line, name, caName) <==> LineMet(line, name, caName)
  {
    if line.nid.Some? {
      assert Occurs(name, line.nid.value) <==> exists k :: 0 <= k < |name| && name[k].oid == line.nid.value;
      forall k | 0 <= k < |name| && name[k].oid == line.nid.value
        ensures InCa(caName, line.nid.value, name[k].value) <==>
          exists j :: 0 <= j < |caName| && caName[j].oid == name[k].oid && caName[j].value == name[k].value
      {
      }
    }
  }

  lemma AcceptsIff(policy: seq<Item>, name: seq<Entry>, caName: seq<Entry>)
    ensures Accepts(policy, name, caName) <==> forall i :: 0 <= i < |policy| ==> LineMet(policy[i], name, caName)
  {
    forall i | 0 <= i < |policy| ensures LineOk(policy[i], name, caName) <==> LineMet(policy[i], name, caName) {
      LineOkIff(policy[i], name, caName);
    }
  }

  /** The policy loop of `do_body`: it accepts exactly the requests that meet every line, and
      the subject is then the selected entries, each in its own RDN. */
  method PolicySubject(policy: seq<Item>, name: seq<Entry>, caName: seq<Entry>)
    returns (subject: Option<seq<Entry>>)
    ensures subject.Some? <==> Accepts(policy, name, caName)
    ensures subject.Some? <==> forall i :: 0 <= i < |policy| ==> LineMet(policy[i], name, caName)
    ensures subject.Some? ==> subject.value == AddAll([], Selected(policy, name))
  {
    AcceptsIff(policy, name, caName);
    var acc: seq<Entry> := [];
    for i := 0 to |policy|
      invariant Met(policy, i, name, caName, acc)
    {
      var ok, more := CheckLine(policy[i], name, caName, acc);
      if !ok {
        return None;
      }
      MetStep(policy, i, name, caName, acc, more);
      acc := more;
    }
    MetAll(policy, name, caName, acc);
    subject := Some(acc);
  }

  /** The numbering: entry `k` of a subject built from nothing is alone in RDN `k`. */
  lemma {:induction false} SubjectEntries(es: seq<Entry>)
    ensures |AddAll([], es)| == |es|
    ensures forall k :: 0 <= k < |es| ==> AddAll([], es)[k] == es[k].(rdn := k)
  {
    if es != [] {
      SubjectEntries(es[..|es| - 1]);
    }
  }

  /** The picked entries are all and only the entries with the object. */
  lemma {:induction false} PickComplete(name: seq<Entry>, oid: int, e: Entry)
    ensures e in Pick(name, oid) <==> e in name && e.oid == oid
  {
    if name != [] {
      var init, last := name[..|name| - 1], name[|name| - 1];
      PickComplete(init, oid, e);
      assert name == init + [last];
    }
  }

  /** A list of positions in order, each with the property asked for. */
  ghost predicate Positions(at: seq<nat>, n: nat) {
    (forall k :: 0 <= k < |at| ==> at[k] < n) && (forall j, k :: 0 <= j < k < |at| ==> at[j] < at[k])
  }

  /** The picked entries are exactly those at the positions with the object, in the order of the
      request. */
  lemma {:induction false} PickOrdered(name: seq<Entry>, oid: int) returns (at: seq<nat>)
    ensures Positions(at, |name|) && |Pick(name, oid)| == |at|
    ensures forall k :: 0 <= k < |at| ==> Pick(name, oid)[k] == name[at[k]]
    ensures forall i :: 0 <= i < |name| ==> (i in at <==> name[i].oid == oid)
  {
    if name == [] {
      at := [];
    } else {
      var n := |name| - 1;
      at := PickOrdered(name[..n], oid);
      if name[n].oid == oid { at := at + [n]; }
    }
  }

  /** The entries of a longer policy are those of its parts, in the order of the lines. */
  lemma {:induction false} SelectedJoin(a: seq<Item>, b: seq<Item>, name: seq<Entry>)
    ensures Selected(a + b, name) == Selected(a, name) + Selected(b, name)
  {
    if b == [] {
      assert a + b == a;
    } else {
      assert (a + b)[..|a + b| - 1] == a + b[..|b| - 1];
      SelectedJoin(a, b[..|b| - 1], name);
    }
  }

  /** One line selects all request entries with its object. */
  lemma SelectedLine(line: Item, name: seq<Entry>)
    ensures Selected([line], name) == if line.nid.Some? then Pick(name, line.nid.value) else []
  {
    assert [line][..0] == [];
  }

  // ---------- E-mail removal ----------

  /** RDN numbers never fall. They may skip: a decoded name is numbered around an empty RDN. */
  ghost predicate Grouped(name: seq<Entry>) {
    forall i :: 0 <= i < |name| - 1 ==> name[i].rdn <= name[i + 1].rdn
  }

  /** RDN numbers never skip. */
  ghost predicate Gapless(name: seq<Entry>) {
    forall i :: 0 <= i < |name| - 1 ==> name[i + 1].rdn <= name[i].rdn + 1
  }

  /** The same attributes in the same order, grouped into RDNs the same way. */
  ghost predicate SameShape(a: seq<Entry>, b: seq<Entry>) {
    |a| == |b| &&
    (forall i :: 0 <= i < |a| ==> a[i].oid == b[i].oid && a[i].value == b[i].value) &&
    (forall i, j :: 0 <= i < j < |a| ==> (a[i].rdn == a[j].rdn <==> b[i].rdn == b[j].rdn))
  }

  function RemoveAt(name: seq<Entry>, loc: nat): seq<Entry>
    requires loc < |name|
  {
    name[..loc] + name[loc + 1..]
  }

  /** `X509_NAME_delete_entry`, with its renumbering of the entries that follow. */
  method DeleteEntry(name: seq<Entry>, loc: nat) returns (sk: seq<Entry>)
    requires loc < |name|
    ensures |sk| == |name| - 1
    ensures Grouped(name) ==> Grouped(sk) && SameShape(sk, RemoveAt(name, loc))
    ensures Grouped(name) && Gapless(name) ==> Gapless(sk)
  {
    var ret := name[loc];
    sk := RemoveAt(name, loc);
    ghost var removed := sk;
    var n := |sk|;
    if loc == n {
      if Grouped(name) { TakeGrouped(name, n); }
      assert sk == name[..n];
      return;
    }
    var setPrev := if loc != 0 then sk[loc - 1].rdn else ret.rdn - 1;
    var setNext := sk[loc].rdn;
    if setPrev + 1 < setNext {
      for i := loc to n
        invariant |sk| == n
        invariant forall k :: 0 <= k < n ==> sk[k] == if loc <= k < i then removed[k].(rdn := removed[k].rdn - 1) else removed[k]
      {
        sk := sk[i := sk[i].(rdn := sk[i].rdn - 1)];
      }
    }
    assert Renumbered(name, loc, sk, ClosesGap(name, loc));
    if Grouped(name) {
      RemoveAtGrouped(name, loc, sk);
      RemoveAtShape(name, loc, sk);
      if Gapless(name) { RemoveAtGapless(name, loc, sk); }
    }
  }

  lemma TakeGrouped(name: seq<Entry>, n: nat)
    requires Grouped(name) && n <= |name|
    ensures Grouped(name[..n]) && (Gapless(name) ==> Gapless(name[..n]))
  {
  }

  lemma {:induction false} GroupedMonotone(name: seq<Entry>, i: nat, j: nat)
    requires Grouped(name) && i <= j < |name|
    ensures name[i].rdn <= name[j].rdn
  {
    if i < j { GroupedMonotone(name, i, j - 1); }
  }

  /** Entry `k` of a name without its entry `loc`. */
  function Skip(loc: nat, k: nat): nat {
    if k < loc then k else k + 1
  }

  /** The name without entry `loc`, the rest renumbered down by one when `down`. */
  ghost predicate Renumbered(name: seq<Entry>, loc: nat, sk: seq<Entry>, down: bool)
    requires loc < |name|
  {
    |sk| == |name| - 1 &&
    forall k :: 0 <= k < |sk| ==>
      var e := name[Skip(loc, k)];
      sk[k] == if down && loc <= k then e.(rdn := e.rdn - 1) else e
  }

  /** The renumbering condition of `X509_NAME_delete_entry`. */
  predicate ClosesGap(name: seq<Entry>, loc: nat)
    requires loc < |name| - 1
  {
    (if loc != 0 then name[loc - 1].rdn else name[loc].rdn - 1) + 1 < name[loc + 1].rdn
  }

  lemma RemoveAtGrouped(name: seq<Entry>, loc: nat, sk: seq<Entry>)
    requires Grouped(name) && loc < |name| - 1 && Renumbered(name, loc, sk, ClosesGap(name, loc))
    ensures Grouped(sk)
  {
    assert name[loc].rdn <= name[loc + 1].rdn;
    forall i | 0 <= i < |sk| - 1 ensures sk[i].rdn <= sk[i + 1].rdn {
      var p := Skip(loc, i);
      assert name[p].rdn <= name[p + 1].rdn;
      assert Skip(loc, i + 1) == if i == loc - 1 then loc + 1 else p + 1;
    }
  }

  lemma RemoveAtGapless(name: seq<Entry>, loc: nat, sk: seq<Entry>)
    requires Grouped(name) && Gapless(name) && loc < |name| - 1 && Renumbered(name, loc, sk, ClosesGap(name, loc))
    ensures Gapless(sk)
  {
    assert name[loc].rdn <= name[loc + 1].rdn <= name[loc].rdn + 1;
    forall i | 0 <= i < |sk| - 1 ensures sk[i + 1].rdn <= sk[i].rdn + 1 {
      var p := Skip(loc, i);
      assert name[p].rdn <= name[p + 1].rdn <= name[p].rdn + 1;
      assert Skip(loc, i + 1) == if i == loc - 1 then loc + 1 else p + 1;
    }
  }

  lemma RemoveAtShape(name: seq<Entry>, loc: nat, sk: seq<Entry>)
    requires Grouped(name) && loc < |name| - 1 && Renumbered(name, loc, sk, ClosesGap(name, loc))
    ensures SameShape(sk, RemoveAt(name, loc))
  {
    var r := RemoveAt(name, loc);
    assert forall k :: 0 <= k < |r| ==> r[k] == name[Skip(loc, k)];
    forall i, j | 0 <= i < j < |sk| ensures sk[i].rdn == sk[j].rdn <==> r[i].rdn == r[j].rdn {
      if i < loc <= j {
        GroupedMonotone(name, i, loc - 1);
        GroupedMonotone(name, loc + 1, j + 1);
      }
    }
  }

  lemma SameShapeTransitive(a: seq<Entry>, b: seq<Entry>, d: seq<Entry>)
    requires SameShape(a, b) && SameShape(b, d)
    ensures SameShape(a, d)
  {
    forall i, j | 0 <= i < j < |a| ensures a[i].rdn == a[j].rdn <==> d[i].rdn == d[j].rdn {
      assert a[i].rdn == a[j].rdn <==> b[i].rdn == b[j].rdn;
    }
  }

  lemma SameShapeRemove(a: seq<Entry>, b: seq<Entry>, loc: nat)
    requires SameShape(a, b) && loc < |a|
    ensures SameShape(RemoveAt(a, loc), RemoveAt(b, loc))
  {
    var x, y := RemoveAt(a, loc), RemoveAt(b, loc);
    forall i, j | 0 <= i < j < |x| ensures x[i].rdn == x[j].rdn <==> y[i].rdn == y[j].rdn {
      assert a[Skip(loc, i)].rdn == a[Skip(loc, j)].rdn <==> b[Skip(loc, i)].rdn == b[Skip(loc, j)].rdn;
    }
  }

  /** The entries without an object, in order. */
  function Without(name: seq<Entry>, oid: int): seq<Entry> {
    if name == [] then []
    else Without(name[..|name| - 1], oid) + if name[|name| - 1].oid != oid then [name[|name| - 1]] else []
  }

  lemma {:induction false} WithoutKeeps(name: seq<Entry>, oid: int, m: nat, n: nat)
    requires m <= n <= |name| && forall k :: m <= k < n ==> name[k].oid != oid
    ensures Without(name[..n], oid) == Without(name[..m], oid) + name[m..n]
  {
    if m < n {
      assert name[..n][..n - 1] == name[..n - 1];
      WithoutKeeps(name, oid, m, n - 1);
      assert name[m..n] == name[m..n - 1] + [name[n - 1]];
    } else {
      assert name[m..n] == [];
    }
  }

  /** What is left are exactly the entries at the positions without the object, in order. */
  lemma {:induction false} WithoutOrdered(name: seq<Entry>, oid: int) returns (at: seq<nat>)
    ensures Positions(at, |name|) && |Without(name, oid)| == |at|
    ensures forall k :: 0 <= k < |at| ==> Without(name, oid)[k] == name[at[k]]
    ensures forall i :: 0 <= i < |name| ==> (i in at <==> name[i].oid != oid)
  {
    if name == [] {
      at := [];
    } else {
      var n := |name| - 1;
      at := WithoutOrdered(name[..n], oid);
      if name[n].oid != oid { at := at + [n]; }
    }
  }

  /** How far the deletion loop is: the first `m` subject entries have been filtered, and
      `i` is the last place already searched. */
  ghost predicate Filtered(subject: seq<Entry>, email: int, m: int, i: int, kept: seq<Entry>) {
    0 <= m <= |subject| && kept == Without(subject[..m], email) + subject[m..] && |Without(subject[..m], email)| == i + 1
  }

  lemma KeptAt(subject: seq<Entry>, email: int, m: int, i: int, kept: seq<Entry>, k: int)
    requires Filtered(subject, email, m, i, kept) && m <= k < |subject|
    ensures k - m + i + 1 < |kept| && kept[k - m + i + 1] == subject[k]
  {
  }

  lemma NextKept(subject: seq<Entry>, email: int, m: int, i: int, kept: seq<Entry>, j: int)
    requires Filtered(subject, email, m, i, kept) && i < j < |kept|
    requires kept[j].oid == email && forall k :: i < k < j ==> kept[k].oid != email
    ensures var n := m + (j - i - 1);
      n < |subject| && subject[n].oid == email && forall k :: m <= k < n ==> subject[k].oid != email
  {
    var n := m + (j - i - 1);
    KeptAt(subject, email, m, i, kept, n);
    forall k | m <= k < n ensures subject[k].oid != email {
      KeptAt(subject, email, m, i, kept, k);
    }
  }

  lemma DeleteStep(subject: seq<Entry>, email: int, m: int, i: int, kept: seq<Entry>, j: int)
    requires Filtered(subject, email, m, i, kept) && i < j < |kept|
    requires kept[j].oid == email && forall k :: i < k < j ==> kept[k].oid != email
    ensures Filtered(subject, email, m + j - i, j - 1, RemoveAt(kept, j))
  {
    var n := m + (j - i - 1);
    var w := Without(subject[..m], email);
    NextKept(subject, email, m, i, kept, j);
    WithoutKeeps(subject, email, m, n);
    WithoutDrop(subject, email, n);
    RemoveFromTail(w, subject, m, n);
  }

  lemma WithoutDrop(name: seq<Entry>, oid: int, n: nat)
    requires n < |name| && name[n].oid == oid
    ensures Without(name[..n + 1], oid) == Without(name[..n], oid)
  {
    assert name[..n + 1][..n] == name[..n];
  }

  lemma RemoveFromTail(w: seq<Entry>, subject: seq<Entry>, m: nat, n: nat)
    requires m <= n < |subject|
    ensures RemoveAt(w + subject[m..], |w| + n - m) == w + subject[m..n] + subject[n + 1..]
  {
  }

  lemma DeleteDone(subject: seq<Entry>, email: int, m: int, i: int, kept: seq<Entry>)
    requires Filtered(subject, email, m, i, kept) && forall k :: i < k < |kept| ==> kept[k].oid != email
    ensures kept == Without(subject, email)
  {
    forall k | m <= k < |subject| ensures subject[k].oid != email {
      assert kept[k - m + i + 1] == subject[k];
    }
    WithoutKeeps(subject, email, m, |subject|);
    assert subject[..|subject|] == subject && subject[m..|subject|] == subject[m..];
  }

  ghost predicate Deleting(subject: seq<Entry>, email: int, m: int, i: int, kept: seq<Entry>, dn: seq<Entry>) {
    -1 <= i < |dn| && Filtered(subject, email, m, i, kept) && Grouped(dn) && SameShape(dn, kept) &&
    (Gapless(subject) ==> Gapless(dn))
  }

  lemma EmailStep(subject: seq<Entry>, email: int, m: int, i: int, kept: seq<Entry>, dn: seq<Entry>, j: int, dn': seq<Entry>,
    m': int, kept': seq<Entry>)
    requires Deleting(subject, email, m, i, kept, dn) && i < j < |dn|
    requires dn[j].oid == email && forall k :: i < k < j ==> dn[k].oid != email
    requires (Gapless(dn) ==> Gapless(dn')) && Grouped(dn') && SameShape(dn', RemoveAt(dn, j)) && m' == m + j - i && kept' == RemoveAt(kept, j)
    ensures Deleting(subject, email, m', j - 1, kept', dn')
  {
    DeleteStep(subject, email, m, i, kept, j);
    SameShapeRemove(dn, kept, j);
    SameShapeTransitive(dn', RemoveAt(dn, j), RemoveAt(kept, j));
  }

  /** The loop of `do_body` that deletes e-mail addresses from a copy of the subject: what is
      left are the other attributes in order, grouped into RDNs as before. */
  method RemoveEmails(subject: seq<Entry>, email: int) returns (dn: seq<Entry>)
    requires Grouped(subject)
    ensures Grouped(dn) && SameShape(dn, Without(subject, email))
    ensures Gapless(subject) ==> Gapless(dn)
  {
    dn := subject;
    var i := -1;
    ghost var m := 0;
    ghost var kept := subject;
    assert subject[..0] == [] && Without([], email) + subject[0..] == subject;
    while true
      invariant Deleting(subject, email, m, i, kept, dn)
      decreases |dn| - i
    {
      var j := GetIndexByObj(dn, email, i);
      if j < 0 {
        DeleteDone(subject, email, m, i, kept);
        return;
      }
      var sk := DeleteEntry(dn, j);
      ghost var m', kept' := m + j - i, RemoveAt(kept, j);
      EmailStep(subject, email, m, i, kept, dn, j, sk, m', kept');
      kept, m, dn, i := kept', m', sk, j - 1;
    }
  }
}
