/** One invocation of `ca`: load, check and index the database, then expire, issue, make a CRL
    and revoke, saving the database after each part that succeeded. */
module CaMain {
  import opened CText
  import opened Serial
  import opened TxtDb
  import opened Revocation
  import opened CaState
  import opened CaInvariants
  import opened CaReaders
  import opened CrlVersion
  import opened CaHistory
  import opened CaDb
  import P = Policy

  /** The settings of an issuing run, and the library functions it relies on. */
  datatype Config = Config(
    checks: Checks,
    policy: seq<P.Item>,
    oneline: seq<Attr> -> string,                       // X509_NAME_oneline
    caName: seq<P.Entry>,
    selfsign: bool, preserve: bool, emailDn: bool, email: int)

  /** A request, with the outcomes of what happens outside the model: loading and verifying it
      (-1 hard failure, 0 refused, 1 go on), the string checks on its name, building the
      certificate, the operator's answer, and signing. */
  datatype Request = Request(pre: int, name: seq<P.Entry>, nameOk: bool, notAfter: string,
    buildOk: bool, accept: bool, signOk: bool)

  // ---------- One certificate ----------

  /** What the one-line form shows of an entry: object, value, and whether it is joined to the
      entry before it ('+') because both are in one RDN, or starts a new one ('/'). */
  datatype Attr = Attr(oid: int, value: P.Asn1String, joined: bool)

  predicate JoinsPrevious(name: seq<P.Entry>, i: nat)
    requires i < |name|
  {
    i > 0 && name[i - 1].rdn == name[i].rdn
  }

  function Attrs(name: seq<P.Entry>): (r: seq<Attr>)
    ensures |r| == |name| && forall i :: 0 <= i < |name| ==> r[i] == Attr(name[i].oid, name[i].value, JoinsPrevious(name, i))
  {
    seq(|name|, i requires 0 <= i < |name| => Attr(name[i].oid, name[i].value, JoinsPrevious(name, i)))
  }

  function IssuerName(g: Config, q: Request): seq<P.Entry> {
    if g.selfsign then q.name else g.caName
  }

  /** The subject before e-mail removal. */
  function FullSubject(g: Config, q: Request): seq<P.Entry> {
    if g.preserve then q.name else P.AddAll([], P.Selected(g.policy, q.name))
  }

  /** The certificate that a request leads to. */
  function IssuedCert(g: Config, serial: int, q: Request): Cert {
    var s := FullSubject(g, q);
    Cert(g.oneline(Attrs(if g.emailDn then s else P.Without(s, g.email))), serial, q.notAfter)
  }

  /** What `certify` and `do_body` return for a request: -1, 0 or 1. */
  ghost function Outcome(g: Config, st: DbState, serial: int, q: Request): int {
    if q.pre < 0 then -1 else if q.pre == 0 then 0
    else if !q.nameOk || !P.Accepts(g.policy, q.name, IssuerName(g, q)) || !q.buildOk then -1
    else if Insert(st, CertRow(IssuedCert(g, serial, q))).None? then -1
    else if !q.accept then 0
    else if !q.signOk then -1
    else 1
  }

  lemma SubjectGrouped(g: Config, q: Request)
    requires P.Grouped(q.name)
    ensures P.Grouped(FullSubject(g, q))
  {
    P.SubjectEntries(P.Selected(g.policy, q.name));
  }

  lemma ShapeAttrs(a: seq<P.Entry>, b: seq<P.Entry>)
    requires P.SameShape(a, b)
    ensures Attrs(a) == Attrs(b)
  {
  }

  /** The one-line form is told exactly the shape of a name: its attributes, their order and their
      grouping into RDNs. */
  lemma AttrsIff(a: seq<P.Entry>, b: seq<P.Entry>)
    requires P.Grouped(a) && P.Grouped(b)
    ensures Attrs(a) == Attrs(b) <==> P.SameShape(a, b)
  {
    if P.SameShape(a, b) { ShapeAttrs(a, b); }
    if Attrs(a) == Attrs(b) {
      assert |Attrs(a)| == |a| && |Attrs(b)| == |b|;
      forall i | 0 <= i < |a| ensures a[i].oid == b[i].oid && a[i].value == b[i].value {
        assert Attrs(a)[i] == Attrs(b)[i];
      }
      forall i, j | 0 <= i < j < |a| ensures a[i].rdn == a[j].rdn <==> b[i].rdn == b[j].rdn {
        SameGroups(a, b, i, j);
        SameGroups(b, a, i, j);
      }
    }
  }

  lemma SameJoins(a: seq<P.Entry>, b: seq<P.Entry>, j: nat)
    requires Attrs(a) == Attrs(b) && 0 < j < |a|
    ensures |b| == |a| && (a[j - 1].rdn == a[j].rdn <==> b[j - 1].rdn == b[j].rdn)
  {
    assert |Attrs(a)| == |a| && |Attrs(b)| == |b|;
    assert Attrs(a)[j].joined == JoinsPrevious(a, j) && Attrs(b)[j].joined == JoinsPrevious(b, j);
  }

  function Rdns(a: seq<P.Entry>): (r: seq<int>)
    ensures |r| == |a| && forall i :: 0 <= i < |a| ==> r[i] == a[i].rdn
  {
    seq(|a|, i requires 0 <= i < |a| => a[i].rdn)
  }

  /** Numbers that change at the same places. */
  ghost predicate SameChanges(x: seq<int>, y: seq<int>) {
    |x| == |y| && forall k :: 0 < k < |x| ==> (x[k - 1] == x[k] <==> y[k - 1] == y[k])
  }

  ghost predicate Rising(x: seq<int>) {
    forall p, q :: 0 <= p <= q < |x| ==> x[p] <= x[q]
  }

  lemma {:induction false} SameRuns(x: seq<int>, y: seq<int>, i: nat, j: nat)
    requires SameChanges(x, y) && Rising(x) && i <= j < |x|
    ensures x[i] == x[j] ==> y[i] == y[j]
    decreases j
  {
    if i < j { SameRuns(x, y, i, j - 1); }
  }

  lemma SameGroups(a: seq<P.Entry>, b: seq<P.Entry>, i: nat, j: nat)
    requires P.Grouped(a) && Attrs(a) == Attrs(b) && |a| == |b| && i <= j < |a|
    ensures a[i].rdn == a[j].rdn ==> b[i].rdn == b[j].rdn
  {
    var x, y := Rdns(a), Rdns(b);
    forall k | 0 < k < |x| ensures x[k - 1] == x[k] <==> y[k - 1] == y[k] { SameJoins(a, b, k); }
    forall p, q | 0 <= p <= q < |x| ensures x[p] <= x[q] { P.GroupedMonotone(a, p, q); }
    SameRuns(x, y, i, j);
  }

  /** The subject part of `do_body`: policy, then removal of e-mail addresses. */
  method BuildSubject(g: Config, q: Request) returns (subject: Option<string>)
    requires P.Grouped(q.name)
    ensures subject.Some? <==> P.Accepts(g.policy, q.name, IssuerName(g, q))
    ensures subject.Some? ==> subject.value == IssuedCert(g, 0, q).subject
  {
    var built := P.PolicySubject(g.policy, q.name, IssuerName(g, q));
    if built.None? {
      return None;
    }
    var s := if g.preserve then q.name else built.value;
    if !g.emailDn {
      SubjectGrouped(g, q);
      var dn := P.RemoveEmails(s, g.email);
      ShapeAttrs(dn, P.Without(s, g.email));
      s := dn;
    }
    subject := Some(g.oneline(Attrs(s)));
  }

  /** Whose name an issued certificate carries: the whole subject, or what is left of it without
      its e-mail addresses, every other entry in order. */
  lemma IssuedSubject(g: Config, serial: int, q: Request) returns (s: seq<P.Entry>, at: seq<nat>)
    ensures IssuedCert(g, serial, q).subject == g.oneline(Attrs(s)) && IssuedCert(g, serial, q).serial == serial
    ensures g.emailDn ==> s == FullSubject(g, q)
    ensures !g.emailDn ==> P.Positions(at, |FullSubject(g, q)|) && |s| == |at|
    ensures !g.emailDn ==> forall k :: 0 <= k < |at| ==> s[k] == FullSubject(g, q)[at[k]]
    ensures !g.emailDn ==> forall i :: 0 <= i < |FullSubject(g, q)| ==> (i in at <==> FullSubject(g, q)[i].oid != g.email)
  {
    var full := FullSubject(g, q);
    at := P.WithoutOrdered(full, g.email);
    s := if g.emailDn then full else P.Without(full, g.email);
  }

  /** The full subject: the request's own name when it is preserved, else what the policy selects. */
  lemma FullSubjectIs(g: Config, q: Request)
    ensures g.preserve ==> FullSubject(g, q) == q.name
    ensures !g.preserve ==>
      |FullSubject(g, q)| == |P.Selected(g.policy, q.name)| &&
      forall k :: 0 <= k < |FullSubject(g, q)| ==> FullSubject(g, q)[k] == P.Selected(g.policy, q.name)[k].(rdn := k)
  {
    P.SubjectEntries(P.Selected(g.policy, q.name));
  }

  /** What becomes of a request. It is certified exactly when it loads, its name is proper, every
      policy line is met, the certificate can be built, the indexes take its row, the operator
      agrees and signing works. It is passed over, with the run going on, exactly when it was
      refused on loading or by an operator who was asked. Anything else ends the run. */
  lemma OutcomeIff(g: Config, st: DbState, serial: int, q: Request)
    ensures var met := forall i :: 0 <= i < |g.policy| ==> P.LineMet(g.policy[i], q.name, if g.selfsign then q.name else g.caName);
      var asked := q.pre > 0 && q.nameOk && met && q.buildOk && Insert(st, CertRow(IssuedCert(g, serial, q))).Some?;
      && (Outcome(g, st, serial, q) == 1 <==> asked && q.accept && q.signOk)
      && (Outcome(g, st, serial, q) == 0 <==> q.pre == 0 || (asked && !q.accept))
      && Outcome(g, st, serial, q) in {-1, 0, 1}
  {
    P.AcceptsIff(g.policy, q.name, IssuerName(g, q));
  }

  /** `certify` and `do_body`. */
  method Certify(g: Config, db: CaDb, serial: int, q: Request) returns (ok: int, cert: Cert)
    requires db.Valid() && P.Grouped(q.name)
    modifies db`data, db`serials, db`names
    ensures db.Valid()
    ensures ok == Outcome(g, old(db.State()), serial, q)
    ensures ok != 1 ==> db.State() == old(db.State())
    ensures ok == 1 ==> cert == IssuedCert(g, serial, q) && Insert(old(db.State()), CertRow(cert)) == Some(db.State())
  {
    cert := Cert("", serial, q.notAfter);
    if q.pre <= 0 {
      return if q.pre < 0 then -1 else 0, cert;
    }
    var subject := BuildSubject(g, q);
    if !q.nameOk || subject.None? || !q.buildOk {
      return -1, cert;
    }
    cert := cert.(subject := subject.value);
    ok := InsertCert(db, cert, q.accept, q.signOk);
  }

  /** The last part of `do_body`: the clash checks, the question, signing and the insertion. */
  method InsertCert(db: CaDb, cert: Cert, accept: bool, signOk: bool) returns (ok: int)
    requires db.Valid()
    modifies db`data, db`serials, db`names
    ensures db.Valid()
    ensures ok == if Insert(old(db.State()), CertRow(cert)).None? then -1 else if !accept then 0 else if !signOk then -1 else 1
    ensures ok != 1 ==> db.State() == old(db.State())
    ensures ok == 1 ==> Insert(old(db.State()), CertRow(cert)) == Some(db.State())
  {
    var row := CertRow(cert);
    if db.unique && row.name in db.names {
      return -1;
    }
    var at := db.GetBySerial(row.serial);
    if at.Some? {
      return -1;
    }
    if !accept {
      return 0;
    }
    if !signOk {
      return -1;
    }
    var inserted := db.TxtDbInsert(row);
    ok := if inserted then 1 else -1;
  }

  // ---------- A run over requests ----------

  /** What the issue loop leads to: the database, the next serial, the certificates, and whether
      a hard failure ended it. */
  datatype Issued = Issued(st: DbState, serial: int, certs: seq<Cert>, failed: bool)

  /** One more request, unless the run has failed. */
  ghost function IssueStep(g: Config, r: Issued, q: Request): Issued {
    if r.failed then r
    else
      var o := Outcome(g, r.st, r.serial, q);
      if o < 0 then r.(failed := true)
      else if o == 0 then r
      else
        var cert := IssuedCert(g, r.serial, q);
        Issued(Insert(r.st, CertRow(cert)).value, r.serial + 1, r.certs + [cert], false)
  }

  ghost function IssueAll(g: Config, st: DbState, serial: int, qs: seq<Request>): Issued {
    if qs == [] then Issued(st, serial, [], false)
    else IssueStep(g, IssueAll(g, st, serial, qs[..|qs| - 1]), qs[|qs| - 1])
  }

  lemma IssueAllNext(g: Config, st: DbState, serial: int, qs: seq<Request>, n: nat)
    requires n < |qs|
    ensures IssueAll(g, st, serial, qs[..n + 1]) == IssueStep(g, IssueAll(g, st, serial, qs[..n]), qs[n])
  {
    assert qs[..n + 1][..n] == qs[..n];
  }

  function RowsOf(certs: seq<Cert>): (rs: seq<Row>)
    ensures |rs| == |certs| && forall i :: 0 <= i < |certs| ==> rs[i] == CertRow(certs[i])
  {
    seq(|certs|, i requires 0 <= i < |certs| => CertRow(certs[i]))
  }

  /** The run gave consecutive serials from `serial` on, and added exactly the rows of its
      certificates. */
  ghost predicate Consecutive(r: Issued, st: DbState, serial: int) {
    r.serial == serial + |r.certs| &&
    (forall k :: 0 <= k < |r.certs| ==> r.certs[k].serial == serial + k) &&
    r.st.rows == st.rows + RowsOf(r.certs) &&
    Indexed(r.st) && r.st.unique == st.unique
  }

  lemma ConsecutiveAdd(r: Issued, st: DbState, serial: int, cert: Cert)
    requires Consecutive(r, st, serial) && cert.serial == r.serial && Insert(r.st, CertRow(cert)).Some?
    ensures Consecutive(Issued(Insert(r.st, CertRow(cert)).value, r.serial + 1, r.certs + [cert], false), st, serial)
  {
    InsertKeeps(r.st, CertRow(cert));
    assert RowsOf(r.certs + [cert]) == RowsOf(r.certs) + [CertRow(cert)];
  }

  /** Over every run of requests: the certificates take consecutive serials in order, the
      database gains exactly their rows, the next serial is the start plus their number, and
      the indexes stay good (so the serial keys stay distinct). */
  lemma {:induction false} IssueAllConsecutive(g: Config, st: DbState, serial: int, qs: seq<Request>)
    requires Indexed(st)
    ensures Consecutive(IssueAll(g, st, serial, qs), st, serial)
  {
    if qs == [] {
      assert st.rows + RowsOf([]) == st.rows;
    } else {
      var r, q := IssueAll(g, st, serial, qs[..|qs| - 1]), qs[|qs| - 1];
      IssueAllConsecutive(g, st, serial, qs[..|qs| - 1]);
      if !r.failed && Outcome(g, r.st, r.serial, q) > 0 {
        ConsecutiveAdd(r, st, serial, IssuedCert(g, r.serial, q));
      }
    }
  }

  /** A hard failure ends the run: later requests change nothing. */
  lemma {:induction false} FailureIsFinal(g: Config, st: DbState, serial: int, qs: seq<Request>, n: nat)
    requires n <= |qs| && IssueAll(g, st, serial, qs[..n]).failed
    ensures IssueAll(g, st, serial, qs) == IssueAll(g, st, serial, qs[..n])
  {
    if n == |qs| {
      assert qs[..n] == qs;
    } else {
      assert qs[..|qs| - 1][..n] == qs[..n];
      FailureIsFinal(g, st, serial, qs[..|qs| - 1], n);
    }
  }

  /** The notAfter of a request's certificate is a C string. */
  predicate RequestClean(q: Request) {
    '\0' !in q.notAfter
  }

  ghost predicate SubjectsOneLine(g: Config) {
    forall attrs :: '\n' !in g.oneline(attrs) && '\0' !in g.oneline(attrs)
  }

  lemma {:induction false} IssueAllFit(g: Config, canon: bool, st: DbState, serial: int, qs: seq<Request>)
    requires Fit(canon, st.rows) && SubjectsOneLine(g) && forall q :: q in qs ==> RequestClean(q)
    ensures Fit(canon, IssueAll(g, st, serial, qs).st.rows)
  {
    if qs != [] {
      var r, q := IssueAll(g, st, serial, qs[..|qs| - 1]), qs[|qs| - 1];
      IssueAllFit(g, canon, st, serial, qs[..|qs| - 1]);
      assert q in qs;
      if !r.failed && Outcome(g, r.st, r.serial, q) > 0 {
        InsertFit(canon, r.st, IssuedCert(g, r.serial, q));
      }
    }
  }

  /** The certificates all have a notAfter that is a time. */
  ghost predicate AllTimed(c: Checks, certs: seq<Cert>) {
    forall i :: 0 <= i < |certs| ==> c.isTime(certs[i].notAfter)
  }

  /** The rows of issued certificates load exactly when all their notAfters are times, and
      otherwise nothing repairs the database. */
  lemma IssuedLoadsIff(c: Checks, rows: seq<Row>, certs: seq<Cert>)
    requires Loads(c, rows)
    ensures Loads(c, rows + RowsOf(certs)) <==> AllTimed(c, certs)
    ensures !AllTimed(c, certs) ==> Broken(c, rows + RowsOf(certs))
  {
    var all := rows + RowsOf(certs);
    forall i | 0 <= i < |certs| ensures all[|rows| + i] == CertRow(certs[i]) && (RowLoads(c, all[|rows| + i]) <==> c.isTime(certs[i].notAfter)) {
      CertRowLoadsIff(c, certs[i]);
    }
    if AllTimed(c, certs) {
      forall i | 0 <= i < |all| ensures RowLoads(c, all[i]) {
        if i >= |rows| { assert all[|rows| + (i - |rows|)] == all[i]; }
      }
    } else {
      var i :| 0 <= i < |certs| && !c.isTime(certs[i].notAfter);
      assert Bad(c, all[|rows| + i]);
    }
  }

  /** What a turn leads to, from the outcome of the request and the database after it. */
  lemma IssueStepIs(g: Config, r: Issued, q: Request, j: int, cert: Cert, st: DbState)
    requires !r.failed && j == Outcome(g, r.st, r.serial, q) && (j != 1 ==> st == r.st)
    requires j == 1 ==> cert == IssuedCert(g, r.serial, q) && Insert(r.st, CertRow(cert)) == Some(st)
    ensures j in {-1, 0, 1}
    ensures IssueStep(g, r, q) ==
      if j > 0 then Issued(st, r.serial + 1, r.certs + [cert], false) else Issued(st, r.serial, r.certs, j < 0)
  {
  }

  /** One turn of the issue loop: certify, then bump the serial and stack the certificate. */
  method IssueNext(g: Config, db: CaDb, serial: int, certs: seq<Cert>, q: Request)
    returns (j: int, serial': int, certs': seq<Cert>)
    requires db.Valid() && P.Grouped(q.name)
    modifies db`data, db`serials, db`names
    ensures db.Valid()
    ensures Issued(db.State(), serial', certs', j < 0) == IssueStep(g, Issued(old(db.State()), serial, certs, false), q)
    ensures |certs'| == |certs| + if j > 0 then 1 else 0
  {
    serial', certs' := serial, certs;
    ghost var r := Issued(db.State(), serial, certs, false);
    var cert;
    j, cert := Certify(g, db, serial, q);
    IssueStepIs(g, r, q, j, cert, db.State());
    if j > 0 {
      serial' := serial + 1;
      certs' := certs + [cert];
    }
  }

  /** The issue loop of `ca_main`. */
  method IssueLoop(g: Config, db: CaDb, start: int, qs: seq<Request>)
    returns (failed: bool, serial: int, certs: seq<Cert>, total: nat, totalDone: nat)
    requires db.Valid() && forall q :: q in qs ==> P.Grouped(q.name)
    modifies db`data, db`serials, db`names
    ensures db.Valid()
    ensures Issued(db.State(), serial, certs, failed) == IssueAll(g, old(db.State()), start, qs)
    ensures totalDone == |certs| <= total <= |qs| && (!failed ==> total == |qs|)
  {
    ghost var st0 := db.State();
    serial, certs, total, totalDone, failed := start, [], 0, 0, false;
    ghost var r := Issued(st0, start, [], false);
    assert qs[..0] == [];
    while total < |qs| && !failed
      invariant db.Valid() && totalDone == |certs| <= total <= |qs|
      invariant r == Issued(db.State(), serial, certs, failed) && r == IssueAll(g, st0, start, qs[..total])
      decreases |qs| - total
    {
      IssueAllNext(g, st0, start, qs, total);
      var j;
      j, serial, certs := IssueNext(g, db, serial, certs, qs[total]);
      r := IssueStep(g, r, qs[total]);
      total := total + 1;
      if j > 0 {
        totalDone := totalDone + 1;
      }
      failed := j < 0;
    }
    if failed {
      FailureIsFinal(g, st0, start, qs, total);
    } else {
      assert qs[..total] == qs;
    }
  }

  // ---------- The files ----------

  /** A CRL: its entries in row order, and whether it is marked version 2. */
  datatype Crl = Crl(entries: seq<CrlEntry>, v2: bool)

  /** What the files hold: the database, the next serial, the next CRL number and the last CRL. */
  datatype Files = Files(index: string, serial: int, crlNumber: int, crl: Option<Crl>)

  class Disk {
    var index: string
    var serial: int
    var crlNumber: int
    var crl: Option<Crl>

    constructor (f: Files)
      ensures Content() == f
    {
      index, serial, crlNumber, crl := f.index, f.serial, f.crlNumber, f.crl;
    }

    function Content(): Files
      reads this
    {
      Files(index, serial, crlNumber, crl)
    }
  }

  /** What is asked of the CRL part: an extension section, a CRL number file, and whether dates,
      extensions, signing and writing work out. */
  datatype CrlRequest = CrlRequest(ext: bool, numberFile: bool, ok: bool)

  /** What is asked of one invocation; a missing part is not asked for. */
  datatype Options = Options(
    unique: bool,
    updatedb: Option<string -> bool>,          // which expiry dates are not after now
    requests: Option<seq<Request>>,            // in order: spkac, ss_cert, in, then the files
    random: Option<int>,                       // -rand_serial
    serialFile: bool,                          // false when the configuration says rand_serial
    commit: bool, writeOk: bool,               // the operator's answer; writing the certificates
    crl: Option<CrlRequest>,                   // -gencrl
    revoke: Option<(Cert, RevType, string, string)>)   // certificate, kind, argument, time

  /** The file loads, passes the checks and can be indexed. */
  ghost predicate Opens(c: Checks, text: string, unique: bool) {
    ReadRows(text).Some? && Loads(c, ReadRows(text).value) && Index(ReadRows(text).value, unique).Some?
  }

  /** The file reads and its rows pass the load checks. */
  ghost predicate LoadsFile(c: Checks, text: string) {
    ReadRows(text).Some? && Loads(c, ReadRows(text).value)
  }

  lemma ReadCStrings(text: string)
    requires '\0' !in text && ReadRows(text).Some?
    ensures forall i :: 0 <= i < |ReadRows(text).value| ==> NoNul(ReadRows(text).value[i])
  {
    ReadAvoids('\0', text);
    var rows := ReadRows(text).value;
    forall i | 0 <= i < |rows| ensures NoNul(rows[i]) {
      assert rows[i] in rows;
      var fs := Fields(rows[i]);
      assert '\0' !in fs[0] && '\0' !in fs[1] && '\0' !in fs[2] && '\0' !in fs[3] && '\0' !in fs[4] && '\0' !in fs[5];
    }
  }

  lemma ReadShaped(text: string)
    requires '\0' !in text && ReadRows(text).Some?
    ensures AllShaped(ReadRows(text).value)
  {
    ReadCStrings(text);
    ReadStorable(text);
    var rows := ReadRows(text).value;
    forall i | 0 <= i < |rows| ensures Shaped(rows[i]) {
      assert rows[i] in rows;
    }
  }

  ghost function OpenedState(text: string, unique: bool): DbState
    requires ReadRows(text).Some? && Index(ReadRows(text).value, unique).Some?
  {
    Index(ReadRows(text).value, unique).value
  }

  /** Loading: read the file, check the fields, build the indexes. */
  method OpenDb(c: Checks, text: string, unique: bool) returns (db: CaDb?)
    requires '\0' !in text
    ensures db != null <==> Opens(c, text, unique)
    ensures db != null ==> fresh(db) && db.Valid() && db.CStrings() && db.State() == OpenedState(text, unique)
  {
    var rows := TxtDbRead(text);
    if rows.None? {
      return null;
    }
    ReadCStrings(text);
    var d := new CaDb(rows.value, unique);
    var ok := d.CheckFields(c);
    if !ok {
      return null;
    }
    ok := d.IndexIndex();
    return if ok then d else null;
  }

  // ---------- The parts of an invocation ----------

  /** `-updatedb`: saved when some row changed. */
  method UpdatePart(c: Checks, disk: Disk, db: CaDb, expired: string -> bool) returns (ok: bool)
    requires db.Valid()
    modifies db`data, disk`index
    ensures db.Valid()
    ensures ok <==> TimesParse(c, old(db.data))
    ensures !ok ==> disk.index == old(disk.index)
    ensures ok ==> db.State() == old(db.State()).(rows := ExpireRows(old(db.data), expired))
    ensures ok ==> disk.index == if db.data == old(db.data) then old(disk.index) else WriteRows(db.data)
  {
    var cnt := db.DoUpdatedb(c, expired);
    if cnt == -1 {
      return false;
    }
    ChangedNone(old(db.data), db.data);
    if cnt > 0 {
      var text := TxtDbWrite(db.data);
      disk.index := text;
    }
    return true;
  }

  lemma ChangedNone(was: seq<Row>, data: seq<Row>)
    requires |was| == |data|
    ensures |Changed(was, data)| == 0 <==> data == was
  {
    if data != was {
      var i :| 0 <= i < |data| && data[i] != was[i];
      assert i in Changed(was, data);
    } else {
      assert Changed(was, data) == {};
    }
  }

  /** `-revoke` and `-valid`: saved only when `do_revoke` succeeded. */
  method RevokePart(c: Checks, disk: Disk, db: CaDb, k: Cert, t: RevType, arg: string, now: string) returns (ok: bool)
    requires db.Valid()
    modifies db`data, db`serials, db`names, disk`index
    ensures db.Valid()
    ensures (db.State(), ok) == Revoke(c, old(db.State()), k, t, arg, now)
    ensures disk.index == if ok then WriteRows(db.data) else old(disk.index)
  {
    ok := db.DoRevoke(c, k, t, arg, now);
    if ok {
      var text := TxtDbWrite(db.data);
      disk.index := text;
    }
  }

  // ---------- A whole invocation ----------

  /** The database in memory, and the files. */
  datatype World = World(st: DbState, files: Files)

  /** What each part leads to; None where it ends the invocation, with the files as they were. */
  ghost function Updated(g: Config, o: Options, w: World): Option<World> {
    if o.updatedb.None? then Some(w)
    else if !TimesParse(g.checks, w.st.rows) then None
    else
      var rows := ExpireRows(w.st.rows, o.updatedb.value);
      Some(World(w.st.(rows := rows), if rows == w.st.rows then w.files else w.files.(index := WriteRows(rows))))
  }

  ghost function IssuedRun(g: Config, o: Options, w: World): Issued
    requires o.requests.Some?
  {
    IssueAll(g, w.st, if o.random.Some? then o.random.value else w.files.serial, o.requests.value)
  }

  /** Serial and database are saved together, after the operator agreed and the certificates were
      written; a hard failure or a refusal saves nothing. */
  ghost function Committed(o: Options, w: World, r: Issued): Option<World> {
    if r.failed then None
    else if r.certs == [] then Some(w.(st := r.st))
    else if !o.commit || !o.writeOk then None
    else Some(World(r.st, w.files.(index := WriteRows(r.st.rows), serial := if o.serialFile then r.serial else w.files.serial)))
  }

  /** A refusal to commit is not an error. */
  function CommitCode(o: Options, r: Issued): int {
    if !r.failed && r.certs != [] && !o.commit then 0 else 1
  }

  ghost function IssuedWorld(g: Config, o: Options, w: World): Option<World> {
    if o.requests.None? then Some(w) else Committed(o, w, IssuedRun(g, o, w))
  }

  ghost function IssueCode(g: Config, o: Options, w: World): int {
    if o.requests.Some? then CommitCode(o, IssuedRun(g, o, w)) else 1
  }

  /** The CRL of the rows in memory, and the CRL number moved on. */
  ghost function CrlWorld(g: Config, o: Options, w: World): Option<World> {
    if o.crl.None? then Some(w)
    else
      var f := CrlFiles(g.checks, w.st.rows, o.crl.value, w.files);
      if f.None? then None else Some(w.(files := f.value))
  }

  ghost function CrlFiles(c: Checks, rows: seq<Row>, q: CrlRequest, f: Files): Option<Files> {
    if !CrlRowsOk(c, rows) || !q.ok then None
    else
      var es := ScanEntries(c, rows);
      Some(f.(crl := Some(Crl(es, q.ext || q.numberFile || SomeExtension(es))),
              crlNumber := if q.numberFile then f.crlNumber + 1 else f.crlNumber))
  }

  ghost function RevokedWorld(g: Config, o: Options, w: World): Option<World> {
    if o.revoke.None? then Some(w)
    else
      var (k, t, arg, now) := o.revoke.value;
      var (st, ok) := Revoke(g.checks, w.st, k, t, arg, now);
      if ok then Some(World(st, w.files.(index := WriteRows(st.rows)))) else None
  }

  /** The files after an invocation that opened the database, and its exit code. */
  ghost function Invocation(g: Config, o: Options, w: World): (Files, int) {
    var w1 := Updated(g, o, w);
    if w1.None? then (w.files, 1) else AfterUpdate(g, o, w1.value)
  }

  ghost function AfterUpdate(g: Config, o: Options, w: World): (Files, int) {
    var w2 := IssuedWorld(g, o, w);
    if w2.None? then (w.files, IssueCode(g, o, w)) else AfterIssue(g, o, w2.value)
  }

  ghost function AfterIssue(g: Config, o: Options, w: World): (Files, int) {
    var w3 := CrlWorld(g, o, w);
    if w3.None? then (w.files, 1)
    else
      var w4 := RevokedWorld(g, o, w3.value);
      if w4.None? then (w3.value.files, 1) else (w4.value.files, 0)
  }

  ghost function WorldOf(db: CaDb, disk: Disk): World
    reads db, disk
  {
    World(db.State(), disk.Content())
  }

  method DoUpdate(g: Config, disk: Disk, db: CaDb, o: Options) returns (ok: bool)
    requires db.Valid()
    modifies db`data, disk`index
    ensures db.Valid()
    ensures Updated(g, o, old(WorldOf(db, disk))) == if ok then Some(WorldOf(db, disk)) else None
    ensures !ok ==> disk.Content() == old(disk.Content())
  {
    ok := true;
    if o.updatedb.Some? {
      ok := UpdatePart(g.checks, disk, db, o.updatedb.value);
    }
  }

  /** Expiring leaves the revocation fields alone. */
  lemma UpdatedRevs(g: Config, o: Options, w: World, w': World)
    requires Updated(g, o, w) == Some(w') && forall i :: 0 <= i < |w.st.rows| ==> '\0' !in w.st.rows[i].rev
    ensures forall i :: 0 <= i < |w'.st.rows| ==> '\0' !in w'.st.rows[i].rev
  {
  }

  /** The end of the request part, after the issue loop has run. */
  method Commit(disk: Disk, db: CaDb, o: Options, failed: bool, serial: int, certs: seq<Cert>, ghost w: World, ghost r: Issued)
    returns (ok: bool, code: int)
    requires r == Issued(db.State(), serial, certs, failed) && disk.Content() == w.files
    modifies disk`index, disk`serial
    ensures Committed(o, w, r) == if ok then Some(WorldOf(db, disk)) else None
    ensures !ok ==> disk.Content() == old(disk.Content())
    ensures code == CommitCode(o, r)
  {
    code := 1;
    if failed {
      return false, code;
    }
    if |certs| > 0 {
      if !o.commit {
        return false, 0;
      }
      if !o.writeOk {
        return false, code;
      }
      var text := TxtDbWrite(db.data);
      if o.serialFile {
        disk.serial := serial;
      }
      disk.index := text;
    }
    ok := true;
  }

  lemma IssuedCStrings(g: Config, st: DbState, serial: int, qs: seq<Request>)
    requires Indexed(st) && forall i :: 0 <= i < |st.rows| ==> '\0' !in st.rows[i].rev
    ensures var rows := IssueAll(g, st, serial, qs).st.rows; forall i :: 0 <= i < |rows| ==> '\0' !in rows[i].rev
  {
    IssueAllConsecutive(g, st, serial, qs);
  }

  method DoIssue(g: Config, disk: Disk, db: CaDb, o: Options) returns (ok: bool, code: int)
    requires db.Valid() && db.CStrings()
    requires o.requests.Some? ==> forall q :: q in o.requests.value ==> P.Grouped(q.name)
    modifies db`data, db`serials, db`names, disk`index, disk`serial
    ensures db.Valid() && db.CStrings()
    ensures IssuedWorld(g, o, old(WorldOf(db, disk))) == if ok then Some(WorldOf(db, disk)) else None
    ensures !ok ==> disk.Content() == old(disk.Content())
    ensures code == IssueCode(g, o, old(WorldOf(db, disk)))
  {
    ok, code := true, 1;
    if o.requests.Some? {
      ghost var w := WorldOf(db, disk);
      var start := if o.random.Some? then o.random.value else disk.serial;
      IssuedCStrings(g, w.st, start, o.requests.value);
      var failed, serial, certs, total, totalDone := IssueLoop(g, db, start, o.requests.value);
      ghost var r := Issued(db.State(), serial, certs, failed);
      ok, code := Commit(disk, db, o, failed, serial, certs, w, r);
    }
  }

  /** `-gencrl`: the CRL and the CRL number are kept only when everything worked out. */
  method DoCrl(g: Config, disk: Disk, db: CaDb, o: Options) returns (ok: bool)
    requires db.Valid() && db.CStrings()
    modifies disk`crl, disk`crlNumber
    ensures CrlWorld(g, o, old(WorldOf(db, disk))) == if ok then Some(WorldOf(db, disk)) else None
    ensures !ok ==> disk.Content() == old(disk.Content())
  {
    ok := true;
    if o.crl.Some? {
      ok := WriteCrl(g.checks, disk, db, o.crl.value);
    }
  }

  /** The CRL of a database, whether its rows load or not. */
  method ScanDb(c: Checks, db: CaDb, ext: bool, number: Option<int>)
    returns (made: bool, entries: seq<CrlEntry>, v2: bool, next: Option<int>)
    requires db.CStrings()
    ensures made <==> CrlRowsOk(c, db.data)
    ensures made ==> entries == ScanEntries(c, db.data) && (v2 <==> ext || number.Some? || SomeExtension(entries))
    ensures made ==> next == if number.Some? then Some(number.value + 1) else None
  {
    made, entries, v2, next := db.MakeCrl(c, ext, number);
  }

  method WriteCrl(c: Checks, disk: Disk, db: CaDb, q: CrlRequest) returns (ok: bool)
    requires db.CStrings()
    modifies disk`crl, disk`crlNumber
    ensures CrlFiles(c, db.data, q, old(disk.Content())) == if ok then Some(disk.Content()) else None
    ensures !ok ==> disk.Content() == old(disk.Content())
  {
    var number := if q.numberFile then Some(disk.crlNumber) else None;
    var made, entries, v2, next := ScanDb(c, db, q.ext, number);
    ok := made && q.ok;
    CrlFilesAre(c, db.data, q, disk.Content(), made, entries, v2, next);
    if ok {
      disk.crl := Some(Crl(entries, v2));
      if next.Some? { disk.crlNumber := next.value; }
    }
  }

  lemma CrlFilesAre(c: Checks, rows: seq<Row>, q: CrlRequest, f: Files, made: bool, entries: seq<CrlEntry>, v2: bool,
      next: Option<int>)
    requires made <==> CrlRowsOk(c, rows)
    requires made ==> entries == ScanEntries(c, rows) && (v2 <==> q.ext || q.numberFile || SomeExtension(entries))
    requires made ==> next == if q.numberFile then Some(f.crlNumber + 1) else None
    ensures CrlFiles(c, rows, q, f) ==
      if made && q.ok then Some(f.(crl := Some(Crl(entries, v2)), crlNumber := if next.Some? then next.value else f.crlNumber))
      else None
  {
  }

  method DoRevocation(g: Config, disk: Disk, db: CaDb, o: Options) returns (ok: bool)
    requires db.Valid()
    modifies db`data, db`serials, db`names, disk`index
    ensures db.Valid()
    ensures RevokedWorld(g, o, old(WorldOf(db, disk))) == if ok then Some(WorldOf(db, disk)) else None
    ensures !ok ==> disk.Content() == old(disk.Content())
  {
    ok := true;
    if o.revoke.Some? {
      var (k, t, arg, now) := o.revoke.value;
      ok := RevokePart(g.checks, disk, db, k, t, arg, now);
    }
  }

  /** The parts after issuing. */
  method FinishInvocation(g: Config, disk: Disk, db: CaDb, o: Options) returns (ret: int)
    requires db.Valid() && db.CStrings()
    modifies db`data, db`serials, db`names, disk
    ensures (disk.Content(), ret) == AfterIssue(g, o, old(WorldOf(db, disk)))
  {
    ret := 1;
    var ok := DoCrl(g, disk, db, o);
    if !ok {
      return;
    }
    ok := DoRevocation(g, disk, db, o);
    ret := if ok then 0 else 1;
  }

  method IssueAndFinish(g: Config, disk: Disk, db: CaDb, o: Options) returns (ret: int)
    requires db.Valid() && db.CStrings()
    requires o.requests.Some? ==> forall q :: q in o.requests.value ==> P.Grouped(q.name)
    modifies db`data, db`serials, db`names, disk
    ensures (disk.Content(), ret) == AfterUpdate(g, o, old(WorldOf(db, disk)))
  {
    var ok;
    ok, ret := DoIssue(g, disk, db, o);
    if ok {
      ret := FinishInvocation(g, disk, db, o);
    }
  }

  /** One invocation of `ca` that changes the database: the parts that were asked for, in order,
      each on what the one before left, up to the first that fails. A database that does not
      open is left alone. */
  method CaMain(g: Config, disk: Disk, o: Options) returns (ret: int)
    requires '\0' !in disk.index
    requires o.requests.Some? ==> forall q :: q in o.requests.value ==> P.Grouped(q.name)
    modifies disk
    ensures (disk.Content(), ret) == Ran(g, o, old(disk.Content()))
  {
    ret := 1;
    var db := OpenDb(g.checks, disk.index, o.unique);
    if db == null {
      return;
    }
    ghost var w := WorldOf(db, disk);
    var ok := DoUpdate(g, disk, db, o);
    if ok {
      UpdatedRevs(g, o, w, WorldOf(db, disk));
      ret := IssueAndFinish(g, disk, db, o);
    }
  }

  /** The files and the exit code after an invocation on any files. */
  ghost function Ran(g: Config, o: Options, f: Files): (Files, int) {
    if Opens(g.checks, f.index, o.unique) then Invocation(g, o, World(OpenedState(f.index, o.unique), f)) else (f, 1)
  }

  // ---------- What every invocation keeps ----------

  /** What the outside is trusted with: plain texts from the parsers, C strings, one-line subjects
      and a clock that prints plain text. Whether a notAfter is a time or the clock prints a
      UTCTime is left open. */
  ghost predicate InputsClean(g: Config, o: Options) {
    Sane(g.checks) && SubjectsOneLine(g) &&
    (o.requests.Some? ==> forall q :: q in o.requests.value ==> RequestClean(q)) &&
    (o.revoke.Some? ==> CertClean(o.revoke.value.0) && ClockClean(o.revoke.value.3))
  }

  /** The database in memory has the history from `rows0`. */
  ghost predicate Follows(rows0: seq<Row>, st: DbState) {
    Indexed(st) && Evolves(rows0, st.rows) && Fit(AllCanonical(rows0), st.rows)
  }

  /** The file was read as these rows, or these rows were written to it. */
  ghost predicate Synced(w: World) {
    ReadRows(w.files.index) == Some(w.st.rows) || w.files.index == WriteRows(w.st.rows)
  }

  ghost predicate Live(rows0: seq<Row>, w: World) {
    Follows(rows0, w.st) && Synced(w) && '\0' !in w.files.index
  }

  lemma WrittenNoNul(rows: seq<Row>)
    requires AllShaped(rows)
    ensures '\0' !in WriteRows(rows)
  {
    forall r | r in rows ensures Avoids('\0', Fields(r)) {
      var i :| 0 <= i < |rows| && rows[i] == r;
      assert Shaped(rows[i]);
    }
    WriteAvoids('\0', rows);
  }

  /** The file of a live database is never read as other rows, and loads exactly when they do. */
  lemma FileLoadsIff(c: Checks, rows0: seq<Row>, w: World)
    requires Sane(c) && Live(rows0, w)
    ensures LoadsFile(c, w.files.index) <==> Loads(c, w.st.rows)
    ensures ReadRows(w.files.index).Some? ==> ReadRows(w.files.index).value == w.st.rows
  {
    SavedReads(w.st.rows);
    ReopensIff(c, w.st);
  }

  lemma UpdatedLive(g: Config, o: Options, rows0: seq<Row>, w: World, w': World)
    requires Live(rows0, w) && Updated(g, o, w) == Some(w')
    ensures Live(rows0, w') && w'.st.unique == w.st.unique && Evolves(w.st.rows, w'.st.rows)
    ensures Loads(g.checks, w.st.rows) ==> Loads(g.checks, w'.st.rows)
  {
    if o.updatedb.Some? {
      ExpireKeeps(w.st, o.updatedb.value);
      ExpireFit(AllCanonical(rows0), w.st.rows, o.updatedb.value);
      EvolvesTransitive(rows0, w.st.rows, w'.st.rows);
      WrittenNoNul(w'.st.rows);
      if Loads(g.checks, w.st.rows) { ExpireLoads(g.checks, w.st.rows, o.updatedb.value); }
    }
  }

  /** What the issue part does to rows that load. */
  ghost predicate IssueFits(g: Config, o: Options, w: World) {
    o.requests.Some? ==> AllTimed(g.checks, IssuedRun(g, o, w).certs)
  }

  lemma IssuedLive(g: Config, o: Options, rows0: seq<Row>, w: World, w': World)
    requires Live(rows0, w) && InputsClean(g, o) && IssuedWorld(g, o, w) == Some(w')
    ensures Live(rows0, w') && w'.st.unique == w.st.unique && Evolves(w.st.rows, w'.st.rows)
  {
    if o.requests.Some? {
      var start := if o.random.Some? then o.random.value else w.files.serial;
      IssueAllConsecutive(g, w.st, start, o.requests.value);
      IssueAllFit(g, AllCanonical(rows0), w.st, start, o.requests.value);
      EvolvesTransitive(rows0, w.st.rows, w'.st.rows);
      WrittenNoNul(w'.st.rows);
      if IssuedRun(g, o, w).certs == [] { EmptyRun(g, w.st, start, o.requests.value); }
    }
  }

  lemma IssuedWorldLoadsIff(g: Config, o: Options, w: World, w': World)
    requires Indexed(w.st) && Loads(g.checks, w.st.rows) && IssuedWorld(g, o, w) == Some(w')
    ensures Loads(g.checks, w'.st.rows) <==> IssueFits(g, o, w)
    ensures !IssueFits(g, o, w) ==> Broken(g.checks, w'.st.rows)
  {
    if o.requests.Some? {
      IssueAllConsecutive(g, w.st, if o.random.Some? then o.random.value else w.files.serial, o.requests.value);
      IssuedLoadsIff(g.checks, w.st.rows, IssuedRun(g, o, w).certs);
    }
  }

  lemma EmptyRun(g: Config, st: DbState, serial: int, qs: seq<Request>)
    requires Indexed(st) && IssueAll(g, st, serial, qs).certs == []
    ensures IssueAll(g, st, serial, qs).st.rows == st.rows
  {
    IssueAllConsecutive(g, st, serial, qs);
    assert RowsOf([]) == [];
  }

  lemma RevokedLive(g: Config, o: Options, rows0: seq<Row>, w: World, w': World)
    requires Live(rows0, w) && InputsClean(g, o) && RevokedWorld(g, o, w) == Some(w')
    ensures Live(rows0, w') && w'.st.unique == w.st.unique && Evolves(w.st.rows, w'.st.rows)
  {
    if o.revoke.Some? {
      var (k, t, arg, now) := o.revoke.value;
      RevokeKeeps(g.checks, w.st, k, t, arg, now);
      RevokeFit(g.checks, AllCanonical(rows0), w.st, k, t, arg, now);
      EvolvesTransitive(rows0, w.st.rows, w'.st.rows);
      WrittenNoNul(w'.st.rows);
    }
  }

  /** What the revocation part does to rows that load. */
  ghost predicate RevocationFits(g: Config, o: Options, w: World) {
    o.revoke.Some? && RevokedWorld(g, o, w).Some? ==>
      RevokeFits(g.checks, w.st, o.revoke.value.0, o.revoke.value.1, o.revoke.value.3)
  }

  lemma RevokedWorldLoadsIff(g: Config, o: Options, w: World, w': World)
    requires Loads(g.checks, w.st.rows) && InputsClean(g, o) && RevokedWorld(g, o, w) == Some(w')
    ensures Loads(g.checks, w'.st.rows) <==> RevocationFits(g, o, w)
  {
    if o.revoke.Some? {
      var (k, t, arg, now) := o.revoke.value;
      RevokeLoadsIff(g.checks, w.st, k, t, arg, now);
    }
  }

  // ---------- The world an invocation leaves ----------

  /** The world after the last part that succeeded: the files are then as the invocation leaves
      them. */
  ghost function Reached(g: Config, o: Options, w: World): World {
    var w1 := Updated(g, o, w);
    if w1.None? then w else ReachedIssue(g, o, w1.value)
  }

  ghost function ReachedIssue(g: Config, o: Options, w: World): World {
    var w2 := IssuedWorld(g, o, w);
    if w2.None? then w else ReachedEnd(g, o, w2.value)
  }

  ghost function ReachedEnd(g: Config, o: Options, w: World): World {
    var w3 := CrlWorld(g, o, w);
    if w3.None? then w
    else if RevokedWorld(g, o, w3.value).None? then w3.value
    else RevokedWorld(g, o, w3.value).value
  }

  lemma ReachedFiles(g: Config, o: Options, w: World)
    ensures Invocation(g, o, w).0 == Reached(g, o, w).files
  {
  }

  /** The parts that take effect add or leave rows that load: certificates with a notAfter that is
      a time, and a revocation that fits the row it meets. */
  ghost predicate CallFits(g: Config, o: Options, w: World) {
    var w1 := Updated(g, o, w);
    w1.Some? ==>
      var w2 := IssuedWorld(g, o, w1.value);
      w2.Some? ==> IssueFits(g, o, w1.value) && EndFits(g, o, w2.value)
  }

  ghost predicate EndFits(g: Config, o: Options, w: World) {
    CrlWorld(g, o, w).Some? ==> RevocationFits(g, o, CrlWorld(g, o, w).value)
  }

  lemma EndLive(g: Config, o: Options, rows0: seq<Row>, w: World)
    requires Live(rows0, w) && InputsClean(g, o)
    ensures var e := ReachedEnd(g, o, w);
      Live(rows0, e) && e.st.unique == w.st.unique && Evolves(w.st.rows, e.st.rows)
    ensures Loads(g.checks, w.st.rows) ==> (Loads(g.checks, ReachedEnd(g, o, w).st.rows) <==> EndFits(g, o, w))
  {
    EvolvesSelf(w.st.rows);
    if CrlWorld(g, o, w).Some? {
      var w3 := CrlWorld(g, o, w).value;
      CrlKeeps(g, o, w, w3);
      RevocationLive(g, o, rows0, w3);
    }
  }

  lemma EvolvesSelf(rows: seq<Row>)
    ensures Evolves(rows, rows)
  {
  }

  /** The CRL part leaves the database alone. */
  lemma CrlKeeps(g: Config, o: Options, w: World, w3: World)
    requires CrlWorld(g, o, w) == Some(w3)
    ensures w3.st == w.st && w3.files.index == w.files.index
    ensures o.crl.Some? ==> CrlRowsOk(g.checks, w.st.rows) && w3.files.crl.Some? && w3.files.crl.value.entries == ScanEntries(g.checks, w.st.rows)
  {
  }

  lemma RevocationLive(g: Config, o: Options, rows0: seq<Row>, w3: World)
    requires Live(rows0, w3) && InputsClean(g, o)
    ensures var e := if RevokedWorld(g, o, w3).None? then w3 else RevokedWorld(g, o, w3).value;
      && Live(rows0, e) && e.st.unique == w3.st.unique && Evolves(w3.st.rows, e.st.rows) && e.files.crl == w3.files.crl
      && (Loads(g.checks, w3.st.rows) ==> (Loads(g.checks, e.st.rows) <==> RevocationFits(g, o, w3)))
      && (o.revoke.None? ==> e == w3)
  {
    EvolvesSelf(w3.st.rows);
    if RevokedWorld(g, o, w3).Some? {
      var w4 := RevokedWorld(g, o, w3).value;
      RevokedLive(g, o, rows0, w3, w4);
      if Loads(g.checks, w3.st.rows) { RevokedWorldLoadsIff(g, o, w3, w4); }
    }
  }

  lemma IssueEndLive(g: Config, o: Options, rows0: seq<Row>, w: World)
    requires Live(rows0, w) && InputsClean(g, o) && Loads(g.checks, w.st.rows)
    ensures var e := ReachedIssue(g, o, w);
      && Live(rows0, e) && e.st.unique == w.st.unique
      && (Loads(g.checks, e.st.rows) <==>
          (IssuedWorld(g, o, w).Some? ==> IssueFits(g, o, w) && EndFits(g, o, IssuedWorld(g, o, w).value)))
  {
    var w2 := IssuedWorld(g, o, w);
    if w2.Some? {
      IssuedLive(g, o, rows0, w, w2.value);
      IssuedWorldLoadsIff(g, o, w, w2.value);
      EndLive(g, o, rows0, w2.value);
      if !IssueFits(g, o, w) { BrokenStays(g.checks, w2.value.st.rows, ReachedEnd(g, o, w2.value).st.rows); }
    }
  }

  lemma ReachedLive(g: Config, o: Options, rows0: seq<Row>, w: World)
    requires Live(rows0, w) && InputsClean(g, o) && Loads(g.checks, w.st.rows)
    ensures Live(rows0, Reached(g, o, w)) && Reached(g, o, w).st.unique == w.st.unique
    ensures Loads(g.checks, Reached(g, o, w).st.rows) <==> CallFits(g, o, w)
  {
    var w1 := Updated(g, o, w);
    if w1.Some? {
      UpdatedLive(g, o, rows0, w, w1.value);
      IssueEndLive(g, o, rows0, w1.value);
    }
  }

  ghost function Opened(o: Options, f: Files): World
    requires ReadRows(f.index).Some? && Index(ReadRows(f.index).value, o.unique).Some?
  {
    World(OpenedState(f.index, o.unique), f)
  }

  lemma OpenedLive(g: Config, o: Options, f: Files)
    requires '\0' !in f.index && Opens(g.checks, f.index, o.unique)
    ensures Live(ReadRows(f.index).value, Opened(o, f)) && Loads(g.checks, Opened(o, f).st.rows)
    ensures Opened(o, f).st.unique == o.unique
  {
    ReadShaped(f.index);
    IndexIff(ReadRows(f.index).value, o.unique);
  }

  /** The file holds the rows of `rows0`, each as it was or moved on, all of them passing the load
      checks and indexable, with canonical serials if they were canonical. */
  ghost predicate Keeps(c: Checks, unique: bool, rows0: seq<Row>, text: string) {
    '\0' !in text && Opens(c, text, unique) &&
    var rows := ReadRows(text).value;
    Evolves(rows0, rows) && Fit(AllCanonical(rows0), rows)
  }

  /** However an invocation on a database that opens ends: its file is never read as rows other
      than the old ones moved forward and new ones after them, and it opens again, keeping its
      history, if and only if the call fitted. */
  lemma InvocationKeeps(g: Config, o: Options, f: Files)
    requires '\0' !in f.index && Opens(g.checks, f.index, o.unique) && InputsClean(g, o)
    ensures var text := Ran(g, o, f).0.index;
      && (LoadsFile(g.checks, text) <==> CallFits(g, o, Opened(o, f)))
      && (LoadsFile(g.checks, text) ==> Keeps(g.checks, o.unique, ReadRows(f.index).value, text))
      && (ReadRows(text).Some? ==> Evolves(ReadRows(f.index).value, ReadRows(text).value))
  {
    var rows0, w := ReadRows(f.index).value, Opened(o, f);
    OpenedLive(g, o, f);
    ReachedFiles(g, o, w);
    ReachedLive(g, o, rows0, w);
    var e := Reached(g, o, w);
    FileLoadsIff(g.checks, rows0, e);
    if Loads(g.checks, e.st.rows) { ReopensIff(g.checks, e.st); }
  }

  /** What a committed issue run saves: exactly one row per certificate, in order, and the first
      serial that was not used. */
  lemma CommitSaves(g: Config, o: Options, w: World)
    requires Indexed(w.st) && o.requests.Some? && IssuedWorld(g, o, w).Some?
    ensures var r, w', start := IssuedRun(g, o, w), IssuedWorld(g, o, w).value, if o.random.Some? then o.random.value else w.files.serial;
      && w'.st.rows == w.st.rows + RowsOf(r.certs)
      && (forall i :: 0 <= i < |r.certs| ==> r.certs[i].serial == start + i)
      && (r.certs == [] ==> w'.files == w.files)
      && (r.certs != [] ==> w'.files.index == WriteRows(w.st.rows + RowsOf(r.certs)))
      && (r.certs != [] && o.serialFile ==> w'.files.serial == start + |r.certs|)
  {
    IssueAllConsecutive(g, w.st, if o.random.Some? then o.random.value else w.files.serial, o.requests.value);
  }

  /** `-valid` with a certificate whose notAfter is no time, on an empty database: the invocation
      reports success and leaves a file that does not open. */
  lemma ValidBreaksFile(g: Config, o: Options, f: Files, bad: string, now: string)
    requires Sane(g.checks) && SubjectsOneLine(g) && !g.checks.isTime(bad) && '\0' !in bad && ClockClean(now)
    requires f.index == "" && !o.unique && o.updatedb.None? && o.requests.None? && o.crl.None?
    requires o.revoke == Some((Cert("/CN=x", 1, bad), RevValid, "", now))
    ensures Opens(g.checks, f.index, o.unique) && Ran(g, o, f).1 == 0 && !LoadsFile(g.checks, Ran(g, o, f).0.index)
  {
    IndexOfAbsent("", '\n');
    assert ReadRows(f.index) == Some([]);
    IndexIff([], false);
    var w, k := Opened(o, f), Cert("/CN=x", 1, bad);
    assert w.st.rows == [] && !w.st.unique;
    assert Insert(w.st, CertRow(k)).Some?;
    RevokeAbsent(g.checks, w.st, k, RevValid, "", now);
    InvocationKeeps(g, o, f);
  }

  /** The commit of an issue run: refused by the operator it exits with 0, and otherwise a part that
      ends the invocation exits with 1; in both cases nothing is saved. */
  lemma CommitOutcomes(g: Config, o: Options, w: World)
    requires o.requests.Some?
    ensures var r := IssuedRun(g, o, w);
      && (IssuedWorld(g, o, w).None? <==> r.failed || (r.certs != [] && (!o.commit || !o.writeOk)))
      && (IssuedWorld(g, o, w).None? ==> AfterUpdate(g, o, w) == (w.files, if !r.failed && !o.commit then 0 else 1))
  {
  }

  /** A written CRL is marked version 2 exactly when an extension section or a CRL number file is
      used or some revoked row has a reason; the CRL number then moves on by one. */
  lemma WrittenCrlVersion(g: Config, o: Options, w: World)
    requires Loads(g.checks, w.st.rows) && o.crl.Some? && CrlWorld(g, o, w).Some?
    ensures var f, q := CrlWorld(g, o, w).value.files, o.crl.value;
      && f.crl.Some? && f.crl.value.entries == CrlOf(g.checks, w.st.rows)
      && (f.crl.value.v2 <==> q.ext || q.numberFile || SomeReason(Items(g.checks, w.st.rows)))
      && f.crlNumber == (if q.numberFile then w.files.crlNumber + 1 else w.files.crlNumber)
      && f.index == w.files.index && f.serial == w.files.serial
  {
    ScanIsCrl(g.checks, w.st.rows);
    CrlExtensionIff(g.checks, w.st.rows);
  }

  // ---------- Many invocations ----------

  /** Invocations one after the other on the same files, each with its own configuration. */
  ghost function RanAll(calls: seq<(Config, Options)>, f: Files): Files {
    if calls == [] then f
    else
      var (g, o) := calls[|calls| - 1];
      Ran(g, o, RanAll(calls[..|calls| - 1], f)).0
  }

  /** A call fits the files it meets; one that does not open the database changes nothing. */
  ghost predicate FitsOn(g: Config, o: Options, f: Files) {
    Opens(g.checks, f.index, o.unique) ==> CallFits(g, o, Opened(o, f))
  }

  ghost predicate AllFitOn(calls: seq<(Config, Options)>, f: Files) {
    calls == [] ||
    (AllFitOn(calls[..|calls| - 1], f) &&
     FitsOn(calls[|calls| - 1].0, calls[|calls| - 1].1, RanAll(calls[..|calls| - 1], f)))
  }

  ghost predicate CallsClean(c: Checks, calls: seq<(Config, Options)>) {
    forall k :: k in calls ==> k.0.checks == c && InputsClean(k.0, k.1)
  }

  /** The file loads and holds the rows of `rows0`, each as it was or moved on. */
  ghost predicate History(c: Checks, rows0: seq<Row>, text: string) {
    '\0' !in text && LoadsFile(c, text) &&
    var rows := ReadRows(text).value;
    Evolves(rows0, rows) && (AllCanonical(rows0) ==> AllCanonical(rows)) && DistinctKeys(rows)
  }

  lemma RanKeepsHistory(g: Config, o: Options, rows0: seq<Row>, f: Files)
    requires History(g.checks, rows0, f.index) && InputsClean(g, o)
    ensures LoadsFile(g.checks, Ran(g, o, f).0.index) <==> FitsOn(g, o, f)
    ensures FitsOn(g, o, f) ==> History(g.checks, rows0, Ran(g, o, f).0.index)
  {
    if Opens(g.checks, f.index, o.unique) {
      InvocationKeeps(g, o, f);
      if FitsOn(g, o, f) {
        var rows1, rows2 := ReadRows(f.index).value, ReadRows(Ran(g, o, f).0.index).value;
        EvolvesTransitive(rows0, rows1, rows2);
        IndexIff(rows2, o.unique);
      }
    }
  }

  /** Over any sequence of invocations, whichever of them fail: at the end the file loads, with its
      whole history, if and only if every call fitted the files it met. A file that no longer
      loads is left alone by every later call. */
  lemma {:induction false} InvocationsKeep(c: Checks, calls: seq<(Config, Options)>, rows0: seq<Row>, f: Files)
    requires History(c, rows0, f.index) && CallsClean(c, calls)
    ensures LoadsFile(c, RanAll(calls, f).index) <==> AllFitOn(calls, f)
    ensures AllFitOn(calls, f) ==> History(c, rows0, RanAll(calls, f).index)
    decreases |calls|
  {
    if calls != [] {
      var init, k := calls[..|calls| - 1], calls[|calls| - 1];
      assert k in calls;
      InvocationsKeep(c, init, rows0, f);
      if AllFitOn(init, f) { RanKeepsHistory(k.0, k.1, rows0, RanAll(init, f)); }
    }
  }

  /** The three readers of the file that any sequence of fitting invocations leaves, when they
      started from one with canonical serials, such as an empty one. */
  lemma ReadersAgreeOnFile(c: Checks, calls: seq<(Config, Options)>, rows0: seq<Row>, f: Files, q: string)
    requires History(c, rows0, f.index) && AllCanonical(rows0) && Spelling(q) && CallsClean(c, calls)
    ensures LoadsFile(c, RanAll(calls, f).index) <==> AllFitOn(calls, f)
    ensures AllFitOn(calls, f) ==>
      var rows := ReadRows(RanAll(calls, f).index).value;
      && Agree(c, rows)
      && ((StatusOf(rows, q) == StatusRevoked <==> Listed(CrlOf(c, rows), SpelledNumber(q)) != []) <==>
          StatusFinds(q) || Listed(CrlOf(c, rows), SpelledNumber(q)) == [])
  {
    InvocationsKeep(c, calls, rows0, f);
    if AllFitOn(calls, f) { CanonicalReaders(c, ReadRows(RanAll(calls, f).index).value, q); }
  }

  // ---------- The CRL that is written ----------

  /** The world in which an invocation comes to the CRL part, if it does. */
  ghost function BeforeCrl(g: Config, o: Options, f: Files): Option<World> {
    if !Opens(g.checks, f.index, o.unique) then None
    else
      var w1 := Updated(g, o, Opened(o, f));
      if w1.None? then None else IssuedWorld(g, o, w1.value)
  }

  /** The invocation writes a CRL. */
  ghost predicate WritesCrl(g: Config, o: Options, f: Files) {
    o.crl.Some? && BeforeCrl(g, o, f).Some? && CrlWorld(g, o, BeforeCrl(g, o, f).value).Some?
  }

  /** What an invocation that writes a CRL leaves: the CRL is that of the rows at that point, and
      the rows in the file are those, moved on by a revocation at most. */
  lemma CrlIsOfRows(g: Config, o: Options, f: Files)
    requires '\0' !in f.index && InputsClean(g, o) && WritesCrl(g, o, f) && LoadsFile(g.checks, Ran(g, o, f).0.index)
    ensures var rows, f' := BeforeCrl(g, o, f).value.st.rows, Ran(g, o, f).0;
      && Loads(g.checks, rows) && DistinctKeys(rows) && f'.crl.Some? && f'.crl.value.entries == CrlOf(g.checks, rows)
      && Evolves(ReadRows(f.index).value, rows) && Evolves(rows, ReadRows(f'.index).value)
      && (AllCanonical(ReadRows(f.index).value) ==> AllCanonical(rows))
      && (o.revoke.None? ==> ReadRows(f'.index).value == rows)
  {
    var rows0, w2 := ReadRows(f.index).value, BeforeCrl(g, o, f).value;
    InvocationKeeps(g, o, f);
    BeforeCrlLive(g, o, f);
    CrlLeft(g, o, rows0, w2);
    FileLoadsIff(g.checks, rows0, ReachedEnd(g, o, w2));
  }

  /** The world before the CRL part; what the invocation leaves is reached from it. */
  lemma BeforeCrlLive(g: Config, o: Options, f: Files)
    requires '\0' !in f.index && InputsClean(g, o) && BeforeCrl(g, o, f).Some?
    ensures var w2 := BeforeCrl(g, o, f).value;
      && Live(ReadRows(f.index).value, w2) && Ran(g, o, f).0 == ReachedEnd(g, o, w2).files
      && (CallFits(g, o, Opened(o, f)) ==> Loads(g.checks, w2.st.rows))
  {
    var rows0, w := ReadRows(f.index).value, Opened(o, f);
    OpenedLive(g, o, f);
    var w1 := Updated(g, o, w).value;
    UpdatedLive(g, o, rows0, w, w1);
    var w2 := IssuedWorld(g, o, w1).value;
    IssuedLive(g, o, rows0, w1, w2);
    IssuedWorldLoadsIff(g, o, w1, w2);
    ReachedFiles(g, o, w);
  }

  lemma CrlLeft(g: Config, o: Options, rows0: seq<Row>, w: World)
    requires Live(rows0, w) && InputsClean(g, o) && Loads(g.checks, w.st.rows) && o.crl.Some? && CrlWorld(g, o, w).Some?
    ensures var e := ReachedEnd(g, o, w);
      && Live(rows0, e) && e.files.crl.Some? && e.files.crl.value.entries == CrlOf(g.checks, w.st.rows)
      && Evolves(w.st.rows, e.st.rows) && (o.revoke.None? ==> e.st == w.st)
  {
    var w3 := CrlWorld(g, o, w).value;
    CrlKeeps(g, o, w, w3);
    ScanIsCrl(g.checks, w.st.rows);
    RevocationLive(g, o, rows0, w3);
  }

  /** An invocation that writes a CRL and revokes nothing leaves a CRL that lists, for every
      number, exactly what the responder answers from the database file it leaves. */
  lemma WrittenCrlAgrees(g: Config, o: Options, f: Files, n: int)
    requires '\0' !in f.index && InputsClean(g, o) && WritesCrl(g, o, f) && o.revoke.None?
    requires LoadsFile(g.checks, Ran(g, o, f).0.index) && AllCanonical(ReadRows(f.index).value)
    ensures var f' := Ran(g, o, f).0;
      f'.crl.Some? && Listed(f'.crl.value.entries, n) == OcspRevoked(OcspAnswer(g.checks, ReadRows(f'.index).value, n))
  {
    CrlIsOfRows(g, o, f);
    AgreeAt(g.checks, ReadRows(Ran(g, o, f).0.index).value, n);
  }

  /** What a written CRL lists stays listed, with the same data, in the CRL of the file after any
      sequence of later invocations. */
  lemma ListedForGood(c: Checks, g: Config, o: Options, f: Files, calls: seq<(Config, Options)>, n: int)
    requires ReadRows(f.index).Some? && History(c, ReadRows(f.index).value, f.index) && AllCanonical(ReadRows(f.index).value)
    requires g.checks == c && InputsClean(g, o) && CallsClean(c, calls) && WritesCrl(g, o, f)
    requires FitsOn(g, o, f) && AllFitOn(calls, Ran(g, o, f).0)
    ensures var f', end := Ran(g, o, f).0, RanAll(calls, Ran(g, o, f).0);
      && f'.crl.Some? && LoadsFile(c, end.index)
      && (Listed(f'.crl.value.entries, n) != [] ==>
          Listed(CrlOf(c, ReadRows(end.index).value), n) == Listed(f'.crl.value.entries, n))
  {
    var f' := Ran(g, o, f).0;
    RanKeepsHistory(g, o, ReadRows(f.index).value, f);
    CrlIsOfRows(g, o, f);
    var rows := BeforeCrl(g, o, f).value.st.rows;
    InvocationsKeep(c, calls, rows, f');
    ListedStays(c, rows, ReadRows(RanAll(calls, f').index).value, n);
  }
}
