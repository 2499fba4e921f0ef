/** What every run of the CA keeps: a database that passes the load-time checks and can be
    indexed is still saved as one that loads, passes the checks and can be indexed. */
module CaInvariants {
  import opened CText
  import opened Serial
  import opened TxtDb
  import opened Revocation
  import opened CaState

  predicate PlainText(s: string) {
    '\n' !in s && '\\' !in s && '\0' !in s
  }

  /** The texts accepted as times and object identifiers contain no newline, backslash or NUL. */
  ghost predicate Sane(c: Checks) {
    forall s :: c.isTime(s) || c.isUtc(s) || c.isGeneralized(s) || c.isOid(s) ==> PlainText(s)
  }

  predicate NoNul(r: Row) {
    '\0' !in r.ty && '\0' !in r.exp && '\0' !in r.rev && '\0' !in r.serial && '\0' !in r.file && '\0' !in r.name
  }

  /** A row that survives saving but for its expiry field, which may be any text. */
  predicate Shaped(r: Row) {
    OddSecond(Fields(r)) && NoNul(r)
  }

  ghost predicate AllShaped(rows: seq<Row>) {
    forall i :: 0 <= i < |rows| ==> Shaped(rows[i])
  }

  ghost predicate AllCanonical(rows: seq<Row>) {
    forall i :: 0 <= i < |rows| ==> Canonical(rows[i].serial)
  }

  /** A certificate as the program sees it: a one-line subject, and a notAfter that is any C
      string. Nothing is said about its being a time. */
  predicate CertClean(k: Cert) {
    '\n' !in k.subject && '\0' !in k.subject && '\0' !in k.notAfter
  }

  /** A clock that prints plain text without a comma, UTCTime or not. */
  predicate ClockClean(now: string) {
    PlainText(now) && ',' !in now
  }

  // ---------- New rows ----------

  lemma {:induction false} ByteHexPlain(n: nat)
    ensures PlainText(ByteHex(n))
  {
    forall ch | ch in ByteHex(n) ensures IsHexDigit(ch) {
    }
  }

  lemma DbSerialPlain(n: int)
    ensures PlainText(DbSerial(n))
  {
    if n < 0 { ByteHexPlain(-n); } else { ByteHexPlain(n); }
  }

  lemma PlainIsStorable(s: string)
    requires PlainText(s)
    ensures '\n' !in s && !EndsInBackslash(s)
  {
    assert s != "" ==> s[|s| - 1] in s;
  }

  lemma ShapedFields(r: Row)
    ensures OddSecond(Fields(r)) <==>
      && '\n' !in r.ty && '\n' !in r.rev && '\n' !in r.serial && '\n' !in r.file && '\n' !in r.name
      && !EndsInBackslash(r.ty) && !EndsInBackslash(r.rev) && !EndsInBackslash(r.serial) && !EndsInBackslash(r.file)
      && (r.ty != "" ==> r.ty[0] != '#')
  {
    var fs := Fields(r);
    assert fs[0] == r.ty && fs[1] == r.exp && fs[2] == r.rev && fs[3] == r.serial && fs[4] == r.file && fs[5] == r.name;
  }

  lemma ShapedStorable(r: Row)
    requires OddSecond(Fields(r)) && PlainText(r.exp)
    ensures Storable(Fields(r))
  {
    PlainIsStorable(r.exp);
    assert Fields(r)[1] == r.exp;
  }

  lemma CertRowShaped(k: Cert)
    requires CertClean(k)
    ensures Shaped(CertRow(k)) && Canonical(CertRow(k).serial)
  {
    DbSerialCanonical(k.serial);
    DbSerialPlain(k.serial);
    PlainIsStorable(DbSerial(k.serial));
    ShapedFields(CertRow(k));
  }

  /** The row added for a certificate passes the load checks exactly when its notAfter is a time,
      which nothing checks before it is added. */
  lemma CertRowLoadsIff(c: Checks, k: Cert)
    ensures RowLoads(c, CertRow(k)) <==> c.isTime(k.notAfter)
  {
    DbSerialRoundTrip(k.serial);
  }

  /** For every row that passes the load checks and every accepted revocation: the revoked row
      passes them again exactly when the current time prints as a UTCTime and the type field
      was not empty (or the empty text were a time). */
  lemma RevokedRowLoadsIff(c: Checks, r: Row, now: string, t: RevType, arg: string)
    requires RowLoads(c, r) && ',' !in now && RevocationText(c, now, t, arg).Some?
    ensures RowLoads(c, SetRevoked(r, RevocationText(c, now, t, arg).value)) <==>
      c.isUtc(now) && (r.ty != "" || c.isTime(""))
  {
    RevocationRoundTrip(c, now, t, arg);
  }

  lemma PlainConcat(a: string, b: string)
    requires PlainText(a) && PlainText(b)
    ensures PlainText(a + b)
  {
  }

  lemma WordsPlain(c: Checks, t: RevType, arg: string)
    requires Sane(c) && Words(c, t, arg).Some?
    ensures PlainText(CommaField(Words(c, t, arg).value.0)) && PlainText(CommaField(Words(c, t, arg).value.1))
  {
    var w := Words(c, t, arg).value;
    if w.0.Some? {
      assert PlainText(w.0.value) by {
        if t == RevCrlReason {
          ReasonPlain(ReasonIndex(arg, REAL_REASONS).value);
        }
      }
      PlainConcat(",", w.0.value);
    }
    if w.1.Some? {
      PlainConcat(",", w.1.value);
    }
  }

  lemma ReasonPlain(i: nat)
    requires i < NUM_REASONS
    ensures PlainText(CRL_REASONS[i])
  {
    ReasonLetters(i);
  }

  lemma RevocationTextPlain(c: Checks, now: string, t: RevType, arg: string)
    requires Sane(c) && PlainText(now) && RevocationText(c, now, t, arg).Some?
    ensures PlainText(RevocationText(c, now, t, arg).value)
  {
    var w := Words(c, t, arg).value;
    WordsPlain(c, t, arg);
    PlainConcat(now, CommaField(w.0));
    PlainConcat(now + CommaField(w.0), CommaField(w.1));
  }

  lemma RevokedRowShaped(c: Checks, r: Row, now: string, t: RevType, arg: string)
    requires Sane(c) && Shaped(r) && ClockClean(now) && RevocationText(c, now, t, arg).Some?
    ensures Shaped(SetRevoked(r, RevocationText(c, now, t, arg).value))
  {
    var text := RevocationText(c, now, t, arg).value;
    RevocationTextPlain(c, now, t, arg);
    PlainIsStorable(text);
    ShapedFields(r);
    ShapedFields(SetRevoked(r, text));
  }

  lemma ExpiredRowShaped(r: Row)
    requires Shaped(r)
    ensures Shaped(r.(ty := "E"))
  {
    ShapedFields(r);
    ShapedFields(r.(ty := "E"));
  }

  // ---------- When a change loads again ----------

  /** A revocation, or an addition as valid, that takes effect: a new row needs a notAfter that is
      a time and, when revoked at once, a UTCTime clock; a row in the database needs the clock and
      a type field that is not empty. */
  predicate RevokeFits(c: Checks, st: DbState, k: Cert, t: RevType, now: string) {
    var at := Find(st.rows, Key(DbSerial(k.serial)));
    if at.None? then c.isTime(k.notAfter) && (t == RevValid || c.isUtc(now))
    else c.isUtc(now) && (st.rows[at.value].ty != "" || c.isTime(""))
  }

  lemma LoadsAppend(c: Checks, rows: seq<Row>, r: Row)
    requires Loads(c, rows)
    ensures Loads(c, rows + [r]) <==> RowLoads(c, r)
  {
    assert (rows + [r])[|rows|] == r;
    assert forall i :: 0 <= i < |rows| ==> (rows + [r])[i] == rows[i];
  }

  lemma LoadsUpdate(c: Checks, rows: seq<Row>, i: nat, r: Row)
    requires Loads(c, rows) && i < |rows|
    ensures Loads(c, rows[i := r]) <==> RowLoads(c, r)
  {
    assert rows[i := r][i] == r;
    assert forall j :: 0 <= j < |rows| && j != i ==> rows[i := r][j] == rows[j];
  }

  /** On every loadable database, for every call that takes effect: the new rows load exactly when
      the call fits. */
  lemma RevokeLoadsIff(c: Checks, st: DbState, k: Cert, t: RevType, arg: string, now: string)
    requires Loads(c, st.rows) && ',' !in now && Revoke(c, st, k, t, arg, now).1
    ensures Loads(c, Revoke(c, st, k, t, arg, now).0.rows) <==> RevokeFits(c, st, k, t, now)
  {
    var at := Find(st.rows, Key(DbSerial(k.serial)));
    if at.None? {
      RevokeAbsent(c, st, k, t, arg, now);
      AddedLoadsIff(c, st.rows, k, t, arg, now);
    } else {
      var text := RevocationText(c, now, t, arg).value;
      RevokedRowLoadsIff(c, st.rows[at.value], now, t, arg);
      LoadsUpdate(c, st.rows, at.value, SetRevoked(st.rows[at.value], text));
    }
  }

  lemma AddedLoadsIff(c: Checks, rows: seq<Row>, k: Cert, t: RevType, arg: string, now: string)
    requires Loads(c, rows) && ',' !in now
    ensures Loads(c, rows + [CertRow(k)]) <==> c.isTime(k.notAfter)
    ensures RevocationText(c, now, t, arg).Some? ==>
      (Loads(c, rows + [SetRevoked(CertRow(k), RevocationText(c, now, t, arg).value)]) <==> c.isTime(k.notAfter) && c.isUtc(now))
  {
    CertRowLoadsIff(c, k);
    LoadsAppend(c, rows, CertRow(k));
    if RevocationText(c, now, t, arg).Some? {
      RevocationRoundTrip(c, now, t, arg);
      LoadsAppend(c, rows, SetRevoked(CertRow(k), RevocationText(c, now, t, arg).value));
    }
  }

  // ---------- Runs ----------

  /** One thing the CA does to its database. `Reopen` saves it, loads the file again with the
      load-time checks, and rebuilds the indexes. */
  datatype Step =
    | Issue(cert: Cert)
    | DoRevoke(cert: Cert, t: RevType, arg: string, now: string)
    | Expire(expired: string -> bool)
    | Reopen(unique: bool)

  /** The expiry of every valid row parses. */
  ghost predicate TimesParse(c: Checks, rows: seq<Row>) {
    forall i :: 0 <= i < |rows| && TypeChar(rows[i]) == 'V' ==> c.isTime(rows[i].exp)
  }

  /** The state after a step; a step that fails is never saved and leaves the state as it was. */
  ghost function Apply(c: Checks, st: DbState, s: Step): DbState {
    match s
    case Issue(k) =>
      var st' := Insert(st, CertRow(k));
      if st'.None? then st else st'.value
    case DoRevoke(k, t, arg, now) =>
      var (st', ok) := Revoke(c, st, k, t, arg, now);
      if ok then st' else st
    case Expire(expired) => if TimesParse(c, st.rows) then st.(rows := ExpireRows(st.rows, expired)) else st
    case Reopen(unique) => Reopened(c, st, unique, ReadRows(WriteRows(st.rows)))
  }

  /** Checks and indexes the rows read from a file, or stays at `st` when that fails. */
  ghost function Reopened(c: Checks, st: DbState, unique: bool, rows: Option<seq<Row>>): DbState {
    if rows.None? || !Loads(c, rows.value) || Index(rows.value, unique).None? then st
    else Index(rows.value, unique).value
  }

  ghost function Run(c: Checks, st: DbState, steps: seq<Step>): DbState
    decreases |steps|
  {
    if steps == [] then st else Run(c, Apply(c, st, steps[0]), steps[1..])
  }

  /** What the outside world is trusted with: C strings, one-line subjects and a clock that prints
      plain text. Whether notAfter is a time or the clock prints a UTCTime is left open. */
  predicate StepClean(s: Step) {
    match s
    case Issue(k) => CertClean(k)
    case DoRevoke(k, _, _, now) => CertClean(k) && ClockClean(now)
    case Expire(_) => true
    case Reopen(_) => true
  }

  /** The step, where it takes effect on this state, adds or leaves rows that load. */
  predicate StepFits(c: Checks, st: DbState, s: Step) {
    match s
    case Issue(k) => Insert(st, CertRow(k)).Some? ==> c.isTime(k.notAfter)
    case DoRevoke(k, t, arg, now) => Revoke(c, st, k, t, arg, now).1 ==> RevokeFits(c, st, k, t, now)
    case Expire(_) => true
    case Reopen(_) => true
  }

  /** Every step of a run fits the state it meets. */
  ghost predicate RunFits(c: Checks, st: DbState, steps: seq<Step>)
    decreases |steps|
  {
    steps == [] || (StepFits(c, st, steps[0]) && RunFits(c, Apply(c, st, steps[0]), steps[1..]))
  }

  /** Rows that are shaped, with canonical serials when `canon` is asked for. */
  ghost predicate Fit(canon: bool, rows: seq<Row>) {
    AllShaped(rows) && (canon ==> AllCanonical(rows))
  }

  lemma FitAppend(canon: bool, rows: seq<Row>, r: Row)
    requires Fit(canon, rows) && Shaped(r) && Canonical(r.serial)
    ensures Fit(canon, rows + [r])
  {
  }

  lemma FitUpdate(canon: bool, rows: seq<Row>, i: nat, r: Row)
    requires Fit(canon, rows) && i < |rows| && Shaped(r) && r.serial == rows[i].serial
    ensures Fit(canon, rows[i := r])
  {
  }

  lemma InsertFit(canon: bool, st: DbState, k: Cert)
    requires Fit(canon, st.rows) && CertClean(k) && Insert(st, CertRow(k)).Some?
    ensures Fit(canon, Insert(st, CertRow(k)).value.rows)
  {
    CertRowShaped(k);
    FitAppend(canon, st.rows, CertRow(k));
  }

  lemma SetRevokedFit(c: Checks, canon: bool, rows: seq<Row>, i: nat, t: RevType, arg: string, now: string)
    requires Sane(c) && Fit(canon, rows) && i < |rows| && ClockClean(now) && RevocationText(c, now, t, arg).Some?
    ensures Fit(canon, rows[i := SetRevoked(rows[i], RevocationText(c, now, t, arg).value)])
  {
    RevokedRowShaped(c, rows[i], now, t, arg);
    FitUpdate(canon, rows, i, SetRevoked(rows[i], RevocationText(c, now, t, arg).value));
  }

  lemma RevokeFit(c: Checks, canon: bool, st: DbState, k: Cert, t: RevType, arg: string, now: string)
    requires Sane(c) && Fit(canon, st.rows) && CertClean(k) && ClockClean(now)
    ensures Fit(canon, Revoke(c, st, k, t, arg, now).0.rows)
  {
    var at := Find(st.rows, Key(DbSerial(k.serial)));
    if at.Some? {
      if RevocationText(c, now, t, arg).Some? { SetRevokedFit(c, canon, st.rows, at.value, t, arg, now); }
    } else {
      RevokeAbsent(c, st, k, t, arg, now);
      CertRowShaped(k);
      FitAppend(canon, st.rows, CertRow(k));
      if RevocationText(c, now, t, arg).Some? {
        RevokedRowShaped(c, CertRow(k), now, t, arg);
        FitAppend(canon, st.rows, SetRevoked(CertRow(k), RevocationText(c, now, t, arg).value));
      }
    }
  }

  lemma ExpireFit(canon: bool, rows: seq<Row>, expired: string -> bool)
    requires Fit(canon, rows)
    ensures Fit(canon, ExpireRows(rows, expired))
  {
    forall i | 0 <= i < |rows|
      ensures Shaped(ExpireRow(rows[i], expired)) && ExpireRow(rows[i], expired).serial == rows[i].serial
    {
      ExpiredRowShaped(rows[i]);
    }
  }

  /** Rows that load are storable: what is accepted as a time is plain. */
  lemma LoadsStorable(c: Checks, rows: seq<Row>)
    requires Sane(c) && AllShaped(rows) && Loads(c, rows)
    ensures forall r :: r in rows ==> Storable(Fields(r))
  {
    forall r | r in rows ensures Storable(Fields(r)) {
      var i :| 0 <= i < |rows| && rows[i] == r;
      ShapedStorable(rows[i]);
    }
  }

  /** A saved file is read back as the rows that were saved, or not at all. */
  lemma SavedReads(rows: seq<Row>)
    requires AllShaped(rows)
    ensures ReadRows(WriteRows(rows)).None? || ReadRows(WriteRows(rows)) == Some(rows)
  {
    forall r | r in rows ensures OddSecond(Fields(r)) {
      var i :| 0 <= i < |rows| && rows[i] == r;
      assert Shaped(rows[i]);
    }
    ReadBackOrRefused(rows);
  }

  /** The saved file is read back as these rows, passes the checks and can be indexed. */
  ghost predicate Reopens(c: Checks, st: DbState) {
    ReadRows(WriteRows(st.rows)) == Some(st.rows) && Loads(c, st.rows) && Index(st.rows, st.unique).Some?
  }

  /** A saved database opens again exactly when its rows load. */
  lemma ReopensIff(c: Checks, st: DbState)
    requires Sane(c) && AllShaped(st.rows) && Indexed(st)
    ensures Reopens(c, st) <==> Loads(c, st.rows)
  {
    if Loads(c, st.rows) {
      LoadsStorable(c, st.rows);
      StorableRoundTrip(st.rows);
      IndexIff(st.rows, st.unique);
      if st.unique { IndexedNamesDistinct(st); }
    }
  }

  lemma ReopenKeeps(c: Checks, st: DbState, unique: bool)
    requires AllShaped(st.rows) && Indexed(st)
    ensures Indexed(Apply(c, st, Reopen(unique))) && Apply(c, st, Reopen(unique)).rows == st.rows
  {
    SavedReads(st.rows);
    IndexIff(st.rows, unique);
  }

  lemma ApplyFit(c: Checks, canon: bool, st: DbState, s: Step)
    requires Sane(c) && Fit(canon, st.rows) && Indexed(st) && StepClean(s)
    ensures Fit(canon, Apply(c, st, s).rows)
  {
    match s {
      case Issue(k) =>
        if Insert(st, CertRow(k)).Some? { InsertFit(canon, st, k); }
      case DoRevoke(k, t, arg, now) => RevokeFit(c, canon, st, k, t, arg, now);
      case Expire(expired) => ExpireFit(canon, st.rows, expired);
      case Reopen(unique) => ReopenKeeps(c, st, unique);
    }
  }

  lemma ApplyIndexed(c: Checks, st: DbState, s: Step)
    requires AllShaped(st.rows) && Indexed(st)
    ensures Indexed(Apply(c, st, s)) && Evolves(st.rows, Apply(c, st, s).rows)
  {
    match s {
      case Issue(k) =>
        if Insert(st, CertRow(k)).Some? { InsertKeeps(st, CertRow(k)); }
      case DoRevoke(k, t, arg, now) => RevokeKeeps(c, st, k, t, arg, now);
      case Expire(expired) => ExpireKeeps(st, expired);
      case Reopen(unique) => ReopenKeeps(c, st, unique);
    }
  }

  // ---------- Loading again ----------

  lemma ExpireLoads(c: Checks, rows: seq<Row>, expired: string -> bool)
    requires Loads(c, rows)
    ensures Loads(c, ExpireRows(rows, expired)) && TimesParse(c, rows)
  {
    forall i | 0 <= i < |rows| ensures RowLoads(c, ExpireRow(rows[i], expired)) {
      assert RowLoads(c, rows[i]);
    }
  }

  /** One step on a database that loads. */
  lemma ApplyLoadsIff(c: Checks, st: DbState, s: Step)
    requires AllShaped(st.rows) && Indexed(st) && Loads(c, st.rows) && StepClean(s)
    ensures Loads(c, Apply(c, st, s).rows) <==> StepFits(c, st, s)
  {
    match s {
      case Issue(k) =>
        CertRowLoadsIff(c, k);
        if Insert(st, CertRow(k)).Some? { LoadsAppend(c, st.rows, CertRow(k)); }
      case DoRevoke(k, t, arg, now) =>
        if Revoke(c, st, k, t, arg, now).1 { RevokeLoadsIff(c, st, k, t, arg, now); }
      case Expire(expired) => ExpireLoads(c, st.rows, expired);
      case Reopen(unique) => ReopenKeeps(c, st, unique);
    }
  }

  /** A row that no later step repairs: typed, with an expiry that is no time, or revoked with a
      text that does not unpack. */
  predicate Bad(c: Checks, r: Row) {
    r.ty != "" && (!c.isTime(r.exp) || (TypeChar(r) == 'R' && Unpack(c, r.rev).None?))
  }

  ghost predicate Broken(c: Checks, rows: seq<Row>) {
    exists i :: 0 <= i < |rows| && Bad(c, rows[i])
  }

  lemma BrokenStays(c: Checks, rows: seq<Row>, rows': seq<Row>)
    requires Broken(c, rows) && Evolves(rows, rows')
    ensures Broken(c, rows') && !Loads(c, rows')
  {
    var i :| 0 <= i < |rows| && Bad(c, rows[i]);
    assert RowEvolves(rows[i], rows'[i]);
    assert Bad(c, rows'[i]);
  }

  /** What does not load after a step from a database that did is a bad row. */
  lemma NewlyBroken(c: Checks, rows: seq<Row>, rows': seq<Row>)
    requires Loads(c, rows) && Evolves(rows, rows') && !Loads(c, rows')
    requires WellAdded(rows, rows')
    ensures Broken(c, rows')
  {
    var i :| 0 <= i < |rows'| && !RowLoads(c, rows'[i]);
    if i < |rows| {
      assert RowEvolves(rows[i], rows'[i]) && RowLoads(c, rows[i]);
    }
    assert Bad(c, rows'[i]);
  }

  /** The rows a step adds: typed, with a serial that loads, and a revocation text only when revoked. */
  ghost predicate WellAdded(rows: seq<Row>, rows': seq<Row>) {
    forall i :: |rows| <= i < |rows'| ==>
      (rows'[i].ty != "" && Loadable(rows'[i].serial) && (TypeChar(rows'[i]) != 'R' ==> rows'[i].rev == ""))
  }

  lemma RevokeAdds(c: Checks, st: DbState, k: Cert, t: RevType, arg: string, now: string)
    ensures WellAdded(st.rows, Revoke(c, st, k, t, arg, now).0.rows)
  {
    DbSerialRoundTrip(k.serial);
    if Find(st.rows, Key(DbSerial(k.serial))).None? { RevokeAbsent(c, st, k, t, arg, now); }
  }

  lemma ApplyAdds(c: Checks, st: DbState, s: Step)
    requires AllShaped(st.rows) && Indexed(st)
    ensures WellAdded(st.rows, Apply(c, st, s).rows)
  {
    match s {
      case Issue(k) => DbSerialRoundTrip(k.serial);
      case DoRevoke(k, t, arg, now) => RevokeAdds(c, st, k, t, arg, now);
      case Expire(expired) =>
      case Reopen(unique) => ReopenKeeps(c, st, unique);
    }
  }

  /** Over every run of clean steps, whatever the certificates and the clock say: the indexes stay
      good, each row only moves from valid to expired or from unrevoked to revoked, canonical
      serials stay canonical, and a saved file is never read back as other rows. The database
      loads at the end, and its file opens again as the same rows, if and only if every step that
      took effect fitted: each certificate added had a notAfter that is a time, and each
      revocation a UTCTime clock and a row with a type. */
  lemma {:induction false} RunKeeps(c: Checks, st: DbState, steps: seq<Step>)
    requires Sane(c) && AllShaped(st.rows) && Indexed(st) && Loads(c, st.rows)
    requires forall s :: s in steps ==> StepClean(s)
    ensures var st' := Run(c, st, steps);
      && Indexed(st') && AllShaped(st'.rows) && Evolves(st.rows, st'.rows)
      && (AllCanonical(st.rows) ==> AllCanonical(st'.rows))
      && (ReadRows(WriteRows(st'.rows)).None? || ReadRows(WriteRows(st'.rows)) == Some(st'.rows))
      && (Loads(c, st'.rows) <==> RunFits(c, st, steps))
      && (Reopens(c, st') <==> RunFits(c, st, steps))
  {
    RunInvariant(c, st, steps);
    RunLoadsIff(c, st, steps);
    SavedReads(Run(c, st, steps).rows);
    ReopensIff(c, Run(c, st, steps));
  }

  lemma {:induction false} RunInvariant(c: Checks, st: DbState, steps: seq<Step>)
    requires Sane(c) && AllShaped(st.rows) && Indexed(st) && forall s :: s in steps ==> StepClean(s)
    ensures var st' := Run(c, st, steps);
      && Indexed(st') && AllShaped(st'.rows) && Evolves(st.rows, st'.rows)
      && (AllCanonical(st.rows) ==> AllCanonical(st'.rows))
    decreases |steps|
  {
    if steps != [] {
      var st1 := Apply(c, st, steps[0]);
      ApplyIndexed(c, st, steps[0]);
      ApplyFit(c, AllCanonical(st.rows), st, steps[0]);
      RunInvariant(c, st1, steps[1..]);
      EvolvesTransitive(st.rows, st1.rows, Run(c, st, steps).rows);
    }
  }

  lemma {:induction false} RunLoadsIff(c: Checks, st: DbState, steps: seq<Step>)
    requires Sane(c) && AllShaped(st.rows) && Indexed(st) && Loads(c, st.rows)
    requires forall s :: s in steps ==> StepClean(s)
    ensures Loads(c, Run(c, st, steps).rows) <==> RunFits(c, st, steps)
    decreases |steps|
  {
    if steps != [] {
      var s, st1 := steps[0], Apply(c, st, steps[0]);
      ApplyIndexed(c, st, s);
      ApplyFit(c, false, st, s);
      ApplyLoadsIff(c, st, s);
      if StepFits(c, st, s) {
        RunLoadsIff(c, st1, steps[1..]);
      } else {
        ApplyAdds(c, st, s);
        NewlyBroken(c, st.rows, st1.rows);
        RunInvariant(c, st1, steps[1..]);
        BrokenStays(c, st1.rows, Run(c, st, steps).rows);
      }
    }
  }

  /** Revocation is final: over every run a revoked row keeps its place and its revocation text. */
  lemma RevokedIsFinal(c: Checks, st: DbState, steps: seq<Step>, i: nat)
    requires Sane(c) && AllShaped(st.rows) && Indexed(st) && forall s :: s in steps ==> StepClean(s)
    requires i < |st.rows| && TypeChar(st.rows[i]) == 'R'
    ensures i < |Run(c, st, steps).rows| && Run(c, st, steps).rows[i] == st.rows[i]
  {
    RunInvariant(c, st, steps);
    assert RowEvolves(st.rows[i], Run(c, st, steps).rows[i]);
  }

  // ---------- Databases that the program breaks ----------

  /** A certificate whose notAfter is no time, added as valid to an empty database: the call
      succeeds and leaves rows that the load check refuses. */
  lemma BadNotAfterBreaksDatabase(c: Checks, bad: string, now: string)
    requires !c.isTime(bad) && ',' !in now
    ensures var st, k := DbState([], map[], false), Cert("/CN=x", 1, bad);
      var (st', ok) := Revoke(c, st, k, RevValid, "", now);
      ok && Loads(c, st.rows) && !Loads(c, st'.rows)
  {
    var st, k := DbState([], map[], false), Cert("/CN=x", 1, bad);
    assert Insert(st, CertRow(k)).Some?;
    RevokeAbsent(c, st, k, RevValid, "", now);
    RevokeLoadsIff(c, st, k, RevValid, "", now);
  }

  /** A row with an empty type passes the load check; revoking it in place puts the NUL on the
      expiry date, and the row is refused, unless the empty text were a time. */
  lemma EmptyTypeBreaksDatabase(c: Checks, exp: string, now: string)
    requires c.isTime(exp) && !c.isTime("") && ',' !in now
    ensures var r := Row("", exp, "", "01", "unknown", "/CN=x");
      RowLoads(c, r) && !RowLoads(c, SetRevoked(r, RevocationText(c, now, RevNone, "").value))
  {
    var r := Row("", exp, "", "01", "unknown", "/CN=x");
    assert Loadable("01");
    RevokedRowLoadsIff(c, r, now, RevNone, "");
  }

  /** A clock past the UTCTime range (a GeneralizedTime text) makes the program save a database
      that its own load check refuses. */
  lemma GeneralizedTimeBreaksDatabase(c: Checks, r: Row)
    requires RowLoads(c, r) && !c.isUtc("20500101000000Z")
    ensures !RowLoads(c, SetRevoked(r, RevocationText(c, "20500101000000Z", RevNone, "").value))
  {
    assert ',' !in "20500101000000Z";
    RevokedRowLoadsIff(c, r, "20500101000000Z", RevNone, "");
  }
}
