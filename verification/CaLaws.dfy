/** What the operations on the CA database mean to its readers, in terms of the options given, the
    fields of the rows and the entries and answers that are read. */
module CaLaws {
  import opened CText
  import opened Serial
  import opened TxtDb
  import opened Revocation
  import opened CaState
  import opened CaInvariants
  import opened CaReaders

  // ---------- Reasons ----------

  /** The reason words and their codes in section 5.3.1 of RFC 5280; case does not matter. */
  predicate Says(arg: string, code: int) {
    || (EqNoCase(arg, "unspecified") && code == 0)
    || (EqNoCase(arg, "keyCompromise") && code == 1)
    || (EqNoCase(arg, "CACompromise") && code == 2)
    || (EqNoCase(arg, "affiliationChanged") && code == 3)
    || (EqNoCase(arg, "superseded") && code == 4)
    || (EqNoCase(arg, "cessationOfOperation") && code == 5)
    || (EqNoCase(arg, "certificateHold") && code == 6)
    || (EqNoCase(arg, "removeFromCRL") && code == 8)
  }

  /** Whether the revocation options are accepted. */
  predicate Accepted(c: Checks, t: RevType, arg: string) {
    match t
    case RevValid => true
    case RevNone => true
    case RevCrlReason => exists code :: 0 <= code <= 8 && Says(arg, code)
    case RevHold => c.isOid(arg)
    case RevKeyCompromise => c.isGeneralized(arg)
    case RevCaCompromise => c.isGeneralized(arg)
  }

  /** What the revocation options ask to be published: reason, hold instruction, invalidity date. */
  predicate Asked(t: RevType, arg: string, reason: Option<int>, hold: Option<string>, invalidity: Option<string>) {
    match t
    case RevValid => reason == None && hold == None && invalidity == None
    case RevNone => reason == None && hold == None && invalidity == None
    case RevCrlReason => reason.Some? && Says(arg, reason.value) && hold == None && invalidity == None
    case RevHold => reason == Some(6) && hold == Some(arg) && invalidity == None
    case RevKeyCompromise => reason == Some(1) && hold == None && invalidity == Some(arg)
    case RevCaCompromise => reason == Some(2) && hold == None && invalidity == Some(arg)
  }

  /** The position of a word in the table gives its code. */
  lemma WordCode(arg: string, i: nat)
    requires i < REAL_REASONS && EqNoCase(arg, CRL_REASONS[i])
    ensures Says(arg, ReasonCode(i)) && 0 <= ReasonCode(i) <= 8
  {
  }

  /** A word with a code is in the table. */
  lemma CodeHasWord(arg: string, code: int)
    requires Says(arg, code)
    ensures ReasonIndex(arg, REAL_REASONS).Some?
  {
    var i := if code == 8 then 7 else code;
    assert EqNoCase(arg, CRL_REASONS[i]);
  }

  /** No word has two codes. */
  lemma OneCode(arg: string, a: int, b: int)
    requires Says(arg, a) && Says(arg, b)
    ensures a == b
  {
    assert |"keyCompromise"| == |"removeFromCRL"| && Lower("keyCompromise"[0]) != Lower("removeFromCRL"[0]);
  }

  lemma MeaningIs(c: Checks, t: RevType, arg: string)
    ensures Meaning(c, t, arg).Some? <==> Accepted(c, t, arg)
    ensures Meaning(c, t, arg).Some? ==>
      var m := Meaning(c, t, arg).value;
      Asked(t, arg, if m.0 == NO_STATUS then None else Some(m.0), m.1, m.2)
  {
    if t == RevCrlReason {
      var r := ReasonIndex(arg, REAL_REASONS);
      if r.Some? { WordCode(arg, r.value); }
      if exists code :: 0 <= code <= 8 && Says(arg, code) {
        var code :| 0 <= code <= 8 && Says(arg, code);
        CodeHasWord(arg, code);
      }
    }
  }

  // ---------- What is published ----------

  /** A row revoked with these options, as the CRL and the responder publish it. */
  lemma RevokedRowPublishes(c: Checks, rows: seq<Row>, i: nat, t: RevType, arg: string, now: string)
    requires Loads(c, rows) && DistinctKeys(rows) && AllCanonical(rows) && i < |rows| && TypeChar(rows[i]) == 'R'
    requires ',' !in now && c.isUtc(now) && RevocationText(c, now, t, arg) == Some(rows[i].rev)
    ensures var n := Value(rows[i].serial);
      exists rev ::
        Listed(CrlOf(c, rows), n) == [rev] && OcspAnswer(c, rows, n) == RevokedStatus(rev) &&
        rev.date == now && Asked(t, arg, rev.reasonExt, rev.holdExt, rev.invalidityExt)
  {
    var n := Value(rows[i].serial);
    RevocationRoundTrip(c, now, t, arg);
    MeaningIs(c, t, arg);
    CanonicalRowFound(c, rows, i);
    AgreeAt(c, rows, n);
    AnswerByType(c, rows, n);
    var rev := OcspAnswer(c, rows, n).rev;
    assert Listed(CrlOf(c, rows), n) == [rev];
    assert rev.date == now && Asked(t, arg, rev.reasonExt, rev.holdExt, rev.invalidityExt);
  }

  /** Where the row of the certificate is after a call that took effect. */
  function PlaceOf(st: DbState, k: Cert): nat {
    var at := Find(st.rows, Key(DbSerial(k.serial)));
    if at.Some? then at.value else |st.rows|
  }

  /** The row of the certificate after a call that took effect. */
  lemma RevokedRow(c: Checks, st: DbState, k: Cert, t: RevType, arg: string, now: string)
    requires Revoke(c, st, k, t, arg, now).1
    ensures var rows', i := Revoke(c, st, k, t, arg, now).0.rows, PlaceOf(st, k);
      && i < |rows'| && Key(rows'[i].serial) == Key(DbSerial(k.serial))
      && (t == RevValid ==> i == |st.rows| && rows' == st.rows + [CertRow(k)])
      && (t != RevValid ==> TypeChar(rows'[i]) == 'R' && RevocationText(c, now, t, arg) == Some(rows'[i].rev))
      && |st.rows| <= |rows'| <= |st.rows| + 1 && (forall j :: 0 <= j < |rows'| && j != i ==> j < |st.rows| && rows'[j] == st.rows[j])
  {
    if Find(st.rows, Key(DbSerial(k.serial))).None? { RevokeAbsent(c, st, k, t, arg, now); }
  }

  /** A database after a call that took effect and fitted. */
  lemma StillGood(c: Checks, st: DbState, k: Cert, t: RevType, arg: string, now: string)
    requires Loads(c, st.rows) && Indexed(st) && AllCanonical(st.rows) && ',' !in now
    requires Revoke(c, st, k, t, arg, now).1 && RevokeFits(c, st, k, t, now)
    ensures var rows', i := Revoke(c, st, k, t, arg, now).0.rows, PlaceOf(st, k);
      Loads(c, rows') && DistinctKeys(rows') && AllCanonical(rows') && i < |rows'| && Value(rows'[i].serial) == k.serial
  {
    var rows', i := Revoke(c, st, k, t, arg, now).0.rows, PlaceOf(st, k);
    RevokeLoadsIff(c, st, k, t, arg, now);
    RevokeKeeps(c, st, k, t, arg, now);
    RevokedRow(c, st, k, t, arg, now);
    SerialKept(c, st, k, t, arg, now);
    DbSerialRoundTrip(k.serial);
    assert RowLoads(c, rows'[i]);
    SameKeySameValue(rows'[i].serial, DbSerial(k.serial));
  }

  lemma SerialKept(c: Checks, st: DbState, k: Cert, t: RevType, arg: string, now: string)
    requires AllCanonical(st.rows)
    ensures AllCanonical(Revoke(c, st, k, t, arg, now).0.rows)
  {
    DbSerialCanonical(k.serial);
    if Find(st.rows, Key(DbSerial(k.serial))).None? { RevokeAbsent(c, st, k, t, arg, now); }
  }

  /** Every revocation that takes effect and fits, with any options: the CRL then has exactly one
      entry for the certificate's number, and the responder answers REVOKED with the same: the date
      is the time of the call, and reason, hold instruction and invalidity date are what the
      options ask for. */
  lemma RevocationIsPublished(c: Checks, st: DbState, k: Cert, t: RevType, arg: string, now: string)
    requires Loads(c, st.rows) && Indexed(st) && AllCanonical(st.rows) && ',' !in now && t != RevValid
    requires Revoke(c, st, k, t, arg, now).1 && RevokeFits(c, st, k, t, now)
    ensures var rows' := Revoke(c, st, k, t, arg, now).0.rows;
      Loads(c, rows') &&
      exists rev ::
        Listed(CrlOf(c, rows'), k.serial) == [rev] && OcspAnswer(c, rows', k.serial) == RevokedStatus(rev) &&
        rev.date == now && Asked(t, arg, rev.reasonExt, rev.holdExt, rev.invalidityExt)
  {
    StillGood(c, st, k, t, arg, now);
    RevokedRow(c, st, k, t, arg, now);
    RevokedRowPublishes(c, Revoke(c, st, k, t, arg, now).0.rows, PlaceOf(st, k), t, arg, now);
  }

  /** A certificate added as valid is good to the responder and not on the CRL. */
  lemma AddedIsGood(c: Checks, st: DbState, k: Cert, arg: string, now: string)
    requires Loads(c, st.rows) && Indexed(st) && AllCanonical(st.rows) && ',' !in now
    requires Revoke(c, st, k, RevValid, arg, now).1 && RevokeFits(c, st, k, RevValid, now)
    ensures var rows' := Revoke(c, st, k, RevValid, arg, now).0.rows;
      Loads(c, rows') && OcspAnswer(c, rows', k.serial) == GoodStatus && Listed(CrlOf(c, rows'), k.serial) == []
  {
    StillGood(c, st, k, RevValid, arg, now);
    RevokedRow(c, st, k, RevValid, arg, now);
    var rows', i := Revoke(c, st, k, RevValid, arg, now).0.rows, PlaceOf(st, k);
    CanonicalRowFound(c, rows', i);
    AnswerByType(c, rows', k.serial);
    AgreeAt(c, rows', k.serial);
  }

  /** For every other number both readers say what they said before. */
  lemma OthersUnchanged(c: Checks, st: DbState, k: Cert, t: RevType, arg: string, now: string, n: int)
    requires Loads(c, st.rows) && Indexed(st) && AllCanonical(st.rows) && ',' !in now && n != k.serial
    requires Revoke(c, st, k, t, arg, now).1 && RevokeFits(c, st, k, t, now)
    ensures var rows' := Revoke(c, st, k, t, arg, now).0.rows;
      Loads(c, rows') && OcspAnswer(c, rows', n) == OcspAnswer(c, st.rows, n) &&
      Listed(CrlOf(c, rows'), n) == Listed(CrlOf(c, st.rows), n)
  {
    StillGood(c, st, k, t, arg, now);
    RevokedRow(c, st, k, t, arg, now);
    var rows', i := Revoke(c, st, k, t, arg, now).0.rows, PlaceOf(st, k);
    OtherFound(c, st.rows, rows', i, n);
    AgreeAt(c, rows', n);
    AgreeAt(c, st.rows, n);
  }

  /** Rows that differ at one place, whose number is not `n`, are found alike. */
  lemma OtherFound(c: Checks, rows: seq<Row>, rows': seq<Row>, i: nat, n: int)
    requires Loads(c, rows) && DistinctKeys(rows) && Loads(c, rows') && DistinctKeys(rows') && |rows| <= |rows'| && i < |rows'|
    requires forall j :: 0 <= j < |rows'| && j != i ==> j < |rows| && rows'[j] == rows[j]
    requires Value(rows'[i].serial) != n && (i < |rows| ==> rows[i].serial == rows'[i].serial)
    ensures OcspAnswer(c, rows', n) == OcspAnswer(c, rows, n)
  {
    var key := Key(DbSerial(n));
    assert Key(rows'[i].serial) != key by {
      DbSerialRoundTrip(n);
      assert RowLoads(c, rows'[i]);
      if Key(rows'[i].serial) == key { SameKeySameValue(rows'[i].serial, DbSerial(n)); }
    }
    var at, at' := Find(rows, key), Find(rows', key);
    if at.Some? {
      assert at.value != i;
      FindIs(rows', at.value);
    } else {
      forall j | 0 <= j < |rows'| ensures Key(rows'[j].serial) != key {
        if j != i { assert rows'[j] == rows[j]; }
      }
    }
  }

  // ---------- A certificate that is in the database ----------

  /** The name a row must have for a certificate. */
  function NameFor(k: Cert): string {
    if k.subject != "" then k.subject else DbSerial(k.serial)
  }

  /** Revoking a certificate whose number row `i` has: the call succeeds exactly when row `i` has
      its name, is not revoked yet, a revocation is asked for and the arguments are accepted.
      Otherwise nothing changes. When it succeeds only row `i` changes: it is of type R, keeps its
      serial, file and name, and its revocation field reads as this time and what the options ask
      for. */
  lemma RevokePresent(c: Checks, st: DbState, k: Cert, t: RevType, arg: string, now: string, i: nat)
    requires Loads(c, st.rows) && Indexed(st) && AllCanonical(st.rows) && ',' !in now
    requires i < |st.rows| && Value(st.rows[i].serial) == k.serial
    ensures var r, (st', ok) := st.rows[i], Revoke(c, st, k, t, arg, now);
      && (ok <==> r.name == NameFor(k) && TypeChar(r) != 'R' && t != RevValid && Accepted(c, t, arg))
      && (!ok ==> st' == st)
      && (ok ==> |st'.rows| == |st.rows| && st'.rows == st.rows[i := st'.rows[i]])
      && (ok ==> st'.rows[i].ty == "R" && st'.rows[i].serial == r.serial && st'.rows[i].file == r.file && st'.rows[i].name == r.name)
      && (ok && c.isUtc(now) ==> ReadsAs(c, st'.rows[i].rev, now, t, arg))
  {
    CanonicalRowFound(c, st.rows, i);
    MeaningIs(c, t, arg);
    RevocationRoundTrip(c, now, t, arg);
    assert CertName(k) == NameFor(k);
  }

  /** A revocation field reads as a time and what options ask for. */
  predicate ReadsAs(c: Checks, field: string, now: string, t: RevType, arg: string) {
    var u := Unpack(c, field);
    u.Some? && u.value.time == now &&
    Asked(t, arg, if u.value.reason == NO_STATUS then None else Some(u.value.reason), u.value.hold, u.value.invalidity)
  }

  // ---------- Issuing ----------

  /** A certificate's row is taken only when no row has its number and, where names must be unique,
      no valid row has its name; and always when no row at all has that name. */
  lemma InsertIff(c: Checks, st: DbState, k: Cert)
    requires Loads(c, st.rows) && Indexed(st) && AllCanonical(st.rows)
    ensures Insert(st, CertRow(k)).Some? ==> !NumberUsed(c, st.rows, k.serial) && (st.unique ==> !ValidNameUsed(st.rows, NameFor(k)))
    ensures !NumberUsed(c, st.rows, k.serial) && (st.unique ==> !NameUsed(st.rows, NameFor(k))) ==> Insert(st, CertRow(k)).Some?
  {
    NumbersAreUnique(c, st.rows, k.serial);
    assert CertRow(k).name == NameFor(k) && TypeChar(CertRow(k)) == 'V';
  }

  ghost predicate NumberUsed(c: Checks, rows: seq<Row>, n: int)
    requires Loads(c, rows)
  {
    exists i :: 0 <= i < |rows| && Value(rows[i].serial) == n
  }

  ghost predicate NameUsed(rows: seq<Row>, name: string) {
    exists i :: 0 <= i < |rows| && rows[i].name == name
  }

  ghost predicate ValidNameUsed(rows: seq<Row>, name: string) {
    exists i :: 0 <= i < |rows| && TypeChar(rows[i]) == 'V' && rows[i].name == name
  }

  /** The row of an issued certificate, and what the readers make of it. */
  lemma IssuedIsGood(c: Checks, st: DbState, k: Cert)
    requires Loads(c, st.rows) && Indexed(st) && AllCanonical(st.rows) && c.isTime(k.notAfter) && Insert(st, CertRow(k)).Some?
    ensures var rows' := Insert(st, CertRow(k)).value.rows;
      && |rows'| == |st.rows| + 1 && rows'[..|st.rows|] == st.rows
      && rows'[|st.rows|] == Row("V", k.notAfter, "", DbSerial(k.serial), "unknown", NameFor(k))
      && Loads(c, rows') && OcspAnswer(c, rows', k.serial) == GoodStatus && Listed(CrlOf(c, rows'), k.serial) == []
  {
    var rows' := st.rows + [CertRow(k)];
    CertRowLoadsIff(c, k);
    LoadsAppend(c, st.rows, CertRow(k));
    NewRowFound(st.rows, CertRow(k));
    AnswerByType(c, rows', k.serial);
    InsertKeeps(st, CertRow(k));
    DbSerialCanonical(k.serial);
    AgreeAt(c, rows', k.serial);
  }

  // ---------- Expiring ----------

  /** Exactly the valid rows whose expiry has passed become expired, and in them only the type. */
  lemma ExpireExactly(rows: seq<Row>, expired: string -> bool, i: nat)
    requires i < |rows|
    ensures var r, r' := rows[i], ExpireRows(rows, expired)[i];
      && (r.ty != "" && r.ty[0] == 'V' && expired(r.exp) ==> r' == Row("E", r.exp, r.rev, r.serial, r.file, r.name))
      && (r.ty == "" || r.ty[0] != 'V' || !expired(r.exp) ==> r' == r)
  {
  }

  /** Expiring takes good certificates whose expiry has passed out of the responder's answers, and
      changes no other answer and no CRL entry. */
  lemma ExpireReaders(c: Checks, rows: seq<Row>, expired: string -> bool, n: int)
    requires Loads(c, rows) && DistinctKeys(rows) && AllCanonical(rows)
    ensures var rows', at := ExpireRows(rows, expired), Find(rows, Key(DbSerial(n)));
      && Loads(c, rows') && DistinctKeys(rows') && AllCanonical(rows')
      && Listed(CrlOf(c, rows'), n) == Listed(CrlOf(c, rows), n)
      && OcspAnswer(c, rows', n) ==
        if at.Some? && TypeChar(rows[at.value]) == 'V' && expired(rows[at.value].exp) then NoResponse else OcspAnswer(c, rows, n)
  {
    ExpireStill(c, rows, expired);
    ExpireAnswer(c, rows, expired, n);
    AgreeAt(c, rows, n);
    AgreeAt(c, ExpireRows(rows, expired), n);
  }

  lemma ExpireStill(c: Checks, rows: seq<Row>, expired: string -> bool)
    requires Loads(c, rows) && DistinctKeys(rows) && AllCanonical(rows)
    ensures var rows' := ExpireRows(rows, expired); Loads(c, rows') && DistinctKeys(rows') && AllCanonical(rows')
  {
    ExpireLoads(c, rows, expired);
    ExpireFound(rows, expired, "");
    var rows' := ExpireRows(rows, expired);
    forall i | 0 <= i < |rows'| ensures Canonical(rows'[i].serial) {
      assert rows'[i].serial == rows[i].serial;
    }
  }

  lemma ExpireAnswer(c: Checks, rows: seq<Row>, expired: string -> bool, n: int)
    requires Loads(c, rows) && DistinctKeys(rows) && Loads(c, ExpireRows(rows, expired))
    ensures var at := Find(rows, Key(DbSerial(n)));
      OcspAnswer(c, ExpireRows(rows, expired), n) ==
        if at.Some? && TypeChar(rows[at.value]) == 'V' && expired(rows[at.value].exp) then NoResponse else OcspAnswer(c, rows, n)
  {
    ExpireFound(rows, expired, Key(DbSerial(n)));
  }

  lemma ExpireFound(rows: seq<Row>, expired: string -> bool, key: string)
    requires DistinctKeys(rows)
    ensures DistinctKeys(ExpireRows(rows, expired)) && Find(ExpireRows(rows, expired), key) == Find(rows, key)
  {
    var rows' := ExpireRows(rows, expired);
    forall i | 0 <= i < |rows| ensures rows'[i].serial == rows[i].serial {
    }
    var at := Find(rows, key);
    if at.Some? { FindIs(rows', at.value); }
  }

  // ---------- Status ----------

  /** What `ca -status` reports for the row it selects, by the row's type. */
  lemma StatusByType(rows: seq<Row>, q: string)
    ensures var at, s := Find(rows, Key(StatusText(q))), StatusOf(rows, q);
      && (s == NotPresent <==> at.None?)
      && (s == StatusValid <==> at.Some? && TypeChar(rows[at.value]) == 'V')
      && (s == StatusRevoked <==> at.Some? && TypeChar(rows[at.value]) == 'R')
      && (s == StatusExpired <==> at.Some? && TypeChar(rows[at.value]) == 'E')
      && (s == StatusSuspended <==> at.Some? && TypeChar(rows[at.value]) == 'S')
  {
  }

  // ---------- The load checks ----------

  /** Rows that the load checks refuse, each for one reason, beside one that passes them. */
  lemma LoadCheckRefuses(c: Checks, e: string, t: string, bad: string)
    requires c.isTime(e) && c.isUtc(t) && ',' !in t && !c.isTime(bad) && !c.isUtc(bad) && ',' !in bad
    ensures RowLoads(c, Row("V", e, "", "01", "unknown", "/CN=x"))
    ensures RowLoads(c, Row("R", e, t, "-01", "unknown", "/CN=x"))
    ensures t != "" ==> !RowLoads(c, Row("V", e, t, "01", "unknown", "/CN=x"))
    ensures !RowLoads(c, Row("R", e, bad, "01", "unknown", "/CN=x"))
    ensures !RowLoads(c, Row("V", bad, "", "01", "unknown", "/CN=x"))
    ensures !RowLoads(c, Row("V", e, "", "1", "unknown", "/CN=x"))
    ensures !RowLoads(c, Row("V", e, "", "", "unknown", "/CN=x"))
    ensures !RowLoads(c, Row("V", e, "", "0G", "unknown", "/CN=x"))
  {
    TimeOnlyUnpacks(c, t);
    assert "-01"[1..] == "01";
    assert Loadable("01") && Loadable("-01");
    assert !IsHexDigit("0G"[1]) && !Loadable("0G");
    SplitCommaJoin(bad, None);
    assert bad + CommaField(None) == bad;
  }
}
