/** The CA database as a value: what loading checks, what indexing, inserting, revoking and
    expiring do to the rows, and what every run of these steps keeps. */
module CaState {
  import opened CText
  import opened Serial
  import opened TxtDb
  import opened Revocation

  /** The rows, and the name index: which row each indexed name points at. Rows are changed
      after they are indexed, so the name index is not a function of the rows. */
  datatype DbState = DbState(rows: seq<Row>, names: map<string, nat>, unique: bool)

  /** What the program takes from a certificate: its subject on one line, its serial number
      and its notAfter time. */
  datatype Cert = Cert(subject: string, serial: int, notAfter: string)

  /** `row[DB_type][0]`. */
  function TypeChar(r: Row): char {
    if r.ty == "" then '\0' else r.ty[0]
  }

  // ---------- Loading ----------

  /** The checks that `ca` makes on a row it has loaded. */
  predicate RowLoads(c: Checks, r: Row) {
    (TypeChar(r) != 'R' ==> r.rev == "") &&
    (TypeChar(r) == 'R' ==> Unpack(c, r.rev).Some?) &&
    c.isTime(r.exp) && Loadable(r.serial)
  }

  predicate Loads(c: Checks, rows: seq<Row>) {
    forall i :: 0 <= i < |rows| ==> RowLoads(c, rows[i])
  }

  // ---------- Indexes ----------

  ghost predicate DistinctKeys(rows: seq<Row>) {
    forall i, j :: 0 <= i < j < |rows| ==> Key(rows[i].serial) != Key(rows[j].serial)
  }

  /** The row that a lookup by serial key returns. */
  function Find(rows: seq<Row>, key: string): (r: Option<nat>)
    ensures r.Some? ==> r.value < |rows| && Key(rows[r.value].serial) == key
    ensures r.None? ==> forall i :: 0 <= i < |rows| ==> Key(rows[i].serial) != key
  {
    if rows == [] then None
    else if Key(rows[|rows| - 1].serial) == key then Some(|rows| - 1)
    else Find(rows[..|rows| - 1], key)
  }

  lemma FindIs(rows: seq<Row>, i: nat)
    requires DistinctKeys(rows) && i < |rows|
    ensures Find(rows, Key(rows[i].serial)) == Some(i)
  {
    var k := Find(rows, Key(rows[i].serial)).value;
    assert k == i || k < i || i < k;
  }

  /** The name index keeps every valid row reachable and every entry truthful. */
  ghost predicate NamesOk(st: DbState) {
    (!st.unique ==> st.names == map[]) &&
    (forall n :: n in st.names ==> st.names[n] < |st.rows| && st.rows[st.names[n]].name == n) &&
    (st.unique ==> forall i :: 0 <= i < |st.rows| && TypeChar(st.rows[i]) == 'V' ==>
      st.rows[i].name in st.names && st.names[st.rows[i].name] == i)
  }

  ghost predicate Indexed(st: DbState) {
    DistinctKeys(st.rows) && NamesOk(st)
  }

  /** `TXT_DB_create_index` on names, restricted to valid rows; None on a clash. */
  function BuildNames(rows: seq<Row>): Option<map<string, nat>> {
    if rows == [] then Some(map[])
    else
      var last := rows[|rows| - 1];
      var m := BuildNames(rows[..|rows| - 1]);
      if m.None? || TypeChar(last) != 'V' then m
      else if last.name in m.value then None
      else Some(m.value[last.name := |rows| - 1])
  }

  /** No two valid rows have the same name. */
  ghost predicate DistinctValidNames(rows: seq<Row>) {
    forall i, j :: 0 <= i < j < |rows| && TypeChar(rows[i]) == 'V' && TypeChar(rows[j]) == 'V' ==>
      rows[i].name != rows[j].name
  }

  /** A name index built from these rows: truthful, of valid rows only, and complete. */
  ghost predicate NameIndex(rows: seq<Row>, m: map<string, nat>) {
    (forall n :: n in m ==> m[n] < |rows| && rows[m[n]].name == n && TypeChar(rows[m[n]]) == 'V') &&
    (forall i :: 0 <= i < |rows| && TypeChar(rows[i]) == 'V' ==> rows[i].name in m && m[rows[i].name] == i)
  }

  lemma NameIndexSnoc(init: seq<Row>, m: map<string, nat>, last: Row)
    requires NameIndex(init, m)
    ensures TypeChar(last) != 'V' ==> NameIndex(init + [last], m)
    ensures TypeChar(last) == 'V' && last.name !in m ==> NameIndex(init + [last], m[last.name := |init|])
    ensures TypeChar(last) == 'V' && last.name in m ==> !DistinctValidNames(init + [last])
  {
    var rows := init + [last];
    assert forall i :: 0 <= i < |init| ==> rows[i] == init[i];
    if TypeChar(last) == 'V' && last.name in m {
      assert rows[m[last.name]].name == rows[|init|].name;
    }
  }

  lemma {:induction false} BuildNamesIff(rows: seq<Row>)
    ensures BuildNames(rows).Some? <==> DistinctValidNames(rows)
    ensures BuildNames(rows).Some? ==> NameIndex(rows, BuildNames(rows).value)
  {
    if rows != [] {
      var init, last := rows[..|rows| - 1], rows[|rows| - 1];
      BuildNamesIff(init);
      assert rows == init + [last];
      if DistinctValidNames(rows) { DistinctInit(init, last); }
      if BuildNames(init).Some? {
        NameIndexSnoc(init, BuildNames(init).value, last);
        if BuildNames(rows).Some? { NameIndexDistinct(rows, BuildNames(rows).value); }
      }
    }
  }

  lemma DistinctInit(init: seq<Row>, last: Row)
    requires DistinctValidNames(init + [last])
    ensures DistinctValidNames(init)
  {
    assert forall i :: 0 <= i < |init| ==> (init + [last])[i] == init[i];
  }

  lemma NameIndexDistinct(rows: seq<Row>, m: map<string, nat>)
    requires NameIndex(rows, m)
    ensures DistinctValidNames(rows)
  {
  }

  /** `index_index`: None when a serial or a valid name clashes. */
  ghost function Index(rows: seq<Row>, unique: bool): Option<DbState> {
    if !DistinctKeys(rows) then None
    else if !unique then Some(DbState(rows, map[], false))
    else
      var m := BuildNames(rows);
      if m.None? then None else Some(DbState(rows, m.value, true))
  }

  /** Indexing succeeds exactly when keys, and valid names if they must be unique, are distinct. */
  lemma IndexIff(rows: seq<Row>, unique: bool)
    ensures Index(rows, unique).Some? <==> DistinctKeys(rows) && (unique ==> DistinctValidNames(rows))
    ensures Index(rows, unique).Some? ==> Indexed(Index(rows, unique).value)
    ensures Index(rows, unique).Some? ==> Index(rows, unique).value.rows == rows
    ensures Index(rows, unique).Some? ==> Index(rows, unique).value.unique == unique
  {
    BuildNamesIff(rows);
  }

  lemma IndexedNamesDistinct(st: DbState)
    requires Indexed(st) && st.unique
    ensures DistinctValidNames(st.rows)
  {
  }

  // ---------- Steps ----------

  /** `TXT_DB_insert`: None when an index refuses the row. */
  function Insert(st: DbState, r: Row): Option<DbState> {
    if Find(st.rows, Key(r.serial)).Some? then None
    else if !st.unique || TypeChar(r) != 'V' then Some(st.(rows := st.rows + [r]))
    else if r.name in st.names then None
    else Some(st.(rows := st.rows + [r], names := st.names[r.name := |st.rows|]))
  }

  /** The name stored for a certificate: its subject, or its serial when that is empty. */
  function CertName(k: Cert): string {
    if k.subject == "" then DbSerial(k.serial) else k.subject
  }

  /** The row added for a certificate. */
  function CertRow(k: Cert): Row {
    Row("V", k.notAfter, "", DbSerial(k.serial), "unknown", CertName(k))
  }

  /** The in-place revocation of a row: 'R' and a NUL are written into the type field, and the
      revocation text replaces the old one. In a loaded row the fields follow each other, so
      the NUL falls on the expiry date when the type field was empty. */
  function SetRevoked(r: Row, text: string): Row {
    r.(ty := "R", rev := text, exp := if r.ty == "" then "" else r.exp)
  }

  /** `do_revoke`: the new state and whether it succeeded. A certificate that is not in the
      database is added first and the call repeated. */
  function Revoke(c: Checks, st: DbState, k: Cert, t: RevType, arg: string, now: string): (DbState, bool)
    decreases Find(st.rows, Key(DbSerial(k.serial))).None?
  {
    var at := Find(st.rows, Key(DbSerial(k.serial)));
    if at.None? then
      var st1 := Insert(st, CertRow(k));
      if st1.None? then (st, false)
      else if t == RevValid then (st1.value, true)
      else
        assert Key(st1.value.rows[|st.rows|].serial) == Key(DbSerial(k.serial));
        Revoke(c, st1.value, k, t, arg, now)
    else
      var r := st.rows[at.value];
      var text := RevocationText(c, now, t, arg);
      if CertName(k) != r.name || t == RevValid || TypeChar(r) == 'R' || text.None? then (st, false)
      else (st.(rows := st.rows[at.value := SetRevoked(r, text.value)]), true)
  }

  /** Revoking an unknown certificate is adding it and then revoking it; the second call finds
      it, so there is no third. */
  lemma RevokeRetries(c: Checks, st: DbState, k: Cert, t: RevType, arg: string, now: string)
    requires Find(st.rows, Key(DbSerial(k.serial))).None?
    ensures var st1 := Insert(st, CertRow(k));
      && (st1.None? ==> Revoke(c, st, k, t, arg, now) == (st, false))
      && (st1.Some? ==> Find(st1.value.rows, Key(DbSerial(k.serial))).Some?)
      && (st1.Some? && t == RevValid ==> Revoke(c, st, k, t, arg, now) == (st1.value, true))
      && (st1.Some? && t != RevValid ==> Revoke(c, st, k, t, arg, now) == Revoke(c, st1.value, k, t, arg, now))
  {
    var st1 := Insert(st, CertRow(k));
    if st1.Some? {
      assert Key(st1.value.rows[|st.rows|].serial) == Key(DbSerial(k.serial));
    }
  }

  /** Revoking an unknown certificate succeeds exactly when the indexes take its row and the
      arguments are accepted. It adds one row, valid for REV_VALID and revoked otherwise; refused
      arguments leave the valid row in memory. */
  lemma RevokeAbsent(c: Checks, st: DbState, k: Cert, t: RevType, arg: string, now: string)
    requires Find(st.rows, Key(DbSerial(k.serial))).None?
    ensures var added, text := Insert(st, CertRow(k)).Some?, RevocationText(c, now, t, arg);
      var (st', ok) := Revoke(c, st, k, t, arg, now);
      && (ok <==> added && (t == RevValid || text.Some?))
      && (!added ==> st' == st)
      && (added && (t == RevValid || text.None?) ==> st'.rows == st.rows + [CertRow(k)])
      && (added && t != RevValid && text.Some? ==> st'.rows == st.rows + [SetRevoked(CertRow(k), text.value)])
  {
    RevokeRetries(c, st, k, t, arg, now);
    var st1 := Insert(st, CertRow(k));
    if st1.Some? {
      NewRowFound(st.rows, CertRow(k));
      if t != RevValid { RevokeNewRow(c, st1.value, k, t, arg, now, st.rows); }
    }
  }

  lemma RevokeNewRow(c: Checks, st1: DbState, k: Cert, t: RevType, arg: string, now: string, rows: seq<Row>)
    requires st1.rows == rows + [CertRow(k)] && Find(st1.rows, Key(DbSerial(k.serial))) == Some(|rows|) && t != RevValid
    ensures var text := RevocationText(c, now, t, arg);
      && (text.None? ==> Revoke(c, st1, k, t, arg, now) == (st1, false))
      && (text.Some? ==> Revoke(c, st1, k, t, arg, now) == (st1.(rows := rows + [SetRevoked(CertRow(k), text.value)]), true))
  {
    var text := RevocationText(c, now, t, arg);
    assert st1.rows[|rows|] == CertRow(k);
    if text.Some? { assert st1.rows[|rows| := SetRevoked(CertRow(k), text.value)] == rows + [SetRevoked(CertRow(k), text.value)]; }
  }

  lemma NewRowFound(rows: seq<Row>, r: Row)
    requires Find(rows, Key(r.serial)).None?
    ensures Find(rows + [r], Key(r.serial)) == Some(|rows|)
  {
    var all := rows + [r];
    assert all[|rows|] == r;
    assert forall i :: 0 <= i < |rows| ==> all[i] == rows[i];
  }

  /** `do_updatedb` on one row. */
  function ExpireRow(r: Row, expired: string -> bool): Row {
    if TypeChar(r) == 'V' && expired(r.exp) then r.(ty := "E") else r
  }

  function ExpireRows(rows: seq<Row>, expired: string -> bool): (rs: seq<Row>)
    ensures |rs| == |rows|
    ensures forall i :: 0 <= i < |rows| ==> rs[i] == ExpireRow(rows[i], expired)
  {
    seq(|rows|, i requires 0 <= i < |rows| => ExpireRow(rows[i], expired))
  }

  // ---------- What may happen to a row ----------

  /** A row keeps its serial, file and name. A revoked row never changes. Otherwise it may
      expire if it was valid, or become revoked. */
  predicate RowEvolves(a: Row, b: Row) {
    b == a ||
    (b.serial == a.serial && b.file == a.file && b.name == a.name && TypeChar(a) != 'R' &&
      ((TypeChar(a) == 'V' && b == a.(ty := "E")) ||
       (b.ty == "R" && (a.ty != "" ==> b.exp == a.exp))))
  }

  ghost predicate Evolves(rows: seq<Row>, rows': seq<Row>) {
    |rows| <= |rows'| && forall i :: 0 <= i < |rows| ==> RowEvolves(rows[i], rows'[i])
  }

  lemma EvolvesTransitive(a: seq<Row>, b: seq<Row>, d: seq<Row>)
    requires Evolves(a, b) && Evolves(b, d)
    ensures Evolves(a, d)
  {
    forall i | 0 <= i < |a| ensures RowEvolves(a[i], d[i]) {
      assert RowEvolves(a[i], b[i]) && RowEvolves(b[i], d[i]);
    }
  }

  lemma DistinctKeysAppend(rows: seq<Row>, r: Row)
    requires DistinctKeys(rows) && Find(rows, Key(r.serial)).None?
    ensures DistinctKeys(rows + [r])
  {
    var all := rows + [r];
    forall i, j | 0 <= i < j < |all| ensures Key(all[i].serial) != Key(all[j].serial) {
      if j < |rows| {
        assert all[i] == rows[i] && all[j] == rows[j];
      } else {
        assert all[i] == rows[i] && all[j] == r;
      }
    }
  }

  lemma NamesOkAppend(st: DbState, r: Row)
    requires NamesOk(st) && Insert(st, r).Some?
    ensures NamesOk(Insert(st, r).value)
  {
    var st' := Insert(st, r).value;
    assert st'.rows == st.rows + [r];
    assert forall i :: 0 <= i < |st.rows| ==> st'.rows[i] == st.rows[i];
  }

  lemma InsertKeeps(st: DbState, r: Row)
    requires Indexed(st) && Insert(st, r).Some?
    ensures Indexed(Insert(st, r).value) && Evolves(st.rows, Insert(st, r).value.rows)
    ensures Insert(st, r).value.rows == st.rows + [r]
  {
    DistinctKeysAppend(st.rows, r);
    NamesOkAppend(st, r);
  }

  /** Changing a row in place keeps the indexes usable when serial and name stay and the row
      does not become valid. */
  lemma UpdateKeepsIndexed(st: DbState, i: nat, r: Row)
    requires Indexed(st) && i < |st.rows|
    requires r.serial == st.rows[i].serial && r.name == st.rows[i].name
    requires TypeChar(r) == 'V' ==> TypeChar(st.rows[i]) == 'V'
    ensures Indexed(st.(rows := st.rows[i := r]))
  {
  }

  lemma SetRevokedKeeps(st: DbState, i: nat, text: string)
    requires Indexed(st) && i < |st.rows| && TypeChar(st.rows[i]) != 'R'
    ensures var st' := st.(rows := st.rows[i := SetRevoked(st.rows[i], text)]);
      Indexed(st') && Evolves(st.rows, st'.rows)
  {
    UpdateKeepsIndexed(st, i, SetRevoked(st.rows[i], text));
  }

  lemma RevokeFoundKeeps(c: Checks, st: DbState, k: Cert, t: RevType, arg: string, now: string)
    requires Indexed(st) && Find(st.rows, Key(DbSerial(k.serial))).Some?
    ensures var st' := Revoke(c, st, k, t, arg, now).0;
      Indexed(st') && Evolves(st.rows, st'.rows) && st'.unique == st.unique
  {
    var at := Find(st.rows, Key(DbSerial(k.serial))).value;
    var text := RevocationText(c, now, t, arg);
    if text.Some? && TypeChar(st.rows[at]) != 'R' { SetRevokedKeeps(st, at, text.value); }
  }

  lemma RevokeAbsentKeeps(c: Checks, st: DbState, k: Cert, t: RevType, arg: string, now: string, st1: DbState, st2: DbState)
    requires Indexed(st) && Insert(st, CertRow(k)) == Some(st1) && Find(st1.rows, Key(DbSerial(k.serial))).Some?
    requires st2 == Revoke(c, st1, k, t, arg, now).0
    ensures Indexed(st1) && Evolves(st.rows, st1.rows) && st1.unique == st.unique
    ensures Indexed(st2) && Evolves(st.rows, st2.rows) && st2.unique == st.unique
  {
    InsertKeeps(st, CertRow(k));
    RevokeFoundKeeps(c, st1, k, t, arg, now);
    EvolvesTransitive(st.rows, st1.rows, st2.rows);
  }

  lemma RevokeKeeps(c: Checks, st: DbState, k: Cert, t: RevType, arg: string, now: string)
    requires Indexed(st)
    ensures var st' := Revoke(c, st, k, t, arg, now).0;
      Indexed(st') && Evolves(st.rows, st'.rows) && st'.unique == st.unique
  {
    if Find(st.rows, Key(DbSerial(k.serial))).Some? {
      RevokeFoundKeeps(c, st, k, t, arg, now);
    } else {
      RevokeRetries(c, st, k, t, arg, now);
      var st1 := Insert(st, CertRow(k));
      if st1.Some? { RevokeAbsentKeeps(c, st, k, t, arg, now, st1.value, Revoke(c, st1.value, k, t, arg, now).0); }
    }
  }

  lemma ExpireKeeps(st: DbState, expired: string -> bool)
    requires Indexed(st)
    ensures Indexed(st.(rows := ExpireRows(st.rows, expired))) && Evolves(st.rows, ExpireRows(st.rows, expired))
  {
    var rs := ExpireRows(st.rows, expired);
    assert forall i :: 0 <= i < |rs| ==> rs[i].serial == st.rows[i].serial && rs[i].name == st.rows[i].name;
  }
}
