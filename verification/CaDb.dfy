/** The database object of the `ca` application: rows changed in place, a serial index and a
    name index, and the operations on them. */
module CaDb {
  import opened CText
  import opened Serial
  import opened TxtDb
  import opened Revocation
  import opened CaState
  import opened CaReaders
  import opened CrlVersion

  /** The revocation fields that `make_revoked` accepts, with a serial that reads. */
  predicate CrlRowOk(c: Checks, r: Row) {
    TypeChar(r) == 'R' ==> Unpack(c, r.rev).Some? && Hex2Bn(r.serial).Some?
  }

  /** The rows that differ. */
  ghost function Changed(was: seq<Row>, data: seq<Row>): set<int>
    requires |was| == |data|
  {
    set i | 0 <= i < |data| && data[i] != was[i]
  }

  lemma ChangedStep(was: seq<Row>, data: seq<Row>, i: nat, r: Row)
    requires |was| == |data| && i < |data| && data[i] == was[i] && r != was[i]
    ensures |Changed(was, data[i := r])| == |Changed(was, data)| + 1
  {
    assert Changed(was, data[i := r]) == Changed(was, data) + {i};
  }

  /** The first `i` rows have been expired, `cnt` of them changed. */
  ghost predicate Expiring(c: Checks, expired: string -> bool, was: seq<Row>, data: seq<Row>, i: int, cnt: int) {
    0 <= i <= |data| == |was| &&
    (forall m :: 0 <= m < i ==> data[m] == ExpireRow(was[m], expired)) &&
    (forall m :: i <= m < |data| ==> data[m] == was[m]) &&
    (forall m :: 0 <= m < i && TypeChar(was[m]) == 'V' ==> c.isTime(was[m].exp)) &&
    cnt == |Changed(was, data)|
  }

  lemma ExpiringStart(c: Checks, was: seq<Row>, expired: string -> bool)
    ensures Expiring(c, expired, was, was, 0, 0)
  {
    assert Changed(was, was) == {};
  }

  lemma ExpiringStep(c: Checks, expired: string -> bool, was: seq<Row>, data: seq<Row>, i: int, cnt: int)
    requires Expiring(c, expired, was, data, i, cnt) && i < |data|
    requires TypeChar(data[i]) == 'V' ==> c.isTime(data[i].exp)
    ensures TypeChar(data[i]) == 'V' && expired(data[i].exp) ==>
      Expiring(c, expired, was, data[i := data[i].(ty := "E")], i + 1, cnt + 1)
    ensures !(TypeChar(data[i]) == 'V' && expired(data[i].exp)) ==> Expiring(c, expired, was, data, i + 1, cnt)
  {
    if TypeChar(data[i]) == 'V' && expired(data[i].exp) {
      ChangedStep(was, data, i, data[i].(ty := "E"));
    }
  }

  /** The serial index points from every key to its row, and to nothing else. */
  ghost predicate SerialIndex(data: seq<Row>, serials: map<string, nat>) {
    (forall k :: k in serials ==> serials[k] < |data| && Key(data[serials[k]].serial) == k) &&
    (forall i :: 0 <= i < |data| ==> Key(data[i].serial) in serials && serials[Key(data[i].serial)] == i)
  }

  lemma SerialIndexAppend(data: seq<Row>, serials: map<string, nat>, r: Row)
    requires SerialIndex(data, serials) && Key(r.serial) !in serials
    ensures SerialIndex(data + [r], serials[Key(r.serial) := |data|])
  {
    assert forall i :: 0 <= i < |data| ==> (data + [r])[i] == data[i];
  }

  lemma SerialIndexUpdate(data: seq<Row>, serials: map<string, nat>, i: nat, r: Row)
    requires SerialIndex(data, serials) && i < |data| && r.serial == data[i].serial
    ensures SerialIndex(data[i := r], serials)
  {
  }

  lemma SerialIndexClash(data: seq<Row>, serials: map<string, nat>, r: Row)
    requires SerialIndex(data, serials) && Key(r.serial) in serials
    ensures !DistinctKeys(data + [r])
  {
    var all := data + [r];
    var i := serials[Key(r.serial)];
    assert all[i] == data[i] && all[|data|] == r;
  }

  lemma SerialIndexFind(data: seq<Row>, serials: map<string, nat>, key: string)
    requires SerialIndex(data, serials)
    ensures Find(data, key) == if key in serials then Some(serials[key]) else None
  {
    var at := Find(data, key);
    if at.Some? {
      assert Key(data[at.value].serial) in serials;
    }
  }

  lemma SerialIndexDistinct(data: seq<Row>, serials: map<string, nat>)
    requires SerialIndex(data, serials)
    ensures DistinctKeys(data)
  {
    forall i, j | 0 <= i < j < |data| ensures Key(data[i].serial) != Key(data[j].serial) {
      assert serials[Key(data[i].serial)] == i && serials[Key(data[j].serial)] == j;
    }
  }

  lemma NotDistinctPrefix(data: seq<Row>, n: nat)
    requires n <= |data| && !DistinctKeys(data[..n])
    ensures !DistinctKeys(data)
  {
    var i, j :| 0 <= i < j < n && Key(data[..n][i].serial) == Key(data[..n][j].serial);
    assert Key(data[i].serial) == Key(data[j].serial);
  }

  class CaDb {
    var data: seq<Row>
    var serials: map<string, nat>   // the DB_serial index: key to row
    var names: map<string, nat>     // the DB_name index: name to row
    const unique: bool              // attributes.unique_subject

    ghost function State(): DbState
      reads this
    {
      DbState(data, names, unique)
    }

    ghost predicate Valid()
      reads this
    {
      SerialIndex(data, serials) && Indexed(State())
    }

    ghost predicate CStrings()
      reads this
    {
      forall i :: 0 <= i < |data| ==> '\0' !in data[i].rev
    }

    /** `load_index`: the rows are there, nothing is indexed yet. */
    constructor (rows: seq<Row>, unique: bool)
      ensures data == rows && this.unique == unique && serials == map[] && names == map[]
    {
      data, serials, names := rows, map[], map[];
      this.unique := unique;
    }

    /** The load-time checks of `ca_main`. */
    method CheckFields(c: Checks) returns (ok: bool)
      requires CStrings()
      ensures ok <==> Loads(c, data)
    {
      for i := 0 to |data|
        invariant Loads(c, data[..i])
      {
        var pp := data[i];
        if TypeChar(pp) != 'R' && pp.rev != "" {
          assert !RowLoads(c, data[i]);
          return false;
        }
        if TypeChar(pp) == 'R' {
          var j, _ := MakeRevoked(c, pp.rev);
          if j == 0 {
            assert !RowLoads(c, data[i]);
            return false;
          }
        }
        if !c.isTime(pp.exp) {
          assert !RowLoads(c, data[i]);
          return false;
        }
        var good := CheckSerial(pp.serial);
        if !good {
          assert !RowLoads(c, data[i]);
          return false;
        }
        assert RowLoads(c, data[i]);
        assert data[..i + 1] == data[..i] + [data[i]];
      }
      assert data[..|data|] == data;
      return true;
    }

    /** The serial part of the checks: sign, length and digits. */
    static method CheckSerial(s: string) returns (ok: bool)
      ensures ok <==> Loadable(s)
    {
      var p, j := 0, |s|;
      if s != "" && s[0] == '-' {
        p := 1;
        j := j - 1;
      }
      assert Magnitude(s) == s[p..];
      if j % 2 == 1 || j < 2 {
        return false;
      }
      var start := p;
      while p < |s|
        invariant start <= p <= |s|
        invariant forall i :: start <= i < p ==> IsHexDigit(s[i])
      {
        if !IsHexDigit(s[p]) {
          assert !IsHexDigit(Magnitude(s)[p - start]);
          return false;
        }
        p := p + 1;
      }
      return true;
    }

    /** `index_index`: both indexes are built, or a clash is reported. */
    method IndexIndex() returns (ok: bool)
      modifies this`serials, this`names
      ensures ok <==> Index(data, unique).Some?
      ensures ok ==> Valid() && State() == Index(data, unique).value
    {
      names := map[];
      ok := IndexSerials();
      if ok {
        SerialIndexDistinct(data, serials);
        if unique {
          ok := IndexNames();
        }
        IndexIff(data, unique);
      }
    }

    method IndexSerials() returns (ok: bool)
      modifies this`serials
      ensures ok ==> SerialIndex(data, serials)
      ensures !ok ==> !DistinctKeys(data)
    {
      serials := map[];
      for i := 0 to |data|
        invariant SerialIndex(data[..i], serials)
      {
        assert data[..i + 1] == data[..i] + [data[i]];
        var key := Key(data[i].serial);
        if key in serials {
          SerialIndexClash(data[..i], serials, data[i]);
          NotDistinctPrefix(data, i + 1);
          return false;
        }
        SerialIndexAppend(data[..i], serials, data[i]);
        serials := serials[key := i];
      }
      assert data[..|data|] == data;
      return true;
    }

    method IndexNames() returns (ok: bool)
      requires names == map[]
      modifies this`names
      ensures ok <==> BuildNames(data).Some?
      ensures ok ==> names == BuildNames(data).value
    {
      for i := 0 to |data|
        invariant BuildNames(data[..i]) == Some(names)
      {
        assert data[..i + 1][..i] == data[..i];
        if TypeChar(data[i]) == 'V' {
          if data[i].name in names {
            BuildNamesNone(data, i + 1);
            return false;
          }
          names := names[data[i].name := i];
        }
      }
      assert data[..|data|] == data;
      return true;
    }

    static lemma BuildNamesNone(rows: seq<Row>, k: nat)
      requires k <= |rows| && BuildNames(rows[..k]).None?
      ensures BuildNames(rows).None?
    {
      BuildNamesIff(rows);
      BuildNamesIff(rows[..k]);
      var i, j :| 0 <= i < j < k && TypeChar(rows[..k][i]) == 'V' && TypeChar(rows[..k][j]) == 'V' &&
        rows[..k][i].name == rows[..k][j].name;
      assert rows[i].name == rows[j].name;
    }

    /** `TXT_DB_get_by_index` on serials. */
    method GetBySerial(text: string) returns (at: Option<nat>)
      requires Valid()
      ensures at == Find(data, Key(text))
    {
      var key := Key(text);
      SerialIndexFind(data, serials, key);
      return if key in serials then Some(serials[key]) else None;
    }

    /** `TXT_DB_insert`. */
    method TxtDbInsert(r: Row) returns (ok: bool)
      requires Valid()
      modifies this`data, this`serials, this`names
      ensures ok <==> Insert(old(State()), r).Some?
      ensures ok ==> State() == Insert(old(State()), r).value
      ensures !ok ==> State() == old(State())
      ensures Valid()
    {
      var at := GetBySerial(r.serial);
      if at.Some? {
        return false;
      }
      var named := unique && TypeChar(r) == 'V';
      if named && r.name in names {
        return false;
      }
      InsertKeeps(State(), r);
      SerialIndexFind(data, serials, Key(r.serial));
      SerialIndexAppend(data, serials, r);
      serials := serials[Key(r.serial) := |data|];
      if named {
        names := names[r.name := |data|];
      }
      data := data + [r];
      return true;
    }

    /** Writes to a row in place: serial and name stay, and it does not become valid. */
    method PutRow(i: nat, r: Row)
      requires Valid() && i < |data| && TypeChar(r) != 'V'
      requires r.serial == data[i].serial && r.name == data[i].name
      modifies this`data
      ensures Valid() && data == old(data)[i := r]
    {
      UpdateKeepsIndexed(State(), i, r);
      SerialIndexUpdate(data, serials, i, r);
      data := data[i := r];
    }

    /** The part of `do_revoke` for a certificate that is in the database. */
    method RevokeFound(c: Checks, at: nat, k: Cert, t: RevType, arg: string, now: string) returns (ok: bool)
      requires Valid() && Find(data, Key(DbSerial(k.serial))) == Some(at)
      modifies this`data
      ensures (State(), ok) == Revoke(c, old(State()), k, t, arg, now)
      ensures Valid()
    {
      var name := if k.subject == "" then DbSerial(k.serial) else k.subject;
      var r := data[at];
      if name != r.name || t == RevValid || TypeChar(r) == 'R' {
        return false;
      }
      var text, _ := MakeRevocationStr(c, now, t, arg);
      if text.None? {
        return false;
      }
      PutRow(at, SetRevoked(r, text.value));
      return true;
    }

    /** `do_revoke`. */
    method DoRevoke(c: Checks, k: Cert, t: RevType, arg: string, now: string) returns (ok: bool)
      requires Valid()
      modifies this`data, this`serials, this`names
      ensures (State(), ok) == Revoke(c, old(State()), k, t, arg, now)
      ensures Valid()
      decreases Find(data, Key(DbSerial(k.serial))).None?
    {
      var serial := DbSerial(k.serial);
      var at := GetBySerial(serial);
      if at.Some? {
        ok := RevokeFound(c, at.value, k, t, arg, now);
        return;
      }
      var name := if k.subject == "" then serial else k.subject;
      RevokeRetries(c, State(), k, t, arg, now);
      ok := TxtDbInsert(Row("V", k.notAfter, "", serial, "unknown", name));
      if ok && t != RevValid {
        ok := DoRevoke(c, k, t, arg, now);
      }
    }

    /** `do_updatedb`: valid rows whose expiry is not after now become expired. Returns how many
        rows changed, or -1 at the first valid row whose expiry does not parse. */
    method DoUpdatedb(c: Checks, expired: string -> bool) returns (cnt: int)
      requires Valid()
      modifies this`data
      ensures Valid()
      ensures cnt == -1 <==> exists i :: 0 <= i < |old(data)| && TypeChar(old(data)[i]) == 'V' && !c.isTime(old(data)[i].exp)
      ensures cnt != -1 ==> data == ExpireRows(old(data), expired)
      ensures cnt != -1 ==> cnt == |Changed(old(data), data)|
    {
      ghost var was := data;
      cnt := 0;
      var i := 0;
      ExpiringStart(c, was, expired);
      while i < |data|
        invariant Valid() && Expiring(c, expired, was, data, i, cnt)
      {
        if TypeChar(data[i]) == 'V' && !c.isTime(data[i].exp) {
          return -1;
        }
        ExpiringStep(c, expired, was, data, i, cnt);
        if TypeChar(data[i]) == 'V' && expired(data[i].exp) {
          PutRow(i, data[i].(ty := "E"));
          cnt := cnt + 1;
        }
        i := i + 1;
      }
    }

    /** `get_certificate_status`: the reported status, and 1 unless nothing useful was found. */
    method GetCertificateStatus(q: string) returns (ok: int, s: Status)
      requires Valid()
      ensures s == StatusOf(data, q)
      ensures ok == if s == NotPresent || s == StatusUnknown then -1 else 1
    {
      var buf := if |q| % 2 == 1 then "0" + q else q;
      var at := GetBySerial(UpperText(buf));
      if at.None? {
        return -1, NotPresent;
      }
      var ty := TypeChar(data[at.value]);
      if ty == 'V' {
        return 1, StatusValid;
      } else if ty == 'R' {
        return 1, StatusRevoked;
      } else if ty == 'E' {
        return 1, StatusExpired;
      } else if ty == 'S' {
        return 1, StatusSuspended;
      }
      return -1, StatusUnknown;
    }

    /** The CRL section of `ca_main`: the entries, whether the CRL is marked version 2, and the
        CRL number to save. */
    method MakeCrl(c: Checks, crlExt: bool, number: Option<int>)
      returns (ok: bool, entries: seq<CrlEntry>, v2: bool, next: Option<int>)
      requires CStrings()
      ensures ok <==> CrlRowsOk(c, data)
      ensures Loads(c, data) ==> ok && entries == CrlOf(c, data)
      ensures Loads(c, data) ==> (v2 <==> crlExt || number.Some? || SomeReason(Items(c, data)))
      ensures ok ==> entries == ScanEntries(c, data) && (v2 <==> crlExt || number.Some? || SomeExtension(entries))
      ensures ok ==> next == if number.Some? then Some(number.value + 1) else None
    {
      entries, v2, next := [], false, None;
      if Loads(c, data) {
        ScanIsCrl(c, data);
        CrlExtensionIff(c, data);
      }
      for i := 0 to |data|
        invariant Scanned(c, data, i, entries, v2)
      {
        var good, more, ext := ScanRow(c, data[i]);
        if !good {
          return false, entries, v2, None;
        }
        ScanStep(c, data, i, entries, v2, more, ext);
        entries, v2 := entries + more, v2 || ext;
      }
      assert data[..|data|] == data;
      if number.Some? {
        v2 := true;
        next := Some(number.value + 1);
      }
      if crlExt || v2 {
        v2 := true;
      }
      ok := true;
    }

    /** The body of the scan: the entry of a revoked row, and whether it has an extension. */
    static method ScanRow(c: Checks, r: Row) returns (good: bool, more: seq<CrlEntry>, ext: bool)
      requires '\0' !in r.rev
      ensures good <==> CrlRowOk(c, r)
      ensures good ==> more == RowEntries(c, r) && (ext <==> RowExtends(c, r))
    {
      more, ext := [], false;
      if TypeChar(r) == 'R' {
        var j, rev := MakeRevoked(c, r.rev);
        if j == 0 {
          return false, more, ext;
        }
        ext := j == 2;
        var serial := Hex2Bn(r.serial);
        if serial.None? {
          return false, more, ext;
        }
        more := [CrlEntry(serial.value, rev)];
      }
      good := true;
    }
  }

  /** The entry that a row contributes. */
  function RowEntries(c: Checks, r: Row): seq<CrlEntry>
    requires CrlRowOk(c, r)
  {
    if TypeChar(r) == 'R' then [CrlEntry(Hex2Bn(r.serial).value, EntryOf(Unpack(c, r.rev).value))] else []
  }

  predicate RowExtends(c: Checks, r: Row)
    requires CrlRowOk(c, r)
  {
    TypeChar(r) == 'R' && HasExtension(EntryOf(Unpack(c, r.rev).value))
  }

  ghost predicate CrlRowsOk(c: Checks, rows: seq<Row>) {
    forall i :: 0 <= i < |rows| ==> CrlRowOk(c, rows[i])
  }

  /** The entries of all rows, in row order. */
  ghost function ScanEntries(c: Checks, rows: seq<Row>): seq<CrlEntry>
    requires CrlRowsOk(c, rows)
  {
    if rows == [] then [] else ScanEntries(c, rows[..|rows| - 1]) + RowEntries(c, rows[|rows| - 1])
  }

  /** The scan of the first `i` rows. */
  ghost predicate Scanned(c: Checks, rows: seq<Row>, i: int, entries: seq<CrlEntry>, v2: bool) {
    0 <= i <= |rows| && CrlRowsOk(c, rows[..i]) && entries == ScanEntries(c, rows[..i]) && (v2 <==> SomeExtension(entries))
  }

  lemma SomeExtensionAdd(entries: seq<CrlEntry>, more: seq<CrlEntry>)
    requires |more| <= 1
    ensures SomeExtension(entries + more) <==> SomeExtension(entries) || (more != [] && HasExtension(more[0].rev))
  {
    var all := entries + more;
    if SomeExtension(entries) {
      var i :| 0 <= i < |entries| && HasExtension(entries[i].rev);
      assert all[i] == entries[i];
    }
    if more != [] { assert all[|entries|] == more[0]; }
  }

  lemma ScanStep(c: Checks, rows: seq<Row>, i: nat, entries: seq<CrlEntry>, v2: bool, more: seq<CrlEntry>, ext: bool)
    requires i < |rows| && Scanned(c, rows, i, entries, v2) && CrlRowOk(c, rows[i])
    requires more == RowEntries(c, rows[i]) && (ext <==> RowExtends(c, rows[i]))
    ensures Scanned(c, rows, i + 1, entries + more, v2 || ext)
  {
    assert rows[..i + 1] == rows[..i] + [rows[i]];
    ScanSnoc(c, rows[..i], rows[i]);
    SomeExtensionAdd(entries, more);
  }

  lemma EntriesSnoc(items: seq<Item>, it: Item)
    ensures Entries(items + [it]) == Entries(items) + if it.revoked then [CrlEntry(it.serial, it.rev)] else []
  {
    assert (items + [it])[..|items|] == items;
  }

  lemma RowEntriesIs(c: Checks, r: Row)
    requires RowLoads(c, r)
    ensures CrlRowOk(c, r)
    ensures RowEntries(c, r) == if ItemOf(c, r).revoked then [CrlEntry(ItemOf(c, r).serial, ItemOf(c, r).rev)] else []
  {
    LoadableReads(r.serial);
  }

  lemma LoadsScans(c: Checks, rows: seq<Row>)
    requires Loads(c, rows)
    ensures CrlRowsOk(c, rows)
  {
    forall i | 0 <= i < |rows| ensures CrlRowOk(c, rows[i]) { RowEntriesIs(c, rows[i]); }
  }

  lemma CrlOfSnoc(c: Checks, init: seq<Row>, last: Row)
    requires Loads(c, init) && RowLoads(c, last)
    ensures Loads(c, init + [last])
    ensures var it := ItemOf(c, last);
      CrlOf(c, init + [last]) == CrlOf(c, init) + if it.revoked then [CrlEntry(it.serial, it.rev)] else []
  {
    assert Items(c, init + [last]) == Items(c, init) + [ItemOf(c, last)];
    EntriesSnoc(Items(c, init), ItemOf(c, last));
  }

  lemma ScanSnoc(c: Checks, init: seq<Row>, last: Row)
    requires CrlRowsOk(c, init) && CrlRowOk(c, last)
    ensures CrlRowsOk(c, init + [last]) && ScanEntries(c, init + [last]) == ScanEntries(c, init) + RowEntries(c, last)
  {
    assert (init + [last])[..|init|] == init;
  }

  /** On a database that passes the load checks no row stops the scan, and the entries are those of
      the CRL specification. */
  lemma {:induction false} ScanIsCrl(c: Checks, rows: seq<Row>)
    requires Loads(c, rows)
    ensures CrlRowsOk(c, rows) && ScanEntries(c, rows) == CrlOf(c, rows)
    decreases |rows|
  {
    LoadsScans(c, rows);
    if rows != [] {
      var init, last := rows[..|rows| - 1], rows[|rows| - 1];
      assert rows == init + [last];
      assert RowLoads(c, last);
      ScanIsCrl(c, init);
      RowEntriesIs(c, last);
      CrlOfSnoc(c, init, last);
      ScanSnoc(c, init, last);
    }
  }

  /** Expiring again with the same clock changes nothing, so the count of changed rows is 0. */
  lemma ExpireAgain(rows: seq<Row>, expired: string -> bool)
    ensures ExpireRows(ExpireRows(rows, expired), expired) == ExpireRows(rows, expired)
    ensures Changed(ExpireRows(rows, expired), ExpireRows(ExpireRows(rows, expired), expired)) == {}
  {
    assert ExpireRows(ExpireRows(rows, expired), expired) == ExpireRows(rows, expired);
  }

  /** Two calls of `do_updatedb` with the same clock: when the first one succeeds, the second
      returns 0 and leaves the database as it is. */
  method UpdateTwice(db: CaDb, c: Checks, expired: string -> bool) returns (first: int, second: int)
    requires db.Valid()
    modifies db`data
    ensures db.Valid()
    ensures first != -1 ==> second == 0 && db.data == ExpireRows(old(db.data), expired)
  {
    first := db.DoUpdatedb(c, expired);
    ghost var once := db.data;
    second := db.DoUpdatedb(c, expired);
    if first != -1 {
      assert forall i :: 0 <= i < |once| && TypeChar(once[i]) == 'V' ==> once[i] == old(db.data)[i];
      ExpireAgain(old(db.data), expired);
    }
  }
}
