/** The three readers of the CA database: the CRL generator scans all rows, `ca -status` and
    the OCSP responder look one row up by serial. They agree on every number exactly when the
    serial texts of the revoked rows are canonical. */
module CaReaders {
  import opened CText
  import opened Serial
  import opened TxtDb
  import opened Revocation
  import opened CaState
  import opened CaInvariants

  // ---------- The CRL ----------

  datatype CrlEntry = CrlEntry(serial: int, rev: Revoked)

  /** What the scan takes from a row. */
  datatype Item = Item(revoked: bool, serial: int, rev: Revoked)

  function ItemOf(c: Checks, r: Row): Item
    requires RowLoads(c, r)
  {
    if TypeChar(r) == 'R' then Item(true, Value(r.serial), EntryOf(Unpack(c, r.rev).value))
    else Item(false, Value(r.serial), Revoked("", None, None, None))
  }

  function Items(c: Checks, rows: seq<Row>): (items: seq<Item>)
    requires Loads(c, rows)
    ensures |items| == |rows|
    ensures forall i :: 0 <= i < |rows| ==> RowLoads(c, rows[i]) && items[i] == ItemOf(c, rows[i])
  {
    seq(|rows|, i requires 0 <= i < |rows| => ItemOf(c, rows[i]))
  }

  function Entries(items: seq<Item>): seq<CrlEntry> {
    if items == [] then []
    else
      var last := items[|items| - 1];
      Entries(items[..|items| - 1]) + if last.revoked then [CrlEntry(last.serial, last.rev)] else []
  }

  /** The entries that the scan adds, in row order (before X509_CRL_sort). */
  function CrlOf(c: Checks, rows: seq<Row>): seq<CrlEntry>
    requires Loads(c, rows)
  {
    Entries(Items(c, rows))
  }

  /** What the CRL says about number `n`. */
  function Listed(es: seq<CrlEntry>, n: int): seq<Revoked> {
    if es == [] then []
    else Listed(es[..|es| - 1], n) + if es[|es| - 1].serial == n then [es[|es| - 1].rev] else []
  }

  // ---------- OCSP ----------

  /** The single response for a certificate of a known issuer; `NoResponse` where the responder
      adds none (expired, suspended and other types). */
  datatype Answer = NoResponse | UnknownStatus | GoodStatus | RevokedStatus(rev: Revoked)

  /** The responder's answer for serial number `n` and a known issuer. */
  function OcspAnswer(c: Checks, rows: seq<Row>, n: int): Answer
    requires Loads(c, rows)
  {
    var at := Find(rows, Key(DbSerial(n)));
    if at.None? then UnknownStatus
    else
      var r := rows[at.value];
      if TypeChar(r) == 'V' then GoodStatus
      else if TypeChar(r) == 'R' then RevokedStatus(EntryOf(Unpack(c, r.rev).value))
      else NoResponse
  }

  function OcspRevoked(a: Answer): seq<Revoked> {
    if a.RevokedStatus? then [a.rev] else []
  }

  // ---------- ca -status ----------

  datatype Status = NotPresent | StatusValid | StatusRevoked | StatusExpired | StatusSuspended | StatusUnknown

  function StatusOf(rows: seq<Row>, q: string): Status {
    var at := Find(rows, Key(StatusText(q)));
    if at.None? then NotPresent else StatusOfType(TypeChar(rows[at.value]))
  }

  function StatusOfType(ty: char): Status {
    if ty == 'V' then StatusValid
    else if ty == 'R' then StatusRevoked
    else if ty == 'E' then StatusExpired
    else if ty == 'S' then StatusSuspended
    else StatusUnknown
  }

  // ---------- Agreement ----------

  /** The item puts number `n` on the CRL. */
  predicate Lists(it: Item, n: int) {
    it.revoked && it.serial == n
  }

  lemma ListedSnoc(es: seq<CrlEntry>, e: CrlEntry, n: int)
    ensures Listed(es + [e], n) == Listed(es, n) + if e.serial == n then [e.rev] else []
  {
    assert (es + [e])[..|es|] == es;
  }

  /** One item more, seen through `Listed`. */
  lemma ListedItems(items: seq<Item>, n: int)
    requires items != []
    ensures var k := |items| - 1;
      Listed(Entries(items), n) == Listed(Entries(items[..k]), n) + if Lists(items[k], n) then [items[k].rev] else []
  {
    var k := |items| - 1;
    var es := Entries(items[..k]);
    if items[k].revoked {
      ListedSnoc(es, CrlEntry(items[k].serial, items[k].rev), n);
    } else {
      assert Entries(items) == es;
    }
  }

  lemma {:induction false} ListedNone(items: seq<Item>, n: int)
    requires forall i :: 0 <= i < |items| ==> !Lists(items[i], n)
    ensures Listed(Entries(items), n) == []
  {
    if items != [] {
      ListedNone(items[..|items| - 1], n);
      ListedItems(items, n);
    }
  }

  lemma {:induction false} ListedOne(items: seq<Item>, n: int, k: nat)
    requires k < |items| && Lists(items[k], n)
    requires forall i :: 0 <= i < |items| && i != k ==> !Lists(items[i], n)
    ensures Listed(Entries(items), n) == [items[k].rev]
  {
    var init := items[..|items| - 1];
    ListedItems(items, n);
    if k == |items| - 1 {
      ListedNone(init, n);
    } else {
      ListedOne(init, n, k);
    }
  }

  /** Every item that lists `n` shows: one makes the list nonempty, two make it longer. */
  lemma {:induction false} ListedMany(items: seq<Item>, n: int, j: nat, k: nat)
    requires j <= k < |items| && Lists(items[j], n) && Lists(items[k], n)
    ensures |Listed(Entries(items), n)| >= if j < k then 2 else 1
  {
    var init := items[..|items| - 1];
    ListedItems(items, n);
    if k < |items| - 1 {
      ListedMany(init, n, j, k);
    } else if j < k {
      ListedMany(init, n, j, j);
    }
  }

  /** A number lookup that finds a row finds a canonical one with that number. */
  lemma FoundRow(c: Checks, rows: seq<Row>, n: int)
    requires Loads(c, rows) && Find(rows, Key(DbSerial(n))).Some?
    ensures var r := rows[Find(rows, Key(DbSerial(n))).value];
      Value(r.serial) == n && Canonical(r.serial)
  {
    var r := rows[Find(rows, Key(DbSerial(n))).value];
    DbSerialRoundTrip(n);
    SameKeySameValue(r.serial, DbSerial(n));
    FoundByNumberIff(r.serial);
  }

  /** A canonical row is found by its number. */
  lemma CanonicalRowFound(c: Checks, rows: seq<Row>, i: nat)
    requires Loads(c, rows) && DistinctKeys(rows) && i < |rows| && Canonical(rows[i].serial)
    ensures Find(rows, Key(DbSerial(Value(rows[i].serial)))) == Some(i)
  {
    FoundByNumberIff(rows[i].serial);
    FindIs(rows, i);
  }

  /** What is asked of the readers: for every number the CRL carries exactly the entry that the
      responder answers with, once, and nothing when it does not answer REVOKED. */
  ghost predicate Agree(c: Checks, rows: seq<Row>)
    requires Loads(c, rows)
  {
    forall n: int :: Listed(CrlOf(c, rows), n) == OcspRevoked(OcspAnswer(c, rows, n))
  }

  ghost predicate RevokedCanonical(rows: seq<Row>) {
    forall i :: 0 <= i < |rows| && TypeChar(rows[i]) == 'R' ==> Canonical(rows[i].serial)
  }

  /** The only row that can list `n` is the one a lookup of `n` finds. */
  lemma ListsIsFound(c: Checks, rows: seq<Row>, n: int, i: nat)
    requires Loads(c, rows) && DistinctKeys(rows) && RevokedCanonical(rows) && i < |rows|
    ensures Lists(Items(c, rows)[i], n) <==>
      Find(rows, Key(DbSerial(n))) == Some(i) && TypeChar(rows[i]) == 'R'
  {
    assert RowLoads(c, rows[i]);
    if Lists(Items(c, rows)[i], n) {
      CanonicalRowFound(c, rows, i);
    } else if Find(rows, Key(DbSerial(n))) == Some(i) {
      FoundRow(c, rows, n);
    }
  }

  lemma FoundRevoked(c: Checks, rows: seq<Row>, n: int, k: nat)
    requires Loads(c, rows) && Find(rows, Key(DbSerial(n))) == Some(k)
    ensures OcspRevoked(OcspAnswer(c, rows, n)) == if TypeChar(rows[k]) == 'R' then [Items(c, rows)[k].rev] else []
  {
    assert RowLoads(c, rows[k]);
  }

  lemma AgreeAt(c: Checks, rows: seq<Row>, n: int)
    requires Loads(c, rows) && DistinctKeys(rows) && RevokedCanonical(rows)
    ensures Listed(CrlOf(c, rows), n) == OcspRevoked(OcspAnswer(c, rows, n))
  {
    var items := Items(c, rows);
    var at := Find(rows, Key(DbSerial(n)));
    forall i | 0 <= i < |rows| ensures Lists(items[i], n) <==> at == Some(i) && TypeChar(rows[i]) == 'R' {
      ListsIsFound(c, rows, n, i);
    }
    if at.Some? { FoundRevoked(c, rows, n, at.value); }
    if at.Some? && TypeChar(rows[at.value]) == 'R' {
      ListedOne(items, n, at.value);
    } else {
      ListedNone(items, n);
    }
  }

  /** On every database that passes the load checks and can be indexed: the CRL and the OCSP
      responder agree on all numbers, with the same date, reason, hold and invalidity data, if
      and only if every revoked row has a canonical serial text. */
  lemma AgreementIff(c: Checks, rows: seq<Row>)
    requires Loads(c, rows) && DistinctKeys(rows)
    ensures Agree(c, rows) <==> RevokedCanonical(rows)
  {
    if RevokedCanonical(rows) {
      forall n: int ensures Listed(CrlOf(c, rows), n) == OcspRevoked(OcspAnswer(c, rows, n)) {
        AgreeAt(c, rows, n);
      }
    } else {
      var i :| 0 <= i < |rows| && TypeChar(rows[i]) == 'R' && !Canonical(rows[i].serial);
      DisagreeAt(c, rows, i);
    }
  }

  /** If a lookup of the number of a non-canonical row finds a revoked row, it is another row
      that lists the same number. */
  lemma OtherRowLists(c: Checks, rows: seq<Row>, i: nat)
    requires Loads(c, rows) && i < |rows| && !Canonical(rows[i].serial)
    ensures var n := Value(rows[i].serial);
      var at := Find(rows, Key(DbSerial(n)));
      at.Some? && TypeChar(rows[at.value]) == 'R' ==> at.value != i && Lists(Items(c, rows)[at.value], n)
  {
    var n := Value(rows[i].serial);
    var at := Find(rows, Key(DbSerial(n)));
    if at.Some? {
      FoundRow(c, rows, n);
      assert RowLoads(c, rows[at.value]);
    }
  }

  /** A revoked row with a non-canonical serial makes the readers disagree on its number. */
  lemma DisagreeAt(c: Checks, rows: seq<Row>, i: nat)
    requires Loads(c, rows) && i < |rows| && TypeChar(rows[i]) == 'R' && !Canonical(rows[i].serial)
    ensures var n := Value(rows[i].serial);
      Listed(CrlOf(c, rows), n) != OcspRevoked(OcspAnswer(c, rows, n))
  {
    var n := Value(rows[i].serial);
    var items := Items(c, rows);
    AnswerByType(c, rows, n);
    if OcspAnswer(c, rows, n).RevokedStatus? {
      var j := Find(rows, Key(DbSerial(n))).value;
      OtherRowLists(c, rows, i);
      ListedMany(items, n, if i < j then i else j, if i < j then j else i);
    } else {
      ListedMany(items, n, i, i);
    }
  }

  /** The responder's answer by the type of the row that is found. */
  lemma AnswerByType(c: Checks, rows: seq<Row>, n: int)
    requires Loads(c, rows)
    ensures var at, a := Find(rows, Key(DbSerial(n))), OcspAnswer(c, rows, n);
      && (a.UnknownStatus? <==> at.None?)
      && (a.GoodStatus? <==> at.Some? && TypeChar(rows[at.value]) == 'V')
      && (a.RevokedStatus? <==> at.Some? && TypeChar(rows[at.value]) == 'R')
  {
  }

  /** `ca -status` given `q` and the responder asked for number `n` tell the same. */
  ghost predicate SameStatus(c: Checks, rows: seq<Row>, q: string, n: int)
    requires Loads(c, rows)
  {
    && (StatusOf(rows, q) == StatusRevoked <==> OcspAnswer(c, rows, n).RevokedStatus?)
    && (StatusOf(rows, q) == NotPresent <==> OcspAnswer(c, rows, n).UnknownStatus?)
    && (StatusOf(rows, q) == StatusValid <==> OcspAnswer(c, rows, n).GoodStatus?)
  }

  lemma StatusByKey(c: Checks, rows: seq<Row>, q: string, n: int)
    requires Loads(c, rows) && Key(StatusText(q)) == Key(DbSerial(n))
    ensures SameStatus(c, rows, q, n)
  {
    AnswerByType(c, rows, n);
  }

  /** On every loadable database: any spelling that `ca -status` can find reports Revoked, Valid or
      not present exactly when the responder answers revoked, good or unknown for its number. */
  lemma StatusAgrees(c: Checks, rows: seq<Row>, q: string)
    requires Loads(c, rows) && Spelling(q) && StatusFinds(q)
    ensures SameStatus(c, rows, q, SpelledNumber(q))
  {
    StatusTextKeyIff(q);
    StatusByKey(c, rows, q, SpelledNumber(q));
  }

  /** Any other spelling finds no row with a canonical serial. */
  lemma StatusMisses(c: Checks, rows: seq<Row>, q: string)
    requires Loads(c, rows) && AllCanonical(rows) && Spelling(q) && !StatusFinds(q)
    ensures StatusOf(rows, q) == NotPresent
  {
    var at := Find(rows, Key(StatusText(q)));
    if at.Some? {
      assert RowLoads(c, rows[at.value]);
      MissedSpelling(q, rows[at.value].serial);
    }
  }

  /** With canonical serials, over all spellings of numbers of either sign: `ca -status` and the
      responder tell the same if and only if the spelling can be found or the number is not in the
      database. */
  lemma StatusAgreesIff(c: Checks, rows: seq<Row>, q: string)
    requires Loads(c, rows) && AllCanonical(rows) && Spelling(q)
    ensures SameStatus(c, rows, q, SpelledNumber(q)) <==>
      StatusFinds(q) || OcspAnswer(c, rows, SpelledNumber(q)).UnknownStatus?
  {
    if StatusFinds(q) {
      StatusAgrees(c, rows, q);
    } else {
      StatusMisses(c, rows, q);
    }
  }

  /** The three readers of a loadable database with canonical serials. */
  lemma CanonicalReaders(c: Checks, rows: seq<Row>, q: string)
    requires Loads(c, rows) && DistinctKeys(rows) && AllCanonical(rows) && Spelling(q)
    ensures Agree(c, rows)
    ensures (StatusOf(rows, q) == StatusRevoked <==> Listed(CrlOf(c, rows), SpelledNumber(q)) != []) <==>
      StatusFinds(q) || Listed(CrlOf(c, rows), SpelledNumber(q)) == []
  {
    AgreementIff(c, rows);
    AgreeAt(c, rows, SpelledNumber(q));
    if StatusFinds(q) {
      StatusAgrees(c, rows, q);
    } else {
      StatusMisses(c, rows, q);
    }
  }

  /** A canonical database on which the CRL revokes -2748 and `ca -status -ABC` finds nothing. */
  lemma OddNegativeStatusMissed(c: Checks, exp: string, time: string)
    requires c.isTime(exp) && c.isUtc(time) && ',' !in time
    ensures var rows := [Row("R", exp, time, "-0ABC", "unknown", "/CN=x")];
      && Loads(c, rows) && DistinctKeys(rows) && AllCanonical(rows)
      && Spelling("-ABC") && Listed(CrlOf(c, rows), SpelledNumber("-ABC")) != []
      && OcspAnswer(c, rows, SpelledNumber("-ABC")).RevokedStatus? && StatusOf(rows, "-ABC") == NotPresent
  {
    var rows := [Row("R", exp, time, "-0ABC", "unknown", "/CN=x")];
    OddNegativeIsMissed();
    TimeOnlyUnpacks(c, time);
    assert RowLoads(c, rows[0]);
    CanonicalRowFound(c, rows, 0);
    FoundRevoked(c, rows, Value("-0ABC"), 0);
    AgreeAt(c, rows, Value("-0ABC"));
    NotFoundSingle(rows, Key(StatusText("-ABC")));
  }

  lemma NotFoundSingle(rows: seq<Row>, key: string)
    requires |rows| == 1 && Key(rows[0].serial) != key
    ensures Find(rows, key).None?
  {
  }

  lemma TimeOnlyUnpacks(c: Checks, time: string)
    requires ',' !in time && c.isUtc(time)
    ensures Unpack(c, time) == Some(RevInfo(time, NO_STATUS, None, None))
  {
    SplitCommaJoin(time, None);
    assert time + CommaField(None) == time;
  }

  /** A loadable database on which the CRL revokes 171 and the responder does not know it. */
  lemma LowerCaseRevocationMissed(c: Checks, exp: string, time: string)
    requires c.isTime(exp) && c.isUtc(time) && ',' !in time
    ensures var rows := [Row("R", exp, time, "ab", "unknown", "/CN=x")];
      && Loads(c, rows) && DistinctKeys(rows)
      && Listed(CrlOf(c, rows), 171) != [] && OcspAnswer(c, rows, 171) == UnknownStatus
  {
    var r := Row("R", exp, time, "ab", "unknown", "/CN=x");
    var rows := [r];
    LowerCaseSerialIsMissed();
    TimeOnlyUnpacks(c, time);
    assert RowLoads(c, r);
    ListedMany(Items(c, rows), 171, 0, 0);
    NotFoundSingle(rows, Key(DbSerial(171)));
  }

  // ---------- Issued numbers ----------

  /** With canonical serials a number is free for issuing exactly when no row has it, and no
      two rows share a number. */
  lemma NumbersAreUnique(c: Checks, rows: seq<Row>, n: int)
    requires Loads(c, rows) && DistinctKeys(rows) && AllCanonical(rows)
    ensures Find(rows, Key(DbSerial(n))).Some? <==> exists i :: 0 <= i < |rows| && Value(rows[i].serial) == n
    ensures forall i, j :: 0 <= i < j < |rows| ==> Value(rows[i].serial) != Value(rows[j].serial)
  {
    if Find(rows, Key(DbSerial(n))).Some? { FoundRow(c, rows, n); }
    forall i | 0 <= i < |rows| && Value(rows[i].serial) == n ensures Find(rows, Key(DbSerial(n))) == Some(i) {
      CanonicalRowFound(c, rows, i);
    }
    forall i, j | 0 <= i < j < |rows| ensures Value(rows[i].serial) != Value(rows[j].serial) {
      DifferentNumbers(c, rows, i, j);
    }
  }

  lemma DifferentNumbers(c: Checks, rows: seq<Row>, i: nat, j: nat)
    requires Loads(c, rows) && DistinctKeys(rows) && AllCanonical(rows) && i < j < |rows|
    ensures Value(rows[i].serial) != Value(rows[j].serial)
  {
    CanonicalRowFound(c, rows, i);
    CanonicalRowFound(c, rows, j);
  }
}
