/** The OCSP responder's view of the CA database: `make_ocsp_response` and `lookup_serial`. */
module Ocsp {
  import opened CText
  import opened Serial
  import opened TxtDb
  import opened Revocation
  import opened CaState
  import opened CaReaders
  import opened CaDb

  /** A certificate id of a request: whether its digest is known, the issuer it names (by what
      `OCSP_id_issuer_cmp` compares), and its serial number. */
  datatype CertId = CertId(digestKnown: bool, issuer: int, serial: int)

  /** Malformed request, internal error, or the single responses that were added, each with
      the position of its certificate id. */
  datatype Response = MalformedRequest | InternalError | Answers(single: seq<(nat, Answer)>)

  /** The row's answer; None is an internal error, when the revocation time does not parse. The
      result of `unpack_revinfo` is not looked at, so a bad reason gives a bare revocation. */
  function RowAnswer(c: Checks, r: Row): Option<Answer> {
    if TypeChar(r) == 'V' then Some(GoodStatus)
    else if TypeChar(r) != 'R' then Some(NoResponse)
    else
      var info := Unpack(c, r.rev);
      if info.Some? then Some(RevokedStatus(EntryOf(info.value)))
      else if c.isUtc(SplitComma(r.rev).0) then Some(RevokedStatus(Revoked(SplitComma(r.rev).0, None, None, None)))
      else None
  }

  /** The answer for one certificate id. */
  function IdAnswer(c: Checks, rows: seq<Row>, cas: seq<int>, id: CertId): Option<Answer> {
    if id.issuer !in cas then Some(UnknownStatus)
    else
      var at := Find(rows, Key(DbSerial(id.serial)));
      if at.None? then Some(UnknownStatus) else RowAnswer(c, rows[at.value])
  }

  /** The responses for the first ids of a request. */
  function Responses(c: Checks, rows: seq<Row>, cas: seq<int>, ids: seq<CertId>): Response {
    if ids == [] then Answers([])
    else
      var before := Responses(c, rows, cas, ids[..|ids| - 1]);
      var id := ids[|ids| - 1];
      if !before.Answers? then before
      else if !id.digestKnown then InternalError
      else
        var a := IdAnswer(c, rows, cas, id);
        if a.None? then InternalError
        else if a.value.NoResponse? then before
        else Answers(before.single + [(|ids| - 1, a.value)])
  }

  /** `lookup_serial`. */
  method LookupSerial(db: CaDb, serial: int) returns (at: Option<nat>)
    requires db.Valid()
    ensures at == Find(db.data, Key(DbSerial(serial)))
  {
    var itmp := if serial == 0 then "00" else Bn2Hex(serial);
    at := db.GetBySerial(itmp);
  }

  /** The search through the CA certificates of the responder. */
  method FindIssuer(cas: seq<int>, issuer: int) returns (found: bool)
    ensures found <==> issuer in cas
  {
    found := false;
    var jj := 0;
    while jj < |cas| && !found
      invariant 0 <= jj <= |cas| && (found <==> issuer in cas[..jj])
    {
      assert cas[..jj + 1] == cas[..jj] + [cas[jj]];
      if cas[jj] == issuer {
        found := true;
      }
      jj := jj + 1;
    }
    assert !found ==> cas[..jj] == cas;
  }

  /** The status of a revoked row, as the responder fills it in. */
  method RevokedAnswer(c: Checks, rev: string) returns (a: Option<Answer>)
    requires '\0' !in rev
    ensures a == RowAnswer(c, Row("R", "", rev, "", "", ""))
    ensures Unpack(c, rev).Some? ==> a.Some? && a.value.RevokedStatus? && Publishes(a.value.rev, Unpack(c, rev).value)
  {
    var info := UnpackRevinfo(c, rev);
    if info.None? {
      var time, _, _ := CutFields(rev);
      return if c.isUtc(time) then Some(RevokedStatus(Revoked(time, None, None, None))) else None;
    }
    var r := Revoked(info.value.time, None, None, None);
    if info.value.reason != NO_STATUS {
      r := r.(reasonExt := Some(info.value.reason));
    }
    ExtraNeedsReason(c, rev);
    if info.value.invalidity.Some? {
      r := r.(invalidityExt := info.value.invalidity);
    } else if info.value.hold.Some? {
      r := r.(holdExt := info.value.hold);
    }
    return Some(RevokedStatus(r));
  }

  /** The loop body of `make_ocsp_response` for an id whose digest is known. */
  method AnswerId(c: Checks, db: CaDb, cas: seq<int>, id: CertId) returns (a: Option<Answer>)
    requires db.Valid() && db.CStrings()
    ensures a == IdAnswer(c, db.data, cas, id)
  {
    var found := FindIssuer(cas, id.issuer);
    var inf := LookupSerial(db, id.serial);
    if !found || inf.None? {
      return Some(UnknownStatus);
    }
    var ty := TypeChar(db.data[inf.value]);
    if ty == 'V' {
      return Some(GoodStatus);
    } else if ty == 'R' {
      a := RevokedAnswer(c, db.data[inf.value].rev);
      return;
    }
    return Some(NoResponse);
  }

  /** `make_ocsp_response`, up to signing. */
  method MakeOcspResponse(c: Checks, db: CaDb, cas: seq<int>, ids: seq<CertId>) returns (resp: Response)
    requires db.Valid() && db.CStrings()
    ensures ids == [] ==> resp == MalformedRequest
    ensures ids != [] ==> resp == Responses(c, db.data, cas, ids)
  {
    if |ids| == 0 {
      return MalformedRequest;
    }
    var bs: seq<(nat, Answer)> := [];
    for i := 0 to |ids|
      invariant Responses(c, db.data, cas, ids[..i]) == Answers(bs)
    {
      assert ids[..i + 1][..i] == ids[..i];
      if !ids[i].digestKnown {
        ErrorIsFinal(c, db.data, cas, ids, i + 1);
        return InternalError;
      }
      var a := AnswerId(c, db, cas, ids[i]);
      if a.None? {
        ErrorIsFinal(c, db.data, cas, ids, i + 1);
        return InternalError;
      }
      if !a.value.NoResponse? {
        bs := bs + [(i, a.value)];
      }
    }
    assert ids[..|ids|] == ids;
    resp := Answers(bs);
  }

  lemma {:induction false} ErrorIsFinal(c: Checks, rows: seq<Row>, cas: seq<int>, ids: seq<CertId>, n: nat)
    requires n <= |ids| && Responses(c, rows, cas, ids[..n]) == InternalError
    ensures Responses(c, rows, cas, ids) == InternalError
  {
    if n == |ids| {
      assert ids[..n] == ids;
    } else {
      assert ids[..|ids| - 1][..n] == ids[..n];
      ErrorIsFinal(c, rows, cas, ids[..|ids| - 1], n);
    }
  }

  /** On a database that passes the load checks, an id of a known issuer gets the answer that
      the CRL agrees with. */
  lemma KnownIssuerAnswer(c: Checks, rows: seq<Row>, cas: seq<int>, id: CertId)
    requires Loads(c, rows) && id.issuer in cas
    ensures IdAnswer(c, rows, cas, id) == Some(OcspAnswer(c, rows, id.serial))
  {
    var at := Find(rows, Key(DbSerial(id.serial)));
    if at.Some? {
      assert RowLoads(c, rows[at.value]);
    }
  }

  /** An id of an issuer that the responder does not answer for is unknown, whatever its serial. */
  lemma UnknownIssuerAnswer(c: Checks, rows: seq<Row>, cas: seq<int>, id: CertId)
    requires id.issuer !in cas
    ensures IdAnswer(c, rows, cas, id) == Some(UnknownStatus)
  {
  }

  /** On a loadable database only an id with an unknown digest is an error, and then there is no
      answer for any id. */
  lemma {:induction false} ErrorIff(c: Checks, rows: seq<Row>, cas: seq<int>, ids: seq<CertId>)
    requires Loads(c, rows)
    ensures Responses(c, rows, cas, ids) == InternalError <==> exists i :: 0 <= i < |ids| && !ids[i].digestKnown
    ensures Responses(c, rows, cas, ids).Answers? <==> forall i :: 0 <= i < |ids| ==> ids[i].digestKnown
  {
    if ids != [] {
      var init, id := ids[..|ids| - 1], ids[|ids| - 1];
      ErrorIff(c, rows, cas, init);
      if id.issuer in cas { KnownIssuerAnswer(c, rows, cas, id); }
      assert forall i :: 0 <= i < |init| ==> init[i] == ids[i];
      assert ids[|ids| - 1] == id;
    }
  }

  /** The responder does not check its database: a revocation whose reason does not read is
      answered with its time alone, and one whose time does not read is an error. */
  lemma UnreadableRevocation(c: Checks, r: Row, time: string, rest: string)
    requires TypeChar(r) == 'R' && r.rev == time + "," + rest && ',' !in time && Unpack(c, r.rev).None?
    ensures RowAnswer(c, r) == if c.isUtc(time) then Some(RevokedStatus(Revoked(time, None, None, None))) else None
  {
    SplitCommaJoin(time, Some(rest));
    assert time + CommaField(Some(rest)) == time + "," + rest;
  }

  /** The answers stand in the order of their ids, one at most for each. */
  ghost predicate InOrder(single: seq<(nat, Answer)>, n: nat) {
    (forall i, j :: 0 <= i < j < |single| ==> single[i].0 < single[j].0) &&
    (forall i :: 0 <= i < |single| ==> single[i].0 < n)
  }

  /** A response answers an id exactly when its row has an answer, with that answer, once, and in
      the order of the request. */
  lemma {:induction false} AnsweredFor(c: Checks, rows: seq<Row>, cas: seq<int>, ids: seq<CertId>, k: nat, a: Answer)
    requires Responses(c, rows, cas, ids).Answers?
    ensures (k, a) in Responses(c, rows, cas, ids).single <==>
      k < |ids| && IdAnswer(c, rows, cas, ids[k]) == Some(a) && a != NoResponse
    ensures InOrder(Responses(c, rows, cas, ids).single, |ids|)
  {
    if ids != [] {
      AnsweredFor(c, rows, cas, ids[..|ids| - 1], k, a);
    }
  }

  /** Every successful response: it says REVOKED for an id of a known issuer exactly when the
      CRL made from the same database lists that serial, with the same data. */
  lemma ResponseMatchesCrl(c: Checks, rows: seq<Row>, cas: seq<int>, ids: seq<CertId>, k: nat, rev: Revoked)
    requires Loads(c, rows) && DistinctKeys(rows) && RevokedCanonical(rows)
    requires Responses(c, rows, cas, ids).Answers? && k < |ids| && ids[k].issuer in cas
    ensures (k, RevokedStatus(rev)) in Responses(c, rows, cas, ids).single <==>
      Listed(CrlOf(c, rows), ids[k].serial) == [rev]
  {
    AnsweredFor(c, rows, cas, ids, k, RevokedStatus(rev));
    KnownIssuerAnswer(c, rows, cas, ids[k]);
    AgreeAt(c, rows, ids[k].serial);
  }
}
