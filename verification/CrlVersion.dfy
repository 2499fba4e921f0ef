/** When a CRL is marked version 2: entry extensions and the reasons of revoked rows. */
module CrlVersion {
  import opened CText
  import opened TxtDb
  import opened Revocation
  import opened CaState
  import opened CaReaders

  predicate HasExtension(rev: Revoked) {
    rev.reasonExt.Some? || rev.holdExt.Some? || rev.invalidityExt.Some?
  }

  /** Whether the scan sees a revoked row with a reason (`make_revoked` returning 2). */
  ghost predicate SomeReason(items: seq<Item>) {
    exists i :: 0 <= i < |items| && items[i].revoked && items[i].rev.reasonExt.Some?
  }

  /** Hold and invalidity extensions come with a reason extension. */
  ghost predicate ReasonLeads(items: seq<Item>) {
    forall i :: 0 <= i < |items| && HasExtension(items[i].rev) ==> items[i].rev.reasonExt.Some?
  }

  lemma ItemsReasonLeads(c: Checks, rows: seq<Row>)
    requires Loads(c, rows)
    ensures ReasonLeads(Items(c, rows))
  {
    forall i | 0 <= i < |rows| && HasExtension(Items(c, rows)[i].rev)
      ensures Items(c, rows)[i].rev.reasonExt.Some?
    {
      assert RowLoads(c, rows[i]);
      if TypeChar(rows[i]) == 'R' { ExtraNeedsReason(c, rows[i].rev); }
    }
  }

  ghost predicate SomeExtension(es: seq<CrlEntry>) {
    exists e :: e in es && HasExtension(e.rev)
  }

  /** The CRL carries an entry extension exactly when some revoked row has a reason. */
  lemma {:induction false} EntryExtensionIff(items: seq<Item>)
    requires ReasonLeads(items)
    ensures SomeReason(items) <==> SomeExtension(Entries(items))
  {
    if items != [] {
      var init, last := items[..|items| - 1], items[|items| - 1];
      EntryExtensionIff(init);
      var es := Entries(init);
      SomeReasonSnoc(init, last);
      assert items == init + [last];
      if last.revoked {
        var e := CrlEntry(last.serial, last.rev);
        assert Entries(items) == es + [e];
        assert HasExtension(e.rev) ==> SomeExtension(es + [e]) by { assert e in es + [e]; }
        assert SomeExtension(es) ==> SomeExtension(es + [e]) by {
          if SomeExtension(es) {
            var x :| x in es && HasExtension(x.rev);
            assert x in es + [e];
          }
        }
      }
    }
  }

  /** On every loadable database: the CRL carries an entry extension exactly when some revoked row
      has a reason. */
  lemma CrlExtensionIff(c: Checks, rows: seq<Row>)
    requires Loads(c, rows)
    ensures SomeReason(Items(c, rows)) <==> SomeExtension(CrlOf(c, rows))
  {
    ItemsReasonLeads(c, rows);
    EntryExtensionIff(Items(c, rows));
  }

  lemma SomeReasonSnoc(init: seq<Item>, last: Item)
    ensures SomeReason(init + [last]) <==> SomeReason(init) || (last.revoked && last.rev.reasonExt.Some?)
  {
    var items := init + [last];
    assert items[|init|] == last;
    if SomeReason(init) {
      var i :| 0 <= i < |init| && init[i].revoked && init[i].rev.reasonExt.Some?;
      assert items[i] == init[i];
    }
  }
}
