/** The readers of the CA database over its history: their agreement after any run, and what a CRL
    lists for good. */
module CaHistory {
  import opened Serial
  import opened TxtDb
  import opened Revocation
  import opened CaState
  import opened CaInvariants
  import opened CaReaders

  /** The three readers after any run that started from a sound database with canonical serials,
      such as the empty one: CRL and responder agree on every number, and `ca -status` reports
      Revoked for any spelling exactly when the CRL lists its number, unless the number is listed
      and the spelling is one that `ca -status` cannot find. */
  lemma ReadersAgreeAfterRun(c: Checks, st: DbState, steps: seq<Step>, q: string)
    requires Sane(c) && AllShaped(st.rows) && Indexed(st) && Loads(c, st.rows) && AllCanonical(st.rows)
    requires (forall s :: s in steps ==> StepClean(s)) && Spelling(q)
    ensures Loads(c, Run(c, st, steps).rows) <==> RunFits(c, st, steps)
    ensures RunFits(c, st, steps) ==>
      var rows := Run(c, st, steps).rows;
      && Agree(c, rows)
      && ((StatusOf(rows, q) == StatusRevoked <==> Listed(CrlOf(c, rows), SpelledNumber(q)) != []) <==>
          StatusFinds(q) || Listed(CrlOf(c, rows), SpelledNumber(q)) == [])
  {
    RunKeeps(c, st, steps);
    if RunFits(c, st, steps) { CanonicalReaders(c, Run(c, st, steps).rows, q); }
  }

  /** What a CRL lists stays listed, with the same data, in the CRL of every later database. */
  lemma ListedStays(c: Checks, rows: seq<Row>, later: seq<Row>, n: int)
    requires Loads(c, rows) && DistinctKeys(rows) && AllCanonical(rows)
    requires Loads(c, later) && DistinctKeys(later) && AllCanonical(later) && Evolves(rows, later)
    ensures Listed(CrlOf(c, rows), n) != [] ==> Listed(CrlOf(c, later), n) == Listed(CrlOf(c, rows), n)
  {
    AgreeAt(c, rows, n);
    AgreeAt(c, later, n);
    AnswerByType(c, rows, n);
    if Listed(CrlOf(c, rows), n) != [] {
      var i := Find(rows, Key(DbSerial(n))).value;
      assert RowEvolves(rows[i], later[i]);
      assert later[i] == rows[i];
      FindIs(later, i);
      FoundRevoked(c, rows, n, i);
      FoundRevoked(c, later, n, i);
    }
  }
}
