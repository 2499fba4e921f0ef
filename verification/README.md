# Verified model of the OpenSSL command-line apps: state machines, codecs and walks

A Dafny model of the parts of the OpenSSL apps that hold state or transform data, with proofs of
what they keep and what they compute. `dafny verify dfyconfig.toml` checks the whole project.

## What is modelled

- **The CA certificate database** (`ca.c`, `ocsp.c`, and the library code they stand on).
  `Serial` is the serial text codec and the index key; `Revocation` the revocation field printer
  and parser; `TxtDb` the file format. `CaState` specifies the database operations on values,
  `CaDb` is the object with its rows and two indexes, changed in place. `CaInvariants` proves what
  every run of operations keeps, `CaReaders` compares the three readers (CRL scan, `ca -status`,
  OCSP), `CaHistory` follows them over runs, `CrlVersion` is the
  version of a CRL, `CaLaws` says what each operation means to the readers, `Policy` is the subject building, `CaMain` the issue loop and a whole invocation with its
  files, `Ocsp` the responder loop.
- **Password hashing** (`passwd.c`): `Crypt64` (6-bit printing and index tables), `ShaCrypt`
  (digest loops), `ShaSettings` (settings text, buffers, the whole function), `Md5Crypt`;
  `SchemeLaws` states what is hashed and printed piece by piece.
- **CMS option pairing** (`cms.c`): `CmsSpec` (what the options mean), `CmsAccept`
  (commands that do not sign, recipients), `CmsOptions` (the variables,
  stacks and linked list that the option loop updates, and the consuming loops).
- **PKCS#12 bags** (`pkcs12.c`): `Pkcs12`.
- **CMP section lists** (`cmp.c`): `CmpSections`.
- **Configuration values** (`configutl.c` and the reader in `conf_def.c`): `ConfEscape`.

`CText` holds C string helpers. Code that updates things in place is a class or a method with
loops, proved against functions on values; the lemmas are about those functions.

## Where the code does less than promised

Each of these has a counterexample or an exact condition below.

1. The load check accepts lower-case serials and a zero byte after a minus sign, but the serial
   index compares text and every lookup writes upper case. CRL and OCSP agree exactly when all
   revoked rows have canonical serial text (`AgreementIff`). Everything the program writes itself
   is canonical. `ca -status` pads its argument to an even length counting the minus sign, so it
   finds a negative serial exactly when an even number of digits is given that does not start with
   a zero byte (`StatusTextKeyIff`); with canonical serials it agrees with the responder exactly for
   such spellings, for all unsigned ones, and for numbers not in the database (`StatusAgreesIff`).
2. A database that loads does not always load after a change (`RevokeLoadsIff`, `RunKeeps`,
   `InvocationsKeep` give the exact conditions). A row added by `-valid` or `-revoke` takes the
   notAfter of the certificate as it is, and loads exactly when that is a time
   (`BadNotAfterBreaksDatabase`, `ValidBreaksFile`). A row revoked in place loads again exactly when
   the current time prints as a UTCTime and the type field was not empty, or the empty text were a
   time (`RevokedRowLoadsIff`): from 2050 on a GeneralizedTime is written, which the check refuses
   (`GeneralizedTimeBreaksDatabase`), and in a row with an empty type the terminating NUL falls on
   the expiry date (`EmptyTypeBreaksDatabase`). A file that no longer loads is left alone by every
   later invocation.
3. A database file is read back as written exactly when all rows are storable (`SaveLoadIff`).
4. The manual of `cmp` says later sections override earlier ones and the default section is only a
   fallback. The lookup asks the default section as soon as the last section has no value, so it
   can hide a value of an earlier section (`DocumentedIff`). The code is followed.
5. The value printer does not escape backticks, which the reader takes for quotes; a value is read
   back exactly when it has none (`ValueRoundTripIff`).
6. `cms` files key parameters under a bare index, of a recipient if the operation is an encryption
   at that moment and of a signer otherwise. Every parameter reaches the party it was given for
   exactly when all of them were given under the kind of operation, encryption or not, that the
   command ends up with (`RoutingIff`). Operations without signers or recipients ignore parameters.
7. The responder adds no answer for expired and suspended rows, and `shacrypt` fails on an empty
   password or salt, because a zero-byte allocation returns NULL. Both are modelled as they are.

## Assumptions

Time and object parsers (`Checks`), the hash (`Md`), `X509_NAME_oneline`, request checks, signing
and operator answers are parameters. The run theorems trust the outside with this and no more:
accepted time and object texts are free of newline, backslash and NUL (`Sane`); one-line subjects
have no newline or NUL (`SubjectsOneLine`, `CertClean`); a notAfter is a C string, not necessarily a
time; the clock prints plain text without a comma, not necessarily a UTCTime (`ClockClean`). RDN
numbers of a name do not fall (`Grouped`), as the decoder numbers them. Integers are unbounded where
the source uses BIGNUM; `strtoul` is 64-bit with wrap-around and saturation; bytes are numbers below
256.

## Model

| member | source | states |
|---|---|---|
| `Serial.DbSerialRoundTrip` | task5/openssl/apps/ca.c:1783-1786 | The serial text written for any number passes the load check and reads back, through both the load-time meaning and `BN_hex2bn`, as that number |
| `Serial.LoadableReads` | task5/openssl/apps/ca.c:709-727 | `BN_hex2bn` succeeds on every serial text that the load check lets through and gives its number |
| `Serial.DbSerialCanonical` | task5/openssl/crypto/bn/bn_conv.c:15-41 | Everything `BN_bn2hex` writes for the database is in the canonical form that number lookups can find |
| `Serial.WrittenSerials` | task5/openssl/crypto/bn/bn_conv.c:15-41 | 0, 171, -1 and 256 are written `00`, `AB`, `-01` and `0100` |
| `Serial.FoundByNumberIff` | task5/openssl/apps/lib/apps.c:1462-1480 | Over all loadable texts: the serial index, which compares text after leading zeros, finds a text by its number if and only if the text is canonical |
| `Serial.SameKeySameValue` | task5/openssl/apps/lib/apps.c:1462-1480 | Two loadable serial texts that the index calls equal denote the same number |
| `Serial.DbSerialKeyInjective` | task5/openssl/apps/ocsp.c:1189-1210 | A lookup by number never confuses two numbers |
| `Serial.StatusTextKeyIff` | task5/openssl/apps/ca.c:2205-2230 | For every spelling of a number, of either sign, case and parity: `ca -status` looks up the key of that number iff there is no minus sign, or it is followed by an even number of digits that do not start with a zero byte |
| `Serial.MissedSpelling` | task5/openssl/apps/ca.c:2212-2235 | Any other spelling selects no canonical serial at all |
| `Serial.OddNegativeIsMissed` | task5/openssl/apps/ca.c:2214-2227 | Counterexample: `-ABC` does not select the canonical serial `-0ABC` |
| `Serial.LowerCaseSerialIsMissed` | task5/openssl/apps/ca.c:709-727 | Counterexample: a lower-case serial passes the load check and is missed by every number lookup |
| `Revocation.MakeRevocationStr` | task5/openssl/apps/ca.c:2343-2425 | Returns the specified revocation text, or none when the argument is refused, and the computed allocation is exactly the text plus its NUL |
| `Revocation.FillRevocation` | task5/openssl/apps/ca.c:2401-2424 | The strlcpy and strlcat calls into the sized buffer truncate nothing |
| `Revocation.CutAtComma` | task5/openssl/apps/ca.c:2541-2560 | Cutting the copied field in place with a NUL leaves the head before the first comma and the rest intact behind it |
| `Revocation.UnpackRevinfo` | task5/openssl/apps/ca.c:2530-2639 | The in-place parser computes the declarative reading of a revocation field, for every string, including each refusal |
| `Revocation.RevocationRoundTrip` | task5/openssl/apps/ca.c:2343-2425 | For every revocation type and argument: the field is written iff the argument is accepted, and it unpacks to the same time, the reason code of section 5.3.1 of RFC 5280 and the same extra argument (commas included) iff the time is a UTCTime |
| `Revocation.MakeRevoked` | task5/openssl/apps/ca.c:2435-2487 | Returns 0 iff the field does not unpack, 2 iff the entry carries an extension; the entry has the time as date, the reason code if any, the hold instruction as hold extension and the invalidity time as invalidity extension |
| `Revocation.ExtraNeedsReason` | task5/openssl/apps/ca.c:2585-2621 | Hold and invalidity data never come without their reason code, never both, and the reason is always one of RFC 5280 |
| `TxtDb.WriteRow` | task5/openssl/crypto/txt_db/txt_db.c:201-225 | One row is written as its tab-escaped fields joined by tabs and ended by a newline |
| `TxtDb.TxtDbWrite` | task5/openssl/crypto/txt_db/txt_db.c:187-232 | The written file is the rows in order |
| `TxtDb.WrittenRow` | task5/openssl/crypto/txt_db/txt_db.c:201-225 | A row is written as its six fields with a tab between them, a backslash before a tab inside the last one, and a newline |
| `TxtDb.ReadLine` | task5/openssl/crypto/txt_db/txt_db.c:77-107 | The field loop computes the declarative parse of a line and accepts only lines with six fields |
| `TxtDb.TxtDbRead` | task5/openssl/crypto/txt_db/txt_db.c:20-125 | The reading loop computes the declarative reading of a whole file |
| `TxtDb.SaveLoadIff` | task5/openssl/crypto/txt_db/txt_db.c:187-232 | Over all row sequences: the saved file loads back as the same rows iff no field has a newline, no field but the last ends in a backslash and no first field starts with `#` |
| `TxtDb.StorableRoundTrip` | task5/openssl/crypto/txt_db/txt_db.c:187-232 | Storable rows survive saving and loading |
| `TxtDb.ReadStorable` | task5/openssl/crypto/txt_db/txt_db.c:55-112 | Whatever is read from any file is storable again |
| `TxtDb.ReadBackOrRefused` | task5/openssl/crypto/txt_db/txt_db.c:55-112 | Rows that are storable but for an arbitrary second field are read back from their file as themselves or not at all, the first exactly when all are storable: never as other rows |
| `CaState.BuildNamesIff` | task5/openssl/crypto/txt_db/txt_db.c:147-185 | The name index is built iff no two valid rows share a name; it is then truthful, of valid rows only, and complete |
| `CaState.IndexIff` | task5/openssl/apps/lib/apps.c:1746-1769 | Indexing succeeds iff serial keys, and valid names where they must be unique, are pairwise distinct |
| `CaState.InsertKeeps` | task5/openssl/crypto/txt_db/txt_db.c:234-277 | A row accepted by both indexes is appended and all index invariants survive |
| `CaState.RevokeAbsent` | task5/openssl/apps/ca.c:2128-2170 | Revoking an unknown certificate succeeds iff the indexes take its row and the arguments are accepted; it adds exactly one row, valid or already revoked, and the recursion has depth one |
| `CaState.RevokeKeeps` | task5/openssl/apps/ca.c:2095-2199 | Revocation, successful or not, keeps the indexes usable and moves rows only forward |
| `CaState.ExpireKeeps` | task5/openssl/apps/ca.c:2284-2312 | Expiry keeps the indexes usable and moves rows only forward |
| `CaInvariants.CertRowLoadsIff` | task5/openssl/apps/ca.c:2134-2151 | The row added for a certificate passes the load checks iff its notAfter is a time, which nothing checks before it is added |
| `CaInvariants.CertRowShaped` | task5/openssl/apps/ca.c:2106-2151 | For any notAfter the row added for a certificate has a canonical serial and survives saving in every other field |
| `CaInvariants.RevokeLoadsIff` | task5/openssl/apps/ca.c:2128-2194 | On every loadable database, for every `-revoke` or `-valid` that takes effect: the new rows load iff, for a new row, notAfter is a time and (unless added as valid) the clock prints a UTCTime, and for a row in the database, the clock prints a UTCTime and the type is not empty |
| `CaInvariants.BadNotAfterBreaksDatabase` | task5/openssl/apps/ca.c:2136-2139 | Counterexample: adding a certificate whose notAfter is no time succeeds and leaves rows that the load check refuses |
| `CaInvariants.RevokedRowLoadsIff` | task5/openssl/apps/ca.c:2185-2192 | A loadable row revoked in place passes the load checks again iff the current time prints as a UTCTime and its type field was not empty (or the empty text parsed as a time) |
| `CaInvariants.ReopensIff` | task5/openssl/apps/ca.c:685-737 | A saved database is read back as the same rows, passes the checks and can be indexed, iff its rows load |
| `CaInvariants.RunKeeps` | task5/openssl/apps/ca.c:692-728 | Over every sequence of issue, add-valid, revoke, expire and reopen steps, with any notAfter and any clock: indexes, canonical serials and forward-only rows are kept and no file is read as other rows; at the end the database loads, and its file opens again as the same rows, iff every step that took effect fitted |
| `CaInvariants.RevokedIsFinal` | task5/openssl/apps/ca.c:2179-2194 | Over every run, with any notAfter and any clock, a revoked row keeps its place and its revocation text |
| `CaInvariants.GeneralizedTimeBreaksDatabase` | task5/openssl/apps/ca.c:2401-2414 | Counterexample: a clock past the UTCTime range makes the program write a row that its own load check refuses |
| `CaInvariants.EmptyTypeBreaksDatabase` | task5/openssl/apps/ca.c:2190-2191 | Counterexample: a loadable row with an empty type loses its expiry date when revoked and is refused |
| `CaReaders.AgreementIff` | task5/openssl/apps/ca.c:1185-1206 | On every loadable, indexable database: the CRL scan and the OCSP lookup agree on every number, with the same date, reason, hold and invalidity data, iff every revoked row has a canonical serial text |
| `CaReaders.DisagreeAt` | task5/openssl/apps/ca.c:1185-1206 | Each revoked row with a non-canonical serial is a number on which the readers disagree |
| `CaReaders.StatusAgrees` | task5/openssl/apps/ca.c:2234-2260 | On every loadable database: any spelling, of either sign, that `ca -status` can find says Revoked, Valid or not present exactly when the responder answers revoked, good or unknown for that number |
| `CaReaders.StatusAgreesIff` | task5/openssl/apps/ca.c:2205-2260 | With canonical serials, over all spellings of either sign: `ca -status` and the responder tell the same iff the spelling can be found or the number is not in the database |
| `CaReaders.OddNegativeStatusMissed` | task5/openssl/apps/ca.c:2214-2235 | Counterexample: a canonical database where CRL and responder revoke -2748 and `ca -status -ABC` finds nothing |
| `CaHistory.ReadersAgreeAfterRun` | task5/openssl/apps/ca.c:1185-1206 | After any run from a loadable database with canonical serials: it loads iff every step fitted, and then CRL and responder agree on every number, and for every spelling of either sign `ca -status` reports Revoked iff the number is listed, iff the spelling can be found or the number is not listed |
| `CaReaders.LowerCaseRevocationMissed` | task5/openssl/apps/ocsp.c:1103-1122 | Counterexample: a loadable database whose CRL revokes 171 while the responder answers unknown |
| `CaReaders.NumbersAreUnique` | task5/openssl/apps/ca.c:1816-1825 | With canonical serials no two rows share a number, and the clash check refuses exactly the numbers in use |
| `CaLaws.RevocationIsPublished` | task5/openssl/apps/ca.c:2343-2487 | After every revocation that takes effect and fits, the CRL has exactly one entry for the number and the responder answers revoked with the same: date of the call, and by option: no extension; the RFC 5280 code of the literal reason word; code 6 with the hold instruction given; code 1 or 2 with the invalidity date given |
| `CaLaws.AddedIsGood` | task5/openssl/apps/ca.c:2128-2170 | A certificate added as valid is good to the responder and not on the CRL |
| `CaLaws.OthersUnchanged` | task5/openssl/apps/ca.c:2095-2199 | For every other number CRL and responder say what they said before |
| `CaLaws.RevokePresent` | task5/openssl/apps/ca.c:2172-2194 | When row `i` has the number: the call succeeds iff the row has the name of the certificate (its serial when the subject is empty), is not revoked, a revocation is asked for and the arguments are accepted; otherwise nothing changes; on success only row `i` changes, to type R with a field that reads as this time and what the options ask for |
| `CaLaws.MeaningIs` | task5/openssl/apps/ca.c:2351-2399 | Arguments are accepted iff: the word is one of the eight reasons up to case, the object parses, or the time parses; each word has its code of section 5.3.1 of RFC 5280 |
| `CaLaws.OneCode` | task5/openssl/apps/ca.c:2318-2332 | No word stands for two codes |
| `CaLaws.InsertIff` | task5/openssl/crypto/txt_db/txt_db.c:234-277 | A certificate is taken only if no row has its number and, with unique names, no valid row its name; and always if no row at all has that name |
| `CaLaws.IssuedIsGood` | task5/openssl/apps/ca.c:1905-1924 | The new row has type V, the notAfter as expiry, no revocation text, the serial, `unknown` and the subject, or the serial when that is empty; the responder says good and the CRL nothing |
| `CaLaws.ExpireExactly` | task5/openssl/apps/ca.c:2287-2306 | Exactly the valid rows whose expiry has passed get type E, and nothing else in them changes |
| `CaLaws.ExpireReaders` | task5/openssl/apps/ca.c:2284-2312 | Expiring takes exactly those certificates out of the answers of the responder and changes no other answer and no CRL entry |
| `CaLaws.StatusByType` | task5/openssl/apps/ca.c:2234-2260 | `ca -status` reports not present, Valid, Revoked, Expired or Suspended exactly when there is no row or the selected row has type V, R, E or S |
| `CaLaws.LoadCheckRefuses` | task5/openssl/apps/ca.c:692-728 | Concrete rows that each check refuses, and ones that pass |
| `CrlVersion.CrlExtensionIff` | task5/openssl/apps/ca.c:2446-2476 | On every loadable database the CRL carries an entry extension iff some revoked row has a reason |
| `CaHistory.ListedStays` | task5/openssl/apps/ca.c:2179-2194 | What the CRL of a database lists is listed with the same data in the CRL of every database it moves on to |
| `CaDb.CaDb.CheckFields` | task5/openssl/apps/ca.c:692-728 | The load-time loop accepts exactly the rows that the declarative check accepts |
| `CaDb.CaDb.CheckSerial` | task5/openssl/apps/ca.c:709-727 | The sign, length and digit checks accept exactly the loadable serial texts |
| `CaDb.CaDb.IndexIndex` | task5/openssl/apps/lib/apps.c:1746-1769 | Builds both indexes, or fails exactly when the specification has a clash |
| `CaDb.CaDb.GetBySerial` | task5/openssl/crypto/txt_db/txt_db.c:127-145 | The hash lookup returns the row a linear search by key would find |
| `CaDb.CaDb.TxtDbInsert` | task5/openssl/crypto/txt_db/txt_db.c:234-277 | Appends the row and updates both indexes, or changes nothing when either refuses |
| `CaDb.CaDb.RevokeFound` | task5/openssl/apps/ca.c:2172-2194 | Name check, already-present and already-revoked refusals, and the in-place write of a revocation |
| `CaDb.CaDb.DoRevoke` | task5/openssl/apps/ca.c:2095-2199 | The recursive method has exactly the effect and result of the revocation specification |
| `CaDb.CaDb.DoUpdatedb` | task5/openssl/apps/ca.c:2268-2316 | Fails iff some valid row has an unparsable expiry; otherwise turns precisely the valid rows not after now into expired ones, changes nothing else and returns the number of rows changed |
| `CaDb.UpdateTwice` | task5/openssl/apps/ca.c:2268-2316 | A second call with the same clock returns 0 and leaves the database as the first one left it |
| `CaDb.ExpireAgain` | task5/openssl/apps/ca.c:2284-2312 | Expiring twice with the same clock is expiring once; the set of rows changed by the second time is empty |
| `CaDb.CaDb.GetCertificateStatus` | task5/openssl/apps/ca.c:2201-2266 | Reports the status of the row that the padded, upper-cased text selects, and the matching return code |
| `CaDb.CaDb.ScanRow` | task5/openssl/apps/ca.c:1187-1205 | A row contributes its CRL entry iff revoked, and marks version 2 iff that entry has an extension |
| `CaDb.CaDb.MakeCrl` | task5/openssl/apps/ca.c:1185-1245 | The scan fails iff some revoked row is unreadable; the entries are those of the rows in order; on a loadable database they are the CRL specification, and version 2 is set iff an extension section or a CRL number is used or some revoked row has a reason; the CRL number grows by one |
| `CaDb.ScanIsCrl` | task5/openssl/apps/ca.c:1185-1206 | On a database that passes the load checks no row stops the scan and its entries are the CRL specification |
| `Policy.GetIndexByObj` | task5/openssl/crypto/x509/x509name.c:71-90 | Returns the first later entry with the object, or -1 when there is none |
| `Policy.FindInCa` | task5/openssl/apps/ca.c:1599-1625 | The CA search succeeds iff the CA name has that value under that object |
| `Policy.CheckItem` | task5/openssl/apps/ca.c:1561-1641 | One policy line succeeds iff its declarative condition holds, and appends all request entries with the object in order |
| `Policy.PolicySubject` | task5/openssl/apps/ca.c:1551-1642 | The policy loop accepts iff for every line the object is known, the word is `optional`, `supplied` or `match`, a non-optional attribute occurs in the request, and every occurrence of a `match` attribute has its value in the CA name; the subject is then the in-order concatenation of the request entries the lines name |
| `Policy.PickOrdered` | task5/openssl/apps/ca.c:1565-1574 | The entries taken for a line are exactly those at the positions with its object, in request order |
| `Policy.SelectedJoin` | task5/openssl/apps/ca.c:1551-1552 | The entries of a policy are those of its lines, line after line |
| `Policy.SubjectEntries` | task5/openssl/crypto/x509/x509name.c:188-240 | A built subject has the selected entries in order, each alone in its own RDN |
| `Policy.DeleteEntry` | task5/openssl/crypto/x509/x509name.c:101-139 | On any name whose RDN numbers do not fall, gaps included, deleting an entry keeps the grouping of all other entries; gapless numbers stay gapless |
| `Policy.RemoveEmails` | task5/openssl/apps/ca.c:1750-1775 | The deletion loop leaves exactly the other attributes, in order, grouped into RDNs as before, also around empty RDNs; gapless numbers stay gapless |
| `Policy.WithoutOrdered` | task5/openssl/apps/ca.c:1762-1768 | What is left are exactly the entries at the positions without the object, in order |
| `CaMain.BuildSubject` | task5/openssl/apps/ca.c:1551-1775 | Policy and e-mail removal together give the specified subject, with its grouping into RDNs, or fail exactly when the policy refuses |
| `CaMain.IssuedSubject` | task5/openssl/apps/ca.c:1750-1781 | With e-mail addresses allowed the certificate carries the full subject, otherwise the full subject without its e-mail entries, in order |
| `CaMain.AttrsIff` | task5/openssl/crypto/x509/x509_obj.c:120-132 | The one-line form is told exactly the shape of a name: attributes, order and grouping into RDNs |
| `CaMain.OutcomeIff` | task5/openssl/apps/ca.c:1334-1945 | A request is certified iff it loads, its name is proper, every policy line is met, the certificate is built, the indexes take its row, the operator agrees and signing works; it is passed over iff refused on loading or by an operator who was asked; anything else ends the run |
| `CaMain.InsertCert` | task5/openssl/apps/ca.c:1791-1930 | Clash, refusal, signing failure and success have the stated return codes; only success changes the database, by exactly one row |
| `CaMain.Certify` | task5/openssl/apps/ca.c:1449-1945 | The outcome and the new database are those of the specification; any outcome but success leaves the database as it was |
| `CaMain.IssueLoop` | task5/openssl/apps/ca.c:930-1014 | The loop computes the issue specification, with `total_done` equal to the certificates stacked |
| `CaMain.IssueAllConsecutive` | task5/openssl/apps/ca.c:930-1014 | Over every list of requests: certificates take consecutive serials in order, the database gains exactly their rows, and the next serial is the start plus their number |
| `CaMain.FailureIsFinal` | task5/openssl/apps/ca.c:930-1014 | After a hard failure later requests change nothing |
| `CaMain.CommitSaves` | task5/openssl/apps/ca.c:1020-1048 | A committed run saves the old rows followed by one row per certificate, and the first unused serial; an empty run saves nothing |
| `CaMain.OpenDb` | task5/openssl/apps/ca.c:681-737 | The database opens iff the file reads, passes the checks and can be indexed |
| `CaMain.UpdatePart` | task5/openssl/apps/ca.c:741-762 | The expired database is written iff some row changed |
| `CaMain.Commit` | task5/openssl/apps/ca.c:1015-1048 | A hard failure, a refused commit or a failed write leaves both files alone, and the exit code is 0 only for the refusal |
| `CaMain.CommitOutcomes` | task5/openssl/apps/ca.c:1015-1048 | The issue part ends the invocation iff a request failed hard or the commit was refused or not written; the files stay and the exit code is 0 for the refusal and 1 otherwise |
| `CaMain.RevokePart` | task5/openssl/apps/ca.c:1272-1298 | The database is written iff the revocation succeeded |
| `CaMain.DoCrl` | task5/openssl/apps/ca.c:1122-1270 | The CRL and the CRL number are replaced iff the scan and everything else worked out, and otherwise left alone |
| `CaMain.WrittenCrlVersion` | task5/openssl/apps/ca.c:1219-1250 | A written CRL has the entries of the rows, is version 2 iff an extension section or a number file is used or some revoked row has a reason, and the CRL number moves on by one |
| `CaMain.CaMain` | task5/openssl/apps/ca.c:681-1300 | All files and the exit code after an invocation are those of the composed specification of its parts (update, issue, CRL, revoke, up to the first that fails), and an unreadable database is left alone |
| `CaMain.InvocationKeeps` | task5/openssl/apps/ca.c:681-1300 | However an invocation on a database that opens ends, with any notAfter and any clock: its file is never read as rows other than the old ones moved forward and new ones after them, and it opens again, keeping its history, iff the parts that took effect fitted |
| `CaMain.ValidBreaksFile` | task5/openssl/apps/ca.c:1283-1296 | Counterexample: `-valid` with a certificate whose notAfter is no time reports success and leaves a file that does not load |
| `CaMain.WrittenCrlAgrees` | task5/openssl/apps/ca.c:1185-1206 | An invocation that writes a CRL and revokes nothing leaves a CRL that lists, for every number, exactly what the responder answers from the database file it leaves |
| `CaMain.CrlIsOfRows` | task5/openssl/apps/ca.c:1185-1298 | The CRL an invocation writes is that of the rows at that point, and the file it leaves holds those rows, moved on by a revocation at most |
| `CaMain.ListedForGood` | task5/openssl/apps/ca.c:681-1300 | What a written CRL lists stays listed, with the same data, in the CRL of the file after any sequence of later invocations that fit |
| `CaMain.InvocationsKeep` | task5/openssl/apps/ca.c:681-1300 | Over any sequence of invocations on the same files, whichever of them fail, with any notAfter and any clock: at the end the file loads, with every row in place, unchanged or moved forward, and distinct serials, iff every call fitted the files it met |
| `CaMain.ReadersAgreeOnFile` | task5/openssl/apps/ca.c:681-1300 | The file that any sequence of invocations leaves loads iff every call fitted, and then CRL, responder and `ca -status` agree on it as after a run |
| `Ocsp.LookupSerial` | task5/openssl/apps/ocsp.c:1189-1210 | Finds the row with the key of the number, zero included |
| `Ocsp.AnswerId` | task5/openssl/apps/ocsp.c:1091-1148 | Issuer search and status give the specified answer for one certificate id; a revoked answer carries date, reason, hold and invalidity data of the field, each where it belongs |
| `Ocsp.MakeOcspResponse` | task5/openssl/apps/ocsp.c:1052-1150 | An empty request is malformed; otherwise the response has the specified answers, or is an internal error |
| `Ocsp.KnownIssuerAnswer` | task5/openssl/apps/ocsp.c:1114-1148 | On a loadable database an id of a known issuer always gets the answer that is compared with the CRL |
| `Ocsp.UnknownIssuerAnswer` | task5/openssl/apps/ocsp.c:1108-1113 | An id of another issuer is unknown, whatever its serial |
| `Ocsp.ErrorIff` | task5/openssl/apps/ocsp.c:1083-1090 | On a loadable database a response is an error iff some id has an unknown digest |
| `Ocsp.UnreadableRevocation` | task5/openssl/apps/ocsp.c:1129-1137 | A revocation whose reason does not read is answered with its time alone, and one whose time does not read is an error |
| `Ocsp.AnsweredFor` | task5/openssl/apps/ocsp.c:1070-1150 | A response answers an id iff its lookup gives an answer, with that answer, once, and in the order of the request; expired and suspended rows get none |
| `Ocsp.ResponseMatchesCrl` | task5/openssl/apps/ocsp.c:1070-1150 | A response says revoked for an id of a known issuer iff the CRL of the same database lists its serial, with the same data |
| `Crypt64.B64From24Bit` | task5/openssl/apps/passwd.c:709-717 | Writes exactly the digits of the 24-bit word, low digit first, and nothing before them |
| `Crypt64.CovIsAlphabet` | task5/openssl/apps/passwd.c:25-35 | The digits are the sixty-four characters of the table |
| `Crypt64.DigitAt` | task5/openssl/apps/passwd.c:713-716 | Digit `k` is the character for bits 6k to 6k+5 of the word |
| `Crypt64.GroupPrintedAt` | task5/openssl/apps/passwd.c:719-759 | Group `k` is printed at `4k`, as the digits of its word |
| `Crypt64.PrintTail` | task5/openssl/apps/passwd.c:719-759 | Printing all groups writes the specified tail within its exact length |
| `Crypt64.TailDecodes` | task5/openssl/apps/passwd.c:709-759 | Every digest byte can be read back from the printed tail |
| `Crypt64.TailInjective` | task5/openssl/apps/passwd.c:709-759 | Digests that print alike are equal |
| `Crypt64.Sha256Covers` | task5/openssl/apps/passwd.c:720-732 | The SHA-256 index table stays inside the digest and uses every position |
| `Crypt64.Sha512Covers` | task5/openssl/apps/passwd.c:733-756 | The SHA-512 index table stays inside the digest and uses every position |
| `ShaCrypt.FeedCyclic` | task5/openssl/apps/passwd.c:623-628 | Whole copies and a remainder feed byte `k mod size` at place `k` |
| `ShaCrypt.FeedBits` | task5/openssl/apps/passwd.c:630-637 | One feed per bit of the length, lowest first, up to the highest 1-bit |
| `ShaCrypt.FillCyclic` | task5/openssl/apps/passwd.c:654-656 | The filled buffer has byte `k mod size` of the digest at place `k` |
| `ShaCrypt.BlocksAreCyclic` | task5/openssl/apps/passwd.c:623-628 | Block-wise repetition is cyclic repetition |
| `ShaCrypt.OneRound` | task5/openssl/apps/passwd.c:676-695 | One round hashes the inputs chosen by parity, mod 3 and mod 7 |
| `ShaCrypt.RunRounds` | task5/openssl/apps/passwd.c:675-696 | The rounds loop computes the recursive rounds |
| `ShaCrypt.FirstDigest` | task5/openssl/apps/passwd.c:607-639 | The first part computes digest A of the scheme |
| `ShaCrypt.ComputeDigest` | task5/openssl/apps/passwd.c:607-696 | For every password, salt and number of rounds the loops compute the recursive SHA-crypt digest |
| `SchemeLaws.RoundIsFed` | task5/openssl/apps/passwd.c:675-696 | A round hashes the last digest first and P last when its number is even, the other way round when odd, between them S unless 3 divides it and P unless 7 divides it, and nothing else |
| `SchemeLaws.RoundsAreChain` | task5/openssl/apps/passwd.c:675-696 | The rounds are a chain of such hashes from the first digest, round 0 first |
| `SchemeLaws.SequencesAre` | task5/openssl/apps/passwd.c:641-673 | P and S repeat the hash of the password taken once per byte of its length, and of the salt taken 16 times plus the first byte of the first digest |
| `SchemeLaws.FirstDigestIs` | task5/openssl/apps/passwd.c:607-639 | Digest A is of password, salt, digest B repeated to the length, and for each bit of the length, lowest first, digest B or the password; digest B is of password, salt, password |
| `ShaSettings.ReadSalt` | task5/openssl/apps/passwd.c:546-572 | Accepted iff there is no rounds prefix or `strtoul` stops at `$`; the rounds are the allowed number nearest to the one asked for; the salt is what follows, cut to at most 16 characters and no shorter than that |
| `ShaSettings.StrtoulDecimal` | task5/openssl/apps/passwd.c:546-550 | A printed number followed by `$` is read back |
| `ShaSettings.SettingsRoundTrip` | task5/openssl/apps/passwd.c:546-601 | For every accepted salt argument the printed settings are read as the same settings |
| `ShaSettings.SettingsReproduce` | task5/openssl/apps/passwd.c:546-601 | For every password and accepted salt argument the printed settings given as salt reproduce the output |
| `ShaSettings.PrintSettings` | task5/openssl/apps/passwd.c:585-605 | The settings fit their part of the buffer and the length check never fails |
| `ShaSettings.ShaCryptWith` | task5/openssl/apps/passwd.c:495-774 | Settings, digest and tail are written inside the 124-byte buffer and give the specified text |
| `ShaSettings.Shacrypt` | task5/openssl/apps/passwd.c:495-774 | Magic 5 and 6 give their schemes, any other magic nothing |
| `SchemeLaws.LineIs` | task5/openssl/apps/passwd.c:585-601 | The line is `$`, magic, `$`, `rounds=` with the number and `$` only if rounds were asked for, the salt, `$` and the digest |
| `SchemeLaws.Sha256Character` | task5/openssl/apps/passwd.c:720-732 | Character 4k+j of a SHA-256 digest is the alphabet at six bits of bytes k, k+10 and k+20, turned by k places |
| `SchemeLaws.Sha512Character` | task5/openssl/apps/passwd.c:733-756 | Character 4k+j of a SHA-512 digest is the alphabet at six bits of bytes k, k+21 and k+42, turned by 2k places |
| `SchemeLaws.LastCharacters` | task5/openssl/apps/passwd.c:731-755 | The last characters are of bytes 31 and 30, and of byte 63 |
| `ShaSettings.OutputDeterminesDigest` | task5/openssl/apps/passwd.c:706-760 | Under equal settings, equal outputs mean equal digests |
| `Md5Crypt.ComputeStart` | task5/openssl/apps/passwd.c:374-412 | The first part computes the first digest of the MD5 scheme |
| `Md5Crypt.SourceIsPermutation` | task5/openssl/apps/passwd.c:448-452 | The walk by 6 modulo 17 with its two exceptions stays in bounds and is a bijection on the 16 digest bytes |
| `Md5Crypt.Permute` | task5/openssl/apps/passwd.c:447-452 | The loop fills every place with the byte of that bijection |
| `Md5Crypt.InlineIsMacro` | task5/openssl/apps/passwd.c:463-470 | The inline 6-bit printing equals `b64_from_24bit` for all bytes |
| `Md5Crypt.PrintPermuted` | task5/openssl/apps/passwd.c:463-473 | The printing loop writes the specified 22 characters |
| `Md5Crypt.PrintMd5` | task5/openssl/apps/passwd.c:353-475 | All writes stay inside the 41-byte buffer and give the specified text |
| `Md5Crypt.Md5crypt` | task5/openssl/apps/passwd.c:314-488 | The output is marked magic, salt, and the tail of the permuted digest of password, magic and salt; a long magic is refused |
| `Md5Crypt.Md5TailDecodes` | task5/openssl/apps/passwd.c:441-475 | Every digest byte can be read back from the printed tail |
| `SchemeLaws.Md5StartIs` | task5/openssl/apps/passwd.c:374-412 | The first MD5 digest: as for SHA with the magic after the password, a NUL for a 1 bit and the first password byte for a 0 bit |
| `SchemeLaws.Md5Characters` | task5/openssl/apps/passwd.c:447-473 | The printed digest is of bytes k, k+6 and k+12, with byte 5 in the fifth group and byte 11 alone at the end |
| `SchemeLaws.Md5LineIs` | task5/openssl/apps/passwd.c:353-475 | The line is the magic between dollar signs unless empty, at most eight salt characters, `$` and the digest; a magic over four characters is refused |
| `CmsSpec.AcceptedPairs` | task5/openssl/apps/cms.c:623-665 | For every accepted command line that ends up signing, the signer and key options fall into one block per signer, in order; signers are all `-signer` arguments, keys are each `-inkey` argument next to its signer and the signer file elsewhere |
| `CmsSpec.AssignableIsAccepted` | task5/openssl/apps/cms.c:623-665 | Conversely every sequence of such blocks runs to its end and passes the final signer step |
| `CmsSpec.AcceptedIff` | task5/openssl/apps/cms.c:623-862 | A signing command line is accepted iff its signer and key options can be cut into one block per signer, every parameter follows a party of the kind of operation then in force, and a secret key or its id is not repeated |
| `CmsSpec.OpenKeepsItsPlace` | task5/openssl/apps/cms.c:838-862 | The signer and key open at any point end up at the index that was then open |
| `CmsSpec.ParamsReachOpen` | task5/openssl/apps/cms.c:729-761 | While all parameters are given under one kind of operation (encryption or not): the list search for an index finds exactly those given while that party was open, in order, and none was meant for the other kind |
| `CmsSpec.ParamsConserved` | task5/openssl/apps/cms.c:729-761 | No `-keyopt` argument is lost, repeated or reordered in the list, wherever operation options stand |
| `CmsSpec.SignIndicesInRange` | task5/openssl/apps/cms.c:1211-1234 | List indices strictly increase, each names a final signer, and both lists have equal length |
| `CmsSpec.EncryptIndicesInRange` | task5/openssl/apps/cms.c:1061-1075 | List indices strictly increase and each names a recipient |
| `CmsAccept.AcceptedRecipients` | task5/openssl/apps/cms.c:916-932 | The recipients of an accepted encryption are the `-recip` arguments given under it, then the remaining arguments, each in order |
| `CmsAccept.OpenRecipientKeepsItsPlace` | task5/openssl/apps/cms.c:670-678 | The recipient named last at any point is at the end the one listed at the index then open |
| `CmsAccept.AcceptedOtherIff` | task5/openssl/apps/cms.c:815-886 | A command line that does not sign is accepted iff it has at most one signer and one key, its other options are in place, and it has an operation and what that needs: a recipient of some kind and an id with a secret key, or something to decrypt with |
| `CmsSpec.RoutingIff` | task5/openssl/apps/cms.c:729-761 | For every accepted command line, with operation options anywhere: every parameter reaches the party open when it was given and no other, iff all were given under the kind of operation (encryption or not) the command ends up with; an operation that adds no parties delivers none |
| `CmsSpec.LateOperationMisdirects` | task5/openssl/apps/cms.c:729-761 | Counterexample: a parameter given for a signer before `-encrypt` reaches the first recipient |
| `CmsOptions.CmsOptions.FileParam` | task5/openssl/apps/cms.c:744-761 | Appending a node where the index moved and pushing on the last node is the list specification, on the linked list |
| `CmsOptions.CmsOptions.HandleOption` | task5/openssl/apps/cms.c:382-761 | Each option, operation options included, changes the variables, stacks and linked list as specified, or stops |
| `CmsOptions.CmsOptions.HandleAll` | task5/openssl/apps/cms.c:382-761 | The option loop computes the run specification |
| `CmsOptions.CmsOptions.AppendFinalSigner` | task5/openssl/apps/cms.c:838-862 | The final signer step appends, defaults the key and refuses as specified |
| `CmsOptions.CmsOptions.FinishOptions` | task5/openssl/apps/cms.c:819-932 | The checks after the options refuse exactly what the specification refuses, and append the final signer or the remaining recipients |
| `CmsOptions.CmsOptions.FindParams` | task5/openssl/apps/cms.c:1227-1232 | Walking the linked list finds the node of an index iff there is one |
| `CmsOptions.CmsCommand` | task5/openssl/apps/cms.c:1055-1245 | From the command line to what is added: refused iff the specification refuses, else every signer with its key, or every recipient, in order, with exactly what is delivered to it |
| `Pkcs12.DumpBag` | task5/openssl/apps/pkcs12.c:1006-1103 | The recursive walk of a bag prints its tree as a flat list, up to the first selected bag that cannot be printed |
| `Pkcs12.DumpBags` | task5/openssl/apps/pkcs12.c:992-1004 | The same for a list of bags |
| `Pkcs12.DumpP12` | task5/openssl/apps/pkcs12.c:943-990 | The same for a file; unknown contents are skipped and a damaged one ends the walk |
| `Pkcs12.FileIsFlat` | task5/openssl/apps/pkcs12.c:943-990 | An undamaged file prints as the flat list of all its bags |
| `Pkcs12.SucceedsIff` | task5/openssl/apps/pkcs12.c:1006-1103 | The walk succeeds iff every selected bag, at any depth, can be printed |
| `Pkcs12.PrintsSelected` | task5/openssl/apps/pkcs12.c:1006-1103 | A successful walk prints exactly the selected certificates and keys, each once, in tree order |
| `Pkcs12.NoKeysPrinted` | task5/openssl/apps/pkcs12.c:1021-1051 | With NOKEYS no key material is printed, however the walk ends |
| `Pkcs12.FailsIff` | task5/openssl/apps/pkcs12.c:1006-1103 | The walk fails iff some bag the options ask for is a key not decrypted, decoded or written, or an X.509 certificate not decoded or written |
| `Pkcs12.PrintedHeaded` | task5/openssl/apps/pkcs12.c:1025-1090 | However the walk ends, every key comes right after its bag and key attributes, every certificate after its bag attributes and text, every secret after its bag attributes |
| `Pkcs12.PrintsSecrets` | task5/openssl/apps/pkcs12.c:1079-1087 | A successful walk prints every secret, whatever the options |
| `Pkcs12.CertFlagsPartition` | task5/openssl/apps/pkcs12.c:1056-1076 | A run with neither flag succeeds iff both single-flag runs do, and its certificates are then an order-preserving shuffle of theirs |
| `Pkcs12.InterleavesMembers` | task5/openssl/apps/pkcs12.c:1056-1076 | Such a shuffle has the members of both with multiplicity |
| `CmpSections.FindBack` | task5/openssl/apps/cmp.c:2589-2595 | Both backward loops stop at the start of the run that ends at `end` |
| `CmpSections.SectionList.PrevItem` | task5/openssl/apps/cmp.c:2581-2612 | Moves strictly back, overwrites `opt_item` with the item cut to 40 characters, and ends only at the start of the list |
| `CmpSections.ItemsAreNames` | task5/openssl/apps/cmp.c:2581-2612 | Repeated calls deliver exactly the names of a left-to-right tokenizer, reversed and cut, with one empty item for trailing separators |
| `CmpSections.ThreeItems` | task5/openssl/apps/cmp.c:2591-2593 | `a,b c` has the items c, b, a |
| `CmpSections.TrailingBlank` | task5/openssl/apps/cmp.c:2586-2611 | `a, ` has an empty item and a |
| `CmpSections.LongItem` | task5/openssl/apps/cmp.c:2596-2603 | A longer name is cut to its first 40 characters |
| `CmpSections.SectionList.ConfGetString` | task5/openssl/apps/cmp.c:2615-2626 | The loop returns the first value found over the items |
| `CmpSections.SectionList.CheckSections` | task5/openssl/apps/cmp.c:3638-3646 | Accepts iff every item is a section |
| `CmpSections.FoundIs` | task5/openssl/crypto/conf/conf_api.c:66-96 | The last item decides alone unless neither it nor the default section has a value |
| `CmpSections.EnvironmentSection` | task5/openssl/crypto/conf/conf_api.c:79-91 | The section ENV asks the environment when it has no value itself, and no other section does |
| `CmpSections.DocumentedIff` | task5/openssl/apps/cmp.c:2615-2626 | The value is the documented one iff the stated condition on the default section, the last item and the named sections holds |
| `CmpSections.DefaultHidesFirstSection` | task5/openssl/apps/cmp.c:2615-2626 | Counterexample: the default section hides the value of the section named first |
| `ConfEscape.PrintEscapedValue` | task5/openssl/apps/configutl.c:20-68 | The printing loop appends the specified escaped text |
| `ConfEscape.PrintedForms` | task5/openssl/apps/configutl.c:27-66 | The printed form of each special character, of a lone and an inner space, and of any other character |
| `ConfEscape.PrintSection` | task5/openssl/apps/configutl.c:73-85 | Every entry is printed as one line, in order |
| `ConfEscape.NoComment` | task5/openssl/crypto/conf/conf_def.c:605-640 | Nothing in any printed value is taken for a comment |
| `ConfEscape.NoRawNewline` | task5/openssl/apps/configutl.c:34-45 | No raw newline, return or tab is printed |
| `ConfEscape.EscapedEnds` | task5/openssl/apps/configutl.c:46-61 | A printed value neither starts nor ends with white space and is never continued on the next line |
| `ConfEscape.ValueRoundTripIff` | task5/openssl/apps/configutl.c:20-68 | For every value: reading its printed form succeeds, and gives the value iff it has no backtick |
| `ConfEscape.BacktickIsLost` | task5/openssl/crypto/conf/conf_def.c:655-668 | Counterexample: a backtick is dropped on reading |
| `ConfEscape.LineRoundTrip` | task5/openssl/crypto/conf/conf_def.c:378-541 | For every name the reader can store, escapes, leading dots and the empty name included, a printed line is read as an entry with that name and the re-read value |
| `ConfEscape.SectionRoundTripIff` | task5/openssl/apps/configutl.c:73-85 | A printed section with any such names is read back entry by entry, and equals what was printed iff no value has a backtick |

## Left out

- Option tables, prompts, help, engine and provider loading, BIO and file opening: I/O only.
- The libcrypto calls themselves (signing, ASN.1, chain building, digests): parameters of the model.
- Allocation failures, memory freeing, EBCDIC and platform branches.
- Certificate contents other than subject, serial and notAfter; request extensions; the string-type
  checks on request names are one outcome (`nameOk`).
- The order of entries after `X509_CRL_sort`, CRL dates and CRL signing.
- CaMain.CaMain: failures in the middle of rotating several files are not modelled.
- CaMain.IssueLoop: the four call sites (SPKAC, self-signed certificate, `-in`, further files) are
  one list of requests in that order, since each is followed by the same bookkeeping.
- TxtDb.TxtDbRead: a comment line longer than the 512-byte read buffer is treated as one line, and
  a NULL field as the empty text.
- Pkcs12.DumpBag: a key or certificate that cannot be written adds nothing, where the library may
  have put part of it on the stream; informational output on the error stream is not modelled.
- CmsOptions.CmsCommand: the `-recip_kdf` and `-recip_ukm` list, which is built in the same way as
  the parameter list, is not modelled; secret keys and ids are present or absent, their
  hexadecimal form is not read; loading certificates and keys always succeeds.
- ConfEscape.LineRoundTrip: variable expansion, section headers, directives and `section::name`
  entries are not read by the model.
- Salt generation and password prompting in `passwd.c`; the crypt(3) variant.
- CMP messages, mock server, HTTP and TLS in `cmp.c`; the accept loop of `ocsp.c`.
- Apps that only enumerate, dispatch, print or wrap one library call.
