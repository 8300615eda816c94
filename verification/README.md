# Verified models of the CA tools, password hashes and file transfer

This Dafny project models the code of the repository in which state and text
formats are hardest to get right, and proves what that code keeps. Nothing is
executed; `dafny verify dfyconfig.toml` checks everything.

| module | subject |
|---|---|
| `Names` | subject building and e-mail removal of `ca` |
| `Revocation`, `Serials`, `TxtDb` | the texts of the certificate index: revocation field, serial number, file |
| `CaDatabase`, `Lifecycle`, `Revoking` | the index in memory and on file, single operations and whole runs |
| `Issuing`, `Responder` | the issuing run of `ca`, the OCSP responder that reads the same index |
| `ByteBits`, `CryptEncoding`, `CryptStream`, `OutBuffer`, `ShaCrypt`, `Md5Crypt` | the password hashes of `passwd`, with the digest as a parameter |
| `FileIndex`, `FileListing`, `Transfer` | Tomypeers: the client's index (hash table and linked list), the file list on the wire, client and server as a state machine |
| `CmsSigners`, `SectionList` | the signer options of `cms`, the backward section scan of `cmp` |
| `Text`, `Decimal`, `Division`, `Library` | C text, numbers in text, arithmetic, and the library calls as function values |

Code that works step by step is a method or a class with the loops of the
original, proved against a specification function; the laws are lemmas about
these functions. Where program and specification are two forms of one computation,
further laws (named `...Is` and `...ExactlyIf`) say in characters, numbers and
positions what is computed, without either form. Library behaviour that the results do not depend on (time and
OID syntax, digests, name printing) is a function value, the same one where a
text is written and where it is read.

## What the code does not meet

Each of these is proved, with the exact condition, and most have an example that
is computed through.

- The clock text in a revocation field is a GeneralizedTime from 2050 on, but is
  read back as a UTCTime. And `do_revoke` copies the expiry date of a certificate
  that is not in the index, of which decoding has checked only the length
  (crypto/asn1/tasn_dec.c, lines 924-930). Behind an empty type field, which the
  startup checks do not look at, it writes over the end of the field and so erases
  the expiry date. In each of these cases `ca -revoke` succeeds and saves, and the
  next start of `ca` refuses the index (`Revoking.RevokedIndexLoads`, for whole runs
  `Lifecycle.NextStartAccepts`; `Revoking.LateRevocationRefused`,
  `Revoking.BadDateRefused`). After the first, the OCSP responder cannot answer a
  request that asks for the serial (`Responder.EveryResponseSaysRevoked`).
- The startup checks of `ca` accept serials with lower-case digits, or with zero
  bytes behind a sign, but every lookup is made in upper case without such zeros.
  Such a row is found by no lookup: a second certificate with its number is inserted
  (`Serials.FoundExactlyIf`, `Revoking.LowerCaseSerialLost`), and the responder
  answers unknown although the row may be revoked (`Responder.UnfindableIsUnknown`,
  `Responder.LowerCaseIsUnknown`). The program itself never writes such a serial
  (`Serials.OwnKeysFindable`, `Lifecycle.RunIsSafe`).
- A field that ends in a backslash swallows the tab behind it, so the saved index
  cannot be read (`TxtDb.FileRoundTrip`).
- The comment at line 2128 of `ca.c` says that the name lookup skips revoked
  certificates. Within a process it also finds every row that was valid when the
  index was loaded, or inserted since (`Revoking.NameRefused`,
  `Revoking.LookupCoversValidRows`). It shows when `ca -updatedb` goes on to issue
  certificates, or to revoke one that is not in the index: the names that it has
  just expired are refused (`Revoking.NameFreedOnlyByReload`,
  `Revoking.ExpiredNameRefused`). For revoked rows it
  does not show, since nothing is looked up by name after a revocation.
- `do_revoke` with a bad argument on an absent serial fails but leaves a valid row
  in memory (`Revoking.RevokeAbsent`).
- A negative serial is not found by its own spelling if that has an odd number of
  digits or a zero byte in front (`Serials.NegativeSpelling`,
  `Serials.NegativeSpellingsLost`).
- The OCSP responder gives no entry at all for an expired certificate, and with a
  digest of its own makes ids without the serial number, so that answers do not
  name their questions (`Responder.EveryIdAnswered`, `Responder.AnswerNamesQuestion`,
  `Responder.QuestionNotNamed`).
- `shacrypt` fails for an empty password or an empty salt, because a buffer of
  zero bytes is requested (`ShaCrypt.Shacrypt`).
- A Tomypeers client waits for ever for an empty file, can mistake a file that
  starts with "File does not exist." for a refusal, and cannot ask for a file
  called "exit" (`Transfer.ReliableExactlyIf`, `Transfer.EmptyFileStalls`,
  `Transfer.MessageFileIsMistaken`). A refusal that arrives in pieces is
  written to the file, and the client waits for ever (`Transfer.RefusalEndsWait`).
- A name with blanks, or an empty one, does not come back from the Tomypeers file
  list as it was printed (`FileListing.EntryRoundTrip`, `FileListing.ListRoundTrip`).
- The linked list of the second version cuts names to 71 characters: longer names
  are never found, and may be found in place of a shorter one
  (`FileIndex.FoundExactlyIf`, `FileIndex.VersionsAgreeExactlyIf`,
  `FileIndex.ShadowedByLongName`). These are laws of the list; the client that fills
  it scans names into a buffer of 72 bytes (tomypeersV2.c, lines 143-145), so that a
  longer name has overrun that buffer before it is cut.
- In `cmp`, a listed section's definition is lost to the default section if a
  later listed section does not define the name; a list that ends in a separator
  asks a section with an empty name first (`SectionList.LaterSectionsOverride`,
  `SectionList.TrailingSeparator`, `SectionList.ListedDefinitionLost`).

## Model

| member | source | states |
|---|---|---|
| Names.BuildSubject | capstone/Project work solo/encryption tests/openssl-3.3.1/apps/ca.c:1555-1646 | The policy loop succeeds exactly when every policy line is met (type known, `supplied`/`match` types present, every `match` value found among the CA's entries of that type); the subject is then the concatenation, in policy order, of all request entries of each type, each as an RDN of its own. |
| Names.PolicyMetExactlyIf | capstone/Project work solo/encryption tests/openssl-3.3.1/apps/ca.c:1562-1643 | The policy is met if and only if every line names a known type and one of the three rules, each type that is supplied or matches is in the request, and each request entry of a type that matches equals an entry of the CA. |
| Names.ApplyLine | capstone/Project work solo/encryption tests/openssl-3.3.1/apps/ca.c:1568-1643 | One policy line: the walk over the request's entries of one type refines a plain filter and ends for every input. |
| Names.MatchingIs | capstone/Project work solo/encryption tests/openssl-3.3.1/apps/ca.c:1568-1643 | The filter by type takes the parts of a name one after the other. |
| Names.MatchingEntry | capstone/Project work solo/encryption tests/openssl-3.3.1/apps/ca.c:1568-1643 | A single entry passes the filter exactly if it has the type. |
| Names.SelectedIs | capstone/Project work solo/encryption tests/openssl-3.3.1/apps/ca.c:1555-1646 | Policy lines select one after the other, in the policy's order. |
| Names.SelectedLine | capstone/Project work solo/encryption tests/openssl-3.3.1/apps/ca.c:1555-1646 | One policy line selects the entries of its type; a line of an unknown type selects none. |
| Names.OwnRdnsIs | capstone/Project work solo/encryption tests/openssl-3.3.1/apps/ca.c:1636-1642 | Entry i of the subject is entry i of the selection, as RDN number i. |
| Names.FindInCa | capstone/Project work solo/encryption tests/openssl-3.3.1/apps/ca.c:1602-1621 | The `again2` search returns an entry exactly if the CA has one of this type and value. |
| Names.GetIndex | capstone/Project work solo/encryption tests/openssl-3.3.1/crypto/x509/x509name.c:71-90 | The first entry of a type after a position, or -1 if there is none. |
| Names.DeleteKeeps | capstone/Project work solo/encryption tests/openssl-3.3.1/crypto/x509/x509name.c:101-140 | Deleting an e-mail entry keeps the order of all other entries and their grouping into RDNs, for every name whose RDN numbers never fall, gaps included. |
| Names.StructureDetermines | capstone/Project work solo/encryption tests/openssl-3.3.1/crypto/x509/x509name.c:101-140 | Attributes, order and grouping determine a gaplessly numbered name. |
| Names.NonEmailIs | capstone/Project work solo/encryption tests/openssl-3.3.1/apps/ca.c:1753-1779 | The entries that are left out are those of type 48 and no others, wherever they stand. |
| Names.WithoutEmailKeeps | capstone/Project work solo/encryption tests/openssl-3.3.1/apps/ca.c:1753-1779 | What the deletions leave of a name whose RDN numbers never fall: every entry that is not an e-mail address, in order and in its RDN. |
| Names.WithoutEmailCloses | capstone/Project work solo/encryption tests/openssl-3.3.1/crypto/x509/x509name.c:101-140 | If the numbers have no gaps, what is left is closed up. |
| Names.RemoveEmail | capstone/Project work solo/encryption tests/openssl-3.3.1/apps/ca.c:1753-1779 | For every name the search-delete-step-back loop ends and leaves no e-mail entry; if RDN numbers never fall, it leaves exactly the other entries, in order and in their RDNs; if they have no gaps, with the numbers closed up. |
| Revocation.FindCrlReason | capstone/Project work solo/encryption tests/openssl-3.3.1/apps/ca.c:2360-2371 | The table search gives the reason that section 5.3.1 of RFC 5280 names, in any letter case, including index 7 for code 8; the pseudo reasons are not accepted. |
| Revocation.CodeOfReason | capstone/Project work solo/encryption tests/openssl-3.3.1/apps/ca.c:2322-2336 | The first eight table entries are the reasons of RFC 5280 in code order up to the gap at 7. |
| Revocation.CaseEqIs | capstone/Project work solo/encryption tests/openssl-3.3.1/apps/ca.c:2360-2371 | The comparison of names: equal length, and letters that are the same or differ by 32 in their codes. |
| Revocation.TableIs | capstone/Project work solo/encryption tests/openssl-3.3.1/apps/ca.c:2322-2336 | The table of names, letter for letter. |
| Revocation.MakeRevocationStr | capstone/Project work solo/encryption tests/openssl-3.3.1/apps/ca.c:2347-2429 | The text, or failure, for every kind of revocation and argument. |
| Revocation.TextMade | capstone/Project work solo/encryption tests/openssl-3.3.1/apps/ca.c:2347-2429 | The texts themselves: the time alone, or the time with holdInstruction, keyTime or CAkeyTime and an argument that the library accepts. |
| Revocation.ReasonMade | capstone/Project work solo/encryption tests/openssl-3.3.1/apps/ca.c:2360-2371 | With a reason: time, comma and the table's spelling of the first eight names, whatever the letter case of the argument; no text for any other argument. |
| Revocation.FillBuffer | capstone/Project work solo/encryption tests/openssl-3.3.1/apps/ca.c:2410-2426 | The bounded copies fill the allocated length exactly: nothing is cut off. |
| Revocation.CutInPlace | capstone/Project work solo/encryption tests/openssl-3.3.1/apps/ca.c:2544-2563 | Overwriting commas with NULs in a copy yields the parts before the first, between the first two and after the second comma, commas in the last part included. |
| Revocation.UnpackRevinfo | capstone/Project work solo/encryption tests/openssl-3.3.1/apps/ca.c:2534-2643 | The outputs for every text, also the time that is already set when a later part fails. |
| Revocation.TimeRead | capstone/Project work solo/encryption tests/openssl-3.3.1/apps/ca.c:2534-2577 | A text without a comma: accepted without a reason if it is a UTCTime, refused if not. |
| Revocation.ReasonRead | capstone/Project work solo/encryption tests/openssl-3.3.1/apps/ca.c:2577-2643 | A text with a reason, known or unknown, with or without a third part: every case, with the time set when a later part fails. |
| Revocation.RoundTrip | capstone/Project work solo/encryption tests/openssl-3.3.1/apps/ca.c:2347-2643 | Every text that is produced is read back with the same time, third field and intended reason if and only if the clock's text is a UTCTime. |
| Serials.SerialTextInjective | capstone/Project work solo/encryption tests/openssl-3.3.1/apps/ca.c:1787-1790 | The stored key names the number: two numbers have equal keys only if they are equal. |
| Serials.SerialShape | capstone/Project work solo/encryption tests/openssl-3.3.1/crypto/bn/bn_conv.c:17-53 | The key of every number passes the startup check and has the number's value. |
| Serials.SerialOkExactlyIf | capstone/Project work solo/encryption tests/openssl-3.3.1/apps/ca.c:702-720 | The startup check in character codes: a minus sign or none, and an even number of at least two hex digits. |
| Serials.HexDigits | capstone/Project work solo/encryption tests/openssl-3.3.1/apps/ca.c:702-720 | Hex digits, their values and their capitals, in character codes. |
| Serials.KeysExactlyIf | capstone/Project work solo/encryption tests/openssl-3.3.1/apps/lib/apps.c:1465-1473 | Two keys are equal if and only if they are the same text behind their leading zeros. |
| Serials.SameKey | capstone/Project work solo/encryption tests/openssl-3.3.1/apps/lib/apps.c:1465-1473 | Hex texts with equal keys spell the same number; for upper-case texts the converse holds, and a text that is not all in upper case never has the key of one that is. |
| Serials.SpellingFound | capstone/Project work solo/encryption tests/openssl-3.3.1/apps/ocsp.c:1176-1192 | A lookup for a number finds exactly the texts, of any characters, that spell it in upper-case digits: zeros in front are skipped, zero bytes behind a sign are not. |
| Serials.FoundExactlyIf | capstone/Project work solo/encryption tests/openssl-3.3.1/apps/ca.c:702-720 | Of the serials that the startup check accepts, a lookup for a number finds exactly those that stand for it and are findable: upper-case digits, and no zero byte behind a sign. |
| Serials.OwnKeysFindable | capstone/Project work solo/encryption tests/openssl-3.3.1/crypto/bn/bn_conv.c:17-53 | Every serial that the program stores passes the startup check, is findable and stands for its number. |
| Serials.NormaliseSerial | capstone/Project work solo/encryption tests/openssl-3.3.1/apps/ca.c:2215-2234 | The in-place padding and upper-casing of a typed serial computes the normalised text. |
| Serials.NormalisedIs | capstone/Project work solo/encryption tests/openssl-3.3.1/apps/ca.c:2215-2234 | A typed text of odd length gets one zero in front; small letters become capitals, and nothing else changes. |
| Serials.SpellingFindsItsNumber | capstone/Project work solo/encryption tests/openssl-3.3.1/apps/ca.c:2215-2239 | A hex text in any letter case, of any length and with any leading zeros looks up exactly the number it spells. |
| Serials.SpellingIsTheKey | capstone/Project work solo/encryption tests/openssl-3.3.1/apps/ca.c:2215-2239 | Without redundant zeros the normalised text equals the key that do_body, do_revoke and lookup_serial build, letter for letter. |
| Serials.NegativeSpelling | capstone/Project work solo/encryption tests/openssl-3.3.1/apps/ca.c:2218-2234 | A negative serial is found under a spelling of its own if and only if the digits have even length and no zero byte in front: the padding zero of an odd spelling is put before the sign, and zeros behind the sign are not skipped. |
| Serials.NegativeSpellingsLost | capstone/Project work solo/encryption tests/openssl-3.3.1/apps/ca.c:2218-2234 | Two spellings that are lost: -A for its odd length, -00AB for its zero byte. |
| Serials.LargerIsFresh | capstone/Project work solo/encryption tests/openssl-3.3.1/apps/ca.c:1787-1829 | A number above a stored serial is a different key. |
| TxtDb.LineRoundTrip | capstone/Project work solo/encryption tests/openssl-3.3.1/crypto/txt_db/txt_db.c:20-125 | A row is read back from its line if and only if no field before the last ends in a backslash. |
| TxtDb.FileRoundTrip | capstone/Project work solo/encryption tests/openssl-3.3.1/crypto/txt_db/txt_db.c:187-232 | The whole index is read back as written if and only if no field holds a line break and no field before the last ends in a backslash; otherwise the file is refused. |
| TxtDb.ReadIsWritable | capstone/Project work solo/encryption tests/openssl-3.3.1/crypto/txt_db/txt_db.c:20-125 | Every file that can be read consists of rows that can be saved and read again. |
| TxtDb.EscapedIs | capstone/Project work solo/encryption tests/openssl-3.3.1/crypto/txt_db/txt_db.c:206-220 | A backslash is put before every tab, and nothing else changes. |
| TxtDb.LineIs | capstone/Project work solo/encryption tests/openssl-3.3.1/crypto/txt_db/txt_db.c:206-220 | A line is its fields, escaped, with a tab between each two. |
| TxtDb.WrittenIs | capstone/Project work solo/encryption tests/openssl-3.3.1/crypto/txt_db/txt_db.c:187-232 | The file is the lines of its rows, each with a newline behind it. |
| TxtDb.LineReadExactlyIf | capstone/Project work solo/encryption tests/openssl-3.3.1/crypto/txt_db/txt_db.c:60-110 | A line is accepted if and only if five tabs without a backslash before them part it into six fields, or a sixth such tab stands at its very end. |
| TxtDb.FileIs | capstone/Project work solo/encryption tests/openssl-3.3.1/crypto/txt_db/txt_db.c:53-110 | A line that begins with # is skipped, any other must be accepted, and what stands behind the last newline is dropped. |
| CaDatabase.FindSerial | capstone/Project work solo/encryption tests/openssl-3.3.1/crypto/txt_db/txt_db.c:127-145 | The serial lookup finds a row with an equal key if there is one. |
| CaDatabase.StartupChecks | capstone/Project work solo/encryption tests/openssl-3.3.1/apps/ca.c:684-721 | Accepts exactly the rows with a revocation field only if revoked, a readable revocation text, an expiry date and a serial of even length in hex digits. |
| CaDatabase.SerialFieldCheck | capstone/Project work solo/encryption tests/openssl-3.3.1/apps/ca.c:702-720 | The character loop accepts exactly an optional sign and an even, positive number of hex digits. |
| CaDatabase.CaDb.TxtDbInsert | capstone/Project work solo/encryption tests/openssl-3.3.1/crypto/txt_db/txt_db.c:234-277 | Refused without any change on a clash of the serial, or of the name for a valid row; otherwise one row more, and the name index extended. |
| CaDatabase.CaDb.DoRevoke | capstone/Project work solo/encryption tests/openssl-3.3.1/apps/ca.c:2099-2203 | New state and result for every input; at most one recursive call. |
| CaDatabase.CaDb.DoUpdatedb | capstone/Project work solo/encryption tests/openssl-3.3.1/apps/ca.c:2272-2320 | The loop marks exactly the valid rows whose date has passed, counts them, and stops at a valid row whose date does not parse. |
| CaDatabase.ExpiredExactlyIf | capstone/Project work solo/encryption tests/openssl-3.3.1/apps/ca.c:2286-2312 | A row is changed if and only if it is of type V, its date has passed, and the dates of all rows of type V up to it parse; it then differs only in being of type E. |
| CaDatabase.CountIsChanged | capstone/Project work solo/encryption tests/openssl-3.3.1/apps/ca.c:2272-2320 | The result is -1 if and only if the date of some row of type V does not parse, and otherwise the number of changed rows. |
| CaDatabase.CaDb.GetCertificateStatus | capstone/Project work solo/encryption tests/openssl-3.3.1/apps/ca.c:2205-2270 | The type of the row that the typed serial leads to, and 1 or -1. |
| Lifecycle.SavedIsAccepted | capstone/Project work solo/encryption tests/openssl-3.3.1/apps/lib/apps.c:1761-1830 | What is in memory, saved and read again, comes back row for row if and only if every expiry date can stand on a line, and passes the startup checks if and only if every row is loadable. |
| Lifecycle.SavedLine | capstone/Project work solo/encryption tests/openssl-3.3.1/apps/include/apps.h:200-206 | The columns on file: type, expiry date, revocation field, serial, file name, name, with tabs between them. |
| Lifecycle.SavedRowAfterRow | capstone/Project work solo/encryption tests/openssl-3.3.1/crypto/txt_db/txt_db.c:187-232 | The file of two parts of an index is their files one after the other. |
| Lifecycle.OpenedExactlyIf | capstone/Project work solo/encryption tests/openssl-3.3.1/apps/ca.c:678-731 | A file is accepted if and only if its lines can be taken apart, each passes the checks of its columns, and no two have the same serial or, with unique_subject, the same name and type V; the rows are those of the lines. |
| Lifecycle.SavedAndLoaded | capstone/Project work solo/encryption tests/openssl-3.3.1/apps/lib/apps.c:1736-1759 | An index that is saved and loaded again has the same rows, and in its name index, if names are to be unique, exactly the names of the valid rows. |
| Lifecycle.OpenEstablishesInv | capstone/Project work solo/encryption tests/openssl-3.3.1/apps/lib/apps.c:1670-1734 | Every file the program accepts, empty type fields included, puts it into a state that satisfies the invariant, with every row loadable. |
| Lifecycle.NumberFoundExactlyIf | capstone/Project work solo/encryption tests/openssl-3.3.1/apps/ca.c:2128-2132 | In an index of checked serials, a number is found if and only if a findable row stands for it. |
| Lifecycle.UniqueByNumber | capstone/Project work solo/encryption tests/openssl-3.3.1/crypto/txt_db/txt_db.c:234-277 | Serials unique as keys are unique as numbers if every row is findable. |
| Lifecycle.StepKeepsInv | capstone/Project work solo/encryption tests/openssl-3.3.1/apps/ca.c:1909-1934 | Every operation, on every certificate and at any time, keeps the invariant, and the rows in memory and on file only take permitted steps from those at the start. |
| Lifecycle.RunIsSafe | capstone/Project work solo/encryption tests/openssl-3.3.1/apps/ca.c:1810-1934 | After any sequence of load, issue, revoke, expire and save, whatever the expiry dates and the clock: serials unique as keys, and one row for each number if every row at the start was findable; no two valid rows of one name with unique_subject; a revocation field exactly on revoked rows; old rows only moved forward in memory and on file; a save now is accepted if and only if every row is loadable. |
| Lifecycle.RevocationIsFinal | capstone/Project work solo/encryption tests/openssl-3.3.1/apps/ca.c:2176-2197 | A revoked row and its revocation text never change again over any run, in memory or on file. |
| Lifecycle.TypesMoveForward | capstone/Project work solo/encryption tests/openssl-3.3.1/apps/ca.c:2272-2320 | Over any run, the type of a row that is V, E or R only moves from V to E, V to R and E to R, in memory and on file. |
| Lifecycle.Loaded | capstone/Project work solo/encryption tests/openssl-3.3.1/apps/ca.c:678-731 | The runs' starting points: a process that has loaded any index it accepts, and one that starts with an empty file. |
| Lifecycle.StepLoads | capstone/Project work solo/encryption tests/openssl-3.3.1/apps/ca.c:2132-2174 | One operation keeps every row loadable if and only if it is harmless: it inserts no certificate whose expiry date the startup checks refuse, and revokes at no time that is not a UTCTime and no row without a type. |
| Lifecycle.NextStartAccepts | capstone/Project work solo/encryption tests/openssl-3.3.1/apps/ca.c:684-731 | What one process leaves behind is accepted by the next start if and only if every action of the process was harmless. |
| Lifecycle.HarmlessRun | capstone/Project work solo/encryption tests/openssl-3.3.1/apps/ca.c:684-731 | Over any number of processes, loads and saves: as long as every action is harmless, the file is accepted after each of them, and so is what a save would write. |
| Lifecycle.UpdateReachesTheEnd | capstone/Project work solo/encryption tests/openssl-3.3.1/apps/ca.c:2286-2312 | With the dates the startup checks demand, do_updatedb never fails. |
| Revoking.RevokePresent | capstone/Project work solo/encryption tests/openssl-3.3.1/apps/ca.c:2176-2202 | On a present serial: success exactly when name, kind, type and argument permit it; the one row is changed in type, revocation field and, behind an empty type, expiry date, no other row changes, and none on failure. |
| Revoking.RevokeAbsent | capstone/Project work solo/encryption tests/openssl-3.3.1/apps/ca.c:2132-2174 | On an absent serial: one new row with all its fields, revoked, or valid for REV_VALID; with a bad argument the call fails and the valid row stays behind; a name that is taken changes nothing. |
| Revoking.RevokeNameless | capstone/Project work solo/encryption tests/openssl-3.3.1/apps/ca.c:2125-2128 | A certificate whose name cannot be written on one line is not revoked, and nothing changes. |
| Revoking.RevokedIsFound | capstone/Project work solo/encryption tests/openssl-3.3.1/apps/ca.c:2099-2203 | After success the serial leads to a revoked row with the text made for it. |
| Revoking.RevokedIndexLoads | capstone/Project work solo/encryption tests/openssl-3.3.1/apps/ca.c:684-721 | After any successful do_revoke the saved index loads again if and only if the time of a revocation is a UTCTime and the certificate's row was in the index with a type, or was not and its expiry date passes the startup checks. |
| Revoking.LateRevocationRefused | capstone/Project work solo/encryption tests/openssl-3.3.1/apps/ca.c:2396-2429 | A revocation at a GeneralizedTime that succeeds, and whose index is refused. |
| Revoking.BadDateRefused | capstone/Project work solo/encryption tests/openssl-3.3.1/apps/ca.c:2132-2174 | A revocation of an absent certificate whose expiry date is no time, and whose index is refused. |
| Revoking.LowerCaseSerialLost | capstone/Project work solo/encryption tests/openssl-3.3.1/apps/ca.c:702-720 | A row with serial "ab" passes the startup checks; no lookup for any number finds it; a second row for its number is inserted, and the index with both is accepted. |
| Revoking.LookupCoversValidRows | capstone/Project work solo/encryption tests/openssl-3.3.1/apps/ca.c:2128-2131 | In one process, the name lookup covers exactly the valid rows, as the comment says, if and only if no row that was valid at load or inserted since has been expired or revoked by the process. |
| Revoking.NameRefused | capstone/Project work solo/encryption tests/openssl-3.3.1/apps/ca.c:1810-1829 | In one process, whatever it does after loading, a new certificate is refused for its name if and only if a row of that name was valid at load or has been inserted since. |
| Revoking.NameFreedByReload | capstone/Project work solo/encryption tests/openssl-3.3.1/apps/lib/apps.c:1736-1759 | After saving and loading, exactly the names of valid rows are refused. |
| Revoking.NameFreedOnlyByReload | capstone/Project work solo/encryption tests/openssl-3.3.1/apps/ca.c:734-755 | A name whose row has been expired or revoked by a process is still refused by it, and accepted by the next one. |
| Revoking.ExpiredNameRefused | capstone/Project work solo/encryption tests/openssl-3.3.1/apps/ca.c:734-755 | A process that expires the row of a name and refuses the name, which the next process accepts. |
| Issuing.DraftCertificate | capstone/Project work solo/encryption tests/openssl-3.3.1/apps/ca.c:1338-1394 | The checks of a request in the code's order, its subject and its row name. |
| Issuing.SubjectIs | capstone/Project work solo/encryption tests/openssl-3.3.1/apps/ca.c:1648-1779 | The subject consists of the request's entries in their RDNs with `preserve`, and otherwise of the policy's selection with an RDN for each entry; without e-mail entries if these are not kept, and then closed up unless a preserved subject had gaps. |
| Issuing.Certify | capstone/Project work solo/encryption tests/openssl-3.3.1/apps/ca.c:1781-1934 | Outcome and new index for every request; when the insert is reached it cannot fail. |
| Issuing.CertifiedExactlyIf | capstone/Project work solo/encryption tests/openssl-3.3.1/apps/ca.c:1781-1908 | A request is certified if and only if it passes every check, the operator agrees or is not asked, and it can be signed; it is refused without an error if and only if it does not verify, or passes every check and the operator declines. |
| Issuing.AbortedExactlyIf | capstone/Project work solo/encryption tests/openssl-3.3.1/apps/ca.c:1555-1908 | Each reason for aborting, with the exact condition: the first check that fails. |
| Issuing.AfterIs | capstone/Project work solo/encryption tests/openssl-3.3.1/apps/ca.c:1909-1934 | A certificate adds one row with all its fields and indexes its name if names are to be unique; no other outcome changes the index. |
| Issuing.IssueRun | capstone/Project work solo/encryption tests/openssl-3.3.1/apps/ca.c:934-1052 | The request loop and what is saved: nothing if a request aborts or the operator declines. |
| Issuing.RunContinues | capstone/Project work solo/encryption tests/openssl-3.3.1/apps/ca.c:1006-1027 | A run may be cut anywhere: an abort ends it, and otherwise the rest goes on with the index and the serial left by the first part. |
| Issuing.IssuingRun | capstone/Project work solo/encryption tests/openssl-3.3.1/apps/ca.c:1006-1027 | k certificates carry the serials s to s+k-1, refused requests take none, the next serial is s+k, and the index has exactly one new row for each certificate, in order. |
| Issuing.OneCertificateEach | capstone/Project work solo/encryption tests/openssl-3.3.1/apps/ca.c:1006-1027 | In a run that is not aborted, k is the number of certified requests. |
| Issuing.NoSerialClash | capstone/Project work solo/encryption tests/openssl-3.3.1/apps/ca.c:1818-1829 | If the serial file is ahead of every stored serial, the clash branch is never taken in the whole run. |
| Issuing.RunOfIssues | capstone/Project work solo/encryption tests/openssl-3.3.1/apps/ca.c:1909-1934 | To the index, a run of requests is a run of issue steps, so the laws of whole runs apply. |
| Responder.AnswerOne | capstone/Project work solo/encryption tests/openssl-3.3.1/apps/ocsp.c:1057-1137 | Effect of one id: failure, no entry, or an entry with its id and status. |
| Responder.UnderCaExactlyIf | capstone/Project work solo/encryption tests/openssl-3.3.1/apps/ocsp.c:1078-1093 | A CA matches an id if and only if name and key, hashed with the id's own digest, are the id's. |
| Responder.EffectIs | capstone/Project work solo/encryption tests/openssl-3.3.1/apps/ocsp.c:1057-1137 | An id fails the response for an unknown digest or an unreadable time, adds nothing for a type other than V and R, and otherwise adds its entry. |
| Responder.RevokedRowIs | capstone/Project work solo/encryption tests/openssl-3.3.1/apps/ocsp.c:1109-1135 | A revoked row is answered with time, reason, and hold instruction or compromise time, of which there is never more than one. |
| Responder.MakeOcspResponse | capstone/Project work solo/encryption tests/openssl-3.3.1/apps/ocsp.c:1028-1137 | The answers of all ids, in order. |
| Responder.RespondIs | capstone/Project work solo/encryption tests/openssl-3.3.1/apps/ocsp.c:1045-1137 | An empty request is malformed, and there is an internal error if and only if some id fails. |
| Responder.ResponseIdIs | capstone/Project work solo/encryption tests/openssl-3.3.1/apps/ocsp.c:1083-1093 | The first matching CA gives the answer's id its name and key hashes, under the responder's digest, and serial zero. |
| Responder.AgreesWithIndex | capstone/Project work solo/encryption tests/openssl-3.3.1/apps/ocsp.c:1095-1135 | Good if and only if a valid row spells the number in upper case without zeros behind a sign, unknown if and only if no row does or no CA matches, revoked if and only if a revoked row does, silence exactly for all other types; for rows with serials of any characters. |
| Responder.AgreesByNumber | capstone/Project work solo/encryption tests/openssl-3.3.1/apps/ocsp.c:1095-1135 | If every row is findable, the same with rows that stand for the number, however spelt. |
| Responder.UnfindableIsUnknown | capstone/Project work solo/encryption tests/openssl-3.3.1/apps/ocsp.c:1176-1192 | In an index that `ca` accepts, a number under a configured CA is answered unknown if and only if no findable row stands for it. |
| Responder.LowerCaseIsUnknown | capstone/Project work solo/encryption tests/openssl-3.3.1/apps/ocsp.c:1102-1105 | The number of a revoked row with serial "ab" is answered unknown. |
| Responder.EveryIdAnswered | capstone/Project work solo/encryption tests/openssl-3.3.1/apps/ocsp.c:1057-1137 | Every id is answered, in order, if and only if none names a row that is neither valid nor revoked. |
| Responder.NoSubjectNoSerial | capstone/Project work solo/encryption tests/openssl-3.3.1/crypto/ocsp/ocsp_lib.c:22-75 | An id made without a subject has the serial number zero, whatever was asked for. |
| Responder.AnswerNamesQuestion | capstone/Project work solo/encryption tests/openssl-3.3.1/apps/ocsp.c:1078-1093 | An answer's id is the id asked for if and only if no CA matches, the responder has no digest of its own, or that digest is the id's and the serial number is zero. |
| Responder.QuestionNotNamed | capstone/Project work solo/encryption tests/openssl-3.3.1/apps/ocsp.c:1078-1093 | An id that its answer does not name. |
| Responder.RehashedIdsAreAlike | capstone/Project work solo/encryption tests/openssl-3.3.1/crypto/ocsp/ocsp_lib.c:22-40 | With a digest of the responder's own, two different ids under one CA are answered under the same id; without one, never. |
| Responder.RevokedStaysOnFile | capstone/Project work solo/encryption tests/openssl-3.3.1/apps/ca.c:2132-2197 | A saved revocation is found unchanged in every later version of the file that can be read at all. |
| Responder.RevokedIsAnsweredRevoked | capstone/Project work solo/encryption tests/openssl-3.3.1/apps/ocsp.c:1109-1135 | Once a certificate is revoked and the index saved, the answer for its serial under a configured CA, after any further run, is revoked with that time and reason, or none if the time was not a UTCTime. |
| Responder.EntryInResponse | capstone/Project work solo/encryption tests/openssl-3.3.1/apps/ocsp.c:1057-1137 | In every response, the entry of an id stands behind those of the ids before it and holds the id's own answer; a broken answer fails the response. |
| Responder.EveryResponseSaysRevoked | capstone/Project work solo/encryption tests/openssl-3.3.1/apps/ocsp.c:1028-1137 | Every response, after any further run, to any request that asks for a revoked serial under a configured CA holds the entry of that id, revoked with the time and the reason that were given. |
| CryptEncoding.B64From24Bit | capstone/Project work solo/encryption tests/openssl-3.3.1/apps/passwd.c:709-718 | The shifting macro writes the low six-bit digits of the word, here a number. |
| CryptEncoding.AlphabetIs | capstone/Project work solo/encryption tests/openssl-3.3.1/apps/passwd.c:25-34 | The 64 characters: full stop, slash, digits, capitals, small letters, in the order of their codes. |
| CryptEncoding.EncodedAt | capstone/Project work solo/encryption tests/openssl-3.3.1/apps/passwd.c:709-761 | Character k of group g is the k-th six-bit digit of the group's three bytes. |
| CryptEncoding.EncodedTail | capstone/Project work solo/encryption tests/openssl-3.3.1/apps/passwd.c:720-756 | The last two or three characters are those of bytes 31 and 30, of byte 63 or of byte 11. |
| CryptEncoding.Table256 | capstone/Project work solo/encryption tests/openssl-3.3.1/apps/passwd.c:720-731 | Group g of the SHA-256 order holds the bytes g, g + 10 and g + 20, turned g times (OrdersAre). |
| CryptEncoding.Table512 | capstone/Project work solo/encryption tests/openssl-3.3.1/apps/passwd.c:733-756 | Group g of the SHA-512 order holds the bytes g, g + 21 and g + 42, turned g times the other way (OrdersAre). |
| CryptEncoding.OrdersAre | capstone/Project work solo/encryption tests/openssl-3.3.1/apps/passwd.c:720-756 | What turning means: which of the three bytes comes first, by the remainder of g modulo 3. |
| CryptEncoding.OrderMd5 | capstone/Project work solo/encryption tests/openssl-3.3.1/apps/passwd.c:449-475 | md5crypt's groups are bytes six apart that are not turned, with byte 5 at the end of the last one. |
| ByteBits.WordHolds | capstone/Project work solo/encryption tests/openssl-3.3.1/apps/passwd.c:709-718 | The three bytes, shifted and joined with `|` in 32 bits, are the number that they spell. |
| ByteBits.MaskAndShift | capstone/Project work solo/encryption tests/openssl-3.3.1/apps/passwd.c:709-718 | Mask and shift on a 32-bit word are remainder and quotient by 64 of the number it holds. |
| CryptEncoding.CharsAreMaskedBits | capstone/Project work solo/encryption tests/openssl-3.3.1/apps/passwd.c:709-718 | Character k of a group is the one at the masked low six bits of the 32-bit word after k shifts, as the macro has it. |
| ByteBits.ExplicitShifts | capstone/Project work solo/encryption tests/openssl-3.3.1/apps/passwd.c:463-471 | md5crypt's masks and shifts of single bytes are the four six-bit digits of the macro's 32-bit word. |
| CryptEncoding.EveryByteHasAPlace | capstone/Project work solo/encryption tests/openssl-3.3.1/apps/passwd.c:720-756 | Each of the three byte orders uses every digest byte. |
| CryptEncoding.EveryPlaceHasItsByte | capstone/Project work solo/encryption tests/openssl-3.3.1/apps/passwd.c:720-756 | No two places of a byte order hold the same byte, so places and digest bytes correspond one to one. |
| CryptEncoding.FourCharsInto | capstone/Project work solo/encryption tests/openssl-3.3.1/apps/passwd.c:463-471 | md5crypt's masks and shifts on bytes write the four six-bit digits of the group. |
| CryptEncoding.Lossless | capstone/Project work solo/encryption tests/openssl-3.3.1/apps/passwd.c:706-761 | A decoder recovers the digest from the 22, 43 or 86 characters, for every digest. |
| CryptEncoding.Permute | capstone/Project work solo/encryption tests/openssl-3.3.1/apps/passwd.c:449-453 | Steps of six modulo seventeen plus bytes 5 and 11 give md5crypt's byte order. |
| CryptEncoding.EncodeInto | capstone/Project work solo/encryption tests/openssl-3.3.1/apps/passwd.c:706-757 | The macro calls write the encoded digest behind the header. |
| CryptEncoding.EncodeMd5Into | capstone/Project work solo/encryption tests/openssl-3.3.1/apps/passwd.c:442-475 | md5crypt's output loop writes the encoded digest behind the header. |
| CryptStream.FeedBlocks | capstone/Project work solo/encryption tests/openssl-3.3.1/apps/passwd.c:623-629 | The block loop feeds exactly as many bytes as the password has: the first ones of the repeated digest. |
| CryptStream.FeedBits | capstone/Project work solo/encryption tests/openssl-3.3.1/apps/passwd.c:630-639 | The shift loop feeds one piece for each bit of the length, from the lowest up. |
| CryptStream.LowestBitFirst | capstone/Project work solo/encryption tests/openssl-3.3.1/apps/passwd.c:630-639 | An odd length feeds the piece for a 1 first, an even one the piece for a 0, and then what its half feeds. |
| CryptStream.FillCyclic | capstone/Project work solo/encryption tests/openssl-3.3.1/apps/passwd.c:652-673 | The P and S buffers: byte k is byte k modulo the block size. |
| CryptStream.CyclicIs | capstone/Project work solo/encryption tests/openssl-3.3.1/apps/passwd.c:652-673 | The block first, and every byte again one block later. |
| CryptStream.RunRounds | capstone/Project work solo/encryption tests/openssl-3.3.1/apps/passwd.c:675-696 | Every round hashes the concatenation that the description gives for its number. |
| CryptStream.RoundIs | capstone/Project work solo/encryption tests/openssl-3.3.1/apps/passwd.c:675-696 | Odd rounds begin with the password sequence and end with the digest, even ones the other way round; between them stands the salt sequence unless the number is a multiple of 3, and then the password sequence unless it is a multiple of 7. |
| CryptStream.RoundShape | capstone/Project work solo/encryption tests/openssl-3.3.1/apps/passwd.c:675-696 | The length of what a round feeds, and what it begins and ends with. |
| CryptStream.RoundsFollow | capstone/Project work solo/encryption tests/openssl-3.3.1/apps/passwd.c:675-696 | Round 0 feeds digest and password sequence; round n feeds the digest of the rounds before it. |
| CryptStream.FeedRepeated | capstone/Project work solo/encryption tests/openssl-3.3.1/apps/passwd.c:641-667 | A context fed n times holds n copies. |
| CryptStream.RepeatAdds | capstone/Project work solo/encryption tests/openssl-3.3.1/apps/passwd.c:641-667 | Copies add up: m and n of them are m + n. |
| OutBuffer.Append | capstone/Project work solo/encryption tests/openssl-3.3.1/apps/passwd.c:565-605 | A bounded append to the static buffer. |
| OutBuffer.BytesAre | capstone/Project work solo/encryption tests/openssl-3.3.1/apps/passwd.c:607-624 | The bytes that are hashed are the codes of the characters. |
| Text.CopyFills | capstone/Project work solo/encryption tests/openssl-3.3.1/apps/passwd.c:565-605 | A bounded copy that cuts its text fills the buffer up to the terminator. |
| ShaCrypt.ParseSalt | capstone/Project work solo/encryption tests/openssl-3.3.1/apps/passwd.c:547-563 | Prefix, number, dollar check, clamping to 1000..999999999 and truncation to 16 characters. |
| ShaCrypt.StrtoulIs | capstone/Project work solo/encryption tests/openssl-3.3.1/apps/passwd.c:547-552 | What strtoul reads behind blanks and a sign, with overflow and negation, and where it stops. |
| ShaCrypt.StrtoulNothing | capstone/Project work solo/encryption tests/openssl-3.3.1/apps/passwd.c:547-552 | Without digits strtoul reads nothing and stops at the very beginning, blanks and sign included. |
| Decimal.ValueGrows | capstone/Project work solo/encryption tests/openssl-3.3.1/apps/passwd.c:547-552 | Digits are read in base ten. |
| ShaCrypt.NumberedArgument | capstone/Project work solo/encryption tests/openssl-3.3.1/apps/passwd.c:547-563 | "rounds=" and a number: refused unless a dollar sign follows, otherwise limited to 1000..999999999; 16 characters of salt count. |
| ShaCrypt.PlainArgument | capstone/Project work solo/encryption tests/openssl-3.3.1/apps/passwd.c:547-563 | Without "rounds=": 5000 rounds, and 16 characters of salt. |
| ShaCrypt.HashPassword | capstone/Project work solo/encryption tests/openssl-3.3.1/apps/passwd.c:607-696 | The digest refines steps 1 to 21 of the SHA-crypt description, with the digest abstract. |
| ShaCrypt.DigestAIs | capstone/Project work solo/encryption tests/openssl-3.3.1/apps/passwd.c:607-639 | Digest A: password, salt, as many bytes of B as the password has, and for the bits of its length, the lowest first, B for a 1 and the password for a 0. |
| ShaCrypt.OneBytePassword | capstone/Project work solo/encryption tests/openssl-3.3.1/apps/passwd.c:607-660 | For a password of one byte: what digest A is made of, and the password sequence. |
| ShaCrypt.SequencesAre | capstone/Project work solo/encryption tests/openssl-3.3.1/apps/passwd.c:641-673 | Both sequences, byte for byte, from the digests of as many copies of the password as it has bytes and of 16 plus the first byte of A copies of the salt. |
| ShaCrypt.DescribedFollows | capstone/Project work solo/encryption tests/openssl-3.3.1/apps/passwd.c:675-696 | No rounds leave A; each further round feeds the last digest and the two sequences. |
| ShaCrypt.Shacrypt | capstone/Project work solo/encryption tests/openssl-3.3.1/apps/passwd.c:496-775 | The whole result text, and failure exactly for an unknown magic, a salt argument that is not understood, an empty password or an empty salt; the length guard never fires. |
| ShaCrypt.ResultIs | capstone/Project work solo/encryption tests/openssl-3.3.1/apps/passwd.c:565-605 | The result in characters: $5$ or $6$, the rounds if they were given, the salt, a dollar sign and the encoded digest. |
| ShaCrypt.TightBuffer | capstone/Project work solo/encryption tests/openssl-3.3.1/apps/passwd.c:510-511 | The result always fits the 124 bytes, and fills them exactly for "6" with nine-digit rounds and a 16-character salt. |
| ShaCrypt.NormalFormIsStable | capstone/Project work solo/encryption tests/openssl-3.3.1/apps/passwd.c:547-563 | Giving the normal form back as salt argument changes nothing. |
| ShaCrypt.SameResultFromNormalForm | capstone/Project work solo/encryption tests/openssl-3.3.1/apps/passwd.c:565-605 | Hashing with the normal form gives the same result, which starts with it. |
| ShaCrypt.ResultDeterminesDigest | capstone/Project work solo/encryption tests/openssl-3.3.1/apps/passwd.c:706-761 | Results with the same settings are equal only if the digests are. |
| Md5Crypt.HashPassword | capstone/Project work solo/encryption tests/openssl-3.3.1/apps/passwd.c:378-441 | The digest input streams and the 1000 rounds. |
| Md5Crypt.DescribedIs | capstone/Project work solo/encryption tests/openssl-3.3.1/apps/passwd.c:378-441 | What md5crypt feeds, by the parity of the password's length, and its 1000 rounds. |
| Md5Crypt.Md5 | capstone/Project work solo/encryption tests/openssl-3.3.1/apps/passwd.c:314-489 | The whole result text, failure exactly for a magic of more than four characters, and the bound of the static buffer; the length guard never fires. |
| Md5Crypt.ResultIs | capstone/Project work solo/encryption tests/openssl-3.3.1/apps/passwd.c:340-376 | The result in characters: the magic between dollar signs if there is one, 8 characters of salt, a dollar sign and the encoded digest. |
| FileIndex.HashFunction | capstone/Project work solo/tomypeers.c:402-408 | Wrapping at every step is wrapping the 31-based polynomial once. |
| FileIndex.HashIs | capstone/Project work solo/tomypeers.c:402-408 | The hash in character codes: factor 31, bytes from 128 on negative, 100 buckets. |
| FileIndex.HashMap.Insert | capstone/Project work solo/tomypeers.c:410-426 | Every node stays in the bucket of its hash, newest first, and the insertion is recorded. |
| FileIndex.HashMap.GetFilesize | capstone/Project work solo/tomypeers.c:428-438 | The size inserted last for the name, 0 for an absent one. |
| FileIndex.BucketDecides | capstone/Project work solo/tomypeers.c:428-438 | Searching one bucket, newest first, finds the last size among all insertions. |
| FileIndex.LastSizeFound | capstone/Project work solo/tomypeers.c:428-438 | The size of the last entry of a name, 0 without one. |
| FileIndex.FirstSizeFound | capstone/Project work solo/restructured code/tomypeersV2.c:487-496 | The size of the first entry of a name, 0 without one. |
| FileIndex.FileList.AppendNode | capstone/Project work solo/restructured code/tomypeersV2.c:435-460 | The new node is hung behind the last one; the others stay. |
| FileIndex.StoredCut | capstone/Project work solo/restructured code/tomypeersV2.c:441-442 | 71 characters of a name are kept. |
| FileIndex.FileList.GetFilesize | capstone/Project work solo/restructured code/tomypeersV2.c:487-496 | The size inserted first for the name as stored, 0 for an absent one. |
| FileIndex.VersionsAgree | capstone/Project work solo/restructured code/tomypeersV2.c:487-496 | With distinct names of at most 71 characters both versions answer every query alike. |
| FileIndex.LongNamesAreLost | capstone/Project work solo/restructured code/tomypeersV2.c:441-442 | The list never finds a name of more than 71 characters. |
| FileIndex.DuplicatesDiffer | capstone/Project work solo/tomypeers.c:423-425 | For any history, both versions answer a name alike if and only if the last entry of the name and the first one stored under it have the same size. |
| FileIndex.FoundExactlyIf | capstone/Project work solo/restructured code/tomypeersV2.c:435-460 | With distinct names, the list gives an entry's size if and only if the name is not longer than 71 characters (or the size is 0) and the first entry that is cut to this name has that size. |
| FileIndex.VersionsAgreeExactlyIf | capstone/Project work solo/restructured code/tomypeersV2.c:487-496 | For distinct names of nonempty files, both versions answer every query alike if and only if no name is longer than 71 characters. |
| FileIndex.ShadowedByLongName | capstone/Project work solo/restructured code/tomypeersV2.c:441-442 | A name of 71 characters is answered with the size of an earlier, longer name that is cut to it. |
| FileListing.BuildFileList | capstone/Project work solo/tomypeers.c:184-195 | The loop over the directory prints one line for each entry except "." and "..". |
| FileListing.VisibleIs | capstone/Project work solo/tomypeers.c:184-195 | Entry by entry: only "." and ".." are left out, and the order is kept. |
| FileListing.ListingIs | capstone/Project work solo/tomypeers.c:190 | Every file has a line with its name, a blank, its size in decimal digits and " bytes" in brackets. |
| Decimal.NoLeadingZero | capstone/Project work solo/tomypeers.c:190 | Numbers are printed without leading zeros. |
| FileListing.ParseList | capstone/Project work solo/tomypeers.c:85-93 | The strtok loop scans exactly the non-empty lines. |
| FileListing.TextParts | capstone/Project work solo/tomypeers.c:85-93 | A newline parts a text in two lists of tokens; a text without one is a token, and the empty text none. |
| FileListing.ScanIs | capstone/Project work solo/tomypeers.c:86-90 | What sscanf reads of any token: blanks, a word, and a number if a bracket stands before it. |
| FileListing.ScanBlank | capstone/Project work solo/tomypeers.c:86-90 | A token of blanks alone gives sscanf no name and no number. |
| FileListing.NumberIs | capstone/Project work solo/tomypeers.c:86-90 | What it reads as the number: blanks, at most one sign, digits, with overflow and negation. |
| FileListing.EntryRoundTrip | capstone/Project work solo/tomypeers.c:86-90 | A line is read back as printed if and only if the name is not empty and has no blanks. |
| FileListing.ListRoundTrip | capstone/Project work solo/tomypeers.c:184-195 | For sizes that fit, the whole list is read back as printed, entry by entry and in order, if and only if no name is empty or has blanks. |
| FileListing.ContainsExactlyIf | capstone/Project work solo/tomypeers.c:292 | The server's check: a name is contained if and only if it stands somewhere in the list. |
| FileListing.ListedNamePasses | capstone/Project work solo/tomypeers.c:292 | Every listed name passes the server's substring check. |
| Transfer.StepKeepsInv | capstone/Project work solo/tomypeers.c:108-143 | Each step of client, server or stream keeps: bytes written, in flight and unread make up the file, and requested files stay on disk. |
| Transfer.UnlistedIsRefused | capstone/Project work solo/tomypeers.c:310-314 | A name that stands nowhere in the list: no file is opened, and exactly the 20 bytes of "File does not exist." are sent. |
| Transfer.ListedIsOpened | capstone/Project work solo/tomypeers.c:292-307 | A name that stands in the list: its file is to be sent, and nothing else changes. |
| Transfer.RecvIs | capstone/Project work solo/tomypeers.c:112-143 | A recv of the client: 1 to 4096 bytes; the first one is the refusal or the beginning of the file, later ones are appended, and the file ends at the stored size. |
| Transfer.AskIs | capstone/Project work solo/tomypeers.c:99-109 | The word "exit" is not sent and ends the session; any other name is sent and waited for. |
| Transfer.SendIs | capstone/Project work solo/tomypeers.c:300-307 | A send moves the next 3072 bytes of the file, or what is left of it. |
| Transfer.EnabledIs | capstone/Project work solo/tomypeers.c:101-143 | When each step can be taken: one request and one file at a time, and a recv of at most 4096 of the bytes in flight. |
| Transfer.StepIsProgress | capstone/Project work solo/tomypeers.c:123-137 | Each step of any session, of whatever requests, brings it nearer to its end. |
| Transfer.NeverStuck | capstone/Project work solo/tomypeers.c:284-321 | Some step is always possible until the session is finished. |
| Transfer.ExactTransfer | capstone/Project work solo/tomypeers.c:98-151 | For every session of deliverable requests and every fragmentation: bytes are conserved, the number of steps is bounded, and the session is stuck exactly when it is finished, with every file written exactly and the stream empty. |
| Transfer.ReliableExactlyIf | capstone/Project work solo/tomypeers.c:101-114 | A session is reliable under every schedule if and only if every request is for a listed file of the stored size that is not called "exit", is not empty and does not start with the server's message. |
| Transfer.SessionFails | capstone/Project work solo/tomypeers.c:108-143 | From every prompt at which an undeliverable request has not been written, some schedule ends badly; if bytes of an earlier reply are still in flight, provided that the reply has the stored size. |
| Transfer.RefusalEndsWait | capstone/Project work solo/tomypeers.c:112-143 | A refusal of which the first recv returns k bytes can end the client's wait if and only if k is all 20 or the stored size lies between k and 20. |
| Transfer.EmptyFileStalls | capstone/Project work solo/tomypeers.c:301-307 | A request for an empty file is not reliable; if it is listed, asking and accepting lead to a state in which the client waits for it and nothing can happen any more. |
| Transfer.MessageFileIsMistaken | capstone/Project work solo/restructured code/tomypeersV2.c:93-95 | A request for a file that starts with the message is not reliable; if it is listed, a first recv of 20 bytes ends the session with the file not written. |
| Transfer.ListedIsDeliverable | capstone/Project work solo/tomypeers.c:384-391 | From the directory over printed list, parser and either index to the stored size: every file of a good directory is deliverable. |
| Transfer.SendFile | capstone/Project work solo/tomypeers.c:300-307 | The send loop sends the file in pieces of 3072 bytes, of which only the last may be shorter. |
| Transfer.Download | capstone/Project work solo/restructured code/tomypeersV2.c:88-121 | The client's loop ends, returns exactly the file and leaves nothing in the connection. |
| CmsSigners.GroupsAreTheCommandLine | capstone/Project work solo/encryption tests/openssl-3.3.1/apps/cms.c:582-620 | The groups are the command line cut into pieces with at most one signer and one key each, cut only where an option would repeat. |
| CmsSigners.RepeatsExactlyIf | capstone/Project work solo/encryption tests/openssl-3.3.1/apps/cms.c:582-620 | An option begins a new group if and only if the open one has an option of its kind; key options never do. |
| CmsSigners.SignerOptions.OptSigner | capstone/Project work solo/encryption tests/openssl-3.3.1/apps/cms.c:582-597 | A pending signer is pushed with its key, or itself as key, before the new one is taken. |
| CmsSigners.SignerOptions.OptInkey | capstone/Project work solo/encryption tests/openssl-3.3.1/apps/cms.c:601-620 | A pending key is pushed with its signer; refused exactly if it has none. |
| CmsSigners.SignerOptions.OptKeyopt | capstone/Project work solo/encryption tests/openssl-3.3.1/apps/cms.c:641-672 | The option joins the open group's parameters; refused exactly as the first option. |
| CmsSigners.SignerOptions.Finish | capstone/Project work solo/encryption tests/openssl-3.3.1/apps/cms.c:748-770 | The final signer is pushed, lists of equal length pair each group's signer and key; refused exactly if the last group has no signer. |
| CmsSigners.IndicesIncrease | capstone/Project work solo/encryption tests/openssl-3.3.1/apps/cms.c:656-670 | Indices increase strictly along the parameter list, and stay below the number of groups. |
| CmsSigners.FirstMatchIsOwn | capstone/Project work solo/encryption tests/openssl-3.3.1/apps/cms.c:1111-1116 | The first-match search gives a signer exactly the key options of its own group. |
| CmsSigners.SignerOptions.SignAll | capstone/Project work solo/encryption tests/openssl-3.3.1/apps/cms.c:1093-1125 | The signing loop's jobs: signer, key and options of each group, in order. |
| CmsSigners.FatalIsFatal | capstone/Project work solo/encryption tests/openssl-3.3.1/apps/cms.c:605-608 | What is refused at once could not have become usable. |
| CmsSigners.AcceptableExactlyIf | capstone/Project work solo/encryption tests/openssl-3.3.1/apps/cms.c:582-770 | A command line is usable if and only if it has an option, does not begin with a key option and has a signer in every group. |
| CmsSigners.JobIs | capstone/Project work solo/encryption tests/openssl-3.3.1/apps/cms.c:1093-1125 | A signature is made with a signer of the group, a key of the group or else the signer's, and the group's key options. |
| CmsSigners.Sign | capstone/Project work solo/encryption tests/openssl-3.3.1/apps/cms.c:582-770 | The command signs if and only if every group has a signer and no key option comes first, once for each group. |
| SectionList.Scanner.PrevItem | capstone/Project work solo/encryption tests/openssl-3.3.1/apps/cmp.c:2363-2394 | The item before a position and where the next one ends, for every list. |
| SectionList.ScansNamesInReverse | capstone/Project work solo/encryption tests/openssl-3.3.1/apps/cmp.c:2363-2408 | Repeated prev_item ends and yields the names of the list in reverse, each cut to 40 characters; a list that ends in a separator yields an empty item first. |
| SectionList.NamesAreFree | capstone/Project work solo/encryption tests/openssl-3.3.1/apps/cmp.c:2363-2394 | No name is empty or holds a comma, a space or a character from 9 to 13. |
| Text.CharacterClasses | capstone/Project work solo/encryption tests/openssl-3.3.1/apps/cmp.c:2373-2388 | Blanks, digits and the lower case of letters, in character codes. |
| SectionList.ListParts | capstone/Project work solo/encryption tests/openssl-3.3.1/apps/cmp.c:2363-2394 | Each such character parts a list in two. |
| SectionList.SingleName | capstone/Project work solo/encryption tests/openssl-3.3.1/apps/cmp.c:2363-2394 | A text without them is a single name. |
| SectionList.TwoNames | capstone/Project work solo/encryption tests/openssl-3.3.1/apps/cmp.c:2363-2394 | Two names with any separator between them are these two names. |
| SectionList.CutAt40 | capstone/Project work solo/encryption tests/openssl-3.3.1/apps/cmp.c:2377-2381 | 40 characters of a section's name are kept. |
| SectionList.NamesHoldTheList | capstone/Project work solo/encryption tests/openssl-3.3.1/apps/cmp.c:2361-2394 | The names hold every character that is not a separator, in order. |
| SectionList.Scanner.ConfGetString | capstone/Project work solo/encryption tests/openssl-3.3.1/apps/cmp.c:2396-2408 | The first value found, scanning from the last section. |
| SectionList.FirstFoundIs | capstone/Project work solo/encryption tests/openssl-3.3.1/crypto/conf/conf_api.c:66-94 | The first section asked that defines the name decides, or else the section "default" as soon as one is asked. |
| SectionList.LaterSectionsOverride | capstone/Project work solo/encryption tests/openssl-3.3.1/crypto/conf/conf_api.c:66-94 | The last listed section that defines the name decides, if and only if the default section does not define it, or the last listed section does, or no listed section does, or the last one that does agrees with the default. |
| SectionList.TrailingSeparator | capstone/Project work solo/encryption tests/openssl-3.3.1/apps/cmp.c:2363-2408 | A list that ends in a separator asks the section with the empty name first. |
| SectionList.ListedDefinitionLost | capstone/Project work solo/encryption tests/openssl-3.3.1/crypto/conf/conf_api.c:66-94 | A list "a,b" whose definition in section a is lost to the default section. |

## Left out

- Sockets, threads, directory calls, prompts, printing, and the failure of a send, a recv or a disconnect: the stream is reliable and an operator's answer is a parameter.
- A request name and a file list that arrive in more than one recv: each is taken to arrive whole, and one byte past each recv buffer is taken to be there for the terminator.
- The fixed buffers of the Tomypeers file list (1024 and 2048 bytes) and of names: lists and names are taken to fit them.
- A file the client cannot create, and one that the server has but cannot open.
- Win32 integer widths: sizes are naturals up to a bound that is a parameter, and `Transfer` counts bytes without wrap-around.
- The second version's reuse of its list after freeing it: one connection for each list.
- Memory allocation failures everywhere, except for the zero-byte allocations of `shacrypt`.
- Digests, signatures, ASN.1, big numbers, times and object identifiers: function values or fields of a request; BN_bn2hex is modelled as even-length upper-case hex.
- `certify_cert` and `certify_spkac`, the dates, extensions and signature of a certificate, the certificate files and the rotation of index and serial file: the issuing run is that of request files, and a saved file replaces the old one.
- Type fields of any length are covered, and the programs look at the first character. A NULL and an empty revocation field are identified, and texts hold no NUL character.
- Comment lines of more than 511 bytes in the index file, whose rest TXT_DB_read takes for a row: a comment is skipped as a whole.
- Lifecycle.StepKeepsInv: takes for granted that a name holds no line break, as X509_NAME_oneline writes control characters in hex, that the clock's text is a text without commas, and that an accepted object identifier or time holds no line break and no final backslash.
- Lifecycle.RunIsSafe: takes for granted that the empty text is no time, as ASN1_TIME_set_string has it; so do the other laws of `Lifecycle`, `Revoking` and `Responder` that mention `TimeOk("")`.
- FileIndex.HashMap.Insert: requires a name that fits the 256-byte buffer it is copied to.
- Transfer.ExactTransfer: is about deliverable requests; `Transfer.ReliableExactlyIf` shows that nothing less will do. A name is sent only after the server has read the one before; otherwise the two could reach it as one.
- CryptEncoding.B64From24Bit: works on a number in place of a 32-bit word; `CryptEncoding.CharsAreMaskedBits` reads the same characters off the word.
- CmsSigners.SignerOptions.OptKeyopt: the operation is fixed to signing; with `-encrypt` given first the index counts recipients instead. The linked list of parameters is a sequence.
- SectionList.Scanner.ConfGetString: the environment lookup of a section called ENV is part of what that section gives.
- EBCDIC builds, passwords whose length exceeds an `int`, and everything in `passwd` but `md5crypt` and `shacrypt`.
- The reading of numbers in `cmp` (conf_get_number_e), CRL generation, and the other OpenSSL applications: option parsing around library calls.
