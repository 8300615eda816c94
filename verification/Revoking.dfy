/** Laws of single operations on the index: what do_revoke does in every case, when a
    revoked index can be loaded again, and what the name lookup really covers. */
module Revoking {
  import opened Text
  import opened Library
  import opened Revocation
  import opened Serials
  import opened CaDatabase
  import opened Lifecycle

  /** The name that do_revoke looks for: an empty subject is represented by the serial. */
  function NameFor(cert: Cert): string
    requires cert.name.Some?
  {
    if |cert.name.value| == 0 then SerialText(cert.serial) else cert.name.value
  }

  /** do_revoke on a serial that is present touches no other row, and nothing if it fails;
      otherwise it sets the row's type to R and its revocation field. */
  lemma RevokePresent(lib: Lib, db: Db, cert: Cert, revType: RevType, arg: string, now: string, i: nat)
    requires cert.name.Some? && FindSerial(db.rows, SerialText(cert.serial)) == Some(i)
    ensures var (after, ok) := Revoke(lib, db, cert, revType, arg, now);
            && (ok <==> db.rows[i].name == NameFor(cert) && revType != RevValid
                        && db.rows[i].typ != 'R' && RevocationText(lib, revType, arg, now).Some?)
            && (!ok ==> after == db)
            && after.unique == db.unique && after.nameIndex == db.nameIndex && |after.rows| == |db.rows|
            && (forall k :: 0 <= k < |db.rows| && k != i ==> after.rows[k] == db.rows[k])
            && (ok ==> after.rows[i] == db.rows[i].(
                         typ := 'R', more := "", exp := if db.rows[i].typ == '\0' then "" else db.rows[i].exp,
                         rev := RevocationText(lib, revType, arg, now).value))
  {
  }

  lemma RevokeInsertedAt(lib: Lib, grown: Db, rows: seq<Row>, row: Row, revType: RevType, arg: string, now: string)
    requires grown.rows == rows + [row] && row.typ == 'V' && revType != RevValid
    ensures var (after, ok) := RevokeAt(lib, grown, |rows|, revType, arg, now);
            var text := RevocationText(lib, revType, arg, now);
            && (ok <==> text.Some?) && (!ok ==> after == grown)
            && (ok ==> after == grown.(rows := rows + [row.(typ := 'R', more := "", rev := text.value)]))
  {
    assert grown.rows[|rows|] == row;
  }

  /** do_revoke on an absent serial adds one row. With valid arguments it is revoked (or
      valid, for REV_VALID); with invalid ones it is left behind valid and the call fails. */
  lemma RevokeAbsent(lib: Lib, db: Db, cert: Cert, revType: RevType, arg: string, now: string)
    requires cert.name.Some? && FindSerial(db.rows, SerialText(cert.serial)).None?
    ensures var (after, ok) := Revoke(lib, db, cert, revType, arg, now);
            var name := NameFor(cert);
            var clash := db.unique && name in db.nameIndex;
            var text := RevocationText(lib, revType, arg, now);
            && (ok <==> !clash && (revType == RevValid || text.Some?))
            && (clash ==> after == db)
            && (!clash ==>
                  && after.unique == db.unique
                  && after.nameIndex == (if db.unique then db.nameIndex[name := |db.rows|] else db.nameIndex)
                  && after.rows == db.rows + [
                       if ok && revType != RevValid
                       then Row('R', "", cert.notAfter, text.value, SerialText(cert.serial), "unknown", name)
                       else Row('V', "", cert.notAfter, "", SerialText(cert.serial), "unknown", name)])
  {
    var row := NewRow(NameFor(cert), cert.serial, cert.notAfter);
    var inserted := Insert(db, row);
    if inserted.Some? && revType != RevValid {
      RevokeInsertedAt(lib, inserted.value, db.rows, row, revType, arg, now);
    }
  }

  /** A certificate whose name cannot be written on one line is not revoked. */
  lemma RevokeNameless(lib: Lib, db: Db, cert: Cert, revType: RevType, arg: string, now: string)
    requires cert.name.None?
    ensures Revoke(lib, db, cert, revType, arg, now) == (db, false)
  {
  }

  lemma {:induction false} OnlySerial(rows: seq<Row>, key: string, i: nat)
    requires SerialsUnique(rows) && i < |rows| && KeyEq(rows[i].serial, key)
    ensures FindSerial(rows, key) == Some(i)
  {
  }

  /** Where a serial is found does not change as the index evolves. */
  lemma {:induction false} StaysFound(a: seq<Row>, b: seq<Row>, key: string)
    requires Evolves(a, b) && SerialsUnique(b) && FindSerial(a, key).Some?
    ensures FindSerial(b, key) == FindSerial(a, key)
  {
    var i := FindSerial(a, key).value;
    assert RowStep(a[i], b[i]);
    OnlySerial(b, key, i);
  }

  lemma {:induction false} SameSerialsFound(a: seq<Row>, b: seq<Row>, key: string)
    requires |a| == |b| && forall k :: 0 <= k < |a| ==> a[k].serial == b[k].serial
    ensures FindSerial(b, key) == FindSerial(a, key)
  {
    if a != [] { SameSerialsFound(a[..|a| - 1], b[..|b| - 1], key); }
  }

  /** After a successful revocation the serial leads to a revoked row with the text that
      was made for it. */
  lemma RevokedIsFound(lib: Lib, db: Db, cert: Cert, revType: RevType, arg: string, now: string)
    requires Inv(db) && revType != RevValid
    requires Revoke(lib, db, cert, revType, arg, now).1
    ensures var rows := Revoke(lib, db, cert, revType, arg, now).0.rows;
            var found := FindSerial(rows, SerialText(cert.serial));
            && found.Some? && rows[found.value].typ == REVOKED
            && Some(rows[found.value].rev) == RevocationText(lib, revType, arg, now)
  {
    var rows := Revoke(lib, db, cert, revType, arg, now).0.rows;
    var key := SerialText(cert.serial);
    match FindSerial(db.rows, key) {
      case Some(i) =>
        RevokePresent(lib, db, cert, revType, arg, now, i);
        SameSerialsFound(db.rows, rows, key);
      case None =>
        RevokeAbsent(lib, db, cert, revType, arg, now);
        assert rows[|rows| - 1].serial == key;
    }
  }

  /** A successful do_revoke can be saved and loaded again if and only if a revocation's
      time is a UTCTime, an inserted certificate's expiry date passes the startup checks,
      and a row that was there had a type. From 2050 on the time is a GeneralizedTime; the
      dates of a certificate are only checked for their length when it is decoded; and
      behind an empty type field the expiry date is erased. In each of these cases
      do_revoke succeeds, the index is saved, and the next start of the program refuses it. */
  lemma RevokedIndexLoads(lib: Lib, db: Db, cert: Cert, revType: RevType, arg: string, now: string)
    requires !lib.TimeOk("") && Inv(db) && AllLoadable(lib, db.rows)
    requires PlainTexts(revType, arg, now) && GoodCert(cert)
    requires Revoke(lib, db, cert, revType, arg, now).1
    ensures Open(lib, db.unique, SaveText(Revoke(lib, db, cert, revType, arg, now).0.rows)).Some? <==>
            && (revType == RevValid || lib.utcOk(now))
            && (match FindSerial(db.rows, SerialText(cert.serial))
                case Some(i) => db.rows[i].typ != NO_TYPE
                case None => GoodExpiry(lib, cert.notAfter))
  {
    RevokeKeepsInv(lib, db, cert, revType, arg, now);
    SavedIsAccepted(lib, Revoke(lib, db, cert, revType, arg, now).0);
  }

  // ----------------------------------------------------- the name lookup

  predicate ValidName(rows: seq<Row>, name: string) {
    exists i :: 0 <= i < |rows| && rows[i].typ == VALID && rows[i].name == name
  }

  /** Row `i` was valid when `base` was loaded, or was inserted, valid, since. */
  predicate OnceValid(base: seq<Row>, i: nat) {
    i >= |base| || base[i].typ == VALID
  }

  predicate OnceValidName(base: seq<Row>, rows: seq<Row>, name: string) {
    exists i :: 0 <= i < |rows| && OnceValid(base, i) && rows[i].name == name
  }

  /** The name index leads to exactly the rows that were once valid. */
  predicate IndexedSince(base: seq<Row>, db: Db) {
    && |base| <= |db.rows|
    && (forall i :: 0 <= i < |db.rows| && OnceValid(base, i) ==>
          db.rows[i].name in db.nameIndex && db.nameIndex[db.rows[i].name] == i)
    && (forall n :: n in db.nameIndex ==>
          && db.nameIndex[n] < |db.rows| && OnceValid(base, db.nameIndex[n])
          && db.rows[db.nameIndex[n]].name == n)
    && (forall i :: 0 <= i < |db.rows| && db.rows[i].typ == VALID ==> OnceValid(base, i))
  }

  lemma LoadedIsIndexed(rows: seq<Row>)
    requires ValidNamesUnique(rows)
    ensures IndexedSince(rows, Indexed(true, rows))
  {
    IndexNamesOk(rows);
  }

  lemma InsertIndexes(base: seq<Row>, db: Db, row: Row)
    requires db.unique && IndexedSince(base, db) && row.typ == VALID && Insert(db, row).Some?
    ensures IndexedSince(base, Insert(db, row).value) && Insert(db, row).value.unique
  {
    var grown := Insert(db, row).value;
    assert forall i :: 0 <= i < |db.rows| ==> grown.rows[i] == db.rows[i];
  }

  lemma ChangeKeepsIndex(base: seq<Row>, db: Db, rows: seq<Row>)
    requires IndexedSince(base, db) && |rows| == |db.rows|
    requires forall i :: 0 <= i < |rows| ==>
               rows[i].name == db.rows[i].name && (rows[i].typ == VALID ==> db.rows[i].typ == VALID)
    ensures IndexedSince(base, Db(db.unique, rows, db.nameIndex))
  {
  }

  lemma RevokeAtKeepsIndex(lib: Lib, base: seq<Row>, db: Db, i: nat, revType: RevType, arg: string, now: string)
    requires db.unique && IndexedSince(base, db) && i < |db.rows|
    ensures var after := RevokeAt(lib, db, i, revType, arg, now).0; after.unique && IndexedSince(base, after)
  {
    ChangeKeepsIndex(base, db, RevokeAt(lib, db, i, revType, arg, now).0.rows);
  }

  lemma RevokeKeepsIndex(lib: Lib, base: seq<Row>, db: Db, cert: Cert, revType: RevType, arg: string, now: string)
    requires db.unique && IndexedSince(base, db)
    ensures var after := Revoke(lib, db, cert, revType, arg, now).0; after.unique && IndexedSince(base, after)
  {
    if Inserts(db, cert) {
      var row := NewRow(RowName(cert).value, cert.serial, cert.notAfter);
      InsertIndexes(base, db, row);
      RevokeAtKeepsIndex(lib, base, Insert(db, row).value, |db.rows|, revType, arg, now);
    } else {
      RevokeCases(lib, db, cert, revType, arg, now);
      if Reaches(db, cert) {
        RevokeAtKeepsIndex(lib, base, db, FindSerial(db.rows, SerialText(cert.serial)).value, revType, arg, now);
      }
    }
  }

  lemma StepKeepsIndex(lib: Lib, base: seq<Row>, m: Ca, a: Action)
    requires m.db.unique && IndexedSince(base, m.db) && !a.Load?
    ensures Step(lib, m, a).db.unique && IndexedSince(base, Step(lib, m, a).db)
  {
    match a {
      case Issue(name, serial, notAfter) =>
        var row := NewRow(name, serial, notAfter);
        if Insert(m.db, row).Some? { InsertIndexes(base, m.db, row); }
      case RevokeCert(cert, revType, arg, now) => RevokeKeepsIndex(lib, base, m.db, cert, revType, arg, now);
      case UpdateDb(now) => ChangeKeepsIndex(base, m.db, Update(lib, m.db, now).rows);
      case Save =>
    }
  }

  lemma {:induction false} RunKeepsIndex(lib: Lib, base: seq<Row>, m: Ca, actions: seq<Action>)
    requires m.db.unique && IndexedSince(base, m.db) && OneProcess(actions)
    ensures Run(lib, m, actions).db.unique && IndexedSince(base, Run(lib, m, actions).db)
    decreases |actions|
  {
    if actions != [] {
      StepKeepsIndex(lib, base, m, actions[0]);
      RunKeepsIndex(lib, base, Step(lib, m, actions[0]), actions[1..]);
    }
  }

  /** In one process, whatever it does after loading the index, a new certificate is
      refused for its name exactly if a row of that name was valid when the index was
      loaded or has been inserted since. */
  lemma {:induction false} NameRefused(
      lib: Lib, text: string, actions: seq<Action>, name: string, serial: int, notAfter: string)
    requires Open(lib, true, text).Some? && OneProcess(actions)
    ensures var base := Open(lib, true, text).value.rows;
            var db := Run(lib, Ca(text, Open(lib, true, text).value), actions).db;
            && (name in db.nameIndex <==> OnceValidName(base, db.rows, name))
            && (Insert(db, NewRow(name, serial, notAfter)).None? <==>
                  FindSerial(db.rows, SerialText(serial)).Some? || OnceValidName(base, db.rows, name))
  {
    var loaded := Open(lib, true, text).value;
    LoadedIsIndexed(loaded.rows);
    RunKeepsIndex(lib, loaded.rows, Ca(text, loaded), actions);
  }

  /** The lookup by name covers the valid rows, and no others, if and only if no row that
      was once valid has been expired or revoked by this process. */
  lemma {:induction false} LookupCoversValidRows(lib: Lib, text: string, actions: seq<Action>)
    requires Open(lib, true, text).Some? && OneProcess(actions)
    ensures var base := Open(lib, true, text).value.rows;
            var db := Run(lib, Ca(text, Open(lib, true, text).value), actions).db;
            (forall name :: name in db.nameIndex <==> ValidName(db.rows, name)) <==>
            (forall i :: 0 <= i < |db.rows| && OnceValid(base, i) ==> db.rows[i].typ == VALID)
  {
    var loaded := Open(lib, true, text).value;
    LoadedIsIndexed(loaded.rows);
    RunKeepsIndex(lib, loaded.rows, Ca(text, loaded), actions);
    CoversExactlyIf(loaded.rows, Run(lib, Ca(text, loaded), actions).db);
  }

  lemma CoversExactlyIf(base: seq<Row>, db: Db)
    requires IndexedSince(base, db)
    ensures (forall name :: name in db.nameIndex <==> ValidName(db.rows, name)) <==>
            (forall i :: 0 <= i < |db.rows| && OnceValid(base, i) ==> db.rows[i].typ == VALID)
  {
    if forall name :: name in db.nameIndex <==> ValidName(db.rows, name) {
      forall i | 0 <= i < |db.rows| && OnceValid(base, i)
        ensures db.rows[i].typ == VALID
      {
        var name := db.rows[i].name;
        assert name in db.nameIndex;
        var k :| 0 <= k < |db.rows| && db.rows[k].typ == VALID && db.rows[k].name == name;
        assert db.nameIndex[name] == k && db.nameIndex[name] == i;
      }
    }
    if forall i :: 0 <= i < |db.rows| && OnceValid(base, i) ==> db.rows[i].typ == VALID {
      forall name | name in db.nameIndex
        ensures ValidName(db.rows, name)
      {
        assert db.rows[db.nameIndex[name]].typ == VALID;
      }
    }
  }

  /** A name that a process has expired or revoked is free again in the next one: when the
      index of any run is saved and loaded, exactly the names of valid rows are refused. */
  lemma NameFreedByReload(lib: Lib, db: Db, name: string, serial: int, notAfter: string)
    requires Inv(db) && db.unique && AllLoadable(lib, db.rows)
    ensures var reloaded := Open(lib, true, SaveText(db.rows));
            && reloaded.Some? && reloaded.value.rows == db.rows
            && (name in reloaded.value.nameIndex <==> ValidName(db.rows, name))
            && (Insert(reloaded.value, NewRow(name, serial, notAfter)).None? <==>
                  FindSerial(db.rows, SerialText(serial)).Some? || ValidName(db.rows, name))
  {
    SavedIsAccepted(lib, db);
    NamesIndexedUnique(db);
    LoadedIsIndexed(db.rows);
    CoversExactlyIf(db.rows, Indexed(true, db.rows));
  }

  /** The case that happens: `ca -updatedb` with requests to certify, or a certificate to
      revoke that is not in the index. A name whose row has just been expired, or revoked,
      by this process is still refused; the next process accepts it. */
  lemma {:induction false} NameFreedOnlyByReload(
      lib: Lib, text: string, actions: seq<Action>, name: string, serial: int, notAfter: string)
    requires !lib.TimeOk("") && Open(lib, true, text).Some? && PlainActions(actions) && OneProcess(actions)
    requires AllHarmless(lib, Ca(text, Open(lib, true, text).value), actions)
    ensures var base := Open(lib, true, text).value.rows;
            var db := Run(lib, Ca(text, Open(lib, true, text).value), actions).db;
            var reloaded := Open(lib, true, SaveText(db.rows));
            && reloaded.Some?
            && (OnceValidName(base, db.rows, name) && !ValidName(db.rows, name)
                && FindSerial(db.rows, SerialText(serial)).None? ==>
                  && Insert(db, NewRow(name, serial, notAfter)).None?
                  && Insert(reloaded.value, NewRow(name, serial, notAfter)).Some?)
  {
    var m := Ca(text, Open(lib, true, text).value);
    NameRefused(lib, text, actions, name, serial, notAfter);
    OpenEstablishesInv(lib, true, text);
    RunLoads(lib, m, actions);
    LoadedIsIndexed(m.db.rows);
    RunKeepsIndex(lib, m.db.rows, m, actions);
    NameFreedByReload(lib, Run(lib, m, actions).db, name, serial, notAfter);
  }

  // ------------------------------------------------------------- examples

  /** A library that knows one UTCTime, one GeneralizedTime and one name. */
  function SmallLib(): Lib {
    Lib(s => s == "U", s => s == "G", s => false, (a, b) => true, n => Some("N"))
  }

  lemma EmptyIndex()
    ensures var db := Db(true, [], map[]); Inv(db) && AllLoadable(SmallLib(), db.rows)
  {
  }

  lemma SmallTexts(now: string)
    requires now == "U" || now == "G"
    ensures PlainTexts(RevNone, "", now)
  {
  }

  /** In 2050 a certificate is revoked: do_revoke succeeds, the saved index is refused. */
  lemma LateRevocationRefused()
    ensures var cert := Cert(Some("N"), 1, "U");
            var (after, ok) := Revoke(SmallLib(), Db(true, [], map[]), cert, RevNone, "", "G");
            ok && Open(SmallLib(), true, SaveText(after.rows)).None?
  {
    var lib, db, cert := SmallLib(), Db(true, [], map[]), Cert(Some("N"), 1, "U");
    EmptyIndex();
    SmallTexts("G");
    RevokeAbsent(lib, db, cert, RevNone, "", "G");
    RevokedIndexLoads(lib, db, cert, RevNone, "", "G");
  }

  /** A certificate whose expiry date is no time. */
  lemma BadDateRefused()
    ensures var cert := Cert(Some("N"), 1, "X");
            var (after, ok) := Revoke(SmallLib(), Db(true, [], map[]), cert, RevNone, "", "U");
            ok && Open(SmallLib(), true, SaveText(after.rows)).None?
  {
    var lib, db, cert := SmallLib(), Db(true, [], map[]), Cert(Some("N"), 1, "X");
    EmptyIndex();
    SmallTexts("U");
    RevokeAbsent(lib, db, cert, RevNone, "", "U");
    RevokedIndexLoads(lib, db, cert, RevNone, "", "U");
  }

  /** An index of one row that `ca` accepts. */
  lemma OneRowAccepted(lib: Lib, row: Row)
    requires RowOk(row) && Loadable(lib, row)
    ensures Inv(Indexed(true, [row])) && AllLoadable(lib, [row])
    ensures Open(lib, true, SaveText([row])) == Some(Indexed(true, [row]))
  {
    IndexNamesOk([row]);
    SavedIsAccepted(lib, Indexed(true, [row]));
  }

  function ValidRow(): Row {
    NewRow("N", 1, "U")
  }

  lemma ValidRowOk()
    ensures RowOk(ValidRow()) && Loadable(SmallLib(), ValidRow())
  {
    NewRowOk("N", 1, "U");
  }

  lemma {:induction false} OneStep(lib: Lib, m: Ca, a: Action)
    ensures Run(lib, m, [a]) == Step(lib, m, a)
    ensures AllHarmless(lib, m, [a]) <==> Harmless(lib, m, a)
    ensures PlainActions([a]) <==> PlainAction(a)
    ensures OneProcess([a]) <==> !a.Load?
  {
    assert [a][1..] == [];
  }

  lemma {:induction false} ExpiredThenRefused(lib: Lib, text: string, row: Row, db: Db)
    requires !lib.TimeOk("") && Open(lib, true, text) == Some(Indexed(true, [row]))
    requires db == Run(lib, Ca(text, Indexed(true, [row])), [UpdateDb("U")]).db
    requires db.rows == [Expire(lib, row, "U")] && row.typ == VALID && db.rows[0].typ == EXPIRED
    requires row.name == "N" && row.serial == SerialText(1)
    ensures Insert(db, NewRow("N", 2, "U")).None?
    ensures var reloaded := Open(lib, true, SaveText(db.rows));
            reloaded.Some? && Insert(reloaded.value, NewRow("N", 2, "U")).Some?
  {
    var m := Ca(text, Indexed(true, [row]));
    OneStep(lib, m, UpdateDb("U"));
    NotYetUsed(db.rows);
    assert OnceValid([row], 0) && db.rows[0].name == "N";
    assert OnceValidName([row], db.rows, "N") && !ValidName(db.rows, "N");
    NameFreedOnlyByReload(lib, text, [UpdateDb("U")], "N", 2, "U");
  }

  lemma {:induction false} NotYetUsed(rows: seq<Row>)
    requires |rows| == 1 && rows[0].serial == SerialText(1)
    ensures FindSerial(rows, SerialText(2)).None?
  {
    SerialTextInjective(1, 2);
    assert FindSerial(rows[..0], SerialText(2)).None?;
  }

  /** `ca -updatedb` with a request: the process expires the row of name N and refuses a new
      certificate for that name, which the next process issues. */
  lemma ExpiredNameRefused()
    ensures var lib, start, text := SmallLib(), Indexed(true, [ValidRow()]), SaveText([ValidRow()]);
            var db := Run(lib, Ca(text, start), [UpdateDb("U")]).db;
            && Open(lib, true, text) == Some(start)
            && Insert(db, NewRow("N", 2, "U")).None?
            && Open(lib, true, SaveText(db.rows)).Some?
            && Insert(Open(lib, true, SaveText(db.rows)).value, NewRow("N", 2, "U")).Some?
  {
    var lib, row, text := SmallLib(), ValidRow(), SaveText([ValidRow()]);
    ValidRowOk();
    OneRowAccepted(lib, row);
    var m := Ca(text, Indexed(true, [row]));
    OneStep(lib, m, UpdateDb("U"));
    ExpiredRow(lib, row);
    ExpiredThenRefused(lib, text, row, Step(lib, m, UpdateDb("U")).db);
  }

  lemma ExpiredRow(lib: Lib, row: Row)
    requires row.typ == VALID && lib.TimeOk(row.exp) && lib.passed(row.exp, "U")
    ensures UpdatedRows(lib, [row], "U") == [Expire(lib, row, "U")] && Expire(lib, row, "U").typ == EXPIRED
  {
    assert StopsAt(lib, [row], 1) == 1;
  }

  /** A revoked row whose serial is written in lower case, as an index edited by hand may
      have it. */
  function LowerCaseRow(): Row {
    Row(REVOKED, "", "U", "U", "ab", "unknown", "N")
  }

  lemma LowerCaseText()
    ensures SerialOk("ab") && !Findable("ab") && SerialNumber("ab") == 171
  {
    SmallHex();
  }

  /** The startup checks accept such a row, but no lookup finds it: a second certificate
      with its number is inserted, and the index with both rows is accepted again. */
  lemma LowerCaseSerialLost()
    ensures StartupOk(SmallLib(), LowerCaseRow())
    ensures forall n :: FindSerial([LowerCaseRow()], SerialText(n)).None?
    ensures var grown := Insert(Indexed(true, [LowerCaseRow()]), NewRow("M", 171, "U"));
            && grown.Some? && !OneRowPerNumber(grown.value.rows)
            && Open(SmallLib(), true, SaveText(grown.value.rows)).Some?
  {
    var lib, row := SmallLib(), LowerCaseRow();
    LowerCaseText();
    assert Cut("U") == Parts("U", None, None);
    OneRowAccepted(lib, row);
    forall n
      ensures FindSerial([row], SerialText(n)).None?
    {
      FoundExactlyIf("ab", n);
      assert FindSerial([row][..0], SerialText(n)).None?;
    }
    SecondRow(lib, row);
  }

  lemma SecondRow(lib: Lib, row: Row)
    requires Inv(Indexed(true, [row])) && AllLoadable(lib, [row]) && lib.TimeOk("U")
    requires row.typ != VALID && SerialOk(row.serial) && SerialNumber(row.serial) == 171
    requires FindSerial([row], SerialText(171)).None?
    ensures var grown := Insert(Indexed(true, [row]), NewRow("M", 171, "U"));
            && grown.Some? && !OneRowPerNumber(grown.value.rows)
            && Open(lib, true, SaveText(grown.value.rows)).Some?
  {
    var db, second := Indexed(true, [row]), NewRow("M", 171, "U");
    assert IndexNames([row]) == map[];
    InsertKeepsInv(lib, db, "M", 171, "U");
    var grown := Insert(db, second).value;
    assert grown.rows == [row, second];
    SavedIsAccepted(lib, grown);
    TwoOfOneNumber(row, second, 171);
  }

  lemma TwoOfOneNumber(a: Row, b: Row, n: int)
    requires SerialOk(a.serial) && SerialNumber(a.serial) == n && b.serial == SerialText(n)
    ensures !OneRowPerNumber([a, b])
  {
    OwnKeysFindable(n);
    var rows := [a, b];
    assert SerialNumber(rows[0].serial) == SerialNumber(rows[1].serial);
  }
}
