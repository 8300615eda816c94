/** The certificate index in memory: its lookups, and the operations of `ca` that
    insert rows and change them in place. */
module CaDatabase {
  import opened Text
  import opened Library
  import opened Revocation
  import opened Serials

  const VALID := 'V'
  const EXPIRED := 'E'
  const REVOKED := 'R'
  /** Stands for the type of a row whose type field is empty. */
  const NO_TYPE := '\0'

  /** A row of the index; an absent revocation field is the empty text. The programs look
      at the first character of the type field only, which is `typ`; `more` is its rest. */
  datatype Row = Row(
    typ: char, more: string, exp: string, rev: string, serial: string, file: string, name: string)

  /** The rows with the name index. The serial index covers all rows by a key that never
      changes; the name index takes in a row if it is valid when it is inserted or
      loaded, and is not touched when the row's type changes later. */
  datatype Db = Db(unique: bool, rows: seq<Row>, nameIndex: map<string, nat>)

  /** A certificate as do_revoke sees it; `name` is its one-line subject, if it has one. */
  datatype Cert = Cert(name: Option<string>, serial: int, notAfter: string)

  // ------------------------------------------------------------- lookups

  /** TXT_DB_get_by_index on the serial number. */
  function FindSerial(rows: seq<Row>, key: string): (r: Option<nat>)
    ensures r.Some? ==> r.value < |rows| && KeyEq(rows[r.value].serial, key)
    ensures r.None? ==> forall i :: 0 <= i < |rows| ==> !KeyEq(rows[i].serial, key)
  {
    if rows == [] then None
    else if KeyEq(rows[|rows| - 1].serial, key) then Some(|rows| - 1)
    else FindSerial(rows[..|rows| - 1], key)
  }

  /** An empty subject is represented by the serial number. */
  function RowName(cert: Cert): Option<string> {
    if cert.name == Some("") then Some(SerialText(cert.serial)) else cert.name
  }

  function NewRow(name: string, serial: int, notAfter: string): Row {
    Row(VALID, "", notAfter, "", SerialText(serial), "unknown", name)
  }

  // ---------------------------------------------- what the operations do

  /** TXT_DB_insert: refused if the serial, or the name of a valid row, is indexed. */
  function Insert(db: Db, row: Row): Option<Db> {
    if FindSerial(db.rows, row.serial).Some? then None
    else if db.unique && row.typ == VALID && row.name in db.nameIndex then None
    else Some(Db(db.unique, db.rows + [row],
                 if db.unique && row.typ == VALID then db.nameIndex[row.name := |db.rows|] else db.nameIndex))
  }

  /** The type is set by writing 'R' and a terminator. In a row that was read from a file the
      fields stand one behind the other, so that behind an empty type field the terminator
      falls on the first character of the expiry date. */
  function DateAfterRevoking(row: Row): string {
    if row.typ == NO_TYPE then "" else row.exp
  }

  function WithRevocation(row: Row, text: string): Row {
    Row(REVOKED, "", DateAfterRevoking(row), text, row.serial, row.file, row.name)
  }

  /** Revoking the row at `i`, whose serial and name have been found to match. */
  function RevokeAt(lib: Lib, db: Db, i: nat, revType: RevType, arg: string, now: string): (Db, bool)
    requires i < |db.rows|
  {
    var row := db.rows[i];
    if revType == RevValid || row.typ == REVOKED then (db, false)
    else
      match RevocationText(lib, revType, arg, now)
      case None => (db, false)
      case Some(text) =>
        (Db(db.unique, db.rows[i := WithRevocation(row, text)], db.nameIndex), true)
  }

  /** The effect of do_revoke and whether it succeeds. */
  function Revoke(lib: Lib, db: Db, cert: Cert, revType: RevType, arg: string, now: string): (Db, bool) {
    match RowName(cert)
    case None => (db, false)
    case Some(name) =>
      match FindSerial(db.rows, SerialText(cert.serial))
      case Some(i) =>
        if db.rows[i].name != name then (db, false) else RevokeAt(lib, db, i, revType, arg, now)
      case None =>
        match Insert(db, NewRow(name, cert.serial, cert.notAfter))
        case None => (db, false)
        case Some(grown) =>
          if revType == RevValid then (grown, true)
          else RevokeAt(lib, grown, |db.rows|, revType, arg, now)
  }

  predicate Expires(lib: Lib, row: Row, now: string) {
    row.typ == VALID && lib.passed(row.exp, now)
  }

  function Expire(lib: Lib, row: Row, now: string): Row {
    if Expires(lib, row, now) then Row(EXPIRED, "", row.exp, row.rev, row.serial, row.file, row.name) else row
  }

  /** do_updatedb stops at the first valid row whose expiry date does not parse. */
  function StopsAt(lib: Lib, rows: seq<Row>, i: nat): (n: nat)
    requires i <= |rows|
    ensures i <= n <= |rows|
    decreases |rows| - i
  {
    if i == |rows| || (rows[i].typ == VALID && !lib.TimeOk(rows[i].exp)) then i
    else StopsAt(lib, rows, i + 1)
  }

  function UpdatedRows(lib: Lib, rows: seq<Row>, now: string): (r: seq<Row>)
    ensures |r| == |rows|
  {
    var stop := StopsAt(lib, rows, 0);
    seq(|rows|, i requires 0 <= i < |rows| => if i < stop then Expire(lib, rows[i], now) else rows[i])
  }

  function CountExpiring(lib: Lib, rows: seq<Row>, now: string): nat {
    if rows == [] then 0
    else CountExpiring(lib, rows[..|rows| - 1], now) + (if Expires(lib, rows[|rows| - 1], now) then 1 else 0)
  }

  /** do_updatedb has marked and counted the rows before `i`. */
  predicate UpdatedTo(lib: Lib, was: seq<Row>, now: string, i: nat, rows: seq<Row>, cnt: int) {
    && i <= |was| && StopsAt(lib, was, 0) == StopsAt(lib, was, i)
    && rows == UpdatedRows(lib, was, now)[..i] + was[i..]
    && cnt == CountExpiring(lib, was[..i], now)
  }

  lemma NoneUpdated(lib: Lib, was: seq<Row>, now: string)
    ensures UpdatedTo(lib, was, now, 0, was, 0)
  {
    assert UpdatedRows(lib, was, now)[..0] + was[0..] == was;
    assert was[..0] == [];
  }

  lemma Spliced(target: seq<Row>, was: seq<Row>, i: nat)
    requires |target| == |was| && i < |was|
    ensures (target[..i] + was[i..])[i] == was[i]
    ensures (target[..i] + was[i..])[i := target[i]] == target[..i + 1] + was[i + 1..]
  {
  }

  lemma {:induction false} OneMoreUpdated(lib: Lib, was: seq<Row>, now: string, i: nat, rows: seq<Row>, cnt: int)
    requires i < |rows| && UpdatedTo(lib, was, now, i, rows, cnt)
    requires rows[i].typ == VALID ==> lib.TimeOk(rows[i].exp)
    ensures UpdatedTo(lib, was, now, i + 1, rows[i := Expire(lib, rows[i], now)],
                      if Expires(lib, rows[i], now) then cnt + 1 else cnt)
  {
    var target := UpdatedRows(lib, was, now);
    Spliced(target, was, i);
    assert StopsAt(lib, was, i) == StopsAt(lib, was, i + 1);
    assert target[i] == Expire(lib, was[i], now);
    assert was[..i + 1][..i] == was[..i];
  }

  lemma {:induction false} UpdateEnds(lib: Lib, was: seq<Row>, now: string, i: nat, rows: seq<Row>, cnt: int)
    requires UpdatedTo(lib, was, now, i, rows, cnt)
    requires i < |rows| ==> rows[i].typ == VALID && !lib.TimeOk(rows[i].exp)
    ensures |rows| == |was| && i == StopsAt(lib, was, 0) && rows == UpdatedRows(lib, was, now)
    ensures i == |was| ==> cnt == CountExpiring(lib, was, now)
  {
    var target := UpdatedRows(lib, was, now);
    if i < |rows| { Spliced(target, was, i); }
    assert i == StopsAt(lib, was, 0);
    assert target == target[..i] + was[i..];
    assert was[..|was|] == was;
  }

  function Update(lib: Lib, db: Db, now: string): Db {
    Db(db.unique, UpdatedRows(lib, db.rows, now), db.nameIndex)
  }

  // ------------------------------------------------ what they come to

  lemma {:induction false} StopsAfter(lib: Lib, rows: seq<Row>, i: nat, j: nat)
    requires i <= j < |rows|
    ensures j < StopsAt(lib, rows, i) <==>
            forall k :: i <= k <= j && rows[k].typ == 'V' ==> lib.utcOk(rows[k].exp) || lib.genOk(rows[k].exp)
    decreases j - i
  {
    if i < j && !(rows[i].typ == 'V' && !lib.TimeOk(rows[i].exp)) { StopsAfter(lib, rows, i + 1, j); }
  }

  /** do_updatedb changes a row exactly if it is of type V, its date has passed, and all
      dates of such rows up to there parse; it changes it to an E. */
  lemma {:induction false} ExpiredExactlyIf(lib: Lib, rows: seq<Row>, now: string, i: nat)
    requires i < |rows|
    ensures var after := UpdatedRows(lib, rows, now)[i];
            && (after != rows[i] <==>
                  && rows[i].typ == 'V' && lib.passed(rows[i].exp, now)
                  && forall k :: 0 <= k <= i && rows[k].typ == 'V' ==>
                       lib.utcOk(rows[k].exp) || lib.genOk(rows[k].exp))
            && (after != rows[i] ==> after == rows[i].(typ := 'E', more := ""))
  {
    StopsAfter(lib, rows, 0, i);
  }

  /** The rows whose dates have passed. */
  function Passed(lib: Lib, rows: seq<Row>, now: string): set<nat> {
    set i: nat | i < |rows| && rows[i].typ == 'V' && lib.passed(rows[i].exp, now)
  }

  lemma {:induction false} CountIsPassed(lib: Lib, rows: seq<Row>, now: string)
    ensures CountExpiring(lib, rows, now) == |Passed(lib, rows, now)|
  {
    if rows == [] {
      assert Passed(lib, rows, now) == {};
    } else {
      var n: nat := |rows| - 1;
      var front := Passed(lib, rows[..n], now);
      CountIsPassed(lib, rows[..n], now);
      assert n !in front;
      assert Passed(lib, rows, now) ==
             front + if rows[n].typ == 'V' && lib.passed(rows[n].exp, now) then {n} else {};
    }
  }

  /** The result of do_updatedb: -1 exactly if the date of a row of type V does not parse,
      and otherwise the number of rows that are changed. */
  lemma {:induction false} CountIsChanged(lib: Lib, rows: seq<Row>, now: string)
    ensures StopsAt(lib, rows, 0) < |rows| <==>
            exists k :: 0 <= k < |rows| && rows[k].typ == 'V' && !lib.utcOk(rows[k].exp) && !lib.genOk(rows[k].exp)
    ensures StopsAt(lib, rows, 0) == |rows| ==>
              CountExpiring(lib, rows, now) ==
              |set i: nat | i < |rows| && UpdatedRows(lib, rows, now)[i] != rows[i]|
  {
    if rows != [] { StopsAfter(lib, rows, 0, |rows| - 1); }
    if StopsAt(lib, rows, 0) == |rows| {
      var changed := set i: nat | i < |rows| && UpdatedRows(lib, rows, now)[i] != rows[i];
      forall i: nat | i < |rows|
        ensures i in changed <==> i in Passed(lib, rows, now)
      {
        ExpiredExactlyIf(lib, rows, now, i);
      }
      assert changed == Passed(lib, rows, now);
      CountIsPassed(lib, rows, now);
    }
  }

  // -------------------------------------------------- the startup checks

  /** What ca_main demands of every row it loads. */
  predicate StartupOk(lib: Lib, row: Row) {
    && (row.typ != REVOKED ==> row.rev == "")
    && (row.typ == REVOKED ==> Unpack(lib, row.rev).ok)
    && lib.TimeOk(row.exp)
    && SerialOk(row.serial)
  }

  /** The field checks at the start of ca_main. */
  method StartupChecks(lib: Lib, rows: seq<Row>) returns (ok: bool)
    requires forall i :: 0 <= i < |rows| ==> '\0' !in rows[i].rev
    ensures ok <==> forall i :: 0 <= i < |rows| ==> StartupOk(lib, rows[i])
  {
    for i := 0 to |rows|
      invariant forall k :: 0 <= k < i ==> StartupOk(lib, rows[k])
    {
      var row := rows[i];
      if row.typ != REVOKED && row.rev != "" {
        return false;
      }
      if row.typ == REVOKED {
        var info := UnpackRevinfo(lib, row.rev);
        if !info.ok { return false; }
      }
      if !lib.TimeOk(row.exp) {
        return false;
      }
      var serialOk := SerialFieldCheck(row.serial);
      if !serialOk { return false; }
    }
    ok := true;
  }

  method SerialFieldCheck(serial: string) returns (ok: bool)
    ensures ok <==> SerialOk(serial)
  {
    var p := 0;
    var len := |serial|;
    if serial != [] && serial[0] == '-' {
      p, len := p + 1, len - 1;
    }
    ghost var digits := serial[p..];
    assert serial[0..] == serial;
    if len % 2 == 1 || len < 2 {
      return false;
    }
    ghost var start := p;
    while p < |serial|
      invariant start <= p <= |serial|
      invariant forall k :: 0 <= k < p - start ==> IsHex(digits[k])
    {
      if !IsHex(serial[p]) {
        assert digits[p - start] == serial[p];
        return false;
      }
      p := p + 1;
    }
    ok := true;
  }

  // -------------------------------------------------- the database object

  class CaDb {
    const unique: bool
    var rows: seq<Row>
    var nameIndex: map<string, nat>

    ghost function State(): Db
      reads this
    {
      Db(unique, rows, nameIndex)
    }

    constructor (db: Db)
      ensures State() == db
    {
      unique, rows, nameIndex := db.unique, db.rows, db.nameIndex;
    }

    /** TXT_DB_insert: all clash checks first, then all index entries, then the row. */
    method TxtDbInsert(row: Row) returns (ok: bool)
      modifies this
      ensures ok <==> Insert(old(State()), row).Some?
      ensures State() == if ok then Insert(old(State()), row).value else old(State())
    {
      var clash := FindSerial(rows, row.serial);
      if clash.Some? {
        return false;
      }
      var qualifies := unique && row.typ == VALID;
      if qualifies && row.name in nameIndex {
        return false;
      }
      if qualifies {
        nameIndex := nameIndex[row.name := |rows|];
      }
      rows := rows + [row];
      ok := true;
    }

    /** do_revoke: an absent serial is inserted as a valid row and the call repeated. */
    method DoRevoke(lib: Lib, cert: Cert, revType: RevType, arg: string, now: string) returns (ok: bool)
      modifies this
      ensures (State(), ok) == Revoke(lib, old(State()), cert, revType, arg, now)
      decreases FindSerial(rows, SerialText(cert.serial)).None?
    {
      if cert.name.None? {
        return false;
      }
      var key := SerialText(cert.serial);
      var name := cert.name.value;
      if name == [] {
        name := key;
      }
      var found := FindSerial(rows, key);
      if found.None? {
        ghost var before := State();
        ok := TxtDbInsert(NewRow(name, cert.serial, cert.notAfter));
        if ok && revType != RevValid {
          InsertedIsFound(before, NewRow(name, cert.serial, cert.notAfter));
          ok := DoRevoke(lib, cert, revType, arg, now);
        }
        return;
      }
      var i := found.value;
      if rows[i].name != name {
        return false;
      } else if revType == RevValid {
        return false;
      } else if rows[i].typ == REVOKED {
        return false;
      }
      var text := MakeRevocationStr(lib, revType, arg, now);
      if text.None? {
        return false;
      }
      rows := rows[i := rows[i].(typ := REVOKED, more := "", exp := DateAfterRevoking(rows[i]), rev := text.value)];
      ok := true;
    }

    /** do_updatedb: the number of rows marked expired, or -1. */
    method DoUpdatedb(lib: Lib, now: string) returns (cnt: int)
      modifies this`rows
      ensures State() == Update(lib, old(State()), now)
      ensures cnt == if StopsAt(lib, old(rows), 0) < |old(rows)| then -1 else CountExpiring(lib, old(rows), now)
    {
      cnt := 0;
      ghost var was := rows;
      NoneUpdated(lib, was, now);
      var i := 0;
      while i < |rows|
        invariant 0 <= i <= |rows| && UpdatedTo(lib, was, now, i, rows, cnt)
      {
        if rows[i].typ == VALID && !lib.TimeOk(rows[i].exp) {
          UpdateEnds(lib, was, now, i, rows, cnt);
          return -1;
        }
        OneMoreUpdated(lib, was, now, i, rows, cnt);
        if rows[i].typ == VALID && lib.passed(rows[i].exp, now) {
          rows := rows[i := rows[i].(typ := EXPIRED, more := "")];
          cnt := cnt + 1;
        }
        i := i + 1;
      }
      UpdateEnds(lib, was, now, i, rows, cnt);
    }

    /** get_certificate_status: 1 for a row whose type is one of V, R, E and S, else -1. */
    method GetCertificateStatus(serial: string) returns (ok: int, typ: Option<char>)
      requires '\0' !in serial
      ensures var found := FindSerial(rows, Normalised(serial));
              && typ == (if found.None? then None else Some(rows[found.value].typ))
              && ok == if typ.Some? && typ.value in {VALID, REVOKED, EXPIRED, 'S'} then 1 else -1
    {
      var key := NormaliseSerial(serial);
      var found := FindSerial(rows, key);
      if found.None? {
        return -1, None;
      }
      typ := Some(rows[found.value].typ);
      ok := if typ.value == VALID || typ.value == REVOKED || typ.value == EXPIRED || typ.value == 'S' then 1 else -1;
    }
  }

  lemma InsertedIsFound(db: Db, row: Row)
    requires Insert(db, row).Some?
    ensures FindSerial(Insert(db, row).value.rows, row.serial) == Some(|db.rows|)
  {
    var rows := Insert(db, row).value.rows;
    assert rows[|rows| - 1] == row;
  }
}
