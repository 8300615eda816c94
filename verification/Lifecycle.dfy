/** The index over whole runs of `ca`: every sequence of loading, issuing, revoking,
    expiring and saving keeps serials unique and revocation final, and exactly which
    operations keep the file acceptable. */
module Lifecycle {
  import opened Text
  import opened Library
  import opened Revocation
  import opened Serials
  import opened CaDatabase
  import opened TxtDb

  // ------------------------------------------------- rows and file lines

  function TypeText(row: Row): string {
    if row.typ == NO_TYPE then "" else [row.typ] + row.more
  }

  function FieldsOf(row: Row): Fields {
    [TypeText(row), row.exp, row.rev, row.serial, row.file, row.name]
  }

  /** A text holds no NUL, so that an empty type field can be told from all others. */
  function RowOf(f: Fields): Option<Row> {
    if |f| != DB_NUMBER then None
    else if f[0] == [] then Some(Row(NO_TYPE, "", f[1], f[2], f[3], f[4], f[5]))
    else if f[0][0] == NO_TYPE then None
    else Some(Row(f[0][0], f[0][1..], f[1], f[2], f[3], f[4], f[5]))
  }

  function AllFields(rows: seq<Row>): (r: seq<Fields>)
    ensures |r| == |rows|
  {
    if rows == [] then [] else [FieldsOf(rows[0])] + AllFields(rows[1..])
  }

  function AllRows(fields: seq<Fields>): (r: Option<seq<Row>>)
    ensures r.Some? ==> |r.value| == |fields|
  {
    if fields == [] then Some([])
    else
      var rest := AllRows(fields[1..]);
      if RowOf(fields[0]).None? || rest.None? then None
      else Some([RowOf(fields[0]).value] + rest.value)
  }

  // ------------------------------------------------------------ loading

  predicate SerialsUnique(rows: seq<Row>) {
    forall i, j :: 0 <= i < j < |rows| ==> !KeyEq(rows[i].serial, rows[j].serial)
  }

  /** No two valid rows share a name. */
  predicate ValidNamesUnique(rows: seq<Row>) {
    forall i, j :: 0 <= i < j < |rows| && rows[i].typ == VALID && rows[j].typ == VALID ==> rows[i].name != rows[j].name
  }

  predicate AllStartupOk(lib: Lib, rows: seq<Row>) {
    forall i :: 0 <= i < |rows| ==> StartupOk(lib, rows[i])
  }

  function IndexNames(rows: seq<Row>): map<string, nat> {
    if rows == [] then map[]
    else
      var n := |rows| - 1;
      if rows[n].typ == VALID then IndexNames(rows[..n])[rows[n].name := n] else IndexNames(rows[..n])
  }

  function Indexed(unique: bool, rows: seq<Row>): Db {
    Db(unique, rows, if unique then IndexNames(rows) else map[])
  }

  /** load_index, and index_index as far as the serial numbers go. */
  function ReadIndex(text: string): Option<seq<Row>> {
    match Read(text)
    case None => None
    case Some(fields) =>
      match AllRows(fields)
      case None => None
      case Some(rows) => if SerialsUnique(rows) then Some(rows) else None
  }

  /** load_index and index_index: all that the OCSP responder demands of an index. */
  function OpenIndex(unique: bool, text: string): Option<Db> {
    match ReadIndex(text)
    case None => None
    case Some(rows) => if unique ==> ValidNamesUnique(rows) then Some(Indexed(unique, rows)) else None
  }

  /** `ca` makes its startup checks as well. */
  function Open(lib: Lib, unique: bool, text: string): Option<Db> {
    match OpenIndex(unique, text)
    case None => None
    case Some(db) => if AllStartupOk(lib, db.rows) then Some(db) else None
  }

  /** save_index followed by rotate_index */
  function SaveText(rows: seq<Row>): string {
    Write(AllFields(rows))
  }

  // ---------------------------------------------------------- invariants

  predicate Clean(s: string) {
    '\n' !in s && !EndsInBackslash(s)
  }

  /** What every row in memory satisfies, whatever certificates are issued or revoked. */
  predicate RowOk(row: Row) {
    && SerialOk(row.serial) && (row.typ == NO_TYPE ==> row.more == "")
    && (row.rev != "" <==> row.typ == REVOKED)
    && row.typ != '#' && Clean(TypeText(row))
    && Clean(row.rev) && Clean(row.file) && '\n' !in row.name
  }

  predicate AllRowsOk(rows: seq<Row>) {
    forall i :: 0 <= i < |rows| ==> RowOk(rows[i])
  }

  /** The part of the startup checks that such a row may fail. */
  predicate Loadable(lib: Lib, row: Row) {
    && lib.TimeOk(row.exp) && Clean(row.exp)
    && (row.typ == REVOKED ==> Unpack(lib, row.rev).ok)
  }

  predicate AllLoadable(lib: Lib, rows: seq<Row>) {
    forall i :: 0 <= i < |rows| ==> Loadable(lib, rows[i])
  }

  predicate AllReadable(rows: seq<Row>) {
    forall i :: 0 <= i < |rows| ==> Clean(rows[i].exp)
  }

  /** Every valid row is in the name index, and every index entry leads to a row of that
      name, valid or not. */
  predicate NamesIndexed(db: Db) {
    && (forall i :: 0 <= i < |db.rows| && db.rows[i].typ == VALID ==>
          db.rows[i].name in db.nameIndex && db.nameIndex[db.rows[i].name] == i)
    && (forall n :: n in db.nameIndex ==> db.nameIndex[n] < |db.rows| && db.rows[db.nameIndex[n]].name == n)
  }

  predicate Inv(db: Db) {
    AllRowsOk(db.rows) && SerialsUnique(db.rows) && (db.unique ==> NamesIndexed(db))
  }

  /** What may become of one row: nothing, expiry of a valid row, or revocation of a row
      that was not revoked. The other fields never change, except that revoking a row with
      an empty type field erases its expiry date. */
  predicate RowStep(a: Row, b: Row) {
    && a.serial == b.serial && a.file == b.file && a.name == b.name
    && (|| (a.typ == b.typ && a.more == b.more && a.exp == b.exp && a.rev == b.rev)
        || (a.typ == VALID && b.typ == EXPIRED && a.exp == b.exp && a.rev == b.rev)
        || (a.typ != REVOKED && b.typ == REVOKED && b.exp == DateAfterRevoking(a)))
  }

  predicate FindableRow(row: Row) {
    SerialOk(row.serial) && Findable(row.serial)
  }

  /** Rows are only added at the end, under serials that lookups can find, and old rows only
      take the steps above. */
  predicate Evolves(a: seq<Row>, b: seq<Row>) {
    && |a| <= |b| && (forall i :: 0 <= i < |a| ==> RowStep(a[i], b[i]))
    && forall i :: |a| <= i < |b| ==> FindableRow(b[i])
  }

  lemma EvolvesItself(rows: seq<Row>)
    ensures Evolves(rows, rows)
  {
  }

  lemma EvolvesTransitive(a: seq<Row>, b: seq<Row>, c: seq<Row>)
    requires Evolves(a, b) && Evolves(b, c)
    ensures Evolves(a, c)
  {
    forall i | 0 <= i < |a|
      ensures RowStep(a[i], c[i])
    {
      assert RowStep(a[i], b[i]) && RowStep(b[i], c[i]);
    }
    forall i | |a| <= i < |c|
      ensures FindableRow(c[i])
    {
      if i < |b| { assert FindableRow(b[i]) && RowStep(b[i], c[i]); }
    }
  }

  // ------------------------------------------------------- serial numbers

  predicate AllFindable(rows: seq<Row>) {
    forall i :: 0 <= i < |rows| ==> FindableRow(rows[i])
  }

  /** No two rows stand for the same serial number. */
  predicate OneRowPerNumber(rows: seq<Row>) {
    forall i, j :: 0 <= i < j < |rows| && SerialOk(rows[i].serial) && SerialOk(rows[j].serial) ==>
      SerialNumber(rows[i].serial) != SerialNumber(rows[j].serial)
  }

  /** Some row that lookups can find stands for the number. */
  predicate HasNumber(rows: seq<Row>, n: int) {
    exists i :: 0 <= i < |rows| && FindableRow(rows[i]) && SerialNumber(rows[i].serial) == n
  }

  predicate AllSerialsOk(rows: seq<Row>) {
    forall i :: 0 <= i < |rows| ==> SerialOk(rows[i].serial)
  }

  /** A number is known to the index exactly if a findable row stands for it. */
  lemma {:induction false} NumberFoundExactlyIf(rows: seq<Row>, n: int)
    requires AllSerialsOk(rows)
    ensures FindSerial(rows, SerialText(n)).Some? <==> HasNumber(rows, n)
  {
    var found := FindSerial(rows, SerialText(n));
    if found.Some? {
      FoundExactlyIf(rows[found.value].serial, n);
      assert FindableRow(rows[found.value]);
    }
    if HasNumber(rows, n) {
      var i :| 0 <= i < |rows| && FindableRow(rows[i]) && SerialNumber(rows[i].serial) == n;
      FoundExactlyIf(rows[i].serial, n);
    }
  }

  /** Serials that are unique as keys are unique as numbers if every row can be found. */
  lemma UniqueByNumber(rows: seq<Row>)
    requires SerialsUnique(rows) && AllFindable(rows)
    ensures OneRowPerNumber(rows)
  {
    forall i, j | 0 <= i < j < |rows|
      ensures SerialNumber(rows[i].serial) != SerialNumber(rows[j].serial)
    {
      assert FindableRow(rows[i]) && FindableRow(rows[j]);
      FoundExactlyIf(rows[i].serial, SerialNumber(rows[i].serial));
      FoundExactlyIf(rows[j].serial, SerialNumber(rows[i].serial));
    }
  }

  lemma EvolvesFindable(a: seq<Row>, b: seq<Row>)
    requires Evolves(a, b) && AllFindable(a)
    ensures AllFindable(b)
  {
    forall i | 0 <= i < |b|
      ensures FindableRow(b[i])
    {
      if i < |a| { assert FindableRow(a[i]) && RowStep(a[i], b[i]); }
    }
  }

  // ------------------------------------------------- the file, column by column

  lemma {:induction false} NothingEscaped(s: string)
    requires '\t' !in s
    ensures EscapeTabs(s) == s
  {
    if s != [] {
      NothingEscaped(s[1..]);
      assert s == [s[0]] + s[1..];
    }
  }

  predicate NoTab(row: Row) {
    && row.typ != '\t' && '\t' !in row.more && '\t' !in row.exp && '\t' !in row.rev
    && '\t' !in row.serial && '\t' !in row.file && '\t' !in row.name
  }

  lemma SixOnLine(a: string, b: string, c: string, d: string, e: string, f: string)
    requires '\t' !in a && '\t' !in b && '\t' !in c && '\t' !in d && '\t' !in e && '\t' !in f
    ensures Line([a, b, c, d, e, f]) == a + "\t" + (b + "\t" + (c + "\t" + (d + "\t" + (e + "\t" + f))))
  {
    NothingEscaped(f);
    FieldFirst(e, [f], [e, f]);
    FieldFirst(d, [e, f], [d, e, f]);
    FieldFirst(c, [d, e, f], [c, d, e, f]);
    FieldFirst(b, [c, d, e, f], [b, c, d, e, f]);
    FieldFirst(a, [b, c, d, e, f], [a, b, c, d, e, f]);
  }

  lemma {:induction false} FieldFirst(field: string, rest: Fields, all: Fields)
    requires '\t' !in field && rest != [] && all == [field] + rest
    ensures Line(all) == field + "\t" + Line(rest)
  {
    NothingEscaped(field);
    assert all[1..] == rest;
  }

  /** A row on file: type, expiry date, revocation field, serial, file name and name, with
      tabs between them and a newline behind. */
  lemma SavedLine(row: Row)
    requires NoTab(row) && row.typ as int != 0
    ensures SaveText([row]) ==
            [row.typ] + row.more + "\t" + (row.exp + "\t" + (row.rev + "\t" + (row.serial + "\t" +
            (row.file + "\t" + row.name)))) + "\n"
  {
    var typ := TypeText(row);
    SixOnLine(typ, row.exp, row.rev, row.serial, row.file, row.name);
    assert AllFields([row]) == [FieldsOf(row)];
    WrittenIs([], [], FieldsOf(row));
    assert "\n" == [10 as char] && typ == [row.typ] + row.more;
    assert SaveText([row]) == Write([FieldsOf(row)]);
    assert Write([FieldsOf(row)]) == Line(FieldsOf(row)) + "\n";
  }

  lemma {:induction false} AllFieldsAppend(a: seq<Row>, b: seq<Row>)
    ensures AllFields(a + b) == AllFields(a) + AllFields(b)
  {
    if a == [] {
      assert a + b == b;
    } else {
      assert (a + b)[1..] == a[1..] + b;
      AllFieldsAppend(a[1..], b);
    }
  }

  /** Row after row. */
  lemma SavedRowAfterRow(a: seq<Row>, b: seq<Row>)
    ensures SaveText([]) == "" && SaveText(a + b) == SaveText(a) + SaveText(b)
  {
    AllFieldsAppend(a, b);
    WrittenIs(AllFields(a), AllFields(b), []);
  }

  /** What `ca` demands of a line: six fields; the revocation field readable for type R and
      empty for any other; an expiry date; a serial. */
  predicate LineAccepted(lib: Lib, f: Fields) {
    && |f| == 6 && (|f[0]| > 0 ==> f[0][0] != '\0')
    && (if |f[0]| > 0 && f[0][0] == 'R' then Unpack(lib, f[2]).ok else f[2] == "")
    && (lib.utcOk(f[1]) || lib.genOk(f[1]))
    && SerialOk(f[3])
  }

  /** The row that a line stands for. */
  predicate StandsFor(row: Row, f: Fields) {
    && |f| == 6
    && row.typ == (if |f[0]| > 0 then f[0][0] else '\0') && row.more == (if |f[0]| > 0 then f[0][1..] else "")
    && row.exp == f[1] && row.rev == f[2] && row.serial == f[3] && row.file == f[4] && row.name == f[5]
  }

  lemma LineIsRow(lib: Lib, f: Fields)
    ensures RowOf(f).Some? ==> StandsFor(RowOf(f).value, f)
    ensures LineAccepted(lib, f) <==> RowOf(f).Some? && StartupOk(lib, RowOf(f).value)
  {
  }

  lemma {:induction false} RowsOfLines(fields: seq<Fields>)
    ensures AllRows(fields).Some? <==> forall i :: 0 <= i < |fields| ==> RowOf(fields[i]).Some?
    ensures AllRows(fields).Some? ==>
              forall i :: 0 <= i < |fields| ==> RowOf(fields[i]) == Some(AllRows(fields).value[i])
  {
    if fields != [] {
      var rest := fields[1..];
      RowsOfLines(rest);
      assert forall i :: 0 <= i < |rest| ==> rest[i] == fields[i + 1];
      assert forall i :: 0 < i < |fields| ==> fields[i] == rest[i - 1];
    }
  }

  predicate TypeIsV(f: Fields) {
    |f| == 6 && |f[0]| > 0 && f[0][0] == 'V'
  }

  /** No two lines have the same serial, and if names are to be unique, no two of type V the
      same name. */
  predicate LinesDistinct(unique: bool, fields: seq<Fields>) {
    forall i, j :: 0 <= i < j < |fields| ==>
      && (|fields[i]| == 6 && |fields[j]| == 6 ==> !KeyEq(fields[i][3], fields[j][3]))
      && (unique && TypeIsV(fields[i]) && TypeIsV(fields[j]) ==> fields[i][5] != fields[j][5])
  }

  lemma {:induction false} DistinctIs(unique: bool, fields: seq<Fields>, rows: seq<Row>)
    requires |rows| == |fields| && forall i :: 0 <= i < |fields| ==> StandsFor(rows[i], fields[i])
    ensures LinesDistinct(unique, fields) <==> SerialsUnique(rows) && (unique ==> ValidNamesUnique(rows))
  {
    forall i, j | 0 <= i < j < |rows|
      ensures KeyEq(rows[i].serial, rows[j].serial) <==> KeyEq(fields[i][3], fields[j][3])
      ensures rows[i].typ == VALID && rows[j].typ == VALID <==> TypeIsV(fields[i]) && TypeIsV(fields[j])
    {
      assert StandsFor(rows[i], fields[i]) && StandsFor(rows[j], fields[j]);
    }
  }

  /** `ca` loads a file exactly if its lines can be taken apart, each is accepted and they
      are distinct; the rows are those of the lines, in order. */
  lemma {:induction false} OpenedExactlyIf(lib: Lib, unique: bool, text: string)
    ensures Open(lib, unique, text).Some? <==>
            && Read(text).Some?
            && (forall i :: 0 <= i < |Read(text).value| ==> LineAccepted(lib, Read(text).value[i]))
            && LinesDistinct(unique, Read(text).value)
    ensures Open(lib, unique, text).Some? ==>
              var fields, rows := Read(text).value, Open(lib, unique, text).value.rows;
              && |rows| == |fields| && (forall i :: 0 <= i < |rows| ==> StandsFor(rows[i], fields[i]))
              && Open(lib, unique, text).value.unique == unique
  {
    if Read(text).Some? {
      var fields := Read(text).value;
      LinesAreRows(lib, fields);
      if AllRows(fields).Some? {
        OpenIs(lib, unique, text, fields, AllRows(fields).value);
        DistinctIs(unique, fields, AllRows(fields).value);
      }
    }
  }

  lemma {:induction false} LinesAreRows(lib: Lib, fields: seq<Fields>)
    ensures (forall i :: 0 <= i < |fields| ==> LineAccepted(lib, fields[i])) <==>
            AllRows(fields).Some? && AllStartupOk(lib, AllRows(fields).value)
    ensures AllRows(fields).Some? ==> forall i :: 0 <= i < |fields| ==> StandsFor(AllRows(fields).value[i], fields[i])
  {
    RowsOfLines(fields);
    forall i | 0 <= i < |fields|
      ensures RowOf(fields[i]).Some? ==> StandsFor(RowOf(fields[i]).value, fields[i])
      ensures LineAccepted(lib, fields[i]) <==> RowOf(fields[i]).Some? && StartupOk(lib, RowOf(fields[i]).value)
    {
      LineIsRow(lib, fields[i]);
    }
  }

  lemma {:induction false} OpenIs(lib: Lib, unique: bool, text: string, fields: seq<Fields>, rows: seq<Row>)
    requires Read(text) == Some(fields) && AllRows(fields) == Some(rows)
    ensures Open(lib, unique, text) ==
            if AllStartupOk(lib, rows) && SerialsUnique(rows) && (unique ==> ValidNamesUnique(rows))
            then Some(Indexed(unique, rows)) else None
  {
  }

  // ------------------------------------------------------ save and load

  lemma RowBack(row: Row)
    requires row.typ == NO_TYPE ==> row.more == ""
    ensures RowOf(FieldsOf(row)) == Some(row)
  {
    var text := TypeText(row);
    if row.typ != NO_TYPE {
      assert text[0] == row.typ && text[1..] == row.more;
    }
  }

  lemma {:induction false} RowsBack(rows: seq<Row>)
    requires forall i :: 0 <= i < |rows| ==> rows[i].typ == NO_TYPE ==> rows[i].more == ""
    ensures AllRows(AllFields(rows)) == Some(rows)
  {
    if rows != [] {
      RowsBack(rows[1..]);
      RowBack(rows[0]);
      assert AllFields(rows)[1..] == AllFields(rows[1..]);
      assert [rows[0]] + rows[1..] == rows;
    }
  }

  lemma SerialIsClean(s: string)
    requires SerialOk(s)
    ensures Clean(s)
  {
    if s[0] == '-' {
      var d := s[1..];
      assert s[|s| - 1] == d[|d| - 1];
      assert forall k :: 1 <= k < |s| ==> s[k] == d[k - 1];
    }
  }

  /** Separable, field by field. */
  lemma {:induction false} SixFields(f: Fields)
    requires |f| == DB_NUMBER
    ensures Separable(f) <==> forall j :: 0 <= j < 5 ==> !EndsInBackslash(f[j])
  {
    assert f[1..][1..] == f[2..] && f[2..][1..] == f[3..] && f[3..][1..] == f[4..] && f[4..][1..] == f[5..];
    assert Separable(f[5..]);
    assert Separable(f[4..]) <==> !EndsInBackslash(f[4]);
    assert Separable(f[3..]) <==> !EndsInBackslash(f[3]) && Separable(f[4..]);
    assert Separable(f[2..]) <==> !EndsInBackslash(f[2]) && Separable(f[3..]);
    assert Separable(f[1..]) <==> !EndsInBackslash(f[1]) && Separable(f[2..]);
    assert Separable(f) <==> !EndsInBackslash(f[0]) && Separable(f[1..]);
  }

  lemma RowOnLine(row: Row)
    requires RowOk(row)
    ensures RowLike(FieldsOf(row))
    ensures OneLine(FieldsOf(row)) && Separable(FieldsOf(row)) <==> Clean(row.exp)
  {
    var f := FieldsOf(row);
    SerialIsClean(row.serial);
    SixFields(f);
    assert f[1] == row.exp;
  }

  lemma {:induction false} RowsOnLines(rows: seq<Row>)
    requires AllRowsOk(rows)
    ensures AllRowLike(AllFields(rows))
    ensures AllOneLine(AllFields(rows)) && AllSeparable(AllFields(rows)) <==> AllReadable(rows)
  {
    if rows != [] {
      var rest := rows[1..];
      assert AllRowsOk(rest) by { assert forall i :: 0 <= i < |rest| ==> rest[i] == rows[i + 1]; }
      RowsOnLines(rest);
      RowOnLine(rows[0]);
      assert AllFields(rows)[1..] == AllFields(rest);
      FirstAndRest(rows);
    }
  }

  lemma FirstAndRest(rows: seq<Row>)
    requires rows != []
    ensures AllReadable(rows) <==> Clean(rows[0].exp) && AllReadable(rows[1..])
  {
    var rest := rows[1..];
    assert forall i :: 0 <= i < |rest| ==> rest[i] == rows[i + 1];
    if Clean(rows[0].exp) && AllReadable(rest) {
      forall i | 0 <= i < |rows|
        ensures Clean(rows[i].exp)
      {
        if i > 0 { assert Clean(rest[i - 1].exp); }
      }
    }
  }

  /** A saved index is read back row for row, unless an expiry date cannot stand on a line. */
  lemma {:induction false} SavedRows(rows: seq<Row>)
    requires AllRowsOk(rows)
    ensures Read(SaveText(rows)) == if AllReadable(rows) then Some(AllFields(rows)) else None
    ensures AllRows(AllFields(rows)) == Some(rows)
  {
    RowsOnLines(rows);
    FileRoundTrip(AllFields(rows));
    RowsBack(rows);
  }

  lemma StartupIsLoadable(lib: Lib, rows: seq<Row>)
    requires AllRowsOk(rows)
    ensures AllStartupOk(lib, rows) && AllReadable(rows) <==> AllLoadable(lib, rows)
  {
    forall i | 0 <= i < |rows|
      ensures StartupOk(lib, rows[i]) && Clean(rows[i].exp) <==> Loadable(lib, rows[i])
    {
      assert RowOk(rows[i]);
    }
  }

  lemma NamesIndexedUnique(db: Db)
    requires NamesIndexed(db)
    ensures ValidNamesUnique(db.rows)
  {
  }

  lemma SavedIsRead(db: Db)
    requires Inv(db)
    ensures ReadIndex(SaveText(db.rows)) == if AllReadable(db.rows) then Some(db.rows) else None
  {
    SavedRows(db.rows);
  }

  /** What becomes of the index in memory when it is saved: it is read back row for row if
      and only if every expiry date can stand on a line, and passes the program's own
      startup checks if and only if every row is loadable. */
  lemma SavedIsAccepted(lib: Lib, db: Db)
    requires Inv(db)
    ensures ReadIndex(SaveText(db.rows)) == if AllReadable(db.rows) then Some(db.rows) else None
    ensures OpenIndex(db.unique, SaveText(db.rows)) ==
            if AllReadable(db.rows) then Some(Indexed(db.unique, db.rows)) else None
    ensures Open(lib, db.unique, SaveText(db.rows)) ==
            if AllLoadable(lib, db.rows) then Some(Indexed(db.unique, db.rows)) else None
  {
    SavedIsRead(db);
    if db.unique { NamesIndexedUnique(db); }
    StartupIsLoadable(lib, db.rows);
  }

  lemma {:induction false} IndexNamesOk(rows: seq<Row>)
    requires ValidNamesUnique(rows)
    ensures NamesIndexed(Db(true, rows, IndexNames(rows)))
    ensures forall n :: n in IndexNames(rows) ==> rows[IndexNames(rows)[n]].typ == VALID
  {
    if rows != [] {
      var n := |rows| - 1;
      var front := rows[..n];
      IndexNamesOk(front);
      assert NamesIndexed(Db(true, front, IndexNames(front)));
      assert forall i :: 0 <= i < n ==> front[i] == rows[i];
    }
  }

  /** What a row that was read from a file is like. */
  predicate FromLine(row: Row) {
    && row.typ != '#' && (row.typ == NO_TYPE ==> row.more == "") && Clean(TypeText(row))
    && Clean(row.exp) && Clean(row.rev) && Clean(row.serial) && Clean(row.file) && '\n' !in row.name
  }

  lemma {:induction false} FieldsFromLine(f: Fields)
    requires OneLine(f) && Separable(f) && RowOf(f).Some?
    ensures FromLine(RowOf(f).value)
  {
    SixFields(f);
    if f[0] != [] { assert [f[0][0]] + f[0][1..] == f[0]; }
  }

  lemma {:induction false} RowsFromLines(fields: seq<Fields>)
    requires AllOneLine(fields) && AllSeparable(fields) && AllRows(fields).Some?
    ensures forall i :: 0 <= i < |fields| ==> FromLine(AllRows(fields).value[i])
  {
    if fields != [] {
      RowsFromLines(fields[1..]);
      FieldsFromLine(fields[0]);
      var rows := AllRows(fields).value;
      assert rows[1..] == AllRows(fields[1..]).value;
      forall i | 0 <= i < |fields|
        ensures FromLine(rows[i])
      {
        if i > 0 { assert rows[i] == rows[1..][i - 1]; }
      }
    }
  }

  lemma CheckedRowOk(lib: Lib, row: Row)
    requires !lib.TimeOk("") && FromLine(row) && StartupOk(lib, row)
    ensures RowOk(row) && Loadable(lib, row)
  {
    assert Cut("") == Parts("", None, None);
  }

  /** Every file the program accepts puts it into a state that satisfies the invariant. */
  lemma OpenEstablishesInv(lib: Lib, unique: bool, text: string)
    requires !lib.TimeOk("") && Open(lib, unique, text).Some?
    ensures Inv(Open(lib, unique, text).value) && AllLoadable(lib, Open(lib, unique, text).value.rows)
    ensures Open(lib, unique, text).value.unique == unique
  {
    ReadIsWritable(text);
    var fields := Read(text).value;
    var rows := AllRows(fields).value;
    RowsFromLines(fields);
    forall i | 0 <= i < |rows|
      ensures RowOk(rows[i]) && Loadable(lib, rows[i])
    {
      CheckedRowOk(lib, rows[i]);
    }
    if unique { IndexNamesOk(rows); }
  }

  // -------------------------------------------- each operation, one step

  /** X509_NAME_oneline writes control characters in hex. */
  predicate GoodName(name: string) {
    '\n' !in name
  }

  predicate StoresArgument(revType: RevType) {
    revType == RevHold || revType == RevKeyCompromise || revType == RevCaCompromise
  }

  /** The clock's text is a time without commas, and an object identifier or a time that
      was accepted holds no line break and no backslash. */
  predicate PlainTexts(revType: RevType, arg: string, now: string) {
    Clean(now) && now != "" && ',' !in now && (StoresArgument(revType) ==> Clean(arg))
  }

  /** An expiry date that the startup checks accept and that can stand on a line. */
  predicate GoodExpiry(lib: Lib, notAfter: string) {
    lib.TimeOk(notAfter) && Clean(notAfter)
  }

  lemma {:induction false} AppendKeepsSerials(rows: seq<Row>, row: Row)
    requires SerialsUnique(rows) && FindSerial(rows, row.serial).None?
    ensures SerialsUnique(rows + [row])
  {
    var all := rows + [row];
    forall i, j | 0 <= i < j < |all|
      ensures !KeyEq(all[i].serial, all[j].serial)
    {
      if j < |rows| { assert !KeyEq(rows[i].serial, rows[j].serial); }
    }
  }

  lemma AppendKeepsNames(db: Db, row: Row)
    requires db.unique && NamesIndexed(db) && Insert(db, row).Some?
    ensures NamesIndexed(Insert(db, row).value)
  {
    var grown := Insert(db, row).value;
    assert forall i :: 0 <= i < |db.rows| ==> grown.rows[i] == db.rows[i];
  }

  lemma NewRowOk(name: string, serial: int, notAfter: string)
    requires GoodName(name)
    ensures RowOk(NewRow(name, serial, notAfter)) && FindableRow(NewRow(name, serial, notAfter))
  {
    OwnKeysFindable(serial);
  }

  lemma AppendRows(lib: Lib, rows: seq<Row>, row: Row)
    requires AllRowsOk(rows) && RowOk(row)
    ensures AllRowsOk(rows + [row])
    ensures AllLoadable(lib, rows + [row]) <==> AllLoadable(lib, rows) && Loadable(lib, row)
  {
    var all := rows + [row];
    assert forall i :: 0 <= i < |rows| ==> all[i] == rows[i];
    assert all[|rows|] == row;
    forall i | 0 <= i < |all|
      ensures RowOk(all[i])
    {
      if i < |rows| { assert RowOk(rows[i]); }
    }
    if AllLoadable(lib, rows) && Loadable(lib, row) {
      forall i | 0 <= i < |all|
        ensures Loadable(lib, all[i])
      {
        if i < |rows| { assert Loadable(lib, rows[i]); }
      }
    }
  }

  lemma EvolvesByOne(rows: seq<Row>, row: Row)
    requires FindableRow(row)
    ensures Evolves(rows, rows + [row])
  {
  }

  lemma InsertedRows(db: Db, row: Row)
    requires Insert(db, row).Some?
    ensures Insert(db, row).value.rows == db.rows + [row] && Insert(db, row).value.unique == db.unique
    ensures FindSerial(db.rows, row.serial).None?
  {
  }

  lemma InsertKeepsInv(lib: Lib, db: Db, name: string, serial: int, notAfter: string)
    requires Inv(db) && GoodName(name)
    requires Insert(db, NewRow(name, serial, notAfter)).Some?
    ensures var grown := Insert(db, NewRow(name, serial, notAfter)).value;
            && Inv(grown) && Evolves(db.rows, grown.rows) && grown.unique == db.unique
            && (AllLoadable(lib, grown.rows) <==> AllLoadable(lib, db.rows) && GoodExpiry(lib, notAfter))
  {
    var row := NewRow(name, serial, notAfter);
    InsertedRows(db, row);
    AppendKeepsSerials(db.rows, row);
    if db.unique { AppendKeepsNames(db, row); }
    NewRowOk(name, serial, notAfter);
    AppendRows(lib, db.rows, row);
    EvolvesByOne(db.rows, row);
  }

  lemma RevokedTextClean(lib: Lib, revType: RevType, arg: string, now: string)
    requires PlainTexts(revType, arg, now) && RevocationText(lib, revType, arg, now).Some?
    ensures var text := RevocationText(lib, revType, arg, now).value; Clean(text) && text != ""
  {
    var choice := FieldsFor(lib, revType, arg);
    if choice.reason.Some? {
      ReasonClean(lib, revType, arg);
      JoinedClean(now, choice.reason.value, choice.other);
    }
  }

  lemma ReasonNameClean(i: nat)
    requires i < |CRL_REASONS|
    ensures Clean(CRL_REASONS[i])
  {
    ReasonNoBreak(i);
    ReasonEnd(i);
  }

  lemma ReasonClean(lib: Lib, revType: RevType, arg: string)
    requires FieldsFor(lib, revType, arg).Choice? && FieldsFor(lib, revType, arg).reason.Some?
    ensures Clean(FieldsFor(lib, revType, arg).reason.value)
  {
    ReasonFromTable(lib, revType, arg);
    ReasonNameClean(ReasonPlace(revType, arg));
  }

  lemma JoinedClean(now: string, reason: string, other: Option<string>)
    requires Clean(now) && Clean(reason) && (other.Some? ==> Clean(other.value))
    ensures Clean(Joined(now, Some(reason), other)) && Joined(now, Some(reason), other) != ""
  {
    var text := Joined(now, Some(reason), other);
    var last := if other.Some? then "," + other.value else "," + reason;
    assert !EndsInBackslash(last);
    assert text[|text| - 1] == last[|last| - 1];
  }

  lemma ReplaceKeepsSerials(rows: seq<Row>, i: nat, row: Row)
    requires SerialsUnique(rows) && i < |rows| && row.serial == rows[i].serial
    ensures SerialsUnique(rows[i := row])
  {
    var after := rows[i := row];
    assert forall k :: 0 <= k < |rows| ==> after[k].serial == rows[k].serial;
  }

  lemma ReplaceKeepsNames(db: Db, i: nat, row: Row)
    requires NamesIndexed(db) && i < |db.rows| && row.name == db.rows[i].name && row.typ != VALID
    ensures NamesIndexed(Db(db.unique, db.rows[i := row], db.nameIndex))
  {
    var after := db.rows[i := row];
    assert forall k :: 0 <= k < |after| ==> after[k].name == db.rows[k].name;
  }

  lemma ReplaceKeepsRows(rows: seq<Row>, i: nat, row: Row)
    requires AllRowsOk(rows) && i < |rows| && RowOk(row)
    ensures AllRowsOk(rows[i := row])
  {
  }

  lemma EvolvesAt(rows: seq<Row>, i: nat, row: Row)
    requires i < |rows| && RowStep(rows[i], row)
    ensures Evolves(rows, rows[i := row])
  {
  }

  lemma ReplaceKeepsInv(db: Db, i: nat, row: Row)
    requires Inv(db) && i < |db.rows|
    requires RowOk(row) && RowStep(db.rows[i], row) && row.typ != VALID
    ensures Inv(Db(db.unique, db.rows[i := row], db.nameIndex))
    ensures Evolves(db.rows, db.rows[i := row])
  {
    ReplaceKeepsRows(db.rows, i, row);
    ReplaceKeepsSerials(db.rows, i, row);
    EvolvesAt(db.rows, i, row);
    if db.unique { ReplaceKeepsNames(db, i, row); }
  }

  /** Replacing a row by one with the same expiry date. */
  lemma ReplaceLoadable(lib: Lib, rows: seq<Row>, i: nat, row: Row)
    requires i < |rows| && (Loadable(lib, row) ==> Loadable(lib, rows[i]))
    ensures AllLoadable(lib, rows[i := row]) <==> AllLoadable(lib, rows) && Loadable(lib, row)
  {
    var after := rows[i := row];
    if AllLoadable(lib, after) {
      forall k | 0 <= k < |rows|
        ensures Loadable(lib, rows[k])
      {
        assert Loadable(lib, after[k]);
      }
      assert after[i] == row;
    }
  }

  lemma RevokedRowOk(lib: Lib, row: Row, revType: RevType, arg: string, now: string)
    requires !lib.TimeOk("") && RowOk(row) && row.typ != REVOKED && PlainTexts(revType, arg, now)
    requires RevocationText(lib, revType, arg, now).Some?
    ensures var after := WithRevocation(row, RevocationText(lib, revType, arg, now).value);
            && RowOk(after) && RowStep(row, after)
            && (Loadable(lib, after) <==> Loadable(lib, row) && lib.utcOk(now) && row.typ != NO_TYPE)
  {
    RevokedTextClean(lib, revType, arg, now);
    RoundTrip(lib, revType, arg, now);
  }

  lemma RevokeAtKeepsInv(lib: Lib, db: Db, i: nat, revType: RevType, arg: string, now: string)
    requires !lib.TimeOk("") && Inv(db) && i < |db.rows| && PlainTexts(revType, arg, now)
    ensures var (after, ok) := RevokeAt(lib, db, i, revType, arg, now);
            && Inv(after) && Evolves(db.rows, after.rows) && after.unique == db.unique
            && (AllLoadable(lib, after.rows) <==>
                  AllLoadable(lib, db.rows) && (ok ==> lib.utcOk(now) && db.rows[i].typ != NO_TYPE))
  {
    var (after, ok) := RevokeAt(lib, db, i, revType, arg, now);
    if ok {
      var row := WithRevocation(db.rows[i], RevocationText(lib, revType, arg, now).value);
      assert RowOk(db.rows[i]);
      RevokedRowOk(lib, db.rows[i], revType, arg, now);
      ReplaceKeepsInv(db, i, row);
      ReplaceLoadable(lib, db.rows, i, row);
      if AllLoadable(lib, db.rows) { assert Loadable(lib, db.rows[i]); }
    }
  }

  lemma GoodRowName(cert: Cert)
    requires cert.name.Some? && GoodName(cert.name.value)
    ensures GoodName(RowName(cert).value)
  {
    SerialShape(cert.serial);
    SerialIsClean(SerialText(cert.serial));
  }

  /** do_revoke puts the certificate into the index. */
  predicate Inserts(db: Db, cert: Cert) {
    && RowName(cert).Some? && FindSerial(db.rows, SerialText(cert.serial)).None?
    && Insert(db, NewRow(RowName(cert).value, cert.serial, cert.notAfter)).Some?
  }

  predicate GoodCert(cert: Cert) {
    cert.name.Some? ==> GoodName(cert.name.value)
  }

  lemma RevokeInserted(lib: Lib, db: Db, cert: Cert, revType: RevType, arg: string, now: string)
    requires !lib.TimeOk("") && Inv(db) && PlainTexts(revType, arg, now) && GoodCert(cert) && Inserts(db, cert)
    ensures var (after, ok) := Revoke(lib, db, cert, revType, arg, now);
            && Inv(after) && Evolves(db.rows, after.rows) && after.unique == db.unique
            && (AllLoadable(lib, after.rows) <==>
                  AllLoadable(lib, db.rows) && GoodExpiry(lib, cert.notAfter)
                  && (ok && revType != RevValid ==> lib.utcOk(now)))
  {
    var name := RowName(cert).value;
    GoodRowName(cert);
    InsertKeepsInv(lib, db, name, cert.serial, cert.notAfter);
    if revType != RevValid {
      var grown := Insert(db, NewRow(name, cert.serial, cert.notAfter)).value;
      RevokeAtKeepsInv(lib, grown, |db.rows|, revType, arg, now);
      EvolvesTransitive(db.rows, grown.rows, RevokeAt(lib, grown, |db.rows|, revType, arg, now).0.rows);
    }
  }

  /** do_revoke reaches a row that is already there. */
  predicate Reaches(db: Db, cert: Cert) {
    && RowName(cert).Some? && FindSerial(db.rows, SerialText(cert.serial)).Some?
    && db.rows[FindSerial(db.rows, SerialText(cert.serial)).value].name == RowName(cert).value
  }

  /** If a row is reached, its type field is not empty. */
  predicate ReachesTyped(db: Db, cert: Cert) {
    Reaches(db, cert) ==> db.rows[FindSerial(db.rows, SerialText(cert.serial)).value].typ != NO_TYPE
  }

  lemma RevokeCases(lib: Lib, db: Db, cert: Cert, revType: RevType, arg: string, now: string)
    requires !Inserts(db, cert)
    ensures Revoke(lib, db, cert, revType, arg, now) ==
            if Reaches(db, cert)
            then RevokeAt(lib, db, FindSerial(db.rows, SerialText(cert.serial)).value, revType, arg, now)
            else (db, false)
  {
  }

  /** do_revoke keeps the invariant for every certificate, and the index loadable exactly
      if the expiry date of an inserted certificate is good, the time of a revocation is a
      UTCTime, and the row that is revoked had a type. */
  lemma RevokeKeepsInv(lib: Lib, db: Db, cert: Cert, revType: RevType, arg: string, now: string)
    requires !lib.TimeOk("") && Inv(db) && PlainTexts(revType, arg, now) && GoodCert(cert)
    ensures var (after, ok) := Revoke(lib, db, cert, revType, arg, now);
            && Inv(after) && Evolves(db.rows, after.rows) && after.unique == db.unique
            && (AllLoadable(lib, after.rows) <==>
                  && AllLoadable(lib, db.rows)
                  && (Inserts(db, cert) ==> GoodExpiry(lib, cert.notAfter))
                  && (ok && revType != RevValid ==> lib.utcOk(now) && ReachesTyped(db, cert)))
  {
    if Inserts(db, cert) {
      RevokeInserted(lib, db, cert, revType, arg, now);
    } else {
      RevokeCases(lib, db, cert, revType, arg, now);
      EvolvesItself(db.rows);
      if Reaches(db, cert) {
        RevokeAtKeepsInv(lib, db, FindSerial(db.rows, SerialText(cert.serial)).value, revType, arg, now);
      }
    }
  }

  lemma UpdateKeepsInv(lib: Lib, db: Db, now: string)
    requires Inv(db)
    ensures Inv(Update(lib, db, now)) && Evolves(db.rows, Update(lib, db, now).rows)
    ensures AllLoadable(lib, Update(lib, db, now).rows) <==> AllLoadable(lib, db.rows)
  {
    var rows := Update(lib, db, now).rows;
    forall i | 0 <= i < |rows|
      ensures RowOk(rows[i]) && RowStep(db.rows[i], rows[i])
      ensures Loadable(lib, rows[i]) <==> Loadable(lib, db.rows[i])
    {
      assert RowOk(db.rows[i]);
      if rows[i] != db.rows[i] { assert TypeText(rows[i]) == "E"; }
    }
  }

  /** Once every expiry date parses, as the startup checks demand, do_updatedb never fails. */
  lemma {:induction false} UpdateReachesTheEnd(lib: Lib, rows: seq<Row>, i: nat)
    requires i <= |rows| && forall k :: 0 <= k < |rows| ==> lib.TimeOk(rows[k].exp)
    ensures StopsAt(lib, rows, i) == |rows|
    decreases |rows| - i
  {
    if i < |rows| {
      UpdateReachesTheEnd(lib, rows, i + 1);
    }
  }

  // ----------------------------------------------------------- whole runs

  datatype Action =
    | Load
    | Issue(name: string, serial: int, notAfter: string)
    | RevokeCert(cert: Cert, revType: RevType, arg: string, now: string)
    | UpdateDb(now: string)
    | Save

  /** The index file and what a process holds in memory. A process that gives up leaves
      the file as it is; the next one starts with Load. */
  datatype Ca = Ca(file: string, db: Db)

  function Step(lib: Lib, m: Ca, a: Action): Ca {
    match a
    case Load =>
      (match Open(lib, m.db.unique, m.file)
       case None => m
       case Some(db) => Ca(m.file, db))
    case Issue(name, serial, notAfter) =>
      (match Insert(m.db, NewRow(name, serial, notAfter))
       case None => m
       case Some(db) => Ca(m.file, db))
    case RevokeCert(cert, revType, arg, now) => Ca(m.file, Revoke(lib, m.db, cert, revType, arg, now).0)
    case UpdateDb(now) => Ca(m.file, Update(lib, m.db, now))
    case Save => Ca(SaveText(m.db.rows), m.db)
  }

  function Run(lib: Lib, m: Ca, actions: seq<Action>): Ca
    decreases |actions|
  {
    if actions == [] then m else Run(lib, Step(lib, m, actions[0]), actions[1..])
  }

  /** What is saved and loaded again: the rows as they were, and, if names are to be unique,
      exactly the names of the valid rows in the name index. */
  lemma {:induction false} SavedAndLoaded(lib: Lib, m: Ca)
    requires Inv(m.db) && AllLoadable(lib, m.db.rows)
    ensures var n := Step(lib, Step(lib, m, Save), Load);
            && n.file == SaveText(m.db.rows) && n.db.rows == m.db.rows && n.db.unique == m.db.unique
            && forall name :: name in n.db.nameIndex <==>
                 m.db.unique && exists i :: 0 <= i < |m.db.rows| && m.db.rows[i].typ == 'V' && m.db.rows[i].name == name
  {
    SavedIsAccepted(lib, m.db);
    if m.db.unique {
      NamesIndexedUnique(m.db);
      IndexNamesOk(m.db.rows);
      var names := IndexNames(m.db.rows);
      assert NamesIndexed(Db(true, m.db.rows, names));
      assert forall name :: name in names ==> m.db.rows[names[name]].typ == 'V' && m.db.rows[names[name]].name == name;
    }
  }

  /** What the libraries guarantee of the texts that reach the index. Nothing is demanded
      of expiry dates or of the year. */
  predicate PlainAction(a: Action) {
    match a
    case Issue(name, serial, notAfter) => GoodName(name)
    case RevokeCert(cert, revType, arg, now) => PlainTexts(revType, arg, now) && GoodCert(cert)
    case _ => true
  }

  predicate PlainActions(actions: seq<Action>) {
    actions == [] || (PlainAction(actions[0]) && PlainActions(actions[1..]))
  }

  /** The rows that are read from the file now: by `ca`, and by the responder, whatever
      either of them demands of the names. */
  function FileRows(m: Ca): seq<Row>
    requires ReadIndex(m.file).Some?
  {
    ReadIndex(m.file).value
  }

  /** Memory is in order, and the rows in memory and on file have evolved from `base`. */
  predicate CaInv(base: seq<Row>, m: Ca) {
    && Inv(m.db) && Evolves(base, m.db.rows)
    && (ReadIndex(m.file).Some? ==> Evolves(base, FileRows(m)))
  }

  /** A process that has just loaded an index, and one that starts with an empty file. */
  lemma Loaded(lib: Lib, unique: bool, text: string)
    requires !lib.TimeOk("")
    ensures Open(lib, unique, text).Some? ==>
              var db := Open(lib, unique, text).value; CaInv(db.rows, Ca(text, db)) && AllLoadable(lib, db.rows)
    ensures Open(lib, unique, "") == Some(Db(unique, [], map[])) && CaInv([], Ca("", Db(unique, [], map[])))
  {
    if Open(lib, unique, text).Some? {
      OpenEstablishesInv(lib, unique, text);
      EvolvesItself(Open(lib, unique, text).value.rows);
    }
  }

  lemma DbKeepsInv(base: seq<Row>, m: Ca, db: Db)
    requires CaInv(base, m) && Inv(db) && Evolves(m.db.rows, db.rows)
    ensures CaInv(base, Ca(m.file, db))
  {
    EvolvesTransitive(base, m.db.rows, db.rows);
  }

  lemma LoadKeepsInv(lib: Lib, base: seq<Row>, m: Ca)
    requires !lib.TimeOk("") && CaInv(base, m)
    ensures CaInv(base, Step(lib, m, Load)) && Step(lib, m, Load).db.unique == m.db.unique
  {
    if Open(lib, m.db.unique, m.file).Some? { OpenEstablishesInv(lib, m.db.unique, m.file); }
  }

  lemma FileTracks(base: seq<Row>, file: string, db: Db)
    requires Inv(db) && Evolves(base, db.rows)
    requires ReadIndex(file).Some? ==> ReadIndex(file) == Some(db.rows)
    ensures CaInv(base, Ca(file, db))
  {
  }

  lemma SavedKeepsInv(base: seq<Row>, db: Db)
    requires Inv(db) && Evolves(base, db.rows)
    ensures CaInv(base, Ca(SaveText(db.rows), db))
  {
    SavedIsRead(db);
    FileTracks(base, SaveText(db.rows), db);
  }

  lemma StepKeepsInv(lib: Lib, base: seq<Row>, m: Ca, a: Action)
    requires !lib.TimeOk("") && CaInv(base, m) && PlainAction(a)
    ensures CaInv(base, Step(lib, m, a)) && Step(lib, m, a).db.unique == m.db.unique
  {
    match a {
      case Load => LoadKeepsInv(lib, base, m);
      case Save => SavedKeepsInv(base, m.db);
      case Issue(name, serial, notAfter) =>
        var grown := Insert(m.db, NewRow(name, serial, notAfter));
        if grown.Some? {
          InsertKeepsInv(lib, m.db, name, serial, notAfter);
          DbKeepsInv(base, m, grown.value);
        }
      case RevokeCert(cert, revType, arg, now) =>
        RevokeKeepsInv(lib, m.db, cert, revType, arg, now);
        DbKeepsInv(base, m, Revoke(lib, m.db, cert, revType, arg, now).0);
      case UpdateDb(now) =>
        UpdateKeepsInv(lib, m.db, now);
        DbKeepsInv(base, m, Update(lib, m.db, now));
    }
  }

  lemma {:induction false} RunKeepsInv(lib: Lib, base: seq<Row>, m: Ca, actions: seq<Action>)
    requires !lib.TimeOk("") && CaInv(base, m) && PlainActions(actions)
    ensures CaInv(base, Run(lib, m, actions)) && Run(lib, m, actions).db.unique == m.db.unique
    decreases |actions|
  {
    if actions != [] {
      StepKeepsInv(lib, base, m, actions[0]);
      RunKeepsInv(lib, base, Step(lib, m, actions[0]), actions[1..]);
    }
  }

  lemma {:induction false} InvIsSafe(lib: Lib, base: seq<Row>, db: Db)
    requires !lib.TimeOk("") && Inv(db) && Evolves(base, db.rows)
    ensures SerialsUnique(db.rows) && (db.unique ==> ValidNamesUnique(db.rows))
    ensures AllFindable(base) ==> AllFindable(db.rows) && OneRowPerNumber(db.rows)
    ensures forall i :: 0 <= i < |db.rows| ==>
              (db.rows[i].rev != "" <==> db.rows[i].typ == REVOKED) && SerialOk(db.rows[i].serial)
    ensures Open(lib, db.unique, SaveText(db.rows)).Some? <==> AllLoadable(lib, db.rows)
  {
    if db.unique { NamesIndexedUnique(db); }
    SavedIsAccepted(lib, db);
    if AllFindable(base) {
      EvolvesFindable(base, db.rows);
      UniqueByNumber(db.rows);
    }
    assert forall i :: 0 <= i < |db.rows| ==> RowOk(db.rows[i]);
  }

  /** After any run, whatever was issued or revoked: serials are unique as keys, and as
      numbers if the rows at the start could all be found; no two valid rows
      share a name if names are to be unique, a row has a revocation field exactly if it
      is revoked, every row at the start has only moved V to E or to R, in memory and on
      file, and saving now gives an acceptable file exactly if every row is loadable. */
  lemma {:induction false} RunIsSafe(lib: Lib, base: seq<Row>, m: Ca, actions: seq<Action>)
    requires !lib.TimeOk("") && CaInv(base, m) && PlainActions(actions)
    ensures var n := Run(lib, m, actions);
            && n.db.unique == m.db.unique
            && SerialsUnique(n.db.rows) && (n.db.unique ==> ValidNamesUnique(n.db.rows))
            && (AllFindable(base) ==> AllFindable(n.db.rows) && OneRowPerNumber(n.db.rows))
            && (forall i :: 0 <= i < |n.db.rows| ==>
                  (n.db.rows[i].rev != "" <==> n.db.rows[i].typ == REVOKED) && SerialOk(n.db.rows[i].serial))
            && Evolves(base, n.db.rows)
            && (ReadIndex(n.file).Some? ==> Evolves(base, FileRows(n)))
            && (Open(lib, n.db.unique, SaveText(n.db.rows)).Some? <==> AllLoadable(lib, n.db.rows))
  {
    RunKeepsInv(lib, base, m, actions);
    InvIsSafe(lib, base, Run(lib, m, actions).db);
  }

  /** A revoked row never changes again, and its text least of all, over any run. */
  lemma {:induction false} RevocationIsFinal(lib: Lib, base: seq<Row>, m: Ca, actions: seq<Action>, i: nat)
    requires !lib.TimeOk("") && CaInv(base, m) && PlainActions(actions)
    requires i < |base| && base[i].typ == REVOKED
    ensures var n := Run(lib, m, actions);
            && i < |n.db.rows| && n.db.rows[i] == base[i]
            && (ReadIndex(n.file).Some? ==> i < |FileRows(n)| && FileRows(n)[i] == base[i])
  {
    RunKeepsInv(lib, base, m, actions);
    var n := Run(lib, m, actions);
    assert RowStep(base[i], n.db.rows[i]);
    if ReadIndex(n.file).Some? { assert RowStep(base[i], FileRows(n)[i]); }
  }

  /** Over any run, types move from V to E, V to R and E to R only, in memory and on file. */
  lemma {:induction false} TypesMoveForward(lib: Lib, base: seq<Row>, m: Ca, actions: seq<Action>, i: nat)
    requires !lib.TimeOk("") && CaInv(base, m) && PlainActions(actions)
    requires i < |base| && base[i].typ in {VALID, EXPIRED, REVOKED}
    ensures var n := Run(lib, m, actions);
            && i < |n.db.rows| && MayBecome(base[i].typ, n.db.rows[i].typ)
            && (ReadIndex(n.file).Some? ==>
                  i < |FileRows(n)| && MayBecome(base[i].typ, FileRows(n)[i].typ))
  {
    RunKeepsInv(lib, base, m, actions);
    var n := Run(lib, m, actions);
    assert RowStep(base[i], n.db.rows[i]);
    if ReadIndex(n.file).Some? { assert RowStep(base[i], FileRows(n)[i]); }
  }

  predicate MayBecome(a: char, b: char) {
    a == b || (a == 'V' && b == 'E') || (a == 'V' && b == 'R') || (a == 'E' && b == 'R')
  }

  // ------------------------------------ which runs keep the file acceptable

  /** The action leaves nothing in the index that the startup checks refuse. */
  predicate Harmless(lib: Lib, m: Ca, a: Action) {
    match a
    case Issue(name, serial, notAfter) =>
      Insert(m.db, NewRow(name, serial, notAfter)).Some? ==> GoodExpiry(lib, notAfter)
    case RevokeCert(cert, revType, arg, now) =>
      && (Inserts(m.db, cert) ==> GoodExpiry(lib, cert.notAfter))
      && (Revoke(lib, m.db, cert, revType, arg, now).1 && revType != RevValid ==>
            lib.utcOk(now) && ReachesTyped(m.db, cert))
    case _ => true
  }

  predicate AllHarmless(lib: Lib, m: Ca, actions: seq<Action>)
    decreases |actions|
  {
    actions == [] || (Harmless(lib, m, actions[0]) && AllHarmless(lib, Step(lib, m, actions[0]), actions[1..]))
  }

  /** One process: it loads the index once, before these actions. */
  predicate OneProcess(actions: seq<Action>) {
    actions == [] || (!actions[0].Load? && OneProcess(actions[1..]))
  }

  lemma StepLoads(lib: Lib, m: Ca, a: Action)
    requires !lib.TimeOk("") && Inv(m.db) && PlainAction(a) && !a.Load?
    ensures Inv(Step(lib, m, a).db)
    ensures AllLoadable(lib, Step(lib, m, a).db.rows) <==> AllLoadable(lib, m.db.rows) && Harmless(lib, m, a)
  {
    match a {
      case Issue(name, serial, notAfter) =>
        if Insert(m.db, NewRow(name, serial, notAfter)).Some? { InsertKeepsInv(lib, m.db, name, serial, notAfter); }
      case RevokeCert(cert, revType, arg, now) => RevokeKeepsInv(lib, m.db, cert, revType, arg, now);
      case UpdateDb(now) => UpdateKeepsInv(lib, m.db, now);
      case Save =>
    }
  }

  lemma {:induction false} RunLoads(lib: Lib, m: Ca, actions: seq<Action>)
    requires !lib.TimeOk("") && Inv(m.db) && PlainActions(actions) && OneProcess(actions)
    ensures Inv(Run(lib, m, actions).db)
    ensures AllLoadable(lib, Run(lib, m, actions).db.rows) <==>
            AllLoadable(lib, m.db.rows) && AllHarmless(lib, m, actions)
    decreases |actions|
  {
    if actions != [] {
      StepLoads(lib, m, actions[0]);
      RunLoads(lib, Step(lib, m, actions[0]), actions[1..]);
    }
  }

  /** A process that has loaded an index leaves one that the next process accepts, if it
      saves it, exactly if every action was harmless: it inserted no certificate whose
      expiry date the startup checks refuse, and revoked none at a time that is not a
      UTCTime, or in a row without a type. */
  lemma {:induction false} NextStartAccepts(lib: Lib, unique: bool, text: string, actions: seq<Action>)
    requires !lib.TimeOk("") && Open(lib, unique, text).Some? && PlainActions(actions) && OneProcess(actions)
    ensures var m := Ca(text, Open(lib, unique, text).value);
            var rows := Run(lib, m, actions).db.rows;
            Open(lib, unique, SaveText(rows)).Some? <==> AllHarmless(lib, m, actions)
  {
    var m := Ca(text, Open(lib, unique, text).value);
    OpenEstablishesInv(lib, unique, text);
    EvolvesItself(m.db.rows);
    RunKeepsInv(lib, m.db.rows, m, actions);
    RunLoads(lib, m, actions);
    SavedIsAccepted(lib, Run(lib, m, actions).db);
  }

  /** Every process of the run finds an index that it accepts, and what it holds at the end
      could be saved and accepted as well. */
  lemma HarmlessStep(lib: Lib, m: Ca, a: Action)
    requires !lib.TimeOk("") && Inv(m.db) && PlainAction(a) && Harmless(lib, m, a)
    requires Open(lib, m.db.unique, m.file).Some? && AllLoadable(lib, m.db.rows)
    ensures var n := Step(lib, m, a);
            Inv(n.db) && Open(lib, n.db.unique, n.file).Some? && AllLoadable(lib, n.db.rows)
  {
    if a.Load? {
      OpenEstablishesInv(lib, m.db.unique, m.file);
    } else {
      StepLoads(lib, m, a);
      SameUnique(lib, m, a);
      if a.Save? { SavedIsAccepted(lib, m.db); }
    }
  }

  lemma SameUnique(lib: Lib, m: Ca, a: Action)
    requires !a.Load?
    ensures Step(lib, m, a).db.unique == m.db.unique
    ensures Step(lib, m, a).file == if a.Save? then SaveText(m.db.rows) else m.file
  {
  }

  /** Over any number of processes and saves: as long as every action is harmless, the file
      is accepted after each of them, and what is in memory could be saved. */
  lemma {:induction false} HarmlessRun(lib: Lib, m: Ca, actions: seq<Action>, k: nat)
    requires !lib.TimeOk("") && Inv(m.db) && PlainActions(actions) && AllHarmless(lib, m, actions)
    requires Open(lib, m.db.unique, m.file).Some? && AllLoadable(lib, m.db.rows) && k <= |actions|
    ensures var n := Run(lib, m, actions[..k]);
            && Open(lib, n.db.unique, n.file).Some?
            && Open(lib, n.db.unique, SaveText(n.db.rows)).Some?
    decreases k
  {
    if k == 0 {
      SavedIsAccepted(lib, m.db);
    } else {
      assert actions[..k][1..] == actions[1..][..k - 1];
      HarmlessStep(lib, m, actions[0]);
      HarmlessRun(lib, Step(lib, m, actions[0]), actions[1..], k - 1);
    }
  }
}
