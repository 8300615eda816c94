/** The text file behind the index: one line a row, fields separated by tabs, and a
    backslash before a tab that belongs to a field. */
module TxtDb {
  import opened Text

  const DB_NUMBER := 6

  type Fields = seq<string>

  // -------------------------------------------------------------- writing

  function EscapeTabs(field: string): string {
    if field == [] then []
    else if field[0] == '\t' then "\\\t" + EscapeTabs(field[1..])
    else [field[0]] + EscapeTabs(field[1..])
  }

  function Line(fields: Fields): string {
    if fields == [] then []
    else if |fields| == 1 then EscapeTabs(fields[0])
    else EscapeTabs(fields[0]) + "\t" + Line(fields[1..])
  }

  /** TXT_DB_write */
  function Write(rows: seq<Fields>): string {
    if rows == [] then [] else Line(rows[0]) + "\n" + Write(rows[1..])
  }

  // -------------------------------------------------------------- reading

  /** The character loop of TXT_DB_read: `cur` is the field being built and `esc`
      whether its last character was a backslash. */
  function SplitTabs(text: string, cur: string, esc: bool): seq<string>
    requires esc ==> cur != []
  {
    if text == [] then [cur]
    else if text[0] == '\t' && !esc then [cur] + SplitTabs(text[1..], [], false)
    else if text[0] == '\t' then SplitTabs(text[1..], cur[..|cur| - 1] + "\t", false)
    else SplitTabs(text[1..], cur + [text[0]], text[0] == '\\')
  }

  /** A line is accepted with DB_NUMBER fields; one more tab may stand at its very end. */
  function ReadLine(line: string): Option<Fields> {
    var fields := SplitTabs(line, [], false);
    if |fields| == DB_NUMBER then Some(fields)
    else if |fields| == DB_NUMBER + 1 && fields[DB_NUMBER] == [] then Some(fields[..DB_NUMBER])
    else None
  }

  /** TXT_DB_read: comment lines are skipped, an unfinished last line is dropped, and
      one line with a wrong number of fields rejects the file. */
  function Read(text: string): Option<seq<Fields>>
    decreases |text|
  {
    match IndexOf(text, '\n')
    case None => Some([])
    case Some(p) =>
      var rest := Read(text[p + 1..]);
      if p > 0 && text[0] == '#' then rest
      else if ReadLine(text[..p]).None? || rest.None? then None
      else Some([ReadLine(text[..p]).value] + rest.value)
  }

  // ------------------------------------------------ the characters themselves

  /** A backslash, character 92, in front of every tab, character 9; nothing else changes. */
  lemma {:induction false} EscapedIs(a: string, b: string, c: char)
    ensures EscapeTabs([]) == [] && EscapeTabs(a + b) == EscapeTabs(a) + EscapeTabs(b)
    ensures EscapeTabs([c]) == if c as int == 9 then [92 as char, c] else [c]
  {
    EscapeConcat(a, b);
    assert [c][1..] == [] && "\\\t" + [] == [92 as char, 9 as char];
  }

  /** A line: the fields one after the other with a tab, character 9, between them. */
  lemma {:induction false} LineIs(front: Fields, field: string)
    ensures Line([field]) == EscapeTabs(field)
    ensures front != [] ==> Line(front + [field]) == Line(front) + [9 as char] + EscapeTabs(field)
  {
    if |front| > 0 {
      var all := front + [field];
      assert all[1..] == front[1..] + [field];
      if |front| > 1 { LineIs(front[1..], field); } else { assert all[1..] == [field]; }
      Tabbed(EscapeTabs(front[0]), Line(front[1..]), EscapeTabs(field));
    }
  }

  lemma Tabbed(a: string, b: string, c: string)
    ensures a + "\t" + (b + [9 as char] + c) == a + "\t" + b + [9 as char] + c
    ensures a + "\t" + c == a + [9 as char] + c
  {
  }

  /** The file: every row's line with a newline, character 10, behind it. */
  lemma {:induction false} WrittenIs(a: seq<Fields>, b: seq<Fields>, row: Fields)
    ensures Write([]) == [] && Write([row]) == Line(row) + [10 as char]
    ensures Write(a + b) == Write(a) + Write(b)
  {
    assert [row][1..] == [] && Line(row) + "\n" + [] == Line(row) + [10 as char];
    if a == [] {
      assert a + b == b;
    } else {
      assert (a + b)[1..] == a[1..] + b;
      WrittenIs(a[1..], b, row);
      assert Line(a[0]) + "\n" + (Write(a[1..]) + Write(b)) == Line(a[0]) + "\n" + Write(a[1..]) + Write(b);
    }
  }

  /** Where a field ends in a line: at a tab without a backslash, character 92, in front. */
  predicate FreeTab(line: string, i: nat) {
    i < |line| && line[i] as int == 9 && (i > 0 ==> line[i - 1] as int != 92)
  }

  function FreeTabs(line: string, n: nat): set<nat> {
    set i: nat | n <= i < |line| && FreeTab(line, i)
  }

  lemma FreeTabsFrom(line: string, n: nat)
    requires n < |line|
    ensures n !in FreeTabs(line, n + 1)
    ensures FreeTabs(line, n) == FreeTabs(line, n + 1) + if FreeTab(line, n) then {n} else {}
  {
  }

  lemma {:induction false} SplitStep(text: string, cur: string, esc: bool, c: char, rest: string)
    requires (esc ==> cur != []) && text == [c] + rest
    ensures c == '\t' && !esc ==> SplitTabs(text, cur, esc) == [cur] + SplitTabs(rest, [], false)
    ensures c == '\t' && esc ==> SplitTabs(text, cur, esc) == SplitTabs(rest, cur[..|cur| - 1] + "\t", false)
    ensures c != '\t' ==> SplitTabs(text, cur, esc) == SplitTabs(rest, cur + [c], c == '\\')
  {
    assert text[1..] == rest;
  }

  /** One field for each end that lies ahead, and the last one; whether that one is empty. */
  predicate SplitInto(fields: seq<string>, ends: nat, lastEmpty: bool) {
    |fields| == 1 + ends && (fields[ends] == [] <==> lastEmpty)
  }

  lemma LastEnd(line: string, n: nat)
    requires n < |line| && FreeTab(line, n)
    ensures FreeTabs(line, n + 1) == {} ==> (n + 1 == |line| <==> FreeTab(line, |line| - 1))
  {
    if n + 1 < |line| && FreeTab(line, |line| - 1) { assert |line| - 1 in FreeTabs(line, n + 1); }
  }

  predicate Counted(line: string, n: nat, cur: string, esc: bool)
    requires n <= |line| && (esc ==> cur != [])
  {
    SplitInto(SplitTabs(line[n..], cur, esc), |FreeTabs(line, n)|,
              if FreeTabs(line, n) == {} then cur == [] && n == |line| else FreeTab(line, |line| - 1))
  }

  lemma {:induction false} FieldEnds(line: string, n: nat, cur: string)
    requires n < |line| && FreeTab(line, n) && Counted(line, n + 1, [], false)
    ensures Counted(line, n, cur, false)
  {
    OneMoreTab(line, n);
    LastEnd(line, n);
    var fields := SplitTabs(line[n + 1..], [], false);
    SplitStep(line[n..], cur, false, line[n], line[n + 1..]);
    OneMoreField(cur, fields, |FreeTabs(line, n + 1)|, FreeTab(line, |line| - 1));
  }

  lemma OneMoreTab(line: string, n: nat)
    requires n < |line| && FreeTab(line, n)
    ensures |FreeTabs(line, n)| == |FreeTabs(line, n + 1)| + 1 && FreeTabs(line, n) != {}
  {
    FreeTabsFrom(line, n);
    assert n in FreeTabs(line, n);
  }

  lemma OneMoreField(cur: string, fields: seq<string>, ends: nat, lastEmpty: bool)
    requires SplitInto(fields, ends, lastEmpty)
    ensures SplitInto([cur] + fields, ends + 1, lastEmpty)
  {
  }

  lemma {:induction false} FieldGoesOn(line: string, n: nat, cur: string, esc: bool, longer: string)
    requires n < |line| && !FreeTab(line, n) && (esc ==> cur != []) && longer != []
    requires esc <==> n > 0 && line[n - 1] == '\\'
    requires longer == if line[n] == '\t' then cur[..|cur| - 1] + "\t" else cur + [line[n]]
    requires Counted(line, n + 1, longer, line[n] == '\\')
    ensures Counted(line, n, cur, esc)
  {
    FreeTabsFrom(line, n);
    SplitStep(line[n..], cur, esc, line[n], line[n + 1..]);
  }

  lemma {:induction false} SplitCounts(line: string, n: nat, cur: string, esc: bool)
    requires n <= |line| && (esc ==> cur != []) && (esc <==> n > 0 && line[n - 1] == '\\')
    ensures Counted(line, n, cur, esc)
    decreases |line| - n
  {
    if n == |line| {
      assert FreeTabs(line, n) == {};
    } else if FreeTab(line, n) {
      SplitCounts(line, n + 1, [], false);
      FieldEnds(line, n, cur);
    } else {
      var longer := if line[n] == '\t' then cur[..|cur| - 1] + "\t" else cur + [line[n]];
      SplitCounts(line, n + 1, longer, line[n] == '\\');
      FieldGoesOn(line, n, cur, esc, longer);
    }
  }

  /** A line is read exactly if five such tabs part it into six fields, or a sixth stands at
      its very end. */
  lemma {:induction false} LineReadExactlyIf(line: string)
    ensures ReadLine(line).Some? <==>
            |FreeTabs(line, 0)| == 5 || (|FreeTabs(line, 0)| == 6 && FreeTab(line, |line| - 1))
  {
    assert line[0..] == line;
    SplitCounts(line, 0, [], false);
  }

  /** Line by line: a line that begins with #, character 35, is skipped; any other must be
      read; what stands behind the last newline is dropped. */
  lemma {:induction false} FileIs(line: string, rest: string)
    requires 10 as char !in line
    ensures Read(line) == Some([])
    ensures line != [] && line[0] as int == 35 ==> Read(line + [10 as char] + rest) == Read(rest)
    ensures line == [] || line[0] as int != 35 ==>
              Read(line + [10 as char] + rest) ==
              if ReadLine(line).None? || Read(rest).None? then None
              else Some([ReadLine(line).value] + Read(rest).value)
  {
    FirstOf(line, '\n', rest);
    if line != [] { assert (line + ['\n'] + rest)[0] == line[0]; }
  }

  // ----------------------------------------------------------- round trip

  predicate EndsInBackslash(s: string) {
    s != [] && s[|s| - 1] == '\\'
  }

  /** What the writer puts out so that the reader can take it apart again. */
  predicate Separable(fields: Fields) {
    |fields| <= 1 || (!EndsInBackslash(fields[0]) && Separable(fields[1..]))
  }

  /** A row as the CA keeps it: no line break, and not taken for a comment. */
  predicate OneLine(fields: Fields) {
    && |fields| == DB_NUMBER
    && (forall j :: 0 <= j < |fields| ==> '\n' !in fields[j])
    && (fields[0] != [] ==> fields[0][0] != '#')
  }

  lemma {:induction false} CharRead(c: char, rest: string, cur: string, esc: bool)
    requires esc ==> cur != []
    ensures SplitTabs(EscapeTabs([c]) + rest, cur, esc) == SplitTabs(rest, cur + [c], c == '\\')
  {
    if c == '\t' {
      assert EscapeTabs([c]) + rest == "\\" + ("\t" + rest);
      assert (cur + "\\")[..|cur|] + "\t" == cur + [c];
    } else {
      assert EscapeTabs([c]) + rest == [c] + rest;
    }
  }

  lemma {:induction false} EscapeFirst(field: string, rest: string)
    requires field != []
    ensures EscapeTabs(field) + rest == EscapeTabs([field[0]]) + (EscapeTabs(field[1..]) + rest)
  {
    assert [field[0]][1..] == [];
  }

  lemma BackslashLast(field: string)
    requires field != []
    ensures EndsInBackslash(field) <==> if |field| == 1 then field[0] == '\\' else EndsInBackslash(field[1..])
  {
  }

  lemma OneByOne(cur: string, field: string)
    requires field != []
    ensures cur + [field[0]] + field[1..] == cur + field
  {
  }

  lemma NothingRead(rest: string, cur: string)
    ensures EscapeTabs([]) + rest == rest && cur + [] == cur
  {
  }

  lemma {:induction false} FieldRead(field: string, rest: string, cur: string, esc: bool)
    requires esc ==> cur != []
    ensures SplitTabs(EscapeTabs(field) + rest, cur, esc) ==
            SplitTabs(rest, cur + field, if field == [] then esc else EndsInBackslash(field))
    decreases |field|
  {
    if field == [] {
      NothingRead(rest, cur);
    } else {
      FirstCharRead(field, rest, cur, esc);
      FieldRead(field[1..], rest, cur + [field[0]], field[0] == '\\');
      OneByOne(cur, field);
      BackslashLast(field);
    }
  }

  lemma FirstCharRead(field: string, rest: string, cur: string, esc: bool)
    requires field != [] && (esc ==> cur != [])
    ensures SplitTabs(EscapeTabs(field) + rest, cur, esc) ==
            SplitTabs(EscapeTabs(field[1..]) + rest, cur + [field[0]], field[0] == '\\')
  {
    EscapeFirst(field, rest);
    CharRead(field[0], EscapeTabs(field[1..]) + rest, cur, esc);
  }

  function Separators(fields: Fields): nat {
    if |fields| <= 1 then 0
    else (if EndsInBackslash(fields[0]) then 0 else 1) + Separators(fields[1..])
  }

  lemma {:induction false} StepOver(field: string, tail: string, cur: string)
    ensures SplitTabs(EscapeTabs(field) + "\t" + tail, cur, false) ==
            if EndsInBackslash(field) then SplitTabs(tail, cur + field[..|field| - 1] + "\t", false)
            else [cur + field] + SplitTabs(tail, [], false)
  {
    assert EscapeTabs(field) + "\t" + tail == EscapeTabs(field) + ("\t" + tail);
    FieldRead(field, "\t" + tail, cur, false);
    assert ("\t" + tail)[1..] == tail;
    if EndsInBackslash(field) {
      assert (cur + field)[..|cur + field| - 1] == cur + field[..|field| - 1];
    }
  }

  lemma {:induction false} FieldCount(fields: Fields, cur: string)
    requires fields != []
    ensures |SplitTabs(Line(fields), cur, false)| == 1 + Separators(fields)
    decreases |fields|
  {
    if |fields| == 1 {
      FieldRead(fields[0], [], cur, false);
      assert EscapeTabs(fields[0]) + [] == EscapeTabs(fields[0]);
    } else {
      StepOver(fields[0], Line(fields[1..]), cur);
      FieldCount(fields[1..], if EndsInBackslash(fields[0]) then cur + fields[0][..|fields[0]| - 1] + "\t" else []);
    }
  }

  lemma {:induction false} FieldsRead(fields: Fields)
    requires fields != [] && Separable(fields)
    ensures SplitTabs(Line(fields), [], false) == fields
    decreases |fields|
  {
    if |fields| == 1 {
      FieldRead(fields[0], [], [], false);
      assert EscapeTabs(fields[0]) + [] == EscapeTabs(fields[0]) && [] + fields[0] == fields[0];
    } else {
      StepOver(fields[0], Line(fields[1..]), []);
      FieldsRead(fields[1..]);
      assert [] + fields[0] == fields[0];
      assert [fields[0]] + fields[1..] == fields;
    }
  }

  lemma {:induction false} FewerFields(fields: Fields)
    requires fields != []
    ensures Separators(fields) <= |fields| - 1
    ensures Separators(fields) == |fields| - 1 <==> Separable(fields)
  {
    if |fields| > 1 {
      FewerFields(fields[1..]);
    }
  }

  /** A row is read back from its line exactly when no field before the last ends in a
      backslash; otherwise the line has too few fields. */
  lemma {:induction false} LineRoundTrip(fields: Fields)
    requires |fields| == DB_NUMBER
    ensures Separable(fields) ==> ReadLine(Line(fields)) == Some(fields)
    ensures !Separable(fields) ==> ReadLine(Line(fields)) == None
  {
    FieldCount(fields, []);
    FewerFields(fields);
    if Separable(fields) { FieldsRead(fields); }
  }

  lemma {:induction false} EscapeKeepsLine(field: string)
    requires '\n' !in field
    ensures '\n' !in EscapeTabs(field)
  {
    if field != [] {
      assert forall c :: c in field[1..] ==> c in field;
      EscapeKeepsLine(field[1..]);
    }
  }

  lemma {:induction false} LineIsOneLine(fields: Fields)
    requires forall j :: 0 <= j < |fields| ==> '\n' !in fields[j]
    ensures '\n' !in Line(fields)
    ensures |fields| > 1 ==> Line(fields) != [] && (Line(fields)[0] == '#' ==> fields[0] != [] && fields[0][0] == '#')
  {
    if fields != [] {
      EscapeKeepsLine(fields[0]);
      if |fields| > 1 {
        forall j | 0 <= j < |fields[1..]|
          ensures '\n' !in fields[1..][j]
        {
          assert fields[1..][j] == fields[j + 1];
        }
        LineIsOneLine(fields[1..]);
      }
    }
  }

  predicate AllSeparable(rows: seq<Fields>) {
    rows == [] || (Separable(rows[0]) && AllSeparable(rows[1..]))
  }

  predicate AllOneLine(rows: seq<Fields>) {
    rows == [] || (OneLine(rows[0]) && AllOneLine(rows[1..]))
  }

  /** Reading one written line off the front of a file. */
  lemma {:induction false} ReadFirst(fields: Fields, rest: string)
    requires OneLine(fields)
    ensures Read(Line(fields) + "\n" + rest) ==
            if Separable(fields) && Read(rest).Some? then Some([fields] + Read(rest).value) else None
  {
    var line := Line(fields);
    LineIsOneLine(fields);
    FirstOf(line, '\n', rest);
    LineRoundTrip(fields);
    assert (line + "\n" + rest)[0] == line[0];
  }

  /** A line break in a field before the last. */
  predicate HasBreak(fields: Fields) {
    |fields| > 1 && ('\n' in fields[0] || HasBreak(fields[1..]))
  }

  predicate NoBreaks(fields: Fields) {
    fields == [] || ('\n' !in fields[0] && NoBreaks(fields[1..]))
  }

  /** What stands on the line before the first break. */
  function BeforeBreak(fields: Fields): (r: Fields)
    requires HasBreak(fields)
    ensures 0 < |r| < |fields| && NoBreaks(r)
    ensures r[0] <= fields[0]
  {
    if '\n' in fields[0] then
      assert [fields[0][..IndexOf(fields[0], '\n').value]][1..] == [];
      [fields[0][..IndexOf(fields[0], '\n').value]]
    else
      var rest := BeforeBreak(fields[1..]);
      assert ([fields[0]] + rest)[1..] == rest;
      [fields[0]] + rest
  }

  function AfterBreak(fields: Fields): string
    requires HasBreak(fields)
  {
    if '\n' in fields[0]
    then EscapeTabs(fields[0][IndexOf(fields[0], '\n').value + 1..]) + "\t" + Line(fields[1..])
    else AfterBreak(fields[1..])
  }

  lemma {:induction false} EscapeConcat(a: string, b: string)
    ensures EscapeTabs(a + b) == EscapeTabs(a) + EscapeTabs(b)
  {
    if a == [] {
      assert a + b == b;
    } else {
      assert (a + b)[1..] == a[1..] + b;
      EscapeConcat(a[1..], b);
      var head := if a[0] == '\t' then "\\\t" else [a[0]];
      assert head + EscapeTabs(a[1..]) + EscapeTabs(b) == head + (EscapeTabs(a[1..]) + EscapeTabs(b));
    }
  }

  lemma {:induction false} EscapeAround(a: string, b: string)
    ensures EscapeTabs(a + ("\n" + b)) == EscapeTabs(a) + "\n" + EscapeTabs(b)
  {
    EscapeConcat(a, "\n" + b);
    assert ("\n" + b)[1..] == b;
    assert EscapeTabs(a) + ("\n" + EscapeTabs(b)) == EscapeTabs(a) + "\n" + EscapeTabs(b);
  }

  lemma {:induction false} BreakInField(field: string, k: nat)
    requires k < |field| && field[k] == '\n'
    ensures EscapeTabs(field) == EscapeTabs(field[..k]) + "\n" + EscapeTabs(field[k + 1..])
  {
    assert field == field[..k] + ("\n" + field[k + 1..]);
    EscapeAround(field[..k], field[k + 1..]);
  }

  lemma {:induction false} FirstFieldOf(first: string, rest: Fields)
    requires rest != []
    ensures Line([first] + rest) == EscapeTabs(first) + "\t" + Line(rest)
  {
    assert ([first] + rest)[1..] == rest;
  }

  lemma Regroup(head: string, before: string, after: string)
    ensures head + (before + "\n" + after) == head + before + "\n" + after
  {
  }

  lemma {:induction false} BreakSplits(fields: Fields)
    requires HasBreak(fields)
    ensures Line(fields) == Line(BeforeBreak(fields)) + "\n" + AfterBreak(fields)
  {
    if '\n' in fields[0] {
      BreakHere(fields);
    } else {
      var rest := fields[1..];
      BreakSplits(rest);
      FirstFieldOf(fields[0], BeforeBreak(rest));
      Regroup(EscapeTabs(fields[0]) + "\t", Line(BeforeBreak(rest)), AfterBreak(rest));
    }
  }

  lemma {:induction false} BreakHere(fields: Fields)
    requires HasBreak(fields) && '\n' in fields[0]
    ensures Line(fields) == Line(BeforeBreak(fields)) + "\n" + AfterBreak(fields)
  {
    var k, rest := IndexOf(fields[0], '\n').value, Line(fields[1..]);
    BreakInField(fields[0], k);
    var before, after := EscapeTabs(fields[0][..k]), EscapeTabs(fields[0][k + 1..]);
    assert before + "\n" + after + "\t" + rest == before + "\n" + (after + "\t" + rest);
  }

  lemma {:induction false} NoBreaksAt(fields: Fields, j: nat)
    requires NoBreaks(fields) && j < |fields|
    ensures '\n' !in fields[j]
  {
    if j > 0 { NoBreaksAt(fields[1..], j - 1); }
  }

  lemma {:induction false} ShortLineRefused(fields: Fields)
    requires 0 < |fields| < DB_NUMBER
    ensures ReadLine(Line(fields)) == None
  {
    FieldCount(fields, []);
    FewerFields(fields);
  }

  /** A line with too few fields rejects the file, whatever follows. */
  lemma {:induction false} BadFirstLine(line: string, rest: string)
    requires '\n' !in line && !(line != [] && line[0] == '#') && ReadLine(line).None?
    ensures Read(line + "\n" + rest) == None
  {
    FirstOf(line, '\n', rest);
    var text := line + "\n" + rest;
    assert line != [] ==> text[0] == line[0];
  }

  lemma {:induction false} LineStart(fields: Fields)
    requires fields != [] && Line(fields) != [] && Line(fields)[0] == '#'
    ensures fields[0] != [] && fields[0][0] == '#'
  {
  }

  /** A broken line is refused: what stands before the break has too few fields. */
  lemma {:induction false} NoBreaksAnywhere(fields: Fields)
    requires NoBreaks(fields)
    ensures forall j :: 0 <= j < |fields| ==> '\n' !in fields[j]
  {
    forall j | 0 <= j < |fields|
      ensures '\n' !in fields[j]
    {
      NoBreaksAt(fields, j);
    }
  }

  /** The line of too few fields that stands before the break. */
  lemma {:induction false} ShortLineFirst(before: Fields, rest: string, text: string)
    requires 0 < |before| < DB_NUMBER && NoBreaks(before) && text == Line(before) + "\n" + rest
    requires before[0] != [] ==> before[0][0] != '#'
    ensures Read(text) == None
  {
    NoBreaksAnywhere(before);
    LineIsOneLine(before);
    ShortLineRefused(before);
    if Line(before) != [] && Line(before)[0] == '#' { LineStart(before); }
    BadFirstLine(Line(before), rest);
  }

  /** A broken line is refused: what stands before the break has too few fields. */
  lemma {:induction false} BreakIsRefused(fields: Fields, rest: string)
    requires RowLike(fields) && HasBreak(fields)
    ensures Read(Line(fields) + "\n" + rest) == None
  {
    BreakSplits(fields);
    var before, after := BeforeBreak(fields), AfterBreak(fields);
    Behind(Line(before), after, rest);
    ShortLineFirst(before, after + "\n" + rest, Line(fields) + "\n" + rest);
  }

  lemma Behind(line: string, after: string, rest: string)
    ensures line + "\n" + after + "\n" + rest == line + "\n" + (after + "\n" + rest)
  {
  }

  /** A row that is not taken for a comment and has no line break in its last field. */
  predicate RowLike(fields: Fields) {
    |fields| == DB_NUMBER && '\n' !in fields[DB_NUMBER - 1] && (fields[0] != [] ==> fields[0][0] != '#')
  }

  predicate AllRowLike(rows: seq<Fields>) {
    rows == [] || (RowLike(rows[0]) && AllRowLike(rows[1..]))
  }

  lemma {:induction false} BreakOrNot(fields: Fields)
    requires fields != [] && '\n' !in fields[|fields| - 1]
    ensures HasBreak(fields) <==> exists j :: 0 <= j < |fields| && '\n' in fields[j]
  {
    if |fields| > 1 {
      BreakOrNot(fields[1..]);
      if HasBreak(fields[1..]) {
        var j :| 0 <= j < |fields[1..]| && '\n' in fields[1..][j];
        assert '\n' in fields[j + 1];
      }
      if j :| 0 <= j < |fields| && '\n' in fields[j] {
        if j > 0 { assert '\n' in fields[1..][j - 1]; }
      }
    }
  }

  lemma {:induction false} FirstRow(fields: Fields, rest: string)
    requires RowLike(fields)
    ensures Read(Line(fields) + "\n" + rest) ==
            if OneLine(fields) && Separable(fields) && Read(rest).Some? then Some([fields] + Read(rest).value) else None
  {
    BreakOrNot(fields);
    if OneLine(fields) { ReadFirst(fields, rest); } else { BreakIsRefused(fields, rest); }
  }

  lemma {:induction false} RowsSplit(row: Fields, rest: seq<Fields>, rows: seq<Fields>)
    requires rows == [row] + rest
    ensures AllOneLine(rows) <==> OneLine(row) && AllOneLine(rest)
    ensures AllSeparable(rows) <==> Separable(row) && AllSeparable(rest)
  {
    assert forall i :: 0 <= i < |rest| ==> rows[i + 1] == rest[i];
  }

  lemma {:induction false} FirstThenRest(
      row: Fields, rest: seq<Fields>, rows: seq<Fields>, others: Option<seq<Fields>>, all: Option<seq<Fields>>)
    requires rows == [row] + rest
    requires others == if AllOneLine(rest) && AllSeparable(rest) then Some(rest) else None
    requires all == if OneLine(row) && Separable(row) && others.Some? then Some([row] + others.value) else None
    ensures all == if AllOneLine(rows) && AllSeparable(rows) then Some(rows) else None
  {
    RowsSplit(row, rest, rows);
  }

  /** The file round trip: the index is read back as written exactly when no field holds a
      line break and no field before the last ends in a backslash; otherwise the whole file
      is refused. Names hold no line breaks: X509_NAME_oneline writes them in hex. */
  lemma {:induction false} FileRoundTrip(rows: seq<Fields>)
    requires AllRowLike(rows)
    ensures Read(Write(rows)) == if AllOneLine(rows) && AllSeparable(rows) then Some(rows) else None
  {
    if rows != [] {
      var rest := rows[1..];
      FileRoundTrip(rest);
      FirstRow(rows[0], Write(rest));
      FirstThenRest(rows[0], rest, rows, Read(Write(rest)), Read(Write(rows)));
    }
  }

  // ------------------------------------------- any file that can be read

  /** Whatever the reader takes apart, the writer can put together again. */
  lemma {:induction false} SplitIsSeparable(text: string, cur: string, esc: bool)
    requires '\n' !in text && '\n' !in cur && esc == EndsInBackslash(cur)
    ensures var fields := SplitTabs(text, cur, esc);
            && fields != [] && Separable(fields) && NoBreaks(fields)
            && (fields[0] != [] && fields[0][0] == '#' ==> (cur + text) != [] && (cur + text)[0] == '#')
    decreases |text|
  {
    if text == [] {
      assert cur + text == cur;
    } else {
      var c, tail := text[0], text[1..];
      assert '\n' !in tail by { assert forall x :: x in tail ==> x in text; }
      if c == '\t' && !esc {
        SplitIsSeparable(tail, [], false);
        assert ([cur] + SplitTabs(tail, [], false))[1..] == SplitTabs(tail, [], false);
      } else if c == '\t' {
        SplitIsSeparable(tail, cur[..|cur| - 1] + "\t", false);
      } else {
        SplitIsSeparable(tail, cur + [c], c == '\\');
      }
    }
  }

  lemma {:induction false} Shortened(fields: Fields, n: nat)
    requires n <= |fields| && Separable(fields) && NoBreaks(fields)
    ensures Separable(fields[..n]) && NoBreaks(fields[..n])
  {
    if 0 < n {
      assert fields[..n][1..] == fields[1..][..n - 1];
      Shortened(fields[1..], n - 1);
    }
  }

  lemma ReadLineIsOneLine(line: string)
    requires '\n' !in line && !(line != [] && line[0] == '#') && ReadLine(line).Some?
    ensures OneLine(ReadLine(line).value) && Separable(ReadLine(line).value)
  {
    var fields := SplitTabs(line, [], false);
    SplitIsSeparable(line, [], false);
    assert [] + line == line;
    Shortened(fields, DB_NUMBER);
    var r := ReadLine(line).value;
    assert r == fields[..DB_NUMBER];
    forall j | 0 <= j < |r|
      ensures '\n' !in r[j]
    {
      NoBreaksAt(r, j);
    }
  }

  /** Every file that can be read consists of rows that can be saved and read again. */
  lemma {:induction false} ReadIsWritable(text: string)
    requires Read(text).Some?
    ensures AllOneLine(Read(text).value) && AllSeparable(Read(text).value)
    decreases |text|
  {
    var p := IndexOf(text, '\n');
    if p.Some? {
      ReadIsWritable(text[p.value + 1..]);
      var line := text[..p.value];
      if !(p.value > 0 && text[0] == '#') {
        assert line != [] ==> line[0] == text[0];
        ReadLineIsOneLine(line);
        var rows := Read(text).value;
        assert rows[1..] == Read(text[p.value + 1..]).value;
      }
    }
  }
}
