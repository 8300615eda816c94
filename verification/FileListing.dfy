/** The file list on the wire: how the server prints its directory and how the client
    reads it back, line by line. */
module FileListing {
  import opened Text
  import opened Decimal
  import opened FileIndex

  // ------------------------------------------------------------ printing

  /** "%s (%lu bytes)" */
  function Entry(f: Listed): string {
    f.name + " (" + Digits(f.size) + " bytes)"
  }

  function Listing(files: seq<Listed>): string {
    if files == [] then [] else Entry(files[0]) + "\n" + Listing(files[1..])
  }

  /** The directory without its own entries "." and "..". */
  function Visible(dir: seq<Listed>): seq<Listed> {
    if dir == [] then []
    else
      var last := dir[|dir| - 1];
      Visible(dir[..|dir| - 1]) + (if last.name != "." && last.name != ".." then [last] else [])
  }

  /** Only the directory's own entries are left out, and the order is kept. */
  lemma {:induction false} VisibleIs(a: seq<Listed>, b: seq<Listed>, f: Listed)
    ensures Visible(a + b) == Visible(a) + Visible(b)
    ensures Visible([]) == [] && Visible([f]) == if f.name == "." || f.name == ".." then [] else [f]
  {
    assert [f][..0] == [] && [] + [f] == [f];
    if b == [] {
      assert a + b == a && Visible(a) + [] == Visible(a);
    } else {
      var n := |b| - 1;
      assert (a + b)[..|a + b| - 1] == a + b[..n];
      VisibleIs(a, b[..n], f);
    }
  }

  lemma {:induction false} ListingGrows(files: seq<Listed>, f: Listed)
    ensures Listing(files + [f]) == Listing(files) + (Entry(f) + "\n")
  {
    if files == [] {
      assert files + [f] == [f] && [f][1..] == [];
      assert Listing([f]) == Entry(f) + "\n" + [] == Entry(f) + "\n";
      assert [] + (Entry(f) + "\n") == Entry(f) + "\n";
    } else {
      assert (files + [f])[1..] == files[1..] + [f];
      ListingGrows(files[1..], f);
      var head := Entry(files[0]) + "\n";
      assert head + (Listing(files[1..]) + (Entry(f) + "\n")) == head + Listing(files[1..]) + (Entry(f) + "\n");
    }
  }

  /** send_file_list and create_file_list: the loop over the directory. */
  method BuildFileList(dir: seq<Listed>) returns (fileList: string)
    ensures fileList == Listing(Visible(dir))
  {
    fileList := "";
    for i := 0 to |dir|
      invariant fileList == Listing(Visible(dir[..i]))
    {
      assert dir[..i + 1][..i] == dir[..i];
      if dir[i].name != "." && dir[i].name != ".." {
        var fileInfo := Entry(dir[i]) + "\n";
        fileList := fileList + fileInfo;
        ListingGrows(Visible(dir[..i]), dir[i]);
      } else {
        assert Visible(dir[..i]) + [] == Visible(dir[..i]);
      }
    }
    assert dir[..|dir|] == dir;
  }

  // ------------------------------------------------------------- parsing

  /** What sscanf assigns; None where it stopped before assigning. */
  datatype Scanned = Scanned(name: Option<string>, size: Option<nat>)

  /** The length of the first word, for %s. */
  function WordRun(s: string): (k: nat)
    ensures k <= |s|
  {
    if s != [] && !IsSpace(s[0]) then WordRun(s[1..]) + 1 else 0
  }

  /** sscanf with "%s (%lu bytes)" or "%s (%d bytes)"; numbers up to `max` fit the target. */
  function Scan(token: string, max: nat): Scanned {
    var word := token[SpaceRun(token)..];
    var n := WordRun(word);
    if n == 0 then Scanned(None, None)
    else
      var name := word[..n];
      var rest := word[n..];
      var bracket := rest[SpaceRun(rest)..];
      if bracket == [] || bracket[0] != '(' then Scanned(Some(name), None)
      else Scanned(Some(name), ScanNumber(bracket[1..], max))
  }

  function ScanNumber(s: string, max: nat): Option<nat> {
    var num := s[SpaceRun(s)..];
    var digits := if num != [] && (num[0] == '+' || num[0] == '-') then num[1..] else num;
    var n := DigitRun(digits);
    if n == 0 then None
    else Some(Limited(Value(digits[..n]), num[0] == '-', max))
  }

  /** The lines of a text that are not empty (strtok with newline as delimiter). */
  function Tokens(text: string): seq<string>
    decreases |text|
  {
    match IndexOf(text, '\n')
    case None => if text == [] then [] else [text]
    case Some(p) => (if p == 0 then [] else [text[..p]]) + Tokens(text[p + 1..])
  }

  function ScanAll(tokens: seq<string>, max: nat): (r: seq<Scanned>)
    ensures |r| == |tokens|
    ensures forall i :: 0 <= i < |r| ==> r[i] == Scan(tokens[i], max)
  {
    seq(|tokens|, i requires 0 <= i < |tokens| => Scan(tokens[i], max))
  }

  /** The token at the front, empty if a newline is there, and the text behind it. */
  function FrontToken(text: string): (string, string) {
    match IndexOf(text, '\n')
    case None => (text, "")
    case Some(p) => (text[..p], text[p + 1..])
  }

  lemma {:induction false} TokensFromFront(text: string)
    requires text != []
    ensures var (token, next) := FrontToken(text);
            Tokens(text) == (if token == [] then [] else [token]) + Tokens(next) && |next| < |text|
  {
    var (token, next) := FrontToken(text);
    if IndexOf(text, '\n').None? {
      assert Tokens("") == [] && [text] + [] == [text];
    }
  }

  lemma MoreTokens(before: seq<string>, front: seq<string>, rest: seq<string>)
    ensures before + (front + rest) == before + front + rest
    ensures before + [] == before
  {
  }

  lemma ScanAllGrows(tokens: seq<string>, token: string, max: nat)
    ensures ScanAll(tokens + [token], max) == ScanAll(tokens, max) + [Scan(token, max)]
  {
  }

  /** The strtok loop of the client. */
  method ParseList(fileInfo: string, max: nat) returns (entries: seq<Scanned>)
    ensures entries == ScanAll(Tokens(fileInfo), max)
  {
    entries := [];
    var rest := fileInfo;
    ghost var tokens: seq<string> := [];
    while rest != []
      invariant entries == ScanAll(tokens, max)
      invariant tokens + Tokens(rest) == Tokens(fileInfo)
      decreases |rest|
    {
      TokensFromFront(rest);
      var (token, next) := FrontToken(rest);
      ghost var front := if token == [] then [] else [token];
      MoreTokens(tokens, front, Tokens(next));
      if token != [] {
        ScanAllGrows(tokens, token, max);
        entries := entries + [Scan(token, max)];
      }
      tokens := tokens + front;
      rest := next;
    }
    MoreTokens(tokens, [], []);
  }

  lemma {:induction false} TokenFirst(front: string, rest: string, text: string)
    requires '\n' !in front && text == front + "\n" + rest
    ensures Tokens(text) == (if front == [] then [] else [front]) + Tokens(rest)
  {
    FirstOf(front, '\n', rest);
    assert front + ['\n'] + rest == text;
  }

  /** The tokens hold no newline and are not empty; a newline parts the text in two. */
  lemma {:induction false} TextParts(a: string, b: string)
    ensures Tokens(a + "\n" + b) == Tokens(a) + Tokens(b)
    ensures a != [] && '\n' !in a ==> Tokens(a) == [a]
    ensures Tokens([]) == []
  {
    TextPartsAt(a, b, a + "\n" + b);
  }

  lemma {:induction false} TextPartsAt(a: string, b: string, text: string)
    requires text == a + "\n" + b
    ensures Tokens(text) == Tokens(a) + Tokens(b)
    decreases |a|
  {
    if '\n' !in a {
      TokenFirst(a, b, text);
    } else {
      var p := IndexOf(a, '\n').value;
      var front, rest := a[..p], a[p + 1..];
      var behind := rest + "\n" + b;
      TextPartsAt(rest, b, behind);
      SplitAround(front, rest, b, a, text);
      TokenFirst(front, rest, a);
      TokenFirst(front, behind, text);
      MoreTokens(if front == [] then [] else [front], Tokens(rest), Tokens(b));
    }
  }

  lemma SplitAround(front: string, rest: string, b: string, a: string, text: string)
    requires |a| == |front| + 1 + |rest| && a[..|front|] == front && a[|front|] == '\n' && a[|front| + 1..] == rest
    requires text == a + "\n" + b
    ensures a == front + "\n" + rest && text == front + "\n" + (rest + "\n" + b)
  {
    assert a == front + "\n" + rest;
  }

  // ---------------------------------------------------------- round trip

  predicate Plain(name: string) {
    name != "" && forall i :: 0 <= i < |name| ==> !IsSpace(name[i])
  }

  lemma {:induction false} WordEnds(word: string, rest: string)
    requires forall i :: 0 <= i < |word| ==> !IsSpace(word[i])
    requires rest == [] || IsSpace(rest[0])
    ensures WordRun(word + rest) == |word|
  {
    if word == [] {
      assert word + rest == rest;
    } else {
      assert (word + rest)[1..] == word[1..] + rest;
      WordEnds(word[1..], rest);
    }
  }

  lemma {:induction false} NumberScanned(n: nat, max: nat)
    requires n <= max
    ensures ScanNumber(Digits(n) + " bytes)", max) == Some(n)
  {
    var s := Digits(n) + " bytes)";
    assert !IsSpace(s[0]) && s[SpaceRun(s)..] == s;
    ReadBack(n, " bytes)");
  }

  lemma {:induction false} ScannedNameIsPlain(s: string)
    ensures forall i :: 0 <= i < WordRun(s) ==> !IsSpace(s[i])
  {
    if s != [] && !IsSpace(s[0]) {
      ScannedNameIsPlain(s[1..]);
      assert forall i :: 0 < i < WordRun(s) ==> s[i] == s[1..][i - 1];
    }
  }

  /** A name, a blank and the size in brackets, as sscanf takes them apart. */
  lemma {:induction false} ScannedParts(name: string, number: string, max: nat)
    requires Plain(name)
    ensures Scan(name + (" (" + number), max) == Scanned(Some(name), ScanNumber(number, max))
  {
    var tail := " (" + number;
    var token := name + tail;
    assert SpaceRun(token) == 0 && token[0..] == token;
    WordEnds(name, tail);
    assert token[..|name|] == name && token[|name|..] == tail;
    assert tail[1..] == "(" + number && SpaceRun(tail[1..]) == 0;
    assert tail[1..][1..] == number;
    assert tail[SpaceRun(tail)..] == tail[1..];
  }

  lemma {:induction false} PlainEntryScanned(f: Listed, max: nat)
    requires Plain(f.name) && f.size <= max
    ensures Scan(Entry(f), max) == Scanned(Some(f.name), Some(f.size))
  {
    var number := Digits(f.size) + " bytes)";
    assert Entry(f) == f.name + (" (" + number);
    ScannedParts(f.name, number, max);
    NumberScanned(f.size, max);
  }

  /** One line is read back as it was printed exactly if the name is not empty and has no blanks. */
  lemma EntryRoundTrip(f: Listed, max: nat)
    requires f.size <= max
    ensures Scan(Entry(f), max) == Scanned(Some(f.name), Some(f.size)) <==> Plain(f.name)
  {
    if Plain(f.name) {
      PlainEntryScanned(f, max);
    } else {
      var word := Entry(f)[SpaceRun(Entry(f))..];
      ScannedNameIsPlain(word);
    }
  }

  lemma WordBehind(blanks: string, word: string, rest: string, token: string)
    requires token == blanks + (word + rest)
    ensures token[|blanks|..] == word + rest && (word + rest)[..|word|] == word && (word + rest)[|word|..] == rest
  {
  }

  /** What sscanf reads of any token: blanks, a word, blanks, and the number if a bracket
      stands before it. */
  lemma {:induction false} ScanIs(blanks: string, word: string, gap: string, rest: string, max: nat)
    requires forall i :: 0 <= i < |blanks| ==> blanks[i] as int == 32 || 9 <= blanks[i] as int <= 13
    requires forall i :: 0 <= i < |gap| ==> gap[i] as int == 32 || 9 <= gap[i] as int <= 13
    requires Plain(word) && (gap == [] ==> rest == [])
    requires rest == [] || !(rest[0] as int == 32 || 9 <= rest[0] as int <= 13)
    ensures Scan(blanks + (word + (gap + rest)), max) ==
            Scanned(Some(word), if rest != [] && rest[0] == '(' then ScanNumber(rest[1..], max) else None)
  {
    var tail := gap + rest;
    assert (word + tail)[0] == word[0];
    BlanksSkipped(blanks, word + tail);
    WordBehind(blanks, word, tail, blanks + (word + tail));
    assert tail == [] || IsSpace(tail[0]);
    WordEnds(word, tail);
    BlanksSkipped(gap, rest);
    assert tail[|gap|..] == rest;
  }

  /** Blanks alone are no word. */
  lemma {:induction false} ScanBlank(blanks: string, max: nat)
    requires forall i :: 0 <= i < |blanks| ==> blanks[i] as int == 32 || 9 <= blanks[i] as int <= 13
    ensures Scan(blanks, max) == Scanned(None, None)
  {
    BlanksSkipped(blanks, []);
    assert blanks + [] == blanks;
  }

  lemma {:induction false} ScanNumberAt(s: string, max: nat, blanks: nat, sign: nat, negative: bool, d: string)
    requires NumberAt(s, blanks, sign, negative, d)
    ensures ScanNumber(s, max) == Some(Limited(Value(d), negative, max))
  {
    var num := s[blanks..];
    assert num[0] == s[blanks] && num[sign..] == s[blanks + sign..] && num[0..] == num;
  }

  /** The number: blanks, at most one sign, digits; what follows does not matter. */
  lemma {:induction false} NumberIs(blanks: string, sign: string, d: string, rest: string, s: string, max: nat)
    requires forall i :: 0 <= i < |blanks| ==> blanks[i] as int == 32 || 9 <= blanks[i] as int <= 13
    requires sign in {"", "+", "-"} && AllDigits(d) && d != [] && (rest == [] || !IsDigit(rest[0]))
    requires s == blanks + (sign + (d + rest))
    ensures ScanNumber(s, max) == Some(Limited(Value(d), sign == "-", max))
  {
    NumberParts(blanks, sign, d, rest, s);
    ScanNumberAt(s, max, |blanks|, |sign|, sign == "-", d);
  }

  predicate AllPlain(files: seq<Listed>, max: nat) {
    forall i :: 0 <= i < |files| ==> Plain(files[i].name) && files[i].size <= max
  }

  lemma EntryIsOneLine(f: Listed)
    requires Plain(f.name)
    ensures Entry(f) != [] && '\n' !in Entry(f)
  {
    var d := Digits(f.size);
    assert forall i :: 0 <= i < |d| ==> d[i] != '\n';
    assert '\n' !in f.name;
  }

  function EntryTexts(files: seq<Listed>): (r: seq<string>)
    ensures |r| == |files|
  {
    if files == [] then [] else [Entry(files[0])] + EntryTexts(files[1..])
  }

  lemma {:induction false} EntryTextAt(files: seq<Listed>, i: nat)
    requires i < |files|
    ensures EntryTexts(files)[i] == Entry(files[i])
  {
    if i > 0 {
      EntryTextAt(files[1..], i - 1);
      assert EntryTexts(files)[i] == EntryTexts(files[1..])[i - 1];
    }
  }

  lemma {:induction false} ListingTokens(files: seq<Listed>)
    requires forall i :: 0 <= i < |files| ==> Plain(files[i].name)
    ensures Tokens(Listing(files)) == EntryTexts(files)
  {
    if files != [] {
      var rest := files[1..];
      EntryIsOneLine(files[0]);
      FirstOf(Entry(files[0]), '\n', Listing(rest));
      ListingTokens(rest);
    }
  }

  lemma {:induction false} PlainListReadBack(files: seq<Listed>, max: nat)
    requires AllPlain(files, max)
    ensures ReadBackAs(ScanAll(Tokens(Listing(files)), max), files)
  {
    ListingTokens(files);
    forall i | 0 <= i < |files|
      ensures Scan(EntryTexts(files)[i], max) == Scanned(Some(files[i].name), Some(files[i].size))
    {
      EntryTextAt(files, i);
      PlainEntryScanned(files[i], max);
    }
  }

  predicate ReadBackAs(entries: seq<Scanned>, files: seq<Listed>) {
    && |entries| == |files|
    && forall i :: 0 <= i < |files| ==> entries[i] == Scanned(Some(files[i].name), Some(files[i].size))
  }

  lemma ScannedIsPlain(token: string, max: nat)
    requires Scan(token, max).name.Some?
    ensures Plain(Scan(token, max).name.value)
  {
    ScannedNameIsPlain(token[SpaceRun(token)..]);
  }

  /** For sizes that fit, the whole list is read back as printed, entry by entry and in
      order, if and only if no name is empty or holds a blank. */
  lemma {:induction false} ListRoundTrip(files: seq<Listed>, max: nat)
    requires forall i :: 0 <= i < |files| ==> files[i].size <= max
    ensures ReadBackAs(ScanAll(Tokens(Listing(files)), max), files) <==>
            forall i :: 0 <= i < |files| ==> Plain(files[i].name)
  {
    var tokens := Tokens(Listing(files));
    if ReadBackAs(ScanAll(tokens, max), files) {
      forall i | 0 <= i < |files|
        ensures Plain(files[i].name)
      {
        ScannedIsPlain(tokens[i], max);
      }
    }
    if forall i :: 0 <= i < |files| ==> Plain(files[i].name) {
      PlainListReadBack(files, max);
    }
  }

  /** strstr(text, part) != NULL */
  predicate Contains(text: string, part: string) {
    IsPrefix(part, text) || (text != [] && Contains(text[1..], part))
  }

  /** A part is contained exactly if it stands somewhere in the text. */
  lemma {:induction false} ContainsExactlyIf(text: string, part: string)
    ensures Contains(text, part) <==> exists i: nat :: StandsAt(text, part, i)
  {
    if i: nat :| StandsAt(text, part, i) {
      ContainsMiddle(text[..i], part, text[i + |part|..]);
      assert text[..i] + part + text[i + |part|..] == text;
    }
    if Contains(text, part) {
      assert StandsAt(text, part, PartAt(text, part));
    }
  }

  predicate StandsAt(text: string, part: string, i: nat) {
    i + |part| <= |text| && text[i..i + |part|] == part
  }

  /** Where the part stands first. */
  function PartAt(text: string, part: string): (i: nat)
    requires Contains(text, part)
    ensures i + |part| <= |text| && text[i..i + |part|] == part
  {
    if IsPrefix(part, text) then 0
    else
      var k := PartAt(text[1..], part);
      assert text[k + 1..k + 1 + |part|] == text[1..][k..k + |part|];
      k + 1
  }

  lemma {:induction false} ContainsMiddle(before: string, part: string, after: string)
    ensures Contains(before + part + after, part)
  {
    var text := before + part + after;
    if before == [] {
      assert text[..|part|] == part;
    } else {
      assert text[1..] == before[1..] + part + after;
      ContainsMiddle(before[1..], part, after);
    }
  }

  lemma {:induction false} FirstLine(files: seq<Listed>)
    requires files != []
    ensures Listing(files) == Entry(files[0]) + "\n" + Listing(files[1..])
  {
  }

  lemma Assoc(a: string, b: string, c: string)
    ensures a + (b + c) == a + b + c
  {
  }

  lemma {:induction false} ListingSplits(files: seq<Listed>, k: nat)
    requires k < |files|
    ensures Listing(files) == Listing(files[..k]) + (Entry(files[k]) + "\n" + Listing(files[k + 1..]))
  {
    FirstLine(files);
    if k == 0 {
      Assoc([], Entry(files[0]) + "\n", Listing(files[1..]));
    } else {
      var rest, front := files[1..], files[..k];
      ListingSplits(rest, k - 1);
      FirstLine(front);
      assert rest[..k - 1] == front[1..] && rest[k..] == files[k + 1..];
      Assoc(Entry(files[0]) + "\n", Listing(front[1..]), Entry(files[k]) + "\n" + Listing(files[k + 1..]));
    }
  }

  lemma Regroup(a: string, b: string, c: string, d: string)
    ensures a + (b + c + d) == a + b + (c + d)
  {
  }

  lemma EntryStarts(f: Listed, rest: string)
    ensures Entry(f) + "\n" + rest == f.name + (" (" + Digits(f.size) + " bytes)") + ("\n" + rest)
  {
    Regroup(f.name, " (", Digits(f.size), " bytes)");
    assert f.name + " (" + Digits(f.size) + " bytes)" == f.name + (" (" + Digits(f.size) + " bytes)");
  }

  /** Every file has a line of its own in the list. */
  lemma {:induction false} ListingIs(files: seq<Listed>, k: nat)
    requires k < |files|
    ensures Listing([]) == ""
    ensures Listing(files) ==
            Listing(files[..k]) + files[k].name + " (" + Digits(files[k].size) + " bytes)\n" + Listing(files[k + 1..])
  {
    ListingSplits(files, k);
    var name, digits := files[k].name, Digits(files[k].size);
    assert Entry(files[k]) + "\n" == name + " (" + digits + " bytes)\n";
    SplitText(Listing(files[..k]), name, digits, Listing(files[k + 1..]));
  }

  lemma SplitText(before: string, name: string, digits: string, after: string)
    ensures before + (name + " (" + digits + " bytes)\n" + after) ==
            before + name + " (" + digits + " bytes)\n" + after
  {
  }

  /** The server's check lets every listed name pass. */
  lemma {:induction false} ListedNamePasses(files: seq<Listed>, k: nat)
    requires k < |files|
    ensures Contains(Listing(files), files[k].name)
  {
    var before, name, rest := Listing(files[..k]), files[k].name, Listing(files[k + 1..]);
    var suffix := " (" + Digits(files[k].size) + " bytes)";
    ListingSplits(files, k);
    EntryStarts(files[k], rest);
    Regroup(before, name, suffix, "\n" + rest);
    ContainsMiddle(before, name, suffix + ("\n" + rest));
  }
}
