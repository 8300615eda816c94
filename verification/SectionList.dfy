/** The section list of the cmp command: a comma- or space-separated list of configuration
    sections, scanned from its end so that later sections override earlier ones. */
module SectionList {
  import opened Text

  const SECTION_NAME_MAX := 40
  const DEFAULT := "default"

  predicate Separates(c: char) {
    c == ',' || IsSpace(c)
  }

  /** The name that is under way behind the first `n` characters, read forwards. */
  function Word(opt: string, n: nat): (word: string)
    requires n <= |opt|
    ensures n > 0 && !Separates(opt[n - 1]) ==> word != []
  {
    if n == 0 || Separates(opt[n - 1]) then [] else Word(opt, n - 1) + [opt[n - 1]]
  }

  /** The names that a separator has ended. */
  function Ended(opt: string, n: nat): seq<string>
    requires n <= |opt|
  {
    if n == 0 then []
    else if Separates(opt[n - 1]) then Ended(opt, n - 1) + OneName(Word(opt, n - 1))
    else Ended(opt, n - 1)
  }

  function OneName(word: string): seq<string> {
    if word == [] then [] else [word]
  }

  /** The names in the first `n` characters. */
  function NamesTo(opt: string, n: nat): seq<string>
    requires n <= |opt|
  {
    Ended(opt, n) + OneName(Word(opt, n))
  }

  function Names(opt: string): seq<string> {
    NamesTo(opt, |opt|)
  }

  predicate EndsInSeparator(opt: string) {
    opt != [] && Separates(opt[|opt| - 1])
  }

  function Truncated(name: string): (item: string)
    ensures item <= name && |item| <= SECTION_NAME_MAX
    ensures |name| <= SECTION_NAME_MAX ==> item == name
  {
    if |name| > SECTION_NAME_MAX then name[..SECTION_NAME_MAX] else name
  }

  /** Last name first, each cut to the size of the item buffer. */
  function Backwards(names: seq<string>): (items: seq<string>)
    ensures |items| == |names|
  {
    if names == [] then [] else [Truncated(names[|names| - 1])] + Backwards(names[..|names| - 1])
  }

  lemma {:induction false} BackwardsGrows(names: seq<string>, name: string)
    ensures Backwards(names + [name]) == [Truncated(name)] + Backwards(names)
  {
    assert (names + [name])[..|names|] == names;
  }

  // ------------------------------------------------------ scanning backwards

  /** Where the run of name characters that ends at `end` begins. */
  function WordStart(opt: string, end: nat): (beg: nat)
    requires end <= |opt|
    ensures beg <= end
  {
    if end == 0 || Separates(opt[end - 1]) then end else WordStart(opt, end - 1)
  }

  /** Where the run of separators that ends at `end` begins. */
  function GapStart(opt: string, end: nat): (beg: nat)
    requires end <= |opt|
    ensures beg <= end && (beg > 0 ==> !Separates(opt[beg - 1]))
    ensures end > 0 && Separates(opt[end - 1]) ==> beg < end
  {
    if end == 0 || !Separates(opt[end - 1]) then end else GapStart(opt, end - 1)
  }

  /** The items that repeated calls of prev_item yield. */
  function Items(opt: string, end: nat): seq<string>
    requires end <= |opt|
    decreases end
  {
    if end == 0 then []
    else
      var beg := WordStart(opt, end);
      [Truncated(opt[beg..end])] + Items(opt, GapStart(opt, beg))
  }

  lemma {:induction false} SeparatorAddsNoName(opt: string, n: nat)
    requires 0 < n <= |opt| && Separates(opt[n - 1])
    ensures NamesTo(opt, n) == NamesTo(opt, n - 1) && GapStart(opt, n) == GapStart(opt, n - 1)
  {
    assert NamesTo(opt, n - 1) + [] == NamesTo(opt, n - 1);
  }

  lemma {:induction false} GapAddsNoName(opt: string, n: nat, beg: nat)
    requires n <= |opt| && beg == GapStart(opt, n)
    ensures NamesTo(opt, beg) == NamesTo(opt, n)
  {
    if beg < n {
      SeparatorAddsNoName(opt, n);
      GapAddsNoName(opt, n - 1, beg);
    }
  }

  /** The name under way is the run of name characters; no name has ended inside it. */
  lemma {:induction false} WordIsRun(opt: string, n: nat)
    requires n <= |opt|
    ensures var beg := WordStart(opt, n);
            Word(opt, n) == opt[beg..n] && Ended(opt, n) == NamesTo(opt, beg)
  {
    var beg := WordStart(opt, n);
    if beg == n {
      assert opt[n..n] == [] && Ended(opt, n) + [] == Ended(opt, n);
    } else {
      WordIsRun(opt, n - 1);
      assert opt[beg..n - 1] + [opt[n - 1]] == opt[beg..n];
    }
  }

  lemma {:induction false} WordIsName(opt: string, n: nat)
    requires 0 < n <= |opt| && !Separates(opt[n - 1])
    ensures var beg := WordStart(opt, n);
            beg < n && NamesTo(opt, n) == NamesTo(opt, beg) + [opt[beg..n]]
  {
    WordIsRun(opt, n);
  }

  lemma {:induction false} ItemsAreNames(opt: string, end: nat)
    requires end <= |opt| && (end > 0 ==> !Separates(opt[end - 1]))
    ensures Items(opt, end) == Backwards(NamesTo(opt, end))
    decreases end
  {
    if end > 0 {
      WordIsName(opt, end);
      var beg := WordStart(opt, end);
      GapAddsNoName(opt, beg, GapStart(opt, beg));
      ItemsAreNames(opt, GapStart(opt, beg));
      BackwardsGrows(NamesTo(opt, beg), opt[beg..end]);
    }
  }

  /** What is scanned: the names of the list in reverse, each cut to 40 characters. A list
      that ends in a separator yields an empty item before them. */
  lemma {:induction false} ScansNamesInReverse(opt: string)
    ensures Items(opt, |opt|) ==
            (if EndsInSeparator(opt) then [""] else []) + Backwards(Names(opt))
  {
    var n := |opt|;
    if EndsInSeparator(opt) {
      EmptyItemFirst(opt, n, GapStart(opt, n));
      ItemsAreNames(opt, GapStart(opt, n));
    } else {
      ItemsAreNames(opt, n);
      assert [] + Items(opt, n) == Items(opt, n);
    }
  }

  lemma {:induction false} EmptyItemFirst(opt: string, n: nat, beg: nat)
    requires 0 < n <= |opt| && Separates(opt[n - 1]) && beg == GapStart(opt, n)
    ensures Items(opt, n) == [""] + Items(opt, beg) && NamesTo(opt, beg) == NamesTo(opt, n)
  {
    GapAddsNoName(opt, n, beg);
    assert opt[n..n] == "";
  }

  function NameCharacters(opt: string, n: nat): string
    requires n <= |opt|
  {
    if n == 0 then []
    else NameCharacters(opt, n - 1) + (if Separates(opt[n - 1]) then [] else [opt[n - 1]])
  }

  predicate IsName(name: string) {
    name != [] && forall i :: 0 <= i < |name| ==> !Separates(name[i])
  }

  predicate AllNames(names: seq<string>) {
    forall i :: 0 <= i < |names| ==> IsName(names[i])
  }

  lemma {:induction false} OneMoreName(names: seq<string>, word: string)
    requires AllNames(names) && (word != [] ==> IsName(word))
    ensures AllNames(names + OneName(word)) && Concat(names + OneName(word)) == Concat(names) + word
  {
    if word == [] {
      assert names + [] == names && Concat(names) + [] == Concat(names);
    } else {
      ConcatGrows(names, word);
    }
  }

  /** The ended names and the one under way hold every character that does not separate. */
  lemma {:induction false} PartsHoldTheList(opt: string, n: nat)
    requires n <= |opt|
    ensures AllNames(Ended(opt, n)) && (Word(opt, n) != [] ==> IsName(Word(opt, n)))
    ensures Concat(Ended(opt, n)) + Word(opt, n) == NameCharacters(opt, n)
  {
    if n > 0 {
      PartsHoldTheList(opt, n - 1);
      if Separates(opt[n - 1]) {
        SeparatorHeld(Ended(opt, n - 1), Word(opt, n - 1), NameCharacters(opt, n - 1));
      } else {
        CharacterHeld(Ended(opt, n - 1), Word(opt, n - 1), NameCharacters(opt, n - 1), opt[n - 1]);
      }
    }
  }

  lemma SeparatorHeld(names: seq<string>, word: string, held: string)
    requires AllNames(names) && (word != [] ==> IsName(word)) && Concat(names) + word == held
    ensures AllNames(names + OneName(word)) && Concat(names + OneName(word)) + [] == held + []
  {
    OneMoreName(names, word);
  }

  lemma CharacterHeld(names: seq<string>, word: string, held: string, c: char)
    requires !Separates(c) && (word != [] ==> IsName(word)) && Concat(names) + word == held
    ensures IsName(word + [c]) && Concat(names) + (word + [c]) == held + [c]
  {
  }

  /** The names hold every character of the list that is not a separator, in order. */
  lemma {:induction false} NamesHoldTheList(opt: string, n: nat)
    requires n <= |opt|
    ensures AllNames(NamesTo(opt, n)) && Concat(NamesTo(opt, n)) == NameCharacters(opt, n)
  {
    PartsHoldTheList(opt, n);
    OneMoreName(Ended(opt, n), Word(opt, n));
  }

  /** Commas and blanks separate: they are in no name. */
  lemma {:induction false} NamesAreFree(opt: string, i: nat)
    requires i < |Names(opt)|
    ensures var name := Names(opt)[i];
            name != [] && forall k :: 0 <= k < |name| ==>
              name[k] != ',' && name[k] as int != 32 && !(9 <= name[k] as int <= 13)
  {
    NamesHoldTheList(opt, |opt|);
    assert IsName(Names(opt)[i]);
  }

  lemma {:induction false} FrontOfList(a: string, opt: string, n: nat)
    requires n <= |a| <= |opt| && forall i :: 0 <= i < |a| ==> opt[i] == a[i]
    ensures Word(opt, n) == Word(a, n) && Ended(opt, n) == Ended(a, n)
  {
    if n > 0 { FrontOfList(a, opt, n - 1); }
  }

  /** `opt` is `a`, a separator and `b`. */
  predicate Parted(opt: string, a: string, b: string) {
    && |opt| == |a| + 1 + |b| && Separates(opt[|a|])
    && (forall i :: 0 <= i < |a| ==> opt[i] == a[i])
    && (forall i :: 0 <= i < |b| ==> opt[|a| + 1 + i] == b[i])
  }

  /** Behind a separator the list is read as if it began there. */
  lemma {:induction false} BackOfList(a: string, b: string, opt: string, n: nat)
    requires Parted(opt, a, b) && n <= |b|
    ensures Word(opt, |a| + 1 + n) == Word(b, n)
    ensures Ended(opt, |a| + 1 + n) == Names(a) + Ended(b, n)
  {
    if n == 0 {
      FrontOfList(a, opt, |a|);
      assert Names(a) + [] == Names(a);
    } else {
      BackOfList(a, b, opt, n - 1);
      OneFurther(b, opt, |a| + 1, n, Names(a));
    }
  }

  lemma {:induction false} OneFurther(b: string, opt: string, start: nat, n: nat, front: seq<string>)
    requires 0 < n <= |b| && start + n <= |opt| && opt[start + n - 1] == b[n - 1]
    requires Word(opt, start + n - 1) == Word(b, n - 1) && Ended(opt, start + n - 1) == front + Ended(b, n - 1)
    ensures Word(opt, start + n) == Word(b, n) && Ended(opt, start + n) == front + Ended(b, n)
  {
    var word := OneName(Word(b, n - 1));
    assert front + Ended(b, n - 1) + word == front + (Ended(b, n - 1) + word);
  }

  lemma {:induction false} NamesOfParts(a: string, b: string, opt: string)
    requires Parted(opt, a, b)
    ensures Names(opt) == Names(a) + Names(b)
  {
    BackOfList(a, b, opt, |b|);
    var word := OneName(Word(b, |b|));
    assert Names(a) + Ended(b, |b|) + word == Names(a) + (Ended(b, |b|) + word);
  }

  lemma {:induction false} WholeWord(word: string, n: nat)
    requires n <= |word| && forall i :: 0 <= i < |word| ==> !Separates(word[i])
    ensures Word(word, n) == word[..n] && Ended(word, n) == []
  {
    if n > 0 {
      WholeWord(word, n - 1);
      assert word[..n - 1] + [word[n - 1]] == word[..n];
    }
  }

  lemma PartedHere(a: string, c: char, b: string, opt: string)
    requires Separates(c) && opt == a + [c] + b
    ensures Parted(opt, a, b)
  {
  }

  /** A comma or a blank parts a list in two. */
  lemma {:induction false} ListParts(a: string, c: char, b: string)
    requires c == ',' || c as int == 32 || 9 <= c as int <= 13
    ensures Names(a + [c] + b) == Names(a) + Names(b)
  {
    PartedHere(a, c, b, a + [c] + b);
    NamesOfParts(a, b, a + [c] + b);
  }

  /** A text without them is one name. */
  lemma {:induction false} SingleName(a: string)
    requires a != [] && forall i :: 0 <= i < |a| ==> a[i] != ',' && a[i] as int != 32 && !(9 <= a[i] as int <= 13)
    ensures Names(a) == [a]
  {
    WholeWord(a, |a|);
    assert a[..|a|] == a && [] + [a] == [a];
  }

  /** Two names with any separator between them. */
  lemma {:induction false} TwoNames(a: string, c: char, b: string)
    requires c == ',' || c as int == 32 || 9 <= c as int <= 13
    requires a != [] && forall i :: 0 <= i < |a| ==> a[i] != ',' && a[i] as int != 32 && !(9 <= a[i] as int <= 13)
    requires b != [] && forall i :: 0 <= i < |b| ==> b[i] != ',' && b[i] as int != 32 && !(9 <= b[i] as int <= 13)
    ensures Names(a + [c] + b) == [a, b]
  {
    ListParts(a, c, b);
    SingleName(a);
    SingleName(b);
  }

  // ------------------------------------------------------------- the lookup

  /** A configuration: what each section itself gives for the wanted name. */
  type Config = string -> Option<string>

  /** The library's lookup: a section without the name falls back to the default section. */
  function TryString(own: Config, section: string): Option<string> {
    if own(section).Some? then own(section) else own(DEFAULT)
  }

  function FirstFound(own: Config, items: seq<string>): Option<string> {
    if items == [] then None
    else if TryString(own, items[0]).Some? then TryString(own, items[0])
    else FirstFound(own, items[1..])
  }

  /** The first of the items for which the section, or else the section "default", has a
      value; section names are 40 characters long at most. */
  lemma {:induction false} FirstFoundIs(own: Config, items: seq<string>, k: nat)
    requires k <= |items| && forall i :: 0 <= i < k ==> own(items[i]).None? && own("default").None?
    ensures k == |items| ==> FirstFound(own, items) == None
    ensures k < |items| && own(items[k]).Some? ==> FirstFound(own, items) == own(items[k])
    ensures k < |items| && own(items[k]).None? && own("default").Some? ==> FirstFound(own, items) == own("default")
  {
    if k > 0 {
      assert forall i :: 0 <= i < k - 1 ==> items[1..][i] == items[i + 1];
      assert TryString(own, items[0]).None?;
      FirstFoundIs(own, items[1..], k - 1);
    }
  }

  lemma CutAt40(name: string)
    ensures Truncated(name) == if |name| <= 40 then name else name[..40]
  {
  }

  /** What the last of the named sections that defines the name itself gives for it. */
  function LastDefinition(own: Config, names: seq<string>): Option<string> {
    if names == [] then None
    else
      var last := own(Truncated(names[|names| - 1]));
      if last.Some? then last else LastDefinition(own, names[..|names| - 1])
  }

  /** The intended value: the last listed definition, or else the default section's. */
  function Intended(own: Config, names: seq<string>): Option<string> {
    if names == [] then None
    else if LastDefinition(own, names).Some? then LastDefinition(own, names)
    else own(DEFAULT)
  }

  lemma {:induction false} WithoutDefault(own: Config, names: seq<string>)
    requires own(DEFAULT).None?
    ensures FirstFound(own, Backwards(names)) == LastDefinition(own, names)
  {
    if names != [] {
      var items := Backwards(names);
      assert items[1..] == Backwards(names[..|names| - 1]);
      WithoutDefault(own, names[..|names| - 1]);
    }
  }

  /** With a default definition only the last listed section is ever asked. */
  lemma {:induction false} WithDefault(own: Config, names: seq<string>)
    requires own(DEFAULT).Some? && names != []
    ensures FirstFound(own, Backwards(names)) == TryString(own, Truncated(names[|names| - 1]))
  {
  }

  /** For a list that does not end in a separator, later sections override earlier ones,
      and these the default section, if and only if the default section does not define
      the name, or the last listed section does, or no listed section does or the last one
      that does agrees with the default. */
  lemma {:induction false} LaterSectionsOverride(own: Config, opt: string)
    requires !EndsInSeparator(opt)
    ensures var names := Names(opt);
            FirstFound(own, Items(opt, |opt|)) == Intended(own, names) <==>
            || names == [] || own(DEFAULT).None?
            || own(Truncated(names[|names| - 1])).Some?
            || LastDefinition(own, names) in {None, own(DEFAULT)}
  {
    var names := Names(opt);
    ScansNamesInReverse(opt);
    assert [] + Backwards(names) == Backwards(names);
    if names != [] {
      if own(DEFAULT).None? { WithoutDefault(own, names); } else { WithDefault(own, names); }
    }
  }

  /** A list that ends in a separator asks the section with the empty name first, and so
      skips every listed section if the default section defines the name. */
  lemma {:induction false} TrailingSeparator(own: Config, opt: string)
    requires EndsInSeparator(opt)
    ensures FirstFound(own, Items(opt, |opt|)) ==
            (if TryString(own, "").Some? then TryString(own, "") else LastDefinition(own, Names(opt)))
  {
    ScansNamesInReverse(opt);
    var tail := Backwards(Names(opt));
    assert ([""] + tail)[1..] == tail;
    if own(DEFAULT).None? { WithoutDefault(own, Names(opt)); }
  }

  /** A listed definition that is lost: in the list "a,b" section a defines the name, b
      does not, and the default section defines it differently. */
  lemma ListedDefinitionLost(own: Config)
    requires own("a") == Some("1") && own("b") == None && own(DEFAULT) == Some("2")
    ensures Intended(own, Names("a,b")) == Some("1") && FirstFound(own, Items("a,b", 3)) == Some("2")
  {
    var names := [['a'], ['b']];
    TwoNames("a", ',', "b");
    assert "a" + [','] + "b" == "a,b";
    ScansNamesInReverse("a,b");
    WithDefault(own, names);
    assert names[..1] == [['a']] && ['a'] == "a" && ['b'] == "b";
    assert LastDefinition(own, [['a']]) == Some("1");
    assert [] + Backwards(names) == Backwards(names);
  }

  // ------------------------------------------------------------ the program

  class Scanner {
    /** The static buffer that receives each item. */
    var optItem: string

    constructor () {
      optItem := "";
    }

    method PrevItem(opt: string, end: nat) returns (next: Option<nat>)
      requires end <= |opt|
      modifies this
      ensures next.None? <==> end == 0
      ensures next.Some? ==>
                && next.value == GapStart(opt, WordStart(opt, end))
                && optItem == Truncated(opt[WordStart(opt, end)..end])
    {
      if end == 0 {
        return None;
      }
      var beg: nat := end;
      while beg > 0
        invariant beg <= end && WordStart(opt, beg) == WordStart(opt, end)
      {
        beg := beg - 1;
        if Separates(opt[beg]) {
          beg := beg + 1;
          break;
        }
      }
      var word := beg;
      var len := end - beg;
      if len > SECTION_NAME_MAX {
        len := SECTION_NAME_MAX;
      }
      optItem := opt[beg..beg + len];
      assert opt[word..end][..len] == optItem;
      while beg > 0
        invariant beg <= word && GapStart(opt, beg) == GapStart(opt, word)
      {
        beg := beg - 1;
        if !Separates(opt[beg]) {
          beg := beg + 1;
          break;
        }
      }
      next := Some(beg);
    }

    /** The first value found, scanning the sections from the last. */
    method ConfGetString(own: Config, groups: string) returns (res: Option<string>)
      modifies this
      ensures res == FirstFound(own, Items(groups, |groups|))
    {
      var end: nat := |groups|;
      var next := PrevItem(groups, end);
      while next.Some?
        invariant end <= |groups| && (next.None? <==> end == 0)
        invariant next.Some? ==>
                    && next.value == GapStart(groups, WordStart(groups, end))
                    && optItem == Truncated(groups[WordStart(groups, end)..end])
        invariant FirstFound(own, Items(groups, end)) == FirstFound(own, Items(groups, |groups|))
        decreases end
      {
        ghost var items := Items(groups, end);
        assert items[0] == optItem && items[1..] == Items(groups, next.value);
        res := TryString(own, optItem);
        if res.Some? {
          return;
        }
        end := next.value;
        next := PrevItem(groups, end);
      }
      res := None;
    }
  }
}
