/** C text as the programs see it: strings without a terminator inside, the
    search and bounded-copy routines, and the reading of a buffer up to its NUL. */
module Text {

  datatype Option<T> = None | Some(value: T)

  /** The first position of `c` in `s` (strchr), or None. */
  function IndexOf(s: string, c: char): (r: Option<nat>)
    ensures r.None? <==> c !in s
    ensures r.Some? ==> r.value < |s| && s[r.value] == c && c !in s[..r.value]
  {
    if s == [] then None
    else if s[0] == c then Some(0)
    else
      match IndexOf(s[1..], c)
      case None => None
      case Some(k) => Some(k + 1)
  }

  lemma {:induction false} IndexOfIs(s: string, c: char, k: nat)
    requires k < |s| && s[k] == c && c !in s[..k]
    ensures IndexOf(s, c) == Some(k)
  {
    if k > 0 {
      assert s[..k][0] == s[0];
      assert s[1..][..k - 1] == s[..k][1..];
      IndexOfIs(s[1..], c, k - 1);
    }
  }

  /** Text up to the first `c`, and after it. */
  lemma {:induction false} FirstOf(front: string, c: char, tail: string)
    requires c !in front
    ensures var s := front + [c] + tail;
            IndexOf(s, c) == Some(|front|) && s[..|front|] == front && s[|front| + 1..] == tail
  {
    var s := front + [c] + tail;
    assert s[..|front|] == front;
    IndexOfIs(s, c, |front|);
  }

  /** The C string held by a buffer: everything before its first NUL. */
  function CStr(buffer: string): (s: string)
    ensures s <= buffer && '\0' !in s
    ensures '\0' !in buffer ==> s == buffer
    ensures '\0' in buffer ==> |s| < |buffer| && buffer[|s|] == '\0'
  {
    match IndexOf(buffer, '\0')
    case None => buffer
    case Some(k) => buffer[..k]
  }

  lemma StringUpTo(buffer: string, k: nat)
    requires k < |buffer| && buffer[k] == '\0' && '\0' !in buffer[..k]
    ensures CStr(buffer) == buffer[..k]
  {
    IndexOfIs(buffer, '\0', k);
  }

  /** OPENSSL_strlcpy into a buffer of `size` bytes; one byte is the terminator. */
  function Strlcpy(src: string, size: nat): (dst: string)
    requires 0 < size
    ensures |dst| < size && dst <= src
    ensures |src| < size ==> dst == src
  {
    if |src| < size then src else src[..size - 1]
  }

  /** OPENSSL_strlcat onto a buffer of `size` bytes that holds `dst`. */
  function Strlcat(dst: string, src: string, size: nat): (r: string)
    requires |dst| < size
    ensures |r| < size && r <= dst + src
    ensures |dst| + |src| < size ==> r == dst + src
  {
    dst + Strlcpy(src, size - |dst|)
  }

  /** ASCII lower case, as OPENSSL_strcasecmp compares. */
  function LowerChar(c: char): char {
    if 'A' <= c <= 'Z' then ((c as int) + 32) as char else c
  }

  predicate IsPrefix(p: string, s: string) {
    |p| <= |s| && s[..|p|] == p
  }

  /** isspace in the C locale. */
  predicate IsSpace(c: char) {
    c == ' ' || '\t' <= c <= '\r'
  }

  predicate IsDigit(c: char) {
    '0' <= c <= '9'
  }

  /** The number of blanks at the front of `s`. */
  function SpaceRun(s: string): (k: nat)
    ensures k <= |s| && (k < |s| ==> !IsSpace(s[k]))
  {
    if s != [] && IsSpace(s[0]) then SpaceRun(s[1..]) + 1 else 0
  }

  /** The characters themselves: 9 to 13 and 32 are blanks, 48 to 57 digits. */
  lemma CharacterClasses(c: char)
    ensures IsSpace(c) <==> c as int == 32 || 9 <= c as int <= 13
    ensures IsDigit(c) <==> 48 <= c as int <= 57
    ensures LowerChar(c) as int == if 65 <= c as int <= 90 then c as int + 32 else c as int
  {
  }

  /** Blanks are skipped up to the first other character. */
  lemma {:induction false} BlanksSkipped(blanks: string, rest: string)
    requires forall i :: 0 <= i < |blanks| ==> blanks[i] as int == 32 || 9 <= blanks[i] as int <= 13
    requires rest == [] || !(rest[0] as int == 32 || 9 <= rest[0] as int <= 13)
    ensures SpaceRun(blanks + rest) == |blanks|
  {
    if blanks == [] {
      assert blanks + rest == rest;
    } else {
      assert (blanks + rest)[1..] == blanks[1..] + rest;
      BlanksSkipped(blanks[1..], rest);
    }
  }

  /** A text that is too long for a buffer fills it up to the terminator. */
  lemma CopyFills(dst: string, src: string, size: nat)
    requires |dst| < size
    ensures |src| >= size ==> |Strlcpy(src, size)| == size - 1
    ensures |dst| + |src| >= size ==> |Strlcat(dst, src, size)| == size - 1
  {
  }

  /** The parts one after the other. */
  function Concat<T>(parts: seq<seq<T>>): seq<T> {
    if parts == [] then [] else Concat(parts[..|parts| - 1]) + parts[|parts| - 1]
  }

  lemma {:induction false} ConcatGrows<T>(parts: seq<seq<T>>, part: seq<T>)
    ensures Concat(parts + [part]) == Concat(parts) + part
  {
    assert (parts + [part])[..|parts|] == parts;
  }
}
