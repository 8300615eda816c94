/** shacrypt: the SHA-256 and SHA-512 password hashes, checked against the description by
    Ulrich Drepper (SHA-crypt.txt), with the digests as parameters. */
module ShaCrypt {
  import opened Text
  import opened Decimal
  import opened CryptEncoding
  import opened CryptStream
  import opened OutBuffer

  const ROUNDS_DEFAULT := 5000
  const ROUNDS_MIN := 1000
  const ROUNDS_MAX := 999999999
  const SALT_LEN_MAX := 16
  /** Room for the magic, the rounds, the salt and the longer digest, their dollar signs and a NUL. */
  const OUT_SIZE := 3 + 17 + 17 + 86 + 1
  const ROUNDS_PREFIX := "rounds="

  // ------------------------------------------------- the salt argument

  /** strtoul in base 10: the value and the index where it stopped. Overflow gives the
      maximum, a minus sign negates modulo maximum + 1. */
  function Strtoul(s: string, max: nat): (r: (nat, nat))
    ensures r.1 <= |s|
  {
    var blanks := SpaceRun(s);
    var signed := blanks < |s| && (s[blanks] == '+' || s[blanks] == '-');
    var start := if signed then blanks + 1 else blanks;
    var len := DigitRun(s[start..]);
    if len == 0 then (0, 0)
    else
      (Limited(Value(s[start..][..len]), s[blanks] == '-', max), start + len)
  }

  function Clamp(n: nat): (r: nat)
    ensures ROUNDS_MIN <= r <= ROUNDS_MAX
  {
    if n > ROUNDS_MAX then ROUNDS_MAX else if n < ROUNDS_MIN then ROUNDS_MIN else n
  }

  /** How the salt argument is understood. */
  datatype Settings = Settings(rounds: nat, custom: bool, salt: string)

  function Truncate(salt: string): string {
    if |salt| <= SALT_LEN_MAX then salt else salt[..SALT_LEN_MAX]
  }

  /** None if the argument starts with "rounds=" but no '$' follows the number. */
  function Understand(arg: string, max: nat): Option<Settings> {
    if IsPrefix(ROUNDS_PREFIX, arg) then UnderstandNumber(arg[|ROUNDS_PREFIX|..], max)
    else Some(Settings(ROUNDS_DEFAULT, false, Truncate(arg)))
  }

  function UnderstandNumber(num: string, max: nat): Option<Settings> {
    var (value, end) := Strtoul(num, max);
    if end < |num| && num[end] == '$' then Some(Settings(Clamp(value), true, Truncate(num[end + 1..]))) else None
  }

  /** The salt argument in normal form, as it stands in the output. */
  function Normal(s: Settings): string {
    (if s.custom then ROUNDS_PREFIX + Digits(s.rounds) + "$" else "") + s.salt
  }

  lemma {:induction false} StrtoulAt(s: string, max: nat, blanks: nat, sign: nat, negative: bool, d: string)
    requires NumberAt(s, blanks, sign, negative, d)
    ensures Strtoul(s, max) == (Limited(Value(d), negative, max), blanks + sign + |d|)
  {
  }

  /** What strtoul reads: blanks, at most one sign, digits. */
  lemma {:induction false} StrtoulIs(blanks: string, sign: string, d: string, rest: string, s: string, max: nat)
    requires forall i :: 0 <= i < |blanks| ==> blanks[i] as int == 32 || 9 <= blanks[i] as int <= 13
    requires sign in {"", "+", "-"} && AllDigits(d) && d != [] && (rest == [] || !IsDigit(rest[0]))
    requires s == blanks + (sign + (d + rest))
    ensures Strtoul(s, max) == (Limited(Value(d), sign == "-", max), |blanks| + |sign| + |d|)
  {
    NumberParts(blanks, sign, d, rest, s);
    StrtoulAt(s, max, |blanks|, |sign|, sign == "-", d);
  }

  lemma {:induction false} StrtoulNone(s: string, max: nat, blanks: nat, sign: nat)
    requires SpaceRun(s) == blanks && blanks + sign <= |s|
    requires sign == if blanks < |s| && (s[blanks] == '+' || s[blanks] == '-') then 1 else 0
    requires DigitRun(s[blanks + sign..]) == 0
    ensures Strtoul(s, max) == (0, 0)
  {
  }

  lemma SignInFront(blanks: string, sign: string, rest: string, s: string)
    requires s == blanks + (sign + rest) && sign in {"", "+", "-"}
    requires sign == "" && rest != [] ==> rest[0] != '+' && rest[0] != '-'
    ensures |blanks| + |sign| <= |s| && s[|blanks| + |sign|..] == rest
    ensures |sign| == if |blanks| < |s| && (s[|blanks|] == '+' || s[|blanks|] == '-') then 1 else 0
  {
    if |blanks| < |s| { assert s[|blanks|] == (sign + rest)[0]; }
  }

  /** Without digits strtoul reads nothing, not even blanks or a sign. */
  lemma {:induction false} StrtoulNothing(blanks: string, sign: string, rest: string, s: string, max: nat)
    requires forall i :: 0 <= i < |blanks| ==> blanks[i] as int == 32 || 9 <= blanks[i] as int <= 13
    requires sign in {"", "+", "-"} && s == blanks + (sign + rest)
    requires rest == [] || !(IsDigit(rest[0]) || rest[0] as int == 32 || 9 <= rest[0] as int <= 13)
    requires sign == "" && rest != [] ==> rest[0] != '+' && rest[0] != '-'
    ensures Strtoul(s, max) == (0, 0)
  {
    SignInFront(blanks, sign, rest, s);
    NoBlankFirst(sign, rest);
    BlanksSkipped(blanks, sign + rest);
    StrtoulNone(s, max, |blanks|, |sign|);
  }

  lemma NoBlankFirst(sign: string, rest: string)
    requires sign in {"", "+", "-"}
    requires rest == [] || !(rest[0] as int == 32 || 9 <= rest[0] as int <= 13)
    ensures var s := sign + rest; s == [] || !(s[0] as int == 32 || 9 <= s[0] as int <= 13)
  {
  }

  /** 5000 rounds without a number; 16 characters of salt count. */
  lemma {:induction false} PlainArgument(arg: string, max: nat)
    requires !("rounds=" <= arg)
    ensures Understand(arg, max) == Some(Settings(5000, false, if |arg| <= 16 then arg else arg[..16]))
  {
  }

  lemma {:induction false} NumberIs(num: string, n: nat, end: nat, rest: string, max: nat)
    requires Strtoul(num, max) == (n, end) && end <= |num| && num[end..] == rest
    ensures UnderstandNumber(num, max) ==
            if rest == [] || rest[0] != '$' then None
            else Some(Settings(if n < 1000 then 1000 else if n > 999999999 then 999999999 else n, true,
                               if |rest| <= 17 then rest[1..] else rest[1..17]))
  {
    if rest != [] {
      assert num[end] == rest[0] && num[end + 1..] == rest[1..];
      assert |rest| > 17 ==> rest[1..][..16] == rest[1..17];
    }
  }

  lemma BehindNumber(blanks: string, sign: string, d: string, rest: string, num: string)
    requires num == blanks + (sign + (d + rest))
    ensures num[|blanks| + |sign| + |d|..] == rest
  {
    assert num == (blanks + sign + d) + rest;
  }

  /** As many rounds as are asked for, but at least 1000 and at most 999999999; a number
      that no '$' follows is refused. */
  lemma {:induction false} NumberedArgument(
      blanks: string, sign: string, d: string, rest: string, num: string, max: nat)
    requires forall i :: 0 <= i < |blanks| ==> blanks[i] as int == 32 || 9 <= blanks[i] as int <= 13
    requires sign in {"", "+", "-"} && AllDigits(d) && d != [] && (rest == [] || !IsDigit(rest[0]))
    requires num == blanks + (sign + (d + rest))
    ensures var n := Limited(Value(d), sign == "-", max);
            Understand("rounds=" + num, max) ==
            if rest == [] || rest[0] != '$' then None
            else Some(Settings(if n < 1000 then 1000 else if n > 999999999 then 999999999 else n, true,
                               if |rest| <= 17 then rest[1..] else rest[1..17]))
  {
    StrtoulIs(blanks, sign, d, rest, num, max);
    BehindNumber(blanks, sign, d, rest, num);
    NumberIs(num, Limited(Value(d), sign == "-", max), |blanks| + |sign| + |d|, rest, max);
    PrefixedIs(num);
  }

  lemma {:induction false} NoBlanksBeforeDigits(s: string)
    requires s != [] && IsDigit(s[0])
    ensures SpaceRun(s) == 0
  {
  }

  lemma {:induction false} StrtoulReadsBack(n: nat, rest: string, max: nat)
    requires n <= max && (rest == [] || !IsDigit(rest[0]))
    ensures Strtoul(Digits(n) + rest, max) == (n, |Digits(n)|)
  {
    var s := Digits(n) + rest;
    NoBlanksBeforeDigits(s);
    ReadBack(n, rest);
    assert s[0..] == s;
  }

  lemma AfterDigits(digits: string, salt: string)
    ensures var num := digits + ("$" + salt);
            num[|digits|] == '$' && num[|digits| + 1..] == salt
  {
  }

  lemma {:induction false} NumberReadsBack(n: nat, salt: string, max: nat)
    requires ROUNDS_MIN <= n <= ROUNDS_MAX <= max && |salt| <= SALT_LEN_MAX
    ensures UnderstandNumber(Digits(n) + ("$" + salt), max) == Some(Settings(n, true, salt))
  {
    StrtoulReadsBack(n, "$" + salt, max);
    AfterDigits(Digits(n), salt);
  }

  lemma PrefixedIs(num: string)
    ensures IsPrefix(ROUNDS_PREFIX, ROUNDS_PREFIX + num) && (ROUNDS_PREFIX + num)[|ROUNDS_PREFIX|..] == num
  {
  }

  lemma NormalIs(s: Settings)
    requires s.custom
    ensures Normal(s) == ROUNDS_PREFIX + (Digits(s.rounds) + ("$" + s.salt))
  {
  }

  lemma CustomReadsBack(s: Settings, max: nat)
    requires s.custom && ROUNDS_MIN <= s.rounds <= ROUNDS_MAX <= max && |s.salt| <= SALT_LEN_MAX
    ensures Understand(Normal(s), max) == Some(s)
  {
    var num := Digits(s.rounds) + ("$" + s.salt);
    NumberReadsBack(s.rounds, s.salt, max);
    NormalIs(s);
    PrefixedIs(num);
  }

  lemma TruncatedStaysPlain(arg: string)
    requires !IsPrefix(ROUNDS_PREFIX, arg)
    ensures !IsPrefix(ROUNDS_PREFIX, Truncate(arg))
  {
    if |arg| > SALT_LEN_MAX {
      assert Truncate(arg)[..|ROUNDS_PREFIX|] == arg[..|ROUNDS_PREFIX|];
    }
  }

  /** Giving the normal form back as salt argument changes nothing. */
  lemma NormalFormIsStable(arg: string, max: nat)
    requires max >= ROUNDS_MAX && Understand(arg, max).Some?
    ensures Understand(Normal(Understand(arg, max).value), max) == Understand(arg, max)
  {
    var s := Understand(arg, max).value;
    if IsPrefix(ROUNDS_PREFIX, arg) {
      CustomReadsBack(s, max);
    } else {
      TruncatedStaysPlain(arg);
      assert Normal(s) == s.salt;
    }
  }

  // ---------------------------------------- the description, step by step

  datatype Variant = Sha256 | Sha512

  function FormatOf(v: Variant): Format {
    if v.Sha256? then SHA256 else SHA512
  }

  /** Steps 1 to 12: digest A. */
  function DigestA(h: Digest, p: seq<Byte>, s: seq<Byte>): seq<Byte>
    requires h(p + s + p) != []
  {
    var b := h(p + s + p);
    h(p + s + Cyclic(b, |p|) + BitFeed(|p|, 0, b, p))
  }

  /** Steps 13 to 16: as many bytes as the password has, from a digest of that many copies of it. */
  function SequenceP(h: Digest, p: seq<Byte>): seq<Byte>
    requires h(Repeat(p, |p|)) != []
  {
    Cyclic(h(Repeat(p, |p|)), |p|)
  }

  /** Steps 17 to 20: as many bytes as the salt has, from a digest of 16 + `first` copies of it. */
  function SequenceS(h: Digest, s: seq<Byte>, first: Byte): seq<Byte>
    requires h(Repeat(s, 16 + first as int)) != []
  {
    Cyclic(h(Repeat(s, 16 + first as int)), |s|)
  }

  lemma NonEmpty(h: Digest, size: nat, x: seq<Byte>)
    requires HasSize(h, size) && 0 < size
    ensures h(x) != [] && |h(x)| == size
  {
  }

  /** Steps 1 to 21 of the description. */
  function Described(h: Digest, p: seq<Byte>, s: seq<Byte>, rounds: nat, size: nat): (r: seq<Byte>)
    requires HasSize(h, size) && 0 < size
    ensures |r| == size
  {
    NonEmpty(h, size, p + s + p);
    NonEmpty(h, size, Repeat(p, |p|));
    var a := DigestA(h, p, s);
    NonEmpty(h, size, p + s + Cyclic(h(p + s + p), |p|) + BitFeed(|p|, 0, h(p + s + p), p));
    NonEmpty(h, size, Repeat(s, 16 + a[0] as int));
    RoundsSize(h, a, SequenceP(h, p), SequenceS(h, s, a[0]), rounds, size);
    Rounds(h, a, SequenceP(h, p), SequenceS(h, s, a[0]), rounds)
  }

  /** Digest A is that of password, salt, as many bytes of digest B as the password has, and
      for each bit of its length, the lowest first, digest B for a 1 and the password for a 0. */
  lemma {:induction false} DigestAIs(h: Digest, p: seq<Byte>, s: seq<Byte>, half: nat)
    requires h(p + s + p) != [] && (|p| == 2 * half || |p| == 2 * half + 1)
    ensures var b := h(p + s + p);
            var front, rest := p + s + Cyclic(b, |p|), BitFeed(half, 0, b, p);
            DigestA(h, p, s) == h(front + if |p| == 2 * half + 1 then b + rest else if p == [] then [] else p + rest)
  {
    LowestBitFirst(half, h(p + s + p), p);
  }

  /** A password of one byte: password, salt, the first byte of B, and B for the 1-bit. */
  lemma {:induction false} OneBytePassword(h: Digest, c: Byte, s: seq<Byte>)
    requires h([c] + s + [c]) != []
    ensures DigestA(h, [c], s) == h([c] + s + h([c] + s + [c])[..1] + h([c] + s + [c]))
    ensures Repeat([c], |[c]|) == [c] && (h([c]) != [] ==> SequenceP(h, [c]) == h([c])[..1])
  {
    var b := h([c] + s + [c]);
    DigestAIs(h, [c], s, 0);
    assert Cyclic(b, 1) == b[..1];
    assert b + [] == b;
    RepeatAdds([c], 0, 0);
  }

  /** The two sequences: byte for byte the digest of |p| copies of the password, and of 16
      plus the first byte of A copies of the salt, started over when it is used up. */
  lemma {:induction false} SequencesAre(h: Digest, p: seq<Byte>, s: seq<Byte>, first: Byte, k: nat)
    requires h(Repeat(p, |p|)) != [] && h(Repeat(s, 16 + first as int)) != []
    ensures |SequenceP(h, p)| == |p| && |SequenceS(h, s, first)| == |s|
    ensures k < |p| ==> var d := h(Repeat(p, |p|));
              SequenceP(h, p)[k] == if k < |d| then d[k] else SequenceP(h, p)[k - |d|]
    ensures k < |s| ==> var d := h(Repeat(s, 16 + first as int));
              SequenceS(h, s, first)[k] == if k < |d| then d[k] else SequenceS(h, s, first)[k - |d|]
  {
    if k < |p| { CyclicIs(h(Repeat(p, |p|)), |p|, k); }
    if k < |s| { CyclicIs(h(Repeat(s, 16 + first as int)), |s|, k); }
  }

  /** No rounds leave digest A; each further one feeds the last digest and the two sequences. */
  lemma {:induction false} DescribedFollows(h: Digest, p: seq<Byte>, s: seq<Byte>, n: nat, size: nat)
    requires HasSize(h, size) && 0 < size
    ensures h(p + s + p) != [] && h(Repeat(p, |p|)) != [] && DigestA(h, p, s) != []
    ensures var a := DigestA(h, p, s);
            && h(Repeat(s, 16 + a[0] as int)) != []
            && Described(h, p, s, 0, size) == a
            && Described(h, p, s, n + 1, size) ==
               h(RoundInput(n, Described(h, p, s, n, size), SequenceP(h, p), SequenceS(h, s, a[0])))
  {
    NonEmpty(h, size, p + s + p);
    NonEmpty(h, size, Repeat(p, |p|));
    NonEmpty(h, size, p + s + Cyclic(h(p + s + p), |p|) + BitFeed(|p|, 0, h(p + s + p), p));
    var a := DigestA(h, p, s);
    NonEmpty(h, size, Repeat(s, 16 + a[0] as int));
    RoundsFollow(h, a, SequenceP(h, p), SequenceS(h, s, a[0]), n);
  }

  function Header(v: Variant, s: Settings): string {
    (if v.Sha256? then "$5$" else "$6$") + Normal(s)
  }

  /** The result text: header, '$', encoded digest. */
  function Result(h: Digest, v: Variant, passwd: seq<Byte>, s: Settings): string
    requires HasSize(h, FormatOf(v).size)
  {
    Header(v, s) + "$" + Encode(Described(h, passwd, Bytes(s.salt), s.rounds, FormatOf(v).size), FormatOf(v))
  }

  /** The result, character for character up to the digest. */
  lemma ResultIs(h: Digest, v: Variant, passwd: seq<Byte>, s: Settings)
    requires HasSize(h, FormatOf(v).size)
    ensures FormatOf(v).size == if v.Sha256? then 32 else 64
    ensures Result(h, v, passwd, s) ==
            (if v.Sha256? then "$5$" else "$6$") + (if s.custom then "rounds=" + Digits(s.rounds) + "$" else "")
            + s.salt + "$"
            + Encode(Described(h, passwd, Bytes(s.salt), s.rounds, FormatOf(v).size),
                     if v.Sha256? then SHA256 else SHA512)
  {
    var magic := if v.Sha256? then "$5$" else "$6$";
    var number := if s.custom then "rounds=" + Digits(s.rounds) + "$" else "";
    assert Header(v, s) == magic + (number + s.salt) == magic + number + s.salt;
  }

  method FirstDigest(h: Digest, passwd: seq<Byte>, salt: seq<Byte>) returns (buf: seq<Byte>)
    requires h(passwd + salt + passwd) != []
    ensures buf == DigestA(h, passwd, salt)
  {
    var md := passwd + salt;
    var md2 := passwd + salt + passwd;
    buf := h(md2);
    md := FeedBlocks(md, buf, |passwd|);
    md := FeedBits(md, |passwd|, buf, passwd);
    buf := h(md);
  }

  /** The digest part of shacrypt: contexts md and md2, the P and S buffers, the rounds. */
  method HashPassword(h: Digest, passwd: seq<Byte>, salt: seq<Byte>, rounds: nat, size: nat) returns (buf: seq<Byte>)
    requires HasSize(h, size) && 0 < size
    ensures buf == Described(h, passwd, salt, rounds, size)
  {
    NonEmpty(h, size, passwd + salt + passwd);
    buf := FirstDigest(h, passwd, salt);
    var md2 := FeedRepeated(passwd, |passwd|);
    var temp := h(md2);
    var pBytes := FillCyclic(temp, |passwd|);
    NonEmpty(h, size, passwd + salt + Cyclic(h(passwd + salt + passwd), |passwd|)
                      + BitFeed(|passwd|, 0, h(passwd + salt + passwd), passwd));
    md2 := FeedRepeated(salt, 16 + buf[0] as int);
    temp := h(md2);
    var sBytes := FillCyclic(temp, |salt|);
    buf := RunRounds(h, buf, pBytes[..], sBytes[..], rounds);
  }

  // --------------------------------------------------- the whole function

  /** strncmp, strtoul, the '$' check, the clamp and the truncation of the salt. */
  method ParseSalt(arg: string, max: nat) returns (r: Option<Settings>)
    ensures r == Understand(arg, max)
  {
    var salt := arg;
    var rounds := ROUNDS_DEFAULT;
    var custom := false;
    if IsPrefix(ROUNDS_PREFIX, salt) {
      var num := salt[|ROUNDS_PREFIX|..];
      var (srounds, endp) := Strtoul(num, max);
      if endp < |num| && num[endp] == '$' {
        salt := num[endp + 1..];
        if srounds > ROUNDS_MAX {
          rounds := ROUNDS_MAX;
        } else if srounds < ROUNDS_MIN {
          rounds := ROUNDS_MIN;
        } else {
          rounds := srounds;
        }
        custom := true;
      } else {
        return None;
      }
    }
    var asciiSalt := Strlcpy(salt, SALT_LEN_MAX + 1);
    r := Some(Settings(rounds, custom, asciiSalt));
  }

  predicate Accepts(passwd: seq<Byte>, magic: string, arg: string, max: nat) {
    && magic in {"5", "6"}
    && Understand(arg, max).Some?
    && passwd != [] && Understand(arg, max).value.salt != ""
  }

  function VariantOf(magic: string): Variant {
    if magic == "5" then Sha256 else Sha512
  }

  lemma NormalLength(s: Settings)
    requires s.custom ==> s.rounds <= ROUNDS_MAX
    ensures |Normal(s)| <= (if s.custom then 17 else 0) + |s.salt|
    ensures s.custom ==> (|Normal(s)| == 17 + |s.salt| <==> s.rounds >= 100000000)
  {
    DigitsLength(s.rounds, 9);
    DigitsLength(s.rounds, 8);
    assert Pow10(4) == 10000;
    assert Pow10(8) == 100000000;
  }

  /** The part of the output before the digest; nothing is cut off. */
  method WriteHeader(out: array<char>, magic: string, s: Settings) returns (len: nat)
    requires out.Length == OUT_SIZE && magic in {"5", "6"}
    requires |s.salt| <= SALT_LEN_MAX && (s.custom ==> s.rounds <= ROUNDS_MAX)
    modifies out
    ensures len < out.Length && out[..len] == Header(VariantOf(magic), s)
    ensures len <= 3 + (if s.custom then 17 else 0) + |s.salt|
  {
    NormalLength(s);
    out[0] := '\0';
    len := AppendAll(out, 0, "$", "");
    len := AppendAll(out, len, magic, "" + "$");
    ghost var front := "" + "$" + magic + "$";
    len := AppendAll(out, len, "$", "" + "$" + magic);
    assert front == if magic == "5" then "$5$" else "$6$";
    len := WriteSettings(out, len, s, front);
  }

  method WriteSettings(out: array<char>, start: nat, s: Settings, ghost front: string) returns (len: nat)
    requires start + |Normal(s)| < out.Length && out[..start] == front
    modifies out
    ensures len == start + |Normal(s)| && out[..len] == front + Normal(s)
  {
    len := start;
    ghost var text := front;
    if s.custom {
      var tmp := ROUNDS_PREFIX + Digits(s.rounds);
      len := AppendAll(out, len, tmp, front);
      len := AppendAll(out, len, "$", front + tmp);
      text := front + tmp + "$";
      assert text + s.salt == front + Normal(s);
    } else {
      assert Normal(s) == s.salt;
    }
    len := AppendAll(out, len, s.salt, text);
  }

  /** shacrypt. The result is the text out[..len], terminated by a NUL. It fails exactly
      for an unknown magic, a salt argument that cannot be understood, an empty password
      or an empty salt (allocating zero bytes for their sequences gives NULL). */
  method Shacrypt(sha256: Digest, sha512: Digest, out: array<char>,
                  passwd: seq<Byte>, magic: string, salt: string, max: nat)
    returns (r: Option<nat>)
    requires HasSize(sha256, 32) && HasSize(sha512, 64) && out.Length == OUT_SIZE
    modifies out
    ensures r.Some? <==> Accepts(passwd, magic, salt, max)
    ensures r.Some? ==> r.value < out.Length && out[r.value] == '\0'
    ensures r.Some? ==> out[..r.value] == Result(if magic == "5" then sha256 else sha512, VariantOf(magic), passwd,
                                                 Understand(salt, max).value)
  {
    if |magic| != 1 {
      return None;
    }
    var sha := sha256;
    if magic[0] == '5' {
    } else if magic[0] == '6' {
      sha := sha512;
    } else {
      return None;
    }
    assert magic == [magic[0]];
    var v := VariantOf(magic);
    var parsed := ParseSalt(salt, max);
    if parsed.None? {
      return None;
    }
    var s := parsed.value;
    var len := WriteHeader(out, magic, s);
    if len > 3 + (if s.custom then 17 else 0) + |s.salt| {
      assert false;  // the length guard never fires
    }
    if |passwd| == 0 || |s.salt| == 0 {
      return None;
    }
    var buf := HashPassword(sha, passwd, Bytes(s.salt), s.rounds, FormatOf(v).size);
    var cp := WriteDigest(out, len, buf, FormatOf(v), Header(v, s));
    r := Some(cp);
  }

  /** The end of the output: '$', the encoded digest, the NUL. */
  method WriteDigest(out: array<char>, len: nat, buf: seq<Byte>, f: Format, ghost header: string) returns (cp: nat)
    requires 1 <= |f.tail| <= 2
    requires len + 1 + 4 * |f.triples| + |f.tail| + 1 < out.Length && out[..len] == header
    modifies out
    ensures cp < out.Length && out[cp] == '\0' && out[..cp] == header + "$" + Encode(buf, f)
  {
    out[len] := '$';
    assert out[..len + 1] == header + "$";
    cp := EncodeInto(out, len + 1, buf, f);
    ghost var text := out[..cp];
    out[cp] := '\0';
    assert out[..cp] == text;
  }

  /** The static buffer is just large enough: with its NUL the result always fits the 124
      bytes, and fills them exactly for "6" with nine-digit rounds and a 16-character salt. */
  lemma TightBuffer(h: Digest, v: Variant, passwd: seq<Byte>, arg: string, max: nat)
    requires HasSize(h, FormatOf(v).size) && Understand(arg, max).Some?
    ensures var s := Understand(arg, max).value;
            var n := |Result(h, v, passwd, s)| + 1;
            && n <= OUT_SIZE
            && (n == OUT_SIZE <==> v.Sha512? && s.custom && s.rounds >= 100000000 && |s.salt| == SALT_LEN_MAX)
  {
    NormalLength(Understand(arg, max).value);
  }

  /** Hashing with the normal form of a salt argument gives the same result. */
  lemma SameResultFromNormalForm(h: Digest, v: Variant, passwd: seq<Byte>, arg: string, max: nat)
    requires HasSize(h, FormatOf(v).size) && max >= ROUNDS_MAX && Understand(arg, max).Some?
    ensures var s := Understand(arg, max).value;
            && Understand(Normal(s), max).Some?
            && Result(h, v, passwd, Understand(Normal(s), max).value) == Result(h, v, passwd, s)
            && IsPrefix(Header(v, s) + "$", Result(h, v, passwd, s))
  {
    NormalFormIsStable(arg, max);
    var s := Understand(arg, max).value;
    assert Result(h, v, passwd, s)[..|Header(v, s) + "$"|] == Header(v, s) + "$";
  }

  /** The password hash can be read off the result: two results with the same settings
      are equal only if the digests are. */
  lemma ResultDeterminesDigest(h: Digest, v: Variant, p: seq<Byte>, q: seq<Byte>, s: Settings)
    requires HasSize(h, FormatOf(v).size)
    requires Result(h, v, p, s) == Result(h, v, q, s)
    ensures Described(h, p, Bytes(s.salt), s.rounds, FormatOf(v).size) ==
            Described(h, q, Bytes(s.salt), s.rounds, FormatOf(v).size)
  {
    var f := FormatOf(v);
    var a := Described(h, p, Bytes(s.salt), s.rounds, f.size);
    var b := Described(h, q, Bytes(s.salt), s.rounds, f.size);
    var n := |Header(v, s) + "$"|;
    assert Result(h, v, p, s)[n..] == Encode(a, f) && Result(h, v, q, s)[n..] == Encode(b, f);
    Lossless(f, a);
    Lossless(f, b);
  }
}
