/** The text form of a password hash: groups of three digest bytes as four characters,
    and the byte orders of the three formats. */
module CryptEncoding {
  import opened ByteBits

  type Byte = b: nat | b < 256

  /** cov_2char: 0x2E and 0x2F, then the digits, the upper-case and the lower-case letters. */
  function Cov2Char(i: nat): char
    requires i < 64
  {
    (if i < 12 then 0x2E + i else if i < 38 then 0x41 + i - 12 else 0x61 + i - 38) as char
  }

  type Triple = (nat, nat, nat)

  // ------------------------------------------------------------ one group

  /** The 24-bit word of three bytes, as a number: the shifted parts do not overlap. */
  function Word(b2: Byte, b1: Byte, b0: Byte): nat {
    65536 * b2 + 256 * b1 + b0
  }

  /** `n` characters of six bits each, the low bits first. */
  function Chars(w: nat, n: nat): (s: string)
    ensures |s| == n
  {
    if n == 0 then [] else [Cov2Char(w % 64)] + Chars(w / 64, n - 1)
  }

  lemma Assoc(a: string, b: string, c: string)
    ensures a + b + c == a + (b + c)
  {
  }

  /** The macro b64_from_24bit: write `n` characters at `cp`, shifting the word down. The
      word is a number here; CharsAreMaskedBits reads the same characters off the 32 bits. */
  method B64From24Bit(out: array<char>, start: nat, b2: Byte, b1: Byte, b0: Byte, n: nat) returns (cp: nat)
    requires start + n <= out.Length
    modifies out
    ensures cp == start + n
    ensures out[..cp] == old(out[..start]) + Chars(Word(b2, b1, b0), n)
  {
    var w := Word(b2, b1, b0);
    cp := start;
    var i := n;
    assert old(out[..start]) + [] == old(out[..start]);
    while i > 0
      invariant 0 <= i <= n && cp == start + n - i
      invariant out[..cp] + Chars(w, i) == old(out[..start]) + Chars(Word(b2, b1, b0), n)
    {
      ghost var before := out[..cp];
      Assoc(before, [Cov2Char(w % 64)], Chars(w / 64, i - 1));
      i := i - 1;
      out[cp] := Cov2Char(w % 64);
      cp := cp + 1;
      assert out[..cp] == before + [Cov2Char(w % 64)];
      w := w / 64;
    }
    assert out[..cp] + [] == out[..cp];
  }

  lemma {:induction false} CharAt(w: nat, n: nat, k: nat)
    requires k < n
    ensures Chars(w, n)[k] == Cov2Char(DropDigits(w, k) % 64)
  {
    if k > 0 {
      CharAt(w / 64, n - 1, k - 1);
      DropNext(w, k);
    }
  }

  lemma {:induction false} DropNext(w: nat, k: nat)
    requires k > 0
    ensures DropDigits(w / 64, k - 1) == DropDigits(w, k)
  {
    if k > 1 {
      DropNext(w, k - 1);
    }
  }

  /** What the macro does on its 32-bit word: character `k` is the one at the masked low six
      bits after `k` shifts of the bytes joined by shifts and `|`. */
  lemma {:induction false} CharsAreMaskedBits(b2: Byte, b1: Byte, b0: Byte, n: nat, k: nat)
    requires k < n
    ensures Shifted(b2, b1, b0, k) & 0x3f < 64
    ensures Chars(Word(b2, b1, b0), n)[k] == Cov2Char((Shifted(b2, b1, b0, k) & 0x3f) as nat)
  {
    CharAt(Word(b2, b1, b0), n, k);
    MaskedDigit(b2, b1, b0, k);
    var d := DropDigits(Word(b2, b1, b0), k) % 64;
    assert (Shifted(b2, b1, b0, k) & 0x3f) as nat == d;
  }

  /** md5crypt's mask-and-shift expressions, on the bytes themselves. */
  method FirstChar(b0: Byte) returns (c: char)
    ensures c == Cov2Char(b0 % 64)
  {
    SplitAt6(b0);
    c := Cov2Char((b0 as bv8 & 0x3f) as nat);
  }

  method SecondChar(b1: Byte, b0: Byte) returns (c: char)
    ensures c == Cov2Char(b1 % 16 * 4 + b0 / 64)
  {
    SecondDigit(b1, b0);
    c := Cov2Char((((b1 as bv8 & 0xf) << 2) | (b0 as bv8 >> 6)) as nat);
  }

  method ThirdChar(b2: Byte, b1: Byte) returns (c: char)
    ensures c == Cov2Char(b2 % 4 * 16 + b1 / 16)
  {
    ThirdDigit(b2, b1);
    c := Cov2Char((((b2 as bv8 & 3) << 4) | (b1 as bv8 >> 4)) as nat);
  }

  method FourthChar(b2: Byte) returns (c: char)
    ensures c == Cov2Char(b2 / 4)
  {
    SplitAt2(b2);
    c := Cov2Char((b2 as bv8 >> 2) as nat);
  }

  method LastChar(b: Byte) returns (c: char)
    ensures c == Cov2Char(b / 64)
  {
    SplitAt6(b);
    c := Cov2Char((b as bv8 >> 6) as nat);
  }

  // ------------------------------------------------------------- decoding

  /** The value of a character of the alphabet. */
  function CharIndex(c: char): nat {
    if c < '.' then 0
    else if c <= '9' then c as int - 0x2E
    else if c < 'A' then 0
    else if c <= 'Z' then c as int - 0x41 + 12
    else if c < 'a' then 0
    else c as int - 0x61 + 38
  }

  function WordOf(s: string): nat {
    if s == [] then 0 else CharIndex(s[0]) + 64 * WordOf(s[1..])
  }

  function Pow64(n: nat): (p: nat)
    ensures p > 0
  {
    if n == 0 then 1 else 64 * Pow64(n - 1)
  }

  lemma CharIndexInverts(i: nat)
    requires i < 64
    ensures CharIndex(Cov2Char(i)) == i
  {
  }

  lemma {:induction false} CharsDecode(w: nat, n: nat)
    requires w < Pow64(n)
    ensures WordOf(Chars(w, n)) == w
  {
    if n > 0 {
      CharIndexInverts(w % 64);
      CharsDecode(w / 64, n - 1);
      assert Chars(w, n)[1..] == Chars(w / 64, n - 1);
    }
  }

  lemma SmallPowers()
    ensures Pow64(2) == 4096 && Pow64(3) == 262144 && Pow64(4) == 16777216
  {
    assert Pow64(1) == 64;
    assert Pow64(2) == 4096;
    assert Pow64(3) == 262144;
  }

  // ---------------------------------------------------- the three formats

  /** A format: four characters for each triple of byte positions, then a short group. */
  datatype Format = Format(size: nat, triples: seq<Triple>, tail: seq<nat>)

  const SHA256: Format := Format(32, [
      (0, 10, 20), (21, 1, 11), (12, 22, 2), (3, 13, 23), (24, 4, 14),
      (15, 25, 5), (6, 16, 26), (27, 7, 17), (18, 28, 8), (9, 19, 29)], [31, 30])

  const SHA512: Format := Format(64, [
      (0, 21, 42), (22, 43, 1), (44, 2, 23), (3, 24, 45), (25, 46, 4), (47, 5, 26), (6, 27, 48),
      (28, 49, 7), (50, 8, 29), (9, 30, 51), (31, 52, 10), (53, 11, 32), (12, 33, 54), (34, 55, 13),
      (56, 14, 35), (15, 36, 57), (37, 58, 16), (59, 17, 38), (18, 39, 60), (40, 61, 19), (62, 20, 41)], [63])

  /** md5crypt's buf_perm, three bytes at a time. */
  const MD5: Format := Format(16, [(0, 6, 12), (1, 7, 13), (2, 8, 14), (3, 9, 15), (4, 10, 5)], [11])

  predicate InRange(t: Triple, n: nat) {
    t.0 < n && t.1 < n && t.2 < n
  }

  predicate WellFormedFormat(f: Format) {
    && (forall g :: 0 <= g < |f.triples| ==> InRange(f.triples[g], f.size))
    && 1 <= |f.tail| <= 2 && forall j :: 0 <= j < |f.tail| ==> f.tail[j] < f.size
  }

  function At(buf: seq<Byte>, k: nat): Byte {
    if k < |buf| then buf[k] else 0
  }

  function TripleWord(buf: seq<Byte>, t: Triple): (w: nat)
    ensures w < 16777216
  {
    Word(At(buf, t.0), At(buf, t.1), At(buf, t.2))
  }

  function Groups(buf: seq<Byte>, triples: seq<Triple>): (s: string)
    ensures |s| == 4 * |triples|
  {
    if triples == [] then []
    else
      var n := |triples| - 1;
      Groups(buf, triples[..n]) + Chars(TripleWord(buf, triples[n]), 4)
  }

  /** The last one or two bytes: one more character than bytes. */
  function Tail(buf: seq<Byte>, tail: seq<nat>): (s: string)
    requires 1 <= |tail| <= 2
    ensures |s| == |tail| + 1
  {
    if |tail| == 1 then Chars(Word(0, 0, At(buf, tail[0])), 2)
    else Chars(Word(0, At(buf, tail[0]), At(buf, tail[1])), 3)
  }

  function Encode(buf: seq<Byte>, f: Format): (s: string)
    requires 1 <= |f.tail| <= 2
    ensures |s| == 4 * |f.triples| + |f.tail| + 1
  {
    Groups(buf, f.triples) + Tail(buf, f.tail)
  }

  // ----------------------------------------- every byte, exactly once

  /** A place in the text: byte `j` of group `g`, or byte `j` of the tail. */
  datatype Place = InGroup(g: nat, j: nat) | InTail(j: nat)

  function Third(t: Triple, j: nat): nat {
    if j == 0 then t.0 else if j == 1 then t.1 else t.2
  }

  predicate PlaceIn(f: Format, p: Place) {
    match p
    case InGroup(g, j) => g < |f.triples| && j < 3
    case InTail(j) => j < |f.tail|
  }

  /** The digest byte that stands at a place. */
  function Source(f: Format, p: Place): nat
    requires PlaceIn(f, p)
  {
    match p
    case InGroup(g, j) => Third(f.triples[g], j)
    case InTail(j) => f.tail[j]
  }

  /** Reduction modulo three of a number below six. */
  function Wrap(x: nat): nat
    requires x < 6
  {
    if x >= 3 then x - 3 else x
  }

  /** The rotations behind the byte orders: byte `j` of group `g`. */
  function Turned512(g: nat, j: nat): nat
    requires j < 3
  {
    g + 21 * Wrap(g % 3 + j)
  }

  function Turned256(g: nat, j: nat): nat
    requires j < 3
  {
    g + 10 * Wrap(3 - g % 3 + j)
  }

  function Rotated512(g: nat): Triple {
    (Turned512(g, 0), Turned512(g, 1), Turned512(g, 2))
  }

  function Rotated256(g: nat): Triple {
    (Turned256(g, 0), Turned256(g, 1), Turned256(g, 2))
  }

  lemma Table512(g: nat)
    requires g < 21
    ensures SHA512.triples[g] == Rotated512(g)
  {
    match g {
      case 0 => assert Rotated512(0) == (0, 21, 42);
      case 1 => assert Rotated512(1) == (22, 43, 1);
      case 2 => assert Rotated512(2) == (44, 2, 23);
      case 3 => assert Rotated512(3) == (3, 24, 45);
      case 4 => assert Rotated512(4) == (25, 46, 4);
      case 5 => assert Rotated512(5) == (47, 5, 26);
      case 6 => assert Rotated512(6) == (6, 27, 48);
      case 7 => assert Rotated512(7) == (28, 49, 7);
      case 8 => assert Rotated512(8) == (50, 8, 29);
      case 9 => assert Rotated512(9) == (9, 30, 51);
      case 10 => assert Rotated512(10) == (31, 52, 10);
      case 11 => assert Rotated512(11) == (53, 11, 32);
      case 12 => assert Rotated512(12) == (12, 33, 54);
      case 13 => assert Rotated512(13) == (34, 55, 13);
      case 14 => assert Rotated512(14) == (56, 14, 35);
      case 15 => assert Rotated512(15) == (15, 36, 57);
      case 16 => assert Rotated512(16) == (37, 58, 16);
      case 17 => assert Rotated512(17) == (59, 17, 38);
      case 18 => assert Rotated512(18) == (18, 39, 60);
      case 19 => assert Rotated512(19) == (40, 61, 19);
      case _ => assert g == 20 && Rotated512(20) == (62, 20, 41);
    }
  }

  lemma Table256(g: nat)
    requires g < 10
    ensures SHA256.triples[g] == Rotated256(g)
  {
    match g {
      case 0 => assert Rotated256(0) == (0, 10, 20);
      case 1 => assert Rotated256(1) == (21, 1, 11);
      case 2 => assert Rotated256(2) == (12, 22, 2);
      case 3 => assert Rotated256(3) == (3, 13, 23);
      case 4 => assert Rotated256(4) == (24, 4, 14);
      case 5 => assert Rotated256(5) == (15, 25, 5);
      case 6 => assert Rotated256(6) == (6, 16, 26);
      case 7 => assert Rotated256(7) == (27, 7, 17);
      case 8 => assert Rotated256(8) == (18, 28, 8);
      case _ => assert g == 9 && Rotated256(9) == (9, 19, 29);
    }
  }

  lemma TableMd5(g: nat)
    requires g < 5
    ensures MD5.triples[g] == (g, g + 6, if g == 4 then 5 else g + 12)
  {
  }

  lemma FormatsWellFormed()
    ensures WellFormedFormat(SHA512) && WellFormedFormat(SHA256) && WellFormedFormat(MD5)
  {
    forall g | 0 <= g < 21 ensures InRange(SHA512.triples[g], 64) { Table512(g); }
    forall g | 0 <= g < 10 ensures InRange(SHA256.triples[g], 32) { Table256(g); }
    forall g | 0 <= g < 5 ensures InRange(MD5.triples[g], 16) { TableMd5(g); }
  }

  /** Where byte `k` of the digest is put. */
  function PlaceOf(f: Format, k: nat): Place
    requires k < f.size
  {
    if f.size == 64 then
      if k == 63 then InTail(0) else InGroup(k % 21, Wrap(k / 21 + 3 - k % 21 % 3))
    else if f.size == 32 then
      if k == 31 then InTail(0) else if k == 30 then InTail(1) else InGroup(k % 10, Wrap(k / 10 + k % 10 % 3))
    else
      if k == 11 then InTail(0) else if k == 5 then InGroup(4, 2) else InGroup(k % 6, k / 6)
  }

  predicate IsFormat(f: Format) {
    f == SHA512 || f == SHA256 || f == MD5
  }

  lemma Turn512(g: nat, q: nat)
    requires q < 3
    ensures Wrap(q + 3 - g % 3) < 3 && Turned512(g, Wrap(q + 3 - g % 3)) == g + 21 * q
  {
  }

  lemma Turn256(g: nat, q: nat)
    requires q < 3
    ensures Wrap(q + g % 3) < 3 && Turned256(g, Wrap(q + g % 3)) == g + 10 * q
  {
  }

  /** In a rotated table, the place of byte `k` holds byte `k`. */
  lemma PlaceRotated(f: Format, k: nat, g: nat, q: nat)
    requires f.size == 64 && |f.triples| == 21 && k < 63 && g == k % 21 && q == k / 21
    requires f.triples[g] == Rotated512(g)
    ensures PlaceIn(f, PlaceOf(f, k)) && Source(f, PlaceOf(f, k)) == k
  {
    Turn512(g, q);
    assert k == g + 21 * q;
  }

  lemma PlaceRotatedBack(f: Format, k: nat, g: nat, q: nat)
    requires f.size == 32 && |f.triples| == 10 && k < 30 && g == k % 10 && q == k / 10
    requires f.triples[g] == Rotated256(g)
    ensures PlaceIn(f, PlaceOf(f, k)) && Source(f, PlaceOf(f, k)) == k
  {
    Turn256(g, q);
    assert k == g + 10 * q;
  }

  lemma Place512(k: nat)
    requires k < 64
    ensures PlaceIn(SHA512, PlaceOf(SHA512, k)) && Source(SHA512, PlaceOf(SHA512, k)) == k
  {
    if k < 63 {
      Table512(k % 21);
      PlaceRotated(SHA512, k, k % 21, k / 21);
    }
  }

  lemma Place256(k: nat)
    requires k < 32
    ensures PlaceIn(SHA256, PlaceOf(SHA256, k)) && Source(SHA256, PlaceOf(SHA256, k)) == k
  {
    if k < 30 {
      Table256(k % 10);
      PlaceRotatedBack(SHA256, k, k % 10, k / 10);
    }
  }

  lemma PlaceMd5(k: nat)
    requires k < 16
    ensures PlaceIn(MD5, PlaceOf(MD5, k)) && Source(MD5, PlaceOf(MD5, k)) == k
  {
    if k == 5 { TableMd5(4); } else if k != 11 { TableMd5(k % 6); }
  }

  /** Every digest byte has a place. */
  lemma EveryByteHasAPlace(f: Format, k: nat)
    requires IsFormat(f) && k < f.size
    ensures PlaceIn(f, PlaceOf(f, k)) && Source(f, PlaceOf(f, k)) == k
    ensures f.size == 3 * |f.triples| + |f.tail|
  {
    if f == SHA512 { Place512(k); } else if f == SHA256 { Place256(k); } else { PlaceMd5(k); }
  }

  lemma TurnBack512(g: nat, j: nat)
    requires g < 21 && j < 3
    ensures Turned512(g, j) < 63 && Turned512(g, j) % 21 == g
    ensures Wrap(Turned512(g, j) / 21 + 3 - g % 3) == j
  {
  }

  lemma TurnBack256(g: nat, j: nat)
    requires g < 10 && j < 3
    ensures Turned256(g, j) < 30 && Turned256(g, j) % 10 == g
    ensures Wrap(Turned256(g, j) / 10 + g % 3) == j
  {
  }

  /** In a rotated table, the byte at a place tells the place. */
  lemma RotatedPlace(f: Format, g: nat, j: nat)
    requires f.size == 64 && |f.triples| == 21 && g < 21 && j < 3
    requires f.triples[g] == Rotated512(g)
    ensures Source(f, InGroup(g, j)) < 64 && PlaceOf(f, Source(f, InGroup(g, j))) == InGroup(g, j)
  {
    TurnBack512(g, j);
  }

  lemma RotatedBackPlace(f: Format, g: nat, j: nat)
    requires f.size == 32 && |f.triples| == 10 && g < 10 && j < 3
    requires f.triples[g] == Rotated256(g)
    ensures Source(f, InGroup(g, j)) < 32 && PlaceOf(f, Source(f, InGroup(g, j))) == InGroup(g, j)
  {
    TurnBack256(g, j);
  }

  lemma Back512(p: Place)
    requires PlaceIn(SHA512, p)
    ensures Source(SHA512, p) < 64 && PlaceOf(SHA512, Source(SHA512, p)) == p
  {
    match p {
      case InGroup(g, j) =>
        Table512(g);
        RotatedPlace(SHA512, g, j);
      case InTail(j) =>
    }
  }

  lemma Back256(p: Place)
    requires PlaceIn(SHA256, p)
    ensures Source(SHA256, p) < 32 && PlaceOf(SHA256, Source(SHA256, p)) == p
  {
    match p {
      case InGroup(g, j) =>
        Table256(g);
        RotatedBackPlace(SHA256, g, j);
      case InTail(j) =>
    }
  }

  lemma BackMd5(p: Place)
    requires PlaceIn(MD5, p)
    ensures Source(MD5, p) < 16 && PlaceOf(MD5, Source(MD5, p)) == p
  {
    if p.InGroup? { TableMd5(p.g); }
  }

  /** No two places hold the same byte: a byte's place can be told from its number. With
      the lemma above, places and digest bytes correspond one to one. */
  lemma EveryPlaceHasItsByte(f: Format, p: Place)
    requires IsFormat(f) && PlaceIn(f, p)
    ensures Source(f, p) < f.size && PlaceOf(f, Source(f, p)) == p
  {
    if f == SHA512 { Back512(p); } else if f == SHA256 { Back256(p); } else { BackMd5(p); }
  }

  // ------------------------------------------------------------ lossless

  function PartOf(w: nat, j: nat): (b: Byte) {
    if j == 0 then w / 65536 % 256 else if j == 1 then w / 256 % 256 else w % 256
  }

  /** The byte at a place of an encoded text. */
  function ByteAt(text: string, f: Format, p: Place): (b: Byte) {
    match p
    case InGroup(g, j) => if 4 * g + 4 <= |text| then PartOf(WordOf(text[4 * g..4 * g + 4]), j) else 0
    case InTail(j) =>
      if 4 * |f.triples| <= |text|
      then PartOf(WordOf(text[4 * |f.triples|..]), if |f.tail| == 1 then 2 else j + 1) else 0
  }

  function Decode(text: string, f: Format): (buf: seq<Byte>) {
    seq(f.size, k requires 0 <= k < f.size => ByteAt(text, f, PlaceOf(f, k)))
  }

  lemma PartsOfWord(b2: Byte, b1: Byte, b0: Byte)
    ensures PartOf(Word(b2, b1, b0), 0) == b2 && PartOf(Word(b2, b1, b0), 1) == b1 && PartOf(Word(b2, b1, b0), 2) == b0
  {
    assert Word(b2, b1, b0) / 256 == 256 * b2 + b1;
  }

  lemma SliceOfFirst(a: string, b: string, lo: nat, hi: nat)
    requires lo <= hi <= |a|
    ensures (a + b)[lo..hi] == a[lo..hi]
  {
  }

  lemma SliceOfSecond(a: string, b: string)
    ensures (a + b)[|a|..|a| + |b|] == b
  {
  }

  lemma {:induction false} GroupAt(buf: seq<Byte>, triples: seq<Triple>, g: nat)
    requires g < |triples|
    ensures Groups(buf, triples)[4 * g..4 * g + 4] == Chars(TripleWord(buf, triples[g]), 4)
  {
    var n := |triples| - 1;
    var front, last := Groups(buf, triples[..n]), Chars(TripleWord(buf, triples[n]), 4);
    if g < n {
      GroupAt(buf, triples[..n], g);
      SliceOfFirst(front, last, 4 * g, 4 * g + 4);
    } else {
      SliceOfSecond(front, last);
    }
  }

  lemma DecodeTriple(buf: seq<Byte>, t: Triple, j: nat)
    requires j < 3
    ensures PartOf(WordOf(Chars(TripleWord(buf, t), 4)), j) == At(buf, Third(t, j))
  {
    SmallPowers();
    CharsDecode(TripleWord(buf, t), 4);
    PartsOfWord(At(buf, t.0), At(buf, t.1), At(buf, t.2));
  }

  lemma ReadGroup(buf: seq<Byte>, f: Format, g: nat, j: nat)
    requires WellFormedFormat(f) && |buf| == f.size && g < |f.triples| && j < 3
    ensures ByteAt(Encode(buf, f), f, InGroup(g, j)) == At(buf, Third(f.triples[g], j))
  {
    GroupAt(buf, f.triples, g);
    SliceOfFirst(Groups(buf, f.triples), Tail(buf, f.tail), 4 * g, 4 * g + 4);
    DecodeTriple(buf, f.triples[g], j);
  }

  lemma DecodeTail(buf: seq<Byte>, tail: seq<nat>, j: nat)
    requires 1 <= |tail| <= 2 && j < |tail|
    ensures PartOf(WordOf(Tail(buf, tail)), if |tail| == 1 then 2 else j + 1) == At(buf, tail[j])
  {
    SmallPowers();
    if |tail| == 1 {
      CharsDecode(Word(0, 0, At(buf, tail[0])), 2);
      PartsOfWord(0, 0, At(buf, tail[0]));
    } else {
      CharsDecode(Word(0, At(buf, tail[0]), At(buf, tail[1])), 3);
      PartsOfWord(0, At(buf, tail[0]), At(buf, tail[1]));
    }
  }

  lemma DropFirst(a: string, b: string)
    ensures (a + b)[|a|..] == b
  {
  }

  lemma ReadTail(buf: seq<Byte>, f: Format, j: nat)
    requires WellFormedFormat(f) && |buf| == f.size && j < |f.tail|
    ensures ByteAt(Encode(buf, f), f, InTail(j)) == At(buf, f.tail[j])
  {
    DropFirst(Groups(buf, f.triples), Tail(buf, f.tail));
    DecodeTail(buf, f.tail, j);
  }

  /** The encodings lose nothing: for each of the three formats the digest is recovered
      from its 22, 43 or 86 characters. */
  lemma Lossless(f: Format, buf: seq<Byte>)
    requires IsFormat(f) && |buf| == f.size
    ensures WellFormedFormat(f) && Decode(Encode(buf, f), f) == buf
    ensures |Encode(buf, f)| == if f == MD5 then 22 else if f == SHA256 then 43 else 86
  {
    FormatsWellFormed();
    var text := Encode(buf, f);
    forall k: nat | k < f.size
      ensures ByteAt(text, f, PlaceOf(f, k)) == buf[k]
    {
      EveryByteHasAPlace(f, k);
      match PlaceOf(f, k) {
        case InGroup(g, j) => ReadGroup(buf, f, g, j);
        case InTail(j) => ReadTail(buf, f, j);
      }
    }
  }

  // --------------------------------------------- character for character

  /** The alphabet: a full stop (46), a slash, the digits, the capitals (from 65) and the
      small letters (from 97); a larger number has a larger character. */
  lemma AlphabetIs(i: nat, j: nat)
    requires i < j < 64
    ensures Cov2Char(i) < Cov2Char(j)
    ensures i < 12 ==> Cov2Char(i) as int == 46 + i
    ensures 12 <= i < 38 ==> Cov2Char(i) as int == 65 + (i - 12)
    ensures 38 <= j ==> Cov2Char(j) as int == 97 + (j - 38)
  {
  }

  /** The order of the digest's bytes: group g holds those a third of the digest apart, the
      group turned one place further from one to the next. */
  lemma OrdersAre(g: nat)
    ensures Rotated256(g) ==
            if g % 3 == 0 then (g, g + 10, g + 20)
            else if g % 3 == 1 then (g + 20, g, g + 10) else (g + 10, g + 20, g)
    ensures Rotated512(g) ==
            if g % 3 == 0 then (g, g + 21, g + 42)
            else if g % 3 == 1 then (g + 21, g + 42, g) else (g + 42, g, g + 21)
  {
  }

  /** md5crypt does not turn its groups, and takes byte 5 into the last one. */
  lemma OrderMd5(g: nat)
    requires g < 5
    ensures |MD5.triples| == 5 && MD5.triples[g] == if g < 4 then (g, g + 6, g + 12) else (4, 10, 5)
  {
  }

  lemma TailsAre()
    ensures |SHA256.triples| == 10 && |SHA512.triples| == 21 && |MD5.triples| == 5
    ensures SHA256.tail == [31, 30] && SHA512.tail == [63] && MD5.tail == [11]
    ensures SHA256.size == 32 && SHA512.size == 64 && MD5.size == 16
  {
  }

  lemma WordIs(b2: Byte, b1: Byte, b0: Byte)
    ensures Word(b2, b1, b0) == 65536 * (b2 as int) + 256 * (b1 as int) + (b0 as int)
  {
  }

  /** Each four characters are the six-bit digits of three bytes, the low ones first. */
  lemma {:induction false} EncodedAt(f: Format, buf: seq<Byte>, g: nat, k: nat, a: nat, b: nat, c: nat)
    requires IsFormat(f) && |buf| == f.size && g < |f.triples| && k < 4 && f.triples[g] == (a, b, c)
    ensures WellFormedFormat(f) && a < |buf| && b < |buf| && c < |buf| && 4 * g + k < |Encode(buf, f)|
    ensures Encode(buf, f)[4 * g + k] == Cov2Char(DropDigits(Word(buf[a], buf[b], buf[c]), k) % 64)
  {
    FormatsWellFormed();
    assert InRange(f.triples[g], f.size);
    EncodedGroup(buf, f, g, k, TripleWord(buf, f.triples[g]));
  }

  lemma {:induction false} EncodedGroup(buf: seq<Byte>, f: Format, g: nat, k: nat, w: nat)
    requires 1 <= |f.tail| <= 2 && g < |f.triples| && k < 4 && w == TripleWord(buf, f.triples[g])
    ensures 4 * g + k < |Encode(buf, f)| && Encode(buf, f)[4 * g + k] == Cov2Char(DropDigits(w, k) % 64)
  {
    GroupAt(buf, f.triples, g);
    CharAt(w, 4, k);
    assert Groups(buf, f.triples)[4 * g..4 * g + 4][k] == Groups(buf, f.triples)[4 * g + k];
  }

  /** The last two or three characters are those of what is left of the digest. */
  lemma {:induction false} EncodedTail(f: Format, buf: seq<Byte>, k: nat, w: nat)
    requires IsFormat(f) && |buf| == f.size && k <= |f.tail|
    requires f == SHA256 ==> |buf| == 32 && w == Word(0, buf[31], buf[30])
    requires f == SHA512 ==> |buf| == 64 && w == buf[63]
    requires f == MD5 ==> |buf| == 16 && w == buf[11]
    ensures WellFormedFormat(f) && |Encode(buf, f)| == 4 * |f.triples| + |f.tail| + 1
    ensures Encode(buf, f)[4 * |f.triples| + k] == Cov2Char(DropDigits(w, k) % 64)
  {
    FormatsWellFormed();
    TailsAre();
    TailAt(buf, f.tail, k, w);
  }

  lemma {:induction false} TailAt(buf: seq<Byte>, tail: seq<nat>, k: nat, w: nat)
    requires 1 <= |tail| <= 2 && k <= |tail|
    requires w == if |tail| == 1 then At(buf, tail[0]) else Word(0, At(buf, tail[0]), At(buf, tail[1]))
    ensures Tail(buf, tail)[k] == Cov2Char(DropDigits(w, k) % 64)
  {
    CharAt(w, |tail| + 1, k);
  }

  // -------------------------------------------- the encoders themselves

  lemma {:induction false} GroupsStep(buf: seq<Byte>, triples: seq<Triple>, g: nat)
    requires g < |triples|
    ensures Groups(buf, triples[..g + 1]) == Groups(buf, triples[..g]) + Chars(TripleWord(buf, triples[g]), 4)
  {
    assert triples[..g + 1][..g] == triples[..g];
  }

  /** shacrypt's final switch: one macro call for each line of the table. */
  method EncodeInto(out: array<char>, start: nat, buf: seq<Byte>, f: Format) returns (cp: nat)
    requires 1 <= |f.tail| <= 2
    requires start + 4 * |f.triples| + |f.tail| + 1 <= out.Length
    modifies out
    ensures cp == start + 4 * |f.triples| + |f.tail| + 1
    ensures out[..cp] == old(out[..start]) + Encode(buf, f)
  {
    cp := TriplesInto(out, start, buf, f.triples);
    cp := TailInto(out, cp, buf, f.tail);
    Assoc(old(out[..start]), Groups(buf, f.triples), Tail(buf, f.tail));
  }

  method TriplesInto(out: array<char>, start: nat, buf: seq<Byte>, triples: seq<Triple>) returns (cp: nat)
    requires start + 4 * |triples| <= out.Length
    modifies out
    ensures cp == start + 4 * |triples|
    ensures out[..cp] == old(out[..start]) + Groups(buf, triples)
  {
    ghost var header := out[..start];
    cp := start;
    assert header + [] == header;
    for g := 0 to |triples|
      invariant cp == start + 4 * g
      invariant out[..cp] == header + Groups(buf, triples[..g])
    {
      var t := triples[g];
      GroupsStep(buf, triples, g);
      Assoc(header, Groups(buf, triples[..g]), Chars(TripleWord(buf, t), 4));
      cp := B64From24Bit(out, cp, At(buf, t.0), At(buf, t.1), At(buf, t.2), 4);
    }
    assert triples[..|triples|] == triples;
  }

  method TailInto(out: array<char>, start: nat, buf: seq<Byte>, tail: seq<nat>) returns (cp: nat)
    requires 1 <= |tail| <= 2 && start + |tail| + 1 <= out.Length
    modifies out
    ensures cp == start + |tail| + 1
    ensures out[..cp] == old(out[..start]) + Tail(buf, tail)
  {
    if |tail| == 1 {
      cp := B64From24Bit(out, start, 0, 0, At(buf, tail[0]), 2);
    } else {
      cp := B64From24Bit(out, start, 0, At(buf, tail[0]), At(buf, tail[1]), 3);
    }
  }

  /** Group `g` of the permuted bytes is the triple `t` of the digest. */
  predicate Permuted(perm: seq<Byte>, buf: seq<Byte>, t: Triple, g: nat) {
    && InRange(t, |buf|) && 3 * g + 2 < |perm|
    && perm[3 * g] == buf[t.0] && perm[3 * g + 1] == buf[t.1] && perm[3 * g + 2] == buf[t.2]
  }

  /** md5crypt's permutation loop: steps of six modulo seventeen, then bytes 5 and 11. */
  method Permute(buf: seq<Byte>) returns (perm: seq<Byte>)
    requires |buf| == 16
    ensures |perm| == 16
    ensures forall g :: 0 <= g < 5 ==> Permuted(perm, buf, MD5.triples[g], g)
    ensures perm[15] == buf[11]
  {
    perm := [];
    var dest, source := 0, 0;
    while dest < 14
      invariant 0 <= dest <= 14 && |perm| == dest
      invariant source == (if dest < 14 then dest / 3 + 6 * (dest % 3) else 16)
      invariant forall d :: 0 <= d < dest ==> perm[d] == buf[d / 3 + 6 * (d % 3)]
    {
      perm := perm + [buf[source]];
      dest, source := dest + 1, (source + 6) % 17;
    }
    perm := perm + [buf[5]] + [buf[11]];
    forall g | 0 <= g < 5
      ensures Permuted(perm, buf, MD5.triples[g], g)
    {
      TableMd5(g);
      assert 3 * g / 3 == g && (3 * g + 1) / 3 == g && (3 * g + 2) / 3 == g;
    }
  }

  lemma CharsStep(w: nat, d: nat, rest: nat, n: nat)
    requires d < 64 && w == d + 64 * rest
    ensures Chars(w, n + 1) == [Cov2Char(d)] + Chars(rest, n)
  {
    assert w % 64 == d && w / 64 == rest;
  }

  lemma {:induction false} LastTwo(w: nat, d0: nat, d1: nat)
    requires d0 < 64 && d1 < 64 && w == d0 + 64 * d1
    ensures Chars(w, 2) == [Cov2Char(d0), Cov2Char(d1)]
  {
    CharsStep(w, d0, d1, 1);
    CharsStep(d1, d1, 0, 0);
    assert Chars(d1, 1) == [Cov2Char(d1)];
  }

  lemma {:induction false} FourDigits(w: nat, w1: nat, d0: nat, d1: nat, d2: nat, d3: nat)
    requires d0 < 64 && d1 < 64 && d2 < 64 && d3 < 64
    requires w == d0 + 64 * w1 && w1 == d1 + 64 * (d2 + 64 * d3)
    ensures Chars(w, 4) == [Cov2Char(d0), Cov2Char(d1), Cov2Char(d2), Cov2Char(d3)]
  {
    var w2 := d2 + 64 * d3;
    LastTwo(w2, d2, d3);
    CharsStep(w1, d1, w2, 2);
    CharsStep(w, d0, w1, 3);
    assert Chars(w, 4) == [Cov2Char(d0)] + ([Cov2Char(d1)] + [Cov2Char(d2), Cov2Char(d3)]);
  }

  lemma MaskedWord(b2: Byte, b1: Byte, b0: Byte)
    ensures Word(b2, b1, b0) == b0 % 64 + 64 * (b1 % 16 * 4 + b0 / 64 + 64 * (b2 % 4 * 16 + b1 / 16 + 64 * (b2 / 4)))
  {
  }

  /** The four characters that md5crypt picks by masks are the four six-bit digits. */
  method FourCharsInto(out: array<char>, start: nat, b2: Byte, b1: Byte, b0: Byte) returns (cp: nat)
    requires start + 4 <= out.Length
    modifies out
    ensures cp == start + 4
    ensures out[..cp] == old(out[..start]) + Chars(Word(b2, b1, b0), 4)
  {
    ghost var before := out[..start];
    MaskedWord(b2, b1, b0);
    FourDigits(Word(b2, b1, b0), b1 % 16 * 4 + b0 / 64 + 64 * (b2 % 4 * 16 + b1 / 16 + 64 * (b2 / 4)),
               b0 % 64, b1 % 16 * 4 + b0 / 64, b2 % 4 * 16 + b1 / 16, b2 / 4);
    out[start] := FirstChar(b0);
    out[start + 1] := SecondChar(b1, b0);
    out[start + 2] := ThirdChar(b2, b1);
    out[start + 3] := FourthChar(b2);
    cp := start + 4;
    assert out[..cp] == before + [out[start], out[start + 1], out[start + 2], out[start + 3]];
  }

  lemma PermutedWord(perm: seq<Byte>, buf: seq<Byte>, t: Triple, g: nat, i: nat)
    requires Permuted(perm, buf, t, g) && i == 3 * g
    ensures i + 2 < |perm| && TripleWord(buf, t) == Word(perm[i], perm[i + 1], perm[i + 2])
  {
  }

  lemma {:induction false} MoreGroups(header: string, text: string, buf: seq<Byte>, triples: seq<Triple>, g: nat)
    requires g < |triples| && text == header + Groups(buf, triples[..g])
    ensures text + Chars(TripleWord(buf, triples[g]), 4) == header + Groups(buf, triples[..g + 1])
  {
    GroupsStep(buf, triples, g);
    Assoc(header, Groups(buf, triples[..g]), Chars(TripleWord(buf, triples[g]), 4));
  }

  /** md5crypt's output loop over the permuted bytes. */
  method GroupsInto(out: array<char>, start: nat, perm: seq<Byte>, ghost buf: seq<Byte>, ghost triples: seq<Triple>)
    returns (cp: nat)
    requires |perm| == 16 && |triples| == 5 && start + 20 <= out.Length
    requires forall g :: 0 <= g < 5 ==> Permuted(perm, buf, triples[g], g)
    modifies out
    ensures cp == start + 20
    ensures out[..cp] == old(out[..start]) + Groups(buf, triples)
  {
    ghost var header := out[..start];
    cp := start;
    assert header + [] == header;
    var i := 0;
    ghost var g := 0;
    while i < 15
      invariant 0 <= g <= 5 && i == 3 * g && cp == start + 4 * g
      invariant out[..cp] == header + Groups(buf, triples[..g])
    {
      PermutedWord(perm, buf, triples[g], g, i);
      MoreGroups(header, out[..cp], buf, triples, g);
      cp := FourCharsInto(out, cp, perm[i], perm[i + 1], perm[i + 2]);
      i, g := i + 3, g + 1;
    }
    assert triples[..5] == triples;
  }

  /** The whole of md5crypt's encoding. */
  method EncodeMd5Into(out: array<char>, start: nat, buf: seq<Byte>) returns (cp: nat)
    requires |buf| == 16 && start + 22 <= out.Length
    modifies out
    ensures cp == start + 22
    ensures out[..cp] == old(out[..start]) + Encode(buf, MD5)
  {
    FormatsWellFormed();
    ghost var header := out[..start];
    var perm := Permute(buf);
    cp := GroupsInto(out, start, perm, buf, MD5.triples);
    ghost var front := out[..cp];
    out[cp] := FirstChar(perm[15]);
    out[cp + 1] := LastChar(perm[15]);
    LastTwo(perm[15], perm[15] % 64, perm[15] / 64);
    cp := cp + 2;
    assert out[..cp] == front + Chars(Word(0, 0, buf[11]), 2);
    assert Encode(buf, MD5) == Groups(buf, MD5.triples) + Chars(Word(0, 0, buf[11]), 2);
    Assoc(header, Groups(buf, MD5.triples), Chars(Word(0, 0, buf[11]), 2));
  }
}
