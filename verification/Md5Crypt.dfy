/** md5crypt: the MD5 password hash of BSD ("1"), Apache ("apr1") and AIX (no magic). */
module Md5Crypt {
  import opened Text
  import opened CryptEncoding
  import opened CryptStream
  import opened OutBuffer

  const SALT_MAX := 8
  /** Room for the longest magic, the salt with its dollar sign, the digest and a NUL. */
  const OUT_SIZE := 6 + 9 + 24 + 2
  const ROUNDS := 1000

  function Salt(salt: string): string {
    if |salt| <= SALT_MAX then salt else salt[..SALT_MAX]
  }

  function MagicPart(magic: string): string {
    if magic == "" then "" else "$" + magic + "$"
  }

  /** The digest: the magic is hashed along, a 1-bit of the length feeds a NUL, a 0-bit the
      first password byte, and the rounds use password and salt themselves. */
  function Described(h: Digest, p: seq<Byte>, magic: string, s: seq<Byte>): (r: seq<Byte>)
    requires HasSize(h, 16)
    ensures |r| == 16
  {
    var b := h(p + s + p);
    assert |b| == 16;
    var a := h(p + Bytes(MagicPart(magic)) + s + Cyclic(b, |p|) + BitFeed(|p|, 0, [0], p[..if |p| == 0 then 0 else 1]));
    RoundsSize(h, a, p, s, ROUNDS, 16);
    Rounds(h, a, p, s, ROUNDS)
  }

  function Result(h: Digest, passwd: seq<Byte>, magic: string, salt: string): string
    requires HasSize(h, 16)
  {
    MagicPart(magic) + Salt(salt) + "$" + Encode(Described(h, passwd, magic, Bytes(Salt(salt))), MD5)
  }

  /** Password, magic, salt, as many bytes of the digest of password, salt and password as the
      password has, and for each bit of its length, the lowest first, a NUL for a 1 and the
      first byte of the password for a 0; then 1000 rounds with password and salt. */
  lemma {:induction false} DescribedIs(h: Digest, p: seq<Byte>, magic: string, s: seq<Byte>, half: nat)
    requires HasSize(h, 16) && (|p| == 2 * half || |p| == 2 * half + 1)
    ensures var b := h(p + s + p);
            |b| == 16 &&
            var front := p + Bytes(if magic == "" then "" else "$" + magic + "$") + s + Cyclic(b, |p|);
            var rest := BitFeed(half, 0, [0], if p == [] then [] else [p[0]]);
            var a := h(front + if |p| == 2 * half + 1 then [0] + rest else if p == [] then [] else [p[0]] + rest);
            Described(h, p, magic, s) == Rounds(h, a, p, s, 1000)
  {
    assert |h(p + s + p)| == 16;
    LowestBitFirst(half, [0], p[..if |p| == 0 then 0 else 1]);
    if p != [] { assert p[..1] == [p[0]]; }
  }

  /** The result, character for character up to the digest: 8 characters of salt count. */
  lemma ResultIs(h: Digest, passwd: seq<Byte>, magic: string, salt: string)
    requires HasSize(h, 16)
    ensures var used := if |salt| <= 8 then salt else salt[..8];
            Result(h, passwd, magic, salt) ==
            (if magic == "" then "" else "$" + magic + "$") + used + "$"
            + Encode(Described(h, passwd, magic, Bytes(used)), MD5)
  {
  }

  method HashPassword(h: Digest, passwd: seq<Byte>, magic: string, salt: seq<Byte>) returns (buf: seq<Byte>)
    requires HasSize(h, 16)
    ensures buf == Described(h, passwd, magic, salt)
  {
    var md := passwd;
    if |magic| > 0 {
      md := md + Bytes("$") + Bytes(magic) + Bytes("$");
      MagicBytes(magic);
      assert md == passwd + Bytes(MagicPart(magic));
    } else {
      assert md == passwd + Bytes(MagicPart(magic));
    }
    md := md + salt;
    buf := h(passwd + salt + passwd);
    assert |buf| == 16;
    md := FeedBlocks(md, buf, |passwd|);
    md := FeedBits(md, |passwd|, [0], passwd[..if |passwd| == 0 then 0 else 1]);
    buf := h(md);
    buf := RunRounds(h, buf, passwd, salt, ROUNDS);
  }

  lemma MagicBytes(magic: string)
    ensures Bytes("$" + magic + "$") == Bytes("$") + Bytes(magic) + Bytes("$")
  {
  }

  /** The magic and the salt in the output buffer. */
  method WriteHeader(out: array<char>, magic: string, salt: string) returns (len: nat)
    requires out.Length == OUT_SIZE && |magic| <= 4 && |salt| <= SALT_MAX
    modifies out
    ensures len == |MagicPart(magic) + salt| && out[..len] == MagicPart(magic) + salt
  {
    out[0] := '\0';
    len := 0;
    if |magic| > 0 {
      len := AppendAll(out, 0, "$", "");
      len := AppendAll(out, len, magic, "" + "$");
      len := AppendAll(out, len, "$", "" + "$" + magic);
      assert "" + "$" + magic + "$" == MagicPart(magic);
    }
    len := AppendAll(out, len, salt, MagicPart(magic));
  }

  /** md5crypt. It fails only for a magic of more than four characters; the result fits
      the static buffer with room to spare. */
  method Md5(h: Digest, out: array<char>, passwd: seq<Byte>, magic: string, salt: string) returns (r: Option<nat>)
    requires HasSize(h, 16) && out.Length == OUT_SIZE
    modifies out
    ensures r.Some? <==> |magic| <= 4
    ensures r.Some? ==> r.value <= 37 && out[r.value] == '\0' && out[..r.value] == Result(h, passwd, magic, salt)
  {
    if |magic| > 4 {
      return None;
    }
    var asciiSalt := Strlcpy(salt, SALT_MAX + 1);
    assert asciiSalt == Salt(salt);
    var len := WriteHeader(out, magic, asciiSalt);
    if len > 6 + 8 {
      assert false;  // the length guard never fires
    }
    var buf := HashPassword(h, passwd, magic, Bytes(asciiSalt));
    ghost var header := out[..len];
    out[len] := '$';
    assert out[..len + 1] == header + "$";
    var cp := EncodeMd5Into(out, len + 1, buf);
    ghost var text := out[..cp];
    out[cp] := '\0';
    assert out[..cp] == text;
    r := Some(cp);
  }
}
