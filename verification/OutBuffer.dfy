/** The static output buffer of the password hashes, and the bytes of a text. */
module OutBuffer {
  import opened Text
  import opened CryptEncoding

  function Bytes(s: string): (r: seq<Byte>)
    ensures |r| == |s|
  {
    seq(|s|, i requires 0 <= i < |s| => s[i] as int % 256)
  }

  lemma BytesAre(s: string, i: nat)
    requires i < |s| && s[i] as int < 256
    ensures Bytes(s)[i] == s[i] as int
  {
  }

  /** OPENSSL_strlcat on the static buffer, whose text is `out[..len]`. */
  method Append(out: array<char>, len: nat, src: string) returns (newLen: nat)
    requires len < out.Length
    modifies out
    ensures newLen < out.Length && out[..newLen] == Strlcat(old(out[..len]), src, out.Length)
    ensures newLen == |Strlcat(old(out[..len]), src, out.Length)| && out[newLen] == '\0'
  {
    var added := Strlcpy(src, out.Length - len);
    newLen := len;
    for k := 0 to |added|
      invariant newLen == len + k
      invariant out[..len] == old(out[..len])
      invariant out[len..newLen] == added[..k]
    {
      out[newLen] := added[k];
      newLen := newLen + 1;
    }
    out[newLen] := '\0';
    assert out[..newLen] == out[..len] + out[len..newLen];
  }

  /** Appending to the buffer without reaching its end: nothing is cut off. */
  method AppendAll(out: array<char>, len: nat, src: string, ghost text: string) returns (newLen: nat)
    requires len + |src| < out.Length && out[..len] == text
    modifies out
    ensures newLen == len + |src| && out[..newLen] == text + src
  {
    newLen := Append(out, len, src);
  }
}
