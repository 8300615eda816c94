/** Serial numbers as the index stores and compares them: upper-case hex of even
    length, compared after leading zeros are skipped. */
module Serials {
  predicate IsUpperHex(c: char) {
    '0' <= c <= '9' || 'A' <= c <= 'F'
  }

  /** isxdigit */
  predicate IsHex(c: char) {
    IsUpperHex(c) || 'a' <= c <= 'f'
  }

  predicate AllHex(s: string) {
    forall i :: 0 <= i < |s| ==> IsHex(s[i])
  }

  predicate AllUpperHex(s: string) {
    forall i :: 0 <= i < |s| ==> IsUpperHex(s[i])
  }

  function HexChar(v: nat): (c: char)
    requires v < 16
    ensures IsUpperHex(c)
  {
    if v < 10 then (('0' as int) + v) as char else (('A' as int) + v - 10) as char
  }

  function HexValue(c: char): (v: nat)
    requires IsHex(c)
    ensures v < 16
    ensures IsUpperHex(c) ==> HexChar(v) == c
  {
    if c <= '9' then (c as int) - ('0' as int)
    else if c <= 'F' then (c as int) - ('A' as int) + 10
    else (c as int) - ('a' as int) + 10
  }

  function HexByte(v: nat): (s: string)
    requires v < 256
    ensures AllUpperHex(s) && |s| == 2
  {
    [HexChar(v / 16), HexChar(v % 16)]
  }

  function WithByte(front: string, v: nat): (s: string)
    requires AllUpperHex(front) && v < 256
    ensures AllUpperHex(s) && |s| == |front| + 2
  {
    front + HexByte(v)
  }

  /** Two digits for each byte of n, the top byte not zero unless n is. */
  function BytesHex(n: nat): (s: string)
    ensures AllUpperHex(s) && |s| >= 2
  {
    if n < 256 then HexByte(n) else WithByte(BytesHex(n / 256), n % 256)
  }

  function ByteCount(n: nat): nat {
    if n < 256 then 1 else ByteCount(n / 256) + 1
  }

  lemma {:induction false} TwoDigitsEach(n: nat)
    ensures |BytesHex(n)| == 2 * ByteCount(n)
  {
    if n >= 256 { TwoDigitsEach(n / 256); }
  }

  lemma {:induction false} BytesHexEven(n: nat)
    ensures |BytesHex(n)| % 2 == 0
  {
    TwoDigitsEach(n);
    Twice(|BytesHex(n)|, ByteCount(n));
  }

  lemma Twice(x: nat, k: nat)
    requires x == 2 * k
    ensures x % 2 == 0
  {
  }

  /** BN_bn2hex */
  function Bn2Hex(n: int): string {
    if n == 0 then "0" else if n < 0 then "-" + BytesHex(-n) else BytesHex(n)
  }

  /** The key do_body, do_revoke and lookup_serial build for a serial number. */
  function SerialText(n: int): string {
    if n == 0 then "00" else Bn2Hex(n)
  }

  function HexVal(s: string): nat
    requires AllHex(s)
  {
    if s == [] then 0 else 16 * HexVal(s[..|s| - 1]) + HexValue(s[|s| - 1])
  }

  function StripZeros(s: string): (r: string)
    ensures r == [] || r[0] != '0'
  {
    if s == [] || s[0] != '0' then s else StripZeros(s[1..])
  }

  lemma {:induction false} StripSuffix(s: string)
    ensures var r := StripZeros(s); |r| <= |s| && r == s[|s| - |r|..]
  {
    if s != [] && s[0] == '0' { StripSuffix(s[1..]); }
  }

  /** index_serial_cmp(a, b) == 0 */
  predicate KeyEq(a: string, b: string) {
    StripZeros(a) == StripZeros(b)
  }

  /** The startup check on a row's serial field. */
  predicate SerialOk(s: string) {
    var digits := if s != [] && s[0] == '-' then s[1..] else s;
    |digits| % 2 == 0 && |digits| >= 2 && AllHex(digits)
  }

  lemma {:induction false} HexAppend(s: string, c: char)
    requires AllHex(s) && IsHex(c)
    ensures AllHex(s + [c]) && HexVal(s + [c]) == 16 * HexVal(s) + HexValue(c)
  {
    assert (s + [c])[..|s|] == s;
  }

  lemma {:induction false} ByteAppend(s: string, v: nat)
    requires AllHex(s) && v < 256
    ensures AllHex(s + HexByte(v)) && HexVal(s + HexByte(v)) == 256 * HexVal(s) + v
  {
    HexCharValue(v / 16);
    HexCharValue(v % 16);
    HexAppend(s, HexChar(v / 16));
    HexAppend(s + [HexChar(v / 16)], HexChar(v % 16));
    assert s + HexByte(v) == s + [HexChar(v / 16)] + [HexChar(v % 16)];
  }

  lemma {:induction false} BytesHexValue(n: nat)
    ensures HexVal(BytesHex(n)) == n
  {
    if n < 256 {
      ByteAppend([], n);
      assert [] + HexByte(n) == HexByte(n);
    } else {
      var q, v := n / 256, n % 256;
      BytesHexValue(q);
      ByteAppend(BytesHex(q), v);
      assert n == 256 * q + v;
    }
  }

  lemma HexCharValue(v: nat)
    requires v < 16
    ensures HexValue(HexChar(v)) == v
  {
  }

  lemma {:induction false} StripKeepsValue(s: string)
    requires AllHex(s)
    ensures AllHex(StripZeros(s)) && HexVal(StripZeros(s)) == HexVal(s)
  {
    if s != [] && s[0] == '0' {
      LeadingZero(s[1..]);
      assert s == "0" + s[1..];
      StripKeepsValue(s[1..]);
    }
  }

  lemma {:induction false} LeadingZero(s: string)
    requires AllHex(s)
    ensures AllHex("0" + s) && HexVal("0" + s) == HexVal(s)
  {
    var z := "0" + s;
    assert AllHex(z);
    if s == [] {
      assert z[..0] == [];
    } else {
      assert z[..|z| - 1] == "0" + s[..|s| - 1];
      LeadingZero(s[..|s| - 1]);
    }
  }

  lemma {:induction false} NonzeroValue(s: string)
    requires AllHex(s) && s != [] && s[0] != '0'
    ensures HexVal(s) > 0
  {
    if |s| > 1 { NonzeroValue(s[..|s| - 1]); }
  }

  lemma {:induction false} SameValueSameDigits(a: string, b: string)
    requires AllUpperHex(a) && AllUpperHex(b)
    requires (a == [] || a[0] != '0') && (b == [] || b[0] != '0')
    requires HexVal(a) == HexVal(b)
    ensures a == b
  {
    if a == [] || b == [] {
      if a != [] { NonzeroValue(a); }
      if b != [] { NonzeroValue(b); }
    } else {
      var m, n := |a| - 1, |b| - 1;
      assert HexVal(a[..m]) == HexVal(b[..n]) && HexValue(a[m]) == HexValue(b[n]);
      assert m == 0 || a[..m][0] == a[0];
      assert n == 0 || b[..n][0] == b[0];
      SameValueSameDigits(a[..m], b[..n]);
      assert a == a[..m] + [a[m]] && b == b[..n] + [b[n]];
    }
  }

  lemma {:induction false} UpperStrips(s: string)
    ensures StripZeros(Upper(s)) == Upper(StripZeros(s))
  {
    if s != [] {
      assert Upper(s)[1..] == Upper(s[1..]);
      UpperStrips(s[1..]);
    }
  }

  lemma {:induction false} StrippedCase(s: string)
    requires AllHex(s)
    ensures AllUpperHex(s) <==> AllUpperHex(StripZeros(s))
  {
    StripSuffix(s);
    var r := StripZeros(s);
    StrippedZeros(s);
    assert forall i :: 0 <= i < |r| ==> r[i] == s[|s| - |r| + i];
    assert forall i :: |s| - |r| <= i < |s| ==> s[i] == r[i - (|s| - |r|)];
  }

  lemma {:induction false} StrippedZeros(s: string)
    ensures forall i :: 0 <= i < |s| - |StripZeros(s)| ==> s[i] == '0'
  {
    if s != [] && s[0] == '0' {
      StripSuffix(s[1..]);
      StrippedZeros(s[1..]);
      assert forall i :: 0 < i < |s| ==> s[i] == s[1..][i - 1];
    }
  }

  /** In upper-case hex, one key is one number. */
  lemma {:induction false} UpperKeys(a: string, b: string)
    requires AllUpperHex(a) && AllUpperHex(b)
    ensures KeyEq(a, b) <==> HexVal(a) == HexVal(b)
  {
    StripKeepsValue(a);
    StripKeepsValue(b);
    StrippedCase(a);
    StrippedCase(b);
    if HexVal(a) == HexVal(b) {
      SameValueSameDigits(StripZeros(a), StripZeros(b));
    }
  }

  /** Hex texts with the same key spell the same number. The comparison minds the letter
      case, so the converse holds for texts in upper case: a text that is not all in upper
      case never has the key of one that is. */
  lemma {:induction false} SameKey(a: string, b: string)
    requires AllHex(a) && AllHex(b)
    ensures KeyEq(a, b) ==> HexVal(a) == HexVal(b)
    ensures HexVal(a) == HexVal(b) <==> KeyEq(Upper(a), Upper(b))
    ensures AllUpperHex(b) ==> (KeyEq(a, b) <==> AllUpperHex(a) && HexVal(a) == HexVal(b))
  {
    UpperKeepsValue(a);
    UpperKeepsValue(b);
    UpperKeys(Upper(a), Upper(b));
    UpperStrips(a);
    UpperStrips(b);
    StrippedCase(a);
    StrippedCase(b);
    if AllUpperHex(a) && AllUpperHex(b) { UpperKeys(a, b); }
  }

  lemma SignedKeyDiffers(digits: string, signed: string)
    requires AllUpperHex(digits) && signed != [] && signed[0] == '-'
    ensures !KeyEq(digits, signed) && !KeyEq(signed, digits)
  {
    var t := StripZeros(digits);
    StripSuffix(digits);
    if t != [] { assert t[0] == digits[|digits| - |t|]; }
  }

  /** The stored key is a faithful name of the number. */
  lemma SerialTextInjective(m: int, n: int)
    ensures KeyEq(SerialText(m), SerialText(n)) <==> m == n
  {
    OwnKeysFindable(m);
    FoundExactlyIf(SerialText(m), n);
  }

  lemma {:induction false} SerialShape(n: int)
    ensures SerialOk(SerialText(n)) && SerialText(n) != []
    ensures n >= 0 ==> AllUpperHex(SerialText(n)) && HexVal(SerialText(n)) == n
    ensures n < 0 ==> SerialText(n) == "-" + BytesHex(-n)
  {
    BytesHexEven(if n < 0 then -n else n);
    if n > 0 {
      BytesHexValue(n);
    } else if n == 0 {
      assert "00"[..1] == "0" && "0"[..0] == [];
      assert HexVal("0") == 0;
    } else {
      assert SerialText(n)[1..] == BytesHex(-n);
    }
  }

  /** A number not below the value of a stored hex text is a different key only if larger. */
  lemma {:induction false} LargerIsFresh(stored: string, n: int)
    requires SerialOk(stored) && n >= 0
    requires stored[0] != '-' ==> AllHex(stored) && HexVal(stored) < n
    ensures !KeyEq(stored, SerialText(n))
  {
    SerialShape(n);
    if stored[0] == '-' {
      SignedKeyDiffers(SerialText(n), stored);
    } else {
      StripKeepsValue(stored);
      StripKeepsValue(SerialText(n));
    }
  }

  // ---------------------------------------------- the characters themselves

  /** Hex digits: 48 to 57, 65 to 70 and 97 to 102. */
  lemma HexDigits(c: char)
    ensures IsUpperHex(c) <==> 48 <= c as int <= 57 || 65 <= c as int <= 70
    ensures IsHex(c) <==> 48 <= c as int <= 57 || 65 <= c as int <= 70 || 97 <= c as int <= 102
    ensures 48 <= c as int <= 57 ==> HexValue(c) == c as int - 48
    ensures 65 <= c as int <= 70 ==> HexValue(c) == c as int - 55
    ensures 97 <= c as int <= 102 ==> HexValue(c) == c as int - 87
    ensures UpperChar(c) as int == if 97 <= c as int <= 122 then c as int - 32 else c as int
  {
  }

  /** The startup check: a sign or none, and then hex digits, an even number and not none. */
  lemma {:induction false} SerialOkExactlyIf(s: string)
    ensures SerialOk(s) <==>
            var k := if s != [] && s[0] as int == 45 then 1 else 0;
            && |s| >= k + 2 && |s| % 2 == k
            && forall i :: k <= i < |s| ==>
                 48 <= s[i] as int <= 57 || 65 <= s[i] as int <= 70 || 97 <= s[i] as int <= 102
  {
    var k := if s != [] && s[0] == '-' then 1 else 0;
    var digits := if k == 1 then s[1..] else s;
    assert forall i :: 0 <= i < |digits| ==> digits[i] == s[i + k];
    assert forall i :: k <= i < |s| ==> s[i] == digits[i - k];
  }

  lemma {:induction false} ZerosSkipped(zeros: string, rest: string)
    requires (forall i :: 0 <= i < |zeros| ==> zeros[i] == '0') && (rest != [] ==> rest[0] != '0')
    ensures StripZeros(zeros + rest) == rest
  {
    if zeros == [] {
      assert zeros + rest == rest;
    } else {
      assert (zeros + rest)[1..] == zeros[1..] + rest;
      ZerosSkipped(zeros[1..], rest);
    }
  }

  /** The comparison of keys: leading zeros do not count, all else does. */
  lemma KeysExactlyIf(zeros: string, a: string, noughts: string, b: string)
    requires forall i :: 0 <= i < |zeros| ==> zeros[i] == '0'
    requires forall i :: 0 <= i < |noughts| ==> noughts[i] == '0'
    requires (a != [] ==> a[0] != '0') && (b != [] ==> b[0] != '0')
    ensures KeyEq(zeros + a, noughts + b) <==> a == b
  {
    ZerosSkipped(zeros, a);
    ZerosSkipped(noughts, b);
  }

  /** A typed serial of odd length gets a zero in front, and all letters become capitals. */
  lemma NormalisedIs(s: string, i: nat)
    requires i < |s|
    ensures |Normalised(s)| == |s| + |s| % 2 && (|s| % 2 == 1 ==> Normalised(s)[0] == '0')
    ensures Normalised(s)[|s| % 2 + i] as int ==
            if 97 <= s[i] as int <= 122 then s[i] as int - 32 else s[i] as int
  {
  }

  // ------------------------------------------------- text typed by a user

  function UpperChar(c: char): char {
    if 'a' <= c <= 'z' then ((c as int) - 32) as char else c
  }

  /** toupper on every character. */
  function Upper(s: string): (r: string)
    ensures |r| == |s|
    ensures forall i :: 0 <= i < |s| ==> r[i] == UpperChar(s[i])
  {
    seq(|s|, i requires 0 <= i < |s| => UpperChar(s[i]))
  }

  /** The key get_certificate_status looks up for a text. */
  function Normalised(serial: string): string {
    Upper(if |serial| % 2 == 1 then "0" + serial else serial)
  }

  /** get_certificate_status, lines that build the key: pad to even length, then make_uppercase. */
  method NormaliseSerial(serial: string) returns (key: string)
    requires '\0' !in serial
    ensures key == Normalised(serial)
  {
    if |serial| % 2 != 0 {
      key := "0" + serial;
    } else {
      key := serial;
    }
    ghost var padded := key;
    var i := 0;
    while i < |key|
      invariant 0 <= i <= |key| == |padded|
      invariant forall k :: 0 <= k < i ==> key[k] == UpperChar(padded[k])
      invariant forall k :: i <= k < |key| ==> key[k] == padded[k]
    {
      key := key[i := UpperChar(key[i])];
      i := i + 1;
    }
  }

  lemma {:induction false} UpperKeepsValue(s: string)
    requires AllHex(s)
    ensures AllUpperHex(Upper(s)) && HexVal(Upper(s)) == HexVal(s)
  {
    if s != [] {
      assert Upper(s)[..|s| - 1] == Upper(s[..|s| - 1]);
      UpperKeepsValue(s[..|s| - 1]);
    }
  }

  /** Whatever the letter case, the parity of the length and the leading zeros, a hex
      text looks up exactly the number it spells. */
  lemma {:induction false} SpellingFindsItsNumber(text: string, n: nat)
    requires AllHex(text)
    ensures KeyEq(Normalised(text), SerialText(n)) <==> HexVal(text) == n
  {
    LeadingZero(text);
    var padded := if |text| % 2 == 1 then "0" + text else text;
    UpperKeepsValue(padded);
    SerialShape(n);
    UpperKeys(Normalised(text), SerialText(n));
  }

  lemma ZeroSpelling()
    ensures AllHex("0") && HexVal("0") == 0 && Normalised("0") == "00"
  {
    assert "0"[..0] == [];
    assert "0" + "0" == "00" && Upper("00") == "00";
  }

  predicate TopByteSet(s: string) {
    |s| % 2 == 0 && |s| >= 2 && (s[0] != '0' || s[1] != '0')
  }

  /** Even-length keys without a zero top byte are equal as keys only if equal as texts. */
  lemma EqualKeysEqualTexts(a: string, b: string)
    requires TopByteSet(a) && TopByteSet(b) && KeyEq(a, b)
    ensures a == b
  {
    OnePad(a);
    OnePad(b);
  }

  lemma {:induction false} OnePad(s: string)
    requires TopByteSet(s)
    ensures s == (if |StripZeros(s)| % 2 == 1 then "0" else "") + StripZeros(s)
  {
    if s[0] == '0' {
      assert s == "0" + s[1..];
      assert StripZeros(s[1..]) == s[1..];
    } else {
      assert "" + s == s;
    }
  }

  lemma NormalisedTop(text: string)
    requires text != [] && text[0] != '0'
    ensures TopByteSet(Normalised(text))
  {
    assert UpperChar(text[0]) != '0';
    if |text| % 2 == 1 {
      assert ("0" + text)[1] == text[0];
    }
  }

  /** Without redundant zeros the normalised text is the stored key, letter for letter. */
  lemma {:induction false} SpellingIsTheKey(text: string)
    requires AllHex(text) && text != [] && (text == "0" || text[0] != '0')
    ensures Normalised(text) == SerialText(HexVal(text))
  {
    if text == "0" {
      ZeroSpelling();
    } else {
      NonzeroValue(text);
      NonzeroKey(text, HexVal(text));
    }
  }

  lemma {:induction false} NonzeroKey(text: string, n: nat)
    requires AllHex(text) && text != [] && text[0] != '0' && HexVal(text) == n && n > 0
    ensures Normalised(text) == SerialText(n)
  {
    SpellingFindsItsNumber(text, n);
    NormalisedTop(text);
    TopByte(n);
    EqualKeysEqualTexts(Normalised(text), SerialText(n));
  }

  lemma {:induction false} TopByte(n: nat)
    requires n > 0
    ensures TopByteSet(BytesHex(n))
  {
    BytesHexEven(n);
    if n >= 256 {
      TopByte(n / 256);
    } else {
      HexCharValue(n / 16);
      HexCharValue(n % 16);
    }
  }

  lemma UpperConcat(a: string, b: string)
    ensures Upper(a + b) == Upper(a) + Upper(b)
  {
  }

  lemma UpperSigned(digits: string)
    ensures Upper("-" + digits) == "-" + Upper(digits)
  {
    UpperConcat("-", digits);
    assert Upper("-") == "-";
  }

  lemma UpperPadded(s: string)
    ensures Upper("0" + s) == "0" + Upper(s)
  {
    UpperConcat("0", s);
    assert Upper("0") == "0";
  }

  lemma SignedNormalised(digits: string)
    ensures Normalised("-" + digits) == if |digits| % 2 == 0 then "0" + ("-" + Upper(digits)) else "-" + Upper(digits)
  {
    UpperSigned(digits);
    if |digits| % 2 == 0 { UpperPadded("-" + digits); }
  }

  lemma {:induction false} SkipZero(s: string)
    requires s != [] && s[0] != '0'
    ensures StripZeros("0" + s) == s
  {
    assert ("0" + s)[1..] == s;
  }

  lemma {:induction false} StoredMagnitude(digits: string, n: nat)
    requires AllHex(digits) && n > 0 && HexVal(digits) == n
    ensures Upper(digits) == BytesHex(n) <==> TopByteSet(digits)
  {
    TopByte(n);
    UpperKeepsValue(digits);
    if TopByteSet(digits) { SameMagnitude(Upper(digits), n); }
  }

  lemma {:induction false} SameMagnitude(digits: string, n: nat)
    requires AllUpperHex(digits) && TopByteSet(digits) && n > 0 && HexVal(digits) == n
    ensures digits == BytesHex(n)
  {
    TopByte(n);
    BytesHexValue(n);
    UpperKeys(digits, BytesHex(n));
    EqualKeysEqualTexts(digits, BytesHex(n));
  }

  lemma {:induction false} SignedTexts(a: string, b: string)
    ensures StripZeros("-" + b) == "-" + b
    ensures "-" + a == "-" + b <==> a == b
  {
    assert ("-" + a)[1..] == a && ("-" + b)[1..] == b;
  }

  lemma SignedKey(digits: string)
    ensures StripZeros(Normalised("-" + digits)) == "-" + Upper(digits)
  {
    SignedNormalised(digits);
    SkipZero("-" + Upper(digits));
    SignedTexts("", Upper(digits));
  }

  lemma SignedKeyIs(digits: string, magnitude: string)
    ensures KeyEq(Normalised("-" + digits), "-" + magnitude) <==> Upper(digits) == magnitude
  {
    SignedKey(digits);
    SignedTexts(Upper(digits), magnitude);
  }

  lemma {:induction false} NegativeText(n: int)
    requires n < 0
    ensures SerialText(n) == "-" + BytesHex(-n) && StripZeros(SerialText(n)) == SerialText(n)
  {
    SignedTexts("", BytesHex(-n));
  }

  lemma {:induction false} SpellingOfMagnitude(digits: string, m: nat, stored: string)
    requires m > 0 && AllHex(digits) && HexVal(digits) == m && stored == "-" + BytesHex(m)
    ensures KeyEq(Normalised("-" + digits), stored) <==> TopByteSet(digits)
  {
    SignedKeyIs(digits, BytesHex(m));
    StoredMagnitude(digits, m);
  }

  /** A negative serial is found under a spelling of its own if and only if the digits have
      even length and no zero byte in front: the padding zero of an odd spelling is put
      before the sign, and zeros behind the sign are not skipped. */
  lemma {:induction false} NegativeSpelling(digits: string, n: int)
    requires n < 0 && AllHex(digits) && HexVal(digits) == -n
    ensures KeyEq(Normalised("-" + digits), SerialText(n)) <==> TopByteSet(digits)
  {
    NegativeText(n);
    SpellingOfMagnitude(digits, -n, SerialText(n));
  }

  lemma SmallHex()
    ensures AllHex("A") && HexVal("A") == 10 && AllHex("00AB") && HexVal("00AB") == 171
    ensures AllHex("ab") && HexVal("ab") == 171
  {
    HexAppend("", 'A');
    assert "" + ['A'] == "A";
    HexAppend("", '0');
    assert "" + ['0'] == "0";
    HexAppend("0", '0');
    assert "0" + ['0'] == "00";
    HexAppend("00", 'A');
    assert "00" + ['A'] == "00A";
    HexAppend("00A", 'B');
    assert "00A" + ['B'] == "00AB";
    HexAppend("", 'a');
    assert "" + ['a'] == "a";
    HexAppend("a", 'b');
    assert "a" + ['b'] == "ab";
  }

  /** Two spellings that are not found: one of odd length, one with a zero byte in front. */
  lemma NegativeSpellingsLost()
    ensures !KeyEq(Normalised("-A"), SerialText(-10))
    ensures !KeyEq(Normalised("-00AB"), SerialText(-171))
  {
    SmallHex();
    NegativeSpelling("A", -10);
    NegativeSpelling("00AB", -171);
    assert "-" + "A" == "-A" && "-" + "00AB" == "-00AB";
  }

  // ----------------------------------------------- texts stored in the index

  /** The number that a stored serial stands for. */
  function SerialNumber(s: string): int
    requires SerialOk(s)
  {
    if s[0] == '-' then 0 - HexVal(s[1..]) else HexVal(s)
  }

  /** The spellings that a lookup can find: it is made with upper-case digits, and skips
      zeros in front, but not behind a sign. */
  predicate Findable(s: string)
    requires SerialOk(s)
  {
    if s[0] == '-' then AllUpperHex(s[1..]) && TopByteSet(s[1..]) else AllUpperHex(s)
  }

  /** Any text, zeros in front skipped, spells a number in the way the program does. */
  predicate Spells(s: string, n: int) {
    var t := StripZeros(s);
    if t != [] && t[0] == '-' then AllUpperHex(t[1..]) && TopByteSet(t[1..]) && 0 - HexVal(t[1..]) == n
    else AllUpperHex(t) && HexVal(t) == n
  }

  lemma {:induction false} StrippedTwice(s: string)
    ensures StripZeros(StripZeros(s)) == StripZeros(s)
  {
  }

  lemma {:induction false} NaturalFound(s: string, n: nat)
    requires var t := StripZeros(s); t == [] || t[0] != '-'
    ensures KeyEq(s, SerialText(n)) <==> Spells(s, n)
  {
    var t, stored := StripZeros(s), SerialText(n);
    SerialShape(n);
    StripKeepsValue(stored);
    StrippedCase(stored);
    StrippedTwice(s);
    if AllUpperHex(t) { UpperKeys(t, stored); }
  }

  lemma {:induction false} UnsignedNotNegative(s: string, n: int)
    requires n < 0 && var t := StripZeros(s); t == [] || t[0] != '-'
    ensures !KeyEq(s, SerialText(n)) && !Spells(s, n)
  {
    NegativeText(n);
  }

  lemma SignedNotNatural(s: string, n: nat)
    requires s != [] && s[0] == '-'
    ensures !KeyEq(s, SerialText(n))
  {
    SerialShape(n);
    SignedKeyDiffers(SerialText(n), s);
  }

  lemma {:induction false} MagnitudeIs(digits: string, m: nat)
    requires m > 0
    ensures digits == BytesHex(m) <==> AllUpperHex(digits) && TopByteSet(digits) && HexVal(digits) == m
  {
    TopByte(m);
    BytesHexValue(m);
    if AllUpperHex(digits) && TopByteSet(digits) && HexVal(digits) == m { SameMagnitude(digits, m); }
  }

  lemma SignedKeyEq(digits: string, magnitude: string)
    ensures KeyEq("-" + digits, "-" + magnitude) <==> digits == magnitude
  {
    SignedTexts(digits, magnitude);
    SignedTexts(magnitude, digits);
  }

  lemma NegativeFound(s: string, n: int)
    requires n < 0 && s != [] && s[0] == '-'
    ensures KeyEq(s, SerialText(n)) <==> Spells(s, n)
  {
    var digits := s[1..];
    assert s == "-" + digits && StripZeros(s) == s;
    NegativeText(n);
    SignedKeyEq(digits, BytesHex(-n));
    MagnitudeIs(digits, -n);
  }

  lemma {:induction false} TopByteSetValue(digits: string)
    requires AllHex(digits) && TopByteSet(digits)
    ensures HexVal(digits) > 0
  {
    StripKeepsValue(digits);
    OnePad(digits);
    NonzeroValue(StripZeros(digits));
  }

  /** A lookup for a number finds exactly the texts that spell it as the program does. */
  lemma SpellingFound(s: string, n: int)
    ensures KeyEq(s, SerialText(n)) <==> Spells(s, n)
  {
    var t := StripZeros(s);
    StrippedTwice(s);
    if t != [] && t[0] == '-' {
      if n < 0 {
        NegativeFound(t, n);
      } else {
        SignedNotNatural(t, n);
        if AllUpperHex(t[1..]) && TopByteSet(t[1..]) { TopByteSetValue(t[1..]); }
      }
    } else if n < 0 {
      UnsignedNotNegative(s, n);
    } else {
      NaturalFound(s, n);
    }
  }

  lemma SpellsItsNumber(s: string, n: int)
    requires SerialOk(s)
    ensures Spells(s, n) <==> Findable(s) && SerialNumber(s) == n
  {
    if s[0] != '-' {
      StripSuffix(s);
      StripKeepsValue(s);
      StrippedCase(s);
    }
  }

  /** Of the texts that the startup check accepts, a lookup for a number finds exactly the
      findable ones that stand for it. The others, with digits in lower case or zero bytes
      behind a sign, are found by no lookup. */
  lemma FoundExactlyIf(s: string, n: int)
    requires SerialOk(s)
    ensures KeyEq(s, SerialText(n)) <==> Findable(s) && SerialNumber(s) == n
  {
    SpellingFound(s, n);
    SpellsItsNumber(s, n);
  }

  /** The keys the program itself stores are findable. */
  lemma OwnKeysFindable(n: int)
    ensures SerialOk(SerialText(n)) && Findable(SerialText(n)) && SerialNumber(SerialText(n)) == n
  {
    SerialShape(n);
    FoundExactlyIf(SerialText(n), n);
  }
}
