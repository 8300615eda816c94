/** Masks and shifts of single bytes, as arithmetic. */
module ByteBits {

  lemma Join64(x: bv8, y: bv8)
    requires x < 4 && y < 64
    ensures (x * 64 + y) as nat == (x as nat) * 64 + (y as nat) && (y as nat) < 64
  {
  }

  lemma Join16(x: bv8, y: bv8)
    requires x < 16 && y < 16
    ensures (x * 16 + y) as nat == (x as nat) * 16 + (y as nat) && (y as nat) < 16
  {
  }

  lemma Join4(x: bv8, y: bv8)
    requires x < 64 && y < 4
    ensures (x * 4 + y) as nat == (x as nat) * 4 + (y as nat) && (y as nat) < 4
  {
  }

  lemma {:induction false} ByteBack(b: nat)
    requires b < 256
    ensures (b as bv8) as nat == b
  {
    if b < 16 {
    } else if b < 32 {
    } else if b < 64 {
    } else if b < 128 {
    }
  }

  lemma Parts64(b: nat, hi: nat, lo: nat)
    requires b == hi * 64 + lo && lo < 64
    ensures b % 64 == lo && b / 64 == hi
  {
  }

  lemma Parts16(b: nat, hi: nat, lo: nat)
    requires b == hi * 16 + lo && lo < 16
    ensures b % 16 == lo && b / 16 == hi
  {
  }

  lemma Parts4(b: nat, hi: nat, lo: nat)
    requires b == hi * 4 + lo && lo < 4
    ensures b % 4 == lo && b / 4 == hi
  {
  }

  lemma Bits6(v: bv8)
    ensures v == (v >> 6) * 64 + (v & 0x3f) && v >> 6 < 4 && v & 0x3f < 64
  {
  }

  lemma Bits4(v: bv8)
    ensures v == (v >> 4) * 16 + (v & 0xf) && v >> 4 < 16 && v & 0xf < 16
  {
  }

  lemma Bits2(v: bv8)
    ensures v == (v >> 2) * 4 + (v & 3) && v >> 2 < 64 && v & 3 < 4
  {
  }

  lemma SplitAt6(b: nat)
    requires b < 256
    ensures (b as bv8 & 0x3f) as nat == b % 64 && (b as bv8 >> 6) as nat == b / 64
  {
    var v := b as bv8;
    ByteBack(b);
    Bits6(v);
    Join64(v >> 6, v & 0x3f);
    Parts64(b, (v >> 6) as nat, (v & 0x3f) as nat);
  }

  lemma SplitAt4(b: nat)
    requires b < 256
    ensures (b as bv8 & 0xf) as nat == b % 16 && (b as bv8 >> 4) as nat == b / 16
  {
    var v := b as bv8;
    ByteBack(b);
    Bits4(v);
    Join16(v >> 4, v & 0xf);
    Parts16(b, (v >> 4) as nat, (v & 0xf) as nat);
  }

  lemma SplitAt2(b: nat)
    requires b < 256
    ensures (b as bv8 & 3) as nat == b % 4 && (b as bv8 >> 2) as nat == b / 4
  {
    var v := b as bv8;
    ByteBack(b);
    Bits2(v);
    Join4(v >> 2, v & 3);
    Parts4(b, (v >> 2) as nat, (v & 3) as nat);
  }

  lemma SecondDigit(b1: nat, b0: nat)
    requires b1 < 256 && b0 < 256
    ensures (((b1 as bv8 & 0xf) << 2) | (b0 as bv8 >> 6)) as nat == b1 % 16 * 4 + b0 / 64
  {
    var x, y := (b1 as bv8) & 0xf, (b0 as bv8) >> 6;
    SplitAt4(b1);
    SplitAt6(b0);
    assert (x << 2) | y == x * 4 + y && x < 64 && y < 4;
    Join4(x, y);
  }

  lemma ThirdDigit(b2: nat, b1: nat)
    requires b2 < 256 && b1 < 256
    ensures (((b2 as bv8 & 3) << 4) | (b1 as bv8 >> 4)) as nat == b2 % 4 * 16 + b1 / 16
  {
    var x, y := (b2 as bv8) & 3, (b1 as bv8) >> 4;
    SplitAt2(b2);
    SplitAt4(b1);
    assert (x << 4) | y == x * 16 + y && x < 16 && y < 16;
    Join16(x, y);
  }

  // ------------------------------------------------------ words of 24 bits

  /** The 32-bit word that the macro makes of three bytes. */
  function WordOfBytes(b2: bv8, b1: bv8, b0: bv8): bv32 {
    ((b2 as bv32) << 16) | ((b1 as bv32) << 8) | (b0 as bv32)
  }

  /** The number that the low six bits of a word are. */
  function LowSix(w: bv32): (n: nat)
    ensures n < 64
  {
    ((w & 0x3f) as bv6) as nat
  }

  /** A word of four six-bit digits that holds the number `v`. */
  predicate Holds(w: bv32, v: nat) {
    && w < 0x100_0000
    && v == LowSix(w) + 64 * LowSix(w >> 6) + 4096 * LowSix(w >> 12) + 262144 * LowSix(w >> 18)
  }

  /** The macro's two operations, on words and on numbers. */
  lemma MaskAndShift(w: bv32, v: nat)
    requires Holds(w, v)
    ensures (w & 0x3f) as nat == v % 64 && Holds(w >> 6, v / 64)
  {
    ShiftedDigits(w);
    LowSixIs(w);
    var rest := LowSix(w >> 6) + 64 * LowSix(w >> 12) + 4096 * LowSix(w >> 18);
    Parts64(v, rest, LowSix(w));
  }

  lemma LowSixIs(w: bv32)
    ensures (w & 0x3f) as nat == LowSix(w)
  {
    assert w & 0x3f < 64;
    Narrow(w & 0x3f);
  }

  lemma Narrow(x: bv32)
    requires x < 64
    ensures (x as bv6) as nat == x as nat
  {
  }

  lemma ShiftedDigits(w: bv32)
    requires w < 0x100_0000
    ensures w >> 6 < 0x100_0000
    ensures (w >> 6) >> 6 == w >> 12 && (w >> 6) >> 12 == w >> 18 && (w >> 6) >> 18 == 0
    ensures LowSix(0) == 0
  {
  }

  lemma SixOfByte(x: bv8, y: bv32)
    requires x < 64 && y == x as bv32
    ensures (y as bv6) as nat == x as nat
  {
    Narrow(y);
    Widen(x);
  }

  lemma Widen(x: bv8)
    ensures (x as bv32) as nat == x as nat
  {
  }

  /** The four digits of the word are md5crypt's masks and shifts of the single bytes. */
  lemma ExplicitShifts(b2: bv8, b1: bv8, b0: bv8)
    ensures var w := WordOfBytes(b2, b1, b0);
            && w & 0x3f == (b0 & 0x3f) as bv32
            && (w >> 6) & 0x3f == (((b1 & 0xf) << 2) | (b0 >> 6)) as bv32
            && (w >> 12) & 0x3f == (((b2 & 3) << 4) | (b1 >> 4)) as bv32
            && (w >> 18) & 0x3f == (b2 >> 2) as bv32
            && w < 0x100_0000
    ensures b0 & 0x3f < 64 && ((b1 & 0xf) << 2) | (b0 >> 6) < 64
    ensures ((b2 & 3) << 4) | (b1 >> 4) < 64 && b2 >> 2 < 64
  {
  }

  lemma DigitSum(b2: nat, b1: nat, b0: nat)
    ensures 65536 * b2 + 256 * b1 + b0 ==
            b0 % 64 + 64 * (b1 % 16 * 4 + b0 / 64) + 4096 * (b2 % 4 * 16 + b1 / 16) + 262144 * (b2 / 4)
  {
  }

  lemma LowSixOf(w: bv32, x: bv8, n: nat)
    requires w & 0x3f == x as bv32 && x < 64 && x as nat == n
    ensures LowSix(w) == n
  {
    SixOfByte(x, w & 0x3f);
  }

  lemma HoldsDigits(w: bv32, b2: nat, b1: nat, b0: nat)
    requires w < 0x100_0000
    requires LowSix(w) == b0 % 64 && LowSix(w >> 6) == b1 % 16 * 4 + b0 / 64
    requires LowSix(w >> 12) == b2 % 4 * 16 + b1 / 16 && LowSix(w >> 18) == b2 / 4
    ensures Holds(w, 65536 * b2 + 256 * b1 + b0)
  {
    DigitSum(b2, b1, b0);
  }

  lemma FirstDigitIs(w: bv32, b0: nat)
    requires b0 < 256 && w & 0x3f == (b0 as bv8 & 0x3f) as bv32
    ensures LowSix(w) == b0 % 64
  {
    SplitAt6(b0);
    assert b0 as bv8 & 0x3f < 64;
    LowSixOf(w, b0 as bv8 & 0x3f, b0 % 64);
  }

  lemma SecondDigitIs(w: bv32, b1: nat, b0: nat)
    requires b1 < 256 && b0 < 256
    requires w & 0x3f == (((b1 as bv8 & 0xf) << 2) | (b0 as bv8 >> 6)) as bv32
    ensures LowSix(w) == b1 % 16 * 4 + b0 / 64
  {
    SecondDigit(b1, b0);
    assert ((b1 as bv8 & 0xf) << 2) | (b0 as bv8 >> 6) < 64;
    LowSixOf(w, ((b1 as bv8 & 0xf) << 2) | (b0 as bv8 >> 6), b1 % 16 * 4 + b0 / 64);
  }

  lemma ThirdDigitIs(w: bv32, b2: nat, b1: nat)
    requires b2 < 256 && b1 < 256
    requires w & 0x3f == (((b2 as bv8 & 3) << 4) | (b1 as bv8 >> 4)) as bv32
    ensures LowSix(w) == b2 % 4 * 16 + b1 / 16
  {
    ThirdDigit(b2, b1);
    assert ((b2 as bv8 & 3) << 4) | (b1 as bv8 >> 4) < 64;
    LowSixOf(w, ((b2 as bv8 & 3) << 4) | (b1 as bv8 >> 4), b2 % 4 * 16 + b1 / 16);
  }

  lemma FourthDigitIs(w: bv32, b2: nat)
    requires b2 < 256 && w & 0x3f == (b2 as bv8 >> 2) as bv32
    ensures LowSix(w) == b2 / 4
  {
    SplitAt2(b2);
    assert b2 as bv8 >> 2 < 64;
    LowSixOf(w, b2 as bv8 >> 2, b2 / 4);
  }

  /** The word of three bytes holds the number that they spell. */
  lemma WordHolds(b2: nat, b1: nat, b0: nat)
    requires b2 < 256 && b1 < 256 && b0 < 256
    ensures Holds(WordOfBytes(b2 as bv8, b1 as bv8, b0 as bv8), 65536 * b2 + 256 * b1 + b0)
  {
    WordIs(WordOfBytes(b2 as bv8, b1 as bv8, b0 as bv8), b2 as bv8, b1 as bv8, b0 as bv8, b2, b1, b0);
  }

  lemma WordIs(w: bv32, v2: bv8, v1: bv8, v0: bv8, b2: nat, b1: nat, b0: nat)
    requires b2 < 256 && b1 < 256 && b0 < 256 && v2 == b2 as bv8 && v1 == b1 as bv8 && v0 == b0 as bv8
    requires w == WordOfBytes(v2, v1, v0)
    ensures Holds(w, 65536 * b2 + 256 * b1 + b0)
  {
    ExplicitShifts(v2, v1, v0);
    FirstDigitIs(w, b0);
    SecondDigitIs(w >> 6, b1, b0);
    ThirdDigitIs(w >> 12, b2, b1);
    FourthDigitIs(w >> 18, b2);
    HoldsDigits(w, b2, b1, b0);
  }

  /** The word of three bytes, shifted down `k` times. */
  function Shifted(b2: nat, b1: nat, b0: nat, k: nat): bv32
    requires b2 < 256 && b1 < 256 && b0 < 256
  {
    if k == 0 then WordOfBytes(b2 as bv8, b1 as bv8, b0 as bv8) else Shifted(b2, b1, b0, k - 1) >> 6
  }

  function DropDigits(v: nat, k: nat): nat {
    if k == 0 then v else DropDigits(v, k - 1) / 64
  }

  lemma {:induction false} ShiftedHolds(b2: nat, b1: nat, b0: nat, k: nat)
    requires b2 < 256 && b1 < 256 && b0 < 256
    ensures Holds(Shifted(b2, b1, b0, k), DropDigits(65536 * b2 + 256 * b1 + b0, k))
  {
    if k == 0 {
      WordHolds(b2, b1, b0);
    } else {
      ShiftedHolds(b2, b1, b0, k - 1);
      MaskAndShift(Shifted(b2, b1, b0, k - 1), DropDigits(65536 * b2 + 256 * b1 + b0, k - 1));
    }
  }

  /** What the macro masks out after `k` shifts is digit `k` of the number. */
  lemma {:induction false} MaskedDigit(b2: nat, b1: nat, b0: nat, k: nat)
    requires b2 < 256 && b1 < 256 && b0 < 256
    ensures (Shifted(b2, b1, b0, k) & 0x3f) as nat == DropDigits(65536 * b2 + 256 * b1 + b0, k) % 64
  {
    ShiftedHolds(b2, b1, b0, k);
    MaskAndShift(Shifted(b2, b1, b0, k), DropDigits(65536 * b2 + 256 * b1 + b0, k));
  }
}
