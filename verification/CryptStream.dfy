/** What the password hashes feed to their digest. A digest context is the sequence of
    bytes it has been given; the digest itself is a parameter. */
module CryptStream {
  import opened CryptEncoding
  import opened Division

  type Digest = seq<Byte> -> seq<Byte>

  ghost predicate HasSize(h: Digest, size: nat) {
    forall x :: |h(x)| == size
  }

  // ----------------------------------------- cyclic repetition of a block

  /** The first `n` bytes of the endless repetition of `block`. */
  function Cyclic(block: seq<Byte>, n: nat): (r: seq<Byte>)
    requires block != []
    ensures |r| == n
  {
    seq(n, k requires 0 <= k < n => block[k % |block|])
  }

  lemma CyclicGrows(block: seq<Byte>, m: nat, n: nat)
    requires block != [] && m % |block| == 0 && n <= |block|
    ensures Cyclic(block, m) + block[..n] == Cyclic(block, m + n)
  {
    forall k | m <= k < m + n
      ensures k % |block| == k - m
    {
      SkipMultiple(m, k - m, |block|);
    }
  }

  lemma SkipMultiple(m: nat, k: nat, size: nat)
    requires 0 < size && m % size == 0 && k < size
    ensures (m + k) % size == k
  {
    var q := m / size;
    assert m + k == q * size + k;
    DivUnique(m + k, size, q, k);
  }

  lemma NextMultiple(m: nat, size: nat)
    requires 0 < size && m % size == 0
    ensures (m + size) % size == 0
  {
    var q := m / size;
    assert m + size == (q + 1) * size + 0;
    DivUnique(m + size, size, q + 1, 0);
  }

  /** The block, and then every byte again one block later. */
  lemma CyclicIs(block: seq<Byte>, n: nat, k: nat)
    requires block != [] && k < n
    ensures Cyclic(block, n)[k] == if k < |block| then block[k] else Cyclic(block, n)[k - |block|]
  {
    if k >= |block| {
      var m := k - |block|;
      var q, r := m / |block|, m % |block|;
      assert k == (q + 1) * |block| + r;
      DivUnique(k, |block|, q + 1, r);
    }
  }

  /** The block loop: whole blocks while more than one is left, then the rest. */
  method FeedBlocks(md: seq<Byte>, block: seq<Byte>, len: nat) returns (r: seq<Byte>)
    requires block != []
    ensures r == md + Cyclic(block, len)
  {
    r := md;
    var n := len;
    assert md + [] == md;
    while n > |block|
      invariant 0 <= n <= len && (len - n) % |block| == 0
      invariant r == md + Cyclic(block, len - n)
    {
      CyclicGrows(block, len - n, |block|);
      NextMultiple(len - n, |block|);
      assert block[..|block|] == block;
      Joined(md, Cyclic(block, len - n), block);
      r := r + block;
      n := n - |block|;
    }
    CyclicGrows(block, len - n, n);
    Joined(md, Cyclic(block, len - n), block[..n]);
    r := r + block[..n];
  }

  lemma Joined(a: seq<Byte>, b: seq<Byte>, c: seq<Byte>)
    ensures a + b + c == a + (b + c)
  {
  }

  /** The P and S buffers: allocate, then copy the digest block by block. */
  method FillCyclic(block: seq<Byte>, len: nat) returns (bytes: array<Byte>)
    requires block != []
    ensures fresh(bytes) && bytes[..] == Cyclic(block, len)
  {
    bytes := new Byte[len](_ => 0);
    var cp, n := 0, len;
    while n > |block|
      invariant 0 <= n && 0 <= cp && cp + n == len && cp % |block| == 0
      invariant bytes[..cp] == Cyclic(block, cp)
    {
      CopyInto(bytes, cp, block, |block|);
      CyclicGrows(block, cp, |block|);
      NextMultiple(cp, |block|);
      cp, n := cp + |block|, n - |block|;
    }
    CopyInto(bytes, cp, block, n);
    CyclicGrows(block, cp, n);
    assert bytes[..len] == bytes[..];
  }

  /** memcpy(bytes + cp, block, n) */
  method CopyInto(bytes: array<Byte>, cp: nat, block: seq<Byte>, n: nat)
    requires cp + n <= bytes.Length && n <= |block|
    modifies bytes
    ensures bytes[..cp + n] == old(bytes[..cp]) + block[..n]
  {
    for k := 0 to n
      invariant bytes[..cp] == old(bytes[..cp])
      invariant bytes[cp..cp + k] == block[..k]
    {
      bytes[cp + k] := block[k];
    }
    assert bytes[..cp + n] == bytes[..cp] + bytes[cp..cp + n];
  }

  // ------------------------------------------------ the bits of a length

  function Pow2(i: nat): (p: nat)
    ensures p > 0
  {
    if i == 0 then 1 else 2 * Pow2(i - 1)
  }

  /** Bit `i` of `n`, the lowest being bit 0. */
  predicate Bit(n: nat, i: nat) {
    n / Pow2(i) % 2 == 1
  }

  /** For each bit of `n` from bit `i` up to its highest 1: `one` or `zero`. */
  function BitFeed(n: nat, i: nat, one: seq<Byte>, zero: seq<Byte>): seq<Byte>
    decreases n / Pow2(i)
  {
    if n / Pow2(i) == 0 then []
    else
      HalfAt(n, i);
      (if Bit(n, i) then one else zero) + BitFeed(n, i + 1, one, zero)
  }

  lemma HalfAt(n: nat, i: nat)
    ensures n / Pow2(i + 1) == n / Pow2(i) / 2
    ensures n / Pow2(i) > 0 ==> n / Pow2(i + 1) < n / Pow2(i)
  {
    var p := Pow2(i);
    var q, r := n / p, n % p;
    assert n == q * p + r;
    assert q == q / 2 * 2 + q % 2;
    var rest := q % 2 * p + r;
    assert n == q / 2 * (2 * p) + rest by {
      assert q * p == q / 2 * (2 * p) + q % 2 * p;
    }
    assert 0 <= rest < 2 * p;
    DivUnique(n, 2 * p, q / 2, rest);
  }

  /** The shift loop: the length is shifted right until it is zero. */
  method FeedBits(md: seq<Byte>, len: nat, one: seq<Byte>, zero: seq<Byte>) returns (r: seq<Byte>)
    ensures r == md + BitFeed(len, 0, one, zero)
  {
    r := md;
    var n := len;
    ghost var i := 0;
    while n > 0
      invariant n == len / Pow2(i)
      invariant r + BitFeed(len, i, one, zero) == md + BitFeed(len, 0, one, zero)
      decreases n
    {
      HalfAt(len, i);
      ghost var piece := if Bit(len, i) then one else zero;
      Joined(r, piece, BitFeed(len, i + 1, one, zero));
      r := r + (if n % 2 == 1 then one else zero);
      n := n / 2;
      i := i + 1;
    }
    assert r + [] == r;
  }

  lemma {:induction false} HalfOf(n: nat, b: nat, i: nat)
    requires b < 2
    ensures (2 * n + b) / Pow2(i + 1) == n / Pow2(i)
  {
    var p := Pow2(i);
    var q, r := n / p, n % p;
    assert 2 * n + b == q * (2 * p) + (2 * r + b) by {
      assert n == q * p + r;
      assert 2 * (q * p) == q * (2 * p);
    }
    DivUnique(2 * n + b, 2 * p, q, 2 * r + b);
  }

  lemma {:induction false} FeedIs(n: nat, i: nat, quotient: nat, one: seq<Byte>, zero: seq<Byte>)
    requires quotient == n / Pow2(i)
    ensures quotient == 0 ==> BitFeed(n, i, one, zero) == []
    ensures quotient > 0 ==>
              BitFeed(n, i, one, zero) == (if quotient % 2 == 1 then one else zero) + BitFeed(n, i + 1, one, zero)
  {
  }

  lemma {:induction false} FeedShifts(n: nat, m: nat, i: nat, quotient: nat, one: seq<Byte>, zero: seq<Byte>)
    requires m == 2 * n || m == 2 * n + 1
    requires quotient == n / Pow2(i)
    ensures BitFeed(m, i + 1, one, zero) == BitFeed(n, i, one, zero)
    decreases quotient
  {
    HalfOf(n, m - 2 * n, i);
    HalfAt(n, i);
    FeedIs(n, i, quotient, one, zero);
    FeedIs(m, i + 1, quotient, one, zero);
    if quotient > 0 { FeedShifts(n, m, i + 1, n / Pow2(i + 1), one, zero); }
  }

  /** An odd length feeds `one` first, an even one `zero`, and then what its half feeds. */
  lemma {:induction false} LowestBitFirst(n: nat, one: seq<Byte>, zero: seq<Byte>)
    ensures BitFeed(2 * n + 1, 0, one, zero) == one + BitFeed(n, 0, one, zero)
    ensures BitFeed(2 * n, 0, one, zero) == if n == 0 then [] else zero + BitFeed(n, 0, one, zero)
  {
    assert Pow2(0) == 1;
    FeedShifts(n, 2 * n + 1, 0, n, one, zero);
    FeedShifts(n, 2 * n, 0, n, one, zero);
  }

  // ---------------------------------------------------------- the rounds

  /** What round `i` feeds: `x` is the previous digest, `p` and `s` the fixed sequences. */
  function RoundInput(i: nat, x: seq<Byte>, p: seq<Byte>, s: seq<Byte>): seq<Byte> {
    (if i % 2 == 1 then p else x) + (if i % 3 != 0 then s else []) +
    (if i % 7 != 0 then p else []) + (if i % 2 == 1 then x else p)
  }

  /** In these terms: odd rounds begin with p and end with x, even ones begin with x and end
      with p; in between s, but not in every third round, and then p, but not in every
      seventh, counted from round 0. */
  lemma {:induction false} RoundIs(
      i: nat, x: seq<Byte>, p: seq<Byte>, s: seq<Byte>, half: nat, third: nat, seventh: nat)
    requires 2 * half <= i < 2 * half + 2 && 3 * third <= i < 3 * third + 3 && 7 * seventh <= i < 7 * seventh + 7
    ensures var middle := (if i == 3 * third then [] else s) + (if i == 7 * seventh then [] else p);
            RoundInput(i, x, p, s) == if i == 2 * half then x + middle + p else p + middle + x
  {
    DivUnique(i, 2, half, i - 2 * half);
    DivUnique(i, 3, third, i - 3 * third);
    DivUnique(i, 7, seventh, i - 7 * seventh);
  }

  function Times(k: nat, d: nat): nat {
    k * d
  }

  lemma {:induction false} Multiples(i: nat, d: nat)
    requires d > 0
    ensures (exists k: nat :: Times(k, d) == i) <==> i % d == 0
  {
    if k: nat :| Times(k, d) == i {
      assert i == k * d + 0;
      DivUnique(i, d, k, 0);
    }
    assert Times(i / d, d) == i - i % d;
  }

  /** How much a round feeds, and where it begins and ends. */
  lemma {:induction false} RoundShape(i: nat, x: seq<Byte>, p: seq<Byte>, s: seq<Byte>)
    ensures var fed := RoundInput(i, x, p, s);
            && |fed| == |x| + |p| + (if exists k: nat :: Times(k, 3) == i then 0 else |s|)
                        + (if exists k: nat :: Times(k, 7) == i then 0 else |p|)
            && ((exists k: nat :: Times(k, 2) == i) ==> x <= fed && fed[|fed| - |p|..] == p)
            && (!(exists k: nat :: Times(k, 2) == i) ==> p <= fed && fed[|fed| - |x|..] == x)
  {
    Multiples(i, 2);
    Multiples(i, 3);
    Multiples(i, 7);
    RoundIs(i, x, p, s, i / 2, i / 3, i / 7);
  }

  /** The digest after `n` rounds. */
  function Rounds(h: Digest, x: seq<Byte>, p: seq<Byte>, s: seq<Byte>, n: nat): seq<Byte> {
    if n == 0 then x
    else h(RoundInput(n - 1, Rounds(h, x, p, s, n - 1), p, s))
  }

  /** Round 0 feeds digest and password sequence, round n the digest of the rounds before. */
  lemma {:induction false} RoundsFollow(h: Digest, x: seq<Byte>, p: seq<Byte>, s: seq<Byte>, n: nat)
    ensures Rounds(h, x, p, s, 0) == x && Rounds(h, x, p, s, 1) == h(x + p)
    ensures Rounds(h, x, p, s, n + 1) == h(RoundInput(n, Rounds(h, x, p, s, n), p, s))
  {
    RoundIs(0, x, p, s, 0, 0, 0);
    assert x + ([] + []) + p == x + p;
    assert Rounds(h, x, p, s, 1) == h(RoundInput(0, Rounds(h, x, p, s, 0), p, s));
  }

  lemma {:induction false} RoundsSize(h: Digest, x: seq<Byte>, p: seq<Byte>, s: seq<Byte>, n: nat, size: nat)
    requires HasSize(h, size) && |x| == size
    ensures |Rounds(h, x, p, s, n)| == size
  {
  }

  /** One round's context. */
  method FeedRound(n: nat, buf: seq<Byte>, p: seq<Byte>, s: seq<Byte>) returns (md2: seq<Byte>)
    ensures md2 == RoundInput(n, buf, p, s)
  {
    md2 := [];
    md2 := md2 + (if n % 2 == 1 then p else buf);
    if n % 3 != 0 {
      md2 := md2 + s;
    }
    if n % 7 != 0 {
      md2 := md2 + p;
    }
    md2 := md2 + (if n % 2 == 1 then buf else p);
  }

  method RunRounds(h: Digest, x: seq<Byte>, p: seq<Byte>, s: seq<Byte>, rounds: nat) returns (buf: seq<Byte>)
    ensures buf == Rounds(h, x, p, s, rounds)
  {
    buf := x;
    var n := 0;
    while n < rounds
      invariant 0 <= n <= rounds
      invariant buf == Rounds(h, x, p, s, n)
    {
      var md2 := FeedRound(n, buf, p, s);
      buf := h(md2);
      n := n + 1;
    }
  }

  /** `n` copies of `x`. */
  function Repeat(x: seq<Byte>, n: nat): seq<Byte> {
    if n == 0 then [] else Repeat(x, n - 1) + x
  }

  /** m copies and n copies are m + n copies. */
  lemma {:induction false} RepeatAdds(x: seq<Byte>, m: nat, n: nat)
    ensures Repeat(x, 0) == [] && Repeat(x, 1) == x
    ensures Repeat(x, m + n) == Repeat(x, m) + Repeat(x, n)
  {
    assert Repeat(x, 1) == [] + x;
    if n == 0 {
      assert Repeat(x, m) + [] == Repeat(x, m);
    } else {
      RepeatAdds(x, m, n - 1);
      Joined(Repeat(x, m), Repeat(x, n - 1), x);
    }
  }

  method FeedRepeated(x: seq<Byte>, times: nat) returns (md: seq<Byte>)
    ensures md == Repeat(x, times)
  {
    md := [];
    var n := times;
    while n > 0
      invariant 0 <= n <= times && md == Repeat(x, times - n)
    {
      md := md + x;
      n := n - 1;
    }
  }
}
