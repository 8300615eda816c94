/** Quotient and remainder with a divisor that is not a constant. */
module Division {

  lemma {:induction false} Multiples(k: int, size: int)
    requires k >= 1 && size >= 0
    ensures k * size >= size
  {
    if k > 1 {
      Multiples(k - 1, size);
      assert k * size == (k - 1) * size + size;
    }
  }

  lemma NoMultipleBetween(k: int, size: int, diff: int)
    requires 0 < size && k * size == diff && -size < diff < size
    ensures k == 0
  {
    if k >= 1 {
      Multiples(k, size);
    } else if k <= -1 {
      Multiples(-k, size);
    }
  }

  lemma DivUnique(x: int, size: int, q: int, r: int)
    requires 0 <= r < size && x == q * size + r
    ensures x % size == r && x / size == q
  {
    var d, e := x / size, x % size;
    assert x == d * size + e;
    assert (d - q) * size == d * size - q * size;
    NoMultipleBetween(d - q, size, r - e);
  }

  lemma AddMultiple(x: int, k: int, size: int)
    requires size > 0
    ensures (x + k * size) % size == x % size
  {
    var d, e := x / size, x % size;
    assert x == d * size + e;
    assert (d + k) * size == d * size + k * size;
    DivUnique(x + k * size, size, d + k, e);
  }
}
