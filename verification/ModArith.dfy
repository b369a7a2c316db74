/** Congruences, each from an explicit multiple. */
module ModArith {
  import opened Words

  lemma ModShift(x: int, k: int, n: int)
    requires n > 0
    ensures (x + n * k) % n == x % n
  {
    assert x + n * k == n * (x / n + k) + x % n;
    DivModUnique(x + n * k, n, x / n + k, x % n);
  }

  /** Numbers with the same residue differ by a multiple of the modulus. */
  lemma SameResidue(x: int, y: int, n: int) returns (k: int)
    requires n > 0 && x % n == y % n
    ensures x == y + n * k
  {
    k := x / n - y / n;
    assert n * k == n * (x / n) - n * (y / n);
  }

  lemma ModMul(x: int, y: int, n: int)
    requires n > 0
    ensures (x % n) * y % n == x * y % n
    ensures y * (x % n) % n == x * y % n
  {
    var q := x / n;
    assert x * y == (x % n) * y + n * (q * y) by {
      assert x == n * q + x % n;
      assert (n * q + x % n) * y == (n * q) * y + (x % n) * y;
    }
    ModShift((x % n) * y, q * y, n);
  }

  lemma ModMulBoth(x: int, y: int, n: int)
    requires n > 0
    ensures (x % n) * (y % n) % n == x * y % n
  {
    ModMul(x, y % n, n);
    ModMul(y, x, n);
  }

  lemma ModAdd(x: int, y: int, n: int)
    requires n > 0
    ensures (x % n + y) % n == (x + y) % n
  {
    ModShift(x % n + y, x / n, n);
  }

  lemma ModSub(x: int, y: int, n: int)
    requires n > 0
    ensures (x % n - y) % n == (x - y) % n
    ensures (y - x % n) % n == (y - x) % n
  {
    ModAdd(x, -y, n);
    assert x % n + -y == x % n - y && x + -y == x - y;
    assert y - x % n == y - x + n * (x / n);
    ModShift(y - x, x / n, n);
  }

  lemma ModSmall(x: int, n: int)
    requires 0 <= x < n
    ensures x % n == x
  {
    DivModUnique(x, n, 0, x);
  }
}
