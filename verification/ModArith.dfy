/** Facts about remainders by a positive modulus. */
module ModArith {
  lemma NonzeroMultiple(d: int, c: int)
    requires 0 < c && d != 0
    ensures d * c >= c || d * c <= -c
  {
    if d >= 1 {
      assert d * c >= 1 * c;
    } else {
      assert d * c <= -1 * c;
    }
  }

  /** Multiples of c that lie less than c apart are the same multiple. */
  lemma SameMultiple(x: int, y: int, c: int)
    requires 0 < c && -c < x * c - y * c < c
    ensures x == y
  {
    assert x * c - y * c == (x - y) * c;
    if x != y {
      NonzeroMultiple(x - y, c);
    }
  }

  lemma Unique(a: int, q: int, r: int, c: int)
    requires 0 < c && a == q * c + r && 0 <= r < c
    ensures a % c == r && a / c == q
  {
    var k := a / c;
    assert a == k * c + a % c;
    SameMultiple(k, q, c);
  }

  lemma Shift(a: int, c: int)
    requires 0 < c
    ensures (a + c) % c == a % c && (a - c) % c == a % c
  {
    Unique(a + c, a / c + 1, a % c, c);
    Unique(a - c, a / c - 1, a % c, c);
  }

  /** Two numbers less than a modulus apart are congruent only when equal. */
  lemma Congruent(a: int, b: int, c: int)
    requires 0 < c && -c < a - b < c && a % c == b % c
    ensures a == b
  {
    var x, y, r := a / c, b / c, a % c;
    assert a == x * c + r && b == y * c + r;
    SameMultiple(x, y, c);
  }

  lemma Next(a: int, c: int)
    requires 0 < c
    ensures (a % c + 1) % c == (a + 1) % c
  {
    if a % c + 1 == c {
      Unique(a + 1, a / c + 1, 0, c);
    } else {
      Unique(a + 1, a / c, a % c + 1, c);
    }
  }

  lemma Difference(a: int, b: int, c: int)
    requires 0 < c
    ensures (a % c + c - b % c) % c == (a - b) % c
  {
    var x, y, d := a / c, b / c, a % c - b % c;
    assert a == x * c + a % c && b == y * c + b % c;
    assert a - b == (x - y) * c + d;
    Shift(d, c);
    if d >= 0 {
      Unique(a - b, x - y, d, c);
      Small(d, c);
    } else {
      assert (x - y) * c + d == (x - y - 1) * c + (d + c);
      Unique(a - b, x - y - 1, d + c, c);
      Small(d + c, c);
    }
  }

  lemma Small(a: int, c: int)
    requires 0 <= a < c
    ensures a % c == a
  {
    Unique(a, 0, a, c);
  }

  /** Reducing the summands first does not change the remainder of a sum. */
  lemma Sum(a: int, b: int, c: int)
    requires 0 < c
    ensures (a % c + b) % c == (a + b) % c
  {
    var q := (a % c + b) / c;
    Unique(a + b, a / c + q, (a % c + b) % c, c);
  }
}
