/** Quotients and remainders by a variable divisor. */
module Arithmetic {

  lemma {:induction false} AddMultiple(s: int, k: int, y: int)
    requires s > 0 && k >= 0
    ensures (s * k + y) % s == y % s
    decreases k
  {
    if k > 0 {
      AddMultiple(s, k - 1, y);
      var z := s * (k - 1) + y;
      assert s * k + y == z + s;
      AddOne(s, z);
    }
  }

  lemma AddOne(s: int, z: int)
    requires s > 0
    ensures (z + s) % s == z % s
  {
    var q, r := z / s, z % s;
    assert z + s == s * (q + 1) + r;
    Unique(s, z + s, q + 1, r);
  }

  /** Quotient and remainder are unique. */
  lemma Unique(s: int, z: int, q: int, r: int)
    requires s > 0 && z == s * q + r && 0 <= r < s
    ensures z / s == q && z % s == r
  {
    var d := z / s - q;
    assert s * d == r - z % s;
    if d >= 1 {
      Scale(s, d);
    } else if d <= -1 {
      Scale(s, -d);
    }
  }

  lemma Scale(s: int, d: int)
    requires s > 0 && d >= 1
    ensures s * d >= s
  {
  }

  lemma Different(a: int, b: int, s: int)
    requires s > 0 && a < b < a + s
    ensures a % s != b % s
  {
    var d := b / s - a / s;
    assert b - a == s * d + (b % s - a % s);
    if d >= 1 {
      Scale(s, d);
    } else if d <= -1 {
      Scale(s, -d);
    }
  }
}
