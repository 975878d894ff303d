/** Facts about remainders. */
module Arithmetic {

  lemma SmallRemainder(x: int, m: int)
    requires 0 <= x < m
    ensures x % m == x
  {}

  lemma MultipleBound(t: int, m: int)
    requires 0 < m
    ensures t >= 1 ==> t * m >= m
    ensures t <= -1 ==> t * m <= -m
  {}

  lemma RemainderIsUnique(q: int, m: int, s: int)
    requires 0 <= s < m
    ensures (q * m + s) % m == s
  {
    var x := q * m + s;
    assert x == (x / m) * m + x % m;
    assert (q - x / m) * m == x % m - s;
    MultipleBound(q - x / m, m);
  }
}
