/** Division facts about symbolic divisors, proved once for the periodic clock and the digit routines. */
module Arith {
  lemma AtLeast(d: int, m: nat)
    requires d >= 1
    ensures d * m >= m
  {
  }

  lemma Distribute(a: int, b: int, m: int)
    ensures (a - b) * m == a * m - b * m
  {
  }

  lemma Fundamental(x: nat, m: nat)
    requires m > 0
    ensures x == (x / m) * m + x % m
  {
  }

  lemma QuotientUnique(m: nat, q: int, r: nat, q': int, r': nat)
    requires r < m && r' < m && q * m + r == q' * m + r'
    ensures q == q' && r == r'
  {
    if q < q' {
      AtLeast(q' - q, m);
      Distribute(q', q, m);
    } else if q' < q {
      AtLeast(q - q', m);
      Distribute(q, q', m);
    }
  }

  lemma DivModUnique(x: nat, m: nat, q: nat, r: nat)
    requires r < m && x == q * m + r
    ensures x / m == q && x % m == r
  {
    Fundamental(x, m);
    QuotientUnique(m, q, r, x / m, x % m);
  }

  lemma NextRemainder(t: nat, m: nat)
    requires m > 0
    ensures (t + 1) % m == if t % m + 1 == m then 0 else t % m + 1
  {
    var q, r := t / m, t % m;
    Fundamental(t, m);
    if r + 1 == m {
      Distribute(q + 1, 1, m);
      DivModUnique(t + 1, m, q + 1, 0);
    } else {
      DivModUnique(t + 1, m, q, r + 1);
    }
  }
}
