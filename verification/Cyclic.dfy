/** Positions on a ring of n places. */
module Cyclic {
  lemma ModuloIs(x: nat, n: nat, q: nat, r: nat)
    requires r < n && x == n * q + r
    ensures x % n == r
  {
    var d := x / n - q;
    assert x == n * (x / n) + x % n;
    assert n * d == r - x % n;
    assert d >= 1 ==> n * d >= n;
    assert d <= -1 ==> n * d <= 0 - n;
  }

  lemma WholeTurns(a: nat, n: nat, t: nat)
    requires n > 0
    ensures (n * t + a) % n == a % n
  {
    assert a == n * (a / n) + a % n;
    assert n * (t + a / n) == n * t + n * (a / n);
    ModuloIs(n * t + a, n, t + a / n, a % n);
  }

  // How many steps lead from place s to place j.
  function StepsTo(s: nat, j: nat, n: nat): (k: nat)
    requires s < n && j < n
    ensures k < n
  {
    if s <= j then j - s else j + n - s
  }

  lemma OneTurnModulo(s: nat, k: nat, n: nat)
    requires s < n && k < n
    ensures (s + k) % n == if s + k < n then s + k else s + k - n
  {
    if s + k < n {
      ModuloIs(s + k, n, 0, s + k);
    } else {
      ModuloIs(s + k, n, 1, s + k - n);
    }
  }

  // From any start c the ring reaches place j within one turn.
  lemma Reaches(c: nat, j: nat, n: nat)
    requires j < n
    ensures (c + StepsTo(c % n, j, n)) % n == j
  {
    var s := c % n;
    var k := StepsTo(s, j, n);
    assert c == n * (c / n) + s;
    WholeTurns(s + k, n, c / n);
    OneTurnModulo(s, k, n);
  }
}
