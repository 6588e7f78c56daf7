/** Powers of two, single bits and the positions they lead to. */
module Bits {
  function Pow2(i: nat): (p: nat)
    ensures p > 0
  {
    if i == 0 then 1 else 2 * Pow2(i - 1)
  }

  /** The position of the highest bit. */
  function FloorLog2(n: nat): (l: nat)
    requires n > 0
    ensures Pow2(l) <= n < 2 * Pow2(l)
  {
    if n == 1 then 0 else FloorLog2(n / 2) + 1
  }

  /** The exponent of the least power of two not below `n`. */
  function CeilLog2(n: nat): (l: nat)
    requires n > 0
    ensures n <= Pow2(l) && (l > 0 ==> Pow2(l - 1) < n)
  {
    if n == 1 then 0
    else
      var l := CeilLog2((n + 1) / 2);
      assert l > 0 ==> Pow2(l) == 2 * Pow2(l - 1);
      l + 1
  }

  /** `(n & m) == 0` for a power `m` of two. */
  predicate BitClear(n: nat, m: nat)
    requires m > 0
  {
    n / m % 2 == 0
  }

  /** The bit `m` leads from the position of the higher bits to the next one. */
  lemma NextPosition(n: nat, m: nat)
    requires m > 0
    ensures n / m == 2 * (n / (2 * m)) + (if BitClear(n, m) then 0 else 1)
    ensures n / (2 * m) == n / m / 2
  {
    var q := n / m;
    HalfOf(n, m, q, n % m, q / 2, q % 2);
  }

  lemma HalfOf(n: nat, m: nat, q: nat, r: nat, a: nat, b: nat)
    requires m > 0 && n == m * q + r && r < m && q == 2 * a + b && b < 2
    ensures n / (2 * m) == a
  {
    assert m * q == (2 * m) * a + m * b;
    assert b == 0 || m * b == m;
    DivIs(n, 2 * m, a, m * b + r);
  }

  lemma DivIs(n: nat, d: nat, q: nat, r: nat)
    requires d > 0 && n == d * q + r && r < d
    ensures n / d == q
  {
    var q' := n / d;
    assert q' > q ==> d * q' >= d * (q + 1);
    assert q' < q ==> d * q >= d * (q' + 1);
  }

  lemma TopBit(n: nat)
    requires n >= 2
    ensures FloorLog2(n) >= 1 && n / Pow2(FloorLog2(n)) == 1 && Pow2(FloorLog2(n)) == 2 * Pow2(FloorLog2(n) - 1)
  {
    var l := FloorLog2(n);
    DivIs(n, Pow2(l), 1, n - Pow2(l));
  }

  /** A power of two that is halved as in `m >>= 1`. */
  ghost predicate IsPow2(m: nat) {
    exists i: nat :: m == Pow2(i)
  }

  lemma Halve(m: nat)
    requires IsPow2(m)
    ensures m > 0 && (m == 1 || (IsPow2(m / 2) && m == 2 * (m / 2)))
  {
    var i: nat :| m == Pow2(i);
    if i > 0 { assert m / 2 == Pow2(i - 1); }
  }

  lemma {:induction false} Pow2Grows(i: nat, j: nat)
    requires i < j
    ensures Pow2(i) < Pow2(j)
  {
    if i + 1 < j { Pow2Grows(i, j - 1); }
  }

  lemma ExactLog2(n: nat)
    requires IsPow2(n)
    ensures n > 0 && Pow2(CeilLog2(n)) == n
  {
    var i: nat :| n == Pow2(i);
    var l := CeilLog2(n);
    if i < l - 1 { Pow2Grows(i, l - 1); }
    if l < i { Pow2Grows(l, i); }
  }

  /** The position that the bits of `n` from `m` up lead to. */
  function Lead(n: nat, m: nat): nat
    requires m > 0
  {
    n / m
  }

  /** One bit further down. */
  lemma NextBit(n: nat, m: nat)
    requires IsPow2(m) && n > 0
    ensures m > 0 && Lead(n, m) <= n
    ensures if m == 1 then Lead(n, m) == n && m / 2 == 0 else IsPow2(m / 2) && Lead(n, m) == Lead(n, m / 2) / 2
  {
    Halve(m);
    if m > 1 { NextPosition(n, m / 2); }
    QuotientAtMost(n, m, n / m, n % m);
  }

  lemma QuotientAtMost(n: nat, m: nat, q: nat, r: nat)
    requires m > 0 && n == m * q + r
    ensures q <= n
  {
    assert m * q == q + (m - 1) * q;
  }

  /** The highest bit but one leads to a child of the root. */
  lemma SecondBit(n: nat)
    requires n >= 2
    ensures FloorLog2(n) >= 1 && IsPow2(Pow2(FloorLog2(n) - 1)) && Lead(n, Pow2(FloorLog2(n) - 1)) / 2 == 1
  {
    TopBit(n);
    NextPosition(n, Pow2(FloorLog2(n) - 1));
  }

  lemma BitIs(n: nat, m: nat)
    requires m > 0
    ensures BitClear(n, m) <==> Lead(n, m) % 2 == 0
  {}

  /** Before the lowest bit the position lies in the upper half. */
  lemma HalfIsLess(n: nat, m: nat)
    requires m > 1
    ensures 2 * Lead(n, m) <= n
  {
    TwiceAtMost(n, m, n / m, n % m);
  }

  lemma TwiceAtMost(n: nat, m: nat, q: nat, r: nat)
    requires m > 1 && n == m * q + r
    ensures 2 * q <= n
  {
    assert m * q == 2 * q + (m - 2) * q;
  }
}
