// Unsigned division by repeated subtraction, which is how SeekToCluster does it
// and how proofs about a symbolic cluster size can follow it.
module Division {

  function Quot(x: nat, d: nat): nat
    requires d > 0
  {
    if x < d then 0 else 1 + Quot(x - d, d)
  }

  function Rem(x: nat, d: nat): (r: nat)
    requires d > 0
    ensures r < d
  {
    if x < d then x else Rem(x - d, d)
  }

  lemma {:induction false} QuotRem(x: nat, d: nat)
    requires d > 0
    ensures x == Quot(x, d) * d + Rem(x, d)
  {
    if x >= d {
      QuotRem(x - d, d);
      Distribute(Quot(x - d, d), d);
    }
  }

  lemma Distribute(q: nat, d: nat)
    ensures (q + 1) * d == q * d + d
  {
  }

  lemma {:induction false} Unique(q: nat, d: nat, r: nat)
    requires r < d
    ensures Quot(q * d + r, d) == q && Rem(q * d + r, d) == r
  {
    if q > 0 {
      Distribute(q - 1, d);
      Unique(q - 1, d, r);
    }
  }

  // It is the built-in division.
  lemma IsDivision(x: nat, d: nat)
    requires d > 0
    ensures Quot(x, d) == x / d && Rem(x, d) == x % d
  {
    var q, r := Euclid(x, d);
    Unique(q, d, r);
  }

  lemma Euclid(x: nat, d: nat) returns (q: nat, r: nat)
    requires d > 0
    ensures q == x / d && r == x % d && x == q * d + r && r < d
  {
    q, r := x / d, x % d;
  }

  // Moving on inside one unit of `d`, or to the start of the next.
  lemma Advance(x: nat, n: nat, d: nat)
    requires d > 0 && Rem(x, d) + n <= d
    ensures Rem(x, d) + n < d ==> Quot(x + n, d) == Quot(x, d) && Rem(x + n, d) == Rem(x, d) + n
    ensures Rem(x, d) + n == d ==> Quot(x + n, d) == Quot(x, d) + 1 && Rem(x + n, d) == 0
  {
    QuotRem(x, d);
    var q, r := Quot(x, d), Rem(x, d);
    if r + n < d {
      Unique(q, d, r + n);
    } else {
      Distribute(q, d);
      Unique(q + 1, d, 0);
    }
  }

  lemma {:induction false} QuotBelow(x: nat, q: nat, d: nat)
    requires d > 0
    ensures x < q * d <==> Quot(x, d) < q
  {
    if x >= d && q > 0 {
      Distribute(q - 1, d);
      QuotBelow(x - d, q - 1, d);
    } else if q > 0 {
      Distribute(q - 1, d);
      NonNegative(q - 1, d);
    }
  }

  lemma NonNegative(q: nat, d: nat)
    ensures q * d >= 0
  {
  }

  // Dividing twice is dividing by the product.
  lemma {:induction false} QuotQuot(x: nat, d: nat, e: nat)
    requires d > 0 && e > 0
    ensures d * e > 0 && Quot(x, d * e) == Quot(Quot(x, d), e)
    ensures Rem(x, d * e) == Rem(Quot(x, d), e) * d + Rem(x, d)
  {
    var q, r := Quot(x, d), Rem(x, d);
    var q', r' := Quot(q, e), Rem(q, e);
    QuotRem(x, d);
    QuotRem(q, e);
    Positive(d, e);
    Regroup(q', r', r, d, e);
    Unique(q', d * e, r' * d + r);
  }

  lemma Positive(d: nat, e: nat)
    requires d > 0 && e > 0
    ensures d * e > 0
  {
  }

  lemma Regroup(q: nat, r: nat, s: nat, d: nat, e: nat)
    requires r < e && s < d
    ensures (q * e + r) * d + s == q * (d * e) + (r * d + s)
    ensures r * d + s < d * e
  {
    assert (q * e + r) * d == q * e * d + r * d;
    assert q * e * d == q * (d * e);
    assert r * d <= (e - 1) * d;
  }

  lemma {:induction false} QuotMono(x: nat, y: nat, d: nat)
    requires d > 0 && x <= y
    ensures Quot(x, d) <= Quot(y, d)
  {
    if x >= d {
      QuotMono(x - d, y - d, d);
    }
  }

  // Moving by at most one inner unit reaches the end of the outer unit only from
  // its last inner unit.
  lemma OuterEnd(x: nat, n: nat, d: nat, e: nat)
    requires d > 0 && e > 0 && Rem(x, d) + n <= d
    ensures d * e > 0
    ensures Rem(x, d * e) + n >= d * e <==> Rem(x, d) + n == d && Rem(Quot(x, d), e) + 1 == e
  {
    hide Quot, Rem;
    QuotQuot(x, d, e);
    var k, r := Rem(Quot(x, d), e), Rem(x, d);
    if k + 1 == e {
      Distribute(k, d);
      assert d * e == (k + 1) * d;
    } else {
      Steps(k, e, d);
    }
  }

  lemma Steps(k: nat, e: nat, d: nat)
    requires k + 2 <= e && d > 0
    ensures k * d + d < d * e
  {
    assert d * e == k * d + 2 * d + (e - k - 2) * d;
    NonNegative(e - k - 2, d);
  }
}
