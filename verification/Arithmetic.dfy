/** The few nonlinear facts the block arithmetic needs. */
module Arithmetic {

  lemma MulMono(a: int, b: int, c: nat)
    requires a <= b
    ensures a * c <= b * c
  {
    assert (b - a) * c >= 0;
  }

  lemma MulStrict(a: int, b: int, c: int)
    requires c > 0
    ensures a < b <==> a * c < b * c
    ensures a <= b <==> a * c <= b * c
  {
    if a < b {
      MulMono(a + 1, b, c);
    } else {
      MulMono(b, a, c);
    }
  }

  lemma DivBounds(a: int, c: int)
    requires c > 0
    ensures a / c * c <= a < (a / c + 1) * c
    ensures a == a / c * c + a % c
  {
  }

  /** The quotient is the only multiple-index whose interval holds `a`. */
  lemma DivUnique(a: int, c: int, q: int)
    requires c > 0 && q * c <= a < (q + 1) * c
    ensures a / c == q
  {
    DivBounds(a, c);
    MulStrict(a / c, q + 1, c);
    MulStrict(q, a / c + 1, c);
  }

  lemma MulSucc(q: int, c: int)
    ensures (q + 1) * c == q * c + c
  {
  }

  lemma DivOfMultiple(q: nat, c: int)
    requires c > 0
    ensures 0 <= q * c && q * c / c == q
  {
    MulMono(0, q, c);
    MulSucc(q, c);
    DivUnique(q * c, c, q);
  }

  lemma ModOfMultiple(q: nat, c: int)
    requires c > 0
    ensures q * c % c == 0
  {
    DivOfMultiple(q, c);
    DivBounds(q * c, c);
  }

  /** Distinct multiples of `c` are at least `c` apart. */
  lemma MultiplesApart(p: int, q: int, c: nat)
    requires p * c < q * c
    ensures p * c + c <= q * c
  {
    if q <= p {
      MulMono(q, p, c);
    }
    MulSucc(p, c);
    MulMono(p + 1, q, c);
  }
}
