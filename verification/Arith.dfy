/** Products, quotients and remainders of naturals by a variable factor. */
module Arith {

  lemma {:induction false} MulMono(a: nat, b: nat, c: nat)
    requires a <= b
    ensures a * c <= b * c
  {
    if c > 0 {
      MulMono(a, b, c - 1);
    }
  }

  lemma {:induction false} DivMod(g: nat, k: nat, per: nat)
    requires k < per
    ensures (g * per + k) / per == g && (g * per + k) % per == k
  {
    var x := g * per + k;
    var q, r := x / per, x % per;
    assert x == q * per + r;
    DivUnique(q, r, g, k, per);
  }

  lemma MulStep(a: nat, b: nat, c: nat)
    requires a < b
    ensures a * c + c <= b * c
  {
    MulMono(a + 1, b, c);
    assert (a + 1) * c == a * c + c;
  }

  lemma DivUnique(q: nat, r: nat, g: nat, k: nat, per: nat)
    requires r < per && k < per && q * per + r == g * per + k
    ensures q == g && r == k
  {
    if q < g {
      MulStep(q, g, per);
    } else if g < q {
      MulStep(g, q, per);
    }
  }

  /** A quotient behind a name, so that products of it stay products. */
  function Quot(x: nat, d: nat): nat
    requires d > 0
  {
    x / d
  }

  lemma QuotDiv(x: nat, d: nat)
    requires d > 0
    ensures Quot(x, d) == x / d
  {
  }

  lemma QuotBound(x: nat, d: nat)
    requires d > 0
    ensures Quot(x, d) * d <= x < Quot(x, d) * d + d
  {
  }

  lemma QuotIs(x: nat, d: nat, q: nat)
    requires d > 0 && q * d <= x < q * d + d
    ensures Quot(x, d) == q
  {
    hide Quot;
    var r := Quot(x, d);
    QuotBound(x, d);
    DivUnique(r, x - r * d, q, x - q * d, d);
  }
}
