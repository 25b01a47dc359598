/**
 Gas and price conversions between L1 gas and Sierra (L2) gas. One unit of Sierra gas is worth
 `numer / denom` units of L1 gas, and every conversion rounds up.
 */
module GasConversion {

  /** A positive ratio: L1 gas per unit of Sierra gas. */
  datatype Ratio = Ratio(numer: nat, denom: nat) {
    predicate Positive() {
      numer > 0 && denom > 0
    }
  }

  /** `a / b` rounded up, as `Ratio::ceil` computes it. */
  function CeilDiv(a: nat, b: nat): nat
    requires b > 0
  {
    (a + b - 1) / b
  }

  function L1ToSierraAmount(r: Ratio, l1Amount: nat): nat
    requires r.Positive()
  {
    CeilDiv(r.denom * l1Amount, r.numer)
  }

  function SierraToL1Amount(r: Ratio, sierraAmount: nat): nat
    requires r.Positive()
  {
    CeilDiv(r.numer * sierraAmount, r.denom)
  }

  function L1ToL2Price(r: Ratio, l1Price: nat): nat
    requires r.Positive()
  {
    CeilDiv(r.numer * l1Price, r.denom)
  }

  // ----- Rounding up -----

  /** Rounding up gives the one integer whose multiple covers `a` with less than `b` to spare. */
  lemma CeilDivBounds(a: nat, b: nat)
    requires b > 0
    ensures a <= b * CeilDiv(a, b) < a + b
  {
    var x := a + b - 1;
    assert x == b * (x / b) + x % b;
  }

  /** Rounding up is the least integer that covers. */
  lemma CeilDivIsLeast(a: nat, b: nat, y: nat)
    requires b > 0
    ensures CeilDiv(a, b) <= y <==> a <= b * y
  {
    CeilDivBounds(a, b);
    var c := CeilDiv(a, b);
    if c <= y {
      assert b * c <= b * y;
    } else {
      assert b * (y + 1) <= b * c;
      assert b * (y + 1) == b * y + b;
    }
  }

  // ----- What the conversions promise -----

  /** The converted amount is the least Sierra amount whose exact L1 value covers the input. */
  lemma ConversionIsLeastCover(r: Ratio, l1Amount: nat, sierraAmount: nat)
    requires r.Positive()
    ensures L1ToSierraAmount(r, l1Amount) <= sierraAmount <==> r.denom * l1Amount <= r.numer * sierraAmount
  {
    CeilDivIsLeast(r.denom * l1Amount, r.numer, sierraAmount);
  }

  /** The same for the two other conversions, each in its own direction. */
  lemma {:induction false} BackConversionIsLeastCover(r: Ratio, sierraAmount: nat, l1Amount: nat)
    requires r.Positive()
    ensures SierraToL1Amount(r, sierraAmount) <= l1Amount <==> r.numer * sierraAmount <= r.denom * l1Amount
  {
    CeilDivIsLeast(r.numer * sierraAmount, r.denom, l1Amount);
  }

  /** A unit of Sierra gas costs the least price that covers its share of an L1 gas unit. */
  lemma {:induction false} PriceIsLeastCover(r: Ratio, l1Price: nat, l2Price: nat)
    requires r.Positive()
    ensures L1ToL2Price(r, l1Price) <= l2Price <==> r.numer * l1Price <= r.denom * l2Price
  {
    CeilDivIsLeast(r.numer * l1Price, r.denom, l2Price);
  }

  /** Converting back never loses gas and gains at most `(numer - 1) / denom` rounded up. */
  lemma RoundTripOvershoot(r: Ratio, l1Amount: nat)
    requires r.Positive()
    ensures var back := SierraToL1Amount(r, L1ToSierraAmount(r, l1Amount));
            l1Amount <= back <= l1Amount + CeilDiv(r.numer - 1, r.denom)
  {
    var p, q, x := r.numer, r.denom, l1Amount;
    var s := L1ToSierraAmount(r, x);
    CeilDivBounds(q * x, p);
    var slack := CeilDiv(p - 1, q);
    CeilDivBounds(p - 1, q);
    assert p * s <= q * (x + slack) by {
      assert q * (x + slack) == q * x + q * slack;
    }
    CeilDivIsLeast(p * s, q, x + slack);
    if x > 0 {
      CeilDivIsLeast(p * s, q, x - 1);
      assert q * (x - 1) == q * x - q;
    }
  }

  /** For a unit fraction the round trip is exact. */
  lemma UnitFractionRoundTrip(r: Ratio, l1Amount: nat)
    requires r.Positive() && r.numer == 1
    ensures SierraToL1Amount(r, L1ToSierraAmount(r, l1Amount)) == l1Amount
  {
    RoundTripOvershoot(r, l1Amount);
    CeilDivBounds(0, r.denom);
    assert CeilDiv(0, r.denom) == 0;
  }

  /** The other round trip: from Sierra gas to L1 gas and back. */
  lemma SierraRoundTripOvershoot(r: Ratio, sierraAmount: nat)
    requires r.Positive()
    ensures var back := L1ToSierraAmount(r, SierraToL1Amount(r, sierraAmount));
            sierraAmount <= back <= sierraAmount + CeilDiv(r.denom - 1, r.numer)
  {
    RoundTripOvershoot(Ratio(r.denom, r.numer), sierraAmount);
  }

  lemma ProductCovers(p: nat, q: nat, x: nat, price: nat, s: nat, l2: nat)
    requires p > 0 && q > 0 && q * x <= p * s && p * price <= q * l2
    ensures x * price <= s * l2
  {
    calc {
      (p * q) * (x * price);
    == { MulShuffle(p, q, x, price); }
      (q * x) * (p * price);
    <= { MulMonotone(q * x, p * s, p * price, q * l2); }
      (p * s) * (q * l2);
    == { MulShuffle(q, p, s, l2); }
      (q * p) * (s * l2);
    }
    MulCancel(p * q, x * price, s * l2);
  }

  lemma MulShuffle(p: nat, q: nat, x: nat, y: nat)
    ensures (p * q) * (x * y) == (q * x) * (p * y)
  {
    calc {
      (p * q) * (x * y);
      (q * p) * (x * y);
      q * (p * (x * y));
      q * (x * (p * y));
      (q * x) * (p * y);
    }
  }

  lemma MulMonotone(a: nat, b: nat, c: nat, d: nat)
    requires a <= b && c <= d
    ensures a * c <= b * d
  {
    assert a * c <= b * c;
    assert b * c <= b * d;
  }

  lemma MulCancel(k: nat, a: nat, b: nat)
    requires k > 0 && k * a <= k * b
    ensures a <= b
  {
    assert b + 1 <= a ==> k * (b + 1) <= k * a;
    assert k * (b + 1) == k * b + k;
  }

  /** The converted amount at the converted price never costs less than the original L1 charge. */
  lemma ConvertedChargeCovers(r: Ratio, l1Amount: nat, l1Price: nat)
    requires r.Positive()
    ensures l1Amount * l1Price <= L1ToSierraAmount(r, l1Amount) * L1ToL2Price(r, l1Price)
  {
    CeilDivBounds(r.denom * l1Amount, r.numer);
    CeilDivBounds(r.numer * l1Price, r.denom);
    ProductCovers(r.numer, r.denom, l1Amount, l1Price, L1ToSierraAmount(r, l1Amount), L1ToL2Price(r, l1Price));
  }

  lemma ScaledCover(k: nat, a: nat, b: nat, y: nat)
    requires k > 0
    ensures k * a <= (k * b) * y <==> a <= b * y
  {
    assert (k * b) * y == k * (b * y);
    if a <= b * y {
      MulMonotone(k, k, a, b * y);
    } else {
      MulMonotone(k, k, b * y + 1, a);
      assert k * (b * y + 1) == k * (b * y) + k;
    }
  }

  /** Only the quotient matters: reducing the fraction does not change the rounded result. */
  lemma CeilDivReduces(k: nat, a: nat, b: nat)
    requires k > 0 && b > 0
    ensures k * b > 0 && CeilDiv(k * a, k * b) == CeilDiv(a, b)
  {
    assert k * b > 0 by {
      MulMonotone(1, k, b, b);
    }
    SameUpperBounds(k * a, k * b, a, b, CeilDiv(k * a, k * b), k);
    SameUpperBounds(k * a, k * b, a, b, CeilDiv(a, b), k);
  }

  lemma SameUpperBounds(ka: nat, kb: nat, a: nat, b: nat, y: nat, k: nat)
    requires k > 0 && b > 0 && ka == k * a && kb == k * b && kb > 0
    ensures CeilDiv(ka, kb) <= y <==> CeilDiv(a, b) <= y
  {
    CeilDivIsLeast(ka, kb, y);
    CeilDivIsLeast(a, b, y);
    ScaledCover(k, a, b, y);
  }

  /** A ratio and its reduced form convert every amount and price alike. */
  lemma ReducedRatioConvertsAlike(r: Ratio, k: nat, x: nat)
    requires r.Positive() && k > 0
    ensures var unreduced := Ratio(k * r.numer, k * r.denom);
            && unreduced.Positive()
            && L1ToSierraAmount(unreduced, x) == L1ToSierraAmount(r, x)
            && SierraToL1Amount(unreduced, x) == SierraToL1Amount(r, x)
            && L1ToL2Price(unreduced, x) == L1ToL2Price(r, x)
  {
    CeilDivReduces(k, r.denom * x, r.numer);
    CeilDivReduces(k, r.numer * x, r.denom);
    assert k * (r.denom * x) == (k * r.denom) * x;
    assert k * (r.numer * x) == (k * r.numer) * x;
  }
}
