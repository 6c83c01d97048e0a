/**
 * The priority-based gas bumping strategies, with their floating-point steps: a price becomes the
 * nearest float64, is multiplied by a float64 factor at 53 bits of precision, loses its fraction and
 * saturates at the largest int64.
 */
module BumpStrategy {
  datatype Priority = Degen | Fast | Standard | Slow | Other

  const TWO_52: nat := 0x10_0000_0000_0000
  const TWO_53: nat := 0x20_0000_0000_0000
  const MAX_INT64: nat := 0x7fff_ffff_ffff_ffff

  /** A number as q units of size u and a remainder r, where q has at most 53 bits. */
  datatype Parts = Parts(q: nat, r: nat, u: nat)

  function Split(p: nat): (s: Parts)
    ensures s.q * s.u + s.r == p
    ensures s.r < s.u && s.q < TWO_53
    ensures s.u > 1 ==> TWO_52 <= s.q
  {
    if p < TWO_53 then Parts(p, 0, 1) else
    var h := Split(p / 2);
    assert h.q * (2 * h.u) == 2 * (h.q * h.u);
    Parts(h.q, 2 * h.r + p % 2, 2 * h.u)
  }

  /** The quotient rounded to nearest, ties to even. */
  function HalfEven(s: Parts): nat {
    if 2 * s.r < s.u || (2 * s.r == s.u && s.q % 2 == 0) then s.q else s.q + 1
  }

  /** Nearest number with 53 significant bits. */
  function Round53(p: nat): nat {
    var s := Split(p);
    HalfEven(s) * s.u
  }

  /** The float64 nearest to 1.3, 1.15 or 1.05, in units of 2^-52. */
  function Factor(p: Priority): nat {
    match p
    case Fast => 5854679515581645
    case Standard => 5179139571476070
    case Slow => 4728779608739021
    case Degen | Other => TWO_52
  }

  predicate UsesFloat(p: Priority) { p.Fast? || p.Standard? || p.Slow? }

  function Min(a: nat, b: nat): nat { if a < b then a else b }

  function Bump(p: Priority, price: nat): nat {
    match p
    case Degen => 2 * price
    case Other => price
    case Fast | Standard | Slow => Min(Round53(Round53(price) * Factor(p)) / TWO_52, MAX_INT64)
  }

  /* ---------- Rounding ---------- */

  lemma MulMono(a: nat, b: nat, u: nat)
    requires a <= b
    ensures a * u <= b * u
  {
  }

  /** Splitting keeps the order: a larger unit, or the same unit and a larger quotient or remainder. */
  lemma {:induction false} SplitMonotone(p: nat, q: nat)
    requires p <= q
    ensures var a, b := Split(p), Split(q);
            2 * a.u <= b.u || (a.u == b.u && (a.q < b.q || (a.q == b.q && a.r <= b.r)))
  {
    if p >= TWO_53 {
      SplitMonotone(p / 2, q / 2);
      var a, b := Split(p / 2), Split(q / 2);
      if a == b {
        assert p / 2 == q / 2;
      }
    } else if q >= TWO_53 {
      assert Split(q).u == 2 * Split(q / 2).u;
    }
  }

  /** Rounding never changes the order of two prices. */
  lemma RoundMonotone(p: nat, q: nat)
    requires p <= q
    ensures Round53(p) <= Round53(q)
  {
    var a, b := Split(p), Split(q);
    SplitMonotone(p, q);
    if 2 * a.u <= b.u {
      MulMono(HalfEven(a), TWO_53, a.u);
      MulMono(TWO_52, HalfEven(b), b.u);
    } else {
      MulMono(HalfEven(a), HalfEven(b), a.u);
    }
  }

  /** The relative error of rounding is at most 2^-53 each way. */
  lemma RoundError(p: nat)
    ensures p * (TWO_53 - 1) <= Round53(p) * TWO_53 <= p * (TWO_53 + 1)
  {
    var s := Split(p);
    assert (s.q + 1) * s.u == s.q * s.u + s.u;
    if s.u > 1 {
      MulMono(TWO_52, s.q, s.u);
    }
  }

  /* ---------- Rounding is to nearest, ties to even ---------- */

  function Pow2(e: nat): (r: nat)
    ensures r >= 1
  {
    if e == 0 then 1 else 2 * Pow2(e - 1)
  }

  function Dist(a: nat, b: nat): nat { if a < b then b - a else a - b }

  lemma {:induction false} UnitIsPower(p: nat) returns (e: nat)
    ensures Split(p).u == Pow2(e)
  {
    if p < TWO_53 {
      e := 0;
    } else {
      var d := UnitIsPower(p / 2);
      e := d + 1;
    }
  }

  lemma {:induction false} PowersAreMultiples(e: nat, f: nat) returns (c: nat)
    requires f <= e
    ensures Pow2(e) == c * Pow2(f)
  {
    if e == f {
      c := 1;
    } else {
      var d := PowersAreMultiples(e - 1, f);
      c := 2 * d;
      assert 2 * (d * Pow2(f)) == c * Pow2(f);
    }
  }

  lemma {:induction false} PowersDouble(e: nat, f: nat)
    requires e < f
    ensures 2 * Pow2(e) <= Pow2(f)
  {
    if e < f - 1 {
      PowersDouble(e, f - 1);
    }
  }

  predicate IsTwice(g: nat, d: nat, r: nat) { r == g * (2 * d) }

  ghost predicate IsEvenMultiple(r: nat, d: nat) { exists g :: IsTwice(g, d, r) }

  /** R is no further from p than x is, and of two numbers equally far it is the even multiple of their distance. */
  ghost predicate NearestEven(p: nat, r: nat, x: nat) {
    && Dist(r, p) <= Dist(x, p)
    && (Dist(r, p) == Dist(x, p) && x != r ==> IsEvenMultiple(r, Dist(x, r)))
  }

  lemma TwiceHalf(g: nat, u: nat)
    ensures IsTwice(g, u, 2 * g * u)
  {
  }

  /** Linear: a is the multiple of the unit below the price, b the one above, r the chosen one, x any number not between. */
  lemma NearestOfTwo(a: nat, b: nat, p: nat, r: nat, x: nat)
    requires a <= p < b && (x <= a || b <= x)
    requires if 2 * (p - a) < b - a then r == a else if 2 * (p - a) > b - a then r == b else r == a || r == b
    ensures Dist(r, p) <= Dist(x, p)
    ensures Dist(r, p) == Dist(x, p) && x != r ==> 2 * (p - a) == b - a && Dist(x, r) == b - a
  {
  }

  lemma NextMultiple(q: nat, u: nat)
    ensures (q + 1) * u == q * u + u
  {
  }

  lemma NearestByDistance(p: nat, r: nat, x: nat, u: nat)
    requires u > 0 && Dist(r, p) <= Dist(x, p)
    requires Dist(r, p) == Dist(x, p) && x != r ==> Dist(x, r) == u && IsEvenMultiple(r, u)
    ensures NearestEven(p, r, x)
  {
  }

  /** For the multiples a and b of the unit around a price, of which r is the rounded one. */
  lemma NearestAround(s: Parts, a: nat, b: nat, r: nat, x: nat)
    requires s.r < s.u && b == a + s.u && (x <= a || b <= x)
    requires r == (if HalfEven(s) == s.q then a else b) && (2 * s.r == s.u ==> IsEvenMultiple(r, s.u))
    ensures NearestEven(a + s.r, r, x)
  {
    NearestOfTwo(a, b, a + s.r, r, x);
    NearestByDistance(a + s.r, r, x, s.u);
  }

  lemma TieIsEven(s: Parts)
    requires s.r < s.u && 2 * s.r == s.u
    ensures IsEvenMultiple(HalfEven(s) * s.u, s.u)
  {
    var g := HalfEven(s) / 2;
    TwiceHalf(g, s.u);
    assert HalfEven(s) == 2 * g;
  }

  lemma ChosenMultiple(s: Parts)
    ensures HalfEven(s) * s.u == if HalfEven(s) == s.q then s.q * s.u else (s.q + 1) * s.u
  {
  }

  lemma NearestOutside(s: Parts, x: nat)
    requires s.r < s.u && (x <= s.q * s.u || (s.q + 1) * s.u <= x)
    ensures NearestEven(s.q * s.u + s.r, HalfEven(s) * s.u, x)
  {
    NextMultiple(s.q, s.u);
    ChosenMultiple(s);
    if 2 * s.r == s.u {
      TieIsEven(s);
    }
    NearestAround(s, s.q * s.u, (s.q + 1) * s.u, HalfEven(s) * s.u, x);
  }

  lemma MultipleIsOutside(k: nat, q: nat, u: nat)
    ensures k * u <= q * u || (q + 1) * u <= k * u
  {
    if k <= q {
      MulMono(k, q, u);
    } else {
      MulMono(q + 1, k, u);
    }
  }

  lemma SmallUnit(m: nat, v: nat, q: nat, u: nat)
    requires m <= TWO_53 && 2 * v <= u && TWO_52 <= q
    ensures m * v <= q * u
  {
    MulMono(m, TWO_53, v);
    MulMono(TWO_52, q, u);
  }

  lemma Regroup(m: nat, c: nat, u: nat) returns (k: nat)
    ensures m * (c * u) == k * u
  {
    k := m * c;
  }

  /** A number of 53 bits in any unit does not lie between the two multiples of the price's unit around it. */
  lemma FloatIsOutside(p: nat, m: nat, e: nat)
    requires m <= TWO_53
    ensures var s, x := Split(p), m * Pow2(e); x <= s.q * s.u || (s.q + 1) * s.u <= x
  {
    var s := Split(p);
    var f := UnitIsPower(p);
    if f <= e {
      var c := PowersAreMultiples(e, f);
      var k := Regroup(m, c, s.u);
      MultipleIsOutside(k, s.q, s.u);
    } else {
      PowersDouble(e, f);
      SmallUnit(m, Pow2(e), s.q, s.u);
    }
  }

  /** The rounded price is the float64 nearest to the price among all numbers with 53 significant bits, ties to even. */
  lemma RoundIsNearestEven(p: nat, m: nat, e: nat)
    requires m <= TWO_53
    ensures NearestEven(p, Round53(p), m * Pow2(e))
  {
    FloatIsOutside(p, m, e);
    NearestOutside(Split(p), m * Pow2(e));
  }

  /** It has 53 significant bits itself. */
  lemma RoundIsFloat(p: nat) returns (m: nat, e: nat)
    ensures m <= TWO_53 && Round53(p) == m * Pow2(e)
  {
    m := HalfEven(Split(p));
    e := UnitIsPower(p);
  }

  /* ---------- What the strategies guarantee ---------- */

  lemma DivMono(a: nat, b: nat, k: nat)
    requires k > 0 && a <= b
    ensures a / k <= b / k
  {
    if a / k > b / k {
      MulMono(b / k + 1, a / k, k);
    }
  }

  /** Bumping never changes the order of two prices. */
  lemma BumpMonotone(p: Priority, a: nat, b: nat)
    requires a <= b
    ensures Bump(p, a) <= Bump(p, b)
  {
    if UsesFloat(p) {
      RoundMonotone(a, b);
      RoundMonotone(Round53(a) * Factor(p), Round53(b) * Factor(p));
      DivMono(Round53(Round53(a) * Factor(p)), Round53(Round53(b) * Factor(p)), TWO_52);
    }
  }

  lemma FloatProduct(price: nat, x: nat, y: nat, factor: nat)
    requires price * (TWO_53 - 1) <= x * TWO_53 <= price * (TWO_53 + 1)
    requires x * factor * (TWO_53 - 1) <= y * TWO_53 <= x * factor * (TWO_53 + 1)
    ensures price * factor * ((TWO_53 - 1) * (TWO_53 - 1)) <= y * (TWO_53 * TWO_53)
    ensures y * (TWO_53 * TWO_53) <= price * factor * ((TWO_53 + 1) * (TWO_53 + 1))
  {
    MulMono(price * (TWO_53 - 1), x * TWO_53, factor);
    MulMono(x * TWO_53, price * (TWO_53 + 1), factor);
    assert x * TWO_53 * factor == x * factor * TWO_53;
    assert price * (TWO_53 - 1) * factor == price * factor * (TWO_53 - 1);
    assert price * (TWO_53 + 1) * factor == price * factor * (TWO_53 + 1);
  }

  lemma ProductBounds(p: Priority, price: nat)
    requires UsesFloat(p)
    ensures var y := Round53(Round53(price) * Factor(p));
            && price * Factor(p) * ((TWO_53 - 1) * (TWO_53 - 1)) <= y * (TWO_53 * TWO_53)
            && y * (TWO_53 * TWO_53) <= price * Factor(p) * ((TWO_53 + 1) * (TWO_53 + 1))
  {
    var x := Round53(price);
    var y := Round53(x * Factor(p));
    RoundError(price);
    RoundError(x * Factor(p));
    FloatProduct(price, x, y, Factor(p));
  }

  lemma ProductRaises(price: nat, m: nat, y: nat)
    requires price * 4728779608739021 <= m
    requires m * ((TWO_53 - 1) * (TWO_53 - 1)) <= y * (TWO_53 * TWO_53)
    ensures price * TWO_52 <= y
  {
  }

  lemma FloatRaises(p: Priority, price: nat, y: nat)
    requires UsesFloat(p) && y == Round53(Round53(price) * Factor(p))
    ensures price <= y / TWO_52
  {
    ProductBounds(p, price);
    MulMono(4728779608739021, Factor(p), price);
    ProductRaises(price, price * Factor(p), y);
  }

  /** A bump never lowers a price, unless the price is above what the float strategies can return. */
  lemma BumpRaisesExactlyWithinInt64(p: Priority, price: nat)
    ensures Bump(p, price) >= price <==> !UsesFloat(p) || price <= MAX_INT64
  {
    if UsesFloat(p) {
      FloatRaises(p, price, Round53(Round53(price) * Factor(p)));
    }
  }

  function Percent(p: Priority): nat {
    match p
    case Degen => 200
    case Fast => 130
    case Standard => 115
    case Slow => 105
    case Other => 100
  }

  /** Linear in the price, its product m with the factor, its product n with the percentage, y and b. */
  lemma PercentageOfProduct(price: nat, m: nat, n: nat, y: nat, b: nat)
    requires m * ((TWO_53 - 1) * (TWO_53 - 1)) <= y * (TWO_53 * TWO_53) <= m * ((TWO_53 + 1) * (TWO_53 + 1))
    requires TWO_52 * n - 64 * price <= 100 * m <= TWO_52 * n + 64 * price && n <= 130 * price
    requires b * TWO_52 <= y < b * TWO_52 + TWO_52
    ensures (100 * b - n) * 0x100_0000_0000 <= price && (n - 100 * b - 100) * 0x100_0000_0000 <= price
  {
    assert y <= m + m / 0x8_0000_0000_0000 + 1;
    assert m <= y + m / 0x8_0000_0000_0000 + 1;
  }

  /** The float64 factors are the documented percentages, up to 64 units in 2^52. */
  lemma FactorIsPercent(p: Priority, price: nat)
    requires UsesFloat(p)
    ensures TWO_52 * (Percent(p) * price) - 64 * price <= 100 * (price * Factor(p)) <= TWO_52 * (Percent(p) * price) + 64 * price
    ensures Percent(p) * price <= 130 * price
  {
    match p
    case Fast => assert price * Factor(p) == 5854679515581645 * price;
    case Standard => assert price * Factor(p) == 5179139571476070 * price;
    case Slow => assert price * Factor(p) == 4728779608739021 * price;
  }

  /** Below saturation a bump multiplies by the documented percentage, up to one wei and 2^-40 of the price. */
  lemma BumpPercentage(p: Priority, price: nat)
    requires UsesFloat(p) ==> Bump(p, price) < MAX_INT64
    ensures var exact, got := Percent(p) * price, 100 * Bump(p, price);
            (got - exact) * 0x100_0000_0000 <= price && (exact - got - 100) * 0x100_0000_0000 <= price
  {
    if UsesFloat(p) {
      ProductBounds(p, price);
      var y := Round53(Round53(price) * Factor(p));
      FactorIsPercent(p, price);
      PercentageOfProduct(price, price * Factor(p), Percent(p) * price, y, y / TWO_52);
    }
  }

  lemma SplitTwice(p: nat)
    requires p >= TWO_53
    ensures Split(p) == Parts(Split(p / 2).q, 2 * Split(p / 2).r + p % 2, 2 * Split(p / 2).u)
  {
  }

  lemma SplitOfTwenty()
    ensures Split(94575592174780420) == Parts(5910974510923776, 4, 16)
  {
    SplitTwice(94575592174780420);
    SplitTwice(47287796087390210);
    SplitTwice(23643898043695105);
    SplitTwice(11821949021847552);
    assert Split(5910974510923776) == Parts(5910974510923776, 0, 1);
  }

  lemma RoundBelow(p: nat, s: Parts)
    requires s == Split(p) && 2 * s.r < s.u
    ensures Round53(p) == s.q * s.u
  {
  }

  /** Five percent of twenty wei is one wei in floats as well. */
  lemma SlowTwenty()
    ensures Bump(Slow, 20) == 21
  {
    RoundBelow(20, Parts(20, 0, 1));
    SplitOfTwenty();
    RoundBelow(94575592174780420, Parts(5910974510923776, 4, 16));
    assert 20 * Factor(Slow) == 94575592174780420;
  }

  /** Linear in the price, its product n with the percentage, and the new price b. */
  lemma RaiseThreshold(price: nat, n: nat, b: nat)
    requires 105 * price <= n <= 130 * price
    requires (100 * b - n) * 0x100_0000_0000 <= price && (n - 100 * b - 100) * 0x100_0000_0000 <= price
    ensures n - 100 * price < 100 ==> b <= price
    ensures n - 100 * price > 100 ==> b > price
  {
  }

  lemma BumpSaturates(p: Priority, price: nat)
    ensures UsesFloat(p) ==> Bump(p, price) <= MAX_INT64
  {
  }

  lemma SmallProduct(m: nat, y: nat)
    requires m <= 100 * TWO_53 && y * (TWO_53 * TWO_53) <= m * ((TWO_53 + 1) * (TWO_53 + 1))
    ensures y / TWO_52 < MAX_INT64
  {
  }

  /** A small price does not saturate. */
  lemma SmallStaysSmall(p: Priority, price: nat)
    requires UsesFloat(p) && price < 100
    ensures Bump(p, price) < MAX_INT64
  {
    ProductBounds(p, price);
    MulMono(Factor(p), TWO_53, price);
    MulMono(price, 100, TWO_53);
    SmallProduct(price * Factor(p), Round53(Round53(price) * Factor(p)));
  }

  lemma RaisesByThreshold(p: Priority, price: nat, n: nat, b: nat)
    requires UsesFloat(p) && n == Percent(p) * price
    requires (100 * b - n) * 0x100_0000_0000 <= price && (n - 100 * b - 100) * 0x100_0000_0000 <= price
    requires p.Slow? && price == 20 ==> b == 21
    ensures b > price <==> n - 100 * price >= 100
  {
    RaiseThreshold(price, n, b);
  }

  /** What a float strategy does to a price below the largest int64. */
  lemma FloatStrictlyRaises(p: Priority, price: nat, b: nat)
    requires UsesFloat(p) && price < MAX_INT64 && b == Bump(p, price) <= MAX_INT64
    ensures b > price <==> Percent(p) * price - 100 * price >= 100
  {
    if b < MAX_INT64 {
      BumpPercentage(p, price);
      if p.Slow? && price == 20 {
        SlowTwenty();
      }
      RaisesByThreshold(p, price, Percent(p) * price, b);
    } else if price < 100 {
      SmallStaysSmall(p, price);
    }
  }

  /**
   * A bump strictly raises a price if and only if the percentage it adds is worth at least one wei and, for a
   * float strategy, the price is below the largest int64.
   */
  lemma BumpStrictlyRaisesExactly(p: Priority, price: nat)
    ensures Bump(p, price) > price <==> Percent(p) * price - 100 * price >= 100 && (UsesFloat(p) ==> price < MAX_INT64)
  {
    if UsesFloat(p) && price < MAX_INT64 {
      FloatStrictlyRaises(p, price, Bump(p, price));
    }
  }
}
