/** An integer literal read as a float64: round to nearest, ties to even, 53 significant bits. */
module Float64 {
  import Leb128

  const P52: nat := 0x10_0000_0000_0000
  const P53: nat := 0x20_0000_0000_0000

  /** The spacing of the float64 values around `n`. */
  function Unit(n: nat): (u: nat)
    ensures u >= 1
  {
    if n < P53 then 1 else 2 * Unit(n / 2)
  }

  function RoundNat(n: nat): nat {
    var u := Unit(n);
    var q, r := n / u, n % u;
    if 2 * r < u || (2 * r == u && q % 2 == 0) then q * u else (q + 1) * u
  }

  function Round(n: int): int { if n < 0 then 0 - RoundNat(-n) else RoundNat(n) }

  /** `n` is itself a float64. */
  predicate Exact(n: int) { Round(n) == n }

  lemma {:induction false} UnitBounds(n: nat)
    ensures n < Unit(n) * P53
    ensures n >= P53 ==> Unit(n) * P52 <= n && Unit(n) >= 2
  {
    if n >= P53 {
      UnitBounds(n / 2);
      if n / 2 < P53 { assert Unit(n / 2) == 1; }
    }
  }

  lemma {:induction false} UnitMonotone(a: nat, b: nat)
    requires a <= b
    ensures Unit(a) == Unit(b) || 2 * Unit(a) <= Unit(b)
    decreases b
  {
    if a >= P53 {
      UnitMonotone(a / 2, b / 2);
    } else if b >= P53 {
      UnitBounds(b);
    }
  }

  lemma Divided(n: nat, u: nat) returns (q: nat, r: nat)
    requires u > 0
    ensures q == n / u && r == n % u && n == q * u + r && r < u
  {
    q, r := n / u, n % u;
  }

  lemma Times(a: nat, b: nat, u: nat)
    requires a <= b
    ensures a * u <= b * u
  {
  }

  /** Rounding stays between the multiples of the unit around `n`. */
  lemma Between(n: nat) returns (q: nat)
    ensures q == n / Unit(n) && q * Unit(n) <= n < (q + 1) * Unit(n)
    ensures q * Unit(n) <= RoundNat(n) <= (q + 1) * Unit(n)
  {
    var r;
    q, r := Divided(n, Unit(n));
    assert (q + 1) * Unit(n) == q * Unit(n) + Unit(n);
  }

  lemma SameUnitMonotone(a: nat, b: nat)
    requires a <= b && Unit(a) == Unit(b)
    ensures RoundNat(a) <= RoundNat(b)
  {
    var u := Unit(a);
    var q, r := Divided(a, u);
    var p, t := Divided(b, u);
    var q' := Between(a);
    var p' := Between(b);
    if q < p {
      Times(q + 1, p, u);
    } else if q > p {
      Times(p + 1, q, u);
    }
  }

  lemma RoundNatMonotone(a: nat, b: nat)
    requires a <= b
    ensures RoundNat(a) <= RoundNat(b)
  {
    UnitMonotone(a, b);
    if Unit(a) == Unit(b) {
      SameUnitMonotone(a, b);
    } else {
      UnitBounds(a);
      UnitBounds(b);
      var q := Between(a);
      var p := Between(b);
      BelowTop(q, Unit(a), a);
      assert (q + 1) * Unit(a) <= P53 * Unit(a) == P52 * (2 * Unit(a)) by { Times(q + 1, P53, Unit(a)); }
      assert P52 * Unit(b) <= b < (p + 1) * Unit(b);
      AtLeastTop(p, Unit(b));
      Times(P52, p, Unit(b));
    }
  }

  lemma BelowTop(q: nat, u: nat, a: nat)
    requires q * u <= a < u * P53
    ensures q + 1 <= P53
  {
    if q >= P53 { Times(P53, q, u); }
  }

  lemma AtLeastTop(p: nat, u: nat)
    requires u > 0 && P52 * u < (p + 1) * u
    ensures P52 <= p
  {
    if p < P52 { Times(p + 1, P52, u); }
  }

  /** Reading bounds as floats never reverses their order, but can make different bounds equal. */
  lemma RoundMonotone(a: int, b: int)
    requires a <= b
    ensures Round(a) <= Round(b)
  {
    if a >= 0 { RoundNatMonotone(a, b); }
    else if b < 0 { RoundNatMonotone(-b, -a); }
  }

  /** Integers of magnitude up to 2^53 are float64 values. */
  lemma SmallExact(n: int)
    requires 0 - P53 <= n <= P53
    ensures Exact(n)
  {
    if n == P53 || n == 0 - P53 {
      assert Unit(P53) == 2 * Unit(P52) == 2;
    }
  }

  lemma {:induction false} UnitIs(n: nat, e: nat)
    requires P52 * Leb128.Pow2(e) <= n < P53 * Leb128.Pow2(e) || (e == 0 && n < P53)
    ensures Unit(n) == Leb128.Pow2(e)
  {
    if e > 0 {
      var p := Leb128.Pow2(e - 1);
      assert P52 * p <= n / 2 < P53 * p;
      AtLeastOne(p, n / 2);
      UnitIs(n / 2, e - 1);
    }
  }

  lemma AtLeastOne(p: nat, n: nat)
    requires P52 * p <= n < P53 * p
    ensures n >= P52
  {
  }

  /**
   Between 2^52 and 2^53 times 2^e float64 holds the multiples of 2^e: rounding gives
   the nearest, and of two as near the even one. The sign does not matter.
   */
  lemma RoundIs(n: nat, e: nat) returns (q: nat)
    requires P52 * Leb128.Pow2(e) <= n < P53 * Leb128.Pow2(e) || (e == 0 && n < P53)
    ensures var u, r := Leb128.Pow2(e), Round(n);
      && r == q * u && Round(0 - n) == 0 - r
      && 2 * (r - n) <= u && 2 * (n - r) <= u && (2 * (r - n) == u || 2 * (n - r) == u ==> q % 2 == 0)
  {
    hide Leb128.Pow2, Unit;
    UnitIs(n, e);
    q := Nearest(n, Unit(n));
  }

  lemma Nearest(n: nat, u: nat) returns (q: nat)
    requires u == Unit(n) && u > 0
    ensures RoundNat(n) == q * u && 2 * (q * u - n) <= u && 2 * (n - q * u) <= u
    ensures 2 * (q * u - n) == u || 2 * (n - q * u) == u ==> q % 2 == 0
  {
    hide Unit;
    var a, b := Divided(n, u);
    q := if 2 * b < u || (2 * b == u && a % 2 == 0) then a else a + 1;
    assert (a + 1) * u == a * u + u;
  }

  lemma TwoFiftyThreePlusOne()
    ensures Round(P53 + 1) == P53 && Round(P53) == P53
  {
    assert Unit(P53 + 1) == 2 * Unit(P52) == 2;
    SmallExact(P53);
  }
}
