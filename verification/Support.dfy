/** The cross-field length check. */
module Support {
  import opened Wire

  const U128_MAX: nat := 0xFFFF_FFFF_FFFF_FFFF_FFFF_FFFF_FFFF_FFFF

  function Product(factors: seq<int>, scale: int): int {
    if |factors| == 0 then scale else Product(factors[1..], scale * factors[0])
  }

  predicate NonNegative(factors: seq<int>) { forall i :: 0 <= i < |factors| ==> factors[i] >= 0 }

  /** No prefix of the product leaves 128 bits. */
  predicate PrefixesFit(factors: seq<int>, scale: int) {
    |factors| == 0 || (scale * factors[0] <= U128_MAX && PrefixesFit(factors[1..], scale * factors[0]))
  }

  /** The running product in 128 bits, left to right, as the emitted check computes it. */
  predicate LengthIsProduct(len: nat, factors: seq<int>, scale: nat) {
    if |factors| == 0 then scale == len
    else factors[0] >= 0 && scale * factors[0] <= U128_MAX && LengthIsProduct(len, factors[1..], scale * factors[0])
  }

  /** The emitted loop computes the check it is specified by. */
  method CheckLengthIsProduct(len: nat, factors: seq<int>, scale: nat) returns (ok: bool)
    ensures ok == LengthIsProduct(len, factors, scale)
  {
    var product: nat := scale;
    for i := 0 to |factors|
      invariant LengthIsProduct(len, factors[i..], product) == LengthIsProduct(len, factors, scale)
    {
      var factor := factors[i];
      assert factors[i..][1..] == factors[i + 1..];
      if factor < 0 { return false; }
      NatProduct(product, factor);
      if product * factor > U128_MAX { return false; }
      product := product * factor;
    }
    return product == len;
  }

  lemma NatProduct(a: nat, b: nat)
    ensures a * b >= 0
  {
  }

  /**
   The check holds exactly when no factor is negative, the product is the length,
   and no partial product overflows 128 bits.
   */
  lemma {:induction false} ProductIff(len: nat, factors: seq<int>, scale: nat)
    ensures LengthIsProduct(len, factors, scale)
       <==> NonNegative(factors) && Product(factors, scale) == len && PrefixesFit(factors, scale)
  {
    if |factors| > 0 {
      if factors[0] >= 0 {
        NatProduct(scale, factors[0]);
        ProductIff(len, factors[1..], scale * factors[0]);
        assert NonNegative(factors) <==> NonNegative(factors[1..]) by {
          assert factors == [factors[0]] + factors[1..];
        }
      }
    }
  }

  /** A factor that is not zero cannot make a later product smaller. */
  lemma {:induction false} ProductGrows(factors: seq<int>, scale: nat)
    requires NonNegative(factors)
    ensures Product(factors, scale) == 0 || Product(factors, scale) >= scale
    ensures Product(factors, scale) >= 0
    ensures scale == 0 ==> Product(factors, scale) == 0
  {
    if |factors| > 0 {
      NatProduct(scale, factors[0]);
      ProductGrows(factors[1..], scale * factors[0]);
      if factors[0] >= 1 { Grows(scale, factors[0]); }
    }
  }

  lemma Grows(a: nat, b: nat)
    requires b >= 1
    ensures a * b >= a
  {
  }

  /** A true equality with a length that is not zero is never rejected by overflow. */
  lemma {:induction false} NonZeroNeverOverflows(len: nat, factors: seq<int>, scale: nat)
    requires 0 < len <= U128_MAX && NonNegative(factors) && Product(factors, scale) == len
    ensures LengthIsProduct(len, factors, scale)
  {
    if |factors| > 0 {
      NatProduct(scale, factors[0]);
      ProductGrows(factors[1..], scale * factors[0]);
      NonZeroNeverOverflows(len, factors[1..], scale * factors[0]);
    }
  }

  /** With at most two 64-bit factors and a 64-bit scale, overflow never rejects a true equality. */
  lemma TwoFactorsNeverOverflow(len: nat, factors: seq<int>, scale: nat)
    requires |factors| <= 2 && scale <= U64_MAX && len <= U64_MAX
    requires forall i :: 0 <= i < |factors| ==> factors[i] <= U64_MAX
    ensures LengthIsProduct(len, factors, scale) <==> NonNegative(factors) && Product(factors, scale) == len
  {
    ProductIff(len, factors, scale);
    if NonNegative(factors) && Product(factors, scale) == len && |factors| > 0 {
      var rest, partial := factors[1..], scale * factors[0];
      SixtyFourBits(scale, factors[0]);
      if |factors| == 2 { LastFactor(rest, partial); }
    }
  }

  lemma LastFactor(factors: seq<int>, scale: int)
    requires |factors| == 1
    ensures Product(factors, scale) == scale * factors[0]
    ensures PrefixesFit(factors, scale) <==> scale * factors[0] <= U128_MAX
  {
    assert factors[1..] == [];
  }

  lemma SixtyFourBits(a: nat, b: nat)
    requires a <= U64_MAX && b <= U64_MAX
    ensures 0 <= a * b <= U128_MAX
  {
    MulMonotone(a, U64_MAX, b);
    MulMonotone(b, U64_MAX, U64_MAX);
  }

  lemma MulMonotone(a: nat, b: nat, c: nat)
    requires a <= b
    ensures a * c <= b * c
  {
  }

  /** Three factors can overflow on the way to a true equality, when a later factor is zero. */
  lemma ThreeFactorsCanOverflow()
    ensures var factors := [U64_MAX, U64_MAX, 0];
      && Product(factors, 2) == 0
      && !LengthIsProduct(0, factors, 2)
  {
    var factors: seq<int> := [U64_MAX, U64_MAX, 0];
    var a := 2 * U64_MAX;
    assert factors[1..] == [U64_MAX, 0] && factors[1..][1..] == [0] && factors[1..][1..][1..] == [];
    assert Product(factors[1..], a) == Product([0], a * U64_MAX) == Product([], a * U64_MAX * 0) == 0;
    assert a * U64_MAX > U128_MAX;
    assert !LengthIsProduct(0, factors[1..], a);
  }
}
