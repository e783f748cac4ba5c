/** What the cross-field length checks of a struct demand of its values, in so many words. */
module LengthChecks {
  import opened Wire
  import opened Integers
  import opened Values
  import opened Schemas
  import opened Meaning
  import opened Parser
  import opened Codec
  import Support

  /** A byte string, or a list in either form, of `n` bytes or elements. */
  predicate Long(v: Value, n: int) {
    match v
    case VBytes(raw) => n == |raw|
    case VItems(len, _) => n == len
    case VWire(len, _) => n == len
    case _ => false
  }

  function Multiplied(ns: seq<int>): int {
    if |ns| == 0 then 1 else Multiplied(ns[..|ns| - 1]) * ns[|ns| - 1]
  }

  /** Every factor names a field that holds an integer that is not negative. */
  predicate Counts(factors: seq<nat>, xs: seq<Value>) {
    forall j :: 0 <= j < |factors| ==> factors[j] < |xs| && xs[factors[j]].VInt? && xs[factors[j]].n >= 0
  }

  function Factors(factors: seq<nat>, xs: seq<Value>): (ns: seq<int>)
    requires Counts(factors, xs)
    ensures |ns| == |factors| && forall j :: 0 <= j < |ns| ==> ns[j] == xs[factors[j]].n >= 0
  {
    seq(|factors|, j requires 0 <= j < |factors| => xs[factors[j]].n)
  }

  function Scale(c: Check): nat { if c.scale > 0 then c.scale else 1 }

  /** The length of the checked field is the product of the factor fields times the scale, where 0 is read as 1. */
  predicate Equation(c: Check, xs: seq<Value>) {
    && c.field < |xs| && Counts(c.factors, xs)
    && Long(xs[c.field], Multiplied(Factors(c.factors, xs)) * Scale(c))
  }

  /** No product of the scale and the first so many factors leaves 128 bits. */
  predicate InRegister(c: Check, xs: seq<Value>) {
    && Counts(c.factors, xs)
    && forall j :: 0 < j <= |c.factors| ==> Multiplied(Factors(c.factors, xs)[..j]) * Scale(c) < 0x1_0000_0000_0000_0000_0000_0000_0000_0000
  }

  // ---- the running product ----

  lemma Regroup(a: int, b: int, c: int)
    ensures a * b * c == a * (b * c) == a * (c * b)
  {
  }

  lemma {:induction false} MultipliedCons(n: int, ns: seq<int>)
    ensures Multiplied([n] + ns) == n * Multiplied(ns)
  {
    var all := [n] + ns;
    if |ns| == 0 {
      assert all[..0] == [];
    } else {
      assert all[..|all| - 1] == [n] + ns[..|ns| - 1];
      MultipliedCons(n, ns[..|ns| - 1]);
      Regroup(n, Multiplied(ns[..|ns| - 1]), ns[|ns| - 1]);
    }
  }

  lemma {:induction false} ProductIs(ns: seq<int>, scale: int)
    ensures Support.Product(ns, scale) == Multiplied(ns) * scale
    decreases |ns|
  {
    if |ns| > 0 {
      assert ns == [ns[0]] + ns[1..];
      MultipliedCons(ns[0], ns[1..]);
      ProductIs(ns[1..], scale * ns[0]);
      Regroup(Multiplied(ns[1..]), scale, ns[0]);
      Regroup(Multiplied(ns[1..]), ns[0], scale);
    }
  }

  lemma {:induction false} PrefixesAre(ns: seq<int>, scale: int)
    ensures Support.PrefixesFit(ns, scale) <==> forall j :: 0 < j <= |ns| ==> Multiplied(ns[..j]) * scale <= Support.U128_MAX
    decreases |ns|
  {
    if |ns| > 0 {
      var n, rest := ns[0], ns[1..];
      PrefixesAre(rest, scale * n);
      forall j | 0 <= j <= |rest| ensures Multiplied(rest[..j]) * (scale * n) == Multiplied(ns[..j + 1]) * scale {
        assert ns[..j + 1] == [n] + rest[..j];
        MultipliedCons(n, rest[..j]);
        Regroup(Multiplied(rest[..j]), scale, n);
        Regroup(Multiplied(rest[..j]), n, scale);
      }
      Shifted(ns, scale);
    }
  }

  lemma Shifted(ns: seq<int>, scale: int)
    requires |ns| > 0
    requires forall j {:trigger ns[1..][..j]} :: 0 <= j <= |ns| - 1 ==>
      Multiplied(ns[1..][..j]) * (scale * ns[0]) == Multiplied(ns[..j + 1]) * scale
    ensures (forall j :: 0 < j <= |ns| ==> Multiplied(ns[..j]) * scale <= Support.U128_MAX) <==>
      && scale * ns[0] <= Support.U128_MAX
      && forall j :: 0 < j <= |ns| - 1 ==> Multiplied(ns[1..][..j]) * (scale * ns[0]) <= Support.U128_MAX
  {
    hide Multiplied;
    One(ns, scale);
    forall j | 0 < j <= |ns|
      ensures Multiplied(ns[..j]) * scale == if j == 1 then scale * ns[0] else Multiplied(ns[1..][..j - 1]) * (scale * ns[0])
    {
      assert ns[1..][..j - 1] == ns[1..j];
    }
  }

  lemma One(ns: seq<int>, scale: int)
    requires |ns| > 0
    ensures Multiplied(ns[..1]) * scale == scale * ns[0]
  {
    assert ns[..1] == [ns[0]] && [ns[0]][..0] == [];
  }

  // ---- one check ----

  lemma {:induction false} FactorsAre(positions: seq<nat>, xs: seq<Value>)
    ensures FactorsOf(positions, xs).Some? && Support.NonNegative(FactorsOf(positions, xs).value) <==> Counts(positions, xs)
    ensures Counts(positions, xs) ==> FactorsOf(positions, xs) == Some(Factors(positions, xs))
    decreases |positions|
  {
    if |positions| > 0 {
      FactorsAre(positions[1..], xs);
      CountsCons(positions, xs);
      if FactorsOf(positions, xs).Some? {
        var ns := FactorsOf(positions, xs).value;
        assert ns[1..] == FactorsOf(positions[1..], xs).value;
        if Support.NonNegative(ns) { assert ns[0] >= 0 && Support.NonNegative(ns[1..]); }
      }
      if Counts(positions, xs) {
        assert Factors(positions, xs) == [xs[positions[0]].n] + Factors(positions[1..], xs);
      }
    }
  }

  lemma CountsCons(positions: seq<nat>, xs: seq<Value>)
    requires |positions| > 0
    ensures Counts(positions, xs) <==> Counts([positions[0]], xs) && Counts(positions[1..], xs)
  {
    if Counts([positions[0]], xs) && Counts(positions[1..], xs) {
      forall j | 0 <= j < |positions| ensures positions[j] < |xs| && xs[positions[j]].VInt? && xs[positions[j]].n >= 0 {
        if j > 0 { assert positions[j] == positions[1..][j - 1]; } else { assert positions[j] == [positions[0]][0]; }
      }
    }
  }

  /** A generated check passes exactly when its equation holds and the product can be formed in 128 bits. */
  lemma CheckIs(c: Check, xs: seq<Value>)
    ensures CheckOk(c, xs) <==> Equation(c, xs) && InRegister(c, xs)
  {
    hide Factors, Multiplied, Support.LengthIsProduct, Support.PrefixesFit, Support.Product, Counts;
    FactorsAre(c.factors, xs);
    if c.field < |xs| && LengthOf(xs[c.field]).Some? && FactorsOf(c.factors, xs).Some? {
      var len, ns := LengthOf(xs[c.field]).value, FactorsOf(c.factors, xs).value;
      Support.ProductIff(len, ns, Scale(c));
      ProductIs(ns, Scale(c));
      PrefixesAre(ns, Scale(c));
    }
  }

  // ---- the checks of a struct ----

  ghost predicate Balanced(checks: seq<Check>, xs: seq<Value>) {
    forall c :: c in checks ==> Equation(c, xs)
  }

  /**
   A struct is valid exactly when its fields are, every check's equation holds, and
   no product on the way leaves 128 bits. A struct without fields is not checked.
   */
  lemma StructValid(s: Schema, r: string, allowed: seq<int>, xs: seq<Value>)
    requires r in s.types && s.types[r].Struct?
    ensures Valid(s, RefNode(r, allowed), VStruct(xs)) <==>
      && ValidSeq(s, FieldNodes(s.types[r].fields), xs)
      && (|s.types[r].fields| > 0 ==> Balanced(s.types[r].checks, xs) && forall c :: c in s.types[r].checks ==> InRegister(c, xs))
  {
    hide CheckOk, Equation, InRegister;
    var checks := s.types[r].checks;
    forall i | 0 <= i < |checks| ensures CheckOk(checks[i], xs) <==> Equation(checks[i], xs) && InRegister(checks[i], xs) {
      CheckIs(checks[i], xs);
    }
    assert ChecksOk(checks, xs) <==> forall c :: c in checks ==> CheckOk(c, xs);
    forall c | c in checks ensures CheckOk(c, xs) <==> Equation(c, xs) && InRegister(c, xs) { CheckIs(c, xs); }
  }

  /** Whatever struct decodes or encodes, its equations hold. */
  lemma ChecksHold(s: MarkedSchema, r: string, allowed: seq<int>, bs: bytes, L: Limits, d: nat, lazy: bool, v: Value, depth: nat)
    requires r in s.types && s.types[r].Struct? && |s.types[r].fields| > 0
    ensures var read := Parse(s, RefNode(r, allowed), bs, L, d, lazy);
      read.Ok? ==> read.value.VStruct? && Balanced(s.types[r].checks, read.value.fields)
    ensures Encode(s, RefNode(r, allowed), v, depth).Some? ==> v.VStruct? && Balanced(s.types[r].checks, v.fields)
  {
    hide Parse, Equation;
    var read := Parse(s, RefNode(r, allowed), bs, L, d, lazy);
    if read.Ok? {
      DecodeExact(s, RefNode(r, allowed), bs, L, d, lazy);
      ValidStruct(s, r, allowed, read.value);
      StructValid(s, r, allowed, read.value.fields);
    }
    if Encode(s, RefNode(r, allowed), v, depth).Some? {
      ValidStruct(s, r, allowed, v);
      StructValid(s, r, allowed, v.fields);
    }
  }

  lemma ValidStruct(s: Schema, r: string, allowed: seq<int>, v: Value)
    requires r in s.types && s.types[r].Struct? && Valid(s, RefNode(r, allowed), v)
    ensures v.VStruct?
  {
  }

  lemma LengthBounded(s: Schema, n: Node, v: Value, len: int)
    requires Valid(s, n, v) && Long(v, len)
    ensures len <= U32_MAX
  {
    hide InRange;
  }

  lemma {:induction false} FieldLength(s: Schema, ns: seq<Node>, xs: seq<Value>, i: nat, len: int)
    requires ValidSeq(s, ns, xs) && i < |xs| && Long(xs[i], len)
    ensures len <= U32_MAX
    decreases i
  {
    hide Valid, Long;
    if i > 0 { FieldLength(s, ns[1..], xs[1..], i - 1, len); } else { LengthBounded(s, ns[0], xs[0], len); }
  }

  lemma EquationLength(c: Check, xs: seq<Value>)
    requires Equation(c, xs)
    ensures c.field < |xs| && Counts(c.factors, xs) && Long(xs[c.field], Multiplied(Factors(c.factors, xs)) * Scale(c))
  {
  }

  lemma TwoFactors(c: Check, xs: seq<Value>, len: int)
    requires |c.factors| <= 2 && c.scale <= U64_MAX && len <= U32_MAX
    requires Counts(c.factors, xs) && len == Multiplied(Factors(c.factors, xs)) * Scale(c)
    requires forall x :: x in xs && x.VInt? ==> x.n <= U64_MAX
    ensures InRegister(c, xs)
  {
    hide Multiplied;
    var ns := Factors(c.factors, xs);
    forall j | 0 < j <= |ns| ensures Multiplied(ns[..j]) * Scale(c) <= Support.U128_MAX {
      if j == |ns| {
        assert ns[..j] == ns;
      } else {
        One(ns, Scale(c));
        assert xs[c.factors[0]] in xs;
        Support.SixtyFourBits(Scale(c), ns[0]);
      }
    }
  }

  /** With at most two factors of 64 bits the equations are enough. */
  lemma TwoFactorChecks(s: Schema, r: string, allowed: seq<int>, xs: seq<Value>)
    requires r in s.types && s.types[r].Struct? && ValidSeq(s, FieldNodes(s.types[r].fields), xs)
    requires forall c :: c in s.types[r].checks ==> |c.factors| <= 2 && c.scale <= U64_MAX
    requires forall x :: x in xs && x.VInt? ==> x.n <= U64_MAX
    requires Balanced(s.types[r].checks, xs)
    ensures Valid(s, RefNode(r, allowed), VStruct(xs))
  {
    hide Equation, InRegister;
    StructValid(s, r, allowed, xs);
    forall c | c in s.types[r].checks ensures Equation(c, xs) && InRegister(c, xs) {
      EquationLength(c, xs);
      var len := Multiplied(Factors(c.factors, xs)) * Scale(c);
      FieldLength(s, FieldNodes(s.types[r].fields), xs, c.field, len);
      TwoFactors(c, xs, len);
    }
  }
}
