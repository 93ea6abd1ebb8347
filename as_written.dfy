/** Consequences of the normal form as written, worked out on small inputs. */
module AsWritten {
  import opened Monomials
  import opened Polynomials

  /** `p - p` need not be the empty polynomial: for a two-term `p` the zero
      term at the second degree vector survives get_rid_of_zeros. */
  lemma SubSelfKeepsZeroTerm(a: Monomial, b: Monomial, n: nat)
    requires |a.degrees| == n && |b.degrees| == n && Lex(a.degrees, b.degrees) == 1
    requires a.coefficient != 0 && b.coefficient != 0
    ensures PolySub([a, b], [a, b], n) == [Monomial(b.degrees, 0)]
  {
    var p := [a, b];
    var q := PolyMul(MinusOne(n), p, n);
    var na, nb := Monomial(a.degrees, -a.coefficient), Monomial(b.degrees, -b.coefficient);
    NegateTwo(a, b, n);
    assert PolySub(p, p, n) == Normalize(p + q) by {
      SubIsNormalizedSum(p, p, n);
    }
    assert p + q == [a, b, na, nb];
    NormalizeWithNegation(a, b, n);
  }

  lemma NegateTwo(a: Monomial, b: Monomial, n: nat)
    requires |a.degrees| == n && |b.degrees| == n && Lex(a.degrees, b.degrees) == 1
    requires a.coefficient != 0 && b.coefficient != 0
    ensures PolyMul(MinusOne(n), [a, b], n)
         == [Monomial(a.degrees, -a.coefficient), Monomial(b.degrees, -b.coefficient)]
  {
    var p := [a, b];
    assert HasDim(p, n) && StrictlyDescending(p) && NonZeroTerms(p);
    NegationIsEqual(p, n);
    var q := PolyMul(MinusOne(n), p, n);
    assert |q| == 2 && q[0] == Monomial(a.degrees, -a.coefficient) && q[1] == Monomial(b.degrees, -b.coefficient);
  }

  lemma SubIsNormalizedSum(p: Terms, q: Terms, n: nat)
    requires HasDim(p, n) && HasDim(q, n)
    ensures Uniform(p + PolyMul(MinusOne(n), q, n))
    ensures PolySub(p, q, n) == Normalize(p + PolyMul(MinusOne(n), q, n))
  {
    assert HasDim(p + PolyMul(MinusOne(n), q, n), n);
  }

  lemma NormalizeWithNegation(a: Monomial, b: Monomial, n: nat)
    requires |a.degrees| == n && |b.degrees| == n && Lex(a.degrees, b.degrees) == 1
    ensures Normalize([a, b, Monomial(a.degrees, -a.coefficient), Monomial(b.degrees, -b.coefficient)])
         == [Monomial(b.degrees, 0)]
  {
    var na, nb := Monomial(a.degrees, -a.coefficient), Monomial(b.degrees, -b.coefficient);
    var za, zb := Monomial(a.degrees, 0), Monomial(b.degrees, 0);
    var all := [a, b, na, nb];
    assert Uniform(all);
    assert Normalize(all) == RidZeros([za, zb]) by {
      SortFour(a, b, n);
      CombineFour(a, b, n);
      NormalizeSteps(all, [a, na, b, nb], [za, zb]);
    }
    assert RidZeros([za, zb]) == [zb] by {
      LexZeroIff(a.degrees, b.degrees);
      ZeroAfterZeroSurvives(za, zb);
    }
  }
}
