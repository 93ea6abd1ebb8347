/** Monomials: a coefficient with a degree vector, the lexicographic term order
    on degree vectors and the monomial product. The degree vector is positional
    in a variable list fixed for the whole computation; its length is the
    dimension of the monomial. */
module Monomials {

  /** The term `coefficient * x1^d1 * ... * xn^dn`. */
  datatype Monomial = Monomial(degrees: seq<nat>, coefficient: int)

  function Min(a: nat, b: nat): nat { if a <= b then a else b }

  /** Lexicographic comparison of two degree vectors of the same length:
      -1 (below), 0 (identical) or 1 (above). */
  function Lex(a: seq<nat>, b: seq<nat>): (r: int)
    requires |a| == |b|
    ensures -1 <= r <= 1
    decreases |a|
  {
    if |a| == 0 then 0
    else if a[0] == b[0] then Lex(a[1..], b[1..])
    else if a[0] < b[0] then -1
    else 1
  }

  /** The order compares degree vectors only: it is 0 exactly on identical vectors. */
  lemma {:induction false} LexZeroIff(a: seq<nat>, b: seq<nat>)
    requires |a| == |b|
    ensures Lex(a, b) == 0 <==> a == b
    decreases |a|
  {
    if |a| > 0 && a[0] == b[0] {
      LexZeroIff(a[1..], b[1..]);
      assert a == [a[0]] + a[1..] && b == [b[0]] + b[1..];
    }
  }

  /** Swapping the arguments negates the comparison. */
  lemma {:induction false} LexSwap(a: seq<nat>, b: seq<nat>)
    requires |a| == |b|
    ensures Lex(b, a) == -Lex(a, b)
    decreases |a|
  {
    if |a| > 0 && a[0] == b[0] {
      LexSwap(a[1..], b[1..]);
    }
  }

  /** Chaining two "at least" comparisons gives "at least", and "above" as soon
      as one of the two steps is strict. */
  lemma {:induction false} LexTrans(a: seq<nat>, b: seq<nat>, c: seq<nat>)
    requires |a| == |b| == |c|
    requires Lex(a, b) >= 0 && Lex(b, c) >= 0
    ensures Lex(a, c) == if Lex(a, b) == 0 && Lex(b, c) == 0 then 0 else 1
    decreases |a|
  {
    if |a| > 0 && a[0] == b[0] && b[0] == c[0] {
      LexTrans(a[1..], b[1..], c[1..]);
    }
  }

  /** Independent reference: `a` is above `b` exactly when they agree on a
      prefix and `a` is larger at the first position where they differ. */
  lemma {:induction false} LexAboveIsFirstDifference(a: seq<nat>, b: seq<nat>)
    requires |a| == |b|
    ensures Lex(a, b) == 1 <==> exists k :: 0 <= k < |a| && a[..k] == b[..k] && a[k] > b[k]
    decreases |a|
  {
    if |a| == 0 {
    } else if a[0] == b[0] {
      LexAboveIsFirstDifference(a[1..], b[1..]);
      if Lex(a, b) == 1 {
        var k :| 0 <= k < |a| - 1 && a[1..][..k] == b[1..][..k] && a[1..][k] > b[1..][k];
        assert a[..k + 1] == [a[0]] + a[1..][..k];
        assert b[..k + 1] == [b[0]] + b[1..][..k];
      }
      if exists k :: 0 <= k < |a| && a[..k] == b[..k] && a[k] > b[k] {
        var k :| 0 <= k < |a| && a[..k] == b[..k] && a[k] > b[k];
        assert k > 0;
        assert a[1..][..k - 1] == a[..k][1..];
        assert b[1..][..k - 1] == b[..k][1..];
        assert a[1..][k - 1] == a[k];
      }
    } else if a[0] > b[0] {
      assert a[..0] == b[..0];
    }
  }

  /** Elementwise sum of two degree vectors, over their common length (zip). */
  function AddDegrees(a: seq<nat>, b: seq<nat>): (r: seq<nat>)
    ensures |r| == Min(|a|, |b|)
    ensures forall i :: 0 <= i < |r| ==> r[i] == a[i] + b[i]
  {
    if |a| == 0 || |b| == 0 then [] else [a[0] + b[0]] + AddDegrees(a[1..], b[1..])
  }

  /** `d` is componentwise at least `a`, over their common length (zip). */
  predicate Dominates(d: seq<nat>, a: seq<nat>) {
    forall i :: 0 <= i < |d| && i < |a| ==> d[i] >= a[i]
  }

  /** Elementwise difference `d - a` of two degree vectors, over their common
      length; every entry stays a degree because `d` dominates `a`. */
  function SubDegrees(d: seq<nat>, a: seq<nat>): (r: seq<nat>)
    requires Dominates(d, a)
    ensures |r| == Min(|d|, |a|)
    ensures forall i :: 0 <= i < |r| ==> r[i] == d[i] - a[i]
  {
    if |d| == 0 || |a| == 0 then [] else [d[0] - a[0]] + SubDegrees(d[1..], a[1..])
  }

  /** The vector of `n` zero degrees (the degrees of a constant). */
  function Zeros(n: nat): (r: seq<nat>)
    ensures |r| == n && forall i :: 0 <= i < n ==> r[i] == 0
  {
    seq(n, _ => 0)
  }

  /** Adding `a` reaches `d` exactly when `d` dominates `a` and the summand is `d - a`. */
  lemma AddDegreesReaches(a: seq<nat>, g: seq<nat>, d: seq<nat>)
    requires |a| == |g| == |d|
    ensures AddDegrees(a, g) == d <==> Dominates(d, a) && g == SubDegrees(d, a)
  {
    var s := AddDegrees(a, g);
    if s == d {
      forall i | 0 <= i < |d| ensures d[i] >= a[i] && g[i] == d[i] - a[i] {
        assert s[i] == a[i] + g[i];
      }
      var t := SubDegrees(d, a);
      assert |t| == |g| && forall i :: 0 <= i < |g| ==> t[i] == g[i];
    }
    if Dominates(d, a) && g == SubDegrees(d, a) {
      assert |s| == |d| && forall i :: 0 <= i < |d| ==> s[i] == d[i];
    }
  }

  /** Monomial product: degree vectors add elementwise, coefficients multiply. */
  function Mul(m1: Monomial, m2: Monomial): (r: Monomial)
    ensures |r.degrees| == Min(|m1.degrees|, |m2.degrees|)
    ensures forall i :: 0 <= i < |r.degrees| ==> r.degrees[i] == m1.degrees[i] + m2.degrees[i]
    ensures r.coefficient == m1.coefficient * m2.coefficient
  {
    Monomial(AddDegrees(m1.degrees, m2.degrees), m1.coefficient * m2.coefficient)
  }

  /** Multiplying both sides by the same monomial keeps their comparison. */
  lemma {:induction false} LexAddInvariant(d: seq<nat>, a: seq<nat>, b: seq<nat>)
    requires |d| == |a| == |b|
    ensures Lex(AddDegrees(d, a), AddDegrees(d, b)) == Lex(a, b)
    decreases |a|
  {
    if |a| > 0 {
      LexAddInvariant(d[1..], a[1..], b[1..]);
    }
  }

  lemma MulPreservesOrder(m: Monomial, a: Monomial, b: Monomial)
    requires |m.degrees| == |a.degrees| == |b.degrees|
    ensures Lex(Mul(m, a).degrees, Mul(m, b).degrees) == Lex(a.degrees, b.degrees)
  {
    LexAddInvariant(m.degrees, a.degrees, b.degrees);
  }

  // The six comparison operators of a monomial: each consults the term order
  // only, so the coefficients never take part.

  predicate SameDim(a: Monomial, b: Monomial) { |a.degrees| == |b.degrees| }

  predicate Lt(a: Monomial, b: Monomial) requires SameDim(a, b) { Lex(a.degrees, b.degrees) == -1 }
  predicate Gt(a: Monomial, b: Monomial) requires SameDim(a, b) { Lex(a.degrees, b.degrees) == 1 }
  predicate Eq(a: Monomial, b: Monomial) requires SameDim(a, b) { Lex(a.degrees, b.degrees) == 0 }
  predicate Le(a: Monomial, b: Monomial) requires SameDim(a, b) { Lex(a.degrees, b.degrees) < 1 }
  predicate Ne(a: Monomial, b: Monomial) requires SameDim(a, b) { Lex(a.degrees, b.degrees) != 0 }
  predicate Ge(a: Monomial, b: Monomial) requires SameDim(a, b) { Lex(a.degrees, b.degrees) > -1 }

  /** Two monomials compare `==` exactly when their degree vectors agree,
      whatever their coefficients, and then none of the strict comparisons holds. */
  lemma EqIffSameDegrees(a: Monomial, b: Monomial)
    requires SameDim(a, b)
    ensures Eq(a, b) <==> a.degrees == b.degrees
    ensures Eq(a, b) ==> !Lt(a, b) && !Gt(a, b) && Le(a, b) && Ge(a, b) && !Ne(a, b)
  {
    LexZeroIff(a.degrees, b.degrees);
  }

  /** Exactly one of `<`, `==`, `>` holds, and `a < b` is `b > a`. */
  lemma Trichotomy(a: Monomial, b: Monomial)
    requires SameDim(a, b)
    ensures (Lt(a, b) && !Eq(a, b) && !Gt(a, b)) || (!Lt(a, b) && Eq(a, b) && !Gt(a, b))
         || (!Lt(a, b) && !Eq(a, b) && Gt(a, b))
    ensures Lt(a, b) <==> Gt(b, a)
  {
    LexSwap(a.degrees, b.degrees);
  }
}
