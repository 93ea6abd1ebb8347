/** Divisibility of monomials, one-step reduction of a polynomial by the
    leading term of another, least common multiples of degree vectors and
    S-polynomials: the pure part of the Buchberger completion. */
module Reduction {
  import opened Monomials
  import opened Polynomials

  /** The loop over `zip(a.degrees, b.degrees)` of is_multiple: no position where
      the first degree is smaller. */
  function DegreesAtLeast(x: seq<nat>, y: seq<nat>): (r: bool)
    ensures r <==> Dominates(x, y)
  {
    if |x| == 0 || |y| == 0 then true
    else if x[0] < y[0] then false
    else
      var r := DegreesAtLeast(x[1..], y[1..]);
      assert Dominates(x[1..], y[1..]) && x[0] >= y[0] ==> Dominates(x, y) by {
        if Dominates(x[1..], y[1..]) && x[0] >= y[0] {
          forall i | 0 <= i < |x| && i < |y| ensures x[i] >= y[i] {
            if i > 0 { assert x[i] == x[1..][i - 1] && y[i] == y[1..][i - 1]; }
          }
        }
      }
      r
  }

  /** `is_multiple(a, b)`: monomial `a` is a multiple of monomial `b`. False as
      soon as either coefficient is zero; otherwise every degree of `a` is at
      least the matching degree of `b`. */
  function IsMultiple(a: Monomial, b: Monomial): (r: bool)
    ensures r <==> a.coefficient != 0 && b.coefficient != 0 && Dominates(a.degrees, b.degrees)
  {
    if a.coefficient == 0 || b.coefficient == 0 then false
    else DegreesAtLeast(a.degrees, b.degrees)
  }

  /** The search loop of can_reduce from position `k` on. */
  function FirstReducible(f: Terms, lead: Monomial, k: nat): (r: int)
    requires k <= |f|
    ensures r == -1 || k <= r < |f|
    ensures r == -1 ==> forall j :: k <= j < |f| ==> !IsMultiple(f[j], lead)
    ensures r != -1 ==> IsMultiple(f[r], lead) && forall j :: k <= j < r ==> !IsMultiple(f[j], lead)
    decreases |f| - k
  {
    if k == |f| then -1
    else if IsMultiple(f[k], lead) then k
    else FirstReducible(f, lead, k + 1)
  }

  /** `can_reduce(f, g)`: `(true, i)` for the first term of `f` (any term, not
      only the leading one) that is a multiple of `g`'s leading term, and
      `(false, -1)` when there is none. Only an empty `f` may meet an empty
      `g`: the source reads `g`'s leading term once per term of `f`. */
  function CanReduce(f: Terms, g: Terms): (r: (bool, int))
    requires f == [] || g != []
    ensures r.0 ==> 0 <= r.1 < |f| && IsMultiple(f[r.1], g[0])
                    && forall j :: 0 <= j < r.1 ==> !IsMultiple(f[j], g[0])
    ensures !r.0 ==> r.1 == -1 && forall j :: 0 <= j < |f| ==> !IsMultiple(f[j], g[0])
  {
    if f == [] then (false, -1)
    else
      var i := FirstReducible(f, g[0], 0);
      if i == -1 then (false, -1) else (true, i)
  }

  function Abs(x: int): nat { if x < 0 then -x else x }
  lemma DivBounds(x: nat, y: nat)
    requires y > 0
    ensures (x / y) * y <= x < (x / y + 1) * y
  {
    var q, r := x / y, x % y;
    assert x == q * y + r && 0 <= r < y;
    assert (q + 1) * y == q * y + y;
  }
  lemma MulMono(x: nat, y: nat, z: nat)
    requires x <= y
    ensures x * z <= y * z
  {}
  lemma DivUnique(x: nat, y: nat, k: nat)
    requires y > 0 && x == k * y
    ensures x / y == k
  {
    DivBounds(x, y);
    var q := x / y;
    if q < k { MulMono(q + 1, k, y); }
    if q > k { MulMono(k + 1, q, y); }
  }
  /** `int(a / b)`: the quotient rounded toward zero (the source divides as
      floating point and truncates). */
  function TruncDiv(a: int, b: int): int
    requires b != 0
  {
    var m := Abs(a) / Abs(b);
    if (a < 0) != (b < 0) then -m else m
  }

  /** The truncated quotient has the size of the floor of `|a| / |b|` and the
      sign of the exact quotient. */
  lemma TruncDivSpec(a: int, b: int)
    requires b != 0
    ensures var q := TruncDiv(a, b);
            && Abs(q) * Abs(b) <= Abs(a) < (Abs(q) + 1) * Abs(b)
            && ((a < 0) == (b < 0) ==> q >= 0)
            && ((a < 0) != (b < 0) ==> q <= 0)
  {
    var x, y := Abs(a), Abs(b);
    var m := x / y;
    assert Abs(TruncDiv(a, b)) == m;
    DivBounds(x, y);
  }

  lemma AbsMul(k: int, b: int)
    ensures Abs(k * b) == Abs(k) * Abs(b)
  {
    if k < 0 && b < 0 { assert k * b == (-k) * (-b); }
    else if k < 0 { assert -(k * b) == (-k) * b; }
    else if b < 0 { assert -(k * b) == k * (-b); }
  }
  /** When `b` divides `a` the truncated quotient is the exact one. */
  lemma TruncDivExact(a: int, b: int)
    requires b != 0 && a % b == 0
    ensures TruncDiv(a, b) * b == a
  {
    var k := a / b;
    assert a == k * b;
    assert Abs(a) == Abs(k) * Abs(b) by { AbsMul(k, b); }
    assert Abs(a) / Abs(b) == Abs(k) by { DivUnique(Abs(a), Abs(b), Abs(k)); }
    assert TruncDiv(a, b) == k;
  }

  /** The cofactor `h` of reduce: degrees `m - lead`, coefficient the truncated
      quotient of the coefficients, as a normalised polynomial. */
  function ReduceCofactor(m: Monomial, lead: Monomial): (h: Monomial)
    requires IsMultiple(m, lead)
    ensures |m.degrees| == |lead.degrees| ==> AddDegrees(lead.degrees, h.degrees) == m.degrees
  {
    var h := Monomial(SubDegrees(m.degrees, lead.degrees), TruncDiv(m.coefficient, lead.coefficient));
    assert |m.degrees| == |lead.degrees| ==> AddDegrees(lead.degrees, h.degrees) == m.degrees by {
      if |m.degrees| == |lead.degrees| {
        AddDegreesReaches(lead.degrees, h.degrees, m.degrees);
      }
    }
    h
  }

  /** The body of reduce once the term `f[i]` is chosen: `f - h * g`, with
      `h` the polynomial of the cofactor. */
  function ReduceAtTerm(f: Terms, g: Terms, i: nat, n: nat): (r: Terms)
    requires HasDim(f, n) && HasDim(g, n) && g != [] && i < |f| && IsMultiple(f[i], g[0])
    ensures HasDim(r, n) && StrictlyDescending(r)
  {
    var h := Single(ReduceCofactor(f[i], g[0]));
    assert HasDim(h, n) by { assert |ReduceCofactor(f[i], g[0]).degrees| == n; }
    PolySubCoeff(f, PolyMul(h, g, n), n);
    PolySub(f, PolyMul(h, g, n), n)
  }

  /** `reduce(f, g)`: nothing when no term of `f` is a multiple of `g`'s leading
      term; otherwise `f - h * g` for the cofactor `h` of the first such term. */
  function Reduce(f: Terms, g: Terms, n: nat): (r: Option<Terms>)
    requires HasDim(f, n) && HasDim(g, n) && (f == [] || g != [])
    ensures r == None <==> !CanReduce(f, g).0
    ensures r != None ==> HasDim(r.value, n) && StrictlyDescending(r.value)
  {
    var (can, i) := CanReduce(f, g);
    if !can then None else Some(ReduceAtTerm(f, g, i, n))
  }

  /** Coefficients of a product with a single-term (or empty) polynomial. */
  lemma ConvSingle(h: Monomial, g: Terms, d: seq<nat>)
    ensures Conv(Single(h), g, d)
         == if h.coefficient != 0 && Dominates(d, h.degrees)
            then h.coefficient * CoeffAt(g, SubDegrees(d, h.degrees)) else 0
  {
  }

  /** Nothing in a strictly descending list lies above its first term. */
  lemma CoeffAtAboveLead(g: Terms, e: seq<nat>)
    requires g != [] && StrictlyDescending(g) && |e| == |g[0].degrees| && Lex(e, g[0].degrees) == 1
    ensures CoeffAt(g, e) == 0
  {
    forall k | 0 <= k < |g| ensures g[k].degrees != e {
      if k == 0 {
        LexZeroIff(e, g[0].degrees);
      } else {
        StrictPairwise(g, 0, k);
        LexTrans(e, g[0].degrees, g[k].degrees);
        LexZeroIff(e, g[k].degrees);
      }
    }
    CoeffAtAbsent(g, e);
  }

  /** Shifting `d` down by the cofactor `top - lead(g)` lands above `g`'s
      leading term whenever `d` is above `top`, where `g` has nothing. */
  lemma CofactorShiftAbove(hd: seq<nat>, g: Terms, top: seq<nat>, n: nat, d: seq<nat>)
    requires g != [] && HasDim(g, n) && StrictlyDescending(g) && |top| == n
    requires Dominates(top, g[0].degrees) && hd == SubDegrees(top, g[0].degrees)
    requires |d| == n && Lex(d, top) == 1 && Dominates(d, hd)
    ensures CoeffAt(g, SubDegrees(d, hd)) == 0
  {
    var e := SubDegrees(d, hd);
    assert |hd| == n && |e| == n && |g[0].degrees| == n;
    assert AddDegrees(hd, g[0].degrees) == top by {
      AddDegreesReaches(hd, g[0].degrees, top);
    }
    assert AddDegrees(hd, e) == d by {
      AddDegreesReaches(hd, e, d);
    }
    LexAddInvariant(hd, e, g[0].degrees);
    CoeffAtAboveLead(g, e);
  }

  /** `h * g` where `h`'s degrees are `top - lead(g)` has nothing above `top`. */
  lemma ConvCofactorAbove(h: Monomial, g: Terms, top: seq<nat>, n: nat, d: seq<nat>)
    requires g != [] && HasDim(g, n) && StrictlyDescending(g) && |top| == n
    requires Dominates(top, g[0].degrees) && h.degrees == SubDegrees(top, g[0].degrees)
    requires |d| == n && Lex(d, top) == 1
    ensures Conv(Single(h), g, d) == 0
  {
    ConvSingle(h, g, d);
    if h.coefficient != 0 && Dominates(d, h.degrees) {
      CofactorShiftAbove(h.degrees, g, top, n, d);
      MulZero(h.coefficient, CoeffAt(g, SubDegrees(d, h.degrees)));
    }
  }

  lemma MulZero(x: int, y: int)
    requires y == 0
    ensures x * y == 0
  {
  }

  /** At `top` itself, `h * g` has exactly the product of `h`'s and `g`'s
      leading coefficients. */
  lemma ConvCofactorAtTop(h: Monomial, g: Terms, top: seq<nat>, n: nat)
    requires g != [] && HasDim(g, n) && StrictlyDescending(g) && |top| == n
    requires Dominates(top, g[0].degrees) && h.degrees == SubDegrees(top, g[0].degrees)
    ensures Conv(Single(h), g, top) == h.coefficient * g[0].coefficient
  {
    ConvSingle(h, g, top);
    if h.coefficient != 0 {
      assert Dominates(top, h.degrees);
      assert SubDegrees(top, h.degrees) == g[0].degrees by {
        var t := SubDegrees(top, h.degrees);
        assert |t| == |g[0].degrees| && forall i :: 0 <= i < |t| ==> t[i] == g[0].degrees[i];
      }
      StrictIsDistinct(g);
      CoeffAtDistinct(g, 0);
    }
  }

  /** The coefficient of the reduced polynomial at one degree vector: `f`'s
      minus that of the product of the cofactor with `g`. */
  lemma ReduceAtTermCoeff(f: Terms, g: Terms, i: nat, n: nat, d: seq<nat>)
    requires HasDim(f, n) && HasDim(g, n) && g != [] && i < |f| && IsMultiple(f[i], g[0]) && |d| == n
    ensures CoeffAt(ReduceAtTerm(f, g, i, n), d)
         == CoeffAt(f, d) - Conv(Single(ReduceCofactor(f[i], g[0])), g, d)
  {
    var h := Single(ReduceCofactor(f[i], g[0]));
    assert HasDim(h, n) by { assert |ReduceCofactor(f[i], g[0]).degrees| == n; }
    PolyMulCoeff(h, g, n);
    PolySubCoeff(f, PolyMul(h, g, n), n);
  }

  /** `reduce` is `f - h*g`: at every degree vector the coefficient of the result
      is `f`'s minus `h` times `g`'s coefficient at the vector shifted down by
      `h`'s degrees, where `h` carries the chosen term's degrees minus `g`'s
      leading degrees. */
  lemma ReduceIsDifference(f: Terms, g: Terms, n: nat)
    requires HasDim(f, n) && HasDim(g, n) && g != [] && CanReduce(f, g).0
    ensures var i := CanReduce(f, g).1;
            var h := ReduceCofactor(f[i], g[0]);
            && h.degrees == SubDegrees(f[i].degrees, g[0].degrees)
            && forall d :: |d| == n ==>
                 CoeffAt(Reduce(f, g, n).value, d)
                 == CoeffAt(f, d) - (if h.coefficient != 0 && Dominates(d, h.degrees)
                                     then h.coefficient * CoeffAt(g, SubDegrees(d, h.degrees)) else 0)
  {
    var i := CanReduce(f, g).1;
    var h := ReduceCofactor(f[i], g[0]);
    assert Reduce(f, g, n).value == ReduceAtTerm(f, g, i, n);
    forall d | |d| == n
      ensures CoeffAt(ReduceAtTerm(f, g, i, n), d)
           == CoeffAt(f, d) - (if h.coefficient != 0 && Dominates(d, h.degrees)
                               then h.coefficient * CoeffAt(g, SubDegrees(d, h.degrees)) else 0)
    {
      ReduceAtTermCoeff(f, g, i, n, d);
      ConvSingle(h, g, d);
    }
  }

  /** Reducing at term `f[i]` leaves everything above `f[i]` as it was, and
      cancels `f[i]` when the leading coefficient of `g` divides its own. */
  lemma ReduceAtTermCancels(f: Terms, g: Terms, i: nat, n: nat)
    requires HasDim(f, n) && HasDim(g, n) && g != [] && i < |f| && IsMultiple(f[i], g[0])
    requires StrictlyDescending(f) && StrictlyDescending(g)
    ensures f[i].coefficient % g[0].coefficient == 0 ==> CoeffAt(ReduceAtTerm(f, g, i, n), f[i].degrees) == 0
    ensures forall d :: |d| == n && Lex(d, f[i].degrees) == 1 ==>
              CoeffAt(ReduceAtTerm(f, g, i, n), d) == CoeffAt(f, d)
  {
    ReduceAtTermAbove(f, g, i, n);
    if f[i].coefficient % g[0].coefficient == 0 {
      ReduceAtTermAtTop(f, g, i, n);
    }
  }

  lemma ReduceAtTermAbove(f: Terms, g: Terms, i: nat, n: nat)
    requires HasDim(f, n) && HasDim(g, n) && g != [] && i < |f| && IsMultiple(f[i], g[0])
    requires StrictlyDescending(g)
    ensures forall d :: |d| == n && Lex(d, f[i].degrees) == 1 ==>
              CoeffAt(ReduceAtTerm(f, g, i, n), d) == CoeffAt(f, d)
  {
    forall d | |d| == n && Lex(d, f[i].degrees) == 1
      ensures CoeffAt(ReduceAtTerm(f, g, i, n), d) == CoeffAt(f, d)
    {
      ReduceAtTermAboveAt(f, g, i, n, d);
    }
  }

  lemma ReduceAtTermAboveAt(f: Terms, g: Terms, i: nat, n: nat, d: seq<nat>)
    requires HasDim(f, n) && HasDim(g, n) && g != [] && i < |f| && IsMultiple(f[i], g[0])
    requires StrictlyDescending(g) && |d| == n && Lex(d, f[i].degrees) == 1
    ensures CoeffAt(ReduceAtTerm(f, g, i, n), d) == CoeffAt(f, d)
  {
    var m := f[i];
    assert |m.degrees| == n;
    ReduceAtTermCoeff(f, g, i, n, d);
    ConvCofactorAbove(ReduceCofactor(m, g[0]), g, m.degrees, n, d);
  }

  lemma ReduceAtTermAtTop(f: Terms, g: Terms, i: nat, n: nat)
    requires HasDim(f, n) && HasDim(g, n) && g != [] && i < |f| && IsMultiple(f[i], g[0])
    requires StrictlyDescending(f) && StrictlyDescending(g)
    requires f[i].coefficient % g[0].coefficient == 0
    ensures CoeffAt(ReduceAtTerm(f, g, i, n), f[i].degrees) == 0
  {
    var m := f[i];
    var h := ReduceCofactor(m, g[0]);
    assert |m.degrees| == n;
    ReduceAtTermCoeff(f, g, i, n, m.degrees);
    ConvCofactorAtTop(h, g, m.degrees, n);
    assert h.coefficient * g[0].coefficient == m.coefficient by {
      TruncDivExact(m.coefficient, g[0].coefficient);
    }
    assert CoeffAt(f, m.degrees) == m.coefficient by {
      StrictIsDistinct(f);
      CoeffAtDistinct(f, i);
    }
  }

  /** When `g`'s leading coefficient divides the chosen term's, reduction
      cancels that term, and leaves every degree vector strictly above it as
      it was in `f`. */
  lemma ReduceCancels(f: Terms, g: Terms, n: nat)
    requires HasDim(f, n) && HasDim(g, n) && g != [] && CanReduce(f, g).0
    requires StrictlyDescending(f) && StrictlyDescending(g)
    ensures var m := f[CanReduce(f, g).1];
            && (m.coefficient % g[0].coefficient == 0 ==> CoeffAt(Reduce(f, g, n).value, m.degrees) == 0)
            && forall d :: |d| == n && Lex(d, m.degrees) == 1 ==>
                 CoeffAt(Reduce(f, g, n).value, d) == CoeffAt(f, d)
  {
    var i := CanReduce(f, g).1;
    assert Reduce(f, g, n).value == ReduceAtTerm(f, g, i, n);
    ReduceAtTermCancels(f, g, i, n);
  }

  /** When the leading coefficient of `g` is larger in size than the chosen
      term's, the truncated quotient is 0 and `reduce` gives back a polynomial
      in normal form unchanged, while `can_reduce` still holds: iterating
      reduce never gets past this term. */
  lemma ReduceStalls(f: Terms, g: Terms, n: nat)
    requires HasDim(f, n) && HasDim(g, n) && g != [] && CanReduce(f, g).0
    requires StrictlyDescending(f) && NonZeroTerms(f)
    requires Abs(f[CanReduce(f, g).1].coefficient) < Abs(g[0].coefficient)
    ensures Reduce(f, g, n) == Some(f)
  {
    var i := CanReduce(f, g).1;
    var h := ReduceCofactor(f[i], g[0]);
    assert h.coefficient == 0 by {
      var q := TruncDiv(f[i].coefficient, g[0].coefficient);
      TruncDivSpec(f[i].coefficient, g[0].coefficient);
      if Abs(q) >= 1 {
        MulMono(1, Abs(q), Abs(g[0].coefficient));
      }
    }
    assert ReduceAtTerm(f, g, i, n) == f by {
      assert Single(h) == [];
      PolyMulEmpty(g, n);
      PolySubEmpty(f, n);
    }
  }

  /** `degree_lcm(a, b)`: the elementwise maximum of the two degree vectors.
      Each entry bounds both exponents and is one of them, so no smaller
      entry would bound both. */
  function DegreeLcm(a: Monomial, b: Monomial): (r: seq<nat>)
    ensures |r| == Min(|a.degrees|, |b.degrees|)
    ensures forall i :: 0 <= i < |r| ==> a.degrees[i] <= r[i] && b.degrees[i] <= r[i]
    ensures forall i :: 0 <= i < |r| ==> r[i] == a.degrees[i] || r[i] == b.degrees[i]
  {
    seq(Min(|a.degrees|, |b.degrees|), i requires 0 <= i < Min(|a.degrees|, |b.degrees|) =>
      Max(a.degrees[i], b.degrees[i]))
  }

  function Max(x: nat, y: nat): nat { if x >= y then x else y }

  /** The lcm is an upper bound of both degree vectors and the least one:
      every vector that dominates both dominates it. So the cofactor degrees of
      the S-polynomial are never negative. */
  lemma DegreeLcmIsLeastUpperBound(a: Monomial, b: Monomial, d: seq<nat>)
    requires |a.degrees| == |b.degrees| == |d|
    ensures Dominates(DegreeLcm(a, b), a.degrees) && Dominates(DegreeLcm(a, b), b.degrees)
    ensures Dominates(d, a.degrees) && Dominates(d, b.degrees) ==> Dominates(d, DegreeLcm(a, b))
  {
  }

  /** `is_zero(p)`: every coefficient is 0 (so the empty polynomial is zero). */
  function IsZero(p: Terms): (r: bool)
    ensures r <==> forall k :: 0 <= k < |p| ==> p[k].coefficient == 0
  {
    if p == [] then true
    else if p[0].coefficient != 0 then false
    else
      var r := IsZero(p[1..]);
      assert r ==> forall k :: 0 <= k < |p| ==> p[k].coefficient == 0 by {
        if r {
          forall k | 0 <= k < |p| ensures p[k].coefficient == 0 {
            if k > 0 { assert p[k] == p[1..][k - 1]; }
          }
        }
      }
      r
  }

  /** A cofactor of the S-polynomial for the leading term `lead` of one of the
      pair: degrees `lcm - lead`, coefficient `c`. */
  function SCofactor(lead: Monomial, lcm: seq<nat>, c: int): Monomial
    requires Dominates(lcm, lead.degrees)
  {
    Monomial(SubDegrees(lcm, lead.degrees), c)
  }

  /** The shape of `S_polynomial(f_i, f_j)` with cofactor coefficients `ci`
      (for `f_i`) and `cj` (for `f_j`): `h_j * f_j - h_i * f_i`, or the empty
      polynomial when a cofactor has coefficient 0. */
  function SPair(fi: Terms, fj: Terms, ci: int, cj: int, n: nat): (r: Terms)
    requires fi != [] && fj != [] && HasDim(fi, n) && HasDim(fj, n)
    ensures HasDim(r, n) && StrictlyDescending(r)
    ensures ci == 0 || cj == 0 ==> r == []
  {
    var gi, gj := fi[0], fj[0];
    var a := DegreeLcm(gi, gj);
    DegreeLcmIsLeastUpperBound(gi, gj, a);
    var hi := Single(SCofactor(gi, a, ci));
    var hj := Single(SCofactor(gj, a, cj));
    if IsZero(hi) || IsZero(hj) then []
    else
      PolySubCoeff(PolyMul(hj, fj, n), PolyMul(hi, fi, n), n);
      PolySub(PolyMul(hj, fj, n), PolyMul(hi, fi, n), n)
  }

  /** `S_polynomial(f_i, f_j)` as written: each cofactor carries its own
      polynomial's leading coefficient. */
  function SPolynomial(fi: Terms, fj: Terms, n: nat): (r: Terms)
    requires fi != [] && fj != [] && HasDim(fi, n) && HasDim(fj, n)
    ensures HasDim(r, n) && StrictlyDescending(r)
  {
    SPair(fi, fj, fi[0].coefficient, fj[0].coefficient, n)
  }

  /** The S-polynomial with the cofactor coefficients crossed, so that the
      leading terms cancel over the integers: `h_i` carries the leading
      coefficient of `f_j` and `h_j` that of `f_i`. */
  function SPolynomialCross(fi: Terms, fj: Terms, n: nat): (r: Terms)
    requires fi != [] && fj != [] && HasDim(fi, n) && HasDim(fj, n)
    ensures HasDim(r, n) && StrictlyDescending(r)
  {
    SPair(fi, fj, fj[0].coefficient, fi[0].coefficient, n)
  }

  /** A zero leading coefficient on either side gives the empty polynomial,
      both as written and corrected. */
  lemma SPolynomialZeroLead(fi: Terms, fj: Terms, n: nat)
    requires fi != [] && fj != [] && HasDim(fi, n) && HasDim(fj, n)
    ensures fi[0].coefficient == 0 || fj[0].coefficient == 0 ==>
              SPolynomial(fi, fj, n) == [] && SPolynomialCross(fi, fj, n) == []
  {
  }

  /** The coefficient of `a*p - b*q` at one degree vector. */
  lemma DiffOfProductsAt(a: Terms, p: Terms, b: Terms, q: Terms, n: nat, d: seq<nat>)
    requires HasDim(a, n) && HasDim(p, n) && HasDim(b, n) && HasDim(q, n) && |d| == n
    ensures CoeffAt(PolySub(PolyMul(a, p, n), PolyMul(b, q, n), n), d) == Conv(a, p, d) - Conv(b, q, d)
  {
    PolyMulCoeff(a, p, n);
    PolyMulCoeff(b, q, n);
    PolySubCoeff(PolyMul(a, p, n), PolyMul(b, q, n), n);
  }

  /** With nonzero cofactor coefficients the S-polynomial is `h_j*f_j - h_i*f_i`. */
  lemma SPairValue(fi: Terms, fj: Terms, ci: int, cj: int, n: nat)
    requires fi != [] && fj != [] && HasDim(fi, n) && HasDim(fj, n) && ci != 0 && cj != 0
    ensures var a := DegreeLcm(fi[0], fj[0]);
            && Dominates(a, fi[0].degrees) && Dominates(a, fj[0].degrees) && |a| == n
            && var hi, hj := Single(SCofactor(fi[0], a, ci)), Single(SCofactor(fj[0], a, cj));
               && HasDim(hi, n) && HasDim(hj, n)
               && SPair(fi, fj, ci, cj, n) == PolySub(PolyMul(hj, fj, n), PolyMul(hi, fi, n), n)
  {
    var a := DegreeLcm(fi[0], fj[0]);
    DegreeLcmIsLeastUpperBound(fi[0], fj[0], a);
    assert |SCofactor(fi[0], a, ci).degrees| == n && |SCofactor(fj[0], a, cj).degrees| == n;
  }

  /** At the lcm `a` of the leading degree vectors the S-polynomial has
      coefficient `cj*lc(f_j) - ci*lc(f_i)`, and above `a` nothing. */
  lemma SPairAtLcm(fi: Terms, fj: Terms, ci: int, cj: int, n: nat)
    requires fi != [] && fj != [] && HasDim(fi, n) && HasDim(fj, n) && ci != 0 && cj != 0
    requires StrictlyDescending(fi) && StrictlyDescending(fj)
    ensures var a := DegreeLcm(fi[0], fj[0]);
            && CoeffAt(SPair(fi, fj, ci, cj, n), a) == cj * fj[0].coefficient - ci * fi[0].coefficient
            && forall d :: |d| == n && Lex(d, a) == 1 ==> CoeffAt(SPair(fi, fj, ci, cj, n), d) == 0
  {
    var a := DegreeLcm(fi[0], fj[0]);
    SPairValue(fi, fj, ci, cj, n);
    var hi, hj := SCofactor(fi[0], a, ci), SCofactor(fj[0], a, cj);
    var s := PolySub(PolyMul(Single(hj), fj, n), PolyMul(Single(hi), fi, n), n);
    assert SPair(fi, fj, ci, cj, n) == s;
    DiffAtLcm(fi, fj, hi, hj, a, n);
    forall d | |d| == n && Lex(d, a) == 1 ensures CoeffAt(s, d) == 0 {
      DiffAboveLcm(fi, fj, hi, hj, a, n, d);
    }
  }

  /** SPairAtLcm at the lcm itself. */
  lemma DiffAtLcm(fi: Terms, fj: Terms, hi: Monomial, hj: Monomial, a: seq<nat>, n: nat)
    requires fi != [] && fj != [] && HasDim(fi, n) && HasDim(fj, n) && |a| == n
    requires StrictlyDescending(fi) && StrictlyDescending(fj)
    requires Dominates(a, fi[0].degrees) && Dominates(a, fj[0].degrees)
    requires hi == SCofactor(fi[0], a, hi.coefficient) && hj == SCofactor(fj[0], a, hj.coefficient)
    requires HasDim(Single(hi), n) && HasDim(Single(hj), n)
    ensures CoeffAt(PolySub(PolyMul(Single(hj), fj, n), PolyMul(Single(hi), fi, n), n), a)
         == hj.coefficient * fj[0].coefficient - hi.coefficient * fi[0].coefficient
  {
    DiffOfProductsAt(Single(hj), fj, Single(hi), fi, n, a);
    ConvCofactorAtTop(hi, fi, a, n);
    ConvCofactorAtTop(hj, fj, a, n);
  }

  /** SPairAtLcm above the lcm. */
  lemma DiffAboveLcm(fi: Terms, fj: Terms, hi: Monomial, hj: Monomial, a: seq<nat>, n: nat, d: seq<nat>)
    requires fi != [] && fj != [] && HasDim(fi, n) && HasDim(fj, n) && |a| == n
    requires StrictlyDescending(fi) && StrictlyDescending(fj)
    requires Dominates(a, fi[0].degrees) && Dominates(a, fj[0].degrees)
    requires hi == SCofactor(fi[0], a, hi.coefficient) && hj == SCofactor(fj[0], a, hj.coefficient)
    requires HasDim(Single(hi), n) && HasDim(Single(hj), n)
    requires |d| == n && Lex(d, a) == 1
    ensures CoeffAt(PolySub(PolyMul(Single(hj), fj, n), PolyMul(Single(hi), fi, n), n), d) == 0
  {
    DiffOfProductsAt(Single(hj), fj, Single(hi), fi, n, d);
    ConvCofactorAbove(hi, fi, a, n, d);
    ConvCofactorAbove(hj, fj, a, n, d);
  }

  /** As written, with nonzero leading coefficients `ci`, `cj`, the
      S-polynomial has coefficient `cj*cj - ci*ci` at the lcm of the leading
      degree vectors, and nothing above it. */
  lemma SPolynomialAtLcm(fi: Terms, fj: Terms, n: nat)
    requires fi != [] && fj != [] && HasDim(fi, n) && HasDim(fj, n)
    requires StrictlyDescending(fi) && StrictlyDescending(fj)
    requires fi[0].coefficient != 0 && fj[0].coefficient != 0
    ensures var a := DegreeLcm(fi[0], fj[0]);
            && CoeffAt(SPolynomial(fi, fj, n), a)
               == fj[0].coefficient * fj[0].coefficient - fi[0].coefficient * fi[0].coefficient
            && forall d :: |d| == n && Lex(d, a) == 1 ==> CoeffAt(SPolynomial(fi, fj, n), d) == 0
  {
    SPairAtLcm(fi, fj, fi[0].coefficient, fj[0].coefficient, n);
  }

  /** Hence, as written, the leading terms cancel exactly when the two leading
      coefficients have the same size. */
  lemma SPolynomialCancelsIff(fi: Terms, fj: Terms, n: nat)
    requires fi != [] && fj != [] && HasDim(fi, n) && HasDim(fj, n)
    requires StrictlyDescending(fi) && StrictlyDescending(fj)
    requires fi[0].coefficient != 0 && fj[0].coefficient != 0
    ensures CoeffAt(SPolynomial(fi, fj, n), DegreeLcm(fi[0], fj[0])) == 0
        <==> Abs(fi[0].coefficient) == Abs(fj[0].coefficient)
  {
    SPolynomialAtLcm(fi, fj, n);
    SquaresEqual(fi[0].coefficient, fj[0].coefficient);
  }

  /** `2x` and `y`: as written, the S-polynomial keeps `-3 xy` at the lcm `xy`. */
  lemma SPolynomialKeepsLead()
    ensures var fi, fj := [Monomial([1, 0], 2)], [Monomial([0, 1], 1)];
            DegreeLcm(fi[0], fj[0]) == [1, 1] && CoeffAt(SPolynomial(fi, fj, 2), [1, 1]) == -3
  {
    var fi, fj := [Monomial([1, 0], 2)], [Monomial([0, 1], 1)];
    assert DegreeLcm(fi[0], fj[0]) == [1, 1];
    SPolynomialAtLcm(fi, fj, 2);
  }

  /** Corrected, the leading terms always cancel: with nonzero leading
      coefficients the S-polynomial has nothing at or above the lcm of the
      leading degree vectors. */
  lemma SPolynomialCrossCancels(fi: Terms, fj: Terms, n: nat)
    requires fi != [] && fj != [] && HasDim(fi, n) && HasDim(fj, n)
    requires StrictlyDescending(fi) && StrictlyDescending(fj)
    requires fi[0].coefficient != 0 && fj[0].coefficient != 0
    ensures var a := DegreeLcm(fi[0], fj[0]);
            forall d :: |d| == n && Lex(d, a) >= 0 ==> CoeffAt(SPolynomialCross(fi, fj, n), d) == 0
  {
    var a := DegreeLcm(fi[0], fj[0]);
    SPairAtLcm(fi, fj, fj[0].coefficient, fi[0].coefficient, n);
    forall d | |d| == n && Lex(d, a) >= 0 ensures CoeffAt(SPolynomialCross(fi, fj, n), d) == 0 {
      if Lex(d, a) == 0 {
        LexZeroIff(d, a);
      }
    }
  }

  lemma SquaresEqual(x: int, y: int)
    ensures x * x == y * y <==> Abs(x) == Abs(y)
  {
    var ax, ay := Abs(x), Abs(y);
    assert x * x == ax * ax && y * y == ay * ay;
    if ax < ay {
      assert ax * ax < ay * ay by {
        assert ax * ax <= ax * ay;
        assert ax * ay < ay * ay;
      }
    } else if ay < ax {
      assert ay * ay < ax * ax by {
        assert ay * ay <= ay * ax;
        assert ay * ax < ax * ax;
      }
    }
  }
}
