/** The `Polynomial` object of the source: a single mutable field `monomials`
    that the constructor sorts and then simplifies in place, and arithmetic
    that builds term lists with loops and hands them to a fresh object. Each
    method is proved against the term-list functions of `Polynomials`. */
module PolynomialClass {
  import opened Monomials
  import opened Polynomials
  import Text

  /** The sum of the coefficients of a run of terms. */
  function SumCoefficients(ms: Terms): int
  {
    if ms == [] then 0 else SumCoefficients(ms[..|ms| - 1]) + ms[|ms| - 1].coefficient
  }

  /** A run of terms with one degree vector, starting where the previous run
      ends, adds one term to the combination: that degree vector with the
      run's total coefficient. */
  lemma CombineRun(ms: Terms, i: nat, j: nat)
    requires i < j <= |ms| && (i == 0 || ms[i - 1].degrees != ms[i].degrees)
    requires forall k :: i <= k < j ==> ms[k].degrees == ms[i].degrees
    ensures Combine(ms[..j]) == Combine(ms[..i]) + [Monomial(ms[i].degrees, SumCoefficients(ms[i..j]))]
  {
    var pre, run := ms[..i], ms[i..j];
    assert ms[..j] == pre + run;
    assert forall k :: 0 <= k < |run| ==> run[k].degrees == run[0].degrees by {
      forall k | 0 <= k < |run| ensures run[k].degrees == run[0].degrees {
        assert run[k] == ms[i + k];
      }
    }
    CombineAppendRun(pre, run);
  }

  lemma {:induction false} CombineAppendRun(pre: Terms, run: Terms)
    requires run != [] && forall k :: 0 <= k < |run| ==> run[k].degrees == run[0].degrees
    requires pre == [] || pre[|pre| - 1].degrees != run[0].degrees
    ensures Combine(pre + run) == Combine(pre) + [Monomial(run[0].degrees, SumCoefficients(run))]
    decreases |run|
  {
    var init, m := run[..|run| - 1], run[|run| - 1];
    assert run == init + [m];
    if init == [] {
      assert run == [m];
      CombineStartRun(pre, m);
    } else {
      assert forall k :: 0 <= k < |init| ==> init[k].degrees == init[0].degrees by {
        assert forall k :: 0 <= k < |init| ==> init[k] == run[k];
      }
      CombineAppendRun(pre, init);
      CombineGrowRun(pre, init, m, run[0].degrees);
      AppendSnoc(pre, init, m);
    }
  }

  lemma CombineStartRun(pre: Terms, m: Monomial)
    requires pre == [] || pre[|pre| - 1].degrees != m.degrees
    ensures Combine(pre + [m]) == Combine(pre) + [Monomial(m.degrees, SumCoefficients([m]))]
  {
    CombineSnocNew(pre, m);
    assert [m][..0] == [];
  }

  lemma CombineGrowRun(pre: Terms, init: Terms, m: Monomial, d: seq<nat>)
    requires init != [] && init[|init| - 1].degrees == m.degrees == d
    requires Combine(pre + init) == Combine(pre) + [Monomial(d, SumCoefficients(init))]
    ensures Combine((pre + init) + [m]) == Combine(pre) + [Monomial(d, SumCoefficients(init + [m]))]
  {
    var a := Combine(pre);
    var x := Monomial(d, SumCoefficients(init));
    LastOfSnoc(a, x);
    assert (pre + init)[|pre + init| - 1] == init[|init| - 1];
    CombineSnocMerge(pre + init, m);
    assert (init + [m])[..|init|] == init;
  }

  lemma AppendSnoc(a: Terms, b: Terms, x: Monomial)
    ensures a + (b + [x]) == (a + b) + [x]
  {
  }

  lemma LastOfSnoc(a: Terms, x: Monomial)
    ensures |a + [x]| == |a| + 1 && (a + [x])[..|a|] == a && (a + [x])[|a|] == x
  {
  }

  /** `Combine` of a list extended by a term that starts a new run. */
  lemma CombineSnocNew(init: Terms, m: Monomial)
    requires init == [] || init[|init| - 1].degrees != m.degrees
    ensures Combine(init + [m]) == Combine(init) + [m]
  {
    CombineSnoc(init, m);
  }

  /** `Combine` of a list extended by a term that continues the last run. */
  lemma CombineSnocMerge(init: Terms, m: Monomial)
    requires init != [] && init[|init| - 1].degrees == m.degrees
    ensures var r := Combine(init);
      Combine(init + [m]) == r[..|r| - 1] + [Monomial(m.degrees, r[|r| - 1].coefficient + m.coefficient)]
  {
    CombineSnoc(init, m);
  }

  lemma CombineAll(ms: Terms, j: nat, mons: Terms)
    requires j == |ms| && mons == Combine(ms[..j])
    ensures mons == Combine(ms)
  {
    assert ms[..j] == ms;
  }

  lemma CombineOne(ms: Terms)
    requires |ms| == 1
    ensures Combine(ms) == ms
  {
    assert ms[..0] == [];
  }

  /** Products of a list extended at the end. */
  lemma {:induction false} ProductsSnoc(p: Terms, m: Monomial, q: Terms)
    ensures Products(p + [m], q) == Products(p, q) + ScaleAll(m, q)
  {
    if p == [] {
      assert [m][1..] == [];
    } else {
      ProductsSnoc(p[1..], m, q);
      assert (p + [m])[1..] == p[1..] + [m];
    }
  }

  /** The inner `while` of `combine_like_terms`: from the run start `i`, move
      the cursor `j` and add up coefficients while the term under the cursor
      compares `==` to the run's first term, stopping at the end of the list.
      The run found is maximal and `c` is its total coefficient. */
  method ScanRun(ms: Terms, i: nat) returns (j: nat, c: int)
    requires Uniform(ms) && i < |ms|
    ensures i < j <= |ms| && c == SumCoefficients(ms[i..j])
    ensures forall k :: i <= k < j ==> ms[k].degrees == ms[i].degrees
    ensures j < |ms| ==> ms[j].degrees != ms[i].degrees
  {
    j, c := i, 0;
    LexZeroIff(ms[i].degrees, ms[i].degrees);
    while Eq(ms[i], ms[j])
      invariant i <= j < |ms| && c == SumCoefficients(ms[i..j])
      invariant forall k :: i <= k < j ==> ms[k].degrees == ms[i].degrees
      decreases |ms| - j
    {
      LexZeroIff(ms[i].degrees, ms[j].degrees);
      assert ms[i..j + 1][..j - i] == ms[i..j];
      c := c + ms[j].coefficient;
      j := j + 1;
      if j == |ms| {
        return;
      }
    }
    LexZeroIff(ms[i].degrees, ms[j].degrees);
  }

  /** The inner loop of `__mul__` after one more step. */
  lemma ScaleAllPrefix(done: Terms, m: Monomial, q: Terms, b: nat)
    requires b < |q|
    ensures ScaleAll(m, q[..b + 1]) == ScaleAll(m, q[..b]) + [Monomials.Mul(m, q[b])]
    ensures done + ScaleAll(m, q[..b]) + [Monomials.Mul(m, q[b])] == done + ScaleAll(m, q[..b + 1])
  {
    PrefixSnoc(q, b);
    var row := ScaleAll(m, q[..b]);
    var x := Monomials.Mul(m, q[b]);
    assert done + row + [x] == done + (row + [x]);
  }

  /** The outer loop of `__mul__` after one more step. */
  lemma ProductsPrefix(p: Terms, a: nat, q: Terms)
    requires a < |p|
    ensures Products(p[..a + 1], q) == Products(p[..a], q) + ScaleAll(p[a], q[..|q|])
  {
    PrefixSnoc(p, a);
    PrefixSnoc(q, |q|);
    ProductsSnoc(p[..a], p[a], q);
  }

  lemma PrefixSnoc(p: Terms, a: nat)
    requires a <= |p|
    ensures a < |p| ==> p[..a + 1] == p[..a] + [p[a]]
    ensures p[..|p|] == p
  {
  }

  /** `xs` in front of a parse result; a failed parse stays failed. */
  function Prefixed<T>(xs: seq<T>, r: Option<seq<T>>): Option<seq<T>>
  {
    match r
    case None => None
    case Some(ys) => Some(xs + ys)
  }

  lemma ParseDegreesAt(toks: seq<string>, k: nat)
    requires k < |toks|
    ensures Text.ParseDegrees(toks[k..]) ==
      match (Text.ParseDegree(toks[k]), Text.ParseDegrees(toks[k + 1..]))
      case (Some(d), Some(ds)) => Some([d] + ds)
      case _ => None
  {
    assert toks[k..][1..] == toks[k + 1..];
  }

  lemma ParsePiecesAt(pieces: seq<string>, k: nat)
    requires k < |pieces|
    ensures Text.ParsePieces(pieces[k..]) ==
      match (Text.ParseMonomial(pieces[k]), Text.ParsePieces(pieces[k + 1..]))
      case (Some(m), Some(ms)) => Some([m] + ms)
      case _ => None
  {
    assert pieces[k..][1..] == pieces[k + 1..];
  }

  lemma PrefixedNil<T>(r: Option<seq<T>>)
    ensures Prefixed([], r) == r
  {
    if r.Some? {
      assert [] + r.value == r.value;
    }
  }

  /** Appending one parsed item to the accumulator and moving past it. */
  lemma PrefixedStep<T>(xs: seq<T>, x: T, r: Option<seq<T>>)
    ensures Prefixed(xs + [x], r) == Prefixed(xs, Prefixed([x], r))
  {
    if r.Some? {
      assert xs + ([x] + r.value) == xs + [x] + r.value;
    }
  }

  /** One term of the loop of `__str__`. */
  lemma ShowRawAt(ms: Terms, vars: seq<string>, i: nat, first: bool)
    requires Text.Printable(ms, vars) && i < |ms|
    ensures Text.Printable(ms[i..], vars) && Text.Printable(ms[i + 1..], vars)
    ensures Text.ShowRaw(ms[i..], vars, first) ==
      if ms[i].coefficient != 0 then
        (if first then "" else "+ ") + Text.MonoStr(ms[i], vars) + Text.ShowRaw(ms[i + 1..], vars, false)
      else Text.ShowRaw(ms[i + 1..], vars, first)
  {
    assert ms[i..][1..] == ms[i + 1..];
    assert forall j :: 0 <= j < |ms[i..]| ==> ms[i..][j] == ms[i + j];
  }

  /** The string built so far followed by the rest of the loop's output. */
  lemma ShowRawLoop(ms: Terms, vars: seq<string>, i: nat, first: bool, s: string)
    requires Text.Printable(ms, vars) && i < |ms|
    ensures Text.Printable(ms[i..], vars) && Text.Printable(ms[i + 1..], vars)
    ensures ms[i].coefficient != 0 ==>
      s + Text.ShowRaw(ms[i..], vars, first)
      == (s + (if first then "" else "+ ") + Text.MonoStr(ms[i], vars)) + Text.ShowRaw(ms[i + 1..], vars, false)
    ensures ms[i].coefficient == 0 ==> Text.ShowRaw(ms[i..], vars, first) == Text.ShowRaw(ms[i + 1..], vars, first)
  {
    ShowRawAt(ms, vars, i, first);
  }

  /** The inner part of `from_string` for one piece: split into words, read
      the first as the coefficient and every further word's exponent. */
  method ReadMonomial(piece: string) returns (r: Option<Monomial>)
    ensures r == Text.ParseMonomial(piece)
  {
    var toks := Text.Words(piece);
    if toks == [] {
      return None;
    }
    var c := Text.ParseInt(toks[0]);
    if c == None {
      return None;
    }
    var degs: seq<nat> := [];
    var k := 1;
    PrefixedNil(Text.ParseDegrees(toks[1..]));
    while k < |toks|
      invariant 1 <= k <= |toks|
      invariant Text.ParseDegrees(toks[1..]) == Prefixed(degs, Text.ParseDegrees(toks[k..]))
    {
      ParseDegreesAt(toks, k);
      var d := Text.ParseDegree(toks[k]);
      if d == None {
        return None;
      }
      PrefixedStep(degs, d.value, Text.ParseDegrees(toks[k + 1..]));
      degs := degs + [d.value];
      k := k + 1;
    }
    assert toks[k..] == [] && degs + [] == degs;
    return Some(Monomial(degs, c.value));
  }

  class Polynomial {
    /** The terms, leading term first. */
    var monomials: Terms

    /** `Polynomial(monomials)`: sort descending, then simplify. The result is
        the normal form of the argument: strictly descending, and with every
        degree vector's total coefficient. */
    constructor (ms: Terms)
      requires Uniform(ms)
      ensures monomials == Normalize(ms)
      ensures StrictlyDescending(monomials)
      ensures forall d :: CoeffAt(monomials, d) == CoeffAt(ms, d)
    {
      monomials := SortDesc(ms);
      new;
      Simplify();
      NormalizeSpec(ms, if ms == [] then 0 else |ms[0].degrees|);
    }

    /** `Polynomial.from_string(s)`: read every `+`-separated piece and hand
        the terms to the constructor. A piece that does not parse, and terms of
        different dimensions (which the constructor's comparisons reject),
        give `None`. */
    static method FromString(s: string) returns (p: Option<Polynomial>)
      ensures p.None? <==> Text.FromString(s).None?
      ensures p.Some? ==> fresh(p.value) && p.value.monomials == Text.FromString(s).value
    {
      var pieces := Text.Split(s, '+');
      var mons: Terms := [];
      var k := 0;
      PrefixedNil(Text.ParsePieces(pieces));
      assert pieces[0..] == pieces;
      while k < |pieces|
        invariant 0 <= k <= |pieces|
        invariant Text.ParsePieces(pieces) == Prefixed(mons, Text.ParsePieces(pieces[k..]))
      {
        ParsePiecesAt(pieces, k);
        var m := ReadMonomial(pieces[k]);
        if m == None {
          return None;
        }
        PrefixedStep(mons, m.value, Text.ParsePieces(pieces[k + 1..]));
        mons := mons + [m.value];
        k := k + 1;
      }
      assert pieces[k..] == [] && mons + [] == mons;
      if !Uniform(mons) {
        return None;
      }
      var q := new Polynomial(mons);
      return Some(q);
    }

    /** `str(polynomial)`: every term with a nonzero coefficient, `"+ "`
        before each but the first, then stripped; `"0"` when none is left. */
    method ToString(vars: seq<string>) returns (s: string)
      requires Text.Printable(monomials, vars)
      ensures s == Text.Show(monomials, vars)
    {
      var ms := monomials;
      s := "";
      var first := true;
      var i := 0;
      while i < |ms|
        invariant 0 <= i <= |ms| && Text.Printable(ms[i..], vars)
        invariant s + Text.ShowRaw(ms[i..], vars, first) == Text.ShowRaw(ms, vars, true)
      {
        ShowRawLoop(ms, vars, i, first, s);
        if ms[i].coefficient != 0 {
          s := s + (if first then "" else "+ ") + Text.MonoStr(ms[i], vars);
          first := false;
        }
        i := i + 1;
      }
      assert ms[i..] == [] && s + "" == s;
      assert s == Text.ShowRaw(monomials, vars, true);
      if s != "" {
        s := Text.Strip(s);
      } else {
        s := "0";
      }
    }

    /** `combine_like_terms`: a scan with a run start `i`, a cursor `j` and an
        accumulated coefficient `c`, closing a run when the term under the
        cursor compares `!=` to the run's first term. */
    method CombineLikeTerms()
      requires Uniform(monomials)
      modifies this
      ensures monomials == Combine(old(monomials))
    {
      var ms := monomials;
      if |ms| == 1 {
        CombineOne(ms);
        return;
      }
      var i, j := 0, 0;
      var c := 0;
      var mons: Terms := [];
      while j < |ms|
        invariant i == j <= |ms| && c == 0
        invariant mons == Combine(ms[..j])
        invariant j == 0 || j == |ms| || ms[j - 1].degrees != ms[j].degrees
        decreases |ms| - j
      {
        j, c := ScanRun(ms, i);
        CombineRun(ms, i, j);
        mons := mons + [Monomial(ms[i].degrees, c)];
        c := 0;
        if j == |ms| {
          CombineAll(ms, j, mons);
          monomials := mons;
          return;
        }
        i := j;
      }
      CombineAll(ms, j, mons);
      monomials := mons;
    }

    /** `get_rid_of_zeros`: a `for` loop over the list that removes zero terms
        from the list it is iterating over. The loop's position moves on by one
        after every step, so the term that slides into a freed slot is skipped. */
    method GetRidOfZeros()
      modifies this
      ensures monomials == RidZeros(old(monomials))
    {
      var i := 0;
      while i < |monomials|
        invariant RidZerosFrom(monomials, i) == RidZeros(old(monomials))
        decreases |monomials| - i
      {
        var mon := monomials[i];
        if mon.coefficient == 0 {
          monomials := RemoveFirstLike(monomials, mon);
        }
        i := i + 1;
      }
    }

    /** `simplify`: combine like terms, then get rid of zeros. */
    method Simplify()
      requires Uniform(monomials)
      modifies this
      ensures monomials == RidZeros(Combine(old(monomials)))
    {
      CombineLikeTerms();
      GetRidOfZeros();
    }

    /** `self * other`: every product of a term of `self` with a term of
        `other`, `self` in the outer loop, normalised by the constructor. */
    method Multiply(other: Polynomial, n: nat) returns (p: Polynomial)
      requires HasDim(monomials, n) && HasDim(other.monomials, n)
      ensures fresh(p) && p.monomials == PolyMul(monomials, other.monomials, n)
      ensures forall d :: |d| == n ==> CoeffAt(p.monomials, d) == Conv(monomials, other.monomials, d)
    {
      var sMons, gMons := monomials, other.monomials;
      var mons: Terms := [];
      var a := 0;
      while a < |sMons|
        invariant a <= |sMons|
        invariant mons == Products(sMons[..a], gMons)
      {
        var b := 0;
        while b < |gMons|
          invariant b <= |gMons|
          invariant mons == Products(sMons[..a], gMons) + ScaleAll(sMons[a], gMons[..b])
        {
          ScaleAllPrefix(Products(sMons[..a], gMons), sMons[a], gMons, b);
          mons := mons + [Monomials.Mul(sMons[a], gMons[b])];
          b := b + 1;
        }
        ProductsPrefix(sMons, a, gMons);
        a := a + 1;
      }
      assert sMons[..a] == sMons;
      ProductsHasDim(sMons, gMons, n);
      p := new Polynomial(mons);
      PolyMulCoeff(sMons, gMons, n);
    }

    /** `self + other`: the two term lists one after the other, normalised. */
    method Add(other: Polynomial, n: nat) returns (p: Polynomial)
      requires HasDim(monomials, n) && HasDim(other.monomials, n)
      ensures fresh(p) && p.monomials == PolyAdd(monomials, other.monomials, n)
      ensures forall d :: CoeffAt(p.monomials, d) == CoeffAt(monomials, d) + CoeffAt(other.monomials, d)
    {
      var mons := monomials;
      mons := mons + other.monomials;
      assert HasDim(mons, n);
      p := new Polynomial(mons);
      PolyAddCoeff(monomials, other.monomials, n);
    }

    /** `self - other`, computed as `self + Polynomial([-1]) * other`. */
    method Subtract(other: Polynomial, n: nat) returns (p: Polynomial)
      requires HasDim(monomials, n) && HasDim(other.monomials, n)
      ensures fresh(p) && p.monomials == PolySub(monomials, other.monomials, n)
      ensures forall d :: CoeffAt(p.monomials, d) == CoeffAt(monomials, d) - CoeffAt(other.monomials, d)
    {
      var minusOne := new Polynomial([Monomial(Zeros(n), -1)]);
      assert minusOne.monomials == MinusOne(n);
      var negated := minusOne.Multiply(other, n);
      p := Add(negated, n);
      PolySubCoeff(monomials, other.monomials, n);
    }

    /** `self == other`: the same number of terms, and terms that compare `==`
        position by position (degree vectors only). */
    method Equals(other: Polynomial) returns (b: bool)
      requires |monomials| == |other.monomials| ==> forall i :: 0 <= i < |monomials| ==> SameDim(monomials[i], other.monomials[i])
      ensures b == PolyEq(monomials, other.monomials)
      ensures b <==> |monomials| == |other.monomials|
                     && forall i :: 0 <= i < |monomials| ==> monomials[i].degrees == other.monomials[i].degrees
    {
      PolyEqIff(monomials, other.monomials);
      if |other.monomials| != |monomials| {
        return false;
      }
      var k := 0;
      while k < |monomials|
        invariant k <= |monomials|
        invariant forall i :: 0 <= i < k ==> !Ne(monomials[i], other.monomials[i])
      {
        if Ne(monomials[k], other.monomials[k]) {
          return false;
        }
        k := k + 1;
      }
      return true;
    }
  }
}
