/** Polynomials as sequences of monomials: the normalisation the constructor
    applies (sort descending, combine like terms, drop zero terms), the
    coefficient a term list denotes at each degree vector, and the arithmetic
    built on normalisation. These functions are the specification of the
    imperative `Polynomial` class and are what the reduction layer computes with. */
module Polynomials {
  import opened Monomials

  /** A result, or none where the source returns `None` or raises. */
  datatype Option<T> = None | Some(value: T)

  /** The monomial list of a polynomial, leading term first. */
  type Terms = seq<Monomial>

  /** Every term has `n` degrees (`n` is the length of the variable list). */
  predicate HasDim(ms: Terms, n: nat) {
    forall i :: 0 <= i < |ms| ==> |ms[i].degrees| == n
  }

  /** All terms have the dimension of the first: what the term order needs. */
  predicate Uniform(ms: Terms) {
    forall i :: 0 <= i < |ms| ==> |ms[i].degrees| == |ms[0].degrees|
  }

  predicate AtLeast(a: Monomial, b: Monomial) { SameDim(a, b) && Lex(a.degrees, b.degrees) >= 0 }
  predicate Above(a: Monomial, b: Monomial) { SameDim(a, b) && Lex(a.degrees, b.degrees) == 1 }

  /** Non-increasing in the term order. */
  predicate Descending(ms: Terms) {
    forall i :: 0 < i < |ms| ==> AtLeast(ms[i - 1], ms[i])
  }

  /** Strictly decreasing in the term order: sorted with no like terms. */
  predicate StrictlyDescending(ms: Terms) {
    forall i :: 0 < i < |ms| ==> Above(ms[i - 1], ms[i])
  }

  predicate DistinctDegrees(ms: Terms) {
    forall i, j :: 0 <= i < j < |ms| ==> ms[i].degrees != ms[j].degrees
  }

  predicate NonZeroTerms(ms: Terms) {
    forall i :: 0 <= i < |ms| ==> ms[i].coefficient != 0
  }

  /** A strictly descending list is above every later term from every earlier one. */
  lemma {:induction false} StrictPairwise(ms: Terms, i: nat, j: nat)
    requires StrictlyDescending(ms) && i < j < |ms|
    ensures Above(ms[i], ms[j])
    decreases j - i
  {
    if j > i + 1 {
      StrictPairwise(ms, i, j - 1);
      LexTrans(ms[i].degrees, ms[j - 1].degrees, ms[j].degrees);
    }
  }

  lemma StrictIsDistinct(ms: Terms)
    requires StrictlyDescending(ms)
    ensures DistinctDegrees(ms)
  {
    forall i, j | 0 <= i < j < |ms| ensures ms[i].degrees != ms[j].degrees {
      StrictPairwise(ms, i, j);
      LexZeroIff(ms[i].degrees, ms[j].degrees);
    }
  }

  // ---------------------------------------------------------------------------
  // Meaning of a term list: the coefficient at each degree vector

  /** Sum of the coefficients of the terms whose degree vector is `d`. */
  function CoeffAt(ms: Terms, d: seq<nat>): int
  {
    if ms == [] then 0
    else (if ms[0].degrees == d then ms[0].coefficient else 0) + CoeffAt(ms[1..], d)
  }

  lemma {:induction false} CoeffAtAppend(a: Terms, b: Terms, d: seq<nat>)
    ensures CoeffAt(a + b, d) == CoeffAt(a, d) + CoeffAt(b, d)
  {
    if a == [] {
      assert a + b == b;
    } else {
      assert (a + b)[1..] == a[1..] + b;
      CoeffAtAppend(a[1..], b, d);
    }
  }

  /** With no repeated degree vector, the coefficient at the degree of a term is that term's. */
  lemma {:induction false} CoeffAtDistinct(ms: Terms, k: nat)
    requires DistinctDegrees(ms) && k < |ms|
    ensures CoeffAt(ms, ms[k].degrees) == ms[k].coefficient
  {
    if k == 0 {
      CoeffAtAbsent(ms[1..], ms[0].degrees);
    } else {
      CoeffAtDistinct(ms[1..], k - 1);
    }
  }

  /** A degree vector carried by no term has coefficient 0. */
  lemma {:induction false} CoeffAtAbsent(ms: Terms, d: seq<nat>)
    requires forall i :: 0 <= i < |ms| ==> ms[i].degrees != d
    ensures CoeffAt(ms, d) == 0
  {
    if ms != [] {
      CoeffAtAbsent(ms[1..], d);
    }
  }

  // ---------------------------------------------------------------------------
  // Sorting (the `sorted(monomials, reverse=True)` of the constructor)

  /** Where `Insert` puts `m`: at the first term that `m` is at least, after
      every term strictly above it. */
  function InsertPos(m: Monomial, ms: Terms): (p: nat)
    requires HasDim(ms, |m.degrees|)
    ensures p <= |ms|
    ensures forall k :: 0 <= k < p ==> Lex(m.degrees, ms[k].degrees) < 0
    ensures p < |ms| ==> Lex(m.degrees, ms[p].degrees) >= 0
  {
    if ms == [] || Lex(m.degrees, ms[0].degrees) >= 0 then 0
    else 1 + InsertPos(m, ms[1..])
  }

  /** Insert `m` in front of the first term it is at least, so before its
      equals: inserting the head of a list into its sorted tail, as SortDesc
      does, keeps equal terms in input order (Python's sort is stable). */
  function Insert(m: Monomial, ms: Terms): (r: Terms)
    requires HasDim(ms, |m.degrees|)
    ensures HasDim(r, |m.degrees|)
    ensures |r| == |ms| + 1
    ensures r[0] == m || (ms != [] && r[0] == ms[0])
  {
    if ms == [] then [m]
    else if Lex(m.degrees, ms[0].degrees) >= 0 then [m] + ms
    else
      assert ms == [ms[0]] + ms[1..];
      [ms[0]] + Insert(m, ms[1..])
  }

  /** Insertion puts `m` at InsertPos and moves nothing else: every term
      strictly above `m` stays in front of it, every other term behind it. */
  lemma {:induction false} InsertAt(m: Monomial, ms: Terms)
    requires HasDim(ms, |m.degrees|)
    ensures Insert(m, ms) == ms[..InsertPos(m, ms)] + [m] + ms[InsertPos(m, ms)..]
  {
    if ms != [] && Lex(m.degrees, ms[0].degrees) < 0 {
      var t, p := ms[1..], InsertPos(m, ms[1..]);
      assert InsertPos(m, ms) == p + 1;
      assert Insert(m, ms) == [ms[0]] + Insert(m, t);
      InsertAt(m, t);
      assert ms == [ms[0]] + t;
      ConsSplice(ms[0], t, m, p);
    }
  }

  lemma ConsSplice(x: Monomial, t: Terms, m: Monomial, p: nat)
    requires p <= |t|
    ensures [x] + (t[..p] + [m] + t[p..]) == ([x] + t)[..p + 1] + [m] + ([x] + t)[p + 1..]
  {
    var s := [x] + t;
    assert s[..p + 1] == [x] + t[..p];
    assert s[p + 1..] == t[p..];
  }

  /** The terms sorted into non-increasing term order, equal terms kept in
      input order. */
  function SortDesc(ms: Terms): (r: Terms)
    requires Uniform(ms)
    ensures |r| == |ms|
    ensures ms != [] ==> HasDim(r, |ms[0].degrees|)
  {
    if ms == [] then []
    else Insert(ms[0], SortDesc(ms[1..]))
  }

  lemma {:induction false} InsertDescending(m: Monomial, ms: Terms)
    requires HasDim(ms, |m.degrees|) && Descending(ms)
    ensures Descending(Insert(m, ms))
  {
    if ms != [] && Lex(m.degrees, ms[0].degrees) < 0 {
      InsertDescending(m, ms[1..]);
      LexSwap(m.degrees, ms[0].degrees);
      var r := Insert(m, ms[1..]);
      assert r[0] == m || r[0] == ms[1];
    }
  }

  /** Insertion adds exactly one occurrence of `m`. */
  lemma {:induction false} InsertPermutes(m: Monomial, ms: Terms)
    requires HasDim(ms, |m.degrees|)
    ensures multiset(Insert(m, ms)) == multiset(ms) + multiset{m}
  {
    if ms != [] && Lex(m.degrees, ms[0].degrees) < 0 {
      InsertPermutes(m, ms[1..]);
      assert ms == [ms[0]] + ms[1..];
    }
  }

  /** Sorting yields a non-increasing permutation of its input. */
  lemma SortDescSorted(ms: Terms)
    requires Uniform(ms)
    ensures Descending(SortDesc(ms)) && multiset(SortDesc(ms)) == multiset(ms)
  {
    SortDescDescending(ms);
    SortDescPermutes(ms);
  }

  lemma {:induction false} SortDescDescending(ms: Terms)
    requires Uniform(ms)
    ensures Descending(SortDesc(ms))
  {
    if ms != [] {
      SortDescDescending(ms[1..]);
      InsertDescending(ms[0], SortDesc(ms[1..]));
    }
  }

  lemma {:induction false} SortDescPermutes(ms: Terms)
    requires Uniform(ms)
    ensures multiset(SortDesc(ms)) == multiset(ms)
  {
    if ms != [] {
      SortDescPermutes(ms[1..]);
      InsertPermutes(ms[0], SortDesc(ms[1..]));
      assert multiset(ms) == multiset(ms[1..]) + multiset{ms[0]} by {
        assert ms == [ms[0]] + ms[1..];
      }
    }
  }

  lemma {:induction false} CoeffAtInsert(m: Monomial, ms: Terms, d: seq<nat>)
    requires HasDim(ms, |m.degrees|)
    ensures CoeffAt(Insert(m, ms), d) == CoeffAt(ms, d) + (if m.degrees == d then m.coefficient else 0)
  {
    if ms != [] && Lex(m.degrees, ms[0].degrees) < 0 {
      CoeffAtInsert(m, ms[1..], d);
    }
  }

  lemma {:induction false} CoeffAtSort(ms: Terms, d: seq<nat>)
    requires Uniform(ms)
    ensures CoeffAt(SortDesc(ms), d) == CoeffAt(ms, d)
  {
    if ms != [] {
      CoeffAtSort(ms[1..], d);
      CoeffAtInsert(ms[0], SortDesc(ms[1..]), d);
    }
  }

  /** An already strictly descending list is left as it is. */
  lemma {:induction false} SortDescFixesStrict(ms: Terms)
    requires Uniform(ms) && StrictlyDescending(ms)
    ensures SortDesc(ms) == ms
  {
    if ms != [] {
      SortDescFixesStrict(ms[1..]);
    }
  }

  // ---------------------------------------------------------------------------
  // combine_like_terms

  /** Each maximal run of consecutive terms with one degree vector becomes a
      single term carrying the sum of the run's coefficients (written as a fold
      from the left, the direction in which the source's loop works). */
  function Combine(ms: Terms): (r: Terms)
    ensures |r| <= |ms|
    ensures |ms| > 0 ==> |r| > 0 && r[|r| - 1].degrees == ms[|ms| - 1].degrees
  {
    if |ms| == 0 then [] else MergeLast(Combine(ms[..|ms| - 1]), ms[|ms| - 1])
  }

  /** One step of the fold: `m` joins the last run of `r` when it has the same
      degree vector, and starts a new run otherwise. */
  function MergeLast(r: Terms, m: Monomial): (s: Terms)
    ensures |s| == (if |r| > 0 && r[|r| - 1].degrees == m.degrees then |r| else |r| + 1)
    ensures s[|s| - 1].degrees == m.degrees
  {
    if |r| > 0 && r[|r| - 1].degrees == m.degrees
    then r[..|r| - 1] + [Monomial(m.degrees, r[|r| - 1].coefficient + m.coefficient)]
    else r + [m]
  }

  /** `Combine` of a list extended at the end. */
  lemma CombineSnoc(init: Terms, m: Monomial)
    ensures Combine(init + [m]) == MergeLast(Combine(init), m)
  {
    var s := init + [m];
    assert s[..|s| - 1] == init && s[|s| - 1] == m;
  }

  /** Combining keeps every degree vector's total coefficient. */
  lemma {:induction false} CoeffAtCombine(ms: Terms, d: seq<nat>)
    ensures CoeffAt(Combine(ms), d) == CoeffAt(ms, d)
  {
    if |ms| > 0 {
      var init, m := ms[..|ms| - 1], ms[|ms| - 1];
      CoeffAtCombine(init, d);
      assert ms == init + [m];
      CoeffAtAppend(init, [m], d);
      CombineSnoc(init, m);
      CoeffAtMergeLast(Combine(init), m, d);
    }
  }

  /** One step of the fold keeps every degree vector's total coefficient. */
  lemma CoeffAtMergeLast(r: Terms, m: Monomial, d: seq<nat>)
    ensures CoeffAt(MergeLast(r, m), d) == CoeffAt(r, d) + CoeffAt([m], d)
  {
    if |r| > 0 && r[|r| - 1].degrees == m.degrees {
      var pre, last := r[..|r| - 1], r[|r| - 1];
      var merged := Monomial(m.degrees, last.coefficient + m.coefficient);
      assert r == pre + [last];
      CoeffAtAppend(pre, [last], d);
      CoeffAtAppend(pre, [merged], d);
      CoeffAtSingle(last, d);
      CoeffAtSingle(merged, d);
      CoeffAtSingle(m, d);
    } else {
      CoeffAtAppend(r, [m], d);
    }
  }

  lemma CoeffAtSingle(x: Monomial, d: seq<nat>)
    ensures CoeffAt([x], d) == if x.degrees == d then x.coefficient else 0
  {
    assert [x][1..] == [];
  }

  /** Combining keeps the dimension of the terms. */
  lemma {:induction false} CombineHasDim(ms: Terms, n: nat)
    requires HasDim(ms, n)
    ensures HasDim(Combine(ms), n)
  {
    if |ms| > 0 {
      CombineHasDim(ms[..|ms| - 1], n);
    }
  }

  /** On a non-increasing list, combining leaves a strictly decreasing one. */
  lemma {:induction false} CombineStrict(ms: Terms, n: nat)
    requires HasDim(ms, n) && Descending(ms)
    ensures StrictlyDescending(Combine(ms))
  {
    if |ms| == 1 {
      CombineSnoc([], ms[0]);
      assert ms == [] + [ms[0]];
    } else if |ms| > 1 {
      var init, m := ms[..|ms| - 1], ms[|ms| - 1];
      assert HasDim(init, n) && Descending(init);
      assert AtLeast(init[|init| - 1], m);
      CombineStrict(init, n);
      CombineHasDim(init, n);
      assert ms == init + [m];
      CombineSnoc(init, m);
      MergeLastStrict(Combine(init), m, n);
    }
  }

  /** The last step of CombineStrict: `m` is at most the last term of `r`. */
  lemma MergeLastStrict(r: Terms, m: Monomial, n: nat)
    requires r != [] && HasDim(r, n) && |m.degrees| == n && StrictlyDescending(r)
    requires Lex(r[|r| - 1].degrees, m.degrees) >= 0
    ensures StrictlyDescending(MergeLast(r, m))
  {
    var last := r[|r| - 1];
    LexZeroIff(last.degrees, m.degrees);
    if last.degrees == m.degrees {
      StrictReplaceLast(r, Monomial(m.degrees, last.coefficient + m.coefficient));
    } else {
      StrictSnoc(r, m);
    }
  }

  lemma StrictSnoc(r: Terms, x: Monomial)
    requires StrictlyDescending(r) && (r == [] || Above(r[|r| - 1], x))
    ensures StrictlyDescending(r + [x])
  {
    var s := r + [x];
    forall i | 0 < i < |s| ensures Above(s[i - 1], s[i]) {
      if i < |r| {
        assert s[i - 1] == r[i - 1] && s[i] == r[i];
      }
    }
  }

  lemma StrictReplaceLast(r: Terms, x: Monomial)
    requires StrictlyDescending(r) && r != [] && x.degrees == r[|r| - 1].degrees
    ensures StrictlyDescending(r[..|r| - 1] + [x])
  {
    var s := r[..|r| - 1] + [x];
    forall i | 0 < i < |s| ensures Above(s[i - 1], s[i]) {
      assert s[i - 1] == r[i - 1];
      assert s[i].degrees == r[i].degrees;
    }
  }

  /** An already strictly descending list has nothing to combine. */
  lemma {:induction false} CombineFixesStrict(ms: Terms)
    requires StrictlyDescending(ms)
    ensures Combine(ms) == ms
  {
    if |ms| > 1 {
      var init := ms[..|ms| - 1];
      CombineFixesStrict(init);
      assert Above(ms[|ms| - 2], ms[|ms| - 1]);
      LexZeroIff(ms[|ms| - 2].degrees, ms[|ms| - 1].degrees);
      assert ms == init + [ms[|ms| - 1]];
    }
  }

  // ---------------------------------------------------------------------------
  // get_rid_of_zeros, as written: removing from the list while iterating over it

  /** `list.remove(m)`: drop the first term that compares `==` to `m` (the
      monomial `==` is the term order's, so on terms of one dimension it is
      "same degree vector", see Monomials.EqIffSameDegrees). */
  function RemoveFirstLike(l: Terms, m: Monomial): (r: Terms)
    ensures |r| <= |l|
  {
    if l == [] then []
    else if l[0].degrees == m.degrees then l[1..]
    else [l[0]] + RemoveFirstLike(l[1..], m)
  }

  /** The `for mon in self.monomials` loop from position `i` on: the iteration
      index moves on by one after every step, also after a removal, so the term
      that slides into the freed slot is never examined. */
  function RidZerosFrom(l: Terms, i: nat): (r: Terms)
    ensures |r| <= |l|
    decreases |l| - i
  {
    if i >= |l| then l
    else if l[i].coefficient == 0 then RidZerosFrom(RemoveFirstLike(l, l[i]), i + 1)
    else RidZerosFrom(l, i + 1)
  }

  /** `get_rid_of_zeros`: it never lengthens the list. */
  function RidZeros(l: Terms): (r: Terms)
    ensures |r| <= |l|
  {
    RidZerosFrom(l, 0)
  }

  /** A list without zero terms is left as it is, whatever its order. */
  lemma {:induction false} RidZerosFixesNonZero(l: Terms, i: nat)
    requires forall k :: i <= k < |l| ==> l[k].coefficient != 0
    ensures RidZerosFrom(l, i) == l
    decreases |l| - i
  {
    if i < |l| {
      RidZerosFixesNonZero(l, i + 1);
    }
  }

  /** Reference for what that loop does on a list without repeated degree
      vectors: a zero term is dropped and the term right after it is kept
      unexamined. */
  function SkipZeros(l: Terms): (r: Terms)
    ensures |r| <= |l|
  {
    if l == [] then []
    else if l[0].coefficient == 0 then (if |l| == 1 then [] else [l[1]] + SkipZeros(l[2..]))
    else [l[0]] + SkipZeros(l[1..])
  }

  lemma {:induction false} RemoveFirstLikeAt(l: Terms, i: nat)
    requires i < |l| && forall j :: 0 <= j < i ==> l[j].degrees != l[i].degrees
    ensures RemoveFirstLike(l, l[i]) == l[..i] + l[i + 1..]
  {
    if i > 0 {
      RemoveFirstLikeAt(l[1..], i - 1);
      assert l[..i] == [l[0]] + l[1..][..i - 1];
      assert l[i + 1..] == l[1..][i..];
    }
  }

  lemma DeleteKeepsDistinct(l: Terms, i: nat)
    requires DistinctDegrees(l) && i < |l|
    ensures DistinctDegrees(l[..i] + l[i + 1..])
  {
    var l' := l[..i] + l[i + 1..];
    forall a, b | 0 <= a < b < |l'| ensures l'[a].degrees != l'[b].degrees {
      var a0 := if a < i then a else a + 1;
      var b0 := if b < i then b else b + 1;
      assert l'[a] == l[a0] && l'[b] == l[b0];
    }
  }

  /** On a list without repeated degree vectors the loop is SkipZeros. */
  lemma {:induction false} RidZerosIsSkip(l: Terms, i: nat)
    requires DistinctDegrees(l) && i <= |l|
    ensures RidZerosFrom(l, i) == l[..i] + SkipZeros(l[i..])
    decreases |l| - i
  {
    if i == |l| {
      assert l[..i] == l;
    } else if l[i].coefficient == 0 {
      RidZerosIsSkipAtZero(l, i);
    } else {
      RidZerosIsSkip(l, i + 1);
      assert l[..i + 1] == l[..i] + [l[i]];
      assert l[i..][1..] == l[i + 1..];
    }
  }

  lemma {:induction false} RidZerosIsSkipAtZero(l: Terms, i: nat)
    requires DistinctDegrees(l) && i < |l| && l[i].coefficient == 0
    ensures RidZerosFrom(l, i) == l[..i] + SkipZeros(l[i..])
    decreases |l| - i, 0
  {
    RemoveFirstLikeAt(l, i);
    var l' := l[..i] + l[i + 1..];
    assert RidZerosFrom(l, i) == RidZerosFrom(l', i + 1);
    DeleteKeepsDistinct(l, i);
    if i + 1 < |l| {
      RidZerosIsSkip(l', i + 1);
      assert l'[..i + 1] == l[..i] + [l[i + 1]];
      assert l'[i + 1..] == l[i + 2..];
      assert l[i..][2..] == l[i + 2..];
      assert SkipZeros(l[i..]) == [l[i + 1]] + SkipZeros(l[i + 2..]);
    } else {
      assert l' == l[..i];
      assert l[i..] == [l[i]];
    }
  }

  /** Dropping terms keeps every degree vector's coefficient, because only zero
      terms are dropped. */
  lemma {:induction false} CoeffAtSkip(l: Terms, d: seq<nat>)
    ensures CoeffAt(SkipZeros(l), d) == CoeffAt(l, d)
  {
    if l == [] {
    } else if l[0].coefficient == 0 {
      if |l| > 1 {
        CoeffAtSkip(l[2..], d);
        assert l[1..][1..] == l[2..];
      }
    } else {
      CoeffAtSkip(l[1..], d);
    }
  }

  /** Every term that is kept comes from the input, every nonzero term is kept,
      and the relative order is that of the input. */
  lemma SkipZerosKeeps(l: Terms)
    ensures forall x :: x in SkipZeros(l) ==> x in l
    ensures forall i :: 0 <= i < |l| && l[i].coefficient != 0 ==> l[i] in SkipZeros(l)
    ensures StrictlyDescending(l) ==> StrictlyDescending(SkipZeros(l))
  {
    SkipZerosFrom(l);
    SkipZerosNonZero(l);
    if StrictlyDescending(l) {
      SkipZerosStrict(l);
    }
  }

  lemma {:induction false} SkipZerosFrom(l: Terms)
    ensures forall x :: x in SkipZeros(l) ==> x in l
  {
    if l == [] {
    } else if l[0].coefficient == 0 {
      if |l| > 1 {
        SkipZerosFrom(l[2..]);
        assert l == [l[0], l[1]] + l[2..];
      }
    } else {
      SkipZerosFrom(l[1..]);
      assert l == [l[0]] + l[1..];
    }
  }

  lemma {:induction false} SkipZerosNonZero(l: Terms)
    ensures forall i :: 0 <= i < |l| && l[i].coefficient != 0 ==> l[i] in SkipZeros(l)
  {
    if l == [] {
    } else if l[0].coefficient == 0 {
      if |l| > 1 {
        SkipZerosNonZero(l[2..]);
        assert forall i :: 2 <= i < |l| ==> l[i] == l[2..][i - 2];
      }
    } else {
      SkipZerosNonZero(l[1..]);
      assert forall i :: 1 <= i < |l| ==> l[i] == l[1..][i - 1];
    }
  }

  lemma {:induction false} SkipZerosStrict(l: Terms)
    requires StrictlyDescending(l)
    ensures StrictlyDescending(SkipZeros(l))
  {
    if l == [] {
    } else if l[0].coefficient == 0 {
      if |l| > 1 {
        SkipZerosStrict(l[2..]);
        SkipZerosFrom(l[2..]);
        var t := SkipZeros(l[2..]);
        if t != [] {
          assert t[0] in l[2..];
          var k :| 2 <= k < |l| && l[k] == t[0];
          StrictPairwise(l, 1, k);
        }
      }
    } else {
      SkipZerosStrict(l[1..]);
      SkipZerosFrom(l[1..]);
      var t := SkipZeros(l[1..]);
      if t != [] {
        assert t[0] in l[1..];
        var k :| 1 <= k < |l| && l[k] == t[0];
        StrictPairwise(l, 0, k);
      }
    }
  }

  /** A list without zero terms is left as it is. */
  lemma {:induction false} SkipZerosFixesNonZero(l: Terms)
    requires NonZeroTerms(l)
    ensures SkipZeros(l) == l
  {
    if l != [] {
      SkipZerosFixesNonZero(l[1..]);
    }
  }

  /** As written, a zero term that follows a removed zero term survives. */
  lemma ZeroAfterZeroSurvives(a: Monomial, b: Monomial)
    requires a.coefficient == 0 && b.coefficient == 0 && a.degrees != b.degrees
    ensures RidZeros([a, b]) == [b]
  {
    assert RemoveFirstLike([a, b], a) == [b];
    assert RidZerosFrom([b], 1) == [b];
  }

  // ---------------------------------------------------------------------------
  // The constructor's normal form

  /** `Polynomial(monomials)`: sort descending, combine like terms, get rid of zeros. */
  function Normalize(ms: Terms): (r: Terms)
    requires Uniform(ms)
    ensures |r| <= |ms|
  {
    RidZeros(Combine(SortDesc(ms)))
  }

  /** The normal form is strictly descending in the term order, keeps the
      dimension and every degree vector's total coefficient, and keeps every
      combined term whose coefficient is not zero. */
  lemma NormalizeSpec(ms: Terms, n: nat)
    requires HasDim(ms, n)
    ensures HasDim(Normalize(ms), n)
    ensures StrictlyDescending(Normalize(ms)) && DistinctDegrees(Normalize(ms))
    ensures forall d :: CoeffAt(Normalize(ms), d) == CoeffAt(ms, d)
    ensures |Normalize(ms)| <= |ms|
    ensures forall x :: x in Combine(SortDesc(ms)) && x.coefficient != 0 ==> x in Normalize(ms)
  {
    var c := Combine(SortDesc(ms));
    CombinedSortedStrict(ms, n);
    assert Normalize(ms) == SkipZeros(c) by {
      RidZerosIsSkip(c, 0);
      assert c[..0] == [] && c[0..] == c;
    }
    SkipZerosKeeps(c);
    StrictIsDistinct(SkipZeros(c));
    var t := SkipZeros(c);
    forall i | 0 <= i < |t| ensures |t[i].degrees| == n {
      assert t[i] in c;
    }
    forall d ensures CoeffAt(Normalize(ms), d) == CoeffAt(ms, d) {
      CoeffAtSkip(c, d);
      CoeffAtCombine(SortDesc(ms), d);
      CoeffAtSort(ms, d);
    }
  }

  lemma CombinedSortedStrict(ms: Terms, n: nat)
    requires HasDim(ms, n)
    ensures HasDim(Combine(SortDesc(ms)), n)
    ensures StrictlyDescending(Combine(SortDesc(ms))) && DistinctDegrees(Combine(SortDesc(ms)))
  {
    var s := SortDesc(ms);
    SortDescSorted(ms);
    assert HasDim(s, n);
    CombineStrict(s, n);
    CombineHasDim(s, n);
    StrictIsDistinct(Combine(s));
  }

  /** The polynomial of one term: empty when its coefficient is zero. */
  function Single(m: Monomial): Terms
  {
    if m.coefficient == 0 then [] else [m]
  }

  /** `Polynomial([m])`: the constructor keeps a single term, unless its
      coefficient is zero. */
  lemma NormalizeSingle(m: Monomial)
    ensures Normalize([m]) == Single(m)
  {
    assert SortDesc([m]) == [m];
    assert Combine([m]) == [m] by {
      CombineSnoc([], m);
      assert [] + [m] == [m];
    }
    RidZerosSingle(m);
  }

  lemma RidZerosSingle(m: Monomial)
    ensures RidZeros([m]) == Single(m)
  {
    if m.coefficient == 0 {
      assert RemoveFirstLike([m], m) == [];
      assert RidZerosFrom([], 1) == [];
    } else {
      assert RidZerosFrom([m], 1) == [m];
    }
  }

  /** A strictly descending list without zero terms is its own normal form:
      normalisation is idempotent on such polynomials. */
  lemma NormalizeFixesCanonical(ms: Terms)
    requires Uniform(ms) && StrictlyDescending(ms) && NonZeroTerms(ms)
    ensures Normalize(ms) == ms
  {
    SortDescFixesStrict(ms);
    CombineFixesStrict(ms);
    StrictIsDistinct(ms);
    RidZerosIsSkip(ms, 0);
    assert ms[..0] == [] && ms[0..] == ms;
    SkipZerosFixesNonZero(ms);
  }

  /** As written, normalising twice is not normalising once: `[0*a, 0*b]`
      keeps `0*b` the first time and loses it the second. */
  lemma NormalizeNotIdempotent(a: Monomial, b: Monomial)
    requires a.coefficient == 0 && b.coefficient == 0 && SameDim(a, b) && Lex(a.degrees, b.degrees) == 1
    ensures Normalize([a, b]) == [b]
    ensures Normalize(Normalize([a, b])) == []
  {
    assert StrictlyDescending([a, b]);
    assert SortDesc([a, b]) == [a, b] by { SortDescFixesStrict([a, b]); }
    assert Combine([a, b]) == [a, b] by { CombineFixesStrict([a, b]); }
    assert RidZeros([a, b]) == [b] by {
      LexZeroIff(a.degrees, b.degrees);
      ZeroAfterZeroSurvives(a, b);
    }
    NormalizeSingle(b);
  }

  // ---------------------------------------------------------------------------
  // Arithmetic: `+`, `-` and `*` build a term list and normalise it

  /** `[m * g for g in q]`. */
  function ScaleAll(m: Monomial, q: Terms): (r: Terms)
    ensures |r| == |q| && forall k :: 0 <= k < |q| ==> r[k] == Mul(m, q[k])
  {
    if q == [] then [] else [Mul(m, q[0])] + ScaleAll(m, q[1..])
  }

  /** All pairwise products, `p` in the outer loop and `q` in the inner one. */
  function Products(p: Terms, q: Terms): Terms
  {
    if p == [] then [] else ScaleAll(p[0], q) + Products(p[1..], q)
  }

  /** The constant polynomial `c` (degrees all zero). */
  function Constant(n: nat, c: int): Terms
  {
    [Monomial(Zeros(n), c)]
  }

  lemma {:induction false} ScaleAllHasDim(m: Monomial, q: Terms, n: nat)
    requires |m.degrees| == n && HasDim(q, n)
    ensures HasDim(ScaleAll(m, q), n)
  {
    if q != [] {
      ScaleAllHasDim(m, q[1..], n);
    }
  }

  lemma {:induction false} ProductsHasDim(p: Terms, q: Terms, n: nat)
    requires HasDim(p, n) && HasDim(q, n)
    ensures HasDim(Products(p, q), n)
  {
    if p != [] {
      ScaleAllHasDim(p[0], q, n);
      ProductsHasDim(p[1..], q, n);
    }
  }

  /** `p + q`. */
  function PolyAdd(p: Terms, q: Terms, n: nat): (r: Terms)
    requires HasDim(p, n) && HasDim(q, n)
    ensures HasDim(r, n)
  {
    assert HasDim(p + q, n);
    NormalizeSpec(p + q, n);
    Normalize(p + q)
  }

  /** `p * q`. */
  function PolyMul(p: Terms, q: Terms, n: nat): (r: Terms)
    requires HasDim(p, n) && HasDim(q, n)
    ensures HasDim(r, n)
  {
    ProductsHasDim(p, q, n);
    NormalizeSpec(Products(p, q), n);
    Normalize(Products(p, q))
  }

  /** `Polynomial([Monomial([0 for _ in variables], -1)])`: the constant -1,
      already in normal form. */
  function MinusOne(n: nat): (r: Terms)
    ensures r == Constant(n, -1) && HasDim(r, n)
  {
    NormalizeFixesCanonical(Constant(n, -1));
    Normalize(Constant(n, -1))
  }

  /** `p - q`, written as `p + Polynomial([-1]) * q`. */
  function PolySub(p: Terms, q: Terms, n: nat): (r: Terms)
    requires HasDim(p, n) && HasDim(q, n)
    ensures HasDim(r, n)
  {
    PolyAdd(p, PolyMul(MinusOne(n), q, n), n)
  }

  lemma NormalizeEmpty()
    ensures Normalize([]) == []
  {
    assert SortDesc([]) == [] && Combine([]) == [] && RidZerosFrom([], 0) == [];
  }

  lemma {:induction false} ProductsEmpty(p: Terms)
    ensures Products(p, []) == []
  {
    if p != [] {
      ProductsEmpty(p[1..]);
      assert ScaleAll(p[0], []) == [];
    }
  }

  /** A product with the empty (zero) polynomial, on either side, is empty. */
  lemma PolyMulEmpty(p: Terms, n: nat)
    requires HasDim(p, n)
    ensures PolyMul([], p, n) == [] && PolyMul(p, [], n) == []
  {
    NormalizeEmpty();
    ProductsEmpty(p);
  }

  /** Subtracting the empty polynomial gives back a polynomial in normal form. */
  lemma PolySubEmpty(p: Terms, n: nat)
    requires HasDim(p, n) && StrictlyDescending(p) && NonZeroTerms(p)
    ensures PolySub(p, [], n) == p
  {
    PolyMulEmpty(MinusOne(n), n);
    assert p + [] == p;
    NormalizeFixesCanonical(p);
  }

  /** Convolution: the coefficient of `p * q` at `d` is the sum, over the terms
      `m` of `p` that divide `d`, of `m`'s coefficient times `q`'s coefficient
      at `d - m`. */
  function Conv(p: Terms, q: Terms, d: seq<nat>): int
  {
    if p == [] then 0
    else
      (if Dominates(d, p[0].degrees) then p[0].coefficient * CoeffAt(q, SubDegrees(d, p[0].degrees)) else 0)
      + Conv(p[1..], q, d)
  }

  /** Terms of dimension `n` say nothing about vectors of another length. */
  lemma CoeffAtOtherDim(ms: Terms, n: nat, d: seq<nat>)
    requires HasDim(ms, n) && |d| != n
    ensures CoeffAt(ms, d) == 0
  {
    CoeffAtAbsent(ms, d);
  }

  lemma Distribute(a: int, b: int, c: int)
    ensures a * (b + c) == a * b + a * c
  {
  }

  lemma {:induction false} CoeffAtScaleAll(m: Monomial, q: Terms, n: nat, d: seq<nat>)
    requires |m.degrees| == n && HasDim(q, n) && |d| == n
    ensures CoeffAt(ScaleAll(m, q), d)
         == if Dominates(d, m.degrees) then m.coefficient * CoeffAt(q, SubDegrees(d, m.degrees)) else 0
  {
    if q != [] {
      CoeffAtScaleAll(m, q[1..], n, d);
      AddDegreesReaches(m.degrees, q[0].degrees, d);
      if Dominates(d, m.degrees) {
        var e := SubDegrees(d, m.degrees);
        var x := if q[0].degrees == e then q[0].coefficient else 0;
        assert CoeffAt(q, e) == x + CoeffAt(q[1..], e);
        Distribute(m.coefficient, x, CoeffAt(q[1..], e));
      }
    }
  }

  lemma {:induction false} CoeffAtProducts(p: Terms, q: Terms, n: nat, d: seq<nat>)
    requires HasDim(p, n) && HasDim(q, n) && |d| == n
    ensures CoeffAt(Products(p, q), d) == Conv(p, q, d)
  {
    if p != [] {
      CoeffAtProducts(p[1..], q, n, d);
      CoeffAtAppend(ScaleAll(p[0], q), Products(p[1..], q), d);
      CoeffAtScaleAll(p[0], q, n, d);
    }
  }

  /** `p + q` has, at every degree vector, the sum of the two coefficients;
      like every normal form it is strictly descending. */
  lemma PolyAddCoeff(p: Terms, q: Terms, n: nat)
    requires HasDim(p, n) && HasDim(q, n)
    ensures HasDim(PolyAdd(p, q, n), n) && StrictlyDescending(PolyAdd(p, q, n))
    ensures forall d :: CoeffAt(PolyAdd(p, q, n), d) == CoeffAt(p, d) + CoeffAt(q, d)
  {
    NormalizeSpec(p + q, n);
    forall d ensures CoeffAt(PolyAdd(p, q, n), d) == CoeffAt(p, d) + CoeffAt(q, d) {
      CoeffAtAppend(p, q, d);
    }
  }

  /** `p * q` has, at every degree vector, the convolution of the two operands. */
  lemma PolyMulCoeff(p: Terms, q: Terms, n: nat)
    requires HasDim(p, n) && HasDim(q, n)
    ensures HasDim(PolyMul(p, q, n), n) && StrictlyDescending(PolyMul(p, q, n))
    ensures forall d :: |d| == n ==> CoeffAt(PolyMul(p, q, n), d) == Conv(p, q, d)
  {
    ProductsHasDim(p, q, n);
    NormalizeSpec(Products(p, q), n);
    forall d | |d| == n ensures CoeffAt(PolyMul(p, q, n), d) == Conv(p, q, d) {
      CoeffAtProducts(p, q, n, d);
    }
  }

  lemma {:induction false} SubZeros(d: seq<nat>)
    ensures Dominates(d, Zeros(|d|)) && SubDegrees(d, Zeros(|d|)) == d
  {
    var z := Zeros(|d|);
    var e := SubDegrees(d, z);
    assert |e| == |d| && forall i :: 0 <= i < |d| ==> e[i] == d[i];
  }

  /** `p - q` has, at every degree vector, the difference of the two coefficients. */
  lemma PolySubCoeff(p: Terms, q: Terms, n: nat)
    requires HasDim(p, n) && HasDim(q, n)
    ensures HasDim(PolySub(p, q, n), n) && StrictlyDescending(PolySub(p, q, n))
    ensures forall d :: CoeffAt(PolySub(p, q, n), d) == CoeffAt(p, d) - CoeffAt(q, d)
  {
    var c := MinusOne(n);
    PolyMulCoeff(c, q, n);
    var mq := PolyMul(c, q, n);
    PolyAddCoeff(p, mq, n);
    forall d ensures CoeffAt(PolySub(p, q, n), d) == CoeffAt(p, d) - CoeffAt(q, d) {
      if |d| == n {
        SubZeros(d);
        assert Conv(c, q, d) == -CoeffAt(q, d);
      } else {
        CoeffAtOtherDim(p, n, d);
        CoeffAtOtherDim(q, n, d);
        CoeffAtOtherDim(mq, n, d);
      }
    }
  }

  /** `p - p` has no term with a nonzero coefficient. */
  lemma SubSelfVanishes(p: Terms, n: nat)
    requires HasDim(p, n)
    ensures forall k :: 0 <= k < |PolySub(p, p, n)| ==> PolySub(p, p, n)[k].coefficient == 0
  {
    var r := PolySub(p, p, n);
    PolySubCoeff(p, p, n);
    StrictIsDistinct(r);
    forall k | 0 <= k < |r| ensures r[k].coefficient == 0 {
      CoeffAtDistinct(r, k);
    }
  }

  lemma {:induction false} ConvAdditive(p: Terms, q: Terms, r: Terms, s: Terms, d: seq<nat>)
    requires forall e :: CoeffAt(s, e) == CoeffAt(q, e) + CoeffAt(r, e)
    ensures Conv(p, s, d) == Conv(p, q, d) + Conv(p, r, d)
  {
    if p != [] {
      ConvAdditive(p[1..], q, r, s, d);
      if Dominates(d, p[0].degrees) {
        var e := SubDegrees(d, p[0].degrees);
        assert CoeffAt(s, e) == CoeffAt(q, e) + CoeffAt(r, e);
        Distribute(p[0].coefficient, CoeffAt(q, e), CoeffAt(r, e));
      }
    }
  }

  /** Multiplication distributes over addition, coefficient by coefficient. */
  lemma MulDistributesOverAdd(p: Terms, q: Terms, r: Terms, n: nat)
    requires HasDim(p, n) && HasDim(q, n) && HasDim(r, n)
    ensures forall d :: CoeffAt(PolyMul(p, PolyAdd(q, r, n), n), d)
                     == CoeffAt(PolyAdd(PolyMul(p, q, n), PolyMul(p, r, n), n), d)
  {
    PolyAddCoeff(q, r, n);
    var s := PolyAdd(q, r, n);
    PolyMulCoeff(p, q, n);
    PolyMulCoeff(p, r, n);
    PolyMulCoeff(p, s, n);
    PolyAddCoeff(PolyMul(p, q, n), PolyMul(p, r, n), n);
    forall d ensures CoeffAt(PolyMul(p, s, n), d)
                  == CoeffAt(PolyAdd(PolyMul(p, q, n), PolyMul(p, r, n), n), d)
    {
      if |d| == n {
        ConvAdditive(p, q, r, s, d);
      } else {
        CoeffAtOtherDim(PolyMul(p, s, n), n, d);
        CoeffAtOtherDim(PolyMul(p, q, n), n, d);
        CoeffAtOtherDim(PolyMul(p, r, n), n, d);
      }
    }
  }

  // ---------------------------------------------------------------------------
  // Polynomial.__eq__

  /** `p == q` for polynomials: the same number of terms and, position by
      position, terms that compare `==` in the term order. Coefficients are
      not looked at. */
  predicate PolyEq(p: Terms, q: Terms)
    requires |p| == |q| ==> forall i :: 0 <= i < |p| ==> SameDim(p[i], q[i])
  {
    |p| == |q| && forall i :: 0 <= i < |p| ==> !Ne(p[i], q[i])
  }

  /** Polynomial equality is equality of the degree-vector sequences. */
  lemma PolyEqIff(p: Terms, q: Terms)
    requires |p| == |q| ==> forall i :: 0 <= i < |p| ==> SameDim(p[i], q[i])
    ensures PolyEq(p, q) <==> |p| == |q| && forall i :: 0 <= i < |p| ==> p[i].degrees == q[i].degrees
  {
    if |p| == |q| {
      forall i | 0 <= i < |p| ensures !Ne(p[i], q[i]) <==> p[i].degrees == q[i].degrees {
        LexZeroIff(p[i].degrees, q[i].degrees);
      }
    }
  }

  lemma {:induction false} AddZeros(d: seq<nat>)
    ensures AddDegrees(Zeros(|d|), d) == d
  {
    var e := AddDegrees(Zeros(|d|), d);
    assert |e| == |d| && forall i :: 0 <= i < |d| ==> e[i] == d[i];
  }

  /** `Polynomial([-1]) * p` flips the sign of every coefficient of a polynomial
      in normal form; the result is `==` to `p` although, when `p` has a term,
      it is a different polynomial. */
  lemma NegationIsEqual(p: Terms, n: nat)
    requires HasDim(p, n) && StrictlyDescending(p) && NonZeroTerms(p)
    ensures var r := PolyMul(MinusOne(n), p, n);
      && |r| == |p|
      && (forall k :: 0 <= k < |p| ==> r[k] == Monomial(p[k].degrees, -p[k].coefficient))
      && PolyEq(p, r)
      && (p != [] ==> r != p)
  {
    var c := MinusOne(n);
    var s := ScaleAll(c[0], p);
    assert Products(c, p) == s by {
      assert c[1..] == [];
    }
    forall k | 0 <= k < |p| ensures s[k] == Monomial(p[k].degrees, -p[k].coefficient) {
      AddZeros(p[k].degrees);
    }
    assert StrictlyDescending(s);
    NormalizeFixesCanonical(s);
    PolyEqIff(p, s);
  }

  // Small computations used by the worked examples

  lemma NormalizeSteps(ms: Terms, s: Terms, c: Terms)
    requires Uniform(ms) && SortDesc(ms) == s && Combine(s) == c
    ensures Normalize(ms) == RidZeros(c)
  {
  }

  lemma InsertFront(m: Monomial, ms: Terms)
    requires HasDim(ms, |m.degrees|) && ms != [] && Lex(m.degrees, ms[0].degrees) >= 0
    ensures Insert(m, ms) == [m] + ms
  {
  }

  lemma InsertPast(m: Monomial, ms: Terms)
    requires HasDim(ms, |m.degrees|) && ms != [] && Lex(m.degrees, ms[0].degrees) < 0
    ensures Insert(m, ms) == [ms[0]] + Insert(m, ms[1..])
  {
  }

  lemma SortFour(a: Monomial, b: Monomial, n: nat)
    requires |a.degrees| == n && |b.degrees| == n && Lex(a.degrees, b.degrees) == 1
    ensures var na, nb := Monomial(a.degrees, -a.coefficient), Monomial(b.degrees, -b.coefficient);
      SortDesc([a, b, na, nb]) == [a, na, b, nb]
  {
    var na, nb := Monomial(a.degrees, -a.coefficient), Monomial(b.degrees, -b.coefficient);
    var t := [b, na, nb];
    assert [a, b, na, nb] == [a] + t;
    assert SortDesc([a] + t) == Insert(a, SortDesc(t));
    SortThree(a, b, n);
    LexZeroIff(a.degrees, a.degrees);
    InsertFront(a, [na, b, nb]);
  }

  lemma SortThree(a: Monomial, b: Monomial, n: nat)
    requires |a.degrees| == n && |b.degrees| == n && Lex(a.degrees, b.degrees) == 1
    ensures var na, nb := Monomial(a.degrees, -a.coefficient), Monomial(b.degrees, -b.coefficient);
      SortDesc([b, na, nb]) == [na, b, nb]
  {
    var na, nb := Monomial(a.degrees, -a.coefficient), Monomial(b.degrees, -b.coefficient);
    SortTwo(a, b, n);
    InsertSecond(a, b, n);
  }

  lemma SortTwo(a: Monomial, b: Monomial, n: nat)
    requires |a.degrees| == n && |b.degrees| == n && Lex(a.degrees, b.degrees) == 1
    ensures var na, nb := Monomial(a.degrees, -a.coefficient), Monomial(b.degrees, -b.coefficient);
      SortDesc([na, nb]) == [na, nb]
  {
    var na, nb := Monomial(a.degrees, -a.coefficient), Monomial(b.degrees, -b.coefficient);
    assert StrictlyDescending([na, nb]);
    SortDescFixesStrict([na, nb]);
  }

  lemma InsertSecond(a: Monomial, b: Monomial, n: nat)
    requires |a.degrees| == n && |b.degrees| == n && Lex(a.degrees, b.degrees) == 1
    ensures var na, nb := Monomial(a.degrees, -a.coefficient), Monomial(b.degrees, -b.coefficient);
      Insert(b, [na, nb]) == [na, b, nb]
  {
    var na, nb := Monomial(a.degrees, -a.coefficient), Monomial(b.degrees, -b.coefficient);
    LexSwap(a.degrees, b.degrees);
    LexZeroIff(b.degrees, b.degrees);
    InsertPast(b, [na, nb]);
    assert [na, nb][1..] == [nb];
    InsertFront(b, [nb]);
  }

  lemma CombineFour(a: Monomial, b: Monomial, n: nat)
    requires |a.degrees| == n && |b.degrees| == n && Lex(a.degrees, b.degrees) == 1
    ensures var na, nb := Monomial(a.degrees, -a.coefficient), Monomial(b.degrees, -b.coefficient);
      Combine([a, na, b, nb]) == [Monomial(a.degrees, 0), Monomial(b.degrees, 0)]
  {
    var na, nb := Monomial(a.degrees, -a.coefficient), Monomial(b.degrees, -b.coefficient);
    var za, zb := Monomial(a.degrees, 0), Monomial(b.degrees, 0);
    LexZeroIff(a.degrees, b.degrees);
    var s1 := [] + [a];
    var s2 := s1 + [na];
    var s3 := s2 + [b];
    var s4 := s3 + [nb];
    CombineSnoc([], a);
    CombineSnoc(s1, na);
    CombineSnoc(s2, b);
    CombineSnoc(s3, nb);
    assert MergeLast([], a) == [a];
    assert MergeLast([a], na) == [za];
    assert MergeLast([za], b) == [za, b];
    assert MergeLast([za, b], nb) == [za, zb];
    assert s4 == [a, na, b, nb];
  }
}
