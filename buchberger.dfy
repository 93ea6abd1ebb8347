/** The completion loop: reducing a new polynomial against every element of
    the current basis (keep_reducing), and Buchberger's loop over ordered
    pairs of basis elements (buchberger). A basis is a set of polynomials in
    normal form; the dimension `n` is the length of the variable list. */
module Buchberger {
  import opened Monomials
  import opened Polynomials
  import opened Reduction

  /** Every element of the basis has a leading term and dimension `n`. */
  predicate WellFormed(G: set<Terms>, n: nat) {
    forall p :: p in G ==> p != [] && HasDim(p, n)
  }

  /** The polynomial reached after `k` rounds of `h = reduce(h, g)` under
      `while can_reduce(h, g)`, or nothing when the loop stops earlier. */
  function ReduceSteps(f: Terms, g: Terms, n: nat, k: nat): (r: Option<Terms>)
    requires HasDim(f, n) && HasDim(g, n) && g != []
    ensures r != None ==> HasDim(r.value, n)
  {
    if k == 0 then Some(f)
    else match ReduceSteps(f, g, n, k - 1)
      case None => None
      case Some(h) => Reduce(h, g, n)
  }

  lemma ReduceStepsNext(f: Terms, g: Terms, n: nat, k: nat, h: Terms)
    requires HasDim(f, n) && HasDim(g, n) && g != [] && ReduceSteps(f, g, n, k) == Some(h)
    ensures HasDim(h, n) && ReduceSteps(f, g, n, k + 1) == Reduce(h, g, n)
  {
  }

  /** `h` is what one or more rounds of reduction of `f` by `g` give. */
  ghost predicate ReducedBy(f: Terms, h: Terms, g: Terms, n: nat)
    requires HasDim(f, n) && HasDim(g, n) && g != []
  {
    exists k :: k >= 1 && ReduceSteps(f, g, n, k) == Some(h)
  }

  /** `h` is what one or more reductions of `f` by a single element of `G` give. */
  ghost predicate ReducedFrom(f: Terms, h: Terms, G: set<Terms>, n: nat)
    requires HasDim(f, n)
  {
    exists g :: g in G && g != [] && HasDim(g, n) && ReducedBy(f, h, g, n)
  }

  /** `f` is accounted for by the basis: it is zero, or a member, or some
      nonzero reduction of it is a member. */
  ghost predicate Represented(f: Terms, G: set<Terms>, n: nat)
    requires HasDim(f, n)
  {
    IsZero(f) || f in G || exists h :: h in G && !IsZero(h) && ReducedFrom(f, h, G, n)
  }

  /** Growing the basis keeps every polynomial it accounted for accounted for. */
  lemma RepresentedGrows(f: Terms, G: set<Terms>, G': set<Terms>, n: nat)
    requires HasDim(f, n) && G <= G' && Represented(f, G, n)
    ensures Represented(f, G', n)
  {
    if !IsZero(f) && f !in G {
      var h :| h in G && !IsZero(h) && ReducedFrom(f, h, G, n);
      var g :| g in G && g != [] && HasDim(g, n) && ReducedBy(f, h, g, n);
      assert ReducedFrom(f, h, G', n);
    }
  }

  /** The inner loop of keep_reducing: `h = f`, then `h = reduce(h, g)` while
      `can_reduce(h, g)`, adding every nonzero `h` to the basis. `added` says
      whether anything was; `complete` is false when `fuel` rounds did not
      reach the end of the loop. */
  method ReduceByAndCollect(f: Terms, g: Terms, G: set<Terms>, n: nat, fuel: nat)
    returns (G': set<Terms>, added: bool, complete: bool)
    requires HasDim(f, n) && HasDim(g, n) && g != [] && WellFormed(G, n)
    ensures WellFormed(G', n) && G <= G'
    ensures forall h :: h in G' - G ==> !IsZero(h) && ReducedBy(f, h, g, n)
    ensures added ==> exists h :: h in G' && !IsZero(h) && ReducedBy(f, h, g, n)
    ensures complete && !added ==> G' == G
  {
    G' := G;
    added := false;
    complete := true;
    var h := f;
    var k := 0;
    while CanReduce(h, g).0
      invariant HasDim(h, n) && k <= fuel && ReduceSteps(f, g, n, k) == Some(h)
      invariant WellFormed(G', n) && G <= G'
      invariant forall h :: h in G' - G ==> !IsZero(h) && ReducedBy(f, h, g, n)
      invariant added ==> exists h :: h in G' && !IsZero(h) && ReducedBy(f, h, g, n)
      invariant !added ==> G' == G
      decreases fuel - k
    {
      if k == fuel {
        complete := false;
        return;
      }
      var r := Reduce(h, g, n);
      assert ReduceSteps(f, g, n, k + 1) == r && r != None by {
        ReduceStepsNext(f, g, n, k, h);
      }
      h := r.value;
      k := k + 1;
      if !IsZero(h) {
        assert ReducedBy(f, h, g, n);
        CollectOne(f, g, G, G', n, h);
        added := true;
        G' := G' + {h};
      }
    }
  }

  /** One step of ReduceByAndCollect's bookkeeping: adding a nonzero
      reduction of `f` keeps the basis well formed and every addition a
      nonzero reduction of `f`. */
  lemma CollectOne(f: Terms, g: Terms, G: set<Terms>, G': set<Terms>, n: nat, h: Terms)
    requires HasDim(f, n) && HasDim(g, n) && g != [] && HasDim(h, n) && !IsZero(h)
    requires WellFormed(G', n) && G <= G' && ReducedBy(f, h, g, n)
    requires forall h' :: h' in G' - G ==> !IsZero(h') && ReducedBy(f, h', g, n)
    ensures WellFormed(G' + {h}, n) && G <= G' + {h}
    ensures forall h' :: h' in G' + {h} - G ==> !IsZero(h') && ReducedBy(f, h', g, n)
  {
  }

  /** `keep_reducing(f, grob_set)`: for every element `g` of a snapshot of the
      basis, reduce `f` by `g` as long as possible, adding every nonzero
      intermediate result; if none was added, add `f` itself unless it is zero.
      The source's inner loop need not terminate (see ReduceStalls), so each
      one runs at most `fuel` rounds here; `complete` is false when one was cut
      short, and then the method returns at once. */
  method KeepReducing(f: Terms, G: set<Terms>, n: nat, fuel: nat) returns (G': set<Terms>, complete: bool)
    requires HasDim(f, n) && WellFormed(G, n)
    ensures WellFormed(G', n) && G <= G'
    ensures forall h :: h in G' - G ==> !IsZero(h) && (h == f || ReducedFrom(f, h, G, n))
    ensures complete ==> Represented(f, G', n)
  {
    G' := G;
    complete := true;
    var didAdd := false;
    var todo := G;
    while todo != {}
      invariant todo <= G
      invariant WellFormed(G', n) && G <= G'
      invariant forall h :: h in G' - G ==> !IsZero(h) && ReducedFrom(f, h, G, n)
      invariant didAdd ==> exists h :: h in G' && !IsZero(h) && ReducedFrom(f, h, G, n)
      decreases |todo|
    {
      var g :| g in todo;
      todo := todo - {g};
      var G1 := G';
      var added;
      G', added, complete := ReduceByAndCollect(f, g, G', n, fuel);
      forall h | h in G' - G ensures !IsZero(h) && ReducedFrom(f, h, G, n) {
        if h !in G1 {
          assert ReducedBy(f, h, g, n);
        }
      }
      if added {
        ghost var h :| h in G' && !IsZero(h) && ReducedBy(f, h, g, n);
        assert ReducedFrom(f, h, G, n);
        didAdd := true;
      }
      if !complete {
        return;
      }
    }
    if !didAdd && !IsZero(f) && f !in G' {
      G' := G' + {f};
    }
    if didAdd {
      ghost var h :| h in G' && !IsZero(h) && ReducedFrom(f, h, G, n);
      ghost var g :| g in G && g != [] && HasDim(g, n) && ReducedBy(f, h, g, n);
      assert ReducedFrom(f, h, G', n);
    }
  }

  /** The inner test of all_pairs_considered: every ordered pair of basis
      elements that differ under polynomial `==` (which compares degree
      vectors only) has its S-polynomial recorded. */
  predicate AllPairsConsidered(G: set<Terms>, S: map<(Terms, Terms), Terms>, n: nat)
    requires WellFormed(G, n)
  {
    forall fi, fj :: fi in G && fj in G && !PolyEq(fi, fj) ==> (fi, fj) in S
  }

  /** `all_pairs_considered()`: the nested loop over the basis that answers
      false at the first ordered pair differing under `==` that has no
      recorded S-polynomial, and true when there is none. */
  method CheckAllPairs(G: set<Terms>, S: map<(Terms, Terms), Terms>, n: nat) returns (b: bool)
    requires WellFormed(G, n)
    ensures b <==> AllPairsConsidered(G, S, n)
  {
    var outer := G;
    while outer != {}
      invariant outer <= G
      invariant forall fi, fj :: fi in G - outer && fj in G && !PolyEq(fi, fj) ==> (fi, fj) in S
      decreases |outer|
    {
      var fi :| fi in outer;
      var inner := G;
      while inner != {}
        invariant inner <= G
        invariant forall fj :: fj in G - inner && !PolyEq(fi, fj) ==> (fi, fj) in S
        decreases |inner|
      {
        var fj :| fj in inner;
        inner := inner - {fj};
        if PolyEq(fi, fj) {
          continue;
        }
        if (fi, fj) !in S {
          return false;
        }
      }
      outer := outer - {fi};
    }
    return true;
  }

  /** Every recorded S-polynomial belongs to a pair of basis elements that
      differ under `==`, and is that pair's S-polynomial as `S_polynomial`
      computes it. */
  predicate RecordedPairs(G: set<Terms>, S: map<(Terms, Terms), Terms>, n: nat)
    requires WellFormed(G, n)
  {
    forall key :: key in S ==>
      key.0 in G && key.1 in G && !PolyEq(key.0, key.1) && S[key] == SPolynomial(key.0, key.1, n)
  }

  /** `buchberger(gen_set)`: starting from the generators, compute the
      S-polynomial of every ordered pair not yet recorded and feed it to
      keep_reducing, round after round, until every pair is recorded. At most
      `fuel` rounds are run and each keep_reducing gets `fuel` as well;
      `converged` says the loop ended by its own condition. */
  method Buchberger(gen: set<Terms>, n: nat, fuel: nat)
    returns (G: set<Terms>, S: map<(Terms, Terms), Terms>, converged: bool)
    requires WellFormed(gen, n)
    ensures gen <= G && WellFormed(G, n)
    ensures RecordedPairs(G, S, n)
    ensures converged ==> AllPairsConsidered(G, S, n)
    ensures converged ==> forall key :: key in S ==> Represented(S[key], G, n)
  {
    G := gen;
    S := map[];
    converged := false;
    var rounds := 0;
    var done := CheckAllPairs(G, S, n);
    while !done
      invariant gen <= G && WellFormed(G, n) && RecordedPairs(G, S, n)
      invariant done <==> AllPairsConsidered(G, S, n)
      invariant forall key :: key in S ==> Represented(S[key], G, n)
      invariant rounds <= fuel
      decreases fuel - rounds
    {
      if rounds == fuel {
        return;
      }
      rounds := rounds + 1;
      var outer := G;
      while outer != {}
        invariant outer <= G
        invariant gen <= G && WellFormed(G, n) && RecordedPairs(G, S, n)
        invariant forall key :: key in S ==> Represented(S[key], G, n)
        decreases |outer|
      {
        var fi :| fi in outer;
        outer := outer - {fi};
        var inner := G;
        while inner != {}
          invariant inner <= G && outer <= G && fi in G
          invariant gen <= G && WellFormed(G, n) && RecordedPairs(G, S, n)
          invariant forall key :: key in S ==> Represented(S[key], G, n)
          decreases |inner|
        {
          var fj :| fj in inner;
          inner := inner - {fj};
          if PolyEq(fi, fj) || (fi, fj) in S {
            continue;
          }
          var complete;
          G, S, complete := ConsiderPair(fi, fj, G, S, n, fuel);
          if !complete {
            return;
          }
        }
      }
      done := CheckAllPairs(G, S, n);
    }
    converged := true;
  }

  /** The body of buchberger's innermost loop for a pair not yet recorded:
      record its S-polynomial and feed it to keep_reducing. Every recorded
      S-polynomial stays accounted for by the grown basis. */
  method ConsiderPair(fi: Terms, fj: Terms, G: set<Terms>, S: map<(Terms, Terms), Terms>, n: nat, fuel: nat)
    returns (G': set<Terms>, S': map<(Terms, Terms), Terms>, complete: bool)
    requires WellFormed(G, n) && RecordedPairs(G, S, n)
    requires fi in G && fj in G && !PolyEq(fi, fj) && (fi, fj) !in S
    requires forall key :: key in S ==> Represented(S[key], G, n)
    ensures G <= G' && WellFormed(G', n) && RecordedPairs(G', S', n)
    ensures S' == S[(fi, fj) := SPolynomial(fi, fj, n)]
    ensures complete ==> forall key :: key in S' ==> Represented(S'[key], G', n)
  {
    var s := SPolynomial(fi, fj, n);
    S' := S[(fi, fj) := s];
    G', complete := KeepReducing(s, G, n, fuel);
    RecordPair(fi, fj, G, G', S, n);
    if complete {
      forall key | key in S' ensures Represented(S'[key], G', n) {
        if key != (fi, fj) {
          RepresentedGrows(S'[key], G, G', n);
        }
      }
    }
  }

  /** Recording the S-polynomial of a pair of basis elements that differ
      under `==` keeps the record consistent with any larger basis. */
  lemma RecordPair(fi: Terms, fj: Terms, G: set<Terms>, G': set<Terms>, S: map<(Terms, Terms), Terms>, n: nat)
    requires WellFormed(G, n) && WellFormed(G', n) && G <= G' && RecordedPairs(G, S, n)
    requires fi in G && fj in G && !PolyEq(fi, fj)
    ensures RecordedPairs(G', S[(fi, fj) := SPolynomial(fi, fj, n)], n)
  {
    var S' := S[(fi, fj) := SPolynomial(fi, fj, n)];
    forall key | key in S'
      ensures key.0 in G' && key.1 in G' && !PolyEq(key.0, key.1)
      ensures S'[key] == SPolynomial(key.0, key.1, n)
    {
      if key != (fi, fj) {
        assert key in S;
      }
    }
  }
}
