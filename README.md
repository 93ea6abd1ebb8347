# Gröbner bases over the integers, modelled in Dafny

This project models the core of a small Python implementation of Buchberger's
algorithm, made of two files:
- `polynomial.py` provides monomials under the lexicographic term order, and
  polynomials with integer coefficients. A polynomial is built by a normalising
  constructor, supports `+`, `-`, `*` and a coefficient-blind `==`, and has a
  printer and a parser for the text form.
- `grobner.py` provides the divisibility test, the search for a reducible
  term, one reduction step, `degree_lcm`, `is_zero`, the S-polynomial, and the
  two drivers. `keep_reducing` grows a basis set; `buchberger` is the
  completion loop.

Modules, in dependency order:
- `Monomials` (monomials.dfy) covers degree vectors, `lexicographic_helper`,
  `Monomial.__mul__` and the six comparison operators.
- `Polynomials` (polynomials.dfy) models a polynomial as a term list (`Terms`).
  It holds the normalisation the constructor performs, which is sort
  descending, then combine like terms, then get rid of zeros. It also holds
  `+`, `-`, `*` and `==` on term lists. `CoeffAt(ms, d)`, the sum of the
  coefficients at degree vector `d`, gives a term list its meaning. A term
  list is called canonical when its degree vectors all have the dimension at
  hand, it is strictly descending, and no coefficient is 0.
- `PolynomialClass` (polynomial_class.dfy) holds the `Polynomial` class. Its
  field `monomials` is updated in place by `CombineLikeTerms`, `GetRidOfZeros`
  and `Simplify`. Its loops (`__mul__`, `from_string`, `__str__`,
  `combine_like_terms`) are methods proved against the functions of
  `Polynomials` and `Text`.
- `Text` (text.dfy) models `str` of integers and monomials, `__str__`,
  `str.split`, `str.strip`, `int` and `from_string`, with the round trip
  between printer and parser.
- `Reduction` (reduction.dfy) contains `is_multiple`, `can_reduce`, `reduce`,
  `degree_lcm`, `is_zero` and `S_polynomial`.
- `Buchberger` (buchberger.dfy) contains `keep_reducing` and `buchberger`, as
  methods over a set of term lists and a map of recorded pairs.
- `AsWritten` (as_written.dfy) holds concrete consequences of
  `get_rid_of_zeros` as written, as it is used through `__sub__`.

The module-global `variables` becomes a parameter. The grobner layer and the
arithmetic take the dimension `n`, which is the length of the variable list;
printing and parsing take `vars: seq<string>`. Division in `reduce` is
`int(a / b)`, which is modelled as truncation toward zero (`TruncDiv`).

## Model

| member | source | states |
|---|---|---|
| Monomials.Lex | polynomial.py:3-12 | the lexicographic comparison of equal-length degree vectors is -1, 0 or 1 |
| Monomials.LexZeroIff | polynomial.py:3-12 | the comparison is 0 exactly when the two degree vectors are identical |
| Monomials.LexSwap | polynomial.py:3-12 | swapping the arguments negates the result |
| Monomials.LexTrans | polynomial.py:3-12 | the order is transitive, and strictly so when either step is strict |
| Monomials.LexAboveIsFirstDifference | polynomial.py:3-12 | the result is 1 exactly when, at the first position where the vectors differ, the first vector is larger |
| Monomials.AddDegrees | polynomial.py:30 | the zip of two degree vectors, position by position summed, as long as the shorter one |
| Monomials.SubDegrees | grobner.py:39 | the zip of two degree vectors, position by position subtracted |
| Monomials.Mul | polynomial.py:29-32 | a product's degrees are the sums over the shorter length; its coefficient is the product of the coefficients |
| Monomials.AddDegreesReaches | polynomial.py:29-32 | a product of degree vectors `a + g` equals `d` exactly when `d` dominates `a` and `g` is `d - a` |
| Monomials.LexAddInvariant | polynomial.py:3-12 | adding the same degree vector to both sides keeps the comparison |
| Monomials.MulPreservesOrder | polynomial.py:29-32 | multiplying two monomials by the same monomial keeps their order |
| Monomials.EqIffSameDegrees | polynomial.py:43-59 | monomial `==` holds exactly when the degree vectors agree, whatever the coefficients, and then `<=` and `>=` hold and `<`, `>` and `!=` do not |
| Monomials.Trichotomy | polynomial.py:43-59 | exactly one of `<`, `==` and `>` holds, and `a < b` exactly when `b > a` |
| Polynomials.StrictIsDistinct | polynomial.py:109-128 | strictly descending terms have pairwise different degree vectors |
| Polynomials.CoeffAtAppend | polynomial.py:150-153 | the coefficient of a concatenation is the sum of the coefficients of its parts |
| Polynomials.CoeffAtDistinct | polynomial.py:109-128 | with distinct degree vectors, the coefficient at a term's own degrees is that term's coefficient |
| Polynomials.InsertPermutes | polynomial.py:70 | insertion adds exactly the inserted term to the multiset of terms |
| Polynomials.InsertPos | polynomial.py:70 | the insertion point lies after every term strictly above the new term and at the first term it is at least |
| Polynomials.InsertAt | polynomial.py:70 | inserting splices the new term in at that point and moves nothing else, so it lands before its equals and equal terms keep input order |
| Polynomials.SortDescSorted | polynomial.py:70 | the sorted list is descending and a permutation of the input |
| Polynomials.SortDesc | polynomial.py:70 | `sorted(..., reverse=True)` keeps the number of terms and their dimension |
| Polynomials.CoeffAtSort | polynomial.py:70 | sorting keeps the coefficient at every degree vector |
| Polynomials.SortDescFixesStrict | polynomial.py:70 | a strictly descending list is already sorted |
| Polynomials.CoeffAtCombine | polynomial.py:109-128 | combining keeps the coefficient at every degree vector, that is, it sums the coefficients of like terms |
| Polynomials.CombineStrict | polynomial.py:109-128 | combining a descending list gives strictly descending degree vectors, so no repeats |
| Polynomials.CombineFixesStrict | polynomial.py:109-128 | a strictly descending list is left unchanged |
| Polynomials.MergeLast | polynomial.py:115-127 | adding a term to the combined list opens a new entry unless the last entry has the same degree vector, and the last entry then has that vector |
| Polynomials.Combine | polynomial.py:109-128 | combining never lengthens the list, and the last combined term has the degree vector of the last input term |
| Polynomials.RemoveFirstLike | polynomial.py:133 | `list.remove` removes the first element that compares `==`, and never lengthens the list |
| Polynomials.RemoveFirstLikeAt | polynomial.py:133 | when no earlier term has the same degrees, removal takes out exactly position `i` |
| Polynomials.RidZerosIsSkip | polynomial.py:130-133 | with distinct degree vectors, removing while iterating drops each zero term and leaves the next term unexamined |
| Polynomials.RidZeros | polynomial.py:130-133 | removing zeros never lengthens the list |
| Polynomials.RidZerosFixesNonZero | polynomial.py:130-133 | a list with no zero coefficient from the scan position on is left unchanged |
| Polynomials.CoeffAtSkip | polynomial.py:130-133 | dropping zero terms keeps every coefficient |
| Polynomials.SkipZerosKeeps | polynomial.py:130-133 | the result keeps every nonzero term and adds none, and strict descent is kept |
| Polynomials.SkipZerosFixesNonZero | polynomial.py:130-133 | a list without zero terms is unchanged |
| Polynomials.ZeroAfterZeroSurvives | polynomial.py:130-133 | of two consecutive zero terms, the second survives |
| Polynomials.NormalizeSpec | polynomial.py:69-71 | the constructor keeps the dimension, yields strictly descending distinct degree vectors and the same coefficient at every degree vector, never lengthens the list, and keeps every nonzero combined term |
| Polynomials.Normalize | polynomial.py:69-71 | the constructor never produces more terms than it was given |
| Polynomials.CombinedSortedStrict | polynomial.py:69-71 | sorting and then combining gives strictly descending, distinct degree vectors |
| Polynomials.NormalizeSingle | polynomial.py:69-71 | a one-term polynomial keeps its term if the coefficient is nonzero, and is empty otherwise |
| Polynomials.NormalizeFixesCanonical | polynomial.py:69-71 | strictly descending terms with nonzero coefficients are left unchanged |
| Polynomials.NormalizeNotIdempotent | polynomial.py:130-133 | two zero terms normalise to one zero term, and normalising again empties the list, so normalisation is not idempotent |
| Polynomials.ScaleAll | polynomial.py:145-147 | one row of `__mul__`: each term of `q` multiplied by `m`, in order |
| Polynomials.ProductsEmpty | polynomial.py:139-148 | no products with an empty right factor |
| Polynomials.PolyMulEmpty | polynomial.py:139-148 | a product with the empty polynomial on either side is empty |
| Polynomials.PolySubEmpty | polynomial.py:155-156 | subtracting the empty polynomial leaves a strictly descending polynomial without zero terms unchanged |
| Polynomials.CoeffAtOtherDim | polynomial.py:18 | a polynomial has no coefficient at a degree vector of another length |
| Polynomials.CoeffAtScaleAll | polynomial.py:145-147 | the coefficient of `m * q` at `d` is `m`'s coefficient times `q`'s coefficient at `d - m`, or 0 when `d` does not dominate `m` |
| Polynomials.CoeffAtProducts | polynomial.py:139-148 | the coefficient of the list of all products is the convolution of the two coefficient functions |
| Polynomials.PolyAddCoeff | polynomial.py:150-153 | `p + q` is strictly descending, and its coefficient at every degree vector is the sum |
| Polynomials.PolyMulCoeff | polynomial.py:139-148 | `p * q` is strictly descending, and its coefficient at every degree vector is the convolution |
| Polynomials.PolySubCoeff | polynomial.py:155-156 | `p - q` is strictly descending, and its coefficient at every degree vector is the difference |
| Polynomials.PolyAdd | polynomial.py:150-153 | `p + q` keeps the dimension `n` |
| Polynomials.PolyMul | polynomial.py:139-148 | `p * q` keeps the dimension `n` |
| Polynomials.MinusOne | polynomial.py:156 | the multiplier in `__sub__` is the constant -1 of dimension `n` |
| Polynomials.PolySub | polynomial.py:155-156 | `p - q` keeps the dimension `n` |
| Polynomials.SubSelfVanishes | polynomial.py:155-156 | `p - p` has no term with a nonzero coefficient |
| Polynomials.ConvAdditive | polynomial.py:139-153 | the convolution is additive in its right argument |
| Polynomials.MulDistributesOverAdd | polynomial.py:139-153 | `p * (q + r)` and `p * q + p * r` have the same coefficients |
| Polynomials.PolyEqIff | polynomial.py:158-164 | polynomial `==` holds exactly when the lengths agree and the degree vectors agree position by position, whatever the coefficients |
| Polynomials.NegationIsEqual | polynomial.py:155-164 | for canonical `p`, `Polynomial([-1]) * p` negates every coefficient and keeps the degrees, compares `==` to `p`, and differs from it when `p` is nonzero |
| AsWritten.NegateTwo | polynomial.py:155-156 | -1 times a canonical two-term polynomial is the two negated terms |
| AsWritten.NormalizeWithNegation | polynomial.py:130-133 | `a, b, -a, -b` normalises to a single zero term at `b`'s degrees |
| AsWritten.SubSelfKeepsZeroTerm | polynomial.py:155-156 | subtracting a two-term polynomial from itself leaves one term with coefficient 0 |
| PolynomialClass.CombineRun | polynomial.py:115-127 | a run of terms with equal degrees is combined into one term carrying the sum of the run's coefficients |
| PolynomialClass.CombineAppendRun | polynomial.py:115-127 | appending a run after a different degree vector adds one combined term |
| PolynomialClass.ProductsSnoc | polynomial.py:145-147 | the outer loop of `__mul__` after one more term of `self` appends that term's row of products |
| PolynomialClass.ScanRun | polynomial.py:117-124 | the inner `while` finds the end `j` of the run of terms equal to term `i`, with the sum `c` of its coefficients; `j` stops at the first different term or at the end |
| PolynomialClass.ReadMonomial | polynomial.py:82-87 | one piece is read as the parser function reads it: coefficient and degrees, or an error |
| PolynomialClass.Polynomial.constructor | polynomial.py:69-71 | the new polynomial holds the normalised terms: strictly descending, with the input's coefficient at every degree vector |
| PolynomialClass.Polynomial.FromString | polynomial.py:73-88 | returns a polynomial exactly when the text parses, and then a fresh one holding the parsed, normalised terms |
| PolynomialClass.Polynomial.ToString | polynomial.py:90-101 | the loop builds exactly the printed form: nonzero terms joined by `+ `, stripped, or `0` |
| PolynomialClass.Polynomial.CombineLikeTerms | polynomial.py:109-128 | `monomials` becomes the combined list of the old terms (a one-term list is untouched) |
| PolynomialClass.Polynomial.GetRidOfZeros | polynomial.py:130-133 | `monomials` becomes the old list with removal during iteration applied |
| PolynomialClass.Polynomial.Simplify | polynomial.py:135-137 | `monomials` becomes the old list combined, then rid of zeros |
| PolynomialClass.Polynomial.Multiply | polynomial.py:139-148 | the nested loops give a fresh polynomial whose terms are the product's and whose coefficients are the convolution |
| PolynomialClass.Polynomial.Add | polynomial.py:150-153 | a fresh polynomial whose coefficients are the sums |
| PolynomialClass.Polynomial.Subtract | polynomial.py:155-156 | a fresh polynomial whose coefficients are the differences |
| PolynomialClass.Polynomial.Equals | polynomial.py:158-164 | the loop answers true exactly when the lengths agree and the degree vectors agree position by position |
| Text.DigitChar | polynomial.py:38 | the decimal digit of a number below 10 |
| Text.NatStr | polynomial.py:38 | `str` of a natural number is a nonempty digit string without a leading zero |
| Text.IntStr | polynomial.py:38 | `str` of an integer: a sign or a digit first, a digit last, `0` only for zero |
| Text.ParseInt | polynomial.py:83-86 | `int` fails on the empty string |
| Text.NatStrValue | polynomial.py:83 | the digits of `str(k)` denote `k` |
| Text.IntStrParses | polynomial.py:83 | `int(str(k)) == k` |
| Text.Split | polynomial.py:78 | `split` always gives at least one piece |
| Text.Words | polynomial.py:82 | every word of `split()` is nonempty and holds no whitespace |
| Text.SplitNone | polynomial.py:78 | a string without the separator splits into itself |
| Text.SplitFirst | polynomial.py:78 | splitting at the first separator gives the text before it, then the pieces of the rest |
| Text.WordLength | polynomial.py:82 | the first word ends at the first whitespace |
| Text.WordsWord | polynomial.py:82 | a word followed by whitespace or nothing is the first word |
| Text.WordsTrailingSpace | polynomial.py:82 | a trailing space does not change `split()` |
| Text.StripRight | polynomial.py:101 | right stripping leaves a prefix, nonempty when the text starts with a non-space |
| Text.StripLeft | polynomial.py:101 | left stripping never lengthens the text, and what is left does not start with whitespace |
| Text.Strip | polynomial.py:101 | `strip` never lengthens the text, and what is left neither starts nor ends with whitespace |
| Text.StripOneSpace | polynomial.py:101 | stripping one trailing space from text without surrounding whitespace gives the text back |
| Text.DegreeTokens | polynomial.py:39-40 | one `name^degree` word per variable |
| Text.DegreesStrIsJoin | polynomial.py:37-41 | the printed degrees are the degree words joined by single spaces |
| Text.WordsJoin | polynomial.py:82 | splitting words joined by single spaces gives the words back |
| Text.MonoStrWords | polynomial.py:37-41 | the printed monomial splits into its coefficient and degree words, and holds no `+` |
| Text.ParseDegreeTokens | polynomial.py:85-86 | the degree words read back as the degree vector |
| Text.ParseDegree | polynomial.py:86 | a degree token parses only when it contains `^` (otherwise `split("^")[1]` fails) |
| Text.ParseDegrees | polynomial.py:85-86 | the degree list has one entry per token after the coefficient |
| Text.ParseMonomial | polynomial.py:82-87 | a parsed piece has one degree per word after the coefficient word |
| Text.ParsePieces | polynomial.py:79-87 | one monomial per `+` piece, and failure exactly when some piece fails to parse |
| Text.FromString | polynomial.py:73-88 | a parsed polynomial is strictly descending and has at most one term per `+` piece |
| Text.ParseMonoStr | polynomial.py:82-87 | a printed monomial, with or without its trailing space and with or without one leading space, reads back as that monomial |
| Text.ShowZero | polynomial.py:90-101 | `__str__` is `0` exactly when no term has a nonzero coefficient |
| Text.Show | polynomial.py:90-101 | the printed polynomial neither starts nor ends with whitespace |
| Text.ShowRawFirstNonZero | polynomial.py:90-101 | the built string starts with the coefficient of the first nonzero term, so it has no leading whitespace |
| Text.ShowRawEnds | polynomial.py:90-101 | the built string for nonzero terms starts with a non-space and ends in a digit and one space |
| Text.ParseShowRaw | polynomial.py:78-88 | the built string, without its final space, splits at `+` into pieces that read back as the terms |
| Text.ReadZero | polynomial.py:73-88 | `from_string("0")` is the zero polynomial |
| Text.RoundTrip | polynomial.py:73-101 | `from_string(str(p))` gives back `p`, for every canonical `p` and variable names free of `+`, `^` and whitespace |
| Text.NegationPrintsDifferently | polynomial.py:158-164 | a nonzero canonical `p` and `Polynomial([-1]) * p` compare `==`, yet print, and so hash, differently |
| Reduction.DegreesAtLeast | grobner.py:17-20 | the zip loop answers true exactly when the first vector dominates the second |
| Reduction.IsMultiple | grobner.py:13-20 | false if either coefficient is 0, and otherwise true exactly when every degree of `a` is at least that of `b` |
| Reduction.FirstReducible | grobner.py:24-30 | the first index from `k` whose term is a multiple of the lead, or -1 when there is none |
| Reduction.CanReduce | grobner.py:22-30 | `(True, i)` with the smallest `i` whose term is a multiple of `g`'s leading term, and `(False, -1)` when there is none, also for an empty `f` with an empty `g` |
| Reduction.TruncDivSpec | grobner.py:40 | `int(a / b)` truncates toward zero: its size is the floor of the quotient of the sizes, and its sign is that of the quotient |
| Reduction.TruncDivExact | grobner.py:40 | the quotient is exact when `b` divides `a` |
| Reduction.ReduceCofactor | grobner.py:39-40 | the cofactor `h` of `reduce` has degrees that, added to the leading degrees of `g`, give back the degrees of the reduced term |
| Reduction.ReduceAtTerm | grobner.py:37-41 | `f - h * g` at a reducible term is strictly descending, of dimension `n` |
| Reduction.Reduce | grobner.py:32-41 | `reduce` returns None exactly when `can_reduce` fails, and otherwise a strictly descending polynomial; an empty `g` is allowed when `f` is empty |
| Reduction.ConvSingle | grobner.py:40-41 | the product of a one-term `h` with `g` has `h`'s coefficient times `g`'s coefficient at `d - h` |
| Reduction.CoeffAtAboveLead | grobner.py:25 | a strictly descending polynomial has nothing above its leading term |
| Reduction.ReduceIsDifference | grobner.py:32-41 | `h`'s degrees are the chosen term's degrees minus `g`'s leading degrees, and the result's coefficients are those of `f - h * g` |
| Reduction.ReduceAtTermCancels | grobner.py:37-41 | when `g`'s leading coefficient divides the chosen term's, the result is 0 at that term's degrees; terms strictly above it are unchanged |
| Reduction.ReduceCancels | grobner.py:32-41 | the same, stated for `reduce` itself |
| Reduction.ReduceStalls | grobner.py:32-41 | when the chosen coefficient is smaller in size than `g`'s leading coefficient, `reduce` returns `f` unchanged, so `while can_reduce(h, poly)` cannot end |
| Reduction.DegreeLcm | grobner.py:43-45 | over the shorter length, every entry is at least both exponents and equal to one of them, so no smaller entry bounds both |
| Reduction.DegreeLcmIsLeastUpperBound | grobner.py:43-45 | the lcm dominates both leading degree vectors, so the cofactor degrees are non-negative, and every common upper bound dominates it |
| Reduction.IsZero | grobner.py:47-51 | true exactly when every coefficient is 0; the empty polynomial is zero |
| Reduction.SPair | grobner.py:67-86 | `h_j * f_j - h_i * f_i` is strictly descending, and empty when a cofactor coefficient is 0 |
| Reduction.SPolynomial | grobner.py:67-86 | the as-written `S_polynomial` is strictly descending, of dimension `n` |
| Reduction.SPolynomialCross | grobner.py:82-86 | the corrected S-polynomial is strictly descending, of dimension `n` |
| Reduction.SPolynomialZeroLead | grobner.py:84-85 | a zero leading coefficient on either side gives the empty polynomial |
| Reduction.DiffOfProductsAt | grobner.py:86 | the coefficient of `a * p - b * q` is the difference of the two convolutions |
| Reduction.SPolynomialAtLcm | grobner.py:67-86 | as written, the coefficient at the lcm of the leading degree vectors is `c_j² - c_i²`, and there is nothing above the lcm |
| Reduction.SPolynomialCancelsIff | grobner.py:67-86 | as written, the leading terms cancel exactly when the leading coefficients have equal size |
| Reduction.SPolynomialKeepsLead | grobner.py:82-86 | as written, `2x` and `y` give coefficient -3 at the lcm `xy` |
| Reduction.SPolynomialCrossCancels | grobner.py:67-86 | with crossed cofactor coefficients, nothing is left at or above the lcm |
| Buchberger.RepresentedGrows | grobner.py:53-65 | a polynomial accounted for by the basis stays accounted for when the basis grows |
| Buchberger.ReduceSteps | grobner.py:57-59 | `k` reductions of `f` by `g` keep the dimension `n` |
| Buchberger.ReduceStepsNext | grobner.py:58-59 | one more round of the `while` loop reduces the current `h` by `g` |
| Buchberger.ReduceByAndCollect | grobner.py:57-62 | starting from `h = f`, the set only grows, every addition is a nonzero reduction of `f` by `g`, and it is unchanged when nothing is added |
| Buchberger.KeepReducing | grobner.py:53-65 | `grob_set` only grows; every addition is nonzero and is `f` or a reduction of `f` by a snapshot element; on completion `f` is accounted for |
| Buchberger.ConsiderPair | grobner.py:116-119 | the pair is recorded with its as-written `S_polynomial`, which is then fed to keep_reducing; the record stays consistent and, on completion, every recorded S-polynomial is accounted for by the grown basis |
| Buchberger.RecordPair | grobner.py:118 | storing the as-written `S_polynomial` of a pair that differs under `==` keeps the record consistent in a larger basis |
| Buchberger.CheckAllPairs | grobner.py:104-111 | `all_pairs_considered` is True exactly when every ordered pair of basis elements that differ under `==` has a recorded S-polynomial |
| Buchberger.Buchberger | grobner.py:89-121 | the basis contains the generators and is well formed; every recorded pair is a pair of basis elements that differ under `==`, stored with its as-written `S_polynomial`; on convergence every such ordered pair is recorded and each S-polynomial is accounted for |

## Findings

| source | as written | input that shows it | evidently intended | confidence | as-written member | corrected member |
|---|---|---|---|---|---|---|
| grobner.py:82-86 | each cofactor `h_i`, `h_j` carries its own polynomial's leading coefficient, so the lcm coefficient of `h_j*f_j - h_i*f_i` is `c_j² - c_i²` | `f_i = 2x`, `f_j = y`: the result is `-3xy`, and the leading terms do not cancel | the docstring's "crafted so leading terms cancel out": `h_i` takes `c_j` and `h_j` takes `c_i`, so both products lead with `c_i c_j x^a` | high, not executed | Reduction.SPolynomialKeepsLead | Reduction.SPolynomialCrossCancels |

The as-written S-polynomial is `Reduction.SPolynomial`, described by
`SPolynomialAtLcm` and `SPolynomialCancelsIff`. The corrected one is
`Reduction.SPolynomialCross`. `Buchberger` follows the source and records
and reduces the as-written `SPolynomial`; its completion property holds
whichever of the two it records, because every recorded polynomial is reduced
to zero or added to the basis. Both produce a strictly descending polynomial
(`SPair`), and both are empty when a leading coefficient is 0.

## Left out

- sudoku.py is not part of this model. It is a demo script that builds its
  inputs through the polynomial API.
- The `print` calls in `can_reduce` and `buchberger` are output only, so they
  are left out.
- `__repr__` (polynomial.py:34-35, 103-104) only formats text for debugging.
- `copy.deepcopy` snapshots and object identity are left out. Polynomials are
  values, so a snapshot is just the value.
- `__hash__` (polynomial.py:106-107) is left out. The Python set is a set of
  values: two polynomials with the same printed form that compare `==` have
  the same terms.
- Set iteration order in `keep_reducing` and `buchberger` is an arbitrary
  choice (`:|`). The dict `S` is a map.
- `grob_set` is changed in place by `keep_reducing`. Here the grown set is
  returned, not mutated.
- Reduction.TruncDiv: `int(a / b)` goes through a float. It is modelled as
  exact truncation toward zero, so the rounding of operands beyond 2^53 is
  not modelled. Its own contract is empty; TruncDivSpec and TruncDivExact
  state what it computes.
- Buchberger.KeepReducing: each inner `while` runs at most `fuel` rounds. The
  source loop need not end (`ReduceStalls`), so the method reports whether it
  finished, and it promises that `f` is accounted for only then.
- Buchberger.ReduceByAndCollect: runs at most `fuel` rounds, for the same
  reason.
- Buchberger.Buchberger: runs at most `fuel` rounds of the outer loop. The
  completion property is promised only when the loop ends by its own
  condition. Termination of Buchberger's algorithm (an ascending-chain
  argument) is not modelled.
- Buchberger.WellFormed requires every basis element to have a leading term
  and dimension `n`. The source indexes `monomials[0]` of every element and
  zips degree vectors of the common length.
- Polynomials.PolyMul, PolyAdd, PolySub and the class's arithmetic require
  both operands to have dimension `n`. For `*` the source zips degree vectors
  and would silently truncate vectors of different lengths. For `+` and `-`
  terms of different lengths reach the constructor's `sorted`, whose
  comparison fails the `assert` of `lexicographic_helper` (polynomial.py:4).
- Text.ParseDegree rejects a negative exponent. `int` accepts one, but a
  degree vector here holds natural numbers.
- Text.ParseInt accepts an optional sign and ASCII digits. It does not
  accept underscores or non-ASCII digits, which Python's `int` also accepts.
- Text.FromString returns None where `from_string` raises. This covers a
  malformed piece, and terms of different lengths, which make the sort's
  comparison fail its `assert`.
- Polynomials.SortDesc is an insertion sort. Its own contract states length
  and dimension only; SortDescSorted states that the result is descending
  and a permutation. Like Python's `sorted` it is stable: InsertAt puts each
  term before its equals. Stability of the whole sort is not stated as a
  lemma; combining makes the order of equal terms irrelevant to the
  coefficients.
- Text.RoundTrip holds for canonical term lists and for variable names
  without `+`, `^` or whitespace. Other names print text that does not read
  back.
- Polynomials.Combine: its own contract states length and the last degree
  vector only; CoeffAtCombine and CombineStrict state that it keeps every
  coefficient and yields a strictly descending list.
- Polynomials.RidZeros: its own contract states length only; RidZerosIsSkip
  and RidZerosFixesNonZero state which terms it keeps.
- Polynomials.Normalize: its own contract states length only; NormalizeSpec
  states that the result is strictly descending with the input's
  coefficients.
- Polynomials.PolyAdd, PolyMul, PolySub: their own contracts state the
  dimension only; PolyAddCoeff, PolyMulCoeff and PolySubCoeff state the
  order and the coefficients.
- Reduction.SPolynomial, SPolynomialCross: their own contracts state order
  and dimension; SPolynomialAtLcm, SPolynomialCancelsIff and
  SPolynomialCrossCancels state what is left at the lcm.
- Text.Show: its own contract states the stripped ends only; ShowZero,
  ShowRawEnds and RoundTrip state what is printed.
- Text.DegreesStr, MonoStr and ShowRaw carry no contract of their own;
  DegreesStrIsJoin, MonoStrWords and ShowRawEnds state what they print.
- Buchberger.ReduceSteps: its own contract states the dimension only;
  ReduceStepsNext states that each step is one `reduce`.
- Buchberger.AllPairsConsidered is the loop condition of `buchberger`; the
  method CheckAllPairs computes it with the source's nested loops.
