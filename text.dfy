/** The printed form of monomials and polynomials and the parser that reads
    it back: Python's `str` of integers and monomials, `str.split`, `str.strip`
    and `int`, as far as the printer and the parser use them. */
module Text {
  import opened Monomials
  import opened Polynomials

  // ---------------------------------------------------------------------------
  // Characters

  /** The characters Python's `str.split()` and `str.strip()` treat as
      whitespace. */
  predicate IsSpace(c: char) {
    var k := c as int;
    k == 32 || 9 <= k <= 13 || 28 <= k <= 31 || k == 0x85 || k == 0xA0 || k == 0x1680
    || 0x2000 <= k <= 0x200A || k == 0x2028 || k == 0x2029 || k == 0x202F || k == 0x205F || k == 0x3000
  }

  predicate IsDigit(c: char) { '0' <= c <= '9' }

  predicate AllDigits(s: string) { forall i :: 0 <= i < |s| ==> IsDigit(s[i]) }

  predicate NoSpace(s: string) { forall i :: 0 <= i < |s| ==> !IsSpace(s[i]) }

  // ---------------------------------------------------------------------------
  // str(int) and int(str)

  function DigitChar(k: nat): (c: char)
    requires k < 10
    ensures IsDigit(c) && c as int - '0' as int == k
  {
    ('0' as int + k) as char
  }

  /** The decimal digits of `k`, most significant first, without leading zeros. */
  function NatStr(k: nat): (s: string)
    ensures |s| >= 1 && AllDigits(s)
    ensures k > 0 ==> s[0] != '0'
  {
    if k < 10 then [DigitChar(k)] else NatStr(k / 10) + [DigitChar(k % 10)]
  }

  /** `str(k)` for an integer: a minus sign in front of a negative number. */
  function IntStr(k: int): (s: string)
    ensures |s| >= 1 && (s[0] == '-' || IsDigit(s[0])) && IsDigit(s[|s| - 1])
    ensures k != 0 ==> s[0] != '0'
    ensures k == 0 ==> s == "0"
  {
    if k < 0 then "-" + NatStr(-k) else NatStr(k)
  }

  function DigitsValue(s: string): nat
    requires AllDigits(s)
  {
    if s == [] then 0 else DigitsValue(s[..|s| - 1]) * 10 + (s[|s| - 1] as int - '0' as int)
  }

  function ParseNat(s: string): Option<nat>
  {
    if s != [] && AllDigits(s) then Some(DigitsValue(s)) else None
  }

  /** `int(s)` on a string without whitespace: an optional sign and at least
      one decimal digit; anything else raises, here `None`. */
  function ParseInt(s: string): (r: Option<int>)
    ensures r != None ==> s != []
  {
    if s != [] && (s[0] == '-' || s[0] == '+') then
      match ParseNat(s[1..])
      case None => None
      case Some(k) => Some(if s[0] == '-' then -(k as int) else k as int)
    else
      match ParseNat(s)
      case None => None
      case Some(k) => Some(k as int)
  }

  /** Reading back the digits of a natural number gives the number. */
  lemma {:induction false} NatStrValue(k: nat)
    ensures DigitsValue(NatStr(k)) == k
    decreases k
  {
    if k >= 10 {
      NatStrValue(k / 10);
      var s := NatStr(k);
      assert s[..|s| - 1] == NatStr(k / 10);
    }
  }

  /** `int(str(k)) == k`. */
  lemma IntStrParses(k: int)
    ensures ParseInt(IntStr(k)) == Some(k)
  {
    if k < 0 {
      var m: nat := -k;
      var t := NatStr(m);
      NatStrValue(m);
      assert ParseNat(t) == Some(m);
      var s := IntStr(k);
      assert s == "-" + t && s[0] == '-' && s[1..] == t;
    } else {
      var t := NatStr(k);
      NatStrValue(k);
      assert ParseNat(t) == Some(k) && t[0] != '-' && t[0] != '+';
    }
  }

  // ---------------------------------------------------------------------------
  // str.split(sep), str.split() and str.strip()

  /** `s.split(sep)`: the pieces between occurrences of `sep`, empty pieces
      included; always at least one piece. */
  function Split(s: string, sep: char): (r: seq<string>)
    ensures |r| >= 1
  {
    if s == [] then [[]]
    else
      var rest := Split(s[1..], sep);
      if s[0] == sep then [[]] + rest else [[s[0]] + rest[0]] + rest[1..]
  }

  /** A string without the separator is one piece. */
  lemma {:induction false} SplitNone(s: string, sep: char)
    requires sep !in s
    ensures Split(s, sep) == [s]
  {
    if s != [] {
      SplitNone(s[1..], sep);
      assert [s[0]] + s[1..] == s;
    }
  }

  /** A first separator ends the first piece. */
  lemma {:induction false} SplitFirst(a: string, sep: char, b: string)
    requires sep !in a
    ensures Split(a + [sep] + b, sep) == [a] + Split(b, sep)
  {
    if a == [] {
      assert (a + [sep] + b)[1..] == b;
    } else {
      SplitFirst(a[1..], sep, b);
      assert (a + [sep] + b)[1..] == a[1..] + [sep] + b;
      assert [a[0]] + a[1..] == a;
    }
  }

  /** The length of the word at the front of `s`: up to the first whitespace. */
  function WordLength(s: string): (k: nat)
    ensures k <= |s| && NoSpace(s[..k]) && (k < |s| ==> IsSpace(s[k]))
    ensures s != [] && !IsSpace(s[0]) ==> k >= 1
  {
    if s == [] || IsSpace(s[0]) then 0 else 1 + WordLength(s[1..])
  }

  /** `s.split()`: the maximal runs of non-whitespace characters. */
  function Words(s: string): (r: seq<string>)
    ensures forall k :: 0 <= k < |r| ==> r[k] != [] && NoSpace(r[k])
    decreases |s|
  {
    if s == [] then []
    else if IsSpace(s[0]) then Words(s[1..])
    else
      var k := WordLength(s);
      [s[..k]] + Words(s[k..])
  }

  lemma WordsSpace(c: char, s: string)
    requires IsSpace(c)
    ensures Words([c] + s) == Words(s)
  {
    assert ([c] + s)[1..] == s;
  }

  lemma {:induction false} WordLengthOf(w: string, s: string)
    requires NoSpace(w) && (s == [] || IsSpace(s[0]))
    ensures WordLength(w + s) == |w|
  {
    if w != [] {
      WordLengthOf(w[1..], s);
      assert (w + s)[1..] == w[1..] + s;
    }
  }

  /** A word followed by whitespace or nothing is the first word. */
  lemma WordsWord(w: string, s: string)
    requires w != [] && NoSpace(w) && (s == [] || IsSpace(s[0]))
    ensures Words(w + s) == [w] + Words(s)
  {
    WordLengthOf(w, s);
    assert (w + s)[..|w|] == w && (w + s)[|w|..] == s;
  }

  /** A trailing space changes no word. */
  lemma {:induction false} WordsTrailingSpace(s: string)
    ensures Words(s + " ") == Words(s)
    decreases |s|
  {
    if s == [] {
      assert Words(" ") == Words([]) by { WordsSpace(' ', []); }
    } else if IsSpace(s[0]) {
      WordsTrailingSpace(s[1..]);
      assert (s + " ")[1..] == s[1..] + " ";
    } else {
      var k := WordLength(s);
      WordLengthOf(s[..k], s[k..] + " ");
      assert s + " " == s[..k] + (s[k..] + " ");
      WordsWord(s[..k], s[k..] + " ");
      WordsTrailingSpace(s[k..]);
    }
  }

  function StripLeft(s: string): (r: string)
    ensures |r| <= |s|
    ensures r == [] || !IsSpace(r[0])
  {
    if s != [] && IsSpace(s[0]) then StripLeft(s[1..]) else s
  }

  function StripRight(s: string): (r: string)
    ensures |r| <= |s| && r == s[..|r|]
    ensures s != [] && !IsSpace(s[0]) ==> |r| >= 1
    ensures r == [] || !IsSpace(r[|r| - 1])
  {
    if s != [] && IsSpace(s[|s| - 1]) then StripRight(s[..|s| - 1]) else s
  }

  /** `s.strip()`: leading and trailing whitespace removed. */
  function Strip(s: string): (r: string)
    ensures |r| <= |s|
    ensures r == [] || (!IsSpace(r[0]) && !IsSpace(r[|r| - 1]))
  {
    StripRight(StripLeft(s))
  }

  lemma StripOneSpace(s: string)
    requires s != [] && !IsSpace(s[0]) && !IsSpace(s[|s| - 1])
    ensures Strip(s + " ") == s
  {
    var t := s + " ";
    assert t[0] == s[0] && IsSpace(t[|t| - 1]);
    assert StripLeft(t) == t;
    assert t[..|t| - 1] == s;
    assert StripRight(t) == StripRight(s);
    assert StripRight(s) == s;
  }

  // ---------------------------------------------------------------------------
  // Printing

  /** `f"{x}^{d} "` for every variable `x` with its degree `d`. */
  function DegreesStr(d: seq<nat>, vars: seq<string>): string
    requires |d| >= |vars|
    decreases |vars|
  {
    if vars == [] then "" else vars[0] + "^" + NatStr(d[0]) + " " + DegreesStr(d[1..], vars[1..])
  }

  /** `str(monomial)`: the coefficient, a space, and `x^d ` for each variable
      (degrees beyond the variable list are not printed). */
  function MonoStr(m: Monomial, vars: seq<string>): string
    requires |m.degrees| >= |vars|
  {
    IntStr(m.coefficient) + " " + DegreesStr(m.degrees, vars)
  }

  /** Every term that gets printed has a degree for each variable. */
  predicate Printable(ms: Terms, vars: seq<string>) {
    forall i :: 0 <= i < |ms| && ms[i].coefficient != 0 ==> |ms[i].degrees| >= |vars|
  }

  /** The string the loop of `__str__` builds before stripping: the terms with
      a nonzero coefficient, `"+ "` before each one but the first. */
  function ShowRaw(ms: Terms, vars: seq<string>, first: bool): string
    requires Printable(ms, vars)
  {
    if ms == [] then ""
    else if ms[0].coefficient != 0 then
      (if first then "" else "+ ") + MonoStr(ms[0], vars) + ShowRaw(ms[1..], vars, false)
    else ShowRaw(ms[1..], vars, first)
  }

  /** `str(polynomial)`. */
  function Show(ms: Terms, vars: seq<string>): (r: string)
    requires Printable(ms, vars)
    ensures r == [] || (!IsSpace(r[0]) && !IsSpace(r[|r| - 1]))
  {
    var s := ShowRaw(ms, vars, true);
    if s != "" then Strip(s) else "0"
  }

  /** The printed form is `"0"` exactly when no term has a nonzero coefficient. */
  lemma ShowZero(ms: Terms, vars: seq<string>)
    requires Printable(ms, vars)
    ensures Show(ms, vars) == "0" <==> forall i :: 0 <= i < |ms| ==> ms[i].coefficient == 0
  {
    var s := ShowRaw(ms, vars, true);
    if exists i :: 0 <= i < |ms| && ms[i].coefficient != 0 {
      var i :| 0 <= i < |ms| && ms[i].coefficient != 0;
      var c := ShowRawFirstNonZero(ms, vars, true, i);
      assert StripLeft(s) == s;
      var r := StripRight(s);
      assert r[0] == s[0] == IntStr(c)[0] != '0';
    } else {
      ShowRawAllZero(ms, vars, true);
    }
  }

  /** With no nonzero term the loop builds nothing. */
  lemma {:induction false} ShowRawAllZero(ms: Terms, vars: seq<string>, first: bool)
    requires Printable(ms, vars) && forall i :: 0 <= i < |ms| ==> ms[i].coefficient == 0
    ensures ShowRaw(ms, vars, first) == ""
  {
    if ms != [] {
      ShowRawAllZero(ms[1..], vars, first);
    }
  }

  lemma PrefixFacts(t: string, rest: string)
    requires t != [] && rest != []
    ensures |t| < |t + rest| && (t + rest)[..|t|] == t && (t + rest)[0] == t[0]
  {
  }

  /** With a nonzero term at `i`, the string starts with the coefficient of the
      first nonzero term, which is returned. */
  lemma {:induction false} ShowRawFirstNonZero(ms: Terms, vars: seq<string>, first: bool, i: nat) returns (c: int)
    requires Printable(ms, vars) && first && i < |ms| && ms[i].coefficient != 0
    ensures c != 0
    ensures |IntStr(c)| < |ShowRaw(ms, vars, first)| && ShowRaw(ms, vars, first)[..|IntStr(c)|] == IntStr(c)
    ensures ShowRaw(ms, vars, first)[0] == IntStr(c)[0] && !IsSpace(ShowRaw(ms, vars, first)[0])
    decreases i
  {
    if ms[0].coefficient != 0 {
      c := ms[0].coefficient;
      ShowRawHead(ms, vars);
    } else {
      ShowRawSkip(ms, vars);
      c := ShowRawFirstNonZero(ms[1..], vars, first, i - 1);
    }
  }

  /** A leading zero term prints nothing. */
  lemma ShowRawSkip(ms: Terms, vars: seq<string>)
    requires Printable(ms, vars) && ms != [] && ms[0].coefficient == 0
    ensures Printable(ms[1..], vars) && ShowRaw(ms, vars, true) == ShowRaw(ms[1..], vars, true)
  {
  }

  /** A leading nonzero term prints its coefficient first. */
  lemma ShowRawHead(ms: Terms, vars: seq<string>)
    requires Printable(ms, vars) && ms != [] && ms[0].coefficient != 0
    ensures var t, s := IntStr(ms[0].coefficient), ShowRaw(ms, vars, true);
      |t| < |s| && s[..|t|] == t && s[0] == t[0] && !IsSpace(s[0])
  {
    var t := IntStr(ms[0].coefficient);
    var d := " " + DegreesStr(ms[0].degrees, vars);
    var r := ShowRaw(ms[1..], vars, false);
    ShowRawCons(ms, vars);
    assert MonoStr(ms[0], vars) == t + d;
    PrefixOfJoin(t, d, r);
  }

  /** The facts PrefixFacts gives, for `t` in front of `d` and `r`. */
  lemma PrefixOfJoin(t: string, d: string, r: string)
    requires t != [] && d != [] && !IsSpace(t[0])
    ensures var s := t + d + r; |t| < |s| && s[..|t|] == t && s[0] == t[0] && !IsSpace(s[0])
  {
    assert t + d + r == t + (d + r);
    PrefixFacts(t, d + r);
  }

  // ---------------------------------------------------------------------------
  // Parsing

  /** `int(substr.split("^")[1])`: the exponent after the first `^`; a missing
      `^` raises, and so, here, does a negative exponent. */
  function ParseDegree(tok: string): (r: Option<nat>)
    ensures r != None ==> '^' in tok
  {
    var parts := Split(tok, '^');
    assert '^' !in tok ==> |parts| == 1 by {
      if '^' !in tok { SplitNone(tok, '^'); }
    }
    if |parts| < 2 then None
    else match ParseInt(parts[1])
      case None => None
      case Some(k) => if k < 0 then None else Some(k as nat)
  }

  /** The degrees of `mono_data[1:]`, one per token, variable names ignored. */
  function ParseDegrees(toks: seq<string>): (r: Option<seq<nat>>)
    ensures r != None ==> |r.value| == |toks|
  {
    if toks == [] then Some([])
    else match (ParseDegree(toks[0]), ParseDegrees(toks[1..]))
      case (Some(d), Some(ds)) => Some([d] + ds)
      case _ => None
  }

  /** One `+`-separated piece: its first word is the coefficient and each
      further word gives a degree. */
  function ParseMonomial(piece: string): (r: Option<Monomial>)
    ensures r != None ==> |Words(piece)| == |r.value.degrees| + 1
  {
    var toks := Words(piece);
    if toks == [] then None
    else match (ParseInt(toks[0]), ParseDegrees(toks[1..]))
      case (Some(c), Some(ds)) => Some(Monomial(ds, c))
      case _ => None
  }

  /** Every piece read as a monomial, in order; none as soon as one fails. */
  function ParsePieces(pieces: seq<string>): (r: Option<Terms>)
    ensures r != None ==> |r.value| == |pieces|
    ensures r == None <==> exists k :: 0 <= k < |pieces| && ParseMonomial(pieces[k]) == None
  {
    if pieces == [] then Some([])
    else
      assert forall k :: 1 <= k < |pieces| ==> pieces[k] == pieces[1..][k - 1];
      match (ParseMonomial(pieces[0]), ParsePieces(pieces[1..]))
      case (Some(m), Some(ms)) => Some([m] + ms)
      case _ => None
  }

  /** `Polynomial.from_string(s)`: parse every `+`-separated piece and build the
      polynomial; the constructor compares terms of different dimensions only
      to fail, so a list that is not uniform raises, here `None`. */
  function FromString(s: string): (r: Option<Terms>)
    ensures r != None ==> StrictlyDescending(r.value) && |r.value| <= |Split(s, '+')|
  {
    match ParsePieces(Split(s, '+'))
    case None => None
    case Some(ms) =>
      if Uniform(ms) then
        NormalizeSpec(ms, if ms == [] then 0 else |ms[0].degrees|);
        Some(Normalize(ms))
      else None
  }

  // ---------------------------------------------------------------------------
  // The round trip

  /** Variable names that the printed form can carry: no `+`, no `^`, no whitespace. */
  predicate GoodNames(vars: seq<string>) {
    forall i :: 0 <= i < |vars| ==> '+' !in vars[i] && '^' !in vars[i] && NoSpace(vars[i])
  }

  /** The words of a printed monomial. */
  function Tokens(m: Monomial, vars: seq<string>): seq<string>
    requires |m.degrees| >= |vars|
  {
    [IntStr(m.coefficient)] + DegreeTokens(m.degrees, vars)
  }

  function DegreeTokens(d: seq<nat>, vars: seq<string>): (r: seq<string>)
    requires |d| >= |vars|
    ensures |r| == |vars|
    decreases |vars|
  {
    if vars == [] then [] else [vars[0] + "^" + NatStr(d[0])] + DegreeTokens(d[1..], vars[1..])
  }

  /** Each word followed by a space. */
  function JoinSpaced(ws: seq<string>): string
  {
    if ws == [] then "" else ws[0] + " " + JoinSpaced(ws[1..])
  }

  lemma {:induction false} DegreesStrIsJoin(d: seq<nat>, vars: seq<string>)
    requires |d| >= |vars|
    ensures DegreesStr(d, vars) == JoinSpaced(DegreeTokens(d, vars))
    decreases |vars|
  {
    if vars != [] {
      DegreesStrIsJoin(d[1..], vars[1..]);
      var ts := DegreeTokens(d, vars);
      assert ts[1..] == DegreeTokens(d[1..], vars[1..]);
    }
  }

  lemma {:induction false} WordsJoin(ws: seq<string>)
    requires forall i :: 0 <= i < |ws| ==> ws[i] != [] && NoSpace(ws[i])
    ensures Words(JoinSpaced(ws)) == ws
  {
    if ws != [] {
      WordsJoin(ws[1..]);
      assert JoinSpaced(ws) == ws[0] + (" " + JoinSpaced(ws[1..]));
      WordsWord(ws[0], " " + JoinSpaced(ws[1..]));
      WordsSpace(' ', JoinSpaced(ws[1..]));
    }
  }

  lemma {:induction false} NoSepJoin(ws: seq<string>, c: char)
    requires forall i :: 0 <= i < |ws| ==> c !in ws[i]
    requires c != ' '
    ensures c !in JoinSpaced(ws)
  {
    if ws != [] {
      NoSepJoin(ws[1..], c);
    }
  }

  /** A printed monomial is its words, each followed by a space; the words are
      nonempty, free of whitespace and of `+`, and the last ends in a digit. */
  lemma MonoStrWords(m: Monomial, vars: seq<string>)
    requires |m.degrees| >= |vars| && GoodNames(vars)
    ensures MonoStr(m, vars) == JoinSpaced(Tokens(m, vars))
    ensures Words(MonoStr(m, vars)) == Tokens(m, vars)
    ensures '+' !in MonoStr(m, vars)
  {
    var ts := Tokens(m, vars);
    DegreesStrIsJoin(m.degrees, vars);
    assert ts[1..] == DegreeTokens(m.degrees, vars);
    forall i | 0 <= i < |ts| ensures ts[i] != [] && NoSpace(ts[i]) && '+' !in ts[i] {
      if i > 0 {
        DegreeTokenShape(m.degrees, vars, i - 1);
      }
    }
    WordsJoin(ts);
    NoSepJoin(ts, '+');
  }

  /** The `k`-th degree word is `x^d` for the `k`-th variable `x` and its degree `d`. */
  lemma {:induction false} DegreeTokenShape(d: seq<nat>, vars: seq<string>, k: nat)
    requires |d| >= |vars| && k < |vars| && GoodNames(vars)
    ensures DegreeTokens(d, vars)[k] == vars[k] + "^" + NatStr(d[k])
    ensures DegreeTokens(d, vars)[k] != [] && NoSpace(DegreeTokens(d, vars)[k]) && '+' !in DegreeTokens(d, vars)[k]
    decreases k
  {
    if k > 0 {
      DegreeTokenShape(d[1..], vars[1..], k - 1);
    }
    var t := vars[k] + "^" + NatStr(d[k]);
    assert forall j :: 0 <= j < |t| ==> t[j] == (if j < |vars[k]| then vars[k][j] else if j == |vars[k]| then '^' else NatStr(d[k])[j - |vars[k]| - 1]);
  }

  /** Reading back the degree words gives the degrees. */
  lemma {:induction false} ParseDegreeTokens(d: seq<nat>, vars: seq<string>)
    requires |d| == |vars| && GoodNames(vars)
    ensures ParseDegrees(DegreeTokens(d, vars)) == Some(d)
    decreases |vars|
  {
    if vars != [] {
      ParseDegreeTokens(d[1..], vars[1..]);
      var ts := DegreeTokens(d, vars);
      assert ts[1..] == DegreeTokens(d[1..], vars[1..]);
      var k := NatStr(d[0]);
      assert '^' !in k;
      SplitNone(k, '^');
      SplitFirst(vars[0], '^', k);
      assert ts[0] == vars[0] + ['^'] + k;
      NatStrValue(d[0]);
      assert ParseInt(k) == Some(d[0] as int);
      assert [d[0]] + d[1..] == d;
    }
  }

  /** Reading back a printed monomial gives the monomial. */
  lemma ParseMonoStr(m: Monomial, vars: seq<string>, lead: string, body: string)
    requires |m.degrees| == |vars| && GoodNames(vars)
    requires lead == "" || lead == " "
    requires body == MonoStr(m, vars) || body + " " == MonoStr(m, vars)
    ensures ParseMonomial(lead + body) == Some(m)
  {
    MonoStrWords(m, vars);
    var s := MonoStr(m, vars);
    assert Words(body) == Words(s) by {
      if body + " " == s {
        WordsTrailingSpace(body);
      }
    }
    if lead == " " {
      WordsSpace(' ', body);
      assert lead + body == [' '] + body;
    } else {
      assert lead + body == body;
    }
    var ts := Tokens(m, vars);
    IntStrParses(m.coefficient);
    ParseDegreeTokens(m.degrees, vars);
    assert ts[1..] == DegreeTokens(m.degrees, vars);
  }

  /** The degree part of a printed monomial is empty or ends in a digit and a space. */
  lemma {:induction false} DegreesStrEnd(d: seq<nat>, vars: seq<string>)
    requires |d| >= |vars|
    ensures var t := DegreesStr(d, vars);
      t == [] || (|t| >= 2 && t[|t| - 1] == ' ' && IsDigit(t[|t| - 2]))
    decreases |vars|
  {
    if vars != [] {
      DegreesStrEnd(d[1..], vars[1..]);
      var k := NatStr(d[0]);
      var rest := DegreesStr(d[1..], vars[1..]);
      assert DegreesStr(d, vars) == (vars[0] + "^" + k) + " " + rest;
    }
  }

  /** Starts with a non-space, ends in a digit and a space. */
  predicate WellEnded(s: string) {
    |s| >= 2 && !IsSpace(s[0]) && s[|s| - 1] == ' ' && IsDigit(s[|s| - 2])
  }

  lemma WellEndedJoin(t: string, r: string)
    requires WellEnded(t) && WellEnded(r)
    ensures WellEnded(t + ("+ " + r))
  {
  }

  /** A printed monomial starts with its coefficient's first character and
      ends in a digit and a space. */
  lemma MonoStrEnds(m: Monomial, vars: seq<string>)
    requires |m.degrees| >= |vars|
    ensures WellEnded(MonoStr(m, vars)) && MonoStr(m, vars)[0] == IntStr(m.coefficient)[0]
  {
    DegreesStrEnd(m.degrees, vars);
  }

  /** The canonical terms of a polynomial over `vars`: strictly descending, no
      zero coefficient, one degree per variable. */
  predicate Canonical(ms: Terms, vars: seq<string>) {
    HasDim(ms, |vars|) && StrictlyDescending(ms) && NonZeroTerms(ms)
  }

  /** The loop of `__str__` on terms whose first coefficient is nonzero. */
  lemma ShowRawCons(ms: Terms, vars: seq<string>)
    requires ms != [] && ms[0].coefficient != 0 && Printable(ms, vars)
    ensures ShowRaw(ms, vars, true) == MonoStr(ms[0], vars) + ShowRaw(ms[1..], vars, false)
    ensures ShowRaw(ms, vars, false) == "+ " + ShowRaw(ms, vars, true)
  {
  }

  /** `__str__` on two or more nonzero terms: the first printed monomial, then
      `"+ "` and the rest. */
  lemma ShowRawPair(ms: Terms, vars: seq<string>)
    requires |ms| >= 2 && HasDim(ms, |vars|) && NonZeroTerms(ms)
    ensures HasDim(ms[1..], |vars|) && NonZeroTerms(ms[1..]) && |ms[0].degrees| == |vars|
    ensures ShowRaw(ms, vars, true) == MonoStr(ms[0], vars) + ("+ " + ShowRaw(ms[1..], vars, true))
  {
    var tail := ms[1..];
    assert tail[0] == ms[1];
    ShowRawCons(ms, vars);
    ShowRawCons(tail, vars);
  }

  /** `__str__` on one nonzero term: that printed monomial. */
  lemma ShowRawSingle(ms: Terms, vars: seq<string>)
    requires |ms| == 1 && HasDim(ms, |vars|) && NonZeroTerms(ms)
    ensures |ms[0].degrees| == |vars| && ShowRaw(ms, vars, true) == MonoStr(ms[0], vars)
  {
    ShowRawCons(ms, vars);
  }

  /** The unstripped printed form of nonzero terms starts with a non-space and
      ends in a digit and a space. */
  lemma {:induction false} ShowRawEnds(ms: Terms, vars: seq<string>)
    requires ms != [] && HasDim(ms, |vars|) && NonZeroTerms(ms)
    ensures WellEnded(ShowRaw(ms, vars, true))
  {
    MonoStrEnds(ms[0], vars);
    if |ms| == 1 {
      ShowRawSingle(ms, vars);
    } else {
      ShowRawPair(ms, vars);
      ShowRawEnds(ms[1..], vars);
      WellEndedJoin(MonoStr(ms[0], vars), ShowRaw(ms[1..], vars, true));
    }
  }

  /** Splitting a printed monomial followed by `"+ "` and more text, with the
      final character dropped. */
  lemma SplitAtPlus(lead: string, t: string, raw: string, all: string)
    requires '+' !in lead + t && raw != [] && all == t + ("+ " + raw)
    ensures Split(lead + all[..|all| - 1], '+') == [lead + t] + Split(" " + raw[..|raw| - 1], '+')
  {
    assert lead + all[..|all| - 1] == (lead + t) + ['+'] + (" " + raw[..|raw| - 1]);
    SplitFirst(lead + t, '+', " " + raw[..|raw| - 1]);
  }

  lemma ParsePiecesCons(x: string, xs: seq<string>, m: Monomial, ms: Terms)
    requires ParseMonomial(x) == Some(m) && ParsePieces(xs) == Some(ms)
    ensures ParsePieces([x] + xs) == Some([m] + ms)
  {
    assert ([x] + xs)[1..] == xs;
  }

  lemma ParsePiecesOne(x: string, m: Monomial)
    requires ParseMonomial(x) == Some(m)
    ensures ParsePieces([x]) == Some([m])
  {
    ParsePiecesCons(x, [], m, []);
    assert [x] + [] == [x] && [m] + [] == [m];
  }

  /** `raw`, with its final character dropped and `lead` put in front, reads
      back piece by piece as `ms`. */
  predicate ReadsBack(raw: string, lead: string, ms: Terms) {
    raw != [] && ParsePieces(Split(lead + raw[..|raw| - 1], '+')) == Some(ms)
  }

  /** The unstripped printed form of nonzero terms, read back piece by piece
      after dropping its final space, gives the terms. */
  lemma {:induction false} ParseShowRaw(ms: Terms, vars: seq<string>, lead: string)
    requires ms != [] && HasDim(ms, |vars|) && NonZeroTerms(ms) && GoodNames(vars)
    requires lead == "" || lead == " "
    ensures ReadsBack(ShowRaw(ms, vars, true), lead, ms)
  {
    if |ms| == 1 {
      ParseShowRawLast(ms, vars, lead);
    } else {
      ParseShowRaw(ms[1..], vars, " ");
      ParseShowRawStep(ms, vars, lead);
    }
  }

  lemma NoCharJoin(a: string, b: string, c: char)
    requires c !in a && c !in b
    ensures c !in a + b
  {
  }

  lemma DropFinalSpace(t: string)
    requires |t| >= 1 && t[|t| - 1] == ' '
    ensures t[..|t| - 1] + " " == t
  {
  }

  lemma NoCharPrefix(t: string, k: nat, c: char)
    requires k <= |t| && c !in t
    ensures c !in t[..k]
  {
  }

  lemma ParseShowRawLast(ms: Terms, vars: seq<string>, lead: string)
    requires |ms| == 1 && HasDim(ms, |vars|) && NonZeroTerms(ms) && GoodNames(vars)
    requires lead == "" || lead == " "
    ensures ReadsBack(ShowRaw(ms, vars, true), lead, ms)
  {
    var m := ms[0];
    assert |m.degrees| == |vars| && ShowRaw(ms, vars, true) == MonoStr(m, vars) by {
      ShowRawSingle(ms, vars);
    }
    var t := MonoStr(m, vars);
    var body := t[..|t| - 1];
    assert t != [] && '+' !in lead + body by {
      MonoStrEnds(m, vars);
      MonoStrWords(m, vars);
      NoCharPrefix(t, |t| - 1, '+');
      NoCharJoin(lead, body, '+');
    }
    assert ParseMonomial(lead + body) == Some(m) by {
      MonoStrEnds(m, vars);
      DropFinalSpace(t);
      ParseMonoStr(m, vars, lead, body);
    }
    ReadsBackOne(t, body, lead, m);
    assert [m] == ms;
  }

  /** A last piece without `+` reads back as its one monomial. */
  lemma ReadsBackOne(t: string, body: string, lead: string, m: Monomial)
    requires t != [] && body == t[..|t| - 1] && '+' !in lead + body
    requires ParseMonomial(lead + body) == Some(m)
    ensures ReadsBack(t, lead, [m])
  {
    SplitNone(lead + body, '+');
    ParsePiecesOne(lead + body, m);
  }

  /** Reading back one piece, a `+` and the pieces after it. */
  lemma ParseAtPlus(lead: string, t: string, raw: string, all: string, m: Monomial, rest: Terms)
    requires '+' !in lead + t && raw != [] && all == t + ("+ " + raw)
    requires ParseMonomial(lead + t) == Some(m)
    requires ReadsBack(raw, " ", rest)
    ensures ReadsBack(all, lead, [m] + rest)
  {
    SplitAtPlus(lead, t, raw, all);
    ParsePiecesCons(lead + t, Split(" " + raw[..|raw| - 1], '+'), m, rest);
  }

  lemma ParseShowRawStep(ms: Terms, vars: seq<string>, lead: string)
    requires |ms| >= 2 && HasDim(ms, |vars|) && NonZeroTerms(ms) && GoodNames(vars)
    requires lead == "" || lead == " "
    requires ReadsBack(ShowRaw(ms[1..], vars, true), " ", ms[1..])
    ensures ReadsBack(ShowRaw(ms, vars, true), lead, ms)
  {
    var m := ms[0];
    var rest := ms[1..];
    assert ms == [m] + rest;
    var raw' := ShowRaw(ms[1..], vars, true);
    var all := ShowRaw(ms, vars, true);
    assert |m.degrees| == |vars| && all == MonoStr(m, vars) + ("+ " + raw') by {
      ShowRawPair(ms, vars);
    }
    var t := MonoStr(m, vars);
    assert '+' !in lead + t by {
      MonoStrWords(m, vars);
      NoCharJoin(lead, t, '+');
    }
    assert ParseMonomial(lead + t) == Some(m) by {
      ParseMonoStr(m, vars, lead, t);
    }
    ParseAtPlus(lead, t, raw', all, m, rest);
  }

  /** `from_string(str(p))` gives back `p` for every polynomial in canonical
      form over variable names without `+`, `^` and whitespace; for the zero
      polynomial the printed `"0"` reads back as an empty polynomial. */
  lemma RoundTrip(ms: Terms, vars: seq<string>)
    requires Canonical(ms, vars) && GoodNames(vars)
    ensures FromString(Show(ms, vars)) == Some(ms)
  {
    if ms == [] {
      assert Show(ms, vars) == "0";
      ReadZero();
    } else {
      RoundTripNonZero(ms, vars);
    }
  }

  /** The text `"0"` reads back as the zero polynomial. */
  lemma ReadZero()
    ensures FromString("0") == Some([])
  {
    var z := Monomial([], 0);
    assert Split("0", '+') == ["0"] by {
      SplitNone("0", '+');
    }
    assert ParseMonomial("0") == Some(z) by {
      assert Words("0") == ["0"] by {
        WordsWord("0", "");
        assert "0" + "" == "0";
      }
      IntStrParses(0);
    }
    ParsePiecesOne("0", z);
    NormalizeSingle(z);
  }

  lemma RoundTripNonZero(ms: Terms, vars: seq<string>)
    requires ms != [] && Canonical(ms, vars) && GoodNames(vars)
    ensures FromString(Show(ms, vars)) == Some(ms)
  {
    var body := ShowParses(ms, vars);
    ReadCanonical(body, ms, vars);
  }

  /** The pieces of the printed form of nonzero terms parse back to them. */
  lemma ShowParses(ms: Terms, vars: seq<string>) returns (body: string)
    requires ms != [] && Canonical(ms, vars) && GoodNames(vars)
    ensures Show(ms, vars) == body && ParsePieces(Split(body, '+')) == Some(ms)
  {
    body := ShowIsBody(ms, vars);
    ParseShowRaw(ms, vars, "");
    ReadsBackUnled(ShowRaw(ms, vars, true), body, ms);
  }

  /** With no leading text, reading back is parsing the string without its
      final character. */
  lemma ReadsBackUnled(raw: string, body: string, ms: Terms)
    requires ReadsBack(raw, "", ms) && body == raw[..|raw| - 1]
    ensures ParsePieces(Split(body, '+')) == Some(ms)
  {
    assert "" + body == body;
  }

  /** The printed form of nonzero terms is the loop's string without its
      final space. */
  lemma ShowIsBody(ms: Terms, vars: seq<string>) returns (body: string)
    requires ms != [] && Canonical(ms, vars) && GoodNames(vars)
    ensures var raw := ShowRaw(ms, vars, true); raw != [] && body == raw[..|raw| - 1]
    ensures Show(ms, vars) == body
  {
    var raw := ShowRaw(ms, vars, true);
    ShowRawEnds(ms, vars);
    body := raw[..|raw| - 1];
    DropFinalSpace(raw);
    StripOneSpace(body);
  }

  /** Text whose pieces parse to canonical terms reads back as those terms. */
  lemma ReadCanonical(s: string, ms: Terms, vars: seq<string>)
    requires ParsePieces(Split(s, '+')) == Some(ms) && Canonical(ms, vars)
    ensures FromString(s) == Some(ms)
  {
    assert Uniform(ms) by {
      if ms != [] {
        assert |ms[0].degrees| == |vars|;
      }
    }
    NormalizeFixesCanonical(ms);
  }

  /** A polynomial and its negation `Polynomial([-1]) * p` compare `==` (see
      NegationIsEqual) yet print differently, whenever `p` is not zero. */
  lemma NegationPrintsDifferently(ms: Terms, vars: seq<string>)
    requires Canonical(ms, vars) && GoodNames(vars) && ms != []
    ensures var r := PolyMul(MinusOne(|vars|), ms, |vars|);
      Canonical(r, vars) && PolyEq(ms, r) && Show(ms, vars) != Show(r, vars)
  {
    var n := |vars|;
    var r := PolyMul(MinusOne(n), ms, n);
    NegationIsEqual(ms, n);
    assert Canonical(r, vars) by {
      assert forall k :: 0 <= k < |r| ==> r[k].degrees == ms[k].degrees && r[k].coefficient != 0;
    }
    RoundTrip(ms, vars);
    RoundTrip(r, vars);
  }
}
