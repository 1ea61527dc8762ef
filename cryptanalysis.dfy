/** The ciphertext-only attack of main_cryptanalysis.cpp: letter counting,
    the index of coincidence, the average index of coincidence of the cosets
    of every period from 2 to 15 and the choice of the two best periods, the
    chi-squared fit of a text against a language profile, Caesar shifts, and
    the key assembled from the best-fitting shift of every coset.
    The statistics are computed over `real`: what is proved is the formula
    and the selection logic, not floating-point rounding. */
module Cryptanalysis {
  import opened Ascii
  import opened Arith
  import opened Sequences
  import Cipher

  /** A language profile: one expected relative frequency per letter A..Z. */
  type Profile = t: seq<real> | |t| == 26 witness seq(26, _ => 0.0)

  /** A candidate with its score: a period with its average index of
      coincidence, or a shift with its chi-squared statistic. */
  type Scored = (int, real)

  // ---------------------------------------------------------------------
  // Letter frequencies

  /** Whether character c is an occurrence, in either case, of the letter of rank r. */
  predicate Hits(c: char, r: int)
    ensures Hits(c, r) ==> IsAlpha(c) && 0 <= r < 26
  {
    IsAlpha(c) && Rank(ToUpper(c)) == r
  }

  /** Occurrences of the letter of rank r in s, either case. */
  function Count(s: string, r: int): (n: nat)
    ensures n <= |s|
    ensures !(0 <= r < 26) ==> n == 0
  {
    if s == [] then 0 else Count(s[..|s| - 1], r) + (if Hits(s[|s| - 1], r) then 1 else 0)
  }

  /** The 26 letter counts of s, by rank. */
  function LetterCounts(s: string): (f: seq<nat>)
    ensures |f| == 26
  {
    seq(26, r => Count(s, r))
  }

  /** The table Frequency returns: slot r holds the letter of rank r and its count. */
  function FrequencyTable(s: string): (t: seq<(char, nat)>)
    ensures |t| == 26
    ensures forall r :: 0 <= r < 26 ==> IsUpper(t[r].0) && Rank(t[r].0) == r
  {
    seq(26, r requires 0 <= r < 26 => (Letter(r), Count(s, r)))
  }

  /** The second components of the frequency table are the letter counts. */
  lemma TableCounts(s: string, tab: seq<(char, nat)>, f: seq<nat>)
    requires tab == FrequencyTable(s) && f == LetterCounts(s)
    ensures |tab| == |f| == 26
    ensures forall j :: 0 <= j < 26 ==> tab[j].1 == f[j]
  {
  }

  lemma CountAppend(s: string, c: char, r: int)
    ensures Count(s + [c], r) == Count(s, r) + (if Hits(c, r) then 1 else 0)
  {
    assert (s + [c])[..|s|] == s;
  }

  /** The counts add up to the number of letters of s. */
  lemma {:induction false} LetterCountsSum(s: string)
    ensures Sum(LetterCounts(s)) == |Letters(s)|
    decreases |s|
  {
    if s == [] {
      ZeroSum(26);
      SumSame(seq(26, _ => 0), LetterCounts(s));
    } else {
      var s', c := s[..|s| - 1], s[|s| - 1];
      assert s == s' + [c];
      LetterCountsSum(s');
      LettersAppend(s', c);
      var a, b := LetterCounts(s'), LetterCounts(s);
      forall r | 0 <= r < 26
        ensures b[r] == a[r] + (if Hits(c, r) then 1 else 0)
      {
        CountAppend(s', c, r);
      }
      assert |Letters(s)| == |Letters(s')| + |LetterOf(c)|;
      if IsAlpha(c) {
        var j := Rank(ToUpper(c));
        assert 0 <= j < 26;
        assert Hits(c, j);
        SumBump(a, b, j);
        assert Sum(b) == Sum(a) + 1;
      } else {
        SumSame(a, b);
      }
    }
  }

  /** Counting is case-insensitive and blind to non-letters: s counts
      exactly like its letters-only upper-case form. */
  lemma {:induction false} CountOfLetters(s: string, r: int)
    ensures Count(Letters(s), r) == Count(s, r)
    decreases |s|
  {
    if s != [] {
      var s', c := s[..|s| - 1], s[|s| - 1];
      assert s == s' + [c];
      CountOfLetters(s', r);
      LettersAppend(s', c);
      CountAppend(s', c, r);
      var l := Letters(s');
      if IsAlpha(c) {
        var u := ToUpper(c);
        assert LetterOf(c) == [u];
        assert IsUpper(u) && ToUpper(u) == u;
        assert Hits(u, r) == Hits(c, r);
        CountAppend(l, u, r);
      } else {
        assert LetterOf(c) == [];
        assert l + LetterOf(c) == l;
      }
    }
  }

  lemma FrequencyOfLetters(s: string)
    ensures FrequencyTable(Letters(s)) == FrequencyTable(s)
  {
    forall r | 0 <= r < 26
      ensures FrequencyTable(Letters(s))[r] == FrequencyTable(s)[r]
    {
      CountOfLetters(s, r);
    }
  }

  // ---------------------------------------------------------------------
  // Index of coincidence

  /** The number of ordered pairs of equal letters: the sum of f (f - 1). */
  function Coincidences(f: seq<nat>): nat
  {
    if f == [] then 0 else Coincidences(f[..|f| - 1]) + Pairs(f[|f| - 1])
  }

  function Pairs(f: nat): nat
  {
    if f == 0 then 0 else f * (f - 1)
  }

  lemma PairsSquare(x: nat)
    ensures Pairs(x) + x == x * x
  {
  }

  /** There are no more equal pairs than pairs of letters: the sum of
      f (f - 1) is at most S (S - 1), S the total. */
  lemma {:induction false} CoincidencesBound(f: seq<nat>)
    ensures Coincidences(f) + Sum(f) <= Sum(f) * Sum(f)
    decreases |f|
  {
    if f != [] {
      var f', x := f[..|f| - 1], f[|f| - 1];
      CoincidencesBound(f');
      PairsSquare(x);
      SquareOfSum(Sum(f'), x);
    }
  }

  /** One more count added in floating point to the running sum of pairs. */
  lemma PairSumStep(f: seq<nat>, i: nat, sum: real, freq: real)
    requires i < |f| && sum == Coincidences(f[..i]) as real && freq == f[i] as real
    ensures sum + freq * (freq - 1.0) == Coincidences(f[..i + 1]) as real
  {
    TakeStep(f, i);
    PairsAsReal(f[i]);
  }

  /** f (f - 1) computed in floating point is the pair count of f. */
  lemma PairsAsReal(x: nat)
    ensures (x as real) * ((x as real) - 1.0) == Pairs(x) as real
  {
    if x > 0 {
      assert (x as real) * ((x as real) - 1.0) == (x * (x - 1)) as real;
    }
  }

  /** indexIC's last step: the reciprocal of n (n - 1) times the summed
      pair counts. */
  lemma IndexFromSum(s: string, sum: real)
    requires |s| > 1 && sum == Coincidences(LetterCounts(s)) as real
    ensures (1.0 / ((|s| * (|s| - 1)) as real)) * sum == IndexOfCoincidence(s)
  {
    var q := |s| * (|s| - 1);
    MulAtLeast(|s|, |s| - 1);
    RecipTimes(q, sum);
    assert IndexOfCoincidence(s) == sum / (q as real);
  }

  lemma RecipTimes(q: nat, x: real)
    requires q > 0
    ensures (1.0 / (q as real)) * x == x / (q as real)
  {
  }

  lemma RatioInUnit(a: nat, b: nat)
    requires 0 < b && a <= b
    ensures 0.0 <= (a as real) / (b as real) <= 1.0
  {
  }

  /** A text of n characters has at most n (n - 1) pairs of equal letters. */
  lemma CoincidenceRatio(s: string)
    requires |s| > 1
    ensures 0.0 <= (Coincidences(LetterCounts(s)) as real) / ((|s| * (|s| - 1)) as real) <= 1.0
  {
    var n, f := |s|, LetterCounts(s);
    LetterCountsSum(s);
    CoincidencesBound(f);
    PairsAtMost(Coincidences(f), Sum(f), n);
    MulAtLeast(n, n - 1);
    RatioInUnit(Coincidences(f), n * (n - 1));
  }

  /** The index of coincidence of s: the equal pairs of letters over all
      n (n - 1) ordered pairs of characters, n counting non-letters too;
      0 for a text of at most one character. */
  function IndexOfCoincidence(s: string): (ic: real)
    ensures 0.0 <= ic <= 1.0
    ensures |s| <= 1 ==> ic == 0.0
  {
    if |s| <= 1 then 0.0
    else
      var n := |s|;
      var f := LetterCounts(s);
      var pairs: nat := n * (n - 1);
      CoincidenceRatio(s);
      (Coincidences(f) as real) / (pairs as real)
  }

  // ---------------------------------------------------------------------
  // Cosets

  /** The characters of s at positions r, r + p, r + 2p, ... */
  function Coset(s: string, p: nat, r: nat): (c: string)
    requires p >= 1
    ensures c == [] <==> r >= |s|
    decreases |s| - r
  {
    if r >= |s| then [] else [s[r]] + Coset(s, p, r + p)
  }

  /** The p cosets of s for period p, in residue order. */
  function Cosets(s: string, p: nat): (cs: seq<string>)
    ensures |cs| == p
    ensures forall r :: 0 <= r < p ==> (cs[r] != [] <==> r < |s|)
  {
    seq(p, r requires 0 <= r < p => Coset(s, p, r))
  }

  /** Entry m of the coset from r is character r + m p of the text. */
  lemma {:induction false} CosetAt(s: string, p: nat, r: nat, m: nat)
    requires p >= 1 && m < |Coset(s, p, r)|
    ensures r + m * p < |s| && Coset(s, p, r)[m] == s[r + m * p]
    decreases m
  {
    if m > 0 {
      CosetAt(s, p, r + p, m - 1);
      MulSucc(m - 1, p);
    }
  }

  /** The coset from r runs to the end of the text: one more step would
      leave it. */
  lemma {:induction false} CosetEnd(s: string, p: nat, r: nat)
    requires p >= 1
    ensures r + |Coset(s, p, r)| * p >= |s|
    decreases |s| - r
  {
    if r < |s| {
      CosetEnd(s, p, r + p);
      MulSucc(|Coset(s, p, r + p)|, p);
    }
  }

  /** Appending a character to the text appends it to the one coset whose
      next position it occupies. */
  lemma {:induction false} CosetAppend(s: string, c: char, p: nat, r: nat)
    requires p >= 1
    ensures Coset(s + [c], p, r) == Coset(s, p, r) + (if r <= |s| && (|s| - r) % p == 0 then [c] else [])
    decreases |s| - r
  {
    if r < |s| {
      CosetAppend(s, c, p, r + p);
      if r + p <= |s| {
        ModAddN(|s| - r - p, p);
      } else {
        ModSmall(|s| - r, p);
      }
    }
  }

  /** Appending character i of s to the prefix before it appends it to
      coset i mod p and leaves the other cosets alone. */
  lemma CosetsGrow(s: string, i: nat, p: nat)
    requires p >= 1 && i < |s|
    ensures forall r :: 0 <= r < p ==>
      Coset(s[..i + 1], p, r) == Coset(s[..i], p, r) + (if r == i % p then [s[i]] else [])
  {
    TakeStep(s, i);
    forall r | 0 <= r < p
      ensures Coset(s[..i + 1], p, r) == Coset(s[..i], p, r) + (if r == i % p then [s[i]] else [])
    {
      CosetAppend(s[..i], s[i], p, r);
      NextCoset(i, p, r);
    }
  }

  /** The cosets of the whole text, gathered one by one, are its cosets. */
  lemma CosetsOfWhole(cs: seq<string>, s: string, p: nat)
    requires |cs| == p && (p >= 1 || s == [])
    requires forall r :: 0 <= r < p ==> cs[r] == Coset(s[..|s|], p, r)
    ensures cs == Cosets(s, p)
  {
    TakeAll(s);
  }

  /** For a residue r < p, the coset test of CosetAppend is |s| mod p == r. */
  lemma NextCoset(n: nat, p: nat, r: nat)
    requires p >= 1 && r < p
    ensures (r <= n && (n - r) % p == 0) <==> n % p == r
  {
    if r <= n && (n - r) % p == 0 {
      ModUnique(n, p, (n - r) / p, r);
    }
    if n % p == r {
      ModUnique(n - r, p, n / p, 0);
    }
  }

  /** Character i lands in coset i mod p at position i div p. */
  lemma CosetPosition(s: string, p: nat, i: nat)
    requires p >= 1 && i < |s|
    ensures i / p < |Coset(s, p, i % p)| && Coset(s, p, i % p)[i / p] == s[i]
  {
    var r, m := i % p, i / p;
    var k := |Coset(s, p, r)|;
    assert i == r + m * p;
    CosetEnd(s, p, r);
    if k <= m {
      if k < m { MulMonotone(k, m, p); }
      assert false;
    }
    CosetAt(s, p, r, m);
  }

  /** Two cosets of texts of equal length have equal length. */
  lemma CosetLength(s: string, t: string, p: nat, r: nat)
    requires p >= 1 && |s| == |t|
    ensures |Coset(s, p, r)| == |Coset(t, p, r)|
  {
    var a, b := |Coset(s, p, r)|, |Coset(t, p, r)|;
    CosetEnd(s, p, r);
    CosetEnd(t, p, r);
    if a < b {
      CosetAt(t, p, r, b - 1);
      if a < b - 1 { MulMonotone(a, b - 1, p); }
      assert false;
    } else if b < a {
      CosetAt(s, p, r, a - 1);
      if b < a - 1 { MulMonotone(b, a - 1, p); }
      assert false;
    }
  }

  /** The coset lengths add up to the length of the text, so every
      character belongs to exactly one coset. */
  lemma {:induction false} CosetLengthsSum(s: string, p: nat)
    requires p >= 1
    ensures Sum(seq(p, r requires 0 <= r < p => |Coset(s, p, r)|)) == |s|
    decreases |s|
  {
    var b := seq(p, r requires 0 <= r < p => |Coset(s, p, r)|);
    if s == [] {
      SumSame(seq(p, r => 0), b);
      ZeroSum(p);
    } else {
      var s', c := s[..|s| - 1], s[|s| - 1];
      assert s == s' + [c];
      CosetLengthsSum(s', p);
      var a := seq(p, r requires 0 <= r < p => |Coset(s', p, r)|);
      forall r | 0 <= r < p
        ensures b[r] == a[r] + (if r == |s'| % p then 1 else 0)
      {
        CosetAppend(s', c, p, r);
        NextCoset(|s'|, p, r);
      }
      SumBump(a, b, |s'| % p);
    }
  }

  /** Period 1 has a single coset, the whole text. */
  lemma {:induction false} CosetPeriodOne(s: string, r: nat)
    requires r <= |s|
    ensures Coset(s, 1, r) == s[r..]
    decreases |s| - r
  {
    if r < |s| {
      CosetPeriodOne(s, r + 1);
    }
  }

  // ---------------------------------------------------------------------
  // Average index of coincidence and the period search

  function SumIc(cs: seq<string>): (t: real)
    ensures 0.0 <= t <= |cs| as real
  {
    if cs == [] then 0.0 else SumIc(cs[..|cs| - 1]) + IndexOfCoincidence(cs[|cs| - 1])
  }

  /** The mean index of coincidence of the p cosets of s. */
  function AverageIc(s: string, p: nat): (avg: real)
    requires p >= 1
    ensures 0.0 <= avg <= 1.0
  {
    var t := SumIc(Cosets(s, p));
    MeanInUnit(t, p);
    t / (p as real)
  }

  /** A total of p values in [0, 1], divided by p, lies in [0, 1]. */
  lemma MeanInUnit(t: real, p: nat)
    requires p >= 1 && 0.0 <= t <= p as real
    ensures 0.0 <= t / (p as real) <= 1.0
  {
    var q := p as real;
    assert (t / q) * q == t;
  }

  /** The table AvgIc returns: entry j holds period j + 2 with its average
      index of coincidence, for the periods 2 to 15. */
  function AvgIcTable(s: string): (t: seq<Scored>)
    ensures |t| == 14
    ensures forall j :: 0 <= j < 14 ==> t[j].0 == j + 2 && 0.0 <= t[j].1 <= 1.0
  {
    seq(14, j requires 0 <= j < 14 => (j + 2, AverageIc(s, j + 2)))
  }

  /** Index of the first entry with the largest score, as std::max_element
      with a strict less-than finds it. */
  function FirstMax(v: seq<Scored>): (k: nat)
    requires |v| > 0
    ensures k < |v|
    ensures forall j :: 0 <= j < |v| ==> v[j].1 <= v[k].1
    ensures forall j :: 0 <= j < k ==> v[j].1 < v[k].1
  {
    if |v| == 1 then 0
    else
      var k' := FirstMax(v[..|v| - 1]);
      if v[k'].1 < v[|v| - 1].1 then |v| - 1 else k'
  }

  /** Index of the first entry with the smallest score, as std::min_element
      with a strict less-than finds it. */
  function FirstMin(v: seq<Scored>): (k: nat)
    requires |v| > 0
    ensures k < |v|
    ensures forall j :: 0 <= j < |v| ==> v[k].1 <= v[j].1
    ensures forall j :: 0 <= j < k ==> v[k].1 < v[j].1
  {
    if |v| == 1 then 0
    else
      var k' := FirstMin(v[..|v| - 1]);
      if v[|v| - 1].1 < v[k'].1 then |v| - 1 else k'
  }

  /** The first maximum once entry k1 is erased, read back in the indices
      of the whole sequence. */
  lemma FirstMaxOfRest(t: seq<Scored>, k1: nat)
    requires 2 <= |t| && k1 < |t|
    ensures var rest := t[..k1] + t[k1 + 1..];
      var k2 := FirstMax(rest);
      var j2 := if k2 < k1 then k2 else k2 + 1;
      j2 < |t| && j2 != k1 && rest[k2] == t[j2] &&
      (forall j :: 0 <= j < |t| && j != k1 ==> t[j].1 <= t[j2].1) &&
      (forall j :: 0 <= j < j2 && j != k1 ==> t[j].1 < t[j2].1)
  {
    var rest := t[..k1] + t[k1 + 1..];
    assert forall j :: 0 <= j < |rest| ==> rest[j] == t[if j < k1 then j else j + 1];
    var k2 := FirstMax(rest);
    var j2 := if k2 < k1 then k2 else k2 + 1;
    forall j | 0 <= j < |t| && j != k1
      ensures t[j].1 <= t[j2].1
    {
      assert t[j] == rest[if j < k1 then j else j - 1];
    }
    forall j | 0 <= j < j2 && j != k1
      ensures t[j].1 < t[j2].1
    {
      assert t[j] == rest[if j < k1 then j else j - 1];
    }
  }

  method MaxElement(v: seq<Scored>) returns (k: nat)
    requires |v| > 0
    ensures k == FirstMax(v)
  {
    k := 0;
    for i := 1 to |v|
      invariant k == FirstMax(v[..i])
    {
      TakeStep(v, i);
      if v[k].1 < v[i].1 {
        k := i;
      }
    }
    TakeAll(v);
  }

  method MinElement(v: seq<Scored>) returns (k: nat)
    requires |v| > 0
    ensures k == FirstMin(v)
  {
    k := 0;
    for i := 1 to |v|
      invariant k == FirstMin(v[..i])
    {
      TakeStep(v, i);
      if v[i].1 < v[k].1 {
        k := i;
      }
    }
    TakeAll(v);
  }

  // ---------------------------------------------------------------------
  // Chi-squared fit and Caesar shifts

  /** One letter's contribution: (o - e)^2 / e, skipped when e is not
      positive. The square over e is written d (d / e), its value over the
      reals. */
  function ChiTerm(observed: real, expected: real): (x: real)
    ensures x >= 0.0
    ensures x == 0.0 <==> expected <= 0.0 || observed == expected
  {
    if expected > 0.0 then
      SquareRatio(observed - expected, expected);
      (observed - expected) * ((observed - expected) / expected)
    else 0.0
  }

  lemma SquareRatio(d: real, e: real)
    requires e > 0.0
    ensures d * (d / e) >= 0.0
    ensures d * (d / e) == 0.0 <==> d == 0.0
  {
    if d > 0.0 {
      assert d / e > 0.0;
      PositiveProduct(d, d / e);
    } else if d < 0.0 {
      assert d / e < 0.0;
      PositiveProduct(-d, -(d / e));
      assert (-d) * (-(d / e)) == d * (d / e);
    }
  }

  lemma PositiveProduct(a: real, b: real)
    requires a > 0.0 && b > 0.0
    ensures a * b > 0.0
  {
  }

  function ChiSum(obs: seq<nat>, exp: seq<real>): (x: real)
    requires |obs| == |exp|
    ensures x >= 0.0
  {
    if obs == [] then 0.0
    else ChiSum(obs[..|obs| - 1], exp[..|exp| - 1]) + ChiTerm(obs[|obs| - 1] as real, exp[|exp| - 1])
  }

  /** One more letter adds its own term to the running sum; chiSquared
      adds it only when the expected count is positive. */
  lemma ChiSumStep(obs: seq<nat>, exp: seq<real>, i: nat, observed: real, expected: real,
                   before: real, after: real)
    requires |obs| == |exp| && i < |obs| && observed == obs[i] as real && expected == exp[i]
    requires before == ChiSum(obs[..i], exp[..i])
    requires after == if expected > 0.0
      then before + (observed - expected) * ((observed - expected) / expected) else before
    ensures after == ChiSum(obs[..i + 1], exp[..i + 1])
  {
    TakeStep(obs, i);
    TakeStep(exp, i);
  }

  /** A sum of chi-squared terms is 0 exactly when every letter with a
      positive expectation is observed exactly as often as expected. */
  lemma {:induction false} ChiSumZero(obs: seq<nat>, exp: seq<real>)
    requires |obs| == |exp|
    ensures ChiSum(obs, exp) == 0.0 <==>
      forall i :: 0 <= i < |obs| && exp[i] > 0.0 ==> obs[i] as real == exp[i]
    decreases |obs|
  {
    if obs != [] {
      var n := |obs| - 1;
      ChiSumZero(obs[..n], exp[..n]);
      assert forall i :: 0 <= i < n ==> obs[..n][i] == obs[i] && exp[..n][i] == exp[i];
    }
  }

  /** The expected counts of a text of n characters under a profile. */
  function Expected(targets: Profile, n: nat): (e: seq<real>)
    ensures |e| == 26
    ensures n == 0 ==> forall i :: 0 <= i < 26 ==> e[i] == 0.0
  {
    seq(26, i requires 0 <= i < 26 => targets[i] * (n as real))
  }

  /** The chi-squared statistic of s against the profile, n = |s| counting
      non-letters too. */
  function ChiSquaredStat(targets: Profile, s: string): (x: real)
    ensures x >= 0.0
  {
    ChiSum(LetterCounts(s), Expected(targets, |s|))
  }

  /** The statistic is 0 exactly when every letter expected at all occurs
      exactly as often as the profile predicts. */
  lemma ChiSquaredZero(targets: Profile, s: string)
    ensures ChiSquaredStat(targets, s) == 0.0 <==>
      forall i :: 0 <= i < 26 && Expected(targets, |s|)[i] > 0.0 ==>
        Count(s, i) as real == Expected(targets, |s|)[i]
  {
    var obs, exp := LetterCounts(s), Expected(targets, |s|);
    ChiSumZero(obs, exp);
    assert forall i :: 0 <= i < 26 ==> obs[i] == Count(s, i);
  }

  /** applyShift on one character: a letter of either case moves shift
      places back in the alphabet and comes out upper case, with C's `%`;
      anything else is kept. */
  function ShiftChar(c: char, shift: int): (d: char)
    ensures !IsAlpha(c) ==> d == c
    ensures IsAlpha(c) && 0 <= shift <= 25 ==>
      IsUpper(d) && Rank(d) == (Rank(ToUpper(c)) - shift) % 26
  {
    if IsAlpha(c) then ('A' as int + CRem26(Rank(ToUpper(c)) - shift + 26)) as char else c
  }

  function Shifted(s: string, shift: int): (t: string)
    ensures |t| == |s|
  {
    seq(|s|, i requires 0 <= i < |s| => ShiftChar(s[i], shift))
  }

  /** Shift 0 only folds letters to upper case. */
  lemma ShiftZero(s: string)
    ensures Shifted(s, 0) == seq(|s|, i requires 0 <= i < |s| => ToUpper(s[i]))
  {
  }

  /** Shifting by a and then by b is shifting by (a + b) mod 26. */
  lemma ShiftCompose(s: string, a: int, b: int)
    requires 0 <= a <= 25 && 0 <= b <= 25
    ensures Shifted(Shifted(s, a), b) == Shifted(s, (a + b) % 26)
  {
    forall i | 0 <= i < |s|
      ensures Shifted(Shifted(s, a), b)[i] == Shifted(s, (a + b) % 26)[i]
    {
      ShiftCharCompose(s[i], a, b);
    }
  }

  lemma ShiftCharCompose(c: char, a: int, b: int)
    requires 0 <= a <= 25 && 0 <= b <= 25
    ensures ShiftChar(ShiftChar(c, a), b) == ShiftChar(c, (a + b) % 26)
  {
    if IsAlpha(c) {
      var d := ShiftChar(c, a);
      assert ToUpper(d) == d;
      var x := Rank(ToUpper(c));
      ModSub26(x, a);
      ModSub26(Rank(d), b);
      ModAdd26(a, b);
      ModSub26(x, (a + b) % 26);
      var e1, e2 := ShiftChar(d, b), ShiftChar(c, (a + b) % 26);
      assert e1 as int == e2 as int;
    }
  }

  /** The chi-squared statistic of every shift of a coset, by shift. */
  function ShiftTable(targets: Profile, c: string): (t: seq<Scored>)
    ensures |t| == 26
    ensures forall sh :: 0 <= sh < 26 ==> t[sh].0 == sh && t[sh].1 >= 0.0
  {
    seq(26, sh requires 0 <= sh < 26 => (sh, ChiSquaredStat(targets, Shifted(c, sh))))
  }

  /** The best fit of a coset: the smallest shift whose shifted coset has
      the least chi-squared statistic, with that statistic. */
  function BestFit(targets: Profile, c: string): (b: Scored)
    ensures 0 <= b.0 < 26
    ensures b.1 == ChiSquaredStat(targets, Shifted(c, b.0))
    ensures forall sh :: 0 <= sh < 26 ==> b.1 <= ChiSquaredStat(targets, Shifted(c, sh))
    ensures forall sh :: 0 <= sh < b.0 ==> b.1 < ChiSquaredStat(targets, Shifted(c, sh))
  {
    var t := ShiftTable(targets, c);
    var k := FirstMin(t);
    assert forall sh :: 0 <= sh < 26 ==> t[sh].1 == ChiSquaredStat(targets, Shifted(c, sh));
    t[k]
  }

  /** A coset of a text encrypted with the cyclic key is brought back by the
      shift 26 - k (mod 26), k the rank of the key letter of that coset:
      encryption subtracts the key letter and so does applyShift. */
  lemma ShiftRecoversCoset(base: string, text: string, r: nat)
    requires base != [] && AllUpper(base) && r < |base|
    ensures Shifted(Coset(Cipher.CyclicEncrypt(base, text), |base|, r), (26 - Rank(base[r])) % 26)
         == Coset(Letters(text), |base|, r)
  {
    var e := Cipher.CyclicEncrypt(base, text);
    ShiftUndoesCoset(e, Letters(text), base, r);
  }

  /** The same for any pair of texts related letter by letter as cyclic
      encryption relates them. */
  lemma ShiftUndoesCoset(e: string, l: string, base: string, r: nat)
    requires base != [] && AllUpper(base) && r < |base| && Cipher.SubtractsKey(e, l, base)
    ensures Shifted(Coset(e, |base|, r), (26 - Rank(base[r])) % 26) == Coset(l, |base|, r)
  {
    var p := |base|;
    var ce, cl := Coset(e, p, r), Coset(l, p, r);
    var k := base[r];
    CosetLength(e, l, p, r);
    forall m | 0 <= m < |ce|
      ensures Shifted(ce, (26 - Rank(k)) % 26)[m] == cl[m]
    {
      CosetAt(e, p, r, m);
      CosetAt(l, p, r, m);
      EntryOfCoset(e, l, base, r, m);
    }
  }

  lemma EntryOfCoset(e: string, l: string, base: string, r: nat, m: nat)
    requires base != [] && AllUpper(base) && r < |base| && Cipher.SubtractsKey(e, l, base)
    requires r + m * |base| < |e|
    ensures ShiftChar(e[r + m * |base|], (26 - Rank(base[r])) % 26) == l[r + m * |base|]
  {
    var i := r + m * |base|;
    ModUnique(i, |base|, m, r);
    ShiftUndoesKey(e[i], l[i], base[r]);
  }

  /** Shifting by 26 - k undoes subtracting the key letter of rank k. */
  lemma ShiftUndoesKey(c: char, plain: char, k: char)
    requires IsUpper(c) && IsUpper(plain) && IsUpper(k)
    requires Rank(c) == (Rank(plain) - Rank(k)) % 26
    ensures ShiftChar(c, (26 - Rank(k)) % 26) == plain
  {
    var p, key := Rank(plain), Rank(k);
    var sh := (26 - key) % 26;
    if key == 0 {
      ModUnique(26, 26, 1, 0);
    } else {
      ModSmall(26 - key, 26);
    }
    ModSub26(p, key);
    ModSub26(Rank(c), sh);
    var d := ShiftChar(c, sh);
    assert d as int == plain as int;
  }

  /** On an upper-case letter, applyShift by sh is encrypt's step with the
      key letter of rank sh: the key reconstitutionKey assembles is therefore
      the key that, fed to encrypt, turns each ciphertext coset into its
      best-fitting shift. */
  lemma ShiftIsEncryptChar(c: char, sh: int)
    requires IsUpper(c) && 0 <= sh < 26
    ensures ShiftChar(c, sh) == Cipher.EncryptChar(c, Letter(sh))
  {
  }

  /** A shift by sh sends the letter of rank (r + sh) mod 26 to rank r. */
  lemma ShiftCharHits(c: char, sh: int, r: int)
    requires 0 <= sh <= 25 && 0 <= r < 26
    ensures Hits(ShiftChar(c, sh), r) <==> Hits(c, (r + sh) % 26)
  {
    if IsAlpha(c) {
      var d := ShiftChar(c, sh);
      assert ToUpper(d) == d;
      ModSub26(Rank(ToUpper(c)), sh);
      ModAdd26(r, sh);
    }
  }

  lemma {:induction false} CountShifted(s: string, sh: int, r: int)
    requires 0 <= sh <= 25 && 0 <= r < 26
    ensures Count(Shifted(s, sh), r) == Count(s, (r + sh) % 26)
    decreases |s|
  {
    if s != [] {
      var s', c := s[..|s| - 1], s[|s| - 1];
      assert Shifted(s, sh)[..|s| - 1] == Shifted(s', sh);
      CountShifted(s', sh, r);
      ShiftCharHits(c, sh, r);
    }
  }

  /** The counts of a shifted text are the counts of the text rotated by sh. */
  lemma CountsRotated(s: string, sh: int)
    requires 0 <= sh <= 25
    ensures LetterCounts(Shifted(s, sh)) == LetterCounts(s)[sh..] + LetterCounts(s)[..sh]
  {
    var f := LetterCounts(s);
    forall r | 0 <= r < 26
      ensures LetterCounts(Shifted(s, sh))[r] == (f[sh..] + f[..sh])[r]
    {
      CountShifted(s, sh, r);
      if r + sh < 26 {
        ModSmall(r + sh, 26);
      } else {
        ModSmall(r + sh - 26, 26);
        ModAddN(r + sh - 26, 26);
      }
    }
  }

  lemma {:induction false} CoincidencesConcat(a: seq<nat>, b: seq<nat>)
    ensures Coincidences(a + b) == Coincidences(a) + Coincidences(b)
    decreases |b|
  {
    if b == [] {
      assert a + b == a;
    } else {
      var b' := b[..|b| - 1];
      assert (a + b)[..|a + b| - 1] == a + b';
      CoincidencesConcat(a, b');
    }
  }

  /** A Caesar shift only renames the letters, so it keeps the index of
      coincidence. */
  lemma IcShiftInvariant(s: string, sh: int)
    requires 0 <= sh <= 25
    ensures IndexOfCoincidence(Shifted(s, sh)) == IndexOfCoincidence(s)
  {
    var f := LetterCounts(s);
    CountsRotated(s, sh);
    CoincidencesConcat(f[sh..], f[..sh]);
    CoincidencesConcat(f[..sh], f[sh..]);
    assert f[..sh] + f[sh..] == f;
  }

  lemma {:induction false} SumIcSame(a: seq<string>, b: seq<string>)
    requires |a| == |b|
    requires forall i :: 0 <= i < |a| ==> IndexOfCoincidence(a[i]) == IndexOfCoincidence(b[i])
    ensures SumIc(a) == SumIc(b)
    decreases |a|
  {
    if a != [] {
      var n := |a| - 1;
      SumIcSame(a[..n], b[..n]);
    }
  }

  /** At the key's own length, every coset of the ciphertext is a Caesar
      shift of the matching coset of the plaintext letters, so the average
      index of coincidence AvgIc reports for that period is the plaintext's. */
  lemma AverageIcAtKeyLength(base: string, text: string)
    requires base != [] && AllUpper(base)
    ensures AverageIc(Cipher.CyclicEncrypt(base, text), |base|) == AverageIc(Letters(text), |base|)
  {
    var p := |base|;
    var e, l := Cipher.CyclicEncrypt(base, text), Letters(text);
    forall r | 0 <= r < p
      ensures IndexOfCoincidence(Cosets(e, p)[r]) == IndexOfCoincidence(Cosets(l, p)[r])
    {
      ShiftRecoversCoset(base, text, r);
      IcShiftInvariant(Coset(e, p, r), (26 - Rank(base[r])) % 26);
    }
    SumIcSame(Cosets(e, p), Cosets(l, p));
  }

  // ---------------------------------------------------------------------
  // The engine

  class VigenereCryptanalysis {
    const targets: Profile

    constructor (targetFreqs: Profile)
      ensures targets == targetFreqs
    {
      targets := targetFreqs;
    }

    method Frequency(input: string) returns (tab: seq<(char, nat)>)
      ensures tab == FrequencyTable(input)
    {
      var a := new (char, nat)[26];
      for i := 0 to 26
        invariant forall r :: 0 <= r < i ==> a[r] == (Letter(r), 0)
      {
        a[i] := (Letter(i), 0);
      }
      for i := 0 to |input|
        invariant forall r :: 0 <= r < 26 ==> a[r] == (Letter(r), Count(input[..i], r))
      {
        TakeStep(input, i);
        forall r | 0 <= r < 26 {
          CountAppend(input[..i], input[i], r);
        }
        if IsAlpha(input[i]) {
          var upperChar := ToUpper(input[i]);
          var r := Rank(upperChar);
          a[r] := (a[r].0, a[r].1 + 1);
        }
      }
      TakeAll(input);
      tab := a[..];
    }

    method IndexIC(input: string) returns (ic: real)
      ensures ic == IndexOfCoincidence(input)
    {
      var tab := Frequency(input);
      ic := 0.0;
      var n := |input|;
      if n > 1 {
        var sum := 0.0;
        ghost var f := LetterCounts(input);
        TableCounts(input, tab, f);
        for i := 0 to 26
          invariant sum == Coincidences(f[..i]) as real
        {
          var freq := tab[i].1 as real;
          PairSumStep(f, i, sum, freq);
          sum := sum + freq * (freq - 1.0);
        }
        TakeAll(f);
        MulAtLeast(n, n - 1);
        ic := 1.0 / ((n * (n - 1)) as real);
        IndexFromSum(input, sum);
        ic := ic * sum;
      }
    }

    method SequenceDePeriod(input: string, period: int) returns (sequences: seq<string>)
      requires period >= 1 || (period == 0 && input == [])
      ensures sequences == Cosets(input, period)
    {
      sequences := seq(period, _ => "");
      for i := 0 to |input|
        invariant |sequences| == period
        invariant forall r :: 0 <= r < period ==> sequences[r] == Coset(input[..i], period, r)
      {
        CosetsGrow(input, i, period);
        sequences := sequences[i % period := sequences[i % period] + [input[i]]];
      }
      CosetsOfWhole(sequences, input, period);
    }

    method AvgIc(input: string) returns (averageIC: seq<Scored>)
      ensures averageIC == AvgIcTable(input)
    {
      averageIC := seq(14, _ => (0, 0.0));
      for keyLength := 2 to 16
        invariant |averageIC| == 14
        invariant forall j :: 0 <= j < keyLength - 2 ==> averageIC[j] == AvgIcTable(input)[j]
      {
        var sequences := SequenceDePeriod(input, keyLength);
        var totalIC := 0.0;
        for i := 0 to keyLength
          invariant totalIC == SumIc(sequences[..i])
        {
          TakeStep(sequences, i);
          var ic := IndexIC(sequences[i]);
          totalIC := totalIC + ic;
        }
        TakeAll(sequences);
        averageIC := averageIC[keyLength - 2 := (keyLength, totalIC / keyLength as real)];
      }
    }

    /** The two periods with the highest average index of coincidence: the
        first maximum, then the first maximum of the thirteen others. */
    method PeriodFind(input: string) returns (max1: Scored, max2: Scored)
      ensures var t := AvgIcTable(input);
        2 <= max1.0 <= 15 && max1 == t[max1.0 - 2] &&
        (forall j :: 0 <= j < 14 ==> t[j].1 <= max1.1) &&
        (forall j :: 0 <= j < max1.0 - 2 ==> t[j].1 < max1.1)
      ensures var t := AvgIcTable(input);
        2 <= max2.0 <= 15 && max2.0 != max1.0 && max2 == t[max2.0 - 2] &&
        (forall j :: 0 <= j < 14 && j != max1.0 - 2 ==> t[j].1 <= max2.1) &&
        (forall j :: 0 <= j < max2.0 - 2 && j != max1.0 - 2 ==> t[j].1 < max2.1)
    {
      var ic := AvgIc(input);
      ghost var t := ic;
      var k1 := MaxElement(ic);
      max1 := ic[k1];
      ic := ic[..k1] + ic[k1 + 1..];
      var k2 := MaxElement(ic);
      max2 := ic[k2];
      FirstMaxOfRest(t, k1);
      ghost var j2 := if k2 < k1 then k2 else k2 + 1;
      assert max1.0 == k1 + 2 && max2 == t[j2] && max2.0 == j2 + 2;
    }

    method ChiSquared(input: string) returns (chiSquaredValue: real)
      ensures chiSquaredValue == ChiSquaredStat(targets, input)
    {
      var tab := Frequency(input);
      ghost var obs, exp := LetterCounts(input), Expected(targets, |input|);
      TableCounts(input, tab, obs);
      assert forall j :: 0 <= j < 26 ==> targets[j] * (|input| as real) == exp[j];
      chiSquaredValue := 0.0;
      for i := 0 to 26
        invariant chiSquaredValue == ChiSum(obs[..i], exp[..i])
      {
        var observed := tab[i].1 as real;
        var expected := targets[i] * (|input| as real);
        ghost var before := chiSquaredValue;
        if expected > 0.0 {
          chiSquaredValue := chiSquaredValue + (observed - expected) * ((observed - expected) / expected);
        }
        ChiSumStep(obs, exp, i, observed, expected, before, chiSquaredValue);
      }
      TakeAll(obs);
      TakeAll(exp);
    }

    method ApplyShift(sequence: string, shift: int) returns (shiftedSequence: string)
      ensures shiftedSequence == Shifted(sequence, shift)
    {
      shiftedSequence := sequence;
      for k := 0 to |shiftedSequence|
        invariant |shiftedSequence| == |sequence|
        invariant forall j :: 0 <= j < k ==> shiftedSequence[j] == ShiftChar(sequence[j], shift)
        invariant forall j :: k <= j < |sequence| ==> shiftedSequence[j] == sequence[j]
      {
        if IsAlpha(shiftedSequence[k]) {
          shiftedSequence := shiftedSequence[k :=
            ('A' as int + CRem26(Rank(ToUpper(shiftedSequence[k])) - shift + 26)) as char];
        }
      }
    }

    /** For every coset, the best shift and its statistic. */
    method CalculDeChiSurSequences(input: string, period: int) returns (resultatChi: seq<Scored>)
      requires period >= 1 || (period == 0 && input == [])
      ensures |resultatChi| == period
      ensures forall r :: 0 <= r < period ==> resultatChi[r] == BestFit(targets, Coset(input, period, r))
    {
      var sequences := SequenceDePeriod(input, period);
      resultatChi := seq(period, _ => (0, 0.0));
      for i := 0 to |sequences|
        invariant |resultatChi| == period
        invariant forall r :: 0 <= r < i ==> resultatChi[r] == BestFit(targets, sequences[r])
      {
        var tableau: seq<Scored> := seq(26, _ => (0, 0.0));
        for shift := 0 to 26
          invariant |tableau| == 26
          invariant forall sh :: 0 <= sh < shift ==> tableau[sh] == ShiftTable(targets, sequences[i])[sh]
        {
          var shiftedSequence := ApplyShift(sequences[i], shift);
          var chi := ChiSquared(shiftedSequence);
          tableau := tableau[shift := (shift, chi)];
        }
        assert tableau == ShiftTable(targets, sequences[i]);
        var minChi := MinElement(tableau);
        resultatChi := resultatChi[i := tableau[minChi]];
      }
    }

    /** The key: for every coset, the letter of its best shift. */
    method ReconstitutionKey(input: string, period: int) returns (key: string)
      requires period >= 1 || (period == 0 && input == [])
      ensures |key| == period && AllUpper(key)
      ensures forall r :: 0 <= r < period ==> key[r] == Letter(BestFit(targets, Coset(input, period, r)).0)
    {
      var statChi := CalculDeChiSurSequences(input, period);
      key := seq(period, _ => ' ');
      for i := 0 to period
        invariant |key| == period
        invariant forall r :: 0 <= r < i ==> key[r] == Letter(statChi[r].0)
      {
        key := key[i := ('A' as int + statChi[i].0) as char];
      }
    }
  }
}
