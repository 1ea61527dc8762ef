/** Character classes and small arithmetic helpers shared by the cipher and
    the cryptanalysis engine. Characters are treated as ASCII: a letter is
    'A'..'Z' or 'a'..'z', as `isalpha`/`toupper` behave in the "C" locale. */
module Ascii {

  import opened Sequences
  import opened Arith

  predicate IsUpper(c: char) { 'A' <= c <= 'Z' }

  predicate IsLower(c: char) { 'a' <= c <= 'z' }

  predicate IsAlpha(c: char) { IsUpper(c) || IsLower(c) }

  predicate AllUpper(s: string) { forall i :: 0 <= i < |s| ==> IsUpper(s[i]) }

  /** `toupper` on ASCII: lower-case letters move 32 code points down,
      everything else is returned unchanged. */
  function ToUpper(c: char): (u: char)
    ensures IsLower(c) ==> IsUpper(u) && u as int - 'A' as int == c as int - 'a' as int
    ensures !IsLower(c) ==> u == c
  {
    if IsLower(c) then (c as int - 'a' as int + 'A' as int) as char else c
  }

  /** Rank of a letter in the alphabet: 'A' is 0, 'Z' is 25. */
  function Rank(c: char): (r: int)
    ensures IsUpper(c) <==> 0 <= r < 26
  {
    c as int - 'A' as int
  }

  /** The upper-case letter of rank r. */
  function Letter(r: int): (c: char)
    requires 0 <= r < 26
    ensures IsUpper(c) && Rank(c) == r
  {
    ('A' as int + r) as char
  }

  /** The remainder of C and C++'s `%` by 26 on `int`: the quotient is
      truncated toward zero, so the remainder takes the sign of the dividend
      (Dafny's own `%` is Euclidean and never negative). */
  function CRem26(a: int): (r: int)
    ensures -26 < r < 26
    ensures a >= 0 ==> r == a % 26
    ensures a < 0 ==> r <= 0
    ensures (a - r) % 26 == 0
  {
    if a >= 0 then a % 26
    else
      var m := (-a) % 26;
      assert a + m == -((-a) / 26) * 26;
      ModUnique(a + m, 26, -((-a) / 26), 0);
      -m
  }

  /** What one character contributes to the letters-only, upper-cased form
      of a text. */
  function LetterOf(c: char): (s: string)
    ensures |s| <= 1 && AllUpper(s)
    ensures IsAlpha(c) <==> |s| == 1
    ensures IsAlpha(c) ==> s == [ToUpper(c)]
  {
    if IsUpper(c) then [c]
    else if IsLower(c) then [ToUpper(c)]
    else []
  }

  /** The ASCII letters of s, in order, with lower case folded to upper case.
      Defined on prefixes, in the order a left-to-right loop appends them. */
  function Letters(s: string): (r: string)
    ensures AllUpper(r)
    ensures |r| <= |s|
  {
    if s == [] then [] else Letters(s[..|s| - 1]) + LetterOf(s[|s| - 1])
  }

  lemma {:induction false} LettersAppend(s: string, c: char)
    ensures Letters(s + [c]) == Letters(s) + LetterOf(c)
  {
    assert (s + [c])[..|s|] == s;
  }

  /** Taking letters commutes with concatenation, so the letters keep the
      order they had in the text. */
  lemma {:induction false} LettersConcat(a: string, b: string)
    ensures Letters(a + b) == Letters(a) + Letters(b)
    decreases |b|
  {
    if b == [] {
      assert a + b == a;
    } else {
      var b', c := b[..|b| - 1], b[|b| - 1];
      SplitLast(b);
      SeqAssoc(a, b', [c]);
      LettersAppend(a + b', c);
      LettersConcat(a, b');
      LettersAppend(b', c);
      SeqAssoc(Letters(a), Letters(b'), LetterOf(c));
    }
  }

  /** A text that is already upper-case letters only is its own letters form. */
  lemma {:induction false} LettersOfUpper(s: string)
    requires AllUpper(s)
    ensures Letters(s) == s
    decreases |s|
  {
    if s != [] {
      assert s == s[..|s| - 1] + [s[|s| - 1]];
      LettersOfUpper(s[..|s| - 1]);
    }
  }

  /** Taking the letters twice changes nothing. */
  lemma LettersIdempotent(s: string)
    ensures Letters(Letters(s)) == Letters(s)
  {
    LettersOfUpper(Letters(s));
  }
}
