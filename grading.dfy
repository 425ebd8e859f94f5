/** Grading of a typed ("dictee") answer: the answer is stripped of
    surrounding white space, both words are lower-cased, and the mismatch
    is the length difference plus the number of differing positions within
    the shorter length. This is deliberately not an edit distance. */
module Grading {
  import opened Util

  /** Upper-case letters that this model folds: ASCII A-Z and the Latin-1
      capitals U+00C0..U+00DE except the multiplication sign U+00D7. */
  predicate IsUpper(c: char)
  {
    ('A' <= c <= 'Z') || ('\U{C0}' <= c <= '\U{DE}' && c != '\U{D7}')
  }

  /** One character of Python's `str.lower()`, on the letters of `IsUpper`. */
  function Lower(c: char): (r: char)
    ensures IsUpper(c) ==> r as int == c as int + 32
    ensures !IsUpper(c) ==> r == c
  {
    if IsUpper(c) then (c as int + 32) as char else c
  }

  /** `str.lower()` on the letters of `IsUpper`: no capital is left, and
      every other character stays where it was. */
  function LowerStr(s: string): (r: string)
    ensures |r| == |s| && forall k :: 0 <= k < |s| ==> r[k] == Lower(s[k])
    ensures forall k :: 0 <= k < |r| ==> !IsUpper(r[k])
    ensures forall k :: 0 <= k < |s| && !IsUpper(s[k]) ==> r[k] == s[k]
    ensures forall k :: 0 <= k < |s| && IsUpper(s[k]) ==> r[k] as int == s[k] as int + 32
  {
    seq(|s|, k requires 0 <= k < |s| => Lower(s[k]))
  }

  lemma LowerIdempotent(c: char)
    ensures Lower(Lower(c)) == Lower(c)
  {
  }

  lemma LowerStrIdempotent(s: string)
    ensures LowerStr(LowerStr(s)) == LowerStr(s)
  {
    forall k | 0 <= k < |s| ensures LowerStr(LowerStr(s))[k] == LowerStr(s)[k] {
      LowerIdempotent(s[k]);
    }
  }

  /** Python's `str.isspace()` for one character: the characters Python
      strips by default. */
  predicate IsSpace(c: char)
  {
    ('\t' <= c <= '\U{D}') || ('\U{1C}' <= c <= ' ') || c == '\U{85}' || c == '\U{A0}'
    || c == '\U{1680}' || ('\U{2000}' <= c <= '\U{200A}') || c == '\U{2028}' || c == '\U{2029}'
    || c == '\U{202F}' || c == '\U{205F}' || c == '\U{3000}'
  }

  /** Number of white-space characters at the start of `s`. */
  function LeadingSpace(s: string): (n: nat)
    ensures n <= |s|
    ensures forall k :: 0 <= k < n ==> IsSpace(s[k])
    ensures n < |s| ==> !IsSpace(s[n])
  {
    if |s| == 0 || !IsSpace(s[0]) then 0 else 1 + LeadingSpace(s[1..])
  }

  /** Number of white-space characters at the end of `s`. */
  function TrailingSpace(s: string): (n: nat)
    ensures n <= |s|
    ensures forall k :: |s| - n <= k < |s| ==> IsSpace(s[k])
    ensures n < |s| ==> !IsSpace(s[|s| - n - 1])
  {
    if |s| == 0 || !IsSpace(s[|s| - 1]) then 0 else 1 + TrailingSpace(s[..|s| - 1])
  }

  /** Python's `str.strip()`: `s` without its leading and trailing white
      space. The result is the slice of `s` that starts after the leading
      white space; it neither starts nor ends with white space, and every
      character removed after it is white space. */
  function Strip(s: string): (r: string)
    ensures LeadingSpace(s) + |r| <= |s|
    ensures r == s[LeadingSpace(s)..LeadingSpace(s) + |r|]
    ensures forall k :: LeadingSpace(s) + |r| <= k < |s| ==> IsSpace(s[k])
    ensures r != [] ==> !IsSpace(r[0]) && !IsSpace(r[|r| - 1])
  {
    var i := LeadingSpace(s);
    if i == |s| then [] else s[i..|s| - TrailingSpace(s)]
  }

  /** Number of positions below `n` where `a` and `b` differ (the generator
      sum of `calculate_mismatch`). */
  function DiffCount(a: string, b: string, n: nat): nat
    requires n <= |a| && n <= |b|
  {
    if n == 0 then 0 else DiffCount(a, b, n - 1) + (if a[n - 1] != b[n - 1] then 1 else 0)
  }

  /** The positions below `n` where `a` and `b` differ. */
  ghost function DiffPositions(a: string, b: string, n: nat): set<nat>
    requires n <= |a| && n <= |b|
  {
    set k: nat | k < n && a[k] != b[k]
  }

  lemma {:induction false} DiffCountIsSize(a: string, b: string, n: nat)
    requires n <= |a| && n <= |b|
    ensures DiffCount(a, b, n) == |DiffPositions(a, b, n)|
  {
    if n > 0 {
      DiffCountIsSize(a, b, n - 1);
      if a[n - 1] != b[n - 1] {
        assert DiffPositions(a, b, n) == DiffPositions(a, b, n - 1) + {n - 1};
      } else {
        assert DiffPositions(a, b, n) == DiffPositions(a, b, n - 1);
      }
    }
  }

  /** `calculate_mismatch(word1, word2)`: both words lower-cased, then the
      length difference plus the differing positions of the common prefix. */
  function Mismatch(word1: string, word2: string): nat
  {
    var a := LowerStr(word1);
    var b := LowerStr(word2);
    Abs(|a| - |b|) + DiffCount(a, b, Min(|a|, |b|))
  }

  /** The mismatch is the length difference plus the number of positions,
      within the shorter word, where the lower-cased words differ. */
  lemma MismatchCountsDifferences(word1: string, word2: string)
    ensures Mismatch(word1, word2) == Abs(|word1| - |word2|)
              + |DiffPositions(LowerStr(word1), LowerStr(word2), Min(|word1|, |word2|))|
  {
    var a := LowerStr(word1);
    var b := LowerStr(word2);
    DiffCountIsSize(a, b, Min(|a|, |b|));
  }

  lemma {:induction false} DiffCountSymmetric(a: string, b: string, n: nat)
    requires n <= |a| && n <= |b|
    ensures DiffCount(a, b, n) == DiffCount(b, a, n)
  {
    if n > 0 {
      DiffCountSymmetric(a, b, n - 1);
    }
  }

  lemma {:induction false} DiffCountZero(a: string, b: string, n: nat)
    requires n <= |a| && n <= |b|
    ensures DiffCount(a, b, n) == 0 <==> a[..n] == b[..n]
  {
    if n > 0 {
      DiffCountZero(a, b, n - 1);
      assert a[..n] == a[..n - 1] + [a[n - 1]];
      assert b[..n] == b[..n - 1] + [b[n - 1]];
      if a[..n] == b[..n] {
        assert a[..n - 1] == a[..n][..n - 1];
        assert b[..n - 1] == b[..n][..n - 1];
      }
    }
  }

  lemma {:induction false} DiffCountAtMost(a: string, b: string, n: nat)
    requires n <= |a| && n <= |b|
    ensures DiffCount(a, b, n) <= n
  {
    if n > 0 {
      DiffCountAtMost(a, b, n - 1);
    }
  }

  /** The mismatch does not depend on the order of the two words. */
  lemma MismatchSymmetric(word1: string, word2: string)
    ensures Mismatch(word1, word2) == Mismatch(word2, word1)
  {
    var a, b := LowerStr(word1), LowerStr(word2);
    DiffCountSymmetric(a, b, Min(|a|, |b|));
  }

  /** The mismatch ignores case: lower-casing either word first changes nothing. */
  lemma MismatchIgnoresCase(word1: string, word2: string)
    ensures Mismatch(LowerStr(word1), word2) == Mismatch(word1, word2)
    ensures Mismatch(word1, LowerStr(word2)) == Mismatch(word1, word2)
  {
    LowerStrIdempotent(word1);
    LowerStrIdempotent(word2);
  }

  /** The mismatch is zero exactly when the lower-cased words are equal. */
  lemma MismatchZeroIff(word1: string, word2: string)
    ensures Mismatch(word1, word2) == 0 <==> LowerStr(word1) == LowerStr(word2)
  {
    var a, b := LowerStr(word1), LowerStr(word2);
    DiffCountZero(a, b, Min(|a|, |b|));
    if |a| == |b| {
      assert a[..|a|] == a && b[..|b|] == b;
    }
  }

  /** The mismatch is at least the length difference and at most the
      length of the longer word. */
  lemma MismatchBounds(word1: string, word2: string)
    ensures Abs(|word1| - |word2|) <= Mismatch(word1, word2) <= Max(|word1|, |word2|)
  {
    var a, b := LowerStr(word1), LowerStr(word2);
    DiffCountAtMost(a, b, Min(|a|, |b|));
  }

  /** `check_dictee_answer`: the stripped typed answer is accepted when its
      mismatch against the target is at most the allowed threshold. */
  predicate Accepts(typed: string, target: string, threshold: int)
  {
    Mismatch(Strip(typed), target) <= threshold
  }

  /** An answer that equals the target up to case and surrounding white
      space is accepted under every non-negative threshold, and an answer
      accepted under one threshold is accepted under every larger one. */
  lemma AcceptsMonotone(typed: string, target: string, t1: int, t2: int)
    ensures LowerStr(Strip(typed)) == LowerStr(target) && t1 >= 0 ==> Accepts(typed, target, t1)
    ensures Accepts(typed, target, t1) && t1 <= t2 ==> Accepts(typed, target, t2)
  {
    MismatchZeroIff(Strip(typed), target);
  }

  /** The worked case: "kaas" against "kaassoort" has mismatch 5; it is
      refused under threshold 0 and accepted under threshold 5. */
  lemma KaasExample()
    ensures Mismatch("kaas", "kaassoort") == 5
    ensures !Accepts("kaas", "kaassoort", 0) && Accepts("kaas", "kaassoort", 5)
  {
    var a, b := LowerStr("kaas"), LowerStr("kaassoort");
    assert a == "kaas" && b == "kaassoort";
    assert DiffCount(a, b, 4) == 0;
    assert LeadingSpace("kaas") == 0 && TrailingSpace("kaas") == 0;
    assert Strip("kaas") == "kaas";
  }
}
