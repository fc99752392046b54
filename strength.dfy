/**
 The strength scorer: four sub-scores out of 100 (length, entropy, character
 set complexity and absence from a list of common passwords) and their
 equal-weight average. Scores are exact rationals; the base-2 logarithm of the
 entropy score is a parameter, and so is the set of common passwords.
 */
module Strength {
  import opened CharClasses

  /** `size_of_charset`: 26, 26, 10 and 27 for each class the password draws on. */
  function SizeOfCharset(pw: string): (size: nat)
    ensures size <= 89
  {
    (if HasLower(pw) then 26 else 0) + (if HasUpper(pw) then 26 else 0)
    + (if HasDigit(pw) then 10 else 0) + (if HasSpecial(pw) then |Specials| else 0)
  }

  /** `password_strength_length`: the length as a share of 16 characters, capped at 100. */
  function LengthScore(pw: string): (score: real)
    ensures 0.0 <= score <= 100.0
  {
    var s := (|pw| as real) / 16.0 * 100.0;
    if s > 100.0 then 100.0 else s
  }

  /** A base-2 logarithm that never decreases on charset sizes and is positive at 2. */
  ghost predicate MonotoneLog(log2: nat -> real)
  {
    log2(2) > 0.0 && forall m: nat, n: nat :: m <= n ==> log2(m) <= log2(n)
  }

  /** `password_strength_entropy`: `log2(size) / log2(2) * len` bits as a share of 128 bits, capped at 100. */
  function EntropyScore(pw: string, log2: nat -> real): (score: real)
    requires log2(2) > 0.0
    ensures score <= 100.0
  {
    var entropy := log2(SizeOfCharset(pw)) / log2(2) * (|pw| as real);
    var points := entropy / 128.0 * 100.0;
    if points > 100.0 then 100.0 else points
  }

  /** `password_strength_complexity`: the charset size as a share of 89. */
  function ComplexityScore(pw: string): (score: real)
    ensures 0.0 <= score <= 100.0
  {
    (SizeOfCharset(pw) as real) / 89.0 * 100.0
  }

  /** `password_strength_unpredictability`: 0 for a listed password, 100 otherwise. */
  function UnpredictabilityScore(pw: string, common: set<string>): (score: real)
    ensures score == 0.0 <==> pw in common
    ensures score == 100.0 <==> pw !in common
  {
    if pw in common then 0.0 else 100.0
  }

  /** `generate_cryptographic_score`: a quarter of each sub-score. */
  function CryptographicScore(pw: string, log2: nat -> real, common: set<string>): (score: real)
    requires log2(2) > 0.0
    ensures score <= 100.0
  {
    0.25 * LengthScore(pw) + 0.25 * EntropyScore(pw, log2) + 0.25 * ComplexityScore(pw)
    + 0.25 * UnpredictabilityScore(pw, common)
  }

  // ---------------------------------------------------------------------------
  // The charset size

  /** Three passwords and their charset sizes. */
  lemma SizeExamples()
    ensures SizeOfCharset("abc") == 26
    ensures SizeOfCharset("Abc123!") == 89
    ensures SizeOfCharset("") == 0
  {
    var mixed := "Abc123!";
    assert IsUpper(mixed[0]) && IsLower(mixed[1]) && IsDigit(mixed[3]) && mixed[6] in Specials;
    var plain := "abc";
    assert IsLower(plain[0]);
    assert !HasUpper(plain) && !HasDigit(plain);
    assert !HasSpecial(plain) by {
      forall i | 0 <= i < 3
        ensures plain[i] !in Specials
      {
        SpecialsAreSymbols(plain[i]);
      }
    }
  }

  /** The size is 89 exactly when the password draws on all four classes. */
  lemma SizeMaximalIffAllClasses(pw: string)
    ensures SizeOfCharset(pw) == 89 <==> HasLower(pw) && HasUpper(pw) && HasDigit(pw) && HasSpecial(pw)
  {
  }

  /** A password whose characters all occur in another has no larger charset size. */
  lemma SizeMonotone(s: string, t: string)
    requires forall i :: 0 <= i < |s| ==> s[i] in t
    ensures SizeOfCharset(s) <= SizeOfCharset(t)
  {
    if HasLower(s) {
      var i :| 0 <= i < |s| && IsLower(s[i]);
      var j :| 0 <= j < |t| && t[j] == s[i];
    }
    if HasUpper(s) {
      var i :| 0 <= i < |s| && IsUpper(s[i]);
      var j :| 0 <= j < |t| && t[j] == s[i];
    }
    if HasDigit(s) {
      var i :| 0 <= i < |s| && IsDigit(s[i]);
      var j :| 0 <= j < |t| && t[j] == s[i];
    }
    if HasSpecial(s) {
      var i :| 0 <= i < |s| && s[i] in Specials;
      var j :| 0 <= j < |t| && t[j] == s[i];
    }
  }

  // ---------------------------------------------------------------------------
  // The sub-scores

  /** The length score is 100 from 16 characters on, 50 at 8, and nowhere else 100. */
  lemma LengthScoreValues(pw: string)
    ensures LengthScore(pw) == 100.0 <==> |pw| >= 16
    ensures |pw| == 8 ==> LengthScore(pw) == 50.0
  {
  }

  /** A longer password never scores lower on length. */
  lemma LengthScoreMonotone(a: string, b: string)
    requires |a| <= |b|
    ensures LengthScore(a) <= LengthScore(b)
  {
    assert (|a| as real) <= (|b| as real);
  }

  /** With a monotone logarithm, a larger charset never scores lower on entropy at the same length. */
  lemma EntropyScoreMonotone(a: string, b: string, log2: nat -> real)
    requires MonotoneLog(log2)
    requires |a| == |b| && SizeOfCharset(a) <= SizeOfCharset(b)
    ensures EntropyScore(a, log2) <= EntropyScore(b, log2)
  {
    var sa, sb := SizeOfCharset(a), SizeOfCharset(b);
    assert log2(sa) <= log2(sb);
    var ea := log2(sa) / log2(2);
    var eb := log2(sb) / log2(2);
    assert ea <= eb by { DivideMonotone(log2(sa), log2(sb), log2(2)); }
    var len := |a| as real;
    assert ea * len <= eb * len by { ScaleMonotone(ea, eb, len); }
    var pa, pb := ea * len / 128.0 * 100.0, eb * len / 128.0 * 100.0;
    assert pa <= pb;
    assert EntropyScore(a, log2) == if pa > 100.0 then 100.0 else pa;
    assert EntropyScore(b, log2) == if pb > 100.0 then 100.0 else pb;
  }

  lemma DivideMonotone(x: real, y: real, d: real)
    requires x <= y && d > 0.0
    ensures x / d <= y / d
  {
  }

  lemma ScaleMonotone(x: real, y: real, k: real)
    requires x <= y && k >= 0.0
    ensures x * k <= y * k
  {
  }

  /** A larger charset never scores lower on complexity. */
  lemma ComplexityScoreMonotone(a: string, b: string)
    requires SizeOfCharset(a) <= SizeOfCharset(b)
    ensures ComplexityScore(a) <= ComplexityScore(b)
  {
    assert (SizeOfCharset(a) as real) <= (SizeOfCharset(b) as real);
  }

  /** The complexity score is 100 exactly when the password draws on all four classes. */
  lemma ComplexityFullIffAllClasses(pw: string)
    ensures ComplexityScore(pw) == 100.0 <==> HasLower(pw) && HasUpper(pw) && HasDigit(pw) && HasSpecial(pw)
  {
    SizeMaximalIffAllClasses(pw);
    var size := SizeOfCharset(pw) as real;
    assert ComplexityScore(pw) == 100.0 <==> size == 89.0;
  }

  /** Listed passwords match exactly: a listed password with one letter's case changed is not listed. */
  lemma UnpredictabilityIsCaseSensitive()
    ensures UnpredictabilityScore("password", {"password"}) == 0.0
    ensures UnpredictabilityScore("Password", {"password"}) == 100.0
  {
    assert "Password"[0] != "password"[0];
  }

  // ---------------------------------------------------------------------------
  // The composite

  /** The composite lies between 0 and 100 when the entropy score is not negative. */
  lemma CompositeBounds(pw: string, log2: nat -> real, common: set<string>)
    requires log2(2) > 0.0 && EntropyScore(pw, log2) >= 0.0
    ensures 0.0 <= CryptographicScore(pw, log2, common) <= 100.0
  {
  }

  /** A listed password scores at most 75, whatever its length and characters. */
  lemma CommonPasswordCapped(pw: string, log2: nat -> real, common: set<string>)
    requires log2(2) > 0.0 && pw in common
    ensures CryptographicScore(pw, log2, common) <= 75.0
  {
  }

  /** Of two passwords of equal length and charset, a listed one scores exactly 25 below an unlisted one. */
  lemma CommonPasswordPenalty(a: string, b: string, log2: nat -> real, common: set<string>)
    requires log2(2) > 0.0
    requires |a| == |b| && SizeOfCharset(a) == SizeOfCharset(b)
    requires a in common && b !in common
    ensures CryptographicScore(a, log2, common) + 25.0 == CryptographicScore(b, log2, common)
  {
    assert LengthScore(a) == LengthScore(b);
    var entropy := log2(SizeOfCharset(a)) / log2(2) * (|a| as real) / 128.0 * 100.0;
    assert EntropyScore(a, log2) == EntropyScore(b, log2) == if entropy > 100.0 then 100.0 else entropy;
    assert ComplexityScore(a) == ComplexityScore(b);
  }

}
