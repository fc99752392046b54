/**
 The two rule numberings side by side. The command-line generator reads bit
 `4l + 2c + r` of the rule for a neighbourhood (the Wolfram numbering); the web
 generator indexes the rule's eight binary digits from the most significant
 one, which reads bit `7 - (4l + 2c + r)`. The web generator therefore runs the
 rule whose eight bits are the reverse of the given one, and the two agree
 exactly on rules whose eight bits read the same in both directions.
 */
module Conventions {
  import opened Bits
  import opened CaPassword
  import opened WebGenerator

  /** A rule whose eight binary digits read the same backwards. */
  predicate Palindrome(rule: Rule)
  {
    ToBinary(rule, 8) == Reverse(ToBinary(rule, 8))
  }

  /** The rule with its eight binary digits reversed. */
  function ReversedRule(rule: Rule): (rev: Rule)
    ensures forall k :: 0 <= k < 8 ==> BitOf(rev, k) == BitOf(rule, 7 - k)
  {
    var rev := BitsValue(Reverse(ToBinary(rule, 8)));
    assert Pow2(8) == 256;
    forall k | 0 <= k < 8
      ensures BitOf(rev, k) == BitOf(rule, 7 - k)
    {
      ToBinaryOfBitsValue(Reverse(ToBinary(rule, 8)));
      ToBinaryDigit(rev, 8, k);
      ToBinaryDigit(rule, 8, 7 - k);
    }
    rev
  }

  /** Two rules with the same eight bits are the same rule. */
  lemma SameBitsSameRule(a: Rule, b: Rule)
    requires forall k :: 0 <= k < 8 ==> BitOf(a, k) == BitOf(b, k)
    ensures a == b
  {
    forall k | 0 <= k < 8
      ensures ToBinary(a, 8)[k] == ToBinary(b, 8)[k]
    {
      ToBinaryDigit(a, 8, 7 - k);
      ToBinaryDigit(b, 8, 7 - k);
    }
    assert ToBinary(a, 8) == ToBinary(b, 8);
    BitsValueOfToBinary(a, 8);
    BitsValueOfToBinary(b, 8);
  }

  /** A palindrome is a rule whose bit k equals its bit 7 - k. */
  lemma PalindromeBits(rule: Rule)
    ensures Palindrome(rule) <==> forall k :: 0 <= k < 8 ==> BitOf(rule, k) == BitOf(rule, 7 - k)
  {
    var digits := ToBinary(rule, 8);
    forall k | 0 <= k < 8
      ensures digits[k] == BitOf(rule, 7 - k) && Reverse(digits)[k] == BitOf(rule, k)
    {
      ToBinaryDigit(rule, 8, 7 - k);
      ToBinaryDigit(rule, 8, k);
    }
    if !Palindrome(rule) {
      var k :| 0 <= k < 8 && digits[k] != Reverse(digits)[k];
      assert BitOf(rule, 7 - k) != BitOf(rule, 7 - (7 - k));
    }
  }

  /** Reversing twice gives the rule back. */
  lemma ReversedRuleInvolution(rule: Rule)
    ensures ReversedRule(ReversedRule(rule)) == rule
  {
    var rev := ReversedRule(rule);
    var twice := ReversedRule(rev);
    forall k | 0 <= k < 8
      ensures BitOf(twice, k) == BitOf(rule, k)
    {
      assert BitOf(twice, k) == BitOf(rev, 7 - k);
    }
    SameBitsSameRule(twice, rule);
  }

  /** The web generator's default rule 30 is the command-line generator's rule 120. */
  lemma Rule30Reversed()
    ensures ReversedRule(30) == 120
    ensures !Palindrome(30)
  {
    Rule30Digits();
    assert Reverse([0, 0, 0, 1, 1, 1, 1, 0]) == [0, 1, 1, 1, 1, 0, 0, 0];
    BitsValueOfToBinary(120, 8);
  }

  /** The eight binary digits of 30 and of 120. */
  lemma Rule30Digits()
    ensures ToBinary(30, 8) == [0, 0, 0, 1, 1, 1, 1, 0]
    ensures ToBinary(120, 8) == [0, 1, 1, 1, 1, 0, 0, 0]
  {
  }

  /** The web generator's lookup is the command-line lookup of the reversed rule. */
  lemma LookupIsReversedRule(rule: Rule, left: Bit, center: Bit, right: Bit)
    ensures Lookup(rule, left, center, right) == ApplyRule(ReversedRule(rule), left, center, right)
  {
  }

  /** A web generator step is a command-line step under the reversed rule. */
  lemma AppStepIsReversedStep(rule: Rule, row: seq<Bit>)
    ensures AppStep(rule, row) == Step(ReversedRule(rule), row)
  {
    forall c | 0 <= c < |row|
      ensures AppStep(rule, row)[c] == Step(ReversedRule(rule), row)[c]
    {
      LookupIsReversedRule(rule, row[Prev(c, |row|)], row[c], row[Next(c, |row|)]);
    }
  }

  /** The web generator's grid is the command-line history under the reversed rule. */
  lemma AppGridIsReversedHistory(rule: Rule, first: seq<Bit>, iterations: nat)
    ensures AppGrid(rule, first, iterations) == History(ReversedRule(rule), first, iterations)
  {
    var rev := ReversedRule(rule);
    forall row: seq<Bit>
      ensures AppStep(rule, row) == Step(rev, row)
    {
      AppStepIsReversedStep(rule, row);
    }
    forall k | 0 <= k < iterations
      ensures AppIterate(rule, first, k) == Iterate(rev, first, k)
    {
      AppIterateIsIterate(rule, rev, first, k);
    }
  }

  /** Generations agree when every step does (by induction on k, which Dafny does unaided). */
  lemma AppIterateIsIterate(rule: int, other: Rule, first: seq<Bit>, k: nat)
    requires forall row: seq<Bit> :: AppStep(rule, row) == Step(other, row)
    ensures AppIterate(rule, first, k) == Iterate(other, first, k)
  {
  }

  /** The two lookups agree on every neighbourhood exactly when the rule is a palindrome. */
  lemma SameLookupIffPalindrome(rule: Rule)
    ensures (forall l: Bit, c: Bit, r: Bit :: ApplyRule(rule, l, c, r) == Lookup(rule, l, c, r))
            <==> Palindrome(rule)
  {
    PalindromeBits(rule);
    if forall l: Bit, c: Bit, r: Bit :: ApplyRule(rule, l, c, r) == Lookup(rule, l, c, r) {
      forall k | 0 <= k < 8
        ensures BitOf(rule, k) == BitOf(rule, 7 - k)
      {
        var l, c, r := Neighbourhood(k);
        assert ApplyRule(rule, l, c, r) == Lookup(rule, l, c, r);
        RuleSetEntry(rule, k);
      }
    } else {
      forall l: Bit, c: Bit, r: Bit | Palindrome(rule)
        ensures ApplyRule(rule, l, c, r) == Lookup(rule, l, c, r)
      {
        var j := Index(l, c, r);
        RuleSetEntry(rule, j);
        assert BitOf(rule, j) == BitOf(rule, 7 - j);
      }
    }
  }

  /** The neighbourhood whose value is k. */
  lemma Neighbourhood(k: nat) returns (left: Bit, center: Bit, right: Bit)
    requires k < 8
    ensures Index(left, center, right) == k
  {
    left := if k >= 4 then 1 else 0;
    center := if k - 4 * left >= 2 then 1 else 0;
    right := k - 4 * left - 2 * center;
  }

  /** On a palindrome rule the two generators grow the same grid from the same first row. */
  lemma PalindromeRulesAgree(rule: Rule, first: seq<Bit>, iterations: nat)
    requires Palindrome(rule)
    ensures AppGrid(rule, first, iterations) == History(rule, first, iterations)
  {
    PalindromeBits(rule);
    var rev := ReversedRule(rule);
    forall k | 0 <= k < 8
      ensures BitOf(rev, k) == BitOf(rule, k)
    {
      assert BitOf(rev, k) == BitOf(rule, 7 - k);
    }
    SameBitsSameRule(rev, rule);
    AppGridIsReversedHistory(rule, first, iterations);
  }

}
