/**
 The character classes shared by the generators and the strength scorer:
 the ASCII letters and digits, the 27 special characters of the command-line
 generator and the scorer, and the 8 special characters of the web generator.
 */
module CharClasses {

  /** `string.ascii_lowercase`. */
  const Lowercase: string := "abcdefghijklmnopqrstuvwxyz"

  /** `string.ascii_uppercase`. */
  const Uppercase: string := "ABCDEFGHIJKLMNOPQRSTUVWXYZ"

  /** `string.digits`. */
  const Digits: string := "0123456789"

  /** The special characters of the command-line generator, also used by the scorer. */
  const Specials: string := "!@#$%^&*()-_=+[]{}|;:,.<>?/"

  /** The special characters of the web generator. */
  const WebSpecials: string := "!@#$%^&*"

  /** `str.islower` on an ASCII character. */
  predicate IsLower(c: char) { 'a' <= c <= 'z' }

  /** `str.isupper` on an ASCII character. */
  predicate IsUpper(c: char) { 'A' <= c <= 'Z' }

  /** `str.isdigit` on an ASCII character. */
  predicate IsDigit(c: char) { '0' <= c <= '9' }

  /** Which character classes the caller asked for. */
  datatype Selection = Selection(lowercase: bool, uppercase: bool, digits: bool, special: bool) {

    predicate AnySelected() { lowercase || uppercase || digits || special }

    /** Whether class k is selected, in the order lowercase, uppercase, digits, special. */
    predicate Has(k: nat)
      requires k < 4
    {
      [lowercase, uppercase, digits, special][k]
    }
  }

  /** `any(c in cls for c in pw)`. */
  predicate HasAnyOf(pw: string, cls: string)
  {
    exists i :: 0 <= i < |pw| && pw[i] in cls
  }

  /** `any(char.islower() for char in pw)`. */
  predicate HasLower(pw: string) { exists i :: 0 <= i < |pw| && IsLower(pw[i]) }

  /** `any(char.isupper() for char in pw)`. */
  predicate HasUpper(pw: string) { exists i :: 0 <= i < |pw| && IsUpper(pw[i]) }

  /** `any(char.isdigit() for char in pw)`. */
  predicate HasDigit(pw: string) { exists i :: 0 <= i < |pw| && IsDigit(pw[i]) }

  /** `bool(set(special_chars) & set(pw))`: pw shares a character with the special set. */
  predicate HasSpecial(pw: string) { HasAnyOf(pw, Specials) }

  /** The lowercase string holds exactly the characters `str.islower` accepts. */
  lemma LowercaseMembers(c: char)
    ensures c in Lowercase <==> IsLower(c)
  {
    assert forall i :: 0 <= i < 26 ==> Lowercase[i] == ('a' as int + i) as char;
    if IsLower(c) {
      assert Lowercase[c as int - 'a' as int] == c;
    }
  }

  /** The uppercase string holds exactly the characters `str.isupper` accepts. */
  lemma UppercaseMembers(c: char)
    ensures c in Uppercase <==> IsUpper(c)
  {
    assert forall i :: 0 <= i < 26 ==> Uppercase[i] == ('A' as int + i) as char;
    if IsUpper(c) {
      assert Uppercase[c as int - 'A' as int] == c;
    }
  }

  /** The digit string holds exactly the characters `str.isdigit` accepts. */
  lemma DigitMembers(c: char)
    ensures c in Digits <==> IsDigit(c)
  {
    assert forall i :: 0 <= i < 10 ==> Digits[i] == ('0' as int + i) as char;
    if IsDigit(c) {
      assert Digits[c as int - '0' as int] == c;
    }
  }

  /** The class strings hold exactly the characters their predicates accept. */
  lemma ClassMembership(c: char)
    ensures c in Lowercase <==> IsLower(c)
    ensures c in Uppercase <==> IsUpper(c)
    ensures c in Digits <==> IsDigit(c)
  {
    LowercaseMembers(c);
    UppercaseMembers(c);
    DigitMembers(c);
  }

  /** No special character is a letter or a digit. */
  lemma SpecialsAreSymbols(c: char)
    ensures c in Specials ==> !IsLower(c) && !IsUpper(c) && !IsDigit(c)
  {
    assert forall i :: 0 <= i < |Specials| ==> !IsLower(Specials[i]) && !IsUpper(Specials[i]) && !IsDigit(Specials[i]);
  }

  /** Membership in the letter and digit strings is the scorer's class test. */
  lemma HasAnyOfClass(pw: string)
    ensures HasAnyOf(pw, Lowercase) <==> HasLower(pw)
    ensures HasAnyOf(pw, Uppercase) <==> HasUpper(pw)
    ensures HasAnyOf(pw, Digits) <==> HasDigit(pw)
  {
    forall i | 0 <= i < |pw| {
      ClassMembership(pw[i]);
    }
  }

  /** The two special sets differ: every web special is a command-line special, not conversely. */
  lemma WebSpecialsAreSpecials()
    ensures forall c :: c in WebSpecials ==> c in Specials
    ensures '(' in Specials && '(' !in WebSpecials
  {
  }

}
