/**
 Character predicates of the matcher (src/grep/patterns.rs).

 Each predicate is an inclusive range check on character codes. The module
 also spells out, character by character, the sets those ranges are meant to
 describe, and proves that the range checks agree with the enumerations.
 */
module Patterns {

  /** The ten ASCII digits, in order. */
  const Digits: string := "0123456789"

  /** The twenty-six ASCII lower-case letters, in order. */
  const LowerCaseLetters: string := "abcdefghijklmnopqrstuvwxyz"

  /** The twenty-six ASCII upper-case letters, in order. */
  const UpperCaseLetters: string := "ABCDEFGHIJKLMNOPQRSTUVWXYZ"

  /** The word characters `[a-zA-Z0-9_]`. */
  const WordChars: string := LowerCaseLetters + UpperCaseLetters + Digits + "_"

  /** True iff `c` lies between `lower` and `upper`, both bounds included. */
  predicate IsInRange(lower: char, upper: char, c: char) {
    lower <= c && c <= upper
  }

  predicate IsDigit(c: char) {
    IsInRange('0', '9', c)
  }

  predicate IsLowerCaseLetter(c: char) {
    IsInRange('a', 'z', c)
  }

  predicate IsUpperCaseLetter(c: char) {
    IsInRange('A', 'Z', c)
  }

  predicate IsWord(c: char) {
    IsDigit(c) || IsLowerCaseLetter(c) || IsUpperCaseLetter(c) || c == '_'
  }

  /** Both bounds belong to a non-empty range, and nothing outside the bounds does. */
  lemma InRangeIsInclusive(lower: char, upper: char, c: char)
    ensures lower <= upper ==> IsInRange(lower, upper, lower) && IsInRange(lower, upper, upper)
    ensures IsInRange(lower, upper, c) ==> lower <= upper
    ensures c < lower || upper < c ==> !IsInRange(lower, upper, c)
  {
  }

  /** A range check accepts exactly the characters of the enumeration that
      starts at `lower` and has one entry per code up to `upper`. */
  lemma {:induction false} InRangeEnumerates(lower: char, upper: char, chars: string, c: char)
    requires |chars| == upper as int - lower as int + 1
    requires forall i :: 0 <= i < |chars| ==> chars[i] as int == lower as int + i
    ensures IsInRange(lower, upper, c) <==> c in chars
  {
    if IsInRange(lower, upper, c) {
      var i := c as int - lower as int;
      assert chars[i] == c;
    }
    if c in chars {
      var i :| 0 <= i < |chars| && chars[i] == c;
      assert c as int == lower as int + i;
    }
  }

  /** `IsDigit` accepts exactly `0123456789`. */
  lemma IsDigitExactlyDigits(c: char)
    ensures IsDigit(c) <==> c in Digits
  {
    InRangeEnumerates('0', '9', Digits, c);
  }

  /** `IsLowerCaseLetter` accepts exactly `a` to `z`. */
  lemma IsLowerCaseLetterExactlyLetters(c: char)
    ensures IsLowerCaseLetter(c) <==> c in LowerCaseLetters
  {
    InRangeEnumerates('a', 'z', LowerCaseLetters, c);
  }

  /** `IsUpperCaseLetter` accepts exactly `A` to `Z`. */
  lemma IsUpperCaseLetterExactlyLetters(c: char)
    ensures IsUpperCaseLetter(c) <==> c in UpperCaseLetters
  {
    InRangeEnumerates('A', 'Z', UpperCaseLetters, c);
  }

  /** `IsWord` accepts exactly the sixty-three characters of `[a-zA-Z0-9_]`. */
  lemma IsWordExactlyWordChars(c: char)
    ensures IsWord(c) <==> c in WordChars
  {
    IsDigitExactlyDigits(c);
    IsLowerCaseLetterExactlyLetters(c);
    IsUpperCaseLetterExactlyLetters(c);
    var s := LowerCaseLetters + UpperCaseLetters;
    assert c in s <==> c in LowerCaseLetters || c in UpperCaseLetters;
    assert c in s + Digits <==> c in s || c in Digits;
    assert c in WordChars <==> c in s + Digits || c == '_';
  }

  /** Every digit is a word character. */
  lemma DigitIsWord(c: char)
    ensures IsDigit(c) ==> IsWord(c)
  {
  }

  /** No character is in two of the digit, lower-case and upper-case ranges. */
  lemma ClassesAreDisjoint(c: char)
    ensures !(IsDigit(c) && IsLowerCaseLetter(c))
    ensures !(IsDigit(c) && IsUpperCaseLetter(c))
    ensures !(IsLowerCaseLetter(c) && IsUpperCaseLetter(c))
  {
  }

  /** The boundary characters named by the unit tests of src/grep/patterns.rs. */
  lemma PredicateExamples()
    ensures IsWord('_') && !IsDigit('_') && !IsLowerCaseLetter('_') && !IsUpperCaseLetter('_')
    ensures !IsWord('$') && !IsDigit('$')
    ensures !IsWord('%') && !IsDigit('%') && !IsDigit('a')
    ensures forall c :: c in Digits ==> IsDigit(c)
    ensures IsLowerCaseLetter('a') && IsLowerCaseLetter('q') && IsLowerCaseLetter('z')
    ensures !IsLowerCaseLetter('A') && !IsLowerCaseLetter('Q') && !IsLowerCaseLetter('Z') && !IsLowerCaseLetter('3')
    ensures IsUpperCaseLetter('A') && IsUpperCaseLetter('Q') && IsUpperCaseLetter('Z')
    ensures !IsUpperCaseLetter('a') && !IsUpperCaseLetter('q') && !IsUpperCaseLetter('z') && !IsUpperCaseLetter('3')
    ensures IsWord('d') && IsWord('G') && IsWord('7')
  {
    forall c | c in Digits
      ensures IsDigit(c)
    {
      IsDigitExactlyDigits(c);
    }
  }
}
