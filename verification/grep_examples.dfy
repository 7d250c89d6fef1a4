/**
 The unit tests of src/grep.rs as lemmas over hand-built node sequences.

 The parser that turns pattern strings into nodes is not part of this model,
 so each lemma names the pattern of the test in its comment and states the
 result for the node sequence that pattern denotes.
 */
module GrepExamples {
  import opened Syntax
  import opened Grep

  /** `e` is found in "abcdefg" and `x` is not. */
  lemma TestSingleChar()
    ensures MatchPattern("abcdefg", [Literal('e')])
    ensures !MatchPattern("abcdefg", [Literal('x')])
  {
  }

  /** `\d` needs a digit somewhere in the line. */
  lemma TestDigit()
    ensures MatchPattern("ab1def", [Digit])
    ensures !MatchPattern("abcdefg", [Digit])
  {
  }

  /** `\w` needs a word character somewhere in the line. */
  lemma TestWord()
    ensures MatchPattern("fool101", [Word])
    ensures !MatchPattern("$!?", [Word])
  {
  }

  /** Non-ASCII symbols are not word characters, so `\w` finds nothing in "×-+=÷%". */
  lemma TestWordNonAscii()
    ensures !MatchPattern("×-+=÷%", [Word])
  {
  }

  /** `[abc]` and `[cba]` both find the `a` of "apple". */
  lemma TestCharacterGroup()
    ensures MatchPattern("apple", [CharacterClass("abc", false)])
    ensures MatchPattern("apple", [CharacterClass("cba", false)])
  {
  }

  /** `[]`, `[b]` and `[_xy]` find nothing in "apple". */
  lemma TestCharacterGroupNoMatch()
    ensures !MatchPattern("apple", [CharacterClass("", false)])
    ensures !MatchPattern("apple", [CharacterClass("b", false)])
    ensures !MatchPattern("apple", [CharacterClass("_xy", false)])
  {
  }

  /** `[^abc]` finds the `t` of "cat" but nothing in "cab". */
  lemma TestNegativeCharacterGroup()
    ensures MatchPattern("cat", [CharacterClass("abc", true)])
    ensures !MatchPattern("cab", [CharacterClass("abc", true)])
  {
  }

  /** `\d apple` finds "1 apple". */
  lemma TestDigitApple()
    ensures MatchPattern("1 apple", [Digit, Literal(' '), Literal('a'), Literal('p'), Literal('p'), Literal('l'), Literal('e')])
  {
  }

  /** `\d apple` does not match "1 orange". */
  lemma TestDigitOrange()
    ensures !MatchPattern("1 orange", [Digit, Literal(' '), Literal('a'), Literal('p'), Literal('p'), Literal('l'), Literal('e')])
  {
  }

  /** `\d\d\d apple` finds "100 apples"; it finds every line that starts
      with "100 apple", whatever follows. */
  lemma TestThreeDigitsApple(rest: string)
    ensures MatchPattern("100 apple" + rest, [Digit, Digit, Digit, Literal(' '), Literal('a'), Literal('p'), Literal('p'), Literal('l'), Literal('e')])
  {
    var line := "100 apple" + rest;
    var nodes := [Digit, Digit, Digit, Literal(' '), Literal('a'), Literal('p'), Literal('p'), Literal('l'), Literal('e')];
    SingleCharsPrefix("100 apple", nodes, rest, []);
    assert nodes + [] == nodes;
    assert MatchHere(line, nodes);
  }

  /** `\d\d\d apple` needs three digits, so "1 apple" is rejected. */
  lemma TestThreeDigitsOneApple()
    ensures !MatchPattern("1 apple", [Digit, Digit, Digit, Literal(' '), Literal('a'), Literal('p'), Literal('p'), Literal('l'), Literal('e')])
  {
  }

  /** `\d \w\w\ws` finds "3 dogs". */
  lemma TestDigitWordsDogs()
    ensures MatchPattern("3 dogs", [Digit, Literal(' '), Word, Word, Word, Literal('s')])
  {
  }

  /** `\d \w\w\ws` finds "4 cats". */
  lemma TestDigitWordsCats()
    ensures MatchPattern("4 cats", [Digit, Literal(' '), Word, Word, Word, Literal('s')])
  {
  }

  /** `\d \w\w\ws` needs three word characters before the `s`, so "1 dog" is rejected. */
  lemma TestDigitWordsTooShort()
    ensures !MatchPattern("1 dog", [Digit, Literal(' '), Word, Word, Word, Literal('s')])
  {
  }

  /** `^log` must match at offset 0. */
  lemma TestStartOfLineAnchor()
    ensures MatchPattern("log", [StartOfLineAnchor, Literal('l'), Literal('o'), Literal('g')])
    ensures !MatchPattern("slog", [StartOfLineAnchor, Literal('l'), Literal('o'), Literal('g')])
  {
    assert MatchHere("log", [Literal('l'), Literal('o'), Literal('g')]);
  }

  /** `dog$` must end at the end of the line. */
  lemma TestEndOfLineAnchor()
    ensures MatchPattern("dog", [Literal('d'), Literal('o'), Literal('g'), EndOfLineAnchor])
    ensures !MatchPattern("dogs", [Literal('d'), Literal('o'), Literal('g'), EndOfLineAnchor])
  {
  }

  /** `^$` matches only the empty line. */
  lemma TestEmptyAnchors()
    ensures MatchPattern("", [StartOfLineAnchor, EndOfLineAnchor])
    ensures !MatchPattern("x", [StartOfLineAnchor, EndOfLineAnchor])
  {
    assert MatchHere("", [EndOfLineAnchor]);
  }

  /** `ca+ts` and `ca+` need at least one `a`. */
  lemma TestOneOrMore()
    ensures MatchPattern("caats", [Literal('c'), OneOrMore(Literal('a')), Literal('t'), Literal('s')])
    ensures MatchPattern("caaaaa", [Literal('c'), OneOrMore(Literal('a'))])
    ensures !MatchPattern("cts", [Literal('c'), OneOrMore(Literal('a')), Literal('t'), Literal('s')])
  {
  }

  /** `dogs?`, where `?` compiles to `ZeroOrMore`. */
  lemma TestZeroOrMore()
    ensures MatchPattern("dogs", [Literal('d'), Literal('o'), Literal('g'), ZeroOrMore(Literal('s'))])
    ensures MatchPattern("dog", [Literal('d'), Literal('o'), Literal('g'), ZeroOrMore(Literal('s'))])
    ensures !MatchPattern("cat", [Literal('d'), Literal('o'), Literal('g'), ZeroOrMore(Literal('s'))])
  {
  }

  /** `?` repeats: `^dogs?$` accepts "dogss", which a zero-or-one reading would reject. */
  lemma QuestionMarkRepeats()
    ensures MatchPattern("dogss", [StartOfLineAnchor, Literal('d'), Literal('o'), Literal('g'), ZeroOrMore(Literal('s')), EndOfLineAnchor])
  {
    assert MatchHere("dogss", [Literal('d'), Literal('o'), Literal('g'), ZeroOrMore(Literal('s')), EndOfLineAnchor]);
  }

  /** A pattern whose second node is a literal absent from the line matches
      nowhere in it, since every attempt must match that literal one
      character after its start. */
  lemma MissingSecondLiteral(line: string, nodes: seq<Syntax>)
    requires |nodes| >= 2 && IsSingleChar(nodes[0]) && nodes[1].Literal?
    requires WellFormed(nodes)
    requires nodes[1].ch !in line
    ensures !MatchPattern(line, nodes)
  {
    MatchPatternMeaning(line, nodes);
    assert nodes == [nodes[0]] + nodes[1..];
    assert nodes[1..] == [nodes[1]] + nodes[2..];
    forall i | 0 <= i < |line|
      ensures !MatchHere(line[i..], nodes)
    {
      var t := line[i..];
      if |t| >= 2 {
        SingleCharStep(t[0], t[1..], nodes[0], nodes[1..]);
        assert [t[0]] + t[1..] == t;
        SingleCharStep(t[1], t[2..], nodes[1], nodes[2..]);
        assert [t[1]] + t[2..] == t[1..];
        assert t[1] == line[i + 1];
      }
    }
  }

  /** `\\d\\\\d\\\\d apples` (the source's escaping), that is `\d\\d\\d apples`:
      the escaped backslashes are literal backslashes, so the pattern does not
      match "sally has 12 apples". */
  lemma TestEscapedBackslash()
    ensures !MatchPattern("sally has 12 apples", [Digit, Literal('\\'), Literal('d'), Literal('\\'), Literal('d'), Literal(' '), Literal('a'), Literal('p'), Literal('p'), Literal('l'), Literal('e'), Literal('s')])
  {
    var line := "sally has 12 apples";
    assert '\\' !in line;
    MissingSecondLiteral(line, [Digit, Literal('\\'), Literal('d'), Literal('\\'), Literal('d'), Literal(' '), Literal('a'), Literal('p'), Literal('p'), Literal('l'), Literal('e'), Literal('s')]);
  }

  /** With the end-of-line offset included, `$` and `x?` match the lines the
      driver as written rejects. */
  lemma InclusiveDriverExamples()
    ensures !MatchPattern("abc", [EndOfLineAnchor])
    ensures MatchPatternInclusive("abc", [EndOfLineAnchor])
    ensures !MatchPattern("", [ZeroOrMore(Literal('x'))])
    ensures MatchPatternInclusive("", [ZeroOrMore(Literal('x'))])
  {
  }
}
