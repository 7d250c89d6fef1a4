/**
 The backtracking matcher and its driver (src/grep.rs).

 `MatchHere` runs a node sequence against the start of a text, `MatchAtLeast`
 and `RepeatFrom` are the quantifier loop, and `MatchPattern` is the driver
 that tries one anchored attempt or every offset before the end of the line.
 Text is a sequence of characters; the source indexes bytes, which coincides
 for ASCII text.

 `Matches` is an independent, declarative reading of the same patterns: a
 quantifier stands for SOME number of repetitions, with no search order. The
 lemmas show the backtracking search decides exactly that relation.
 */
module Grep {
  import Patterns
  import opened Syntax

  /** Tests one character against a single-character node. The source panics
      on anchors and quantifiers here; the model requires them absent. */
  predicate IsMatch(c: char, pattern: Syntax)
    requires IsSingleChar(pattern)
  {
    match pattern
    case Literal(x) => x == c
    case Digit => Patterns.IsDigit(c)
    case Word => Patterns.IsWord(c)
    case CharacterClass(cs, negated) => if negated then c !in cs else c in cs
  }

  /** The remaining pattern must match at the very start of `text`; any text
      left over after the last node is ignored. */
  predicate MatchHere(text: string, pattern: seq<Syntax>)
    requires WellFormed(pattern)
    decreases |pattern|, 2, 0
  {
    if |pattern| == 0 then true
    else if pattern[0].OneOrMore? then MatchAtLeast(text, pattern[0].syntax, pattern[1..], 1)
    else if pattern[0].ZeroOrMore? then MatchAtLeast(text, pattern[0].syntax, pattern[1..], 0)
    else if pattern[0].EndOfLineAnchor? then |pattern| == 1 && |text| == 0
    else if |text| > 0 then IsMatch(text[0], pattern[0]) && MatchHere(text[1..], pattern[1..])
    else false
  }

  /** The quantifier: at least `count` characters matching `syntax`, then the
      remainder. Fails at once if the first `count` characters do not all
      match; otherwise enters the loop of `RepeatFrom`. */
  predicate MatchAtLeast(text: string, syntax: Syntax, remainder: seq<Syntax>, count: nat)
    requires IsSingleChar(syntax)
    requires WellFormed(remainder)
    decreases |remainder| + 1, 1, 0
  {
    if |text| < count || exists i :: 0 <= i < count && !IsMatch(text[i], syntax) then false
    else RepeatFrom(text[count..], syntax, remainder)
  }

  /** The loop of the quantifier: try the remainder here; if that fails,
      consume one more character matching `syntax` and try again, shortest
      run first. */
  predicate RepeatFrom(text: string, syntax: Syntax, remainder: seq<Syntax>)
    requires IsSingleChar(syntax)
    requires WellFormed(remainder)
    decreases |remainder| + 1, 0, |text|
  {
    if MatchHere(text, remainder) then true
    else if |text| == 0 then false
    else if !IsMatch(text[0], syntax) then false
    else RepeatFrom(text[1..], syntax, remainder)
  }

  /** The `for` loop of the driver: an attempt at the start of `text`, then at
      each later offset, stopping before the end of the text. */
  predicate MatchFrom(text: string, pattern: seq<Syntax>)
    requires WellFormed(pattern)
  {
    if |text| == 0 then false
    else MatchHere(text, pattern) || MatchFrom(text[1..], pattern)
  }

  /** True iff the pattern begins with a start anchor. */
  predicate IsAnchored(pattern: seq<Syntax>) {
    |pattern| > 0 && pattern[0] == StartOfLineAnchor
  }

  /** The driver, over an already parsed node sequence, as written: one
      attempt at offset 0 when anchored, otherwise offsets `0 .. |line| - 1`. */
  predicate MatchPattern(line: string, pattern: seq<Syntax>)
    requires WellFormedPattern(pattern)
  {
    if IsAnchored(pattern) then MatchHere(line, pattern[1..])
    else MatchFrom(line, pattern)
  }

  /** The driver with the end-of-line offset included, as a search for a match
      starting anywhere in the line is meant to be. */
  function MatchPatternInclusive(line: string, pattern: seq<Syntax>): (r: bool)
    requires WellFormedPattern(pattern)
    ensures IsAnchored(pattern) ==> (r <==> MatchHere(line, pattern[1..]))
    ensures !IsAnchored(pattern) ==>
      (r <==> exists i :: 0 <= i <= |line| && MatchHere(line[i..], pattern))
  {
    if IsAnchored(pattern) then MatchHere(line, pattern[1..])
    else
      MatchFromExists(line, pattern);
      var atEnd := MatchHere(line[|line|..], pattern);
      assert MatchFrom(line, pattern) || atEnd ==> exists i :: 0 <= i <= |line| && MatchHere(line[i..], pattern);
      MatchFrom(line, pattern) || atEnd
  }

  // ---------------------------------------------------------------------
  // Single characters

  /** Each single-character node accepts exactly the characters its
      documentation names. */
  lemma IsMatchDescribes(c: char, pattern: Syntax)
    requires IsSingleChar(pattern)
    ensures IsMatch(c, pattern) <==> Describes(pattern, c)
  {
    match pattern
    case Digit => Patterns.IsDigitExactlyDigits(c);
    case Word => Patterns.IsWordExactlyWordChars(c);
    case _ =>
  }

  /** `Digit` accepts the same characters as `[0123456789]`. */
  lemma DigitIsDigitClass(c: char)
    ensures IsMatch(c, Digit) <==> IsMatch(c, CharacterClass(Patterns.Digits, false))
  {
    Patterns.IsDigitExactlyDigits(c);
  }

  /** `Word` accepts the same characters as the class over a-z, A-Z, 0-9, `_`. */
  lemma WordIsWordClass(c: char)
    ensures IsMatch(c, Word) <==> IsMatch(c, CharacterClass(Patterns.WordChars, false))
  {
    Patterns.IsWordExactlyWordChars(c);
  }

  /** A negated class is the complement of the plain class over the same
      characters, and the empty plain class matches nothing. */
  lemma NegatedClassIsComplement(c: char, cs: seq<char>)
    ensures IsMatch(c, CharacterClass(cs, true)) <==> !IsMatch(c, CharacterClass(cs, false))
    ensures IsMatch(c, CharacterClass(cs, false)) <==> c in cs
    ensures !IsMatch(c, CharacterClass([], false))
    ensures IsMatch(c, CharacterClass([], true))
  {
  }

  // ---------------------------------------------------------------------
  // The matcher, one step at a time

  /** Every character of `text` matches the single-character node `syntax`. */
  ghost predicate AllMatch(text: string, syntax: Syntax)
    requires IsSingleChar(syntax)
  {
    forall i :: 0 <= i < |text| ==> IsMatch(text[i], syntax)
  }

  /** An exhausted pattern succeeds whatever text remains. */
  lemma EmptyPatternMatches(text: string)
    ensures MatchHere(text, [])
  {
  }

  /** An end anchor succeeds iff it is the last node and no text remains. */
  lemma EndAnchorMatchesOnlyAtEnd(text: string, rest: seq<Syntax>)
    requires WellFormed(rest)
    ensures WellFormed([EndOfLineAnchor] + rest)
    ensures MatchHere(text, [EndOfLineAnchor] + rest) <==> |rest| == 0 && |text| == 0
  {
  }

  /** A single-character node consumes one matching character and hands the
      rest of the text to the rest of the pattern; on empty text it fails. */
  lemma SingleCharStep(c: char, text: string, node: Syntax, rest: seq<Syntax>)
    requires IsSingleChar(node)
    requires WellFormed(rest)
    ensures WellFormed([node] + rest)
    ensures MatchHere([c] + text, [node] + rest) <==> IsMatch(c, node) && MatchHere(text, rest)
    ensures !MatchHere([], [node] + rest)
  {
    assert ([node] + rest)[1..] == rest;
    assert ([c] + text)[1..] == text;
  }

  /** A run of single-character nodes consumes exactly as many characters as
      it has nodes, each matching its node, then hands the rest of the text to
      the rest of the pattern. */
  lemma {:induction false} SingleCharsPrefix(prefix: string, nodes: seq<Syntax>, text: string, rest: seq<Syntax>)
    requires |prefix| == |nodes|
    requires forall i :: 0 <= i < |nodes| ==> IsSingleChar(nodes[i])
    requires WellFormed(rest)
    ensures WellFormed(nodes + rest)
    ensures MatchHere(prefix + text, nodes + rest) <==>
      (forall i :: 0 <= i < |nodes| ==> IsMatch(prefix[i], nodes[i])) && MatchHere(text, rest)
    decreases |nodes|
  {
    if |nodes| == 0 {
      assert prefix + text == text;
      assert nodes + rest == rest;
    } else {
      SingleCharsPrefix(prefix[1..], nodes[1..], text, rest);
      SingleCharStep(prefix[0], prefix[1..] + text, nodes[0], nodes[1..] + rest);
      assert [prefix[0]] + (prefix[1..] + text) == prefix + text;
      assert [nodes[0]] + (nodes[1..] + rest) == nodes + rest;
      if forall i :: 0 <= i < |nodes| - 1 ==> IsMatch(prefix[1..][i], nodes[1..][i]) {
        if IsMatch(prefix[0], nodes[0]) {
          forall i | 0 <= i < |nodes|
            ensures IsMatch(prefix[i], nodes[i])
          {
            if i > 0 {
              assert IsMatch(prefix[1..][i - 1], nodes[1..][i - 1]);
            }
          }
        }
      } else {
        var j :| 0 <= j < |nodes| - 1 && !IsMatch(prefix[1..][j], nodes[1..][j]);
        assert !IsMatch(prefix[j + 1], nodes[j + 1]);
      }
    }
  }

  /** The quantifier loop succeeds iff, after some run of characters that all
      match `syntax`, the remainder matches. */
  lemma {:induction false} RepeatFromExists(text: string, syntax: Syntax, remainder: seq<Syntax>)
    requires IsSingleChar(syntax)
    requires WellFormed(remainder)
    ensures RepeatFrom(text, syntax, remainder) <==>
      exists j :: 0 <= j <= |text| && AllMatch(text[..j], syntax) && MatchHere(text[j..], remainder)
    decreases |text|
  {
    if MatchHere(text, remainder) {
      assert AllMatch(text[..0], syntax) && text[0..] == text;
    } else if |text| == 0 {
      forall j | 0 <= j <= |text|
        ensures !MatchHere(text[j..], remainder)
      {
        assert text[j..] == text;
      }
    } else if !IsMatch(text[0], syntax) {
      forall j | 0 < j <= |text|
        ensures !AllMatch(text[..j], syntax)
      {
        assert text[..j][0] == text[0];
      }
      assert text[0..] == text;
    } else {
      var tail := text[1..];
      RepeatFromExists(tail, syntax, remainder);
      if RepeatFrom(tail, syntax, remainder) {
        var j :| 0 <= j <= |tail| && AllMatch(tail[..j], syntax) && MatchHere(tail[j..], remainder);
        RunAfterMatch(text, syntax, j);
      }
      if exists j :: 0 <= j <= |text| && AllMatch(text[..j], syntax) && MatchHere(text[j..], remainder) {
        var j :| 0 <= j <= |text| && AllMatch(text[..j], syntax) && MatchHere(text[j..], remainder);
        assert j > 0 by {
          assert text[0..] == text;
        }
        RunAfterMatch(text, syntax, j - 1);
      }
    }
  }

  /** A run that starts with a matching character is that character followed
      by a run of the rest of the text. */
  lemma RunAfterMatch(text: string, syntax: Syntax, j: nat)
    requires IsSingleChar(syntax)
    requires j < |text| && IsMatch(text[0], syntax)
    ensures AllMatch(text[..j + 1], syntax) <==> AllMatch(text[1..][..j], syntax)
    ensures text[j + 1..] == text[1..][j..]
  {
    assert text[..j + 1] == [text[0]] + text[1..][..j];
  }

  /** The quantifier succeeds iff some number of repetitions `k >= count` is
      followed by a match of the remainder. */
  lemma MatchAtLeastExists(text: string, syntax: Syntax, remainder: seq<Syntax>, count: nat)
    requires IsSingleChar(syntax)
    requires WellFormed(remainder)
    ensures MatchAtLeast(text, syntax, remainder, count) <==>
      exists k :: count <= k <= |text| && AllMatch(text[..k], syntax) && MatchHere(text[k..], remainder)
  {
    if |text| < count {
    } else if exists i :: 0 <= i < count && !IsMatch(text[i], syntax) {
      var i :| 0 <= i < count && !IsMatch(text[i], syntax);
      forall k | count <= k <= |text|
        ensures !AllMatch(text[..k], syntax)
      {
        assert text[..k][i] == text[i];
      }
    } else {
      var tail := text[count..];
      RepeatFromExists(tail, syntax, remainder);
      if RepeatFrom(tail, syntax, remainder) {
        var j :| 0 <= j <= |tail| && AllMatch(tail[..j], syntax) && MatchHere(tail[j..], remainder);
        RunAfterPrefix(text, syntax, count, j);
      }
      if exists k :: count <= k <= |text| && AllMatch(text[..k], syntax) && MatchHere(text[k..], remainder) {
        var k :| count <= k <= |text| && AllMatch(text[..k], syntax) && MatchHere(text[k..], remainder);
        RunAfterPrefix(text, syntax, count, k - count);
      }
    }
  }

  /** A run that starts with `count` matching characters is those characters
      followed by a run of the rest of the text. */
  lemma RunAfterPrefix(text: string, syntax: Syntax, count: nat, j: nat)
    requires IsSingleChar(syntax)
    requires count + j <= |text|
    requires forall i :: 0 <= i < count ==> IsMatch(text[i], syntax)
    ensures AllMatch(text[..count + j], syntax) <==> AllMatch(text[count..][..j], syntax)
    ensures text[count + j..] == text[count..][j..]
  {
    var run := text[..count + j];
    assert run == text[..count] + text[count..][..j];
  }

  /** `OneOrMore` asks for at least one repetition and `ZeroOrMore` (what `?`
      compiles to) for at least none; then the rest of the pattern must match
      after some run of matching characters. */
  lemma QuantifierStep(text: string, quantifier: Syntax, rest: seq<Syntax>)
    requires quantifier.OneOrMore? || quantifier.ZeroOrMore?
    requires IsSingleChar(quantifier.syntax)
    requires WellFormed(rest)
    ensures WellFormed([quantifier] + rest)
    ensures quantifier.OneOrMore? ==>
      (MatchHere(text, [quantifier] + rest) <==>
        exists k :: 1 <= k <= |text| && AllMatch(text[..k], quantifier.syntax) && MatchHere(text[k..], rest))
    ensures quantifier.ZeroOrMore? ==>
      (MatchHere(text, [quantifier] + rest) <==>
        exists k :: 0 <= k <= |text| && AllMatch(text[..k], quantifier.syntax) && MatchHere(text[k..], rest))
  {
    assert ([quantifier] + rest)[1..] == rest;
    if quantifier.OneOrMore? {
      MatchAtLeastExists(text, quantifier.syntax, rest, 1);
    } else {
      MatchAtLeastExists(text, quantifier.syntax, rest, 0);
    }
  }

  // ---------------------------------------------------------------------
  // Declarative meaning

  /** Every character of `text` is described by `syntax`. */
  ghost predicate Run(text: string, syntax: Syntax)
    requires IsSingleChar(syntax)
  {
    forall i :: 0 <= i < |text| ==> Describes(syntax, text[i])
  }

  /** The pattern matches a prefix of `text`: each single-character node
      consumes one character it describes, a quantifier consumes some run of
      at least its minimum, and an end anchor is the last node at the end of
      the text. No search order is involved. */
  ghost predicate Matches(text: string, pattern: seq<Syntax>)
    requires WellFormed(pattern)
    decreases |pattern|
  {
    if |pattern| == 0 then true
    else if pattern[0].OneOrMore? || pattern[0].ZeroOrMore? then
      var s := pattern[0].syntax;
      exists k :: MinRepetitions(pattern[0]) <= k <= |text| && Run(text[..k], s) && Matches(text[k..], pattern[1..])
    else if pattern[0].EndOfLineAnchor? then |pattern| == 1 && |text| == 0
    else |text| > 0 && Describes(pattern[0], text[0]) && Matches(text[1..], pattern[1..])
  }

  /** A run matches under the range checks iff it does under the documented sets. */
  lemma AllMatchIsRun(text: string, syntax: Syntax)
    requires IsSingleChar(syntax)
    ensures AllMatch(text, syntax) <==> Run(text, syntax)
  {
    forall i | 0 <= i < |text| {
      IsMatchDescribes(text[i], syntax);
    }
  }

  /** The backtracking matcher decides exactly the declarative relation. */
  lemma {:induction false} MatchHereMeaning(text: string, pattern: seq<Syntax>)
    requires WellFormed(pattern)
    ensures MatchHere(text, pattern) <==> Matches(text, pattern)
    decreases |pattern|
  {
    if |pattern| == 0 {
      return;
    }
    var rest := pattern[1..];
    if pattern[0].OneOrMore? || pattern[0].ZeroOrMore? {
      var s := pattern[0].syntax;
      MatchAtLeastExists(text, s, rest, MinRepetitions(pattern[0]));
      forall k | 0 <= k <= |text|
        ensures MatchHere(text[k..], rest) <==> Matches(text[k..], rest)
        ensures AllMatch(text[..k], s) <==> Run(text[..k], s)
      {
        MatchHereMeaning(text[k..], rest);
        AllMatchIsRun(text[..k], s);
      }
    } else if !pattern[0].EndOfLineAnchor? && |text| > 0 {
      MatchHereMeaning(text[1..], rest);
      IsMatchDescribes(text[0], pattern[0]);
    }
  }

  // ---------------------------------------------------------------------
  // The driver

  /** The offset loop succeeds iff some offset before the end of the text
      matches. */
  lemma {:induction false} MatchFromExists(text: string, pattern: seq<Syntax>)
    requires WellFormed(pattern)
    ensures MatchFrom(text, pattern) <==> exists i :: 0 <= i < |text| && MatchHere(text[i..], pattern)
  {
    if |text| > 0 {
      MatchFromExists(text[1..], pattern);
      assert text[0..] == text;
      forall i | 1 <= i < |text|
        ensures text[1..][i - 1..] == text[i..]
      {
      }
    }
  }

  /** Anchored: one attempt at offset 0 on the nodes after the anchor.
      Otherwise: some offset strictly before the end of the line matches, so
      an unanchored pattern never matches the empty line. */
  lemma MatchPatternMeaning(line: string, pattern: seq<Syntax>)
    requires WellFormedPattern(pattern)
    ensures IsAnchored(pattern) ==> (MatchPattern(line, pattern) <==> MatchHere(line, pattern[1..]))
    ensures !IsAnchored(pattern) ==>
      (MatchPattern(line, pattern) <==> exists i :: 0 <= i < |line| && MatchHere(line[i..], pattern))
    ensures !IsAnchored(pattern) && |line| == 0 ==> !MatchPattern(line, pattern)
    ensures IsAnchored(pattern) ==> (MatchPattern(line, pattern) <==> Matches(line, pattern[1..]))
    ensures !IsAnchored(pattern) ==>
      (MatchPattern(line, pattern) <==> exists i :: 0 <= i < |line| && Matches(line[i..], pattern))
  {
    if IsAnchored(pattern) {
      MatchHereMeaning(line, pattern[1..]);
    } else {
      MatchFromExists(line, pattern);
      forall i | 0 <= i < |line| {
        MatchHereMeaning(line[i..], pattern);
      }
    }
  }

  /** The inclusive driver accepts what the driver as written accepts, plus,
      for an unanchored pattern, the empty match at the end of the line. The
      two can agree even then, when the pattern also matches earlier. */
  lemma MatchPatternMissesEndOffset(line: string, pattern: seq<Syntax>)
    requires WellFormedPattern(pattern)
    ensures MatchPatternInclusive(line, pattern) <==>
      MatchPattern(line, pattern) || (!IsAnchored(pattern) && MatchHere([], pattern))
  {
    if !IsAnchored(pattern) {
      MatchFromExists(line, pattern);
    }
    assert line[|line|..] == [];
  }

  /** The pattern `$` matches no line under the driver as written. */
  lemma EndAnchorAloneNeverMatches(line: string)
    ensures WellFormedPattern([EndOfLineAnchor])
    ensures !MatchPattern(line, [EndOfLineAnchor])
  {
    MatchPatternMeaning(line, [EndOfLineAnchor]);
  }

  /** The inclusive driver: an unanchored pattern that matches the empty text
      matches every line, and a match of the inclusive driver is a declarative
      match starting at some offset, the end of the line included. */
  lemma InclusiveDriverMeaning(line: string, pattern: seq<Syntax>)
    requires WellFormedPattern(pattern)
    ensures !IsAnchored(pattern) ==>
      (MatchPatternInclusive(line, pattern) <==> exists i :: 0 <= i <= |line| && Matches(line[i..], pattern))
    ensures !IsAnchored(pattern) && Matches([], pattern) ==> MatchPatternInclusive(line, pattern)
    ensures MatchPattern(line, pattern) ==> MatchPatternInclusive(line, pattern)
  {
    if !IsAnchored(pattern) {
      forall i | 0 <= i <= |line| {
        MatchHereMeaning(line[i..], pattern);
      }
      assert line[|line|..] == [];
    }
    MatchPatternMissesEndOffset(line, pattern);
  }
}
