/**
 The pattern tree the matcher runs on (src/grep/syntax.rs, with the anchor
 and quantifier variants that src/grep.rs dispatches on).

 A compiled pattern is a sequence of `Syntax` nodes. `Describes` is the
 meaning the doc comments give each single-character node, written as
 explicit character sets; the matcher's range checks are proved against it.
 */
module Syntax {
  import Patterns

  datatype Syntax =
    | Literal(ch: char)
    | Digit
    | Word
    | CharacterClass(chars: seq<char>, isNegated: bool)
    | StartOfLineAnchor
    | EndOfLineAnchor
    | OneOrMore(syntax: Syntax)
    | ZeroOrMore(syntax: Syntax)

  /** Nodes that match exactly one character. */
  predicate IsSingleChar(s: Syntax) {
    s.Literal? || s.Digit? || s.Word? || s.CharacterClass?
  }

  /** Nodes the matcher handles without reaching one of its panics: a
      single-character node, an end anchor, or a quantifier whose operand is a
      single-character node. */
  predicate IsMatchable(s: Syntax) {
    match s
    case OneOrMore(inner) => IsSingleChar(inner)
    case ZeroOrMore(inner) => IsSingleChar(inner)
    case StartOfLineAnchor => false
    case _ => true
  }

  /** A node sequence the matcher accepts. */
  predicate WellFormed(pattern: seq<Syntax>) {
    forall i :: 0 <= i < |pattern| ==> IsMatchable(pattern[i])
  }

  /** A pattern as the driver receives it: an optional leading start anchor,
      then a well-formed sequence. */
  predicate WellFormedPattern(pattern: seq<Syntax>) {
    if |pattern| > 0 && pattern[0] == StartOfLineAnchor then WellFormed(pattern[1..])
    else WellFormed(pattern)
  }

  /** The smallest number of repetitions a quantifier accepts: one for
      `OneOrMore`, none for `ZeroOrMore`. */
  function MinRepetitions(s: Syntax): nat
    requires s.OneOrMore? || s.ZeroOrMore?
  {
    if s.OneOrMore? then 1 else 0
  }

  /** The documented meaning of a single-character node: `Literal` matches its
      character, `Digit` is `[0-9]`, `Word` is `[a-zA-Z0-9_]`, and a character
      class matches its characters, or everything else when negated. */
  predicate Describes(s: Syntax, c: char)
    requires IsSingleChar(s)
  {
    match s
    case Literal(x) => c == x
    case Digit => c in Patterns.Digits
    case Word => c in Patterns.WordChars
    case CharacterClass(cs, negated) => if negated then c !in cs else c in cs
  }
}
