/**
 The pattern tokenizer (src/grep/tokens.rs).

 Each pattern character becomes exactly one token through a fixed table;
 `Display` turns a token back into the character it was read from.
 */
module Tokens {

  datatype Token =
    | Literal(ch: char)
    | Backslash
    | OpenBracket
    | CloseBracket
    | OpenSquareBracket
    | CloseSquareBracket
    | Caret
    | Dollar
    | Plus
    | QuestionMark
    | Dot
    | Bar

  /** The characters with a token of their own: `\ ( ) [ ] ^ $ + ? . |`. */
  const SpecialChars: string := "\\()[]^$+?.|"

  /** The token table applied to one pattern character. */
  function TokenOf(c: char): Token {
    match c
    case '\\' => Backslash
    case '(' => OpenBracket
    case ')' => CloseBracket
    case '[' => OpenSquareBracket
    case ']' => CloseSquareBracket
    case '^' => Caret
    case '$' => Dollar
    case '+' => Plus
    case '?' => QuestionMark
    case '.' => Dot
    case '|' => Bar
    case other => Literal(other)
  }

  /** The character a token is written as. */
  function Display(t: Token): char {
    match t
    case Backslash => '\\'
    case OpenBracket => '('
    case CloseBracket => ')'
    case OpenSquareBracket => '['
    case CloseSquareBracket => ']'
    case Caret => '^'
    case Dollar => '$'
    case Plus => '+'
    case QuestionMark => '?'
    case Dot => '.'
    case Bar => '|'
    case Literal(c) => c
  }

  /** Splits a pattern into tokens, mapping the table over its characters.
      Every string tokenizes: there is no error result. */
  function Tokenize(pattern: string): seq<Token> {
    seq(|pattern|, i requires 0 <= i < |pattern| => TokenOf(pattern[i]))
  }

  /** Writes a token sequence back out, one character per token. */
  function Render(tokens: seq<Token>): string {
    seq(|tokens|, i requires 0 <= i < |tokens| => Display(tokens[i]))
  }

  /** Tokenizing gives exactly one token per pattern character, in order.
      `Tokenize` is defined as this map, so the lemma holds by definition; it
      states the property on its own for callers. */
  lemma TokenizeOneTokenPerChar(pattern: string)
    ensures |Tokenize(pattern)| == |pattern|
    ensures forall i :: 0 <= i < |pattern| ==> Tokenize(pattern)[i] == TokenOf(pattern[i])
  {
  }

  /** A token that tokenizing its own `Display` character gives back: every
      token except a `Literal` that carries one of the special characters. */
  predicate IsCanonical(t: Token) {
    t.Literal? ==> t.ch !in SpecialChars
  }

  /** A character is special exactly when the table gives it a token of its
      own, and a table entry always displays as the character it came from. */
  lemma TokenTable(c: char)
    ensures TokenOf(c).Literal? <==> c !in SpecialChars
    ensures TokenOf(c).Literal? ==> TokenOf(c).ch == c
    ensures Display(TokenOf(c)) == c
    ensures IsCanonical(TokenOf(c))
  {
  }

  /** Tokenizing a token's character gives the token back iff it is canonical. */
  lemma DisplayThenTokenOf(t: Token)
    ensures TokenOf(Display(t)) == t <==> IsCanonical(t)
  {
  }

  /** Rendering the tokens of a pattern reproduces the pattern. */
  lemma RenderTokenize(pattern: string)
    ensures Render(Tokenize(pattern)) == pattern
  {
    var r := Render(Tokenize(pattern));
    forall i | 0 <= i < |pattern|
      ensures r[i] == pattern[i]
    {
      TokenTable(pattern[i]);
    }
  }

  /** Rendering then tokenizing a token sequence gives it back iff every token
      in it is canonical. */
  lemma TokenizeRender(tokens: seq<Token>)
    ensures Tokenize(Render(tokens)) == tokens <==> forall i :: 0 <= i < |tokens| ==> IsCanonical(tokens[i])
  {
    var r := Tokenize(Render(tokens));
    if forall i :: 0 <= i < |tokens| ==> IsCanonical(tokens[i]) {
      forall i | 0 <= i < |tokens|
        ensures r[i] == tokens[i]
      {
        DisplayThenTokenOf(tokens[i]);
      }
    }
    if r == tokens {
      forall i | 0 <= i < |tokens|
        ensures IsCanonical(tokens[i])
      {
        assert TokenOf(Display(tokens[i])) == tokens[i];
        DisplayThenTokenOf(tokens[i]);
      }
    }
  }

  /** Tokenization works character by character, so it distributes over
      concatenation; this too follows directly from the definition. */
  lemma TokenizeAppend(a: string, b: string)
    ensures Tokenize(a + b) == Tokenize(a) + Tokenize(b)
  {
  }

  /** The one-character vectors of the unit tests. */
  lemma TokenizeSingleCharacterExamples()
    ensures Tokenize("\\") == [Backslash]
    ensures Tokenize("(") == [OpenBracket]
    ensures Tokenize(")") == [CloseBracket]
    ensures Tokenize("[") == [OpenSquareBracket]
    ensures Tokenize("]") == [CloseSquareBracket]
    ensures Tokenize("^") == [Caret]
    ensures Tokenize("$") == [Dollar]
    ensures Tokenize("+") == [Plus]
    ensures Tokenize("?") == [QuestionMark]
    ensures Tokenize(".") == [Dot]
    ensures Tokenize("|") == [Bar]
  {
  }

  /** The complex-pattern vector of the unit tests. */
  lemma TokenizeComplexExample()
    ensures Tokenize("[^abc]\\d\\d") == [
              OpenSquareBracket, Caret, Literal('a'), Literal('b'), Literal('c'),
              CloseSquareBracket, Backslash, Literal('d'), Backslash, Literal('d')]
  {
  }
}
