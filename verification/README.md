# A verified model of a small grep pattern matcher

This project models the pattern-matching core of a small grep clone written
in Rust. The core has three parts:

- **The tokenizer** (`tokenize_pattern` and `Display for Token`). It maps each
  pattern character to one token through a fixed table, and maps each token
  back to a character.
- **The character predicates** (`is_in_range`, `is_digit`,
  `is_lower_case_letter`, `is_upper_case_letter`, `is_word`). The first four
  are inclusive range checks on character codes; `is_word` is three of those
  ranges or the character `_`.
- **The backtracking matcher** (`is_match`, `match_here`, `match_at_least`)
  and the driver `match_pattern`. The matcher runs a sequence of `Syntax`
  nodes against the start of a text. The driver makes one anchored attempt,
  or tries every offset before the end of the line.

The modules are:

| file | module | what it holds |
|---|---|---|
| `patterns.dfy` | `Patterns` | the range predicates; the digit, letter and word sets spelled out character by character; proofs that the predicates accept exactly those sets |
| `tokens.dfy` | `Tokens` | `Token`, the token table `TokenOf`, `Display`, `Tokenize`, `Render`; round trips in both directions |
| `syntax.dfy` | `Syntax` | the eight-variant `Syntax` node type; the well-formedness conditions that replace the matcher's panics; `Describes`, the documented meaning of each single-character node |
| `grep.dfy` | `Grep` | the matcher and driver as written; `Matches`, a declarative semantics with no search order; proofs that the two agree; the corrected driver |
| `grep_examples.dfy` | `GrepExamples` | the matcher unit tests as lemmas over hand-built node sequences |

Each operation is paired with an independent definition, and a lemma proves
they agree:

- The tokenizer is paired with `Render`.
- Each range check is paired with an explicit enumeration of the characters
  it is meant to accept.
- `IsMatch` is paired with `Describes`, the doc-comment meaning of each
  single-character node.
- The backtracking `MatchHere` is paired with the declarative `Matches`. In
  `Matches`, a quantifier stands for some number of repetitions at or above
  its minimum.

Text is modelled as a sequence of characters, and pattern syntax as an
already-parsed `seq<Syntax>`.

## Model

| member | source | states |
|---|---|---|
| Patterns.IsInRange | src/grep/patterns.rs:1-3 | no contract of its own; `InRangeIsInclusive` and `InRangeEnumerates` give its meaning |
| Patterns.IsDigit | src/grep/patterns.rs:5-7 | no contract of its own; `IsDigitExactlyDigits` equates it with membership in `0123456789` |
| Patterns.IsLowerCaseLetter | src/grep/patterns.rs:9-11 | no contract of its own; `IsLowerCaseLetterExactlyLetters` equates it with membership in `a` to `z` |
| Patterns.IsUpperCaseLetter | src/grep/patterns.rs:13-15 | no contract of its own; `IsUpperCaseLetterExactlyLetters` equates it with membership in `A` to `Z` |
| Patterns.IsWord | src/grep/patterns.rs:17-19 | no contract of its own; `IsWordExactlyWordChars` equates it with membership in `[a-zA-Z0-9_]` |
| Patterns.InRangeIsInclusive | src/grep/patterns.rs:1-3 | both bounds of a non-empty range are accepted, and nothing below the lower or above the upper bound is |
| Patterns.InRangeEnumerates | src/grep/patterns.rs:1-3 | a range check accepts exactly the characters of the consecutive enumeration from its lower to its upper bound |
| Patterns.IsDigitExactlyDigits | src/grep/patterns.rs:5-7 | `is_digit` holds exactly for the ten characters `0123456789` |
| Patterns.IsLowerCaseLetterExactlyLetters | src/grep/patterns.rs:9-11 | `is_lower_case_letter` holds exactly for the twenty-six letters `a` to `z` |
| Patterns.IsUpperCaseLetterExactlyLetters | src/grep/patterns.rs:13-15 | `is_upper_case_letter` holds exactly for the twenty-six letters `A` to `Z` |
| Patterns.IsWordExactlyWordChars | src/grep/patterns.rs:17-19 | `is_word` holds exactly for the sixty-three characters of `[a-zA-Z0-9_]` |
| Patterns.DigitIsWord | src/grep/patterns.rs:17-19 | every digit is a word character |
| Patterns.ClassesAreDisjoint | src/grep/patterns.rs:5-15 | no character is in two of the digit, lower-case and upper-case ranges |
| Patterns.PredicateExamples | src/grep/patterns.rs:25-117 | the unit-test characters: all ten digits are digits; `_` is a word character but no digit or letter; `$` and `%` are neither; the letter-case boundary cases |
| Tokens.TokenOf | src/grep/tokens.rs:22-34 | no contract of its own; `TokenTable` and `DisplayThenTokenOf` state the table |
| Tokens.Tokenize | src/grep/tokens.rs:19-37 | no contract of its own; `TokenizeOneTokenPerChar`, `TokenizeAppend` and the round trips `RenderTokenize` and `TokenizeRender` give its meaning |
| Tokens.Display | src/grep/tokens.rs:39-55 | no contract of its own; `DisplayThenTokenOf` and `TokenTable` make it the inverse of the table on canonical tokens |
| Tokens.TokenizeOneTokenPerChar | src/grep/tokens.rs:19-37 | tokenizing gives one token per pattern character, in order, each given by the table; every string tokenizes |
| Tokens.TokenTable | src/grep/tokens.rs:22-34 | a character gets a token of its own exactly when it is one of the eleven special characters (backslash, both parentheses, both square brackets, caret, dollar, plus, question mark, dot and bar); any other character `c` becomes `Literal(c)`; every token the table produces displays as its character |
| Tokens.DisplayThenTokenOf | src/grep/tokens.rs:39-55 | tokenizing a token's displayed character gives the token back exactly when the token is not a `Literal` that carries a special character |
| Tokens.RenderTokenize | src/grep/tokens.rs:19-55 | concatenating the displayed characters of a pattern's tokens reproduces the pattern |
| Tokens.TokenizeRender | src/grep/tokens.rs:19-55 | rendering then tokenizing a token sequence gives it back exactly when none of its tokens is a `Literal` that carries a special character |
| Tokens.TokenizeAppend | src/grep/tokens.rs:20-36 | tokenizing a concatenation is the concatenation of the tokenizations |
| Tokens.TokenizeSingleCharacterExamples | src/grep/tokens.rs:62-115 | each special character tokenizes to its own one-token sequence |
| Tokens.TokenizeComplexExample | src/grep/tokens.rs:117-134 | `[^abc]\d\d` tokenizes to the listed ten tokens |
| Grep.IsMatch | src/grep.rs:11-41 | no contract of its own; the panicking cases are excluded by its precondition, and `IsMatchDescribes` equates it with `Describes` |
| Grep.MatchHere | src/grep.rs:70-93 | no contract of its own; `MatchHereMeaning` equates it with `Matches`, and the step lemmas below state each branch |
| Grep.MatchAtLeast | src/grep.rs:43-51 | no contract of its own; `MatchAtLeastExists` states it existentially |
| Grep.RepeatFrom | src/grep.rs:52-67 | no contract of its own; `RepeatFromExists` states it existentially |
| Grep.MatchFrom | src/grep.rs:103-109 | no contract of its own; `MatchFromExists` states it existentially |
| Grep.MatchPattern | src/grep.rs:95-110 | no contract of its own; `MatchPatternMeaning` states it existentially, against both `MatchHere` and `Matches` |
| Grep.IsMatchDescribes | src/grep.rs:11-23 | a single-character node accepts exactly the characters its documentation names: its literal, `[0-9]`, `[a-zA-Z0-9_]`, or the class's characters (their complement when negated) |
| Grep.DigitIsDigitClass | src/grep/syntax.rs:7-8 | `Digit` accepts the same characters as the class `[0123456789]` |
| Grep.WordIsWordClass | src/grep/syntax.rs:10-11 | `Word` accepts the same characters as the class over a-z, A-Z, 0-9 and `_` |
| Grep.NegatedClassIsComplement | src/grep.rs:16-23 | a negated class accepts exactly what the plain class over the same characters rejects; a plain class accepts its members; the empty plain class accepts nothing |
| Grep.EmptyPatternMatches | src/grep.rs:71-74 | an exhausted pattern succeeds on any remaining text |
| Grep.EndAnchorMatchesOnlyAtEnd | src/grep.rs:84-86 | an end anchor succeeds iff it is the last node and no text remains |
| Grep.SingleCharStep | src/grep.rs:88-92 | a single-character node against `c` followed by `t` succeeds iff `c` matches the node and the rest of the pattern matches `t`; on empty text it fails |
| Grep.SingleCharsPrefix | src/grep.rs:88-92 | a run of single-character nodes consumes exactly one matching character per node, then hands the rest of the text to the rest of the pattern |
| Grep.RepeatFromExists | src/grep.rs:52-67 | the quantifier loop succeeds iff, after some run of characters that all match the quantified node, the rest of the pattern matches |
| Grep.MatchAtLeastExists | src/grep.rs:43-68 | `match_at_least(text, s, rest, n)` holds iff for some `k >= n` the first `k` characters all match `s` and `rest` matches the text after them |
| Grep.QuantifierStep | src/grep.rs:76-82 | a pattern headed by `OneOrMore` matches iff some run of `k >= 1` characters matching its node is followed by a match of the rest; headed by `ZeroOrMore` (what `?` compiles to), the same with `k >= 0`; neither has an upper bound |
| Grep.MatchHereMeaning | src/grep.rs:70-93 | the backtracking `match_here` succeeds exactly when the pattern matches a prefix of the text under the declarative semantics |
| Grep.MatchFromExists | src/grep.rs:103-107 | the offset loop succeeds iff some offset strictly before the end of the line matches |
| Grep.MatchPatternMeaning | src/grep.rs:95-110 | with a leading start anchor, the driver makes one attempt at offset 0 on the nodes after it; otherwise it succeeds iff the pattern matches at some offset `0 <= i < len`, so an unanchored pattern never matches the empty line; both forms are also stated against the declarative semantics |
| Grep.EndAnchorAloneNeverMatches | src/grep.rs:103-109 | the pattern `$` matches no line under the driver as written |
| Grep.MatchPatternMissesEndOffset | src/grep.rs:103-109 | the corrected driver accepts exactly what the driver as written accepts plus, for an unanchored pattern, the empty match at the end of the line |
| Grep.MatchPatternInclusive | src/grep.rs:95-110 | the corrected driver: anchored, one attempt at offset 0; unanchored, success iff some offset `0 <= i <= len` matches, the end of the line included |
| Grep.InclusiveDriverMeaning | src/grep.rs:95-110 | for an unanchored pattern, the corrected driver succeeds iff the pattern matches, under the declarative semantics, at some offset up to and including the end of the line; an unanchored pattern that matches the empty text matches every line; every match of the driver as written is also one of the corrected driver |
| GrepExamples.TestSingleChar | src/grep.rs:116-124 | `e` is found in "abcdefg"; `x` is not |
| GrepExamples.TestDigit | src/grep.rs:126-134 | `\d` is found in "ab1def" but not in "abcdefg" |
| GrepExamples.TestWord | src/grep.rs:136-144 | `\w` is found in "fool101" but not in "$!?" |
| GrepExamples.TestWordNonAscii | src/grep.rs:216 | `\w` is not found in "×-+=÷%": non-ASCII symbols are not word characters |
| GrepExamples.TestCharacterGroup | src/grep.rs:146-150 | `[abc]` and `[cba]` are found in "apple" |
| GrepExamples.TestCharacterGroupNoMatch | src/grep.rs:152-157 | `[]`, `[b]` and `[_xy]` are not found in "apple" |
| GrepExamples.TestNegativeCharacterGroup | src/grep.rs:159-167 | `[^abc]` is found in "cat" but not in "cab" |
| GrepExamples.TestDigitApple | src/grep.rs:171 | `\d apple` is found in "1 apple" |
| GrepExamples.TestDigitOrange | src/grep.rs:172 | `\d apple` is not found in "1 orange" |
| GrepExamples.TestThreeDigitsApple | src/grep.rs:174 | `\d\d\d apple` is found in every line that starts with "100 apple", "100 apples" among them |
| GrepExamples.TestThreeDigitsOneApple | src/grep.rs:175 | `\d\d\d apple` is not found in "1 apple" |
| GrepExamples.TestDigitWordsDogs | src/grep.rs:177 | `\d \w\w\ws` is found in "3 dogs" |
| GrepExamples.TestDigitWordsCats | src/grep.rs:178 | `\d \w\w\ws` is found in "4 cats" |
| GrepExamples.TestDigitWordsTooShort | src/grep.rs:179 | `\d \w\w\ws` is not found in "1 dog" |
| GrepExamples.TestStartOfLineAnchor | src/grep.rs:182-186 | `^log` matches "log" but not "slog" |
| GrepExamples.TestEndOfLineAnchor | src/grep.rs:188-192 | `dog$` matches "dog" but not "dogs" |
| GrepExamples.TestEmptyAnchors | src/grep.rs:194-198 | `^$` matches "" but not "x" |
| GrepExamples.TestOneOrMore | src/grep.rs:200-205 | `ca+ts` matches "caats", `ca+` matches "caaaaa", and `ca+ts` rejects "cts" |
| GrepExamples.TestZeroOrMore | src/grep.rs:207-212 | `dogs?` matches "dogs" and "dog" but not "cat" |
| GrepExamples.QuestionMarkRepeats | src/grep.rs:80-82 | `?` compiles to zero-or-more, so `^dogs?$` accepts "dogss" |
| GrepExamples.MissingSecondLiteral | src/grep.rs:88-92 | a pattern whose second node is a literal absent from the line matches nowhere in it |
| GrepExamples.TestEscapedBackslash | src/grep.rs:217-220 | `\d\\d\\d apples` (literal backslashes) is not found in "sally has 12 apples" |
| GrepExamples.InclusiveDriverExamples | src/grep.rs:103-109 | `$` on "abc" and `x?` on the empty line fail under the driver as written and succeed under the corrected driver |

## Left out

- `src/main.rs`: argument handling, reading stdin and files, printing and exit codes are I/O and are not modelled.
- The parser `parse_pattern` is not part of this model. Each test's pattern is written out as the node sequence it denotes. So `ca+ts` becomes `[Literal('c'), OneOrMore(Literal('a')), Literal('t'), Literal('s')]`, and `?` becomes `ZeroOrMore`.
- `is_any_of` and `StringUtils::slice` are not part of this model. They are modelled as sequence membership and as dropping leading characters.
- Byte versus character indexing: the source measures and slices text by bytes. This model works on characters. The two agree on ASCII text. On non-ASCII text the source can try extra offsets or panic, and that is not modelled.
- Capture groups, alternation, backreferences and the wildcard: tokens exist for them, but no node type or matcher case does.
- `fmt::Formatter` and `write!`: `Display` is modelled as a pure function from a token to the character it writes.
- Grep.MatchHere, Grep.MatchAtLeast, Grep.MatchPattern: the panics become preconditions. A node the matcher might hand to `is_match` must be a single-character node or a quantifier over one. This is a structural precondition and is stronger than the source's. The source panics only when such a node is actually reached with text left: a start anchor in mid-pattern against empty text returns false without panicking.
- Grep.MatchAtLeast: a quantifier directly inside another quantifier is excluded. The source panics at once only for `OneOrMore` inside. `ZeroOrMore` inside fails in `is_match` only if a character is actually tested.
- The search order of the quantifier loop (shortest run first) is not observable in the boolean result. The model keeps that order but states its result existentially.

## Findings

| source | as written | input that shows it | evidently intended | confidence | as-written member | corrected member |
|---|---|---|---|---|---|---|
| src/grep.rs:103 | the unanchored driver tries start offsets `0..input_line.len()`, which excludes the offset at the end of the line | pattern `$` on line "abc"; pattern `x?` on the empty line | a search from every start offset includes the end of the line, where the empty suffix remains, so `$` matches every line and `x?` matches the empty line | not executed; high, since POSIX grep matches `$` against every line | Grep.EndAnchorAloneNeverMatches | Grep.MatchPatternInclusive |

`Grep.MatchPattern` is the driver as written. `Grep.MatchPatternMissesEndOffset` proves the corrected driver accepts exactly what the driver as written accepts plus, for an unanchored pattern, the empty match at the end of the line; the two differ only on lines where that empty match is the sole match. `GrepExamples.InclusiveDriverExamples` exhibits both inputs above. `Grep.InclusiveDriverMeaning` proves that, for an unanchored pattern, the corrected driver succeeds exactly when the pattern matches at some offset up to and including the end of the line; anchored patterns are unaffected. The unit tests are stated against the driver as written, because they record what the code does.
