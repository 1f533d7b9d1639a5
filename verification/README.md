# pyparsing-rs matching engine in Dafny

This project models the matching engine of pyparsing-rs. It is a Rust
parser-combinator library with a Python front end. A grammar is built from
elements:

- exact text: `Literal`, `Keyword`
- character classes: `Word`, `Regex`
- sequencing and choice: `And`, `MatchFirst`
- repetition: `ZeroOrMore`, `OneOrMore`, `Optional`, `Exactly`
- structure: `Empty`, `NoMatch`, `SkipTo`, `Group`, `Suppress`, `Combine`
- late binding: `Forward`

Every element has two methods. `parse_impl` returns the end offset and a
token list, or a `ParseException` carrying an offset and a message.
`try_match_at` returns only the end offset. On top of them sit
`parse_string`, and the `search_string` scan. Its body appears only for
`And` and `MatchFirst` (src/elements/combinators.rs:50-66 and 110-126, the
same loop twice); the model states that loop once, for any element.

In the model, the elements form one closed `datatype Elem` (module `Engine`).
Both methods are pure, mutually recursive functions over the input string:
`Parse` and `TryMatch`. A grammar value holds two things:

- an arena of `Forward` slots, each unset or pointing to an element;
- the regular-expression engine, as an oracle.

Recursion through a `Forward` spends one unit of fuel. A run that exhausts it
returns a third outcome, `OutOfFuel`; the Rust code has no such outcome.
Module `Fuel` proves that such a bound never changes a verdict once one is
reached.

Layout:

- `prelude.dfy`, `results.dfy`, `context.dfy`, `decimal.dfy`,
  `exceptions.dfy`: the core types: token lists, parse context, exceptions and
  their `Display` text.
- `charsets.dfy`: the `alphas`/`nums`/`alphanums`/`printables` constants.
- `literals.dfy`, `chars.dfy`: the primitive elements. `Word` has a loop
  version, `ScanWordLength`.
- `outcomes.dfy`, `engine.dfy`: the element datatype and the two methods.
- `agreement.dfy`: `try_match_at` agrees with `parse_impl`, for every element.
- `combinator_laws.dfy`, `repetition_laws.dfy`, `structure_laws.dfy`: the
  behaviour each element promises, stated against the others.
- `forward.dfy`: `Forward::new` and `Forward::set`.
- `search.dfy`: `search_string`.
- `fuel.dfy`: fuel monotonicity.
- `scenarios.dfy`: the inputs of the repository's tests, worked through the
  model.

Offsets are character indices into a `string`, and the input is taken to be
ASCII, so byte and character offsets coincide. Every operation requires the
starting offset to be at most the input length. Every offset the engine
itself produces satisfies this.

## Model

| member | source | states |
|---|---|---|
| Results.New | src/core/results.rs:18-20 | a new token list is empty |
| Results.FromSingle | src/core/results.rs:22-26 | the list holds exactly the one given token |
| Results.Extend | src/core/results.rs:28-30 | the result is `a`'s tokens followed by `b`'s, index by index, with the lengths adding |
| Results.AsList | src/core/results.rs:32-34 | the list returned is the token sequence, unchanged and in order |
| Results.AsVec | src/core/results.rs:36-38 | the view returned is the token sequence, unchanged and in order |
| Results.ExtendIdentity | src/core/results.rs:28-30 | extending by an empty list, or extending an empty list, changes nothing |
| Results.ExtendAssociative | src/core/results.rs:28-30 | extending is associative, so the tokens of a chain of matches do not depend on grouping |
| Context.New | src/core/context.rs:8-10 | a fresh context has its cursor at 0, and `Input` of it returns `s` unchanged |
| Context.Input | src/core/context.rs:13-15 | the input has the context's length (that it is the string the context was built from is stated by `Context.New`) |
| Context.SetPosition | src/core/context.rs:23-25 | the cursor becomes `pos` and the input is unchanged |
| Context.Remaining | src/core/context.rs:28-30 | the read prefix followed by the remainder is the whole input, and the remainder's length is the unread count |
| Context.SetThenGet | src/core/context.rs:18-25 | reading the cursor after setting it returns the value set; input and length are untouched |
| Context.AtEndIffNothingRemains | src/core/context.rs:28-35 | the context is at its end exactly when nothing remains, exactly when the cursor equals the length |
| Decimal.DigitChar | src/core/exceptions.rs:20 | a digit value below 10 renders as a decimal digit character |
| Decimal.DigitValue | src/core/exceptions.rs:20 | reading a digit character gives a value below 10 that renders back to the same character |
| Decimal.NatToString | src/core/exceptions.rs:20 | a rendered offset is a non-empty run of digits, with a leading zero only for 0 |
| Decimal.StringToNatOfNatToString | src/core/exceptions.rs:20 | reading a rendered offset back gives the offset |
| Decimal.NatToStringOfStringToNat | src/core/exceptions.rs:20 | a digit string with no leading zero (other than "0") is the rendering of its value |
| Decimal.DigitRun | src/core/exceptions.rs:20 | the leading digit run is all digits and is followed by a non-digit or the end |
| Decimal.DigitRunOfPrefix | src/core/exceptions.rs:20 | a digit string followed by a non-digit has a leading digit run of exactly its length |
| Exceptions.NewParseException | src/core/exceptions.rs:10-15 | the exception stores the offset and the message unchanged |
| Exceptions.NewParseFatalException | src/core/exceptions.rs:33-38 | the fatal exception stores the offset and the message unchanged |
| Exceptions.ReadRenderedRoundTrip | src/core/exceptions.rs:18-22 | "<kind> at position <loc>: <msg>" reads back to exactly `(loc, msg)` |
| Exceptions.ReadRenderedCanonical | src/core/exceptions.rs:18-22 | every string the reader accepts is the `{}` rendering of what it reads, so a leading-zero offset is not accepted |
| Exceptions.ReadRenderedUnique | src/core/exceptions.rs:18-22 | the rendering of `(loc, msg)` is the only string that reads back to `(loc, msg)` |
| Exceptions.LeadingZeroRefused | src/core/exceptions.rs:20 | "ParseException at position 05: m" is not read as offset 5, since `{}` writes 5 as "5" |
| Exceptions.Display | src/core/exceptions.rs:18-22 | the rendering reads back to the exception's offset and message, and is the only string that does, which pins it to "ParseException at position {loc}: {msg}" |
| Exceptions.DisplayFatal | src/core/exceptions.rs:41-45 | the rendering reads back to the fatal exception's offset and message, and is the only string that does, which pins it to "ParseFatalException at position {loc}: {msg}" |
| Exceptions.DisplayInjective | src/core/exceptions.rs:18-22 | two exceptions with the same rendering are equal |
| Exceptions.DisplayKindsDiffer | src/core/exceptions.rs:18-45 | a recoverable and a fatal exception never render alike |
| CharSets.AscendingHasNoDuplicates | src/lib.rs:106-123 | a strictly ascending character string has no repeated character |
| CharSets.RunMembers | src/lib.rs:106-118 | a run of consecutive code points holds exactly the characters in its range |
| CharSets.InConcat | src/lib.rs:111-113 | a character is in a concatenation exactly when it is in one of the parts |
| CharSets.AscendingConcat | src/lib.rs:111-113 | two ascending strings, the first ending below the second's start, concatenate to an ascending string |
| CharSets.AlphasSplit | src/lib.rs:106-108 | `alphas()` is the upper-case letters followed by the lower-case ones |
| CharSets.AlphasAreTheLetters | src/lib.rs:106-108 | `alphas()` has 52 characters, holds exactly the ASCII letters, ascending without duplicates |
| CharSets.NumsAreTheDigits | src/lib.rs:116-118 | `nums()` has 10 characters, holds exactly the ASCII digits, ascending without duplicates |
| CharSets.Alphanums | src/lib.rs:111-113 | `alphanums()` is `alphas()` followed by `nums()` |
| CharSets.AlphanumsAreLettersAndDigits | src/lib.rs:111-113 | `alphanums()` has 62 characters, holds exactly the letters and digits, without duplicates |
| CharSets.PrintablesSplit | src/lib.rs:121-123 | `printables()` is the digits, the lower-case letters, the upper-case letters and then the punctuation part, in that order |
| CharSets.PunctuationIsTheRest | src/lib.rs:121-123 | `printables()` is digits, lower-case, upper-case, then a punctuation part of 32 characters, each visible and neither a letter nor a digit |
| CharSets.PunctuationIsComplete | src/lib.rs:121-123 | the punctuation part holds exactly the visible ASCII characters that are neither letters nor digits |
| CharSets.PrintablesAreVisibleAscii | src/lib.rs:121-123 | `printables()` has 94 characters and holds exactly the visible ASCII characters '!' to '~', without duplicates |
| CharSets.AlphanumsArePrintable | src/lib.rs:111-123 | every character of `alphanums()` is in `printables()` |
| Literals.IdentCharsAreWordChars | src/elements/literals.rs:87-90 | the keyword boundary table marks exactly the letters, digits and '_' |
| Literals.Literal | src/elements/literals.rs:27-65 | success iff the pattern is a prefix of the input at `loc`; it then ends at `loc + |s|` with the single token `s`; otherwise it fails at `loc` with "Expected '<s>'" |
| Literals.Keyword | src/elements/literals.rs:106-153 | success iff the pattern is a prefix at `loc` and the next character is absent or not an identifier character; then the end is `loc + |s|` with token `s`, otherwise "Expected keyword '<s>'" at `loc` |
| Literals.KeywordImpliesLiteral | src/elements/literals.rs:106-153 | a keyword match is a literal match with the same end and token |
| Literals.KeywordNeedsBoundary | src/elements/literals.rs:140-149 | `Keyword("if")` rejects "ifx", which `Literal("if")` accepts, and accepts "if" and "if " |
| Literals.LiteralAsWrittenAgrees | src/elements/literals.rs:15-65 | for a non-empty pattern the code as written returns what `Literal` states |
| Literals.KeywordAsWrittenAgrees | src/elements/literals.rs:86-153 | for a non-empty pattern the code as written returns what `Keyword` states |
| Literals.EmptyPatternDefect | src/elements/literals.rs:16-48 | as written, `Literal("")` and `Keyword("")` index past the end of "" and `Literal("")` fails on "a"; the intended definitions match there with the token "" |
| Chars.WordNew | src/elements/chars.rs:17-29 | `Word::new(init)`: body set = init set, minimum 1, no maximum, name "W:(" + first 8 init chars + "...)" |
| Chars.WithBodyChars | src/elements/chars.rs:31-34 | only the body set changes |
| Chars.PyWordNew | src/lib.rs:66-73 | body set is the given one, or the init set when none is given; init, minimum and maximum as in `Word::new` |
| Chars.BodyRun | src/elements/chars.rs:73-81 | the run from `p` lies in the input, consists of body characters, and is followed by a non-body character or the end |
| Chars.ScanWordLength | src/elements/chars.rs:72-81 | the loop takes the first character plus the maximal body run, cut at `max_len` when set |
| Chars.RunLengthFromWitness | src/elements/chars.rs:73-81 | any run of body characters from `p` is no longer than the maximal run |
| Chars.Word | src/elements/chars.rs:49-93 | a success starts with an init character, continues with body characters up to a non-body character, the end or `max_len`, meets `min_len`, and yields the token `input[loc..end]`; a failure is "Expected <name>" at `loc`; with `min_len <= 1`, success iff an init character is at `loc` |
| Chars.Anchor | src/elements/chars.rs:113-117 | the result starts with '^'; a pattern starting with '^' is kept, any other becomes "^(?:" + pattern + ")" |
| Chars.AnchorIdempotent | src/elements/chars.rs:113-117 | anchoring an anchored pattern changes nothing |
| Chars.Regex | src/elements/chars.rs:129-145 | success iff the engine finds the anchored pattern in `input[loc..]`; the end is `loc` plus the match's length, wherever the match starts, and the token is the matched text, which is `input[loc..end]` when the match starts at `loc`; otherwise "Expected match for /<p>/" at `loc` |
| Chars.MatchAwayFromLoc | src/elements/chars.rs:113-138 | for the pattern `^a` alternated with `b`, at offset 0 of "xb", the kept '^' binds only to `^a`, so the engine finds "b" at offset 1: the result ends at 1 with the token "b", not the text from 0 to 1 |
| Outcomes.EndOf | src/core/parser.rs:15-18 | the probe hits iff the parse succeeded, at the same end |
| Engine.Parse | src/core/parser.rs:11 | a successful match ends between `loc` and the end of the input |
| Engine.TryMatch | src/core/parser.rs:13-18 | a hit ends between `loc` and the end of the input |
| Engine.DefaultTryMatch | src/core/parser.rs:15-18 | a hit ends between `loc` and the end of the input |
| Engine.ParseMany | src/elements/repetition.rs:19-31 | the repetition loop never fails and ends at or after `loc` |
| Engine.TryMany | src/elements/repetition.rs:35-44 | the probing repetition loop never misses |
| Engine.ParseAll | src/elements/combinators.rs:23-37 | the `And` sequence loop: a success ends between `loc` and the end of the input |
| Engine.ParseFirst | src/elements/combinators.rs:85-96 | the `MatchFirst` alternatives loop: a success ends between `loc` and the end of the input |
| Engine.ParseTimes | src/elements/repetition.rs:132-145 | the `Exactly` counting loop: a success ends between `loc` and the end of the input |
| Engine.ScanTo | src/elements/structure.rs:47-69 | the `SkipTo` scan for the target: a hit ends between the scan's start and the end of the input |
| Engine.TryAll | src/elements/combinators.rs:41-47 | the `And` probe loop: a hit ends between `loc` and the end of the input |
| Engine.TryFirst | src/elements/combinators.rs:100-107 | the `MatchFirst` probe loop: a hit ends between `loc` and the end of the input |
| Engine.TryTimes | src/elements/repetition.rs:148-158 | the `Exactly` probe loop: a hit ends between `loc` and the end of the input |
| Engine.ParseString | src/core/parser.rs:21-25 | the tokens are those of a match at offset 0, and the error is that match's error |
| Agreement.TryMatchAgrees | src/core/parser.rs:13-18 | for every element, `try_match_at` is the end position of `parse_impl`: hit iff success, at the same end |
| Agreement.AllAgree | src/elements/combinators.rs:23-47 | `And.try_match_at` is the end of `And.parse_impl` |
| Agreement.FirstAgree | src/elements/combinators.rs:85-107 | `MatchFirst.try_match_at` is the end of `MatchFirst.parse_impl` |
| Agreement.ManyAgree | src/elements/repetition.rs:19-44 | `ZeroOrMore.try_match_at` is the end of `ZeroOrMore.parse_impl` |
| Agreement.TimesAgree | src/elements/repetition.rs:132-158 | `Exactly.try_match_at` is the end of `Exactly.parse_impl` |
| Agreement.OneOrMoreTryAsWrittenDisagrees | src/elements/repetition.rs:59-90 | `OneOrMore.try_match_at` as written disagrees with `parse_impl` exactly when the first iteration matches without advancing: it hits at `loc` while `parse_impl` fails |
| Agreement.OneOrMoreOfEmptyDisagrees | src/elements/repetition.rs:72-89 | `OneOrMore(Empty)` on "" is that case: the probe hits at 0, the parse fails |
| Agreement.SuppressSeesCorrectedProbe | src/elements/structure.rs:117-123 | `Suppress(OneOrMore(Empty))` on "": the probe as written hits at 0, so the code would succeed; with the corrected probe it fails with "Suppress: no match" |
| Agreement.ChoiceSeesCorrectedProbe | src/elements/combinators.rs:41-56 | for `And([MatchFirst([OneOrMore(Empty), Literal("ab")]), Literal("c")])` on "abc", the first alternative's probe as written hits at 0, where "c" misses; the corrected probe of the whole sequence hits at 3 |
| CombinatorLaws.AndEmpty | src/elements/combinators.rs:24-36 | an empty sequence succeeds at `loc` with no tokens |
| CombinatorLaws.AndAppend | src/elements/combinators.rs:23-37 | `And(a + b)` is `And(a)` then `And(b)` from where `And(a)` ended: positions thread through, tokens concatenate, the first failure is returned |
| CombinatorLaws.AndFailsWithFirstFailure | src/elements/combinators.rs:26-33 | when the first `i` children succeed and child `i` fails, the sequence fails with that child's error |
| CombinatorLaws.AndPair | src/elements/combinators.rs:26-36 | two children: the second starts at the first's end and the tokens are both lists joined |
| CombinatorLaws.MatchFirstTakesFirstNonFailure | src/elements/combinators.rs:88-93 | when children `0..i-1` fail and child `i` does not, `MatchFirst` returns child `i`'s result |
| CombinatorLaws.FirstTakesFirstNonFailure | src/elements/combinators.rs:88-93 | the same for the loop, whatever error was seen before |
| CombinatorLaws.MatchFirstAllFail | src/elements/combinators.rs:88-95 | when every child fails, `MatchFirst` fails with the last child's error, or "No match found" at `loc` when it has none |
| CombinatorLaws.FirstAllFail | src/elements/combinators.rs:88-95 | the loop returns the last child's error when all fail |
| RepetitionLaws.ZeroOrMoreIsMaximal | src/elements/repetition.rs:22-28 | at the end `ZeroOrMore` reports, the element fails or matches without advancing |
| RepetitionLaws.ZeroOrMoreUnfolds | src/elements/repetition.rs:19-31 | `ZeroOrMore` never fails; after an advancing match it equals `x` followed by `ZeroOrMore(x)`; otherwise it is an empty match at `loc` |
| RepetitionLaws.OneOrMoreFailsIff | src/elements/repetition.rs:59-77 | `OneOrMore` fails iff the first iteration fails or does not advance, and then with "Expected at least one match" at `loc` |
| RepetitionLaws.OneOrMoreIsOneThenMany | src/elements/repetition.rs:59-77 | a successful `OneOrMore` advanced and equals both `ZeroOrMore(x)` and `x` followed by `ZeroOrMore(x)` |
| RepetitionLaws.OptionalIsChoiceWithEmpty | src/elements/repetition.rs:105-116 | `Optional(x)` equals `MatchFirst([x, Empty])`: it never fails, gives `x`'s result when `x` does not fail, and an empty match at `loc` otherwise |
| RepetitionLaws.ExactlyZero | src/elements/repetition.rs:133-144 | zero repetitions match the empty string at `loc` |
| RepetitionLaws.ExactlyAdvancesEachTime | src/elements/repetition.rs:135-142 | a successful `Exactly(x, n)` covers at least `n` characters |
| RepetitionLaws.ExactlyStallFails | src/elements/repetition.rs:136-139 | an iteration that does not advance fails with "No progress in Exactly" at that iteration's position |
| RepetitionLaws.TimesAdd | src/elements/repetition.rs:135-144 | the counted loop over `m + n` iterations is `m` iterations and then `n` more from where they ended, tokens joined, stopping at the first error |
| RepetitionLaws.TimesAddStep | src/elements/repetition.rs:135-142 | the split survives one more advancing iteration in front |
| RepetitionLaws.ExactlyAdd | src/elements/repetition.rs:132-145 | `Exactly(x, m + n)` equals `Exactly(x, m)` followed by `Exactly(x, n)`, errors included |
| RepetitionLaws.ExactlyOne | src/elements/repetition.rs:135-142 | one repetition is the element itself when it advances, "No progress" when it does not, and the element's error otherwise |
| StructureLaws.EmptyAndNoMatch | src/elements/structure.rs:10-32 | `Empty` matches at `loc` with no tokens and its probe hits there; `NoMatch` fails at `loc` and its probe misses |
| StructureLaws.ScanToIsLeast | src/elements/structure.rs:60-69 | the scan reports `pos` iff the target hits at `pos` and misses everywhere from `loc` to before `pos` |
| StructureLaws.ScanToMissesIff | src/elements/structure.rs:60-69 | the scan misses iff the target misses at every position from `loc` to the end inclusive |
| StructureLaws.MissesAreFailures | src/core/parser.rs:13-18 | over a range, the target misses everywhere iff it fails everywhere |
| StructureLaws.SkipToStopsAtFirstMatch | src/elements/structure.rs:47-55 | `SkipTo(t)` succeeds at `pos` with token `input[loc..pos]` iff `t` matches at `pos` and at no earlier position from `loc` |
| StructureLaws.SkipToFailsIff | src/elements/structure.rs:49-56 | `SkipTo(t)` fails iff `t` fails at every position from `loc` to the end inclusive, with "SkipTo: target not found" at `loc` |
| StructureLaws.SuppressDropsTokens | src/elements/structure.rs:117-123 | `Suppress(x)` succeeds iff `x` does, at `x`'s end with no tokens; it fails iff `x` fails, with "Suppress: no match" at `loc` |
| StructureLaws.CombineYieldsMatchedText | src/elements/structure.rs:150-169 | `Combine(x)` succeeds iff `x` does, at `x`'s end with the one token `input[loc..end]`, and passes `x`'s failure on unchanged; its probe equals `x`'s |
| StructureLaws.CombinePairJoinsText | src/elements/structure.rs:150-160 | `Combine` over two children yields the two matched texts joined as one token |
| StructureLaws.GroupIsTransparent | src/elements/structure.rs:84-98 | `Group(x)` parses as `x` does, and its probe is its parse's end |
| Forwards.NewForward | src/elements/forward.rs:13-17 | a new forward's slot is unset; every other slot and the regex engine are unchanged |
| Forwards.SetForward | src/elements/forward.rs:19-22 | the slot then points to the given element; every other slot is unchanged |
| Forwards.SetForwardLastWins | src/elements/forward.rs:19-22 | setting twice is the same as setting only the second target |
| Forwards.UnsetForwardFails | src/elements/forward.rs:26-38 | an unset forward fails at `loc` with "Forward not initialized" and its probe misses |
| Forwards.NewForwardIsUnset | src/elements/forward.rs:13-38 | a freshly created forward fails and misses |
| Forwards.SetForwardDelegates | src/elements/forward.rs:26-38 | once set to `p`, the forward parses and probes exactly as `p` at the same position |
| Search.Prepend | src/elements/combinators.rs:55-65 | matches found so far are kept in front of the remainder of the scan |
| Search.SearchString | src/elements/combinators.rs:50-66 | the loop computes the reference scan from offset 0 |
| Search.PrefilterIsRedundant | src/elements/combinators.rs:56-57 | the `try_match_at` pre-filter never changes the result: scanning with `parse_impl` alone gives the same matches |
| Search.ScanSpansMatch | src/elements/combinators.rs:57-59 | every reported match is a successful, advancing `parse_impl` at its start, with its tokens |
| Search.ScanInOrder | src/elements/combinators.rs:55-64 | reported matches start at or after the scan's start, in increasing order, without overlap |
| Search.ScanComplete | src/elements/combinators.rs:55-64 | at every position outside the reported matches, the element fails or matches without advancing |
| Search.ScanIsSoundAndComplete | src/elements/combinators.rs:50-66 | the whole scan from 0 is sound, ordered and complete |
| Search.SearchStep | src/elements/combinators.rs:55-64 | the corrected step always moves forward, and ends the scan exactly at the end of the input |
| Search.SearchStepAsWrittenStalls | src/elements/combinators.rs:57-60 | the loop as written stays at `loc` iff the element matches the empty string there; otherwise it takes the corrected step |
| Search.EmptySequenceStallsSearch | src/elements/combinators.rs:57-60 | on "a", an empty sequence keeps the loop as written at 0 forever, while the corrected step moves to 1 |
| Fuel.ParseMonotone | src/elements/forward.rs:26-32 | a verdict reached with some fuel is the verdict for any larger fuel |
| Fuel.TryMonotone | src/elements/forward.rs:34-38 | the same for `try_match_at` |
| Fuel.AllMonotone | src/elements/combinators.rs:23-37 | the same for the sequence loop |
| Fuel.FirstMonotone | src/elements/combinators.rs:85-96 | the same for the choice loop |
| Fuel.ManyMonotone | src/elements/repetition.rs:19-31 | the same for the repetition loop |
| Fuel.TimesMonotone | src/elements/repetition.rs:132-145 | the same for the counted loop |
| Fuel.ScanMonotone | src/elements/structure.rs:60-69 | the same for the `SkipTo` scan |
| Fuel.TryAllMonotone | src/elements/combinators.rs:41-47 | the same for the probing sequence loop |
| Fuel.TryFirstMonotone | src/elements/combinators.rs:100-107 | the same for the probing choice loop |
| Fuel.TryManyMonotone | src/elements/repetition.rs:35-44 | the same for the probing repetition loop |
| Fuel.TryTimesMonotone | src/elements/repetition.rs:148-158 | the same for the probing counted loop |
| Fuel.ParseStringMonotone | src/core/parser.rs:21-25 | `parse_string` gives the same answer for every fuel at least the one that gave an answer |
| Scenarios.LiteralScenario | tests/test_basic.py:7-20 | `Literal("hello")` gives ["hello"] on "hello world" and "hello", and raises on "goodbye world" |
| Scenarios.WordWithBodyScenario | tests/test_basic.py:33-36 | `Word("abc", "xyz")` gives ["axxx"] on "axxx" |
| Scenarios.WordAlphasScenario | tests/test_combinators.py:89-93 | a forward set to `Word(alphas())` gives ["hello"] on "hello world" |
| Scenarios.WordOfLetters | src/elements/chars.rs:66-81 | a `Word` over any init set holding exactly the letters takes "hello" from "hello world", stopping at the space |
| Scenarios.ForwardWordOfLetters | tests/test_combinators.py:89-93 | a forward set to a `Word` over any init set holding exactly the letters takes "hello" from "hello world" |
| Scenarios.AndScenario | tests/test_combinators.py:7-19 | "hello" + " world" gives both tokens on "hello world" and raises at 5 on "hello there" |
| Scenarios.MatchFirstScenario | tests/test_combinators.py:22-34 | "hello" \| "goodbye" gives the matching alternative's token |
| Scenarios.ZeroOrMoreScenario | tests/test_combinators.py:37-47 | `ZeroOrMore("a")` gives four "a" tokens on "aaaa" and none on "bbbb" |
| Scenarios.OneOrMoreScenario | tests/test_combinators.py:56-60 | `OneOrMore("a")` raises on "bbbb" |
| Scenarios.OptionalScenario | tests/test_combinators.py:63-73 | `Optional("a")` gives ["a"] on "a" and [] on "b" |
| Scenarios.SuppressScenario | tests/test_combinators.py:76-80 | `Suppress("hello")` gives [] on "hello" |
| Scenarios.ExactlyScenario | tests/test_combinators.py:164-180 | `Exactly("a", 3)` gives three tokens on "aaa" and raises on "aa"; `Exactly("a", 2)` on "aaaa" stops after two |
| Scenarios.CombineScenario | tests/test_combinators.py:141-149 | `Combine("abc" + "def")` gives ["abcdef"] on "abcdef" and raises on "abcxyz" |
| Scenarios.ForwardScenario | tests/test_combinators.py:83-117 | a set forward gives ["hello"] alone and ["hello", " world"] in sequence; an unset one raises |
| Scenarios.SearchScenario | tests/test_combinators.py:188-192 | scanning "aaabaaabaa" for `Exactly("a", 3)` finds the two runs of three, with the `And`/`MatchFirst` scan assumed for `Exactly` |
| Scenarios.RecursiveScenario | src/elements/forward.rs:6-7 | a self-referring forward for nested parentheses matches "(())" whole, for any fuel from 3 up |
| Scenarios.NestedInner | src/elements/combinators.rs:88-93 | at the ")" of "(())" the self-referring forward fails its "(" alternative and takes the empty one |
| Scenarios.NestedWrap | src/elements/forward.rs:26-32 | a forward set to "(" forward ")" or nothing, matching `inner` between a "(" and a ")", matches the whole bracketed text with one more unit of fuel and the tokens "(" + inner + ")" |
| Scenarios.NestedBody | src/elements/combinators.rs:23-37 | the sequence "(" forward ")" around an inner match ends past the ")" with the tokens "(" + inner + ")" |

## Left out

- The Python bindings in src/lib.rs are not modelled: the `#[pyclass]` wrappers, error mapping to `ValueError` and module registration. They are host-language marshalling. `PyWord::new` and the character-set constants are modelled.
- The batch, parallel and file APIs are not modelled. Their Rust source is not part of this model, and they rely on threads and file I/O.
- `transform_string`, `search_string_count`, `matches` and `one_of` are not modelled. No Rust definition of them appears in src/core, src/elements or src/lib.rs; they are known only from the Python tests.
- The regular-expression engine is an oracle, a parameter of the grammar. It returns where the leftmost match of the anchored pattern starts in `input[loc..]` and how long it is; the model assumes only that the match lies within that text. Which patterns match what is not modelled, and neither are `RegexMatch::new`'s compile errors.
- `Forward`'s `RwLock` and `Arc` are not modelled. A slot is a plain optional element in the grammar's arena, and a set takes effect for every later parse.
- `Group`'s nested result shape is not modelled, because `ParseResults::from_group` does not exist in src/core/results.rs. `Group` passes its child's tokens through flat.
- `Combine`'s save and restore of `skip_whitespace` is not modelled. `ParseContext` has no such field, so no whitespace is ever skipped.
- `parser_id`, `next_parser_id`, `ParserKind` and `name` are not modelled; they are identity and metadata only.
- Unbounded recursion through `Forward` is bounded by fuel. A run that exhausts it answers `OutOfFuel`, where the program would recurse until the stack overflows. `Fuel.ParseMonotone` shows that any other answer is final.
- Engine.Parse: requires `loc <= |input|`. Beyond the end, `RegexMatch` panics slicing `input[loc..]` (chars.rs:134) and so does `Combine` slicing `input[loc..new_loc]` (structure.rs:158); the other elements fail or succeed there without panicking, which is not modelled. The engine never produces an offset past the end.
- Engine.TryMatch: uses the corrected `OneOrMore` probe and the corrected empty-pattern `Literal`/`Keyword` of the Findings. Every element that consults a child's probe inherits the correction: `Suppress`, `SkipTo`, the `And`/`MatchFirst` probes and the `search_string` pre-filter. So `Search.PrefilterIsRedundant`, `StructureLaws.SuppressDropsTokens`, `StructureLaws.SkipToStopsAtFirstMatch` and `StructureLaws.SkipToFailsIff` are properties of the corrected program. As written, `Suppress(OneOrMore(Empty))` succeeds on "" where the model fails (`Agreement.SuppressSeesCorrectedProbe`), and `search_string` of `And([MatchFirst([OneOrMore(Empty), Literal("ab")]), Literal("c")])` on "abc" skips offset 0 where the model reports the span 0..3 (`Agreement.ChoiceSeesCorrectedProbe`).
- Offsets are character indices, with the input taken to be ASCII. On non-ASCII input the Rust code mixes byte offsets (`Literal`, `Keyword`) with `char` iteration (`Word`), and slicing there can panic on a non-boundary. That is not modelled.
- Search.SearchString: only the `And` and `MatchFirst` bodies of `search_string` (src/elements/combinators.rs:50-66 and 110-126) are part of this model. Other elements reach a `search_string` whose body is not part of this model: the `Literal` binding at src/lib.rs:31-32 calls one, yet `Literal` defines none and the element trait at src/core/parser.rs:9-26 declares none. The model assumes every element scans as `And` and `MatchFirst` do; `Scenarios.SearchScenario`, which scans for an `Exactly`, rests on that assumption.

## Findings

| source | as written | input that shows it | evidently intended | confidence | as-written member | corrected member |
|---|---|---|---|---|---|---|
| src/elements/literals.rs:16-48 | For an empty pattern, `first_char` is 0 and `input_bytes[loc]` is still read (likewise `Keyword`, lines 92 and 125) | `Literal("")` at offset 0 of "" (index out of bounds) and of "a" (fails) | the empty pattern matches everywhere with the token "" | not executed | Literals.LiteralAsWritten, shown by Literals.EmptyPatternDefect | Literals.Literal |
| src/elements/repetition.rs:82 | `OneOrMore.try_match_at` accepts a first match that does not advance (`?`, then the loop) | `OneOrMore(Empty)` on "": `try_match_at` gives Some(0), `parse_impl` fails; nested, `Suppress(OneOrMore(Empty))` succeeds on "", and `search_string` of `And([MatchFirst([OneOrMore(Empty), Literal("ab")]), Literal("c")])` on "abc" misses the match at 0 | `try_match_at` agrees with `parse_impl` and rejects a zero-width first match | not executed | Agreement.OneOrMoreTryAsWritten, shown by Agreement.OneOrMoreTryAsWrittenDisagrees | Engine.TryMatch, proved in Agreement.TryMatchAgrees |
| src/elements/combinators.rs:57-60 | `search_string` pushes a zero-width match and sets `loc` to its end, which is `loc` itself | `And([])` searched in "a": every iteration stays at 0, so the loop never ends | a zero-width match is skipped and the scan moves on by one | not executed | Search.SearchStepAsWritten, shown by Search.SearchStepAsWrittenStalls | Search.SearchString, proved in Search.ScanIsSoundAndComplete |
