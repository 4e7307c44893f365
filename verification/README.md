# Combinator matcher engine and slicing view, in Dafny

This project models the compile-time regular-expression combinators of
`utils/regex/regular.hpp` and the `buffer::view` slicing window of
`utils/buffer.hpp`.

A grammar is built from primitive matchers:
- `any`, one element;
- a literal sequence;
- a member list (`match["…"]`), one element out of a set, reported by index;
- an inclusive range.

The primitives are combined with four constructs:
- ordered alternation `|`;
- sequence `&`;
- the repetitions `*` and `+`;
- the option `!`.

Every matcher has three directions:
- **parse**: a cursor call that advances an iterator and returns a typed result;
- **generate**: rebuild the element sequence that a value stands for;
- **re-match**: given a value and a sub-rule of a possibly wider grammar, return the elements that sub-rule accounts for.

## Modelling choices

The C++ static type of a matcher is erased into one closed datatype:
- `Matcher`, whose constructors are `Any | Lit | OneOf | Range | Or | And | Star | Plus | Opt`;
- one universal `Value`;
- a typing predicate `Fits(m, v)`.

`Shape` stands for the static type of a matcher. Re-matching selects overloads by comparing shapes, just as the C++ selects overloads by type. The element type is fixed to `char`.

### The cursor

The C++ passes the cursor by reference and never restores it. `Parse(m, input, pos)` therefore returns an `Outcome(result, next)` that carries the cursor the call left, on success and on failure alike. This has three consequences:
- An `Or` tries its next branch where the failing branch left the cursor.
- An `And` runs every part, even after one has failed.
- `Star` and `Plus` stop where their failing attempt left the cursor.

### Side conditions

`WellFormed` requires the inner matcher of every repetition to be `Consuming`. The source has no progress guard, so a non-consuming inner matcher makes the source loop forever.

`FailClean` and `Sound` are syntactic conditions. They say when a failure cannot move the cursor, and they are what the parse/generate round trip needs.

### Results of an alternation

- A successful alternation result is `VBranch(k, w)`, where `k` is the index of the branch that matched.
- The variant-slot encoding, and how the source actually reads it, are modelled separately in `OrResult` (see Findings).

### Equality and re-matching

Equality `Eq` follows the C++ operators.
- Member-list equality is as written: the sizes must agree and every member of the left list must occur in the right list. This relation is not symmetric.
- `ReMatch` follows the overload set:
  - a sub-rule of the same static type gives `Generate` if it is equal, and nothing otherwise;
  - an `Or` delegates to the branch that produced the value;
  - an `Or` against an `Or` tries every sub-rule branch that has the producing branch's static type;
  - `And` and `Star` concatenate the results over their parts or items;
  - everything else gives nothing.
- A consequence of the order-blind member-list equality: re-matching `match["ab"]`'s value for `a` against `match["ba"]` reports `b`.

### `any` and the operators

The source has two `any`s:
- the typed matcher `regex<match_any<T>>`, modelled by the constructor `Any`;
- the tag `match.any` of type `match_any_t`, which is not a matcher.

The tag never appears inside a grammar. Each operator overload that takes it builds a typed `any` in place, and none of them flattens:
- `a | match.any` is the two-branch `Or([a, Any])` (`Algebra.OrAnyTag`);
- `match.any | b` is `Any`, and `b` is dropped (`Algebra.AnyTagOr`);
- `a & match.any` is `And([a, Any])` (`Algebra.AndAnyTag`);
- `match.any & b` is `And([Any, b])` (`Algebra.AnyTagAnd`).

For two matchers, the smart constructor `AndOf` flattens its operands as the other `&` overloads do. `OrOf` does the same for `|`, except that it follows the intended reading of regular.hpp:776-780, which overload resolution never picks (see Findings); `OrOfAsWritten` is the resolution as it happens. A typed `Any` is an ordinary operand there. The flattening lemmas show that flattening changes neither acceptance nor the final cursor.

### Tests versus code

The code demands full consumption at the array entry point (`operator()(const T(&)[N])`). The repository's `utils/regex/test.cpp` disagrees: it expects `match("abc")("abc11")` and `regex("abcccde")` to succeed. The model follows the code: trailing input is rejected (`Scenarios.ArrayEntryRejectsTrailingInput`).

## Model

| member | source | states |
|---|---|---|
| Matchers.EqReflexive | utils/regex/regular.hpp:314-324 | every matcher equals itself under the structural equality, including member lists with repeated members |
| Matchers.EqSameShape | utils/regex/regular.hpp:723-726 | equality only ever holds between matchers of one static type |
| Matchers.EqFits | utils/regex/regular.hpp:716-722 | a value of `m` is also a value of any sub-rule equal to `m`, so `subrule(value)` is well typed |
| Matchers.OneOfEqualityAsymmetric | utils/regex/regular.hpp:314-324 | member-list equality is not symmetric: `"aa"` equals `"ab"` but `"ab"` does not equal `"aa"` |
| Matchers.OneOfEqualitySymmetricWhenDistinct | utils/regex/regular.hpp:314-324 | for member lists without repeats, equality (same size, membership one way) holds the other way as well |
| Parsing.ScanLit | utils/regex/regular.hpp:163-180 | the element-by-element scan succeeds exactly when the rest of the literal sits in the input at the cursor; running out of input is a failure |
| Parsing.IndexOf | utils/regex/regular.hpp:270-285 | the first index holding the element, or the sentinel `Size` when no member equals it |
| Parsing.Parse | utils/regex/regular.hpp:163-1012 | the per-matcher cursor calls (regular.hpp 163-180, 270-285, 347-359, 489-508, 656-664, 868-876, 940-946 and 999-1012): a cursor call leaves the cursor between its start and the input's end, a success carries a value of the matcher's type, and a consuming matcher's success moves the cursor (so the repetition loop ends) |
| Parsing.ParseOr | utils/regex/regular.hpp:489-508 | ordered choice from branch `i` on: the result is tagged with an index of a branch at or after `i` and fits that branch |
| Parsing.ParseAnd | utils/regex/regular.hpp:656-664 | a sequence collects one value per remaining part, each fitting its part, and advances when some part consumes |
| Parsing.ParseMany | utils/regex/regular.hpp:1003-1008 | the repetition loop collects values of the inner matcher's type and stays inside the input |
| Parsing.ParsePrefix | utils/regex/regular.hpp:1045-1051 | the free `parse` runs the cursor call from the start and allows trailing input |
| ParseLaws.LitParse | utils/regex/regular.hpp:163-195 | a literal matches iff the next `len` elements are the literal, then advances by exactly `len`; a failure does not move; it generates itself |
| ParseLaws.LitParseAll | utils/regex/regular.hpp:181-191 | the literal's array entry point accepts exactly the literal itself |
| ParseLaws.OneOfParse | utils/regex/regular.hpp:270-285 | a member list matches iff the next element is a member, yields the FIRST index holding it, and advances by one; otherwise it fails in place |
| ParseLaws.OneOfParseAll | utils/regex/regular.hpp:286-296 | the member list's array entry point accepts exactly the one-element inputs holding a member |
| ParseLaws.ParseOrFirstMatch | utils/regex/regular.hpp:497-502 | from branch `i` on, with fail-clean branches: a match iff some later branch matches at the cursor, and then the first such branch wins |
| ParseLaws.OrFirstMatchWins | utils/regex/regular.hpp:489-508 | for branches that cannot fail after consuming (`FailClean`): an alternation matches iff one of its branches matches at the cursor, the first such branch wins with its index, and a failure leaves the cursor |
| ParseLaws.FailCleanKeepsCursor | utils/regex/regular.hpp:656-664 | a failure leaves the cursor in place for every `FailClean` matcher, i.e. one where no sequence of two or more parts is reachable through alternation branches, one-part sequences or `+`; such a sequence can fail after consuming, and an alternation or `+` failing through it keeps the moved cursor |
| ParseLaws.ParseOrFailsClean | utils/regex/regular.hpp:497-502 | an alternation of fail-clean branches fails in place |
| ParseLaws.AndRunsBothParts | utils/regex/regular.hpp:656-664 | a two-part sequence runs the second part at the cursor the first left, whether or not the first matched, and matches iff both did |
| ParseLaws.AndFailureMayAdvance | utils/regex/regular.hpp:656-664 | `"a" & "b"` on `"ac"` fails with the cursor left after the `a` |
| ParseLaws.FailThroughAndMayAdvance | utils/regex/regular.hpp:497-502 | an alternation or a `+` whose only inner matcher is `"a" & "b"`, given `ac`, fails with the cursor left after the `a`, because neither restores the cursor |
| ParseLaws.StarIsTotal | utils/regex/regular.hpp:868-876 | `*m` always matches, whatever its well-formed inner matcher |
| ParseLaws.StarIsTotalAndMaximal | utils/regex/regular.hpp:868-876 | for an inner matcher that fails in place (`FailClean`), `*m` matches and stops only where one more attempt of `m` fails |
| ParseLaws.ManyStopsAtFailure | utils/regex/regular.hpp:872-874 | the repetition loop ends at a cursor where the inner matcher fails |
| ParseLaws.PlusIsFirstThenStar | utils/regex/regular.hpp:999-1012 | `+m` fails iff its first attempt fails, and otherwise gives the same result and cursor as `*m` |
| ParseLaws.ManySameForStarAndPlus | utils/regex/regular.hpp:1006-1008 | the trailing loop of `+m` is the loop of `*m` |
| RoundTrip.ParseThenGenerate | utils/regex/regular.hpp:1045-1057 | generating a successful parse's value gives back exactly the consumed slice of the input |
| RoundTrip.OrThenGenerate | utils/regex/regular.hpp:521-530 | the tagged branch regenerates what the alternation consumed |
| RoundTrip.AndThenGenerate | utils/regex/regular.hpp:684-697 | the parts' values, concatenated in order, regenerate what the sequence consumed |
| RoundTrip.ManyThenGenerate | utils/regex/regular.hpp:888-896 | the items, concatenated in order, regenerate what the repetition consumed |
| RoundTrip.ParseAllThenGenerate | utils/regex/regular.hpp:673-697 | what the array entry point accepts, generate rebuilds in full |
| RoundTrip.GenerateThenParse | utils/regex/regular.hpp:297-302 | parsing the elements a primitive value generates reads back that value and consumes exactly them |
| ReMatching.ReMatchNeedsMention | utils/regex/regular.hpp:531-542 | a non-empty re-match always comes from a part of the matcher equal to the sub-rule or to one of its branches |
| ReMatching.CandidatesNeedEqual | utils/regex/regular.hpp:622-628 | the Or-against-Or visitor yields something only when some sub-rule branch equals the producing branch |
| ReMatching.PartsNeedMention | utils/regex/regular.hpp:698-715 | the re-match of a sequence value is non-empty only when one of its parts mentions the sub-rule |
| ReMatching.ItemsNeedMention | utils/regex/regular.hpp:897-906 | the re-match of a repetition value is non-empty only when the inner matcher mentions the sub-rule |
| ReMatchLaws.ReMatchSelf | utils/regex/regular.hpp:716-722 | re-matching against the producing matcher itself regenerates the value |
| ReMatchLaws.OrDelegatesToProducer | utils/regex/regular.hpp:551-563 | an alternation value asked about a non-alternation sub-rule is handed to the branch that produced it |
| ReMatchLaws.BranchRestriction | utils/regex/regular.hpp:551-563 | a sub-rule that is not an alternation and equals the producing branch gives that branch's elements for the value |
| ReMatchLaws.NestedBranchYieldsNothing | utils/regex/regular.hpp:565-628 | when the sub-rule is an alternation and none of its branches has the producing branch's type, the re-match is empty, even if the sub-rule equals the producing branch |
| ReMatchLaws.NestedBranchExample | utils/regex/regular.hpp:565-628 | `("a" \| "b") \| match.any` having parsed `a`, asked about the equal sub-rule `"a" \| "b"`, gives nothing, although that branch's elements are `a` |
| ReMatchLaws.UnrelatedBranchYieldsNothing | utils/regex/regular.hpp:551-563 | the value is handed to the producing branch, and a sub-rule that this branch does not mention yields nothing there (through the other-type overloads such as regular.hpp:196-200), even when it is another branch of the same alternation |
| ReMatchLaws.CandidatesConcat | utils/regex/regular.hpp:596-607 | the visitor's walk over the sub-rule's branches concatenates over a split of the branch list |
| ReMatchLaws.OrAgainstOrSplits | utils/regex/regular.hpp:565-629 | re-matching against the flattened `Or(xs + ys)` is re-matching against `Or(xs)`, then against `Or(ys)`, with the results concatenated |
| ReMatchLaws.CandidatesSingle | utils/regex/regular.hpp:570-594 | when exactly one sub-rule branch has the producing branch's type and equals it, the walk yields that branch's elements |
| ReMatchLaws.OrAgainstOrFindsProducer | utils/regex/regular.hpp:622-628 | Or-against-Or re-matching yields the elements of the unique equal branch of the producing branch's type |
| ReMatchLaws.TupleFitsConcat | utils/regex/regular.hpp:746-750 | the flattened sequence's value type is the concatenation of the operands' value types |
| ReMatchLaws.PartsConcat | utils/regex/regular.hpp:703-710 | the part-by-part re-match of a flattened sequence splits at the operand boundary |
| ReMatchLaws.AndSplits | utils/regex/regular.hpp:698-715 | re-matching a flattened sequence value is re-matching each operand's slots, concatenated |
| ReMatchLaws.ReorderedMembersReportOtherElement | utils/regex/regular.hpp:308-313 | with `"ab"` parsing `a`, re-matching against the equal reordered `"ba"` reports `b` |
| OrResult.Slot | utils/regex/regular.hpp:435 | slot 0 holds exactly the no-match state |
| OrResult.SlotRoundTrip | utils/regex/regular.hpp:435 | the branch index comes back out of the slot, and the slot is true exactly for a match |
| OrResult.OrTruthIsMatch | utils/regex/regular.hpp:467-470 | with the intended reading, an alternation's outcome is true exactly when it matched, and its slot names the matching branch |
| OrResult.SlotAsWritten | utils/regex/regular.hpp:491-494 | as written, every match sits one slot below its intended slot, so slot 0 holds exactly no match and branch 0 together |
| OrResult.AsWrittenBranchZeroIsNoMatch | utils/regex/regular.hpp:491-494 | as written, a match of branch 0 and no match land in the same slot |
| OrResult.AsWrittenTruthInverted | utils/regex/regular.hpp:467-470 | as written, an alternation outcome reads as true exactly when nothing matched |
| OrResult.ParseAllOrAsWritten | utils/regex/regular.hpp:509-519 | as written, whatever the alternation's array entry point returns reads as true under `index() == 0` (the consequence for every input is `OrResult.AsWrittenArrayEntryAlwaysTrue`) |
| OrResult.ParseAllOr | utils/regex/regular.hpp:509-519 | with the intended reading, the alternation's array entry point is true exactly for a full match and names its branch |
| OrResult.AsWrittenArrayEntryRejectsMatch | utils/regex/regular.hpp:509-519 | as written, the alternation of `"a"` and `"b"` given exactly `b` returns the empty state; with the intended reading it reports branch 1 |
| OrResult.AsWrittenArrayEntryAlwaysTrue | utils/regex/regular.hpp:509-519 | as written, the alternation's array entry point returns the empty state on every input, and `operator bool` reads it as true; so `"abc" \| "cba"` given `def` reads as a match, which the corrected entry point rejects |
| Algebra.MakeRange | utils/regex/regular.hpp:406-412 | the range factory orders its bounds |
| Algebra.MakeRangeMatches | utils/regex/regular.hpp:406-412 | whatever the order of the bounds given, the range accepts exactly the elements between them |
| Algebra.OrOf | utils/regex/regular.hpp:759-795 | apart from the tag overloads, `a \| b` of two matchers is an alternation; one ending in `any` absorbs the right operand; otherwise its branch list is the operands' branch lists joined, and flatness and well-formedness are kept |
| Algebra.OrOfAsWritten | utils/regex/regular.hpp:776-790 | as the overloads resolve, the branch list is always the operands' lists joined, so an alternation ending in `any` also gets the right operand appended |
| Algebra.OrOfAsWrittenAgrees | utils/regex/regular.hpp:776-790 | the as-written and the absorbing `\|` agree except on a left operand ending in `any`, which only the as-written form grows |
| Algebra.AsWrittenAbsorptionMissed | utils/regex/regular.hpp:776-780 | as written, `"x" \| match.any`, widened with `!"y"`, accepts the empty input, which the absorbing form rejects |
| Algebra.AndOf | utils/regex/regular.hpp:806-836 | apart from the tag overloads, `a & b` of two matchers is a sequence whose part list is the operands' part lists joined, keeping flatness and well-formedness |
| Algebra.OrAnyTagTriesThenTakesOne | utils/regex/regular.hpp:764-769 | `a \| match.any` runs `a` and, if it matched, reports branch 0 with `a`'s value unflattened; otherwise it takes one element at the cursor `a` left as branch 1, and fails only when no element remains |
| Algebra.OrAnyTagNests | utils/regex/regular.hpp:764-769 | `("x" \| "y") \| match.any` given `z` reports branch 1 of two, while the flattened three-branch alternation reports branch 2 |
| Algebra.OrAnyMatchesNonEmpty | utils/regex/regular.hpp:764-769 | `a \| match.any` matches any non-empty input when `a` cannot fail after consuming |
| Algebra.AnyTagOrIgnoresRight | utils/regex/regular.hpp:770-775 | whatever `b` is, `match.any \| b` takes exactly one element at the cursor when one remains and otherwise fails in place |
| Algebra.AndAnyTagRuns | utils/regex/regular.hpp:811-816 | `a & match.any` matches iff `a` matches and an element remains after it, with a two-slot value |
| Algebra.AnyTagAndRuns | utils/regex/regular.hpp:817-822 | `match.any & b` matches iff an element is at the cursor and `b` matches after it, with a two-slot value even when `b` is a sequence |
| Algebra.OrSuffix | utils/regex/regular.hpp:736-739 | the branches appended after `xs` behave as `Or(ys)` with tags shifted by `len(xs)` |
| Algebra.OrPrefix | utils/regex/regular.hpp:741-744 | from a branch inside `xs`, the concatenated alternation is `Or(xs)` followed, on failure, by the shifted `Or(ys)` |
| Algebra.OrConcat | utils/regex/regular.hpp:736-744 | `Or(xs + ys)` tries `Or(xs)` and, on failure, `Or(ys)` at the cursor left, with shifted tags |
| Algebra.OrAlternativesLikeOperand | utils/regex/regular.hpp:781-790 | wrapping an operand as a one-branch alternation keeps its success and cursor and tags the value with branch 0 |
| Algebra.OrOfTriesLeftThenRight | utils/regex/regular.hpp:759-795 | the flattened alternation of `a` and `b` behaves as the nested alternation: `a` first, then `b` at the cursor `a` left |
| Algebra.AndSuffix | utils/regex/regular.hpp:747-750 | the parts appended after `xs` behave as `And(ys)` |
| Algebra.AndPrefix | utils/regex/regular.hpp:752-755 | from a part inside `xs`, the concatenated sequence is `And(xs)` then `And(ys)` at the cursor left, values joined |
| Algebra.AndConcat | utils/regex/regular.hpp:746-755 | `And(xs + ys)` runs both halves in turn, even after a failure, matches iff both do, values side by side |
| Algebra.AndPartsLikeOperand | utils/regex/regular.hpp:823-832 | wrapping an operand as a one-part sequence keeps its success and cursor |
| Algebra.AndOfRunsLeftThenRight | utils/regex/regular.hpp:806-836 | flattened `a & b` behaves as the nested sequence: slots of `a` then of `b` |
| Scenarios.OptionalMiddle | utils/regex/test.cpp:19 | `ab & !c & d` flattens into a three-part sequence |
| Scenarios.ThreePartsAll | utils/regex/regular.hpp:656-683 | the array entry point of a three-part sequence accepts iff the parts match one after the other, each where the previous one stopped, and the last one stops at the end of the input |
| Scenarios.OptionalMiddleAcceptsExactly | utils/regex/test.cpp:19-22 | `ab & !c & d` accepts exactly the two inputs `abd` and `abcd` |
| Scenarios.OptionalMiddleAccepts | utils/regex/test.cpp:20-21 | `ab & !c & d` accepts `abd` and `abcd` |
| Scenarios.OptionalMiddleRejects | utils/regex/test.cpp:22 | `ab & !c & d` rejects `abed` |
| Scenarios.RepeatedMiddle | utils/regex/test.cpp:25 | `ab & +c & d` flattens into a three-part sequence |
| Scenarios.RunOfC | utils/regex/regular.hpp:1000-1012 | the repetition of `c` stops exactly at the end of the stretch of `c`s |
| Scenarios.RepeatedMiddleAcceptsExactly | utils/regex/test.cpp:25-31 | `ab & +c & d` accepts exactly the inputs `ab`, then one or more `c`, then `d`, so `abcccde`, which the test expects to match, is rejected for its trailing `e` |
| Scenarios.PlusOfCParse | utils/regex/regular.hpp:1000-1012 | `+c` matches iff a `c` is at the cursor, and then stops exactly at the end of the stretch of `c`s; otherwise it fails in place |
| Scenarios.RepeatedMiddleAccepts | utils/regex/test.cpp:27 | `ab & +c & d` accepts `abcd` |
| Scenarios.RepeatedMiddleAcceptsTwice | utils/regex/test.cpp:28 | `ab & +c & d` accepts `abccd` |
| Scenarios.RepeatedMiddleRejects | utils/regex/test.cpp:26-30 | `ab & +c & d` rejects `abd` (no `c`) and `abce` |
| Scenarios.ArrayEntryRejectsTrailingInput | utils/regex/regular.hpp:181-191 | the cursor call matches a literal at the start of `ab1`, but the array entry point rejects the trailing input |
| Scenarios.AlternationPrefersFirstBranch | utils/regex/regular.hpp:489-508 | in the alternation of `"ab"` and `"a"`, input `ab` takes branch 0 with two elements consumed, and `ac` falls through to branch 1 |
| Scenarios.Symbol | utils/regex/test.cpp:39 | `symbol` flattens into three branches |
| Scenarios.SymbolOrDigit | utils/regex/test.cpp:40-41 | the alternation of `symbol` and `number` flattens into four consuming branches |
| Scenarios.Identifier | utils/regex/test.cpp:41 | the identifier grammar is the sequence of `symbol` and the repetition of the alternation of `symbol` and `number` |
| Scenarios.SymbolParse | utils/regex/test.cpp:39 | `symbol` matches exactly one letter or underscore |
| Scenarios.SymbolOrDigitParse | utils/regex/test.cpp:40-41 | the alternation of `symbol` and `number` matches exactly one letter, underscore or digit |
| Scenarios.SingleStepParse | utils/regex/regular.hpp:163-180 | a one-element literal, a member list or a range matches one element it accepts |
| Scenarios.SingleStepBranches | utils/regex/regular.hpp:489-508 | an alternation of one-element matchers matches one element that some branch accepts |
| Scenarios.WordRun | utils/regex/regular.hpp:868-876 | the repetition of the alternation of `symbol` and `number` runs over the longest stretch of word elements |
| Scenarios.IdentifierAcceptsExactly | utils/regex/test.cpp:39-46 | the identifier grammar accepts exactly the non-empty inputs that start with a letter or underscore and continue with letters, underscores and digits |
| Scenarios.IdentifierExamplesAccepted | utils/regex/test.cpp:42 | the identifier grammar accepts `some_value` |
| Scenarios.IdentifierMixedCaseAccepted | utils/regex/test.cpp:44 | the identifier grammar accepts `LegalIdentifier` |
| Scenarios.IdentifierUnderscoreAccepted | utils/regex/test.cpp:43 | the identifier grammar accepts `_` |
| Scenarios.IdentifierExamplesRejected | utils/regex/test.cpp:45-46 | the identifier grammar rejects `122_bytes`, ` value` and the empty input |
| Buffer.Contents | utils/buffer.hpp:42-49 | the view shows `hi - lo` elements, the ones from `lo` on |
| Buffer.Size | utils/buffer.hpp:54-57 | the size is the number of elements shown |
| Buffer.Empty | utils/buffer.hpp:66-69 | a view is empty exactly when it shows nothing |
| Buffer.At | utils/buffer.hpp:71-74 | `[i]` is the element at offset `i` of the contents |
| Buffer.Front | utils/buffer.hpp:58-61 | `front` is the first element shown |
| Buffer.Back | utils/buffer.hpp:62-65 | `back` is the last element shown |
| Buffer.First | utils/buffer.hpp:75-81 | `first(n)` returns the first `min(n, size)` elements and leaves the view holding exactly the rest |
| Buffer.Last | utils/buffer.hpp:82-88 | `last(n)` returns the last `min(n, size)` elements and leaves the view holding exactly the rest |
| Buffer.FirstSplits | utils/buffer.hpp:75-81 | the slice `first` cuts off, followed by what remains, is the original contents |
| Buffer.LastSplits | utils/buffer.hpp:82-88 | what remains after `last`, followed by the slice cut off, is the original contents |
| Buffer.CutZeroChangesNothing | utils/buffer.hpp:75-88 | `first(0)` and `last(0)` return an empty view and leave the view unchanged |
| Buffer.CutEverything | utils/buffer.hpp:75-88 | asking for at least the size takes all elements and leaves the view empty |
| Buffer.FirstTwice | utils/buffer.hpp:75-81 | `first(a)` then `first(b)` cuts the same elements and leaves the same view as `first(a + b)` |
| Buffer.Equal | utils/buffer.hpp:93-96 | `==` is true exactly when both views show the same elements, sizes included |
| Buffer.NotEqual | utils/buffer.hpp:97-100 | `!=` is true exactly when the views show different elements |

## Left out

- The tokenizer (`utils/regex/tokenizer.hpp`) is not part of this model. Its body is disabled by `#if 0`.
- The action-binding `>>` operator used in the tokenizer test is not modelled. It belongs to that disabled code.
- The lexer, channels, streams, file streams, the owning buffer (`buffer::owner`) and the demangler are not modelled. They are I/O and resource plumbing outside the matcher core.
- Element type: the source is generic over it; the model fixes it to `char`. Ranges compare with the character order, which stands in for the element type's `<`.
- Index width selection (`regex_index_from_max_value`, regular.hpp:213-232) is not modelled. It only picks the narrowest unsigned type that can hold the sentinel, and that type never wraps for a list of `Size` members, so indices are modelled as `nat`.
- The dropped NUL terminator of `match("…")` and of the array entry points (`Size - 1`) is not modelled: inputs and literals are given without it.
- The convenience overloads that turn a character array into a literal or a member list on one side of `|` and `&` are not modelled. They only call the factory first.
- Termination: the model requires `WellFormed`, which excludes repeating a matcher that can succeed without consuming. The source loops forever on such a grammar.
- ReMatching.ReMatch: `match_optional` and `match_one_plus` (regular.hpp:929-1036) have no re-match overload with a sub-rule at all, so in the source such a value cannot be re-matched. The model gives them the treatment of the other matchers instead: a sub-rule of the same type regenerates the value when it is equal (which `ReMatchLaws.ReMatchSelf` relies on), and any other sub-rule gives nothing.
- ReMatchLaws.BranchRestriction: stated only for a sub-rule that is not an alternation. When the producing branch is itself an alternation (as in `(a | b) | match.any`), the source sends an equal sub-rule through the Or-against-Or visitor (regular.hpp:565-628). That visitor finds no branch of the producing branch's type and gives nothing; `ReMatchLaws.NestedBranchYieldsNothing` states this case.
- Algebra.AnyTagOrIgnoresRight: its statements about `ParseAll` concern the model only. A typed `any` (regular.hpp:78-122) has no array entry point, so only the cursor-call statement corresponds to a call the source can make.
- ReMatchLaws.ReMatchSelf: for `Plus` and `Opt` it states a same-type re-match that the source has no overload for (see the line above).
- The generator of `Plus` (regular.hpp:1024-1032) declares its result as `decltype(match(values))`, which passes the whole vector to the inner matcher. The model generates the concatenation of the items, as the loop body does.
- `Generation.Generate`, `Generation.GenerateParts` and `Generation.GenerateItems` have no contract of their own. Their meaning is stated by the round-trip lemmas `RoundTrip.ParseThenGenerate`, `RoundTrip.AndThenGenerate`, `RoundTrip.ManyThenGenerate` and `RoundTrip.GenerateThenParse`.
- `ReMatching.ReMatch`, `ReMatching.Candidates`, `ReMatching.ReMatchParts` and `ReMatching.ReMatchItems` have no contract of their own, and the contract of `ReMatching.SameRule` only spells out its case split. Their meaning is stated by `ReMatching.ReMatchNeedsMention` and its companions, and by the `ReMatchLaws` lemmas.
- `Matchers.Eq` and `Matchers.ShapeOf` are definitions without contracts. Their properties are `Matchers.EqReflexive`, `Matchers.EqSameShape`, `Matchers.EqFits` and the member-list equality lemmas.
- `Parsing.ParseAll` has only a typing contract. What it accepts is stated by `ParseLaws.LitParseAll`, `ParseLaws.OneOfParseAll`, `Scenarios.ThreePartsAll`, `Scenarios.ArrayEntryRejectsTrailingInput` and `RoundTrip.ParseAllThenGenerate`.
- The tag operators `Algebra.OrAnyTag`, `Algebra.AnyTagOr`, `Algebra.AndAnyTag` and `Algebra.AnyTagAnd` have no contract of their own. Their behaviour is stated by the `Algebra` lemmas named after them.
- RoundTrip.GenerateThenParse: stated for primitive matchers only. An alternation re-parses to its first matching branch, not necessarily to the branch that generated the value.
- Each finding below is modelled on its own. The corrected reading is used everywhere else, so alternations nested inside other matchers read their results with the intended truth value.

## Findings

| source | as written | input that shows it | evidently intended | confidence | as-written member | corrected member |
|---|---|---|---|---|---|---|
| utils/regex/regular.hpp:467-470 | an alternation result converts to `true` when `index() == 0`, i.e. when it holds the empty `monostate` | the alternation of `"a"` and `"b"` given exactly `b`: the array entry point tests the result, reads the match as false and returns the empty state, which the caller in turn reads as true; so every input reads as a match, and `!("abc" \| "cba")("def")` (test.cpp:16) fails | `index() != 0`: true exactly when a branch matched | high; not executed | OrResult.AsWrittenArrayEntryRejectsMatch, OrResult.AsWrittenArrayEntryAlwaysTrue | OrResult.OrTruthIsMatch |
| utils/regex/regular.hpp:491-494 | branch `I` is stored with `std::in_place_index<I>`, but slot 0 of the declared variant (line 435) is the `monostate` no-match state; for branch 0 this asks for a `monostate` built from the branch value, which a compiler may reject instead | `("a")` on `a`: branch 0's result goes to slot 0, the same slot as no match | `std::in_place_index<I + 1>`, leaving slot 0 to no match | medium; not executed | OrResult.AsWrittenBranchZeroIsNoMatch | OrResult.SlotRoundTrip |
| utils/regex/regular.hpp:776-780 | the overload for an alternation ending in `any` has the parameter pack before the last template argument, so its arguments cannot be deduced and it is never chosen; the general overload appends the right operand | `"x" \| match.any`, widened with `!"y"`, on the empty input: the appended optional branch accepts it | an alternation already ending in `any` is returned unchanged | medium; not executed | Algebra.AsWrittenAbsorptionMissed | Algebra.OrOf |
