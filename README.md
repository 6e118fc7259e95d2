# A verified model of the sop set calculator

`sop` treats two texts as sets of elements. Each text is cut into tokens on a literal separator, which is a newline by default. The tool then prints the union, the intersection or the difference of the two, with the result elements joined by the same separator. Empty tokens are never emitted.

The engine exists in two forms:

- `calculator.T` has a configurable separator and the operations `Union`, `Intersection` and `Difference`.
- `union.Union` is an older operator with the separator fixed to a newline and the single operation `Do`.

This project models both in Dafny:

- Each struct is a class with the same fields.
- Each operation is a method with the same loops as the Go code.
- The two string functions the engine calls are functions on sequences. `strings.Split` is recursive and finds each cut with `Index`, a recursive model of `strings.Index`. `strings.TrimSuffix` is a single slice.
- The meaning of each operation is stated against specification functions (`Join`, `Elements`, `UnionOf`, `IntersectionOf`, `DifferenceOf`), and the properties the tool relies on are proved about those functions as lemmas.

Modules, one per file:

- `Results` (`results.dfy`): `Option` and `Result`.
- `GoStrings` (`gostrings.dfy`: Go string functions and their laws):
  - `Index`, `Split` and `TrimSuffix`;
  - `Join`, and `Terminated`, the string built by appending every element followed by the separator;
  - the split/join round trips.
- `Reading` (`reading.dfy`): what a constructor receives in place of reading a file, and the errors it returns.
- `SetText` (`settext.dfy`): the elements of a text, the union's element set, and `JoinKeys`, the output loop shared by union and difference. That loop visits the keys of a Go map in an order the model leaves open.
- `Calculator` (`calculator.dfy`): class `T`, its constructor `New`, the three operations, and lemmas about intersection and difference.
- `UnionOperator` (`union.dfy`): class `Union`, its `New` and `Do`, and agreement with `Calculator.T.Union`.
- `Scenarios` (`scenarios.dfy`): the cases of the calculator's test tables, stated on the specification functions. It also has a few further cases on the same inputs, such as the intersection and difference of the union test's texts, which the test tables do not compute.

Go map iteration has no fixed order. Where the source loops over a map's keys, the model picks any unvisited key (`:|`). The order in which keys were emitted is returned as a ghost sequence `elems`, and each contract holds for every such order.

Separators with a border are a special case. A separator has a border when a non-empty proper prefix of it is also a suffix, as in `"aa"` or `"aba"`. For such separators, re-splitting an output need not give back the emitted elements, and an extra separator in an input can change the result. `GoStrings.BorderedSeparatorBreaksRoundTrip` proves this with a concrete case: the elements `"ba"` and `"c"` joined with `"aa"` give `"baaac"`, which splits into `"b"` and `"ac"`. `GoStrings.BorderedSeparatorBreaksTrailingPadding` shows the same for a trailing separator. So the round-trip property and the trailing and doubled padding properties are proved for unbordered separators (predicate `Unbordered`). A leading separator is ignored for every non-empty separator. A newline is unbordered (`GoStrings.NewlineIsUnbordered`), so they hold without condition for `union.Union` and for the default separator.

## Model

| member | source | states |
|---|---|---|
| GoStrings.Index | internal/calculator/calculator.go:43-44 | the result is the least index at which the separator occurs, and it is None exactly when the text does not contain the separator |
| GoStrings.Split | internal/calculator/calculator.go:43-44 | `strings.Split` with a non-empty separator gives at least one token, and no token contains the separator |
| GoStrings.TrimSuffix | internal/calculator/calculator.go:62 | when the text ends with the suffix, the result followed by the suffix is the text; otherwise the text is unchanged |
| GoStrings.JoinSplit | internal/calculator/calculator_test.go:284-292 | splitting loses nothing: joining the tokens of any text with the separator gives back the text |
| GoStrings.SplitJoin | internal/calculator/calculator_test.go:284-292 | with an unbordered separator, re-splitting the join of at least one separator-free element gives back exactly those elements |
| GoStrings.SplitAcrossSeparator | internal/calculator/calculator.go:43-44 | with an unbordered separator, the tokens of `x + sep + y` are the tokens of `x` followed by the tokens of `y` |
| GoStrings.SplitLeadingSeparator | internal/calculator/calculator.go:43-44 | a leading separator adds exactly one leading "" token |
| GoStrings.SplitTrailingSeparator | internal/calculator/calculator_test.go:86-91 | with an unbordered separator, a trailing separator adds exactly one trailing "" token |
| GoStrings.SplitDoubledSeparator | internal/calculator/calculator_test.go:92-97 | with an unbordered separator, a doubled separator adds exactly one inner "" token |
| GoStrings.TrimTerminated | internal/calculator/calculator.go:55-62 | trimming one separator off the elements-each-followed-by-the-separator string leaves their join; nothing is trimmed when there is no element |
| GoStrings.JoinIsEmpty | internal/calculator/calculator.go:55-64 | a join of non-empty elements is "" exactly when there are no elements |
| GoStrings.JoinHasNoOuterSeparator | internal/calculator/calculator.go:55-64 | with an unbordered separator, the join of non-empty, separator-free elements neither starts nor ends with the separator |
| GoStrings.BorderedSeparatorBreaksRoundTrip | internal/calculator/calculator_test.go:284-292 | with the separator "aa", the separator-free elements "ba" and "c" join to a text that re-splits as "b", "ac" |
| GoStrings.BorderedSeparatorBreaksTrailingPadding | internal/calculator/calculator.go:43-44 | with the separator "aa", "xa" is a single token, yet "xa" followed by "aa" splits as "x", "a": a trailing separator changes the tokens |
| GoStrings.NewlineIsUnbordered | internal/operator/union/union.go:12-14 | the newline separator has no border |
| SetText.Elements | internal/calculator/calculator.go:57 | every element of a text is non-empty and contains no separator |
| SetText.JoinKeys | internal/calculator/calculator.go:55-62 | emitting the non-empty keys of a set, in any order, then trimming: each non-empty key is emitted exactly once, and the output is the join of the emitted sequence |
| SetText.OutputShape | internal/calculator/calculator.go:55-64 | an output is "" exactly when nothing was emitted; with an unbordered separator it re-splits into the emitted elements and has no leading or trailing separator |
| SetText.ElementsIgnoreLeadingSeparator | internal/calculator/calculator.go:43-57 | for every non-empty separator, a leading separator does not change a text's elements |
| SetText.ElementsIgnorePadding | internal/calculator/calculator_test.go:86-97 | with an unbordered separator, a trailing or doubled separator does not change a text's elements |
| SetText.UnionIgnoresLeadingSeparator | internal/calculator/calculator.go:42-65 | for every non-empty separator, a leading separator in either text does not change the union's element set |
| SetText.UnionIgnoresPadding | internal/calculator/calculator_test.go:86-97 | with an unbordered separator, a trailing or doubled separator in either text does not change the union's element set |
| SetText.UnionCommutes | internal/operator/union/union.go:42-49 | the union's element set does not change when the two texts are swapped |
| SetText.UnionWithEmptyText | internal/calculator/calculator_test.go:98-109 | a union with an empty text has the elements of the other text |
| SetText.ElementsOfEmptyText | internal/calculator/calculator_test.go:110-115 | an empty text has no elements |
| Calculator.Common | internal/calculator/calculator.go:77-87 | a token is kept exactly when it is a token of the second text, is non-empty and is in the lookup set |
| Calculator.CommonKeepsRepeats | internal/calculator/calculator.go:77-87 | each kept token is emitted as often as it occurs in the second text, and any other token never is |
| Calculator.CommonOfConcatenation | internal/calculator/calculator.go:77-87 | filtering is done token by token: the filter of a concatenation is the concatenation of the filters |
| Calculator.CommonIgnoresEmptyInLookup | internal/calculator/calculator.go:78-84 | whether "" is in the lookup set never matters |
| Calculator.T.constructor | internal/calculator/calculator.go:10-12 | a new calculator holds the given separator and two empty texts |
| Calculator.T.GetSet1 | internal/calculator/calculator.go:119-121 | returns the first text |
| Calculator.T.GetSet2 | internal/calculator/calculator.go:123-125 | returns the second text |
| Calculator.T.GetSeparator | internal/calculator/calculator.go:127-129 | returns the separator |
| Calculator.T.Union | internal/calculator/calculator.go:42-65 | for any key order: the emitted elements are distinct and are the non-empty tokens of either text; the output is their join; it is "" exactly when the union is empty; with an unbordered separator it re-splits into the elements and has no outer separator |
| Calculator.T.Intersection | internal/calculator/calculator.go:67-92 | the output is the join of the in-order, repeat-keeping filter of the second text's tokens by the first's; it is "" exactly when nothing is kept; with an unbordered separator it re-splits into those tokens and has no outer separator |
| Calculator.T.Difference | internal/calculator/calculator.go:94-117 | for any key order: the emitted elements are distinct and are the non-empty tokens of the first text that are not tokens of the second; the output is their join; it is "" exactly when the difference is empty; with an unbordered separator it re-splits into the elements and has no outer separator |
| Calculator.New | internal/calculator/calculator.go:9-28 | a failed first read gives the first-file error whatever the second read gave; a failed second read after a good first one gives the second-file error; otherwise a fresh calculator whose accessors return both contents and the separator |
| Calculator.IntersectionMembership | internal/calculator/calculator.go:78-84 | an element is in the intersection exactly when it is an element of both texts |
| Calculator.IntersectionWithoutElements | internal/calculator/calculator_test.go:164-179 | the intersection is empty when either text has no elements |
| Calculator.IntersectionCommutes | internal/calculator/calculator.go:67-92 | as sets, the intersection does not depend on the order of the texts |
| Calculator.IntersectionDependsOnElementsOfFirst | internal/calculator/calculator.go:71-74 | the intersection depends on the first text only through its elements |
| Calculator.IntersectionIgnoresLeadingSeparator | internal/calculator/calculator.go:67-92 | for every non-empty separator, a leading separator in either text does not change the intersection |
| Calculator.IntersectionIgnoresPaddingOfSecond | internal/calculator/calculator_test.go:151-162 | with an unbordered separator, a trailing or doubled separator in the second text does not change the intersection |
| Calculator.IntersectionIgnoresPaddingOfFirst | internal/calculator/calculator_test.go:157-162 | with an unbordered separator, a trailing or doubled separator in the first text does not change the intersection |
| Calculator.DifferenceOfElements | internal/calculator/calculator.go:103-105 | deleting every token of the second text is the same as removing its elements: the "" token makes no difference |
| Calculator.DifferenceIgnoresLeadingSeparator | internal/calculator/calculator.go:94-117 | for every non-empty separator, a leading separator in either text does not change the difference |
| Calculator.DifferenceIgnoresPadding | internal/calculator/calculator_test.go:216-227 | with an unbordered separator, a trailing or doubled separator in either text does not change the difference |
| Calculator.DifferenceWithItself | internal/calculator/calculator.go:94-117 | a text less itself has no elements, whatever its repeats |
| UnionOperator.Union.constructor | internal/operator/union/union.go:12-14 | a new operator has the newline separator and two empty texts |
| UnionOperator.Union.GetSet1 | internal/operator/union/union.go:63-65 | returns the first text |
| UnionOperator.Union.GetSet2 | internal/operator/union/union.go:67-69 | returns the second text |
| UnionOperator.Union.GetSeparator | internal/operator/union/union.go:71-73 | returns the newline separator |
| UnionOperator.Union.Do | internal/operator/union/union.go:38-61 | for any key order: the distinct non-empty lines of either text are emitted; the output is their join, is "" exactly when there are none, re-splits on the newline into them, and neither starts nor ends with a newline |
| UnionOperator.New | internal/operator/union/union.go:11-30 | the same error precedence and messages as the calculator's constructor; on success a fresh operator with the newline separator whose accessors return both contents |
| UnionOperator.DoAgreesWithCalculatorUnion | internal/operator/union/union.go:38-61 | on the same texts, `Do` and a calculator `Union` with a newline separator produce outputs that re-split into the same set, which is the union of the non-empty lines |
| Scenarios.OverlappingTexts | internal/calculator/calculator_test.go:80-85 | "1\n2\n3" and "3\n4\n5": union {1, 2, 3, 4, 5}, as the union test expects; the intersection "3" and the difference {1, 2} are further cases on the same texts that the test tables do not compute |
| Scenarios.UnionWithTrailingSeparators | internal/calculator/calculator_test.go:86-97 | one or two trailing newlines on each text leave the union {1, 2, 3, 4, 5} |
| Scenarios.OverlappingTextsWithBlankLines | internal/calculator/calculator_test.go:92-97 | two trailing newlines on both texts leave the union {1, 2, 3, 4, 5}, as the union test expects; they also leave the intersection "3" and the difference {1, 2}, further cases the test tables do not compute |
| Scenarios.DisjointTexts | internal/calculator/calculator_test.go:74-79 | "1\n2\n3" and "4\n5\n6": union {1, …, 6}, empty intersection, difference {1, 2, 3} |
| Scenarios.FourLinesAgainstThree | internal/calculator/calculator_test.go:145-162 | "1\n2\n3\n4" and "3\n4\n5", with and without trailing newlines: intersection "3", "4" and difference {1, 2} |
| Scenarios.EmptyFirstText | internal/calculator/calculator_test.go:104-109 | an empty first text: union {1, 2, 3}, empty intersection and difference |
| Scenarios.EmptySecondText | internal/calculator/calculator_test.go:98-103 | an empty second text: union and difference {1, 2, 3}, empty intersection |
| Scenarios.EmptyTexts | internal/calculator/calculator_test.go:110-115 | two empty texts: every result is empty |
| Scenarios.IntersectionKeepsRepeatsOfSecond | internal/calculator/calculator.go:77-87 | a line repeated in the second text and present in the first is emitted once per repeat |
| Scenarios.BlankLinesChangeNoIntersection | internal/calculator/calculator_test.go:157-162 | two trailing newlines on both texts leave the intersection unchanged |

## Left out

- Reading the two input files (`os.ReadFile`) is I/O. Each constructor gets the outcome of each read instead: `Read(contents)` or `Failed(cause)`. The cause is the text of the Go read error, and the wrapped error is modelled by its message.
- The command-line front ends (`internal/cli`, `cmd/sop/cli`, `cmd/setop/cli`) and the `main.go` entry points are argument parsing, printing and exit codes, and are not part of this model.
- The `operator.I` interface that `union.New` returns and the calculator's interface `I` carry no behaviour of their own. The constructors return the concrete classes.
- Calculator.T.Union: the output is fixed only up to the order of its elements, because Go map iteration order is unspecified. The contract holds for every order, and the order is returned as a ghost sequence.
- Calculator.T.Difference: the output is fixed only up to the order of its elements, as for `Union`.
- UnionOperator.Union.Do: the output is fixed only up to the order of its elements, as for `Union`.
- Calculator.T.Union: requires a non-empty separator. With `""`, Go's `strings.Split` cuts a text into UTF-8 sequences, and that behaviour is not modelled. The same holds for `Calculator.T.Intersection` and `Calculator.T.Difference`.
- Calculator.T.Union: the re-split and no-outer-separator guarantees are stated for unbordered separators only, because they fail for bordered ones (see `GoStrings.BorderedSeparatorBreaksRoundTrip`). The same holds for `Calculator.T.Intersection` and `Calculator.T.Difference`.
- SetText.ElementsIgnorePadding: stated for unbordered separators only. Its trailing-separator clause fails for bordered ones (see `GoStrings.BorderedSeparatorBreaksTrailingPadding`), and the doubled-separator clause is proved only alongside it. The same holds for `SetText.UnionIgnoresPadding`, `Calculator.IntersectionIgnoresPaddingOfFirst`, `Calculator.IntersectionIgnoresPaddingOfSecond` and `Calculator.DifferenceIgnoresPadding`. A leading separator needs no such condition: `SetText.ElementsIgnoreLeadingSeparator`, `SetText.UnionIgnoresLeadingSeparator`, `Calculator.IntersectionIgnoresLeadingSeparator` and `Calculator.DifferenceIgnoresLeadingSeparator` hold for every non-empty separator.
- GoStrings.SplitJoin: stated for unbordered separators only, for the same reason.
- Strings are sequences of characters. Go strings are byte sequences, and UTF-8 encoding is not modelled.
- The calculator's test calls the accessors `GetSetA` and `GetSetB`. The source defines `GetSet1` and `GetSet2`, and the model follows the source.
