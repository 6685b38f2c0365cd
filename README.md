# CustomTagParser in Dafny

A model of `CustomTagParser.Parse`, a small rewriting engine for BBCode-like
custom tags, with proofs about it. `Parse` takes an input string, an
optional ordered list of pair rules (`[b]...[/b]`) and an optional ordered
list of unit rules (`[lb]`). It runs in two phases.

- **Pair phase.** Each pair rule runs to a fixed point. One attempt does
  five things:
  - find the first ordinal occurrence of the opening marker;
  - scan forward with a depth counter for the balanced closing marker;
  - cut the input into `Left`, `Contents` and `Right`;
  - ask the optional `Condition`;
  - splice `Left + Replace(Contents, Left, Right) + Right`.

  The rule then starts again from scratch (`goto Retry`). It gives up, and
  the next rule runs, as soon as the opening marker is missing, no balanced
  closing marker follows it, or the condition refuses.
- **Unit phase.** Each unit rule does the same with a plain first-occurrence
  search and `Left + Replace(Left, Right) + Right`.

The project has five modules.

- `CustomTags` (`custom_tags.dfy`) mirrors the three record types as
  datatypes. The caller's `Replace` and `Condition` delegates are Dafny
  function values, and a null condition is `None`.
- `Matching` (`matching.dfy`) holds the search functions: ordinal
  `IndexOf` and `StartsWith`, the depth scan, and the span a pair rule cuts
  out.
- `Rewriting` (`rewriting.dfy`) states what `Parse` computes, as functions:
  - one attempt of a rule (`ApplyPair`, `ApplyUnit`);
  - the retry loop (`Fixpoint`);
  - the two phases (`ApplyPairs`, `ApplyUnits`);
  - the whole call (`Rewrite`);
  - lemmas about all of these.
- `CustomTagParser` (`parser.dfy`) is `Parse` as the step-by-step program it
  is:
  - the local `Input` is reassigned by every splice;
  - the scan is a `while` loop over `index` and `depth`;
  - each `Retry:` label is a loop.

  Every method is proved to compute exactly what its specification
  function says: `FindClosingTag` the scan `Matching.ScanForClosing`, the
  others the `Rewriting` functions for one attempt, one retry loop and the
  whole call. The source has one method; the model splits it into methods
  that follow its blocks (`FindClosingTag`, `TryPair`, `RunPair`, `TryUnit`,
  `RunUnit`, `Parse`).
- `ParseTests` (`parse_tests.dfy`) proves the input/output pairs of the
  repository's tests about `Rewrite`. It also proves one input that shows the
  scan quirk below.

`goto Retry` has no bound in the source, and a replacement that brings back
its own marker can loop forever. Dafny needs a termination argument, so every
retry loop gets `fuel`: the number of splices one rule may make. A run that
needs more is cut off with `OutOfFuel`. `RewriteFuelMonotone` shows that
fuel never changes a result that finished, so a finished run is exactly what
the unbounded program returns.

**Running `Parse` twice.** Each rule's retry loop ends on text that rule no
longer applies to, but the whole call need not end on text that no rule
applies to: a later rule can remove what made an earlier rule refuse, and
the earlier rule does not run again. A second run on an output then changes
it, even when no replacement brings back a marker
(`ParseTests.RerunChangesOutput`). A second run changes nothing when every
rule gives up on the output at once (`Rewriting.RewriteGivesUp`).

**Scan skip.** The source's comments say that after a nested marker the scan
moves past it ("Move past closing tag", CustomTagParser.cs:42; "Move past
opening tag", :51). The code does `Index += Length; continue;` (:43-44,
:52-53), and `continue` in a `for` loop still runs the loop's own `Index++`
(:30). So the next position examined is one character further on than the
comments say. The model follows the code (`Matching.ScanForClosing`).
`ParseTests.SkippedBbcode` shows the consequence: in `[a][a]x[/a][/a]` the
second `[/a]` is never looked at, so the input is returned unchanged.

## Model

| member | source | states |
|---|---|---|
| Matching.StartsWithAtSlice | CustomTagParser/CustomTagParser.cs:32 | an ordinal `StartsWith` at index `i` holds exactly when the slice of the input at `i` equals the marker |
| Matching.IndexOfFrom | CustomTagParser/CustomTagParser.cs:21 | the result is -1 or an index at or after `k` where the marker occurs, and the marker starts nowhere between `k` and the result (nowhere at all after `k` when -1) |
| Matching.IndexOf | CustomTagParser/CustomTagParser.cs:21 | a non-negative result is an occurrence with no occurrence before it; the result is negative exactly when the marker occurs nowhere; it is never below -1 |
| Matching.ScanForClosing | CustomTagParser/CustomTagParser.cs:28-55 | a reported index is at or after the scan start, inside the input, and the closing marker really starts there |
| Matching.ScanAtClosing | CustomTagParser/CustomTagParser.cs:30-44 | a closing marker met at a depth above one lowers the depth, and the scan resumes one character past the marker |
| Matching.ScanClosesAt | CustomTagParser/CustomTagParser.cs:32-39 | a closing marker met at depth one is the scan's answer |
| Matching.ScanAtOpening | CustomTagParser/CustomTagParser.cs:30-53 | an opening marker where no closing marker starts raises the depth, and the scan resumes one character past the marker |
| Matching.ScanSkipsPlainText | CustomTagParser/CustomTagParser.cs:30-55 | positions where neither marker starts are stepped over one at a time: the scan from `index` equals the scan from `j` |
| Matching.ScanFindsFirstUnnestedClosing | CustomTagParser/CustomTagParser.cs:30-40 | with no opening marker before the first closing marker, the scan at depth 1 reports that closing marker |
| Matching.FindSpan | CustomTagParser/CustomTagParser.cs:21-59 | a found span is well ordered (`openingEnd = opening + \|open\|`, `openingEnd <= closing`, `closingEnd = closing + \|close\| <= \|s\|`), both markers really sit at their indices, and the opening marker is the first occurrence; no span when the opening marker is absent |
| Matching.IndexOfPlainPrefix | CustomTagParser/CustomTagParser.cs:21 | text without the marker's first character in front of `s` only moves the first occurrence by its length |
| Matching.ScanShift | CustomTagParser/CustomTagParser.cs:30-55 | the scan never looks back: over `prefix + s` it is the scan over `s` moved by `\|prefix\|` |
| Matching.FindSpanPlainPrefix | CustomTagParser/CustomTagParser.cs:21-59 | text without the opening marker's first character in front of `s` only moves the span by its length |
| Rewriting.PairStepSplices | CustomTagParser/CustomTagParser.cs:59-81 | a successful pair attempt cuts the input into `Left`, opening marker, `Contents`, closing marker and `Right` (both markers consumed), the condition accepted, `Left` holds no opening marker, and the result is `Left + Replace(Contents, Left, Right) + Right` |
| Rewriting.PairRuleGivesUp | CustomTagParser/CustomTagParser.cs:21-75 | a pair attempt fails exactly when the opening marker is absent, the scan finds no balanced closing marker, or the condition rejects the first span; a failed attempt ends the rule's loop with the input unchanged |
| Rewriting.UnitStepSplices | CustomTagParser/CustomTagParser.cs:90-113 | a successful unit attempt replaces the first occurrence of the tag: the input is `Left + Tag + Right`, with no tag starting inside `Left`, and the result is `Left + Replace(Left, Right) + Right` |
| Rewriting.UnitRuleGivesUp | CustomTagParser/CustomTagParser.cs:90-107 | a unit attempt fails exactly when the tag is absent or the condition rejects its first occurrence; a failed attempt ends the rule's loop with the input unchanged |
| Rewriting.ApplyPairPlainPrefix | CustomTagParser/CustomTagParser.cs:21-81 | a pair attempt on `prefix + s`, with no opening-marker character in `prefix`, is the attempt on `s` with `prefix` kept in front, where replacement and condition see `prefix + Left` |
| Rewriting.SpliceAtPlainPrefix | CustomTagParser/CustomTagParser.cs:62-81 | the pair splice at a span moved by a prefix is the splice behind the prefix with the prefix put back in front |
| Rewriting.FixpointBehind | CustomTagParser/CustomTagParser.cs:19-82 | a retry loop whose step keeps `prefix` in front runs on `prefix + s` as the loop of the step behind it runs on `s` |
| Rewriting.PairFixpointPlainPrefix | CustomTagParser/CustomTagParser.cs:19-82 | a pair rule's whole retry loop on `prefix + s` is its loop on `s` with the prefix kept in front |
| Rewriting.ApplyUnitPlainPrefix | CustomTagParser/CustomTagParser.cs:90-113 | a unit attempt on `prefix + s`, with no tag character in `prefix`, is the attempt on `s` with `prefix` kept in front |
| Rewriting.UnitSpliceAtPlainPrefix | CustomTagParser/CustomTagParser.cs:97-113 | the unit splice at an index moved by a prefix is the splice behind the prefix with the prefix put back in front |
| Rewriting.UnitFixpointPlainPrefix | CustomTagParser/CustomTagParser.cs:88-114 | a unit rule's whole retry loop on `prefix + s` is its loop on `s` with the prefix kept in front |
| Rewriting.FixpointIsFixed | CustomTagParser/CustomTagParser.cs:19-82 | when a retry loop finishes, its step no longer applies to what it left |
| Rewriting.FixpointIdempotent | CustomTagParser/CustomTagParser.cs:19-82 | running a finished retry loop again on its own result, with any fuel, returns the same result |
| Rewriting.PairFixpointIsFixed | CustomTagParser/CustomTagParser.cs:18-83 | after a pair rule's loop finishes, that rule does not apply to the text |
| Rewriting.UnitFixpointIsFixed | CustomTagParser/CustomTagParser.cs:87-115 | after a unit rule's loop finishes, that rule does not apply to the text |
| Rewriting.FixpointFuelMonotone | CustomTagParser/CustomTagParser.cs:19-82 | a retry loop that finishes with some fuel finishes with the same result given more |
| Rewriting.ApplyPairsFuelMonotone | CustomTagParser/CustomTagParser.cs:17-84 | the pair phase, once finished, gives the same result with more fuel |
| Rewriting.ApplyUnitsFuelMonotone | CustomTagParser/CustomTagParser.cs:86-116 | the unit phase, once finished, gives the same result with more fuel |
| Rewriting.RewriteFuelMonotone | CustomTagParser/CustomTagParser.cs:16-119 | a whole `Parse` run that finishes with some fuel gives the same result with more |
| Rewriting.ApplyPairsAppend | CustomTagParser/CustomTagParser.cs:18 | pair rules run in caller order: running `first + second` is running `first`, then `second` on what it left |
| Rewriting.ApplyUnitsAppend | CustomTagParser/CustomTagParser.cs:87 | unit rules run in caller order: running `first + second` is running `first`, then `second` on what it left |
| Rewriting.ApplyPairsGiveUp | CustomTagParser/CustomTagParser.cs:18-84 | when every pair rule gives up on the text at once, the pair phase returns it unchanged |
| Rewriting.ApplyUnitsGiveUp | CustomTagParser/CustomTagParser.cs:87-116 | when every unit rule gives up on the text at once, the unit phase returns it unchanged |
| Rewriting.RewriteGivesUp | CustomTagParser/CustomTagParser.cs:16-119 | `Parse` returns its input unchanged when every pair rule and every unit rule gives up on it at once; so a second run on such an output changes nothing |
| Rewriting.RewriteWithoutMarkers | CustomTagParser/CustomTagParser.cs:16-119 | `Parse` returns its input unchanged when no rule marker occurs in it, in particular when both rule lists are null |
| Rewriting.RewriteEmptyInput | CustomTagParser.Tests/ParseTests.cs:118-126 | the empty input yields `""` for any rule lists with non-empty markers |
| CustomTagParser.FindClosingTag | CustomTagParser/CustomTagParser.cs:28-55 | the loop returns the index the balanced scan reports, or -1 when the scan finds nothing |
| CustomTagParser.TryPair | CustomTagParser/CustomTagParser.cs:21-81 | one pass of a pair rule applies exactly when the attempt succeeds, and then yields the attempt's splice |
| CustomTagParser.RunPair | CustomTagParser/CustomTagParser.cs:19-82 | the `Retry` loop of a pair rule returns the rule's fixed point |
| CustomTagParser.TryUnit | CustomTagParser/CustomTagParser.cs:90-113 | one pass of a unit rule applies exactly when the attempt succeeds, and then yields the attempt's splice |
| CustomTagParser.RunUnit | CustomTagParser/CustomTagParser.cs:88-114 | the `Retry` loop of a unit rule returns the rule's fixed point |
| CustomTagParser.Parse | CustomTagParser/CustomTagParser.cs:16-119 | the method returns `Rewrite`: pair rules in order, each to its fixed point, then unit rules in order; a null list skips its phase |
| ParseTests.StandardBbcode | CustomTagParser.Tests/ParseTests.cs:38-47 | `a[a]b[/a]c` becomes `a(FIRST)b(SECOND)c` |
| ParseTests.NestedBbcode | CustomTagParser.Tests/ParseTests.cs:49-58 | `a[a]b[a]c[/a]d[/a]e` becomes `a(FIRST)b(FIRST)c(SECOND)d(SECOND)e`: the outer pair is spliced first, then the inner one |
| ParseTests.NestedInvalidBbcode | CustomTagParser.Tests/ParseTests.cs:60-69 | `a[a]bc[/a]d[/a]e` becomes `a(FIRST)bc(SECOND)d[/a]e`: the stray closing marker is left as text |
| ParseTests.EscapableBbcode | CustomTagParser.Tests/ParseTests.cs:71-82 | with a condition refusing a `Left` that ends in a backslash, `a[a]b\[a]c[/a]d[/a]e` becomes `a(FIRST)b\[a]c[/a]d(SECOND)e`: on the retry the escaped opening marker is found first, refused, and the rule gives up |
| ParseTests.EmptyContentsBbcode | CustomTagParser.Tests/ParseTests.cs:84-93 | `[a][/a]` becomes `(FIRST)(SECOND)` |
| ParseTests.MultipleBbcode | CustomTagParser.Tests/ParseTests.cs:95-116 | three rules in order turn `[a][b][/b][/a][c][/c]` into `(a:FIRST)(b:FIRST)(b:SECOND)(a:SECOND)(c:FIRST)(c:SECOND)` |
| ParseTests.UnitBbcode | CustomTagParser.Tests/ParseTests.cs:129-142 | with an empty pair list, the unit rules `[lb]` and `[rb]` turn `a[lb]b[rb]` into `a[b]` |
| ParseTests.RerunChangesOutput | CustomTagParser/CustomTagParser.cs:16-119 | with the pair rule `<...>` -> `k` allowed only when `Right` is empty and the unit rule `y` -> nothing, `<>y` becomes `<>` but `<>` becomes `k`: a second run on an output can change it |
| ParseTests.SkippedBbcode | CustomTagParser/CustomTagParser.cs:30-54 | because the scan moves one character past each marker it passes, `[a][a]x[/a][/a]` comes back unchanged |

## Left out

- Strings are sequences of Unicode scalar values (Dafny's `char`), not
  of UTF-16 code units as in .NET, where `IndexOf`, `StartsWith`, `Length`
  and the scan's index arithmetic count code units. For well-formed text
  and non-empty markers the two agree. They differ in two cases: unpaired
  surrogates cannot be represented at all, and an empty marker matches at
  each of the two code units of a surrogate pair in .NET but only once per
  character in the model (opening `""`, closing `"]"`, input `"😀]]]"`:
  the source ends its scan at depth 1 and returns the input, the model
  finds a closing marker and splices).
- Non-ordinal `StringComparison` modes (CustomTag.cs:16). Culture-aware and
  case-insensitive comparison depend on .NET globalization tables. Only
  `Ordinal`, the default, is modelled, as char-by-char equality.
- The bodies of caller-supplied `Replace` and `Condition` delegates, and any
  exception they throw. They are total function values; the tests' lambdas
  are written out in `ParseTests`.
- CustomTagParser.Parse: takes a `fuel` bound that the source does not have.
  A rule that would splice more than `fuel` times yields `OutOfFuel` instead
  of looping forever. `RewriteFuelMonotone` shows that the bound never
  changes a finished result.
- String indices are unbounded integers. The source's 32-bit `int` indices
  and the .NET limit on string length are not modelled.
- `Replace` of a pair rule has the three-argument form
  `(Contents, Left, Right)`, as the call site (CustomTagParser.cs:78) and
  the tests use it. The one-argument `ReplaceDelegate` declared at
  CustomTagPair.cs:33 is the special case that ignores `Left` and `Right`.
- Record plumbing: required-member attributes, the constructors' default
  arguments and the implicit `string` to `CustomTag` conversion
  (CustomTag.cs:33-35). The tests' conversion is `ParseTests.Tag`.
- Empty markers and a pair whose opening and closing markers are equal are
  not specified beyond what the algorithm yields. The operations and the
  methods accept them with no precondition, and so do the phase, fuel,
  order and fixed-point lemmas. The lemmas below need a non-empty marker,
  because an empty marker occurs everywhere:
  `Matching.ScanFindsFirstUnnestedClosing` (closing marker),
  `Matching.IndexOfPlainPrefix`, `Matching.FindSpanPlainPrefix`,
  `Rewriting.ApplyPairPlainPrefix`, `Rewriting.PairFixpointPlainPrefix`,
  `Rewriting.ApplyUnitPlainPrefix`, `Rewriting.UnitFixpointPlainPrefix`
  and `Rewriting.RewriteEmptyInput`. `Rewriting.PairStepSplices` states
  that `Left` holds no opening marker only for a non-empty one.
- The README example test (ParseTests.cs:5-35) is omitted. Its rules
  are those of `MultipleBbcode` and `UnitBbcode`, and
  `Rewriting.ApplyPairsAppend` and `Rewriting.ApplyUnitsAppend` state the
  rule order it depends on.
- The xUnit and Shouldly test framework (attributes and assertion helpers).
