# StringMatchUtility list operations, modelled in Dafny

This project models `ExternalListOperation`, the part of StringMatchUtility that resolves a noisy
label against an external comma-delimited list. It covers four operations:

- **Best match** (`GetBestMatchResult`, three arguments). It scores every value of a two-column list
  (key, value) against the source value. It keeps each value scoring at least
  `minimumMatchingRequired`, once. It sorts them by score, descending, and returns the first, or ""
  if none qualified.
- **Best match with margin** (`GetBestMatchResult`, four arguments). It builds the same result
  dictionary. A single candidate wins outright. With two or more candidates, a top score of exactly 1
  wins. Otherwise the top candidate must lead the runner-up by `differenceWithNextBest`, or the
  result is "".
- **Item lookup** (`GetItemFomCsvMatchingSpecificColumnValue`). It returns one field of the first row
  whose search column equals the searching value, ignoring case.
- **Line lookup** (`GetLineFomCsvMatchingSpecificColumnValue`). It returns that whole row, joined
  back with commas.

The list is read with `File.ReadLines`, split on ',' and turned into a dictionary keyed by field 0.
The model takes the file's lines as a `seq<string>`. Each operation returns a `Result`: either its
string or the exception that escapes from it (`DuplicateKey` or `IndexOutOfRange`).

Modules:

- `Results`: the fault and result types.
- `DelimitedText`: `String.Split` and `String.Join` for one separator character. Joining the fields
  of any split line gives the line back. Splitting joined fields gives the fields back only when
  there is at least one field and no field contains the separator: `Join(["a,b"])` splits into
  `["a", "b"]`, and `Join([])` splits into `[""]`.
- `CsvImport`: the two `ToDictionary` imports. The dictionary is the sequence of its entries in
  insertion order.
- `Ranking`: the candidates and the stable `orderby … descending`. Also the two selection policies.
- `ExternalListOperation`: the `foreach` that fills `matchingResultsDictionary` (a method with a
  loop), both overloads, and the two lookups (methods with loops that `break` at the first match).

The similarity measure (`LevenshteinDistance.CalculateSimilarity`) and `ToLower` are parameters of
type `(string, string) -> real` and `string -> string`. Nothing is assumed about them. Scores are
`real`s.

In three places the code behaves differently from what a reader might expect; the model follows
the code:

- A repeated key in the list file makes `ToDictionary` throw. It is not last-write-wins. The model
  returns `Err(DuplicateKey(key))`.
- In the two-column import, a one-field line throws when field 1 is read. That happens before the
  pair is added, so an `IndexOutOfRange` on a line beats a duplicate key on the same line.
- LINQ's `OrderByDescending` is a stable sort, so ties go to the value that qualified first. The
  model's sort is stable too. The lemma `Ranking.SortPicksFirstMaximum` states the tie-break
  exactly over the result dictionary, and `ExternalListOperation.BestMatchIsEarliestTopScorer`
  states it over the table.

The similarity of a value is a function of the lower-cased source value and the lower-cased list
value. So every occurrence of the same value in the list has the same score. Keeping "the first
score seen" (lines 43-47) therefore never differs from keeping any other occurrence's score.

## Model

| member | source | states |
|---|---|---|
| DelimitedText.Split | StringMatchUtility/StringMatchUtility/ExternalListOperation.cs:158 | `line.Split(',')` (also at lines 18 and 127): a line splits into at least one field, and no field holds the separator |
| DelimitedText.JoinSplit | StringMatchUtility/StringMatchUtility/ExternalListOperation.cs:168 | joining the split fields of a line with ',' gives back exactly that line |
| DelimitedText.SplitJoin | StringMatchUtility/StringMatchUtility/ExternalListOperation.cs:158 | splitting the join of one or more separator-free fields gives back exactly those fields |
| DelimitedText.Join | StringMatchUtility/StringMatchUtility/ExternalListOperation.cs:168 | `string.Join(",", item)`: the fields with one ',' between neighbours; `DelimitedText.JoinSplit` and `DelimitedText.SplitJoin` characterise it as the inverse of `Split` |
| DelimitedText.SplitAfterPiece | StringMatchUtility/StringMatchUtility/ExternalListOperation.cs:158 | a separator-free prefix of a line becomes the start of the line's first field, and the other fields are unchanged |
| CsvImport.ImportCsvToDictionary | StringMatchUtility/StringMatchUtility/ExternalListOperation.cs:16-20 | on success the dictionary has one entry per line, in line order, keyed by field 0 with field 1 as the value |
| CsvImport.ImportCsvSucceedsIffWellFormed | StringMatchUtility/StringMatchUtility/ExternalListOperation.cs:18 | the two-column import succeeds if and only if every line has at least two fields and no two lines share field 0 |
| CsvImport.ImportRows | StringMatchUtility/StringMatchUtility/ExternalListOperation.cs:125-131 | on success the row dictionary's values are the split lines, one per line, in line order |
| CsvImport.ImportRowsSucceedsIffDistinctKeys | StringMatchUtility/StringMatchUtility/ExternalListOperation.cs:156-162 | the row import succeeds if and only if no two lines share field 0 |
| Ranking.FirstMax | StringMatchUtility/StringMatchUtility/ExternalListOperation.cs:53-54 | the index it picks holds a score no other candidate exceeds, and every earlier candidate scores strictly less |
| Ranking.InsertDescending | StringMatchUtility/StringMatchUtility/ExternalListOperation.cs:53 | inserting a candidate adds exactly that candidate: one more element, and the same multiset plus it |
| Ranking.InsertKeepsSorted | StringMatchUtility/StringMatchUtility/ExternalListOperation.cs:53 | inserting into a descending sequence leaves it descending |
| Ranking.SortDescending | StringMatchUtility/StringMatchUtility/ExternalListOperation.cs:93 | the sorted dictionary has as many entries as the dictionary |
| Ranking.SortIsDescendingPermutation | StringMatchUtility/StringMatchUtility/ExternalListOperation.cs:53 | the sorted order is a permutation of the candidates and descending by score |
| Ranking.SortPicksFirstMaximum | StringMatchUtility/StringMatchUtility/ExternalListOperation.cs:53-54 | the stable sort starts with the first candidate of maximal score, followed by the sorted order of the remaining candidates |
| Ranking.RunnerUpIsFirstMaximumOfRest | StringMatchUtility/StringMatchUtility/ExternalListOperation.cs:93-99 | `ElementAt(1)` is the first candidate of maximal score once the winner is removed |
| Ranking.PickBest | StringMatchUtility/StringMatchUtility/ExternalListOperation.cs:51-57 | `First().Key` of the sorted dictionary, or "" when it is empty; `Ranking.PickBestIsFirstMaximum` shows it is the first candidate of maximal score |
| Ranking.PickWithMargin | StringMatchUtility/StringMatchUtility/ExternalListOperation.cs:91-108 | the margin selection over the result dictionary; `Ranking.PickWithMarginCases` gives its result in each of the four cases |
| Ranking.PickBestIsFirstMaximum | StringMatchUtility/StringMatchUtility/ExternalListOperation.cs:51-57 | with no candidates the plain policy returns ""; otherwise it returns the first candidate of maximal score |
| Ranking.PickWithMarginCases | StringMatchUtility/StringMatchUtility/ExternalListOperation.cs:91-108 | no candidates gives ""; one candidate gives it whatever the margin; with two or more, a top score of 1 gives the top; otherwise the top is returned exactly when it minus the runner-up's score is at least the margin, and "" if not |
| Ranking.MarginPickIsEmptyOrBest | StringMatchUtility/StringMatchUtility/ExternalListOperation.cs:91-108 | the margin policy returns "" or what the plain policy returns for the same candidates |
| ExternalListOperation.Score | StringMatchUtility/StringMatchUtility/ExternalListOperation.cs:39 | the matching percentage (also at line 79): the `sim` parameter applied to the lower-cased source value and the lower-cased list value |
| ExternalListOperation.Recorded | StringMatchUtility/StringMatchUtility/ExternalListOperation.cs:43 | `ContainsKey` (also at line 83): some recorded candidate carries exactly that value, compared without lower-casing |
| ExternalListOperation.Candidates | StringMatchUtility/StringMatchUtility/ExternalListOperation.cs:36-49 | the result dictionary holds distinct values; each one comes from the table and carries its own score, which is at least the minimum (its order is stated by `CandidatesInTableOrder`) |
| ExternalListOperation.QualifyingValuesRecorded | StringMatchUtility/StringMatchUtility/ExternalListOperation.cs:41-47 | every table value scoring at least the minimum ends up in the result dictionary |
| ExternalListOperation.CandidatesAreQualifyingValues | StringMatchUtility/StringMatchUtility/ExternalListOperation.cs:36-49 | a value is in the result dictionary if and only if some table entry has that value and it scores at least the minimum |
| ExternalListOperation.LaterDuplicateIgnored | StringMatchUtility/StringMatchUtility/ExternalListOperation.cs:43-47 | an entry whose value appeared earlier in the table leaves the result dictionary unchanged |
| ExternalListOperation.CandidatesInTableOrder | StringMatchUtility/StringMatchUtility/ExternalListOperation.cs:36-49 | the result dictionary is in table order: each value comes from a table entry before which every qualifying entry has its value recorded earlier in the dictionary |
| ExternalListOperation.CollectCandidates | StringMatchUtility/StringMatchUtility/ExternalListOperation.cs:76-89 | the loop builds exactly the result dictionary `Candidates` describes (the same loop as lines 36-49) |
| ExternalListOperation.BestMatch | StringMatchUtility/StringMatchUtility/ExternalListOperation.cs:29-58 | what the three-argument overload returns for an imported table: the plain selection over the result dictionary; characterised by `BestMatchIsTopScoringValue` and `BestMatchIsEarliestTopScorer` |
| ExternalListOperation.BestMatchWithMargin | StringMatchUtility/StringMatchUtility/ExternalListOperation.cs:68-111 | what the four-argument overload returns for an imported table: the margin selection over the result dictionary; characterised by `Ranking.PickWithMarginCases` and `MarginVariantIsEmptyOrBestMatch` |
| ExternalListOperation.BestMatchIsTopScoringValue | StringMatchUtility/StringMatchUtility/ExternalListOperation.cs:29-58 | "" when no table value scores at least the minimum; otherwise a table value scoring at least the minimum and at least as much as every qualifying table value |
| ExternalListOperation.BestMatchIsEarliestTopScorer | StringMatchUtility/StringMatchUtility/ExternalListOperation.cs:53-54 | when some table value qualifies, the plain best match is the value of a table entry before which every qualifying entry scores strictly less: ties go to the earliest qualifying entry |
| ExternalListOperation.MarginVariantIsEmptyOrBestMatch | StringMatchUtility/StringMatchUtility/ExternalListOperation.cs:68-111 | for the same table, source value and minimum, the margin overload returns "" or exactly what the plain overload returns |
| ExternalListOperation.GetBestMatchResult | StringMatchUtility/StringMatchUtility/ExternalListOperation.cs:29-58 | returns the import's fault when the list is malformed; otherwise the head of the sorted result dictionary, or "" |
| ExternalListOperation.GetBestMatchResultWithMargin | StringMatchUtility/StringMatchUtility/ExternalListOperation.cs:68-111 | returns the import's fault when the list is malformed; otherwise the margin policy applied to the result dictionary |
| ExternalListOperation.Scan | StringMatchUtility/StringMatchUtility/ExternalListOperation.cs:133-140 | the scan stops at the first row that either lacks the search column (a fault) or matches the searching value under lower-casing; every row before it has the column and does not match; with no such row, nothing matches |
| ExternalListOperation.GetItemFomCsvMatchingSpecificColumnValue | StringMatchUtility/StringMatchUtility/ExternalListOperation.cs:121-143 | returns the duplicate-key fault; otherwise the target field of the first matching row (a fault if the row lacks it), "" when no row matches, and a fault when a row before any match lacks the search column |
| ExternalListOperation.GetLineFomCsvMatchingSpecificColumnValue | StringMatchUtility/StringMatchUtility/ExternalListOperation.cs:152-174 | returns the duplicate-key fault; otherwise the first matching row's original line, "" when no row matches, and a fault when a row before any match lacks the search column |

## Left out

- Reading the file (`File.ReadLines`): the operations take the file's lines. A missing or unreadable file is not modelled.
- `LevenshteinDistance.CalculateSimilarity` is not part of this model. It is a parameter. No symmetry, no [0, 1] bound and no self-similarity is assumed, and none is needed by any lemma.
- `String.ToLower` and its culture rules: a parameter, with no assumed property.
- `double` arithmetic: scores are exact reals. The `== 1` test and the subtraction against `differenceWithNextBest` carry no rounding.
- Null arguments (a null source or searching value throws `NullReferenceException`) are not modelled: Dafny strings are never null.
- The LINQ query is lazy and re-sorts on each `First()` and `ElementAt(…)`. Every evaluation gives the same order, so the model sorts once.
- .NET `Dictionary` hashing: enumeration is modelled as insertion order. This holds because the code only ever adds entries.
- An empty result cannot be told apart from a matched empty value. The model keeps that convention and does not add a tagged result.
