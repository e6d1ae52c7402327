/** The operations of `ExternalListOperation`: fuzzy best match against the value column of a
    two-column list, with or without a required lead over the runner-up, and exact lookups on one
    column of a multi-column list. The list file is given by its lines; the similarity measure
    and the lower-casing are parameters. */
module ExternalListOperation {
  import opened Results
  import opened DelimitedText
  import opened CsvImport
  import opened Ranking

  /** `LevenshteinDistance.CalculateSimilarity`: a score for two strings. */
  type Similarity = (string, string) -> real

  /** `String.ToLower()`. */
  type Lowering = string -> string

  /** The matching percentage of a list value against the source value. */
  function Score(sourceValue: string, value: string, sim: Similarity, lower: Lowering): real
  {
    sim(lower(sourceValue), lower(value))
  }

  /** `matchingResultsDictionary.ContainsKey(value)`. */
  predicate Recorded(c: seq<Candidate>, value: string)
  {
    exists i | 0 <= i < |c| :: c[i].value == value
  }

  /** The result dictionary after the loop has visited every entry of `table`: the values scoring
      at least `minimum`, each once with its score, in order of first qualification. */
  function Candidates(table: seq<Entry>, sourceValue: string, minimum: real, sim: Similarity, lower: Lowering)
    : (c: seq<Candidate>)
    ensures forall i, j :: 0 <= i < j < |c| ==> c[i].value != c[j].value
    ensures forall i :: 0 <= i < |c| ==>
      c[i].score == Score(sourceValue, c[i].value, sim, lower) && c[i].score >= minimum
    ensures forall i :: 0 <= i < |c| ==> exists k :: 0 <= k < |table| && table[k].value == c[i].value
    decreases |table|
  {
    if table == [] then []
    else
      var prior := Candidates(table[..|table| - 1], sourceValue, minimum, sim, lower);
      var value := table[|table| - 1].value;
      var score := Score(sourceValue, value, sim, lower);
      if score >= minimum && !Recorded(prior, value) then prior + [Candidate(value, score)]
      else prior
  }

  /** Every value of the table that scores at least `minimum` is in the result dictionary. */
  lemma {:induction false} QualifyingValuesRecorded(table: seq<Entry>, sourceValue: string, minimum: real,
                                                     sim: Similarity, lower: Lowering, k: nat)
    requires k < |table|
    requires Score(sourceValue, table[k].value, sim, lower) >= minimum
    ensures Recorded(Candidates(table, sourceValue, minimum, sim, lower), table[k].value)
    decreases |table|
  {
    var prefix := table[..|table| - 1];
    var prior := Candidates(prefix, sourceValue, minimum, sim, lower);
    var c := Candidates(table, sourceValue, minimum, sim, lower);
    assert forall i :: 0 <= i < |prior| ==> c[i] == prior[i];
    if k < |table| - 1 {
      assert prefix[k] == table[k];
      QualifyingValuesRecorded(prefix, sourceValue, minimum, sim, lower, k);
      var i :| 0 <= i < |prior| && prior[i].value == table[k].value;
      assert c[i].value == table[k].value;
    } else if Recorded(prior, table[k].value) {
      var i :| 0 <= i < |prior| && prior[i].value == table[k].value;
      assert c[i].value == table[k].value;
    } else {
      assert c[|c| - 1].value == table[k].value;
    }
  }

  /** The result dictionary holds exactly the table values that score at least `minimum`. */
  lemma CandidatesAreQualifyingValues(table: seq<Entry>, sourceValue: string, minimum: real,
                                      sim: Similarity, lower: Lowering, value: string)
    ensures Recorded(Candidates(table, sourceValue, minimum, sim, lower), value) <==>
      exists k :: 0 <= k < |table| && table[k].value == value && Score(sourceValue, value, sim, lower) >= minimum
  {
    var c := Candidates(table, sourceValue, minimum, sim, lower);
    if Recorded(c, value) {
      var i :| 0 <= i < |c| && c[i].value == value;
      var k :| 0 <= k < |table| && table[k].value == c[i].value;
      assert table[k].value == value && Score(sourceValue, value, sim, lower) >= minimum;
    }
    if exists k :: 0 <= k < |table| && table[k].value == value && Score(sourceValue, value, sim, lower) >= minimum {
      var k :| 0 <= k < |table| && table[k].value == value && Score(sourceValue, value, sim, lower) >= minimum;
      QualifyingValuesRecorded(table, sourceValue, minimum, sim, lower, k);
    }
  }

  /** An entry whose value already occurred earlier in the table leaves the result dictionary
      unchanged, whether or not that value qualified. */
  lemma LaterDuplicateIgnored(table: seq<Entry>, sourceValue: string, minimum: real,
                              sim: Similarity, lower: Lowering, j: nat, i: nat)
    requires j < i < |table|
    requires table[j].value == table[i].value
    ensures Candidates(table[..i + 1], sourceValue, minimum, sim, lower) ==
            Candidates(table[..i], sourceValue, minimum, sim, lower)
  {
    assert table[..i + 1][..i] == table[..i];
    if Score(sourceValue, table[i].value, sim, lower) >= minimum {
      assert table[..i][j] == table[j];
      QualifyingValuesRecorded(table[..i], sourceValue, minimum, sim, lower, j);
    }
  }

  /** The result dictionary is in table order: each value is recorded at the first table entry
      that qualifies with it, so every qualifying entry before that one has a value recorded
      earlier in the dictionary. */
  lemma {:induction false} CandidatesInTableOrder(table: seq<Entry>, sourceValue: string, minimum: real,
                                                  sim: Similarity, lower: Lowering, i: nat)
    requires i < |Candidates(table, sourceValue, minimum, sim, lower)|
    ensures var c := Candidates(table, sourceValue, minimum, sim, lower);
      exists k :: 0 <= k < |table| && table[k].value == c[i].value &&
        forall k' :: 0 <= k' < k && Score(sourceValue, table[k'].value, sim, lower) >= minimum ==>
          Recorded(c[..i], table[k'].value)
    decreases |table|
  {
    var c := Candidates(table, sourceValue, minimum, sim, lower);
    var prefix := table[..|table| - 1];
    var prior := Candidates(prefix, sourceValue, minimum, sim, lower);
    assert forall j :: 0 <= j < |prefix| ==> prefix[j] == table[j];
    if i < |prior| {
      CandidatesInTableOrder(prefix, sourceValue, minimum, sim, lower, i);
      assert c[..i] == prior[..i];
      var k :| 0 <= k < |prefix| && prefix[k].value == prior[i].value &&
        forall k' :: 0 <= k' < k && Score(sourceValue, prefix[k'].value, sim, lower) >= minimum ==>
          Recorded(prior[..i], prefix[k'].value);
      assert table[k].value == c[i].value;
    } else {
      var k := |table| - 1;
      assert c[..i] == prior;
      forall k' | 0 <= k' < k && Score(sourceValue, table[k'].value, sim, lower) >= minimum
        ensures Recorded(c[..i], table[k'].value)
      {
        QualifyingValuesRecorded(prefix, sourceValue, minimum, sim, lower, k');
      }
      assert table[k].value == c[i].value;
    }
  }

  /** The `foreach` over the two-column dictionary that fills `matchingResultsDictionary`,
      shared by both `GetBestMatchResult` overloads. */
  method CollectCandidates(table: seq<Entry>, sourceValue: string, minimumMatchingRequired: real,
                           sim: Similarity, lower: Lowering) returns (c: seq<Candidate>)
    ensures c == Candidates(table, sourceValue, minimumMatchingRequired, sim, lower)
  {
    c := [];
    for i := 0 to |table|
      invariant c == Candidates(table[..i], sourceValue, minimumMatchingRequired, sim, lower)
    {
      var matchingPercent := sim(lower(sourceValue), lower(table[i].value));
      if matchingPercent >= minimumMatchingRequired {
        if !Recorded(c, table[i].value) {
          c := c + [Candidate(table[i].value, matchingPercent)];
        }
      }
      assert table[..i + 1][..i] == table[..i];
    }
    assert table[..|table|] == table;
  }

  /** What the three-argument overload returns for an imported table. */
  function BestMatch(table: seq<Entry>, sourceValue: string, minimum: real, sim: Similarity, lower: Lowering): string
  {
    PickBest(Candidates(table, sourceValue, minimum, sim, lower))
  }

  /** What the four-argument overload returns for an imported table. */
  function BestMatchWithMargin(table: seq<Entry>, sourceValue: string, minimum: real, difference: real,
                               sim: Similarity, lower: Lowering): string
  {
    PickWithMargin(Candidates(table, sourceValue, minimum, sim, lower), difference)
  }

  /** The plain best match is "" when no table value scores at least `minimum`; otherwise it is a
      table value scoring at least `minimum` and at least as much as every other qualifying value. */
  lemma BestMatchIsTopScoringValue(table: seq<Entry>, sourceValue: string, minimum: real,
                                   sim: Similarity, lower: Lowering)
    ensures (forall k :: 0 <= k < |table| ==> Score(sourceValue, table[k].value, sim, lower) < minimum) ==>
      BestMatch(table, sourceValue, minimum, sim, lower) == ""
    ensures (exists k :: 0 <= k < |table| && Score(sourceValue, table[k].value, sim, lower) >= minimum) ==>
      var r := BestMatch(table, sourceValue, minimum, sim, lower);
      && (exists k :: 0 <= k < |table| && table[k].value == r)
      && Score(sourceValue, r, sim, lower) >= minimum
      && forall k :: 0 <= k < |table| && Score(sourceValue, table[k].value, sim, lower) >= minimum ==>
           Score(sourceValue, table[k].value, sim, lower) <= Score(sourceValue, r, sim, lower)
  {
    var c := Candidates(table, sourceValue, minimum, sim, lower);
    PickBestIsFirstMaximum(c);
    if exists k :: 0 <= k < |table| && Score(sourceValue, table[k].value, sim, lower) >= minimum {
      var k0 :| 0 <= k0 < |table| && Score(sourceValue, table[k0].value, sim, lower) >= minimum;
      QualifyingValuesRecorded(table, sourceValue, minimum, sim, lower, k0);
      var top := FirstMax(c);
      forall k | 0 <= k < |table| && Score(sourceValue, table[k].value, sim, lower) >= minimum
        ensures Score(sourceValue, table[k].value, sim, lower) <= c[top].score
      {
        QualifyingValuesRecorded(table, sourceValue, minimum, sim, lower, k);
        var i :| 0 <= i < |c| && c[i].value == table[k].value;
      }
    }
  }

  /** Among table values sharing the top score, the plain best match is the one whose entry
      qualifies first: every qualifying entry before it scores strictly less. */
  lemma {:induction false} BestMatchIsEarliestTopScorer(table: seq<Entry>, sourceValue: string, minimum: real,
                                                        sim: Similarity, lower: Lowering)
    requires exists k :: 0 <= k < |table| && Score(sourceValue, table[k].value, sim, lower) >= minimum
    ensures var r := BestMatch(table, sourceValue, minimum, sim, lower);
      exists k :: 0 <= k < |table| && table[k].value == r &&
        forall k' :: 0 <= k' < k && Score(sourceValue, table[k'].value, sim, lower) >= minimum ==>
          Score(sourceValue, table[k'].value, sim, lower) < Score(sourceValue, r, sim, lower)
  {
    var c := Candidates(table, sourceValue, minimum, sim, lower);
    var k0 :| 0 <= k0 < |table| && Score(sourceValue, table[k0].value, sim, lower) >= minimum;
    QualifyingValuesRecorded(table, sourceValue, minimum, sim, lower, k0);
    PickBestIsFirstMaximum(c);
    var top := FirstMax(c);
    var r := c[top].value;
    CandidatesInTableOrder(table, sourceValue, minimum, sim, lower, top);
    var k :| 0 <= k < |table| && table[k].value == r &&
      forall k' :: 0 <= k' < k && Score(sourceValue, table[k'].value, sim, lower) >= minimum ==>
        Recorded(c[..top], table[k'].value);
    forall k' | 0 <= k' < k && Score(sourceValue, table[k'].value, sim, lower) >= minimum
      ensures Score(sourceValue, table[k'].value, sim, lower) < Score(sourceValue, r, sim, lower)
    {
      var j :| 0 <= j < |c[..top]| && c[..top][j].value == table[k'].value;
      assert c[j].value == table[k'].value;
    }
  }

  /** The margin overload returns "" or exactly what the plain overload returns. */
  lemma MarginVariantIsEmptyOrBestMatch(table: seq<Entry>, sourceValue: string, minimum: real, difference: real,
                                         sim: Similarity, lower: Lowering)
    ensures var r := BestMatchWithMargin(table, sourceValue, minimum, difference, sim, lower);
      r == "" || r == BestMatch(table, sourceValue, minimum, sim, lower)
  {
    MarginPickIsEmptyOrBest(Candidates(table, sourceValue, minimum, sim, lower), difference);
  }

  /** `GetBestMatchResult(listFilePath, sourceValue, minimumMatchingRequired)`. */
  method GetBestMatchResult(lines: seq<string>, sourceValue: string, minimumMatchingRequired: real,
                            sim: Similarity, lower: Lowering) returns (r: Result<string>)
    ensures ImportCsvToDictionary(lines).Err? ==> r == Err(ImportCsvToDictionary(lines).fault)
    ensures ImportCsvToDictionary(lines).Ok? ==>
      r == Ok(BestMatch(ImportCsvToDictionary(lines).value, sourceValue, minimumMatchingRequired, sim, lower))
  {
    var imported := ImportCsvToDictionary(lines);
    if imported.Err? {
      return Err(imported.fault);
    }
    var matchingResults := CollectCandidates(imported.value, sourceValue, minimumMatchingRequired, sim, lower);
    // The selection below is Ranking.PickBest, written as statements.
    if |matchingResults| != 0 {
      var sortedMatchingList := SortDescending(matchingResults);
      r := Ok(sortedMatchingList[0].value);
    } else {
      r := Ok("");
    }
  }

  /** `GetBestMatchResult(listFilePath, sourceValue, minimumMatchingRequired, differenceWithNextBest)`. */
  method GetBestMatchResultWithMargin(lines: seq<string>, sourceValue: string, minimumMatchingRequired: real,
                                      differenceWithNextBest: real, sim: Similarity, lower: Lowering)
    returns (r: Result<string>)
    ensures ImportCsvToDictionary(lines).Err? ==> r == Err(ImportCsvToDictionary(lines).fault)
    ensures ImportCsvToDictionary(lines).Ok? ==>
      r == Ok(BestMatchWithMargin(ImportCsvToDictionary(lines).value, sourceValue, minimumMatchingRequired,
                                  differenceWithNextBest, sim, lower))
  {
    var imported := ImportCsvToDictionary(lines);
    if imported.Err? {
      return Err(imported.fault);
    }
    var matchingResults := CollectCandidates(imported.value, sourceValue, minimumMatchingRequired, sim, lower);
    // The selection below is Ranking.PickWithMargin, written as statements.
    var returnResult := "";
    if |matchingResults| > 1 {
      var sortedMatchingList := SortDescending(matchingResults);
      if sortedMatchingList[0].score == 1.0 {
        returnResult := sortedMatchingList[0].value;
      } else if sortedMatchingList[0].score - sortedMatchingList[1].score >= differenceWithNextBest {
        returnResult := sortedMatchingList[0].value;
      }
    } else if |matchingResults| == 1 {
      returnResult := matchingResults[0].value;
    } else {
      returnResult := "";
    }
    r := Ok(returnResult);
  }

  /** Where a first-match scan of `rows` on `column` stops. */
  datatype ScanResult = MatchAt(index: nat) | NoMatch | ColumnMissing(index: nat)

  /** Rows `from` up to `to` all have `column` and none equals the searching value there. */
  ghost predicate PassedOver(rows: seq<seq<string>>, searchingValue: string, column: int, lower: Lowering,
                             from: nat, to: nat)
    requires from <= to <= |rows|
  {
    forall j :: from <= j < to ==> 0 <= column < |rows[j]| && lower(rows[j][column]) != lower(searchingValue)
  }

  /** The scan from row `from` on: the first row whose `column` equals the searching value under
      lower-casing, unless an earlier row (or that row) has no such column, which faults. */
  function Scan(rows: seq<seq<string>>, searchingValue: string, column: int, lower: Lowering, from: nat)
    : (r: ScanResult)
    requires from <= |rows|
    ensures r.MatchAt? ==>
      && from <= r.index < |rows| && PassedOver(rows, searchingValue, column, lower, from, r.index)
      && 0 <= column < |rows[r.index]| && lower(rows[r.index][column]) == lower(searchingValue)
    ensures r.ColumnMissing? ==>
      && from <= r.index < |rows| && PassedOver(rows, searchingValue, column, lower, from, r.index)
      && !(0 <= column < |rows[r.index]|)
    ensures r.NoMatch? ==> PassedOver(rows, searchingValue, column, lower, from, |rows|)
    decreases |rows| - from
  {
    if from == |rows| then NoMatch
    else if !(0 <= column < |rows[from]|) then ColumnMissing(from)
    else if lower(rows[from][column]) == lower(searchingValue) then MatchAt(from)
    else Scan(rows, searchingValue, column, lower, from + 1)
  }

  /** `GetItemFomCsvMatchingSpecificColumnValue`: field `targetColumnNumber` of the first row
      whose field `searchingColumnNumber` matches, "" when no row matches. */
  method GetItemFomCsvMatchingSpecificColumnValue(lines: seq<string>, searchingValue: string,
                                                  searchingColumnNumber: int, targetColumnNumber: int,
                                                  lower: Lowering) returns (r: Result<string>)
    ensures ImportRows(lines).Err? ==> r == Err(ImportRows(lines).fault)
    ensures ImportRows(lines).Ok? ==>
      var rows := ImportRows(lines).value;
      match Scan(rows, searchingValue, searchingColumnNumber, lower, 0)
      case MatchAt(i) =>
        r == if 0 <= targetColumnNumber < |rows[i]| then Ok(rows[i][targetColumnNumber]) else Err(IndexOutOfRange)
      case NoMatch => r == Ok("")
      case ColumnMissing(_) => r == Err(IndexOutOfRange)
  {
    var imported := ImportRows(lines);
    if imported.Err? {
      return Err(imported.fault);
    }
    var externals := imported.value;
    var returnValue := "";
    var i := 0;
    while i < |externals|
      invariant 0 <= i <= |externals|
      invariant Scan(externals, searchingValue, searchingColumnNumber, lower, 0) ==
                Scan(externals, searchingValue, searchingColumnNumber, lower, i)
    {
      var item := externals[i];
      if !(0 <= searchingColumnNumber < |item|) {
        return Err(IndexOutOfRange);
      }
      if lower(item[searchingColumnNumber]) == lower(searchingValue) {
        if !(0 <= targetColumnNumber < |item|) {
          return Err(IndexOutOfRange);
        }
        returnValue := item[targetColumnNumber];
        break;
      }
      i := i + 1;
    }
    r := Ok(returnValue);
  }

  /** `GetLineFomCsvMatchingSpecificColumnValue`: the first row whose field `searchingColumnNumber`
      matches, joined back with ',' (which is its line of the list), "" when no row matches. */
  method GetLineFomCsvMatchingSpecificColumnValue(lines: seq<string>, searchingValue: string,
                                                  searchingColumnNumber: int, lower: Lowering)
    returns (r: Result<string>)
    ensures ImportRows(lines).Err? ==> r == Err(ImportRows(lines).fault)
    ensures ImportRows(lines).Ok? ==>
      match Scan(ImportRows(lines).value, searchingValue, searchingColumnNumber, lower, 0)
      case MatchAt(i) => r == Ok(lines[i])
      case NoMatch => r == Ok("")
      case ColumnMissing(_) => r == Err(IndexOutOfRange)
  {
    var imported := ImportRows(lines);
    if imported.Err? {
      return Err(imported.fault);
    }
    var externals := imported.value;
    var returnValue := "";
    var i := 0;
    while i < |externals|
      invariant 0 <= i <= |externals|
      invariant Scan(externals, searchingValue, searchingColumnNumber, lower, 0) ==
                Scan(externals, searchingValue, searchingColumnNumber, lower, i)
    {
      var item := externals[i];
      if !(0 <= searchingColumnNumber < |item|) {
        return Err(IndexOutOfRange);
      }
      if lower(item[searchingColumnNumber]) == lower(searchingValue) {
        returnValue := Join(item, ',');
        JoinSplit(lines[i], ',');
        break;
      }
      i := i + 1;
    }
    r := Ok(returnValue);
  }
}
