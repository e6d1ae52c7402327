/** The in-memory part of `ImportCSVFileToDictionary` and of the row dictionaries built by the two
    column lookups: each line is split on ',' and `ToDictionary` keys it by field 0. Enumerating the
    resulting dictionary follows insertion order (nothing is ever removed), so a dictionary is
    modelled as the sequence of what was added, in line order. */
module CsvImport {
  import opened Results
  import opened DelimitedText

  /** One key/value pair of the two-column dictionary. */
  datatype Entry = Entry(key: string, value: string)

  /** No two lines share their field 0. */
  ghost predicate DistinctKeys(lines: seq<string>)
  {
    forall i, j :: 0 <= i < j < |lines| ==> Split(lines[i], ',')[0] != Split(lines[j], ',')[0]
  }

  /** `ToDictionary(line => line[0], line => line[1])` over the split lines. For each line in
      turn the key is taken, then field 1 (which throws on a one-field line), then the pair is
      added (which throws on a key already present). */
  function ImportCsvToDictionary(lines: seq<string>): (r: Result<seq<Entry>>)
    ensures r.Ok? ==> |r.value| == |lines|
    ensures r.Ok? ==> forall i :: 0 <= i < |lines| ==>
      |Split(lines[i], ',')| >= 2 && r.value[i] == Entry(Split(lines[i], ',')[0], Split(lines[i], ',')[1])
    decreases |lines|
  {
    if lines == [] then Ok([])
    else
      match ImportCsvToDictionary(lines[..|lines| - 1])
      case Err(f) => Err(f)
      case Ok(table) =>
        var items := Split(lines[|lines| - 1], ',');
        if |items| < 2 then Err(IndexOutOfRange)
        else if exists i | 0 <= i < |table| :: table[i].key == items[0] then Err(DuplicateKey(items[0]))
        else Ok(table + [Entry(items[0], items[1])])
  }

  /** The two-column import succeeds exactly when every line has a value field and no key repeats. */
  lemma {:induction false} ImportCsvSucceedsIffWellFormed(lines: seq<string>)
    ensures ImportCsvToDictionary(lines).Ok? <==>
      (forall i :: 0 <= i < |lines| ==> |Split(lines[i], ',')| >= 2) && DistinctKeys(lines)
    decreases |lines|
  {
    if lines != [] {
      var prefix := lines[..|lines| - 1];
      var last := |lines| - 1;
      ImportCsvSucceedsIffWellFormed(prefix);
      assert forall i :: 0 <= i < |prefix| ==> prefix[i] == lines[i];
      match ImportCsvToDictionary(prefix)
      case Err(f) =>
        assert !(forall i :: 0 <= i < |prefix| ==> |Split(prefix[i], ',')| >= 2) || !DistinctKeys(prefix);
      case Ok(table) =>
        var items := Split(lines[last], ',');
        if |items| >= 2 && exists i | 0 <= i < |table| :: table[i].key == items[0] {
          var i :| 0 <= i < |table| && table[i].key == items[0];
          assert Split(lines[i], ',')[0] == Split(lines[last], ',')[0];
        }
    }
  }

  /** `ToDictionary(items => items[0], items => items)` over the split lines: the dictionary's
      values in insertion order. Field 0 always exists, so a repeated key is the only fault. */
  function ImportRows(lines: seq<string>): (r: Result<seq<seq<string>>>)
    ensures r.Ok? ==> |r.value| == |lines| && forall i :: 0 <= i < |lines| ==> r.value[i] == Split(lines[i], ',')
    decreases |lines|
  {
    if lines == [] then Ok([])
    else
      match ImportRows(lines[..|lines| - 1])
      case Err(f) => Err(f)
      case Ok(rows) =>
        var items := Split(lines[|lines| - 1], ',');
        if exists i | 0 <= i < |rows| :: rows[i][0] == items[0] then Err(DuplicateKey(items[0]))
        else Ok(rows + [items])
  }

  /** The row import succeeds exactly when no key repeats. */
  lemma {:induction false} ImportRowsSucceedsIffDistinctKeys(lines: seq<string>)
    ensures ImportRows(lines).Ok? <==> DistinctKeys(lines)
    decreases |lines|
  {
    if lines != [] {
      var prefix := lines[..|lines| - 1];
      var last := |lines| - 1;
      ImportRowsSucceedsIffDistinctKeys(prefix);
      assert forall i :: 0 <= i < |prefix| ==> prefix[i] == lines[i];
      match ImportRows(prefix)
      case Err(f) =>
        assert !DistinctKeys(prefix);
      case Ok(rows) =>
        var items := Split(lines[last], ',');
        if exists i | 0 <= i < |rows| :: rows[i][0] == items[0] {
          var i :| 0 <= i < |rows| && rows[i][0] == items[0];
          assert Split(lines[i], ',')[0] == Split(lines[last], ',')[0];
        }
    }
  }
}
