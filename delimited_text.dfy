/** The two .NET string operations the list files rely on: `String.Split(char)` and
    `String.Join(string, string[])`, for a single-character separator. */
module DelimitedText {

  /** `s.Split(separator)`: the maximal separator-free pieces of `s`, in order. Never empty;
      the empty string splits into one empty field, a trailing separator adds an empty field. */
  function Split(s: string, separator: char): (fields: seq<string>)
    ensures |fields| >= 1
    ensures forall i :: 0 <= i < |fields| ==> separator !in fields[i]
    decreases |s|
  {
    if s == [] then [""]
    else
      var rest := Split(s[1..], separator);
      if s[0] == separator then [""] + rest
      else [[s[0]] + rest[0]] + rest[1..]
  }

  /** `String.Join(separator, fields)`: the fields with one separator between neighbours. */
  function Join(fields: seq<string>, separator: char): string
  {
    if |fields| == 0 then ""
    else if |fields| == 1 then fields[0]
    else fields[0] + [separator] + Join(fields[1..], separator)
  }

  /** Joining the pieces of a split gives the original text back. */
  lemma {:induction false} JoinSplit(s: string, separator: char)
    ensures Join(Split(s, separator), separator) == s
    decreases |s|
  {
    if s != [] {
      var rest := Split(s[1..], separator);
      JoinSplit(s[1..], separator);
      if s[0] == separator {
        assert ([""] + rest)[1..] == rest;
        assert Join([""] + rest, separator) == [separator] + Join(rest, separator);
        assert s == [s[0]] + s[1..];
      } else {
        var fields := [[s[0]] + rest[0]] + rest[1..];
        assert fields[1..] == rest[1..];
        if |rest| == 1 {
          assert Join(fields, separator) == [s[0]] + rest[0];
        } else {
          assert Join(rest, separator) == rest[0] + [separator] + Join(rest[1..], separator);
          assert Join(fields, separator) == [s[0]] + rest[0] + [separator] + Join(rest[1..], separator);
        }
        assert s == [s[0]] + s[1..];
      }
    }
  }

  /** Splitting text that starts with a separator-free piece `f` puts `f` in front of the first field. */
  lemma {:induction false} SplitAfterPiece(f: string, s: string, separator: char)
    requires separator !in f
    ensures Split(f + s, separator) == [f + Split(s, separator)[0]] + Split(s, separator)[1..]
    decreases |f|
  {
    if f != [] {
      SplitAfterPiece(f[1..], s, separator);
      assert (f + s)[1..] == f[1..] + s;
      assert (f + s)[0] == f[0];
      assert [f[0]] + (f[1..] + Split(s, separator)[0]) == f + Split(s, separator)[0];
    } else {
      assert f + s == s;
      assert f + Split(s, separator)[0] == Split(s, separator)[0];
      assert Split(s, separator) == [Split(s, separator)[0]] + Split(s, separator)[1..];
    }
  }

  /** Splitting joined separator-free fields gives the fields back. */
  lemma {:induction false} SplitJoin(fields: seq<string>, separator: char)
    requires |fields| >= 1
    requires forall i :: 0 <= i < |fields| ==> separator !in fields[i]
    ensures Split(Join(fields, separator), separator) == fields
    decreases |fields|
  {
    if |fields| == 1 {
      SplitAfterPiece(fields[0], "", separator);
      assert fields[0] + "" == fields[0];
      assert fields == [fields[0]];
    } else {
      var tail := Join(fields[1..], separator);
      SplitJoin(fields[1..], separator);
      SplitAfterPiece(fields[0], [separator] + tail, separator);
      assert fields[0] + [separator] + tail == fields[0] + ([separator] + tail);
      assert ([separator] + tail)[1..] == tail;
      assert Split([separator] + tail, separator) == [""] + fields[1..];
      assert fields[0] + "" == fields[0];
      assert fields == [fields[0]] + fields[1..];
    }
  }
}
