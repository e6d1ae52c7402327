/** Ranking of the result dictionary: `from pair in d orderby pair.Value descending select pair`
    (a stable sort), then the plain policy (`First()`) and the margin policy (`First()` against
    `ElementAt(1)`). */
module Ranking {

  /** One entry of the result dictionary: a list value and its similarity score. */
  datatype Candidate = Candidate(value: string, score: real)

  ghost predicate SortedDescending(s: seq<Candidate>)
  {
    forall i, j :: 0 <= i < j < |s| ==> s[i].score >= s[j].score
  }

  /** `c` without its element at `i`. */
  function RemoveAt(c: seq<Candidate>, i: nat): (r: seq<Candidate>)
    requires i < |c|
    ensures |r| == |c| - 1
  {
    c[..i] + c[i + 1..]
  }

  /** The position of the first candidate of maximal score. */
  function FirstMax(c: seq<Candidate>): (i: nat)
    requires |c| > 0
    ensures i < |c|
    ensures forall j :: 0 <= j < |c| ==> c[j].score <= c[i].score
    ensures forall j :: 0 <= j < i ==> c[j].score < c[i].score
    decreases |c|
  {
    if |c| == 1 then 0
    else
      var k := 1 + FirstMax(c[1..]);
      if c[0].score >= c[k].score then 0 else k
  }

  /** Inserts `x` in front of the first element that does not score above it, so that `x` stays
      ahead of every later element with the same score. */
  function InsertDescending(x: Candidate, s: seq<Candidate>): (r: seq<Candidate>)
    ensures |r| == |s| + 1
    ensures multiset(r) == multiset(s) + multiset{x}
    decreases |s|
  {
    if s == [] || s[0].score <= x.score then [x] + s
    else
      assert s == [s[0]] + s[1..];
      [s[0]] + InsertDescending(x, s[1..])
  }

  /** Inserting into a descending sequence keeps it descending. */
  lemma {:induction false} InsertKeepsSorted(x: Candidate, s: seq<Candidate>)
    requires SortedDescending(s)
    ensures SortedDescending(InsertDescending(x, s))
    decreases |s|
  {
    if s != [] && s[0].score > x.score {
      var rest := InsertDescending(x, s[1..]);
      InsertKeepsSorted(x, s[1..]);
      assert s == [s[0]] + s[1..];
      forall k | 0 <= k < |rest|
        ensures rest[k].score <= s[0].score
      {
        assert rest[k] in multiset(rest);
        assert rest[k] == x || rest[k] in multiset(s[1..]);
        if rest[k] != x {
          var j :| 0 <= j < |s[1..]| && s[1..][j] == rest[k];
          assert s[j + 1] == rest[k];
        }
      }
    }
  }

  /** The stable descending sort by score. */
  function SortDescending(c: seq<Candidate>): (r: seq<Candidate>)
    ensures |r| == |c|
    decreases |c|
  {
    if c == [] then [] else InsertDescending(c[0], SortDescending(c[1..]))
  }

  /** `orderby ... descending` yields a descending permutation of the candidates. */
  lemma {:induction false} SortIsDescendingPermutation(c: seq<Candidate>)
    ensures multiset(SortDescending(c)) == multiset(c)
    ensures SortedDescending(SortDescending(c))
    decreases |c|
  {
    if c != [] {
      SortIsDescendingPermutation(c[1..]);
      InsertKeepsSorted(c[0], SortDescending(c[1..]));
      assert c == [c[0]] + c[1..];
    }
  }

  /** Unfolds the sort of a sequence given as head and tail. */
  lemma SortCons(x: Candidate, t: seq<Candidate>)
    ensures SortDescending([x] + t) == InsertDescending(x, SortDescending(t))
  {
    assert ([x] + t)[1..] == t;
  }

  /** Unfolds an insertion in front of a sequence given as head and tail. */
  lemma InsertCons(x: Candidate, y: Candidate, t: seq<Candidate>)
    ensures InsertDescending(x, [y] + t) ==
      if y.score <= x.score then [x, y] + t else [y] + InsertDescending(x, t)
  {
    assert ([y] + t)[1..] == t;
    assert [x] + ([y] + t) == [x, y] + t;
  }

  /** Removing past the head of a sequence given as head and tail. */
  lemma RemoveAtCons(x: Candidate, t: seq<Candidate>, k: nat)
    requires k < |t|
    ensures RemoveAt([x] + t, 0) == t
    ensures RemoveAt([x] + t, k + 1) == [x] + RemoveAt(t, k)
  {
    assert ([x] + t)[1..] == t;
    assert ([x] + t)[..k + 1] == [x] + t[..k];
    assert ([x] + t)[k + 2..] == t[k + 1..];
  }

  /** The stable sort is a repeated choice of the first maximum: its head is the first candidate
      of maximal score and its tail is the sorted remainder. */
  lemma {:induction false} SortPicksFirstMaximum(c: seq<Candidate>)
    requires |c| > 0
    ensures SortDescending(c) == [c[FirstMax(c)]] + SortDescending(RemoveAt(c, FirstMax(c)))
    decreases |c|
  {
    if |c| == 1 {
      assert RemoveAt(c, 0) == [];
    } else {
      var x, t := c[0], c[1..];
      var k := FirstMax(t);
      var rest := RemoveAt(t, k);
      assert c == [x] + t;
      SortPicksFirstMaximum(t);
      SortCons(x, t);
      InsertCons(x, t[k], SortDescending(rest));
      RemoveAtCons(x, t, k);
      if x.score < t[k].score {
        SortCons(x, rest);
      }
    }
  }

  /** The runner-up of the sorted order (`ElementAt(1)`): the first maximum of what remains once
      the winner is removed, so its score is the largest among the other candidates. */
  lemma {:induction false} RunnerUpIsFirstMaximumOfRest(c: seq<Candidate>)
    requires |c| >= 2
    ensures var rest := RemoveAt(c, FirstMax(c));
      SortDescending(c)[1] == rest[FirstMax(rest)]
  {
    var rest := RemoveAt(c, FirstMax(c));
    SortPicksFirstMaximum(c);
    SortPicksFirstMaximum(rest);
  }

  /** `First().Key` of the sorted dictionary, or the empty string for an empty dictionary. */
  function PickBest(c: seq<Candidate>): string
  {
    if |c| != 0 then SortDescending(c)[0].value else ""
  }

  /** The selection of the margin overload: a single candidate wins outright; with two or more,
      a top score of exactly 1 wins, otherwise the top must lead the runner-up by `margin`. */
  function PickWithMargin(c: seq<Candidate>, margin: real): string
  {
    if |c| > 1 then
      var sorted := SortDescending(c);
      if sorted[0].score == 1.0 then sorted[0].value
      else if sorted[0].score - sorted[1].score >= margin then sorted[0].value
      else ""
    else if |c| == 1 then c[0].value
    else ""
  }

  /** The plain policy returns the first candidate of maximal score, or "" when there is none. */
  lemma {:induction false} PickBestIsFirstMaximum(c: seq<Candidate>)
    ensures |c| == 0 ==> PickBest(c) == ""
    ensures |c| > 0 ==> PickBest(c) == c[FirstMax(c)].value
  {
    if |c| > 0 {
      SortPicksFirstMaximum(c);
    }
  }

  /** The margin policy case by case, in terms of the winner and the runner-up. */
  lemma {:induction false} PickWithMarginCases(c: seq<Candidate>, margin: real)
    ensures |c| == 0 ==> PickWithMargin(c, margin) == ""
    ensures |c| == 1 ==> PickWithMargin(c, margin) == c[0].value
    ensures |c| >= 2 && c[FirstMax(c)].score == 1.0 ==> PickWithMargin(c, margin) == c[FirstMax(c)].value
    ensures |c| >= 2 && c[FirstMax(c)].score != 1.0 ==>
      var top := c[FirstMax(c)];
      var rest := RemoveAt(c, FirstMax(c));
      var second := rest[FirstMax(rest)];
      PickWithMargin(c, margin) == if top.score - second.score >= margin then top.value else ""
  {
    if |c| >= 2 {
      SortPicksFirstMaximum(c);
      RunnerUpIsFirstMaximumOfRest(c);
    }
  }

  /** The margin policy either declines or agrees with the plain policy. */
  lemma {:induction false} MarginPickIsEmptyOrBest(c: seq<Candidate>, margin: real)
    ensures PickWithMargin(c, margin) == "" || PickWithMargin(c, margin) == PickBest(c)
  {
  }
}
