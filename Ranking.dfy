/** `count_and_rating`: left-join the matches with the review summary, fill a
    missing mean with 0, sort descending by (`review_count`, `average_rating`)
    and keep the first ten rows.

    pandas sorts on several keys with a stable lexicographic sort that puts
    missing values last, so the order it produces is fixed by the keys and,
    among rows with equal keys, by the row labels the merge assigned (the
    positions of the matches). `Before` is that order; the sort below is an
    insertion sort by `Before`, and `RankedUnique` shows that any sort by
    `Before` gives the same sequence. */
module Ranking {
  import opened Wrappers
  import opened ReviewSummary
  import opened IngredientFilter

  /** How many rows `head` keeps. */
  const TopK: nat := 10

  /** A row of the merged frame: the match's `name` and `id`, its summary
      columns after the join (`review_count` stays missing for a recipe with
      no reviews; `average_rating` is filled with 0), and `index`, the row
      label the merge gave it, which the sort and `head` carry along. */
  datatype RankedRow = RankedRow(
    name: string,
    id: int,
    reviewCount: Option<nat>,
    averageRating: real,
    index: nat)

  /** The merged row of the `k`-th match. */
  function JoinRow(m: Match, summary: map<int, Stat>, k: nat): (row: RankedRow)
    ensures row.name == m.name && row.id == m.id && row.index == k
    ensures row.reviewCount == None <==> m.id !in summary
    ensures m.id in summary ==>
      row.reviewCount == Some(summary[m.id].reviewCount) && row.averageRating == AverageRating(summary[m.id])
    ensures m.id !in summary ==> row.averageRating == 0.0
  {
    if m.id in summary then RankedRow(m.name, m.id, Some(summary[m.id].reviewCount), AverageRating(summary[m.id]), k)
    else RankedRow(m.name, m.id, None, 0.0, k)
  }

  /** `matches.merge(summary, on='id', how='left')` followed by
      `fillna(0)` on `average_rating`: the ids of the summary are distinct,
      so the join yields one row per match, in the order of the matches. */
  function LeftJoin(matches: seq<Match>, summary: map<int, Stat>): (rows: seq<RankedRow>)
    ensures |rows| == |matches|
    ensures forall k :: 0 <= k < |rows| ==>
      rows[k].index == k && rows[k].id == matches[k].id && rows[k].name == matches[k].name
  {
    seq(|matches|, k requires 0 <= k < |matches| => JoinRow(matches[k], summary, k))
  }

  // ---------------------------------------------------------------- the order

  /** Descending on `review_count`, a missing count after every present one. */
  predicate CountAhead(a: Option<nat>, b: Option<nat>)
  {
    match (a, b)
    case (Some(x), Some(y)) => x > y
    case (Some(_), None) => true
    case (None, _) => false
  }

  /** `a`'s key (`review_count`, `average_rating`) comes strictly first in the
      descending lexicographic order. */
  predicate KeyAhead(a: RankedRow, b: RankedRow)
  {
    CountAhead(a.reviewCount, b.reviewCount)
    || (a.reviewCount == b.reviewCount && a.averageRating > b.averageRating)
  }

  predicate SameKey(a: RankedRow, b: RankedRow)
  {
    a.reviewCount == b.reviewCount && a.averageRating == b.averageRating
  }

  /** The order of `sort_values(['review_count', 'average_rating'],
      ascending=False)`: by key, and on equal keys by row label, because the
      sort is stable. */
  predicate Before(a: RankedRow, b: RankedRow): (ahead: bool)
    ensures ahead <==> KeyAhead(a, b) || (!KeyAhead(b, a) && a.index < b.index)
  {
    KeyAhead(a, b) || (SameKey(a, b) && a.index < b.index)
  }

  /** `Before` is a strict total order on rows with distinct labels. */
  lemma BeforeAsymmetric(a: RankedRow, b: RankedRow)
    ensures Before(a, b) ==> !Before(b, a)
  {
  }

  lemma BeforeTransitive(a: RankedRow, b: RankedRow, c: RankedRow)
    ensures Before(a, b) && Before(b, c) ==> Before(a, c)
  {
  }

  lemma BeforeTotal(a: RankedRow, b: RankedRow)
    ensures a.index != b.index ==> Before(a, b) || Before(b, a)
  {
  }

  /** Every pair of rows is in `Before` order. */
  predicate Ranked(rows: seq<RankedRow>)
  {
    forall i, j :: 0 <= i < j < |rows| ==> Before(rows[i], rows[j])
  }

  predicate DistinctLabels(rows: seq<RankedRow>)
  {
    forall i, j :: 0 <= i < j < |rows| ==> rows[i].index != rows[j].index
  }

  // ---------------------------------------------------------------- sorting

  /** A row ahead of every row of a ranked sequence can be put in front of it. */
  lemma ConsRanked(h: RankedRow, rows: seq<RankedRow>)
    requires Ranked(rows)
    requires forall k :: 0 <= k < |rows| ==> Before(h, rows[k])
    ensures Ranked([h] + rows)
  {
    var r := [h] + rows;
    forall i, j | 0 <= i < j < |r| ensures Before(r[i], r[j]) {
      assert r[j] == rows[j - 1];
      if i > 0 {
        assert r[i] == rows[i - 1];
      }
    }
  }

  /** Insert `x` into ranked rows at its place. */
  function Insert(x: RankedRow, rows: seq<RankedRow>): (r: seq<RankedRow>)
    requires Ranked(rows)
    requires forall k :: 0 <= k < |rows| ==> rows[k].index != x.index
    ensures Ranked(r)
    ensures multiset(r) == multiset(rows) + multiset{x}
  {
    if rows == [] then [x]
    else if Before(rows[0], x) then
      var rest := Insert(x, rows[1..]);
      InsertStep(x, rows, rest);
      [rows[0]] + rest
    else
      BeforeTotal(x, rows[0]);
      assert forall k :: 0 <= k < |rows| ==> Before(x, rows[k]) by {
        forall k | 0 <= k < |rows| ensures Before(x, rows[k]) {
          if k > 0 {
            BeforeTransitive(x, rows[0], rows[k]);
          }
        }
      }
      ConsRanked(x, rows);
      [x] + rows
  }

  lemma InsertStep(x: RankedRow, rows: seq<RankedRow>, rest: seq<RankedRow>)
    requires rows != [] && Ranked(rows) && Before(rows[0], x)
    requires Ranked(rest) && multiset(rest) == multiset(rows[1..]) + multiset{x}
    ensures Ranked([rows[0]] + rest)
    ensures multiset([rows[0]] + rest) == multiset(rows) + multiset{x}
  {
    forall k | 0 <= k < |rest| ensures Before(rows[0], rest[k]) {
      assert rest[k] in multiset(rest);
      if rest[k] != x {
        assert rest[k] in multiset(rows[1..]);
        var j :| 0 <= j < |rows[1..]| && rows[1..][j] == rest[k];
        assert rows[j + 1] == rest[k];
      }
    }
    ConsRanked(rows[0], rest);
    assert rows == [rows[0]] + rows[1..];
  }

  /** The rows sorted by `Before`: a permutation of the input in which every
      pair is in order. */
  function SortRows(rows: seq<RankedRow>): (r: seq<RankedRow>)
    requires DistinctLabels(rows)
    ensures Ranked(r)
    ensures multiset(r) == multiset(rows)
  {
    if rows == [] then []
    else
      var rest := SortRows(rows[1..]);
      SortStep(rows, rest);
      Insert(rows[0], rest)
  }

  lemma SortStep(rows: seq<RankedRow>, rest: seq<RankedRow>)
    requires rows != [] && DistinctLabels(rows)
    requires multiset(rest) == multiset(rows[1..])
    ensures forall k :: 0 <= k < |rest| ==> rest[k].index != rows[0].index
    ensures multiset(rest) + multiset{rows[0]} == multiset(rows)
  {
    forall k | 0 <= k < |rest| ensures rest[k].index != rows[0].index {
      assert rest[k] in multiset(rows[1..]);
      var j :| 0 <= j < |rows[1..]| && rows[1..][j] == rest[k];
      assert rows[j + 1] == rest[k];
    }
    assert rows == [rows[0]] + rows[1..];
  }

  /** Two ranked sequences with the same rows are the same sequence: the
      result of a stable descending sort on the two keys is determined, and
      `SortRows` computes it. */
  lemma {:induction false} RankedUnique(a: seq<RankedRow>, b: seq<RankedRow>)
    requires Ranked(a) && Ranked(b)
    requires multiset(a) == multiset(b)
    ensures a == b
  {
    if a != [] {
      RankedHeads(a, b);
      SameTails(a, b);
      RankedTail(a);
      RankedTail(b);
      RankedUnique(a[1..], b[1..]);
      assert a == [a[0]] + a[1..] && b == [b[0]] + b[1..];
    } else {
      assert |b| == |multiset(b)| == 0;
    }
  }

  /** Two ranked sequences with the same rows start with the same row. */
  lemma RankedHeads(a: seq<RankedRow>, b: seq<RankedRow>)
    requires Ranked(a) && Ranked(b) && multiset(a) == multiset(b) && a != []
    ensures b != [] && a[0] == b[0]
  {
    assert a[0] in multiset(b);
    var p :| 0 <= p < |b| && b[p] == a[0];
    assert b[0] in multiset(a);
    var q :| 0 <= q < |a| && a[q] == b[0];
    if p > 0 && q > 0 {
      BeforeAsymmetric(a[0], b[0]);
      assert false;
    }
  }

  /** Removing equal heads leaves the same rows. */
  lemma SameTails(a: seq<RankedRow>, b: seq<RankedRow>)
    requires a != [] && b != [] && a[0] == b[0] && multiset(a) == multiset(b)
    ensures multiset(a[1..]) == multiset(b[1..])
  {
    assert a == [a[0]] + a[1..] && b == [b[0]] + b[1..];
    assert multiset(a) == multiset{a[0]} + multiset(a[1..]);
    assert multiset(b) == multiset{b[0]} + multiset(b[1..]);
    assert multiset(a[1..]) == multiset(a) - multiset{a[0]};
    assert multiset(b[1..]) == multiset(b) - multiset{b[0]};
  }

  lemma RankedTail(rows: seq<RankedRow>)
    requires rows != [] && Ranked(rows)
    ensures Ranked(rows[1..])
  {
    forall i, j | 0 <= i < j < |rows| - 1 ensures Before(rows[1..][i], rows[1..][j]) {
      assert rows[1..][i] == rows[i + 1] && rows[1..][j] == rows[j + 1];
    }
  }

  // ---------------------------------------------------------------- top ten

  /** `count_and_rating`: the first `min(10, |matches|)` rows of the merged
      frame in `Before` order. Each row is the merged row of a distinct match
      (its label says which), and every match left out ranks after the last
      row kept. */
  function CountAndRating(summary: map<int, Stat>, matches: seq<Match>): (top: seq<RankedRow>)
    ensures |top| == if |matches| < TopK then |matches| else TopK
    ensures Ranked(top)
    ensures forall k :: 0 <= k < |top| ==>
      top[k].index < |matches| && top[k] == JoinRow(matches[top[k].index], summary, top[k].index)
    ensures forall j :: 0 <= j < |matches| ==>
      JoinRow(matches[j], summary, j) in top || Before(top[|top| - 1], JoinRow(matches[j], summary, j))
  {
    var sorted := SortRows(LeftJoin(matches, summary));
    var n := if |matches| < TopK then |matches| else TopK;
    TopOfSorted(summary, matches, sorted, n);
    sorted[..n]
  }

  /** What taking the first `n` of the sorted merged rows gives. */
  lemma TopOfSorted(summary: map<int, Stat>, matches: seq<Match>, sorted: seq<RankedRow>, n: nat)
    requires Ranked(sorted) && multiset(sorted) == multiset(LeftJoin(matches, summary))
    requires n <= |matches| && (|matches| > 0 ==> n > 0)
    ensures |sorted| == |matches|
    ensures var top := sorted[..n];
      && |top| == n
      && Ranked(top)
      && (forall k :: 0 <= k < |top| ==>
            top[k].index < |matches| && top[k] == JoinRow(matches[top[k].index], summary, top[k].index))
      && (forall j :: 0 <= j < |matches| ==>
            JoinRow(matches[j], summary, j) in top || Before(top[|top| - 1], JoinRow(matches[j], summary, j)))
  {
    var joined := LeftJoin(matches, summary);
    assert |sorted| == |multiset(sorted)| == |multiset(joined)| == |joined|;
    var top := sorted[..n];
    forall k | 0 <= k < n
      ensures top[k].index < |matches| && top[k] == JoinRow(matches[top[k].index], summary, top[k].index)
    {
      assert top[k] == sorted[k];
      assert sorted[k] in multiset(joined);
      var j :| 0 <= j < |joined| && joined[j] == sorted[k];
    }
    forall j | 0 <= j < |matches|
      ensures JoinRow(matches[j], summary, j) in top || Before(top[|top| - 1], JoinRow(matches[j], summary, j))
    {
      assert joined[j] == JoinRow(matches[j], summary, j);
      assert joined[j] in multiset(sorted);
      var p :| 0 <= p < |sorted| && sorted[p] == joined[j];
      if p < n {
        assert top[p] == joined[j];
      } else {
        assert top[n - 1] == sorted[n - 1];
      }
    }
  }

  /** The keys of the result never increase, and rows with equal keys keep
      the order of the matches. */
  lemma TopKeysNonIncreasing(summary: map<int, Stat>, matches: seq<Match>)
    ensures var top := CountAndRating(summary, matches);
      forall i, j :: 0 <= i < j < |top| ==>
        !KeyAhead(top[j], top[i]) && (SameKey(top[i], top[j]) ==> top[i].index < top[j].index)
  {
    var top := CountAndRating(summary, matches);
    forall i, j | 0 <= i < j < |top|
      ensures !KeyAhead(top[j], top[i]) && (SameKey(top[i], top[j]) ==> top[i].index < top[j].index)
    {
      assert Before(top[i], top[j]);
    }
  }

  /** No match appears twice in the result. */
  lemma TopRowsDistinct(summary: map<int, Stat>, matches: seq<Match>)
    ensures var top := CountAndRating(summary, matches);
      forall i, j :: 0 <= i < j < |top| ==> top[i].index != top[j].index
  {
    var top := CountAndRating(summary, matches);
    forall i, j | 0 <= i < j < |top| ensures top[i].index != top[j].index {
      assert Before(top[i], top[j]);
    }
  }

  /** A recipe without reviews has average 0 and a missing count, and comes
      after every reviewed recipe: once a row without a count appears, all
      later rows lack one too. */
  lemma UnreviewedLast(summary: map<int, Stat>, matches: seq<Match>)
    ensures var top := CountAndRating(summary, matches);
      && (forall k :: 0 <= k < |top| ==> (top[k].reviewCount == None <==> top[k].id !in summary))
      && (forall k :: 0 <= k < |top| && top[k].reviewCount == None ==> top[k].averageRating == 0.0)
      && (forall i, j :: 0 <= i < j < |top| && top[i].reviewCount == None ==> top[j].reviewCount == None)
  {
    var top := CountAndRating(summary, matches);
    forall i, j | 0 <= i < j < |top| && top[i].reviewCount == None
      ensures top[j].reviewCount == None
    {
      assert Before(top[i], top[j]);
    }
  }

  /** A reviewed recipe that is left out means that no recipe without
      reviews is kept: every kept row ranks before it. */
  lemma ReviewedBeforeUnreviewed(summary: map<int, Stat>, matches: seq<Match>, j: nat)
    requires j < |matches| && matches[j].id in summary
    requires var top := CountAndRating(summary, matches);
      forall k :: 0 <= k < |top| ==> top[k].index != j
    ensures var top := CountAndRating(summary, matches);
      forall k :: 0 <= k < |top| ==> top[k].reviewCount != None
  {
    var top := CountAndRating(summary, matches);
    var row := JoinRow(matches[j], summary, j);
    assert row !in top by {
      forall k | 0 <= k < |top| ensures top[k] != row {
        assert top[k].index != j;
      }
    }
    assert Before(top[|top| - 1], row);
    AheadOfReviewed(top, row);
  }

  /** Every row of a ranked sequence whose last row ranks before a reviewed
      row has reviews itself. */
  lemma AheadOfReviewed(top: seq<RankedRow>, row: RankedRow)
    requires Ranked(top) && top != [] && Before(top[|top| - 1], row) && row.reviewCount != None
    ensures forall k :: 0 <= k < |top| ==> top[k].reviewCount != None
  {
    forall k | 0 <= k < |top| ensures top[k].reviewCount != None {
      if k < |top| - 1 {
        assert Before(top[k], top[|top| - 1]);
      }
    }
  }

  /** Review count outranks rating: of two matches, the one with 20 reviews
      averaging 3.0 is listed before the one with 12 reviews averaging 4.5. */
  lemma CountOutranksRating()
    ensures var summary := map[1 := Stat(54, 12), 2 := Stat(60, 20)];
      var top := CountAndRating(summary, [Match("A", 1), Match("B", 2)]);
      |top| == 2 && top[0].id == 2 && top[1].id == 1
  {
    var summary := map[1 := Stat(54, 12), 2 := Stat(60, 20)];
    var matches := [Match("A", 1), Match("B", 2)];
    var top := CountAndRating(summary, matches);
    assert Before(top[0], top[1]);
    assert top[0].index != top[1].index;
    assert AverageRating(Stat(54, 12)) == 4.5 && AverageRating(Stat(60, 20)) == 3.0;
  }
}
