/** Ordering rows by `Year`, as `sort_values(by='Year')` does. The library's
    default algorithm is not stable, so only two things are promised of a
    sorted result: its years never decrease, and it holds the same rows. */
module Sorting {
  import opened Table

  /** Years never decrease from the first row to the last. */
  ghost predicate YearSorted(rows: seq<Row>) {
    forall i, j :: 0 <= i < j < |rows| ==> rows[i].year <= rows[j].year
  }

  /** Insert `r` into rows already ordered by year. */
  function InsertByYear(r: Row, rows: seq<Row>): (out: seq<Row>)
    requires YearSorted(rows)
    ensures YearSorted(out)
    ensures multiset(out) == multiset(rows) + multiset{r}
    ensures |out| == |rows| + 1
    ensures out[0] == r || (rows != [] && out[0] == rows[0])
    decreases |rows|
  {
    if rows == [] || r.year <= rows[0].year then [r] + rows
    else
      assert rows == [rows[0]] + rows[1..];
      [rows[0]] + InsertByYear(r, rows[1..])
  }

  /** One ordering of `rows` by year; which of several rows that share a
      year comes first is not part of the contract. */
  function SortByYear(rows: seq<Row>): (out: seq<Row>)
    ensures YearSorted(out)
    ensures multiset(out) == multiset(rows)
    decreases |rows|
  {
    if rows == [] then []
    else
      assert rows == [rows[0]] + rows[1..];
      InsertByYear(rows[0], SortByYear(rows[1..]))
  }

  /** The first row of a year-sorted sequence has the smallest year. */
  lemma HeadHasSmallestYear(a: seq<Row>, q: Row)
    requires YearSorted(a)
    requires q in multiset(a)
    ensures a[0].year <= q.year
  {
    var k :| 0 <= k < |a| && a[k] == q;
  }

  /** Removing one row keeps a sequence year-sorted. */
  lemma RemoveKeepsSorted(b: seq<Row>, j: nat)
    requires YearSorted(b)
    requires j < |b|
    ensures YearSorted(b[..j] + b[j+1..])
  {
    var b' := b[..j] + b[j+1..];
    forall p, q | 0 <= p < q < |b'| ensures b'[p].year <= b'[q].year {
      var p0 := if p < j then p else p + 1;
      var q0 := if q < j then q else q + 1;
      assert b'[p] == b[p0] && b'[q] == b[q0];
    }
  }

  /** Removing the row at `j` removes one occurrence of it. */
  lemma RemoveOne(b: seq<Row>, j: nat)
    requires j < |b|
    ensures multiset(b[..j] + b[j+1..]) == multiset(b) - multiset{b[j]}
  {
    assert b == b[..j] + [b[j]] + b[j+1..];
  }

  /** If `a`'s tail has the years of `b` without its j-th row, and `a`'s
      head has the year of both `b[0]` and `b[j]`, then `a` has `b`'s years. */
  lemma YearsAfterRemoval(a: seq<Row>, b: seq<Row>, j: nat)
    requires YearSorted(b)
    requires j < |b| && |a| == |b|
    requires a[0].year == b[0].year == b[j].year
    requires forall i :: 0 <= i < |a| - 1 ==> a[1..][i].year == (b[..j] + b[j+1..])[i].year
    ensures forall i :: 0 <= i < |a| ==> a[i].year == b[i].year
  {
    var b' := b[..j] + b[j+1..];
    forall i | 0 < i < |a| ensures a[i].year == b[i].year {
      assert a[i] == a[1..][i - 1];
      if i <= j {
        assert b'[i - 1] == b[i - 1];
        assert b[0].year <= b[i].year <= b[j].year;
      } else {
        assert b'[i - 1] == b[i];
      }
    }
  }

  /** Although ties may come out in any order, the sequence of years along
      a sorted result is fully determined by the rows it holds. */
  lemma {:induction false} SortedYearsDetermined(a: seq<Row>, b: seq<Row>)
    requires YearSorted(a) && YearSorted(b)
    requires multiset(a) == multiset(b)
    ensures |a| == |b|
    ensures forall i :: 0 <= i < |a| ==> a[i].year == b[i].year
    decreases |a|
  {
    assert |a| == |multiset(a)| == |multiset(b)| == |b|;
    if a != [] {
      // Both heads carry the smallest year.
      assert a[0] in multiset(a) && b[0] in multiset(b);
      HeadHasSmallestYear(b, a[0]);
      HeadHasSmallestYear(a, b[0]);
      assert a[0] in b;
      var j :| 0 <= j < |b| && b[j] == a[0];
      // Remove a[0] from b at j and compare the rest.
      var b' := b[..j] + b[j+1..];
      RemoveOne(b, j);
      RemoveOne(a, 0);
      RemoveKeepsSorted(b, j);
      assert multiset(b') == multiset(a[1..]);
      SortedYearsDetermined(a[1..], b');
      YearsAfterRemoval(a, b, j);
    }
  }
}
