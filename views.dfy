/** The two per-year views of the table that one animation frame is built
    from: the active points and the cumulative line. */
module Views {
  import opened Table
  import opened Selection
  import opened Sorting

  /** `df['Year'] <= year`, one entry per row. */
  function StartedMask(t: seq<Row>, year: int): seq<bool> {
    seq(|t|, i requires 0 <= i < |t| => HasStarted(t[i], year))
  }

  /** `df['End year'] >= year`, one entry per row. */
  function NotEndedMask(t: seq<Row>, year: int): seq<bool> {
    seq(|t|, i requires 0 <= i < |t| => NotEnded(t[i], year))
  }

  /** Element-wise `&` of two boolean Series of the same length. */
  function And(a: seq<bool>, b: seq<bool>): seq<bool>
    requires |a| == |b|
  {
    seq(|a|, i requires 0 <= i < |a| => a[i] && b[i])
  }

  /** The mask of line 37: `(Year <= year) & (End year >= year)`. */
  function ActiveMask(t: seq<Row>, year: int): seq<bool> {
    And(StartedMask(t, year), NotEndedMask(t, year))
  }

  /** The active-point view: rows active in `year`, in table order. */
  function ActiveView(t: seq<Row>, year: int): seq<Row> {
    Select(t, ActiveMask(t, year))
  }

  /** The line view: rows started by `year`, ordered by year. */
  function LineView(t: seq<Row>, year: int): (v: seq<Row>)
    ensures YearSorted(v)
    ensures multiset(v) == multiset(Select(t, StartedMask(t, year)))
  {
    SortByYear(Select(t, StartedMask(t, year)))
  }

  /** The active view occurs in the table exactly where the mask is true:
      its k-th row is the table row at the k-th active position, and the
      positions ascend, so the original relative order is kept. */
  lemma ActiveViewKeepsOrder(t: seq<Row>, year: int)
    ensures var p := Positions(ActiveMask(t, year));
      && |ActiveView(t, year)| == |p|
      && (forall k :: 0 <= k < |p| ==> p[k] < |t| && ActiveView(t, year)[k] == t[p[k]])
      && (forall k, l :: 0 <= k < l < |p| ==> p[k] < p[l])
      && (forall i :: 0 <= i < |t| ==> (i in p <==> IsActive(t[i], year)))
  {
    SelectAtPositions(t, ActiveMask(t, year));
  }

  /** Each row occurs in the active view as often as in the table when it
      is active in `year`, and not at all otherwise. */
  lemma ActiveViewCount(t: seq<Row>, year: int, r: Row)
    ensures multiset(ActiveView(t, year))[r] == if IsActive(r, year) then multiset(t)[r] else 0
  {
    SelectCount(t, ActiveMask(t, year), q => IsActive(q, year), r);
  }

  /** Each row occurs in the line view as often as in the table when its
      year is at most `year`, and not at all otherwise. */
  lemma LineViewCount(t: seq<Row>, year: int, r: Row)
    ensures multiset(LineView(t, year))[r] == if HasStarted(r, year) then multiset(t)[r] else 0
  {
    SelectCount(t, StartedMask(t, year), q => HasStarted(q, year), r);
  }

  /** A row is in the active view exactly when it is in the table and
      `Year <= year <= End year`. */
  lemma ActiveViewMembers(t: seq<Row>, year: int, r: Row)
    ensures r in ActiveView(t, year) <==> r in t && IsActive(r, year)
  {
    ActiveViewCount(t, year, r);
    assert r in ActiveView(t, year) <==> r in multiset(ActiveView(t, year));
    assert r in t <==> r in multiset(t);
  }

  /** A row is on the line exactly when it is in the table and
      `Year <= year`. */
  lemma LineViewMembers(t: seq<Row>, year: int, r: Row)
    ensures r in LineView(t, year) <==> r in t && HasStarted(r, year)
  {
    LineViewCount(t, year, r);
    assert r in LineView(t, year) <==> r in multiset(LineView(t, year));
    assert r in t <==> r in multiset(t);
  }

  /** The line only grows: for an earlier year it is a sub-multiset of the
      line for a later year. */
  lemma LineGrows(t: seq<Row>, y1: int, y2: int)
    requires y1 <= y2
    ensures multiset(LineView(t, y1)) <= multiset(LineView(t, y2))
  {
    forall r ensures multiset(LineView(t, y1))[r] <= multiset(LineView(t, y2))[r] {
      LineViewCount(t, y1, r);
      LineViewCount(t, y2, r);
    }
  }

  /** Every active row of a year is also on that year's line. */
  lemma ActiveWithinLine(t: seq<Row>, year: int)
    ensures multiset(ActiveView(t, year)) <= multiset(LineView(t, year))
  {
    forall r ensures multiset(ActiveView(t, year))[r] <= multiset(LineView(t, year))[r] {
      ActiveViewCount(t, year, r);
      LineViewCount(t, year, r);
    }
  }

  /** A row whose end year precedes its start year is never active, yet it
      joins the line from its start year on. */
  lemma EmptyPeriodRow(t: seq<Row>, r: Row)
    requires r in t
    requires r.endYear < r.year
    ensures forall year :: r !in ActiveView(t, year)
    ensures forall year :: r.year <= year ==> r in LineView(t, year)
  {
    forall year ensures r !in ActiveView(t, year) {
      ActiveViewMembers(t, year, r);
    }
    forall year | r.year <= year ensures r in LineView(t, year) {
      LineViewMembers(t, year, r);
    }
  }

  /** A sub-multiset is no larger. */
  lemma {:induction false} SubMultisetSize<T>(m1: multiset<T>, m2: multiset<T>)
    requires m1 <= m2
    ensures |m1| <= |m2|
    decreases |m1|
  {
    if m1 != multiset{} {
      var v :| v in m1;
      SubMultisetSize(m1 - multiset{v}, m2 - multiset{v});
    }
  }
}
