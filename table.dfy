/** The in-memory table read from the uploaded spreadsheet: an ordered
    sequence of rows. */
module Table {
  /** A coordinate on one of the three conceptual axes. The frame builder
      only copies coordinates into traces, so they stay opaque. */
  type Coord(==)

  /** One spreadsheet record: the columns `Title`, `Type`, `Year`,
      `End year`, `conventional to conceptual` (x), `confined to autonomous` (y)
      and `Peripheral to Immersive` (z). */
  datatype Row = Row(
    title: string,
    kind: string,
    year: int,
    endYear: int,
    x: Coord,
    y: Coord,
    z: Coord)

  /** The row's period has started by `year` (`df['Year'] <= year`). */
  predicate HasStarted(r: Row, year: int) {
    r.year <= year
  }

  /** The row's period has not ended before `year` (`df['End year'] >= year`). */
  predicate NotEnded(r: Row, year: int) {
    r.endYear >= year
  }

  /** The row is active in `year`: `Year <= year <= End year`. */
  predicate IsActive(r: Row, year: int) {
    HasStarted(r, year) && NotEnded(r, year)
  }
}
