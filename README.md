# Year-by-year frames of an animated 3D scatter plot

This project models the frame builder of a small Streamlit app (`test.py`).
The app reads a spreadsheet of items. Each item has a `Title`, a `Type`, a
`Year`, an `End year` and a position on three conceptual axes. For every year
in `range(2008, 2024)` it builds one Plotly animation frame with two traces:

- a black polyline through every item whose `Year` is at most that year,
  ordered by `Year` (the *line view*);
- a marker for every item active that year, `Year <= year <= End year`
  (the *active view*), colored by its `Type` through a fixed color map and
  with its `Title` as hover text.

Each frame is named `str(year)`. A year slider has one step per year of the
same range, pointing at the frame of that name.

Modules:

- `Table` (table.dfy): the row record and the three per-row tests behind the masks.
- `Selection` (selection.dfy): boolean-mask indexing `df[mask]`, with `Positions` as the reference for which rows are kept and in what order.
- `Sorting` (sorting.dfy): ordering rows by `Year`.
- `Views` (views.dfy): the active view and the line view of one year, and their properties.
- `Colors` (colors.dfy): the color map and `Series.map` over the active rows.
- `Decimal` (decimal.dfy): `str` of a non-negative integer and reading it back.
- `Frames` (frames.dfy): one frame, the frame loop, the slider steps, and properties across frames.
- `Wrappers` (wrappers.dfy): `Option`, whose `None` is pandas' missing value.

Where the design description and the code differ, the model follows the code:

- The description says an unknown `Type` aborts the run with a lookup error. In the code, `Series.map(dict)` yields a missing value (NaN) for an unknown key and nothing is raised. The model returns `None` for that row's color.
- The description says the line view is stable-sorted, with ties kept in table order. The code calls `sort_values(by='Year')`, whose default algorithm (quicksort) is not stable. The model therefore promises only that the line view is ordered by `Year` and holds the same rows. It proves that the sequence of years along the line is fixed anyway (`Sorting.SortedYearsDetermined`).
- The description requires `End year >= Year` for every row. The code does not check this, so the model admits any row. `Views.EmptyPeriodRow` states what happens to a row whose end year comes before its start year.

## Model

| member | source | states |
|---|---|---|
| Selection.Select | test.py:37 | `df[mask]` keeps at most the table's rows and never adds a row: the result is a sub-multiset of the table |
| Selection.Positions | test.py:37 | the indices at which a mask is true, strictly ascending and within bounds, holding index i exactly when mask entry i is true |
| Selection.SelectAtPositions | test.py:37 | the k-th selected row is the table row at the k-th true position of the mask, so masking keeps the original relative order |
| Selection.SelectCount | test.py:37-40 | when the mask tests a per-row property, a row occurs in the selection exactly as often as in the table if it has the property, and never otherwise |
| Sorting.SortByYear | test.py:40 | the sorted rows have non-decreasing `Year` and are a permutation of the input |
| Sorting.SortedYearsDetermined | test.py:40 | any two year-ordered permutations of the same rows have the same length and the same `Year` at every position; only rows sharing a year can differ in order |
| Views.LineView | test.py:40 | the line view is ordered by `Year` and is a permutation of the rows with `Year <= year` |
| Views.ActiveViewKeepsOrder | test.py:37 | the active view is the table rows at the ascending positions where `Year <= year <= End year`, in table order |
| Views.ActiveViewCount | test.py:37 | a row occurs in the active view as often as in the table when it is active in that year, and never otherwise |
| Views.LineViewCount | test.py:40 | a row occurs in the line view as often as in the table when its `Year` is at most that year, and never otherwise |
| Views.ActiveViewMembers | test.py:37 | a row is in the active view if and only if it is in the table and `Year <= year <= End year` |
| Views.LineViewMembers | test.py:40 | a row is in the line view if and only if it is in the table and `Year <= year` |
| Views.LineGrows | test.py:35-40 | for an earlier year the line view is a sub-multiset of the line view for a later year |
| Views.ActiveWithinLine | test.py:37-40 | in every year the active view is a sub-multiset of the line view |
| Views.EmptyPeriodRow | test.py:37-40 | a row whose `End year` precedes its `Year` is in no active view, but it is in the line view of every year from its `Year` on |
| Colors.PointColors | test.py:16-24 | one color entry per active row; it is present exactly when the row's `Type` is one of the seven listed categories, and then it is that category's color |
| Colors.ColorMapShape | test.py:16-24 | the color map's keys are exactly the seven categories, and no two categories share a color |
| Decimal.DecimalString | test.py:64 | `str(n)` is non-empty, all decimal digits, with no leading zero unless n is 0 |
| Decimal.ParseDecimalString | test.py:64 | reading `str(n)` back as a decimal number gives n, so a frame name identifies its year |
| Frames.FrameLineTrace | test.py:49-64 | a frame is named `str(year)`, and its line x, y and z lists have the line view's length and hold the coordinates of its rows, vertex by vertex |
| Frames.FramePointTrace | test.py:43-61 | a frame's marker x, y, z, color and hover lists have the active view's length; entry i holds active row i's coordinates, the color lookup of its `Type` and its `Title` |
| Frames.BuildFrames | test.py:34-46 | the loop yields 16 frames, the k-th being the frame for year 2008 + k |
| Frames.FrameNames | test.py:35-64 | the 16 frame names are four-digit texts that read back as 2008 to 2023, strictly ascending, with no gap and no repeat |
| Frames.SliderMatchesFrames | test.py:92-96 | there are as many slider steps as frames, and step k jumps to frame k and is labelled with frame k's name |
| Frames.ActiveRowOnLine | test.py:37-40 | every row of the active view is found at some position of the same year's line view |
| Frames.ActivePointsOnLine | test.py:46-62 | every marker of a frame lies on a vertex of the same frame's line |
| Frames.FrameLineGrows | test.py:35-54 | a later frame's line has at least as many vertices as an earlier frame's |
| Frames.SingleTalkExample | test.py:35-65 | for one Talk row active from 2010 to 2012: both views are empty in 2009; both hold the row in 2011; in 2013 only the line holds it |

## Left out

- The page shell is not modelled: the title, the file uploader, the fallback message and `st.plotly_chart` (test.py:6, 9, 101, 104). They are user-interface calls.
- `pd.read_excel` (test.py:13) is not modelled. The model starts from an already-parsed table, so the parse failure of a non-spreadsheet upload is not modelled either.
- Plotly configuration is not modelled: the empty initial traces, marker sizes, line color and width, hover settings, axis ranges and titles, cube aspect, Play/Pause buttons, the 500 ms frame duration and the slider's animate arguments other than the frame name (test.py:27-31, 49-62, 68-98). They are settings handed to the external renderer.
- Coordinates are an opaque type. The app only copies them, so floating point is never involved.
- Empty spreadsheet cells are not modelled. `Year` and `End year` are whole numbers in the model, so pandas' rule that a comparison with a missing value is false never arises.
- Views.LineView: it promises no order among rows that share a `Year`. The library's default sort is not stable. The model's own insertion sort happens to keep table order, but no member depends on that.
- Frames.FramePointTrace: a missing color is modelled as `None`. How the renderer draws such a marker is outside the model.
