/** The fixed category-to-color map and its application to the active
    points (`filtered_df['Type'].map(color_map)`). */
module Colors {
  import opened Wrappers
  import opened Table

  /** A color as the hexadecimal text handed to the renderer. */
  type Color = string

  /** The categories the map knows, in the order they are listed. */
  const Categories: seq<string> :=
    ["Exhibition", "Festival", "Initiative", "Film festival", "Multimedia", "Talk", "Film"]

  /** The category-to-color map. */
  const ColorMap: map<string, Color> := map[
    "Exhibition" := "#003f5c",
    "Festival" := "#374c80",
    "Initiative" := "#7a5195",
    "Film festival" := "#bc5090",
    "Multimedia" := "#ef5675",
    "Talk" := "#ff764a",
    "Film" := "#ffa600"
  ]

  /** The color of one category: missing for a category the map lacks. */
  function LookupColor(kind: string): Option<Color> {
    if kind in ColorMap then Some(ColorMap[kind]) else None
  }

  /** One color per row, position by position; an unknown `Type` yields a
      missing entry rather than an error. */
  function PointColors(rows: seq<Row>): (c: seq<Option<Color>>)
    ensures |c| == |rows|
    ensures forall i :: 0 <= i < |rows| ==> (c[i].Some? <==> rows[i].kind in Categories)
    ensures forall i :: 0 <= i < |rows| && c[i].Some? ==> c[i].value == ColorMap[rows[i].kind]
    decreases |rows|
  {
    if rows == [] then []
    else [LookupColor(rows[0].kind)] + PointColors(rows[1..])
  }

  /** The map covers exactly the listed categories, and no two of them
      share a color. */
  lemma ColorMapShape()
    ensures ColorMap.Keys == set k | k in Categories
    ensures forall a, b :: a in ColorMap && b in ColorMap && a != b ==> ColorMap[a] != ColorMap[b]
  {
  }
}
