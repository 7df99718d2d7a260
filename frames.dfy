/** The animation frames, one per year of `range(2008, 2024)`, and the
    year slider whose steps point at them. */
module Frames {
  import opened Wrappers
  import opened Table
  import opened Sorting
  import opened Views
  import opened Colors
  import opened Decimal

  /** First year of the animation. */
  const FirstYear: nat := 2008
  /** The exclusive end of the year range, as in `range(2008, 2024)`. */
  const StopYear: nat := 2024
  /** How many frames are built. */
  const FrameCount: nat := StopYear - FirstYear

  /** The polyline through the cumulative rows. */
  datatype LineTrace = LineTrace(x: seq<Coord>, y: seq<Coord>, z: seq<Coord>)

  /** The markers for the active rows, with their colors and hover text. */
  datatype PointTrace = PointTrace(
    x: seq<Coord>,
    y: seq<Coord>,
    z: seq<Coord>,
    colors: seq<Option<Color>>,
    hoverText: seq<string>)

  /** One named animation frame. */
  datatype Frame = Frame(line: LineTrace, points: PointTrace, name: string)

  /** One step of the year slider: the frame it jumps to and its label. */
  datatype SliderStep = SliderStep(frameName: string, stepLabel: string)

  /** `str(year)`. */
  function YearName(year: nat): string {
    DecimalString(year)
  }

  /** The column `conventional to conceptual`. */
  function Xs(rows: seq<Row>): seq<Coord> {
    seq(|rows|, i requires 0 <= i < |rows| => rows[i].x)
  }

  /** The column `confined to autonomous`. */
  function Ys(rows: seq<Row>): seq<Coord> {
    seq(|rows|, i requires 0 <= i < |rows| => rows[i].y)
  }

  /** The column `Peripheral to Immersive`. */
  function Zs(rows: seq<Row>): seq<Coord> {
    seq(|rows|, i requires 0 <= i < |rows| => rows[i].z)
  }

  /** The column `Title`. */
  function Titles(rows: seq<Row>): seq<string> {
    seq(|rows|, i requires 0 <= i < |rows| => rows[i].title)
  }

  /** The frame for one year: the line through the rows started by then,
      ordered by year, and a marker per row active that year. */
  function BuildFrame(t: seq<Row>, year: nat): Frame {
    var line := LineView(t, year);
    var active := ActiveView(t, year);
    Frame(
      LineTrace(Xs(line), Ys(line), Zs(line)),
      PointTrace(Xs(active), Ys(active), Zs(active), PointColors(active), Titles(active)),
      YearName(year))
  }

  /** A frame is named after its year, and its line lists run parallel to
      the line view, vertex by vertex. */
  lemma FrameLineTrace(t: seq<Row>, year: nat)
    ensures BuildFrame(t, year).name == YearName(year)
    ensures var lt, line := BuildFrame(t, year).line, LineView(t, year);
      && |lt.x| == |line| && |lt.y| == |line| && |lt.z| == |line|
      && forall i :: 0 <= i < |line| ==>
           lt.x[i] == line[i].x && lt.y[i] == line[i].y && lt.z[i] == line[i].z
  {
  }

  /** A frame's marker lists run parallel to the active view: position,
      color lookup and hover title, entry by entry. */
  lemma FramePointTrace(t: seq<Row>, year: nat)
    ensures var pt, active := BuildFrame(t, year).points, ActiveView(t, year);
      && |pt.x| == |active| && |pt.y| == |active| && |pt.z| == |active|
      && |pt.colors| == |active| && |pt.hoverText| == |active|
      && forall i :: 0 <= i < |active| ==>
           && pt.x[i] == active[i].x && pt.y[i] == active[i].y && pt.z[i] == active[i].z
           && pt.colors[i] == LookupColor(active[i].kind) && pt.hoverText[i] == active[i].title
  {
  }

  /** The frames for every year of the range, in year order. */
  function FrameSequence(t: seq<Row>): seq<Frame> {
    seq(FrameCount, k requires 0 <= k < FrameCount => BuildFrame(t, FirstYear + k))
  }

  /** The loop of the frame builder: append one frame per year. */
  method BuildFrames(t: seq<Row>) returns (frames: seq<Frame>)
    ensures |frames| == FrameCount
    ensures frames == FrameSequence(t)
  {
    frames := [];
    for year := FirstYear to StopYear
      invariant frames == FrameSequence(t)[..year - FirstYear]
    {
      frames := frames + [BuildFrame(t, year)];
    }
  }

  /** The slider steps, one per year of the same range. */
  function SliderSteps(): seq<SliderStep> {
    seq(FrameCount, k requires 0 <= k < FrameCount =>
      SliderStep(YearName(FirstYear + k), YearName(FirstYear + k)))
  }

  /** Exactly 16 frames, named by four-digit years that read back as
      2008, 2009, ..., 2023: strictly ascending, without gaps or repeats. */
  lemma FrameNames(t: seq<Row>)
    ensures |FrameSequence(t)| == 16
    ensures forall k :: 0 <= k < 16 ==>
      |FrameSequence(t)[k].name| == 4 && ParseDecimal(FrameSequence(t)[k].name) == 2008 + k
    ensures forall k, l :: 0 <= k < l < 16 ==>
      ParseDecimal(FrameSequence(t)[k].name) < ParseDecimal(FrameSequence(t)[l].name)
    ensures forall k, l :: 0 <= k < l < 16 ==> FrameSequence(t)[k].name != FrameSequence(t)[l].name
  {
    forall k | 0 <= k < 16
      ensures |FrameSequence(t)[k].name| == 4 && ParseDecimal(FrameSequence(t)[k].name) == 2008 + k
    {
      var f := BuildFrame(t, FirstYear + k);
      assert FrameSequence(t)[k] == f;
      FourDigits(2008 + k);
      ParseDecimalString(2008 + k);
    }
  }

  /** Slider step k jumps to frame k and is labelled with its name. */
  lemma SliderMatchesFrames(t: seq<Row>)
    ensures |SliderSteps()| == |FrameSequence(t)|
    ensures forall k :: 0 <= k < |SliderSteps()| ==>
      SliderSteps()[k].stepLabel == FrameSequence(t)[k].name
      && SliderSteps()[k].frameName == FrameSequence(t)[k].name
  {
    forall k | 0 <= k < |SliderSteps()|
      ensures SliderSteps()[k].stepLabel == FrameSequence(t)[k].name
      ensures SliderSteps()[k].frameName == FrameSequence(t)[k].name
    {
      var f := BuildFrame(t, FirstYear + k);
      assert FrameSequence(t)[k] == f;
    }
  }

  /** The i-th active row sits at some position j of the same year's line. */
  lemma ActiveRowOnLine(t: seq<Row>, year: nat, i: nat) returns (j: nat)
    requires i < |ActiveView(t, year)|
    ensures j < |LineView(t, year)| && LineView(t, year)[j] == ActiveView(t, year)[i]
  {
    var active, line := ActiveView(t, year), LineView(t, year);
    ActiveWithinLine(t, year);
    assert active[i] in multiset(active);
    assert active[i] in line;
    j :| 0 <= j < |line| && line[j] == active[i];
  }

  /** Every marker of a frame sits on a vertex of that frame's line. */
  lemma ActivePointsOnLine(t: seq<Row>, year: nat)
    ensures var f := BuildFrame(t, year);
      forall i :: 0 <= i < |f.points.x| ==>
        exists j :: 0 <= j < |f.line.x| &&
          f.line.x[j] == f.points.x[i] && f.line.y[j] == f.points.y[i] && f.line.z[j] == f.points.z[i]
  {
    var f := BuildFrame(t, year);
    var active, line := ActiveView(t, year), LineView(t, year);
    FrameLineTrace(t, year);
    FramePointTrace(t, year);
    forall i | 0 <= i < |f.points.x|
      ensures exists j :: (0 <= j < |f.line.x| &&
        f.line.x[j] == f.points.x[i] && f.line.y[j] == f.points.y[i] && f.line.z[j] == f.points.z[i])
    {
      var j := ActiveRowOnLine(t, year, i);
      assert f.line.x[j] == f.points.x[i];
    }
  }

  /** The line never loses vertices from one frame to a later one. */
  lemma FrameLineGrows(t: seq<Row>, k: nat, l: nat)
    requires k <= l < FrameCount
    ensures |FrameSequence(t)[k].line.x| <= |FrameSequence(t)[l].line.x|
  {
    var yk, yl := FirstYear + k, FirstYear + l;
    assert |FrameSequence(t)[k].line.x| == |LineView(t, yk)| by {
      assert FrameSequence(t)[k] == BuildFrame(t, yk);
    }
    assert |FrameSequence(t)[l].line.x| == |LineView(t, yl)| by {
      assert FrameSequence(t)[l] == BuildFrame(t, yl);
    }
    LineGrows(t, yk, yl);
    SubMultisetSize(multiset(LineView(t, yk)), multiset(LineView(t, yl)));
  }

  /** One row of type Talk active from 2010 to 2012: no geometry before
      2010, one marker and one vertex from 2010 to 2012, and afterwards the
      vertex stays while the marker is gone. */
  lemma SingleTalkExample(x: Coord, y: Coord, z: Coord)
    ensures var t := [Row("A", "Talk", 2010, 2012, x, y, z)];
      && ActiveView(t, 2009) == [] && LineView(t, 2009) == []
      && ActiveView(t, 2011) == t && LineView(t, 2011) == t
      && ActiveView(t, 2013) == [] && LineView(t, 2013) == t
  {
    var t := [Row("A", "Talk", 2010, 2012, x, y, z)];
    assert t[..0] == [];
  }
}
