/** The bar chart of `DeploymentChart.js`: three bars (success, in progress,
    failed) whose heights are the statuses' shares of the plot height, over
    five horizontal grid lines, with a name under each bar and its count above
    it. The canvas calls are modelled as a list of draw commands, each carrying
    the fill or stroke style and font in force when it is issued. Coordinates
    are exact rationals. */
module Chart {
  import opened Strings
  import opened Deployments

  datatype Rect = Rect(x: real, y: real, w: real, h: real)

  datatype DrawCommand =
    | ClearRect(area: Rect)
    | FillRect(fillStyle: string, area: Rect)
    /** `beginPath(); moveTo(x0, y0); lineTo(x1, y1); stroke()`. */
    | StrokeLine(strokeStyle: string, lineWidth: real, x0: real, y0: real, x1: real, y1: real)
    /** `fillText(text, x, y)` with `textAlign = 'center'`. */
    | FillText(fillStyle: string, font: string, text: string, x: real, y: real)

  const BarWidth: real := 60.0
  const Spacing: real := 40.0

  // ---------------------------------------------------------------------------
  // Data
  // ---------------------------------------------------------------------------

  /** The count drawn by bar `k`: successes, then in progress, then failures. */
  function BarCount(ds: seq<Deployment>, k: nat): nat
    requires k < 3
  {
    if k == 0 then Count(ds, "success")
    else if k == 1 then Count(ds, "in_progress")
    else Count(ds, "failed")
  }

  /** The chart's total: the records with one of the three statuses. */
  function Total(ds: seq<Deployment>): nat
  {
    BarCount(ds, 0) + BarCount(ds, 1) + BarCount(ds, 2)
  }

  /** A bar's share of the total, 0 when nothing is counted. */
  function Ratio(c: nat, total: nat): (r: real)
    requires c <= total
    ensures 0.0 <= r <= 1.0
    ensures total == 0 ==> r == 0.0
    ensures c == total > 0 ==> r == 1.0
  {
    if total > 0 then c as real / total as real else 0.0
  }

  // ---------------------------------------------------------------------------
  // Geometry
  // ---------------------------------------------------------------------------

  /** The left edge of the first bar: the three bars and two gaps centred. */
  function StartX(width: real): real
  {
    (width - (BarWidth * 3.0 + Spacing * 2.0)) / 2.0
  }

  /** The left edge of bar `k`. */
  function BarLeft(width: real, k: nat): real
    requires k < 3
  {
    StartX(width) + (BarWidth + Spacing) * k as real
  }

  /** The height of bar `k`: its share of the plot height `height - 60`. */
  function BarHeight(ds: seq<Deployment>, height: real, k: nat): real
    requires k < 3
  {
    (height - 60.0) * Ratio(BarCount(ds, k), Total(ds))
  }

  /** The rectangle of bar `k`, standing on the line `height - 30`. */
  function BarRect(ds: seq<Deployment>, width: real, height: real, k: nat): Rect
    requires k < 3
  {
    var h := BarHeight(ds, height, k);
    Rect(BarLeft(width, k), height - 30.0 - h, BarWidth, h)
  }

  /** The y coordinate of grid line `i`: five lines from 30 to `height - 30`. */
  function GridY(height: real, i: nat): real
  {
    30.0 + i as real * (height - 60.0) / 4.0
  }

  function BarColor(k: nat): string
  {
    if k == 0 then "#10B981" else if k == 1 then "#F59E0B" else "#EF4444"
  }

  function BarName(k: nat): string
  {
    if k == 0 then "Success" else if k == 1 then "In Progress" else "Failed"
  }

  // ---------------------------------------------------------------------------
  // Draw commands
  // ---------------------------------------------------------------------------

  /** Clearing the canvas and painting its background. */
  function Background(width: real, height: real): seq<DrawCommand>
  {
    [ClearRect(Rect(0.0, 0.0, width, height)), FillRect("#1f2937", Rect(0.0, 0.0, width, height))]
  }

  function GridLine(width: real, height: real, i: nat): DrawCommand
  {
    StrokeLine("#374151", 1.0, 40.0, GridY(height, i), width - 20.0, GridY(height, i))
  }

  /** The bars, in the order success, in progress, failed. */
  function Bars(ds: seq<Deployment>, width: real, height: real): (r: seq<DrawCommand>)
    ensures |r| == 3
    ensures forall k :: 0 <= k < 3 ==>
              r[k].FillRect? && r[k].area.w == BarWidth && r[k].area.y + r[k].area.h == height - 30.0
    ensures r[0].fillStyle == "#10B981" && r[1].fillStyle == "#F59E0B" && r[2].fillStyle == "#EF4444"
  {
    seq(3, k requires 0 <= k < 3 => FillRect(BarColor(k), BarRect(ds, width, height, k)))
  }

  /** The names under the bars, centred on them, 10 above the canvas bottom. */
  function Names(width: real, height: real): (r: seq<DrawCommand>)
    ensures |r| == 3
    ensures forall k :: 0 <= k < 3 ==> r[k].FillText? && r[k].y == height - 10.0
    ensures r[0].text == "Success" && r[1].text == "In Progress" && r[2].text == "Failed"
    ensures r[1].x - r[0].x == BarWidth + Spacing && r[2].x - r[1].x == BarWidth + Spacing
  {
    seq(3, k requires 0 <= k < 3 =>
      FillText("#D1D5DB", "12px sans-serif", BarName(k), BarLeft(width, k) + BarWidth / 2.0, height - 10.0))
  }

  /** The counts above the bars, centred on them, 10 above each bar's top. */
  function Values(ds: seq<Deployment>, width: real, height: real): (r: seq<DrawCommand>)
    ensures |r| == 3
    ensures forall k :: 0 <= k < 3 ==>
              r[k].FillText? && r[k].text == NatToString(BarCount(ds, k))
              && r[k].y == BarRect(ds, width, height, k).y - 10.0
  {
    seq(3, k requires 0 <= k < 3 =>
      FillText("#FFFFFF", "14px sans-serif", NatToString(BarCount(ds, k)),
               BarLeft(width, k) + BarWidth / 2.0, height - 40.0 - BarHeight(ds, height, k)))
  }

  /** The effect of `DeploymentChart`: nothing without a canvas or without
      records; otherwise the background, five grid lines drawn in a loop, the
      bars, the names and the counts. */
  method Render(canvasPresent: bool, ds: seq<Deployment>, width: real, height: real)
    returns (cmds: seq<DrawCommand>)
    ensures !canvasPresent || ds == [] ==> cmds == []
    ensures canvasPresent && ds != [] ==>
      && |cmds| == 16
      && cmds[..2] == Background(width, height)
      && (forall i :: 0 <= i < 5 ==> cmds[2 + i] == GridLine(width, height, i))
      && cmds[7..10] == Bars(ds, width, height)
      && cmds[10..13] == Names(width, height)
      && cmds[13..] == Values(ds, width, height)
  {
    if !canvasPresent || |ds| == 0 {
      return [];
    }
    cmds := Background(width, height);
    for i := 0 to 5
      invariant |cmds| == 2 + i
      invariant cmds[..2] == Background(width, height)
      invariant forall j :: 0 <= j < i ==> cmds[2 + j] == GridLine(width, height, j)
    {
      cmds := cmds + [GridLine(width, height, i)];
    }
    var before := cmds;
    cmds := cmds + Bars(ds, width, height) + Names(width, height) + Values(ds, width, height);
    assert cmds[..7] == before;
  }

  // ---------------------------------------------------------------------------
  // Properties of the geometry
  // ---------------------------------------------------------------------------

  /** With nothing counted every bar is flat. */
  lemma FlatBarsWithoutTotal(ds: seq<Deployment>, height: real, k: nat)
    requires k < 3 && Total(ds) == 0
    ensures BarHeight(ds, height, k) == 0.0
  {
  }

  /** With something counted the three bars together fill the plot height. */
  lemma BarHeightsFillPlot(ds: seq<Deployment>, height: real)
    requires Total(ds) > 0
    ensures BarHeight(ds, height, 0) + BarHeight(ds, height, 1) + BarHeight(ds, height, 2) == height - 60.0
  {
    var a, b, c := BarCount(ds, 0), BarCount(ds, 1), BarCount(ds, 2);
    var t := Total(ds);
    RatiosSumToOne(a, b, c);
    SharesFill(height - 60.0, Ratio(a, t), Ratio(b, t), Ratio(c, t));
  }

  /** Shares adding up to one, of the same height, add up to that height. */
  lemma SharesFill(p: real, r0: real, r1: real, r2: real)
    requires r0 + r1 + r2 == 1.0
    ensures p * r0 + p * r1 + p * r2 == p
  {
    assert p * r0 + p * r1 + p * r2 == p * (r0 + r1 + r2);
  }

  /** The three shares of a positive total add up to one. */
  lemma RatiosSumToOne(a: nat, b: nat, c: nat)
    requires a + b + c > 0
    ensures Ratio(a, a + b + c) + Ratio(b, a + b + c) + Ratio(c, a + b + c) == 1.0
  {
    var t := (a + b + c) as real;
    assert a as real / t + b as real / t == (a as real + b as real) / t;
    assert (a as real + b as real) / t + c as real / t == t / t;
  }

  /** Every bar stands on the line `height - 30`; when the canvas is at least
      60 high its top is at least 30, so the bar stays inside the plot. */
  lemma BarsInsidePlot(ds: seq<Deployment>, width: real, height: real, k: nat)
    requires k < 3
    ensures var r := BarRect(ds, width, height, k);
            r.y + r.h == height - 30.0 && r.w == BarWidth
    ensures height >= 60.0 ==>
            var r := BarRect(ds, width, height, k);
            30.0 <= r.y <= height - 30.0 && r.h >= 0.0
  {
    var ratio := Ratio(BarCount(ds, k), Total(ds));
    var p := height - 60.0;
    assert BarHeight(ds, height, k) == p * ratio;
    if p >= 0.0 {
      assert p * ratio <= p * 1.0 by {
        assert p * 1.0 - p * ratio == p * (1.0 - ratio);
      }
      assert p * ratio >= 0.0;
    }
  }

  /** The bars are 60 wide, 40 apart, and centred: the margin left of the
      first equals the margin right of the last. */
  lemma BarsCentredApart(width: real, k: nat)
    requires k < 2
    ensures BarLeft(width, k + 1) - (BarLeft(width, k) + BarWidth) == Spacing
    ensures BarLeft(width, 0) == width - (BarLeft(width, 2) + BarWidth)
  {
  }

  /** The five grid lines run from x 40 to `width - 20`, the first at 30 and
      the last at `height - 30`, a quarter of the plot height apart. */
  lemma GridLinesEvenlySpaced(width: real, height: real, i: nat)
    requires i < 4
    ensures GridY(height, 0) == 30.0 && GridY(height, 4) == height - 30.0
    ensures GridY(height, i + 1) - GridY(height, i) == (height - 60.0) / 4.0
    ensures GridLine(width, height, i).x0 == 40.0 && GridLine(width, height, i).x1 == width - 20.0
  {
    assert (i + 1) as real * (height - 60.0) / 4.0 == i as real * (height - 60.0) / 4.0 + (height - 60.0) / 4.0;
  }

  /** Each count is centred on its bar and 10 above the bar's top; each name is
      centred on its bar and 20 below the bar's bottom. */
  lemma LabelsCentredOnBars(ds: seq<Deployment>, width: real, height: real, k: nat)
    requires k < 3
    ensures var r := BarRect(ds, width, height, k);
            var v := Values(ds, width, height)[k];
            v.x == r.x + r.w / 2.0 && v.y == r.y - 10.0 && v.text == NatToString(BarCount(ds, k))
    ensures var r := BarRect(ds, width, height, k);
            var n := Names(width, height)[k];
            n.x == r.x + r.w / 2.0 && n.y == r.y + r.h + 20.0
  {
    var r := BarRect(ds, width, height, k);
    assert r.y + r.h == height - 30.0;
    assert Names(width, height)[k].y == height - 10.0;
  }
}
