/** The edges of the input polygons and the pointwise geometry the sweep asks of them. */
module Edges {
  import opened ClipTypes
  import opened Winding

  /** The slope recorded for an edge that runs along a scanline. */
  const HORIZONTAL: real := -10000000000000000000000000000000000000000.0

  /**
   An edge of an input polygon. Its geometry, its polygon type and its successor in the bound
   are settled before the sweep begins and do not change while it runs. `Curr` is where the
   sweep has met it last; `WindCnt` counts its own polygon type, `WindCnt2` the other one, and
   `OutIdx` and `Side` say which end of which output polygon it builds.
   */
  class TEdge {
    const Bot: IntPoint
    const Top: IntPoint
    const Dx: real
    const PolyTyp: PolyType
    const NextInLML: TEdge?
    var Curr: IntPoint
    var Side: EdgeSide
    var WindDelta: int
    var WindCnt: int
    var WindCnt2: int
    var OutIdx: int
    var NextInAEL: TEdge?
    var PrevInAEL: TEdge?
    var NextInSEL: TEdge?
    var PrevInSEL: TEdge?

    constructor (bot: IntPoint, top: IntPoint, dx: real, polyTyp: PolyType, windDelta: int, nextInLML: TEdge?)
      ensures Bot == bot && Top == top && Dx == dx && PolyTyp == polyTyp && NextInLML == nextInLML
      ensures Curr == bot && WindDelta == windDelta && OutIdx == UNASSIGNED
      ensures NextInAEL == PrevInAEL == NextInSEL == PrevInSEL == null
    {
      Bot, Top, Dx, PolyTyp, NextInLML := bot, top, dx, polyTyp, nextInLML;
      Curr, Side, WindDelta, WindCnt, WindCnt2, OutIdx := bot, EsLeft, windDelta, 0, 0, UNASSIGNED;
      NextInAEL, PrevInAEL, NextInSEL, PrevInSEL := null, null, null, null;
    }

    /** What this edge shows to the winding counts. */
    function View(): EdgeView
      reads this`WindDelta, this`WindCnt, this`WindCnt2, this`OutIdx, this`Side
    {
      EdgeView(PolyTyp, WindDelta, WindCnt, WindCnt2, OutIdx, Side)
    }
  }

  ghost function Views(s: seq<TEdge>): (v: seq<EdgeView>)
    reads s`WindDelta, s`WindCnt, s`WindCnt2, s`OutIdx, s`Side
    ensures |v| == |s|
    ensures forall i :: 0 <= i < |s| ==> v[i] == s[i].View()
  {
    if s == [] then [] else Views(s[..|s| - 1]) + [s[|s| - 1].View()]
  }

  /** The edges stand in ascending order of their current X. */
  ghost predicate SortedByX(s: seq<TEdge>)
    reads s`Curr
  {
    forall i, j :: 0 <= i < j < |s| ==> s[i].Curr.X <= s[j].Curr.X
  }

  predicate IsHorizontal(e: TEdge)
  {
    e.Dx == HORIZONTAL
  }

  /** Of two edges that rise from one point, `l` stands to the left of `r` above it, or they rise along one line. */
  predicate LeftAbove(lBot: IntPoint, lTop: IntPoint, rBot: IntPoint, rTop: IntPoint) {
    (lTop.X - lBot.X) * (rBot.Y - rTop.Y) <= (rTop.X - rBot.X) * (lBot.Y - lTop.Y)
  }

  /** The edge that goes farther to the right downwards stands farther to the left upwards. */
  lemma LargerSlopeIsLeft(a: real, b: real, lBot: IntPoint, lTop: IntPoint, rBot: IntPoint, rTop: IntPoint)
    requires lTop.Y < lBot.Y && rTop.Y < rBot.Y && a >= b
    requires a * (lBot.Y - lTop.Y) as real == (lBot.X - lTop.X) as real && b * (rBot.Y - rTop.Y) as real == (rBot.X - rTop.X) as real
    ensures LeftAbove(lBot, lTop, rBot, rTop)
  {
    SlopesCompare(a, b, lBot.X - lTop.X, lBot.Y - lTop.Y, rBot.X - rTop.X, rBot.Y - rTop.Y);
    Turned(lBot.X - lTop.X, rBot.Y - rTop.Y);
    Turned(rBot.X - rTop.X, lBot.Y - lTop.Y);
  }

  /** Slopes are compared by cross products. */
  lemma SlopesCompare(a: real, b: real, x: int, h: int, y: int, k: int)
    requires h > 0 && k > 0 && a * h as real == x as real && b * k as real == y as real && a >= b
    ensures x * k >= y * h
  {
    var p := h as real * k as real;
    assert p > 0.0;
    assert (x * k) as real == x as real * k as real == a * p;
    assert (y * h) as real == y as real * h as real == b * p;
    assert (a - b) * p >= 0.0;
  }

  lemma Turned(x: int, h: int)
    ensures -x * h == -(x * h)
  {
  }

  /** The slope on record is that of the line from the lower to the upper end. */
  predicate Sloped(e: TEdge) {
    e.Top.Y < e.Bot.Y && e.Dx * (e.Bot.Y - e.Top.Y) as real == (e.Bot.X - e.Top.X) as real
  }

  /** Where an edge meets a scanline: the source computes it in floating point, and here it may be any function. */
  type ScanlineX = (TEdge, int) -> int

  predicate E2InsertsBeforeE1(topX: ScanlineX, e1: TEdge, e2: TEdge)
    reads e1`Curr, e2`Curr
  {
    if e2.Curr.X == e1.Curr.X then
      if e2.Top.Y > e1.Top.Y then e2.Top.X < topX(e1, e2.Top.Y) else e1.Top.X > topX(e2, e1.Top.Y)
    else
      e2.Curr.X < e1.Curr.X
  }
}
