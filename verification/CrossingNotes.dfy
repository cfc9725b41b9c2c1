/**
 What a crossing, and the end of two bounds, put out: which polygons get which point, and
 which polygons meet.
 */
module CrossingNotes {
  import opened ClipTypes
  import opened Sequences
  import opened Winding
  import opened Crossing
  import opened Edges
  import opened ActiveEdgeLists
  import opened SortedEdgeLists
  import opened OutPtRings
  import opened OutRecs
  import opened Ownership
  import opened RecordTotals
  import opened NotedJoins

  /** Ring `i2` has been appended to ring `i1` at the ends on these sides. */
  ghost predicate RingsJoined(rings: seq<seq<OutPt>>, rings': seq<seq<OutPt>>, i1: int, s1: EdgeSide, i2: int, s2: EdgeSide) {
    && 0 <= i1 < |rings| && 0 <= i2 < |rings|
    && rings' == rings[i1 := Appended(rings[i1], s1, rings[i2], s2)][i2 := []]
  }

  /** The polygons that meet at these ends have been joined, the later one to the earlier; or it was one, and is closed. */
  ghost predicate PolygonsMet(rings: seq<seq<OutPt>>, rings': seq<seq<OutPt>>, i1: int, s1: EdgeSide, i2: int, s2: EdgeSide) {
    if i1 == i2 then rings' == rings
    else if i1 < i2 then RingsJoined(rings, rings', i1, s1, i2, s2)
    else RingsJoined(rings, rings', i2, s2, i1, s1)
  }

  /** The hierarchy after the polygons with these indices have met. */
  ghost predicate RanksMet(h: Hierarchy, h': Hierarchy, i1: int, i2: int, hole: nat) {
    if i1 == i2 then h' == h
    else 0 <= i1 && 0 <= i2 && if i1 < i2 then Ranked(h, h', i1, i2, hole) else Ranked(h, h', i2, i1, hole)
  }

  /** The polygon of the first of two edges has got the vertex `pt`, and then the two ends have met. */
  ghost predicate EndsMet(v1: EdgeView, v2: EdgeView, pt: IntPoint, n: Notes, mid: Notes, n': Notes, op: OutPt?) {
    && v1.outIdx >= 0 && VertexMarked(n, mid, v1.outIdx, v1.side, pt, op)
    && n'.joins == mid.joins && PolygonsMet(mid.rings, n'.rings, v1.outIdx, v1.side, v2.outIdx, v2.side)
  }

  /** What two edges build ends at `pt`, if they build anything. */
  ghost predicate PairEnded(v1: EdgeView, v2: EdgeView, pt: IntPoint, n: Notes, mid: Notes, n': Notes, op: OutPt?) {
    if v1.outIdx >= 0 || v2.outIdx >= 0 then EndsMet(v1, v2, pt, n, mid, n', op) else n' == n
  }

  /**
   What a crossing has put out: the notes after its first point, the points, and for a new
   polygon whether it joins the one at `end`.
   */
  datatype CrossEvent = CrossEvent(mid: Notes, op1: OutPt?, op2: OutPt?, beside: bool, end: RingEnd)

  /** For each branch the points that polygons have got, all at `pt`, and what has become of the polygons. */
  ghost predicate CrossNoted(act: Action, v1: EdgeView, v2: EdgeView, pt: IntPoint, offPt: IntPoint, n: Notes, n': Notes, x: CrossEvent) {
    match act
    case LocalMax => EndsMet(v1, v2, pt, n, x.mid, n', x.op1)
    case LocalMin => x.op1 != null && x.op1.Pt == pt && MinimumStarted(x.beside, n, n', x.op1, x.end, pt, offPt)
    case SwapSidesOnly => n' == n
    case Nothing => n' == n
    case _ => VertexMarked(n, x.mid, v1.outIdx, v1.side, pt, x.op1) && VertexMarked(x.mid, n', v2.outIdx, v2.side, pt, x.op2)
  }

  /** What the two edges, seen as `v1` and `v2`, build after it. A new polygon is the one behind the `count` there were. */
  function Built(act: Action, firstIsFront: bool, v1: EdgeView, v2: EdgeView, count: nat): (EdgeView, EdgeView) {
    match act
    case LocalMax => (v1.(outIdx := UNASSIGNED), v2.(outIdx := UNASSIGNED))
    case LocalMin =>
      (v1.(outIdx := count, side := if firstIsFront then EsLeft else EsRight), v2.(outIdx := count, side := if firstIsFront then EsRight else EsLeft))
    case SwapSidesOnly => (v1.(side := v2.side), v2.(side := v1.side))
    case Nothing => (v1, v2)
    case _ => (v1.(outIdx := v2.outIdx, side := v2.side), v2.(outIdx := v1.outIdx, side := v1.side))
  }

  /** Views that differ in nothing but what is built, and in the side only where something is built. */
  predicate BuildsAs(v: EdgeView, w: EdgeView) {
    v == w.(side := v.side) && (w.outIdx >= 0 ==> v == w)
  }

  function ActionOf(rules: Rules, v1: EdgeView, v2: EdgeView): Action {
    var (a, b) := CrossCounts(rules, v1, v2);
    Decision(rules, a, b, v1.outIdx >= 0, v2.outIdx >= 0)
  }

  /** `e1`, seen as `v1`, has crossed `e2`, seen as `v2`, at `pt`; after that the two show `v1'` and `v2'`. */
  ghost predicate CrossedAs(rules: Rules, e1: TEdge, e2: TEdge, pt: IntPoint, v1: EdgeView, v2: EdgeView, v1': EdgeView, v2': EdgeView,
                          n: Notes, n': Notes, x: CrossEvent) {
    var (a, b) := CrossCounts(rules, v1, v2);
    && CrossNoted(ActionOf(rules, v1, v2), a, b, pt, Front(e1, e2).Top, n, n', x)
    && var (a', b') := Built(ActionOf(rules, v1, v2), Front(e1, e2) == e1, a, b, |n.rings|); BuildsAs(v1', a') && BuildsAs(v2', b')
  }

  /** The counts change as the crossing makes them, and the edges build something where the branch says so. */
  lemma CrossedShows(rules: Rules, e1: TEdge, e2: TEdge, pt: IntPoint, v1: EdgeView, v2: EdgeView, v1': EdgeView, v2': EdgeView,
                     n: Notes, n': Notes, x: CrossEvent)
    requires CrossedAs(rules, e1, e2, pt, v1, v2, v1', v2', n, n', x)
    ensures var (a, b) := CrossCounts(rules, v1, v2);
      && v1'.cnt == a.cnt && v1'.cnt2 == a.cnt2 && v2'.cnt == b.cnt && v2'.cnt2 == b.cnt2
      && (v1'.outIdx >= 0, v2'.outIdx >= 0)
         == OutAfter(Decision(rules, a, b, v1.outIdx >= 0, v2.outIdx >= 0), v1.outIdx >= 0, v2.outIdx >= 0)
    ensures GainedAmong(n.rings, n'.rings, {pt})
  {
    hide CrossNoted, GainedAmong;
    var (a, b) := CrossCounts(rules, v1, v2);
    CrossingGains(ActionOf(rules, v1, v2), a, b, pt, Front(e1, e2).Top, n, n', x);
  }

  // ---------------------------------------------------------------- where the points are

  /** Every point that the rings have gained is at one of these places. */
  ghost predicate GainedAmong(rings: seq<seq<OutPt>>, rings': seq<seq<OutPt>>, pts: set<IntPoint>) {
    forall p :: p in AllPoints(rings') && p !in AllPoints(rings) ==> p.Pt in pts
  }

  lemma SameGains(rings: seq<seq<OutPt>>, pts: set<IntPoint>)
    ensures GainedAmong(rings, rings, pts)
  {
  }

  lemma GainsTwice(rings: seq<seq<OutPt>>, rings': seq<seq<OutPt>>, rings'': seq<seq<OutPt>>, pts: set<IntPoint>)
    requires GainedAmong(rings, rings', pts) && GainedAmong(rings', rings'', pts)
    ensures GainedAmong(rings, rings'', pts)
  {
    hide AllPoints;
  }

  /** Whoever is among the points now was on a ring before or is `op`. */
  lemma Gained(rings: seq<seq<OutPt>>, rings': seq<seq<OutPt>>, op: OutPt, pt: IntPoint)
    requires op.Pt == pt && forall j, x :: 0 <= j < |rings'| && x in rings'[j] ==> x == op || exists i :: 0 <= i < |rings| && x in rings[i]
    ensures GainedAmong(rings, rings', {pt})
  {
    forall p | p in AllPoints(rings') ensures p == op || p in AllPoints(rings) {
      var j, k :| 0 <= j < |rings'| && 0 <= k < |rings'[j]| && rings'[j][k] == p;
      assert p in rings'[j];
      if p != op {
        var i :| 0 <= i < |rings| && p in rings[i];
        AtPlace(rings, i, p);
      }
    }
  }

  lemma AddedGains(rings: seq<seq<OutPt>>, rings': seq<seq<OutPt>>, idx: nat, side: EdgeSide, pt: IntPoint, op: OutPt)
    requires idx < |rings| && rings[idx] != [] && PointAdded(rings, rings', idx, side, pt, op)
    ensures GainedAmong(rings, rings', {pt})
  {
    forall j, x | 0 <= j < |rings'| && x in rings'[j] ensures x == op || exists i :: 0 <= i < |rings| && x in rings[i] {
      if x != op {
        assert x in rings[j];
      }
    }
    Gained(rings, rings', op, pt);
  }

  lemma MarkedGains(n: Notes, marked: Notes, idx: int, side: EdgeSide, pt: IntPoint, op: OutPt?)
    requires VertexMarked(n, marked, idx, side, pt, op)
    ensures GainedAmong(n.rings, marked.rings, {pt})
  {
    hide GainedAmong;
    if idx >= 0 {
      AddedGains(n.rings, marked.rings, idx, side, pt, op);
    } else {
      SameGains(n.rings, {pt});
    }
  }

  lemma JoinedGains(rings: seq<seq<OutPt>>, rings': seq<seq<OutPt>>, i1: int, s1: EdgeSide, i2: int, s2: EdgeSide, pts: set<IntPoint>)
    requires RingsJoined(rings, rings', i1, s1, i2, s2)
    ensures GainedAmong(rings, rings', pts)
  {
    ReverseMembers(rings[i2]);
    forall p | p in AllPoints(rings') ensures p in AllPoints(rings) {
      var j, k :| 0 <= j < |rings'| && 0 <= k < |rings'[j]| && rings'[j][k] == p;
      var i := if j != i1 || p in rings[i1] then j else i2;
      assert p in rings'[j] && p in rings[i];
      AtPlace(rings, i, p);
    }
  }

  lemma MetGains(v1: EdgeView, v2: EdgeView, pt: IntPoint, n: Notes, mid: Notes, n': Notes, op: OutPt?)
    requires EndsMet(v1, v2, pt, n, mid, n', op)
    ensures GainedAmong(n.rings, n'.rings, {pt})
  {
    hide GainedAmong, RingsJoined, VertexMarked;
    MarkedGains(n, mid, v1.outIdx, v1.side, pt, op);
    var i1, i2 := v1.outIdx, v2.outIdx;
    if i1 == i2 {
      SameGains(n'.rings, {pt});
    } else if i1 < i2 {
      JoinedGains(mid.rings, n'.rings, i1, v1.side, i2, v2.side, {pt});
    } else {
      JoinedGains(mid.rings, n'.rings, i2, v2.side, i1, v1.side, {pt});
    }
    GainsTwice(n.rings, mid.rings, n'.rings, {pt});
  }

  lemma StartedGains(beside: bool, n: Notes, n': Notes, op1: OutPt, end: RingEnd, pt: IntPoint, offPt: IntPoint)
    requires MinimumStarted(beside, n, n', op1, end, pt, offPt) && op1.Pt == pt
    ensures GainedAmong(n.rings, n'.rings, {pt})
  {
    var started := n.rings + [[op1]];
    forall j, x | 0 <= j < |started| && x in started[j] ensures x == op1 || exists i :: 0 <= i < |n.rings| && x in n.rings[i] {
      if x != op1 {
        assert x in n.rings[j];
      }
    }
    Gained(n.rings, started, op1, pt);
    hide GainedAmong;
    if beside {
      AddedGains(started, n'.rings, end.idx, end.side, pt, n'.joins[|n.joins|].OutPt2);
    } else {
      SameGains(started, {pt});
    }
    GainsTwice(n.rings, started, n'.rings, {pt});
  }

  lemma EndedGains(v1: EdgeView, v2: EdgeView, pt: IntPoint, n: Notes, mid: Notes, n': Notes, op: OutPt?)
    requires PairEnded(v1, v2, pt, n, mid, n', op)
    ensures GainedAmong(n.rings, n'.rings, {pt})
  {
    hide GainedAmong, EndsMet;
    if v1.outIdx >= 0 || v2.outIdx >= 0 {
      MetGains(v1, v2, pt, n, mid, n', op);
    } else {
      SameGains(n.rings, {pt});
    }
  }

  /** Every point that comes with a crossing is at the place of the crossing. */
  lemma CrossingGains(act: Action, v1: EdgeView, v2: EdgeView, pt: IntPoint, offPt: IntPoint, n: Notes, n': Notes, x: CrossEvent)
    requires CrossNoted(act, v1, v2, pt, offPt, n, n', x)
    ensures GainedAmong(n.rings, n'.rings, {pt})
  {
    hide GainedAmong, EndsMet, VertexMarked, MinimumStarted;
    match act {
      case LocalMax => MetGains(v1, v2, pt, n, x.mid, n', x.op1);
      case LocalMin => StartedGains(x.beside, n, n', x.op1, x.end, pt, offPt);
      case SwapSidesOnly => SameGains(n.rings, {pt});
      case Nothing => SameGains(n.rings, {pt});
      case _ =>
        MarkedGains(n, x.mid, v1.outIdx, v1.side, pt, x.op1);
        MarkedGains(x.mid, n', v2.outIdx, v2.side, pt, x.op2);
        GainsTwice(n.rings, x.mid.rings, n'.rings, {pt});
    }
  }

  // ---------------------------------------------------------------- crossings one after the other

  /** The edges in their order, what they show, and the notes. */
  datatype Lineup = Lineup(order: seq<TEdge>, views: seq<EdgeView>, notes: Notes)

  /** The neighbours `k` and `k + 1` have crossed as the record says, and changed places. */
  ghost predicate CrossingMade(rules: Rules, node: IntersectNode, m: Lineup, m': Lineup, k: nat, x: CrossEvent) {
    && k + 1 < |m.order| && |m.views| == |m.order| && m.order[k] == node.Edge1 && m.order[k + 1] == node.Edge2
    && m'.order == Swap(m.order, k) && |m'.views| == |m.views|
    && CrossedAs(rules, node.Edge1, node.Edge2, node.Pt, m.views[k], m.views[k + 1], m'.views[k + 1], m'.views[k], m.notes, m'.notes, x)
  }

  /** One crossing after the other, as the records say. */
  ghost predicate CrossingsMade(rules: Rules, nodes: seq<IntersectNode>, trace: seq<Lineup>, xs: seq<(nat, CrossEvent)>) {
    && |trace| == |nodes| + 1 && |xs| == |nodes|
    && forall i :: 0 <= i < |nodes| ==> CrossingMade(rules, nodes[i], trace[i], trace[i + 1], xs[i].0, xs[i].1)
  }

  /** A run of crossings from one lineup to another. */
  ghost predicate CrossingRun(rules: Rules, nodes: seq<IntersectNode>, m: Lineup, m': Lineup, trace: seq<Lineup>, xs: seq<(nat, CrossEvent)>) {
    CrossingsMade(rules, nodes, trace, xs) && trace[0] == m && trace[|nodes|] == m'
  }

  lemma NoCrossings(rules: Rules, m: Lineup)
    ensures CrossingRun(rules, [], m, m, [m], [])
  {
  }

  function PointsOf(nodes: seq<IntersectNode>): set<IntPoint> {
    set i | 0 <= i < |nodes| :: nodes[i].Pt
  }

  lemma OneMore(rules: Rules, nodes: seq<IntersectNode>, m: Lineup, m': Lineup, trace: seq<Lineup>, xs: seq<(nat, CrossEvent)>,
                node: IntersectNode, m'': Lineup, k: nat, x: CrossEvent)
    requires CrossingRun(rules, nodes, m, m', trace, xs) && CrossingMade(rules, node, m', m'', k, x)
    ensures CrossingRun(rules, nodes + [node], m, m'', trace + [m''], xs + [(k, x)])
  {
    hide CrossingMade;
  }

  lemma MadeGains(rules: Rules, node: IntersectNode, m: Lineup, m': Lineup, k: nat, x: CrossEvent, pts: set<IntPoint>)
    requires CrossingMade(rules, node, m, m', k, x) && node.Pt in pts
    ensures GainedAmong(m.notes.rings, m'.notes.rings, pts)
  {
    hide CrossNoted, CrossCounts, ActionOf, Built, BuildsAs;
    var (a, b) := CrossCounts(rules, m.views[k], m.views[k + 1]);
    CrossingGains(ActionOf(rules, m.views[k], m.views[k + 1]), a, b, node.Pt, Front(node.Edge1, node.Edge2).Top, m.notes, m'.notes, x);
  }

  /** Every point gained by a run of crossings is at the place of one of them. */
  lemma RunGains(rules: Rules, nodes: seq<IntersectNode>, m: Lineup, m': Lineup, trace: seq<Lineup>, xs: seq<(nat, CrossEvent)>)
    requires CrossingRun(rules, nodes, m, m', trace, xs)
    ensures GainedAmong(m.notes.rings, m'.notes.rings, PointsOf(nodes))
  {
    CrossingsGain(rules, nodes, trace, xs, |nodes|);
  }

  lemma {:induction false} CrossingsGain(rules: Rules, nodes: seq<IntersectNode>, trace: seq<Lineup>, xs: seq<(nat, CrossEvent)>, i: nat)
    requires CrossingsMade(rules, nodes, trace, xs) && i <= |nodes|
    ensures GainedAmong(trace[0].notes.rings, trace[i].notes.rings, PointsOf(nodes))
  {
    hide GainedAmong, CrossingMade;
    if i == 0 {
      SameGains(trace[0].notes.rings, PointsOf(nodes));
    } else {
      CrossingsGain(rules, nodes, trace, xs, i - 1);
      MadeGains(rules, nodes[i - 1], trace[i - 1], trace[i], xs[i - 1].0, xs[i - 1].1, PointsOf(nodes));
      GainsTwice(trace[0].notes.rings, trace[i - 1].notes.rings, trace[i].notes.rings, PointsOf(nodes));
    }
  }

  /** `e` crosses these edges in turn, all at `pt`. */
  function PassingAll(e: TEdge, others: seq<TEdge>, pt: IntPoint): (nodes: seq<IntersectNode>)
    ensures |nodes| == |others| && forall i :: 0 <= i < |others| ==> nodes[i] == IntersectNode(e, others[i], pt)
  {
    seq(|others|, i requires 0 <= i < |others| => IntersectNode(e, others[i], pt))
  }

  /** `e` has crossed the edges of `es` from place `i` on and before place `j`, all at `pt`. */
  ghost predicate PassingRun(rules: Rules, e: TEdge, es: seq<TEdge>, i: int, j: int, pt: IntPoint, m: Lineup, m': Lineup,
                             trace: seq<Lineup>, xs: seq<(nat, CrossEvent)>) {
    0 <= i <= j <= |es| && CrossingRun(rules, PassingAll(e, es[i..j], pt), m, m', trace, xs)
  }

  lemma NonePassed(rules: Rules, e: TEdge, es: seq<TEdge>, i: nat, pt: IntPoint, m: Lineup)
    requires i <= |es|
    ensures PassingRun(rules, e, es, i, i, pt, m, m, [m], [])
  {
  }

  lemma OneMorePassed(rules: Rules, e: TEdge, es: seq<TEdge>, i: nat, j: nat, pt: IntPoint, m: Lineup, m': Lineup,
                      trace: seq<Lineup>, xs: seq<(nat, CrossEvent)>, m'': Lineup, k: nat, x: CrossEvent)
    requires j < |es| && PassingRun(rules, e, es, i, j, pt, m, m', trace, xs) && CrossingMade(rules, IntersectNode(e, es[j], pt), m', m'', k, x)
    ensures PassingRun(rules, e, es, i, j + 1, pt, m, m'', trace + [m''], xs + [(k, x)])
  {
    hide CrossingRun, CrossingMade;
    assert PassingAll(e, es[i..j + 1], pt) == PassingAll(e, es[i..j], pt) + [IntersectNode(e, es[j], pt)];
    OneMore(rules, PassingAll(e, es[i..j], pt), m, m', trace, xs, IntersectNode(e, es[j], pt), m'', k, x);
  }

  /** Passing the same edges within another list. */
  lemma PassingWithin(rules: Rules, e: TEdge, es: seq<TEdge>, i: int, j: int, fs: seq<TEdge>, i': int, j': int, pt: IntPoint, m: Lineup, m': Lineup,
                      trace: seq<Lineup>, xs: seq<(nat, CrossEvent)>)
    requires PassingRun(rules, e, es, i, j, pt, m, m', trace, xs) && 0 <= i' <= j' <= |fs| && es[i..j] == fs[i'..j']
    ensures PassingRun(rules, e, fs, i', j', pt, m, m', trace, xs)
  {
  }

  /** An edge that passes others at one point brings points there only. */
  lemma PassingGains(rules: Rules, e: TEdge, es: seq<TEdge>, i: int, j: int, pt: IntPoint, m: Lineup, m': Lineup,
                     trace: seq<Lineup>, xs: seq<(nat, CrossEvent)>, pts: set<IntPoint>)
    requires PassingRun(rules, e, es, i, j, pt, m, m', trace, xs) && pt in pts
    ensures GainedAmong(m.notes.rings, m'.notes.rings, pts)
  {
    hide AllPoints, CrossingRun;
    RunGains(rules, PassingAll(e, es[i..j], pt), m, m', trace, xs);
  }

  /** The two edges of a maximum, at places `j - 1` and `j` by now, end what they build at `pt`. */
  ghost predicate MaximumEnded(m: Lineup, j: nat, pt: IntPoint, mid: Notes, n': Notes, op: OutPt?) {
    0 < j < |m.views| && PairEnded(m.views[j - 1], m.views[j], pt, m.notes, mid, n', op)
  }

  lemma NotedIfGains(joined: bool, n: Notes, n': Notes, op1: OutPt?, end: RingEnd, pt: IntPoint, offPt: IntPoint, pts: set<IntPoint>)
    requires NotedIf(joined, n, n', op1, end, pt, offPt) && pt in pts
    ensures GainedAmong(n.rings, n'.rings, pts)
  {
    hide AllPoints;
    if joined {
      AddedGains(n.rings, n'.rings, end.idx, end.side, pt, n'.joins[|n.joins|].OutPt2);
    }
  }

  /** The points that a minimum brings are at its lower ends. */
  lemma PairGains(nb: Neighbours, lb: TEdge, rb: TEdge, contributing: bool, op1: OutPt?, n: Notes, begun: Notes, left: Notes, right: Notes)
    requires PairStarted(nb, lb, rb, contributing, op1, n, begun) && PairSettled(nb, lb, rb, contributing, op1, begun, left, right)
    ensures GainedAmong(n.rings, right.rings, {lb.Bot, rb.Bot, lb.Curr})
  {
    hide NotedIf, MinimumStarted, AllPoints;
    var pts := {lb.Bot, rb.Bot, lb.Curr};
    if contributing {
      StartedGains(nb.beside, n, begun, op1, nb.besideEnd, lb.Bot, Front(lb, rb).Top);
    }
    NotedIfGains(contributing && nb.left, begun, left, op1, nb.leftEnd, lb.Bot, lb.Top, pts);
    NotedIfGains(contributing && nb.right, left, right, op1, nb.rightEnd, rb.Bot, rb.Top, pts);
  }

  /** So are those of the crossings that follow, at most. */
  lemma MinimumGains(rules: Rules, nb: Neighbours, lb: TEdge, rb: TEdge, contributing: bool, op1: OutPt?, n: Notes, begun: Notes, left: Notes,
                     es: seq<TEdge>, kl: nat, kr: nat, m: Lineup, m': Lineup, trace: seq<Lineup>, xs: seq<(nat, CrossEvent)>)
    requires PairStarted(nb, lb, rb, contributing, op1, n, begun) && PairSettled(nb, lb, rb, contributing, op1, begun, left, m.notes)
    requires PassingRun(rules, rb, es, kl, kr - 1, lb.Curr, m, m', trace, xs)
    ensures GainedAmong(n.rings, m'.notes.rings, {lb.Bot, rb.Bot, lb.Curr})
  {
    hide PairStarted, PairSettled, PassingRun, GainedAmong;
    var pts := {lb.Bot, rb.Bot, lb.Curr};
    PairGains(nb, lb, rb, contributing, op1, n, begun, left, m.notes);
    PassingGains(rules, rb, es, kl, kr - 1, lb.Curr, m, m', trace, xs, pts);
    GainsTwice(n.rings, m.notes.rings, m'.notes.rings, pts);
  }

  /** The points that a maximum brings are where its bounds meet. */
  lemma MaximumGains(rules: Rules, e: TEdge, es: seq<TEdge>, i: nat, j: nat, n: Lineup, m: Lineup, trace: seq<Lineup>, xs: seq<(nat, CrossEvent)>,
                     mid: Notes, n': Notes, op: OutPt?)
    requires PassingRun(rules, e, es, i + 1, j, e.Top, n, m, trace, xs) && 0 < j < |m.views|
    requires PairEnded(m.views[j - 1], m.views[j], e.Top, m.notes, mid, n', op)
    ensures MaximumEnded(m, j, e.Top, mid, n', op) && GainedAmong(n.notes.rings, n'.rings, {e.Top})
  {
    hide PassingRun, PairEnded, GainedAmong;
    PassingGains(rules, e, es, i + 1, j, e.Top, n, m, trace, xs, {e.Top});
    EndedGains(m.views[j - 1], m.views[j], e.Top, m.notes, mid, n', op);
    GainsTwice(n.notes.rings, m.notes.rings, n'.rings, {e.Top});
  }

  /** The points that an intermediate vertex brings are there, and where the next edge begins. */
  lemma AlongGains(al: Along, n: Notes, marked: Notes, n': Notes, idx: int, side: EdgeSide, top: IntPoint, op: OutPt?, bot: IntPoint, offPt: IntPoint)
    requires VertexMarked(n, marked, idx, side, top, op)
    requires if op != null then AlongNoted(al, marked, n', op, bot, offPt) else n' == marked
    ensures GainedAmong(n.rings, n'.rings, {top, bot})
  {
    hide VertexMarked, JoinNoted, AllPoints;
    MarkedGains(n, marked, idx, side, top, op);
    if op != null {
      NotedIfGains(al.left || al.right, marked, n', op, if al.left then al.leftEnd else al.rightEnd, bot, offPt, {top, bot});
    }
  }

  /** A touch brings points at its place only. */
  lemma TouchGains(n: Notes, marked: Notes, n': Notes, prev: RingEnd, end: RingEnd, pt: IntPoint, op: OutPt?)
    requires TouchNoted(n, marked, n', prev, end, pt, op)
    ensures GainedAmong(n.rings, n'.rings, {pt})
  {
    hide VertexMarked, JoinNoted, AllPoints;
    MarkedGains(n, marked, prev.idx, prev.side, pt, op);
    NotedIfGains(true, marked, n', op, end, pt, pt, {pt});
  }
}
