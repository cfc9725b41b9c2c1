/**
 Whole runs of the sweep.

 Whatever minima enter, whatever intersections are carried out, however edges are replaced
 along their bounds and whichever maxima end: in any order in which these steps are possible,
 everything the sweep keeps holds after each of them. A run leaves a trace, one `Moment` for
 the beginning and one after each step.
 */
module SweepRuns {
  import opened ClipTypes
  import opened Sequences
  import opened Winding
  import opened Edges
  import opened ActiveEdgeLists
  import opened SortedEdgeLists
  import opened OutRecs
  import opened OutPtRings
  import opened Ownership
  import opened NotedJoins
  import opened CrossingNotes
  import opened RecordTotals
  import opened ScanlineOrder
  import opened Sweep

  datatype SweepStep =
    | Minimum(lb: TEdge, rb: TEdge)
    | Intersections(topY: int)
    | Promote(e: TEdge)
    | Touch(e: TEdge)
    | Maximum(e: TEdge, eMaxPair: TEdge)

  /** Is `e` active, and where? */
  method Find(ael: ActiveEdgeList, e: TEdge, first: TEdge?, ghost from: nat) returns (found: bool, ghost k: nat)
    requires ael.Valid() && from <= |ael.Ael| && first == EdgeAt(ael.Ael, from)
    ensures found <==> exists x :: from <= x < |ael.Ael| && ael.Ael[x] == e
    ensures found ==> from <= k && ael.At(k, e)
  {
    var c := first;
    k := from;
    while c != null && c != e
      invariant from <= k <= |ael.Ael| && c == EdgeAt(ael.Ael, k)
      invariant forall x :: from <= x < k ==> ael.Ael[x] != e
      decreases |ael.Ael| - k
    {
      c := ael.Following(c, k);
      k := k + 1;
    }
    found := c != null;
  }

  // ---------------------------------------------------------------- moments and steps

  /**
   What is to be seen of the sweep between two steps: the active edges from left to right, what
   they show and where they have been met last, what every edge shows, active or not, the output
   so far, and which of its polygons are holes.
   */
  datatype Moment = Moment(order: seq<TEdge>, views: seq<EdgeView>, at: seq<IntPoint>, known: map<TEdge, EdgeView>, notes: Notes,
                           holes: seq<bool>)

  ghost function MetAt(es: seq<TEdge>): (s: seq<IntPoint>)
    reads es`Curr
    ensures |s| == |es| && forall i :: 0 <= i < |es| ==> s[i] == es[i].Curr
  {
    if es == [] then [] else MetAt(es[..|es| - 1]) + [es[|es| - 1].Curr]
  }

  /** What every edge shows. */
  ghost function Shown(edges: set<TEdge>): map<TEdge, EdgeView>
    reads edges`WindDelta, edges`WindCnt, edges`WindCnt2, edges`OutIdx, edges`Side
  {
    map e | e in edges :: e.View()
  }

  ghost function Snapshot(c: Clipper, edges: set<TEdge>): Moment
    reads c`m_Joins, c.ael`Ael, c.outs`Rings, c.outs`m_PolyOuts, c.outs.m_PolyOuts`IsHole
    reads c.ael.Ael`WindDelta, c.ael.Ael`WindCnt, c.ael.Ael`WindCnt2, c.ael.Ael`OutIdx, c.ael.Ael`Side, c.ael.Ael`Curr
    reads edges`WindDelta, edges`WindCnt, edges`WindCnt2, edges`OutIdx, edges`Side
  {
    Moment(c.ael.Ael, Views(c.ael.Ael), MetAt(c.ael.Ael), Shown(edges), c.Output(), Holes(c.outs.m_PolyOuts))
  }

  /** The edge at place `i` builds one end of a ring, and exactly one other edge builds the other end. */
  ghost predicate PairedAt(v: seq<EdgeView>, rings: seq<seq<OutPt>>, i: nat)
    requires i < |v|
  {
    && 0 <= v[i].outIdx < |rings| && rings[v[i].outIdx] != []
    && exists j :: 0 <= j < |v| && j != i && v[j].outIdx == v[i].outIdx && v[j].side == v[i].side.Opposite()
         && forall l :: 0 <= l < |v| && l != i && l != j ==> v[l].outIdx != v[i].outIdx
  }

  /**
   What holds at every moment: no edge stands in the list twice, the winding counts are right,
   an edge builds something exactly where the solution begins or ends, every open ring is built
   by two edges, and every join that has been noted can be carried out.
   */
  ghost predicate MomentOk(m: Moment, rules: Rules) {
    && |m.views| == |m.order| && Distinct(m.order) && Right(m.views, rules)
    && (forall i :: 0 <= i < |m.views| && m.views[i].outIdx >= 0 ==> PairedAt(m.views, m.notes.rings, i))
    && AllReady(m.notes)
  }

  /** Can these two edges start bounds at a minimum now? */
  ghost predicate MayBegin(m: Moment, lb: TEdge, rb: TEdge) {
    && lb in m.known && rb in m.known && lb != rb && lb !in m.order && rb !in m.order && lb.Bot == rb.Bot && lb.PolyTyp == rb.PolyTyp
    && m.known[lb].outIdx == m.known[rb].outIdx == UNASSIGNED
    && (m.known[lb].delta == 1 || m.known[lb].delta == -1) && m.known[lb].delta + m.known[rb].delta == 0
  }

  /** Is `e` active, with a next edge of its bound that can take over? */
  ghost predicate MayGoOn(m: Moment, e: TEdge) {
    e in m.order && e.NextInLML != null && e.NextInLML.PolyTyp == e.PolyTyp && e.NextInLML !in m.order
  }

  /** Does `f` stand somewhere to the right of `e`, with the same type and the other direction? */
  ghost predicate MayMeet(m: Moment, e: TEdge, f: TEdge) {
    && e in m.known && f in m.known && e.PolyTyp == f.PolyTyp && m.known[e].delta + m.known[f].delta == 0
    && Leftwards(m.order, e, f)
  }

  /** Does `e`, at place `k`, meet the edge to its left, and do both build polygons? */
  ghost predicate TouchAt(m: Moment, e: TEdge, k: nat) {
    && 0 < k < |m.order| == |m.views| == |m.at| && m.order[k] == e && m.at[k - 1].X == m.at[k].X
    && m.views[k].outIdx >= 0 && m.views[k].delta != 0 && m.views[k - 1].outIdx >= 0 && m.views[k - 1].delta != 0
  }

  ghost predicate TouchesLeft(m: Moment, e: TEdge) {
    exists k: nat :: TouchAt(m, e, k)
  }

  ghost predicate Touched(m: Moment, m': Moment, e: TEdge) {
    exists k: nat :: TouchAt(m, e, k) && TouchJoined(m.notes, m'.notes, m.at[k]) && GainedAt(m, m', m.at[k])
  }

  ghost predicate Leftwards(es: seq<TEdge>, e: TEdge, f: TEdge) {
    exists x, y :: 0 <= x < y < |es| && es[x] == e && es[y] == f
  }

  ghost predicate Begun(es: seq<TEdge>, es': seq<TEdge>, lb: TEdge, rb: TEdge) {
    exists kl: nat, kr: nat :: kl < kr <= |es| + 1 && es' == InsertAt(InsertAt(es, kl, lb), kr, rb)
  }

  ghost predicate GoneOn(es: seq<TEdge>, es': seq<TEdge>, e: TEdge, up: TEdge) {
    exists k: nat :: k < |es| && es[k] == e && es' == Replace(es, k, up)
  }

  ghost predicate Met(es: seq<TEdge>, es': seq<TEdge>, e: TEdge, f: TEdge) {
    exists i: nat, j: nat :: i < j < |es| && es[i] == e && es[j] == f && es' == Without(Without(es, j), i)
  }

  /** Every point gained since is at `pt`. */
  ghost predicate GainedAt(m: Moment, m': Moment, pt: IntPoint) {
    GainedAmong(m.notes.rings, m'.notes.rings, {pt})
  }

  /** No point gained since lies above `topY`. */
  ghost predicate GainedBelow(m: Moment, m': Moment, topY: int) {
    forall p :: p in AllPoints(m'.notes.rings) && p !in AllPoints(m.notes.rings) ==> p.Pt.Y >= topY
  }

  lemma ListedBelow(topX: ScanlineX, topY: int, key: Key, es: seq<TEdge>, nodes: seq<IntersectNode>, m: Moment, m': Moment)
    requires InvertedListed(topX, topY, key, es, nodes) && GainedAmong(m.notes.rings, m'.notes.rings, PointsOf(nodes))
    ensures GainedBelow(m, m', topY)
  {
    hide AllPoints;
  }

  /** Every point gained since is at the lower end of the bounds, or where `lb` stands now. */
  ghost predicate GainedAtStart(m: Moment, m': Moment, lb: TEdge) {
    exists k: nat :: k < |m'.order| == |m'.at| && m'.order[k] == lb && GainedAmong(m.notes.rings, m'.notes.rings, {lb.Bot, m'.at[k]})
  }

  /** What a step makes of the list; one that is not possible leaves everything as it is. */
  ghost predicate StepMade(topX: ScanlineX, step: SweepStep, m: Moment, m': Moment) {
    match step
    case Minimum(lb, rb) => if MayBegin(m, lb, rb) then Begun(m.order, m'.order, lb, rb) && GainedAtStart(m, m', lb) && Noted(m.notes, m'.notes) else m' == m
    case Intersections(topY) => multiset(m'.order) == multiset(m.order) && Ascending(topX, m'.order, topY) && GainedBelow(m, m', topY)
                                   && Noted(m.notes, m'.notes)
    case Promote(e) => if MayGoOn(m, e) then GoneOn(m.order, m'.order, e, e.NextInLML) && GainedAt(m, m', e.Top) && Noted(m.notes, m'.notes) else m' == m
    case Touch(e) =>
      if TouchesLeft(m, e) then m'.order == m.order && Touched(m, m', e) && Noted(m.notes, m'.notes) else m' == m
    case Maximum(e, f) => if MayMeet(m, e, f) then Met(m.order, m'.order, e, f) && GainedAt(m, m', e.Top) && Noted(m.notes, m'.notes) else m' == m
  }

  /** The moments before and after each of the steps. */
  ghost predicate SweepRun(topX: ScanlineX, rules: Rules, steps: seq<SweepStep>, trace: seq<Moment>) {
    && |trace| == |steps| + 1
    && (forall n :: 0 <= n <= |steps| ==> MomentOk(trace[n], rules))
    && (forall n :: 0 <= n < |steps| ==> StepMade(topX, steps[n], trace[n], trace[n + 1]))
  }

  // ---------------------------------------------------------------- the state between two steps

  /** The edges that the steps speak of. */
  ghost predicate Known(s: SweepStep, edges: set<TEdge>) {
    match s
    case Minimum(lb, rb) => lb in edges && rb in edges
    case Intersections(_) => true
    case Promote(e) => e in edges
    case Touch(e) => e in edges
    case Maximum(e, f) => e in edges && f in edges
  }

  /** The state between two steps. */
  ghost predicate Steady(c: Clipper, edges: set<TEdge>)
    reads c, c.ael, c.sel, c.outs, c.ael.Ael, c.outs.m_PolyOuts, c.outs.Owner.Keys
  {
    && c.Swept(c.ael.Ael) && c.sel.m_IntersectList == [] && AllReady(c.Output())
    && (forall i :: 0 <= i < |c.ael.Ael| ==> c.ael.Ael[i] in edges)
  }

  /** No edge is horizontal, and the next edge of a bound is among the edges and begins where the one before it ends. */
  ghost predicate Complete(edges: set<TEdge>) {
    forall e :: e in edges ==>
      e.Top.Y < e.Bot.Y && (e.NextInLML != null ==> e.NextInLML in edges && e.NextInLML.Bot == e.Top)
  }

  lemma SteadyLists(c: Clipper, edges: set<TEdge>)
    requires Steady(c, edges)
    ensures c.ael.Valid() && Distinct(c.ael.Ael) && c.Swept(c.ael.Ael) && c.sel.m_IntersectList == [] && AllReady(c.Output())
    ensures forall i :: 0 <= i < |c.ael.Ael| ==> c.ael.Ael[i] in edges
  {
    c.SweptList(c.ael.Ael);
  }

  lemma SteadyAgain(c: Clipper, edges: set<TEdge>, was: Notes)
    requires c.Swept(c.ael.Ael) && c.sel.m_IntersectList == [] && (forall i :: 0 <= i < |c.ael.Ael| ==> c.ael.Ael[i] in edges)
    requires AllReady(was) && Noted(was, c.Output())
    ensures Steady(c, edges)
  {
    hide Clipper.Swept;
    StillReady(was, c.Output());
  }

  lemma SnapshotShows(c: Clipper, edges: set<TEdge>)
    ensures Snapshot(c, edges).order == c.ael.Ael && Snapshot(c, edges).notes == c.Output() && Snapshot(c, edges).holes == Holes(c.outs.m_PolyOuts)
  {
  }

  /** In a steady state everything is as it should be. */
  lemma SteadyMoment(c: Clipper, edges: set<TEdge>)
    requires Steady(c, edges)
    ensures MomentOk(Snapshot(c, edges), c.rules)
  {
    hide Steady, Clipper.Swept, Clipper.Building, ActiveEdgeList.Valid, AllReady, Right, Distinct, PairedAt;
    SteadyLists(c, edges);
    c.SweptLists(c.ael.Ael);
    SteadyPairs(c);
    var m := Snapshot(c, edges);
    assert m.views == Views(c.ael.Ael) && m.notes.rings == c.outs.Rings;
    assert forall i :: 0 <= i < |m.views| && m.views[i].outIdx >= 0 ==> PairedAt(m.views, m.notes.rings, i);
  }

  lemma SteadyPairs(c: Clipper)
    requires c.Building()
    ensures var v := Views(c.ael.Ael); forall i :: 0 <= i < |v| && v[i].outIdx >= 0 ==> PairedAt(v, c.outs.Rings, i)
  {
    hide Right;
    var es, v := c.ael.Ael, Views(c.ael.Ael);
    forall i | 0 <= i < |v| && v[i].outIdx >= 0 ensures PairedAt(v, c.outs.Rings, i) {
      ExactlyTwo(es, c.Lft, c.Rgt, c.outs.Rings, es[i]);
      var p := Partner(es[i], c.Lft, c.Rgt);
      var j :| 0 <= j < |es| && es[j] == p;
      DistinctAt(es, i);
      DistinctAt(es, j);
      forall l | 0 <= l < |v| && l != i && l != j ensures v[l].outIdx != v[i].outIdx {
        assert es[l] in es;
      }
    }
  }

  // ---------------------------------------------------------------- the start

  /** No edge is active, and nothing has been put out. */
  ghost predicate Blank(m: Moment) {
    m.order == [] && m.notes == Notes([], []) && m.holes == []
  }

  /** A new clipper is in a steady state, with any edges for its input. */
  method Begin(rules: Rules, topX: ScanlineX, ghost edges: set<TEdge>) returns (c: Clipper)
    ensures fresh(c) && fresh(c.ael) && fresh(c.sel) && fresh(c.outs) && c.rules == rules && c.ael.topX == topX
    ensures c.outs.m_PolyOuts == [] && c.outs.Owner == map[]
    ensures Steady(c, edges) && Blank(Snapshot(c, edges)) && Snapshot(c, edges).known == Shown(edges)
  {
    hide Clipper.Swept;
    c := new Clipper(rules, topX);
  }

  // ---------------------------------------------------------------- the steps

  method StartMinimum(c: Clipper, lb: TEdge, rb: TEdge, ghost edges: set<TEdge>)
    requires Steady(c, edges) && lb in edges && rb in edges && Complete(edges)
    modifies c, c.ael, c.sel, c.outs, c.outs.m_PolyOuts, c.outs.Owner.Keys, edges
    ensures Steady(c, edges) && StepMade(c.ael.topX, Minimum(lb, rb), old(Snapshot(c, edges)), Snapshot(c, edges))
    ensures fresh(c.outs.Owner.Keys - old(c.outs.Owner.Keys))
    ensures forall i :: 0 <= i < |c.outs.m_PolyOuts| ==> c.outs.m_PolyOuts[i] in old(c.outs.m_PolyOuts) || fresh(c.outs.m_PolyOuts[i])
  {
    hide Steady, Clipper.MinimumPair, Noted, Snapshot, MayBegin, Begun, GainedAtStart, GainedAmong, ActiveEdgeList.Valid, Distinct, AllReady, Clipper.Swept;
    SteadyLists(c, edges);
    SnapshotShows(c, edges);
    var possible := MayStart(c, lb, rb);
    BeginsWhen(c, lb, rb, edges);
    if possible {
      ghost var m := Snapshot(c, edges);
      EnterMinimum(c, lb, rb, edges);
      SnapshotShows(c, edges);
      StartShown(c, edges, m, lb);
    }
  }

  lemma StartShown(c: Clipper, edges: set<TEdge>, m: Moment, lb: TEdge)
    requires lb in c.ael.Ael && GainedAmong(m.notes.rings, c.outs.Rings, {lb.Bot, lb.Curr})
    ensures GainedAtStart(m, Snapshot(c, edges), lb)
  {
    hide GainedAmong;
    var k: nat :| k < |c.ael.Ael| && c.ael.Ael[k] == lb;
    assert Snapshot(c, edges).at == MetAt(c.ael.Ael);
  }

  lemma BeginsWhen(c: Clipper, lb: TEdge, rb: TEdge, edges: set<TEdge>)
    requires lb in edges && rb in edges
    ensures MayBegin(Snapshot(c, edges), lb, rb) <==> c.MinimumPair(lb, rb) && lb.Bot == rb.Bot
  {
  }

  method EnterMinimum(c: Clipper, lb: TEdge, rb: TEdge, ghost edges: set<TEdge>)
    requires Steady(c, edges) && lb in edges && rb in edges && Complete(edges) && c.MinimumPair(lb, rb) && lb.Bot == rb.Bot
    modifies c, c.ael, c.sel, c.outs, c.outs.m_PolyOuts, c.outs.Owner.Keys, edges
    ensures Steady(c, edges) && Begun(old(c.ael.Ael), c.ael.Ael, lb, rb) && Noted(old(c.Output()), c.Output())
    ensures lb in c.ael.Ael && GainedAmong(old(c.outs.Rings), c.outs.Rings, {lb.Bot, lb.Curr})
    ensures fresh(c.outs.Owner.Keys - old(c.outs.Owner.Keys))
    ensures forall i :: 0 <= i < |c.outs.m_PolyOuts| ==> c.outs.m_PolyOuts[i] in old(c.outs.m_PolyOuts) || fresh(c.outs.m_PolyOuts[i])
  {
    hide AscendsWithPair, SortedByX, Steady, Clipper.Swept, Clipper.MinimumPair, Noted, AllReady, InsertAt, Distinct, NeighboursOf, PairStarted, PairSettled, PassingRun, GainedAmong, Clipper.LineupOf, Clipper.CountedAs, ActiveEdgeList.Valid;
    SteadyLists(c, edges);
    ghost var es, n := c.ael.Ael, c.Output();
    ghost var kl, kr, view, op1, begun, left, met, trace, xs := c.InsertLocalMinimum(lb, rb);
    InsertedElements(es, kl, lb);
    InsertedElements(InsertAt(es, kl, lb), kr, rb);
    assert {lb.Bot, rb.Bot, lb.Curr} == {lb.Bot, lb.Curr};
    SteadyAgain(c, edges, n);
  }

  /** Can these two edges start bounds at a minimum now? */
  method MayStart(c: Clipper, lb: TEdge, rb: TEdge) returns (possible: bool)
    requires c.ael.Valid()
    ensures possible <==> c.MinimumPair(lb, rb) && lb.Bot == rb.Bot
  {
    hide ActiveEdgeList.Valid;
    var first := c.ael.First();
    ghost var k;
    var lbIn, rbIn;
    lbIn, k := Find(c.ael, lb, first, 0);
    rbIn, k := Find(c.ael, rb, first, 0);
    possible := !lbIn && !rbIn && lb != rb && lb.OutIdx == UNASSIGNED && rb.OutIdx == UNASSIGNED && lb.PolyTyp == rb.PolyTyp
                && (lb.WindDelta == 1 || lb.WindDelta == -1) && lb.WindDelta + rb.WindDelta == 0 && lb.Bot == rb.Bot;
  }

  method Intersect(c: Clipper, topY: int, ghost edges: set<TEdge>)
    requires Steady(c, edges)
    modifies c, c.ael, c.sel, c.outs, c.outs.m_PolyOuts, c.outs.Owner.Keys, edges
    ensures Steady(c, edges) && StepMade(c.ael.topX, Intersections(topY), old(Snapshot(c, edges)), Snapshot(c, edges))
    ensures fresh(c.outs.Owner.Keys - old(c.outs.Owner.Keys))
    ensures forall i :: 0 <= i < |c.outs.m_PolyOuts| ==> c.outs.m_PolyOuts[i] in old(c.outs.m_PolyOuts) || fresh(c.outs.m_PolyOuts[i])
  {
    hide Steady, Clipper.Swept, Ascending, Noted, AllReady, Distinct, InvertedListed, CrossingRun, GainedAmong, GainedBelow, Clipper.LineupOf, Snapshot, ActiveEdgeList.Valid;
    ghost var m := Snapshot(c, edges);
    SnapshotShows(c, edges);
    SteadyLists(c, edges);
    ghost var es, n := c.ael.Ael, c.Output();
    var ok;
    ghost var key, nodes, trace, xs;
    ok, key, nodes, trace, xs := c.ProcessIntersections(topY);
    SameElements(es, c.ael.Ael);
    forall i | 0 <= i < |c.ael.Ael| ensures c.ael.Ael[i] in edges {
      assert c.ael.Ael[i] in es;
    }
    SteadyAgain(c, edges, n);
    SnapshotShows(c, edges);
    ListedBelow(c.ael.topX, topY, key, es, nodes, m, Snapshot(c, edges));
  }

  method Advance(c: Clipper, e: TEdge, ghost edges: set<TEdge>)
    requires Steady(c, edges) && e in edges && Complete(edges)
    modifies c, c.ael, c.sel, c.outs, c.outs.m_PolyOuts, c.outs.Owner.Keys, edges
    ensures Steady(c, edges) && StepMade(c.ael.topX, Promote(e), old(Snapshot(c, edges)), Snapshot(c, edges))
    ensures fresh(c.outs.Owner.Keys - old(c.outs.Owner.Keys))
    ensures forall i :: 0 <= i < |c.outs.m_PolyOuts| ==> c.outs.m_PolyOuts[i] in old(c.outs.m_PolyOuts) || fresh(c.outs.m_PolyOuts[i])
  {
    hide Steady, Noted, Distinct, ActiveEdgeList.Valid, Clipper.Swept, AllReady, Snapshot, MayGoOn, GoneOn, GainedAmong;
    SteadyLists(c, edges);
    SnapshotShows(c, edges);
    var possible;
    ghost var k;
    possible, k := MayAdvance(c, e);
    GoesOnWhen(c, e, edges);
    if possible {
      GoOn(c, e, k, edges);
      SnapshotShows(c, edges);
    }
  }

  /** Can the next edge of its bound take over from `e` now? */
  method MayAdvance(c: Clipper, e: TEdge) returns (possible: bool, ghost k: nat)
    requires c.ael.Valid()
    ensures possible <==> e in c.ael.Ael && e.NextInLML != null && e.NextInLML.PolyTyp == e.PolyTyp && e.NextInLML !in c.ael.Ael
    ensures possible ==> c.ael.At(k, e)
  {
    hide ActiveEdgeList.Valid;
    var first := c.ael.First();
    ghost var l;
    possible, k := Find(c.ael, e, first, 0);
    if possible && e.NextInLML != null && e.NextInLML.PolyTyp == e.PolyTyp {
      var nextIn;
      nextIn, l := Find(c.ael, e.NextInLML, first, 0);
      possible := !nextIn;
    } else {
      possible := false;
    }
  }

  lemma GoesOnWhen(c: Clipper, e: TEdge, edges: set<TEdge>)
    ensures MayGoOn(Snapshot(c, edges), e) <==>
      e in c.ael.Ael && e.NextInLML != null && e.NextInLML.PolyTyp == e.PolyTyp && e.NextInLML !in c.ael.Ael
  {
  }

  method GoOn(c: Clipper, e: TEdge, ghost k: nat, ghost edges: set<TEdge>)
    requires Steady(c, edges) && e in edges && Complete(edges) && c.ael.At(k, e)
    requires e.NextInLML != null && e.NextInLML.PolyTyp == e.PolyTyp && e.NextInLML !in c.ael.Ael
    modifies c, c.ael, c.sel, c.outs, c.outs.m_PolyOuts, c.outs.Owner.Keys, edges
    ensures Steady(c, edges) && GoneOn(old(c.ael.Ael), c.ael.Ael, e, e.NextInLML) && Noted(old(c.Output()), c.Output())
    ensures GainedAmong(old(c.outs.Rings), c.outs.Rings, {e.Top})
    ensures fresh(c.outs.Owner.Keys - old(c.outs.Owner.Keys))
    ensures forall i :: 0 <= i < |c.outs.m_PolyOuts| ==> c.outs.m_PolyOuts[i] in old(c.outs.m_PolyOuts) || fresh(c.outs.m_PolyOuts[i])
  {
    hide Steady, Clipper.Swept, Noted, AllReady, Distinct, VertexMarked, AlongNoted, Clipper.AlongOf, GainedAmong, Replace, ActiveEdgeList.Valid, LastPt;
    SteadyLists(c, edges);
    ghost var n := c.Output();
    var up;
    ghost var op, marked;
    up, op, marked := c.PromoteIntermediate(e, k);
    assert {e.Top, up.Bot} == {e.Top};
    SteadyAgain(c, edges, n);
  }

  /** An active edge is looked at for a touch with the edge to its left. */
  method MeetLeft(c: Clipper, e: TEdge, ghost edges: set<TEdge>)
    requires Steady(c, edges) && e in edges
    modifies c, c.ael, c.sel, c.outs, c.outs.m_PolyOuts, c.outs.Owner.Keys, edges
    ensures Steady(c, edges) && StepMade(c.ael.topX, Touch(e), old(Snapshot(c, edges)), Snapshot(c, edges))
    ensures fresh(c.outs.Owner.Keys - old(c.outs.Owner.Keys))
    ensures forall i :: 0 <= i < |c.outs.m_PolyOuts| ==> c.outs.m_PolyOuts[i] in old(c.outs.m_PolyOuts) || fresh(c.outs.m_PolyOuts[i])
  {
    hide Steady, Noted, Distinct, ActiveEdgeList.Valid, Clipper.Swept, AllReady, Snapshot, TouchesLeft, Touched;
    SteadyLists(c, edges);
    SnapshotShows(c, edges);
    var first := c.ael.First();
    ghost var k;
    var eIn;
    eIn, k := Find(c.ael, e, first, 0);
    if eIn {
      LookLeft(c, e, k, edges);
    } else {
      NoTouch(Snapshot(c, edges), e);
    }
  }

  method LookLeft(c: Clipper, e: TEdge, ghost k: nat, ghost edges: set<TEdge>)
    requires Steady(c, edges) && c.ael.At(k, e)
    modifies c, c.ael, c.sel, c.outs, c.outs.m_PolyOuts, c.outs.Owner.Keys, edges
    ensures Steady(c, edges) && StepMade(c.ael.topX, Touch(e), old(Snapshot(c, edges)), Snapshot(c, edges))
    ensures fresh(c.outs.Owner.Keys - old(c.outs.Owner.Keys))
    ensures forall i :: 0 <= i < |c.outs.m_PolyOuts| ==> c.outs.m_PolyOuts[i] in old(c.outs.m_PolyOuts) || fresh(c.outs.m_PolyOuts[i])
  {
    hide Steady, Noted, Distinct, ActiveEdgeList.Valid, Clipper.Swept, AllReady, Snapshot, Clipper.Touches, TouchAt, TouchJoined, TouchesLeft, Touched, GainedAmong;
    SteadyLists(c, edges);
    SnapshotShows(c, edges);
    ghost var m := Snapshot(c, edges);
    TouchSeen(c, edges, e, k);
    var ePrev := c.ael.Preceding(e, k);
    if c.Touches(ePrev, e) {
      TouchNow(c, e, k, edges);
      SnapshotShows(c, edges);
      TouchedBy(m, Snapshot(c, edges), e, k);
    }
  }

  lemma TouchedBy(m: Moment, m': Moment, e: TEdge, k: nat)
    requires TouchAt(m, e, k) && TouchJoined(m.notes, m'.notes, m.at[k]) && GainedAt(m, m', m.at[k])
    ensures Touched(m, m', e)
  {
  }

  lemma TouchSeen(c: Clipper, edges: set<TEdge>, e: TEdge, k: nat)
    requires c.ael.At(k, e) && Distinct(c.ael.Ael)
    ensures TouchesLeft(Snapshot(c, edges), e) <==> c.Touches(EdgeAt(c.ael.Ael, k - 1), e)
    ensures c.Touches(EdgeAt(c.ael.Ael, k - 1), e) ==> TouchAt(Snapshot(c, edges), e, k) && Snapshot(c, edges).at[k] == e.Curr
  {
    DistinctAt(c.ael.Ael, k);
    var m := Snapshot(c, edges);
    assert m.views == Views(c.ael.Ael) && m.at == MetAt(c.ael.Ael);
    if TouchesLeft(m, e) {
      var j: nat :| TouchAt(m, e, j);
      assert j == k;
    }
    if c.Touches(EdgeAt(c.ael.Ael, k - 1), e) {
      assert TouchAt(m, e, k);
    }
  }

  lemma NoTouch(m: Moment, e: TEdge)
    requires e !in m.order
    ensures !TouchesLeft(m, e)
  {
  }

  method TouchNow(c: Clipper, e: TEdge, ghost k: nat, ghost edges: set<TEdge>)
    requires Steady(c, edges) && c.ael.At(k, e) && c.Touches(EdgeAt(c.ael.Ael, k - 1), e)
    modifies c, c.ael, c.sel, c.outs, c.outs.m_PolyOuts, c.outs.Owner.Keys, edges
    ensures Steady(c, edges) && c.ael.Ael == old(c.ael.Ael)
    ensures Noted(old(c.Output()), c.Output()) && TouchJoined(old(c.Output()), c.Output(), old(e.Curr))
    ensures GainedAmong(old(c.outs.Rings), c.outs.Rings, {old(e.Curr)})
    ensures fresh(c.outs.Owner.Keys - old(c.outs.Owner.Keys))
    ensures forall i :: 0 <= i < |c.outs.m_PolyOuts| ==> c.outs.m_PolyOuts[i] in old(c.outs.m_PolyOuts) || fresh(c.outs.m_PolyOuts[i])
  {
    hide Steady, Noted, Distinct, ActiveEdgeList.Valid, Clipper.Swept, AllReady, TouchNoted, TouchJoined, GainedAmong, Clipper.Touches;
    SteadyLists(c, edges);
    ghost var n := c.Output();
    var touched;
    ghost var op, marked;
    ghost var pt, prev, end := e.Curr, RingEndOf(EdgeAt(c.ael.Ael, k - 1)), RingEndOf(e);
    touched, op, marked := c.TouchLeft(e, k);
    TouchGains(n, marked, c.Output(), prev, end, pt, op);
    SteadyAgain(c, edges, n);
  }

  /** Can the bounds of these two edges end at a maximum now? */
  method MayEnd(c: Clipper, e: TEdge, f: TEdge) returns (possible: bool, ghost i: nat, ghost j: nat)
    requires c.ael.Valid() && Distinct(c.ael.Ael)
    ensures possible <==> e.PolyTyp == f.PolyTyp && e.WindDelta + f.WindDelta == 0 && Leftwards(c.ael.Ael, e, f)
    ensures possible ==> i < j < |c.ael.Ael| && c.ael.Ael[i] == e && c.ael.Ael[j] == f
  {
    hide ActiveEdgeList.Valid, Distinct;
    var first := c.ael.First();
    var found;
    possible, j := false, 0;
    found, i := Find(c.ael, e, first, 0);
    if found && e.PolyTyp == f.PolyTyp && e.WindDelta + f.WindDelta == 0 {
      var next := c.ael.Following(e, i);
      possible, j := Find(c.ael, f, next, i + 1);
      DistinctAt(c.ael.Ael, i);
    }
  }

  method EndMaximum(c: Clipper, e: TEdge, eMaxPair: TEdge, ghost edges: set<TEdge>)
    requires Steady(c, edges) && e in edges && eMaxPair in edges
    modifies c, c.ael, c.sel, c.outs, c.outs.m_PolyOuts, c.outs.Owner.Keys, edges
    ensures Steady(c, edges) && StepMade(c.ael.topX, Maximum(e, eMaxPair), old(Snapshot(c, edges)), Snapshot(c, edges))
    ensures fresh(c.outs.Owner.Keys - old(c.outs.Owner.Keys))
    ensures forall i :: 0 <= i < |c.outs.m_PolyOuts| ==> c.outs.m_PolyOuts[i] in old(c.outs.m_PolyOuts) || fresh(c.outs.m_PolyOuts[i])
  {
    hide Steady, Clipper.Swept, Noted, AllReady, Distinct, MayMeet, Leftwards, Met, Snapshot, GainedAmong, ActiveEdgeList.Valid;
    SteadyLists(c, edges);
    SnapshotShows(c, edges);
    var possible;
    ghost var i, j;
    possible, i, j := MayEnd(c, e, eMaxPair);
    MeetsWhen(c, e, eMaxPair, edges);
    if possible {
      Meet(c, e, eMaxPair, i, j, edges);
      SnapshotShows(c, edges);
    }
  }

  lemma MeetsWhen(c: Clipper, e: TEdge, f: TEdge, edges: set<TEdge>)
    requires e in edges && f in edges
    ensures MayMeet(Snapshot(c, edges), e, f) <==> e.PolyTyp == f.PolyTyp && e.WindDelta + f.WindDelta == 0 && Leftwards(c.ael.Ael, e, f)
  {
    hide Leftwards;
  }

  method Meet(c: Clipper, e: TEdge, eMaxPair: TEdge, ghost i: nat, ghost j: nat, ghost edges: set<TEdge>)
    requires Steady(c, edges) && i < j < |c.ael.Ael| && c.ael.Ael[i] == e && c.ael.Ael[j] == eMaxPair
    requires e.PolyTyp == eMaxPair.PolyTyp && e.WindDelta + eMaxPair.WindDelta == 0
    modifies c, c.ael, c.sel, c.outs, c.outs.m_PolyOuts, c.outs.Owner.Keys, edges
    ensures Steady(c, edges) && Met(old(c.ael.Ael), c.ael.Ael, e, eMaxPair) && Noted(old(c.Output()), c.Output())
    ensures GainedAmong(old(c.outs.Rings), c.outs.Rings, {e.Top})
    ensures fresh(c.outs.Owner.Keys - old(c.outs.Owner.Keys))
    ensures forall i :: 0 <= i < |c.outs.m_PolyOuts| ==> c.outs.m_PolyOuts[i] in old(c.outs.m_PolyOuts) || fresh(c.outs.m_PolyOuts[i])
  {
    hide Steady, Clipper.Swept, Noted, AllReady, Distinct, Without, GainedAmong, PassingRun, MaximumEnded, Clipper.LineupOf, ActiveEdgeList.Valid;
    SteadyLists(c, edges);
    ghost var es, n := c.ael.Ael, c.Output();
    TwiceWithout(es, i, j);
    var ok;
    ghost var trace, xs, met, mid, op;
    ok, trace, xs, met, mid, op := c.DoMaxima(e, eMaxPair, i, j);
    SteadyAgain(c, edges, n);
  }

  lemma TwiceWithout<T>(s: seq<T>, i: nat, j: nat)
    requires i < j < |s|
    ensures |Without(Without(s, j), i)| == |s| - 2
    ensures forall x :: 0 <= x < |s| - 2 ==> Without(Without(s, j), i)[x] in s
  {
  }

  /**
   Any sequence of steps, each of them carried out if it is possible at its time. Winding
   counts, output indices, open polygons and noted joins are right all the way; and when no
   edge is left, every polygon has been closed.
   */
  method Run(c: Clipper, steps: seq<SweepStep>, ghost edges: set<TEdge>) returns (ghost trace: seq<Moment>)
    requires Steady(c, edges) && Complete(edges) && forall i :: 0 <= i < |steps| ==> Known(steps[i], edges)
    modifies c, c.ael, c.sel, c.outs, c.outs.m_PolyOuts, c.outs.Owner.Keys, edges
    ensures SweepRun(c.ael.topX, c.rules, steps, trace)
    ensures trace[0] == old(Snapshot(c, edges)) && trace[|steps|] == Snapshot(c, edges)
    ensures c.Swept(c.ael.Ael) && AllReady(c.Output())
    ensures c.ael.Ael == [] ==> c.Lft == map[] && c.Rgt == map[]
    ensures fresh(c.outs.Owner.Keys - old(c.outs.Owner.Keys))
    ensures forall i :: 0 <= i < |c.outs.m_PolyOuts| ==> c.outs.m_PolyOuts[i] in old(c.outs.m_PolyOuts) || fresh(c.outs.m_PolyOuts[i])
  {
    hide Steady, Snapshot, MomentOk, StepMade, Clipper.Swept, AllReady, ActiveEdgeList.Valid, Distinct;
    var n := 0;
    SteadyMoment(c, edges);
    trace := [Snapshot(c, edges)];
    while n < |steps|
      invariant n <= |steps| && Steady(c, edges)
      invariant SweepRun(c.ael.topX, c.rules, steps[..n], trace) && trace[0] == old(Snapshot(c, edges)) && trace[n] == Snapshot(c, edges)
      invariant fresh(c.outs.Owner.Keys - old(c.outs.Owner.Keys))
      invariant forall i :: 0 <= i < |c.outs.m_PolyOuts| ==> c.outs.m_PolyOuts[i] in old(c.outs.m_PolyOuts) || fresh(c.outs.m_PolyOuts[i])
    {
      assert Known(steps[n], edges);
      CarryOut(c, steps[n], edges);
      SteadyMoment(c, edges);
      trace := trace + [Snapshot(c, edges)];
      n := n + 1;
    }
    assert steps[..n] == steps;
    SteadyLists(c, edges);
    if c.ael.Ael == [] {
      c.SweptLists(c.ael.Ael);
      c.NothingOpen();
    }
  }

  method CarryOut(c: Clipper, step: SweepStep, ghost edges: set<TEdge>)
    requires Steady(c, edges) && Complete(edges) && Known(step, edges)
    modifies c, c.ael, c.sel, c.outs, c.outs.m_PolyOuts, c.outs.Owner.Keys, edges
    ensures Steady(c, edges) && StepMade(c.ael.topX, step, old(Snapshot(c, edges)), Snapshot(c, edges))
    ensures fresh(c.outs.Owner.Keys - old(c.outs.Owner.Keys))
    ensures forall i :: 0 <= i < |c.outs.m_PolyOuts| ==> c.outs.m_PolyOuts[i] in old(c.outs.m_PolyOuts) || fresh(c.outs.m_PolyOuts[i])
  {
    hide Steady, Snapshot, StepMade;
    match step {
      case Minimum(lb, rb) => StartMinimum(c, lb, rb, edges);
      case Intersections(topY) => Intersect(c, topY, edges);
      case Promote(e) => Advance(c, e, edges);
      case Touch(e) => MeetLeft(c, e, edges);
      case Maximum(e, eMaxPair) => EndMaximum(c, e, eMaxPair, edges);
    }
  }
}
