/**
 From the sweep to the solution: the polygons that the sweep leaves are turned the right way,
 joined where they run along each other, thinned out, and, when strictly simple polygons are
 asked for, cut where they touch themselves.
 */
module Execution {
  import opened ClipTypes
  import opened Sequences
  import opened OutPtRings
  import opened OutRecs
  import opened Geometry
  import opened PointInPolygons
  import opened RingJoins
  import opened JoinTests
  import opened RecordTotals
  import opened NotedJoins
  import opened RecordJoins
  import opened FixupPolygons
  import opened SimplePolygons
  import opened Sweep
  import opened SweepRuns
  import opened Loading
  import Forests
  import Edges
  import Bounds
  import Winding

  // ---------------------------------------------------------------- orientation

  /** The ring turns the right way, and has been walked the other way at most. */
  ghost predicate Oriented(r: seq<OutPt>, b: seq<OutPt>, isHole: bool, reverseOutput: bool) {
    if r == [] then b == [] else PerhapsTurned(r, b) && WellTurned(b, isHole, reverseOutput)
  }

  ghost predicate AllOriented(rings: seq<seq<OutPt>>, rings': seq<seq<OutPt>>, holes: seq<bool>, reverseOutput: bool) {
    && |rings'| == |rings| == |holes|
    && forall i :: 0 <= i < |rings| ==> Oriented(rings[i], rings'[i], holes[i], reverseOutput)
  }

  /** Turns every polygon the way its hole flag demands. */
  method FixOrientations(outs: OutRecList, reverseOutput: bool)
    requires outs.Valid()
    modifies outs`Rings, outs.Owner.Keys`Next, outs.Owner.Keys`Prev
    ensures outs.Valid() && AllOriented(old(outs.Rings), outs.Rings, Holes(outs.m_PolyOuts), reverseOutput)
    ensures PointsKept(old(outs.Rings), outs.Rings)
  {
    hide OutRecList.Valid, Oriented, PointsKept;
    ghost var was := outs.Rings;
    outs.Sizes();
    SameNoted(Notes([], was));
    var i := 0;
    while i < |outs.m_PolyOuts|
      invariant outs.Valid() && i <= |outs.m_PolyOuts| == |outs.Rings| == |was|
      invariant forall j :: 0 <= j < i ==> Oriented(was[j], outs.Rings[j], outs.m_PolyOuts[j].IsHole, reverseOutput)
      invariant forall j :: i <= j < |was| ==> outs.Rings[j] == was[j]
      invariant PointsKept(was, outs.Rings)
    {
      ghost var rings := outs.Rings;
      OrientOne(outs, outs.m_PolyOuts[i], reverseOutput, i);
      KeptTwice(was, rings, outs.Rings);
      i := i + 1;
    }
  }

  method OrientOne(outs: OutRecList, outRec: OutRec, reverseOutput: bool, ghost i: nat)
    requires outs.Valid() && i < |outs.m_PolyOuts| == |outs.Rings| && outs.m_PolyOuts[i] == outRec
    modifies outs`Rings, outs.Owner.Keys`Next, outs.Owner.Keys`Prev
    ensures outs.Valid() && |outs.Rings| == |old(outs.Rings)| && outs.Rings == old(outs.Rings)[i := outs.Rings[i]]
    ensures Oriented(old(outs.Rings)[i], outs.Rings[i], outRec.IsHole, reverseOutput)
    ensures PointsKept(old(outs.Rings), outs.Rings)
  {
    hide OutRecList.Valid, RestOk, Backwards, RingArea, PointsKept;
    ghost var rings := outs.Rings;
    SameNoted(Notes([], rings));
    RecordAt(outs, i);
    if outRec.Pts == null {
      return;
    }
    BeforeReversing(outs, i);
    ghost var b := Orient(outs, outRec, reverseOutput, i);
    TurnedKept(rings, i, b);
  }

  /** A record without points holds no ring. */
  lemma RecordAt(outs: OutRecList, i: nat)
    requires outs.Valid() && i < |outs.m_PolyOuts|
    ensures i < |outs.Rings| && (outs.m_PolyOuts[i].Pts == null <==> outs.Rings[i] == [])
  {
    assert Holds(outs.m_PolyOuts[i], outs.Rings[i]);
  }

  lemma TurnedKept(rings: seq<seq<OutPt>>, i: nat, b: seq<OutPt>)
    requires i < |rings| && rings[i] != [] && PerhapsTurned(rings[i], b)
    ensures PointsKept(rings, rings[i := b])
  {
    BackwardsFacts(rings[i]);
    AllPointsTurned(rings, i, b);
  }

  // ---------------------------------------------------------------- thinning out

  /** What is left of a ring needs all of its points, and covers what the ring covered; if nothing is left, it covered nothing. */
  ghost predicate FixedUp(r: seq<OutPt>, b: seq<OutPt>, preserveCol: bool) {
    if b == [] then
      Area2(Places(r)) == 0 && forall pt :: Location(Places(r), pt) != 1
    else
      && Normal(b, preserveCol) && (forall x :: x in b ==> x in r)
      && Area2(Places(b)) == Area2(Places(r))
      && forall pt :: Location(Places(r), pt) != -1 ==> Location(Places(b), pt) == Location(Places(r), pt)
  }

  ghost predicate AllFixedUp(rings: seq<seq<OutPt>>, rings': seq<seq<OutPt>>, preserveCol: bool) {
    |rings'| == |rings| && forall i :: 0 <= i < |rings| ==> FixedUp(rings[i], rings'[i], preserveCol)
  }

  /** Drops the points that are not needed from all polygons, and the polygons that enclose nothing. */
  method FixupAll(outs: OutRecList, preserveCol: bool)
    requires outs.Valid()
    modifies outs`Rings, outs.m_PolyOuts`Pts, outs.Owner.Keys`Next, outs.Owner.Keys`Prev
    ensures outs.Valid() && |outs.Rings| == |outs.m_PolyOuts| && AllFixedUp(old(outs.Rings), outs.Rings, preserveCol)
  {
    hide OutRecList.Valid, FixedUp;
    ghost var was := outs.Rings;
    outs.Sizes();
    var i := 0;
    while i < |outs.m_PolyOuts|
      invariant outs.Valid() && i <= |outs.m_PolyOuts| == |outs.Rings| == |was|
      invariant forall j :: 0 <= j < i ==> FixedUp(was[j], outs.Rings[j], preserveCol)
      invariant forall j :: i <= j < |was| ==> outs.Rings[j] == was[j]
    {
      var outrec := outs.m_PolyOuts[i];
      RecordAt(outs, i);
      if outrec.Pts != null {
        FixupRecord(outs, outrec, preserveCol, i);
      } else {
        NothingToFix(preserveCol);
      }
      i := i + 1;
    }
  }

  lemma NothingToFix(preserveCol: bool)
    ensures FixedUp([], [], preserveCol)
  {
    FlatArea([]);
  }

  method FixupRecord(outs: OutRecList, outrec: OutRec, preserveCol: bool, ghost i: nat)
    requires outs.Valid() && i < |outs.m_PolyOuts| == |outs.Rings| && outs.m_PolyOuts[i] == outrec && outs.Rings[i] != []
    modifies outs`Rings, outrec`Pts, outs.Owner.Keys`Next, outs.Owner.Keys`Prev
    ensures outs.Valid() && |outs.Rings| == |old(outs.Rings)| && outs.Rings == old(outs.Rings)[i := outs.Rings[i]]
    ensures FixedUp(old(outs.Rings)[i], outs.Rings[i], preserveCol)
  {
    hide OutRecList.Valid, RestOk, Holds, Thinner, Normal, FixedUp, IsRing;
    BeforeReversing(outs, i);
    ghost var r, rings := outs.Rings[i], outs.Rings;
    ghost var b := ThinRecord(outrec, preserveCol, outs.m_PolyOuts, rings, outs.Owner, outs.Forward, i);
    outs.Rings := rings[i := b];
    ThinnedValid(outs, rings, i, b);
  }

  /** All is well but for the ring `i`, of which `b` is left. */
  ghost predicate Thinned(recs: seq<OutRec>, rings: seq<seq<OutPt>>, owner: map<OutPt, nat>, fwd: Forests.Merges, i: nat, b: seq<OutPt>)
    reads recs`Pts, recs`Idx, recs`FirstLeft, owner.Keys`Next, owner.Keys`Prev, owner.Keys`Idx, b`Next, b`Prev
  {
    && |rings| == |recs| && i < |recs| && rings[i] != [] && Owned(rings, owner)
    && (forall j :: 0 <= j < |recs| ==> recs[j].Id == j)
    && (forall j :: 0 <= j < |recs| && j != i ==> Holds(recs[j], rings[j]))
    && Forwarding(recs, rings, fwd) && Resolving(rings, owner, fwd) && LeftsOk(recs)
    && Holds(recs[i], b) && (forall x :: x in b ==> x in rings[i])
  }

  lemma ThinnedValid(outs: OutRecList, rings: seq<seq<OutPt>>, i: nat, b: seq<OutPt>)
    requires Thinned(outs.m_PolyOuts, rings, outs.Owner, outs.Forward, i, b) && outs.Rings == rings[i := b]
    ensures outs.Valid()
  {
    var recs, owner, fwd := outs.m_PolyOuts, outs.Owner, outs.Forward;
    OwnedRing(rings, owner, i);
    hide Resolving, Forwarding, LeftsOk, Holds;
    forall k | 0 <= k < |b| ensures b[k] in rings[i] && b[k] in owner && owner[b[k]] == i {
      assert b[k] in b;
      var m :| 0 <= m < |rings[i]| && rings[i][m] == b[k];
    }
    ReplaceRing(recs, rings, owner, owner, i, b);
    LinkedIds(recs, rings[i := b], owner);
    ReplaceResolving(recs, rings, owner, owner, fwd, i, b);
  }

  method ThinRecord(outrec: OutRec, preserveCol: bool, ghost recs: seq<OutRec>, ghost rings: seq<seq<OutPt>>, ghost owner: map<OutPt, nat>,
                    ghost fwd: Forests.Merges, ghost i: nat) returns (ghost b: seq<OutPt>)
    requires RestOk(recs, rings, owner, fwd, i, i) && recs[i] == outrec && IsRing(rings[i])
    modifies outrec`Pts, rings[i]`Next, rings[i]`Prev
    ensures Thinned(recs, rings, owner, fwd, i, b) && FixedUp(rings[i], b, preserveCol)
  {
    hide Owned, Resolving, Forwarding, LeftsOk, Holds, IsRing, Thinner, Normal, FixedUp;
    ghost var r := rings[i];
    HoldsRing(outrec, r);
    ghost var q, k := FixupOutPolygon(outrec, preserveCol, r);
    b := LeftOver(outrec, r, q, k, preserveCol);
    forall j | 0 <= j < |recs| && j != i ensures Holds(recs[j], rings[j]) {
      ApartFromBoth(rings, owner, i, i, j);
      assert old(Holds(recs[j], rings[j]));
    }
  }

  /** What is left, read from where the record begins. */
  lemma LeftOver(outrec: OutRec, r: seq<OutPt>, q: seq<OutPt>, k: nat, preserveCol: bool) returns (b: seq<OutPt>)
    requires Thinner(q, r)
    requires outrec.Pts == null ==> Area2(Places(r)) == 0 && forall pt :: Location(Places(r), pt) != 1
    requires outrec.Pts != null ==> IsRing(q) && k < |q| && outrec.Pts == q[k] && Normal(q, preserveCol)
    ensures Holds(outrec, b) && FixedUp(r, b, preserveCol) && forall x :: x in b ==> x in r
  {
    hide IsRing, Rotate, SuperfluousAt;
    SubSeqMembers(q, r);
    if outrec.Pts == null {
      b := [];
    } else {
      b := Rotate(q, k);
      RotateRing(q, k);
      HoldsRing(outrec, b);
      RotateMembers(q, k);
      AreaRotated(q, k);
      NormalTurned(q, k, preserveCol);
      assert Places(b) == Rotate(Places(q), k);
      forall pt | Location(Places(r), pt) != -1 ensures Location(Places(b), pt) == Location(Places(r), pt) {
        LocationRotate(Places(q), k, pt);
      }
    }
  }

  lemma {:induction false} SubSeqMembers<T>(a: seq<T>, b: seq<T>)
    requires SubSeq(a, b)
    ensures forall x :: x in a ==> x in b
    decreases |b|
  {
    if a != [] {
      var c := b[..|b| - 1];
      if SubSeq(a, c) {
        SubSeqMembers(a, c);
      } else {
        SubSeqMembers(a[..|a| - 1], c);
        assert a == a[..|a| - 1] + [a[|a| - 1]];
      }
    }
  }

  lemma NormalTurned(q: seq<OutPt>, k: nat, preserveCol: bool)
    requires Normal(q, preserveCol) && k < |q|
    ensures Normal(Rotate(q, k), preserveCol)
  {
    assert Places(Rotate(q, k)) == Rotate(Places(q), k);
    Bounds.StillNeeded(Places(q), k, preserveCol);
  }

  // ---------------------------------------------------------------- the whole run

  /**
   The stages of the output: the rings after each of the joins, beginning with those of the
   sweep once they have been turned the right way, and the rings that are left once they have
   been thinned out.
   */
  datatype Stages = Stages(joined: seq<seq<seq<OutPt>>>, fixed: seq<seq<OutPt>>)

  /** The stages follow from what the sweep has put out; all joins that it has noted are carried out. */
  ghost predicate Staged(n: Notes, holes: seq<bool>, s: Stages, preserveCol: bool, reverseOutput: bool) {
    && JoinRun(n.joins, s.joined) && AllOriented(n.rings, s.joined[0], holes, reverseOutput)
    && AllFixedUp(s.joined[|n.joins|], s.fixed, preserveCol)
  }

  /** The solution: no polygon touches itself if strictly simple polygons are asked for. */
  ghost predicate Solved(fixed: seq<seq<OutPt>>, rings: seq<seq<OutPt>>, strictSimple: bool) {
    if strictSimple then
      && (forall i :: 0 <= i < |rings| ==> Simple(Places(rings[i])))
      && TotalArea(rings) == TotalArea(fixed) && AllPoints(rings) == AllPoints(fixed)
    else
      rings == fixed
  }

  /**
   Any run of the sweep and all that follows. The joins noted can be carried out as they
   stand; in the end no polygon has a point that it does not need, and when strictly simple
   polygons are asked for, the same points and the same area are in polygons that do not touch
   themselves.
   */
  method Execute(c: Clipper, steps: seq<SweepStep>, preserveCollinear: bool, reverseOutput: bool, strictSimple: bool, ghost edges: set<Edges.TEdge>)
    returns (ghost trace: seq<Moment>, ghost stages: Stages)
    requires Steady(c, edges) && Complete(edges) && forall i :: 0 <= i < |steps| ==> Known(steps[i], edges)
    modifies c, c.ael, c.sel, c.outs, c.outs.m_PolyOuts, c.outs.Owner.Keys, edges
    ensures SweepRun(c.ael.topX, c.rules, steps, trace) && trace[0] == old(Snapshot(c, edges))
    ensures Staged(trace[|steps|].notes, trace[|steps|].holes, stages, preserveCollinear || strictSimple, reverseOutput)
    ensures c.outs.Valid() && Solved(stages.fixed, c.outs.Rings, strictSimple)
  {
    hide Steady, Complete, Snapshot, SweepRun, Clipper.Swept, OutRecList.Valid, Staged, AllFixedUp, Solved, AllReady, AllOriented, Noted, Holes;
    trace := Run(c, steps, edges);
    SnapshotShows(c, edges);
    OutputValid(c);
    ghost var n, holes := c.Output(), Holes(c.outs.m_PolyOuts);
    ghost var joined, fixed := Finish(c.outs, c.m_Joins, preserveCollinear, reverseOutput, strictSimple);
    stages := Stages(joined, fixed);
    StagedBy(n, holes, stages, preserveCollinear || strictSimple, reverseOutput);
    RunLength(c.ael.topX, c.rules, steps, trace);
  }

  /**
   The same from the very start, with a new clipper: before the first step no edge is active
   and there is no ring and no join.
   */
  method Solve(rules: Winding.Rules, topX: Edges.ScanlineX, steps: seq<SweepStep>, preserveCollinear: bool, reverseOutput: bool,
               strictSimple: bool, ghost edges: set<Edges.TEdge>)
    returns (c: Clipper, ghost trace: seq<Moment>, ghost stages: Stages)
    requires Complete(edges) && forall i :: 0 <= i < |steps| ==> Known(steps[i], edges)
    modifies edges
    ensures fresh(c) && c.rules == rules && SweepRun(topX, rules, steps, trace)
    ensures Blank(trace[0]) && trace[0].known == old(Shown(edges))
    ensures Staged(trace[|steps|].notes, trace[|steps|].holes, stages, preserveCollinear || strictSimple, reverseOutput)
    ensures c.outs.Valid() && Solved(stages.fixed, c.outs.Rings, strictSimple)
  {
    hide Steady, Complete, Snapshot, MomentOk, StepMade, OutRecList.Valid, Staged, Solved, Blank;
    c := Begin(rules, topX, edges);
    trace, stages := Execute(c, steps, preserveCollinear, reverseOutput, strictSimple, edges);
  }

  // ---------------------------------------------------------------- from the contours on

  /** Chooses the steps once the minima and the edges are known. */
  type Plan = (seq<(Edges.TEdge, Edges.TEdge)>, seq<Edges.TEdge>) -> seq<SweepStep>

  predicate SpeaksOf(s: SweepStep, all: seq<Edges.TEdge>) {
    match s
    case Minimum(lb, rb) => lb in all && rb in all
    case Intersections(_) => true
    case Promote(e) => e in all
    case Touch(e) => e in all
    case Maximum(e, f) => e in all && f in all
  }

  /** The steps that speak of these edges only. */
  function OnlyThese(steps: seq<SweepStep>, all: seq<Edges.TEdge>): (ks: seq<SweepStep>)
    ensures forall i :: 0 <= i < |ks| ==> Known(ks[i], SetOf(all))
  {
    if steps == [] then []
    else (if SpeaksOf(steps[0], all) then [steps[0]] else []) + OnlyThese(steps[1..], all)
  }

  /** Steps that speak of these edges only are all kept, in their order. */
  lemma {:induction false} AllKept(steps: seq<SweepStep>, all: seq<Edges.TEdge>)
    requires forall i :: 0 <= i < |steps| ==> Known(steps[i], SetOf(all))
    ensures OnlyThese(steps, all) == steps
  {
    if steps != [] {
      assert Known(steps[0], SetOf(all));
      AllKept(steps[1..], all);
      assert steps == [steps[0]] + steps[1..];
    }
  }

  /**
   The whole way, from the contours to the solution: unless one of them has a horizontal edge
   once it has been cleaned, the contours that enclose anything go over to a new clipper with
   all their edges, each minimum may begin, and whatever steps are chosen then, the run and all
   that follows are as they should be.
   */
  method Clip(contours: seq<Contour>, rules: Winding.Rules, topX: Edges.ScanlineX, plan: Plan, preserveCollinear: bool,
              reverseOutput: bool, strictSimple: bool)
    returns (horizontal: bool, c: Clipper?, pairs: seq<(Edges.TEdge, Edges.TEdge)>, all: seq<Edges.TEdge>, ghost parts: seq<Part>,
             ghost trace: seq<Moment>, ghost stages: Stages)
    ensures horizontal ==> exists i, s :: 0 <= i < |contours| && HasLevel(contours[i], s, preserveCollinear)
    ensures !horizontal ==> Loaded(contours, parts, pairs, all)
    ensures !horizontal ==> forall i :: 0 <= i < |contours| ==> IsPart(contours[i], parts[i], preserveCollinear)
    ensures !horizontal ==> SweepRun(topX, rules, OnlyThese(plan(pairs, all), all), trace) && Blank(trace[0])
    ensures !horizontal ==> forall k :: 0 <= k < |pairs| ==> MayBegin(trace[0], pairs[k].0, pairs[k].1)
    ensures !horizontal ==>
      Staged(trace[|trace| - 1].notes, trace[|trace| - 1].holes, stages, preserveCollinear || strictSimple, reverseOutput)
    ensures !horizontal ==> c != null && fresh(c) && c.outs.Valid() && Solved(stages.fixed, c.outs.Rings, strictSimple)
  {
    hide MomentOk, StepMade, OutRecList.Valid, Staged, Solved, Blank, IsPart, HasLevel, AllPairs, AllEdges, Complete, MayBegin, Opening, OpeningIn, Shown;
    c, trace, stages := null, [], Stages([], []);
    horizontal, pairs, all, parts := Load(contours, preserveCollinear);
    if !horizontal {
      ghost var edges := SetOf(all);
      OpeningShown(edges, pairs);
      c, trace, stages := Solve(rules, topX, OnlyThese(plan(pairs, all), all), preserveCollinear, reverseOutput, strictSimple, edges);
      AllBegin(trace[0], pairs);
    }
  }

  /** What is done with the polygons once the sweep is over. */
  method Finish(outs: OutRecList, m_Joins: seq<Join>, preserveCollinear: bool, reverseOutput: bool, strictSimple: bool)
    returns (ghost joined: seq<seq<seq<OutPt>>>, ghost fixed: seq<seq<OutPt>>)
    requires outs.Valid() && AllReady(Notes(m_Joins, outs.Rings))
    modifies outs, outs.m_PolyOuts, outs.Owner.Keys
    ensures JoinRun(m_Joins, joined) && AllOriented(old(outs.Rings), joined[0], old(Holes(outs.m_PolyOuts)), reverseOutput)
    ensures AllFixedUp(joined[|m_Joins|], fixed, preserveCollinear || strictSimple)
    ensures outs.Valid() && Solved(fixed, outs.Rings, strictSimple)
  {
    hide OutRecList.Valid, AllReady, FixedUp, AllFixedUp, Simple, JoinStep, AllOriented, PointsKept, AllPoints, TotalArea, Noted, Holes;
    ghost var rings := outs.Rings;
    FixOrientations(outs, reverseOutput);
    NothingNoted(m_Joins, rings, outs.Rings);
    StillReady(Notes(m_Joins, rings), Notes(m_Joins, outs.Rings));
    ghost var ranks, evs;
    joined, ranks, evs := JoinCommonEdges(outs, m_Joins, reverseOutput);
    FixupAll(outs, preserveCollinear || strictSimple);
    fixed := outs.Rings;
    if strictSimple {
      DoSimplePolygons(outs);
    }
  }

  lemma StagedBy(n: Notes, holes: seq<bool>, s: Stages, preserveCol: bool, reverseOutput: bool)
    requires JoinRun(n.joins, s.joined) && AllOriented(n.rings, s.joined[0], holes, reverseOutput)
    requires AllFixedUp(s.joined[|n.joins|], s.fixed, preserveCol)
    ensures Staged(n, holes, s, preserveCol, reverseOutput)
  {
  }

  lemma RunLength(topX: Edges.ScanlineX, rules: Winding.Rules, steps: seq<SweepStep>, trace: seq<Moment>)
    requires SweepRun(topX, rules, steps, trace)
    ensures |trace| == |steps| + 1
  {
  }

  lemma OutputValid(c: Clipper)
    requires c.Swept(c.ael.Ael)
    ensures c.outs.Valid()
  {
  }
}
