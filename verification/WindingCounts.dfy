/**
 The winding counts of an edge that has just entered the active edge list, computed from
 its nearest neighbour of the same polygon type on the left.
 */
module WindingCounts {
  import opened ClipTypes
  import opened Winding
  import opened Crossing
  import opened LocalExtrema
  import opened Sequences
  import opened Edges
  import opened ActiveEdgeLists

  /** The nearest edge to the left of `edge` that has its polygon type. */
  method FindSameType(edge: TEdge, ael: ActiveEdgeList, ghost i: nat) returns (e: TEdge?, ghost j: nat)
    requires ael.Valid() && ael.At(i, edge)
    ensures e == null ==> j == 0
    ensures e != null ==> 0 < j <= i && ael.At(j - 1, e) && e.PolyTyp == edge.PolyTyp && e != edge
    ensures forall x :: j <= x < i ==> ael.Ael[x].PolyTyp != edge.PolyTyp
    ensures e == null <==> forall x :: 0 <= x < i ==> ael.Ael[x].PolyTyp != edge.PolyTyp
  {
    j := i;
    DistinctAt(ael.Ael, i);
    assert j > 0 ==> ael.Ael[j].PrevInAEL == ael.Ael[j - 1];
    e := edge.PrevInAEL;
    while e != null && e.PolyTyp != edge.PolyTyp
      invariant j <= i && e == EdgeAt(ael.Ael, j - 1)
      invariant forall x :: j <= x < i ==> ael.Ael[x].PolyTyp != edge.PolyTyp
      decreases j
    {
      j := j - 1;
      assert j > 0 ==> ael.Ael[j].PrevInAEL == ael.Ael[j - 1];
      e := e.PrevInAEL;
    }
  }

  /** The own count of an edge whose predecessor of the same type has count `cnt` and direction `delta`. */
  method CountAfter(cnt: int, delta: int, edgeDelta: int, ghost w: int) returns (edgeCnt: int)
    requires (delta == 1 || delta == -1) && (edgeDelta == 1 || edgeDelta == -1)
    requires cnt == Farther(w, w + delta)
    ensures edgeCnt == Farther(w + delta, w + delta + edgeDelta)
  {
    assert cnt * delta == if delta == 1 then cnt else -cnt;
    assert delta * edgeDelta == if delta == 1 then edgeDelta else -edgeDelta;
    if cnt * delta < 0 {
      if Abs(cnt) > 1 {
        if delta * edgeDelta < 0 {
          edgeCnt := cnt;
        } else {
          edgeCnt := cnt + edgeDelta;
        }
      } else {
        edgeCnt := edgeDelta;
      }
    } else if delta * edgeDelta < 0 {
      edgeCnt := cnt;
    } else {
      edgeCnt := cnt + edgeDelta;
    }
  }

  /** The winding number `w2` of the other type as `WindCnt2` records it. */
  function Recorded(rules: Rules, t: PolyType, w2: int): int {
    if rules.Fill(t.Other()) == PftEvenOdd then w2 % 2 else w2
  }

  /** Completes `WindCnt2`, right for the place `j0` of `start`, by the edges from there up to `edge`. */
  method AddOtherCounts(edge: TEdge, start: TEdge?, ael: ActiveEdgeList, rules: Rules, ghost j0: nat, ghost i: nat, ghost v: seq<EdgeView>)
    requires ael.Valid() && ael.At(i, edge) && j0 <= i && start == EdgeAt(ael.Ael, j0)
    requires |v| == |ael.Ael| && Closed(v)
    requires forall x :: 0 <= x < |v| ==> v[x].typ == ael.Ael[x].PolyTyp && v[x].delta == ael.Ael[x].WindDelta
    requires forall x :: j0 <= x < i ==> ael.Ael[x].PolyTyp != edge.PolyTyp
    requires edge.WindCnt2 == Recorded(rules, edge.PolyTyp, WindingAt(v, j0, edge.PolyTyp.Other()))
    modifies edge`WindCnt2
    ensures edge.WindCnt2 == Recorded(rules, edge.PolyTyp, WindingAt(v, i, edge.PolyTyp.Other()))
  {
    var e := start;
    ghost var j := j0;
    while e != edge
      invariant j0 <= j <= i && e == ael.Ael[j]
      invariant edge.WindCnt2 == Recorded(rules, edge.PolyTyp, WindingAt(v, j, edge.PolyTyp.Other()))
      decreases i - j
    {
      assert ael.Ael[j].NextInAEL == ael.Ael[j + 1];
      assert v[j].typ == edge.PolyTyp.Other();
      FlipParity(WindingAt(v, j, edge.PolyTyp.Other()), v[j].delta);
      if rules.Fill(edge.PolyTyp.Other()) == PftEvenOdd {
        edge.WindCnt2 := if edge.WindCnt2 == 0 then 1 else 0;
      } else {
        edge.WindCnt2 := edge.WindCnt2 + e.WindDelta;
      }
      e := e.NextInAEL;
      j := j + 1;
    }
    DistinctAt(ael.Ael, i);
  }

  /** Gives `edge` the counts that belong to its place, when those of the edges to its left are right. */
  method SetWindingCount(edge: TEdge, ael: ActiveEdgeList, rules: Rules, ghost i: nat)
    requires ael.Valid() && ael.At(i, edge) && Closed(Views(ael.Ael))
    requires forall x :: 0 <= x < i ==> CountsRightAt(Views(ael.Ael), rules, x)
    modifies edge`WindCnt, edge`WindCnt2
    ensures CountsRightAt(Views(ael.Ael), rules, i)
  {
    hide AelLinks, CountsRightAt, CountsFit, Recorded;
    ghost var v := Views(ael.Ael);
    var start;
    ghost var j;
    start, j := StartCounts(edge, ael, rules, i, v);
    AddOtherCounts(edge, start, ael, rules, j, i, v);
    SameWindings(v, Views(ael.Ael), rules, i);
  }

  /** Sets the own count, and the other one as it is at `start`, behind which only edges of the other type come. */
  method StartCounts(edge: TEdge, ael: ActiveEdgeList, rules: Rules, ghost i: nat, ghost v: seq<EdgeView>) returns (start: TEdge?, ghost j: nat)
    requires ael.Valid() && ael.At(i, edge) && v == Views(ael.Ael) && Closed(v)
    requires forall x :: 0 <= x < i ==> CountsRightAt(v, rules, x)
    modifies edge`WindCnt, edge`WindCnt2
    ensures j <= i && start == EdgeAt(ael.Ael, j)
    ensures forall x :: j <= x < i ==> ael.Ael[x].PolyTyp != edge.PolyTyp
    ensures OwnFits(rules, edge.View(), WindingAt(v, i, edge.PolyTyp))
    ensures edge.WindCnt2 == Recorded(rules, edge.PolyTyp, WindingAt(v, j, edge.PolyTyp.Other()))
  {
    hide AelLinks, CountsRightAt, CountsFit, OwnFits, Recorded;
    var e;
    e, j := FindSameType(edge, ael, i);
    NoneBetween(v, j, i, edge.PolyTyp);
    if e == null {
      start := ael.First();
      StartFromNothing(edge, rules);
    } else {
      LeftNeighbour(v, rules, j - 1);
      start := ael.Following(e, j - 1);
      StartFrom(edge, e, rules, WindingAt(v, j, edge.PolyTyp));
    }
  }

  /** Counts of `edge` where nothing of its type is on the left. */
  method StartFromNothing(edge: TEdge, rules: Rules)
    requires Unit(edge.View())
    modifies edge`WindCnt, edge`WindCnt2
    ensures OwnFits(rules, edge.View(), 0) && edge.WindCnt2 == Recorded(rules, edge.PolyTyp, 0)
  {
    edge.WindCnt := edge.WindDelta;
    edge.WindCnt2 := 0;
  }

  /** Counts of `edge` right behind `e`, an edge of the same type; `w` is the winding number between the two. */
  method StartFrom(edge: TEdge, e: TEdge, rules: Rules, ghost w: int)
    requires e != edge && e.PolyTyp == edge.PolyTyp && Unit(e.View()) && Unit(edge.View())
    requires rules.Fill(edge.PolyTyp) != PftEvenOdd ==> e.WindCnt == Farther(w - e.WindDelta, w)
    modifies edge`WindCnt, edge`WindCnt2
    ensures OwnFits(rules, edge.View(), w) && edge.WindCnt2 == e.WindCnt2
  {
    if rules.Fill(edge.PolyTyp) == PftEvenOdd {
      edge.WindCnt := edge.WindDelta;
    } else {
      edge.WindCnt := CountAfter(e.WindCnt, e.WindDelta, edge.WindDelta, w - e.WindDelta);
    }
    edge.WindCnt2 := e.WindCnt2;
  }

  /** The own count is right for the winding number `w` on the left. */
  predicate OwnFits(rules: Rules, e: EdgeView, w: int) {
    if rules.Fill(e.typ) == PftEvenOdd then e.cnt == 1 || e.cnt == -1 else e.cnt == Farther(w, w + e.delta)
  }

  /** What the counts of edge `j` say about the region to its right. */
  lemma LeftNeighbour(v: seq<EdgeView>, rules: Rules, j: nat)
    requires j < |v| && Closed(v) && CountsRightAt(v, rules, j)
    ensures rules.Fill(v[j].typ) != PftEvenOdd ==>
      v[j].cnt == Farther(WindingAt(v, j + 1, v[j].typ) - v[j].delta, WindingAt(v, j + 1, v[j].typ))
    ensures v[j].cnt2 == Recorded(rules, v[j].typ, WindingAt(v, j + 1, v[j].typ.Other()))
  {
  }

  /** The counts set on edge `i` do not change the winding numbers they were computed from. */
  lemma SameWindings(v: seq<EdgeView>, v': seq<EdgeView>, rules: Rules, i: nat)
    requires |v| == |v'| && i < |v|
    requires forall x :: 0 <= x < |v| ==> v'[x].typ == v[x].typ && v'[x].delta == v[x].delta
    requires OwnFits(rules, v'[i], WindingAt(v, i, v[i].typ))
    requires v'[i].cnt2 == Recorded(rules, v[i].typ, WindingAt(v, i, v[i].typ.Other()))
    ensures CountsRightAt(v', rules, i)
  {
    WindingSamePrefix(v, v', i, v[i].typ);
    WindingSamePrefix(v, v', i, v[i].typ.Other());
  }
}
