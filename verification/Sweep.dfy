/**
 The sweep: the active edges, their winding counts, and the polygons they build.

 `Swept(order)` is what every step keeps: the edges, taken in this order, carry correct
 winding counts, carry an output index exactly where the solution begins or ends, and build
 the two ends of well-formed open rings in pairs.
 */
module Sweep {
  import opened ClipTypes
  import opened Sequences
  import opened Winding
  import opened Crossing
  import opened LocalExtrema
  import opened Edges
  import opened ScanlineOrder
  import opened WindingCounts
  import opened ActiveEdgeLists
  import opened Inversions
  import opened SortedEdgeLists
  import opened OutPtRings
  import opened Forests
  import opened OutRecs
  import opened Ownership
  import opened Geometry
  import opened RecordTotals
  import opened NotedJoins
  import opened CrossingNotes

  /** The two sequences hold the same edges. */
  ghost predicate SameEdges(a: seq<TEdge>, b: seq<TEdge>) {
    && |a| == |b|
    && (forall i :: 0 <= i < |a| ==> a[i] in b)
    && (forall i :: 0 <= i < |b| ==> b[i] in a)
  }

  lemma SwapSameEdges(a: seq<TEdge>, b: seq<TEdge>, k: nat)
    requires SameEdges(a, b) && k + 1 < |a|
    ensures SameEdges(Swap(a, k), b)
    ensures a[k] in b && a[k + 1] in b
    ensures forall i :: 0 <= i < |a| ==> a[i] in b
  {
    var s := Swap(a, k);
    forall i | 0 <= i < |b| ensures b[i] in s {
      var j :| 0 <= j < |a| && a[j] == b[i];
      assert s[Moved(k, j)] == a[j];
    }
  }

  /** The place of the last edge before place `j` that carries `idx`, or any index if `idx` is negative; -1 if there is none. */
  ghost function LastCarrier(es: seq<TEdge>, j: nat, idx: int): (p: int)
    requires j <= |es|
    reads es`OutIdx
    ensures -1 <= p < j
    ensures p >= 0 ==> es[p].OutIdx >= 0
  {
    if j == 0 then -1
    else if es[j - 1].OutIdx >= 0 && (idx < 0 || es[j - 1].OutIdx == idx) then j - 1
    else LastCarrier(es, j - 1, idx)
  }

  /**
   The place of the edge on the left whose polygon reaches beyond place `j`: the last one that
   builds anything, unless the other edge of its polygon is on the left as well; then the two
   and all that is between them are passed over.
   */
  ghost function Enclosing(es: seq<TEdge>, j: nat): (p: int)
    requires j <= |es|
    reads es`OutIdx
    ensures -1 <= p < j && (p >= 0 ==> es[p].OutIdx >= 0)
    decreases j, 1
  {
    var p := LastCarrier(es, j, -1);
    if p < 0 then -1 else EnclosingFrom(es, p, LastCarrier(es, p, es[p].OutIdx))
  }

  ghost function EnclosingFrom(es: seq<TEdge>, p: nat, mate: int): (r: int)
    requires p < |es| && es[p].OutIdx >= 0 && -1 <= mate < p
    reads es`OutIdx
    ensures -1 <= r <= p && (r >= 0 ==> es[r].OutIdx >= 0)
    decreases p, 0
  {
    if mate < 0 then p else Enclosing(es, mate)
  }

  /** The edge at place `x` carries an index, and so does another edge between places `a` and `b`, at these ends. */
  ghost predicate Spanned(es: seq<TEdge>, p: int, j: nat, x: nat)
    requires j <= |es|
    reads es`OutIdx
  {
    exists a, b :: SpannedBy(es, p, j, x, a, b)
  }

  ghost predicate SpannedBy(es: seq<TEdge>, p: int, j: nat, x: nat, a: int, b: int)
    requires j <= |es|
    reads es`OutIdx
  {
    p < a <= x <= b < j && 0 <= a < b && es[a].OutIdx == es[b].OutIdx >= 0
  }

  lemma {:induction false} LastCarrierMeans(es: seq<TEdge>, j: nat, idx: int)
    requires j <= |es|
    ensures var p := LastCarrier(es, j, idx);
      && (p >= 0 ==> es[p].OutIdx >= 0 && (idx < 0 || es[p].OutIdx == idx))
      && forall x :: 0 <= x && p < x < j ==> es[x].OutIdx < 0 || (idx >= 0 && es[x].OutIdx != idx)
  {
    if j > 0 && !(es[j - 1].OutIdx >= 0 && (idx < 0 || es[j - 1].OutIdx == idx)) {
      LastCarrierMeans(es, j - 1, idx);
    }
  }

  /**
   The enclosing edge builds one end of a polygon whose other end is not to its left; and every
   edge between it and place `j` that builds anything belongs to, or stands inside, a polygon
   both of whose ends are in between.
   */
  lemma {:induction false} EnclosingMeans(es: seq<TEdge>, j: nat)
    requires j <= |es|
    ensures var p := Enclosing(es, j);
      && (p >= 0 ==> es[p].OutIdx >= 0 && forall x :: 0 <= x < p ==> es[x].OutIdx != es[p].OutIdx)
      && forall x :: 0 <= x && p < x < j && es[x].OutIdx >= 0 ==> Spanned(es, p, j, x)
    decreases j
  {
    LastCarrierMeans(es, j, -1);
    var c := LastCarrier(es, j, -1);
    if c >= 0 {
      LastCarrierMeans(es, c, es[c].OutIdx);
      var mate := LastCarrier(es, c, es[c].OutIdx);
      if mate >= 0 {
        EnclosingMeans(es, mate);
        WithinMates(es, j, c, mate, Enclosing(es, mate));
      }
    }
  }

  lemma WithinMates(es: seq<TEdge>, j: nat, c: nat, mate: nat, p: int)
    requires mate < c < j <= |es| && es[mate].OutIdx == es[c].OutIdx >= 0 && -1 <= p < mate
    requires forall x :: c < x < j ==> es[x].OutIdx < 0
    requires forall x :: 0 <= x && p < x < mate && es[x].OutIdx >= 0 ==> Spanned(es, p, mate, x)
    ensures forall x :: 0 <= x && p < x < j && es[x].OutIdx >= 0 ==> Spanned(es, p, j, x)
  {
    forall x | 0 <= x && p < x < j && es[x].OutIdx >= 0 ensures Spanned(es, p, j, x) {
      if x < mate {
        var a, b :| SpannedBy(es, p, mate, x, a, b);
        assert SpannedBy(es, p, j, x, a, b);
      } else {
        assert SpannedBy(es, p, j, x, mate, c);
      }
    }
  }

  /** One edge further to the left. */
  lemma EnclosingStep(es: seq<TEdge>, j: nat)
    requires 0 < j <= |es|
    ensures es[j - 1].OutIdx < 0 ==> Enclosing(es, j) == Enclosing(es, j - 1)
    ensures es[j - 1].OutIdx >= 0 ==> Enclosing(es, j) == EnclosingFrom(es, j - 1, LastCarrier(es, j - 1, es[j - 1].OutIdx))
    ensures forall idx, p :: 0 <= idx && j <= p < |es| && es[p].OutIdx == idx ==>
      EnclosingFrom(es, p, LastCarrier(es, j, idx))
      == if es[j - 1].OutIdx == idx then Enclosing(es, j - 1) else EnclosingFrom(es, p, LastCarrier(es, j - 1, idx))
  {
  }

  lemma NoCarrier(es: seq<TEdge>)
    ensures Enclosing(es, 0) == -1
    ensures forall idx, p :: 0 <= idx && 0 <= p < |es| && es[p].OutIdx == idx ==> EnclosingFrom(es, p, LastCarrier(es, 0, idx)) == p
  {
  }

  lemma EdgeOnLeft(es: seq<TEdge>, j: int)
    requires 0 <= j <= |es|
    ensures j == 0 <==> EdgeAt(es, j - 1) == null
    ensures j > 0 ==> EdgeAt(es, j - 1) == es[j - 1]
  {
  }

  /** In this order the edges meet the scanline at `topY` from left to right. */
  ghost predicate Ascending(topX: ScanlineX, order: seq<TEdge>, topY: int) {
    forall i, j :: 0 <= i < j < |order| ==> topX(order[i], topY) <= topX(order[j], topY)
  }

  /** The records are those of the pairs that are inverted at `topY`, one for each, and none lies above that. */
  ghost predicate InvertedListed(topX: ScanlineX, topY: int, key: Key, es: seq<TEdge>, nodes: seq<IntersectNode>) {
    && (forall e :: e in es ==> key(e) == topX(e, topY))
    && multiset(Pairs(nodes)) == multiset(Inverted(es, key))
    && (forall nd :: nd in nodes ==> nd.Pt.Y >= topY)
  }

  lemma StillListed(topX: ScanlineX, topY: int, key: Key, es: seq<TEdge>, nodes: seq<IntersectNode>, nodes': seq<IntersectNode>)
    requires InvertedListed(topX, topY, key, es, nodes) && multiset(nodes') == multiset(nodes)
    ensures InvertedListed(topX, topY, key, es, nodes')
  {
    PairsRearranged(nodes, nodes');
    forall nd | nd in nodes' ensures nd.Pt.Y >= topY {
      assert nd in multiset(nodes') && nd in nodes;
    }
  }

  /** Which of two edges that part builds the front of the new polygon. */
  ghost predicate FrontAndBack(e1: TEdge, e2: TEdge)
    reads e1`Side, e2`Side
  {
    Front(e1, e2).Side == EsLeft && Back(e1, e2).Side == EsRight
  }

  /** To the winding counts `e` still is what `v` shows. */
  ghost predicate ShowsAs(e: TEdge, v: EdgeView)
    reads e`WindDelta, e`WindCnt, e`WindCnt2, e`OutIdx
  {
    && e.PolyTyp == v.typ && e.WindDelta == v.delta && e.WindCnt == v.cnt && e.WindCnt2 == v.cnt2
    && (e.OutIdx >= 0 <==> v.outIdx >= 0)
  }

  /** Once the neighbours `k` and `k + 1` have been updated for their crossing, the exchanged order is right. */
  lemma CrossedViews(order: seq<TEdge>, k: nat, s: seq<EdgeView>, rules: Rules)
    requires |s| == |order| && k + 1 < |s| && Right(s, rules)
    requires forall j :: 0 <= j < |order| && j != k && j != k + 1 ==> ShowsAs(order[j], s[j])
    requires order[k].PolyTyp == s[k].typ && order[k].WindDelta == s[k].delta
    requires order[k + 1].PolyTyp == s[k + 1].typ && order[k + 1].WindDelta == s[k + 1].delta
    requires var (a, b) := CrossCounts(rules, s[k], s[k + 1]);
      && order[k].WindCnt == a.cnt && order[k].WindCnt2 == a.cnt2
      && order[k + 1].WindCnt == b.cnt && order[k + 1].WindCnt2 == b.cnt2
      && (order[k].OutIdx >= 0, order[k + 1].OutIdx >= 0)
         == OutAfter(Decision(rules, a, b, s[k].outIdx >= 0, s[k + 1].outIdx >= 0), s[k].outIdx >= 0, s[k + 1].outIdx >= 0)
    ensures Right(Views(Swap(order, k)), rules)
  {
    hide Right, CrossCounts, Decision, OutAfter;
    var order' := Swap(order, k);
    var s' := Views(order');
    forall j | 0 <= j < |s| && j != k && j != k + 1
      ensures s'[j].typ == s[j].typ && s'[j].delta == s[j].delta && s'[j].cnt == s[j].cnt && s'[j].cnt2 == s[j].cnt2
      ensures s'[j].outIdx >= 0 <==> s[j].outIdx >= 0
    {
      assert order'[j] == order[j];
    }
    CrossedKeepsRight(s, s', rules, k);
  }

  lemma MadeBy(rules: Rules, e1: TEdge, e2: TEdge, pt: IntPoint, m: Lineup, m': Lineup, k: nat, x: CrossEvent)
    requires k + 1 < |m.order| && |m.views| == |m.order| && m.order[k] == e1 && m.order[k + 1] == e2
    requires m'.order == Swap(m.order, k) && |m'.views| == |m.views|
    requires CrossedAs(rules, e1, e2, pt, m.views[k], m.views[k + 1], m'.views[k + 1], m'.views[k], m.notes, m'.notes, x)
    ensures CrossingMade(rules, IntersectNode(e1, e2, pt), m, m', k, x)
  {
  }

  class Clipper {
    const rules: Rules
    const ael: ActiveEdgeList
    const sel: SortedEdgeList
    const outs: OutRecList
    var m_Joins: seq<Join>
    ghost var Lft: Owners
    ghost var Rgt: Owners

    constructor (rules: Rules, topX: ScanlineX)
      ensures this.rules == rules && ael.topX == topX && fresh(ael) && fresh(sel) && fresh(outs)
      ensures Swept([]) && ael.Ael == [] && sel.m_IntersectList == [] && m_Joins == []
      ensures outs.m_PolyOuts == [] && outs.Rings == [] && outs.Owner == map[]
    {
      hide AelLinks, OutRecList.Valid, SelLinks;
      this.rules := rules;
      ael := new ActiveEdgeList(topX);
      sel := new SortedEdgeList();
      outs := new OutRecList();
      m_Joins, Lft, Rgt := [], map[], map[];
    }

    /** The lists are linked and every open polygon is built by two active edges. */
    ghost predicate Building()
      reads this`Lft, this`Rgt, ael, ael.Ael`NextInAEL, ael.Ael`PrevInAEL, ael.Ael`OutIdx, ael.Ael`Side
      reads outs, outs.m_PolyOuts, outs.Owner.Keys
    {
      ael.Valid() && outs.Valid() && OwnersOk(ael.Ael, Lft, Rgt, outs.Rings)
    }

    /** The counts and output indices of these edges, in this order, are right. */
    ghost predicate RightOrder(order: seq<TEdge>)
      reads order`WindDelta, order`WindCnt, order`WindCnt2, order`OutIdx, order`Side
    {
      Right(Views(order), rules)
    }

    ghost predicate Swept(order: seq<TEdge>)
      reads this`Lft, this`Rgt, ael, ael.Ael`NextInAEL, ael.Ael`PrevInAEL, ael.Ael`OutIdx, ael.Ael`Side
      reads outs, outs.m_PolyOuts, outs.Owner.Keys
      reads order`WindDelta, order`WindCnt, order`WindCnt2, order`OutIdx, order`Side
    {
      Building() && Distinct(order) && SameEdges(order, ael.Ael) && Right(Views(order), rules)
    }

    /** The point that `e` has added to its polygon last, if it builds one. */
    ghost function End(e: TEdge): OutPt?
      reads e`OutIdx, e`Side, outs`Rings
    {
      LastPt(outs.Rings, e.OutIdx, e.Side)
    }

    /** The joins noted so far, and the rings. */
    ghost function Output(): Notes
      reads this`m_Joins, outs`Rings
    {
      Notes(m_Joins, outs.Rings)
    }

    /** Which records lie in which, and which are holes. */
    ghost function Ranks(): Hierarchy
      reads outs`m_PolyOuts, outs.m_PolyOuts`FirstLeft, outs.m_PolyOuts`IsHole
    {
      HierarchyOf(outs.m_PolyOuts)
    }

    /** The edges in this order, what they show, and the output. */
    ghost function LineupOf(order: seq<TEdge>): Lineup
      reads order`WindDelta, order`WindCnt, order`WindCnt2, order`OutIdx, order`Side, this`m_Joins, outs`Rings
    {
      Lineup(order, Views(order), Output())
    }

    lemma LineupShows(order: seq<TEdge>)
      ensures LineupOf(order).order == order && LineupOf(order).views == Views(order) && LineupOf(order).notes == Output()
    {
    }

    /** The other edges build something as long as they did before. */
    twostate predicate OthersGoOn(es: seq<TEdge>, e1: TEdge, e2: TEdge)
      reads es`OutIdx
    {
      forall g :: g in es && g != e1 && g != e2 ==> (g.OutIdx >= 0 <==> old(g.OutIdx) >= 0)
    }

    /** When no edge is active, no polygon is open. */
    lemma NothingOpen()
      requires Building() && ael.Ael == []
      ensures Lft == map[] && Rgt == map[]
    {
      assert forall k :: k !in Lft && k !in Rgt;
    }

    // ---------------------------------------------------------------- output points

    /** Adds `pt` to the polygon that `e` builds; what the other edges have added stays. */
    method AddOutPt(e: TEdge, pt: IntPoint) returns (op: OutPt)
      requires Building() && e in ael.Ael && e.OutIdx >= 0
      modifies outs, outs.m_PolyOuts`Pts, outs.Owner.Keys`Next, outs.Owner.Keys`Prev
      ensures Building() && outs.m_PolyOuts == old(outs.m_PolyOuts)
      ensures fresh(outs.Owner.Keys - old(outs.Owner.Keys))
      ensures End(e) == op && op.Pt == pt && EndsKept(old(outs.Rings), outs.Rings, e.OutIdx, e.Side)
      ensures e.OutIdx < |old(outs.Rings)| && old(outs.Rings)[e.OutIdx] != []
      ensures PointAdded(old(outs.Rings), outs.Rings, e.OutIdx, e.Side, pt, op) && PointsKept(old(outs.Rings), outs.Rings)
    {
      hide AelLinks, OutRecList.Valid, OwnersOk, EndsKept, PointsKept, AllPoints;
      ghost var rings := outs.Rings;
      ExactlyTwo(ael.Ael, Lft, Rgt, rings, e);
      op := outs.PushPoint(e.OutIdx, e.Side, pt);
      EndsAfterPush(ael.Ael, Lft, Rgt, rings, outs.Rings, e, op);
      PointKept(rings, outs.Rings, e.OutIdx, e.Side, pt, op);
    }

    /** The record to the left of `e`: that of the nearest edge on the left whose polygon is not closed off in between. */
    method SetHoleState(e: TEdge, ghost k: nat) returns (left: OutRec?)
      requires Building() && ael.At(k, e)
      ensures left == LeftRecord(k)
      ensures left == null || left in outs.m_PolyOuts
    {
      hide Building, ActiveEdgeList.Valid, OutRecList.Valid, LastCarrier, Enclosing, EnclosingFrom, EdgeAt;
      BuildingLists();
      ghost var es, j, p := ael.Ael, k, -1;
      var e2 := ael.Preceding(e, k);
      var eTmp: TEdge? := null;
      while e2 != null
        invariant 0 <= j <= k && e2 == EdgeAt(es, j - 1)
        invariant eTmp == null ==> Enclosing(es, k) == Enclosing(es, j)
        invariant eTmp != null ==> j <= p < |es| && es[p] == eTmp && eTmp.OutIdx >= 0
        invariant eTmp != null ==> Enclosing(es, k) == EnclosingFrom(es, p, LastCarrier(es, j, eTmp.OutIdx))
        decreases j
      {
        EdgeOnLeft(es, j);
        EnclosingStep(es, j);
        if e2.OutIdx >= 0 {
          if eTmp == null {
            eTmp := e2;
            p := j - 1;
          } else if eTmp.OutIdx == e2.OutIdx {
            eTmp := null;
          }
        }
        j := j - 1;
        e2 := ael.Preceding(e2, j);
      }
      EdgeOnLeft(es, j);
      NoCarrier(es);
      if eTmp == null {
        return null;
      }
      BuiltRings(eTmp);
      BuildingRecords();
      left := outs.m_PolyOuts[eTmp.OutIdx];
    }

    lemma BuildingRecords()
      requires Building()
      ensures |outs.Rings| == |outs.m_PolyOuts|
    {
      outs.Sizes();
    }

    /** The record that the edge at place `k` lies in, if any. */
    ghost function LeftRecord(k: nat): OutRec?
      requires k <= |ael.Ael|
      reads this, ael`Ael, ael.Ael`OutIdx, outs`m_PolyOuts
    {
      var p := Enclosing(ael.Ael, k);
      if p < 0 || !(0 <= ael.Ael[p].OutIdx < |outs.m_PolyOuts|) then null else outs.m_PolyOuts[ael.Ael[p].OutIdx]
    }

    /** A new record with the point `pt`, in the place in the hierarchy that edge `e` is in. */
    method AddRecord(e: TEdge, pt: IntPoint, ghost k: nat) returns (rec: OutRec, op: OutPt)
      requires Building() && ael.At(k, e)
      modifies outs
      ensures ael.Valid() && outs.Valid() && OwnersOk(ael.Ael, Lft, Rgt, old(outs.Rings)) && op.Pt == pt && fresh(op) && fresh(rec)
      ensures outs.m_PolyOuts == old(outs.m_PolyOuts) + [rec] && outs.Rings == old(outs.Rings) + [[op]]
      ensures rec.Idx == |old(outs.Rings)| && outs.Owner.Keys == old(outs.Owner.Keys) + {op}
      ensures rec.FirstLeft == old(LeftRecord(k)) && rec.IsHole == (rec.FirstLeft != null && !rec.FirstLeft.IsHole)
    {
      hide OutRecList.Valid, AelLinks, OwnersOk, LastCarrier;
      var left := SetHoleState(e, k);
      hide LeftRecord;
      outs.Sizes();
      rec, op := outs.NewRecord(pt, left);
    }

    /** Starts a polygon at `pt`: `e`, at place `k`, builds its front and `f` its back. */
    method StartPoly(e: TEdge, f: TEdge, pt: IntPoint) returns (op: OutPt, ghost k: nat, ghost rec: OutRec)
      requires Building() && e in ael.Ael && f in ael.Ael && e != f && e.OutIdx < 0 && f.OutIdx < 0
      modifies this`Lft, this`Rgt, outs, e`OutIdx, e`Side, f`OutIdx, f`Side
      ensures Building() && op.Pt == pt
      ensures forall i :: 0 <= i < |outs.m_PolyOuts| ==> outs.m_PolyOuts[i] in old(outs.m_PolyOuts) || fresh(outs.m_PolyOuts[i])
      ensures fresh(outs.Owner.Keys - old(outs.Owner.Keys))
      ensures e.OutIdx == f.OutIdx == |old(outs.Rings)| && e.Side == EsLeft && f.Side == EsRight
      ensures End(e) == End(f) == op && outs.Rings == old(outs.Rings) + [[op]]
      ensures ael.At(k, e) && outs.m_PolyOuts == old(outs.m_PolyOuts) + [rec]
      ensures rec.FirstLeft == old(LeftRecord(k)) && rec.IsHole == (rec.FirstLeft != null && !rec.FirstLeft.IsHole)
    {
      hide OutRecList.Valid, AelLinks, OwnersOk, LeftRecord;
      k :| 0 <= k < |ael.Ael| && ael.Ael[k] == e;
      ghost var rings := outs.Rings;
      var outRec;
      outRec, op := AddRecord(e, pt, k);
      rec := outRec;
      OpenRing(e, f, outRec.Idx, ael.Ael, Lft, Rgt, rings, [op]);
      Lft, Rgt := Lft[e.OutIdx := e], Rgt[e.OutIdx := f];
    }

    /**
     Starts a polygon where `e1` and `e2` part; the steeper or horizontal order decides which
     builds the front. When the edge to the left runs along the new one, its polygon gets a
     point here too, and the two points are noted for joining.
     */
    method AddLocalMinPoly(e1: TEdge, e2: TEdge, pt: IntPoint) returns (result: OutPt, ghost k: nat, ghost rec: OutRec)
      requires Building() && e1 in ael.Ael && e2 in ael.Ael && e1 != e2 && e1.OutIdx < 0 && e2.OutIdx < 0
      modifies this`Lft, this`Rgt, this`m_Joins, outs, outs.m_PolyOuts`Pts, outs.Owner.Keys`Next, outs.Owner.Keys`Prev
      modifies e1`OutIdx, e1`Side, e2`OutIdx, e2`Side
      ensures Building() && result.Pt == pt
      ensures forall i :: 0 <= i < |outs.m_PolyOuts| ==> outs.m_PolyOuts[i] in old(outs.m_PolyOuts) || fresh(outs.m_PolyOuts[i])
      ensures fresh(outs.Owner.Keys - old(outs.Owner.Keys))
      ensures e1.OutIdx == e2.OutIdx == |old(outs.Rings)| && End(e1) == End(e2) == result && FrontAndBack(e1, e2)
      ensures ael.At(k, Front(e1, e2)) && outs.m_PolyOuts == old(outs.m_PolyOuts) + [rec]
      ensures rec.FirstLeft == old(LeftRecord(k)) && rec.IsHole == (rec.FirstLeft != null && !rec.FirstLeft.IsHole)
      ensures var e, prevE := Front(e1, e2), EdgeBefore(ael.Ael, k, Back(e1, e2));
        MinimumStarted(RunsBeside(ael.topX, prevE, e, pt), old(Output()), Output(), result, RingEndOf(prevE), pt, e.Top)
      ensures Noted(old(Output()), Output())
    {
      hide AelLinks, OutRecList.Valid, OwnersOk, LeftRecord, EdgeBefore, RunsBeside, MinimumStarted, Noted, LastPt;
      var e, f := e2, e1;
      if IsHorizontal(e2) || e1.Dx > e2.Dx {
        e, f := e1, e2;
      }
      ghost var n := Output();
      result, k, rec := StartPoly(e, f, pt);
      JoinBeside(e, f, pt, result, k, n);
    }

    /** Notes a join of the new polygon with that of the edge before it, if this runs along its front edge `e`. */
    method JoinBeside(e: TEdge, f: TEdge, pt: IntPoint, result: OutPt, ghost k: nat, ghost n: Notes)
      requires Building() && ael.At(k, e) && f in ael.Ael && e != f && e.OutIdx == f.OutIdx >= 0 && End(e) == End(f) == result
      requires Output() == Notes(n.joins, n.rings + [[result]]) && result.Pt == pt
      modifies this`m_Joins, outs, outs.m_PolyOuts`Pts, outs.Owner.Keys`Next, outs.Owner.Keys`Prev
      ensures Building() && outs.m_PolyOuts == old(outs.m_PolyOuts)
      ensures fresh(outs.Owner.Keys - old(outs.Owner.Keys))
      ensures End(e) == End(f) == result && Noted(n, Output())
      ensures var prevE := EdgeBefore(ael.Ael, k, f);
        MinimumStarted(RunsBeside(ael.topX, prevE, e, pt), n, Output(), result, RingEndOf(prevE), pt, e.Top)
    {
      hide AelLinks, OutRecList.Valid, OwnersOk, EdgeBefore, SlopesEqual4, PointAdded, LastPt, Noted, PointsKept;
      var prevE := PrevOf(e, f, k);
      if prevE != null && prevE.OutIdx >= 0 && prevE.Top.Y < pt.Y && e.Top.Y < pt.Y {
        var xPrev, xE := ael.topX(prevE, pt.Y), ael.topX(e, pt.Y);
        if xPrev == xE && e.WindDelta != 0 && prevE.WindDelta != 0
           && SlopesEqual4(IntPoint(xPrev, pt.Y), prevE.Top, IntPoint(xE, pt.Y), e.Top) {
          DifferentEnds(ael.Ael, Lft, Rgt, outs.Rings, prevE);
          var outPt := AddOutPt(prevE, pt);
          m_Joins := m_Joins + [Join(result, outPt, e.Top)];
        }
      }
      StartedReady(RunsBeside(ael.topX, prevE, e, pt), n, Output(), result, RingEndOf(prevE), pt, e.Top);
    }

    /** The edge before `e`, not counting `f`. */
    method PrevOf(e: TEdge, f: TEdge, ghost k: nat) returns (prevE: TEdge?)
      requires Building() && ael.At(k, e) && f in ael.Ael && e != f
      ensures prevE == EdgeBefore(ael.Ael, k, f)
      ensures prevE != null ==> prevE in ael.Ael && prevE != e && prevE != f
    {
      hide OutRecList.Valid, OwnersOk;
      DistinctAt(ael.Ael, k);
      assert k > 0 ==> ael.Ael[k].PrevInAEL == ael.Ael[k - 1];
      prevE := e.PrevInAEL;
      if prevE == f {
        DistinctAt(ael.Ael, k - 1);
        assert k > 1 ==> ael.Ael[k - 1].PrevInAEL == ael.Ael[k - 2];
        prevE := f.PrevInAEL;
      }
    }

    /** The ends that `e1` and `e2` build meet: their polygon closes, or their polygons join. */
    method AddLocalMaxPoly(e1: TEdge, e2: TEdge, pt: IntPoint) returns (ghost op: OutPt, ghost rings: seq<seq<OutPt>>, ghost hole: nat)
      requires Building() && e1 in ael.Ael && e2 in ael.Ael && e1 != e2 && e1.OutIdx >= 0 && e2.OutIdx >= 0
      modifies this`Lft, this`Rgt, outs, outs.m_PolyOuts, outs.Owner.Keys`Next, outs.Owner.Keys`Prev
      modifies ael.Ael`OutIdx, ael.Ael`Side
      ensures Building() && e1.OutIdx == e2.OutIdx == UNASSIGNED
      ensures 0 <= old(e1.OutIdx) < |old(outs.Rings)| && old(outs.Rings)[old(e1.OutIdx)] != []
      ensures PointAdded(old(outs.Rings), rings, old(e1.OutIdx), old(e1.Side), pt, op)
      ensures PolygonsMet(rings, outs.Rings, old(e1.OutIdx), old(e1.Side), old(e2.OutIdx), old(e2.Side))
      ensures RanksMet(old(Ranks()), Ranks(), old(e1.OutIdx), old(e2.OutIdx), hole)
      ensures forall i :: 0 <= i < |outs.m_PolyOuts| ==> outs.m_PolyOuts[i] in old(outs.m_PolyOuts) || fresh(outs.m_PolyOuts[i])
      ensures fresh(outs.Owner.Keys - old(outs.Owner.Keys))
      ensures OthersBuild(ael.Ael, e1, e2, old(Views(ael.Ael)), old(outs.Rings), Views(ael.Ael), outs.Rings)
      ensures PointsKept(old(outs.Rings), outs.Rings)
    {
      hide ActiveEdgeList.Valid, OutRecList.Valid, OwnersOk, PointAdded, PolygonsMet, PointsKept, OthersBuild, EndsKept, Views, RanksMet, Ranks;
      ghost var v, was := Views(ael.Ael), outs.Rings;
      var newOp := AddOutPt(e1, pt);
      op, rings := newOp, outs.Rings;
      PushKeepsOthers(ael.Ael, Lft, Rgt, was, rings, e1, e2);
      assert Ranks() == old(Ranks());
      hole := MeetEnds(e1, e2);
      KeptTwice(was, rings, outs.Rings);
      OthersTwice(ael.Ael, e1, e2, v, was, v, rings, Views(ael.Ael), outs.Rings);
    }

    /** The ends that the two edges build are at one point by now. */
    method MeetEnds(e1: TEdge, e2: TEdge) returns (ghost hole: nat)
      requires Building() && e1 in ael.Ael && e2 in ael.Ael && e1 != e2 && e1.OutIdx >= 0 && e2.OutIdx >= 0
      modifies this`Lft, this`Rgt, outs, outs.m_PolyOuts, outs.Owner.Keys`Next, outs.Owner.Keys`Prev
      modifies ael.Ael`OutIdx, ael.Ael`Side
      ensures Building() && e1.OutIdx == e2.OutIdx == UNASSIGNED
      ensures PolygonsMet(old(outs.Rings), outs.Rings, old(e1.OutIdx), old(e1.Side), old(e2.OutIdx), old(e2.Side))
      ensures RanksMet(old(Ranks()), Ranks(), old(e1.OutIdx), old(e2.OutIdx), hole)
      ensures forall i :: 0 <= i < |outs.m_PolyOuts| ==> outs.m_PolyOuts[i] in old(outs.m_PolyOuts) || fresh(outs.m_PolyOuts[i])
      ensures fresh(outs.Owner.Keys - old(outs.Owner.Keys))
      ensures OthersBuild(ael.Ael, e1, e2, old(Views(ael.Ael)), old(outs.Rings), Views(ael.Ael), outs.Rings)
      ensures PointsKept(old(outs.Rings), outs.Rings)
    {
      hide Building, RingsJoined, PointsKept, OthersBuild, Views, AllPoints, Ranked, Ranks;
      ghost var v, was := Views(ael.Ael), outs.Rings;
      hole := 0;
      if e1.OutIdx == e2.OutIdx {
        ClosePolygon(e1, e2);
      } else if e1.OutIdx < e2.OutIdx {
        hole := AppendPolygon(e1, e2);
      } else {
        hole := AppendPolygon(e2, e1);
        OthersEither(ael.Ael, e1, e2, v, was, Views(ael.Ael), outs.Rings);
      }
    }

    method ClosePolygon(e1: TEdge, e2: TEdge)
      requires Building() && e1 in ael.Ael && e2 in ael.Ael && e1 != e2 && e1.OutIdx == e2.OutIdx >= 0
      modifies this`Lft, this`Rgt, e1`OutIdx, e2`OutIdx
      ensures Building() && e1.OutIdx == e2.OutIdx == UNASSIGNED
      ensures OthersBuild(ael.Ael, e1, e2, old(Views(ael.Ael)), outs.Rings, Views(ael.Ael), outs.Rings)
      ensures PointsKept(outs.Rings, outs.Rings)
    {
      hide ActiveEdgeList.Valid, OutRecList.Valid, OwnersOk, OthersBuild, Views;
      ghost var k := e1.OutIdx;
      CloseRing(e1, e2, ael.Ael, Lft, Rgt, outs.Rings);
      Lft, Rgt := Lft - {k}, Rgt - {k};
    }

    /**
     Joins the polygon of `e2` to that of `e1` at the ends the two edges build; the edge that
     builds the other end of the former now builds the joined polygon, on the side of `e1`.
     */
    method AppendPolygon(e1: TEdge, e2: TEdge) returns (ghost hole: nat)
      requires Building() && e1 in ael.Ael && e2 in ael.Ael && e1 != e2 && e1.OutIdx >= 0 && e2.OutIdx >= 0
      requires e1.OutIdx != e2.OutIdx
      modifies this`Lft, this`Rgt, outs, outs.m_PolyOuts, outs.Owner.Keys`Next, outs.Owner.Keys`Prev
      modifies ael.Ael`OutIdx, ael.Ael`Side
      ensures Building() && e1.OutIdx == e2.OutIdx == UNASSIGNED
      ensures RingsJoined(old(outs.Rings), outs.Rings, old(e1.OutIdx), old(e1.Side), old(e2.OutIdx), old(e2.Side))
      ensures old(e1.OutIdx >= 0 && e2.OutIdx >= 0) && Ranked(old(Ranks()), Ranks(), old(e1.OutIdx), old(e2.OutIdx), hole)
      ensures forall i :: 0 <= i < |outs.m_PolyOuts| ==> outs.m_PolyOuts[i] in old(outs.m_PolyOuts) || fresh(outs.m_PolyOuts[i])
      ensures fresh(outs.Owner.Keys - old(outs.Owner.Keys))
      ensures OthersBuild(ael.Ael, e1, e2, old(Views(ael.Ael)), old(outs.Rings), Views(ael.Ael), outs.Rings)
      ensures PointsKept(old(outs.Rings), outs.Rings)
    {
      hide ActiveEdgeList.Valid, OutRecList.Valid, OwnersOk, LastPt, Appended, Taken, PointsKept, Reowned, OthersBuild, Views, Ranked, HierarchyOf;
      ghost var rings, owner := outs.Rings, outs.Owner;
      BuiltRings(e1);
      BuiltRings(e2);
      ghost var i1, s1, i2, s2 := e1.OutIdx, e1.Side, e2.OutIdx, e2.Side;
      AppendedKept(rings, i1, s1, i2, s2);
      ReownedKeys(owner, i1, i2);
      hole := outs.AppendRecords(e1.OutIdx, e1.Side, e2.OutIdx, e2.Side);
      HandOverEnd(e1, e2, rings);
    }

    /** The partner of `e2` takes over the end of `e1`, now that their rings are one. */
    method HandOverEnd(e1: TEdge, e2: TEdge, ghost rings: seq<seq<OutPt>>)
      requires ael.Valid() && outs.Valid() && OwnersOk(ael.Ael, Lft, Rgt, rings)
      requires e1 in ael.Ael && e2 in ael.Ael && e1.OutIdx >= 0 && e2.OutIdx >= 0 && e1.OutIdx != e2.OutIdx
      requires RingsJoined(rings, outs.Rings, e1.OutIdx, e1.Side, e2.OutIdx, e2.Side)
      modifies this`Lft, this`Rgt, ael.Ael`OutIdx, ael.Ael`Side
      ensures Building() && e1.OutIdx == e2.OutIdx == UNASSIGNED
      ensures OthersBuild(ael.Ael, e1, e2, old(Views(ael.Ael)), rings, Views(ael.Ael), outs.Rings)
    {
      hide ActiveEdgeList.Valid, OutRecList.Valid, OwnersOk, Appended, Taken, OthersBuild, Views;
      ghost var i1, s1, i2 := e1.OutIdx, e1.Side, e2.OutIdx;
      ghost var p := HandOver(e1, e2, ael, Lft, Rgt, rings, outs.Rings);
      Lft, Rgt := Taken(Lft, EsLeft, s1, i1, i2, p), Taken(Rgt, EsRight, s1, i1, i2, p);
    }

    lemma BuiltRings(e: TEdge)
      requires Building() && e in ael.Ael && e.OutIdx >= 0
      ensures e.OutIdx < |outs.Rings| && outs.Rings[e.OutIdx] != []
    {
      ExactlyTwo(ael.Ael, Lft, Rgt, outs.Rings, e);
    }

    lemma ReownedKeys(owner: map<OutPt, nat>, i1: nat, i2: nat)
      ensures Reowned(owner, i1, i2).Keys == owner.Keys
    {
    }

    // ---------------------------------------------------------------- crossing edges

    /** The winding counts after `e1` has passed to the right of `e2`. */
    method UpdateWindCounts(e1: TEdge, e2: TEdge)
      requires e1 != e2
      modifies e1`WindCnt, e1`WindCnt2, e2`WindCnt, e2`WindCnt2
      ensures (e1.View(), e2.View()) == old(CrossCounts(rules, e1.View(), e2.View()))
    {
      if e1.PolyTyp == e2.PolyTyp {
        if rules.Fill(e1.PolyTyp) == PftEvenOdd {
          var oldE1WindCnt := e1.WindCnt;
          e1.WindCnt := e2.WindCnt;
          e2.WindCnt := oldE1WindCnt;
        } else {
          if e1.WindCnt + e2.WindDelta == 0 {
            e1.WindCnt := -e1.WindCnt;
          } else {
            e1.WindCnt := e1.WindCnt + e2.WindDelta;
          }
          if e2.WindCnt - e1.WindDelta == 0 {
            e2.WindCnt := -e2.WindCnt;
          } else {
            e2.WindCnt := e2.WindCnt - e1.WindDelta;
          }
        }
      } else {
        if rules.Fill(e2.PolyTyp) != PftEvenOdd {
          e1.WindCnt2 := e1.WindCnt2 + e2.WindDelta;
        } else {
          e1.WindCnt2 := if e1.WindCnt2 == 0 then 1 else 0;
        }
        if rules.Fill(e1.PolyTyp) != PftEvenOdd {
          e2.WindCnt2 := e2.WindCnt2 - e1.WindDelta;
        } else {
          e2.WindCnt2 := if e2.WindCnt2 == 0 then 1 else 0;
        }
      }
    }

    /** Adds `pt` to the polygon that `e` builds, if it builds one. */
    method MarkPoint(e: TEdge, pt: IntPoint) returns (ghost op: OutPt?)
      requires Building() && e in ael.Ael
      modifies outs, outs.m_PolyOuts`Pts, outs.Owner.Keys`Next, outs.Owner.Keys`Prev
      ensures Building() && outs.m_PolyOuts == old(outs.m_PolyOuts)
      ensures fresh(outs.Owner.Keys - old(outs.Owner.Keys))
      ensures e.OutIdx >= 0 ==> End(e) != null && End(e).Pt == pt
      ensures EndsKept(old(outs.Rings), outs.Rings, e.OutIdx, e.Side) && PointsKept(old(outs.Rings), outs.Rings)
      ensures VertexMarked(old(Output()), Output(), e.OutIdx, e.Side, pt, op)
    {
      hide Building, PointAdded, PointsKept, EndsKept;
      op := null;
      PointsStay(outs.Rings, e.OutIdx, e.Side);
      if e.OutIdx >= 0 {
        var newOp := AddOutPt(e, pt);
        op := newOp;
      }
    }

    lemma PointsStay(rings: seq<seq<OutPt>>, idx: int, side: EdgeSide)
      ensures EndsKept(rings, rings, idx, side) && PointsKept(rings, rings)
    {
    }

    method MarkBoth(e1: TEdge, e2: TEdge, pt: IntPoint) returns (ghost mid: Notes, ghost op1: OutPt?, ghost op2: OutPt?)
      requires Building() && e1 in ael.Ael && e2 in ael.Ael && e1 != e2
      modifies outs, outs.m_PolyOuts`Pts, outs.Owner.Keys`Next, outs.Owner.Keys`Prev
      ensures Building() && outs.m_PolyOuts == old(outs.m_PolyOuts)
      ensures fresh(outs.Owner.Keys - old(outs.Owner.Keys))
      ensures e1.OutIdx >= 0 ==> End(e1) != null && End(e1).Pt == pt
      ensures e2.OutIdx >= 0 ==> End(e2) != null && End(e2).Pt == pt
      ensures PointsKept(old(outs.Rings), outs.Rings)
      ensures VertexMarked(old(Output()), mid, e1.OutIdx, e1.Side, pt, op1) && VertexMarked(mid, Output(), e2.OutIdx, e2.Side, pt, op2)
    {
      hide AelLinks, OutRecList.Valid, OwnersOk, LastPt, PointsKept, VertexMarked;
      if e1.OutIdx >= 0 {
        DifferentEnds(ael.Ael, Lft, Rgt, outs.Rings, e1);
      }
      op1 := MarkPoint(e1, pt);
      mid := Output();
      op2 := MarkPoint(e2, pt);
      KeptTwice(old(outs.Rings), mid.rings, outs.Rings);
    }

    /** Both edges add the crossing point to their polygons, if any, and trade them. */
    method PassOutputs(e1: TEdge, e2: TEdge, pt: IntPoint) returns (ghost x: CrossEvent)
      requires Building() && e1 in ael.Ael && e2 in ael.Ael && e1 != e2
      modifies this`Lft, this`Rgt, outs, outs.m_PolyOuts`Pts, outs.Owner.Keys`Next, outs.Owner.Keys`Prev
      modifies e1`OutIdx, e1`Side, e2`OutIdx, e2`Side
      ensures Building() && outs.m_PolyOuts == old(outs.m_PolyOuts)
      ensures fresh(outs.Owner.Keys - old(outs.Owner.Keys))
      ensures e1.OutIdx == old(e2.OutIdx) && e2.OutIdx == old(e1.OutIdx)
      ensures e1.Side == old(e2.Side) && e2.Side == old(e1.Side)
      ensures e1.OutIdx >= 0 ==> End(e1) != null && End(e1).Pt == pt
      ensures e2.OutIdx >= 0 ==> End(e2) != null && End(e2).Pt == pt
      ensures Noted(old(Output()), Output())
      ensures VertexMarked(old(Output()), x.mid, old(e1.OutIdx), old(e1.Side), pt, x.op1)
      ensures VertexMarked(x.mid, Output(), old(e2.OutIdx), old(e2.Side), pt, x.op2)
    {
      hide AelLinks, OutRecList.Valid, OwnersOk, LastPt, Ownership.Exchanged, Right, Distinct, PointsKept, Noted, VertexMarked;
      ghost var n := Output();
      ghost var mid, op1, op2 := MarkBoth(e1, e2, pt);
      x := CrossEvent(mid, op1, op2, false, RingEndOf(null));
      NothingNoted(n.joins, n.rings, outs.Rings);
      SwapOutputs(e1, e2, ael.Ael, Lft, Rgt, outs.Rings);
      Lft, Rgt := Ownership.Exchanged(Lft, e1, e2), Ownership.Exchanged(Rgt, e1, e2);
    }

    /**
     What the crossing does to the output: the edges close or join their polygons, start one,
     or trade them. `Decision` names the branch.
     */
    method CrossOutputs(e1: TEdge, e2: TEdge, pt: IntPoint) returns (ghost act: Action, ghost x: CrossEvent, ghost k: nat)
      requires Building() && e1 in ael.Ael && e2 in ael.Ael && e1 != e2
      modifies this`Lft, this`Rgt, this`m_Joins, outs, outs.m_PolyOuts, outs.Owner.Keys`Next, outs.Owner.Keys`Prev
      modifies ael.Ael`OutIdx, ael.Ael`Side
      ensures Building()
      ensures act == old(Decision(rules, e1.View(), e2.View(), e1.OutIdx >= 0, e2.OutIdx >= 0))
      ensures (e1.OutIdx >= 0, e2.OutIdx >= 0) == OutAfter(act, old(e1.OutIdx) >= 0, old(e2.OutIdx) >= 0)
      ensures OthersGoOn(ael.Ael, e1, e2)
      ensures act != Nothing && e1.OutIdx >= 0 ==> End(e1) != null && End(e1).Pt == pt
      ensures act != Nothing && e2.OutIdx >= 0 ==> End(e2) != null && End(e2).Pt == pt
      ensures act == LocalMin ==> FrontAndBack(e1, e2) && e1.OutIdx == e2.OutIdx
      ensures CrossNoted(act, old(e1.View()), old(e2.View()), pt, Front(e1, e2).Top, old(Output()), Output(), x)
      ensures var (a, b) := Built(act, Front(e1, e2) == e1, old(e1.View()), old(e2.View()), |old(outs.Rings)|);
        BuildsAs(e1.View(), a) && BuildsAs(e2.View(), b)
      ensures act == LocalMin ==> StartedBeside(e1, e2, pt, x, k)
      ensures fresh(outs.Owner.Keys - old(outs.Owner.Keys))
      ensures forall i :: 0 <= i < |outs.m_PolyOuts| ==> outs.m_PolyOuts[i] in old(outs.m_PolyOuts) || fresh(outs.m_PolyOuts[i])
      ensures Noted(old(Output()), Output())
    {
      hide Building, LastPt, Noted, EndsMet, VertexMarked, MinimumStarted, StartedBeside;
      SameNoted(Output());
      x, k := CrossEvent(Output(), null, null, false, RingEndOf(null)), 0;
      var e1Contributing, e2Contributing := e1.OutIdx >= 0, e2.OutIdx >= 0;
      var e1Wc := FillCount(rules.Fill(e1.PolyTyp), e1.WindCnt);
      var e2Wc := FillCount(rules.Fill(e2.PolyTyp), e2.WindCnt);
      act := Decision(rules, e1.View(), e2.View(), e1Contributing, e2Contributing);
      if e1Contributing && e2Contributing {
        if (e1Wc != 0 && e1Wc != 1) || (e2Wc != 0 && e2Wc != 1) || (e1.PolyTyp != e2.PolyTyp && rules.clip != CtXor) {
          ghost var mid, op := EndBoth(e1, e2, pt);
          x := CrossEvent(mid, op, null, false, RingEndOf(null));
        } else {
          x := PassOutputs(e1, e2, pt);
        }
      } else if e1Contributing {
        if e2Wc == 0 || e2Wc == 1 {
          x := PassOutputs(e1, e2, pt);
        }
      } else if e2Contributing {
        if e1Wc == 0 || e1Wc == 1 {
          x := PassOutputs(e1, e2, pt);
        }
      } else if (e1Wc == 0 || e1Wc == 1) && (e2Wc == 0 || e2Wc == 1) {
        x, k := CrossIdle(e1, e2, pt, e1Wc, e2Wc);
      }
    }

    /** What the two edges build ends here. */
    method EndBoth(e1: TEdge, e2: TEdge, pt: IntPoint) returns (ghost mid: Notes, ghost op: OutPt)
      requires Building() && e1 in ael.Ael && e2 in ael.Ael && e1 != e2 && e1.OutIdx >= 0 && e2.OutIdx >= 0
      modifies this`Lft, this`Rgt, outs, outs.m_PolyOuts, outs.Owner.Keys`Next, outs.Owner.Keys`Prev
      modifies ael.Ael`OutIdx, ael.Ael`Side
      ensures Building() && e1.OutIdx == e2.OutIdx == UNASSIGNED
      ensures OthersGoOn(ael.Ael, e1, e2)
      ensures fresh(outs.Owner.Keys - old(outs.Owner.Keys))
      ensures forall i :: 0 <= i < |outs.m_PolyOuts| ==> outs.m_PolyOuts[i] in old(outs.m_PolyOuts) || fresh(outs.m_PolyOuts[i])
      ensures Noted(old(Output()), Output())
      ensures EndsMet(old(e1.View()), old(e2.View()), pt, old(Output()), mid, Output(), op)
    {
      hide Building, LastPt, PointsKept, Noted, PointAdded, PolygonsMet, RanksMet, Ranks;
      ghost var n, v := Output(), Views(ael.Ael);
      ghost var rings, hole;
      op, rings, hole := AddLocalMaxPoly(e1, e2, pt);
      mid := Notes(n.joins, rings);
      NothingNoted(n.joins, n.rings, outs.Rings);
      forall g | g in ael.Ael && g != e1 && g != e2 ensures g.OutIdx >= 0 <==> old(g.OutIdx) >= 0 {
        ghost var i: nat :| i < |ael.Ael| && ael.Ael[i] == g;
        assert SameBuilt(v[i], n.rings, Views(ael.Ael)[i], outs.Rings);
      }
    }

    /** The new polygon joins that of the edge before its front edge, which stands at place `k`, if this runs along it. */
    ghost predicate StartedBeside(e1: TEdge, e2: TEdge, pt: IntPoint, x: CrossEvent, k: nat)
      reads ael`Ael, ael.Ael`OutIdx, ael.Ael`Side, ael.Ael`WindDelta, e1`WindDelta, e2`WindDelta
    {
      && ael.At(k, Front(e1, e2))
      && var prevE := EdgeBefore(ael.Ael, k, Back(e1, e2));
        x.beside == RunsBeside(ael.topX, prevE, Front(e1, e2), pt) && x.end == RingEndOf(prevE)
    }

    /** The crossing of two edges that build nothing but do separate filled from unfilled. */
    method CrossIdle(e1: TEdge, e2: TEdge, pt: IntPoint, e1Wc: int, e2Wc: int) returns (ghost x: CrossEvent, ghost k: nat)
      requires Building() && e1 in ael.Ael && e2 in ael.Ael && e1 != e2 && e1.OutIdx < 0 && e2.OutIdx < 0
      requires e1Wc == FillCount(rules.Fill(e1.PolyTyp), e1.WindCnt) && (e1Wc == 0 || e1Wc == 1)
      requires e2Wc == FillCount(rules.Fill(e2.PolyTyp), e2.WindCnt) && (e2Wc == 0 || e2Wc == 1)
      modifies this`Lft, this`Rgt, this`m_Joins, outs, outs.m_PolyOuts`Pts, outs.Owner.Keys`Next, outs.Owner.Keys`Prev
      modifies e1`OutIdx, e1`Side, e2`OutIdx, e2`Side
      ensures Building()
      ensures var act := old(Decision(rules, e1.View(), e2.View(), false, false));
        && (e1.OutIdx >= 0, e2.OutIdx >= 0) == OutAfter(act, false, false)
        && (act == LocalMin ==> End(e1) != null && End(e1).Pt == pt && End(e2) != null && End(e2).Pt == pt)
        && (act == LocalMin ==> FrontAndBack(e1, e2) && e1.OutIdx == e2.OutIdx == |old(outs.Rings)|)
        && (if act == LocalMin then x.op1 != null && x.op1.Pt == pt && MinimumStarted(x.beside, old(Output()), Output(), x.op1, x.end, pt, Front(e1, e2).Top)
            else Output() == old(Output()))
        && (act == LocalMin ==> StartedBeside(e1, e2, pt, x, k))
        && (act != LocalMin ==> e1.OutIdx == old(e1.OutIdx) && e2.OutIdx == old(e2.OutIdx))
      ensures fresh(outs.Owner.Keys - old(outs.Owner.Keys))
      ensures forall i :: 0 <= i < |outs.m_PolyOuts| ==> outs.m_PolyOuts[i] in old(outs.m_PolyOuts) || fresh(outs.m_PolyOuts[i])
      ensures Noted(old(Output()), Output())
    {
      hide AelLinks, OutRecList.Valid, OwnersOk, LastPt, Noted, MinimumStarted, RunsBeside, EdgeBefore;
      SameNoted(Output());
      var e1Wc2 := FillCount(rules.Fill(e1.PolyTyp.Other()), e1.WindCnt2);
      var e2Wc2 := FillCount(rules.Fill(e2.PolyTyp.Other()), e2.WindCnt2);
      var startPoly := false;
      if e1.PolyTyp != e2.PolyTyp {
        startPoly := true;
      } else if e1Wc == 1 && e2Wc == 1 {
        match rules.clip {
          case CtIntersection =>
            startPoly := e1Wc2 > 0 && e2Wc2 > 0;
          case CtUnion =>
            startPoly := e1Wc2 <= 0 && e2Wc2 <= 0;
          case CtDifference =>
            startPoly := (e1.PolyTyp == PtClip && e1Wc2 > 0 && e2Wc2 > 0)
                         || (e1.PolyTyp == PtSubject && e1Wc2 <= 0 && e2Wc2 <= 0);
          case CtXor =>
            startPoly := true;
        }
      } else {
        SwapSides(e1, e2, ael.Ael, Lft, Rgt, outs.Rings);
      }
      x, k := CrossEvent(Output(), null, null, false, RingEndOf(null)), 0;
      if startPoly {
        var op;
        ghost var rec;
        op, k, rec := AddLocalMinPoly(e1, e2, pt);
        ghost var prevE := EdgeBefore(ael.Ael, k, Back(e1, e2));
        x := CrossEvent(x.mid, op, null, RunsBeside(ael.topX, prevE, Front(e1, e2), pt), RingEndOf(prevE));
      }
    }

    method Recount(e1: TEdge, e2: TEdge)
      requires Building() && e1 != e2
      modifies e1`WindCnt, e1`WindCnt2, e2`WindCnt, e2`WindCnt2
      ensures Building() && (e1.View(), e2.View()) == old(CrossCounts(rules, e1.View(), e2.View()))
      ensures e1.OutIdx == old(e1.OutIdx) && e2.OutIdx == old(e2.OutIdx)
    {
      hide AelLinks, OutRecList.Valid, OwnersOk, CrossCounts;
      UpdateWindCounts(e1, e2);
    }

    /** The counts of both edges and the output change as they do when `e1` passes to the right of `e2`. */
    method Cross(e1: TEdge, e2: TEdge, pt: IntPoint) returns (ghost x: CrossEvent, ghost k: nat)
      requires Building() && e1 in ael.Ael && e2 in ael.Ael && e1 != e2
      modifies this`Lft, this`Rgt, this`m_Joins, outs, outs.m_PolyOuts, outs.Owner.Keys`Next, outs.Owner.Keys`Prev
      modifies ael.Ael`OutIdx, ael.Ael`Side, e1`WindCnt, e1`WindCnt2, e2`WindCnt, e2`WindCnt2
      ensures Building()
      ensures CrossedAs(rules, e1, e2, pt, old(e1.View()), old(e2.View()), e1.View(), e2.View(), old(Output()), Output(), x)
      ensures var act := ActionOf(rules, old(e1.View()), old(e2.View()));
        && (act == LocalMin ==> StartedBeside(e1, e2, pt, x, k))
        && (act != Nothing && e1.OutIdx >= 0 ==> End(e1) != null && End(e1).Pt == pt)
        && (act != Nothing && e2.OutIdx >= 0 ==> End(e2) != null && End(e2).Pt == pt)
      ensures OthersGoOn(ael.Ael, e1, e2)
      ensures fresh(outs.Owner.Keys - old(outs.Owner.Keys))
      ensures forall i :: 0 <= i < |outs.m_PolyOuts| ==> outs.m_PolyOuts[i] in old(outs.m_PolyOuts) || fresh(outs.m_PolyOuts[i])
      ensures Noted(old(Output()), Output())
    {
      hide Noted, Building, CrossCounts, Decision, OutAfter, CrossNoted, Built, BuildsAs, StartedBeside, LastPt;
      ghost var v1, v2 := e1.View(), e2.View();
      Recount(e1, e2);
      ghost var a, b := e1.View(), e2.View();
      ghost var act;
      act, x, k := CrossOutputs(e1, e2, pt);
      assert CrossCounts(rules, v1, v2) == (a, b);
    }

    // ---------------------------------------------------------------- IntersectEdges

    /**
     `e1`, immediately to the left of `e2` in the given order, crosses to its right at `pt`.
     Whatever the operation and the fill rules, everything the sweep keeps holds again for
     the order in which the two have changed places.
     */
    method IntersectEdges(e1: TEdge, e2: TEdge, pt: IntPoint, ghost order: seq<TEdge>, ghost k: nat) returns (ghost x: CrossEvent, ghost b: nat)
      requires Swept(order) && k + 1 < |order| && e1 == order[k] && e2 == order[k + 1]
      modifies this`Lft, this`Rgt, this`m_Joins, outs, outs.m_PolyOuts, outs.Owner.Keys`Next, outs.Owner.Keys`Prev
      modifies ael.Ael`OutIdx, ael.Ael`Side, e1`WindCnt, e1`WindCnt2, e2`WindCnt, e2`WindCnt2
      ensures Swept(Swap(order, k))
      ensures CrossedAs(rules, e1, e2, pt, old(e1.View()), old(e2.View()), e1.View(), e2.View(), old(Output()), Output(), x)
      ensures var act := ActionOf(rules, old(e1.View()), old(e2.View()));
        && (act == LocalMin ==> StartedBeside(e1, e2, pt, x, b))
        && (act != Nothing && e1.OutIdx >= 0 ==> End(e1) != null && End(e1).Pt == pt)
        && (act != Nothing && e2.OutIdx >= 0 ==> End(e2) != null && End(e2).Pt == pt)
      ensures CrossingMade(rules, IntersectNode(e1, e2, pt), old(LineupOf(order)), LineupOf(Swap(order, k)), k, x)
      ensures GainedAmong(old(outs.Rings), outs.Rings, {pt})
      ensures fresh(outs.Owner.Keys - old(outs.Owner.Keys))
      ensures forall i :: 0 <= i < |outs.m_PolyOuts| ==> outs.m_PolyOuts[i] in old(outs.m_PolyOuts) || fresh(outs.m_PolyOuts[i])
      ensures Noted(old(Output()), Output())
    {
      hide Noted, Building, Right, CrossCounts, Decision, OutAfter, Distinct, SameEdges, CrossedAs, GainedAmong, StartedBeside, LastPt, ActionOf;
      SwapSameEdges(order, ael.Ael, k);
      SweptShown(order);
      ghost var s := Views(order);
      DistinctAt(order, k);
      DistinctAt(order, k + 1);
      x, b := Cross(e1, e2, pt);
      CrossedShows(rules, e1, e2, pt, old(e1.View()), old(e2.View()), e1.View(), e2.View(), old(Output()), Output(), x);
      forall j | 0 <= j < |order| && j != k && j != k + 1 ensures ShowsAs(order[j], s[j]) {
        assert order[j] in ael.Ael && order[j] != e1 && order[j] != e2;
      }
      CrossedViews(order, k, s, rules);
      MadeBy(rules, e1, e2, pt, Lineup(order, s, old(Output())), LineupOf(Swap(order, k)), k, x);
    }

    // ---------------------------------------------------------------- local minima

    /** Puts an edge that builds nothing into the list, behind `startEdge` if that is given. */
    method InsertEdge(edge: TEdge, startEdge: TEdge?, ghost start: nat) returns (ghost k: nat)
      requires Building() && edge !in ael.Ael && edge.OutIdx == UNASSIGNED
      requires startEdge != null ==> ael.At(start, startEdge)
      modifies ael, ael.Ael`NextInAEL, ael.Ael`PrevInAEL, edge`NextInAEL, edge`PrevInAEL
      ensures Building() && k <= |old(ael.Ael)| && ael.Ael == InsertAt(old(ael.Ael), k, edge)
      ensures startEdge != null ==> start < k
      ensures SortedByX(old(ael.Ael)) && (startEdge != null ==> startEdge.Curr.X <= edge.Curr.X) ==> SortedByX(ael.Ael)
      ensures AscendsWith(ael.topX, old(ael.Ael), ael.Ael, startEdge, edge)
    {
      hide AelLinks, OutRecList.Valid, OwnersOk, E2InsertsBeforeE1, SortedByX, AscendsWith;
      ghost var es := ael.Ael;
      k := ael.InsertEdgeIntoAEL(edge, startEdge, start);
      InsertedElements(es, k, edge);
      OwnersGrow(es, ael.Ael, edge, Lft, Rgt, outs.Rings);
    }

    /** Puts both bounds of a local minimum into the list, the right one somewhere behind the left one. */
    method InsertPair(lb: TEdge, rb: TEdge) returns (ghost kl: nat, ghost kr: nat)
      requires Building() && lb !in ael.Ael && rb !in ael.Ael && lb != rb && lb.OutIdx == rb.OutIdx == UNASSIGNED
      modifies ael, ael.Ael`NextInAEL, ael.Ael`PrevInAEL, lb`NextInAEL, lb`PrevInAEL, rb`NextInAEL, rb`PrevInAEL
      ensures Building() && kl < kr <= |old(ael.Ael)| + 1
      ensures ael.Ael == InsertAt(InsertAt(old(ael.Ael), kl, lb), kr, rb)
      ensures SortedByX(old(ael.Ael)) && lb.Curr.X <= rb.Curr.X ==> SortedByX(ael.Ael)
      ensures AscendsWithPair(ael.topX, old(ael.Ael), ael.Ael, lb, rb)
    {
      hide Building, SortedByX, AscendsWith, AscendsWithPair;
      ghost var es := ael.Ael;
      kl := InsertEdge(lb, null, 0);
      InsertedElements(es, kl, lb);
      ghost var mid := ael.Ael;
      kr := InsertEdge(rb, lb, kl);
      PairAscends(ael.topX, es, mid, ael.Ael, lb, rb);
    }

    /** Computes the counts that the two bounds share. */
    method SetPairCounts(lb: TEdge, rb: TEdge, ghost kl: nat)
      requires ael.Valid() && ael.At(kl, lb) && lb != rb && Closed(Views(ael.Ael))
      requires forall x :: 0 <= x < kl ==> CountsRightAt(Views(ael.Ael), rules, x)
      modifies lb`WindCnt, lb`WindCnt2, rb`WindCnt, rb`WindCnt2
      ensures CountsFit(rules, lb.View(), WindingAt(Views(ael.Ael), kl, lb.PolyTyp), WindingAt(Views(ael.Ael), kl, lb.PolyTyp.Other()))
      ensures rb.WindCnt == lb.WindCnt && rb.WindCnt2 == lb.WindCnt2
    {
      hide AelLinks, CountsFit;
      SetWindingCount(lb, ael, rules, kl);
      ghost var v := Views(ael.Ael);
      rb.WindCnt := lb.WindCnt;
      rb.WindCnt2 := lb.WindCnt2;
      ghost var v' := Views(ael.Ael);
      WindingSamePrefix(v, v', kl, lb.PolyTyp);
      WindingSamePrefix(v, v', kl, lb.PolyTyp.Other());
    }

    /** Adds `pt` to the polygon of `e` and notes that it joins that of `op1` there. */
    method AddJoinWith(op1: OutPt, e: TEdge, pt: IntPoint, offPt: IntPoint, ghost order: seq<TEdge>)
      requires Swept(order) && e in ael.Ael && e.OutIdx >= 0
      modifies this`m_Joins, outs, outs.m_PolyOuts`Pts, outs.Owner.Keys`Next, outs.Owner.Keys`Prev
      ensures Swept(order) && outs.m_PolyOuts == old(outs.m_PolyOuts)
      ensures fresh(outs.Owner.Keys - old(outs.Owner.Keys))
      ensures EndsKept(old(outs.Rings), outs.Rings, e.OutIdx, e.Side)
      ensures JoinNoted(old(Output()), Output(), op1, RingEndOf(e), pt, offPt)
    {
      hide Swept, EndsKept, PointAdded, JoinNoted;
      ghost var n := Output();
      var op2 := AddOutPtSwept(e, pt, order);
      m_Joins := m_Joins + [Join(op1, op2, offPt)];
      NowNoted(n, Output(), op1, RingEndOf(e), pt, offPt, op2);
    }

    /** As `AddOutPt`, where an order of the edges is known. */
    method AddOutPtSwept(e: TEdge, pt: IntPoint, ghost order: seq<TEdge>) returns (op: OutPt)
      requires Swept(order) && e in ael.Ael && e.OutIdx >= 0
      modifies outs, outs.m_PolyOuts`Pts, outs.Owner.Keys`Next, outs.Owner.Keys`Prev
      ensures Swept(order) && outs.m_PolyOuts == old(outs.m_PolyOuts)
      ensures fresh(outs.Owner.Keys - old(outs.Owner.Keys))
      ensures End(e) == op && op.Pt == pt && EndsKept(old(outs.Rings), outs.Rings, e.OutIdx, e.Side)
      ensures e.OutIdx < |old(outs.Rings)| && old(outs.Rings)[e.OutIdx] != []
      ensures PointAdded(old(outs.Rings), outs.Rings, e.OutIdx, e.Side, pt, op)
    {
      hide Swept, Building, EndsKept, RightOrder, Distinct, PointAdded, SameEdges, PointsKept, LastPt;
      SweptShown(order);
      op := AddOutPt(e, pt);
      BuildingElsewhere(order);
    }

    lemma SweptShown(order: seq<TEdge>)
      requires Swept(order)
      ensures Building() && Distinct(order) && SameEdges(order, ael.Ael) && RightOrder(order)
    {
    }

    lemma BuildingElsewhere(order: seq<TEdge>)
      requires Building() && Distinct(order) && SameEdges(order, ael.Ael) && RightOrder(order)
      ensures Swept(order)
    {
    }

    /** Two edges that leave a local minimum in opposite directions and build nothing yet. */
    ghost predicate MinimumPair(lb: TEdge, rb: TEdge)
      reads ael`Ael, lb`OutIdx, rb`OutIdx, lb`WindDelta, rb`WindDelta
    {
      && lb != rb && lb !in ael.Ael && rb !in ael.Ael && lb.OutIdx == rb.OutIdx == UNASSIGNED
      && lb.PolyTyp == rb.PolyTyp && (lb.WindDelta == 1 || lb.WindDelta == -1) && lb.WindDelta + rb.WindDelta == 0
    }

    /** The counts of both bounds are those of the left bound, standing right behind the first `k` edges of `es`. */
    ghost predicate PairCounted(lb: TEdge, rb: TEdge, es: seq<TEdge>, k: nat)
      reads lb, rb, es`WindDelta, es`WindCnt, es`WindCnt2, es`OutIdx, es`Side
    {
      && k <= |es|
      && CountsFit(rules, lb.View(), WindingAt(Views(es), k, lb.PolyTyp), WindingAt(Views(es), k, lb.PolyTyp.Other()))
      && rb.WindCnt == lb.WindCnt && rb.WindCnt2 == lb.WindCnt2
    }

    /** The pair enters the list and gets its counts. */
    method EnterPair(lb: TEdge, rb: TEdge) returns (ghost kl: nat, ghost kr: nat)
      requires Swept(ael.Ael) && MinimumPair(lb, rb)
      modifies ael, ael.Ael`NextInAEL, ael.Ael`PrevInAEL, lb`NextInAEL, lb`PrevInAEL, rb`NextInAEL, rb`PrevInAEL
      modifies lb`WindCnt, lb`WindCnt2, rb`WindCnt, rb`WindCnt2
      ensures Building() && kl < kr <= |old(ael.Ael)| + 1
      ensures ael.Ael == InsertAt(InsertAt(old(ael.Ael), kl, lb), kr, rb)
      ensures SortedByX(old(ael.Ael)) && lb.Curr.X <= rb.Curr.X ==> SortedByX(ael.Ael)
      ensures AscendsWithPair(ael.topX, old(ael.Ael), ael.Ael, lb, rb)
      ensures PairCounted(lb, rb, old(ael.Ael), kl)
    {
      hide Building, SortedByX, AscendsWithPair, Right, PairCounted;
      ghost var es := ael.Ael;
      kl, kr := InsertPair(lb, rb);
      CountPair(lb, rb, es, kl, kr);
    }

    method CountPair(lb: TEdge, rb: TEdge, ghost es: seq<TEdge>, ghost kl: nat, ghost kr: nat)
      requires Building() && RightOrder(es) && lb !in es && rb !in es && lb != rb
      requires lb.PolyTyp == rb.PolyTyp && (lb.WindDelta == 1 || lb.WindDelta == -1) && lb.WindDelta + rb.WindDelta == 0
      requires kl < kr <= |es| + 1 && ael.Ael == InsertAt(InsertAt(es, kl, lb), kr, rb)
      modifies lb`WindCnt, lb`WindCnt2, rb`WindCnt, rb`WindCnt2
      ensures Building() && PairCounted(lb, rb, es, kl)
    {
      hide Building, RightOrder, ActiveEdgeList.Valid, CountsRightAt, CountsFit, WindingAt, InsertAt, Closed, PairCounted;
      BuildingLists();
      PairSeen(lb, rb, es, kl, kr);
      SetPairCounts(lb, rb, kl);
      PairNowCounted(lb, rb, es, kl, kr);
    }

    /** What the left bound finds to its left. */
    lemma PairSeen(lb: TEdge, rb: TEdge, es: seq<TEdge>, kl: nat, kr: nat)
      requires RightOrder(es) && kl < kr <= |es| + 1 && ael.Ael == InsertAt(InsertAt(es, kl, lb), kr, rb)
      requires Unit(lb.View()) && Unit(rb.View())
      ensures ael.At(kl, lb) && Closed(Views(ael.Ael))
      ensures forall x :: 0 <= x < kl ==> CountsRightAt(Views(ael.Ael), rules, x)
    {
      PairViews(es, ael.Ael, rules, lb, rb, kl, kr);
    }

    lemma PairNowCounted(lb: TEdge, rb: TEdge, es: seq<TEdge>, kl: nat, kr: nat)
      requires RightOrder(es) && kl < kr <= |es| + 1 && ael.Ael == InsertAt(InsertAt(es, kl, lb), kr, rb)
      requires Unit(lb.View()) && Unit(rb.View())
      requires CountsFit(rules, lb.View(), WindingAt(Views(ael.Ael), kl, lb.PolyTyp), WindingAt(Views(ael.Ael), kl, lb.PolyTyp.Other()))
      requires rb.WindCnt == lb.WindCnt && rb.WindCnt2 == lb.WindCnt2
      ensures PairCounted(lb, rb, es, kl)
    {
      hide Right, CountsFit, WindingAt;
      PairViews(es, ael.Ael, rules, lb, rb, kl, kr);
    }

    lemma BuildingLists()
      requires Building()
      ensures ael.Valid()
    {
    }

    /** The view of a list that a pair has entered. */
    lemma PairViews(es: seq<TEdge>, es': seq<TEdge>, r: Rules, lb: TEdge, rb: TEdge, kl: nat, kr: nat)
      requires Right(Views(es), r) && kl < kr <= |es| + 1 && es' == InsertAt(InsertAt(es, kl, lb), kr, rb)
      requires Unit(lb.View()) && Unit(rb.View())
      ensures es'[kl] == lb && Closed(Views(es'))
      ensures forall x :: 0 <= x < kl ==> CountsRightAt(Views(es'), r, x)
      ensures forall t :: WindingAt(Views(es'), kl, t) == WindingAt(Views(es), kl, t)
    {
      var v, v' := Views(es), Views(es');
      forall i | 0 <= i < |v'| ensures Unit(v'[i]) {
        if i != kl && i != kr {
          var j := if i > kr then i - 2 else if i > kl then i - 1 else i;
          assert es'[i] == es[j];
          assert Unit(v[j]);
        }
      }
      PrefixStaysRight(v, v', r, kl);
    }

    /** Starts a polygon if the pair contributes; as neighbours behind the first `kl` edges the two are right. */
    method OpenPair(lb: TEdge, rb: TEdge, ghost es: seq<TEdge>, ghost kl: nat, ghost kr: nat) returns (op1: OutPt?)
      requires Building() && Distinct(es) && RightOrder(es) && PairCounted(lb, rb, es, kl)
      requires lb != rb && lb !in es && rb !in es && lb.OutIdx == rb.OutIdx == UNASSIGNED
      requires lb.PolyTyp == rb.PolyTyp && (lb.WindDelta == 1 || lb.WindDelta == -1) && lb.WindDelta + rb.WindDelta == 0
      requires kl < kr <= |es| + 1 && ael.Ael == InsertAt(InsertAt(es, kl, lb), kr, rb)
      modifies this`Lft, this`Rgt, this`m_Joins, outs, outs.m_PolyOuts`Pts, outs.Owner.Keys`Next, outs.Owner.Keys`Prev
      modifies lb`OutIdx, lb`Side, rb`OutIdx, rb`Side
      ensures Swept(InsertAt(InsertAt(es, kl, lb), kl + 1, rb))
      ensures fresh(outs.Owner.Keys - old(outs.Owner.Keys))
      ensures forall i :: 0 <= i < |outs.m_PolyOuts| ==> outs.m_PolyOuts[i] in old(outs.m_PolyOuts) || fresh(outs.m_PolyOuts[i])
      ensures lb.OutIdx >= 0 <==> old(Crossing.IsContributing(rules, lb.View()))
      ensures (rb.OutIdx >= 0 <==> lb.OutIdx >= 0) && (lb.OutIdx >= 0 ==> op1 != null)
      ensures PairStarted(NeighboursOf(ael.topX, lb, rb, es, kl, kr), lb, rb, lb.OutIdx >= 0, op1, old(Output()), Output())
    {
      hide Building, RightOrder, PairCounted, CountedAs, SameEdges, Distinct, Crossing.IsContributing, InsertAt, PairStarted, NeighboursOf, Swept;
      PairOrder(es, ael.Ael, lb, rb, kl, kr);
      PairCountedAs(lb, rb, es, kl);
      ghost var v, w := lb.View(), rb.View();
      op1 := OpenIfContributing(lb, rb, es, kl, kr);
      OpenedRight(es, lb, rb, kl, v);
      BuildingElsewhere(InsertAt(InsertAt(es, kl, lb), kl + 1, rb));
    }

    lemma PairCountedAs(lb: TEdge, rb: TEdge, es: seq<TEdge>, k: nat)
      requires PairCounted(lb, rb, es, k)
      ensures k <= |es| && CountedAs(lb, lb.View(), es, k) && rb.WindCnt == lb.WindCnt && rb.WindCnt2 == lb.WindCnt2
    {
    }

    /** A counted pair that builds what it should is right next to each other. */
    lemma OpenedRight(es: seq<TEdge>, lb: TEdge, rb: TEdge, kl: nat, v: EdgeView)
      requires kl <= |es| && RightOrder(es) && CountedAs(lb, v, es, kl) && LocalExtrema.Opposite(lb.View(), rb.View())
      requires lb.WindCnt == rb.WindCnt == v.cnt && lb.WindCnt2 == rb.WindCnt2 == v.cnt2
      requires (lb.OutIdx >= 0 <==> Crossing.IsContributing(rules, v)) && (rb.OutIdx >= 0 <==> lb.OutIdx >= 0)
      ensures RightOrder(InsertAt(InsertAt(es, kl, lb), kl + 1, rb))
    {
      hide Right, CountsFit, WindingAt, Crossing.IsContributing, FreshPair;
      FreshOnceOpened(rules, v, lb.View(), rb.View(), WindingAt(Views(es), kl, lb.PolyTyp), WindingAt(Views(es), kl, lb.PolyTyp.Other()));
      PairRight(es, lb, rb, kl);
    }

    method OpenIfContributing(lb: TEdge, rb: TEdge, ghost es: seq<TEdge>, ghost kl: nat, ghost kr: nat) returns (op1: OutPt?)
      requires Building() && lb != rb && lb !in es && rb !in es && Distinct(es) && lb.OutIdx == rb.OutIdx == UNASSIGNED
      requires lb in ael.Ael && rb in ael.Ael && kl < kr <= |es| + 1 && ael.Ael == InsertAt(InsertAt(es, kl, lb), kr, rb)
      modifies this`Lft, this`Rgt, this`m_Joins, outs, outs.m_PolyOuts`Pts, outs.Owner.Keys`Next, outs.Owner.Keys`Prev
      modifies lb`OutIdx, lb`Side, rb`OutIdx, rb`Side
      ensures Building()
      ensures lb.OutIdx >= 0 <==> old(Crossing.IsContributing(rules, lb.View()))
      ensures (rb.OutIdx >= 0 <==> lb.OutIdx >= 0) && (lb.OutIdx >= 0 ==> op1 != null)
      ensures fresh(outs.Owner.Keys - old(outs.Owner.Keys))
      ensures forall i :: 0 <= i < |outs.m_PolyOuts| ==> outs.m_PolyOuts[i] in old(outs.m_PolyOuts) || fresh(outs.m_PolyOuts[i])
      ensures PairStarted(NeighboursOf(ael.topX, lb, rb, es, kl, kr), lb, rb, lb.OutIdx >= 0, op1, old(Output()), Output())
    {
      hide Building, Crossing.IsContributing, Distinct, InsertAt, MinimumStarted, RunsBeside, BesideEdge, EdgeBefore, Noted, Front, Back;
      op1 := null;
      if Crossing.IsContributing(rules, lb.View()) {
        ghost var k;
        ghost var rec;
        op1, k, rec := AddLocalMinPoly(lb, rb, lb.Bot);
        BesideInList(lb, rb, es, kl, kr, ael.Ael, k);
      }
    }

    /** A freshly counted pair is right next to each other. */
    lemma PairRight(es: seq<TEdge>, lb: TEdge, rb: TEdge, kl: nat)
      requires kl <= |es| && Right(Views(es), rules)
      requires FreshPair(rules, lb.View(), rb.View(), WindingAt(Views(es), kl, lb.PolyTyp), WindingAt(Views(es), kl, lb.PolyTyp.Other()))
      ensures Right(Views(InsertAt(InsertAt(es, kl, lb), kl + 1, rb)), rules)
    {
      hide Right, FreshPair;
      var order := InsertAt(InsertAt(es, kl, lb), kl + 1, rb);
      var s, s' := Views(es), Views(order);
      forall j | kl <= j < |s| ensures s'[j + 2] == s[j] {
        assert order[j + 2] == es[j];
      }
      InsertKeepsRight(s, s', rules, kl);
    }

    /** `rb`, at place `x` of the order, crosses `e`, which follows. */
    method PassOne(rb: TEdge, e: TEdge, pt: IntPoint, ghost base: seq<TEdge>, ghost x: nat, ghost kr: nat)
      returns (next: TEdge?, ghost ev: CrossEvent)
      requires x < kr <= |base| && ael.Ael == InsertAt(base, kr, rb) && e == base[x]
      requires Swept(InsertAt(base, x, rb))
      modifies this`Lft, this`Rgt, this`m_Joins, outs, outs.m_PolyOuts, outs.Owner.Keys`Next, outs.Owner.Keys`Prev
      modifies ael.Ael`OutIdx, ael.Ael`Side, ael.Ael`WindCnt, ael.Ael`WindCnt2
      ensures Swept(InsertAt(base, x + 1, rb)) && next == ael.Ael[x + 1]
      ensures CrossingMade(rules, IntersectNode(rb, e, pt), old(LineupOf(InsertAt(base, x, rb))), LineupOf(InsertAt(base, x + 1, rb)), x, ev)
      ensures fresh(outs.Owner.Keys - old(outs.Owner.Keys))
      ensures forall i :: 0 <= i < |outs.m_PolyOuts| ==> outs.m_PolyOuts[i] in old(outs.m_PolyOuts) || fresh(outs.m_PolyOuts[i])
      ensures Noted(old(Output()), Output())
    {
      hide Swept, ActiveEdgeList.Valid, Building, OutRecList.Valid, Right, Distinct, InsertAt, Without, Swap, Noted;
      hide CrossingMade, CrossedAs, GainedAmong, StartedBeside, ActionOf, LastPt, LineupOf, Views;
      ghost var order := InsertAt(base, x, rb);
      OrderAt(base, x, kr, rb);
      SweptList(order);
      ghost var b;
      ev, b := IntersectEdges(rb, e, pt, order, x);
      SweptList(Swap(order, x));
      next := ael.Following(e, x);
    }

    /** Where the crossing edges and the next one stand. */
    static lemma OrderAt(base: seq<TEdge>, x: nat, kr: nat, rb: TEdge)
      requires x < kr <= |base|
      ensures InsertAt(base, x, rb)[x] == rb && InsertAt(base, x, rb)[x + 1] == base[x]
      ensures Swap(InsertAt(base, x, rb), x) == InsertAt(base, x + 1, rb)
      ensures InsertAt(base, kr, rb)[x] == base[x]
    {
      assert Swap(InsertAt(base, x, rb), x) == InsertAt(base, x + 1, rb);
    }

    /** The right bound, standing right behind the left one, crosses every edge up to its place in the list. */
    method PassBetween(lb: TEdge, rb: TEdge, ghost base: seq<TEdge>, ghost kl: nat, ghost kr: nat)
      returns (ghost trace: seq<Lineup>, ghost xs: seq<(nat, CrossEvent)>)
      requires kl < kr <= |base| && base[kl] == lb && ael.Ael == InsertAt(base, kr, rb) && lb != rb
      requires Swept(InsertAt(base, kl + 1, rb))
      modifies this`Lft, this`Rgt, this`m_Joins, outs, outs.m_PolyOuts, outs.Owner.Keys`Next, outs.Owner.Keys`Prev
      modifies ael.Ael`OutIdx, ael.Ael`Side, ael.Ael`WindCnt, ael.Ael`WindCnt2
      ensures Swept(ael.Ael)
      ensures PassingRun(rules, rb, base, kl + 1, kr, lb.Curr, old(LineupOf(InsertAt(base, kl + 1, rb))), LineupOf(ael.Ael), trace, xs)
      ensures fresh(outs.Owner.Keys - old(outs.Owner.Keys))
      ensures forall i :: 0 <= i < |outs.m_PolyOuts| ==> outs.m_PolyOuts[i] in old(outs.m_PolyOuts) || fresh(outs.m_PolyOuts[i])
      ensures Noted(old(Output()), Output())
    {
      hide Swept, ActiveEdgeList.Valid, Building, OutRecList.Valid, Right, Distinct, InsertAt, Without, Noted, CrossingMade, PassingRun, LineupOf, Views;
      ghost var x, was := kl + 1, Output();
      SweptList(InsertAt(base, x, rb));
      SameNoted(was);
      DistinctAt(ael.Ael, kr);
      ghost var first := LineupOf(InsertAt(base, x, rb));
      trace, xs := [first], [];
      NonePassed(rules, rb, base, x, lb.Curr, first);
      var e := ael.Following(lb, kl);
      while e != rb
        invariant kl < x <= kr && e == ael.Ael[x] && Swept(InsertAt(base, x, rb))
        invariant PassingRun(rules, rb, base, kl + 1, x, lb.Curr, first, LineupOf(InsertAt(base, x, rb)), trace, xs)
        invariant fresh(outs.Owner.Keys - old(outs.Owner.Keys))
        invariant forall i :: 0 <= i < |outs.m_PolyOuts| ==> outs.m_PolyOuts[i] in old(outs.m_PolyOuts) || fresh(outs.m_PolyOuts[i])
        invariant Noted(was, Output())
        decreases kr - x
      {
        ghost var n := Output();
        e, trace, xs := PassOneMore(rb, e, lb.Curr, base, x, kr, kl + 1, first, trace, xs);
        NotedTwice(was, n, Output());
        x := x + 1;
      }
    }

    method PassOneMore(rb: TEdge, e: TEdge, pt: IntPoint, ghost base: seq<TEdge>, ghost x: nat, ghost kr: nat, ghost i: nat, ghost first: Lineup,
                       ghost trace: seq<Lineup>, ghost xs: seq<(nat, CrossEvent)>)
      returns (next: TEdge?, ghost trace': seq<Lineup>, ghost xs': seq<(nat, CrossEvent)>)
      requires i <= x < kr <= |base| && ael.Ael == InsertAt(base, kr, rb) && e == ael.Ael[x]
      requires Swept(InsertAt(base, x, rb)) && PassingRun(rules, rb, base, i, x, pt, first, LineupOf(InsertAt(base, x, rb)), trace, xs)
      modifies this`Lft, this`Rgt, this`m_Joins, outs, outs.m_PolyOuts, outs.Owner.Keys`Next, outs.Owner.Keys`Prev
      modifies ael.Ael`OutIdx, ael.Ael`Side, ael.Ael`WindCnt, ael.Ael`WindCnt2
      ensures Swept(InsertAt(base, x + 1, rb)) && next == ael.Ael[x + 1]
      ensures PassingRun(rules, rb, base, i, x + 1, pt, first, LineupOf(InsertAt(base, x + 1, rb)), trace', xs')
      ensures fresh(outs.Owner.Keys - old(outs.Owner.Keys))
      ensures forall i :: 0 <= i < |outs.m_PolyOuts| ==> outs.m_PolyOuts[i] in old(outs.m_PolyOuts) || fresh(outs.m_PolyOuts[i])
      ensures Noted(old(Output()), Output())
    {
      hide Swept, ActiveEdgeList.Valid, Building, OutRecList.Valid, InsertAt, Noted, CrossingMade, PassingRun, LineupOf, Views;
      ghost var m := LineupOf(InsertAt(base, x, rb));
      ghost var ev;
      OrderAt(base, x, kr, rb);
      next, ev := PassOne(rb, e, pt, base, x, kr);
      ghost var m' := LineupOf(InsertAt(base, x + 1, rb));
      OneMorePassed(rules, rb, base, i, x, pt, first, m, trace, xs, m', x, ev);
      trace', xs' := trace + [m'], xs + [(x, ev)];
    }

    lemma SweptList(order: seq<TEdge>)
      requires Swept(order)
      ensures ael.Valid() && Distinct(ael.Ael)
    {
    }

    lemma SweptLists(order: seq<TEdge>)
      requires Swept(order)
      ensures ael.Valid() && Distinct(ael.Ael)
      ensures Building() && Distinct(order) && Right(Views(order), rules)
    {
    }

    /** When the edge to the left of the minimum runs along the left bound, the two polygons are to be joined. */
    method JoinLeftBound(lb: TEdge, op1: OutPt?, ghost kl: nat, ghost order: seq<TEdge>)
      requires Swept(order) && ael.At(kl, lb) && (lb.OutIdx >= 0 ==> op1 != null)
      modifies this`m_Joins, outs, outs.m_PolyOuts`Pts, outs.Owner.Keys`Next, outs.Owner.Keys`Prev
      ensures Swept(order) && outs.m_PolyOuts == old(outs.m_PolyOuts)
      ensures fresh(outs.Owner.Keys - old(outs.Owner.Keys))
      ensures var prev := EdgeAt(ael.Ael, kl - 1);
        NotedIf(old(lb.OutIdx >= 0 && MeetsLeft(prev, lb)), old(Output()), Output(), op1, old(RingEndOf(prev)), lb.Bot, lb.Top)
    {
      hide Swept, Building, ActiveEdgeList.Valid, Right, SlopesEqual4, JoinNoted, EndsKept;
      SweptList(order);
      var prev := ael.Preceding(lb, kl);
      if lb.OutIdx >= 0 && prev != null && prev.Curr.X == lb.Bot.X && prev.OutIdx >= 0
         && SlopesEqual4(prev.Bot, prev.Top, lb.Curr, lb.Top) && lb.WindDelta != 0 && prev.WindDelta != 0 {
        AddJoinWith(op1, prev, lb.Bot, lb.Top, order);
      }
    }

    /** The same for the right bound and the edge that stands to its left. */
    method JoinRightBound(rb: TEdge, op1: OutPt?, ghost kr: nat, ghost order: seq<TEdge>)
      requires Swept(order) && kr > 0 && ael.At(kr, rb) && (rb.OutIdx >= 0 ==> op1 != null)
      modifies this`m_Joins, outs, outs.m_PolyOuts`Pts, outs.Owner.Keys`Next, outs.Owner.Keys`Prev
      ensures Swept(order) && outs.m_PolyOuts == old(outs.m_PolyOuts)
      ensures fresh(outs.Owner.Keys - old(outs.Owner.Keys))
      ensures var prev := EdgeAt(ael.Ael, kr - 1);
        NotedIf(old(rb.OutIdx >= 0 && MeetsRight(prev, rb)), old(Output()), Output(), op1, old(RingEndOf(prev)), rb.Bot, rb.Top)
    {
      hide Swept, Building, ActiveEdgeList.Valid, Right, SlopesEqual4, JoinNoted, EndsKept;
      SweptList(order);
      var prev := ael.Preceding(rb, kr);
      if rb.OutIdx >= 0 && prev.OutIdx >= 0
         && SlopesEqual4(prev.Curr, prev.Top, rb.Curr, rb.Top) && rb.WindDelta != 0 && prev.WindDelta != 0 {
        AddJoinWith(op1, prev, rb.Bot, rb.Top, order);
      }
    }

    /**
     Both bounds of a local minimum enter the active edge list. The right bound takes its
     place by crossing the edges in between, so that everything the sweep keeps holds again.
     `view` is what the left bound showed when it had been counted; `begun`, `left` and
     `m.notes` are the notes after the polygon has been started and after each of the two joins
     with neighbours, and `trace` follows the crossings.
     */
    method InsertLocalMinimum(lb: TEdge, rb: TEdge)
      returns (ghost kl: nat, ghost kr: nat, ghost view: EdgeView, ghost op1: OutPt?, ghost begun: Notes, ghost left: Notes, ghost m: Lineup,
               ghost trace: seq<Lineup>, ghost xs: seq<(nat, CrossEvent)>)
      requires Swept(ael.Ael) && MinimumPair(lb, rb)
      modifies this`Lft, this`Rgt, this`m_Joins, outs, outs.m_PolyOuts, outs.Owner.Keys`Next, outs.Owner.Keys`Prev
      modifies ael, ael.Ael`NextInAEL, ael.Ael`PrevInAEL, ael.Ael`OutIdx, ael.Ael`Side, ael.Ael`WindCnt, ael.Ael`WindCnt2
      modifies lb`NextInAEL, lb`PrevInAEL, lb`OutIdx, lb`Side, lb`WindCnt, lb`WindCnt2
      modifies rb`NextInAEL, rb`PrevInAEL, rb`OutIdx, rb`Side, rb`WindCnt, rb`WindCnt2
      ensures Swept(ael.Ael)
      ensures kl < kr <= |old(ael.Ael)| + 1 && ael.Ael == InsertAt(InsertAt(old(ael.Ael), kl, lb), kr, rb)
      ensures SortedByX(old(ael.Ael)) && lb.Curr.X <= rb.Curr.X ==> SortedByX(ael.Ael)
      ensures AscendsWithPair(ael.topX, old(ael.Ael), ael.Ael, lb, rb)
      ensures old(CountedAs(lb, view, ael.Ael, kl))
      ensures var nb, contributing := old(NeighboursOf(ael.topX, lb, rb, ael.Ael, kl, kr)), Crossing.IsContributing(rules, view);
        && PairStarted(nb, lb, rb, contributing, op1, old(Output()), begun)
        && PairSettled(nb, lb, rb, contributing, op1, begun, left, m.notes)
      ensures m.order == InsertAt(InsertAt(old(ael.Ael), kl, lb), kl + 1, rb)
      ensures PassingRun(rules, rb, old(ael.Ael), kl, kr - 1, lb.Curr, m, LineupOf(ael.Ael), trace, xs)
      ensures GainedAmong(old(outs.Rings), outs.Rings, {lb.Bot, rb.Bot, lb.Curr})
      ensures Noted(m.notes, Output()) && (kr == kl + 1 ==> Output() == m.notes)
      ensures SlantedPair(lb, rb) ==> Noted(old(Output()), Output())
      ensures fresh(outs.Owner.Keys - old(outs.Owner.Keys))
      ensures forall i :: 0 <= i < |outs.m_PolyOuts| ==> outs.m_PolyOuts[i] in old(outs.m_PolyOuts) || fresh(outs.m_PolyOuts[i])
    {
      hide Swept, Building, ActiveEdgeList.Valid, OutRecList.Valid, Right, Distinct, SortedByX, AscendsWithPair, InsertAt, Without;
      hide NeighboursOf, PairStarted, PairSettled, Noted, CountedAs, Crossing.IsContributing, PassingRun, GainedAmong, LineupOf, Views;
      ghost var n, es := Output(), ael.Ael;
      var op;
      kl, kr, view, op := StartMinimum(lb, rb);
      op1, begun := op, Output();
      ghost var nb, contributing := NeighboursOf(ael.topX, lb, rb, es, kl, kr), lb.OutIdx >= 0;
      left, m, trace, xs := SettleMinimum(lb, rb, op, es, kl, kr);
      LineupShows(ael.Ael);
      MinimumGains(rules, nb, lb, rb, contributing, op1, n, begun, left, es, kl, kr, m, LineupOf(ael.Ael), trace, xs);
      if SlantedPair(lb, rb) {
        BesideRises(ael.topX, lb, rb, es, kl, kr);
        PairReady(nb, lb, rb, contributing, op1, n, begun, left, m.notes);
        NotedTwice(n, m.notes, Output());
      }
    }

    /** `view` shows `lb` with counts that fit it in behind the first `k` edges of `es`. */
    ghost predicate CountedAs(lb: TEdge, view: EdgeView, es: seq<TEdge>, k: nat)
      reads lb`WindDelta, es`WindDelta, es`WindCnt, es`WindCnt2, es`OutIdx, es`Side
    {
      && k <= |es| && view.typ == lb.PolyTyp && view.delta == lb.WindDelta
      && CountsFit(rules, view, WindingAt(Views(es), k, lb.PolyTyp), WindingAt(Views(es), k, lb.PolyTyp.Other()))
    }

    method StartMinimum(lb: TEdge, rb: TEdge) returns (ghost kl: nat, ghost kr: nat, ghost view: EdgeView, op1: OutPt?)
      requires Swept(ael.Ael) && MinimumPair(lb, rb)
      modifies this`Lft, this`Rgt, this`m_Joins, outs, outs.m_PolyOuts, outs.Owner.Keys`Next, outs.Owner.Keys`Prev
      modifies ael, ael.Ael`NextInAEL, ael.Ael`PrevInAEL
      modifies lb`NextInAEL, lb`PrevInAEL, lb`OutIdx, lb`Side, lb`WindCnt, lb`WindCnt2
      modifies rb`NextInAEL, rb`PrevInAEL, rb`OutIdx, rb`Side, rb`WindCnt, rb`WindCnt2
      ensures kl < kr <= |old(ael.Ael)| + 1 && ael.Ael == InsertAt(InsertAt(old(ael.Ael), kl, lb), kr, rb)
      ensures Swept(InsertAt(InsertAt(old(ael.Ael), kl, lb), kl + 1, rb))
      ensures SortedByX(old(ael.Ael)) && lb.Curr.X <= rb.Curr.X ==> SortedByX(ael.Ael)
      ensures AscendsWithPair(ael.topX, old(ael.Ael), ael.Ael, lb, rb)
      ensures old(CountedAs(lb, view, ael.Ael, kl)) && (lb.OutIdx >= 0 <==> Crossing.IsContributing(rules, view))
      ensures (rb.OutIdx >= 0 <==> lb.OutIdx >= 0) && (lb.OutIdx >= 0 ==> op1 != null)
      ensures PairStarted(NeighboursOf(ael.topX, lb, rb, old(ael.Ael), kl, kr), lb, rb, lb.OutIdx >= 0, op1, old(Output()), Output())
      ensures fresh(outs.Owner.Keys - old(outs.Owner.Keys))
      ensures forall i :: 0 <= i < |outs.m_PolyOuts| ==> outs.m_PolyOuts[i] in old(outs.m_PolyOuts) || fresh(outs.m_PolyOuts[i])
    {
      hide Swept, Building, ActiveEdgeList.Valid, OutRecList.Valid, Right, Distinct, SortedByX, AscendsWithPair, InsertAt, Without;
      hide NeighboursOf, PairStarted, Crossing.IsContributing, CountsFit, WindingAt;
      ghost var es := ael.Ael;
      SweptLists(es);
      kl, kr := EnterPair(lb, rb);
      view := lb.View();
      op1 := OpenPair(lb, rb, es, kl, kr);
    }

    /** The joins with the neighbours, and the crossings that bring the right bound to its place. */
    method SettleMinimum(lb: TEdge, rb: TEdge, op1: OutPt?, ghost es: seq<TEdge>, ghost kl: nat, ghost kr: nat)
      returns (ghost left: Notes, ghost m: Lineup, ghost trace: seq<Lineup>, ghost xs: seq<(nat, CrossEvent)>)
      requires kl < kr <= |es| + 1 && ael.Ael == InsertAt(InsertAt(es, kl, lb), kr, rb) && lb != rb
      requires Swept(InsertAt(InsertAt(es, kl, lb), kl + 1, rb))
      requires (rb.OutIdx >= 0 <==> lb.OutIdx >= 0) && (lb.OutIdx >= 0 ==> op1 != null)
      modifies this`Lft, this`Rgt, this`m_Joins, outs, outs.m_PolyOuts, outs.Owner.Keys`Next, outs.Owner.Keys`Prev
      modifies ael.Ael`OutIdx, ael.Ael`Side, ael.Ael`WindCnt, ael.Ael`WindCnt2
      ensures Swept(ael.Ael)
      ensures PairSettled(old(NeighboursOf(ael.topX, lb, rb, es, kl, kr)), lb, rb, old(lb.OutIdx >= 0), op1, old(Output()), left, m.notes)
      ensures m.order == InsertAt(InsertAt(es, kl, lb), kl + 1, rb)
      ensures PassingRun(rules, rb, es, kl, kr - 1, lb.Curr, m, LineupOf(ael.Ael), trace, xs)
      ensures Noted(m.notes, Output()) && (kr == kl + 1 ==> Output() == m.notes)
      ensures fresh(outs.Owner.Keys - old(outs.Owner.Keys))
      ensures forall i :: 0 <= i < |outs.m_PolyOuts| ==> outs.m_PolyOuts[i] in old(outs.m_PolyOuts) || fresh(outs.m_PolyOuts[i])
    {
      hide Swept, Building, ActiveEdgeList.Valid, OutRecList.Valid, Right, Distinct, InsertAt, Without, Noted, NeighboursOf, PairSettled, PassingRun, LineupOf, Views;
      var apart;
      ghost var right;
      left, right, apart := JoinBounds(lb, rb, op1, es, kl, kr);
      m, trace, xs := PassIfApart(lb, rb, es, kl, kr, apart);
    }

    method PassIfApart(lb: TEdge, rb: TEdge, ghost es: seq<TEdge>, ghost kl: nat, ghost kr: nat, apart: bool)
      returns (ghost m: Lineup, ghost trace: seq<Lineup>, ghost xs: seq<(nat, CrossEvent)>)
      requires kl < kr <= |es| + 1 && ael.Ael == InsertAt(InsertAt(es, kl, lb), kr, rb) && lb != rb
      requires Swept(InsertAt(InsertAt(es, kl, lb), kl + 1, rb)) && (apart <==> kr != kl + 1)
      modifies this`Lft, this`Rgt, this`m_Joins, outs, outs.m_PolyOuts, outs.Owner.Keys`Next, outs.Owner.Keys`Prev
      modifies ael.Ael`OutIdx, ael.Ael`Side, ael.Ael`WindCnt, ael.Ael`WindCnt2
      ensures Swept(ael.Ael)
      ensures m.order == InsertAt(InsertAt(es, kl, lb), kl + 1, rb) && m.notes == old(Output())
      ensures PassingRun(rules, rb, es, kl, kr - 1, lb.Curr, m, LineupOf(ael.Ael), trace, xs)
      ensures Noted(m.notes, Output()) && (kr == kl + 1 ==> Output() == m.notes)
      ensures fresh(outs.Owner.Keys - old(outs.Owner.Keys))
      ensures forall i :: 0 <= i < |outs.m_PolyOuts| ==> outs.m_PolyOuts[i] in old(outs.m_PolyOuts) || fresh(outs.m_PolyOuts[i])
    {
      hide Swept, Building, ActiveEdgeList.Valid, OutRecList.Valid, Right, Distinct, InsertAt, Without, Noted, PassingRun, LineupOf, Views;
      m := LineupOf(InsertAt(InsertAt(es, kl, lb), kl + 1, rb));
      LineupShows(InsertAt(InsertAt(es, kl, lb), kl + 1, rb));
      SameNoted(m.notes);
      BetweenInBase(es, kl, kr, lb);
      if apart {
        ghost var prevL, prevR := NeighboursInList(lb, rb, es, kl, kr, ael.Ael);
        trace, xs := PassBetween(lb, rb, InsertAt(es, kl, lb), kl, kr);
        PassingWithin(rules, rb, InsertAt(es, kl, lb), kl + 1, kr, es, kl, kr - 1, lb.Curr, m, LineupOf(ael.Ael), trace, xs);
      } else {
        trace, xs := [m], [];
        NonePassed(rules, rb, es, kl, lb.Curr, m);
      }
    }

    static lemma BetweenInBase(es: seq<TEdge>, kl: nat, kr: nat, lb: TEdge)
      requires kl < kr <= |es| + 1
      ensures |InsertAt(es, kl, lb)| == |es| + 1 && InsertAt(es, kl, lb)[kl + 1..kr] == es[kl..kr - 1]
    {
    }

    method JoinBounds(lb: TEdge, rb: TEdge, op1: OutPt?, ghost es: seq<TEdge>, ghost kl: nat, ghost kr: nat)
      returns (ghost left: Notes, ghost right: Notes, apart: bool)
      requires kl < kr <= |es| + 1 && ael.Ael == InsertAt(InsertAt(es, kl, lb), kr, rb) && lb != rb
      requires Swept(InsertAt(InsertAt(es, kl, lb), kl + 1, rb))
      requires (rb.OutIdx >= 0 <==> lb.OutIdx >= 0) && (lb.OutIdx >= 0 ==> op1 != null)
      modifies this`m_Joins, outs, outs.m_PolyOuts`Pts, outs.Owner.Keys`Next, outs.Owner.Keys`Prev
      ensures var order := InsertAt(InsertAt(es, kl, lb), kl + 1, rb); Swept(order) && (!apart ==> order == ael.Ael)
      ensures apart <==> kr != kl + 1
      ensures outs.m_PolyOuts == old(outs.m_PolyOuts) && fresh(outs.Owner.Keys - old(outs.Owner.Keys))
      ensures PairSettled(NeighboursOf(ael.topX, lb, rb, es, kl, kr), lb, rb, lb.OutIdx >= 0, op1, old(Output()), left, right)
      ensures Output() == right
    {
      hide Swept, Building, ActiveEdgeList.Valid, Right, Distinct, InsertAt, MeetsLeft, NotedIf, RingEndOf, NeighboursOf, PairSettled, EdgeAt, BetweenEdge;
      ghost var order := InsertAt(InsertAt(es, kl, lb), kl + 1, rb);
      ghost var nb := NeighboursOf(ael.topX, lb, rb, es, kl, kr);
      ghost var prevL, prevR := NeighboursInList(lb, rb, es, kl, kr, ael.Ael);
      NeighboursShown(ael.topX, lb, rb, es, kl, kr);
      SweptList(order);
      JoinLeftBound(lb, op1, kl, order);
      left := Output();
      apart := JoinIfApart(lb, rb, op1, es, kl, kr, order, nb);
      right := Output();
      SettledBy(nb, lb, rb, lb.OutIdx >= 0, op1, old(Output()), left, right);
      assert nb == NeighboursOf(ael.topX, lb, rb, es, kl, kr);
    }

    /** When there are edges between the two bounds, the one before the right bound is looked at as well. */
    method JoinIfApart(lb: TEdge, rb: TEdge, op1: OutPt?, ghost es: seq<TEdge>, ghost kl: nat, ghost kr: nat, ghost order: seq<TEdge>,
                       ghost nb: Neighbours) returns (apart: bool)
      requires kl < kr <= |es| + 1 && ael.Ael == InsertAt(InsertAt(es, kl, lb), kr, rb) && lb != rb
      requires Swept(order) && order == InsertAt(InsertAt(es, kl, lb), kl + 1, rb) && (rb.OutIdx >= 0 ==> op1 != null)
      requires nb == NeighboursOf(ael.topX, lb, rb, es, kl, kr)
      modifies this`m_Joins, outs, outs.m_PolyOuts`Pts, outs.Owner.Keys`Next, outs.Owner.Keys`Prev
      ensures Swept(order) && outs.m_PolyOuts == old(outs.m_PolyOuts) && fresh(outs.Owner.Keys - old(outs.Owner.Keys))
      ensures (apart <==> kr != kl + 1) && (!apart ==> order == ael.Ael)
      ensures NotedIf(old(rb.OutIdx >= 0) && nb.right, old(Output()), Output(), op1, nb.rightEnd, rb.Bot, rb.Top)
    {
      hide Swept, Building, ActiveEdgeList.Valid, Right, Distinct, InsertAt, MeetsRight, JoinNoted, RingEndOf, NeighboursOf, EdgeAt, BetweenEdge;
      ghost var prevL, prevR := NeighboursInList(lb, rb, es, kl, kr, ael.Ael);
      NeighboursShown(ael.topX, lb, rb, es, kl, kr);
      SweptList(order);
      DistinctAt(ael.Ael, kr);
      EdgeInside(ael.Ael, kl + 1);
      var next := ael.Following(lb, kl);
      apart := next != rb;
      if apart {
        JoinRightBound(rb, op1, kr, order);
      }
    }

    // ---------------------------------------------------------------- intersections of a scanbeam

    /** The list follows the order in which the edges have already crossed. */
    method SwapInList(e1: TEdge, e2: TEdge, ghost k: nat)
      requires k + 1 < |ael.Ael| && ael.Ael[k] == e1 && ael.Ael[k + 1] == e2 && Swept(Swap(ael.Ael, k))
      modifies ael, ael.Ael`NextInAEL, ael.Ael`PrevInAEL
      ensures ael.Ael == Swap(old(ael.Ael), k) && Swept(ael.Ael)
    {
      hide ActiveEdgeList.Valid, OutRecList.Valid, OwnersOk, RightOrder, Distinct, SameEdges, Swept, Swap, Transpose;
      ghost var es := ael.Ael;
      SweptShown(Swap(es, k));
      SweptList(Swap(es, k));
      DistinctAt(es, k);
      SwapKeepsOwners(es, k, Lft, Rgt, outs.Rings);
      ael.SwapPositionsInAEL(e1, e2, k, k + 1);
      SweptAgain();
    }

    static lemma SwapKeepsOwners(es: seq<TEdge>, k: nat, lft: Owners, rgt: Owners, rings: seq<seq<OutPt>>)
      requires k + 1 < |es| && OwnersOk(es, lft, rgt, rings)
      ensures Swap(es, k) == Transpose(es, k, k + 1) && OwnersOk(Swap(es, k), lft, rgt, rings)
    {
      TransposeKeepsElements(es, k, k + 1);
      SameElements(es, Swap(es, k));
      OwnersSame(es, Swap(es, k), lft, rgt, rings);
    }

    /** Two neighbours of the list cross and change places. */
    method CrossAndSwap(e1: TEdge, e2: TEdge, pt: IntPoint, ghost k: nat) returns (ghost x: CrossEvent)
      requires Swept(ael.Ael) && k + 1 < |ael.Ael| && ael.Ael[k] == e1 && ael.Ael[k + 1] == e2
      modifies this`Lft, this`Rgt, this`m_Joins, outs, outs.m_PolyOuts, outs.Owner.Keys`Next, outs.Owner.Keys`Prev
      modifies ael, ael.Ael`NextInAEL, ael.Ael`PrevInAEL, ael.Ael`OutIdx, ael.Ael`Side, ael.Ael`WindCnt, ael.Ael`WindCnt2
      ensures Swept(ael.Ael) && ael.Ael == Swap(old(ael.Ael), k)
      ensures CrossingMade(rules, IntersectNode(e1, e2, pt), old(LineupOf(ael.Ael)), LineupOf(ael.Ael), k, x)
      ensures forall i :: 0 <= i < |ael.Ael| ==> ael.Ael[i] in old(ael.Ael)
      ensures fresh(outs.Owner.Keys - old(outs.Owner.Keys))
      ensures forall i :: 0 <= i < |outs.m_PolyOuts| ==> outs.m_PolyOuts[i] in old(outs.m_PolyOuts) || fresh(outs.m_PolyOuts[i])
      ensures Noted(old(Output()), Output())
    {
      hide Noted, Swept, Building, ActiveEdgeList.Valid, OutRecList.Valid, CrossingMade, CrossedAs, GainedAmong, StartedBeside, ActionOf, LastPt, Views;
      ghost var b;
      x, b := IntersectEdges(e1, e2, pt, ael.Ael, k);
      SwapInList(e1, e2, k);
    }

    /** Replays the records; each of them finds its edges next to each other. */
    method ProcessIntersectList(ghost st: seq<seq<TEdge>>) returns (ghost trace: seq<Lineup>, ghost xs: seq<(nat, CrossEvent)>)
      requires Swept(ael.Ael) && Replays(st, ael.Ael, sel.m_IntersectList)
      modifies this`Lft, this`Rgt, this`m_Joins, sel`m_IntersectList
      modifies outs, outs.m_PolyOuts, outs.Owner.Keys`Next, outs.Owner.Keys`Prev
      modifies ael, ael.Ael`NextInAEL, ael.Ael`PrevInAEL, ael.Ael`OutIdx, ael.Ael`Side, ael.Ael`WindCnt, ael.Ael`WindCnt2
      ensures Swept(ael.Ael) && ael.Ael == st[|old(sel.m_IntersectList)|] && sel.m_IntersectList == []
      ensures CrossingRun(rules, old(sel.m_IntersectList), old(LineupOf(ael.Ael)), LineupOf(ael.Ael), trace, xs)
      ensures GainedAmong(old(outs.Rings), outs.Rings, PointsOf(old(sel.m_IntersectList)))
      ensures forall i :: 0 <= i < |ael.Ael| ==> ael.Ael[i] in old(ael.Ael)
      ensures fresh(outs.Owner.Keys - old(outs.Owner.Keys))
      ensures forall i :: 0 <= i < |outs.m_PolyOuts| ==> outs.m_PolyOuts[i] in old(outs.m_PolyOuts) || fresh(outs.m_PolyOuts[i])
      ensures Noted(old(Output()), Output())
    {
      hide Noted, Swept, Building, ActiveEdgeList.Valid, OutRecList.Valid, Run, Exchange, CrossingMade, CrossingRun, LineupOf, Views, GainedAmong, PointsOf;
      assert |st| == |sel.m_IntersectList| + 1 by { RunSize(st); }
      ghost var n := Output();
      SameNoted(n);
      ghost var first := LineupOf(ael.Ael);
      LineupShows(ael.Ael);
      trace, xs := [first], [];
      NoCrossings(rules, first);
      var i := 0;
      while i < |sel.m_IntersectList|
        invariant sel.m_IntersectList == old(sel.m_IntersectList) && i <= |sel.m_IntersectList|
        invariant Swept(ael.Ael) && ael.Ael == st[i]
        invariant CrossingRun(rules, sel.m_IntersectList[..i], first, LineupOf(ael.Ael), trace, xs)
        invariant forall j :: 0 <= j < |ael.Ael| ==> ael.Ael[j] in old(ael.Ael)
        invariant fresh(outs.Owner.Keys - old(outs.Owner.Keys)) && Noted(n, Output())
        invariant forall i :: 0 <= i < |outs.m_PolyOuts| ==> outs.m_PolyOuts[i] in old(outs.m_PolyOuts) || fresh(outs.m_PolyOuts[i])
      {
        var iNode := sel.m_IntersectList[i];
        ghost var k := StepOf(st, i, iNode);
        ghost var m := Output();
        assert sel.m_IntersectList[..i + 1] == sel.m_IntersectList[..i] + [iNode];
        trace, xs := CrossRecord(iNode, k, sel.m_IntersectList[..i], first, trace, xs);
        NotedTwice(n, m, Output());
        i := i + 1;
      }
      assert sel.m_IntersectList[..i] == sel.m_IntersectList;
      LineupShows(ael.Ael);
      RunGains(rules, sel.m_IntersectList, first, LineupOf(ael.Ael), trace, xs);
      sel.m_IntersectList := [];
    }

    method CrossRecord(iNode: IntersectNode, ghost k: nat, ghost nodes: seq<IntersectNode>, ghost first: Lineup,
                       ghost trace: seq<Lineup>, ghost xs: seq<(nat, CrossEvent)>)
      returns (ghost trace': seq<Lineup>, ghost xs': seq<(nat, CrossEvent)>)
      requires Swept(ael.Ael) && k + 1 < |ael.Ael| && ael.Ael[k] == iNode.Edge1 && ael.Ael[k + 1] == iNode.Edge2
      requires CrossingRun(rules, nodes, first, LineupOf(ael.Ael), trace, xs)
      modifies this`Lft, this`Rgt, this`m_Joins, outs, outs.m_PolyOuts, outs.Owner.Keys`Next, outs.Owner.Keys`Prev
      modifies ael, ael.Ael`NextInAEL, ael.Ael`PrevInAEL, ael.Ael`OutIdx, ael.Ael`Side, ael.Ael`WindCnt, ael.Ael`WindCnt2
      ensures Swept(ael.Ael) && ael.Ael == Swap(old(ael.Ael), k)
      ensures CrossingRun(rules, nodes + [iNode], first, LineupOf(ael.Ael), trace', xs')
      ensures forall i :: 0 <= i < |ael.Ael| ==> ael.Ael[i] in old(ael.Ael)
      ensures fresh(outs.Owner.Keys - old(outs.Owner.Keys))
      ensures forall i :: 0 <= i < |outs.m_PolyOuts| ==> outs.m_PolyOuts[i] in old(outs.m_PolyOuts) || fresh(outs.m_PolyOuts[i])
      ensures Noted(old(Output()), Output())
    {
      hide Noted, Swept, Building, ActiveEdgeList.Valid, OutRecList.Valid, CrossingMade, CrossingRun, LineupOf, Views;
      ghost var m := LineupOf(ael.Ael);
      ghost var x := CrossAndSwap(iNode.Edge1, iNode.Edge2, iNode.Pt, k);
      OneMore(rules, nodes, first, m, trace, xs, iNode, LineupOf(ael.Ael), k, x);
      trace', xs' := trace + [LineupOf(ael.Ael)], xs + [(k, x)];
    }

    lemma RunSize(st: seq<seq<TEdge>>)
      requires Run(st, Pairs(sel.m_IntersectList))
      ensures |st| == |sel.m_IntersectList| + 1
    {
    }

    /** Where the edges of record `i` stand when its turn comes. */
    lemma StepOf(st: seq<seq<TEdge>>, i: nat, iNode: IntersectNode) returns (k: nat)
      requires Run(st, Pairs(sel.m_IntersectList)) && i < |sel.m_IntersectList| && iNode == sel.m_IntersectList[i]
      ensures i + 1 < |st| && k + 1 < |st[i]| && st[i][k] == iNode.Edge1 && st[i][k + 1] == iNode.Edge2 && st[i + 1] == Swap(st[i], k)
    {
      RunStep(st, Pairs(sel.m_IntersectList), i);
      k :| ExchangeAt(st[i], st[i + 1], (iNode.Edge1, iNode.Edge2), k);
    }

    /** Lists the intersections below `topY`, in an order in which each exchanges neighbours. */
    method ListIntersections(topY: int) returns (ok: bool, ghost st: seq<seq<TEdge>>, ghost key: Key)
      requires ael.Valid() && sel.m_IntersectList == []
      modifies sel, ael.Ael`NextInSEL, ael.Ael`PrevInSEL, ael.Ael`Curr
      ensures ok && Replays(st, ael.Ael, sel.m_IntersectList)
      ensures var order := st[|sel.m_IntersectList|]; Ascending(ael.topX, order, topY) && multiset(order) == multiset(ael.Ael)
      ensures InvertedListed(ael.topX, topY, key, ael.Ael, sel.m_IntersectList)
    {
      hide AelLinks, Run, SortedBy, Inverted, SelLinks, Pairs;
      key, st := sel.BuildIntersectList(ael, topY);
      ok, st := OrderIntersections(key, topY, st);
      RunSize(st);
      RunRearranges(st, Pairs(sel.m_IntersectList), |sel.m_IntersectList|);
      SameElements(st[|sel.m_IntersectList|], ael.Ael);
      SortedByKey(st[|sel.m_IntersectList|], key, topY);
    }

    method OrderIntersections(ghost key: Key, topY: int, ghost was: seq<seq<TEdge>>) returns (ok: bool, ghost st: seq<seq<TEdge>>)
      requires ael.Valid() && InvertedListed(ael.topX, topY, key, ael.Ael, sel.m_IntersectList)
      requires Replays(was, ael.Ael, sel.m_IntersectList) && SortedBy(was[|sel.m_IntersectList|], key)
      modifies sel, ael.Ael`NextInSEL, ael.Ael`PrevInSEL
      ensures ok && InvertedListed(ael.topX, topY, key, ael.Ael, sel.m_IntersectList)
      ensures Replays(st, ael.Ael, sel.m_IntersectList) && SortedBy(st[|sel.m_IntersectList|], key)
    {
      hide AelLinks, Run, SortedBy, Inverted, SelLinks;
      ok, st := true, was;
      if |sel.m_IntersectList| > 1 {
        ghost var sorted, nodes := [], sel.m_IntersectList;
        ok, st, sorted := sel.FixupIntersectionOrder(ael, key, []);
        StillListed(ael.topX, topY, key, ael.Ael, nodes, sel.m_IntersectList);
      }
    }

    lemma SortedByKey(order: seq<TEdge>, key: Key, topY: int)
      requires SortedBy(order, key) && forall e :: e in order ==> key(e) == ael.topX(e, topY)
      ensures Ascending(ael.topX, order, topY)
    {
    }

    /**
     Carries out all intersections below `topY`: each pair of edges that are in the other order
     there crosses once, and no other. It never fails, and leaves the edges in the order of
     their X at the top of the scanbeam, with everything the sweep keeps intact.
     */
    method ProcessIntersections(topY: int)
      returns (ok: bool, ghost key: Key, ghost nodes: seq<IntersectNode>, ghost trace: seq<Lineup>, ghost xs: seq<(nat, CrossEvent)>)
      requires Swept(ael.Ael) && sel.m_IntersectList == []
      modifies this`Lft, this`Rgt, this`m_Joins, sel, ael.Ael`NextInSEL, ael.Ael`PrevInSEL, ael.Ael`Curr
      modifies outs, outs.m_PolyOuts, outs.Owner.Keys`Next, outs.Owner.Keys`Prev
      modifies ael, ael.Ael`NextInAEL, ael.Ael`PrevInAEL, ael.Ael`OutIdx, ael.Ael`Side, ael.Ael`WindCnt, ael.Ael`WindCnt2
      ensures ok && Swept(ael.Ael) && sel.m_IntersectList == []
      ensures multiset(ael.Ael) == multiset(old(ael.Ael)) && Ascending(ael.topX, ael.Ael, topY)
      ensures InvertedListed(ael.topX, topY, key, old(ael.Ael), nodes)
      ensures CrossingRun(rules, nodes, old(LineupOf(ael.Ael)), LineupOf(ael.Ael), trace, xs)
      ensures GainedAmong(old(outs.Rings), outs.Rings, PointsOf(nodes))
      ensures fresh(outs.Owner.Keys - old(outs.Owner.Keys))
      ensures forall i :: 0 <= i < |outs.m_PolyOuts| ==> outs.m_PolyOuts[i] in old(outs.m_PolyOuts) || fresh(outs.m_PolyOuts[i])
      ensures Noted(old(Output()), Output())
    {
      hide Noted, Swept, Building, ActiveEdgeList.Valid, OutRecList.Valid, Run, Ascending, InvertedListed, CrossingRun, GainedAmong, LineupOf, Views;
      assert ael.Valid() by { SweptList(ael.Ael); }
      ghost var st;
      ok, st, key := ListIntersections(topY);
      nodes := sel.m_IntersectList;
      if ok {
        trace, xs := ProcessIntersectList(st);
      } else {
        assert false;
      }
      sel.m_SortedEdges, sel.Sel := null, [];
    }

    // ---------------------------------------------------------------- along a bound

    /**
     Passes an intermediate vertex: the polygon of `e` gets the vertex, the next edge of the bound
     takes over, and a neighbour that passes through the vertex along the new edge is noted
     for joining. `marked` are the notes before the last of these.
     */
    method PromoteIntermediate(e: TEdge, ghost k: nat) returns (up: TEdge, ghost op: OutPt?, ghost marked: Notes)
      requires Swept(ael.Ael) && ael.At(k, e)
      requires e.NextInLML != null && e.NextInLML !in ael.Ael && e.NextInLML.PolyTyp == e.PolyTyp
      modifies this`Lft, this`Rgt, this`m_Joins, outs, outs.m_PolyOuts`Pts, outs.Owner.Keys`Next, outs.Owner.Keys`Prev
      modifies ael, ael.Ael`NextInAEL, ael.Ael`PrevInAEL, e.NextInLML
      ensures Swept(ael.Ael) && up == e.NextInLML && ael.Ael == Replace<TEdge>(old(ael.Ael), k, up)
      ensures up.OutIdx == old(e.OutIdx) && up.Side == old(e.Side)
      ensures up.OutIdx >= 0 ==> End(up) != null && End(up).Pt == e.Top
      ensures VertexMarked(old(Output()), marked, old(e.OutIdx), old(e.Side), e.Top, op)
      ensures if op != null then AlongNoted(AlongOf(up, k), marked, Output(), op, up.Bot, up.Top) else Output() == marked
      ensures e.NextInLML.Top.Y < e.Top.Y ==> Noted(old(Output()), Output())
      ensures GainedAmong(old(outs.Rings), outs.Rings, {e.Top, up.Bot})
      ensures fresh(outs.Owner.Keys - old(outs.Owner.Keys))
      ensures forall i :: 0 <= i < |outs.m_PolyOuts| ==> outs.m_PolyOuts[i] in old(outs.m_PolyOuts) || fresh(outs.m_PolyOuts[i])
    {
      hide Swept, Building, ActiveEdgeList.Valid, Replace, AlongOf, AlongNoted, VertexMarked, Noted, LastPt, EndsKept, GainedAmong;
      ghost var n := Output();
      var newOp: OutPt? := MarkVertex(e, e.Top, k);
      op, marked := newOp, Output();
      up := UpdateEdge(e, k);
      if newOp != null {
        var joined := JoinAlong(up, newOp, k);
      }
      AlongGains(AlongOf(up, k), n, marked, Output(), old(e.OutIdx), old(e.Side), e.Top, op, up.Bot, up.Top);
      if e.NextInLML.Top.Y < e.Top.Y {
        MarkedReady(n, marked, old(e.OutIdx), old(e.Side), e.Top, op);
        AlongReady(AlongOf(up, k), marked, Output(), op, up.Bot, up.Top);
        NotedTwice(n, marked, Output());
      }
    }

    /** Which neighbours run along `up`, at place `k`, and what they build. */
    ghost function AlongOf(up: TEdge, k: nat): Along
      reads ael`Ael, ael.Ael`Curr, ael.Ael`OutIdx, ael.Ael`Side, ael.Ael`WindDelta, up`Curr, up`WindDelta
    {
      var ePrev, eNext := EdgeAt(ael.Ael, k - 1), EdgeAt(ael.Ael, k + 1);
      Along(ePrev != null && RunsAlong(ePrev, up), RingEndOf(ePrev), eNext != null && RunsAlong(eNext, up), RingEndOf(eNext))
    }

    /** Notes a join with a neighbour that runs along `up`, the left one if both do. */
    method JoinAlong(up: TEdge, op: OutPt, ghost k: nat) returns (joined: bool)
      requires Swept(ael.Ael) && ael.At(k, up) && up.OutIdx >= 0 && End(up) == op
      modifies this`m_Joins, outs, outs.m_PolyOuts`Pts, outs.Owner.Keys`Next, outs.Owner.Keys`Prev
      ensures Swept(ael.Ael) && outs.m_PolyOuts == old(outs.m_PolyOuts) && End(up) == op
      ensures fresh(outs.Owner.Keys - old(outs.Owner.Keys))
      ensures joined <==> AlongOf(up, k).left || AlongOf(up, k).right
      ensures AlongNoted(AlongOf(up, k), old(Output()), Output(), op, up.Bot, up.Top)
    {
      hide Swept, Building, ActiveEdgeList.Valid, Right, Distinct, RunsAlong, LastPt, JoinNoted, RingEndOf, EdgeAt, AlongOf;
      SweptList(ael.Ael);
      AlongShown(up, k);
      ghost var al := AlongOf(up, k);
      var ePrev := ael.Preceding(up, k);
      var eNext := ael.Following(up, k);
      joined := true;
      if ePrev != null && RunsAlong(ePrev, up) {
        JoinNeighbour(op, ePrev, up, k - 1, k);
      } else if eNext != null && RunsAlong(eNext, up) {
        JoinNeighbour(op, eNext, up, k + 1, k);
      } else {
        joined := false;
      }
      assert AlongOf(up, k) == al;
    }

    lemma AlongShown(up: TEdge, k: nat)
      ensures var ePrev, eNext := EdgeAt(ael.Ael, k - 1), EdgeAt(ael.Ael, k + 1);
        && AlongOf(up, k) == Along(ePrev != null && RunsAlong(ePrev, up), RingEndOf(ePrev), eNext != null && RunsAlong(eNext, up), RingEndOf(eNext))
        && (ePrev != null ==> k > 0 && ael.At(k - 1, ePrev)) && (eNext != null ==> ael.At(k + 1, eNext))
    {
    }

    method JoinNeighbour(op: OutPt, e: TEdge, up: TEdge, ghost i: nat, ghost k: nat)
      requires Swept(ael.Ael) && ael.At(k, up) && ael.At(i, e) && i != k && up.OutIdx >= 0 && End(up) == op && RunsAlong(e, up)
      modifies this`m_Joins, outs, outs.m_PolyOuts`Pts, outs.Owner.Keys`Next, outs.Owner.Keys`Prev
      ensures Swept(ael.Ael) && outs.m_PolyOuts == old(outs.m_PolyOuts) && End(up) == op
      ensures fresh(outs.Owner.Keys - old(outs.Owner.Keys))
      ensures JoinNoted(old(Output()), Output(), op, old(RingEndOf(e)), up.Bot, up.Top)
    {
      hide Swept, Building, RunsAlong, JoinNoted, LastPt, EndsKept;
      BuildsSomething(e, up);
      OtherEnd(e, up, i, k);
      ghost var rings := outs.Rings;
      AddJoinWith(op, e, up.Bot, up.Top, ael.Ael);
      EndKeptAt(rings, outs.Rings, e.OutIdx, e.Side, up.OutIdx, up.Side);
    }

    lemma BuildsSomething(e: TEdge, up: TEdge)
      requires RunsAlong(e, up)
      ensures e.OutIdx >= 0
    {
    }

    /** The edge to the left meets `e` on the scanline, and both build polygons. */
    predicate Touches(ePrev: TEdge?, e: TEdge)
      reads (if ePrev == null then {} else {ePrev})`Curr, (if ePrev == null then {} else {ePrev})`OutIdx
      reads (if ePrev == null then {} else {ePrev})`WindDelta, e`Curr, e`OutIdx, e`WindDelta
    {
      && e.OutIdx >= 0 && e.WindDelta != 0 && ePrev != null && ePrev.OutIdx >= 0
      && ePrev.Curr.X == e.Curr.X && ePrev.WindDelta != 0
    }

    /**
     For strictly simple polygons: where `e` is touched by the edge to its left, both polygons
     get a vertex, and the two are noted for joining.
     */
    method TouchLeft(e: TEdge, ghost k: nat) returns (touched: bool, ghost op: OutPt?, ghost marked: Notes)
      requires Swept(ael.Ael) && ael.At(k, e)
      modifies this`m_Joins, outs, outs.m_PolyOuts`Pts, outs.Owner.Keys`Next, outs.Owner.Keys`Prev
      ensures Swept(ael.Ael) && outs.m_PolyOuts == old(outs.m_PolyOuts)
      ensures fresh(outs.Owner.Keys - old(outs.Owner.Keys))
      ensures touched == old(Touches(EdgeAt(ael.Ael, k - 1), e))
      ensures if touched then
                TouchNoted(old(Output()), marked, Output(), old(RingEndOf(EdgeAt(ael.Ael, k - 1))), RingEndOf(e), e.Curr, op)
              else Output() == old(Output())
      ensures Noted(old(Output()), Output()) && (touched ==> TouchJoined(old(Output()), Output(), e.Curr))
    {
      hide Swept, ActiveEdgeList.Valid, Distinct, PointAdded, JoinNoted, EndsKept, Noted, TouchJoined;
      SweptList(ael.Ael);
      var ePrev := ael.Preceding(e, k);
      touched := Touches(ePrev, e);
      ghost var n := Output();
      op, marked := null, n;
      SameNoted(n);
      if touched {
        ghost var end := RingEndOf(ePrev);
        var newOp := AddOutPtSwept(ePrev, e.Curr, ael.Ael);
        op, marked := newOp, Output();
        AddJoinWith(newOp, e, e.Curr, e.Curr, ael.Ael);
        TouchReady(n, marked, Output(), end, RingEndOf(e), e.Curr, op);
      }
    }

    /** Two active edges never build the same end. */
    lemma OtherEnd(e: TEdge, f: TEdge, i: nat, k: nat)
      requires Swept(ael.Ael) && ael.At(i, e) && ael.At(k, f) && i != k && e.OutIdx >= 0 && f.OutIdx >= 0
      ensures e.OutIdx != f.OutIdx || e.Side != f.Side
    {
      DistinctAt(ael.Ael, i);
      DifferentEnds(ael.Ael, Lft, Rgt, outs.Rings, e);
    }

    /** Both edges leave one point upwards or along it, alongside each other, and polygons are built on both sides. */
    lemma AlongMeans(e: TEdge, up: TEdge)
      ensures RunsAlong(e, up) <==>
        && e.OutIdx >= 0 && e.WindDelta != 0 && up.WindDelta != 0
        && e.Curr.X == up.Bot.X && e.Top.Y < e.Curr.Y == up.Bot.Y && Alongside(up.Curr, up.Top, e.Curr, e.Top)
    {
      ParallelMeans(up.Curr, up.Top, e.Curr, e.Top);
    }

    /** The neighbour passes through the lower end of `up`, goes on above it, and has its slope. */
    predicate RunsAlong(e: TEdge, up: TEdge)
      reads e`Curr, e`OutIdx, e`WindDelta, up`Curr, up`WindDelta
    {
      && e.Curr == up.Bot && e.OutIdx >= 0 && e.Curr.Y > e.Top.Y
      && SlopesEqual4(up.Curr, up.Top, e.Curr, e.Top) && up.WindDelta != 0 && e.WindDelta != 0
    }

    /** Adds the vertex to the polygon of `e`, if it builds one. */
    method MarkVertex(e: TEdge, pt: IntPoint, ghost k: nat) returns (op: OutPt?)
      requires Swept(ael.Ael) && ael.At(k, e)
      modifies outs, outs.m_PolyOuts`Pts, outs.Owner.Keys`Next, outs.Owner.Keys`Prev
      ensures Swept(ael.Ael) && outs.m_PolyOuts == old(outs.m_PolyOuts)
      ensures fresh(outs.Owner.Keys - old(outs.Owner.Keys))
      ensures if e.OutIdx >= 0 then op != null && End(e) == op && op.Pt == pt else op == null
      ensures VertexMarked(old(Output()), Output(), e.OutIdx, e.Side, pt, op)
    {
      hide Swept, PointAdded, LastPt, EndsKept;
      op := null;
      if e.OutIdx >= 0 {
        op := AddOutPtSwept(e, pt, ael.Ael);
      }
    }

    /** The next edge of its bound takes over from `e`, with its counts, its polygon and its place. */
    method UpdateEdge(e: TEdge, ghost k: nat) returns (up: TEdge)
      requires Swept(ael.Ael) && ael.At(k, e)
      requires e.NextInLML != null && e.NextInLML !in ael.Ael && e.NextInLML.PolyTyp == e.PolyTyp
      modifies this`Lft, this`Rgt, ael, ael.Ael`NextInAEL, ael.Ael`PrevInAEL, e.NextInLML
      ensures Swept(ael.Ael) && up == e.NextInLML && ael.Ael == Replace<TEdge>(old(ael.Ael), k, up)
      ensures up.OutIdx == e.OutIdx && up.Side == e.Side
    {
      hide Building, Right, Distinct, Replace;
      BuildingDistinct();
      ghost var v := Views(ael.Ael);
      up := TakePlace(e, k);
      assert Views(ael.Ael) == v;
      SameMembers(ael.Ael, ael.Ael);
      BuildingDistinct();
    }

    method TakePlace(e: TEdge, ghost k: nat) returns (up: TEdge)
      requires Building() && ael.At(k, e)
      requires e.NextInLML != null && e.NextInLML !in ael.Ael && e.NextInLML.PolyTyp == e.PolyTyp
      modifies this`Lft, this`Rgt, ael, ael.Ael`NextInAEL, ael.Ael`PrevInAEL, e.NextInLML
      ensures Building() && up == e.NextInLML && ael.Ael == Replace<TEdge>(old(ael.Ael), k, up)
      ensures up.View() == e.View()
    {
      hide AelLinks, OutRecList.Valid, OwnersOk, Distinct, Ownership.Exchanged, Replace;
      ghost var es, lft, rgt := ael.Ael, Lft, Rgt;
      BuildingDistinct();
      up := ael.UpdateEdgeIntoAEL(e, k);
      ReplacedElements<TEdge>(es, k, up);
      OwnersReplaced(es, ael.Ael, e, up, lft, rgt, outs.Rings);
      Lft, Rgt := Ownership.Exchanged(lft, e, up), Ownership.Exchanged(rgt, e, up);
    }

    // ---------------------------------------------------------------- local maxima

    /** Takes an edge that builds nothing out of the list. */
    method DeleteIdle(e: TEdge, ghost k: nat)
      requires Building() && ael.At(k, e) && e.OutIdx == UNASSIGNED
      modifies ael, ael.Ael`NextInAEL, ael.Ael`PrevInAEL
      ensures Building() && ael.Ael == Without(old(ael.Ael), k)
    {
      hide AelLinks, OutRecList.Valid, OwnersOk, Distinct;
      ghost var es := ael.Ael;
      WithoutElements(es, k);
      ael.DeleteFromAEL(e, k);
      OwnersShrink(es, ael.Ael, e, Lft, Rgt, outs.Rings);
    }

    /** Closes off what the two neighbouring edges of a maximum build; both build something or neither does. */
    method EndPair(e: TEdge, eMaxPair: TEdge, ghost x: nat, ghost rest: seq<TEdge>) returns (ok: bool, ghost mid: Notes, ghost op: OutPt?)
      requires Swept(ael.Ael) && x + 1 < |ael.Ael| && ael.Ael[x] == e && ael.Ael[x + 1] == eMaxPair
      requires e.PolyTyp == eMaxPair.PolyTyp && e.WindDelta + eMaxPair.WindDelta == 0
      requires rest == Without(Without(ael.Ael, x + 1), x)
      modifies this`Lft, this`Rgt, outs, outs.m_PolyOuts, outs.Owner.Keys`Next, outs.Owner.Keys`Prev
      modifies ael.Ael`OutIdx, ael.Ael`Side
      ensures ok && Building() && e.OutIdx == eMaxPair.OutIdx == UNASSIGNED
      ensures RightOrder(rest)
      ensures PairEnded(old(e.View()), old(eMaxPair.View()), e.Top, old(Output()), mid, Output(), op)
      ensures fresh(outs.Owner.Keys - old(outs.Owner.Keys))
      ensures forall i :: 0 <= i < |outs.m_PolyOuts| ==> outs.m_PolyOuts[i] in old(outs.m_PolyOuts) || fresh(outs.m_PolyOuts[i])
      ensures Noted(old(Output()), Output())
    {
      hide Swept, Building, Without, RightOrder, Noted, EndsMet;
      BothOrNeither(e, eMaxPair, x, rest);
      SweptLists(ael.Ael);
      SameNoted(Output());
      mid, op := Output(), null;
      if e.OutIdx == UNASSIGNED && eMaxPair.OutIdx == UNASSIGNED {
        ok := true;
      } else if e.OutIdx >= 0 && eMaxPair.OutIdx >= 0 {
        mid, op := EndOpen(e, eMaxPair, rest);
        ok := true;
      } else {
        assert false;
        ok := false;
      }
    }

    /** These edges are active and none of the two. */
    ghost predicate Others(rest: seq<TEdge>, e: TEdge, f: TEdge)
      reads ael`Ael
    {
      forall j :: 0 <= j < |rest| ==> rest[j] in ael.Ael && rest[j] != e && rest[j] != f
    }

    /** Either both of the two edges of a maximum build something or neither does, and the others are right without them. */
    lemma BothOrNeither(e: TEdge, f: TEdge, x: nat, rest: seq<TEdge>)
      requires Swept(ael.Ael) && x + 1 < |ael.Ael| && ael.Ael[x] == e && ael.Ael[x + 1] == f
      requires e.PolyTyp == f.PolyTyp && e.WindDelta + f.WindDelta == 0
      requires rest == Without(Without(ael.Ael, x + 1), x)
      ensures e != f && (e.OutIdx == f.OutIdx == UNASSIGNED || (e.OutIdx >= 0 && f.OutIdx >= 0))
      ensures RightOrder(rest) && Others(rest, e, f)
    {
      hide Swept, Building, Right, Distinct, Without;
      SweptLists(ael.Ael);
      PairRemoved(ael.Ael, rest, e, f, x);
      RemoveKeepsRight(Views(rest), Views(ael.Ael), rules, x);
      AtLeastUnassigned(x);
      AtLeastUnassigned(x + 1);
      DistinctPair(x);
      RestShown(ael.Ael, rest, e, f, x);
    }

    /** Ends what two edges build; the counts of the others and whether they build anything stay as they are. */
    method EndOpen(e: TEdge, f: TEdge, ghost rest: seq<TEdge>) returns (ghost mid: Notes, ghost op: OutPt)
      requires Building() && e in ael.Ael && f in ael.Ael && e != f && e.OutIdx >= 0 && f.OutIdx >= 0
      requires RightOrder(rest) && Others(rest, e, f)
      modifies this`Lft, this`Rgt, outs, outs.m_PolyOuts, outs.Owner.Keys`Next, outs.Owner.Keys`Prev
      modifies ael.Ael`OutIdx, ael.Ael`Side
      ensures Building() && e.OutIdx == f.OutIdx == UNASSIGNED && RightOrder(rest)
      ensures EndsMet(old(e.View()), old(f.View()), e.Top, old(Output()), mid, Output(), op)
      ensures fresh(outs.Owner.Keys - old(outs.Owner.Keys))
      ensures forall i :: 0 <= i < |outs.m_PolyOuts| ==> outs.m_PolyOuts[i] in old(outs.m_PolyOuts) || fresh(outs.m_PolyOuts[i])
      ensures Noted(old(Output()), Output())
    {
      hide Building, Right, Noted, EndsMet;
      ghost var s := Views(rest);
      mid, op := EndBoth(e, f, e.Top);
      forall j | 0 <= j < |rest| ensures rest[j].OutIdx >= 0 <==> s[j].outIdx >= 0 {
        assert rest[j] in ael.Ael && rest[j] != e && rest[j] != f;
      }
      SameShownRight(s, Views(rest), rules);
    }

    lemma AtLeastUnassigned(x: nat)
      requires Building() && x < |ael.Ael|
      ensures ael.Ael[x].OutIdx >= UNASSIGNED
    {
    }

    lemma DistinctPair(x: nat)
      requires Building() && x + 1 < |ael.Ael|
      ensures ael.Ael[x] != ael.Ael[x + 1]
    {
      DistinctAt(ael.Ael, x);
    }

    lemma PairRemoved(es: seq<TEdge>, rest: seq<TEdge>, e: TEdge, f: TEdge, x: nat)
      requires x + 1 < |es| && es[x] == e && es[x + 1] == f && rest == Without(Without(es, x + 1), x)
      requires Right(Views(es), rules) && e.PolyTyp == f.PolyTyp && e.WindDelta + f.WindDelta == 0
      ensures PairInserted(Views(rest), Views(es), x) && LocalExtrema.Opposite(e.View(), f.View())
    {
      var s, s' := Views(rest), Views(es);
      forall j | x <= j < |s| ensures s'[j + 2] == s[j] {
        assert rest[j] == es[j + 2];
      }
    }

    /** What remains consists of other edges of the list. */
    lemma RestShown(es: seq<TEdge>, rest: seq<TEdge>, e: TEdge, f: TEdge, x: nat)
      requires Distinct(es) && x + 1 < |es| && es[x] == e && es[x + 1] == f && rest == Without(Without(es, x + 1), x)
      ensures |rest| == |es| - 2
      ensures forall j :: 0 <= j < |rest| ==> rest[j] in es && rest[j] != e && rest[j] != f
    {
      DistinctAt(es, x);
      DistinctAt(es, x + 1);
      forall j | 0 <= j < |rest| ensures rest[j] in es && rest[j] != e && rest[j] != f {
        assert rest[j] == es[if j < x then j else j + 2];
      }
    }

    /** The two neighbouring edges of a maximum leave the list. */
    method RemovePair(e: TEdge, eMaxPair: TEdge, ghost x: nat) returns (ok: bool, ghost mid: Notes, ghost op: OutPt?)
      requires Swept(ael.Ael) && x + 1 < |ael.Ael| && ael.Ael[x] == e && ael.Ael[x + 1] == eMaxPair
      requires e.PolyTyp == eMaxPair.PolyTyp && e.WindDelta + eMaxPair.WindDelta == 0
      modifies this`Lft, this`Rgt, outs, outs.m_PolyOuts, outs.Owner.Keys`Next, outs.Owner.Keys`Prev
      modifies ael, ael.Ael`NextInAEL, ael.Ael`PrevInAEL, ael.Ael`OutIdx, ael.Ael`Side
      ensures ok && Swept(ael.Ael) && ael.Ael == Without(Without(old(ael.Ael), x + 1), x)
      ensures PairEnded(old(e.View()), old(eMaxPair.View()), e.Top, old(Output()), mid, Output(), op)
      ensures fresh(outs.Owner.Keys - old(outs.Owner.Keys))
      ensures forall i :: 0 <= i < |outs.m_PolyOuts| ==> outs.m_PolyOuts[i] in old(outs.m_PolyOuts) || fresh(outs.m_PolyOuts[i])
      ensures Noted(old(Output()), Output())
    {
      hide Noted, Building, Distinct, InsertAt, Without, Swept, RightOrder, PairEnded;
      ghost var rest := Without(Without(ael.Ael, x + 1), x);
      ok, mid, op := EndPair(e, eMaxPair, x, rest);
      DeletePair(e, eMaxPair, x);
      SweptAgain();
    }

    /** The list itself is an order of the active edges. */
    lemma SweptAgain()
      requires Building() && RightOrder(ael.Ael)
      ensures Swept(ael.Ael)
    {
      SameMembers(ael.Ael, ael.Ael);
    }

    method DeletePair(e: TEdge, eMaxPair: TEdge, ghost x: nat)
      requires Building() && x + 1 < |ael.Ael| && ael.Ael[x] == e && ael.Ael[x + 1] == eMaxPair
      requires e.OutIdx == eMaxPair.OutIdx == UNASSIGNED
      modifies ael, ael.Ael`NextInAEL, ael.Ael`PrevInAEL
      ensures Building() && ael.Ael == Without(Without(old(ael.Ael), x + 1), x)
    {
      hide Building, Distinct;
      DistinctPair(x);
      DeleteIdle(e, x);
      DeleteIdle(eMaxPair, x);
    }

    lemma BuildingDistinct()
      requires Building()
      ensures Distinct(ael.Ael)
    {
    }

    /**
     Ends the bounds of `e` and `eMaxPair` where they meet: `e` crosses everything up to its
     partner, and the two leave the list. The edges never disagree on whether they build a
     polygon, so that the error the clipper has for this case cannot arise.
     */
    method DoMaxima(e: TEdge, eMaxPair: TEdge, ghost i: nat, ghost j: nat)
      returns (ok: bool, ghost trace: seq<Lineup>, ghost xs: seq<(nat, CrossEvent)>, ghost m: Lineup, ghost mid: Notes, ghost op: OutPt?)
      requires Swept(ael.Ael) && i < j < |ael.Ael| && ael.Ael[i] == e && ael.Ael[j] == eMaxPair
      requires e.PolyTyp == eMaxPair.PolyTyp && e.WindDelta + eMaxPair.WindDelta == 0
      modifies this`Lft, this`Rgt, this`m_Joins, outs, outs.m_PolyOuts, outs.Owner.Keys`Next, outs.Owner.Keys`Prev
      modifies ael, ael.Ael`NextInAEL, ael.Ael`PrevInAEL, ael.Ael`OutIdx, ael.Ael`Side, ael.Ael`WindCnt, ael.Ael`WindCnt2
      ensures ok && Swept(ael.Ael)
      ensures ael.Ael == Without(Without(old(ael.Ael), j), i)
      ensures PassingRun(rules, e, old(ael.Ael), i + 1, j, e.Top, old(LineupOf(ael.Ael)), m, trace, xs)
      ensures MaximumEnded(m, j, e.Top, mid, Output(), op)
      ensures GainedAmong(old(outs.Rings), outs.Rings, {e.Top})
      ensures fresh(outs.Owner.Keys - old(outs.Owner.Keys))
      ensures forall i :: 0 <= i < |outs.m_PolyOuts| ==> outs.m_PolyOuts[i] in old(outs.m_PolyOuts) || fresh(outs.m_PolyOuts[i])
      ensures Noted(old(Output()), Output())
    {
      hide Noted, Swept, Building, PassingRun, PairEnded, GainedAmong, LineupOf, Views, Without, InsertAt;
      ghost var es, n := ael.Ael, LineupOf(ael.Ael);
      LineupShows(es);
      PairGone(es, i, j);
      trace, xs := CrossUpTo(e, eMaxPair, i, j);
      m := LineupOf(ael.Ael);
      LineupShows(ael.Ael);
      ok, mid, op := RemovePair(e, eMaxPair, j - 1);
      NotedTwice(n.notes, m.notes, Output());
      MaximumGains(rules, e, es, i, j, n, m, trace, xs, mid, Output(), op);
    }

    /** `e`, at place `x` among the others, crosses the edge that follows. */
    method CrossNext(e: TEdge, eNext: TEdge, ghost others: seq<TEdge>, ghost x: nat) returns (next: TEdge?, ghost ev: CrossEvent)
      requires Swept(ael.Ael) && x < |others| && ael.Ael == InsertAt(others, x, e) && eNext == others[x]
      modifies this`Lft, this`Rgt, this`m_Joins, outs, outs.m_PolyOuts, outs.Owner.Keys`Next, outs.Owner.Keys`Prev
      modifies ael, ael.Ael`NextInAEL, ael.Ael`PrevInAEL, ael.Ael`OutIdx, ael.Ael`Side, ael.Ael`WindCnt, ael.Ael`WindCnt2
      ensures Swept(ael.Ael) && ael.Ael == InsertAt(others, x + 1, e) && next == EdgeAt(others, x + 1)
      ensures CrossingMade(rules, IntersectNode(e, eNext, e.Top), old(LineupOf(ael.Ael)), LineupOf(ael.Ael), x, ev)
      ensures fresh(outs.Owner.Keys - old(outs.Owner.Keys))
      ensures forall i :: 0 <= i < |outs.m_PolyOuts| ==> outs.m_PolyOuts[i] in old(outs.m_PolyOuts) || fresh(outs.m_PolyOuts[i])
      ensures Noted(old(Output()), Output())
    {
      hide Noted, Swept, Building, ActiveEdgeList.Valid, OutRecList.Valid, Distinct, CrossingMade, LineupOf, Views;
      ev := CrossAndSwap(e, eNext, e.Top, x);
      assert ael.Ael == InsertAt(others, x + 1, e);
      assert ael.Valid() by { SweptList(ael.Ael); }
      next := ael.Following(e, x + 1);
    }

    /** `e` crosses the edges between it and its partner. */
    method CrossUpTo(e: TEdge, eMaxPair: TEdge, ghost i: nat, ghost j: nat)
      returns (ghost trace: seq<Lineup>, ghost xs: seq<(nat, CrossEvent)>)
      requires Swept(ael.Ael) && i < j < |ael.Ael| && ael.Ael[i] == e && ael.Ael[j] == eMaxPair
      modifies this`Lft, this`Rgt, this`m_Joins, outs, outs.m_PolyOuts, outs.Owner.Keys`Next, outs.Owner.Keys`Prev
      modifies ael, ael.Ael`NextInAEL, ael.Ael`PrevInAEL, ael.Ael`OutIdx, ael.Ael`Side, ael.Ael`WindCnt, ael.Ael`WindCnt2
      ensures Swept(ael.Ael) && ael.Ael == InsertAt(Without(old(ael.Ael), i), j - 1, e)
      ensures PassingRun(rules, e, old(ael.Ael), i + 1, j, e.Top, old(LineupOf(ael.Ael)), LineupOf(ael.Ael), trace, xs)
      ensures fresh(outs.Owner.Keys - old(outs.Owner.Keys))
      ensures forall i :: 0 <= i < |outs.m_PolyOuts| ==> outs.m_PolyOuts[i] in old(outs.m_PolyOuts) || fresh(outs.m_PolyOuts[i])
      ensures Noted(old(Output()), Output())
    {
      hide Noted, Swept, Building, ActiveEdgeList.Valid, OutRecList.Valid, Distinct, Right, InsertAt, Without, EdgeAt, CrossingMade, PassingRun, LineupOf, Views;
      ghost var es, x, n := ael.Ael, i, Output();
      SameNoted(n);
      ghost var first := LineupOf(es);
      trace, xs := [first], [];
      NonePassed(rules, e, es, i + 1, e.Top, first);
      SweptList(es);
      ghost var others := OthersBetween(es, i, j);
      var eNext := ael.Following(e, x);
      while eNext != eMaxPair
        invariant i <= x < j && Swept(ael.Ael) && ael.Ael == InsertAt(others, x, e) && eNext == EdgeAt(others, x)
        invariant PassingRun(rules, e, es, i + 1, x + 1, e.Top, first, LineupOf(ael.Ael), trace, xs)
        invariant fresh(outs.Owner.Keys - old(outs.Owner.Keys)) && Noted(n, Output())
        invariant forall i :: 0 <= i < |outs.m_PolyOuts| ==> outs.m_PolyOuts[i] in old(outs.m_PolyOuts) || fresh(outs.m_PolyOuts[i])
        decreases j - x
      {
        ghost var m := Output();
        Reinserted(es, i, x);
        eNext, trace, xs := CrossOneMore(e, eNext, others, x, es, i + 1, first, trace, xs);
        NotedTwice(n, m, Output());
        x := x + 1;
      }
    }

    /** As `CrossNext`, for the edge at place `x + 1` of the list `es` there was. */
    method CrossOneMore(e: TEdge, eNext: TEdge, ghost others: seq<TEdge>, ghost x: nat, ghost es: seq<TEdge>, ghost i: nat, ghost first: Lineup,
                        ghost trace: seq<Lineup>, ghost xs: seq<(nat, CrossEvent)>)
      returns (next: TEdge?, ghost trace': seq<Lineup>, ghost xs': seq<(nat, CrossEvent)>)
      requires Swept(ael.Ael) && x < |others| && ael.Ael == InsertAt(others, x, e) && eNext == others[x]
      requires i <= x + 1 < |es| && es[x + 1] == eNext && PassingRun(rules, e, es, i, x + 1, e.Top, first, LineupOf(ael.Ael), trace, xs)
      modifies this`Lft, this`Rgt, this`m_Joins, outs, outs.m_PolyOuts, outs.Owner.Keys`Next, outs.Owner.Keys`Prev
      modifies ael, ael.Ael`NextInAEL, ael.Ael`PrevInAEL, ael.Ael`OutIdx, ael.Ael`Side, ael.Ael`WindCnt, ael.Ael`WindCnt2
      ensures Swept(ael.Ael) && ael.Ael == InsertAt(others, x + 1, e) && next == EdgeAt(others, x + 1)
      ensures PassingRun(rules, e, es, i, x + 2, e.Top, first, LineupOf(ael.Ael), trace', xs')
      ensures fresh(outs.Owner.Keys - old(outs.Owner.Keys))
      ensures forall i :: 0 <= i < |outs.m_PolyOuts| ==> outs.m_PolyOuts[i] in old(outs.m_PolyOuts) || fresh(outs.m_PolyOuts[i])
      ensures Noted(old(Output()), Output())
    {
      hide Noted, Swept, Building, ActiveEdgeList.Valid, OutRecList.Valid, InsertAt, EdgeAt, CrossingMade, PassingRun, LineupOf, Views;
      ghost var m := LineupOf(ael.Ael);
      ghost var ev;
      next, ev := CrossNext(e, eNext, others, x);
      OneMorePassed(rules, e, es, i, x + 1, e.Top, first, m, trace, xs, LineupOf(ael.Ael), x, ev);
      trace', xs' := trace + [LineupOf(ael.Ael)], xs + [(x, ev)];
    }
  }

  /** The two edges of a maximum, brought next to each other, leave the list. */
  lemma PairGone(es: seq<TEdge>, i: nat, j: nat)
    requires i < j < |es|
    ensures var s := InsertAt(Without(es, i), j - 1, es[i]);
      && |s| == |es| && s[j - 1] == es[i] && s[j] == es[j] && Without(Without(s, j), j - 1) == Without(Without(es, j), i)
      && forall n :: 0 <= n < |s| ==> s[n] in es
  {
  }

  /** The edges but the one at place `i`, as the one at place `j` is looked for. */
  lemma OthersBetween(es: seq<TEdge>, i: nat, j: nat) returns (others: seq<TEdge>)
    requires Distinct(es) && i < j < |es|
    ensures others == Without(es, i) && InsertAt(others, i, es[i]) == es && EdgeAt(es, i + 1) == EdgeAt(others, i)
    ensures forall y :: i <= y < j ==> y < |others| && EdgeAt(others, y) == others[y] == es[y + 1] && (others[y] == es[j] <==> y == j - 1)
  {
    others := Without(es, i);
    DistinctAt(es, j);
    assert InsertAt(others, i, es[i]) == es;
  }

  lemma Reinserted(es: seq<TEdge>, i: nat, x: nat)
    requires i < |es| && x < |es|
    ensures forall n :: 0 <= n < |es| ==> InsertAt(Without(es, i), x, es[i])[n] in es
  {
  }

  /** The order in which a pair that has entered the list stands next to each other. */
  lemma PairOrder(es: seq<TEdge>, es': seq<TEdge>, lb: TEdge, rb: TEdge, kl: nat, kr: nat)
    requires Distinct(es) && lb != rb && lb !in es && rb !in es
    requires kl < kr <= |es| + 1 && es' == InsertAt(InsertAt(es, kl, lb), kr, rb)
    ensures var order := InsertAt(InsertAt(es, kl, lb), kl + 1, rb);
      Distinct(order) && SameEdges(order, es') && lb in es' && rb in es'
  {
    InsertedElements(es, kl, lb);
    InsertedElements(InsertAt(es, kl, lb), kr, rb);
    InsertedElements(InsertAt(es, kl, lb), kl + 1, rb);
    SameMembers(InsertAt(InsertAt(es, kl, lb), kl + 1, rb), es');
  }

  lemma SameMembers(a: seq<TEdge>, b: seq<TEdge>)
    requires |a| == |b| && forall x :: x in a <==> x in b
    ensures SameEdges(a, b)
  {
  }
}
