/**
 Who builds which open output polygon.

 While the sweep runs, every open ring has exactly one edge that builds its front (`EsLeft`)
 and one that builds its back (`EsRight`).  `Lft` and `Rgt` name them by record.
 */
module Ownership {
  import opened ClipTypes
  import opened Winding
  import opened Edges
  import opened Sequences
  import opened OutPtRings
  import opened OutRecs
  import opened ActiveEdgeLists

  type Owners = map<int, TEdge>

  /** Record `k` is open: the edges `l` and `r` build its front and its back. */
  ghost predicate BuiltBy(k: int, l: TEdge, r: TEdge)
    reads l`OutIdx, l`Side, r`OutIdx, r`Side
  {
    l.OutIdx == k && l.Side == EsLeft && r.OutIdx == k && r.Side == EsRight
  }

  ghost predicate OwnersOk(es: seq<TEdge>, lft: Owners, rgt: Owners, rings: seq<seq<OutPt>>)
    reads es`OutIdx, es`Side
  {
    && lft.Keys == rgt.Keys
    && (forall k :: k in lft ==> 0 <= k < |rings| && rings[k] != [])
    && (forall k :: k in lft ==> lft[k] in es && rgt[k] in es && BuiltBy(k, lft[k], rgt[k]))
    && (forall e :: e in es ==> e.OutIdx >= UNASSIGNED)
    && (forall e :: e in es && e.OutIdx >= 0 ==> e.OutIdx in lft && e == if e.Side == EsLeft then lft[e.OutIdx] else rgt[e.OutIdx])
  }

  /** The edge that builds the other end of the polygon that `e` builds. */
  ghost function Partner(e: TEdge, lft: Owners, rgt: Owners): TEdge
    requires e.OutIdx in lft && e.OutIdx in rgt
    reads e`OutIdx, e`Side
  {
    if e.Side == EsLeft then rgt[e.OutIdx] else lft[e.OutIdx]
  }

  /**
   Every output index on an active edge is carried by exactly two active edges,
   and they build opposite ends of the same ring.
   */
  lemma ExactlyTwo(es: seq<TEdge>, lft: Owners, rgt: Owners, rings: seq<seq<OutPt>>, e: TEdge)
    requires OwnersOk(es, lft, rgt, rings) && e in es && e.OutIdx >= 0
    ensures e.OutIdx in lft && e.OutIdx in rgt
    ensures var p := Partner(e, lft, rgt);
      && p in es && p != e && p.OutIdx == e.OutIdx && p.Side == e.Side.Opposite()
      && forall f :: f in es && f.OutIdx == e.OutIdx ==> f == e || f == p
    ensures e.OutIdx < |rings| && rings[e.OutIdx] != []
  {
  }

  function Exchanged(m: Owners, e1: TEdge, e2: TEdge): Owners {
    map k | k in m :: if m[k] == e1 then e2 else if m[k] == e2 then e1 else m[k]
  }

  /** The point added last at this end of the ring of record `idx`, if there is such a ring. */
  ghost function LastPt(rings: seq<seq<OutPt>>, idx: int, side: EdgeSide): OutPt? {
    if 0 <= idx < |rings| && rings[idx] != [] then EndIn(rings[idx], side) else null
  }

  /** Every end of every ring but one is where it was. */
  ghost predicate EndsKept(rings: seq<seq<OutPt>>, rings': seq<seq<OutPt>>, idx: int, side: EdgeSide) {
    forall j, s :: j != idx || s != side ==> LastPt(rings', j, s) == LastPt(rings, j, s)
  }

  /** Every edge but these two, seen before as in `v` and now as in `v'`, goes on building what it built. */
  ghost predicate OthersBuild(es: seq<TEdge>, e1: TEdge, e2: TEdge, v: seq<EdgeView>, rings: seq<seq<OutPt>>, v': seq<EdgeView>, rings': seq<seq<OutPt>>)
  {
    && |v| == |es| && |v'| == |es|
    && (forall i :: 0 <= i < |es| && es[i] != e1 && es[i] != e2 ==> SameBuilt(v[i], rings, v'[i], rings'))
  }

  ghost predicate SameBuilt(v: EdgeView, rings: seq<seq<OutPt>>, v': EdgeView, rings': seq<seq<OutPt>>) {
    && (v'.outIdx >= 0 <==> v.outIdx >= 0)
    && (v'.outIdx >= 0 ==> LastPt(rings', v'.outIdx, v'.side) == LastPt(rings, v.outIdx, v.side))
  }

  lemma OthersTwice(es: seq<TEdge>, e1: TEdge, e2: TEdge, v: seq<EdgeView>, rings: seq<seq<OutPt>>, v': seq<EdgeView>, rings': seq<seq<OutPt>>,
                    v'': seq<EdgeView>, rings'': seq<seq<OutPt>>)
    requires OthersBuild(es, e1, e2, v, rings, v', rings') && OthersBuild(es, e1, e2, v', rings', v'', rings'')
    ensures OthersBuild(es, e1, e2, v, rings, v'', rings'')
  {
    hide LastPt;
    forall i | 0 <= i < |es| && es[i] != e1 && es[i] != e2 ensures SameBuilt(v[i], rings, v''[i], rings'') {
      assert SameBuilt(v[i], rings, v'[i], rings') && SameBuilt(v'[i], rings', v''[i], rings'');
    }
  }

  lemma OthersEither(es: seq<TEdge>, e1: TEdge, e2: TEdge, v: seq<EdgeView>, rings: seq<seq<OutPt>>, v': seq<EdgeView>, rings': seq<seq<OutPt>>)
    requires OthersBuild(es, e2, e1, v, rings, v', rings')
    ensures OthersBuild(es, e1, e2, v, rings, v', rings')
  {
  }

  /** After `e1` has added a point, the others build what they built. */
  lemma PushKeepsOthers(es: seq<TEdge>, lft: Owners, rgt: Owners, rings: seq<seq<OutPt>>, rings': seq<seq<OutPt>>, e1: TEdge, e2: TEdge)
    requires OwnersOk(es, lft, rgt, rings') && e1 in es && e1.OutIdx >= 0 && EndsKept(rings, rings', e1.OutIdx, e1.Side)
    ensures OthersBuild(es, e1, e2, Views(es), rings, Views(es), rings')
  {
    DifferentEnds(es, lft, rgt, rings', e1);
    hide LastPt, OwnersOk;
    var v := Views(es);
    forall i | 0 <= i < |es| && es[i] != e1 && es[i] != e2 ensures SameBuilt(v[i], rings, v[i], rings') {
      assert es[i] in es;
    }
  }

  /** The rings after a point at `pt` has been added at this end, unless the last point there is at `pt` already. */
  ghost predicate PointAdded(rings: seq<seq<OutPt>>, rings': seq<seq<OutPt>>, idx: nat, side: EdgeSide, pt: IntPoint, op: OutPt)
    requires idx < |rings| && rings[idx] != []
  {
    && op.Pt == pt
    && (if EndIn(rings[idx], side).Pt == pt then op == EndIn(rings[idx], side) && rings' == rings
        else rings' == rings[idx := Extended(rings[idx], side, op)])
  }

  lemma EndKeptAt(rings: seq<seq<OutPt>>, rings': seq<seq<OutPt>>, idx: int, side: EdgeSide, j: int, s: EdgeSide)
    requires EndsKept(rings, rings', idx, side) && (j != idx || s != side)
    ensures LastPt(rings', j, s) == LastPt(rings, j, s)
  {
  }

  /** After `e` has added `op` to its ring, the other ends are as before. */
  lemma EndsAfterPush(es: seq<TEdge>, lft: Owners, rgt: Owners, rings: seq<seq<OutPt>>, rings': seq<seq<OutPt>>, e: TEdge, op: OutPt)
    requires OwnersOk(es, lft, rgt, rings) && e in es && e.OutIdx >= 0
    requires
      || (rings' == rings && LastPt(rings, e.OutIdx, e.Side) == op)
      || rings' == rings[e.OutIdx := Extended(rings[e.OutIdx], e.Side, op)]
    ensures OwnersOk(es, lft, rgt, rings') && LastPt(rings', e.OutIdx, e.Side) == op
    ensures EndsKept(rings, rings', e.OutIdx, e.Side)
  {
  }

  /** An edge that builds nothing joins the others. */
  lemma OwnersGrow(es: seq<TEdge>, es': seq<TEdge>, e: TEdge, lft: Owners, rgt: Owners, rings: seq<seq<OutPt>>)
    requires OwnersOk(es, lft, rgt, rings) && e.OutIdx == UNASSIGNED
    requires forall f :: f in es' <==> f in es || f == e
    ensures OwnersOk(es', lft, rgt, rings)
  {
  }

  /** The order of the edges does not matter. */
  lemma OwnersSame(es: seq<TEdge>, es': seq<TEdge>, lft: Owners, rgt: Owners, rings: seq<seq<OutPt>>)
    requires OwnersOk(es, lft, rgt, rings)
    requires forall f :: f in es <==> f in es'
    ensures OwnersOk(es', lft, rgt, rings)
  {
  }

  /** `up` takes the place of `e`. */
  lemma OwnersReplaced(es: seq<TEdge>, es': seq<TEdge>, e: TEdge, up: TEdge, lft: Owners, rgt: Owners, rings: seq<seq<OutPt>>)
    requires OwnersOk(es, lft, rgt, rings) && e in es && up !in es && up.OutIdx == e.OutIdx && up.Side == e.Side
    requires forall f :: f in es' <==> (f in es && f != e) || f == up
    ensures OwnersOk(es', Exchanged(lft, e, up), Exchanged(rgt, e, up), rings)
  {
  }

  /** An edge that builds nothing leaves. */
  lemma OwnersShrink(es: seq<TEdge>, es': seq<TEdge>, e: TEdge, lft: Owners, rgt: Owners, rings: seq<seq<OutPt>>)
    requires OwnersOk(es, lft, rgt, rings) && e.OutIdx == UNASSIGNED
    requires forall f :: f in es <==> f in es' || f == e
    ensures OwnersOk(es', lft, rgt, rings)
  {
  }

  /** Two edges do not build the same end. */
  lemma DifferentEnds(es: seq<TEdge>, lft: Owners, rgt: Owners, rings: seq<seq<OutPt>>, f: TEdge)
    requires OwnersOk(es, lft, rgt, rings) && f in es && f.OutIdx >= 0
    ensures forall g :: g in es && g != f ==> g.OutIdx != f.OutIdx || g.Side != f.Side
  {
  }

  /** Two crossing edges trade the polygons they build. */
  method SwapOutputs(e1: TEdge, e2: TEdge, ghost es: seq<TEdge>, ghost lft: Owners, ghost rgt: Owners, ghost rings: seq<seq<OutPt>>)
    requires OwnersOk(es, lft, rgt, rings) && e1 in es && e2 in es && e1 != e2
    modifies e1`OutIdx, e1`Side, e2`OutIdx, e2`Side
    ensures OwnersOk(es, Exchanged(lft, e1, e2), Exchanged(rgt, e1, e2), rings)
    ensures e1.OutIdx == old(e2.OutIdx) && e2.OutIdx == old(e1.OutIdx)
    ensures e1.Side == old(e2.Side) && e2.Side == old(e1.Side)
  {
    TradeOutputs(e1, e2);
    ghost var lft', rgt' := Exchanged(lft, e1, e2), Exchanged(rgt, e1, e2);
    forall k | k in lft ensures BuiltBy(k, lft'[k], rgt'[k]) {
      assert old(BuiltBy(k, lft[k], rgt[k]));
    }
    forall e | e in es && e.OutIdx >= 0 ensures e.OutIdx in lft' && e == if e.Side == EsLeft then lft'[e.OutIdx] else rgt'[e.OutIdx] {
      ghost var was := if e == e1 then e2 else if e == e2 then e1 else e;
      assert was in es && old(was.OutIdx) == e.OutIdx && old(was.Side) == e.Side;
    }
  }

  /** Exchanges the ends that the two edges build. */
  method TradeOutputs(e1: TEdge, e2: TEdge)
    requires e1 != e2
    modifies e1`OutIdx, e1`Side, e2`OutIdx, e2`Side
    ensures e1.OutIdx == old(e2.OutIdx) && e2.OutIdx == old(e1.OutIdx)
    ensures e1.Side == old(e2.Side) && e2.Side == old(e1.Side)
  {
    var side := e1.Side;
    e1.Side := e2.Side;
    e2.Side := side;
    var outIdx := e1.OutIdx;
    e1.OutIdx := e2.OutIdx;
    e2.OutIdx := outIdx;
  }

  method SwapSides(e1: TEdge, e2: TEdge, ghost es: seq<TEdge>, ghost lft: Owners, ghost rgt: Owners, ghost rings: seq<seq<OutPt>>)
    requires OwnersOk(es, lft, rgt, rings) && e1 in es && e2 in es && e1.OutIdx < 0 && e2.OutIdx < 0
    modifies e1`Side, e2`Side
    ensures OwnersOk(es, lft, rgt, rings)
    ensures e1.Side == old(e2.Side) && e2.Side == old(e1.Side)
  {
    var side := e1.Side;
    e1.Side := e2.Side;
    e2.Side := side;
  }

  /** Two edges, building nothing so far, start the two ends of the new ring `k`. */
  method OpenRing(l: TEdge, r: TEdge, k: nat, ghost es: seq<TEdge>, ghost lft: Owners, ghost rgt: Owners,
                  ghost rings: seq<seq<OutPt>>, ghost ring: seq<OutPt>)
    requires OwnersOk(es, lft, rgt, rings) && |rings| == k && ring != []
    requires l in es && r in es && l != r && l.OutIdx < 0 && r.OutIdx < 0
    modifies l`OutIdx, l`Side, r`OutIdx, r`Side
    ensures OwnersOk(es, lft[k := l], rgt[k := r], rings + [ring]) && BuiltBy(k, l, r)
  {
    l.OutIdx := k;
    r.OutIdx := l.OutIdx;
    l.Side := EsLeft;
    r.Side := EsRight;
  }

  /** The edges that build the two ends of one ring meet: the ring is closed. */
  method CloseRing(e1: TEdge, e2: TEdge, ghost es: seq<TEdge>, ghost lft: Owners, ghost rgt: Owners, ghost rings: seq<seq<OutPt>>)
    requires OwnersOk(es, lft, rgt, rings) && e1 in es && e2 in es && e1 != e2 && e1.OutIdx == e2.OutIdx >= 0
    modifies e1`OutIdx, e2`OutIdx
    ensures OwnersOk(es, lft - {old(e1.OutIdx)}, rgt - {old(e1.OutIdx)}, rings)
    ensures e1.OutIdx == e2.OutIdx == UNASSIGNED
    ensures OthersBuild(es, e1, e2, old(Views(es)), rings, Views(es), rings)
  {
    e1.OutIdx := UNASSIGNED;
    e2.OutIdx := UNASSIGNED;
  }

  /** The owners after the ring built by `e2` has been appended to the one built by `e1`, both on the given sides. */
  ghost function Taken(m: Owners, side: EdgeSide, s1: EdgeSide, i1: int, i2: int, p: TEdge): Owners {
    var m' := m - {i2};
    if s1 == side then m'[i1 := p] else m'
  }

  /**
   After two open rings have been joined at `e1` and `e2`, the partner `p` of `e2` builds the
   end of the joined ring that `e1` has left.
   */
  lemma Joined(es: seq<TEdge>, lft: Owners, rgt: Owners, rings': seq<seq<OutPt>>, e1: TEdge, e2: TEdge, p: TEdge,
               i1: nat, s1: EdgeSide, i2: nat, s2: EdgeSide)
    requires lft.Keys == rgt.Keys && i1 in lft && i2 in lft && i1 != i2
    requires forall k :: k in lft && k != i2 ==> 0 <= k < |rings'| && rings'[k] != []
    requires forall k :: k in lft ==> lft[k] in es && rgt[k] in es
    requires e1 == (if s1 == EsLeft then lft[i1] else rgt[i1]) && e2 == (if s2 == EsLeft then lft[i2] else rgt[i2])
    requires p == (if s2 == EsLeft then rgt[i2] else lft[i2])
    requires e1.OutIdx == e2.OutIdx == UNASSIGNED && p.OutIdx == i1 && p.Side == s1
    requires var q := if s1 == EsLeft then rgt[i1] else lft[i1]; q.OutIdx == i1 && q.Side == s1.Opposite()
    requires forall k :: k in lft && k != i1 && k != i2 ==> BuiltBy(k, lft[k], rgt[k])
    requires forall e :: e in es ==> e.OutIdx >= UNASSIGNED
    requires forall e :: e in es && e != e1 && e != e2 && e != p && e.OutIdx >= 0 ==>
      e.OutIdx != i2 && e.OutIdx in lft && e == if e.Side == EsLeft then lft[e.OutIdx] else rgt[e.OutIdx]
    ensures OwnersOk(es, Taken(lft, EsLeft, s1, i1, i2, p), Taken(rgt, EsRight, s1, i1, i2, p), rings')
  {
    var lft', rgt' := Taken(lft, EsLeft, s1, i1, i2, p), Taken(rgt, EsRight, s1, i1, i2, p);
    assert lft'.Keys == rgt'.Keys == lft.Keys - {i2};
    forall k | k in lft' ensures lft'[k] in es && rgt'[k] in es && BuiltBy(k, lft'[k], rgt'[k]) {
    }
    forall e | e in es && e.OutIdx >= 0 ensures e.OutIdx in lft' && e == if e.Side == EsLeft then lft'[e.OutIdx] else rgt'[e.OutIdx] {
    }
  }

  /** The first active edge that carries `idx`, if any. */
  method FindCarrier(ael: ActiveEdgeList, idx: int) returns (e: TEdge?)
    requires ael.Valid()
    ensures e != null ==> e in ael.Ael && e.OutIdx == idx
    ensures e == null ==> forall f :: f in ael.Ael ==> f.OutIdx != idx
  {
    e := ael.m_ActiveEdges;
    ghost var j := 0;
    while e != null && e.OutIdx != idx
      invariant j <= |ael.Ael| && e == EdgeAt(ael.Ael, j)
      invariant forall i :: 0 <= i < j ==> ael.Ael[i].OutIdx != idx
      decreases |ael.Ael| - j
    {
      assert j + 1 < |ael.Ael| ==> ael.Ael[j].NextInAEL == ael.Ael[j + 1];
      e := e.NextInAEL;
      j := j + 1;
    }
  }

  /** `e1` and `e2` stop building, and the other carrier `p` of the index of `e2` takes over from `e1`. */
  method TakeOver(e1: TEdge, e2: TEdge, ghost p: TEdge, ael: ActiveEdgeList)
    requires ael.Valid() && e1 in ael.Ael && e2 in ael.Ael && p in ael.Ael && e1 != e2 && p != e1 && p != e2
    requires e1.OutIdx >= 0 && e2.OutIdx >= 0 && p.OutIdx == e2.OutIdx && e1.OutIdx != e2.OutIdx
    requires forall f :: f in ael.Ael && f.OutIdx == e2.OutIdx ==> f == e2 || f == p
    modifies e1`OutIdx, e2`OutIdx, p`OutIdx, p`Side
    ensures e1.OutIdx == e2.OutIdx == UNASSIGNED
    ensures p.OutIdx == old(e1.OutIdx) && p.Side == e1.Side
  {
    var okIdx, obsoleteIdx := e1.OutIdx, e2.OutIdx;
    e1.OutIdx := UNASSIGNED;
    e2.OutIdx := UNASSIGNED;
    var e := FindCarrier(ael, obsoleteIdx);
    if e != null {
      e.OutIdx := okIdx;
      e.Side := e1.Side;
    }
  }

  /** Where the ends of the rings are after ring `i2` has been appended to ring `i1`. */
  lemma EndsAfterAppend(rings: seq<seq<OutPt>>, rings': seq<seq<OutPt>>, i1: nat, s1: EdgeSide, i2: nat, s2: EdgeSide)
    requires i1 < |rings| && i2 < |rings| && i1 != i2 && rings[i1] != [] && rings[i2] != []
    requires rings' == rings[i1 := Appended(rings[i1], s1, rings[i2], s2)][i2 := []]
    ensures LastPt(rings', i1, s1) == LastPt(rings, i2, s2.Opposite())
    ensures LastPt(rings', i1, s1.Opposite()) == LastPt(rings, i1, s1.Opposite())
    ensures forall j, s :: j != i1 && j != i2 ==> LastPt(rings', j, s) == LastPt(rings, j, s)
    ensures forall j :: 0 <= j < |rings| && j != i2 && rings[j] != [] ==> rings'[j] != []
    ensures |rings'| == |rings|
  {
    AppendedEnds(rings[i1], s1, rings[i2], s2);
  }

  /**
   The polygon that `e2` built has been appended to the one that `e1` built: both edges are
   done, and the edge that builds the other end of the former takes over. It is always found.
   */
  method HandOver(e1: TEdge, e2: TEdge, ael: ActiveEdgeList, ghost lft: Owners, ghost rgt: Owners,
                  ghost rings: seq<seq<OutPt>>, ghost rings': seq<seq<OutPt>>) returns (ghost p: TEdge)
    requires ael.Valid() && OwnersOk(ael.Ael, lft, rgt, rings)
    requires e1 in ael.Ael && e2 in ael.Ael && e1.OutIdx >= 0 && e2.OutIdx >= 0 && e1.OutIdx != e2.OutIdx
    requires e1.OutIdx < |rings| && e2.OutIdx < |rings|
    requires rings' == rings[e1.OutIdx := Appended(rings[e1.OutIdx], e1.Side, rings[e2.OutIdx], e2.Side)][e2.OutIdx := []]
    modifies ael.Ael`OutIdx, ael.Ael`Side
    ensures var i1, s1, i2 := old(e1.OutIdx), old(e1.Side), old(e2.OutIdx);
      OwnersOk(ael.Ael, Taken(lft, EsLeft, s1, i1, i2, p), Taken(rgt, EsRight, s1, i1, i2, p), rings')
    ensures e1.OutIdx == e2.OutIdx == UNASSIGNED
    ensures OthersBuild(ael.Ael, e1, e2, old(Views(ael.Ael)), rings, Views(ael.Ael), rings')
  {
    hide ActiveEdgeList.Valid, OwnersOk, LastPt, Appended, Views, Taken;
    ghost var i1, s1, i2, s2 := e1.OutIdx, e1.Side, e2.OutIdx, e2.Side;
    ExactlyTwo(ael.Ael, lft, rgt, rings, e1);
    ExactlyTwo(ael.Ael, lft, rgt, rings, e2);
    EndsAfterAppend(rings, rings', i1, s1, i2, s2);
    ghost var es, v := ael.Ael, Views(ael.Ael);
    p := TakeOverOwned(e1, e2, ael, lft, rgt, rings, rings');
    forall i | 0 <= i < |es| && es[i] != e1 && es[i] != e2 ensures SameBuilt(v[i], rings, Views(es)[i], rings') {
      assert es[i] in es;
    }
  }

  method TakeOverOwned(e1: TEdge, e2: TEdge, ael: ActiveEdgeList, ghost lft: Owners, ghost rgt: Owners,
                       ghost rings: seq<seq<OutPt>>, ghost rings': seq<seq<OutPt>>) returns (ghost p: TEdge)
    requires ael.Valid() && OwnersOk(ael.Ael, lft, rgt, rings)
    requires e1 in ael.Ael && e2 in ael.Ael && e1.OutIdx >= 0 && e2.OutIdx >= 0 && e1.OutIdx != e2.OutIdx
    requires |rings'| == |rings| && forall j :: 0 <= j < |rings| && j != e2.OutIdx && rings[j] != [] ==> rings'[j] != []
    modifies ael.Ael`OutIdx, ael.Ael`Side
    ensures e2.OutIdx == e1.OutIdx == UNASSIGNED && p in ael.Ael && p != e1 && p != e2
    ensures old(p.OutIdx) == old(e2.OutIdx) && old(p.Side) == old(e2.Side).Opposite()
    ensures p.OutIdx == old(e1.OutIdx) && p.Side == old(e1.Side)
    ensures forall g :: g in ael.Ael && g != e1 && g != e2 && g != p ==> g.OutIdx == old(g.OutIdx) && g.Side == old(g.Side)
    ensures var i1, s1, i2 := old(e1.OutIdx), old(e1.Side), old(e2.OutIdx);
      OwnersOk(ael.Ael, Taken(lft, EsLeft, s1, i1, i2, p), Taken(rgt, EsRight, s1, i1, i2, p), rings')
  {
    hide AelLinks;
    ghost var i1, s1, i2, s2 := e1.OutIdx, e1.Side, e2.OutIdx, e2.Side;
    ExactlyTwo(ael.Ael, lft, rgt, rings, e2);
    p := Partner(e2, lft, rgt);
    TakeOver(e1, e2, p, ael);
    Joined(ael.Ael, lft, rgt, rings', e1, e2, p, i1, s1, i2, s2);
  }
}
