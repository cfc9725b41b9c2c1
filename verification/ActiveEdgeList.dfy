/**
 The active edge list: a doubly linked list threaded through the edges themselves.

 `Ael` is the abstract value, the edges from left to right; every operation states exactly
 what it does to that sequence.
 */
module ActiveEdgeLists {
  import opened ClipTypes
  import opened Sequences
  import opened Edges
  import opened ScanlineOrder

  /** The edge at place `i`, or null off either end. */
  function EdgeAt(s: seq<TEdge>, i: int): TEdge? {
    if 0 <= i < |s| then s[i] else null
  }

  ghost predicate AelLinks(head: TEdge?, s: seq<TEdge>)
    reads s`NextInAEL, s`PrevInAEL
  {
    && Distinct(s)
    && head == EdgeAt(s, 0)
    && (s != [] ==> s[0].PrevInAEL == null && s[|s| - 1].NextInAEL == null)
    && (forall i {:trigger s[i].NextInAEL} :: 0 <= i < |s| - 1 ==> s[i].NextInAEL == s[i + 1])
    && (forall i {:trigger s[i].PrevInAEL} :: 1 <= i < |s| ==> s[i].PrevInAEL == s[i - 1])
  }

  class ActiveEdgeList {
    const topX: ScanlineX
    var m_ActiveEdges: TEdge?
    ghost var Ael: seq<TEdge>

    ghost predicate Valid()
      reads this, Ael`NextInAEL, Ael`PrevInAEL
    {
      AelLinks(m_ActiveEdges, Ael)
    }

    constructor (topX: ScanlineX)
      ensures Valid() && Ael == [] && this.topX == topX
    {
      this.topX := topX;
      m_ActiveEdges := null;
      Ael := [];
    }

    /** `e` stands at place `k`. */
    ghost predicate At(k: nat, e: TEdge)
      reads this`Ael
    {
      k < |Ael| && Ael[k] == e
    }

    /** Not in the list, and showing it: both links are null. */
    predicate Detached(e: TEdge)
      reads e`NextInAEL, e`PrevInAEL
    {
      e.NextInAEL == null && e.PrevInAEL == null
    }

    method First() returns (e: TEdge?)
      requires Valid()
      ensures e == EdgeAt(Ael, 0)
    {
      e := m_ActiveEdges;
    }

    method Following(e: TEdge, ghost j: nat) returns (next: TEdge?)
      requires Valid() && At(j, e)
      ensures next == EdgeAt(Ael, j + 1)
    {
      assert j + 1 < |Ael| ==> Ael[j].NextInAEL == Ael[j + 1];
      next := e.NextInAEL;
    }

    method Preceding(e: TEdge, ghost j: nat) returns (prev: TEdge?)
      requires Valid() && At(j, e)
      ensures prev == EdgeAt(Ael, j - 1)
    {
      assert j > 0 ==> Ael[j].PrevInAEL == Ael[j - 1];
      prev := e.PrevInAEL;
    }

    method InsertEdgeIntoAEL(edge: TEdge, startEdge: TEdge?, ghost start: nat) returns (ghost k: nat)
      requires Valid() && edge !in Ael
      requires startEdge != null ==> At(start, startEdge)
      modifies this, Ael`NextInAEL, Ael`PrevInAEL, edge`NextInAEL, edge`PrevInAEL
      ensures Valid()
      ensures k <= |old(Ael)| && Ael == InsertAt(old(Ael), k, edge)
      ensures startEdge != null ==> start < k
      ensures k < |old(Ael)| ==> E2InsertsBeforeE1(topX, old(Ael)[k], edge)
      ensures forall x :: (if startEdge == null then 0 else start + 1) <= x < k ==> !E2InsertsBeforeE1(topX, old(Ael)[x], edge)
      ensures SortedByX(old(Ael)) && (startEdge != null ==> startEdge.Curr.X <= edge.Curr.X) ==> SortedByX(Ael)
      ensures AscendsWith(topX, old(Ael), Ael, startEdge, edge)
    {
      hide AelLinks, SortedByX, InsertAt, Distinct, AscendsWith;
      HeadFirst();
      ghost var es, from := Ael, if startEdge == null then 0 else start + 1;
      if m_ActiveEdges == null || (startEdge == null && E2InsertsBeforeE1(topX, m_ActiveEdges, edge)) {
        k := 0;
        InsertFirst(edge);
      } else {
        var e;
        e, k := FindPlace(edge, startEdge, start);
        InsertAfter(edge, e, k - 1);
      }
      if SortedByX(old(Ael)) && (startEdge != null ==> startEdge.Curr.X <= edge.Curr.X) {
        InsertKeepsSorted(old(Ael), k, edge);
      }
      PlaceAscends(topX, es, k, startEdge, from, edge);
    }

    lemma HeadFirst()
      requires Valid()
      ensures m_ActiveEdges == null <==> Ael == []
      ensures Ael != [] ==> m_ActiveEdges == Ael[0]
    {
    }

    /** The edge to insert behind: the last one from the start that `edge` need not stand before. */
    method FindPlace(edge: TEdge, startEdge: TEdge?, ghost start: nat) returns (e: TEdge, ghost k: nat)
      requires Valid() && m_ActiveEdges != null
      requires if startEdge != null then At(start, startEdge) else !E2InsertsBeforeE1(topX, m_ActiveEdges, edge)
      ensures 1 <= k <= |Ael| && At(k - 1, e)
      ensures startEdge != null ==> start < k
      ensures startEdge == null || startEdge.Curr.X <= edge.Curr.X ==> e.Curr.X <= edge.Curr.X
      ensures k < |Ael| ==> E2InsertsBeforeE1(topX, Ael[k], edge)
      ensures forall x :: (if startEdge == null then 0 else start + 1) <= x < k ==> !E2InsertsBeforeE1(topX, Ael[x], edge)
    {
      e := if startEdge == null then m_ActiveEdges else startEdge;
      k := if startEdge == null then 1 else start + 1;
      while e.NextInAEL != null && !E2InsertsBeforeE1(topX, e.NextInAEL, edge)
        invariant 1 <= k <= |Ael| && At(k - 1, e)
        invariant startEdge != null ==> start < k
        invariant startEdge == null || startEdge.Curr.X <= edge.Curr.X ==> e.Curr.X <= edge.Curr.X
        invariant forall x :: (if startEdge == null then 0 else start + 1) <= x < k ==> !E2InsertsBeforeE1(topX, Ael[x], edge)
        decreases |Ael| - k
      {
        e := e.NextInAEL;
        k := k + 1;
      }
    }

    /** Links `edge` in before the head, if there is one. */
    method InsertFirst(edge: TEdge)
      requires Valid() && edge !in Ael
      modifies this, Ael`NextInAEL, Ael`PrevInAEL, edge`NextInAEL, edge`PrevInAEL
      ensures Valid() && Ael == InsertAt(old(Ael), 0, edge)
    {
      edge.PrevInAEL := null;
      edge.NextInAEL := m_ActiveEdges;
      if m_ActiveEdges != null {
        DistinctAround(Ael, 0);
        m_ActiveEdges.PrevInAEL := edge;
      }
      m_ActiveEdges := edge;
      Ael := InsertAt(Ael, 0, edge);
    }

    /** Links `edge` in behind `e`. */
    method InsertAfter(edge: TEdge, e: TEdge, ghost j: nat)
      requires Valid() && edge !in Ael && At(j, e)
      modifies this`Ael, Ael`NextInAEL, Ael`PrevInAEL, edge`NextInAEL, edge`PrevInAEL
      ensures Valid() && Ael == InsertAt(old(Ael), j + 1, edge)
    {
      DistinctAround(Ael, j);
      edge.NextInAEL := e.NextInAEL;
      if e.NextInAEL != null {
        e.NextInAEL.PrevInAEL := edge;
      }
      edge.PrevInAEL := e;
      e.NextInAEL := edge;
      Ael := InsertAt(Ael, j + 1, edge);
    }

    /** An edge put between a smaller and a larger neighbour keeps the list sorted. */
    static lemma InsertKeepsSorted(s: seq<TEdge>, k: nat, e: TEdge)
      requires k <= |s| && SortedByX(s)
      requires k > 0 ==> s[k - 1].Curr.X <= e.Curr.X
      requires k < |s| ==> e.Curr.X <= s[k].Curr.X
      ensures SortedByX(InsertAt(s, k, e))
    {
    }

    /** Takes `e` out; an edge that is already out stays out. */
    method DeleteFromAEL(e: TEdge, ghost k: nat)
      requires Valid() && (At(k, e) || (e !in Ael && Detached(e)))
      modifies this, Ael`NextInAEL, Ael`PrevInAEL, e`NextInAEL, e`PrevInAEL
      ensures Valid() && Detached(e)
      ensures Ael == if old(At(k, e)) then Without(old(Ael), k) else old(Ael)
      ensures e !in Ael
    {
      var aelPrev := e.PrevInAEL;
      var aelNext := e.NextInAEL;
      if aelPrev == null && aelNext == null && e != m_ActiveEdges {
        assert !At(k, e);
        return;  // already deleted
      }
      TakeOut(e, k);
    }

    /** Links the neighbours of `e` to each other. */
    method TakeOut(e: TEdge, ghost k: nat)
      requires Valid() && At(k, e)
      modifies this, Ael`NextInAEL, Ael`PrevInAEL
      ensures Valid() && Detached(e) && Ael == Without(old(Ael), k) && e !in Ael
    {
      var aelPrev := e.PrevInAEL;
      var aelNext := e.NextInAEL;
      DistinctAround(Ael, k);
      if aelPrev != null {
        aelPrev.NextInAEL := aelNext;
      } else {
        m_ActiveEdges := aelNext;
      }
      if aelNext != null {
        aelNext.PrevInAEL := aelPrev;
      }
      e.NextInAEL := null;
      e.PrevInAEL := null;
      Ael := Without(Ael, k);
    }

    /** Exchanges two edges of the list, neighbours or not; does nothing once one of them has been removed. */
    method SwapPositionsInAEL(edge1: TEdge, edge2: TEdge, ghost i: nat, ghost j: nat)
      requires Valid() && edge1 != edge2
      requires At(i, edge1) || (edge1 !in Ael && Detached(edge1))
      requires At(j, edge2) || (edge2 !in Ael && Detached(edge2))
      modifies this, Ael`NextInAEL, Ael`PrevInAEL
      ensures Valid()
      ensures Ael == if old(At(i, edge1)) && old(At(j, edge2)) then Transpose(old(Ael), i, j) else old(Ael)
    {
      if i < |Ael| { DistinctAround(Ael, i); }
      if j < |Ael| { DistinctAround(Ael, j); }
      if edge1.NextInAEL == edge1.PrevInAEL || edge2.NextInAEL == edge2.PrevInAEL {
        return;
      }
      if edge1.NextInAEL == edge2 {
        SwapNeighbours(edge1, edge2, i);
      } else if edge2.NextInAEL == edge1 {
        SwapNeighbours(edge2, edge1, j);
      } else {
        SwapApart(edge1, edge2, i, j);
      }
      if edge1.PrevInAEL == null {
        m_ActiveEdges := edge1;
      } else if edge2.PrevInAEL == null {
        m_ActiveEdges := edge2;
      }
    }

    /** The exchange of `left` with the edge that follows it; the head is set by the caller. */
    method SwapNeighbours(left: TEdge, right: TEdge, ghost i: nat)
      requires Valid() && At(i, left) && At(i + 1, right)
      modifies this`Ael, Ael`NextInAEL, Ael`PrevInAEL
      ensures Ael == Swap(old(Ael), i)
      ensures AelLinks(EdgeAt(Ael, 0), Ael)
    {
      DistinctAround(Ael, i);
      DistinctAround(Ael, i + 1);
      var next := right.NextInAEL;
      if next != null { next.PrevInAEL := left; }
      var prev := left.PrevInAEL;
      if prev != null { prev.NextInAEL := right; }
      right.PrevInAEL := prev;
      right.NextInAEL := left;
      left.PrevInAEL := right;
      left.NextInAEL := next;
      Ael := Swap(Ael, i);
    }

    /** The exchange of two edges that are not neighbours. */
    method SwapApart(edge1: TEdge, edge2: TEdge, ghost i: nat, ghost j: nat)
      requires Valid() && At(i, edge1) && At(j, edge2) && (i + 1 < j || j + 1 < i)
      modifies this`Ael, Ael`NextInAEL, Ael`PrevInAEL
      ensures Ael == Transpose(old(Ael), i, j)
      ensures AelLinks(EdgeAt(Ael, 0), Ael)
    {
      DistinctAround(Ael, i);
      DistinctAround(Ael, j);
      var next := edge1.NextInAEL;
      var prev := edge1.PrevInAEL;
      Relink(edge1, edge2.NextInAEL, edge2.PrevInAEL);
      Relink(edge2, next, prev);
      Ael := Transpose(Ael, i, j);
    }

    /** Puts `e` between `prev` and `next`. */
    static method Relink(e: TEdge, next: TEdge?, prev: TEdge?)
      requires e != next && e != prev
      modifies e`NextInAEL, e`PrevInAEL
      modifies (if next == null then {} else {next})`PrevInAEL
      modifies (if prev == null then {} else {prev})`NextInAEL
      ensures e.NextInAEL == next && e.PrevInAEL == prev
      ensures next != null ==> next.PrevInAEL == e
      ensures prev != null ==> prev.NextInAEL == e
    {
      e.NextInAEL := next;
      if e.NextInAEL != null { e.NextInAEL.PrevInAEL := e; }
      e.PrevInAEL := prev;
      if e.PrevInAEL != null { e.PrevInAEL.NextInAEL := e; }
    }

    /**
     Replaces `e` by the next edge of its bound, which inherits the winding counts and the
     output polygon. An edge without a successor is an invalid call.
     */
    method UpdateEdgeIntoAEL(e: TEdge, ghost k: nat) returns (up: TEdge?)
      requires Valid() && At(k, e)
      requires e.NextInLML != null ==> e.NextInLML !in Ael
      modifies this, Ael`NextInAEL, Ael`PrevInAEL
      modifies if e.NextInLML == null then {} else {e.NextInLML}
      ensures Valid()
      ensures up == e.NextInLML
      ensures up == null ==> Ael == old(Ael)
      ensures up != null ==>
        && Ael == Replace<TEdge>(old(Ael), k, up)
        && up.OutIdx == e.OutIdx && up.Side == e.Side
        && up.WindDelta == e.WindDelta && up.WindCnt == e.WindCnt && up.WindCnt2 == e.WindCnt2
        && up.Curr == up.Bot
    {
      up := e.NextInLML;
      if up == null {
        return;
      }
      up.OutIdx := e.OutIdx;
      up.Side := e.Side;
      up.WindDelta := e.WindDelta;
      up.WindCnt := e.WindCnt;
      up.WindCnt2 := e.WindCnt2;
      ReplaceLinks(e, up, k);
      up.Curr := up.Bot;
    }

    /** Gives `up` the place of `e`. */
    method ReplaceLinks(e: TEdge, up: TEdge, ghost k: nat)
      requires Valid() && At(k, e) && up !in Ael
      modifies this, Ael`NextInAEL, Ael`PrevInAEL, up`NextInAEL, up`PrevInAEL
      ensures Valid() && Ael == Replace<TEdge>(old(Ael), k, up)
    {
      DistinctAround(Ael, k);
      var aelPrev := e.PrevInAEL;
      var aelNext := e.NextInAEL;
      if aelPrev != null {
        aelPrev.NextInAEL := up;
      } else {
        m_ActiveEdges := up;
      }
      if aelNext != null {
        aelNext.PrevInAEL := up;
      }
      up.PrevInAEL := aelPrev;
      up.NextInAEL := aelNext;
      Ael := Replace<TEdge>(Ael, k, up);
    }
  }
}
