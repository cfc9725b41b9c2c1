/**
 The sorted edge list and the intersection list of a scanbeam.

 `BuildIntersectList` bubble-sorts the active edges by their X at the top of the scanbeam
 and records every exchange.  `FixupIntersectionOrder` reorders the records bottom-most
 first, and then so that each one again exchanges neighbours.
 */
module SortedEdgeLists {
  import opened ClipTypes
  import opened Sequences
  import opened Edges
  import opened ActiveEdgeLists
  import opened Inversions

  datatype IntersectNode = IntersectNode(Edge1: TEdge, Edge2: TEdge, Pt: IntPoint)

  ghost function Pairs(ns: seq<IntersectNode>): (ps: seq<(TEdge, TEdge)>)
    ensures |ps| == |ns|
    ensures forall i :: 0 <= i < |ns| ==> ps[i] == (ns[i].Edge1, ns[i].Edge2)
  {
    seq(|ns|, i requires 0 <= i < |ns| => (ns[i].Edge1, ns[i].Edge2))
  }

  ghost predicate SelLinks(head: TEdge?, s: seq<TEdge>)
    reads s`NextInSEL, s`PrevInSEL
  {
    && Distinct(s)
    && head == EdgeAt(s, 0)
    && (s != [] ==> s[0].PrevInSEL == null && s[|s| - 1].NextInSEL == null)
    && (forall i {:trigger s[i].NextInSEL} :: 0 <= i < |s| - 1 ==> s[i].NextInSEL == s[i + 1])
    && (forall i {:trigger s[i].PrevInSEL} :: 1 <= i < |s| ==> s[i].PrevInSEL == s[i - 1])
  }

  predicate EdgesAdjacent(inode: IntersectNode)
    reads inode.Edge1`NextInSEL, inode.Edge1`PrevInSEL
  {
    inode.Edge1.NextInSEL == inode.Edge2 || inode.Edge1.PrevInSEL == inode.Edge2
  }

  /** Where two edges meet is floating-point geometry: any point may come back. */
  method IntersectPoint(e1: TEdge, e2: TEdge) returns (ip: IntPoint)
  {
    var x, y: int := *, *;
    ip := IntPoint(x, y);
  }

  lemma MoveOne<T>(s: set<T>, p: T)
    requires p in s
    ensures multiset{p} + multiset(s - {p}) == multiset(s)
  {
  }

  lemma NoneLeft<T>(s: set<T>)
    requires multiset(s) == multiset{}
    ensures s == {}
  {
    assert |multiset(s)| == |s|;
  }

  type Key = TEdge -> int

  /** `key` is the current X of the edges of `s`. */
  ghost predicate Keyed(s: seq<TEdge>, key: Key)
    reads s`Curr
  {
    forall e :: e in s ==> key(e) == e.Curr.X
  }

  /**
   How far the bubble sort of `ael` has come: `order` is the current arrangement, of which
   everything from place `n` on is final, and `ps` are the exchanges that led to it.
   */
  ghost predicate Progress(ael: seq<TEdge>, key: Key, order: seq<TEdge>, n: nat, ps: seq<(TEdge, TEdge)>, st: seq<seq<TEdge>>) {
    && Run(st, ps) && st[0] == ael && st[|ps|] == order
    && Distinct(order) && multiset(order) == multiset(ael)
    && multiset(ps) + multiset(Inverted(order, key)) == multiset(Inverted(ael, key))
    && Final(order, key, n)
  }

  /** Edge `k` is the largest so far; before any exchange, the edges so far are also sorted. */
  ghost predicate Bubbled(s: seq<TEdge>, key: Key, k: nat, modified: bool) {
    && k < |s|
    && (forall i :: 0 <= i <= k ==> key(s[i]) <= key(s[k]))
    && (!modified ==> forall i, j :: 0 <= i < j <= k ==> key(s[i]) <= key(s[j]))
  }

  /** From place `n` on nothing that stands earlier is larger. */
  ghost predicate Final(order: seq<TEdge>, key: Key, n: nat) {
    forall i, j :: 0 <= i < j < |order| && n <= j ==> key(order[i]) <= key(order[j])
  }

  lemma ProgressStart(ael: seq<TEdge>, key: Key)
    requires Distinct(ael)
    ensures Progress(ael, key, ael, |ael|, [], [ael])
  {
  }

  /** Exchanging inverted neighbours that are not yet final is progress. */
  lemma ProgressStep(ael: seq<TEdge>, key: Key, order: seq<TEdge>, n: nat, ps: seq<(TEdge, TEdge)>, st: seq<seq<TEdge>>, k: nat)
    requires Progress(ael, key, order, n, ps, st)
    requires k + 1 < n <= |order| && key(order[k]) > key(order[k + 1])
    ensures Progress(ael, key, Swap(order, k), n, ps + [(order[k], order[k + 1])], st + [Swap(order, k)])
  {
    ExtendRun(st, ps, k);
    SwapRemovesOne(order, key, k);
    TransposeKeepsElements(order, k, k + 1);
    MoveOne(Inverted(order, key), (order[k], order[k + 1]));
    var s := Swap(order, k);
    forall i, j | 0 <= i < j < |s| && n <= j ensures key(s[i]) <= key(s[j]) {
      assert s[i] == order[Moved(k, i)] && s[j] == order[j];
    }
  }

  /** The largest of the first `n` in the last place among them is final. */
  lemma ProgressShrink(ael: seq<TEdge>, key: Key, order: seq<TEdge>, n: nat, ps: seq<(TEdge, TEdge)>, st: seq<seq<TEdge>>)
    requires Progress(ael, key, order, n, ps, st) && 0 < n <= |order|
    requires forall i :: 0 <= i < n ==> key(order[i]) <= key(order[n - 1])
    ensures Progress(ael, key, order, n - 1, ps, st)
  {
  }

  /** Once the part that is not final is sorted as well, the sort is done. */
  lemma ProgressDone(ael: seq<TEdge>, key: Key, order: seq<TEdge>, n: nat, ps: seq<(TEdge, TEdge)>, st: seq<seq<TEdge>>)
    requires Progress(ael, key, order, n, ps, st) && n <= |order|
    requires forall i, j :: 0 <= i < j < n ==> key(order[i]) <= key(order[j])
    ensures multiset(ps) == multiset(Inverted(ael, key))
    ensures Run(st, ps) && st[0] == ael && SortedBy(st[|ps|], key)
  {
    SortedHasNoInversion(order, key);
  }

  /** Replaying the records from `ael` exchanges neighbours only, and meets the orders `st`. */
  ghost predicate Replays(st: seq<seq<TEdge>>, ael: seq<TEdge>, ns: seq<IntersectNode>) {
    Run(st, Pairs(ns)) && st[0] == ael
  }

  class SortedEdgeList {
    var m_SortedEdges: TEdge?
    var m_IntersectList: seq<IntersectNode>
    ghost var Sel: seq<TEdge>

    ghost predicate Valid()
      reads this, Sel`NextInSEL, Sel`PrevInSEL
    {
      SelLinks(m_SortedEdges, Sel)
    }

    constructor ()
      ensures Valid() && Sel == [] && m_IntersectList == []
    {
      m_SortedEdges := null;
      m_IntersectList := [];
      Sel := [];
    }

    method CopyAELToSEL(ael: ActiveEdgeList)
      requires ael.Valid()
      modifies this`m_SortedEdges, this`Sel, ael.Ael`NextInSEL, ael.Ael`PrevInSEL
      ensures Valid() && Sel == ael.Ael
    {
      var e := ael.m_ActiveEdges;
      m_SortedEdges := e;
      ghost var j := 0;
      while e != null
        invariant m_SortedEdges == ael.m_ActiveEdges
        invariant j <= |ael.Ael| && e == EdgeAt(ael.Ael, j)
        invariant forall i {:trigger ael.Ael[i].NextInSEL} :: 0 <= i < j ==> ael.Ael[i].NextInSEL == ael.Ael[i].NextInAEL
        invariant forall i {:trigger ael.Ael[i].PrevInSEL} :: 0 <= i < j ==> ael.Ael[i].PrevInSEL == ael.Ael[i].PrevInAEL
        decreases |ael.Ael| - j
      {
        DistinctAt(ael.Ael, j);
        e.PrevInSEL := e.PrevInAEL;
        e.NextInSEL := e.NextInAEL;
        e := e.NextInAEL;
        j := j + 1;
      }
      Sel := ael.Ael;
    }

    /** Exchanges `left` with the edge that follows it. */
    method SwapPositionsInSEL(left: TEdge, right: TEdge, ghost i: nat)
      requires Valid() && i + 1 < |Sel| && Sel[i] == left && Sel[i + 1] == right
      modifies this`m_SortedEdges, this`Sel, Sel`NextInSEL, Sel`PrevInSEL
      ensures Valid() && Sel == Swap(old(Sel), i)
    {
      SwapLinks(left, right, i);
      if right.PrevInSEL == null {
        m_SortedEdges := right;
      }
    }

    method SwapLinks(left: TEdge, right: TEdge, ghost i: nat)
      requires Valid() && i + 1 < |Sel| && Sel[i] == left && Sel[i + 1] == right
      modifies this`Sel, Sel`NextInSEL, Sel`PrevInSEL
      ensures SelLinks(EdgeAt(Sel, 0), Sel) && Sel == Swap(old(Sel), i)
    {
      DistinctAround(Sel, i);
      DistinctAround(Sel, i + 1);
      var next := right.NextInSEL;
      if next != null { next.PrevInSEL := left; }
      var prev := left.PrevInSEL;
      if prev != null { prev.NextInSEL := right; }
      right.PrevInSEL := prev;
      right.NextInSEL := left;
      left.PrevInSEL := right;
      left.NextInSEL := next;
      Sel := Swap(Sel, i);
    }

    // ---------------------------------------------------------------- building the list

    /** Records the crossing of the inverted neighbours `e`, `eNext` and exchanges them. */
    method RecordCrossing(e: TEdge, eNext: TEdge, topY: int, key: Key, ghost k: nat) returns (ghost pt: IntPoint)
      requires Valid() && k + 1 < |Sel| && e == Sel[k] && eNext == Sel[k + 1]
      modifies this, Sel`NextInSEL, Sel`PrevInSEL
      ensures Valid() && Sel == Swap(old(Sel), k)
      ensures pt.Y >= topY && m_IntersectList == old(m_IntersectList) + [IntersectNode(e, eNext, pt)]
    {
      var ip := IntersectPoint(e, eNext);
      if ip.Y < topY {
        ip := IntPoint(key(e), topY);
      }
      m_IntersectList := m_IntersectList + [IntersectNode(e, eNext, ip)];
      pt := ip;
      SwapPositionsInSEL(e, eNext, k);
    }

    /** The first edges of `order`, still linked, are `Sel`; the list records how `order` came about. */
    ghost predicate Sorting(topY: int, ael: seq<TEdge>, key: Key, order: seq<TEdge>, st: seq<seq<TEdge>>)
      reads this, Sel`NextInSEL, Sel`PrevInSEL
    {
      && Valid() && Sel <= order
      && Progress(ael, key, order, |Sel|, Pairs(m_IntersectList), st)
      && (forall nd :: nd in m_IntersectList ==> nd.Pt.Y >= topY)
    }

    lemma SelInAel(topY: int, ael: seq<TEdge>, key: Key, order: seq<TEdge>, st: seq<seq<TEdge>>)
      requires Sorting(topY, ael, key, order, st)
      ensures forall i :: 0 <= i < |Sel| ==> Sel[i] == order[i] && Sel[i] in ael
    {
      SameElements(order, ael);
      assert forall i :: 0 <= i < |Sel| ==> Sel[i] in order;
    }

    lemma SelKeyed(topY: int, ael: seq<TEdge>, key: Key, order: seq<TEdge>, st: seq<seq<TEdge>>, k: nat)
      requires Sorting(topY, ael, key, order, st) && Keyed(ael, key) && k + 1 < |Sel|
      ensures key(Sel[k]) == Sel[k].Curr.X && key(Sel[k + 1]) == Sel[k + 1].Curr.X
    {
      SelInAel(topY, ael, key, order, st);
    }

    /** As `RecordCrossing`, with the account of the sort so far. */
    method RecordStep(e: TEdge, eNext: TEdge, topY: int, ghost k: nat,
                      ghost ael: seq<TEdge>, key: Key, ghost order: seq<TEdge>, ghost st: seq<seq<TEdge>>)
      returns (ghost order': seq<TEdge>, ghost st': seq<seq<TEdge>>)
      requires Sorting(topY, ael, key, order, st)
      requires k + 1 < |Sel| && e == Sel[k] && eNext == Sel[k + 1] && key(e) > key(eNext)
      modifies this, ael`NextInSEL, ael`PrevInSEL
      ensures Sorting(topY, ael, key, order', st') && Sel == Swap(old(Sel), k)
    {
      hide Progress, SelLinks;
      SelInAel(topY, ael, key, order, st);
      ghost var ps := Pairs(m_IntersectList);
      ghost var pt := RecordCrossing(e, eNext, topY, key, k);
      ProgressStep(ael, key, order, |Sel|, ps, st, k);
      order' := Swap(order, k);
      st' := st + [order'];
      assert Pairs(m_IntersectList) == ps + [(e, eNext)];
    }

    /** Compares the edge at place `k` with the next one and exchanges them when they are inverted. */
    method BubbleStep(e: TEdge, eNext: TEdge, topY: int, ghost k: nat, ghost modified: bool,
                      ghost ael: seq<TEdge>, key: Key, ghost order: seq<TEdge>, ghost st: seq<seq<TEdge>>)
      returns (swapped: bool, ghost order': seq<TEdge>, ghost st': seq<seq<TEdge>>)
      requires Sorting(topY, ael, key, order, st) && Keyed(ael, key)
      requires k + 1 < |Sel| && e == Sel[k] && eNext == Sel[k + 1] && Bubbled(Sel, key, k, modified)
      modifies this, ael`NextInSEL, ael`PrevInSEL
      ensures Sorting(topY, ael, key, order', st') && |Sel| == |old(Sel)|
      ensures Sel[k + 1] == (if swapped then e else eNext) && Bubbled(Sel, key, k + 1, modified || swapped)
    {
      hide Progress, SelLinks;
      SelKeyed(topY, ael, key, order, st, k);
      swapped := e.Curr.X > eNext.Curr.X;
      if swapped {
        order', st' := RecordStep(e, eNext, topY, k, ael, key, order, st);
      } else {
        order', st' := order, st;
      }
    }

    /** One pass of the bubble sort over the linked edges: the largest ends up last. */
    method BubblePass(topY: int, ghost ael: seq<TEdge>, key: Key, ghost order: seq<TEdge>, ghost st: seq<seq<TEdge>>)
      returns (isModified: bool, e: TEdge, ghost order': seq<TEdge>, ghost st': seq<seq<TEdge>>)
      requires Sorting(topY, ael, key, order, st) && Sel != [] && Keyed(ael, key)
      modifies this, ael`NextInSEL, ael`PrevInSEL
      ensures Sorting(topY, ael, key, order', st') && |Sel| == |old(Sel)| && e == Sel[|Sel| - 1]
      ensures Bubbled(Sel, key, |Sel| - 1, isModified)
      ensures e.PrevInSEL == null <==> |Sel| == 1
    {
      hide Progress;
      isModified := false;
      e := m_SortedEdges;
      order', st' := order, st;
      ghost var k := 0;
      while e.NextInSEL != null
        invariant Sorting(topY, ael, key, order', st') && |Sel| == |old(Sel)|
        invariant k < |Sel| && e == Sel[k] && Bubbled(Sel, key, k, isModified)
        decreases |Sel| - k
      {
        var eNext := e.NextInSEL;
        var swapped;
        swapped, order', st' := BubbleStep(e, eNext, topY, k, isModified, ael, key, order', st');
        if swapped {
          isModified := true;
        } else {
          e := eNext;
        }
        k := k + 1;
      }
    }

    /** Takes the last linked edge, which is in its final place, off the list. */
    method DropLast(e: TEdge, topY: int, ghost ael: seq<TEdge>, ghost key: Key, ghost order: seq<TEdge>, ghost st: seq<seq<TEdge>>)
      requires Sorting(topY, ael, key, order, st) && |Sel| > 1 && e == Sel[|Sel| - 1]
      requires Bubbled(Sel, key, |Sel| - 1, true)
      modifies this`Sel, ael`NextInSEL, ael`PrevInSEL
      ensures Sorting(topY, ael, key, order, st) && Sel == old(Sel)[..|old(Sel)| - 1]
    {
      hide Progress;
      SelInAel(topY, ael, key, order, st);
      ProgressShrink(ael, key, order, |Sel|, Pairs(m_IntersectList), st);
      DistinctAround(Sel, |Sel| - 1);
      DistinctPrefix(Sel, |Sel| - 1);
      e.PrevInSEL.NextInSEL := null;
      Sel := Sel[..|Sel| - 1];
    }

    /** Links the active edges and moves each to where it meets the top of the scanbeam. */
    method PrepareSEL(ael: ActiveEdgeList, topY: int)
      requires ael.Valid()
      modifies this`m_SortedEdges, this`Sel, ael.Ael`NextInSEL, ael.Ael`PrevInSEL, ael.Ael`Curr
      ensures Valid() && Sel == ael.Ael
      ensures forall i :: 0 <= i < |Sel| ==> Sel[i].Curr == IntPoint(ael.topX(Sel[i], topY), old(ael.Ael[i].Curr.Y))
    {
      var e := ael.m_ActiveEdges;
      m_SortedEdges := e;
      ghost var j := 0;
      while e != null
        invariant m_SortedEdges == ael.m_ActiveEdges
        invariant j <= |ael.Ael| && e == EdgeAt(ael.Ael, j)
        invariant forall i {:trigger ael.Ael[i].NextInSEL} :: 0 <= i < j ==> ael.Ael[i].NextInSEL == ael.Ael[i].NextInAEL
        invariant forall i {:trigger ael.Ael[i].PrevInSEL} :: 0 <= i < j ==> ael.Ael[i].PrevInSEL == ael.Ael[i].PrevInAEL
        invariant forall i {:trigger ael.Ael[i].Curr} :: 0 <= i < j ==>
          ael.Ael[i].Curr == IntPoint(ael.topX(ael.Ael[i], topY), old(ael.Ael[i].Curr.Y))
        invariant forall i {:trigger ael.Ael[i].Curr} :: j <= i < |ael.Ael| ==> ael.Ael[i].Curr == old(ael.Ael[i].Curr)
        decreases |ael.Ael| - j
      {
        DistinctAt(ael.Ael, j);
        e.PrevInSEL := e.PrevInAEL;
        e.NextInSEL := e.NextInAEL;
        e.Curr := IntPoint(ael.topX(e, topY), e.Curr.Y);
        e := e.NextInAEL;
        j := j + 1;
      }
      Sel := ael.Ael;
    }

    /** Passes over the linked edges, each time one fewer, until a pass finds nothing to do. */
    method BubbleSort(topY: int, ghost ael: seq<TEdge>, key: Key) returns (ghost st: seq<seq<TEdge>>)
      requires Valid() && Sel == ael != [] && Distinct(ael) && m_IntersectList == [] && Keyed(ael, key)
      modifies this, ael`NextInSEL, ael`PrevInSEL
      ensures multiset(Pairs(m_IntersectList)) == multiset(Inverted(ael, key))
      ensures Replays(st, ael, m_IntersectList) && SortedBy(st[|m_IntersectList|], key)
      ensures forall nd :: nd in m_IntersectList ==> nd.Pt.Y >= topY
    {
      hide Progress, SelLinks;
      ghost var order := ael;
      st := [ael];
      ProgressStart(ael, key);
      while true
        invariant Sorting(topY, ael, key, order, st) && Sel != []
        invariant |Pairs(m_IntersectList)| == |m_IntersectList|
        decreases |Sel|
      {
        var isModified, e;
        isModified, e, order, st := BubblePass(topY, ael, key, order, st);
        if !isModified || |Sel| == 1 {
          ProgressDone(ael, key, order, |Sel|, Pairs(m_IntersectList), st);
        }
        if e.PrevInSEL == null {
          break;
        }
        DropLast(e, topY, ael, key, order, st);
        if !isModified {
          break;
        }
      }
    }

    /**
     Records every pair of active edges that changes sides before the top of the scanbeam.
     Replaying the records from the active edge list exchanges neighbours only and ends
     with the edges sorted by their X at the top of the scanbeam.
     */
    method BuildIntersectList(ael: ActiveEdgeList, topY: int) returns (ghost key: Key, ghost st: seq<seq<TEdge>>)
      requires ael.Valid() && m_IntersectList == []
      modifies this, ael.Ael`NextInSEL, ael.Ael`PrevInSEL, ael.Ael`Curr
      ensures forall e :: key(e) == ael.topX(e, topY)
      ensures forall i :: 0 <= i < |ael.Ael| ==> ael.Ael[i].Curr == IntPoint(ael.topX(ael.Ael[i], topY), old(ael.Ael[i].Curr.Y))
      ensures multiset(Pairs(m_IntersectList)) == multiset(Inverted(ael.Ael, key))
      ensures Replays(st, ael.Ael, m_IntersectList) && SortedBy(st[|m_IntersectList|], key)
      ensures forall nd :: nd in m_IntersectList ==> nd.Pt.Y >= topY
      ensures m_SortedEdges == null && Sel == []
    {
      var xs: Key := (e: TEdge) => ael.topX(e, topY);
      key := xs;
      if ael.m_ActiveEdges == null {
        m_SortedEdges, Sel := null, [];
        st := [ael.Ael];
        ProgressStart(ael.Ael, key);
        ProgressDone(ael.Ael, key, ael.Ael, 0, [], st);
        assert Pairs(m_IntersectList) == [];
        return;
      }
      PrepareSEL(ael, topY);
      st := BubbleSort(topY, ael.Ael, xs);
      m_SortedEdges := null;
      Sel := [];
    }

    // ---------------------------------------------------------------- repairing the order

    /** Is there a record from place `i` on whose edges are neighbours? If so, the first one. */
    method FindAdjacent(i: nat) returns (j: nat)
      requires i < |m_IntersectList|
      ensures i <= j <= |m_IntersectList|
      ensures forall n :: i <= n < j ==> !EdgesAdjacent(m_IntersectList[n])
      ensures j < |m_IntersectList| ==> EdgesAdjacent(m_IntersectList[j])
    {
      j := i;
      while j < |m_IntersectList| && !EdgesAdjacent(m_IntersectList[j])
        invariant i <= j <= |m_IntersectList|
        invariant forall n :: i <= n < j ==> !EdgesAdjacent(m_IntersectList[n])
      {
        j := j + 1;
      }
    }

    /** The records from place `i` on are exactly the pairs still inverted in the linked order. */
    ghost predicate Repairing(key: Key, i: nat)
      reads this, Sel`NextInSEL, Sel`PrevInSEL
    {
      && Valid() && i <= |m_IntersectList|
      && multiset(Pairs(m_IntersectList)[i..]) == multiset(Inverted(Sel, key))
    }

    /** A remaining record whose edges are adjacent has them in the order of the list. */
    lemma AdjacentInOrder(key: Key, i: nat, j: nat) returns (k: nat)
      requires Repairing(key, i) && i <= j < |m_IntersectList| && EdgesAdjacent(m_IntersectList[j])
      ensures k + 1 < |Sel| && Sel[k] == m_IntersectList[j].Edge1 && Sel[k + 1] == m_IntersectList[j].Edge2
      ensures key(Sel[k]) > key(Sel[k + 1])
    {
      var ps := Pairs(m_IntersectList);
      assert ps[j] == ps[i..][j - i];
      assert ps[j] in multiset(ps[i..]);
      var a, b := InvertedMember(Sel, key, ps[j]);
      DistinctAt(Sel, b);
      k := a;
    }

    /** While records remain, one of them has adjacent edges: the order can always be repaired. */
    lemma SomeAdjacent(key: Key, i: nat)
      requires Repairing(key, i) && i < |m_IntersectList|
      ensures exists n :: i <= n < |m_IntersectList| && EdgesAdjacent(m_IntersectList[n])
    {
      var ps := Pairs(m_IntersectList);
      assert ps[i] == ps[i..][0];
      assert ps[i] in multiset(ps[i..]);
      var a, b := InvertedMember(Sel, key, ps[i]);
      var k := NeighboursInverted(Sel, key, a, b);
      InvertedPair(Sel, key, k, k + 1);
      assert (Sel[k], Sel[k + 1]) in multiset(ps[i..]);
      var n :| 0 <= n < |ps[i..]| && ps[i..][n] == (Sel[k], Sel[k + 1]);
      assert ps[i + n] == (Sel[k], Sel[k + 1]);
      assert EdgesAdjacent(m_IntersectList[i + n]);
    }

    /** Taking a record of inverted neighbours off the remaining ones is right once they are exchanged. */
    lemma RemainingAfter(key: Key, i: nat, j: nat, k: nat, ps: seq<(TEdge, TEdge)>)
      requires Repairing(key, i) && i <= j < |m_IntersectList| && ps == Pairs(m_IntersectList)
      requires k + 1 < |Sel| && ps[j] == (Sel[k], Sel[k + 1]) && key(Sel[k]) > key(Sel[k + 1])
      ensures multiset(Transpose(ps, i, j)[i + 1..]) == multiset(Inverted(Swap(Sel, k), key))
    {
      TakeOne(ps, i, j);
      SwapRemovesOne(Sel, key, k);
      MoveOne(Inverted(Sel, key), ps[j]);
      Cancel(ps[j], multiset(Transpose(ps, i, j)[i + 1..]), multiset(Inverted(Swap(Sel, k), key)));
    }

    /** Moves record `j` to place `i` and exchanges its edges. */
    method Repair(ghost key: Key, i: nat, j: nat)
      requires Repairing(key, i) && i <= j < |m_IntersectList| && EdgesAdjacent(m_IntersectList[j])
      modifies this, Sel`NextInSEL, Sel`PrevInSEL
      ensures m_IntersectList == Transpose(old(m_IntersectList), i, j)
      ensures Repairing(key, i + 1)
      ensures Exchange(old(Sel), Sel, Pairs(m_IntersectList)[i])
    {
      ghost var ps := Pairs(m_IntersectList);
      ghost var k := AdjacentInOrder(key, i, j);
      RemainingAfter(key, i, j, k, ps);
      m_IntersectList := Transpose(m_IntersectList, i, j);
      assert Pairs(m_IntersectList) == Transpose(ps, i, j);
      SwapPositionsInSEL(m_IntersectList[i].Edge1, m_IntersectList[i].Edge2, k);
      assert ExchangeAt(old(Sel), Sel, ps[j], k);
    }

    /** The exchanges made so far lead from the active edge list to the linked order. */
    ghost predicate Repaired(ael: seq<TEdge>, i: nat, st: seq<seq<TEdge>>)
      reads this`m_IntersectList, this`Sel
    {
      && i <= |m_IntersectList| && |st| == i + 1 && st[0] == ael && st[i] == Sel
      && RunUpTo(st, Pairs(m_IntersectList), i)
    }

    /** Finds the next record to replay, repairs the order if need be, and replays it. */
    method RepairStep(ghost key: Key, i: nat, ghost ael: seq<TEdge>, ghost st: seq<seq<TEdge>>) returns (ok: bool, ghost j: nat)
      requires Repairing(key, i) && Repaired(ael, i, st) && i < |m_IntersectList|
      modifies this, Sel`NextInSEL, Sel`PrevInSEL
      ensures ok && Repairing(key, i + 1) && Repaired(ael, i + 1, st + [Sel])
      ensures i <= j < |old(m_IntersectList)| && m_IntersectList == Transpose(old(m_IntersectList), i, j)
      ensures Exchange(old(Sel), Sel, Pairs(m_IntersectList)[i])
      ensures old(EdgesAdjacent(m_IntersectList[i])) ==> j == i
    {
      hide Repairing, RunUpTo, Exchange, Transpose, EdgesAdjacent;
      var jj := i;
      if !EdgesAdjacent(m_IntersectList[i]) {
        SomeAdjacent(key, i);
        jj := FindAdjacent(i + 1);
        if jj == |m_IntersectList| {
          assert false;
          return false, i;
        }
      }
      j := jj;
      ghost var ps := Pairs(m_IntersectList);
      Repair(key, i, jj);
      AppendExchange(st, ps, Pairs(m_IntersectList), Sel);
      ok := true;
    }

    /** Edges that the next step of a run exchanges are adjacent. */
    lemma ExchangeAdjacent(t: seq<TEdge>, n: IntersectNode)
      requires Valid() && Exchange(Sel, t, (n.Edge1, n.Edge2))
      ensures EdgesAdjacent(n)
    {
      var k: nat :| ExchangeAt(Sel, t, (n.Edge1, n.Edge2), k);
      assert Sel[k].NextInSEL == Sel[k + 1];
    }

    /** `su` continues from the linked order by replaying the records from place `i` on. */
    ghost predicate Follows(su: seq<seq<TEdge>>, i: nat)
      reads this`m_IntersectList, this`Sel
    {
      && Run(su, Pairs(m_IntersectList)) && i <= |m_IntersectList| && su[i] == Sel
    }

    /** As `RepairStep`; records that can be replayed as they stand are left as they stand. */
    method KeepingStep(ghost key: Key, i: nat, ghost ael: seq<TEdge>, ghost st: seq<seq<TEdge>>, ghost kept: bool, ghost su: seq<seq<TEdge>>)
      returns (ok: bool)
      requires Repairing(key, i) && Repaired(ael, i, st) && i < |m_IntersectList|
      requires kept ==> Follows(su, i)
      modifies this, Sel`NextInSEL, Sel`PrevInSEL
      ensures ok && Repairing(key, i + 1) && Repaired(ael, i + 1, st + [Sel])
      ensures |m_IntersectList| == |old(m_IntersectList)|
      ensures multiset(m_IntersectList) == multiset(old(m_IntersectList))
      ensures multiset(Sel) == multiset(old(Sel))
      ensures kept ==> m_IntersectList == old(m_IntersectList) && Follows(su, i + 1)
    {
      ghost var records, before, p := m_IntersectList, Sel, Pairs(m_IntersectList)[i];
      if kept {
        RunStep(su, Pairs(m_IntersectList), i);
        ExchangeAdjacent(su[i + 1], m_IntersectList[i]);
      }
      ghost var j;
      ok, j := RepairStep(key, i, ael, st);
      TransposeKeepsElements(records, i, j);
      ExchangeRearranges(before, Sel, Pairs(m_IntersectList)[i]);
      if kept {
        assert m_IntersectList == records;
        ExchangeIsDetermined(before, Sel, su[i + 1], p);
      }
    }

    /** Replays all records, repairing their order on the way. */
    method RepairAll(ghost key: Key, ghost ael: seq<TEdge>, ghost kept: bool, ghost su: seq<seq<TEdge>>)
      returns (ok: bool, ghost st: seq<seq<TEdge>>)
      requires Repairing(key, 0) && Sel == ael && (kept ==> Follows(su, 0))
      modifies this, ael`NextInSEL, ael`PrevInSEL
      ensures ok && Repairing(key, |m_IntersectList|) && Repaired(ael, |m_IntersectList|, st)
      ensures multiset(m_IntersectList) == multiset(old(m_IntersectList))
      ensures kept ==> m_IntersectList == old(m_IntersectList)
    {
      hide Repairing, Follows, EdgesAdjacent;
      st := [Sel];
      var i := 0;
      while i < |m_IntersectList|
        invariant Repairing(key, i) && Repaired(ael, i, st) && multiset(Sel) == multiset(ael)
        invariant |m_IntersectList| == |old(m_IntersectList)|
        invariant multiset(m_IntersectList) == multiset(old(m_IntersectList))
        invariant kept ==> m_IntersectList == old(m_IntersectList) && Follows(su, i)
        decreases |m_IntersectList| - i
      {
        SameElements(Sel, ael);
        assert forall n :: 0 <= n < |Sel| ==> Sel[n] in ael;
        ok := KeepingStep(key, i, ael, st, kept, su);
        if !ok {
          assert false;
          return;
        }
        st := st + [Sel];
        i := i + 1;
      }
      ok := true;
    }

    /**
     Puts the records in an order in which each exchanges neighbours, starting from the
     bottom-most first.  It never gives up; and when the bottom-most-first order is already
     a run `su` of exchanges of neighbours, it is kept.
     */
    method FixupIntersectionOrder(ael: ActiveEdgeList, ghost key: Key, ghost su: seq<seq<TEdge>>)
      returns (ok: bool, ghost st: seq<seq<TEdge>>, ghost sorted: seq<IntersectNode>)
      requires ael.Valid() && multiset(Pairs(m_IntersectList)) == multiset(Inverted(ael.Ael, key))
      modifies this, ael.Ael`NextInSEL, ael.Ael`PrevInSEL
      ensures ok
      ensures multiset(m_IntersectList) == multiset(old(m_IntersectList))
      ensures Replays(st, ael.Ael, m_IntersectList) && SortedBy(st[|m_IntersectList|], key)
      ensures BottomMostFirst(sorted) && multiset(sorted) == multiset(old(m_IntersectList))
      ensures Replays(su, ael.Ael, sorted) ==> m_IntersectList == sorted
    {
      sorted := PrepareRepair(key, ael);
      ok, st := RepairAll(key, ael.Ael, Replays(su, ael.Ael, sorted), su);
      RepairDone(key, ael.Ael, st);
    }

    /** Links the active edges and sorts the records bottom-most first. */
    method PrepareRepair(ghost key: Key, ael: ActiveEdgeList) returns (ghost sorted: seq<IntersectNode>)
      requires ael.Valid() && multiset(Pairs(m_IntersectList)) == multiset(Inverted(ael.Ael, key))
      modifies this, ael.Ael`NextInSEL, ael.Ael`PrevInSEL
      ensures Repairing(key, 0) && Sel == ael.Ael && m_IntersectList == sorted
      ensures BottomMostFirst(sorted) && multiset(sorted) == multiset(old(m_IntersectList))
    {
      CopyAELToSEL(ael);
      m_IntersectList := SortIntersectList(m_IntersectList);
      sorted := m_IntersectList;
      PairsRearranged(old(m_IntersectList), sorted);
      assert Pairs(sorted)[0..] == Pairs(sorted);
    }

    lemma RepairDone(key: Key, ael: seq<TEdge>, st: seq<seq<TEdge>>)
      requires Repairing(key, |m_IntersectList|) && Repaired(ael, |m_IntersectList|, st)
      ensures Replays(st, ael, m_IntersectList) && SortedBy(st[|m_IntersectList|], key)
    {
      var n := |m_IntersectList|;
      assert Pairs(m_IntersectList)[n..] == [];
      NoneLeft(Inverted(Sel, key));
      SortedHasNoInversion(Sel, key);
    }
  }

  /** Later scanlines, with smaller Y, come after. */
  predicate BottomMostFirst(ns: seq<IntersectNode>) {
    forall i, j :: 0 <= i < j < |ns| ==> ns[i].Pt.Y >= ns[j].Pt.Y
  }

  /** Any sort will do: the callers know only that the result is ordered and rearranges the input. */
  method SortIntersectList(ns: seq<IntersectNode>) returns (r: seq<IntersectNode>)
    ensures multiset(r) == multiset(ns) && BottomMostFirst(r)
  {
    r := [];
    for i := 0 to |ns|
      invariant multiset(r) == multiset(ns[..i]) && BottomMostFirst(r)
    {
      assert ns[..i + 1] == ns[..i] + [ns[i]];
      r := InsertByY(r, ns[i]);
    }
    assert ns[..|ns|] == ns;
  }

  method InsertByY(ns: seq<IntersectNode>, nd: IntersectNode) returns (r: seq<IntersectNode>)
    requires BottomMostFirst(ns)
    ensures multiset(r) == multiset(ns) + multiset{nd} && BottomMostFirst(r)
  {
    var k: nat := |ns|;
    while k > 0 && ns[k - 1].Pt.Y < nd.Pt.Y
      invariant k <= |ns|
      invariant k < |ns| ==> ns[k].Pt.Y < nd.Pt.Y
    {
      k := k - 1;
    }
    r := InsertAt(ns, k, nd);
    hide BottomMostFirst, InsertAt, Without;
    InsertKeepsOrder(ns, k, nd);
    InsertedBag(ns, k, nd);
  }

  lemma InsertedBag<T>(s: seq<T>, k: nat, e: T)
    requires k <= |s|
    ensures multiset(InsertAt(s, k, e)) == multiset(s) + multiset{e}
  {
    WithoutOne(InsertAt(s, k, e), k);
    assert Without(InsertAt(s, k, e), k) == s;
  }

  lemma InsertKeepsOrder(ns: seq<IntersectNode>, k: nat, nd: IntersectNode)
    requires BottomMostFirst(ns) && k <= |ns|
    requires k > 0 ==> ns[k - 1].Pt.Y >= nd.Pt.Y
    requires k < |ns| ==> ns[k].Pt.Y <= nd.Pt.Y
    ensures BottomMostFirst(InsertAt(ns, k, nd))
  {
    var r := InsertAt(ns, k, nd);
    forall i, j | 0 <= i < j < |r| ensures r[i].Pt.Y >= r[j].Pt.Y {
      if i < k && k > 0 { assert ns[i].Pt.Y >= ns[k - 1].Pt.Y; }
      if j > k && k < |ns| { assert ns[k].Pt.Y >= ns[j - 1].Pt.Y; }
    }
  }

  /** Rearranging the records rearranges their pairs. */
  lemma {:induction false} PairsRearranged(a: seq<IntersectNode>, b: seq<IntersectNode>)
    requires multiset(a) == multiset(b)
    ensures |a| == |b|
    ensures multiset(Pairs(a)) == multiset(Pairs(b))
  {
    assert |multiset(a)| == |a| && |multiset(b)| == |b|;
    if a != [] {
      assert a[0] in multiset(b);
      var k :| 0 <= k < |b| && b[k] == a[0];
      WithoutOne(a, 0);
      WithoutOne(b, k);
      Cancel(a[0], multiset(Without(a, 0)), multiset(Without(b, k)));
      PairsRearranged(Without(a, 0), Without(b, k));
      PairsWithout(a, 0);
      PairsWithout(b, k);
    }
  }

  lemma PairsWithout(a: seq<IntersectNode>, k: nat)
    requires k < |a|
    ensures multiset(Pairs(a)) == multiset{(a[k].Edge1, a[k].Edge2)} + multiset(Pairs(Without(a, k)))
  {
    WithoutOne(Pairs(a), k);
    assert Pairs(Without(a, k)) == Without(Pairs(a), k);
  }

  /** What is left of the rest of a list once its element `j` has been moved to the front and taken. */
  lemma TakeOne<T>(ps: seq<T>, i: nat, j: nat)
    requires i <= j < |ps|
    ensures multiset{ps[j]} + multiset(Transpose(ps, i, j)[i + 1..]) == multiset(ps[i..])
  {
    var qs := Transpose(ps, i, j);
    assert qs[i..] == Transpose(ps[i..], 0, j - i);
    TransposeKeepsElements(ps[i..], 0, j - i);
    WithoutOne(qs[i..], 0);
    assert Without(qs[i..], 0) == qs[i + 1..];
  }
}
