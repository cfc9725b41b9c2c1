/**
 Winding counts where two bounds meet: at a local minimum a pair of opposite edges enters
 the active edge list, at a local maximum such a pair leaves it.
 */
module LocalExtrema {
  import opened ClipTypes
  import opened Winding
  import opened Crossing

  /** Two edges of one path that run in opposite directions. */
  predicate Opposite(lb: EdgeView, rb: EdgeView) {
    Unit(lb) && lb.typ == rb.typ && lb.delta + rb.delta == 0
  }

  /** At a local minimum the right bound shares the counts computed for the left bound. */
  predicate FreshPair(r: Rules, lb: EdgeView, rb: EdgeView, w: int, w2: int) {
    && Opposite(lb, rb)
    && CountsFit(r, lb, w, w2)
    && rb.cnt == lb.cnt && rb.cnt2 == lb.cnt2
    && (lb.outIdx >= 0 <==> IsContributing(r, lb))
    && (rb.outIdx >= 0 <==> IsContributing(r, lb))
  }

  /** Starting a polygon, or not, as the counts tell makes the pair a fresh one. */
  lemma FreshOnceOpened(r: Rules, lb0: EdgeView, lb: EdgeView, rb: EdgeView, w: int, w2: int)
    requires Opposite(lb, rb) && CountsFit(r, lb0, w, w2)
    requires lb.typ == lb0.typ && lb.delta == lb0.delta && lb.cnt == lb0.cnt && lb.cnt2 == lb0.cnt2
    requires rb.cnt == lb.cnt && rb.cnt2 == lb.cnt2
    requires (lb.outIdx >= 0 <==> IsContributing(r, lb0)) && (rb.outIdx >= 0 <==> lb.outIdx >= 0)
    ensures FreshPair(r, lb, rb, w, w2)
  {
  }

  /** The shared counts are right for the right bound too. */
  lemma FreshPairFits(r: Rules, lb: EdgeView, rb: EdgeView, w: int, w2: int)
    requires FreshPair(r, lb, rb, w, w2)
    ensures CountsFit(r, rb, w + lb.delta, w2)
    ensures IsContributing(r, rb) <==> IsContributing(r, lb)
  {
  }

  lemma FreshPairRight(s': seq<EdgeView>, r: Rules, k: nat)
    requires k + 1 < |s'| && Closed(s')
    requires FreshPair(r, s'[k], s'[k + 1], WindingAt(s', k, s'[k].typ), WindingAt(s', k, s'[k].typ.Other()))
    ensures CountsRightAt(s', r, k) && (s'[k].outIdx >= 0 <==> Boundary(s', r, k))
    ensures CountsRightAt(s', r, k + 1) && (s'[k + 1].outIdx >= 0 <==> Boundary(s', r, k + 1))
  {
    var t := s'[k].typ;
    FreshPairFits(r, s'[k], s'[k + 1], WindingAt(s', k, t), WindingAt(s', k, t.Other()));
    PairWindings(s', k, t); PairWindings(s', k, t.Other());
    ContributingIsBoundary(s', r, k);
    ContributingIsBoundary(s', r, k + 1);
  }

  /** Edges around an opposite pair have the winding numbers they have without it. */
  lemma AwayFromPair(s: seq<EdgeView>, s': seq<EdgeView>, r: Rules, k: nat, j: nat)
    requires PairInserted(s, s', k) && Opposite(s'[k], s'[k + 1]) && j < |s|
    ensures var i := if j < k then j else j + 2;
      && s'[i] == s[j]
      && (CountsRightAt(s', r, i) <==> CountsRightAt(s, r, j))
      && (Boundary(s', r, i) <==> Boundary(s, r, j))
  {
    if j < k {
      WindingSamePrefix(s, s', j, PtSubject); WindingSamePrefix(s, s', j, PtClip);
      WindingSamePrefix(s, s', j + 1, PtSubject); WindingSamePrefix(s, s', j + 1, PtClip);
    } else {
      WindingPairInserted(s, s', k, j, PtSubject); WindingPairInserted(s, s', k, j, PtClip);
      WindingPairInserted(s, s', k, j + 1, PtSubject); WindingPairInserted(s, s', k, j + 1, PtClip);
    }
  }

  /** Inserting a local minimum anywhere leaves every count and output index right. */
  lemma InsertKeepsRight(s: seq<EdgeView>, s': seq<EdgeView>, r: Rules, k: nat)
    requires Right(s, r) && PairInserted(s, s', k)
    requires FreshPair(r, s'[k], s'[k + 1], WindingAt(s, k, s'[k].typ), WindingAt(s, k, s'[k].typ.Other()))
    ensures Right(s', r)
  {
    hide CountsRightAt, Boundary;
    forall i | 0 <= i < |s'| ensures s'[i].delta == 1 || s'[i].delta == -1 {
      if i >= k + 2 { assert s'[i] == s[i - 2]; }
    }
    WindingSamePrefix(s, s', k, PtSubject); WindingSamePrefix(s, s', k, PtClip);
    FreshPairRight(s', r, k);
    forall i | 0 <= i < |s'|
      ensures CountsRightAt(s', r, i)
      ensures s'[i].outIdx >= 0 <==> Boundary(s', r, i)
    {
      if i != k && i != k + 1 {
        AwayFromPair(s, s', r, k, if i < k then i else i - 2);
      }
    }
  }

  /**
   Where two bounds meet at a maximum both edges are on the outline or neither is,
   and taking the pair out leaves the others right.
   */
  lemma RemoveKeepsRight(s: seq<EdgeView>, s': seq<EdgeView>, r: Rules, k: nat)
    requires Right(s', r) && PairInserted(s, s', k) && Opposite(s'[k], s'[k + 1])
    ensures s'[k].outIdx >= 0 <==> s'[k + 1].outIdx >= 0
    ensures Right(s, r)
  {
    PairWindings(s', k, PtSubject); PairWindings(s', k, PtClip);
    assert Boundary(s', r, k) <==> Boundary(s', r, k + 1);
    forall j | 0 <= j < |s|
      ensures s[j].delta == 1 || s[j].delta == -1
      ensures CountsRightAt(s, r, j)
      ensures s[j].outIdx >= 0 <==> Boundary(s, r, j)
    {
      AwayFromPair(s, s', r, k, j);
    }
  }

  /** Two edges entering the list leave the counts of the edges to their left right. */
  lemma PrefixStaysRight(v: seq<EdgeView>, v': seq<EdgeView>, r: Rules, k: nat)
    requires Right(v, r) && k <= |v| && k <= |v'|
    requires forall x :: 0 <= x < k ==> v'[x] == v[x]
    ensures forall x :: 0 <= x < k ==> CountsRightAt(v', r, x)
    ensures forall t :: WindingAt(v', k, t) == WindingAt(v, k, t)
  {
    forall x | 0 <= x < k ensures CountsRightAt(v', r, x) {
      assert CountsRightAt(v, r, x);
      WindingSamePrefix(v, v', x, v[x].typ);
      WindingSamePrefix(v, v', x, v[x].typ.Other());
    }
    forall t ensures WindingAt(v', k, t) == WindingAt(v, k, t) {
      WindingSamePrefix(v, v', k, t);
    }
  }

  /** Only whether an edge builds a polygon matters, not which one or which side of it. */
  lemma SameShownRight(v: seq<EdgeView>, v': seq<EdgeView>, r: Rules)
    requires Right(v, r) && |v'| == |v|
    requires forall x :: 0 <= x < |v| ==>
      v'[x].typ == v[x].typ && v'[x].delta == v[x].delta && v'[x].cnt == v[x].cnt && v'[x].cnt2 == v[x].cnt2
      && (v'[x].outIdx >= 0 <==> v[x].outIdx >= 0)
    ensures Right(v', r)
  {
    hide CountsRightAt, Boundary;
    forall x | 0 <= x < |v| ensures CountsRightAt(v', r, x) && (v'[x].outIdx >= 0 <==> Boundary(v', r, x)) {
      SameShownAt(v, v', r, x);
    }
  }

  lemma SameShownAt(v: seq<EdgeView>, v': seq<EdgeView>, r: Rules, x: nat)
    requires |v'| == |v| && x < |v| && CountsRightAt(v, r, x)
    requires v'[x].cnt == v[x].cnt && v'[x].cnt2 == v[x].cnt2
    requires forall j :: 0 <= j < |v| ==> v'[j].typ == v[j].typ && v'[j].delta == v[j].delta
    ensures CountsRightAt(v', r, x) && (Boundary(v', r, x) <==> Boundary(v, r, x))
  {
    WindingSamePrefix(v, v', x, PtSubject); WindingSamePrefix(v, v', x, PtClip);
    WindingSamePrefix(v, v', x + 1, PtSubject); WindingSamePrefix(v, v', x + 1, PtClip);
  }

  /** No edge of type `t` from `j` up to `i`: the winding number does not move. */
  lemma {:induction false} NoneBetween(s: seq<EdgeView>, j: nat, i: nat, t: PolyType)
    requires j <= i <= |s|
    requires forall x :: j <= x < i ==> s[x].typ != t
    ensures WindingAt(s, i, t) == WindingAt(s, j, t)
  {
    if j < i {
      NoneBetween(s, j, i - 1, t);
    }
  }
}
