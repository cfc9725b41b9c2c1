/**
 Cutting polygons apart where they touch themselves, until no polygon visits a place twice
 other than at neighbouring points.
 */
module SimplePolygons {
  import opened ClipTypes
  import opened Sequences
  import opened OutPtRings
  import opened Forests
  import opened OutRecs
  import opened Geometry
  import opened RecordSplits
  import opened RecordTotals

  /** Places `i < j` of a closed path are neither the same nor neighbours. */
  predicate Remote(n: int, i: int, j: int) {
    i + 1 < j < n && !(i == 0 && j == n - 1)
  }

  /** No two points that are not neighbours are at the same place, as far as the earlier is before `k`. */
  ghost predicate SimpleUpTo(s: seq<IntPoint>, k: nat) {
    forall i, j :: 0 <= i < k && Remote(|s|, i, j) ==> s[i] != s[j]
  }

  ghost predicate Simple(s: seq<IntPoint>) {
    SimpleUpTo(s, |s|)
  }

  /** No point from place `m` on but before `n` is at the place of point `k`, unless it is a neighbour. */
  ghost predicate ApartUpTo(s: seq<IntPoint>, k: nat, m: nat) {
    k < |s| && m <= |s| && forall j :: 0 <= j < m && Remote(|s|, k, j) ==> s[k] != s[j]
  }

  /** The two runs of a ring between the touching points at places `k` and `m`. */
  ghost function Inner<T>(r: seq<T>, k: nat, m: nat): (a: seq<T>)
    requires k < m < |r|
    ensures |a| == m - k
  {
    r[k..m]
  }

  ghost function Outer<T>(r: seq<T>, k: nat, m: nat): (b: seq<T>)
    requires k < m < |r|
    ensures |b| == |r| - (m - k)
  {
    r[m..] + r[..k]
  }

  /** Cutting a ring where it touches itself keeps its area. */
  lemma TouchArea(r: seq<OutPt>, k: nat, m: nat)
    requires k < m < |r| && r[k].Pt == r[m].Pt
    ensures RingArea(Inner(r, k, m)) + RingArea(Outer(r, k, m)) == RingArea(r)
  {
    var a, b := Inner(r, k, m), Outer(r, k, m);
    assert Rotate(r, k) == a + b;
    assert Places(a + b) == Places(a) + Places(b) == Rotate(Places(r), k);
    AreaRotate(Places(r), k);
    AreaCross(Places(a), Places(b));
  }

  lemma TouchEnds(r: seq<OutPt>, k: nat, m: nat)
    requires IsRing(r) && k < m < |r|
    ensures var a, b := Inner(r, k, m), Outer(r, k, m);
      EndsOfStretches(a, b, r[m].Prev, r[k], r[k].Prev, r[m])
  {
    var a, b := Inner(r, k, m), Outer(r, k, m);
    RotateRing(r, k);
    assert Rotate(r, k) == a + b;
    NextInRing(r, m);
    NextInRing(r, k);
  }

  lemma TouchMembers(r: seq<OutPt>, k: nat, m: nat)
    requires k < m < |r| && Distinct(r)
    ensures var a, b := Inner(r, k, m), Outer(r, k, m);
      && Apart(a, b) && a[0] == r[k] && b[0] == r[m]
      && (forall x :: x in a ==> x in r) && (forall x :: x in b ==> x in r) && (forall x :: x in r ==> x in a || x in b)
      && (forall j :: 0 <= j < |a| ==> a[j] in r) && (forall j :: 0 <= j < |b| ==> b[j] in r)
  {
    var a, b := Inner(r, k, m), Outer(r, k, m);
    assert Rotate(r, k) == a + b;
    DistinctRotate(r, k);
    DistinctConcat(a, b);
    forall x | x in r ensures x in a || x in b {
      var j :| 0 <= j < |r| && r[j] == x;
      assert r == r[..k] + r[k..m] + r[m..];
    }
  }

  /** Relinks the ring of record `i`, which touches itself at places `k` and `m`, into two rings. */
  method CutRing(outs: OutRecList, op: OutPt, op2: OutPt, ghost i: nat, ghost k: nat, ghost m: nat)
    requires outs.Valid() && i < |outs.m_PolyOuts| && k < m < |outs.Rings[i]|
    requires op == outs.Rings[i][k] && op2 == outs.Rings[i][m]
    modifies outs.Rings[i]`Next, outs.Rings[i]`Prev
    ensures CutOpen(outs.m_PolyOuts, outs.Rings, outs.Owner, outs.Forward, i, Inner(outs.Rings[i], k, m), Outer(outs.Rings[i], k, m))
  {
    hide Resolving, LeftsOk, Forwarding, Owned, Inner, Outer;
    ghost var recs, rings, owner := outs.m_PolyOuts, outs.Rings, outs.Owner;
    ghost var r := rings[i];
    LinkedIds(recs, rings, owner);
    ListedAt(recs, rings, owner, recs[i]);
    TouchEnds(r, k, m);
    TouchMembers(r, k, m);
    ghost var a, b := Inner(r, k, m), Outer(r, k, m);
    var op3 := op.Prev;
    var op4 := op2.Prev;
    CrossLink(op4, op, op3, op2, a, b);
    forall j | 0 <= j < |recs| && j != i ensures Holds(recs[j], rings[j]) {
      RingsApart(rings, owner, i, j);
      ApartAt(r, rings[j]);
      assert old(Holds(recs[j], rings[j]));
    }
  }

  /** Everything but the way the points are distributed over rings is as before. */
  ghost predicate Conserved(rings: seq<seq<OutPt>>, rings': seq<seq<OutPt>>, i: nat) {
    && i < |rings| <= |rings'| && |rings'[i]| <= |rings[i]| && rings'[i] != []
    && (forall j :: 0 <= j < |rings| && j != i ==> rings'[j] == rings[j])
    && TotalArea(rings') == TotalArea(rings)
    && AllPoints(rings') == AllPoints(rings)
    && PointsFrom(rings', i) == PointsFrom(rings, i)
  }

  lemma ConservedTwice(rings: seq<seq<OutPt>>, rings': seq<seq<OutPt>>, rings'': seq<seq<OutPt>>, i: nat)
    requires Conserved(rings, rings', i) && Conserved(rings', rings'', i)
    ensures Conserved(rings, rings'', i)
  {
  }

  lemma SplitConserves(rings: seq<seq<OutPt>>, i: nat, k: nat, m: nat)
    requires i < |rings| && k < m < |rings[i]| && Distinct(rings[i]) && rings[i][k].Pt == rings[i][m].Pt
    ensures Conserved(rings, rings[i := Inner(rings[i], k, m)] + [Outer(rings[i], k, m)], i)
  {
    hide Inner, Outer;
    var a, b := Inner(rings[i], k, m), Outer(rings[i], k, m);
    TouchArea(rings[i], k, m);
    TouchMembers(rings[i], k, m);
    TotalSplit(rings, RingArea, i, a, b);
    PointsFromSplit(rings, i, a, b);
    AllPointsSplit(rings, i, a, b);
  }

  lemma SameOwned(owner: map<OutPt, nat>, i: nat, n: nat, a: seq<OutPt>, b: seq<OutPt>)
    requires (forall x :: x in a ==> x in owner) && (forall x :: x in b ==> x in owner)
    ensures Divided(owner, i, n, a, b).Keys == owner.Keys
  {
  }

  /** Splits the polygon of a record where it touches itself. */
  method SplitAtTouch(outs: OutRecList, outrec: OutRec, op: OutPt, op2: OutPt, ghost i: nat, ghost k: nat, ghost m: nat)
    returns (nesting: Nesting)
    requires outs.Valid() && i < |outs.m_PolyOuts| && outs.m_PolyOuts[i] == outrec && k < m < |outs.Rings[i]|
    requires op == outs.Rings[i][k] && op2 == outs.Rings[i][m] && op.Pt == op2.Pt
    modifies outs, outs.m_PolyOuts, outs.Owner.Keys
    ensures outs.Valid() && |outs.m_PolyOuts| == |old(outs.m_PolyOuts)| + 1
    ensures forall j :: 0 <= j < |old(outs.m_PolyOuts)| ==> outs.m_PolyOuts[j] == old(outs.m_PolyOuts[j])
    ensures fresh(outs.m_PolyOuts[|old(outs.m_PolyOuts)|]) && outs.Owner.Keys == old(outs.Owner.Keys)
    ensures Conserved(old(outs.Rings), outs.Rings, i)
    ensures outs.Rings[i] == Inner(old(outs.Rings[i]), k, m)
    ensures Placed(nesting, old(HierarchyOf(outs.m_PolyOuts)), HierarchyOf(outs.m_PolyOuts), i)
    ensures nesting == NestingOf(Places(outs.Rings[i]), Places(outs.Rings[|old(outs.Rings)|]))
  {
    hide Linked, Owned, Forwarding, Resolving, LeftsOk, Inner, Outer, Divided, Conserved, CutOpen, IsRing, OutRecList.Valid;
    hide Placed, NestingOf, HierarchyOf;
    ghost var rings, owner, n := outs.Rings, outs.Owner, |outs.m_PolyOuts|;
    TouchFacts(outs, i, k, m);
    ghost var a, b := Inner(rings[i], k, m), Outer(rings[i], k, m);
    CutRing(outs, op, op2, i, k, m);
    var outrec2;
    outrec2, nesting := SplitRecord(outs, outrec, op, op2, i, a, b);
  }

  lemma TouchFacts(outs: OutRecList, i: nat, k: nat, m: nat)
    requires outs.Valid() && i < |outs.m_PolyOuts| && k < m < |outs.Rings[i]| && outs.Rings[i][k].Pt == outs.Rings[i][m].Pt
    ensures var a, b := Inner(outs.Rings[i], k, m), Outer(outs.Rings[i], k, m);
      && a[0] == outs.Rings[i][k] && b[0] == outs.Rings[i][m]
      && (forall j :: 0 <= j < |b| ==> b[j] in outs.Owner)
      && (forall j :: 0 <= j < |outs.Rings[i]| ==> outs.Rings[i][j] in outs.Owner)
      && Divided(outs.Owner, i, |outs.m_PolyOuts|, a, b).Keys == outs.Owner.Keys
      && Conserved(outs.Rings, outs.Rings[i := a] + [b], i)
      && i < |outs.Rings| == |outs.m_PolyOuts|
  {
    var rings, owner := outs.Rings, outs.Owner;
    RingDistinct(outs, i);
    OwnedRing(rings, owner, i);
    TouchMembers(rings[i], k, m);
    SplitConserves(rings, i, k, m);
    hide Inner, Outer;
    SameOwned(owner, i, |outs.m_PolyOuts|, Inner(rings[i], k, m), Outer(rings[i], k, m));
  }

  lemma RingDistinct(outs: OutRecList, i: nat)
    requires outs.Valid() && i < |outs.m_PolyOuts| && outs.Rings[i] != []
    ensures Owned(outs.Rings, outs.Owner) && IsRing(outs.Rings[i]) && Distinct(outs.Rings[i])
    ensures |outs.Rings| == |outs.m_PolyOuts|
    ensures outs.m_PolyOuts[i].Id == i && outs.m_PolyOuts[i].Pts == outs.Rings[i][0]
  {
    ListedAt(outs.m_PolyOuts, outs.Rings, outs.Owner, outs.m_PolyOuts[i]);
  }

  /** Does the polygon touch itself at these two points, which are not neighbours? */
  method Touches(op: OutPt, op2: OutPt, ghost r: seq<OutPt>, ghost k: nat, ghost m: nat) returns (yes: bool)
    requires IsRing(r) && k < m < |r| && op == r[k] && op2 == r[m]
    ensures yes <==> op.Pt == op2.Pt && Remote(|r|, k, m)
  {
    NextInRing(r, m);
    DistinctAt(r, k);
    yes := op.Pt == op2.Pt && op2.Next != op && op2.Prev != op;
  }

  method Following(op: OutPt, ghost r: seq<OutPt>, ghost k: nat) returns (next: OutPt)
    requires IsRing(r) && k < |r| && op == r[k]
    ensures next == if k + 1 < |r| then r[k + 1] else r[0]
  {
    NextInRing(r, k);
    next := op.Next;
  }

  lemma ApartNext(s: seq<IntPoint>, k: nat, m: nat)
    requires ApartUpTo(s, k, m) && m < |s| && !(s[k] == s[m] && Remote(|s|, k, m))
    ensures ApartUpTo(s, k, m + 1)
  {
  }

  lemma ApartStart(s: seq<IntPoint>, k: nat)
    requires k < |s|
    ensures ApartUpTo(s, k, k + 1)
  {
  }

  lemma SimpleNext(s: seq<IntPoint>, k: nat)
    requires SimpleUpTo(s, k) && k < |s| && ApartUpTo(s, k, |s|)
    ensures SimpleUpTo(s, k + 1)
  {
  }

  lemma SimpleStart(s: seq<IntPoint>)
    ensures SimpleUpTo(s, 0)
  {
  }

  lemma ConservedSelf(rings: seq<seq<OutPt>>, i: nat)
    requires i < |rings| && rings[i] != []
    ensures Conserved(rings, rings, i)
  {
  }

  /** Compares two points, and cuts the polygon if they touch; `next` is the point to compare next. */
  method CompareOne(outs: OutRecList, outrec: OutRec, op: OutPt, op2: OutPt, ghost i: nat, ghost k: nat, ghost m: nat)
    returns (next: OutPt, ghost k': nat, ghost m': nat)
    requires outs.Valid() && i < |outs.m_PolyOuts| && outs.m_PolyOuts[i] == outrec && i < |outs.Rings| && k < m < |outs.Rings[i]|
    requires op == outs.Rings[i][k] && op2 == outs.Rings[i][m]
    requires SimpleUpTo(Places(outs.Rings[i]), k) && ApartUpTo(Places(outs.Rings[i]), k, m)
    modifies outs, outs.m_PolyOuts, outs.Owner.Keys
    ensures outs.Valid() && Extends(old(outs.m_PolyOuts), outs.m_PolyOuts) && outs.Owner.Keys == old(outs.Owner.Keys)
    ensures forall j :: |old(outs.m_PolyOuts)| <= j < |outs.m_PolyOuts| ==> fresh(outs.m_PolyOuts[j])
    ensures i < |old(outs.Rings)| && i < |outs.Rings| && Conserved(old(outs.Rings), outs.Rings, i)
    ensures k' < m' <= |outs.Rings[i]| && op == outs.Rings[i][k']
    ensures next == if m' < |outs.Rings[i]| then outs.Rings[i][m'] else outs.Rings[i][0]
    ensures SimpleUpTo(Places(outs.Rings[i]), k') && ApartUpTo(Places(outs.Rings[i]), k', m')
    ensures |outs.Rings[i]| < |old(outs.Rings[i])| || (outs.Rings == old(outs.Rings) && k' == k && m' == m + 1)
  {
    hide Placed, HierarchyOf, NestingOf, OutRecList.Valid, SimpleUpTo, ApartUpTo, Conserved, IsRing, Inner;
    RingDistinct(outs, i);
    var touches := Touches(op, op2, outs.Rings[i], k, m);
    if touches {
      InnerShorter(outs.Rings[i], k, m);
      var nesting := SplitAtTouch(outs, outrec, op, op2, i, k, m);
      k', m' := 0, 1;
      RingDistinct(outs, i);
      SimpleStart(Places(outs.Rings[i]));
      ApartStart(Places(outs.Rings[i]), 0);
      next := Following(op, outs.Rings[i], 0);
    } else {
      ConservedSelf(outs.Rings, i);
      ApartNext(Places(outs.Rings[i]), k, m);
      k', m' := k, m + 1;
      next := Following(op2, outs.Rings[i], m);
    }
  }

  lemma InnerShorter<T>(r: seq<T>, k: nat, m: nat)
    requires k < m < |r|
    ensures Inner(r, k, m) != [] && |Inner(r, k, m)| < |r| && Inner(r, k, m)[0] == r[k]
  {
  }

  /**
   Compares point `k` with the points behind it, and cuts the polygon at each place where the
   two touch. Point `k` then starts what remains of the polygon.
   */
  method CompareRest(outs: OutRecList, outrec: OutRec, op: OutPt, ghost i: nat, ghost k0: nat) returns (ghost k: nat)
    requires outs.Valid() && i < |outs.m_PolyOuts| && outs.m_PolyOuts[i] == outrec && i < |outs.Rings| && k0 < |outs.Rings[i]|
    requires op == outs.Rings[i][k0] && SimpleUpTo(Places(outs.Rings[i]), k0)
    modifies outs, outs.m_PolyOuts, outs.Owner.Keys
    ensures outs.Valid() && Extends(old(outs.m_PolyOuts), outs.m_PolyOuts) && outs.Owner.Keys == old(outs.Owner.Keys)
    ensures forall j :: |old(outs.m_PolyOuts)| <= j < |outs.m_PolyOuts| ==> fresh(outs.m_PolyOuts[j])
    ensures i < |old(outs.Rings)| && i < |outs.Rings| && Conserved(old(outs.Rings), outs.Rings, i)
    ensures k < |outs.Rings[i]| && op == outs.Rings[i][k] && SimpleUpTo(Places(outs.Rings[i]), k + 1)
    ensures |outs.Rings[i]| < |old(outs.Rings[i])| || (outs.Rings == old(outs.Rings) && k == k0)
  {
    hide OutRecList.Valid, SimpleUpTo, ApartUpTo, Conserved, IsRing, Inner;
    k := k0;
    RingDistinct(outs, i);
    ConservedSelf(outs.Rings, i);
    var op2 := Following(op, outs.Rings[i], k);
    ghost var m := k + 1;
    ApartStart(Places(outs.Rings[i]), k);
    while op2 != outrec.Pts
      invariant outs.Valid() && Extends(old(outs.m_PolyOuts), outs.m_PolyOuts) && outs.Owner.Keys == old(outs.Owner.Keys)
      invariant forall j :: |old(outs.m_PolyOuts)| <= j < |outs.m_PolyOuts| ==> fresh(outs.m_PolyOuts[j])
      invariant Conserved(old(outs.Rings), outs.Rings, i)
      invariant i < |outs.Rings| && outs.m_PolyOuts[i] == outrec
      invariant k < m <= |outs.Rings[i]| && op == outs.Rings[i][k] && outrec.Pts == outs.Rings[i][0]
      invariant op2 == if m < |outs.Rings[i]| then outs.Rings[i][m] else outs.Rings[i][0]
      invariant SimpleUpTo(Places(outs.Rings[i]), k) && ApartUpTo(Places(outs.Rings[i]), k, m)
      invariant |outs.Rings[i]| < |old(outs.Rings[i])| || (outs.Rings == old(outs.Rings) && k == k0)
      decreases |outs.Rings[i]|, |outs.Rings[i]| - m
    {
      ghost var before := outs.Rings;
      op2, k, m := CompareOne(outs, outrec, op, op2, i, k, m);
      ConservedTwice(old(outs.Rings), before, outs.Rings, i);
      RingDistinct(outs, i);
    }
    ghost var r := outs.Rings[i];
    assert m == |r| by {
      RingDistinct(outs, i);
      DistinctAt(r, 0);
    }
    SimpleNext(Places(r), k);
  }

  /** Cuts the polygon of one record until what remains of it is simple. */
  method SimplifyRecord(outs: OutRecList, outrec: OutRec, ghost i: nat)
    requires outs.Valid() && i < |outs.m_PolyOuts| && outs.m_PolyOuts[i] == outrec && outrec.Pts != null
    requires i < |outs.Rings| && outs.Rings[i] != []
    modifies outs, outs.m_PolyOuts, outs.Owner.Keys
    ensures outs.Valid() && Extends(old(outs.m_PolyOuts), outs.m_PolyOuts) && outs.Owner.Keys == old(outs.Owner.Keys)
    ensures forall j :: |old(outs.m_PolyOuts)| <= j < |outs.m_PolyOuts| ==> fresh(outs.m_PolyOuts[j])
    ensures i < |old(outs.Rings)| && i < |outs.Rings| && Conserved(old(outs.Rings), outs.Rings, i)
    ensures Simple(Places(outs.Rings[i]))
  {
    hide OutRecList.Valid, SimpleUpTo, Conserved, IsRing;
    RingDistinct(outs, i);
    ConservedSelf(outs.Rings, i);
    SimpleStart(Places(outs.Rings[i]));
    var op: OutPt := outrec.Pts;
    ghost var k: nat := 0;
    while true
      invariant outs.Valid() && Extends(old(outs.m_PolyOuts), outs.m_PolyOuts) && outs.Owner.Keys == old(outs.Owner.Keys)
      invariant forall j :: |old(outs.m_PolyOuts)| <= j < |outs.m_PolyOuts| ==> fresh(outs.m_PolyOuts[j])
      invariant i < |outs.Rings| && Conserved(old(outs.Rings), outs.Rings, i)
      invariant i < |outs.m_PolyOuts| && outs.m_PolyOuts[i] == outrec
      invariant k < |outs.Rings[i]| && op == outs.Rings[i][k] && SimpleUpTo(Places(outs.Rings[i]), k)
      decreases |outs.Rings[i]|, |outs.Rings[i]| - k
    {
      ghost var before := outs.Rings;
      k := CompareRest(outs, outrec, op, i, k);
      ConservedTwice(old(outs.Rings), before, outs.Rings, i);
      RingDistinct(outs, i);
      op := Following(op, outs.Rings[i], k);
      if op == outrec.Pts {
        DistinctAt(outs.Rings[i], 0);
        break;
      }
      k := k + 1;
    }
  }

  /**
   Cuts all polygons until none touches itself. Every point stays in exactly one ring, and the
   total area is what it was.
   */
  method DoSimplePolygons(outs: OutRecList)
    requires outs.Valid()
    modifies outs, outs.m_PolyOuts, outs.Owner.Keys
    ensures outs.Valid() && Extends(old(outs.m_PolyOuts), outs.m_PolyOuts)
    ensures |outs.Rings| == |outs.m_PolyOuts|
    ensures forall j :: 0 <= j < |outs.Rings| ==> Simple(Places(outs.Rings[j]))
    ensures TotalArea(outs.Rings) == TotalArea(old(outs.Rings)) && AllPoints(outs.Rings) == AllPoints(old(outs.Rings))
  {
    hide OutRecList.Valid, Simple, Conserved;
    outs.Sizes();
    var i := 0;
    while i < |outs.m_PolyOuts|
      invariant outs.Valid() && i <= |outs.m_PolyOuts| == |outs.Rings|
      invariant Extends(old(outs.m_PolyOuts), outs.m_PolyOuts) && outs.Owner.Keys == old(outs.Owner.Keys)
      invariant forall j :: |old(outs.m_PolyOuts)| <= j < |outs.m_PolyOuts| ==> fresh(outs.m_PolyOuts[j])
      invariant forall j :: 0 <= j < i ==> Simple(Places(outs.Rings[j]))
      invariant TotalArea(outs.Rings) == TotalArea(old(outs.Rings)) && AllPoints(outs.Rings) == AllPoints(old(outs.Rings))
      decreases PointsFrom(outs.Rings, i), |outs.m_PolyOuts| - i
    {
      ghost var before := outs.Rings;
      PointsFromStep(before, i);
      var outrec := outs.m_PolyOuts[i];
      HoldsOrEmpty(outs, i);
      if outrec.Pts != null {
        SimplifyRecord(outs, outrec, i);
        outs.Sizes();
        ConservedStep(before, outs.Rings, i);
      }
      i := i + 1;
    }
  }

  lemma HoldsOrEmpty(outs: OutRecList, i: nat)
    requires outs.Valid() && i < |outs.m_PolyOuts| && i < |outs.Rings|
    ensures outs.Rings[i] == [] <==> outs.m_PolyOuts[i].Pts == null
    ensures outs.Rings[i] == [] ==> Simple(Places(outs.Rings[i]))
  {
    assert Holds(outs.m_PolyOuts[i], outs.Rings[i]);
  }

  lemma ConservedStep(rings: seq<seq<OutPt>>, rings': seq<seq<OutPt>>, i: nat)
    requires i < |rings| && Conserved(rings, rings', i)
    ensures |rings| <= |rings'| && (forall j :: 0 <= j < i ==> rings'[j] == rings[j])
    ensures TotalArea(rings') == TotalArea(rings) && AllPoints(rings') == AllPoints(rings)
    ensures 0 <= PointsFrom(rings', i + 1) < PointsFrom(rings, i)
  {
    PointsFromStep(rings', i);
    TotalSizeNonNegative(rings'[i + 1..]);
  }
}
