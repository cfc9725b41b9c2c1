/**
 What becomes of the output records when a ring is cut in two, and the test of containment
 that decides which of the two polygons is the outer one.
 */
module RecordSplits {
  import opened ClipTypes
  import opened Sequences
  import opened OutPtRings
  import opened Forests
  import opened OutRecs
  import opened Geometry
  import opened PointInPolygons

  // ---------------------------------------------------------------- containment and area

  /** The first point of `s` that is off the path `t` tells whether `s` lies inside; if there is none, it does. */
  function FirstOffInside(s: seq<IntPoint>, t: seq<IntPoint>): bool {
    if s == [] then true
    else if Location(t, s[0]) >= 0 then Location(t, s[0]) > 0
    else FirstOffInside(s[1..], t)
  }

  /** `s` lies within the path `t`, as its first point off `t` tells; so does a path that is on `t` all along. */
  ghost predicate LiesWithin(s: seq<IntPoint>, t: seq<IntPoint>) {
    forall k :: 0 <= k < |s| && FirstOff(s, t, k) ==> Crossings(t, s[k]) % 2 != 0
  }

  ghost predicate FirstOff(s: seq<IntPoint>, t: seq<IntPoint>, k: nat)
    requires k < |s|
  {
    !OnPath(t, s[k]) && forall i :: 0 <= i < k ==> OnPath(t, s[i])
  }

  lemma {:induction false} FirstOffMeans(s: seq<IntPoint>, t: seq<IntPoint>, k: nat)
    requires k <= |s| && forall i :: 0 <= i < k ==> OnPath(t, s[i])
    ensures FirstOffInside(s[k..], t) <==> LiesWithin(s, t)
    decreases |s| - k
  {
    hide OnPath, Crossings;
    if k < |s| && OnPath(t, s[k]) {
      assert s[k..][1..] == s[k + 1..];
      FirstOffMeans(s, t, k + 1);
    } else if k < |s| {
      assert FirstOff(s, t, k);
      assert forall j :: 0 <= j < |s| && FirstOff(s, t, j) ==> j == k;
    }
  }

  method Poly2ContainsPoly1(outPt1: OutPt, outPt2: OutPt, ghost r1: seq<OutPt>, ghost r2: seq<OutPt>) returns (inside: bool)
    requires IsRing(r1) && IsRing(r2) && outPt1 == r1[0] && outPt2 == r2[0]
    ensures inside == FirstOffInside(Places(r1), Places(r2))
    ensures inside <==> LiesWithin(Places(r1), Places(r2))
  {
    var op := outPt1;
    ghost var s, i := Places(r1), 0;
    FirstOffMeans(s, Places(r2), 0);
    assert s[0..] == s;
    while true
      invariant i < |r1| && op == r1[i] && FirstOffInside(s, Places(r2)) == FirstOffInside(s[i..], Places(r2))
      decreases |r1| - i
    {
      var res := PointInRing(op.Pt, outPt2, r2);
      if res >= 0 {
        return res > 0;
      }
      NextInRing(r1, i);
      op := op.Next;
      i := i + 1;
      assert s[i - 1..][1..] == s[i..];
      if op == outPt1 {
        DistinctAt(r1, 0);
        break;
      }
    }
    return true;
  }

  /** Twice the signed area, added up along the ring. */
  method Area(startOp: OutPt, ghost r: seq<OutPt>) returns (a: int)
    requires IsRing(r) && startOp == r[0]
    ensures a == Area2(Places(r))
  {
    var op := startOp;
    ghost var s, i := Places(r), 0;
    a := 0;
    while true
      invariant i < |r| && op == r[i]
      invariant a == if i == 0 then 0 else Trapezoid(s[|r| - 1], s[0]) + Cycles.Along(s[..i], Trapezoid)
      decreases |r| - i
    {
      NextInRing(r, i);
      a := a + Trapezoid(op.Prev.Pt, op.Pt);
      op := op.Next;
      i := i + 1;
      assert i > 1 ==> s[..i][..i - 1] == s[..i - 1];
      if op == startOp {
        DistinctAt(r, 0);
        break;
      }
    }
    assert s[..i] == s;
  }

  // ---------------------------------------------------------------- splitting a record

  /** Every point of `a` comes from ring `i`, or is new. */
  ghost predicate PieceOf(rings: seq<seq<OutPt>>, owner: map<OutPt, nat>, i: nat, a: seq<OutPt>)
    requires i < |rings|
  {
    forall k :: 0 <= k < |a| ==> a[k] in rings[i] || a[k] !in owner
  }

  /** The points of `a` that are new forward to `i`. */
  ghost predicate NewForward(owner: map<OutPt, nat>, fwd: Merges, i: nat, a: seq<OutPt>)
    requires fwd.Ok()
    reads a`Idx
  {
    forall k :: 0 <= k < |a| && a[k] !in owner ==> a[k].Idx < |fwd.parent| && fwd.Root(a[k].Idx) == i
  }

  /** All is well but for ring `i`, which has been cut into the rings `a` and `b`. */
  ghost predicate CutOpen(recs: seq<OutRec>, rings: seq<seq<OutPt>>, owner: map<OutPt, nat>, fwd: Merges,
                          i: nat, a: seq<OutPt>, b: seq<OutPt>)
    reads recs`Pts, recs`Idx, recs`FirstLeft, owner.Keys`Next, owner.Keys`Prev, owner.Keys`Idx
    reads a`Next, a`Prev, a`Idx, b`Next, b`Prev, b`Idx
  {
    && |rings| == |recs| && i < |recs| && rings[i] != [] && Owned(rings, owner)
    && (forall j :: 0 <= j < |recs| ==> recs[j].Id == j)
    && (forall j :: 0 <= j < |recs| && j != i ==> Holds(recs[j], rings[j]))
    && Forwarding(recs, rings, fwd) && Resolving(rings, owner, fwd) && LeftsOk(recs)
    && IsRing(a) && IsRing(b) && Apart(a, b)
    && PieceOf(rings, owner, i, a) && PieceOf(rings, owner, i, b)
    && NewForward(owner, fwd, i, a) && NewForward(owner, fwd, i, b)
  }

  /** The owners after the points of `b` have gone over to the new record `n`. */
  ghost function Divided(owner: map<OutPt, nat>, i: nat, n: nat, a: seq<OutPt>, b: seq<OutPt>): map<OutPt, nat> {
    map p | p in owner.Keys + (set x | x in a) + (set x | x in b) :: if p in b then n else if p in a then i else owner[p]
  }

  lemma SplitLinked(recs: seq<OutRec>, rings: seq<seq<OutPt>>, owner: map<OutPt, nat>, i: nat, a: seq<OutPt>, b: seq<OutPt>, rec: OutRec)
    requires |rings| == |recs| && i < |recs| && Owned(rings, owner) && Apart(a, b)
    requires forall j :: 0 <= j < |recs| ==> recs[j].Id == j
    requires forall j :: 0 <= j < |recs| && j != i ==> Holds(recs[j], rings[j])
    requires PieceOf(rings, owner, i, a) && PieceOf(rings, owner, i, b)
    requires Holds(recs[i], a) && Holds(rec, b) && rec.Id == |recs|
    ensures Linked(recs + [rec], rings[i := a] + [b], Divided(owner, i, |recs|, a, b))
  {
    var rings': seq<seq<OutPt>> := rings[i := a] + [b];
    var owner' := Divided(owner, i, |recs|, a, b);
    forall j, k | 0 <= j < |rings'| && 0 <= k < |rings'[j]| ensures rings'[j][k] in owner' && owner'[rings'[j][k]] == j {
      var p := rings'[j][k];
      if j == |recs| {
        assert p in b;
      } else if j == i {
        assert p in a;
      } else {
        assert p == rings[j][k] && owner[p] == j;
        NotFrom(rings, owner, i, j, k, a);
        NotFrom(rings, owner, i, j, k, b);
      }
    }
    var recs' := recs + [rec];
    forall j | 0 <= j < |recs'| ensures Holds(recs'[j], rings'[j]) {
      if j < |recs| && j != i {
        assert Holds(recs[j], rings[j]);
      }
    }
  }

  /** A point of another ring is not in the pieces of ring `i`. */
  lemma NotFrom(rings: seq<seq<OutPt>>, owner: map<OutPt, nat>, i: nat, j: nat, k: nat, a: seq<OutPt>)
    requires Owned(rings, owner) && i < |rings| && j < |rings| && i != j && k < |rings[j]|
    requires PieceOf(rings, owner, i, a)
    ensures rings[j][k] !in a
  {
    var p := rings[j][k];
    forall n | 0 <= n < |a| ensures a[n] != p {
      if a[n] in rings[i] {
        var m :| 0 <= m < |rings[i]| && rings[i][m] == a[n];
        assert owner[rings[i][m]] == i;
      }
    }
  }

  /** The points of the rings other than `i` resolve to their records. */
  ghost predicate RestResolves(rings: seq<seq<OutPt>>, owner: map<OutPt, nat>, fwd: Merges, i: nat)
    requires Owned(rings, owner) && fwd.Ok()
    reads owner.Keys`Idx
  {
    forall j, k :: 0 <= j < |rings| && j != i && 0 <= k < |rings[j]| ==>
      rings[j][k].Idx < |fwd.parent| && fwd.Root(rings[j][k].Idx) == j
  }

  ghost predicate AllForward(fwd: Merges, i: nat, a: seq<OutPt>)
    requires fwd.Ok()
    reads a`Idx
  {
    forall k :: 0 <= k < |a| ==> a[k].Idx < |fwd.parent| && fwd.Root(a[k].Idx) == i
  }

  ghost predicate AllCarry(b: seq<OutPt>, idx: nat)
    reads b`Idx
  {
    forall k :: 0 <= k < |b| ==> b[k].Idx == idx
  }

  lemma SplitForwarding(recs: seq<OutRec>, rings: seq<seq<OutPt>>, owner: map<OutPt, nat>, owner': map<OutPt, nat>, fwd: Merges,
                        i: nat, a: seq<OutPt>, b: seq<OutPt>, rec: OutRec)
    requires |rings| == |recs| && i < |recs| && Forwarding(recs, rings, fwd) && rec.Idx == |recs| && rings[i] != []
    requires Owned(rings, owner) && RestResolves(rings, owner, fwd, i)
    requires AllForward(fwd, i, a) && AllCarry(b, |recs|)
    requires Owned(rings[i := a] + [b], owner')
    ensures Forwarding(recs + [rec], rings[i := a] + [b], fwd.Add())
    ensures Resolving(rings[i := a] + [b], owner', fwd.Add())
  {
    forall x | 0 <= x <= |recs| ensures fwd.Add().Ok() && fwd.Add().Root(x) == if x < |recs| then fwd.Root(x) else x {
      fwd.AddKeeps(x);
    }
    var rings': seq<seq<OutPt>> := rings[i := a] + [b];
    forall j, k | 0 <= j < |rings'| && 0 <= k < |rings'[j]|
      ensures rings'[j][k].Idx < |fwd.Add().parent| && fwd.Add().Root(rings'[j][k].Idx) == j
    {
      if j == i {
        assert rings'[j] == a;
      } else if j == |recs| {
        assert rings'[j] == b;
      } else {
        assert rings'[j] == rings[j];
      }
    }
  }

  /** Writes the index of the record on all points of its ring. */
  method UpdateOutPtIdxs(outrec: OutRec, ghost r: seq<OutPt>)
    requires IsRing(r) && outrec.Pts == r[0]
    modifies r`Idx
    ensures AllCarry(r, outrec.Idx)
  {
    var op := outrec.Pts;
    ghost var k: nat := 0;
    while true
      invariant k < |r| && op == r[k]
      invariant k > 0 ==> r[0].Idx == outrec.Idx && forall j :: k < j < |r| ==> r[j].Idx == outrec.Idx
      decreases if k == 0 then |r| else k
    {
      NextInRing(r, k);
      op.Idx := outrec.Idx;
      op := op.Prev;
      if op == outrec.Pts {
        DistinctAt(r, 0);
        break;
      }
      k := if k == 0 then |r| - 1 else k - 1;
    }
  }

  /** The points of `b` get the index of the new record; all others still resolve as before. */
  method Renumber(outRec2: OutRec, ghost rings: seq<seq<OutPt>>, ghost owner: map<OutPt, nat>, ghost fwd: Merges,
                  ghost i: nat, ghost a: seq<OutPt>, ghost b: seq<OutPt>)
    requires Owned(rings, owner) && fwd.Ok() && Resolving(rings, owner, fwd) && i < |rings|
    requires IsRing(b) && Apart(a, b) && outRec2.Pts == b[0]
    requires PieceOf(rings, owner, i, a) && PieceOf(rings, owner, i, b) && NewForward(owner, fwd, i, a)
    modifies b`Idx
    ensures RestResolves(rings, owner, fwd, i) && AllForward(fwd, i, a) && AllCarry(b, outRec2.Idx)
  {
    forall k | 0 <= k < |a| ensures a[k].Idx < |fwd.parent| && fwd.Root(a[k].Idx) == i {
      if a[k] in owner {
        var m :| 0 <= m < |rings[i]| && rings[i][m] == a[k];
      }
    }
    ApartAt(a, b);
    forall j, k | 0 <= j < |rings| && j != i && 0 <= k < |rings[j]| ensures rings[j][k] !in b {
      NotFrom(rings, owner, i, j, k, b);
    }
    hide IsRing, Apart, PieceOf, AllCarry;
    UpdateOutPtIdxs(outRec2, b);
  }

  lemma WithinMeans(s: seq<IntPoint>, t: seq<IntPoint>)
    ensures FirstOffInside(s, t) <==> LiesWithin(s, t)
  {
    FirstOffMeans(s, t, 0);
    assert s[0..] == s;
  }

  datatype Nesting = SecondInside | FirstInside | Beside

  /** Which of two polygons lies inside the other, if any. */
  function NestingOf(a: seq<IntPoint>, b: seq<IntPoint>): Nesting {
    if FirstOffInside(b, a) then SecondInside else if FirstOffInside(a, b) then FirstInside else Beside
  }

  /** The hierarchy with a new record for a piece of record `i`: an inner piece is a hole in an outer one, or lies in a hole. */
  predicate Placed(nesting: Nesting, h: Hierarchy, h': Hierarchy, i: nat) {
    && i < |h.lefts| == |h.holes|
    && match nesting
       case SecondInside => h'.lefts == h.lefts + [i] && h'.holes == h.holes + [!h.holes[i]]
       case FirstInside => h'.lefts == h.lefts[i := |h.lefts|] + [h.lefts[i]] && h'.holes == h.holes[i := !h.holes[i]] + [h.holes[i]]
       case Beside => h'.lefts == h.lefts + [h.lefts[i]] && h'.holes == h.holes + [h.holes[i]]
  }

  lemma NowPlaced(recs: seq<OutRec>, nesting: Nesting, h: Hierarchy, i: nat, outRec2: OutRec)
    requires i < |recs| == |h.lefts| == |h.holes| && recs[i].Id == i && outRec2.Id == |recs|
    requires forall j :: 0 <= j < |recs| && j != i ==> LeftOf(recs[j]) == h.lefts[j] && recs[j].IsHole == h.holes[j]
    requires if nesting == SecondInside then outRec2.FirstLeft == recs[i] && outRec2.IsHole == !h.holes[i]
             else LeftOf(outRec2) == h.lefts[i] && outRec2.IsHole == h.holes[i]
    requires if nesting == FirstInside then recs[i].FirstLeft == outRec2 && recs[i].IsHole == !h.holes[i]
             else LeftOf(recs[i]) == h.lefts[i] && recs[i].IsHole == h.holes[i]
    ensures Placed(nesting, h, HierarchyOf(recs + [outRec2]), i)
  {
    var lefts, holes := LeftsOf(recs + [outRec2]), Holes(recs + [outRec2]);
    assert lefts[|recs|] == LeftOf(outRec2) && holes[|recs|] == outRec2.IsHole;
    assert lefts == (if nesting == FirstInside then h.lefts[i := |recs|] else h.lefts) + [lefts[|recs|]];
    assert holes == (if nesting == FirstInside then h.holes[i := !h.holes[i]] else h.holes) + [holes[|recs|]];
  }

  /** A record that holds a piece of `outRec` has its place in the hierarchy of outer polygons and holes. */
  method NestRecord(outRec: OutRec, outRec2: OutRec, ghost recs: seq<OutRec>, ghost a: seq<OutPt>, ghost b: seq<OutPt>) returns (nesting: Nesting)
    requires LeftsOk(recs) && (forall j :: 0 <= j < |recs| ==> recs[j].Id == j)
    requires outRec in recs && outRec2 !in recs && outRec2.Id == |recs|
    requires IsRing(a) && IsRing(b) && outRec.Pts == a[0] && outRec2.Pts == b[0]
    modifies outRec`FirstLeft, outRec`IsHole, outRec2`FirstLeft, outRec2`IsHole
    ensures LeftsOk(recs + [outRec2])
    ensures nesting == NestingOf(Places(a), Places(b))
    ensures Placed(nesting, old(HierarchyOf(recs)), HierarchyOf(recs + [outRec2]), outRec.Id)
  {
    hide LeftsOk, IsRing, LiesWithin, NestingOf;
    ghost var h := HierarchyOf(recs);
    nesting := Nest(outRec, outRec2, recs, a, b);
    NowPlaced(recs, nesting, h, outRec.Id, outRec2);
  }

  /** What this does to the two records. */
  method Nest(outRec: OutRec, outRec2: OutRec, ghost recs: seq<OutRec>, ghost a: seq<OutPt>, ghost b: seq<OutPt>) returns (nesting: Nesting)
    requires LeftsOk(recs) && (forall j :: 0 <= j < |recs| ==> recs[j].Id == j)
    requires outRec in recs && outRec2 !in recs && outRec2.Id == |recs|
    requires IsRing(a) && IsRing(b) && outRec.Pts == a[0] && outRec2.Pts == b[0]
    modifies outRec`FirstLeft, outRec`IsHole, outRec2`FirstLeft, outRec2`IsHole
    ensures LeftsOk(recs + [outRec2])
    ensures nesting == NestingOf(Places(a), Places(b))
    ensures nesting == SecondInside <==> LiesWithin(Places(b), Places(a))
    ensures nesting == FirstInside <==> LiesWithin(Places(a), Places(b)) && !LiesWithin(Places(b), Places(a))
    ensures if nesting == SecondInside then outRec2.FirstLeft == outRec && outRec2.IsHole == !outRec.IsHole
            else outRec2.FirstLeft == old(outRec.FirstLeft) && outRec2.IsHole == old(outRec.IsHole)
    ensures if nesting == FirstInside then outRec.FirstLeft == outRec2 && outRec.IsHole == !outRec2.IsHole
            else outRec.FirstLeft == old(outRec.FirstLeft) && outRec.IsHole == old(outRec.IsHole)
  {
    RingEnds(a);
    RingEnds(b);
    hide LeftsOk, IsRing, FirstOffInside, LiesWithin;
    var inner := Poly2ContainsPoly1(outRec2.Pts, outRec.Pts, b, a);
    if inner {
      nesting := SecondInside;
      NestInner(outRec, outRec2, recs);
    } else {
      var outer := Poly2ContainsPoly1(outRec.Pts, outRec2.Pts, a, b);
      if outer {
        nesting := FirstInside;
        NestOuter(outRec, outRec2, recs);
      } else {
        nesting := Beside;
        NestBeside(outRec, outRec2, recs);
      }
    }
  }

  /** The new polygon lies inside what remains of the old one. */
  method NestInner(outRec: OutRec, outRec2: OutRec, ghost recs: seq<OutRec>)
    requires LeftsOk(recs) && (forall j :: 0 <= j < |recs| ==> recs[j].Id == j)
    requires outRec in recs && outRec2 !in recs && outRec2.Id == |recs|
    modifies outRec2`FirstLeft, outRec2`IsHole
    ensures LeftsOk(recs + [outRec2])
    ensures outRec2.FirstLeft == outRec && outRec2.IsHole == !outRec.IsHole
  {
    outRec2.IsHole := !outRec.IsHole;
    outRec2.FirstLeft := outRec;
    AddLeft(recs, outRec2);
  }

  /** What remains of the old polygon lies inside the new one. */
  method NestOuter(outRec: OutRec, outRec2: OutRec, ghost recs: seq<OutRec>)
    requires LeftsOk(recs) && (forall j :: 0 <= j < |recs| ==> recs[j].Id == j)
    requires outRec in recs && outRec2 !in recs && outRec2.Id == |recs|
    modifies outRec`FirstLeft, outRec`IsHole, outRec2`FirstLeft, outRec2`IsHole
    ensures LeftsOk(recs + [outRec2])
    ensures outRec2.FirstLeft == old(outRec.FirstLeft) && outRec2.IsHole == old(outRec.IsHole)
    ensures outRec.FirstLeft == outRec2 && outRec.IsHole == !outRec2.IsHole
  {
    hide Acyclic;
    ghost var s, i := LeftsOf(recs), outRec.Id;
    SplitOuterAcyclic(s, i);
    outRec2.IsHole := outRec.IsHole;
    outRec.IsHole := !outRec2.IsHole;
    outRec2.FirstLeft := outRec.FirstLeft;
    outRec.FirstLeft := outRec2;
    assert LeftsOf(recs + [outRec2]) == (s + [s[i]])[i := |s|];
  }

  method NestBeside(outRec: OutRec, outRec2: OutRec, ghost recs: seq<OutRec>)
    requires LeftsOk(recs) && (forall j :: 0 <= j < |recs| ==> recs[j].Id == j)
    requires outRec in recs && outRec2 !in recs && outRec2.Id == |recs|
    modifies outRec2`FirstLeft, outRec2`IsHole
    ensures LeftsOk(recs + [outRec2])
    ensures outRec2.FirstLeft == outRec.FirstLeft && outRec2.IsHole == outRec.IsHole
  {
    outRec2.IsHole := outRec.IsHole;
    outRec2.FirstLeft := outRec.FirstLeft;
    AddLeft(recs, outRec2);
  }

  /** All is well again but for the links to the left: `outRec` holds `a`, and the new record, not yet listed, `b`. */
  ghost predicate Halved(recs: seq<OutRec>, rings: seq<seq<OutPt>>, owner: map<OutPt, nat>, fwd: Merges,
                         i: nat, a: seq<OutPt>, b: seq<OutPt>, outRec2: OutRec)
    reads recs`Pts, recs`Idx, owner.Keys`Next, owner.Keys`Prev, owner.Keys`Idx
    reads a`Next, a`Prev, a`Idx, b`Next, b`Prev, b`Idx, outRec2`Pts, outRec2`Idx
  {
    && |rings| == |recs| && i < |recs| && rings[i] != [] && Owned(rings, owner) && Apart(a, b)
    && (forall j :: 0 <= j < |recs| ==> recs[j].Id == j)
    && (forall j :: 0 <= j < |recs| && j != i ==> Holds(recs[j], rings[j]))
    && Holds(recs[i], a) && Holds(outRec2, b) && outRec2.Id == outRec2.Idx == |recs|
    && PieceOf(rings, owner, i, a) && PieceOf(rings, owner, i, b)
    && Forwarding(recs, rings, fwd) && RestResolves(rings, owner, fwd, i) && AllForward(fwd, i, a) && AllCarry(b, |recs|)
  }

  lemma HalvedDone(recs: seq<OutRec>, rings: seq<seq<OutPt>>, owner: map<OutPt, nat>, fwd: Merges,
                   i: nat, a: seq<OutPt>, b: seq<OutPt>, outRec2: OutRec)
    requires Halved(recs, rings, owner, fwd, i, a, b, outRec2)
    ensures var owner' := Divided(owner, i, |recs|, a, b);
      && Linked(recs + [outRec2], rings[i := a] + [b], owner')
      && Forwarding(recs + [outRec2], rings[i := a] + [b], fwd.Add())
      && Resolving(rings[i := a] + [b], owner', fwd.Add())
  {
    hide Owned, Holds, Forwarding, Resolving, RestResolves, PieceOf, Divided, Apart, AllForward, AllCarry;
    SplitLinked(recs, rings, owner, i, a, b, outRec2);
    LinkedIds(recs + [outRec2], rings[i := a] + [b], Divided(owner, i, |recs|, a, b));
    SplitForwarding(recs, rings, owner, Divided(owner, i, |recs|, a, b), fwd, i, a, b, outRec2);
  }

  method Halve(outs: OutRecList, outRec: OutRec, op: OutPt, op2: OutPt, ghost i: nat, ghost a: seq<OutPt>, ghost b: seq<OutPt>)
    returns (outRec2: OutRec)
    requires CutOpen(outs.m_PolyOuts, outs.Rings, outs.Owner, outs.Forward, i, a, b)
    requires outs.m_PolyOuts[i] == outRec && op == a[0] && op2 == b[0]
    modifies outRec`Pts, b`Idx
    ensures fresh(outRec2) && Halved(outs.m_PolyOuts, outs.Rings, outs.Owner, outs.Forward, i, a, b, outRec2)
    ensures LeftsOk(outs.m_PolyOuts)
  {
    hide Owned, Holds, Forwarding, Resolving, RestResolves, PieceOf, NewForward, LeftsOk, IsRing, Apart, AllForward, AllCarry;
    ghost var recs, rings, owner, fwd := outs.m_PolyOuts, outs.Rings, outs.Owner, outs.Forward;
    ForwardingShape(recs, rings, fwd);
    RingEnds(a);
    RingEnds(b);
    outRec.Pts := op;
    outRec2 := new OutRec(|outs.m_PolyOuts|);
    outRec2.Pts := op2;
    Renumber(outRec2, rings, owner, fwd, i, a, b);
    HoldsRing(outRec, a);
    HoldsRing(outRec2, b);
  }

  /** Completes a cut: the record keeps the ring of `op`, and a new record takes that of `op2`. */
  method SplitRecord(outs: OutRecList, outRec: OutRec, op: OutPt, op2: OutPt, ghost i: nat, ghost a: seq<OutPt>, ghost b: seq<OutPt>)
    returns (outRec2: OutRec, nesting: Nesting)
    requires CutOpen(outs.m_PolyOuts, outs.Rings, outs.Owner, outs.Forward, i, a, b)
    requires outs.m_PolyOuts[i] == outRec && op == a[0] && op2 == b[0]
    modifies outs, outRec, b`Idx
    ensures outs.Valid() && fresh(outRec2) && nesting == NestingOf(Places(a), Places(b))
    ensures Placed(nesting, old(HierarchyOf(outs.m_PolyOuts)), HierarchyOf(outs.m_PolyOuts), i)
    ensures outs.m_PolyOuts == old(outs.m_PolyOuts) + [outRec2]
    ensures outs.Rings == old(outs.Rings)[i := a] + [b]
    ensures outs.Owner == Divided(old(outs.Owner), i, |old(outs.m_PolyOuts)|, a, b)
  {
    hide Placed, NestingOf, HierarchyOf, CutOpen, Halved, OutRecList.Valid, IsRing, LeftsOk, Divided;
    OpenRings(outs, i, a, b);
    outRec2 := Halve(outs, outRec, op, op2, i, a, b);
    nesting := Enlist(outs, outRec, outRec2, i, a, b);
  }

  lemma OpenRings(outs: OutRecList, i: nat, a: seq<OutPt>, b: seq<OutPt>)
    requires CutOpen(outs.m_PolyOuts, outs.Rings, outs.Owner, outs.Forward, i, a, b)
    ensures i < |outs.m_PolyOuts| && IsRing(a) && IsRing(b)
  {
  }

  /** Gives the new record its place in the hierarchy, and lists it. */
  method Enlist(outs: OutRecList, outRec: OutRec, outRec2: OutRec, ghost i: nat, ghost a: seq<OutPt>, ghost b: seq<OutPt>)
    returns (nesting: Nesting)
    requires Halved(outs.m_PolyOuts, outs.Rings, outs.Owner, outs.Forward, i, a, b, outRec2)
    requires IsRing(a) && IsRing(b)
    requires LeftsOk(outs.m_PolyOuts) && outs.m_PolyOuts[i] == outRec && outRec2 !in outs.m_PolyOuts
    modifies outs, outRec`FirstLeft, outRec`IsHole, outRec2`FirstLeft, outRec2`IsHole
    ensures outs.Valid() && nesting == NestingOf(Places(a), Places(b))
    ensures Placed(nesting, old(HierarchyOf(outs.m_PolyOuts)), HierarchyOf(outs.m_PolyOuts), i)
    ensures outs.m_PolyOuts == old(outs.m_PolyOuts) + [outRec2]
    ensures outs.Rings == old(outs.Rings)[i := a] + [b]
    ensures outs.Owner == Divided(old(outs.Owner), i, |old(outs.m_PolyOuts)|, a, b)
  {
    hide Owned, Holds, Forwarding, Resolving, RestResolves, PieceOf, LeftsOk, Divided, IsRing, Apart, NestingOf, LiesWithin, AllForward, AllCarry;
    hide Placed, HierarchyOf;
    ghost var recs, rings, owner, fwd := outs.m_PolyOuts, outs.Rings, outs.Owner, outs.Forward;
    RingEnds(a);
    RingEnds(b);
    HoldsRing(outRec, a);
    HoldsRing(outRec2, b);
    HalvedDone(recs, rings, owner, fwd, i, a, b, outRec2);
    ghost var recs': seq<OutRec> := recs + [outRec2];
    ghost var rings': seq<seq<OutPt>> := rings[i := a] + [b];
    ghost var owner': map<OutPt, nat> := Divided(owner, i, |recs|, a, b);
    LinkedIds(recs', rings', owner');
    ForwardingShape(recs', rings', fwd.Add());
    assert Resolving(rings', owner', fwd.Add());
    hide Linked;
    nesting := NestRecord(outRec, outRec2, recs, a, b);
    assert Resolving(rings', owner', fwd.Add());
    outs.m_PolyOuts := outs.m_PolyOuts + [outRec2];
    outs.Rings, outs.Owner, outs.Forward := rings', owner', fwd.Add();
  }
}
