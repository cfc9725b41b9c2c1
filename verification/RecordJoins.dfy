/**
 Joining the output polygons that run along each other, as the sweep has noted, and what
 becomes of their records.
 */
module RecordJoins {
  import opened ClipTypes
  import opened Sequences
  import opened OutPtRings
  import opened Forests
  import opened OutRecs
  import opened Geometry
  import opened RingJoins
  import opened JoinTests
  import opened RecordSplits
  import opened RecordTotals
  import opened NotedJoins

  /** `p` stands at place `k` of ring `i`. */
  ghost predicate StandsAt(rings: seq<seq<OutPt>>, i: nat, k: nat, p: OutPt) {
    i < |rings| && k < |rings[i]| && rings[i][k] == p
  }

  // ---------------------------------------------------------------- what a join does to the rings

  /** The ring walked the other way, from the same point. */
  ghost function Backwards(r: seq<OutPt>): (b: seq<OutPt>)
    requires r != []
    ensures |b| == |r| && b[0] == r[0]
  {
    [r[0]] + Reverse(r[1..])
  }

  ghost predicate PerhapsTurned(a: seq<OutPt>, a': seq<OutPt>)
    requires a != []
  {
    a' == a || a' == Backwards(a)
  }

  /** Of two pieces of a ring only one that lies inside the other may have been turned. */
  ghost predicate InnerTurned(a: seq<OutPt>, b: seq<OutPt>, a': seq<OutPt>, b': seq<OutPt>)
    requires a != [] && b != []
  {
    match NestingOf(Places(a), Places(b))
    case SecondInside => a' == a && PerhapsTurned(b, b')
    case FirstInside => PerhapsTurned(a, a') && b' == b
    case Beside => a' == a && b' == b
  }

  /** Ring `i` has been cut into `a`, which stays in its place, and `b`, which comes last. */
  ghost predicate RingCut(rings: seq<seq<OutPt>>, rings': seq<seq<OutPt>>, i: nat, a: seq<OutPt>, b: seq<OutPt>) {
    && i < |rings| && |rings'| == |rings| + 1 && a != [] && b != []
    && InnerTurned(a, b, rings'[i], rings'[|rings|])
    && rings' == rings[i := rings'[i]] + [rings'[|rings|]]
  }

  /** The ring read from another point. */
  ghost predicate Turn<T>(a: seq<T>, a': seq<T>) {
    exists t :: 0 <= t <= |a| && a' == Rotate(a, t)
  }

  /** Ring `i2` has been joined to ring `i1`, which is now `a`, read from the point where it began before. */
  ghost predicate RingsChained(rings: seq<seq<OutPt>>, rings': seq<seq<OutPt>>, i1: nat, i2: nat, a: seq<OutPt>) {
    && i1 < |rings| && i2 < |rings| && i1 != i2 && rings[i1] != [] && |rings'| == |rings|
    && Turn(a, rings'[i1]) && rings'[i1] != [] && rings'[i1][0] == rings[i1][0]
    && rings' == rings[i1 := rings'[i1]][i2 := []]
  }

  /** A join of the points at these places, which `p` and `q` double. */
  ghost predicate Rejoined(join: Join, rings: seq<seq<OutPt>>, rings': seq<seq<OutPt>>, i1: nat, k1: nat, i2: nat, k2: nat,
                           reverse: bool, p: OutPt, q: OutPt)
    requires StandsAt(rings, i1, k1, join.OutPt1) && StandsAt(rings, i2, k2, join.OutPt2) && (i1 == i2 ==> k1 != k2)
  {
    && p !in AllPoints(rings) && q !in AllPoints(rings) && p != q && p.Pt == join.OutPt1.Pt && q.Pt == join.OutPt2.Pt
    && if i1 == i2 then
         var (a, b) := Pieces(rings[i1], k1, k2, reverse, p, q);
         RingCut(rings, rings', i1, a, b)
       else
         RingsChained(rings, rings', i1, i2, Chained(rings[i1], k1, rings[i2], k2, reverse, p, q))
  }

  /** What becomes of the rings when the points of the join stand at these places. */
  ghost predicate JoinMade(join: Join, rings: seq<seq<OutPt>>, rings': seq<seq<OutPt>>, i1: nat, k1: nat, i2: nat, k2: nat)
    requires StandsAt(rings, i1, k1, join.OutPt1) && StandsAt(rings, i2, k2, join.OutPt2)
  {
    var d := JoinDecision(join, i1 == i2, Places(rings[i1]), k1, Places(rings[i2]), k2);
    if !d.0 then rings' == rings
    else exists p, q :: p in AllPoints(rings') && q in AllPoints(rings') && Rejoined(join, rings, rings', i1, k1, i2, k2, d.1, p, q)
  }

  /**
   One join carried out: when the polygons run along each other as it says, their ring is cut
   in two, or their two rings become one; otherwise everything stays as it is.
   */
  ghost predicate JoinStep(join: Join, rings: seq<seq<OutPt>>, rings': seq<seq<OutPt>>) {
    exists i1, k1, i2, k2 :: StandsAt(rings, i1, k1, join.OutPt1) && StandsAt(rings, i2, k2, join.OutPt2)
      && JoinMade(join, rings, rings', i1, k1, i2, k2)
  }

  /** The area of all polygons together is as before, once a ring that has been turned is turned back. */
  ghost predicate AreaKept(rings: seq<seq<OutPt>>, rings': seq<seq<OutPt>>) {
    || TotalArea(rings') == TotalArea(rings)
    || exists j :: |rings| < |rings'| && 0 <= j < |rings'| && rings'[j] != [] && TotalArea(rings'[j := Backwards(rings'[j])]) == TotalArea(rings)
  }

  lemma TurnedTwice(r: seq<OutPt>)
    requires r != []
    ensures Backwards(Backwards(r)) == r
  {
    ReverseTwice(r[1..]);
  }

  lemma ReverseTwice<T>(s: seq<T>)
    ensures Reverse(Reverse(s)) == s
  {
  }

  lemma CutArea(rings: seq<seq<OutPt>>, rings': seq<seq<OutPt>>, i: nat, a: seq<OutPt>, b: seq<OutPt>)
    requires RingCut(rings, rings', i, a, b) && RingArea(a) + RingArea(b) == RingArea(rings[i])
    ensures AreaKept(rings, rings')
  {
    hide RingArea, NestingOf, Backwards;
    var n, plain := |rings|, rings[i := a] + [b];
    TotalSplit(rings, RingArea, i, a, b);
    assert TotalArea(plain) == TotalArea(rings);
    if rings' != plain {
      TurnedTwice(a);
      TurnedTwice(b);
      var j := if rings'[i] == a then n else i;
      assert rings'[j := Backwards(rings'[j])] == plain;
    }
  }

  lemma ChainArea(rings: seq<seq<OutPt>>, rings': seq<seq<OutPt>>, i1: nat, i2: nat, a: seq<OutPt>)
    requires RingsChained(rings, rings', i1, i2, a) && RingArea(a) == RingArea(rings[i1]) + RingArea(rings[i2])
    ensures TotalArea(rings') == TotalArea(rings)
  {
    var a' := rings'[i1];
    var t :| 0 <= t <= |a| && a' == Rotate(a, t);
    AreaRotated(a, t);
    hide Rotate;
    var mid: seq<seq<OutPt>> := rings[i1 := a'];
    TotalUpdate(rings, RingArea, i1, a');
    TotalUpdate(mid, RingArea, i2, []);
  }

  /** The pieces of a ring share its area, and two rings joined have the area of both. */
  lemma PiecesArea(r: seq<OutPt>, k1: nat, k2: nat, reverse: bool, p: OutPt, q: OutPt)
    requires k1 < |r| && k2 < |r| && k1 != k2 && p.Pt == r[k1].Pt && q.Pt == r[k2].Pt
    ensures var (a, b) := Pieces(r, k1, k2, reverse, p, q); RingArea(a) + RingArea(b) == RingArea(r)
  {
    hide Rotate, Pieces, Between;
    if reverse {
      var m, n := Stretches(r, k2, k1);
      PiecesSeen(r, k1, k2, true, m, n, p, q);
      AreaOfCut(r, k2 + 1, m, n, q, p);
      AreaRotated(n, |n| - 1);
      TurnedFirst(m, p, q);
      AreaRotated([q] + m + [p], |m| + 1);
    } else {
      var m, n := Stretches(r, k1, k2);
      PiecesSeen(r, k1, k2, false, m, n, p, q);
      AreaOfCut(r, k1 + 1, m, n, p, q);
    }
  }

  lemma TurnedFirst<T>(m: seq<T>, p: T, q: T)
    ensures Rotate([q] + m + [p], |m| + 1) == [p, q] + m
  {
  }

  lemma ChainedArea(r1: seq<OutPt>, k1: nat, r2: seq<OutPt>, k2: nat, reverse: bool, p: OutPt, q: OutPt)
    requires k1 < |r1| && k2 < |r2| && p.Pt == r1[k1].Pt && q.Pt == r2[k2].Pt
    ensures RingArea(Chained(r1, k1, r2, k2, reverse, p, q)) == RingArea(r1) + RingArea(r2)
  {
    if reverse {
      AreaOfJoin(r2, r1, k2 + 1, k1, q, p);
      var a := Chained(r1, k1, r2, k2, true, p, q);
      assert Rotate(a, |r2| + 1) == Rotate(r1, k1) + [p] + ([q] + Rotate(r2, k2 + 1));
      AreaRotated(a, |r2| + 1);
    } else {
      AreaOfJoin(r1, r2, k1 + 1, k2, p, q);
    }
  }

  /** A join changes the total area at most by turning a ring it has cut off; joining two polygons does not change it at all. */
  lemma StepArea(join: Join, rings: seq<seq<OutPt>>, rings': seq<seq<OutPt>>)
    requires JoinStep(join, rings, rings')
    ensures AreaKept(rings, rings') && |rings'| >= |rings| && (|rings'| == |rings| ==> TotalArea(rings') == TotalArea(rings))
  {
    hide JoinDecision, Rejoined, AreaKept;
    var i1: nat, k1: nat, i2: nat, k2: nat :| StandsAt(rings, i1, k1, join.OutPt1) && StandsAt(rings, i2, k2, join.OutPt2)
      && JoinMade(join, rings, rings', i1, k1, i2, k2);
    var d := JoinDecision(join, i1 == i2, Places(rings[i1]), k1, Places(rings[i2]), k2);
    if d.0 {
      var p, q :| p in AllPoints(rings') && q in AllPoints(rings') && Rejoined(join, rings, rings', i1, k1, i2, k2, d.1, p, q);
      RejoinedArea(join, rings, rings', i1, k1, i2, k2, d.1, p, q);
    } else {
      EqualArea(rings, rings');
    }
  }

  lemma RejoinedArea(join: Join, rings: seq<seq<OutPt>>, rings': seq<seq<OutPt>>, i1: nat, k1: nat, i2: nat, k2: nat,
                     reverse: bool, p: OutPt, q: OutPt)
    requires StandsAt(rings, i1, k1, join.OutPt1) && StandsAt(rings, i2, k2, join.OutPt2) && (i1 == i2 ==> k1 != k2)
    requires Rejoined(join, rings, rings', i1, k1, i2, k2, reverse, p, q)
    ensures AreaKept(rings, rings') && |rings'| >= |rings| && (|rings'| == |rings| ==> TotalArea(rings') == TotalArea(rings))
  {
    hide AllPoints, RingArea, Pieces, Chained, AreaKept;
    if i1 == i2 {
      var (a, b) := Pieces(rings[i1], k1, k2, reverse, p, q);
      PiecesArea(rings[i1], k1, k2, reverse, p, q);
      CutArea(rings, rings', i1, a, b);
    } else {
      ChainedArea(rings[i1], k1, rings[i2], k2, reverse, p, q);
      ChainArea(rings, rings', i1, i2, Chained(rings[i1], k1, rings[i2], k2, reverse, p, q));
      EqualArea(rings, rings');
    }
  }

  lemma EqualArea(rings: seq<seq<OutPt>>, rings': seq<seq<OutPt>>)
    requires TotalArea(rings') == TotalArea(rings)
    ensures AreaKept(rings, rings')
  {
  }

  // ---------------------------------------------------------------- two records become one

  /** All is well but for the rings `i1` and `i2`, which have been joined to the ring `a`. */
  ghost predicate JoinOpen(recs: seq<OutRec>, rings: seq<seq<OutPt>>, owner: map<OutPt, nat>, fwd: Merges,
                           i1: nat, i2: nat, a: seq<OutPt>)
    reads recs`Pts, recs`Idx, recs`FirstLeft, owner.Keys`Next, owner.Keys`Prev, owner.Keys`Idx
    reads a`Next, a`Prev, a`Idx
  {
    && |rings| == |recs| && i1 < |recs| && i2 < |recs| && i1 != i2 && rings[i1] != [] && rings[i2] != [] && Owned(rings, owner)
    && (forall j :: 0 <= j < |recs| ==> recs[j].Id == j)
    && (forall j :: 0 <= j < |recs| && j != i1 && j != i2 ==> Holds(recs[j], rings[j]))
    && Forwarding(recs, rings, fwd) && Resolving(rings, owner, fwd) && LeftsOk(recs)
    && Holds(recs[i1], a) && a != []
    && JoinedPieces(rings, owner, i1, i2, a) && JoinedForward(owner, fwd, i1, i2, a)
  }

  /** Every point of `a` comes from one of the two rings, or is new. */
  ghost predicate JoinedPieces(rings: seq<seq<OutPt>>, owner: map<OutPt, nat>, i1: nat, i2: nat, a: seq<OutPt>)
    requires i1 < |rings| && i2 < |rings|
  {
    forall k :: 0 <= k < |a| ==> a[k] in rings[i1] || a[k] in rings[i2] || a[k] !in owner
  }

  /** The points of `a` that are new forward to one of the two records. */
  ghost predicate JoinedForward(owner: map<OutPt, nat>, fwd: Merges, i1: nat, i2: nat, a: seq<OutPt>)
    requires fwd.Ok()
    reads a`Idx
  {
    forall k :: 0 <= k < |a| && a[k] !in owner ==>
      a[k].Idx < |fwd.parent| && (fwd.Root(a[k].Idx) == i1 || fwd.Root(a[k].Idx) == i2)
  }

  /** The owners after all points of `a` have gone over to `i1`. */
  ghost function Gained(owner: map<OutPt, nat>, i1: nat, i2: nat, a: seq<OutPt>): map<OutPt, nat> {
    map p | p in owner.Keys + (set x | x in a) :: if p in a || owner[p] == i2 then i1 else owner[p]
  }

  lemma JoinLinked(recs: seq<OutRec>, rings: seq<seq<OutPt>>, owner: map<OutPt, nat>, i1: nat, i2: nat, a: seq<OutPt>)
    requires |rings| == |recs| && i1 < |recs| && i2 < |recs| && i1 != i2 && Owned(rings, owner)
    requires forall j :: 0 <= j < |recs| ==> recs[j].Id == j
    requires forall j :: 0 <= j < |recs| && j != i1 && j != i2 ==> Holds(recs[j], rings[j])
    requires JoinedPieces(rings, owner, i1, i2, a)
    requires Holds(recs[i1], a) && recs[i2].Pts == null
    ensures Linked(recs, rings[i1 := a][i2 := []], Gained(owner, i1, i2, a))
  {
    var rings': seq<seq<OutPt>> := rings[i1 := a][i2 := []];
    var owner' := Gained(owner, i1, i2, a);
    forall j, k | 0 <= j < |rings'| && 0 <= k < |rings'[j]| ensures rings'[j][k] in owner' && owner'[rings'[j][k]] == j {
      var p := rings'[j][k];
      if j == i1 {
        assert p in a;
      } else {
        assert p == rings[j][k] && owner[p] == j;
        NotJoined(rings, owner, i1, i2, j, k, a);
      }
    }
  }

  lemma NotJoined(rings: seq<seq<OutPt>>, owner: map<OutPt, nat>, i1: nat, i2: nat, j: nat, k: nat, a: seq<OutPt>)
    requires Owned(rings, owner) && i1 < |rings| && i2 < |rings| && j < |rings| && i1 != j && i2 != j && k < |rings[j]|
    requires JoinedPieces(rings, owner, i1, i2, a)
    ensures rings[j][k] !in a
  {
    var p := rings[j][k];
    forall n | 0 <= n < |a| ensures a[n] != p {
      if a[n] in rings[i1] {
        var m :| 0 <= m < |rings[i1]| && rings[i1][m] == a[n];
        assert owner[rings[i1][m]] == i1;
      } else if a[n] in rings[i2] {
        var m :| 0 <= m < |rings[i2]| && rings[i2][m] == a[n];
        assert owner[rings[i2][m]] == i2;
      }
    }
  }

  /** The records forward as before, but for `i2`, which forwards to `i1`. */
  ghost predicate Redirected(recs: seq<OutRec>, rings: seq<seq<OutPt>>, fwd: Merges, i1: nat, i2: nat)
    requires i1 < |recs| && i2 < |recs| && |fwd.parent| == |recs| == |rings|
    reads recs`Idx
  {
    && fwd.parent[i1] == i1 && fwd.parent[i2] == i2
    && (forall i :: 0 <= i < |recs| ==> recs[i].Idx == if i == i2 then i1 else fwd.parent[i])
    && (forall i :: 0 <= i < |recs| && rings[i] != [] ==> fwd.parent[i] == i)
  }

  lemma JoinForwarding(recs: seq<OutRec>, rings: seq<seq<OutPt>>, owner: map<OutPt, nat>, owner': map<OutPt, nat>, fwd: Merges,
                       i1: nat, i2: nat, a: seq<OutPt>)
    requires Owned(rings, owner) && fwd.Ok() && |fwd.parent| == |recs| == |rings| && Resolving(rings, owner, fwd)
    requires i1 < |recs| && i2 < |recs| && i1 != i2 && rings[i1] != []
    requires Redirected(recs, rings, fwd, i1, i2)
    requires JoinedPieces(rings, owner, i1, i2, a) && JoinedForward(owner, fwd, i1, i2, a)
    requires Owned(rings[i1 := a][i2 := []], owner')
    ensures Forwarding(recs, rings[i1 := a][i2 := []], fwd.Link(i1, i2))
    ensures Resolving(rings[i1 := a][i2 := []], owner', fwd.Link(i1, i2))
  {
    var rings': seq<seq<OutPt>> := rings[i1 := a][i2 := []];
    var m := fwd.Link(i1, i2);
    fwd.LinkOk(i1, i2);
    forall i, k | 0 <= i < |rings'| && 0 <= k < |rings'[i]|
      ensures rings'[i][k].Idx < |m.parent| && m.Root(rings'[i][k].Idx) == i
    {
      var p := rings'[i][k];
      if i == i1 {
        assert p == a[k];
        if p in rings[i1] {
          var n :| 0 <= n < |rings[i1]| && rings[i1][n] == p;
        } else if p in rings[i2] {
          var n :| 0 <= n < |rings[i2]| && rings[i2][n] == p;
        }
      } else {
        assert rings'[i] == rings[i];
      }
      fwd.LinkRoot(i1, i2, p.Idx);
    }
  }

  /** All is well again but for the links to the left: `i1` holds the joined ring and `i2` forwards to it. */
  ghost predicate Absorbed(recs: seq<OutRec>, rings: seq<seq<OutPt>>, owner: map<OutPt, nat>, fwd: Merges,
                           i1: nat, i2: nat, a: seq<OutPt>)
    reads recs`Pts, recs`Idx, owner.Keys`Next, owner.Keys`Prev, owner.Keys`Idx, a`Next, a`Prev, a`Idx
  {
    && |fwd.parent| == |rings| == |recs| && i1 < |recs| && i2 < |recs| && i1 != i2 && rings[i1] != [] && Owned(rings, owner)
    && (forall j :: 0 <= j < |recs| ==> recs[j].Id == j)
    && (forall j :: 0 <= j < |recs| && j != i1 && j != i2 ==> Holds(recs[j], rings[j]))
    && Holds(recs[i1], a) && recs[i2].Pts == null
    && fwd.Ok() && Redirected(recs, rings, fwd, i1, i2) && Resolving(rings, owner, fwd)
    && JoinedPieces(rings, owner, i1, i2, a) && JoinedForward(owner, fwd, i1, i2, a)
  }

  lemma AbsorbedDone(recs: seq<OutRec>, rings: seq<seq<OutPt>>, owner: map<OutPt, nat>, fwd: Merges, i1: nat, i2: nat, a: seq<OutPt>)
    requires Absorbed(recs, rings, owner, fwd, i1, i2, a)
    ensures var rings', owner' := rings[i1 := a][i2 := []], Gained(owner, i1, i2, a);
      && Linked(recs, rings', owner') && Forwarding(recs, rings', fwd.Link(i1, i2)) && fwd.Link(i1, i2).Ok()
      && Resolving(rings', owner', fwd.Link(i1, i2))
  {
    hide Owned, Holds, Resolving, JoinedPieces, JoinedForward, Gained, Redirected;
    JoinLinked(recs, rings, owner, i1, i2, a);
    LinkedIds(recs, rings[i1 := a][i2 := []], Gained(owner, i1, i2, a));
    JoinForwarding(recs, rings, owner, Gained(owner, i1, i2, a), fwd, i1, i2, a);
  }

  method Absorb(outRec1: OutRec, outRec2: OutRec, ghost recs: seq<OutRec>, ghost rings: seq<seq<OutPt>>, ghost owner: map<OutPt, nat>,
                ghost fwd: Merges, ghost i1: nat, ghost i2: nat, ghost a: seq<OutPt>)
    requires JoinOpen(recs, rings, owner, fwd, i1, i2, a) && recs[i1] == outRec1 && recs[i2] == outRec2
    modifies outRec2`Pts, outRec2`Idx
    ensures Absorbed(recs, rings, owner, fwd, i1, i2, a) && LeftsOk(recs)
  {
    hide Owned, Holds, Resolving, LeftsOk, JoinedPieces, JoinedForward;
    outRec2.Pts := null;
    outRec2.Idx := outRec1.Idx;
  }

  /** Completes a join: `outRec1` keeps the joined ring and `outRec2` forwards to it. */
  method MergeRecords(outs: OutRecList, outRec1: OutRec, outRec2: OutRec, fromSecond: bool, ghost i1: nat, ghost i2: nat, ghost a: seq<OutPt>)
    requires JoinOpen(outs.m_PolyOuts, outs.Rings, outs.Owner, outs.Forward, i1, i2, a)
    requires outs.m_PolyOuts[i1] == outRec1 && outs.m_PolyOuts[i2] == outRec2
    requires HoleChoice(LeftsOf(outs.m_PolyOuts), i1, i2, if fromSecond then i2 else i1)
    modifies outs, outRec1, outRec2
    ensures outs.Valid() && outs.m_PolyOuts == old(outs.m_PolyOuts)
    ensures Ranked(old(HierarchyOf(outs.m_PolyOuts)), HierarchyOf(outs.m_PolyOuts), i1, i2, if fromSecond then i2 else i1)
    ensures outs.Rings == old(outs.Rings)[i1 := a][i2 := []]
    ensures outs.Owner == Gained(old(outs.Owner), i1, i2, a)
  {
    hide Owned, Linked, Forwarding, Resolving, LeftsOk, HoleChoice, JoinOpen, Gained, Settled, Ranked, HierarchyOf;
    ghost var recs, rings, owner, fwd := outs.m_PolyOuts, outs.Rings, outs.Owner, outs.Forward;
    JoinOpenShape(recs, rings, owner, fwd, i1, i2, a);
    ghost var rings': seq<seq<OutPt>> := rings[i1 := a][i2 := []];
    MergeLinked(outRec1, outRec2, fromSecond, recs, rings, owner, fwd, i1, i2, a);
    outs.Rings, outs.Owner, outs.Forward := rings', Gained(owner, i1, i2, a), fwd.Link(i1, i2);
    SettledValid(outs);
  }

  /** All that is known of the records. */
  ghost predicate Settled(recs: seq<OutRec>, rings: seq<seq<OutPt>>, owner: map<OutPt, nat>, fwd: Merges)
    reads recs`Pts, recs`Idx, recs`FirstLeft, owner.Keys`Next, owner.Keys`Prev, owner.Keys`Idx
  {
    Linked(recs, rings, owner) && Forwarding(recs, rings, fwd) && Resolving(rings, owner, fwd) && LeftsOk(recs)
  }

  lemma SettledValid(outs: OutRecList)
    requires Settled(outs.m_PolyOuts, outs.Rings, outs.Owner, outs.Forward)
    ensures outs.Valid()
  {
  }

  lemma JoinOpenShape(recs: seq<OutRec>, rings: seq<seq<OutPt>>, owner: map<OutPt, nat>, fwd: Merges,
                      i1: nat, i2: nat, a: seq<OutPt>)
    requires JoinOpen(recs, rings, owner, fwd, i1, i2, a)
    ensures |rings| == |recs| && i1 < |recs| && i2 < |recs| && recs[i1] != recs[i2] && |fwd.parent| == |fwd.died| == |recs|
    ensures forall j :: 0 <= j < |recs| ==> recs[j].Id == j
  {
  }

  method MergeLinked(outRec1: OutRec, outRec2: OutRec, fromSecond: bool, ghost recs: seq<OutRec>, ghost rings: seq<seq<OutPt>>,
                     ghost owner: map<OutPt, nat>, ghost fwd: Merges, ghost i1: nat, ghost i2: nat, ghost a: seq<OutPt>)
    requires JoinOpen(recs, rings, owner, fwd, i1, i2, a) && recs[i1] == outRec1 && recs[i2] == outRec2
    requires HoleChoice(LeftsOf(recs), i1, i2, if fromSecond then i2 else i1)
    modifies outRec1, outRec2
    ensures |rings| == |recs| && i1 < |recs| && i2 < |recs| && |fwd.parent| == |fwd.died| == |recs|
    ensures Settled(recs, rings[i1 := a][i2 := []], Gained(owner, i1, i2, a), fwd.Link(i1, i2))
    ensures Ranked(old(HierarchyOf(recs)), HierarchyOf(recs), i1, i2, if fromSecond then i2 else i1)
  {
    hide Owned, Linked, Forwarding, Resolving, LeftsOk, HoleChoice, JoinOpen, Gained, Absorbed, Ranked, HierarchyOf;
    JoinOpenShape(recs, rings, owner, fwd, i1, i2, a);
    Absorb(outRec1, outRec2, recs, rings, owner, fwd, i1, i2, a);
    AbsorbedDone(recs, rings, owner, fwd, i1, i2, a);
    ghost var rings': seq<seq<OutPt>> := rings[i1 := a][i2 := []];
    ghost var owner': map<OutPt, nat> := Gained(owner, i1, i2, a);
    LinkedIds(recs, rings', owner');
    assert Linked(recs, rings', owner') && Forwarding(recs, rings', fwd.Link(i1, i2)) && Resolving(rings', owner', fwd.Link(i1, i2));
    MergeHoleState(outRec1, outRec2, fromSecond, recs);
  }

  // ---------------------------------------------------------------- one join

  /** What is known of a point on ring `i`. */
  lemma StandingFacts(outs: OutRecList, i: nat, k: nat, p: OutPt)
    requires outs.Valid() && StandsAt(outs.Rings, i, k, p)
    ensures i < |outs.m_PolyOuts| == |outs.Rings| && k < |outs.Rings[i]| && outs.Rings[i][k] == p
    ensures outs.m_PolyOuts[i].Id == i && outs.m_PolyOuts[i].Pts == outs.Rings[i][0] && IsRing(outs.Rings[i])
    ensures p.Idx < |outs.Forward.parent| == |outs.m_PolyOuts| && outs.Forward.Ok() && outs.Forward.Root(p.Idx) == i
    ensures forall j :: 0 <= j < |outs.Rings[i]| ==> outs.Rings[i][j] in outs.Owner
  {
    ListedAt(outs.m_PolyOuts, outs.Rings, outs.Owner, outs.m_PolyOuts[i]);
    OwnedRing(outs.Rings, outs.Owner, i);
  }

  /** A cut that `JoinPoints` has made is one that a record split can complete. */
  lemma CutPieces(rings: seq<seq<OutPt>>, owner: map<OutPt, nat>, fwd: Merges, i: nat, a: seq<OutPt>, b: seq<OutPt>, p: OutPt, q: OutPt)
    requires i < |rings| && fwd.Ok() && CutInto(rings[i], a, b, p, q) && p !in owner && q !in owner
    requires p.Idx < |fwd.parent| && fwd.Root(p.Idx) == i && q.Idx < |fwd.parent| && fwd.Root(q.Idx) == i
    ensures IsRing(a) && IsRing(b) && Apart(a, b)
    ensures PieceOf(rings, owner, i, a) && PieceOf(rings, owner, i, b)
    requires forall k :: 0 <= k < |rings[i]| ==> rings[i][k] in owner
    ensures NewForward(owner, fwd, i, a) && NewForward(owner, fwd, i, b)
  {
    forall k | 0 <= k < |a| ensures a[k] in rings[i] || a[k] == p || a[k] == q {
      assert a[k] in a;
    }
    forall k | 0 <= k < |b| ensures b[k] in rings[i] || b[k] == p || b[k] == q {
      assert b[k] in b;
    }
    forall x | x in rings[i] ensures x in owner {
      var m :| 0 <= m < |rings[i]| && rings[i][m] == x;
    }
    hide IsRing;
  }

  lemma JoinPieces(rings: seq<seq<OutPt>>, owner: map<OutPt, nat>, fwd: Merges, i1: nat, i2: nat, a: seq<OutPt>, p: OutPt, q: OutPt)
    returns (a': seq<OutPt>)
    requires i1 < |rings| && i2 < |rings| && rings[i1] != [] && fwd.Ok() && JoinedTo(rings[i1], rings[i2], a, p, q) && p !in owner && q !in owner
    requires p.Idx < |fwd.parent| && fwd.Root(p.Idx) == i1 && q.Idx < |fwd.parent| && fwd.Root(q.Idx) == i2
    requires forall k :: 0 <= k < |rings[i1]| ==> rings[i1][k] in owner
    requires forall k :: 0 <= k < |rings[i2]| ==> rings[i2][k] in owner
    ensures IsRing(a') && a'[0] == rings[i1][0] && Turn(a, a')
    ensures JoinedPieces(rings, owner, i1, i2, a') && JoinedForward(owner, fwd, i1, i2, a')
    ensures forall x :: x in rings[i1] || x in rings[i2] ==> x in a'
    ensures forall k :: 0 <= k < |a'| ==> a'[k] in owner || a'[k] == p || a'[k] == q
  {
    hide IsRing, Rotate;
    assert rings[i1][0] in a;
    var t :| 0 <= t < |a| && a[t] == rings[i1][0];
    a' := Rotate(a, t);
    RotateRing(a, t);
    RotateMembers(a, t);
    forall k | 0 <= k < |a'| ensures a'[k] in a {
      assert a'[k] in a';
    }
  }

  /** Everything about the records but the rings `i1` and `i2`. */
  ghost predicate RestOk(recs: seq<OutRec>, rings: seq<seq<OutPt>>, owner: map<OutPt, nat>, fwd: Merges, i1: nat, i2: nat)
    reads recs`Pts, recs`Idx, recs`FirstLeft, owner.Keys`Next, owner.Keys`Prev, owner.Keys`Idx
  {
    && |rings| == |recs| && i1 < |recs| && i2 < |recs| && rings[i1] != [] && rings[i2] != [] && Owned(rings, owner)
    && (forall j :: 0 <= j < |recs| ==> recs[j].Id == j)
    && (forall j :: 0 <= j < |recs| && j != i1 && j != i2 ==> Holds(recs[j], rings[j]))
    && Forwarding(recs, rings, fwd) && Resolving(rings, owner, fwd) && LeftsOk(recs)
    && recs[i1].Pts == rings[i1][0] && recs[i2].Pts == rings[i2][0]
  }

  /** What linking the rings `r1` and `r2` has come to: cut into `a` and `b`, joined to `a`, or left alone. */
  ghost predicate LinkedUp(join: Join, ok: bool, same: bool, r1: seq<OutPt>, k1: nat, r2: seq<OutPt>, k2: nat,
                           a: seq<OutPt>, b: seq<OutPt>, p: OutPt, q: OutPt)
    requires k1 < |r1| && k2 < |r2| && (same ==> r1 == r2)
    reads r1`Next, r1`Prev, r2`Next, r2`Prev, a`Next, a`Prev, b`Next, b`Prev, join.OutPt1`Idx, join.OutPt2`Idx, p`Idx, q`Idx
  {
    var d := JoinDecision(join, same, Places(r1), k1, Places(r2), k2);
    && ok == d.0
    && (!ok ==> IsRing(r1) && IsRing(r2))
    && (ok ==> Doubles(p, q, join.OutPt1, join.OutPt2))
    && (ok && same ==> CutInto(r1, a, b, p, q) && a[0] == join.OutPt1 && b[0] == p && (a, b) == Pieces(r1, k1, k2, d.1, p, q))
    && (ok && !same ==> JoinedTo(r1, r2, a, p, q) && a == Chained(r1, k1, r2, k2, d.1, p, q))
  }

  /** The rings of a join, relinked; the records follow later. */
  method LinkPoints(outs: OutRecList, join: Join, same: bool, ghost i1: nat, ghost k1: nat, ghost i2: nat, ghost k2: nat)
    returns (ok: bool, op1b: OutPt, ghost op2b: OutPt, ghost a: seq<OutPt>, ghost b: seq<OutPt>)
    requires outs.Valid() && StandsAt(outs.Rings, i1, k1, join.OutPt1) && StandsAt(outs.Rings, i2, k2, join.OutPt2)
    requires Joinable(join) && (same <==> i1 == i2)
    modifies outs.Rings[i1]`Next, outs.Rings[i1]`Prev, outs.Rings[i2]`Next, outs.Rings[i2]`Prev
    ensures RestOk(outs.m_PolyOuts, outs.Rings, outs.Owner, outs.Forward, i1, i2)
    ensures LinkedUp(join, ok, same, outs.Rings[i1], k1, outs.Rings[i2], k2, a, b, op1b, op2b)
    ensures ok ==> fresh(op1b) && fresh(op2b) && ResolvesTo(outs.Forward, i1, op1b) && ResolvesTo(outs.Forward, i2, op2b)
  {
    BeforeLinking(outs, join, i1, k1, i2, k2);
    ResolveAlike(outs, i1, k1, join.OutPt1);
    ResolveAlike(outs, i2, k2, join.OutPt2);
    hide OutRecList.Valid, StandsAt, IsRing, LinkedUp, Joinable, Apart, RestOk;
    ok, op1b, op2b, a, b := LinkOnly(join, same, outs.m_PolyOuts, outs.Rings, outs.Owner, outs.Forward, i1, k1, i2, k2);
  }

  method LinkOnly(join: Join, same: bool, ghost recs: seq<OutRec>, ghost rings: seq<seq<OutPt>>, ghost owner: map<OutPt, nat>, ghost fwd: Merges,
                  ghost i1: nat, ghost k1: nat, ghost i2: nat, ghost k2: nat)
    returns (ok: bool, op1b: OutPt, ghost op2b: OutPt, ghost a: seq<OutPt>, ghost b: seq<OutPt>)
    requires RestOk(recs, rings, owner, fwd, i1, i2) && Joinable(join) && (same <==> i1 == i2)
    requires IsRing(rings[i1]) && k1 < |rings[i1]| && rings[i1][k1] == join.OutPt1
    requires IsRing(rings[i2]) && k2 < |rings[i2]| && rings[i2][k2] == join.OutPt2
    requires i1 != i2 ==> Apart(rings[i1], rings[i2])
    modifies rings[i1]`Next, rings[i1]`Prev, rings[i2]`Next, rings[i2]`Prev
    ensures RestOk(recs, rings, owner, fwd, i1, i2)
    ensures LinkedUp(join, ok, same, rings[i1], k1, rings[i2], k2, a, b, op1b, op2b)
    ensures ok ==> fresh(op1b) && fresh(op2b) && op1b.Idx == join.OutPt1.Idx && op2b.Idx == join.OutPt2.Idx
  {
    hide Holds, IsRing, Owned, Resolving, LeftsOk, Forwarding, CutInto, JoinedTo, Joinable, Apart, JoinDecision, Pieces, Chained;
    ok, op1b, op2b, a, b := JoinPoints(join, same, rings[i1], k1, rings[i2], k2);
    assert LinkedUp(join, ok, same, rings[i1], k1, rings[i2], k2, a, b, op1b, op2b);
    hide LinkedUp;
    forall j | 0 <= j < |recs| && j != i1 && j != i2 ensures Holds(recs[j], rings[j]) {
      ApartFromBoth(rings, owner, i1, i2, j);
      assert old(Holds(recs[j], rings[j]));
    }
  }

  lemma ApartFromBoth(rings: seq<seq<OutPt>>, owner: map<OutPt, nat>, i1: nat, i2: nat, j: nat)
    requires Owned(rings, owner) && i1 < |rings| && i2 < |rings| && j < |rings| && j != i1 && j != i2
    ensures forall k :: 0 <= k < |rings[j]| ==> rings[j][k] !in rings[i1] && rings[j][k] !in rings[i2]
  {
    RingsApart(rings, owner, i1, j);
    RingsApart(rings, owner, i2, j);
    ApartAt(rings[i1], rings[j]);
    ApartAt(rings[i2], rings[j]);
  }

  lemma BeforeLinking(outs: OutRecList, join: Join, i1: nat, k1: nat, i2: nat, k2: nat)
    requires outs.Valid() && StandsAt(outs.Rings, i1, k1, join.OutPt1) && StandsAt(outs.Rings, i2, k2, join.OutPt2)
    ensures RestOk(outs.m_PolyOuts, outs.Rings, outs.Owner, outs.Forward, i1, i2)
    ensures k1 < |outs.Rings[i1]| && outs.Rings[i1][k1] == join.OutPt1 && IsRing(outs.Rings[i1])
    ensures k2 < |outs.Rings[i2]| && outs.Rings[i2][k2] == join.OutPt2 && IsRing(outs.Rings[i2])
    ensures i1 != i2 ==> Apart(outs.Rings[i1], outs.Rings[i2])
  {
    StandingFacts(outs, i1, k1, join.OutPt1);
    StandingFacts(outs, i2, k2, join.OutPt2);
    if i1 != i2 {
      RingsApart(outs.Rings, outs.Owner, i1, i2);
    }
  }

  lemma RestApart(recs: seq<OutRec>, rings: seq<seq<OutPt>>, owner: map<OutPt, nat>, i1: nat, i2: nat)
    requires Owned(rings, owner) && i1 < |rings| && i2 < |rings|
    ensures forall j, k :: 0 <= j < |rings| && j != i1 && j != i2 && 0 <= k < |rings[j]| ==>
      rings[j][k] !in rings[i1] && rings[j][k] !in rings[i2]
  {
    forall j | 0 <= j < |rings| && j != i1 && j != i2
      ensures forall k :: 0 <= k < |rings[j]| ==> rings[j][k] !in rings[i1] && rings[j][k] !in rings[i2]
    {
      RingsApart(rings, owner, i1, j);
      RingsApart(rings, owner, i2, j);
      ApartAt(rings[i1], rings[j]);
      ApartAt(rings[i2], rings[j]);
    }
  }

  /** A cut of ring `i` is ready to be completed. */
  lemma CutReady(recs: seq<OutRec>, rings: seq<seq<OutPt>>, owner: map<OutPt, nat>, fwd: Merges, i: nat,
                 a: seq<OutPt>, b: seq<OutPt>, p: OutPt, q: OutPt)
    requires RestOk(recs, rings, owner, fwd, i, i) && CutInto(rings[i], a, b, p, q) && p !in owner && q !in owner
    requires p.Idx < |fwd.parent| && fwd.Root(p.Idx) == i && q.Idx < |fwd.parent| && fwd.Root(q.Idx) == i
    ensures CutOpen(recs, rings, owner, fwd, i, a, b)
    ensures forall x :: x in rings[i] ==> x in a || x in b
    ensures forall k :: 0 <= k < |a| ==> a[k] in owner || a[k] == p || a[k] == q
    ensures forall k :: 0 <= k < |b| ==> b[k] in owner || b[k] == p || b[k] == q
  {
    OwnedRing(rings, owner, i);
    CutPieces(rings, owner, fwd, i, a, b, p, q);
    hide Owned, Resolving, LeftsOk, Forwarding, Holds;
    forall x | x in a || x in b ensures x in owner || x == p || x == q {
      if x in rings[i] {
        var m :| 0 <= m < |rings[i]| && rings[i][m] == x;
      }
    }
  }

  /** A join of two rings is ready to be completed. */
  lemma JoinReady(recs: seq<OutRec>, rings: seq<seq<OutPt>>, owner: map<OutPt, nat>, fwd: Merges, i1: nat, i2: nat,
                  a: seq<OutPt>, p: OutPt, q: OutPt) returns (a': seq<OutPt>)
    requires RestOk(recs, rings, owner, fwd, i1, i2) && i1 != i2 && JoinedTo(rings[i1], rings[i2], a, p, q) && p !in owner && q !in owner
    requires p.Idx < |fwd.parent| && fwd.Root(p.Idx) == i1 && q.Idx < |fwd.parent| && fwd.Root(q.Idx) == i2
    ensures JoinOpen(recs, rings, owner, fwd, i1, i2, a') && Turn(a, a') && a' != [] && a'[0] == rings[i1][0]
    ensures forall x :: x in rings[i1] || x in rings[i2] ==> x in a'
    ensures forall k :: 0 <= k < |a'| ==> a'[k] in owner || a'[k] == p || a'[k] == q
  {
    OwnedRing(rings, owner, i1);
    OwnedRing(rings, owner, i2);
    a' := JoinPieces(rings, owner, fwd, i1, i2, a, p, q);
    RingEnds(a');
    HoldsRing(recs[i1], a');
    hide Owned, Resolving, LeftsOk, Forwarding, Holds;
  }

  // ---------------------------------------------------------------- orientation

  lemma BackwardsTurned<T>(r: seq<T>)
    requires r != []
    ensures Rotate(Reverse(r), |r| - 1) == [r[0]] + Reverse(r[1..])
  {
    assert Reverse(r) == Reverse(r[1..]) + [r[0]];
    TurnedLast(Reverse(r[1..]), r[0]);
  }

  lemma TurnedLast<T>(s: seq<T>, x: T)
    ensures Rotate(s + [x], |s|) == [x] + s
  {
  }

  lemma BackwardsFacts(r: seq<OutPt>)
    requires r != []
    ensures Rotate(Reverse(r), |r| - 1) == Backwards(r)
    ensures RingArea(Backwards(r)) == -RingArea(r)
    ensures forall x :: x in Backwards(r) <==> x in r
  {
    hide Rotate, Reverse;
    BackwardsTurned(r);
    assert Places(Reverse(r)) == Reverse(Places(r));
    AreaReverse(Places(r));
    AreaRotated(Reverse(r), |r| - 1);
    ReverseMembers(r);
    RotateMembers(Reverse(r), |r| - 1);
  }

  /** All is well once ring `i` has been relinked to `b`, which has the same points and the same start. */
  lemma RingRelinked(recs: seq<OutRec>, rings: seq<seq<OutPt>>, owner: map<OutPt, nat>, fwd: Merges, i: nat, b: seq<OutPt>)
    requires RestOk(recs, rings, owner, fwd, i, i) && IsRing(b) && b[0] == rings[i][0]
    requires forall x :: x in b ==> x in rings[i]
    ensures Linked(recs, rings[i := b], owner) && Forwarding(recs, rings[i := b], fwd) && fwd.Ok()
    ensures Resolving(rings[i := b], owner, fwd)
  {
    OwnedRing(rings, owner, i);
    RingEnds(b);
    HoldsRing(recs[i], b);
    hide Owned, Resolving, Forwarding, Holds, IsRing;
    forall k | 0 <= k < |b| ensures b[k] in rings[i] && b[k] in owner && owner[b[k]] == i {
      assert b[k] in b;
      var m :| 0 <= m < |rings[i]| && rings[i][m] == b[k];
    }
    ReplaceRing(recs, rings, owner, owner, i, b);
    LinkedIds(recs, rings[i := b], owner);
    ForwardingShape(recs, rings, fwd);
    ReplaceResolving(recs, rings, owner, owner, fwd, i, b);
  }

  lemma BeforeReversing(outs: OutRecList, i: nat)
    requires outs.Valid() && i < |outs.m_PolyOuts| && i < |outs.Rings| && outs.Rings[i] != []
    ensures RestOk(outs.m_PolyOuts, outs.Rings, outs.Owner, outs.Forward, i, i) && IsRing(outs.Rings[i])
    ensures outs.m_PolyOuts[i].Pts == outs.Rings[i][0]
    ensures forall k :: 0 <= k < |outs.Rings[i]| ==> outs.Rings[i][k] in outs.Owner
    ensures forall j, k :: 0 <= j < |outs.Rings| && j != i && 0 <= k < |outs.Rings[j]| ==> outs.Rings[j][k] !in outs.Rings[i]
  {
    StandingFacts(outs, i, 0, outs.Rings[i][0]);
    RestApart(outs.m_PolyOuts, outs.Rings, outs.Owner, i, i);
  }

  /** Walks the ring of record `i` the other way from now on. */
  method ReverseLinks(pp: OutPt, ghost r: seq<OutPt>)
    requires IsRing(r) && pp == r[0]
    modifies r`Next, r`Prev
    ensures IsRing(Backwards(r))
  {
    ReversePolyPtLinks(pp, r);
    hide IsRing;
    BackwardsFacts(r);
    RotateRing(Reverse(r), |r| - 1);
  }

  method ReverseRecord(outs: OutRecList, outRec: OutRec, ghost i: nat)
    requires outs.Valid() && i < |outs.m_PolyOuts| && i < |outs.Rings| && outs.Rings[i] != [] && outs.m_PolyOuts[i] == outRec
    requires outRec.Pts != null
    modifies outs`Rings, outs.Rings[i]`Next, outs.Rings[i]`Prev
    ensures outs.Valid() && outs.Rings == old(outs.Rings)[i := Backwards(old(outs.Rings[i]))]
  {
    hide OutRecList.Valid, Holds, IsRing, Owned, Resolving, LeftsOk, Forwarding, Backwards;
    BeforeReversing(outs, i);
    ghost var rings: seq<seq<OutPt>> := outs.Rings;
    ghost var r := rings[i];
    ReverseLinks(outRec.Pts, r);
    FinishReversal(outs, i, r);
  }

  ghost method FinishReversal(outs: OutRecList, i: nat, r: seq<OutPt>)
    requires RestOk(outs.m_PolyOuts, outs.Rings, outs.Owner, outs.Forward, i, i) && r == outs.Rings[i] && IsRing(Backwards(r))
    modifies outs`Rings
    ensures outs.Valid() && outs.Rings == old(outs.Rings)[i := Backwards(r)]
  {
    hide IsRing, Backwards, Holds, Owned, Resolving, LeftsOk, Forwarding, Linked;
    ghost var rings': seq<seq<OutPt>> := outs.Rings[i := Backwards(r)];
    BackwardsMembers(r);
    RingRelinked(outs.m_PolyOuts, outs.Rings, outs.Owner, outs.Forward, i, Backwards(r));
    LinkedIds(outs.m_PolyOuts, rings', outs.Owner);
    assert LeftsOk(outs.m_PolyOuts);
    hide RestOk;
    outs.Rings := rings';
  }

  lemma BackwardsMembers(r: seq<OutPt>)
    requires r != []
    ensures Backwards(r)[0] == r[0] && forall x :: x in Backwards(r) ==> x in r
  {
    BackwardsFacts(r);
  }

  /** Outer polygons turn one way and holes the other: reverses a polygon that turns the wrong way. */
  method Orient(outs: OutRecList, outRec: OutRec, reverseOutput: bool, ghost i: nat) returns (ghost b: seq<OutPt>)
    requires outs.Valid() && i < |outs.m_PolyOuts| && i < |outs.Rings| && outs.Rings[i] != [] && outs.m_PolyOuts[i] == outRec
    modifies outs`Rings, outs.Rings[i]`Next, outs.Rings[i]`Prev
    ensures outs.Valid() && outs.Rings == old(outs.Rings)[i := b]
    ensures b == old(outs.Rings[i]) || b == Backwards(old(outs.Rings[i]))
    ensures RingArea(b) == 0 || (RingArea(b) < 0 <==> (outRec.IsHole != reverseOutput))
  {
    BeforeReversing(outs, i);
    hide OutRecList.Valid, RestOk, IsRing, Backwards, RingArea;
    ghost var r := outs.Rings[i];
    var area := RingAreaOf(outRec.Pts, r);
    b := r;
    if (outRec.IsHole != reverseOutput) == (area > 0) {
      ReverseRecord(outs, outRec, i);
      b := Backwards(r);
      Opposed(r);
    }
  }

  lemma Opposed(r: seq<OutPt>)
    requires r != []
    ensures RingArea(Backwards(r)) == -RingArea(r)
  {
    BackwardsFacts(r);
  }

  method RingAreaOf(op: OutPt, ghost r: seq<OutPt>) returns (a: int)
    requires IsRing(r) && op == r[0]
    ensures a == RingArea(r)
  {
    a := Area(op, r);
  }

  // ---------------------------------------------------------------- JoinCommonEdges

  /** The ring of the record turns the way its hole flag demands, if it encloses anything. */
  ghost predicate WellTurned(r: seq<OutPt>, isHole: bool, reverseOutput: bool) {
    RingArea(r) == 0 || (RingArea(r) < 0 <==> isHole != reverseOutput)
  }

  /** A record is cut in two; whichever of the two lies inside the other is turned the way it should be. */
  method FinishCut(outs: OutRecList, outRec1: OutRec, op1: OutPt, op1b: OutPt, reverseOutput: bool,
                   ghost i: nat, ghost a: seq<OutPt>, ghost b: seq<OutPt>)
    requires CutOpen(outs.m_PolyOuts, outs.Rings, outs.Owner, outs.Forward, i, a, b)
    requires outs.m_PolyOuts[i] == outRec1 && op1 == a[0] && op1b == b[0]
    modifies outs, outRec1, a`Next, a`Prev, b`Idx, b`Next, b`Prev
    ensures outs.Valid() && |outs.m_PolyOuts| == |old(outs.m_PolyOuts)| + 1 && Extends(old(outs.m_PolyOuts), outs.m_PolyOuts)
    ensures fresh(outs.m_PolyOuts[|old(outs.m_PolyOuts)|])
    ensures RingCut(old(outs.Rings), outs.Rings, i, a, b)
    ensures Placed(NestingOf(Places(a), Places(b)), old(HierarchyOf(outs.m_PolyOuts)), HierarchyOf(outs.m_PolyOuts), i)
    ensures NestingOf(Places(a), Places(b)) == SecondInside ==>
      WellTurned(outs.Rings[|old(outs.Rings)|], outs.m_PolyOuts[|old(outs.Rings)|].IsHole, reverseOutput)
    ensures NestingOf(Places(a), Places(b)) == FirstInside ==> WellTurned(outs.Rings[i], outRec1.IsHole, reverseOutput)
    ensures outs.Owner == Divided(old(outs.Owner), i, |old(outs.m_PolyOuts)|, a, b)
  {
    hide Owned, Holds, Forwarding, Resolving, LeftsOk, IsRing, OutRecList.Valid, Divided, NestingOf, Backwards, RingArea, Placed, HierarchyOf;
    ghost var n := |outs.m_PolyOuts|;
    CutShape(outs, i, a, b);
    hide CutOpen;
    var outRec2, nesting := SplitRecord(outs, outRec1, op1, op1b, i, a, b);
    ghost var c;
    match nesting {
      case SecondInside =>
        c := Orient(outs, outRec2, reverseOutput, n);
      case FirstInside =>
        c := Orient(outs, outRec1, reverseOutput, i);
      case Beside =>
    }
  }

  lemma CutShape(outs: OutRecList, i: nat, a: seq<OutPt>, b: seq<OutPt>)
    requires CutOpen(outs.m_PolyOuts, outs.Rings, outs.Owner, outs.Forward, i, a, b)
    ensures i < |outs.m_PolyOuts| == |outs.Rings| && a != [] && b != []
  {
  }

  /** The two records of a join, found through the indices on its points. */
  method FindRecords(outs: OutRecList, join: Join, ghost i1: nat, ghost k1: nat, ghost i2: nat, ghost k2: nat)
    returns (outRec1: OutRec, outRec2: OutRec)
    requires outs.Valid() && StandsAt(outs.Rings, i1, k1, join.OutPt1) && StandsAt(outs.Rings, i2, k2, join.OutPt2)
    ensures i1 < |outs.m_PolyOuts| && i2 < |outs.m_PolyOuts| && |outs.Rings| == |outs.m_PolyOuts|
    ensures outRec1 == outs.m_PolyOuts[i1] && outRec2 == outs.m_PolyOuts[i2]
    ensures outRec1.Id == i1 && outRec2.Id == i2
    ensures outRec1.Pts != null && outRec2.Pts != null
    ensures forall j :: 0 <= j < |outs.m_PolyOuts| ==> outs.m_PolyOuts[j].Id == j
  {
    StandingFacts(outs, i1, k1, join.OutPt1);
    StandingFacts(outs, i2, k2, join.OutPt2);
    outRec1 := outs.GetOutRec(join.OutPt1.Idx);
    outRec2 := outs.GetOutRec(join.OutPt2.Idx);
  }

  lemma ReadyPlaces(rings: seq<seq<OutPt>>, join: Join) returns (i1: nat, k1: nat, i2: nat, k2: nat)
    requires Ready(rings, join)
    ensures StandsAt(rings, i1, k1, join.OutPt1) && StandsAt(rings, i2, k2, join.OutPt2) && Joinable(join)
  {
    i1, k1 :| 0 <= i1 < |rings| && 0 <= k1 < |rings[i1]| && rings[i1][k1] == join.OutPt1;
    i2, k2 :| 0 <= i2 < |rings| && 0 <= k2 < |rings[i2]| && rings[i2][k2] == join.OutPt2;
  }

  /** Where a join finds its two points, and which record and which nesting decided about the hierarchy. */
  datatype JoinEvent = JoinEvent(i1: nat, k1: nat, i2: nat, k2: nat, hole: nat, nesting: Nesting)

  /** What a join does to the hierarchy: a polygon that is cut gets a second record, and of two polygons that are joined one record is left. */
  ghost predicate HierarchyStep(join: Join, rings: seq<seq<OutPt>>, h: Hierarchy, h': Hierarchy, ev: JoinEvent) {
    && StandsAt(rings, ev.i1, ev.k1, join.OutPt1) && StandsAt(rings, ev.i2, ev.k2, join.OutPt2)
    && if !JoinDecision(join, ev.i1 == ev.i2, Places(rings[ev.i1]), ev.k1, Places(rings[ev.i2]), ev.k2).0 then h' == h
       else if ev.i1 == ev.i2 then Placed(ev.nesting, h, h', ev.i1)
       else Ranked(h, h', ev.i1, ev.i2, ev.hole)
  }

  /**
   Carries out one join: the polygons of its two points become one, or the polygon that both
   are on is cut in two. All that is known of the records holds again.
   */
  method JoinOne(outs: OutRecList, join: Join, reverseOutput: bool) returns (ghost ev: JoinEvent)
    requires outs.Valid() && Ready(outs.Rings, join)
    modifies outs, outs.m_PolyOuts, outs.Owner.Keys
    ensures outs.Valid() && Extends(old(outs.m_PolyOuts), outs.m_PolyOuts)
    ensures JoinStep(join, old(outs.Rings), outs.Rings)
    ensures AllPoints(old(outs.Rings)) <= AllPoints(outs.Rings)
    ensures forall j :: |old(outs.m_PolyOuts)| <= j < |outs.m_PolyOuts| ==> fresh(outs.m_PolyOuts[j])
    ensures fresh(outs.Owner.Keys - old(outs.Owner.Keys))
    ensures HierarchyStep(join, old(outs.Rings), old(HierarchyOf(outs.m_PolyOuts)), HierarchyOf(outs.m_PolyOuts), ev)
  {
    hide OutRecList.Valid, StandsAt, AllPoints, Ready, HoleChoice, JoinStep, HierarchyStep, HierarchyOf;
    ghost var i1, k1, i2, k2 := ReadyPlaces(outs.Rings, join);
    var outRec1, outRec2 := FindRecords(outs, join, i1, k1, i2, k2);
    var fromSecond := false;
    if outRec1 != outRec2 {
      fromSecond := outs.HoleStateFromSecond(outRec1, outRec2);
    }
    ghost var nesting := JoinFound(outs, join, outRec1, outRec2, fromSecond, reverseOutput, i1, k1, i2, k2);
    ev := JoinEvent(i1, k1, i2, k2, if fromSecond then i2 else i1, nesting);
  }

  method JoinFound(outs: OutRecList, join: Join, outRec1: OutRec, outRec2: OutRec, fromSecond: bool, reverseOutput: bool,
                   ghost i1: nat, ghost k1: nat, ghost i2: nat, ghost k2: nat) returns (ghost nesting: Nesting)
    requires outs.Valid() && StandsAt(outs.Rings, i1, k1, join.OutPt1) && StandsAt(outs.Rings, i2, k2, join.OutPt2) && Joinable(join)
    requires i1 < |outs.m_PolyOuts| && i2 < |outs.m_PolyOuts|
    requires outRec1 == outs.m_PolyOuts[i1] && outRec2 == outs.m_PolyOuts[i2] && outRec1.Id == i1 && outRec2.Id == i2
    requires outRec1 != outRec2 ==> HoleChoice(LeftsOf(outs.m_PolyOuts), i1, i2, if fromSecond then i2 else i1)
    modifies outs, outs.m_PolyOuts, outs.Owner.Keys
    ensures outs.Valid() && Extends(old(outs.m_PolyOuts), outs.m_PolyOuts)
    ensures JoinStep(join, old(outs.Rings), outs.Rings)
    ensures AllPoints(old(outs.Rings)) <= AllPoints(outs.Rings)
    ensures forall j :: |old(outs.m_PolyOuts)| <= j < |outs.m_PolyOuts| ==> fresh(outs.m_PolyOuts[j])
    ensures fresh(outs.Owner.Keys - old(outs.Owner.Keys))
    ensures HierarchyStep(join, old(outs.Rings), old(HierarchyOf(outs.m_PolyOuts)), HierarchyOf(outs.m_PolyOuts),
                          JoinEvent(i1, k1, i2, k2, if fromSecond then i2 else i1, nesting))
  {
    hide OutRecList.Valid, AllPoints, Joinable, HoleChoice, JoinStep, LinkedUp, RestOk, ResolvesTo, CutPlaces, CutOpen, CutInto, Divided;
    hide HierarchyOf, Placed, Ranked, NestingOf, JoinDecision;
    RingsKnown(outs, i1, i2);
    ghost var rings := outs.Rings;
    nesting := Beside;
    var ok, op1b;
    ghost var op2b, a, b;
    ok, op1b, op2b, a, b := LinkPoints(outs, join, outRec1 == outRec2, i1, k1, i2, k2);
    LinkedWhen(join, ok, outRec1 == outRec2, rings[i1], k1, rings[i2], k2, a, b, op1b, op2b);
    ghost var owner := outs.Owner;
    if !ok {
      NothingLinked(outs, join, i1, k1, i2, k2, a, b, op1b, op2b);
    } else if outRec1 == outRec2 {
      CutAfter(outs, join, i1, k1, k2, a, b, op1b, op2b);
      DividedKeys(owner, i1, |outs.m_PolyOuts|, a, b);
      nesting := NestingOf(Places(a), Places(b));
      CompleteCut(outs, join, outRec1, op1b, reverseOutput, i1, k1, k2, op2b, a, b);
    } else {
      CompleteJoin(outs, join, outRec1, outRec2, fromSecond, i1, k1, i2, k2, op1b, op2b, a, b);
    }
  }

  lemma LinkedWhen(join: Join, ok: bool, same: bool, r1: seq<OutPt>, k1: nat, r2: seq<OutPt>, k2: nat, a: seq<OutPt>, b: seq<OutPt>, p: OutPt, q: OutPt)
    requires k1 < |r1| && k2 < |r2| && (same ==> r1 == r2) && LinkedUp(join, ok, same, r1, k1, r2, k2, a, b, p, q)
    ensures ok == JoinDecision(join, same, Places(r1), k1, Places(r2), k2).0
  {
  }

  lemma RingsKnown(outs: OutRecList, i1: nat, i2: nat)
    requires outs.Valid() && i1 < |outs.m_PolyOuts| && i2 < |outs.m_PolyOuts|
    ensures |outs.Rings| == |outs.m_PolyOuts|
    ensures forall k :: 0 <= k < |outs.Rings[i1]| ==> outs.Rings[i1][k] in outs.Owner
    ensures forall k :: 0 <= k < |outs.Rings[i2]| ==> outs.Rings[i2][k] in outs.Owner
  {
  }

  /** The ring that has been cut in two is made over to two records. */
  method CompleteCut(outs: OutRecList, join: Join, outRec1: OutRec, op1b: OutPt, reverseOutput: bool,
                     ghost i: nat, ghost k1: nat, ghost k2: nat, ghost op2b: OutPt, ghost a: seq<OutPt>, ghost b: seq<OutPt>)
    requires CutOpen(outs.m_PolyOuts, outs.Rings, outs.Owner, outs.Forward, i, a, b) && a != [] && b != []
    requires outs.m_PolyOuts[i] == outRec1 && join.OutPt1 == a[0] && op1b == b[0]
    requires StandsAt(outs.Rings, i, k1, join.OutPt1) && StandsAt(outs.Rings, i, k2, join.OutPt2)
    requires CutPlaces(join, outs.Rings[i], k1, k2, a, b, op1b, op2b) && op1b !in outs.Owner && op2b !in outs.Owner
    modifies outs, outRec1, a`Next, a`Prev, b`Idx, b`Next, b`Prev
    ensures outs.Valid() && Extends(old(outs.m_PolyOuts), outs.m_PolyOuts)
    ensures JoinStep(join, old(outs.Rings), outs.Rings)
    ensures Placed(NestingOf(Places(a), Places(b)), old(HierarchyOf(outs.m_PolyOuts)), HierarchyOf(outs.m_PolyOuts), i)
    ensures AllPoints(old(outs.Rings)) <= AllPoints(outs.Rings)
    ensures forall j :: |old(outs.m_PolyOuts)| <= j < |outs.m_PolyOuts| ==> fresh(outs.m_PolyOuts[j])
    ensures outs.Owner == Divided(old(outs.Owner), i, |old(outs.m_PolyOuts)|, a, b)
  {
    hide OutRecList.Valid, AllPoints, JoinStep, CutOpen, RingCut, CutPlaces, Owned, Divided, NestingOf, WellTurned, Placed, HierarchyOf;
    ghost var rings, owner := outs.Rings, outs.Owner;
    CutOwned(outs, i, a, b);
    FinishCut(outs, outRec1, join.OutPt1, op1b, reverseOutput, i, a, b);
    CutMade(join, rings, outs.Rings, owner, i, k1, k2, a, b, op1b, op2b);
  }

  lemma CutOwned(outs: OutRecList, i: nat, a: seq<OutPt>, b: seq<OutPt>)
    requires CutOpen(outs.m_PolyOuts, outs.Rings, outs.Owner, outs.Forward, i, a, b)
    ensures Owned(outs.Rings, outs.Owner)
  {
  }

  /** The joined ring is made over to the first record. */
  method CompleteJoin(outs: OutRecList, join: Join, outRec1: OutRec, outRec2: OutRec, fromSecond: bool,
                      ghost i1: nat, ghost k1: nat, ghost i2: nat, ghost k2: nat, ghost p: OutPt, ghost q: OutPt,
                      ghost a: seq<OutPt>, ghost b: seq<OutPt>)
    requires RestOk(outs.m_PolyOuts, outs.Rings, outs.Owner, outs.Forward, i1, i2) && i1 != i2
    requires outs.m_PolyOuts[i1] == outRec1 && outs.m_PolyOuts[i2] == outRec2
    requires StandsAt(outs.Rings, i1, k1, join.OutPt1) && StandsAt(outs.Rings, i2, k2, join.OutPt2)
    requires LinkedUp(join, true, false, outs.Rings[i1], k1, outs.Rings[i2], k2, a, b, p, q)
    requires p !in outs.Owner && ResolvesTo(outs.Forward, i1, p) && q !in outs.Owner && ResolvesTo(outs.Forward, i2, q)
    requires HoleChoice(LeftsOf(outs.m_PolyOuts), i1, i2, if fromSecond then i2 else i1)
    modifies outs, outRec1, outRec2
    ensures outs.Valid() && outs.m_PolyOuts == old(outs.m_PolyOuts)
    ensures JoinStep(join, old(outs.Rings), outs.Rings)
    ensures Ranked(old(HierarchyOf(outs.m_PolyOuts)), HierarchyOf(outs.m_PolyOuts), i1, i2, if fromSecond then i2 else i1)
    ensures AllPoints(old(outs.Rings)) <= AllPoints(outs.Rings)
    ensures forall x :: x in outs.Owner ==> x in old(outs.Owner) || x == p || x == q
  {
    ghost var rings, owner := outs.Rings, outs.Owner;
    hide OutRecList.Valid, AllPoints, JoinStep, LinkedUp, RestOk, ResolvesTo, JoinOpen, RingsChained, JoinPlaces, Owned, Gained, Turn, HoleChoice, JoinedTo, Ranked, HierarchyOf;
    RestOwned(outs.m_PolyOuts, rings, owner, outs.Forward, i1, i2);
    JoinMeans(join, rings[i1], k1, rings[i2], k2, a, b, p, q);
    ghost var a' := JoinAfter(outs, i1, i2, a, p, q);
    MergeRecords(outs, outRec1, outRec2, fromSecond, i1, i2, a');
    GainedKeys(owner, i1, i2, a');
    JoinedMade(join, rings, outs.Rings, owner, i1, k1, i2, k2, a, a', p, q);
  }

  lemma RestOwned(recs: seq<OutRec>, rings: seq<seq<OutPt>>, owner: map<OutPt, nat>, fwd: Merges, i1: nat, i2: nat)
    requires RestOk(recs, rings, owner, fwd, i1, i2)
    ensures Owned(rings, owner) && |rings| == |recs| && i1 < |rings| && i2 < |rings|
  {
  }

  lemma DividedKeys(owner: map<OutPt, nat>, i: nat, n: nat, a: seq<OutPt>, b: seq<OutPt>)
    ensures forall x :: x in Divided(owner, i, n, a, b) ==> x in owner || x in a || x in b
  {
  }

  lemma GainedKeys(owner: map<OutPt, nat>, i1: nat, i2: nat, a: seq<OutPt>)
    ensures forall x :: x in Gained(owner, i1, i2, a) ==> x in owner || x in a
  {
  }

  /** When nothing has been relinked, all is well as before. */
  lemma NothingLinked(outs: OutRecList, join: Join, i1: nat, k1: nat, i2: nat, k2: nat, a: seq<OutPt>, b: seq<OutPt>, p: OutPt, q: OutPt)
    requires RestOk(outs.m_PolyOuts, outs.Rings, outs.Owner, outs.Forward, i1, i2)
    requires StandsAt(outs.Rings, i1, k1, join.OutPt1) && StandsAt(outs.Rings, i2, k2, join.OutPt2)
    requires LinkedUp(join, false, i1 == i2, outs.Rings[i1], k1, outs.Rings[i2], k2, a, b, p, q)
    ensures outs.Valid() && JoinStep(join, outs.Rings, outs.Rings)
  {
    hide JoinDecision;
    assert JoinMade(join, outs.Rings, outs.Rings, i1, k1, i2, k2);
  }

  /** A cut of ring `r` at these places. */
  ghost predicate CutPlaces(join: Join, r: seq<OutPt>, k1: nat, k2: nat, a: seq<OutPt>, b: seq<OutPt>, p: OutPt, q: OutPt)
    requires k1 < |r| && k2 < |r|
  {
    var d := JoinDecision(join, true, Places(r), k1, Places(r), k2);
    && d.0 && (a, b) == Pieces(r, k1, k2, d.1, p, q) && Gathered(a, b, r, [], p, q)
    && p != q && p.Pt == join.OutPt1.Pt && q.Pt == join.OutPt2.Pt
  }

  lemma CutMeans(join: Join, r: seq<OutPt>, k1: nat, k2: nat, a: seq<OutPt>, b: seq<OutPt>, p: OutPt, q: OutPt)
    requires k1 < |r| && k2 < |r| && LinkedUp(join, true, true, r, k1, r, k2, a, b, p, q)
    ensures CutPlaces(join, r, k1, k2, a, b, p, q) && CutInto(r, a, b, p, q) && a != [] && b != [] && a[0] == join.OutPt1 && b[0] == p
  {
    hide JoinDecision, Pieces, Gathered;
  }

  lemma CutMade(join: Join, rings: seq<seq<OutPt>>, rings': seq<seq<OutPt>>, owner: map<OutPt, nat>,
                i: nat, k1: nat, k2: nat, a: seq<OutPt>, b: seq<OutPt>, p: OutPt, q: OutPt)
    requires Owned(rings, owner) && p !in owner && q !in owner
    requires StandsAt(rings, i, k1, join.OutPt1) && StandsAt(rings, i, k2, join.OutPt2)
    requires CutPlaces(join, rings[i], k1, k2, a, b, p, q) && RingCut(rings, rings', i, a, b)
    ensures JoinStep(join, rings, rings') && AllPoints(rings) <= AllPoints(rings')
  {
    NotOnRings(rings, owner, p);
    NotOnRings(rings, owner, q);
    CutKeepsPoints(rings, rings', i, a, b);
    hide JoinDecision, Pieces, AllPoints, RingCut, Owned;
    var d := JoinDecision(join, true, Places(rings[i]), k1, Places(rings[i]), k2);
    assert Rejoined(join, rings, rings', i, k1, i, k2, d.1, p, q);
    assert JoinMade(join, rings, rings', i, k1, i, k2);
  }

  lemma NotOnRings(rings: seq<seq<OutPt>>, owner: map<OutPt, nat>, p: OutPt)
    requires Owned(rings, owner) && p !in owner
    ensures p !in AllPoints(rings)
  {
  }

  lemma CutKeepsPoints(rings: seq<seq<OutPt>>, rings': seq<seq<OutPt>>, i: nat, a: seq<OutPt>, b: seq<OutPt>)
    requires RingCut(rings, rings', i, a, b) && forall x :: x in rings[i] ==> x in a || x in b
    ensures AllPoints(rings) <= AllPoints(rings')
    ensures forall x :: x in a || x in b ==> x in AllPoints(rings')
  {
    hide Backwards, NestingOf, AllPoints;
    var n := |rings|;
    BackwardsFacts(a);
    BackwardsFacts(b);
    AllPointsCut(rings, i, rings'[i], rings'[n]);
    forall x | x in a || x in b ensures x in AllPoints(rings') {
      AtPlace(rings', if x in a then i else n, x);
    }
  }

  /** A join of two rings at these places. */
  ghost predicate JoinPlaces(join: Join, r1: seq<OutPt>, k1: nat, r2: seq<OutPt>, k2: nat, a: seq<OutPt>, p: OutPt, q: OutPt)
    requires k1 < |r1| && k2 < |r2|
  {
    var d := JoinDecision(join, false, Places(r1), k1, Places(r2), k2);
    && d.0 && a == Chained(r1, k1, r2, k2, d.1, p, q) && Gathered(a, [], r1, r2, p, q)
    && p != q && p.Pt == join.OutPt1.Pt && q.Pt == join.OutPt2.Pt
  }

  lemma JoinMeans(join: Join, r1: seq<OutPt>, k1: nat, r2: seq<OutPt>, k2: nat, a: seq<OutPt>, b: seq<OutPt>, p: OutPt, q: OutPt)
    requires k1 < |r1| && k2 < |r2| && LinkedUp(join, true, false, r1, k1, r2, k2, a, b, p, q)
    ensures JoinPlaces(join, r1, k1, r2, k2, a, p, q) && JoinedTo(r1, r2, a, p, q)
  {
    hide JoinDecision, Chained, Gathered;
  }

  lemma JoinedMade(join: Join, rings: seq<seq<OutPt>>, rings': seq<seq<OutPt>>, owner: map<OutPt, nat>,
                   i1: nat, k1: nat, i2: nat, k2: nat, a: seq<OutPt>, a': seq<OutPt>, p: OutPt, q: OutPt)
    requires Owned(rings, owner) && p !in owner && q !in owner && i1 != i2
    requires StandsAt(rings, i1, k1, join.OutPt1) && StandsAt(rings, i2, k2, join.OutPt2)
    requires JoinPlaces(join, rings[i1], k1, rings[i2], k2, a, p, q)
    requires Turn(a, a') && a' != [] && a'[0] == rings[i1][0] && rings' == rings[i1 := a'][i2 := []]
    ensures JoinStep(join, rings, rings') && AllPoints(rings) <= AllPoints(rings')
  {
    NotOnRings(rings, owner, p);
    NotOnRings(rings, owner, q);
    TurnMembers(a, a');
    hide JoinDecision, Chained, Owned, Turn, AllPoints;
    AllPointsMerged(rings, i1, i2, a');
    AtPlace(rings', i1, p);
    AtPlace(rings', i1, q);
    var d := JoinDecision(join, false, Places(rings[i1]), k1, Places(rings[i2]), k2);
    assert RingsChained(rings, rings', i1, i2, a);
    assert Rejoined(join, rings, rings', i1, k1, i2, k2, d.1, p, q);
    assert JoinMade(join, rings, rings', i1, k1, i2, k2);
  }

  lemma TurnMembers<T>(a: seq<T>, a': seq<T>)
    requires Turn(a, a')
    ensures forall x :: x in a' <==> x in a
  {
    var t :| 0 <= t <= |a| && a' == Rotate(a, t);
    RotateMembers(a, t);
  }

  /** The index on `p` leads to record `i`. */
  ghost predicate ResolvesTo(fwd: Merges, i: nat, p: OutPt)
    reads p`Idx
  {
    fwd.Ok() && p.Idx < |fwd.parent| && fwd.Root(p.Idx) == i
  }

  lemma ResolveAlike(outs: OutRecList, i: nat, k: nat, p: OutPt)
    requires outs.Valid() && StandsAt(outs.Rings, i, k, p)
    ensures ResolvesTo(outs.Forward, i, p)
  {
    StandingFacts(outs, i, k, p);
  }

  /** A cut is ready to be completed. */
  lemma CutAfter(outs: OutRecList, join: Join, i: nat, k1: nat, k2: nat, a: seq<OutPt>, b: seq<OutPt>, p: OutPt, q: OutPt)
    requires RestOk(outs.m_PolyOuts, outs.Rings, outs.Owner, outs.Forward, i, i)
    requires k1 < |outs.Rings[i]| && k2 < |outs.Rings[i]| && LinkedUp(join, true, true, outs.Rings[i], k1, outs.Rings[i], k2, a, b, p, q)
    requires p !in outs.Owner && q !in outs.Owner && ResolvesTo(outs.Forward, i, p) && ResolvesTo(outs.Forward, i, q)
    ensures CutOpen(outs.m_PolyOuts, outs.Rings, outs.Owner, outs.Forward, i, a, b) && a != [] && b != []
    ensures a[0] == join.OutPt1 && b[0] == p && CutPlaces(join, outs.Rings[i], k1, k2, a, b, p, q)
    ensures forall k :: 0 <= k < |a| ==> a[k] in outs.Owner || a[k] == p || a[k] == q
    ensures forall k :: 0 <= k < |b| ==> b[k] in outs.Owner || b[k] == p || b[k] == q
  {
    hide CutInto, CutOpen, Owned, Holds, Forwarding, Resolving, LeftsOk, CutPlaces, LinkedUp;
    CutMeans(join, outs.Rings[i], k1, k2, a, b, p, q);
    CutReady(outs.m_PolyOuts, outs.Rings, outs.Owner, outs.Forward, i, a, b, p, q);
    CutShape(outs, i, a, b);
  }

  lemma JoinAfter(outs: OutRecList, i1: nat, i2: nat, a: seq<OutPt>, p: OutPt, q: OutPt) returns (a': seq<OutPt>)
    requires RestOk(outs.m_PolyOuts, outs.Rings, outs.Owner, outs.Forward, i1, i2) && i1 != i2
    requires JoinedTo(outs.Rings[i1], outs.Rings[i2], a, p, q)
    requires p !in outs.Owner && q !in outs.Owner && ResolvesTo(outs.Forward, i1, p) && ResolvesTo(outs.Forward, i2, q)
    ensures JoinOpen(outs.m_PolyOuts, outs.Rings, outs.Owner, outs.Forward, i1, i2, a') && Turn(a, a')
    ensures i1 < |outs.Rings| && outs.Rings[i1] != [] && a' != [] && a'[0] == outs.Rings[i1][0]
    ensures forall x :: x in outs.Rings[i1] || x in outs.Rings[i2] ==> x in a'
    ensures forall k :: 0 <= k < |a'| ==> a'[k] in outs.Owner || a'[k] == p || a'[k] == q
  {
    hide JoinedTo, JoinOpen, Turn, Owned, Holds, Forwarding, Resolving, LeftsOk;
    a' := JoinReady(outs.m_PolyOuts, outs.Rings, outs.Owner, outs.Forward, i1, i2, a, p, q);
  }

  /** The rings before and after each of the joins, which are carried out one after the other. */
  ghost predicate JoinRun(joins: seq<Join>, trace: seq<seq<seq<OutPt>>>) {
    && |trace| == |joins| + 1
    && (forall i :: 0 <= i < |joins| ==> JoinStep(joins[i], trace[i], trace[i + 1]))
  }

  /** The hierarchy before and after each of the joins. */
  ghost predicate RankRun(joins: seq<Join>, trace: seq<seq<seq<OutPt>>>, ranks: seq<Hierarchy>, evs: seq<JoinEvent>) {
    && |trace| == |ranks| == |joins| + 1 && |evs| == |joins|
    && (forall i :: 0 <= i < |joins| ==> HierarchyStep(joins[i], trace[i], ranks[i], ranks[i + 1], evs[i]))
  }

  lemma NextRank(joins: seq<Join>, trace: seq<seq<seq<OutPt>>>, ranks: seq<Hierarchy>, evs: seq<JoinEvent>,
                 join: Join, rings: seq<seq<OutPt>>, h: Hierarchy, ev: JoinEvent)
    requires JoinRun(joins, trace) && RankRun(joins, trace, ranks, evs)
    requires JoinStep(join, trace[|joins|], rings) && HierarchyStep(join, trace[|joins|], ranks[|joins|], h, ev)
    ensures JoinRun(joins + [join], trace + [rings]) && RankRun(joins + [join], trace + [rings], ranks + [h], evs + [ev])
  {
    hide JoinStep, HierarchyStep;
  }

  /** As long as no polygon has been cut, the joins leave the total area as it was. */
  lemma {:induction false} RunArea(joins: seq<Join>, trace: seq<seq<seq<OutPt>>>)
    requires JoinRun(joins, trace)
    ensures |trace[|joins|]| >= |trace[0]|
    ensures |trace[|joins|]| == |trace[0]| ==> TotalArea(trace[|joins|]) == TotalArea(trace[0])
  {
    hide JoinStep, TotalArea;
    if joins != [] {
      var n := |joins| - 1;
      RunArea(joins[..n], trace[..n + 1]);
      assert JoinStep(joins[n], trace[n], trace[n + 1]);
      StepArea(joins[n], trace[n], trace[n + 1]);
    }
  }

  /**
   Carries out all joins that the sweep has noted, each of them on what the ones before have
   left. Every record still resolves to the ring that holds its points, and the links to the
   left never close a circle.
   */
  method JoinCommonEdges(outs: OutRecList, m_Joins: seq<Join>, reverseOutput: bool)
    returns (ghost trace: seq<seq<seq<OutPt>>>, ghost ranks: seq<Hierarchy>, ghost evs: seq<JoinEvent>)
    requires outs.Valid() && AllReady(Notes(m_Joins, outs.Rings))
    modifies outs, outs.m_PolyOuts, outs.Owner.Keys
    ensures outs.Valid() && Extends(old(outs.m_PolyOuts), outs.m_PolyOuts)
    ensures JoinRun(m_Joins, trace) && trace[0] == old(outs.Rings) && trace[|m_Joins|] == outs.Rings
    ensures RankRun(m_Joins, trace, ranks, evs)
    ensures ranks[0] == old(HierarchyOf(outs.m_PolyOuts)) && ranks[|m_Joins|] == HierarchyOf(outs.m_PolyOuts)
    ensures AllPoints(old(outs.Rings)) <= AllPoints(outs.Rings)
    ensures forall j :: |old(outs.m_PolyOuts)| <= j < |outs.m_PolyOuts| ==> fresh(outs.m_PolyOuts[j])
    ensures fresh(outs.Owner.Keys - old(outs.Owner.Keys))
  {
    hide OutRecList.Valid, AllPoints, Joinable, JoinStep, HierarchyStep, HierarchyOf;
    var i := 0;
    trace, ranks, evs := [outs.Rings], [HierarchyOf(outs.m_PolyOuts)], [];
    while i < |m_Joins|
      invariant i <= |m_Joins| && outs.Valid() && Extends(old(outs.m_PolyOuts), outs.m_PolyOuts)
      invariant JoinRun(m_Joins[..i], trace) && trace[0] == old(outs.Rings) && trace[i] == outs.Rings
      invariant RankRun(m_Joins[..i], trace, ranks, evs)
      invariant ranks[0] == old(HierarchyOf(outs.m_PolyOuts)) && ranks[i] == HierarchyOf(outs.m_PolyOuts)
      invariant forall j :: |old(outs.m_PolyOuts)| <= j < |outs.m_PolyOuts| ==> fresh(outs.m_PolyOuts[j])
      invariant AllPoints(old(outs.Rings)) <= AllPoints(outs.Rings)
      invariant fresh(outs.Owner.Keys - old(outs.Owner.Keys))
    {
      ghost var ev := JoinOne(outs, m_Joins[i], reverseOutput);
      ghost var h := HierarchyOf(outs.m_PolyOuts);
      NextRank(m_Joins[..i], trace, ranks, evs, m_Joins[i], outs.Rings, h, ev);
      assert m_Joins[..i + 1] == m_Joins[..i] + [m_Joins[i]];
      trace, ranks, evs := trace + [outs.Rings], ranks + [h], evs + [ev];
      i := i + 1;
    }
    assert m_Joins[..i] == m_Joins;
  }
}
