/**
 The output records and the rings they hold.

 `Rings[i]` is the ring of record `i`, read from its `Pts`; it is empty once the record has
 been merged into another.  `Owner` names the record whose ring holds a point, and `Forward`
 describes the chains along which merged records resolve to living ones.
 */
module OutRecs {
  import opened ClipTypes
  import opened Sequences
  import opened OutPtRings
  import opened Forests

  class OutRec {
    const Id: nat             // the place of the record in the list
    var Idx: nat              // its own place, or that of the record that took it over
    var IsHole: bool
    var FirstLeft: OutRec?
    var Pts: OutPt?

    constructor (id: nat)
      ensures Id == id && Idx == id && !IsHole && FirstLeft == null && Pts == null
    {
      Id, Idx, IsHole, FirstLeft, Pts := id, id, false, null, null;
    }
  }

  // ---------------------------------------------------------------- rings

  /** Every point of ring `i` is owned by `i`; so no point is in two rings. */
  ghost predicate Owned(rings: seq<seq<OutPt>>, owner: map<OutPt, nat>) {
    forall i, k :: 0 <= i < |rings| && 0 <= k < |rings[i]| ==> rings[i][k] in owner && owner[rings[i][k]] == i
  }

  /** Record `rec` holds the ring `r`, or none when `r` is empty. */
  ghost predicate Holds(rec: OutRec, r: seq<OutPt>)
    reads rec`Pts, r`Next, r`Prev
  {
    if r == [] then rec.Pts == null else rec.Pts == r[0] && IsRing(r)
  }

  ghost predicate Linked(recs: seq<OutRec>, rings: seq<seq<OutPt>>, owner: map<OutPt, nat>)
    reads recs`Pts, owner.Keys`Next, owner.Keys`Prev
  {
    && |rings| == |recs| && Owned(rings, owner)
    && (forall i :: 0 <= i < |recs| ==> recs[i].Id == i)
    && (forall i :: 0 <= i < |recs| ==> Holds(recs[i], rings[i]))
  }

  // ---------------------------------------------------------------- forwarding

  /** The records forward as `fwd` says, and those that hold a ring are alive. */
  ghost predicate Forwarding(recs: seq<OutRec>, rings: seq<seq<OutPt>>, fwd: Merges)
    reads recs`Idx
  {
    && fwd.Ok() && |fwd.parent| == |recs| == |rings|
    && (forall i :: 0 <= i < |recs| ==> recs[i].Idx == fwd.parent[i])
    && (forall i :: 0 <= i < |recs| && rings[i] != [] ==> fwd.parent[i] == i)
  }

  /** The index written on a point resolves to the record whose ring holds it. */
  ghost predicate Resolving(rings: seq<seq<OutPt>>, owner: map<OutPt, nat>, fwd: Merges)
    requires Owned(rings, owner) && fwd.Ok()
    reads owner.Keys`Idx
  {
    forall i, k :: 0 <= i < |rings| && 0 <= k < |rings[i]| ==>
      rings[i][k].Idx < |fwd.parent| && fwd.Root(rings[i][k].Idx) == i
  }

  // ---------------------------------------------------------------- links to the left

  /** The place of the record to the left, or -1. */
  ghost function LeftOf(rec: OutRec): int
    reads rec`FirstLeft
  {
    if rec.FirstLeft == null then -1 else rec.FirstLeft.Id
  }

  ghost function LeftsOf(recs: seq<OutRec>): (s: seq<int>)
    reads recs`FirstLeft
    ensures |s| == |recs|
    ensures forall i :: 0 <= i < |recs| ==> s[i] == LeftOf(recs[i])
  {
    if recs == [] then [] else LeftsOf(recs[..|recs| - 1]) + [LeftOf(recs[|recs| - 1])]
  }

  ghost function Holes(recs: seq<OutRec>): (s: seq<bool>)
    reads recs`IsHole
    ensures |s| == |recs| && forall i :: 0 <= i < |recs| ==> s[i] == recs[i].IsHole
  {
    if recs == [] then [] else Holes(recs[..|recs| - 1]) + [recs[|recs| - 1].IsHole]
  }

  /** For every record the one it lies in, or -1, and whether it is a hole. */
  datatype Hierarchy = Hierarchy(lefts: seq<int>, holes: seq<bool>)

  ghost function HierarchyOf(recs: seq<OutRec>): Hierarchy
    reads recs`FirstLeft, recs`IsHole
  {
    Hierarchy(LeftsOf(recs), Holes(recs))
  }

  /** Record `i1` has taken over record `i2`; its place in the hierarchy is now that of record `hole`, an ancestor of the other if one is. */
  ghost predicate Ranked(h: Hierarchy, h': Hierarchy, i1: nat, i2: nat, hole: nat) {
    && InRange(h.lefts) && |h.holes| == |h.lefts| && i1 < |h.lefts| && i2 < |h.lefts| && hole < |h.lefts|
    && HoleChoice(h.lefts, i1, i2, hole)
    && h'.lefts == h.lefts[i1 := h.lefts[hole]][i2 := i1] && h'.holes == h.holes[i1 := h.holes[hole]]
  }

  /** The links to the left stay within the list and never run in a circle. */
  ghost predicate LeftsOk(recs: seq<OutRec>)
    reads recs`FirstLeft
  {
    && (forall i :: 0 <= i < |recs| ==> recs[i].FirstLeft == null || recs[i].FirstLeft in recs)
    && Acyclic(LeftsOf(recs))
  }

  lemma AddLinked(recs: seq<OutRec>, rings: seq<seq<OutPt>>, owner: map<OutPt, nat>, rec: OutRec, p: OutPt)
    requires Linked(recs, rings, owner) && p !in owner && rec.Id == |recs| && rec.Pts == p && p.Next == p.Prev == p
    ensures Linked(recs + [rec], rings + [[p]], owner[p := |recs|])
  {
    DistinctIsPairwise([p]);
    var recs', rings' := recs + [rec], rings + [[p]];
    forall i | 0 <= i < |recs'| ensures Holds(recs'[i], rings'[i]) {
      if i < |recs| { assert Holds(recs[i], rings[i]); }
    }
  }

  lemma AddForwarding(recs: seq<OutRec>, rings: seq<seq<OutPt>>, owner: map<OutPt, nat>, fwd: Merges, rec: OutRec, p: OutPt)
    requires Owned(rings, owner) && Forwarding(recs, rings, fwd) && Resolving(rings, owner, fwd)
    requires rec.Idx == p.Idx == |recs| && p !in owner
    ensures Forwarding(recs + [rec], rings + [[p]], fwd.Add())
    ensures Owned(rings + [[p]], owner[p := |recs|]) && Resolving(rings + [[p]], owner[p := |recs|], fwd.Add())
  {
    forall i | 0 <= i <= |recs| ensures fwd.Add().Ok() && fwd.Add().Root(i) == if i < |recs| then fwd.Root(i) else i {
      fwd.AddKeeps(i);
    }
  }

  lemma AddLeft(recs: seq<OutRec>, rec: OutRec)
    requires LeftsOk(recs) && (forall i :: 0 <= i < |recs| ==> recs[i].Id == i)
    requires rec.FirstLeft == null || rec.FirstLeft in recs
    ensures LeftsOk(recs + [rec])
  {
    AddKeepsAcyclic(LeftsOf(recs), LeftOf(rec));
    assert LeftsOf(recs + [rec]) == LeftsOf(recs) + [LeftOf(rec)];
  }

  /** Two rings have no point in common. */
  lemma RingsApart(rings: seq<seq<OutPt>>, owner: map<OutPt, nat>, i: nat, j: nat)
    requires Owned(rings, owner) && i < |rings| && j < |rings| && i != j
    ensures Apart(rings[i], rings[j])
  {
    forall x | x in rings[i] ensures x !in rings[j] {
      var k :| 0 <= k < |rings[i]| && rings[i][k] == x;
      assert owner[x] == i;
    }
  }

  lemma OwnedRing(rings: seq<seq<OutPt>>, owner: map<OutPt, nat>, i: nat)
    requires Owned(rings, owner) && i < |rings|
    ensures forall k :: 0 <= k < |rings[i]| ==> rings[i][k] in owner && owner[rings[i][k]] == i
  {
  }

  lemma HoldsRing(rec: OutRec, r: seq<OutPt>)
    requires r != []
    ensures Holds(rec, r) <==> rec.Pts == r[0] && IsRing(r)
  {
  }

  /** What is known of a record that is in the list and holds a ring. */
  lemma ListedAt(recs: seq<OutRec>, rings: seq<seq<OutPt>>, owner: map<OutPt, nat>, rec: OutRec)
    requires Linked(recs, rings, owner) && rec in recs
    ensures rec.Id < |recs| && recs[rec.Id] == rec
    ensures rings[rec.Id] != [] ==> rec.Pts == rings[rec.Id][0] && IsRing(rings[rec.Id])
  {
    assert Holds(recs[rec.Id], rings[rec.Id]);
  }

  /** A record that holds a ring is alive. */
  lemma Alive(recs: seq<OutRec>, rings: seq<seq<OutPt>>, fwd: Merges, i: nat)
    requires Forwarding(recs, rings, fwd) && i < |recs| && rings[i] != []
    ensures recs[i].Idx == i
  {
  }

  /** The records are linked again once ring `i` has been replaced by `r`, when nothing else was touched. */
  lemma ReplaceRing(recs: seq<OutRec>, rings: seq<seq<OutPt>>, owner: map<OutPt, nat>, owner': map<OutPt, nat>,
                    i: nat, r: seq<OutPt>)
    requires |rings| == |recs| && i < |recs| && Owned(rings, owner)
    requires forall j :: 0 <= j < |recs| ==> recs[j].Id == j
    requires forall j :: 0 <= j < |recs| && j != i ==> Holds(recs[j], rings[j])
    requires Holds(recs[i], r)
    requires forall p :: p in owner && owner[p] != i ==> p in owner' && owner'[p] == owner[p]
    requires forall k :: 0 <= k < |r| ==> r[k] in owner' && owner'[r[k]] == i
    ensures Linked(recs, rings[i := r], owner')
  {
  }

  /** A point of the living record `i` keeps everything resolved. */
  lemma ReplaceResolving(recs: seq<OutRec>, rings: seq<seq<OutPt>>, owner: map<OutPt, nat>, owner': map<OutPt, nat>, fwd: Merges,
                         i: nat, r: seq<OutPt>)
    requires |rings| == |recs| && i < |recs| && Owned(rings, owner) && Owned(rings[i := r], owner')
    requires Forwarding(recs, rings, fwd) && Resolving(rings, owner, fwd) && rings[i] != []
    requires forall k :: 0 <= k < |r| ==> r[k] in rings[i] || r[k].Idx == i
    ensures Forwarding(recs, rings[i := r], fwd) && Resolving(rings[i := r], owner', fwd)
  {
    forall k | 0 <= k < |r| ensures r[k].Idx < |fwd.parent| && fwd.Root(r[k].Idx) == i {
      if r[k] in rings[i] {
        var m :| 0 <= m < |rings[i]| && rings[i][m] == r[k];
      }
    }
  }

  /** `outRec2` is to the left of `outRec1`, directly or through others. */
  method OutRec1RightOfOutRec2(outRec1: OutRec, outRec2: OutRec, ghost recs: seq<OutRec>) returns (right: bool)
    requires LeftsOk(recs) && (forall i :: 0 <= i < |recs| ==> recs[i].Id == i)
    requires outRec1 in recs && outRec2 in recs
    ensures right <==> OnChain(LeftsOf(recs), LeftsOf(recs)[outRec1.Id], outRec2.Id)
  {
    ghost var s := LeftsOf(recs);
    ghost var i := outRec1.Id;
    assert EndsSomewhere(s, i);
    ghost var n: nat :| Ends(s, i, n);
    var rec := outRec1;
    while true
      invariant rec in recs && i == rec.Id && Ends(s, i, n)
      invariant OnChain(s, s[outRec1.Id], outRec2.Id) <==> OnChain(s, s[i], outRec2.Id)
      decreases n
    {
      var next := rec.FirstLeft;
      assert s[i] == LeftOf(rec);
      if next == outRec2 {
        OnChainStep(s, s[i], outRec2.Id);
        return true;
      }
      if next == null {
        return false;
      }
      OnChainStep(s, s[i], outRec2.Id);
      rec := next;
      i, n := s[i], n - 1;
    }
  }

  /**
   Merges the links of `outRec2` into those of `outRec1`. The test of `outRec2.FirstLeft`
   never fails when the hole state comes from `outRec2`.
   */
  method MergeHoleState(outRec1: OutRec, outRec2: OutRec, fromSecond: bool, ghost recs: seq<OutRec>)
    requires LeftsOk(recs) && (forall i :: 0 <= i < |recs| ==> recs[i].Id == i)
    requires outRec1 in recs && outRec2 in recs && outRec1 != outRec2
    requires HoleChoice(LeftsOf(recs), outRec1.Id, outRec2.Id, if fromSecond then outRec2.Id else outRec1.Id)
    modifies outRec1`FirstLeft, outRec1`IsHole, outRec2`FirstLeft
    ensures LeftsOk(recs)
    ensures outRec2.FirstLeft == outRec1
    ensures fromSecond ==> old(outRec2.FirstLeft) != outRec1 && outRec1.FirstLeft == old(outRec2.FirstLeft) && outRec1.IsHole == old(outRec2.IsHole)
    ensures !fromSecond ==> outRec1.FirstLeft == old(outRec1.FirstLeft) && outRec1.IsHole == old(outRec1.IsHole)
    ensures Ranked(old(HierarchyOf(recs)), HierarchyOf(recs), outRec1.Id, outRec2.Id, if fromSecond then outRec2.Id else outRec1.Id)
  {
    hide Acyclic, HoleChoice;
    ghost var s, h := LeftsOf(recs), HierarchyOf(recs);
    ghost var hole := if fromSecond then outRec2.Id else outRec1.Id;
    MergeKeepsAcyclic(s, outRec1.Id, outRec2.Id, hole);
    RelinkHoles(outRec1, outRec2, fromSecond);
    NowRanked(recs, h, outRec1.Id, outRec2.Id, hole);
  }

  method RelinkHoles(outRec1: OutRec, outRec2: OutRec, fromSecond: bool)
    requires outRec1 != outRec2
    modifies outRec1`FirstLeft, outRec1`IsHole, outRec2`FirstLeft
    ensures outRec2.FirstLeft == outRec1
    ensures outRec1.FirstLeft == if fromSecond && old(outRec2.FirstLeft) != outRec1 then old(outRec2.FirstLeft) else old(outRec1.FirstLeft)
    ensures outRec1.IsHole == if fromSecond then old(outRec2.IsHole) else old(outRec1.IsHole)
  {
    if fromSecond {
      if outRec2.FirstLeft != outRec1 {
        outRec1.FirstLeft := outRec2.FirstLeft;
      }
      outRec1.IsHole := outRec2.IsHole;
    }
    outRec2.FirstLeft := outRec1;
  }

  lemma NowRanked(recs: seq<OutRec>, h: Hierarchy, i1: nat, i2: nat, hole: nat)
    requires i1 < |recs| && i2 < |recs| && i1 != i2 && (hole == i1 || hole == i2) && recs[i1].Id == i1
    requires |h.lefts| == |h.holes| == |recs| && InRange(h.lefts)
    requires HoleChoice(h.lefts, i1, i2, hole) && (hole == i2 ==> h.lefts[i2] != i1)
    requires recs[i2].FirstLeft == recs[i1] && LeftOf(recs[i1]) == h.lefts[hole] && recs[i1].IsHole == h.holes[hole]
    requires forall i :: 0 <= i < |recs| && i != i1 ==> recs[i].IsHole == h.holes[i]
    requires forall i :: 0 <= i < |recs| && i != i1 && i != i2 ==> LeftOf(recs[i]) == h.lefts[i]
    ensures LeftsOf(recs) == MergeLefts(h.lefts, i1, i2, hole)
    ensures Ranked(h, HierarchyOf(recs), i1, i2, hole)
  {
    hide HoleChoice, InRange;
    assert Holes(recs) == h.holes[i1 := h.holes[hole]];
    assert LeftsOf(recs) == h.lefts[i1 := h.lefts[hole]][i2 := i1];
  }

  /** After record `i2` has been taken over by `i1`, whose ring `r` now holds the points of both. */
  lemma LinkForwarding(recs: seq<OutRec>, rings: seq<seq<OutPt>>, owner: map<OutPt, nat>, owner': map<OutPt, nat>, fwd: Merges,
                       i1: nat, i2: nat, r: seq<OutPt>)
    requires Owned(rings, owner) && fwd.Ok() && |fwd.parent| == |recs| == |rings| && Resolving(rings, owner, fwd)
    requires i1 < |recs| && i2 < |recs| && i1 != i2 && rings[i1] != []
    requires fwd.parent[i1] == i1 && fwd.parent[i2] == i2
    requires forall i :: 0 <= i < |recs| ==> recs[i].Idx == if i == i2 then i1 else fwd.parent[i]
    requires forall i :: 0 <= i < |recs| && rings[i] != [] ==> fwd.parent[i] == i
    requires forall p :: p in r ==> p in rings[i1] || p in rings[i2]
    requires Owned(rings[i1 := r][i2 := []], owner')
    ensures Forwarding(recs, rings[i1 := r][i2 := []], fwd.Link(i1, i2))
    ensures Resolving(rings[i1 := r][i2 := []], owner', fwd.Link(i1, i2))
  {
    var rings': seq<seq<OutPt>> := rings[i1 := r][i2 := []];
    var m := fwd.Link(i1, i2);
    fwd.LinkOk(i1, i2);
    forall i, k | 0 <= i < |rings'| && 0 <= k < |rings'[i]|
      ensures rings'[i][k].Idx < |m.parent| && m.Root(rings'[i][k].Idx) == i
    {
      var p := rings'[i][k];
      if i == i1 {
        assert p in r;
        var j := if p in rings[i1] then i1 else i2;
        var n :| 0 <= n < |rings[j]| && rings[j][n] == p;
      } else {
        assert rings'[i] == rings[i];
      }
      fwd.LinkRoot(i1, i2, p.Idx);
    }
  }

  lemma LinkAppended(recs: seq<OutRec>, rings: seq<seq<OutPt>>, owner: map<OutPt, nat>, fwd: Merges,
                     i1: nat, s1: EdgeSide, i2: nat, s2: EdgeSide)
    requires Owned(rings, owner) && fwd.Ok() && |fwd.parent| == |recs| == |rings| && Resolving(rings, owner, fwd)
    requires i1 < |recs| && i2 < |recs| && i1 != i2 && rings[i1] != [] && rings[i2] != []
    requires fwd.parent[i1] == i1 && fwd.parent[i2] == i2
    requires forall i :: 0 <= i < |recs| ==> recs[i].Idx == if i == i2 then i1 else fwd.parent[i]
    requires forall i :: 0 <= i < |recs| && rings[i] != [] ==> fwd.parent[i] == i
    requires Linked(recs, rings[i1 := Appended(rings[i1], s1, rings[i2], s2)][i2 := []], Reowned(owner, i1, i2))
    ensures var rings' := rings[i1 := Appended(rings[i1], s1, rings[i2], s2)][i2 := []];
      && Forwarding(recs, rings', fwd.Link(i1, i2))
      && Resolving(rings', Reowned(owner, i1, i2), fwd.Link(i1, i2))
  {
    AppendedEnds(rings[i1], s1, rings[i2], s2);
    LinkForwarding(recs, rings, owner, Reowned(owner, i1, i2), fwd, i1, i2, Appended(rings[i1], s1, rings[i2], s2));
  }

  /** The owners after ring `i2` has gone over to `i1`. */
  function Reowned(owner: map<OutPt, nat>, i1: nat, i2: nat): map<OutPt, nat> {
    map p | p in owner :: if owner[p] == i2 then i1 else owner[p]
  }

  /** The records are linked again once ring `i2` has been merged into ring `i1`. */
  lemma MergeRings(recs: seq<OutRec>, rings: seq<seq<OutPt>>, owner: map<OutPt, nat>, i1: nat, i2: nat, r: seq<OutPt>)
    requires |rings| == |recs| && i1 < |recs| && i2 < |recs| && i1 != i2 && Owned(rings, owner)
    requires forall j :: 0 <= j < |recs| ==> recs[j].Id == j
    requires forall j :: 0 <= j < |recs| && j != i1 && j != i2 ==> Holds(recs[j], rings[j])
    requires Holds(recs[i1], r) && recs[i2].Pts == null
    requires forall p :: p in r ==> p in rings[i1] || p in rings[i2]
    ensures Linked(recs, rings[i1 := r][i2 := []], Reowned(owner, i1, i2))
  {
    var rings': seq<seq<OutPt>> := rings[i1 := r][i2 := []];
    var owner' := Reowned(owner, i1, i2);
    forall i, k | 0 <= i < |rings'| && 0 <= k < |rings'[i]| ensures rings'[i][k] in owner' && owner'[rings'[i][k]] == i {
      var p := rings'[i][k];
      if i == i1 {
        assert p in r;
        var j := if p in rings[i1] then i1 else i2;
        var n :| 0 <= n < |rings[j]| && rings[j][n] == p;
      } else {
        assert rings'[i] == rings[i];
      }
    }
  }

  class OutRecList {
    var m_PolyOuts: seq<OutRec>
    ghost var Rings: seq<seq<OutPt>>
    ghost var Owner: map<OutPt, nat>
    ghost var Forward: Merges

    ghost predicate Valid()
      reads this, m_PolyOuts, Owner.Keys
    {
      && Linked(m_PolyOuts, Rings, Owner)
      && Forwarding(m_PolyOuts, Rings, Forward) && Resolving(Rings, Owner, Forward)
      && LeftsOk(m_PolyOuts)
    }

    lemma Sizes()
      requires Valid()
      ensures |Rings| == |m_PolyOuts|
    {
    }

    constructor ()
      ensures Valid() && m_PolyOuts == [] && Rings == [] && Owner == map[]
    {
      m_PolyOuts, Rings, Owner, Forward := [], [], map[], Merges([], [], 0);
    }

    /** The living record a possibly merged record has ended up in. */
    method GetOutRec(idx: nat) returns (outrec: OutRec)
      requires Valid() && idx < |m_PolyOuts|
      ensures outrec == m_PolyOuts[Forward.Root(idx)]
      ensures forall i, k :: 0 <= i < |Rings| && 0 <= k < |Rings[i]| && Rings[i][k].Idx == idx ==> outrec == m_PolyOuts[i]
    {
      outrec := m_PolyOuts[idx];
      while outrec != m_PolyOuts[outrec.Idx]
        invariant outrec.Id < |m_PolyOuts| && outrec == m_PolyOuts[outrec.Id]
        invariant Forward.Root(outrec.Id) == Forward.Root(idx)
        decreases Forward.clock - Forward.Until(outrec.Id)
      {
        outrec := m_PolyOuts[outrec.Idx];
      }
    }

    /** A new record with the single point `pt`, linked to the record to its left if there is one. */
    method NewRecord(pt: IntPoint, left: OutRec?) returns (outRec: OutRec, newOp: OutPt)
      requires Valid() && (left == null || left in m_PolyOuts)
      modifies this
      ensures Valid() && fresh(outRec) && fresh(newOp) && newOp.Pt == pt
      ensures m_PolyOuts == old(m_PolyOuts) + [outRec] && Rings == old(Rings) + [[newOp]]
      ensures Owner == old(Owner)[newOp := |old(m_PolyOuts)|]
      ensures outRec.Idx == |old(m_PolyOuts)| && outRec.FirstLeft == left
      ensures outRec.IsHole == (left != null && !left.IsHole)
    {
      hide Holds, Owned, Resolving, Forwarding;
      outRec := new OutRec(|m_PolyOuts|);
      newOp := new OutPt.Alone(outRec.Idx, pt);
      outRec.Pts := newOp;
      outRec.FirstLeft := left;
      outRec.IsHole := left != null && !left.IsHole;
      Register(outRec, newOp);
    }

    method Register(outRec: OutRec, newOp: OutPt)
      requires Valid() && newOp !in Owner
      requires outRec.Id == outRec.Idx == newOp.Idx == |m_PolyOuts| && outRec.Pts == newOp
      requires newOp.Next == newOp.Prev == newOp
      requires outRec.FirstLeft == null || outRec.FirstLeft in m_PolyOuts
      modifies this
      ensures Valid()
      ensures m_PolyOuts == old(m_PolyOuts) + [outRec] && Rings == old(Rings) + [[newOp]]
      ensures Owner == old(Owner)[newOp := |old(m_PolyOuts)|]
    {
      hide Holds, Owned, LeftsOk, Resolving, Forwarding;
      AddLinked(m_PolyOuts, Rings, Owner, outRec, newOp);
      AddForwarding(m_PolyOuts, Rings, Owner, Forward, outRec, newOp);
      AddLeft(m_PolyOuts, outRec);
      Owner := Owner[newOp := |m_PolyOuts|];
      m_PolyOuts := m_PolyOuts + [outRec];
      Rings := Rings + [[newOp]];
      Forward := Forward.Add();
    }

    /** The point an edge of this side has added last: the front of the ring on the left, its back on the right. */
    ghost function EndOf(idx: nat, side: EdgeSide): OutPt
      requires idx < |Rings| && Rings[idx] != []
      reads this`Rings
    {
      EndIn(Rings[idx], side)
    }

    method GetLastOutPt(idx: nat, side: EdgeSide) returns (op: OutPt)
      requires Valid() && idx < |Rings| && Rings[idx] != []
      ensures op == EndOf(idx, side)
    {
      var outRec := m_PolyOuts[idx];
      assert Holds(outRec, Rings[idx]);
      if side == EsLeft {
        op := outRec.Pts;
      } else {
        op := outRec.Pts.Prev;
      }
    }

    /** Adds `pt` at the front or the back of an open ring, unless the point there is at `pt` already. */
    method PushPoint(idx: nat, side: EdgeSide, pt: IntPoint) returns (op: OutPt)
      requires Valid() && idx < |Rings| && Rings[idx] != []
      modifies this, m_PolyOuts`Pts, Owner.Keys`Next, Owner.Keys`Prev
      ensures Valid() && m_PolyOuts == old(m_PolyOuts) && Forward == old(Forward)
      ensures Rings == if old(EndOf(idx, side).Pt == pt) then old(Rings) else old(Rings)[idx := Extended(old(Rings[idx]), side, op)]
      ensures op.Pt == pt && op == EndOf(idx, side)
      ensures Owner == old(Owner)[op := idx] && (op in old(Owner) || fresh(op))
    {
      var outRec := m_PolyOuts[idx];
      assert Holds(outRec, Rings[idx]);
      OwnedRing(Rings, Owner, idx);
      op := outRec.Pts;
      var toFront := side == EsLeft;
      if toFront && pt == op.Pt {
        return;
      } else if !toFront && pt == op.Prev.Pt {
        op := op.Prev;
        return;
      }
      op := PushNew(outRec, op, toFront, pt);
    }

    method PushNew(outRec: OutRec, op: OutPt, toFront: bool, pt: IntPoint) returns (newOp: OutPt)
      requires Valid() && outRec in m_PolyOuts && Rings[outRec.Id] != [] && op == Rings[outRec.Id][0]
      modifies this, outRec`Pts, Rings[outRec.Id]`Next, Rings[outRec.Id]`Prev
      ensures Valid() && m_PolyOuts == old(m_PolyOuts) && Forward == old(Forward) && newOp.Pt == pt && fresh(newOp)
      ensures Rings == old(Rings)[outRec.Id := Extended(old(Rings[outRec.Id]), if toFront then EsLeft else EsRight, newOp)]
      ensures Owner == old(Owner)[newOp := outRec.Id]
    {
      hide Holds, Owned, Forwarding, Resolving, LeftsOk;
      ghost var i, r, owner' := outRec.Id, Rings[outRec.Id], Owner;
      ListedAt(m_PolyOuts, Rings, Owner, outRec);
      OwnedRing(Rings, Owner, i);
      Alive(m_PolyOuts, Rings, Forward, i);
      assert op in r && op.Prev in r by { assert op.Prev == r[|r| - 1]; }
      newOp := PushLinks(outRec, op, toFront, pt, r);
      ghost var r' := Extended(r, if toFront then EsLeft else EsRight, newOp);
      owner' := Owner[newOp := i];
      forall j | 0 <= j < |m_PolyOuts| && j != i ensures Holds(m_PolyOuts[j], Rings[j]) {
        RingsApart(Rings, Owner, i, j);
        assert old(Holds(m_PolyOuts[j], Rings[j]));
      }
      ReplaceRing(m_PolyOuts, Rings, Owner, owner', i, r');
      ReplaceResolving(m_PolyOuts, Rings, Owner, owner', Forward, i, r');
      Rings, Owner := Rings[i := r'], owner';
    }

    /**
     Appends the ring of record `i2` to that of record `i1`, where an edge that builds the
     first on side `s1` meets one that builds the second on side `s2`; `outRec2` is merged.
     */
    method AppendRecords(i1: nat, s1: EdgeSide, i2: nat, s2: EdgeSide) returns (ghost hole: nat)
      requires Valid() && i1 < |Rings| && i2 < |Rings| && i1 != i2 && Rings[i1] != [] && Rings[i2] != []
      modifies this, m_PolyOuts, Owner.Keys`Next, Owner.Keys`Prev
      ensures Valid() && m_PolyOuts == old(m_PolyOuts)
      ensures Rings == old(Rings)[i1 := Appended(old(Rings[i1]), s1, old(Rings[i2]), s2)][i2 := []]
      ensures Owner == Reowned(old(Owner), i1, i2) && Forward == old(Forward).Link(i1, i2)
      ensures Ranked(old(HierarchyOf(m_PolyOuts)), HierarchyOf(m_PolyOuts), i1, i2, hole)
    {
      hide Linked, Owned, Forwarding, Resolving, LeftsOk, HoleChoice, Appended, Reowned, Ranked, HierarchyOf;
      LinkedIds(m_PolyOuts, Rings, Owner);
      ForwardingShape(m_PolyOuts, Rings, Forward);
      var outRec1, outRec2 := m_PolyOuts[i1], m_PolyOuts[i2];
      var fromSecond := HoleStateFromSecond(outRec1, outRec2);
      hole := if fromSecond then outRec2.Id else outRec1.Id;
      MergeInto(outRec1, s1, outRec2, s2, fromSecond, m_PolyOuts, Rings, Owner, Forward);
      ghost var r := Appended(Rings[i1], s1, Rings[i2], s2);
      Rings, Owner, Forward := Rings[i1 := r][i2 := []], Reowned(Owner, i1, i2), Forward.Link(i1, i2);
    }

    /** Does the second record decide whether the merged polygon is a hole? Between unrelated records either may. */
    method HoleStateFromSecond(outRec1: OutRec, outRec2: OutRec) returns (fromSecond: bool)
      requires Valid() && outRec1 in m_PolyOuts && outRec2 in m_PolyOuts
      ensures HoleChoice(LeftsOf(m_PolyOuts), outRec1.Id, outRec2.Id, if fromSecond then outRec2.Id else outRec1.Id)
    {
      var right12 := OutRec1RightOfOutRec2(outRec1, outRec2, m_PolyOuts);
      if right12 {
        return true;
      }
      var right21 := OutRec1RightOfOutRec2(outRec2, outRec1, m_PolyOuts);
      if right21 {
        return false;
      }
      fromSecond := *;  // GetLowermostRec compares the bottom points
    }
  }

  lemma LinkedIds(recs: seq<OutRec>, rings: seq<seq<OutPt>>, owner: map<OutPt, nat>)
    requires Linked(recs, rings, owner)
    ensures |rings| == |recs| && Owned(rings, owner) && forall i :: 0 <= i < |recs| ==> recs[i].Id == i
  {
  }

  lemma ForwardingShape(recs: seq<OutRec>, rings: seq<seq<OutPt>>, fwd: Merges)
    requires Forwarding(recs, rings, fwd)
    ensures fwd.Ok() && |fwd.parent| == |fwd.died| == |recs|
  {
  }

  /** Joins the rings of two records into one, held by the first. */
  method MergeLinks(outRec1: OutRec, s1: EdgeSide, outRec2: OutRec, s2: EdgeSide,
                    ghost recs: seq<OutRec>, ghost rings: seq<seq<OutPt>>, ghost owner: map<OutPt, nat>)
    requires Linked(recs, rings, owner) && outRec1 in recs && outRec2 in recs && outRec1 != outRec2
    requires rings[outRec1.Id] != [] && rings[outRec2.Id] != []
    modifies outRec1`Pts, outRec2`Pts, owner.Keys`Next, owner.Keys`Prev
    ensures var i1, i2 := outRec1.Id, outRec2.Id;
      Linked(recs, rings[i1 := Appended(rings[i1], s1, rings[i2], s2)][i2 := []], Reowned(owner, i1, i2))
  {
    hide Holds, Owned, Appended, IsRing, Apart;
    ghost var i1, i2 := outRec1.Id, outRec2.Id;
    ghost var r1, r2 := rings[i1], rings[i2];
    AppendedRing(r1, s1, r2, s2);
    RingsApart(rings, owner, i1, i2);
    OwnedRing(rings, owner, i1);
    OwnedRing(rings, owner, i2);
    assert Holds(outRec1, r1) && Holds(outRec2, r2);
    AppendLinks(outRec1, outRec2, s1, s2, r1, r2);
    outRec2.Pts := null;
    forall j | 0 <= j < |recs| && j != i1 && j != i2 ensures Holds(recs[j], rings[j]) {
      RingsApart(rings, owner, i1, j); ApartAt(r1, rings[j]);
      RingsApart(rings, owner, i2, j); ApartAt(r2, rings[j]);
      assert old(Holds(recs[j], rings[j]));
    }
    MergeRings(recs, rings, owner, i1, i2, Appended(r1, s1, r2, s2));
  }

  lemma AppendedRing(r1: seq<OutPt>, s1: EdgeSide, r2: seq<OutPt>, s2: EdgeSide)
    requires r1 != [] && r2 != []
    ensures forall p :: p in Appended(r1, s1, r2, s2) ==> p in r1 || p in r2
  {
    AppendedEnds(r1, s1, r2, s2);
  }

  /** Forwards the second record, whose ring the first has taken over, to the first. */
  method Redirect(outRec1: OutRec, s1: EdgeSide, outRec2: OutRec, s2: EdgeSide,
                  ghost recs: seq<OutRec>, ghost rings: seq<seq<OutPt>>, ghost owner: map<OutPt, nat>, ghost fwd: Merges)
    requires outRec1 in recs && outRec2 in recs && outRec1 != outRec2
    requires |rings| == |recs| && (forall i :: 0 <= i < |recs| ==> recs[i].Id == i)
    requires rings[outRec1.Id] != [] && rings[outRec2.Id] != []
    requires Owned(rings, owner) && Forwarding(recs, rings, fwd) && Resolving(rings, owner, fwd)
    requires var i1, i2 := outRec1.Id, outRec2.Id;
      Linked(recs, rings[i1 := Appended(rings[i1], s1, rings[i2], s2)][i2 := []], Reowned(owner, i1, i2))
    modifies outRec2`Idx
    ensures var i1, i2 := outRec1.Id, outRec2.Id;
      var rings' := rings[i1 := Appended(rings[i1], s1, rings[i2], s2)][i2 := []];
      && Linked(recs, rings', Reowned(owner, i1, i2)) && Forwarding(recs, rings', fwd.Link(i1, i2))
      && Resolving(rings', Reowned(owner, i1, i2), fwd.Link(i1, i2))
  {
    hide Linked, Holds, Owned, Resolving, Appended;
    outRec2.Idx := outRec1.Idx;
    LinkAppended(recs, rings, owner, fwd, outRec1.Id, s1, outRec2.Id, s2);
  }

  /** Merges the second record into the first: rings, hole state and forwarding. */
  method MergeInto(outRec1: OutRec, s1: EdgeSide, outRec2: OutRec, s2: EdgeSide, fromSecond: bool,
                   ghost recs: seq<OutRec>, ghost rings: seq<seq<OutPt>>, ghost owner: map<OutPt, nat>, ghost fwd: Merges)
    requires outRec1 in recs && outRec2 in recs && outRec1 != outRec2
    requires Linked(recs, rings, owner) && Forwarding(recs, rings, fwd) && Resolving(rings, owner, fwd) && LeftsOk(recs)
    requires rings[outRec1.Id] != [] && rings[outRec2.Id] != []
    requires HoleChoice(LeftsOf(recs), outRec1.Id, outRec2.Id, if fromSecond then outRec2.Id else outRec1.Id)
    modifies outRec1`Pts, outRec1`FirstLeft, outRec1`IsHole, outRec2`Pts, outRec2`FirstLeft, outRec2`Idx
    modifies owner.Keys`Next, owner.Keys`Prev
    ensures var i1, i2 := outRec1.Id, outRec2.Id;
      var rings', owner' := rings[i1 := Appended(rings[i1], s1, rings[i2], s2)][i2 := []], Reowned(owner, i1, i2);
      && Linked(recs, rings', owner') && Forwarding(recs, rings', fwd.Link(i1, i2)) && Resolving(rings', owner', fwd.Link(i1, i2))
      && LeftsOk(recs)
    ensures Ranked(old(HierarchyOf(recs)), HierarchyOf(recs), outRec1.Id, outRec2.Id, if fromSecond then outRec2.Id else outRec1.Id)
  {
    hide Linked, Owned, Forwarding, Resolving, LeftsOk, HoleChoice, Appended, Reowned, Ranked, HierarchyOf;
    LinkedIds(recs, rings, owner);
    ghost var i1, i2 := outRec1.Id, outRec2.Id;
    ghost var rings' := rings[i1 := Appended(rings[i1], s1, rings[i2], s2)][i2 := []];
    MergeLinks(outRec1, s1, outRec2, s2, recs, rings, owner);
    assert Linked(recs, rings', Reowned(owner, i1, i2));
    MergeHoleState(outRec1, outRec2, fromSecond, recs);
    assert Linked(recs, rings', Reowned(owner, i1, i2));
    Redirect(outRec1, s1, outRec2, s2, recs, rings, owner, fwd);
  }

  /** Makes a point and links it in at the front or the back of the ring that starts at `op`. */
  method PushLinks(outRec: OutRec, op: OutPt, toFront: bool, pt: IntPoint, ghost r: seq<OutPt>) returns (newOp: OutPt)
    requires IsRing(r) && op == r[0] && outRec.Pts == op
    modifies outRec`Pts, op`Prev, op.Prev`Next
    ensures Holds(outRec, Extended(r, if toFront then EsLeft else EsRight, newOp))
    ensures newOp.Pt == pt && newOp.Idx == outRec.Idx && fresh(newOp)
  {
    newOp := new OutPt(outRec.Idx, pt, op, op.Prev);
    assert op.Prev == r[|r| - 1];
    LinkBefore(op, newOp, r);
    if toFront {
      outRec.Pts := newOp;
      RotateRing(r + [newOp], |r|);
      assert Rotate(r + [newOp], |r|) == [newOp] + r;
    }
  }

  function Extended<T>(r: seq<T>, side: EdgeSide, p: T): seq<T> {
    if side == EsLeft then [p] + r else r + [p]
  }

  function EndIn<T>(r: seq<T>, side: EdgeSide): T
    requires r != []
  {
    if side == EsLeft then r[0] else r[|r| - 1]
  }

  /** The ring `r1` with `r2` appended, where the edge that builds `r1` on `s1` meets the one that builds `r2` on `s2`. */
  function Appended<T>(r1: seq<T>, s1: EdgeSide, r2: seq<T>, s2: EdgeSide): seq<T> {
    if s1 == EsLeft then
      if s2 == EsLeft then Reverse(r2) + r1 else r2 + r1
    else
      if s2 == EsRight then r1 + Reverse(r2) else r1 + r2
  }

  /**
   The ends of the two meeting edges become neighbours; the ends of their two partners stay
   where they were, and become the two ends of the appended ring.
   */
  lemma AppendedEnds<T>(r1: seq<T>, s1: EdgeSide, r2: seq<T>, s2: EdgeSide)
    requires r1 != [] && r2 != []
    ensures var r := Appended(r1, s1, r2, s2);
      && |r| == |r1| + |r2|
      && EndIn(r, s1.Opposite()) == EndIn(r1, s1.Opposite())
      && EndIn(r, s1) == EndIn(r2, s2.Opposite())
      && (if s1 == EsLeft then r[|r2| - 1] == EndIn(r2, s2) && r[|r2|] == EndIn(r1, s1)
          else r[|r1| - 1] == EndIn(r1, s1) && r[|r1|] == EndIn(r2, s2))
    ensures forall p :: p in Appended(r1, s1, r2, s2) <==> p in r1 || p in r2
  {
    ReverseMembers(r2);
  }

  lemma ReverseMembers<T>(s: seq<T>)
    ensures forall x :: x in Reverse(s) <==> x in s
  {
    forall x ensures x in Reverse(s) <==> x in s {
      if x in s {
        var k :| 0 <= k < |s| && s[k] == x;
        assert Reverse(s)[|s| - 1 - k] == x;
      }
    }
  }

  /** Links the second ring to the first at the ends that meet. */
  method AppendLinks(outRec1: OutRec, outRec2: OutRec, s1: EdgeSide, s2: EdgeSide, ghost r1: seq<OutPt>, ghost r2: seq<OutPt>)
    requires r1 != [] && r2 != [] && Holds(outRec1, r1) && Holds(outRec2, r2) && Apart(r1, r2)
    modifies outRec1`Pts, r1`Next, r1`Prev, r2`Next, r2`Prev
    ensures Holds(outRec1, Appended(r1, s1, r2, s2))
  {
    ApartAt(r1, r2);
    HoldsRing(outRec1, r1);
    HoldsRing(outRec2, r2);
    RingEnds(r1);
    RingEnds(r2);
    ReverseMembers(r2);
    ghost var b := Reverse(r2);
    AppendedShapes(r1, s1, r2, s2);
    hide IsRing, Holds, Reverse, Rotate, Appended;
    var p1_lft := outRec1.Pts;
    var p1_rt := p1_lft.Prev;
    var p2_lft := outRec2.Pts;
    var p2_rt := p2_lft.Prev;
    if s1 == EsLeft {
      if s2 == EsLeft {
        ReversePolyPtLinks(p2_lft, r2);
        CrossLink(p1_rt, p2_rt, p2_lft, p1_lft, r1, b);
        RotateRing(r1 + b, |r1|);
        outRec1.Pts := p2_rt;
      } else {
        CrossLink(p1_rt, p2_lft, p2_rt, p1_lft, r1, r2);
        RotateRing(r1 + r2, |r1|);
        outRec1.Pts := p2_lft;
      }
    } else {
      if s2 == EsRight {
        ReversePolyPtLinks(p2_lft, r2);
        CrossLink(p1_rt, p2_rt, p2_lft, p1_lft, r1, b);
      } else {
        CrossLink(p1_rt, p2_lft, p2_rt, p1_lft, r1, r2);
      }
    }
    HoldsRing(outRec1, Appended(r1, s1, r2, s2));
  }

  /** The appended ring in terms of the ring that the cross-link makes. */
  lemma AppendedShapes<T>(r1: seq<T>, s1: EdgeSide, r2: seq<T>, s2: EdgeSide)
    requires r1 != [] && r2 != []
    ensures var r := Appended(r1, s1, r2, s2);
      && r != []
      && (s1 == EsLeft && s2 == EsLeft ==> r == Rotate(r1 + Reverse(r2), |r1|) && r[0] == r2[|r2| - 1])
      && (s1 == EsLeft && s2 == EsRight ==> r == Rotate(r1 + r2, |r1|) && r[0] == r2[0])
      && (s1 == EsRight && s2 == EsRight ==> r == r1 + Reverse(r2) && r[0] == r1[0])
      && (s1 == EsRight && s2 == EsLeft ==> r == r1 + r2 && r[0] == r1[0])
  {
  }

  lemma RingEnds(r: seq<OutPt>)
    requires IsRing(r)
    ensures r != [] && r[0].Prev == r[|r| - 1]
  {
  }
}
