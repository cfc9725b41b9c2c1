/**
 Winding numbers of the scanline and the boolean operation they decide.

 The active edge list is seen here as a sequence of `EdgeView` values, left to right.
 The gap before edge `k` is a region of the plane; its winding number for each polygon
 type is the sum of the `WindDelta`s to its left.  Everything the sweep caches on an edge
 (`WindCnt`, `WindCnt2`, `OutIdx >= 0`) is compared with these sums.
 */
module Winding {
  import opened ClipTypes

  datatype EdgeView = EdgeView(typ: PolyType, delta: int, cnt: int, cnt2: int, outIdx: int, side: EdgeSide)

  datatype Rules = Rules(clip: ClipType, subjFill: PolyFillType, clipFill: PolyFillType) {
    /** The fill rule of the polygons of type `t`. */
    function Fill(t: PolyType): PolyFillType {
      if t == PtSubject then subjFill else clipFill
    }
  }

  /** All paths are closed, so every edge winds by one in one direction or the other. */
  predicate Closed(s: seq<EdgeView>) {
    forall i :: 0 <= i < |s| ==> s[i].delta == 1 || s[i].delta == -1
  }

  /** The winding number, counting polygons of type `t` only, of the region left of edge `k`. */
  function WindingAt(s: seq<EdgeView>, k: nat, t: PolyType): int
    requires k <= |s|
  {
    if k == 0 then 0
    else WindingAt(s, k - 1, t) + if s[k - 1].typ == t then s[k - 1].delta else 0
  }

  predicate Inside(fill: PolyFillType, w: int) {
    match fill
    case PftEvenOdd => w % 2 != 0
    case PftNonZero => w != 0
    case PftPositive => w > 0
    case PftNegative => w < 0
  }

  predicate Combine(clip: ClipType, inSubj: bool, inClip: bool) {
    match clip
    case CtIntersection => inSubj && inClip
    case CtUnion => inSubj || inClip
    case CtDifference => inSubj && !inClip
    case CtXor => inSubj != inClip
  }

  /** Is a region with these two winding numbers part of the solution? */
  predicate Member(r: Rules, subjWind: int, clipWind: int) {
    Combine(r.clip, Inside(r.subjFill, subjWind), Inside(r.clipFill, clipWind))
  }

  predicate MemberAt(s: seq<EdgeView>, r: Rules, k: nat)
    requires k <= |s|
  {
    Member(r, WindingAt(s, k, PtSubject), WindingAt(s, k, PtClip))
  }

  /** Whichever of two winding numbers is farther from zero. */
  function Farther(a: int, b: int): int {
    if Abs(a) > Abs(b) then a else b
  }

  /** What `WindCnt` and `WindCnt2` must hold on an edge with own winding `w` and other winding `w2` on its left. */
  predicate CountsFit(r: Rules, e: EdgeView, w: int, w2: int) {
    && (if r.Fill(e.typ) == PftEvenOdd then e.cnt == 1 || e.cnt == -1 else e.cnt == Farther(w, w + e.delta))
    && e.cnt2 == (if r.Fill(e.typ.Other()) == PftEvenOdd then w2 % 2 else w2)
  }

  predicate CountsRightAt(s: seq<EdgeView>, r: Rules, i: nat)
    requires i < |s|
  {
    CountsFit(r, s[i], WindingAt(s, i, s[i].typ), WindingAt(s, i, s[i].typ.Other()))
  }

  /** Every cached winding count agrees with the prefix sums. */
  predicate CountsRight(s: seq<EdgeView>, r: Rules) {
    forall i :: 0 <= i < |s| ==> CountsRightAt(s, r, i)
  }

  /** Crossing edge `i` enters or leaves the solution. */
  predicate Boundary(s: seq<EdgeView>, r: Rules, i: nat)
    requires i < |s|
  {
    MemberAt(s, r, i) != MemberAt(s, r, i + 1)
  }

  /** An edge carries an output index exactly when crossing it enters or leaves the solution. */
  predicate OutputRight(s: seq<EdgeView>, r: Rules) {
    forall i :: 0 <= i < |s| ==> (s[i].outIdx >= 0 <==> Boundary(s, r, i))
  }

  predicate Right(s: seq<EdgeView>, r: Rules) {
    Closed(s) && CountsRight(s, r) && OutputRight(s, r)
  }

  // ---------------------------------------------------------------- prefix sums

  /** Edges that show the same type and direction have the same winding numbers to their left. */
  lemma {:induction false} WindingSamePrefix(s: seq<EdgeView>, s': seq<EdgeView>, k: nat, t: PolyType)
    requires k <= |s| && k <= |s'|
    requires forall j :: 0 <= j < k ==> s[j].typ == s'[j].typ && s[j].delta == s'[j].delta
    ensures WindingAt(s, k, t) == WindingAt(s', k, t)
  {
    if k > 0 {
      WindingSamePrefix(s, s', k - 1, t);
    }
  }

  /** `s'` is `s` with the neighbours `k` and `k + 1` exchanged, whatever their cached fields now hold. */
  predicate Exchanged(s: seq<EdgeView>, s': seq<EdgeView>, k: nat) {
    && |s| == |s'| && k + 1 < |s|
    && s'[k].typ == s[k + 1].typ && s'[k].delta == s[k + 1].delta
    && s'[k + 1].typ == s[k].typ && s'[k + 1].delta == s[k].delta
    && (forall j :: 0 <= j < |s| && j != k && j != k + 1 ==> s'[j].typ == s[j].typ && s'[j].delta == s[j].delta)
  }

  lemma {:induction false} WindingExchanged(s: seq<EdgeView>, s': seq<EdgeView>, k: nat, j: nat, t: PolyType)
    requires Exchanged(s, s', k)
    requires j <= |s| && j != k + 1
    ensures WindingAt(s', j, t) == WindingAt(s, j, t)
  {
    if j <= k {
      WindingSamePrefix(s, s', j, t);
    } else if j == k + 2 {
      WindingSamePrefix(s, s', k, t);
      assert WindingAt(s', k + 2, t) == WindingAt(s', k + 1, t) + if s'[k + 1].typ == t then s'[k + 1].delta else 0;
    } else {
      WindingExchanged(s, s', k, j - 1, t);
    }
  }

  /** `s'` is `s` with two more edges, at places `k` and `k + 1`. */
  predicate PairInserted(s: seq<EdgeView>, s': seq<EdgeView>, k: nat) {
    && k <= |s| && |s'| == |s| + 2
    && (forall j :: 0 <= j < k ==> s'[j] == s[j])
    && (forall j :: k <= j < |s| ==> s'[j + 2] == s[j])
  }

  /** Two neighbours that cancel do not disturb the winding numbers around them. */
  lemma {:induction false} WindingPairInserted(s: seq<EdgeView>, s': seq<EdgeView>, k: nat, j: nat, t: PolyType)
    requires PairInserted(s, s', k) && k <= j <= |s|
    requires s'[k].typ == s'[k + 1].typ && s'[k].delta + s'[k + 1].delta == 0
    ensures WindingAt(s', j + 2, t) == WindingAt(s, j, t)
  {
    if j == k {
      WindingSamePrefix(s, s', k, t);
      assert WindingAt(s', k + 2, t) == WindingAt(s', k + 1, t) + if s'[k + 1].typ == t then s'[k + 1].delta else 0;
    } else {
      WindingPairInserted(s, s', k, j - 1, t);
    }
  }

  /** A closed winding number has the parity of the number of edges crossed: one edge flips it. */
  lemma FlipParity(w: int, d: int)
    requires d == 1 || d == -1
    ensures (w + d) % 2 == 1 - w % 2
  {
  }
}
