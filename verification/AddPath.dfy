/**
 A closed path on its way into the clipper: the ring of its edges, without duplicate vertices
 and without vertices that have no effect, or the decision that the path encloses nothing.
 */
module AddPaths {
  import opened ClipTypes
  import opened Sequences
  import opened OutPtRings
  import opened Cycles
  import opened Geometry
  import opened PointInPolygons
  import opened FixupPolygons

  /** An edge of a path before the sweep; it starts at `Curr` and leads to the `Curr` of the next one. */
  class PathEdge {
    const Curr: IntPoint
    var Bot: IntPoint
    var Top: IntPoint
    var WindDelta: int
    var Next: PathEdge?
    var Prev: PathEdge?
    var NextInLML: PathEdge?

    constructor (pt: IntPoint)
      ensures Curr == pt && NextInLML == null
    {
      Curr, Bot, Top, WindDelta := pt, IntPoint(0, 0), IntPoint(0, 0), 0;
      Next, Prev, NextInLML := null, null, null;
    }
  }

  ghost predicate EdgeRing(r: seq<PathEdge>)
    reads r`Next, r`Prev
  {
    && r != [] && Distinct(r)
    && (forall i {:trigger r[i].Next} :: 0 <= i < |r| ==> r[i].Next == r[After(|r|, i)])
    && (forall i {:trigger r[i].Prev} :: 0 <= i < |r| ==> r[i].Prev == r[Before(|r|, i)])
  }

  function Points(r: seq<PathEdge>): (s: seq<IntPoint>)
    ensures |s| == |r|
    ensures forall i :: 0 <= i < |r| ==> s[i] == r[i].Curr
  {
    seq(|r|, i requires 0 <= i < |r| => r[i].Curr)
  }

  // ---------------------------------------------------------------- what cleaning keeps

  /** `q` covers what `s` covers. */
  ghost predicate SameCover(q: seq<IntPoint>, s: seq<IntPoint>) {
    && Area2(q) == Area2(s)
    && forall pt :: Location(s, pt) != -1 ==> Location(q, pt) == Location(s, pt)
  }

  /** A duplicate at the end adds nothing to a path. */
  lemma DropLast(s: seq<IntPoint>, k: nat, p: IntPoint)
    requires 0 < k < |s| && s[k] == p && (p == s[0] || p == s[k - 1])
    ensures SameCover(s[..k], s[..k + 1])
  {
    assert s[..k + 1] == s[..k] + [p];
    assert SlopesEqual3(s[k - 1], p, s[0]);
    AreaDrop(s[..k], p);
    forall pt | Location(s[..k + 1], pt) != -1 ensures Location(s[..k], pt) == Location(s[..k + 1], pt) {
      LocationDrop(s[..k], p, pt);
    }
  }

  /** How many vertices are left when repetitions of the first and of the last have been cut off the end. */
  method TrimEnd(pg: seq<IntPoint>) returns (highI: int)
    ensures -1 <= highI < |pg| && (pg != [] ==> highI >= 0)
    ensures SameCover(pg[..highI + 1], pg)
  {
    highI := |pg| - 1;
    assert pg[..highI + 1] == pg;
    while highI > 0 && pg[highI] == pg[0]
      invariant -1 <= highI < |pg| && (pg != [] ==> highI >= 0) && SameCover(pg[..highI + 1], pg)
    {
      DropLast(pg, highI, pg[highI]);
      highI := highI - 1;
    }
    while highI > 0 && pg[highI] == pg[highI - 1]
      invariant -1 <= highI < |pg| && (pg != [] ==> highI >= 0) && SameCover(pg[..highI + 1], pg)
    {
      DropLast(pg, highI, pg[highI]);
      highI := highI - 1;
    }
  }

  /** One edge for every point, linked into a ring. */
  method InitEdges(pg: seq<IntPoint>) returns (edges: seq<PathEdge>)
    requires pg != []
    ensures EdgeRing(edges) && Points(edges) == pg && fresh(edges)
    ensures forall i :: 0 <= i < |edges| ==> edges[i].NextInLML == null
  {
    edges := MakeEdges(pg);
    var i := 0;
    while i < |edges|
      invariant i <= |edges|
      invariant forall j {:trigger edges[j].Next} :: 0 <= j < i ==> edges[j].Next == edges[After(|edges|, j)]
      invariant forall j {:trigger edges[j].Prev} :: 0 <= j < i ==> edges[j].Prev == edges[Before(|edges|, j)]
      invariant forall j :: 0 <= j < |edges| ==> edges[j].NextInLML == null
    {
      DistinctAt(edges, i);
      edges[i].Next := edges[if i + 1 < |edges| then i + 1 else 0];
      edges[i].Prev := edges[if i > 0 then i - 1 else |edges| - 1];
      i := i + 1;
    }
  }

  method MakeEdges(pg: seq<IntPoint>) returns (edges: seq<PathEdge>)
    ensures Distinct(edges) && Points(edges) == pg && fresh(edges)
    ensures forall i :: 0 <= i < |edges| ==> edges[i].NextInLML == null
  {
    edges := [];
    for i := 0 to |pg|
      invariant |edges| == i && Distinct(edges) && fresh(edges)
      invariant forall j :: 0 <= j < i ==> edges[j].Curr == pg[j] && edges[j].NextInLML == null
    {
      var e := new PathEdge(pg[i]);
      DistinctConcat(edges, [e]);
      DistinctIsPairwise([e]);
      edges := edges + [e];
    }
  }

  /** Takes `e` out of its ring; the result is the edge behind it. */
  method RemoveEdge(e: PathEdge, ghost q: seq<PathEdge>, ghost k: nat) returns (result: PathEdge)
    requires EdgeRing(q) && |q| > 1 && k < |q| && e == q[k]
    modifies q`Next, q`Prev
    ensures EdgeRing(Without(q, k)) && result == q[After(|q|, k)]
  {
    DistinctAt(q, k);
    DistinctAt(q, After(|q|, k));
    DistinctAt(q, Before(|q|, k));
    AroundGap(q, k);
    hide Without, Distinct;
    e.Prev.Next := e.Next;
    e.Next.Prev := e.Prev;
    result := e.Next;
    e.Prev := null;
    ghost var t := Without(q, k);
    forall i | 0 <= i < |t| ensures t[i].Next == t[After(|t|, i)] && t[i].Prev == t[Before(|t|, i)] {
      assert AroundIn(q, k, t, i);
    }
  }

  /** Who is next to the element at place `i` of `t`, which is `q` without place `k`. */
  predicate AroundIn<T(==)>(q: seq<T>, k: nat, t: seq<T>, i: nat)
    requires k < |q| && i < |t| == |q| - 1
  {
    var n, j := |q|, if i < k then i else i + 1;
    && t[i] == q[j]
    && t[After(|t|, i)] == (if j == Before(n, k) then q[After(n, k)] else q[After(n, j)])
    && t[Before(|t|, i)] == (if j == After(n, k) then q[Before(n, k)] else q[Before(n, j)])
  }

  lemma AroundGap<T>(q: seq<T>, k: nat)
    requires Distinct(q) && |q| > 1 && k < |q|
    ensures Distinct(Without(q, k)) && After(|q|, k) != k && Before(|q|, k) != k
    ensures forall i :: 0 <= i < |q| - 1 ==> AroundIn(q, k, Without(q, k), i)
  {
    var t := Without(q, k);
    hide Without, Distinct;
    forall i | 0 <= i < |t| ensures AroundIn(q, k, t, i) {
    }
  }

  // ---------------------------------------------------------------- cleaning

  /** The last `c` vertices before place `k` are needed, and the first of them starts at `loopStop`. */
  ghost predicate Cleaned(q: seq<PathEdge>, k: nat, c: nat, loopStop: PathEdge, preserveCol: bool) {
    && k < |q| && c < |q|
    && (forall j :: 1 <= j <= c ==> Needed(Points(q), Back(|q|, k, j), preserveCol))
    && loopStop == q[Back(|q|, k, c)]
  }

  /** The vertex differs from the next one, and the path turns there. */
  ghost predicate Needed(s: seq<IntPoint>, k: nat, preserveCol: bool)
    requires k < |s|
  {
    && s[k] != s[After(|s|, k)]
    && !(SlopesEqual3(s[Before(|s|, k)], s[k], s[After(|s|, k)])
         && (!preserveCol || !Pt2IsBetweenPt1AndPt3(s[Before(|s|, k)], s[k], s[After(|s|, k)])))
  }

  /** When every vertex is needed, none is superfluous. */
  lemma AllNeeded(s: seq<IntPoint>, preserveCol: bool)
    requires forall k :: 0 <= k < |s| ==> Needed(s, k, preserveCol)
    ensures forall k :: 0 <= k < |s| ==> !SuperfluousAt(s, k, preserveCol)
  {
    forall k | 0 <= k < |s| ensures !SuperfluousAt(s, k, preserveCol) {
      assert Needed(s, k, preserveCol);
      assert Needed(s, Before(|s|, k), preserveCol);
    }
  }

  lemma CleanStep(q: seq<PathEdge>, s: seq<IntPoint>, k: nat, preserveCol: bool)
    requires |q| > 1 && k < |q| && SameCover(Points(q), s) && !Needed(Points(q), k, preserveCol)
    ensures SameCover(Points(Without(q, k)), s)
  {
    assert Points(Without(q, k)) == Without(Points(q), k);
    ThinOut(Points(q), k, preserveCol);
  }

  /** The state of the cleaning loop. */
  ghost predicate Cleaning(q: seq<PathEdge>, r: seq<PathEdge>, k: nat, c: nat, loopStop: PathEdge, eStart: PathEdge, preserveCol: bool)
    reads q`Next, q`Prev
  {
    && EdgeRing(q) && Cleaned(q, k, c, loopStop, preserveCol) && SameCover(Points(q), Points(r))
    && eStart in q && forall i :: 0 <= i < |q| ==> q[i] in r
  }

  lemma CleanStart(r: seq<PathEdge>, preserveCol: bool)
    requires EdgeRing(r)
    ensures Cleaning(r, r, 0, 0, r[0], r[0], preserveCol)
  {
  }

  /** Takes out a vertex that is not needed; `eStart` moves on if it was the one. */
  method CleanOut(E: PathEdge, eStart: PathEdge, back: bool, ghost q: seq<PathEdge>, ghost r: seq<PathEdge>, ghost k: nat, ghost c: nat,
                  ghost loopStop: PathEdge, ghost preserveCol: bool)
    returns (E': PathEdge, eStart': PathEdge, ghost q': seq<PathEdge>, ghost k': nat)
    requires Cleaning(q, r, k, c, loopStop, eStart, preserveCol) && |q| > 1 && E == q[k] && !Needed(Points(q), k, preserveCol)
    modifies r`Next, r`Prev
    ensures |q'| == |q| - 1 && k' < |q'| && E' == q'[k'] && Cleaning(q', r, k', 0, E', eStart', preserveCol)
  {
    hide EdgeRing, SameCover, Needed;
    StartMoves(q, k, eStart);
    eStart' := eStart;
    eStart' := NextIf(E, eStart, q, k);
    CleanStep(q, Points(r), k, preserveCol);
    E' := RemoveEdge(E, q, k);
    q', k' := Without(q, k), if k + 1 < |q| then k else 0;
    if back {
      E' := PrevOf(E', q', k');
      k' := Before(|q'|, k');
    }
  }

  lemma StartMoves(q: seq<PathEdge>, k: nat, eStart: PathEdge)
    requires EdgeRing(q) && |q| > 1 && k < |q| && eStart in q
    ensures (if q[k] == eStart then q[After(|q|, k)] else eStart) in Without(q, k)
    ensures forall i :: 0 <= i < |q| - 1 ==> Without(q, k)[i] in q
  {
    WithoutElements(q, k);
    DistinctAt(q, k);
  }

  method NextIf(E: PathEdge, eStart: PathEdge, ghost q: seq<PathEdge>, ghost k: nat) returns (eStart': PathEdge)
    requires EdgeRing(q) && k < |q| && E == q[k]
    ensures eStart' == if E == eStart then q[After(|q|, k)] else eStart
  {
    eStart' := if E == eStart then E.Next else eStart;
  }

  method PrevOf(E: PathEdge, ghost q: seq<PathEdge>, ghost k: nat) returns (prev: PathEdge)
    requires EdgeRing(q) && k < |q| && E == q[k]
    ensures prev == q[Before(|q|, k)]
  {
    prev := E.Prev;
  }

  /** What the loop asks of a vertex: is it the last one left, a duplicate, one of two, or on a straight stretch? */
  method Inspect(E: PathEdge, preserveCol: bool, ghost q: seq<PathEdge>, ghost k: nat)
    returns (next: PathEdge, alone: bool, duplicate: bool, pair: bool, straight: bool)
    requires EdgeRing(q) && k < |q| && E == q[k]
    ensures next == q[After(|q|, k)]
    ensures (alone <==> |q| == 1) && (pair <==> |q| <= 2) && (alone ==> duplicate)
    ensures duplicate || straight <==> !Needed(Points(q), k, preserveCol)
  {
    DistinctAt(q, k);
    DistinctAt(q, Before(|q|, k));
    next := E.Next;
    alone := E == E.Next;
    duplicate := E.Curr == E.Next.Curr;
    pair := E.Prev == E.Next;
    straight := SlopesEqual3(E.Prev.Curr, E.Curr, E.Next.Curr)
                && (!preserveCol || !Pt2IsBetweenPt1AndPt3(E.Prev.Curr, E.Curr, E.Next.Curr));
  }

  lemma CleanNext(q: seq<PathEdge>, r: seq<PathEdge>, k: nat, c: nat, loopStop: PathEdge, eStart: PathEdge, preserveCol: bool)
    requires Cleaning(q, r, k, c, loopStop, eStart, preserveCol) && Needed(Points(q), k, preserveCol)
    ensures loopStop == q[After(|q|, k)] <==> c + 1 == |q|
    ensures c + 1 < |q| ==> Cleaning(q, r, After(|q|, k), c + 1, loopStop, eStart, preserveCol)
    ensures c + 1 == |q| ==> forall i :: 0 <= i < |q| ==> Needed(Points(q), i, preserveCol)
  {
    hide Needed;
    var n, k' := |q|, After(|q|, k);
    DistinctAt(q, k');
    forall j | 1 <= j <= c + 1 ensures Needed(Points(q), Back(n, k', j), preserveCol) {
      if j > 1 { assert Back(n, k', j) == Back(n, k, j - 1); }
    }
    if c + 1 == n {
      forall i | 0 <= i < n ensures Needed(Points(q), i, preserveCol) {
        var j := if i < k' then k' - i else k' + n - i;
        assert Back(n, k', j) == i;
      }
    }
  }

  /**
   Removes duplicate vertices and those on straight stretches. This ends; what is left has
   the area of the path, covers the same, and needs each of its vertices, unless no more
   than two are left.
   */
  method CleanEdges(first: PathEdge, preserveCol: bool, ghost r: seq<PathEdge>)
    returns (ok: bool, eStart: PathEdge, ghost q: seq<PathEdge>)
    requires EdgeRing(r) && first == r[0]
    modifies r`Next, r`Prev
    ensures EdgeRing(q) && eStart in q && SameCover(Points(q), Points(r)) && forall i :: 0 <= i < |q| ==> q[i] in r
    ensures ok <==> |q| > 2
    ensures ok ==> forall i :: 0 <= i < |q| ==> Needed(Points(q), i, preserveCol)
  {
    hide EdgeRing, Cleaned, SameCover, Needed;
    var E, eLoopStop;
    E, eLoopStop, eStart := first, first, first;
    q := r;
    ghost var k: nat, c: nat := 0, 0;
    CleanStart(r, preserveCol);
    while true
      invariant Cleaning(q, r, k, c, eLoopStop, eStart, preserveCol) && k < |q| && c < |q| && E == q[k]
      decreases |q|, |q| - c
    {
      var next, alone, duplicate, pair, straight := Inspect(E, preserveCol, q, k);
      if duplicate {
        if alone {
          ok := false;
          break;
        }
        E, eStart, q, k := CleanOut(E, eStart, false, q, r, k, c, eLoopStop, preserveCol);
        eLoopStop, c := E, 0;
        continue;
      }
      if pair {
        ok := false;
        break;
      } else if straight {
        E, eStart, q, k := CleanOut(E, eStart, true, q, r, k, c, eLoopStop, preserveCol);
        eLoopStop, c := E, 0;
        continue;
      }
      CleanNext(q, r, k, c, eLoopStop, eStart, preserveCol);
      CleanedShape(q, k, c, eLoopStop, preserveCol);
      E := next;
      if E == eLoopStop {
        ok := true;
        break;
      }
      k, c := After(|q|, k), c + 1;
    }
  }

  lemma CleanedShape(q: seq<PathEdge>, k: nat, c: nat, loopStop: PathEdge, preserveCol: bool)
    requires Cleaned(q, k, c, loopStop, preserveCol)
    ensures k < |q| && c < |q|
  {
  }

  // ---------------------------------------------------------------- the ring of edges

  /** The lower and the upper end of the edge at place `i`; Y grows downwards. */
  ghost predicate Ends(r: seq<PathEdge>, i: nat)
    requires i < |r|
    reads r[i]
  {
    var p, q := r[i].Curr, r[After(|r|, i)].Curr;
    if p.Y >= q.Y then r[i].Bot == p && r[i].Top == q else r[i].Bot == q && r[i].Top == p
  }

  method InitEdge2(e: PathEdge, ghost r: seq<PathEdge>, ghost i: nat)
    requires EdgeRing(r) && i < |r| && e == r[i]
    modifies e`Bot, e`Top
    ensures Ends(r, i)
  {
    if e.Curr.Y >= e.Next.Curr.Y {
      e.Bot := e.Curr;
      e.Top := e.Next.Curr;
    } else {
      e.Top := e.Curr;
      e.Bot := e.Next.Curr;
    }
  }

  /** Gives all edges their ends, and finds out whether the path is flat. */
  method InitEnds(eStart: PathEdge, ghost r: seq<PathEdge>) returns (isFlat: bool)
    requires EdgeRing(r) && eStart == r[0]
    modifies r`Bot, r`Top
    ensures forall i :: 0 <= i < |r| ==> Ends(r, i)
    ensures isFlat <==> forall i :: 0 <= i < |r| ==> r[i].Curr.Y == eStart.Curr.Y
  {
    isFlat := true;
    var e := eStart;
    ghost var k := 0;
    while true
      invariant k < |r| && e == r[k] && forall i :: 0 <= i < k ==> Ends(r, i)
      invariant isFlat <==> forall i :: 0 <= i <= k ==> r[i].Curr.Y == eStart.Curr.Y
      decreases |r| - k
    {
      DistinctAt(r, k);
      InitEdge2(e, r, k);
      e := e.Next;
      if isFlat && e.Curr.Y != eStart.Curr.Y {
        isFlat := false;
      }
      k := k + 1;
      if e == eStart {
        DistinctAt(r, 0);
        break;
      }
    }
  }

  /** A path along one scanline has no area. */
  lemma {:induction false} FlatAlong(s: seq<IntPoint>)
    requires forall i :: 0 <= i < |s| ==> s[i].Y == s[0].Y
    ensures Along(s, Trapezoid) == 0
  {
    if |s| >= 2 {
      FlatAlong(s[..|s| - 1]);
    }
  }

  lemma FlatIsEmpty(s: seq<IntPoint>)
    requires forall i :: 0 <= i < |s| ==> s[i].Y == s[0].Y
    ensures Area2(s) == 0
  {
    FlatAlong(s);
  }

  lemma RotateEdges(q: seq<PathEdge>, k: nat)
    requires EdgeRing(q) && k < |q|
    ensures EdgeRing(Rotate(q, k)) && Rotate(q, k)[0] == q[k] && Points(Rotate(q, k)) == Rotate(Points(q), k)
  {
    DistinctRotate(q, k);
  }

  lemma NeededRotated(s: seq<IntPoint>, k: nat, preserveCol: bool)
    requires k < |s| && forall i :: 0 <= i < |s| ==> Needed(s, i, preserveCol)
    ensures forall i :: 0 <= i < |s| ==> Needed(Rotate(s, k), i, preserveCol)
  {
    var t, n := Rotate(s, k), |s|;
    forall i | 0 <= i < n ensures Needed(t, i, preserveCol) {
      var j := if i < n - k then i + k else i - (n - k);
      assert Needed(s, j, preserveCol);
      assert t[i] == s[j] && t[After(n, i)] == s[After(n, j)] && t[Before(n, i)] == s[Before(n, j)];
    }
  }

  lemma CoverRotated(q: seq<IntPoint>, s: seq<IntPoint>, k: nat)
    requires SameCover(q, s) && k <= |q|
    ensures SameCover(Rotate(q, k), s)
  {
    AreaRotate(q, k);
    forall pt ensures Location(Rotate(q, k), pt) == Location(q, pt) {
      LocationRotate(q, k, pt);
    }
  }

  /** The ring of edges of a cleaned path, with the ends of the edges settled. */
  ghost predicate PathRing(r: seq<PathEdge>, preserveCol: bool)
    reads r
  {
    && EdgeRing(r) && |r| > 2
    && (forall i :: 0 <= i < |r| ==> !SuperfluousAt(Points(r), i, preserveCol))
    && (forall i :: 0 <= i < |r| ==> Ends(r, i))
    && (forall i :: 0 <= i < |r| ==> r[i].NextInLML == null)
  }

  /**
   Makes the ring of edges of a closed path. The path is rejected only when it encloses
   nothing; otherwise the ring covers what the path covers, and needs each of its vertices.
   */
  method BuildRing(pg: seq<IntPoint>, preserveCol: bool) returns (ok: bool, eStart: PathEdge?, ghost r: seq<PathEdge>)
    ensures !ok ==> Area2(pg) == 0
    ensures ok ==> eStart != null && fresh(r) && PathRing(r, preserveCol) && r[0] == eStart && SameCover(Points(r), pg)
    ensures ok ==> exists i :: 0 <= i < |r| && r[i].Curr.Y != r[0].Curr.Y
  {
    hide SameCover, Needed, SuperfluousAt;
    eStart, r := null, [];
    var highI := TrimEnd(pg);
    CoverArea(pg[..highI + 1], pg);
    if highI < 2 {
      FlatArea(pg[..highI + 1]);
      return false, null, [];
    }
    var edges := InitEdges(pg[..highI + 1]);
    ghost var q;
    ok, eStart, q := CleanEdges(edges[0], preserveCol, edges);
    CoverTwice(Points(q), pg[..highI + 1], pg);
    CoverArea(Points(q), pg);
    if !ok {
      FlatArea(Points(q));
      return false, null, [];
    }
    ok, r := SettleRing(eStart, preserveCol, q, pg);
  }

  lemma CoverArea(q: seq<IntPoint>, s: seq<IntPoint>)
    requires SameCover(q, s)
    ensures Area2(q) == Area2(s)
  {
  }

  lemma CoverTwice(q: seq<IntPoint>, r: seq<IntPoint>, s: seq<IntPoint>)
    requires SameCover(q, r) && SameCover(r, s)
    ensures SameCover(q, s)
  {
  }

  method SettleRing(eStart: PathEdge, preserveCol: bool, ghost q: seq<PathEdge>, ghost pg: seq<IntPoint>) returns (ok: bool, ghost r: seq<PathEdge>)
    requires EdgeRing(q) && eStart in q && |q| > 2 && SameCover(Points(q), pg)
    requires forall i :: 0 <= i < |q| ==> Needed(Points(q), i, preserveCol)
    requires forall i :: 0 <= i < |q| ==> q[i].NextInLML == null
    modifies q`Bot, q`Top
    ensures !ok ==> Area2(pg) == 0
    ensures PathRing(r, preserveCol) && r[0] == eStart && SameCover(Points(r), pg)
    ensures forall i :: 0 <= i < |r| ==> r[i] in q
    ensures ok ==> exists i :: 0 <= i < |r| && r[i].Curr.Y != r[0].Curr.Y
  {
    hide SameCover, Needed, SuperfluousAt;
    ghost var k :| 0 <= k < |q| && q[k] == eStart;
    r := Rotate(q, k);
    RotateEdges(q, k);
    NeededRotated(Points(q), k, preserveCol);
    AllNeeded(Points(r), preserveCol);
    CoverRotated(Points(q), pg, k);
    CoverArea(Points(r), pg);
    var isFlat := InitEnds(eStart, r);
    ok := !isFlat;
    if isFlat {
      FlatIsEmpty(Points(r));
    }
  }
}
