/**
 The bounds of a closed path without horizontal edges: from every local minimum one bound
 follows the path upwards and one goes against it, each as far as the next local maximum.
 */
module Bounds {
  import opened ClipTypes
  import opened Sequences
  import opened OutPtRings
  import opened Cycles
  import opened FixupPolygons
  import opened AddPaths
  import opened Edges

  datatype LocalMinimum = LocalMinimum(Y: int, LeftBound: PathEdge, RightBound: PathEdge)

  // ---------------------------------------------------------------- heights around a ring

  /** Going on from place `i`, the path goes up the screen. */
  predicate Rises(h: seq<int>, i: nat)
    requires i < |h|
  {
    h[i] > h[After(|h|, i)]
  }

  /** No two neighbours are on one level. */
  predicate NoLevel(h: seq<int>) {
    forall i :: 0 <= i < |h| ==> h[i] != h[After(|h|, i)]
  }

  /** The path comes down to place `i` and goes up from there. */
  predicate IsMinimum(h: seq<int>, i: nat)
    requires i < |h|
  {
    Rises(h, i) && !Rises(h, Before(|h|, i))
  }

  lemma {:induction false} Lowest(h: seq<int>, n: nat) returns (k: nat)
    requires 0 < n <= |h|
    ensures k < n && forall i :: 0 <= i < n ==> h[i] <= h[k]
  {
    if n == 1 {
      k := 0;
    } else {
      k := Lowest(h, n - 1);
      if h[n - 1] > h[k] { k := n - 1; }
    }
  }

  /** Every closed path has a local minimum. */
  lemma SomeMinimum(h: seq<int>) returns (k: nat)
    requires h != [] && NoLevel(h)
    ensures k < |h| && IsMinimum(h, k)
  {
    k := Lowest(h, |h|);
    assert h[Before(|h|, k)] != h[After(|h|, Before(|h|, k))];
  }

  function Heights(r: seq<PathEdge>): (h: seq<int>)
    ensures |h| == |r|
    ensures forall i :: 0 <= i < |r| ==> h[i] == r[i].Curr.Y
  {
    seq(|r|, i requires 0 <= i < |r| => r[i].Curr.Y)
  }

  /** A ring of edges without horizontals, with the ends of its edges settled. */
  ghost predicate Slanted(r: seq<PathEdge>)
    reads r`Next, r`Prev, r`Bot, r`Top
  {
    && EdgeRing(r) && |r| > 2 && NoLevel(Heights(r))
    && (forall i {:trigger r[i].Bot} {:trigger r[i].Top} :: 0 <= i < |r| ==>
          if Rises(Heights(r), i) then r[i].Bot == r[i].Curr && r[i].Top == r[After(|r|, i)].Curr
          else r[i].Bot == r[After(|r|, i)].Curr && r[i].Top == r[i].Curr)
  }

  lemma PathRingSlanted(r: seq<PathEdge>, preserveCol: bool)
    requires PathRing(r, preserveCol) && NoLevel(Heights(r))
    ensures Slanted(r)
  {
    forall i {:trigger r[i].Bot} {:trigger r[i].Top} | 0 <= i < |r|
      ensures if Rises(Heights(r), i) then r[i].Bot == r[i].Curr && r[i].Top == r[After(|r|, i)].Curr
              else r[i].Bot == r[After(|r|, i)].Curr && r[i].Top == r[i].Curr
    {
      assert AddPaths.Ends(r, i) && Heights(r)[i] != Heights(r)[After(|r|, i)];
    }
  }

  /** The edge that should follow edge `x` on its bound. */
  ghost function Follower(r: seq<PathEdge>, x: nat): PathEdge?
    requires x < |r|
  {
    var h, n := Heights(r), |r|;
    if Rises(h, x) then (if Rises(h, After(n, x)) then r[After(n, x)] else null)
    else if !Rises(h, Before(n, x)) then r[Before(n, x)] else null
  }

  // ---------------------------------------------------------------- finding minima

  /** The first local minimum at or behind the given edge. */
  method FindNextLocMin(E0: PathEdge, ghost r: seq<PathEdge>, ghost k0: nat) returns (E: PathEdge, ghost d: nat)
    requires Slanted(r) && k0 < |r| && E0 == r[k0]
    ensures d < |r| && E == r[StepsForward(|r|, k0, d)] && IsMinimum(Heights(r), StepsForward(|r|, k0, d))
    ensures forall j :: 0 <= j < d ==> !IsMinimum(Heights(r), StepsForward(|r|, k0, j))
    ensures exists m :: 0 <= m < |r| && E == r[m] && IsMinimum(Heights(r), m)
  {
    ghost var m := SomeMinimum(Heights(r));
    ghost var dm := if m >= k0 then m - k0 else m + |r| - k0;
    E, d := E0, 0;
    while !AtMinimum(E, r, StepsForward(|r|, k0, d))
      invariant d <= dm && E == r[StepsForward(|r|, k0, d)]
      invariant forall j :: 0 <= j < d ==> !IsMinimum(Heights(r), StepsForward(|r|, k0, j))
      decreases dm - d
    {
      E := E.Next;
      d := d + 1;
    }
  }

  function StepsForward(n: nat, k: nat, d: nat): (i: nat)
    requires k < n && d < n
    ensures i < n
  {
    if k + d < n then k + d else k + d - n
  }

  /** What the search looks at: both edges start at one point, and this one does not end there. */
  predicate AtMinimum(E: PathEdge, ghost r: seq<PathEdge>, ghost i: nat)
    requires Slanted(r) && i < |r| && E == r[i]
    reads r`Next, r`Prev, r`Bot, r`Top
    ensures AtMinimum(E, r, i) <==> IsMinimum(Heights(r), i)
  {
    assert E.Prev == r[Before(|r|, i)];
    assert Heights(r)[i] != Heights(r)[After(|r|, i)];
    assert Heights(r)[Before(|r|, i)] != Heights(r)[After(|r|, Before(|r|, i))];
    E.Bot == E.Prev.Bot && E.Curr != E.Top
  }

  // ---------------------------------------------------------------- following a bound

  /** Follows the path upwards from `E`: links each edge to the next one, as far as they rise. */
  method ProcessForward(E: PathEdge, ghost r: seq<PathEdge>, ghost i: nat) returns (result: PathEdge, ghost t: nat)
    requires Slanted(r) && i < |r| && E == r[i] && Rises(Heights(r), i) && !Rises(Heights(r), |r| - 1)
    requires forall x :: i <= x < |r| && Rises(Heights(r), x) ==> r[x].NextInLML == null
    modifies r`NextInLML
    ensures i < t < |r| && result == r[t] && !Rises(Heights(r), t)
    ensures forall x :: i <= x < t ==> Rises(Heights(r), x) && r[x].NextInLML == Follower(r, x)
    ensures forall x :: 0 <= x < |r| && !(i <= x < t) ==> r[x].NextInLML == old(r[x].NextInLML)
  {
    hide Slanted, Rises;
    result, t := TopForward(E, r, i);
    LinkForward(E, result, r, i, t);
    result := NextOf(result, r, t);
    t := t + 1;
  }

  method NextOf(E: PathEdge, ghost r: seq<PathEdge>, ghost i: nat) returns (next: PathEdge)
    requires Slanted(r) && i < |r| && E == r[i]
    ensures next == r[After(|r|, i)]
  {
    next := E.Next;
  }

  method PrevOf(E: PathEdge, ghost r: seq<PathEdge>, ghost i: nat) returns (prev: PathEdge)
    requires Slanted(r) && i < |r| && E == r[i]
    ensures prev == r[Before(|r|, i)]
  {
    prev := E.Prev;
  }

  /** The last edge of the bound that follows the path upwards from `E`. */
  method TopForward(E: PathEdge, ghost r: seq<PathEdge>, ghost i: nat) returns (result: PathEdge, ghost t: nat)
    requires Slanted(r) && i < |r| && E == r[i] && Rises(Heights(r), i) && !Rises(Heights(r), |r| - 1)
    ensures i <= t < |r| - 1 && result == r[t] && !Rises(Heights(r), t + 1)
    ensures forall x :: i <= x <= t ==> Rises(Heights(r), x)
  {
    result := E;
    t := i;
    RisesOn(r, t);
    hide Slanted, Rises;
    while result.Top.Y == result.Next.Bot.Y
      invariant i <= t < |r| && result == r[t] && forall x :: i <= x <= t ==> Rises(Heights(r), x)
      invariant r[t].Next == r[After(|r|, t)]
      invariant r[t].Top.Y == r[After(|r|, t)].Bot.Y <==> Rises(Heights(r), After(|r|, t))
      decreases |r| - t
    {
      result := result.Next;
      t := t + 1;
      RisesOn(r, t);
    }
  }

  method LinkForward(E0: PathEdge, result: PathEdge, ghost r: seq<PathEdge>, ghost i: nat, ghost t: nat)
    requires Slanted(r) && i <= t < |r| - 1 && E0 == r[i] && result == r[t] && !Rises(Heights(r), t + 1)
    requires forall x :: i <= x <= t ==> Rises(Heights(r), x)
    requires r[t].NextInLML == null
    modifies r`NextInLML
    ensures forall x :: i <= x <= t ==> r[x].NextInLML == Follower(r, x)
    ensures forall x :: 0 <= x < |r| && !(i <= x <= t) ==> r[x].NextInLML == old(r[x].NextInLML)
  {
    var E := E0;
    ghost var k := i;
    DistinctAt(r, t);
    hide Rises, NoLevel;
    while E != result
      invariant i <= k <= t && E == r[k]
      invariant forall x :: i <= x < k ==> r[x].NextInLML == r[x + 1]
      invariant forall x :: 0 <= x < |r| && !(i <= x < k) ==> r[x].NextInLML == old(r[x].NextInLML)
      decreases t - k
    {
      DistinctAt(r, k);
      E.NextInLML := E.Next;
      E := E.Next;
      k := k + 1;
    }
  }

  /** The test for the end of a forward bound. */
  lemma RisesOn(r: seq<PathEdge>, t: nat)
    requires Slanted(r) && t < |r| && Rises(Heights(r), t)
    ensures r[t].Next == r[After(|r|, t)]
    ensures r[t].Top.Y == r[After(|r|, t)].Bot.Y <==> Rises(Heights(r), After(|r|, t))
  {
    var u := After(|r|, t);
    assert Heights(r)[u] != Heights(r)[After(|r|, u)];
    assert r[t].Top == r[u].Curr;
    assert r[u].Bot == if Rises(Heights(r), u) then r[u].Curr else r[After(|r|, u)].Curr;
  }

  /** Goes against the path upwards from `E`: links each edge to the previous one, as far as they do not rise. */
  method ProcessBackward(E: PathEdge, ghost r: seq<PathEdge>, ghost k: nat, ghost lo: nat) returns (result: PathEdge, ghost u: nat)
    requires Slanted(r) && k < |r| && E == r[k] && !Rises(Heights(r), k) && Rises(Heights(r), 0)
    requires 0 < lo <= k && Rises(Heights(r), lo - 1) && forall x :: lo <= x <= k ==> r[x].NextInLML == null
    modifies r`NextInLML
    ensures lo <= u <= k && result == r[u - 1] && Rises(Heights(r), u - 1)
    ensures forall x :: u <= x <= k ==> !Rises(Heights(r), x) && r[x].NextInLML == Follower(r, x)
    ensures forall x :: 0 <= x < |r| && !(u <= x <= k) ==> r[x].NextInLML == old(r[x].NextInLML)
  {
    hide Slanted, Rises;
    result, u := TopBackward(E, r, k);
    LinkBackward(E, result, r, u, k);
    result := PrevOf(result, r, u);
  }

  /** The last edge of the bound that goes against the path upwards from `E`. */
  method TopBackward(E: PathEdge, ghost r: seq<PathEdge>, ghost k: nat) returns (result: PathEdge, ghost u: nat)
    requires Slanted(r) && k < |r| && E == r[k] && !Rises(Heights(r), k) && Rises(Heights(r), 0)
    ensures 0 < u <= k && result == r[u] && Rises(Heights(r), u - 1)
    ensures forall x :: u <= x <= k ==> !Rises(Heights(r), x)
  {
    result := E;
    u := k;
    FallsOn(r, u);
    hide Slanted, Rises;
    while result.Top.Y == result.Prev.Bot.Y
      invariant 0 < u <= k && result == r[u] && forall x :: u <= x <= k ==> !Rises(Heights(r), x)
      invariant r[u].Prev == r[Before(|r|, u)]
      invariant r[u].Top.Y == r[Before(|r|, u)].Bot.Y <==> !Rises(Heights(r), Before(|r|, u))
      decreases u
    {
      result := result.Prev;
      u := u - 1;
      FallsOn(r, u);
    }
  }

  method LinkBackward(E0: PathEdge, result: PathEdge, ghost r: seq<PathEdge>, ghost u: nat, ghost k: nat)
    requires Slanted(r) && 0 < u <= k < |r| && E0 == r[k] && result == r[u] && Rises(Heights(r), u - 1)
    requires forall x :: u <= x <= k ==> !Rises(Heights(r), x)
    requires r[u].NextInLML == null
    modifies r`NextInLML
    ensures forall x :: u <= x <= k ==> r[x].NextInLML == Follower(r, x)
    ensures forall x :: 0 <= x < |r| && !(u <= x <= k) ==> r[x].NextInLML == old(r[x].NextInLML)
  {
    var E := E0;
    ghost var j := k;
    DistinctAt(r, u);
    hide Rises, NoLevel;
    while E != result
      invariant u <= j <= k && E == r[j]
      invariant forall x :: j < x <= k ==> r[x].NextInLML == r[x - 1]
      invariant forall x :: 0 <= x < |r| && !(j < x <= k) ==> r[x].NextInLML == old(r[x].NextInLML)
      decreases j
    {
      DistinctAt(r, j);
      E.NextInLML := E.Prev;
      E := E.Prev;
      j := j - 1;
    }
  }

  lemma FallsOn(r: seq<PathEdge>, u: nat)
    requires Slanted(r) && u < |r| && !Rises(Heights(r), u)
    ensures r[u].Prev == r[Before(|r|, u)]
    ensures r[u].Top.Y == r[Before(|r|, u)].Bot.Y <==> !Rises(Heights(r), Before(|r|, u))
  {
    var v := Before(|r|, u);
    assert After(|r|, v) == u;
    assert Heights(r)[v] != Heights(r)[u];
    assert r[u].Top == r[u].Curr;
    assert r[v].Bot == if Rises(Heights(r), v) then r[v].Curr else r[u].Curr;
  }

  // ---------------------------------------------------------------- all bounds of a path

  function Dx(e: PathEdge): real
    reads e`Top, e`Bot
  {
    if e.Top.Y == e.Bot.Y then HORIZONTAL else (e.Top.X - e.Bot.X) as real / (e.Top.Y - e.Bot.Y) as real
  }

  /** How far to the right an edge goes for each step downwards. */
  lemma DxMeans(e: PathEdge)
    requires e.Top.Y < e.Bot.Y
    ensures Dx(e) * (e.Bot.Y - e.Top.Y) as real == (e.Bot.X - e.Top.X) as real
  {
    var h := (e.Bot.Y - e.Top.Y) as real;
    assert (e.Top.Y - e.Bot.Y) as real == -h && (e.Top.X - e.Bot.X) as real == -((e.Bot.X - e.Top.X) as real);
    Divide(-((e.Bot.X - e.Top.X) as real), -h);
  }

  lemma Divide(x: real, y: real)
    requires y != 0.0
    ensures x / y * -y == -x
  {
  }

  lemma SteeperIsLeft(l: PathEdge, r: PathEdge)
    requires l.Top.Y < l.Bot.Y && r.Top.Y < r.Bot.Y && Dx(l) >= Dx(r)
    ensures LeftAbove(l.Bot, l.Top, r.Bot, r.Top)
  {
    DxMeans(l);
    DxMeans(r);
    LargerSlopeIsLeft(Dx(l), Dx(r), l.Bot, l.Top, r.Bot, r.Top);
  }

  /**
   The two edges at the minimum at place `i` start its bounds, the left one to the left of the
   right one; the one along the path winds by 1, the other by -1.
   */
  ghost predicate Starts(r: seq<PathEdge>, locMin: LocalMinimum, i: nat)
    requires i < |r|
    reads r`WindDelta, r`Bot, r`Top
  {
    var f, b := r[i], r[Before(|r|, i)];
    && ((locMin.LeftBound == f && locMin.RightBound == b) || (locMin.LeftBound == b && locMin.RightBound == f))
    && LeftAbove(locMin.LeftBound.Bot, locMin.LeftBound.Top, locMin.RightBound.Bot, locMin.RightBound.Top)
    && locMin.Y == r[i].Curr.Y && f.WindDelta == 1 && b.WindDelta == -1
  }

  lemma RisingEdge(r: seq<PathEdge>, x: nat)
    requires Slanted(r) && x < |r|
    ensures r[x].Top.Y < r[x].Bot.Y
  {
    EndsAt(r, x);
  }

  /** Decides which of the two edges at a minimum starts the left bound, and which way each of them winds. */
  method MakeMinimum(E: PathEdge, ghost r: seq<PathEdge>, ghost i: nat) returns (locMin: LocalMinimum, leftBoundIsForward: bool)
    requires Slanted(r) && i < |r| && E == r[i] && IsMinimum(Heights(r), i)
    modifies E`WindDelta, {r[Before(|r|, i)]}`WindDelta
    ensures Starts(r, locMin, i)
    ensures leftBoundIsForward <==> Dx(r[i]) >= Dx(r[Before(|r|, i)])
    ensures locMin.LeftBound == if leftBoundIsForward then r[i] else r[Before(|r|, i)]
    ensures locMin.RightBound == if leftBoundIsForward then r[Before(|r|, i)] else r[i]
  {
    DistinctAt(r, i);
    DistinctAt(r, Before(|r|, i));
    assert E.Prev == r[Before(|r|, i)] && E.Bot == E.Curr;
    assert E.Prev.Next == E && E.Next != E.Prev;
    RisingEdge(r, i);
    RisingEdge(r, Before(|r|, i));
    if Dx(E) < Dx(E.Prev) {
      SteeperIsLeft(E.Prev, E);
      locMin := LocalMinimum(E.Bot.Y, E.Prev, E);
      leftBoundIsForward := false;
    } else {
      SteeperIsLeft(E, E.Prev);
      locMin := LocalMinimum(E.Bot.Y, E, E.Prev);
      leftBoundIsForward := true;
    }
    if locMin.LeftBound.Next == locMin.RightBound {
      locMin.LeftBound.WindDelta := -1;
    } else {
      locMin.LeftBound.WindDelta := 1;
    }
    locMin.RightBound.WindDelta := -locMin.LeftBound.WindDelta;
  }

  /**
   How far the edges have been linked into bounds: up to place `p`; from there to the next
   minimum at place `i` no edge rises; of the rest only the end from place `tail` on is linked.
   */
  ghost predicate BoundsUpTo(r: seq<PathEdge>, p: nat, i: nat, tail: nat)
    reads r`NextInLML
  {
    && p <= i <= tail <= |r|
    && (forall x :: 0 <= x < p ==> r[x].NextInLML == Follower(r, x))
    && (forall x :: p <= x < i ==> !Rises(Heights(r), x))
    && (forall x :: p <= x < tail ==> r[x].NextInLML == null)
    && (forall x :: tail <= x < |r| ==> !Rises(Heights(r), x) && r[x].NextInLML == Follower(r, x))
    && (p > 0 ==> p < |r| && Rises(Heights(r), p - 1) && tail < |r| && Rises(Heights(r), tail - 1))
    && (p == 0 ==> i == 0 && tail == |r|)
  }

  /** Links both bounds of the minimum at place `i`; the result is the edge behind the forward bound. */
  method ProcessBounds(locMin: LocalMinimum, leftBoundIsForward: bool, ghost r: seq<PathEdge>, ghost p: nat, ghost i: nat, ghost tail: nat)
    returns (E: PathEdge, ghost t: nat, ghost tail': nat)
    requires Slanted(r) && i < |r| && IsMinimum(Heights(r), i) && IsMinimum(Heights(r), 0) && BoundsUpTo(r, p, i, tail)
    requires locMin.LeftBound == if leftBoundIsForward then r[i] else r[Before(|r|, i)]
    requires locMin.RightBound == if leftBoundIsForward then r[Before(|r|, i)] else r[i]
    modifies r`NextInLML
    ensures i < t < |r| && E == r[t] && !Rises(Heights(r), t) && BoundsUpTo(r, t, t, tail')
    ensures forall x :: i <= x < t ==> Rises(Heights(r), x)
  {
    hide Slanted, Rises, Follower, BoundsUpTo, IsMinimum;
    if leftBoundIsForward {
      E, t, tail' := ForwardFirst(locMin.LeftBound, locMin.RightBound, r, p, i, tail);
    } else {
      E, t, tail' := BackwardFirst(locMin.LeftBound, locMin.RightBound, r, p, i, tail);
    }
  }

  method ForwardFirst(left: PathEdge, right: PathEdge, ghost r: seq<PathEdge>, ghost p: nat, ghost i: nat, ghost tail: nat)
    returns (E: PathEdge, ghost t: nat, ghost tail': nat)
    requires Slanted(r) && i < |r| && IsMinimum(Heights(r), i) && IsMinimum(Heights(r), 0) && BoundsUpTo(r, p, i, tail)
    requires left == r[i] && right == r[Before(|r|, i)]
    modifies r`NextInLML
    ensures i < t < |r| && E == r[t] && !Rises(Heights(r), t) && BoundsUpTo(r, t, t, tail')
    ensures forall x :: i <= x < t ==> Rises(Heights(r), x)
  {
    hide Slanted, Rises, Follower;
    E, t := ProcessForward(left, r, i);
    ghost var u := BackwardAt(right, r, p, i, tail, t);
    tail' := if p == 0 then u else tail;
    BoundsJoined(r, p, i, tail, t, u);
  }

  method BackwardFirst(left: PathEdge, right: PathEdge, ghost r: seq<PathEdge>, ghost p: nat, ghost i: nat, ghost tail: nat)
    returns (E: PathEdge, ghost t: nat, ghost tail': nat)
    requires Slanted(r) && i < |r| && IsMinimum(Heights(r), i) && IsMinimum(Heights(r), 0) && BoundsUpTo(r, p, i, tail)
    requires left == r[Before(|r|, i)] && right == r[i]
    modifies r`NextInLML
    ensures i < t < |r| && E == r[t] && !Rises(Heights(r), t) && BoundsUpTo(r, t, t, tail')
    ensures forall x :: i <= x < t ==> Rises(Heights(r), x)
  {
    hide Slanted, Rises, Follower;
    ghost var u := BackwardAt(left, r, p, i, tail, i);
    E, t := ProcessForward(right, r, i);
    tail' := if p == 0 then u else tail;
    BoundsJoined(r, p, i, tail, t, u);
  }

  lemma BoundsJoined(r: seq<PathEdge>, p: nat, i: nat, tail: nat, t: nat, u: nat)
    requires p <= i < t < |r| && i <= tail <= |r| && u <= Before(|r|, i)
    requires forall x :: 0 <= x < p ==> r[x].NextInLML == Follower(r, x)
    requires forall x :: i <= x < t ==> Rises(Heights(r), x) && r[x].NextInLML == Follower(r, x)
    requires forall x :: u <= x <= Before(|r|, i) ==> !Rises(Heights(r), x) && r[x].NextInLML == Follower(r, x)
    requires if p > 0 then u == p && tail < |r| && Rises(Heights(r), tail - 1) else i == 0 && tail == |r| && 0 < u && Rises(Heights(r), u - 1)
    requires forall x :: t <= x < tail && (p == 0 ==> x < u) ==> r[x].NextInLML == null
    requires forall x :: tail <= x < |r| ==> !Rises(Heights(r), x) && r[x].NextInLML == Follower(r, x)
    ensures BoundsUpTo(r, t, t, if p == 0 then u else tail)
  {
    hide Rises, Follower, Heights;
    assert Rises(Heights(r), t - 1);
    if p == 0 {
      assert t <= u;
      forall x | 0 <= x < t ensures r[x].NextInLML == Follower(r, x) {
      }
    } else {
      assert t <= tail;
      forall x | 0 <= x < t ensures r[x].NextInLML == Follower(r, x) {
        assert x < p || (u <= x <= Before(|r|, i)) || i <= x < t;
      }
    }
  }

  /** The backward bound of the minimum at place `i`; the edges from there up to place `t` may have been linked already. */
  method BackwardAt(E: PathEdge, ghost r: seq<PathEdge>, ghost p: nat, ghost i: nat, ghost tail: nat, ghost t: nat) returns (ghost u: nat)
    requires Slanted(r) && p <= i < |r| && IsMinimum(Heights(r), i) && Rises(Heights(r), 0) && E == r[Before(|r|, i)]
    requires forall x :: p <= x < i ==> !Rises(Heights(r), x) && r[x].NextInLML == null
    requires i <= t < |r| && tail <= |r| && (forall x :: i <= x < t ==> Rises(Heights(r), x)) && (forall x :: t <= x < tail ==> r[x].NextInLML == null)
    requires p > 0 ==> Rises(Heights(r), p - 1)
    requires p == 0 ==> i == 0 && tail == |r|
    modifies r`NextInLML
    ensures if p > 0 then u == p else 0 < u < |r| && t <= u && Rises(Heights(r), u - 1)
    ensures var k := Before(|r|, i); u <= k && (forall x :: u <= x <= k ==> !Rises(Heights(r), x) && r[x].NextInLML == Follower(r, x))
    ensures forall x :: 0 <= x < |r| && !(u <= x <= Before(|r|, i)) ==> r[x].NextInLML == old(r[x].NextInLML)
  {
    ghost var k := Before(|r|, i);
    ghost var lo := if p > 0 then p else if t > 0 then t else 1;
    assert !Rises(Heights(r), k);
    hide Slanted, Rises, Follower;
    assert Rises(Heights(r), lo - 1);
    assert lo <= k;
    var E2;
    E2, u := ProcessBackward(E, r, k, lo);
  }

  /** Where no edge rises and no minimum comes, no edge rises. */
  lemma {:induction false} NoRiseWithoutMinimum(h: seq<int>, t: nat, d: nat)
    requires t < |h| && !Rises(h, t) && d <= |h|
    requires forall j :: 0 <= j < d ==> !IsMinimum(h, StepsForward(|h|, t, j))
    ensures forall j :: 0 <= j < d ==> !Rises(h, StepsForward(|h|, t, j))
  {
    if d > 1 {
      NoRiseWithoutMinimum(h, t, d - 1);
      assert Before(|h|, StepsForward(|h|, t, d - 1)) == StepsForward(|h|, t, d - 2);
      assert !IsMinimum(h, StepsForward(|h|, t, d - 1));
    }
  }

  /** The minima found so far are those before place `i`, each of them once. */
  ghost predicate MinimaUpTo(r: seq<PathEdge>, minima: seq<LocalMinimum>, mins: seq<nat>, i: nat)
    reads r`WindDelta, r`Bot, r`Top
  {
    && |mins| == |minima| && i <= |r|
    && (forall j :: 0 <= j < |mins| ==> mins[j] < i && IsMinimum(Heights(r), mins[j]) && Starts(r, minima[j], mins[j]))
    && (forall j, l :: 0 <= j < l < |mins| ==> mins[j] < mins[l])
    && (forall x :: 0 <= x < i && IsMinimum(Heights(r), x) ==> x in mins)
  }

  /** The bounds of the whole ring: all edges are linked, and all minima found. */
  ghost predicate Decomposed(r: seq<PathEdge>, minima: seq<LocalMinimum>, mins: seq<nat>)
    reads r`Next, r`Prev, r`Bot, r`Top, r`NextInLML, r`WindDelta
  {
    && Slanted(r) && MinimaUpTo(r, minima, mins, |r|)
    && (forall x :: 0 <= x < |r| ==> r[x].NextInLML == Follower(r, x))
  }

  lemma SlantedRotated(r: seq<PathEdge>, k: nat)
    requires Slanted(r) && k < |r|
    ensures Slanted(Rotate(r, k))
    ensures IsMinimum(Heights(r), k) ==> IsMinimum(Heights(Rotate(r, k)), 0)
  {
    RotateEdges(r, k);
    var q, n := Rotate(r, k), |r|;
    forall i | 0 <= i < n
      ensures var j := if i < n - k then i + k else i - (n - k);
        Rises(Heights(q), i) == Rises(Heights(r), j) && q[i] == r[j] && q[After(n, i)] == r[After(n, j)]
        && Heights(q)[i] != Heights(q)[After(n, i)]
    {
      var j := if i < n - k then i + k else i - (n - k);
      assert q[i] == r[j] && q[After(n, i)] == r[After(n, j)];
      assert Heights(r)[j] != Heights(r)[After(n, j)];
    }
  }

  /** As `MakeMinimum`; the minima found before are as they were. */
  method MarkMinimum(E: PathEdge, ghost r: seq<PathEdge>, ghost i: nat, ghost minima: seq<LocalMinimum>, ghost mins: seq<nat>)
    returns (locMin: LocalMinimum, leftBoundIsForward: bool)
    requires Slanted(r) && i < |r| && E == r[i] && IsMinimum(Heights(r), i) && MinimaUpTo(r, minima, mins, i)
    modifies r`WindDelta
    ensures MinimaUpTo(r, minima, mins, i) && Starts(r, locMin, i)
    ensures locMin.LeftBound == if leftBoundIsForward then r[i] else r[Before(|r|, i)]
    ensures locMin.RightBound == if leftBoundIsForward then r[Before(|r|, i)] else r[i]
  {
    DistinctAt(r, i);
    DistinctAt(r, Before(|r|, i));
    forall j | 0 <= j < |mins| ensures OtherEdges(|r|, i, mins[j]) {
      assert IsMinimum(Heights(r), mins[j]);
    }
    hide Slanted, Rises;
    locMin, leftBoundIsForward := MakeMinimum(E, r, i);
    forall j | 0 <= j < |mins| ensures Starts(r, minima[j], mins[j]) {
      assert OtherEdges(|r|, i, mins[j]);
      assert old(Starts(r, minima[j], mins[j]));
    }
  }

  /** The two edges at place `m` are not those at place `i`. */
  predicate OtherEdges(n: nat, i: nat, m: nat) {
    m < n && i < n && m != i && m != Before(n, i) && Before(n, m) != i && Before(n, m) != Before(n, i)
  }

  lemma MinimaGrow(r: seq<PathEdge>, minima: seq<LocalMinimum>, mins: seq<nat>, locMin: LocalMinimum, i: nat, t: nat)
    requires i < t <= |r| && MinimaUpTo(r, minima, mins, i) && Starts(r, locMin, i) && IsMinimum(Heights(r), i)
    requires forall x :: i <= x < t ==> Rises(Heights(r), x)
    ensures MinimaUpTo(r, minima + [locMin], mins + [i], t)
  {
    hide Starts;
    forall x | i < x < t ensures !IsMinimum(Heights(r), x) {
      assert Rises(Heights(r), x - 1);
    }
  }

  /** Makes one minimum and links its bounds. */
  method AddMinimum(E: PathEdge, ghost r: seq<PathEdge>, ghost p: nat, ghost i: nat, ghost tail: nat,
                    ghost minima: seq<LocalMinimum>, ghost mins: seq<nat>)
    returns (locMin: LocalMinimum, E': PathEdge, ghost t: nat, ghost tail': nat)
    requires Slanted(r) && i < |r| && E == r[i] && IsMinimum(Heights(r), i) && IsMinimum(Heights(r), 0)
    requires BoundsUpTo(r, p, i, tail) && MinimaUpTo(r, minima, mins, i)
    modifies r`NextInLML, r`WindDelta
    ensures i < t < |r| && E' == r[t] && !Rises(Heights(r), t) && BoundsUpTo(r, t, t, tail')
    ensures MinimaUpTo(r, minima + [locMin], mins + [i], t)
  {
    hide Slanted, BoundsUpTo, MinimaUpTo, IsMinimum, Starts, Rises;
    var leftBoundIsForward;
    locMin, leftBoundIsForward := MarkMinimum(E, r, i, minima, mins);
    E', t, tail' := ProcessBounds(locMin, leftBoundIsForward, r, p, i, tail);
    MinimaGrow(r, minima, mins, locMin, i, t);
  }

  /**
   Finds all local minima of a path and links its edges into bounds. This ends; every edge
   is then on exactly one bound.
   */
  method AddBounds(E0: PathEdge, ghost r0: seq<PathEdge>) returns (minima: seq<LocalMinimum>, ghost k: nat, ghost mins: seq<nat>)
    requires Slanted(r0) && E0 == r0[0] && forall x :: 0 <= x < |r0| ==> r0[x].NextInLML == null
    modifies r0`NextInLML, r0`WindDelta
    ensures k < |r0| && Decomposed(Rotate(r0, k), minima, mins)
  {
    var E;
    E, k := FindNextLocMin(E0, r0, 0);
    SlantedRotated(r0, k);
    RotatedIn(r0, k);
    hide Slanted, IsMinimum, Rotate, Decomposed;
    minima, mins := AddFrom(E, Rotate(r0, k));
  }

  /** As `AddBounds`, from the first minimum on. */
  method AddFrom(EMin: PathEdge, ghost r: seq<PathEdge>) returns (minima: seq<LocalMinimum>, ghost mins: seq<nat>)
    requires Slanted(r) && r != [] && EMin == r[0] && IsMinimum(Heights(r), 0) && forall x :: 0 <= x < |r| ==> r[x].NextInLML == null
    modifies r`NextInLML, r`WindDelta
    ensures Decomposed(r, minima, mins)
  {
    hide Slanted, BoundsUpTo, MinimaUpTo, Decomposed, IsMinimum, Rises;
    var E := EMin;
    ghost var p: nat, i: nat, tail: nat, t: nat, d: nat := 0, 0, |r|, 0, 0;
    minima, mins := [], [];
    BoundsStart(r);
    while true
      invariant i < |r| && E == r[i] && IsMinimum(Heights(r), i) && BoundsUpTo(r, p, i, tail) && MinimaUpTo(r, minima, mins, i)
      invariant Slanted(r)
      decreases |r| - i
    {
      var locMin;
      locMin, E, t, tail := AddMinimum(E, r, p, i, tail, minima, mins);
      minima, mins := minima + [locMin], mins + [i];
      E, d := FindNextLocMin(E, r, t);
      NextMinimum(r, minima, mins, t, d, tail);
      if E == EMin {
        break;
      }
      p, i := t, t + d;
    }
  }

  lemma RotatedIn(r: seq<PathEdge>, k: nat)
    requires Slanted(r) && k < |r| && forall x :: 0 <= x < |r| ==> r[x].NextInLML == null
    ensures forall i :: 0 <= i < |r| ==> Rotate(r, k)[i] in r && Rotate(r, k)[i].NextInLML == null
    ensures Rotate(r, k)[0] == r[k] && Distinct(Rotate(r, k))
  {
    DistinctRotate(r, k);
  }

  lemma BoundsStart(r: seq<PathEdge>)
    requires forall x :: 0 <= x < |r| ==> r[x].NextInLML == null
    ensures BoundsUpTo(r, 0, 0, |r|) && MinimaUpTo(r, [], [], 0)
  {
  }

  /** Behind a bound comes the next minimum, or all is done. */
  lemma NextMinimum(r: seq<PathEdge>, minima: seq<LocalMinimum>, mins: seq<nat>, t: nat, d: nat, tail: nat)
    requires Slanted(r) && 0 < t < |r| && d < |r| && !Rises(Heights(r), t) && IsMinimum(Heights(r), 0)
    requires BoundsUpTo(r, t, t, tail) && MinimaUpTo(r, minima, mins, t)
    requires forall j :: 0 <= j < d ==> !IsMinimum(Heights(r), StepsForward(|r|, t, j))
    requires IsMinimum(Heights(r), StepsForward(|r|, t, d))
    ensures if r[StepsForward(|r|, t, d)] == r[0] then Decomposed(r, minima, mins)
            else t + d < |r| && BoundsUpTo(r, t, t + d, tail) && MinimaUpTo(r, minima, mins, t + d)
  {
    hide Slanted, Starts, Follower, Rises, NoLevel, BoundsUpTo, MinimaUpTo, IsMinimum, Decomposed, Distinct;
    SlantedDistinct(r);
    DistinctAt(r, 0);
    Gap(Heights(r), t, d);
    MinimaAdvance(r, minima, mins, t, t + d);
    if t + d == |r| {
      TailAt(r, t, tail);
      AllLinked(r, t);
      AllDone(r, minima, mins);
    } else {
      BoundsAdvance(r, t, t + d, tail);
    }
  }

  lemma SlantedDistinct(r: seq<PathEdge>)
    requires Slanted(r)
    ensures Distinct(r)
  {
  }

  lemma AllDone(r: seq<PathEdge>, minima: seq<LocalMinimum>, mins: seq<nat>)
    requires Slanted(r) && MinimaUpTo(r, minima, mins, |r|) && forall x :: 0 <= x < |r| ==> r[x].NextInLML == Follower(r, x)
    ensures Decomposed(r, minima, mins)
  {
  }

  lemma MinimaAdvance(r: seq<PathEdge>, minima: seq<LocalMinimum>, mins: seq<nat>, t: nat, e: nat)
    requires MinimaUpTo(r, minima, mins, t) && t <= e <= |r| && forall x :: t <= x < e ==> !IsMinimum(Heights(r), x)
    ensures MinimaUpTo(r, minima, mins, e)
  {
    hide Starts, IsMinimum;
  }

  lemma BoundsAdvance(r: seq<PathEdge>, t: nat, e: nat, tail: nat)
    requires 0 < t <= e < |r| && BoundsUpTo(r, t, t, tail) && IsMinimum(Heights(r), e)
    requires forall x :: t <= x < e ==> !Rises(Heights(r), x)
    ensures BoundsUpTo(r, t, e, tail)
  {
    assert Rises(Heights(r), e);
    assert Rises(Heights(r), tail - 1);
    hide Rises, Follower;
  }

  /** From a place that does not rise to the next minimum nothing rises, and the search does not go past the end. */
  lemma Gap(h: seq<int>, t: nat, d: nat)
    requires 0 < t < |h| && d < |h| && !Rises(h, t) && IsMinimum(h, 0) && IsMinimum(h, StepsForward(|h|, t, d))
    requires forall j :: 0 <= j < d ==> !IsMinimum(h, StepsForward(|h|, t, j))
    ensures t + d <= |h| && (StepsForward(|h|, t, d) == 0 <==> t + d == |h|)
    ensures forall x :: t <= x < t + d ==> !Rises(h, x) && !IsMinimum(h, x)
  {
    NoRiseWithoutMinimum(h, t, d);
    hide Rises, IsMinimum;
    assert StepsForward(|h|, t, |h| - t) == 0;
    assert !(|h| - t < d);
    forall x | t <= x < t + d ensures !Rises(h, x) && !IsMinimum(h, x) {
      assert StepsForward(|h|, t, x - t) == x;
    }
  }

  lemma TailAt(r: seq<PathEdge>, t: nat, tail: nat)
    requires t > 0 && BoundsUpTo(r, t, t, tail) && forall x :: t <= x < |r| ==> !Rises(Heights(r), x)
    ensures tail == t
  {
    hide Rises, Follower;
    assert Rises(Heights(r), tail - 1);
  }

  lemma AllLinked(r: seq<PathEdge>, t: nat)
    requires BoundsUpTo(r, t, t, t)
    ensures forall x :: 0 <= x < |r| ==> r[x].NextInLML == Follower(r, x)
  {
  }

  /** Does some edge of the ring run along a scanline? */
  method HasHorizontal(eStart: PathEdge, ghost r: seq<PathEdge>) returns (found: bool)
    requires EdgeRing(r) && eStart == r[0]
    ensures !found <==> NoLevel(Heights(r))
  {
    var e := eStart;
    ghost var h, k: nat := Heights(r), 0;
    while true
      invariant k < |r| && e == r[k] && forall i :: 0 <= i < k ==> h[i] != h[After(|r|, i)]
      decreases |r| - k
    {
      if e.Curr.Y == e.Next.Curr.Y {
        assert h[k] == h[After(|r|, k)];
        return true;
      }
      e := e.Next;
      k := k + 1;
      if e == eStart {
        DistinctAt(r, 0);
        break;
      }
    }
    return false;
  }

  /**
   A closed path enters the clipper: it is rejected only if it encloses nothing, and otherwise
   decomposed into bounds, when none of its edges is horizontal once it has been cleaned.
   */
  method AddPath(pg: seq<IntPoint>, preserveCol: bool)
    returns (ok: bool, horizontal: bool, minima: seq<LocalMinimum>, ghost r: seq<PathEdge>, ghost mins: seq<nat>)
    ensures !ok ==> Geometry.Area2(pg) == 0
    ensures ok ==> SameCover(Points(r), pg) && forall i :: 0 <= i < |r| ==> !SuperfluousAt(Points(r), i, preserveCol)
    ensures ok && !horizontal ==> Decomposed(r, minima, mins)
    ensures horizontal ==> ok && !NoLevel(Heights(r))
  {
    var eStart;
    horizontal, minima, mins := false, [], [];
    ok, eStart, r := BuildRing(pg, preserveCol);
    if !ok {
      return;
    }
    horizontal := HasHorizontal(eStart, r);
    if !horizontal {
      PathRingSlanted(r, preserveCol);
      hide SameCover, SuperfluousAt, Slanted, Decomposed;
      ghost var k;
      minima, k, mins := AddBounds(eStart, r);
      RotateEdges(r, k);
      CoverRotated(Points(r), pg, k);
      StillNeeded(Points(r), k, preserveCol);
      r := Rotate(r, k);
    }
  }

  lemma StillNeeded(s: seq<IntPoint>, k: nat, preserveCol: bool)
    requires k < |s| && forall i :: 0 <= i < |s| ==> !SuperfluousAt(s, i, preserveCol)
    ensures forall i :: 0 <= i < |s| ==> !SuperfluousAt(Rotate(s, k), i, preserveCol)
  {
    var t, n := Rotate(s, k), |s|;
    forall i | 0 <= i < n ensures !SuperfluousAt(t, i, preserveCol) {
      var j := if i < n - k then i + k else i - (n - k);
      assert !SuperfluousAt(s, j, preserveCol);
      assert t[i] == s[j] && t[After(n, i)] == s[After(n, j)] && t[Before(n, i)] == s[Before(n, j)];
    }
  }

  // ---------------------------------------------------------------- what the decomposition gives

  /** 1 along the path, -1 against it: which way the bound of the edge winds. */
  ghost function Direction(r: seq<PathEdge>, x: nat): int
    requires x < |r|
  {
    if Rises(Heights(r), x) then 1 else -1
  }

  /** The edge at place `x` is the first one of a bound. */
  ghost predicate StartsBound(r: seq<PathEdge>, minima: seq<LocalMinimum>, x: nat)
    requires x < |r|
  {
    exists j :: 0 <= j < |minima| && (minima[j].LeftBound == r[x] || minima[j].RightBound == r[x])
  }

  /** A bound goes on where it has got to, strictly upwards, and winds as it did. */
  lemma BoundGoesUp(r: seq<PathEdge>, minima: seq<LocalMinimum>, mins: seq<nat>, x: nat) returns (y: nat)
    requires Decomposed(r, minima, mins) && x < |r| && r[x].NextInLML != null
    ensures y < |r| && r[y] == r[x].NextInLML
    ensures r[y].Bot == r[x].Top && r[y].Top.Y < r[y].Bot.Y && Direction(r, y) == Direction(r, x)
  {
    hide Decomposed, NoLevel, Slanted;
    y := if Rises(Heights(r), x) then After(|r|, x) else Before(|r|, x);
    FollowerAt(r, minima, mins, x);
    EndsAt(r, x);
    EndsAt(r, y);
  }

  lemma FollowerAt(r: seq<PathEdge>, minima: seq<LocalMinimum>, mins: seq<nat>, x: nat)
    requires Decomposed(r, minima, mins) && x < |r|
    ensures Slanted(r) && |r| > 2 && r[x].NextInLML == Follower(r, x)
    ensures After(|r|, Before(|r|, x)) == x && Before(|r|, After(|r|, x)) == x
  {
  }

  lemma EndsAt(r: seq<PathEdge>, x: nat)
    requires Slanted(r) && x < |r|
    ensures var h, n := Heights(r), |r|;
      if Rises(h, x) then r[x].Bot == r[x].Curr && r[x].Top == r[After(n, x)].Curr && h[After(n, x)] < h[x]
      else r[x].Bot == r[After(n, x)].Curr && r[x].Top == r[x].Curr && h[x] < h[After(n, x)]
  {
    assert Heights(r)[x] != Heights(r)[After(|r|, x)];
    assert r[x].Bot == r[x].Bot;
  }

  /** The bounds that start at a minimum wind as the directions of their edges say. */
  lemma BoundsWind(r: seq<PathEdge>, minima: seq<LocalMinimum>, mins: seq<nat>, j: nat)
    requires Decomposed(r, minima, mins) && j < |minima|
    ensures mins[j] < |r| && {minima[j].LeftBound, minima[j].RightBound} == {r[mins[j]], r[Before(|r|, mins[j])]}
    ensures Direction(r, mins[j]) == r[mins[j]].WindDelta == 1
    ensures Direction(r, Before(|r|, mins[j])) == r[Before(|r|, mins[j])].WindDelta == -1
  {
    assert Starts(r, minima[j], mins[j]) && IsMinimum(Heights(r), mins[j]);
  }

  /** Where the edge before `x` on its bound would be. */
  function Behind(h: seq<int>, x: nat): (y: nat)
    requires x < |h|
    ensures y < |h|
  {
    if Rises(h, x) then Before(|h|, x) else After(|h|, x)
  }

  /**
   Every edge is on exactly one bound: either it starts one, and follows no edge, or it
   follows exactly one edge, and starts none.
   */
  lemma OnOneBound(r: seq<PathEdge>, minima: seq<LocalMinimum>, mins: seq<nat>, x: nat)
    requires Decomposed(r, minima, mins) && x < |r|
    ensures StartsBound(r, minima, x) <==> forall y :: 0 <= y < |r| ==> r[y].NextInLML != r[x]
    ensures forall y, z :: 0 <= y < z < |r| && r[y].NextInLML == r[x] ==> r[z].NextInLML != r[x]
  {
    var h, b := Heights(r), Behind(Heights(r), x);
    DistinctAt(r, x);
    StartsAt(r, minima, mins, x);
    hide Rises, NoLevel, Starts, IsMinimum;
    forall y | 0 <= y < |r| ensures r[y].NextInLML == r[x] <==> y == b && Rises(h, b) == Rises(h, x) {
      FollowsOnly(r, minima, mins, x, y);
    }
  }

  /** Only the edge behind `x` can lead to it, and does unless `x` is at a minimum. */
  lemma FollowsOnly(r: seq<PathEdge>, minima: seq<LocalMinimum>, mins: seq<nat>, x: nat, y: nat)
    requires Decomposed(r, minima, mins) && x < |r| && y < |r|
    ensures r[y].NextInLML == r[x] <==> y == Behind(Heights(r), x) && Rises(Heights(r), y) == Rises(Heights(r), x)
  {
    FollowerAt(r, minima, mins, y);
    FollowerAt(r, minima, mins, x);
    DistinctAt(r, x);
    hide Decomposed, Slanted, Rises;
  }

  lemma StartsAt(r: seq<PathEdge>, minima: seq<LocalMinimum>, mins: seq<nat>, x: nat)
    requires Decomposed(r, minima, mins) && x < |r|
    ensures StartsBound(r, minima, x) <==> Rises(Heights(r), Behind(Heights(r), x)) != Rises(Heights(r), x)
  {
    var h, n := Heights(r), |r|;
    FollowerAt(r, minima, mins, x);
    if StartsBound(r, minima, x) {
      var j :| 0 <= j < |minima| && (minima[j].LeftBound == r[x] || minima[j].RightBound == r[x]);
      StartsOnlyAt(r, minima, mins, j, x);
    }
    if Rises(h, Behind(h, x)) != Rises(h, x) {
      var m := if Rises(h, x) then x else After(n, x);
      MinimumAt(r, minima, mins, m, x);
    }
  }

  lemma StartsOnlyAt(r: seq<PathEdge>, minima: seq<LocalMinimum>, mins: seq<nat>, j: nat, x: nat)
    requires Decomposed(r, minima, mins) && x < |r| && j < |minima| && (minima[j].LeftBound == r[x] || minima[j].RightBound == r[x])
    ensures Rises(Heights(r), Behind(Heights(r), x)) != Rises(Heights(r), x)
  {
    BoundsWind(r, minima, mins, j);
    FollowerAt(r, minima, mins, mins[j]);
    DistinctAt(r, x);
    assert r[x] in {minima[j].LeftBound, minima[j].RightBound};
    hide Decomposed, Slanted, Rises;
    assert x == mins[j] || x == Before(|r|, mins[j]);
  }

  lemma MinimumAt(r: seq<PathEdge>, minima: seq<LocalMinimum>, mins: seq<nat>, m: nat, x: nat)
    requires Decomposed(r, minima, mins) && m < |r| && IsMinimum(Heights(r), m) && (x == m || x == Before(|r|, m))
    ensures StartsBound(r, minima, x)
  {
    assert m in mins;
    var j :| 0 <= j < |mins| && mins[j] == m;
    assert Starts(r, minima[j], m);
  }

  /** Where a bound ends, the neighbour of its last edge ends the other bound of the maximum, which winds the other way. */
  lemma MaximumOpposite(r: seq<PathEdge>, minima: seq<LocalMinimum>, mins: seq<nat>, x: nat) returns (y: nat)
    requires Decomposed(r, minima, mins) && x < |r| && r[x].NextInLML == null
    ensures y < |r| && y != x && r[y].NextInLML == null && r[y].Top == r[x].Top && Direction(r, y) == -Direction(r, x)
  {
    y := if Rises(Heights(r), x) then After(|r|, x) else Before(|r|, x);
    FollowerAt(r, minima, mins, x);
    FollowerAt(r, minima, mins, y);
    EndsAt(r, x);
    EndsAt(r, y);
    hide Decomposed, Slanted, NoLevel;
  }

  // ---------------------------------------------------------------- scanlines

  /** The edge reaches from below the scanline up to it or beyond. */
  predicate CrossesLine(e: PathEdge, y: int)
    reads e`Top, e`Bot
  {
    e.Top.Y <= y < e.Bot.Y
  }

  /** The directions of the edges before place `n` that cross the scanline, added up. */
  ghost function Windings(r: seq<PathEdge>, y: int, n: nat): int
    requires n <= |r|
    reads r`Top, r`Bot
  {
    if n == 0 then 0 else Windings(r, y, n - 1) + if CrossesLine(r[n - 1], y) then Direction(r, n - 1) else 0
  }

  function Below(h: int, y: int): int {
    if h > y then 1 else 0
  }

  lemma {:induction false} WindingsUpTo(r: seq<PathEdge>, y: int, n: nat)
    requires Slanted(r) && n <= |r|
    ensures Windings(r, y, n) == Below(Heights(r)[0], y) - Below(Heights(r)[if n < |r| then n else 0], y)
  {
    if n > 0 {
      WindingsUpTo(r, y, n - 1);
      EndsAt(r, n - 1);
    }
  }

  /** On every scanline as many edges go up as come down. */
  lemma WindingsCancel(r: seq<PathEdge>, y: int)
    requires Slanted(r)
    ensures Windings(r, y, |r|) == 0
  {
    WindingsUpTo(r, y, |r|);
  }
}
