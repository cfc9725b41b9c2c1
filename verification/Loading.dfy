/**
 The edges of the input as the sweep finds them.

 While a path is cleaned and cut into bounds its edges are `PathEdge` objects; to the sweep
 the same edges are `TEdge` objects, whose ends, slope and place on their bound are settled.
 Here the one become the other, and everything that the sweep asks of its edges and minima
 is shown of them.
 */
module Loading {
  import opened ClipTypes
  import opened Sequences
  import opened Winding
  import opened AddPaths
  import opened Bounds
  import opened Edges
  import opened NotedJoins
  import opened SweepRuns
  import Geometry
  import FixupPolygons

  /** `t` has the ends, the slope and the type of the edge `p` of a path. */
  ghost predicate IsEdge(p: PathEdge, typ: PolyType, t: TEdge)
    reads p`Bot, p`Top
  {
    t.Bot == p.Bot && t.Top == p.Top && t.Dx == Bounds.Dx(p) && t.PolyTyp == typ
  }

  /** The edges made so far: each is its own, and linked to the one made of the next edge of its bound. */
  ghost predicate Made(made: map<PathEdge, TEdge>, typ: PolyType)
    reads made.Keys`Bot, made.Keys`Top, made.Keys`NextInLML
  {
    && (forall p :: p in made ==> IsEdge(p, typ, made[p]))
    && (forall p :: p in made ==>
          if p.NextInLML == null then made[p].NextInLML == null
          else p.NextInLML in made && made[p].NextInLML == made[p.NextInLML])
    && (forall p, q :: p in made && q in made && p != q ==> made[p] != made[q])
  }

  /** The sweep has not met the edges yet. */
  ghost predicate Untouched(made: map<PathEdge, TEdge>)
    reads made.Keys`WindDelta, made.Values`Curr, made.Values`WindDelta, made.Values`OutIdx
  {
    forall p :: p in made ==> made[p].Curr == made[p].Bot && made[p].WindDelta == p.WindDelta && made[p].OutIdx == UNASSIGNED
  }

  /** The scanlines between which the edges of the ring lie. */
  ghost predicate Between(r: seq<PathEdge>, low: int, high: int)
    reads r`Bot, r`Top
  {
    forall i {:trigger r[i].Bot} {:trigger r[i].Top} :: 0 <= i < |r| ==> low <= r[i].Top.Y && r[i].Bot.Y <= high
  }

  lemma {:induction false} SomewhereBetween(r: seq<PathEdge>) returns (low: int, high: int)
    ensures Between(r, low, high)
  {
    if r == [] {
      low, high := 0, 0;
    } else {
      var n := |r| - 1;
      var l, h := SomewhereBetween(r[..n]);
      low := if l < r[n].Top.Y then l else r[n].Top.Y;
      high := if h > r[n].Bot.Y then h else r[n].Bot.Y;
      forall i {:trigger r[i].Bot} {:trigger r[i].Top} | 0 <= i < |r| ensures low <= r[i].Top.Y && r[i].Bot.Y <= high {
        if i < n {
          assert r[..n][i] == r[i];
        }
      }
    }
  }

  /** Makes the edge `p` and all that follow it on its bound, as far as there are none yet. */
  method MakeBound(p: PathEdge, typ: PolyType, made: map<PathEdge, TEdge>, ghost r: seq<PathEdge>, ghost minima: seq<LocalMinimum>,
                   ghost mins: seq<nat>, ghost x: nat, ghost low: int, ghost high: int) returns (made': map<PathEdge, TEdge>)
    requires Decomposed(r, minima, mins) && Between(r, low, high) && x < |r| && r[x] == p
    requires Made(made, typ) && Untouched(made)
    ensures Made(made', typ) && Untouched(made') && p in made' && made.Keys <= made'.Keys && fresh(made'.Values - made.Values)
    ensures forall q :: q in made ==> made'[q] == made[q]
    ensures forall q :: q in made' && q !in made ==> q in r && q.Top.Y <= p.Top.Y
    decreases r[x].Top.Y - low
  {
    hide Decomposed, Made, Untouched;
    if p in made {
      return made;
    }
    made' := made;
    var up: TEdge? := null;
    if p.NextInLML != null {
      ghost var y := BoundGoesUp(r, minima, mins, x);
      made' := MakeBound(p.NextInLML, typ, made, r, minima, mins, y, low, high);
      up := made'[p.NextInLML];
    }
    ghost var before := made';
    var t := new TEdge(p.Bot, p.Top, Bounds.Dx(p), typ, p.WindDelta, up);
    made' := made'[p := t];
    OneMore(before, typ, p, t);
  }

  lemma OneMore(made: map<PathEdge, TEdge>, typ: PolyType, p: PathEdge, t: TEdge)
    requires Made(made, typ) && Untouched(made) && p !in made && t !in made.Values && IsEdge(p, typ, t)
    requires t.Curr == t.Bot && t.WindDelta == p.WindDelta && t.OutIdx == UNASSIGNED
    requires if p.NextInLML == null then t.NextInLML == null else p.NextInLML in made && t.NextInLML == made[p.NextInLML]
    ensures Made(made[p := t], typ) && Untouched(made[p := t])
  {
    forall q | q in made ensures made[q] != t {
      assert made[q] in made.Values;
    }
  }

  /** An edge that follows another on a bound is there as soon as that one is; so the first edges of all bounds bring all edges. */
  lemma {:induction false} AllMade(r: seq<PathEdge>, minima: seq<LocalMinimum>, mins: seq<nat>, made: map<PathEdge, TEdge>, typ: PolyType,
                                   x: nat, low: int, high: int)
    requires Decomposed(r, minima, mins) && Between(r, low, high) && x < |r| && Made(made, typ)
    requires forall j :: 0 <= j < |minima| ==> minima[j].LeftBound in made && minima[j].RightBound in made
    ensures r[x] in made
    decreases high - r[x].Bot.Y
  {
    OnOneBound(r, minima, mins, x);
    if !StartsBound(r, minima, x) {
      var y :| 0 <= y < |r| && r[y].NextInLML == r[x];
      var x' := BoundGoesUp(r, minima, mins, y);
      Rising(r, minima, mins, y);
      AllMade(r, minima, mins, made, typ, y, low, high);
    }
  }

  lemma Rising(r: seq<PathEdge>, minima: seq<LocalMinimum>, mins: seq<nat>, x: nat)
    requires Decomposed(r, minima, mins) && x < |r|
    ensures r[x].Top.Y < r[x].Bot.Y
  {
    RisingEdge(r, x);
  }

  // ---------------------------------------------------------------- one path

  function EdgesOf(r: seq<PathEdge>): set<PathEdge> {
    set p | p in r
  }

  /** The two bounds of each minimum. */
  ghost predicate Paired(minima: seq<LocalMinimum>, made: map<PathEdge, TEdge>, pairs: seq<(TEdge, TEdge)>) {
    && |pairs| == |minima|
    && (forall j :: 0 <= j < |minima| ==>
          minima[j].LeftBound in made && minima[j].RightBound in made && pairs[j] == (made[minima[j].LeftBound], made[minima[j].RightBound]))
  }

  /** The edges of a path that has been cut into bounds, all of them, and its minima have gone over to the sweep. */
  ghost predicate Carried(r: seq<PathEdge>, minima: seq<LocalMinimum>, mins: seq<nat>, typ: PolyType, made: map<PathEdge, TEdge>,
                          pairs: seq<(TEdge, TEdge)>)
    reads r`Next, r`Prev, r`Bot, r`Top, r`NextInLML, r`WindDelta
  {
    Decomposed(r, minima, mins) && made.Keys == EdgesOf(r) && Made(made, typ) && Paired(minima, made, pairs)
  }

  method CarryOver(minima: seq<LocalMinimum>, typ: PolyType, ghost r: seq<PathEdge>, ghost mins: seq<nat>)
    returns (made: map<PathEdge, TEdge>, pairs: seq<(TEdge, TEdge)>)
    requires Decomposed(r, minima, mins)
    ensures Carried(r, minima, mins, typ, made, pairs) && Untouched(made) && fresh(made.Values)
  {
    hide Decomposed, Made, Untouched, Paired, EdgesOf;
    ghost var low, high := SomewhereBetween(r);
    made, pairs := map[], [];
    NoneMade(typ);
    assert minima[..0] == [];
    var j := 0;
    while j < |minima|
      invariant j <= |minima| && Made(made, typ) && Untouched(made) && fresh(made.Values) && Paired(minima[..j], made, pairs)
      invariant made.Keys <= EdgesOf(r)
    {
      made, pairs := CarryPair(minima, typ, made, pairs, r, mins, j, low, high);
      j := j + 1;
    }
    assert minima[..j] == minima;
    AllCarried(r, minima, mins, made, typ, pairs, low, high);
  }

  /** Makes both bounds of one minimum. */
  method CarryPair(minima: seq<LocalMinimum>, typ: PolyType, made: map<PathEdge, TEdge>, pairs: seq<(TEdge, TEdge)>, ghost r: seq<PathEdge>,
                   ghost mins: seq<nat>, j: nat, ghost low: int, ghost high: int)
    returns (made': map<PathEdge, TEdge>, pairs': seq<(TEdge, TEdge)>)
    requires Decomposed(r, minima, mins) && Between(r, low, high) && j < |minima|
    requires Made(made, typ) && Untouched(made) && made.Keys <= EdgesOf(r) && Paired(minima[..j], made, pairs)
    ensures Made(made', typ) && Untouched(made') && made'.Keys <= EdgesOf(r) && Paired(minima[..j + 1], made', pairs')
    ensures fresh(made'.Values - made.Values)
  {
    hide Decomposed, Made, Untouched, Between, Paired, EdgesOf;
    ghost var x, y := BoundPlaces(r, minima, mins, j);
    var made1 := MakeBound(minima[j].LeftBound, typ, made, r, minima, mins, x, low, high);
    made' := MakeBound(minima[j].RightBound, typ, made1, r, minima, mins, y, low, high);
    pairs' := pairs + [(made'[minima[j].LeftBound], made'[minima[j].RightBound])];
    StillEdges(r, made, made1);
    StillEdges(r, made1, made');
    OneMorePair(minima, j, made, pairs, made', pairs');
  }

  lemma StillEdges(r: seq<PathEdge>, made: map<PathEdge, TEdge>, made': map<PathEdge, TEdge>)
    requires made.Keys <= EdgesOf(r) && forall q :: q in made' && q !in made ==> q in r
    ensures made'.Keys <= EdgesOf(r)
  {
  }

  lemma OneMorePair(minima: seq<LocalMinimum>, j: nat, made: map<PathEdge, TEdge>, pairs: seq<(TEdge, TEdge)>,
                    made': map<PathEdge, TEdge>, pairs': seq<(TEdge, TEdge)>)
    requires j < |minima| && Paired(minima[..j], made, pairs) && forall q :: q in made ==> q in made' && made'[q] == made[q]
    requires minima[j].LeftBound in made' && minima[j].RightBound in made'
    requires pairs' == pairs + [(made'[minima[j].LeftBound], made'[minima[j].RightBound])]
    ensures Paired(minima[..j + 1], made', pairs')
  {
    var ms := minima[..j + 1];
    forall i | 0 <= i < |ms|
      ensures ms[i].LeftBound in made' && ms[i].RightBound in made' && pairs'[i] == (made'[ms[i].LeftBound], made'[ms[i].RightBound])
    {
      if i < j {
        assert minima[..j][i] == ms[i];
      }
    }
  }

  lemma AllCarried(r: seq<PathEdge>, minima: seq<LocalMinimum>, mins: seq<nat>, made: map<PathEdge, TEdge>, typ: PolyType,
                   pairs: seq<(TEdge, TEdge)>, low: int, high: int)
    requires Decomposed(r, minima, mins) && Between(r, low, high) && Made(made, typ) && Paired(minima, made, pairs) && made.Keys <= EdgesOf(r)
    ensures Carried(r, minima, mins, typ, made, pairs)
  {
    hide Decomposed, Made, Between;
    forall p | p in r ensures p in made {
      var x: nat :| x < |r| && r[x] == p;
      AllMade(r, minima, mins, made, typ, x, low, high);
    }
  }

  lemma NoneMade(typ: PolyType)
    ensures Made(map[], typ) && Untouched(map[]) && Paired([], map[], [])
  {
  }

  lemma BoundPlaces(r: seq<PathEdge>, minima: seq<LocalMinimum>, mins: seq<nat>, j: nat) returns (x: nat, y: nat)
    requires Decomposed(r, minima, mins) && j < |minima|
    ensures x < |r| && y < |r| && x != y && r[x] == minima[j].LeftBound && r[y] == minima[j].RightBound
    ensures LeftAbove(r[x].Bot, r[x].Top, r[y].Bot, r[y].Top)
    ensures r[x].Bot == r[y].Bot && r[x].WindDelta + r[y].WindDelta == 0 && (r[x].WindDelta == 1 || r[x].WindDelta == -1)
  {
    BoundsWind(r, minima, mins, j);
    var f, b := mins[j], FixupPolygons.Before(|r|, mins[j]);
    FollowerAt(r, minima, mins, f);
    EndsAt(r, f);
    EndsAt(r, b);
    hide Decomposed, Slanted;
    assert minima[j].LeftBound in {r[f], r[b]} && minima[j].RightBound in {r[f], r[b]};
    x := if minima[j].LeftBound == r[f] then f else b;
    y := if x == f then b else f;
  }

  lemma MadeSloped(p: PathEdge, typ: PolyType, t: TEdge)
    requires IsEdge(p, typ, t) && p.Top.Y < p.Bot.Y
    ensures Sloped(t)
  {
    DxMeans(p);
  }

  /** What the sweep asks of its edges. */
  lemma CarriedComplete(r: seq<PathEdge>, minima: seq<LocalMinimum>, mins: seq<nat>, typ: PolyType, made: map<PathEdge, TEdge>,
                        pairs: seq<(TEdge, TEdge)>)
    requires Carried(r, minima, mins, typ, made, pairs)
    ensures Complete(made.Values) && forall t :: t in made.Values ==> Sloped(t)
  {
    hide Decomposed, Sloped;
    forall t | t in made.Values ensures Sloped(t) {
      var p :| p in made && made[p] == t;
      var x: nat :| x < |r| && r[x] == p;
      Rising(r, minima, mins, x);
      MadeSloped(p, typ, t);
    }
    forall t | t in made.Values
      ensures t.Top.Y < t.Bot.Y && (t.NextInLML != null ==> t.NextInLML in made.Values && t.NextInLML.Bot == t.Top)
    {
      var p :| p in made && made[p] == t;
      var x: nat :| x < |r| && r[x] == p;
      Rising(r, minima, mins, x);
      if p.NextInLML != null {
        var y := BoundGoesUp(r, minima, mins, x);
        assert IsEdge(p.NextInLML, typ, made[p.NextInLML]);
      }
    }
  }

  /** Two edges that no step has touched, and that start the left and the right bound at one minimum. */
  ghost predicate Opening(lb: TEdge, rb: TEdge)
    reads lb`OutIdx, lb`WindDelta, rb`OutIdx, rb`WindDelta
  {
    && lb != rb && lb.Bot == rb.Bot && LeftAbove(lb.Bot, lb.Top, rb.Bot, rb.Top) && lb.PolyTyp == rb.PolyTyp
    && lb.OutIdx == rb.OutIdx == UNASSIGNED
    && (lb.WindDelta == 1 || lb.WindDelta == -1) && lb.WindDelta + rb.WindDelta == 0
  }

  /** What the sweep asks of its minima. */
  lemma CarriedOpens(r: seq<PathEdge>, minima: seq<LocalMinimum>, mins: seq<nat>, typ: PolyType, made: map<PathEdge, TEdge>,
                     pairs: seq<(TEdge, TEdge)>, j: nat)
    requires Carried(r, minima, mins, typ, made, pairs) && Untouched(made) && j < |pairs|
    ensures pairs[j].0 in made.Values && pairs[j].1 in made.Values && Opening(pairs[j].0, pairs[j].1)
  {
    var x, y := BoundPlaces(r, minima, mins, j);
    assert Distinct(r);
    DistinctAt(r, x);
    hide Decomposed;
    var p, q := minima[j].LeftBound, minima[j].RightBound;
    assert IsEdge(p, typ, made[p]) && IsEdge(q, typ, made[q]);
  }

  /** What the edges show is what the first edges of bounds at a minimum show before they are met. */
  ghost predicate OpeningIn(known: map<TEdge, EdgeView>, lb: TEdge, rb: TEdge) {
    && lb in known && rb in known && lb != rb && lb.Bot == rb.Bot && lb.PolyTyp == rb.PolyTyp
    && known[lb].outIdx == known[rb].outIdx == UNASSIGNED
    && (known[lb].delta == 1 || known[lb].delta == -1) && known[lb].delta + known[rb].delta == 0
  }

  lemma OpeningShown(edges: set<TEdge>, pairs: seq<(TEdge, TEdge)>)
    requires ReadyToSweep(edges, pairs)
    ensures forall k :: 0 <= k < |pairs| ==> OpeningIn(Shown(edges), pairs[k].0, pairs[k].1)
  {
  }

  /** At the start of a sweep every minimum may begin. */
  lemma AllBegin(m: Moment, pairs: seq<(TEdge, TEdge)>)
    requires Blank(m) && forall k :: 0 <= k < |pairs| ==> OpeningIn(m.known, pairs[k].0, pairs[k].1)
    ensures forall k :: 0 <= k < |pairs| ==> MayBegin(m, pairs[k].0, pairs[k].1)
  {
  }

  // ---------------------------------------------------------------- all paths

  datatype Contour = Contour(path: seq<IntPoint>, typ: PolyType)

  /** What has become of a contour: nothing, since it encloses nothing, or the edges and minima made of it. */
  datatype Part =
    | Dropped
    | Taken(r: seq<PathEdge>, minima: seq<LocalMinimum>, mins: seq<nat>, made: map<PathEdge, TEdge>, pairs: seq<(TEdge, TEdge)>)

  ghost predicate IsPart(c: Contour, part: Part, preserveCol: bool)
    reads if part.Taken? then part.r else []
  {
    if part.Taken? then
      && Carried(part.r, part.minima, part.mins, c.typ, part.made, part.pairs) && SameCover(Points(part.r), c.path)
      && forall i :: 0 <= i < |part.r| ==> !FixupPolygons.SuperfluousAt(Points(part.r), i, preserveCol)
    else
      Geometry.Area2(c.path) == 0
  }

  ghost function EdgesMade(part: Part): set<TEdge> {
    match part
    case Dropped => {}
    case Taken(_, _, _, made, _) => made.Values
  }

  ghost function PairsMade(part: Part): seq<(TEdge, TEdge)> {
    match part
    case Dropped => []
    case Taken(_, _, _, _, pairs) => pairs
  }

  ghost function AllEdges(parts: seq<Part>): set<TEdge> {
    if parts == [] then {} else AllEdges(parts[..|parts| - 1]) + EdgesMade(parts[|parts| - 1])
  }

  ghost function AllPairs(parts: seq<Part>): seq<(TEdge, TEdge)> {
    if parts == [] then [] else AllPairs(parts[..|parts| - 1]) + PairsMade(parts[|parts| - 1])
  }

  function SetOf<T(==)>(s: seq<T>): set<T> {
    set x | x in s
  }

  /** No edge belongs to two contours. */
  ghost predicate AllApart(parts: seq<Part>) {
    parts == [] || (AllApart(parts[..|parts| - 1]) && AllEdges(parts[..|parts| - 1]) !! EdgesMade(parts[|parts| - 1]))
  }

  /** The edges and minima of all contours, in their order. */
  ghost predicate Loaded(contours: seq<Contour>, parts: seq<Part>, pairs: seq<(TEdge, TEdge)>, all: seq<TEdge>) {
    |parts| == |contours| && AllApart(parts) && pairs == AllPairs(parts) && SetOf(all) == AllEdges(parts)
  }

  /** What the sweep asks of edges and minima. */
  ghost predicate ReadyToSweep(edges: set<TEdge>, pairs: seq<(TEdge, TEdge)>)
    reads edges
  {
    && Complete(edges) && (forall e :: e in edges ==> Sloped(e))
    && forall k :: 0 <= k < |pairs| ==> pairs[k].0 in edges && pairs[k].1 in edges && Opening(pairs[k].0, pairs[k].1)
  }

  lemma TwoReady(edges: set<TEdge>, pairs: seq<(TEdge, TEdge)>, edges': set<TEdge>, pairs': seq<(TEdge, TEdge)>)
    requires ReadyToSweep(edges, pairs) && ReadyToSweep(edges', pairs')
    ensures ReadyToSweep(edges + edges', pairs + pairs')
  {
    hide Opening;
  }

  /** Everything that has been made of a path is ready for the sweep. */
  lemma CarriedReady(r: seq<PathEdge>, minima: seq<LocalMinimum>, mins: seq<nat>, typ: PolyType, made: map<PathEdge, TEdge>,
                     pairs: seq<(TEdge, TEdge)>)
    requires Carried(r, minima, mins, typ, made, pairs) && Untouched(made)
    ensures ReadyToSweep(made.Values, pairs)
  {
    hide Carried, Untouched, Complete, Opening;
    CarriedComplete(r, minima, mins, typ, made, pairs);
    forall k | 0 <= k < |pairs| ensures pairs[k].0 in made.Values && pairs[k].1 in made.Values && Opening(pairs[k].0, pairs[k].1) {
      CarriedOpens(r, minima, mins, typ, made, pairs, k);
    }
  }

  lemma NothingReady()
    ensures ReadyToSweep({}, [])
  {
  }

  /** Cleaned to the points `s`, the contour has an edge along a scanline. */
  ghost predicate HasLevel(c: Contour, s: seq<IntPoint>, preserveCol: bool) {
    && SameCover(s, c.path) && (forall i :: 0 <= i < |s| ==> !FixupPolygons.SuperfluousAt(s, i, preserveCol))
    && exists i :: 0 <= i < |s| && s[i].Y == s[FixupPolygons.After(|s|, i)].Y
  }

  lemma LevelPoints(c: Contour, r: seq<PathEdge>, preserveCol: bool)
    requires SameCover(Points(r), c.path) && forall i :: 0 <= i < |r| ==> !FixupPolygons.SuperfluousAt(Points(r), i, preserveCol)
    requires !NoLevel(Heights(r))
    ensures HasLevel(c, Points(r), preserveCol)
  {
    hide SameCover, FixupPolygons.SuperfluousAt;
    var i :| 0 <= i < |r| && Heights(r)[i] == Heights(r)[FixupPolygons.After(|r|, i)];
    assert Points(r)[i].Y == Points(r)[FixupPolygons.After(|r|, i)].Y;
  }

  /** Loads one contour, unless it has a horizontal edge. */
  method LoadOne(c: Contour, preserveCol: bool)
    returns (horizontal: bool, pairs: seq<(TEdge, TEdge)>, all: seq<TEdge>, ghost part: Part, ghost s: seq<IntPoint>)
    ensures !horizontal ==> IsPart(c, part, preserveCol) && pairs == PairsMade(part) && SetOf(all) == EdgesMade(part)
    ensures !horizontal ==> ReadyToSweep(SetOf(all), pairs) && fresh(SetOf(all))
    ensures horizontal ==> HasLevel(c, s, preserveCol)
  {
    hide HasLevel, NoLevel, Decomposed, Carried, Untouched, ReadyToSweep, SameCover, FixupPolygons.SuperfluousAt, SetOf;
    var ok, minima;
    ghost var r, mins;
    pairs, all, part := [], [], Dropped;
    NothingReady();
    ok, horizontal, minima, r, mins := AddPath(c.path, preserveCol);
    all := ListOf(map[]);
    s := Points(r);
    if horizontal {
      LevelPoints(c, r, preserveCol);
    } else if ok {
      var made;
      made, pairs := CarryOver(minima, c.typ, r, mins);
      CarriedReady(r, minima, mins, c.typ, made, pairs);
      all := ListOf(made);
      part := Taken(r, minima, mins, made, pairs);
    }
  }

  method ListOf(made: map<PathEdge, TEdge>) returns (all: seq<TEdge>)
    ensures SetOf(all) == made.Values
  {
    var keys := made.Keys;
    all := [];
    while keys != {}
      invariant keys <= made.Keys && SetOf(all) <= made.Values
      invariant forall p :: p in made && p !in keys ==> made[p] in all
      decreases keys
    {
      var p :| p in keys;
      keys := keys - {p};
      all := all + [made[p]];
    }
  }

  /** Loads all contours, unless one of them has a horizontal edge. */
  method Load(contours: seq<Contour>, preserveCol: bool)
    returns (horizontal: bool, pairs: seq<(TEdge, TEdge)>, all: seq<TEdge>, ghost parts: seq<Part>)
    ensures horizontal ==> exists i, s :: 0 <= i < |contours| && HasLevel(contours[i], s, preserveCol)
    ensures !horizontal ==> Loaded(contours, parts, pairs, all) && forall i :: 0 <= i < |contours| ==> IsPart(contours[i], parts[i], preserveCol)
    ensures !horizontal ==> ReadyToSweep(SetOf(all), pairs) && fresh(SetOf(all))
  {
    hide IsPart, ReadyToSweep, EdgesMade, PairsMade, HasLevel, AllPairs, AllEdges, AllApart;
    horizontal, pairs, all, parts := false, [], [], [];
    NothingReady();
    JoinedSets<TEdge>([], []);
    NothingLoaded();
    assert contours[..0] == [];
    var i := 0;
    while i < |contours|
      invariant i <= |contours| && Loaded(contours[..i], parts, pairs, all)
      invariant forall j :: 0 <= j < i ==> IsPart(contours[j], parts[j], preserveCol)
      invariant ReadyToSweep(SetOf(all), pairs) && fresh(SetOf(all))
    {
      var morePairs, more;
      ghost var part, s;
      horizontal, morePairs, more, part, s := LoadOne(contours[i], preserveCol);
      if horizontal {
        return;
      }
      TwoReady(SetOf(all), pairs, SetOf(more), morePairs);
      JoinedSets(all, more);
      LoadedMore(contours, i, parts, pairs, all, part, morePairs, more);
      pairs, all, parts := pairs + morePairs, all + more, parts + [part];
      i := i + 1;
    }
    assert contours[..i] == contours;
  }

  lemma JoinedSets<T>(s: seq<T>, t: seq<T>)
    ensures SetOf(s + t) == SetOf(s) + SetOf(t) && SetOf<T>([]) == {}
  {
  }

  lemma NothingLoaded()
    ensures Loaded([], [], [], [])
  {
    JoinedSets<TEdge>([], []);
  }

  lemma LoadedMore(contours: seq<Contour>, i: nat, parts: seq<Part>, pairs: seq<(TEdge, TEdge)>, all: seq<TEdge>,
                   part: Part, morePairs: seq<(TEdge, TEdge)>, more: seq<TEdge>)
    requires i < |contours| && Loaded(contours[..i], parts, pairs, all)
    requires morePairs == PairsMade(part) && SetOf(more) == EdgesMade(part) && SetOf(all) !! SetOf(more)
    ensures Loaded(contours[..i + 1], parts + [part], pairs + morePairs, all + more)
  {
    hide EdgesMade, PairsMade;
    assert (parts + [part])[..|parts|] == parts;
    JoinedSets(all, more);
  }
}
