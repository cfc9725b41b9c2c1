# The polygon clipper, the landmark filter and box suppression, verified

This project models three algorithms of a deep-learning inference toolkit's example
utilities in Dafny and proves what they are for:

- the Vatti polygon clipper: a scanline sweep over integer points that computes the
  intersection, union, difference or exclusive-or of polygons under four fill rules;
- the relative velocity filter that smooths detected landmarks;
- hard non-maximum suppression of detected boxes.

## How it is built

`Winding` defines, independently of the clipper, what a region of the plane belongs to: the
prefix sums of the edge directions on a scanline, the fill rules and the boolean operation.
`Crossing` and `LocalExtrema` compare the clipper's case analyses with these definitions.
`Edges`, `ActiveEdgeLists`, `WindingCounts` and `SortedEdgeLists` are the edges and the lists
threaded through them; `ScanlineOrder` says where an edge belongs among them, and `Inversions`
is the combinatorics behind the intersection list.
`OutPtRings`, `OutRecs`, `Forests` and `Ownership` are the output polygons: rings of points,
the records that hold them, how merged records forward to living ones, the hierarchy of outer
polygons and holes, and which active edge builds which end of which ring. `Sweep` puts these
together: its predicate `Swept` says that an order of the active edges has right winding
counts, an output index exactly where the solution begins or ends, and open rings built by
pairs of edges; every step of the sweep keeps it. `CrossingNotes` says what crossings and
maxima put out, and where; `NotedJoins` is about the joins that the sweep notes for later, and
shows that they can be carried out. `SweepRuns` takes the steps
together to whole runs, in any order in which they are possible, and leaves a trace of them.

`JoinTests`, `RingJoins`, `RecordSplits`, `RecordJoins`, `SimplePolygons` and `FixupPolygons`
are the work on finished polygons, and `Execution` puts it behind the sweep. `Cycles`, `Geometry` and
`PointInPolygons` are the exact geometry they are measured against, `RecordTotals` the
quantities they conserve. `AddPaths` and `Bounds` turn an input path into bounds, and `Loading`
turns the edges of the bounds into the edges of the sweep, with which `Execution.Clip` goes the
whole way from contours to polygons. `Int128s` is the arithmetic of 64-bit coordinates, and
`PolyTrees` is the walk through nested results. The filter is described on values in
`VelocityFilters`, by sums over its latest movements in `VelocityMeaning`, and with its fields
in `SmoothingFilters`; `LegacyRuns` is about its legacy mode. `Suppression` is the third
algorithm, and `Pixels` says what its score means.

Every object that the source updates in place is a class here, with ghost fields for its
abstract value; every loop of the source is a loop with its invariants. What the code
promises is then proved about the abstract values.

## What was found

- `FixupIntersectionOrder` cannot fail on the list that `BuildIntersectList` makes, the error
  branch of `DoMaxima` cannot be reached by closed paths, the branch of `IntersectEdges` that
  only swaps sides is never taken, and the test of `FirstLeft` when records are merged never
  fails.
- `RangeTest` negates a coordinate to compare it, and the smallest 64-bit number wraps around
  to itself: a point with such a coordinate is accepted as if it were small, and `SlopesEqual`
  can then answer wrongly. `Int128s.MinimumSlipsThrough` is an example; `Int128s.RangeTest`
  says that accepted points are within range exactly when they have no such coordinate.
- The legacy mode of the filter is not translation invariant, as its documentation says:
  `VelocityFilters.LegacyNotInvariant` is an example, `VelocityFilters.LegacyExact` says exactly
  when a call is, and `LegacyRuns.LegacyRunExact` exactly when a run is. With the current scale
  enforced the property holds for every configuration, also for a negative velocity scale, for
  which the smoothing factor can be out of range and is then ignored.

## Conventions

Coordinates are unbounded integers, except in `Int128s`, where 64-bit arithmetic is written
out; signed overflow wraps around there. Cross products that the source computes in `double`
are exact integers. The X of an edge on a scanline, which the source computes in `double`, may
be any function of the edge and the scanline, and the point in which two edges meet any point.
The filter and the suppression compute with reals, where a division by zero gives a smoothing
factor that is out of range, as it does in floating point. Where the source calls a sorting
routine of its library, only the order of the result and its being a rearrangement are used.
The filter is given a frame rate that is not zero.

`TEdge` keeps what the sweep does not change (`Bot`, `Top`, `Dx`, `PolyTyp`, `NextInLML`)
constant; before the sweep the same edge is a `PathEdge` with the fields that are set then, and
`Loading` makes the one from the other.
The fields of the source's clipper class are grouped into `ActiveEdgeList`, `SortedEdgeList`,
`OutRecList` and `Clipper`.

## Model

| member | source | states |
|---|---|---|
| SortedEdgeLists.SortedEdgeList.BuildIntersectList | examples/utils/clipper.cc:2856-2903 | The records are, as a multiset, exactly the pairs of active edges that stand left to right now and right to left at the top of the scanbeam; replaying them from the active edge list exchanges neighbours only and ends with the edges sorted; no recorded point lies above the scanbeam |
| SortedEdgeLists.SortedEdgeList.BubbleSort | examples/utils/clipper.cc:2871-2901 | The bubble sort terminates and its exchanges lead from the given order to a sorted one |
| SortedEdgeLists.SortedEdgeList.FixupIntersectionOrder | examples/utils/clipper.cc:2934-2953 | On the records of any active edge list it always succeeds: the give-up branch is not reached; the result rearranges the records, and replaying it exchanges neighbours only and sorts the edges; an order that is already a run of exchanges of neighbours is kept |
| SortedEdgeLists.SortedEdgeList.SomeAdjacent | examples/utils/clipper.cc:2946-2948 | While records remain, one of them has adjacent edges, so the search for j never runs off the end |
| SortedEdgeLists.SortedEdgeList.AdjacentInOrder | examples/utils/clipper.cc:2927-2931 | A remaining record whose edges are adjacent has them in the order of the list: only one of the two alternatives of the test occurs |
| SortedEdgeLists.SortedEdgeList.RepairStep | examples/utils/clipper.cc:2942-2951 | One step of the repair moves the first replayable record to its place and exchanges its edges |
| SortedEdgeLists.SortedEdgeList.SwapPositionsInSEL | examples/utils/clipper.cc:2558-2580 | Exchanging an edge with its successor in the sorted list changes the sequence by exactly that exchange |
| SortedEdgeLists.SortedEdgeList.CopyAELToSEL | examples/utils/clipper.cc:1929-1940 | The sorted list becomes the same sequence as the active edge list |
| SortedEdgeLists.SortIntersectList | examples/utils/clipper.cc:2921-2924 | Any sort will do: the result is bottom-most first and a rearrangement |
| Inversions.SwapRemovesOne | examples/utils/clipper.cc:2881-2895 | Exchanging inverted neighbours removes that inversion and no other |
| Inversions.NeighboursInverted | examples/utils/clipper.cc:2944-2948 | Where any pair is inverted, some neighbours in between are |
| Inversions.SortedHasNoInversion | examples/utils/clipper.cc:2871-2901 | A list is sorted if and only if it has no inversion |
| Inversions.RunRearranges | examples/utils/clipper.cc:2906-2917 | A run of exchanges only rearranges, and keeps the edges distinct |
| ActiveEdgeLists.ActiveEdgeList.InsertEdgeIntoAEL | examples/utils/clipper.cc:3319-3345 | The list grows by exactly this edge, at the first place from the start whose edge it inserts before; a list sorted by current X stays sorted, and one that also ascends higher up among edges of equal X, where the first of the two ends, still does |
| ScanlineOrder.InsertsBeforeMeans | examples/utils/clipper.cc:3278-3287 | The test for insertion holds if and only if the new edge meets the scanline further left, or in the same place and stands further left where the first of the two edges ends |
| ScanlineOrder.NotBeforeTransitive | examples/utils/clipper.cc:3278-3287 | For edges that do not change sides above a common point this is an order |
| ScanlineOrder.InsertAscends | examples/utils/clipper.cc:3319-3345 | Put before the first edge that it stands to the left of, an edge keeps the list ascending in this order |
| ScanlineOrder.LeftBoundFirst | examples/utils/clipper.cc:3278-3345 | On exact lines the left bound of a minimum does not stand to the right of the other bound, as the insertion of the right bound behind it assumes |
| ActiveEdgeLists.ActiveEdgeList.DeleteFromAEL | examples/utils/clipper.cc:1367-1377 | The list loses exactly this edge; an edge that is already out stays out; its links are null afterwards |
| ActiveEdgeLists.ActiveEdgeList.SwapPositionsInAEL | examples/utils/clipper.cc:1395-1440 | Two edges of the list, neighbours either way or not, trade places; nothing happens once one of them has been removed |
| ActiveEdgeLists.ActiveEdgeList.UpdateEdgeIntoAEL | examples/utils/clipper.cc:1442-1463 | The next edge of the bound replaces the edge in its place and inherits its counts, side and output index; without a next edge nothing changes |
| Crossing.ContributingIsBoundary | examples/utils/clipper.cc:1741-1838 | With correct counts, IsContributing holds exactly when the boolean operation differs on the two sides of the edge, for all clip types and fill rules |
| Crossing.OwnFlip | examples/utils/clipper.cc:1754-1768 | The own count tells exactly whether the edge separates filled from unfilled for its own type, and is never zero |
| Crossing.CrossCountsFit | examples/utils/clipper.cc:2164-2186 | The counts updated by a crossing agree with the winding sums of the exchanged order |
| Crossing.DecisionKeepsOutline | examples/utils/clipper.cc:2188-2297 | Whatever branch is taken, each edge carries an output index afterwards exactly when it bounds the solution in the exchanged order; a polygon is started only where none of the three regions differ; the branch that swaps sides only is never taken |
| Crossing.CrossedKeepsRight | examples/utils/clipper.cc:2106-2297 | A crossing of neighbours keeps all counts and all output indices of the active edge list right |
| LocalExtrema.InsertKeepsRight | examples/utils/clipper.cc:2003-2014 | A pair of opposite edges with shared counts may enter anywhere: all counts and output indices stay right |
| LocalExtrema.RemoveKeepsRight | examples/utils/clipper.cc:2984-2995 | Where two opposite edges meet, both carry an output index or neither does, and taking them out keeps the rest right |
| LocalExtrema.FreshPairFits | examples/utils/clipper.cc:2009-2011 | The counts computed for the left bound are right for the right bound as well |
| WindingCounts.SetWindingCount | examples/utils/clipper.cc:1624-1722 | Computed from the nearest edge of the same type, WindCnt and WindCnt2 agree with the prefix sums of the winding directions at the place of the edge |
| WindingCounts.CountAfter | examples/utils/clipper.cc:1671-1700 | From the count of the previous edge of the type: whichever of the two winding numbers beside the edge is farther from zero |
| WindingCounts.AddOtherCounts | examples/utils/clipper.cc:1703-1721 | Walking on from the found edge completes WindCnt2 to the sum, or the parity, of the other type |
| Sweep.Clipper.UpdateWindCounts | examples/utils/clipper.cc:2164-2186 | The winding counts of two crossing edges become those that CrossCounts gives |
| Sweep.Clipper.AddOutPt | examples/utils/clipper.cc:2463-2500 | The point is added at the end of the ring that the edge builds, unless the last point there equals it; every other open end stays where it was |
| Sweep.Clipper.SetHoleState | examples/utils/clipper.cc:2301-2324 | The record found is that of the nearest edge on the left whose polygon is not closed off in between |
| Sweep.EnclosingMeans | examples/utils/clipper.cc:2301-2324 | That edge builds an end of a polygon whose other end is not to its left, and whatever else builds anything in between belongs to, or stands inside, a polygon with both ends in between |
| Sweep.Clipper.StartPoly | examples/utils/clipper.cc:1841-1860 | A new ring of one point, built by the two edges as its front and its back, in a new record whose parent and hole flag follow from the edges on the left |
| Sweep.Clipper.AddLocalMinPoly | examples/utils/clipper.cc:1841-1881 | A new ring of one point, whose index both edges carry on the sides that slope and horizontality decide; exactly when the edge before the front edge builds a polygon and runs along it, that polygon gets the point and the join of the two is noted, and nothing else changes in the rings and the joins; the new record is placed as StartPoly says |
| NotedJoins.FrontStandsLeft | examples/utils/clipper.cc:1845-1859 | Of two edges that part, the one chosen for the front of the polygon stands to the left above the point |
| NotedJoins.BesideMeans | examples/utils/clipper.cc:1866-1880 | The edge before runs along the new one if and only if both rise from one point of the scanline, their tops lie on one line with it, and both wind |
| NotedJoins.MeetsMeans | examples/utils/clipper.cc:2041-2060 | The conditions under which a minimum joins its neighbours, with the slopes told by flat triangles |
| Sweep.Clipper.AlongMeans | examples/utils/clipper.cc:3086-3103 | The condition under which a vertex joins its neighbours, in the same way |
| Sweep.Clipper.AddLocalMaxPoly | examples/utils/clipper.cc:1884-1898 | The point is added; a polygon whose two ends meet closes, different polygons are joined into the one with the smaller index; the ends of all other open polygons are untouched; of joined polygons the parent and the hole flag come from an ancestor of the other, if one is |
| Sweep.Clipper.AppendPolygon | examples/utils/clipper.cc:2367-2459 | For all four combinations of sides the rings are joined at the meeting ends, the edge building the other end takes over, and it is always found; the joined polygon has the parent and the hole flag of the record that is chosen, the other record lies in it, and the rest of the hierarchy stays |
| Sweep.Clipper.PassOutputs | examples/utils/clipper.cc:2222-2257 | Both edges get the crossing point and trade polygon and side |
| Sweep.Clipper.CrossOutputs | examples/utils/clipper.cc:2199-2297 | The branch taken is the one Decision names; for each branch the points that polygons get at the crossing, the ends that meet and what both edges build afterwards are stated, and with them the whole change of rings and joins |
| Sweep.Clipper.IntersectEdges | examples/utils/clipper.cc:2106-2297 | If an order of the active edges has right counts, right output indices and paired open rings, then so has the order in which the two crossing neighbours have changed places, for every operation and fill rule; the counts become those of the crossing; ends that meet get the crossing point first, polygons that pass on both get it, a new polygon begins there; every point that the rings gain is at the crossing point, and each edge that takes part and still builds something ends there |
| CrossingNotes.CrossedShows | examples/utils/clipper.cc:2106-2297 | What a crossing puts out lies at the crossing point, and both edges build something afterwards exactly where the branch says so |
| Sweep.Clipper.InsertLocalMinimum | examples/utils/clipper.cc:1978-2077 | Both bounds enter the list, and after the right bound has crossed the edges in between everything the sweep keeps holds again; a sorted list stays sorted; the rings and joins are exactly those of the polygon started if the left bound contributes, of the join with the edge before the left bound and of the join with the edge before the right bound, each noted exactly under its condition, and then of the crossings, each where the left bound stands on the scanline, with the edges in between from left to right; every point gained is at the lower ends or where the left bound stands; a list that ascends higher up as well still does; for bounds that rise from one point all joins noted can be carried out |
| Sweep.Clipper.OpenPair | examples/utils/clipper.cc:2009-2014 | The shared counts and the started polygon are right for the two bounds standing next to each other |
| Sweep.Clipper.PassBetween | examples/utils/clipper.cc:2062-2072 | The right bound crosses the edges in between one by one, from left to right and all where the left bound stands, each crossing stated in full, and the order of the list is right again |
| Sweep.Clipper.ProcessIntersectList | examples/utils/clipper.cc:2906-2917 | Replaying the records keeps everything the sweep keeps and ends in the last order of the run; the trace shows one crossing for each record, of its edges at its point, and every point gained is at one of these |
| CrossingNotes.RunGains | examples/utils/clipper.cc:2906-2917 | Every point gained by a run of crossings is at the place of one of them |
| Sweep.Clipper.ProcessIntersections | examples/utils/clipper.cc:2827-2845 | Never fails; exactly the pairs of edges that stand the other way round at the top of the scanbeam cross, once each, at the points recorded, none above the scanbeam; afterwards the same edges stand in ascending order of their X there, and everything the sweep keeps holds |
| Sweep.Clipper.UpdateEdge | examples/utils/clipper.cc:1442-1463 | Moving on along a bound keeps everything the sweep keeps |
| Sweep.Clipper.PromoteIntermediate | examples/utils/clipper.cc:3078-3111 | Passing a vertex keeps everything the sweep keeps; the polygon of the edge, if it builds one, gets the vertex, the next edge of the bound builds that end, and a join is noted exactly when a neighbour runs along it, with the left one if both do; every point gained is at the vertex |
| Sweep.Clipper.JoinAlong | examples/utils/clipper.cc:3089-3109 | A join is noted exactly when a neighbour runs along the new edge, with the left one if both do; the polygon of that neighbour gets the vertex, and nothing else changes |
| Sweep.Clipper.TouchLeft | examples/utils/clipper.cc:3051-3067 | For strictly simple polygons: exactly when the edge to the left meets the edge on the scanline and both build polygons, both polygons get a vertex there and the two are noted for joining |
| NotedJoins.PairReady | examples/utils/clipper.cc:1978-2077 | All joins that a minimum brings have both points on rings and lead away from the scanline of their points |
| NotedJoins.StillReady | examples/utils/clipper.cc:3679-3690 | A join that could be carried out when it was noted can be carried out at the end |
| Sweep.Clipper.DoMaxima | examples/utils/clipper.cc:2957-3006 | The two edges of a maximum leave the list after the first has crossed what is between them from left to right, all at the top vertex; there what they build gets the vertex and is closed or joined; every point gained is at the top vertex, everything the sweep keeps holds, and the error branch is not reached |
| Sweep.Clipper.EndPair | examples/utils/clipper.cc:2984-3005 | Both edges of a maximum build something or neither does; what they build gets the top vertex and is closed off or joined |
| SweepRuns.Run | examples/utils/clipper.cc:1560-1590 | Every sequence of minima entering, intersections, moves along bounds, touches and maxima ending is carried out step by step, each step as it must if it is possible at its time and not at all otherwise; at every moment no edge stands in the list twice, winding counts are right, an edge carries an output index exactly where the solution begins or ends, every index is on exactly two edges at opposite ends of a ring, and every join noted can be carried out; every point put out is at the lower end of the bounds that enter or where the left one stands on the scanline, at a vertex passed, touched or ended, or not above the scanbeam of the intersections; when no edge is left, no polygon is open |
| SweepRuns.Begin | examples/utils/clipper.cc:1473-1485 | A new clipper is in a state in which a run may start, with any edges for its input: no edge is active, and there is no ring and no join |
| SweepRuns.StartMinimum | examples/utils/clipper.cc:1978-2077 | Two edges that can start bounds at a minimum enter the list, the right one behind the left one; any others change nothing at all; points come only at the lower end of its bounds or where the left one stands on the scanline |
| SweepRuns.Intersect | examples/utils/clipper.cc:2827-2845 | In any state of the sweep the intersections below a scanline are carried out: the same edges, in ascending order on that scanline, and no point above it |
| SweepRuns.Advance | examples/utils/clipper.cc:3078-3111 | An active edge with a next edge gives way to it in its place, and points come at its top only; any other changes nothing at all |
| SweepRuns.EndMaximum | examples/utils/clipper.cc:3014-3031 | Two active edges of one type and opposite directions leave the list, and only they, and points come at the top only; any others change nothing at all |
| SweepRuns.MeetLeft | examples/utils/clipper.cc:3051-3067 | If an active edge meets the edge to its left on the scanline and both build polygons, a join of two points there is noted and the list stays as it is; otherwise nothing changes at all |
| SweepRuns.SteadyPairs | examples/utils/clipper.cc:1841-1898 | In any state of the sweep every output index is on exactly two active edges, at opposite ends of a ring that is not empty |
| Sweep.Clipper.NothingOpen | examples/utils/clipper.cc:1560-1590 | When no edge is active, no polygon is open |
| Ownership.ExactlyTwo | examples/utils/clipper.cc:1841-1898 | Every output index on an active edge is carried by exactly two active edges, which build opposite ends of the same ring |
| Ownership.SwapOutputs | examples/utils/clipper.cc:599-613 | Trading sides and indices keeps every open ring built by a left and a right edge |
| Ownership.HandOver | examples/utils/clipper.cc:2441-2459 | After two rings are joined the other edge of the second ring builds the end that the first edge left; all other edges keep what they built |
| Ownership.TakeOver | examples/utils/clipper.cc:2444-2456 | The search for the obsolete index finds the one other edge that carries it |
| Ownership.Joined | examples/utils/clipper.cc:2444-2456 | Ownership is intact once that edge has been redirected |
| OutPtRings.ReversePolyPtLinks | examples/utils/clipper.cc:692-703 | Exchanging the links of every point turns the ring round |
| OutPtRings.CrossLink | examples/utils/clipper.cc:2391-2428 | Cross-linking two places makes one ring of two, or two rings of one |
| OutRecs.AppendLinks | examples/utils/clipper.cc:2384-2428 | All four side combinations produce the ring that Appended describes, read from Pts |
| OutRecs.AppendedEnds | examples/utils/clipper.cc:2384-2428 | The two meeting ends become neighbours, the two other ends become the ends of the joined ring, and no point is lost |
| OutRecs.OutRecList.PushPoint | examples/utils/clipper.cc:2478-2499 | A point is added at the front or the back of an open ring |
| OutRecs.OutRecList.GetLastOutPt | examples/utils/clipper.cc:2502-2509 | The point the edge has added last: the front of the ring on the left side, its back on the right |
| OutRecs.OutRecList.GetOutRec | examples/utils/clipper.cc:2358-2365 | Following the forwarding indices terminates, and for an index found on a point it gives the record whose ring holds that point |
| OutRecs.OutRecList.NewRecord | examples/utils/clipper.cc:1380-1393 | A new record with its own index keeps everything known of the others |
| OutRecs.OutRecList.AppendRecords | examples/utils/clipper.cc:2367-2459 | Merging two records joins their rings, forwards the second to the first, and keeps rings, forwarding and links to the left in order; its parent and hole flag become those of the record that is chosen, and no other record changes its place in the hierarchy |
| OutRecs.OutRecList.HoleStateFromSecond | examples/utils/clipper.cc:2373-2382 | The record that gives the hole state is an ancestor of the other where there is one |
| OutRecs.OutRec1RightOfOutRec2 | examples/utils/clipper.cc:2347-2356 | The walk along FirstLeft terminates, and tells exactly whether the second record is on the chain of the first |
| OutRecs.MergeHoleState | examples/utils/clipper.cc:2431-2439 | The merged record takes the hole state of the chosen one; the test of FirstLeft against the first record never fails; the hierarchy changes in these two records only |
| Forests.Merges.LinkRoot | examples/utils/clipper.cc:2358-2365 | After a merger exactly the records that had ended up in the second end up in the first |
| Forests.RelinkAcyclic | examples/utils/clipper.cc:2301-2324 | A new link keeps every chain finite if and only if its source is not on the chain of its target |
| Forests.MergeKeepsAcyclic | examples/utils/clipper.cc:2373-2439 | Merging two records never closes a circle of links to the left |
| Forests.AddKeepsAcyclic | examples/utils/clipper.cc:2315-2323 | A fresh record may be linked to any record |
| Forests.SplitOuterAcyclic | examples/utils/clipper.cc:3724-3731 | Making the new record of a split the parent of the old one closes no circle |
| RingJoins.DupOutPt | examples/utils/clipper.cc:3348-3368 | A second point at the same place, before or behind the first, in the same ring |
| RingJoins.FirstElsewhere | examples/utils/clipper.cc:3564-3572 | The search for the first point at another place terminates and finds it, or comes back to the start |
| RingJoins.FindEdgeTo | examples/utils/clipper.cc:3564-3574 | Finds which of the two edges at a point runs up towards the end of the join, the next one if both do |
| JoinTests.ElsewhereIsFirst | examples/utils/clipper.cc:3564-3572 | The walk ends at the first point, going round, that is elsewhere, if there is one |
| JoinTests.EdgeToMeans | examples/utils/clipper.cc:3564-3574 | An edge is found if and only if the first different point behind the join point, or else the first one before it, is not below it and on the line through it and the end of the join; and it is that one |
| JoinTests.DecisionMeans | examples/utils/clipper.cc:3470-3587 | The answer of the test told by the points alone: two polygons are joined if and only if both run along the line in this way, one polygon is cut if and only if it does so to two different points and in opposite directions; at a touch if and only if one part of it goes down behind the point and the other does not; the direction is that of the first |
| RingJoins.JoinPoints | examples/utils/clipper.cc:3458-3612 | Outside the overlapping-horizontals case: succeeds if and only if MayJoin holds, which tells by the points alone whether and in which direction the polygons run along each other, and then links them in that direction; on one ring it makes the two rings that Pieces describes point by point, on two rings the one that Chained describes; every point stays in exactly one ring together with the two new ones, and the total signed area is unchanged; otherwise nothing changes |
| RingJoins.CrossForward | examples/utils/clipper.cc:3601-3612 | The links set by the join lead from each point to the other polygon's |
| RingJoins.CrossBackward | examples/utils/clipper.cc:3590-3600 | The same for polygons that run the other way |
| RingJoins.AreaDoubled | examples/utils/clipper.cc:3590-3612 | Points doubled at the ends of a run do not count for the area, nor does cutting there |
| RecordJoins.JoinCommonEdges | examples/utils/clipper.cc:3679-3763 | The joins are carried out one after the other, each on the rings that the ones before have left: the rings after each of them are those that JoinStep says; forwarding, links to the left and rings of all records stay in order, and no point is lost; the hierarchy after each of them is that of HierarchyStep |
| RecordJoins.JoinOne | examples/utils/clipper.cc:3683-3762 | One join: when the polygons do not run along each other as it says, nothing changes; when both points are on one ring it is cut into the pieces of Pieces, of which at most the one inside the other is turned, and a new record takes the second; otherwise the ring becomes the one of Chained, and the second record none; the hierarchy changes as the nesting of the pieces, or the choice between the two records, demands |
| RecordJoins.FinishCut | examples/utils/clipper.cc:3699-3747 | The two pieces stay with the old and a new record; a piece inside the other turns the way its hole flag demands, and if neither is inside the other both stay as they are; the parents and hole flags are set as the nesting demands, and no others change |
| RecordJoins.StepArea | examples/utils/clipper.cc:3679-3763 | A join leaves the total area as it is, once a piece that has been turned is turned back; joining two polygons never changes it |
| RecordJoins.RunArea | examples/utils/clipper.cc:3679-3763 | Any number of joins that cut no polygon leave the total area as it was |
| RecordJoins.PiecesArea | examples/utils/clipper.cc:3590-3612 | The two pieces of a ring have its area together |
| RecordJoins.ChainedArea | examples/utils/clipper.cc:3590-3612 | The joined ring has the area of both rings together |
| RecordJoins.MergeRecords | examples/utils/clipper.cc:3749-3760 | The second record gives up its ring and forwards to the first, whose parent and hole flag become those of the record chosen |
| RecordJoins.Orient | examples/utils/clipper.cc:3721-3736 | The orientation test reverses a ring exactly when its signed area does not fit its hole flag |
| RecordSplits.SplitRecord | examples/utils/clipper.cc:3701-3746 | After a split the old record holds one ring and a new record the other, whose points carry the new index; its place in the hierarchy follows from the nesting of the two |
| RecordSplits.NestRecord | examples/utils/clipper.cc:3713-3746 | The hierarchy with the new record: a piece inside the other gets it as its parent and the opposite hole flag, pieces side by side share both, and no other record changes |
| RecordSplits.Nest | examples/utils/clipper.cc:3713-3746 | The three cases of containment, decided by the first point off the other polygon, set parent and hole flag, without closing a circle of parents |
| RecordSplits.UpdateOutPtIdxs | examples/utils/clipper.cc:3307-3316 | All points of the ring carry the index of its record |
| RecordSplits.Poly2ContainsPoly1 | examples/utils/clipper.cc:526-538 | The answer is yes if and only if the first point off the boundary of the other polygon, should there be one, has an odd number of crossings to its right |
| RecordSplits.Area | examples/utils/clipper.cc:406-416 | The sum along the ring is twice the signed area |
| SimplePolygons.DoSimplePolygons | examples/utils/clipper.cc:4221-4280 | Terminates with no polygon visiting a place twice other than at neighbouring points; every point stays in exactly one ring, and the total signed area is unchanged |
| SimplePolygons.SimplifyRecord | examples/utils/clipper.cc:4229-4278 | The same for one record; the other records keep their rings |
| SimplePolygons.CompareRest | examples/utils/clipper.cc:4232-4275 | After the inner loop the current point touches none of the points behind it |
| SimplePolygons.SplitAtTouch | examples/utils/clipper.cc:4234-4271 | One split divides the ring between the two touching points and conserves points and area; the place of the new polygon in the hierarchy follows from the nesting of the two |
| FixupPolygons.FixupOutPolygon | examples/utils/clipper.cc:3143-3181 | Terminates; what is left is a subsequence of the ring with the same area, and every point off the original boundary is inside it exactly when it was inside before; the result has at least three points, none superfluous, or is dropped, which happens only with zero area and no point inside |
| FixupPolygons.SuperfluousMeans | examples/utils/clipper.cc:3160-3164 | A point is taken out if and only if it is a duplicate of a neighbour, or the corner is flat and, where collinear points are to be kept, the point is not on the segment between its neighbours |
| FixupPolygons.BetweenMeans | examples/utils/clipper.cc:860-867 | On one line the point is between the others if and only if it lies on the segment between them and is neither of its ends |
| FixupPolygons.ThinOut | examples/utils/clipper.cc:3160-3170 | Taking out one duplicate or collinear point keeps the area and the position of every point off the path |
| Execution.Execute | examples/utils/clipper.cc:1560-1622 | Any run of the sweep and all that follows: the joins noted can be carried out as they stand and are; in the end every polygon needs each of its points and covers what it covered before it was thinned out, and when strictly simple polygons are asked for, the same points and the same total area are in polygons that do not touch themselves |
| Execution.Solve | examples/utils/clipper.cc:1473-1622 | The same from a new clipper on, so that all that is said of the moments of a run holds from the very beginning |
| Execution.Clip | examples/utils/clipper.cc:1045-1622 | From any contours to the solution, whatever steps are chosen: unless a cleaned contour has a horizontal edge, each contour is dropped only if its signed area is zero and goes over with all the edges of its bounds otherwise, every minimum may begin at the start, and the run and all that follows are as Execute says |
| Execution.AllKept | examples/utils/clipper.cc:1560-1590 | Steps that speak of the loaded edges only are all carried out, in their order |
| Execution.Finish | examples/utils/clipper.cc:1591-1616 | The four stages after the sweep, each on what the one before has left |
| Execution.FixOrientations | examples/utils/clipper.cc:1593-1600 | Every polygon that encloses anything turns the way its hole flag demands; no ring changes otherwise, and no point is lost |
| Execution.FixupAll | examples/utils/clipper.cc:1604-1613 | Every ring is thinned out; the records stay in order, and a record that loses its ring held one that enclosed nothing |
| Geometry.TriangleArea | examples/utils/clipper.cc:554-563 | SlopesEqual holds exactly when the three points enclose no area |
| Geometry.ParallelMeans | examples/utils/clipper.cc:566-575 | SlopesEqual of two edges holds exactly when one of them, moved to the end of the other, makes a flat triangle with it |
| Geometry.AreaCross | examples/utils/clipper.cc:3590-3612 | Crossing over between two places keeps the total area |
| Geometry.AreaReverse | examples/utils/clipper.cc:692-703 | A ring walked backwards has the opposite area |
| PointInPolygons.PointInPolygon | examples/utils/clipper.cc:440-481 | For at least three points: -1 if and only if the point lies on a closed segment of the path, otherwise the parity of the edges that the ray to the right crosses; fewer points give 0 |
| PointInPolygons.PointInRing | examples/utils/clipper.cc:484-523 | The ring version gives the same answer on the same cycle of points |
| PointInPolygons.StepOn | examples/utils/clipper.cc:450-454 | A point on an edge is noticed there unless it is where the edge starts, and only points on edges are noticed |
| PointInPolygons.StepCrosses | examples/utils/clipper.cc:455-478 | Off the edge, the tests and the sign of d decide exactly whether the ray crosses it |
| PointInPolygons.LocationRotate | examples/utils/clipper.cc:440-523 | The answer does not depend on where the path begins |
| PointInPolygons.LocationReverse | examples/utils/clipper.cc:440-523 | Nor on the direction in which it is walked |
| PointInPolygons.LocationDrop | examples/utils/clipper.cc:3160-3170 | Leaving out a point between edges of equal slope changes nothing for points off the path |
| Int128s.Int128Mul | examples/utils/clipper.cc:354-378 | For any two 64-bit numbers hi * 2^64 + lo is their product |
| Int128s.MixedFits | examples/utils/clipper.cc:366-368 | The sum of the two mixed products stays below 2^64 |
| Int128s.NegatedValue | examples/utils/clipper.cc:331-337 | Negation of a 128-bit number is exact but for the smallest one |
| Int128s.SameWords | examples/utils/clipper.cc:275-276 | Numbers are equal exactly when both words are |
| Int128s.RangeTest | examples/utils/clipper.cc:896-908 | For coordinates other than the smallest 64-bit number: accepts exactly the points within hiRange, and the accepted point is within the limit that the returned flag stands for; an accepted point is within that limit if and only if neither coordinate is the smallest 64-bit number |
| Int128s.RangeTestAll | examples/utils/clipper.cc:1065-1076 | The flag sticks: in the end one limit holds for all points of a path |
| Int128s.SlopesEqual | examples/utils/clipper.cc:554-563 | For points within the limit of the flag the comparison decides exactly whether the cross product is zero, in the 64-bit and in the 128-bit branch |
| Int128s.SlopesEqualFour | examples/utils/clipper.cc:566-575 | The same for two edges given by their ends, which is the comparison the sweep makes |
| Int128s.MinimumSlipsThrough | examples/utils/clipper.cc:896-908 | A concrete point with the smallest 64-bit coordinate passes the test as if it were small, and slopes are then compared wrongly |
| AddPaths.TrimEnd | examples/utils/clipper.cc:1055-1057 | Cutting repetitions off the end conserves area and inside |
| AddPaths.CleanEdges | examples/utils/clipper.cc:1084-1123 | The cleaning loop terminates, conserves exact area and the position of every point off the path; unless no more than two vertices are left, each remaining one is needed |
| AddPaths.BuildRing | examples/utils/clipper.cc:1055-1152 | A closed path is rejected only if its signed area is zero; otherwise the ring of edges covers what the path covers and has no superfluous vertex |
| AddPaths.InitEnds | examples/utils/clipper.cc:1131-1140 | Each edge gets its lower and upper end; the flat flag is set exactly when all vertices are on one scanline |
| Bounds.FindNextLocMin | examples/utils/clipper.cc:911-925 | Terminates at the first local minimum at or behind the edge |
| Bounds.ProcessForward | examples/utils/clipper.cc:994-1016 | Links the edges upwards as far as they rise, and nothing else |
| Bounds.ProcessBackward | examples/utils/clipper.cc:1017-1039 | The same against the path |
| Bounds.MakeMinimum | examples/utils/clipper.cc:1186-1205 | The left bound starts with the edge that stands to the left just above the minimum, told in integers; the bound along the path winds by 1, the other by -1 |
| Bounds.DxMeans | examples/utils/clipper.cc:591-596 | The slope on record times the height of an edge is its width, with the sign of going right downwards |
| Bounds.SteeperIsLeft | examples/utils/clipper.cc:1189-1198 | The edge with the larger slope stands to the left of the other above the minimum |
| Bounds.AddPath | examples/utils/clipper.cc:1045-1221 | A closed path is rejected only if its signed area is zero; otherwise, unless, and only unless, the cleaned ring has a horizontal edge, it is decomposed into bounds of a ring that covers the same and needs each of its vertices, at each minimum the left bound to the left of the right one |
| Bounds.PathRingSlanted | examples/utils/clipper.cc:729-742 | The ends that InitEdge2 sets are the lower and the upper one as the edge rises or not |
| Bounds.AddBounds | examples/utils/clipper.cc:1171-1220 | Terminates; every local minimum is recorded exactly once with its two bounds, the left one to the left, and every edge is linked to its follower |
| Bounds.BoundGoesUp | examples/utils/clipper.cc:1007-1035 | Along NextInLML each Top is the next Bot, Y strictly falls, and the direction stays the same |
| Bounds.OnOneBound | examples/utils/clipper.cc:1171-1220 | Every edge is on exactly one bound: it starts one and follows no edge, or it follows exactly one edge and starts none |
| Bounds.MaximumOpposite | examples/utils/clipper.cc:2538-2546 | Where a bound ends, the neighbouring edge ends the other bound of the maximum, at the same point and in the opposite direction |
| Bounds.WindingsCancel | examples/utils/clipper.cc:1201-1205 | On every scanline the directions of the crossing edges add up to zero |
| Loading.CarryOver | examples/utils/clipper.cc:719-742 | Every edge of a path that has been cut into bounds goes over to the sweep exactly once, with its ends, its slope, its type and its place on the bound, and every minimum with its two bounds |
| Loading.AllMade | examples/utils/clipper.cc:1171-1220 | Following the bounds from all minima reaches every edge of the path |
| Loading.CarriedComplete | examples/utils/clipper.cc:994-1039 | No edge that has gone over is horizontal, each next edge of a bound begins where the one before it ends, and the slope on record is that of the line between the ends |
| Loading.CarriedOpens | examples/utils/clipper.cc:1186-1205 | The two bounds of every minimum start at one point, the left one to the left above it, wind in opposite directions and carry no output index |
| Loading.Load | examples/utils/clipper.cc:1224-1231 | All contours are taken in; no edge belongs to two of them, and edges and minima are as the sweep needs them |
| Loading.AllBegin | examples/utils/clipper.cc:1978-1981 | At the start of a sweep every minimum of the contours may begin |
| PolyTrees.PolyNode.AddChild | examples/utils/clipper.cc:193-199 | Added below any node of a tree that the links mirror, a child with the tree below it makes links that mirror the tree grown by it as the last kid of that node; so every tree built by adding children is walked as it should be |
| PolyTrees.GetNextSiblingUp | examples/utils/clipper.cc:211-219 | The next node in the recursive order that is not below this one, or none at the end |
| PolyTrees.GetNext | examples/utils/clipper.cc:202-208 | The next node in the recursive order |
| PolyTrees.Walk | examples/utils/clipper.cc:161-219 | GetFirst followed by GetNext terminates and visits the nodes in the order of the recursion |
| PolyTrees.EachOnce | examples/utils/clipper.cc:161-219 | No node is visited twice |
| PolyTrees.AddPolyNodeToPaths | examples/utils/clipper.cc:4562-4572 | The recursion collects the contours in that order, without the empty ones and, when closed ones are asked for, without the open ones; it looks for open ones nowhere |
| SmoothingFilters.RelativeVelocityFilter.Apply | examples/utils/relative_velocity_filter.cc:23-78 | One call does to the state what Step says; a frame that is not later than the last one comes back as it is and changes nothing, the first one goes through, and any other is blended as MovedAt says at the speed of the latest movements, those that Moves counts |
| VelocityMeaning.LatestMovements | examples/utils/relative_velocity_filter.cc:44-65 | In every state there is exactly one answer to what the latest movements are: this one and the first k of the window, where k is the largest number for which, element by element, the time stays within as many frame periods of 10^9 ns over the rate, without the fraction, as there are elements with this one; the speed times their time is the distance they cover together |
| VelocityMeaning.StepMeans | examples/utils/relative_velocity_filter.cc:36-78 | A call blends with the factor a for which (1 - a) (1 + scale * speed) is 1, or with the one before where that is out of range, and puts its own movement before the others |
| VelocityMeaning.AtTargetRate | examples/utils/relative_velocity_filter.cc:49-62 | When the frames come at the target rate or faster, all elements of the window count |
| VelocityMeaning.WindowHolds | examples/utils/relative_velocity_filter.cc:67-75 | After every run the window holds the movements between the accepted frames, latest first, and nothing where there was none |
| SmoothingFilters.RelativeVelocityFilter.CumulateWindow | examples/utils/relative_velocity_filter.cc:46-62 | The loop adds up the window until the covered time would exceed its bound |
| SmoothingFilters.LowPassFilter.ApplyWithAlpha | examples/utils/low_pass_filter.cc:23-52 | Smooths with the given factor if it is within range, with the old one otherwise |
| VelocityFilters.TranslationInvariant | examples/utils/relative_velocity_filter.h:32-47 | With the current scale enforced, for any timestamps, scales and velocity scale, filtering shifted data shifts every result |
| VelocityFilters.LegacyInvariant | examples/utils/relative_velocity_filter.h:32-36 | The legacy mode is translation invariant on runs whose scale does not change |
| VelocityFilters.LegacyExact | examples/utils/relative_velocity_filter.h:25-31 | A call in the legacy mode, accepted and not the first, shifts its result with every shift of the data if and only if the scale has not changed, or the value is where the filter rests, or the velocity does not count |
| LegacyRuns.LegacyRunExact | examples/utils/relative_velocity_filter.h:25-31 | All results of a run in the legacy mode shift with every shift of the data if and only if each accepted call but the first is one that the shift does not matter for, a condition on the run itself: the value is where the filter rests, the velocity does not count, or the changes of scale that the window and the call contribute add up to zero, with the conditions that a negative velocity scale adds |
| LegacyRuns.MotionFollows | examples/utils/relative_velocity_filter.cc:40-62 | A shift of all data so far moves the distance covered lately by the shift times the changes of scale that the window still counts |
| VelocityFilters.LegacyNotInvariant | examples/utils/relative_velocity_filter.h:25-31 | Two frames of different scale whose second result, 2/3, is 7/4 and not 5/3 when the data are shifted by 1 |
| VelocityFilters.LegacyDistance | examples/utils/relative_velocity_filter.cc:40-42 | A shift changes the legacy distance by the shift times the change of scale |
| VelocityFilters.AlphaInRange | examples/utils/relative_velocity_filter.cc:32-66 | The smoothing factor stays between 0 and 1 when the velocity scale is not negative |
| VelocityFilters.MotionLonger | examples/utils/relative_velocity_filter.cc:44-65 | The duration that the velocity is divided by is positive |
| VelocityFilters.WindowKeepsSize | examples/utils/relative_velocity_filter.cc:67-70 | The window keeps its size over every run |
| VelocityFilters.SmoothedWithin | examples/utils/low_pass_filter.cc:23-35 | Each smoothed result lies between the smallest and the largest value accepted so far |
| Suppression.NMS | examples/base/tnn_sdk_sample.cc:951-1008 | The result is the boxes that are kept when the sorted boxes are clustered by the first kept box they overlap too much |
| Suppression.IoU | examples/base/tnn_sdk_sample.cc:976-997 | The overlap score is in (0, 1] whenever it is computed, so the divisor is never zero |
| Pixels.ScoreCounts | examples/base/tnn_sdk_sample.cc:976-997 | For boxes with integer corners the score is the number of points in both boxes over the number of points in either |
| Pixels.OverlapCounts | examples/base/tnn_sdk_sample.cc:976-988 | Such boxes overlap if and only if they share a point, and the inner area is the number of points they share |
| Pixels.ExceedsCounts | examples/base/tnn_sdk_sample.cc:976-1001 | A box is suppressed by another if and only if they share points, and more of them than the threshold times the number of points in either |
| Pixels.FullScore | examples/base/tnn_sdk_sample.cc:976-997 | A box of any corners in order has score 1 with itself |
| Suppression.Suppress | examples/base/tnn_sdk_sample.cc:972-1003 | The inner loop marks exactly the boxes behind that the kept one suppresses |
| Suppression.KeptIsIndependent | examples/base/tnn_sdk_sample.cc:951-1008 | Kept boxes come in descending score and no two of them exceed the threshold |
| Suppression.DroppedForABetter | examples/base/tnn_sdk_sample.cc:998-1003 | Every dropped box exceeds the threshold with a kept box of at least its score |
| Suppression.ClustersPartition | examples/base/tnn_sdk_sample.cc:960-1003 | Every box falls in exactly one cluster, that of a kept box |
| Suppression.Idempotent | examples/base/tnn_sdk_sample.cc:951-1008 | Run on its own output, in whatever order equal scores are sorted, it keeps all boxes |

## Left out

- Open paths: edges with a winding direction of zero, edges to be skipped, and polylines.
- Horizontal edges: `ProcessHorizontal`, ghost joins, `ReverseHorizontal`, and bounds that contain horizontal edges, which `Bounds` excludes.
- The vertices that strictly simple polygons get at maxima that lie on horizontal edges.
- RingJoins.JoinPoints: does not model the branch for overlapping horizontal edges and `JoinHorz`; `RecordJoins.JoinCommonEdges` accordingly takes joins that are not of this kind.
- SweepRuns.Run: does not model the scanbeam queue and the order in which the steps come; it allows every order. The edges given to it are not horizontal, and each begins where the one before it on its bound ends, as `Loading.CarriedComplete` shows of those that are loaded.
- Loading.Load: takes in no contour with a horizontal edge, and does not set the sides of the first edges, which get their values when a polygon starts.
- Execution.Clip: the steps are chosen by a function of the edges and minima, which stands for the scanbeam queue; steps that speak of other edges are passed over.
- SweepRuns.StartMinimum: the minimum is given, not popped from the list of minima when the sweep reaches it.
- SweepRuns.Advance: the edge is given, not found by its top lying on the scanline.
- SweepRuns.EndMaximum: the partner is given, not found by `GetMaximaPairEx`.
- Sweep.Clipper.DoMaxima: the partner stands further right, has the same type and the opposite direction; an edge without a partner, which the source takes out alone, belongs to an open path.
- Sweep.Clipper.AddOutPt: adds to a polygon that the edge builds already; the branch for an edge without an output index, which starts a polygon, is `StartPoly`.
- Sweep.Clipper.InsertLocalMinimum: does not model the insertion of scanbeams and the conversion of ghost joins to joins, which concern horizontal edges.
- Sweep.Clipper.TouchLeft: is one step of its own; the loop around it, which also moves every edge to the scanline, is not modelled.
- OutRecs.OutRecList.HoleStateFromSecond: between records of which neither is an ancestor of the other, either may be chosen; `GetLowermostRec` compares bottom points by floating-point slopes.
- RecordSplits.Nest: does not call `FixupFirstLefts1` and `FixupFirstLefts2`, which, like `FixupFirstLefts3`, reassign the parents of other records when a tree of polygons is wanted.
- SortedEdgeLists.SortedEdgeList.SwapPositionsInSEL: models the exchange of neighbours; the exchange of edges that are apart is not used by the modelled callers.
- Bounds.FindNextLocMin: the ring has no horizontal edges.
- Bounds.ProcessForward: the bound has no horizontal edges.
- Bounds.ProcessBackward: the bound has no horizontal edges.
- Bounds.MakeMinimum: the minimum has no horizontal edges.
- Bounds.AddBounds: the ring has no horizontal edges.
- Bounds.AddPath: does not decompose a path whose cleaned ring has a horizontal edge, and does not test the range of the coordinates, which `Int128s.RangeTestAll` does.
- RecordJoins.JoinCommonEdges: a record whose ring is gone and a record of an open path are skipped in the source; every point of a join is on a ring here, as `SweepRuns.Run` shows.
- Execution.Execute: is given the steps of the sweep, as `SweepRuns.Run` is; errors thrown on the way are not modelled.
- FixupPolygons.FixupOutPolygon: the index of the bottom point, which the source resets, is not kept.
- `BuildResult`, `BuildResult2`, `ClipperOffset`, Minkowski sums and `CleanPolygon`.
- Memory management: removed points and edges are simply no longer reachable.
- Blending and weighted suppression, which use exponentials.
- Everything else in the repository: networks, devices, image handling, tokenizers and file readers.
