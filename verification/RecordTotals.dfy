/** Sums over the rings of all records, and the set of all their points. */
module RecordTotals {
  import opened ClipTypes
  import opened Sequences
  import opened OutPtRings
  import opened OutRecs
  import opened Geometry

  type RingValue = seq<OutPt> -> int

  ghost function Total(rings: seq<seq<OutPt>>, g: RingValue): int {
    if rings == [] then 0 else Total(rings[..|rings| - 1], g) + g(rings[|rings| - 1])
  }

  lemma {:induction false} TotalUpdate(rings: seq<seq<OutPt>>, g: RingValue, i: nat, a: seq<OutPt>)
    requires i < |rings|
    ensures Total(rings[i := a], g) == Total(rings, g) - g(rings[i]) + g(a)
  {
    var n := |rings| - 1;
    if i == n {
      assert rings[i := a][..n] == rings[..n];
    } else {
      assert rings[i := a][..n] == rings[..n][i := a];
      TotalUpdate(rings[..n], g, i, a);
    }
  }

  lemma TotalAppend(rings: seq<seq<OutPt>>, g: RingValue, b: seq<OutPt>)
    ensures Total(rings + [b], g) == Total(rings, g) + g(b)
  {
    assert (rings + [b])[..|rings|] == rings;
  }

  /** One ring replaced by two. */
  lemma TotalSplit(rings: seq<seq<OutPt>>, g: RingValue, i: nat, a: seq<OutPt>, b: seq<OutPt>)
    requires i < |rings|
    ensures Total(rings[i := a] + [b], g) == Total(rings, g) - g(rings[i]) + g(a) + g(b)
  {
    TotalUpdate(rings, g, i, a);
    TotalAppend(rings[i := a], g, b);
  }

  lemma {:induction false} TotalFirst(rings: seq<seq<OutPt>>, g: RingValue)
    requires rings != []
    ensures Total(rings, g) == g(rings[0]) + Total(rings[1..], g)
  {
    if |rings| > 1 {
      var n := |rings| - 1;
      TotalFirst(rings[..n], g);
      assert rings[..n][1..] == rings[1..][..n - 1];
    }
  }

  ghost function RingArea(r: seq<OutPt>): int { Area2(Places(r)) }

  /** Twice the total signed area of all polygons. */
  ghost function TotalArea(rings: seq<seq<OutPt>>): int {
    Total(rings, RingArea)
  }

  ghost function Size(r: seq<OutPt>): int { |r| }

  /** The number of points in the rings from place `i` on. */
  ghost function PointsFrom(rings: seq<seq<OutPt>>, i: nat): int
    requires i <= |rings|
  {
    Total(rings[i..], Size)
  }

  lemma {:induction false} TotalSizeNonNegative(rings: seq<seq<OutPt>>)
    ensures Total(rings, Size) >= 0
  {
    if rings != [] {
      TotalSizeNonNegative(rings[..|rings| - 1]);
    }
  }

  lemma PointsFromStep(rings: seq<seq<OutPt>>, i: nat)
    requires i < |rings|
    ensures PointsFrom(rings, i) == |rings[i]| + PointsFrom(rings, i + 1)
    ensures PointsFrom(rings, i) >= 0
  {
    TotalFirst(rings[i..], Size);
    assert rings[i..][1..] == rings[i + 1..];
    TotalSizeNonNegative(rings[i + 1..]);
  }

  lemma PointsFromSplit(rings: seq<seq<OutPt>>, i: nat, a: seq<OutPt>, b: seq<OutPt>)
    requires i < |rings| && |a| + |b| == |rings[i]|
    ensures PointsFrom(rings[i := a] + [b], i) == PointsFrom(rings, i)
  {
    assert (rings[i := a] + [b])[i..] == rings[i..][0 := a] + [b];
    TotalSplit(rings[i..], Size, 0, a, b);
  }

  /** The records listed so far are where they were; any others are new. */
  ghost predicate Extends(recs: seq<OutRec>, recs': seq<OutRec>) {
    |recs| <= |recs'| && forall j :: 0 <= j < |recs| ==> recs'[j] == recs[j]
  }

  /** The points of all rings. */
  ghost function AllPoints(rings: seq<seq<OutPt>>): set<OutPt> {
    set i, k | 0 <= i < |rings| && 0 <= k < |rings[i]| :: rings[i][k]
  }

  lemma AllPointsSplit(rings: seq<seq<OutPt>>, i: nat, a: seq<OutPt>, b: seq<OutPt>)
    requires i < |rings|
    requires (forall x :: x in rings[i] ==> x in a || x in b) && (forall x :: x in a ==> x in rings[i]) && (forall x :: x in b ==> x in rings[i])
    ensures AllPoints(rings[i := a] + [b]) == AllPoints(rings)
  {
    var rings': seq<seq<OutPt>> := rings[i := a] + [b];
    forall x | x in AllPoints(rings) ensures x in AllPoints(rings') {
      var j, k :| 0 <= j < |rings| && 0 <= k < |rings[j]| && rings[j][k] == x;
      var j' := if j != i then j else if x in a then i else |rings|;
      assert x in rings'[j'];
      var k' :| 0 <= k' < |rings'[j']| && rings'[j'][k'] == x;
    }
    forall x | x in AllPoints(rings') ensures x in AllPoints(rings) {
      var j, k :| 0 <= j < |rings'| && 0 <= k < |rings'[j]| && rings'[j][k] == x;
      var j' := if j == |rings| then i else j;
      assert x in rings'[j];
      assert x in rings[j'];
      var k' :| 0 <= k' < |rings[j']| && rings[j'][k'] == x;
    }
  }

  /** No point is lost when every ring goes over into others. */
  lemma AllPointsKept(rings: seq<seq<OutPt>>, rings': seq<seq<OutPt>>)
    requires forall j, x :: 0 <= j < |rings| && x in rings[j] ==> exists j' :: 0 <= j' < |rings'| && x in rings'[j']
    ensures AllPoints(rings) <= AllPoints(rings')
  {
    forall x | x in AllPoints(rings) ensures x in AllPoints(rings') {
      var j, k :| 0 <= j < |rings| && 0 <= k < |rings[j]| && rings[j][k] == x;
      assert x in rings[j];
      var j' :| 0 <= j' < |rings'| && x in rings'[j'];
      var k' :| 0 <= k' < |rings'[j']| && rings'[j'][k'] == x;
    }
  }

  lemma AllPointsCut(rings: seq<seq<OutPt>>, i: nat, a: seq<OutPt>, b: seq<OutPt>)
    requires i < |rings| && forall x :: x in rings[i] ==> x in a || x in b
    ensures AllPoints(rings) <= AllPoints(rings[i := a] + [b])
  {
    var rings': seq<seq<OutPt>> := rings[i := a] + [b];
    forall j, x | 0 <= j < |rings| && x in rings[j] ensures exists j' :: 0 <= j' < |rings'| && x in rings'[j'] {
      assert x in rings'[if j != i then j else if x in a then i else |rings|];
    }
    AllPointsKept(rings, rings');
  }

  lemma AllPointsMerged(rings: seq<seq<OutPt>>, i1: nat, i2: nat, a: seq<OutPt>)
    requires i1 < |rings| && i2 < |rings| && i1 != i2 && forall x :: x in rings[i1] || x in rings[i2] ==> x in a
    ensures AllPoints(rings) <= AllPoints(rings[i1 := a][i2 := []])
  {
    var rings': seq<seq<OutPt>> := rings[i1 := a][i2 := []];
    forall j, x | 0 <= j < |rings| && x in rings[j] ensures exists j' :: 0 <= j' < |rings'| && x in rings'[j'] {
      assert x in rings'[if j == i1 || j == i2 then i1 else j];
    }
    AllPointsKept(rings, rings');
  }

  lemma AllPointsTurned(rings: seq<seq<OutPt>>, i: nat, b: seq<OutPt>)
    requires i < |rings| && forall x :: x in rings[i] ==> x in b
    ensures AllPoints(rings) <= AllPoints(rings[i := b])
  {
    var rings': seq<seq<OutPt>> := rings[i := b];
    forall j, x | 0 <= j < |rings| && x in rings[j] ensures exists j' :: 0 <= j' < |rings'| && x in rings'[j'] {
      assert x in rings'[j];
    }
    AllPointsKept(rings, rings');
  }
}
