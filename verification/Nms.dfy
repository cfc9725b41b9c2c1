/**
 Non-maximum suppression of detected boxes, in its hard form: of every group of boxes that
 overlap the best-scored one by more than a threshold, only that one is kept.
 */
module Suppression {
  import opened Sequences

  datatype ObjectInfo = ObjectInfo(x1: real, y1: real, x2: real, y2: real, score: real)

  function Max(a: real, b: real): real { if a > b then a else b }

  function Min(a: real, b: real): real { if a < b then a else b }

  function Area(a: ObjectInfo): real {
    (a.y2 - a.y1 + 1.0) * (a.x2 - a.x1 + 1.0)
  }

  function InnerHeight(a: ObjectInfo, b: ObjectInfo): real {
    Min(a.y2, b.y2) - Max(a.y1, b.y1) + 1.0
  }

  function InnerWidth(a: ObjectInfo, b: ObjectInfo): real {
    Min(a.x2, b.x2) - Max(a.x1, b.x1) + 1.0
  }

  predicate Overlap(a: ObjectInfo, b: ObjectInfo) {
    InnerHeight(a, b) > 0.0 && InnerWidth(a, b) > 0.0
  }

  function InnerArea(a: ObjectInfo, b: ObjectInfo): real {
    InnerHeight(a, b) * InnerWidth(a, b)
  }

  function UnionArea(a: ObjectInfo, b: ObjectInfo): real {
    Area(a) + Area(b) - InnerArea(a, b)
  }

  lemma ProductGrows(h: real, w: real, h': real, w': real)
    requires 0.0 < h <= h' && 0.0 < w <= w'
    ensures 0.0 < h * w <= h' * w'
  {
    assert h * w <= h' * w <= h' * w';
  }

  /** Boxes that overlap at all have a union at least as large as what they share; so the divisor is not zero. */
  lemma UnionIsPositive(a: ObjectInfo, b: ObjectInfo)
    requires Overlap(a, b)
    ensures 0.0 < InnerArea(a, b) <= UnionArea(a, b)
  {
    ProductGrows(InnerHeight(a, b), InnerWidth(a, b), a.y2 - a.y1 + 1.0, a.x2 - a.x1 + 1.0);
    ProductGrows(InnerHeight(a, b), InnerWidth(a, b), b.y2 - b.y1 + 1.0, b.x2 - b.x1 + 1.0);
  }

  /** The shared part of the union: more than nothing and at most all of it, even for odd-shaped boxes. */
  function IoU(a: ObjectInfo, b: ObjectInfo): (r: real)
    requires Overlap(a, b)
    ensures 0.0 < r <= 1.0
  {
    UnionIsPositive(a, b);
    Ratio(InnerArea(a, b), UnionArea(a, b));
    InnerArea(a, b) / UnionArea(a, b)
  }

  lemma Ratio(p: real, q: real)
    requires 0.0 < p <= q
    ensures 0.0 < p / q <= 1.0
  {
  }

  predicate Exceeds(a: ObjectInfo, b: ObjectInfo, threshold: real) {
    Overlap(a, b) && IoU(a, b) > threshold
  }

  lemma ExceedsSymmetric(a: ObjectInfo, b: ObjectInfo, threshold: real)
    ensures Exceeds(a, b, threshold) <==> Exceeds(b, a, threshold)
  {
    assert InnerHeight(a, b) == InnerHeight(b, a) && InnerWidth(a, b) == InnerWidth(b, a);
  }

  predicate Descending(s: seq<ObjectInfo>) {
    forall i, j :: 0 <= i < j < |s| ==> s[i].score >= s[j].score
  }

  // ---------------------------------------------------------------- sorting

  /** Any sort will do: the result is known only to be in order and to rearrange the input. */
  method SortByScore(input: seq<ObjectInfo>) returns (r: seq<ObjectInfo>)
    ensures Descending(r) && multiset(r) == multiset(input)
  {
    r := [];
    for i := 0 to |input|
      invariant Descending(r) && multiset(r) == multiset(input[..i])
    {
      assert input[..i + 1] == input[..i] + [input[i]];
      r := Insert(r, input[i]);
    }
    assert input[..|input|] == input;
  }

  method Insert(s: seq<ObjectInfo>, e: ObjectInfo) returns (r: seq<ObjectInfo>)
    requires Descending(s)
    ensures Descending(r) && multiset(r) == multiset(s) + multiset{e}
  {
    var k := 0;
    while k < |s| && s[k].score >= e.score
      invariant 0 <= k <= |s| && (k > 0 ==> s[k - 1].score >= e.score)
    {
      k := k + 1;
    }
    r := InsertAt(s, k, e);
    WithoutOne(r, k);
    assert Without(r, k) == s;
    InsertDescending(s, k, e);
  }

  lemma InsertDescending(s: seq<ObjectInfo>, k: nat, e: ObjectInfo)
    requires Descending(s) && k <= |s| && (k > 0 ==> s[k - 1].score >= e.score) && (k < |s| ==> s[k].score <= e.score)
    ensures Descending(InsertAt(s, k, e))
  {
    var r := InsertAt(s, k, e);
    forall i, j | 0 <= i < j < |r| ensures r[i].score >= r[j].score {
      if i == k { assert s[j - 1].score <= s[k].score; }
      if j == k { assert s[i].score >= s[k - 1].score; }
    }
  }

  // ---------------------------------------------------------------- suppression

  /** `c[j]` is the box that box `j` is merged into, itself if it is kept. */
  ghost predicate Clustered(s: seq<ObjectInfo>, threshold: real, c: seq<int>, j: int)
    requires 0 <= j < |s| == |c|
  {
    && 0 <= c[j] <= j
    && c[c[j]] == c[j]
    && (c[j] < j ==> Exceeds(s[c[j]], s[j], threshold))
    && (forall i :: 0 <= i < c[j] && c[i] == i ==> !Exceeds(s[i], s[j], threshold))
  }

  /** Every box is in exactly one cluster, that of the first kept box which it overlaps too much. */
  ghost predicate Clusters(s: seq<ObjectInfo>, threshold: real, c: seq<int>) {
    |c| == |s| && forall j :: 0 <= j < |s| ==> Clustered(s, threshold, c, j)
  }

  /** The boxes before `n` that are kept. */
  ghost function Kept(s: seq<ObjectInfo>, c: seq<int>, n: nat): seq<ObjectInfo>
    requires n <= |s| == |c|
  {
    if n == 0 then [] else Kept(s, c, n - 1) + if c[n - 1] == n - 1 then [s[n - 1]] else []
  }

  /**
   How far the outer loop has come: the boxes before `i` have been handled, and of the others
   exactly those are merged that one of the kept boxes has suppressed.
   */
  ghost predicate Progress(s: seq<ObjectInfo>, threshold: real, c: seq<int>, i: nat) {
    && |c| == |s| && i <= |s|
    && (forall j :: 0 <= j < |s| ==> -1 <= c[j] <= j)
    && (forall j :: 0 <= j < i ==> c[j] >= 0)
    && (forall j :: i <= j < |s| ==> c[j] < i)
    && (forall j :: 0 <= j < |s| && c[j] >= 0 ==> Clustered(s, threshold, c, j))
    && (forall j, k :: 0 <= j < |s| && c[j] < 0 && 0 <= k < i && c[k] == k ==> !Exceeds(s[k], s[j], threshold))
  }

  /** Marks the boxes behind the kept box `i` that it suppresses. */
  method Suppress(s: seq<ObjectInfo>, threshold: real, merged: array<bool>, i: int, ghost c0: seq<int>) returns (ghost c: seq<int>)
    requires 0 <= i < |s| == merged.Length && Progress(s, threshold, c0, i) && c0[i] < 0
    requires forall j :: 0 <= j < |s| ==> (merged[j] <==> c0[j] >= 0)
    modifies merged
    ensures Progress(s, threshold, c, i + 1) && c[i] == i && c[..i] == c0[..i]
    ensures forall j :: 0 <= j < |s| ==> (merged[j] <==> c[j] >= 0)
  {
    merged[i] := true;
    c := c0[i := i];
    for j := i + 1 to |s|
      invariant |c| == |s| && c[i] == i
      invariant forall k :: 0 <= k < |s| ==> (merged[k] <==> c[k] >= 0)
      invariant forall k :: 0 <= k < |s| && k != i ==>
        c[k] == if i < k < j && c0[k] < 0 && Exceeds(s[i], s[k], threshold) then i else c0[k]
    {
      if !merged[j] && Exceeds(s[i], s[j], threshold) {
        merged[j] := true;
        c := c[j := i];
      }
    }
    ProgressStep(s, threshold, c0, c, i);
  }

  lemma ProgressStep(s: seq<ObjectInfo>, threshold: real, c0: seq<int>, c: seq<int>, i: nat)
    requires i < |s| == |c| && Progress(s, threshold, c0, i) && c0[i] < 0 && c[i] == i
    requires forall k :: 0 <= k < |s| && k != i ==>
      c[k] == if i < k && c0[k] < 0 && Exceeds(s[i], s[k], threshold) then i else c0[k]
    ensures Progress(s, threshold, c, i + 1) && c[..i] == c0[..i]
  {
    hide Exceeds;
    forall j | 0 <= j < |s| && c[j] >= 0 ensures Clustered(s, threshold, c, j) {
      if j == i || c0[j] < 0 {
        assert c[j] == i;
      } else {
        assert Clustered(s, threshold, c0, j);
      }
    }
  }

  /**
   Hard non-maximum suppression. `sorted` is the input in the order in which it is gone
   through; `c` says which kept box each of them is merged into.
   */
  method NMS(input: seq<ObjectInfo>, threshold: real) returns (sorted: seq<ObjectInfo>, output: seq<ObjectInfo>, ghost c: seq<int>)
    ensures Descending(sorted) && multiset(sorted) == multiset(input)
    ensures Clusters(sorted, threshold, c) && output == Kept(sorted, c, |sorted|)
  {
    hide Clustered, Exceeds;
    sorted := SortByScore(input);
    output := [];
    var box_num := |sorted|;
    var merged := new bool[box_num](_ => false);
    c := seq(box_num, _ => -1);
    for i := 0 to box_num
      invariant Progress(sorted, threshold, c, i) && output == Kept(sorted, c, i)
      invariant forall j :: 0 <= j < box_num ==> (merged[j] <==> c[j] >= 0)
    {
      if merged[i] {
        NotKept(sorted, threshold, c, i);
        continue;
      }
      ghost var c0 := c;
      c := Suppress(sorted, threshold, merged, i, c0);
      KeptSame(sorted, c0, c, i);
      output := output + [sorted[i]];
    }
  }

  /** A box that is already merged when its turn comes is not kept. */
  lemma NotKept(s: seq<ObjectInfo>, threshold: real, c: seq<int>, i: nat)
    requires Progress(s, threshold, c, i) && i < |s| && c[i] >= 0
    ensures Progress(s, threshold, c, i + 1) && c[i] != i
  {
    assert Clustered(s, threshold, c, i);
  }

  lemma {:induction false} KeptSame(s: seq<ObjectInfo>, c0: seq<int>, c: seq<int>, n: nat)
    requires n <= |s| == |c0| == |c| && c[..n] == c0[..n]
    ensures Kept(s, c, n) == Kept(s, c0, n)
  {
    if n > 0 {
      assert c[n - 1] == c[..n][n - 1] == c0[..n][n - 1];
      assert c[..n - 1] == c[..n][..n - 1] == c0[..n][..n - 1] == c0[..n - 1];
      KeptSame(s, c0, c, n - 1);
    }
  }

  // ---------------------------------------------------------------- what the clusters say

  /** No two boxes of `s` overlap by more than the threshold. */
  predicate Independent(s: seq<ObjectInfo>, threshold: real) {
    forall i, j :: 0 <= i < j < |s| ==> !Exceeds(s[i], s[j], threshold)
  }

  /** Every kept box comes from somewhere in the input. */
  lemma {:induction false} KeptFrom(s: seq<ObjectInfo>, c: seq<int>, n: nat, k: nat) returns (i: nat)
    requires n <= |s| == |c| && k < |Kept(s, c, n)|
    ensures i < n && c[i] == i && s[i] == Kept(s, c, n)[k]
    ensures |Kept(s, c, i)| == k
  {
    var p := Kept(s, c, n - 1);
    if k < |p| {
      i := KeptFrom(s, c, n - 1, k);
    } else {
      i := n - 1;
    }
  }

  lemma {:induction false} KeptLonger(s: seq<ObjectInfo>, c: seq<int>, m: nat, n: nat)
    requires m <= n <= |s| == |c|
    ensures |Kept(s, c, m)| <= |Kept(s, c, n)|
    ensures Kept(s, c, n)[..|Kept(s, c, m)|] == Kept(s, c, m)
    decreases n
  {
    if m < n {
      KeptLonger(s, c, m, n - 1);
    }
  }

  /** The kept boxes come in the order of the input. */
  lemma KeptInOrder(s: seq<ObjectInfo>, c: seq<int>, k: nat, l: nat) returns (i: nat, j: nat)
    requires |c| == |s| && k < l < |Kept(s, c, |s|)|
    ensures i < j < |s| && c[i] == i && c[j] == j && s[i] == Kept(s, c, |s|)[k] && s[j] == Kept(s, c, |s|)[l]
  {
    i := KeptFrom(s, c, |s|, k);
    j := KeptFrom(s, c, |s|, l);
    if j <= i {
      KeptLonger(s, c, j, i);
    }
  }

  /** The boxes that are kept stand in descending order and do not suppress each other. */
  lemma KeptIsIndependent(s: seq<ObjectInfo>, threshold: real, c: seq<int>)
    requires Descending(s) && Clusters(s, threshold, c)
    ensures Descending(Kept(s, c, |s|)) && Independent(Kept(s, c, |s|), threshold)
  {
    var kept := Kept(s, c, |s|);
    forall k, l | 0 <= k < l < |kept| ensures kept[k].score >= kept[l].score && !Exceeds(kept[k], kept[l], threshold) {
      var i, j := KeptInOrder(s, c, k, l);
      assert Clustered(s, threshold, c, j);
    }
  }

  /** Every box that is dropped overlaps a kept box of at least its score by more than the threshold: nothing more could be kept. */
  lemma DroppedForABetter(s: seq<ObjectInfo>, threshold: real, c: seq<int>, j: nat) returns (k: nat)
    requires Descending(s) && Clusters(s, threshold, c) && j < |s| && c[j] != j
    ensures k < |Kept(s, c, |s|)|
    ensures var best := Kept(s, c, |s|)[k]; Exceeds(best, s[j], threshold) && best.score >= s[j].score
  {
    assert Clustered(s, threshold, c, j);
    var i := c[j];
    k := |Kept(s, c, i)|;
    KeptLonger(s, c, i + 1, |s|);
    assert Kept(s, c, i + 1) == Kept(s, c, i) + [s[i]];
    assert Kept(s, c, |s|)[k] == Kept(s, c, |s|)[..|Kept(s, c, i + 1)|][k];
  }

  /** The boxes merged into box `i`. */
  ghost function Cluster(c: seq<int>, i: int): set<int> {
    set j | 0 <= j < |c| && c[j] == i
  }

  /** The clusters of the kept boxes partition the input: every box is in one of them, and in no other. */
  lemma ClustersPartition(s: seq<ObjectInfo>, threshold: real, c: seq<int>, j: nat)
    requires Clusters(s, threshold, c) && j < |s|
    ensures exists i :: 0 <= i < |s| && c[i] == i && j in Cluster(c, i)
    ensures forall i, k :: 0 <= i < k < |s| ==> Cluster(c, i) !! Cluster(c, k)
    ensures forall i :: 0 <= i < |s| && Cluster(c, i) != {} ==> c[i] == i && i in Cluster(c, i)
  {
    assert Clustered(s, threshold, c, j);
    assert j in Cluster(c, c[j]);
    forall i | 0 <= i < |s| && Cluster(c, i) != {} ensures c[i] == i && i in Cluster(c, i) {
      var k :| k in Cluster(c, i);
      assert Clustered(s, threshold, c, k);
    }
  }

  // ---------------------------------------------------------------- again

  /** Independence does not depend on the order. */
  lemma IndependentRearranged(s: seq<ObjectInfo>, t: seq<ObjectInfo>, threshold: real)
    requires Independent(s, threshold) && multiset(t) == multiset(s)
    ensures Independent(t, threshold)
  {
    forall i, j | 0 <= i < j < |t| ensures !Exceeds(t[i], t[j], threshold) {
      var a, b := TwoPlaces(s, t, i, j);
      ExceedsSymmetric(t[i], t[j], threshold);
    }
  }

  /** Two elements of a sequence are found at two places of any rearrangement. */
  lemma TwoPlaces<T>(s: seq<T>, t: seq<T>, i: nat, j: nat) returns (a: nat, b: nat)
    requires multiset(s) == multiset(t) && i < j < |t|
    ensures a < |s| && b < |s| && a != b && s[a] == t[i] && s[b] == t[j]
  {
    assert t[i] in multiset(s);
    a :| 0 <= a < |s| && s[a] == t[i];
    WithoutOne(s, a);
    WithoutOne(t, i);
    Cancel(t[i], multiset(Without(s, a)), multiset(Without(t, i)));
    assert Without(t, i)[j - 1] == t[j];
    assert t[j] in multiset(Without(s, a));
    var b' :| 0 <= b' < |Without(s, a)| && Without(s, a)[b'] == t[j];
    b := if b' < a then b' else b' + 1;
  }

  lemma {:induction false} NothingDropped(s: seq<ObjectInfo>, threshold: real, c: seq<int>, n: nat)
    requires Clusters(s, threshold, c) && Independent(s, threshold) && n <= |s|
    ensures Kept(s, c, n) == s[..n]
  {
    if n > 0 {
      NothingDropped(s, threshold, c, n - 1);
      assert Clustered(s, threshold, c, n - 1);
      assert s[..n] == s[..n - 1] + [s[n - 1]];
    }
  }

  /**
   Suppressing once is enough: run on the boxes that were kept, in whatever order equal
   scores are sorted this time, it keeps all of them.
   */
  lemma Idempotent(s: seq<ObjectInfo>, threshold: real, c: seq<int>, s': seq<ObjectInfo>, c': seq<int>)
    requires Descending(s) && Clusters(s, threshold, c)
    requires multiset(s') == multiset(Kept(s, c, |s|)) && Clusters(s', threshold, c')
    ensures multiset(Kept(s', c', |s'|)) == multiset(Kept(s, c, |s|))
  {
    KeptIsIndependent(s, threshold, c);
    IndependentRearranged(Kept(s, c, |s|), s', threshold);
    NothingDropped(s', threshold, c', |s'|);
    assert s'[..|s'|] == s';
  }
}
