/**
 Output polygons: circular doubly linked rings of points, spliced in place.

 `IsRing(r)` says that the points of `r`, in this order, are linked into one ring.  Every
 splice the clipper makes is one of: reverse, insert, remove, and the cross-linking of two
 places, which cuts one ring into two or joins two rings into one.
 */
module OutPtRings {
  import opened ClipTypes
  import opened Sequences

  class OutPt {
    var Idx: nat
    const Pt: IntPoint
    var Next: OutPt
    var Prev: OutPt

    constructor Alone(idx: nat, pt: IntPoint)
      ensures Idx == idx && Pt == pt && Next == this && Prev == this
    {
      Idx, Pt, Next, Prev := idx, pt, this, this;
    }

    constructor (idx: nat, pt: IntPoint, next: OutPt, prev: OutPt)
      ensures Idx == idx && Pt == pt && Next == next && Prev == prev
    {
      Idx, Pt, Next, Prev := idx, pt, next, prev;
    }
  }

  /** Two places noted by the sweep where output polygons run along each other towards `OffPt`. */
  datatype Join = Join(OutPt1: OutPt, OutPt2: OutPt, OffPt: IntPoint)

  ghost predicate IsRing(r: seq<OutPt>)
    reads r`Next, r`Prev
  {
    && r != [] && Distinct(r)
    && r[|r| - 1].Next == r[0] && r[0].Prev == r[|r| - 1]
    && (forall i {:trigger r[i].Next} :: 0 <= i < |r| - 1 ==> r[i].Next == r[i + 1])
    && (forall i {:trigger r[i].Prev} :: 1 <= i < |r| ==> r[i].Prev == r[i - 1])
  }

  function Rotate<T>(s: seq<T>, k: nat): (r: seq<T>)
    requires k <= |s|
    ensures |r| == |s|
    ensures forall i :: 0 <= i < |s| - k ==> r[i] == s[i + k]
    ensures forall i :: |s| - k <= i < |s| ==> r[i] == s[i - (|s| - k)]
  {
    s[k..] + s[..k]
  }

  function Reverse<T>(s: seq<T>): (r: seq<T>)
    ensures |r| == |s|
    ensures forall i :: 0 <= i < |s| ==> r[i] == s[|s| - 1 - i]
  {
    if s == [] then [] else Reverse(s[1..]) + [s[0]]
  }

  lemma DistinctRotate<T>(s: seq<T>, k: nat)
    requires k <= |s| && Distinct(s)
    ensures Distinct(Rotate(s, k))
  {
    DistinctIsPairwise(s);
    DistinctIsPairwise(Rotate(s, k));
  }

  lemma DistinctReverse<T>(s: seq<T>)
    requires Distinct(s)
    ensures Distinct(Reverse(s))
  {
    DistinctIsPairwise(s);
    DistinctIsPairwise(Reverse(s));
  }

  /** The places of the points of a ring. */
  function Places(r: seq<OutPt>): (s: seq<IntPoint>)
    ensures |s| == |r|
    ensures forall i :: 0 <= i < |r| ==> s[i] == r[i].Pt
  {
    seq(|r|, i requires 0 <= i < |r| => r[i].Pt)
  }

  /** A ring may be read from any of its points. */
  lemma RotateRing(r: seq<OutPt>, k: nat)
    requires IsRing(r) && k <= |r|
    ensures IsRing(Rotate(r, k))
  {
    DistinctRotate(r, k);
  }

  /** The whole ring is reached from any point by following `Next`. */
  lemma NextInRing(r: seq<OutPt>, i: nat)
    requires IsRing(r) && i < |r|
    ensures r[i].Next == r[if i + 1 < |r| then i + 1 else 0]
    ensures r[i].Prev == r[if i > 0 then i - 1 else |r| - 1]
  {
  }

  /** Exchanges the links of every point. */
  method ReversePolyPtLinks(pp: OutPt, ghost r: seq<OutPt>)
    requires IsRing(r) && pp == r[0]
    modifies r`Next, r`Prev
    ensures IsRing(Reverse(r))
  {
    var pp1 := pp;
    ghost var j := 0;
    while true
      invariant j < |r| && pp1 == r[j]
      invariant forall i {:trigger r[i].Next} :: 0 <= i < |r| ==> r[i].Next == if i < j then old(r[i].Prev) else old(r[i].Next)
      invariant forall i {:trigger r[i].Prev} :: 0 <= i < |r| ==> r[i].Prev == if i < j then old(r[i].Next) else old(r[i].Prev)
      decreases |r| - j
    {
      DistinctAt(r, j);
      var pp2 := pp1.Next;
      pp1.Next := pp1.Prev;
      pp1.Prev := pp2;
      pp1 := pp2;
      j := j + 1;
      if pp1 == pp {
        break;
      }
    }
    DistinctReverse(r);
  }

  /** Links `newOp`, which points at `op` and its predecessor, in between the two. */
  method LinkBefore(op: OutPt, newOp: OutPt, ghost r: seq<OutPt>)
    requires IsRing(r) && op == r[0] && newOp !in r && newOp.Next == op && newOp.Prev == op.Prev
    modifies op`Prev, op.Prev`Next
    ensures IsRing(r + [newOp])
  {
    DistinctAround(r, 0);
    DistinctAround(r, |r| - 1);
    DistinctIsPairwise([newOp]);
    DistinctConcat(r, [newOp]);
    newOp.Prev.Next := newOp;
    op.Prev := newOp;
  }

  /** The ends of two sequences that are apart are different from each other and from what is between. */
  lemma EndsApart(a: seq<OutPt>, b: seq<OutPt>)
    requires a != [] && b != [] && Distinct(a) && Distinct(b) && Apart(a, b)
    ensures a[0] != b[0] && a[0] != b[|b| - 1] && a[|a| - 1] != b[0] && a[|a| - 1] != b[|b| - 1]
    ensures forall i :: 0 <= i < |a| - 1 ==> a[i] != a[|a| - 1] && a[i] != b[|b| - 1]
    ensures forall i :: 0 <= i < |b| - 1 ==> b[i] != a[|a| - 1] && b[i] != b[|b| - 1]
    ensures forall i :: 1 <= i < |a| ==> a[i] != a[0] && a[i] != b[0]
    ensures forall i :: 1 <= i < |b| ==> b[i] != a[0] && b[i] != b[0]
  {
    DistinctIsPairwise(a);
    DistinctIsPairwise(b);
    assert forall i, j :: 0 <= i < |a| && 0 <= j < |b| ==> a[i] in a && b[j] in b;
  }

  /** `x1`, `x2` end and `y2`, `y1` begin two rings `a` and `b`. */
  ghost predicate EndsOfRings(a: seq<OutPt>, b: seq<OutPt>, x1: OutPt, y1: OutPt, x2: OutPt, y2: OutPt)
    reads a`Next, a`Prev, b`Next, b`Prev
  {
    && IsRing(a) && IsRing(b) && Apart(a, b)
    && x1 == a[|a| - 1] && y1 == b[0] && x2 == b[|b| - 1] && y2 == a[0]
  }

  /** `y1` and `x1` are the ends of a stretch `a` of a ring, `y2` and `x2` those of the rest `b`. */
  ghost predicate EndsOfStretches(a: seq<OutPt>, b: seq<OutPt>, x1: OutPt, y1: OutPt, x2: OutPt, y2: OutPt)
    reads a`Next, a`Prev, b`Next, b`Prev, (a + b)`Next, (a + b)`Prev
  {
    && IsRing(a + b) && a != [] && b != []
    && x1 == a[|a| - 1] && y1 == a[0] && x2 == b[|b| - 1] && y2 == b[0]
  }

  /**
   Makes `y1` follow `x1` and `y2` follow `x2`. Between the ends of two rings this makes one
   ring of them; between the ends of two stretches of one ring it makes two rings.
   */
  method CrossLink(x1: OutPt, y1: OutPt, x2: OutPt, y2: OutPt, ghost a: seq<OutPt>, ghost b: seq<OutPt>)
    requires EndsOfRings(a, b, x1, y1, x2, y2) || EndsOfStretches(a, b, x1, y1, x2, y2)
    modifies x1`Next, y1`Prev, x2`Next, y2`Prev
    ensures old(EndsOfRings(a, b, x1, y1, x2, y2)) ==> IsRing(a + b)
    ensures old(EndsOfStretches(a, b, x1, y1, x2, y2)) ==> IsRing(a) && IsRing(b)
    ensures x1.Next == y1 && y1.Prev == x1 && x2.Next == y2 && y2.Prev == x2
  {
    DistinctConcat(a, b);
    EndsApart(a, b);
    ghost var r := a + b;
    ghost var rings := EndsOfRings(a, b, x1, y1, x2, y2);
    x1.Next := y1;
    y1.Prev := x1;
    x2.Next := y2;
    y2.Prev := x2;
    if rings {
      forall i {:trigger r[i].Next} | 0 <= i < |r| - 1 ensures r[i].Next == r[i + 1] {
        if i < |a| { assert r[i] == a[i]; } else { assert r[i] == b[i - |a|]; }
      }
      forall i {:trigger r[i].Prev} | 1 <= i < |r| ensures r[i].Prev == r[i - 1] {
        if i < |a| { assert r[i] == a[i]; } else { assert r[i] == b[i - |a|]; }
      }
    } else {
      forall i {:trigger a[i].Next} | 0 <= i < |a| - 1 ensures a[i].Next == a[i + 1] { assert r[i] == a[i]; }
      forall i {:trigger a[i].Prev} | 1 <= i < |a| ensures a[i].Prev == a[i - 1] { assert r[i] == a[i]; }
      forall i {:trigger b[i].Next} | 0 <= i < |b| - 1 ensures b[i].Next == b[i + 1] { assert r[|a| + i] == b[i]; }
      forall i {:trigger b[i].Prev} | 1 <= i < |b| ensures b[i].Prev == b[i - 1] { assert r[|a| + i] == b[i]; }
    }
  }

  /** Takes `pp` out of its ring; the result starts at its predecessor. */
  method Unlink(pp: OutPt, ghost r: seq<OutPt>)
    requires IsRing(r) && |r| > 1 && pp == r[|r| - 1]
    modifies pp.Prev`Next, pp.Next`Prev
    ensures IsRing(r[..|r| - 1])
  {
    DistinctAround(r, |r| - 1);
    DistinctAround(r, 0);
    DistinctPrefix(r, |r| - 1);
    pp.Prev.Next := pp.Next;
    pp.Next.Prev := pp.Prev;
  }
}
