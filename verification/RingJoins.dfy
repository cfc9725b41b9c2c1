/**
 Joining two output polygons along a common edge, or cutting one polygon in two where it
 touches itself.
 */
module RingJoins {
  import opened ClipTypes
  import opened Sequences
  import opened OutPtRings
  import opened Cycles
  import opened Geometry
  import opened JoinTests

  /** Puts a second point at the place of `outPt` behind or before it; the ring is read so that the new point comes last. */
  method DupOutPt(outPt: OutPt, insertAfter: bool, ghost r: seq<OutPt>) returns (result: OutPt)
    requires IsRing(r) && outPt == if insertAfter then r[|r| - 1] else r[0]
    modifies r`Next, r`Prev
    ensures IsRing(r + [result]) && fresh(result) && result.Pt == outPt.Pt && result.Idx == outPt.Idx
  {
    NextInRing(r, 0);
    NextInRing(r, |r| - 1);
    var op := if insertAfter then outPt.Next else outPt;
    assert op == r[0] && op.Prev == r[|r| - 1];
    result := new OutPt(outPt.Idx, outPt.Pt, op, op.Prev);
    LinkBefore(op, result, r);
  }

  method FirstElsewhere(op: OutPt, forward: bool, ghost r: seq<OutPt>, ghost k: nat) returns (opb: OutPt)
    requires IsRing(r) && k < |r| && op == r[k]
    ensures opb == r[Elsewhere(Places(r), k, forward, 1)]
  {
    DistinctAt(r, k);
    NextInRing(r, k);
    opb := if forward then op.Next else op.Prev;
    ghost var j := 1;
    while opb.Pt == op.Pt && opb != op
      invariant 1 <= j <= |r| && opb == r[StepsFrom(|r|, k, forward, j)]
      invariant Elsewhere(Places(r), k, forward, 1) == Elsewhere(Places(r), k, forward, j)
      decreases |r| - j
    {
      NextInRing(r, StepsFrom(|r|, k, forward, j));
      opb := if forward then opb.Next else opb.Prev;
      j := j + 1;
    }
  }

  method FindEdgeTo(op: OutPt, offPt: IntPoint, ghost r: seq<OutPt>, ghost k: nat) returns (ok: bool, reverse: bool, opb: OutPt)
    requires IsRing(r) && k < |r| && op == r[k]
    ensures var f := EdgeTo(Places(r), k, offPt); ok == f.ok && reverse == f.reverse && opb == r[f.place]
  {
    ok := true;
    opb := FirstElsewhere(op, true, r, k);
    reverse := opb.Pt.Y > op.Pt.Y || !SlopesEqual3(op.Pt, opb.Pt, offPt);
    if reverse {
      opb := FirstElsewhere(op, false, r, k);
      if opb.Pt.Y > op.Pt.Y || !SlopesEqual3(op.Pt, opb.Pt, offPt) {
        ok := false;
      }
    }
  }

  // ---------------------------------------------------------------- crossing over

  lemma TurnRing(a: seq<OutPt>, b: seq<OutPt>)
    requires IsRing(a + b)
    ensures IsRing(b + a)
  {
    RotateRing(a + b, |a|);
    assert Rotate(a + b, |a|) == b + a;
  }

  /** `m + n` is a ring of which `n` is a run with these ends; or else `m` and `n` are two rings. */
  ghost predicate Meeting(same: bool, m: seq<OutPt>, n: seq<OutPt>)
    reads m`Next, m`Prev, n`Next, n`Prev, (m + n)`Next, (m + n)`Prev
  {
    if same then IsRing(m + n) && |n| > 1 else IsRing(m) && IsRing(n) && Apart(m, n)
  }

  lemma MeetingShape(same: bool, m: seq<OutPt>, n: seq<OutPt>)
    requires Meeting(same, m, n)
    ensures n != [] && (!same ==> m != [])
    ensures !same ==> forall i :: 0 <= i < |m| ==> m[i] !in n
    ensures !same ==> forall i :: 0 <= i < |n| ==> n[i] !in m
  {
    if !same {
      ApartAt(m, n);
    }
  }

  /** Two rings with one fresh point each are still apart. */
  lemma StillApart(m: seq<OutPt>, n: seq<OutPt>, m': seq<OutPt>, n': seq<OutPt>, p: OutPt, q: OutPt)
    requires Apart(m, n) && p != q && p !in m && p !in n && q !in m && q !in n
    requires (m' == [p] + m || m' == m + [p]) && (n' == [q] + n || n' == n + [q])
    ensures Apart(m', n') && Apart(n', m')
  {
  }

  /**
   Both points are doubled, and each of the two runs that meet there goes on where the other
   came from. In one ring `m + n`, of which `n` is the run from `op2` to `op1`, this cuts `n`
   off; two rings `m`, which ends at `op1`, and `n`, which begins at `op2`, become one.
   */
  method CrossForward(op1: OutPt, op2: OutPt, ghost same: bool, ghost m: seq<OutPt>, ghost n: seq<OutPt>) returns (op1b: OutPt, op2b: OutPt)
    requires Meeting(same, m, n) && n[0] == op2 && op1 == if same then n[|n| - 1] else m[|m| - 1]
    modifies m`Next, m`Prev, n`Next, n`Prev
    ensures fresh(op1b) && fresh(op2b) && op1b != op2b && op1b.Pt == op1.Pt && op2b.Pt == op2.Pt && op1b.Idx == op1.Idx && op2b.Idx == op2.Idx
    ensures same ==> IsRing([op1b] + m + [op2b]) && IsRing(n)
    ensures !same ==> IsRing(n + [op2b] + ([op1b] + m))
    ensures op1.Next == op2 && op2.Prev == op1 && op2b.Next == op1b && op1b.Prev == op2b
  {
    op1b, op2b := DoubleForward(op1, op2, same, m, n);
    CrossLink(op2b, op1b, op1, op2, if same then [op1b] + m + [op2b] else n + [op2b], if same then n else [op1b] + m);
  }

  method DoubleForward(op1: OutPt, op2: OutPt, ghost same: bool, ghost m: seq<OutPt>, ghost n: seq<OutPt>) returns (op1b: OutPt, op2b: OutPt)
    requires Meeting(same, m, n) && n[0] == op2 && op1 == if same then n[|n| - 1] else m[|m| - 1]
    modifies m`Next, m`Prev, n`Next, n`Prev
    ensures fresh(op1b) && fresh(op2b) && op1b != op2b && op1b.Pt == op1.Pt && op2b.Pt == op2.Pt && op1b.Idx == op1.Idx && op2b.Idx == op2.Idx
    ensures if same then EndsOfStretches([op1b] + m + [op2b], n, op2b, op1b, op1, op2)
            else EndsOfRings(n + [op2b], [op1b] + m, op2b, op1b, op1, op2)
  {
    MeetingShape(same, m, n);
    hide IsRing, Apart;
    ghost var x1 := if same then m + n else m;
    op1b := DupOutPt(op1, true, x1);
    ghost var x2 := FirstForward(same, m, n, op1b);
    op2b := DupOutPt(op2, false, x2);
    SecondForward(same, m, n, op1b, op2b);
  }

  lemma FirstForward(same: bool, m: seq<OutPt>, n: seq<OutPt>, p: OutPt) returns (x: seq<OutPt>)
    requires if same then IsRing(m + n + [p]) && n != [] else IsRing(m + [p]) && IsRing(n)
    ensures x == (if same then n + [p] + m else n) && IsRing(x) && x[0] == n[0]
    ensures !same ==> IsRing([p] + m)
  {
    if same {
      assert m + n + [p] == m + (n + [p]);
      TurnRing(m, n + [p]);
      x := n + [p] + m;
    } else {
      TurnRing(m, [p]);
      x := n;
    }
  }

  lemma SecondForward(same: bool, m: seq<OutPt>, n: seq<OutPt>, p: OutPt, q: OutPt)
    requires n != [] && (!same ==> m != []) && p != q && p !in m && p !in n && q !in m && q !in n
    requires if same then IsRing(n + [p] + m + [q]) else IsRing([p] + m) && IsRing(n + [q]) && Apart(m, n)
    ensures if same then EndsOfStretches([p] + m + [q], n, q, p, n[|n| - 1], n[0])
            else EndsOfRings(n + [q], [p] + m, q, p, m[|m| - 1], n[0])
  {
    hide IsRing;
    if same {
      assert n + [p] + m + [q] == n + ([p] + m + [q]);
      TurnRing(n, [p] + m + [q]);
    } else {
      StillApart(m, n, [p] + m, n + [q], p, q);
    }
  }

  /** As `CrossForward`, where the polygons run the other way: `n` is the run from `op1` to `op2`. */
  method CrossBackward(op1: OutPt, op2: OutPt, ghost same: bool, ghost m: seq<OutPt>, ghost n: seq<OutPt>) returns (op1b: OutPt, op2b: OutPt)
    requires Meeting(same, m, n) && n[|n| - 1] == op2 && op1 == if same then n[0] else m[0]
    modifies m`Next, m`Prev, n`Next, n`Prev
    ensures fresh(op1b) && fresh(op2b) && op1b != op2b && op1b.Pt == op1.Pt && op2b.Pt == op2.Pt && op1b.Idx == op1.Idx && op2b.Idx == op2.Idx
    ensures same ==> IsRing(n) && IsRing([op2b] + m + [op1b])
    ensures !same ==> IsRing([op2b] + n + (m + [op1b]))
    ensures op2.Next == op1 && op1.Prev == op2 && op1b.Next == op2b && op2b.Prev == op1b
  {
    op1b, op2b := DoubleBackward(op1, op2, same, m, n);
    CrossLink(op2, op1, op1b, op2b, if same then n else [op2b] + n, if same then [op2b] + m + [op1b] else m + [op1b]);
  }

  method DoubleBackward(op1: OutPt, op2: OutPt, ghost same: bool, ghost m: seq<OutPt>, ghost n: seq<OutPt>) returns (op1b: OutPt, op2b: OutPt)
    requires Meeting(same, m, n) && n[|n| - 1] == op2 && op1 == if same then n[0] else m[0]
    modifies m`Next, m`Prev, n`Next, n`Prev
    ensures fresh(op1b) && fresh(op2b) && op1b != op2b && op1b.Pt == op1.Pt && op2b.Pt == op2.Pt && op1b.Idx == op1.Idx && op2b.Idx == op2.Idx
    ensures if same then EndsOfStretches(n, [op2b] + m + [op1b], op2, op1, op1b, op2b)
            else EndsOfRings([op2b] + n, m + [op1b], op2, op1, op1b, op2b)
  {
    MeetingShape(same, m, n);
    ghost var x1 := StartBackward(same, m, n);
    hide IsRing, Apart;
    op1b := DupOutPt(op1, false, x1);
    ghost var x2 := FirstBackward(same, m, n, op1b);
    op2b := DupOutPt(op2, true, x2);
    SecondBackward(same, m, n, op1b, op2b);
  }

  lemma StartBackward(same: bool, m: seq<OutPt>, n: seq<OutPt>) returns (x: seq<OutPt>)
    requires Meeting(same, m, n)
    ensures x == (if same then n + m else m) && IsRing(x) && x[0] == if same then n[0] else m[0]
  {
    if same {
      TurnRing(m, n);
    }
    x := if same then n + m else m;
  }

  lemma FirstBackward(same: bool, m: seq<OutPt>, n: seq<OutPt>, p: OutPt) returns (x: seq<OutPt>)
    requires n != [] && if same then IsRing(n + m + [p]) else IsRing(m + [p]) && IsRing(n)
    ensures x == (if same then m + [p] + n else n) && IsRing(x) && x[|x| - 1] == n[|n| - 1]
  {
    if same {
      assert n + m + [p] == n + (m + [p]);
      TurnRing(n, m + [p]);
      x := m + [p] + n;
    } else {
      x := n;
    }
  }

  lemma SecondBackward(same: bool, m: seq<OutPt>, n: seq<OutPt>, p: OutPt, q: OutPt)
    requires n != [] && (!same ==> m != []) && p != q && p !in m && p !in n && q !in m && q !in n
    requires if same then IsRing(m + [p] + n + [q]) else IsRing(m + [p]) && IsRing(n + [q]) && Apart(m, n)
    ensures if same then EndsOfStretches(n, [q] + m + [p], n[|n| - 1], n[0], p, q)
            else EndsOfRings([q] + n, m + [p], n[|n| - 1], m[0], p, q)
  {
    hide IsRing;
    if same {
      assert m + [p] + n + [q] == (m + [p]) + (n + [q]);
      TurnRing(m + [p], n + [q]);
      assert n + [q] + (m + [p]) == n + ([q] + m + [p]);
    } else {
      TurnRing(n, [q]);
      StillApart(m, n, m + [p], [q] + n, p, q);
    }
  }

  // ---------------------------------------------------------------- what is conserved

  /** Points doubled at the two ends of a run do not count for the area. */
  lemma AreaDoubled(m: seq<IntPoint>, n: seq<IntPoint>, p: IntPoint, q: IntPoint)
    requires n != [] && n[0] == q && n[|n| - 1] == p
    ensures Area2([p] + m + [q] + n) == Area2(m + n)
    ensures Area2([p] + m + [q]) + Area2(n) == Area2(m + n)
  {
    assert Rotate([p] + m + [q] + n, 1) == m + [q] + n + [p];
    AreaRotate([p] + m + [q] + n, 1);
    AreaDrop(m + [q] + n, p);
    assert Rotate(m + [q] + n, |m| + 1) == n + m + [q];
    AreaRotate(m + [q] + n, |m| + 1);
    AreaDrop(n + m, q);
    assert Rotate(n + m, |n|) == m + n;
    AreaRotate(n + m, |n|);
    AreaCross([p] + m + [q], n);
  }

  /** Nor do points doubled where two paths are joined. */
  lemma AreaJoined(m: seq<IntPoint>, n: seq<IntPoint>, p: IntPoint, q: IntPoint)
    requires m != [] && n != [] && n[0] == q && m[|m| - 1] == p
    ensures Area2(n + [q] + ([p] + m)) == Area2(m) + Area2(n)
  {
    AreaCross(n + [q], [p] + m);
    AreaDrop(n, q);
    assert Rotate([p] + m, 1) == m + [p];
    AreaRotate([p] + m, 1);
    AreaDrop(m, p);
  }

  /** The points of `a` and `b` together are those of `r1` and `r2` together and the two new ones. */
  ghost predicate Gathered(a: seq<OutPt>, b: seq<OutPt>, r1: seq<OutPt>, r2: seq<OutPt>, p: OutPt, q: OutPt) {
    && (forall x :: x in a ==> x in r1 || x in r2 || x == p || x == q)
    && (forall x :: x in b ==> x in r1 || x in r2 || x == p || x == q)
    && (forall x :: x in r1 ==> x in a || x in b)
    && (forall x :: x in r2 ==> x in a || x in b)
    && (p in a || p in b) && (q in a || q in b)
  }

  /** How many places lie between place `i` and the next time place `j` comes, around a ring of `n`. */
  function Between(n: nat, i: nat, j: nat): nat
    requires i < n && j < n && i != j
  {
    if j > i then j - i - 1 else j + n - i - 1
  }

  /**
   The two rings into which a ring is cut at places `i1` and `i2`, where `p` and `q` double the
   points there: the run from one place to the other, and the rest with `p` and `q`.
   */
  function Pieces<T>(r: seq<T>, i1: nat, i2: nat, reverse: bool, p: T, q: T): (seq<T>, seq<T>)
    requires i1 < |r| && i2 < |r| && i1 != i2
  {
    var d := if reverse then Between(|r|, i2, i1) else Between(|r|, i1, i2);
    var s := Rotate(r, 1 + if reverse then i2 else i1);
    if reverse then (s[d..], [p, q] + s[..d]) else (Rotate(s[d..], |r| - d - 1), [p] + s[..d] + [q])
  }

  /** The ring that two rings become when they are joined at places `i1` and `i2`, where `p` and `q` double the points. */
  function Chained<T>(r1: seq<T>, i1: nat, r2: seq<T>, i2: nat, reverse: bool, p: T, q: T): seq<T>
    requires i1 < |r1| && i2 < |r2|
  {
    if reverse then [q] + Rotate(r2, i2 + 1) + (Rotate(r1, i1) + [p]) else Rotate(r2, i2) + [q] + ([p] + Rotate(r1, i1 + 1))
  }

  /** The ring `r` has been cut into the rings `a` and `b`. */
  ghost predicate CutInto(r: seq<OutPt>, a: seq<OutPt>, b: seq<OutPt>, p: OutPt, q: OutPt)
    reads a`Next, a`Prev, b`Next, b`Prev
  {
    && IsRing(a) && IsRing(b) && Apart(a, b) && Gathered(a, b, r, [], p, q)
    && Area2(Places(a)) + Area2(Places(b)) == Area2(Places(r))
  }

  /** The rings `r1` and `r2` have been joined to the ring `a`. */
  ghost predicate JoinedTo(r1: seq<OutPt>, r2: seq<OutPt>, a: seq<OutPt>, p: OutPt, q: OutPt)
    reads a`Next, a`Prev
  {
    && IsRing(a) && Gathered(a, [], r1, r2, p, q)
    && Area2(Places(a)) == Area2(Places(r1)) + Area2(Places(r2))
  }

  lemma CutForward(r: seq<OutPt>, s: seq<OutPt>, i: nat, m: seq<OutPt>, n: seq<OutPt>, p: OutPt, q: OutPt) returns (a: seq<OutPt>, b: seq<OutPt>)
    requires i <= |r| && s == Rotate(r, i) && s == m + n && n != [] && Distinct(r)
    requires n[0].Pt == q.Pt && n[|n| - 1].Pt == p.Pt && p !in r && q !in r && p != q
    requires IsRing([p] + m + [q]) && IsRing(n)
    ensures CutInto(r, a, b, p, q) && a[0] == n[|n| - 1]
    ensures a == Rotate(n, |n| - 1) && b == [p] + m + [q]
  {
    hide IsRing, Rotate, Gathered, Distinct;
    a, b := Rotate(n, |n| - 1), [p] + m + [q];
    RotateRing(n, |n| - 1);
    AreaOfCut(r, i, m, n, p, q);
    GatheredCut(r, i, m, n, p, q);
  }

  lemma AreaOfCut(r: seq<OutPt>, i: nat, m: seq<OutPt>, n: seq<OutPt>, p: OutPt, q: OutPt)
    requires i <= |r| && m + n == Rotate(r, i) && n != [] && n[0].Pt == q.Pt && n[|n| - 1].Pt == p.Pt
    ensures Area2(Places(Rotate(n, |n| - 1))) + Area2(Places([p] + m + [q])) == Area2(Places(r))
  {
    AreaRotated(r, i);
    AreaRotated(n, |n| - 1);
    assert Places(m + n) == Places(m) + Places(n);
    assert Places([p] + m + [q]) == [p.Pt] + Places(m) + [q.Pt];
    AreaDoubled(Places(m), Places(n), p.Pt, q.Pt);
  }

  lemma AreaRotated(r: seq<OutPt>, i: nat)
    requires i <= |r|
    ensures Area2(Places(Rotate(r, i))) == Area2(Places(r))
  {
    assert Places(Rotate(r, i)) == Rotate(Places(r), i);
    AreaRotate(Places(r), i);
  }

  lemma GatheredCut(r: seq<OutPt>, i: nat, m: seq<OutPt>, n: seq<OutPt>, p: OutPt, q: OutPt)
    requires i <= |r| && m + n == Rotate(r, i) && n != [] && Distinct(r) && p !in r && q !in r && p != q
    ensures Gathered(Rotate(n, |n| - 1), [p] + m + [q], r, [], p, q)
    ensures Apart(Rotate(n, |n| - 1), [p] + m + [q])
  {
    DistinctRotate(r, i);
    DistinctConcat(m, n);
    RotateMembers(r, i);
    RotateMembers(n, |n| - 1);
    hide Rotate, Distinct;
    forall x | x in r ensures x in m || x in n {
      assert x in m + n;
    }
    forall x | x in m || x in n ensures x in r {
      assert x in m + n;
    }
  }

  lemma RotateAt<T>(s: seq<T>, k: nat)
    requires k <= |s|
    ensures forall i :: 0 <= i < |s| ==> Rotate(s, k)[i] in s
  {
  }

  lemma RotateMembers<T>(s: seq<T>, k: nat)
    requires k <= |s|
    ensures forall x :: x in Rotate(s, k) <==> x in s
  {
    assert s == s[..k] + s[k..];
  }

  lemma JoinForward(r1: seq<OutPt>, r2: seq<OutPt>, i: nat, j: nat, m: seq<OutPt>, n: seq<OutPt>, p: OutPt, q: OutPt) returns (a: seq<OutPt>)
    requires i <= |r1| && j <= |r2| && m == Rotate(r1, i) && n == Rotate(r2, j) && m != [] && n != []
    requires n[0].Pt == q.Pt && m[|m| - 1].Pt == p.Pt
    requires IsRing(n + [q] + ([p] + m))
    ensures JoinedTo(r1, r2, a, p, q) && a == n + [q] + ([p] + m)
  {
    a := n + [q] + ([p] + m);
    AreaOfJoin(r1, r2, i, j, p, q);
    RotateMembers(r1, i);
    RotateMembers(r2, j);
    hide Rotate, IsRing;
  }

  lemma AreaOfJoin(r1: seq<OutPt>, r2: seq<OutPt>, i: nat, j: nat, p: OutPt, q: OutPt)
    requires i <= |r1| && j <= |r2| && r1 != [] && r2 != []
    requires var m, n := Rotate(r1, i), Rotate(r2, j); n[0].Pt == q.Pt && m[|m| - 1].Pt == p.Pt
    ensures Area2(Places(Rotate(r2, j) + [q] + ([p] + Rotate(r1, i)))) == Area2(Places(r1)) + Area2(Places(r2))
  {
    hide Rotate;
    var m, n := Rotate(r1, i), Rotate(r2, j);
    AreaRotated(r1, i);
    AreaRotated(r2, j);
    assert Places(n + [q] + ([p] + m)) == Places(n) + [q.Pt] + ([p.Pt] + Places(m));
    AreaJoined(Places(m), Places(n), p.Pt, q.Pt);
  }

  lemma CutBackward(r: seq<OutPt>, s: seq<OutPt>, i: nat, m: seq<OutPt>, n: seq<OutPt>, p: OutPt, q: OutPt) returns (a: seq<OutPt>, b: seq<OutPt>)
    requires i <= |r| && s == Rotate(r, i) && s == m + n && n != [] && Distinct(r)
    requires n[0].Pt == p.Pt && n[|n| - 1].Pt == q.Pt && p !in r && q !in r && p != q
    requires IsRing([q] + m + [p]) && IsRing(n)
    ensures CutInto(r, a, b, p, q) && b[0] == p && a[0] == n[0]
    ensures a == n && b == [p, q] + m
  {
    var c;
    c, b := CutForward(r, s, i, m, n, q, p);
    RotateMembers(n, |n| - 1);
    AreaRotate(Places(n), |n| - 1);
    assert Places(c) == Rotate(Places(n), |n| - 1);
    a, b := n, Rotate([q] + m + [p], |m| + 1);
    assert b == [p, q] + m;
    RotateRing([q] + m + [p], |m| + 1);
    AreaRotate(Places([q] + m + [p]), |m| + 1);
    assert Places(b) == Rotate(Places([q] + m + [p]), |m| + 1);
    RotateMembers([q] + m + [p], |m| + 1);
  }

  lemma JoinBackward(r1: seq<OutPt>, r2: seq<OutPt>, i: nat, j: nat, m: seq<OutPt>, n: seq<OutPt>, p: OutPt, q: OutPt) returns (a: seq<OutPt>)
    requires i <= |r1| && j <= |r2| && m == Rotate(r1, i) && n == Rotate(r2, j) && m != [] && n != []
    requires m[0].Pt == p.Pt && n[|n| - 1].Pt == q.Pt
    requires IsRing([q] + n + (m + [p]))
    ensures JoinedTo(r1, r2, a, p, q) && a == [q] + n + (m + [p])
  {
    a := [q] + n + (m + [p]);
    TurnRing([q] + n, m + [p]);
    var c := JoinForward(r2, r1, j, i, n, m, q, p);
    assert Rotate(a, |n| + 1) == c;
    AreaRotated(a, |n| + 1);
  }

  /** The ring or the two rings seen from where they are to meet: `r2` at place `i2` follows `r1` at place `i1`. */
  lemma SeenForward(same: bool, r1: seq<OutPt>, i1: nat, r2: seq<OutPt>, i2: nat) returns (m: seq<OutPt>, n: seq<OutPt>)
    requires IsRing(r1) && IsRing(r2) && i1 < |r1| && i2 < |r2|
    requires if same then r1 == r2 && i1 != i2 else Apart(r1, r2)
    ensures Meeting(same, m, n) && n[0] == r2[i2] && r1[i1] == if same then n[|n| - 1] else m[|m| - 1]
    ensures if same then m + n == Rotate(r1, i1 + 1) else m == Rotate(r1, i1 + 1) && n == Rotate(r2, i2)
    ensures same ==> |m| == Between(|r1|, i1, i2)
    ensures forall i :: 0 <= i < |m| ==> m[i] in r1
    ensures forall i :: 0 <= i < |n| ==> n[i] in r1 || n[i] in r2
  {
    hide IsRing, Rotate, Apart;
    RotateRing(r1, i1 + 1);
    RotateAt(r1, i1 + 1);
    if same {
      m, n := Stretches(r1, i1, i2);
    } else {
      m, n := Rotate(r1, i1 + 1), Rotate(r2, i2);
      RotateRing(r2, i2);
      RotateAt(r2, i2);
      ApartRotated(r1, i1 + 1, r2, i2);
    }
  }

  /** What lies strictly between two places, and the rest with both places at its ends. */
  lemma Stretches<T>(r: seq<T>, i1: nat, i2: nat) returns (m: seq<T>, n: seq<T>)
    requires i1 < |r| && i2 < |r| && i1 != i2
    ensures m + n == Rotate(r, i1 + 1) && |m| == Between(|r|, i1, i2) && |n| > 1 && n[0] == r[i2] && n[|n| - 1] == r[i1]
    ensures (forall i :: 0 <= i < |m| ==> m[i] in r) && (forall i :: 0 <= i < |n| ==> n[i] in r)
  {
    var s, j := Rotate(r, i1 + 1), Between(|r|, i1, i2);
    RotateAt(r, i1 + 1);
    m, n := s[..j], s[j..];
  }

  lemma ApartRotated<T>(a: seq<T>, i: nat, b: seq<T>, j: nat)
    requires Apart(a, b) && i <= |a| && j <= |b|
    ensures Apart(Rotate(a, i), Rotate(b, j))
  {
    RotateMembers(a, i);
    RotateMembers(b, j);
  }

  lemma SeenBackward(same: bool, r1: seq<OutPt>, i1: nat, r2: seq<OutPt>, i2: nat) returns (m: seq<OutPt>, n: seq<OutPt>)
    requires IsRing(r1) && IsRing(r2) && i1 < |r1| && i2 < |r2|
    requires if same then r1 == r2 && i1 != i2 else Apart(r1, r2)
    ensures Meeting(same, m, n) && n[|n| - 1] == r2[i2] && r1[i1] == if same then n[0] else m[0]
    ensures if same then m + n == Rotate(r1, i2 + 1) else m == Rotate(r1, i1) && n == Rotate(r2, i2 + 1)
    ensures same ==> |m| == Between(|r1|, i2, i1)
    ensures forall i :: 0 <= i < |m| ==> m[i] in r1
    ensures forall i :: 0 <= i < |n| ==> n[i] in r1 || n[i] in r2
  {
    if same {
      m, n := SeenForward(true, r2, i2, r1, i1);
    } else {
      m, n := Rotate(r1, i1), Rotate(r2, i2 + 1);
      RotateRing(r1, i1);
      RotateRing(r2, i2 + 1);
      RotateAt(r1, i1);
      RotateAt(r2, i2 + 1);
      ApartRotated(r1, i1, r2, i2 + 1);
    }
  }

  /** The pieces, seen from where the ring is cut. */
  lemma PiecesSeen<T>(r: seq<T>, i1: nat, i2: nat, reverse: bool, m: seq<T>, n: seq<T>, p: T, q: T)
    requires i1 < |r| && i2 < |r| && i1 != i2
    requires m + n == Rotate(r, 1 + if reverse then i2 else i1)
    requires |m| == if reverse then Between(|r|, i2, i1) else Between(|r|, i1, i2)
    ensures n != [] && Pieces(r, i1, i2, reverse, p, q) == if reverse then (n, [p, q] + m) else (Rotate(n, |n| - 1), [p] + m + [q])
  {
    var s := Rotate(r, 1 + if reverse then i2 else i1);
    assert s[..|m|] == m && s[|m|..] == n;
  }

  /** Crosses over between two points: cuts their ring in two, or joins their two rings. */
  method CrossAt(op1: OutPt, op2: OutPt, reverse: bool, ghost same: bool, ghost r1: seq<OutPt>, ghost i1: nat, ghost r2: seq<OutPt>, ghost i2: nat)
    returns (op1b: OutPt, op2b: OutPt, ghost a: seq<OutPt>, ghost b: seq<OutPt>)
    requires IsRing(r1) && IsRing(r2) && i1 < |r1| && i2 < |r2| && r1[i1] == op1 && r2[i2] == op2
    requires if same then r1 == r2 && i1 != i2 else Apart(r1, r2)
    modifies r1`Next, r1`Prev, r2`Next, r2`Prev
    ensures fresh(op1b) && fresh(op2b) && Doubles(op1b, op2b, op1, op2)
    ensures same ==> CutInto(r1, a, b, op1b, op2b) && a[0] == op1 && b[0] == op1b
    ensures same ==> (a, b) == Pieces(r1, i1, i2, reverse, op1b, op2b)
    ensures !same ==> JoinedTo(r1, r2, a, op1b, op2b) && a == Chained(r1, i1, r2, i2, reverse, op1b, op2b)
    ensures if reverse then op2.Next == op1 && op1.Prev == op2 && op1b.Next == op2b && op2b.Prev == op1b
            else op1.Next == op2 && op2.Prev == op1 && op2b.Next == op1b && op1b.Prev == op2b
  {
    hide IsRing, CutInto, JoinedTo, Pieces, Chained, Apart;
    if reverse {
      op1b, op2b, a, b := CrossReversed(op1, op2, same, r1, i1, r2, i2);
    } else {
      op1b, op2b, a, b := CrossStraight(op1, op2, same, r1, i1, r2, i2);
    }
  }

  /** `p` and `q` are two points at the places of `op1` and `op2`, with their indices. */
  ghost predicate Doubles(p: OutPt, q: OutPt, op1: OutPt, op2: OutPt)
    reads p`Idx, q`Idx, op1`Idx, op2`Idx
  {
    p != q && p.Pt == op1.Pt && q.Pt == op2.Pt && p.Idx == op1.Idx && q.Idx == op2.Idx
  }

  method CrossStraight(op1: OutPt, op2: OutPt, ghost same: bool, ghost r1: seq<OutPt>, ghost i1: nat, ghost r2: seq<OutPt>, ghost i2: nat)
    returns (op1b: OutPt, op2b: OutPt, ghost a: seq<OutPt>, ghost b: seq<OutPt>)
    requires IsRing(r1) && IsRing(r2) && i1 < |r1| && i2 < |r2| && r1[i1] == op1 && r2[i2] == op2
    requires if same then r1 == r2 && i1 != i2 else Apart(r1, r2)
    modifies r1`Next, r1`Prev, r2`Next, r2`Prev
    ensures fresh(op1b) && fresh(op2b) && Doubles(op1b, op2b, op1, op2)
    ensures same ==> CutInto(r1, a, b, op1b, op2b) && a[0] == op1 && b[0] == op1b
    ensures same ==> (a, b) == Pieces(r1, i1, i2, false, op1b, op2b)
    ensures !same ==> JoinedTo(r1, r2, a, op1b, op2b) && a == Chained(r1, i1, r2, i2, false, op1b, op2b)
    ensures op1.Next == op2 && op2.Prev == op1 && op2b.Next == op1b && op1b.Prev == op2b
  {
    ghost var m, n := SeenForward(same, r1, i1, r2, i2);
    MeetingShape(same, m, n);
    RingDistinct(r1);
    hide IsRing, CutInto, JoinedTo, Rotate, Between, Distinct, Meeting, Pieces, Chained, Apart;
    op1b, op2b := CrossForward(op1, op2, same, m, n);
    a, b := CrossedForward(same, r1, i1, r2, i2, m, n, op1b, op2b);
  }

  method CrossReversed(op1: OutPt, op2: OutPt, ghost same: bool, ghost r1: seq<OutPt>, ghost i1: nat, ghost r2: seq<OutPt>, ghost i2: nat)
    returns (op1b: OutPt, op2b: OutPt, ghost a: seq<OutPt>, ghost b: seq<OutPt>)
    requires IsRing(r1) && IsRing(r2) && i1 < |r1| && i2 < |r2| && r1[i1] == op1 && r2[i2] == op2
    requires if same then r1 == r2 && i1 != i2 else Apart(r1, r2)
    modifies r1`Next, r1`Prev, r2`Next, r2`Prev
    ensures fresh(op1b) && fresh(op2b) && Doubles(op1b, op2b, op1, op2)
    ensures same ==> CutInto(r1, a, b, op1b, op2b) && a[0] == op1 && b[0] == op1b
    ensures same ==> (a, b) == Pieces(r1, i1, i2, true, op1b, op2b)
    ensures !same ==> JoinedTo(r1, r2, a, op1b, op2b) && a == Chained(r1, i1, r2, i2, true, op1b, op2b)
    ensures op2.Next == op1 && op1.Prev == op2 && op1b.Next == op2b && op2b.Prev == op1b
  {
    ghost var m, n := SeenBackward(same, r1, i1, r2, i2);
    MeetingShape(same, m, n);
    RingDistinct(r1);
    hide IsRing, CutInto, JoinedTo, Rotate, Between, Distinct, Meeting, Pieces, Chained, Apart;
    op1b, op2b := CrossBackward(op1, op2, same, m, n);
    a, b := CrossedBackward(same, r1, i1, r2, i2, m, n, op1b, op2b);
  }

  lemma CrossedForward(same: bool, r1: seq<OutPt>, i1: nat, r2: seq<OutPt>, i2: nat, m: seq<OutPt>, n: seq<OutPt>, p: OutPt, q: OutPt)
    returns (a: seq<OutPt>, b: seq<OutPt>)
    requires i1 < |r1| && i2 < |r2| && Distinct(r1) && p !in r1 && q !in r1 && p != q && p.Pt == r1[i1].Pt && q.Pt == r2[i2].Pt
    requires n != [] && (!same ==> m != []) && n[0] == r2[i2] && r1[i1] == if same then n[|n| - 1] else m[|m| - 1]
    requires if same then i1 != i2 && r1 == r2 && m + n == Rotate(r1, i1 + 1) && |m| == Between(|r1|, i1, i2)
             else m == Rotate(r1, i1 + 1) && n == Rotate(r2, i2)
    requires same ==> IsRing([p] + m + [q]) && IsRing(n)
    requires !same ==> IsRing(n + [q] + ([p] + m))
    ensures same ==> CutInto(r1, a, b, p, q) && a[0] == r1[i1] && b[0] == p && (a, b) == Pieces(r1, i1, i2, false, p, q)
    ensures !same ==> JoinedTo(r1, r2, a, p, q) && a == Chained(r1, i1, r2, i2, false, p, q)
  {
    hide IsRing, CutInto, JoinedTo, Rotate, Between, Distinct, Pieces;
    a, b := [], [];
    if same {
      PiecesSeen(r1, i1, i2, false, m, n, p, q);
      a, b := CutForward(r1, m + n, i1 + 1, m, n, p, q);
    } else {
      a := JoinForward(r1, r2, i1 + 1, i2, m, n, p, q);
    }
  }

  lemma CrossedBackward(same: bool, r1: seq<OutPt>, i1: nat, r2: seq<OutPt>, i2: nat, m: seq<OutPt>, n: seq<OutPt>, p: OutPt, q: OutPt)
    returns (a: seq<OutPt>, b: seq<OutPt>)
    requires i1 < |r1| && i2 < |r2| && Distinct(r1) && p !in r1 && q !in r1 && p != q && p.Pt == r1[i1].Pt && q.Pt == r2[i2].Pt
    requires n != [] && (!same ==> m != []) && n[|n| - 1] == r2[i2] && r1[i1] == if same then n[0] else m[0]
    requires if same then i1 != i2 && r1 == r2 && m + n == Rotate(r1, i2 + 1) && |m| == Between(|r1|, i2, i1)
             else m == Rotate(r1, i1) && n == Rotate(r2, i2 + 1)
    requires same ==> IsRing(n) && IsRing([q] + m + [p])
    requires !same ==> IsRing([q] + n + (m + [p]))
    ensures same ==> CutInto(r1, a, b, p, q) && a[0] == r1[i1] && b[0] == p && (a, b) == Pieces(r1, i1, i2, true, p, q)
    ensures !same ==> JoinedTo(r1, r2, a, p, q) && a == Chained(r1, i1, r2, i2, true, p, q)
  {
    hide IsRing, CutInto, JoinedTo, Rotate, Between, Distinct, Pieces;
    a, b := [], [];
    if same {
      PiecesSeen(r1, i1, i2, true, m, n, p, q);
      a, b := CutBackward(r1, m + n, i2 + 1, m, n, p, q);
    } else {
      a := JoinBackward(r1, r2, i1, i2 + 1, m, n, p, q);
    }
  }

  lemma RingDistinct(r: seq<OutPt>)
    requires IsRing(r)
    ensures Distinct(r)
  {
  }

  // ---------------------------------------------------------------- JoinPoints

  method MayCross(j: Join, same: bool, ghost r1: seq<OutPt>, ghost i1: nat, ghost r2: seq<OutPt>, ghost i2: nat)
    returns (ok: bool, reverse: bool)
    requires IsRing(r1) && IsRing(r2) && i1 < |r1| && i2 < |r2| && r1[i1] == j.OutPt1 && r2[i2] == j.OutPt2
    requires if same then r1 == r2 else Apart(r1, r2)
    ensures var d := JoinDecision(j, same, Places(r1), i1, Places(r2), i2); ok == d.0 && (ok ==> reverse == d.1)
  {
    var op1, op2 := j.OutPt1, j.OutPt2;
    if op1.Pt.Y == j.OffPt.Y {
      // a touch that must not remain in a strictly simple polygon
      if !same {
        return false, false;
      }
      var op1b := FirstElsewhere(op1, true, r1, i1);
      reverse := op1b.Pt.Y > j.OffPt.Y;
      var op2b := FirstElsewhere(op2, true, r2, i2);
      var reverse2 := op2b.Pt.Y > j.OffPt.Y;
      ok := reverse != reverse2;
    } else {
      var op1b, op2b, reverse2;
      ok, reverse, op1b := FindEdgeTo(op1, j.OffPt, r1, i1);
      if !ok {
        return;
      }
      ok, reverse2, op2b := FindEdgeTo(op2, j.OffPt, r2, i2);
      if !ok {
        return;
      }
      SamePoints(same, r1, i1, r2, i2, EdgeTo(Places(r1), i1, j.OffPt).place, EdgeTo(Places(r2), i2, j.OffPt).place);
      if op1b == op1 || op2b == op2 || op1b == op2b || (same && reverse == reverse2) {
        ok := false;
      }
    }
  }

  /** Comparing points of the rings is comparing their places. */
  lemma SamePoints(same: bool, r1: seq<OutPt>, i1: nat, r2: seq<OutPt>, i2: nat, p1: nat, p2: nat)
    requires IsRing(r1) && IsRing(r2) && i1 < |r1| && i2 < |r2| && p1 < |r1| && p2 < |r2|
    requires if same then r1 == r2 else Apart(r1, r2)
    ensures r1[p1] == r1[i1] <==> p1 == i1
    ensures r2[p2] == r2[i2] <==> p2 == i2
    ensures r1[p1] == r2[p2] <==> same && p1 == p2
  {
    DistinctAt(r1, p1);
    DistinctAt(r2, p2);
    if !same { ApartAt(r1, r2); }
  }

  /**
   Joins the polygons of two points that run along each other, or cuts their polygon in two
   when both are on the same one. Every point stays in exactly one ring, and the total area
   is what it was. When the polygons do not fit together nothing happens.
   */
  method JoinPoints(j: Join, same: bool, ghost r1: seq<OutPt>, ghost i1: nat, ghost r2: seq<OutPt>, ghost i2: nat)
    returns (ok: bool, op1b: OutPt, ghost op2b: OutPt, ghost a: seq<OutPt>, ghost b: seq<OutPt>)
    requires IsRing(r1) && IsRing(r2) && i1 < |r1| && i2 < |r2| && r1[i1] == j.OutPt1 && r2[i2] == j.OutPt2
    requires if same then r1 == r2 else Apart(r1, r2)
    requires Joinable(j)
    modifies r1`Next, r1`Prev, r2`Next, r2`Prev
    ensures ok == JoinDecision(j, same, Places(r1), i1, Places(r2), i2).0
    ensures ok <==> MayJoin(j, same, Places(r1), i1, Places(r2), i2, true) || MayJoin(j, same, Places(r1), i1, Places(r2), i2, false)
    ensures MayJoin(j, same, Places(r1), i1, Places(r2), i2, true) ==> j.OutPt2.Next == j.OutPt1 && op1b.Next == op2b
    ensures MayJoin(j, same, Places(r1), i1, Places(r2), i2, false) ==> j.OutPt1.Next == j.OutPt2 && op2b.Next == op1b
    ensures !ok ==> IsRing(r1) && IsRing(r2)
    ensures ok ==> if JoinDecision(j, same, Places(r1), i1, Places(r2), i2).1
                   then j.OutPt2.Next == j.OutPt1 && op1b.Next == op2b else j.OutPt1.Next == j.OutPt2 && op2b.Next == op1b
    ensures ok ==> fresh(op1b) && fresh(op2b) && Doubles(op1b, op2b, j.OutPt1, j.OutPt2)
    ensures ok && same ==> CutInto(r1, a, b, op1b, op2b) && a[0] == j.OutPt1 && b[0] == op1b
    ensures ok && same ==> (a, b) == Pieces(r1, i1, i2, JoinDecision(j, same, Places(r1), i1, Places(r2), i2).1, op1b, op2b)
    ensures ok && !same ==> JoinedTo(r1, r2, a, op1b, op2b)
    ensures ok && !same ==> a == Chained(r1, i1, r2, i2, JoinDecision(j, same, Places(r1), i1, Places(r2), i2).1, op1b, op2b)
  {
    hide IsRing, CutInto, JoinedTo, JoinDecision, MayJoin, Pieces, Chained, Apart;
    DecisionMeans(j, same, Places(r1), i1, Places(r2), i2);
    var reverse;
    op1b, op2b, a, b := j.OutPt1, j.OutPt2, [], [];
    ok, reverse := MayCross(j, same, r1, i1, r2, i2);
    if ok {
      op1b, op2b, a, b := CrossAt(j.OutPt1, j.OutPt2, reverse, same, r1, i1, r2, i2);
    }
  }
}
