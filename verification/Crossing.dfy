/**
 What happens to the winding counts, and to membership in the solution, when two
 neighbouring edges cross.

 `IsContributing` and `CrossCounts` are the clipper's own case analyses; `Decision` is the
 branch its `IntersectEdges` takes.  The lemmas compare all three with the winding numbers
 and the boolean operation of `Winding`.
 */
module Crossing {
  import opened ClipTypes
  import opened Winding

  /** The own winding count as the fill rule reads it: 1 when the edge separates filled from unfilled. */
  function FillCount(fill: PolyFillType, cnt: int): int {
    match fill
    case PftPositive => cnt
    case PftNegative => -cnt
    case _ => Abs(cnt)
  }

  /** Does an edge with these counts belong to the outline of the solution? */
  predicate IsContributing(r: Rules, e: EdgeView) {
    var pft := r.Fill(e.typ);
    var pft2 := r.Fill(e.typ.Other());
    && (match pft
        case PftEvenOdd => true
        case PftNonZero => Abs(e.cnt) == 1
        case PftPositive => e.cnt == 1
        case PftNegative => e.cnt == -1)
    && (match r.clip
        case CtIntersection => OtherFilled(pft2, e.cnt2)
        case CtUnion => OtherEmpty(pft2, e.cnt2)
        case CtDifference => if e.typ == PtSubject then OtherEmpty(pft2, e.cnt2) else OtherFilled(pft2, e.cnt2)
        case CtXor => true)
  }

  predicate OtherFilled(pft2: PolyFillType, cnt2: int) {
    match pft2
    case PftPositive => cnt2 > 0
    case PftNegative => cnt2 < 0
    case _ => cnt2 != 0
  }

  predicate OtherEmpty(pft2: PolyFillType, cnt2: int) {
    match pft2
    case PftPositive => cnt2 <= 0
    case PftNegative => cnt2 >= 0
    case _ => cnt2 == 0
  }

  /** With correct counts, `IsContributing` says exactly that the edge is on the outline of the solution. */
  lemma ContributingIsBoundary(s: seq<EdgeView>, r: Rules, i: nat)
    requires i < |s| && Closed(s) && CountsRightAt(s, r, i)
    ensures IsContributing(r, s[i]) <==> Boundary(s, r, i)
  {
    var e := s[i];
    assert e.delta == 1 || e.delta == -1;
    var w, w2 := WindingAt(s, i, e.typ), WindingAt(s, i, e.typ.Other());
    assert WindingAt(s, i + 1, e.typ) == w + e.delta;
    assert WindingAt(s, i + 1, e.typ.Other()) == w2;
    OwnFlip(r.Fill(e.typ), e, w);
    assert OtherFilled(r.Fill(e.typ.Other()), e.cnt2) == Inside(r.Fill(e.typ.Other()), w2);
  }

  /** The own count alone tells whether the edge separates filled from unfilled for its own type. */
  lemma OwnFlip(fill: PolyFillType, e: EdgeView, w: int)
    requires e.delta == 1 || e.delta == -1
    requires if fill == PftEvenOdd then e.cnt == 1 || e.cnt == -1 else e.cnt == Farther(w, w + e.delta)
    ensures FillCount(fill, e.cnt) == 1 <==> Inside(fill, w) != Inside(fill, w + e.delta)
    ensures FillCount(fill, e.cnt) != 0
  {
    FlipParity(w, e.delta);
  }

  // ---------------------------------------------------------------- crossing neighbours

  /** The cached counts of the two edges after `a`, on the left, has passed to the right of `b`. */
  function CrossCounts(r: Rules, a: EdgeView, b: EdgeView): (p: (EdgeView, EdgeView)) {
    if a.typ == b.typ then
      if r.Fill(a.typ) == PftEvenOdd then
        (a.(cnt := b.cnt), b.(cnt := a.cnt))
      else
        (a.(cnt := if a.cnt + b.delta == 0 then -a.cnt else a.cnt + b.delta),
         b.(cnt := if b.cnt - a.delta == 0 then -b.cnt else b.cnt - a.delta))
    else
      (a.(cnt2 := if r.Fill(b.typ) != PftEvenOdd then a.cnt2 + b.delta else if a.cnt2 == 0 then 1 else 0),
       b.(cnt2 := if r.Fill(a.typ) != PftEvenOdd then b.cnt2 - a.delta else if b.cnt2 == 0 then 1 else 0))
  }

  /** What the crossing does to the output polygons. */
  datatype Action = Nothing | LocalMax | LocalMin | PassBoth | PassFirst | PassSecond | SwapSidesOnly

  predicate ZeroOrOne(n: int) { n == 0 || n == 1 }

  /** The branch taken for edges whose counts have already been updated. */
  function Decision(r: Rules, a: EdgeView, b: EdgeView, aOut: bool, bOut: bool): Action {
    var aWc := FillCount(r.Fill(a.typ), a.cnt);
    var bWc := FillCount(r.Fill(b.typ), b.cnt);
    if aOut && bOut then
      if !ZeroOrOne(aWc) || !ZeroOrOne(bWc) || (a.typ != b.typ && r.clip != CtXor) then LocalMax else PassBoth
    else if aOut then
      if ZeroOrOne(bWc) then PassFirst else Nothing
    else if bOut then
      if ZeroOrOne(aWc) then PassSecond else Nothing
    else if ZeroOrOne(aWc) && ZeroOrOne(bWc) then
      var aWc2 := FillCount(r.Fill(a.typ.Other()), a.cnt2);
      var bWc2 := FillCount(r.Fill(b.typ.Other()), b.cnt2);
      if a.typ != b.typ then LocalMin
      else if aWc == 1 && bWc == 1 then
        match r.clip
        case CtIntersection => if aWc2 > 0 && bWc2 > 0 then LocalMin else Nothing
        case CtUnion => if aWc2 <= 0 && bWc2 <= 0 then LocalMin else Nothing
        case CtDifference =>
          if (a.typ == PtClip && aWc2 > 0 && bWc2 > 0) || (a.typ == PtSubject && aWc2 <= 0 && bWc2 <= 0)
          then LocalMin else Nothing
        case CtXor => LocalMin
      else SwapSidesOnly
    else Nothing
  }

  /** Which of the two edges carries an output index once the action is done. */
  function OutAfter(act: Action, aOut: bool, bOut: bool): (bool, bool) {
    match act
    case LocalMax => (false, false)
    case LocalMin => (true, true)
    case PassBoth => (bOut, aOut)
    case PassFirst => (bOut, aOut)
    case PassSecond => (bOut, aOut)
    case Nothing => (aOut, bOut)
    case SwapSidesOnly => (aOut, bOut)
  }

  /** The winding number of type `t` after crossing `e`. */
  function Step(e: EdgeView, t: PolyType, w: int): int {
    if e.typ == t then w + e.delta else w
  }

  predicate Unit(e: EdgeView) { e.delta == 1 || e.delta == -1 }

  /** `CountsFit` with the two winding numbers given per polygon type. */
  predicate Fits(r: Rules, e: EdgeView, ws: int, wc: int) {
    if e.typ == PtSubject then CountsFit(r, e, ws, wc) else CountsFit(r, e, wc, ws)
  }

  /** Shifting both candidates by one keeps the farther one, except that it jumps across zero. */
  lemma FartherShift(w: int, d: int, m: int)
    requires (d == 1 || d == -1) && (m == 1 || m == -1)
    ensures var c := Farther(w, w + d);
      Farther(w + m, w + m + d) == if c + m == 0 then -c else c + m
  {
  }

  lemma CrossSameType(r: Rules, a: EdgeView, b: EdgeView, w: int, w2: int)
    requires Unit(a) && Unit(b) && a.typ == b.typ
    requires CountsFit(r, a, w, w2) && CountsFit(r, b, w + a.delta, w2)
    ensures var (a', b') := CrossCounts(r, a, b);
      CountsFit(r, b', w, w2) && CountsFit(r, a', w + b.delta, w2)
  {
    FartherShift(w, a.delta, b.delta);
    FartherShift(w + a.delta, b.delta, -a.delta);
  }

  lemma CrossOtherType(r: Rules, a: EdgeView, b: EdgeView, w: int, w2: int)
    requires Unit(a) && Unit(b) && a.typ != b.typ
    requires CountsFit(r, a, w, w2) && CountsFit(r, b, w2, w + a.delta)
    ensures var (a', b') := CrossCounts(r, a, b);
      CountsFit(r, b', w2, w) && CountsFit(r, a', w, w2 + b.delta)
  {
    FlipParity(w2, b.delta);
    FlipParity(w, a.delta);
  }

  /** The updated counts fit the exchanged order. */
  lemma CrossCountsFit(r: Rules, a: EdgeView, b: EdgeView, ws: int, wc: int)
    requires Unit(a) && Unit(b)
    requires Fits(r, a, ws, wc)
    requires Fits(r, b, Step(a, PtSubject, ws), Step(a, PtClip, wc))
    ensures var (a', b') := CrossCounts(r, a, b);
      && Fits(r, b', ws, wc)
      && Fits(r, a', Step(b, PtSubject, ws), Step(b, PtClip, wc))
  {
    var w, w2 := if a.typ == PtSubject then ws else wc, if a.typ == PtSubject then wc else ws;
    if a.typ == b.typ {
      CrossSameType(r, a, b, w, w2);
    } else {
      CrossOtherType(r, a, b, w, w2);
    }
  }

  predicate MemberAfter(r: Rules, e: EdgeView, ws: int, wc: int) {
    Member(r, Step(e, PtSubject, ws), Step(e, PtClip, wc))
  }

  /** After the exchange each edge carries an output index exactly when it is on the outline. */
  lemma DecisionKeepsOutline(r: Rules, a: EdgeView, b: EdgeView, ws: int, wc: int)
    requires Unit(a) && Unit(b)
    requires Fits(r, a, ws, wc)
    requires Fits(r, b, Step(a, PtSubject, ws), Step(a, PtClip, wc))
    ensures
      var m0, m1 := Member(r, ws, wc), MemberAfter(r, a, ws, wc);
      var m2 := MemberAfter(r, b, Step(a, PtSubject, ws), Step(a, PtClip, wc));
      var m1' := MemberAfter(r, b, ws, wc);
      var (a', b') := CrossCounts(r, a, b);
      var act := Decision(r, a', b', m0 != m1, m1 != m2);
      && OutAfter(act, m0 != m1, m1 != m2) == (m1' != m2, m0 != m1')
      && (act == LocalMin ==> m0 == m1 == m2)
      && act != SwapSidesOnly
  {
    CrossCountsFit(r, a, b, ws, wc);
    var (a', b') := CrossCounts(r, a, b);
    if a.typ == PtSubject {
      if b.typ == PtSubject { SameType(r, a, b, a', b', ws, wc); } else { OtherType(r, a, b, a', b', ws, wc); }
    } else {
      if b.typ == PtClip { SameType(r, a, b, a', b', wc, ws); } else { OtherType(r, a, b, a', b', wc, ws); }
    }
  }

  function Mem(r: Rules, t: PolyType, own: int, other: int): bool {
    if t == PtSubject then Member(r, own, other) else Member(r, other, own)
  }

  /** The branch analysis for two edges of one type: `w` is their own winding number, `w2` the other one. */
  lemma SameType(r: Rules, a: EdgeView, b: EdgeView, a': EdgeView, b': EdgeView, w: int, w2: int)
    requires Unit(a) && Unit(b) && a.typ == b.typ
    requires CountsFit(r, a, w, w2) && CountsFit(r, b, w + a.delta, w2)
    requires (a', b') == CrossCounts(r, a, b)
    requires CountsFit(r, b', w, w2) && CountsFit(r, a', w + b.delta, w2)
    ensures
      var m0, m1, m2 := Mem(r, a.typ, w, w2), Mem(r, a.typ, w + a.delta, w2), Mem(r, a.typ, w + a.delta + b.delta, w2);
      var m1' := Mem(r, a.typ, w + b.delta, w2);
      var act := Decision(r, a', b', m0 != m1, m1 != m2);
      && OutAfter(act, m0 != m1, m1 != m2) == (m1' != m2, m0 != m1')
      && (act == LocalMin ==> m0 == m1 == m2)
      && act != SwapSidesOnly
  {
    var fill := r.Fill(a.typ);
    OwnFlip(fill, a', w + b.delta);
    OwnFlip(fill, b', w);
    FlipParity(w, a.delta); FlipParity(w, b.delta); FlipParity(w + a.delta, b.delta);
    var fill2 := r.Fill(a.typ.Other());
    assert FillCount(fill2, a'.cnt2) > 0 <==> Inside(fill2, w2);
  }

  /** The branch analysis for edges of different types: `w` is the winding number of the type of `a`. */
  lemma OtherType(r: Rules, a: EdgeView, b: EdgeView, a': EdgeView, b': EdgeView, w: int, w2: int)
    requires Unit(a) && Unit(b) && a.typ != b.typ
    requires CountsFit(r, a, w, w2) && CountsFit(r, b, w2, w + a.delta)
    requires (a', b') == CrossCounts(r, a, b)
    ensures
      var m0, m1, m2 := Mem(r, a.typ, w, w2), Mem(r, a.typ, w + a.delta, w2), Mem(r, a.typ, w + a.delta, w2 + b.delta);
      var m1' := Mem(r, a.typ, w, w2 + b.delta);
      var act := Decision(r, a', b', m0 != m1, m1 != m2);
      && OutAfter(act, m0 != m1, m1 != m2) == (m1' != m2, m0 != m1')
      && (act == LocalMin ==> m0 == m1 == m2)
      && act != SwapSidesOnly
  {
    OwnFlip(r.Fill(a.typ), a, w);
    OwnFlip(r.Fill(b.typ), b, w2);
  }

  /** Away from the exchanged pair every edge keeps its counts, and its place on or off the outline. */
  predicate SameCaches(s: seq<EdgeView>, s': seq<EdgeView>, k: nat)
    requires |s| == |s'|
  {
    forall j :: 0 <= j < |s| && j != k && j != k + 1 ==>
      s'[j].cnt == s[j].cnt && s'[j].cnt2 == s[j].cnt2 && (s'[j].outIdx >= 0 <==> s[j].outIdx >= 0)
  }

  /** `s'` shows the neighbours `k` and `k + 1` of `s` after their crossing; the other edges keep what they cache. */
  predicate Crossed(s: seq<EdgeView>, s': seq<EdgeView>, r: Rules, k: nat) {
    && Exchanged(s, s', k)
    && SameCaches(s, s', k)
    && var a, b := s[k], s[k + 1];
       var (a', b') := CrossCounts(r, a, b);
       && s'[k].cnt == b'.cnt && s'[k].cnt2 == b'.cnt2
       && s'[k + 1].cnt == a'.cnt && s'[k + 1].cnt2 == a'.cnt2
       && (s'[k + 1].outIdx >= 0, s'[k].outIdx >= 0)
          == OutAfter(Decision(r, a', b', a.outIdx >= 0, b.outIdx >= 0), a.outIdx >= 0, b.outIdx >= 0)
  }

  /** What is asked of an edge in its place, with the two winding numbers on its left. */
  lemma SeenAt(s: seq<EdgeView>, r: Rules, k: nat)
    requires k < |s|
    ensures var ws, wc := WindingAt(s, k, PtSubject), WindingAt(s, k, PtClip);
      && (CountsRightAt(s, r, k) <==> Fits(r, s[k], ws, wc))
      && (Boundary(s, r, k) <==> Member(r, ws, wc) != MemberAfter(r, s[k], ws, wc))
  {
    hide Member, CountsFit, WindingAt;
    NextWinding(s, k, PtSubject);
    NextWinding(s, k, PtClip);
  }

  lemma NextWinding(s: seq<EdgeView>, k: nat, t: PolyType)
    requires k < |s|
    ensures WindingAt(s, k + 1, t) == Step(s[k], t, WindingAt(s, k, t))
  {
  }

  lemma FitsSame(r: Rules, e: EdgeView, e': EdgeView, ws: int, wc: int)
    requires e'.typ == e.typ && e'.delta == e.delta && e'.cnt == e.cnt && e'.cnt2 == e.cnt2
    ensures Fits(r, e', ws, wc) <==> Fits(r, e, ws, wc)
  {
  }

  lemma CrossKeeps(r: Rules, a: EdgeView, b: EdgeView)
    ensures var (a', b') := CrossCounts(r, a, b); a'.typ == a.typ && a'.delta == a.delta && b'.typ == b.typ && b'.delta == b.delta
  {
  }

  /** The two crossing edges end up right. */
  lemma CrossedPairRight(s: seq<EdgeView>, s': seq<EdgeView>, r: Rules, k: nat)
    requires Right(s, r) && Crossed(s, s', r, k)
    ensures CountsRightAt(s', r, k) && (s'[k].outIdx >= 0 <==> Boundary(s', r, k))
    ensures CountsRightAt(s', r, k + 1) && (s'[k + 1].outIdx >= 0 <==> Boundary(s', r, k + 1))
  {
    hide CrossCounts, Decision, OutAfter, Fits, Member, CountsRightAt, Boundary, WindingAt;
    var a, b := s[k], s[k + 1];
    var (a', b') := CrossCounts(r, a, b);
    var ws, wc := WindingAt(s, k, PtSubject), WindingAt(s, k, PtClip);
    CrossKeeps(r, a, b);
    SeenAt(s, r, k); SeenAt(s, r, k + 1);
    SeenAt(s', r, k); SeenAt(s', r, k + 1);
    PairWindings(s, k, PtSubject); PairWindings(s, k, PtClip);
    PairWindings(s', k, PtSubject); PairWindings(s', k, PtClip);
    WindingExchanged(s, s', k, k, PtSubject); WindingExchanged(s, s', k, k, PtClip);
    CrossCountsFit(r, a, b, ws, wc);
    FitsSame(r, b', s'[k], ws, wc);
    FitsSame(r, a', s'[k + 1], Step(b, PtSubject, ws), Step(b, PtClip, wc));
    DecisionKeepsOutline(r, a, b, ws, wc);
    assert a.outIdx >= 0 <==> Boundary(s, r, k);
    assert b.outIdx >= 0 <==> Boundary(s, r, k + 1);
  }

  lemma PairWindings(s: seq<EdgeView>, k: nat, t: PolyType)
    requires k + 1 < |s|
    ensures WindingAt(s, k + 1, t) == Step(s[k], t, WindingAt(s, k, t))
    ensures WindingAt(s, k + 2, t) == Step(s[k + 1], t, Step(s[k], t, WindingAt(s, k, t)))
  {
    assert WindingAt(s, k + 2, t) == WindingAt(s, k + 1, t) + if s[k + 1].typ == t then s[k + 1].delta else 0;
  }

  /** An edge away from the exchange is as right as it was. */
  lemma AwayKeepsRight(s: seq<EdgeView>, s': seq<EdgeView>, r: Rules, k: nat, j: nat)
    requires Exchanged(s, s', k) && j < |s| && j != k && j != k + 1
    requires s'[j].cnt == s[j].cnt && s'[j].cnt2 == s[j].cnt2
    requires CountsRightAt(s, r, j)
    ensures CountsRightAt(s', r, j) && (Boundary(s', r, j) <==> Boundary(s, r, j))
  {
    WindingExchanged(s, s', k, j, PtSubject); WindingExchanged(s, s', k, j, PtClip);
    WindingExchanged(s, s', k, j + 1, PtSubject); WindingExchanged(s, s', k, j + 1, PtClip);
  }

  /** Once the exchanged pair is right, the whole list is. */
  lemma ExchangeKeepsRight(s: seq<EdgeView>, s': seq<EdgeView>, r: Rules, k: nat)
    requires Right(s, r) && Exchanged(s, s', k) && SameCaches(s, s', k)
    requires CountsRightAt(s', r, k) && (s'[k].outIdx >= 0 <==> Boundary(s', r, k))
    requires CountsRightAt(s', r, k + 1) && (s'[k + 1].outIdx >= 0 <==> Boundary(s', r, k + 1))
    ensures Right(s', r)
  {
    hide CountsRightAt, Boundary;
    forall j | 0 <= j < |s|
      ensures CountsRightAt(s', r, j)
      ensures s'[j].outIdx >= 0 <==> Boundary(s', r, j)
    {
      if j != k && j != k + 1 {
        AwayKeepsRight(s, s', r, k, j);
      }
    }
  }

  /** A crossing of neighbours leaves every cached count and every output index right. */
  lemma CrossedKeepsRight(s: seq<EdgeView>, s': seq<EdgeView>, r: Rules, k: nat)
    requires Right(s, r) && Crossed(s, s', r, k)
    ensures Right(s', r)
  {
    hide CrossCounts, Decision, CountsRightAt, Boundary;
    CrossedPairRight(s, s', r, k);
    ExchangeKeepsRight(s, s', r, k);
  }
}
