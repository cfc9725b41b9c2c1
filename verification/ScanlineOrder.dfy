/**
 The order of the active edges from left to right, told by where the edges are and not by the
 test that inserts them.

 Edges that meet the scanline in different places stand in the order of these; edges that
 meet it in one place stand in the order in which they are higher up, where the first of the
 two ends.
 */
module ScanlineOrder {
  import opened ClipTypes
  import opened Sequences
  import opened Edges

  /** Where the first of two edges ends on the way up. */
  function LowerTop(a: TEdge, b: TEdge): int {
    if a.Top.Y > b.Top.Y then a.Top.Y else b.Top.Y
  }

  /** `a` stands to the left of `b`. */
  predicate StandsBefore(topX: ScanlineX, a: TEdge, b: TEdge)
    reads a`Curr, b`Curr
  {
    a.Curr.X < b.Curr.X || (a.Curr.X == b.Curr.X && topX(a, LowerTop(a, b)) < topX(b, LowerTop(a, b)))
  }

  /** `topX` meets the upper ends, and edges that start out from one place do not change sides on the way up. */
  ghost predicate LinesFrom(topX: ScanlineX, es: set<TEdge>, botY: int)
    reads es`Curr
  {
    && (forall e :: e in es ==> e.Top.Y < botY && topX(e, e.Top.Y) == e.Top.X)
    && (forall a, b :: a in es && b in es && a.Curr.X == b.Curr.X ==> KeepSides(topX, a, b, botY))
  }

  predicate Left(topX: ScanlineX, a: TEdge, b: TEdge, y: int) {
    topX(a, y) < topX(b, y)
  }

  ghost predicate KeepSides(topX: ScanlineX, a: TEdge, b: TEdge, botY: int) {
    forall y, z :: LowerTop(a, b) <= y < botY && LowerTop(a, b) <= z < botY && Left(topX, a, b, y) ==> Left(topX, a, b, z)
  }

  /** No edge stands to the left of one before it. */
  ghost predicate Ascends(topX: ScanlineX, s: seq<TEdge>)
    reads s`Curr
  {
    forall i, j :: 0 <= i < j < |s| ==> !StandsBefore(topX, s[j], s[i])
  }

  function Among(s: seq<TEdge>): set<TEdge> {
    set e | e in s
  }

  /** The test for insertion asks whether the new edge stands to the left. */
  lemma InsertsBeforeMeans(topX: ScanlineX, e1: TEdge, e2: TEdge)
    requires topX(e1, e1.Top.Y) == e1.Top.X && topX(e2, e2.Top.Y) == e2.Top.X
    ensures E2InsertsBeforeE1(topX, e1, e2) <==> StandsBefore(topX, e2, e1)
  {
  }

  /** Standing to the left is decided at any height that all edges reach. */
  lemma DecidedAt(topX: ScanlineX, es: set<TEdge>, botY: int, a: TEdge, b: TEdge, y: int)
    requires LinesFrom(topX, es, botY) && a in es && b in es && LowerTop(a, b) <= y < botY
    ensures StandsBefore(topX, a, b) <==> a.Curr.X < b.Curr.X || (a.Curr.X == b.Curr.X && topX(a, y) < topX(b, y))
  {
    if a.Curr.X == b.Curr.X {
      assert KeepSides(topX, a, b, botY);
      assert Left(topX, a, b, y) <==> Left(topX, a, b, LowerTop(a, b));
    }
  }

  lemma NotBeforeTransitive(topX: ScanlineX, es: set<TEdge>, botY: int, a: TEdge, b: TEdge, c: TEdge)
    requires LinesFrom(topX, es, botY) && a in es && b in es && c in es
    requires !StandsBefore(topX, b, a) && !StandsBefore(topX, c, b)
    ensures !StandsBefore(topX, c, a)
  {
    var y := if LowerTop(a, b) > c.Top.Y then LowerTop(a, b) else c.Top.Y;
    DecidedAt(topX, es, botY, b, a, y);
    DecidedAt(topX, es, botY, c, b, y);
    DecidedAt(topX, es, botY, c, a, y);
    hide LinesFrom, StandsBefore;
  }

  /** An edge put before the first one that it stands to the left of keeps the order. */
  lemma InsertAscends(topX: ScanlineX, es: set<TEdge>, botY: int, s: seq<TEdge>, k: nat, e: TEdge)
    requires LinesFrom(topX, es, botY) && e in es && (forall i :: 0 <= i < |s| ==> s[i] in es)
    requires k <= |s| && Ascends(topX, s) && (k < |s| ==> StandsBefore(topX, e, s[k]))
    requires forall i :: 0 <= i < k ==> !StandsBefore(topX, e, s[i])
    ensures Ascends(topX, InsertAt(s, k, e))
  {
    var t := InsertAt(s, k, e);
    forall i, j | 0 <= i < j < |t| ensures !StandsBefore(topX, t[j], t[i]) {
      if i == k {
        assert !StandsBefore(topX, s[k], e);
        if j > k + 1 {
          NotBeforeTransitive(topX, es, botY, e, s[k], s[j - 1]);
        }
      }
    }
  }

  /** The list still ascends once `edge` is in it, if it has been looked for from `start` on and does not stand to the left of that. */
  ghost predicate AscendsWith(topX: ScanlineX, s: seq<TEdge>, t: seq<TEdge>, start: TEdge?, edge: TEdge)
    reads s`Curr, t`Curr, edge`Curr, (if start == null then {} else {start})`Curr
  {
    forall botY :: LinesFrom(topX, Among(s) + {edge}, botY) && Ascends(topX, s) && (start != null ==> !StandsBefore(topX, edge, start))
      ==> Ascends(topX, t)
  }

  lemma PlaceAscends(topX: ScanlineX, s: seq<TEdge>, k: nat, start: TEdge?, from: nat, edge: TEdge)
    requires k <= |s| && (if start == null then from == 0 else 0 < from <= k && s[from - 1] == start)
    requires k < |s| ==> E2InsertsBeforeE1(topX, s[k], edge)
    requires forall x :: from <= x < k ==> !E2InsertsBeforeE1(topX, s[x], edge)
    ensures AscendsWith(topX, s, InsertAt(s, k, edge), start, edge)
  {
    hide LinesFrom, Ascends, E2InsertsBeforeE1, StandsBefore, InsertAt;
    forall botY | LinesFrom(topX, Among(s) + {edge}, botY) && Ascends(topX, s) && (start != null ==> !StandsBefore(topX, edge, start))
      ensures Ascends(topX, InsertAt(s, k, edge))
    {
      PlaceAscendsFrom(topX, s, k, start, from, edge, botY);
    }
  }

  lemma PlaceAscendsFrom(topX: ScanlineX, s: seq<TEdge>, k: nat, start: TEdge?, from: nat, edge: TEdge, botY: int)
    requires k <= |s| && (if start == null then from == 0 else 0 < from <= k && s[from - 1] == start)
    requires k < |s| ==> E2InsertsBeforeE1(topX, s[k], edge)
    requires forall x :: from <= x < k ==> !E2InsertsBeforeE1(topX, s[x], edge)
    requires LinesFrom(topX, Among(s) + {edge}, botY) && Ascends(topX, s) && (start != null ==> !StandsBefore(topX, edge, start))
    ensures Ascends(topX, InsertAt(s, k, edge))
  {
    hide LinesFrom, Ascends, E2InsertsBeforeE1, StandsBefore, InsertAt;
    var es := Among(s) + {edge};
    if k < |s| {
      InsertsBeforeIn(topX, es, botY, s[k], edge);
    }
    forall i | 0 <= i < k ensures !StandsBefore(topX, edge, s[i]) {
      if i >= from {
        InsertsBeforeIn(topX, es, botY, s[i], edge);
      } else if i < from - 1 {
        AscendsAt(topX, s, i, from - 1);
        NotBeforeTransitive(topX, es, botY, s[i], start, edge);
      }
    }
    InsertAscends(topX, es, botY, s, k, edge);
  }

  lemma AscendsAt(topX: ScanlineX, s: seq<TEdge>, i: nat, j: nat)
    requires Ascends(topX, s) && i < j < |s|
    ensures !StandsBefore(topX, s[j], s[i])
  {
  }

  lemma InsertsBeforeIn(topX: ScanlineX, es: set<TEdge>, botY: int, e1: TEdge, e2: TEdge)
    requires LinesFrom(topX, es, botY) && e1 in es && e2 in es
    ensures E2InsertsBeforeE1(topX, e1, e2) <==> StandsBefore(topX, e2, e1)
  {
    InsertsBeforeMeans(topX, e1, e2);
  }

  // ---------------------------------------------------------------- a pair of bounds

  /** The list still ascends once both bounds of a minimum are in it. */
  ghost predicate AscendsWithPair(topX: ScanlineX, s: seq<TEdge>, t: seq<TEdge>, lb: TEdge, rb: TEdge)
    reads s`Curr, t`Curr, lb`Curr, rb`Curr
  {
    forall botY :: LinesFrom(topX, Among(s) + {lb, rb}, botY) && Ascends(topX, s) && !StandsBefore(topX, rb, lb) ==> Ascends(topX, t)
  }

  lemma FewerLines(topX: ScanlineX, es: set<TEdge>, fs: set<TEdge>, botY: int)
    requires LinesFrom(topX, es, botY) && fs <= es
    ensures LinesFrom(topX, fs, botY)
  {
  }

  lemma PairAscends(topX: ScanlineX, s: seq<TEdge>, mid: seq<TEdge>, t: seq<TEdge>, lb: TEdge, rb: TEdge)
    requires AscendsWith(topX, s, mid, null, lb) && AscendsWith(topX, mid, t, lb, rb) && forall x :: x in mid <==> x in s || x == lb
    ensures AscendsWithPair(topX, s, t, lb, rb)
  {
    hide LinesFrom, Ascends, StandsBefore;
    assert Among(mid) + {rb} == Among(s) + {lb, rb};
    forall botY | LinesFrom(topX, Among(s) + {lb, rb}, botY) && Ascends(topX, s) && !StandsBefore(topX, rb, lb) ensures Ascends(topX, t) {
      FewerLines(topX, Among(s) + {lb, rb}, Among(s) + {lb}, botY);
    }
  }

  /** The X of the edge at this height is exactly that of its line. */
  predicate OnLine(topX: ScanlineX, e: TEdge, y: int) {
    (topX(e, y) - e.Bot.X) * (e.Bot.Y - e.Top.Y) == (e.Top.X - e.Bot.X) * (e.Bot.Y - y)
  }

  /** On exact lines the left bound of a minimum does not stand to the right of the other. */
  lemma LeftBoundFirst(topX: ScanlineX, lb: TEdge, rb: TEdge)
    requires lb.Bot == rb.Bot && lb.Curr == lb.Bot && rb.Curr == rb.Bot && lb.Top.Y < lb.Bot.Y && rb.Top.Y < rb.Bot.Y
    requires LeftAbove(lb.Bot, lb.Top, rb.Bot, rb.Top) && OnLine(topX, lb, LowerTop(lb, rb)) && OnLine(topX, rb, LowerTop(lb, rb))
    ensures !StandsBefore(topX, rb, lb)
  {
    var y := LowerTop(lb, rb);
    Compared(topX(lb, y) - lb.Bot.X, topX(rb, y) - rb.Bot.X, lb.Top.X - lb.Bot.X, rb.Top.X - rb.Bot.X,
          lb.Bot.Y - lb.Top.Y, rb.Bot.Y - rb.Top.Y, lb.Bot.Y - y);
  }

  lemma Compared(p: int, q: int, d: int, e: int, h: int, k: int, m: int)
    requires h > 0 && k > 0 && m > 0 && p * h == d * m && q * k == e * m && d * k <= e * h
    ensures p <= q
  {
    assert p * h * k == d * k * m && q * k * h == e * h * m;
    assert d * k * m <= e * h * m;
  }
}
