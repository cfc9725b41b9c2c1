/**
 Two kinds of links between output records, as index sequences.

 `Merges`: a record that has been merged forwards to the one that took it over; following
 the forwards must end at the surviving record.  `Lefts`: each record may name one to its
 left (a possible owner); following those links must never run in a circle.
 */
module Forests {

  // ---------------------------------------------------------------- merged records

  /** `parent[i]` is the record `i` forwards to, itself while it lives; `died` orders the mergers in time. */
  datatype Merges = Merges(parent: seq<nat>, died: seq<nat>, clock: nat) {

    ghost predicate Ok() {
      && |died| == |parent|
      && forall i :: 0 <= i < |parent| ==>
        parent[i] < |parent| && (parent[i] != i ==> died[i] < clock && died[i] < Until(parent[i]))
    }

    ghost function Until(i: nat): nat
      requires |died| == |parent| && i < |parent|
    {
      if parent[i] == i then clock else died[i]
    }

    /** The living record that record `i` has ended up in. */
    ghost function Root(i: nat): (r: nat)
      requires Ok() && i < |parent|
      ensures r < |parent| && parent[r] == r
      decreases clock - Until(i)
    {
      if parent[i] == i then i else Root(parent[i])
    }

    ghost function Add(): Merges {
      Merges(parent + [|parent|], died + [0], clock)
    }

    /** The living record `r2` is taken over by the living record `r1`. */
    ghost function Link(r1: nat, r2: nat): Merges
      requires |died| == |parent| && r1 < |parent| && r2 < |parent|
    {
      Merges(parent[r2 := r1], died[r2 := clock], clock + 1)
    }

    lemma {:induction false} AddKeeps(i: nat)
      requires Ok() && i <= |parent|
      ensures Add().Ok() && Add().Root(i) == if i < |parent| then Root(i) else i
      decreases if i < |parent| then clock - Until(i) else 0
    {
      var m := Add();
      assert m.Ok() by {
        assert forall j :: 0 <= j < |parent| ==> m.parent[j] == parent[j] && m.Until(j) == Until(j);
      }
      if i < |parent| && parent[i] != i {
        AddKeeps(parent[i]);
      }
    }

    lemma LinkOk(r1: nat, r2: nat)
      requires Ok() && r1 < |parent| && r2 < |parent| && r1 != r2 && parent[r1] == r1 && parent[r2] == r2
      ensures Link(r1, r2).Ok()
    {
      var m := Link(r1, r2);
      forall i | 0 <= i < |parent| && m.parent[i] != i ensures m.died[i] < m.Until(m.parent[i]) {
        assert i == r2 || parent[i] != i;
      }
    }

    /** Exactly the records that had ended up in `r2` now end up in `r1`. */
    lemma {:induction false} LinkRoot(r1: nat, r2: nat, i: nat)
      requires Ok() && r1 < |parent| && r2 < |parent| && r1 != r2 && parent[r1] == r1 && parent[r2] == r2
      requires i < |parent|
      ensures Link(r1, r2).Ok()
      ensures Link(r1, r2).Root(i) == if Root(i) == r2 then r1 else Root(i)
      decreases clock - Until(i)
    {
      LinkOk(r1, r2);
      if i == r2 {
        assert Link(r1, r2).Root(r2) == Link(r1, r2).Root(r1);
      } else if parent[i] != i {
        LinkRoot(r1, r2, parent[i]);
      }
    }
  }

  // ---------------------------------------------------------------- links to the left

  /** `s[i]` is the record to the left of `i`, or -1. */
  ghost predicate InRange(s: seq<int>) {
    forall i :: 0 <= i < |s| ==> -1 <= s[i] < |s|
  }

  /** From `i` the links run out after at most `n` steps. */
  ghost predicate Ends(s: seq<int>, i: int, n: nat)
    requires InRange(s) && -1 <= i < |s|
    decreases n
  {
    i == -1 || (n > 0 && Ends(s, s[i], n - 1))
  }

  ghost predicate EndsSomewhere(s: seq<int>, i: int)
    requires InRange(s) && -1 <= i < |s|
  {
    exists n: nat :: Ends(s, i, n)
  }

  /** No chain of links runs in a circle. */
  ghost predicate Acyclic(s: seq<int>) {
    InRange(s) && forall i :: 0 <= i < |s| ==> EndsSomewhere(s, i)
  }

  /** `k` is met on the way from `i`, `i` itself included, within `n` steps. */
  ghost predicate Meets(s: seq<int>, i: int, k: int, n: nat)
    requires InRange(s) && -1 <= i < |s|
    decreases n
  {
    i != -1 && (i == k || (n > 0 && Meets(s, s[i], k, n - 1)))
  }

  /** `k` is `i` or one of those to its left. */
  ghost predicate OnChain(s: seq<int>, i: int, k: int)
    requires InRange(s) && -1 <= i < |s|
  {
    exists n: nat :: Meets(s, i, k, n)
  }

  /** The chain of `i` is `i` and the chain of its link. */
  lemma OnChainStep(s: seq<int>, i: nat, k: int)
    requires InRange(s) && i < |s|
    ensures OnChain(s, i, k) <==> i == k || OnChain(s, s[i], k)
  {
    if OnChain(s, i, k) && i != k {
      var n: nat :| Meets(s, i, k, n);
      assert Meets(s, s[i], k, n - 1);
    }
    if i == k {
      assert Meets(s, i, k, 0);
    }
    if OnChain(s, s[i], k) {
      var n: nat :| Meets(s, s[i], k, n);
      assert Meets(s, i, k, n + 1);
    }
  }

  lemma {:induction false} EndsLonger(s: seq<int>, i: int, n: nat, m: nat)
    requires InRange(s) && -1 <= i < |s| && Ends(s, i, n) && n <= m
    ensures Ends(s, i, m)
    decreases n
  {
    if i != -1 {
      EndsLonger(s, s[i], n - 1, m - 1);
    }
  }

  /** A chain that does not meet `j` is not affected by a new link out of `j`. */
  lemma {:induction false} EndsAround(s: seq<int>, j: nat, k: int, i: int, n: nat)
    requires InRange(s) && j < |s| && -1 <= k < |s| && -1 <= i < |s|
    requires Ends(s, i, n) && !OnChain(s, i, j)
    ensures InRange(s[j := k]) && Ends(s[j := k], i, n)
    decreases n
  {
    if i != -1 {
      OnChainStep(s, i, j);
      EndsAround(s, j, k, s[i], n - 1);
    }
  }

  /** A chain that meets `j` goes on with the new link out of `j`. */
  lemma {:induction false} EndsThrough(s: seq<int>, j: nat, k: int, i: int, n: nat, m: nat)
    requires InRange(s) && j < |s| && -1 <= k < |s| && -1 <= i < |s|
    requires Ends(s, i, n) && InRange(s[j := k]) && Ends(s[j := k], k, m)
    ensures Ends(s[j := k], i, n + m + 1)
    decreases n
  {
    var t := s[j := k];
    if i == j {
      EndsLonger(t, k, m, n + m);
    } else if i != -1 {
      EndsThrough(s, j, k, s[i], n - 1, m);
    }
  }

  /** Linking `j` to `k` keeps every chain finite exactly when `j` is not on the chain of `k`. */
  lemma RelinkAcyclic(s: seq<int>, j: nat, k: int)
    requires Acyclic(s) && j < |s| && -1 <= k < |s|
    ensures Acyclic(s[j := k]) <==> !OnChain(s, k, j)
  {
    var t := s[j := k];
    if !OnChain(s, k, j) {
      var m: nat := 0;
      if k != -1 {
        assert EndsSomewhere(s, k);
        m :| Ends(s, k, m);
      }
      EndsAround(s, j, k, k, m);
      forall i | 0 <= i < |t| ensures EndsSomewhere(t, i) {
        assert EndsSomewhere(s, i);
        var n: nat :| Ends(s, i, n);
        EndsThrough(s, j, k, i, n, m);
      }
    } else if Acyclic(t) {
      var a: nat :| Meets(s, k, j, a);
      assert EndsSomewhere(t, j);
      var n: nat :| Ends(t, j, n);
      Circle(s, j, k, j, a, n);
    }
  }

  /** Once `j` is linked to `k`, a chain from `k` back to `j` does not end. */
  lemma {:induction false} Circle(s: seq<int>, j: nat, k: int, i: int, a: nat, n: nat)
    requires InRange(s) && j < |s| && -1 <= k < |s| && -1 <= i < |s|
    requires Meets(s, i, j, a) && InRange(s[j := k]) && Meets(s, k, j, a)
    ensures !Ends(s[j := k], i, n)
    decreases n
  {
    var t := s[j := k];
    if n > 0 && Ends(t, i, n) {
      if i == j {
        Circle(s, j, k, k, a, n - 1);
      } else {
        MeetsLonger(s, s[i], j, a - 1, a);
        Circle(s, j, k, s[i], a, n - 1);
      }
    }
  }

  lemma {:induction false} MeetsLonger(s: seq<int>, i: int, k: int, n: nat, m: nat)
    requires InRange(s) && -1 <= i < |s| && Meets(s, i, k, n) && n <= m
    ensures Meets(s, i, k, m)
    decreases n
  {
    if i != k {
      MeetsLonger(s, s[i], k, n - 1, m - 1);
    }
  }

  /** No record is to the left of itself. */
  lemma NotLeftOfItself(s: seq<int>, j: nat)
    requires Acyclic(s) && j < |s|
    ensures !OnChain(s, s[j], j)
  {
    assert s[j := s[j]] == s;
    RelinkAcyclic(s, j, s[j]);
  }

  lemma {:induction false} MeetsOn(s: seq<int>, i: int, j: nat, k: int, n: nat, m: nat)
    requires InRange(s) && j < |s| && -1 <= i < |s|
    requires Meets(s, i, j, n) && Meets(s, s[j], k, m)
    ensures Meets(s, i, k, n + m + 1)
    decreases n
  {
    if i != j {
      MeetsOn(s, s[i], j, k, n - 1, m);
    } else {
      MeetsLonger(s, s[j], k, m, n + m);
    }
  }

  /** Two records are not each to the left of the other. */
  lemma NotBothLeft(s: seq<int>, r1: nat, r2: nat)
    requires Acyclic(s) && r1 < |s| && r2 < |s|
    ensures !(OnChain(s, s[r1], r2) && OnChain(s, s[r2], r1))
  {
    if OnChain(s, s[r1], r2) && OnChain(s, s[r2], r1) {
      var n: nat :| Meets(s, s[r1], r2, n);
      var m: nat :| Meets(s, s[r2], r1, m);
      MeetsOn(s, s[r1], r2, r1, n, m);
      NotLeftOfItself(s, r1);
    }
  }

  /** A chain that does not meet `j` meets the same records after a new link out of `j`. */
  lemma {:induction false} MeetsAround(s: seq<int>, j: nat, k: int, i: int, x: int, n: nat)
    requires InRange(s) && j < |s| && -1 <= k < |s| && -1 <= i < |s| && !OnChain(s, i, j)
    ensures InRange(s[j := k]) && (Meets(s[j := k], i, x, n) <==> Meets(s, i, x, n))
    decreases n
  {
    if i != -1 && n > 0 {
      OnChainStep(s, i, j);
      MeetsAround(s, j, k, s[i], x, n - 1);
    }
  }

  /** The links after `r2` has been merged into `r1`, whose hole state comes from `hole`. */
  function MergeLefts(s: seq<int>, r1: nat, r2: nat, hole: nat): (t: seq<int>)
    requires r1 < |s| && r2 < |s|
    ensures |t| == |s|
  {
    var t := if hole == r2 && s[r2] != r1 then s[r1 := s[r2]] else s;
    t[r2 := r1]
  }

  /** The choice of the record that gives the hole state: an ancestor if there is one, else either. */
  ghost predicate HoleChoice(s: seq<int>, r1: nat, r2: nat, hole: nat)
    requires InRange(s) && r1 < |s| && r2 < |s|
  {
    if OnChain(s, s[r1], r2) then hole == r2
    else if OnChain(s, s[r2], r1) then hole == r1
    else hole == r1 || hole == r2
  }

  /** Merging two records never closes a circle, and the test `s[r2] != r1` never matters. */
  lemma MergeKeepsAcyclic(s: seq<int>, r1: nat, r2: nat, hole: nat)
    requires Acyclic(s) && r1 < |s| && r2 < |s| && r1 != r2 && HoleChoice(s, r1, r2, hole)
    ensures Acyclic(MergeLefts(s, r1, r2, hole))
    ensures hole == r2 ==> s[r2] != r1
  {
    NotBothLeft(s, r1, r2);
    NotLeftOfItself(s, r2);
    NotLeftOfItself(s, r1);
    if hole == r2 {
      assert !OnChain(s, s[r2], r1);
      if s[r2] == r1 { OnChainStep(s, r1, r1); }
      RelinkAcyclic(s, r1, s[r2]);
      var t := s[r1 := s[r2]];
      OnChainStep(t, r1, r2);
      forall n: nat ensures Meets(t, s[r2], r2, n) <==> Meets(s, s[r2], r2, n) {
        MeetsAround(s, r1, s[r2], s[r2], r2, n);
      }
      RelinkAcyclic(t, r2, r1);
    } else {
      OnChainStep(s, r1, r2);
      RelinkAcyclic(s, r2, r1);
    }
  }

  /** A fresh record may be linked to any record. */
  lemma AddKeepsAcyclic(s: seq<int>, k: int)
    requires Acyclic(s) && -1 <= k < |s|
    ensures Acyclic(s + [k])
    ensures forall i, x :: -1 <= i < |s| ==> (OnChain(s + [k], i, x) <==> OnChain(s, i, x))
  {
    var t := s + [k];
    forall i, x, n: nat | -1 <= i < |s| ensures Meets(t, i, x, n) <==> Meets(s, i, x, n) {
      AddKeepsChain(s, k, i, x, n);
    }
    forall i | 0 <= i < |t| ensures EndsSomewhere(t, i) {
      var j := if i < |s| then i else k;
      var n: nat := 0;
      if j != -1 {
        assert EndsSomewhere(s, j);
        n :| Ends(s, j, n);
      }
      AddKeepsChain(s, k, j, 0, n);
      assert Ends(t, j, n);
      assert i == |s| ==> Ends(t, i, n + 1);
    }
  }

  lemma {:induction false} AddKeepsChain(s: seq<int>, k: int, i: int, x: int, n: nat)
    requires InRange(s) && -1 <= k < |s| && -1 <= i < |s|
    ensures InRange(s + [k])
    ensures (Ends(s + [k], i, n) <==> Ends(s, i, n)) && (Meets(s + [k], i, x, n) <==> Meets(s, i, x, n))
    decreases n
  {
    if i != -1 && n > 0 {
      AddKeepsChain(s, k, s[i], x, n - 1);
    }
  }

  /** A record split in two, of which the new one contains the old one. */
  lemma SplitOuterAcyclic(s: seq<int>, r1: nat)
    requires Acyclic(s) && r1 < |s|
    ensures Acyclic((s + [s[r1]])[r1 := |s|])
  {
    AddKeepsAcyclic(s, s[r1]);
    NotLeftOfItself(s, r1);
    var t := s + [s[r1]];
    OnChainStep(t, |s|, r1);
    RelinkAcyclic(t, r1, |s|);
  }
}
