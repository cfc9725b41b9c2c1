/**
 The combinatorics behind the intersection list: pairs that stand in the wrong order, and
 runs of exchanges of neighbours that put them right.  Nothing here depends on what the
 elements are or how their keys are computed.
 */
module Inversions {
  import opened Sequences

  /** The pairs that stand left to right in `s` but right to left by their keys. */
  ghost function Inverted<T>(s: seq<T>, key: T -> int): set<(T, T)>
  {
    InvertedUpTo(s, key, |s|)
  }

  ghost function InvertedUpTo<T>(s: seq<T>, key: T -> int, n: nat): set<(T, T)>
    requires n <= |s|
  {
    if n == 0 then {}
    else InvertedUpTo(s, key, n - 1) + set i | 0 <= i < n - 1 && key(s[i]) > key(s[n - 1]) :: (s[i], s[n - 1])
  }

  lemma {:induction false} InvertedUpToPair<T>(s: seq<T>, key: T -> int, n: nat, i: nat, j: nat)
    requires i < j < n <= |s| && key(s[i]) > key(s[j])
    ensures (s[i], s[j]) in InvertedUpTo(s, key, n)
  {
    if j < n - 1 {
      InvertedUpToPair(s, key, n - 1, i, j);
    }
  }

  lemma InvertedPair<T>(s: seq<T>, key: T -> int, i: nat, j: nat)
    requires i < j < |s| && key(s[i]) > key(s[j])
    ensures (s[i], s[j]) in Inverted(s, key)
  {
    InvertedUpToPair(s, key, |s|, i, j);
  }

  lemma {:induction false} InvertedUpToMember<T>(s: seq<T>, key: T -> int, n: nat, p: (T, T)) returns (i: nat, j: nat)
    requires n <= |s| && p in InvertedUpTo(s, key, n)
    ensures i < j < n && p == (s[i], s[j]) && key(s[i]) > key(s[j])
  {
    if p in InvertedUpTo(s, key, n - 1) {
      i, j := InvertedUpToMember(s, key, n - 1, p);
    } else {
      j := n - 1;
      i :| 0 <= i < n - 1 && key(s[i]) > key(s[n - 1]) && p == (s[i], s[n - 1]);
    }
  }

  lemma InvertedMember<T>(s: seq<T>, key: T -> int, p: (T, T)) returns (i: nat, j: nat)
    requires p in Inverted(s, key)
    ensures i < j < |s| && p == (s[i], s[j]) && key(s[i]) > key(s[j])
  {
    i, j := InvertedUpToMember(s, key, |s|, p);
  }

  /** The elements stand in ascending order of their keys. */
  ghost predicate SortedBy<T>(s: seq<T>, key: T -> int) {
    forall i, j :: 0 <= i < j < |s| ==> key(s[i]) <= key(s[j])
  }

  lemma SortedHasNoInversion<T>(s: seq<T>, key: T -> int)
    ensures SortedBy(s, key) <==> Inverted(s, key) == {}
  {
    if !SortedBy(s, key) {
      var i, j :| 0 <= i < j < |s| && key(s[i]) > key(s[j]);
      InvertedPair(s, key, i, j);
    } else if Inverted(s, key) != {} {
      var p :| p in Inverted(s, key);
      var i, j := InvertedMember(s, key, p);
    }
  }

  /** Where any pair is inverted, some neighbours are. */
  lemma {:induction false} NeighboursInverted<T>(s: seq<T>, key: T -> int, i: nat, j: nat) returns (k: nat)
    requires i < j < |s| && key(s[i]) > key(s[j])
    ensures i <= k && k + 1 <= j && key(s[k]) > key(s[k + 1])
    decreases j - i
  {
    if j == i + 1 {
      k := i;
    } else if key(s[j - 1]) > key(s[j]) {
      k := j - 1;
    } else {
      k := NeighboursInverted(s, key, i, j - 1);
    }
  }

  /** Exchanging inverted neighbours removes that one inversion and no other. */
  lemma SwapRemovesOne<T>(s: seq<T>, key: T -> int, k: nat)
    requires Distinct(s) && k + 1 < |s| && key(s[k]) > key(s[k + 1])
    ensures (s[k], s[k + 1]) in Inverted(s, key)
    ensures Inverted(Swap(s, k), key) == Inverted(s, key) - {(s[k], s[k + 1])}
  {
    var t, gone := Swap(s, k), (s[k], s[k + 1]);
    DistinctAt(s, k);
    DistinctAt(s, k + 1);
    InvertedPair(s, key, k, k + 1);
    if gone in Inverted(t, key) {
      var i, j := InvertedMember(t, key, gone);
    }
    forall p | p in Inverted(t, key) ensures p in Inverted(s, key) - {gone} {
      var i, j := InvertedMember(t, key, p);
      InvertedPair(s, key, Moved(k, i), Moved(k, j));
    }
    forall p | p in Inverted(s, key) - {gone} ensures p in Inverted(t, key) {
      var i, j := InvertedMember(s, key, p);
      InvertedPair(t, key, Moved(k, i), Moved(k, j));
    }
  }

  /** Where position `i` goes when the neighbours `k` and `k + 1` are exchanged. */
  function Moved(k: nat, i: nat): nat {
    if i == k then k + 1 else if i == k + 1 then k else i
  }

  // ---------------------------------------------------------------- runs of exchanges

  /** `t` is `s` with `p`, a pair of neighbours, exchanged. */
  ghost predicate Exchange<T>(s: seq<T>, t: seq<T>, p: (T, T)) {
    exists k: nat :: ExchangeAt(s, t, p, k)
  }

  ghost predicate ExchangeAt<T>(s: seq<T>, t: seq<T>, p: (T, T), k: nat) {
    k + 1 < |s| && p == (s[k], s[k + 1]) && t == Swap(s, k)
  }

  /** `st` lists the orders met while the pairs of `ps` are exchanged one after the other. */
  ghost predicate Run<T>(st: seq<seq<T>>, ps: seq<(T, T)>) {
    |st| == |ps| + 1 && RunUpTo(st, ps, |ps|)
  }

  ghost predicate RunUpTo<T>(st: seq<seq<T>>, ps: seq<(T, T)>, n: nat)
    requires n <= |ps| && n < |st|
  {
    n == 0 || (Exchange(st[n - 1], st[n], ps[n - 1]) && RunUpTo(st, ps, n - 1))
  }

  lemma {:induction false} RunUpToSteps<T>(st: seq<seq<T>>, ps: seq<(T, T)>, n: nat)
    requires n <= |ps| && n < |st|
    ensures RunUpTo(st, ps, n) <==> forall i {:trigger ps[i]} :: 0 <= i < n ==> Exchange(st[i], st[i + 1], ps[i])
  {
    if n > 0 {
      RunUpToSteps(st, ps, n - 1);
      if forall i {:trigger ps[i]} :: 0 <= i < n ==> Exchange(st[i], st[i + 1], ps[i]) {
        assert Exchange(st[n - 1], st[n - 1 + 1], ps[n - 1]);
      }
    }
  }

  lemma RunStep<T>(st: seq<seq<T>>, ps: seq<(T, T)>, i: nat)
    requires Run(st, ps) && i < |ps|
    ensures Exchange(st[i], st[i + 1], ps[i])
  {
    RunUpToSteps(st, ps, |ps|);
  }

  lemma {:induction false} RunUpToSame<T>(st: seq<seq<T>>, ps: seq<(T, T)>, su: seq<seq<T>>, qs: seq<(T, T)>, n: nat)
    requires n <= |ps| && n < |st| && RunUpTo(st, ps, n)
    requires n <= |qs| && n < |su|
    requires (forall i :: 0 <= i <= n ==> su[i] == st[i]) && (forall i :: 0 <= i < n ==> qs[i] == ps[i])
    ensures RunUpTo(su, qs, n)
  {
    if n > 0 {
      RunUpToSame(st, ps, su, qs, n - 1);
    }
  }

  /** The first exchanges of a run are a run, and it can go on with an exchange of the last order. */
  lemma AppendExchange<T>(st: seq<seq<T>>, ps: seq<(T, T)>, qs: seq<(T, T)>, t: seq<T>)
    requires |st| > 0 && |ps| >= |st| - 1 && RunUpTo(st, ps, |st| - 1)
    requires |qs| >= |st| && forall i :: 0 <= i < |st| - 1 ==> qs[i] == ps[i]
    requires Exchange(st[|st| - 1], t, qs[|st| - 1])
    ensures RunUpTo(st + [t], qs, |st|)
  {
    RunUpToSame(st, ps, st + [t], qs, |st| - 1);
  }

  lemma ExtendRun<T>(st: seq<seq<T>>, ps: seq<(T, T)>, k: nat)
    requires Run(st, ps) && k + 1 < |st[|ps|]|
    ensures Run(st + [Swap(st[|ps|], k)], ps + [(st[|ps|][k], st[|ps|][k + 1])])
  {
    var s := st[|ps|];
    assert ExchangeAt(s, Swap(s, k), (s[k], s[k + 1]), k);
    AppendExchange(st, ps, ps + [(s[k], s[k + 1])], Swap(s, k));
  }

  lemma ExchangeRearranges<T>(s: seq<T>, t: seq<T>, p: (T, T))
    requires Exchange(s, t, p)
    ensures multiset(t) == multiset(s)
    ensures Distinct(s) ==> Distinct(t)
  {
    var k: nat :| ExchangeAt(s, t, p, k);
    TransposeKeepsElements(s, k, k + 1);
  }

  /** A run only rearranges. */
  lemma {:induction false} RunRearranges<T>(st: seq<seq<T>>, ps: seq<(T, T)>, i: nat)
    requires Run(st, ps) && i <= |ps|
    ensures multiset(st[i]) == multiset(st[0])
    ensures Distinct(st[0]) ==> Distinct(st[i])
  {
    if i > 0 {
      RunRearranges(st, ps, i - 1);
      RunStep(st, ps, i - 1);
      ExchangeRearranges(st[i - 1], st[i], ps[i - 1]);
    }
  }

  /** The same exchange of the same order has one outcome. */
  lemma ExchangeIsDetermined<T>(s: seq<T>, t: seq<T>, u: seq<T>, p: (T, T))
    requires Distinct(s) && Exchange(s, t, p) && Exchange(s, u, p)
    ensures t == u
  {
    var k: nat :| ExchangeAt(s, t, p, k);
    var m: nat :| ExchangeAt(s, u, p, m);
    DistinctAt(s, k);
  }
}
