/**
 Facts about sequences without repetition.

 `Distinct` is defined by recursion so that the solver does not compare every pair of
 elements it meets; `DistinctAt` gives the comparisons with one element where they matter.
 */
module Sequences {

  ghost predicate Distinct<T>(s: seq<T>) {
    DistinctUpTo(s, |s|)
  }

  ghost predicate DistinctUpTo<T>(s: seq<T>, n: nat)
    requires n <= |s|
  {
    n == 0 || ((forall i :: 0 <= i < n - 1 ==> s[i] != s[n - 1]) && DistinctUpTo(s, n - 1))
  }

  /** No two of the elements are equal. */
  ghost predicate Pairwise<T>(s: seq<T>) {
    forall i, j :: 0 <= i < j < |s| ==> s[i] != s[j]
  }

  lemma {:induction false} DistinctUpToPairs<T>(s: seq<T>, n: nat)
    requires n <= |s|
    ensures DistinctUpTo(s, n) <==> forall i, j :: 0 <= i < j < n ==> s[i] != s[j]
  {
    if n > 0 {
      DistinctUpToPairs(s, n - 1);
    }
  }

  lemma DistinctIsPairwise<T>(s: seq<T>)
    ensures Distinct(s) <==> Pairwise(s)
  {
    DistinctUpToPairs(s, |s|);
  }

  lemma DistinctAt<T>(s: seq<T>, k: nat)
    requires Distinct(s) && k < |s|
    ensures forall i :: 0 <= i < |s| && i != k ==> s[i] != s[k]
  {
    DistinctIsPairwise(s);
  }

  /** The comparisons with element `k` and with its neighbours. */
  lemma DistinctAround<T>(s: seq<T>, k: nat)
    requires Distinct(s) && k < |s|
    ensures forall i :: 0 <= i < |s| && i != k ==> s[i] != s[k]
    ensures k > 0 ==> forall i :: 0 <= i < |s| && i != k - 1 ==> s[i] != s[k - 1]
    ensures k + 1 < |s| ==> forall i :: 0 <= i < |s| && i != k + 1 ==> s[i] != s[k + 1]
  {
    DistinctIsPairwise(s);
  }

  lemma DistinctPrefix<T>(s: seq<T>, n: nat)
    requires Distinct(s) && n <= |s|
    ensures Distinct(s[..n])
  {
    DistinctIsPairwise(s);
    DistinctIsPairwise(s[..n]);
  }

  /** Two sequences have no element in common. */
  ghost predicate Apart<T>(a: seq<T>, b: seq<T>) {
    forall x :: x in a ==> x !in b
  }

  lemma ApartAt<T>(a: seq<T>, b: seq<T>)
    requires Apart(a, b)
    ensures forall i :: 0 <= i < |a| ==> a[i] !in b
    ensures forall i :: 0 <= i < |b| ==> b[i] !in a
  {
    forall i | 0 <= i < |a| ensures a[i] !in b { assert a[i] in a; }
    forall i | 0 <= i < |b| ensures b[i] !in a { assert b[i] in b; }
  }

  lemma DistinctConcat<T>(a: seq<T>, b: seq<T>)
    ensures Distinct(a + b) <==> Distinct(a) && Distinct(b) && Apart(a, b)
  {
    DistinctIsPairwise(a); DistinctIsPairwise(b); DistinctIsPairwise(a + b);
    if Pairwise(a + b) {
      forall i, j | 0 <= i < j < |a| ensures a[i] != a[j] { assert (a + b)[i] == a[i] && (a + b)[j] == a[j]; }
      forall i, j | 0 <= i < j < |b| ensures b[i] != b[j] { assert (a + b)[|a| + i] == b[i] && (a + b)[|a| + j] == b[j]; }
      forall x | x in a ensures x !in b {
        var i :| 0 <= i < |a| && a[i] == x;
        assert (a + b)[i] == x;
        forall j | 0 <= j < |b| ensures b[j] != x { assert (a + b)[|a| + j] == b[j]; }
      }
    }
    if Pairwise(a) && Pairwise(b) && Apart(a, b) {
      forall i, j | 0 <= i < j < |a + b| ensures (a + b)[i] != (a + b)[j] {
        if i < |a| && j >= |a| { assert a[i] in a && b[j - |a|] in b; }
      }
    }
  }

  function Transpose<T>(s: seq<T>, i: nat, j: nat): (r: seq<T>)
    requires i < |s| && j < |s|
    ensures |r| == |s| && r[i] == s[j] && r[j] == s[i]
    ensures forall k :: 0 <= k < |s| && k != i && k != j ==> r[k] == s[k]
    ensures Distinct(s) ==> Distinct(r)
  {
    DistinctIsPairwise(s);
    var r := s[i := s[j]][j := s[i]];
    DistinctIsPairwise(r);
    r
  }

  /** The sequence with neighbours `k` and `k + 1` exchanged. */
  function Swap<T>(s: seq<T>, k: nat): (r: seq<T>)
    requires k + 1 < |s|
    ensures |r| == |s|
  {
    Transpose(s, k, k + 1)
  }

  function Without<T>(s: seq<T>, k: nat): (r: seq<T>)
    requires k < |s|
    ensures |r| == |s| - 1
    ensures forall i :: 0 <= i < k ==> r[i] == s[i]
    ensures forall i :: k <= i < |r| ==> r[i] == s[i + 1]
    ensures Distinct(s) ==> Distinct(r) && s[k] !in r
  {
    DistinctIsPairwise(s);
    var r := s[..k] + s[k + 1..];
    DistinctIsPairwise(r);
    r
  }

  function InsertAt<T>(s: seq<T>, k: nat, e: T): (r: seq<T>)
    requires k <= |s|
    ensures |r| == |s| + 1 && r[k] == e
    ensures forall i :: 0 <= i < k ==> r[i] == s[i]
    ensures forall i :: k < i < |r| ==> r[i] == s[i - 1]
    ensures Distinct(s) && e !in s ==> Distinct(r)
  {
    DistinctIsPairwise(s);
    var r := s[..k] + [e] + s[k..];
    DistinctIsPairwise(r);
    r
  }

  function Replace<T>(s: seq<T>, k: nat, e: T): (r: seq<T>)
    requires k < |s|
    ensures |r| == |s| && r[k] == e
    ensures forall i :: 0 <= i < |s| && i != k ==> r[i] == s[i]
    ensures Distinct(s) && e !in s ==> Distinct(r)
  {
    DistinctIsPairwise(s);
    var r := s[k := e];
    DistinctIsPairwise(r);
    r
  }

  lemma InsertedElements<T>(s: seq<T>, k: nat, e: T)
    requires k <= |s|
    ensures forall x :: x in InsertAt(s, k, e) <==> x in s || x == e
  {
    var r := InsertAt(s, k, e);
    forall x | x in s ensures x in r {
      var i :| 0 <= i < |s| && s[i] == x;
      assert r[if i < k then i else i + 1] == x;
    }
  }

  lemma WithoutElements<T>(s: seq<T>, k: nat)
    requires k < |s|
    ensures forall x :: x in s <==> x in Without(s, k) || x == s[k]
  {
    var r := Without(s, k);
    forall x | x in s && x != s[k] ensures x in r {
      var i :| 0 <= i < |s| && s[i] == x;
      assert r[if i < k then i else i - 1] == x;
    }
  }

  lemma ReplacedElements<T>(s: seq<T>, k: nat, e: T)
    requires Distinct(s) && k < |s| && e !in s
    ensures forall x :: x in Replace(s, k, e) <==> (x in s && x != s[k]) || x == e
  {
    DistinctAt(s, k);
    var r := Replace(s, k, e);
    forall x | x in s && x != s[k] ensures x in r {
      var i :| 0 <= i < |s| && s[i] == x;
      assert r[i] == x;
    }
  }

  lemma TransposeKeepsElements<T>(s: seq<T>, i: nat, j: nat)
    requires i < |s| && j < |s|
    ensures multiset(Transpose(s, i, j)) == multiset(s)
  {
  }

  lemma WithoutOne<T>(s: seq<T>, k: nat)
    requires k < |s|
    ensures multiset(s) == multiset{s[k]} + multiset(Without(s, k))
  {
    assert s == s[..k] + [s[k]] + s[k + 1..];
  }

  lemma Cancel<T>(p: T, a: multiset<T>, b: multiset<T>)
    requires multiset{p} + a == multiset{p} + b
    ensures a == b
  {
    assert a == (multiset{p} + a) - multiset{p};
    assert b == (multiset{p} + b) - multiset{p};
  }

  /** A rearrangement of a sequence without repetition has no repetition either, and the same elements. */
  lemma SameElements<T>(s: seq<T>, t: seq<T>)
    requires multiset(s) == multiset(t)
    ensures |s| == |t|
    ensures forall e :: e in s <==> e in t
    ensures Distinct(s) ==> Distinct(t)
  {
    assert |multiset(s)| == |s| && |multiset(t)| == |t|;
    forall e ensures e in s <==> e in t {
      assert e in s <==> e in multiset(s);
      assert e in t <==> e in multiset(t);
    }
    DistinctIsPairwise(s);
    DistinctIsPairwise(t);
    if Pairwise(s) && !Pairwise(t) {
      var i, j :| 0 <= i < j < |t| && t[i] == t[j];
      TwiceInMultiset(t, i, j);
      OnceInMultiset(s, t[i]);
    }
  }

  lemma TwiceInMultiset<T>(t: seq<T>, i: nat, j: nat)
    requires i < j < |t| && t[i] == t[j]
    ensures multiset(t)[t[i]] >= 2
  {
    assert t == t[..i] + [t[i]] + t[i + 1..j] + [t[j]] + t[j + 1..];
  }

  lemma {:induction false} OnceInMultiset<T>(s: seq<T>, e: T)
    requires Pairwise(s)
    ensures multiset(s)[e] <= 1
  {
    if s != [] {
      var n := |s| - 1;
      assert s == s[..n] + [s[n]];
      if s[n] == e {
        assert e !in s[..n];
      } else {
        OnceInMultiset(s[..n], e);
      }
    }
  }
}
