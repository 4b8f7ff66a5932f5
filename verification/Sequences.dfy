// Sequences without repetition: places, removal, and links to the neighbours.

module Sequences {
  /** The null pointer, where pointers are indices. */
  const NULL: int := -1

  ghost predicate Distinct<T>(s: seq<T>) {
    forall i: nat, j: nat | i < j < |s| :: s[i] != s[j]
  }

  /** The element at i, or NULL outside. */
  function At(s: seq<nat>, i: int): int {
    if 0 <= i < |s| then s[i] else NULL
  }

  function IndexOf(s: seq<nat>, x: nat): (i: nat)
    requires x in s
    ensures i < |s| && s[i] == x
  {
    if s[0] == x then 0 else 1 + IndexOf(s[1..], x)
  }

  /** s without its element at i. */
  function Cut(s: seq<nat>, i: nat): seq<nat>
    requires i < |s|
  {
    s[..i] + s[i + 1..]
  }

  lemma CutIs(s: seq<nat>, i: nat)
    requires i < |s| && Distinct(s)
    ensures Distinct(Cut(s, i))
    ensures forall x: nat :: x in Cut(s, i) <==> x in s && x != s[i]
  {
    var c := Cut(s, i);
    assert forall j: nat | j < |c| :: c[j] == s[if j < i then j else j + 1];
    assert s == s[..i] + [s[i]] + s[i + 1..];
    var rest := s[i + 1..];
    assert forall j: nat | j < |rest| :: rest[j] == s[i + 1 + j];
    assert s[i] !in s[..i] && s[i] !in rest;
  }

  lemma JoinDistinct(a: seq<nat>, b: seq<nat>)
    requires Distinct(a) && Distinct(b) && forall x: nat :: x !in a || x !in b
    ensures Distinct(a + b)
  {
    forall i: nat, j: nat | i < j < |a + b| ensures (a + b)[i] != (a + b)[j] {
      if i < |a| <= j {
        assert a[i] in a && b[j - |a|] in b;
      }
    }
  }

  lemma {:induction false} DistinctBound(s: seq<nat>, n: nat)
    requires Distinct(s) && forall i: nat | i < |s| :: s[i] < n
    ensures |s| <= n
    decreases n
  {
    assert s != [] ==> s[0] < n;
    if s != [] {
      if n - 1 in s {
        var i := IndexOf(s, n - 1);
        CutIs(s, i);
        var c := Cut(s, i);
        forall j: nat | j < |c| ensures c[j] < n - 1 { assert c[j] in c; }
        DistinctBound(c, n - 1);
      } else {
        DistinctBound(s, n - 1);
      }
    }
  }

  lemma {:induction false} Crowded(s: seq<nat>, n: nat)
    requires forall x: nat | x < n :: x in s
    ensures |s| >= n
    decreases n
  {
    if n > 0 {
      var i := IndexOf(s, n - 1);
      var c := Cut(s, i);
      forall x: nat | x < n - 1 ensures x in c {
        var j := IndexOf(s, x);
        assert c[if j < i then j else j - 1] == x;
      }
      Crowded(c, n - 1);
    }
  }

  /** Numbers below n without repetition are n numbers exactly if they are all of them. */
  lemma AllOf(s: seq<nat>, n: nat)
    requires Distinct(s) && forall i: nat | i < |s| :: s[i] < n
    ensures |s| <= n
    ensures |s| == n <==> forall x: nat | x < n :: x in s
  {
    DistinctBound(s, n);
    if forall x: nat | x < n :: x in s {
      Crowded(s, n);
    } else {
      var x: nat :| x < n && x !in s;
      var more := s + [x];
      DistinctBound(more, n);
    }
  }
}
