/** Result types and the few sequence facts that several components share. */
module Basics {

  datatype Option<+T> = None | Some(value: T)

  datatype Result<+T, +E> = Ok(value: T) | Err(error: E)

  /** No element occurs twice. */
  ghost predicate Distinct<T(!new)>(s: seq<T>) {
    forall a, b :: 0 <= a < b < |s| ==> s[a] != s[b]
  }

  lemma DistinctJoin<T(!new)>(a: seq<T>, b: seq<T>)
    requires Distinct(a) && Distinct(b) && forall x :: x in a ==> x !in b
    ensures Distinct(a + b)
  {
    var all := a + b;
    forall i, j | 0 <= i < j < |all| ensures all[i] != all[j] {
      if i < |a| <= j {
        assert all[i] in a && all[j] in b;
      }
    }
  }

  function Elements<T(!new)>(s: seq<T>): (r: set<T>)
    ensures forall x :: x in r <==> x in s
  {
    set x | x in s
  }

  lemma {:induction false} DistinctCount<T(!new)>(s: seq<T>)
    requires Distinct(s)
    ensures |Elements(s)| == |s|
  {
    if s != [] {
      var last := |s| - 1;
      assert s == s[..last] + [s[last]];
      assert Elements(s) == Elements(s[..last]) + {s[last]};
      assert s[last] !in s[..last];
      DistinctCount(s[..last]);
    }
  }

  function Range(n: nat): (r: set<nat>)
    ensures forall x: nat :: x in r <==> x < n
    ensures |r| == n
  {
    if n == 0 then {} else Range(n - 1) + {n - 1}
  }

  lemma SubsetCount<T>(a: set<T>, b: set<T>)
    requires a <= b
    ensures |a| <= |b|
  {
    assert b == a + (b - a);
  }

  /** Pigeonhole: distinct numbers below n number at most n. */
  lemma Pigeonhole(s: seq<nat>, n: nat)
    requires Distinct(s)
    requires forall x :: x in s ==> x < n
    ensures |s| <= n
  {
    DistinctCount(s);
    assert Elements(s) <= Range(n);
    SubsetCount(Elements(s), Range(n));
  }

  /** The elements to keep, in their order. */
  function Select(s: seq<nat>, keep: nat -> bool): (r: seq<nat>)
    ensures forall i :: i in r <==> i in s && keep(i)
    ensures Distinct(s) ==> Distinct(r)
  {
    if s == [] then [] else
    var last := |s| - 1;
    assert s == s[..last] + [s[last]];
    var before := Select(s[..last], keep);
    if keep(s[last]) then before + [s[last]] else before
  }

  lemma PlaceOf(s: seq<nat>, x: nat) returns (p: nat)
    requires x in s
    ensures p < |s| && s[p] == x
  {
    p :| p < |s| && s[p] == x;
  }

  /** What is kept stands in the order it stood in. */
  lemma {:induction false} SelectKeepsOrder(s: seq<nat>, keep: nat -> bool, a: nat, b: nat) returns (p: nat, q: nat)
    requires a < b < |s| && keep(s[a]) && keep(s[b])
    ensures p < q < |Select(s, keep)| && Select(s, keep)[p] == s[a] && Select(s, keep)[q] == s[b]
  {
    var last := |s| - 1;
    var before := Select(s[..last], keep);
    assert Select(s, keep) == if keep(s[last]) then before + [s[last]] else before;
    if b < last {
      p, q := SelectKeepsOrder(s[..last], keep, a, b);
    } else {
      assert s[..last][a] == s[a];
      p := PlaceOf(before, s[a]);
      q := |before|;
    }
  }
}
