/** Duplicate-free sequences, as the queues and indexes of this project use them. */
module Seqs {
  ghost predicate Distinct<T>(s: seq<T>) {
    forall i, j | 0 <= i < j < |s| :: s[i] != s[j]
  }

  function Elements<T(==)>(s: seq<T>): set<T> {
    set x | x in s
  }

  /** `s` without its first occurrence of `x`. */
  function Without<T(==)>(s: seq<T>, x: T): (r: seq<T>)
    ensures |r| == if x in s then |s| - 1 else |s|
    ensures forall y | y in r :: y in s
  {
    if s == [] then []
    else if s[0] == x then s[1..]
    else [s[0]] + Without(s[1..], x)
  }

  lemma {:induction false} WithoutAbsent<T>(s: seq<T>, x: T)
    requires x !in s
    ensures Without(s, x) == s
  {
    if s != [] {
      WithoutAbsent(s[1..], x);
    }
  }

  /** Removing keeps the other elements, their order and the absence of duplicates. */
  lemma {:induction false} WithoutDistinct<T>(s: seq<T>, x: T)
    requires Distinct(s)
    ensures Distinct(Without(s, x)) && x !in Without(s, x)
    ensures forall y | y != x :: y in Without(s, x) <==> y in s
    ensures Elements(Without(s, x)) == Elements(s) - {x}
  {
    if s != [] {
      if s[0] == x {
        assert s == [x] + s[1..];
      } else {
        WithoutDistinct(s[1..], x);
        assert s[0] !in s[1..];
        assert s == [s[0]] + s[1..];
      }
    }
  }

  lemma {:induction false} WithoutAt<T>(s: seq<T>, i: nat)
    requires Distinct(s) && i < |s|
    ensures Without(s, s[i]) == s[..i] + s[i + 1..]
  {
    if i > 0 {
      assert s[0] != s[i];
      WithoutAt(s[1..], i - 1);
      assert s[1..][..i - 1] == s[1..i];
      assert s[1..][i..] == s[i + 1..];
    }
  }

  lemma {:induction false} WithoutPrefix<T>(a: seq<T>, b: seq<T>, x: T)
    requires x in a
    ensures Without(a + b, x) == Without(a, x) + b
  {
    assert (a + b)[1..] == a[1..] + b;
    if a[0] != x {
      WithoutPrefix(a[1..], b, x);
    }
  }

  lemma {:induction false} WithoutRest<T>(a: seq<T>, b: seq<T>, x: T)
    requires x !in a
    ensures Without(a + b, x) == a + Without(b, x)
  {
    if a == [] {
      assert a + b == b;
    } else {
      assert (a + b)[1..] == a[1..] + b;
      WithoutRest(a[1..], b, x);
    }
  }

  lemma {:induction false} DistinctCard<T>(s: seq<T>)
    requires Distinct(s)
    ensures |Elements(s)| == |s|
  {
    if s != [] {
      DistinctCard(s[1..]);
      assert Elements(s) == {s[0]} + Elements(s[1..]);
    }
  }

  lemma SubsetCard<T>(a: set<T>, b: set<T>)
    requires a <= b
    ensures |a| <= |b|
    ensures |a| == |b| ==> a == b
  {
    assert b == a + (b - a);
    assert |b| == |a| + |b - a|;
  }

  predicate IsSuffix<T(==)>(a: seq<T>, b: seq<T>) {
    |a| <= |b| && b[|b| - |a|..] == a
  }

  lemma SuffixWithout<T>(b: seq<T>, u: seq<T>, x: T)
    requires IsSuffix(b, u) && Distinct(u)
    ensures IsSuffix(Without(b, x), Without(u, x))
  {
    var a := u[..|u| - |b|];
    assert u == a + b;
    if x in a {
      assert x !in b by {
        assert forall j | 0 <= j < |b| :: b[j] == u[|a| + j];
      }
      WithoutAbsent(b, x);
      WithoutPrefix(a, b, x);
    } else {
      WithoutRest(a, b, x);
    }
  }

  lemma SuffixMembers<T>(b: seq<T>, u: seq<T>)
    requires IsSuffix(b, u)
    ensures forall x | x in b :: x in u
    ensures Distinct(u) ==> Distinct(b)
  {
    assert forall j | 0 <= j < |b| :: b[j] == u[|u| - |b| + j];
  }

  lemma SuffixAppend<T>(b: seq<T>, u: seq<T>, x: T)
    requires IsSuffix(b, u)
    ensures IsSuffix(b + [x], u + [x])
  {
    assert (u + [x])[|u| - |b|..] == u[|u| - |b|..] + [x];
  }

  lemma SuffixLatest<T>(b: seq<T>, u: seq<T>, n: nat)
    requires IsSuffix(b, u)
    ensures IsSuffix(Latest(b, n), u)
  {
    if |b| > n {
      assert u[|u| - |b|..][|b| - n..] == u[|u| - n..];
    }
  }

  /** The last `n` elements: what remains after dropping from the oldest end. */
  function Latest<T>(s: seq<T>, n: nat): (r: seq<T>)
    ensures |r| == if |s| <= n then |s| else n
  {
    if |s| <= n then s else s[|s| - n..]
  }

  lemma LatestKeepsLast<T>(s: seq<T>, x: T, n: nat)
    requires n > 0
    ensures x in Latest(s + [x], n)
  {
    var r := Latest(s + [x], n);
    assert r[|r| - 1] == x;
  }

  // ---- Sets in ascending order ----

  ghost predicate IsLeast(x: nat, s: set<nat>) {
    x in s && forall y | y in s :: x <= y
  }

  lemma {:induction false} HasLeast(s: set<nat>)
    requires s != {}
    ensures exists x :: IsLeast(x, s)
  {
    var x :| x in s;
    if s == {x} {
      assert IsLeast(x, s);
    } else {
      HasLeast(s - {x});
      var least :| IsLeast(least, s - {x});
      LeastOfTwo(x, least, s);
    }
  }

  lemma LeastOfTwo(x: nat, least: nat, s: set<nat>)
    requires x in s && IsLeast(least, s - {x})
    ensures IsLeast(if x < least then x else least, s)
  {
    forall y | y in s ensures (if x < least then x else least) <= y {
      assert y == x || y in s - {x};
    }
  }

  function Least(s: set<nat>): (x: nat)
    requires s != {}
    ensures IsLeast(x, s)
  {
    HasLeast(s);
    var x :| x in s && forall y | y in s :: x <= y;
    x
  }

  ghost predicate IsAscending(r: seq<nat>) {
    forall i, j | 0 <= i < j < |r| :: r[i] < r[j]
  }

  /** The elements of `s` in ascending order. */
  function Ascending(s: set<nat>): (r: seq<nat>)
    ensures Elements(r) == s && |r| == |s| && IsAscending(r)
  {
    if s == {} then []
    else
      var x := Least(s);
      var rest := Ascending(s - {x});
      AscendingCons(x, rest, s);
      [x] + rest
  }

  lemma AscendingCons(x: nat, rest: seq<nat>, s: set<nat>)
    requires IsLeast(x, s) && Elements(rest) == s - {x} && IsAscending(rest)
    ensures Elements([x] + rest) == s && IsAscending([x] + rest)
  {
    assert forall i | 0 <= i < |rest| :: rest[i] in Elements(rest);
    forall y ensures y in Elements([x] + rest) <==> y in s {
      assert y in Elements([x] + rest) <==> y == x || y in Elements(rest);
    }
  }

  lemma {:induction false} AscendingUnique(a: seq<nat>, b: seq<nat>)
    requires Elements(a) == Elements(b)
    requires IsAscending(a) && IsAscending(b)
    ensures a == b
  {
    assert b != [] ==> b[0] in Elements(b);
    if a != [] {
      assert a[0] in Elements(b);
      assert b != [] && b[0] in Elements(a);
      assert a[0] == b[0];
      assert Elements(a[1..]) == Elements(a) - {a[0]};
      assert Elements(b[1..]) == Elements(b) - {b[0]};
      AscendingUnique(a[1..], b[1..]);
    }
  }
}
