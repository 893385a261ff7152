/** String order, reversal and sorting, as used by Python's `sorted` and C's `strcmp`. */
module Order {

  /** Lexicographic order with a prefix first: Python's order of strings and the order of `strcmp`. */
  predicate StrLess(a: string, b: string) {
    b != [] && (a == [] || a[0] < b[0] || (a[0] == b[0] && StrLess(a[1..], b[1..])))
  }

  predicate StrLeq(a: string, b: string) {
    a == b || StrLess(a, b)
  }

  lemma {:induction false} StrTrichotomy(a: string, b: string)
    ensures StrLess(a, b) || a == b || StrLess(b, a)
    ensures !(StrLess(a, b) && StrLess(b, a))
    ensures !StrLess(a, a)
  {
    if a != [] && b != [] {
      StrTrichotomy(a[1..], b[1..]);
      if a[0] == b[0] && a[1..] == b[1..] { assert a == [a[0]] + a[1..] == b; }
    }
    if a != [] { StrTrichotomy(a[1..], a[1..]); }
  }

  /** It is the order of the first difference, by character code. */
  lemma {:induction false} StrLessExactly(a: string, b: string)
    ensures StrLess(a, b) <==>
              a < b || exists i :: 0 <= i < |a| && i < |b| && a[..i] == b[..i] && a[i] < b[i]
  {
    if a == [] || b == [] {
    } else if a[0] != b[0] {
      if a[0] < b[0] { assert a[..0] == b[..0]; }
      assert forall i :: 0 < i < |a| && i < |b| ==> a[..i][0] != b[..i][0];
    } else {
      var t, u := a[1..], b[1..];
      StrLessExactly(t, u);
      assert a == [a[0]] + t && b == [a[0]] + u;
      if i :| 0 <= i < |t| && i < |u| && t[..i] == u[..i] && t[i] < u[i] {
        assert a[..i + 1] == [a[0]] + t[..i] && b[..i + 1] == [a[0]] + u[..i] && a[i + 1] < b[i + 1];
      }
      if i :| 0 <= i < |a| && i < |b| && a[..i] == b[..i] && a[i] < b[i] {
        assert i > 0 && t[..i - 1] == a[..i][1..] && u[..i - 1] == b[..i][1..] && t[i - 1] < u[i - 1];
      }
    }
  }

  lemma {:induction false} StrTransitive(a: string, b: string, c: string)
    requires StrLess(a, b) && StrLess(b, c)
    ensures StrLess(a, c)
  {
    if a != [] && a[0] == b[0] == c[0] { StrTransitive(a[1..], b[1..], c[1..]); }
  }

  lemma {:induction false} PrefixIsLeq(s: string, t: string)
    requires s <= t
    ensures StrLeq(s, t)
  {
    if s == [] {
    } else {
      PrefixIsLeq(s[1..], t[1..]);
      assert s == [s[0]] + s[1..] && t == [t[0]] + t[1..];
    }
  }

  /** The strings with a given prefix are contiguous. */
  lemma {:induction false} PrefixBetween(s: string, u: string, v: string)
    requires StrLeq(s, u) && StrLeq(u, v) && s <= v
    ensures s <= u
  {
    if s != [] && u != s && u != v {
      assert s[0] == v[0] && u[0] == s[0];
      assert s[1..] <= v[1..];
      PrefixBetween(s[1..], u[1..], v[1..]);
      assert s == [s[0]] + s[1..] && u == [u[0]] + u[1..];
    }
  }

  function Reverse(s: string): string {
    seq(|s|, i requires 0 <= i < |s| => s[|s| - 1 - i])
  }

  lemma ReverseReverse(s: string)
    ensures Reverse(Reverse(s)) == s
  {
  }

  predicate IsSuffix(s: string, t: string) {
    |s| <= |t| && t[|t| - |s|..] == s
  }

  lemma SuffixIsReversedPrefix(s: string, t: string)
    ensures IsSuffix(s, t) <==> Reverse(s) <= Reverse(t)
  {
    if IsSuffix(s, t) {
      forall i | 0 <= i < |s| ensures Reverse(s)[i] == Reverse(t)[i] {
        var k := |s| - 1 - i;
        assert t[|t| - |s|..][k] == s[k];
      }
    }
    if Reverse(s) <= Reverse(t) {
      forall i | 0 <= i < |s| ensures t[|t| - |s|..][i] == s[i] {
        assert Reverse(s)[|s| - 1 - i] == Reverse(t)[|s| - 1 - i];
      }
    }
  }

  // ----- Sorting

  ghost predicate TotalPreorder<T(!new)>(leq: (T, T) -> bool) {
    && (forall a, b :: leq(a, b) || leq(b, a))
    && (forall a, b, c :: leq(a, b) && leq(b, c) ==> leq(a, c))
  }

  ghost predicate Sorted<T>(s: seq<T>, leq: (T, T) -> bool) {
    forall i, j :: 0 <= i < j < |s| ==> leq(s[i], s[j])
  }

  ghost predicate Distinct<T>(s: seq<T>) {
    forall i, j :: 0 <= i < j < |s| ==> s[i] != s[j]
  }

  lemma UpTo<T(!new)>(r: seq<T>, k: nat, x: T, leq: (T, T) -> bool)
    requires TotalPreorder(leq) && Sorted(r, leq)
    requires 0 < k <= |r| && leq(r[k - 1], x)
    ensures forall i :: 0 <= i < k ==> leq(r[i], x)
  {
    forall i | 0 <= i < k - 1 ensures leq(r[i], x) {
      assert leq(r[i], r[k - 1]);
    }
  }

  lemma InsertedAt<T>(r: seq<T>, k: nat, x: T, leq: (T, T) -> bool)
    requires Sorted(r, leq) && k <= |r|
    requires forall i :: 0 <= i < k ==> leq(r[i], x)
    requires forall i :: k <= i < |r| ==> leq(x, r[i])
    ensures Sorted(r[..k] + [x] + r[k..], leq)
    ensures multiset(r[..k] + [x] + r[k..]) == multiset(r) + multiset{x}
  {
    assert r == r[..k] + r[k..];
    var q := r[..k] + [x] + r[k..];
    forall i, j | 0 <= i < j < |q| ensures leq(q[i], q[j]) {
      assert q[i] == if i < k then r[i] else if i == k then x else r[i - 1];
      assert q[j] == if j < k then r[j] else if j == k then x else r[j - 1];
    }
  }

  method Insert<T(!new)>(r: seq<T>, x: T, leq: (T, T) -> bool) returns (q: seq<T>)
    requires TotalPreorder(leq) && Sorted(r, leq)
    ensures Sorted(q, leq) && multiset(q) == multiset(r) + multiset{x}
  {
    var k := |r|;
    while k > 0 && !leq(r[k - 1], x)
      invariant 0 <= k <= |r|
      invariant forall i :: k <= i < |r| ==> leq(x, r[i])
    {
      k := k - 1;
    }
    if k > 0 { UpTo(r, k, x, leq); }
    InsertedAt(r, k, x, leq);
    q := r[..k] + [x] + r[k..];
  }

  method Sort<T(!new)>(s: seq<T>, leq: (T, T) -> bool) returns (r: seq<T>)
    requires TotalPreorder(leq)
    ensures Sorted(r, leq) && multiset(r) == multiset(s)
  {
    r := [];
    for n := 0 to |s|
      invariant Sorted(r, leq) && multiset(r) == multiset(s[..n])
    {
      assert s[..n + 1] == s[..n] + [s[n]];
      r := Insert(r, s[n], leq);
    }
    assert s[..|s|] == s;
  }

  /** The elements of a set, in some order. */
  method Elements<T(==)>(s: set<T>) returns (r: seq<T>)
    ensures Distinct(r) && forall x :: x in r <==> x in s
  {
    r := [];
    var rest := s;
    while rest != {}
      invariant rest <= s && Distinct(r)
      invariant forall x :: x in r <==> x in s - rest
      decreases |rest|
    {
      var x :| x in rest;
      assert x !in r;
      r := r + [x];
      rest := rest - {x};
    }
  }

  lemma {:induction false} DistinctMultiset<T>(s: seq<T>)
    requires Distinct(s)
    ensures forall x :: x in s ==> multiset(s)[x] == 1
  {
    if s == [] {
    } else {
      var n := |s| - 1;
      DistinctMultiset(s[..n]);
      assert s == s[..n] + [s[n]];
      assert s[n] !in s[..n];
      assert s[n] !in multiset(s[..n]);
    }
  }

  lemma {:induction false} MultisetDistinct<T>(s: seq<T>)
    requires forall x :: multiset(s)[x] <= 1
    ensures Distinct(s)
  {
    if s == [] {
    } else {
      var n := |s| - 1;
      assert s == s[..n] + [s[n]];
      assert forall x :: multiset(s)[x] == multiset(s[..n])[x] + (if x == s[n] then 1 else 0);
      MultisetDistinct(s[..n]);
      assert s[n] !in s[..n];
    }
  }

  /** A reordering of distinct elements keeps them distinct, and keeps which ones they are. */
  lemma PermutationKeepsDistinct<T>(s: seq<T>, r: seq<T>)
    requires Distinct(s) && multiset(r) == multiset(s)
    ensures Distinct(r) && forall x :: x in r <==> x in s
  {
    DistinctMultiset(s);
    forall x ensures multiset(s)[x] <= 1 { if x in multiset(s) { assert x in s; } }
    MultisetDistinct(r);
    assert forall x :: x in r <==> x in multiset(r);
    assert forall x :: x in s <==> x in multiset(s);
  }
}
