/** Counting the elements of a sequence that satisfy a predicate. */
module Counting {

  function One(b: bool): nat {
    if b then 1 else 0
  }

  function Count<T>(s: seq<T>, p: T -> bool): (n: nat)
    ensures n <= |s|
  {
    if s == [] then 0 else One(p(s[0])) + Count(s[1..], p)
  }

  lemma {:induction false} CountUpdate<T>(s: seq<T>, p: T -> bool, i: nat, x: T)
    requires i < |s|
    ensures Count(s[i := x], p) + One(p(s[i])) == Count(s, p) + One(p(x))
  {
    if i == 0 {
      assert s[i := x][1..] == s[1..];
    } else {
      assert s[i := x][1..] == s[1..][i - 1 := x];
      CountUpdate(s[1..], p, i - 1, x);
    }
  }

  lemma {:induction false} CountAppend<T>(s: seq<T>, t: seq<T>, p: T -> bool)
    ensures Count(s + t, p) == Count(s, p) + Count(t, p)
  {
    if s == [] {
      assert s + t == t;
    } else {
      assert (s + t)[1..] == s[1..] + t;
      CountAppend(s[1..], t, p);
    }
  }

  lemma {:induction false} CountZero<T>(s: seq<T>, p: T -> bool)
    ensures Count(s, p) == 0 <==> forall i :: 0 <= i < |s| ==> !p(s[i])
  {
    if s != [] {
      CountZero(s[1..], p);
      assert forall i :: 1 <= i < |s| ==> s[i] == s[1..][i - 1];
    }
  }

  lemma {:induction false} CountFull<T>(s: seq<T>, p: T -> bool)
    ensures Count(s, p) == |s| <==> forall i :: 0 <= i < |s| ==> p(s[i])
  {
    if s != [] {
      CountFull(s[1..], p);
      assert forall i :: 1 <= i < |s| ==> s[i] == s[1..][i - 1];
    }
  }

  ghost predicate Distinct<T>(s: seq<T>) {
    forall i, j :: 0 <= i < j < |s| ==> s[i] != s[j]
  }

  /** Distinct elements of `t` are at most as many as `t` has. */
  lemma {:induction false} DistinctWithin<T>(s: seq<T>, t: seq<T>)
    requires Distinct(s) && forall k :: 0 <= k < |s| ==> s[k] in t
    ensures |s| <= |t|
  {
    if s != [] {
      var k :| 0 <= k < |t| && t[k] == s[0];
      var t' := t[..k] + t[k + 1..];
      forall i | 0 <= i < |s[1..]|
        ensures s[1..][i] in t'
      {
        var m :| 0 <= m < |t| && t[m] == s[i + 1];
        assert t[m] == if m < k then t'[m] else t'[m - 1];
      }
      DistinctWithin(s[1..], t');
    }
  }

  /** Distinct numbers below `n` are at most `n` many. */
  lemma DistinctBelow(s: seq<nat>, n: nat)
    requires Distinct(s) && forall k :: 0 <= k < |s| ==> s[k] < n
    ensures |s| <= n
  {
    var all := seq(n, (i: nat) => i);
    assert forall k :: 0 <= k < |s| ==> all[s[k]] == s[k];
    DistinctWithin(s, all);
  }

  /** A stretch of elements that all satisfy the predicate is a lower bound. */
  lemma CountStretch<T>(s: seq<T>, p: T -> bool, lo: nat, hi: nat)
    requires lo <= hi <= |s| && forall i :: lo <= i < hi ==> p(s[i])
    ensures Count(s, p) >= hi - lo
  {
    assert s == s[..lo] + s[lo..hi] + s[hi..];
    CountAppend(s[..lo] + s[lo..hi], s[hi..], p);
    CountAppend(s[..lo], s[lo..hi], p);
    CountFull(s[lo..hi], p);
  }

  /** Counting does not depend on the order. */
  lemma {:induction false} CountPermutation<T>(s: seq<T>, t: seq<T>, p: T -> bool)
    requires multiset(s) == multiset(t)
    ensures Count(s, p) == Count(t, p)
  {
    if s == [] {
      EmptyPermutation(t);
    } else {
      var u, v := Pick(s, t);
      CountPermutation(s[1..], u + v, p);
      CountAppend(u, [s[0]] + v, p);
      CountAppend(u, v, p);
      assert ([s[0]] + v)[1..] == v;
    }
  }

  lemma Without<T>(s: seq<T>, t: seq<T>, k: nat)
    requires s != [] && k < |t| && t[k] == s[0] && multiset(s) == multiset(t)
    ensures multiset(s[1..]) == multiset(t[..k] + t[k + 1..])
  {
    assert s == [s[0]] + s[1..];
    assert t == t[..k] + [t[k]] + t[k + 1..];
    assert multiset(s) == multiset{s[0]} + multiset(s[1..]);
    assert multiset(t) == multiset(t[..k]) + multiset{t[k]} + multiset(t[k + 1..]);
    assert multiset(s[1..]) == multiset(s) - multiset{s[0]};
    assert multiset(t[..k] + t[k + 1..]) == multiset(t) - multiset{t[k]};
  }

  /** Where the first element of a sequence stands in a permutation of it. */
  lemma Pick<T>(s: seq<T>, t: seq<T>) returns (u: seq<T>, v: seq<T>)
    requires s != [] && multiset(s) == multiset(t)
    ensures t == u + ([s[0]] + v) && multiset(s[1..]) == multiset(u + v)
  {
    assert s[0] in multiset(t);
    var k :| 0 <= k < |t| && t[k] == s[0];
    Without(s, t, k);
    u, v := t[..k], t[k + 1..];
  }

  lemma EmptyPermutation<T>(t: seq<T>)
    requires multiset(t) == multiset([])
    ensures t == []
  {
    assert |multiset(t)| == 0;
  }

  function MapSeq<T, U>(s: seq<T>, f: T -> U): (r: seq<U>)
    ensures |r| == |s| && forall i :: 0 <= i < |s| ==> r[i] == f(s[i])
  {
    seq(|s|, i requires 0 <= i < |s| => f(s[i]))
  }

  /** Mapping a permutation gives a permutation. */
  lemma {:induction false} MapPermutation<T, U>(s: seq<T>, t: seq<T>, f: T -> U)
    requires multiset(s) == multiset(t)
    ensures multiset(MapSeq(s, f)) == multiset(MapSeq(t, f))
  {
    if s == [] {
      EmptyPermutation(t);
    } else {
      var u, v := Pick(s, t);
      MapPermutation(s[1..], u + v, f);
      var x, a, b := [f(s[0])], MapSeq(u, f), MapSeq(v, f);
      assert MapSeq(s, f) == x + MapSeq(s[1..], f);
      assert MapSeq(t, f) == a + (x + b) && MapSeq(u + v, f) == a + b;
      Shuffle(a, x, b);
    }
  }

  lemma Shuffle<T>(a: seq<T>, x: seq<T>, b: seq<T>)
    ensures multiset(a + (x + b)) == multiset(x) + multiset(a + b)
  {
    assert multiset(a + (x + b)) == multiset(a) + multiset(x) + multiset(b);
  }

  /** Distinctness does not depend on the order. */
  lemma DistinctPermutation<T>(s: seq<T>, t: seq<T>)
    requires Distinct(s) && multiset(s) == multiset(t)
    ensures Distinct(t)
  {
    forall i, j | 0 <= i < j < |t|
      ensures t[i] != t[j]
    {
      if t[i] == t[j] {
        var x := t[i];
        assert t == t[..i] + [x] + t[i + 1..j] + [x] + t[j + 1..];
        assert multiset(t)[x] >= 2;
        OnceOnly(s, x);
      }
    }
  }

  lemma {:induction false} OnceOnly<T>(s: seq<T>, x: T)
    requires Distinct(s)
    ensures multiset(s)[x] <= 1
  {
    if s != [] {
      assert s == [s[0]] + s[1..];
      OnceOnly(s[1..], x);
      if s[0] == x {
        assert x !in s[1..];
        assert x !in multiset(s[1..]);
      }
    }
  }
}
