/** The sorted list of a set, `sorted(set(values))`: duplicates go, the order is fixed. */
module SortedSets {

  ghost predicate TotalOrder<T(!new)>(less: (T, T) -> bool) {
    && (forall a :: !less(a, a))
    && (forall a, b, c :: less(a, b) && less(b, c) ==> less(a, c))
    && (forall a, b :: less(a, b) || a == b || less(b, a))
  }

  ghost predicate Increasing<T>(s: seq<T>, less: (T, T) -> bool) {
    forall i, j :: 0 <= i < j < |s| ==> less(s[i], s[j])
  }

  function Insert<T(==)>(x: T, s: seq<T>, less: (T, T) -> bool): seq<T> {
    if s == [] then [x]
    else if x == s[0] then s
    else if less(x, s[0]) then [x] + s
    else [s[0]] + Insert(x, s[1..], less)
  }

  function SortedSet<T(==)>(s: seq<T>, less: (T, T) -> bool): seq<T> {
    if s == [] then [] else Insert(s[0], SortedSet(s[1..], less), less)
  }

  lemma {:induction false} InsertAdds<T>(x: T, s: seq<T>, less: (T, T) -> bool, y: T)
    ensures y in Insert(x, s, less) <==> y == x || y in s
  {
    if s != [] && x != s[0] && !less(x, s[0]) {
      InsertAdds(x, s[1..], less, y);
    }
  }

  lemma Prepend<T>(x: T, s: seq<T>, less: (T, T) -> bool)
    requires Increasing(s, less) && forall y :: y in s ==> less(x, y)
    ensures Increasing([x] + s, less)
  {
    var r := [x] + s;
    forall i, j | 0 <= i < j < |r|
      ensures less(r[i], r[j])
    {
      assert r[j] == s[j - 1];
      assert i > 0 ==> r[i] == s[i - 1];
    }
  }

  lemma Head<T(!new)>(s: seq<T>, less: (T, T) -> bool, y: T)
    requires TotalOrder(less) && s != [] && Increasing(s, less)
    ensures Increasing(s[1..], less)
    ensures y in s <==> y == s[0] || y in s[1..]
    ensures y in s[1..] ==> less(s[0], y)
    ensures s[0] !in s[1..]
  {
    if y in s[1..] {
      var k :| 0 <= k < |s[1..]| && s[1..][k] == y;
      assert s[k + 1] == y;
    }
  }

  lemma Smallest<T(!new)>(x: T, s: seq<T>, less: (T, T) -> bool)
    requires TotalOrder(less) && s != [] && Increasing(s, less) && less(x, s[0])
    ensures forall y :: y in s ==> less(x, y)
  {
    forall y | y in s
      ensures less(x, y)
    {
      Head(s, less, y);
    }
  }

  lemma {:induction false} InsertIncreases<T(!new)>(x: T, s: seq<T>, less: (T, T) -> bool)
    requires TotalOrder(less) && Increasing(s, less)
    ensures Increasing(Insert(x, s, less), less)
  {
    if s == [] || x == s[0] {
    } else if less(x, s[0]) {
      Smallest(x, s, less);
      Prepend(x, s, less);
    } else {
      Head(s, less, x);
      InsertIncreases(x, s[1..], less);
      var r := Insert(x, s[1..], less);
      forall y | y in r
        ensures less(s[0], y)
      {
        InsertAdds(x, s[1..], less, y);
        Head(s, less, y);
      }
      Prepend(s[0], r, less);
    }
  }

  lemma {:induction false} SortedSetHas<T>(s: seq<T>, less: (T, T) -> bool, y: T)
    ensures y in SortedSet(s, less) <==> y in s
  {
    if s != [] {
      SortedSetHas(s[1..], less, y);
      InsertAdds(s[0], SortedSet(s[1..], less), less, y);
      assert s == [s[0]] + s[1..];
    }
  }

  lemma {:induction false} SortedSetIncreases<T(!new)>(s: seq<T>, less: (T, T) -> bool)
    requires TotalOrder(less)
    ensures Increasing(SortedSet(s, less), less)
  {
    if s != [] {
      SortedSetIncreases(s[1..], less);
      InsertIncreases(s[0], SortedSet(s[1..], less), less);
    }
  }

  lemma SameHead<T(!new)>(a: seq<T>, b: seq<T>, less: (T, T) -> bool)
    requires TotalOrder(less) && Increasing(a, less) && Increasing(b, less) && a != [] && b != []
    requires forall y :: y in a <==> y in b
    ensures a[0] == b[0]
  {
    assert a[0] in b && b[0] in a;
    Head(b, less, a[0]);
    Head(a, less, b[0]);
  }

  lemma {:induction false} IncreasingUnique<T(!new)>(a: seq<T>, b: seq<T>, less: (T, T) -> bool)
    requires TotalOrder(less) && Increasing(a, less) && Increasing(b, less)
    requires forall y :: y in a <==> y in b
    ensures a == b
  {
    assert a != [] ==> a[0] in a;
    assert b != [] ==> b[0] in b;
    if a != [] {
      SameHead(a, b, less);
      forall y
        ensures y in a[1..] <==> y in b[1..]
      {
        Head(a, less, y);
        Head(b, less, y);
      }
      Head(a, less, a[0]);
      Head(b, less, b[0]);
      IncreasingUnique(a[1..], b[1..], less);
      assert a == [a[0]] + a[1..] && b == [b[0]] + b[1..];
    }
  }

  /** The sorted list depends on the set of the values only. */
  lemma SameSet<T(!new)>(s: seq<T>, t: seq<T>, less: (T, T) -> bool)
    requires TotalOrder(less) && forall y :: y in s <==> y in t
    ensures SortedSet(s, less) == SortedSet(t, less)
  {
    SortedSetIncreases(s, less);
    SortedSetIncreases(t, less);
    forall y
      ensures y in SortedSet(s, less) <==> y in SortedSet(t, less)
    {
      SortedSetHas(s, less, y);
      SortedSetHas(t, less, y);
    }
    IncreasingUnique(SortedSet(s, less), SortedSet(t, less), less);
  }

  // ----- Strings

  /** The order of strings by their first different character. */
  predicate StringLess(a: string, b: string) {
    if b == [] then false
    else if a == [] then true
    else if a[0] != b[0] then a[0] < b[0]
    else StringLess(a[1..], b[1..])
  }

  lemma {:induction false} StringIrreflexive(a: string)
    ensures !StringLess(a, a)
  {
    if a != [] {
      StringIrreflexive(a[1..]);
    }
  }

  lemma {:induction false} StringTransitive(a: string, b: string, c: string)
    requires StringLess(a, b) && StringLess(b, c)
    ensures StringLess(a, c)
  {
    if a != [] && a[0] == b[0] && b[0] == c[0] {
      StringTransitive(a[1..], b[1..], c[1..]);
    }
  }

  lemma {:induction false} StringTotal(a: string, b: string)
    ensures StringLess(a, b) || a == b || StringLess(b, a)
  {
    if a != [] && b != [] && a[0] == b[0] {
      StringTotal(a[1..], b[1..]);
      assert a == [a[0]] + a[1..] && b == [b[0]] + b[1..];
    }
  }

  const STRING_ORDER: (string, string) -> bool := (a, b) => StringLess(a, b)

  lemma StringsOrdered()
    ensures TotalOrder(STRING_ORDER)
  {
    forall a: string, b: string, c: string
      ensures !STRING_ORDER(a, a)
      ensures STRING_ORDER(a, b) && STRING_ORDER(b, c) ==> STRING_ORDER(a, c)
      ensures STRING_ORDER(a, b) || a == b || STRING_ORDER(b, a)
    {
      StringIrreflexive(a);
      StringTotal(a, b);
      if StringLess(a, b) && StringLess(b, c) {
        StringTransitive(a, b, c);
      }
    }
  }
}
