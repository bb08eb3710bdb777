/** What sort.Slice promises its callers, and why the order it starts from cannot show in the result. */
module Sorting {

  ghost predicate StrictOrder<T(!new)>(less: (T, T) -> bool) {
    && (forall a :: !less(a, a))
    && (forall a, b, c :: less(a, b) && less(b, c) ==> less(a, c))
  }

  ghost predicate Ascending<T>(less: (T, T) -> bool, s: seq<T>) {
    forall i, j | 0 <= i < j < |s| :: !less(s[j], s[i])
  }

  lemma InsertedAscends<T(!new)>(less: (T, T) -> bool, s: seq<T>, x: T, at: nat, t: seq<T>)
    requires StrictOrder(less) && Ascending(less, s) && at <= |s|
    requires forall k | 0 <= k < at :: !less(x, s[k])
    requires at < |s| ==> less(x, s[at])
    requires |t| == |s| + 1 && t[at] == x
    requires (forall k | 0 <= k < at :: t[k] == s[k]) && forall k | at < k < |t| :: t[k] == s[k - 1]
    ensures Ascending(less, t)
  {
    forall i, j | 0 <= i < j < |t| ensures !less(t[j], t[i]) {
      if i == at {
        assert at < |s| && (j - 1 > at ==> !less(s[j - 1], s[at]));
      } else if j != at {
        assert !less(s[if j < at then j else j - 1], s[if i < at then i else i - 1]);
      }
    }
  }

  lemma InsertedMultiset<T>(s: seq<T>, x: T, at: nat)
    requires at <= |s|
    ensures multiset(s[..at] + [x] + s[at..]) == multiset(s) + multiset{x}
  {
    assert s == s[..at] + s[at..];
  }

  /** sort.Slice: an ascending rearrangement; elements neither of which is less may come in any order. */
  method SortSlice<T(!new)>(s: seq<T>, less: (T, T) -> bool) returns (sorted: seq<T>)
    requires StrictOrder(less)
    ensures Ascending(less, sorted)
    ensures multiset(sorted) == multiset(s)
  {
    sorted := [];
    for i := 0 to |s|
      invariant Ascending(less, sorted) && multiset(sorted) == multiset(s[..i])
    {
      var at := 0;
      while at < |sorted| && !less(s[i], sorted[at])
        invariant at <= |sorted| && forall k | 0 <= k < at :: !less(s[i], sorted[k])
      {
        at := at + 1;
      }
      var inserted := sorted[..at] + [s[i]] + sorted[at..];
      InsertedAscends(less, sorted, s[i], at, inserted);
      InsertedMultiset(sorted, s[i], at);
      sorted := inserted;
      assert s[..i + 1] == s[..i] + [s[i]];
    }
    assert s[..|s|] == s;
  }

  /** Of any two of the elements, one is less or they are the same. */
  ghost predicate Separates<T>(less: (T, T) -> bool, elements: multiset<T>) {
    forall a, b | a in elements && b in elements && !less(a, b) && !less(b, a) :: a == b
  }

  lemma SameFirst<T(!new)>(less: (T, T) -> bool, s: seq<T>, t: seq<T>)
    requires Ascending(less, s) && Ascending(less, t) && multiset(s) == multiset(t) && s != [] && t != []
    requires StrictOrder(less) && Separates(less, multiset(s))
    ensures s[0] == t[0]
  {
    assert s[0] in multiset(t) && t[0] in multiset(s);
    var i :| 0 <= i < |t| && t[i] == s[0];
    var j :| 0 <= j < |s| && s[j] == t[0];
    assert i > 0 ==> !less(t[i], t[0]);
    assert j > 0 ==> !less(s[j], s[0]);
  }

  lemma Tail<T(!new)>(less: (T, T) -> bool, s: seq<T>)
    requires Ascending(less, s) && Separates(less, multiset(s)) && s != []
    ensures Ascending(less, s[1..]) && Separates(less, multiset(s[1..]))
    ensures multiset(s[1..]) == multiset(s) - multiset{s[0]}
  {
    assert s == [s[0]] + s[1..];
  }

  /** Two ascending arrangements of the same elements are the same, where the order tells all of them apart. */
  lemma {:induction false} AscendingIsUnique<T(!new)>(less: (T, T) -> bool, s: seq<T>, t: seq<T>)
    requires StrictOrder(less) && Ascending(less, s) && Ascending(less, t) && multiset(s) == multiset(t)
    requires Separates(less, multiset(s))
    ensures s == t
  {
    hide StrictOrder, Ascending, Separates;
    SameLength(s, t);
    if s != [] {
      SameFirst(less, s, t);
      Tail(less, s);
      Tail(less, t);
      AscendingIsUnique(less, s[1..], t[1..]);
      Rejoin(s, t);
    }
  }

  lemma SameLength<T>(s: seq<T>, t: seq<T>)
    requires multiset(s) == multiset(t)
    ensures |s| == |t|
  {
    assert |multiset(s)| == |s| && |multiset(t)| == |t|;
  }

  lemma Rejoin<T>(s: seq<T>, t: seq<T>)
    requires s != [] && t != [] && s[0] == t[0] && s[1..] == t[1..]
    ensures s == t
  {
    assert s == [s[0]] + s[1..] && t == [t[0]] + t[1..];
  }

  // ---- rearrangements of mapped elements ----

  ghost function Mapped<T, U>(f: T -> U, s: seq<T>): (t: seq<U>)
    ensures |t| == |s|
  {
    if s == [] then [] else Mapped(f, s[..|s| - 1]) + [f(s[|s| - 1])]
  }

  lemma MappedLast<T, U>(f: T -> U, s: seq<T>, i: nat)
    requires i < |s|
    ensures Mapped(f, s[..i + 1]) == Mapped(f, s[..i]) + [f(s[i])]
  {
    assert s[..i + 1][..i] == s[..i];
  }

  lemma {:induction false} MappedMember<T, U>(f: T -> U, s: seq<T>, y: U)
    requires y in Mapped(f, s)
    ensures exists x | x in s :: f(x) == y
  {
    var n := |s| - 1;
    if y == f(s[n]) {
      assert s[n] in s;
    } else {
      MappedMember(f, s[..n], y);
      var x :| x in s[..n] && f(x) == y;
      assert x in s;
    }
  }

  lemma MappedFront<T, U>(f: T -> U, s: seq<T>)
    requires s != []
    ensures multiset(Mapped(f, s)) == multiset(Mapped(f, s[..|s| - 1])) + multiset{f(s[|s| - 1])}
  {
  }

  ghost function Without<T>(s: seq<T>, k: nat): (t: seq<T>)
    requires k < |s|
    ensures |t| == |s| - 1
  {
    s[..k] + s[k + 1..]
  }

  lemma WithoutFront<T>(s: seq<T>, k: nat)
    requires k < |s| - 1
    ensures Without(s, k)[..|s| - 2] == Without(s[..|s| - 1], k)
    ensures Without(s, k)[|s| - 2] == s[|s| - 1]
  {
  }

  lemma {:induction false} MappedWithout<T, U>(f: T -> U, s: seq<T>, k: nat)
    requires k < |s|
    ensures multiset(Mapped(f, Without(s, k))) == multiset(Mapped(f, s)) - multiset{f(s[k])}
    ensures f(s[k]) in multiset(Mapped(f, s))
    decreases |s|
  {
    hide Mapped, Without;
    var n := |s| - 1;
    MappedFront(f, s);
    if k < n {
      MappedWithout(f, s[..n], k);
      WithoutFront(s, k);
      MappedFront(f, Without(s, k));
      TakeThenAdd(multiset(Mapped(f, s[..n])), f(s[k]), f(s[n]));
    } else {
      WithoutLast(s);
    }
  }

  lemma TakeThenAdd<T>(m: multiset<T>, taken: T, added: T)
    requires taken in m
    ensures m - multiset{taken} + multiset{added} == m + multiset{added} - multiset{taken}
  {
  }

  lemma WithoutLast<T>(s: seq<T>)
    requires s != []
    ensures Without(s, |s| - 1) == s[..|s| - 1]
  {
  }

  lemma WithoutMultiset<T>(s: seq<T>, k: nat)
    requires k < |s|
    ensures multiset(Without(s, k)) == multiset(s) - multiset{s[k]} && s[k] in multiset(s)
  {
    assert s == s[..k] + [s[k]] + s[k + 1..];
  }

  lemma PutBack<T>(a: multiset<T>, b: multiset<T>, x: T)
    requires x in a && x in b && a - multiset{x} == b - multiset{x}
    ensures a == b
  {
    assert a == a - multiset{x} + multiset{x} && b == b - multiset{x} + multiset{x};
  }

  ghost predicate Injective<T(!new), U>(f: T -> U) {
    forall x, y | f(x) == f(y) :: x == y
  }

  lemma Source<T(!new), U>(f: T -> U, s: seq<T>, x: T) returns (k: nat)
    requires Injective(f) && f(x) in multiset(Mapped(f, s))
    ensures k < |s| && s[k] == x
  {
    MappedMember(f, s, f(x));
    k :| k < |s| && s[k] == x;
  }

  lemma Position<T>(s: seq<T>, x: T) returns (k: nat)
    requires x in multiset(s)
    ensures k < |s| && s[k] == x
  {
    k :| k < |s| && s[k] == x;
  }

  /** Rearranging before mapping rearranges after. */
  lemma {:induction false} MappedKeeps<T, U>(f: T -> U, a: seq<T>, b: seq<T>)
    requires multiset(a) == multiset(b)
    ensures multiset(Mapped(f, a)) == multiset(Mapped(f, b))
    decreases |a|
  {
    hide Without, Mapped;
    SameLength(a, b);
    if a != [] {
      WithoutMultiset(a, 0);
      var k := Position(b, a[0]);
      WithoutMultiset(b, k);
      MappedKeeps(f, Without(a, 0), Without(b, k));
      MappedWithout(f, a, 0);
      MappedWithout(f, b, k);
      PutBack(multiset(Mapped(f, a)), multiset(Mapped(f, b)), f(a[0]));
    } else {
      assert a == b;
    }
  }

  /** And, where the map loses nothing, only that does. */
  lemma {:induction false} MappedReflects<T(!new), U>(f: T -> U, a: seq<T>, b: seq<T>)
    requires multiset(Mapped(f, a)) == multiset(Mapped(f, b)) && Injective(f)
    ensures multiset(a) == multiset(b)
    decreases |a|
  {
    hide Without, Mapped, Injective;
    SameLength(Mapped(f, a), Mapped(f, b));
    if a != [] {
      MappedWithout(f, a, 0);
      var k := Source(f, b, a[0]);
      MappedWithout(f, b, k);
      MappedReflects(f, Without(a, 0), Without(b, k));
      WithoutMultiset(a, 0);
      WithoutMultiset(b, k);
      PutBack(multiset(a), multiset(b), a[0]);
    } else {
      assert a == b;
    }
  }
}
