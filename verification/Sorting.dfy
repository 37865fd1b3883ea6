/**
 sort.Slice as its callers may rely on it: some permutation in which nothing stands before
 something less.  Which one is not promised when elements compare equal.
 */
module Sorting {

  /** A strict weak order. */
  ghost predicate Order<T(!new)>(lt: (T, T) -> bool) {
    && (forall x, y :: lt(x, y) ==> !lt(y, x))
    && (forall x, y, z :: lt(x, z) ==> lt(x, y) || lt(y, z))
  }

  ghost predicate Sorted<T>(s: seq<T>, lt: (T, T) -> bool) {
    forall i, j :: 0 <= i < j < |s| ==> !lt(s[j], s[i])
  }

  ghost predicate StrictlySorted<T>(s: seq<T>, lt: (T, T) -> bool) {
    forall i, j :: 0 <= i < j < |s| ==> lt(s[i], s[j])
  }

  method Insert<T(!new)>(s: seq<T>, x: T, lt: (T, T) -> bool) returns (r: seq<T>)
    requires Order(lt) && Sorted(s, lt)
    ensures Sorted(r, lt) && multiset(r) == multiset(s) + multiset{x}
  {
    var k := |s|;
    while k > 0 && lt(x, s[k - 1])
      invariant 0 <= k <= |s|
      invariant forall i :: k <= i < |s| ==> lt(x, s[i])
    {
      k := k - 1;
    }
    r := s[..k] + [x] + s[k..];
    InsertedSorted(s, x, k, lt);
    assert s == s[..k] + s[k..];
  }

  lemma InsertedSorted<T(!new)>(s: seq<T>, x: T, k: nat, lt: (T, T) -> bool)
    requires Order(lt) && Sorted(s, lt) && k <= |s|
    requires k > 0 ==> !lt(x, s[k - 1])
    requires forall i :: k <= i < |s| ==> lt(x, s[i])
    ensures Sorted(s[..k] + [x] + s[k..], lt)
  {
    forall i | 0 <= i < k ensures !lt(x, s[i]) {
      if i < k - 1 {
        assert !lt(s[k - 1], s[i]);
      }
    }
    var r := s[..k] + [x] + s[k..];
    forall i, j | 0 <= i < j < |r| ensures !lt(r[j], r[i]) {
      assert i < k ==> r[i] == s[i];
      assert i > k ==> r[i] == s[i - 1];
      assert j < k ==> r[j] == s[j];
      assert j > k ==> r[j] == s[j - 1];
    }
  }

  method Sort<T(!new)>(s: seq<T>, lt: (T, T) -> bool) returns (r: seq<T>)
    requires Order(lt)
    ensures Sorted(r, lt) && multiset(r) == multiset(s)
  {
    r := [];
    for i := 0 to |s|
      invariant Sorted(r, lt) && multiset(r) == multiset(s[..i])
    {
      r := Insert(r, s[i], lt);
      assert s[..i + 1] == s[..i] + [s[i]];
    }
    assert s[..|s|] == s;
  }

  lemma SameElements<T>(a: seq<T>, b: seq<T>)
    requires multiset(a) == multiset(b)
    ensures |a| == |b| && forall x :: x in a <==> x in b
  {
    assert |multiset(a)| == |a| && |multiset(b)| == |b|;
    forall x ensures x in a <==> x in b {
      assert x in a <==> x in multiset(a);
      assert x in b <==> x in multiset(b);
    }
  }

  lemma RemoveOne<T>(s: seq<T>, i: nat)
    requires i < |s|
    ensures multiset(s) == multiset(s[..i] + s[i + 1..]) + multiset{s[i]}
  {
    assert s == s[..i] + [s[i]] + s[i + 1..];
  }

  /** Permutations stay permutations when the same element is taken out of both. */
  lemma RemoveSame<T>(a: seq<T>, i: nat, b: seq<T>, j: nat)
    requires i < |a| && j < |b| && a[i] == b[j] && multiset(a) == multiset(b)
    ensures multiset(a[..i] + a[i + 1..]) == multiset(b[..j] + b[j + 1..])
  {
    RemoveOne(a, i);
    RemoveOne(b, j);
    var m, n, x := multiset(a[..i] + a[i + 1..]), multiset(b[..j] + b[j + 1..]), multiset{a[i]};
    assert m == (m + x) - x && n == (n + x) - x;
  }

  /** A strictly sorted list is determined by its elements. */
  lemma {:induction false} StrictlySortedUnique<T(!new)>(a: seq<T>, b: seq<T>, lt: (T, T) -> bool)
    requires forall x, y :: lt(x, y) ==> !lt(y, x)
    requires StrictlySorted(a, lt) && StrictlySorted(b, lt)
    requires forall x :: x in a <==> x in b
    ensures a == b
  {
    assert b != [] ==> b[0] in a;
    if a == [] {
    } else {
      assert a[0] in b;
      LastAgree(a, b, lt);
      var m, n := |a| - 1, |b| - 1;
      forall x ensures x in a[..m] <==> x in b[..n] {
        LastLeavesNoCopy(a, lt, x);
        LastLeavesNoCopy(b, lt, x);
      }
      StrictlySortedUnique(a[..m], b[..n], lt);
      assert a == a[..m] + [a[m]] && b == b[..n] + [b[n]];
    }
  }

  lemma LastAgree<T(!new)>(a: seq<T>, b: seq<T>, lt: (T, T) -> bool)
    requires forall x, y :: lt(x, y) ==> !lt(y, x)
    requires StrictlySorted(a, lt) && StrictlySorted(b, lt) && a != [] && b != []
    requires forall x :: x in a <==> x in b
    ensures a[|a| - 1] == b[|b| - 1]
  {
    assert a[|a| - 1] in b && b[|b| - 1] in a;
    var i :| 0 <= i < |b| && b[i] == a[|a| - 1];
    var j :| 0 <= j < |a| && a[j] == b[|b| - 1];
  }

  lemma LastLeavesNoCopy<T(!new)>(a: seq<T>, lt: (T, T) -> bool, x: T)
    requires forall x, y :: lt(x, y) ==> !lt(y, x)
    requires StrictlySorted(a, lt) && a != []
    ensures x in a[..|a| - 1] <==> x in a && x != a[|a| - 1]
  {
    if x in a[..|a| - 1] {
      var i :| 0 <= i < |a| - 1 && a[i] == x;
      assert lt(a[i], a[|a| - 1]);
    }
  }

  /** No two entries compare equal. */
  ghost predicate Apart<T>(s: seq<T>, lt: (T, T) -> bool) {
    forall i, j :: 0 <= i < j < |s| ==> lt(s[i], s[j]) || lt(s[j], s[i])
  }

  lemma ApartAt<T(!new)>(s: seq<T>, lt: (T, T) -> bool, i: nat, j: nat)
    requires Order(lt) && Apart(s, lt) && i < |s| && j < |s| && i != j
    ensures lt(s[i], s[j]) || lt(s[j], s[i])
    ensures s[i] != s[j]
  {
  }

  lemma {:induction false} ApartOnce<T(!new)>(s: seq<T>, lt: (T, T) -> bool, x: T)
    requires Order(lt) && Apart(s, lt)
    ensures multiset(s)[x] <= 1
  {
    if s == [] {
    } else {
      var n := |s| - 1;
      ApartOnce(s[..n], lt, x);
      assert s == s[..n] + [s[n]];
      forall i | 0 <= i < n ensures s[i] != s[n] {
        ApartAt(s, lt, i, n);
      }
    }
  }

  lemma Twice<T>(s: seq<T>, i: nat, j: nat)
    requires i < j < |s|
    ensures s[i] == s[j] ==> multiset(s)[s[i]] >= 2
  {
    assert s == (s[..j] + [s[j]]) + s[j + 1..];
    assert s[..j][i] in multiset(s[..j]);
  }

  /** Sorting entries that are all apart leaves no freedom: the result is strictly sorted. */
  lemma SortedApartIsStrict<T(!new)>(s: seq<T>, r: seq<T>, lt: (T, T) -> bool)
    requires Order(lt) && Apart(s, lt) && Sorted(r, lt) && multiset(r) == multiset(s)
    ensures StrictlySorted(r, lt)
  {
    SameElements(r, s);
    forall i, j | 0 <= i < j < |r| ensures lt(r[i], r[j]) {
      ApartOnce(s, lt, r[i]);
      Twice(r, i, j);
      assert r[i] in s && r[j] in s;
      var k :| 0 <= k < |s| && s[k] == r[i];
      var l :| 0 <= l < |s| && s[l] == r[j];
      ApartAt(s, lt, k, l);
    }
  }

  // ---------------------------------------------------------------- strings, byte by byte

  predicate StringLess(a: string, b: string) {
    b != [] && (a == [] || a[0] < b[0] || (a[0] == b[0] && StringLess(a[1..], b[1..])))
  }

  /** Byte order: a proper prefix comes first, else the first difference decides. */
  lemma {:induction false} StringLessIff(a: string, b: string)
    ensures StringLess(a, b) <==>
            exists k :: && 0 <= k <= |a| && k < |b| && a[..k] == b[..k]
                        && (k == |a| || a[k] < b[k])
  {
    if a == [] || b == [] {
      assert b != [] ==> a[..0] == b[..0];
    } else {
      var s, t := a[1..], b[1..];
      StringLessIff(s, t);
      if k :| 0 <= k <= |s| && k < |t| && s[..k] == t[..k] && (k == |s| || s[k] < t[k]) && a[0] == b[0] {
        assert a[..k + 1] == [a[0]] + s[..k] && b[..k + 1] == [b[0]] + t[..k];
      }
      if k :| 1 <= k <= |a| && k < |b| && a[..k] == b[..k] && (k == |a| || a[k] < b[k]) {
        assert s[..k - 1] == a[..k][1..] && t[..k - 1] == b[..k][1..];
        assert a[0] == a[..k][0] && b[0] == b[..k][0];
      }
      assert a[0] < b[0] ==> a[..0] == b[..0];
    }
  }

  lemma {:induction false} StringLessTotal(a: string, b: string)
    ensures StringLess(a, b) ==> !StringLess(b, a)
    ensures a == b <==> !StringLess(a, b) && !StringLess(b, a)
  {
    if a == [] || b == [] {
    } else {
      StringLessTotal(a[1..], b[1..]);
      assert a == [a[0]] + a[1..] && b == [b[0]] + b[1..];
    }
  }

  lemma {:induction false} StringLessSplits(a: string, b: string, c: string)
    requires StringLess(a, c)
    ensures StringLess(a, b) || StringLess(b, c)
  {
    if a == [] || b == [] || a[0] != c[0] || a[0] != b[0] {
    } else {
      StringLessSplits(a[1..], b[1..], c[1..]);
    }
  }

  function ByKey<T>(key: T -> string): (T, T) -> bool {
    (x, y) => StringLess(key(x), key(y))
  }

  /** Comparing by a string key is a strict weak order, and distinguishes different keys. */
  lemma OrderByKey<T(!new)>(key: T -> string)
    ensures Order(ByKey(key))
    ensures forall x, y :: key(x) != key(y) <==> ByKey(key)(x, y) || ByKey(key)(y, x)
  {
    forall x, y
      ensures StringLess(key(x), key(y)) ==> !StringLess(key(y), key(x))
      ensures key(x) != key(y) <==> StringLess(key(x), key(y)) || StringLess(key(y), key(x))
    {
      StringLessTotal(key(x), key(y));
    }
    forall x, y, z | StringLess(key(x), key(z)) ensures StringLess(key(x), key(y)) || StringLess(key(y), key(z)) {
      StringLessSplits(key(x), key(y), key(z));
    }
  }
}
