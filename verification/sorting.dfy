/** A stable sort in descending order of a natural-number key: the
    behaviour of Java's `sorted(comparator.reversed())`, Kotlin's
    `sortedByDescending` and Python's `sort(key=…, reverse=True)`, all of
    which keep equal-key elements in their input order. */
module Sorting {
  import opened Text

  predicate NonIncreasing<T>(s: seq<T>, key: T -> nat)
  {
    forall i, j :: 0 <= i < j < |s| ==> key(s[j]) <= key(s[i])
  }

  /** Puts `x` in front of the first element whose key is not larger. */
  function Insert<T>(x: T, t: seq<T>, key: T -> nat): seq<T>
  {
    if t == [] || key(t[0]) <= key(x) then [x] + t else [t[0]] + Insert(x, t[1..], key)
  }

  lemma {:induction false} InsertPerm<T>(x: T, t: seq<T>, key: T -> nat)
    ensures multiset(Insert(x, t, key)) == multiset(t) + multiset{x}
  {
    if t != [] && key(x) < key(t[0]) {
      InsertPerm(x, t[1..], key);
      assert t == [t[0]] + t[1..];
    }
  }

  lemma {:induction false} InsertSorted<T>(x: T, t: seq<T>, key: T -> nat)
    requires NonIncreasing(t, key)
    ensures NonIncreasing(Insert(x, t, key), key)
  {
    if t == [] || key(t[0]) <= key(x) {
      ConsSorted(x, t, key);
    } else {
      var r' := Insert(x, t[1..], key);
      InsertSorted(x, t[1..], key);
      InsertPerm(x, t[1..], key);
      forall i | 0 <= i < |r'| ensures key(r'[i]) <= key(t[0]) {
        var y := r'[i];
        assert y in multiset(r');
        if y != x {
          assert y in multiset(t[1..]);
          var m :| 0 <= m < |t[1..]| && t[1..][m] == y;
          assert t[m + 1] == y;
        }
      }
      ConsSorted(t[0], r', key);
    }
  }

  /** An element at least as large as the head of a sorted sequence can go in front. */
  lemma ConsSorted<T>(x: T, t: seq<T>, key: T -> nat)
    requires NonIncreasing(t, key)
    requires forall i :: 0 <= i < |t| ==> key(t[i]) <= key(x)
    ensures NonIncreasing([x] + t, key)
  {
    var r := [x] + t;
    forall i, j | 0 <= i < j < |r| ensures key(r[j]) <= key(r[i]) {
      assert r[j] == t[j - 1];
      if i > 0 {
        assert r[i] == t[i - 1];
      }
    }
  }

  /** Stable insertion sort, descending by `key`. */
  function SortDesc<T>(s: seq<T>, key: T -> nat): seq<T>
  {
    if s == [] then [] else Insert(s[0], SortDesc(s[1..], key), key)
  }

  /** The sort orders by key and is a permutation of its input. */
  lemma {:induction false} SortDescSorted<T>(s: seq<T>, key: T -> nat)
    ensures NonIncreasing(SortDesc(s, key), key)
    ensures multiset(SortDesc(s, key)) == multiset(s)
  {
    if s != [] {
      assert s == [s[0]] + s[1..];
      SortDescSorted(s[1..], key);
      InsertSorted(s[0], SortDesc(s[1..], key), key);
      InsertPerm(s[0], SortDesc(s[1..], key), key);
    }
  }

  /** The elements of `s` whose key is `k`, in their order in `s`. */
  function WithKey<T>(s: seq<T>, key: T -> nat, k: nat): seq<T>
  {
    if s == [] then []
    else (if key(s[0]) == k then [s[0]] else []) + WithKey(s[1..], key, k)
  }

  lemma {:induction false} InsertWithKey<T>(x: T, t: seq<T>, key: T -> nat, k: nat)
    ensures WithKey(Insert(x, t, key), key, k) == (if key(x) == k then [x] else []) + WithKey(t, key, k)
  {
    if t == [] || key(t[0]) <= key(x) {
      assert ([x] + t)[1..] == t;
    } else {
      InsertWithKey(x, t[1..], key, k);
      var r := Insert(x, t, key);
      assert r[1..] == Insert(x, t[1..], key);
    }
  }

  /** Stability: among elements with equal keys the input order is kept. */
  lemma {:induction false} SortStable<T>(s: seq<T>, key: T -> nat, k: nat)
    ensures WithKey(SortDesc(s, key), key, k) == WithKey(s, key, k)
  {
    if s != [] {
      SortStable(s[1..], key, k);
      InsertWithKey(s[0], SortDesc(s[1..], key), key, k);
    }
  }

  /** Cutting a sequence short keeps, for every key, a prefix of that key's elements. */
  lemma {:induction false} WithKeyTake<T>(s: seq<T>, n: nat, key: T -> nat, k: nat)
    ensures IsPrefix(WithKey(Take(s, n), key, k), WithKey(s, key, k))
  {
    if s != [] && n > 0 && n < |s| {
      WithKeyTake(s[1..], n - 1, key, k);
      assert Take(s, n)[1..] == Take(s[1..], n - 1);
    }
  }

  lemma {:induction false} SortNoDup<T>(s: seq<T>, key: T -> nat)
    requires NoDup(s)
    ensures NoDup(SortDesc(s, key))
  {
    if s != [] {
      assert s == [s[0]] + s[1..];
      SortNoDup(s[1..], key);
      SortDescSorted(s[1..], key);
      assert s[0] !in multiset(SortDesc(s[1..], key));
      InsertNoDup(s[0], SortDesc(s[1..], key), key);
    }
  }

  lemma {:induction false} InsertNoDup<T>(x: T, t: seq<T>, key: T -> nat)
    requires NoDup(t) && x !in t
    ensures NoDup(Insert(x, t, key))
  {
    if t != [] && key(x) < key(t[0]) {
      InsertNoDup(x, t[1..], key);
      InsertPerm(x, t[1..], key);
      var r' := Insert(x, t[1..], key);
      assert t[0] !in multiset(t[1..]) + multiset{x};
      assert t[0] !in r';
    }
  }

  lemma {:induction false} WithKeyMember<T>(s: seq<T>, key: T -> nat, k: nat, x: T)
    ensures x in WithKey(s, key, k) <==> x in s && key(x) == k
  {
    if s != [] {
      WithKeyMember(s[1..], key, k, x);
      assert s == [s[0]] + s[1..];
    }
  }

  lemma {:induction false} WithKeyNoDup<T>(s: seq<T>, key: T -> nat, k: nat)
    requires NoDup(s)
    ensures NoDup(WithKey(s, key, k))
  {
    if s != [] {
      WithKeyNoDup(s[1..], key, k);
      WithKeyMember(s[1..], key, k, s[0]);
      assert s[0] !in s[1..];
    }
  }

  lemma {:induction false} WithKeyAppend<T>(s: seq<T>, x: T, key: T -> nat, k: nat)
    ensures WithKey(s + [x], key, k) == WithKey(s, key, k) + (if key(x) == k then [x] else [])
  {
    if s == [] {
      assert s + [x] == [x] && [x][1..] == [];
    } else {
      var t := s + [x];
      assert t[0] == s[0] && t[1..] == s[1..] + [x];
      WithKeyAppend(s[1..], x, key, k);
      assert WithKey(t, key, k) == (if key(s[0]) == k then [s[0]] else []) + WithKey(t[1..], key, k);
    }
  }

  /** The first `n` of a duplicate-free sequence sorted by key: as many as
      there are (up to `n`), distinct, drawn from it, by key descending, and
      nothing left out has a larger key than the last one kept. */
  lemma TopByKey<T>(order: seq<T>, key: T -> nat, n: nat)
    requires NoDup(order)
    ensures var r := Take(SortDesc(order, key), n);
      && |r| == Min(n, |order|)
      && NoDup(r)
      && (forall i :: 0 <= i < |r| ==> r[i] in order)
      && NonIncreasing(r, key)
      && (forall u :: u in order && u !in r ==> |r| == n && (n > 0 ==> key(u) <= key(r[n - 1])))
  {
    var s := SortDesc(order, key);
    SortDescSorted(order, key);
    SortNoDup(order, key);
    SortSameElements(order, key);
    TopOfSorted(order, s, key, n);
  }

  lemma SortSameElements<T>(order: seq<T>, key: T -> nat)
    ensures |SortDesc(order, key)| == |order|
    ensures forall x :: x in SortDesc(order, key) <==> x in order
  {
    var s := SortDesc(order, key);
    SortDescSorted(order, key);
    assert |multiset(s)| == |multiset(order)|;
    forall x ensures x in s <==> x in order {
      assert x in s <==> x in multiset(s);
      assert x in order <==> x in multiset(order);
    }
  }

  lemma TopOfSorted<T>(order: seq<T>, s: seq<T>, key: T -> nat, n: nat)
    requires |s| == |order| && NoDup(s) && NonIncreasing(s, key)
    requires forall x :: x in s <==> x in order
    ensures var r := Take(s, n);
      && |r| == Min(n, |order|)
      && NoDup(r)
      && (forall i :: 0 <= i < |r| ==> r[i] in order)
      && NonIncreasing(r, key)
      && (forall u :: u in order && u !in r ==> |r| == n && (n > 0 ==> key(u) <= key(r[n - 1])))
  {
    var r := Take(s, n);
    forall i | 0 <= i < |r| ensures r[i] in order {
      assert r[i] == s[i];
    }
    forall u | u in order && u !in r ensures |r| == n && (n > 0 ==> key(u) <= key(r[n - 1])) {
      var m :| 0 <= m < |s| && s[m] == u;
      assert |r| <= m;
    }
  }

  /** Insertion at a position split: everything before `k` has a larger key. */
  lemma {:induction false} InsertAt<T>(x: T, t: seq<T>, key: T -> nat, k: nat)
    requires k <= |t|
    requires forall m :: 0 <= m < k ==> key(x) < key(t[m])
    requires k == |t| || key(t[k]) <= key(x)
    ensures Insert(x, t, key) == t[..k] + [x] + t[k..]
  {
    if k == 0 {
      assert t[..k] + [x] + t[k..] == [x] + t;
    } else {
      var u := t[1..];
      assert key(x) < key(t[0]);
      assert forall m :: 0 <= m < k - 1 ==> u[m] == t[m + 1];
      InsertAt(x, u, key, k - 1);
      assert Insert(x, t, key) == [t[0]] + Insert(x, u, key);
      SplitCons(t, x, k);
    }
  }

  lemma SplitCons<T>(t: seq<T>, x: T, k: nat)
    requires 0 < k <= |t|
    ensures [t[0]] + (t[1..][..k - 1] + [x] + t[1..][k - 1..]) == t[..k] + [x] + t[k..]
  {
    assert [t[0]] + t[1..][..k - 1] == t[..k];
    assert t[1..][k - 1..] == t[k..];
  }

  /** In-place insertion sort of an array; the result is the stable sort of
      its old contents. The suffix `a[i..]` is kept sorted and each step
      inserts `a[i - 1]` into it. */
  method SortInPlace<T>(a: array<T>, key: T -> nat)
    modifies a
    ensures a[..] == SortDesc(old(a[..]), key)
  {
    ghost var s0 := a[..];
    var i := a.Length;
    while i > 0
      invariant 0 <= i <= a.Length
      invariant forall m :: 0 <= m < i ==> a[m] == s0[m]
      invariant a[i..] == SortDesc(s0[i..], key)
    {
      InsertInto(a, i, key);
      assert s0[i - 1..][1..] == s0[i..];
      i := i - 1;
    }
    assert s0[0..] == s0;
  }

  /** Inserts `a[i - 1]` into the suffix `a[i..]` by shifting the elements
      with a larger key one place to the left. */
  method InsertInto<T>(a: array<T>, i: nat, key: T -> nat)
    requires 0 < i <= a.Length
    modifies a
    ensures forall m :: 0 <= m < i - 1 ==> a[m] == old(a[m])
    ensures a[i - 1..] == Insert(old(a[i - 1]), old(a[i..]), key)
  {
    ghost var pre := a[..];
    ghost var t := pre[i..];
    var x := a[i - 1];
    var j := i - 1;
    while j + 1 < a.Length && key(x) < key(a[j + 1])
      invariant i - 1 <= j < a.Length
      invariant forall m :: 0 <= m < i - 1 ==> a[m] == pre[m]
      invariant forall m :: i - 1 <= m < j ==> a[m] == pre[m + 1]
      invariant forall m :: j < m < a.Length ==> a[m] == pre[m]
      invariant forall m :: i <= m <= j ==> key(x) < key(pre[m])
    {
      a[j] := a[j + 1];
      j := j + 1;
    }
    a[j] := x;
    var k := j - i + 1;
    InsertAt(x, t, key, k);
    ghost var b := a[i - 1..];
    assert forall m :: 0 <= m < k ==> b[m] == t[m];
    assert forall m :: k < m < |b| ==> b[m] == t[m - 1];
    ShiftedIsInsert(b, t, x, k);
  }

  /** A sequence that holds `t` with `x` placed at position `k`. */
  lemma ShiftedIsInsert<T>(b: seq<T>, t: seq<T>, x: T, k: nat)
    requires k <= |t| && |b| == |t| + 1
    requires forall m :: 0 <= m < k ==> b[m] == t[m]
    requires b[k] == x
    requires forall m :: k < m < |b| ==> b[m] == t[m - 1]
    ensures b == t[..k] + [x] + t[k..]
  {
    var r := t[..k] + [x] + t[k..];
    forall m | 0 <= m < |r| ensures b[m] == r[m] {
      if m < k {
        assert r[m] == t[m];
      } else if m > k {
        assert r[m] == t[m - 1];
      }
    }
  }
}
