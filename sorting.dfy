/** Sorting by a key, the way both the document store (`.sort({field: ±1})`) and
    the client's `[...todos].sort(compare)` order records. A key is a sequence of
    integers compared lexicographically, so that several-level comparators and
    string fields fit the same order. */
module Sorting {

  /** Lexicographic order on integer sequences; a proper prefix comes first. */
  predicate LexLeq(a: seq<int>, b: seq<int>)
    decreases |a|
  {
    |a| == 0 || (|b| > 0 && (a[0] < b[0] || (a[0] == b[0] && LexLeq(a[1..], b[1..]))))
  }

  lemma {:induction false} LexLeqReflexive(a: seq<int>)
    ensures LexLeq(a, a)
    decreases |a|
  {
    if |a| > 0 {
      LexLeqReflexive(a[1..]);
    }
  }

  lemma {:induction false} LexLeqTotal(a: seq<int>, b: seq<int>)
    ensures LexLeq(a, b) || LexLeq(b, a)
    decreases |a|
  {
    if |a| > 0 && |b| > 0 && a[0] == b[0] {
      LexLeqTotal(a[1..], b[1..]);
    }
  }

  lemma {:induction false} LexLeqTransitive(a: seq<int>, b: seq<int>, c: seq<int>)
    requires LexLeq(a, b) && LexLeq(b, c)
    ensures LexLeq(a, c)
    decreases |a|
  {
    if |a| > 0 && a[0] == b[0] && b[0] == c[0] {
      LexLeqTransitive(a[1..], b[1..], c[1..]);
    }
  }

  lemma {:induction false} LexLeqAntisymmetric(a: seq<int>, b: seq<int>)
    requires LexLeq(a, b) && LexLeq(b, a)
    ensures a == b
    decreases |a|
  {
    if |a| > 0 {
      LexLeqAntisymmetric(a[1..], b[1..]);
      assert a == [a[0]] + a[1..] && b == [b[0]] + b[1..];
    }
  }

  /** `x` may precede `y`: ascending order, or descending order when `desc`. */
  predicate InOrder(x: seq<int>, y: seq<int>, desc: bool) {
    if desc then LexLeq(y, x) else LexLeq(x, y)
  }

  lemma InOrderTotal(x: seq<int>, y: seq<int>, desc: bool)
    ensures InOrder(x, y, desc) || InOrder(y, x, desc)
  {
    LexLeqTotal(x, y);
  }

  lemma InOrderTransitive(x: seq<int>, y: seq<int>, z: seq<int>, desc: bool)
    requires InOrder(x, y, desc) && InOrder(y, z, desc)
    ensures InOrder(x, z, desc)
  {
    if desc {
      LexLeqTransitive(z, y, x);
    } else {
      LexLeqTransitive(x, y, z);
    }
  }

  predicate SortedBy<T>(s: seq<T>, key: T -> seq<int>, desc: bool) {
    forall i, j :: 0 <= i < j < |s| ==> InOrder(key(s[i]), key(s[j]), desc)
  }

  /** Places `x` after every leading element that may precede it. */
  function Insert<T>(x: T, s: seq<T>, key: T -> seq<int>, desc: bool): (r: seq<T>)
    ensures |r| == |s| + 1
  {
    if s == [] then [x]
    else if InOrder(key(s[0]), key(x), desc) then [s[0]] + Insert(x, s[1..], key, desc)
    else [x] + s
  }

  /** Inserting adds `x` and loses nothing. */
  lemma {:induction false} InsertPermutes<T>(x: T, s: seq<T>, key: T -> seq<int>, desc: bool)
    ensures multiset(Insert(x, s, key, desc)) == multiset(s) + multiset{x}
  {
    if s != [] {
      assert s == [s[0]] + s[1..];
      if InOrder(key(s[0]), key(x), desc) {
        InsertPermutes(x, s[1..], key, desc);
      }
    }
  }

  /** Stable insertion sort of `s` by `key`. */
  function SortByKey<T>(s: seq<T>, key: T -> seq<int>, desc: bool): (r: seq<T>)
    ensures |r| == |s|
    ensures multiset(r) == multiset(s)
  {
    if s == [] then []
    else
      assert s == s[..|s| - 1] + [s[|s| - 1]];
      InsertPermutes(s[|s| - 1], SortByKey(s[..|s| - 1], key, desc), key, desc);
      Insert(s[|s| - 1], SortByKey(s[..|s| - 1], key, desc), key, desc)
  }

  lemma {:induction false} InsertSorted<T>(x: T, s: seq<T>, key: T -> seq<int>, desc: bool)
    requires SortedBy(s, key, desc)
    ensures SortedBy(Insert(x, s, key, desc), key, desc)
  {
    if s != [] {
      var r := Insert(x, s, key, desc);
      if InOrder(key(s[0]), key(x), desc) {
        var rest := Insert(x, s[1..], key, desc);
        InsertSorted(x, s[1..], key, desc);
        HeadPrecedesInsert(x, s, key, desc);
        assert r == [s[0]] + rest;
        forall i, j | 0 <= i < j < |r| ensures InOrder(key(r[i]), key(r[j]), desc) {
          if i > 0 {
            assert r[i] == rest[i - 1] && r[j] == rest[j - 1];
          } else {
            assert r[j] == rest[j - 1];
          }
        }
      } else {
        InOrderTotal(key(s[0]), key(x), desc);
        forall i, j | 0 <= i < j < |r| ensures InOrder(key(r[i]), key(r[j]), desc) {
          if i == 0 {
            if j > 1 {
              InOrderTransitive(key(x), key(s[0]), key(s[j - 1]), desc);
            }
          } else {
            assert r[i] == s[i - 1] && r[j] == s[j - 1];
          }
        }
      }
    }
  }

  /** The head of a sorted sequence may precede everything `Insert` builds behind it. */
  lemma HeadPrecedesInsert<T>(x: T, s: seq<T>, key: T -> seq<int>, desc: bool)
    requires s != [] && SortedBy(s, key, desc) && InOrder(key(s[0]), key(x), desc)
    ensures forall j :: 0 <= j < |Insert(x, s[1..], key, desc)| ==>
      InOrder(key(s[0]), key(Insert(x, s[1..], key, desc)[j]), desc)
  {
    var rest := Insert(x, s[1..], key, desc);
    InsertPermutes(x, s[1..], key, desc);
    forall j | 0 <= j < |rest| ensures InOrder(key(s[0]), key(rest[j]), desc) {
      var y := rest[j];
      assert y in multiset(rest);
      if y != x {
        assert y in multiset(s[1..]);
        var k :| 0 <= k < |s[1..]| && s[1..][k] == y;
        assert s[k + 1] == y;
      }
    }
  }

  /** The sorted sequence is in key order. */
  lemma {:induction false} SortedBySortByKey<T>(s: seq<T>, key: T -> seq<int>, desc: bool)
    ensures SortedBy(SortByKey(s, key, desc), key, desc)
  {
    if s != [] {
      SortedBySortByKey(s[..|s| - 1], key, desc);
      InsertSorted(s[|s| - 1], SortByKey(s[..|s| - 1], key, desc), key, desc);
    }
  }

  /** The elements of `s` whose key is `k`, in their order in `s`. */
  function Ties<T>(s: seq<T>, key: T -> seq<int>, k: seq<int>): seq<T> {
    if s == [] then [] else (if key(s[0]) == k then [s[0]] else []) + Ties(s[1..], key, k)
  }

  lemma {:induction false} TiesAppend<T>(a: seq<T>, b: seq<T>, key: T -> seq<int>, k: seq<int>)
    ensures Ties(a + b, key, k) == Ties(a, key, k) + Ties(b, key, k)
  {
    if a == [] {
      assert a + b == b;
    } else {
      var head := if key(a[0]) == k then [a[0]] else [];
      calc {
        Ties(a + b, key, k);
        { assert a + b == [a[0]] + (a[1..] + b); }
        Ties([a[0]] + (a[1..] + b), key, k);
        { TiesCons(a[0], a[1..] + b, key, k); }
        head + Ties(a[1..] + b, key, k);
        { TiesAppend(a[1..], b, key, k); }
        head + (Ties(a[1..], key, k) + Ties(b, key, k));
        head + Ties(a[1..], key, k) + Ties(b, key, k);
        { TiesCons(a[0], a[1..], key, k); assert [a[0]] + a[1..] == a; }
        Ties(a, key, k) + Ties(b, key, k);
      }
    }
  }

  lemma TiesCons<T>(x: T, s: seq<T>, key: T -> seq<int>, k: seq<int>)
    ensures Ties([x] + s, key, k) == (if key(x) == k then [x] else []) + Ties(s, key, k)
  {
    assert ([x] + s)[0] == x && ([x] + s)[1..] == s;
  }

  lemma {:induction false} TiesNone<T>(s: seq<T>, key: T -> seq<int>, k: seq<int>)
    requires forall j :: 0 <= j < |s| ==> key(s[j]) != k
    ensures Ties(s, key, k) == []
  {
    if s != [] {
      TiesNone(s[1..], key, k);
    }
  }

  /** Where `Insert` places `x`: after every leading element that may precede it. */
  function InsertPoint<T>(x: T, s: seq<T>, key: T -> seq<int>, desc: bool): (p: nat)
    ensures p <= |s|
    ensures forall j :: 0 <= j < p ==> InOrder(key(s[j]), key(x), desc)
    ensures p < |s| ==> !InOrder(key(s[p]), key(x), desc)
  {
    if s == [] then 0
    else if InOrder(key(s[0]), key(x), desc) then
      var p := 1 + InsertPoint(x, s[1..], key, desc);
      assert forall j :: 1 <= j < p ==> s[j] == s[1..][j - 1];
      p
    else 0
  }

  /** `Insert` puts `x` at its insertion point and keeps the rest in order. */
  lemma {:induction false} InsertAt<T>(x: T, s: seq<T>, key: T -> seq<int>, desc: bool)
    ensures var p := InsertPoint(x, s, key, desc);
      Insert(x, s, key, desc) == s[..p] + [x] + s[p..]
  {
    if s != [] && InOrder(key(s[0]), key(x), desc) {
      InsertAt(x, s[1..], key, desc);
      var q := InsertPoint(x, s[1..], key, desc);
      assert s[..q + 1] == [s[0]] + s[1..][..q];
      assert s[q + 1..] == s[1..][q..];
    }
  }

  /** In a sorted sequence, nothing from the insertion point on has the key of `x`. */
  lemma NoTieFrom<T>(x: T, s: seq<T>, key: T -> seq<int>, desc: bool, p: nat)
    requires SortedBy(s, key, desc) && p < |s| && !InOrder(key(s[p]), key(x), desc)
    ensures forall j :: 0 <= j < |s[p..]| ==> key(s[p..][j]) != key(x)
  {
    LexLeqReflexive(key(x));
    forall j | 0 <= j < |s[p..]| ensures key(s[p..][j]) != key(x) {
      assert s[p..][j] == s[p + j];
      if j > 0 {
        assert InOrder(key(s[p]), key(s[p + j]), desc);
      }
    }
  }

  /** Inserting into a sorted sequence puts `x` after every element of equal key. */
  lemma InsertKeepsTies<T>(x: T, s: seq<T>, key: T -> seq<int>, desc: bool, k: seq<int>)
    requires SortedBy(s, key, desc)
    ensures Ties(Insert(x, s, key, desc), key, k) == Ties(s, key, k) + (if key(x) == k then [x] else [])
  {
    var p := InsertPoint(x, s, key, desc);
    var tie := if key(x) == k then [x] else [];
    var before, after := s[..p], s[p..];
    InsertAt(x, s, key, desc);
    assert Ties(after, key, k) == [] || key(x) != k by {
      if key(x) == k && p < |s| {
        NoTieFrom(x, s, key, desc, p);
        TiesNone(after, key, k);
      }
    }
    calc {
      Ties(Insert(x, s, key, desc), key, k);
      Ties(before + [x] + after, key, k);
      { TiesAppend(before + [x], after, key, k); TiesAppend(before, [x], key, k); TiesSingleton(x, key, k); }
      Ties(before, key, k) + tie + Ties(after, key, k);
      Ties(before, key, k) + Ties(after, key, k) + tie;
      { TiesAppend(before, after, key, k); assert before + after == s; }
      Ties(s, key, k) + tie;
    }
  }

  /** The sort is stable: the elements of any one key come out in their input order. */
  lemma {:induction false} SortByKeyStable<T>(s: seq<T>, key: T -> seq<int>, desc: bool, k: seq<int>)
    ensures Ties(SortByKey(s, key, desc), key, k) == Ties(s, key, k)
  {
    if s != [] {
      var init, last := s[..|s| - 1], s[|s| - 1];
      var sorted := SortByKey(init, key, desc);
      var tie := if key(last) == k then [last] else [];
      SortedBySortByKey(init, key, desc);
      calc {
        Ties(SortByKey(s, key, desc), key, k);
        Ties(Insert(last, sorted, key, desc), key, k);
        { InsertKeepsTies(last, sorted, key, desc, k); }
        Ties(sorted, key, k) + tie;
        { SortByKeyStable(init, key, desc, k); }
        Ties(init, key, k) + tie;
        { TiesSingleton(last, key, k); }
        Ties(init, key, k) + Ties([last], key, k);
        { TiesAppend(init, [last], key, k); }
        Ties(init + [last], key, k);
        { assert init + [last] == s; }
        Ties(s, key, k);
      }
    }
  }

  lemma TiesSingleton<T>(x: T, key: T -> seq<int>, k: seq<int>)
    ensures Ties([x], key, k) == if key(x) == k then [x] else []
  {
    assert [x][1..] == [];
  }

  /** Sorting neither loses nor invents an element. */
  lemma SortByKeySameElements<T>(s: seq<T>, key: T -> seq<int>, desc: bool)
    ensures forall k :: 0 <= k < |s| ==> SortByKey(s, key, desc)[k] in s
    ensures forall k :: 0 <= k < |s| ==> s[k] in SortByKey(s, key, desc)
  {
    var r := SortByKey(s, key, desc);
    forall k | 0 <= k < |s| ensures r[k] in s && s[k] in r {
      assert r[k] in multiset(r);
      assert s[k] in multiset(s);
    }
  }
}
