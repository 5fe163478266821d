/** `Array.prototype.filter`, counting by a predicate, and the distinct values of a
    sequence in first-occurrence order (what `[...new Set(xs)]` produces). */
module Seqs {

  /** `s.filter(p)`: the elements of `s` that satisfy `p`, in their original order. */
  function Where<T>(s: seq<T>, p: T -> bool): (r: seq<T>)
    ensures |r| <= |s|
    ensures forall k :: 0 <= k < |r| ==> r[k] in s && p(r[k])
    ensures forall k :: 0 <= k < |s| && p(s[k]) ==> s[k] in r
    ensures multiset(r) <= multiset(s)
  {
    if s == [] then []
    else
      assert s == [s[0]] + s[1..];
      if p(s[0]) then [s[0]] + Where(s[1..], p) else Where(s[1..], p)
  }

  /** `s.filter(p).length`. */
  function CountWhere<T>(s: seq<T>, p: T -> bool): (n: nat)
    ensures n <= |s|
  {
    |Where(s, p)|
  }

  lemma {:induction false} WhereAppend<T>(a: seq<T>, b: seq<T>, p: T -> bool)
    ensures Where(a + b, p) == Where(a, p) + Where(b, p)
  {
    if a == [] {
      assert a + b == b;
    } else {
      assert (a + b)[0] == a[0] && (a + b)[1..] == a[1..] + b;
      WhereAppend(a[1..], b, p);
    }
  }

  /** Filtering unfolds on the first element. */
  lemma WhereCons<T>(x: T, s: seq<T>, p: T -> bool)
    ensures Where([x] + s, p) == (if p(x) then [x] else []) + Where(s, p)
  {
    assert ([x] + s)[0] == x && ([x] + s)[1..] == s;
  }

  /** Filtering one more element at the end keeps the earlier result and adds the element
      exactly when it satisfies `p`. */
  lemma WhereSnoc<T>(s: seq<T>, x: T, p: T -> bool)
    ensures Where(s + [x], p) == Where(s, p) + (if p(x) then [x] else [])
  {
    WhereAppend(s, [x], p);
    assert [x][1..] == [];
  }

  /** The filter is a subsequence: its elements sit at strictly increasing positions of
      `s`, and every position whose element satisfies `p` is one of them. */
  lemma {:induction false} WhereSubsequence<T>(s: seq<T>, p: T -> bool) returns (idx: seq<nat>)
    ensures |idx| == |Where(s, p)|
    ensures forall k :: 0 <= k < |idx| ==> idx[k] < |s| && s[idx[k]] == Where(s, p)[k]
    ensures forall k, l :: 0 <= k < l < |idx| ==> idx[k] < idx[l]
    ensures forall i :: 0 <= i < |s| && p(s[i]) ==> i in idx
  {
    if s == [] {
      return [];
    }
    var rest := WhereSubsequence(s[1..], p);
    var w := Where(s[1..], p);
    idx := ShiftPositions(s, rest, w, p);
    assert Where(s, p) == (if p(s[0]) then [s[0]] else []) + w;
  }

  /** Positions in `s[1..]` moved to positions in `s`, behind position 0 when `s[0]`
      satisfies `p`. */
  lemma ShiftPositions<T>(s: seq<T>, rest: seq<nat>, w: seq<T>, p: T -> bool) returns (idx: seq<nat>)
    requires |s| > 0 && |rest| == |w|
    requires forall k :: 0 <= k < |rest| ==> rest[k] < |s| - 1 && s[1..][rest[k]] == w[k]
    requires forall k, l :: 0 <= k < l < |rest| ==> rest[k] < rest[l]
    requires forall i :: 0 <= i < |s[1..]| && p(s[1..][i]) ==> i in rest
    ensures |idx| == |w| + (if p(s[0]) then 1 else 0)
    ensures forall k :: 0 <= k < |idx| ==>
      idx[k] < |s| && s[idx[k]] == ((if p(s[0]) then [s[0]] else []) + w)[k]
    ensures forall k, l :: 0 <= k < l < |idx| ==> idx[k] < idx[l]
    ensures forall i :: 0 <= i < |s| && p(s[i]) ==> i in idx
  {
    var first := p(s[0]);
    var shifted := seq(|rest|, k requires 0 <= k < |rest| => rest[k] + 1);
    forall k | 0 <= k < |shifted| ensures s[shifted[k]] == w[k] {
      assert s[1..][rest[k]] == s[rest[k] + 1];
    }
    idx := if first then [0] + shifted else shifted;
    forall i | 0 <= i < |s| && p(s[i]) ensures i in idx {
      if i > 0 {
        assert s[1..][i - 1] == s[i];
        var k :| 0 <= k < |rest| && rest[k] == i - 1;
        assert idx[if first then k + 1 else k] == i;
      } else {
        assert idx[0] == 0;
      }
    }
  }

  /** Counting is additive over concatenation. */
  lemma {:induction false} CountWhereAppend<T>(a: seq<T>, b: seq<T>, p: T -> bool)
    ensures CountWhere(a + b, p) == CountWhere(a, p) + CountWhere(b, p)
  {
    WhereAppend(a, b, p);
  }

  /** Filtering with two predicates that agree everywhere gives the same result. */
  lemma {:induction false} WhereCongruent<T>(s: seq<T>, p: T -> bool, q: T -> bool)
    requires forall x :: p(x) == q(x)
    ensures Where(s, p) == Where(s, q)
  {
    if s != [] {
      WhereCongruent(s[1..], p, q);
    }
  }

  /** Filtering with two predicates that agree on every element gives the same result. */
  lemma {:induction false} WhereAgreeOn<T>(s: seq<T>, p: T -> bool, q: T -> bool)
    requires forall k :: 0 <= k < |s| ==> p(s[k]) == q(s[k])
    ensures Where(s, p) == Where(s, q)
  {
    if s != [] {
      WhereAgreeOn(s[1..], p, q);
    }
  }

  /** Counting by a stronger predicate never gives more. */
  lemma {:induction false} CountWhereMonotone<T>(s: seq<T>, p: T -> bool, q: T -> bool)
    requires forall x :: p(x) ==> q(x)
    ensures CountWhere(s, p) <= CountWhere(s, q)
  {
    if s != [] {
      CountWhereMonotone(s[1..], p, q);
    }
  }

  /** Two disjoint predicates that both imply `r` count together at most what `r` counts. */
  lemma {:induction false} CountWhereDisjoint<T>(s: seq<T>, p: T -> bool, q: T -> bool, r: T -> bool)
    requires forall x :: !(p(x) && q(x))
    requires forall x :: (p(x) || q(x)) ==> r(x)
    ensures CountWhere(s, p) + CountWhere(s, q) <= CountWhere(s, r)
  {
    if s != [] {
      CountWhereDisjoint(s[1..], p, q, r);
    }
  }

  /** A predicate and its negation split the sequence. */
  lemma {:induction false} CountWhereComplement<T>(s: seq<T>, p: T -> bool, q: T -> bool)
    requires forall x :: q(x) == !p(x)
    ensures CountWhere(s, p) + CountWhere(s, q) == |s|
  {
    if s != [] {
      CountWhereComplement(s[1..], p, q);
    }
  }

  /** A predicate that no element satisfies counts zero, and filtering keeps nothing. */
  lemma {:induction false} CountWhereNone<T>(s: seq<T>, p: T -> bool)
    requires forall k :: 0 <= k < |s| ==> !p(s[k])
    ensures Where(s, p) == [] && CountWhere(s, p) == 0
  {
    if s != [] {
      CountWhereNone(s[1..], p);
    }
  }

  /** Reordering a sequence does not change how many of its elements satisfy `p`. */
  lemma {:induction false} CountWherePermutation<T>(a: seq<T>, b: seq<T>, p: T -> bool)
    requires multiset(a) == multiset(b)
    ensures CountWhere(a, p) == CountWhere(b, p)
    decreases |a|
  {
    if a == [] {
      assert |b| == |multiset(b)| == 0;
    } else {
      var x := a[0];
      assert x in multiset(b);
      var i :| 0 <= i < |b| && b[i] == x;
      var rest := b[..i] + b[i + 1..];
      assert b == b[..i] + [x] + b[i + 1..];
      assert a == [x] + a[1..];
      calc {
        multiset(a[1..]) + multiset{x};
        multiset(a);
        multiset(b);
        multiset(b[..i]) + multiset{x} + multiset(b[i + 1..]);
        multiset(rest) + multiset{x};
      }
      forall y ensures multiset(a[1..])[y] == multiset(rest)[y] {
        assert (multiset(a[1..]) + multiset{x})[y] == (multiset(rest) + multiset{x})[y];
      }
      assert multiset(a[1..]) == multiset(rest);
      CountWherePermutation(a[1..], rest, p);
      CountWhereAppend(b[..i] + [x], b[i + 1..], p);
      CountWhereAppend(b[..i], [x], p);
      CountWhereAppend(b[..i], b[i + 1..], p);
      CountWhereAppend([x], a[1..], p);
    }
  }

  /** Taking element `i` out of `s` takes one occurrence out of its multiset. */
  lemma MultisetWithout<T>(s: seq<T>, i: nat)
    requires i < |s|
    ensures multiset(s) == multiset(s[..i] + s[i + 1..]) + multiset{s[i]}
  {
    assert s == s[..i] + [s[i]] + s[i + 1..];
  }

  lemma MultisetCancel<T>(a: multiset<T>, b: multiset<T>, x: T)
    requires a + multiset{x} == b + multiset{x}
    ensures a == b
  {
    forall y ensures a[y] == b[y] {
      assert (a + multiset{x})[y] == (b + multiset{x})[y];
    }
  }

  predicate NoDuplicates<T(==)>(s: seq<T>) {
    forall i, j :: 0 <= i < j < |s| ==> s[i] != s[j]
  }

  /** The distinct values of `s`, each once. */
  function Dedup<T(==)>(s: seq<T>): (r: seq<T>)
    ensures NoDuplicates(r)
    ensures forall k :: 0 <= k < |r| ==> r[k] in s
    ensures forall k :: 0 <= k < |s| ==> s[k] in r
    ensures |r| <= |s|
  {
    if s == [] then []
    else
      var d := Dedup(s[..|s| - 1]);
      assert s == s[..|s| - 1] + [s[|s| - 1]];
      if s[|s| - 1] in d then d else d + [s[|s| - 1]]
  }
}
