/** Ordinal lexicographic order on integer sequences.

    Every comparison the map reader sorts by is a tuple of integers and strings compared
    field by field: `BaseOffset`; `(BaseOffset, Name)`; `(Size, Text.Length, Text)`.
    Encoding such a tuple as one integer sequence (a string contributes its character
    codes, last) turns the tuple order into this lexicographic order. */
module Ordering {

  /** `a` comes no later than `b`; a proper prefix comes first. */
  predicate LexLe(a: seq<int>, b: seq<int>)
    decreases |a|
  {
    |a| == 0 || (|b| > 0 && (a[0] < b[0] || (a[0] == b[0] && LexLe(a[1..], b[1..]))))
  }

  /** The character codes of a string, compared ordinally. */
  function Codes(s: string): (r: seq<int>)
    ensures |r| == |s| && forall k :: 0 <= k < |s| ==> r[k] == s[k] as int
  {
    seq(|s|, k requires 0 <= k < |s| => s[k] as int)
  }

  lemma CodesInjective(s: string, t: string)
    requires Codes(s) == Codes(t)
    ensures s == t
  {
    assert |s| == |t|;
    forall k | 0 <= k < |s|
      ensures s[k] == t[k]
    {
      assert Codes(s)[k] == Codes(t)[k];
    }
  }

  lemma {:induction false} LexLeReflexive(a: seq<int>)
    ensures LexLe(a, a)
    decreases |a|
  {
    if |a| > 0 {
      LexLeReflexive(a[1..]);
    }
  }

  lemma {:induction false} LexLeTotal(a: seq<int>, b: seq<int>)
    ensures LexLe(a, b) || LexLe(b, a)
    decreases |a|
  {
    if |a| > 0 && |b| > 0 && a[0] == b[0] {
      LexLeTotal(a[1..], b[1..]);
    }
  }

  lemma {:induction false} LexLeTransitive(a: seq<int>, b: seq<int>, c: seq<int>)
    requires LexLe(a, b) && LexLe(b, c)
    ensures LexLe(a, c)
    decreases |a|
  {
    if |a| > 0 && a[0] == b[0] && b[0] == c[0] {
      LexLeTransitive(a[1..], b[1..], c[1..]);
    }
  }

  lemma {:induction false} LexLeAntisymmetric(a: seq<int>, b: seq<int>)
    requires LexLe(a, b) && LexLe(b, a)
    ensures a == b
    decreases |a|
  {
    if |a| > 0 {
      LexLeAntisymmetric(a[1..], b[1..]);
      assert a == [a[0]] + a[1..];
      assert b == [b[0]] + b[1..];
    }
  }

  /** Prefixing equal heads keeps the order of the tails. */
  lemma LexLeCons(x: int, a: seq<int>, b: seq<int>)
    ensures LexLe([x] + a, [x] + b) <==> LexLe(a, b)
  {
    assert ([x] + a)[1..] == a;
    assert ([x] + b)[1..] == b;
  }
}

/** A stable insertion sort by a key under the lexicographic order; it stands for
    `List.Sort` with a comparison, whose order among equal keys the model does not pin
    (every property proved downstream holds for any sorted arrangement). */
module Sorting {
  import opened Ordering

  ghost predicate SortedBy<T>(s: seq<T>, key: T -> seq<int>) {
    forall i, j :: 0 <= i < j < |s| ==> LexLe(key(s[i]), key(s[j]))
  }

  /** Every element of `s` is at or after `x`. */
  ghost predicate AllAtOrAfter<T>(x: T, s: seq<T>, key: T -> seq<int>) {
    forall k :: 0 <= k < |s| ==> LexLe(key(x), key(s[k]))
  }

  lemma ConsSorted<T>(x: T, s: seq<T>, key: T -> seq<int>)
    requires SortedBy(s, key) && AllAtOrAfter(x, s, key)
    ensures SortedBy([x] + s, key)
  {
    var r := [x] + s;
    forall i, j | 0 <= i < j < |r|
      ensures LexLe(key(r[i]), key(r[j]))
    {
      if i > 0 {
        assert r[i] == s[i - 1] && r[j] == s[j - 1];
      } else {
        assert r[j] == s[j - 1];
      }
    }
  }

  /** An element at or before the head of a sorted sequence is at or before all of it. */
  lemma BeforeHead<T>(x: T, s: seq<T>, key: T -> seq<int>)
    requires SortedBy(s, key) && |s| > 0 && LexLe(key(x), key(s[0]))
    ensures AllAtOrAfter(x, s, key)
  {
    forall k | 0 <= k < |s| ensures LexLe(key(x), key(s[k])) {
      if k > 0 { LexLeTransitive(key(x), key(s[0]), key(s[k])); }
    }
  }

  /** The head of a sorted sequence is at or before `x` inserted into its tail, when `x`
      does not come before the head. */
  lemma HeadBeforeInserted<T>(x: T, s: seq<T>, rest: seq<T>, key: T -> seq<int>)
    requires SortedBy(s, key) && |s| > 0 && !LexLe(key(x), key(s[0]))
    requires multiset(rest) == multiset(s[1..]) + multiset{x}
    ensures AllAtOrAfter(s[0], rest, key)
  {
    LexLeTotal(key(x), key(s[0]));
    forall k | 0 <= k < |rest| ensures LexLe(key(s[0]), key(rest[k])) {
      assert rest[k] in multiset(rest);
      assert rest[k] == x || rest[k] in multiset(s[1..]);
      if rest[k] != x {
        var m :| 0 <= m < |s[1..]| && s[1..][m] == rest[k];
        assert s[m + 1] == rest[k];
      }
    }
  }

  /** Puts `x` into the sorted `s` before the first element it does not follow. */
  function Insert<T>(x: T, s: seq<T>, key: T -> seq<int>): (r: seq<T>)
    requires SortedBy(s, key)
    ensures SortedBy(r, key)
    ensures multiset(r) == multiset(s) + multiset{x}
    decreases |s|
  {
    if |s| == 0 then [x]
    else if LexLe(key(x), key(s[0])) then
      BeforeHead(x, s, key);
      ConsSorted(x, s, key);
      [x] + s
    else
      SortedTail(s, key);
      var rest := Insert(x, s[1..], key);
      HeadBeforeInserted(x, s, rest, key);
      ConsSorted(s[0], rest, key);
      assert s == [s[0]] + s[1..];
      [s[0]] + rest
  }

  /** `s` rearranged into key order. */
  function SortBy<T>(s: seq<T>, key: T -> seq<int>): (r: seq<T>)
    ensures SortedBy(r, key)
    ensures multiset(r) == multiset(s)
    ensures |r| == |s|
    decreases |s|
  {
    if |s| == 0 then []
    else
      assert s == [s[0]] + s[1..];
      var r := Insert(s[0], SortBy(s[1..], key), key);
      assert |r| == |multiset(r)| == |multiset(s)| == |s|;
      r
  }

  /** Sorting what is already sorted changes nothing. */
  lemma {:induction false} SortBySorted<T>(s: seq<T>, key: T -> seq<int>)
    requires SortedBy(s, key)
    ensures SortBy(s, key) == s
    decreases |s|
  {
    if |s| > 0 {
      SortBySorted(s[1..], key);
      assert s == [s[0]] + s[1..];
      if |s| > 1 {
        assert LexLe(key(s[0]), key(s[1]));
      }
    }
  }

  /** Every member of a sorted sequence is at or after its first element. */
  lemma SortedHead<T>(s: seq<T>, key: T -> seq<int>)
    requires SortedBy(s, key) && |s| > 0
    ensures AllAtOrAfter(s[0], s, key)
  {
    forall k | 0 <= k < |s| ensures LexLe(key(s[0]), key(s[k])) {
      if k == 0 { LexLeReflexive(key(s[0])); }
    }
  }

  lemma SortedTail<T>(s: seq<T>, key: T -> seq<int>)
    requires SortedBy(s, key) && |s| > 0
    ensures SortedBy(s[1..], key)
  {
    forall i, j | 0 <= i < j < |s[1..]| ensures LexLe(key(s[1..][i]), key(s[1..][j])) {
      assert s[1..][i] == s[i + 1] && s[1..][j] == s[j + 1];
    }
  }

  /** Two non-empty sorted permutations of each other start with elements of equal key. */
  lemma SortedHeadsAgree<T>(a: seq<T>, b: seq<T>, key: T -> seq<int>)
    requires SortedBy(a, key) && SortedBy(b, key) && multiset(a) == multiset(b) && |a| > 0
    ensures |b| > 0 && key(a[0]) == key(b[0]) && b[0] in a
  {
    assert a[0] in multiset(b);
    assert b[0] in multiset(a);
    var i :| 0 <= i < |a| && a[i] == b[0];
    var j :| 0 <= j < |b| && b[j] == a[0];
    SortedHead(a, key);
    SortedHead(b, key);
    assert LexLe(key(a[0]), key(a[i]));
    assert LexLe(key(b[0]), key(b[j]));
    LexLeAntisymmetric(key(a[0]), key(b[0]));
  }

  /** When no two elements share a key, there is only one sorted arrangement: two sorted
      permutations of each other are equal. */
  lemma {:induction false} SortedUnique<T>(a: seq<T>, b: seq<T>, key: T -> seq<int>)
    requires SortedBy(a, key) && SortedBy(b, key) && multiset(a) == multiset(b)
    requires forall x, y :: x in a && y in a && key(x) == key(y) ==> x == y
    ensures a == b
    decreases |a|
  {
    assert |a| == |multiset(a)| == |multiset(b)| == |b|;
    if |a| > 0 {
      SortedHeadsAgree(a, b, key);
      assert a[0] == b[0];
      assert a == [a[0]] + a[1..] && b == [b[0]] + b[1..];
      assert multiset(a[1..]) == multiset(a) - multiset{a[0]};
      assert multiset(b[1..]) == multiset(b) - multiset{a[0]};
      SortedTail(a, key);
      SortedTail(b, key);
      SortedUnique(a[1..], b[1..], key);
    }
  }
}
