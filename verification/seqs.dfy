/** Generic sequence operations the map reader builds on: order-preserving filtering
    (`List.RemoveAll`), element-wise mapping, subsequences and first-occurrence
    de-duplication (`Enumerable.Distinct`). */
module Seqs {

  /** The elements of `s` satisfying `p`, in their original order. */
  function Filter<T(!new)>(p: T -> bool, s: seq<T>): (r: seq<T>)
    ensures |r| <= |s|
    ensures forall k :: 0 <= k < |r| ==> p(r[k])
    ensures forall x :: x in r <==> x in s && p(x)
  {
    if |s| == 0 then []
    else
      var rest := Filter(p, s[1..]);
      if p(s[0]) then [s[0]] + rest else rest
  }

  lemma {:induction false} FilterMultiplicity<T(!new)>(p: T -> bool, s: seq<T>, x: T)
    ensures multiset(Filter(p, s))[x] == if p(x) then multiset(s)[x] else 0
    decreases |s|
  {
    if |s| > 0 {
      FilterMultiplicity(p, s[1..], x);
      assert s == [s[0]] + s[1..];
    }
  }

  /** Filtering twice by the same predicate is filtering once. */
  lemma {:induction false} FilterIdempotent<T(!new)>(p: T -> bool, s: seq<T>)
    ensures Filter(p, Filter(p, s)) == Filter(p, s)
    decreases |s|
  {
    if |s| > 0 {
      FilterIdempotent(p, s[1..]);
      if p(s[0]) {
        assert ([s[0]] + Filter(p, s[1..]))[1..] == Filter(p, s[1..]);
      }
    }
  }

  /** Two filters applied in either order keep the same elements in the same order. */
  lemma {:induction false} FilterCommutes<T(!new)>(p: T -> bool, q: T -> bool, s: seq<T>)
    ensures Filter(p, Filter(q, s)) == Filter(q, Filter(p, s))
    decreases |s|
  {
    if |s| > 0 {
      FilterCommutes(p, q, s[1..]);
      var x := s[0];
      var t := s[1..];
      if q(x) {
        assert ([x] + Filter(q, t))[1..] == Filter(q, t);
      }
      if p(x) {
        assert ([x] + Filter(p, t))[1..] == Filter(p, t);
      }
    }
  }

  lemma {:induction false} KeepAll<T(!new)>(p: T -> bool, s: seq<T>)
    requires forall k :: 0 <= k < |s| ==> p(s[k])
    ensures Filter(p, s) == s
    decreases |s|
  {
    if |s| > 0 {
      KeepAll(p, s[1..]);
      assert s == [s[0]] + s[1..];
    }
  }

  lemma {:induction false} DropAll<T(!new)>(p: T -> bool, s: seq<T>)
    requires forall k :: 0 <= k < |s| ==> !p(s[k])
    ensures Filter(p, s) == []
    decreases |s|
  {
    if |s| > 0 {
      DropAll(p, s[1..]);
    }
  }

  /** `a` is `b` with some elements left out, the rest in their original order. */
  ghost predicate IsSubsequence<T>(a: seq<T>, b: seq<T>)
    decreases |b|
  {
    if |b| == 0 then |a| == 0
    else IsSubsequence(a, b[1..]) || (|a| > 0 && a[0] == b[0] && IsSubsequence(a[1..], b[1..]))
  }

  lemma {:induction false} FilterIsSubsequence<T(!new)>(p: T -> bool, s: seq<T>)
    ensures IsSubsequence(Filter(p, s), s)
    decreases |s|
  {
    if |s| > 0 {
      FilterIsSubsequence(p, s[1..]);
    }
  }

  lemma {:induction false} SubsequenceMembers<T>(a: seq<T>, b: seq<T>)
    requires IsSubsequence(a, b)
    ensures forall x :: x in a ==> x in b
    decreases |b|
  {
    if |b| > 0 {
      if IsSubsequence(a, b[1..]) {
        SubsequenceMembers(a, b[1..]);
      } else {
        SubsequenceMembers(a[1..], b[1..]);
        assert a == [a[0]] + a[1..];
      }
    }
  }

  lemma {:induction false} SubsequenceOfSelf<T>(s: seq<T>)
    ensures IsSubsequence(s, s)
    decreases |s|
  {
    if |s| > 0 {
      SubsequenceOfSelf(s[1..]);
    }
  }

  /** `f` applied to every element of `s`. */
  function Map<A, B>(f: A -> B, s: seq<A>): (r: seq<B>)
    ensures |r| == |s| && forall k :: 0 <= k < |s| ==> r[k] == f(s[k])
  {
    if |s| == 0 then [] else [f(s[0])] + Map(f, s[1..])
  }

  lemma MapAppend<A, B>(f: A -> B, x: seq<A>, y: seq<A>)
    ensures Map(f, x + y) == Map(f, x) + Map(f, y)
  {
    assert |Map(f, x + y)| == |Map(f, x) + Map(f, y)|;
  }

  /** Removing the same element from two permutations of each other leaves two
      permutations of each other. */
  lemma {:induction false} RemoveAt<T>(a: seq<T>, b: seq<T>, j: nat)
    requires multiset(a) == multiset(b) && |a| > 0 && j < |b| && b[j] == a[0]
    ensures multiset(a[1..]) == multiset(b[..j] + b[j + 1..])
  {
    assert b == b[..j] + [b[j]] + b[j + 1..];
    assert a == [a[0]] + a[1..];
    calc {
      multiset(a[1..]);
      multiset(a) - multiset{a[0]};
      multiset(b) - multiset{b[j]};
      multiset(b[..j]) + multiset(b[j + 1..]);
      multiset(b[..j] + b[j + 1..]);
    }
  }

  lemma {:induction false} MapRemoveAt<A, B>(f: A -> B, b: seq<A>, j: nat)
    requires j < |b|
    ensures multiset(Map(f, b)) == multiset{f(b[j])} + multiset(Map(f, b[..j] + b[j + 1..]))
  {
    var fb := Map(f, b[..j]);
    var fe := Map(f, b[j + 1..]);
    calc {
      multiset(Map(f, b));
      { assert b == b[..j] + ([b[j]] + b[j + 1..]);
        MapAppend(f, b[..j], [b[j]] + b[j + 1..]); }
      multiset(fb + Map(f, [b[j]] + b[j + 1..]));
      { MapAppend(f, [b[j]], b[j + 1..]); }
      multiset(fb + (Map(f, [b[j]]) + fe));
      multiset(fb) + multiset(Map(f, [b[j]])) + multiset(fe);
      { MapAppend(f, b[..j], b[j + 1..]); }
      multiset(Map(f, [b[j]])) + multiset(Map(f, b[..j] + b[j + 1..]));
    }
  }

  /** Mapping two permutations of each other gives two permutations of each other. */
  lemma {:induction false} MapPermutation<A, B>(f: A -> B, a: seq<A>, b: seq<A>)
    requires multiset(a) == multiset(b)
    ensures multiset(Map(f, a)) == multiset(Map(f, b))
    decreases |a|
  {
    if |a| == 0 {
      assert |b| == |multiset(b)| == 0;
    } else {
      assert a[0] in multiset(b);
      var j :| 0 <= j < |b| && b[j] == a[0];
      RemoveAt(a, b, j);
      MapPermutation(f, a[1..], b[..j] + b[j + 1..]);
      MapRemoveAt(f, b, j);
      MapRemoveAt(f, a, 0);
      assert a[..0] + a[1..] == a[1..];
    }
  }

  /** No element occurs twice. */
  predicate NoDups<T(==)>(s: seq<T>) {
    forall i, j :: 0 <= i < j < |s| ==> s[i] != s[j]
  }

  /** Two duplicate-free sequences with the same members are permutations of each other. */
  lemma {:induction false} NoDupsSameMembers<T>(a: seq<T>, b: seq<T>)
    requires NoDups(a) && NoDups(b)
    requires forall x :: x in a <==> x in b
    ensures multiset(a) == multiset(b)
  {
    forall x ensures multiset(a)[x] == multiset(b)[x] {
      NoDupsMultiplicity(a, x);
      NoDupsMultiplicity(b, x);
    }
  }

  lemma {:induction false} NoDupsMultiplicity<T>(s: seq<T>, x: T)
    requires NoDups(s)
    ensures multiset(s)[x] == if x in s then 1 else 0
    decreases |s|
  {
    if |s| > 0 {
      assert s == [s[0]] + s[1..];
      assert NoDups(s[1..]) by {
        forall i, j | 0 <= i < j < |s[1..]| ensures s[1..][i] != s[1..][j] {
          assert s[1..][i] == s[i + 1] && s[1..][j] == s[j + 1];
        }
      }
      NoDupsMultiplicity(s[1..], x);
      if x == s[0] {
        assert x !in s[1..];
      }
    }
  }

  /** `Enumerable.Distinct`: the first occurrence of every element, in order. */
  function Distinct<T(==,!new)>(s: seq<T>): (r: seq<T>)
    ensures NoDups(r)
    ensures forall x :: x in r <==> x in s
    decreases |s|
  {
    if |s| == 0 then []
    else
      var d := Distinct(s[..|s| - 1]);
      var x := s[|s| - 1];
      assert forall y :: y in s <==> y in s[..|s| - 1] || y == x by {
        assert s == s[..|s| - 1] + [x];
      }
      if x in d then d else d + [x]
  }

  /** De-duplicating keeps every first occurrence where it is: a duplicate-free prefix
      survives unchanged. */
  lemma {:induction false} DistinctKeepsPrefix<T(!new)>(s: seq<T>, n: nat)
    requires n <= |s| && NoDups(s[..n])
    ensures |Distinct(s)| >= n && Distinct(s)[..n] == s[..n]
    decreases |s|
  {
    if n == |s| {
      DistinctOfDistinct(s);
    } else {
      var s' := s[..|s| - 1];
      assert s'[..n] == s[..n];
      DistinctKeepsPrefix(s', n);
    }
  }

  lemma {:induction false} DistinctOfDistinct<T(!new)>(s: seq<T>)
    requires NoDups(s)
    ensures Distinct(s) == s
    decreases |s|
  {
    if |s| > 0 {
      var s' := s[..|s| - 1];
      DistinctOfDistinct(s');
      assert s[|s| - 1] !in s';
      assert s == s' + [s[|s| - 1]];
    }
  }

  function Last<T>(s: seq<T>): T
    requires |s| > 0
  {
    s[|s| - 1]
  }

  /** The concatenation of a sequence of sequences. */
  function Concat<T>(ss: seq<seq<T>>): seq<T> {
    if |ss| == 0 then [] else ss[0] + Concat(ss[1..])
  }

  lemma {:induction false} ConcatAppend<T>(a: seq<seq<T>>, b: seq<seq<T>>)
    ensures Concat(a + b) == Concat(a) + Concat(b)
    decreases |a|
  {
    if |a| > 0 {
      ConcatAppend(a[1..], b);
      assert (a + b)[1..] == a[1..] + b;
    } else {
      assert a + b == b;
    }
  }

  /** The concatenation of a sequence with one more piece in front. */
  lemma ConcatCons<T>(x: seq<T>, ss: seq<seq<T>>)
    ensures Concat([x] + ss) == x + Concat(ss)
  {
    assert ([x] + ss)[1..] == ss;
  }

  /** The concatenation around its `k`-th piece. */
  lemma ConcatAt<T>(ss: seq<seq<T>>, k: nat)
    requires k < |ss|
    ensures Concat(ss) == Concat(ss[..k]) + ss[k] + Concat(ss[k + 1..])
  {
    assert ss == ss[..k] + ss[k..];
    ConcatAppend(ss[..k], ss[k..]);
  }

  lemma {:induction false} ConcatMember<T>(ss: seq<seq<T>>, x: T)
    ensures x in Concat(ss) <==> exists k :: 0 <= k < |ss| && x in ss[k]
    decreases |ss|
  {
    if |ss| > 0 {
      ConcatMember(ss[1..], x);
      if x in Concat(ss) && x !in ss[0] {
        var k :| 0 <= k < |ss[1..]| && x in ss[1..][k];
        assert x in ss[k + 1];
      }
      if exists k :: 0 <= k < |ss| && x in ss[k] {
        var k :| 0 <= k < |ss| && x in ss[k];
        if k > 0 {
          assert x in ss[1..][k - 1];
        }
      }
    }
  }

  lemma {:induction false} FilterAppend<T(!new)>(p: T -> bool, a: seq<T>, b: seq<T>)
    ensures Filter(p, a + b) == Filter(p, a) + Filter(p, b)
    decreases |a|
  {
    if |a| > 0 {
      FilterAppend(p, a[1..], b);
      assert (a + b)[1..] == a[1..] + b;
    } else {
      assert a + b == b;
    }
  }
}
