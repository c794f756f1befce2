/** The last step of loading (`MapData.FinalPrep`): order the symbols by address and then
    name, and keep one symbol per (name, address) pair. */
module Dedup {
  import opened Symbols
  import opened Seqs
  import opened Ordering
  import opened Sorting

  /** The order of the final list: address first, then the name, ordinally. */
  function PairKey(name: string, offset: int): seq<int> {
    [offset] + Codes(name)
  }

  function NameKey(s: Symbol): seq<int> {
    PairKey(s.name, s.baseOffset)
  }

  /** Two symbols have the same key exactly when they have the same name and address. */
  lemma PairKeyInjective(n1: string, o1: int, n2: string, o2: int)
    ensures PairKey(n1, o1) == PairKey(n2, o2) <==> n1 == n2 && o1 == o2
  {
    if PairKey(n1, o1) == PairKey(n2, o2) {
      assert PairKey(n1, o1)[0] == o1 && PairKey(n2, o2)[0] == o2;
      assert PairKey(n1, o1)[1..] == Codes(n1) && PairKey(n2, o2)[1..] == Codes(n2);
      CodesInjective(n1, n2);
    }
  }

  /** The key the de-duplicating scan starts from, the empty name at address 0, is no later
      than any symbol's key. */
  lemma StartKeyFirst(s: Symbol)
    ensures LexLe(PairKey("", 0), NameKey(s))
  {
    assert PairKey("", 0) == [0];
    assert NameKey(s)[0] == s.baseOffset;
    assert NameKey(s)[1..] == Codes(s.name);
    assert LexLe(PairKey("", 0)[1..], NameKey(s)[1..]);
  }

  /** The de-duplicating scan: a symbol is kept when its name or its address differs from
      the symbol before it, the first one being compared with `prevName` at `prevOffset`. */
  function DropRepeats(s: seq<Symbol>, prevName: string, prevOffset: int): (r: seq<Symbol>)
    ensures IsSubsequence(r, s)
    decreases |s|
  {
    if |s| == 0 then []
    else
      var rest := DropRepeats(s[1..], s[0].name, s[0].baseOffset);
      if s[0].name != prevName || s[0].baseOffset != prevOffset then [s[0]] + rest else rest
  }

  /** The `foreach` loop of `FinalPrep` as written. */
  method RemoveRepeats(sorted: seq<Symbol>) returns (distinct: seq<Symbol>)
    ensures distinct == DropRepeats(sorted, "", 0)
  {
    distinct := [];
    var offset := 0;
    var prevName := "";
    var i := 0;
    while i < |sorted|
      invariant 0 <= i <= |sorted|
      invariant distinct + DropRepeats(sorted[i..], prevName, offset) == DropRepeats(sorted, "", 0)
    {
      var s := sorted[i];
      assert sorted[i..][1..] == sorted[i + 1..];
      if s.name != prevName || s.baseOffset != offset {
        distinct := distinct + [s];
      }
      offset := s.baseOffset;
      prevName := s.name;
      i := i + 1;
    }
  }

  /** `FinalPrep`: sort by address and name, then drop repeated (name, address) pairs. */
  function FinalPrep(syms: seq<Symbol>): (r: seq<Symbol>)
    ensures IsSubsequence(r, SortBy(syms, NameKey))
    ensures |r| <= |syms|
  {
    var r := DropRepeats(SortBy(syms, NameKey), "", 0);
    SubsequenceLength(r, SortBy(syms, NameKey));
    r
  }

  lemma {:induction false} SubsequenceLength<T>(a: seq<T>, b: seq<T>)
    requires IsSubsequence(a, b)
    ensures |a| <= |b|
    decreases |b|
  {
    if |b| > 0 {
      if IsSubsequence(a, b[1..]) {
        SubsequenceLength(a, b[1..]);
      } else {
        SubsequenceLength(a[1..], b[1..]);
      }
    }
  }

  /** Keys strictly ascending: sorted, and no two symbols share a name and an address. */
  ghost predicate StrictlyAscending(s: seq<Symbol>) {
    forall i, j :: 0 <= i < j < |s| ==> LexLe(NameKey(s[i]), NameKey(s[j])) && NameKey(s[i]) != NameKey(s[j])
  }

  /** Every symbol of `s` comes strictly after the given key. */
  ghost predicate AllAfter(key: seq<int>, s: seq<Symbol>) {
    forall k :: 0 <= k < |s| ==> LexLe(key, NameKey(s[k])) && key != NameKey(s[k])
  }

  /** On key-sorted input starting no earlier than the previous key, the scan keeps keys
      strictly ascending and strictly after the previous key. */
  lemma {:induction false} DropRepeatsAscending(s: seq<Symbol>, prevName: string, prevOffset: int)
    requires SortedBy(s, NameKey)
    requires |s| > 0 ==> LexLe(PairKey(prevName, prevOffset), NameKey(s[0]))
    ensures StrictlyAscending(DropRepeats(s, prevName, prevOffset))
    ensures AllAfter(PairKey(prevName, prevOffset), DropRepeats(s, prevName, prevOffset))
    decreases |s|
  {
    if |s| > 0 {
      var prev := PairKey(prevName, prevOffset);
      var r := DropRepeats(s, prevName, prevOffset);
      var rest := DropRepeats(s[1..], s[0].name, s[0].baseOffset);
      assert SortedBy(s[1..], NameKey) by {
        forall i, j | 0 <= i < j < |s[1..]| ensures LexLe(NameKey(s[1..][i]), NameKey(s[1..][j])) {
          assert s[1..][i] == s[i + 1] && s[1..][j] == s[j + 1];
        }
      }
      if |s| > 1 {
        assert LexLe(NameKey(s[0]), NameKey(s[1]));
      }
      DropRepeatsAscending(s[1..], s[0].name, s[0].baseOffset);
      PairKeyInjective(s[0].name, s[0].baseOffset, prevName, prevOffset);
      if s[0].name != prevName || s[0].baseOffset != prevOffset {
        assert r == [s[0]] + rest;
        forall k | 0 <= k < |r| ensures LexLe(prev, NameKey(r[k])) && prev != NameKey(r[k]) {
          if k > 0 {
            assert r[k] == rest[k - 1];
            LexLeTransitive(prev, NameKey(s[0]), NameKey(r[k]));
            if prev == NameKey(r[k]) {
              LexLeAntisymmetric(prev, NameKey(s[0]));
            }
          }
        }
        forall i, j | 0 <= i < j < |r| ensures LexLe(NameKey(r[i]), NameKey(r[j])) && NameKey(r[i]) != NameKey(r[j]) {
          assert r[j] == rest[j - 1];
          if i > 0 {
            assert r[i] == rest[i - 1];
          }
        }
      }
    }
  }

  /** Every key of `s` other than the previous key is still present after the scan. */
  lemma {:induction false} DropRepeatsCovers(s: seq<Symbol>, prevName: string, prevOffset: int)
    ensures forall x :: x in s && (x.name != prevName || x.baseOffset != prevOffset) ==>
      exists y :: y in DropRepeats(s, prevName, prevOffset) && y.name == x.name && y.baseOffset == x.baseOffset
    decreases |s|
  {
    if |s| > 0 {
      var r := DropRepeats(s, prevName, prevOffset);
      DropRepeatsCovers(s[1..], s[0].name, s[0].baseOffset);
      forall x | x in s && (x.name != prevName || x.baseOffset != prevOffset)
        ensures exists y :: y in r && y.name == x.name && y.baseOffset == x.baseOffset
      {
        if x == s[0] || (x.name == s[0].name && x.baseOffset == s[0].baseOffset) {
          assert s[0] in r;
        } else {
          assert x in s[1..];
        }
      }
    }
  }

  /** What `FinalPrep` keeps: ascending by address and then name, with each (name, address)
      pair of the input exactly once, except the empty name at address 0, which the scan
      takes for the one before the first symbol. */
  lemma FinalPrepKeys(syms: seq<Symbol>)
    ensures StrictlyAscending(FinalPrep(syms))
    ensures forall y :: y in FinalPrep(syms) ==> y in syms
    ensures forall y :: y in FinalPrep(syms) ==> y.name != "" || y.baseOffset != 0
    ensures forall x :: x in syms && (x.name != "" || x.baseOffset != 0) ==>
      exists y :: y in FinalPrep(syms) && y.name == x.name && y.baseOffset == x.baseOffset
  {
    var sorted := SortBy(syms, NameKey);
    var r := FinalPrep(syms);
    if |sorted| > 0 {
      StartKeyFirst(sorted[0]);
    }
    DropRepeatsAscending(sorted, "", 0);
    SubsequenceMembers(r, sorted);
    forall y | y in r ensures y in syms && (y.name != "" || y.baseOffset != 0) {
      assert y in multiset(sorted);
      PairKeyInjective(y.name, y.baseOffset, "", 0);
    }
    DropRepeatsCovers(sorted, "", 0);
    forall x | x in syms ensures x in sorted {
      assert x in multiset(syms);
    }
  }

  /** A strictly ascending sequence past the previous key passes the scan unchanged. */
  lemma {:induction false} DropRepeatsKeepsAscending(s: seq<Symbol>, prevName: string, prevOffset: int)
    requires StrictlyAscending(s) && AllAfter(PairKey(prevName, prevOffset), s)
    ensures DropRepeats(s, prevName, prevOffset) == s
    decreases |s|
  {
    if |s| > 0 {
      assert NameKey(s[0]) != PairKey(prevName, prevOffset);
      assert StrictlyAscending(s[1..]) by {
        forall i, j | 0 <= i < j < |s[1..]|
          ensures LexLe(NameKey(s[1..][i]), NameKey(s[1..][j])) && NameKey(s[1..][i]) != NameKey(s[1..][j])
        {
          assert s[1..][i] == s[i + 1] && s[1..][j] == s[j + 1];
        }
      }
      assert AllAfter(NameKey(s[0]), s[1..]) by {
        forall k | 0 <= k < |s[1..]| ensures LexLe(NameKey(s[0]), NameKey(s[1..][k])) && NameKey(s[0]) != NameKey(s[1..][k]) {
          assert s[1..][k] == s[k + 1];
        }
      }
      DropRepeatsKeepsAscending(s[1..], s[0].name, s[0].baseOffset);
      assert s == [s[0]] + s[1..];
    }
  }

  /** Running `FinalPrep` a second time changes nothing. */
  lemma FinalPrepIdempotent(syms: seq<Symbol>)
    ensures FinalPrep(FinalPrep(syms)) == FinalPrep(syms)
  {
    var r := FinalPrep(syms);
    FinalPrepKeys(syms);
    assert SortedBy(r, NameKey);
    SortBySorted(r, NameKey);
    forall k | 0 <= k < |r| ensures LexLe(PairKey("", 0), NameKey(r[k])) && PairKey("", 0) != NameKey(r[k]) {
      StartKeyFirst(r[k]);
      PairKeyInjective("", 0, r[k].name, r[k].baseOffset);
    }
    DropRepeatsKeepsAscending(r, "", 0);
  }
}
