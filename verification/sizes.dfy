/** Size inference (`MapData.CalculateSizes`): a symbol's size is the distance to the next
    symbol in address order. Symbols at one address share a size, and a gap too wide to be
    a real extent is reported as unknown. */
module Sizes {
  import opened Symbols
  import opened Seqs
  import opened Ordering
  import opened Sorting

  /** A gap at least this wide is not taken as a symbol's extent. */
  const GapLimit: int := 100000

  /** The sort key of the address order. */
  function BaseKey(s: Symbol): seq<int> {
    [s.baseOffset]
  }

  ghost predicate BaseSorted(s: seq<Symbol>) {
    forall i, j :: 0 <= i < j < |s| ==> s[i].baseOffset <= s[j].baseOffset
  }

  lemma SortedByBase(s: seq<Symbol>)
    requires SortedBy(s, BaseKey)
    ensures BaseSorted(s)
  {
    forall i, j | 0 <= i < j < |s| ensures s[i].baseOffset <= s[j].baseOffset {
      assert LexLe(BaseKey(s[i]), BaseKey(s[j]));
      assert BaseKey(s[i])[1..] == [];
    }
  }

  /** The symbols at or above the image base, in their original order. */
  function AtOrAbove(syms: seq<Symbol>, imageBase: int): (r: seq<Symbol>)
    ensures forall x :: x in r <==> x in syms && x.baseOffset >= imageBase
    ensures forall x :: multiset(r)[x] == if x.baseOffset >= imageBase then multiset(syms)[x] else 0
  {
    var keep := (x: Symbol) => x.baseOffset >= imageBase;
    FilterMultiplicities(keep, syms);
    Filter(keep, syms)
  }

  lemma FilterMultiplicities<T(!new)>(p: T -> bool, s: seq<T>)
    ensures forall x :: multiset(Filter(p, s))[x] == if p(x) then multiset(s)[x] else 0
  {
    forall x {
      FilterMultiplicity(p, s, x);
    }
  }

  /** One step of the backward pass over a symbol `a` and its successor `b`, which the
      pass has already visited. Only sizes and statuses change; the successor keeps its
      size and at most turns from unique to shared(first), and only at a shared address. */
  function Step(a: Symbol, b: Symbol): (r: (Symbol, Symbol))
    ensures Parsed(r.0) == Parsed(a) && Parsed(r.1) == Parsed(b)
    ensures r.1.size == b.size
    ensures r.1 != b ==> a.baseOffset == b.baseOffset && b.shared == Unique && r.1.shared == SharedFirst
    ensures a.baseOffset == b.baseOffset ==> r.0.size == b.size && r.0.shared == Shared
  {
    var gap := b.baseOffset - a.baseOffset;
    if gap == 0 && a.baseOffset == b.baseOffset then
      (a.(size := b.size, shared := Shared),
       if b.shared == Unique then b.(shared := SharedFirst) else b)
    else if gap >= GapLimit then
      (a.(size := 0, shared := Unknown), b)
    else
      (a.(size := gap), b)
  }

  /** The backward pass: steps from the second-to-last symbol down to the first. The
      steps after the first visit only the suffix, so the suffix is done first. */
  function Pass(s: seq<Symbol>): (r: seq<Symbol>)
    ensures |r| == |s|
  {
    if |s| <= 1 then s
    else
      var rest := Pass(s[1..]);
      var ab := Step(s[0], rest[0]);
      [ab.0, ab.1] + rest[1..]
  }

  /** The body of the backward loop of `CalculateSizes` as written, at index `i`: the
      step over symbol `i` and its successor, nothing else touched. */
  method StepAt(r: seq<Symbol>, i: nat) returns (t: seq<Symbol>)
    requires i + 1 < |r|
    ensures t == r[..i] + [Step(r[i], r[i + 1]).0, Step(r[i], r[i + 1]).1] + r[i + 2..]
  {
    t := r;
    var gap := t[i + 1].baseOffset - t[i].baseOffset;
    t := t[i := t[i].(size := gap)];
    if t[i].size == 0 && t[i].baseOffset == t[i + 1].baseOffset {
      t := t[i := t[i].(size := t[i + 1].size, shared := Shared)];
      if t[i + 1].shared == Unique {
        t := t[i + 1 := t[i + 1].(shared := SharedFirst)];
      }
    } else if t[i].size >= GapLimit {
      t := t[i := t[i].(size := 0, shared := Unknown)];
    }
  }

  /** One step of the loop, at index `i - 1`, extends the passed suffix by one symbol. */
  lemma LoopStep(s: seq<Symbol>, i: nat, r: seq<Symbol>, t: seq<Symbol>)
    requires 0 < i < |s| && r == s[..i] + Pass(s[i..])
    requires t == r[..i - 1] + [Step(r[i - 1], r[i]).0, Step(r[i - 1], r[i]).1] + r[i + 1..]
    ensures t == s[..i - 1] + Pass(s[i - 1..])
  {
    var rest := Pass(s[i..]);
    assert s[i - 1..][1..] == s[i..];
    assert r[i - 1] == s[i - 1] && r[i] == rest[0];
    assert r[..i - 1] == s[..i - 1] && r[i + 1..] == rest[1..];
  }

  /** Where the loop starts: the last symbol alone is passed already. */
  lemma LoopStart(s: seq<Symbol>)
    requires |s| >= 1
    ensures s == s[..|s| - 1] + Pass(s[|s| - 1..])
  {
    var last := s[|s| - 1..];
    assert |last| == 1;
    assert Pass(last) == last;
    assert s[..|s| - 1] + last == s;
  }

  /** Where the loop ends: with nothing before the passed suffix, all is passed. */
  lemma LoopEnd(s: seq<Symbol>)
    ensures s[..0] + Pass(s[0..]) == Pass(s)
  {
    assert s[..0] == [] && s[0..] == s;
  }

  /** The backward loop of `CalculateSizes` as written, over a sequence instead of the
      list it updates in place; the step at index `i - 1` is the loop's step at `i - 1`. */
  method InferSizes(s: seq<Symbol>) returns (r: seq<Symbol>)
    ensures r == Pass(s)
  {
    r := s;
    if |s| < 2 {
      return;
    }
    LoopStart(s);
    var i := |s| - 1;
    while i > 0
      invariant 0 <= i < |s|
      invariant r == s[..i] + Pass(s[i..])
    {
      var t := StepAt(r, i - 1);
      LoopStep(s, i, r, t);
      r := t;
      i := i - 1;
    }
    LoopEnd(s);
  }

  /** The status the pass's own step leaves on symbol `i`, before the step for `i - 1`
      may promote it: a symbol sharing its successor's address is shared, one whose
      successor is `GapLimit` or more away is unknown, any other keeps its status. */
  function OwnSharing(s: seq<Symbol>, i: nat): Sharing
    requires i < |s|
  {
    if i == |s| - 1 then s[i].shared
    else if s[i].baseOffset == s[i + 1].baseOffset then Shared
    else if s[i + 1].baseOffset - s[i].baseOffset >= GapLimit then Unknown
    else s[i].shared
  }

  /** Symbol `i` after the pass: still the same symbol; its status is its own step's,
      promoted from unique to shared(first) when its predecessor shares its address; its
      size is its successor's when they share an address, 0 across a gap of `GapLimit`
      or more, the gap otherwise, and the last symbol keeps its size. */
  ghost predicate PassedAt(s: seq<Symbol>, r: seq<Symbol>, i: nat)
    requires |r| == |s| && i < |s|
  {
    && r[i] == s[i].(size := r[i].size, shared := r[i].shared)
    && r[i].shared ==
         (if i > 0 && s[i - 1].baseOffset == s[i].baseOffset && OwnSharing(s, i) == Unique
          then SharedFirst else OwnSharing(s, i))
    && r[i].size ==
         (if i == |s| - 1 then s[i].size
          else if s[i].baseOffset == s[i + 1].baseOffset then r[i + 1].size
          else if s[i + 1].baseOffset - s[i].baseOffset >= GapLimit then 0
          else s[i + 1].baseOffset - s[i].baseOffset)
  }

  lemma OwnSharingOfSuffix(s: seq<Symbol>, j: nat)
    requires j + 1 < |s|
    ensures OwnSharing(s[1..], j) == OwnSharing(s, j + 1)
  {
  }

  /** What the backward pass leaves on every symbol, stated index by index. */
  lemma {:induction false} PassPointwise(s: seq<Symbol>)
    ensures forall i :: 0 <= i < |s| ==> PassedAt(s, Pass(s), i)
    decreases |s|
  {
    var r := Pass(s);
    if |s| >= 2 {
      var t := s[1..];
      var rest := Pass(t);
      PassPointwise(t);
      assert PassedAt(t, rest, 0);
      forall i | 0 <= i < |s| ensures PassedAt(s, r, i) {
        if i >= 2 {
          assert r[i] == rest[i - 1];
          assert PassedAt(t, rest, i - 1);
          OwnSharingOfSuffix(s, i - 1);
          if i < |s| - 1 {
            assert r[i + 1] == rest[i];
          }
        } else if i == 1 {
          OwnSharingOfSuffix(s, 0);
          if |s| > 2 {
            assert r[2] == rest[1];
          }
        }
      }
    }
  }

  /** Coincident neighbours: the earlier one is shared and takes the later one's size;
      the later one turns from unique into shared(first) and otherwise keeps its status. */
  lemma CoincidentNeighbours(s: seq<Symbol>, i: nat)
    requires i + 1 < |s| && s[i].baseOffset == s[i + 1].baseOffset
    ensures Pass(s)[i].shared == Shared
    ensures Pass(s)[i].size == Pass(s)[i + 1].size
    ensures OwnSharing(s, i + 1) == Unique ==> Pass(s)[i + 1].shared == SharedFirst
    ensures OwnSharing(s, i + 1) != Unique ==> Pass(s)[i + 1].shared == OwnSharing(s, i + 1)
  {
    PassPointwise(s);
    assert PassedAt(s, Pass(s), i);
    assert PassedAt(s, Pass(s), i + 1);
  }

  /** A gap of `GapLimit` or more leaves size 0 and status unknown. */
  lemma WideGap(s: seq<Symbol>, i: nat)
    requires i + 1 < |s| && s[i + 1].baseOffset - s[i].baseOffset >= GapLimit
    ensures Pass(s)[i].size == 0 && Pass(s)[i].shared == Unknown
  {
    PassPointwise(s);
    assert PassedAt(s, Pass(s), i);
  }

  /** Any other gap between distinct addresses is the size. */
  lemma NarrowGap(s: seq<Symbol>, i: nat)
    requires i + 1 < |s| && s[i].baseOffset != s[i + 1].baseOffset
    requires s[i + 1].baseOffset - s[i].baseOffset < GapLimit
    ensures Pass(s)[i].size == s[i + 1].baseOffset - s[i].baseOffset
  {
    PassPointwise(s);
    assert PassedAt(s, Pass(s), i);
  }

  /** On address-sorted symbols whose sizes start in `[0, GapLimit)` (fresh symbols have
      size 0), every inferred size stays in `[0, GapLimit)` and the last symbol keeps its
      size. */
  lemma {:induction false} SizesBounded(s: seq<Symbol>)
    requires BaseSorted(s)
    requires forall i :: 0 <= i < |s| ==> 0 <= s[i].size < GapLimit
    ensures forall i :: 0 <= i < |s| ==> 0 <= Pass(s)[i].size < GapLimit
    ensures |s| > 0 ==> Pass(s)[|s| - 1].size == s[|s| - 1].size
    decreases |s|
  {
    var r := Pass(s);
    if |s| >= 2 {
      var rest := Pass(s[1..]);
      SizesBounded(s[1..]);
      assert s[0].baseOffset <= s[1].baseOffset;
      forall k | 1 <= k < |s| ensures r[k].size == rest[k - 1].size {
        if k >= 2 { assert r[k] == rest[k - 1]; }
      }
    }
  }

  /** Symbol `i` has a successor at the same address. */
  predicate CoincidesWithNext(s: seq<Symbol>, i: nat) {
    i + 1 < |s| && s[i].baseOffset == s[i + 1].baseOffset
  }

  /** With no symbol marked shared beforehand (fresh symbols are unique), a symbol ends
      up shared exactly when its successor has the same address. */
  lemma SharedIffCoincidentSuccessor(s: seq<Symbol>)
    requires forall i :: 0 <= i < |s| ==> s[i].shared != Shared
    ensures forall i :: 0 <= i < |s| ==> (Pass(s)[i].shared == Shared <==> CoincidesWithNext(s, i))
  {
    PassPointwise(s);
    forall i | 0 <= i < |s| ensures Pass(s)[i].shared == Shared <==> CoincidesWithNext(s, i) {
      assert PassedAt(s, Pass(s), i);
      SharedAt(s, Pass(s)[i], i);
    }
  }

  /** One index of the above, from what the pass leaves there. */
  lemma SharedAt(s: seq<Symbol>, ri: Symbol, i: nat)
    requires i < |s| && s[i].shared != Shared
    requires ri.shared ==
      (if i > 0 && s[i - 1].baseOffset == s[i].baseOffset && OwnSharing(s, i) == Unique
       then SharedFirst else OwnSharing(s, i))
    ensures ri.shared == Shared <==> CoincidesWithNext(s, i)
  {
  }

  /** Among address-sorted symbols with none marked shared beforehand, the symbols left
      not shared have pairwise distinct addresses: every address is counted once when the
      shared ones are left out. */
  lemma OneUnsharedPerAddress(s: seq<Symbol>)
    requires BaseSorted(s)
    requires forall i :: 0 <= i < |s| ==> s[i].shared != Shared
    ensures forall i, j ::
      (0 <= i < j < |s| && Pass(s)[i].shared != Shared && Pass(s)[j].shared != Shared) ==>
      Pass(s)[i].baseOffset < Pass(s)[j].baseOffset
  {
    SharedIffCoincidentSuccessor(s);
    PassPointwise(s);
    var r := Pass(s);
    forall i, j | 0 <= i < j < |s| && r[i].shared != Shared && r[j].shared != Shared
      ensures r[i].baseOffset < r[j].baseOffset
    {
      assert PassedAt(s, r, i) && PassedAt(s, r, j);
      assert s[i].baseOffset <= s[i + 1].baseOffset <= s[j].baseOffset;
    }
  }

  /** The pass changes only sizes and statuses, so it keeps the symbols' identities and
      their address order. */
  lemma PassKeepsIdentity(s: seq<Symbol>)
    ensures Map(Parsed, Pass(s)) == Map(Parsed, s)
    ensures forall i :: 0 <= i < |s| ==> Pass(s)[i].baseOffset == s[i].baseOffset
  {
    PassPointwise(s);
    var r := Pass(s);
    forall i | 0 <= i < |s| ensures Parsed(r[i]) == Parsed(s[i]) && r[i].baseOffset == s[i].baseOffset {
      assert PassedAt(s, r, i);
    }
  }

  /** Sorting the kept symbols leaves only symbols at or above the image base. */
  lemma SortedKeptAbove(syms: seq<Symbol>, imageBase: int)
    ensures forall x :: x in SortBy(AtOrAbove(syms, imageBase), BaseKey) ==> x.baseOffset >= imageBase
  {
    var kept := AtOrAbove(syms, imageBase);
    var sorted := SortBy(kept, BaseKey);
    forall x | x in sorted ensures x.baseOffset >= imageBase {
      assert x in multiset(kept);
    }
  }

  /** `CalculateSizes`: keep the symbols at or above the first symbol's address (the image
      base), sort them by address, then infer sizes. */
  function CalculateSizes(syms: seq<Symbol>): (r: seq<Symbol>)
    requires |syms| > 0
    ensures BaseSorted(r)
    ensures forall i :: 0 <= i < |r| ==> r[i].baseOffset >= syms[0].baseOffset
    ensures multiset(Map(Parsed, r)) == multiset(Map(Parsed, AtOrAbove(syms, syms[0].baseOffset)))
  {
    var kept := AtOrAbove(syms, syms[0].baseOffset);
    var sorted := SortBy(kept, BaseKey);
    SortedByBase(sorted);
    PassKeepsIdentity(sorted);
    MapPermutation(Parsed, sorted, kept);
    SortedKeptAbove(syms, syms[0].baseOffset);
    Pass(sorted)
  }

  /** Starting from sizes in `[0, GapLimit)`, as freshly read symbols have, every size
      `CalculateSizes` infers is in `[0, GapLimit)`. */
  lemma CalculateSizesBounded(syms: seq<Symbol>)
    requires |syms| > 0
    requires forall i :: 0 <= i < |syms| ==> 0 <= syms[i].size < GapLimit
    ensures forall i :: 0 <= i < |CalculateSizes(syms)| ==> 0 <= CalculateSizes(syms)[i].size < GapLimit
  {
    var kept := AtOrAbove(syms, syms[0].baseOffset);
    var sorted := SortBy(kept, BaseKey);
    forall i | 0 <= i < |sorted| ensures 0 <= sorted[i].size < GapLimit {
      assert sorted[i] in multiset(kept);
    }
    SortedByBase(sorted);
    SizesBounded(sorted);
  }
}
