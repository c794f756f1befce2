/** Character classes, trimming, searching and splitting on strings.

    The original uses .NET string operations; this module gives them their ordinal
    reading: case tests and lower-casing cover ASCII letters only, and white space is
    the ASCII white-space characters. */
module Text {

  predicate IsLower(c: char) { 'a' <= c <= 'z' }

  predicate IsUpper(c: char) { 'A' <= c <= 'Z' }

  /** The characters `string.IsNullOrWhiteSpace` treats as blank, restricted to ASCII. */
  predicate IsWhiteSpace(c: char) {
    c == ' ' || c == '\t' || c == '\n' || c == '\r' || c == '\U{B}' || c == '\U{C}'
  }

  predicate IsBlank(s: string) {
    forall k :: 0 <= k < |s| ==> IsWhiteSpace(s[k])
  }

  function LowerChar(c: char): char {
    if IsUpper(c) then (c as int + 32) as char else c
  }

  function ToLower(s: string): string {
    seq(|s|, k requires 0 <= k < |s| => LowerChar(s[k]))
  }

  /** Lower-casing works character by character, so it distributes over concatenation. */
  lemma ToLowerAppend(a: string, b: string)
    ensures ToLower(a + b) == ToLower(a) + ToLower(b)
  {
    assert forall k :: 0 <= k < |a + b| ==> ToLower(a + b)[k] == (ToLower(a) + ToLower(b))[k];
  }

  /** Lower-casing turns no character into a colon. */
  lemma ToLowerNoColon(s: string)
    requires NoneIn(s, {':'})
    ensures NoneIn(ToLower(s), {':'})
  {
  }

  predicate HasLower(s: string) {
    exists k :: 0 <= k < |s| && IsLower(s[k])
  }

  predicate HasUpper(s: string) {
    exists k :: 0 <= k < |s| && IsUpper(s[k])
  }

  /** No character of `s` is in `cs`. */
  predicate NoneIn(s: string, cs: set<char>) {
    forall k :: 0 <= k < |s| ==> s[k] !in cs
  }

  /** A concatenation avoids a set of characters exactly when both halves do. */
  lemma NoneInAppend(a: string, b: string, cs: set<char>)
    ensures NoneIn(a + b, cs) <==> NoneIn(a, cs) && NoneIn(b, cs)
  {
    if NoneIn(a + b, cs) {
      forall k | 0 <= k < |a| ensures a[k] !in cs {
        assert a[k] == (a + b)[k];
      }
      forall k | 0 <= k < |b| ensures b[k] !in cs {
        assert b[k] == (a + b)[|a| + k];
      }
    }
  }

  /** Every slice of a string avoids what the string avoids. */
  lemma NoneInSlice(s: string, i: nat, j: nat, cs: set<char>)
    requires i <= j <= |s| && NoneIn(s, cs)
    ensures NoneIn(s[i..j], cs)
  {
    forall k | 0 <= k < j - i ensures s[i..j][k] !in cs {
      assert s[i..j][k] == s[i + k];
    }
  }

  /** `string.StartsWith` with an ordinal comparison. */
  predicate StartsWith(s: string, prefix: string) {
    prefix <= s
  }

  /** `t` occurs in `s` starting at index `k`. */
  predicate OccursAt(s: string, t: string, k: nat) {
    k + |t| <= |s| && s[k..k + |t|] == t
  }

  /** `string.Contains`: substring containment, scanning the start positions left to right. */
  predicate Contains(s: string, t: string)
    decreases |s|
  {
    t <= s || (0 < |s| && Contains(s[1..], t))
  }

  lemma {:induction false} ContainsIffOccurs(s: string, t: string)
    ensures Contains(s, t) <==> exists k: nat :: OccursAt(s, t, k)
    decreases |s|
  {
    if t <= s {
      assert OccursAt(s, t, 0);
    } else if 0 < |s| {
      ContainsIffOccurs(s[1..], t);
      if Contains(s[1..], t) {
        var k: nat :| OccursAt(s[1..], t, k);
        assert s[k + 1..k + 1 + |t|] == s[1..][k..k + |t|];
        assert OccursAt(s, t, k + 1);
      }
      if k: nat :| OccursAt(s, t, k) {
        assert k != 0;
        assert s[1..][k - 1..k - 1 + |t|] == s[k..k + |t|];
        assert OccursAt(s[1..], t, k - 1);
      }
    }
  }

  /** Whatever stands between two strings is contained in their concatenation. */
  lemma ContainsInfix(a: string, t: string, b: string)
    ensures Contains(a + t + b, t)
  {
    assert OccursAt(a + t + b, t, |a|) by {
      assert (a + t + b)[|a|..|a| + |t|] == t;
    }
    ContainsIffOccurs(a + t + b, t);
  }

  /** `string.IndexOfAny`: the first index holding a character of `cs`, or -1. */
  function IndexOfAny(s: string, cs: set<char>): (r: int)
    ensures -1 <= r < |s|
    ensures r < 0 <==> NoneIn(s, cs)
    ensures 0 <= r ==> s[r] in cs && NoneIn(s[..r], cs)
  {
    if |s| == 0 then -1
    else if s[0] in cs then 0
    else
      var k := IndexOfAny(s[1..], cs);
      if k < 0 then -1 else k + 1
  }

  /** The first position holding one of `cs` is the one with none before it. */
  lemma IndexOfAnyAt(s: string, ds: set<char>, i: nat)
    requires i < |s| && s[i] in ds && NoneIn(s[..i], ds)
    ensures IndexOfAny(s, ds) == i
  {
    assert !NoneIn(s, ds);
  }

  /** `string.IndexOf(char)`. */
  function IndexOf(s: string, c: char): int {
    IndexOfAny(s, {c})
  }

  /** `string.TrimStart(c)`: drops the leading run of `c`. */
  function TrimStart(s: string, c: char): (r: string)
    ensures |r| <= |s| && r == s[|s| - |r|..]
    ensures forall k :: 0 <= k < |s| - |r| ==> s[k] == c
    ensures |r| > 0 ==> r[0] != c
  {
    if |s| > 0 && s[0] == c then TrimStart(s[1..], c) else s
  }

  /** `string.TrimEnd(c)`: drops the trailing run of `c`. */
  function TrimEnd(s: string, c: char): (r: string)
    ensures |r| <= |s| && r == s[..|r|]
    ensures forall k :: |r| <= k < |s| ==> s[k] == c
    ensures |r| > 0 ==> r[|r| - 1] != c
  {
    if |s| > 0 && s[|s| - 1] == c then TrimEnd(s[..|s| - 1], c) else s
  }

  /** `string.Split(char[])`: the pieces between delimiters, empty pieces included. */
  function Split(s: string, delims: set<char>): (parts: seq<string>)
    ensures |parts| >= 1
    ensures forall p :: p in parts ==> NoneIn(p, delims)
    decreases |s|
  {
    var i := IndexOfAny(s, delims);
    if i < 0 then [s] else [s[..i]] + Split(s[i + 1..], delims)
  }

  /** `string.Join`: the inverse of splitting on a single delimiter. */
  function Join(parts: seq<string>, d: char): string
    requires |parts| >= 1
  {
    if |parts| == 1 then parts[0] else parts[0] + [d] + Join(parts[1..], d)
  }

  /** Splitting at the first delimiter, found at `i`. */
  lemma SplitAt(s: string, ds: set<char>, i: nat)
    requires i < |s| && s[i] in ds && NoneIn(s[..i], ds)
    ensures Split(s, ds) == [s[..i]] + Split(s[i + 1..], ds)
  {
    IndexOfAnyAt(s, ds, i);
  }

  /** A string without delimiters is its only piece. */
  lemma SplitWithoutDelim(s: string, ds: set<char>)
    requires NoneIn(s, ds)
    ensures Split(s, ds) == [s]
  {
  }

  lemma JoinCons(p: string, rest: seq<string>, d: char)
    requires |rest| >= 1
    ensures Join([p] + rest, d) == p + [d] + Join(rest, d)
  {
    assert ([p] + rest)[1..] == rest;
  }

  lemma {:induction false} SplitThenJoin(s: string, d: char)
    ensures Join(Split(s, {d}), d) == s
    decreases |s|
  {
    var i := IndexOfAny(s, {d});
    if i < 0 {
      SplitWithoutDelim(s, {d});
    } else {
      var rest := Split(s[i + 1..], {d});
      SplitAt(s, {d}, i);
      SplitThenJoin(s[i + 1..], d);
      JoinCons(s[..i], rest, d);
      assert s == s[..i] + [d] + s[i + 1..];
    }
  }

  lemma {:induction false} JoinThenSplit(parts: seq<string>, d: char)
    requires |parts| >= 1
    requires forall k :: 0 <= k < |parts| ==> NoneIn(parts[k], {d})
    ensures Split(Join(parts, d), {d}) == parts
    decreases |parts|
  {
    if |parts| == 1 {
      SplitWithoutDelim(parts[0], {d});
    } else {
      var n := |parts[0]|;
      var tail := Join(parts[1..], d);
      var s := parts[0] + [d] + tail;
      assert s[..n] == parts[0] && s[n] == d && s[n + 1..] == tail;
      SplitAt(s, {d}, n);
      JoinThenSplit(parts[1..], d);
      assert parts == [parts[0]] + parts[1..];
    }
  }

  /** The non-empty strings of `xs`, in order. */
  function NonEmpty(xs: seq<string>): (r: seq<string>)
    ensures forall k :: 0 <= k < |r| ==> r[k] != []
  {
    if |xs| == 0 then []
    else if xs[0] == [] then NonEmpty(xs[1..])
    else [xs[0]] + NonEmpty(xs[1..])
  }

  /** The maximal runs of non-space characters of `s`: what "space-separated fields" means. */
  function Tokens(s: string): seq<string> {
    NonEmpty(Split(s, {' '}))
  }
}
