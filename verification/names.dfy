/** Group names of a symbol (`Symbol.GetGroupNames` and `Symbol.GetVariations`).

    A symbol belongs to four scoped groups (`kind:`, `library:`, `object:`, `symbol:`) and
    to groups named after the pieces of its library, object and name between the
    delimiters `? $ @ < > .`. A piece that looks like an identifier is further cut into
    words at camel-case humps and underscores; the words' adjacent pairs and the
    capitalised words become groups too. */
module Names {
  import opened Text
  import opened Seqs
  import opened Symbols

  /** A word boundary at `i`: a lower-case letter followed by an upper-case letter or
      an underscore. */
  predicate BoundaryAt(name: string, i: nat)
    requires 1 <= i < |name|
  {
    IsLower(name[i - 1]) && (IsUpper(name[i]) || name[i] == '_')
  }

  /** The word-cutting loop of `GetVariations`, from index `i` of what is left of the name:
      the words cut off so far and the remainder. At a camel-case hump the word is
      everything before the hump; at an underscore it is everything before it, leading
      underscores dropped, with one underscore appended, and the underscore itself is
      skipped. Either way the scan starts again at index 1 of the remainder. The last
      character is never examined. */
  function Scan(name: string, i: nat): (r: (seq<string>, string))
    requires i >= 1
    ensures forall k :: 0 <= k < |r.0| ==> |r.0[k]| > 0
    decreases |name|, |name| - i
  {
    if i + 1 >= |name| then ([], name)
    else if IsUpper(name[i]) && IsLower(name[i - 1]) then
      var more := Scan(name[i..], 1);
      ([name[..i]] + more.0, more.1)
    else if name[i] == '_' && IsLower(name[i - 1]) then
      var more := Scan(name[i + 1..], 1);
      ([TrimStart(name[..i], '_') + "_"] + more.0, more.1)
    else Scan(name, i + 1)
  }

  /** The words of a name: the words the scan cuts off, then the remainder when the scan
      cut anything and the remainder is not empty. */
  function Words(name: string): (ws: seq<string>)
    ensures forall k :: 0 <= k < |ws| ==> |ws[k]| > 0
  {
    var sc := Scan(name, 2);
    if |sc.0| > 0 && |sc.1| > 0 then sc.0 + [sc.1] else sc.0
  }

  /** A word kept on its own: at least three characters, upper-case then lower-case. */
  predicate IsTitleWord(w: string) {
    |w| >= 3 && IsUpper(w[0]) && IsLower(w[1])
  }

  /** Each word joined with the next. */
  function Bigrams(ws: seq<string>): (r: seq<string>)
    requires |ws| >= 1
    ensures |r| == |ws| - 1
  {
    seq(|ws| - 1, k requires 0 <= k < |ws| - 1 => ws[k] + ws[k + 1])
  }

  /** `GetVariations`: with more than two words, every adjacent pair of words joined;
      then every title word. */
  function Variations(name: string): (r: seq<string>)
    ensures forall v :: v in r <==>
      (|Words(name)| > 2 && exists k :: 0 <= k < |Words(name)| - 1 && v == Words(name)[k] + Words(name)[k + 1])
      || (v in Words(name) && IsTitleWord(v))
    ensures forall v :: v in r ==> |v| >= 2
  {
    var ws := Words(name);
    var pairs := if |ws| > 2 then Bigrams(ws) else [];
    var titles := Filter(IsTitleWord, ws);
    assert forall v :: v in pairs <==>
      |ws| > 2 && exists k :: 0 <= k < |ws| - 1 && v == ws[k] + ws[k + 1]
    by {
      forall v | v in pairs ensures exists k :: 0 <= k < |ws| - 1 && v == ws[k] + ws[k + 1] {
        var k :| 0 <= k < |pairs| && pairs[k] == v;
        assert v == ws[k] + ws[k + 1];
      }
      if |ws| > 2 {
        forall k | 0 <= k < |ws| - 1 ensures ws[k] + ws[k + 1] in pairs {
          assert pairs[k] == ws[k] + ws[k + 1];
        }
      }
    }
    assert forall k :: 0 <= k < |pairs| ==> |pairs[k]| >= 2;
    pairs + titles
  }

  /** The scan step at a camel-case hump cuts off everything before it. */
  lemma HumpStep(name: string, i: nat)
    requires 1 <= i && i + 1 < |name| && IsUpper(name[i]) && IsLower(name[i - 1])
    ensures Scan(name, i) == ([name[..i]] + Scan(name[i..], 1).0, Scan(name[i..], 1).1)
  {
  }

  /** The scan step at an underscore cuts off everything before it, leading underscores
      dropped and one appended, and skips the underscore. */
  lemma UnderscoreStep(name: string, i: nat)
    requires 1 <= i && i + 1 < |name| && name[i] == '_' && IsLower(name[i - 1])
    ensures Scan(name, i) == ([TrimStart(name[..i], '_') + "_"] + Scan(name[i + 1..], 1).0, Scan(name[i + 1..], 1).1)
  {
  }

  /** Away from a boundary the scan moves on by one. */
  lemma SkipStep(name: string, i: nat)
    requires 1 <= i && i + 1 < |name| && !BoundaryAt(name, i)
    ensures Scan(name, i) == Scan(name, i + 1)
  {
  }

  /** Cutting `w` off moves it from the scan to the words already cut. */
  lemma CutMoves(words: seq<string>, w: string, rest: seq<string>)
    ensures (words + [w]) + rest == words + ([w] + rest)
  {
  }

  /** The word-cutting loop as written, with the index reset and the name shortened in
      place. */
  method CutWords(original: string) returns (words: seq<string>, name: string)
    ensures (words, name) == Scan(original, 2)
  {
    words := [];
    name := original;
    var i := 2;
    assert words + Scan(name, i).0 == Scan(name, i).0;
    while i < |name| - 1
      invariant i >= 1
      invariant words + Scan(name, i).0 == Scan(original, 2).0
      invariant Scan(name, i).1 == Scan(original, 2).1
      decreases |name|, |name| - i
    {
      if IsUpper(name[i]) && IsLower(name[i - 1]) {
        var w := name[..i];
        HumpStep(name, i);
        CutMoves(words, w, Scan(name[i..], 1).0);
        words := words + [w];
        name := name[i..];
        i := 0;
      } else if name[i] == '_' && IsLower(name[i - 1]) {
        var w := TrimStart(name[..i], '_') + "_";
        UnderscoreStep(name, i);
        CutMoves(words, w, Scan(name[i + 1..], 1).0);
        words := words + [w];
        name := name[i + 1..];
        i := 0;
      } else {
        SkipStep(name, i);
      }
      i := i + 1;
    }
    assert Scan(name, i) == ([], name);
    assert words == words + Scan(name, i).0;
  }

  /** No boundary anywhere the scan looks, from index `i` on. */
  predicate NoBoundaryFrom(name: string, i: nat) {
    forall j :: i <= j < |name| - 1 && j >= 1 ==> !BoundaryAt(name, j)
  }

  /** The scan cuts nothing exactly when it finds no boundary. */
  lemma {:induction false} ScanEmpty(name: string, i: nat)
    requires i >= 1
    ensures Scan(name, i).0 == [] <==> NoBoundaryFrom(name, i)
    ensures Scan(name, i).0 == [] ==> Scan(name, i).1 == name
    decreases |name| - i
  {
    if i + 1 < |name| {
      if !BoundaryAt(name, i) {
        ScanEmpty(name, i + 1);
      }
    }
  }

  /** A name without a boundary at index 2 or later has no words and no variations. */
  lemma NoBoundaryNoWords(name: string)
    ensures Words(name) == [] <==> NoBoundaryFrom(name, 2)
    ensures NoBoundaryFrom(name, 2) ==> Variations(name) == []
  {
    ScanEmpty(name, 2);
  }

  /** A scan result spells `name`: its words followed by the remainder are the name, no
      word is empty, every word ends in a lower-case letter, and every piece after the
      first starts with an upper-case one. */
  ghost predicate Spelled(r: (seq<string>, string), name: string) {
    && Concat(r.0) + r.1 == name
    && (forall k :: 0 <= k < |r.0| ==> |r.0[k]| > 0)
    && (forall k :: 0 <= k < |r.0| ==> IsLower(Last(r.0[k])))
    && (forall k :: 1 <= k < |r.0| ==> IsUpper(r.0[k][0]))
    && (|r.0| > 0 ==> |r.1| > 0 && IsUpper(r.1[0]))
  }

  /** The scan step at a camel-case hump of a name without underscores keeps it spelled. */
  lemma HumpSpells(name: string, i: nat)
    requires 1 <= i && i + 1 < |name| && IsUpper(name[i]) && IsLower(name[i - 1])
    requires Spelled(Scan(name[i..], 1), name[i..])
    ensures Spelled(Scan(name, i), name)
  {
    var rest := name[i..];
    var more := Scan(rest, 1);
    var sc := Scan(name, i);
    HumpStep(name, i);
    ConcatCons(name[..i], more.0);
    assert sc.0 == [name[..i]] + more.0;
    assert name == name[..i] + rest;
    ScanEmpty(rest, 1);
    forall k | 1 <= k < |sc.0| ensures IsUpper(sc.0[k][0]) {
      assert sc.0[k] == more.0[k - 1];
      if k == 1 {
        ConcatCons(more.0[0], more.0[1..]);
        assert more.0 == [more.0[0]] + more.0[1..];
        assert rest[0] == more.0[0][0];
      }
    }
    forall k | 0 <= k < |sc.0| ensures |sc.0[k]| > 0 && IsLower(Last(sc.0[k])) {
      if k > 0 {
        assert sc.0[k] == more.0[k - 1];
      }
    }
  }

  /** For a name without underscores the words the scan cuts off, followed by the
      remainder, spell the name again; every word it cuts ends in a lower-case letter,
      and every later piece starts with an upper-case one. */
  lemma {:induction false} ScanSpells(name: string, i: nat)
    requires i >= 1 && NoneIn(name, {'_'})
    ensures Spelled(Scan(name, i), name)
    decreases |name|, |name| - i
  {
    if i + 1 >= |name| {
      assert Scan(name, i) == ([], name);
    } else if IsUpper(name[i]) && IsLower(name[i - 1]) {
      NoneInSlice(name, i, |name|, {'_'});
      ScanSpells(name[i..], 1);
      HumpSpells(name, i);
    } else {
      assert name[i] !in {'_'};
      SkipStep(name, i);
      ScanSpells(name, i + 1);
    }
  }

  /** For a name without underscores the words spell the name (when there are any). */
  lemma WordsSpell(name: string)
    requires NoneIn(name, {'_'})
    ensures |Words(name)| > 0 ==> Concat(Words(name)) == name
    ensures forall k :: 0 <= k < |Words(name)| - 1 ==> IsLower(Last(Words(name)[k]))
    ensures forall k :: 1 <= k < |Words(name)| ==> IsUpper(Words(name)[k][0])
  {
    var sc := Scan(name, 2);
    ScanSpells(name, 2);
    if |sc.0| > 0 {
      ConcatAppend(sc.0, [sc.1]);
      assert Concat([sc.1]) == sc.1;
      assert Words(name) == sc.0 + [sc.1];
    }
  }

  /** A string with its underscores left out. */
  function Letters(s: string): (r: string)
    ensures NoneIn(r, {'_'})
  {
    if |s| == 0 then []
    else (if s[0] == '_' then [] else [s[0]]) + Letters(s[1..])
  }

  lemma {:induction false} LettersAppend(a: string, b: string)
    ensures Letters(a + b) == Letters(a) + Letters(b)
    decreases |a|
  {
    if |a| > 0 {
      LettersAppend(a[1..], b);
      assert (a + b)[1..] == a[1..] + b;
    } else {
      assert a + b == b;
    }
  }

  lemma {:induction false} LettersOfUnderscores(s: string)
    requires forall k :: 0 <= k < |s| ==> s[k] == '_'
    ensures Letters(s) == []
    decreases |s|
  {
    if |s| > 0 {
      LettersOfUnderscores(s[1..]);
    }
  }

  /** Leading underscores leave no letters. */
  lemma LettersAfterUnderscores(u: string, r: string)
    requires forall k :: 0 <= k < |u| ==> u[k] == '_'
    ensures Letters(u + r) == Letters(r)
  {
    LettersAppend(u, r);
    LettersOfUnderscores(u);
    assert Letters(u + r) == [] + Letters(r);
  }

  /** A trailing underscore leaves no letter. */
  lemma LettersBeforeUnderscore(r: string)
    ensures Letters(r + "_") == Letters(r)
  {
    LettersAppend(r, "_");
    LettersOfUnderscores("_");
    assert Letters(r + "_") == Letters(r) + [];
  }

  lemma LettersTrimmed(s: string)
    ensures Letters(TrimStart(s, '_') + "_") == Letters(s)
  {
    var r := TrimStart(s, '_');
    var u := s[..|s| - |r|];
    assert forall k :: 0 <= k < |u| ==> u[k] == '_';
    assert s == u + r;
    LettersAfterUnderscores(u, r);
    LettersBeforeUnderscore(r);
  }

  /** Cutting at the underscore at `i` keeps the letters, whatever spells the rest the
      same way. */
  lemma UnderscoreKeepsLetters(name: string, i: nat, tail: string)
    requires i < |name| && name[i] == '_'
    requires Letters(tail) == Letters(name[i + 1..])
    ensures Letters(TrimStart(name[..i], '_') + "_" + tail) == Letters(name)
  {
    var w := TrimStart(name[..i], '_') + "_";
    LettersAppend(w, tail);
    LettersTrimmed(name[..i]);
    assert name == name[..i] + ([name[i]] + name[i + 1..]);
    LettersAppend(name[..i], [name[i]] + name[i + 1..]);
    LettersAppend([name[i]], name[i + 1..]);
    LettersOfUnderscores([name[i]]);
  }

  /** Underscores aside, the words of a scan result and its remainder spell `name`. */
  ghost predicate Spells(r: (seq<string>, string), name: string) {
    Letters(Concat(r.0) + r.1) == Letters(name)
  }

  /** The scan step at a camel-case hump keeps the letters. */
  lemma HumpKeepsLetters(name: string, i: nat)
    requires 1 <= i && i + 1 < |name| && IsUpper(name[i]) && IsLower(name[i - 1])
    requires Spells(Scan(name[i..], 1), name[i..])
    ensures Spells(Scan(name, i), name)
  {
    HumpStep(name, i);
    HumpWordKeepsLetters(name, i, Scan(name[i..], 1));
  }

  /** Cutting the word before index `i` off a name keeps the letters, whatever spells the
      rest. */
  lemma HumpWordKeepsLetters(name: string, i: nat, more: (seq<string>, string))
    requires i <= |name| && Spells(more, name[i..])
    ensures Spells(([name[..i]] + more.0, more.1), name)
  {
    var w := name[..i];
    var tail := Concat(more.0) + more.1;
    ConcatCons(w, more.0);
    assert Concat([w] + more.0) + more.1 == w + tail;
    PrefixKeepsLetters(name, i, tail);
  }

  /** Cutting at index `i` keeps the letters, whatever spells the rest the same way. */
  lemma PrefixKeepsLetters(name: string, i: nat, tail: string)
    requires i <= |name| && Letters(tail) == Letters(name[i..])
    ensures Letters(name[..i] + tail) == Letters(name)
  {
    LettersAppend(name[..i], tail);
    assert name == name[..i] + name[i..];
    LettersAppend(name[..i], name[i..]);
  }

  /** The scan step at an underscore keeps the letters. */
  lemma UnderscoreStepKeepsLetters(name: string, i: nat)
    requires 1 <= i && i + 1 < |name| && name[i] == '_' && IsLower(name[i - 1])
    requires Spells(Scan(name[i + 1..], 1), name[i + 1..])
    ensures Spells(Scan(name, i), name)
  {
    UnderscoreStep(name, i);
    UnderscoreWordKeepsLetters(name, i, Scan(name[i + 1..], 1));
  }

  /** Cutting the underscore word before index `i` off a name keeps the letters, whatever
      spells the rest. */
  lemma UnderscoreWordKeepsLetters(name: string, i: nat, more: (seq<string>, string))
    requires i < |name| && name[i] == '_' && Spells(more, name[i + 1..])
    ensures Spells(([TrimStart(name[..i], '_') + "_"] + more.0, more.1), name)
  {
    var w := TrimStart(name[..i], '_') + "_";
    var tail := Concat(more.0) + more.1;
    ConcatCons(w, more.0);
    assert Concat([w] + more.0) + more.1 == w + tail;
    UnderscoreKeepsLetters(name, i, tail);
  }

  /** Underscores aside, the words the scan cuts off and the remainder spell the name: an
      underscore word only trades the name's underscores for one of its own. */
  lemma {:induction false} ScanKeepsLetters(name: string, i: nat)
    requires i >= 1
    ensures Spells(Scan(name, i), name)
    decreases |name|, |name| - i
  {
    if i + 1 >= |name| {
      assert Scan(name, i) == ([], name);
      assert Concat(Scan(name, i).0) + Scan(name, i).1 == name;
    } else if IsUpper(name[i]) && IsLower(name[i - 1]) {
      ScanKeepsLetters(name[i..], 1);
      HumpKeepsLetters(name, i);
    } else if name[i] == '_' && IsLower(name[i - 1]) {
      ScanKeepsLetters(name[i + 1..], 1);
      UnderscoreStepKeepsLetters(name, i);
    } else {
      SkipStep(name, i);
      ScanKeepsLetters(name, i + 1);
    }
  }

  /** Underscores aside, the words spell the name. */
  lemma WordsKeepLetters(name: string)
    requires |Words(name)| > 0
    ensures Letters(Concat(Words(name))) == Letters(name)
  {
    var sc := Scan(name, 2);
    ScanKeepsLetters(name, 2);
    ConcatAppend(sc.0, [sc.1]);
    assert Concat([sc.1]) == sc.1;
    if |sc.1| == 0 {
      assert Concat(sc.0) + sc.1 == Concat(sc.0);
    }
  }

  /** Putting a word that avoids `cs` in front of words that avoid it. */
  lemma ConsAvoids(w: string, ws: seq<string>, cs: set<char>)
    requires NoneIn(w, cs) && forall k :: 0 <= k < |ws| ==> NoneIn(ws[k], cs)
    ensures forall k :: 0 <= k < |[w] + ws| ==> NoneIn(([w] + ws)[k], cs)
  {
    forall k | 0 <= k < |[w] + ws| ensures NoneIn(([w] + ws)[k], cs) {
      if k > 0 { assert ([w] + ws)[k] == ws[k - 1]; }
    }
  }

  /** Every word of a scan result and its remainder avoid the characters `cs`. */
  ghost predicate Avoided(r: (seq<string>, string), cs: set<char>) {
    (forall k :: 0 <= k < |r.0| ==> NoneIn(r.0[k], cs)) && NoneIn(r.1, cs)
  }

  /** The scan step at a camel-case hump keeps the words avoiding `cs`. */
  lemma HumpAvoided(name: string, i: nat, cs: set<char>)
    requires 1 <= i && i + 1 < |name| && IsUpper(name[i]) && IsLower(name[i - 1])
    requires '_' !in cs && NoneIn(name, cs)
    ensures Avoided(Scan(name, i), cs)
    decreases |name|, |name| - i, 0
  {
    var more := Scan(name[i..], 1);
    NoneInSlice(name, i, |name|, cs);
    NoneInSlice(name, 0, i, cs);
    ScanAvoids(name[i..], 1, cs);
    HumpStep(name, i);
    ConsAvoids(name[..i], more.0, cs);
  }

  /** The scan step at an underscore keeps the words avoiding `cs`, when `cs` does not
      hold the underscore it appends. */
  lemma UnderscoreAvoided(name: string, i: nat, cs: set<char>)
    requires 1 <= i && i + 1 < |name| && name[i] == '_' && IsLower(name[i - 1])
    requires '_' !in cs && NoneIn(name, cs)
    ensures Avoided(Scan(name, i), cs)
    decreases |name|, |name| - i, 0
  {
    var more := Scan(name[i + 1..], 1);
    var w := TrimStart(name[..i], '_');
    NoneInSlice(name, i + 1, |name|, cs);
    NoneInSlice(name, 0, i, cs);
    ScanAvoids(name[i + 1..], 1, cs);
    UnderscoreStep(name, i);
    NoneInSlice(name[..i], i - |w|, i, cs);
    NoneInAppend(w, "_", cs);
    ConsAvoids(w + "_", more.0, cs);
  }

  /** The scan adds no character other than underscores: a set of characters without
      `_` that the name avoids, every word and the remainder avoid too. */
  lemma {:induction false} ScanAvoids(name: string, i: nat, cs: set<char>)
    requires i >= 1 && '_' !in cs && NoneIn(name, cs)
    ensures Avoided(Scan(name, i), cs)
    decreases |name|, |name| - i, 1
  {
    if i + 1 >= |name| {
      assert Scan(name, i) == ([], name);
    } else if IsUpper(name[i]) && IsLower(name[i - 1]) {
      HumpAvoided(name, i, cs);
    } else if name[i] == '_' && IsLower(name[i - 1]) {
      UnderscoreAvoided(name, i, cs);
    } else {
      SkipStep(name, i);
      ScanAvoids(name, i + 1, cs);
    }
  }

  /** The words of a name avoid what the name avoids, `_` aside. */
  lemma WordsAvoid(name: string, cs: set<char>)
    requires '_' !in cs && NoneIn(name, cs)
    ensures forall w :: w in Words(name) ==> NoneIn(w, cs)
  {
    var sc := Scan(name, 2);
    ScanAvoids(name, 2, cs);
    forall w | w in Words(name) ensures NoneIn(w, cs) {
      if w != sc.1 {
        var k :| 0 <= k < |sc.0| && sc.0[k] == w;
      }
    }
  }

  /** Variations of a name that avoids some characters other than `_` avoid them too. */
  lemma VariationsAvoid(name: string, cs: set<char>)
    requires '_' !in cs && NoneIn(name, cs)
    ensures forall v :: v in Variations(name) ==> NoneIn(v, cs)
  {
    var ws := Words(name);
    WordsAvoid(name, cs);
    forall v | v in Variations(name) ensures NoneIn(v, cs) {
      if v !in ws {
        var k :| 0 <= k < |ws| - 1 && v == ws[k] + ws[k + 1];
        assert ws[k] in ws && ws[k + 1] in ws;
        NoneInAppend(ws[k], ws[k + 1], cs);
      }
    }
  }

  /** Every piece is a substring of the concatenation. */
  lemma PieceOccurs(ws: seq<string>, k: nat)
    requires k < |ws|
    ensures Contains(Concat(ws), ws[k])
  {
    ConcatAt(ws, k);
    ContainsInfix(Concat(ws[..k]), ws[k], Concat(ws[k + 1..]));
  }

  /** Every piece joined with the next is a substring of the concatenation. */
  lemma PairOccurs(ws: seq<string>, k: nat)
    requires k + 1 < |ws|
    ensures Contains(Concat(ws), ws[k] + ws[k + 1])
  {
    var before, after := Concat(ws[..k]), Concat(ws[k + 2..]);
    var a, b := ws[k], ws[k + 1];
    ConcatAt(ws, k);
    assert ws[k + 1..] == [b] + ws[k + 2..];
    ConcatCons(b, ws[k + 2..]);
    assert Concat(ws) == before + (a + b) + after;
    ContainsInfix(before, a + b, after);
  }

  /** In a name without underscores every variation is a substring of the name. */
  lemma VariationsOccur(name: string)
    requires NoneIn(name, {'_'})
    ensures forall v :: v in Variations(name) ==> Contains(name, v)
  {
    var ws := Words(name);
    WordsSpell(name);
    forall v | v in Variations(name) ensures Contains(name, v) {
      if v in ws {
        var k :| 0 <= k < |ws| && ws[k] == v;
        PieceOccurs(ws, k);
      } else {
        var k :| 0 <= k < |ws| - 1 && v == ws[k] + ws[k + 1];
        PairOccurs(ws, k);
      }
    }
  }

  /** The characters `GetGroupNames` splits at. */
  const Delims: set<char> := {'?', '$', '@', '<', '>', '.'}

  /** A part that looks like an identifier: longer than four characters, with a
      lower-case letter and an upper-case letter or an underscore. */
  predicate Wordy(part: string) {
    HasLower(part) && (HasUpper(part) || '_' in part) && |part| > 4
  }

  /** The group names one part of `thing` contributes: a wordy part with its
      variations; any other part longer than two characters, unless `thing` has it right
      after a colon. */
  function PartNames(thing: string, part: string): (r: seq<string>)
    ensures |r| > 0 ==> r[0] == part
    ensures forall x :: x in r ==> x == part || x in Variations(part)
    ensures |part| <= 2 ==> r == []
    ensures part in r <==> Wordy(part) || (|part| > 2 && !Contains(thing, ":" + part))
    ensures Wordy(part) ==> r[1..] == Variations(part)
    ensures !Wordy(part) ==> |r| <= 1
  {
    if Wordy(part) then [part] + Variations(part)
    else if |part| > 2 && !Contains(thing, ":" + part) then [part]
    else []
  }

  /** The group names of the parts of `thing`, part by part. */
  function ThingNames(thing: string): seq<string> {
    Concat(Map((p: string) => PartNames(thing, p), Split(thing, Delims)))
  }

  /** The four scoped group names, in the order they are added. */
  function ScopedNames(s: Symbol): seq<string> {
    ["kind:" + s.kind, "library:" + s.library, "object:" + s.objectFile, "symbol:" + s.name]
  }

  /** What gets split into parts: the library and the object file, each behind an `@`,
      and the name. */
  function Things(s: Symbol): seq<string> {
    ["@" + s.library, "@" + s.objectFile, s.name]
  }

  /** Every group name in the order it is added, repeats included. */
  function AllNames(s: Symbol): seq<string> {
    ScopedNames(s) + ThingNames(Things(s)[0]) + ThingNames(Things(s)[1]) + ThingNames(Things(s)[2])
  }

  lemma ScopedNamesDiffer(s: Symbol)
    ensures NoDups(ScopedNames(s))
  {
    var n := ScopedNames(s);
    assert n[0][0] == 'k' && n[1][0] == 'l' && n[2][0] == 'o' && n[3][0] == 's';
  }

  /** `GetGroupNames`: every group name once, in the order first added, so the four scoped
      names come first. */
  function GroupNames(s: Symbol): (r: seq<string>)
    ensures NoDups(r)
    ensures |r| >= 4 && r[..4] == ScopedNames(s)
    ensures forall x :: x in r <==> x in AllNames(s)
  {
    var all := AllNames(s);
    ScopedNamesDiffer(s);
    assert all[..4] == ScopedNames(s);
    DistinctKeepsPrefix(all, 4);
    Distinct(all)
  }

  /** A name comes from `thing` exactly when one of its parts contributes it. */
  lemma ThingNamesMembers(thing: string, x: string)
    ensures x in ThingNames(thing) <==>
      exists k :: 0 <= k < |Split(thing, Delims)| && x in PartNames(thing, Split(thing, Delims)[k])
  {
    var parts := Split(thing, Delims);
    var names := Map((p: string) => PartNames(thing, p), parts);
    ConcatMember(names, x);
    assert forall k :: 0 <= k < |parts| ==> names[k] == PartNames(thing, parts[k]);
  }

  /** The group names of a symbol: the four scoped names, and what the parts of its
      library, object file and name contribute. */
  lemma GroupNamesMembers(s: Symbol, x: string)
    ensures x in GroupNames(s) <==>
      x in ScopedNames(s) ||
      exists t, k :: t in Things(s) && 0 <= k < |Split(t, Delims)| && x in PartNames(t, Split(t, Delims)[k])
  {
    var th := Things(s);
    ThingNamesMembers(th[0], x);
    ThingNamesMembers(th[1], x);
    ThingNamesMembers(th[2], x);
    assert x in AllNames(s) <==>
      x in ScopedNames(s) || x in ThingNames(th[0]) || x in ThingNames(th[1]) || x in ThingNames(th[2]);
  }

  /** What a part contributes has none of the delimiters and at least two characters. */
  lemma PartNamesShape(thing: string, part: string)
    requires NoneIn(part, Delims)
    ensures forall x :: x in PartNames(thing, part) ==> NoneIn(x, Delims) && |x| >= 2
  {
    if Wordy(part) {
      VariationsAvoid(part, Delims);
    }
  }

  /** Past the four scoped names, no group name holds a delimiter or is shorter than two
      characters. */
  lemma GroupNamesShape(s: Symbol)
    ensures forall x :: x in GroupNames(s)[4..] ==> NoneIn(x, Delims) && |x| >= 2
  {
    var r := GroupNames(s);
    forall x | x in r[4..] ensures NoneIn(x, Delims) && |x| >= 2 {
      var j :| 4 <= j < |r| && r[j] == x;
      assert x !in ScopedNames(s) by {
        forall m | 0 <= m < 4 ensures r[m] != x { }
      }
      GroupNamesMembers(s, x);
      var t, k :| t in Things(s) && 0 <= k < |Split(t, Delims)| && x in PartNames(t, Split(t, Delims)[k]);
      PartNamesShape(t, Split(t, Delims)[k]);
    }
  }
}
