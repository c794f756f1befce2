/** Symbol filters (`MapData.Filter`). A filter argument keeps the symbols whose chosen
    field contains its text; a leading `-` turns it into one that removes them instead. A
    scope prefix `symbol:`, `library:`, `object:` or `kind:` picks the field; without one,
    any of the four may contain the text. The name is compared in lower case; the other
    fields are compared as they are, against the lower-cased filter text. */
module Filters {
  import opened Text
  import opened Seqs
  import opened Symbols

  datatype Scope = NameScope | LibraryScope | ObjectScope | KindScope | AnyScope

  /** A filter argument, read: whether it removes its matches, the field it looks at and
      the text it looks for. */
  datatype Query = Query(removeMatches: bool, scope: Scope, needle: string)

  /** The scope a lower-cased filter text selects by its prefix. */
  function ScopeOf(t: string): Scope {
    if StartsWith(t, "symbol:") then NameScope
    else if StartsWith(t, "library:") then LibraryScope
    else if StartsWith(t, "object:") then ObjectScope
    else if StartsWith(t, "kind:") then KindScope
    else AnyScope
  }

  /** Reads a filter argument. The text after the leading `-` is lower-cased; when its
      first `:` is not at the very start, everything up to that `:` is cut off, whether
      or not it named a scope. */
  function ParseQuery(text: string): (q: Query)
    ensures q.removeMatches <==> StartsWith(text, "-")
    ensures |q.needle| <= |text|
  {
    var removeMatches := StartsWith(text, "-");
    var t := ToLower(if removeMatches then text[1..] else text);
    var at := IndexOf(t, ':');
    Query(removeMatches, ScopeOf(t), if at > 0 then t[at + 1..] else t)
  }

  /** Whether the query's field of `s` contains the query's text. */
  predicate Matches(s: Symbol, scope: Scope, needle: string)
    ensures Matches(s, scope, needle) ==>
      Contains(ToLower(s.name), needle) || Contains(s.library, needle)
      || Contains(s.objectFile, needle) || Contains(s.kind, needle)
  {
    match scope
    case NameScope => Contains(ToLower(s.name), needle)
    case LibraryScope => Contains(s.library, needle)
    case ObjectScope => Contains(s.objectFile, needle)
    case KindScope => Contains(s.kind, needle)
    case AnyScope =>
      Contains(ToLower(s.name), needle) || Contains(s.library, needle)
      || Contains(s.objectFile, needle) || Contains(s.kind, needle)
  }

  /** Whether the filter `text` lets `s` through. */
  predicate Passes(s: Symbol, text: string) {
    var q := ParseQuery(text);
    Matches(s, q.scope, q.needle) != q.removeMatches
  }

  /** `MapData.Filter`: the symbols the filter lets through, in their original order. */
  function ApplyFilter(syms: seq<Symbol>, text: string): (r: seq<Symbol>)
    ensures forall x :: x in r <==> x in syms && Passes(x, text)
    ensures IsSubsequence(r, syms)
  {
    var pass := (s: Symbol) => Passes(s, text);
    FilterIsSubsequence(pass, syms);
    Filter(pass, syms)
  }

  /** A leading `-` flips only whether matches are removed. */
  lemma ParseNegated(t: string)
    requires !StartsWith(t, "-")
    ensures ParseQuery("-" + t) == ParseQuery(t).(removeMatches := true)
  {
    assert ("-" + t)[1..] == t;
  }

  /** `t` and `-t` split the symbols between them: every symbol is let through by exactly
      one of the two, and together they keep every copy of every symbol once. */
  lemma FilterComplement(syms: seq<Symbol>, t: string)
    requires !StartsWith(t, "-")
    ensures forall x :: x in syms ==> (x in ApplyFilter(syms, t) <==> x !in ApplyFilter(syms, "-" + t))
    ensures multiset(ApplyFilter(syms, t)) + multiset(ApplyFilter(syms, "-" + t)) == multiset(syms)
  {
    ParseNegated(t);
    var keep := (s: Symbol) => Passes(s, t);
    var drop := (s: Symbol) => Passes(s, "-" + t);
    forall x ensures multiset(Filter(keep, syms))[x] + multiset(Filter(drop, syms))[x] == multiset(syms)[x] {
      FilterMultiplicity(keep, syms, x);
      FilterMultiplicity(drop, syms, x);
    }
  }

  /** Applying the same filter twice is applying it once. */
  lemma FilterTwice(syms: seq<Symbol>, t: string)
    ensures ApplyFilter(ApplyFilter(syms, t), t) == ApplyFilter(syms, t)
  {
    FilterIdempotent((s: Symbol) => Passes(s, t), syms);
  }

  /** The order of the filter arguments does not matter. */
  lemma FiltersCommute(syms: seq<Symbol>, t: string, u: string)
    ensures ApplyFilter(ApplyFilter(syms, t), u) == ApplyFilter(ApplyFilter(syms, u), t)
  {
    FilterCommutes((s: Symbol) => Passes(s, u), (s: Symbol) => Passes(s, t), syms);
  }

  /** A word `w` without `:`, followed by `:` and a text: the scope is chosen by the
      lower-cased `w` alone (so `Symbol:t` is `symbol:t`), and the text looked for is the
      rest, lower-cased, whether or not `w` names a scope. */
  lemma ParseScoped(w: string, t: string)
    requires |w| > 0 && NoneIn(w, {':'}) && w[0] != '-'
    ensures ParseQuery(w + ":" + t) == Query(false, ScopeOf(ToLower(w) + ":" + ToLower(t)), ToLower(t))
  {
    var text := w + ":" + t;
    assert text[0] == w[0];
    var lw := ToLower(w);
    var low := ToLower(text);
    ToLowerAppend(w, ":");
    ToLowerAppend(w + ":", t);
    assert ToLower(":") == ":";
    assert low == lw + ":" + ToLower(t);
    ToLowerNoColon(w);
    assert low[|w|] == ':';
    assert low[..|w|] == lw;
    IndexOfAnyAt(low, {':'}, |w|);
    assert low[|w| + 1..] == ToLower(t);
  }

  /** A lower-cased text without `:` starts with none of the scope prefixes. */
  lemma NoScopeWithoutColon(t: string)
    requires NoneIn(t, {':'})
    ensures ScopeOf(t) == AnyScope
  {
    if |t| > 4 {
      assert t[4] != ':';
    }
    if |t| > 6 {
      assert t[6] != ':';
    }
    if |t| > 7 {
      assert t[7] != ':';
    }
  }

  /** A plain argument without `:` keeps its matches, looks in every field, and looks for
      the whole argument, lower-cased. */
  lemma ParseUnscoped(t: string)
    requires NoneIn(t, {':'}) && !StartsWith(t, "-")
    ensures ParseQuery(t) == Query(false, AnyScope, ToLower(t))
  {
    ToLowerNoColon(t);
    NoScopeWithoutColon(ToLower(t));
  }

  /** The plain filter `t`: a symbol passes exactly when its lower-cased name, its
      library, its object file or its kind contains `t`, lower-cased; with `-t` exactly
      when none of them does. */
  lemma PlainPasses(s: Symbol, t: string)
    requires NoneIn(t, {':'}) && !StartsWith(t, "-")
    ensures var n := ToLower(t);
      Passes(s, t) <==>
        Contains(ToLower(s.name), n) || Contains(s.library, n) || Contains(s.objectFile, n) || Contains(s.kind, n)
    ensures var n := ToLower(t);
      Passes(s, "-" + t) <==>
        !(Contains(ToLower(s.name), n) || Contains(s.library, n) || Contains(s.objectFile, n) || Contains(s.kind, n))
  {
    ParseUnscoped(t);
    ParseNegated(t);
  }

  /** The word naming a scope in a filter argument. */
  function ScopeWord(sc: Scope): string
    requires sc != AnyScope
  {
    match sc
    case NameScope => "symbol"
    case LibraryScope => "library"
    case ObjectScope => "object"
    case KindScope => "kind"
  }

  /** The scope words are lower case already. */
  lemma LowerScopeWord(sc: Scope)
    requires sc != AnyScope
    ensures ToLower(ScopeWord(sc)) == ScopeWord(sc)
  {
    var w := ScopeWord(sc);
    forall k | 0 <= k < |w| ensures LowerChar(w[k]) == w[k] {
      assert !IsUpper(w[k]);
    }
  }

  lemma ScopeOfWord(sc: Scope, x: string)
    requires sc != AnyScope
    ensures ScopeOf(ScopeWord(sc) + ":" + x) == sc
  {
    var k := ScopeWord(sc) + ":" + x;
    var p := ScopeWord(sc) + ":";
    assert k[..|p|] == p;
    match sc
    case NameScope =>
    case LibraryScope => assert k[0] == 'l';
    case ObjectScope => assert k[0] == 'o';
    case KindScope => assert k[0] == 'k';
  }

  /** `symbol:t` looks for `t`, lower-cased, in the name only; likewise `library:`,
      `object:` and `kind:` for their fields. */
  lemma ScopePrefix(sc: Scope, t: string)
    requires sc != AnyScope
    ensures ParseQuery(ScopeWord(sc) + ":" + t) == Query(false, sc, ToLower(t))
  {
    ParseScoped(ScopeWord(sc), t);
    LowerScopeWord(sc);
    ScopeOfWord(sc, ToLower(t));
  }

  /** The empty filter keeps every symbol and `-` removes every symbol. */
  lemma EmptyFilters(syms: seq<Symbol>)
    ensures ApplyFilter(syms, "") == syms
    ensures ApplyFilter(syms, "-") == []
  {
    assert ParseQuery("") == Query(false, AnyScope, "");
    assert ParseQuery("-") == Query(true, AnyScope, "");
    forall s: Symbol ensures Contains(s.kind, "") {
      assert "" <= s.kind;
    }
    KeepAll((s: Symbol) => Passes(s, ""), syms);
    DropAll((s: Symbol) => Passes(s, "-"), syms);
  }
}
