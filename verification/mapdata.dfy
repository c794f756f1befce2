/** Loading a map file (`MapData.LoadMap`): find the code and data symbol lines, read a
    symbol from each, infer sizes and keep one symbol per (name, address) pair. The file
    arrives as its sequence of lines; reading it from disk is not modelled. */
module MapData {
  import opened Wrappers
  import opened Seqs
  import opened Symbols
  import opened Sections
  import opened Sizes
  import opened Dedup

  /** Applies a reader that may fail to every element; `None` as soon as one fails (the
      reader throws there, ending the load). */
  function ReadAll<A, B>(read: A -> Option<B>, s: seq<A>): (r: Option<seq<B>>)
    ensures r.Some? <==> forall k :: 0 <= k < |s| ==> read(s[k]).Some?
    ensures r.Some? ==> |r.value| == |s| && forall k :: 0 <= k < |s| ==> Some(r.value[k]) == read(s[k])
  {
    if |s| == 0 then Some([])
    else
      var rest := ReadAll(read, s[1..]);
      assert forall k :: 1 <= k < |s| ==> s[k] == s[1..][k - 1];
      if read(s[0]).None? || rest.None? then None
      else
        var r := [read(s[0]).value] + rest.value;
        assert forall k :: 1 <= k < |s| ==> r[k] == rest.value[k - 1];
        Some(r)
  }

  /** Reads a symbol of the given kind from every line. */
  function ParseAll(lines: seq<string>, kind: string): Option<seq<Symbol>> {
    ReadAll(line => ParseLine(line, kind), lines)
  }

  /** `ProcessCodeSymbols` then `ProcessDataSymbols`: the symbols read from the code lines,
      then those read from the data lines. */
  function ReadSymbols(code: seq<string>, data: seq<string>): Option<seq<Symbol>> {
    var codeSyms := ParseAll(code, "code");
    var dataSyms := ParseAll(data, "data");
    if codeSyms.Some? && dataSyms.Some? then Some(codeSyms.value + dataSyms.value) else None
  }

  /** Every symbol is as freshly read: size 0 and unique. */
  predicate Fresh(syms: seq<Symbol>) {
    forall k :: 0 <= k < |syms| ==> Parsed(syms[k]) == syms[k]
  }

  /** The steps of `LoadMap` after the file has been read and split into its code and data
      lines. `None` when a symbol line cannot be read, and when no symbol was read at all
      (`CalculateSizes` dereferences the missing first symbol). */
  function LoadSymbols(code: seq<string>, data: seq<string>): (r: Option<seq<Symbol>>)
    ensures r.Some? ==> |code| + |data| > 0
    ensures r.Some? ==> StrictlyAscending(r.value)
    ensures r.Some? ==> forall y :: y in r.value ==> 0 <= y.size < GapLimit
  {
    var syms := ReadSymbols(code, data);
    if syms.None? || |syms.value| == 0 then None
    else
      ReadSymbolsLines(code, data);
      FinalPrepKeys(CalculateSizes(syms.value));
      SizedMembers(syms.value);
      Some(FinalPrep(CalculateSizes(syms.value)))
  }

  /** `LoadMap` on the lines of a map file: a loaded map is ordered by address and then
      name, with every size in `[0, GapLimit)`. */
  function LoadMap(lines: seq<string>): (r: Option<seq<Symbol>>)
    ensures r.Some? ==> StrictlyAscending(r.value)
    ensures r.Some? ==> forall y :: y in r.value ==> 0 <= y.size < GapLimit
  {
    var code := CodeLines(lines);
    LoadSymbols(code.0, DataLines(code.1))
  }

  /** A symbol with size 0 and status unique is as freshly read. */
  lemma FreshSymbol(s: Symbol)
    requires s.size == 0 && s.shared == Unique
    ensures Parsed(s) == s
  {
  }

  /** Every symbol read from the lines of one kind has that kind and is fresh. */
  lemma ParseAllFields(lines: seq<string>, kind: string)
    requires ParseAll(lines, kind).Some?
    ensures var syms := ParseAll(lines, kind).value;
      |syms| == |lines|
      && (forall k :: 0 <= k < |lines| ==> Some(syms[k]) == ParseLine(lines[k], kind))
      && (forall k :: 0 <= k < |syms| ==> syms[k].kind == kind && Parsed(syms[k]) == syms[k])
  {
    var syms := ParseAll(lines, kind).value;
    forall k | 0 <= k < |syms| ensures syms[k].kind == kind && Parsed(syms[k]) == syms[k] {
      ParsedSymbolFields(lines[k], kind);
      FreshSymbol(syms[k]);
    }
  }

  /** The symbols read are the code lines read as `code` followed by the data lines read as
      `data`, all fresh. */
  lemma ReadSymbolsLines(code: seq<string>, data: seq<string>)
    requires ReadSymbols(code, data).Some?
    ensures var syms := ReadSymbols(code, data).value;
      && |syms| == |code| + |data|
      && (forall k :: 0 <= k < |code| ==> Some(syms[k]) == ParseLine(code[k], "code") && syms[k].kind == "code")
      && (forall k :: 0 <= k < |data| ==>
            Some(syms[|code| + k]) == ParseLine(data[k], "data") && syms[|code| + k].kind == "data")
      && Fresh(syms)
  {
    var a := ParseAll(code, "code").value;
    var b := ParseAll(data, "data").value;
    ParseAllFields(code, "code");
    ParseAllFields(data, "data");
    FreshConcat(a, b);
    ReadAllConcat(line => ParseLine(line, "code"), code, line => ParseLine(line, "data"), data);
    forall j | |code| <= j < |a + b| ensures (a + b)[j].kind == "data" {
      assert (a + b)[j] == b[j - |code|];
    }
  }

  /** Reading two sequences one after the other reads each element where it stands. */
  lemma ReadAllConcat<A, B>(f: A -> Option<B>, a: seq<A>, g: A -> Option<B>, b: seq<A>)
    requires ReadAll(f, a).Some? && ReadAll(g, b).Some?
    ensures var r := ReadAll(f, a).value + ReadAll(g, b).value;
      && |r| == |a| + |b|
      && (forall k :: 0 <= k < |a| ==> Some(r[k]) == f(a[k]))
      && (forall k :: 0 <= k < |b| ==> Some(r[|a| + k]) == g(b[k]))
  {
    var r := ReadAll(f, a).value + ReadAll(g, b).value;
    forall k | 0 <= k < |b| ensures Some(r[|a| + k]) == g(b[k]) {
      assert r[|a| + k] == ReadAll(g, b).value[k];
    }
  }

  lemma FreshConcat(a: seq<Symbol>, b: seq<Symbol>)
    requires Fresh(a) && Fresh(b)
    ensures Fresh(a + b)
  {
    forall k | |a| <= k < |a + b| ensures Parsed((a + b)[k]) == (a + b)[k] {
      assert (a + b)[k] == b[k - |a|];
    }
  }

  /** Loading fails exactly when a code or data line is no symbol, or when there are
      neither code nor data lines. */
  lemma LoadFails(code: seq<string>, data: seq<string>)
    ensures LoadSymbols(code, data).None? <==>
        (exists k :: 0 <= k < |code| && ParseLine(code[k], "code").None?)
        || (exists k :: 0 <= k < |data| && ParseLine(data[k], "data").None?)
        || |code| + |data| == 0
  {
    if ReadSymbols(code, data).Some? {
      ReadSymbolsLines(code, data);
    }
  }

  /** An element of a sequence has its image in the mapped sequence. */
  lemma MapHas<A, B>(f: A -> B, s: seq<A>, x: A)
    requires x in s
    ensures f(x) in Map(f, s)
  {
    var k :| 0 <= k < |s| && s[k] == x;
    assert Map(f, s)[k] == f(x);
  }

  /** An element of a mapped sequence is the image of an element of the sequence. */
  lemma MapFrom<A, B>(f: A -> B, s: seq<A>, y: B) returns (x: A)
    requires y in Map(f, s)
    ensures x in s && f(x) == y
  {
    var k :| 0 <= k < |Map(f, s)| && Map(f, s)[k] == y;
    x := s[k];
  }

  /** A symbol after sizing is a read symbol at or above the image base with its size
      filled in; every read symbol at or above the image base is one after sizing, up to
      its size. */
  lemma SizedFromRead(syms: seq<Symbol>)
    requires |syms| > 0
    ensures forall y :: y in CalculateSizes(syms) ==> Parsed(y) in Map(Parsed, syms)
    ensures forall x :: x in syms && x.baseOffset >= syms[0].baseOffset ==>
      exists y :: y in CalculateSizes(syms) && Parsed(y) == Parsed(x)
  {
    var sized := CalculateSizes(syms);
    var kept := AtOrAbove(syms, syms[0].baseOffset);
    assert multiset(Map(Parsed, sized)) == multiset(Map(Parsed, kept));
    forall y | y in sized ensures Parsed(y) in Map(Parsed, syms) {
      MapHas(Parsed, sized, y);
      assert Parsed(y) in multiset(Map(Parsed, kept));
      var x := MapFrom(Parsed, kept, Parsed(y));
      MapHas(Parsed, syms, x);
    }
    forall x | x in syms && x.baseOffset >= syms[0].baseOffset
      ensures exists y :: y in sized && Parsed(y) == Parsed(x)
    {
      MapHas(Parsed, kept, x);
      assert Parsed(x) in multiset(Map(Parsed, sized));
      var y := MapFrom(Parsed, sized, Parsed(x));
    }
  }

  /** Mapping fresh symbols to their freshly read state leaves them as they are. */
  lemma FreshMap(syms: seq<Symbol>)
    requires Fresh(syms)
    ensures Map(Parsed, syms) == syms
  {
  }

  /** A successful load is strictly ascending by address and then name. */
  lemma LoadOrder(code: seq<string>, data: seq<string>)
    ensures LoadSymbols(code, data).Some? ==> StrictlyAscending(LoadSymbols(code, data).value)
  {
    if LoadSymbols(code, data).Some? {
      FinalPrepKeys(CalculateSizes(ReadSymbols(code, data).value));
    }
  }

  /** Every symbol of a successful load was read from the file, lies at or above the image
      base (the first symbol read), and has a size in `[0, GapLimit)`. */
  lemma LoadMembers(code: seq<string>, data: seq<string>)
    ensures LoadSymbols(code, data).Some? ==>
      var syms := ReadSymbols(code, data).value;
      forall y :: y in LoadSymbols(code, data).value ==>
        Parsed(y) in syms && y.baseOffset >= syms[0].baseOffset && 0 <= y.size < GapLimit
  {
    if LoadSymbols(code, data).Some? {
      var syms := ReadSymbols(code, data).value;
      ReadSymbolsLines(code, data);
      SizedMembers(syms);
    }
  }

  /** The same on the symbols themselves: sizing and de-duplicating fresh symbols keeps
      read symbols at or above the image base, with sizes in `[0, GapLimit)`. */
  lemma SizedMembers(syms: seq<Symbol>)
    requires |syms| > 0 && Fresh(syms)
    ensures forall y :: y in FinalPrep(CalculateSizes(syms)) ==>
      Parsed(y) in syms && y.baseOffset >= syms[0].baseOffset && 0 <= y.size < GapLimit
  {
    FinalPrepKeys(CalculateSizes(syms));
    forall y | y in FinalPrep(CalculateSizes(syms))
      ensures Parsed(y) in syms && y.baseOffset >= syms[0].baseOffset && 0 <= y.size < GapLimit
    {
      SizedMember(syms, y);
    }
  }

  lemma SizedMember(syms: seq<Symbol>, y: Symbol)
    requires |syms| > 0 && Fresh(syms)
    ensures y in CalculateSizes(syms) ==>
      Parsed(y) in syms && y.baseOffset >= syms[0].baseOffset && 0 <= y.size < GapLimit
  {
    var sized := CalculateSizes(syms);
    if y in sized {
      SizedFromRead(syms);
      CalculateSizesBounded(syms);
      FreshMap(syms);
      var i :| 0 <= i < |sized| && sized[i] == y;
    }
  }

  /** Every symbol read at or above the image base is represented in a successful load by
      its name and address, except the empty name at address 0. */
  lemma LoadCovers(code: seq<string>, data: seq<string>, x: Symbol)
    requires x.name != "" || x.baseOffset != 0
    ensures (LoadSymbols(code, data).Some? && x in ReadSymbols(code, data).value
             && x.baseOffset >= ReadSymbols(code, data).value[0].baseOffset) ==>
      exists y :: y in LoadSymbols(code, data).value && y.name == x.name && y.baseOffset == x.baseOffset
  {
    if LoadSymbols(code, data).Some? && x in ReadSymbols(code, data).value
        && x.baseOffset >= ReadSymbols(code, data).value[0].baseOffset {
      SizedCovers(ReadSymbols(code, data).value, x);
    }
  }

  lemma SizedCovers(syms: seq<Symbol>, x: Symbol)
    requires |syms| > 0 && x in syms && x.baseOffset >= syms[0].baseOffset
    requires x.name != "" || x.baseOffset != 0
    ensures exists y :: y in FinalPrep(CalculateSizes(syms)) && y.name == x.name && y.baseOffset == x.baseOffset
  {
    var sized := CalculateSizes(syms);
    SizedFromRead(syms);
    var z :| z in sized && Parsed(z) == Parsed(x);
    assert z.name == x.name && z.baseOffset == x.baseOffset;
    FinalPrepKeys(sized);
  }
}
