/** The report (`MapData.DumpInfo`): optionally the symbol table, optionally the groups,
    those whose name has no colon (unigrams and bigrams) and those whose name does
    (kinds, libraries, objects, symbols) each behind their own switch; then the lines
    mentioning none of the final filters are dropped and only the last `tail` are kept.
    Writing the lines to the console is not modelled. */
module Report {
  import opened Wrappers
  import opened Text
  import opened Seqs
  import opened Ordering
  import opened Sorting
  import opened Symbols
  import opened Names
  import opened Grouping
  import Decimal

  /** The order the group dictionary enumerates its keys in: every group name once, in
      the order the loop first adds it. */
  function GroupOrder(syms: seq<Symbol>): seq<string> {
    Distinct(Concat(Map(GroupNames, syms)))
  }

  /** That order lists every key of the prepared groups exactly once. */
  lemma GroupOrderListsKeys(syms: seq<Symbol>)
    ensures ListsKeys(Prepare(syms, GroupNames), GroupOrder(syms))
  {
    var all := Map(GroupNames, syms);
    forall k ensures k in GroupOrder(syms) <==> k in Prepare(syms, GroupNames) {
      ConcatMember(all, k);
      PrepareKeys(syms, GroupNames, k);
      if j :| 0 <= j < |all| && k in all[j] {
        assert k in GroupNames(syms[j]);
      }
      if i :| 0 <= i < |syms| && k in GroupNames(syms[i]) {
        assert k in all[i];
      }
    }
  }

  /** `PrepareGroups` followed by `GetGroups`: the groups of all symbols, sorted by size,
      then name length, then name. */
  function SymbolGroups(syms: seq<Symbol>): (r: seq<Group>)
    ensures SortedBy(r, GroupKey)
    ensures |r| == |GroupOrder(syms)|
  {
    GroupOrderListsKeys(syms);
    GetGroups(Prepare(syms, GroupNames), GroupOrder(syms))
  }

  /** The listed groups are exactly the reference groups of the names some symbol carries:
      one per name, holding the symbols that carry it. */
  lemma SymbolGroupsAre(syms: seq<Symbol>, g: Group)
    ensures g in SymbolGroups(syms) <==>
      (exists i :: 0 <= i < |syms| && g.text in GroupNames(syms[i])) && g == GroupOf(syms, GroupNames, g.text)
  {
    var groups := Prepare(syms, GroupNames);
    GroupOrderListsKeys(syms);
    assert forall s :: NoDups(GroupNames(s));
    if g in SymbolGroups(syms) {
      var k :| k in groups && groups[k] == g;
      PrepareIsGroupOf(syms, GroupNames, k);
      PrepareKeys(syms, GroupNames, k);
    }
    if (exists i :: 0 <= i < |syms| && g.text in GroupNames(syms[i])) && g == GroupOf(syms, GroupNames, g.text) {
      PrepareKeys(syms, GroupNames, g.text);
      PrepareIsGroupOf(syms, GroupNames, g.text);
      assert groups[g.text] == g;
    }
  }

  /** `unigramOrBigram`: the group's name has no colon. */
  predicate IsWordGroup(g: Group) {
    !Contains(g.text, ":")
  }

  /** Whether a group gets a line: word groups when unigrams and bigrams are asked for,
      the others when symbols, objects, libraries and kinds are. */
  predicate Listed(g: Group, words: bool, scoped: bool) {
    (words && IsWordGroup(g)) || (scoped && !IsWordGroup(g))
  }

  /** The four scoped names of a symbol all contain a colon. */
  lemma ScopedNamesHaveColon(s: Symbol)
    ensures forall x :: x in ScopedNames(s) ==> Contains(x, ":")
  {
    ContainsInfix("kind", ":", s.kind);
    assert "kind:" + s.kind == "kind" + ":" + s.kind;
    ContainsInfix("library", ":", s.library);
    assert "library:" + s.library == "library" + ":" + s.library;
    ContainsInfix("object", ":", s.objectFile);
    assert "object:" + s.objectFile == "object" + ":" + s.objectFile;
    ContainsInfix("symbol", ":", s.name);
    assert "symbol:" + s.name == "symbol" + ":" + s.name;
  }

  /** The groups that get a line, in report order. */
  function ShownGroups(syms: seq<Symbol>, words: bool, scoped: bool): (r: seq<Group>)
    ensures forall g :: g in r <==> g in SymbolGroups(syms) && Listed(g, words, scoped)
    ensures IsSubsequence(r, SymbolGroups(syms))
  {
    var p := (g: Group) => Listed(g, words, scoped);
    FilterIsSubsequence(p, SymbolGroups(syms));
    Filter(p, SymbolGroups(syms))
  }

  /** The group of a symbol's kind, library, object or name gets a line exactly when
      those are asked for, whether or not unigrams and bigrams are. */
  lemma ScopedGroupShown(syms: seq<Symbol>, i: nat, j: nat, words: bool, scoped: bool)
    requires i < |syms| && j < 4
    ensures GroupOf(syms, GroupNames, GroupNames(syms[i])[j]) in ShownGroups(syms, words, scoped) <==> scoped
  {
    var name := GroupNames(syms[i])[j];
    var g := GroupOf(syms, GroupNames, name);
    assert name == ScopedNames(syms[i])[j];
    ScopedNamesHaveColon(syms[i]);
    SymbolGroupsAre(syms, g);
  }

  /** The columns of a symbol's line. */
  function SymbolFields(s: Symbol): seq<string> {
    [Decimal.Format(s.size), s.shared.Spelling(), s.name, s.base, s.objectFile, s.library, s.kind]
  }

  /** The columns of a group's line: size, member count, unique count and name. */
  function GroupFields(g: Group): seq<string> {
    [Decimal.Format(g.size), Decimal.Format(|g.members|), Decimal.Format(g.unique), g.text]
  }

  function SymbolRow(s: Symbol): string {
    Join(SymbolFields(s), '\t')
  }

  function GroupRow(g: Group): string {
    Join(GroupFields(g), '\t')
  }

  const MapHeader := "Size\tShared\tName\tBase\tObject\tLibrary\tKind"
  const GroupHeader := "\nSize\tSymbols\tUnique\tGroup"

  /** A line of the report splits on tabs back into its columns, provided the texts in it
      hold no tab. */
  lemma SymbolRowColumns(s: Symbol)
    requires NoneIn(s.name, {'\t'}) && NoneIn(s.base, {'\t'}) && NoneIn(s.objectFile, {'\t'})
    requires NoneIn(s.library, {'\t'}) && NoneIn(s.kind, {'\t'})
    ensures Split(SymbolRow(s), {'\t'}) == SymbolFields(s)
  {
    var f := SymbolFields(s);
    assert NoneIn(s.shared.Spelling(), {'\t'});
    forall k | 0 <= k < |f| ensures NoneIn(f[k], {'\t'}) {
    }
    JoinThenSplit(f, '\t');
  }

  lemma GroupRowColumns(g: Group)
    requires NoneIn(g.text, {'\t'})
    ensures Split(GroupRow(g), {'\t'}) == GroupFields(g)
  {
    JoinThenSplit(GroupFields(g), '\t');
  }

  /** `x` is the line of one of the symbols. */
  ghost predicate IsSymbolRow(x: string, syms: seq<Symbol>) {
    exists k :: 0 <= k < |syms| && x == SymbolRow(syms[k])
  }

  /** `x` is the line of one of the groups. */
  ghost predicate IsGroupRow(x: string, groups: seq<Group>) {
    exists k :: 0 <= k < |groups| && x == GroupRow(groups[k])
  }

  lemma SymbolRowsAre(syms: seq<Symbol>)
    ensures forall x :: x in Map(SymbolRow, syms) ==> IsSymbolRow(x, syms)
  {
    var rows := Map(SymbolRow, syms);
    forall x | x in rows ensures IsSymbolRow(x, syms) {
      var k :| 0 <= k < |rows| && rows[k] == x;
      assert x == SymbolRow(syms[k]);
    }
  }

  lemma GroupRowsAre(groups: seq<Group>)
    ensures forall x :: x in Map(GroupRow, groups) ==> IsGroupRow(x, groups)
  {
    var rows := Map(GroupRow, groups);
    forall x | x in rows ensures IsGroupRow(x, groups) {
      var k :| 0 <= k < |rows| && rows[k] == x;
      assert x == GroupRow(groups[k]);
    }
  }

  /** `r` holds, from index `d` on, the header and then the rows, in order. */
  ghost predicate TableAt(r: seq<string>, d: int, header: string, rows: seq<string>) {
    0 <= d && d + 1 + |rows| <= |r| && r[d] == header && r[d + 1..d + 1 + |rows|] == rows
  }

  /** A table written first stays where it was, whatever comes after it. */
  lemma TableFirst(header: string, rows: seq<string>, after: seq<string>)
    ensures TableAt([header] + rows + after, 0, header, rows)
  {
    assert ([header] + rows + after)[1..1 + |rows|] == rows;
  }

  /** A table written last sits at the end, whatever came before it. */
  lemma TableLast(before: seq<string>, header: string, rows: seq<string>)
    ensures TableAt(before + ([header] + rows), |before|, header, rows)
  {
    var r := before + ([header] + rows);
    assert r[|before| + 1..|before| + 1 + |rows|] == rows;
  }

  /** `r` is laid out as `DumpInfo` collects it: the symbol table first when `mapDump`
      is set, the table of `groups` last when `grouped` is set, each header followed by
      its rows in order, and nothing else. */
  ghost predicate Laid(r: seq<string>, syms: seq<Symbol>, groups: seq<Group>, mapDump: bool, grouped: bool) {
    && (forall x :: x in r ==>
          x == MapHeader || x == GroupHeader || (mapDump && IsSymbolRow(x, syms)) || IsGroupRow(x, groups))
    && |r| == (if mapDump then 1 + |syms| else 0) + (if grouped then 1 + |groups| else 0)
    && (mapDump ==> TableAt(r, 0, MapHeader, Map(SymbolRow, syms)))
    && (grouped ==> TableAt(r, |r| - 1 - |groups|, GroupHeader, Map(GroupRow, groups)))
  }

  /** The symbol table when `mapDump` is set, then the table of `groups` when `grouped` is
      set. */
  function Tables(syms: seq<Symbol>, groups: seq<Group>, mapDump: bool, grouped: bool): (r: seq<string>)
    ensures Laid(r, syms, groups, mapDump, grouped)
  {
    var rows := Map(SymbolRow, syms);
    var grouped' := Map(GroupRow, groups);
    var first := if mapDump then [MapHeader] + rows else [];
    var second := if grouped then [GroupHeader] + grouped' else [];
    SymbolRowsAre(syms);
    GroupRowsAre(groups);
    TableFirst(MapHeader, rows, second);
    TableLast(first, GroupHeader, grouped');
    first + second
  }

  /** The lines `DumpInfo` collects before the final filters: the symbol table when
      `mapDump` is set, then the group table when `scoped` or `words` is set. */
  function Output(syms: seq<Symbol>, scoped: bool, words: bool, mapDump: bool): (r: seq<string>)
    ensures Laid(r, syms, ShownGroups(syms, words, scoped), mapDump, scoped || words)
  {
    Tables(syms, ShownGroups(syms, words, scoped), mapDump, scoped || words)
  }

  /** Every symbol has its row in the map dump, and every shown group its row in the group
      table. */
  lemma OutputComplete(syms: seq<Symbol>, scoped: bool, words: bool, mapDump: bool)
    ensures mapDump ==> forall s :: s in syms ==> SymbolRow(s) in Output(syms, scoped, words, mapDump)
    ensures forall g :: g in ShownGroups(syms, words, scoped) ==> GroupRow(g) in Output(syms, scoped, words, mapDump)
  {
    var groups := ShownGroups(syms, words, scoped);
    if |groups| > 0 {
      assert groups[0] in groups;
    }
    TablesComplete(syms, groups, mapDump, scoped || words);
  }

  /** Every symbol has its row in the symbol table, and every group its row in the group
      table, when that table is written. */
  lemma TablesComplete(syms: seq<Symbol>, groups: seq<Group>, mapDump: bool, grouped: bool)
    ensures mapDump ==> forall s :: s in syms ==> SymbolRow(s) in Tables(syms, groups, mapDump, grouped)
    ensures grouped ==> forall g :: g in groups ==> GroupRow(g) in Tables(syms, groups, mapDump, grouped)
  {
    var r := Tables(syms, groups, mapDump, grouped);
    if mapDump {
      forall s | s in syms ensures SymbolRow(s) in r {
        var k :| 0 <= k < |syms| && syms[k] == s;
        assert r[1 + k] == Map(SymbolRow, syms)[k];
      }
    }
    if grouped {
      var d := |r| - 1 - |groups|;
      forall g | g in groups ensures GroupRow(g) in r {
        var k :| 0 <= k < |groups| && groups[k] == g;
        assert r[d + 1 + k] == Map(GroupRow, groups)[k];
      }
    }
  }

  /** The line mentions at least one of the filters. */
  predicate MentionsAny(line: string, filters: seq<string>) {
    exists k :: 0 <= k < |filters| && Contains(line, filters[k])
  }

  /** The final filters and the tail: with filters, only the lines mentioning one of them
      are kept; then only the last `tail` lines. `None` for a negative `tail`, where
      `RemoveRange` throws. */
  function FinalLines(output: seq<string>, filters: seq<string>, tail: int): (r: Option<seq<string>>)
    ensures r.None? <==> tail < 0
    ensures r.Some? ==> |r.value| <= tail && |r.value| <= |output|
  {
    var kept := if |filters| > 0 then Filter((line: string) => MentionsAny(line, filters), output) else output;
    if tail < 0 then None
    else if |kept| > tail then Some(kept[|kept| - tail..])
    else Some(kept)
  }

  /** `DumpInfo`, up to the console. */
  function DumpInfo(syms: seq<Symbol>, scoped: bool, words: bool, mapDump: bool,
                    filters: seq<string>, tail: int): (r: Option<seq<string>>)
    ensures r.None? <==> tail < 0
    ensures r.Some? ==> |r.value| <= tail
  {
    FinalLines(Output(syms, scoped, words, mapDump), filters, tail)
  }

  /** The lines that survive the filters: all of them, or those mentioning a filter. */
  function Surviving(output: seq<string>, filters: seq<string>): (r: seq<string>)
    ensures IsSubsequence(r, output)
    ensures forall x :: x in r <==> x in output && (|filters| == 0 || MentionsAny(x, filters))
  {
    if |filters| > 0 then
      FilterIsSubsequence((line: string) => MentionsAny(line, filters), output);
      Filter((line: string) => MentionsAny(line, filters), output)
    else
      SubsequenceOfSelf(output);
      output
  }

  /** With a non-negative tail, the result is the last `tail` surviving lines (all of them
      when there are fewer), so a subsequence of the collected lines, each one mentioning a
      filter when there are filters. */
  lemma FinalLinesTail(output: seq<string>, filters: seq<string>, tail: int)
    ensures FinalLines(output, filters, tail).None? <==> tail < 0
    ensures tail >= 0 ==>
      var r := FinalLines(output, filters, tail).value;
      var s := Surviving(output, filters);
      && |r| == (if |s| < tail then |s| else tail)
      && r == s[|s| - |r|..]
  {
  }

  /** What the final lines hold: only collected lines that survive the filters, and all
      of them when the tail is long enough. */
  lemma FinalLinesMembers(output: seq<string>, filters: seq<string>, tail: int, x: string)
    requires tail >= 0
    ensures x in FinalLines(output, filters, tail).value ==>
      x in output && (|filters| == 0 || MentionsAny(x, filters))
    ensures tail >= |Surviving(output, filters)| ==>
      (x in FinalLines(output, filters, tail).value <==> x in output && (|filters| == 0 || MentionsAny(x, filters)))
  {
    var s := Surviving(output, filters);
    FinalLinesTail(output, filters, tail);
    var r := FinalLines(output, filters, tail).value;
    if x in r {
      assert x in s;
    }
  }

  /** Without filters and with a tail covering the output, every collected line is
      reported, in order. */
  lemma NothingDropped(output: seq<string>, tail: int)
    requires tail >= |output|
    ensures FinalLines(output, [], tail) == Some(output)
  {
  }
}
