/** Groups (`MapData.PrepareGroups` and `MapData.GetGroups`): every group name of every
    symbol collects the symbols that carry it, their total size and how many of them are
    not shared. Shared symbols are listed as members but add neither size nor count,
    so each address is counted once. */
module Grouping {
  import opened Seqs
  import opened Ordering
  import opened Sorting
  import opened Symbols

  datatype Group = Group(text: string, size: int, unique: nat, members: seq<Symbol>)

  /** What a symbol adds to the size of its groups: nothing when it is shared. */
  function SizeShare(s: Symbol): int {
    if s.shared == Shared then 0 else s.size
  }

  predicate NotShared(s: Symbol) {
    s.shared != Shared
  }

  function Sum(xs: seq<int>): int {
    if |xs| == 0 then 0 else Sum(xs[..|xs| - 1]) + xs[|xs| - 1]
  }

  /** `g` with `s` added: a new member, and its size and count unless it is shared. */
  function Grow(g: Group, s: Symbol): Group {
    Group(g.text, g.size + SizeShare(s), g.unique + (if NotShared(s) then 1 else 0), g.members + [s])
  }

  /** The group named `gn`, its text set to `gn`, with `s` added to it (a new, empty
      group if there is none yet). */
  function Bump(groups: map<string, Group>, gn: string, s: Symbol): Group {
    Grow((if gn in groups then groups[gn] else Group(gn, 0, 0, [])).(text := gn), s)
  }

  function AddTo(groups: map<string, Group>, gn: string, s: Symbol): (r: map<string, Group>) {
    groups[gn := Bump(groups, gn, s)]
  }

  /** Every group is filed under its own text and has at least one member. */
  ghost predicate Named(groups: map<string, Group>) {
    forall k :: k in groups ==> groups[k].text == k && |groups[k].members| > 0
  }

  /** `s` added to the groups `names`, in order. */
  function AddToAll(groups: map<string, Group>, names: seq<string>, s: Symbol): (r: map<string, Group>)
    ensures forall k :: k in r <==> k in groups || k in names
    ensures Named(groups) ==> Named(r)
  {
    if |names| == 0 then groups
    else
      var init := names[..|names| - 1];
      assert forall k :: k in names <==> k in init || k == names[|names| - 1] by {
        assert names == init + [names[|names| - 1]];
      }
      AddTo(AddToAll(groups, init, s), names[|names| - 1], s)
  }

  /** The groups after the loop of `PrepareGroups` has visited every symbol of `syms`,
      each symbol naming its groups by `namer` (`GetGroupNames` in the map reader). */
  function Prepare(syms: seq<Symbol>, namer: Symbol -> seq<string>): (r: map<string, Group>)
    ensures Named(r)
  {
    if |syms| == 0 then map[]
    else AddToAll(Prepare(syms[..|syms| - 1], namer), namer(Last(syms)), Last(syms))
  }

  /** The outer loop of `PrepareGroups` as written. */
  method PrepareGroups(syms: seq<Symbol>, namer: Symbol -> seq<string>) returns (groups: map<string, Group>)
    ensures groups == Prepare(syms, namer)
  {
    groups := map[];
    for i := 0 to |syms|
      invariant groups == Prepare(syms[..i], namer)
    {
      groups := AddSymbol(groups, namer(syms[i]), syms[i]);
      assert syms[..i + 1][..i] == syms[..i];
    }
    assert syms[..|syms|] == syms;
  }

  /** The body of the inner loop of `PrepareGroups` as written: the group named `gn`
      looked up or created, renamed to `gn`, and grown by `s`. */
  method BumpGroup(groups: map<string, Group>, gn: string, s: Symbol) returns (g: Group)
    ensures g.text == gn && g.members == (if gn in groups then groups[gn].members else []) + [s]
    ensures g.size == (if gn in groups then groups[gn].size else 0) + SizeShare(s)
    ensures g.unique == (if gn in groups then groups[gn].unique else 0) + (if NotShared(s) then 1 else 0)
    ensures g == Bump(groups, gn, s)
  {
    g := if gn in groups then groups[gn] else Group(gn, 0, 0, []);
    g := g.(text := gn);
    g := g.(size := g.size + (if s.shared == Shared then 0 else s.size));
    g := g.(unique := g.unique + (if s.shared == Shared then 0 else 1));
    g := g.(members := g.members + [s]);
  }

  /** Adding `s` to one more name. */
  lemma AddToAllSnoc(groups: map<string, Group>, names: seq<string>, gn: string, s: Symbol)
    ensures AddToAll(groups, names + [gn], s) == AddTo(AddToAll(groups, names, s), gn, s)
  {
    assert (names + [gn])[..|names|] == names;
  }

  /** The inner loop of `PrepareGroups` as written: `s` added to each of its groups. */
  method AddSymbol(start: map<string, Group>, names: seq<string>, s: Symbol) returns (groups: map<string, Group>)
    ensures groups == AddToAll(start, names, s)
  {
    groups := start;
    for j := 0 to |names|
      invariant groups == AddToAll(start, names[..j], s)
    {
      var gn := names[j];
      var g := BumpGroup(groups, gn, s);
      AddToAllSnoc(start, names[..j], gn, s);
      assert names[..j + 1] == names[..j] + [gn];
      groups := groups[gn := g];
    }
    assert names[..|names|] == names;
  }

  /** The symbols carrying the name `k`, in order. */
  function Carriers(syms: seq<Symbol>, namer: Symbol -> seq<string>, k: string): seq<Symbol> {
    Filter((s: Symbol) => k in namer(s), syms)
  }

  /** The reference definition of a group: the symbols carrying the name, in order; their
      sizes summed and the members counted, shared symbols left out of both. */
  function GroupOf(syms: seq<Symbol>, namer: Symbol -> seq<string>, k: string): Group {
    var members := Carriers(syms, namer, k);
    Group(k, Sum(Map(SizeShare, members)), |Filter(NotShared, members)|, members)
  }

  /** A group's members are exactly the symbols carrying its name, and its unique count is
      at most its member count. */
  lemma GroupOfMembers(syms: seq<Symbol>, namer: Symbol -> seq<string>, k: string)
    ensures GroupOf(syms, namer, k).unique <= |GroupOf(syms, namer, k).members|
    ensures forall s :: s in GroupOf(syms, namer, k).members <==> s in syms && k in namer(s)
    ensures IsSubsequence(GroupOf(syms, namer, k).members, syms)
  {
    FilterIsSubsequence((s: Symbol) => k in namer(s), syms);
  }

  /** Each symbol is a member of a group once for every time it occurs, provided it
      carries the group's name (which it carries at most once). */
  lemma MemberMultiplicity(syms: seq<Symbol>, namer: Symbol -> seq<string>, k: string, s: Symbol)
    ensures multiset(GroupOf(syms, namer, k).members)[s] == if k in namer(s) then multiset(syms)[s] else 0
  {
    FilterMultiplicity((s: Symbol) => k in namer(s), syms, s);
    assert GroupOf(syms, namer, k).members == Filter((s: Symbol) => k in namer(s), syms);
  }

  lemma SumSnoc(xs: seq<int>, x: int)
    ensures Sum(xs + [x]) == Sum(xs) + x
  {
    assert (xs + [x])[..|xs|] == xs;
  }

  lemma CarriersSnoc(p: seq<Symbol>, namer: Symbol -> seq<string>, s: Symbol, k: string)
    ensures Carriers(p + [s], namer, k) == Carriers(p, namer, k) + (if k in namer(s) then [s] else [])
  {
    var carries := (x: Symbol) => k in namer(x);
    FilterAppend(carries, p, [s]);
    assert Filter(carries, [s]) == if k in namer(s) then [s] else [];
  }

  /** A symbol appended to the members adds its share to the size. */
  lemma SizeSnoc(m: seq<Symbol>, s: Symbol)
    ensures Sum(Map(SizeShare, m + [s])) == Sum(Map(SizeShare, m)) + SizeShare(s)
  {
    MapAppend(SizeShare, m, [s]);
    assert Map(SizeShare, [s]) == [SizeShare(s)];
    SumSnoc(Map(SizeShare, m), SizeShare(s));
  }

  /** A symbol appended to the members adds one to the unique count unless it is shared. */
  lemma UniqueSnoc(m: seq<Symbol>, s: Symbol)
    ensures |Filter(NotShared, m + [s])| == |Filter(NotShared, m)| + (if NotShared(s) then 1 else 0)
  {
    FilterAppend(NotShared, m, [s]);
    assert Filter(NotShared, [s]) == if NotShared(s) then [s] else [];
  }

  /** The group of a name `s` carries grows by `s`. */
  lemma GroupOfSnocCarrier(p: seq<Symbol>, namer: Symbol -> seq<string>, s: Symbol, k: string)
    requires k in namer(s)
    ensures GroupOf(p + [s], namer, k) == Grow(GroupOf(p, namer, k), s)
  {
    var m := Carriers(p, namer, k);
    CarriersSnoc(p, namer, s, k);
    assert Carriers(p + [s], namer, k) == m + [s];
    SizeSnoc(m, s);
    UniqueSnoc(m, s);
  }

  /** Appending a symbol to the list grows a group by that symbol when it carries the name. */
  lemma GroupOfSnoc(p: seq<Symbol>, namer: Symbol -> seq<string>, s: Symbol, k: string)
    ensures k in namer(s) ==> GroupOf(p + [s], namer, k) == Grow(GroupOf(p, namer, k), s)
    ensures k !in namer(s) ==> GroupOf(p + [s], namer, k) == GroupOf(p, namer, k)
  {
    if k in namer(s) {
      GroupOfSnocCarrier(p, namer, s, k);
    } else {
      CarriersSnoc(p, namer, s, k);
      assert Carriers(p + [s], namer, k) == Carriers(p, namer, k);
    }
  }

  /** Adding `s` to every name of a duplicate-free list grows exactly those groups. */
  lemma {:induction false} AddToAllGroups(groups: map<string, Group>, names: seq<string>, s: Symbol, k: string)
    requires NoDups(names)
    ensures k in names ==> AddToAll(groups, names, s)[k] == Bump(groups, k, s)
    ensures k !in names && k in groups ==> AddToAll(groups, names, s)[k] == groups[k]
    decreases |names|
  {
    if |names| > 0 {
      var init := names[..|names| - 1];
      var last := names[|names| - 1];
      assert names == init + [last];
      assert NoDups(init);
      AddToAllGroups(groups, init, s, k);
      if k == last {
        assert k !in init;
      }
    }
  }

  /** The groups `PrepareGroups` builds are named by exactly the names some symbol
      carries. */
  lemma {:induction false} PrepareKeys(syms: seq<Symbol>, namer: Symbol -> seq<string>, k: string)
    ensures k in Prepare(syms, namer) <==> exists i :: 0 <= i < |syms| && k in namer(syms[i])
    decreases |syms|
  {
    if |syms| > 0 {
      var p := syms[..|syms| - 1];
      PrepareKeys(p, namer, k);
      if exists i :: 0 <= i < |p| && k in namer(p[i]) {
        var i :| 0 <= i < |p| && k in namer(p[i]);
        assert syms[i] == p[i];
      }
      if exists i :: 0 <= i < |syms| && k in namer(syms[i]) {
        var i :| 0 <= i < |syms| && k in namer(syms[i]);
        if i < |p| {
          assert p[i] == syms[i];
        }
      }
    }
  }

  /** One visit of the loop keeps the groups equal to the reference groups. */
  lemma PrepareStep(p: seq<Symbol>, namer: Symbol -> seq<string>, s: Symbol, k: string)
    requires NoDups(namer(s))
    requires k in Prepare(p, namer) ==> Prepare(p, namer)[k] == GroupOf(p, namer, k)
    requires k !in Prepare(p, namer) ==> Carriers(p, namer, k) == []
    requires k in Prepare(p + [s], namer)
    ensures Prepare(p + [s], namer)[k] == GroupOf(p + [s], namer, k)
  {
    var m := Prepare(p, namer);
    assert (p + [s])[..|p|] == p;
    assert Prepare(p + [s], namer) == AddToAll(m, namer(s), s);
    AddToAllGroups(m, namer(s), s, k);
    GroupOfSnoc(p, namer, s, k);
    if k in namer(s) && k !in m {
      assert GroupOf(p, namer, k) == Group(k, 0, 0, []);
    }
  }

  /** The groups `PrepareGroups` builds are the reference groups. */
  lemma {:induction false} PrepareIsGroupOf(syms: seq<Symbol>, namer: Symbol -> seq<string>, k: string)
    requires forall s :: NoDups(namer(s))
    ensures k in Prepare(syms, namer) ==> Prepare(syms, namer)[k] == GroupOf(syms, namer, k)
    ensures k !in Prepare(syms, namer) ==> Carriers(syms, namer, k) == []
    decreases |syms|
  {
    if |syms| > 0 {
      var p := syms[..|syms| - 1];
      var s := syms[|syms| - 1];
      assert syms == p + [s];
      PrepareIsGroupOf(p, namer, k);
      if k in Prepare(syms, namer) {
        PrepareStep(p, namer, s, k);
      } else {
        PrepareKeys(syms, namer, k);
        CarriersSnoc(p, namer, s, k);
        assert k !in namer(syms[|syms| - 1]);
      }
    }
  }

  /** Leaving shared symbols out of both, the size of a group of symbols no larger than
      `bound` is between 0 and `bound` times its unique count. */
  lemma {:induction false} ShareBound(members: seq<Symbol>, bound: int)
    requires forall i :: 0 <= i < |members| ==> 0 <= members[i].size <= bound
    ensures 0 <= Sum(Map(SizeShare, members)) <= bound * |Filter(NotShared, members)|
    decreases |members|
  {
    if |members| > 0 {
      var init := members[..|members| - 1];
      var s := members[|members| - 1];
      assert members == init + [s];
      ShareBound(init, bound);
      MapAppend(SizeShare, init, [s]);
      SumSnoc(Map(SizeShare, init), SizeShare(s));
      FilterAppend(NotShared, init, [s]);
      var c := |Filter(NotShared, init)|;
      if NotShared(s) {
        assert |Filter(NotShared, members)| == c + 1;
        MulSucc(bound, c);
      } else {
        assert |Filter(NotShared, members)| == c;
      }
    }
  }

  lemma MulSucc(b: int, c: int)
    ensures b * (c + 1) == b * c + b
  {
  }

  /** With every size in `[0, bound]`, a group's size is at most `bound` per unique
      member. */
  lemma GroupSizeBound(syms: seq<Symbol>, namer: Symbol -> seq<string>, k: string, bound: int)
    requires forall i :: 0 <= i < |syms| ==> 0 <= syms[i].size <= bound
    ensures 0 <= GroupOf(syms, namer, k).size <= bound * GroupOf(syms, namer, k).unique
  {
    var m := Carriers(syms, namer, k);
    GroupOfMembers(syms, namer, k);
    assert forall i :: 0 <= i < |m| ==> 0 <= m[i].size <= bound by {
      forall i | 0 <= i < |m| ensures 0 <= m[i].size <= bound {
        assert m[i] in GroupOf(syms, namer, k).members;
      }
    }
    ShareBound(m, bound);
  }

  /** The order `GetGroups` sorts by: size, then the length of the text, then the text. */
  function GroupKey(g: Group): seq<int> {
    [g.size, |g.text|] + Codes(g.text)
  }

  lemma GroupKeyText(g: Group, h: Group)
    requires GroupKey(g) == GroupKey(h)
    ensures g.text == h.text
  {
    assert GroupKey(g)[2..] == Codes(g.text);
    assert GroupKey(h)[2..] == Codes(h.text);
    CodesInjective(g.text, h.text);
  }

  /** The group stored under `k`. */
  function Lookup(groups: map<string, Group>, k: string): Group {
    if k in groups then groups[k] else Group(k, 0, 0, [])
  }

  /** An order in which the dictionary may enumerate its keys: every key once. */
  ghost predicate ListsKeys(groups: map<string, Group>, order: seq<string>) {
    NoDups(order) && forall k :: k in order <==> k in groups
  }

  /** `GetGroups`: the groups, enumerated in `order`, sorted by size, text length and
      text. */
  function GetGroups(groups: map<string, Group>, order: seq<string>): (r: seq<Group>)
    requires ListsKeys(groups, order)
    ensures SortedBy(r, GroupKey)
    ensures |r| == |order|
    ensures forall g :: g in r <==> exists k :: k in groups && groups[k] == g
  {
    var listed := Map((k: string) => Lookup(groups, k), order);
    var r := SortBy(listed, GroupKey);
    forall g ensures g in r <==> exists k :: k in groups && groups[k] == g {
      assert g in r <==> g in multiset(listed);
      if g in listed {
        var i :| 0 <= i < |listed| && listed[i] == g;
        assert order[i] in groups && groups[order[i]] == g;
      }
      if k :| k in groups && groups[k] == g {
        var i :| 0 <= i < |order| && order[i] == k;
        assert listed[i] == g;
      }
    }
    r
  }

  /** Whatever order the dictionary enumerates its keys in, `GetGroups` returns the same
      list, as long as every group's text is its key: no two groups share a sort key. */
  lemma GetGroupsOrderFree(groups: map<string, Group>, o1: seq<string>, o2: seq<string>)
    requires ListsKeys(groups, o1) && ListsKeys(groups, o2)
    requires forall k :: k in groups ==> groups[k].text == k
    ensures GetGroups(groups, o1) == GetGroups(groups, o2)
  {
    var lookup := (k: string) => Lookup(groups, k);
    NoDupsSameMembers(o1, o2);
    MapPermutation(lookup, o1, o2);
    var r1, r2 := GetGroups(groups, o1), GetGroups(groups, o2);
    forall x, y | x in r1 && y in r1 && GroupKey(x) == GroupKey(y) ensures x == y {
      GroupKeyText(x, y);
    }
    SortedUnique(r1, r2, GroupKey);
  }
}
