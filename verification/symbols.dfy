/** One symbol of the map file and the positional parser that reads it from a line
    (the `Symbol` class of Program.cs). */
module Symbols {
  import opened Wrappers
  import opened Text
  import opened Seqs
  import Hex

  /** The `Shared` column: how far a symbol's inferred size can be trusted. */
  datatype Sharing = Unique | Shared | SharedFirst | Unknown {
    /** The spelling the original stores and prints. */
    function Spelling(): string {
      match this
      case Unique => "unique"
      case Shared => "shared"
      case SharedFirst => "shared(first)"
      case Unknown => "unknown"
    }
  }

  /** A symbol as read from one line, with the size fields the size inference fills in. */
  datatype Symbol = Symbol(
    kind: string,
    name: string,
    address: string,
    addressSection: nat,
    addressOffset: nat,
    base: string,
    baseOffset: nat,
    library: string,
    objectFile: string,
    size: int,
    shared: Sharing)

  /** The symbol as it was parsed, before any size was inferred for it. */
  function Parsed(s: Symbol): Symbol {
    s.(size := 0, shared := Unique)
  }

  /** Non-empty, with no space at either end. */
  predicate Trimmed(l: string) {
    |l| > 0 && l[0] != ' ' && l[|l| - 1] != ' '
  }

  /** Takes the text up to the next space as a field and drops the spaces after it. There
      is no field when no space is left: `Substring(0, IndexOf(' '))` throws there. */
  function NextField(l: string): (r: Option<(string, string)>)
    ensures r.Some? ==> |r.value.0| < |l| && NoneIn(r.value.0, {' '})
  {
    var i := IndexOf(l, ' ');
    if i < 0 then None else Some((l[..i], TrimStart(l[i..], ' ')))
  }

  /** The two halves of a token that splits on `:` into exactly two parts. */
  function ColonPair(tok: string): Option<(string, string)> {
    var parts := Split(tok, {':'});
    if |parts| == 2 then Some((parts[0], parts[1])) else None
  }

  /** Library and object file named by a `library:object` token; a token that does not
      split into two parts names both. */
  function Owner(tok: string): (string, string) {
    match ColonPair(tok)
    case Some(pair) => pair
    case None => (tok, tok)
  }

  /** Section and offset of a `section:offset` address, both 0 unless the address splits
      into two parts; either part failing to read as hexadecimal fails the line. */
  function AddressParts(address: string): Option<(nat, nat)> {
    match ColonPair(TrimEnd(address, ' '))
    case None => Some((0, 0))
    case Some((sec, off)) =>
      match (Hex.ParseHex(sec), Hex.ParseHex(off))
      case (Some(s), Some(o)) => Some((s, o))
      case _ => None
  }

  /** What every parsed symbol holds: its kind, size 0, unique, and the base it read from
      its base field. */
  predicate ReadAs(s: Symbol, kind: string) {
    s.kind == kind && s.size == 0 && s.shared == Unique && Hex.ParseHex(s.base) == Some(s.baseOffset)
  }

  /** The `Symbol(line, kind)` constructor: address, name and base are the first three
      space-separated fields, library and object come from the last token. `None` where
      the constructor throws. */
  function ParseLine(line: string, kind: string): (r: Option<Symbol>)
    ensures r.Some? ==> ReadAs(r.value, kind)
    ensures r.Some? ==> NoneIn(r.value.address, {' '}) && NoneIn(r.value.name, {' '}) && NoneIn(r.value.base, {' '})
  {
    ParseFields(TrimEnd(TrimStart(line, ' '), ' '), kind)
  }

  /** The constructor's work on the line once its outer spaces are gone: the address. */
  function ParseFields(l: string, kind: string): (r: Option<Symbol>)
    ensures r.Some? ==> ReadAs(r.value, kind)
    ensures r.Some? ==> NoneIn(r.value.address, {' '}) && NoneIn(r.value.name, {' '}) && NoneIn(r.value.base, {' '})
  {
    match NextField(l)
    case None => None
    case Some((address, r1)) => ParseName(address, r1, kind)
  }

  /** Then the name. */
  function ParseName(address: string, r1: string, kind: string): (r: Option<Symbol>)
    ensures r.Some? ==> ReadAs(r.value, kind) && r.value.address == address
    ensures r.Some? ==> NoneIn(r.value.name, {' '}) && NoneIn(r.value.base, {' '})
  {
    match NextField(r1)
    case None => None
    case Some((name, r2)) => ParseBase(address, name, r2, kind)
  }

  /** Then the base. */
  function ParseBase(address: string, name: string, r2: string, kind: string): (r: Option<Symbol>)
    ensures r.Some? ==> ReadAs(r.value, kind) && r.value.address == address && r.value.name == name
    ensures r.Some? ==> NoneIn(r.value.base, {' '})
  {
    match NextField(r2)
    case None => None
    case Some((base, r3)) => Build(address, name, base, r3, kind)
  }

  /** Then the owner from the last token, and the hexadecimal fields. */
  function Build(address: string, name: string, base: string, r3: string, kind: string): (r: Option<Symbol>)
    ensures r.Some? ==> ReadAs(r.value, kind) && r.value.address == address && r.value.name == name && r.value.base == base
    ensures r.Some? <==> AddressParts(address).Some? && Hex.ParseHex(base).Some?
  {
    var owner := Owner(Last(Split(TrimStart(r3, ' '), {' '})));
    match (AddressParts(address), Hex.ParseHex(base))
    case (Some((section, offset)), Some(baseOffset)) =>
      Some(Symbol(kind, name, address, section, offset, base, baseOffset,
                  owner.0, owner.1, 0, Unique))
    case _ => None
  }

  /** `tok` holds exactly one colon, at index `k`. */
  predicate SingleColonAt(tok: string, k: int) {
    0 <= k < |tok| && tok[k] == ':' && NoneIn(tok[..k], {':'}) && NoneIn(tok[k + 1..], {':'})
  }

  /** The first delimiter of `s` is at `i`. */
  lemma SplitSingle(s: string, ds: set<char>)
    ensures |Split(s, ds)| == 1 <==> NoneIn(s, ds)
  {
    var i := IndexOfAny(s, ds);
    if 0 <= i {
      assert |Split(s, ds)| == 1 + |Split(s[i + 1..], ds)|;
    }
  }

  /** A token splits into two halves exactly when it holds a single colon, and the halves
      are the text before and after it. */
  lemma ColonPairSingleColon(tok: string)
    ensures forall k :: SingleColonAt(tok, k) ==> ColonPair(tok) == Some((tok[..k], tok[k + 1..]))
    ensures (forall k :: !SingleColonAt(tok, k)) ==> ColonPair(tok) == None
  {
    var i := IndexOfAny(tok, {':'});
    if i < 0 {
      SplitWithoutDelim(tok, {':'});
      forall k | 0 <= k < |tok| ensures !SingleColonAt(tok, k) {
        assert tok[k] !in {':'};
      }
    } else {
      var rest := tok[i + 1..];
      SplitAt(tok, {':'}, i);
      forall k | SingleColonAt(tok, k) ensures k == i {
        IndexOfAnyAt(tok, {':'}, k);
      }
      SplitSingle(rest, {':'});
      if NoneIn(rest, {':'}) {
        assert SingleColonAt(tok, i);
        SplitWithoutDelim(rest, {':'});
      } else {
        assert !SingleColonAt(tok, i);
        assert |Split(tok, {':'})| > 2;
      }
    }
  }

  lemma NonEmptyAppend(xs: seq<string>, ys: seq<string>)
    ensures NonEmpty(xs + ys) == NonEmpty(xs) + NonEmpty(ys)
  {
    if |xs| > 0 {
      assert (xs + ys)[1..] == xs[1..] + ys;
      NonEmptyAppend(xs[1..], ys);
    } else {
      assert xs + ys == ys;
    }
  }

  lemma SplitLeadingDelim(s: string, ds: set<char>)
    requires |s| > 0 && s[0] in ds
    ensures Split(s, ds) == [""] + Split(s[1..], ds)
  {
    assert IndexOfAny(s, ds) == 0;
  }

  lemma {:induction false} SplitTrailingDelim(s: string, d: char, ds: set<char>)
    requires d in ds
    ensures Split(s + [d], ds) == Split(s, ds) + [""]
    decreases |s|
  {
    var i := IndexOfAny(s, ds);
    var t := s + [d];
    if i < 0 {
      assert t[..|s|] == s && t[|s| + 1..] == [];
      SplitAt(t, ds, |s|);
      SplitWithoutDelim([], ds);
      SplitWithoutDelim(s, ds);
    } else {
      assert t[..i] == s[..i] && t[i + 1..] == s[i + 1..] + [d];
      SplitAt(t, ds, i);
      SplitAt(s, ds, i);
      SplitTrailingDelim(s[i + 1..], d, ds);
    }
  }

  /** Leading spaces do not change the tokens of a line. */
  lemma {:induction false} TokensTrimStart(s: string)
    ensures Tokens(TrimStart(s, ' ')) == Tokens(s)
    decreases |s|
  {
    if |s| > 0 && s[0] == ' ' {
      TokensTrimStart(s[1..]);
      SplitLeadingDelim(s, {' '});
      NonEmptyAppend([""], Split(s[1..], {' '}));
    }
  }

  /** Trailing spaces do not change the tokens of a line. */
  lemma {:induction false} TokensTrimEnd(s: string)
    ensures Tokens(TrimEnd(s, ' ')) == Tokens(s)
    decreases |s|
  {
    if |s| > 0 && s[|s| - 1] == ' ' {
      var s' := s[..|s| - 1];
      TokensTrimEnd(s');
      assert s == s' + [' '];
      SplitTrailingDelim(s', ' ', {' '});
      NonEmptyAppend(Split(s', {' '}), [""]);
    }
  }

  /** Reading one field off a trimmed line takes its first token and leaves a trimmed
      line holding the other tokens; when no field can be read, the line is one token. */
  lemma FieldIsFirstToken(l: string)
    requires Trimmed(l)
    ensures NextField(l).None? ==> Tokens(l) == [l]
    ensures NextField(l).Some? ==>
      var (f, rest) := NextField(l).value;
      Tokens(l) == [f] + Tokens(rest) && Trimmed(rest) && ' ' !in f
  {
    var i := IndexOf(l, ' ');
    if i < 0 {
      assert Split(l, {' '}) == [l];
      NonEmptyAppend([l], []);
    } else {
      var f := l[..i];
      var tail := l[i + 1..];
      assert i > 0;
      assert Split(l, {' '}) == [f] + Split(tail, {' '});
      NonEmptyAppend([f], Split(tail, {' '}));
      assert NonEmpty([f]) == [f];
      SplitLeadingDelim(l[i..], {' '});
      assert l[i..][1..] == tail;
      NonEmptyAppend([""], Split(tail, {' '}));
      TokensTrimStart(l[i..]);
      var rest := TrimStart(l[i..], ' ');
      assert i < |l| - 1;
      assert |rest| > 0;
      assert rest[|rest| - 1] == l[|l| - 1];
      forall k | 0 <= k < |f| ensures f[k] != ' ' {
        assert f[k] !in {' '};
      }
    }
  }

  lemma {:induction false} LastPartNonEmpty(s: string, ds: set<char>)
    requires |s| > 0 && s[|s| - 1] !in ds
    ensures Last(Split(s, ds)) != []
    decreases |s|
  {
    var i := IndexOfAny(s, ds);
    if 0 <= i {
      assert i < |s| - 1;
      var rest := s[i + 1..];
      assert rest[|rest| - 1] == s[|s| - 1];
      LastPartNonEmpty(rest, ds);
      assert Split(s, ds) == [s[..i]] + Split(rest, ds);
      assert Last(Split(s, ds)) == Last(Split(rest, ds));
    } else {
      assert Split(s, ds) == [s];
    }
  }

  lemma NonEmptyKeepsLast(xs: seq<string>)
    requires |xs| > 0 && Last(xs) != []
    ensures |NonEmpty(xs)| > 0 && Last(NonEmpty(xs)) == Last(xs)
  {
    var n := |xs|;
    assert xs == xs[..n - 1] + [xs[n - 1]];
    NonEmptyAppend(xs[..n - 1], [xs[n - 1]]);
    NonEmptyAppend([xs[n - 1]], []);
  }

  /** The reference reading of a line from its space-separated tokens: fewer than four
      tokens are no symbol; otherwise address, name and base are the first three tokens
      and library and object come from the last one. */
  function FromTokens(toks: seq<string>, kind: string): Option<Symbol> {
    if |toks| < 4 then None
    else
      var owner := Owner(Last(toks));
      match (AddressParts(toks[0]), Hex.ParseHex(toks[2]))
      case (Some((section, offset)), Some(baseOffset)) =>
        Some(Symbol(kind, toks[1], toks[0], section, offset, toks[2], baseOffset,
                    owner.0, owner.1, 0, Unique))
      case _ => None
  }

  /** The last piece of a trimmed line split on spaces is its last token. */
  lemma LastPieceIsLastToken(r: string)
    requires Trimmed(r)
    ensures |Tokens(r)| > 0 && Last(Split(TrimStart(r, ' '), {' '})) == Last(Tokens(r))
  {
    assert TrimStart(r, ' ') == r;
    LastPartNonEmpty(r, {' '});
    NonEmptyKeepsLast(Split(r, {' '}));
  }

  lemma BuildReadsTokens(address: string, name: string, base: string, r3: string, kind: string)
    requires Trimmed(r3)
    ensures Build(address, name, base, r3, kind) == FromTokens([address, name, base] + Tokens(r3), kind)
  {
    var toks := [address, name, base] + Tokens(r3);
    LastPieceIsLastToken(r3);
    assert Last(toks) == Last(Tokens(r3));
  }

  lemma ParseBaseReadsTokens(address: string, name: string, r2: string, kind: string)
    requires Trimmed(r2)
    ensures ParseBase(address, name, r2, kind) == FromTokens([address, name] + Tokens(r2), kind)
  {
    FieldIsFirstToken(r2);
    if NextField(r2).None? {
      assert |[address, name] + Tokens(r2)| == 3;
    } else {
      var (base, r3) := NextField(r2).value;
      var toks := [address, name, base] + Tokens(r3);
      assert [address, name] + Tokens(r2) == toks by {
        assert [address, name] + ([base] + Tokens(r3)) == toks;
      }
      calc {
        ParseBase(address, name, r2, kind);
        Build(address, name, base, r3, kind);
        { BuildReadsTokens(address, name, base, r3, kind); }
        FromTokens(toks, kind);
      }
    }
  }

  lemma ParseNameReadsTokens(address: string, r1: string, kind: string)
    requires Trimmed(r1)
    ensures ParseName(address, r1, kind) == FromTokens([address] + Tokens(r1), kind)
  {
    FieldIsFirstToken(r1);
    if NextField(r1).None? {
      assert |[address] + Tokens(r1)| == 2;
    } else {
      var (name, r2) := NextField(r1).value;
      var toks := [address, name] + Tokens(r2);
      assert [address] + Tokens(r1) == toks by {
        assert [address] + ([name] + Tokens(r2)) == toks;
      }
      calc {
        ParseName(address, r1, kind);
        ParseBase(address, name, r2, kind);
        { ParseBaseReadsTokens(address, name, r2, kind); }
        FromTokens(toks, kind);
      }
    }
  }

  lemma ParseFieldsReadsTokens(l: string, kind: string)
    requires Trimmed(l)
    ensures ParseFields(l, kind) == FromTokens(Tokens(l), kind)
  {
    FieldIsFirstToken(l);
    if NextField(l).Some? {
      var (address, r1) := NextField(l).value;
      ParseNameReadsTokens(address, r1, kind);
    }
  }

  /** The positional parser reads exactly what the token reading describes. */
  lemma ParseLineReadsTokens(line: string, kind: string)
    ensures ParseLine(line, kind) == FromTokens(Tokens(line), kind)
  {
    var l := TrimEnd(TrimStart(line, ' '), ' ');
    assert Tokens(l) == Tokens(line) by {
      TokensTrimStart(line);
      TokensTrimEnd(TrimStart(line, ' '));
    }
    if |l| == 0 {
      assert Split(l, {' '}) == [l];
      assert NonEmpty([l]) == [];
      assert NextField(l).None?;
    } else {
      ParseFieldsReadsTokens(l, kind);
    }
  }

  /** A line of fewer than four fields is no symbol; a line of four or more fails exactly
      when its address parts or its base are not hexadecimal. */
  lemma ParseLineSucceeds(line: string, kind: string)
    ensures |Tokens(line)| < 4 ==> ParseLine(line, kind) == None
    ensures |Tokens(line)| >= 4 ==>
      (ParseLine(line, kind).Some? <==>
         AddressParts(Tokens(line)[0]).Some? && Hex.ParseHex(Tokens(line)[2]).Some?)
  {
    ParseLineReadsTokens(line, kind);
  }

  /** Library and object are the halves around a single colon, or both the whole token. */
  lemma OwnerHalves(tok: string)
    ensures forall k :: SingleColonAt(tok, k) ==> Owner(tok) == (tok[..k], tok[k + 1..])
    ensures (forall k :: !SingleColonAt(tok, k)) ==> Owner(tok) == (tok, tok)
  {
    ColonPairSingleColon(tok);
  }

  /** Section and offset are read from the halves around a single colon, or are 0. */
  lemma AddressHalves(address: string)
    requires NoneIn(address, {' '})
    ensures forall k :: SingleColonAt(address, k) ==>
      (AddressParts(address).Some? <==>
         Hex.ParseHex(address[..k]).Some? && Hex.ParseHex(address[k + 1..]).Some?)
    ensures forall k :: SingleColonAt(address, k) && AddressParts(address).Some? ==>
      AddressParts(address).value ==
        (Hex.ParseHex(address[..k]).value, Hex.ParseHex(address[k + 1..]).value)
    ensures (forall k :: !SingleColonAt(address, k)) ==> AddressParts(address) == Some((0, 0))
  {
    assert TrimEnd(address, ' ') == address by {
      if |address| > 0 { assert address[|address| - 1] !in {' '}; }
    }
    ColonPairSingleColon(address);
  }

  /** The fields of a parsed symbol: the name is the second token and the base the third;
      library and object come from the last token and section and offset from the
      first, as `OwnerHalves` and `AddressHalves` state. */
  lemma ParsedSymbolFields(line: string, kind: string)
    ensures ParseLine(line, kind).Some? ==>
      var toks := Tokens(line);
      var s := ParseLine(line, kind).value;
      && |toks| >= 4
      && s.address == toks[0] && s.name == toks[1] && s.base == toks[2]
      && Some(s.baseOffset) == Hex.ParseHex(toks[2])
      && (s.library, s.objectFile) == Owner(Last(toks))
      && Some((s.addressSection, s.addressOffset)) == AddressParts(toks[0])
      && NoneIn(toks[0], {' '})
      && s.kind == kind && s.size == 0 && s.shared == Unique
  {
    var toks := Tokens(line);
    ParseLineReadsTokens(line, kind);
    if ParseLine(line, kind).Some? {
      assert toks[0] in NonEmpty(Split(line, {' '}));
      NonEmptyMembers(Split(line, {' '}));
      SplitPartsFree(line, {' '});
    }
  }

  lemma {:induction false} NonEmptyMembers(xs: seq<string>)
    ensures forall x :: x in NonEmpty(xs) ==> x in xs
  {
    if |xs| > 0 {
      NonEmptyMembers(xs[1..]);
    }
  }

  lemma SplitPartsFree(s: string, ds: set<char>)
    ensures forall p :: p in Split(s, ds) ==> NoneIn(p, ds)
  {
  }

  lemma {:induction false} NonEmptyOfNonEmpty(xs: seq<string>)
    requires forall k :: 0 <= k < |xs| ==> xs[k] != []
    ensures NonEmpty(xs) == xs
  {
    if |xs| > 0 {
      NonEmptyOfNonEmpty(xs[1..]);
    }
  }

  /** Writing non-empty, space-free fields on a line separated by single spaces and
      parsing that line reads back the token reading of those fields. */
  lemma ParseJoinedFields(fields: seq<string>, kind: string)
    requires |fields| >= 1
    requires forall k :: 0 <= k < |fields| ==> fields[k] != [] && NoneIn(fields[k], {' '})
    ensures ParseLine(Join(fields, ' '), kind) == FromTokens(fields, kind)
  {
    JoinThenSplit(fields, ' ');
    NonEmptyOfNonEmpty(fields);
    ParseLineReadsTokens(Join(fields, ' '), kind);
  }
}
