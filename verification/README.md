# amap map-file analyser, modelled in Dafny

`amap` reads a linker map file and reports where the image's bytes go. It works in four stages:

1. It finds the code-symbol and data-symbol lines of the file.
2. It reads one symbol from each line: address, name, base address, library and object file.
3. It infers each symbol's size from the distance to the next symbol in address order, then keeps one symbol per (name, address) pair.
4. It groups the symbols under the names they carry (their kind, library, object and name, plus the pieces and words of those) and prints tab-separated tables. Symbol filters can be applied before the report; line filters and a tail count can be applied after it.

This project models those stages of `Program.cs` (classes `MapData` and `Symbol`) as pure functions over immutable data:

- `seq<string>` for the file's lines;
- a `Symbol` datatype;
- `map<string, Group>` for the group dictionary.

Where the original loops over a list in place, the loop is also written out as a method and proved equal to the functional definition: `Sizes.InferSizes`, `Dedup.RemoveRepeats`, `Names.CutWords`, `Grouping.PrepareGroups` and `Grouping.AddSymbol`.

Modules, one per concern:

- `Wrappers`: `Option`.
- `Text`: the .NET string operations, read ordinally.
- `Seqs`: filtering, mapping, subsequences, `Distinct`.
- `Hex`: hexadecimal fields.
- `Ordering` and `Sorting`: a lexicographic order on integer keys, and a stable insertion sort standing for `List.Sort`.
- `Symbols`: the line parser.
- `Sections`: the line queue.
- `Sizes`: `CalculateSizes`.
- `Dedup`: `FinalPrep`.
- `Filters`: `Filter`.
- `Names`: `GetGroupNames` and `GetVariations`.
- `Grouping`: `PrepareGroups` and `GetGroups`.
- `Decimal`: integer text in report rows.
- `Report`: `DumpInfo`.
- `MapData`: `LoadMap`.

Every sort of the original compares a tuple, so every sort key is modelled as a sequence of integers compared lexicographically:

- `BaseOffset` alone;
- `(BaseOffset, Name)`;
- `(Size, Text.Length, Text)`.

Strings compare by their character codes.

The symbol filter follows the code at `Program.cs:152-168`:

- A plain argument keeps the symbols whose field contains the text.
- An argument with a leading `-` removes them.

The flag a leading `-` sets is named `keep` (`Program.cs:152`), yet with it set the filter removes the matching symbols (`Program.cs:167-168`). The model follows what the code does, not the flag's name.

## Model

| member | source | states |
|---|---|---|
| Text.IndexOfAny | Program.cs:308 | -1 exactly when no character of the set occurs; otherwise the index holds one of them and no earlier index does |
| Text.TrimStart | Program.cs:267 | the result is a suffix of the input, every character dropped is the trimmed one, and the result does not start with it |
| Text.TrimEnd | Program.cs:267 | the result is a prefix of the input, every character dropped is the trimmed one, and the result does not end with it |
| Text.Split | Program.cs:279 | there is at least one piece, and no piece holds a delimiter |
| Text.SplitThenJoin | Program.cs:279 | joining the pieces of a split on one delimiter with that delimiter gives the string back |
| Text.JoinThenSplit | Program.cs:279 | pieces without the delimiter, joined with it and split again, come back unchanged |
| Text.ContainsIffOccurs | Program.cs:56 | `Contains` holds exactly when the text occurs at some index |
| Seqs.Filter | Program.cs:123 | `RemoveAll` keeps exactly the elements that satisfy the predicate, never more than there were |
| Seqs.FilterMultiplicity | Program.cs:168 | each element is kept as often as it occurred when it satisfies the predicate, and not at all otherwise |
| Seqs.Distinct | Program.cs:320 | `Distinct` has no duplicates and the same members as its input |
| Seqs.DistinctKeepsPrefix | Program.cs:320 | a duplicate-free prefix survives `Distinct` unchanged, so first occurrences keep their places |
| Hex.ParseHex | Program.cs:284-287 | a hexadecimal field reads exactly when it is non-empty and all hexadecimal digits |
| Hex.ParseToHex | Program.cs:287 | reading back the hexadecimal spelling of a number gives the number |
| Symbols.ParseLine | Program.cs:263-288 | a symbol read from a line has the given kind, size 0, status unique and the base read as its address, and its address, name and base hold no spaces |
| Symbols.ParseLineReadsTokens | Program.cs:263-288 | the positional parser (trim, then three `Substring(0, IndexOf(' '))` steps, then the last piece of a split on spaces) equals reading the line's space-separated tokens |
| Symbols.ParseLineSucceeds | Program.cs:267-287 | a line of fewer than four fields gives no symbol; a line of four or more gives one exactly when its address halves and its base are hexadecimal |
| Symbols.ParsedSymbolFields | Program.cs:263-287 | address, name and base are the first three tokens; library and object come from the last token; section and offset come from the address; kind as given; size 0 and unique |
| Symbols.OwnerHalves | Program.cs:278-281 | library and object are the text before and after the last token's single colon, or both the whole token when it does not split in two |
| Symbols.AddressHalves | Program.cs:283-285 | section and offset are read from the halves around the address's single colon, or are both 0 |
| Symbols.ColonPairSingleColon | Program.cs:279-281 | a token splits on `:` into exactly two parts exactly when it holds one colon, and the parts are the text around it |
| Symbols.FieldIsFirstToken | Program.cs:269-276 | one `Substring(0, IndexOf(' '))` step takes the first token and leaves a trimmed line holding the rest; with no space left, the line is a single token |
| Symbols.ParseJoinedFields | Program.cs:263-287 | non-empty, space-free fields written with single spaces between them parse back as those fields |
| Sections.FindFirstContains | Program.cs:51-63 | null (`None`) exactly when no line contains the text, and the queue is then empty; otherwise the first such line, with the queue consumed through it |
| Sections.FindFirstNonBlank | Program.cs:79-91 | the same for the first non-blank line |
| Sections.Run | Program.cs:109-116 | the lines read are the non-blank run that starts at the given line, and the blank line that ends it is consumed too; an exhausted queue reads as a blank line |
| Sections.CodeLines | Program.cs:98-116 | every code line read is non-blank, and reading uses no more lines than the file has |
| Sections.DataLines | Program.cs:103-116 | every data line read is non-blank, and reading uses no more lines than are left |
| Sections.RunIsSlice | Program.cs:109-116 | the run read from a line is the slice of the file from that line up to the next blank line or the end, and none of its lines is blank |
| Sections.CodeLinesExist | Program.cs:98-101 | there are code lines exactly when some line of the file mentions `__ImageBase` |
| Sections.CodeLinesAt | Program.cs:98-116 | the code lines are the slice of the file that starts at the first line mentioning `__ImageBase` and stops before the next blank line, or at the end |
| Sections.DataLinesAt | Program.cs:103-116 | the data lines are the slice of what is left that starts at the first non-blank line after the first line mentioning `Static symbols`, with only blank lines between the two, and stops before the next blank line, or at the end |
| Sections.NoImageBase | Program.cs:98-107 | with no `__ImageBase` line there are neither code nor data lines |
| Sizes.AtOrAbove | Program.cs:120-123 | the kept symbols are exactly those at or above the image base, each as often as in the input |
| Sizes.CalculateSizes | Program.cs:118-142 | the result is sorted by address, lies at or above the first symbol's address, and is the kept symbols rearranged, sizes aside |
| Sizes.Step | Program.cs:128-140 | one step changes neither symbol's identity or address and leaves the later symbol's size alone; it changes the later symbol only to mark a unique one shared(first) at a shared address, and at a shared address the earlier symbol becomes shared with the later one's size |
| Sizes.Pass | Program.cs:126-141 | the backward pass keeps the number of symbols (what it leaves on each is `Sizes.PassPointwise`) |
| Sizes.InferSizes | Program.cs:126-141 | the backward loop as written computes the pass |
| Sizes.StepAt | Program.cs:128-140 | one iteration of the loop body changes only symbol `i` and its successor, as one step of the pass does |
| Sizes.PassPointwise | Program.cs:126-141 | what the pass leaves on every symbol: the same symbol with the size and status of its own step, promoted to shared(first) when its predecessor shares its address |
| Sizes.CoincidentNeighbours | Program.cs:129-135 | of two symbols at one address, the first is shared and takes the second's size, and a unique second becomes shared(first) |
| Sizes.WideGap | Program.cs:136-140 | a gap of 100000 or more gives size 0 and status unknown |
| Sizes.NarrowGap | Program.cs:128 | any smaller gap between distinct addresses is the size |
| Sizes.SizesBounded | Program.cs:126-141 | on address-sorted symbols every size ends in `[0, 100000)`, and the last symbol keeps its size |
| Sizes.CalculateSizesBounded | Program.cs:118-142 | every size `CalculateSizes` infers for freshly read symbols is in `[0, 100000)` |
| Sizes.SharedIffCoincidentSuccessor | Program.cs:129-134 | a symbol ends up shared exactly when the next symbol has the same address |
| Sizes.OneUnsharedPerAddress | Program.cs:129-134 | the symbols left not shared have pairwise distinct addresses, so each address's size is counted once |
| Sizes.PassKeepsIdentity | Program.cs:126-141 | the pass changes only sizes and statuses, so every symbol keeps its identity and address |
| Dedup.PairKeyInjective | Program.cs:28-32 | two symbols compare equal under the final order exactly when they have the same name and address |
| Dedup.StartKeyFirst | Program.cs:36-37 | the scan's starting name and address come no later than any symbol's |
| Dedup.RemoveRepeats | Program.cs:34-48 | the `foreach` loop as written computes the scan |
| Dedup.FinalPrep | Program.cs:26-49 | the result is a subsequence of the sorted input and no longer than the input |
| Dedup.DropRepeats | Program.cs:38-46 | the scan keeps a subsequence of its input |
| Dedup.DropRepeatsAscending | Program.cs:38-46 | on sorted input the scan leaves keys strictly ascending and after the starting key |
| Dedup.DropRepeatsCovers | Program.cs:38-46 | every name and address of the input other than the starting pair is still present after the scan |
| Dedup.FinalPrepKeys | Program.cs:26-49 | the result is strictly ascending by address and then name, and holds only input symbols; it has each (name, address) pair of the input exactly once, except the empty name at address 0 |
| Dedup.FinalPrepIdempotent | Program.cs:26-49 | running `FinalPrep` again changes nothing |
| Filters.Matches | Program.cs:146-150 | a symbol matches only when its lower-cased name, its library, its object or its kind contains the text |
| Filters.ParseQuery | Program.cs:152-163 | the filter removes matches exactly when the argument starts with `-`, and the text looked for is no longer than the argument |
| Filters.ApplyFilter | Program.cs:144-169 | exactly the symbols the filter lets through are kept, in their original order |
| Filters.ParseNegated | Program.cs:152-153 | a leading `-` changes only whether matches are removed |
| Filters.FilterComplement | Program.cs:152-168 | `t` and `-t` split the symbols between them: each symbol is kept by exactly one of the two, every copy once |
| Filters.FilterTwice | Program.cs:168 | applying the same filter twice is applying it once |
| Filters.FiltersCommute | Program.cs:144-169 | two filters applied in either order keep the same symbols in the same order |
| Filters.ParseScoped | Program.cs:152-163 | in `w:t`, with `w` non-empty, free of colons and not starting with `-`, matches are kept, the scope is chosen from the whole argument lower-cased (so `Symbol:t` acts as `symbol:t`), and the text looked for is `t` lower-cased, whether or not `w` names a scope |
| Filters.NoScopeWithoutColon | Program.cs:157-162 | an argument without a colon selects no single field |
| Filters.ParseUnscoped | Program.cs:152-163 | an argument without a colon and without a leading `-` keeps matches, looks in every field, and looks for the whole argument lower-cased |
| Filters.PlainPasses | Program.cs:146-168 | for such an argument `t`, `t` lets a symbol through exactly when its lower-cased name, library, object or kind contains `t` lower-cased, and `-t` exactly when none does |
| Filters.ScopePrefix | Program.cs:158-161 | `symbol:t`, `library:t`, `object:t` and `kind:t` look for `t`, lower-cased, in their own field |
| Filters.EmptyFilters | Program.cs:152-168 | the empty argument keeps every symbol and `-` removes every symbol |
| Names.Words | Program.cs:325-345 | no word of a name is empty |
| Names.Scan | Program.cs:326-340 | no word cut off is empty |
| Names.CutWords | Program.cs:325-340 | the word loop as written, with its index reset to 0 and then incremented, computes the scan restarting at index 1 of the remainder |
| Names.NoBoundaryNoWords | Program.cs:326-345 | there are no words exactly when no lower-to-upper or lower-to-underscore boundary lies at index 2 or later, and then there are no variations |
| Names.WordsSpell | Program.cs:326-345 | for a name without underscores the words concatenate back to the name; every word but the last ends in a lower-case letter, and every word after the first starts with an upper-case one |
| Names.WordsKeepLetters | Program.cs:326-345 | underscores aside, the words spell the name |
| Names.Variations | Program.cs:347-364 | a variation is an adjacent pair of words joined, when there are more than two words, or a word of at least three characters starting upper-case then lower-case |
| Names.VariationsOccur | Program.cs:347-364 | for a name without underscores every variation is a substring of the name |
| Names.VariationsAvoid | Program.cs:323-365 | variations add no character other than `_` to those of the name |
| Names.ScopedNamesDiffer | Program.cs:298-301 | the four scoped names are pairwise distinct |
| Names.GroupNames | Program.cs:290-321 | the group names hold no duplicates, start with the `kind:`, `library:`, `object:` and `symbol:` names, and are exactly the names the loops add |
| Names.ThingNamesMembers | Program.cs:304-318 | a name comes from a split thing exactly when one of its parts contributes it |
| Names.GroupNamesMembers | Program.cs:292-320 | a group name is a scoped name, or is contributed by a part of `@library`, `@object` or the name |
| Names.PartNames | Program.cs:306-316 | a part is contributed exactly when it is wordy (longer than four characters, with a lower-case letter and an upper-case letter or `_`) or, failing that, longer than two characters and not found right after a colon in the thing; it comes first, its variations follow only when it is wordy, and a part of at most two characters contributes nothing |
| Names.PartNamesShape | Program.cs:306-316 | what a part contributes holds no delimiter and has at least two characters |
| Names.GroupNamesShape | Program.cs:303-320 | past the four scoped names, no group name holds one of `?$@<>.` or is shorter than two characters |
| Grouping.AddToAll | Program.cs:221-231 | adding a symbol to its names leaves exactly the old groups plus those names |
| Grouping.BumpGroup | Program.cs:223-230 | the inner loop body as written names the group, adds the symbol as a member, and adds its size and one to the count unless it is shared |
| Grouping.AddSymbol | Program.cs:221-231 | the inner loop as written adds the symbol to each of its names in turn |
| Grouping.Prepare | Program.cs:217-233 | every group built is named by its key and has at least one member |
| Grouping.PrepareGroups | Program.cs:217-233 | the outer loop as written visits every symbol in turn |
| Grouping.PrepareKeys | Program.cs:217-233 | the groups built are named by exactly the names some symbol carries |
| Grouping.PrepareIsGroupOf | Program.cs:217-233 | each group built is the reference group: the carrying symbols in order, their non-shared sizes summed and counted |
| Grouping.GroupOfSnoc | Program.cs:219-231 | one more symbol grows exactly the groups of the names it carries |
| Grouping.GroupOfMembers | Program.cs:227-230 | a group's members are exactly the symbols carrying its name, in order, and its unique count never exceeds its member count |
| Grouping.MemberMultiplicity | Program.cs:219-231 | each symbol is a member of a group once per occurrence when it carries the name, and never otherwise |
| Grouping.GroupSizeBound | Program.cs:227-228 | with sizes in `[0, b]`, a group's size lies between 0 and `b` times its unique count |
| Grouping.GetGroups | Program.cs:235-254 | every group exactly once, sorted by size, then text length, then text |
| Grouping.GetGroupsOrderFree | Program.cs:238-252 | the sorted list is the same whatever order the dictionary enumerates its keys in |
| Decimal.FormatParse | Program.cs:180 | reading back the decimal text of a number gives the number |
| Decimal.FormatInjective | Program.cs:180 | distinct numbers print differently |
| Report.SymbolGroups | Program.cs:186-188 | the groups are sorted by size, then text length, then text, and there is one per distinct group name |
| Report.SymbolGroupsAre | Program.cs:186-188 | a listed group is the reference group of a name some symbol carries, and every such name is listed |
| Report.ScopedNamesHaveColon | Program.cs:298-301 | every scoped name holds a colon |
| Report.ShownGroups | Program.cs:188-192 | the groups printed are, in order, those whose name has no colon when unigrams and bigrams are asked for, and the others when symbols, objects, libraries and kinds are |
| Report.ScopedGroupShown | Program.cs:190-191 | the group of a symbol's kind, library, object or name is printed exactly when the scoped switch is on |
| Report.SymbolRowColumns | Program.cs:180 | a symbol row splits on tabs back into its seven columns when the texts in it hold no tab |
| Report.GroupRowColumns | Program.cs:192 | a group row splits on tabs back into its four columns when the group name holds no tab |
| Report.Output | Program.cs:171-194 | with the map dump asked for, the lines start with the map header and then one row per symbol, in symbol order; with either group switch on, they end with the group header and then one row per shown group, in report order; nothing else is collected, so every line is a header, a symbol row or a shown group's row |
| Report.Tables | Program.cs:175-193 | the same layout for any list of groups |
| Report.OutputComplete | Program.cs:178-192 | every symbol's row is collected when the map dump is asked for, and every shown group's row always |
| Report.Surviving | Program.cs:196-199 | the lines kept are, in order, those mentioning some final filter, or all lines when there is none |
| Report.FinalLinesTail | Program.cs:196-201 | a negative tail fails; otherwise the result is the last `tail` surviving lines, or all of them when there are fewer |
| Report.FinalLinesMembers | Program.cs:196-201 | every line printed was collected and survives the filters; with a long enough tail every surviving line is printed |
| Report.FinalLines | Program.cs:196-201 | the final lines fail exactly when the tail is negative; otherwise there are no more of them than the tail or the lines collected |
| Report.DumpInfo | Program.cs:171-201 | the report fails exactly when the tail is negative; otherwise it has at most `tail` lines |
| MapData.ReadAll | Program.cs:109-116 | reading fails exactly when some line fails; otherwise there is one symbol per line, each read from its line |
| MapData.ParseAllFields | Program.cs:109-116 | every symbol read from the lines of one kind has that kind and is fresh: size 0 and unique |
| MapData.ReadSymbolsLines | Program.cs:98-116 | the symbols read are the code lines read as `code`, then the data lines read as `data` |
| MapData.LoadSymbols | Program.cs:17-24 | a map loads only when there is some code or data line; a loaded map is strictly ascending by address and then name, and every size in it is in `[0, 100000)` |
| MapData.LoadMap | Program.cs:17-24 | loading a file gives a map strictly ascending by address and then name, with every size in `[0, 100000)` |
| MapData.LoadFails | Program.cs:17-24 | loading fails exactly when a code or data line is no symbol, or when there is no symbol line at all |
| MapData.LoadOrder | Program.cs:17-24 | when loading succeeds, the map is strictly ascending by address and then name |
| MapData.LoadMembers | Program.cs:17-24 | when loading succeeds, every loaded symbol was read from the file, lies at or above the first symbol's address, and has a size in `[0, 100000)` |
| MapData.LoadCovers | Program.cs:17-24 | when loading succeeds, every symbol read at or above the first symbol's address survives loading under its name and address, except the empty name at address 0 |

## Left out

- Reading the file (`File.ReadAllLines`, Program.cs:95) and printing the report (Program.cs:202-205). The model takes the file as its lines and returns the report as lines.
- `Main` (Program.cs:392 on): argument handling, the usage text, display-filter and tail arguments, and `int.Parse` of the tail. The report takes the switches, the final filters and the tail as parameters.
- `FindFirstStartsWith` (Program.cs:65-77): nothing calls it.
- Culture-sensitive comparison and lower-casing are read ordinally. `CompareTo` on strings is modelled as character-code order, and `ToLower` changes ASCII letters only.
- `char.IsUpper` and `char.IsLower` are modelled as ASCII letter tests.
- `string.IsNullOrWhiteSpace` is modelled with the ASCII white-space characters only.
- Fixed-width integers: `Int32.Parse` and `Int64.Parse` overflow, two's-complement reading of eight-digit hexadecimal sections and offsets, and overflow of `Int64` sizes and `Int32` unique counts. Numbers are unbounded.
- `NumberStyles.HexNumber` tolerates surrounding white space; the model's hexadecimal fields do not. Fields hold no spaces after tokenising, so this matters only for other white space.
- Exceptions become `None`. Where the original throws, the model fails:
  - a line with too few fields (`Substring` with index -1);
  - a field that is not hexadecimal;
  - a load that found no symbol at all (`CalculateSizes` dereferences the missing first symbol);
  - a negative tail (`RemoveRange(0, output.Count - tail)` with a count larger than the list).
- `List.Sort` is not stable, and the order it leaves among equal keys is not pinned. The model sorts with a stable insertion sort.
  - The address sort in `CalculateSizes` ties distinct symbols at one address, and the `(BaseOffset, Name)` sort in `FinalPrep` ties distinct symbols sharing a name and address. The group sort (`Program.cs:244-251`) has no ties, because group texts are the dictionary's distinct keys.
  - Every size property is proved for any address-sorted arrangement (`Sizes.SizesBounded`, `Sizes.SharedIffCoincidentSuccessor`, `Sizes.OneUnsharedPerAddress`).
  - `FinalPrep` keeps the first of several symbols sharing a name and address. Which one that is depends on the tie order the original leaves unspecified.
- The dictionary's enumeration order is modelled as first-insertion order, which is what a .NET `Dictionary` without removals gives. `Grouping.GetGroupsOrderFree` shows the sorted group list does not depend on it.
- Number text: `Decimal.Format` writes integers as the invariant culture does, with no grouping separators and an ASCII minus sign.
- `Filter` rebuilds the live symbol list in place. Applying several filter arguments in order is modelled as composing `Filters.ApplyFilter`.
