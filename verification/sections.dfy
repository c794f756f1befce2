/** Finding the symbol lines in a map file (`MapData.ProcessCodeSymbols`,
    `MapData.ProcessDataSymbols` and the helpers they use). The file is a queue of lines
    that each search consumes, up to and including the line it stops at. Code symbols
    start at the first line mentioning `__ImageBase` (that line included); data symbols
    start at the first non-blank line after the first line mentioning `Static symbols`.
    Either run ends at the next blank line, which is consumed too. */
module Sections {
  import opened Wrappers
  import opened Text

  /** `FindFirstContains`: dequeues lines up to the first one containing `text` and
      returns it with what is left of the queue; `None` when no line contains it, and the
      queue is then empty. */
  function FindFirstContains(lines: seq<string>, text: string): (r: (Option<string>, seq<string>))
    ensures r.0.None? <==> forall j :: 0 <= j < |lines| ==> !Contains(lines[j], text)
    ensures r.0.None? ==> r.1 == []
    ensures r.0.Some? ==>
      (Consumed(lines, r.1, r.0.value) && Contains(r.0.value, text)
       && forall j :: 0 <= j < |lines| - |r.1| - 1 ==> !Contains(lines[j], text))
  {
    if |lines| == 0 then (None, [])
    else if Contains(lines[0], text) then (Some(lines[0]), lines[1..])
    else
      var r := FindFirstContains(lines[1..], text);
      assert forall j :: 1 <= j < |lines| ==> lines[j] == lines[1..][j - 1];
      r
  }

  /** `rest` is what is left of `lines` once `line` has been dequeued from it, after all
      the lines before it. */
  ghost predicate Consumed(lines: seq<string>, rest: seq<string>, line: string) {
    |rest| < |lines| && lines[|lines| - |rest| - 1] == line && rest == lines[|lines| - |rest|..]
  }

  /** `FindFirstNonWhiteSpace`: dequeues lines up to the first non-blank one. */
  function FindFirstNonBlank(lines: seq<string>): (r: (Option<string>, seq<string>))
    ensures r.0.None? <==> forall j :: 0 <= j < |lines| ==> IsBlank(lines[j])
    ensures r.0.None? ==> r.1 == []
    ensures r.0.Some? ==>
      (Consumed(lines, r.1, r.0.value) && !IsBlank(r.0.value)
       && forall j :: 0 <= j < |lines| - |r.1| - 1 ==> IsBlank(lines[j]))
  {
    if |lines| == 0 then (None, [])
    else if !IsBlank(lines[0]) then (Some(lines[0]), lines[1..])
    else
      var r := FindFirstNonBlank(lines[1..]);
      assert forall j :: 1 <= j < |lines| ==> lines[j] == lines[1..][j - 1];
      r
  }

  /** The loop of `ProcessSymbolsInternal`: from `line`, the run of non-blank lines, each
      next line dequeued from `rest` (an exhausted queue reads as a blank line); returns
      the run and what is left of the queue once the blank line ending it is consumed. */
  function Run(line: string, rest: seq<string>): (r: (seq<string>, seq<string>))
    ensures forall k :: 0 <= k < |r.0| ==> !IsBlank(r.0[k])
    ensures IsBlank(line) ==> r == ([], rest)
    ensures !IsBlank(line) ==> 1 <= |r.0| <= |rest| + 1 && r.0 == [line] + rest[..|r.0| - 1]
    ensures !IsBlank(line) && |r.0| <= |rest| ==> IsBlank(rest[|r.0| - 1]) && r.1 == rest[|r.0|..]
    ensures !IsBlank(line) && |r.0| == |rest| + 1 ==> r.1 == []
    decreases |rest| + (if IsBlank(line) then 0 else 1)
  {
    if IsBlank(line) then ([], rest)
    else if |rest| == 0 then
      assert IsBlank("");
      ([line], [])
    else
      var more := Run(rest[0], rest[1..]);
      if IsBlank(rest[0]) then ([line], rest[1..])
      else
        assert more.0 == [rest[0]] + rest[1..][..|more.0| - 1];
        assert rest[..|more.0|] == [rest[0]] + rest[1..][..|more.0| - 1];
        ([line] + more.0, more.1)
  }

  /** The lines of the code symbols and what is left of the queue after them. */
  function CodeLines(lines: seq<string>): (r: (seq<string>, seq<string>))
    ensures forall k :: 0 <= k < |r.0| ==> !IsBlank(r.0[k])
    ensures |r.0| + |r.1| <= |lines|
  {
    var found := FindFirstContains(lines, "__ImageBase");
    Run(if found.0.Some? then found.0.value else "", found.1)
  }

  /** The lines of the data symbols, searched for in what the code symbols left. */
  function DataLines(rest: seq<string>): (r: seq<string>)
    ensures forall k :: 0 <= k < |r| ==> !IsBlank(r[k])
    ensures |r| <= |rest|
  {
    var header := FindFirstContains(rest, "Static symbols");
    var first := FindFirstNonBlank(header.1);
    Run(if first.0.Some? then first.0.value else "", first.1).0
  }

  /** Without a line mentioning `__ImageBase` there are no code lines, and no data lines
      either, since the search has emptied the queue. */
  lemma NoImageBase(lines: seq<string>)
    requires forall j :: 0 <= j < |lines| ==> !Contains(lines[j], "__ImageBase")
    ensures CodeLines(lines).0 == [] && DataLines(CodeLines(lines).1) == []
  {
    assert IsBlank("");
    assert CodeLines(lines) == ([], []);
    assert FindFirstContains([], "Static symbols") == (None, []);
    assert FindFirstNonBlank([]) == (None, []);
  }

  /** A line mentioning a non-empty text of no white space is not blank. */
  lemma MentionNotBlank(line: string, text: string)
    requires |text| > 0 && forall k :: 0 <= k < |text| ==> !IsWhiteSpace(text[k])
    requires Contains(line, text)
    ensures !IsBlank(line)
  {
    ContainsIffOccurs(line, text);
    var k: nat :| OccursAt(line, text, k);
    assert line[k] == line[k..k + |text|][0];
  }

  /** There are code lines exactly when some line mentions `__ImageBase`. */
  lemma CodeLinesExist(lines: seq<string>)
    ensures |CodeLines(lines).0| > 0 <==> exists j :: 0 <= j < |lines| && Contains(lines[j], "__ImageBase")
  {
    var found := FindFirstContains(lines, "__ImageBase");
    assert IsBlank("");
    if found.0.Some? {
      MentionNotBlank(found.0.value, "__ImageBase");
    }
  }

  /** `run` is the slice of `lines` from index `i`, and the line after it, if there is
      one, is blank. */
  ghost predicate RunFrom(lines: seq<string>, i: int, run: seq<string>) {
    0 <= i && i + |run| <= |lines| && run == lines[i..i + |run|]
    && (i + |run| < |lines| ==> IsBlank(lines[i + |run|]))
  }

  /** The code lines are the first line mentioning `__ImageBase` and the non-blank lines
      right after it, up to the next blank line or the end of the file. */
  lemma CodeLinesAt(lines: seq<string>)
    ensures |CodeLines(lines).0| > 0 ==>
      exists i :: FirstMention(lines, i, "__ImageBase") && RunFrom(lines, i, CodeLines(lines).0)
  {
    var found := FindFirstContains(lines, "__ImageBase");
    var code := CodeLines(lines).0;
    assert IsBlank("");
    if found.0.Some? {
      FoundAt(lines, "__ImageBase");
      var i := |lines| - |found.1| - 1;
      assert lines[i] == found.0.value;
      RunIsSlice(lines, i, code);
    }
  }

  /** A run starting at line `i` of a queue is a slice of the queue from `i`, of
      non-blank lines, followed by a blank line or the end of the queue. */
  lemma RunIsSlice(lines: seq<string>, i: nat, run: seq<string>)
    requires i < |lines| && run == Run(lines[i], lines[i + 1..]).0
    ensures RunFrom(lines, i, run)
    ensures forall k :: 0 <= k < |run| ==> !IsBlank(run[k])
  {
    if !IsBlank(lines[i]) {
      assert lines[i..] == [lines[i]] + lines[i + 1..];
      assert run == lines[i..][..|run|];
      assert run == lines[i..i + |run|];
      if i + |run| < |lines| {
        assert lines[i + 1..][|run| - 1] == lines[i + |run|];
      }
    }
  }

  /** Line `h` is the first of `lines` to contain `text`. */
  ghost predicate FirstMention(lines: seq<string>, h: int, text: string) {
    0 <= h < |lines| && Contains(lines[h], text) && forall j :: 0 <= j < h ==> !Contains(lines[j], text)
  }

  /** Where `FindFirstContains` stops: the first line containing `text`, at the index
      just before what is left of the queue. */
  lemma FoundAt(lines: seq<string>, text: string)
    requires FindFirstContains(lines, text).0.Some?
    ensures var h := |lines| - |FindFirstContains(lines, text).1| - 1;
      FirstMention(lines, h, text) && FindFirstContains(lines, text).1 == lines[h + 1..]
  {
  }

  /** Every line strictly between `h` and `i` is blank. */
  ghost predicate BlankBetween(rest: seq<string>, h: int, i: int) {
    forall j :: h < j < i && 0 <= j < |rest| ==> IsBlank(rest[j])
  }

  /** The run that starts at the first non-blank line `i` after line `h`: only blank
      lines lie between the two, and the run is a slice from `i` up to the next blank line
      or the end. */
  lemma DataStart(rest: seq<string>, h: nat)
    requires h < |rest| && FindFirstNonBlank(rest[h + 1..]).0.Some?
    ensures var first := FindFirstNonBlank(rest[h + 1..]);
      var i := |rest| - |first.1| - 1;
      h < i && RunFrom(rest, i, Run(first.0.value, first.1).0) && BlankBetween(rest, h, i)
  {
    var first := FindFirstNonBlank(rest[h + 1..]);
    var i := |rest| - |first.1| - 1;
    GapEnd(rest, h);
    GapBlank(rest, h);
    RunAt(rest, i, first.0.value, first.1);
  }

  /** The run read from line `i` and the lines after it is a slice of the file from `i`. */
  lemma RunAt(lines: seq<string>, i: nat, line: string, after: seq<string>)
    requires i < |lines| && line == lines[i] && after == lines[i + 1..]
    ensures RunFrom(lines, i, Run(line, after).0)
  {
    RunIsSlice(lines, i, Run(line, after).0);
  }

  /** `FindFirstNonBlank` run on the lines after `h` stops at a line `i` after `h`, with
      the lines after `i` left. */
  lemma GapEnd(rest: seq<string>, h: nat)
    requires h < |rest| && FindFirstNonBlank(rest[h + 1..]).0.Some?
    ensures var first := FindFirstNonBlank(rest[h + 1..]);
      var i := |rest| - |first.1| - 1;
      h < i < |rest| && first.1 == rest[i + 1..] && first.0.value == rest[i]
  {
    var tail := rest[h + 1..];
    var first := FindFirstNonBlank(tail);
    assert Consumed(tail, first.1, first.0.value);
    var i := |rest| - |first.1| - 1;
    assert tail[i - h - 1] == rest[i];
    assert tail[i - h..] == rest[i + 1..];
  }

  /** The lines it skips on the way are blank. */
  lemma GapBlank(rest: seq<string>, h: nat)
    requires h < |rest| && FindFirstNonBlank(rest[h + 1..]).0.Some?
    ensures BlankBetween(rest, h, |rest| - |FindFirstNonBlank(rest[h + 1..]).1| - 1)
  {
    var tail := rest[h + 1..];
    var first := FindFirstNonBlank(tail);
    var i := |rest| - |first.1| - 1;
    forall j | h < j < i && 0 <= j < |rest| ensures IsBlank(rest[j]) {
      assert rest[j] == tail[j - h - 1];
    }
  }

  /** The data lines are the first non-blank line after the first line mentioning
      `Static symbols`, and the non-blank lines right after it, up to the next blank line
      or the end of the file. */
  lemma DataLinesAt(rest: seq<string>)
    ensures |DataLines(rest)| > 0 ==>
      exists h :: FirstMention(rest, h, "Static symbols")
        && (exists i :: h < i && RunFrom(rest, i, DataLines(rest)) && BlankBetween(rest, h, i))
  {
    var header := FindFirstContains(rest, "Static symbols");
    var data := DataLines(rest);
    assert IsBlank("");
    if |data| > 0 {
      var h := |rest| - |header.1| - 1;
      FoundAt(rest, "Static symbols");
      DataStart(rest, h);
    }
  }
}
