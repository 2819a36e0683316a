/**
 * Markdown sections, their titles, and the splitting of large ones
 * (apps/chunking/strategies/text_chunker.py).
 */
module MarkdownChunks {
  import opened Common
  import opened TextWindows

  predicate IsHeading(line: string) { |line| > 0 && line[0] == '#' }

  /** The indices of the headings from line `from` on. */
  function Headings(lines: seq<string>, from: nat): (r: seq<nat>)
    ensures forall i :: 0 <= i < |r| ==> from <= r[i] < |lines|
    ensures forall i, j :: 0 <= i < j < |r| ==> r[i] < r[j]
    ensures forall k: nat :: from <= k < |lines| ==> (k in r <==> IsHeading(lines[k]))
    decreases |lines| - from
  {
    if from >= |lines| then []
    else if IsHeading(lines[from]) then [from] + Headings(lines, from + 1)
    else Headings(lines, from + 1)
  }

  /** The section of a heading: up to the line before the next heading, or to the end. */
  function SectionAt(lines: seq<string>, i: nat): Window
    requires i < |Headings(lines, 0)|
  {
    var hs := Headings(lines, 0);
    Window(hs[i], if i + 1 < |hs| then hs[i + 1] else |lines|)
  }

  function SectionsOf(lines: seq<string>): seq<Window> {
    seq(|Headings(lines, 0)|, i requires 0 <= i < |Headings(lines, 0)| => SectionAt(lines, i))
  }

  /** A section is not empty and ends where the next one starts, the last at the end of the text. */
  lemma SectionShape(lines: seq<string>, i: nat)
    requires i < |Headings(lines, 0)|
    ensures var w := SectionAt(lines, i);
            && w.start < w.end <= |lines|
            && w.end == if i + 1 < |Headings(lines, 0)| then SectionAt(lines, i + 1).start else |lines|
  {}

  method Sections(lines: seq<string>) returns (sections: seq<Window>)
    ensures sections == SectionsOf(lines)
  {
    var starts := Headings(lines, 0);
    sections := [];
    for index := 0 to |starts|
      invariant sections == SectionsOf(lines)[..index]
    {
      var end := if index + 1 < |starts| then starts[index + 1] else |lines|;
      sections := sections + [Window(starts[index], end)];
    }
  }

  function Concatenated(lines: seq<string>, ws: seq<Window>): seq<string>
    requires InText(lines, ws)
  {
    if ws == [] then [] else lines[ws[0].start..ws[0].end] + Concatenated(lines, ws[1..])
  }

  lemma SectionsInText(lines: seq<string>)
    ensures InText(lines, SectionsOf(lines))
  {
    hide Headings, SectionAt;
    forall i | 0 <= i < |SectionsOf(lines)| ensures SectionsOf(lines)[i].start <= SectionsOf(lines)[i].end <= |lines| {
      SectionShape(lines, i);
    }
  }

  lemma {:induction false} SectionsFrom(lines: seq<string>, i: nat)
    requires i < |SectionsOf(lines)| && InText(lines, SectionsOf(lines))
    ensures Concatenated(lines, SectionsOf(lines)[i..]) == lines[SectionsOf(lines)[i].start..]
    decreases |SectionsOf(lines)| - i
  {
    hide Headings, SectionAt, IsHeading;
    var ws := SectionsOf(lines);
    SectionShape(lines, i);
    assert ws[i..][1..] == ws[i + 1..];
    if i + 1 < |ws| {
      SectionsFrom(lines, i + 1);
      assert lines[ws[i].start..ws[i].end] + lines[ws[i].end..] == lines[ws[i].start..];
    } else {
      assert ws[i + 1..] == [];
    }
  }

  /**
   * The sections hold everything from the first heading on, once; so they hold the whole text
   * exactly when it starts with a heading. The lines before the first heading are in no chunk.
   */
  lemma SectionsKeepAllButThePreamble(lines: seq<string>)
    requires SectionsOf(lines) != []
    ensures InText(lines, SectionsOf(lines))
    ensures Concatenated(lines, SectionsOf(lines)) == lines[Headings(lines, 0)[0]..]
    ensures Concatenated(lines, SectionsOf(lines)) == lines <==> IsHeading(lines[0])
  {
    var hs, sections := Headings(lines, 0), SectionsOf(lines);
    SectionsInText(lines);
    SectionsFrom(lines, 0);
    assert sections[0..] == sections && lines[0..] == lines;
    assert |lines[hs[0]..]| == |lines| - hs[0];
    if IsHeading(lines[0]) { FirstHeadingIsFirst(lines); }
  }

  lemma FirstHeadingIsFirst(lines: seq<string>)
    requires |lines| > 0 && IsHeading(lines[0])
    ensures Headings(lines, 0) != [] && Headings(lines, 0)[0] == 0
  {}

  // ---------------------------------------------------------------- titles

  function WithoutHashes(line: string): string {
    if line != "" && line[0] == '#' then WithoutHashes(line[1..]) else line
  }

  predicate AllHashes(s: string) { forall i :: 0 <= i < |s| ==> s[i] == '#' }

  predicate AllSpace(s: string, isSpace: char -> bool) { forall i :: 0 <= i < |s| ==> isSpace(s[i]) }

  /** `line` is hashes, then white space, then `title`, then white space; nothing of either kind is left around the title. */
  ghost predicate IsTitle(title: string, line: string, isSpace: char -> bool) {
    exists hashes, before, after ::
      && line == hashes + before + title + after
      && AllHashes(hashes) && AllSpace(before, isSpace) && AllSpace(after, isSpace)
      && (before + title + after != "" ==> (before + title + after)[0] != '#')
      && (title == "" ==> after == "")
      && (title != "" ==> !isSpace(title[0]) && !isSpace(title[|title| - 1]))
  }

  function TrimLeft(s: string, isSpace: char -> bool): string {
    if s != "" && isSpace(s[0]) then TrimLeft(s[1..], isSpace) else s
  }

  function TrimRight(s: string, isSpace: char -> bool): string {
    if s != "" && isSpace(s[|s| - 1]) then TrimRight(s[..|s| - 1], isSpace) else s
  }

  function Title(line: string, isSpace: char -> bool): Option<string> {
    var title := TrimRight(TrimLeft(WithoutHashes(line), isSpace), isSpace);
    if title == "" then None else Some(title)
  }

  lemma {:induction false} HashesBefore(line: string) returns (hashes: string)
    ensures AllHashes(hashes) && line == hashes + WithoutHashes(line)
    ensures WithoutHashes(line) != "" ==> WithoutHashes(line)[0] != '#'
  {
    hashes := "";
    if line != "" && line[0] == '#' {
      hashes := HashesBefore(line[1..]);
      hashes := "#" + hashes;
    }
  }

  lemma {:induction false} SpaceBefore(s: string, isSpace: char -> bool) returns (before: string)
    ensures AllSpace(before, isSpace) && s == before + TrimLeft(s, isSpace)
    ensures TrimLeft(s, isSpace) != "" ==> !isSpace(TrimLeft(s, isSpace)[0])
  {
    before := "";
    if s != "" && isSpace(s[0]) {
      before := SpaceBefore(s[1..], isSpace);
      before := [s[0]] + before;
    }
  }

  lemma {:induction false} SpaceAfter(s: string, isSpace: char -> bool) returns (after: string)
    ensures AllSpace(after, isSpace) && s == TrimRight(s, isSpace) + after
    ensures TrimRight(s, isSpace) == "" ==> s != "" ==> isSpace(s[0])
    ensures var t := TrimRight(s, isSpace); t != "" ==> t[0] == s[0] && !isSpace(t[|t| - 1])
  {
    after := "";
    if s != "" && isSpace(s[|s| - 1]) {
      var init, last := s[..|s| - 1], s[|s| - 1];
      var inside := SpaceAfter(init, isSpace);
      var t := TrimRight(s, isSpace);
      assert t == TrimRight(init, isSpace);
      after := inside + [last];
      assert s == init + [last] == t + after;
      assert t == "" && init != "" ==> isSpace(init[0]);
      hide TrimRight;
    }
  }

  /** The title of a heading is what is left between the hashes with the white space around; none if nothing is. */
  lemma TitleIsTrimmed(line: string, isSpace: char -> bool)
    ensures Title(line, isSpace) != Some("")
    ensures IsTitle(if Title(line, isSpace).Some? then Title(line, isSpace).value else "", line, isSpace)
  {
    var rest := WithoutHashes(line);
    var hashes := HashesBefore(line);
    var before := SpaceBefore(rest, isSpace);
    var trimmed := TrimLeft(rest, isSpace);
    var after := SpaceAfter(trimmed, isSpace);
    var title := TrimRight(trimmed, isSpace);
    hide WithoutHashes, TrimLeft, TrimRight, AllHashes, AllSpace;
    assert trimmed == title + after && rest == before + title + after;
    assert line == hashes + before + title + after;
  }

  // ---------------------------------------------------------------- splitting large chunks

  function BreakAt(text: string): nat {
    if text == "" || text[0] == '\n' then 0 else 1 + BreakAt(text[1..])
  }

  lemma {:induction false} BreakBound(text: string)
    ensures BreakAt(text) <= |text|
  {
    if text != "" && text[0] != '\n' { BreakBound(text[1..]); }
  }

  /** The lines of a text whose only line breaks are newlines; a final newline ends the last line. */
  function SplitLines(text: string): seq<string>
    decreases |text|
  {
    if text == "" then []
    else
      var i := BreakAt(text);
      BreakBound(text);
      [text[..i]] + if i < |text| then SplitLines(text[i + 1..]) else []
  }

  predicate OneLine(line: string) { '\n' !in line }

  function WithoutFinalBlank(lines: seq<string>): seq<string> {
    if lines != [] && lines[|lines| - 1] == "" then lines[..|lines| - 1] else lines
  }

  lemma {:induction false} BreakAfter(line: string, rest: string)
    requires OneLine(line)
    ensures BreakAt(line + rest) == |line| + BreakAt(rest)
  {
    if line == "" {
      assert line + rest == rest;
    } else {
      assert (line + rest)[1..] == line[1..] + rest;
      BreakAfter(line[1..], rest);
    }
  }

  lemma {:induction false} JoinFirst(lines: seq<string>)
    requires |lines| > 1
    ensures Join(lines) == lines[0] + "\n" + Join(lines[1..])
  {
    var init, last := lines[..|lines| - 1], lines[|lines| - 1];
    if |lines| == 2 {
      assert init == [lines[0]] && lines[1..] == [last];
    } else {
      JoinFirst(init);
      assert lines[1..][..|lines| - 2] == init[1..];
    }
  }

  lemma SplitShort(line: string)
    requires OneLine(line)
    ensures Join([]) == "" && SplitLines("") == [] && Join([line]) == line
    ensures SplitLines(line) == if line == "" then [] else [line]
  {
    BreakAfter(line, "");
    assert line + "" == line;
    assert line[..|line|] == line;
  }

  lemma FinalBlankOfRest(first: string, rest: seq<string>)
    requires rest != []
    ensures WithoutFinalBlank([first] + rest) == [first] + WithoutFinalBlank(rest)
  {}

  /** Splitting what was joined gives the lines back, but for one blank line at the end. */
  lemma {:induction false} SplitJoined(lines: seq<string>)
    requires forall l :: l in lines ==> OneLine(l)
    ensures SplitLines(Join(lines)) == WithoutFinalBlank(lines)
  {
    hide SplitLines, Join, OneLine;
    if |lines| <= 1 {
      EmptyIsOneLine();
      SplitShort(if lines == [] then "" else lines[0]);
      assert |lines| == 1 ==> lines == [lines[0]];
    } else {
      hide WithoutFinalBlank;
      var rest := lines[1..];
      JoinFirst(lines);
      SplitJoined(rest);
      SplitFirst(lines[0], Join(rest));
      assert lines == [lines[0]] + rest;
      FinalBlankOfRest(lines[0], rest);
    }
  }

  lemma EmptyIsOneLine()
    ensures OneLine("")
  {}

  lemma SplitFirst(line: string, rest: string)
    requires OneLine(line)
    ensures SplitLines(line + "\n" + rest) == [line] + SplitLines(rest)
  {
    var text := line + "\n" + rest;
    assert text == line + ("\n" + rest);
    BreakAfter(line, "\n" + rest);
    assert text[..|line|] == line && text[|line| + 1..] == rest;
  }

  function FixedSize(lines: seq<string>, limit: int, overlap: nat): seq<Chunk> {
    WindowsInText(lines, limit, overlap, 0);
    ToChunks(lines, Windows(lines, limit, overlap, 0))
  }

  /** A chunk that is not too long is kept; any other is cut into windows, which are numbered afresh and have no name. */
  function Pieces(c: Chunk, limit: int, overlap: nat): seq<Chunk> {
    if |c.text| <= limit then [c] else FixedSize(SplitLines(c.text), limit, overlap)
  }

  function SplitLarge(chunks: seq<Chunk>, limit: int, overlap: nat): seq<Chunk> {
    if chunks == [] then []
    else SplitLarge(chunks[..|chunks| - 1], limit, overlap) + Pieces(chunks[|chunks| - 1], limit, overlap)
  }

  lemma {:induction false} SplitLargeConcat(a: seq<Chunk>, b: seq<Chunk>, limit: int, overlap: nat)
    ensures SplitLarge(a + b, limit, overlap) == SplitLarge(a, limit, overlap) + SplitLarge(b, limit, overlap)
  {
    hide Pieces;
    if b == [] {
      assert a + b == a;
    } else {
      SplitLargeConcat(a, b[..|b| - 1], limit, overlap);
      assert (a + b)[..|a + b| - 1] == a + b[..|b| - 1];
    }
  }

  /**
   * Each chunk is treated by itself, in its place: one within the limit stays as it is, any other
   * gives way to the windows of its lines.
   */
  lemma EachInItsPlace(a: seq<Chunk>, c: Chunk, b: seq<Chunk>, limit: int, overlap: nat)
    ensures |c.text| <= limit ==>
              SplitLarge(a + [c] + b, limit, overlap)
              == SplitLarge(a, limit, overlap) + [c] + SplitLarge(b, limit, overlap)
    ensures |c.text| > limit ==>
              var windows := FixedSize(SplitLines(c.text), limit, overlap);
              SplitLarge(a + [c] + b, limit, overlap)
              == SplitLarge(a, limit, overlap) + windows + SplitLarge(b, limit, overlap)
  {
    SplitLargeConcat(a + [c], b, limit, overlap);
    assert (a + [c])[..|a|] == a;
  }

  /** Without a chunk over the limit nothing changes. */
  lemma {:induction false} NothingToSplit(chunks: seq<Chunk>, limit: int, overlap: nat)
    requires forall c :: c in chunks ==> |c.text| <= limit
    ensures SplitLarge(chunks, limit, overlap) == chunks
  {
    if chunks != [] {
      var init, last := chunks[..|chunks| - 1], chunks[|chunks| - 1];
      assert chunks == init + [last];
      NothingToSplit(init, limit, overlap);
    }
  }

  method SplitLargeChunks(chunks: seq<Chunk>, limit: int, overlapSetting: int) returns (result: seq<Chunk>)
    ensures result == SplitLarge(chunks, limit, Max(0, overlapSetting))
    ensures (forall c :: c in chunks ==> |c.text| <= limit) ==> result == chunks
  {
    result := [];
    for i := 0 to |chunks|
      invariant result == SplitLarge(chunks[..i], limit, Max(0, overlapSetting))
    {
      assert chunks[..i + 1][..i] == chunks[..i];
      if |chunks[i].text| <= limit {
        result := result + [chunks[i]];
      } else {
        var more := FixedSizeChunks(SplitLines(chunks[i].text), limit, overlapSetting);
        result := result + more;
      }
    }
    assert chunks[..|chunks|] == chunks;
    if forall c :: c in chunks ==> |c.text| <= limit { NothingToSplit(chunks, limit, Max(0, overlapSetting)); }
  }

  // ---------------------------------------------------------------- the whole strategy

  function SectionChunk(lines: seq<string>, w: Window, isSpace: char -> bool): Chunk
    requires w.start < w.end <= |lines|
  {
    Chunk(w.start + 1, w.end, Join(lines[w.start..w.end]), Title(lines[w.start], isSpace))
  }

  function SectionChunks(lines: seq<string>, isSpace: char -> bool): seq<Chunk> {
    var ws := SectionsOf(lines);
    seq(|ws|, i requires 0 <= i < |ws| => SectionShape(lines, i); SectionChunk(lines, ws[i], isSpace))
  }

  /** What the strategy stands for. */
  function MarkdownOf(lines: seq<string>, limit: int, overlap: nat, isSpace: char -> bool): seq<Chunk> {
    if Headings(lines, 0) == [] then FixedSize(lines, limit, overlap)
    else SplitLarge(SectionChunks(lines, isSpace), limit, overlap)
  }

  /** Line `i` is a heading, and `j` the next one or the end of the text. */
  predicate IsSection(lines: seq<string>, i: nat, j: nat) {
    && i < j <= |lines| && IsHeading(lines[i])
    && (forall k :: i < k < j ==> !IsHeading(lines[k]))
    && (j < |lines| ==> IsHeading(lines[j]))
  }

  lemma SectionOfHeading(lines: seq<string>, i: nat, j: nat) returns (k: nat)
    requires IsSection(lines, i, j)
    ensures k < |Headings(lines, 0)| && SectionAt(lines, k) == Window(i, j)
  {
    var hs := Headings(lines, 0);
    k :| k < |hs| && hs[k] == i;
    if k + 1 < |hs| { assert hs[k + 1] in hs && hs[k + 1] >= j; }
    if j < |lines| {
      var m :| 0 <= m < |hs| && hs[m] == j;
      assert k < m && hs[k + 1] <= hs[m];
    }
  }

  lemma NoneBetween(hs: seq<nat>, k: nat, m: nat)
    requires forall i, j :: 0 <= i < j < |hs| ==> hs[i] < hs[j]
    requires k < |hs| && hs[k] < m && (k + 1 < |hs| ==> m < hs[k + 1])
    ensures m !in hs
  {
    forall at | 0 <= at < |hs| ensures hs[at] != m {
      assert at < k ==> hs[at] < hs[k];
      assert at > k + 1 ==> hs[k + 1] < hs[at];
    }
  }

  lemma HeadingOfSection(lines: seq<string>, k: nat)
    requires k < |Headings(lines, 0)|
    ensures IsSection(lines, SectionAt(lines, k).start, SectionAt(lines, k).end)
  {
    var hs, w := Headings(lines, 0), SectionAt(lines, k);
    SectionShape(lines, k);
    assert hs[k] in hs;
    if k + 1 < |hs| { assert hs[k + 1] in hs; }
    forall m | w.start < m < w.end ensures !IsHeading(lines[m]) { NoneBetween(hs, k, m); }
  }

  /** The chunk of a section: its lines counted from 1, their text, and the title of its heading. */
  ghost predicate IsSectionChunk(c: Chunk, lines: seq<string>, i: nat, j: nat, isSpace: char -> bool) {
    && IsSection(lines, i, j)
    && c.lineStart == i + 1 && c.lineEnd == j && c.text == Join(lines[i..j])
    && c.name != Some("") && IsTitle(if c.name.Some? then c.name.value else "", lines[i], isSpace)
  }

  lemma SectionChunkIs(lines: seq<string>, k: nat, isSpace: char -> bool)
    requires k < |Headings(lines, 0)|
    ensures var w := SectionAt(lines, k); IsSectionChunk(SectionChunks(lines, isSpace)[k], lines, w.start, w.end, isSpace)
  {
    hide Headings, Title, Join, IsTitle;
    SectionShape(lines, k);
    HeadingOfSection(lines, k);
    TitleIsTrimmed(lines[SectionAt(lines, k).start], isSpace);
  }

  /** A section within the limit is a chunk of the result. */
  lemma ShortSectionIsAChunk(lines: seq<string>, i: nat, j: nat, limit: int, overlap: nat, isSpace: char -> bool)
    returns (c: Chunk)
    requires IsSection(lines, i, j) && |Join(lines[i..j])| <= limit
    ensures c in MarkdownOf(lines, limit, overlap, isSpace) && IsSectionChunk(c, lines, i, j, isSpace)
  {
    hide IsHeading, IsSection, IsTitle, Title, SectionChunk, FixedSize, SplitLines;
    var k := SectionOfHeading(lines, i, j);
    SectionChunkIs(lines, k, isSpace);
    var all := SectionChunks(lines, isSpace);
    c := all[k];
    assert all == all[..k] + [c] + all[k + 1..];
    EachInItsPlace(all[..k], c, all[k + 1..], limit, overlap);
  }

  ghost predicate HoldsShortSections(chunks: seq<Chunk>, lines: seq<string>, limit: int, isSpace: char -> bool) {
    forall i: nat, j: nat :: IsSection(lines, i, j) && |Join(lines[i..j])| <= limit ==>
                               exists c :: c in chunks && IsSectionChunk(c, lines, i, j, isSpace)
  }

  lemma ShortSectionsAreHeld(lines: seq<string>, limit: int, overlap: nat, isSpace: char -> bool)
    ensures HoldsShortSections(MarkdownOf(lines, limit, overlap, isSpace), lines, limit, isSpace)
  {
    hide IsSectionChunk, MarkdownOf, IsHeading, Join;
    forall i: nat, j: nat | IsSection(lines, i, j) && |Join(lines[i..j])| <= limit
      ensures exists c :: c in MarkdownOf(lines, limit, overlap, isSpace) && IsSectionChunk(c, lines, i, j, isSpace)
    {
      var c := ShortSectionIsAChunk(lines, i, j, limit, overlap, isSpace);
    }
  }

  ghost predicate SectionsWithin(lines: seq<string>, limit: int) {
    forall i: nat, j: nat :: IsSection(lines, i, j) ==> |Join(lines[i..j])| <= limit
  }

  lemma ShortSectionChunk(lines: seq<string>, limit: int, isSpace: char -> bool, k: nat)
    requires k < |Headings(lines, 0)| && SectionsWithin(lines, limit)
    ensures |SectionChunks(lines, isSpace)[k].text| <= limit
    ensures var hs := Headings(lines, 0);
            IsSectionChunk(
              SectionChunks(lines, isSpace)[k], lines, hs[k], if k + 1 < |hs| then hs[k + 1] else |lines|, isSpace)
  {
    hide Headings, IsHeading, Join, IsTitle, Title;
    SectionChunkIs(lines, k, isSpace);
  }

  lemma ShortSectionsStay(lines: seq<string>, limit: int, overlap: nat, isSpace: char -> bool)
    requires Headings(lines, 0) != [] && SectionsWithin(lines, limit)
    ensures MarkdownOf(lines, limit, overlap, isSpace) == SectionChunks(lines, isSpace)
    ensures |SectionChunks(lines, isSpace)| == |Headings(lines, 0)|
  {
    var all := SectionChunks(lines, isSpace);
    assert MarkdownOf(lines, limit, overlap, isSpace) == SplitLarge(all, limit, overlap);
    assert |all| == |Headings(lines, 0)|;
    hide *;
    forall c | c in all ensures |c.text| <= limit {
      var k :| 0 <= k < |all| && all[k] == c;
      ShortSectionChunk(lines, limit, isSpace, k);
    }
    NothingToSplit(all, limit, overlap);
  }

  /** With every section within the limit, the chunks are the sections, one for each heading in order. */
  lemma ShortSectionsAreTheChunks(lines: seq<string>, limit: int, overlap: nat, isSpace: char -> bool)
    requires Headings(lines, 0) != [] && SectionsWithin(lines, limit)
    ensures var hs, chunks := Headings(lines, 0), MarkdownOf(lines, limit, overlap, isSpace);
            && |chunks| == |hs|
            && forall k :: 0 <= k < |hs| ==>
                 IsSectionChunk(chunks[k], lines, hs[k], if k + 1 < |hs| then hs[k + 1] else |lines|, isSpace)
  {
    ShortSectionsStay(lines, limit, overlap, isSpace);
    hide *;
    forall k | 0 <= k < |Headings(lines, 0)| { ShortSectionChunk(lines, limit, isSpace, k); }
  }

  /** The loop over the sections. */
  method ChunkSections(lines: seq<string>, sections: seq<Window>, isSpace: char -> bool) returns (chunks: seq<Chunk>)
    requires forall i :: 0 <= i < |sections| ==> sections[i].start < sections[i].end <= |lines|
    ensures |chunks| == |sections|
    ensures forall i :: 0 <= i < |sections| ==> chunks[i] == SectionChunk(lines, sections[i], isSpace)
  {
    hide *;
    chunks := [];
    for index := 0 to |sections|
      invariant |chunks| == index
      invariant forall i :: 0 <= i < index ==> chunks[i] == SectionChunk(lines, sections[i], isSpace)
    {
      chunks := chunks + [SectionChunk(lines, sections[index], isSpace)];
    }
  }

  /** One chunk for each section, large ones split; fixed-size windows if there is no heading. */
  method Markdown(lines: seq<string>, limit: int, overlapSetting: int, isSpace: char -> bool) returns (chunks: seq<Chunk>)
    ensures chunks == MarkdownOf(lines, limit, Max(0, overlapSetting), isSpace)
    ensures HoldsShortSections(chunks, lines, limit, isSpace)
  {
    ShortSectionsAreHeld(lines, limit, Max(0, overlapSetting), isSpace);
    var sections := Sections(lines);
    if sections == [] {
      chunks := FixedSizeChunks(lines, limit, overlapSetting);
      return;
    }
    forall i | 0 <= i < |sections| ensures sections[i].start < sections[i].end <= |lines| { SectionShape(lines, i); }
    ghost var overlap: nat := Max(0, overlapSetting);
    hide *;
    var whole := ChunkSections(lines, sections, isSpace);
    SectionChunksAre(lines, sections, whole, isSpace, limit, overlap);
    chunks := SplitLargeChunks(whole, limit, overlapSetting);
  }

  lemma SectionChunksAre(
    lines: seq<string>, ws: seq<Window>, whole: seq<Chunk>, isSpace: char -> bool, limit: int, overlap: nat)
    requires ws == SectionsOf(lines) && |whole| == |ws| && ws != []
    requires forall i :: 0 <= i < |ws| ==>
               ws[i].start < ws[i].end <= |lines| && whole[i] == SectionChunk(lines, ws[i], isSpace)
    ensures MarkdownOf(lines, limit, overlap, isSpace) == SplitLarge(whole, limit, overlap)
  {
    hide SectionChunk, SplitLarge;
    assert whole == SectionChunks(lines, isSpace);
  }

  /**
   * A section that is too long is cut into windows of its own lines, of which only a blank last one
   * is lost: dropping the overlaps rebuilds the rest.
   */
  lemma LongSectionIsRebuilt(lines: seq<string>, w: Window, limit: int, overlap: nat, isSpace: char -> bool)
    requires w.start < w.end <= |lines| && limit >= 1 && forall l :: l in lines ==> OneLine(l)
    requires |SectionChunk(lines, w, isSpace).text| > limit
    ensures var kept := WithoutFinalBlank(lines[w.start..w.end]);
            && Pieces(SectionChunk(lines, w, isSpace), limit, overlap) == FixedSize(kept, limit, overlap)
            && InText(kept, Windows(kept, limit, overlap, 0))
            && Unseen(kept, Windows(kept, limit, overlap, 0), 0) == kept
  {
    SplitJoined(lines[w.start..w.end]);
    DroppingOverlapsRebuilds(WithoutFinalBlank(lines[w.start..w.end]), limit, overlap);
  }
}
