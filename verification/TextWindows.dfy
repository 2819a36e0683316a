/**
 * Fixed-size text windows with overlap, and markdown sections
 * (apps/chunking/strategies/text_chunker.py).
 */
module TextWindows {
  import opened Common

  /** The lines `start`, ..., `end - 1`, counted from zero. */
  datatype Window = Window(start: nat, end: nat)

  datatype Chunk = Chunk(lineStart: nat, lineEnd: nat, text: string, name: Option<string>)

  /** Lines joined by a newline. */
  function Join(lines: seq<string>): string {
    if |lines| == 0 then ""
    else if |lines| == 1 then lines[0]
    else Join(lines[..|lines| - 1]) + "\n" + lines[|lines| - 1]
  }

  /** The characters of lines `start` to `end - 1`, with one newline each. */
  function CharCount(lines: seq<string>, start: nat, end: nat): nat
    requires end <= |lines|
  {
    if end <= start then 0 else CharCount(lines, start, end - 1) + |lines[end - 1]| + 1
  }

  /** What the inner loop settles on: as few lines as reach the limit, or all that are left. */
  ghost predicate IsGreedy(lines: seq<string>, limit: int, w: Window) {
    && w.start <= w.end <= |lines|
    && (forall e: nat :: w.start <= e < w.end ==> CharCount(lines, w.start, e) < limit)
    && (w.end < |lines| ==> CharCount(lines, w.start, w.end) >= limit)
  }

  function WindowEnd(lines: seq<string>, limit: int, start: nat, end: nat): (r: nat)
    requires start <= end <= |lines|
    ensures end <= r <= |lines|
    ensures forall e: nat :: end <= e < r ==> CharCount(lines, start, e) < limit
    ensures r < |lines| ==> CharCount(lines, start, r) >= limit
    decreases |lines| - end
  {
    if end < |lines| && CharCount(lines, start, end) < limit then WindowEnd(lines, limit, start, end + 1) else end
  }

  function WindowAt(lines: seq<string>, limit: int, start: nat): (w: Window)
    requires start <= |lines|
    ensures w.start == start && IsGreedy(lines, limit, w)
  {
    Window(start, WindowEnd(lines, limit, start, start))
  }

  /** The windows from line `start` on; `overlap` lines are carried into the next one. */
  function Windows(lines: seq<string>, limit: int, overlap: nat, start: nat): seq<Window>
    decreases |lines| - start
  {
    if start >= |lines| then []
    else
      var w := WindowAt(lines, limit, start);
      [w] + Windows(lines, limit, overlap, Max(start + 1, w.end - overlap))
  }

  function ToChunk(lines: seq<string>, w: Window): Chunk
    requires w.start <= w.end <= |lines|
  {
    Chunk(w.start + 1, Max(w.start + 1, w.end), Join(lines[w.start..w.end]), None)
  }

  ghost predicate InText(lines: seq<string>, ws: seq<Window>) {
    forall w :: w in ws ==> w.start <= w.end <= |lines|
  }

  function ToChunks(lines: seq<string>, ws: seq<Window>): (r: seq<Chunk>)
    requires InText(lines, ws)
    ensures |r| == |ws| && forall i :: 0 <= i < |ws| ==> r[i] == ToChunk(lines, ws[i])
  {
    if ws == [] then [] else ToChunks(lines, ws[..|ws| - 1]) + [ToChunk(lines, ws[|ws| - 1])]
  }

  lemma {:induction false} WindowsInText(lines: seq<string>, limit: int, overlap: nat, start: nat)
    ensures InText(lines, Windows(lines, limit, overlap, start))
    decreases |lines| - start
  {
    if start < |lines| {
      WindowsInText(lines, limit, overlap, Max(start + 1, WindowAt(lines, limit, start).end - overlap));
    }
  }

  lemma OneMoreLine(lines: seq<string>, limit: int, start: nat, end: nat)
    requires start <= end < |lines|
    ensures CharCount(lines, start, start) == 0
    ensures CharCount(lines, start, end + 1) == CharCount(lines, start, end) + |lines[end]| + 1
    ensures lines[start..end + 1] == lines[start..end] + [lines[end]]
    ensures CharCount(lines, start, end) < limit ==>
              WindowEnd(lines, limit, start, end) == WindowEnd(lines, limit, start, end + 1)
  {}

  lemma ToChunksOfOneMore(lines: seq<string>, ws: seq<Window>, w: Window)
    requires InText(lines, ws) && w.start <= w.end <= |lines|
    ensures InText(lines, ws + [w])
    ensures ToChunks(lines, ws + [w]) == ToChunks(lines, ws) + [ToChunk(lines, w)]
  {
    hide Join;
    assert (ws + [w])[..|ws|] == ws;
  }

  /** The windows `done` followed by those from line `start` on are all the windows. */
  ghost predicate DoneUpTo(lines: seq<string>, limit: int, overlap: nat, done: seq<Window>, start: nat, chunks: seq<Chunk>) {
    && InText(lines, done)
    && done + Windows(lines, limit, overlap, start) == Windows(lines, limit, overlap, 0)
    && chunks == ToChunks(lines, done)
  }

  /** When the inner loop has stopped at `end`, one more window is done. */
  lemma OneMoreDone(
    lines: seq<string>, limit: int, overlap: nat, done: seq<Window>, start: nat, end: nat, chunks: seq<Chunk>)
    requires start < |lines| && DoneUpTo(lines, limit, overlap, done, start, chunks)
    requires start <= end <= |lines| && (end < |lines| ==> CharCount(lines, start, end) >= limit)
    requires WindowEnd(lines, limit, start, start) == WindowEnd(lines, limit, start, end)
    ensures var chunk := Chunk(start + 1, Max(start + 1, end), Join(lines[start..end]), None);
            DoneUpTo(lines, limit, overlap, done + [Window(start, end)], Max(start + 1, end - overlap), chunks + [chunk])
  {
    hide Join, IsGreedy, ToChunks, InText, CharCount;
    var w := Window(start, end);
    assert w == WindowAt(lines, limit, start);
    var rest := Windows(lines, limit, overlap, Max(start + 1, w.end - overlap));
    assert (done + [w]) + rest == done + ([w] + rest);
    ToChunksOfOneMore(lines, done, w);
  }

  lemma NothingDone(lines: seq<string>, limit: int, overlap: nat)
    ensures DoneUpTo(lines, limit, overlap, [], 0, [])
  {
    assert [] + Windows(lines, limit, overlap, 0) == Windows(lines, limit, overlap, 0);
  }

  lemma AllDone(lines: seq<string>, limit: int, overlap: nat, done: seq<Window>, start: nat, chunks: seq<Chunk>)
    requires start >= |lines| && DoneUpTo(lines, limit, overlap, done, start, chunks)
    ensures InText(lines, Windows(lines, limit, overlap, 0))
    ensures chunks == ToChunks(lines, Windows(lines, limit, overlap, 0))
  {
    assert done + [] == done;
  }

  /** The nested loops, which end for every limit and overlap, produce exactly the windows above. */
  method FixedSizeChunks(lines: seq<string>, limit: int, overlapSetting: int) returns (chunks: seq<Chunk>)
    ensures InText(lines, Windows(lines, limit, Max(0, overlapSetting), 0))
    ensures chunks == ToChunks(lines, Windows(lines, limit, Max(0, overlapSetting), 0))
    ensures IsTextOf(lines, Windows(lines, limit, Max(0, overlapSetting), 0), chunks)
  {
    chunks := [];
    var overlap := Max(0, overlapSetting);
    var start := 0;
    ghost var done: seq<Window> := [];
    NothingDone(lines, limit, overlap);
    hide Join, CharCount, DoneUpTo, WindowEnd, Windows, ToChunks, InText;
    while start < |lines|
      invariant 0 <= start && DoneUpTo(lines, limit, overlap, done, start, chunks)
    {
      var current: seq<string> := [];
      var charCount, end := 0, start;
      OneMoreLine(lines, limit, start, start);
      while end < |lines| && charCount < limit
        invariant start <= end <= |lines|
        invariant current == lines[start..end] && charCount == CharCount(lines, start, end)
        invariant WindowEnd(lines, limit, start, start) == WindowEnd(lines, limit, start, end)
      {
        OneMoreLine(lines, limit, start, end);
        current := current + [lines[end]];
        charCount := charCount + |lines[end]| + 1;
        end := end + 1;
      }
      OneMoreDone(lines, limit, overlap, done, start, end, chunks);
      chunks := chunks + [Chunk(start + 1, Max(start + 1, end), Join(current), None)];
      done := done + [Window(start, end)];
      start := Max(start + 1, end - overlap);
    }
    AllDone(lines, limit, overlap, done, start, chunks);
    ChunksAreText(lines, Windows(lines, limit, overlap, 0));
  }

  /** One chunk for each window: its lines counted from 1, at least one, their text, and no name. */
  ghost predicate IsTextOf(lines: seq<string>, ws: seq<Window>, chunks: seq<Chunk>)
    requires InText(lines, ws)
  {
    && |chunks| == |ws|
    && forall i :: 0 <= i < |ws| ==>
         var w, c := ws[i], chunks[i];
         assert w in ws;
         && c.lineStart == w.start + 1
         && c.lineEnd == (if w.end > w.start then w.end else w.start + 1)
         && c.text == Join(lines[w.start..w.end])
         && c.name == None
  }

  lemma ChunksAreText(lines: seq<string>, ws: seq<Window>)
    requires InText(lines, ws)
    ensures IsTextOf(lines, ws, ToChunks(lines, ws))
  {
    hide Join;
  }

  // ---------------------------------------------------------------- shape of the windows

  /** A later start never ends earlier. */
  lemma GreedyIsMonotone(lines: seq<string>, limit: int, s: nat, t: nat)
    requires s <= t <= |lines|
    ensures WindowAt(lines, limit, s).end <= Max(t, WindowAt(lines, limit, t).end)
  {
    var e, f := WindowAt(lines, limit, s).end, WindowAt(lines, limit, t).end;
    if f < e { LaterStartCountsLess(lines, s, t, f); }
  }

  lemma {:induction false} LaterStartCountsLess(lines: seq<string>, s: nat, t: nat, e: nat)
    requires s <= t && e <= |lines|
    ensures CharCount(lines, t, e) <= CharCount(lines, s, e)
  {
    if t < e { LaterStartCountsLess(lines, s, t, e - 1); }
  }

  /** Window `i` starts later than the one before it, not after its end, and ends no earlier. */
  ghost predicate Follows(ws: seq<Window>, i: nat)
    requires 0 < i < |ws|
  {
    ws[i - 1].start < ws[i].start <= ws[i - 1].end <= ws[i].end
  }

  /** Windows that follow one another without a gap, from line `start` to line `n`. */
  ghost predicate Chained(ws: seq<Window>, start: nat, n: nat) {
    && |ws| > 0 && ws[0].start == start && ws[|ws| - 1].end == n
    && (forall w :: w in ws ==> w.start < w.end)
    && (forall i :: 0 < i < |ws| ==> Follows(ws, i))
  }

  lemma OneMoreWindow(w: Window, rest: seq<Window>, next: nat, n: nat)
    requires Chained(rest, next, n) && w.start < w.end && w.start < next <= w.end <= rest[0].end
    ensures Chained([w] + rest, w.start, n)
  {
    var ws := [w] + rest;
    forall i | 0 < i < |ws| ensures Follows(ws, i) {
      assert i > 1 ==> Follows(rest, i - 1);
    }
  }

  lemma OneWindowLess(ws: seq<Window>, start: nat, n: nat)
    requires Chained(ws, start, n) && |ws| > 1
    ensures Follows(ws, 1) && Chained(ws[1..], ws[1].start, n)
  {
    assert Follows(ws, 1);
    var rest := ws[1..];
    forall i | 0 < i < |rest| ensures Follows(rest, i) { assert Follows(ws, i + 1); }
  }

  /** With a positive limit the starts strictly increase, the ends never decrease, and there is no gap. */
  lemma {:induction false} WindowsAreChained(lines: seq<string>, limit: int, overlap: nat, start: nat)
    requires limit >= 1 && start < |lines|
    ensures Chained(Windows(lines, limit, overlap, start), start, |lines|)
    decreases |lines| - start
  {
    var w := WindowAt(lines, limit, start);
    var next := Max(start + 1, w.end - overlap);
    assert CharCount(lines, start, start) == 0;
    assert start < w.end;
    var rest := Windows(lines, limit, overlap, next);
    if next < |lines| {
      WindowsAreChained(lines, limit, overlap, next);
      GreedyIsMonotone(lines, limit, start, next);
      assert rest[0] == WindowAt(lines, limit, next);
      OneMoreWindow(w, rest, next, |lines|);
    }
  }

  /** So every line is in some window. */
  lemma {:induction false} ChainedCovers(ws: seq<Window>, start: nat, n: nat, k: nat) returns (i: nat)
    requires Chained(ws, start, n) && start <= k < n
    ensures i < |ws| && ws[i].start <= k < ws[i].end
  {
    if k < ws[0].end {
      i := 0;
    } else {
      OneWindowLess(ws, start, n);
      i := ChainedCovers(ws[1..], ws[1].start, n, k);
      i := i + 1;
    }
  }

  lemma EveryLineIsCovered(lines: seq<string>, limit: int, overlap: nat, k: nat) returns (i: nat)
    requires limit >= 1 && k < |lines|
    ensures i < |Windows(lines, limit, overlap, 0)|
    ensures var w := Windows(lines, limit, overlap, 0)[i]; w.start <= k < w.end
  {
    WindowsAreChained(lines, limit, overlap, 0);
    i := ChainedCovers(Windows(lines, limit, overlap, 0), 0, |lines|, k);
  }

  /** A window shares with the next one as many lines as the overlap says, but never all of its own. */
  lemma {:induction false} WindowsShare(lines: seq<string>, limit: int, overlap: nat, start: nat, i: nat)
    requires limit >= 1 && start <= |lines| && 0 < i < |Windows(lines, limit, overlap, start)|
    ensures var w, next := Windows(lines, limit, overlap, start)[i - 1], Windows(lines, limit, overlap, start)[i];
            w.end - next.start == Min(overlap, w.end - w.start - 1)
    decreases |lines| - start
  {
    var w := WindowAt(lines, limit, start);
    ChunkSize(lines, limit, start);
    hide CharCount, IsGreedy, WindowEnd, WindowAt, Join;
    var next := Max(start + 1, w.end - overlap);
    var rest := Windows(lines, limit, overlap, next);
    assert Windows(lines, limit, overlap, start) == [w] + rest;
    assert next < |lines| ==> rest[0] == WindowAt(lines, limit, next);
    if i > 1 { WindowsShare(lines, limit, overlap, next, i - 1); }
  }

  /** What a reader gets who skips in each window the lines already seen up to `seen`. */
  function Unseen(lines: seq<string>, ws: seq<Window>, seen: nat): seq<string>
    requires InText(lines, ws)
  {
    if ws == [] then []
    else
      var w := ws[0];
      lines[Min(w.end, Max(w.start, seen))..w.end] + Unseen(lines, ws[1..], Max(seen, w.end))
  }

  lemma {:induction false} ChainedRebuilds(lines: seq<string>, ws: seq<Window>, start: nat, seen: nat)
    requires InText(lines, ws) && Chained(ws, start, |lines|) && start <= seen <= ws[0].end
    ensures Unseen(lines, ws, seen) == lines[seen..]
  {
    if |ws| > 1 {
      OneWindowLess(ws, start, |lines|);
      ChainedRebuilds(lines, ws[1..], ws[1].start, ws[0].end);
      assert lines[seen..ws[0].end] + lines[ws[0].end..] == lines[seen..];
    } else {
      assert ws[1..] == [];
    }
  }

  /** Dropping the overlaps rebuilds the text, line for line. */
  lemma DroppingOverlapsRebuilds(lines: seq<string>, limit: int, overlap: nat)
    requires limit >= 1
    ensures InText(lines, Windows(lines, limit, overlap, 0))
    ensures Unseen(lines, Windows(lines, limit, overlap, 0), 0) == lines
  {
    WindowsInText(lines, limit, overlap, 0);
    if |lines| > 0 {
      WindowsAreChained(lines, limit, overlap, 0);
      ChainedRebuilds(lines, Windows(lines, limit, overlap, 0), 0, 0);
      assert lines[0..] == lines;
    }
  }

  // ---------------------------------------------------------------- size of the chunks

  lemma {:induction false} JoinLength(lines: seq<string>, start: nat, end: nat)
    requires start < end <= |lines|
    ensures |Join(lines[start..end])| + 1 == CharCount(lines, start, end)
  {
    var part := lines[start..end];
    if end == start + 1 {
      assert CharCount(lines, start, start) == 0;
    } else {
      JoinLength(lines, start, end - 1);
      assert part[..|part| - 1] == lines[start..end - 1];
    }
  }

  /** A chunk without its last line is below the limit; only the last window may fall short of it. */
  lemma ChunkSize(lines: seq<string>, limit: int, start: nat)
    requires limit >= 1 && start < |lines|
    ensures var w := WindowAt(lines, limit, start);
            && start < w.end
            && (start + 1 < w.end ==> |Join(lines[start..w.end - 1])| + 1 < limit)
            && (w.end < |lines| ==> |Join(lines[start..w.end])| + 1 >= limit)
  {
    var w := WindowAt(lines, limit, start);
    assert CharCount(lines, start, start) == 0;
    JoinLength(lines, start, w.end);
    if start + 1 < w.end { JoinLength(lines, start, w.end - 1); }
  }

  // ---------------------------------------------------------------- the tail

  /** `n - from` windows that all end at `n`. */
  function Suffixes(from: nat, n: nat): seq<Window>
    decreases n - from
  {
    if from >= n then [] else [Window(from, n)] + Suffixes(from + 1, n)
  }

  lemma {:induction false} SuffixCount(from: nat, n: nat)
    requires from <= n
    ensures |Suffixes(from, n)| == n - from
    decreases n - from
  {
    if from < n { SuffixCount(from + 1, n); }
  }

  lemma {:induction false} WithinOverlapOnlySuffixes(lines: seq<string>, limit: int, overlap: nat, start: nat)
    requires limit >= 1 && start <= |lines| <= start + overlap
    requires start < |lines| ==> WindowAt(lines, limit, start).end == |lines|
    ensures Windows(lines, limit, overlap, start) == Suffixes(start, |lines|)
    decreases |lines| - start
  {
    hide WindowEnd, CharCount, IsGreedy;
    if start < |lines| {
      GreedyIsMonotone(lines, limit, start, start + 1);
      if start + 1 < |lines| { ChunkSize(lines, limit, start + 1); }
      WithinOverlapOnlySuffixes(lines, limit, overlap, start + 1);
    }
  }

  /**
   * The loop does not stop at the first window that reaches the last line: it goes on to emit one
   * window for each of the last lines that the overlap carries over, every one a suffix of it.
   */
  lemma WindowsAfterTheEnd(lines: seq<string>, limit: int, overlap: nat, start: nat)
    requires limit >= 1 && start < |lines| && WindowAt(lines, limit, start).end == |lines|
    ensures var extra := Min(overlap, |lines| - start - 1);
            && Windows(lines, limit, overlap, start) == [Window(start, |lines|)] + Suffixes(|lines| - extra, |lines|)
            && |Suffixes(|lines| - extra, |lines|)| == extra
  {
    var next := Max(start + 1, |lines| - overlap);
    GreedyIsMonotone(lines, limit, start, next);
    WithinOverlapOnlySuffixes(lines, limit, overlap, next);
    SuffixCount(next, |lines|);
  }

  /** Without a positive limit there is one chunk for every line, and none of them has any text. */
  lemma {:induction false} NoLimitNoText(lines: seq<string>, limit: int, overlap: nat, start: nat)
    requires limit <= 0 && start <= |lines|
    ensures |Windows(lines, limit, overlap, start)| == |lines| - start
    ensures forall w :: w in Windows(lines, limit, overlap, start) ==> w.end == w.start
    decreases |lines| - start
  {
    if start < |lines| {
      assert WindowAt(lines, limit, start) == Window(start, start);
      NoLimitNoText(lines, limit, overlap, start + 1);
    }
  }
}
