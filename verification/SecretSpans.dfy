/**
 * Secret findings: where they lie in a text, which overlapping ones are kept, and how the kept
 * ones are spliced out (apps/secrets/secret_scanner.py).
 */
module SecretSpans {
  import opened Common

  datatype Confidence = High | Medium | Low

  datatype Pattern = Pattern(name: string, confidence: Confidence)

  /** A match of a pattern; `groups` holds the spans of its numbered groups, the first being group 1. */
  datatype Match = Match(start: nat, end: nat, groups: seq<(nat, nat)>)

  datatype Finding = Finding(secretType: string, line: nat, start: nat, end: nat, confidence: Confidence)

  const REDACTION := "[REDACTED_SECRET]"

  /** The span of the value: group 2 if the match has one, otherwise the whole match. */
  function ValueSpan(m: Match): (nat, nat) {
    if |m.groups| >= 2 then m.groups[1] else (m.start, m.end)
  }

  function Newlines(text: string, end: nat): nat
    requires end <= |text|
  {
    if end == 0 then 0 else Newlines(text, end - 1) + if text[end - 1] == '\n' then 1 else 0
  }

  predicate InText(text: string, f: Finding) {
    f.start < f.end <= |text| && f.line == Newlines(text, f.start) + 1
  }

  // ---------------------------------------------------------------- sorting

  function Rank(c: Confidence): nat {
    match c case High => 0 case Medium => 1 case Low => 2
  }

  /** The order of the sort key: by start, then confidence, then the longer first. */
  predicate Before(a: Finding, b: Finding) {
    if a.start != b.start then a.start < b.start
    else if a.confidence != b.confidence then Rank(a.confidence) < Rank(b.confidence)
    else a.end > b.end
  }

  predicate StartsLater(a: Finding, b: Finding) { a.start > b.start }

  ghost predicate KeyOrder(fs: seq<Finding>) {
    InOrder(fs, Before)
  }

  lemma LastIsLatest(fs: seq<Finding>)
    requires KeyOrder(fs) && fs != []
    ensures KeyOrder(fs[..|fs| - 1])
    ensures forall f :: f in fs ==> !Before(fs[|fs| - 1], f) && f.start <= fs[|fs| - 1].start
  {
    forall f | f in fs ensures !Before(fs[|fs| - 1], f) {
      var i :| 0 <= i < |fs| && fs[i] == f;
      assert i < |fs| - 1 ==> !Before(fs[|fs| - 1], fs[i]);
    }
  }

  lemma SortedIsInOrder(fs: seq<Finding>)
    ensures KeyOrder(Sorted(fs, Before))
  {
    SortedInOrder(fs, Before);
  }

  // ---------------------------------------------------------------- keeping a disjoint part

  predicate Overlap(a: Finding, b: Finding) {
    a.start < b.end && a.end > b.start
  }

  /** Greedy choice that looks at the last kept finding only. */
  function Kept(fs: seq<Finding>): (r: seq<Finding>) {
    if fs == [] then []
    else
      var k, f := Kept(fs[..|fs| - 1]), fs[|fs| - 1];
      if k == [] || k[|k| - 1].end <= f.start then k + [f] else k
  }

  predicate NonEmptySpans(fs: seq<Finding>) {
    forall f :: f in fs ==> f.start < f.end
  }

  /** Left to right, each ending before the next begins. */
  ghost predicate Apart(fs: seq<Finding>) {
    forall i, j :: 0 <= i < j < |fs| ==> fs[i].end <= fs[j].start
  }

  lemma OneMoreApart(k: seq<Finding>, f: Finding)
    requires Apart(k) && NonEmptySpans(k) && (k != [] ==> k[|k| - 1].end <= f.start)
    ensures Apart(k + [f])
  {
    forall i | 0 <= i < |k| ensures k[i].end <= f.start {
      assert i < |k| - 1 ==> k[i].end <= k[|k| - 1].start;
      assert k[|k| - 1] in k;
    }
  }

  /** The kept findings are some of those they are chosen from, and lie apart. */
  lemma {:induction false} KeptShape(fs: seq<Finding>)
    requires NonEmptySpans(fs)
    ensures Apart(Kept(fs)) && (fs != [] ==> Kept(fs) != [])
    ensures forall f :: f in Kept(fs) ==> f in fs
  {
    if fs != [] {
      var init, f := fs[..|fs| - 1], fs[|fs| - 1];
      KeptShape(init);
      if Kept(fs) != Kept(init) { OneMoreApart(Kept(init), f); }
    }
  }

  lemma OnlyOneCovers(k: seq<Finding>, f: Finding, g: Finding, at: nat)
    requires Apart(k) && f in k && g in k
    requires f.start <= at < f.end && g.start <= at < g.end
    ensures f == g
  {
    var i :| 0 <= i < |k| && k[i] == f;
    var j :| 0 <= j < |k| && k[j] == g;
  }

  /** Every finding starts inside a kept one, which it does not precede. */
  lemma {:induction false} KeptCoverStarts(fs: seq<Finding>, f: Finding) returns (g: Finding)
    requires KeyOrder(fs) && NonEmptySpans(fs) && f in fs
    ensures g in Kept(fs) && g.start <= f.start < g.end && !Before(f, g)
  {
    hide KeyOrder;
    var init, last := fs[..|fs| - 1], fs[|fs| - 1];
    var k := Kept(init);
    LastIsLatest(fs);
    KeptShape(init);
    if f in init {
      g := KeptCoverStarts(init, f);
    } else if k == [] || k[|k| - 1].end <= last.start {
      g := last;
      assert Kept(fs)[|k|] == last;
    } else {
      g := k[|k| - 1];
      assert g in k;
    }
  }

  lemma LastEndsLatest(k: seq<Finding>, e: Finding)
    requires Apart(k) && NonEmptySpans(k) && e in k
    ensures k[|k| - 1] in k && e.end <= k[|k| - 1].end
  {
    var j :| 0 <= j < |k| && k[j] == e;
    assert k[|k| - 1] in k;
    assert j < |k| - 1 ==> k[j].end <= k[|k| - 1].start;
  }

  lemma OverlapsLast(k: seq<Finding>, f: Finding)
    requires Apart(k) && NonEmptySpans(k) && f.start < f.end && forall e :: e in k ==> e.start <= f.start
    ensures (exists e :: e in k && Overlap(f, e)) <==> k != [] && f.start < k[|k| - 1].end
  {
    hide Apart, NonEmptySpans;
    forall e | e in k ensures k[|k| - 1] in k && e.end <= k[|k| - 1].end { LastEndsLatest(k, e); }
    if k != [] && f.start < k[|k| - 1].end {
      assert k[|k| - 1] in k;
      assert Overlap(f, k[|k| - 1]);
    }
  }

  /** Testing against every kept finding decides the same as testing against the last one. */
  lemma TestingTheLastIsEnough(fs: seq<Finding>, f: Finding)
    requires KeyOrder(fs + [f]) && NonEmptySpans(fs + [f])
    ensures var k := Kept(fs);
            (exists e :: e in k && Overlap(f, e)) <==> k != [] && f.start < k[|k| - 1].end
  {
    var all := fs + [f];
    LastIsLatest(all);
    assert f in all && NonEmptySpans(fs);
    KeptShape(fs);
    hide KeyOrder, Kept, Apart, Before;
    OverlapsLast(Kept(fs), f);
  }

  /** The loop, which tests against every finding kept so far. */
  method Dedupe(findings: seq<Finding>) returns (result: seq<Finding>)
    requires NonEmptySpans(findings)
    ensures result == Kept(Sorted(findings, Before))
    ensures Apart(result) && forall f :: f in result ==> f in findings
  {
    var fs := Sorted(findings, Before);
    SortedIsInOrder(findings);
    SortedMembers(findings, Before);
    hide Sorted, KeyOrder;
    result := [];
    for i := 0 to |fs|
      invariant result == Kept(fs[..i])
    {
      PrefixInOrder(fs, i);
      TestingTheLastIsEnough(fs[..i], fs[i]);
      var overlaps := exists e :: e in result && Overlap(fs[i], e);
      if !overlaps {
        result := result + [fs[i]];
      }
    }
    assert fs[..|fs|] == fs;
    KeptShape(fs);
  }

  lemma PrefixInOrder(fs: seq<Finding>, i: nat)
    requires KeyOrder(fs) && NonEmptySpans(fs) && i < |fs|
    ensures KeyOrder(fs[..i] + [fs[i]]) && NonEmptySpans(fs[..i] + [fs[i]])
    ensures fs[..i + 1] == fs[..i] + [fs[i]] && fs[..i + 1][..i] == fs[..i]
  {}

  /**
   * A finding is dropped only if a kept one covers its start; and of the findings that start at
   * one place, what is kept there is of the highest confidence and, among those, the longest.
   */
  lemma DedupeKeepsTheBest(findings: seq<Finding>, f: Finding) returns (g: Finding)
    requires NonEmptySpans(findings) && f in findings
    ensures g in Kept(Sorted(findings, Before)) && g.start <= f.start < g.end
    ensures f in Kept(Sorted(findings, Before)) ==> f == g
    ensures f != g ==> Overlap(f, g)
    ensures g.start == f.start ==>
              && (f.confidence == High ==> g.confidence == High)
              && (f.confidence == Medium ==> g.confidence != Low)
              && (g.confidence == f.confidence ==> g.end >= f.end)
  {
    var fs := Sorted(findings, Before);
    SortedIsInOrder(findings);
    SortedMembers(findings, Before);
    KeptShape(fs);
    hide KeyOrder, Kept, Sorted, Apart;
    g := KeptCoverStarts(fs, f);
    if f in Kept(fs) { OnlyOneCovers(Kept(fs), f, g, f.start); }
  }

  // ---------------------------------------------------------------- scanning

  /** From `start` to `end` is what the pattern takes for the secret: group 2 where the match has one, else all of it. */
  predicate IsValue(m: Match, start: nat, end: nat) {
    && (|m.groups| >= 2 ==> (start, end) == m.groups[1])
    && (|m.groups| < 2 ==> start == m.start && end == m.end)
  }

  ghost predicate MatchesOf(text: string, ms: seq<Match>) {
    forall m, start: nat, end: nat :: m in ms && IsValue(m, start, end) ==> start < end <= |text|
  }

  lemma SpanIsValue(m: Match)
    ensures forall start: nat, end: nat :: IsValue(m, start, end) <==> ValueSpan(m) == (start, end)
  {}

  lemma SpansInText(text: string, ms: seq<Match>)
    requires MatchesOf(text, ms)
    ensures forall m :: m in ms ==> ValueSpan(m).0 < ValueSpan(m).1 <= |text|
  {
    forall m | m in ms ensures ValueSpan(m).0 < ValueSpan(m).1 <= |text| {
      SpanIsValue(m);
      assert IsValue(m, ValueSpan(m).0, ValueSpan(m).1);
    }
  }

  function FindingAt(text: string, p: Pattern, m: Match): (f: Finding)
    requires ValueSpan(m).0 < ValueSpan(m).1 <= |text|
    ensures InText(text, f)
  {
    var (start, end) := ValueSpan(m);
    Finding(p.name, Newlines(text, start) + 1, start, end, p.confidence)
  }

  /** `f` reports the match `m` of the pattern: the place of its value, the line it starts on, counted from 1. */
  ghost predicate IsFindingOf(f: Finding, text: string, p: Pattern, m: Match) {
    && f.secretType == p.name && f.confidence == p.confidence
    && IsValue(m, f.start, f.end)
    && f.start <= |text| && f.line == 1 + |set at | 0 <= at < f.start && text[at] == '\n'|
  }

  lemma {:induction false} NewlinesCounted(text: string, end: nat)
    requires end <= |text|
    ensures Newlines(text, end) == |set at | 0 <= at < end && text[at] == '\n'|
  {
    if end > 0 {
      NewlinesCounted(text, end - 1);
      var before := set at | 0 <= at < end - 1 && text[at] == '\n';
      var upTo := set at | 0 <= at < end && text[at] == '\n';
      assert upTo == if text[end - 1] == '\n' then before + {end - 1} else before;
    }
  }

  /** The findings of one pattern, each at the line its value starts on. */
  function Found(text: string, p: Pattern, ms: seq<Match>): (r: seq<Finding>)
    requires MatchesOf(text, ms)
    ensures |r| == |ms| && forall f :: f in r ==> InText(text, f)
  {
    SpansInText(text, ms);
    if ms == [] then [] else Found(text, p, ms[..|ms| - 1]) + [FindingAt(text, p, ms[|ms| - 1])]
  }

  lemma {:induction false} FoundAt(text: string, p: Pattern, ms: seq<Match>, j: nat)
    requires MatchesOf(text, ms) && j < |ms|
    ensures IsFindingOf(Found(text, p, ms)[j], text, p, ms[j])
  {
    if j < |ms| - 1 {
      FoundAt(text, p, ms[..|ms| - 1], j);
    } else {
      SpanIsValue(ms[j]);
      SpansInText(text, ms);
      NewlinesCounted(text, ValueSpan(ms[j]).0);
    }
  }

  /** The findings of all patterns, one pattern after another. */
  function AllFound(text: string, patterns: seq<Pattern>, matches: seq<seq<Match>>): (r: seq<Finding>)
    requires |patterns| == |matches| && forall ms :: ms in matches ==> MatchesOf(text, ms)
    ensures forall f :: f in r ==> InText(text, f)
  {
    if patterns == [] then []
    else
      var n := |patterns| - 1;
      AllFound(text, patterns[..n], matches[..n]) + Found(text, patterns[n], matches[n])
  }

  method Scan(text: string, patterns: seq<Pattern>, matches: seq<seq<Match>>) returns (kept: seq<Finding>)
    requires |patterns| == |matches| && forall ms :: ms in matches ==> MatchesOf(text, ms)
    ensures kept == Kept(Sorted(AllFound(text, patterns, matches), Before))
    ensures Spliceable(text, kept) && forall f :: f in kept ==> InText(text, f)
  {
    hide Kept, Sorted, Found, AllFound;
    NothingFound(text);
    var findings: seq<Finding> := [];
    for i := 0 to |patterns|
      invariant findings == AllFound(text, patterns[..i], matches[..i])
    {
      var ms := matches[i];
      assert ms in matches;
      ghost var before := findings;
      NoneFound(text, patterns[i], ms);
      for j := 0 to |ms|
        invariant findings == before + Found(text, patterns[i], ms[..j])
      {
        OneMoreFound(text, patterns[i], ms, j);
        findings := findings + [FindingAt(text, patterns[i], ms[j])];
      }
      OneMorePattern(text, patterns, matches, i);
    }
    assert patterns[..|patterns|] == patterns && matches[..|patterns|] == matches;
    kept := Dedupe(findings);
  }

  lemma NothingFound(text: string)
    ensures AllFound(text, [], []) == []
  {}

  lemma NoneFound(text: string, p: Pattern, ms: seq<Match>)
    requires MatchesOf(text, ms)
    ensures Found(text, p, ms[..0]) == []
  {}

  lemma OneMoreFound(text: string, p: Pattern, ms: seq<Match>, j: nat)
    requires MatchesOf(text, ms) && j < |ms|
    ensures ValueSpan(ms[j]).0 < ValueSpan(ms[j]).1 <= |text| && MatchesOf(text, ms[..j + 1])
    ensures Found(text, p, ms[..j + 1]) == Found(text, p, ms[..j]) + [FindingAt(text, p, ms[j])]
  {
    SpansInText(text, ms);
    assert ms[..j + 1][..j] == ms[..j] && ms[j] in ms;
  }

  lemma OneMorePattern(text: string, patterns: seq<Pattern>, matches: seq<seq<Match>>, i: nat)
    requires |patterns| == |matches| && i < |patterns| && forall ms :: ms in matches ==> MatchesOf(text, ms)
    ensures matches[i] in matches && matches[i][..|matches[i]|] == matches[i]
    ensures AllFound(text, patterns[..i + 1], matches[..i + 1])
         == AllFound(text, patterns[..i], matches[..i]) + Found(text, patterns[i], matches[i])
  {
    assert patterns[..i + 1][..i] == patterns[..i] && matches[..i + 1][..i] == matches[..i];
  }

  /** Every match of every pattern is found. */
  lemma {:induction false} EveryMatchIsFound(
    text: string, patterns: seq<Pattern>, matches: seq<seq<Match>>, i: nat, m: Match) returns (f: Finding)
    requires |patterns| == |matches| && forall ms :: ms in matches ==> MatchesOf(text, ms)
    requires i < |patterns| && m in matches[i]
    ensures f in AllFound(text, patterns, matches) && IsFindingOf(f, text, patterns[i], m)
  {
    hide IsFindingOf, IsValue, InText, Found, MatchesOf;
    var n := |patterns| - 1;
    if i < n {
      f := EveryMatchIsFound(text, patterns[..n], matches[..n], i, m);
    } else {
      var j :| 0 <= j < |matches[n]| && matches[n][j] == m;
      assert matches[n] in matches;
      FoundAt(text, patterns[n], matches[n], j);
      f := Found(text, patterns[n], matches[n])[j];
    }
  }

  /** Nothing else is: a finding is one of a match of a pattern. */
  lemma {:induction false} EveryFindingIsOfAMatch(
    text: string, patterns: seq<Pattern>, matches: seq<seq<Match>>, f: Finding) returns (i: nat, m: Match)
    requires |patterns| == |matches| && forall ms :: ms in matches ==> MatchesOf(text, ms)
    requires f in AllFound(text, patterns, matches)
    ensures i < |patterns| && m in matches[i] && IsFindingOf(f, text, patterns[i], m)
  {
    hide IsFindingOf, IsValue, InText, Found, MatchesOf;
    var n := |patterns| - 1;
    var last := Found(text, patterns[n], matches[n]);
    assert matches[n] in matches;
    if j :| 0 <= j < |last| && last[j] == f {
      FoundAt(text, patterns[n], matches[n], j);
      i, m := n, matches[n][j];
    } else {
      i, m := EveryFindingIsOfAMatch(text, patterns[..n], matches[..n], f);
    }
  }

  /** Every match of every pattern starts inside a kept finding. */
  lemma EveryMatchStartIsKept(
    text: string, patterns: seq<Pattern>, matches: seq<seq<Match>>, i: nat, m: Match, start: nat, end: nat)
    returns (g: Finding)
    requires |patterns| == |matches| && forall ms :: ms in matches ==> MatchesOf(text, ms)
    requires i < |patterns| && m in matches[i] && IsValue(m, start, end)
    ensures g in Kept(Sorted(AllFound(text, patterns, matches), Before)) && g.start <= start < g.end
  {
    var f := EveryMatchIsFound(text, patterns, matches, i, m);
    g := DedupeKeepsTheBest(AllFound(text, patterns, matches), f);
  }

  /** Kept findings come in the order of the lines, too. */
  lemma KeptLinesAscend(text: string, kept: seq<Finding>, i: nat, j: nat)
    requires Apart(kept) && (forall f :: f in kept ==> InText(text, f)) && i < j < |kept|
    ensures kept[i].line <= kept[j].line
  {
    assert InText(text, kept[i]) && InText(text, kept[j]);
    NewlinesGrow(text, kept[i].start, kept[j].start);
  }

  lemma {:induction false} NewlinesGrow(text: string, a: nat, b: nat)
    requires a <= b <= |text|
    ensures Newlines(text, a) <= Newlines(text, b)
  {
    if a < b { NewlinesGrow(text, a, b - 1); }
  }

  // ---------------------------------------------------------------- how much of a match is kept

  ghost predicate CoveredAt(kept: seq<Finding>, p: nat) {
    exists g :: g in kept && g.start <= p < g.end
  }

  ghost predicate FullyCovered(kept: seq<Finding>, start: nat, end: nat) {
    forall p: nat :: start <= p < end ==> CoveredAt(kept, p)
  }

  function KeptOf(found: seq<Finding>): seq<Finding> { Kept(Sorted(found, Before)) }

  /** What dedupe keeps is some of what was found, and lies apart. */
  lemma KeptOfShape(found: seq<Finding>)
    requires NonEmptySpans(found)
    ensures Apart(KeptOf(found)) && forall g :: g in KeptOf(found) ==> g in found && g.start < g.end
  {
    SortedMembers(found, Before);
    KeptShape(Sorted(found, Before));
  }

  /** The first position from `start` on that no kept finding covers. */
  lemma {:induction false} FirstGap(kept: seq<Finding>, start: nat, end: nat) returns (p: nat)
    requires !FullyCovered(kept, start, end)
    ensures start <= p < end && !CoveredAt(kept, p) && FullyCovered(kept, start, p)
    decreases end - start
  {
    if CoveredAt(kept, start) {
      p := FirstGap(kept, start + 1, end);
    } else {
      p := start;
    }
  }

  /** A kept finding that ends inside `f`, with nothing found that starts where it ends. */
  ghost predicate EndsShort(found: seq<Finding>, g: Finding, f: Finding) {
    f.start < g.end < f.end && forall h :: h in found ==> h.start != g.end
  }

  ghost predicate CutShort(found: seq<Finding>, f: Finding) {
    exists g :: g in KeptOf(found) && EndsShort(found, g, f)
  }

  /** Where a kept finding ends short, the position after it is covered by none. */
  lemma GapAfterShortEnd(found: seq<Finding>, g: Finding, f: Finding)
    requires NonEmptySpans(found) && g in KeptOf(found) && EndsShort(found, g, f)
    ensures !CoveredAt(KeptOf(found), g.end)
  {
    KeptOfShape(found);
    hide KeptOf;
    var k := KeptOf(found);
    var i :| 0 <= i < |k| && k[i] == g;
    forall h | h in k ensures !(h.start <= g.end < h.end) {
      var j :| 0 <= j < |k| && k[j] == h;
      assert h.start != g.end;
      assert i < j ==> k[i].end <= k[j].start;
      assert j < i ==> k[j].end <= k[i].start;
    }
  }

  /** A gap inside a finding begins where a kept finding ends short. */
  lemma GapIsShortEnd(found: seq<Finding>, f: Finding) returns (g: Finding)
    requires NonEmptySpans(found) && f in found && !FullyCovered(KeptOf(found), f.start, f.end)
    ensures g in KeptOf(found) && EndsShort(found, g, f)
  {
    var k := KeptOf(found);
    var p := FirstGap(k, f.start, f.end);
    var first := DedupeKeepsTheBest(found, f);
    assert CoveredAt(k, f.start);
    assert CoveredAt(k, p - 1);
    g :| g in k && g.start <= p - 1 < g.end;
    assert g.end == p;
    forall h | h in found ensures h.start != p {
      var cover := DedupeKeepsTheBest(found, h);
      assert cover in k;
    }
  }

  /**
   * Exactly when some of a finding is not redacted: a kept finding ends inside it, and nothing that
   * was found starts there.
   */
  lemma FullyCoveredIff(found: seq<Finding>, f: Finding)
    requires NonEmptySpans(found) && f in found
    ensures FullyCovered(KeptOf(found), f.start, f.end) <==> !CutShort(found, f)
  {
    if g :| g in KeptOf(found) && EndsShort(found, g, f) { GapAfterShortEnd(found, g, f); }
    if !FullyCovered(KeptOf(found), f.start, f.end) { var g := GapIsShortEnd(found, f); }
  }

  /** Of two findings that overlap, the one that comes first in the sort goes on at least as long. */
  ghost predicate EarlierReachesFurther(found: seq<Finding>) {
    forall a, b :: a in found && b in found && Overlap(a, b) && !Before(b, a) ==> b.end <= a.end
  }

  /** Then all of every finding is redacted. */
  lemma NothingCutShort(found: seq<Finding>, f: Finding)
    requires NonEmptySpans(found) && EarlierReachesFurther(found) && f in found
    ensures FullyCovered(KeptOf(found), f.start, f.end)
  {
    SortedIsInOrder(found);
    SortedMembers(found, Before);
    KeptShape(Sorted(found, Before));
    var g := KeptCoverStarts(Sorted(found, Before), f);
    assert Overlap(g, f);
    assert f.end <= g.end;
    forall p: nat | f.start <= p < f.end ensures CoveredAt(KeptOf(found), p) { assert g in KeptOf(found); }
  }

  ghost predicate AllCovered(found: seq<Finding>) {
    forall f :: f in found ==> FullyCovered(KeptOf(found), f.start, f.end)
  }

  ghost predicate DrawnFrom(part: seq<Finding>, found: seq<Finding>) {
    forall f :: f in part ==> f in found
  }

  lemma KeptPair(a: Finding, b: Finding)
    requires b.start < a.end
    ensures Kept([a, b]) == [a]
  {
    assert [a, b][..1] == [a] && [a][..0] == [];
    assert Kept([a]) == [a];
  }

  /** Two findings alone: the later one shows if it runs past the earlier one it overlaps. */
  lemma PairCutShort(a: Finding, b: Finding)
    requires a.start < a.end && b.start < b.end
    requires Overlap(a, b) && !Before(b, a) && a.end < b.end
    ensures KeptOf([a, b]) == [a] && !AllCovered([a, b])
  {
    SortedPair(a, b, Before);
    KeptPair(a, b);
    hide Sorted, Kept, Before;
    assert !CoveredAt([a], a.end);
    assert b in [a, b];
  }

  /**
   * What makes redaction complete whatever is found together: of any findings drawn from these, all
   * are redacted in full, if and only if the earlier of two that overlap always reaches further.
   */
  lemma AlwaysCoveredIff(found: seq<Finding>)
    requires NonEmptySpans(found)
    ensures EarlierReachesFurther(found) <==> forall part :: DrawnFrom(part, found) ==> AllCovered(part)
  {
    if EarlierReachesFurther(found) {
      forall part | DrawnFrom(part, found) ensures AllCovered(part) {
        assert NonEmptySpans(part) && EarlierReachesFurther(part);
        forall f: Finding | f in part ensures FullyCovered(KeptOf(part), f.start, f.end) { NothingCutShort(part, f); }
      }
    } else {
      var a: Finding, b: Finding :| a in found && b in found && Overlap(a, b) && !Before(b, a) && !(b.end <= a.end);
      PairCutShort(a, b);
      assert DrawnFrom([a, b], found);
    }
  }

  /** The same of matches: exactly when all of a match is redacted. */
  lemma MatchRedactedIff(
    text: string, patterns: seq<Pattern>, matches: seq<seq<Match>>, i: nat, m: Match, f: Finding)
    requires |patterns| == |matches| && forall ms :: ms in matches ==> MatchesOf(text, ms)
    requires i < |patterns| && m in matches[i] && IsFindingOf(f, text, patterns[i], m)
    ensures var found := AllFound(text, patterns, matches);
            f in found && (FullyCovered(KeptOf(found), f.start, f.end) <==> !CutShort(found, f))
  {
    var of := EveryMatchIsFound(text, patterns, matches, i, m);
    assert of == f;
    FullyCoveredIff(AllFound(text, patterns, matches), f);
  }

  /** Where earlier findings reach further, all of group 2 of a match is redacted, or all of the match without one. */
  lemma EveryMatchRedacted(text: string, patterns: seq<Pattern>, matches: seq<seq<Match>>, i: nat, m: Match)
    requires |patterns| == |matches| && forall ms :: ms in matches ==> MatchesOf(text, ms)
    requires i < |patterns| && m in matches[i] && EarlierReachesFurther(AllFound(text, patterns, matches))
    ensures var kept := KeptOf(AllFound(text, patterns, matches));
            && (|m.groups| >= 2 ==> forall at: nat :: m.groups[1].0 <= at < m.groups[1].1 ==> CoveredAt(kept, at))
            && (|m.groups| < 2 ==> forall at: nat :: m.start <= at < m.end ==> CoveredAt(kept, at))
  {
    var f := EveryMatchIsFound(text, patterns, matches, i, m);
    NothingCutShort(AllFound(text, patterns, matches), f);
  }

  /** Of two findings with one start the more confident is kept, and what the other has beyond it stays in the text. */
  lemma LongerFindingMayShow(high: Finding, medium: Finding)
    requires high.confidence == High && medium.confidence == Medium
    requires high.start == medium.start < high.end < medium.end
    ensures KeptOf([high, medium]) == [high] && KeptOf([medium, high]) == [high]
    ensures !FullyCovered([high], medium.start, medium.end) && CutShort([high, medium], medium)
  {
    PairCutShort(high, medium);
    SortedPair(medium, high, Before);
    KeptPair(high, medium);
    hide Sorted, Kept;
    assert !CoveredAt([high], high.end);
    assert medium in [high, medium];
    FullyCoveredIff([high, medium], medium);
  }

  // ---------------------------------------------------------------- redaction

  ghost predicate Spliceable(text: string, kept: seq<Finding>) {
    Apart(kept) && forall f :: f in kept ==> f.start < f.end <= |text|
  }

  /** One pass from left to right: text outside the findings is copied, each finding is replaced. */
  function Rebuilt(text: string, kept: seq<Finding>, from: nat): string
    requires from <= |text| && Spliceable(text, kept) && (kept != [] ==> from <= kept[0].start)
  {
    if kept == [] then text[from..]
    else
      text[from..kept[0].start] + REDACTION + Rebuilt(text, kept[1..], kept[0].end)
  }

  /** With one finding: its text gives way to the marker, and what is around it stays. */
  lemma RebuiltAround(before: string, secret: string, after: string, f: Finding)
    requires f.start == |before| && f.end == |before| + |secret| && secret != ""
    ensures var text := before + secret + after;
            Spliceable(text, [f]) && Rebuilt(text, [f], 0) == before + "[REDACTED_SECRET]" + after
  {
    var text := before + secret + after;
    assert text[0..f.start] == before && text[f.end..] == after;
    assert [f][1..] == [];
    assert Rebuilt(text, [f][1..], f.end) == after;
  }

  function Covered(kept: seq<Finding>): int {
    if kept == [] then 0 else kept[0].end - kept[0].start + Covered(kept[1..])
  }

  lemma {:induction false} RebuiltLength(text: string, kept: seq<Finding>, from: nat)
    requires from <= |text| && Spliceable(text, kept) && (kept != [] ==> from <= kept[0].start)
    ensures |Rebuilt(text, kept, from)| == |text| - from - Covered(kept) + |kept| * |REDACTION|
  {
    if kept != [] { RebuiltLength(text, kept[1..], kept[0].end); }
  }

  /** Splicing out the first finding last is the same as rebuilding from it. */
  lemma SpliceFirst(text: string, kept: seq<Finding>)
    requires Spliceable(text, kept) && kept != []
    ensures var rest := Rebuilt(text, kept[1..], kept[0].end);
            Rebuilt(text, kept, 0) == text[..kept[0].start] + REDACTION + rest
  {}

  /** Text before the first finding is still in place, so `from` only decides how much of it is shown. */
  lemma RebuiltFrom(text: string, kept: seq<Finding>, from: nat)
    requires from <= |text| && Spliceable(text, kept) && (kept != [] ==> from <= kept[0].start)
    ensures from <= |Rebuilt(text, kept, 0)|
    ensures Rebuilt(text, kept, 0)[..from] == text[..from]
    ensures Rebuilt(text, kept, 0)[from..] == Rebuilt(text, kept, from)
  {
    if kept != [] {
      assert text[0..kept[0].start] == text[..from] + text[from..kept[0].start];
    }
  }

  function Reversed(fs: seq<Finding>): seq<Finding> {
    if fs == [] then [] else [fs[|fs| - 1]] + Reversed(fs[..|fs| - 1])
  }

  lemma {:induction false} FromTheRight(kept: seq<Finding>)
    requires Apart(kept) && NonEmptySpans(kept)
    ensures Sorted(kept, StartsLater) == Reversed(kept)
    ensures forall f :: f in Reversed(kept) <==> f in kept
  {
    if kept != [] {
      var init, last := kept[..|kept| - 1], kept[|kept| - 1];
      FromTheRight(init);
      forall f | f in init ensures StartsLater(last, f) {
        var i :| 0 <= i < |init| && init[i] == f;
        assert kept[i].end <= kept[|kept| - 1].start;
      }
      InsertInFront(Reversed(init), last);
    }
  }

  lemma {:induction false} InsertInFront(fs: seq<Finding>, x: Finding)
    requires forall f :: f in fs ==> StartsLater(x, f)
    ensures Insert(fs, x, StartsLater) == [x] + fs
  {
    if fs != [] {
      InsertInFront(fs[..|fs| - 1], x);
      assert fs == fs[..|fs| - 1] + [fs[|fs| - 1]];
    }
  }

  lemma {:induction false} ReversedAt(fs: seq<Finding>, i: nat)
    requires i < |fs|
    ensures |Reversed(fs)| == |fs| && Reversed(fs)[i] == fs[|fs| - 1 - i]
  {
    if i > 0 {
      ReversedAt(fs[..|fs| - 1], i - 1);
    } else if |fs| > 1 {
      ReversedAt(fs[..|fs| - 1], 0);
    } else {
      assert fs[..|fs| - 1] == [];
    }
  }

  method SortFromTheRight(findings: seq<Finding>) returns (order: seq<Finding>)
    requires Apart(findings) && NonEmptySpans(findings)
    ensures order == Reversed(findings)
  {
    FromTheRight(findings);
    order := Sorted(findings, StartsLater);
  }

  lemma SuffixSpliceable(text: string, kept: seq<Finding>, k: nat)
    requires Spliceable(text, kept) && k < |kept|
    ensures Spliceable(text, kept[k..]) && Spliceable(text, kept[k + 1..])
    ensures kept[k..][1..] == kept[k + 1..] && kept[k].start < kept[k].end <= |text|
    ensures k + 1 < |kept| ==> kept[k].end <= kept[k + 1].start
  {
    assert kept[k] in kept;
  }

  /** One step of the loop: finding `k` is spliced out after all those to its right. */
  lemma SpliceOneMore(text: string, kept: seq<Finding>, k: nat)
    requires Spliceable(text, kept) && k < |kept|
    ensures Spliceable(text, kept[k..]) && Spliceable(text, kept[k + 1..])
    ensures var r, f := Rebuilt(text, kept[k + 1..], 0), kept[k];
            && f.start < f.end <= |r|
            && Rebuilt(text, kept[k..], 0) == r[..f.start] + REDACTION + r[f.end..]
  {
    SuffixSpliceable(text, kept, k);
    SpliceFirst(text, kept[k..]);
    hide Rebuilt, Spliceable;
    RebuiltFrom(text, kept[k + 1..], kept[k].end);
    RebuiltFrom(text, kept[k + 1..], kept[k].start);
  }

  /** Splicing from right to left, as the loop does, equals the rebuild from left to right. */
  method Redact(text: string, findings: seq<Finding>) returns (redacted: string)
    requires Spliceable(text, findings)
    ensures redacted == Rebuilt(text, findings, 0)
    ensures |redacted| == |text| - Covered(findings) + |findings| * |REDACTION|
  {
    redacted := text;
    var order := SortFromTheRight(findings);
    ghost var n := |findings|;
    if n > 0 { ReversedAt(findings, 0); }
    assert findings[n..] == [] && Rebuilt(text, [], 0) == text;
    hide Reversed, Rebuilt, Covered, Spliceable;
    for i := 0 to |order|
      invariant Spliceable(text, findings[n - i..])
      invariant redacted == Rebuilt(text, findings[n - i..], 0)
    {
      ReversedAt(findings, i);
      SpliceOneMore(text, findings, n - i - 1);
      redacted := redacted[..order[i].start] + REDACTION + redacted[order[i].end..];
    }
    assert findings[0..] == findings;
    RebuiltLength(text, findings, 0);
  }

  /** Scan, then splice: the text outside the kept findings is untouched, and without findings all of it. */
  method ScanAndRedact(text: string, patterns: seq<Pattern>, matches: seq<seq<Match>>)
    returns (redacted: string, kept: seq<Finding>)
    requires |patterns| == |matches| && forall ms :: ms in matches ==> MatchesOf(text, ms)
    ensures kept == Kept(Sorted(AllFound(text, patterns, matches), Before))
    ensures Spliceable(text, kept) && redacted == Rebuilt(text, kept, 0)
    ensures kept == [] ==> redacted == text
  {
    kept := Scan(text, patterns, matches);
    if kept == [] {
      return text, [];
    }
    redacted := Redact(text, kept);
  }
}
