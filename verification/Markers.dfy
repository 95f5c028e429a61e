/** Scanning text for bracketed markers, for any way of recognising one. `mark(s)` is the length
    of the marker at the start of `s`, or 0. */
module Markers {
  import opened Text
  import InsertionOrder

  /** One opening bracket first, a closing bracket last, no whitespace inside. */
  predicate Bracketed(s: string, n: nat) {
    && 2 <= n <= |s|
    && s[0] == '[' && s[n - 1] == ']'
    && (forall i :: 0 < i < n ==> s[i] != '[')
    && (forall i :: 0 < i < n ==> !IsSpace(s[i]))
  }

  predicate SameStart(s: string, t: string, n: nat) {
    n <= |s| && n <= |t| && s[..n] == t[..n]
  }

  /** Markers are bracketed, and recognising one depends only on its own characters. */
  ghost predicate Recogniser(mark: string -> nat) {
    && (forall s :: mark(s) > 0 ==> Bracketed(s, mark(s)))
    && (forall s, t {:trigger SameStart(s, t, mark(s))} ::
          mark(s) > 0 && SameStart(s, t, mark(s)) ==> mark(t) == mark(s))
  }

  predicate IsMarker(n: nat, s: string) {
    2 <= n <= |s|
  }

  /** How far a scan moves: past the marker, or past one character. */
  function Advance(mark: string -> nat, s: string): (n: nat)
    requires s != []
    ensures 0 < n <= |s|
  {
    if IsMarker(mark(s), s) then mark(s) else 1
  }

  /** What is inside the brackets of the marker at the start. */
  function Found(mark: string -> nat, s: string): seq<string> {
    if IsMarker(mark(s), s) then [s[1..mark(s) - 1]] else []
  }

  /** The contents of all markers from left to right, never overlapping (`findall`). */
  function Scan(mark: string -> nat, s: string): seq<string>
    decreases |s|
  {
    if s == [] then [] else Found(mark, s) + Scan(mark, s[Advance(mark, s)..])
  }

  /** A scan finds something exactly when some position starts a marker (`search`). */
  lemma {:induction false} FindsIffOccurs(mark: string -> nat, s: string)
    requires Recogniser(mark)
    ensures Scan(mark, s) != [] <==> exists i :: 0 <= i <= |s| && mark(s[i..]) > 0
    decreases |s|
  {
    assert s[0..] == s;
    if s != [] && mark(s) == 0 {
      var rest := s[1..];
      FindsIffOccurs(mark, rest);
      if i :| 0 <= i <= |rest| && mark(rest[i..]) > 0 {
        assert rest[i..] == s[i + 1..];
      }
      if i :| 0 <= i <= |s| && mark(s[i..]) > 0 {
        assert rest[i - 1..] == s[i..];
      }
    }
  }

  // ---- Whitespace never cuts a marker ----------------------------------------------------

  /** A marker cannot start before a whitespace character and end after it. */
  lemma MarkerBeforeSpace(mark: string -> nat, s: string, k: nat)
    requires Recogniser(mark) && 0 < k < |s| && IsSpace(s[k])
    ensures mark(s) == mark(s[..k])
  {
    var before := s[..k];
    if mark(before) > 0 {
      assert s[..mark(before)] == before[..mark(before)];
      assert SameStart(before, s, mark(before));
    } else if mark(s) > 0 {
      assert Bracketed(s, mark(s));
      assert mark(s) <= k;
      assert s[..mark(s)] == before[..mark(s)];
      assert SameStart(s, before, mark(s));
    }
  }

  lemma DropCommutes(s: string, n: nat, k: nat)
    requires n <= k < |s|
    ensures s[n..][..k - n] == s[..k][n..]
    ensures s[n..][k - n + 1..] == s[k + 1..]
    ensures s[n..][k - n] == s[k]
  {
  }

  lemma ScanFromSpace(mark: string -> nat, s: string)
    requires Recogniser(mark) && s != [] && IsSpace(s[0])
    ensures Scan(mark, s) == Scan(mark, s[1..])
  {
    assert !Bracketed(s, mark(s));
  }

  lemma SameFound(mark: string -> nat, s: string, k: nat)
    requires Recogniser(mark) && 0 < k < |s| && IsSpace(s[k])
    ensures Advance(mark, s) == Advance(mark, s[..k]) <= k
    ensures Found(mark, s) == Found(mark, s[..k])
  {
    MarkerBeforeSpace(mark, s, k);
    var n := mark(s);
    if n > 0 {
      assert Bracketed(s, n) && Bracketed(s[..k], n);
      assert s[..k][1..n - 1] == s[1..n - 1];
    }
  }

  /** A scan of `before`, a whitespace character and `after` is a scan of each. */
  lemma {:induction false} ScanAcrossSpace(mark: string -> nat, s: string, k: nat, before: string, after: string)
    requires Recogniser(mark) && k < |s| && IsSpace(s[k])
    requires before == s[..k] && after == s[k + 1..]
    ensures Scan(mark, s) == Scan(mark, before) + Scan(mark, after)
    decreases k
  {
    if k == 0 {
      ScanFromSpace(mark, s);
    } else {
      SameFound(mark, s, k);
      var n := Advance(mark, s);
      DropCommutes(s, n, k);
      ScanAcrossSpace(mark, s[n..], k - n, before[n..], after);
      Regroup(Found(mark, s), Scan(mark, before[n..]), Scan(mark, after));
    }
  }

  lemma {:induction false} ScanStripLeft(mark: string -> nat, s: string)
    requires Recogniser(mark)
    ensures Scan(mark, StripLeft(s)) == Scan(mark, s)
    decreases |s|
  {
    if s != [] && IsSpace(s[0]) {
      ScanStripLeft(mark, s[1..]);
      ScanFromSpace(mark, s);
    }
  }

  lemma {:induction false} ScanStripRight(mark: string -> nat, s: string)
    requires Recogniser(mark)
    ensures Scan(mark, StripRight(s)) == Scan(mark, s)
    decreases |s|
  {
    if s != [] && IsSpace(s[|s| - 1]) {
      ScanStripRight(mark, s[..|s| - 1]);
      ScanAcrossSpace(mark, s, |s| - 1, s[..|s| - 1], "");
    }
  }

  lemma ScanStrip(mark: string -> nat, s: string)
    requires Recogniser(mark)
    ensures Scan(mark, Strip(s)) == Scan(mark, s)
  {
    ScanStripLeft(mark, s);
    ScanStripRight(mark, StripLeft(s));
  }

  // ---- Paragraphs ------------------------------------------------------------------------

  function SpaceRun(s: string): (n: nat)
    ensures n <= |s|
    ensures forall i :: 0 <= i < n ==> IsSpace(s[i])
  {
    if s != [] && IsSpace(s[0]) then 1 + SpaceRun(s[1..]) else 0
  }

  /** One past the last line feed among the first `n` characters, or 0. */
  function LastBreak(s: string, n: nat): (k: nat)
    requires n <= |s|
    ensures k <= n
  {
    if n == 0 then 0 else if s[n - 1] == '\n' then n else LastBreak(s, n - 1)
  }

  /** The length of the blank-line separator at the start of `s`: a line feed, whitespace and
      another line feed, as long as possible. */
  function SeparatorLength(s: string): (n: nat)
    ensures n <= |s|
    ensures forall i :: 0 <= i < n ==> IsSpace(s[i])
  {
    if s == [] || s[0] != '\n' then 0
    else
      var k := LastBreak(s[1..], SpaceRun(s[1..]));
      assert forall i :: 0 < i < 1 + k ==> s[i] == s[1..][i - 1];
      if k == 0 then 0 else 1 + k
  }

  /** The text cut at its separators; `open` is the paragraph being read. */
  function Paragraphs(s: string, open: string): seq<string>
    decreases |s|
  {
    if s == [] then [open]
    else
      var n := SeparatorLength(s);
      if n > 0 then [open] + Paragraphs(s[n..], "") else Paragraphs(s[1..], open + [s[0]])
  }

  /** A line feed, nothing but whitespace, and another line feed. */
  predicate IsGap(s: string, i: int, j: int) {
    0 <= i < j < |s| && s[i] == '\n' && s[j] == '\n' && forall k :: i < k < j ==> IsSpace(s[k])
  }

  lemma {:induction false} SpaceRunReaches(s: string, n: nat)
    requires n <= |s| && forall i :: 0 <= i < n ==> IsSpace(s[i])
    ensures SpaceRun(s) >= n
  {
    if n > 0 {
      SpaceRunReaches(s[1..], n - 1);
    }
  }

  lemma {:induction false} LastBreakIsLast(s: string, n: nat)
    requires n <= |s|
    ensures LastBreak(s, n) > 0 ==> s[LastBreak(s, n) - 1] == '\n'
    ensures forall i :: 0 <= i < n && s[i] == '\n' ==> i < LastBreak(s, n)
  {
    if n > 0 && s[n - 1] != '\n' {
      LastBreakIsLast(s, n - 1);
    }
  }

  /** A separator is a gap, and every gap is in one. */
  lemma SeparatorIsGap(s: string)
    ensures SeparatorLength(s) > 0 ==> IsGap(s, 0, SeparatorLength(s) - 1)
    ensures forall j :: IsGap(s, 0, j) ==> j < SeparatorLength(s)
  {
    if s != [] && s[0] == '\n' {
      var rest := s[1..];
      LastBreakIsLast(rest, SpaceRun(rest));
      forall j | IsGap(s, 0, j)
        ensures j < SeparatorLength(s)
      {
        SpaceRunReaches(rest, j);
      }
    }
  }

  ghost predicate HasGap(s: string) {
    exists i, j :: IsGap(s, i, j)
  }

  /** No gap begins among the first `n` characters. */
  ghost predicate NoGapBefore(s: string, n: nat) {
    forall i, j :: 0 <= i < n ==> !IsGap(s, i, j)
  }

  lemma GapInPrefix(open: string, s: string)
    requires NoGapBefore(open + s, |open|)
    ensures !HasGap(open)
  {
    forall i, j
      ensures !IsGap(open, i, j)
    {
      assert IsGap(open, i, j) ==> IsGap(open + s, i, j);
    }
  }

  lemma GapInRest(open: string, s: string, whole: string, j: int)
    requires whole == open + s
    ensures IsGap(whole, |open|, j) ==> IsGap(s, 0, j - |open|)
  {
    assert forall k :: 0 <= k < |s| ==> s[k] == whole[|open| + k];
  }

  lemma OneMoreWithoutGap(open: string, s: string, whole: string)
    requires s != [] && whole == open + s && NoGapBefore(whole, |open|) && SeparatorLength(s) == 0
    ensures NoGapBefore(whole, |open| + 1)
  {
    SeparatorIsGap(s);
    forall j
      ensures !IsGap(whole, |open|, j)
    {
      GapInRest(open, s, whole, j);
    }
  }

  /** The parts with a separator between each two. */
  function Interleave(parts: seq<string>, gaps: seq<string>): string
    requires |parts| == |gaps| + 1
  {
    if gaps == [] then parts[0] else parts[0] + gaps[0] + Interleave(parts[1..], gaps[1..])
  }

  /** The text is the parts, none of which contains a gap, with gaps between them. */
  ghost predicate CutAtGaps(parts: seq<string>, gaps: seq<string>, whole: string) {
    && |parts| == |gaps| + 1
    && (forall i :: 0 <= i < |parts| ==> !HasGap(parts[i]))
    && (forall i :: 0 <= i < |gaps| ==> IsGap(gaps[i], 0, |gaps[i]| - 1))
    && Interleave(parts, gaps) == whole
  }

  lemma Uncut(whole: string)
    requires !HasGap(whole)
    ensures CutAtGaps([whole], [], whole)
  {
  }

  lemma CutOnceMore(
    first: string, gap: string, parts: seq<string>, gaps: seq<string>, rest: string, whole: string)
    requires CutAtGaps(parts, gaps, rest) && !HasGap(first) && IsGap(gap, 0, |gap| - 1)
    requires whole == first + gap + rest
    ensures CutAtGaps([first] + parts, [gap] + gaps, whole)
  {
    assert ([first] + parts)[1..] == parts && ([gap] + gaps)[1..] == gaps;
  }

  lemma SeparatorCut(s: string)
    requires SeparatorLength(s) > 0
    ensures IsGap(s[..SeparatorLength(s)], 0, SeparatorLength(s) - 1)
  {
    SeparatorIsGap(s);
  }

  /** Paragraphs are what stands between the blank lines: no paragraph contains a gap, and the text is
      the paragraphs with gaps between them. */
  lemma {:induction false} ParagraphsAreCutAtGaps(s: string, open: string, whole: string) returns (gaps: seq<string>)
    requires whole == open + s && NoGapBefore(whole, |open|)
    ensures CutAtGaps(Paragraphs(s, open), gaps, whole)
    decreases |s|
  {
    GapInPrefix(open, s);
    if s == [] {
      assert whole == open;
      Uncut(open);
      gaps := [];
    } else {
      var n := SeparatorLength(s);
      if n > 0 {
        var gap, rest := s[..n], s[n..];
        SeparatorCut(s);
        assert "" + rest == rest && whole == open + gap + rest;
        var more := ParagraphsAreCutAtGaps(rest, "", rest);
        CutOnceMore(open, gap, Paragraphs(rest, ""), more, rest, whole);
        gaps := [gap] + more;
      } else {
        OneMoreWithoutGap(open, s, whole);
        assert (open + [s[0]]) + s[1..] == whole;
        gaps := ParagraphsAreCutAtGaps(s[1..], open + [s[0]], whole);
      }
    }
  }

  lemma {:induction false} OneParagraph(s: string, open: string)
    requires '\n' !in s
    ensures Paragraphs(s, open) == [open + s]
    decreases |s|
  {
    if s == [] {
      assert open + s == open;
    } else {
      OneParagraph(s[1..], open + [s[0]]);
      assert (open + [s[0]]) + s[1..] == open + s;
    }
  }

  function ScanEach(mark: string -> nat, parts: seq<string>): seq<string>
    decreases |parts|
  {
    if parts == [] then [] else Scan(mark, parts[0]) + ScanEach(mark, parts[1..])
  }

  lemma ScanEachStep(mark: string -> nat, part: string, parts: seq<string>)
    ensures ScanEach(mark, [part] + parts) == Scan(mark, part) + ScanEach(mark, parts)
  {
    assert ([part] + parts)[1..] == parts;
  }

  lemma {:induction false} LeadingSpaces(mark: string -> nat, s: string, n: nat, after: string)
    requires Recogniser(mark)
    requires n <= |s| && after == s[n..] && forall i :: 0 <= i < n ==> IsSpace(s[i])
    ensures Scan(mark, s) == Scan(mark, after)
    decreases n
  {
    if n == 0 {
      assert s == after;
    } else {
      ScanFromSpace(mark, s);
      LeadingSpaces(mark, s[1..], n - 1, after);
    }
  }

  lemma GapWithoutItsFirst(s: string, k: nat, n: nat, rest: string)
    requires 0 < n && k + n <= |s| && forall i :: k <= i < k + n ==> IsSpace(s[i])
    requires rest == s[k + 1..]
    ensures n - 1 <= |rest| && rest[n - 1..] == s[k + n..]
    ensures forall i :: 0 <= i < n - 1 ==> IsSpace(rest[i])
  {
    assert forall i :: 0 <= i < n - 1 ==> rest[i] == s[i + k + 1];
  }

  /** A gap of whitespace from `k` to `k + n` separates what is found before it and after it. */
  lemma SpacesHideNothing(mark: string -> nat, s: string, k: nat, n: nat, before: string, after: string)
    requires Recogniser(mark)
    requires 0 < n && k + n <= |s| && forall i :: k <= i < k + n ==> IsSpace(s[i])
    requires before == s[..k] && after == s[k + n..]
    ensures Scan(mark, s) == Scan(mark, before) + Scan(mark, after)
  {
    var rest := s[k + 1..];
    GapWithoutItsFirst(s, k, n, rest);
    ScanAcrossSpace(mark, s, k, before, rest);
    LeadingSpaces(mark, rest, n - 1, after);
  }

  lemma GapOfWhole(whole: string, open: string, s: string, n: nat)
    requires whole == open + s
    requires n <= |s| && forall i :: 0 <= i < n ==> IsSpace(s[i])
    ensures |whole| == |open| + |s|
    ensures open == whole[..|open|] && s[n..] == whole[|open| + n..]
    ensures forall i :: |open| <= i < |open| + n ==> IsSpace(whole[i])
  {
  }

  lemma CutAtGap(mark: string -> nat, whole: string, open: string, s: string, n: nat, rest: string)
    requires Recogniser(mark) && whole == open + s
    requires 0 < n <= |s| && forall i :: 0 <= i < n ==> IsSpace(s[i])
    requires rest == s[n..]
    ensures Scan(mark, whole) == Scan(mark, open) + Scan(mark, rest)
  {
    GapOfWhole(whole, open, s, n);
    SpacesHideNothing(mark, whole, |open|, n, open, rest);
  }

  /** Cutting a text into paragraphs neither loses nor breaks nor invents a marker. */
  lemma {:induction false} MarkersSurviveCutting(mark: string -> nat, s: string, open: string, whole: string)
    requires Recogniser(mark) && whole == open + s
    ensures ScanEach(mark, Paragraphs(s, open)) == Scan(mark, whole)
    decreases |s|
  {
    if s == [] {
      assert whole == open;
      ScanEachStep(mark, open, []);
    } else {
      var n := SeparatorLength(s);
      if n > 0 {
        var rest := s[n..];
        MarkersSurviveCutting(mark, rest, "", rest);
        CutAtGap(mark, whole, open, s, n, rest);
        ScanEachStep(mark, open, Paragraphs(rest, ""));
      } else {
        assert whole == (open + [s[0]]) + s[1..];
        MarkersSurviveCutting(mark, s[1..], open + [s[0]], whole);
      }
    }
  }

  lemma {:induction false} FoundInParts(mark: string -> nat, parts: seq<string>, i: nat)
    requires i < |parts|
    ensures forall id :: id in Scan(mark, parts[i]) ==> id in ScanEach(mark, parts)
    decreases |parts|
  {
    if i > 0 {
      FoundInParts(mark, parts[1..], i - 1);
    }
  }

  // ---- Replacing markers -----------------------------------------------------------------

  function Bracket(id: string): string {
    "[" + id + "]"
  }

  /** The text with every marker replaced (`sub`). */
  function Replace(mark: string -> nat, swap: string -> string, s: string): string
    decreases |s|
  {
    if s == [] then []
    else if IsMarker(mark(s), s) then swap(s[1..mark(s) - 1]) + Replace(mark, swap, s[mark(s)..])
    else [s[0]] + Replace(mark, swap, s[1..])
  }

  /** One opening bracket, at the start. */
  predicate OpensOnce(s: string) {
    s != [] && s[0] == '[' && forall i :: 0 < i < |s| ==> s[i] != '['
  }

  /** A replacement for a marker that is no marker itself, whatever follows it. */
  ghost predicate Inert(mark: string -> nat, r: string) {
    OpensOnce(r) && forall t :: mark(r + t) == 0
  }

  /** Replacements keep the marker or put something inert in its place. */
  ghost predicate Tame(mark: string -> nat, swap: string -> string, kept: string -> bool) {
    forall id :: TameAt(mark, swap, kept, id)
  }

  ghost predicate TameAt(mark: string -> nat, swap: string -> string, kept: string -> bool, id: string) {
    if kept(id) then swap(id) == Bracket(id) else Inert(mark, swap(id))
  }

  lemma ReplaceStep(mark: string -> nat, swap: string -> string, s: string)
    requires Recogniser(mark) && s != []
    ensures mark(s) == 0 ==> Replace(mark, swap, s) == [s[0]] + Replace(mark, swap, s[1..])
    ensures mark(s) == 0 ==> Scan(mark, s) == Scan(mark, s[1..])
    ensures mark(s) > 0 ==> Bracketed(s, mark(s))
    ensures mark(s) > 0 ==> Replace(mark, swap, s) == swap(s[1..mark(s) - 1]) + Replace(mark, swap, s[mark(s)..])
    ensures mark(s) > 0 ==> Scan(mark, s) == [s[1..mark(s) - 1]] + Scan(mark, s[mark(s)..])
  {
    if mark(s) > 0 {
      assert Bracketed(s, mark(s));
    }
  }

  lemma MarkersOpen(mark: string -> nat, swap: string -> string, kept: string -> bool, s: string)
    requires Recogniser(mark) && Tame(mark, swap, kept) && s != []
    ensures mark(s) > 0 ==> Replace(mark, swap, s) != [] && Replace(mark, swap, s)[0] == '['
  {
    ReplaceStep(mark, swap, s);
    if mark(s) > 0 {
      var id := s[1..mark(s) - 1];
      assert TameAt(mark, swap, kept, id);
      assert OpensOnce(swap(id));
    }
  }

  /** A bracket-free stretch of the result was copied from the text unchanged. */
  lemma {:induction false} PlainIsCopied(
    mark: string -> nat, swap: string -> string, kept: string -> bool, s: string, m: nat)
    requires Recogniser(mark) && Tame(mark, swap, kept)
    requires m <= |Replace(mark, swap, s)|
    requires forall i :: 0 <= i < m ==> Replace(mark, swap, s)[i] != '['
    ensures m <= |s| && forall i :: 0 <= i < m ==> Replace(mark, swap, s)[i] == s[i]
    decreases |s|
  {
    if m > 0 {
      assert s != [];
      ReplaceStep(mark, swap, s);
      MarkersOpen(mark, swap, kept, s);
      var r := Replace(mark, swap, s);
      if mark(s) == 0 {
        var rest, tail := Replace(mark, swap, s[1..]), s[1..];
        assert forall i :: 0 <= i < m - 1 ==> rest[i] == r[i + 1];
        PlainIsCopied(mark, swap, kept, tail, m - 1);
        forall i | 0 <= i < m
          ensures r[i] == s[i]
        {
          if i > 0 {
            assert r[i] == rest[i - 1] == tail[i - 1];
          }
        }
      }
    }
  }

  lemma {:induction false} ScanPlain(mark: string -> nat, plain: string, t: string)
    requires Recogniser(mark)
    requires forall i :: 0 <= i < |plain| ==> plain[i] != '['
    ensures Scan(mark, plain + t) == Scan(mark, t)
    decreases |plain|
  {
    if plain == [] {
      assert plain + t == t;
    } else {
      assert !Bracketed(plain + t, mark(plain + t));
      assert (plain + t)[1..] == plain[1..] + t;
      ScanPlain(mark, plain[1..], t);
    }
  }

  lemma ScanInert(mark: string -> nat, r: string, t: string)
    requires Recogniser(mark) && Inert(mark, r)
    ensures Scan(mark, r + t) == Scan(mark, t)
  {
    assert mark(r + t) == 0;
    assert (r + t)[1..] == r[1..] + t;
    ScanPlain(mark, r[1..], t);
  }

  lemma ScanKept(mark: string -> nat, s: string, n: nat, u: string, t: string)
    requires Recogniser(mark) && mark(s) == n > 0
    requires n <= |s| && u == s[..n] + t
    ensures Scan(mark, u) == Found(mark, s) + Scan(mark, t)
  {
    assert Bracketed(s, n);
    assert u[..n] == s[..n] && u[n..] == t;
    assert SameStart(s, u, n);
    assert u[1..n - 1] == s[1..n - 1];
  }

  lemma SameMark(mark: string -> nat, r: string, s: string)
    requires Recogniser(mark) && 0 < mark(r) <= |s|
    requires forall i :: 0 <= i < mark(r) ==> i < |r| && r[i] == s[i]
    ensures mark(s) == mark(r)
  {
    var n := mark(r);
    assert Bracketed(r, n);
    assert r[..n] == s[..n];
    assert SameStart(r, s, n);
  }

  /** If a marker starts where a plain character was copied, it was there before. */
  lemma CopiedMarker(mark: string -> nat, swap: string -> string, kept: string -> bool, s: string)
    requires Recogniser(mark) && Tame(mark, swap, kept) && s != []
    requires Replace(mark, swap, s) == [s[0]] + Replace(mark, swap, s[1..])
    ensures mark(Replace(mark, swap, s)) > 0 ==> mark(s) == mark(Replace(mark, swap, s))
  {
    var r, tail := Replace(mark, swap, s), s[1..];
    var rest := Replace(mark, swap, tail);
    var n := mark(r);
    if n > 0 {
      assert Bracketed(r, n);
      assert forall i :: 0 <= i < n - 1 ==> rest[i] == r[i + 1];
      PlainIsCopied(mark, swap, kept, tail, n - 1);
      assert forall i :: 0 < i < n ==> r[i] == rest[i - 1] == tail[i - 1] == s[i];
      SameMark(mark, r, s);
    }
  }

  lemma NothingAppears(mark: string -> nat, swap: string -> string, kept: string -> bool, s: string)
    requires Recogniser(mark) && Tame(mark, swap, kept)
    requires s != [] && mark(s) == 0
    ensures mark(Replace(mark, swap, s)) == 0
  {
    ReplaceStep(mark, swap, s);
    CopiedMarker(mark, swap, kept, s);
  }

  lemma AtKept(mark: string -> nat, swap: string -> string, s: string, n: nat, id: string, rest: string)
    requires Recogniser(mark) && mark(s) == n > 0
    requires Bracketed(s, n) && id == s[1..n - 1] && rest == s[n..] && swap(id) == Bracket(id)
    ensures Scan(mark, Replace(mark, swap, s)) == [id] + Scan(mark, Replace(mark, swap, rest))
  {
    ReplaceStep(mark, swap, s);
    assert Bracket(id) == s[..n];
    ScanKept(mark, s, n, Replace(mark, swap, s), Replace(mark, swap, rest));
  }

  lemma AtSwapped(mark: string -> nat, swap: string -> string, s: string, n: nat, id: string, rest: string)
    requires Recogniser(mark) && mark(s) == n > 0
    requires Bracketed(s, n) && id == s[1..n - 1] && rest == s[n..] && Inert(mark, swap(id))
    ensures Scan(mark, Replace(mark, swap, s)) == Scan(mark, Replace(mark, swap, rest))
  {
    ReplaceStep(mark, swap, s);
    ScanInert(mark, swap(id), Replace(mark, swap, rest));
  }

  lemma KeepOne(id: string, kept: string -> bool)
    ensures Keep([id], kept) == if kept(id) then [id] else []
  {
    assert [id][1..] == [];
  }

  lemma AtMarker(mark: string -> nat, swap: string -> string, kept: string -> bool, s: string, rest: string)
    requires Recogniser(mark) && Tame(mark, swap, kept)
    requires mark(s) > 0 && mark(s) <= |s| && rest == s[mark(s)..]
    ensures Scan(mark, Replace(mark, swap, s)) ==
              Keep(Found(mark, s), kept) + Scan(mark, Replace(mark, swap, rest))
  {
    var n := mark(s);
    assert Bracketed(s, n);
    var id := s[1..n - 1];
    assert Found(mark, s) == [id];
    KeepOne(id, kept);
    assert TameAt(mark, swap, kept, id);
    if kept(id) {
      AtKept(mark, swap, s, n, id, rest);
    } else {
      AtSwapped(mark, swap, s, n, id, rest);
    }
  }

  lemma AtPlain(mark: string -> nat, swap: string -> string, kept: string -> bool, s: string)
    requires Recogniser(mark) && Tame(mark, swap, kept)
    requires s != [] && mark(s) == 0
    ensures Scan(mark, Replace(mark, swap, s)) == Scan(mark, Replace(mark, swap, s[1..]))
  {
    NothingAppears(mark, swap, kept, s);
    assert Replace(mark, swap, s)[1..] == Replace(mark, swap, s[1..]);
  }

  lemma KeepFound(mark: string -> nat, kept: string -> bool, s: string, ids: seq<string>)
    ensures Keep(Found(mark, s) + ids, kept) == Keep(Found(mark, s), kept) + Keep(ids, kept)
  {
    if Found(mark, s) == [] {
      assert Found(mark, s) + ids == ids;
    } else {
      assert (Found(mark, s) + ids)[1..] == ids;
    }
  }

  /** Replacing never creates, merges, moves or loses a marker: a scan of the result finds
      exactly the markers that were kept, in their order. */
  lemma {:induction false} ReplaceLeavesTheKept(
    mark: string -> nat, swap: string -> string, kept: string -> bool, s: string)
    requires Recogniser(mark) && Tame(mark, swap, kept)
    ensures Scan(mark, Replace(mark, swap, s)) == Keep(Scan(mark, s), kept)
    decreases |s|
  {
    if s != [] {
      var rest := s[Advance(mark, s)..];
      ReplaceLeavesTheKept(mark, swap, kept, rest);
      KeepFound(mark, kept, s, Scan(mark, rest));
      if mark(s) > 0 {
        assert Bracketed(s, mark(s));
        AtMarker(mark, swap, kept, s, rest);
      } else {
        AtPlain(mark, swap, kept, s);
      }
    }
  }

  lemma Rejoin(s: string, n: nat)
    requires Bracketed(s, n)
    ensures Bracket(s[1..n - 1]) + s[n..] == s
  {
  }

  lemma FoundIsScanned(mark: string -> nat, s: string, rest: string)
    requires s != [] && rest == s[Advance(mark, s)..]
    ensures forall id :: id in Found(mark, s) ==> id in Scan(mark, s)
    ensures forall id :: id in Scan(mark, rest) ==> id in Scan(mark, s)
  {
  }

  /** Replacing every marker by itself changes nothing. */
  lemma {:induction false} ReplaceByItself(mark: string -> nat, swap: string -> string, s: string)
    requires Recogniser(mark)
    requires forall id :: id in Scan(mark, s) ==> swap(id) == Bracket(id)
    ensures Replace(mark, swap, s) == s
    decreases |s|
  {
    if s != [] {
      ReplaceStep(mark, swap, s);
      if mark(s) > 0 {
        var rest := s[mark(s)..];
        FoundIsScanned(mark, s, rest);
        ReplaceByItself(mark, swap, rest);
        assert s[1..mark(s) - 1] in Found(mark, s);
        Rejoin(s, mark(s));
      } else {
        FoundIsScanned(mark, s, s[1..]);
        ReplaceByItself(mark, swap, s[1..]);
      }
    }
  }

  /** The replacement as the scan makes it, onto what was rewritten so far. */
  function ReplaceOnto(mark: string -> nat, swap: string -> string, done: string, s: string): string
    decreases |s|
  {
    if s == [] then done
    else if IsMarker(mark(s), s) then ReplaceOnto(mark, swap, done + swap(s[1..mark(s) - 1]), s[mark(s)..])
    else ReplaceOnto(mark, swap, done + [s[0]], s[1..])
  }

  lemma {:induction false} OntoAppends(mark: string -> nat, swap: string -> string, done: string, s: string)
    ensures ReplaceOnto(mark, swap, done, s) == done + Replace(mark, swap, s)
    decreases |s|
  {
    if s == [] {
      assert done + [] == done;
    } else if IsMarker(mark(s), s) {
      var id, rest := s[1..mark(s) - 1], s[mark(s)..];
      OntoAppends(mark, swap, done + swap(id), rest);
      Regroup(done, swap(id), Replace(mark, swap, rest));
    } else {
      OntoAppends(mark, swap, done + [s[0]], s[1..]);
      Regroup(done, [s[0]], Replace(mark, swap, s[1..]));
    }
  }

  /** The ids that pass a test, each once, as the scan collects them. */
  function CollectOnto(mark: string -> nat, known: string -> bool, ids: seq<string>, s: string): seq<string>
    decreases |s|
  {
    if s == [] then ids
    else
      var found := Found(mark, s);
      CollectOnto(mark, known,
                  if found != [] && known(found[0]) && found[0] !in ids then ids + found else ids,
                  s[Advance(mark, s)..])
  }

  lemma {:induction false} CollectsKnown(mark: string -> nat, known: string -> bool, found: seq<string>, s: string)
    ensures CollectOnto(mark, known, InsertionOrder.Dedup(Keep(found, known)), s)
            == InsertionOrder.Dedup(Keep(found + Scan(mark, s), known))
    decreases |s|
  {
    if s == [] {
      assert found + [] == found;
    } else {
      var here, rest := Found(mark, s), s[Advance(mark, s)..];
      if here == [] {
        CollectsKnown(mark, known, found, rest);
      } else {
        KeepOneMore(found, here[0], known);
        CollectsKnown(mark, known, found + here, rest);
      }
      Regroup(found, here, Scan(mark, rest));
      assert found + [] == found;
    }
  }

  /** Replaces the markers from left to right, collecting the ids that pass a test. */
  method Substitute(mark: string -> nat, swap: string -> string, known: string -> bool, text: string)
    returns (rewritten: string, ids: seq<string>)
    ensures rewritten == Replace(mark, swap, text)
    ensures ids == InsertionOrder.Dedup(Keep(Scan(mark, text), known))
  {
    rewritten, ids := "", [];
    var rest := text;
    while rest != []
      invariant ReplaceOnto(mark, swap, rewritten, rest) == ReplaceOnto(mark, swap, "", text)
      invariant CollectOnto(mark, known, ids, rest) == CollectOnto(mark, known, [], text)
      decreases |rest|
    {
      var n := mark(rest);
      if IsMarker(n, rest) {
        var id := rest[1..n - 1];
        if known(id) && id !in ids {
          ids := ids + [id];
        }
        rewritten := rewritten + swap(id);
        rest := rest[n..];
      } else {
        rewritten := rewritten + [rest[0]];
        rest := rest[1..];
      }
    }
    OntoAppends(mark, swap, "", text);
    CollectsKnown(mark, known, [], text);
    assert [] + Scan(mark, text) == Scan(mark, text);
  }

  lemma KeepOneMore(found: seq<string>, id: string, known: string -> bool)
    ensures var before, after := Keep(found, known), Keep(found + [id], known);
            InsertionOrder.Dedup(after) ==
              if known(id) && id !in InsertionOrder.Dedup(before)
              then InsertionOrder.Dedup(before) + [id]
              else InsertionOrder.Dedup(before)
  {
    KeepAppend(found, [id], known, found + [id]);
    var before := Keep(found, known);
    if known(id) {
      assert (before + [id])[..|before|] == before;
    } else {
      assert before + [] == before;
    }
  }
}
