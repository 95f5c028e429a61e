/** Rewriting a report's citations as numbers and appending the list of references. */
module Rendering {
  import opened Text
  import opened Evidence
  import Citations
  import InsertionOrder
  import Markers
  import Sorting

  datatype Style = Numbered | Footnote

  /** A source's number: one more than its place in the list, the last one if an id repeats;
      0 for an id that is not in the list. */
  function Number(sources: seq<Source>, id: string): (n: nat)
    ensures n <= |sources|
    ensures n > 0 ==> sources[n - 1].id == id
  {
    if sources == [] then 0
    else if sources[|sources| - 1].id == id then |sources|
    else Number(sources[..|sources| - 1], id)
  }

  lemma {:induction false} NumberedIffListed(sources: seq<Source>, id: string)
    ensures Number(sources, id) > 0 <==> id in Ids(sources)
  {
    if sources != [] {
      var last := |sources| - 1;
      NumberedIffListed(sources[..last], id);
      assert Ids(sources) == Ids(sources[..last]) + [sources[last].id];
    }
  }

  /** The number is the last place that holds the id. */
  lemma {:induction false} NumberIsLastPlace(sources: seq<Source>, id: string, n: nat)
    ensures Number(sources, id) == n > 0 <==>
            && 1 <= n <= |sources| && sources[n - 1].id == id
            && forall j :: n <= j < |sources| ==> sources[j].id != id
  {
    if sources != [] {
      var last := |sources| - 1;
      var before := sources[..last];
      NumberIsLastPlace(before, id, n);
      assert forall j :: 0 <= j < last ==> before[j] == sources[j];
      assert sources[last].id != id ==> n != |sources| || sources[n - 1].id != id;
    }
  }

  function Unknown(sources: seq<Source>): string -> bool {
    id => Number(sources, id) == 0
  }

  function Known(sources: seq<Source>): string -> bool {
    id => Number(sources, id) > 0
  }

  /** What a citation of the source with this number looks like in the text. */
  function Inline(n: nat, style: Style): string {
    (if style.Numbered? then "[" else "[^") + Decimal(n) + "]"
  }

  /** What replaces the citation of an id. */
  function Swap(sources: seq<Source>, style: Style): string -> string {
    id => if Number(sources, id) == 0 then Markers.Bracket(id) else Inline(Number(sources, id), style)
  }

  function Body(text: string, sources: seq<Source>, style: Style): string {
    Markers.Replace(Citations.CiteLength, Swap(sources, style), text)
  }

  /** Ids ordered by number; ids without a number would be ordered among themselves. */
  function ByNumber(sources: seq<Source>): (string, string) -> bool {
    (a, b) =>
      Number(sources, a) < Number(sources, b) || (Number(sources, a) == Number(sources, b) && LexLe(a, b))
  }

  function CitedIds(text: string, sources: seq<Source>): seq<string> {
    InsertionOrder.Dedup(Keep(Citations.FindAll(text), Known(sources)))
  }

  /** The ids listed as references, in the order of the list. */
  function ReferenceIds(text: string, sources: seq<Source>): seq<string> {
    Sorting.Sort(ByNumber(sources), CitedIds(text, sources))
  }

  /** The author and year after a paper's title; nothing when the first author is blank, which
      the renderer does not survive. */
  function Suffix(source: Source): Option<string> {
    if source.kind != Paper || source.authors == [] then Some("")
    else
      var names := Words(source.authors[0]);
      if names == [] then None
      else
        Some(" (" + names[|names| - 1]
             + (if |source.authors| > 1 then " et al." else "")
             + (if source.year.Some? then ", " + Show(source.year.value) else "") + ")")
  }

  function Line(n: nat, source: Source, suffix: string, style: Style): string {
    (if style.Numbered? then Decimal(n) + "." else "[^" + Decimal(n) + "]:")
    + " [" + source.title + "](" + source.locator + ")" + suffix
  }

  /** The line of one listed id, unless its source cannot be formatted. */
  function LineFor(id: string, sources: seq<Source>, style: Style): Option<string>
    requires Number(sources, id) > 0
  {
    var n := Number(sources, id);
    match Suffix(sources[n - 1])
    case None => None
    case Some(suffix) => Some(Line(n, sources[n - 1], suffix, style))
  }

  function Lines(ids: seq<string>, sources: seq<Source>, style: Style): Option<seq<string>>
    requires forall id :: id in ids ==> Number(sources, id) > 0
  {
    if ids == [] then Some([])
    else
      match Lines(ids[..|ids| - 1], sources, style)
      case None => None
      case Some(lines) =>
        match LineFor(ids[|ids| - 1], sources, style)
        case None => None
        case Some(line) => Some(lines + [line])
  }

  function Heading(style: Style): string {
    if style.Numbered? then "## References" else "## Notes"
  }

  // ---- The references are the known cited sources ----------------------------------------

  lemma ByNumberIsTotal(sources: seq<Source>)
    ensures Sorting.TotalOrder(ByNumber(sources))
  {
    var le := ByNumber(sources);
    forall a, b
      ensures le(a, b) || le(b, a)
      ensures le(a, b) && le(b, a) ==> a == b
    {
      LexLeTotal(a, b);
      if le(a, b) && le(b, a) {
        LexLeAntisymmetric(a, b);
      }
    }
    forall a, b, c | le(a, b) && le(b, c)
      ensures le(a, c)
    {
      if Number(sources, a) == Number(sources, b) == Number(sources, c) {
        LexLeTransitive(a, b, c);
      }
    }
  }

  lemma ReferenceIdsAreCited(text: string, sources: seq<Source>)
    ensures forall id :: id in ReferenceIds(text, sources) <==>
                           id in Citations.FindAll(text) && Number(sources, id) > 0
    ensures Sorting.Distinct(ReferenceIds(text, sources))
  {
    var known := Keep(Citations.FindAll(text), Known(sources));
    KeepKeeps(Citations.FindAll(text), Known(sources));
    InsertionOrder.DedupKeepsElements(known);
    Sorting.SameElements(ReferenceIds(text, sources), CitedIds(text, sources));
    Sorting.SortDistinct(ByNumber(sources), CitedIds(text, sources));
  }

  lemma NumbersIdentify(sources: seq<Source>, a: string, b: string)
    ensures Number(sources, a) == Number(sources, b) > 0 ==> a == b
  {
  }

  /** The reference list has exactly the sources that the text cites and the list knows, in
      strictly ascending number. */
  lemma ReferencesAreTheKnownCitations(text: string, sources: seq<Source>)
    ensures forall id :: id in ReferenceIds(text, sources) <==> id in Citations.FindAll(text) && id in Ids(sources)
    ensures var ids := ReferenceIds(text, sources);
            forall i, j :: 0 <= i < j < |ids| ==> 0 < Number(sources, ids[i]) < Number(sources, ids[j])
  {
    ReferenceIdsAreCited(text, sources);
    var ids := ReferenceIds(text, sources);
    forall id
      ensures Number(sources, id) > 0 <==> id in Ids(sources)
    {
      NumberedIffListed(sources, id);
    }
    ByNumberIsTotal(sources);
    Sorting.SortSorted(ByNumber(sources), CitedIds(text, sources));
    forall i, j | 0 <= i < j < |ids|
      ensures 0 < Number(sources, ids[i]) < Number(sources, ids[j])
    {
      assert ids[i] in ids && ids[j] in ids;
      assert ByNumber(sources)(ids[i], ids[j]);
      NumbersIdentify(sources, ids[i], ids[j]);
    }
  }

  // ---- The body cites what it cited ------------------------------------------------------

  lemma InlineIsInert(n: nat, style: Style)
    ensures Markers.Inert(Citations.CiteLength, Inline(n, style))
  {
    var r, digits := Inline(n, style), Decimal(n);
    DecimalIsDigits(n);
    var before: string := if style.Numbered? then "[" else "[^";
    assert r == before + digits + "]";
    assert forall i :: 0 <= i < |digits| ==> r[i + |before|] == digits[i];
    forall i | 0 < i < |r|
      ensures r[i] != '['
    {
      if |before| <= i < |r| - 1 {
        assert r[i] == digits[i - |before|];
      }
    }
    forall t
      ensures Citations.CiteLength(r + t) == 0
    {
      assert (r + t)[1] == '^' || '0' <= (r + t)[1] <= '9';
    }
  }

  /** Rendering rewrites exactly the known citations: a scan of the rendered body finds the
      unknown ones, unchanged and in their order, and nothing else. */
  lemma BodyKeepsUnknownCitations(text: string, sources: seq<Source>, style: Style)
    ensures Citations.FindAll(Body(text, sources, style)) == Keep(Citations.FindAll(text), Unknown(sources))
  {
    Citations.CitationsAreMarkers();
    forall id
      ensures Markers.TameAt(Citations.CiteLength, Swap(sources, style), Unknown(sources), id)
    {
      InlineIsInert(Number(sources, id), style);
    }
    Markers.ReplaceLeavesTheKept(Citations.CiteLength, Swap(sources, style), Unknown(sources), text);
  }

  lemma Unwrap(before: string, a: string, b: string, after: string)
    requires before + a + after == before + b + after
    ensures a == b
  {
    var whole := before + a + after;
    assert |a| == |b|;
    forall i | 0 <= i < |a|
      ensures a[i] == b[i]
    {
      assert whole[|before| + i] == a[i];
      assert whole[|before| + i] == b[i];
    }
  }

  /** Two known citations are rendered alike exactly when they cite the same source. */
  lemma InlineIdentifies(sources: seq<Source>, style: Style, a: string, b: string)
    requires Number(sources, a) > 0 && Number(sources, b) > 0
    ensures Swap(sources, style)(a) == Swap(sources, style)(b) <==> a == b
  {
    var m, n := Number(sources, a), Number(sources, b);
    var before: string := if style.Numbered? then "[" else "[^";
    if Inline(m, style) == Inline(n, style) {
      Unwrap(before, Decimal(m), Decimal(n), "]");
      DecimalIsInjective(m, n);
    }
  }

  /** A known citation becomes its number in brackets, and an unknown one stays. */
  lemma CitationsAreReplacedBy(sources: seq<Source>, style: Style, id: string)
    ensures Number(sources, id) == 0 ==> Swap(sources, style)(id) == "[" + id + "]"
    ensures Number(sources, id) > 0 ==>
              Swap(sources, style)(id) ==
              (if style == Numbered then "[" else "[^") + Decimal(Number(sources, id)) + "]"
  {
  }

  // ---- The renderer ----------------------------------------------------------------------

  /** The body and, unless nothing known is cited, the list of references below it. */
  function WithReferences(body: string, ids: seq<string>, sources: seq<Source>, style: Style): Option<string>
    requires forall id :: id in ids ==> Number(sources, id) > 0
  {
    if ids == [] then Some(body)
    else
      match Lines(ids, sources, style)
      case None => None
      case Some(lines) => Some(body + "\n\n" + Join("\n", [Heading(style), ""] + lines))
  }

  /** The rendered report, or nothing when a listed source cannot be formatted. */
  function Rendered(content: string, sources: seq<Source>, style: Style): Option<string> {
    var text := Strip(content);
    var ids := ReferenceIds(text, sources);
    ReferenceIdsAreCited(text, sources);
    WithReferences(Body(text, sources, style), ids, sources, style)
  }

  /** Rewrites the citations, collecting the known ids, then lists what they cite. */
  method RenderReportContent(content: string, sources: seq<Source>, style: Style) returns (rendered: Option<string>)
    ensures rendered == Rendered(content, sources, style)
  {
    var text := Strip(content);
    var rewritten, cited :=
      Markers.Substitute(Citations.CiteLength, Swap(sources, style), Known(sources), text);
    ReferenceIdsAreCited(text, sources);
    rendered := AppendReferences(rewritten, Sorting.Sort(ByNumber(sources), cited), sources, style);
  }

  method AppendReferences(body: string, ordered: seq<string>, sources: seq<Source>, style: Style)
    returns (rendered: Option<string>)
    requires forall id :: id in ordered ==> Number(sources, id) > 0
    ensures rendered == WithReferences(body, ordered, sources, style)
  {
    if ordered == [] {
      return Some(body);
    }
    var lines := ListReferences(ordered, sources, style);
    if lines.None? {
      return None;
    }
    return Some(body + "\n\n" + Join("\n", [Heading(style), ""] + lines.value));
  }

  method ListReferences(ordered: seq<string>, sources: seq<Source>, style: Style) returns (lines: Option<seq<string>>)
    requires forall id :: id in ordered ==> Number(sources, id) > 0
    ensures lines == Lines(ordered, sources, style)
  {
    var sofar: seq<string> := [];
    for i := 0 to |ordered|
      invariant Lines(ordered[..i], sources, style) == Some(sofar)
    {
      assert ordered[i] in ordered;
      assert ordered[..i + 1][..i] == ordered[..i];
      var line := LineFor(ordered[i], sources, style);
      if line.None? {
        LinesNeedThePrefix(ordered, i + 1, sources, style);
        return None;
      }
      sofar := sofar + [line.value];
    }
    assert ordered[..|ordered|] == ordered;
    return Some(sofar);
  }

  lemma {:induction false} LinesNeedThePrefix(ids: seq<string>, k: nat, sources: seq<Source>, style: Style)
    requires forall id :: id in ids ==> Number(sources, id) > 0
    requires k <= |ids|
    requires Lines(ids[..k], sources, style) == None
    ensures Lines(ids, sources, style) == None
    decreases |ids|
  {
    if k == |ids| {
      assert ids[..k] == ids;
    } else {
      assert ids[..|ids| - 1][..k] == ids[..k];
      LinesNeedThePrefix(ids[..|ids| - 1], k, sources, style);
    }
  }

  /** What the output is, for every content and every list of sources: the stripped text itself
      when it cites nothing known, and otherwise the rewritten body followed by one line per
      known cited source, in ascending number. It fails exactly when one of those sources is a
      paper whose first author is blank. */
  lemma RenderedIsBodyAndReferences(content: string, sources: seq<Source>, style: Style)
    ensures var text, out := Strip(content), Rendered(content, sources, style);
      && (ReferenceIds(text, sources) == [] ==> out == Some(text))
      && (out.Some? ==> Body(text, sources, style) <= out.value)
      && (out.None? <==>
            exists id :: id in Citations.FindAll(text) && Number(sources, id) > 0
                         && BlankAuthor(sources[Number(sources, id) - 1]))
  {
    var text := Strip(content);
    var ids := ReferenceIds(text, sources);
    ReferenceIdsAreCited(text, sources);
    if ids == [] {
      forall id | id in Citations.FindAll(text)
        ensures Swap(sources, style)(id) == Markers.Bracket(id)
      {
        assert id !in ids;
      }
      Citations.CitationsAreMarkers();
      Markers.ReplaceByItself(Citations.CiteLength, Swap(sources, style), text);
    }
    LinesFailOn(ids, sources, style);
  }

  /** The lines list the sources with these ids, one each. */
  ghost predicate ListsSources(lines: seq<string>, ids: seq<string>, sources: seq<Source>, style: Style) {
    |lines| == |ids| && forall i :: 0 <= i < |ids| ==> ListsSource(lines[i], ids[i], sources, style)
  }

  /** The whole text of a rendered report that cites something known: body, heading, blank line, and one
      line per reference. */
  lemma RenderedReads(content: string, sources: seq<Source>, style: Style) returns (lines: seq<string>)
    requires Rendered(content, sources, style).Some? && ReferenceIds(Strip(content), sources) != []
    ensures ListsSources(lines, ReferenceIds(Strip(content), sources), sources, style)
    ensures Rendered(content, sources, style).value ==
              Body(Strip(content), sources, style)
              + ("\n\n" + (if style == Numbered then "## References" else "## Notes") + "\n\n" + Join("\n", lines))
  {
    var ids := ReferenceIds(Strip(content), sources);
    ReferenceIdsAreCited(Strip(content), sources);
    lines := Lines(ids, sources, style).value;
    LinesFailOn(ids, sources, style);
    forall i | 0 <= i < |ids|
      ensures ListsSource(lines[i], ids[i], sources, style)
    {
      LinesListTheSources(ids, sources, style, i);
    }
    JoinWithHeading(Heading(style), lines);
    GlueReport(Body(Strip(content), sources, style), Heading(style), Join("\n", lines));
  }

  lemma JoinWithHeading(heading: string, lines: seq<string>)
    requires lines != []
    ensures Join("\n", [heading, ""] + lines) == heading + "\n\n" + Join("\n", lines)
  {
    var all := [heading, ""] + lines;
    assert all[1..] == [""] + lines && all[1..][1..] == lines;
  }

  lemma GlueReport(body: string, heading: string, list: string)
    ensures body + "\n\n" + (heading + "\n\n" + list) == body + ("\n\n" + heading + "\n\n" + list)
  {
  }

  /** A paper whose first author is blank. */
  predicate BlankAuthor(source: Source) {
    source.kind == Paper && source.authors != [] && Words(source.authors[0]) == []
  }

  /** It does fail: on a report that only cites a paper by an author named with one space. */
  lemma BlankAuthorFails(style: Style) returns (content: string, sources: seq<Source>)
    ensures Rendered(content, sources, style).None?
  {
    var id;
    content, id := Citations.SomeMarker(seq(16, _ => '0'));
    sources := [Source(id, FromWeb, "", "", "", "", Paper, [" "], None)];
    Citations.LoneMarker(content);
    StripFixesStripped(content);
    assert " "[1..] == "";
    assert id in Citations.FindAll(content);
    assert Number(sources, id) == 1 && BlankAuthor(sources[0]);
    RenderedIsBodyAndReferences(content, sources, style);
  }

  lemma LineFailsOn(id: string, sources: seq<Source>, style: Style)
    requires Number(sources, id) > 0
    ensures LineFor(id, sources, style).None? <==> BlankAuthor(sources[Number(sources, id) - 1])
  {
  }

  lemma {:induction false} LinesFailOn(ids: seq<string>, sources: seq<Source>, style: Style)
    requires forall id :: id in ids ==> Number(sources, id) > 0
    ensures Lines(ids, sources, style).None? <==>
              exists id :: id in ids && BlankAuthor(sources[Number(sources, id) - 1])
    ensures Lines(ids, sources, style).Some? ==> |Lines(ids, sources, style).value| == |ids|
  {
    if ids != [] {
      var before, last := ids[..|ids| - 1], ids[|ids| - 1];
      LinesFailOn(before, sources, style);
      LineFailsOn(last, sources, style);
      assert forall id :: id in ids <==> id in before || id == last;
    }
  }

  /** The line names the source with this id: its number, a link from its title to its locator, and for a
      paper with authors the last name of the first one and the year, in brackets. */
  predicate ListsSource(line: string, id: string, sources: seq<Source>, style: Style) {
    var n := Number(sources, id);
    && n > 0 && sources[n - 1].id == id
    && var source := sources[n - 1];
    var start := (if style == Numbered then Decimal(n) + "." else "[^" + Decimal(n) + "]:")
                 + " [" + source.title + "](" + source.locator + ")";
    if source.kind == WebPage || source.authors == [] then line == start
    else
      var names := Words(source.authors[0]);
      && names != []
      && line == start + (" (" + names[|names| - 1]
                          + (if |source.authors| == 1 then "" else " et al.")
                          + (if source.year == None then "" else ", " + Show(source.year.value)) + ")")
  }

  lemma LineListsSource(id: string, sources: seq<Source>, style: Style)
    requires Number(sources, id) > 0 && LineFor(id, sources, style).Some?
    ensures ListsSource(LineFor(id, sources, style).value, id, sources, style)
  {
    var source := sources[Number(sources, id) - 1];
    if source.kind == WebPage || source.authors == [] {
      assert Suffix(source) == Some("");
    }
  }

  lemma LinesOfLast(ids: seq<string>, sources: seq<Source>, style: Style)
    requires ids != [] && forall id :: id in ids ==> Number(sources, id) > 0
    requires Lines(ids, sources, style).Some?
    ensures var before, last := Lines(ids[..|ids| - 1], sources, style), LineFor(ids[|ids| - 1], sources, style);
      before.Some? && last.Some? && Lines(ids, sources, style).value == before.value + [last.value]
  {
  }

  /** The i-th line of the list is for the i-th listed id. */
  lemma {:induction false} LinesListTheSources(ids: seq<string>, sources: seq<Source>, style: Style, i: nat)
    requires forall id :: id in ids ==> Number(sources, id) > 0
    requires Lines(ids, sources, style).Some? && i < |ids|
    ensures i < |Lines(ids, sources, style).value|
    ensures ListsSource(Lines(ids, sources, style).value[i], ids[i], sources, style)
  {
    var before, last := ids[..|ids| - 1], ids[|ids| - 1];
    LinesFailOn(before, sources, style);
    LinesOfLast(ids, sources, style);
    LineListsSource(last, sources, style);
    if i < |ids| - 1 {
      LinesListTheSources(before, sources, style, i);
      assert before[i] == ids[i];
    }
  }
}
