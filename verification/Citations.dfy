/** Citation markers in report text: recognising them and auditing a report. */
module Citations {
  import opened Text
  import opened Evidence
  import InsertionOrder
  import Markers

  predicate IsHex(c: char) {
    '0' <= c <= '9' || 'A' <= c <= 'F'
  }

  /** The length of the source-id prefix (`WEB-`, `MCP-`, `PAPER-` or `PRIVATE-`) that follows
      the first character of `s`, or 0. The four prefixes exclude one another. */
  function PrefixLength(s: string): nat {
    if |s| >= 5 && s[1] == 'W' && s[2] == 'E' && s[3] == 'B' && s[4] == '-' then 4
    else if |s| >= 5 && s[1] == 'M' && s[2] == 'C' && s[3] == 'P' && s[4] == '-' then 4
    else if |s| >= 7 && s[1] == 'P' && s[2] == 'A' && s[3] == 'P' && s[4] == 'E' && s[5] == 'R' && s[6] == '-' then 6
    else if |s| >= 9 && s[1] == 'P' && s[2] == 'R' && s[3] == 'I' && s[4] == 'V'
            && s[5] == 'A' && s[6] == 'T' && s[7] == 'E' && s[8] == '-' then 8
    else 0
  }

  /** `s` begins with a bracketed id whose prefix has `p` characters. */
  predicate CitesWith(s: string, p: nat) {
    && |s| >= p + 18
    && s[0] == '['
    && (forall i :: p < i <= p + 16 ==> IsHex(s[i]))
    && s[p + 17] == ']'
  }

  /** The length of the citation marker at the start of `s`, or 0 when there is none. */
  function CiteLength(s: string): nat {
    var p := PrefixLength(s);
    if p > 0 && CitesWith(s, p) then p + 18 else 0
  }

  lemma CiteShape(s: string)
    ensures CiteLength(s) > 0 ==> Markers.Bracketed(s, CiteLength(s)) && CiteLength(s) >= 22
  {
  }

  lemma CiteIsLocal(s: string, t: string, n: nat)
    requires CiteLength(s) == n > 0
    requires n <= |s| && n <= |t| && forall i :: 0 <= i < n ==> t[i] == s[i]
    ensures CiteLength(t) == n
  {
    assert PrefixLength(t) == PrefixLength(s);
  }

  /** Citations can be scanned for: they are bracketed, hold no whitespace, and each is
      recognised by its own characters. */
  lemma CitationsAreMarkers()
    ensures Markers.Recogniser(CiteLength)
  {
    forall s | CiteLength(s) > 0
      ensures Markers.Bracketed(s, CiteLength(s))
    {
      CiteShape(s);
    }
    forall s, t | CiteLength(s) > 0 && Markers.SameStart(s, t, CiteLength(s))
      ensures CiteLength(t) == CiteLength(s)
    {
      var n := CiteLength(s);
      assert forall i :: 0 <= i < n ==> s[i] == s[..n][i] == t[..n][i] == t[i];
      CiteIsLocal(s, t, n);
    }
  }

  // ---- What a citation is ----------------------------------------------------------------

  lemma HexDigits(c: char)
    ensures IsHex(c) <==>
              c in {'0', '1', '2', '3', '4', '5', '6', '7', '8', '9', 'A', 'B', 'C', 'D', 'E', 'F'}
  {
  }

  /** One of the four kinds of source id, followed by 16 hexadecimal digits. */
  predicate IsSourceId(id: string, prefix: string) {
    && (prefix == "WEB-" || prefix == "MCP-" || prefix == "PAPER-" || prefix == "PRIVATE-")
    && |id| == |prefix| + 16 && prefix <= id && forall i :: |prefix| <= i < |id| ==> IsHex(id[i])
  }

  lemma SourceIdsAreCited(s: string, id: string, prefix: string)
    requires IsSourceId(id, prefix) && |s| >= |id| + 2
    requires s[0] == '[' && s[1..|id| + 1] == id && s[|id| + 1] == ']'
    ensures CiteLength(s) == |id| + 2
  {
    assert forall i :: 0 <= i < |id| ==> s[i + 1] == s[1..|id| + 1][i] == id[i];
    assert forall i :: 0 <= i < |prefix| ==> id[i] == prefix[i];
    PrefixIsRead(s, prefix);
  }

  lemma PrefixIsRead(s: string, prefix: string)
    requires prefix == "WEB-" || prefix == "MCP-" || prefix == "PAPER-" || prefix == "PRIVATE-"
    requires |s| > |prefix| && forall i :: 0 <= i < |prefix| ==> s[i + 1] == prefix[i]
    ensures PrefixLength(s) == |prefix|
  {
    assert s[1] == prefix[0] && s[2] == prefix[1] && s[3] == prefix[2] && s[4] == prefix[3];
    if |prefix| >= 6 {
      assert s[5] == prefix[4] && s[6] == prefix[5];
    }
    if |prefix| == 8 {
      assert s[7] == prefix[6] && s[8] == prefix[7];
    }
  }

  /** The prefix of a cited id. */
  lemma PrefixIsOneOfFour(s: string)
    requires PrefixLength(s) > 0
    ensures PrefixLength(s) < |s|
    ensures var prefix := s[1..PrefixLength(s) + 1];
      prefix == "WEB-" || prefix == "MCP-" || prefix == "PAPER-" || prefix == "PRIVATE-"
  {
  }

  /** A text begins with a citation exactly if it begins with a source id in square brackets. */
  lemma CitationsExactly(s: string)
    ensures CiteLength(s) > 0 <==>
              exists id, prefix :: IsSourceId(id, prefix) && |s| >= |id| + 2
                                   && s[0] == '[' && s[1..|id| + 1] == id && s[|id| + 1] == ']'
  {
    if CiteLength(s) > 0 {
      var p := PrefixLength(s);
      PrefixIsOneOfFour(s);
      var id, prefix := s[1..p + 17], s[1..p + 1];
      assert forall i :: p <= i < |id| ==> id[i] == s[i + 1];
      assert prefix <= id;
      assert IsSourceId(id, prefix);
    }
    if id, prefix :| IsSourceId(id, prefix) && |s| >= |id| + 2
                     && s[0] == '[' && s[1..|id| + 1] == id && s[|id| + 1] == ']' {
      SourceIdsAreCited(s, id, prefix);
    }
  }

  /** All cited ids from left to right. */
  function FindAll(s: string): seq<string> {
    Markers.Scan(CiteLength, s)
  }

  function StripEach(parts: seq<string>): (r: seq<string>)
    ensures |r| == |parts|
  {
    seq(|parts|, i requires 0 <= i < |parts| => Strip(parts[i]))
  }

  /** ASCII lower case, which decides `startswith("sources:")` as Unicode lower case does. */
  function LowerAscii(c: char): char {
    if 'A' <= c <= 'Z' then c - 'A' + 'a' else c
  }

  predicate StartsWithSources(p: string) {
    |p| >= 8 && forall i :: 0 <= i < 8 ==> LowerAscii(p[i]) == "sources:"[i]
  }

  /** A paragraph long enough to be a claim that is neither a heading nor a source list. */
  predicate IsClaim(p: string) {
    |p| >= 20 && !("#" <= p) && !StartsWithSources(p)
  }

  function Claims(report: string): seq<string> {
    Keep(StripEach(Markers.Paragraphs(report, "")), IsClaim)
  }

  // ---- The audit -------------------------------------------------------------------------

  predicate Uncited(p: string) {
    FindAll(p) == []
  }

  /** The audit of a report, or nothing when the report is blank (an error). */
  function Audit(report: string, pool: seq<string>): Option<CitationAudit> {
    var text := Strip(report);
    if text == "" then None
    else
      var cited := InsertionOrder.Dedup(FindAll(text));
      var unknown := Keep(cited, (id: string) => id !in pool);
      var claims := Claims(text);
      var uncited := Keep(claims, Uncited);
      Some(CitationAudit(
             unknown == [] && uncited == [] && cited != [],
             cited, unknown, uncited,
             if claims == [] then 1.0 else (|claims| - |uncited|) as real / |claims| as real))
  }

  /** A claim paragraph's citations are citations of the report. */
  lemma ClaimCitationsAreCited(text: string, claim: string)
    requires claim in Claims(text)
    ensures forall id :: id in FindAll(claim) ==> id in FindAll(text)
  {
    var parts := Markers.Paragraphs(text, "");
    KeepKeeps(StripEach(parts), IsClaim);
    var i :| 0 <= i < |parts| && StripEach(parts)[i] == claim;
    CitationsAreMarkers();
    Markers.ScanStrip(CiteLength, parts[i]);
    Markers.FoundInParts(CiteLength, parts, i);
    assert "" + text == text;
    Markers.MarkersSurviveCutting(CiteLength, text, "", text);
  }

  lemma CitedAreFound(text: string)
    ensures forall id :: id in InsertionOrder.Dedup(FindAll(text)) <==> id in FindAll(text)
    ensures InsertionOrder.Dedup(FindAll(text)) == [] <==> FindAll(text) == []
  {
    InsertionOrder.DedupKeepsElements(FindAll(text));
    if FindAll(text) != [] {
      assert FindAll(text)[0] in InsertionOrder.Dedup(FindAll(text));
    }
  }

  /** The audit says which citations are unknown and which claims have none. */
  lemma AuditSaysExactly(report: string, pool: seq<string>)
    requires Audit(report, pool).Some?
    ensures var audit, text := Audit(report, pool).value, Strip(report);
      && (forall id :: id in audit.unknown <==> id in FindAll(text) && id !in pool)
      && (forall claim :: claim in audit.uncitedClaims <==> claim in Claims(text) && FindAll(claim) == [])
  {
    var text := Strip(report);
    CitedAreFound(text);
    KeepKeeps(InsertionOrder.Dedup(FindAll(text)), (id: string) => id !in pool);
    KeepKeeps(Claims(text), Uncited);
  }

  /** And which share of the claims has one: all of them, if there are none. */
  lemma CoverageIsTheShare(report: string, pool: seq<string>)
    requires Audit(report, pool).Some?
    ensures var audit, claims := Audit(report, pool).value, Claims(Strip(report));
      && |audit.uncitedClaims| <= |claims|
      && audit.coverage == (if claims == [] then 1.0
                            else (|claims| - |audit.uncitedClaims|) as real / |claims| as real)
  {
    KeepKeeps(Claims(Strip(report)), Uncited);
  }

  lemma CoverageIsAShare(report: string, pool: seq<string>)
    requires Audit(report, pool).Some?
    ensures 0.0 <= Audit(report, pool).value.coverage <= 1.0
  {
    CoverageIsTheShare(report, pool);
    var claims, uncited := |Claims(Strip(report))|, |Audit(report, pool).value.uncitedClaims|;
    if claims > 0 {
      FractionBounds(claims - uncited, claims);
    }
  }

  lemma FractionBounds(k: nat, n: nat)
    requires k <= n && n > 0
    ensures 0.0 <= k as real / n as real <= 1.0
  {
  }

  lemma StrippedParts(parts: seq<string>, p: string)
    ensures p in StripEach(parts) <==> exists i :: 0 <= i < |parts| && Strip(parts[i]) == p
  {
    if i :| 0 <= i < |parts| && Strip(parts[i]) == p {
      assert StripEach(parts)[i] == p;
    }
  }

  /** A claim is a stripped paragraph of at least 20 characters that is no heading and does not start
      with the word that introduces the sources. */
  lemma ClaimsExactly(text: string, claim: string)
    ensures claim in Claims(text) <==>
              && (exists i :: 0 <= i < |Markers.Paragraphs(text, "")|
                              && Strip(Markers.Paragraphs(text, "")[i]) == claim)
              && |claim| >= 20 && claim[0] != '#' && !StartsWithSources(claim)
  {
    var parts := Markers.Paragraphs(text, "");
    KeepKeeps(StripEach(parts), IsClaim);
    StrippedParts(parts, claim);
    HeadingsStartWithHash(claim);
    assert claim in Claims(text) <==> claim in StripEach(parts) && IsClaim(claim);
  }

  lemma SourcesInAnyCase(p: string)
    ensures StartsWithSources(p) <==>
              && |p| >= 8 && p[0] in {'s', 'S'} && p[1] in {'o', 'O'} && p[2] in {'u', 'U'} && p[3] in {'r', 'R'}
              && p[4] in {'c', 'C'} && p[5] in {'e', 'E'} && p[6] in {'s', 'S'} && p[7] == ':'
  {
    var word := "sources:";
    assert word[0] == 's' && word[1] == 'o' && word[2] == 'u' && word[3] == 'r';
    assert word[4] == 'c' && word[5] == 'e' && word[6] == 's' && word[7] == ':';
  }

  lemma HeadingsStartWithHash(p: string)
    ensures IsClaim(p) <==> |p| >= 20 && p[0] != '#' && !StartsWithSources(p)
  {
  }

  /** The claim cites a source of the pool. */
  predicate CitesFrom(claim: string, pool: seq<string>) {
    exists id :: id in FindAll(claim) && id in pool
  }

  lemma ClaimsAreCovered(text: string, pool: seq<string>)
    requires forall id :: id in FindAll(text) ==> id in pool
    ensures Keep(Claims(text), Uncited) == [] <==> forall claim :: claim in Claims(text) ==> CitesFrom(claim, pool)
  {
    EmptyKeep(Claims(text), Uncited);
    forall claim | claim in Claims(text)
      ensures Uncited(claim) <==> !CitesFrom(claim, pool)
    {
      ClaimCitationsAreCited(text, claim);
      if !Uncited(claim) {
        assert FindAll(claim)[0] in pool;
      }
    }
  }

  /** A valid audit means what it says of the report itself: something is cited, everything
      cited is in the pool, and every claim paragraph cites a source of the pool. */
  lemma ValidMeansCovered(report: string, pool: seq<string>)
    requires Audit(report, pool).Some?
    ensures var audit, text := Audit(report, pool).value, Strip(report);
      && (audit.valid <==>
            && FindAll(text) != []
            && (forall id :: id in FindAll(text) ==> id in pool)
            && (forall claim :: claim in Claims(text) ==> CitesFrom(claim, pool)))
      && (forall id :: id in audit.cited <==> id in FindAll(text))
  {
    var audit, text := Audit(report, pool).value, Strip(report);
    CitedAreFound(text);
    EmptyKeep(audit.cited, (id: string) => id !in pool);
    if forall id :: id in FindAll(text) ==> id in pool {
      ClaimsAreCovered(text, pool);
    }
  }

  // ---- Short reports ---------------------------------------------------------------------

  /** A text too short for a marker cites nothing. */
  lemma {:induction false} ShortTextCitesNothing(text: string)
    requires |text| < 22
    ensures FindAll(text) == []
    decreases |text|
  {
    if text != [] {
      CiteShape(text);
      ShortTextCitesNothing(text[1..]);
    }
  }

  lemma SilentAudit(text: string, pool: seq<string>)
    requires Stripped(text) && text != "" && |text| < 22
    ensures Audit(text, pool).Some? && Audit(text, pool).value.cited == []
  {
    StripFixesStripped(text);
    ShortTextCitesNothing(text);
  }

  /** A text that is one marker cites its id, in its only paragraph. */
  lemma LoneMarker(text: string)
    requires CiteLength(text) == |text| > 0
    ensures FindAll(text) == [text[1..|text| - 1]] && Stripped(text) && '\n' !in text
  {
    CiteShape(text);
    assert Markers.Advance(CiteLength, text) == |text|;
    assert Markers.Found(CiteLength, text) == [text[1..|text| - 1]];
    assert Markers.Scan(CiteLength, text[|text|..]) == [];
  }

  lemma LoneMarkerAudit(text: string, pool: seq<string>)
    requires CiteLength(text) == |text| > 0 && text[1..|text| - 1] in pool
    ensures Strip(text) == text && Audit(text, pool).Some?
    ensures var audit := Audit(text, pool).value;
      audit.cited != [] && audit.unknown == [] && audit.uncitedClaims == []
  {
    LoneMarker(text);
    OneLineAudit(text, text[1..|text| - 1], pool);
  }

  /** One line that cites one source of the pool. */
  lemma OneLineAudit(text: string, id: string, pool: seq<string>)
    requires Stripped(text) && text != "" && '\n' !in text && FindAll(text) == [id] && id in pool
    ensures Strip(text) == text && Audit(text, pool).Some?
    ensures var audit := Audit(text, pool).value;
      audit.cited != [] && audit.unknown == [] && audit.uncitedClaims == []
  {
    StripFixesStripped(text);
    assert InsertionOrder.Dedup([id]) == [id];
    EmptyKeep([id], (i: string) => i !in pool);
    Markers.OneParagraph(text, "");
    assert "" + text == text;
    assert StripEach([text]) == [text];
    KeepKeeps([text], IsClaim);
    EmptyKeep(Claims(text), Uncited);
  }

  /** There are ids to cite. */
  lemma SomeMarker(hex: string) returns (text: string, id: string)
    requires |hex| == 16 && forall i :: 0 <= i < 16 ==> IsHex(hex[i])
    ensures id == "WEB-" + hex && !("PRIVATE-" <= id)
    ensures CiteLength(text) == |text| == 22 && text[1..|text| - 1] == id
  {
    id := "WEB-" + hex;
    text := "[" + id + "]";
    assert PrefixLength(text) == 4;
    assert forall i :: 4 < i <= 20 ==> text[i] == hex[i - 5];
  }
}
