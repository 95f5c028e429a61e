/** The client's incremental parser of server-sent events, over decoded text. */
module SseParser {

  // ---- What the parser does with its buffer ----------------------------------------------

  /** The buffer with every carriage return that precedes a line feed dropped. */
  function Normalize(s: string): string {
    if s == "" then ""
    else if |s| >= 2 && s[0] == '\r' && s[1] == '\n' then "\n" + Normalize(s[2..])
    else [s[0]] + Normalize(s[1..])
  }

  /** The complete chunks found so far and the text after the last one. */
  datatype Parse = Parse(chunks: seq<string>, open: string)

  /** `split("\n\n")`, its last piece being the remainder; `open` is the piece being read. */
  function Split(s: string, open: string): Parse
    decreases |s|
  {
    if s == "" then Parse([], open)
    else if |s| >= 2 && s[0] == '\n' && s[1] == '\n' then
      var rest := Split(s[2..], "");
      Parse([open] + rest.chunks, rest.open)
    else Split(s[1..], open + [s[0]])
  }

  function ParseBuffer(buffer: string): Parse {
    Split(Normalize(buffer), "")
  }

  /** The client's loop: each read is parsed together with the remainder of the one before. */
  function ParseReads(received: seq<string>, before: Parse): Parse
    decreases |received|
  {
    if received == [] then before
    else
      var parsed := ParseBuffer(before.open + received[0]);
      ParseReads(received[1..], Parse(before.chunks + parsed.chunks, parsed.open))
  }

  function Concat(parts: seq<string>): string {
    if parts == [] then "" else parts[0] + Concat(parts[1..])
  }

  // ---- The same, one character at a time -------------------------------------------------

  predicate EndsWith(s: string, c: char) {
    s != "" && s[|s| - 1] == c
  }

  /** A normalized character: the second of two line feeds completes a chunk. */
  function Push(p: Parse, c: char): Parse {
    if c == '\n' && EndsWith(p.open, '\n') then Parse(p.chunks + [p.open[..|p.open| - 1]], "")
    else Parse(p.chunks, p.open + [c])
  }

  function PushAll(p: Parse, s: string): Parse
    decreases |s|
  {
    if s == "" then p else PushAll(Push(p, s[0]), s[1..])
  }

  /** A raw character: a line feed takes back a carriage return right before it. */
  function Feed(p: Parse, c: char): Parse {
    if c == '\n' && EndsWith(p.open, '\r') then Push(p.(open := p.open[..|p.open| - 1]), c)
    else Push(p, c)
  }

  function FeedAll(p: Parse, s: string): Parse
    decreases |s|
  {
    if s == "" then p else FeedAll(Feed(p, s[0]), s[1..])
  }

  const START := Parse([], "")

  lemma {:induction false} FeedAllAppends(p: Parse, whole: string, a: string, b: string)
    requires whole == a + b
    ensures FeedAll(p, whole) == FeedAll(FeedAll(p, a), b)
    decreases |a|
  {
    if a == "" {
      assert whole == b;
    } else {
      assert whole[1..] == a[1..] + b;
      FeedAllAppends(Feed(p, a[0]), whole[1..], a[1..], b);
    }
  }

  /** Feeding raw text is pushing the normalized text. */
  lemma {:induction false} FeedingNormalizes(p: Parse, s: string)
    requires !(EndsWith(p.open, '\r') && s != "" && s[0] == '\n')
    ensures FeedAll(p, s) == PushAll(p, Normalize(s))
    decreases |s|
  {
    if s != "" {
      var n := Normalize(s);
      if |s| >= 2 && s[0] == '\r' && s[1] == '\n' {
        var rest := s[2..];
        var q := Push(p, '\n');
        FeedCrLf(p, s, rest);
        FeedingNormalizes(q, rest);
        assert n[0] == '\n' && n[1..] == Normalize(rest);
      } else {
        FeedingNormalizes(Push(p, s[0]), s[1..]);
        assert n[0] == s[0] && n[1..] == Normalize(s[1..]);
      }
    }
  }

  lemma FeedCrLf(p: Parse, s: string, rest: string)
    requires |s| >= 2 && s[0] == '\r' && s[1] == '\n' && rest == s[2..]
    ensures FeedAll(p, s) == FeedAll(Push(p, '\n'), rest)
    ensures !EndsWith(Push(p, '\n').open, '\r')
  {
    var q := Feed(p, '\r');
    assert q.open[..|q.open| - 1] == p.open;
    assert Feed(q, '\n') == Push(p, '\n');
    assert s[1..][1..] == rest;
  }

  /** Pushing normalized text splits it at the blank lines. */
  lemma {:induction false} PushingSplits(p: Parse, s: string)
    requires !(EndsWith(p.open, '\n') && s != "" && s[0] == '\n')
    ensures PushAll(p, s) == Parse(p.chunks + Split(s, p.open).chunks, Split(s, p.open).open)
    decreases |s|
  {
    if s == "" {
      assert p.chunks + [] == p.chunks;
    } else if |s| >= 2 && s[0] == '\n' && s[1] == '\n' {
      var rest := s[2..];
      var q := Parse(p.chunks + [p.open], "");
      PushTwo(p, s, rest);
      PushingSplits(q, rest);
      assert p.chunks + ([p.open] + Split(rest, "").chunks) == (p.chunks + [p.open]) + Split(rest, "").chunks;
    } else {
      PushingSplits(Push(p, s[0]), s[1..]);
    }
  }

  lemma PushTwo(p: Parse, s: string, rest: string)
    requires |s| >= 2 && s[0] == '\n' && s[1] == '\n' && rest == s[2..]
    requires !EndsWith(p.open, '\n')
    ensures PushAll(p, s) == PushAll(Parse(p.chunks + [p.open], ""), rest)
  {
    var q := Push(p, '\n');
    assert q.open[..|q.open| - 1] == p.open;
    assert s[1..][1..] == rest;
  }

  /** Parsing a buffer is feeding it, character by character. */
  lemma ParsingIsFeeding(buffer: string)
    ensures ParseBuffer(buffer) == FeedAll(START, buffer)
  {
    FeedingNormalizes(START, buffer);
    PushingSplits(START, Normalize(buffer));
    assert [] + Split(Normalize(buffer), "").chunks == Split(Normalize(buffer), "").chunks;
  }

  /** The text that a parse came from: every chunk with its separator, and the remainder. */
  function Glue(p: Parse): string {
    GlueChunks(p.chunks) + p.open
  }

  function GlueChunks(chunks: seq<string>): string {
    if chunks == [] then "" else GlueChunks(chunks[..|chunks| - 1]) + (chunks[|chunks| - 1] + "\n\n")
  }

  /** No chunk could have ended earlier. */
  predicate Leftmost(p: Parse) {
    NoPair(p.open, '\n', '\n') && forall i :: 0 <= i < |p.chunks| ==> NoPair(p.chunks[i] + "\n", '\n', '\n')
  }

  lemma PushGlues(p: Parse, c: char)
    requires Leftmost(p)
    ensures Glue(Push(p, c)) == Glue(p) + [c] && Leftmost(Push(p, c))
  {
    if c == '\n' && EndsWith(p.open, '\n') {
      var q, chunk := Push(p, c), p.open[..|p.open| - 1];
      assert q.chunks[..|q.chunks| - 1] == p.chunks;
      assert chunk + "\n" == p.open;
      assert chunk + "\n\n" == p.open + [c];
      assert GlueChunks(p.chunks) + (p.open + [c]) + "" == GlueChunks(p.chunks) + p.open + [c];
    } else {
      assert GlueChunks(p.chunks) + (p.open + [c]) == GlueChunks(p.chunks) + p.open + [c];
    }
  }

  lemma {:induction false} PushAllGlues(p: Parse, s: string)
    requires Leftmost(p)
    ensures Glue(PushAll(p, s)) == Glue(p) + s && Leftmost(PushAll(p, s))
    decreases |s|
  {
    if s == "" {
      assert Glue(p) + s == Glue(p);
    } else {
      PushGlues(p, s[0]);
      PushAllGlues(Push(p, s[0]), s[1..]);
      assert Glue(p) + [s[0]] + s[1..] == Glue(p) + s;
    }
  }

  /** Splitting loses nothing and splits at the first opportunity. */
  lemma SplittingIsExact(buffer: string)
    ensures Glue(ParseBuffer(buffer)) == Normalize(buffer) && Leftmost(ParseBuffer(buffer))
  {
    var s := Normalize(buffer);
    PushingSplits(START, s);
    assert [] + Split(s, "").chunks == Split(s, "").chunks;
    PushAllGlues(START, s);
    assert Glue(START) + s == s;
  }

  // ---- Remainders --------------------------------------------------------------------------

  predicate NoPair(s: string, a: char, b: char) {
    forall i :: 0 <= i < |s| - 1 ==> !(s[i] == a && s[i + 1] == b)
  }

  /** The stream nowhere has two carriage returns before a line feed. */
  predicate NoCrCrLf(s: string) {
    forall i :: 0 <= i < |s| - 2 ==> !(s[i] == '\r' && s[i + 1] == '\r' && s[i + 2] == '\n')
  }

  /** A remainder that parses to itself. */
  predicate Clean(open: string) {
    NoPair(open, '\r', '\n') && NoPair(open, '\n', '\n')
  }

  /** Carriage returns at the end of the remainder stand at the end of what was read. */
  predicate TailsAgree(read: string, open: string) {
    && (EndsWith(open, '\r') ==> EndsWith(read, '\r'))
    && (|open| >= 2 && EndsWith(open, '\r') && open[|open| - 2] == '\r' ==>
          |read| >= 2 && read[|read| - 2] == '\r')
  }

  lemma NoThird(read: string, c: char)
    requires NoCrCrLf(read + [c])
    ensures |read| >= 2 && EndsWith(read, '\r') && read[|read| - 2] == '\r' ==> c != '\n'
  {
    var more := read + [c];
    if |read| >= 2 {
      assert more[|read| - 2] == read[|read| - 2] && more[|read| - 1] == read[|read| - 1] && more[|read|] == c;
    }
  }

  lemma FeedKeepsClean(p: Parse, read: string, c: char)
    requires Clean(p.open) && TailsAgree(read, p.open)
    requires NoCrCrLf(read + [c])
    ensures Clean(Feed(p, c).open) && TailsAgree(read + [c], Feed(p, c).open)
  {
    NoThird(read, c);
    assert (read + [c])[|read|] == c;
    assert read != "" ==> (read + [c])[|read| - 1] == read[|read| - 1];
  }

  lemma NoCrCrLfOfPrefix(whole: string, k: nat)
    requires NoCrCrLf(whole) && k <= |whole|
    ensures NoCrCrLf(whole[..k])
  {
  }

  lemma {:induction false} RemaindersAreClean(read: string)
    requires NoCrCrLf(read)
    ensures Clean(FeedAll(START, read).open) && TailsAgree(read, FeedAll(START, read).open)
    decreases |read|
  {
    if read != "" {
      var n := |read| - 1;
      var before, c := read[..n], read[n];
      NoCrCrLfOfPrefix(read, n);
      RemaindersAreClean(before);
      assert read == before + [c];
      FeedAllAppends(START, read, before, [c]);
      var p := FeedAll(START, before);
      assert FeedAll(p, [c]) == Feed(p, c);
      FeedKeepsClean(p, before, c);
    }
  }

  /** A clean remainder is read back as it is. */
  lemma {:induction false} CleanIsReadBack(open: string)
    requires Clean(open)
    ensures FeedAll(START, open) == Parse([], open)
    decreases |open|
  {
    if open != "" {
      var n := |open| - 1;
      var before, c := open[..n], open[n];
      assert forall i :: 0 <= i < n ==> before[i] == open[i];
      CleanIsReadBack(before);
      assert open == before + [c];
      FeedAllAppends(START, open, before, [c]);
      assert FeedAll(Parse([], before), [c]) == Feed(Parse([], before), c);
    }
  }

  lemma {:induction false} FeedAllKeepsChunks(p: Parse, s: string)
    ensures FeedAll(p, s) == Parse(p.chunks + FeedAll(Parse([], p.open), s).chunks, FeedAll(Parse([], p.open), s).open)
    decreases |s|
  {
    var q := Parse([], p.open);
    if s == "" {
      assert p.chunks + [] == p.chunks;
    } else {
      var f, g := Feed(p, s[0]), Feed(q, s[0]);
      assert f == Parse(p.chunks + g.chunks, g.open);
      FeedAllKeepsChunks(f, s[1..]);
      FeedAllKeepsChunks(g, s[1..]);
      var rest := FeedAll(Parse([], g.open), s[1..]);
      assert (p.chunks + g.chunks) + rest.chunks == p.chunks + (g.chunks + rest.chunks);
    }
  }

  lemma OneMoreRead(p: Parse, read: string)
    requires Clean(p.open)
    ensures var parsed := ParseBuffer(p.open + read);
            Parse(p.chunks + parsed.chunks, parsed.open) == FeedAll(p, read)
  {
    var buffer := p.open + read;
    ParsingIsFeeding(buffer);
    FeedAllAppends(START, buffer, p.open, read);
    CleanIsReadBack(p.open);
    FeedAllKeepsChunks(p, read);
  }

  lemma {:induction false} ReadsAreFed(received: seq<string>, done: string, rest: string)
    requires rest == Concat(received) && NoCrCrLf(done + rest)
    ensures ParseReads(received, FeedAll(START, done)) == FeedAll(FeedAll(START, done), rest)
    decreases |received|
  {
    var p := FeedAll(START, done);
    if received != [] {
      var more, tail := done + received[0], Concat(received[1..]);
      assert done + rest == more + tail;
      assert (done + rest)[..|done|] == done;
      NoCrCrLfOfPrefix(done + rest, |done|);
      RemaindersAreClean(done);
      OneMoreRead(p, received[0]);
      FeedAllAppends(START, more, done, received[0]);
      ReadsAreFed(received[1..], more, tail);
      FeedAllAppends(p, rest, received[0], tail);
    }
  }

  /** However the network cuts the text into reads, the client finds the chunks and the remainder
      that it would find in the whole text at once. */
  lemma ReadsParseAsTheWhole(received: seq<string>, text: string)
    requires text == Concat(received) && NoCrCrLf(text)
    ensures ParseReads(received, START) == ParseBuffer(text)
  {
    assert "" + text == text;
    ReadsAreFed(received, "", text);
    ParsingIsFeeding(text);
  }

  // ---- The condition is exact ------------------------------------------------------------

  /** The characters of a parse, separators included. */
  function Weight(p: Parse): nat {
    ChunkWeight(p.chunks) + |p.open|
  }

  function ChunkWeight(chunks: seq<string>): nat {
    if chunks == [] then 0 else ChunkWeight(chunks[..|chunks| - 1]) + |chunks[|chunks| - 1]| + 2
  }

  lemma PushWeighs(p: Parse, c: char)
    ensures Weight(Push(p, c)) == Weight(p) + 1
  {
    if c == '\n' && EndsWith(p.open, '\n') {
      var q := Push(p, c);
      assert q.chunks[..|q.chunks| - 1] == p.chunks;
    }
  }

  lemma {:induction false} PushAllWeighs(p: Parse, s: string)
    ensures Weight(PushAll(p, s)) == Weight(p) + |s|
    decreases |s|
  {
    if s != "" {
      PushWeighs(p, s[0]);
      PushAllWeighs(Push(p, s[0]), s[1..]);
    }
  }

  lemma {:induction false} NormalizeDropsTheReturn(u: string, rest: string, s: string)
    requires s == u + "\r\n" + rest
    ensures |Normalize(s)| <= |u| + 1 + |Normalize(rest)|
    decreases |u|
  {
    assert |s| == |u| + 2 + |rest| && s[|u|] == '\r';
    if u == "" {
      assert s[2..] == rest;
    } else if s[0] == '\r' && s[1] == '\n' {
      assert |u| >= 2;
      assert s[2..] == u[2..] + "\r\n" + rest;
      NormalizeDropsTheReturn(u[2..], rest, s[2..]);
    } else {
      assert s[1..] == u[1..] + "\r\n" + rest;
      NormalizeDropsTheReturn(u[1..], rest, s[1..]);
    }
  }

  lemma CrCrLfStays(p: Parse, t: string)
    requires t == "\r\r\n"
    ensures FeedAll(p, t) == Parse(p.chunks, p.open + "\r\n")
  {
    var q := Feed(p, '\r');
    var r := Feed(q, '\r');
    assert r.open[..|r.open| - 1] == q.open == p.open + "\r";
    assert Feed(r, '\n') == Parse(p.chunks, p.open + "\r" + "\n");
    assert p.open + "\r" + "\n" == p.open + "\r\n";
    var u, v := t[1..], t[1..][1..];
    assert v[1..] == "";
    assert FeedAll(p, t) == FeedAll(q, u);
    assert FeedAll(q, u) == FeedAll(r, v);
    assert FeedAll(r, v) == FeedAll(Feed(r, '\n'), v[1..]);
  }

  lemma ChunkWeightAppends(a: seq<string>, b: seq<string>)
    ensures ChunkWeight(a + b) == ChunkWeight(a) + ChunkWeight(b)
    decreases |b|
  {
    if b == [] {
      assert a + b == a;
    } else {
      assert (a + b)[..|a + b| - 1] == a + b[..|b| - 1];
      ChunkWeightAppends(a, b[..|b| - 1]);
    }
  }

  /** Two carriage returns before a line feed break the parser: when a read ends there, the
      remainder is normalized a second time. */
  lemma CrCrLfBreaksAtItsEnd(text: string, i: nat, head: string, rest: string)
    requires i + 2 < |text| && text[i] == '\r' && text[i + 1] == '\r' && text[i + 2] == '\n'
    requires head == text[..i + 3] && rest == text[i + 3..]
    ensures ParseReads([head, rest], START) != ParseBuffer(text)
  {
    var p := FeedAll(START, text[..i]);
    assert head == text[..i] + "\r\r\n";
    FeedAllAppends(START, head, text[..i], "\r\r\n");
    CrCrLfStays(p, "\r\r\n");
    var q := Parse(p.chunks, p.open + "\r\n");
    ParsingIsFeeding(head);
    // the whole text
    ParsingIsFeeding(text);
    FeedAllAppends(START, text, head, rest);
    FeedingNormalizes(q, rest);
    PushAllWeighs(q, Normalize(rest));
    assert Weight(ParseBuffer(text)) == ChunkWeight(p.chunks) + |p.open| + 2 + |Normalize(rest)|;
    // the two reads
    var buffer := q.open + rest;
    ParsingIsFeeding(buffer);
    FeedingNormalizes(START, buffer);
    PushAllWeighs(START, Normalize(buffer));
    NormalizeDropsTheReturn(p.open, rest, buffer);
    var parsed := ParseBuffer(buffer);
    ChunkWeightAppends(p.chunks, parsed.chunks);
    TwoReads(head, rest, q, parsed);
  }

  lemma TwoReads(head: string, rest: string, q: Parse, parsed: Parse)
    requires ParseBuffer(head) == q && ParseBuffer(q.open + rest) == parsed
    ensures ParseReads([head, rest], START) == Parse(q.chunks + parsed.chunks, parsed.open)
  {
    assert START.open + head == head;
    assert START.chunks + q.chunks == q.chunks;
    var both := [head, rest];
    var last := both[1..];
    assert last == [rest] && last[1..] == [];
    assert ParseReads(both, START) == ParseReads(last, q);
    assert ParseReads(last, q) == ParseReads(last[1..], Parse(q.chunks + parsed.chunks, parsed.open));
  }

  lemma ConcatTwo(head: string, rest: string)
    ensures Concat([head, rest]) == head + rest
  {
    var both, last := [head, rest], [rest];
    assert both[1..] == last && last[1..] == [];
    assert Concat(last) == rest + Concat(last[1..]);
    assert Concat(last) == rest;
    assert Concat(both) == head + Concat(both[1..]);
  }

  /** The parser is independent of the cuts exactly for the texts without two carriage returns
      before a line feed. */
  lemma IndependentOfCutsIff(text: string)
    ensures NoCrCrLf(text) <==>
              forall received :: Concat(received) == text ==> ParseReads(received, START) == ParseBuffer(text)
  {
    if NoCrCrLf(text) {
      forall received | Concat(received) == text
        ensures ParseReads(received, START) == ParseBuffer(text)
      {
        ReadsParseAsTheWhole(received, text);
      }
    } else {
      var i: nat :| i + 2 < |text| && text[i] == '\r' && text[i + 1] == '\r' && text[i + 2] == '\n';
      var head, rest := text[..i + 3], text[i + 3..];
      CrCrLfBreaksAtItsEnd(text, i, head, rest);
      ConcatTwo(head, rest);
      assert head + rest == text;
    }
  }
}
