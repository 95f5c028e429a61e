/** Splitting a document into overlapping chunks of words. `digest` stands for the truncated
    SHA-256 digest of a string. */
module Chunking {
  import opened Text

  datatype Document = Document(id: string, tenant: string, filename: string, mediaType: string, content: string)

  datatype Chunk = Chunk(
    id: string,
    documentId: string,
    tenant: string,
    filename: string,
    mediaType: string,
    position: nat,
    wordStart: nat,
    wordEnd: nat,
    content: string)

  datatype Settings = Settings(maxWords: int, overlapWords: int)

  datatype Outcome = BadSettings | ChunkTooLong | Chunks(chunks: seq<Chunk>)

  const MAX_CONTENT := 20000

  predicate ValidSettings(s: Settings) {
    s.maxWords >= 1 && 0 <= s.overlapWords < s.maxWords
  }

  function StepOf(s: Settings): int {
    s.maxWords - s.overlapWords
  }

  /** The number of chunks of `n` words: one, and one more per step needed beyond the first. */
  function Count(n: nat, s: Settings): (c: nat)
    requires ValidSettings(s)
  {
    if n == 0 then 0
    else if n <= s.maxWords then 1
    else 1 + (n - s.maxWords + StepOf(s) - 1) / StepOf(s)
  }

  function Start(k: nat, s: Settings): (i: int)
    requires ValidSettings(s)
    ensures i >= 0
  {
    MulNonnegative(k, StepOf(s));
    k * StepOf(s)
  }

  function End(n: nat, k: nat, s: Settings): int
    requires ValidSettings(s)
  {
    if Start(k, s) + s.maxWords < n then Start(k, s) + s.maxWords else n
  }

  lemma MulNonnegative(a: nat, b: nat)
    ensures a * b >= 0
  {
  }

  lemma DivisionBounds(x: nat, d: nat)
    requires d > 0
    ensures (x / d) * d <= x < (x / d) * d + d
  {
  }

  /** Rounding up: `k` is at most the quotient exactly when `k - 1` steps stay below `m`. */
  lemma CeilingBounds(m: nat, d: nat, k: nat)
    requires m > 0 && d > 0 && k > 0
    ensures k <= (m + d - 1) / d <==> (k - 1) * d < m
  {
    var q := (m + d - 1) / d;
    DivisionBounds(m + d - 1, d);
    if k <= q {
      MulMonotone(k, q, d);
      assert (k - 1) * d == k * d - d;
    } else {
      MulMonotone(q, k - 1, d);
    }
  }

  lemma CountBounds(n: nat, k: nat, s: Settings)
    requires ValidSettings(s)
    ensures k < Count(n, s) <==> n > 0 && (k == 0 || Start(k - 1, s) + s.maxWords < n)
  {
    if n > s.maxWords && k > 0 {
      CeilingBounds(n - s.maxWords, StepOf(s), k);
    } else if n > s.maxWords {
      DivisionBounds(n - s.maxWords + StepOf(s) - 1, StepOf(s));
      CeilingBounds(n - s.maxWords, StepOf(s), 1);
    } else if n > 0 && k > 0 {
      assert Start(k - 1, s) >= 0;
    }
  }

  lemma MulMonotone(a: nat, b: nat, d: nat)
    requires a <= b
    ensures a * d <= b * d
  {
  }

  /** The geometry of the chunks, for any number of words: the first starts at the first word and
      the last ends at the last one; every chunk has a word and at most `maxWords`; adjacent ones
      share exactly `overlapWords` words; and each adds a word that no earlier one had. */
  lemma ChunksTile(n: nat, k: nat, s: Settings)
    requires ValidSettings(s) && k < Count(n, s)
    ensures 0 <= Start(k, s) < End(n, k, s) <= n
    ensures End(n, k, s) - Start(k, s) <= s.maxWords
    ensures Start(0, s) == 0
    ensures k + 1 == Count(n, s) <==> End(n, k, s) == n
    ensures k + 1 < Count(n, s) ==> End(n, k, s) - Start(k + 1, s) == s.overlapWords
    ensures k + 1 < Count(n, s) ==> End(n, k, s) < End(n, k + 1, s)
  {
    CountBounds(n, k, s);
    CountBounds(n, k + 1, s);
    assert Start(k + 1, s) == Start(k, s) + StepOf(s);
    if k > 0 {
      assert Start(k, s) == Start(k - 1, s) + StepOf(s);
    }
  }

  // ---- Chunks ----------------------------------------------------------------------------

  function Identity(d: Document, position: nat, content: string): string {
    d.id + "\0" + Decimal(position) + "\0" + content
  }

  function ChunkContent(words: seq<string>, k: nat, s: Settings): string
    requires ValidSettings(s) && k < Count(|words|, s)
  {
    ChunksTile(|words|, k, s);
    Join(" ", words[Start(k, s)..End(|words|, k, s)])
  }

  function NewChunk(
    digest: string -> string, d: Document, position: nat, start: nat, end: nat, content: string): Chunk {
    Chunk("CHK-" + digest(Identity(d, position, content)), d.id, d.tenant, d.filename, d.mediaType,
          position, start, end, content)
  }

  function ChunkAt(digest: string -> string, d: Document, words: seq<string>, k: nat, s: Settings): Chunk
    requires ValidSettings(s) && k < Count(|words|, s)
  {
    ChunksTile(|words|, k, s);
    NewChunk(digest, d, k, Start(k, s), End(|words|, k, s), ChunkContent(words, k, s))
  }

  /** A chunk belongs to its document, says which of its words it holds, and holds exactly those. */
  predicate IsChunkOf(chunk: Chunk, d: Document, words: seq<string>) {
    && chunk.documentId == d.id && chunk.tenant == d.tenant
    && chunk.filename == d.filename && chunk.mediaType == d.mediaType
    && chunk.wordStart < chunk.wordEnd <= |words|
    && chunk.content == Join(" ", words[chunk.wordStart..chunk.wordEnd])
    && Words(chunk.content) == words[chunk.wordStart..chunk.wordEnd]
  }

  lemma ChunkHoldsItsWords(digest: string -> string, d: Document, s: Settings, k: nat)
    requires ValidSettings(s) && k < Count(|Words(d.content)|, s)
    ensures var words := Words(d.content);
      var chunk := ChunkAt(digest, d, words, k, s);
      IsChunkOf(chunk, d, words) && chunk.position == k && chunk.wordStart == k * (s.maxWords - s.overlapWords)
  {
    var words := Words(d.content);
    WordsAreWords(d.content);
    ChunksTile(|words|, k, s);
    WordsOfJoin(words[Start(k, s)..End(|words|, k, s)]);
  }

  predicate Fits(words: seq<string>, k: nat, s: Settings)
    requires ValidSettings(s) && k < Count(|words|, s)
  {
    |ChunkContent(words, k, s)| <= MAX_CONTENT
  }

  predicate AllFit(words: seq<string>, s: Settings)
    requires ValidSettings(s)
  {
    forall k :: 0 <= k < Count(|words|, s) ==> Fits(words, k, s)
  }

  /** A document is refused exactly for a chunk of more than 20,000 characters. */
  lemma FitsExactly(words: seq<string>, s: Settings)
    requires ValidSettings(s)
    ensures forall k :: 0 <= k < Count(|words|, s) ==> 0 <= Start(k, s) < End(|words|, k, s) <= |words|
    ensures AllFit(words, s) <==>
            forall k :: 0 <= k < Count(|words|, s) ==>
                          |Join(" ", words[Start(k, s)..End(|words|, k, s)])| <= 20_000
  {
    forall k | 0 <= k < Count(|words|, s)
      ensures 0 <= Start(k, s) < End(|words|, k, s) <= |words|
      ensures Fits(words, k, s) <==> |Join(" ", words[Start(k, s)..End(|words|, k, s)])| <= 20_000
    {
      ChunksTile(|words|, k, s);
    }
  }

  /** Walks over the words in steps until a chunk reaches the end; the chunk's schema refuses a
      text that is too long. */
  method ChunkDocument(digest: string -> string, d: Document, s: Settings) returns (r: Outcome)
    ensures r.BadSettings? <==> s.maxWords < 1 || s.overlapWords < 0 || s.overlapWords >= s.maxWords
    ensures ValidSettings(s) ==> (r.ChunkTooLong? <==> !AllFit(Words(d.content), s))
    ensures ValidSettings(s) && r.Chunks? ==>
              var words := Words(d.content);
              |r.chunks| == Count(|words|, s)
              && forall k :: 0 <= k < |r.chunks| ==>
                   r.chunks[k] == ChunkAt(digest, d, words, k, s) && IsChunkOf(r.chunks[k], d, words)
  {
    if s.maxWords < 1 || s.overlapWords < 0 || s.overlapWords >= s.maxWords {
      return BadSettings;
    }
    var words := Words(d.content);
    var n, step := |words|, s.maxWords - s.overlapWords;
    var chunks: seq<Chunk> := [];
    var position, wordStart := 0, 0;
    while wordStart < n
      invariant wordStart == Start(position, s)
      invariant n > 0 ==> position < Count(n, s)
      invariant |chunks| == position
      invariant forall k :: 0 <= k < position ==>
                  && k < Count(n, s) && Fits(words, k, s)
                  && chunks[k] == ChunkAt(digest, d, words, k, s) && IsChunkOf(chunks[k], d, words)
      invariant if n > 0 then wordStart < n else position == 0
      decreases n - wordStart
    {
      ChunksTile(n, position, s);
      var wordEnd := if wordStart + s.maxWords < n then wordStart + s.maxWords else n;
      var content := Join(" ", words[wordStart..wordEnd]);
      assert content == ChunkContent(words, position, s);
      if |content| > MAX_CONTENT {
        assert !Fits(words, position, s) && !AllFit(words, s);
        return ChunkTooLong;
      }
      var chunk := NewChunk(digest, d, position, wordStart, wordEnd, content);
      assert chunk == ChunkAt(digest, d, words, position, s);
      ChunkHoldsItsWords(digest, d, s, position);
      chunks := chunks + [chunk];
      if wordEnd == n {
        return Chunks(chunks);
      }
      ChunksTile(n, position + 1, s);
      assert Start(position + 1, s) == Start(position, s) + step;
      position, wordStart := position + 1, wordStart + step;
    }
    return Chunks(chunks);
  }

  // ---- Nothing is lost -------------------------------------------------------------------

  /** The word lists joined again: all of the first, and each later one without its overlap. */
  function Rejoined(pieces: seq<seq<string>>, overlap: nat): seq<string> {
    if pieces == [] then []
    else if |pieces| == 1 then pieces[0]
    else
      var last := pieces[|pieces| - 1];
      Rejoined(pieces[..|pieces| - 1], overlap) + if overlap <= |last| then last[overlap..] else []
  }

  /** The words of the first `k` chunks' texts. */
  function Pieces(words: seq<string>, k: nat, s: Settings): (r: seq<seq<string>>)
    requires ValidSettings(s) && k <= Count(|words|, s)
    ensures |r| == k
    ensures forall i :: 0 <= i < k ==> r[i] == Words(ChunkContent(words, i, s))
  {
    seq(k, i requires 0 <= i < k => Words(ChunkContent(words, i, s)))
  }

  lemma PieceIsSlice(words: seq<string>, k: nat, s: Settings)
    requires ValidSettings(s) && k < Count(|words|, s)
    requires forall i :: 0 <= i < |words| ==> IsWord(words[i])
    ensures 0 <= Start(k, s) < End(|words|, k, s) <= |words|
    ensures Words(ChunkContent(words, k, s)) == words[Start(k, s)..End(|words|, k, s)]
  {
    ChunksTile(|words|, k, s);
    WordsOfJoin(words[Start(k, s)..End(|words|, k, s)]);
  }

  lemma RejoinedStep(pieces: seq<seq<string>>, before: seq<seq<string>>, overlap: nat)
    requires |pieces| > 1 && before == pieces[..|pieces| - 1]
    requires overlap <= |pieces[|pieces| - 1]|
    ensures Rejoined(pieces, overlap) == Rejoined(before, overlap) + pieces[|pieces| - 1][overlap..]
  {
  }

  lemma DropOverlap(words: seq<string>, start: nat, before: nat, end: nat)
    requires start <= before <= end <= |words|
    ensures before - start <= |words[start..end]|
    ensures words[..before] + words[start..end][before - start..] == words[..end]
  {
    assert words[start..end][before - start..] == words[before..end];
  }

  lemma {:induction false} RejoinedPrefix(words: seq<string>, k: nat, s: Settings)
    requires ValidSettings(s) && 0 < k <= Count(|words|, s)
    requires forall i :: 0 <= i < |words| ==> IsWord(words[i])
    ensures 0 <= End(|words|, k - 1, s) <= |words|
    ensures Rejoined(Pieces(words, k, s), s.overlapWords) == words[..End(|words|, k - 1, s)]
  {
    var n := |words|;
    PieceIsSlice(words, k - 1, s);
    ChunksTile(n, k - 1, s);
    if k > 1 {
      RejoinedPrefix(words, k - 1, s);
      ChunksTile(n, k - 2, s);
      var pieces := Pieces(words, k, s);
      RejoinedStep(pieces, Pieces(words, k - 1, s), s.overlapWords);
      DropOverlap(words, Start(k - 1, s), End(n, k - 2, s), End(n, k - 1, s));
    }
  }

  /** Chunking loses nothing: the words of the chunks' texts, overlaps dropped, are the words of
      the document. */
  lemma ChunksGiveBackTheWords(content: string, s: Settings)
    requires ValidSettings(s)
    ensures var words := Words(content);
            Rejoined(Pieces(words, Count(|words|, s), s), s.overlapWords) == words
  {
    WordsAreWords(content);
    AllPiecesRejoin(Words(content), s);
  }

  lemma AllPiecesRejoin(words: seq<string>, s: Settings)
    requires ValidSettings(s) && forall i :: 0 <= i < |words| ==> IsWord(words[i])
    ensures Rejoined(Pieces(words, Count(|words|, s), s), s.overlapWords) == words
  {
    if words != [] {
      var count := Count(|words|, s);
      CountBounds(|words|, 0, s);
      RejoinedPrefix(words, count, s);
      ChunksTile(|words|, count - 1, s);
      assert words[..|words|] == words;
    }
  }

  /** With a collision-free digest a chunk's id identifies its document, position and text. */
  lemma ChunkIdsIdentify(digest: string -> string, d: Document, i: nat, x: string, e: Document, j: nat, y: string)
    requires forall a, b :: digest(a) == digest(b) ==> a == b
    requires '\0' !in d.id && '\0' !in e.id
    ensures digest(Identity(d, i, x)) == digest(Identity(e, j, y)) <==> d.id == e.id && i == j && x == y
  {
    if Identity(d, i, x) == Identity(e, j, y) {
      DecimalIsDigits(i);
      DecimalIsDigits(j);
      assert Identity(d, i, x) == d.id + "\0" + (Decimal(i) + "\0" + x);
      assert Identity(e, j, y) == e.id + "\0" + (Decimal(j) + "\0" + y);
      FirstSeparator('\0', d.id, Decimal(i) + "\0" + x, e.id, Decimal(j) + "\0" + y);
      FirstSeparator('\0', Decimal(i), x, Decimal(j), y);
      DecimalIsInjective(i, j);
    }
  }
}
