/** Streaming a run's progress: the server's polling loop, the frames it writes, the client's loop
    over what the network delivers, and what the two do together. */
module ProgressStream {
  import opened Evidence
  import opened SseParser
  import Text

  // ---- Frames ----------------------------------------------------------------------------

  datatype Frame = Frame(event: string, data: string)

  /** The characters that JavaScript's `trim` removes. */
  predicate IsJsSpace(c: char) {
    || '\t' <= c <= '\r' || c == ' ' || c == '\U{A0}' || c == '\U{1680}'
    || '\U{2000}' <= c <= '\U{200A}'
    || c == '\U{2028}' || c == '\U{2029}' || c == '\U{202F}' || c == '\U{205F}' || c == '\U{3000}' || c == '\U{FEFF}'
  }

  function TrimStart(s: string): string {
    if s != "" && IsJsSpace(s[0]) then TrimStart(s[1..]) else s
  }

  function TrimEnd(s: string): string {
    if s != "" && IsJsSpace(s[|s| - 1]) then TrimEnd(s[..|s| - 1]) else s
  }

  /** `split("\n")`. */
  function Lines(s: string, open: string): seq<string>
    decreases |s|
  {
    if s == "" then [open]
    else if s[0] == '\n' then [open] + Lines(s[1..], "")
    else Lines(s[1..], open + [s[0]])
  }

  datatype Fields = Fields(event: string, data: seq<string>)

  /** The last event name and all the data lines. */
  function FieldsOf(lines: seq<string>): Fields {
    if lines == [] then Fields("message", [])
    else
      var before, line := FieldsOf(lines[..|lines| - 1]), lines[|lines| - 1];
      if "event:" <= line then before.(event := TrimEnd(TrimStart(line[6..])))
      else if "data:" <= line then before.(data := before.data + [TrimStart(line[5..])])
      else before
  }

  /** A chunk without data is no frame. */
  function FrameOf(chunk: string): seq<Frame> {
    var fields := FieldsOf(Lines(chunk, ""));
    if fields.data == [] then [] else [Frame(fields.event, Text.Join("\n", fields.data))]
  }

  function FramesOf(chunks: seq<string>): seq<Frame> {
    if chunks == [] then [] else FramesOf(chunks[..|chunks| - 1]) + FrameOf(chunks[|chunks| - 1])
  }

  method ReadFields(lines: seq<string>) returns (event: string, data: seq<string>)
    ensures Fields(event, data) == FieldsOf(lines)
  {
    event, data := "message", [];
    for j := 0 to |lines|
      invariant Fields(event, data) == FieldsOf(lines[..j])
    {
      assert lines[..j + 1][..j] == lines[..j];
      if "event:" <= lines[j] {
        event := TrimEnd(TrimStart(lines[j][6..]));
      } else if "data:" <= lines[j] {
        data := data + [TrimStart(lines[j][5..])];
      }
    }
    assert lines[..|lines|] == lines;
  }

  method ParseSseFrames(buffer: string) returns (frames: seq<Frame>, remainder: string)
    ensures frames == FramesOf(ParseBuffer(buffer).chunks) && remainder == ParseBuffer(buffer).open
  {
    var parsed := ParseBuffer(buffer);
    frames := [];
    for i := 0 to |parsed.chunks|
      invariant frames == FramesOf(parsed.chunks[..i])
    {
      assert parsed.chunks[..i + 1][..i] == parsed.chunks[..i];
      var lines := Lines(parsed.chunks[i], "");
      var event, data := ReadFields(lines);
      if data != [] {
        frames := frames + [Frame(event, Text.Join("\n", data))];
      } else {
        assert frames + [] == frames;
      }
    }
    assert parsed.chunks[..|parsed.chunks|] == parsed.chunks;
    remainder := parsed.open;
  }

  // ---- The client ------------------------------------------------------------------------

  /** What the caller sees: the progress payloads passed to its callback and, if the stream
      reported one, the error payload it was thrown (with status 503). */
  datatype Delivery = Delivery(callbacks: seq<string>, failure: Option<string>)

  function Deliver(before: Delivery, frame: Frame): Delivery {
    if before.failure.Some? then before
    else if frame.event == "progress" then before.(callbacks := before.callbacks + [frame.data])
    else if frame.event == "error" || frame.event == "not_found" then before.(failure := Some(frame.data))
    else before
  }

  function DeliverAll(before: Delivery, frames: seq<Frame>): Delivery {
    if frames == [] then before else Deliver(DeliverAll(before, frames[..|frames| - 1]), frames[|frames| - 1])
  }

  const NOTHING := Delivery([], None)

  lemma {:induction false} DeliverAllAppends(before: Delivery, a: seq<Frame>, b: seq<Frame>)
    ensures DeliverAll(before, a + b) == DeliverAll(DeliverAll(before, a), b)
    decreases |b|
  {
    if b == [] {
      assert a + b == a;
    } else {
      assert (a + b)[..|a + b| - 1] == a + b[..|b| - 1];
      DeliverAllAppends(before, a, b[..|b| - 1]);
    }
  }

  lemma {:induction false} NothingAfterFailure(before: Delivery, frames: seq<Frame>)
    requires before.failure.Some?
    ensures DeliverAll(before, frames) == before
    decreases |frames|
  {
    if frames != [] {
      NothingAfterFailure(before, frames[..|frames| - 1]);
    }
  }

  lemma {:induction false} FramesOfAppends(a: seq<string>, b: seq<string>)
    ensures FramesOf(a + b) == FramesOf(a) + FramesOf(b)
    decreases |b|
  {
    if b == [] {
      assert a + b == a;
    } else {
      assert (a + b)[..|a + b| - 1] == a + b[..|b| - 1];
      FramesOfAppends(a, b[..|b| - 1]);
    }
  }

  lemma {:induction false} ReadsAddChunks(received: seq<string>, before: Parse) returns (more: seq<string>)
    ensures ParseReads(received, before).chunks == before.chunks + more
    decreases |received|
  {
    if received == [] {
      more := [];
    } else {
      var parsed := ParseBuffer(before.open + received[0]);
      var rest := ReadsAddChunks(received[1..], Parse(before.chunks + parsed.chunks, parsed.open));
      more := parsed.chunks + rest;
    }
  }

  /** What the client delivers of the reads it gets. */
  function Delivered(received: seq<string>): Delivery {
    DeliverAll(NOTHING, FramesOf(ParseReads(received, START).chunks))
  }

  lemma FailureIsFinal(received: seq<string>, p: Parse)
    requires DeliverAll(NOTHING, FramesOf(p.chunks)).failure.Some?
    ensures DeliverAll(NOTHING, FramesOf(ParseReads(received, p).chunks)) == DeliverAll(NOTHING, FramesOf(p.chunks))
  {
    var more := ReadsAddChunks(received, p);
    FramesOfAppends(p.chunks, more);
    DeliverAllAppends(NOTHING, FramesOf(p.chunks), FramesOf(more));
    NothingAfterFailure(DeliverAll(NOTHING, FramesOf(p.chunks)), FramesOf(more));
  }

  lemma NextFrames(chunks: seq<string>, more: seq<string>)
    ensures DeliverAll(NOTHING, FramesOf(chunks + more))
            == DeliverAll(DeliverAll(NOTHING, FramesOf(chunks)), FramesOf(more))
  {
    FramesOfAppends(chunks, more);
    DeliverAllAppends(NOTHING, FramesOf(chunks), FramesOf(more));
  }

  /** Handles the frames of one read until one of them reports an error. */
  method HandleFrames(before: Delivery, frames: seq<Frame>) returns (delivery: Delivery)
    requires before.failure.None?
    ensures delivery == DeliverAll(before, frames)
  {
    delivery := before;
    for i := 0 to |frames|
      invariant delivery == DeliverAll(before, frames[..i]) && delivery.failure.None?
    {
      assert frames[..i + 1][..i] == frames[..i];
      if frames[i].event == "progress" {
        delivery := delivery.(callbacks := delivery.callbacks + [frames[i].data]);
      } else if frames[i].event == "error" || frames[i].event == "not_found" {
        delivery := delivery.(failure := Some(frames[i].data));
        assert frames == frames[..i + 1] + frames[i + 1..];
        DeliverAllAppends(before, frames[..i + 1], frames[i + 1..]);
        NothingAfterFailure(delivery, frames[i + 1..]);
        return;
      }
    }
    assert frames[..|frames|] == frames;
  }

  /** Parses each read with the remainder before it and handles the frames it completes, until an
      error frame or the end of the stream. */
  method StreamResearchProgress(received: seq<string>) returns (delivery: Delivery)
    ensures delivery == Delivered(received)
  {
    delivery := NOTHING;
    var buffer := "";
    ghost var chunks: seq<string> := [];
    for i := 0 to |received|
      invariant delivery == DeliverAll(NOTHING, FramesOf(chunks)) && delivery.failure.None?
      invariant ParseReads(received[i..], Parse(chunks, buffer)) == ParseReads(received, START)
    {
      assert received[i..][1..] == received[i + 1..];
      var text := buffer + received[i];
      var frames, remainder := ParseSseFrames(text);
      NextFrames(chunks, ParseBuffer(text).chunks);
      chunks := chunks + ParseBuffer(text).chunks;
      buffer := remainder;
      delivery := HandleFrames(delivery, frames);
      if delivery.failure.Some? {
        FailureIsFinal(received[i + 1..], Parse(chunks, buffer));
        return;
      }
    }
    assert received[|received|..] == [];
  }

  // ---- The server ------------------------------------------------------------------------

  datatype Poll =
    | Unavailable
    | Missing
    | Progress(payload: string, terminal: bool, at: real)

  /** What the server writes. */
  datatype Event = Sent(payload: string) | Keepalive | Failed(name: string, payload: string)

  /** The JSON text of an object with a `detail`. */
  function Detail(text: string): string {
    "{\"detail\":\"" + text + "\"}"
  }

  const UNAVAILABLE := Failed("error", Detail("Research progress is " + "temporarily unavailable."))
  const MISSING := Failed("not_found", Detail("Research progress was not found."))

  function Body(e: Event): string {
    match e
    case Sent(payload) => "event: progress" + "\n" + ("data: " + payload)
    case Keepalive => ": keepalive"
    case Failed(name, payload) => ("event: " + name) + "\n" + ("data: " + payload)
  }

  function Encode(e: Event): string {
    Body(e) + "\n\n"
  }

  function EncodeAll(events: seq<Event>): seq<string> {
    if events == [] then [] else EncodeAll(events[..|events| - 1]) + [Encode(events[|events| - 1])]
  }

  /** What one successful poll makes the server send. */
  function Reaction(payload: string, previous: Option<string>, silence: real, heartbeat: real): seq<Event> {
    if Some(payload) != previous then [Sent(payload)] else if silence >= heartbeat then [Keepalive] else []
  }

  function LastSent(reaction: seq<Event>, at: real, lastSent: real): real {
    if reaction == [] then lastSent else at
  }

  /** The events the server sends while it polls. */
  function Events(polls: seq<Poll>, previous: Option<string>, lastSent: real, heartbeat: real): seq<Event>
    decreases |polls|
  {
    if polls == [] then []
    else
      match polls[0]
      case Unavailable => [UNAVAILABLE]
      case Missing => [MISSING]
      case Progress(payload, terminal, at) =>
        var reaction := Reaction(payload, previous, at - lastSent, heartbeat);
        reaction
        + if terminal then []
          else Events(polls[1..], Some(payload), LastSent(reaction, at, lastSent), heartbeat)
  }

  /** The same, onto what was sent already. */
  function EventsAfter(
    sent: seq<Event>, polls: seq<Poll>, previous: Option<string>, lastSent: real, heartbeat: real): seq<Event>
    decreases |polls|
  {
    if polls == [] then sent
    else
      match polls[0]
      case Unavailable => sent + [UNAVAILABLE]
      case Missing => sent + [MISSING]
      case Progress(payload, terminal, at) =>
        var reaction := Reaction(payload, previous, at - lastSent, heartbeat);
        if terminal then sent + reaction
        else EventsAfter(sent + reaction, polls[1..], Some(payload), LastSent(reaction, at, lastSent), heartbeat)
  }

  lemma {:induction false} EventsAfterAppends(
    sent: seq<Event>, polls: seq<Poll>, previous: Option<string>, lastSent: real, heartbeat: real)
    ensures EventsAfter(sent, polls, previous, lastSent, heartbeat)
            == sent + Events(polls, previous, lastSent, heartbeat)
    decreases |polls|
  {
    if polls == [] {
      assert sent + [] == sent;
    } else if polls[0].Progress? {
      var payload, at := polls[0].payload, polls[0].at;
      var reaction := Reaction(payload, previous, at - lastSent, heartbeat);
      if polls[0].terminal {
        assert reaction + [] == reaction;
      } else {
        var next := LastSent(reaction, at, lastSent);
        EventsAfterAppends(sent + reaction, polls[1..], Some(payload), next, heartbeat);
        Text.Regroup(sent, reaction, Events(polls[1..], Some(payload), next, heartbeat));
      }
    }
  }

  /** What the server remembers between polls: the last payload, and when it last sent something. */
  datatype Memory = Memory(previous: Option<string>, lastSent: real)

  function Remembered(polls: seq<Poll>, m: Memory, heartbeat: real): Memory
    decreases |polls|
  {
    if polls == [] || !polls[0].Progress? then m
    else
      var reaction := Reaction(polls[0].payload, m.previous, polls[0].at - m.lastSent, heartbeat);
      Remembered(polls[1..], Memory(Some(polls[0].payload), LastSent(reaction, polls[0].at, m.lastSent)), heartbeat)
  }

  /** Every poll found the run going on. */
  predicate Going(polls: seq<Poll>) {
    forall i :: 0 <= i < |polls| ==> polls[i].Progress? && !polls[i].terminal
  }

  lemma {:induction false} OneMorePoll(polls: seq<Poll>, poll: Poll, m: Memory, heartbeat: real)
    requires Going(polls) && poll.Progress?
    ensures var after := Remembered(polls, m, heartbeat);
      Events(polls + [poll], m.previous, m.lastSent, heartbeat)
      == Events(polls, m.previous, m.lastSent, heartbeat)
         + Reaction(poll.payload, after.previous, poll.at - after.lastSent, heartbeat)
    ensures var after := Remembered(polls, m, heartbeat);
      var reaction := Reaction(poll.payload, after.previous, poll.at - after.lastSent, heartbeat);
      Remembered(polls + [poll], m, heartbeat)
      == Memory(Some(poll.payload), LastSent(reaction, poll.at, after.lastSent))
    decreases |polls|
  {
    if polls == [] {
      assert (polls + [poll])[1..] == [];
      var reaction := Reaction(poll.payload, m.previous, poll.at - m.lastSent, heartbeat);
      assert reaction + [] == reaction && [] + reaction == reaction;
    } else {
      assert (polls + [poll])[1..] == polls[1..] + [poll];
      var first := Reaction(polls[0].payload, m.previous, polls[0].at - m.lastSent, heartbeat);
      var m' := Memory(Some(polls[0].payload), LastSent(first, polls[0].at, m.lastSent));
      OneMorePoll(polls[1..], poll, m', heartbeat);
      var after := Remembered(polls[1..], m', heartbeat);
      Text.Regroup(first, Events(polls[1..], m'.previous, m'.lastSent, heartbeat),
                   Reaction(poll.payload, after.previous, poll.at - after.lastSent, heartbeat));
    }
  }

  /** Everything sent after the first `k` polls. */
  function SentBy(polls: seq<Poll>, k: nat, start: real, heartbeat: real): seq<Event>
    requires k <= |polls|
  {
    Events(polls[..k], None, start, heartbeat)
  }

  /** The j-th poll is the last of the first `i` that something was sent at; -1 if there is none. */
  ghost predicate LastSending(polls: seq<Poll>, i: nat, j: int, start: real, heartbeat: real)
    requires i <= |polls|
  {
    && -1 <= j < i
    && (j >= 0 ==> SentBy(polls, j + 1, start, heartbeat) != SentBy(polls, j, start, heartbeat))
    && forall k: nat :: j < k < i ==> SentBy(polls, k + 1, start, heartbeat) == SentBy(polls, k, start, heartbeat)
  }

  lemma PollByPoll(polls: seq<Poll>, i: nat, start: real, heartbeat: real)
    requires i < |polls| && Going(polls[..i]) && polls[i].Progress?
    ensures var after := Remembered(polls[..i], Memory(None, start), heartbeat);
      var reaction := Reaction(polls[i].payload, after.previous, polls[i].at - after.lastSent, heartbeat);
      && SentBy(polls, i + 1, start, heartbeat) == SentBy(polls, i, start, heartbeat) + reaction
      && Remembered(polls[..i + 1], Memory(None, start), heartbeat) ==
         Memory(Some(polls[i].payload), LastSent(reaction, polls[i].at, after.lastSent))
  {
    assert polls[..i + 1] == polls[..i] + [polls[i]];
    OneMorePoll(polls[..i], polls[i], Memory(None, start), heartbeat);
  }

  lemma GoingBefore(polls: seq<Poll>, i: nat, j: nat)
    requires j < i <= |polls| && Going(polls[..i])
    ensures Going(polls[..j]) && polls[j].Progress?
  {
    assert forall k :: 0 <= k < i ==> polls[..i][k] == polls[k];
  }

  lemma {:induction false} RemembersTheLastSending(polls: seq<Poll>, i: nat, j: int, start: real, heartbeat: real)
    requires i <= |polls| && Going(polls[..i]) && LastSending(polls, i, j, start, heartbeat)
    ensures j >= 0 ==> polls[j].Progress?
    ensures i > 0 ==> polls[i - 1].Progress?
    ensures Remembered(polls[..i], Memory(None, start), heartbeat)
            == Memory(if i == 0 then None else Some(polls[i - 1].payload), if j < 0 then start else polls[j].at)
  {
    if j >= 0 {
      GoingBefore(polls, i, j);
    }
    if i > 0 {
      GoingBefore(polls, i, i - 1);
      PollByPoll(polls, i - 1, start, heartbeat);
      if SentBy(polls, i, start, heartbeat) == SentBy(polls, i - 1, start, heartbeat) {
        RemembersTheLastSending(polls, i - 1, j, start, heartbeat);
      }
    }
  }

  /** There always is such a poll, or none before. */
  lemma {:induction false} LastSendingExists(polls: seq<Poll>, i: nat, start: real, heartbeat: real) returns (j: int)
    requires i <= |polls|
    ensures LastSending(polls, i, j, start, heartbeat)
  {
    if i == 0 {
      j := -1;
    } else if SentBy(polls, i, start, heartbeat) != SentBy(polls, i - 1, start, heartbeat) {
      j := i - 1;
    } else {
      j := LastSendingExists(polls, i - 1, start, heartbeat);
    }
  }

  /** At every poll of a run in progress the server sends the payload if it is a new one, and otherwise a
      keepalive exactly if nothing was sent for `heartbeat`. */
  lemma SendsExactly(polls: seq<Poll>, i: nat, j: int, start: real, heartbeat: real)
    requires i < |polls| && Going(polls[..i]) && polls[i].Progress?
    requires LastSending(polls, i, j, start, heartbeat)
    ensures j >= 0 ==> polls[j].Progress?
    ensures i > 0 ==> polls[i - 1].Progress?
    ensures var sent := SentBy(polls, i + 1, start, heartbeat);
      var silence := polls[i].at - if j < 0 then start else polls[j].at;
      sent == SentBy(polls, i, start, heartbeat)
              + if i == 0 || polls[i].payload != polls[i - 1].payload then [Sent(polls[i].payload)]
                else if silence < heartbeat then []
                else [Keepalive]
  {
    PollByPoll(polls, i, start, heartbeat);
    RemembersTheLastSending(polls, i, j, start, heartbeat);
  }

  /** Polls until the run is over or its progress cannot be read, sending what changed and a
      keepalive after too long a silence. */
  method ResearchProgressEvents(polls: seq<Poll>, start: real, heartbeat: real) returns (frames: seq<string>)
    ensures frames == EncodeAll(Events(polls, None, start, heartbeat))
  {
    frames := [];
    var previous: Option<string> := None;
    var lastSent := start;
    ghost var sent: seq<Event> := [];
    EventsAfterAppends([], polls, None, start, heartbeat);
    assert [] + Events(polls, None, start, heartbeat) == Events(polls, None, start, heartbeat);
    for i := 0 to |polls|
      invariant frames == EncodeAll(sent)
      invariant EventsAfter(sent, polls[i..], previous, lastSent, heartbeat) == Events(polls, None, start, heartbeat)
    {
      assert polls[i..][1..] == polls[i + 1..];
      match polls[i] {
        case Unavailable =>
          EncodeOneMore(sent, UNAVAILABLE);
          frames := frames + [Encode(UNAVAILABLE)];
          return;
        case Missing =>
          EncodeOneMore(sent, MISSING);
          frames := frames + [Encode(MISSING)];
          return;
        case Progress(payload, terminal, at) =>
          ghost var reaction := Reaction(payload, previous, at - lastSent, heartbeat);
          if Some(payload) != previous {
            EncodeOneMore(sent, Sent(payload));
            frames := frames + [Encode(Sent(payload))];
            previous := Some(payload);
            lastSent := at;
          } else if at - lastSent >= heartbeat {
            EncodeOneMore(sent, Keepalive);
            frames := frames + [Encode(Keepalive)];
            lastSent := at;
          } else {
            assert sent + [] == sent;
          }
          sent := sent + reaction;
          if terminal {
            return;
          }
      }
    }
  }

  lemma EncodeOneMore(sent: seq<Event>, e: Event)
    ensures EncodeAll(sent + [e]) == EncodeAll(sent) + [Encode(e)]
  {
    assert (sent + [e])[..|sent|] == sent;
  }

  // ---- One frame through the parser ------------------------------------------------------

  /** The text of a JSON object as the server writes it: no line breaks, a brace first. */
  predicate IsJsonObject(payload: string) {
    '\n' !in payload && '\r' !in payload && payload != "" && payload[0] == '{'
  }

  predicate Sendable(e: Event) {
    match e
    case Sent(payload) => IsJsonObject(payload)
    case Keepalive => true
    case Failed(name, payload) => (name == "error" || name == "not_found") && IsJsonObject(payload)
  }

  /** A printable ASCII text. */
  predicate IsPlain(text: string) {
    forall i :: 0 <= i < |text| ==> ' ' <= text[i] <= '~'
  }

  lemma DetailIsJson(text: string)
    requires IsPlain(text)
    ensures IsJsonObject(Detail(text))
  {
    var before, after: string := "{\"detail\":\"", "\"}";
    assert IsPlain(before) && IsPlain(after);
    var whole := Detail(text);
    assert whole == before + text + after;
    assert forall i :: 0 <= i < |before| ==> whole[i] == before[i];
    assert forall i :: |before| <= i < |before| + |text| ==> whole[i] == text[i - |before|];
    assert forall i :: |before| + |text| <= i < |whole| ==> whole[i] == after[i - |before| - |text|];
    assert IsPlain(whole);
  }

  lemma DetailOfTwoIsJson(first: string, second: string)
    requires IsPlain(first) && IsPlain(second)
    ensures IsJsonObject(Detail(first + second))
  {
    DetailIsJson(first + second);
  }

  lemma UnavailableIsSendable()
    ensures Sendable(UNAVAILABLE)
  {
    DetailOfTwoIsJson("Research progress is ", "temporarily unavailable.");
  }

  lemma MissingIsSendable()
    ensures Sendable(MISSING)
  {
    DetailIsJson("Research progress was not found.");
  }

  lemma FailuresAreSendable()
    ensures Sendable(UNAVAILABLE) && Sendable(MISSING)
  {
    UnavailableIsSendable();
    MissingIsSendable();
  }

  /** A chunk of lines, none of them blank, written without carriage returns. */
  predicate IsChunk(body: string) {
    body != "" && '\r' !in body && NoPair(body, '\n', '\n') && !EndsWith(body, '\n')
  }

  lemma TwoLinesAreAChunk(a: string, b: string)
    requires a != "" && b != "" && '\n' !in a && '\n' !in b && '\r' !in a && '\r' !in b
    ensures IsChunk(a + "\n" + b)
  {
    var body := a + "\n" + b;
    forall i | 0 <= i < |body| - 1
      ensures !(body[i] == '\n' && body[i + 1] == '\n')
    {
      if i < |a| {
        assert body[i] == a[i];
      } else {
        assert body[i + 1] == b[i - |a|];
      }
    }
    assert body[|body| - 1] == b[|b| - 1];
  }

  lemma BodyIsChunk(e: Event)
    requires Sendable(e)
    ensures IsChunk(Body(e))
  {
    match e
    case Sent(payload) => TwoLinesAreAChunk("event: progress", "data: " + payload);
    case Keepalive =>
    case Failed(name, payload) => TwoLinesAreAChunk("event: " + name, "data: " + payload);
  }

  lemma {:induction false} FeedChunk(p: Parse, open: string, body: string)
    requires p.open == open && '\r' !in open + body && NoPair(open + body, '\n', '\n')
    ensures FeedAll(p, body) == Parse(p.chunks, open + body)
    decreases |body|
  {
    if body == "" {
      assert open + body == open;
    } else {
      var whole := open + body;
      assert whole[|open|] == body[0];
      if open != "" {
        assert whole[|open| - 1] == open[|open| - 1];
      }
      assert Feed(p, body[0]) == Parse(p.chunks, open + [body[0]]);
      assert open + [body[0]] + body[1..] == whole;
      FeedChunk(Feed(p, body[0]), open + [body[0]], body[1..]);
    }
  }

  lemma FeedBlankLine(p: Parse)
    requires p.open != "" && !EndsWith(p.open, '\n') && !EndsWith(p.open, '\r')
    ensures FeedAll(p, "\n\n") == Parse(p.chunks + [p.open], "")
  {
    var text := "\n\n";
    var q := Feed(p, '\n');
    assert q == Parse(p.chunks, p.open + "\n");
    assert q.open[..|q.open| - 1] == p.open;
    assert Feed(q, '\n') == Parse(p.chunks + [p.open], "");
    assert text[1..] == "\n" && text[1..][1..] == "";
    assert FeedAll(p, text) == FeedAll(q, text[1..]);
  }

  /** A written frame comes out of the parser as the chunk that went in, whatever came before. */
  lemma FeedFrame(chunks: seq<string>, e: Event)
    requires Sendable(e)
    ensures FeedAll(Parse(chunks, ""), Encode(e)) == Parse(chunks + [Body(e)], "")
  {
    var body, p := Body(e), Parse(chunks, "");
    BodyIsChunk(e);
    assert "" + body == body;
    FeedChunk(p, "", body);
    FeedAllAppends(p, Encode(e), body, "\n\n");
    assert !EndsWith(body, '\r');
    FeedBlankLine(Parse(chunks, body));
  }

  function Bodies(events: seq<Event>): seq<string> {
    if events == [] then [] else Bodies(events[..|events| - 1]) + [Body(events[|events| - 1])]
  }

  predicate AllSendable(events: seq<Event>) {
    forall i :: 0 <= i < |events| ==> Sendable(events[i])
  }

  lemma {:induction false} ConcatAppends(parts: seq<string>, last: string)
    ensures Concat(parts + [last]) == Concat(parts) + last
  {
    if parts == [] {
      assert [last][1..] == [];
      assert last + "" == last;
      assert parts + [last] == [last];
    } else {
      ConcatAppends(parts[1..], last);
      assert (parts + [last])[1..] == parts[1..] + [last];
      assert parts[0] + (Concat(parts[1..]) + last) == (parts[0] + Concat(parts[1..])) + last;
    }
  }

  lemma {:induction false} FeedFrames(events: seq<Event>, text: string)
    requires AllSendable(events) && text == Concat(EncodeAll(events))
    ensures FeedAll(START, text) == Parse(Bodies(events), "")
    ensures '\r' !in text
    decreases |events|
  {
    if events != [] {
      var n := |events| - 1;
      var before, last := events[..n], Encode(events[n]);
      var head := Concat(EncodeAll(before));
      FeedFrames(before, head);
      ConcatAppends(EncodeAll(before), last);
      FeedAllAppends(START, text, head, last);
      FeedFrame(Bodies(before), events[n]);
      BodyIsChunk(events[n]);
    }
  }

  // ---- One frame through the client ------------------------------------------------------

  lemma {:induction false} LineEnds(open: string, a: string, rest: string, s: string)
    requires '\n' !in a && s == a + "\n" + rest
    ensures Lines(s, open) == [open + a] + Lines(rest, "")
    decreases |a|
  {
    if a == "" {
      assert s[1..] == rest && open + a == open;
    } else {
      assert s[1..] == a[1..] + "\n" + rest;
      LineEnds(open + [a[0]], a[1..], rest, s[1..]);
      assert open + [a[0]] + a[1..] == open + a;
    }
  }

  lemma {:induction false} LastLine(open: string, a: string)
    requires '\n' !in a
    ensures Lines(a, open) == [open + a]
    decreases |a|
  {
    if a == "" {
      assert open + a == open;
    } else {
      LastLine(open + [a[0]], a[1..]);
      assert open + [a[0]] + a[1..] == open + a;
    }
  }

  lemma TwoLines(a: string, b: string)
    requires '\n' !in a && '\n' !in b
    ensures Lines(a + "\n" + b, "") == [a, b]
  {
    LineEnds("", a, b, a + "\n" + b);
    LastLine("", b);
    assert "" + a == a && "" + b == b;
  }

  lemma TrimOneSpace(s: string)
    requires s != "" && !IsJsSpace(s[0])
    ensures TrimStart(" " + s) == s
  {
    assert (" " + s)[1..] == s;
  }

  /** An event line and a data line make one frame. */
  lemma TwoLinesAreAFrame(name: string, payload: string)
    requires name != "" && '\n' !in name && !IsJsSpace(name[0]) && !IsJsSpace(name[|name| - 1])
    requires payload != "" && '\n' !in payload && !IsJsSpace(payload[0])
    ensures FrameOf(("event: " + name) + "\n" + ("data: " + payload)) == [Frame(name, payload)]
  {
    var a, b := "event: " + name, "data: " + payload;
    TwoLines(a, b);
    var lines := [a, b];
    assert lines[..1] == [a] && lines[..1][..0] == [];
    assert a[6..] == " " + name && b[5..] == " " + payload;
    TrimOneSpace(name);
    TrimOneSpace(payload);
    assert "event:" <= a && "data:" <= b && !("event:" <= b);
    assert FieldsOf([a]) == Fields(name, []);
    assert FieldsOf(lines) == Fields(name, [payload]);
  }

  lemma {:induction false} LinesOfJoin(lines: seq<string>)
    requires lines != [] && forall i :: 0 <= i < |lines| ==> '\n' !in lines[i]
    ensures Lines(Text.Join("\n", lines), "") == lines
  {
    assert "" + lines[0] == lines[0];
    if |lines| == 1 {
      LastLine("", lines[0]);
    } else {
      var rest := Text.Join("\n", lines[1..]);
      LinesOfJoin(lines[1..]);
      LineEnds("", lines[0], rest, lines[0] + "\n" + rest);
      assert lines == [lines[0]] + lines[1..];
    }
  }

  function DataLines(data: seq<string>): (r: seq<string>)
    ensures |r| == |data|
    ensures forall i :: 0 <= i < |data| ==> r[i] == "data: " + data[i]
  {
    seq(|data|, i requires 0 <= i < |data| => "data: " + data[i])
  }

  lemma {:induction false} FieldsOfDataLines(data: seq<string>)
    requires forall i :: 0 <= i < |data| ==> data[i] != "" && !IsJsSpace(data[i][0])
    ensures FieldsOf(DataLines(data)) == Fields("message", data)
  {
    if data != [] {
      var n := |data| - 1;
      assert DataLines(data)[..n] == DataLines(data[..n]);
      FieldsOfDataLines(data[..n]);
      DataLine(DataLines(data)[n], data[n]);
      assert data[..n] + [data[n]] == data;
    }
  }

  lemma DataLine(line: string, data: string)
    requires line == "data: " + data && data != "" && !IsJsSpace(data[0])
    ensures "data:" <= line && !("event:" <= line) && TrimStart(line[5..]) == data
  {
    assert line[5..] == " " + data;
    assert line[0] == 'd';
    TrimOneSpace(data);
  }

  /** The last event line names the event, every data line adds to the data, whatever follows the colon,
      and other lines say nothing. */
  lemma FieldsOfLine(lines: seq<string>, rest: string, other: string)
    requires !("event:" <= other) && !("data:" <= other)
    ensures FieldsOf(lines + ["event:" + rest]) == FieldsOf(lines).(event := TrimEnd(TrimStart(rest)))
    ensures FieldsOf(lines + ["data:" + rest]) == FieldsOf(lines).(data := FieldsOf(lines).data + [TrimStart(rest)])
    ensures FieldsOf(lines + [other]) == FieldsOf(lines)
  {
    NextField(lines, "event:" + rest);
    NextField(lines, "data:" + rest);
    NextField(lines, other);
    assert ("event:" + rest)[6..] == rest && ("data:" + rest)[5..] == rest;
    assert ("data:" + rest)[0] == 'd';
  }

  lemma NextField(lines: seq<string>, line: string)
    ensures FieldsOf(lines + [line]) ==
            if "event:" <= line then FieldsOf(lines).(event := TrimEnd(TrimStart(line[6..])))
            else if "data:" <= line then FieldsOf(lines).(data := FieldsOf(lines).data + [TrimStart(line[5..])])
            else FieldsOf(lines)
  {
    assert (lines + [line])[..|lines|] == lines;
  }

  /** Data lines without an event name make a frame named "message" of their lines. */
  lemma DataLinesAreJoined(data: seq<string>)
    requires data != [] && forall i :: 0 <= i < |data| ==> data[i] != "" && !IsJsSpace(data[i][0])
    requires forall i :: 0 <= i < |data| ==> '\n' !in data[i]
    ensures FrameOf(Text.Join("\n", DataLines(data))) == [Frame("message", Text.Join("\n", data))]
  {
    var lines := DataLines(data);
    forall i | 0 <= i < |lines|
      ensures '\n' !in lines[i]
    {
      DataHasNoBreak(data[i]);
    }
    LinesOfJoin(lines);
    FieldsOfDataLines(data);
    FrameOfLines(Text.Join("\n", lines), lines, data);
  }

  lemma DataHasNoBreak(data: string)
    requires '\n' !in data
    ensures '\n' !in "data: " + data
  {
    var prefix: string := "data: ";
    assert '\n' !in prefix;
  }

  lemma FrameOfLines(chunk: string, lines: seq<string>, data: seq<string>)
    requires data != [] && Lines(chunk, "") == lines && FieldsOf(lines) == Fields("message", data)
    ensures FrameOf(chunk) == [Frame("message", Text.Join("\n", data))]
  {
  }

  /** What goes over the wire. */
  lemma WireFormat(payload: string)
    ensures Encode(Sent(payload)) == "event: progress\n" + ("data: " + payload) + "\n\n"
    ensures Encode(Keepalive) == ": keepalive\n\n"
  {
    assert "event: progress" + "\n" == "event: progress\n";
  }

  /** What the client is told when there is no progress to read. */
  lemma FailuresSay()
    ensures UNAVAILABLE == Failed("error", "{\"detail\":\"" + "Research progress is temporarily unavailable." + "\"}")
    ensures MISSING == Failed("not_found", "{\"detail\":\"" + "Research progress was not found." + "\"}")
  {
    assert "Research progress is " + "temporarily unavailable." == "Research progress is temporarily unavailable.";
  }

  function FrameFor(e: Event): seq<Frame> {
    match e
    case Sent(payload) => [Frame("progress", payload)]
    case Keepalive => []
    case Failed(name, payload) => [Frame(name, payload)]
  }

  lemma FrameOfBody(e: Event)
    requires Sendable(e)
    ensures FrameOf(Body(e)) == FrameFor(e)
  {
    match e
    case Sent(payload) => ProgressFrame(payload);
    case Keepalive => KeepaliveIsNoFrame();
    case Failed(name, payload) => TwoLinesAreAFrame(name, payload);
  }

  lemma ProgressFrame(payload: string)
    requires IsJsonObject(payload)
    ensures FrameOf(Body(Sent(payload))) == [Frame("progress", payload)]
  {
    assert "event: progress" == "event: " + "progress";
    TwoLinesAreAFrame("progress", payload);
  }

  lemma KeepaliveIsNoFrame()
    ensures FrameOf(Body(Keepalive)) == []
  {
    LastLine("", ": keepalive");
    var lines := [": keepalive"];
    assert lines[..0] == [];
    assert FieldsOf(lines) == Fields("message", []);
  }

  function DeliverEvent(before: Delivery, e: Event): Delivery {
    if before.failure.Some? then before
    else
      match e
      case Sent(payload) => before.(callbacks := before.callbacks + [payload])
      case Keepalive => before
      case Failed(_, payload) => before.(failure := Some(payload))
  }

  function DeliverEvents(before: Delivery, events: seq<Event>): Delivery {
    if events == [] then before else DeliverEvent(DeliverEvents(before, events[..|events| - 1]), events[|events| - 1])
  }

  lemma {:induction false} FramesDeliverEvents(events: seq<Event>)
    requires AllSendable(events)
    ensures DeliverAll(NOTHING, FramesOf(Bodies(events))) == DeliverEvents(NOTHING, events)
  {
    if events != [] {
      var n := |events| - 1;
      var before, body := Bodies(events[..n]), Body(events[n]);
      FramesDeliverEvents(events[..n]);
      FrameOfBody(events[n]);
      assert (before + [body])[..|before|] == before;
      DeliverAllAppends(NOTHING, FramesOf(before), FrameOf(body));
      DeliverOne(DeliverAll(NOTHING, FramesOf(before)), events[n]);
    }
  }

  lemma DeliverOne(before: Delivery, e: Event)
    requires Sendable(e)
    ensures DeliverAll(before, FrameFor(e)) == DeliverEvent(before, e)
  {
    if !e.Keepalive? {
      var frames := FrameFor(e);
      assert frames[..0] == [];
      assert DeliverAll(before, frames) == Deliver(before, frames[0]);
    }
  }

  // ---- End to end ------------------------------------------------------------------------

  /** The payloads polled until the run is over or its progress cannot be read. */
  function Polled(polls: seq<Poll>): seq<string> {
    if polls == [] || !polls[0].Progress? then []
    else [polls[0].payload] + if polls[0].terminal then [] else Polled(polls[1..])
  }

  /** The error payload, when that is how the polling ended. */
  function Failure(polls: seq<Poll>): Option<string> {
    if polls == [] then None
    else
      match polls[0]
      case Unavailable => Some(UNAVAILABLE.payload)
      case Missing => Some(MISSING.payload)
      case Progress(_, terminal, _) => if terminal then None else Failure(polls[1..])
  }

  /** Adjacent repeats removed. */
  function Squash(xs: seq<string>): seq<string> {
    if |xs| <= 1 then xs
    else if xs[0] == xs[1] then Squash(xs[1..])
    else [xs[0]] + Squash(xs[1..])
  }

  predicate AllJson(polls: seq<Poll>) {
    forall i :: 0 <= i < |polls| ==> polls[i].Progress? ==> IsJsonObject(polls[i].payload)
  }

  lemma {:induction false} EventsAreSendable(
    polls: seq<Poll>, previous: Option<string>, lastSent: real, heartbeat: real)
    requires AllJson(polls)
    ensures AllSendable(Events(polls, previous, lastSent, heartbeat))
    decreases |polls|
  {
    FailuresAreSendable();
    if polls != [] && polls[0].Progress? && !polls[0].terminal {
      var reaction := Reaction(polls[0].payload, previous, polls[0].at - lastSent, heartbeat);
      EventsAreSendable(polls[1..], Some(polls[0].payload), LastSent(reaction, polls[0].at, lastSent), heartbeat);
    }
  }

  lemma {:induction false} DeliverEventsAppends(before: Delivery, a: seq<Event>, b: seq<Event>)
    ensures DeliverEvents(before, a + b) == DeliverEvents(DeliverEvents(before, a), b)
    decreases |b|
  {
    if b == [] {
      assert a + b == a;
    } else {
      assert (a + b)[..|a + b| - 1] == a + b[..|b| - 1];
      DeliverEventsAppends(before, a, b[..|b| - 1]);
    }
  }

  /** The polled payloads that differ from the one before, starting after `previous`. */
  function Changes(previous: Option<string>, xs: seq<string>): seq<string>
    decreases |xs|
  {
    if xs == [] then []
    else (if Some(xs[0]) != previous then [xs[0]] else []) + Changes(Some(xs[0]), xs[1..])
  }

  lemma {:induction false} ChangesAreSquashed(x: string, xs: seq<string>, all: seq<string>)
    requires all == [x] + xs
    ensures [x] + Changes(Some(x), xs) == Squash(all)
    decreases |xs|
  {
    if xs != [] {
      assert all[1..] == xs;
      assert xs == [xs[0]] + xs[1..];
      ChangesAreSquashed(xs[0], xs[1..], xs);
    }
  }

  lemma ReactionDelivers(before: Delivery, payload: string, previous: Option<string>, silence: real, heartbeat: real)
    requires before.failure.None?
    ensures DeliverEvents(before, Reaction(payload, previous, silence, heartbeat))
            == if Some(payload) != previous then before.(callbacks := before.callbacks + [payload]) else before
  {
    var reaction := Reaction(payload, previous, silence, heartbeat);
    if reaction != [] {
      DeliverFirst(before, reaction[0]);
      assert reaction == [reaction[0]];
    }
  }

  /** The server's events deliver the changes among the polled payloads. */
  lemma {:induction false} EventsDeliverChanges(
    polls: seq<Poll>, previous: Option<string>, lastSent: real, heartbeat: real, before: Delivery)
    requires before.failure.None?
    ensures DeliverEvents(before, Events(polls, previous, lastSent, heartbeat))
            == Delivery(before.callbacks + Changes(previous, Polled(polls)), Failure(polls))
    decreases |polls|
  {
    if polls == [] {
      assert before.callbacks + [] == before.callbacks;
    } else {
      match polls[0]
      case Unavailable =>
        DeliverFirst(before, UNAVAILABLE);
        assert before.callbacks + [] == before.callbacks;
      case Missing =>
        DeliverFirst(before, MISSING);
        assert before.callbacks + [] == before.callbacks;
      case Progress(payload, terminal, at) =>
        var reaction := Reaction(payload, previous, at - lastSent, heartbeat);
        var next := LastSent(reaction, at, lastSent);
        var rest := if terminal then [] else Events(polls[1..], Some(payload), next, heartbeat);
        DeliverEventsAppends(before, reaction, rest);
        ReactionDelivers(before, payload, previous, at - lastSent, heartbeat);
        ChangesOfNext(before.callbacks, previous, payload, if terminal then [] else Polled(polls[1..]));
        if !terminal {
          EventsDeliverChanges(polls[1..], Some(payload), next, heartbeat, DeliverEvents(before, reaction));
        }
    }
  }

  lemma DeliverFirst(before: Delivery, e: Event)
    ensures DeliverEvents(before, [e]) == DeliverEvent(before, e)
  {
    assert [e][..0] == [];
  }

  lemma ChangesOfNext(callbacks: seq<string>, previous: Option<string>, payload: string, xs: seq<string>)
    ensures callbacks + Changes(previous, [payload] + xs) ==
            (if Some(payload) != previous then callbacks + [payload] else callbacks) + Changes(Some(payload), xs)
  {
    assert ([payload] + xs)[1..] == xs;
  }

  /** However the network cuts the text of the events into reads, the client handles the events. */
  lemma ReadsDeliverEvents(events: seq<Event>, received: seq<string>)
    requires AllSendable(events) && Concat(received) == Concat(EncodeAll(events))
    ensures Delivered(received) == DeliverEvents(NOTHING, events)
  {
    var text := Concat(received);
    FeedFrames(events, text);
    ReadsParseAsTheWhole(received, text);
    ParsingIsFeeding(text);
    FramesDeliverEvents(events);
  }

  lemma AllChangesAreSquashed(xs: seq<string>)
    ensures NOTHING.callbacks + Changes(None, xs) == Squash(xs)
  {
    if xs != [] {
      assert xs == [xs[0]] + xs[1..];
      ChangesAreSquashed(xs[0], xs[1..], xs);
    }
  }

  /** For every sequence of polls, and however the network cuts the bytes into reads, the client's
      callback gets exactly the polled payloads with adjacent repeats removed, keepalives
      disappear, and the caller sees an error exactly when the polling ended in one. */
  lemma EndToEnd(polls: seq<Poll>, start: real, heartbeat: real, received: seq<string>)
    requires AllJson(polls)
    requires Concat(received) == Concat(EncodeAll(Events(polls, None, start, heartbeat)))
    ensures Delivered(received) == Delivery(Squash(Polled(polls)), Failure(polls))
  {
    EventsAreSendable(polls, None, start, heartbeat);
    ReadsDeliverEvents(Events(polls, None, start, heartbeat), received);
    EventsDeliverChanges(polls, None, start, heartbeat, NOTHING);
    AllChangesAreSquashed(Polled(polls));
  }

  lemma {:induction false} DeliveriesGrow(before: Delivery, frames: seq<Frame>)
    ensures before.callbacks <= DeliverAll(before, frames).callbacks
    ensures before.failure.Some? ==> DeliverAll(before, frames) == before
    decreases |frames|
  {
    if frames != [] {
      DeliveriesGrow(before, frames[..|frames| - 1]);
    }
  }

  /** A connection that breaks at any byte has delivered a prefix, in order, of what the whole
      stream would have delivered, and no error that the stream did not report. */
  lemma BrokenConnection(polls: seq<Poll>, start: real, heartbeat: real, received: seq<string>, lost: string)
    requires AllJson(polls)
    requires Concat(received) + lost == Concat(EncodeAll(Events(polls, None, start, heartbeat)))
    ensures Delivered(received).callbacks <= Squash(Polled(polls))
    ensures Delivered(received).failure.Some? ==>
              Delivered(received) == Delivery(Squash(Polled(polls)), Failure(polls))
  {
    var events := Events(polls, None, start, heartbeat);
    var text := Concat(received);
    var whole := text + lost;
    EventsAreSendable(polls, None, start, heartbeat);
    FeedFrames(events, whole);
    assert whole[..|text|] == text;
    assert NoCrCrLf(text);
    ReadsParseAsTheWhole(received, text);
    ParsingIsFeeding(text);
    FeedAllAppends(START, whole, text, lost);
    FeedAllKeepsChunks(FeedAll(START, text), lost);
    var chunks := FeedAll(START, text).chunks;
    var more := FeedAll(Parse([], FeedAll(START, text).open), lost).chunks;
    NextFrames(chunks, more);
    DeliveriesGrow(Delivered(received), FramesOf(more));
    WholeStream(polls, start, heartbeat, whole);
  }

  lemma WholeStream(polls: seq<Poll>, start: real, heartbeat: real, whole: string)
    requires AllJson(polls)
    requires whole == Concat(EncodeAll(Events(polls, None, start, heartbeat)))
    ensures DeliverAll(NOTHING, FramesOf(FeedAll(START, whole).chunks))
            == Delivery(Squash(Polled(polls)), Failure(polls))
  {
    assert [whole][1..] == [] && Concat([whole]) == whole + "" == whole;
    EndToEnd(polls, start, heartbeat, [whole]);
    EventsAreSendable(polls, None, start, heartbeat);
    FeedFrames(Events(polls, None, start, heartbeat), whole);
    ReadsParseAsTheWhole([whole], whole);
    ParsingIsFeeding(whole);
  }
}
