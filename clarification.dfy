/**
  `runClarificationAndStreamResponse` (lib/v2/edge-runtime/clarification.ts):
  a feasibility stream and a clarification stream are read side by side, and
  what reaches the user while they stream is arbitrated through two shared
  variables, `isPossible` and `streamedText`.

  JavaScript runs the two reading loops on one thread, so they interleave only
  at `await reader.read()`. The model therefore takes an arbitrary sequence of
  events, each a read on one of the streams, and processes each one whole.
  The framing parsers, the placeholder rewriter and the two output parsers
  are not part of this model: they are function parameters.
*/
module Clarification {
  import opened Wrappers
  import opened Strings

  datatype StreamId = PossibleStream | ClarificationStream

  /** What a framing parser returns for the carried fragment plus the new text. */
  datatype Framed = Framed(completeChunks: seq<string>, incompleteChunk: Option<string>, done: bool)

  /** What the placeholder rewriter returns. */
  datatype Rewritten = Rewritten(content: string, placeholderBuffer: string)

  /** `ParsedRequestPossibleOutput`, reduced to the fields this function reads. */
  datatype PossibleParse = PossibleParse(tellUser: string, possible: bool)

  /** `ParsedClarificationOutput`, reduced to the fields this function reads. */
  datatype ClarificationParse = ClarificationParse(tellUser: string, clear: bool)

  /** The helpers this function calls and whose behaviour is not modelled. */
  datatype Collaborators = Collaborators(
    parseGPT: string -> Framed,
    parseAnthropic: string -> Framed,
    replacePlaceholders: (string, string, map<string, string>) -> Rewritten,
    parsePossible: string -> PossibleParse,
    parseClarification: string -> ClarificationParse)

  const PlaceholderMap: map<string, string> := map["FUNCTIONS" := "functions", "FUNCTION" := "function"]

  /** The clarification model's answer is prefilled with this text. */
  const ClarificationPrefix := "Thoughts:\n1. "

  /**
    A pipeline whose model call failed never reads; a reading one stops
    when its reader or its framing parser reports that it is done.
  */
  datatype Phase = TransportFailed | Reading | Finished

  /** The locals of one reading loop. */
  datatype Pipeline = Pipeline(rawOutput: string, incompleteChunk: string, first: bool,
                               placeholderBuffer: string, phase: Phase)

  /** The variables both loops share, and what has been sent to the user so far. */
  datatype Shared = Shared(isPossible: Option<bool>, streamedText: string, emitted: seq<string>)

  datatype Race = Race(possible: Pipeline, clarification: Pipeline, shared: Shared)

  /** `reader.read()` on one stream returning text, or returning `done`. */
  datatype Event = Read(stream: StreamId, value: string) | ReaderDone(stream: StreamId)

  /** What a pipeline's closure returns: `{error}` or `{output, parsed}`. */
  datatype Outcome<P> = Errored | Completed(output: string, parsed: P)

  /** The returned object; the message, when present, is an assistant message with this content. */
  datatype Verdict = Verdict(message: Option<string>, possible: bool, clear: bool)

  datatype RunResult = RunResult(verdict: Verdict, emitted: seq<string>)

  // ---------------------------------------------------------------- one chunk

  function Pipe(r: Race, s: StreamId): Pipeline {
    match s
    case PossibleStream => r.possible
    case ClarificationStream => r.clarification
  }

  function WithPipe(r: Race, s: StreamId, p: Pipeline): (r': Race)
    ensures Pipe(r', s) == p && r'.shared == r.shared
    ensures s == PossibleStream ==> r'.clarification == r.clarification
    ensures s == ClarificationStream ==> r'.possible == r.possible
  {
    match s
    case PossibleStream => r.(possible := p)
    case ClarificationStream => r.(clarification := p)
  }

  /**
    The shared variables after a chunk that rewrote to non-empty `content`,
    with `raw` the stream's raw output so far. The feasibility stream sets
    `isPossible` to false at the first chunk whose reparsed output has a
    tell-user section, and from then on forwards every chunk. The
    clarification stream forwards only while `isPossible` is true.
  */
  function SharedStep(c: Collaborators, s: StreamId, sh: Shared, raw: string, content: string): Shared {
    match s
    case PossibleStream =>
      var isPossible :=
        if sh.isPossible.None? && c.parsePossible(raw).tellUser != [] then Some(false) else sh.isPossible;
      if isPossible == Some(false) then Shared(isPossible, sh.streamedText + content, sh.emitted + [content])
      else sh.(isPossible := isPossible)
    case ClarificationStream =>
      if sh.isPossible == Some(true) then
        var newText := ReplaceFirst(c.parseClarification(raw).tellUser, sh.streamedText, []);
        Shared(sh.isPossible, sh.streamedText + newText, sh.emitted + [newText])
      else sh
  }

  /**
    One pass of the `for` loop over complete chunks: the first chunk of a
    stream loses its leading whitespace, every chunk is appended to the raw
    output before placeholders are rewritten, and only a chunk that rewrites
    to non-empty text is parsed and may be forwarded.
  */
  function ChunkStep(c: Collaborators, s: StreamId, r: Race, chunk: string): Race {
    var p := Pipe(r, s);
    var content := if p.first then TrimStart(chunk) else chunk;
    var raw := p.rawOutput + content;
    var rw := c.replacePlaceholders(content, p.placeholderBuffer, PlaceholderMap);
    var r1 := WithPipe(r, s, p.(rawOutput := raw, first := false, placeholderBuffer := rw.placeholderBuffer));
    if rw.content == [] then r1 else r1.(shared := SharedStep(c, s, r.shared, raw, rw.content))
  }

  /** The whole `for` loop over `chunks`, in order. */
  function Chunks(c: Collaborators, s: StreamId, r: Race, chunks: seq<string>): Race {
    if chunks == [] then r
    else ChunkStep(c, s, Chunks(c, s, r, chunks[..|chunks| - 1]), chunks[|chunks| - 1])
  }

  function Frame(c: Collaborators, s: StreamId, text: string): Framed {
    match s
    case PossibleStream => c.parseGPT(text)
    case ClarificationStream => c.parseAnthropic(text)
  }

  /**
    One turn of a `while (!done)` loop that read `value`: the carried
    incomplete chunk is put in front of it, the framing parser's new
    incomplete chunk (or "") is carried on, the complete chunks are
    processed, and the loop ends when the framing parser says so.
  */
  function ReadStep(c: Collaborators, s: StreamId, r: Race, value: string): Race {
    var p := Pipe(r, s);
    if p.phase != Reading then r
    else
      var framed := Frame(c, s, p.incompleteChunk + value);
      var r1 := WithPipe(r, s, p.(incompleteChunk := framed.incompleteChunk.GetOr([])));
      var r2 := Chunks(c, s, r1, framed.completeChunks);
      WithPipe(r2, s, Pipe(r2, s).(phase := if framed.done then Finished else Reading))
  }

  function Step(c: Collaborators, r: Race, e: Event): Race {
    match e
    case Read(s, value) => ReadStep(c, s, r, value)
    case ReaderDone(s) =>
      if Pipe(r, s).phase == Reading then WithPipe(r, s, Pipe(r, s).(phase := Finished)) else r
  }

  function Steps(c: Collaborators, r: Race, events: seq<Event>): Race {
    if events == [] then r
    else Step(c, Steps(c, r, events[..|events| - 1]), events[|events| - 1])
  }

  /** Before the first read; a failed model call leaves its pipeline without a reader. */
  function Initial(possibleFailed: bool, clarificationFailed: bool): Race {
    Race(
      Pipeline([], [], true, [], if possibleFailed then TransportFailed else Reading),
      Pipeline(ClarificationPrefix, [], true, [], if clarificationFailed then TransportFailed else Reading),
      Shared(None, [], []))
  }

  // ---------------------------------------------------------------- after both streams

  function PossibleOutcome(c: Collaborators, p: Pipeline): Outcome<PossibleParse> {
    if p.phase == TransportFailed then Errored else Completed(p.rawOutput, c.parsePossible(p.rawOutput))
  }

  function ClarificationOutcome(c: Collaborators, p: Pipeline): Outcome<ClarificationParse> {
    if p.phase == TransportFailed then Errored else Completed(p.rawOutput, c.parseClarification(p.rawOutput))
  }

  /**
    When the clarification answer is unclear and nothing has been streamed,
    its tell-user text is sent once and becomes the streamed text.
  */
  function Reconcile(sh: Shared, o: Outcome<ClarificationParse>): (r: Shared)
    ensures r.isPossible == sh.isPossible
    ensures o.Completed? && !o.parsed.clear && sh.streamedText == [] ==>
      r.streamedText == o.parsed.tellUser && r.emitted == sh.emitted + [o.parsed.tellUser]
    ensures !(o.Completed? && !o.parsed.clear && sh.streamedText == []) ==> r == sh
  {
    if o.Completed? && !o.parsed.clear && sh.streamedText == [] then
      Shared(sh.isPossible, o.parsed.tellUser, sh.emitted + [o.parsed.tellUser])
    else sh
  }

  /**
    `possible` and `clear` hold when their stream errored or its parse says
    so; the message is the whole raw output of the feasibility stream when
    it is impossible with something to tell the user, else that of the
    clarification stream when it is unclear with something to tell.
  */
  function FinalVerdict(o0: Outcome<PossibleParse>, o1: Outcome<ClarificationParse>): (v: Verdict)
    ensures v.possible <==> o0.Errored? || o0.parsed.possible
    ensures v.clear <==> o1.Errored? || o1.parsed.clear
    ensures v.message.Some? ==> !v.possible || !v.clear
    ensures o0.Completed? && !o0.parsed.possible && o0.parsed.tellUser != [] ==> v.message == Some(o0.output)
    ensures (!(o0.Completed? && !o0.parsed.possible && o0.parsed.tellUser != [])
      && o1.Completed? && !o1.parsed.clear && o1.parsed.tellUser != []) ==> v.message == Some(o1.output)
    ensures v.message.None? <==>
      !(o0.Completed? && !o0.parsed.possible && o0.parsed.tellUser != [])
      && !(o1.Completed? && !o1.parsed.clear && o1.parsed.tellUser != [])
  {
    var possible := o0.Errored? || o0.parsed.possible;
    var clear := o1.Errored? || o1.parsed.clear;
    var message :=
      if !possible && !o0.Errored? && o0.parsed.tellUser != [] then Some(o0.output)
      else if !clear && !o1.Errored? && o1.parsed.tellUser != [] then Some(o1.output)
      else None;
    Verdict(message, possible, clear)
  }

  /** The whole function: streaming, reconciliation, verdict, and everything sent to the user. */
  function RunSpec(c: Collaborators, possibleFailed: bool, clarificationFailed: bool, events: seq<Event>): RunResult {
    var r := Steps(c, Initial(possibleFailed, clarificationFailed), events);
    var o0 := PossibleOutcome(c, r.possible);
    var o1 := ClarificationOutcome(c, r.clarification);
    RunResult(FinalVerdict(o0, o1), Reconcile(r.shared, o1).emitted)
  }

  // ---------------------------------------------------------------- the loops

  /** The `for` loop over one read's complete chunks, on the loop's own locals. */
  method ProcessChunks(c: Collaborators, s: StreamId, r: Race, chunks: seq<string>) returns (out: Race)
    ensures out == Chunks(c, s, r, chunks)
  {
    var p := Pipe(r, s);
    var rawOutput, first, placeholderBuffer := p.rawOutput, p.first, p.placeholderBuffer;
    var isPossible, streamedText, emitted := r.shared.isPossible, r.shared.streamedText, r.shared.emitted;
    for i := 0 to |chunks|
      invariant WithPipe(r, s, p.(rawOutput := rawOutput, first := first, placeholderBuffer := placeholderBuffer))
        .(shared := Shared(isPossible, streamedText, emitted)) == Chunks(c, s, r, chunks[..i])
    {
      assert chunks[..i + 1][..i] == chunks[..i];
      var content := chunks[i];
      if first {
        content := TrimStart(content);
        first := false;
      }
      rawOutput := rawOutput + content;
      var rw := c.replacePlaceholders(content, placeholderBuffer, PlaceholderMap);
      content, placeholderBuffer := rw.content, rw.placeholderBuffer;
      if content != [] {
        match s
        case PossibleStream =>
          var parsed := c.parsePossible(rawOutput);
          if isPossible.None? && parsed.tellUser != [] {
            isPossible := Some(false);
          }
          if isPossible == Some(false) {
            emitted := emitted + [content];
            streamedText := streamedText + content;
          }
        case ClarificationStream =>
          var parsed := c.parseClarification(rawOutput);
          if isPossible == Some(true) {
            var newText := ReplaceFirst(parsed.tellUser, streamedText, []);
            emitted := emitted + [newText];
            streamedText := streamedText + newText;
          }
      }
    }
    assert chunks[..|chunks|] == chunks;
    out := WithPipe(r, s, p.(rawOutput := rawOutput, first := first, placeholderBuffer := placeholderBuffer))
      .(shared := Shared(isPossible, streamedText, emitted));
  }

  /**
    The function as a whole: the events are handed to the pipeline they
    belong to, then the clarification answer is reconciled and the verdict
    assembled.
  */
  method RunClarificationAndStreamResponse(c: Collaborators, possibleFailed: bool, clarificationFailed: bool,
                                           events: seq<Event>)
    returns (verdict: Verdict, emitted: seq<string>)
    ensures RunResult(verdict, emitted) == RunSpec(c, possibleFailed, clarificationFailed, events)
  {
    var r := Initial(possibleFailed, clarificationFailed);
    var i := 0;
    while i < |events|
      invariant i <= |events| && r == Steps(c, Initial(possibleFailed, clarificationFailed), events[..i])
    {
      assert events[..i + 1][..i] == events[..i];
      match events[i] {
        case Read(s, value) =>
          var p := Pipe(r, s);
          if p.phase == Reading {
            var framed := Frame(c, s, p.incompleteChunk + value);
            r := WithPipe(r, s, p.(incompleteChunk := framed.incompleteChunk.GetOr([])));
            r := ProcessChunks(c, s, r, framed.completeChunks);
            if framed.done {
              r := WithPipe(r, s, Pipe(r, s).(phase := Finished));
            } else {
              r := WithPipe(r, s, Pipe(r, s).(phase := Reading));
            }
          }
        case ReaderDone(s) =>
          if Pipe(r, s).phase == Reading {
            r := WithPipe(r, s, Pipe(r, s).(phase := Finished));
          }
      }
      i := i + 1;
    }
    assert events[..|events|] == events;
    var o0 := PossibleOutcome(c, r.possible);
    var o1 := ClarificationOutcome(c, r.clarification);
    var shared := r.shared;
    if o1.Completed? && !o1.parsed.clear && shared.streamedText == [] {
      shared := Shared(shared.isPossible, o1.parsed.tellUser, shared.emitted + [o1.parsed.tellUser]);
    }
    var possible := o0.Errored? || o0.parsed.possible;
    var clear := o1.Errored? || o1.parsed.clear;
    var message: Option<string> := None;
    if !possible && !o0.Errored? && o0.parsed.tellUser != [] {
      message := Some(o0.output);
    } else if !clear && !o1.Errored? && o1.parsed.tellUser != [] {
      message := Some(o1.output);
    }
    verdict, emitted := Verdict(message, possible, clear), shared.emitted;
  }

  // ---------------------------------------------------------------- arbitration

  /** `isPossible` only ever moves from unset to false. */
  predicate Advances(before: Option<bool>, after: Option<bool>) {
    after == before || (before.None? && after == Some(false))
  }

  /**
    What holds of the shared variables throughout streaming: `isPossible` is
    never true, nothing is sent before it is set, every piece sent is
    non-empty, and `streamedText` is exactly what was sent.
  */
  predicate Consistent(sh: Shared) {
    && sh.isPossible != Some(true)
    && (sh.isPossible.None? ==> sh.emitted == [])
    && (forall k :: 0 <= k < |sh.emitted| ==> sh.emitted[k] != [])
    && sh.streamedText == Flatten(sh.emitted)
  }

  lemma ChunkStepArbitration(c: Collaborators, s: StreamId, r: Race, chunk: string)
    requires Consistent(r.shared)
    ensures Consistent(ChunkStep(c, s, r, chunk).shared)
    ensures Advances(r.shared.isPossible, ChunkStep(c, s, r, chunk).shared.isPossible)
    ensures s == ClarificationStream ==> ChunkStep(c, s, r, chunk).shared == r.shared
  {
    var r' := ChunkStep(c, s, r, chunk);
    if r'.shared != r.shared {
      assert s == PossibleStream;
      var e := r'.shared.emitted;
      assert e == r.shared.emitted + [e[|e| - 1]];
      FlattenSnoc(r.shared.emitted, e[|e| - 1]);
    }
  }

  lemma {:induction false} ChunksArbitration(c: Collaborators, s: StreamId, r: Race, chunks: seq<string>)
    requires Consistent(r.shared)
    ensures Consistent(Chunks(c, s, r, chunks).shared)
    ensures Advances(r.shared.isPossible, Chunks(c, s, r, chunks).shared.isPossible)
    ensures s == ClarificationStream ==> Chunks(c, s, r, chunks).shared == r.shared
  {
    if chunks != [] {
      var front := chunks[..|chunks| - 1];
      ChunksArbitration(c, s, r, front);
      ChunkStepArbitration(c, s, Chunks(c, s, r, front), chunks[|chunks| - 1]);
    }
  }

  lemma StepArbitration(c: Collaborators, r: Race, e: Event)
    requires Consistent(r.shared)
    ensures Consistent(Step(c, r, e).shared)
    ensures Advances(r.shared.isPossible, Step(c, r, e).shared.isPossible)
    ensures e.stream == ClarificationStream ==> Step(c, r, e).shared == r.shared
  {
    if e.Read? && Pipe(r, e.stream).phase == Reading {
      var p := Pipe(r, e.stream);
      var framed := Frame(c, e.stream, p.incompleteChunk + e.value);
      var r1 := WithPipe(r, e.stream, p.(incompleteChunk := framed.incompleteChunk.GetOr([])));
      ChunksArbitration(c, e.stream, r1, framed.completeChunks);
    }
  }

  /**
    Whatever the interleaving of the two streams: the shared variables stay
    consistent, `isPossible` only moves from unset to false (it is never set
    to true), and reads on the clarification stream send nothing.
  */
  lemma {:induction false} StepsArbitration(c: Collaborators, r: Race, events: seq<Event>)
    requires Consistent(r.shared)
    ensures Consistent(Steps(c, r, events).shared)
    ensures Advances(r.shared.isPossible, Steps(c, r, events).shared.isPossible)
  {
    if events != [] {
      var front := events[..|events| - 1];
      StepsArbitration(c, r, front);
      StepArbitration(c, Steps(c, r, front), events[|events| - 1]);
    }
  }

  /**
    A feasibility chunk is sent, as rewritten, exactly when it rewrites to
    non-empty text and `isPossible` is already false or becomes false
    because the raw output so far now has a tell-user section.
  */
  lemma PossibleChunkSent(c: Collaborators, r: Race, chunk: string)
    requires r.shared.isPossible != Some(true)
    ensures var p := r.possible;
      var content := if p.first then TrimStart(chunk) else chunk;
      var sent := c.replacePlaceholders(content, p.placeholderBuffer, PlaceholderMap).content;
      var flips := r.shared.isPossible.None? && c.parsePossible(p.rawOutput + content).tellUser != [];
      var r' := ChunkStep(c, PossibleStream, r, chunk);
      && (sent != [] && (r.shared.isPossible == Some(false) || flips) ==>
            r'.shared == Shared(Some(false), r.shared.streamedText + sent, r.shared.emitted + [sent]))
      && (!(sent != [] && (r.shared.isPossible == Some(false) || flips)) ==> r'.shared == r.shared)
  {
  }

  /** During streaming, a read on the clarification stream never sends anything to the user. */
  lemma ClarificationReadsSilent(c: Collaborators, pf: bool, cf: bool, events: seq<Event>, value: string)
    ensures var r := Steps(c, Initial(pf, cf), events);
      Step(c, r, Read(ClarificationStream, value)).shared == r.shared
  {
    StepsArbitration(c, Initial(pf, cf), events);
    StepArbitration(c, Steps(c, Initial(pf, cf), events), Read(ClarificationStream, value));
  }

  /**
    The user sees text from one stream only: either what the feasibility
    stream sent while streaming, or, when that was nothing, the one
    reconciliation message from the clarification stream.
  */
  lemma OneVoice(c: Collaborators, pf: bool, cf: bool, events: seq<Event>)
    ensures var r := Steps(c, Initial(pf, cf), events);
      var sent := RunSpec(c, pf, cf, events).emitted;
      sent == r.shared.emitted
      || (r.shared.emitted == [] && r.shared.streamedText == []
          && sent == [ClarificationOutcome(c, r.clarification).parsed.tellUser])
  {
    var r := Steps(c, Initial(pf, cf), events);
    StepsArbitration(c, Initial(pf, cf), events);
    if r.shared.emitted != [] {
      var e := r.shared.emitted;
      assert Flatten(e) == e[0] + Flatten(e[1..]);
      assert r.shared.streamedText != [];
    }
  }

  // ---------------------------------------------------------------- raw output

  /** The text a run of chunks adds to a raw output: all of it, the first chunk trimmed when it opens the stream. */
  function RawText(first: bool, chunks: seq<string>): string {
    if chunks == [] then []
    else if first then TrimStart(chunks[0]) + Flatten(chunks[1..])
    else Flatten(chunks)
  }

  lemma {:induction false} RawTextSnoc(first: bool, chunks: seq<string>)
    requires chunks != []
    ensures var n := |chunks| - 1;
      RawText(first, chunks) == RawText(first, chunks[..n]) + (if first && n == 0 then TrimStart(chunks[n]) else chunks[n])
  {
    var n := |chunks| - 1;
    var front := chunks[..n];
    if n == 0 {
      assert Flatten(chunks[1..]) == [];
      assert Flatten(chunks) == chunks[0] + Flatten(chunks[1..]);
    } else {
      assert chunks == front + [chunks[n]];
      FlattenSnoc(front, chunks[n]);
      if first {
        assert chunks[1..] == front[1..] + [chunks[n]];
        FlattenSnoc(front[1..], chunks[n]);
      }
    }
  }

  /** One chunk touches only its own stream's raw output, start flag and placeholder buffer. */
  lemma ChunkStepPipe(c: Collaborators, s: StreamId, r: Race, chunk: string)
    ensures var p := Pipe(r, s);
      var p' := Pipe(ChunkStep(c, s, r, chunk), s);
      && p'.rawOutput == p.rawOutput + (if p.first then TrimStart(chunk) else chunk)
      && !p'.first && p'.incompleteChunk == p.incompleteChunk && p'.phase == p.phase
    ensures s == PossibleStream ==> ChunkStep(c, s, r, chunk).clarification == r.clarification
    ensures s == ClarificationStream ==> ChunkStep(c, s, r, chunk).possible == r.possible
  {
  }

  lemma {:induction false} ChunksRaw(c: Collaborators, s: StreamId, r: Race, chunks: seq<string>)
    ensures Pipe(Chunks(c, s, r, chunks), s).rawOutput == Pipe(r, s).rawOutput + RawText(Pipe(r, s).first, chunks)
    ensures Pipe(Chunks(c, s, r, chunks), s).first == (Pipe(r, s).first && chunks == [])
  {
    if chunks != [] {
      var n := |chunks| - 1;
      var front := chunks[..n];
      var prev := Chunks(c, s, r, front);
      var next := ChunkStep(c, s, prev, chunks[n]);
      assert Chunks(c, s, r, chunks) == next;
      var f := Pipe(r, s).first;
      var raw0 := Pipe(r, s).rawOutput;
      ChunksRaw(c, s, r, front);
      assert Pipe(prev, s).rawOutput == raw0 + RawText(f, front);
      assert Pipe(prev, s).first == (f && n == 0);
      ChunkStepPipe(c, s, prev, chunks[n]);
      var tail := if f && n == 0 then TrimStart(chunks[n]) else chunks[n];
      assert Pipe(next, s).rawOutput == raw0 + RawText(f, front) + tail;
      RawTextSnoc(f, chunks);
      assert RawText(f, chunks) == RawText(f, front) + tail;
    }
  }

  /** A batch of chunks changes neither the framing state nor the other stream. */
  lemma {:induction false} ChunksKeepFraming(c: Collaborators, s: StreamId, r: Race, chunks: seq<string>)
    ensures Pipe(Chunks(c, s, r, chunks), s).incompleteChunk == Pipe(r, s).incompleteChunk
    ensures Pipe(Chunks(c, s, r, chunks), s).phase == Pipe(r, s).phase
    ensures s == PossibleStream ==> Chunks(c, s, r, chunks).clarification == r.clarification
    ensures s == ClarificationStream ==> Chunks(c, s, r, chunks).possible == r.possible
  {
    if chunks != [] {
      var n := |chunks| - 1;
      var prev := Chunks(c, s, r, chunks[..n]);
      assert Chunks(c, s, r, chunks) == ChunkStep(c, s, prev, chunks[n]);
      ChunksKeepFraming(c, s, r, chunks[..n]);
      ChunkStepPipe(c, s, prev, chunks[n]);
    }
  }

  /**
    One read: the framing parser sees the carried incomplete chunk followed
    by the new text, its new incomplete chunk (or "") is carried on, every
    complete chunk lands in the raw output, and the loop ends exactly when
    the framing parser reports done.
  */
  lemma ReadStepFraming(c: Collaborators, s: StreamId, r: Race, value: string)
    requires Pipe(r, s).phase == Reading
    ensures var p := Pipe(r, s);
      var framed := Frame(c, s, p.incompleteChunk + value);
      var p' := Pipe(ReadStep(c, s, r, value), s);
      && p'.incompleteChunk == framed.incompleteChunk.GetOr([])
      && p'.rawOutput == p.rawOutput + RawText(p.first, framed.completeChunks)
      && (p'.phase == Finished <==> framed.done)
  {
    var p := Pipe(r, s);
    var framed := Frame(c, s, p.incompleteChunk + value);
    var r1 := WithPipe(r, s, p.(incompleteChunk := framed.incompleteChunk.GetOr([])));
    ChunksRaw(c, s, r1, framed.completeChunks);
    ChunksKeepFraming(c, s, r1, framed.completeChunks);
  }

  predicate IsPrefix(a: string, b: string) {
    |a| <= |b| && b[..|a|] == a
  }

  /**
    Raw outputs only grow, and a pipeline that is no longer reading (its
    model call failed, or its stream ended) never changes again.
  */
  lemma {:induction false} StepsRaw(c: Collaborators, r: Race, events: seq<Event>, s: StreamId)
    ensures IsPrefix(Pipe(r, s).rawOutput, Pipe(Steps(c, r, events), s).rawOutput)
    ensures Pipe(r, s).phase != Reading ==> Pipe(Steps(c, r, events), s) == Pipe(r, s)
  {
    if events != [] {
      var front := events[..|events| - 1];
      StepsRaw(c, r, front, s);
      var r1 := Steps(c, r, front);
      var e := events[|events| - 1];
      if e.Read? && Pipe(r1, e.stream).phase == Reading {
        var p := Pipe(r1, e.stream);
        var framed := Frame(c, e.stream, p.incompleteChunk + e.value);
        var r2 := WithPipe(r1, e.stream, p.(incompleteChunk := framed.incompleteChunk.GetOr([])));
        ChunksRaw(c, e.stream, r2, framed.completeChunks);
        ChunksKeepFraming(c, e.stream, r2, framed.completeChunks);
      }
    }
  }

  // ---------------------------------------------------------------- whole runs

  /** When both model calls fail, nothing is sent and the verdict is possible and clear, with no message. */
  lemma BothCallsFail(c: Collaborators, events: seq<Event>)
    ensures RunSpec(c, true, true, events) == RunResult(Verdict(None, true, true), [])
  {
    StepsShared(c, Initial(true, true), events);
    StepsRaw(c, Initial(true, true), events, PossibleStream);
    StepsRaw(c, Initial(true, true), events, ClarificationStream);
  }

  lemma {:induction false} StepsShared(c: Collaborators, r: Race, events: seq<Event>)
    requires r.possible.phase != Reading && r.clarification.phase != Reading
    ensures Steps(c, r, events) == r
  {
    if events != [] {
      StepsShared(c, r, events[..|events| - 1]);
    }
  }

  /**
    The message is a stream's whole raw output, the model's reasoning
    included; when it comes from the clarification stream it starts with the
    prefilled text.
  */
  lemma RunMessage(c: Collaborators, pf: bool, cf: bool, events: seq<Event>)
    ensures var r := Steps(c, Initial(pf, cf), events);
      var m := RunSpec(c, pf, cf, events).verdict.message;
      m.Some? ==>
        (!pf && m.value == r.possible.rawOutput)
        || (!cf && m.value == r.clarification.rawOutput && IsPrefix(ClarificationPrefix, m.value))
  {
    StepsRaw(c, Initial(pf, cf), events, PossibleStream);
    StepsRaw(c, Initial(pf, cf), events, ClarificationStream);
  }
}
