/** The TypeScript client's line reader and frame interpreter, as functions on text. */
module SseTypeScript {
  import opened Wrappers
  import opened SseText
  import opened StreamEvents

  // ---- lines ------------------------------------------------------------------------------

  /** The tail after the first break: always one character on, also behind a CR that an LF follows. */
  function EachTail(s: string): (tail: string)
    requires HasLine(s)
    ensures |tail| < |s|
  {
    s[FirstBreak(s) + 1..]
  }

  function EachLine(s: string): seq<string>
    decreases |s|
  {
    if HasLine(s) then [s[..FirstBreak(s)]] + EachLine(EachTail(s)) else []
  }

  function EachRest(s: string): string
    decreases |s|
  {
    if HasLine(s) then EachRest(EachTail(s)) else s
  }

  /** Everything the reader yields for the whole text: its lines and a last one that has no terminator. */
  function AllLines(s: string): seq<string> {
    EachLine(s) + if EachRest(s) != "" then [EachRest(s)] else []
  }

  lemma EachAppendHead(s: string, t: string)
    requires HasLine(s)
    ensures HasLine(s + t) && (s + t)[..FirstBreak(s + t)] == s[..FirstBreak(s)]
    ensures EachTail(s + t) == EachTail(s) + t
  {
    var i := FirstBreak(s);
    assert forall j | 0 <= j < |s| :: (s + t)[j] == s[j];
    assert FirstBreak(s + t) == i;
  }

  lemma {:induction false} EachAppend(s: string, t: string)
    ensures EachLine(s + t) == EachLine(s) + EachLine(EachRest(s) + t)
    ensures EachRest(s + t) == EachRest(EachRest(s) + t)
    decreases |s|
  {
    if HasLine(s) {
      EachAppendHead(s, t);
      EachAppend(EachTail(s), t);
      Regroup([s[..FirstBreak(s)]], EachLine(EachTail(s)), EachLine(EachRest(EachTail(s)) + t));
    } else {
      Regroup([], [], EachLine(s + t));
    }
  }

  /** Reading chunk by chunk: each is appended to the buffer and the buffer drained of its lines. */
  function ReadChunks(buffer: string, chunks: seq<string>): seq<string>
    decreases |chunks|
  {
    if chunks == [] then if buffer != "" then [buffer] else []
    else EachLine(buffer + chunks[0]) + ReadChunks(EachRest(buffer + chunks[0]), chunks[1..])
  }

  /** However the text is cut into chunks, also inside a CRLF, the reader yields the lines of the whole. */
  lemma {:induction false} ChunksDoNotMatter(buffer: string, chunks: seq<string>)
    requires LineFree(buffer)
    ensures ReadChunks(buffer, chunks) == AllLines(buffer + Flatten(chunks))
    decreases |chunks|
  {
    if chunks == [] {
      assert buffer + "" == buffer;
      Regroup([], [], ReadChunks(buffer, []));
    } else {
      var s, later := buffer + chunks[0], Flatten(chunks[1..]);
      RestIsLineFree(s);
      ChunksDoNotMatter(EachRest(s), chunks[1..]);
      EachAppend(s, later);
      Regroup(buffer, chunks[0], later);
      Regroup(EachLine(s), EachLine(EachRest(s) + later), if EachRest(s + later) != "" then [EachRest(s + later)] else []);
    }
  }

  lemma {:induction false} RestIsLineFree(s: string)
    ensures LineFree(EachRest(s))
    decreases |s|
  {
    if HasLine(s) {
      RestIsLineFree(EachTail(s));
    }
  }

  // ---- frames -----------------------------------------------------------------------------

  datatype Frame =
    | DoneFrame
    | TextFrame(text: string)
    | ErrorFrame(message: string)
    | JsonFrame(value: string)

  /** What `normalizeFrame` makes of a frame: nothing, an event, or an exception. */
  datatype Normal = Ignored | Event(event: StreamEvent) | Throws(message: string)

  /** JavaScript's `trim` and `JSON.parse`, and the frame normalizer. */
  datatype Codec = Codec(
    trim: string -> string,
    json: string -> Option<string>,
    normalize: (Frame, string) -> Normal)

  function DecodeFrame(c: Codec, data: string, event: string): Option<Frame> {
    var trimmed := c.trim(data);
    if trimmed == "" then None
    else if trimmed == "[DONE]" then Some(DoneFrame)
    else match c.json(trimmed)
      case Some(v) => Some(JsonFrame(v))
      case None =>
        if event == "message" then Some(TextFrame(data))
        else Some(ErrorFrame("unparseable frame: " + if |trimmed| > 80 then trimmed[..80] else trimmed))
  }

  /** A frame decoded under `event` and normalized under `as`. */
  function Deliver(c: Codec, data: string, event: string, nameGiven: string): Normal {
    match DecodeFrame(c, data, event)
    case None => Ignored
    case Some(frame) => c.normalize(frame, nameGiven)
  }

  datatype End = AtEof | Stopped | Threw(message: string)

  /** What a consumer of the stream sees, and the ids handed to `onId` on the way. */
  datatype Outcome = Outcome(events: seq<StreamEvent>, ids: seq<string>, end: End)

  function Prepend(evs: seq<StreamEvent>, ids: seq<string>, o: Outcome): Outcome {
    Outcome(evs + o.events, ids + o.ids, o.end)
  }

  function AppendData(buffer: string, value: string): string {
    if buffer == "" then value else buffer + "\n" + value
  }

  /**
    The generator over the remaining lines, from event name `event` and data buffer `buffer`.
    When the reader is `broken` its exception ends the lines; otherwise a last frame is flushed.
   */
  function Interpret(c: Codec, event: string, buffer: string, lines: seq<string>, broken: bool): Outcome
    decreases |lines|
  {
    if lines == [] then
      if broken then Outcome([], [], Threw("read error"))
      else if buffer == "" then Outcome([], [], AtEof)
      else match Deliver(c, buffer, event, event)
        case Ignored => Outcome([], [], AtEof)
        case Event(e) => Outcome([e], [], AtEof)
        case Throws(m) => Outcome([], [], Threw(m))
    else
      var line, more := lines[0], lines[1..];
      if line == "" then
        if buffer == "" then Interpret(c, "message", "", more, broken)
        else match Deliver(c, buffer, event, "message")
          case Ignored => Interpret(c, "message", "", more, broken)
          case Event(e) =>
            if Terminal(e) then Outcome([e], [], Stopped) else Prepend([e], [], Interpret(c, "message", "", more, broken))
          case Throws(m) => Outcome([], [], Threw(m))
      else if line[0] == ':' then Interpret(c, event, buffer, more, broken)
      else
        var (field, value) := Field(line);
        if field == "event" then Interpret(c, value, buffer, more, broken)
        else if field == "data" then Interpret(c, event, AppendData(buffer, value), more, broken)
        else if field == "id" then Prepend([], [value], Interpret(c, event, buffer, more, broken))
        else Interpret(c, event, buffer, more, broken)
  }

  /** The stream over a text; a reader that breaks never yields its unterminated last line. */
  function StreamOf(c: Codec, text: string, broken: bool): Outcome {
    Interpret(c, "message", "", if broken then EachLine(text) else AllLines(text), broken)
  }

  /** Only the last event of a stream can be a `done` or an `error`, and nothing is thrown after it. */
  lemma {:induction false} NothingFollowsATerminalEvent(
      c: Codec, event: string, buffer: string, lines: seq<string>, broken: bool, i: nat)
    ensures var o := Interpret(c, event, buffer, lines, broken);
            i < |o.events| && Terminal(o.events[i]) ==> i == |o.events| - 1 && !o.end.Threw?
    decreases |lines|
  {
    if lines != [] {
      var line, more := lines[0], lines[1..];
      if line == "" {
        if buffer != "" && Deliver(c, buffer, event, "message").Event? && i > 0 {
          NothingFollowsATerminalEvent(c, "message", "", more, broken, i - 1);
        }
        NothingFollowsATerminalEvent(c, "message", "", more, broken, i);
      } else {
        var (field, value) := Field(line);
        NothingFollowsATerminalEvent(c, event, buffer, more, broken, i);
        NothingFollowsATerminalEvent(c, value, buffer, more, broken, i);
        NothingFollowsATerminalEvent(c, event, AppendData(buffer, value), more, broken, i);
      }
    }
  }

  // ---- CRLF -------------------------------------------------------------------------------

  function TextWith(lines: seq<string>, end: Terminator): string {
    if lines == [] then "" else lines[0] + Ending(end) + TextWith(lines[1..], end)
  }

  /** Every line followed by a blank one. */
  function Doubled(lines: seq<string>): seq<string> {
    if lines == [] then [] else [lines[0], ""] + Doubled(lines[1..])
  }

  lemma EachFold(text: string, b: char, tail: string)
    requires LineFree(text) && IsBreak(b)
    ensures EachLine(text + [b] + tail) == [text] + EachLine(tail) && EachRest(text + [b] + tail) == EachRest(tail)
  {
    var s := text + [b] + tail;
    assert s[|text|] == b && forall j | 0 <= j < |text| :: s[j] == text[j];
    assert FirstBreak(s) == |text|;
    assert s[..|text|] == text && EachTail(s) == tail;
  }

  lemma CrlfIsCrThenLf(text: string, tail: string)
    ensures text + "\r\n" + tail == text + ['\r'] + ("" + ['\n'] + tail)
  {
    assert "\r\n" == ['\r'] + ['\n'];
    Regroup(text, ['\r'], ['\n']);
    Regroup(text + ['\r'], ['\n'], tail);
  }

  lemma EachFoldCrlf(text: string, tail: string)
    requires LineFree(text)
    ensures EachLine(text + "\r\n" + tail) == [text, ""] + EachLine(tail)
    ensures EachRest(text + "\r\n" + tail) == EachRest(tail)
  {
    CrlfIsCrThenLf(text, tail);
    EachFold("", '\n', tail);
    EachFold(text, '\r', "" + ['\n'] + tail);
    Regroup([text], [""], EachLine(tail));
  }

  lemma OneMoreLine(l: string, tail: string, end: Terminator)
    requires LineFree(l)
    ensures EachLine(l + Ending(end) + tail) == (if end == CRLF then [l, ""] else [l]) + EachLine(tail)
    ensures EachRest(l + Ending(end) + tail) == EachRest(tail)
  {
    if end == CRLF {
      EachFoldCrlf(l, tail);
    } else {
      EachFold(l, if end == LF then '\n' else '\r', tail);
    }
  }

  /** A CRLF stream reads as its lines with a blank line after each; LF and CR streams read as their lines. */
  lemma {:induction false} LinesByTerminator(lines: seq<string>, end: Terminator)
    requires forall i | 0 <= i < |lines| :: LineFree(lines[i])
    ensures EachLine(TextWith(lines, end)) == if end == CRLF then Doubled(lines) else lines
    ensures EachRest(TextWith(lines, end)) == ""
    ensures AllLines(TextWith(lines, end)) == EachLine(TextWith(lines, end))
  {
    if lines != [] {
      LinesByTerminator(lines[1..], end);
      OneMoreLine(lines[0], TextWith(lines[1..], end), end);
      assert TextWith(lines, end) == lines[0] + Ending(end) + TextWith(lines[1..], end);
      assert lines == [lines[0]] + lines[1..];
    }
  }

  /** The data and event name of every frame the lines dispatch, the last one possibly at end of stream. */
  function Dispatched(event: string, buffer: string, lines: seq<string>): seq<(string, string)>
    decreases |lines|
  {
    var here := if buffer == "" then [] else [(buffer, event)];
    if lines == [] then here
    else
      var line, more := lines[0], lines[1..];
      if line == "" then here + Dispatched("message", "", more)
      else if line[0] == ':' then Dispatched(event, buffer, more)
      else
        var (field, value) := Field(line);
        if field == "event" then Dispatched(value, buffer, more)
        else if field == "data" then Dispatched(event, AppendData(buffer, value), more)
        else Dispatched(event, buffer, more)
  }

  /**
    Between blank lines there is no `data` line after a non-empty one, and the event name
    in force where a frame ends is the default one.
   */
  predicate Flat(event: string, buffer: string, lines: seq<string>)
    decreases |lines|
  {
    if lines == [] then buffer != "" ==> event == "message"
    else
      var line, more := lines[0], lines[1..];
      if line == "" then (buffer != "" ==> event == "message") && Flat("message", "", more)
      else if line[0] == ':' then Flat(event, buffer, more)
      else
        var (field, value) := Field(line);
        if field == "event" then Flat(value, buffer, more)
        else if field == "data" then buffer == "" && Flat(event, value, more)
        else Flat(event, buffer, more)
  }

  /** What a doubled stream dispatches: every non-empty data line by itself under the default name. */
  function DataFrames(lines: seq<string>): seq<(string, string)> {
    if lines == [] then []
    else
      (if lines[0] != "" && lines[0][0] != ':' && Field(lines[0]).0 == "data" && Field(lines[0]).1 != ""
       then [(Field(lines[0]).1, "message")] else [])
      + DataFrames(lines[1..])
  }

  lemma {:induction false} DoubledDispatchesEachDataLine(lines: seq<string>)
    ensures Dispatched("message", "", Doubled(lines)) == DataFrames(lines)
  {
    if lines != [] {
      var line, d := lines[0], Doubled(lines);
      DoubledDispatchesEachDataLine(lines[1..]);
      assert d[1..] == [""] + Doubled(lines[1..]) && d[1..][1..] == Doubled(lines[1..]);
      var event, buffer := "message", "";
      if line != "" && line[0] != ':' {
        var (field, value) := Field(line);
        event := if field == "event" then value else event;
        buffer := if field == "data" then value else buffer;
      }
      assert Dispatched("message", "", d) == Dispatched(event, buffer, d[1..]);
    }
  }

  lemma {:induction false} FirstFrameKeepsBuffer(event: string, buffer: string, lines: seq<string>)
    requires buffer != ""
    ensures Dispatched(event, buffer, lines) != [] && |Dispatched(event, buffer, lines)[0].0| >= |buffer|
    decreases |lines|
  {
    if lines != [] && lines[0] != "" {
      var (field, value) := Field(lines[0]);
      FirstFrameKeepsBuffer(event, buffer, lines[1..]);
      FirstFrameKeepsBuffer(value, buffer, lines[1..]);
      FirstFrameKeepsBuffer(event, AppendData(buffer, value), lines[1..]);
    }
  }

  function Pending(buffer: string, event: string): seq<(string, string)> {
    if buffer == "" then [] else [(buffer, event)]
  }

  lemma FlatBlank(event: string, buffer: string, more: seq<string>)
    requires Dispatched("message", "", more) == DataFrames(more) <==> Flat("message", "", more)
    ensures Dispatched(event, buffer, [""] + more) == Pending(buffer, "message") + DataFrames([""] + more)
            <==> Flat(event, buffer, [""] + more)
  {
    assert ([""] + more)[1..] == more;
    assert DataFrames([""] + more) == [] + DataFrames(more) == DataFrames(more);
    assert Dispatched(event, buffer, [""] + more) == Pending(buffer, event) + Dispatched("message", "", more);
    SameStart(Pending(buffer, event), Pending(buffer, "message"), Dispatched("message", "", more), DataFrames(more));
  }

  lemma SecondDataLine(event: string, buffer: string, line: string, more: seq<string>)
    requires line != "" && line[0] != ':' && Field(line).0 == "data" && buffer != ""
    ensures Dispatched(event, buffer, [line] + more) != Pending(buffer, "message") + DataFrames([line] + more)
  {
    assert ([line] + more)[1..] == more;
    FirstFrameKeepsBuffer(event, AppendData(buffer, Field(line).1), more);
  }

  lemma {:induction false} FlatExactly(event: string, buffer: string, lines: seq<string>)
    ensures Dispatched(event, buffer, lines) == Pending(buffer, "message") + DataFrames(lines)
            <==> Flat(event, buffer, lines)
    decreases |lines|
  {
    if lines == [] {
      assert DataFrames(lines) == [];
      SameStart(Pending(buffer, event), Pending(buffer, "message"), [], []);
      assert Pending(buffer, event) + [] == Pending(buffer, event);
    } else {
      var line, more := lines[0], lines[1..];
      assert lines == [line] + more;
      if line == "" {
        FlatExactly("message", "", more);
        assert Pending("", "message") + DataFrames(more) == DataFrames(more);
        FlatBlank(event, buffer, more);
      } else if line[0] == ':' {
        assert DataFrames(lines) == [] + DataFrames(more) == DataFrames(more);
        FlatExactly(event, buffer, more);
      } else {
        var (field, value) := Field(line);
        assert field != "data" ==> DataFrames(lines) == [] + DataFrames(more) == DataFrames(more);
        if field == "data" && buffer != "" {
          SecondDataLine(event, buffer, line, more);
        } else if field == "data" {
          FlatExactly(event, value, more);
          assert DataFrames(lines) == Pending(value, "message") + DataFrames(more);
          assert Pending(buffer, "message") + DataFrames(lines) == DataFrames(lines);
        } else if field == "event" {
          FlatExactly(value, buffer, more);
        } else {
          FlatExactly(event, buffer, more);
        }
      }
    }
  }

  lemma SameStart<T>(a: seq<T>, b: seq<T>, x: seq<T>, y: seq<T>)
    requires |a| == |b|
    ensures a + x == b + y <==> a == b && x == y
  {
    if a + x == b + y {
      assert a == (a + x)[..|a|] == (b + y)[..|b|] == b;
      assert x == (a + x)[|a|..] == (b + y)[|b|..] == y;
    }
  }

  /**
    CRLF is not another spelling of LF to this client: the two streams dispatch the same
    frames exactly when the lines are flat. A named event or a second data line is not.
   */
  lemma CrlfAgreesWithLfExactly(lines: seq<string>)
    requires forall i | 0 <= i < |lines| :: LineFree(lines[i])
    ensures Dispatched("message", "", AllLines(TextWith(lines, CRLF))) == Dispatched("message", "", AllLines(TextWith(lines, LF)))
            <==> Flat("message", "", lines)
  {
    LinesByTerminator(lines, CRLF);
    LinesByTerminator(lines, LF);
    DoubledDispatchesEachDataLine(lines);
    FlatExactly("message", "", lines);
    assert [] + DataFrames(lines) == DataFrames(lines);
  }

  // ---- frames decide events -----------------------------------------------------------------

  /** The frames that a blank line dispatches. */
  function Closed(event: string, buffer: string, lines: seq<string>): seq<(string, string)>
    decreases |lines|
  {
    if lines == [] then []
    else
      var line, more := lines[0], lines[1..];
      if line == "" then (if buffer == "" then [] else [(buffer, event)]) + Closed("message", "", more)
      else if line[0] == ':' then Closed(event, buffer, more)
      else
        var (field, value) := Field(line);
        if field == "event" then Closed(value, buffer, more)
        else if field == "data" then Closed(event, AppendData(buffer, value), more)
        else Closed(event, buffer, more)
  }

  /** The frame left unfinished at the end of the lines. */
  function Unfinished(event: string, buffer: string, lines: seq<string>): Option<(string, string)>
    decreases |lines|
  {
    if lines == [] then if buffer == "" then None else Some((buffer, event))
    else
      var line, more := lines[0], lines[1..];
      if line == "" then Unfinished("message", "", more)
      else if line[0] == ':' then Unfinished(event, buffer, more)
      else
        var (field, value) := Field(line);
        if field == "event" then Unfinished(value, buffer, more)
        else if field == "data" then Unfinished(event, AppendData(buffer, value), more)
        else Unfinished(event, buffer, more)
  }

  function AsSeq(frame: Option<(string, string)>): seq<(string, string)> {
    if frame.Some? then [frame.value] else []
  }

  /** The events made of frames, up to a terminal event or an exception: `last` is flushed and keeps its own name. */
  function Play(c: Codec, frames: seq<(string, string)>, last: Option<(string, string)>): seq<StreamEvent>
    decreases |frames|
  {
    if frames == [] then
      if last.None? then []
      else match Deliver(c, last.value.0, last.value.1, last.value.1)
        case Event(e) => [e]
        case _ => []
    else match Deliver(c, frames[0].0, frames[0].1, "message")
      case Ignored => Play(c, frames[1..], last)
      case Event(e) => if Terminal(e) then [e] else [e] + Play(c, frames[1..], last)
      case Throws(_) => []
  }

  lemma {:induction false} DispatchedParts(event: string, buffer: string, lines: seq<string>)
    ensures Dispatched(event, buffer, lines) == Closed(event, buffer, lines) + AsSeq(Unfinished(event, buffer, lines))
    decreases |lines|
  {
    if lines != [] {
      var line, more := lines[0], lines[1..];
      if line == "" {
        DispatchedParts("message", "", more);
        var here := if buffer == "" then [] else [(buffer, event)];
        Regroup(here, Closed("message", "", more), AsSeq(Unfinished("message", "", more)));
      } else if line[0] == ':' {
        DispatchedParts(event, buffer, more);
      } else {
        var (field, value) := Field(line);
        DispatchedParts(event, buffer, more);
        DispatchedParts(value, buffer, more);
        DispatchedParts(event, AppendData(buffer, value), more);
      }
    }
  }

  /** The events of any stream are those of its frames: a reader that breaks never flushes the last one. */
  lemma {:induction false} EventsOfFrames(c: Codec, event: string, buffer: string, lines: seq<string>, broken: bool)
    ensures Interpret(c, event, buffer, lines, broken).events
            == Play(c, Closed(event, buffer, lines), if broken then None else Unfinished(event, buffer, lines))
    decreases |lines|
  {
    if lines != [] {
      var line, more := lines[0], lines[1..];
      if line == "" {
        EventsOfFrames(c, "message", "", more, broken);
        var later := Closed("message", "", more);
        assert [] + later == later;
        assert buffer != "" ==> ([(buffer, event)] + later)[1..] == later;
      } else if line[0] == ':' {
        EventsOfFrames(c, event, buffer, more, broken);
      } else {
        var (field, value) := Field(line);
        EventsOfFrames(c, event, buffer, more, broken);
        EventsOfFrames(c, value, buffer, more, broken);
        EventsOfFrames(c, event, AppendData(buffer, value), more, broken);
      }
    }
  }

  /** A flushed frame of the default name plays like any other. */
  lemma {:induction false} DefaultNamePlaysAlike(c: Codec, frames: seq<(string, string)>, last: Option<(string, string)>)
    requires last.Some? ==> last.value.1 == "message"
    ensures Play(c, frames, last) == Play(c, frames + AsSeq(last), None)
    decreases |frames|
  {
    var all := frames + AsSeq(last);
    if frames == [] {
      assert last.Some? ==> all[1..] == [];
    } else {
      DefaultNamePlaysAlike(c, frames[1..], last);
      assert all[0] == frames[0] && all[1..] == frames[1..] + AsSeq(last);
    }
  }

  /** Whatever is left unfinished in flat lines has the default name. */
  lemma {:induction false} FlatEndsDefault(event: string, buffer: string, lines: seq<string>)
    requires Flat(event, buffer, lines)
    ensures Unfinished(event, buffer, lines).Some? ==> Unfinished(event, buffer, lines).value.1 == "message"
    decreases |lines|
  {
    if lines != [] {
      var line, more := lines[0], lines[1..];
      if line == "" {
        FlatEndsDefault("message", "", more);
      } else if line[0] == ':' {
        FlatEndsDefault(event, buffer, more);
      } else {
        var (field, value) := Field(line);
        if field == "event" {
          FlatEndsDefault(value, buffer, more);
        } else if field == "data" {
          FlatEndsDefault(event, value, more);
        } else {
          FlatEndsDefault(event, buffer, more);
        }
      }
    }
  }

  lemma {:induction false} DoubledIsFinished(lines: seq<string>)
    ensures Unfinished("message", "", Doubled(lines)).None?
  {
    if lines != [] {
      var d := Doubled(lines);
      DoubledIsFinished(lines[1..]);
      assert d[1..][0] == "" && d[1..][1..] == Doubled(lines[1..]);
      assert forall event, buffer :: Unfinished(event, buffer, d[1..]).None?;
    }
  }

  lemma DefaultEventsOfFrames(c: Codec, lines: seq<string>)
    requires Unfinished("message", "", lines).Some? ==> Unfinished("message", "", lines).value.1 == "message"
    ensures Interpret(c, "message", "", lines, false).events == Play(c, Dispatched("message", "", lines), None)
  {
    EventsOfFrames(c, "message", "", lines, false);
    DispatchedParts("message", "", lines);
    DefaultNamePlaysAlike(c, Closed("message", "", lines), Unfinished("message", "", lines));
  }

  /** Flat streams read alike whatever the JSON and the normalizer are: same events over LF and over CRLF. */
  lemma FlatStreamsReadAlike(c: Codec, lines: seq<string>)
    requires (forall i | 0 <= i < |lines| :: LineFree(lines[i])) && Flat("message", "", lines)
    ensures StreamOf(c, TextWith(lines, CRLF), false).events == StreamOf(c, TextWith(lines, LF), false).events
  {
    CrlfAgreesWithLfExactly(lines);
    LinesByTerminator(lines, CRLF);
    LinesByTerminator(lines, LF);
    DoubledIsFinished(lines);
    FlatEndsDefault("message", "", lines);
    DefaultEventsOfFrames(c, lines);
    DefaultEventsOfFrames(c, Doubled(lines));
  }

  /** Two data lines of one event arrive as two events over CRLF. */
  lemma CrlfSplitsAnEvent()
    ensures var lines := ["data: a", "data: b", ""];
            && Dispatched("message", "", AllLines(TextWith(lines, LF))) == [("a\nb", "message")]
            && Dispatched("message", "", AllLines(TextWith(lines, CRLF))) == [("a", "message"), ("b", "message")]
  {
    var lines := ["data: a", "data: b", ""];
    LinesByTerminator(lines, CRLF);
    LinesByTerminator(lines, LF);
    DoubledDispatchesEachDataLine(lines);
    TwoDataLines();
  }

  lemma TwoDataLines()
    ensures Dispatched("message", "", ["data: a", "data: b", ""]) == [("a\nb", "message")]
    ensures DataFrames(["data: a", "data: b", ""]) == [("a", "message"), ("b", "message")]
  {
    var lines := ["data: a", "data: b", ""];
    FieldOf("data: a", "data", " a");
    FieldOf("data: b", "data", " b");
    assert lines[1..] == ["data: b", ""] && ["data: b", ""][1..] == [""] && [""][1..] == [];
    assert DataFrames([""]) == [] && DataFrames(["data: b", ""]) == [("b", "message")];
    assert Dispatched("message", "a\nb", [""]) == [("a\nb", "message")];
    assert AppendData("a", "b") == "a\nb" && AppendData("", "a") == "a";
    assert Dispatched("message", "a", ["data: b", ""]) == [("a\nb", "message")];
  }
}
