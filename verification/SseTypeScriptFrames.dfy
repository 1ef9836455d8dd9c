/** What the TypeScript client makes of lines and frames, told without its decoder. */
module SseTypeScriptFrames {
  import opened Wrappers
  import opened SseText
  import opened StreamEvents
  import opened SseTypeScript

  // ---- one line ---------------------------------------------------------------------------

  /** The stream goes on after a frame came to `n`: an exception or a terminal event ends it there. */
  function Continue(n: Normal, next: Outcome): Outcome {
    match n
    case Ignored => next
    case Event(Done(p)) => Outcome([Done(p)], [], Stopped)
    case Event(ErrorEvent(m)) => Outcome([ErrorEvent(m)], [], Stopped)
    case Event(e) => Outcome([e] + next.events, next.ids, next.end)
    case Throws(m) => Outcome([], [], Threw(m))
  }

  /**
    A blank line after some data: blank data is nothing, `[DONE]` ends the stream, JSON is
    normalized, and any other data is text as it came, or an error under a name of its own.
   */
  lemma BlankLineDelivers(c: Codec, event: string, buffer: string, more: seq<string>, broken: bool)
    requires buffer != ""
    ensures var out, next := Interpret(c, event, buffer, [""] + more, broken), Interpret(c, "message", "", more, broken);
            var text := c.trim(buffer);
            if text == "" then out == next
            else if text == "[DONE]" then out == Continue(c.normalize(DoneFrame, "message"), next)
            else match c.json(text)
              case Some(v) => out == Continue(c.normalize(JsonFrame(v), "message"), next)
              case None =>
                if event == "message" then out == Continue(c.normalize(TextFrame(buffer), "message"), next)
                else out == Continue(c.normalize(ErrorFrame("unparseable frame: " + if |text| <= 80 then text else text[..80]), "message"), next)
  {
    assert ([""] + more)[0] == "" && ([""] + more)[1..] == more;
    var next := Interpret(c, "message", "", more, broken);
    assert [] + next.events == next.events && [] + next.ids == next.ids;
  }

  /** A blank line without data dispatches nothing and forgets the event name. */
  lemma BlankLineAlone(c: Codec, event: string, more: seq<string>, broken: bool)
    ensures Interpret(c, event, "", [""] + more, broken) == Interpret(c, "message", "", more, broken)
  {
    assert ([""] + more)[0] == "" && ([""] + more)[1..] == more;
  }

  const ENDED := Outcome([], [], AtEof)

  /** A terminal event that is flushed at the end of the stream is the last one anyway. */
  function Flush(n: Normal): Outcome {
    match n
    case Ignored => ENDED
    case Event(e) => Outcome([e], [], AtEof)
    case Throws(m) => Outcome([], [], Threw(m))
  }

  /** Data left at the end: the same kinds of frame, normalized under the event's own name; nothing if the reader broke. */
  lemma EndOfStreamDelivers(c: Codec, event: string, buffer: string)
    ensures Interpret(c, event, buffer, [], true) == Outcome([], [], Threw("read error"))
    ensures var out, text := Interpret(c, event, buffer, [], false), c.trim(buffer);
            if buffer == "" || text == "" then out == ENDED
            else if text == "[DONE]" then out == Flush(c.normalize(DoneFrame, event))
            else match c.json(text)
              case Some(v) => out == Flush(c.normalize(JsonFrame(v), event))
              case None =>
                if event == "message" then out == Flush(c.normalize(TextFrame(buffer), event))
                else out == Flush(c.normalize(ErrorFrame("unparseable frame: " + if |text| <= 80 then text else text[..80]), event))
  {
  }

  /** A field line in any spelling: a name, a piece of data, an id, which is handed on at once, or nothing. */
  lemma FieldLineMeans(c: Codec, event: string, buffer: string, line: string, name: string, value: string, more: seq<string>, broken: bool)
    requires Writes(line, name, value) && line != ""
    ensures var out := Interpret(c, event, buffer, [line] + more, broken);
            if name == "event" then out == Interpret(c, value, buffer, more, broken)
            else if name == "data" then
              out == Interpret(c, event, if buffer == "" then value else buffer + "\n" + value, more, broken)
            else
              var next := Interpret(c, event, buffer, more, broken);
              out == if name == "id" then Outcome(next.events, [value] + next.ids, next.end) else next
  {
    FieldExactly(line, name, value);
    assert ([line] + more)[0] == line && ([line] + more)[1..] == more;
    var next := Interpret(c, event, buffer, more, broken);
    assert [] + next.events == next.events;
    assert line[0] == ':' ==> name == "";
  }

  // ---- a whole event ----------------------------------------------------------------------

  /** Empty pieces at the start leave no trace. */
  function WithoutEmptyStart(pieces: seq<string>): seq<string> {
    if pieces != [] && pieces[0] == "" then WithoutEmptyStart(pieces[1..]) else pieces
  }

  lemma {:induction false} DataOnBuffer(c: Codec, event: string, buffer: string, pieces: seq<string>, more: seq<string>, broken: bool)
    requires buffer != ""
    ensures Interpret(c, event, buffer, DataLines(pieces) + more, broken)
            == Interpret(c, event, if pieces == [] then buffer else buffer + "\n" + Join(pieces), more, broken)
    decreases |pieces|
  {
    if pieces == [] {
      assert DataLines(pieces) + more == more;
    } else {
      var p, rest := pieces[0], pieces[1..];
      Regroup(["data: " + p], DataLines(rest), more);
      assert "data: " + p == "data" + ": " + p;
      FieldLineMeans(c, event, buffer, "data: " + p, "data", p, DataLines(rest) + more, broken);
      DataOnBuffer(c, event, buffer + "\n" + p, rest, more, broken);
      if rest == [] {
        assert pieces == [p];
      } else {
        JoinFirst(p, rest);
        assert pieces == [p] + rest;
        Regroup(buffer + "\n", p + "\n", Join(rest));
        Regroup(buffer + "\n", p, "\n");
      }
    }
  }

  /** The data of an event is its pieces joined with LF, but for empty ones at the start. */
  lemma {:induction false} DataLinesJoin(c: Codec, event: string, pieces: seq<string>, more: seq<string>, broken: bool)
    ensures Interpret(c, event, "", DataLines(pieces) + more, broken)
            == Interpret(c, event, Join(WithoutEmptyStart(pieces)), more, broken)
    decreases |pieces|
  {
    if pieces == [] {
      assert DataLines(pieces) + more == more;
    } else {
      var p, rest := pieces[0], pieces[1..];
      Regroup(["data: " + p], DataLines(rest), more);
      assert "data: " + p == "data" + ": " + p;
      FieldLineMeans(c, event, "", "data: " + p, "data", p, DataLines(rest) + more, broken);
      if p == "" {
        DataLinesJoin(c, event, rest, more, broken);
      } else {
        DataOnBuffer(c, event, p, rest, more, broken);
        if rest == [] {
          assert pieces == [p];
        } else {
          JoinFirst(p, rest);
          assert pieces == [p] + rest;
        }
      }
    }
  }

  /** So nothing of the data is lost exactly when it has no empty first line, or is a single piece. */
  lemma {:induction false} DataIsKeptExactly(pieces: seq<string>)
    requires pieces != []
    ensures Join(WithoutEmptyStart(pieces)) == Join(pieces) <==> pieces[0] != "" || |pieces| == 1
  {
    if pieces[0] == "" && |pieces| > 1 {
      JoinFirst("", pieces[1..]);
      assert pieces == [""] + pieces[1..];
      ShorterWithoutStart(pieces[1..]);
    }
  }

  lemma {:induction false} ShorterWithoutStart(pieces: seq<string>)
    ensures |Join(WithoutEmptyStart(pieces))| <= |Join(pieces)|
    decreases |pieces|
  {
    if pieces != [] && pieces[0] == "" {
      ShorterWithoutStart(pieces[1..]);
      if |pieces| > 1 {
        JoinFirst("", pieces[1..]);
        assert pieces == [""] + pieces[1..];
      }
    }
  }

  // ---- streams in parts -------------------------------------------------------------------

  /** `front` ends with a blank line and does not end the stream. */
  ghost predicate Whole(c: Codec, event: string, buffer: string, front: seq<string>) {
    front != [] && front[|front| - 1] == "" && Interpret(c, event, buffer, front, false).end == AtEof
  }

  lemma PrependTwice(evs: seq<StreamEvent>, ids: seq<string>, o: Outcome, next: Outcome)
    ensures Prepend(evs, ids, Outcome(o.events + next.events, o.ids + next.ids, next.end))
            == Outcome(Prepend(evs, ids, o).events + next.events, Prepend(evs, ids, o).ids + next.ids, next.end)
  {
    Regroup(evs, o.events, next.events);
    Regroup(ids, o.ids, next.ids);
  }

  /** Events that are complete stay what they are, whatever follows them. */
  lemma {:induction false} AfterWholeEvents(c: Codec, event: string, buffer: string, front: seq<string>, more: seq<string>, broken: bool)
    requires Whole(c, event, buffer, front)
    ensures var first, next := Interpret(c, event, buffer, front, false), Interpret(c, "message", "", more, broken);
            Interpret(c, event, buffer, front + more, broken)
            == Outcome(first.events + next.events, first.ids + next.ids, next.end)
    decreases |front|
  {
    var line, rest := front[0], front[1..];
    var next := Interpret(c, "message", "", more, broken);
    assert (front + more)[0] == line && (front + more)[1..] == rest + more;
    assert [] + next.events == next.events && [] + next.ids == next.ids;
    if rest == [] {
      assert rest + more == more;
    } else if line == "" {
      if Interpret(c, "message", "", rest, false).end == AtEof {
        AfterWholeEvents(c, "message", "", rest, more, broken);
        OneEventFirst(c, event, buffer, rest, next, broken, more);
      }
    } else if line[0] == ':' {
      AfterWholeEvents(c, event, buffer, rest, more, broken);
    } else {
      var (field, value) := Field(line);
      if field == "event" {
        AfterWholeEvents(c, value, buffer, rest, more, broken);
      } else if field == "data" {
        AfterWholeEvents(c, event, AppendData(buffer, value), rest, more, broken);
      } else {
        AfterWholeEvents(c, event, buffer, rest, more, broken);
        PrependTwice([], [value], Interpret(c, event, buffer, rest, false), next);
      }
    }
  }

  lemma OneEventFirst(c: Codec, event: string, buffer: string, rest: seq<string>, next: Outcome, broken: bool, more: seq<string>)
    requires Interpret(c, event, buffer, [""] + rest, false).end == AtEof
    requires var o := Interpret(c, "message", "", rest, false);
             Interpret(c, "message", "", rest + more, broken) == Outcome(o.events + next.events, o.ids + next.ids, next.end)
    ensures var first := Interpret(c, event, buffer, [""] + rest, false);
            Interpret(c, event, buffer, [""] + (rest + more), broken)
            == Outcome(first.events + next.events, first.ids + next.ids, next.end)
  {
    var o := Interpret(c, "message", "", rest, false);
    assert ([""] + rest)[1..] == rest && ([""] + (rest + more))[1..] == rest + more;
    if buffer != "" && Deliver(c, buffer, event, "message").Event? {
      PrependTwice([Deliver(c, buffer, event, "message").event], [], o, next);
    }
  }

  /** A text is read line by line; what follows its last terminator is read too, unless the reader breaks off. */
  lemma TextIsRead(c: Codec, lines: seq<string>, rest: string, broken: bool)
    requires (forall i | 0 <= i < |lines| :: LineFree(lines[i])) && LineFree(rest)
    ensures StreamOf(c, TextWith(lines, LF) + rest, broken)
            == Interpret(c, "message", "", lines + if broken || rest == "" then [] else [rest], broken)
  {
    var text := TextWith(lines, LF);
    LinesByTerminator(lines, LF);
    EachAppend(text, rest);
    assert "" + rest == rest && lines + [] == lines;
  }

  lemma LinesAreRead(c: Codec, lines: seq<string>, broken: bool)
    requires forall i | 0 <= i < |lines| :: LineFree(lines[i])
    ensures StreamOf(c, TextWith(lines, LF), broken) == Interpret(c, "message", "", lines, broken)
  {
    assert TextWith(lines, LF) + "" == TextWith(lines, LF) && lines + [] == lines;
    TextIsRead(c, lines, "", broken);
  }

  lemma DoneFrameFirst(c: Codec, p: string, rest: seq<string>, broken: bool)
    requires c.trim("[DONE]") == "[DONE]" && c.normalize(DoneFrame, "message") == Event(Done(p))
    ensures Interpret(c, "message", "", ["data: [DONE]", ""] + rest, broken) == Outcome([Done(p)], [], Stopped)
  {
    assert "data: [DONE]" == "data" + ": " + "[DONE]";
    assert ["data: [DONE]", ""] + rest == ["data: [DONE]"] + ([""] + rest);
    FieldLineMeans(c, "message", "", "data: [DONE]", "data", "[DONE]", [""] + rest, broken);
    BlankLineDelivers(c, "message", "[DONE]", rest, broken);
  }

  /** A stream of whole events, then `[DONE]`: it stops there with whatever the normalizer makes of it, and reads no further. */
  lemma DoneFrameStopsTheStream(c: Codec, front: seq<string>, p: string, rest: seq<string>, broken: bool)
    requires front == [] || Whole(c, "message", "", front)
    requires c.trim("[DONE]") == "[DONE]" && c.normalize(DoneFrame, "message") == Event(Done(p))
    ensures var first := Interpret(c, "message", "", front, false);
            Interpret(c, "message", "", front + (["data: [DONE]", ""] + rest), broken)
            == Outcome(first.events + [Done(p)], first.ids, Stopped)
  {
    var tail := ["data: [DONE]", ""] + rest;
    DoneFrameFirst(c, p, rest, broken);
    var first := Interpret(c, "message", "", front, false);
    assert first.ids + [] == first.ids;
    if front == [] {
      assert front + tail == tail && [] + [Done(p)] == [Done(p)];
    } else {
      AfterWholeEvents(c, "message", "", front, tail, broken);
    }
  }
}
