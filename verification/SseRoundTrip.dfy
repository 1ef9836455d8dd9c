/** Printing events and reading them back with the Rust parser. */
module SseRoundTrip {
  import opened Wrappers
  import opened SseText
  import opened SseRust

  function IdLines(id: Option<string>): seq<string> {
    if id.Some? then ["id: " + id.value] else []
  }

  /** An event as a server writes it: name, optional id, one data line per LF-separated piece, a blank line. */
  function EventLines(e: SseEvent): seq<string> {
    ["event: " + e.event] + (IdLines(e.id) + (DataLines(Pieces(e.data)) + [""]))
  }

  function AllEventLines(events: seq<SseEvent>): seq<string> {
    if events == [] then [] else EventLines(events[0]) + AllEventLines(events[1..])
  }

  /** No stray line break: none in the name or the id, no CR in the data. */
  ghost predicate Printable(e: SseEvent) {
    LineFree(e.event) && (e.id.Some? ==> LineFree(e.id.value)) && '\r' !in e.data
  }

  /** A field line in any spelling sets the name or the id, adds a piece of data, or is of no consequence, as comments are. */
  lemma FieldLineMeans(a: Acc, line: string, name: string, value: string)
    requires Writes(line, name, value) && line != ""
    ensures StepEvents(a, line) == []
    ensures StepAcc(a, line)
            == if name == "event" then Acc(Some(value), a.data, a.id)
               else if name == "id" then Acc(a.event, a.data, Some(value))
               else if name == "data" then Acc(a.event, a.data + [value], a.id)
               else a
  {
    FieldExactly(line, name, value);
    assert line[0] == ':' ==> name == "";
  }

  /** A blank line dispatches exactly when there is a name, an id or some data; the name is `message` unless given. */
  lemma BlankLineMeans(a: Acc)
    ensures StepEvents(a, "")
            == if a.event.None? && a.id.None? && Join(a.data) == "" then []
               else [SseEvent(if a.event.None? then "message" else a.event.value, Join(a.data), a.id)]
    ensures StepAcc(a, "") == Acc(None, [], None)
  {
  }

  lemma NamedLine(a: Acc, name: string, value: string)
    requires name == "event" || name == "id" || name == "data"
    ensures StepEvents(a, name + ": " + value) == []
    ensures StepAcc(a, name + ": " + value)
            == if name == "event" then a.(event := Some(value))
               else if name == "id" then a.(id := Some(value)) else a.(data := a.data + [value])
  {
    FieldLineMeans(a, name + ": " + value, name, value);
  }

  lemma {:induction false} DataLinesAccumulate(a: Acc, pieces: seq<string>)
    ensures Events(a, DataLines(pieces)) == []
    ensures AccAfter(a, DataLines(pieces)) == a.(data := a.data + pieces)
    decreases |pieces|
  {
    if pieces == [] {
      assert a.data + [] == a.data;
    } else {
      NamedLine(a, "data", pieces[0]);
      assert "data" + ": " + pieces[0] == "data: " + pieces[0];
      var a' := StepAcc(a, "data: " + pieces[0]);
      EventsAppend(a, ["data: " + pieces[0]], DataLines(pieces[1..]));
      EventsOfOne(a, "data: " + pieces[0]);
      DataLinesAccumulate(a', pieces[1..]);
      Regroup(a.data, [pieces[0]], pieces[1..]);
      assert [pieces[0]] + pieces[1..] == pieces;
    }
  }

  lemma EventsOfOne(a: Acc, line: string)
    ensures Events(a, [line]) == StepEvents(a, line) && AccAfter(a, [line]) == StepAcc(a, line)
  {
    assert [line][1..] == [];
  }

  lemma IdLinesAccumulate(a: Acc, id: Option<string>)
    requires a.id.None?
    ensures Events(a, IdLines(id)) == [] && AccAfter(a, IdLines(id)) == a.(id := id)
  {
    if id.Some? {
      NamedLine(a, "id", id.value);
      assert "id" + ": " + id.value == "id: " + id.value;
      EventsOfOne(a, "id: " + id.value);
    }
  }

  lemma EventLinesDispatch(e: SseEvent)
    ensures Events(EMPTY, EventLines(e)) == [e] && AccAfter(EMPTY, EventLines(e)) == EMPTY
  {
    var a1 := EMPTY.(event := Some(e.event));
    var a2 := a1.(id := e.id);
    var a3 := a2.(data := Pieces(e.data));
    NamedLine(EMPTY, "event", e.event);
    assert "event" + ": " + e.event == "event: " + e.event;
    EventsOfOne(EMPTY, "event: " + e.event);
    EventsAppend(EMPTY, ["event: " + e.event], IdLines(e.id) + (DataLines(Pieces(e.data)) + [""]));
    IdLinesAccumulate(a1, e.id);
    EventsAppend(a1, IdLines(e.id), DataLines(Pieces(e.data)) + [""]);
    DataLinesAccumulate(a2, Pieces(e.data));
    assert [] + Pieces(e.data) == Pieces(e.data);
    EventsAppend(a2, DataLines(Pieces(e.data)), [""]);
    EventsOfOne(a3, "");
    JoinPieces(e.data);
  }

  lemma {:induction false} AllEventLinesDispatch(events: seq<SseEvent>)
    ensures Events(EMPTY, AllEventLines(events)) == events && AccAfter(EMPTY, AllEventLines(events)) == EMPTY
  {
    if events != [] {
      EventLinesDispatch(events[0]);
      AllEventLinesDispatch(events[1..]);
      EventsAppend(EMPTY, EventLines(events[0]), AllEventLines(events[1..]));
      assert events == [events[0]] + events[1..];
    }
  }

  /**
    Round trip: any events, printed with any mixture of terminators that is not ambiguous,
    come back from one call exactly, with nothing pending and nothing half-built.
   */
  lemma RoundTrip(events: seq<SseEvent>, lines: seq<RawLine>)
    requires Texts(lines) == AllEventLines(events) && AllLineFree(lines) && Unambiguous(lines)
    ensures Parse(Render(lines)) == events && Rest(Render(lines)) == "" && Dropped(Render(lines)) == EMPTY
  {
    SplitOfRendered(lines, "");
    assert Render(lines) + "" == Render(lines);
    LinesAreTexts(Render(lines));
    AllEventLinesDispatch(events);
  }

  // ---- one terminator throughout ----------------------------------------------------------

  function Uniform(texts: seq<string>, end: Terminator): (lines: seq<RawLine>)
    ensures |lines| == |texts| && forall i | 0 <= i < |texts| :: lines[i] == RawLine(texts[i], end)
    ensures Texts(lines) == texts
  {
    if texts == [] then [] else [RawLine(texts[0], end)] + Uniform(texts[1..], end)
  }

  function Print(events: seq<SseEvent>, end: Terminator): string {
    Render(Uniform(AllEventLines(events), end))
  }

  ghost predicate LineFreeAll(texts: seq<string>) {
    forall i | 0 <= i < |texts| :: LineFree(texts[i])
  }

  lemma {:induction false} DataLinesLineFree(pieces: seq<string>)
    requires LineFreeAll(pieces)
    ensures LineFreeAll(DataLines(pieces))
  {
    if pieces != [] {
      DataLinesLineFree(pieces[1..]);
      assert LineFree(pieces[0]);
    }
  }

  lemma EventLinesLineFree(e: SseEvent)
    requires Printable(e)
    ensures LineFreeAll(EventLines(e))
  {
    PiecesLineFree(e.data);
    DataLinesLineFree(Pieces(e.data));
    assert LineFreeAll(IdLines(e.id));
    assert LineFree("event: " + e.event);
  }

  lemma {:induction false} AllEventLinesLineFree(events: seq<SseEvent>)
    requires forall i | 0 <= i < |events| :: Printable(events[i])
    ensures LineFreeAll(AllEventLines(events))
  {
    if events != [] {
      EventLinesLineFree(events[0]);
      AllEventLinesLineFree(events[1..]);
    }
  }

  /** LF, CRLF or CR used throughout: the same events come back, so the terminator cannot be told from the result. */
  lemma UniformRoundTrip(events: seq<SseEvent>, end: Terminator)
    requires forall i | 0 <= i < |events| :: Printable(events[i])
    ensures Parse(Print(events, end)) == events
    ensures Rest(Print(events, end)) == "" && Dropped(Print(events, end)) == EMPTY
  {
    AllEventLinesLineFree(events);
    RoundTrip(events, Uniform(AllEventLines(events), end));
  }
}
