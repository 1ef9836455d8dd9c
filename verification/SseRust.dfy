/** The Rust client's event-stream parser, as functions on text. */
module SseRust {
  import opened Wrappers
  import opened SseText

  datatype SseEvent = SseEvent(event: string, data: string, id: Option<string>)

  /** One event under construction. */
  datatype Acc = Acc(event: Option<string>, data: seq<string>, id: Option<string>)

  const EMPTY := Acc(None, [], None)

  /** Dispatch at a blank line: the event, if there is one, and the accumulator afterwards. */
  function Reset(a: Acc): (Option<SseEvent>, Acc) {
    if a.data == [] && a.event.None? && a.id.None? then (None, a)
    else if Join(a.data) == "" && a.id.None? && a.event.None? then (None, a.(data := []))
    else (Some(SseEvent(if a.event.Some? then a.event.value else "message", Join(a.data), a.id)), EMPTY)
  }

  function HandleLine(a: Acc, line: string): Acc {
    if line == "" || line[0] == ':' then a
    else
      var (name, value) := Field(line);
      if name == "event" then a.(event := Some(value))
      else if name == "data" then a.(data := a.data + [value])
      else if name == "id" then a.(id := Some(value))
      else a
  }

  function StepAcc(a: Acc, line: string): Acc {
    if line == "" then Reset(a).1 else HandleLine(a, line)
  }

  function StepEvents(a: Acc, line: string): seq<SseEvent> {
    if line == "" && Reset(a).0.Some? then [Reset(a).0.value] else []
  }

  /** The events dispatched by `lines` on an accumulator that starts as `a`. */
  function Events(a: Acc, lines: seq<string>): seq<SseEvent>
    decreases |lines|
  {
    if lines == [] then [] else StepEvents(a, lines[0]) + Events(StepAcc(a, lines[0]), lines[1..])
  }

  function AccAfter(a: Acc, lines: seq<string>): Acc
    decreases |lines|
  {
    if lines == [] then a else AccAfter(StepAcc(a, lines[0]), lines[1..])
  }

  /** One `parse_chunk` call on a pending text that has just become `s`: its accumulator starts empty. */
  function Parse(s: string): seq<SseEvent> {
    Events(EMPTY, Lines(s))
  }

  lemma {:induction false} EventsAppend(a: Acc, xs: seq<string>, ys: seq<string>)
    ensures Events(a, xs + ys) == Events(a, xs) + Events(AccAfter(a, xs), ys)
    ensures AccAfter(a, xs + ys) == AccAfter(AccAfter(a, xs), ys)
    decreases |xs|
  {
    if xs == [] {
      assert xs + ys == ys;
    } else {
      assert (xs + ys)[1..] == xs[1..] + ys;
      EventsAppend(StepAcc(a, xs[0]), xs[1..], ys);
    }
  }

  lemma EventsCons(a: Acc, line: string, more: seq<string>)
    ensures Events(a, [line] + more) == StepEvents(a, line) + Events(StepAcc(a, line), more)
  {
    assert ([line] + more)[1..] == more;
  }

  /** A field line and the blank line that dispatches after it. */
  lemma EventsOfTwo(a: Acc, x: string)
    requires x != ""
    ensures Events(a, [x, ""]) == StepEvents(StepAcc(a, x), "")
  {
    EventsCons(a, x, [""]);
    EventsCons(StepAcc(a, x), "", []);
    assert [x, ""] == [x] + [""] && [""] == [""] + [];
  }

  // ---- where a stream may be cut --------------------------------------------------------

  /** Two calls in turn, on `s` and then on its leftover followed by `t`. */
  function TwoCalls(s: string, t: string): (seq<SseEvent>, string) {
    (Parse(s) + Parse(Rest(s) + t), Rest(Rest(s) + t))
  }

  function OneCall(s: string, t: string): (seq<SseEvent>, string) {
    (Parse(s + t), Rest(s + t))
  }

  /** The accumulator the first call throws away. */
  function Dropped(s: string): Acc {
    AccAfter(EMPTY, Lines(s))
  }

  /** Whatever completes the leftover line `rest`, an event follows from it: an `id`, or data that is not empty. */
  predicate ForcesEvent(rest: string) {
    "id:" <= rest || ("data:" <= rest && StripSpace(rest[5..]) != "")
  }

  /**
    What is thrown away cannot be missed: no data, an id only if the leftover line sets
    the id, an event name only if the leftover line sets it or it is the default name anyway.
   */
  predicate CutSafe(a: Acc, rest: string) {
    && a.data == []
    && (a.id.Some? ==> "id:" <= rest)
    && (a.event.Some? ==> "event:" <= rest || (a.event.value == "message" && ForcesEvent(rest)))
  }

  /** `a` is `b`, or `b` with an explicit default name where `b` will dispatch under it regardless. */
  ghost predicate Alike(a: Acc, b: Acc) {
    || a == b
    || (a == b.(event := Some("message")) && b.event.None? && (b.id.Some? || Join(b.data) != ""))
  }

  lemma AlikeSteps(a: Acc, b: Acc, line: string)
    requires Alike(a, b)
    ensures StepEvents(a, line) == StepEvents(b, line) && Alike(StepAcc(a, line), StepAcc(b, line))
  {
    if line != "" && line[0] != ':' && Field(line).0 == "data" {
      JoinMore(b.data, Field(line).1);
    }
  }

  lemma {:induction false} AlikeRuns(a: Acc, b: Acc, lines: seq<string>)
    requires Alike(a, b)
    ensures Events(a, lines) == Events(b, lines)
    decreases |lines|
  {
    if lines != [] {
      AlikeSteps(a, b, lines[0]);
      AlikeRuns(StepAcc(a, lines[0]), StepAcc(b, lines[0]), lines[1..]);
    }
  }

  lemma FieldOfPrefixed(name: string, rest: string, line: string)
    requires ':' !in name && name + ":" <= rest <= line
    ensures Field(line) == (name, StripSpace(line[|name| + 1..]))
    ensures StripSpace(rest[|name| + 1..]) <= StripSpace(line[|name| + 1..])
    ensures line != "" && (name != "" ==> line[0] == name[0] != ':')
  {
    assert (name + ":")[0] == rest[0] == line[0];
    assert line == name + ":" + line[|name| + 1..] by {
      assert line[..|name| + 1] == name + ":";
    }
    FieldOf(line, name, line[|name| + 1..]);
    assert rest[|name| + 1..] <= line[|name| + 1..];
  }

  lemma SafeIdLine(a: Acc, rest: string, line: string)
    requires CutSafe(a, rest) && "id:" <= rest <= line
    ensures Alike(StepAcc(a, line), StepAcc(EMPTY, line))
  {
    FieldOfPrefixed("id", rest, line);
    var id := Some(Field(line).1);
    assert StepAcc(a, line) == a.(id := id) && StepAcc(EMPTY, line) == Acc(None, [], id);
    if a.event.Some? {
      assert rest[0] == 'i' && !("event:" <= rest) by {
        assert "id:"[0] == 'i' && "event:"[0] == 'e';
      }
    }
  }

  lemma SafeFirstLine(a: Acc, rest: string, line: string)
    requires CutSafe(a, rest) && rest != "" && rest <= line && a != EMPTY
    ensures Alike(StepAcc(a, line), StepAcc(EMPTY, line))
  {
    if "id:" <= rest {
      SafeIdLine(a, rest, line);
    } else if "event:" <= rest {
      FieldOfPrefixed("event", rest, line);
      assert StepAcc(a, line) == a.(event := Some(Field(line).1));
    } else {
      FieldOfPrefixed("data", rest, line);
      JoinMore([], Field(line).1);
    }
  }

  lemma FirstLineExtendsRest(rest: string, t: string)
    requires LineFree(rest) && HasLine(rest + t)
    ensures rest <= Head(rest + t).text
  {
    var s := rest + t;
    assert forall j | 0 <= j < |rest| :: s[j] == rest[j];
    assert rest == s[..|rest|] == s[..FirstBreak(s)][..|rest|];
  }

  lemma CutInsideCrlf(s: string, t: string)
    requires InsideCrlf(s, t) && Dropped(s) == EMPTY
    ensures TwoCalls(s, t) == OneCall(s, t)
  {
    SplitInsideCrlf(s, t);
    EventsAppend(EMPTY, Lines(s), Lines(t[1..]));
    LeadingLineFeed(t);
    assert "" + t == t;
    EventsCons(EMPTY, "", Lines(t[1..]));
    assert StepEvents(EMPTY, "") == [] && StepAcc(EMPTY, "") == EMPTY;
    assert [] + Events(EMPTY, Lines(t[1..])) == Events(EMPTY, Lines(t[1..]));
  }

  /** Away from a CRLF the two calls differ only in the accumulator the second one starts from. */
  lemma CutElsewhere(s: string, t: string)
    requires !InsideCrlf(s, t)
    ensures OneCall(s, t) == (Parse(s) + Events(Dropped(s), Lines(Rest(s) + t)), Rest(Rest(s) + t))
  {
    SplitAppend(s, t);
    EventsAppend(EMPTY, Lines(s), Lines(Rest(s) + t));
  }

  lemma SafeContinuation(a: Acc, rest: string, t: string)
    requires CutSafe(a, rest) && LineFree(rest)
    ensures Events(a, Lines(rest + t)) == Events(EMPTY, Lines(rest + t))
  {
    var more := Lines(rest + t);
    if a != EMPTY && more != [] {
      FirstLineExtendsRest(rest, t);
      SafeFirstLine(a, rest, more[0]);
      AlikeRuns(StepAcc(a, more[0]), StepAcc(EMPTY, more[0]), more[1..]);
    }
  }

  lemma SafeCutsAgree(s: string, t: string)
    requires CutSafe(Dropped(s), Rest(s))
    ensures TwoCalls(s, t) == OneCall(s, t)
  {
    SplitReassembles(s);
    if InsideCrlf(s, t) {
      SplitInsideCrlf(s, t);
      CutInsideCrlf(s, t);
    } else {
      CutElsewhere(s, t);
      SafeContinuation(Dropped(s), Rest(s), t);
    }
  }

  // ---- a continuation that exposes every other cut ----------------------------------------

  /** The default name is at stake and the leftover line is an empty `data` field so far. */
  predicate BareData(a: Acc, rest: string) {
    a.data == [] && a.id.None? && a.event == Some("message") && (rest == "data:" || rest == "data: ")
  }

  function Telltale(a: Acc, rest: string): string {
    if a.data != [] then "x" + ("\n" + "data:z\n\n") else if BareData(a, rest) then "\n\n" else "x" + "\n\n"
  }

  lemma LineThen(text: string, tail: string)
    requires LineFree(text)
    ensures Lines(text + "\n" + tail) == [text] + Lines(tail)
  {
    FoldLine(text, LF, tail);
    assert text + Ending(LF) + tail == text + "\n" + tail;
  }

  lemma LineThenBlank(text: string)
    requires LineFree(text)
    ensures Lines(text + "\n\n") == [text, ""]
  {
    LineThen(text, "\n");
    LineThen("", "");
    assert text + "\n" + "\n" == text + "\n\n" && "" + "\n" + "" == "\n";
    assert Lines("") == [];
  }

  lemma TelltaleLines(a: Acc, rest: string)
    requires LineFree(rest)
    ensures a.data != [] ==> Lines(rest + Telltale(a, rest)) == [rest + "x", "data:z", ""]
    ensures a.data == [] && BareData(a, rest) ==> Lines(rest + Telltale(a, rest)) == [rest, ""]
    ensures a.data == [] && !BareData(a, rest) ==> Lines(rest + Telltale(a, rest)) == [rest + "x", ""]
  {
    if a.data != [] {
      DataTelltale(rest);
    } else if BareData(a, rest) {
      LineThenBlank(rest);
    } else {
      LineThenBlank(rest + "x");
      Regroup(rest, "x", "\n\n");
    }
  }

  lemma CompletedBy(rest: string, suffix: string, more: string)
    requires LineFree(rest + suffix)
    ensures Lines(rest + (suffix + ("\n" + more))) == [rest + suffix] + Lines(more)
  {
    Regroup(rest, suffix, "\n" + more);
    Regroup(rest + suffix, "\n", more);
    LineThen(rest + suffix, more);
  }

  lemma DataTelltale(rest: string)
    requires LineFree(rest)
    ensures Lines(rest + ("x" + ("\n" + "data:z\n\n"))) == [rest + "x", "data:z", ""]
  {
    CompletedBy(rest, "x", "data:z\n\n");
    DataLineThenBlank();
  }

  lemma DataLineThenBlank()
    ensures Lines("data:z\n\n") == ["data:z", ""]
  {
    LineThenBlank("data:z");
    assert "data:z" + "\n\n" == "data:z\n\n";
  }

  lemma {:induction false} JoinLonger(xs: seq<string>, ys: seq<string>)
    requires xs != [] && ys != []
    ensures |Join(xs + ys)| > |Join(ys)|
    decreases |xs|
  {
    JoinFirst(xs[0], xs[1..] + ys);
    assert xs + ys == [xs[0]] + (xs[1..] + ys);
    if |xs| > 1 {
      JoinLonger(xs[1..], ys);
    } else {
      assert xs[1..] + ys == ys;
    }
  }

  /** A line adds the same data to any accumulator. */
  lemma DataAdds(a: Acc, line: string)
    requires line != ""
    ensures StepAcc(a, line).data == a.data + StepAcc(EMPTY, line).data
  {
    assert a.data + [] == a.data;
  }

  lemma ThreeLines(a: Acc, line: string)
    requires line != ""
    ensures Events(a, [line, "data:z", ""])
            == StepEvents(StepAcc(a, line).(data := StepAcc(a, line).data + ["z"]), "")
  {
    EventsCons(a, line, ["data:z", ""]);
    assert [line, "data:z", ""] == [line] + ["data:z", ""];
    EventsOfTwo(StepAcc(a, line), "data:z");
    FieldOf("data:z", "data", "z");
  }

  lemma DispatchesData(a: Acc, d: seq<string>)
    requires Join(d) != ""
    ensures |StepEvents(a.(data := d), "")| == 1 && StepEvents(a.(data := d), "")[0].data == Join(d)
  {
  }

  lemma UnsafeData(a: Acc, line: string)
    requires a.data != [] && line != ""
    ensures Events(a, [line, "data:z", ""]) != Events(EMPTY, [line, "data:z", ""])
  {
    ThreeLines(a, line);
    ThreeLines(EMPTY, line);
    DataAdds(a, line);
    var v := StepAcc(EMPTY, line).data;
    Regroup(a.data, v, ["z"]);
    Regroup([], v, ["z"]);
    JoinLonger(a.data, v + ["z"]);
    JoinMore(v, "z");
    DispatchesData(StepAcc(a, line), a.data + (v + ["z"]));
    DispatchesData(StepAcc(EMPTY, line), v + ["z"]);
  }

  /** A line ending in `x` whose field is `name` already had its colon before the `x`. */
  lemma NamePrefix(rest: string, name: string)
    requires Field(rest + "x").0 == name && name != "" && name[|name| - 1] != 'x'
    ensures name + ":" <= rest
  {
    var line := rest + "x";
    var i := Colon(line);
    assert line[|line| - 1] == 'x';
    assert i < |line|;
    assert i < |rest| && rest[..i] == line[..i] && rest[i] == ':';
    assert rest[..i + 1] == rest[..i] + ":";
  }

  lemma UnsafeId(a: Acc, rest: string)
    requires a.id.Some? && !("id:" <= rest)
    ensures Events(a, [rest + "x", ""]) != Events(EMPTY, [rest + "x", ""])
  {
    var line := rest + "x";
    EventsOfTwo(a, line);
    EventsOfTwo(EMPTY, line);
    if Field(line).0 == "id" {
      NamePrefix(rest, "id");
    }
    assert StepAcc(a, line).id == a.id && StepAcc(EMPTY, line).id == None;
  }

  lemma UnsafeName(a: Acc, rest: string)
    requires a.event.Some? && a.event.value != "message" && !("event:" <= rest)
    ensures Events(a, [rest + "x", ""]) != Events(EMPTY, [rest + "x", ""])
  {
    var line := rest + "x";
    EventsOfTwo(a, line);
    EventsOfTwo(EMPTY, line);
    if Field(line).0 == "event" {
      NamePrefix(rest, "event");
    }
    assert StepAcc(a, line).event == a.event && StepAcc(EMPTY, line).event == None;
  }

  lemma UnsafeBareData(a: Acc, rest: string)
    requires BareData(a, rest)
    ensures Events(a, [rest, ""]) != Events(EMPTY, [rest, ""])
  {
    EventsOfTwo(a, rest);
    EventsOfTwo(EMPTY, rest);
    assert rest == "data" + ":" + rest[5..];
    FieldOf(rest, "data", rest[5..]);
    assert StepAcc(a, rest).data == [""] == StepAcc(EMPTY, rest).data;
  }

  lemma DataForcesUnlessBare(rest: string)
    requires "data:" <= rest
    ensures ForcesEvent(rest) || rest == "data:" || rest == "data: "
  {
    var v := rest[5..];
    assert rest == "data:" + v;
    assert StripSpace(v) == "" ==> v == "" || v == " ";
  }

  lemma UnforcedLine(rest: string)
    requires !("event:" <= rest) && !ForcesEvent(rest) && rest != "data:" && rest != "data: "
    ensures forall a :: StepAcc(a, rest + "x") == a
  {
    var name := Field(rest + "x").0;
    if name == "event" || name == "id" || name == "data" {
      NamePrefix(rest, name);
    }
    if "data:" <= rest {
      DataForcesUnlessBare(rest);
    }
  }

  lemma UnsafeDefaultName(a: Acc, rest: string)
    requires a == Acc(Some("message"), [], None) && !BareData(a, rest) && !("event:" <= rest) && !ForcesEvent(rest)
    ensures Events(a, [rest + "x", ""]) != Events(EMPTY, [rest + "x", ""])
  {
    EventsOfTwo(a, rest + "x");
    EventsOfTwo(EMPTY, rest + "x");
    UnforcedLine(rest);
  }

  lemma UnsafeContinuation(a: Acc, rest: string)
    requires LineFree(rest) && !CutSafe(a, rest)
    ensures Events(a, Lines(rest + Telltale(a, rest))) != Events(EMPTY, Lines(rest + Telltale(a, rest)))
  {
    TelltaleLines(a, rest);
    if a.data != [] {
      UnsafeData(a, rest + "x");
    } else if a.id.Some? && !("id:" <= rest) {
      UnsafeId(a, rest);
    } else if a.event.value != "message" {
      UnsafeName(a, rest);
    } else if BareData(a, rest) {
      UnsafeBareData(a, rest);
    } else {
      UnsafeDefaultName(a, rest);
    }
  }

  lemma SamePrefix<T>(p: seq<T>, x: seq<T>, y: seq<T>)
    requires p + x == p + y
    ensures x == y
  {
    assert x == (p + x)[|p|..] == (p + y)[|p|..] == y;
  }

  lemma UnsafeCutShows(s: string)
    requires !CutSafe(Dropped(s), Rest(s))
    ensures exists t :: TwoCalls(s, t) != OneCall(s, t)
  {
    var a, rest := Dropped(s), Rest(s);
    var t := Telltale(a, rest);
    SplitReassembles(s);
    UnsafeContinuation(a, rest);
    assert !InsideCrlf(s, t) by {
      if InsideCrlf(s, t) {
        SplitInsideCrlf(s, t);
      }
    }
    CutElsewhere(s, t);
    if TwoCalls(s, t) == OneCall(s, t) {
      SamePrefix(Parse(s), Parse(rest + t), Events(a, Lines(rest + t)));
    }
  }

  /**
    Exactly where a stream may be cut: parsing two chunks in turn agrees with parsing them
    at once, whatever comes after the cut, if and only if the cut is safe. An accumulator
    that is empty at the cut always is, also in the middle of a CRLF.
   */
  lemma ChunkCutTheorem(s: string)
    ensures (forall t :: TwoCalls(s, t) == OneCall(s, t)) <==> CutSafe(Dropped(s), Rest(s))
    ensures Dropped(s) == EMPTY ==> CutSafe(Dropped(s), Rest(s))
  {
    if CutSafe(Dropped(s), Rest(s)) {
      forall t ensures TwoCalls(s, t) == OneCall(s, t) {
        SafeCutsAgree(s, t);
      }
    } else {
      UnsafeCutShows(s);
    }
  }

  // ---- whole streams ----------------------------------------------------------------------

  /** All the calls of a stream: the events in order and the leftover at the end. */
  function Stream(pending: string, chunks: seq<string>): (seq<SseEvent>, string)
    decreases |chunks|
  {
    if chunks == [] then ([], pending)
    else
      var s := pending + chunks[0];
      var (more, rest) := Stream(Rest(s), chunks[1..]);
      (Parse(s) + more, rest)
  }

  /** Every call but the last ends at a safe cut. */
  predicate AllCutsSafe(pending: string, chunks: seq<string>)
    decreases |chunks|
  {
    |chunks| > 1 ==>
      var s := pending + chunks[0];
      CutSafe(Dropped(s), Rest(s)) && AllCutsSafe(Rest(s), chunks[1..])
  }

  /** With safe cuts the way a stream is chunked cannot be seen. */
  lemma {:induction false} ChunkingIsInvisible(pending: string, chunks: seq<string>)
    requires AllCutsSafe(pending, chunks) && LineFree(pending)
    ensures Stream(pending, chunks) == (Parse(pending + Flatten(chunks)), Rest(pending + Flatten(chunks)))
    decreases |chunks|
  {
    if chunks == [] {
      assert pending + "" == pending && Lines(pending) == [];
    } else {
      var s, later := pending + chunks[0], Flatten(chunks[1..]);
      SplitReassembles(s);
      ChunkingIsInvisible(Rest(s), chunks[1..]);
      if |chunks| > 1 {
        SafeCutsAgree(s, later);
      } else {
        assert chunks[1..] == [] && s + later == s && Parse(s) + [] == Parse(s);
      }
      Regroup(pending, chunks[0], later);
    }
  }

  /** The call made at end of stream, on the leftover and one LF, never yields an event: the last frame is lost. */
  lemma EndOfStreamFlushYieldsNothing(s: string)
    requires Rest(s) != ""
    ensures Parse(Rest(s) + "\n") == []
  {
    SplitReassembles(s);
    LineThen(Rest(s), "");
    assert Rest(s) + "\n" + "" == Rest(s) + "\n" && Lines("") == [];
    EventsCons(EMPTY, Rest(s), []);
  }
}
