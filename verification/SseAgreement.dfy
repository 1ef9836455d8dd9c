/** Where the Go and the Rust parser read the same stream alike, and where not. */
module SseAgreement {
  import opened Wrappers
  import opened SseText
  import Rust = SseRust
  import Go = SseGo

  function Named(s: string): Option<string> {
    if s == "" then None else Some(s)
  }

  /** A Go event as the Rust client would report it: the default name spelled out, no id instead of an empty one. */
  function AsRust(e: Go.GoEvent): Rust.SseEvent {
    Rust.SseEvent(if e.event == "" then "message" else e.event, e.data, Named(e.id))
  }

  function AllAsRust(events: seq<Go.GoEvent>): seq<Rust.SseEvent> {
    if events == [] then [] else [AsRust(events[0])] + AllAsRust(events[1..])
  }

  lemma {:induction false} AllAsRustAppend(xs: seq<Go.GoEvent>, ys: seq<Go.GoEvent>)
    ensures AllAsRust(xs + ys) == AllAsRust(xs) + AllAsRust(ys)
  {
    if xs == [] {
      assert xs + ys == ys;
    } else {
      assert (xs + ys)[1..] == xs[1..] + ys;
      AllAsRustAppend(xs[1..], ys);
    }
  }

  // ---- frames -----------------------------------------------------------------------------

  function Given(o: Option<string>): string {
    if o.Some? then o.value else ""
  }

  /** The two parsers have read the same lines of a frame; only Go remembers a `retry`, only Rust an empty field. */
  ghost predicate Mirrors(cur: Go.Cur, a: Rust.Acc) {
    cur.event == Given(a.event) && cur.id == Given(a.id) && cur.dataLines == a.data
  }

  lemma StepsMirror(cur: Go.Cur, a: Rust.Acc, line: string)
    requires Mirrors(cur, a)
    ensures Mirrors(Go.After(cur, line), Rust.StepAcc(a, line))
  {
  }

  /** A frame without an empty name or id, and with more than a `retry` to dispatch if it has one. */
  predicate FrameAgrees(cur: Go.Cur, a: Rust.Acc) {
    && a.event != Some("") && a.id != Some("")
    && (cur.retry > 0 ==> Join(a.data) != "" || a.id.Some? || a.event.Some?)
  }

  /** What Rust may report and Go never does: an empty name or id. */
  predicate Reportable(e: Rust.SseEvent) {
    e.event != "" && e.id != Some("")
  }

  /** Frames that agree dispatch alike; one that does not is unreportable in Rust, or dispatched by Go alone. */
  lemma FrameExactly(cur: Go.Cur, a: Rust.Acc)
    requires Mirrors(cur, a)
    ensures var go, rust := Go.Dispatched(cur), Rust.StepEvents(a, "");
            && (FrameAgrees(cur, a) ==> AllAsRust(go) == rust)
            && ((forall e | e in rust :: Reportable(e)) ==> |go| >= |rust|)
            && (!FrameAgrees(cur, a) ==> (exists e :: e in rust && !Reportable(e)) || |go| > |rust|)
  {
    var rust := Rust.StepEvents(a, "");
    if Go.Dispatch(cur).Some? {
      assert [Go.Dispatch(cur).value][1..] == [];
    }
    if a.event == Some("") || a.id == Some("") {
      assert rust == [Rust.SseEvent(if a.event.Some? then a.event.value else "message", Join(a.data), a.id)];
      assert rust[0] in rust && !Reportable(rust[0]);
    }
  }

  // ---- streams ----------------------------------------------------------------------------

  /** Every frame agrees, and at the end of the stream nothing is left to dispatch. */
  predicate StreamAgrees(cur: Go.Cur, a: Rust.Acc, lines: seq<string>)
    decreases |lines|
  {
    if lines == [] then Go.Dispatch(cur).None?
    else (lines[0] == "" ==> FrameAgrees(cur, a)) && StreamAgrees(Go.After(cur, lines[0]), Rust.StepAcc(a, lines[0]), lines[1..])
  }

  lemma {:induction false} AllReportable(events: seq<Go.GoEvent>)
    ensures |AllAsRust(events)| == |events| && forall e | e in AllAsRust(events) :: Reportable(e)
  {
    if events != [] {
      AllReportable(events[1..]);
    }
  }

  /** How the events of the first line and of the others combine. */
  lemma OneLineOfEach(cur: Go.Cur, a: Rust.Acc, lines: seq<string>, maxBytes: int)
    requires lines != [] && Go.Parse(cur, lines, false, maxBytes).end.CleanEof?
    ensures var line, more := lines[0], lines[1..];
            var rest := Go.Parse(Go.After(cur, line), more, false, maxBytes);
            && rest.end.CleanEof?
            && Go.Parse(cur, lines, false, maxBytes).events == (if line == "" then Go.Dispatched(cur) else []) + rest.events
            && Rust.Events(a, lines) == Rust.StepEvents(a, line) + Rust.Events(Rust.StepAcc(a, line), more)
            && (line != "" ==> Rust.StepEvents(a, line) == [])
  {
  }

  lemma {:induction false} AgreeingStreams(cur: Go.Cur, a: Rust.Acc, lines: seq<string>, maxBytes: int)
    requires Mirrors(cur, a) && Go.Parse(cur, lines, false, maxBytes).end.CleanEof? && StreamAgrees(cur, a, lines)
    ensures AllAsRust(Go.Parse(cur, lines, false, maxBytes).events) == Rust.Events(a, lines)
    decreases |lines|
  {
    if lines != [] {
      var line, more := lines[0], lines[1..];
      OneLineOfEach(cur, a, lines, maxBytes);
      FrameExactly(cur, a);
      StepsMirror(cur, a, line);
      AgreeingStreams(Go.After(cur, line), Rust.StepAcc(a, line), more, maxBytes);
      AllAsRustAppend(if line == "" then Go.Dispatched(cur) else [], Go.Parse(Go.After(cur, line), more, false, maxBytes).events);
    }
  }

  /** Without unreportable events Rust never yields more than Go; a stream that disagrees has one or yields fewer. */
  lemma {:induction false} DisagreeingStreams(cur: Go.Cur, a: Rust.Acc, lines: seq<string>, maxBytes: int)
    requires Mirrors(cur, a) && Go.Parse(cur, lines, false, maxBytes).end.CleanEof?
    ensures var go, rust := Go.Parse(cur, lines, false, maxBytes).events, Rust.Events(a, lines);
            && ((forall e | e in rust :: Reportable(e)) ==> |go| >= |rust|)
            && (!StreamAgrees(cur, a, lines) ==> (exists e :: e in rust && !Reportable(e)) || |go| > |rust|)
    decreases |lines|
  {
    if lines != [] {
      var line, more := lines[0], lines[1..];
      OneLineOfEach(cur, a, lines, maxBytes);
      FrameExactly(cur, a);
      StepsMirror(cur, a, line);
      DisagreeingStreams(Go.After(cur, line), Rust.StepAcc(a, line), more, maxBytes);
      var first, rest := Rust.StepEvents(a, line), Rust.Events(Rust.StepAcc(a, line), more);
      assert forall e | e in first || e in rest :: e in first + rest;
    }
  }

  /** From mirrored states and up to the end of the stream, both clients report the same exactly when the stream agrees. */
  lemma StreamsAgreeExactly(cur: Go.Cur, a: Rust.Acc, lines: seq<string>, maxBytes: int)
    requires Mirrors(cur, a) && Go.Parse(cur, lines, false, maxBytes).end.CleanEof?
    ensures AllAsRust(Go.Parse(cur, lines, false, maxBytes).events) == Rust.Events(a, lines) <==> StreamAgrees(cur, a, lines)
  {
    if StreamAgrees(cur, a, lines) {
      AgreeingStreams(cur, a, lines, maxBytes);
    } else {
      DisagreeingStreams(cur, a, lines, maxBytes);
      AllReportable(Go.Parse(cur, lines, false, maxBytes).events);
    }
  }

  // ---- texts ------------------------------------------------------------------------------

  /** No CR stands alone: each has its LF, or is where the text ends. */
  ghost predicate NoLoneCr(s: string) {
    forall j | 0 <= j < |s| - 1 && s[j] == '\r' :: s[j + 1] == '\n'
  }

  function Leftover(s: string): seq<string> {
    if Rest(s) != "" then [Rest(s)] else []
  }

  lemma NoLoneCrLater(s: string, k: nat)
    requires k <= |s|
    ensures NoLoneCr(s) ==> NoLoneCr(s[k..])
    ensures !NoLoneCr(s) && NoLoneCr(s[k..]) ==> exists j :: 0 <= j < k && j < |s| - 1 && s[j] == '\r' && s[j + 1] != '\n'
  {
    var t := s[k..];
    assert forall j {:trigger s[j]} | k <= j < |s| :: s[j] == t[j - k];
    if NoLoneCr(s) {
      forall j | 0 <= j < |t| - 1 && t[j] == '\r' ensures t[j + 1] == '\n' {
        assert s[k + j] == '\r' && s[k + j + 1] == t[j + 1];
      }
    }
  }

  lemma NoEarlierCr(s: string)
    requires NoLoneCr(s)
    ensures forall j | 0 <= j < FirstLf(s) - 1 :: s[j] != '\r'
  {
    forall j | 0 <= j < FirstLf(s) - 1 ensures s[j] != '\r' {
      assert s[j + 1] != '\n';
    }
  }

  lemma BreakAt(s: string, i: nat)
    requires i <= |s| && (i < |s| ==> IsBreak(s[i])) && forall j | 0 <= j < i :: !IsBreak(s[j])
    ensures FirstBreak(s) == i
  {
  }

  /** The first break of such a text is the CR in front of its first LF or of its end, or else that LF. */
  lemma BreakBeforeLf(s: string)
    requires NoLoneCr(s)
    ensures var i := FirstLf(s); FirstBreak(s) == if i > 0 && s[i - 1] == '\r' then i - 1 else i
    ensures forall j | 0 <= j < FirstLf(s) - 1 :: s[j] != '\r'
  {
    var i := FirstLf(s);
    NoEarlierCr(s);
    BreakAt(s, if i > 0 && s[i - 1] == '\r' then i - 1 else i);
  }

  lemma CleanKeeps(s: string)
    requires s == "" || s[|s| - 1] != '\r'
    ensures Go.Clean(s) == s
    ensures Go.Clean(s + "\r") == s
  {
    assert (s + "\r")[..|s|] == s;
  }

  /** The first line ends at the LF at `i` or the end of the text, or at a CR just before. */
  lemma LineUpTo(s: string, i: nat)
    requires i <= |s| && (i < |s| ==> s[i] == '\n') && HasLine(s)
    requires FirstBreak(s) == i || (FirstBreak(s) == i - 1 && s[i - 1] == '\r')
    ensures Head(s).text == s[..FirstBreak(s)] && Tail(s) == if i < |s| then s[i + 1..] else ""
  {
  }

  lemma CleanUpTo(s: string, i: nat)
    requires i <= |s| && forall j | 0 <= j < i - 1 :: s[j] != '\r'
    ensures Go.Clean(s[..i]) == if i > 0 && s[i - 1] == '\r' then s[..i - 1] else s[..i]
  {
    if i > 0 && s[i - 1] == '\r' {
      assert s[..i] == s[..i - 1] + "\r";
      CleanKeeps(s[..i - 1]);
    } else {
      CleanKeeps(s[..i]);
    }
  }

  /** The first line of such a text is the same to both. */
  lemma SameFirstLine(s: string)
    requires NoLoneCr(s)
    ensures var i := FirstLf(s);
            if HasLine(s) then Head(s).text == Go.Clean(s[..i]) && Tail(s) == if i < |s| then s[i + 1..] else ""
            else i == |s| && Go.Clean(s) == s
  {
    var i := FirstLf(s);
    BreakBeforeLf(s);
    CleanUpTo(s, i);
    if HasLine(s) {
      LineUpTo(s, i);
    } else {
      assert s[..i] == s;
    }
  }

  lemma {:induction false} SameLines(s: string)
    requires NoLoneCr(s)
    ensures Go.ScanLines(s) == Lines(s) + Leftover(s)
    decreases |s|
  {
    SameFirstLine(s);
    var i := FirstLf(s);
    assert s[..|s|] == s;
    if i < |s| {
      NoLoneCrLater(s, i + 1);
      SameLines(s[i + 1..]);
      assert Lines(s) == [Head(s).text] + Lines(Tail(s)) && Leftover(s) == Leftover(Tail(s));
      assert Go.ScanLines(s) == [Go.Clean(s[..i])] + Go.ScanLines(s[i + 1..]);
      Regroup([Head(s).text], Lines(Tail(s)), Leftover(s));
    } else if HasLine(s) {
      assert Lines(s) == [Head(s).text] + Lines("") && Leftover(s) == Leftover("");
    }
  }

  // ---- a lone CR --------------------------------------------------------------------------

  /** A CR that is not the last character. */
  ghost predicate EarlyCr(s: string) {
    exists j :: 0 <= j < |s| - 1 && s[j] == '\r'
  }

  lemma EarlyCrLater(s: string, b: nat)
    requires b < |s| && forall j | 0 <= j < b :: s[j] != '\r'
    ensures EarlyCr(s) ==> b < |s| - 1
  {
  }

  /** A line of Go's is at least one to Rust, and more if a CR stands inside. */
  lemma {:induction false} LineToRust(seg: string)
    requires forall j | 0 <= j < |seg| :: seg[j] != '\n'
    ensures Rest(seg + "\n") == "" && |Lines(seg + "\n")| >= 1
    ensures EarlyCr(seg) ==> |Lines(seg + "\n")| >= 2
    decreases |seg|
  {
    var t := seg + "\n";
    var b := FirstBreak(t);
    assert forall j | 0 <= j < |seg| :: t[j] == seg[j];
    assert t[|seg|] == '\n';
    if b < |seg| - 1 {
      assert Tail(t) == seg[b + 1..] + "\n";
      LineToRust(seg[b + 1..]);
    } else {
      assert Tail(t) == "";
    }
  }

  lemma {:induction false} EndToRust(seg: string)
    requires seg != "" && forall j | 0 <= j < |seg| :: seg[j] != '\n'
    ensures |Lines(seg)| + |Leftover(seg)| >= 1
    ensures EarlyCr(seg) ==> |Lines(seg)| + |Leftover(seg)| >= 2
    decreases |seg|
  {
    if HasLine(seg) {
      var b := FirstBreak(seg);
      assert Tail(seg) == seg[b + 1..] && Leftover(seg) == Leftover(Tail(seg));
      if b < |seg| - 1 {
        EndToRust(seg[b + 1..]);
      }
    }
  }

  /** Both parts of a text cut behind an LF are read by themselves. */
  lemma CutBehindLf(s: string, i: nat)
    requires i < |s| && s[i] == '\n' && Rest(s[..i] + "\n") == ""
    ensures |Lines(s)| == |Lines(s[..i] + "\n")| + |Lines(s[i + 1..])| && Leftover(s) == Leftover(s[i + 1..])
  {
    var a, t := s[..i] + "\n", s[i + 1..];
    assert s == a + t;
    assert a[|a| - 1] == '\n';
    SplitAppend(a, t);
    assert "" + t == t;
  }

  /** Rust never reads fewer lines than Go, and reads more if a CR stands alone. */
  lemma {:induction false} LoneCrAddsALine(s: string)
    ensures |Lines(s)| + |Leftover(s)| >= |Go.ScanLines(s)|
    ensures !NoLoneCr(s) ==> |Lines(s)| + |Leftover(s)| > |Go.ScanLines(s)|
    decreases |s|
  {
    var i := FirstLf(s);
    if i < |s| {
      LineToRust(s[..i]);
      CutBehindLf(s, i);
      LoneCrAddsALine(s[i + 1..]);
      NoLoneCrLater(s, i + 1);
      if !NoLoneCr(s) && NoLoneCr(s[i + 1..]) {
        var j :| 0 <= j < i + 1 && j < |s| - 1 && s[j] == '\r' && s[j + 1] != '\n';
        assert j < i - 1 && s[..i][j] == '\r';
      }
    } else if s != "" {
      EndToRust(s);
    }
  }

  /** Both clients see the same lines, up to one without a terminator that only Go reads, exactly when no CR stands alone. */
  lemma SameLinesExactly(s: string)
    ensures Go.ScanLines(s) == Lines(s) + Leftover(s) <==> NoLoneCr(s)
  {
    if NoLoneCr(s) {
      SameLines(s);
    } else {
      LoneCrAddsALine(s);
    }
  }

  // ---- the two clients --------------------------------------------------------------------

  lemma LeftoverIsUnread(a: Rust.Acc, s: string)
    ensures Rust.Events(a, Lines(s) + Leftover(s)) == Rust.Events(a, Lines(s))
  {
    Rust.EventsAppend(a, Lines(s), Leftover(s));
    if Rest(s) != "" {
      var b := Rust.AccAfter(a, Lines(s));
      Rust.EventsCons(b, Rest(s), []);
      assert [Rest(s)] + [] == [Rest(s)];
    }
    assert Rust.Events(a, Lines(s)) + [] == Rust.Events(a, Lines(s));
  }

  /**
    Over any stream in which no CR stands alone, a Go parse that does not overflow reports
    what one Rust call does exactly when no frame has an empty name or id, none consists of a
    `retry` alone, and no unfinished frame is left at the end for Go to flush.
   */
  lemma GoAgreesWithRust(s: string, maxBytes: int)
    requires NoLoneCr(s) && Go.Parse(Go.FRESH, Go.ScanLines(s), false, maxBytes).end.CleanEof?
    ensures AllAsRust(Go.Parse(Go.FRESH, Go.ScanLines(s), false, maxBytes).events) == Rust.Parse(s)
            <==> StreamAgrees(Go.FRESH, Rust.EMPTY, Lines(s) + Leftover(s))
  {
    SameLines(s);
    LeftoverIsUnread(Rust.EMPTY, s);
    StreamsAgreeExactly(Go.FRESH, Rust.EMPTY, Lines(s) + Leftover(s), maxBytes);
  }

  /** A line on which the clients cannot differ: no `retry`, and `event` and `id` not empty. */
  predicate Plain(line: string) {
    line != "" && line[0] != ':' ==>
      var (field, value) := Field(line);
      field != "retry" && (field == "event" || field == "id" ==> value != "")
  }

  /** A frame of plain lines so far. */
  ghost predicate PlainFrame(cur: Go.Cur, a: Rust.Acc) {
    Mirrors(cur, a) && cur.retry == 0 && a.event != Some("") && a.id != Some("")
  }

  lemma PlainStep(cur: Go.Cur, a: Rust.Acc, line: string)
    requires PlainFrame(cur, a) && Plain(line)
    ensures PlainFrame(Go.After(cur, line), Rust.StepAcc(a, line))
  {
    StepsMirror(cur, a, line);
  }

  lemma {:induction false} PlainLinesAgree(cur: Go.Cur, a: Rust.Acc, lines: seq<string>)
    requires PlainFrame(cur, a)
    requires forall i | 0 <= i < |lines| :: Plain(lines[i])
    requires if lines == [] then cur == Go.FRESH else lines[|lines| - 1] == ""
    ensures StreamAgrees(cur, a, lines)
    decreases |lines|
  {
    if lines != [] {
      PlainStep(cur, a, lines[0]);
      PlainLinesAgree(Go.After(cur, lines[0]), Rust.StepAcc(a, lines[0]), lines[1..]);
    }
  }

  lemma PlainTextAgrees(s: string)
    requires Rest(s) == "" && (Lines(s) != [] ==> Lines(s)[|Lines(s)| - 1] == "")
    requires forall i | 0 <= i < |Lines(s)| :: Plain(Lines(s)[i])
    ensures StreamAgrees(Go.FRESH, Rust.EMPTY, Lines(s) + Leftover(s))
  {
    assert Lines(s) + [] == Lines(s);
    PlainLinesAgree(Go.FRESH, Rust.EMPTY, Lines(s));
  }

  /** In particular streams of plain lines that end with a blank one read alike. */
  lemma PlainStreamsAgree(s: string, maxBytes: int)
    requires NoLoneCr(s) && Rest(s) == "" && (Lines(s) != [] ==> Lines(s)[|Lines(s)| - 1] == "")
    requires forall i | 0 <= i < |Lines(s)| :: Plain(Lines(s)[i])
    requires Go.Parse(Go.FRESH, Go.ScanLines(s), false, maxBytes).end.CleanEof?
    ensures AllAsRust(Go.Parse(Go.FRESH, Go.ScanLines(s), false, maxBytes).events) == Rust.Parse(s)
  {
    PlainTextAgrees(s);
    GoAgreesWithRust(s, maxBytes);
  }

  // ---- the three ways to differ -----------------------------------------------------------

  lemma GoTwoLines(line: string)
    requires line != "" && Go.After(Go.FRESH, line).dataBytes == 0
    ensures Go.Parse(Go.FRESH, [line, ""], false, 100).events == Go.Dispatched(Go.After(Go.FRESH, line))
  {
    var cur := Go.After(Go.FRESH, line);
    assert [line, ""][1..] == [""] && [""][1..] == [];
    assert Go.Parse(Go.FRESH, [], false, 100).events == [];
    assert Go.Parse(cur, [""], false, 100).events == Go.Dispatched(cur) + [];
  }

  /** Without the final blank line: Go flushes a last frame at end of stream, Rust does not. */
  lemma UnfinishedFrameDiffers()
    ensures Go.Parse(Go.FRESH, ["data: a"], false, 100).events == [Go.GoEvent("", "", "a", 0)]
    ensures Rust.Events(Rust.EMPTY, ["data: a"]) == []
  {
    FieldOf("data: a", "data", " a");
    var cur := Go.After(Go.FRESH, "data: a");
    assert ["data: a"][1..] == [] && cur == Go.Cur("", "", 0, ["a"], 2);
    assert Go.Parse(cur, [], false, 100).events == [Go.GoEvent("", "", "a", 0)];
    Rust.EventsCons(Rust.EMPTY, "data: a", []);
  }

  /** With an empty id: an event to Rust, nothing to Go. */
  lemma EmptyIdDiffers()
    ensures Go.Parse(Go.FRESH, ["id:", ""], false, 100).events == []
    ensures Rust.Events(Rust.EMPTY, ["id:", ""]) == [Rust.SseEvent("message", "", Some(""))]
  {
    FieldOf("id:", "id", "");
    GoTwoLines("id:");
    Rust.EventsOfTwo(Rust.EMPTY, "id:");
  }

  /** With a `retry`: an event to Go, nothing to Rust. */
  lemma RetryDiffers()
    ensures Go.Parse(Go.FRESH, ["retry: 5", ""], false, 100).events == [Go.GoEvent("", "", "", 5)]
    ensures Rust.Events(Rust.EMPTY, ["retry: 5", ""]) == []
  {
    FieldOf("retry: 5", "retry", " 5");
    assert " 5"[1..] == "5" && "5"[1..] == "";
    assert Go.Atoi("5") == Some(5);
    GoTwoLines("retry: 5");
    Rust.EventsOfTwo(Rust.EMPTY, "retry: 5");
  }
}
