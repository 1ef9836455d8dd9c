/** Lines, terminators and fields of an event stream, as every client splits them. */
module SseText {
  datatype Terminator = LF | CRLF | CR
  datatype RawLine = RawLine(text: string, end: Terminator)

  function Ending(t: Terminator): string {
    match t
    case LF => "\n"
    case CRLF => "\r\n"
    case CR => "\r"
  }

  predicate IsBreak(c: char) {
    c == '\n' || c == '\r'
  }

  predicate LineFree(s: string) {
    forall i | 0 <= i < |s| :: !IsBreak(s[i])
  }

  /** The position of the first CR or LF, or the length. */
  function FirstBreak(s: string): (i: nat)
    ensures i <= |s| && (i < |s| ==> IsBreak(s[i])) && forall j | 0 <= j < i :: !IsBreak(s[j])
  {
    BreakFrom(s, 0)
  }

  function BreakFrom(s: string, from: nat): (i: nat)
    requires from <= |s| && forall j | 0 <= j < from :: !IsBreak(s[j])
    ensures i <= |s| && (i < |s| ==> IsBreak(s[i])) && forall j | 0 <= j < i :: !IsBreak(s[j])
    decreases |s| - from
  {
    if from == |s| || IsBreak(s[from]) then from else BreakFrom(s, from + 1)
  }

  /** The terminator that starts at `i`. */
  function EndAt(s: string, i: nat): Terminator
    requires i < |s|
  {
    if s[i] == '\n' then LF else if i + 1 < |s| && s[i + 1] == '\n' then CRLF else CR
  }

  predicate HasLine(s: string) {
    FirstBreak(s) < |s|
  }

  function Head(s: string): RawLine
    requires HasLine(s)
  {
    RawLine(s[..FirstBreak(s)], EndAt(s, FirstBreak(s)))
  }

  function Tail(s: string): (tail: string)
    requires HasLine(s)
    ensures |tail| < |s|
  {
    if Head(s).end == CRLF then s[FirstBreak(s) + 2..] else s[FirstBreak(s) + 1..]
  }

  function Render(lines: seq<RawLine>): string {
    if lines == [] then "" else lines[0].text + Ending(lines[0].end) + Render(lines[1..])
  }

  function Texts(lines: seq<RawLine>): (texts: seq<string>)
    ensures |texts| == |lines| && forall i | 0 <= i < |lines| :: texts[i] == lines[i].text
  {
    if lines == [] then [] else [lines[0].text] + Texts(lines[1..])
  }

  ghost predicate AllLineFree(lines: seq<RawLine>) {
    forall i | 0 <= i < |lines| :: LineFree(lines[i].text)
  }

  /** No CR-terminated line is followed by an empty LF-terminated one, which would read as one CRLF. */
  ghost predicate Unambiguous(lines: seq<RawLine>) {
    forall i | 0 <= i < |lines| - 1 :: !(lines[i].end == CR && lines[i + 1] == RawLine("", LF))
  }

  /** Cutting at LF, CRLF and lone CR. */
  function SplitLines(s: string): seq<RawLine>
    decreases |s|
  {
    if HasLine(s) then [Head(s)] + SplitLines(Tail(s)) else []
  }

  /** The texts of the lines. */
  function Lines(s: string): seq<string>
    decreases |s|
  {
    if HasLine(s) then [Head(s).text] + Lines(Tail(s)) else []
  }

  /** What follows the last terminator. */
  function Rest(s: string): string
    decreases |s|
  {
    if HasLine(s) then Rest(Tail(s)) else s
  }

  lemma {:induction false} LinesAreTexts(s: string)
    ensures Lines(s) == Texts(SplitLines(s))
    decreases |s|
  {
    if HasLine(s) {
      LinesAreTexts(Tail(s));
      assert SplitLines(s)[1..] == SplitLines(Tail(s));
    }
  }

  lemma HeadAndTail(s: string)
    requires HasLine(s)
    ensures s == Head(s).text + Ending(Head(s).end) + Tail(s) && LineFree(Head(s).text)
  {
  }

  /** The line of `text` ended by `end` in front of `tail` is what a split finds first. */
  lemma FoldLine(text: string, end: Terminator, tail: string)
    requires LineFree(text) && !(end == CR && tail != "" && tail[0] == '\n')
    ensures var s := text + Ending(end) + tail;
            HasLine(s) && Head(s) == RawLine(text, end) && Tail(s) == tail
  {
    var s, i := text + Ending(end) + tail, |text|;
    assert s[i] == Ending(end)[0];
    assert forall j | 0 <= j < i :: s[j] == text[j];
    assert FirstBreak(s) == i;
    if end == CRLF {
      assert s[i + 1] == '\n';
    } else if end == CR && tail != "" {
      assert s[i + 1] == tail[0];
    }
    assert s[..i] == text;
    assert Tail(s) == tail;
  }

  /** Nothing is lost: lines, terminators and leftover put together are the input. */
  lemma {:induction false} SplitReassembles(s: string)
    ensures Render(SplitLines(s)) + Rest(s) == s
    ensures AllLineFree(SplitLines(s)) && LineFree(Rest(s))
    decreases |s|
  {
    if HasLine(s) {
      SplitReassembles(Tail(s));
      HeadAndTail(s);
      assert SplitLines(s)[1..] == SplitLines(Tail(s));
      assert Render(SplitLines(s)) + Rest(s)
          == Head(s).text + Ending(Head(s).end) + (Render(SplitLines(Tail(s))) + Rest(Tail(s)));
    }
  }

  lemma RenderedFirst(lines: seq<RawLine>, rest: string)
    requires lines != [] && AllLineFree(lines) && Unambiguous(lines) && LineFree(rest)
    ensures var s := Render(lines) + rest;
            HasLine(s) && Head(s) == lines[0] && Tail(s) == Render(lines[1..]) + rest
  {
    var l, tail := lines[0], Render(lines[1..]) + rest;
    assert Render(lines) + rest == l.text + Ending(l.end) + tail;
    if l.end == CR && lines[1..] != [] {
      RenderStart(lines[1..], rest);
    }
    FoldLine(l.text, l.end, tail);
  }

  lemma {:induction false} SplitOfRendered(lines: seq<RawLine>, rest: string)
    requires AllLineFree(lines) && Unambiguous(lines) && LineFree(rest)
    ensures SplitLines(Render(lines) + rest) == lines && Rest(Render(lines) + rest) == rest
  {
    if lines == [] {
      assert Render(lines) + rest == rest;
    } else {
      RenderedFirst(lines, rest);
      SplitOfRendered(lines[1..], rest);
      assert lines == [lines[0]] + lines[1..];
    }
  }

  lemma RenderStart(lines: seq<RawLine>, rest: string)
    requires lines != [] && LineFree(lines[0].text) && lines[0] != RawLine("", LF)
    ensures var s := Render(lines) + rest; s != "" && s[0] != '\n'
  {
    var l := lines[0];
    assert Render(lines) + rest == l.text + Ending(l.end) + (Render(lines[1..]) + rest);
  }

  /** What a split yields is never ambiguous. */
  lemma {:induction false} SplitIsUnambiguous(s: string)
    ensures Unambiguous(SplitLines(s))
    decreases |s|
  {
    if HasLine(s) {
      var lines, more := SplitLines(s), SplitLines(Tail(s));
      SplitIsUnambiguous(Tail(s));
      forall k | 0 <= k < |lines| - 1 ensures !(lines[k].end == CR && lines[k + 1] == RawLine("", LF)) {
        if k > 0 {
          assert more[k - 1] == lines[k] && more[k] == lines[k + 1];
        } else {
          assert lines[1] == Head(Tail(s));
        }
      }
    }
  }

  /** Rendering is undone by splitting exactly when the lines are unambiguous. */
  lemma RenderingInvertibleExactly(lines: seq<RawLine>, rest: string)
    requires AllLineFree(lines) && LineFree(rest)
    ensures SplitLines(Render(lines) + rest) == lines && Rest(Render(lines) + rest) == rest <==> Unambiguous(lines)
  {
    if Unambiguous(lines) {
      SplitOfRendered(lines, rest);
    }
    SplitIsUnambiguous(Render(lines) + rest);
  }

  /** The cut between `s` and `t` separates the CR and the LF of one CRLF. */
  predicate InsideCrlf(s: string, t: string) {
    s != "" && t != "" && s[|s| - 1] == '\r' && t[0] == '\n'
  }

  /** More text behind a complete line changes nothing about it, unless it turns its lone CR into a CRLF. */
  lemma HeadAppend(s: string, t: string)
    requires HasLine(s) && !(Tail(s) == "" && InsideCrlf(s, t))
    ensures HasLine(s + t) && Head(s + t) == Head(s) && Tail(s + t) == Tail(s) + t
    ensures InsideCrlf(s, t) <==> InsideCrlf(Tail(s), t)
  {
    var l, tail := Head(s), Tail(s);
    HeadAndTail(s);
    assert s + t == l.text + Ending(l.end) + (tail + t);
    assert tail == "" ==> s[|s| - 1] == Ending(l.end)[|Ending(l.end)| - 1];
    assert tail != "" ==> tail[|tail| - 1] == s[|s| - 1] && (tail + t)[0] == tail[0] == s[FirstBreak(s) + |Ending(l.end)|];
    FoldLine(l.text, l.end, tail + t);
  }

  lemma HeadCompleted(s: string, t: string)
    requires HasLine(s) && Tail(s) == "" && InsideCrlf(s, t)
    ensures HasLine(s + t) && Head(s + t) == RawLine(Head(s).text, CRLF) && Tail(s + t) == t[1..]
  {
    HeadAndTail(s);
    assert s[|s| - 1] == Ending(Head(s).end)[|Ending(Head(s).end)| - 1];
    assert s + t == Head(s).text + Ending(CRLF) + t[1..];
    FoldLine(Head(s).text, CRLF, t[1..]);
  }

  lemma Regroup<T>(a: seq<T>, b: seq<T>, c: seq<T>)
    ensures a + (b + c) == (a + b) + c
  {
  }

  /** Splitting what follows a cut: everything before it is already final, ... */
  lemma {:induction false} SplitAppend(s: string, t: string)
    requires !InsideCrlf(s, t)
    ensures Lines(s + t) == Lines(s) + Lines(Rest(s) + t)
    ensures Rest(s + t) == Rest(Rest(s) + t)
    decreases |s|
  {
    if HasLine(s) {
      HeadAppend(s, t);
      var head, tail := [Head(s).text], Tail(s);
      SplitAppend(tail, t);
      Regroup(head, Lines(tail), Lines(Rest(tail) + t));
    } else {
      Regroup([], [], Lines(s + t));
    }
  }

  /** ... except a lone CR that becomes a CRLF. */
  lemma {:induction false} SplitInsideCrlf(s: string, t: string)
    requires InsideCrlf(s, t)
    ensures Rest(s) == ""
    ensures Lines(s + t) == Lines(s) + Lines(t[1..])
    ensures Rest(s + t) == Rest(t[1..])
    decreases |s|
  {
    assert HasLine(s) by {
      assert IsBreak(s[|s| - 1]);
    }
    var head, tail := [Head(s).text], Tail(s);
    if tail == "" {
      HeadCompleted(s, t);
      assert Lines(tail) == [];
      Regroup(head, [], Lines(t[1..]));
    } else {
      HeadAppend(s, t);
      SplitInsideCrlf(tail, t);
      Regroup(head, Lines(tail), Lines(t[1..]));
    }
  }

  lemma LeadingLineFeed(t: string)
    requires t != "" && t[0] == '\n'
    ensures Lines(t) == [""] + Lines(t[1..]) && Rest(t) == Rest(t[1..])
  {
    assert t == "" + Ending(LF) + t[1..];
    FoldLine("", LF, t[1..]);
  }

  // ---- fields ---------------------------------------------------------------------------

  /** The position of the first colon, or the length. */
  function Colon(line: string): (i: nat)
    ensures i <= |line| && (i < |line| ==> line[i] == ':') && forall j | 0 <= j < i :: line[j] != ':'
  {
    ColonFrom(line, 0)
  }

  function ColonFrom(line: string, from: nat): (i: nat)
    requires from <= |line| && forall j | 0 <= j < from :: line[j] != ':'
    ensures i <= |line| && (i < |line| ==> line[i] == ':') && forall j | 0 <= j < i :: line[j] != ':'
    decreases |line| - from
  {
    if from == |line| || line[from] == ':' then from else ColonFrom(line, from + 1)
  }

  function StripSpace(v: string): string {
    if v != "" && v[0] == ' ' then v[1..] else v
  }

  /** Name and value of a field line; one space after the colon is dropped. */
  function Field(line: string): (string, string) {
    var i := Colon(line);
    if i < |line| then (line[..i], StripSpace(line[i + 1..])) else (line, "")
  }

  lemma FieldOf(line: string, name: string, value: string)
    requires ':' !in name && line == name + ":" + value
    ensures Field(line) == (name, StripSpace(value))
  {
    assert line[|name|] == ':' && forall j | 0 <= j < |name| :: line[j] == name[j];
    assert Colon(line) == |name|;
    assert line[..|name|] == name && line[|name| + 1..] == value;
  }

  /** A text that arrives in chunks. */
  function Flatten(chunks: seq<string>): string {
    if chunks == [] then "" else chunks[0] + Flatten(chunks[1..])
  }

  /** The ways to write a field: with a space after the colon, without one, or with no colon at all. */
  ghost predicate Writes(line: string, name: string, value: string) {
    && ':' !in name
    && (|| line == name + ": " + value
        || (line == name + ":" + value && (value == "" || value[0] != ' '))
        || (line == name && value == ""))
  }

  /** A line has this name and this value exactly when it is one of the ways to write them. */
  lemma FieldExactly(line: string, name: string, value: string)
    ensures Field(line) == (name, value) <==> Writes(line, name, value)
  {
    if Writes(line, name, value) {
      WrittenField(line, name, value);
    }
    if Field(line) == (name, value) {
      FieldIsWritten(line);
    }
  }

  lemma WrittenField(line: string, name: string, value: string)
    requires Writes(line, name, value)
    ensures Field(line) == (name, value)
  {
    if line == name + ": " + value {
      assert line == name + ":" + (" " + value) && (" " + value)[1..] == value;
      FieldOf(line, name, " " + value);
    } else if line == name + ":" + value {
      FieldOf(line, name, value);
    } else {
      assert forall j | 0 <= j < |line| :: line[j] in name;
    }
  }

  lemma FieldIsWritten(line: string)
    ensures Writes(line, Field(line).0, Field(line).1)
  {
    var i := Colon(line);
    assert ':' !in line[..i];
    if i < |line| {
      var v := line[i + 1..];
      assert line == line[..i] + ":" + v;
      if v != "" && v[0] == ' ' {
        assert v == " " + v[1..];
        assert line == line[..i] + ": " + v[1..];
      }
    }
  }

  // ---- data pieces ----------------------------------------------------------------------

  function Join(pieces: seq<string>): string {
    if pieces == [] then ""
    else if |pieces| == 1 then pieces[0]
    else Join(pieces[..|pieces| - 1]) + "\n" + pieces[|pieces| - 1]
  }

  /** One data line for each piece. */
  function DataLines(pieces: seq<string>): seq<string> {
    if pieces == [] then [] else ["data: " + pieces[0]] + DataLines(pieces[1..])
  }

  /** The length of all pieces, each counted with one joining LF. */
  function PieceBytes(pieces: seq<string>): nat {
    if pieces == [] then 0 else PieceBytes(pieces[..|pieces| - 1]) + |pieces[|pieces| - 1]| + 1
  }

  lemma {:induction false} JoinLength(pieces: seq<string>)
    ensures |Join(pieces)| == if pieces == [] then 0 else PieceBytes(pieces) - 1
  {
    if |pieces| == 1 {
      assert pieces[..0] == [];
      assert PieceBytes(pieces[..0]) == 0;
    } else if pieces != [] {
      JoinLength(pieces[..|pieces| - 1]);
    }
  }

  lemma JoinMore(pieces: seq<string>, p: string)
    ensures Join(pieces + [p]) == if pieces == [] then p else Join(pieces) + "\n" + p
    ensures PieceBytes(pieces + [p]) == PieceBytes(pieces) + |p| + 1
  {
    assert (pieces + [p])[..|pieces|] == pieces;
  }

  /** The LF-separated pieces of a text: at least one. */
  function Pieces(d: string): (p: seq<string>)
    ensures p != []
    decreases |d|
  {
    var i := FirstLf(d);
    if i == |d| then [d] else [d[..i]] + Pieces(d[i + 1..])
  }

  /** The position of the first LF, or the length. */
  function FirstLf(d: string): (i: nat)
    ensures i <= |d| && (i < |d| ==> d[i] == '\n') && forall j | 0 <= j < i :: d[j] != '\n'
  {
    LfFrom(d, 0)
  }

  function LfFrom(d: string, from: nat): (i: nat)
    requires from <= |d| && forall j | 0 <= j < from :: d[j] != '\n'
    ensures i <= |d| && (i < |d| ==> d[i] == '\n') && forall j | 0 <= j < i :: d[j] != '\n'
    decreases |d| - from
  {
    if from == |d| || d[from] == '\n' then from else LfFrom(d, from + 1)
  }

  lemma {:induction false} JoinFirst(p: string, pieces: seq<string>)
    requires pieces != []
    ensures Join([p] + pieces) == p + "\n" + Join(pieces)
  {
    var all := [p] + pieces;
    assert all[|all| - 1] == pieces[|pieces| - 1];
    if |pieces| > 1 {
      assert all[..|all| - 1] == [p] + pieces[..|pieces| - 1];
      JoinFirst(p, pieces[..|pieces| - 1]);
    } else {
      assert all[..|all| - 1] == [p];
    }
  }

  lemma CutAt(d: string, i: nat)
    requires i < |d|
    ensures d == d[..i] + [d[i]] + d[i + 1..]
  {
  }

  lemma JoinAround(d: string, i: nat, pieces: seq<string>)
    requires i < |d| && d[i] == '\n' && pieces != [] && Join(pieces) == d[i + 1..]
    ensures Join([d[..i]] + pieces) == d
  {
    JoinFirst(d[..i], pieces);
    CutAt(d, i);
  }

  lemma {:induction false} JoinPieces(d: string)
    ensures Join(Pieces(d)) == d
    decreases |d|
  {
    var i := FirstLf(d);
    if i < |d| {
      JoinPieces(d[i + 1..]);
      JoinAround(d, i, Pieces(d[i + 1..]));
    }
  }

  lemma {:induction false} PiecesLineFree(d: string)
    requires '\r' !in d
    ensures forall i | 0 <= i < |Pieces(d)| :: LineFree(Pieces(d)[i])
    decreases |d|
  {
    var i := FirstLf(d);
    assert forall k | 0 <= k < i :: !IsBreak(d[k]) by {
      assert forall k | 0 <= k < |d| :: d[k] in d;
    }
    if i < |d| {
      PiecesLineFree(d[i + 1..]);
      assert Pieces(d)[1..] == Pieces(d[i + 1..]);
    }
  }
}
