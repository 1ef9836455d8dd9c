/** The Go parser told from outside: printed events come back, and exactly when a stream is too long for it. */
module SseGoFrames {
  import opened Wrappers
  import opened Numbers
  import opened SseText
  import opened SseGo

  // ---- retry values -----------------------------------------------------------------------

  lemma {:induction false} DigitsSnoc(s: string, d: char, n: int)
    ensures DigitsFrom(s + [d], n)
            == match DigitsFrom(s, n)
               case None => None
               case Some(v) => if '0' <= d <= '9' then Some(Wrap64(v * 10 + (d as int - '0' as int))) else None
    decreases |s|
  {
    if s == "" {
      assert s + [d] == [d] && [d][1..] == "";
    } else {
      assert (s + [d])[1..] == s[1..] + [d] && (s + [d])[0] == s[0];
      if '0' <= s[0] <= '9' {
        DigitsSnoc(s[1..], d, Wrap64(n * 10 + (s[0] as int - '0' as int)));
      }
    }
  }

  /** A number that fits is read as itself. */
  lemma {:induction false} DecimalIsRead(n: nat)
    requires n < TWO63
    ensures Atoi(Decimal(n)) == Some(n)
  {
    var d := Digit(n % 10);
    if n < 10 {
      assert Decimal(n) == "" + [d];
      DigitsSnoc("", d, 0);
    } else {
      DecimalIsRead(n / 10);
      DigitsSnoc(Decimal(n / 10), d, 0);
    }
  }

  lemma {:induction false} OnlyDigitsAreRead(s: string, n: int)
    ensures DigitsFrom(s, n).None? <==> exists i :: 0 <= i < |s| && !('0' <= s[i] <= '9')
    decreases |s|
  {
    if s != "" {
      OnlyDigitsAreRead(s[1..], Wrap64(n * 10 + (s[0] as int - '0' as int)));
      assert forall i | 1 <= i < |s| :: s[i] == s[1..][i - 1];
      assert forall i | 0 <= i < |s| - 1 :: s[1..][i] == s[i + 1];
    }
  }

  /** Anything but digits is no number, and neither is nothing. */
  lemma NumbersAreDigitsExactly(s: string)
    ensures Atoi(s).Some? <==> s != "" && forall i | 0 <= i < |s| :: '0' <= s[i] <= '9'
  {
    OnlyDigitsAreRead(s, 0);
  }

  // ---- printing ---------------------------------------------------------------------------

  function OptionalLine(name: string, value: string): seq<string> {
    if value == "" then [] else [name + ": " + value]
  }

  function RetryLines(retry: int): seq<string> {
    if retry > 0 then ["retry: " + Decimal(retry)] else []
  }

  /** An event as a server writes it, a blank line at its end. */
  function EventLines(e: GoEvent): seq<string> {
    OptionalLine("event", e.event) + (OptionalLine("id", e.id) + (RetryLines(e.retry) + (DataLines(Pieces(e.data)) + [""])))
  }

  function AllEventLines(events: seq<GoEvent>): seq<string> {
    if events == [] then [] else EventLines(events[0]) + AllEventLines(events[1..])
  }

  /** There is something to dispatch, the retry fits, and the data is within bounds. */
  predicate Printable(e: GoEvent, maxBytes: int) {
    && (e.data != "" || e.id != "" || e.event != "" || e.retry > 0)
    && 0 <= e.retry < TWO63 && PieceBytes(Pieces(e.data)) <= maxBytes
  }

  lemma FieldLineGo(cur: Cur, line: string, name: string, value: string)
    requires Writes(line, name, value) && line != ""
    ensures After(cur, line)
            == if name == "event" then cur.(event := value)
               else if name == "id" then cur.(id := value)
               else if name == "retry" && Atoi(value).Some? then cur.(retry := Atoi(value).value)
               else if name == "data" then cur.(dataLines := cur.dataLines + [value], dataBytes := cur.dataBytes + |value| + 1)
               else cur
  {
    FieldExactly(line, name, value);
    assert line[0] == ':' ==> name == "";
  }

  /** A line that stays within bounds dispatches nothing and leaves the rest to be parsed. */
  lemma OneLineGo(cur: Cur, line: string, more: seq<string>, fails: bool, maxBytes: int)
    requires line != "" && After(cur, line).dataBytes <= maxBytes
    ensures Parse(cur, [line] + more, fails, maxBytes) == Parse(After(cur, line), more, fails, maxBytes)
  {
    assert ([line] + more)[0] == line && ([line] + more)[1..] == more;
    var rest := Parse(After(cur, line), more, fails, maxBytes);
    assert [] + rest.events == rest.events;
  }

  function WithData(cur: Cur, lines: seq<string>): Cur {
    cur.(dataLines := lines, dataBytes := PieceBytes(lines))
  }

  lemma DataLineIsWritten(p: string)
    ensures Writes("data: " + p, "data", p) && "data: " + p != ""
  {
    assert "data: " + p == "data" + ": " + p;
  }

  lemma AfterDataLine(cur: Cur, p: string)
    requires cur.dataBytes == PieceBytes(cur.dataLines)
    ensures After(cur, "data: " + p) == WithData(cur, cur.dataLines + [p])
  {
    DataLineIsWritten(p);
    FieldLineGo(cur, "data: " + p, "data", p);
    JoinMore(cur.dataLines, p);
  }

  lemma DataLineGo(cur: Cur, p: string, more: seq<string>, fails: bool, maxBytes: int)
    requires cur.dataBytes == PieceBytes(cur.dataLines) && PieceBytes(cur.dataLines + [p]) <= maxBytes
    ensures Parse(cur, ["data: " + p] + more, fails, maxBytes) == Parse(WithData(cur, cur.dataLines + [p]), more, fails, maxBytes)
  {
    AfterDataLine(cur, p);
    DataLineIsWritten(p);
    OneLineGo(cur, "data: " + p, more, fails, maxBytes);
  }

  lemma {:induction false} DataLinesGo(cur: Cur, pieces: seq<string>, more: seq<string>, fails: bool, maxBytes: int)
    requires cur.dataBytes == PieceBytes(cur.dataLines) && PieceBytes(cur.dataLines + pieces) <= maxBytes
    ensures Parse(cur, DataLines(pieces) + more, fails, maxBytes) == Parse(WithData(cur, cur.dataLines + pieces), more, fails, maxBytes)
    decreases |pieces|
  {
    if pieces == [] {
      assert DataLines(pieces) + more == more && cur.dataLines + pieces == cur.dataLines;
    } else {
      var p, rest := pieces[0], pieces[1..];
      assert pieces == [p] + rest;
      Regroup(cur.dataLines, [p], rest);
      BytesGrow(cur.dataLines + [p], rest);
      Regroup(["data: " + p], DataLines(rest), more);
      DataLineGo(cur, p, DataLines(rest) + more, fails, maxBytes);
      DataLinesGo(WithData(cur, cur.dataLines + [p]), rest, more, fails, maxBytes);
    }
  }

  lemma {:induction false} BytesGrow(xs: seq<string>, ys: seq<string>)
    ensures PieceBytes(xs) <= PieceBytes(xs + ys)
    decreases |ys|
  {
    if ys == [] {
      assert xs + ys == xs;
    } else {
      var n := |ys| - 1;
      assert (xs + ys)[..|xs + ys| - 1] == xs + ys[..n];
      BytesGrow(xs, ys[..n]);
    }
  }

  lemma HeaderLineGo(cur: Cur, name: string, value: string, more: seq<string>, fails: bool, maxBytes: int)
    requires (name == "event" && cur.event == "") || (name == "id" && cur.id == "")
    requires cur.dataBytes == 0 <= maxBytes
    ensures Parse(cur, OptionalLine(name, value) + more, fails, maxBytes)
            == Parse(if name == "event" then cur.(event := value) else cur.(id := value), more, fails, maxBytes)
  {
    if value == "" {
      assert OptionalLine(name, value) + more == more;
    } else {
      FieldLineGo(cur, name + ": " + value, name, value);
      OneLineGo(cur, name + ": " + value, more, fails, maxBytes);
    }
  }

  lemma RetryLineGo(cur: Cur, retry: int, more: seq<string>, fails: bool, maxBytes: int)
    requires cur.retry == 0 && 0 <= retry < TWO63 && cur.dataBytes == 0 <= maxBytes
    ensures Parse(cur, RetryLines(retry) + more, fails, maxBytes) == Parse(cur.(retry := retry), more, fails, maxBytes)
  {
    if retry == 0 {
      assert RetryLines(retry) + more == more;
    } else {
      var line := "retry: " + Decimal(retry);
      assert line == "retry" + ": " + Decimal(retry);
      DecimalIsRead(retry);
      FieldLineGo(cur, line, "retry", Decimal(retry));
      OneLineGo(cur, line, more, fails, maxBytes);
    }
  }

  lemma BlankLineGo(e: GoEvent, more: seq<string>, fails: bool, maxBytes: int)
    requires Printable(e, maxBytes)
    ensures var cur := Cur(e.id, e.event, e.retry, Pieces(e.data), PieceBytes(Pieces(e.data)));
            var rest := Parse(FRESH, more, fails, maxBytes);
            Parse(cur, [""] + more, fails, maxBytes) == Parsed([e] + rest.events, rest.end)
  {
    JoinPieces(e.data);
    assert ([""] + more)[0] == "" && ([""] + more)[1..] == more;
  }

  lemma OneEventGo(e: GoEvent, more: seq<string>, fails: bool, maxBytes: int)
    requires Printable(e, maxBytes)
    ensures var rest := Parse(FRESH, more, fails, maxBytes);
            Parse(FRESH, EventLines(e) + more, fails, maxBytes) == Parsed([e] + rest.events, rest.end)
  {
    var d, r, i, h := DataLines(Pieces(e.data)), RetryLines(e.retry), OptionalLine("id", e.id), OptionalLine("event", e.event);
    Regroup(h, i + (r + (d + [""])), more);
    Regroup(i, r + (d + [""]), more);
    Regroup(r, d + [""], more);
    Regroup(d, [""], more);
    var tail := d + ([""] + more);
    HeaderLineGo(FRESH, "event", e.event, i + (r + tail), fails, maxBytes);
    var c1 := FRESH.(event := e.event);
    HeaderLineGo(c1, "id", e.id, r + tail, fails, maxBytes);
    var c2 := c1.(id := e.id);
    RetryLineGo(c2, e.retry, tail, fails, maxBytes);
    var c3 := c2.(retry := e.retry);
    assert [] + Pieces(e.data) == Pieces(e.data);
    DataLinesGo(c3, Pieces(e.data), [""] + more, fails, maxBytes);
    BlankLineGo(e, more, fails, maxBytes);
  }

  /** Printed events come back as they were, in order, also when the reader fails at the end. */
  lemma {:induction false} GoRoundTrip(events: seq<GoEvent>, fails: bool, maxBytes: int)
    requires forall k | 0 <= k < |events| :: Printable(events[k], maxBytes)
    ensures Parse(FRESH, AllEventLines(events), fails, maxBytes) == Parsed(events, if fails then ScanFailed else CleanEof)
  {
    if events != [] {
      GoRoundTrip(events[1..], fails, maxBytes);
      OneEventGo(events[0], AllEventLines(events[1..]), fails, maxBytes);
      assert events == [events[0]] + events[1..];
    }
  }

  // ---- overflow ---------------------------------------------------------------------------

  /** The bytes a line adds to the data of its event, with the joining LF. */
  function DataBytes(line: string): nat {
    if line != "" && line[0] != ':' && Field(line).0 == "data" then |Field(line).1| + 1 else 0
  }

  function BytesOf(lines: seq<string>): nat {
    if lines == [] then 0 else DataBytes(lines[0]) + BytesOf(lines[1..])
  }

  /** The first `j` lines belong to one event and, on top of `before`, are too long. */
  ghost predicate FirstTooLong(before: nat, lines: seq<string>, j: nat, maxBytes: int) {
    j <= |lines| && (forall k | 0 <= k < j :: lines[k] != "") && before + BytesOf(lines[..j]) > maxBytes
  }

  /** Lines `i` to `j` belong to one event and are too long. */
  ghost predicate TooLong(lines: seq<string>, i: nat, j: nat, maxBytes: int) {
    i <= j <= |lines| && FirstTooLong(0, lines[i..], j - i, maxBytes)
  }

  lemma FirstTooLongMore(before: nat, lines: seq<string>, j: nat, maxBytes: int)
    requires lines != [] && lines[0] != "" && 0 < j <= |lines|
    ensures FirstTooLong(before, lines, j, maxBytes) <==> FirstTooLong(before + DataBytes(lines[0]), lines[1..], j - 1, maxBytes)
  {
    assert lines[..j][1..] == lines[1..][..j - 1] && lines[..j][0] == lines[0];
    assert forall k | 1 <= k < j :: lines[k] == lines[1..][k - 1];
    assert forall k | 0 <= k < j - 1 :: lines[1..][k] == lines[k + 1];
  }

  lemma TooLongMore(lines: seq<string>, i: nat, j: nat, maxBytes: int)
    requires lines != [] && 0 < i <= j <= |lines|
    ensures TooLong(lines, i, j, maxBytes) <==> TooLong(lines[1..], i - 1, j - 1, maxBytes)
  {
    assert lines[i..] == lines[1..][i - 1..];
  }

  lemma LineAdds(cur: Cur, line: string)
    ensures After(cur, line).dataBytes == if line == "" then 0 else cur.dataBytes + DataBytes(line)
    ensures line != "" && DataBytes(line) > 0 ==> After(cur, line).dataLines != cur.dataLines
  {
  }

  lemma {:induction false} OverflowFrom(cur: Cur, lines: seq<string>, fails: bool, maxBytes: int)
    requires cur.dataBytes <= maxBytes
    ensures Parse(cur, lines, fails, maxBytes).end.Overflow?
            <==> (exists j: nat :: FirstTooLong(cur.dataBytes, lines, j, maxBytes))
                 || exists i: nat, j: nat :: 0 < i && TooLong(lines, i, j, maxBytes)
    decreases |lines|
  {
    if lines != [] {
      var line, more := lines[0], lines[1..];
      var next := After(cur, line);
      LineAdds(cur, line);
      LongerOneBy(cur.dataBytes, cur.dataBytes + DataBytes(line), lines, more, maxBytes);
      if next.dataBytes <= maxBytes {
        OverflowFrom(next, more, fails, maxBytes);
        LaterBlocks(lines, maxBytes);
        assert forall j: nat | FirstTooLong(0, more, j, maxBytes) :: FirstTooLong(next.dataBytes, more, j, maxBytes);
        assert Parse(cur, lines, fails, maxBytes).end.Overflow? <==> Parse(next, more, fails, maxBytes).end.Overflow?;
      } else {
        assert more[..0] == [];
        assert FirstTooLong(next.dataBytes, more, 0, maxBytes);
        assert Parse(cur, lines, fails, maxBytes).end.Overflow?;
      }
    }
  }

  lemma LongerOneBy(before: nat, after: nat, lines: seq<string>, more: seq<string>, maxBytes: int)
    requires lines != [] && before <= maxBytes && after == before + DataBytes(lines[0]) && more == lines[1..]
    ensures (exists j: nat :: FirstTooLong(before, lines, j, maxBytes))
            <==> lines[0] != "" && exists j: nat :: FirstTooLong(after, more, j, maxBytes)
  {
    if j: nat :| FirstTooLong(before, lines, j, maxBytes) {
      assert lines[..0] == [];
      FirstTooLongMore(before, lines, j, maxBytes);
    }
    if lines[0] != "" {
      if j: nat :| FirstTooLong(after, more, j, maxBytes) {
        FirstTooLongMore(before, lines, j + 1, maxBytes);
      }
    }
  }

  lemma LaterBlocks(lines: seq<string>, maxBytes: int)
    requires lines != [] && maxBytes >= 0
    ensures (exists i: nat, j: nat :: 0 < i && TooLong(lines, i, j, maxBytes))
            <==> (exists j: nat :: FirstTooLong(0, lines[1..], j, maxBytes)) || exists i: nat, j: nat :: 0 < i && TooLong(lines[1..], i, j, maxBytes)
  {
    if i: nat, j: nat :| 0 < i && TooLong(lines, i, j, maxBytes) {
      TooLongMore(lines, i, j, maxBytes);
      assert lines[1..][0..] == lines[1..];
    }
    if j: nat :| FirstTooLong(0, lines[1..], j, maxBytes) {
      assert TooLong(lines, 1, j + 1, maxBytes);
    }
    if i: nat, j: nat :| 0 < i && TooLong(lines[1..], i, j, maxBytes) {
      TooLongMore(lines, i + 1, j + 1, maxBytes);
    }
  }

  /** A stream overflows exactly when some run of lines without a blank one holds more data than allowed. */
  lemma OverflowExactly(lines: seq<string>, fails: bool, maxBytes: int)
    requires maxBytes > 0
    ensures Parse(FRESH, lines, fails, maxBytes).end.Overflow? <==> exists i: nat, j: nat :: TooLong(lines, i, j, maxBytes)
    ensures !Parse(FRESH, lines, fails, maxBytes).end.Overflow? ==>
              Parse(FRESH, lines, fails, maxBytes).end == if fails then ScanFailed else CleanEof
  {
    OverflowFrom(FRESH, lines, fails, maxBytes);
    assert lines[0..] == lines;
    if j: nat :| FirstTooLong(0, lines, j, maxBytes) {
      assert TooLong(lines, 0, j, maxBytes);
    }
    EndsOtherwise(FRESH, lines, fails, maxBytes);
  }

  lemma {:induction false} EndsOtherwise(cur: Cur, lines: seq<string>, fails: bool, maxBytes: int)
    ensures Parse(cur, lines, fails, maxBytes).end in {Overflow, if fails then ScanFailed else CleanEof}
    decreases |lines|
  {
    if lines != [] {
      EndsOtherwise(After(cur, lines[0]), lines[1..], fails, maxBytes);
    }
  }
}
