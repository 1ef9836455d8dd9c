/** The Go client's event-stream parser, as functions on scanned lines. Text is bytes, one character each. */
module SseGo {
  import opened Wrappers
  import opened SseText
  import opened Numbers

  datatype GoEvent = GoEvent(id: string, event: string, data: string, retry: int)

  // ---- scanning ---------------------------------------------------------------------------

  function DropCr(s: string): string {
    if s != "" && s[|s| - 1] == '\r' then s[..|s| - 1] else s
  }

  /** The scanner drops one trailing CR of a line and the parser another. */
  function Clean(line: string): string {
    DropCr(DropCr(line))
  }

  /** The lines the parser sees: cut at LF, the last one also without, an empty last one not at all. */
  function ScanLines(s: string): seq<string>
    decreases |s|
  {
    var i := FirstLf(s);
    if i < |s| then [Clean(s[..i])] + ScanLines(s[i + 1..])
    else if s == "" then [] else [Clean(s)]
  }

  // ---- the parser -------------------------------------------------------------------------

  /** The event under construction: header fields, data lines, and their bytes with one LF each. */
  datatype Cur = Cur(id: string, event: string, retry: int, dataLines: seq<string>, dataBytes: nat)

  const FRESH := Cur("", "", 0, [], 0)

  datatype ScanEnd = CleanEof | Overflow | ScanFailed

  datatype Parsed = Parsed(events: seq<GoEvent>, end: ScanEnd)

  /** Overflow wraps around the 64-bit `int`. */
  function DigitsFrom(s: string, n: int): Option<int>
    decreases |s|
  {
    if s == "" then Some(n)
    else if '0' <= s[0] <= '9' then DigitsFrom(s[1..], Wrap64(n * 10 + (s[0] as int - '0' as int)))
    else None
  }

  function Atoi(s: string): Option<int> {
    if s == "" then None else DigitsFrom(s, 0)
  }

  /** What a blank line or the end of the stream dispatches, if anything. */
  function Dispatch(cur: Cur): Option<GoEvent> {
    var data := Join(cur.dataLines);
    if data != "" || cur.id != "" || cur.event != "" || cur.retry > 0
    then Some(GoEvent(cur.id, cur.event, data, cur.retry)) else None
  }

  function Dispatched(cur: Cur): seq<GoEvent> {
    if Dispatch(cur).Some? then [Dispatch(cur).value] else []
  }

  function TakeField(cur: Cur, line: string): Cur {
    var (field, value) := Field(line);
    if field == "event" then cur.(event := value)
    else if field == "id" then cur.(id := value)
    else if field == "retry" then if Atoi(value).Some? then cur.(retry := Atoi(value).value) else cur
    else if field == "data" then cur.(dataLines := cur.dataLines + [value], dataBytes := cur.dataBytes + |value| + 1)
    else cur
  }

  function After(cur: Cur, line: string): Cur {
    if line == "" then FRESH else if line[0] == ':' then cur else TakeField(cur, line)
  }

  /** The rest of a parse: it stops at once when the data of one event outgrows `maxBytes`. */
  function Parse(cur: Cur, lines: seq<string>, scanFails: bool, maxBytes: int): Parsed
    decreases |lines|
  {
    if lines == [] then
      if scanFails then Parsed([], ScanFailed) else Parsed(Dispatched(cur), CleanEof)
    else
      var line := lines[0];
      var next := After(cur, line);
      if next.dataBytes > maxBytes && next.dataLines != cur.dataLines then Parsed([], Overflow)
      else
        var more := Parse(next, lines[1..], scanFails, maxBytes);
        Parsed((if line == "" then Dispatched(cur) else []) + more.events, more.end)
  }

  // ---- memory -----------------------------------------------------------------------------

  ghost predicate Counted(cur: Cur, maxBytes: int) {
    cur.dataBytes == PieceBytes(cur.dataLines) <= maxBytes
  }

  lemma DispatchIsBounded(cur: Cur, maxBytes: int)
    requires Counted(cur, maxBytes) && maxBytes > 0
    ensures forall e | e in Dispatched(cur) :: |e.data| < maxBytes
  {
    JoinLength(cur.dataLines);
  }

  /** However long the stream, no dispatched event carries `maxBytes` bytes of data or more. */
  lemma {:induction false} EveryEventIsBounded(cur: Cur, lines: seq<string>, scanFails: bool, maxBytes: int)
    requires Counted(cur, maxBytes) && maxBytes > 0
    ensures forall e | e in Parse(cur, lines, scanFails, maxBytes).events :: |e.data| < maxBytes
    decreases |lines|
  {
    DispatchIsBounded(cur, maxBytes);
    if lines != [] {
      var next := After(cur, lines[0]);
      if !(next.dataBytes > maxBytes && next.dataLines != cur.dataLines) {
        if lines[0] != "" && lines[0][0] != ':' {
          JoinMore(cur.dataLines, Field(lines[0]).1);
        }
        EveryEventIsBounded(next, lines[1..], scanFails, maxBytes);
      }
    }
  }

  // ---- last id ----------------------------------------------------------------------------

  /** The id of the last event that has one, or what it was before. */
  function LastId(before: string, events: seq<GoEvent>): string {
    if events == [] then before
    else if events[|events| - 1].id != "" then events[|events| - 1].id
    else LastId(before, events[..|events| - 1])
  }
}
