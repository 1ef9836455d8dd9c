/** The Rust parser in its own form: an accumulator and a pending text updated in place by loops. */
module SseRustParser {
  import opened Wrappers
  import opened SseText
  import opened SseRust

  class SseAccumulator {
    var event: Option<string>
    var data: seq<string>
    var id: Option<string>

    constructor ()
      ensures Value() == EMPTY
    {
      event, data, id := None, [], None;
    }

    function Value(): Acc
      reads this
    {
      Acc(event, data, id)
    }

    method Reset() returns (ev: Option<SseEvent>)
      modifies this
      ensures (ev, Value()) == SseRust.Reset(old(Value()))
    {
      if data == [] && event.None? && id.None? {
        return None;
      }
      var joined := Join(data);
      if joined == "" && id.None? && event.None? {
        data := [];
        return None;
      }
      ev := Some(SseEvent(if event.Some? then event.value else "message", joined, id));
      event, id := None, None;
      data := [];
    }

    method HandleLine(line: string)
      modifies this
      ensures Value() == SseRust.HandleLine(old(Value()), line)
    {
      if line == "" || line[0] == ':' {
        return;
      }
      var (field, value) := Field(line);
      match field {
        case "event" => event := Some(value);
        case "data" => data := data + [value];
        case "id" => id := Some(value);
        case _ =>
      }
    }
  }

  /** Where a line ends and how long its terminator is. */
  datatype Term = Term(lineEnd: nat, termLen: nat)

  /** `t` is the first terminator of `s`. */
  ghost predicate IsFirst(t: Option<Term>, s: string) {
    match t
    case None => !HasLine(s)
    case Some(Term(end, len)) =>
      HasLine(s) && end + len <= |s| && s[..end] == Head(s).text && s[end + len..] == Tail(s)
  }

  method NextNewline(s: string) returns (t: Option<Term>)
    ensures IsFirst(t, s)
  {
    var idx := 0;
    while idx < |s|
      invariant idx <= |s| && forall j | 0 <= j < idx :: !IsBreak(s[j])
    {
      if s[idx] == '\n' {
        return Some(Term(idx, 1));
      }
      if s[idx] == '\r' {
        var termLen := if idx + 1 < |s| && s[idx + 1] == '\n' then 2 else 1;
        return Some(Term(idx, termLen));
      }
      idx := idx + 1;
    }
    t := None;
  }

  class SseParser {
    /** The unconsumed tail carried from one chunk to the next. */
    var pending: string

    constructor ()
      ensures pending == ""
    {
      pending := "";
    }

    method ParseChunk(chunk: string) returns (events: seq<SseEvent>)
      modifies this
      ensures events == Parse(old(pending) + chunk) && pending == Rest(old(pending) + chunk)
    {
      pending := pending + chunk;
      events := [];
      var acc := new SseAccumulator();
      var term := NextNewline(pending);
      while term.Some?
        invariant IsFirst(term, pending)
        invariant Progress(old(pending) + chunk, events, acc.Value(), pending)
        invariant fresh(acc)
        decreases |pending|
      {
        ghost var before, a := pending, acc.Value();
        var line := pending[..term.value.lineEnd];
        pending := pending[term.value.lineEnd..];
        pending := pending[term.value.termLen..];
        assert line == Head(before).text && pending == Tail(before);
        OneLine(old(pending) + chunk, events, a, before);
        if line == "" {
          var ev := acc.Reset();
          if ev.Some? {
            events := events + [ev.value];
          }
        } else {
          acc.HandleLine(line);
        }
        term := NextNewline(pending);
      }
    }
  }

  /** What is left to parse of `s` once `events` are out, the accumulator is `a` and `pending` is still to be read. */
  ghost predicate Progress(s: string, events: seq<SseEvent>, a: Acc, pending: string) {
    Parse(s) == events + Events(a, Lines(pending)) && Rest(s) == Rest(pending)
  }

  lemma OneLine(s: string, events: seq<SseEvent>, a: Acc, pending: string)
    requires HasLine(pending) && Progress(s, events, a, pending)
    ensures Progress(s, events + StepEvents(a, Head(pending).text), StepAcc(a, Head(pending).text), Tail(pending))
    ensures events + [] == events
  {
    var line, more := Head(pending).text, Lines(Tail(pending));
    EventsCons(a, line, more);
    Regroup(events, StepEvents(a, line), Events(StepAcc(a, line), more));
  }
}
