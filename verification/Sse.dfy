/**
 The Server-Sent Events client of asyncsseclient.py, on decoded text: bytes are cut only at CR,
 LF and colons, which UTF-8 never uses inside another character.
 */
module Sse {
  import opened Wrappers

  predicate EndsWith(s: string, suffix: string) {
    |s| >= |suffix| && s[|s| - |suffix|..] == suffix
  }

  /** The empty line that ends an event. */
  predicate Delimited(s: string) {
    EndsWith(s, "\r\r") || EndsWith(s, "\n\n") || EndsWith(s, "\r\n\r\n")
  }

  /** What _read yields when data is left over from before and the stream goes on with pieces. */
  function Chunks(data: string, pieces: seq<string>): seq<string>
    decreases |pieces|
  {
    if pieces == [] then (if data == "" then [] else [data])
    else
      var d := data + pieces[0];
      if Delimited(d) then [d] + Chunks("", pieces[1..]) else Chunks(d, pieces[1..])
  }

  /** The _read generator, run to its end. */
  method Read(stream: seq<string>) returns (yielded: seq<string>)
    ensures yielded == Chunks("", stream)
  {
    yielded := [];
    var data := "";
    var i := 0;
    while i < |stream|
      invariant 0 <= i <= |stream|
      invariant Chunks("", stream) == yielded + Chunks(data, stream[i..])
    {
      assert stream[i..][0] == stream[i] && stream[i..][1..] == stream[i + 1..];
      ghost var was := yielded;
      data := data + stream[i];
      if Delimited(data) {
        yielded := yielded + [data];
        assert was + ([data] + Chunks("", stream[i + 1..])) == yielded + Chunks("", stream[i + 1..]);
        data := "";
      }
      i := i + 1;
    }
    if data != "" {
      yielded := yielded + [data];
    }
  }

  /** bytes.splitlines(): CR, LF and CR LF end a line. */
  function SplitLines(s: string): seq<string>
    decreases |s|
  {
    if s == "" then []
    else if s[0] == '\n' then [""] + SplitLines(s[1..])
    else if s[0] == '\r' then [""] + SplitLines(if |s| > 1 && s[1] == '\n' then s[2..] else s[1..])
    else
      var rest := SplitLines(s[1..]);
      if |s| > 1 && s[1] != '\n' && s[1] != '\r' && rest != [] then [[s[0]] + rest[0]] + rest[1..]
      else if |s| > 1 && rest != [] then [[s[0]]] + rest[1..]
      else [s]
  }

  /** str.isspace() */
  predicate IsSpace(c: char) {
    var n := c as int;
    || 0x9 <= n <= 0xD || 0x1C <= n <= 0x20 || n == 0x85 || n == 0xA0 || n == 0x1680
    || 0x2000 <= n <= 0x200A || n == 0x2028 || n == 0x2029 || n == 0x202F || n == 0x205F || n == 0x3000
  }

  predicate IsBlank(line: string) {
    forall i :: 0 <= i < |line| ==> IsSpace(line[i])
  }

  /** The index of the first colon, or the length. */
  function Colon(line: string): (k: nat)
    ensures k <= |line| && ':' !in line[..k] && (k < |line| ==> line[k] == ':')
  {
    if line == "" || line[0] == ':' then 0
    else
      var k := Colon(line[1..]);
      assert line[..k + 1] == [line[0]] + line[1..][..k];
      k + 1
  }

  function Field(line: string): string {
    line[..Colon(line)]
  }

  function Value(line: string): string {
    var k := Colon(line);
    if k == |line| then ""
    else
      var v := line[k + 1..];
      if v != "" && v[0] == ' ' then v[1..] else v
  }

  /** The fields of an Event. */
  datatype EventValue = EventValue(id: Option<string>, event: string, data: string, retry: Option<string>)

  const BLANK_EVENT := EventValue(None, "message", "", None)

  function Interpret(e: EventValue, line: string): EventValue {
    if IsBlank(line) || line[0] == ':' then e
    else
      var field, value := Field(line), Value(line);
      if field == "data" then e.(data := e.data + value + "\n")
      else if field == "id" then e.(id := Some(value))
      else if field == "event" then e.(event := value)
      else if field == "retry" then e.(retry := Some(value))
      else e
  }

  function InterpretAll(e: EventValue, lines: seq<string>): EventValue
    decreases |lines|
  {
    if lines == [] then e else InterpretAll(Interpret(e, lines[0]), lines[1..])
  }

  /** The event a chunk dispatches, if any. */
  function Dispatch(e: EventValue): Option<EventValue> {
    if e.data == "" then None
    else
      var data := if EndsWith(e.data, "\n") then e.data[..|e.data| - 1] else e.data;
      Some(e.(data := data, event := if e.event == "" then "message" else e.event))
  }

  function EventOf(chunk: string): Option<EventValue> {
    Dispatch(InterpretAll(BLANK_EVENT, SplitLines(chunk)))
  }

  function EventsOf(chunks: seq<string>): seq<EventValue> {
    if chunks == [] then []
    else
      match EventOf(chunks[0])
      case None => EventsOf(chunks[1..])
      case Some(e) => [e] + EventsOf(chunks[1..])
  }

  class Event {
    var id: Option<string>
    var event: string
    var data: string
    var retry: Option<string>

    constructor ()
      ensures Now() == BLANK_EVENT
    {
      id, event, data, retry := None, "message", "", None;
    }

    function Now(): EventValue
      reads this
    {
      EventValue(id, event, data, retry)
    }

    /** The body of the loop over the lines of a chunk. */
    method TakeLine(line: string)
      modifies this
      ensures Now() == Interpret(old(Now()), line)
    {
      if IsBlank(line) || line[0] == ':' {
        return;
      }
      var k := Colon(line);
      var field := line[..k];
      if field !in {"id", "event", "data", "retry"} {
        return;
      }
      var value := "";
      if k < |line| {
        value := line[k + 1..];
        if value != "" && value[0] == ' ' {
          value := value[1..];
        }
      }
      if field == "data" {
        data := data + value + "\n";
      } else if field == "id" {
        id := Some(value);
      } else if field == "event" {
        event := value;
      } else {
        retry := Some(value);
      }
    }

    /** The loop over the lines of a chunk. */
    method TakeLines(lines: seq<string>)
      modifies this
      ensures Now() == InterpretAll(old(Now()), lines)
    {
      var j := 0;
      while j < |lines|
        invariant 0 <= j <= |lines|
        invariant InterpretAll(old(Now()), lines) == InterpretAll(Now(), lines[j..])
      {
        assert lines[j..][0] == lines[j] && lines[j..][1..] == lines[j + 1..];
        TakeLine(lines[j]);
        j := j + 1;
      }
    }

    /** The end of the loop body over the chunks: whether to dispatch, and as what. */
    method Finish() returns (dispatched: bool)
      modifies this
      ensures dispatched <==> Dispatch(old(Now())).Some?
      ensures dispatched ==> Now() == Dispatch(old(Now())).value
    {
      if data == "" {
        return false;
      }
      if EndsWith(data, "\n") {
        data := data[..|data| - 1];
      }
      event := if event == "" then "message" else event;
      return true;
    }
  }

  ghost predicate AreEvents(events: seq<Event>, values: seq<EventValue>)
    reads events
  {
    |events| == |values| && forall i :: 0 <= i < |events| ==> events[i].Now() == values[i]
  }

  /** The body of the loop over the chunks: the event to dispatch, or null. */
  method EventFrom(chunk: string) returns (event: Event?)
    ensures (event == null) == EventOf(chunk).None?
    ensures event != null ==> fresh(event) && event.Now() == EventOf(chunk).value
  {
    var e := new Event();
    e.TakeLines(SplitLines(chunk));
    var dispatched := e.Finish();
    event := if dispatched then e else null;
  }

  /** The events generator, run to its end on the chunks that _read yields. */
  method Events(chunks: seq<string>) returns (yielded: seq<Event>)
    ensures forall k :: 0 <= k < |yielded| ==> fresh(yielded[k])
    ensures AreEvents(yielded, EventsOf(chunks))
  {
    yielded := [];
    ghost var values: seq<EventValue> := [];
    var i := 0;
    while i < |chunks|
      invariant 0 <= i <= |chunks|
      invariant forall k :: 0 <= k < |yielded| ==> fresh(yielded[k])
      invariant AreEvents(yielded, values) && EventsOf(chunks) == values + EventsOf(chunks[i..])
    {
      assert chunks[i..][0] == chunks[i] && chunks[i..][1..] == chunks[i + 1..];
      ghost var rest := EventsOf(chunks[i + 1..]);
      var event := EventFrom(chunks[i]);
      i := i + 1;
      if event != null {
        assert values + ([event.Now()] + rest) == (values + [event.Now()]) + rest;
        yielded, values := yielded + [event], values + [event.Now()];
      }
    }
  }
}
