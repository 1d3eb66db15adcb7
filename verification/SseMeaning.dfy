/** What the events of a chunk are, read off its lines without going through them one by one. */
module SseMeaning {
  import opened Wrappers
  import opened Sequences
  import opened Sse
  import opened SseProof

  /** A line is its field, a colon, one space that does not count, and its value. */
  lemma LineMeaning(field: string, value: string)
    requires ':' !in field
    ensures Field(field) == field && Value(field) == ""
    ensures Field(field + ":" + value) == field
    ensures Value(field + ":" + value) == if value != "" && value[0] == ' ' then value[1..] else value
  {
    var line := field + ":" + value;
    ColonAfter(field, value);
    assert line[..|field|] == field && line[|field| + 1..] == value;
    assert Colon(field) == |field|;
  }

  /** The line has this field; a comment has none. */
  predicate HasField(line: string, field: string) {
    line != "" && line[0] != ':' && Field(line) == field
  }

  /** The values of a field, in order. */
  function ValuesOf(lines: seq<string>, field: string): seq<string> {
    if lines == [] then []
    else
      var init, last := ValuesOf(lines[..|lines| - 1], field), lines[|lines| - 1];
      if HasField(last, field) then init + [Value(last)] else init
  }

  function Last(values: seq<string>): Option<string> {
    if values == [] then None else Some(values[|values| - 1])
  }

  lemma {:induction false} JoinMore(values: seq<string>, last: string)
    requires values != []
    ensures Join(values + [last], '\n') == Join(values, '\n') + "\n" + last
  {
    var all := values + [last];
    if |values| == 1 {
      assert all[1..] == [last];
    } else {
      assert all[1..] == values[1..] + [last];
      JoinMore(values[1..], last);
      Regroup(values[0] + "\n", Join(values[1..], '\n'), "\n", last);
    }
  }

  /** Values joined, each with its LF. */
  function DataText(values: seq<string>): string {
    if values == [] then "" else Join(values, '\n') + "\n"
  }

  lemma DataGrows(values: seq<string>, last: string)
    ensures DataText(values + [last]) == DataText(values) + last + "\n"
  {
    if values == [] {
      EmptyLeft([last]);
      EmptyLeft(last);
    } else {
      JoinMore(values, last);
    }
  }

  /** What has been read of a chunk after these lines. */
  function ReadSoFar(lines: seq<string>): EventValue {
    var event := Last(ValuesOf(lines, "event"));
    EventValue(
      Last(ValuesOf(lines, "id")),
      if event.Some? then event.value else "message",
      DataText(ValuesOf(lines, "data")),
      Last(ValuesOf(lines, "retry")))
  }

  lemma BlankHasNoField(line: string, field: string)
    requires IsBlank(line) && field in {"id", "event", "data", "retry"}
    ensures !HasField(line, field)
  {
    if line != "" {
      assert IsSpace(line[0]);
    }
  }

  lemma OneMoreLine(lines: seq<string>, line: string)
    ensures Interpret(ReadSoFar(lines), line) == ReadSoFar(lines + [line])
  {
    assert (lines + [line])[..|lines|] == lines;
    if IsBlank(line) {
      BlankHasNoField(line, "id");
      BlankHasNoField(line, "event");
      BlankHasNoField(line, "data");
      BlankHasNoField(line, "retry");
    } else if HasField(line, "data") {
      DataGrows(ValuesOf(lines, "data"), Value(line));
    }
  }

  lemma {:induction false} LinesAreRead(lines: seq<string>)
    ensures InterpretAll(BLANK_EVENT, lines) == ReadSoFar(lines)
  {
    if lines != [] {
      var init, last := lines[..|lines| - 1], lines[|lines| - 1];
      LinesAreRead(init);
      SplitLast(lines);
      InterpretConcat(BLANK_EVENT, init, [last]);
      assert InterpretAll(ReadSoFar(init), [last]) == InterpretAll(Interpret(ReadSoFar(init), last), []);
      OneMoreLine(init, last);
    }
  }

  /**
   A chunk dispatches an event exactly when it has a data line. The event has the last id and retry,
   the last name, "message" for none or an empty one, and the data lines joined by LF.
   */
  lemma EventMeaning(chunk: string)
    ensures var lines := SplitLines(chunk);
            var name, data := Last(ValuesOf(lines, "event")), ValuesOf(lines, "data");
            EventOf(chunk) ==
            if data == [] then None
            else Some(EventValue(Last(ValuesOf(lines, "id")),
                                 if name.None? || name.value == "" then "message" else name.value,
                                 Join(data, '\n'),
                                 Last(ValuesOf(lines, "retry"))))
  {
    var lines := SplitLines(chunk);
    LinesAreRead(lines);
    var data := ValuesOf(lines, "data");
    if data != [] {
      LastNewlineIsDropped(Join(data, '\n'));
    }
  }
}
