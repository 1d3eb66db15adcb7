/** What the Server-Sent Events client promises: nothing lost in cutting, nothing lost in parsing. */
module SseProof {
  import opened Wrappers
  import opened Sequences
  import opened Sse

  // ---- cutting the stream ----

  /** The chunks put together are the input. */
  lemma {:induction false} ChunksLoseNothing(data: string, pieces: seq<string>)
    ensures Flatten(Chunks(data, pieces)) == data + Flatten(pieces)
    decreases |pieces|
  {
    if pieces != [] {
      var d := data + pieces[0];
      assert data + Flatten(pieces) == d + Flatten(pieces[1..]);
      if Delimited(d) {
        ChunksLoseNothing("", pieces[1..]);
        FlattenCons(d, Chunks("", pieces[1..]));
      } else {
        ChunksLoseNothing(d, pieces[1..]);
      }
    }
  }

  /** No chunk is empty, and all but the last end an event. */
  ghost predicate CutAtDelimiters(chunks: seq<string>) {
    && (forall i :: 0 <= i < |chunks| ==> chunks[i] != "")
    && (forall i :: 0 <= i < |chunks| - 1 ==> Delimited(chunks[i]))
  }

  lemma CutOnceMore(chunk: string, chunks: seq<string>)
    requires Delimited(chunk) && CutAtDelimiters(chunks)
    ensures CutAtDelimiters([chunk] + chunks)
  {
    var all := [chunk] + chunks;
    assert forall i :: 0 < i < |all| ==> all[i] == chunks[i - 1];
  }

  lemma {:induction false} ChunksAreCutAtDelimiters(data: string, pieces: seq<string>)
    ensures CutAtDelimiters(Chunks(data, pieces))
    decreases |pieces|
  {
    if pieces != [] {
      var d := data + pieces[0];
      if Delimited(d) {
        ChunksAreCutAtDelimiters("", pieces[1..]);
        CutOnceMore(d, Chunks("", pieces[1..]));
      } else {
        ChunksAreCutAtDelimiters(d, pieces[1..]);
      }
    }
  }

  ghost predicate OnlyAtEnd(w: string, s: string) {
    forall i: nat :: OccursAt(w, s, i) ==> i + |w| == |s|
  }

  ghost predicate Nowhere(w: string, s: string) {
    forall i: nat :: !OccursAt(w, s, i)
  }

  /** A line as a line-wise stream delivers it: LF can only be its last character. */
  predicate IsLine(p: string) {
    p != "" && forall k :: 0 <= k < |p| - 1 ==> p[k] != '\n'
  }

  lemma LineAddsAtEndOnly(w: string, data: string, p: string)
    requires w != "" && w[|w| - 1] == '\n' && Nowhere(w, data) && IsLine(p)
    ensures OnlyAtEnd(w, data + p)
  {
    var s := data + p;
    forall i: nat | OccursAt(w, s, i) ensures i + |w| == |s| {
      var e := i + |w| - 1;
      assert s[i..i + |w|][|w| - 1] == s[e] == '\n';
      if e < |data| {
        assert data[i..i + |w|] == s[i..i + |w|];
        assert OccursAt(w, data, i);
      }
    }
  }

  lemma OccursAtEnd(w: string, s: string, i: nat)
    requires OccursAt(w, s, i) && i + |w| == |s|
    ensures EndsWith(s, w)
  {
    assert s[|s| - |w|..] == s[i..i + |w|];
  }

  lemma NowhereUnlessAtEnd(w: string, s: string)
    requires OnlyAtEnd(w, s) && !EndsWith(s, w)
    ensures Nowhere(w, s)
  {
    forall i: nat | OccursAt(w, s, i) ensures false {
      OccursAtEnd(w, s, i);
    }
  }

  /** Fed line by line, _read never puts an event's end anywhere but at the end of a chunk. */
  lemma {:induction false} ChunksOfLines(data: string, lines: seq<string>)
    requires forall i :: 0 <= i < |lines| ==> IsLine(lines[i])
    requires Nowhere("\n\n", data) && Nowhere("\r\n\r\n", data)
    ensures forall c :: c in Chunks(data, lines) ==> OnlyAtEnd("\n\n", c) && OnlyAtEnd("\r\n\r\n", c)
    decreases |lines|
  {
    if lines != [] {
      var d := data + lines[0];
      LineAddsAtEndOnly("\n\n", data, lines[0]);
      LineAddsAtEndOnly("\r\n\r\n", data, lines[0]);
      if Delimited(d) {
        ChunksOfLines("", lines[1..]);
      } else {
        NowhereUnlessAtEnd("\n\n", d);
        NowhereUnlessAtEnd("\r\n\r\n", d);
        ChunksOfLines(d, lines[1..]);
      }
    }
  }

  // ---- printing events ----

  /** The lines of a stream, each with its LF, as they arrive. */
  function FeedLines(s: string): seq<string>
    decreases |s|
  {
    if s == "" then []
    else if s[0] == '\n' then ["\n"] + FeedLines(s[1..])
    else
      var rest := FeedLines(s[1..]);
      if rest == [] then [s] else [[s[0]] + rest[0]] + rest[1..]
  }

  /** The three ways to end a line. */
  predicate IsEnd(end: string) {
    end == "\n" || end == "\r\n" || end == "\r"
  }

  function Terminated(lines: seq<string>, end: string): seq<string> {
    if lines == [] then [] else [lines[0] + end] + Terminated(lines[1..], end)
  }

  function FieldLine(field: string, value: string): string {
    field + ": " + value
  }

  function DataLines(parts: seq<string>): seq<string> {
    if parts == [] then [] else [FieldLine("data", parts[0])] + DataLines(parts[1..])
  }

  function OptionalLine(field: string, value: Option<string>): seq<string> {
    if value.Some? then [FieldLine(field, value.value)] else []
  }

  /** An event as field lines: one data line for each line of the data. */
  function LinesOf(e: EventValue): seq<string> {
    OptionalLine("id", e.id) + [FieldLine("event", e.event)]
    + DataLines(Split(e.data, '\n')) + OptionalLine("retry", e.retry)
  }

  function Print(e: EventValue, end: string): string {
    Flatten(Terminated(LinesOf(e), end)) + end
  }

  function Prints(es: seq<EventValue>, end: string): seq<string> {
    if es == [] then [] else [Print(es[0], end)] + Prints(es[1..], end)
  }

  function PrintAll(es: seq<EventValue>, end: string): string {
    Flatten(Prints(es, end))
  }

  predicate OneLine(s: string) {
    '\r' !in s && '\n' !in s
  }

  predicate Clean(e: EventValue) {
    && (e.id.Some? ==> OneLine(e.id.value)) && OneLine(e.event) && '\r' !in e.data
    && (e.retry.Some? ==> OneLine(e.retry.value))
  }

  /** An empty event name is read as "message". */
  function Normal(e: EventValue): EventValue {
    e.(event := if e.event == "" then "message" else e.event)
  }

  function NormalAll(es: seq<EventValue>): seq<EventValue> {
    if es == [] then [] else [Normal(es[0])] + NormalAll(es[1..])
  }

  // ---- one event through _read ----

  ghost predicate FieldLines(lines: seq<string>) {
    forall i :: 0 <= i < |lines| ==> lines[i] != "" && OneLine(lines[i])
  }

  lemma {:induction false} FeedOneLine(line: string, rest: string)
    requires '\n' !in line
    ensures FeedLines(line + "\n" + rest) == [line + "\n"] + FeedLines(rest)
  {
    var s := line + "\n" + rest;
    if line == "" {
      assert s == "\n" + rest;
    } else {
      FeedOneLine(line[1..], rest);
      assert s[1..] == line[1..] + "\n" + rest;
      assert [s[0]] + (line[1..] + "\n") == line + "\n";
    }
  }

  /** A line that ends in LF or CR LF is delivered as it is. */
  lemma FeedEndedLine(line: string, end: string, rest: string)
    requires OneLine(line) && (end == "\n" || end == "\r\n")
    ensures FeedLines(line + end + rest) == [line + end] + FeedLines(rest)
  {
    if end == "\n" {
      FeedOneLine(line, rest);
    } else {
      FeedOneLine(line + "\r", rest);
      assert line + "\r" + "\n" == line + end;
    }
  }

  lemma {:induction false} FeedEvent(lines: seq<string>, end: string, rest: string)
    requires FieldLines(lines) && (end == "\n" || end == "\r\n")
    ensures FeedLines(Flatten(Terminated(lines, end)) + end + rest) ==
            Terminated(lines, end) + [end] + FeedLines(rest)
    decreases |lines|
  {
    if lines == [] {
      FeedEndedLine("", end, rest);
      assert Flatten(Terminated(lines, end)) + end + rest == "" + end + rest;
      EmptyLeft(end);
      EmptyLeft([end]);
    } else {
      var tail := Flatten(Terminated(lines[1..], end)) + end + rest;
      FlattenCons(lines[0] + end, Terminated(lines[1..], end));
      Regroup(lines[0] + end, Flatten(Terminated(lines[1..], end)), end, rest);
      FeedEndedLine(lines[0], end, tail);
      FeedEvent(lines[1..], end, rest);
      Regroup([lines[0] + end], Terminated(lines[1..], end), [end], FeedLines(rest));
    }
  }

  /** What _read holds between the lines of an event: text that ends in one full line. */
  predicate MidEvent(data: string, end: string) {
    |data| > |end| && EndsWith(data, end) && OneLine([data[|data| - |end| - 1]])
  }

  lemma SuffixAt(s: string, suffix: string, i: nat)
    requires EndsWith(s, suffix) && i < |suffix|
    ensures s[|s| - |suffix| + i] == suffix[i]
  {
    assert s[|s| - |suffix|..][i] == suffix[i];
  }

  lemma DelimiterCharacters(d: string)
    requires Delimited(d)
    ensures |d| >= 2
    ensures d[|d| - 2] == d[|d| - 1] || (|d| >= 4 && d[|d| - 3] == '\n' && d[|d| - 2] == '\r' && d[|d| - 1] == '\n')
  {
    if EndsWith(d, "\r\r") {
      SuffixAt(d, "\r\r", 0);
      SuffixAt(d, "\r\r", 1);
    } else if EndsWith(d, "\n\n") {
      SuffixAt(d, "\n\n", 0);
      SuffixAt(d, "\n\n", 1);
    } else {
      SuffixAt(d, "\r\n\r\n", 1);
      SuffixAt(d, "\r\n\r\n", 2);
      SuffixAt(d, "\r\n\r\n", 3);
    }
  }

  lemma MidEventIsNotDelimited(d: string, end: string)
    requires IsEnd(end) && MidEvent(d, end)
    ensures !Delimited(d)
  {
    SuffixAt(d, end, 0);
    SuffixAt(d, end, |end| - 1);
    if Delimited(d) {
      DelimiterCharacters(d);
      assert false;
    }
  }

  lemma BlankLineDelimits(data: string, end: string)
    requires IsEnd(end) && MidEvent(data, end)
    ensures Delimited(data + end)
  {
    var d := data + end;
    assert d[|d| - |end| - |end|..] == data[|data| - |end|..] + end;
    assert d[|d| - |end| - |end|..] == end + end;
  }

  lemma LineKeepsMidEvent(data: string, line: string, end: string)
    requires line != "" && OneLine(line) && IsEnd(end)
    ensures MidEvent(data + (line + end), end)
  {
    var d := data + (line + end);
    assert d[|d| - |end|..] == end;
    assert d[|d| - |end| - 1] == line[|line| - 1];
  }

  lemma TerminatedStep(data: string, lines: seq<string>, end: string, rest: seq<string>)
    requires lines != []
    ensures Terminated(lines, end) + [end] + rest ==
            [lines[0] + end] + (Terminated(lines[1..], end) + [end] + rest)
    ensures data + (lines[0] + end) + Flatten(Terminated(lines[1..], end)) + end ==
            data + Flatten(Terminated(lines, end)) + end
  {
    var head, tail := lines[0] + end, Terminated(lines[1..], end);
    FlattenCons(head, tail);
    Reassociate(data, head, Flatten(tail), end);
    Regroup([head], tail, [end], rest);
  }

  lemma {:induction false} EventIsOneChunk(data: string, lines: seq<string>, end: string, rest: seq<string>)
    requires FieldLines(lines) && IsEnd(end) && (MidEvent(data, end) || (data == "" && lines != []))
    ensures Chunks(data, Terminated(lines, end) + [end] + rest) ==
            [data + Flatten(Terminated(lines, end)) + end] + Chunks("", rest)
    decreases |lines|
  {
    var pieces := Terminated(lines, end) + [end] + rest;
    if lines == [] {
      BlankLineDelimits(data, end);
      assert pieces[0] == end && pieces[1..] == rest;
      assert data + Flatten([]) + end == data + end;
    } else {
      var d := data + (lines[0] + end);
      LineKeepsMidEvent(data, lines[0], end);
      MidEventIsNotDelimited(d, end);
      TerminatedStep(data, lines, end, rest);
      EventIsOneChunk(d, lines[1..], end, rest);
    }
  }

  /** Delivered in one piece, a printed event is a chunk as well. */
  lemma {:induction false} EndsMidEvent(lines: seq<string>, end: string)
    requires FieldLines(lines) && lines != [] && IsEnd(end)
    ensures MidEvent(Flatten(Terminated(lines, end)), end)
    decreases |lines|
  {
    FlattenCons(lines[0] + end, Terminated(lines[1..], end));
    if |lines| == 1 {
      LineKeepsMidEvent("", lines[0], end);
      EmptyLeft(lines[0] + end);
      assert Flatten(Terminated(lines, end)) == lines[0] + end;
    } else {
      EndsMidEvent(lines[1..], end);
      MidEventAfter(lines[0] + end, Flatten(Terminated(lines[1..], end)), end);
    }
  }

  lemma MidEventAfter(before: string, data: string, end: string)
    requires MidEvent(data, end)
    ensures MidEvent(before + data, end)
  {
    var d := before + data;
    assert d[|d| - |end|..] == data[|data| - |end|..];
    assert d[|d| - |end| - 1] == data[|data| - |end| - 1];
  }

  // ---- one event through the parser ----

  lemma SplitEmptyLine(end: string, rest: string)
    requires IsEnd(end) && (end == "\r" ==> rest == "" || rest[0] != '\n')
    ensures SplitLines(end + rest) == [""] + SplitLines(rest)
  {
    var s := end + rest;
    assert s[|end|..] == rest;
    assert end == "\r" && rest != "" ==> s[1] == rest[0];
  }

  lemma SplitCharacter(c: char, s: string)
    requires OneLine([c]) && s != "" && SplitLines(s) != []
    ensures SplitLines([c] + s) ==
            [if OneLine([s[0]]) then [c] + SplitLines(s)[0] else [c]] + SplitLines(s)[1..]
  {
    var all := [c] + s;
    assert all[0] == c && all[1] == s[0] && all[1..] == s;
    assert OneLine([s[0]]) <==> s[0] != '\r' && s[0] != '\n';
    assert c in [c];
  }

  lemma LineStart(line: string, end: string, rest: string)
    requires line != "" && OneLine(line) && IsEnd(end)
    ensures OneLine([line[0]]) && OneLine(line[1..])
    ensures var t := line[1..] + end + rest;
            line + end + rest == [line[0]] + t && t != "" && (OneLine([t[0]]) <==> line[1..] != "")
  {
    var t := line[1..] + end + rest;
    assert t[0] == if line[1..] != "" then line[1] else end[0];
    assert end[0] in [end[0]];
  }

  /** LF, CR LF and CR end a line; a CR is taken together with an LF after it. */
  lemma {:induction false} SplitOneLine(line: string, end: string, rest: string)
    requires OneLine(line) && IsEnd(end) && (end == "\r" ==> rest == "" || rest[0] != '\n')
    ensures SplitLines(line + end + rest) == [line] + SplitLines(rest)
  {
    if line == "" {
      SplitEmptyLine(end, rest);
      EmptyLeft(end);
    } else {
      LineStart(line, end, rest);
      SplitOneLine(line[1..], end, rest);
      var t := line[1..] + end + rest;
      SplitCharacter(line[0], t);
      assert SplitLines(t)[0] == line[1..] && SplitLines(t)[1..] == SplitLines(rest);
      assert [line[0]] + line[1..] == line;
      assert line[1..] == "" ==> line == [line[0]];
      assert SplitLines([line[0]] + t) == [line] + SplitLines(rest);
    }
  }

  /** The last line need not be ended. */
  lemma {:induction false} SplitUnendedLine(line: string)
    requires OneLine(line)
    ensures SplitLines(line) == if line == "" then [] else [line]
  {
    if line != "" {
      SplitUnendedLine(line[1..]);
      if |line| > 1 {
        assert [line[0]] + line[1..] == line;
      }
    }
  }

  lemma {:induction false} SplitEvent(lines: seq<string>, end: string)
    requires FieldLines(lines) && IsEnd(end)
    ensures SplitLines(Flatten(Terminated(lines, end)) + end) == lines + [""]
    decreases |lines|
  {
    if lines == [] {
      SplitOneLine("", end, "");
      assert Flatten(Terminated(lines, end)) + end == "" + end + "";
    } else {
      var tail := Flatten(Terminated(lines[1..], end)) + end;
      FlattenCons(lines[0] + end, Terminated(lines[1..], end));
      Associate(lines[0] + end, Flatten(Terminated(lines[1..], end)), end);
      StartsWithoutNewline(lines[1..], end);
      SplitOneLine(lines[0], end, tail);
      SplitEvent(lines[1..], end);
      assert [lines[0]] + (lines[1..] + [""]) == lines + [""];
    }
  }

  lemma StartsWithoutNewline(lines: seq<string>, end: string)
    requires FieldLines(lines) && IsEnd(end)
    ensures var text := Flatten(Terminated(lines, end)) + end; text != "" && (end != "\n" ==> text[0] != '\n')
  {
    if lines != [] {
      FlattenCons(lines[0] + end, Terminated(lines[1..], end));
      assert (Flatten(Terminated(lines, end)) + end)[0] == lines[0][0];
    }
  }

  lemma {:induction false} InterpretConcat(e: EventValue, a: seq<string>, b: seq<string>)
    ensures InterpretAll(e, a + b) == InterpretAll(InterpretAll(e, a), b)
    decreases |a|
  {
    if a == [] {
      assert a + b == b;
    } else {
      assert (a + b)[1..] == a[1..] + b;
      InterpretConcat(Interpret(e, a[0]), a[1..], b);
    }
  }

  lemma {:induction false} ColonAfter(field: string, rest: string)
    requires ':' !in field
    ensures Colon(field + ":" + rest) == |field|
  {
    var s := field + ":" + rest;
    if field != "" {
      assert s[1..] == field[1..] + ":" + rest;
      ColonAfter(field[1..], rest);
    } else {
      assert s == ":" + rest;
    }
  }

  /** Reading back "field: value". */
  lemma ReadField(field: string, value: string)
    requires field != "" && ':' !in field && !IsSpace(field[0])
    ensures var line := FieldLine(field, value);
            !IsBlank(line) && line[0] != ':' && Field(line) == field && Value(line) == value
  {
    var line := FieldLine(field, value);
    assert line == field + ":" + (" " + value);
    ColonAfter(field, " " + value);
    assert line[0] == field[0];
    assert line[|field| + 1..] == " " + value;
  }

  lemma ReadDataLine(e: EventValue, part: string)
    ensures Interpret(e, FieldLine("data", part)) == e.(data := e.data + part + "\n")
  {
    ReadField("data", part);
  }

  lemma JoinOfMore(parts: seq<string>, before: string)
    requires |parts| > 1
    ensures before + parts[0] + "\n" + Join(parts[1..], '\n') + "\n" == before + Join(parts, '\n') + "\n"
  {
    Regroup(before, parts[0], "\n", Join(parts[1..], '\n'));
  }

  lemma {:induction false} ReadDataLines(e: EventValue, parts: seq<string>)
    requires parts != []
    ensures InterpretAll(e, DataLines(parts)) == e.(data := e.data + Join(parts, '\n') + "\n")
    decreases |parts|
  {
    ReadDataLine(e, parts[0]);
    var next := e.(data := e.data + parts[0] + "\n");
    assert DataLines(parts)[1..] == DataLines(parts[1..]);
    if |parts| == 1 {
      assert InterpretAll(next, []) == next;
    } else {
      ReadDataLines(next, parts[1..]);
      JoinOfMore(parts, e.data);
    }
  }

  lemma {:induction false} DataLinesAreFieldLines(parts: seq<string>)
    requires forall i :: 0 <= i < |parts| ==> OneLine(parts[i])
    ensures FieldLines(DataLines(parts))
    decreases |parts|
  {
    if parts != [] {
      DataLinesAreFieldLines(parts[1..]);
    }
  }

  lemma {:induction false} PartsKeepOut(s: string, sep: char, c: char)
    requires c !in s
    ensures NoneContains(Split(s, sep), c)
  {
    if s != "" {
      PartsKeepOut(s[1..], sep, c);
    }
  }

  lemma LinesOfAreFieldLines(e: EventValue)
    requires Clean(e)
    ensures FieldLines(LinesOf(e)) && LinesOf(e) != []
  {
    PartsKeepOut(e.data, '\n', '\r');
    SplitHasNoSeparator(e.data, '\n');
    DataLinesAreFieldLines(Split(e.data, '\n'));
  }

  lemma ReadOptional(e: EventValue, field: string, value: Option<string>)
    requires (field == "id" && e.id.None?) || (field == "retry" && e.retry.None?)
    ensures InterpretAll(e, OptionalLine(field, value)) == if field == "id" then e.(id := value) else e.(retry := value)
  {
    if value.Some? {
      ReadOne(e, field, value.value);
    }
  }

  lemma ReadData(e: EventValue, data: string)
    requires e.data == ""
    ensures InterpretAll(e, DataLines(Split(data, '\n'))) == e.(data := data + "\n")
  {
    ReadDataLines(e, Split(data, '\n'));
    JoinOfSplit(data, '\n');
    assert "" + data == data;
  }

  /** The parser reads back what was printed. */
  lemma ReadLinesOf(e: EventValue)
    ensures InterpretAll(BLANK_EVENT, LinesOf(e)) == e.(data := e.data + "\n")
  {
    var id, retry := OptionalLine("id", e.id), OptionalLine("retry", e.retry);
    var event, data := [FieldLine("event", e.event)], DataLines(Split(e.data, '\n'));
    InterpretConcat(BLANK_EVENT, id + event + data, retry);
    InterpretConcat(BLANK_EVENT, id + event, data);
    InterpretConcat(BLANK_EVENT, id, event);
    var a := BLANK_EVENT.(id := e.id);
    var b := a.(event := e.event);
    var c := b.(data := e.data + "\n");
    ReadOptional(BLANK_EVENT, "id", e.id);
    ReadOne(a, "event", e.event);
    ReadData(b, e.data);
    ReadOptional(c, "retry", e.retry);
  }

  lemma ReadOne(e: EventValue, field: string, value: string)
    requires field == "id" || field == "event" || field == "retry"
    ensures InterpretAll(e, [FieldLine(field, value)]) ==
            if field == "id" then e.(id := Some(value))
            else if field == "event" then e.(event := value)
            else e.(retry := Some(value))
  {
    ReadField(field, value);
    var next := Interpret(e, FieldLine(field, value));
    assert InterpretAll(next, []) == next;
  }

  lemma BlankLineChangesNothing(e: EventValue, lines: seq<string>)
    ensures InterpretAll(e, lines + [""]) == InterpretAll(e, lines)
  {
    InterpretConcat(e, lines, [""]);
    var read := InterpretAll(e, lines);
    assert InterpretAll(read, [""]) == InterpretAll(read, []) == read;
  }

  lemma LastNewlineIsDropped(data: string)
    ensures var read := data + "\n"; read[|read| - 1..] == "\n" && read[..|read| - 1] == data
  {}

  /** A printed event is parsed to itself, however its lines end. */
  lemma EventIsReadBack(e: EventValue, end: string)
    requires Clean(e) && IsEnd(end)
    ensures EventOf(Print(e, end)) == Some(Normal(e))
  {
    LinesOfAreFieldLines(e);
    SplitEvent(LinesOf(e), end);
    ReadLinesOf(e);
    BlankLineChangesNothing(BLANK_EVENT, LinesOf(e));
    LastNewlineIsDropped(e.data);
  }

  // ---- round trip ----

  ghost predicate AllClean(es: seq<EventValue>) {
    forall i :: 0 <= i < |es| ==> Clean(es[i])
  }

  lemma {:induction false} CleanEventsAreReadBack(es: seq<EventValue>, end: string)
    requires AllClean(es) && IsEnd(end)
    ensures EventsOf(Prints(es, end)) == NormalAll(es)
    decreases |es|
  {
    if es != [] {
      EventIsReadBack(es[0], end);
      assert Prints(es, end)[1..] == Prints(es[1..], end);
      CleanEventsAreReadBack(es[1..], end);
    }
  }

  lemma {:induction false} FedLinesAreOneChunkEach(es: seq<EventValue>, end: string)
    requires AllClean(es) && (end == "\n" || end == "\r\n")
    ensures Chunks("", FeedLines(PrintAll(es, end))) == Prints(es, end)
    decreases |es|
  {
    if es != [] {
      var lines, rest := LinesOf(es[0]), PrintAll(es[1..], end);
      LinesOfAreFieldLines(es[0]);
      FlattenCons(Print(es[0], end), Prints(es[1..], end));
      FeedEvent(lines, end, rest);
      EventIsOneChunk("", lines, end, FeedLines(rest));
      EmptyLeft(Flatten(Terminated(lines, end)));
      FedLinesAreOneChunkEach(es[1..], end);
    }
  }

  lemma PrintIsDelimited(e: EventValue, end: string)
    requires Clean(e) && IsEnd(end)
    ensures Delimited(Print(e, end))
  {
    LinesOfAreFieldLines(e);
    EndsMidEvent(LinesOf(e), end);
    BlankLineDelimits(Flatten(Terminated(LinesOf(e), end)), end);
  }

  lemma DelimitedPiece(piece: string, rest: seq<string>)
    requires Delimited(piece)
    ensures Chunks("", [piece] + rest) == [piece] + Chunks("", rest)
  {
    EmptyLeft(piece);
    assert ([piece] + rest)[1..] == rest;
  }

  lemma {:induction false} PiecesAreOneChunkEach(es: seq<EventValue>, end: string)
    requires AllClean(es) && IsEnd(end)
    ensures Chunks("", Prints(es, end)) == Prints(es, end)
    decreases |es|
  {
    if es != [] {
      PrintIsDelimited(es[0], end);
      DelimitedPiece(Print(es[0], end), Prints(es[1..], end));
      PiecesAreOneChunkEach(es[1..], end);
    }
  }

  lemma {:induction false} SplitLinesAreOneLine(s: string)
    ensures forall i :: 0 <= i < |SplitLines(s)| ==> OneLine(SplitLines(s)[i])
    decreases |s|
  {
    if s != "" {
      if s[0] == '\r' && |s| > 1 && s[1] == '\n' {
        SplitLinesAreOneLine(s[2..]);
      } else {
        SplitLinesAreOneLine(s[1..]);
      }
      if s[0] != '\r' && s[0] != '\n' && |s| > 1 && SplitLines(s[1..]) == [] {
        assert false;
      }
    }
  }

  lemma InterpretStaysClean(e: EventValue, line: string)
    requires Clean(e) && OneLine(line)
    ensures Clean(Interpret(e, line))
  {}

  lemma {:induction false} InterpretAllStaysClean(e: EventValue, lines: seq<string>)
    requires Clean(e) && forall i :: 0 <= i < |lines| ==> OneLine(lines[i])
    ensures Clean(InterpretAll(e, lines))
    decreases |lines|
  {
    if lines != [] {
      InterpretStaysClean(e, lines[0]);
      InterpretAllStaysClean(Interpret(e, lines[0]), lines[1..]);
    }
  }

  /** Whatever the input, a dispatched event has no line break where a line could not hold one. */
  lemma {:induction false} DispatchedEventsAreClean(chunks: seq<string>)
    ensures forall i :: 0 <= i < |EventsOf(chunks)| ==> Clean(EventsOf(chunks)[i])
    decreases |chunks|
  {
    if chunks != [] {
      SplitLinesAreOneLine(chunks[0]);
      InterpretAllStaysClean(BLANK_EVENT, SplitLines(chunks[0]));
      DispatchedEventsAreClean(chunks[1..]);
    }
  }

  lemma {:induction false} NormalAllAt(es: seq<EventValue>, i: nat)
    ensures |NormalAll(es)| == |es| && (i < |es| ==> NormalAll(es)[i] == Normal(es[i]))
    decreases |es|
  {
    if es != [] {
      NormalAllAt(es[1..], if i > 0 then i - 1 else 0);
    }
  }

  lemma ReadBackMeansClean(es: seq<EventValue>, chunks: seq<string>)
    requires EventsOf(chunks) == NormalAll(es)
    ensures AllClean(es)
  {
    DispatchedEventsAreClean(chunks);
    forall i | 0 <= i < |es| ensures Clean(es[i]) {
      NormalAllAt(es, i);
    }
  }

  /**
   Printed events, fed line by line through _read and events, come back in order if and only if
   no id, name or retry holds a CR or LF and no data holds a CR; lines may end in LF or CR LF.
   */
  lemma RoundTrip(es: seq<EventValue>, end: string)
    requires end == "\n" || end == "\r\n"
    ensures EventsOf(Chunks("", FeedLines(PrintAll(es, end)))) == NormalAll(es) <==> AllClean(es)
  {
    if AllClean(es) {
      FedLinesAreOneChunkEach(es, end);
      CleanEventsAreReadBack(es, end);
    }
    if EventsOf(Chunks("", FeedLines(PrintAll(es, end)))) == NormalAll(es) {
      ReadBackMeansClean(es, Chunks("", FeedLines(PrintAll(es, end))));
    }
  }

  /** Fed one event at a time they come back on the same condition, also when lines end in CR. */
  lemma RoundTripInPieces(es: seq<EventValue>, end: string)
    requires IsEnd(end)
    ensures EventsOf(Chunks("", Prints(es, end))) == NormalAll(es) <==> AllClean(es)
  {
    if AllClean(es) {
      PiecesAreOneChunkEach(es, end);
      CleanEventsAreReadBack(es, end);
    }
    if EventsOf(Chunks("", Prints(es, end))) == NormalAll(es) {
      ReadBackMeansClean(es, Chunks("", Prints(es, end)));
    }
  }

  lemma {:induction false} FeedWithoutNewline(s: string)
    requires '\n' !in s
    ensures FeedLines(s) == if s == "" then [] else [s]
  {
    if s != "" {
      FeedWithoutNewline(s[1..]);
      assert [s[0]] + s[1..] == s;
    }
  }

  lemma {:induction false} NoNewlineInLines(lines: seq<string>)
    requires FieldLines(lines)
    ensures '\n' !in Flatten(Terminated(lines, "\r"))
    decreases |lines|
  {
    if lines != [] {
      FlattenCons(lines[0] + "\r", Terminated(lines[1..], "\r"));
      NoNewlineInLines(lines[1..]);
    }
  }

  lemma {:induction false} NoNewlineInPrints(es: seq<EventValue>)
    requires AllClean(es)
    ensures '\n' !in PrintAll(es, "\r")
    ensures es != [] ==> PrintAll(es, "\r") != ""
    decreases |es|
  {
    if es != [] {
      LinesOfAreFieldLines(es[0]);
      NoNewlineInLines(LinesOf(es[0]));
      FlattenCons(Print(es[0], "\r"), Prints(es[1..], "\r"));
      NoNewlineInPrints(es[1..]);
    }
  }

  lemma CarriageReturnsAreOneChunk(es: seq<EventValue>)
    requires AllClean(es)
    ensures Chunks("", FeedLines(PrintAll(es, "\r"))) == if es == [] then [] else [PrintAll(es, "\r")]
  {
    var s := PrintAll(es, "\r");
    NoNewlineInPrints(es);
    FeedWithoutNewline(s);
    if es != [] {
      OnePieceIsOneChunk(s);
    }
  }

  lemma OnePieceIsOneChunk(s: string)
    requires s != ""
    ensures Chunks("", [s]) == [s]
  {
    EmptyLeft(s);
    assert [s][1..] == [];
    assert Chunks("", []) == [] && Chunks(s, []) == [s];
  }

  lemma OneChunkIsAtMostOneEvent(chunk: string)
    ensures EventsOf([chunk]) == match EventOf(chunk) case None => [] case Some(e) => [e]
  {
    assert [chunk][1..] == [] && EventsOf([]) == [];
  }

  lemma OnePrint(e: EventValue, end: string)
    ensures PrintAll([e], end) == Print(e, end)
  {
    assert Prints([e], end) == [Print(e, end)] + Prints([e][1..], end);
    FlattenCons(Print(e, end), []);
    EmptyLeft(Print(e, end));
  }

  lemma OneEventOfCarriageReturns(e: EventValue)
    requires Clean(e)
    ensures EventsOf([PrintAll([e], "\r")]) == NormalAll([e])
  {
    OnePrint(e, "\r");
    EventIsReadBack(e, "\r");
    OneChunkIsAtMostOneEvent(Print(e, "\r"));
    assert [e][1..] == [] && NormalAll([]) == [];
  }

  lemma SeveralAreNotReadBack(es: seq<EventValue>, chunk: string)
    requires |es| > 1
    ensures EventsOf([chunk]) != NormalAll(es)
  {
    NormalAllAt(es, 0);
    OneChunkIsAtMostOneEvent(chunk);
  }

  lemma CleanCarriageReturns(es: seq<EventValue>)
    requires AllClean(es)
    ensures EventsOf(Chunks("", FeedLines(PrintAll(es, "\r")))) == NormalAll(es) <==> |es| <= 1
  {
    CarriageReturnsAreOneChunk(es);
    if |es| == 1 {
      assert es == [es[0]];
      OneEventOfCarriageReturns(es[0]);
    } else if |es| > 1 {
      SeveralAreNotReadBack(es, PrintAll(es, "\r"));
    }
  }

  /**
   A stream that is read line by line is not cut at a CR: when lines end in CR, events come back
   exactly when they are clean and there is at most one, since several arrive as one chunk.
   */
  lemma RoundTripOfCarriageReturns(es: seq<EventValue>)
    ensures EventsOf(Chunks("", FeedLines(PrintAll(es, "\r")))) == NormalAll(es) <==> AllClean(es) && |es| <= 1
  {
    if AllClean(es) {
      CleanCarriageReturns(es);
    } else if EventsOf(Chunks("", FeedLines(PrintAll(es, "\r")))) == NormalAll(es) {
      ReadBackMeansClean(es, Chunks("", FeedLines(PrintAll(es, "\r"))));
    }
  }
}
