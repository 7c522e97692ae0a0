/** A printer for server-sent events, and the proof that `Sse` decodes what it prints. */
module SseRoundTrip {
  import opened Prelude
  import opened Sse

  function FieldLine(name: string, value: string): string {
    name + ": " + value
  }

  function OptionalLine(name: string, value: Option<string>): seq<string> {
    if value.Some? then [FieldLine(name, value.value)] else []
  }

  function DataLines(pieces: seq<string>): (lines: seq<string>)
    ensures |lines| == |pieces|
  {
    seq(|pieces|, i requires 0 <= i < |pieces| => FieldLine("data", pieces[i]))
  }

  function RetryText(show: int -> string, retry: Option<int>): Option<string> {
    if retry.Some? then Some(show(retry.value)) else None
  }

  /** One field per line, the data split at its newlines. */
  function PrintFields(show: int -> string, e: ServerSentEvent): seq<string> {
    OptionalLine("event", e.event) + DataLines(Split(e.data, '\n')) + OptionalLine("id", e.id)
    + OptionalLine("retry", RetryText(show, e.retry))
  }

  /** A blank line ends the event. */
  function PrintEvent(show: int -> string, e: ServerSentEvent): seq<string> {
    PrintFields(show, e) + [""]
  }

  function PrintEvents(show: int -> string, events: seq<ServerSentEvent>): seq<string> {
    if events == [] then [] else PrintEvent(show, events[0]) + PrintEvents(show, events[1..])
  }

  /** The lines as an iterator over a text delivers them. */
  function Terminated(lines: seq<string>): (r: seq<string>)
    ensures |r| == |lines|
  {
    seq(|lines|, i requires 0 <= i < |lines| => lines[i] + "\n")
  }

  predicate Shows(toInt: string -> Option<int>, show: int -> string, n: int) {
    '\n' !in show(n) && toInt(show(n)) == Some(n)
  }

  predicate PrintableEvent(toInt: string -> Option<int>, show: int -> string, e: ServerSentEvent) {
    && (e.event.Some? ==> e.event.value != "" && '\n' !in e.event.value)
    && (e.id.Some? ==> '\n' !in e.id.value && '\0' !in e.id.value)
    && (e.retry.Some? ==> Shows(toInt, show, e.retry.value))
  }

  /** No newline where the format has no room for one, and an id that is never dropped again. */
  predicate Printable(toInt: string -> Option<int>, show: int -> string, events: seq<ServerSentEvent>) {
    && (forall e <- events :: PrintableEvent(toInt, show, e))
    && forall i, j :: 0 <= i < j < |events| && events[i].id.Some? ==> events[j].id.Some?
  }

  // ---------- Decoding what was printed ----------

  lemma FieldLineParses(name: string, value: string)
    requires name != "" && ':' !in name
    ensures var line := FieldLine(name, value);
            IsField(line, name) && FieldValue(line) == value
  {
    var line := FieldLine(name, value);
    var k := Find(line, ':');
    assert line[|name|] == ':';
    assert forall i :: 0 <= i < |name| ==> line[i] == name[i];
    assert k == |name|;
    assert line[..k] == name;
    assert line[k + 1..] == " " + value;
  }

  lemma StepField(toInt: string -> Option<int>, s: State, name: string, value: string)
    requires name in {"event", "data", "id", "retry"}
    ensures var line := FieldLine(name, value);
            Step(toInt, s, line) == (
              if name == "event" then s.(event := Some(value))
              else if name == "data" then s.(data := s.data + [value])
              else if name == "id" then (if '\0' in value then s else s.(lastEventId := Some(value)))
              else if toInt(value).None? then s else s.(retry := toInt(value)), None)
  {
    FieldLineParses(name, value);
  }

  lemma RunOptionalLine(toInt: string -> Option<int>, s: State, name: string, value: Option<string>)
    requires name in {"event", "id", "retry"}
    requires value.Some? && name == "id" ==> '\0' !in value.value
    requires value.Some? && name == "retry" ==> toInt(value.value).Some?
    ensures Run(toInt, s, OptionalLine(name, value)) ==
            (if value.None? then s
             else if name == "event" then s.(event := value)
             else if name == "id" then s.(lastEventId := value)
             else s.(retry := toInt(value.value)), [])
  {
    if value.Some? {
      StepField(toInt, s, name, value.value);
      var line := FieldLine(name, value.value);
      assert [line][..0] == [];
    }
  }

  lemma {:induction false} RunDataLines(toInt: string -> Option<int>, s: State, pieces: seq<string>)
    ensures Run(toInt, s, DataLines(pieces)) == (s.(data := s.data + pieces), [])
  {
    if pieces == [] {
      assert s.data + pieces == s.data;
    } else {
      var init, last := pieces[..|pieces| - 1], pieces[|pieces| - 1];
      RunDataLines(toInt, s, init);
      assert DataLines(pieces) == DataLines(init) + [FieldLine("data", last)];
      RunSnoc(toInt, s, DataLines(init), FieldLine("data", last));
      StepField(toInt, s.(data := s.data + init), "data", last);
      assert s.data + init + [last] == s.data + pieces;
    }
  }

  lemma RunSilently(toInt: string -> Option<int>, s: State, a: seq<string>, t: State, b: seq<string>, u: State)
    requires Run(toInt, s, a) == (t, []) && Run(toInt, t, b) == (u, [])
    ensures Run(toInt, s, a + b) == (u, [])
  {
    RunAppend(toInt, s, a, b);
  }

  lemma RunPrintFields(toInt: string -> Option<int>, show: int -> string, id: Option<string>, e: ServerSentEvent)
    requires PrintableEvent(toInt, show, e)
    requires id.Some? ==> e.id.Some?
    ensures Run(toInt, State(None, [], id, None), PrintFields(show, e))
         == (State(e.event, Split(e.data, '\n'), e.id, e.retry), [])
  {
    var pieces := Split(e.data, '\n');
    var a, b := OptionalLine("event", e.event), DataLines(pieces);
    var c, d := OptionalLine("id", e.id), OptionalLine("retry", RetryText(show, e.retry));
    var s, t := State(None, [], id, None), State(e.event, [], id, None);
    var u, v := State(e.event, pieces, id, None), State(e.event, pieces, e.id, None);
    RunOptionalLine(toInt, s, "event", e.event);
    RunDataLines(toInt, t, pieces);
    assert t.data + pieces == pieces;
    RunOptionalLine(toInt, u, "id", e.id);
    RunOptionalLine(toInt, v, "retry", RetryText(show, e.retry));
    RunSilently(toInt, s, a, t, b, u);
    RunSilently(toInt, s, a + b, u, c, v);
    RunSilently(toInt, s, a + b + c, v, d, State(e.event, pieces, e.id, e.retry));
  }

  lemma BlankLineDispatches(toInt: string -> Option<int>, e: ServerSentEvent, pieces: seq<string>)
    requires pieces != [] && Join("\n", pieces) == e.data && OrNone(e.event) == e.event
    ensures Next(toInt, (State(e.event, pieces, e.id, e.retry), []), "") == (State(None, [], e.id, None), [e])
  {
    assert Step(toInt, State(e.event, pieces, e.id, e.retry), "").1 == Some(e);
    assert [] + [e] == [e];
  }

  lemma RunPrintEvent(toInt: string -> Option<int>, show: int -> string, id: Option<string>, e: ServerSentEvent)
    requires PrintableEvent(toInt, show, e)
    requires id.Some? ==> e.id.Some?
    ensures Run(toInt, State(None, [], id, None), PrintEvent(show, e)) == (State(None, [], e.id, None), [e])
  {
    RunPrintFields(toInt, show, id, e);
    var s, fields := State(None, [], id, None), PrintFields(show, e);
    JoinSplit(e.data, '\n');
    BlankLineDispatches(toInt, e, Split(e.data, '\n'));
    calc {
      Run(toInt, s, PrintEvent(show, e));
      Run(toInt, s, fields + [""]);
      { RunSnoc(toInt, s, fields, ""); }
      Next(toInt, Run(toInt, s, fields), "");
      (State(None, [], e.id, None), [e]);
    }
  }

  lemma {:induction false} RunPrintEvents(toInt: string -> Option<int>, show: int -> string, id: Option<string>,
                                          events: seq<ServerSentEvent>)
    requires Printable(toInt, show, events)
    requires id.Some? && events != [] ==> events[0].id.Some?
    ensures Run(toInt, State(None, [], id, None), PrintEvents(show, events)).1 == events
    decreases |events|
  {
    if events == [] {
    } else {
      var first, rest := PrintEvent(show, events[0]), PrintEvents(show, events[1..]);
      assert PrintEvents(show, events) == first + rest;
      RunPrintEvent(toInt, show, id, events[0]);
      RunPrintEvents(toInt, show, events[0].id, events[1..]);
      RunAppend(toInt, State(None, [], id, None), first, rest);
      assert events == [events[0]] + events[1..];
    }
  }

  lemma {:induction false} PrintedLinesHaveNoNewline(toInt: string -> Option<int>, show: int -> string,
                                                     events: seq<ServerSentEvent>)
    requires Printable(toInt, show, events)
    ensures forall line <- PrintEvents(show, events) :: '\n' !in line
    decreases |events|
  {
    if events == [] {
    } else {
      var e := events[0];
      assert PrintableEvent(toInt, show, e);
      forall line <- PrintEvent(show, e)
        ensures '\n' !in line
      {
        assert '\n' !in "event: " && '\n' !in "data: " && '\n' !in "id: " && '\n' !in "retry: ";
      }
      PrintedLinesHaveNoNewline(toInt, show, events[1..]);
    }
  }

  lemma StripTerminated(line: string)
    requires '\n' !in line
    ensures StripNewlines(line + "\n") == line
  {
    assert (line + "\n")[..|line|] == line;
    assert line == "" || line[|line| - 1] in line;
    assert StripNewlines(line) == line;
  }

  /** Printing and decoding with a fresh decoder gives the events back. */
  lemma RoundTrip(toInt: string -> Option<int>, show: int -> string, events: seq<ServerSentEvent>)
    requires Printable(toInt, show, events)
    ensures Decode(toInt, Stripped(Terminated(PrintEvents(show, events)))) == events
  {
    var lines := PrintEvents(show, events);
    PrintedLinesHaveNoNewline(toInt, show, events);
    forall i | 0 <= i < |lines|
      ensures Stripped(Terminated(lines))[i] == lines[i]
    {
      var line := lines[i];
      assert line in lines;
      StripTerminated(line);
    }
    assert Stripped(Terminated(lines)) == lines;
    RunPrintEvents(toInt, show, None, events);
  }

  // ---------- Printing what was decoded ----------

  predicate NewlineFree(s: State) {
    && (s.event.Some? ==> '\n' !in s.event.value)
    && (s.lastEventId.Some? ==> '\n' !in s.lastEventId.value && '\0' !in s.lastEventId.value)
  }

  lemma StepNewlineFree(toInt: string -> Option<int>, s: State, line: string)
    requires NewlineFree(s) && '\n' !in line
    ensures var (t, event) := Step(toInt, s, line);
            && NewlineFree(t)
            && (s.lastEventId.Some? ==> t.lastEventId.Some?)
            && (event.Some? ==> event.value.id == t.lastEventId == s.lastEventId && event.value.event == OrNone(s.event))
  {
  }

  lemma {:induction false} DecodedIsPrintable(toInt: string -> Option<int>, show: int -> string, lines: seq<string>)
    requires forall line <- lines :: '\n' !in line
    requires forall e <- Decode(toInt, lines) :: e.retry.Some? ==> Shows(toInt, show, e.retry.value)
    ensures NewlineFree(Run(toInt, INIT, lines).0)
    ensures Printable(toInt, show, Decode(toInt, lines))
    ensures forall e <- Decode(toInt, lines) :: e.id.Some? ==> Run(toInt, INIT, lines).0.lastEventId.Some?
  {
    if lines == [] {
    } else {
      var before, line := lines[..|lines| - 1], lines[|lines| - 1];
      assert line in lines;
      DecodedIsPrintable(toInt, show, before);
      StepNewlineFree(toInt, Run(toInt, INIT, before).0, line);
    }
  }

  /** Decoding, printing and decoding again changes nothing. */
  lemma DecodeIsCanonical(toInt: string -> Option<int>, show: int -> string, lines: seq<string>)
    requires forall line <- lines :: '\n' !in line
    requires forall e <- Decode(toInt, lines) :: e.retry.Some? ==> Shows(toInt, show, e.retry.value)
    ensures var events := Decode(toInt, lines);
            Decode(toInt, Stripped(Terminated(PrintEvents(show, events)))) == events
  {
    DecodedIsPrintable(toInt, show, lines);
    RoundTrip(toInt, show, Decode(toInt, lines));
  }
}
