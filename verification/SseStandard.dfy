/** The decoder compared with section 9.2.6 of the WHATWG HTML Living Standard, "Interpreting an event stream". */
module SseStandard {
  import opened Prelude
  import opened Sse

  /** The event a browser would fire */
  datatype Message = Message(kind: string, data: string, lastEventId: string)

  /** The three buffers of the standard; its reconnection time plays no part in any event. */
  datatype Buffers = Buffers(data: string, eventType: string, lastEventId: string)

  const EMPTY := Buffers("", "", "")

  /** The rules for one line: a blank one fires an event exactly when the data buffer is not empty. */
  function Interpret(b: Buffers, line: string): (Buffers, Option<Message>) {
    if line == "" then
      (Buffers("", "", b.lastEventId),
       if b.data == "" then None
       else
         var last := |b.data| - 1;
         Some(Message(if b.eventType == "" then "message" else b.eventType,
                      if b.data[last] == '\n' then b.data[..last] else b.data,
                      b.lastEventId)))
    else if line[0] == ':' then (b, None)
    else
      var value := FieldValue(line);
      match FieldName(line)
      case "event" => (b.(eventType := value), None)
      case "data" => (b.(data := b.data + value + "\n"), None)
      case "id" => (if '\0' in value then b else b.(lastEventId := value), None)
      case _ => (b, None)
  }

  /** The rules spelled out: what a blank line fires, and what the fields put into the buffers. */
  lemma InterpretExactly(b: Buffers, line: string)
    ensures line == "" ==> Interpret(b, line).0 == Buffers("", "", b.lastEventId)
    ensures line == "" && b.data == "" ==> Interpret(b, line).1 == None
    ensures line == "" && b.data != "" ==>
              var message := Interpret(b, line).1;
              && message.Some? && message.value.lastEventId == b.lastEventId
              && (b.eventType == "" ==> message.value.kind == "message")
              && (b.eventType != "" ==> message.value.kind == b.eventType)
              && (message.value.data == b.data || message.value.data + "\n" == b.data)
              && (message.value.data == b.data ==> b.data[|b.data| - 1] != '\n')
    ensures line != "" && line[0] == ':' ==> Interpret(b, line) == (b, None)
    ensures line != "" && line[0] != ':' ==>
              var name, value, t := FieldName(line), FieldValue(line), Interpret(b, line).0;
              && Interpret(b, line).1 == None
              && t.data == (if name == "data" then b.data + value + "\n" else b.data)
              && t.eventType == (if name == "event" then value else b.eventType)
              && t.lastEventId == (if name == "id" && '\0' !in value then value else b.lastEventId)
  {
    if b.data != "" {
      InitLast(b.data);
    }
  }

  /** The buffers after `lines`, and the events fired. */
  function InterpretAll(lines: seq<string>): (Buffers, seq<Message>) {
    if lines == [] then (EMPTY, [])
    else
      var (b, earlier) := InterpretAll(lines[..|lines| - 1]);
      var (next, message) := Interpret(b, lines[|lines| - 1]);
      (next, if message.Some? then earlier + [message.value] else earlier)
  }

  /** An event of the decoder, and whether there was a data line in its block */
  datatype Dispatched = Dispatched(event: ServerSentEvent, hasData: bool)

  /** The decoder's events in order */
  function DispatchedBy(toInt: string -> Option<int>, lines: seq<string>): seq<Dispatched> {
    if lines == [] then []
    else
      var before, line := lines[..|lines| - 1], lines[|lines| - 1];
      var event := Step(toInt, Run(toInt, INIT, before).0, line).1;
      if event.None? then DispatchedBy(toInt, before)
      else DispatchedBy(toInt, before) + [Dispatched(event.value, Values("data", Block(before)) != [])]
  }

  function OrEmpty(s: Option<string>): string {
    if s.Some? then s.value else ""
  }

  function MessageOf(e: ServerSentEvent): Message {
    Message(if e.event.Some? then e.event.value else "message", e.data, OrEmpty(e.id))
  }

  /** The messages for the events that have data */
  function Messages(dispatched: seq<Dispatched>): seq<Message> {
    if dispatched == [] then []
    else
      var earlier, last := Messages(dispatched[..|dispatched| - 1]), dispatched[|dispatched| - 1];
      if last.hasData then earlier + [MessageOf(last.event)] else earlier
  }

  lemma MessagesSnoc(dispatched: seq<Dispatched>, last: Dispatched)
    ensures Messages(dispatched + [last]) ==
            if last.hasData then Messages(dispatched) + [MessageOf(last.event)] else Messages(dispatched)
  {
    assert (dispatched + [last])[..|dispatched|] == dispatched;
  }

  /** The data buffer holds every value with a newline behind it. */
  function Terminated(values: seq<string>): string {
    if values == [] then "" else Join("\n", values) + "\n"
  }

  lemma TerminatedSnoc(values: seq<string>, value: string)
    ensures Terminated(values + [value]) == Terminated(values) + value + "\n"
  {
    if values == [] {
      AppendEmpty(value);
    } else {
      JoinSnoc("\n", values, value);
    }
  }

  /** The decoder's fields and the standard's buffers stand for the same block. */
  predicate Matches(s: State, b: Buffers) {
    b.data == Terminated(s.data) && b.eventType == OrEmpty(s.event) && b.lastEventId == OrEmpty(s.lastEventId)
  }

  lemma StepMatches(toInt: string -> Option<int>, s: State, b: Buffers, line: string)
    requires Matches(s, b)
    ensures Matches(Step(toInt, s, line).0, Interpret(b, line).0)
    ensures var event, message := Step(toInt, s, line).1, Interpret(b, line).1;
            && (message.Some? <==> event.Some? && s.data != [])
            && (message.Some? ==> message.value == MessageOf(event.value))
            && (event.Some? && s.data == [] ==> event.value.data == "")
  {
    if line == "" {
      if s.data != [] {
        InitSnoc(Join("\n", s.data), '\n');
      }
    } else if line[0] != ':' && FieldName(line) == "data" {
      TerminatedSnoc(s.data, FieldValue(line));
    }
  }

  /**
   * The standard fires exactly the decoder's events that have data, in order, under its default type; what else the
   * decoder yields is without data.
   */
  lemma {:induction false} StandardExactly(toInt: string -> Option<int>, lines: seq<string>)
    ensures InterpretAll(lines).1 == Messages(DispatchedBy(toInt, lines))
    ensures var dispatched, events := DispatchedBy(toInt, lines), Decode(toInt, lines);
            && |dispatched| == |events|
            && (forall i :: 0 <= i < |events| ==> dispatched[i].event == events[i])
            && forall d <- dispatched :: !d.hasData ==> d.event.data == ""
    ensures Matches(Run(toInt, INIT, lines).0, InterpretAll(lines).0)
  {
    if lines == [] {
    } else {
      var before, line := lines[..|lines| - 1], lines[|lines| - 1];
      StandardExactly(toInt, before);
      DecodeMeetsBlockSpec(toInt, before);
      var s := Run(toInt, INIT, before).0;
      StepMatches(toInt, s, InterpretAll(before).0, line);
      var event := Step(toInt, s, line).1;
      if event.Some? {
        MessagesSnoc(DispatchedBy(toInt, before), Dispatched(event.value, Values("data", Block(before)) != []));
      }
    }
  }

  lemma {:induction false} MessagesCount(dispatched: seq<Dispatched>)
    ensures |Messages(dispatched)| <= |dispatched|
    ensures |Messages(dispatched)| == |dispatched| <==> forall d <- dispatched :: d.hasData
  {
    if dispatched == [] {
    } else {
      MessagesCount(Init(dispatched));
      InitLast(dispatched);
    }
  }

  /** So the decoder yields as many events as the standard fires exactly when every one of them has data. */
  lemma SameCountExactly(toInt: string -> Option<int>, lines: seq<string>)
    ensures |Decode(toInt, lines)| == |InterpretAll(lines).1| <==> forall d <- DispatchedBy(toInt, lines) :: d.hasData
  {
    StandardExactly(toInt, lines);
    MessagesCount(DispatchedBy(toInt, lines));
  }
}
