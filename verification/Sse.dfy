/** The line decoder for server-sent events: `SSEDecoder` in stream.py. */
module Sse {
  import opened Prelude

  datatype ServerSentEvent =
    ServerSentEvent(event: Option<string>, data: string, id: Option<string>, retry: Option<int>)

  /** The four fields a decoder carries from line to line. */
  datatype State =
    State(event: Option<string>, data: seq<string>, lastEventId: Option<string>, retry: Option<int>)

  const INIT := State(None, [], None, None)

  /** Python truth of an optional string: `None` and `""` are both false. */
  predicate Truthy(s: Option<string>) {
    s.Some? && s.value != ""
  }

  function OrNone(s: Option<string>): Option<string> {
    if Truthy(s) then s else None
  }

  // ---------- Fields of one line ----------

  function FieldName(line: string): string {
    line[..Find(line, ':')]
  }

  function DropSpace(value: string): string {
    if value != "" && value[0] == ' ' then value[1..] else value
  }

  /** The text after the first colon, less one leading space. */
  function FieldValue(line: string): string {
    var k := Find(line, ':');
    DropSpace(if k < |line| then line[k + 1..] else "")
  }

  predicate IsField(line: string, name: string) {
    line != "" && line[0] != ':' && FieldName(line) == name
  }

  /** Removal of every trailing newline, as `rstrip("\n")`. */
  function StripNewlines(s: string): string {
    if s != "" && s[|s| - 1] == '\n' then StripNewlines(s[..|s| - 1]) else s
  }

  // ---------- The decoder as a transition function ----------

  /** One `decode` call. `toInt` stands for Python's `int`, with `None` for its errors. */
  function Step(toInt: string -> Option<int>, s: State, line: string): (State, Option<ServerSentEvent>) {
    if line == "" then
      if !Truthy(s.event) && s.data == [] && !Truthy(s.lastEventId) && s.retry.None? then (s, None)
      else (State(None, [], s.lastEventId, None),
            Some(ServerSentEvent(OrNone(s.event), Join("\n", s.data), s.lastEventId, s.retry)))
    else if line[0] == ':' then (s, None)
    else
      var value := FieldValue(line);
      match FieldName(line)
      case "event" => (s.(event := Some(value)), None)
      case "data" => (s.(data := s.data + [value]), None)
      case "id" => (if '\0' in value then s else s.(lastEventId := Some(value)), None)
      case "retry" => (if toInt(value).None? then s else s.(retry := toInt(value)), None)
      case _ => (s, None)
  }

  function Next(toInt: string -> Option<int>, r: (State, seq<ServerSentEvent>), line: string)
    : (State, seq<ServerSentEvent>)
  {
    var (s, event) := Step(toInt, r.0, line);
    (s, if event.Some? then r.1 + [event.value] else r.1)
  }

  lemma ColonAfter(name: string, value: string)
    requires ':' !in name
    ensures var line := name + ":" + value;
            Find(line, ':') == |name| && line[..|name|] == name && line[|name| + 1..] == value
  {
    var line := name + ":" + value;
    assert line[|name|] == ':' && forall i :: 0 <= i < |name| ==> line[i] == name[i];
    assert line[..|name|] == name && line[|name| + 1..] == value;
  }

  /** A name ends at the first colon, and of what follows only one space, if it comes first, is dropped. */
  lemma FieldExactly(name: string, value: string)
    requires ':' !in name
    ensures FieldName(name + ":" + value) == FieldName(name) == name && FieldValue(name) == ""
    ensures FieldValue(name + ": " + value) == value
    ensures value == "" || value[0] != ' ' ==> FieldValue(name + ":" + value) == value
  {
    ColonAfter(name, value);
    ColonAfter(name, " " + value);
    assert name + ": " + value == name + ":" + (" " + value);
    assert Find(name, ':') == |name| && name[..|name|] == name;
  }

  /** Exactly the newlines at the end are removed. */
  lemma {:induction false} StripNewlinesExactly(s: string)
    ensures var t := StripNewlines(s);
            t <= s && (forall i :: |t| <= i < |s| ==> s[i] == '\n') && (t == "" || t[|t| - 1] != '\n')
  {
    if s == "" || s[|s| - 1] != '\n' {
    } else {
      StripNewlinesExactly(s[..|s| - 1]);
    }
  }

  /** What a line does to the four fields: a blank one, a comment, and a field of each name. */
  lemma StepExactly(toInt: string -> Option<int>, s: State, line: string)
    ensures var idle := && (s.event == None || s.event.value == "") && s.data == [] && s.retry == None
                        && (s.lastEventId == None || s.lastEventId.value == "");
            && (line == "" && idle ==> Step(toInt, s, line) == (s, None))
            && (line == "" && !idle ==>
                  var event := if s.event.Some? && s.event.value == "" then None else s.event;
                  && Step(toInt, s, line).0 == State(None, [], s.lastEventId, None)
                  && Step(toInt, s, line).1 == Some(ServerSentEvent(event, Join("\n", s.data), s.lastEventId, s.retry)))
    ensures line != "" && line[0] == ':' ==> Step(toInt, s, line) == (s, None)
    ensures line != "" && line[0] != ':' ==>
              var value := FieldValue(line);
              var t := Step(toInt, s, line).0;
              && Step(toInt, s, line).1 == None
              && t.event == (if FieldName(line) == "event" then Some(value) else s.event)
              && t.data == (if FieldName(line) == "data" then s.data + [value] else s.data)
              && t.lastEventId == (if FieldName(line) == "id" && '\0' !in value then Some(value) else s.lastEventId)
              && t.retry == (if FieldName(line) == "retry" && toInt(value).Some? then toInt(value) else s.retry)
  {
  }

  /** Everything a decoder in state `s` does on `lines`: its last state and the events it yields. */
  function Run(toInt: string -> Option<int>, s: State, lines: seq<string>): (State, seq<ServerSentEvent>) {
    if lines == [] then (s, [])
    else Next(toInt, Run(toInt, s, lines[..|lines| - 1]), lines[|lines| - 1])
  }

  /** A fresh decoder starts with all fields empty. */
  function Decode(toInt: string -> Option<int>, lines: seq<string>): (events: seq<ServerSentEvent>)
    ensures events == Run(toInt, State(None, [], None, None), lines).1
  {
    Run(toInt, INIT, lines).1
  }

  function Stripped(lines: seq<string>): (r: seq<string>)
    ensures |r| == |lines| && forall i :: 0 <= i < |r| ==> r[i] == StripNewlines(lines[i])
  {
    seq(|lines|, i requires 0 <= i < |lines| => StripNewlines(lines[i]))
  }

  lemma StrippedSnoc(lines: seq<string>, line: string)
    ensures Stripped(lines + [line]) == Stripped(lines) + [StripNewlines(line)]
  {
  }

  class SSEDecoder {
    var event: Option<string>
    var data: seq<string>
    var lastEventId: Option<string>
    var retry: Option<int>

    function Contents(): (s: State)
      reads this
      ensures s.event == event && s.data == data && s.lastEventId == lastEventId && s.retry == retry
    {
      State(event, data, lastEventId, retry)
    }

    constructor ()
      ensures event == None && data == [] && lastEventId == None && retry == None
    {
      event, data, lastEventId, retry := None, [], None, None;
    }

    method DecodeLine(toInt: string -> Option<int>, line: string) returns (sse: Option<ServerSentEvent>)
      modifies this
      ensures (Contents(), sse) == Step(toInt, old(Contents()), line)
    {
      if line == "" {
        if !Truthy(event) && data == [] && !Truthy(lastEventId) && retry == None {
          return None;
        }
        sse := Some(ServerSentEvent(OrNone(event), Join("\n", data), lastEventId, retry));
        event, data, retry := None, [], None;
        return;
      }
      if line[0] == ':' {
        return None;
      }
      var fieldname, value := FieldName(line), FieldValue(line);
      if fieldname == "event" {
        event := Some(value);
      } else if fieldname == "data" {
        data := data + [value];
      } else if fieldname == "id" {
        if '\0' !in value {
          lastEventId := Some(value);
        }
      } else if fieldname == "retry" {
        var n := toInt(value);
        if n.Some? {
          retry := n;
        }
      }
      return None;
    }

    /** `iter`: the events yielded over a whole iterator of lines. */
    method Iter(toInt: string -> Option<int>, lines: seq<string>) returns (events: seq<ServerSentEvent>)
      modifies this
      ensures (Contents(), events) == Run(toInt, old(Contents()), Stripped(lines))
    {
      events := [];
      for i := 0 to |lines|
        invariant (Contents(), events) == Run(toInt, old(Contents()), Stripped(lines[..i]))
      {
        var sse := DecodeLine(toInt, StripNewlines(lines[i]));
        if sse.Some? {
          events := events + [sse.value];
        }
        StrippedSnoc(lines[..i], lines[i]);
        assert lines[..i + 1] == lines[..i] + [lines[i]];
      }
      assert lines[..|lines|] == lines;
    }
  }

  lemma RunSnoc(toInt: string -> Option<int>, s: State, lines: seq<string>, line: string)
    ensures Run(toInt, s, lines + [line]) == Next(toInt, Run(toInt, s, lines), line)
  {
    assert (lines + [line])[..|lines|] == lines;
  }

  /** A run over one line is one step. */
  lemma RunOne(toInt: string -> Option<int>, s: State, line: string)
    ensures Run(toInt, s, []) == (s, [])
    ensures var (t, event) := Step(toInt, s, line);
            Run(toInt, s, [line]) == (t, if event.Some? then [event.value] else [])
  {
    var one, none: seq<string> := [line], [];
    assert one[..|one| - 1] == none && one[|one| - 1] == line && Run(toInt, s, none) == (s, []);
    assert Run(toInt, s, one) == Next(toInt, (s, []), line);
    var event := Step(toInt, s, line).1;
    if event.Some? {
      AppendEmpty([event.value]);
    }
  }

  lemma NextAfter(toInt: string -> Option<int>, s: State, earlier: seq<ServerSentEvent>, events: seq<ServerSentEvent>,
                  line: string)
    ensures var r := Next(toInt, (s, events), line);
            Next(toInt, (s, earlier + events), line) == (r.0, earlier + r.1)
  {
    var event := Step(toInt, s, line).1;
    if event.Some? {
      assert earlier + events + [event.value] == earlier + (events + [event.value]);
    }
  }

  lemma {:induction false} RunAppend(toInt: string -> Option<int>, s: State, a: seq<string>, b: seq<string>)
    ensures var (t, first) := Run(toInt, s, a);
            var (u, second) := Run(toInt, t, b);
            Run(toInt, s, a + b) == (u, first + second)
  {
    if b == [] {
      assert a + b == a && Run(toInt, s, a).1 + [] == Run(toInt, s, a).1;
    } else {
      var init, line := b[..|b| - 1], b[|b| - 1];
      RunAppend(toInt, s, a, init);
      assert (a + b)[..|a + b| - 1] == a + init;
      var (t, first) := Run(toInt, s, a);
      var (u, second) := Run(toInt, t, init);
      NextAfter(toInt, u, first, second, line);
    }
  }

  // ---------- Block specification ----------

  /** The lines since the last blank one. */
  function Block(lines: seq<string>): seq<string> {
    if lines == [] || lines[|lines| - 1] == "" then []
    else Block(lines[..|lines| - 1]) + [lines[|lines| - 1]]
  }

  /** The values of the `name` fields among `lines`, in order. */
  function Values(name: string, lines: seq<string>): seq<string> {
    if lines == [] then []
    else
      var earlier, line := Values(name, lines[..|lines| - 1]), lines[|lines| - 1];
      if IsField(line, name) then earlier + [FieldValue(line)] else earlier
  }

  function WithoutNul(values: seq<string>): seq<string> {
    if values == [] then []
    else
      var earlier, value := WithoutNul(values[..|values| - 1]), values[|values| - 1];
      if '\0' in value then earlier else earlier + [value]
  }

  function Integers(toInt: string -> Option<int>, values: seq<string>): seq<int> {
    if values == [] then []
    else
      var earlier, n := Integers(toInt, values[..|values| - 1]), toInt(values[|values| - 1]);
      if n.Some? then earlier + [n.value] else earlier
  }

  /** What a blank line right after `lines` must produce: only the `id` looks past the block. */
  function EventAfter(toInt: string -> Option<int>, lines: seq<string>): Option<ServerSentEvent> {
    var block := Block(lines);
    var event := OrNone(Last(Values("event", block)));
    var data := Values("data", block);
    var retry := Last(Integers(toInt, Values("retry", block)));
    var id := Last(WithoutNul(Values("id", lines)));
    if event.Some? || data != [] || retry.Some? || Truthy(id)
    then Some(ServerSentEvent(event, Join("\n", data), id, retry))
    else None
  }

  /** The events due at the blank lines of `lines`, in order. */
  function SpecEvents(toInt: string -> Option<int>, lines: seq<string>): seq<ServerSentEvent> {
    if lines == [] then []
    else
      var earlier, event := SpecEvents(toInt, lines[..|lines| - 1]), EventAfter(toInt, lines[..|lines| - 1]);
      if lines[|lines| - 1] == "" && event.Some? then earlier + [event.value] else earlier
  }

  /** The decoder's fields, read off the lines consumed so far. */
  ghost predicate Represents(toInt: string -> Option<int>, s: State, lines: seq<string>) {
    var block := Block(lines);
    && OrNone(s.event) == OrNone(Last(Values("event", block)))
    && s.data == Values("data", block)
    && s.lastEventId == Last(WithoutNul(Values("id", lines)))
    && s.retry == Last(Integers(toInt, Values("retry", block)))
  }

  lemma StepRepresents(toInt: string -> Option<int>, s: State, lines: seq<string>, line: string)
    requires Represents(toInt, s, lines)
    ensures Represents(toInt, Step(toInt, s, line).0, lines + [line])
    ensures Step(toInt, s, line).1 == if line == "" then EventAfter(toInt, lines) else None
  {
    var all := lines + [line];
    assert all[..|all| - 1] == lines;
    var block := Block(lines);
    var retries, ids, v := Values("retry", block), Values("id", lines), FieldValue(line);
    assert (ids + [v])[..|ids|] == ids;
    if line != "" {
      assert Block(all) == block + [line];
      assert (block + [line])[..|block|] == block;
      assert (retries + [v])[..|retries|] == retries;
    }
  }

  /** A fresh decoder yields exactly the events of the block specification. */
  lemma {:induction false} DecodeMeetsBlockSpec(toInt: string -> Option<int>, lines: seq<string>)
    ensures Decode(toInt, lines) == SpecEvents(toInt, lines)
    ensures Represents(toInt, Run(toInt, INIT, lines).0, lines)
  {
    if lines == [] {
    } else {
      var before, line := lines[..|lines| - 1], lines[|lines| - 1];
      assert lines == before + [line];
      DecodeMeetsBlockSpec(toInt, before);
      StepRepresents(toInt, Run(toInt, INIT, before).0, before, line);
      assert Run(toInt, INIT, lines) == Next(toInt, Run(toInt, INIT, before), line);
    }
  }

  /** `Block` is the longest suffix without a blank line. */
  lemma {:induction false} BlockIsLongestSuffix(lines: seq<string>)
    ensures var k := |lines| - |Block(lines)|;
            0 <= k && Block(lines) == lines[k..] && "" !in lines[k..] && (k == 0 || lines[k - 1] == "")
  {
    if lines == [] || lines[|lines| - 1] == "" {
    } else {
      var before := lines[..|lines| - 1];
      BlockIsLongestSuffix(before);
      var k := |lines| - |Block(lines)|;
      assert lines[k..] == before[k..] + [lines[|lines| - 1]];
    }
  }

  // ---------- Lines that change nothing ----------

  predicate Inert(toInt: string -> Option<int>, line: string) {
    line != "" &&
    (line[0] == ':'
     || FieldName(line) !in {"event", "data", "id", "retry"}
     || (FieldName(line) == "id" && '\0' in FieldValue(line))
     || (FieldName(line) == "retry" && toInt(FieldValue(line)).None?))
  }

  /** Exactly the inert lines are without effect in every state. */
  lemma InertLines(toInt: string -> Option<int>, line: string)
    ensures Inert(toInt, line) <==> forall s :: Step(toInt, s, line) == (s, None)
  {
    if !Inert(toInt, line) {
      var s := State(Some(FieldValue(line) + "x"), [""], Some(FieldValue(line) + "x"), Some(0));
      var t := s.(retry := Some(1));
      assert Step(toInt, s, line) != (s, None) || Step(toInt, t, line) != (t, None);
    }
  }

  /** An inert line may be put in anywhere. */
  lemma InsertInert(toInt: string -> Option<int>, s: State, a: seq<string>, line: string, b: seq<string>)
    requires Inert(toInt, line)
    ensures Run(toInt, s, a + [line] + b) == Run(toInt, s, a + b)
  {
    RunAppend(toInt, s, a + [line], b);
    RunAppend(toInt, s, a, b);
    assert (a + [line])[..|a|] == a;
  }

  /** Once a non-empty id is held every further blank line dispatches, with no data at all. */
  lemma {:induction false} HeldIdDispatches(toInt: string -> Option<int>, id: string, n: nat)
    requires id != ""
    ensures var blanks := seq(n, _ => "");
            var s := State(None, [], Some(id), None);
            var (t, events) := Run(toInt, s, blanks);
            t == s && |events| == n && forall e <- events :: e == ServerSentEvent(None, "", Some(id), None)
  {
    if n == 0 {
    } else {
      HeldIdDispatches(toInt, id, n - 1);
      var blanks := seq(n, _ => "");
      var s := State(None, [], Some(id), None);
      assert blanks == seq(n - 1, _ => "") + [""];
      RunSnoc(toInt, s, seq(n - 1, _ => ""), "");
    }
  }
}
