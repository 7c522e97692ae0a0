/** Translation of tool-call ids in a conversation sent to Mistral: mistralai/chat_completion.py. */
module MistralIds {
  import opened Prelude

  datatype Call = Call(id: string, name: string, arguments: string)

  datatype UserContent = Words(text: string) | Parts(parts: seq<string>) | NoContent

  datatype Message =
    | System(content: string)
    | User(body: UserContent)
    | Function(id: string, content: string)
    | AssistantText(content: string)
    | AssistantCalls(calls: seq<Call>)

  /** A message as sent; `Nothing` is what becomes of a user message without content. */
  datatype Sent =
    | Plain(role: string, body: UserContent)
    | Tool(content: string, toolCallId: string)
    | ToolCalls(toolCalls: seq<Call>)
    | Nothing

  /** All calls of the conversation, in order */
  function CallsOf(messages: seq<Message>): seq<Call> {
    if messages == [] then []
    else
      var earlier, last := CallsOf(messages[..|messages| - 1]), messages[|messages| - 1];
      if last.AssistantCalls? then earlier + last.calls else earlier
  }

  /** Position of the latest call with this id */
  function Latest(calls: seq<Call>, id: string): (r: Option<nat>)
    ensures r.Some? ==> r.value < |calls| && calls[r.value].id == id
    ensures r.Some? ==> forall j :: r.value < j < |calls| ==> calls[j].id != id
    ensures r.None? ==> forall j :: 0 <= j < |calls| ==> calls[j].id != id
  {
    if calls == [] then None
    else if calls[|calls| - 1].id == id then Some(|calls| - 1)
    else Latest(calls[..|calls| - 1], id)
  }

  /** The calls with the new ids from position `from` of the supply on */
  function Renamed(calls: seq<Call>, newIds: seq<string>, from: nat): (r: seq<Call>)
    requires from + |calls| <= |newIds|
    ensures |r| == |calls|
    ensures forall t :: 0 <= t < |r| ==> r[t] == Call(newIds[from + t], calls[t].name, calls[t].arguments)
  {
    seq(|calls|, t requires 0 <= t < |calls| => calls[t].(id := newIds[from + t]))
  }

  // ---------- What is to be sent ----------

  /** A function message answers some earlier call. */
  predicate Answerable(messages: seq<Message>, i: nat)
    requires i < |messages|
  {
    messages[i].Function? ==> Latest(CallsOf(messages[..i]), messages[i].id).Some?
  }

  lemma CallsOfNext(messages: seq<Message>, i: nat)
    requires i < |messages|
    ensures CallsOf([]) == []
    ensures CallsOf(messages[..i + 1])
         == CallsOf(messages[..i]) + if messages[i].AssistantCalls? then messages[i].calls else []
  {
    assert messages[..i + 1][..i] == messages[..i];
  }

  lemma {:induction false} CallsOfPrefix(messages: seq<Message>, i: nat)
    requires i <= |messages|
    ensures CallsOf(messages[..i]) <= CallsOf(messages)
    decreases |messages|
  {
    if i == |messages| {
      assert messages[..i] == messages;
    } else {
      var before := messages[..|messages| - 1];
      assert before[..i] == messages[..i];
      CallsOfPrefix(before, i);
    }
  }

  /** Message `i` as it must be sent: call number j of the conversation has the new id number j. */
  function Expected(messages: seq<Message>, newIds: seq<string>, i: nat): Sent
    requires i < |messages| && Answerable(messages, i) && |CallsOf(messages)| <= |newIds|
  {
    CallsOfNext(messages, i);
    CallsOfPrefix(messages, i);
    CallsOfPrefix(messages, i + 1);
    var before := CallsOf(messages[..i]);
    match messages[i]
    case System(content) => Plain("system", Words(content))
    case User(body) => if body.NoContent? then Nothing else Plain("user", body)
    case Function(id, content) => Tool(content, newIds[Latest(before, id).value])
    case AssistantText(content) => Plain("assistant", Words(content))
    case AssistantCalls(calls) => ToolCalls(Renamed(calls, newIds, |before|))
  }

  /** Message by message: what is sent, and what a function message needs to be sent at all */
  lemma ExpectedExactly(messages: seq<Message>, newIds: seq<string>, i: nat)
    requires i < |messages| && |CallsOf(messages)| <= |newIds|
    ensures var before := CallsOf(messages[..i]);
            && |before| + (if messages[i].AssistantCalls? then |messages[i].calls| else 0) <= |newIds|
            && (Answerable(messages, i) <==>
                  messages[i].Function? ==> exists j :: 0 <= j < |before| && before[j].id == messages[i].id)
            && (Answerable(messages, i) ==>
                  var sent := Expected(messages, newIds, i);
                  match messages[i]
                  case System(content) => sent == Plain("system", Words(content))
                  case User(body) => sent == if body.NoContent? then Nothing else Plain("user", body)
                  case Function(id, content) =>
                    exists j :: && 0 <= j < |before| && before[j].id == id && sent == Tool(content, newIds[j])
                                && forall k :: j < k < |before| ==> before[k].id != id
                  case AssistantText(content) => sent == Plain("assistant", Words(content))
                  case AssistantCalls(calls) => sent == ToolCalls(Renamed(calls, newIds, |before|)))
  {
    CallsOfNext(messages, i);
    CallsOfPrefix(messages, i);
    CallsOfPrefix(messages, i + 1);
    if messages[i].Function? && Answerable(messages, i) {
      var before := CallsOf(messages[..i]);
      var j := Latest(before, messages[i].id).value;
      assert before[j].id == messages[i].id;
    }
  }

  // ---------- Sending ----------

  /** The shared map from the ids of the conversation to those sent, and how many random ids are used up */
  class IdMap {
    var ids: map<string, string>
    var used: nat

    /** The map holds the new id of the latest call with each id. */
    ghost predicate Holds(calls: seq<Call>, newIds: seq<string>)
      reads this
    {
      && used == |calls| <= |newIds|
      && (forall id :: id in ids <==> Latest(calls, id).Some?)
      && forall id <- ids :: ids[id] == newIds[Latest(calls, id).value]
    }

    constructor (newIds: seq<string>)
      ensures Holds([], newIds)
    {
      ids, used := map[], 0;
    }

    method RenameOne(call: Call, newIds: seq<string>, ghost before: seq<Call>) returns (newId: string)
      requires Holds(before, newIds) && |before| < |newIds|
      modifies this
      ensures Holds(before + [call], newIds) && newId == newIds[|before|]
    {
      newId := newIds[used];
      ids, used := ids[call.id := newId], used + 1;
      assert (before + [call])[..|before|] == before;
    }

    /** The assistant branch of `_build_mistral_message` */
    method Rename(calls: seq<Call>, newIds: seq<string>, ghost before: seq<Call>) returns (renamed: seq<Call>)
      requires Holds(before, newIds) && |before| + |calls| <= |newIds|
      modifies this
      ensures Holds(before + calls, newIds) && renamed == Renamed(calls, newIds, |before|)
    {
      renamed := [];
      ghost var seen := before;
      for t := 0 to |calls|
        invariant |renamed| == t && seen == before + calls[..t] && Holds(seen, newIds)
        invariant forall s :: 0 <= s < t ==> renamed[s] == calls[s].(id := newIds[|before| + s])
      {
        var newId := RenameOne(calls[t], newIds, seen);
        renamed := renamed + [calls[t].(id := newId)];
        seen := seen + [calls[t]];
      }
      assert calls[..|calls|] == calls;
    }

    /** `_build_mistral_message`; an error carries the id that was not found. */
    method Build(messages: seq<Message>, i: nat, newIds: seq<string>) returns (r: Result<Sent, string>)
      requires i < |messages| && |CallsOf(messages)| <= |newIds|
      requires Holds(CallsOf(messages[..i]), newIds)
      requires forall id <- newIds :: id != ""
      modifies this
      ensures Holds(CallsOf(messages[..i + 1]), newIds)
      ensures r == if Answerable(messages, i) then Ok(Expected(messages, newIds, i)) else Err(messages[i].id)
    {
      ghost var before := CallsOf(messages[..i]);
      CallsOfNext(messages, i);
      CallsOfPrefix(messages, i + 1);
      assert before + [] == before;
      assert forall j :: 0 <= j < |newIds| ==> newIds[j] in newIds;
      match messages[i]
      case System(content) => return Ok(Plain("system", Words(content)));
      case User(body) => return Ok(if body.NoContent? then Nothing else Plain("user", body));
      case Function(id, content) =>
        if id in ids && ids[id] != "" {
          return Ok(Tool(content, ids[id]));
        } else {
          return Err(id);
        }
      case AssistantText(content) => return Ok(Plain("assistant", Words(content)));
      case AssistantCalls(calls) =>
        var renamed := Rename(calls, newIds, before);
        return Ok(ToolCalls(renamed));
    }
  }

  /**
   * The messages of `_build_mistral_chat_completion_payload`; `newIds` are the random ids. It succeeds exactly
   * when every function message answers an earlier call, and reports the first one that does not.
   */
  method BuildAll(messages: seq<Message>, newIds: seq<string>) returns (r: Result<seq<Sent>, string>)
    requires |CallsOf(messages)| <= |newIds|
    requires forall id <- newIds :: id != ""
    ensures r.Ok? <==> forall i :: 0 <= i < |messages| ==> Answerable(messages, i)
    ensures r.Ok? ==> |r.value| == |messages| &&
                      forall i :: 0 <= i < |messages| ==> r.value[i] == Expected(messages, newIds, i)
    ensures r.Err? ==> exists i :: 0 <= i < |messages| && !Answerable(messages, i) && r.error == messages[i].id &&
                                   forall j :: 0 <= j < i ==> Answerable(messages, j)
  {
    var ids := new IdMap(newIds);
    var sent := [];
    for i := 0 to |messages|
      invariant |sent| == i && fresh(ids) && ids.Holds(CallsOf(messages[..i]), newIds)
      invariant forall j :: 0 <= j < i ==> Answerable(messages, j) && sent[j] == Expected(messages, newIds, j)
    {
      var m := ids.Build(messages, i, newIds);
      if m.Err? {
        return Err(m.error);
      }
      sent := sent + [m.value];
    }
    return Ok(sent);
  }

  // ---------- The reference graph ----------

  /** Where call number `j` of the conversation stands: message `a`, entry `t`. */
  lemma {:induction false} Locate(messages: seq<Message>, j: nat) returns (a: nat, t: nat)
    requires j < |CallsOf(messages)|
    ensures a < |messages| && messages[a].AssistantCalls? && t < |messages[a].calls|
    ensures |CallsOf(messages[..a])| + t == j && messages[a].calls[t] == CallsOf(messages)[j]
    decreases |messages|
  {
    var n := |messages| - 1;
    var before := CallsOf(messages[..n]);
    if j < |before| {
      a, t := Locate(messages[..n], j);
      assert messages[..n][..a] == messages[..a];
    } else {
      a, t := n, j - |before|;
    }
  }

  /** Every reference sent leads to an earlier call sent, and it is the latest one that the original id meant. */
  lemma ReferencesLeadBack(messages: seq<Message>, newIds: seq<string>, i: nat) returns (a: nat, t: nat)
    requires i < |messages| && messages[i].Function? && Answerable(messages, i)
    requires |CallsOf(messages)| <= |newIds|
    ensures a < i && messages[a].AssistantCalls? && t < |messages[a].calls|
    ensures Expected(messages, newIds, a).toolCalls[t].id == Expected(messages, newIds, i).toolCallId
    ensures messages[a].calls[t].id == messages[i].id
    ensures Expected(messages, newIds, a).toolCalls[t].name == messages[a].calls[t].name
  {
    CallsOfPrefix(messages, i);
    CallsOfPrefix(messages, i + 1);
    var j := Latest(CallsOf(messages[..i]), messages[i].id).value;
    a, t := Locate(messages[..i], j);
    assert messages[..i][..a] == messages[..a];
    CallsOfPrefix(messages, a + 1);
    CallsOfNext(messages, a);
  }

  /** With distinct ids on both sides, two function messages refer alike before exactly when they do after. */
  lemma RenamingIsBijective(messages: seq<Message>, newIds: seq<string>, i: nat, k: nat)
    requires i < |messages| && messages[i].Function? && Answerable(messages, i)
    requires k < |messages| && messages[k].Function? && Answerable(messages, k)
    requires |CallsOf(messages)| <= |newIds|
    requires forall a, b :: 0 <= a < b < |newIds| ==> newIds[a] != newIds[b]
    requires var calls := CallsOf(messages); forall a, b :: 0 <= a < b < |calls| ==> calls[a].id != calls[b].id
    ensures Expected(messages, newIds, i).toolCallId == Expected(messages, newIds, k).toolCallId
       <==> messages[i].id == messages[k].id
  {
    CallsOfPrefix(messages, i + 1);
    CallsOfPrefix(messages, k + 1);
    CallsOfPrefix(messages, i);
    CallsOfPrefix(messages, k);
    var calls := CallsOf(messages);
    var p, q := Latest(CallsOf(messages[..i]), messages[i].id).value, Latest(CallsOf(messages[..k]), messages[k].id).value;
    assert calls[p].id == messages[i].id && calls[q].id == messages[k].id;
    assert newIds[p] == newIds[q] <==> p == q;
  }
}
