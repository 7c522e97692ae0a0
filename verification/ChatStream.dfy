/** The chat completion loop of model.py over the OpenAI and Tongyi adapters, streamed and whole. */
module ChatStream {
  import opened Prelude
  import opened ToolCalls

  datatype Provider = OpenAI | Tongyi

  /** The fields the adapters read from a chunk; `""` stands for an absent or null text. */
  datatype ChunkData = ChunkData(content: string, toolCalls: seq<ToolDelta>, finish: string)

  datatype Data = Failure | NoChoices | Choice(chunk: ChunkData)

  datatype FinishReason = Stop | Length | FunctionCalls | ErrorReason | Recitation | Unknown

  datatype ChatChunk = ChatChunk(index: nat, delta: string)

  datatype Message<+J> = TextMessage(content: string) | CallsMessage(calls: seq<FunctionCall<J>>)

  datatype Response<+J> = Response(finish: FinishReason, message: Message<J>)

  // ---------- The adapters ----------

  /** Where `t` first occurs in `s`. */
  function IndexOf(s: string, t: string): (r: Option<nat>)
    ensures r.Some? ==> r.value + |t| <= |s| && s[r.value..r.value + |t|] == t
    ensures t <= s ==> r == Some(0)
    ensures r.Some? ==> forall k :: 0 <= k < r.value ==> !(t <= s[k..])
    ensures r.None? ==> forall k :: 0 <= k <= |s| ==> !(t <= s[k..])
  {
    if t <= s then Some(0)
    else if s == "" then None
    else
      assert s[0..] == s && forall k :: 1 <= k <= |s| ==> s[1..][k - 1..] == s[k..];
      match IndexOf(s[1..], t)
      case None => None
      case Some(i) =>
        assert s[i + 1..i + 1 + |t|] == s[1..][i..i + |t|];
        Some(i + 1)
  }

  /** `s.replace(t, "", 1)` */
  function RemoveFirst(s: string, t: string): string {
    match IndexOf(s, t)
    case None => s
    case Some(i) => s[..i] + s[i + |t|..]
  }

  lemma RemoveAt(s: string, t: string, k: nat)
    requires k <= |s| && t <= s[k..] && forall j :: 0 <= j < k ==> !(t <= s[j..])
    ensures RemoveFirst(s, t) == s[..k] + s[k..][|t|..]
  {
    var i := IndexOf(s, t).value;
    assert s[i..][..|t|] == s[i..i + |t|];
    assert t <= s[i..] && i == k;
    assert s[k..][|t|..] == s[k + |t|..];
  }

  /** The first occurrence is taken out, if there is one. */
  lemma RemoveFirstExactly(s: string, t: string)
    ensures (forall k :: 0 <= k <= |s| ==> !(t <= s[k..])) ==> RemoveFirst(s, t) == s
    ensures forall k :: 0 <= k <= |s| && t <= s[k..] && (forall j :: 0 <= j < k ==> !(t <= s[j..])) ==>
              RemoveFirst(s, t) == s[..k] + s[k..][|t|..]
  {
    if i: nat :| IndexOf(s, t) == Some(i) {
      assert s[i..][..|t|] == t;
    }
    forall k | 0 <= k <= |s| && t <= s[k..] && (forall j :: 0 <= j < k ==> !(t <= s[j..]))
      ensures RemoveFirst(s, t) == s[..k] + s[k..][|t|..]
    {
      RemoveAt(s, t, k);
    }
  }

  /** The text part of `stream_extract_chunk`: Tongyi sends the whole text so far, OpenAI the new part. */
  function Delta(provider: Provider, content: string, text: string): Option<string> {
    if content == "" then None
    else if provider.Tongyi? then Some(RemoveFirst(content, text))
    else Some(content)
  }

  function Named(reason: string): FinishReason {
    match reason
    case "stop" => Stop
    case "length" => Length
    case "function_calls" => FunctionCalls
    case "tool_calls" => FunctionCalls
    case "error" => ErrorReason
    case "recitation" => Recitation
    case _ => Unknown
  }

  lemma NamedExactly(reason: string)
    ensures Named("stop") == Stop && Named("length") == Length
    ensures Named("function_calls") == Named("tool_calls") == FunctionCalls
    ensures Named("error") == ErrorReason && Named("recitation") == Recitation
    ensures reason !in {"stop", "length", "function_calls", "tool_calls", "error", "recitation"} ==> Named(reason) == Unknown
  {
  }

  predicate NoReason(provider: Provider, reason: string) {
    reason == "" || (provider.Tongyi? && reason == "null")
  }

  // ---------- The streaming loop as a transition function ----------

  datatype State = State(index: nat, text: string, calls: Calls, finish: FinishReason, empty: bool,
                         chunks: seq<ChatChunk>, error: Option<Error>)

  const START := State(0, "", NO_CALLS, Unknown, true, [], None)

  function StepText(provider: Provider, s: State, chunk: ChunkData): State {
    match Delta(provider, chunk.content, s.text)
    case None => s
    case Some(delta) =>
      s.(index := s.index + 1, text := s.text + delta, chunks := s.chunks + [ChatChunk(s.index, delta)])
  }

  function StepCalls(s: State, chunk: ChunkData): State {
    if chunk.toolCalls == [] then s
    else
      var (calls, ok) := Accept(s.calls, chunk.toolCalls[0]);
      s.(calls := calls, error := if ok then None else Some(MalformedDelta))
  }

  function StepFinish(provider: Provider, s: State, chunk: ChunkData): State {
    if s.error.Some? || NoReason(provider, chunk.finish) then s
    else if chunk.finish == "content_filter" then s.(error := Some(ContentFilter))
    else s.(finish := Named(chunk.finish))
  }

  function Step(provider: Provider, s: State, data: Data): State {
    if s.error.Some? then s
    else
      match data
      case Failure => s.(error := Some(ProviderError))
      case NoChoices => s
      case Choice(chunk) =>
        StepFinish(provider, StepCalls(StepText(provider, s.(empty := false), chunk), chunk), chunk)
  }

  function Run(provider: Provider, data: seq<Data>): State {
    if data == [] then START
    else Step(provider, Run(provider, data[..|data| - 1]), data[|data| - 1])
  }

  /** One round of the loop: nothing after an error, no data without a choice, and else every part of the chunk. */
  lemma StepExactly(provider: Provider, s: State, data: Data)
    ensures s.error.Some? || data.NoChoices? ==> Step(provider, s, data) == s
    ensures s.error.None? && data.Failure? ==> Step(provider, s, data) == s.(error := Some(ProviderError))
    ensures s.error.None? && data.Choice? ==>
              var chunk, t := data.chunk, Step(provider, s, data);
              var delta := if provider.OpenAI? then chunk.content else RemoveFirst(chunk.content, s.text);
              && !t.empty
              && t.index == s.index + (if chunk.content == "" then 0 else 1)
              && t.text == (if chunk.content == "" then s.text else s.text + delta)
              && t.chunks == (if chunk.content == "" then s.chunks else s.chunks + [ChatChunk(s.index, delta)])
              && t.calls == (if chunk.toolCalls == [] then s.calls else Accept(s.calls, chunk.toolCalls[0]).0)
              && (t.error == Some(MalformedDelta) <==>
                    chunk.toolCalls != [] && !Accept(s.calls, chunk.toolCalls[0]).1)
              && (t.error == Some(ContentFilter) <==>
                    t.error != Some(MalformedDelta) && chunk.finish == "content_filter")
              && t.error in {None, Some(MalformedDelta), Some(ContentFilter)}
              && t.finish ==
                 if t.error.Some? || chunk.finish == "" || (provider.Tongyi? && chunk.finish == "null") then s.finish
                 else Named(chunk.finish)
  {
  }

  lemma RunSnoc(provider: Provider, data: seq<Data>, last: Data)
    ensures Run(provider, []) == State(0, "", Calls(-1, [], []), Unknown, true, [], None)
    ensures Run(provider, data + [last]) == Step(provider, Run(provider, data), last)
  {
    assert (data + [last])[..|data|] == data;
  }

  // ---------- Responses ----------

  function PrepareResponse<J>(loads: string -> Option<J>, newId: nat -> string, finish: FinishReason, text: string,
                              calls: Calls, built: seq<FunctionCall<J>>): Result<Response<J>, Error>
  {
    if built != [] then Ok(Response(FunctionCalls, CallsMessage(built)))
    else if calls.names != [] then
      match BuildAll(loads, newId, Rebuilt(calls))
      case Err(e) => Err(e)
      case Ok(rebuilt) => Ok(Response(FunctionCalls, CallsMessage(rebuilt)))
    else if text == "" then Err(EmptyResponse)
    else Ok(Response(finish, TextMessage(text)))
  }

  /** What the caller of the stream gets last. */
  function Finish<J>(loads: string -> Option<J>, newId: nat -> string, s: State): Result<Response<J>, Error> {
    if s.error.Some? then Err(s.error.value)
    else if s.empty then Err(EmptyStream)
    else PrepareResponse(loads, newId, s.finish, s.text, s.calls, [])
  }

  /** The fields read from the first choice of a whole response */
  datatype WholeMessage = WholeMessage(text: string, calls: seq<WholeCall>, finish: string)

  /** `chat_completion`; `message` is missing when the response has no choices. */
  function Complete<J>(loads: string -> Option<J>, newId: nat -> string, message: Option<WholeMessage>)
    : Result<Response<J>, Error>
  {
    match message
    case None => Err(InvalidResponse)
    case Some(WholeMessage(text, whole, finish)) =>
      match BuildAll(loads, newId, whole)
      case Err(e) => Err(e)
      case Ok(calls) =>
        if finish == "content_filter" then Err(ContentFilter)
        else PrepareResponse(loads, newId, Named(finish), text, NO_CALLS, calls)
  }

  /** The calls of a message, when they are all buildable: each with its own name, arguments and new id */
  ghost predicate AnswersCalls<J>(loads: string -> Option<J>, newId: nat -> string, whole: seq<WholeCall>,
                                  r: Result<Response<J>, Error>)
  {
    && r.Ok? && r.value.finish.FunctionCalls? && r.value.message.CallsMessage?
    && |r.value.message.calls| == |whole|
    && forall i :: 0 <= i < |whole| ==> Built(loads, newId(i), whole[i], r.value.message.calls[i])
  }

  /** `r` is what a caller must get for this message. */
  ghost predicate Answers<J>(loads: string -> Option<J>, newId: nat -> string, message: WholeMessage,
                             r: Result<Response<J>, Error>)
  {
    if exists i :: 0 <= i < |message.calls| && !Buildable(loads, message.calls[i]) then
      r.Err? && exists k: nat :: FirstBad(loads, message.calls, k, r.error)
    else if message.finish == "content_filter" then r == Err(ContentFilter)
    else if message.calls != [] then AnswersCalls(loads, newId, message.calls, r)
    else if message.text == "" then r == Err(EmptyResponse)
    else r == Ok(Response(Named(message.finish), TextMessage(message.text)))
  }

  /** The answer spelled out: the first call that cannot be built, the filter, the calls, no text, the text */
  lemma AnswersExactly<J>(loads: string -> Option<J>, newId: nat -> string, text: string, whole: seq<WholeCall>,
                          finish: string, r: Result<Response<J>, Error>)
    requires Answers(loads, newId, WholeMessage(text, whole, finish), r)
    ensures var buildable := forall i :: 0 <= i < |whole| ==> Buildable(loads, whole[i]);
            && (!buildable ==> r.Err? && exists k: nat :: FirstBad(loads, whole, k, r.error))
            && (buildable && finish == "content_filter" ==> r == Err(ContentFilter))
            && (buildable && finish != "content_filter" && whole != [] ==>
                  exists calls :: r == Ok(Response(FunctionCalls, CallsMessage(calls))) && |calls| == |whole| &&
                                  forall i :: 0 <= i < |whole| ==> Built(loads, newId(i), whole[i], calls[i]))
            && (whole == [] && finish != "content_filter" && text == "" ==> r == Err(EmptyResponse))
            && (whole == [] && finish != "content_filter" && text != "" ==>
                  r == Ok(Response(Named(finish), TextMessage(text))))
  {
  }

  method ChatCompletion<J>(loads: string -> Option<J>, newId: nat -> string, message: Option<WholeMessage>)
    returns (r: Result<Response<J>, Error>)
    ensures r == Complete(loads, newId, message)
    ensures message.None? ==> r == Err(InvalidResponse)
    ensures message.Some? ==> Answers(loads, newId, message.value, r)
  {
    if message.None? {
      return Err(InvalidResponse);
    }
    var WholeMessage(text, whole, finish) := message.value;
    BuildAllExact(loads, newId, whole);
    var built := BuildWhole(loads, newId, whole);
    if built.Err? {
      return Err(built.error);
    }
    if finish == "content_filter" {
      return Err(ContentFilter);
    }
    r := PrepareResponse(loads, newId, Named(finish), text, NO_CALLS, built.value);
  }

  lemma {:induction false} RunStops(provider: Provider, data: seq<Data>, k: nat)
    requires k <= |data| && Run(provider, data[..k]).error.Some?
    ensures Run(provider, data) == Run(provider, data[..k])
    decreases |data|
  {
    if k == |data| {
      assert data[..k] == data;
    } else {
      var n := |data| - 1;
      assert data[..n][..k] == data[..k];
      RunStops(provider, data[..n], k);
    }
  }

  /** The loop itself: the chunks yielded, and the state `prepare_response` is called in. */
  method StreamLoop(provider: Provider, data: seq<Data>) returns (s: State)
    ensures s == Run(provider, data)
  {
    var index, text, finish, empty, chunks := 0, "", Unknown, true, [];
    var content := new ChatCompletionFunctionCallsContent();
    var i := 0;
    while i < |data|
      invariant i <= |data| && fresh(content)
      invariant Run(provider, data[..i]) == State(index, text, content.Contents(), finish, empty, chunks, None)
    {
      assert data[..i + 1][..i] == data[..i];
      var datum := data[i];
      i := i + 1;
      if datum.Failure? {
        RunStops(provider, data, i);
        return State(index, text, content.Contents(), finish, empty, chunks, Some(ProviderError));
      }
      if datum.NoChoices? {
        continue;
      }
      var chunk := datum.chunk;
      empty := false;
      var delta := Delta(provider, chunk.content, text);
      if delta.Some? {
        chunks := chunks + [ChatChunk(index, delta.value)];
        index, text := index + 1, text + delta.value;
      }
      if chunk.toolCalls != [] {
        var ok := content.Handle(chunk.toolCalls[0]);
        if !ok {
          RunStops(provider, data, i);
          return State(index, text, content.Contents(), finish, empty, chunks, Some(MalformedDelta));
        }
      }
      if !NoReason(provider, chunk.finish) {
        if chunk.finish == "content_filter" {
          RunStops(provider, data, i);
          return State(index, text, content.Contents(), finish, empty, chunks, Some(ContentFilter));
        }
        finish := Named(chunk.finish);
      }
    }
    assert data[..|data|] == data;
    return State(index, text, content.Contents(), finish, empty, chunks, None);
  }

  // ---------- What the run accumulates ----------

  function Deltas(data: seq<Data>): seq<ToolDelta> {
    if data == [] then []
    else
      var earlier, last := Deltas(data[..|data| - 1]), data[|data| - 1];
      if last.Choice? && last.chunk.toolCalls != [] then earlier + [last.chunk.toolCalls[0]] else earlier
  }

  /** The non-empty contents, in order. */
  function Contents(data: seq<Data>): seq<string> {
    if data == [] then []
    else
      var earlier, last := Contents(data[..|data| - 1]), data[|data| - 1];
      if last.Choice? && last.chunk.content != "" then earlier + [last.chunk.content] else earlier
  }

  function LastReason(data: seq<Data>): string {
    if data == [] then ""
    else
      var last := data[|data| - 1];
      if last.Choice? && last.chunk.finish != "" then last.chunk.finish else LastReason(data[..|data| - 1])
  }

  function DeltaTexts(chunks: seq<ChatChunk>): (texts: seq<string>)
    ensures |texts| == |chunks| && forall i :: 0 <= i < |texts| ==> texts[i] == chunks[i].delta
  {
    seq(|chunks|, i requires 0 <= i < |chunks| => chunks[i].delta)
  }

  /** The chunks are numbered 0, 1, 2, ... and their deltas make up the text. */
  predicate Consistent(s: State) {
    && |s.chunks| == s.index
    && (forall i :: 0 <= i < |s.chunks| ==> s.chunks[i].index == i)
    && s.text == Flatten(DeltaTexts(s.chunks))
  }

  lemma TextStepConsistent(s: State, delta: string)
    requires Consistent(s)
    ensures Consistent(s.(index := s.index + 1, text := s.text + delta, chunks := s.chunks + [ChatChunk(s.index, delta)]))
  {
    var texts := DeltaTexts(s.chunks + [ChatChunk(s.index, delta)]);
    assert texts == DeltaTexts(s.chunks) + [delta];
    FlattenSnoc(DeltaTexts(s.chunks), delta);
  }

  lemma StepConsistent(provider: Provider, s: State, data: Data)
    requires Consistent(s)
    ensures Consistent(Step(provider, s, data))
  {
    var t := Step(provider, s, data);
    if s.error.None? && data.Choice? {
      var u := StepText(provider, s.(empty := false), data.chunk);
      assert t.index == u.index && t.text == u.text && t.chunks == u.chunks;
      var delta := Delta(provider, data.chunk.content, s.text);
      if delta.Some? {
        TextStepConsistent(s, delta.value);
      }
    }
  }

  /** Text is conserved in every run, broken off or not. */
  lemma {:induction false} TextConserved(provider: Provider, data: seq<Data>)
    ensures Consistent(Run(provider, data))
    ensures var s := Run(provider, data);
            && |s.chunks| == s.index && (forall i :: 0 <= i < |s.chunks| ==> s.chunks[i].index == i)
            && s.text == Flatten(DeltaTexts(s.chunks))
  {
    if data == [] {
    } else {
      TextConserved(provider, data[..|data| - 1]);
      StepConsistent(provider, Run(provider, data[..|data| - 1]), data[|data| - 1]);
    }
  }

  predicate HasChoice(data: seq<Data>) {
    exists i :: 0 <= i < |data| && data[i].Choice?
  }

  lemma StepCallsOnly(provider: Provider, s: State, data: Data)
    requires Step(provider, s, data).error.None?
    ensures var t := Step(provider, s, data);
            && s.error.None?
            && t.empty == (s.empty && !data.Choice?)
            && (if data.Choice? && data.chunk.toolCalls != []
                then Accept(s.calls, data.chunk.toolCalls[0]) == (t.calls, true)
                else t.calls == s.calls)
  {
  }

  lemma HasChoiceLast(data: seq<Data>)
    requires data != []
    ensures HasChoice(data) <==> HasChoice(data[..|data| - 1]) || data[|data| - 1].Choice?
  {
    assert forall i :: 0 <= i < |data| - 1 ==> data[i] == data[..|data| - 1][i];
  }

  lemma {:induction false} CallsOfRun(provider: Provider, data: seq<Data>)
    requires Run(provider, data).error.None?
    ensures AcceptAll(Deltas(data)) == Some(Run(provider, data).calls)
    ensures Run(provider, data).empty <==> !HasChoice(data)
  {
    if data == [] {
    } else {
      var n := |data| - 1;
      var before, last := data[..n], data[n];
      StepCallsOnly(provider, Run(provider, before), last);
      CallsOfRun(provider, before);
      HasChoiceLast(data);
      if last.Choice? && last.chunk.toolCalls != [] {
        AcceptSnoc(Deltas(before), last.chunk.toolCalls[0]);
      }
    }
  }

  /** Neither the provider nor a filter broke the stream off. */
  predicate Clean(data: seq<Data>) {
    forall d <- data :: !d.Failure? && (d.Choice? ==> d.chunk.finish != "content_filter")
  }

  lemma CleanStep(s: State, data: Data)
    requires s.error.None? && Clean([data])
    requires data.Choice? && data.chunk.toolCalls != [] ==> Accept(s.calls, data.chunk.toolCalls[0]).1
    ensures var t := Step(OpenAI, s, data);
            && t.error.None?
            && t.text == (if data.Choice? then s.text + data.chunk.content else s.text)
            && t.finish == if data.Choice? && data.chunk.finish != "" then Named(data.chunk.finish) else s.finish
  {
    assert data in [data];
    assert s.text + "" == s.text;
  }

  lemma FlattenContents(before: seq<Data>, last: Data)
    ensures Flatten(Contents(before + [last])) ==
            if last.Choice? then Flatten(Contents(before)) + last.chunk.content else Flatten(Contents(before))
  {
    assert (before + [last])[..|before|] == before;
    var texts := Contents(before);
    if last.Choice? {
      FlattenSnoc(texts, last.chunk.content);
      AppendEmpty(Flatten(texts));
    }
  }

  lemma CleanLast(data: seq<Data>)
    requires data != [] && Clean(data)
    ensures Clean(data[..|data| - 1]) && Clean([data[|data| - 1]])
  {
    assert data[|data| - 1] in data;
  }

  /** If all the deltas were accepted, those before the last chunk were, and then those of the last chunk. */
  lemma AcceptLast(data: seq<Data>)
    requires data != [] && AcceptAll(Deltas(data)).Some?
    ensures var before, last := AcceptAll(Deltas(data[..|data| - 1])), data[|data| - 1];
            before.Some? &&
            (last.Choice? && last.chunk.toolCalls != [] ==> Accept(before.value, last.chunk.toolCalls[0]).1)
  {
    var last := data[|data| - 1];
    if last.Choice? && last.chunk.toolCalls != [] {
      AcceptSnoc(Deltas(data[..|data| - 1]), last.chunk.toolCalls[0]);
    }
  }

  lemma {:induction false} CleanRun(data: seq<Data>)
    requires Clean(data) && AcceptAll(Deltas(data)).Some?
    ensures var s := Run(OpenAI, data);
            s.error.None? && s.text == Flatten(Contents(data)) && s.finish == Named(LastReason(data))
  {
    if data == [] {
    } else {
      var before, last := data[..|data| - 1], data[|data| - 1];
      CleanLast(data);
      AcceptLast(data);
      CleanRun(before);
      CallsOfRun(OpenAI, before);
      CleanStep(Run(OpenAI, before), last);
      InitLast(data);
      FlattenContents(before, last);
    }
  }

  ghost predicate SameResponse<J>(a: Result<Response<J>, Error>, b: Result<Response<J>, Error>) {
    match (a, b)
    case (Ok(Response(f, CallsMessage(x))), Ok(Response(g, CallsMessage(y)))) => f == g && SameButIds(Ok(x), Ok(y))
    case _ => a == b
  }

  lemma {:induction false} LastReasonClean(data: seq<Data>)
    requires Clean(data)
    ensures LastReason(data) != "content_filter"
  {
    if data == [] {
    } else {
      assert data[|data| - 1] in data;
      LastReasonClean(data[..|data| - 1]);
    }
  }

  /**
   * Streaming refines whole messages: for every cutting of the calls into the entries that are read, every
   * interleaving of text and every division of the text, the final response is that of the whole message, ids aside.
   */
  lemma StreamingRefinesWhole<J>(loads: string -> Option<J>, newId: nat -> string, otherId: nat -> string,
                                 data: seq<Data>, segments: seq<seq<ToolDelta>>, whole: seq<WholeCall>)
    requires Clean(data) && HasChoice(data)
    requires Cuts(segments, whole) && Deltas(data) == Flatten(segments)
    ensures var s := Run(OpenAI, data);
            && s.calls == CallsOf(whole)
            && SameResponse(Finish(loads, newId, s),
                            Complete(loads, otherId,
                                     Some(WholeMessage(Flatten(Contents(data)), whole, LastReason(data)))))
    ensures var a := Finish(loads, newId, Run(OpenAI, data));
            var b := Complete(loads, otherId, Some(WholeMessage(Flatten(Contents(data)), whole, LastReason(data))));
            && (a.Err? || b.Err? ==> a.Err? && b.Err? && a.error == b.error)
            && (a.Ok? && b.Ok? ==> a.value.finish == b.value.finish)
            && (a.Ok? && b.Ok? ==>
                  match (a.value.message, b.value.message)
                  case (TextMessage(s), TextMessage(t)) => s == t
                  case (CallsMessage(x), CallsMessage(y)) =>
                    |x| == |y| && forall i :: 0 <= i < |x| ==> x[i].name == y[i].name && x[i].arguments == y[i].arguments
                  case _ => false)
  {
    AcceptCut(segments, whole);
    CleanRun(data);
    CallsOfRun(OpenAI, data);
    LastReasonClean(data);
    RebuiltBuildsTheSame(loads, newId, otherId, whole);
    assert Run(OpenAI, data).calls.names == NamesOf(whole);
    if whole == [] {
      assert NamesOf(whole) == [];
    } else {
      assert |NamesOf(whole)| == |whole|;
    }
  }

  lemma RebuiltIsWhole<J>(loads: string -> Option<J>, whole: seq<WholeCall>)
    ensures var rebuilt := Rebuilt(CallsOf(whole));
            && |rebuilt| == |whole|
            && (forall i :: 0 <= i < |whole| ==> (Buildable(loads, rebuilt[i]) <==> Buildable(loads, whole[i])))
            && (forall i :: 0 <= i < |whole| && Buildable(loads, whole[i]) ==> rebuilt[i] == whole[i])
            && forall k: nat, error :: FirstBad(loads, rebuilt, k, error) ==> FirstBad(loads, whole, k, error)
  {
    CallsOfExactly(whole);
  }

  /** The last result of a stream answers the whole message whose calls the entries read are cut from. */
  lemma StreamAnswers<J>(loads: string -> Option<J>, newId: nat -> string, data: seq<Data>,
                         segments: seq<seq<ToolDelta>>, whole: seq<WholeCall>)
    requires Clean(data) && HasChoice(data)
    requires Cuts(segments, whole) && Deltas(data) == Flatten(segments)
    ensures Answers(loads, newId, WholeMessage(Flatten(Contents(data)), whole, LastReason(data)),
                    Finish(loads, newId, Run(OpenAI, data)))
  {
    AcceptCut(segments, whole);
    CleanRun(data);
    CallsOfRun(OpenAI, data);
    LastReasonClean(data);
    RebuiltIsWhole(loads, whole);
    CallsOfExactly(whole);
    BuildAllExact(loads, newId, Rebuilt(CallsOf(whole)));
  }

  method ChatCompletionStream<J>(loads: string -> Option<J>, newId: nat -> string, provider: Provider, data: seq<Data>)
    returns (chunks: seq<ChatChunk>, r: Result<Response<J>, Error>)
    ensures chunks == Run(provider, data).chunks
    ensures r == Finish(loads, newId, Run(provider, data))
    ensures var s := Run(provider, data);
            && (s.error.Some? ==> r == Err(s.error.value))
            && (s.error.None? && s.empty ==> r == Err(EmptyStream))
            && (s.error.None? && !s.empty && s.calls.names != [] ==>
                  var whole := Rebuilt(s.calls);
                  if forall i :: 0 <= i < |whole| ==> Buildable(loads, whole[i]) then AnswersCalls(loads, newId, whole, r)
                  else r.Err? && exists k: nat :: FirstBad(loads, whole, k, r.error))
            && (s.error.None? && !s.empty && s.calls.names == [] ==>
                  r == if s.text == "" then Err(EmptyResponse) else Ok(Response(s.finish, TextMessage(s.text))))
    ensures forall segments, whole ::
              && provider.OpenAI? && Clean(data) && HasChoice(data)
              && Cuts(segments, whole) && Deltas(data) == Flatten(segments) ==>
                Answers(loads, newId, WholeMessage(Flatten(Contents(data)), whole, LastReason(data)), r)
  {
    var s := StreamLoop(provider, data);
    chunks := s.chunks;
    r := Finish(loads, newId, s);
    BuildAllExact(loads, newId, Rebuilt(s.calls));
    forall segments, whole |
      && provider.OpenAI? && Clean(data) && HasChoice(data)
      && Cuts(segments, whole) && Deltas(data) == Flatten(segments)
      ensures Answers(loads, newId, WholeMessage(Flatten(Contents(data)), whole, LastReason(data)), r)
    {
      StreamAnswers(loads, newId, data, segments, whole);
    }
  }

  // ---------- Several entries in one chunk ----------

  /** The tool-call entries of one chunk */
  function Entries(data: Data): seq<ToolDelta> {
    if data.Choice? then data.chunk.toolCalls else []
  }

  /** All entries that were sent, not only those that are read */
  function AllDeltas(data: seq<Data>): seq<ToolDelta> {
    if data == [] then [] else AllDeltas(data[..|data| - 1]) + Entries(data[|data| - 1])
  }

  /** The entries of one chunk that are read */
  function Heads(entries: seq<ToolDelta>): seq<ToolDelta> {
    if entries == [] then [] else [entries[0]]
  }

  predicate OneEntryEach(data: seq<Data>) {
    forall i :: 0 <= i < |data| ==> |Entries(data[i])| <= 1
  }

  lemma {:induction false} AllDeltasRead(data: seq<Data>)
    requires OneEntryEach(data)
    ensures Deltas(data) == AllDeltas(data)
  {
    if data == [] {
    } else {
      AllDeltasRead(data[..|data| - 1]);
      assert |Entries(data[|data| - 1])| <= 1;
    }
  }

  lemma WeightOfHeads(entries: seq<ToolDelta>)
    requires AllWeigh(entries)
    ensures TotalWeight(Heads(entries)) <= TotalWeight(entries)
    ensures |entries| > 1 ==> TotalWeight(Heads(entries)) < TotalWeight(entries)
  {
    if entries == [] {
    } else {
      var first, rest := Heads(entries), entries[1..];
      assert entries == first + rest;
      TotalWeightAppend(first, rest);
      AllWeighAppend(first, rest);
      WeighsAtLeastCount(rest);
    }
  }

  lemma DeltasStep(data: seq<Data>)
    requires data != []
    ensures var before, last := data[..|data| - 1], data[|data| - 1];
            && Deltas(data) == Deltas(before) + Heads(Entries(last))
            && AllDeltas(data) == AllDeltas(before) + Entries(last)
  {
    AppendEmpty(Deltas(data[..|data| - 1]));
  }

  lemma OneEntryLast(data: seq<Data>)
    requires data != []
    ensures OneEntryEach(data) <==> OneEntryEach(data[..|data| - 1]) && |Entries(data[|data| - 1])| <= 1
  {
    assert forall i :: 0 <= i < |data| - 1 ==> data[..|data| - 1][i] == data[i];
  }

  /** Every entry that is not read leaves less weight than was sent. */
  lemma {:induction false} WeightRead(data: seq<Data>)
    requires AllWeigh(AllDeltas(data))
    ensures TotalWeight(Deltas(data)) <= TotalWeight(AllDeltas(data))
    ensures !OneEntryEach(data) ==> TotalWeight(Deltas(data)) < TotalWeight(AllDeltas(data))
  {
    if data == [] {
    } else {
      var before, entries := data[..|data| - 1], Entries(data[|data| - 1]);
      DeltasStep(data);
      OneEntryLast(data);
      AllWeighAppend(AllDeltas(before), entries);
      WeightRead(before);
      WeightOfHeads(entries);
      TotalWeightAppend(AllDeltas(before), entries);
      TotalWeightAppend(Deltas(before), Heads(entries));
    }
  }

  /**
   * Where continuations carry text and no name, the calls are rebuilt exactly when no chunk has more than one
   * entry: only the first entry of a chunk is read.
   */
  lemma RebuiltExactly(data: seq<Data>, segments: seq<seq<ToolDelta>>, whole: seq<WholeCall>)
    requires Clean(data) && Cuts(segments, whole) && AllDeltas(data) == Flatten(segments)
    requires AllLean(segments)
    ensures Run(OpenAI, data).error.None? && Run(OpenAI, data).calls == CallsOf(whole) <==> OneEntryEach(data)
  {
    WeightOfCut(segments, whole);
    if OneEntryEach(data) {
      AllDeltasRead(data);
      AcceptCut(segments, whole);
      CleanRun(data);
      CallsOfRun(OpenAI, data);
    } else if Run(OpenAI, data).error.None? {
      CallsOfRun(OpenAI, data);
      AcceptAllSize(Deltas(data));
      WeightRead(data);
    }
  }

  /** Of two complete calls in one chunk the second is lost, without an error. */
  lemma SecondEntryIsLost()
    ensures var f, g := ToolDelta(0, Str("f"), Str("{}")), ToolDelta(1, Str("g"), Str("{}"));
            var s := Run(OpenAI, [Choice(ChunkData("", [f, g], ""))]);
            s.error.None? && s.calls == Calls(0, ["{}"], [Some("f")])
  {
    var f, g := ToolDelta(0, Str("f"), Str("{}")), ToolDelta(1, Str("g"), Str("{}"));
    var data := [Choice(ChunkData("", [f, g], ""))];
    assert data[..0] == [] && Run(OpenAI, data) == Step(OpenAI, START, data[0]);
    var none: seq<string> := [];
    assert none + ["{}"] == ["{}"];
  }

  /** Without tool calls the final message is the concatenation of the deltas yielded, for either provider. */
  lemma FinalTextIsWhatWasYielded<J>(loads: string -> Option<J>, newId: nat -> string, provider: Provider,
                                     data: seq<Data>)
    requires Run(provider, data).error.None? && Deltas(data) == [] && HasChoice(data)
    ensures var s := Run(provider, data);
            var text := Flatten(DeltaTexts(s.chunks));
            Finish(loads, newId, s) == if text == "" then Err(EmptyResponse) else Ok(Response(s.finish, TextMessage(text)))
  {
    TextConserved(provider, data);
    CallsOfRun(provider, data);
  }

  // ---------- Tongyi: cumulative contents ----------

  /** The accumulated text becomes the cumulative content exactly when it was a prefix of it. */
  lemma CumulativeStep(text: string, content: string)
    ensures text + RemoveFirst(content, text) == content <==> text <= content
  {
    var rest := RemoveFirst(content, text);
    if text + rest == content {
      assert content[..|text|] == text;
    }
    if text <= content {
      assert rest == content[|text|..];
    }
  }

  predicate Chain(contents: seq<string>) {
    forall i :: 0 <= i < |contents| - 1 ==> contents[i] <= contents[i + 1]
  }

  function Latest(contents: seq<string>): string {
    if contents == [] then "" else contents[|contents| - 1]
  }

  lemma ContentsOfRunStep(data: seq<Data>)
    requires data != [] && Run(Tongyi, data).error.None?
    ensures var before := data[..|data| - 1];
            var text, next := Run(Tongyi, before).text, Run(Tongyi, data).text;
            Run(Tongyi, before).error.None? &&
            if Contents(data) == Contents(before) then next == text
            else && Contents(data) == Contents(before) + [Latest(Contents(data))]
                 && next == text + RemoveFirst(Latest(Contents(data)), text)
  {
  }

  lemma ChainSnoc(contents: seq<string>, content: string)
    ensures Chain(contents + [content]) <==> Chain(contents) && Latest(contents) <= content
  {
    var all := contents + [content];
    if Chain(all) {
      forall i | 0 <= i < |contents| - 1
        ensures contents[i] <= contents[i + 1]
      {
        assert all[i] <= all[i + 1];
      }
      if contents != [] {
        assert all[|contents| - 1] <= all[|contents| - 1 + 1];
      }
    }
  }

  predicate TextIsLatest(data: seq<Data>) {
    Run(Tongyi, data).text == Latest(Contents(data))
  }

  /** The text was the latest content after each of the steps. */
  predicate Tracks(data: seq<Data>) {
    TextIsLatest(data) && (data == [] || Tracks(data[..|data| - 1]))
  }

  lemma {:induction false} TracksEverywhere(data: seq<Data>)
    ensures Tracks(data) <==> forall k :: 0 <= k <= |data| ==> TextIsLatest(data[..k])
  {
    assert data[..|data|] == data;
    if data == [] {
    } else {
      var before := data[..|data| - 1];
      TracksEverywhere(before);
      assert forall k :: 0 <= k <= |before| ==> data[..k] == before[..k];
    }
  }

  lemma {:induction false} TracksIffChain(data: seq<Data>)
    requires Run(Tongyi, data).error.None?
    ensures Tracks(data) <==> Chain(Contents(data))
  {
    if data == [] {
    } else {
      var before := data[..|data| - 1];
      ContentsOfRunStep(data);
      TracksIffChain(before);
      if Contents(data) != Contents(before) {
        ChainSnoc(Contents(before), Latest(Contents(data)));
        CumulativeStep(Run(Tongyi, before).text, Latest(Contents(data)));
      }
    }
  }

  /** After every step the text is the latest content, exactly when the contents form a chain of prefixes. */
  lemma {:induction false} CumulativeText(data: seq<Data>)
    requires Run(Tongyi, data).error.None?
    ensures (forall k :: 0 <= k <= |data| ==> TextIsLatest(data[..k])) <==> Chain(Contents(data))
  {
    TracksEverywhere(data);
    TracksIffChain(data);
  }
}
