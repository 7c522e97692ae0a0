/** Tool calls: the accumulator of the streaming form and the builder both forms share. */
module ToolCalls {
  import opened Prelude

  /** A value looked up in a JSON object. */
  datatype Field = Absent | Null | Str(value: string)

  /** One entry of `tool_calls` in a streamed chunk. */
  datatype ToolDelta = ToolDelta(index: int, name: Field, arguments: Field)

  /** One entry of `tool_calls` in a whole message. */
  datatype WholeCall = WholeCall(name: Option<string>, arguments: Option<string>)

  datatype FunctionCall<+J> = FunctionCall(id: string, name: string, arguments: J)

  datatype Error =
    | MalformedDelta | InvalidResponse | InvalidArguments | InvalidName
    | EmptyResponse | EmptyStream | ContentFilter | ProviderError

  // ---------- Accumulating deltas ----------

  datatype Calls = Calls(index: int, arguments: seq<string>, names: seq<Option<string>>)

  const NO_CALLS := Calls(-1, [], [])

  function Name(name: Field): Option<string> {
    if name.Str? then Some(name.value) else None
  }

  /** One `stream_handle_function_calls`: the accumulator afterwards, and whether nothing was raised. */
  function Accept(calls: Calls, delta: ToolDelta): (Calls, bool) {
    if delta.index == calls.index then
      if 0 <= calls.index < |calls.arguments| && delta.arguments.Str? then
        (calls.(arguments := calls.arguments[calls.index := calls.arguments[calls.index] + delta.arguments.value]), true)
      else (calls, false)
    else if delta.index > calls.index then
      if delta.arguments.Absent? then (calls, false)
      else
        var started := calls.(arguments := calls.arguments + [if delta.arguments.Str? then delta.arguments.value else ""]);
        if delta.name.Absent? then (started, false)
        else (started.(names := calls.names + [Name(delta.name)], index := delta.index), true)
    else (calls, true)
  }

  /** A delta for an earlier call, for the open call, and for a new one; what is kept when it raises half-way */
  lemma AcceptExactly(calls: Calls, delta: ToolDelta)
    ensures delta.index < calls.index ==> Accept(calls, delta) == (calls, true)
    ensures delta.index == calls.index ==>
              var (next, ok) := Accept(calls, delta);
              && (ok <==> 0 <= calls.index < |calls.arguments| && delta.arguments.Str?)
              && (!ok ==> next == calls)
              && next.index == calls.index && next.names == calls.names && |next.arguments| == |calls.arguments|
              && (ok ==> next.arguments[next.index] == calls.arguments[calls.index] + delta.arguments.value)
              && forall i :: 0 <= i < |calls.arguments| && i != calls.index ==> next.arguments[i] == calls.arguments[i]
    ensures delta.index > calls.index ==>
              var (next, ok) := Accept(calls, delta);
              && (ok <==> !delta.arguments.Absent? && !delta.name.Absent?)
              && (delta.arguments.Absent? ==> next == calls)
              && (delta.arguments.Null? ==> next.arguments == calls.arguments + [""])
              && (delta.arguments.Str? ==> next.arguments == calls.arguments + [delta.arguments.value])
              && (!ok ==> next.names == calls.names && next.index == calls.index)
              && (ok ==> next.index == delta.index)
              && (ok && delta.name.Null? ==> next.names == calls.names + [None])
              && (ok && delta.name.Str? ==> next.names == calls.names + [Some(delta.name.value)])
  {
  }

  class ChatCompletionFunctionCallsContent {
    var index: int
    var argumentsStrs: seq<string>
    var names: seq<Option<string>>

    function Contents(): (calls: Calls)
      reads this
      ensures calls.index == index && calls.arguments == argumentsStrs && calls.names == names
    {
      Calls(index, argumentsStrs, names)
    }

    constructor ()
      ensures index == -1 && argumentsStrs == [] && names == []
    {
      index, argumentsStrs, names := -1, [], [];
    }

    method Handle(delta: ToolDelta) returns (ok: bool)
      modifies this
      ensures (Contents(), ok) == Accept(old(Contents()), delta)
    {
      if delta.index == index {
        if index < 0 || |argumentsStrs| <= index || !delta.arguments.Str? {
          return false;
        }
        argumentsStrs := argumentsStrs[index := argumentsStrs[index] + delta.arguments.value];
      } else if delta.index > index {
        if delta.arguments.Absent? {
          return false;
        }
        argumentsStrs := argumentsStrs + [if delta.arguments.Str? then delta.arguments.value else ""];
        if delta.name.Absent? {
          return false;
        }
        names := names + [Name(delta.name)];
        index := delta.index;
      }
      return true;
    }
  }

  /** The accumulator after a sequence of deltas, unless one of them raised. */
  function AcceptAll(deltas: seq<ToolDelta>): Option<Calls> {
    if deltas == [] then Some(NO_CALLS)
    else
      var before := AcceptAll(deltas[..|deltas| - 1]);
      if before.None? then None
      else
        var (calls, ok) := Accept(before.value, deltas[|deltas| - 1]);
        if ok then Some(calls) else None
  }

  function MaxIndex(deltas: seq<ToolDelta>): int {
    if deltas == [] then -1
    else
      var m, i := MaxIndex(deltas[..|deltas| - 1]), deltas[|deltas| - 1].index;
      if i > m then i else m
  }

  /** No delta opens a call whose index is not the next one. */
  predicate NoSkip(deltas: seq<ToolDelta>) {
    forall k :: 0 <= k < |deltas| ==> deltas[k].index <= MaxIndex(deltas[..k]) + 1
  }

  lemma NoSkipSnoc(deltas: seq<ToolDelta>)
    requires deltas != []
    ensures var before, last := deltas[..|deltas| - 1], deltas[|deltas| - 1];
            NoSkip(deltas) <==> NoSkip(before) && last.index <= MaxIndex(before) + 1
  {
    var before := deltas[..|deltas| - 1];
    assert forall k :: 0 <= k <= |before| ==> deltas[..k] == before[..k];
  }

  /** For every sequence of deltas the lists stay parallel; they match the index exactly when none was skipped. */
  lemma {:induction false} AccumulatorShape(deltas: seq<ToolDelta>)
    requires AcceptAll(deltas).Some?
    ensures var calls := AcceptAll(deltas).value;
            && calls.index == MaxIndex(deltas)
            && |calls.names| == |calls.arguments| <= calls.index + 1
            && (|calls.names| == calls.index + 1 <==> NoSkip(deltas))
            && (calls.index == -1 <==> calls.names == [])
  {
    if deltas == [] {
    } else {
      AccumulatorShape(deltas[..|deltas| - 1]);
      NoSkipSnoc(deltas);
    }
  }

  /** After a skip the open call cannot be continued: the next fragment for it raises. */
  lemma {:induction false} SkipIsFatal(deltas: seq<ToolDelta>, delta: ToolDelta)
    requires AcceptAll(deltas).Some? && !NoSkip(deltas)
    requires delta.index == MaxIndex(deltas)
    ensures AcceptAll(deltas + [delta]).None?
  {
    AccumulatorShape(deltas);
    assert (deltas + [delta])[..|deltas|] == deltas;
  }

  lemma AcceptSnoc(deltas: seq<ToolDelta>, delta: ToolDelta)
    ensures var before := AcceptAll(deltas);
            AcceptAll(deltas + [delta]) ==
            if before.Some? && Accept(before.value, delta).1 then Some(Accept(before.value, delta).0) else None
    ensures AcceptAll([]) == Some(Calls(-1, [], []))
  {
    assert (deltas + [delta])[..|deltas|] == deltas;
  }

  // ---------- Cutting whole calls into deltas ----------

  function Fragment(arguments: Field): string {
    if arguments.Str? then arguments.value else ""
  }

  function Fragments(segment: seq<ToolDelta>): string {
    if segment == [] then "" else Fragments(segment[..|segment| - 1]) + Fragment(segment[|segment| - 1].arguments)
  }

  /** `segment` carries call number `i`: the name comes first, the argument text may be cut anywhere. */
  predicate Carries(segment: seq<ToolDelta>, i: nat, call: WholeCall) {
    && segment != []
    && (forall d <- segment :: d.index == i)
    && !segment[0].name.Absent? && Name(segment[0].name) == call.name
    && !segment[0].arguments.Absent?
    && (forall k :: 1 <= k < |segment| ==> segment[k].arguments.Str?)
    && Fragments(segment) == if call.arguments.Some? then call.arguments.value else ""
  }

  ghost predicate Cuts(segments: seq<seq<ToolDelta>>, whole: seq<WholeCall>) {
    |segments| == |whole| && forall i :: 0 <= i < |whole| ==> Carries(segments[i], i, whole[i])
  }

  function NamesOf(whole: seq<WholeCall>): seq<Option<string>> {
    seq(|whole|, i requires 0 <= i < |whole| => whole[i].name)
  }

  function ArgumentsOf(whole: seq<WholeCall>): seq<string> {
    seq(|whole|, i requires 0 <= i < |whole| =>
      if whole[i].arguments.Some? then whole[i].arguments.value else "")
  }

  function CallsOf(whole: seq<WholeCall>): Calls {
    Calls(|whole| - 1, ArgumentsOf(whole), NamesOf(whole))
  }

  lemma {:induction false} AcceptSegment(deltas: seq<ToolDelta>, calls: Calls, segment: seq<ToolDelta>, call: WholeCall)
    requires AcceptAll(deltas) == Some(calls)
    requires |calls.arguments| == calls.index + 1
    requires segment != [] && forall d <- segment :: d.index == calls.index + 1
    requires !segment[0].name.Absent? && Name(segment[0].name) == call.name && !segment[0].arguments.Absent?
    requires forall k :: 1 <= k < |segment| ==> segment[k].arguments.Str?
    ensures AcceptAll(deltas + segment)
         == Some(Calls(calls.index + 1, calls.arguments + [Fragments(segment)], calls.names + [call.name]))
  {
    var before, d := segment[..|segment| - 1], segment[|segment| - 1];
    AcceptSnoc(deltas + before, d);
    assert deltas + before + [d] == deltas + segment;
    assert d in segment;
    if before == [] {
      assert deltas + before == deltas;
      assert Fragments(segment) == Fragment(d.arguments);
    } else {
      AcceptSegment(deltas, calls, before, call);
      var open := calls.arguments + [Fragments(before)];
      assert open[calls.index + 1 := Fragments(before) + d.arguments.value]
          == calls.arguments + [Fragments(before) + d.arguments.value];
    }
  }

  lemma CallsOfSnoc(whole: seq<WholeCall>)
    requires whole != []
    ensures var n := |whole| - 1;
            var before, call := CallsOf(whole[..n]), whole[n];
            CallsOf(whole) == Calls(n, before.arguments + [if call.arguments.Some? then call.arguments.value else ""],
                                    before.names + [call.name])
  {
  }

  lemma AcceptCall(deltas: seq<ToolDelta>, segment: seq<ToolDelta>, earlier: seq<WholeCall>, call: WholeCall)
    requires Carries(segment, |earlier|, call) && AcceptAll(deltas) == Some(CallsOf(earlier))
    ensures AcceptAll(deltas + segment) == Some(CallsOf(earlier + [call]))
  {
    AcceptSegment(deltas, CallsOf(earlier), segment, call);
    CallsOfSnoc(earlier + [call]);
    assert (earlier + [call])[..|earlier|] == earlier;
  }

  /** The accumulator that stands for whole calls has their names and their argument texts in order. */
  lemma CallsOfExactly(whole: seq<WholeCall>)
    ensures var calls := CallsOf(whole);
            && calls.index == |whole| - 1 && |calls.names| == |calls.arguments| == |whole|
            && (forall i :: 0 <= i < |whole| ==> calls.names[i] == whole[i].name)
            && forall i :: 0 <= i < |whole| ==>
                             calls.arguments[i] == match whole[i].arguments case None => "" case Some(text) => text
  {
  }

  lemma CutsInit(segments: seq<seq<ToolDelta>>, whole: seq<WholeCall>)
    requires Cuts(segments, whole) && whole != []
    ensures Cuts(Init(segments), Init(whole)) && Carries(segments[|whole| - 1], |whole| - 1, whole[|whole| - 1])
  {
    assert forall i :: 0 <= i < |whole| - 1 ==> Init(segments)[i] == segments[i] && Init(whole)[i] == whole[i];
  }

  /** Whatever the cutting, the fold rebuilds the names and the argument texts. */
  lemma {:induction false} AcceptCut(segments: seq<seq<ToolDelta>>, whole: seq<WholeCall>)
    requires Cuts(segments, whole)
    ensures AcceptAll(Flatten(segments)) == Some(CallsOf(whole))
  {
    if whole == [] {
      assert ArgumentsOf(whole) == [] && NamesOf(whole) == [];
    } else {
      CutsInit(segments, whole);
      AcceptCut(Init(segments), Init(whole));
      AcceptCall(Flatten(Init(segments)), segments[|whole| - 1], Init(whole), whole[|whole| - 1]);
      InitLast(whole);
      FlattenLast(segments);
    }
  }

  // ---------- Nothing may be dropped ----------

  /** What a delta adds to the accumulator: its name, and the characters of its fragment */
  function Weight(delta: ToolDelta): nat {
    |Fragment(delta.arguments)| + if delta.name.Absent? then 0 else 1
  }

  function TotalWeight(deltas: seq<ToolDelta>): nat {
    if deltas == [] then 0 else TotalWeight(deltas[..|deltas| - 1]) + Weight(deltas[|deltas| - 1])
  }

  function Size(calls: Calls): nat {
    |calls.names| + |Flatten(calls.arguments)|
  }

  lemma TotalWeightSnoc(deltas: seq<ToolDelta>, delta: ToolDelta)
    ensures TotalWeight(deltas + [delta]) == TotalWeight(deltas) + Weight(delta)
  {
    assert (deltas + [delta])[..|deltas|] == deltas;
  }

  lemma {:induction false} TotalWeightAppend(a: seq<ToolDelta>, b: seq<ToolDelta>)
    ensures TotalWeight(a + b) == TotalWeight(a) + TotalWeight(b)
  {
    if b == [] {
      AppendEmpty(a);
    } else {
      InitLast(b);
      AppendAssociative(a, Init(b), [b[|b| - 1]]);
      TotalWeightSnoc(a + Init(b), b[|b| - 1]);
      TotalWeightAppend(a, Init(b));
    }
  }

  lemma {:induction false} FlattenAt(parts: seq<string>, i: nat, fragment: string)
    requires i < |parts|
    ensures |Flatten(parts[i := parts[i] + fragment])| == |Flatten(parts)| + |fragment|
  {
    var next := parts[i := parts[i] + fragment];
    if i == 0 {
      assert next[1..] == parts[1..];
    } else {
      assert next[1..] == parts[1..][i - 1 := parts[i] + fragment];
      FlattenAt(parts[1..], i - 1, fragment);
    }
  }

  lemma AcceptSize(calls: Calls, delta: ToolDelta)
    requires Accept(calls, delta).1
    ensures Size(Accept(calls, delta).0) <= Size(calls) + Weight(delta)
  {
    if delta.index == calls.index {
      FlattenAt(calls.arguments, calls.index, delta.arguments.value);
    } else if delta.index > calls.index {
      FlattenSnoc(calls.arguments, Fragment(delta.arguments));
    }
  }

  lemma {:induction false} AcceptAllSize(deltas: seq<ToolDelta>)
    requires AcceptAll(deltas).Some?
    ensures Size(AcceptAll(deltas).value) <= TotalWeight(deltas)
  {
    if deltas == [] {
    } else {
      var before := deltas[..|deltas| - 1];
      AcceptAllSize(before);
      AcceptSize(AcceptAll(before).value, deltas[|deltas| - 1]);
    }
  }

  predicate AllWeigh(deltas: seq<ToolDelta>) {
    forall d <- deltas :: Weight(d) >= 1
  }

  lemma AllWeighAppend(a: seq<ToolDelta>, b: seq<ToolDelta>)
    ensures AllWeigh(a + b) <==> AllWeigh(a) && AllWeigh(b)
  {
    assert forall d :: d in a + b <==> d in a || d in b;
  }

  lemma {:induction false} WeighsAtLeastCount(deltas: seq<ToolDelta>)
    requires AllWeigh(deltas)
    ensures TotalWeight(deltas) >= |deltas|
  {
    if deltas == [] {
    } else {
      WeighsAtLeastCount(deltas[..|deltas| - 1]);
    }
  }

  /** Only the first delta of a call has a name, and every later one has some text. */
  predicate Lean(segment: seq<ToolDelta>) {
    forall k :: 1 <= k < |segment| ==> segment[k].name.Absent? && Fragment(segment[k].arguments) != ""
  }

  lemma {:induction false} WeightOfLean(segment: seq<ToolDelta>)
    requires segment != [] && Lean(segment) && !segment[0].name.Absent?
    ensures TotalWeight(segment) == 1 + |Fragments(segment)| && AllWeigh(segment)
  {
    var before, last := Init(segment), segment[|segment| - 1];
    InitLast(segment);
    AllWeighAppend(before, [last]);
    if before == [] {
    } else {
      WeightOfLean(before);
    }
  }

  predicate AllLean(segments: seq<seq<ToolDelta>>) {
    forall i :: 0 <= i < |segments| ==> Lean(segments[i])
  }

  lemma SizeSnoc(whole: seq<WholeCall>, arguments: string)
    requires whole != []
    requires arguments == if whole[|whole| - 1].arguments.Some? then whole[|whole| - 1].arguments.value else ""
    ensures Size(CallsOf(whole)) == Size(CallsOf(whole[..|whole| - 1])) + 1 + |arguments|
  {
    CallsOfSnoc(whole);
    FlattenSnoc(CallsOf(whole[..|whole| - 1]).arguments, arguments);
  }

  /** What whole calls amount to is exactly what the deltas they are cut into weigh. */
  lemma {:induction false} WeightOfCut(segments: seq<seq<ToolDelta>>, whole: seq<WholeCall>)
    requires Cuts(segments, whole) && AllLean(segments)
    ensures TotalWeight(Flatten(segments)) == Size(CallsOf(whole)) && AllWeigh(Flatten(segments))
  {
    if whole == [] {
      assert ArgumentsOf(whole) == [] && NamesOf(whole) == [];
    } else {
      var n := |whole| - 1;
      var before, segment := Init(segments), segments[n];
      assert Carries(segment, n, whole[n]);
      WeightOfCut(before, whole[..n]);
      WeightOfLean(segment);
      FlattenLast(segments);
      TotalWeightAppend(Flatten(before), segment);
      AllWeighAppend(Flatten(before), segment);
      SizeSnoc(whole, Fragments(segment));
    }
  }

  // ---------- Building function calls ----------

  /** `build_function_call`; `loads` stands for `json.loads` followed by the check for an object. */
  function Build<J>(loads: string -> Option<J>, id: string, name: Option<string>, arguments: Option<string>)
    : Result<FunctionCall<J>, Error>
  {
    if arguments.None? || arguments.value == "" then Err(InvalidArguments)
    else
      var parsed := loads(arguments.value);
      if parsed.None? then Err(InvalidArguments)
      else if name.None? then Err(InvalidName)
      else Ok(FunctionCall(id, name.value, parsed.value))
  }

  /** Build the calls in order, up to the first error. `newId` supplies the random ids. */
  function BuildAll<J>(loads: string -> Option<J>, newId: nat -> string, whole: seq<WholeCall>)
    : Result<seq<FunctionCall<J>>, Error>
  {
    if whole == [] then Ok([])
    else
      var n := |whole| - 1;
      match BuildAll(loads, newId, whole[..n])
      case Err(e) => Err(e)
      case Ok(calls) =>
        match Build(loads, newId(n), whole[n].name, whole[n].arguments)
        case Err(e) => Err(e)
        case Ok(call) => Ok(calls + [call])
  }

  predicate Buildable<J>(loads: string -> Option<J>, call: WholeCall) {
    call.name.Some? && call.arguments.Some? && call.arguments.value != "" && loads(call.arguments.value).Some?
  }

  ghost predicate Built<J>(loads: string -> Option<J>, id: string, call: WholeCall, built: FunctionCall<J>) {
    && Buildable(loads, call)
    && built.id == id && Some(built.name) == call.name && Some(built.arguments) == loads(call.arguments.value)
  }

  /** The calls before `k` are buildable, and the one at `k` fails with `error`. */
  ghost predicate FirstBad<J>(loads: string -> Option<J>, whole: seq<WholeCall>, k: nat, error: Error) {
    && k < |whole| && !Buildable(loads, whole[k]) && (forall i :: 0 <= i < k ==> Buildable(loads, whole[i]))
    && error == if whole[k].arguments.None? || loads(whole[k].arguments.value).None? || whole[k].arguments.value == ""
                then InvalidArguments else InvalidName
  }

  /** All is built or nothing: one function call for each call, in order, with its own name and arguments. */
  lemma {:induction false} BuildAllExact<J>(loads: string -> Option<J>, newId: nat -> string, whole: seq<WholeCall>)
    ensures var r := BuildAll(loads, newId, whole);
            && (r.Ok? <==> forall i :: 0 <= i < |whole| ==> Buildable(loads, whole[i]))
            && (r.Ok? ==> |r.value| == |whole| &&
                          forall i :: 0 <= i < |whole| ==> Built(loads, newId(i), whole[i], r.value[i]))
            && (r.Err? ==> exists k: nat :: FirstBad(loads, whole, k, r.error))
    decreases |whole|
  {
    if whole == [] {
    } else {
      var n := |whole| - 1;
      BuildAllExact(loads, newId, whole[..n]);
      var r, before := BuildAll(loads, newId, whole), BuildAll(loads, newId, whole[..n]);
      if before.Err? {
        var k: nat :| FirstBad(loads, whole[..n], k, before.error);
        assert FirstBad(loads, whole, k, r.error);
      } else if r.Err? {
        assert FirstBad(loads, whole, n, r.error);
      }
    }
  }

  /** A call can be built when it has a name and non-empty arguments that can be parsed; these are what is built. */
  lemma BuiltExactly<J>(loads: string -> Option<J>, id: string, call: WholeCall, built: FunctionCall<J>)
    ensures Buildable(loads, call) <==>
            call.name.Some? && call.arguments.Some? && call.arguments.value != "" && loads(call.arguments.value).Some?
    ensures Built(loads, id, call, built) <==>
            && Buildable(loads, call) && built.id == id && built.name == call.name.value
            && built.arguments == loads(call.arguments.value).value
  {
  }

  lemma FirstBadExactly<J>(loads: string -> Option<J>, whole: seq<WholeCall>, k: nat, error: Error)
    ensures FirstBad(loads, whole, k, error) <==>
            && k < |whole| && !Buildable(loads, whole[k]) && (forall i :: 0 <= i < k ==> Buildable(loads, whole[i]))
            && var text := whole[k].arguments;
               (error == InvalidArguments && (text.None? || text.value == "" || loads(text.value).None?)) ||
               (error == InvalidName && text.Some? && text.value != "" && loads(text.value).Some? && whole[k].name.None?)
  {
  }

  lemma {:induction false} BuildStops<J>(loads: string -> Option<J>, newId: nat -> string, whole: seq<WholeCall>, k: nat)
    requires k <= |whole| && BuildAll(loads, newId, whole[..k]).Err?
    ensures BuildAll(loads, newId, whole) == BuildAll(loads, newId, whole[..k])
    decreases |whole|
  {
    if k == |whole| {
      assert whole[..k] == whole;
    } else {
      var n := |whole| - 1;
      assert whole[..n][..k] == whole[..k];
      BuildStops(loads, newId, whole[..n], k);
    }
  }

  /** The loop of `extract_function_calls`, on a non-empty list. */
  method BuildWhole<J>(loads: string -> Option<J>, newId: nat -> string, whole: seq<WholeCall>)
    returns (r: Result<seq<FunctionCall<J>>, Error>)
    ensures r == BuildAll(loads, newId, whole)
  {
    var calls := [];
    for i := 0 to |whole|
      invariant BuildAll(loads, newId, whole[..i]) == Ok(calls)
    {
      var call := Build(loads, newId(i), whole[i].name, whole[i].arguments);
      assert whole[..i + 1][..i] == whole[..i];
      if call.Err? {
        BuildStops(loads, newId, whole, i + 1);
        return Err(call.error);
      }
      calls := calls + [call.value];
    }
    assert whole[..|whole|] == whole;
    return Ok(calls);
  }

  /** What the accumulated strings stand for when `prepare_response` builds from them. */
  function Rebuilt(calls: Calls): (whole: seq<WholeCall>)
    ensures |whole| == |calls.names|
    ensures forall i :: 0 <= i < |whole| ==> whole[i].name == calls.names[i]
    ensures forall i :: 0 <= i < |whole| && i < |calls.arguments| ==> whole[i].arguments == Some(calls.arguments[i])
    ensures forall i :: |calls.arguments| <= i < |whole| ==> whole[i].arguments == None
  {
    seq(|calls.names|, i requires 0 <= i < |calls.names| =>
      WholeCall(calls.names[i], if i < |calls.arguments| then Some(calls.arguments[i]) else None))
  }

  ghost predicate SameButIds<J>(a: Result<seq<FunctionCall<J>>, Error>, b: Result<seq<FunctionCall<J>>, Error>) {
    match (a, b)
    case (Ok(x), Ok(y)) =>
      |x| == |y| && forall i :: 0 <= i < |x| ==> x[i].name == y[i].name && x[i].arguments == y[i].arguments
    case (Err(e), Err(f)) => e == f
    case _ => false
  }

  /** Building from what the fold rebuilt differs from building from the message in the ids at most. */
  lemma {:induction false} RebuiltBuildsTheSame<J>(loads: string -> Option<J>, newId: nat -> string,
                                                   otherId: nat -> string, whole: seq<WholeCall>)
    ensures SameButIds(BuildAll(loads, newId, Rebuilt(CallsOf(whole))), BuildAll(loads, otherId, whole))
    ensures var a, b := BuildAll(loads, newId, Rebuilt(CallsOf(whole))), BuildAll(loads, otherId, whole);
            && (a.Err? || b.Err? ==> a.Err? && b.Err? && a.error == b.error)
            && (a.Ok? && b.Ok? ==> |a.value| == |b.value| == |whole| &&
                                   forall i :: 0 <= i < |whole| ==> a.value[i].name == b.value[i].name &&
                                                                    a.value[i].arguments == b.value[i].arguments)
    decreases |whole|
  {
    if whole == [] {
    } else {
      var n := |whole| - 1;
      RebuiltBuildsTheSame(loads, newId, otherId, whole[..n]);
      assert Rebuilt(CallsOf(whole))[..n] == Rebuilt(CallsOf(whole[..n]));
    }
  }
}
