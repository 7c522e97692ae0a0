/** The line parser that the chat models really use: `AsyncStream` in stream.py. */
module AsyncStreams {
  import opened Prelude
  import Sse

  /** What the transport delivers: bytes, here already decoded, or a string passed on as it is. */
  datatype Chunk = Bytes(text: string) | Text(text: string)

  predicate Contains(s: string, t: string) {
    t <= s || (s != "" && Contains(s[1..], t))
  }

  predicate IsDone(line: string) {
    Contains(line, "[DONE]")
  }

  lemma {:induction false} ContainsExactly(s: string, t: string)
    ensures Contains(s, t) <==> exists k: nat :: k <= |s| && t <= s[k..]
  {
    assert s[0..] == s;
    if s == "" {
    } else {
      ContainsExactly(s[1..], t);
      if k: nat :| k <= |s[1..]| && t <= s[1..][k..] {
        assert s[1..][k..] == s[k + 1..];
      }
      if k: nat :| k <= |s| && t <= s[k..] {
        assert k > 0 ==> s[1..][k - 1..] == s[k..];
      }
    }
  }

  /** Only the whole marker ends a stream. */
  lemma DoneExactly(line: string)
    ensures IsDone(line) <==> exists k: nat :: k <= |line| && "[DONE]" <= line[k..]
  {
    ContainsExactly(line, "[DONE]");
  }

  /** The characters for which Python's `str.isspace` holds. */
  predicate IsSpace(c: char) {
    var n := c as int;
    9 <= n <= 13 || 28 <= n <= 32 || n in {0x85, 0xA0, 0x1680, 0x2028, 0x2029, 0x202F, 0x205F, 0x3000}
    || 0x2000 <= n <= 0x200A
  }

  lemma SpaceExactly(c: char)
    ensures '\U{2000}' <= c <= '\U{200A}' ==> IsSpace(c)
    ensures !('\U{2000}' <= c <= '\U{200A}') ==>
              (IsSpace(c) <==> c in "\t\n\U{B}\U{C}\r\U{1C}\U{1D}\U{1E}\U{1F} \U{85}\U{A0}\U{1680}" ||
                               c in "\U{2028}\U{2029}\U{202F}\U{205F}\U{3000}")
  {
  }

  predicate Blank(line: string) {
    forall i :: 0 <= i < |line| ==> IsSpace(line[i])
  }

  function NonEmpty(lines: seq<string>): seq<string> {
    if lines == [] then []
    else if lines[0] == "" then NonEmpty(lines[1..])
    else [lines[0]] + NonEmpty(lines[1..])
  }

  function LinesOfChunk(chunk: Chunk): seq<string> {
    match chunk
    case Bytes(text) => NonEmpty(Split(text, '\n'))
    case Text(text) => [text]
  }

  /** Everything `_iter_events` yields. */
  function Lines(chunks: seq<Chunk>): seq<string> {
    if chunks == [] then [] else LinesOfChunk(chunks[0]) + Lines(chunks[1..])
  }

  function BeforeDone(lines: seq<string>): seq<string> {
    if lines == [] || IsDone(lines[0]) then [] else [lines[0]] + BeforeDone(lines[1..])
  }

  /** The text handed to `json.loads` for a line, if any. */
  function Payload(line: string): Option<string> {
    if "data:" <= line then Some(line[5..])
    else if Blank(line) then None
    else Some(line)
  }

  function Payloads(lines: seq<string>): seq<string> {
    if lines == [] then []
    else if Payload(lines[0]).None? then Payloads(lines[1..])
    else [Payload(lines[0]).value] + Payloads(lines[1..])
  }

  /** The texts that are handed to `json.loads` before the end marker */
  function Loaded(lines: seq<string>): seq<string> {
    Payloads(BeforeDone(lines))
  }

  function Parsed<J>(loads: string -> Option<J>, payloads: seq<string>): seq<J> {
    if payloads == [] then []
    else if loads(payloads[0]).None? then Parsed(loads, payloads[1..])
    else [loads(payloads[0]).value] + Parsed(loads, payloads[1..])
  }

  /** What a stream of lines yields. `loads` stands for `json.loads`, with `None` for its decode error. */
  function Items<J>(loads: string -> Option<J>, lines: seq<string>): seq<J> {
    Parsed(loads, Loaded(lines))
  }

  function Output<J>(loads: string -> Option<J>, chunks: seq<Chunk>): seq<J> {
    Items(loads, Lines(chunks))
  }

  lemma ItemsCons<J>(loads: string -> Option<J>, line: string, later: seq<string>)
    ensures Items(loads, [line] + later) ==
            if IsDone(line) then []
            else if Payload(line).None? || loads(Payload(line).value).None? then Items(loads, later)
            else [loads(Payload(line).value).value] + Items(loads, later)
  {
    var lines := [line] + later;
    assert lines[1..] == later;
    if !IsDone(line) {
      var rest := BeforeDone(later);
      assert BeforeDone(lines) == [line] + rest && ([line] + rest)[1..] == rest;
      if Payload(line).Some? {
        var p, q := Payload(line).value, Payloads(rest);
        assert Payloads([line] + rest) == [p] + q && ([p] + q)[1..] == q;
      }
    }
  }

  /** A line with the end marker ends the items; any other has its data, or itself unless it is blank, parsed. */
  lemma ItemsExactly<J>(loads: string -> Option<J>, line: string, later: seq<string>)
    ensures Items(loads, []) == []
    ensures (exists k: nat :: k <= |line| && "[DONE]" <= line[k..]) ==> Items(loads, [line] + later) == []
    ensures !(exists k: nat :: k <= |line| && "[DONE]" <= line[k..]) ==>
              var blank := forall i :: 0 <= i < |line| ==> IsSpace(line[i]);
              var data := if "data:" <= line then loads(line[5..]) else if blank then None else loads(line);
              Items(loads, [line] + later) == (if data.Some? then [data.value] else []) + Items(loads, later)
  {
    DoneExactly(line);
    ItemsCons(loads, line, later);
    AppendEmpty(Items(loads, later));
  }

  /** The loop over the lines of one chunk; `done` reports the end marker. */
  method StreamLines<J>(loads: string -> Option<J>, lines: seq<string>, ghost later: seq<string>)
    returns (items: seq<J>, done: bool)
    ensures Items(loads, lines + later) == if done then items else items + Items(loads, later)
    ensures done <==> exists i, k: nat ::
                        0 <= i < |lines| && k <= |lines[i]| && "[DONE]" <= lines[i][k..]
  {
    items, done := [], false;
    ghost var all := Items(loads, lines + later);
    assert lines[0..] + later == lines + later;
    for i := 0 to |lines|
      invariant all == items + Items(loads, lines[i..] + later)
      invariant forall j, k: nat :: 0 <= j < i && k <= |lines[j]| ==> !("[DONE]" <= lines[j][k..])
    {
      var line := lines[i];
      assert lines[i..] + later == [line] + (lines[i + 1..] + later);
      ItemsCons(loads, line, lines[i + 1..] + later);
      DoneExactly(line);
      if IsDone(line) {
        return items, true;
      }
      var payload := Payload(line);
      if payload.Some? {
        var data := loads(payload.value);
        if data.Some? {
          ghost var rest := Items(loads, lines[i + 1..] + later);
          assert items + ([data.value] + rest) == items + [data.value] + rest;
          items := items + [data.value];
        }
      }
    }
    assert lines[|lines|..] + later == later;
  }

  lemma LinesCons(chunks: seq<Chunk>, i: nat)
    requires i < |chunks|
    ensures Lines(chunks[i..]) == LinesOfChunk(chunks[i]) + Lines(chunks[i + 1..])
  {
    assert chunks[i..][1..] == chunks[i + 1..];
  }

  /** `__stream__`, run to its end. `consumed` counts the chunks read: the source is always drained. */
  method Stream<J>(loads: string -> Option<J>, chunks: seq<Chunk>) returns (items: seq<J>, consumed: nat)
    ensures items == Output(loads, chunks) == Items(loads, Lines(chunks))
    ensures consumed == |chunks|
  {
    items, consumed := [], 0;
    ghost var rest := Output(loads, chunks);
    assert chunks[0..] == chunks;
    while consumed < |chunks|
      invariant consumed <= |chunks|
      invariant rest == Items(loads, Lines(chunks[consumed..]))
      invariant items + rest == Output(loads, chunks)
    {
      LinesCons(chunks, consumed);
      ghost var later := Lines(chunks[consumed + 1..]);
      var more, done := StreamLines(loads, LinesOfChunk(chunks[consumed]), later);
      consumed := consumed + 1;
      if done {
        items := items + more;
        break;
      }
      rest := Items(loads, later);
      AppendAssociative(items, more, rest);
      items := items + more;
    }
    while consumed < |chunks|
      invariant consumed <= |chunks|
    {
      consumed := consumed + 1;
    }
  }

  // ---------- The end marker ----------

  lemma {:induction false} LinesAppend(a: seq<Chunk>, b: seq<Chunk>)
    ensures Lines(a + b) == Lines(a) + Lines(b)
  {
    if a == [] {
      AppendEmpty(b);
      AppendEmpty(Lines(b));
    } else {
      TailOfAppend(a, b);
      LinesAppend(a[1..], b);
      AppendAssociative(LinesOfChunk(a[0]), Lines(a[1..]), Lines(b));
    }
  }

  predicate HasDone(lines: seq<string>) {
    lines != [] && (IsDone(lines[0]) || HasDone(lines[1..]))
  }

  lemma {:induction false} BeforeDoneAppend(a: seq<string>, b: seq<string>)
    ensures BeforeDone(a + b) == if HasDone(a) then BeforeDone(a) else a + BeforeDone(b)
    ensures HasDone(a) <==> exists i :: 0 <= i < |a| && IsDone(a[i])
  {
    if a == [] {
      AppendEmpty(b);
      AppendEmpty(BeforeDone(b));
    } else {
      TailOfAppend(a, b);
      BeforeDoneAppend(a[1..], b);
      AppendAssociative([a[0]], a[1..], BeforeDone(b));
      assert a == [a[0]] + a[1..];
      assert forall i :: 0 <= i < |a[1..]| ==> a[1..][i] == a[i + 1];
    }
  }

  lemma HasDoneAppend(a: seq<string>, b: seq<string>)
    ensures HasDone(a + b) <==> HasDone(a) || HasDone(b)
  {
    BeforeDoneAppend(a, []);
    BeforeDoneAppend(b, []);
    BeforeDoneAppend(a + b, []);
    assert forall i :: 0 <= i < |a| ==> (a + b)[i] == a[i];
    assert forall i :: 0 <= i < |b| ==> (a + b)[|a| + i] == b[i];
  }

  lemma {:induction false} PrefixInFirstPiece(s: string, t: string)
    requires t <= s && '\n' !in t
    ensures t <= Split(s, '\n')[0]
  {
    if t == "" {
    } else {
      assert t[1..] <= s[1..] && t[0] == s[0] != '\n';
      PrefixInFirstPiece(s[1..], t[1..]);
      assert t == [t[0]] + t[1..];
    }
  }

  /** The marker has no newline in it, so some line of the text holds it whole. */
  lemma {:induction false} DoneInText(text: string)
    requires IsDone(text)
    ensures HasDone(Split(text, '\n'))
  {
    var p := Split(text, '\n');
    if "[DONE]" <= text {
      PrefixInFirstPiece(text, "[DONE]");
    } else {
      DoneInText(text[1..]);
      var q := Split(text[1..], '\n');
      if text[0] == '\n' {
        TailOfAppend([[]], q);
      } else {
        assert p[0][1..] == q[0] && p[1..] == q[1..];
      }
    }
  }

  lemma {:induction false} HasDoneNonEmpty(lines: seq<string>)
    ensures HasDone(NonEmpty(lines)) <==> HasDone(lines)
  {
    if lines == [] {
    } else {
      HasDoneNonEmpty(lines[1..]);
      if lines[0] != "" {
        TailOfAppend([lines[0]], NonEmpty(lines[1..]));
      }
    }
  }

  lemma {:induction false} DoneInChunks(chunks: seq<Chunk>, i: nat)
    requires i < |chunks| && IsDone(chunks[i].text)
    ensures HasDone(Lines(chunks))
  {
    HasDoneAppend(LinesOfChunk(chunks[0]), Lines(chunks[1..]));
    if i > 0 {
      DoneInChunks(chunks[1..], i - 1);
    } else if chunks[0].Bytes? {
      DoneInText(chunks[0].text);
      HasDoneNonEmpty(Split(chunks[0].text, '\n'));
    }
  }

  /** Chunks after one that holds the end marker are read but never seen in the output. */
  lemma NothingAfterDone<J>(loads: string -> Option<J>, a: seq<Chunk>, b: seq<Chunk>)
    requires exists i, k: nat :: 0 <= i < |a| && k <= |a[i].text| && "[DONE]" <= a[i].text[k..]
    ensures Output(loads, a + b) == Output(loads, a)
  {
    var i, k: nat :| 0 <= i < |a| && k <= |a[i].text| && "[DONE]" <= a[i].text[k..];
    DoneExactly(a[i].text);
    DoneInChunks(a, i);
    LinesAppend(a, b);
    BeforeDoneAppend(Lines(a), Lines(b));
  }

  // ---------- Chunk boundaries ----------

  function AsBytes(texts: seq<string>): (chunks: seq<Chunk>)
    ensures |chunks| == |texts| && forall i :: 0 <= i < |chunks| ==> chunks[i] == Bytes(texts[i])
  {
    seq(|texts|, i requires 0 <= i < |texts| => Bytes(texts[i]))
  }

  /** The boundary between `a` and `b` does not fall inside a line. */
  predicate Harmless(a: string, b: string) {
    a == "" || b == "" || a[|a| - 1] == '\n' || b[0] == '\n'
  }

  predicate Aligned(texts: seq<string>) {
    texts == [] || (Harmless(texts[0], Flatten(texts[1..])) && Aligned(texts[1..]))
  }

  lemma {:induction false} NonEmptyAppend(a: seq<string>, b: seq<string>)
    ensures NonEmpty(a + b) == NonEmpty(a) + NonEmpty(b)
  {
    if a == [] {
      AppendEmpty(b);
      AppendEmpty(NonEmpty(b));
    } else {
      TailOfAppend(a, b);
      NonEmptyAppend(a[1..], b);
      AppendAssociative([a[0]], NonEmpty(a[1..]), NonEmpty(b));
    }
  }

  lemma NonEmptyOne(line: string)
    requires line != ""
    ensures NonEmpty([line]) == [line]
  {
    assert [line][1..] == [];
    AppendEmpty([line]);
  }

  lemma LinesOfOne(chunk: Chunk)
    ensures Lines([chunk]) == LinesOfChunk(chunk)
  {
    var one, none: seq<Chunk> := [chunk], [];
    assert one[1..] == none && Lines(none) == [];
    assert Lines(one) == LinesOfChunk(one[0]) + Lines(one[1..]);
    AppendEmpty(LinesOfChunk(chunk));
  }

  /** What lines a chunk has: a string is one line, and the text of bytes is cut at its newlines. */
  lemma LinesExactly(a: string, b: string)
    ensures Lines([]) == [] && Lines([Text(a)]) == [a] && Lines([Bytes("")]) == []
    ensures a != "" && '\n' !in a ==> Lines([Bytes(a)]) == [a]
    ensures Lines([Bytes(a + "\n" + b)]) == Lines([Bytes(a)]) + Lines([Bytes(b)])
  {
    LinesOfOne(Text(a));
    LinesOfOne(Bytes(a));
    LinesOfOne(Bytes(b));
    LinesOfOne(Bytes(a + "\n" + b));
    SplitAtSeparator(a, '\n', b);
    NonEmptyAppend(Split(a, '\n'), Split(b, '\n'));
    if a != "" && '\n' !in a {
      SplitFree(a, '\n');
      NonEmptyOne(a);
    }
  }

  lemma ExtendGlue(c: char, p: seq<string>, q: seq<string>)
    requires p != [] && q != []
    ensures Extend(c, Glue(p, q)) == Glue(Extend(c, p), q)
  {
    if |p| == 1 {
      assert [c] + (p[0] + q[0]) == [c] + p[0] + q[0];
    }
  }

  lemma {:induction false} SplitConcat(a: string, b: string)
    ensures Split(a + b, '\n') == Glue(Split(a, '\n'), Split(b, '\n'))
  {
    var q := Split(b, '\n');
    if a == [] {
      assert a + b == b && [] + q[0] == q[0];
    } else {
      var rest := Split(a[1..], '\n');
      SplitConcat(a[1..], b);
      assert (a + b)[1..] == a[1..] + b;
      if a[0] == '\n' {
        GlueBehind([[]], rest, q);
      } else {
        ExtendGlue(a[0], rest, q);
      }
    }
  }

  lemma NonEmptyOfThree(front: seq<string>, middle: string, back: seq<string>)
    ensures NonEmpty(front + [middle] + back) == NonEmpty(front) + Kept(middle) + NonEmpty(back)
  {
    NonEmptyAppend(front + [middle], back);
    NonEmptyAppend(front, [middle]);
    assert [middle][1..] == [];
  }

  lemma KeptTogether(last: string, first: string)
    ensures last == "" || first == "" ==> Kept(last) + Kept(first) == Kept(last + first)
    ensures last != "" && first != "" ==> |Kept(last) + Kept(first)| == |Kept(last + first)| + 1
  {
    AppendEmpty(last);
    AppendEmpty(first);
    AppendEmpty(Kept(last));
    AppendEmpty(Kept(first));
  }

  /** The non-empty lines of a text, with its last piece apart, and with its first piece apart */
  lemma NonEmptyOfSplit(p: seq<string>)
    requires p != []
    ensures NonEmpty(p) == NonEmpty(Init(p)) + Kept(p[|p| - 1])
    ensures NonEmpty(p) == Kept(p[0]) + NonEmpty(p[1..])
  {
    var none: seq<string> := [];
    NonEmptyOfThree(Init(p), p[|p| - 1], none);
    InitLast(p);
    AppendEmpty(p);
    AppendEmpty(NonEmpty(Init(p)) + Kept(p[|p| - 1]));
    AppendEmpty(NonEmpty(p[1..]));
  }

  lemma GlueParts(p: seq<string>, q: seq<string>)
    requires p != [] && q != []
    ensures NonEmpty(p) == NonEmpty(Init(p)) + Kept(p[|p| - 1]) && NonEmpty(q) == Kept(q[0]) + NonEmpty(q[1..])
    ensures NonEmpty(Glue(p, q)) == NonEmpty(Init(p)) + Kept(p[|p| - 1] + q[0]) + NonEmpty(q[1..])
  {
    NonEmptyOfThree(Init(p), p[|p| - 1] + q[0], q[1..]);
    NonEmptyOfSplit(p);
    NonEmptyOfSplit(q);
  }

  /** The lines of two texts and of their concatenation: what comes before the seam, at it, and behind it */
  lemma SeamParts(a: string, b: string) returns (x: seq<string>, last: string, first: string, y: seq<string>)
    ensures var p, q := Split(a, '\n'), Split(b, '\n');
            last == p[|p| - 1] && first == q[0] && (Harmless(a, b) <==> last == "" || first == "")
    ensures NonEmpty(Split(a, '\n')) == x + Kept(last)
    ensures NonEmpty(Split(b, '\n')) == Kept(first) + y
    ensures NonEmpty(Split(a + b, '\n')) == x + Kept(last + first) + y
  {
    var p, q := Split(a, '\n'), Split(b, '\n');
    x, last, first, y := NonEmpty(Init(p)), p[|p| - 1], q[0], NonEmpty(q[1..]);
    SplitConcat(a, b);
    GlueParts(p, q);
    OuterPieces(a, '\n');
    OuterPieces(b, '\n');
  }

  /** A harmless boundary leaves the lines alone; any other makes two of one. */
  lemma Seam(a: string, b: string)
    ensures var both := NonEmpty(Split(a + b, '\n'));
            var apart := NonEmpty(Split(a, '\n')) + NonEmpty(Split(b, '\n'));
            if Harmless(a, b) then both == apart else |both| == |apart| - 1
  {
    var x, last, first, y := SeamParts(a, b);
    KeptTogether(last, first);
    AppendAssociative(x + Kept(last), Kept(first), y);
    AppendAssociative(x, Kept(last), Kept(first));
  }

  lemma {:induction false} LinesOfTexts(texts: seq<string>)
    ensures var apart, both := Lines(AsBytes(texts)), Lines([Bytes(Flatten(texts))]);
            |apart| >= |both| && (apart == both <==> Aligned(texts)) && (|apart| == |both| ==> Aligned(texts))
  {
    var whole := Flatten(texts);
    assert Lines([Bytes(whole)]) == NonEmpty(Split(whole, '\n'));
    if texts == [] {
    } else {
      var first, rest := texts[0], Flatten(texts[1..]);
      LinesOfTexts(texts[1..]);
      assert Lines([Bytes(rest)]) == NonEmpty(Split(rest, '\n'));
      assert AsBytes(texts)[1..] == AsBytes(texts[1..]);
      Seam(first, rest);
    }
  }

  // ---------- What a cut line does to the output ----------

  /** Cutting the line `last + first` in two makes no difference. */
  predicate Quiet(last: string, first: string) {
    if IsDone(last + first) then Blank(last) else Blank(last + first)
  }

  /**
   * Up to the first line with the end marker every boundary is harmless, or it cuts a blank line, or it cuts
   * only blanks off the front of that line.
   */
  predicate Undisturbed(texts: seq<string>) {
    texts == [] ||
    var p, q := Split(texts[0], '\n'), Split(Flatten(texts[1..]), '\n');
    HasDone(p) ||
    ((Harmless(texts[0], Flatten(texts[1..])) || Quiet(p[|p| - 1], q[0])) && Undisturbed(texts[1..]))
  }

  /** More payloads, or as many but shorter ones */
  predicate Finer(q: seq<string>, r: seq<string>) {
    |q| > |r| || (|q| == |r| && |Flatten(q)| < |Flatten(r)|)
  }

  lemma FinerAppend(x: seq<string>, q: seq<string>, r: seq<string>)
    ensures Finer(x + q, x + r) <==> Finer(q, r)
  {
    FlattenAppend(x, q);
    FlattenAppend(x, r);
  }

  function PayloadOf(line: string): seq<string> {
    if Payload(line).Some? then [Payload(line).value] else []
  }

  lemma LoadedCons(line: string, later: seq<string>)
    ensures Loaded([line] + later) == if IsDone(line) then [] else PayloadOf(line) + Loaded(later)
  {
    TailOfAppend([line], later);
    if !IsDone(line) {
      TailOfAppend([line], BeforeDone(later));
      AppendEmpty(Loaded(later));
    }
  }

  lemma {:induction false} LoadedAppend(a: seq<string>, b: seq<string>)
    ensures HasDone(a) ==> Loaded(a + b) == Loaded(a)
    ensures !HasDone(a) ==> Loaded(a + b) == Loaded(a) + Loaded(b)
  {
    if a == [] {
      AppendEmpty(b);
      AppendEmpty(Loaded(b));
    } else {
      LoadedAppend(a[1..], b);
      LoadedCons(a[0], a[1..]);
      LoadedCons(a[0], a[1..] + b);
      assert a == [a[0]] + a[1..];
      AppendAssociative([a[0]], a[1..], b);
      AppendAssociative(PayloadOf(a[0]), Loaded(a[1..]), Loaded(b));
    }
  }

  lemma {:induction false} ContainsAround(s: string, t: string, u: string)
    ensures Contains(s, t) || Contains(u, t) ==> Contains(s + u, t)
  {
    if s == "" {
      AppendEmpty(u);
    } else {
      TailOfAppend(s, u);
      ContainsAround(s[1..], t, u);
      if t <= s {
        assert t <= s + u;
      }
    }
  }

  lemma {:induction false} BlankBeforeDone(last: string, first: string)
    requires Blank(last) && IsDone(last + first)
    ensures IsDone(first)
  {
    if last == "" {
      AppendEmpty(first);
    } else {
      TailOfAppend(last, first);
      assert IsSpace(last[0]) && "[DONE]"[0] == '[';
      BlankBeforeDone(last[1..], first);
    }
  }

  lemma PayloadOfBlank(line: string)
    ensures PayloadOf(line) == [] <==> Blank(line)
    ensures |Flatten(PayloadOf(line))| == if Blank(line) then 0 else if "data:" <= line then |line| - 5 else |line|
  {
    if "data:" <= line {
      assert line[0] == 'd' && !IsSpace('d');
    }
    if PayloadOf(line) != [] {
      FlattenOne(Payload(line).value);
    }
  }

  lemma BlankConcat(last: string, first: string)
    ensures Blank(last + first) <==> Blank(last) && Blank(first)
  {
    var line := last + first;
    assert forall i :: 0 <= i < |last| ==> line[i] == last[i];
    assert forall i :: 0 <= i < |first| ==> first[i] == line[|last| + i];
  }

  /** A cut inside `data:` leaves no blank on either side of it. */
  lemma CutMarker(last: string, first: string)
    requires last != "" && first != ""
    ensures "data:" <= last + first ==> last[0] == 'd' && ("data:" <= last || !IsSpace(first[0]))
  {
    var line := last + first;
    assert line[0] == last[0] && line[|last|] == first[0];
    assert |last| < 5 && "data:" <= line ==> first[0] == "data:"[|last|];
  }

  /** What one non-blank piece of a line yields is shorter than what the line yields. */
  lemma CutPayloadShorter(last: string, first: string)
    requires last != "" && first != "" && (Blank(last) <==> !Blank(first))
    ensures |Flatten(PayloadOf(last))| + |Flatten(PayloadOf(first))| < |Flatten(PayloadOf(last + first))|
  {
    var line := last + first;
    PayloadOfBlank(last);
    PayloadOfBlank(first);
    PayloadOfBlank(line);
    BlankConcat(last, first);
    CutMarker(last, first);
  }

  /** A cut at the end marker */
  lemma CutDone(last: string, first: string, y: seq<string>, q: seq<string>)
    requires IsDone(last + first)
    requires q == Loaded([first] + y) || Finer(q, Loaded([first] + y))
    ensures var apart, both := PayloadOf(last) + q, Loaded([last + first] + y);
            if Blank(last) && q == Loaded([first] + y) then apart == both else Finer(apart, both)
  {
    LoadedCons(last + first, y);
    LoadedCons(first, y);
    AppendEmpty(q);
    PayloadOfBlank(last);
    if Blank(last) {
      BlankBeforeDone(last, first);
    }
  }

  lemma CutFiner(last: seq<string>, first: seq<string>, line: seq<string>, q: seq<string>, y: seq<string>)
    requires |line| == 1 <= |last| + |first|
    requires |last| + |first| == 1 ==> |Flatten(last)| + |Flatten(first)| < |Flatten(line)|
    requires q == first + y || Finer(q, first + y)
    ensures Finer(last + q, line + y)
  {
    FlattenAppend(last, q);
    FlattenAppend(first, y);
    FlattenAppend(line, y);
  }

  lemma CutOther(last: string, first: string, y: seq<string>, q: seq<string>)
    requires last != "" && first != "" && !IsDone(last + first)
    requires q == Loaded([first] + y) || Finer(q, Loaded([first] + y))
    ensures var apart, both := PayloadOf(last) + q, Loaded([last + first] + y);
            if Blank(last + first) && q == Loaded([first] + y) then apart == both else Finer(apart, both)
  {
    LoadedCons(last + first, y);
    ContainsAround(last, "[DONE]", first);
    LoadedCons(first, y);
    PayloadOfBlank(last);
    PayloadOfBlank(first);
    PayloadOfBlank(last + first);
    BlankConcat(last, first);
    if Blank(last + first) {
      AppendEmpty(q);
    } else {
      if Blank(last) != Blank(first) {
        CutPayloadShorter(last, first);
      }
      CutFiner(PayloadOf(last), PayloadOf(first), PayloadOf(last + first), q, Loaded(y));
    }
  }

  lemma CutLine(last: string, first: string, y: seq<string>, q: seq<string>)
    requires last != "" && first != ""
    requires q == Loaded([first] + y) || Finer(q, Loaded([first] + y))
    ensures var apart, both := PayloadOf(last) + q, Loaded([last + first] + y);
            if Quiet(last, first) && q == Loaded([first] + y) then apart == both else Finer(apart, both)
  {
    if IsDone(last + first) {
      CutDone(last, first, y, q);
    } else {
      CutOther(last, first, y, q);
    }
  }

  lemma NotDone(x: seq<string>, last: string)
    requires !HasDone(x + [last])
    ensures !HasDone(x) && !IsDone(last)
  {
    HasDoneAppend(x, [last]);
  }

  lemma LoadedOne(line: string)
    ensures Loaded([line]) == if IsDone(line) then [] else PayloadOf(line)
  {
    LoadedCons(line, []);
    AppendEmpty([line]);
    AppendEmpty(PayloadOf(line));
  }

  lemma CutLines(x: seq<string>, last: string, first: string, y: seq<string>, q: seq<string>)
    requires last != "" && first != "" && !HasDone(x + [last])
    requires q == Loaded([first] + y) || Finer(q, Loaded([first] + y))
    ensures var apart, both := Loaded(x + [last]) + q, Loaded(x + [last + first] + y);
            if Quiet(last, first) && q == Loaded([first] + y) then apart == both else Finer(apart, both)
  {
    var both := Loaded([last + first] + y);
    NotDone(x, last);
    LoadedAppend(x, [last]);
    LoadedOne(last);
    LoadedAppend(x, [last + first] + y);
    AppendAssociative(x, [last + first], y);
    AppendAssociative(Loaded(x), PayloadOf(last), q);
    CutLine(last, first, y, q);
    FinerAppend(Loaded(x), PayloadOf(last) + q, both);
  }

  lemma CutSeam(a: string, b: string, q: seq<string>)
    requires !Harmless(a, b) && !HasDone(Split(a, '\n'))
    requires q == Loaded(NonEmpty(Split(b, '\n'))) || Finer(q, Loaded(NonEmpty(Split(b, '\n'))))
    ensures var p, r := Split(a, '\n'), Split(b, '\n');
            var apart, both := Loaded(NonEmpty(p)) + q, Loaded(NonEmpty(Split(a + b, '\n')));
            if Quiet(p[|p| - 1], r[0]) && q == Loaded(NonEmpty(r)) then apart == both else Finer(apart, both)
  {
    var x, last, first, y := SeamParts(a, b);
    HasDoneNonEmpty(Split(a, '\n'));
    CutLines(x, last, first, y, q);
  }

  /** The seam between `a` and what follows it, where `q` is what the chunks after `a` yield */
  lemma LoadedSeam(a: string, b: string, q: seq<string>)
    requires q == Loaded(NonEmpty(Split(b, '\n'))) || Finer(q, Loaded(NonEmpty(Split(b, '\n'))))
    requires !HasDone(Split(a, '\n'))
    ensures var p, r := Split(a, '\n'), Split(b, '\n');
            var apart, both := Loaded(NonEmpty(p)) + q, Loaded(NonEmpty(Split(a + b, '\n')));
            if (Harmless(a, b) || Quiet(p[|p| - 1], r[0])) && q == Loaded(NonEmpty(r)) then apart == both
            else Finer(apart, both)
  {
    var p, r := Split(a, '\n'), Split(b, '\n');
    HasDoneNonEmpty(p);
    if Harmless(a, b) {
      Seam(a, b);
      LoadedAppend(NonEmpty(p), NonEmpty(r));
      FinerAppend(Loaded(NonEmpty(p)), q, Loaded(NonEmpty(r)));
    } else {
      CutSeam(a, b, q);
    }
  }

  lemma DoneInLast(x: seq<string>, last: string)
    requires HasDone(x + Kept(last)) && !HasDone(x)
    ensures last != "" && IsDone(last)
  {
    HasDoneAppend(x, Kept(last));
  }

  lemma DoneBeforeCut(x: seq<string>, last: string, first: string, y: seq<string>)
    requires HasDone(x + Kept(last))
    ensures Loaded(x + Kept(last + first) + y) == Loaded(x + Kept(last))
  {
    AppendAssociative(x, Kept(last + first), y);
    LoadedAppend(x, Kept(last + first) + y);
    LoadedAppend(x, Kept(last));
    if !HasDone(x) {
      DoneInLast(x, last);
      ContainsAround(last, "[DONE]", first);
      LoadedOne(last);
      LoadedCons(last + first, y);
    }
  }

  /** Behind an end marker nothing matters, not even how its line goes on. */
  lemma DoneBeforeSeam(a: string, b: string)
    requires HasDone(Split(a, '\n'))
    ensures Loaded(NonEmpty(Split(a + b, '\n'))) == Loaded(NonEmpty(Split(a, '\n')))
  {
    var x, last, first, y := SeamParts(a, b);
    HasDoneNonEmpty(Split(a, '\n'));
    DoneBeforeCut(x, last, first, y);
  }

  lemma LinesOfFirst(texts: seq<string>)
    requires texts != []
    ensures Lines(AsBytes(texts)) == NonEmpty(Split(texts[0], '\n')) + Lines(AsBytes(texts[1..]))
    ensures Lines([Bytes(Flatten(texts))]) == NonEmpty(Split(texts[0] + Flatten(texts[1..]), '\n'))
    ensures Lines([Bytes(Flatten(texts[1..]))]) == NonEmpty(Split(Flatten(texts[1..]), '\n'))
  {
    assert AsBytes(texts)[1..] == AsBytes(texts[1..]);
  }

  lemma LoadedFirst(a: string, b: string, later: seq<string>)
    requires var whole := Loaded(NonEmpty(Split(b, '\n')));
             Loaded(later) == whole || Finer(Loaded(later), whole)
    ensures var p, r := Split(a, '\n'), Split(b, '\n');
            var apart, both := Loaded(NonEmpty(p) + later), Loaded(NonEmpty(Split(a + b, '\n')));
            if HasDone(p) || ((Harmless(a, b) || Quiet(p[|p| - 1], r[0])) && Loaded(later) == Loaded(NonEmpty(r)))
            then apart == both else Finer(apart, both)
  {
    var p := Split(a, '\n');
    HasDoneNonEmpty(p);
    LoadedAppend(NonEmpty(p), later);
    if HasDone(p) {
      DoneBeforeSeam(a, b);
    } else {
      LoadedSeam(a, b, Loaded(later));
    }
  }

  /** The texts loaded are those of the undivided text exactly for the undisturbed divisions. */
  lemma {:induction false} LoadedOfTexts(texts: seq<string>)
    ensures var apart, both := Loaded(Lines(AsBytes(texts))), Loaded(Lines([Bytes(Flatten(texts))]));
            if Undisturbed(texts) then apart == both else Finer(apart, both)
  {
    if texts == [] {
    } else {
      LoadedOfTexts(texts[1..]);
      LinesOfFirst(texts);
      LoadedFirst(texts[0], Flatten(texts[1..]), Lines(AsBytes(texts[1..])));
    }
  }

  /** A `loads` that shows everything it is given */
  function AsIs(text: string): (r: Option<string>)
    ensures r == Some(text)
  {
    Some(text)
  }

  lemma {:induction false} ParsedAsIs(payloads: seq<string>)
    ensures Parsed(AsIs, payloads) == payloads
  {
    if payloads == [] {
    } else {
      ParsedAsIs(payloads[1..]);
      assert payloads == [payloads[0]] + payloads[1..];
    }
  }

  /** What is handed to `json.loads` is what comes out if that lets everything through. */
  lemma LoadedIsItems(lines: seq<string>)
    ensures Loaded(lines) == Items(AsIs, lines)
  {
    ParsedAsIs(Loaded(lines));
  }

  /** Two streams yield the same for all `loads` exactly when the same texts are loaded. */
  lemma OutputsAgree(a: seq<Chunk>, b: seq<Chunk>)
    ensures (forall loads: string -> Option<string> :: Output(loads, a) == Output(loads, b))
       <==> Loaded(Lines(a)) == Loaded(Lines(b))
  {
    ParsedAsIs(Loaded(Lines(a)));
    ParsedAsIs(Loaded(Lines(b)));
    assert Output(AsIs, a) == Loaded(Lines(a)) && Output(AsIs, b) == Loaded(Lines(b));
  }

  lemma {:induction false} AlignedIsUndisturbed(texts: seq<string>)
    requires Aligned(texts)
    ensures Undisturbed(texts)
  {
    if texts == [] {
    } else {
      AlignedIsUndisturbed(texts[1..]);
    }
  }

  /**
   * The lines are those of the undivided text exactly when no boundary cuts a line. The texts handed to
   * `json.loads`, and with them the output for all `loads`, are those of the undivided text exactly when the
   * division is undisturbed.
   */
  lemma {:induction false} ChunkingIrrelevant(texts: seq<string>)
    ensures Lines(AsBytes(texts)) == Lines([Bytes(Flatten(texts))]) <==> Aligned(texts)
    ensures Loaded(Lines(AsBytes(texts))) == Loaded(Lines([Bytes(Flatten(texts))])) <==> Undisturbed(texts)
    ensures (forall loads: string -> Option<string> ::
               Output(loads, AsBytes(texts)) == Output(loads, [Bytes(Flatten(texts))]))
       <==> Undisturbed(texts)
    ensures Aligned(texts) ==> Undisturbed(texts)
  {
    LinesOfTexts(texts);
    LoadedOfTexts(texts);
    if Aligned(texts) {
      AlignedIsUndisturbed(texts);
    }
    OutputsAgree(AsBytes(texts), [Bytes(Flatten(texts))]);
  }

  /** Whatever `loads` yields, an undisturbed division yields the same. */
  lemma UndisturbedOutput<J>(loads: string -> Option<J>, texts: seq<string>)
    requires Undisturbed(texts)
    ensures Output(loads, AsBytes(texts)) == Output(loads, [Bytes(Flatten(texts))])
  {
    LoadedOfTexts(texts);
  }

  lemma {:induction false} NoBracketNotDone(line: string)
    requires '[' !in line
    ensures !IsDone(line)
  {
    if line == "" {
    } else {
      NoBracketNotDone(line[1..]);
      assert "[DONE]"[0] == '[';
    }
  }

  predicate PlainLine(line: string) {
    line != "" && '\n' !in line && '[' !in line
  }

  lemma PlainPayloads()
    ensures PlainLine("data:a") && PayloadOf("data:a") == ["a"]
    ensures PlainLine("b") && PayloadOf("b") == ["b"]
    ensures PlainLine("data:ab") && PayloadOf("data:ab") == ["ab"]
  {
    assert "data:a"[5..] == "a" && "data:ab"[5..] == "ab" && !IsSpace("b"[0]);
  }

  lemma LoadedOfPlainLine(line: string)
    requires PlainLine(line)
    ensures Lines([Bytes(line)]) == [line] && !HasDone([line]) && Loaded([line]) == PayloadOf(line)
  {
    LinesExactly(line, "");
    AppendEmpty([line]);
    assert [line][1..] == [];
    NoBracketNotDone(line);
    LoadedOne(line);
  }

  lemma LoadedOfTwo(a: string, b: string)
    requires PlainLine(a) && PlainLine(b)
    ensures Loaded(Lines(AsBytes([a, b]))) == PayloadOf(a) + PayloadOf(b)
  {
    assert AsBytes([a, b]) == [Bytes(a)] + [Bytes(b)];
    LinesAppend([Bytes(a)], [Bytes(b)]);
    LoadedOfPlainLine(a);
    LoadedOfPlainLine(b);
    LoadedAppend([a], [b]);
  }

  /** One boundary inside a line makes two payloads of one. */
  lemma CutLineMisleads()
    ensures Loaded(Lines(AsBytes(["data:a", "b"]))) == ["a", "b"]
    ensures Loaded(Lines([Bytes("data:ab")])) == ["ab"]
  {
    PlainPayloads();
    LoadedOfTwo("data:a", "b");
    LoadedOfPlainLine("data:ab");
    assert ["a"] + ["b"] == ["a", "b"];
  }

  lemma NoDoneInParts(x: seq<string>, last: string, first: string, y: seq<string>)
    requires !HasDone(x + Kept(last + first) + y)
    ensures !HasDone(x + Kept(last)) && !HasDone(Kept(last + first))
  {
    ContainsAround(last, "[DONE]", first);
    HasDoneAppend(x + Kept(last + first), y);
    HasDoneAppend(x, Kept(last + first));
    HasDoneAppend(x, Kept(last));
  }

  lemma NoDoneInPart(a: string, b: string)
    requires !HasDone(NonEmpty(Split(a + b, '\n')))
    ensures !HasDone(Split(a, '\n'))
  {
    var x, last, first, y := SeamParts(a, b);
    HasDoneNonEmpty(Split(a, '\n'));
    NoDoneInParts(x, last, first, y);
  }

  /** Where every line counts, and there is no end marker, no boundary may cut a line. */
  lemma {:induction false} AlignedIfEveryLineCounts(texts: seq<string>)
    requires !HasDone(Lines([Bytes(Flatten(texts))]))
    requires forall line <- Lines([Bytes(Flatten(texts))]) :: !Blank(line)
    ensures Undisturbed(texts) <==> Aligned(texts)
  {
    if texts == [] {
    } else {
      var a, b := texts[0], Flatten(texts[1..]);
      assert Lines([Bytes(a + b)]) == NonEmpty(Split(a + b, '\n'));
      assert Lines([Bytes(b)]) == NonEmpty(Split(b, '\n'));
      NoDoneInPart(a, b);
      if Harmless(a, b) {
        Seam(a, b);
        HasDoneAppend(NonEmpty(Split(a, '\n')), NonEmpty(Split(b, '\n')));
        AlignedIfEveryLineCounts(texts[1..]);
      } else {
        var x, last, first, y := SeamParts(a, b);
        NoDoneInParts(x, last, first, y);
        assert last + first in Kept(last + first);
      }
    }
  }

  /** In particular every division after newlines is aligned. */
  lemma {:induction false} DivisionAfterNewlines(texts: seq<string>)
    requires forall i :: 0 <= i < |texts| - 1 ==> texts[i] == "" || texts[i][|texts[i]| - 1] == '\n'
    ensures Aligned(texts)
  {
    if |texts| > 1 {
      DivisionAfterNewlines(texts[1..]);
    } else if |texts| == 1 {
      assert Flatten(texts[1..]) == "";
      assert texts[1..] == [];
    }
  }

  // ---------- Agreement with the full decoder ----------

  /** A stream of events that have one data line each. */
  function DataEvents(values: seq<string>): string {
    if values == [] then "" else "data:" + values[0] + "\n\n" + DataEvents(values[1..])
  }

  function DataEventLines(values: seq<string>): seq<string> {
    if values == [] then [] else ["data:" + values[0], ""] + DataEventLines(values[1..])
  }

  lemma SplitDataEvent(line: string, rest: string)
    requires '\n' !in line
    ensures Split(line + "\n\n" + rest, '\n') == [line, ""] + Split(rest, '\n')
  {
    var none, newline: string := "", ['\n'];
    SplitFree(line, '\n');
    SplitAtSeparator(line, '\n', newline + rest);
    SplitAtSeparator(none, '\n', rest);
    AppendEmpty(newline);
    assert "\n\n" == newline + newline;
    AppendAssociative(line, newline, newline);
    AppendAssociative(line + newline, newline, rest);
    AppendAssociative([line], [none], Split(rest, '\n'));
    assert [line] + [none] == [line, ""];
  }

  lemma {:induction false} LinesOfDataEvents(values: seq<string>)
    requires forall v <- values :: '\n' !in v
    ensures Split(DataEvents(values), '\n') == DataEventLines(values) + [""]
  {
    if values == [] {
    } else {
      LinesOfDataEvents(values[1..]);
      SplitDataEvent("data:" + values[0], DataEvents(values[1..]));
    }
  }

  lemma {:induction false} PayloadsOfDataEvents(values: seq<string>)
    requires forall v <- values :: !IsDone("data:" + v)
    ensures var lines := NonEmpty(DataEventLines(values) + [""]);
            Loaded(lines) == values && !HasDone(lines) && forall line <- lines :: !Blank(line)
  {
    if values == [] {
    } else {
      var line, rest := "data:" + values[0], DataEventLines(values[1..]);
      PayloadsOfDataEvents(values[1..]);
      assert DataEventLines(values) + [""] == [line, ""] + (rest + [""]);
      NonEmptyAppend([line, ""], rest + [""]);
      assert NonEmpty([line, ""]) == [line] by {
        assert [line, ""][1..] == [""] && [""][1..] == [];
      }
      var lines := [line] + NonEmpty(rest + [""]);
      assert lines[1..] == NonEmpty(rest + [""]);
      assert BeforeDone(lines)[1..] == BeforeDone(lines[1..]);
      assert line[5..] == values[0];
      assert line[0] == 'd' && !IsSpace('d');
    }
  }

  lemma DecodeDataEvent(toInt: string -> Option<int>, value: string)
    ensures Sse.Run(toInt, Sse.INIT, ["data:" + value, ""])
         == (Sse.INIT, [Sse.ServerSentEvent(None, Sse.DropSpace(value), None, None)])
  {
    var line := "data:" + value;
    assert line[4] == ':' && forall i :: 0 <= i < 4 ==> line[i] == "data"[i];
    assert Find(line, ':') == 4;
    assert line[..4] == "data" && line[5..] == value;
    assert [line, ""] == [line] + [""] && [line] == [] + [line];
    Sse.RunSnoc(toInt, Sse.INIT, [], line);
    Sse.RunSnoc(toInt, Sse.INIT, [line], "");
    var held := Sse.INIT.(data := [Sse.DropSpace(value)]);
    assert Sse.FieldValue(line) == Sse.DropSpace(value) && [] + [Sse.DropSpace(value)] == [Sse.DropSpace(value)];
    assert Sse.Step(toInt, Sse.INIT, line) == (held, None);
    assert Sse.Step(toInt, held, "").1 == Some(Sse.ServerSentEvent(None, Sse.DropSpace(value), None, None));
    assert [] + [Sse.Step(toInt, held, "").1.value] == [Sse.Step(toInt, held, "").1.value];
  }

  lemma {:induction false} DecodeDataEvents(toInt: string -> Option<int>, values: seq<string>)
    ensures var events := Sse.Decode(toInt, DataEventLines(values));
            |events| == |values| &&
            forall i :: 0 <= i < |events| ==>
                          events[i] == Sse.ServerSentEvent(None, Sse.DropSpace(values[i]), None, None)
    decreases |values|
  {
    if values == [] {
    } else {
      DecodeDataEvents(toInt, values[1..]);
      DecodeDataEvent(toInt, values[0]);
      Sse.RunAppend(toInt, Sse.INIT, ["data:" + values[0], ""], DataEventLines(values[1..]));
    }
  }

  lemma {:induction false} EndsInitial(toInt: string -> Option<int>, values: seq<string>)
    ensures Sse.Run(toInt, Sse.INIT, DataEventLines(values)).0 == Sse.INIT
    decreases |values|
  {
    if values == [] {
    } else {
      EndsInitial(toInt, values[1..]);
      DecodeDataEvent(toInt, values[0]);
      Sse.RunAppend(toInt, Sse.INIT, ["data:" + values[0], ""], DataEventLines(values[1..]));
    }
  }

  lemma FinalBlank(toInt: string -> Option<int>, values: seq<string>)
    ensures Sse.Decode(toInt, DataEventLines(values) + [""]) == Sse.Decode(toInt, DataEventLines(values))
  {
    EndsInitial(toInt, values);
    Sse.RunSnoc(toInt, Sse.INIT, DataEventLines(values), "");
  }

  lemma {:induction false} MarkerBehindData(value: string, name: string)
    requires '[' !in name
    ensures IsDone(name + value) <==> IsDone(value)
  {
    if name == "" {
      AppendEmpty(value);
    } else {
      TailOfAppend(name, value);
      MarkerBehindData(value, name[1..]);
      assert "[DONE]"[0] == '[';
    }
  }

  lemma NoMarkerInLines(values: seq<string>)
    requires forall v <- values, k: nat :: k <= |v| ==> !("[DONE]" <= v[k..])
    ensures forall v <- values :: !IsDone("data:" + v)
  {
    forall v <- values
      ensures !IsDone("data:" + v)
    {
      DoneExactly(v);
      MarkerBehindData(v, "data:");
    }
  }

  lemma StreamOfDataEvents(values: seq<string>, texts: seq<string>)
    requires forall v <- values :: '\n' !in v && !IsDone("data:" + v)
    requires Flatten(texts) == DataEvents(values)
    ensures Loaded(Lines(AsBytes(texts))) == values <==> Aligned(texts)
  {
    LinesOfDataEvents(values);
    PayloadsOfDataEvents(values);
    LinesOfOne(Bytes(DataEvents(values)));
    LoadedOfTexts(texts);
    AlignedIfEveryLineCounts(texts);
  }

  /**
   * On single-line data events the decoder yields each value, less one leading space; the stream hands these
   * values to `json.loads` exactly when no boundary cuts a line.
   */
  lemma {:induction false} AgreesWithDecoder(toInt: string -> Option<int>, values: seq<string>, texts: seq<string>)
    requires forall v <- values :: '\n' !in v
    requires forall v <- values, k: nat :: k <= |v| ==> !("[DONE]" <= v[k..])
    requires Flatten(texts) == DataEvents(values)
    ensures Loaded(Lines(AsBytes(texts))) == values <==> Aligned(texts)
    ensures var events := Sse.Decode(toInt, Split(DataEvents(values), '\n'));
            |events| == |values| &&
            forall i :: 0 <= i < |events| ==>
                          if values[i] != "" && values[i][0] == ' ' then values[i] == " " + events[i].data
                          else values[i] == events[i].data
  {
    NoMarkerInLines(values);
    LinesOfDataEvents(values);
    StreamOfDataEvents(values, texts);
    DecodeDataEvents(toInt, values);
    FinalBlank(toInt, values);
  }
}
