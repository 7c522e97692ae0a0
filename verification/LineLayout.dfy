/** What the wrapping of `LineWrap` guarantees: nothing lost, no line too wide, no line too many. */
module LineLayout {
  import opened Prelude
  import StrSplit
  import opened LineWrap

  lemma AddWordAppends(indent: string, maxLen: nat, layout: seq<seq<string>>, word: string)
    requires Proper(layout)
    ensures Flatten(AddWord(indent, maxLen, layout, word)) == Flatten(layout) + [word]
  {
    var next, n := AddWord(indent, maxLen, layout, word), |layout| - 1;
    FlattenLast(next);
    FlattenLast(layout);
    if |next| == |layout| {
      assert Init(next) == Init(layout) && next[n] == layout[n] + [word];
      AppendAssociative(Flatten(Init(layout)), layout[n], [word]);
    } else {
      assert Init(next) == layout && next[n + 1] == [word];
    }
  }

  /** Every word is kept, in order. */
  lemma {:induction false} GreedyKeepsWords(indent: string, maxLen: nat, words: seq<string>)
    ensures Flatten(Greedy(indent, maxLen, words)) == words
  {
    if words == [] {
      FlattenOne<string>([]);
    } else {
      GreedyKeepsWords(indent, maxLen, Init(words));
      AddWordAppends(indent, maxLen, Greedy(indent, maxLen, Init(words)), words[|words| - 1]);
      InitLast(words);
    }
  }

  // ---------- Where lines are broken ----------

  /** A word starts a new line only where the line before it is not empty and has no room for it. */
  ghost predicate BreaksNeeded(indent: string, maxLen: nat, layout: seq<seq<string>>) {
    forall i :: 1 <= i < |layout| ==>
      var t := Render(if i == 1 then "" else indent, layout[i - 1]);
      layout[i] != [] && t != "" && Width(t) + 1 + Width(layout[i][0]) >= maxLen
  }

  /** A word goes on with its line only where that is still empty or has room for it. */
  ghost predicate BreaksTaken(indent: string, maxLen: nat, layout: seq<seq<string>>) {
    forall i, j :: 0 <= i < |layout| && 1 <= j < |layout[i]| ==>
      var t := Render(if i == 0 then "" else indent, layout[i][..j]);
      t == "" || Width(t) + 1 + Width(layout[i][j]) < maxLen
  }

  lemma AddWordBreaksNeeded(indent: string, maxLen: nat, layout: seq<seq<string>>, word: string)
    requires Proper(layout) && BreaksNeeded(indent, maxLen, layout)
    ensures BreaksNeeded(indent, maxLen, AddWord(indent, maxLen, layout, word))
  {
    var n, next := |layout| - 1, AddWord(indent, maxLen, layout, word);
    forall i | 1 <= i < |next|
      ensures var t := Render(if i == 1 then "" else indent, next[i - 1]);
              next[i] != [] && t != "" && Width(t) + 1 + Width(next[i][0]) >= maxLen
    {
      assert next[i - 1] == layout[i - 1];
      if i <= n {
        assert next[i][0] == layout[i][0];
      } else {
        assert Breaks(maxLen, RenderLine(indent, layout, n), word) && next[i] == [word];
      }
    }
  }

  lemma AddWordBreaksTaken(indent: string, maxLen: nat, layout: seq<seq<string>>, word: string)
    requires Proper(layout) && BreaksTaken(indent, maxLen, layout)
    ensures BreaksTaken(indent, maxLen, AddWord(indent, maxLen, layout, word))
  {
    var n, next := |layout| - 1, AddWord(indent, maxLen, layout, word);
    forall i, j | 0 <= i < |next| && 1 <= j < |next[i]|
      ensures var t := Render(if i == 0 then "" else indent, next[i][..j]);
              t == "" || Width(t) + 1 + Width(next[i][j]) < maxLen
    {
      assert i <= n && next[i][..j] == layout[i][..j];
      if j < |layout[i]| {
        assert next[i][j] == layout[i][j];
      } else {
        assert i == n && layout[i][..j] == layout[n] && next[i][j] == word;
        assert !Breaks(maxLen, RenderLine(indent, layout, n), word);
      }
    }
  }

  lemma {:induction false} GreedyBreaks(indent: string, maxLen: nat, words: seq<string>)
    ensures BreaksNeeded(indent, maxLen, Greedy(indent, maxLen, words))
    ensures BreaksTaken(indent, maxLen, Greedy(indent, maxLen, words))
  {
    if words == [] {
    } else {
      GreedyBreaks(indent, maxLen, Init(words));
      var layout := Greedy(indent, maxLen, Init(words));
      AddWordBreaksNeeded(indent, maxLen, layout, words[|words| - 1]);
      AddWordBreaksTaken(indent, maxLen, layout, words[|words| - 1]);
    }
  }

  /** The layout is the one in which every line is filled as far as it goes. */
  lemma {:induction false} GreedyExactly(indent: string, maxLen: nat, words: seq<string>)
    ensures var layout := Greedy(indent, maxLen, words);
            && Flatten(layout) == words
            && (forall i :: 1 <= i < |layout| ==>
                  var t := Render(if i == 1 then "" else indent, layout[i - 1]);
                  layout[i] != [] && t != "" && Width(t) + 1 + Width(layout[i][0]) >= maxLen)
            && forall i, j :: 0 <= i < |layout| && 1 <= j < |layout[i]| ==>
                 var t := Render(if i == 0 then "" else indent, layout[i][..j]);
                 t == "" || Width(t) + 1 + Width(layout[i][j]) < maxLen
  {
    GreedyKeepsWords(indent, maxLen, words);
    GreedyBreaks(indent, maxLen, words);
  }

  // ---------- No line is too wide ----------

  function NonEmptyWords(words: seq<string>): nat {
    if words == [] then 0 else NonEmptyWords(Init(words)) + if words[|words| - 1] == "" then 0 else 1
  }

  lemma NonEmptyWordsExactly(words: seq<string>, word: string)
    ensures NonEmptyWords([]) == 0
    ensures NonEmptyWords(words + [word]) == NonEmptyWords(words) + if word == "" then 0 else 1
  {
    InitSnoc(words, word);
  }

  predicate Narrow(indent: string, maxLen: nat, layout: seq<seq<string>>) {
    forall i :: 0 <= i < |layout| ==>
      Width(RenderLine(indent, layout, i)) < maxLen || NonEmptyWords(layout[i]) <= 1
  }

  lemma {:induction false} EmptyLine(prefix: string, words: seq<string>)
    requires Render(prefix, words) == ""
    ensures NonEmptyWords(words) == 0
  {
    if words == [] {
    } else {
      EmptyLine(prefix, Init(words));
    }
  }

  lemma LastLineNarrow(indent: string, maxLen: nat, layout: seq<seq<string>>, word: string)
    requires Proper(layout) && !Breaks(maxLen, RenderLine(indent, layout, |layout| - 1), word)
    ensures var n, next := |layout| - 1, AddWord(indent, maxLen, layout, word);
            Width(RenderLine(indent, next, n)) < maxLen || NonEmptyWords(next[n]) <= 1
  {
    var n := |layout| - 1;
    TextWithoutBreak(indent, maxLen, layout, word);
    WidthOfBlank();
    InitSnoc(layout[n], word);
    if RenderLine(indent, layout, n) == "" {
      EmptyLine(PrefixOf(indent, n), layout[n]);
    }
  }

  lemma AddWordNarrow(indent: string, maxLen: nat, layout: seq<seq<string>>, word: string)
    requires Proper(layout) && Narrow(indent, maxLen, layout)
    ensures Narrow(indent, maxLen, AddWord(indent, maxLen, layout, word))
  {
    var n, next := |layout| - 1, AddWord(indent, maxLen, layout, word);
    var t := RenderLine(indent, layout, n);
    if Breaks(maxLen, t, word) {
      assert RenderLine(indent, next, n) == t;
      InitSnoc([], word);
      assert NonEmptyWords([word]) <= 1;
    } else {
      LastLineNarrow(indent, maxLen, layout, word);
    }
    forall i | 0 <= i < |next|
      ensures Width(RenderLine(indent, next, i)) < maxLen || NonEmptyWords(next[i]) <= 1
    {
      if i < n {
        assert RenderLine(indent, next, i) == RenderLine(indent, layout, i);
      }
    }
  }

  /** Every line is narrower than the limit or has at most one non-empty word. */
  lemma {:induction false} GreedyIsNarrow(indent: string, maxLen: nat, words: seq<string>)
    ensures Narrow(indent, maxLen, Greedy(indent, maxLen, words))
    ensures var layout := Greedy(indent, maxLen, words);
            forall i :: 0 <= i < |layout| ==>
              Width(Render(if i == 0 then "" else indent, layout[i])) < maxLen || NonEmptyWords(layout[i]) <= 1
  {
    if words == [] {
    } else {
      GreedyIsNarrow(indent, maxLen, Init(words));
      AddWordNarrow(indent, maxLen, Greedy(indent, maxLen, Init(words)), words[|words| - 1]);
    }
  }

  lemma {:induction false} RenderWithoutNewline(prefix: string, words: seq<string>)
    requires '\n' !in prefix && forall w <- words :: '\n' !in w
    ensures '\n' !in Render(prefix, words)
  {
    if |words| <= 1 {
    } else {
      RenderWithoutNewline(prefix, Init(words));
    }
  }

  /** The indent is the longest run of blanks that the line starts with. */
  lemma {:induction false} IndentIsLongest(line: string)
    ensures var n := |Indent(line)|;
            && Indent(line) <= line
            && (forall i :: 0 <= i < n ==> line[i] == ' ' || line[i] == '\t')
            && (n < |line| ==> line[n] != ' ' && line[n] != '\t')
  {
    if line == "" || (line[0] != ' ' && line[0] != '\t') {
    } else {
      IndentIsLongest(line[1..]);
    }
  }

  lemma {:induction false} SplitWithin(s: string, delim: char)
    ensures forall w <- Split(s, delim), c <- w :: c in s
  {
    if s == "" {
    } else {
      SplitWithin(s[1..], delim);
    }
  }

  lemma {:induction false} InFlatten<T>(parts: seq<seq<T>>, part: seq<T>, x: T)
    requires part in parts && x in part
    ensures x in Flatten(parts)
  {
    if part == parts[0] {
    } else {
      InFlatten(parts[1..], part, x);
    }
  }

  /** The lines of the text that `FormatLine` returns are the rendered lines of the layout, so they are narrow too. */
  lemma {:induction false} FormattedLines(line: string, maxLen: nat)
    requires '\n' !in line
    ensures var layout := Layout(line, maxLen);
            Split(Text(Indent(line), layout), '\n') == RenderLines(Indent(line), layout)
  {
    var indent, words := Indent(line), StrSplit.Pieces(line, ' ');
    var layout := Greedy(indent, maxLen, words);
    IndentIsLongest(line);
    SplitWithin(line, ' ');
    GreedyKeepsWords(indent, maxLen, words);
    forall i | 0 <= i < |layout|
      ensures '\n' !in RenderLine(indent, layout, i)
    {
      forall w <- layout[i]
        ensures '\n' !in w
      {
        InFlatten(layout, layout[i], w);
        assert w in Split(line, ' ');
      }
      RenderWithoutNewline(PrefixOf(indent, i), layout[i]);
    }
    SplitJoin(RenderLines(indent, layout), '\n');
  }

  /** Line `i` of the layout of `line`, and how wide it can be */
  ghost predicate InLayout(line: string, i: nat, text: string) {
    var layout := Layout(line, MAX_LENGTH);
    && i < |layout| && text == RenderLine(Indent(line), layout, i)
    && (Width(text) < MAX_LENGTH || NonEmptyWords(layout[i]) <= 1)
  }

  lemma InLayoutExactly(line: string, i: nat, text: string)
    ensures InLayout(line, i, text) <==>
            var layout := Greedy(Indent(line), 80, StrSplit.Pieces(line, ' '));
            && i < |layout| && text == Render(if i == 0 then "" else Indent(line), layout[i])
            && (Width(text) < 80 || NonEmptyWords(layout[i]) <= 1)
  {
  }

  /** Apart from a blank one, a line of a help text is a line of the layout of one of its input lines. */
  ghost predicate HelpLine(lines: seq<string>, text: string) {
    text == "" || exists j: nat, i: nat :: j < |lines| && InLayout("\t" + lines[j], i, text)
  }

  /** The lines of a text that ends in a newline, with another such text behind it */
  lemma LinesOfAppended(before: string, wrapped: string)
    requires before == "" || before[|before| - 1] == '\n'
    ensures Split(before + (wrapped + "\n"), '\n') == Init(Split(before, '\n')) + Split(wrapped, '\n') + [""]
  {
    var newline, none: string := ['\n'], "";
    SplitAtSeparator(wrapped, '\n', none);
    AppendEmpty(wrapped + newline);
    if before == "" {
      AppendEmpty(wrapped + newline);
      AppendEmpty(Split(wrapped, '\n'));
    } else {
      var ended := Init(before);
      InitLast(before);
      SplitAtSeparator(ended, '\n', wrapped + newline);
      SplitAtSeparator(ended, '\n', none);
      AppendEmpty(ended + newline);
      InitSnoc(Split(ended, '\n'), none);
      AppendAssociative(Split(ended, '\n'), Split(wrapped, '\n'), [none]);
    }
  }

  /** The lines of all layouts, in order */
  function AllRendered(lines: seq<string>): seq<string> {
    if lines == [] then []
    else
      var line := "\t" + lines[|lines| - 1];
      AllRendered(Init(lines)) + RenderLines(Indent(line), Layout(line, MAX_LENGTH))
  }

  lemma HelpLineSnoc(lines: seq<string>, text: string)
    requires lines != [] && HelpLine(Init(lines), text)
    ensures HelpLine(lines, text)
  {
    if text != "" {
      var j: nat, i: nat :| j < |Init(lines)| && InLayout("\t" + Init(lines)[j], i, text);
      assert Init(lines)[j] == lines[j];
    }
  }

  lemma LastHelpLines(lines: seq<string>)
    requires lines != []
    ensures var line := "\t" + lines[|lines| - 1];
            forall text <- RenderLines(Indent(line), Layout(line, MAX_LENGTH)) :: HelpLine(lines, text)
  {
    var line := "\t" + lines[|lines| - 1];
    var layout := Layout(line, MAX_LENGTH);
    GreedyIsNarrow(Indent(line), MAX_LENGTH, StrSplit.Pieces(line, ' '));
    forall text <- RenderLines(Indent(line), layout)
      ensures HelpLine(lines, text)
    {
      var i: nat :| i < |layout| && text == RenderLine(Indent(line), layout, i);
      assert InLayout(line, i, text);
    }
  }

  /**
   * The lines of a help text are those of the layouts of its input lines, in order; so each is narrower than the
   * limit or has at most one non-empty word of its own input line.
   */
  lemma {:induction false} DescriptionLines(lines: seq<string>)
    requires forall i :: 0 <= i < |lines| ==> '\n' !in lines[i]
    ensures Split(Description(lines), '\n') == AllRendered(lines) + [""]
    ensures forall text <- Split(Description(lines), '\n') :: HelpLine(lines, text)
  {
    if lines == [] {
    } else {
      var before, line := Description(Init(lines)), "\t" + lines[|lines| - 1];
      var layout := Layout(line, MAX_LENGTH);
      DescriptionLines(Init(lines));
      FormattedLines(line, MAX_LENGTH);
      LastHelpLines(lines);
      InitSnoc(AllRendered(Init(lines)), "");
      LinesOfAppended(before, Text(Indent(line), layout));
      forall text <- AllRendered(Init(lines))
        ensures HelpLine(lines, text)
      {
        assert text in AllRendered(Init(lines)) + [""];
        HelpLineSnoc(lines, text);
      }
    }
  }

  // ---------- No layout has fewer lines ----------

  /** Columns of these words with one space between neighbours */
  function WordsWidth(words: seq<string>): nat
    requires words != []
  {
    if |words| == 1 then Width(words[0]) else WordsWidth(Init(words)) + 1 + Width(words[|words| - 1])
  }

  predicate Solid(words: seq<string>) {
    forall i :: 0 <= i < |words| ==> words[i] != ""
  }

  lemma {:induction false} RenderWidth(prefix: string, words: seq<string>)
    requires words != [] && Solid(words)
    ensures Render(prefix, words) != "" && Width(Render(prefix, words)) == Width(prefix) + WordsWidth(words)
  {
    if |words| == 1 {
      WidthAppend(prefix, words[0]);
      assert |prefix + words[0]| > 0;
    } else {
      var word := words[|words| - 1];
      RenderWidth(prefix, Init(words));
      WidthOfBlank();
      WidthAppend(Render(prefix, Init(words)), " ");
      WidthAppend(Render(prefix, Init(words)) + " ", word);
    }
  }

  lemma {:induction false} SuffixNarrower(words: seq<string>, k: nat)
    requires k < |words|
    ensures WordsWidth(words[k..]) <= WordsWidth(words)
  {
    if k < |words| - 1 {
      SuffixNarrower(Init(words), k);
      assert Init(words[k..]) == Init(words)[k..];
    } else {
      assert words[k..] == [words[k]];
    }
  }

  predicate Fits(indent: string, maxLen: nat, layout: seq<seq<string>>) {
    forall i :: 0 <= i < |layout| ==> Width(RenderLine(indent, layout, i)) < maxLen || |layout[i]| <= 1
  }

  /** The last line of `a` is no longer than that of `b`, both ending the same words: then it is a suffix of it. */
  lemma LastLineIsSuffix(words: seq<string>, a: seq<seq<string>>, b: seq<seq<string>>)
    requires a != [] && b != [] && Flatten(a) == words == Flatten(b)
    requires |a[|a| - 1]| <= |b[|b| - 1]|
    ensures var p, q := a[|a| - 1], b[|b| - 1]; p == q[|q| - |p|..]
  {
    FlattenLast(a);
    FlattenLast(b);
    var p, q := a[|a| - 1], b[|b| - 1];
    assert words[|words| - |p|..] == p && words[|words| - |q|..] == q;
  }

  /** If another layout keeps the word on its last line, so does the greedy one. */
  lemma NoNeedToBreak(indent: string, maxLen: nat, n: nat, p: seq<string>, q: seq<string>, word: string)
    requires Solid(q) && word != "" && p != [] && |p| <= |q| && p == q[|q| - |p|..]
    requires Width(Render(PrefixOf(indent, n), q + [word])) < maxLen
    ensures !Breaks(maxLen, Render(PrefixOf(indent, n), p), word)
  {
    var prefix, line := PrefixOf(indent, n), q + [word];
    assert Init(line) == q && line[|line| - 1] == word;
    assert WordsWidth(line) == WordsWidth(q) + 1 + Width(word);
    RenderWidth(prefix, line);
    RenderWidth(prefix, p);
    SuffixNarrower(q, |q| - |p|);
  }

  /** `g` is not behind `other`: not more lines, or as many with no more words on the last. */
  predicate Ahead(g: seq<seq<string>>, other: seq<seq<string>>) {
    g != [] && |g| <= |other| && (|g| == |other| ==> |g[|g| - 1]| <= |other[|other| - 1]|)
  }

  lemma AddingStaysAhead(indent: string, maxLen: nat, g: seq<seq<string>>, other: seq<seq<string>>, line: seq<string>,
                         word: string)
    requires Proper(g) && Ahead(g, other + [line])
    requires |g| == |other| + 1 && g[|other|] != [] ==> !Breaks(maxLen, RenderLine(indent, g, |other|), word)
    ensures Ahead(AddWord(indent, maxLen, g, word), other + [line + [word]])
  {
  }

  /** The same layout without its last word */
  function Shorter(other: seq<seq<string>>): seq<seq<string>>
    requires other != [] && other[|other| - 1] != []
  {
    Init(other) + [Init(other[|other| - 1])]
  }

  lemma FlattenShorter(words: seq<string>, other: seq<seq<string>>)
    requires other != [] && other[|other| - 1] != [] && Flatten(other) == words
    ensures |words| >= |other[|other| - 1]| && words[|words| - 1] == other[|other| - 1][|other[|other| - 1]| - 1]
    ensures Flatten(Shorter(other)) == Init(words)
    ensures Solid(words) ==> Solid(other[|other| - 1])
  {
    FlattenLast(other);
    FlattenLast(Shorter(other));
    assert Init(Shorter(other)) == Init(other);
    var line := other[|other| - 1];
    assert words[|words| - |line|..] == line;
  }

  /** Where the other layout has the last word on a line of several, the greedy one need not break before it. */
  lemma NoBreakBeforeLast(indent: string, maxLen: nat, g: seq<seq<string>>, words: seq<string>, other: seq<seq<string>>)
    requires words != [] && Solid(words) && other != [] && |other[|other| - 1]| > 1
    requires Flatten(other) == words && Width(RenderLine(indent, other, |other| - 1)) < maxLen
    requires |g| == |other| && g[|g| - 1] != [] && Flatten(g) == Init(words) && Ahead(g, Shorter(other))
    ensures !Breaks(maxLen, RenderLine(indent, g, |g| - 1), words[|words| - 1])
  {
    var n := |other| - 1;
    FlattenShorter(words, other);
    InitLast(other[n]);
    LastLineIsSuffix(Init(words), g, Shorter(other));
    NoNeedToBreak(indent, maxLen, n, g[n], Init(other[n]), words[|words| - 1]);
  }

  lemma LongLastLineAhead(indent: string, maxLen: nat, g: seq<seq<string>>, words: seq<string>,
                          other: seq<seq<string>>)
    requires words != [] && Solid(words) && other != [] && |other[|other| - 1]| > 1
    requires Flatten(other) == words && Width(RenderLine(indent, other, |other| - 1)) < maxLen
    requires Proper(g) && Flatten(g) == Init(words) && Ahead(g, Shorter(other))
    ensures Ahead(AddWord(indent, maxLen, g, words[|words| - 1]), other)
  {
    var n := |other| - 1;
    if |g| == n + 1 && g[n] != [] {
      NoBreakBeforeLast(indent, maxLen, g, words, other);
    }
    FlattenShorter(words, other);
    InitLast(other[n]);
    InitLast(other);
    AddingStaysAhead(indent, maxLen, g, Init(other), Init(other[n]), words[|words| - 1]);
  }

  lemma LongLastLine(indent: string, maxLen: nat, words: seq<string>, other: seq<seq<string>>)
    requires words != [] && Solid(words) && other != [] && |other[|other| - 1]| > 1
    requires Flatten(other) == words && Fits(indent, maxLen, other)
    requires Ahead(Greedy(indent, maxLen, Init(words)), Shorter(other))
    ensures Ahead(Greedy(indent, maxLen, words), other)
  {
    GreedyKeepsWords(indent, maxLen, Init(words));
    LongLastLineAhead(indent, maxLen, Greedy(indent, maxLen, Init(words)), words, other);
  }

  lemma ShortLastLine(words: seq<string>, other: seq<seq<string>>)
    requires words != [] && Flatten(other) == words
    ensures other != []
    ensures other[|other| - 1] == [] ==> Flatten(Init(other)) == words
    ensures |other[|other| - 1]| == 1 ==> Flatten(Init(other)) == Init(words)
  {
    FlattenLast(other);
  }

  lemma OneWordAhead(indent: string, maxLen: nat, g: seq<seq<string>>, word: string, other: seq<seq<string>>)
    requires Proper(g) && other != [] && |other[|other| - 1]| == 1
    requires Ahead(g, Init(other)) || g == [[]]
    ensures Ahead(AddWord(indent, maxLen, g, word), other)
  {
  }

  lemma DroppingAWordFits(indent: string, maxLen: nat, other: seq<seq<string>>)
    requires Fits(indent, maxLen, other) && other != [] && |other[|other| - 1]| > 1
    requires Solid(other[|other| - 1])
    ensures Fits(indent, maxLen, Shorter(other))
  {
    var n := |other| - 1;
    var line := other[n];
    var shorter := Shorter(other);
    RenderWidth(PrefixOf(indent, n), line);
    RenderWidth(PrefixOf(indent, n), Init(line));
    forall i | 0 <= i < |shorter|
      ensures Width(RenderLine(indent, shorter, i)) < maxLen || |shorter[i]| <= 1
    {
      if i < n {
        assert RenderLine(indent, shorter, i) == RenderLine(indent, other, i);
      }
    }
  }

  lemma ShorterIsLayout(indent: string, maxLen: nat, words: seq<string>, other: seq<seq<string>>)
    requires words != [] && Solid(words) && other != [] && |other[|other| - 1]| > 1
    requires Flatten(other) == words && Fits(indent, maxLen, other)
    ensures Init(words) != [] && Solid(Init(words))
    ensures Flatten(Shorter(other)) == Init(words) && Fits(indent, maxLen, Shorter(other))
  {
    FlattenShorter(words, other);
    DroppingAWordFits(indent, maxLen, other);
  }

  lemma FitsInit(indent: string, maxLen: nat, other: seq<seq<string>>)
    requires other != [] && Fits(indent, maxLen, other)
    ensures Fits(indent, maxLen, Init(other))
  {
    assert forall i :: 0 <= i < |other| - 1 ==> RenderLine(indent, Init(other), i) == RenderLine(indent, other, i);
  }

  /** The greedy layout is never behind another one. */
  lemma {:induction false} GreedyStaysAhead(indent: string, maxLen: nat, words: seq<string>, other: seq<seq<string>>)
    requires words != [] && Solid(words)
    requires Flatten(other) == words && Fits(indent, maxLen, other)
    ensures Ahead(Greedy(indent, maxLen, words), other)
    decreases |words|, |other|
  {
    ShortLastLine(words, other);
    var line := other[|other| - 1];
    if line == [] {
      FitsInit(indent, maxLen, other);
      GreedyStaysAhead(indent, maxLen, words, Init(other));
    } else if |line| == 1 {
      if Init(words) != [] {
        FitsInit(indent, maxLen, other);
        GreedyStaysAhead(indent, maxLen, Init(words), Init(other));
      }
      OneWordAhead(indent, maxLen, Greedy(indent, maxLen, Init(words)), words[|words| - 1], other);
    } else {
      ShorterIsLayout(indent, maxLen, words, other);
      GreedyStaysAhead(indent, maxLen, Init(words), Shorter(other));
      LongLastLine(indent, maxLen, words, other);
    }
  }

  lemma {:induction false} AllCounted(words: seq<string>)
    requires Solid(words)
    ensures NonEmptyWords(words) == |words|
  {
    if words == [] {
    } else {
      AllCounted(Init(words));
    }
  }

  /** No layout that keeps the words in order and has only fitting lines uses fewer lines. */
  lemma {:induction false} GreedyIsOptimal(indent: string, maxLen: nat, words: seq<string>, other: seq<seq<string>>)
    requires words != [] && Solid(words)
    requires Flatten(other) == words && Fits(indent, maxLen, other)
    ensures |Greedy(indent, maxLen, words)| <= |other|
    ensures Fits(indent, maxLen, Greedy(indent, maxLen, words)) && Flatten(Greedy(indent, maxLen, words)) == words
  {
    GreedyStaysAhead(indent, maxLen, words, other);
    GreedyKeepsWords(indent, maxLen, words);
    GreedyIsNarrow(indent, maxLen, words);
    var g := Greedy(indent, maxLen, words);
    forall i | 0 <= i < |g|
      ensures Width(RenderLine(indent, g, i)) < maxLen || |g[i]| <= 1
    {
      forall j | 0 <= j < |g[i]|
        ensures g[i][j] != ""
      {
        InFlatten(g, g[i], g[i][j]);
      }
      AllCounted(g[i]);
    }
  }
}
