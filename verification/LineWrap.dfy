/** Wrapping of help texts: `GetConsoleLength` and `FormatLine` in cmdline.cc. */
module LineWrap {
  import opened Prelude
  import StrSplit

  /** Columns on a console, a tab being eight. */
  function Width(s: string): nat {
    if s == "" then 0 else Width(s[..|s| - 1]) + if s[|s| - 1] == '\t' then 8 else 1
  }

  method GetConsoleLength(str: string) returns (result: nat)
    ensures result == Width(str)
  {
    result := 0;
    for i := 0 to |str|
      invariant result == Width(str[..i])
    {
      assert str[..i + 1][..i] == str[..i];
      result := result + if str[i] == '\t' then 8 else 1;
    }
    assert str[..|str|] == str;
  }

  lemma {:induction false} WidthAppend(s: string, t: string)
    ensures Width(s + t) == Width(s) + Width(t)
    ensures Width(s) == 0 <==> s == ""
    decreases |s| + |t|
  {
    if t == "" {
      assert s + t == s;
      if s != "" {
        assert s == s[..|s| - 1] + [s[|s| - 1]];
      }
    } else {
      WidthAppend(s, t[..|t| - 1]);
      assert (s + t)[..|s + t| - 1] == s + t[..|t| - 1];
    }
  }

  /** A tab counts eight columns, any other character one, and columns add up. */
  lemma WidthExactly(s: string, c: char)
    ensures Width("") == 0
    ensures Width(s + [c]) == Width(s) + if c == '\t' then 8 else 1
  {
    assert (s + [c])[..|s|] == s;
  }

  // ---------- Layouts ----------

  /** One line of output: the prefix, then the words, one space before a word unless nothing precedes it. */
  function Render(prefix: string, words: seq<string>): string {
    if words == [] then ""
    else if |words| == 1 then prefix + words[0]
    else
      var t := Render(prefix, words[..|words| - 1]);
      t + (if t == "" then "" else " ") + words[|words| - 1]
  }

  /** The prefix goes before the first word, and one space before every further word of a line that is not empty. */
  lemma RenderExactly(prefix: string, words: seq<string>, word: string)
    ensures Render(prefix, []) == "" && Render(prefix, [word]) == prefix + word
    ensures words != [] ==>
              var t := Render(prefix, words);
              Render(prefix, words + [word]) == if t == "" then word else t + " " + word
  {
    assert (words + [word])[..|words|] == words;
    AppendEmpty(word);
  }

  /** Only the lines after the first get the indent; the first line's is part of its first word. */
  function PrefixOf(indent: string, i: nat): string {
    if i == 0 then "" else indent
  }

  function RenderLine(indent: string, layout: seq<seq<string>>, i: nat): string
    requires i < |layout|
  {
    Render(PrefixOf(indent, i), layout[i])
  }

  function RenderLines(indent: string, layout: seq<seq<string>>): (lines: seq<string>)
    ensures |lines| == |layout|
    ensures forall i :: 0 <= i < |lines| ==> lines[i] == Render(if i == 0 then "" else indent, layout[i])
  {
    seq(|layout|, i requires 0 <= i < |layout| => RenderLine(indent, layout, i))
  }

  function Text(indent: string, layout: seq<seq<string>>): (text: string)
    ensures text == Join("\n", RenderLines(indent, layout))
  {
    Join("\n", RenderLines(indent, layout))
  }

  /** The word does not go on the line that renders as `t`. */
  predicate Breaks(maxLen: nat, t: string, word: string) {
    t != "" && Width(t) + 1 + Width(word) >= maxLen
  }

  /** Only a first line may be without words. */
  predicate Proper(layout: seq<seq<string>>) {
    layout != [] && forall i :: 1 <= i < |layout| ==> layout[i] != []
  }

  function AddWord(indent: string, maxLen: nat, layout: seq<seq<string>>, word: string): (r: seq<seq<string>>)
    requires Proper(layout)
    ensures Proper(r)
  {
    var n := |layout| - 1;
    if Breaks(maxLen, RenderLine(indent, layout, n), word) then layout + [[word]]
    else layout[..n] + [layout[n] + [word]]
  }

  function Greedy(indent: string, maxLen: nat, words: seq<string>): (layout: seq<seq<string>>)
    ensures Proper(layout)
  {
    if words == [] then [[]]
    else AddWord(indent, maxLen, Greedy(indent, maxLen, words[..|words| - 1]), words[|words| - 1])
  }

  /** The blanks a line starts with */
  function Indent(line: string): string {
    if line == "" || (line[0] != ' ' && line[0] != '\t') then "" else [line[0]] + Indent(line[1..])
  }

  function Separator(t: string): string {
    if t == "" then "" else " "
  }

  function Layout(line: string, maxLen: nat): seq<seq<string>> {
    Greedy(Indent(line), maxLen, StrSplit.Pieces(line, ' '))
  }

  lemma WidthOfBlank()
    ensures Width(" ") == 1 && Width("") == 0
  {
    assert " "[..0] == "";
  }

  /** The body of the loop: the separator, or a line break and the indent, then the word */
  method PutWord(text: string, column: nat, word: string, indent: string, indentLen: nat, maxLen: nat)
    returns (formatted: string, cursor: nat)
    ensures if column != 0 && column + 1 + Width(word) >= maxLen
            then formatted == text + "\n" + (indent + word) && cursor == indentLen + Width(word)
            else && formatted == text + ((if column == 0 then "" else " ") + word)
                 && cursor == column + (if column == 0 then 0 else 1) + Width(word)
  {
    formatted, cursor := text, column;
    var wlen := GetConsoleLength(word);
    var separator := if cursor == 0 then "" else " ";
    var slen := GetConsoleLength(separator);
    WidthOfBlank();
    if cursor != 0 && cursor + slen + wlen >= maxLen {
      formatted := formatted + "\n";
      cursor := 0;
      separator := indent;
      slen := indentLen;
    }
    formatted := formatted + (separator + word);
    cursor := cursor + slen + wlen;
  }

  lemma GreedySnoc(indent: string, maxLen: nat, words: seq<string>, i: nat)
    requires i < |words|
    ensures Greedy(indent, maxLen, words[..i + 1]) == AddWord(indent, maxLen, Greedy(indent, maxLen, words[..i]), words[i])
  {
    assert words[..i + 1][..i] == words[..i];
  }

  lemma TextAfterBreak(indent: string, maxLen: nat, layout: seq<seq<string>>, word: string)
    requires Proper(layout) && Breaks(maxLen, RenderLine(indent, layout, |layout| - 1), word)
    ensures var next := AddWord(indent, maxLen, layout, word);
            && Text(indent, next) == Text(indent, layout) + "\n" + (indent + word)
            && Width(RenderLine(indent, next, |next| - 1)) == Width(indent) + Width(word)
  {
    var lines := RenderLines(indent, layout);
    WidthAppend(indent, word);
    assert RenderLines(indent, layout + [[word]]) == lines + [indent + word];
    JoinSnoc("\n", lines, indent + word);
  }

  lemma RenderSnoc(prefix: string, words: seq<string>, word: string)
    requires words == [] ==> prefix == ""
    ensures var t := Render(prefix, words);
            Render(prefix, words + [word]) == t + (Separator(t) + word)
  {
    assert (words + [word])[..|words|] == words;
  }

  lemma JoinLengthened(lines: seq<string>, t: string, added: string)
    ensures Join("\n", lines + [t + added]) == Join("\n", lines + [t]) + added
  {
    if lines == [] {
      assert lines + [t] == [t] && lines + [t + added] == [t + added];
    } else {
      JoinSnoc("\n", lines, t);
      JoinSnoc("\n", lines, t + added);
      assert Join("\n", lines) + "\n" + (t + added) == Join("\n", lines) + "\n" + t + added;
    }
  }

  lemma TextWithoutBreak(indent: string, maxLen: nat, layout: seq<seq<string>>, word: string)
    requires Proper(layout) && !Breaks(maxLen, RenderLine(indent, layout, |layout| - 1), word)
    ensures var t, next := RenderLine(indent, layout, |layout| - 1), AddWord(indent, maxLen, layout, word);
            && Text(indent, next) == Text(indent, layout) + (Separator(t) + word)
            && Width(RenderLine(indent, next, |next| - 1)) == Width(t) + Width(Separator(t)) + Width(word)
  {
    var n := |layout| - 1;
    var t := RenderLine(indent, layout, n);
    var lines, next := RenderLines(indent, layout), layout[..n] + [layout[n] + [word]];
    var added := Separator(t) + word;
    RenderSnoc(PrefixOf(indent, n), layout[n], word);
    WidthAppend(t, added);
    WidthAppend(Separator(t), word);
    assert RenderLines(indent, next) == lines[..n] + [t + added];
    assert lines == lines[..n] + [t];
    JoinLengthened(lines[..n], t, added);
  }

  /** What one more word does to the text and to the width of its last line `t` */
  lemma NextText(indent: string, maxLen: nat, layout: seq<seq<string>>, t: string, word: string)
    returns (next: seq<seq<string>>, last: string, text: string)
    requires Proper(layout) && t == RenderLine(indent, layout, |layout| - 1)
    ensures next == AddWord(indent, maxLen, layout, word)
    ensures last == RenderLine(indent, next, |next| - 1) && text == Text(indent, next)
    ensures if Width(t) != 0 && Width(t) + 1 + Width(word) >= maxLen
            then && text == Text(indent, layout) + "\n" + (indent + word)
                 && Width(last) == Width(indent) + Width(word)
            else && text == Text(indent, layout) + ((if Width(t) == 0 then "" else " ") + word)
                 && Width(last) == Width(t) + (if Width(t) == 0 then 0 else 1) + Width(word)
  {
    WidthOfBlank();
    WidthAppend(t, "");
    next := AddWord(indent, maxLen, layout, word);
    last, text := RenderLine(indent, next, |next| - 1), Text(indent, next);
    if Breaks(maxLen, t, word) {
      TextAfterBreak(indent, maxLen, layout, word);
    } else {
      TextWithoutBreak(indent, maxLen, layout, word);
    }
  }

  method FormatLine(line: string, maxLen: nat) returns (formatted: string)
    ensures formatted == Text(Indent(line), Layout(line, maxLen))
    ensures formatted == Text(Indent(line), Greedy(Indent(line), maxLen, StrSplit.Pieces(line, ' ')))
  {
    var indent := Indent(line);
    var indentLen := GetConsoleLength(indent);
    var cursor := 0;
    formatted := "";
    var words := StrSplit.Words(line, ' ');
    assert words[..|words|] == words;
    ghost var layout, last := [[]], "";
    WidthOfBlank();
    assert RenderLines(indent, layout) == [""];
    for i := 0 to |words|
      invariant layout == Greedy(indent, maxLen, words[..i])
      invariant last == RenderLine(indent, layout, |layout| - 1)
      invariant formatted == Text(indent, layout) && cursor == Width(last)
    {
      var word := words[i];
      ghost var next, t, text := NextText(indent, maxLen, layout, last, word);
      GreedySnoc(indent, maxLen, words, i);
      formatted, cursor := PutWord(formatted, cursor, word, indent, indentLen, maxLen);
      layout, last := next, t;
    }
  }

  const MAX_LENGTH: nat := 80

  /** The lines of a help text, each behind a tab, wrapped and ended by a newline */
  function Description(lines: seq<string>): string {
    if lines == [] then ""
    else
      var line := "\t" + lines[|lines| - 1];
      Description(lines[..|lines| - 1]) + (Text(Indent(line), Layout(line, MAX_LENGTH)) + "\n")
  }

  /** Every line of a help text is put behind a tab and laid out in 80 columns, and a newline ends it. */
  lemma DescriptionExactly(lines: seq<string>, line: string)
    ensures Description([]) == ""
    ensures var tabbed := "\t" + line;
            Description(lines + [line]) ==
            Description(lines) + (Text(Indent(tabbed), Greedy(Indent(tabbed), 80, StrSplit.Pieces(tabbed, ' '))) + "\n")
  {
    assert (lines + [line])[..|lines|] == lines;
  }

  lemma DescriptionNext(lines: seq<string>, i: nat)
    requires i < |lines|
    ensures var line := "\t" + lines[i];
            Description(lines[..i + 1]) ==
            Description(lines[..i]) + (Text(Indent(line), Layout(line, MAX_LENGTH)) + "\n")
  {
    assert lines[..i + 1][..i] == lines[..i];
  }

  method FormatDescription(descr: string) returns (formatted: string)
    ensures formatted == Description(StrSplit.Pieces(descr, '\n'))
  {
    formatted := "";
    var lines := StrSplit.Words(descr, '\n');
    for i := 0 to |lines|
      invariant formatted == Description(lines[..i])
    {
      var wrapped := FormatLine("\t" + lines[i], MAX_LENGTH);
      DescriptionNext(lines, i);
      formatted := formatted + (wrapped + "\n");
    }
    assert lines[..|lines|] == lines;
  }
}
