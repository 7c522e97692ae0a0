/** `strSplit` in util.cc: repeated `getline` on a string stream. */
module StrSplit {
  import opened Prelude

  /** The pieces between delimiters, but for an empty one at the very end. */
  function Pieces(s: string, delim: char): (words: seq<string>)
    ensures forall w <- words :: delim !in w
  {
    var all := Split(s, delim);
    if all[|all| - 1] == "" then all[..|all| - 1] else all
  }

  /** How far the word that starts at `i` reaches */
  method WordEnd(s: string, i: nat, delim: char) returns (j: nat)
    requires i <= |s|
    ensures i <= j <= |s| && delim !in s[i..j] && (j < |s| ==> s[j] == delim)
  {
    j := i;
    while j < |s| && s[j] != delim
      invariant i <= j <= |s| && delim !in s[i..j]
    {
      j := j + 1;
    }
  }

  /** The pieces after the one that starts at `i` and ends before `j` */
  lemma SplitWord(s: string, i: nat, j: nat, delim: char) returns (rest: seq<string>)
    requires i <= j <= |s| && delim !in s[i..j] && (j < |s| ==> s[j] == delim)
    ensures Split(s[i..], delim) == [s[i..j]] + rest
    ensures rest == if j < |s| then Split(s[j + 1..], delim) else []
  {
    SplitFree(s[i..j], delim);
    if j < |s| {
      rest := Split(s[j + 1..], delim);
      SplitAtSeparator(s[i..j], delim, s[j + 1..]);
      assert s[i..] == s[i..j] + [delim] + s[j + 1..];
    } else {
      rest := [];
      assert s[i..] == s[i..j];
    }
  }

  method Words(s: string, delim: char) returns (words: seq<string>)
    ensures words == Pieces(s, delim)
  {
    words := [];
    var i := 0;
    ghost var rest := Split(s, delim);
    assert s[0..] == s;
    while i < |s|
      invariant i <= |s|
      invariant words + rest == Split(s, delim)
      invariant if rest == [] then i == |s| && words != [] && words[|words| - 1] != "" else rest == Split(s[i..], delim)
    {
      var j := WordEnd(s, i, delim);
      ghost var more := SplitWord(s, i, j, delim);
      AppendAssociative(words, [s[i..j]], more);
      words, rest := words + [s[i..j]], more;
      i := if j < |s| then j + 1 else j;
    }
    if rest != [] {
      assert s[i..] == "";
      InitSnoc(words, "");
    } else {
      AppendEmpty(words);
    }
  }

  /** Only a final delimiter is lost, and there is no piece exactly when there is no text. */
  lemma PiecesRejoin(s: string, delim: char)
    ensures Pieces(s, delim) == [] <==> s == ""
    ensures Join([delim], Pieces(s, delim)) + (if s != "" && s[|s| - 1] == delim then [delim] else "") == s
  {
    JoinSplit(s, delim);
    OuterPieces(s, delim);
    var all := Split(s, delim);
    var n := |all| - 1;
    if all[n] == "" {
      InitLast(all);
      if n == 0 {
        assert all == [""];
      } else {
        JoinSnoc([delim], Init(all), "");
        AppendEmpty(Join([delim], Init(all)) + [delim]);
      }
    } else {
      AppendEmpty(s);
    }
  }
}
