/** The migration splitter `splitSQLStatements` in migrate.go, on bytes. */
module SqlSplitter {
  import opened Prelude

  newtype byte = b: int | 0 <= b < 256

  type Text = seq<byte>

  const DOLLAR: byte := 0x24
  const QUOTE: byte := 0x27
  const SEMICOLON: byte := 0x3B

  // ---------- White space, as strings.TrimSpace knows it ----------

  predicate Space1(a: byte) {
    9 <= a <= 13 || a == 32
  }

  /** The UTF-8 forms of U+0085 and U+00A0 */
  predicate Space2(a: byte, b: byte) {
    a == 0xC2 && (b == 0x85 || b == 0xA0)
  }

  /** The UTF-8 forms of U+1680, U+2000 to U+200A, U+2028, U+2029, U+202F, U+205F and U+3000 */
  predicate Space3(a: byte, b: byte, c: byte) {
    || (a == 0xE1 && b == 0x9A && c == 0x80)
    || (a == 0xE2 && b == 0x80 && (0x80 <= c <= 0x8A || c == 0xA8 || c == 0xA9 || c == 0xAF))
    || (a == 0xE2 && b == 0x81 && c == 0x9F)
    || (a == 0xE3 && b == 0x80 && c == 0x80)
  }

  /** A byte that never changes the lexer's mode and never ends a statement. */
  predicate Plain(b: byte) {
    b != DOLLAR && b != QUOTE && b != SEMICOLON
  }

  predicate AllPlain(s: Text) {
    forall i :: 0 <= i < |s| ==> Plain(s[i])
  }

  /** Length of the white-space character `s` starts with, or 0. */
  function SpacePrefix(s: Text): (n: nat)
    ensures n <= |s|
  {
    if |s| >= 1 && Space1(s[0]) then 1
    else if |s| >= 2 && Space2(s[0], s[1]) then 2
    else if |s| >= 3 && Space3(s[0], s[1], s[2]) then 3
    else 0
  }

  /** Length of the white-space character `s` ends with, or 0. */
  function SpaceSuffix(s: Text): (n: nat)
    ensures n <= |s|
  {
    var k := |s|;
    if k >= 1 && Space1(s[k - 1]) then 1
    else if k >= 2 && Space2(s[k - 2], s[k - 1]) then 2
    else if k >= 3 && Space3(s[k - 3], s[k - 2], s[k - 1]) then 3
    else 0
  }

  /** One white-space character */
  ghost predicate White(u: Text) {
    u != [] && SpacePrefix(u) == |u|
  }

  /** Exactly these encodings are white space. */
  lemma WhiteExactly(u: Text)
    ensures White(u) <==>
            || (|u| == 1 && (0x09 <= u[0] <= 0x0D || u[0] == 0x20))
            || (|u| == 2 && u[0] == 0xC2 && (u[1] == 0x85 || u[1] == 0xA0))
            || (|u| == 3 && u[0] == 0xE1 && u[1] == 0x9A && u[2] == 0x80)
            || (|u| == 3 && u[0] == 0xE2 && u[1] == 0x80 &&
                (0x80 <= u[2] <= 0x8A || u[2] == 0xA8 || u[2] == 0xA9 || u[2] == 0xAF))
            || (|u| == 3 && u[0] == 0xE2 && u[1] == 0x81 && u[2] == 0x9F)
            || (|u| == 3 && u[0] == 0xE3 && u[1] == 0x80 && u[2] == 0x80)
  {
  }

  lemma WhitePrefix(s: Text, k: nat)
    requires k <= |s| && White(s[..k])
    ensures SpacePrefix(s) > 0
  {
    WhiteExactly(s[..k]);
  }

  lemma WhiteSuffix(s: Text, k: nat)
    requires k <= |s| && White(s[k..])
    ensures SpaceSuffix(s) > 0
  {
    var u := s[k..];
    WhiteExactly(u);
    assert forall i :: 0 <= i < |u| ==> u[i] == s[k + i];
  }

  /** `SpacePrefix` and `SpaceSuffix` find such a character whenever there is one. */
  lemma SpacesAreWhite(s: Text)
    ensures SpacePrefix(s) > 0 ==> White(s[..SpacePrefix(s)])
    ensures SpacePrefix(s) == 0 ==> forall k :: 0 <= k <= |s| ==> !White(s[..k])
    ensures SpaceSuffix(s) > 0 ==> White(s[|s| - SpaceSuffix(s)..])
    ensures SpaceSuffix(s) == 0 ==> forall k :: 0 <= k <= |s| ==> !White(s[k..])
  {
    var n := SpaceSuffix(s);
    WhiteExactly(s[..SpacePrefix(s)]);
    WhiteExactly(s[|s| - n..]);
    forall k | 0 <= k <= |s| && White(s[..k])
      ensures SpacePrefix(s) > 0
    {
      WhitePrefix(s, k);
    }
    forall k | 0 <= k <= |s| && White(s[k..])
      ensures n > 0
    {
      WhiteSuffix(s, k);
    }
  }

  lemma SpacesArePlain(s: Text)
    ensures AllPlain(s[..SpacePrefix(s)]) && AllPlain(s[|s| - SpaceSuffix(s)..])
  {
  }

  /** How many bytes of white space come first, and last. */
  function LeftSpace(s: Text): (n: nat)
    ensures n <= |s|
  {
    var k := SpacePrefix(s);
    if k == 0 then 0 else k + LeftSpace(s[k..])
  }

  function RightSpace(s: Text): (n: nat)
    ensures n <= |s|
  {
    var k := SpaceSuffix(s);
    if k == 0 then 0 else k + RightSpace(s[..|s| - k])
  }

  function TrimLeft(s: Text): Text {
    s[LeftSpace(s)..]
  }

  function TrimRight(s: Text): Text {
    s[..|s| - RightSpace(s)]
  }

  function Trim(s: Text): Text {
    TrimRight(TrimLeft(s))
  }

  lemma {:induction false} LeftSpaceIsAll(s: Text)
    ensures AllPlain(s[..LeftSpace(s)]) && SpacePrefix(TrimLeft(s)) == 0
    decreases |s|
  {
    var k := SpacePrefix(s);
    if k == 0 {
      assert s[0..] == s;
    } else {
      SpacesArePlain(s);
      LeftSpaceIsAll(s[k..]);
      var n := LeftSpace(s[k..]);
      assert s[..k + n] == s[..k] + s[k..][..n] && s[k + n..] == s[k..][n..];
    }
  }

  lemma RightSpaceStep(s: Text, t: Text, k: nat, n: nat)
    requires k <= |s| && t == s[..|s| - k] && n <= |t|
    ensures s[..|s| - (k + n)] == t[..|t| - n]
    ensures AllPlain(t[|t| - n..]) && AllPlain(s[|s| - k..]) ==> AllPlain(s[|s| - (k + n)..])
  {
    assert s[|s| - (k + n)..] == t[|t| - n..] + s[|s| - k..];
  }

  lemma {:induction false} RightSpaceIsAll(s: Text)
    ensures AllPlain(s[|s| - RightSpace(s)..]) && SpaceSuffix(TrimRight(s)) == 0
    decreases |s|
  {
    var k := SpaceSuffix(s);
    if k == 0 {
      assert TrimRight(s) == s;
    } else {
      var t := s[..|s| - k];
      SpacesArePlain(s);
      RightSpaceIsAll(t);
      var n := RightSpace(t);
      RightSpaceStep(s, t, k, n);
    }
  }

  /** A trimmed text is the text between two runs of white space, and has none at its own ends. */
  lemma TrimSplits(s: Text) returns (left: Text, right: Text)
    ensures s == left + Trim(s) + right && AllPlain(left) && AllPlain(right)
    ensures SpacePrefix(Trim(s)) == 0 && SpaceSuffix(Trim(s)) == 0
  {
    var t := TrimLeft(s);
    left, right := s[..LeftSpace(s)], t[|t| - RightSpace(t)..];
    LeftSpaceIsAll(s);
    RightSpaceIsAll(t);
    assert s == left + t;
    assert t == TrimRight(t) + right;
    AppendAssociative(left, TrimRight(t), right);
  }

  lemma {:induction false} LeftSpaceIsWhite(s: Text) returns (units: seq<Text>)
    ensures Flatten(units) == s[..LeftSpace(s)] && forall u <- units :: White(u)
    decreases |s|
  {
    var k := SpacePrefix(s);
    if k == 0 {
      units := [];
    } else {
      SpacesAreWhite(s);
      var rest := LeftSpaceIsWhite(s[k..]);
      units := [s[..k]] + rest;
      assert s[..k + LeftSpace(s[k..])] == s[..k] + s[k..][..LeftSpace(s[k..])];
    }
  }

  lemma {:induction false} RightSpaceIsWhite(s: Text) returns (units: seq<Text>)
    ensures Flatten(units) == s[|s| - RightSpace(s)..] && forall u <- units :: White(u)
    decreases |s|
  {
    var k := SpaceSuffix(s);
    if k == 0 {
      units := [];
    } else {
      var t, last := s[..|s| - k], s[|s| - k..];
      SpacesAreWhite(s);
      var rest := RightSpaceIsWhite(t);
      units := rest + [last];
      FlattenSnoc(rest, last);
      assert s[|s| - RightSpace(s)..] == t[|t| - RightSpace(t)..] + last;
    }
  }

  /** What is trimmed is white space and nothing else, and none is left at either end. */
  lemma TrimExactly(s: Text) returns (left: seq<Text>, right: seq<Text>)
    ensures s == Flatten(left) + Trim(s) + Flatten(right)
    ensures (forall u <- left :: White(u)) && forall u <- right :: White(u)
    ensures forall k :: 0 <= k <= |Trim(s)| ==> !White(Trim(s)[..k]) && !White(Trim(s)[k..])
  {
    var t := TrimLeft(s);
    left := LeftSpaceIsWhite(s);
    right := RightSpaceIsWhite(t);
    assert s == s[..LeftSpace(s)] + t && t == TrimRight(t) + t[|t| - RightSpace(t)..];
    AppendAssociative(Flatten(left), Trim(s), Flatten(right));
    var _, _ := TrimSplits(s);
    SpacesAreWhite(Trim(s));
  }

  /** A text between two visible ASCII characters is left alone. */
  lemma VisibleEndsStay(s: Text)
    requires s != [] && 0x21 <= s[0] <= 0x7E && 0x21 <= s[|s| - 1] <= 0x7E
    ensures Trim(s) == s
  {
    assert LeftSpace(s) == 0 && TrimLeft(s) == s;
    assert SpaceSuffix(s) == 0;
  }

  lemma TrimIdempotent(s: Text)
    ensures Trim(Trim(s)) == Trim(s)
  {
    var _, _ := TrimSplits(s);
    var u := Trim(s);
    assert u[0..] == u && u[..|u| - 0] == u;
  }

  lemma {:induction false} LeftSpaceOfLonger(s: Text)
    ensures LeftSpace(s + [SEMICOLON]) == LeftSpace(s)
    decreases |s|
  {
    var t := s + [SEMICOLON];
    var k := SpacePrefix(s);
    assert SpacePrefix(t) == k;
    if k == 0 {
    } else {
      LeftSpaceOfLonger(s[k..]);
      assert t[k..] == s[k..] + [SEMICOLON];
    }
  }

  /** A text that ends in a semicolon keeps it; the left end is trimmed as without it. */
  lemma TrimKeepsSemicolon(s: Text)
    ensures |Trim(s + [SEMICOLON])| > |Trim(s)|
  {
    LeftSpaceOfLonger(s);
    var u := TrimLeft(s) + [SEMICOLON];
    assert TrimLeft(s + [SEMICOLON]) == u;
    assert u[|u| - 1] == SEMICOLON && SpaceSuffix(u) == 0;
    assert RightSpace(u) == 0;
  }

  // ---------- The lexer ----------

  datatype Mode = Outside | InSingleQuote | InDollarQuote

  function TokenLength(m: Mode, s: Text): (n: nat)
    requires s != []
    ensures 1 <= n <= |s|
  {
    if m != InSingleQuote && |s| >= 2 && s[0] == DOLLAR && s[1] == DOLLAR then 2 else 1
  }

  function NextMode(m: Mode, s: Text): Mode
    requires s != []
  {
    if TokenLength(m, s) == 2 then (if m == InDollarQuote then Outside else InDollarQuote)
    else if m != InDollarQuote && s[0] == QUOTE then (if m == InSingleQuote then Outside else InSingleQuote)
    else m
  }

  predicate EndsStatement(m: Mode, s: Text)
    requires s != []
  {
    m == Outside && s[0] == SEMICOLON
  }

  /** The mode after all of `s`. */
  function EndMode(m: Mode, s: Text): Mode
    decreases |s|
  {
    if s == [] then m else EndMode(NextMode(m, s), s[TokenLength(m, s)..])
  }

  /** `t` in front of the first piece */
  function Before(t: Text, pieces: seq<Text>): (r: seq<Text>)
    requires pieces != []
    ensures |r| == |pieces| && r[0] == t + pieces[0] && r[1..] == pieces[1..]
  {
    [t + pieces[0]] + pieces[1..]
  }

  /** The untrimmed statements of `s`, cut at the semicolons outside both kinds of quotes. */
  function RawPieces(m: Mode, s: Text): (pieces: seq<Text>)
    ensures pieces != []
    decreases |s|
  {
    if s == [] then [[]]
    else
      var n := TokenLength(m, s);
      var rest := RawPieces(NextMode(m, s), s[n..]);
      if EndsStatement(m, s) then [[]] + rest else Before(s[..n], rest)
  }

  /** The lexer spelled out in bytes: `$$`, a single quote, a semicolon, and anything else */
  lemma FirstToken(m: Mode, s: Text)
    requires s != []
    ensures RawPieces(m, []) == [[]] && EndMode(m, []) == m
    ensures var pair := m != InSingleQuote && |s| >= 2 && s[0] == 0x24 && s[1] == 0x24;
            var quote := !pair && m != InDollarQuote && s[0] == 0x27;
            var cut := !pair && m == Outside && s[0] == 0x3B;
            var n := if pair then 2 else 1;
            var next := if pair then (if m == InDollarQuote then Outside else InDollarQuote)
                        else if quote then (if m == InSingleQuote then Outside else InSingleQuote)
                        else m;
            var rest := RawPieces(next, s[n..]);
            && EndMode(m, s) == EndMode(next, s[n..])
            && (cut ==> RawPieces(m, s) == [[]] + rest)
            && (!cut ==> RawPieces(m, s)[0] == s[..n] + rest[0] && RawPieces(m, s)[1..] == rest[1..])
  {
  }

  /** The statements that remain of the raw pieces */
  function Trimmed(pieces: seq<Text>): seq<Text> {
    if pieces == [] then [] else Kept(Trim(pieces[0])) + Trimmed(pieces[1..])
  }

  lemma {:induction false} TrimmedAppend(p: seq<Text>, q: seq<Text>)
    ensures Trimmed(p + q) == Trimmed(p) + Trimmed(q)
  {
    if p == [] {
      AppendEmpty(q);
      AppendEmpty(Trimmed(q));
    } else {
      TailOfAppend(p, q);
      TrimmedAppend(p[1..], q);
      AppendAssociative(Kept(Trim(p[0])), Trimmed(p[1..]), Trimmed(q));
    }
  }

  lemma TrimmedOne(s: Text)
    ensures Trimmed([s]) == Kept(Trim(s)) == if Trim(s) == [] then [] else [Trim(s)]
  {
    assert [s][1..] == [];
    AppendEmpty(Kept(Trim(s)));
  }

  function SplitStatements(s: Text): (stmts: seq<Text>)
    ensures stmts == Trimmed(RawPieces(Outside, s))
  {
    Trimmed(RawPieces(Outside, s))
  }

  lemma BeforeNothing(pieces: seq<Text>)
    requires pieces != []
    ensures Before([], pieces) == pieces
  {
    assert [] + pieces[0] == pieces[0];
  }

  lemma BeforeTwice(t: Text, u: Text, pieces: seq<Text>)
    requires pieces != []
    ensures Before(t, Before(u, pieces)) == Before(t + u, pieces)
  {
    assert t + (u + pieces[0]) == t + u + pieces[0];
  }

  /** What is still to come when `sb` is buffered and `s` unread */
  function Pending(sb: Text, m: Mode, s: Text): seq<Text>
    decreases |s|
  {
    if s == [] then Kept(Trim(sb))
    else
      var n, next := TokenLength(m, s), NextMode(m, s);
      if EndsStatement(m, s) then Kept(Trim(sb)) + Pending([], next, s[n..])
      else Pending(sb + s[..n], next, s[n..])
  }

  lemma PendingPiece(sb: Text, rest: seq<Text>)
    ensures Trimmed(Before(sb, [[]] + rest)) == Kept(Trim(sb)) + Trimmed(rest)
  {
    TailOfAppend([[]], rest);
    AppendEmpty(sb);
    TrimmedOne(sb);
    TrimmedAppend([sb], rest);
  }

  lemma {:induction false} PendingIsTrimmed(sb: Text, m: Mode, s: Text)
    ensures Pending(sb, m, s) == Trimmed(Before(sb, RawPieces(m, s)))
    decreases |s|
  {
    if s == [] {
      AppendEmpty(sb);
      TrimmedOne(sb);
    } else {
      var n, next := TokenLength(m, s), NextMode(m, s);
      var rest := RawPieces(next, s[n..]);
      if EndsStatement(m, s) {
        PendingIsTrimmed([], next, s[n..]);
        BeforeNothing(rest);
        PendingPiece(sb, rest);
      } else {
        PendingIsTrimmed(sb + s[..n], next, s[n..]);
        BeforeTwice(sb, s[..n], rest);
      }
    }
  }

  /** The flags for single and for dollar quotes, before every token and at the end */
  function Flags(m: Mode, s: Text): seq<(bool, bool)>
    decreases |s|
  {
    [(m == InSingleQuote, m == InDollarQuote)]
    + if s == [] then [] else Flags(NextMode(m, s), s[TokenLength(m, s)..])
  }

  /** What is known before the token at `i`: the statements found and those pending are all there are. */
  ghost predicate Going(input: Text, i: nat, sb: Text, m: Mode, stmts: seq<Text>, flags: seq<(bool, bool)>) {
    && i <= |input|
    && stmts + Pending(sb, m, input[i..]) == SplitStatements(input)
    && flags + Flags(m, input[i..]) == Flags(Outside, input)
    && forall f <- flags :: !(f.0 && f.1)
  }

  lemma GoingStarts(input: Text)
    ensures Going(input, 0, [], Outside, [], [])
  {
    BeforeNothing(RawPieces(Outside, input));
    PendingIsTrimmed([], Outside, input);
    assert input[0..] == input;
    AppendEmpty(SplitStatements(input));
    AppendEmpty(Flags(Outside, input));
  }

  lemma GoingEnds(input: Text, sb: Text, m: Mode, stmts: seq<Text>, flags: seq<(bool, bool)>)
    requires Going(input, |input|, sb, m, stmts, flags)
    ensures stmts + Kept(Trim(sb)) == SplitStatements(input)
    ensures flags + [(m == InSingleQuote, m == InDollarQuote)] == Flags(Outside, input)
  {
    assert input[|input|..] == [];
    AppendEmpty([(m == InSingleQuote, m == InDollarQuote)]);
  }

  /** One token at `i`: its length, the mode after it, the buffer after it and what it completes. */
  lemma Advance(input: Text, i: nat, sb: Text, m: Mode, stmts: seq<Text>, flags: seq<(bool, bool)>)
    returns (n: nat, next: Mode, buffer: Text, done: seq<Text>)
    requires i < |input| && Going(input, i, sb, m, stmts, flags)
    ensures var dollars := m != InSingleQuote && i + 1 < |input| && input[i] == DOLLAR && input[i + 1] == DOLLAR;
            var quote := !dollars && m != InDollarQuote && input[i] == QUOTE;
            var ends := !dollars && m == Outside && input[i] == SEMICOLON;
            && n == (if dollars then 2 else 1)
            && next == (if dollars then (if m == InDollarQuote then Outside else InDollarQuote)
                        else if quote then (if m == InSingleQuote then Outside else InSingleQuote)
                        else m)
            && buffer == (if ends then [] else if dollars then sb + [input[i], input[i + 1]] else sb + [input[i]])
            && done == (if ends then stmts + Kept(Trim(sb)) else stmts)
    ensures Going(input, i + n, buffer, next, done, flags + [(m == InSingleQuote, m == InDollarQuote)])
  {
    var s := input[i..];
    n, next := TokenLength(m, s), NextMode(m, s);
    var rest, flag := input[i + n..], (m == InSingleQuote, m == InDollarQuote);
    assert s[n..] == rest;
    assert s[..n] == if n == 2 then [input[i], input[i + 1]] else [input[i]];
    buffer := if EndsStatement(m, s) then [] else sb + s[..n];
    done := if EndsStatement(m, s) then stmts + Kept(Trim(sb)) else stmts;
    AppendAssociative(stmts, Kept(Trim(sb)), Pending(buffer, next, rest));
    AppendAssociative(flags, [flag], Flags(next, rest));
  }

  /** `splitSQLStatements`. `flags` are the values of its two flags, which are never true together. */
  method SplitSQLStatements(input: Text) returns (stmts: seq<Text>, ghost flags: seq<(bool, bool)>)
    ensures stmts == SplitStatements(input)
    ensures flags == Flags(Outside, input) && forall f <- flags :: !(f.0 && f.1)
  {
    stmts, flags := [], [];
    var sb: Text := [];
    var inSingleQuote, inDollarQuote := false, false;
    var i := 0;
    ghost var m := Outside;
    GoingStarts(input);
    while i < |input|
      invariant Going(input, i, sb, m, stmts, flags)
      invariant inSingleQuote == (m == InSingleQuote) && inDollarQuote == (m == InDollarQuote)
    {
      ghost var n, next, buffer, done := Advance(input, i, sb, m, stmts, flags);
      flags, m := flags + [(inSingleQuote, inDollarQuote)], next;
      var ch := input[i];
      if !inSingleQuote && i + 1 < |input| && input[i] == DOLLAR && input[i + 1] == DOLLAR {
        inDollarQuote := !inDollarQuote;
        sb := sb + [input[i], input[i + 1]];
        i := i + 2;
        continue;
      }
      if !inDollarQuote && ch == QUOTE {
        inSingleQuote := !inSingleQuote;
        sb := sb + [ch];
        i := i + 1;
        continue;
      }
      if !inSingleQuote && !inDollarQuote && ch == SEMICOLON {
        var stmt := Trim(sb);
        if stmt != [] {
          stmts := stmts + [stmt];
        }
        assert stmts == done;
        sb := [];
        i := i + 1;
        continue;
      }
      sb := sb + [ch];
      i := i + 1;
    }
    GoingEnds(input, sb, m, stmts, flags);
    flags := flags + [(inSingleQuote, inDollarQuote)];
    var last := Trim(sb);
    if last != [] {
      stmts := stmts + [last];
    }
  }

  // ---------- The pieces make up the input ----------

  lemma JoinEmptyFirst(rest: seq<Text>)
    requires rest != []
    ensures Join([SEMICOLON], [[]] + rest) == [SEMICOLON] + Join([SEMICOLON], rest)
  {
    assert ([[]] + rest)[1..] == rest;
    AppendEmpty([SEMICOLON]);
  }

  lemma JoinBefore(t: Text, pieces: seq<Text>)
    requires pieces != []
    ensures Join([SEMICOLON], Before(t, pieces)) == t + Join([SEMICOLON], pieces)
  {
    if |pieces| > 1 {
      var later := Join([SEMICOLON], pieces[1..]);
      AppendAssociative(t, pieces[0], [SEMICOLON]);
      AppendAssociative(t, pieces[0] + [SEMICOLON], later);
    }
  }

  /** Nothing is lost: the untrimmed pieces joined by semicolons give the input back. */
  lemma {:induction false} PiecesRejoin(m: Mode, s: Text)
    ensures Join([SEMICOLON], RawPieces(m, s)) == s
    decreases |s|
  {
    if s == [] {
    } else {
      var n := TokenLength(m, s);
      PiecesRejoin(NextMode(m, s), s[n..]);
      var rest := RawPieces(NextMode(m, s), s[n..]);
      assert s == s[..n] + s[n..];
      if EndsStatement(m, s) {
        assert s[..n] == [SEMICOLON];
        JoinEmptyFirst(rest);
      } else {
        JoinBefore(s[..n], rest);
      }
    }
  }

  // ---------- Splitting a concatenation ----------

  /** `t` behind the last piece */
  function After(pieces: seq<Text>, t: Text): seq<Text>
    requires pieces != []
  {
    pieces[..|pieces| - 1] + [pieces[|pieces| - 1] + t]
  }

  lemma GlueOne(p: seq<Text>, t: Text)
    requires p != []
    ensures Glue(p, [t]) == After(p, t)
  {
    assert [t][1..] == [];
  }

  lemma GlueBreak(p: seq<Text>, q: seq<Text>)
    requires p != []
    ensures Glue(p, [[]] + q) == p + q
  {
    assert ([[]] + q)[1..] == q;
    AppendEmpty(p[|p| - 1]);
    InitLast(p);
  }

  lemma BeforeGlue(t: Text, p: seq<Text>, q: seq<Text>)
    requires p != [] && q != []
    ensures Before(t, Glue(p, q)) == Glue(Before(t, p), q)
  {
    if |p| == 1 {
      AppendAssociative(t, p[0], q[0]);
    }
  }

  /** The last token is a single dollar sign that one more would complete. */
  predicate EndsInLoneDollar(m: Mode, s: Text)
    decreases |s|
  {
    s != [] &&
    var n := TokenLength(m, s);
    if n < |s| then EndsInLoneDollar(NextMode(m, s), s[n..])
    else n == 1 && s[0] == DOLLAR && m != InSingleQuote
  }

  /** No token reaches from `a` into `b`. */
  predicate Separate(m: Mode, a: Text, b: Text) {
    b == [] || b[0] != DOLLAR || !EndsInLoneDollar(m, a)
  }

  lemma SameToken(m: Mode, a: Text, b: Text)
    requires a != [] && Separate(m, a, b)
    ensures TokenLength(m, a + b) == TokenLength(m, a) && NextMode(m, a + b) == NextMode(m, a)
    ensures var n := TokenLength(m, a); (a + b)[..n] == a[..n] && (a + b)[n..] == a[n..] + b
    ensures Separate(NextMode(m, a), a[TokenLength(m, a)..], b)
  {
  }

  lemma {:induction false} PiecesConcat(m: Mode, a: Text, b: Text)
    requires Separate(m, a, b)
    ensures RawPieces(m, a + b) == Glue(RawPieces(m, a), RawPieces(EndMode(m, a), b))
    ensures EndMode(m, a + b) == EndMode(EndMode(m, a), b)
    decreases |a|
  {
    var q := RawPieces(EndMode(m, a), b);
    if a == [] {
      AppendEmpty(b);
      AppendEmpty(q[0]);
    } else {
      var n, next := TokenLength(m, a), NextMode(m, a);
      var rest := RawPieces(next, a[n..]);
      SameToken(m, a, b);
      PiecesConcat(next, a[n..], b);
      if EndsStatement(m, a) {
        GlueBehind([[]], rest, q);
      } else {
        BeforeGlue(a[..n], rest, q);
      }
    }
  }

  lemma PiecesAtSemicolon(m: Mode, a: Text, b: Text)
    requires EndMode(m, a) == Outside
    ensures RawPieces(m, a + ([SEMICOLON] + b)) == RawPieces(m, a) + RawPieces(Outside, b)
  {
    var c := [SEMICOLON] + b;
    PiecesConcat(m, a, c);
    TailOfAppend([SEMICOLON], b);
    AppendEmpty(b);
    GlueBreak(RawPieces(m, a), RawPieces(Outside, b));
  }

  lemma {:induction false} PlainPieces(m: Mode, b: Text)
    requires AllPlain(b)
    ensures RawPieces(m, b) == [b] && EndMode(m, b) == m
    decreases |b|
  {
    if b == [] {
    } else {
      assert Plain(b[0]) && TokenLength(m, b) == 1 && NextMode(m, b) == m && !EndsStatement(m, b);
      PlainPieces(m, b[1..]);
      assert b == b[..1] + b[1..];
      assert Before(b[..1], [b[1..]]) == [b[..1] + b[1..]];
    }
  }

  lemma QuotedSemicolon(m: Mode)
    requires m != Outside
    ensures RawPieces(m, [SEMICOLON]) == [[SEMICOLON]] && EndMode(m, [SEMICOLON]) == m
  {
    var s, none: Text := [SEMICOLON], [];
    assert s[1..] == none && s[..1] == s;
    AppendEmpty(s);
    assert RawPieces(m, s) == Before(s, RawPieces(m, none)) == [s + none];
  }

  /** A quoted semicolon, or bytes that are all plain, just lengthen the last piece. */
  lemma PiecesLengthened(m: Mode, a: Text, b: Text)
    requires AllPlain(b) || (b == [SEMICOLON] && EndMode(m, a) != Outside)
    ensures RawPieces(m, a + b) == After(RawPieces(m, a), b) && EndMode(m, a + b) == EndMode(m, a)
  {
    PiecesConcat(m, a, b);
    GlueOne(RawPieces(m, a), b);
    if AllPlain(b) {
      PlainPieces(EndMode(m, a), b);
    } else {
      QuotedSemicolon(EndMode(m, a));
    }
  }

  lemma {:induction false} PlainEndsNoDollar(m: Mode, w: Text)
    requires AllPlain(w)
    ensures !EndsInLoneDollar(m, w)
    decreases |w|
  {
    if w == [] {
    } else {
      assert Plain(w[0]);
      PlainEndsNoDollar(m, w[1..]);
    }
  }

  lemma PlainFirst(w: Text, s: Text)
    requires AllPlain(w)
    ensures RawPieces(Outside, w + s) == Before(w, RawPieces(Outside, s))
    ensures EndMode(Outside, w + s) == EndMode(Outside, s)
  {
    PlainPieces(Outside, w);
    PlainEndsNoDollar(Outside, w);
    PiecesConcat(Outside, w, s);
  }

  lemma SplitAtOutside(a: Text, b: Text)
    requires EndMode(Outside, a) == Outside
    ensures SplitStatements(a + [SEMICOLON] + b) == SplitStatements(a) + SplitStatements(b)
  {
    AppendAssociative(a, [SEMICOLON], b);
    PiecesAtSemicolon(Outside, a, b);
    TrimmedAppend(RawPieces(Outside, a), RawPieces(Outside, b));
  }

  /** A final statement grows when a semicolon is added to it, so it is not the same list of statements. */
  lemma LastStatementGrows(init: seq<Text>, last: Text)
    ensures Trimmed(init + [last + [SEMICOLON]]) != Trimmed(init + [last])
  {
    TrimmedAppend(init, [last]);
    TrimmedAppend(init, [last + [SEMICOLON]]);
    TrimmedOne(last);
    TrimmedOne(last + [SEMICOLON]);
    TrimKeepsSemicolon(last);
    var t, u := Trim(last), Trim(last + [SEMICOLON]);
    if Kept(t) == [t] {
      assert (Trimmed(init) + [t])[|Trimmed(init)|] == t;
      assert (Trimmed(init) + [u])[|Trimmed(init)|] == u;
    }
  }

  lemma QuotedSemicolonKept(a: Text)
    requires EndMode(Outside, a) != Outside
    ensures SplitStatements(a + [SEMICOLON] + []) != SplitStatements(a) + SplitStatements([])
  {
    AppendEmpty(a + [SEMICOLON]);
    PiecesLengthened(Outside, a, [SEMICOLON]);
    var p := RawPieces(Outside, a);
    InitLast(p);
    LastStatementGrows(Init(p), p[|p| - 1]);
    TrimmedOne([]);
    assert Trim([]) == [];
    AppendEmpty(SplitStatements(a));
  }

  /** Splitting is a homomorphism at a semicolon exactly when the text before it ends outside both quotes. */
  lemma SplitHomomorphism(a: Text)
    ensures EndMode(Outside, a) == Outside
       <==> forall b :: SplitStatements(a + [SEMICOLON] + b) == SplitStatements(a) + SplitStatements(b)
  {
    if EndMode(Outside, a) == Outside {
      forall b
        ensures SplitStatements(a + [SEMICOLON] + b) == SplitStatements(a) + SplitStatements(b)
      {
        SplitAtOutside(a, b);
      }
    } else {
      QuotedSemicolonKept(a);
    }
  }

  // ---------- What a quote protects ----------

  /** A byte inside quotes goes in front of the piece that the rest of the quoted text is in. */
  lemma QuotedByte(m: Mode, s: Text, inner: Text, rest: Text)
    requires inner != [] && s == inner + rest && TokenLength(m, s) == 1 && NextMode(m, s) == m != Outside
    requires RawPieces(m, inner[1..] + rest) == Before(inner[1..], RawPieces(Outside, rest))
    ensures RawPieces(m, s) == Before(inner, RawPieces(Outside, rest))
  {
    TailOfAppend(inner, rest);
    assert s[..1] == inner[..1] && inner[..1] + inner[1..] == inner;
    BeforeTwice(inner[..1], inner[1..], RawPieces(Outside, rest));
  }

  /** Inside single quotes everything up to the next quote stays in one piece. */
  lemma {:induction false} InsideSingleQuote(body: Text, rest: Text)
    requires QUOTE !in body
    ensures RawPieces(InSingleQuote, body + [QUOTE] + rest) == Before(body + [QUOTE], RawPieces(Outside, rest))
    decreases |body|
  {
    var s, inner := body + [QUOTE] + rest, body + [QUOTE];
    if body == [] {
      assert s[1..] == rest && s[..1] == inner;
    } else {
      InsideSingleQuote(body[1..], rest);
      TailOfAppend(inner, rest);
      TailOfAppend(body, [QUOTE]);
      QuotedByte(InSingleQuote, s, inner, rest);
    }
  }

  lemma TokenFirst(token: Text, rest: Text)
    requires token == [QUOTE] || token == [DOLLAR, DOLLAR]
    ensures var mode := if token == [QUOTE] then InSingleQuote else InDollarQuote;
            RawPieces(Outside, token + rest) == Before(token, RawPieces(mode, rest))
  {
    assert (token + rest)[..|token|] == token && (token + rest)[|token|..] == rest;
  }

  lemma SingleQuotedFirst(body: Text, rest: Text)
    requires QUOTE !in body
    ensures RawPieces(Outside, [QUOTE] + body + [QUOTE] + rest)
         == Before([QUOTE] + body + [QUOTE], RawPieces(Outside, rest))
  {
    var inner := body + [QUOTE];
    InsideSingleQuote(body, rest);
    AppendAssociative([QUOTE], body, [QUOTE]);
    AppendAssociative([QUOTE], inner, rest);
    BeforeTwice([QUOTE], inner, RawPieces(Outside, rest));
    TokenFirst([QUOTE], inner + rest);
  }

  /** Behind any text that ends outside the quotes, a quoted text is wholly in the piece it starts in. */
  lemma {:induction false} SingleQuotedStaysWhole(a: Text, body: Text, rest: Text)
    requires EndMode(Outside, a) == Outside && QUOTE !in body
    ensures var quoted := [QUOTE] + body + [QUOTE];
            RawPieces(Outside, a + (quoted + rest)) ==
            Glue(RawPieces(Outside, a), Before(quoted, RawPieces(Outside, rest)))
  {
    var quoted := [QUOTE] + body + [QUOTE];
    assert (quoted + rest)[0] == QUOTE;
    SingleQuotedFirst(body, rest);
    PiecesConcat(Outside, a, quoted + rest);
  }

  predicate NoDollarPair(s: Text) {
    forall i :: 0 <= i < |s| - 1 ==> s[i] != DOLLAR || s[i + 1] != DOLLAR
  }

  lemma NoPairTail(body: Text)
    requires body != [] && NoDollarPair(body + [DOLLAR])
    ensures NoDollarPair(body[1..] + [DOLLAR])
    ensures body[0] != DOLLAR || (|body| > 1 && body[1] != DOLLAR)
  {
    var t := body + [DOLLAR];
    assert body[1..] + [DOLLAR] == t[1..];
    assert t[0] != DOLLAR || t[0 + 1] != DOLLAR;
    assert forall i :: 0 <= i < |t[1..]| ==> t[1..][i] == t[i + 1];
  }

  /** Inside dollar quotes everything up to the next `$$` stays in one piece. */
  lemma {:induction false} InsideDollarQuote(body: Text, rest: Text)
    requires NoDollarPair(body + [DOLLAR])
    ensures RawPieces(InDollarQuote, body + [DOLLAR, DOLLAR] + rest)
         == Before(body + [DOLLAR, DOLLAR], RawPieces(Outside, rest))
    decreases |body|
  {
    var s, inner := body + [DOLLAR, DOLLAR] + rest, body + [DOLLAR, DOLLAR];
    if body == [] {
      assert s[2..] == rest && s[..2] == inner;
    } else {
      NoPairTail(body);
      InsideDollarQuote(body[1..], rest);
      TailOfAppend(inner, rest);
      TailOfAppend(body, [DOLLAR, DOLLAR]);
      QuotedByte(InDollarQuote, s, inner, rest);
    }
  }

  lemma DollarQuotedFirst(body: Text, rest: Text)
    requires NoDollarPair(body + [DOLLAR])
    ensures RawPieces(Outside, [DOLLAR, DOLLAR] + body + [DOLLAR, DOLLAR] + rest)
         == Before([DOLLAR, DOLLAR] + body + [DOLLAR, DOLLAR], RawPieces(Outside, rest))
  {
    var dd, inner := [DOLLAR, DOLLAR], body + [DOLLAR, DOLLAR];
    InsideDollarQuote(body, rest);
    AppendAssociative(dd, body, dd);
    AppendAssociative(dd, inner, rest);
    BeforeTwice(dd, inner, RawPieces(Outside, rest));
    TokenFirst(dd, inner + rest);
  }

  /** The same for a text between `$$` markers, unless a single dollar sign right before it takes half a marker. */
  lemma DollarQuotedStaysWhole(a: Text, body: Text, rest: Text)
    requires EndMode(Outside, a) == Outside && !EndsInLoneDollar(Outside, a)
    requires forall i :: 0 <= i < |body| && body[i] == DOLLAR ==> i + 1 < |body| && body[i + 1] != DOLLAR
    ensures var quoted := [DOLLAR, DOLLAR] + body + [DOLLAR, DOLLAR];
            RawPieces(Outside, a + (quoted + rest)) ==
            Glue(RawPieces(Outside, a), Before(quoted, RawPieces(Outside, rest)))
  {
    assert NoDollarPair(body + [DOLLAR]);
    DollarQuotedFirst(body, rest);
    PiecesConcat(Outside, a, [DOLLAR, DOLLAR] + body + [DOLLAR, DOLLAR] + rest);
  }

  // ---------- Idempotence ----------

  /** A trimmed, non-empty text without a statement boundary */
  predicate Statement(s: Text) {
    s != [] && Trim(s) == s && RawPieces(Outside, s) == [s]
  }

  /** Statements of which only the last may leave a quote open */
  predicate Statements(stmts: seq<Text>) {
    && (forall s <- stmts :: Statement(s))
    && forall i :: 0 <= i < |stmts| - 1 ==> EndMode(Outside, stmts[i]) == Outside
  }

  lemma MiddleKeepsLexing(w: Text, u: Text, v: Text)
    requires AllPlain(w) && AllPlain(v) && |RawPieces(Outside, w + (u + v))| == 1
    ensures RawPieces(Outside, u) == [u] && EndMode(Outside, u) == EndMode(Outside, w + (u + v))
  {
    PlainFirst(w, u + v);
    PiecesLengthened(Outside, u, v);
    var p := RawPieces(Outside, u);
    assert |After(p, v)| == |p| == 1;
    PiecesRejoin(Outside, u);
    assert p == [u];
  }

  lemma TrimKeepsLexing(s: Text)
    requires RawPieces(Outside, s) == [s]
    ensures RawPieces(Outside, Trim(s)) == [Trim(s)] && EndMode(Outside, Trim(s)) == EndMode(Outside, s)
  {
    var w, v := TrimSplits(s);
    AppendAssociative(w, Trim(s), v);
    MiddleKeepsLexing(w, Trim(s), v);
  }

  lemma {:induction false} FirstPieceIsPrefix(m: Mode, s: Text)
    ensures RawPieces(m, s)[0] <= s
    decreases |s|
  {
    if s == [] {
    } else {
      var n := TokenLength(m, s);
      var first := RawPieces(NextMode(m, s), s[n..])[0];
      FirstPieceIsPrefix(NextMode(m, s), s[n..]);
      assert s == s[..n] + s[n..];
      assert s[n..] == first + s[n..][|first|..];
      AppendAssociative(s[..n], first, s[n..][|first|..]);
    }
  }

  lemma TokenOfPiece(m: Mode, s: Text, t: Text)
    requires s != [] && t <= s[TokenLength(m, s)..]
    ensures var n := TokenLength(m, s);
            var first := s[..n] + t;
            && TokenLength(m, first) == n && NextMode(m, first) == NextMode(m, s)
            && first[..n] == s[..n] && first[n..] == t && (EndsStatement(m, first) <==> EndsStatement(m, s))
  {
    var n := TokenLength(m, s);
    var first := s[..n] + t;
    assert first[..n] == s[..n] && first[n..] == t;
    if n == 1 && t != [] {
      assert first[1] == t[0] == s[1];
    }
  }

  /** Each piece lexes as a single piece, and all but the last end outside the quotes. */
  lemma {:induction false} PiecesAreWhole(m: Mode, s: Text)
    ensures var p := RawPieces(m, s);
            && RawPieces(m, p[0]) == [p[0]]
            && (forall i :: 1 <= i < |p| ==> RawPieces(Outside, p[i]) == [p[i]])
            && (|p| > 1 ==> EndMode(m, p[0]) == Outside)
            && (forall i :: 1 <= i < |p| - 1 ==> EndMode(Outside, p[i]) == Outside)
    decreases |s|
  {
    if s == [] {
    } else {
      var n, next := TokenLength(m, s), NextMode(m, s);
      var p, rest := RawPieces(m, s), RawPieces(next, s[n..]);
      PiecesAreWhole(next, s[n..]);
      if EndsStatement(m, s) {
        assert forall i :: 1 <= i < |p| ==> p[i] == rest[i - 1];
      } else {
        assert forall i :: 1 <= i < |p| ==> p[i] == rest[i];
        FirstPieceIsPrefix(next, s[n..]);
        TokenOfPiece(m, s, rest[0]);
        assert Before(s[..n], [rest[0]]) == [s[..n] + rest[0]];
      }
    }
  }

  lemma StatementsCons(first: Text, rest: seq<Text>)
    requires Statement(first) && Statements(rest) && (rest != [] ==> EndMode(Outside, first) == Outside)
    ensures Statements([first] + rest)
  {
    var all := [first] + rest;
    forall i | 0 <= i < |all| - 1
      ensures EndMode(Outside, all[i]) == Outside
    {
      if i > 0 {
        assert all[i] == rest[i - 1];
      }
    }
  }

  lemma {:induction false} TrimmedAreStatements(pieces: seq<Text>)
    requires forall i :: 0 <= i < |pieces| ==> RawPieces(Outside, pieces[i]) == [pieces[i]]
    requires forall i :: 0 <= i < |pieces| - 1 ==> EndMode(Outside, pieces[i]) == Outside
    ensures Statements(Trimmed(pieces))
  {
    if pieces == [] {
    } else {
      var first, rest := pieces[0], pieces[1..];
      TrimmedAreStatements(rest);
      TrimmedOne(first);
      TrimmedAppend([first], rest);
      assert pieces == [first] + rest;
      assert rest == [] ==> Trimmed(rest) == [];
      if Trim(first) != [] {
        TrimKeepsLexing(first);
        TrimIdempotent(first);
        StatementsCons(Trim(first), Trimmed(rest));
      } else {
        assert [] + Trimmed(rest) == Trimmed(rest);
      }
    }
  }

  lemma StatementIsItself(s: Text)
    requires Statement(s)
    ensures SplitStatements(s) == [s]
  {
    TrimmedOne(s);
  }

  lemma {:induction false} StatementsSurvive(stmts: seq<Text>)
    requires Statements(stmts)
    ensures SplitStatements(Join([SEMICOLON], stmts)) == stmts
  {
    if stmts == [] {
      TrimmedOne([]);
      assert Trim([]) == [];
    } else {
      var first, rest := stmts[0], stmts[1..];
      assert Statement(first);
      StatementIsItself(first);
      assert stmts == [first] + rest;
      if rest != [] {
        assert forall i :: 0 <= i < |rest| ==> rest[i] == stmts[i + 1];
        StatementsSurvive(rest);
        SplitAtOutside(first, Join([SEMICOLON], rest));
      }
    }
  }

  /** Joining the statements and splitting again changes nothing, unterminated quotes included. */
  lemma SplitIdempotent(s: Text)
    ensures SplitStatements(Join([SEMICOLON], SplitStatements(s))) == SplitStatements(s)
  {
    PiecesAreWhole(Outside, s);
    TrimmedAreStatements(RawPieces(Outside, s));
    StatementsSurvive(SplitStatements(s));
  }
}
