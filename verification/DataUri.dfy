/** Image data URIs: `is_valid_data_uri`, `check_valid_list_content` and `split_url` in utils.py. */
module DataUri {
  import opened Prelude

  const PREFIX := "data:image/"
  const MARK := ";base64,"

  predicate Base64(c: char) {
    'A' <= c <= 'Z' || 'a' <= c <= 'z' || '0' <= c <= '9' || c == '+' || c == '/'
  }

  // ---------- The grammar ----------

  predicate Padded(p: string, pad: nat) {
    pad <= |p| && (forall i :: 0 <= i < |p| - pad ==> Base64(p[i])) && forall i :: |p| - pad <= i < |p| ==> p[i] == '='
  }

  /** Whole groups of four characters, with padding at the end of the last one only */
  ghost predicate Payload(p: string) {
    |p| % 4 == 0 && exists pad: nat :: pad <= 2 && Padded(p, pad)
  }

  predicate Format(f: string) {
    f in {"jpg", "png", "jpeg"}
  }

  /** The pattern's `$` also matches before one final newline. */
  predicate End(s: string) {
    s == "" || s == "\n"
  }

  ghost predicate Composed(uri: string, f: string, p: string, e: string) {
    Format(f) && Payload(p) && End(e) && uri == PREFIX + f + MARK + p + e
  }

  lemma Base64Exactly(c: char)
    ensures Base64(c) <==> c in "ABCDEFGHIJKLMNOPQRSTUVWXYZ" || c in "abcdefghijklmnopqrstuvwxyz" || c in "0123456789+/"
  {
  }

  /** The grammar spelled out: all but the last two characters of the payload are from the alphabet. */
  lemma ComposedExactly(uri: string, f: string, p: string, e: string)
    ensures Composed(uri, f, p, e) <==>
            && f in {"jpg", "png", "jpeg"} && (e == "" || e == "\n")
            && uri == "data:image/" + f + ";base64," + p + e
            && |p| % 4 == 0
            && (forall i :: 0 <= i < |p| - 2 ==> Base64(p[i]))
            && (p != "" ==>
                  || (Base64(p[|p| - 2]) && Base64(p[|p| - 1]))
                  || (Base64(p[|p| - 2]) && p[|p| - 1] == '=')
                  || (p[|p| - 2] == '=' && p[|p| - 1] == '='))
  {
    assert Padded(p, 0) <==> forall i :: 0 <= i < |p| ==> Base64(p[i]);
    assert |p| >= 1 ==> (Padded(p, 1) <==> (forall i :: 0 <= i < |p| - 1 ==> Base64(p[i])) && p[|p| - 1] == '=');
    assert |p| >= 2 ==>
             (Padded(p, 2) <==>
                (forall i :: 0 <= i < |p| - 2 ==> Base64(p[i])) && p[|p| - 2] == '=' && p[|p| - 1] == '=');
    if Payload(p) {
      var pad: nat :| pad <= 2 && Padded(p, pad);
      assert pad in {0, 1, 2};
    }
  }

  // ---------- The matcher ----------

  /** The part of the pattern after the comma */
  predicate MatchPayload(s: string) {
    || End(s)
    || (|s| >= 4 && Base64(s[0]) && Base64(s[1]) &&
        (|| (Base64(s[2]) && Base64(s[3]) && MatchPayload(s[4..]))
         || (s[2] == '=' && s[3] == '=' && End(s[4..]))
         || (Base64(s[2]) && s[3] == '=' && End(s[4..]))))
  }

  predicate MatchAfter(start: string, uri: string) {
    start <= uri && MatchPayload(uri[|start|..])
  }

  predicate IsValidDataUri(uri: string) {
    || MatchAfter(PREFIX + "jpg" + MARK, uri)
    || MatchAfter(PREFIX + "png" + MARK, uri)
    || MatchAfter(PREFIX + "jpeg" + MARK, uri)
  }

  lemma {:induction false} MatchedPayload(s: string) returns (p: string, e: string)
    requires MatchPayload(s)
    ensures s == p + e && End(e) && Payload(p)
    decreases |s|
  {
    if End(s) {
      p, e := "", s;
      assert Padded(p, 0);
    } else if s[3] == '=' {
      p, e := s[..4], s[4..];
      assert Padded(p, if s[2] == '=' then 2 else 1);
    } else {
      var q;
      q, e := MatchedPayload(s[4..]);
      p := s[..4] + q;
      var pad: nat :| pad <= 2 && Padded(q, pad);
      assert Padded(p, pad);
    }
  }

  lemma {:induction false} PayloadMatches(p: string, e: string)
    requires Payload(p) && End(e)
    ensures MatchPayload(p + e)
    decreases |p|
  {
    var s := p + e;
    if p == "" {
      assert s == e;
    } else {
      var pad: nat :| pad <= 2 && Padded(p, pad);
      assert s[4..] == p[4..] + e;
      if |p| > 4 {
        assert Padded(p[4..], pad);
        PayloadMatches(p[4..], e);
      } else {
        assert p[4..] == "";
        assert s[4..] == e;
      }
    }
  }

  /** The matcher accepts exactly the grammar. */
  lemma ValidExactly(uri: string)
    ensures IsValidDataUri(uri) <==> exists f, p, e :: Composed(uri, f, p, e)
  {
    forall f | Format(f)
      ensures MatchAfter(PREFIX + f + MARK, uri) <==> exists p, e :: Composed(uri, f, p, e)
    {
      var start := PREFIX + f + MARK;
      if MatchAfter(start, uri) {
        var p, e := MatchedPayload(uri[|start|..]);
        assert uri == start + uri[|start|..] == start + p + e;
        assert Composed(uri, f, p, e);
      }
      if p, e :| Composed(uri, f, p, e) {
        assert uri == start + (p + e) && uri[|start|..] == p + e;
        PayloadMatches(p, e);
      }
    }
    assert Format("jpg") && Format("png") && Format("jpeg");
  }

  // ---------- Splitting ----------

  /** `s.split(sep)` */
  function SplitOn(s: string, sep: string): (pieces: seq<string>)
    requires sep != ""
    ensures pieces != []
  {
    if sep <= s then [""] + SplitOn(s[|sep|..], sep)
    else if s == "" then [""]
    else Extend(s[0], SplitOn(s[1..], sep))
  }

  datatype Error = InvalidImage | PrefixError

  function SplitUrl(url: string): Result<(string, string), Error> {
    var rest := if |PREFIX| <= |url| then url[|PREFIX|..] else "";
    var pieces := SplitOn(rest, MARK);
    if |pieces| == 2 then Ok((pieces[0], pieces[1])) else Err(PrefixError)
  }

  lemma {:induction false} SplitWithoutMark(s: string)
    requires ';' !in s
    ensures SplitOn(s, MARK) == [s]
  {
    if s == "" {
    } else {
      assert MARK[0] == ';';
      SplitWithoutMark(s[1..]);
      assert [s[0]] + s[1..] == s;
    }
  }

  lemma {:induction false} SplitAtMark(a: string, b: string)
    requires ';' !in a && ';' !in b
    ensures SplitOn(a + MARK + b, MARK) == [a, b]
  {
    var s := a + MARK + b;
    if a == "" {
      assert s == MARK + b && s[|MARK|..] == b;
      SplitWithoutMark(b);
    } else {
      TailOfAppend(a, MARK);
      TailOfAppend(a + MARK, b);
      assert MARK[0] == ';' && s[0] == a[0] != ';';
      SplitAtMark(a[1..], b);
      assert [a[0]] + a[1..] == a;
    }
  }

  lemma NoMarkInside(f: string, p: string, e: string)
    requires Format(f) && Payload(p) && End(e)
    ensures ';' !in f && ';' !in p + e && '\n' !in p
  {
    var pad: nat :| pad <= 2 && Padded(p, pad);
    assert forall i :: 0 <= i < |p| ==> p[i] != ';' && p[i] != '\n';
  }

  /** The payload less the newline that the pattern admits */
  function Chomp(content: string): (payload: string)
    ensures payload <= content
  {
    if content != "" && content[|content| - 1] == '\n' then content[..|content| - 1] else content
  }

  lemma ComposedSplits(uri: string, f: string, p: string, e: string)
    requires Composed(uri, f, p, e)
    ensures SplitUrl(uri) == Ok((f, p + e)) && Chomp(p + e) == p
  {
    NoMarkInside(f, p, e);
    var content := p + e;
    SplitAtMark(f, content);
    var rest := f + MARK + content;
    assert uri == PREFIX + rest && uri[|PREFIX|..] == rest;
    if e == "\n" {
      assert content[..|p|] == p;
    } else {
      assert content == p;
    }
  }

  /** A valid URI splits into its format and its payload, and the two make it up again. */
  lemma ValidSplits(uri: string)
    requires IsValidDataUri(uri)
    ensures SplitUrl(uri).Ok?
    ensures var (f, content) := SplitUrl(uri).value;
            && f in {"jpg", "png", "jpeg"} && uri == "data:image/" + f + ";base64," + content
            && Composed(uri, f, Chomp(content), content[|Chomp(content)|..])
  {
    ValidExactly(uri);
    var f, p, e :| Composed(uri, f, p, e);
    ComposedSplits(uri, f, p, e);
    assert PREFIX + f + MARK + (p + e) == PREFIX + f + MARK + p + e;
    assert (p + e)[|p|..] == e;
  }

  // ---------- Lists of contents ----------

  datatype Content = TextItem(text: string) | ImageItem(url: string)

  method CheckValidListContent(content: seq<Content>) returns (r: Result<(), Error>)
    ensures r.Ok? <==> forall c <- content :: c.ImageItem? ==> IsValidDataUri(c.url)
    ensures r.Err? ==> r.error == InvalidImage
  {
    for i := 0 to |content|
      invariant forall c <- content[..i] :: c.ImageItem? ==> IsValidDataUri(c.url)
    {
      if content[i].ImageItem? && !IsValidDataUri(content[i].url) {
        return Err(InvalidImage);
      }
    }
    return Ok(());
  }

  datatype Block = TextBlock(text: string) | ImageBlock(mediaType: string, data: string)

  /** The block carries the item: an image's media type and data make up its URI. */
  ghost predicate Shows(block: Block, item: Content) {
    match item
    case TextItem(text) => block == TextBlock(text)
    case ImageItem(url) =>
      && block.ImageBlock? && block.mediaType in {"image/jpg", "image/png", "image/jpeg"}
      && url == "data:" + block.mediaType + MARK + block.data
  }

  lemma MediaType(f: string)
    requires f in {"jpg", "png", "jpeg"}
    ensures "image/" + f in {"image/jpg", "image/png", "image/jpeg"}
    ensures "data:image/" + f == "data:" + ("image/" + f)
  {
    assert "image/" + "jpg" == "image/jpg" && "image/" + "png" == "image/png" && "image/" + "jpeg" == "image/jpeg";
    assert "data:image/" == "data:" + "image/";
    AppendAssociative("data:", "image/", f);
  }

  lemma ValidBlock(url: string)
    requires IsValidDataUri(url)
    ensures SplitUrl(url).Ok?
    ensures var (f, content) := SplitUrl(url).value; Shows(ImageBlock("image/" + f, content), ImageItem(url))
  {
    ValidSplits(url);
    MediaType(SplitUrl(url).value.0);
  }

  /** The block for one item; the raising branch of `split_url` is ruled out. */
  method BuildBlock(item: Content) returns (block: Block)
    requires item.ImageItem? ==> IsValidDataUri(item.url)
    ensures Shows(block, item)
  {
    match item
    case TextItem(text) =>
      block := TextBlock(text);
    case ImageItem(url) =>
      ValidBlock(url);
      var (format, data) := SplitUrl(url).value;
      block := ImageBlock("image/" + format, data);
  }

  /** The user branch of `_build_anthropic_message` on a list: check first, then split every image. */
  method BuildBlocks(content: seq<Content>) returns (r: Result<seq<Block>, Error>)
    ensures r.Ok? <==> forall c <- content :: c.ImageItem? ==> IsValidDataUri(c.url)
    ensures r.Err? ==> r.error == InvalidImage
    ensures r.Ok? ==> |r.value| == |content| && forall i :: 0 <= i < |content| ==> Shows(r.value[i], content[i])
    ensures r.Ok? ==> forall i :: 0 <= i < |content| ==>
                                    match content[i]
                                    case TextItem(text) => r.value[i] == TextBlock(text)
                                    case ImageItem(url) =>
                                      && r.value[i].ImageBlock?
                                      && r.value[i].mediaType in {"image/jpg", "image/png", "image/jpeg"}
                                      && url == "data:" + r.value[i].mediaType + ";base64," + r.value[i].data
  {
    var checked := CheckValidListContent(content);
    if checked.Err? {
      return Err(checked.error);
    }
    var blocks := [];
    for i := 0 to |content|
      invariant |blocks| == i && forall j :: 0 <= j < i ==> Shows(blocks[j], content[j])
    {
      assert content[i] in content;
      var block := BuildBlock(content[i]);
      blocks := blocks + [block];
    }
    return Ok(blocks);
  }
}
