/** Types and sequence functions shared by the component models. */
module Prelude {

  datatype Option<+T> = None | Some(value: T)

  datatype Result<+T, +E> = Ok(value: T) | Err(error: E)

  /** The last element of a sequence, if there is one. */
  function Last<T>(s: seq<T>): (r: Option<T>)
    ensures r.None? <==> s == []
    ensures r.Some? ==> s[|s| - 1] == r.value
  {
    if s == [] then None else Some(s[|s| - 1])
  }

  /** Index of the first `c`, or the length when there is none */
  function Find<T(==)>(s: seq<T>, c: T): (k: nat)
    ensures k <= |s| && c !in s[..k] && (k < |s| ==> s[k] == c)
  {
    if s == [] || s[0] == c then 0
    else
      var k := 1 + Find(s[1..], c);
      assert s[..k] == [s[0]] + s[1..][..k - 1];
      k
  }

  /** The list of `part` alone, or the empty list for an empty part */
  function Kept<T(==)>(part: seq<T>): (r: seq<seq<T>>)
    ensures part == [] ==> r == []
    ensures part != [] ==> r == [part]
  {
    if part == [] then [] else [part]
  }

  /** The parts, in order, with `sep` between neighbours. */
  function Join<T>(sep: seq<T>, parts: seq<seq<T>>): seq<T> {
    if parts == [] then []
    else if |parts| == 1 then parts[0]
    else parts[0] + sep + Join(sep, parts[1..])
  }

  /** Put `x` at the front of the first piece. */
  function Extend<T>(x: T, pieces: seq<seq<T>>): (r: seq<seq<T>>)
    requires pieces != []
    ensures |r| == |pieces| && r[0] == [x] + pieces[0] && r[1..] == pieces[1..]
  {
    [[x] + pieces[0]] + pieces[1..]
  }

  /** The maximal pieces of `s` that are free of `c`; there is always at least one. */
  function Split<T(==)>(s: seq<T>, c: T): (pieces: seq<seq<T>>)
    ensures |pieces| >= 1
    ensures forall i :: 0 <= i < |pieces| ==> c !in pieces[i]
  {
    if s == [] then [[]]
    else
      var rest := Split(s[1..], c);
      if s[0] == c then [[]] + rest else Extend(s[0], rest)
  }

  lemma ExtendAppend<T>(x: T, p: seq<seq<T>>, q: seq<seq<T>>)
    requires p != []
    ensures Extend(x, p + q) == Extend(x, p) + q
  {
    assert (p + q)[1..] == p[1..] + q;
  }

  function Flatten<T>(parts: seq<seq<T>>): seq<T> {
    if parts == [] then [] else parts[0] + Flatten(parts[1..])
  }

  /** Two lists of parts, with the last of one and the first of the other made one part */
  function Glue<T>(p: seq<seq<T>>, q: seq<seq<T>>): (r: seq<seq<T>>)
    requires p != [] && q != []
    ensures |r| == |p| + |q| - 1
  {
    p[..|p| - 1] + [p[|p| - 1] + q[0]] + q[1..]
  }

  lemma GlueExactly<T>(p: seq<seq<T>>, last: seq<T>, first: seq<T>, q: seq<seq<T>>)
    ensures Glue(p + [last], [first] + q) == p + [last + first] + q
  {
    assert (p + [last])[..|p|] == p && ([first] + q)[1..] == q;
  }

  lemma GlueBehind<T>(front: seq<seq<T>>, p: seq<seq<T>>, q: seq<seq<T>>)
    requires p != [] && q != []
    ensures front + Glue(p, q) == Glue(front + p, q)
  {
  }

  lemma AppendAssociative<T>(a: seq<T>, b: seq<T>, c: seq<T>)
    ensures a + (b + c) == a + b + c
  {
  }

  function Init<T>(s: seq<T>): seq<T>
    requires s != []
  {
    s[..|s| - 1]
  }

  lemma InitLast<T>(s: seq<T>)
    requires s != []
    ensures s == Init(s) + [s[|s| - 1]]
  {
  }

  lemma InitSnoc<T>(s: seq<T>, x: T)
    ensures Init(s + [x]) == s
  {
  }

  lemma AppendEmpty<T>(s: seq<T>)
    ensures [] + s == s && s + [] == s
  {
  }

  lemma TailOfAppend<T>(a: seq<T>, b: seq<T>)
    requires a != []
    ensures (a + b)[0] == a[0] && (a + b)[1..] == a[1..] + b
  {
  }

  lemma {:induction false} FlattenAppend<T>(a: seq<seq<T>>, b: seq<seq<T>>)
    ensures Flatten(a + b) == Flatten(a) + Flatten(b)
  {
    if a == [] {
      AppendEmpty(b);
      AppendEmpty(Flatten(b));
    } else {
      TailOfAppend(a, b);
      FlattenAppend(a[1..], b);
      AppendAssociative(a[0], Flatten(a[1..]), Flatten(b));
    }
  }

  lemma FlattenOne<T>(part: seq<T>)
    ensures Flatten([part]) == part
  {
    assert Flatten([part]) == part + Flatten([part][1..]);
    assert part + [] == part;
  }

  lemma FlattenLast<T>(parts: seq<seq<T>>)
    requires parts != []
    ensures Flatten(parts) == Flatten(Init(parts)) + parts[|parts| - 1]
  {
    var last := parts[|parts| - 1];
    InitLast(parts);
    FlattenAppend(Init(parts), [last]);
    FlattenOne(last);
  }

  lemma FlattenSnoc<T>(parts: seq<seq<T>>, part: seq<T>)
    ensures Flatten(parts + [part]) == Flatten(parts) + part
  {
    FlattenAppend(parts, [part]);
    FlattenOne(part);
  }

  lemma {:induction false} JoinSplit<T>(s: seq<T>, c: T)
    ensures Join([c], Split(s, c)) == s
  {
    if s == [] {
    } else {
      JoinSplit(s[1..], c);
      var rest := Split(s[1..], c);
      var all := Split(s, c);
      if s[0] == c {
        assert all[1..] == rest;
      } else {
        assert all[1..] == rest[1..];
      }
      assert s == [s[0]] + s[1..];
    }
  }

  lemma {:induction false} SplitFree<T>(s: seq<T>, c: T)
    requires c !in s
    ensures Split(s, c) == [s]
  {
    if s == [] {
    } else {
      SplitFree(s[1..], c);
      assert s == [s[0]] + s[1..];
    }
  }

  lemma {:induction false} SplitAtSeparator<T>(a: seq<T>, c: T, b: seq<T>)
    ensures Split(a + [c] + b, c) == Split(a, c) + Split(b, c)
  {
    var s := a + [c] + b;
    if a == [] {
      assert s == [c] + b && s[1..] == b;
    } else {
      assert s[0] == a[0] && s[1..] == a[1..] + [c] + b;
      SplitAtSeparator(a[1..], c, b);
      if a[0] != c {
        ExtendAppend(a[0], Split(a[1..], c), Split(b, c));
      }
    }
  }

  lemma {:induction false} SplitJoin<T>(parts: seq<seq<T>>, c: T)
    requires parts != []
    requires forall i :: 0 <= i < |parts| ==> c !in parts[i]
    ensures Split(Join([c], parts), c) == parts
  {
    SplitFree(parts[0], c);
    if |parts| == 1 {
    } else {
      SplitJoin(parts[1..], c);
      SplitAtSeparator(parts[0], c, Join([c], parts[1..]));
      assert parts == [parts[0]] + parts[1..];
    }
  }

  /** When the last piece is empty, and when the first one is */
  lemma {:induction false} OuterPieces<T>(s: seq<T>, c: T)
    ensures var p := Split(s, c);
            && (p[|p| - 1] == [] <==> s == [] || s[|s| - 1] == c)
            && (p[0] == [] <==> s == [] || s[0] == c)
  {
    if s == [] {
    } else {
      OuterPieces(s[1..], c);
    }
  }

  lemma JoinFew<T>(sep: seq<T>, part: seq<T>)
    ensures Join(sep, []) == [] && Join(sep, [part]) == part
  {
  }

  lemma {:induction false} JoinSnoc<T>(sep: seq<T>, parts: seq<seq<T>>, last: seq<T>)
    requires parts != []
    ensures Join(sep, parts + [last]) == Join(sep, parts) + sep + last
  {
    var all := parts + [last];
    if |parts| == 1 {
      assert all[1..] == [last];
    } else {
      JoinSnoc(sep, parts[1..], last);
      assert all[1..] == parts[1..] + [last];
    }
  }

  lemma {:induction false} SubsetSize<T>(a: set<T>, b: set<T>)
    requires a <= b
    ensures |a| <= |b|
  {
    if a == {} {
    } else {
      var x :| x in a;
      SubsetSize(a - {x}, b - {x});
    }
  }
}
