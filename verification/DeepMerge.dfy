/** The recursive merge of configurations: `deep_merge_dicts` in model_config_schema.py. */
module DeepMerge {
  import opened Prelude

  /** A loaded configuration value; a leaf is anything that is not a dictionary. */
  datatype Value<L> = Leaf(leaf: L) | Dict(entries: map<string, Value<L>>)

  type Entries<L> = map<string, Value<L>>

  function MergedAt<L>(defaults: Entries<L>, updates: Entries<L>, k: string): Value<L>
    requires k in defaults || k in updates
    decreases Dict(updates), 0
  {
    if k !in updates then defaults[k]
    else if updates[k].Dict? && k in defaults && defaults[k].Dict? then
      assert updates[k] == Dict(updates[k].entries);
      Dict(Merge(defaults[k].entries, updates[k].entries))
    else updates[k]
  }

  function Merge<L>(defaults: Entries<L>, updates: Entries<L>): (r: Entries<L>)
    ensures r.Keys == defaults.Keys + updates.Keys
    decreases Dict(updates)
  {
    map k | k in defaults.Keys + updates.Keys :: MergedAt(defaults, updates, k)
  }

  /** Key by key: what only one side has is kept, two dictionaries are merged, and else the update wins. */
  lemma MergeExactly<L>(defaults: Entries<L>, updates: Entries<L>, k: string)
    ensures k in Merge(defaults, updates) <==> k in defaults || k in updates
    ensures k in defaults && k !in updates ==> Merge(defaults, updates)[k] == defaults[k]
    ensures k !in defaults && k in updates ==> Merge(defaults, updates)[k] == updates[k]
    ensures k in defaults && k in updates && defaults[k].Dict? && updates[k].Dict? ==>
              Merge(defaults, updates)[k] == Dict(Merge(defaults[k].entries, updates[k].entries))
    ensures k in defaults && k in updates && (defaults[k].Leaf? || updates[k].Leaf?) ==>
              Merge(defaults, updates)[k] == updates[k]
  {
  }

  method DeepMergeDicts<L>(defaults: Entries<L>, updates: Entries<L>) returns (result: Entries<L>)
    ensures result == Merge(defaults, updates)
    decreases Dict(updates)
  {
    result := defaults;
    var rest := updates.Keys;
    while rest != {}
      invariant rest <= updates.Keys
      invariant result.Keys == defaults.Keys + (updates.Keys - rest)
      invariant forall k <- result ::
                  result[k] == if k in updates && k !in rest then MergedAt(defaults, updates, k) else defaults[k]
      decreases rest
    {
      var key :| key in rest;
      var value := updates[key];
      var merged := value;
      if value.Dict? && key in defaults && defaults[key].Dict? {
        assert value == Dict(value.entries);
        var inner := DeepMergeDicts(defaults[key].entries, value.entries);
        merged := Dict(inner);
      }
      assert merged == MergedAt(defaults, updates, key);
      result := result[key := merged];
      rest := rest - {key};
    }
    assert forall k <- result :: result[k] == Merge(defaults, updates)[k];
  }

  // ---------- Identity and idempotence ----------

  lemma MergeIdentity<L>(d: Entries<L>)
    ensures Merge(d, map[]) == d && Merge(map[], d) == d
  {
  }

  lemma {:induction false} MergeIdempotent<L>(d: Entries<L>)
    ensures Merge(d, d) == d
    decreases Dict(d)
  {
    forall k <- d
      ensures Merge(d, d)[k] == d[k]
    {
      if d[k].Dict? {
        assert d[k] == Dict(d[k].entries);
        MergeIdempotent(d[k].entries);
      }
    }
  }

  // ---------- Lookup along a path ----------

  function Lookup<L>(d: Entries<L>, path: seq<string>): Option<Value<L>>
    decreases |path|
  {
    if path == [] then Some(Dict(d))
    else if path[0] !in d then None
    else if |path| == 1 then Some(d[path[0]])
    else if d[path[0]].Leaf? then None
    else Lookup(d[path[0]].entries, path[1..])
  }

  /** The path runs into a leaf before its end. */
  predicate LeafOnPath<L>(d: Entries<L>, path: seq<string>)
    decreases |path|
  {
    |path| > 1 && path[0] in d && (d[path[0]].Leaf? || LeafOnPath(d[path[0]].entries, path[1..]))
  }

  /** What a merge holds at a path, from what its operands hold there */
  function MergedLookup<L>(defaults: Entries<L>, updates: Entries<L>, path: seq<string>): Option<Value<L>> {
    match Lookup(updates, path)
    case Some(Leaf(x)) => Some(Leaf(x))
    case Some(Dict(e)) =>
      var d := Lookup(defaults, path);
      if d.Some? && d.value.Dict? then Some(Dict(Merge(d.value.entries, e))) else Some(Dict(e))
    case None => if LeafOnPath(updates, path) then None else Lookup(defaults, path)
  }

  lemma {:induction false} LookupInMerge<L>(defaults: Entries<L>, updates: Entries<L>, path: seq<string>)
    ensures Lookup(Merge(defaults, updates), path) == MergedLookup(defaults, updates, path)
    decreases |path|
  {
    if |path| <= 1 {
    } else {
      var k := path[0];
      if k in updates && updates[k].Dict? && k in defaults && defaults[k].Dict? {
        LookupInMerge(defaults[k].entries, updates[k].entries, path[1..]);
      }
    }
  }

  // ---------- Associativity ----------

  /** Nothing of `x` shows when `z` is merged over it. */
  predicate Absorbs<L>(x: Entries<L>, z: Entries<L>)
    decreases Dict(x)
  {
    forall k <- x :: k in z &&
      (x[k].Dict? && z[k].Dict? ==> assert x[k] == Dict(x[k].entries); Absorbs(x[k].entries, z[k].entries))
  }

  lemma {:induction false} AbsorbsExactly<L>(x: Entries<L>, z: Entries<L>)
    ensures Absorbs(x, z) <==> Merge(x, z) == z
    decreases Dict(x)
  {
    forall k | k in x && x[k].Dict? && k in z && z[k].Dict?
      ensures Absorbs(x[k].entries, z[k].entries) <==> Merge(x, z)[k] == z[k]
    {
      assert x[k] == Dict(x[k].entries);
      AbsorbsExactly(x[k].entries, z[k].entries);
    }
    if Absorbs(x, z) {
      assert forall k <- z :: Merge(x, z)[k] == z[k];
    }
  }

  /** Where a leaf of `b` stands between two dictionaries, the first of them must be absorbed by the last. */
  predicate Associates<L>(a: Entries<L>, b: Entries<L>, c: Entries<L>)
    decreases Dict(c)
  {
    forall k | k in c && k in a && k in b && a[k].Dict? && c[k].Dict? ::
      assert c[k] == Dict(c[k].entries);
      if b[k].Leaf? then Absorbs(a[k].entries, c[k].entries)
      else Associates(a[k].entries, b[k].entries, c[k].entries)
  }

  lemma AssociativeAt<L>(a: Entries<L>, b: Entries<L>, c: Entries<L>, k: string)
    requires k in a || k in b || k in c
    ensures var left, right := Merge(Merge(a, b), c)[k], Merge(a, Merge(b, c))[k];
            if k in c && k in a && k in b && a[k].Dict? && c[k].Dict? then
              if b[k].Leaf? then left == c[k] && right == Dict(Merge(a[k].entries, c[k].entries))
              else && left == Dict(Merge(Merge(a[k].entries, b[k].entries), c[k].entries))
                   && right == Dict(Merge(a[k].entries, Merge(b[k].entries, c[k].entries)))
            else left == right
  {
  }

  predicate AssociatesAt<L>(a: Entries<L>, b: Entries<L>, c: Entries<L>, k: string) {
    k in c && k in a && k in b && a[k].Dict? && c[k].Dict? ==>
      if b[k].Leaf? then Absorbs(a[k].entries, c[k].entries)
      else Associates(a[k].entries, b[k].entries, c[k].entries)
  }

  /** The exact condition for a merge of three to be associative. */
  lemma {:induction false} AssociativeExactly<L>(a: Entries<L>, b: Entries<L>, c: Entries<L>)
    ensures Merge(Merge(a, b), c) == Merge(a, Merge(b, c)) <==> Associates(a, b, c)
    decreases Dict(c)
  {
    var left, right := Merge(Merge(a, b), c), Merge(a, Merge(b, c));
    assert left.Keys == right.Keys;
    forall k <- left
      ensures left[k] == right[k] <==> AssociatesAt(a, b, c, k)
    {
      AssociativeAt(a, b, c, k);
      if k in c && k in a && k in b && a[k].Dict? && c[k].Dict? {
        assert c[k] == Dict(c[k].entries);
        if b[k].Leaf? {
          AbsorbsExactly(a[k].entries, c[k].entries);
        } else {
          AssociativeExactly(a[k].entries, b[k].entries, c[k].entries);
        }
      }
    }
    assert Associates(a, b, c) <==> forall k <- left :: AssociatesAt(a, b, c, k);
  }

  predicate ClashAt<L>(a: Entries<L>, b: Entries<L>, c: Entries<L>, path: seq<string>) {
    var x, y, z := Lookup(a, path), Lookup(b, path), Lookup(c, path);
    x.Some? && x.value.Dict? && y.Some? && y.value.Leaf? && z.Some? && z.value.Dict?
  }

  /** No path leads to a dictionary in `a` and `c` but to a leaf in `b`. */
  ghost predicate NoClash<L>(a: Entries<L>, b: Entries<L>, c: Entries<L>) {
    forall path: seq<string> :: !ClashAt(a, b, c, path)
  }

  lemma {:induction false} AssociativeWithoutClash<L>(a: Entries<L>, b: Entries<L>, c: Entries<L>)
    requires NoClash(a, b, c)
    ensures Associates(a, b, c) && Merge(Merge(a, b), c) == Merge(a, Merge(b, c))
    decreases Dict(c)
  {
    forall k | k in c && k in a && k in b && a[k].Dict? && c[k].Dict?
      ensures b[k].Dict? && Associates(a[k].entries, b[k].entries, c[k].entries)
    {
      assert !ClashAt(a, b, c, [k]);
      assert c[k] == Dict(c[k].entries);
      forall path: seq<string>
        ensures !ClashAt(a[k].entries, b[k].entries, c[k].entries, path)
      {
        assert !ClashAt(a, b, c, [k] + path);
        assert ([k] + path)[1..] == path;
      }
      AssociativeWithoutClash(a[k].entries, b[k].entries, c[k].entries);
    }
    AssociativeExactly(a, b, c);
  }

  /** A clash that breaks associativity: the leaf in the middle hides the first dictionary on one side only. */
  lemma ClashBreaksAssociativity<L>(x: L)
    ensures var a, b, c := map["k" := Dict(map["x" := Leaf(x)])], map["k" := Leaf(x)], map["k" := Dict(map[])];
            Merge(Merge(a, b), c) != Merge(a, Merge(b, c))
  {
    var inner: Entries<L> := map["x" := Leaf(x)];
    var a, b, c: Entries<L> := map["k" := Dict(inner)], map["k" := Leaf(x)], map["k" := Dict(map[])];
    AssociativeExactly(a, b, c);
    assert "x" in inner;
    assert !Absorbs(inner, map[]);
    assert "k" in c && !AssociatesAt(a, b, c, "k");
  }
}
