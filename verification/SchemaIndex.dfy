/** The model schema cache and its two indexes: cache/model_schema.py. */
module SchemaIndex {
  import opened Prelude

  datatype ModelSchema =
    ModelSchema(modelSchemaId: string, providerId: string, providerModelId: Option<string>, kind: string)

  // ---------- Sorting by id ----------

  /** Python's order on strings */
  predicate AtMost(s: string, t: string) {
    s == "" || (t != "" && (s[0] < t[0] || (s[0] == t[0] && AtMost(s[1..], t[1..]))))
  }

  lemma {:induction false} AtMostTotal(s: string, t: string)
    ensures AtMost(s, t) || AtMost(t, s)
    ensures AtMost(s, t) && AtMost(t, s) ==> s == t
  {
    if s == "" || t == "" {
    } else {
      AtMostTotal(s[1..], t[1..]);
      assert s == [s[0]] + s[1..] && t == [t[0]] + t[1..];
    }
  }

  lemma {:induction false} AtMostTransitive(s: string, t: string, u: string)
    requires AtMost(s, t) && AtMost(t, u)
    ensures AtMost(s, u)
  {
    if s == "" || t == "" || u == "" || s[0] != t[0] || t[0] != u[0] {
    } else {
      AtMostTransitive(s[1..], t[1..], u[1..]);
    }
  }

  /** A prefix is smaller, and else the first difference decides. */
  lemma {:induction false} AtMostExactly(s: string, t: string)
    ensures AtMost(s, t) <==> s <= t || exists k :: 0 <= k < |s| && k < |t| && s[..k] == t[..k] && s[k] < t[k]
  {
    if s == "" || t == "" {
    } else if s[0] != t[0] {
      assert s[0] < t[0] ==> s[..0] == t[..0];
      assert forall k :: 0 < k <= |s| && k <= |t| && s[..k] == t[..k] ==> s[..k][0] == t[..k][0];
    } else {
      var a, b := s[1..], t[1..];
      AtMostExactly(a, b);
      assert s <= t <==> a <= b;
      if k :| 0 <= k < |a| && k < |b| && a[..k] == b[..k] && a[k] < b[k] {
        assert s[..k + 1] == [s[0]] + a[..k] && t[..k + 1] == [t[0]] + b[..k];
        assert s[k + 1] < t[k + 1];
      }
      if k :| 0 <= k < |s| && k < |t| && s[..k] == t[..k] && s[k] < t[k] {
        assert k > 0;
        assert a[..k - 1] == s[..k][1..] && b[..k - 1] == t[..k][1..];
        assert a[k - 1] < b[k - 1];
      }
    }
  }

  predicate Sorted(schemas: seq<ModelSchema>) {
    forall i, j :: 0 <= i < j < |schemas| ==> AtMost(schemas[i].modelSchemaId, schemas[j].modelSchemaId)
  }

  /** Insert behind every schema whose id is not greater. */
  function Insert(sorted: seq<ModelSchema>, x: ModelSchema): (r: seq<ModelSchema>)
    ensures |r| == |sorted| + 1
  {
    if sorted == [] then [x]
    else
      var n := |sorted| - 1;
      if AtMost(sorted[n].modelSchemaId, x.modelSchemaId) then sorted + [x]
      else Insert(sorted[..n], x) + [sorted[n]]
  }

  /** What a stable sort by id returns */
  function SortById(schemas: seq<ModelSchema>): seq<ModelSchema> {
    if schemas == [] then []
    else Insert(SortById(schemas[..|schemas| - 1]), schemas[|schemas| - 1])
  }

  lemma {:induction false} InsertKeepsSorted(sorted: seq<ModelSchema>, x: ModelSchema)
    requires Sorted(sorted)
    ensures Sorted(Insert(sorted, x)) && multiset(Insert(sorted, x)) == multiset(sorted) + multiset{x}
  {
    if sorted == [] {
    } else {
      var n := |sorted| - 1;
      var before, last := sorted[..n], sorted[n];
      assert sorted == before + [last];
      AtMostTotal(last.modelSchemaId, x.modelSchemaId);
      if AtMost(last.modelSchemaId, x.modelSchemaId) {
        forall i | 0 <= i < n
          ensures AtMost(sorted[i].modelSchemaId, x.modelSchemaId)
        {
          AtMostTransitive(sorted[i].modelSchemaId, last.modelSchemaId, x.modelSchemaId);
        }
      } else {
        InsertKeepsSorted(before, x);
        var inner := Insert(before, x);
        forall i | 0 <= i < |inner|
          ensures AtMost(inner[i].modelSchemaId, last.modelSchemaId)
        {
          assert inner[i] in multiset(inner);
          assert inner[i] == x || inner[i] in before;
        }
      }
    }
  }

  lemma {:induction false} SortIsSorted(schemas: seq<ModelSchema>)
    ensures Sorted(SortById(schemas)) && multiset(SortById(schemas)) == multiset(schemas)
    ensures var r := SortById(schemas);
            forall i, j :: 0 <= i < j < |r| ==> AtMost(r[i].modelSchemaId, r[j].modelSchemaId)
  {
    if schemas == [] {
    } else {
      var before, last := schemas[..|schemas| - 1], schemas[|schemas| - 1];
      SortIsSorted(before);
      InsertKeepsSorted(SortById(before), last);
      assert schemas == before + [last];
    }
  }

  // ---------- Scanning ----------

  function WithId(schemas: seq<ModelSchema>, id: string): seq<ModelSchema> {
    if schemas == [] then []
    else
      var earlier, last := WithId(schemas[..|schemas| - 1], id), schemas[|schemas| - 1];
      if last.modelSchemaId == id then earlier + [last] else earlier
  }

  /** The schemas of a provider with exactly this model id, a missing one included */
  function WithModel(schemas: seq<ModelSchema>, providerId: string, modelId: Option<string>): seq<ModelSchema> {
    if schemas == [] then []
    else
      var earlier, last := WithModel(schemas[..|schemas| - 1], providerId, modelId), schemas[|schemas| - 1];
      if last.providerId == providerId && last.providerModelId == modelId then earlier + [last] else earlier
  }

  lemma {:induction false} InsertIsStable(sorted: seq<ModelSchema>, x: ModelSchema, id: string)
    ensures WithId(Insert(sorted, x), id) == WithId(sorted, id) + if x.modelSchemaId == id then [x] else []
  {
    if sorted == [] {
      assert [x][..0] == [];
    } else {
      var n := |sorted| - 1;
      var r := Insert(sorted, x);
      if AtMost(sorted[n].modelSchemaId, x.modelSchemaId) {
        assert r[..n + 1] == sorted;
      } else {
        InsertIsStable(sorted[..n], x, id);
        assert r[..n + 1] == Insert(sorted[..n], x);
        AtMostTotal(x.modelSchemaId, x.modelSchemaId);
      }
    }
  }

  /** Schemas with the same id keep the order in which they were loaded. */
  lemma {:induction false} SortIsStable(schemas: seq<ModelSchema>, id: string)
    ensures WithId(SortById(schemas), id) == WithId(schemas, id)
  {
    if schemas == [] {
    } else {
      var before, last := schemas[..|schemas| - 1], schemas[|schemas| - 1];
      SortIsStable(before, id);
      InsertIsStable(SortById(before), last, id);
    }
  }

  // ---------- The indexes ----------

  /** An f-string shows a missing model id as `None`. */
  function ModelText(modelId: Option<string>): string {
    if modelId.Some? then modelId.value else "None"
  }

  /** The joined key of a provider id and a model id */
  function Key(providerId: string, modelId: Option<string>): string {
    providerId + ":" + ModelText(modelId)
  }

  function KeyOf(schema: ModelSchema): string {
    Key(schema.providerId, schema.providerModelId)
  }

  function WithKey(schemas: seq<ModelSchema>, key: string): seq<ModelSchema> {
    if schemas == [] then []
    else
      var earlier, last := WithKey(schemas[..|schemas| - 1], key), schemas[|schemas| - 1];
      if KeyOf(last) == key then earlier + [last] else earlier
  }

  /** The dictionary comprehensions: of several schemas with one key the last is kept. */
  function IndexById(schemas: seq<ModelSchema>): map<string, ModelSchema> {
    if schemas == [] then map[]
    else
      var last := schemas[|schemas| - 1];
      IndexById(schemas[..|schemas| - 1])[last.modelSchemaId := last]
  }

  function IndexByModel(schemas: seq<ModelSchema>): map<string, ModelSchema> {
    if schemas == [] then map[]
    else
      var last := schemas[|schemas| - 1];
      IndexByModel(schemas[..|schemas| - 1])[KeyOf(last) := last]
  }

  function Get(index: map<string, ModelSchema>, key: string): Option<ModelSchema> {
    if key in index then Some(index[key]) else None
  }

  /** Providers are admitted by name, all of them when no names are configured. */
  function Admitted(schemas: seq<ModelSchema>, allowed: set<string>): seq<ModelSchema> {
    if schemas == [] then []
    else
      var earlier, last := Admitted(schemas[..|schemas| - 1], allowed), schemas[|schemas| - 1];
      if allowed == {} || last.providerId in allowed then earlier + [last] else earlier
  }

  function Listed(schemas: seq<ModelSchema>, providerId: Option<string>, kind: Option<string>): seq<ModelSchema> {
    if schemas == [] then []
    else
      var earlier, last := Listed(schemas[..|schemas| - 1], providerId, kind), schemas[|schemas| - 1];
      if (providerId.None? || last.providerId == providerId.value) && (kind.None? || last.kind == kind.value)
      then earlier + [last] else earlier
  }

  lemma {:induction false} GetByIdIsScan(schemas: seq<ModelSchema>, id: string)
    ensures Get(IndexById(schemas), id) == Last(WithId(schemas, id))
  {
    if schemas == [] {
    } else {
      GetByIdIsScan(schemas[..|schemas| - 1], id);
    }
  }

  /** Of all schemas loaded with an id, from whatever provider, the one loaded last answers for it. */
  lemma LastLoadedWins(read: seq<ModelSchema>, allowed: set<string>, id: string)
    ensures Get(IndexById(SortById(Admitted(read, allowed))), id) == Last(WithId(Admitted(read, allowed), id))
  {
    GetByIdIsScan(SortById(Admitted(read, allowed)), id);
    SortIsStable(Admitted(read, allowed), id);
  }

  // ---------- The joined key ----------

  predicate NoColons(schemas: seq<ModelSchema>) {
    forall i :: 0 <= i < |schemas| ==> ':' !in schemas[i].providerId
  }

  predicate NoNullIds(schemas: seq<ModelSchema>) {
    forall i :: 0 <= i < |schemas| ==> schemas[i].providerModelId.Some?
  }

  /** Without colons in the provider ids the joined key is unambiguous, up to a missing model id and `None`. */
  lemma KeyInjective(p: string, m: Option<string>, q: string, n: Option<string>)
    requires ':' !in p && ':' !in q
    ensures Key(p, m) == Key(q, n) <==> p == q && ModelText(m) == ModelText(n)
  {
    var k, l := Key(p, m), Key(q, n);
    assert k[|p|] == ':' && forall i :: 0 <= i < |p| ==> k[i] == p[i] != ':';
    assert l[|q|] == ':' && forall i :: 0 <= i < |q| ==> l[i] == q[i] != ':';
    if k == l {
      assert |p| == |q|;
      assert p == k[..|p|] == q && ModelText(m) == k[|p| + 1..] == ModelText(n);
    }
  }

  lemma {:induction false} GetByKeyIsScan(schemas: seq<ModelSchema>, key: string)
    ensures Get(IndexByModel(schemas), key) == Last(WithKey(schemas, key))
  {
    if schemas == [] {
    } else {
      GetByKeyIsScan(schemas[..|schemas| - 1], key);
    }
  }

  /** No other schema can have the joined key that is asked for. */
  predicate Unambiguous(schemas: seq<ModelSchema>, providerId: string, modelId: Option<string>) {
    NoColons(schemas) && ':' !in providerId && modelId.Some? && (modelId.value != "None" || NoNullIds(schemas))
  }

  lemma {:induction false} GetByModelIsScan(schemas: seq<ModelSchema>, providerId: string, modelId: Option<string>)
    requires Unambiguous(schemas, providerId, modelId)
    ensures Get(IndexByModel(schemas), Key(providerId, modelId)) == Last(WithModel(schemas, providerId, modelId))
  {
    if schemas == [] {
    } else {
      var last := schemas[|schemas| - 1];
      GetByModelIsScan(schemas[..|schemas| - 1], providerId, modelId);
      KeyInjective(last.providerId, last.providerModelId, providerId, modelId);
    }
  }

  lemma {:induction false} AdmittedFrom(read: seq<ModelSchema>, allowed: set<string>)
    ensures forall s <- Admitted(read, allowed) :: s in read
  {
    if read == [] {
    } else {
      AdmittedFrom(read[..|read| - 1], allowed);
    }
  }

  /** After any load the index is a scan for every query that is unambiguous over what was read. */
  lemma LoadedIndexIsScan(read: seq<ModelSchema>, allowed: set<string>, providerId: string, modelId: Option<string>)
    requires Unambiguous(read, providerId, modelId)
    ensures var schemas := SortById(Admitted(read, allowed));
            Unambiguous(schemas, providerId, modelId) &&
            Get(IndexByModel(schemas), Key(providerId, modelId)) == Last(WithModel(schemas, providerId, modelId))
  {
    var admitted := Admitted(read, allowed);
    var schemas := SortById(admitted);
    AdmittedFrom(read, allowed);
    SortIsSorted(admitted);
    forall i | 0 <= i < |schemas|
      ensures schemas[i] in read
    {
      assert schemas[i] in multiset(schemas);
      assert schemas[i] in admitted;
    }
    GetByModelIsScan(schemas, providerId, modelId);
  }

  /** The index agrees with the scan. */
  predicate Agrees(schemas: seq<ModelSchema>, providerId: string, modelId: Option<string>) {
    Get(IndexByModel(schemas), Key(providerId, modelId)) == Last(WithModel(schemas, providerId, modelId))
  }

  lemma OtherKeyDisagrees(s: ModelSchema, providerId: string, modelId: Option<string>)
    requires KeyOf(s) == Key(providerId, modelId)
    requires s.providerId != providerId || s.providerModelId != modelId
    ensures Get(IndexByModel([s]), Key(providerId, modelId)) == Some(s) && WithModel([s], providerId, modelId) == []
    ensures !Agrees([s], providerId, modelId)
  {
    var one, none: seq<ModelSchema> := [s], [];
    assert one[..|one| - 1] == none && one[|one| - 1] == s;
    assert IndexByModel(one) == IndexByModel(none)[KeyOf(s) := s];
    assert WithModel(one, providerId, modelId) == WithModel(none, providerId, modelId);
  }

  lemma KeyMovesColon(p: string, q: string, modelId: Option<string>)
    ensures Key(p, Some(q + ":" + ModelText(modelId))) == Key(p + ":" + q, modelId)
  {
    AppendAssociative(p + ":", q, ":" + ModelText(modelId));
    AppendAssociative(q, ":", ModelText(modelId));
    AppendAssociative(p + ":" + q, ":", ModelText(modelId));
  }

  /** A schema of the provider before the first colon has the key that is asked for. */
  lemma ColonDisagrees(providerId: string, modelId: Option<string>) returns (s: ModelSchema)
    requires ':' in providerId
    ensures NoColons([s]) && NoNullIds([s]) && !Agrees([s], providerId, modelId)
  {
    var k := Find(providerId, ':');
    s := ModelSchema("id", providerId[..k], Some(providerId[k + 1..] + ":" + ModelText(modelId)), "chat_completion");
    assert providerId == providerId[..k] + ":" + providerId[k + 1..];
    KeyMovesColon(providerId[..k], providerId[k + 1..], modelId);
    OtherKeyDisagrees(s, providerId, modelId);
  }

  /**
   * Over colon-free stored provider ids the index agrees with every scan exactly when the provider id asked for
   * has no colon and the model id asked for is neither missing nor `None`.
   */
  lemma IndexIsScanExactly(providerId: string, modelId: Option<string>)
    ensures (forall schemas :: NoColons(schemas) ==> Agrees(schemas, providerId, modelId))
       <==> ':' !in providerId && modelId.Some? && modelId.value != "None"
  {
    if ':' in providerId {
      var s := ColonDisagrees(providerId, modelId);
    } else if modelId == None || modelId == Some("None") {
      var other := if modelId == None then Some("None") else None;
      var s := ModelSchema("id", providerId, other, "chat_completion");
      OtherKeyDisagrees(s, providerId, modelId);
      assert NoColons([s]);
    } else {
      forall schemas | NoColons(schemas)
        ensures Agrees(schemas, providerId, modelId)
      {
        GetByModelIsScan(schemas, providerId, modelId);
      }
    }
  }

  /** Where every stored schema has a model id, `None` may be asked for as well. */
  lemma WithoutNullsIndexIsScanExactly(providerId: string, modelId: Option<string>)
    ensures (forall schemas :: NoColons(schemas) && NoNullIds(schemas) ==> Agrees(schemas, providerId, modelId))
       <==> ':' !in providerId && modelId.Some?
  {
    if ':' in providerId {
      var s := ColonDisagrees(providerId, modelId);
    } else if modelId == None {
      var s := ModelSchema("id", providerId, Some("None"), "chat_completion");
      OtherKeyDisagrees(s, providerId, modelId);
      assert NoColons([s]) && NoNullIds([s]);
    } else {
      forall schemas | NoColons(schemas) && NoNullIds(schemas)
        ensures Agrees(schemas, providerId, modelId)
      {
        GetByModelIsScan(schemas, providerId, modelId);
      }
    }
  }

  /** A colon in the provider id that is asked for can hit the schema of another provider. */
  lemma ColonInQueryMisleads()
    ensures var s := ModelSchema("id", "a", Some("b:c"), "chat_completion");
            && NoColons([s]) && WithModel([s], "a:b", Some("c")) == []
            && Get(IndexByModel([s]), Key("a:b", Some("c"))) == Some(s)
  {
    var s := ModelSchema("id", "a", Some("b:c"), "chat_completion");
    assert KeyOf(s) == "a:b:c" == Key("a:b", Some("c"));
    OtherKeyDisagrees(s, "a:b", Some("c"));
  }

  /** A schema without a model id, as wildcard schemas are, answers for the model `None`. */
  lemma NullIdMisleads()
    ensures var s := ModelSchema("id", "a", None, "chat_completion");
            && NoColons([s]) && WithModel([s], "a", Some("None")) == []
            && Get(IndexByModel([s]), Key("a", Some("None"))) == Some(s)
  {
    OtherKeyDisagrees(ModelSchema("id", "a", None, "chat_completion"), "a", Some("None"));
  }

  // ---------- The cache ----------

  /** What the scans keep of a list, schema by schema and in order */
  lemma ScansExactly(schemas: seq<ModelSchema>, s: ModelSchema, id: string, p: string, m: Option<string>)
    ensures WithId([], id) == WithModel([], p, m) == WithKey([], id) == []
    ensures WithId(schemas + [s], id) == WithId(schemas, id) + if s.modelSchemaId == id then [s] else []
    ensures WithModel(schemas + [s], p, m) ==
            WithModel(schemas, p, m) + if s.providerId == p && s.providerModelId == m then [s] else []
    ensures WithKey(schemas + [s], id) ==
            WithKey(schemas, id)
            + if id == s.providerId + ":" + (match s.providerModelId case None => "None" case Some(text) => text) then [s]
              else []
    ensures Key(p, m) == p + ":" + match m case None => "None" case Some(text) => text
  {
    assert (schemas + [s])[..|schemas|] == schemas;
    AppendEmpty(WithId(schemas, id));
    AppendEmpty(WithModel(schemas, p, m));
    AppendEmpty(WithKey(schemas, id));
  }

  /** The two filters: no names admit every provider, and a missing filter lets every schema through. */
  lemma FiltersExactly(schemas: seq<ModelSchema>, s: ModelSchema, allowed: set<string>, p: Option<string>,
                       kind: Option<string>)
    ensures Admitted([], allowed) == Listed([], p, kind) == []
    ensures Admitted(schemas + [s], allowed) ==
            Admitted(schemas, allowed) + if allowed == {} || s.providerId in allowed then [s] else []
    ensures Listed(schemas + [s], p, kind) ==
            Listed(schemas, p, kind)
            + if (p == None || p == Some(s.providerId)) && (kind == None || kind == Some(s.kind)) then [s] else []
  {
    assert (schemas + [s])[..|schemas|] == schemas;
    AppendEmpty(Admitted(schemas, allowed));
    AppendEmpty(Listed(schemas, p, kind));
  }

  /** The last schema with an id in a list, by position */
  lemma {:induction false} LastWithId(schemas: seq<ModelSchema>, id: string)
    ensures var r := Last(WithId(schemas, id));
            && (r.None? <==> forall i :: 0 <= i < |schemas| ==> schemas[i].modelSchemaId != id)
            && (r.Some? ==> exists i :: && 0 <= i < |schemas| && schemas[i] == r.value && r.value.modelSchemaId == id
                                        && forall j :: i < j < |schemas| ==> schemas[j].modelSchemaId != id)
  {
    if schemas == [] {
    } else {
      var n := |schemas| - 1;
      LastWithId(schemas[..n], id);
      var before, r := Last(WithId(schemas[..n], id)), Last(WithId(schemas, id));
      assert forall i :: 0 <= i < n ==> schemas[..n][i] == schemas[i];
      if schemas[n].modelSchemaId == id {
        assert r == Some(schemas[n]);
      } else {
        assert r == before;
        if r.Some? {
          var i :| && 0 <= i < n && schemas[..n][i] == r.value && r.value.modelSchemaId == id
                   && forall j :: i < j < n ==> schemas[..n][j].modelSchemaId != id;
          assert schemas[i] == r.value && forall j :: i < j < |schemas| ==> schemas[j].modelSchemaId != id;
        }
      }
    }
  }

  class SchemaCache {
    var schemas: seq<ModelSchema>
    var byId: map<string, ModelSchema>
    var byModel: map<string, ModelSchema>

    /** The indexes belong to the list. */
    ghost predicate Valid()
      reads this
    {
      byId == IndexById(schemas) && byModel == IndexByModel(schemas)
    }

    constructor ()
      ensures Valid() && schemas == []
    {
      schemas, byId, byModel := [], map[], map[];
    }

    /** The part of `load_model_schema_data` after reading; all three globals are replaced together. */
    method Load(read: seq<ModelSchema>, allowed: set<string>)
      modifies this
      ensures Valid() && schemas == SortById(Admitted(read, allowed))
    {
      var list := [];
      for i := 0 to |read|
        invariant list == Admitted(read[..i], allowed)
      {
        assert read[..i + 1][..i] == read[..i];
        if allowed == {} || read[i].providerId in allowed {
          list := list + [read[i]];
        }
      }
      assert read[..|read|] == read;
      var sorted := SortById(list);
      var ids, models := map[], map[];
      for i := 0 to |sorted|
        invariant ids == IndexById(sorted[..i]) && models == IndexByModel(sorted[..i])
      {
        assert sorted[..i + 1][..i] == sorted[..i];
        ids := ids[sorted[i].modelSchemaId := sorted[i]];
        models := models[KeyOf(sorted[i]) := sorted[i]];
      }
      assert sorted[..|sorted|] == sorted;
      schemas, byId, byModel := sorted, ids, models;
    }

    method ListModelSchemas(providerId: Option<string>, kind: Option<string>) returns (r: seq<ModelSchema>)
      ensures r == Listed(schemas, providerId, kind)
    {
      r := [];
      for i := 0 to |schemas|
        invariant r == Listed(schemas[..i], providerId, kind)
      {
        assert schemas[..i + 1][..i] == schemas[..i];
        var s := schemas[i];
        if (providerId.None? || s.providerId == providerId.value) && (kind.None? || s.kind == kind.value) {
          r := r + [s];
        }
      }
      assert schemas[..|schemas|] == schemas;
    }

    method GetModelSchema(id: string) returns (r: Option<ModelSchema>)
      requires Valid()
      ensures r == Last(WithId(schemas, id))
      ensures r.None? <==> forall i :: 0 <= i < |schemas| ==> schemas[i].modelSchemaId != id
      ensures r.Some? ==> exists i :: && 0 <= i < |schemas| && schemas[i] == r.value && r.value.modelSchemaId == id
                                      && forall j :: i < j < |schemas| ==> schemas[j].modelSchemaId != id
    {
      LastWithId(schemas, id);
      GetByIdIsScan(schemas, id);
      r := Get(byId, id);
    }

    /** The last schema with the joined key, which is the last one of the provider and model if it is unambiguous. */
    method GetModelSchemaByProvider(providerId: string, modelId: Option<string>) returns (r: Option<ModelSchema>)
      requires Valid()
      ensures r == Last(WithKey(schemas, Key(providerId, modelId)))
      ensures Unambiguous(schemas, providerId, modelId) ==> r == Last(WithModel(schemas, providerId, modelId))
    {
      GetByKeyIsScan(schemas, Key(providerId, modelId));
      if Unambiguous(schemas, providerId, modelId) {
        GetByModelIsScan(schemas, providerId, modelId);
      }
      r := Get(byModel, Key(providerId, modelId));
    }
  }
}
