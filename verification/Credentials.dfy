/** Credential sets with numbered suffixes: `load_input` and `load_default` in provider_credentials.py. */
module Credentials {
  import opened Prelude

  // ---------- Suffixes ----------

  function Digit(n: nat): char
    requires n < 10
  {
    '0' + n as char
  }

  function Decimal(n: nat): string {
    if n < 10 then [Digit(n)] else Decimal(n / 10) + [Digit(n % 10)]
  }

  /** Set number 0 has no suffix; the others are numbered from `_1` on. */
  function Suffix(k: nat): string {
    if k == 0 then "" else "_" + Decimal(k)
  }

  lemma DecimalNonEmpty(n: nat)
    ensures |Decimal(n)| > 0
  {
  }

  lemma {:induction false} DecimalInjective(m: nat, n: nat)
    requires Decimal(m) == Decimal(n)
    ensures m == n
  {
    var s, t := Decimal(m), Decimal(n);
    assert s[|s| - 1] == Digit(m % 10) && t[|t| - 1] == Digit(n % 10);
    DecimalNonEmpty(m / 10);
    DecimalNonEmpty(n / 10);
    if m < 10 || n < 10 {
    } else {
      assert s[..|s| - 1] == Decimal(m / 10) && t[..|t| - 1] == Decimal(n / 10);
      DecimalInjective(m / 10, n / 10);
    }
  }

  /** Decimal digits, the most significant first */
  lemma DecimalExactly(n: nat, d: nat)
    requires d < 10
    ensures Decimal(d) == ["0123456789"[d]]
    ensures n > 0 ==> Decimal(10 * n + d) == Decimal(n) + ["0123456789"[d]]
    ensures Suffix(0) == "" && (n > 0 ==> Suffix(n) == "_" + Decimal(n))
  {
    assert (10 * n + d) / 10 == n && (10 * n + d) % 10 == d;
    assert forall i: nat :: i < 10 ==> Digit(i) == "0123456789"[i];
  }

  lemma SuffixInjective(i: nat, j: nat, field: string)
    requires field + Suffix(i) == field + Suffix(j)
    ensures i == j
  {
    assert Suffix(i) == (field + Suffix(i))[|field|..];
    assert Suffix(j) == (field + Suffix(j))[|field|..];
    if i > 0 && j > 0 {
      assert Decimal(i) == Suffix(i)[1..] && Decimal(j) == Suffix(j)[1..];
      DecimalInjective(i, j);
    }
  }

  function SuffixedKeys(field: string, n: nat): (keys: set<string>)
    ensures forall k :: k in keys <==> exists i: nat :: i < n && k == field + Suffix(i)
  {
    if n == 0 then {} else SuffixedKeys(field, n - 1) + {field + Suffix(n - 1)}
  }

  lemma {:induction false} SuffixedKeysDistinct(field: string, n: nat)
    ensures |SuffixedKeys(field, n)| == n
  {
    if n == 0 {
    } else {
      SuffixedKeysDistinct(field, n - 1);
      if field + Suffix(n - 1) in SuffixedKeys(field, n - 1) {
        var i: nat :| i < n - 1 && field + Suffix(n - 1) == field + Suffix(i);
        SuffixInjective(n - 1, i, field);
      }
    }
  }

  /** A finite set has room for only so many suffixes of one field. */
  lemma RunIsBounded(field: string, n: nat, keys: set<string>)
    requires forall i: nat :: i < n ==> field + Suffix(i) in keys
    ensures n <= |keys|
  {
    SuffixedKeysDistinct(field, n);
    SubsetSize(SuffixedKeys(field, n), keys);
  }

  // ---------- One field ----------

  /** Where the values come from: a dictionary, or the environment over built-in defaults */
  datatype Source =
    Input(input: map<string, string>) | Environment(env: map<string, string>, defaults: map<string, string>)

  datatype Error = KeyError(key: string) | RequiredMissing(field: string) | NotSet(name: string)

  datatype Outcome = Stored(value: Option<string>) | Skipped | Failed(error: Error)

  /** `load_str_env`: an empty variable counts as unset. */
  function Variable(source: Source, name: string): Option<string>
    requires source.Environment?
  {
    if name in source.env && source.env[name] != "" then Some(source.env[name])
    else if name in source.defaults then Some(source.defaults[name])
    else None
  }

  lemma VariableExactly(env: map<string, string>, defaults: map<string, string>, name: string)
    ensures var value := Variable(Environment(env, defaults), name);
            && (name in env && env[name] != "" ==> value == Some(env[name]))
            && (!(name in env && env[name] != "") && name in defaults ==> value == Some(defaults[name]))
            && (!(name in env && env[name] != "") && name !in defaults ==> value == None)
  {
  }

  /** What one round of the inner loop does for a field. */
  function LoadField(source: Source, required: set<string>, field: string, suffix: string): Outcome {
    match source
    case Input(input) =>
      if field in input then
        if field + suffix in input then Stored(Some(input[field + suffix])) else Failed(KeyError(field + suffix))
      else if field in required then Failed(RequiredMissing(field))
      else Skipped
    case Environment(_, _) =>
      var value := Variable(source, field + suffix);
      if value.None? && field in required then Failed(NotSet(field + suffix)) else Stored(value)
  }

  /** The fields spelled out for an input: stored, skipped, or one of two errors */
  lemma InputFieldExactly(input: map<string, string>, required: set<string>, field: string, suffix: string)
    ensures var outcome := LoadField(Input(input), required, field, suffix);
            && (field in input && field + suffix in input ==> outcome == Stored(Some(input[field + suffix])))
            && (field in input && field + suffix !in input ==> outcome == Failed(KeyError(field + suffix)))
            && (field !in input && field in required ==> outcome == Failed(RequiredMissing(field)))
            && (field !in input && field !in required ==> outcome == Skipped)
  {
  }

  /** And for the environment: the value, or nothing, or an error if it is required */
  lemma DefaultFieldExactly(env: map<string, string>, defaults: map<string, string>, required: set<string>,
                            field: string, suffix: string)
    ensures var outcome, name := LoadField(Environment(env, defaults), required, field, suffix), field + suffix;
            && (name in env && env[name] != "" ==> outcome == Stored(Some(env[name])))
            && (!(name in env && env[name] != "") && name in defaults ==> outcome == Stored(Some(defaults[name])))
            && (!(name in env && env[name] != "") && name !in defaults ==>
                  outcome == if field in required then Failed(NotSet(name)) else Stored(None))
  {
  }

  // ---------- One set ----------

  type CredentialSet = map<string, Option<string>>

  /** One credential set; the fields are looked at in order, up to the first error. */
  function LoadSet(source: Source, allowed: seq<string>, required: set<string>, suffix: string)
    : Result<CredentialSet, Error>
  {
    if allowed == [] then Ok(map[])
    else
      var field := allowed[|allowed| - 1];
      match LoadSet(source, allowed[..|allowed| - 1], required, suffix)
      case Err(e) => Err(e)
      case Ok(m) =>
        match LoadField(source, required, field, suffix)
        case Stored(value) => Ok(m[field := value])
        case Skipped => Ok(m)
        case Failed(e) => Err(e)
  }

  lemma {:induction false} LoadStops(source: Source, allowed: seq<string>, required: set<string>, suffix: string,
                                     k: nat)
    requires k <= |allowed| && LoadSet(source, allowed[..k], required, suffix).Err?
    ensures LoadSet(source, allowed, required, suffix) == LoadSet(source, allowed[..k], required, suffix)
    decreases |allowed|
  {
    if k == |allowed| {
      assert allowed[..k] == allowed;
    } else {
      var before := allowed[..|allowed| - 1];
      assert before[..k] == allowed[..k];
      LoadStops(source, before, required, suffix, k);
    }
  }

  /** `load_credential_set_from_input` and `load_credential_set` */
  method LoadCredentialSet(source: Source, allowed: seq<string>, required: set<string>, suffix: string)
    returns (r: Result<CredentialSet, Error>)
    ensures r == LoadSet(source, allowed, required, suffix)
  {
    var result := map[];
    for i := 0 to |allowed|
      invariant LoadSet(source, allowed[..i], required, suffix) == Ok(result)
    {
      assert allowed[..i + 1][..i] == allowed[..i];
      match LoadField(source, required, allowed[i], suffix)
      case Stored(value) =>
        result := result[allowed[i] := value];
      case Skipped =>
      case Failed(error) =>
        LoadStops(source, allowed, required, suffix, i + 1);
        return Err(error);
    }
    assert allowed[..|allowed|] == allowed;
    return Ok(result);
  }

  /** A set holds what every field gives it, or the error of the first field that fails. */
  lemma {:induction false} SetOfFields(source: Source, allowed: seq<string>, required: set<string>, suffix: string)
    ensures var r := LoadSet(source, allowed, required, suffix);
            && (r.Ok? <==> forall f <- allowed :: !LoadField(source, required, f, suffix).Failed?)
            && (r.Ok? ==> forall f :: f in r.value <==> f in allowed && LoadField(source, required, f, suffix).Stored?)
            && (r.Ok? ==> forall f <- r.value :: LoadField(source, required, f, suffix) == Stored(r.value[f]))
            && (r.Err? ==> exists k: nat ::
                             && k < |allowed| && LoadField(source, required, allowed[k], suffix) == Failed(r.error)
                             && forall i :: 0 <= i < k ==> !LoadField(source, required, allowed[i], suffix).Failed?)
  {
    if allowed == [] {
    } else {
      var n := |allowed| - 1;
      var before := allowed[..n];
      SetOfFields(source, before, required, suffix);
      assert forall f :: f in allowed <==> f in before || f == allowed[n];
      var r, earlier := LoadSet(source, allowed, required, suffix), LoadSet(source, before, required, suffix);
      if earlier.Err? {
        var k: nat :|
          && k < n && LoadField(source, required, before[k], suffix) == Failed(earlier.error)
          && forall i :: 0 <= i < k ==> !LoadField(source, required, before[i], suffix).Failed?;
        assert allowed[k] == before[k] && forall i :: 0 <= i < k ==> allowed[i] == before[i];
      } else if r.Err? {
        assert LoadField(source, required, allowed[n], suffix) == Failed(r.error);
        assert forall i :: 0 <= i < n ==> allowed[i] == before[i];
      }
    }
  }

  /**
   * A set loads from a dictionary exactly when every present field has its suffixed form and every other field is
   * optional; all of its values then carry the one suffix.
   */
  lemma {:induction false} InputSetExact(allowed: seq<string>, required: set<string>, input: map<string, string>,
                                         suffix: string)
    ensures var r := LoadSet(Input(input), allowed, required, suffix);
            && (r.Ok? <==> forall f <- allowed :: if f in input then f + suffix in input else f !in required)
            && (r.Ok? ==> forall f :: f in r.value <==> f in allowed && f in input)
            && (r.Ok? ==> forall f <- r.value :: f + suffix in input && r.value[f] == Some(input[f + suffix]))
  {
    SetOfFields(Input(input), allowed, required, suffix);
  }

  /** A set loads from the environment exactly when every required field has a value; unset fields are stored too. */
  lemma {:induction false} DefaultSetExact(allowed: seq<string>, required: set<string>, env: map<string, string>,
                                           defaults: map<string, string>, suffix: string)
    ensures var r := LoadSet(Environment(env, defaults), allowed, required, suffix);
            && (r.Ok? <==> forall f <- allowed :: f in required ==>
                                 (f + suffix in env && env[f + suffix] != "") || f + suffix in defaults)
            && (r.Ok? ==> forall f :: f in r.value <==> f in allowed)
            && (r.Ok? ==> forall f <- r.value ::
                            var name := f + suffix;
                            if name in env && env[name] != "" then r.value[f] == Some(env[name])
                            else if name in defaults then r.value[f] == Some(defaults[name])
                            else r.value[f] == None)
  {
    SetOfFields(Environment(env, defaults), allowed, required, suffix);
  }

  // ---------- All sets ----------

  predicate Loads(source: Source, allowed: seq<string>, required: set<string>, k: nat) {
    LoadSet(source, allowed, required, Suffix(k)).Ok?
  }

  /** Sets 0 to n-1 load and set n does not. */
  predicate LongestRun(source: Source, allowed: seq<string>, required: set<string>, n: nat) {
    (forall k: nat :: k < n ==> Loads(source, allowed, required, k)) && !Loads(source, allowed, required, n)
  }

  lemma RunExactly(source: Source, allowed: seq<string>, required: set<string>, n: nat)
    ensures LongestRun(source, allowed, required, n) <==>
            && (forall k: nat :: k < n ==> LoadSet(source, allowed, required, Suffix(k)).Ok?)
            && LoadSet(source, allowed, required, Suffix(n)).Err?
  {
    assert forall k: nat :: Loads(source, allowed, required, k) <==> LoadSet(source, allowed, required, Suffix(k)).Ok?;
  }

  /** A field that must have a suffixed form in every set that loads */
  predicate Bounding(source: Source, required: set<string>, field: string) {
    match source
    case Input(input) => field in input || field in required
    case Environment(_, _) => field in required
  }

  predicate Ends(source: Source, allowed: seq<string>, required: set<string>) {
    exists f <- allowed :: Bounding(source, required, f)
  }

  function Keys(source: Source): set<string> {
    match source
    case Input(input) => input.Keys
    case Environment(env, defaults) => env.Keys + defaults.Keys
  }

  lemma RunOfSource(source: Source, allowed: seq<string>, required: set<string>, field: string, n: nat)
    requires field in allowed && Bounding(source, required, field)
    requires forall k: nat :: k < n ==> Loads(source, allowed, required, k)
    ensures n <= |Keys(source)|
  {
    forall k: nat | k < n
      ensures field + Suffix(k) in Keys(source)
    {
      assert Loads(source, allowed, required, k);
      SetOfFields(source, allowed, required, Suffix(k));
    }
    RunIsBounded(field, n, Keys(source));
  }

  lemma FirstFailure(source: Source, allowed: seq<string>, required: set<string>, k: nat) returns (n: nat)
    requires !Loads(source, allowed, required, k)
    ensures n <= k && LongestRun(source, allowed, required, n)
  {
    n := 0;
    while Loads(source, allowed, required, n)
      invariant n <= k && forall i: nat :: i < n ==> Loads(source, allowed, required, i)
      decreases k - n
    {
      n := n + 1;
    }
  }

  lemma EndsWithin(source: Source, allowed: seq<string>, required: set<string>) returns (n: nat)
    requires Ends(source, allowed, required)
    ensures n <= |Keys(source)| && LongestRun(source, allowed, required, n)
  {
    var f :| f in allowed && Bounding(source, required, f);
    var bound := |Keys(source)|;
    if forall k: nat :: k <= bound ==> Loads(source, allowed, required, k) {
      RunOfSource(source, allowed, required, f, bound + 1);
    }
    var k: nat :| k <= bound && !Loads(source, allowed, required, k);
    n := FirstFailure(source, allowed, required, k);
  }

  lemma AllLoad(source: Source, allowed: seq<string>, required: set<string>, k: nat)
    requires !Ends(source, allowed, required)
    ensures Loads(source, allowed, required, k)
  {
    SetOfFields(source, allowed, required, Suffix(k));
    assert forall f <- allowed :: !Bounding(source, required, f);
  }

  /** Either enumeration ends exactly when some allowed field bounds it. */
  lemma EndsIffBounded(source: Source, allowed: seq<string>, required: set<string>)
    ensures (exists n: nat :: LongestRun(source, allowed, required, n)) <==> Ends(source, allowed, required)
  {
    if Ends(source, allowed, required) {
      var n := EndsWithin(source, allowed, required);
    } else {
      forall k: nat
        ensures Loads(source, allowed, required, k)
      {
        AllLoad(source, allowed, required, k);
      }
    }
  }

  /** `load_input` ends exactly when some allowed field is present or required. */
  lemma LoadInputEndsExactly(allowed: seq<string>, required: set<string>, input: map<string, string>)
    ensures (exists n: nat :: LongestRun(Input(input), allowed, required, n))
       <==> exists f <- allowed :: f in input || f in required
  {
    EndsIffBounded(Input(input), allowed, required);
    assert forall f :: Bounding(Input(input), required, f) <==> f in input || f in required;
  }

  /** `load_default` ends exactly when some allowed field is required. */
  lemma LoadDefaultEndsExactly(source: Source, allowed: seq<string>, required: set<string>)
    requires source.Environment?
    ensures (exists n: nat :: LongestRun(source, allowed, required, n)) <==> exists f <- allowed :: f in required
  {
    EndsIffBounded(source, allowed, required);
    assert forall f :: Bounding(source, required, f) <==> f in required;
  }

  /** The sets in order: set number `k` has the suffix of `k`. */
  predicate AreSets(source: Source, allowed: seq<string>, required: set<string>, sets: seq<CredentialSet>) {
    forall k: nat :: k < |sets| ==> LoadSet(source, allowed, required, Suffix(k)) == Ok(sets[k])
  }

  /** The outcome of `rounds` rounds of the loop; it is missing when the loop is still running after them. */
  predicate SetsLoaded(source: Source, allowed: seq<string>, required: set<string>, rounds: nat,
                       r: Option<Result<seq<CredentialSet>, Error>>)
  {
    match r
    case None => forall k: nat :: k <= rounds ==> Loads(source, allowed, required, k)
    case Some(Err(error)) => LoadSet(source, allowed, required, "") == Err(error)
    case Some(Ok(sets)) =>
      1 <= |sets| <= rounds && AreSets(source, allowed, required, sets) &&
      LongestRun(source, allowed, required, |sets|)
  }

  lemma SetsLoad(source: Source, allowed: seq<string>, required: set<string>, sets: seq<CredentialSet>)
    requires AreSets(source, allowed, required, sets)
    ensures forall k: nat :: k < |sets| ==> Loads(source, allowed, required, k)
  {
  }

  lemma RunOfSets(source: Source, allowed: seq<string>, required: set<string>, sets: seq<CredentialSet>)
    requires AreSets(source, allowed, required, sets) && LoadSet(source, allowed, required, Suffix(|sets|)).Err?
    ensures LongestRun(source, allowed, required, |sets|)
  {
    SetsLoad(source, allowed, required, sets);
  }

  /** The loop that both loading methods share */
  method LoadSets(source: Source, allowed: seq<string>, required: set<string>, rounds: nat)
    returns (r: Option<Result<seq<CredentialSet>, Error>>)
    ensures SetsLoaded(source, allowed, required, rounds, r)
    ensures r.None? ==> forall k: nat :: k <= rounds ==> LoadSet(source, allowed, required, Suffix(k)).Ok?
    ensures r.Some? && r.value.Err? ==> LoadSet(source, allowed, required, "") == Err(r.value.error)
    ensures r.Some? && r.value.Ok? ==>
              var sets := r.value.value;
              && 1 <= |sets| <= rounds && LoadSet(source, allowed, required, Suffix(|sets|)).Err?
              && forall k: nat :: k < |sets| ==> LoadSet(source, allowed, required, Suffix(k)) == Ok(sets[k])
  {
    var first := LoadCredentialSet(source, allowed, required, "");
    if first.Err? {
      return Some(Err(first.error));
    }
    var sets := [first.value];
    var count := 1;
    while count <= rounds
      invariant 1 <= count == |sets| <= rounds + 1
      invariant AreSets(source, allowed, required, sets)
    {
      var next := LoadCredentialSet(source, allowed, required, "_" + Decimal(count));
      if next.Err? {
        RunOfSets(source, allowed, required, sets);
        return Some(Ok(sets));
      }
      sets := sets + [next.value];
      count := count + 1;
    }
    SetsLoad(source, allowed, required, sets);
    return None;
  }

  /**
   * What a loading method does to the credentials `before`. `rounds` is how many rounds of its `while True` are
   * looked at, and the result is missing when the loop is still running after them; `chosen` is the number of the
   * set taken at random.
   */
  predicate Loaded(source: Source, allowed: seq<string>, required: set<string>, rounds: nat, before: CredentialSet,
                   r: Option<Result<(), Error>>, chosen: nat, after: CredentialSet)
  {
    match r
    case None => after == before && forall k: nat :: k <= rounds ==> Loads(source, allowed, required, k)
    case Some(Err(error)) => after == before && LoadSet(source, allowed, required, "") == Err(error)
    case Some(Ok(_)) =>
      && (exists n: nat :: chosen < n <= rounds && LongestRun(source, allowed, required, n))
      && Loads(source, allowed, required, chosen)
      && after == before + LoadSet(source, allowed, required, Suffix(chosen)).value
  }

  /** The outcome spelled out: still running, the error of set 0, or a set that was taken whole */
  lemma LoadedExactly(source: Source, allowed: seq<string>, required: set<string>, rounds: nat, before: CredentialSet,
                      r: Option<Result<(), Error>>, chosen: nat, after: CredentialSet)
    requires Loaded(source, allowed, required, rounds, before, r, chosen, after)
    ensures r.None? || r.value.Err? ==> after == before
    ensures r.None? ==> forall k: nat :: k <= rounds ==> LoadSet(source, allowed, required, Suffix(k)).Ok?
    ensures r.Some? && r.value.Err? ==> LoadSet(source, allowed, required, "") == Err(r.value.error)
    ensures r.Some? && r.value.Ok? ==>
              && (forall k: nat :: k <= chosen ==> LoadSet(source, allowed, required, Suffix(k)).Ok?)
              && after == before + LoadSet(source, allowed, required, Suffix(chosen)).value
              && exists n: nat :: chosen < n <= rounds && LoadSet(source, allowed, required, Suffix(n)).Err?
  {
    if r.Some? && r.value.Ok? {
      var n: nat :| chosen < n <= rounds && LongestRun(source, allowed, required, n);
      RunExactly(source, allowed, required, n);
    } else if r.None? {
      forall k: nat | k <= rounds
        ensures LoadSet(source, allowed, required, Suffix(k)).Ok?
      {
        assert Loads(source, allowed, required, k);
      }
    }
  }

  /** As many rounds as there are keys tell whether the loop ends. */
  lemma EnoughRounds(source: Source, allowed: seq<string>, required: set<string>, rounds: nat, before: CredentialSet,
                     r: Option<Result<(), Error>>, chosen: nat, after: CredentialSet)
    requires rounds >= |Keys(source)|
    requires Loaded(source, allowed, required, rounds, before, r, chosen, after)
    ensures r.Some? <==> Ends(source, allowed, required)
  {
    if Ends(source, allowed, required) {
      var n := EndsWithin(source, allowed, required);
    } else {
      forall k: nat
        ensures Loads(source, allowed, required, k)
      {
        AllLoad(source, allowed, required, k);
      }
      assert Loads(source, allowed, required, 0);
    }
  }

  class ProviderCredentials {
    var credentials: CredentialSet

    constructor ()
      ensures credentials == map[]
    {
      credentials := map[];
    }

    method Load(source: Source, allowed: seq<string>, required: set<string>, rounds: nat)
      returns (r: Option<Result<(), Error>>, ghost chosen: nat)
      modifies this
      ensures Loaded(source, allowed, required, rounds, old(credentials), r, chosen, credentials)
    {
      var all := LoadSets(source, allowed, required, rounds);
      if all.None? {
        return None, 0;
      }
      if all.value.Err? {
        return Some(Err(all.value.error)), 0;
      }
      var sets := all.value.value;
      var i: nat :| i < |sets|;
      SetsLoad(source, allowed, required, sets);
      credentials := credentials + sets[i];
      return Some(Ok(())), i;
    }

    /** `load_input` */
    method LoadInput(allowed: seq<string>, required: set<string>, input: map<string, string>, rounds: nat)
      returns (r: Option<Result<(), Error>>, ghost chosen: nat)
      modifies this
      ensures Loaded(Input(input), allowed, required, rounds, old(credentials), r, chosen, credentials)
      ensures r.None? || r.value.Err? ==> credentials == old(credentials)
      ensures r.None? ==> forall k: nat :: k <= rounds ==> LoadSet(Input(input), allowed, required, Suffix(k)).Ok?
      ensures r.Some? && r.value.Err? ==> LoadSet(Input(input), allowed, required, "") == Err(r.value.error)
      ensures r.Some? && r.value.Ok? ==>
                && (forall k: nat :: k <= chosen ==> LoadSet(Input(input), allowed, required, Suffix(k)).Ok?)
                && credentials == old(credentials) + LoadSet(Input(input), allowed, required, Suffix(chosen)).value
      ensures rounds >= |input| ==> (r.Some? <==> exists f <- allowed :: f in input || f in required)
    {
      r, chosen := Load(Input(input), allowed, required, rounds);
      LoadedExactly(Input(input), allowed, required, rounds, old(credentials), r, chosen, credentials);
      assert |input| == |Keys(Input(input))|;
      assert forall f :: Bounding(Input(input), required, f) <==> f in input || f in required;
      if rounds >= |input| {
        EnoughRounds(Input(input), allowed, required, rounds, old(credentials), r, chosen, credentials);
      }
    }

    /** `load_default` */
    method LoadDefault(allowed: seq<string>, required: set<string>, env: map<string, string>,
                       defaults: map<string, string>, rounds: nat)
      returns (r: Option<Result<(), Error>>, ghost chosen: nat)
      modifies this
      ensures Loaded(Environment(env, defaults), allowed, required, rounds, old(credentials), r, chosen, credentials)
      ensures r.None? || r.value.Err? ==> credentials == old(credentials)
      ensures var source := Environment(env, defaults);
              && (r.None? ==> forall k: nat :: k <= rounds ==> LoadSet(source, allowed, required, Suffix(k)).Ok?)
              && (r.Some? && r.value.Err? ==> LoadSet(source, allowed, required, "") == Err(r.value.error))
              && (r.Some? && r.value.Ok? ==>
                    && (forall k: nat :: k <= chosen ==> LoadSet(source, allowed, required, Suffix(k)).Ok?)
                    && credentials == old(credentials) + LoadSet(source, allowed, required, Suffix(chosen)).value)
      ensures rounds >= |env| + |defaults| ==> (r.Some? <==> exists f <- allowed :: f in required)
    {
      var source := Environment(env, defaults);
      r, chosen := Load(source, allowed, required, rounds);
      LoadedExactly(source, allowed, required, rounds, old(credentials), r, chosen, credentials);
      assert |Keys(source)| <= |env.Keys| + |defaults.Keys| == |env| + |defaults|;
      assert forall f :: Bounding(source, required, f) <==> f in required;
      if rounds >= |env| + |defaults| {
        EnoughRounds(source, allowed, required, rounds, old(credentials), r, chosen, credentials);
      }
    }
  }
}
