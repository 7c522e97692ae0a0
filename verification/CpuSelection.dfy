/** The choice of a random CPU subset in cpu.cc. */
module CpuSelection {
  import opened Prelude

  /** The CPUs of a mask */
  function Cpus(mask: seq<bool>): (cpus: set<nat>)
    ensures forall i: nat :: i in cpus <==> i < |mask| && mask[i]
  {
    set i: nat | i < |mask| && mask[i]
  }

  function Count(mask: seq<bool>): nat {
    if mask == [] then 0 else Count(mask[..|mask| - 1]) + if mask[|mask| - 1] then 1 else 0
  }

  lemma {:induction false} CountIsCardinality(mask: seq<bool>)
    ensures Count(mask) == |Cpus(mask)|
  {
    if mask == [] {
    } else {
      var n := |mask| - 1;
      CountIsCardinality(mask[..n]);
      assert Cpus(mask) == Cpus(mask[..n]) + if mask[n] then {n as nat} else {};
    }
  }

  /** The CPU in the mask that has exactly `n` others before it */
  function Nth(mask: seq<bool>, n: nat): (r: Option<nat>)
    ensures r.Some? ==> r.value < |mask| && mask[r.value] && Count(mask[..r.value]) == n
  {
    if mask == [] then None
    else
      var k := |mask| - 1;
      var r := Nth(mask[..k], n);
      if r.Some? then
        assert mask[..k][..r.value] == mask[..r.value];
        r
      else if mask[k] && Count(mask[..k]) == n then Some(k)
      else None
  }

  /** There is an `n`th CPU exactly when more than `n` are in the mask. */
  lemma {:induction false} CountBelow(mask: seq<bool>, n: nat)
    ensures Nth(mask, n).Some? <==> n < Count(mask)
  {
    if mask == [] {
    } else {
      var k := |mask| - 1;
      CountBelow(mask[..k], n);
    }
  }

  lemma {:induction false} NthIs(mask: seq<bool>, n: nat, i: nat)
    requires i < |mask| && mask[i] && Count(mask[..i]) == n
    ensures Nth(mask, n) == Some(i)
  {
    var k := |mask| - 1;
    if i < k {
      assert mask[..k][..i] == mask[..i];
      NthIs(mask[..k], n, i);
    } else {
      CountBelow(mask[..k], n);
    }
  }

  /** `getNthOnlineCpu`; `None` is its fatal branch. */
  method GetNthOnlineCpu(mask: array<bool>, n: nat) returns (cpu: Option<nat>)
    ensures cpu == Nth(mask[..], n)
    ensures cpu.Some? ==> cpu.value < mask.Length && mask[cpu.value] && |Cpus(mask[..cpu.value])| == n
    ensures cpu.None? <==> |Cpus(mask[..])| <= n
  {
    CountIsCardinality(mask[..]);
    var j := 0;
    for i := 0 to mask.Length
      invariant j == Count(mask[..i]) && j <= n
    {
      assert mask[..i + 1][..i] == mask[..i];
      if mask[i] {
        if j == n {
          NthIs(mask[..], n, i);
          CountIsCardinality(mask[..i]);
          CountBelow(mask[..], n);
          return Some(i);
        }
        j := j + 1;
      }
    }
    assert mask[..mask.Length] == mask[..];
    CountBelow(mask[..], n);
    return None;
  }

  lemma {:induction false} CountMonotone(mask: seq<bool>, i: nat)
    requires i <= |mask|
    ensures Count(mask[..i]) <= Count(mask)
    ensures i < |mask| && mask[i] ==> Count(mask[..i]) < Count(mask)
  {
    if i == |mask| {
      assert mask[..i] == mask;
    } else {
      var k := |mask| - 1;
      CountMonotone(mask[..k], i);
      assert mask[..k][..i] == mask[..i];
    }
  }

  // ---------- Choosing ----------

  /** Move the `n`th CPU of `orig` to `chosen`, if there is one. */
  function Choose(orig: seq<bool>, chosen: seq<bool>, n: nat): Option<(seq<bool>, seq<bool>)>
    requires |orig| == |chosen|
  {
    match Nth(orig, n)
    case None => None
    case Some(cpu) => Some((orig[cpu := false], chosen[cpu := true]))
  }

  /** The CPU with exactly `n` others before it is moved, and there is none to move when no more than `n` are left. */
  lemma ChooseExactly(orig: seq<bool>, chosen: seq<bool>, n: nat)
    requires |orig| == |chosen|
    ensures Choose(orig, chosen, n) == None <==> |Cpus(orig)| <= n
    ensures forall cpu :: 0 <= cpu < |orig| && orig[cpu] && |Cpus(orig[..cpu])| == n ==>
              Choose(orig, chosen, n) == Some((orig[cpu := false], chosen[cpu := true]))
  {
    CountIsCardinality(orig);
    CountBelow(orig, n);
    forall cpu | 0 <= cpu < |orig| && orig[cpu] && |Cpus(orig[..cpu])| == n
      ensures Nth(orig, n) == Some(cpu)
    {
      CountIsCardinality(orig[..cpu]);
      NthIs(orig, n, cpu);
    }
  }

  function NoCpus(n: nat): (mask: seq<bool>)
    ensures |mask| == n
  {
    seq(n, _ => false)
  }

  /** What is left of the original mask, and the new mask, after these picks. */
  function Select(orig: seq<bool>, picks: seq<nat>): (r: Option<(seq<bool>, seq<bool>)>)
    ensures r.Some? ==> |r.value.0| == |r.value.1| == |orig|
  {
    if picks == [] then Some((orig, NoCpus(|orig|)))
    else
      match Select(orig, picks[..|picks| - 1])
      case None => None
      case Some((left, chosen)) => Choose(left, chosen, picks[|picks| - 1])
  }

  /** A random number, reduced to an index into the CPUs available */
  function Reduce(draw: nat, available: nat): (n: nat)
    requires available > 0
    ensures n < available && (draw < available ==> n == draw)
  {
    draw % available
  }

  lemma ReduceExactly(draw: nat, available: nat)
    requires available > 0
    ensures Reduce(draw, available) == draw % available
  {
  }

  /** The random numbers, each reduced by the number of CPUs then available */
  function Picks(available: nat, draws: seq<nat>): (picks: seq<nat>)
    requires |draws| <= available
    ensures |picks| == |draws|
    ensures forall i :: 0 <= i < |picks| ==> picks[i] == Reduce(draws[i], available - i)
  {
    if draws == [] then []
    else
      var k := |draws| - 1;
      Picks(available, draws[..k]) + [Reduce(draws[k], available - k)]
  }

  /** `false` stands for a fatal branch. */
  method SetRandomCpu(orig: array<bool>, chosen: array<bool>, available: nat, draw: nat) returns (ok: bool)
    requires orig != chosen && orig.Length == chosen.Length
    modifies orig, chosen
    ensures if available > 0 && Choose(old(orig[..]), old(chosen[..]), Reduce(draw, available)).Some?
            then ok && Choose(old(orig[..]), old(chosen[..]), Reduce(draw, available)) == Some((orig[..], chosen[..]))
            else !ok && orig[..] == old(orig[..]) && chosen[..] == old(chosen[..])
  {
    if available == 0 {
      return false;
    }
    var n := Reduce(draw, available);
    var cpu := GetNthOnlineCpu(orig, n);
    if cpu.None? {
      return false;
    }
    chosen[cpu.value] := true;
    orig[cpu.value] := false;
    return true;
  }

  /** The outcome of the selection: nothing to do, the affinity to set, or a fatal error */
  datatype Outcome = Unchanged | Affinity(mask: seq<bool>) | Fatal

  /** A pick is below the number of CPUs left when it is made. */
  predicate InRange(orig: seq<bool>, picks: seq<nat>) {
    |picks| <= Count(orig) && forall i :: 0 <= i < |picks| ==> picks[i] < Count(orig) - i
  }

  /** A division of the CPUs of `orig` into those left and those chosen */
  predicate Divides(orig: seq<bool>, left: seq<bool>, chosen: seq<bool>) {
    && |left| == |chosen| == |orig|
    && Cpus(left) !! Cpus(chosen)
    && Cpus(left) + Cpus(chosen) == Cpus(orig)
  }

  lemma MoveCpu(orig: seq<bool>, left: seq<bool>, chosen: seq<bool>, cpu: nat)
    requires Divides(orig, left, chosen) && cpu < |left| && left[cpu]
    ensures Divides(orig, left[cpu := false], chosen[cpu := true])
    ensures Cpus(chosen[cpu := true]) == Cpus(chosen) + {cpu} && |Cpus(chosen[cpu := true])| == |Cpus(chosen)| + 1
    ensures Cpus(left[cpu := false]) == Cpus(left) - {cpu} && Count(left[cpu := false]) == Count(left) - 1
  {
    assert cpu in Cpus(left);
    assert Cpus(left[cpu := false]) == Cpus(left) - {cpu};
    assert Cpus(chosen[cpu := true]) == Cpus(chosen) + {cpu};
    CountIsCardinality(left);
    CountIsCardinality(left[cpu := false]);
  }

  /**
   * Whatever the random numbers, no fatal branch is reached, and after `k` picks exactly `k` CPUs are chosen:
   * a subset of the original mask, disjoint from what is left of it.
   */
  lemma {:induction false} SelectionOfAll(orig: seq<bool>, picks: seq<nat>)
    requires InRange(orig, picks)
    ensures var r := Select(orig, picks);
            && r.Some?
            && Divides(orig, r.value.0, r.value.1)
            && |Cpus(r.value.1)| == |picks| && Count(r.value.0) == Count(orig) - |picks|
  {
    if picks == [] {
      assert Cpus(NoCpus(|orig|)) == {};
    } else {
      var k := |picks| - 1;
      SelectionOfAll(orig, picks[..k]);
      var (left, chosen) := Select(orig, picks[..k]).value;
      CountBelow(left, picks[k]);
      MoveCpu(orig, left, chosen, Nth(left, picks[k]).value);
    }
  }

  lemma SelectStep(orig: seq<bool>, picks: seq<nat>, i: nat)
    requires i < |picks| && InRange(orig, picks)
    ensures var r := Select(orig, picks[..i]);
            r.Some? && Choose(r.value.0, r.value.1, picks[i]).Some? &&
            Select(orig, picks[..i + 1]) == Choose(r.value.0, r.value.1, picks[i])
  {
    assert picks[..i + 1][..i] == picks[..i];
    SelectionOfAll(orig, picks[..i]);
    CountBelow(Select(orig, picks[..i]).value.0, picks[i]);
  }

  /** The selection loop */
  method RandomSubset(orig: array<bool>, total: nat, draws: seq<nat>) returns (outcome: Outcome)
    requires total == Count(orig[..]) && |draws| <= total
    modifies orig
    ensures outcome.Affinity? && Select(old(orig[..]), Picks(total, draws)) == Some((orig[..], outcome.mask))
  {
    var available := total;
    ghost var start, picks := orig[..], Picks(total, draws);
    var chosen := new bool[orig.Length](_ => false);
    assert chosen[..] == NoCpus(|start|);
    for i := 0 to |draws|
      invariant fresh(chosen) && chosen != orig
      invariant available == total - i
      invariant Select(start, picks[..i]) == Some((orig[..], chosen[..]))
    {
      SelectStep(start, picks, i);
      assert picks[i] == Reduce(draws[i], available);
      var ok := SetRandomCpu(orig, chosen, available, draws[i]);
      if !ok {
        return Fatal;
      }
      available := available - 1;
    }
    assert picks[..|draws|] == picks;
    return Affinity(chosen[..]);
  }

  method CpuCount(mask: array<bool>) returns (n: nat)
    ensures n == Count(mask[..]) == |Cpus(mask[..])|
  {
    n := 0;
    for i := 0 to mask.Length
      invariant n == Count(mask[..i])
    {
      assert mask[..i + 1][..i] == mask[..i];
      n := n + if mask[i] then 1 else 0;
    }
    assert mask[..mask.Length] == mask[..];
    CountIsCardinality(mask[..]);
  }

  /** `initCpu` on the affinity mask of the process, which has CPU_SETSIZE entries; `draws` is the random source. */
  method InitCpu(maxCpus: nat, orig: array<bool>, draws: seq<nat>) returns (outcome: Outcome)
    requires orig.Length == 1024 && |draws| == maxCpus
    modifies orig
    ensures var available := Count(old(orig[..]));
            if maxCpus == 0 || maxCpus >= available then outcome == Unchanged && orig[..] == old(orig[..])
            else && outcome.Affinity? && Select(old(orig[..]), Picks(available, draws)) == Some((orig[..], outcome.mask))
                 && |outcome.mask| == orig.Length && |Cpus(outcome.mask)| == maxCpus
                 && Cpus(orig[..]) !! Cpus(outcome.mask)
                 && Cpus(orig[..]) + Cpus(outcome.mask) == Cpus(old(orig[..]))
  {
    if maxCpus == 0 {
      return Unchanged;
    }
    var available := CpuCount(orig);
    if maxCpus > available {
      return Unchanged;
    }
    if maxCpus == available {
      return Unchanged;
    }
    SelectionOfAll(orig[..], Picks(available, draws));
    outcome := RandomSubset(orig, available, draws);
  }

  /** The picks are made one after the other, from all CPUs and an empty mask. */
  lemma SelectSnoc(orig: seq<bool>, picks: seq<nat>, n: nat)
    ensures Select(orig, []).Some? && Select(orig, []).value.0 == orig && Cpus(Select(orig, []).value.1) == {}
    ensures Select(orig, picks).None? ==> Select(orig, picks + [n]).None?
    ensures Select(orig, picks).Some? ==>
              Select(orig, picks + [n]) == Choose(Select(orig, picks).value.0, Select(orig, picks).value.1, n)
  {
    assert (picks + [n])[..|picks|] == picks;
    assert Cpus(NoCpus(|orig|)) == {};
  }

  /** Any CPU still left can be the next one. */
  lemma PickFor(orig: seq<bool>, picks: seq<nat>, cpu: nat) returns (pick: nat)
    requires |picks| < Count(orig) && InRange(orig, picks)
    requires Select(orig, picks).Some? && cpu in Cpus(orig) - Cpus(Select(orig, picks).value.1)
    ensures InRange(orig, picks + [pick])
    ensures var r := Select(orig, picks + [pick]);
            r.Some? && Cpus(r.value.1) == Cpus(Select(orig, picks).value.1) + {cpu}
  {
    SelectionOfAll(orig, picks);
    var (left, chosen) := Select(orig, picks).value;
    assert cpu in Cpus(left);
    pick := Count(left[..cpu]);
    CountMonotone(left, cpu);
    NthIs(left, pick, cpu);
    assert (picks + [pick])[..|picks|] == picks;
    MoveCpu(orig, left, chosen, cpu);
  }

  lemma {:induction false} PicksForSubset(orig: seq<bool>, subset: set<nat>) returns (picks: seq<nat>)
    requires subset <= Cpus(orig)
    ensures |picks| == |subset| && InRange(orig, picks)
    ensures var r := Select(orig, picks); r.Some? && Cpus(r.value.1) == subset
    decreases |subset|
  {
    CountIsCardinality(orig);
    SubsetSize(subset, Cpus(orig));
    if subset == {} {
      picks := [];
      assert Cpus(NoCpus(|orig|)) == {};
    } else {
      var cpu :| cpu in subset;
      picks := PicksForSubset(orig, subset - {cpu});
      var pick := PickFor(orig, picks, cpu);
      picks := picks + [pick];
      assert subset - {cpu} + {cpu} == subset;
    }
  }

  /** Every subset of the right size is chosen by some random numbers. */
  lemma {:induction false} EverySubsetReached(orig: seq<bool>, subset: set<nat>)
    requires subset <= Cpus(orig)
    ensures |subset| <= Count(orig)
    ensures exists draws: seq<nat> :: |draws| == |subset| &&
              Select(orig, Picks(Count(orig), draws)).Some? &&
              Cpus(Select(orig, Picks(Count(orig), draws)).value.1) == subset
  {
    var draws := PicksForSubset(orig, subset);
    assert Picks(Count(orig), draws) == draws;
  }
}
