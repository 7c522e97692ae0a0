/** Connection limits over the table of child processes: `limitConns` in net.cc and subproc.cc. */
module ProcTable {
  import opened Prelude

  type Pid = int

  type Address = string

  /** The table, and the limits; 0 means no limit. */
  type Table = map<Pid, Address>

  datatype Limits = Limits(maxConns: nat, maxPerIp: nat)

  function From(pids: Table, addr: Address): (r: set<Pid>)
    ensures forall p :: p in r <==> p in pids && pids[p] == addr
  {
    set p | p in pids && pids[p] == addr
  }

  predicate WithinTotal(limits: Limits, pids: Table) {
    limits.maxConns != 0 ==> |pids| <= limits.maxConns
  }

  ghost predicate WithinPerIp(limits: Limits, pids: Table) {
    limits.maxPerIp != 0 ==> forall addr :: |From(pids, addr)| <= limits.maxPerIp
  }

  predicate Allowed(limits: Limits, pids: Table, addr: Address) {
    && (limits.maxConns == 0 || |pids| < limits.maxConns)
    && (limits.maxPerIp == 0 || |From(pids, addr)| < limits.maxPerIp)
  }

  lemma FromAfterInsert(pids: Table, pid: Pid, addr: Address, other: Address)
    requires pid !in pids
    ensures |From(pids[pid := addr], other)| == |From(pids, other)| + if addr == other then 1 else 0
  {
    var after := From(pids[pid := addr], other);
    if addr == other {
      assert after == From(pids, other) + {pid};
    } else {
      assert after == From(pids, other);
    }
  }

  lemma PerIpAfterInsert(limits: Limits, pids: Table, pid: Pid, addr: Address)
    requires limits.maxPerIp != 0 && WithinPerIp(limits, pids) && pid !in pids
    ensures WithinPerIp(limits, pids[pid := addr]) <==> |From(pids, addr)| < limits.maxPerIp
  {
    var after := pids[pid := addr];
    FromAfterInsert(pids, pid, addr, addr);
    if WithinPerIp(limits, after) {
      assert |From(after, addr)| <= limits.maxPerIp;
    } else {
      var other :| |From(after, other)| > limits.maxPerIp;
      FromAfterInsert(pids, pid, addr, other);
      assert |From(pids, other)| <= limits.maxPerIp;
    }
  }

  /** The check refuses exactly the connections that would break a limit. */
  lemma AllowedExactly(limits: Limits, pids: Table, pid: Pid, addr: Address)
    requires WithinTotal(limits, pids) && WithinPerIp(limits, pids) && pid !in pids
    ensures Allowed(limits, pids, addr)
       <==> WithinTotal(limits, pids[pid := addr]) && WithinPerIp(limits, pids[pid := addr])
  {
    assert |pids[pid := addr]| == |pids| + 1;
    if limits.maxPerIp != 0 {
      PerIpAfterInsert(limits, pids, pid, addr);
    }
  }

  /** The next element of an iteration, in whatever order */
  method Pick<T>(s: set<T>) returns (x: T)
    requires s != {}
    ensures x in s
  {
    x :| x in s;
  }

  lemma FromAfterRemove(pids: Table, gone: set<Pid>, addr: Address)
    ensures |From(pids - gone, addr)| <= |From(pids, addr)| && |pids - gone| <= |pids|
  {
    var before, after := From(pids, addr), From(pids - gone, addr);
    assert before == after + (before - after);
    assert pids.Keys == (pids - gone).Keys + (pids.Keys * gone);
    assert |pids.Keys| == |(pids - gone).Keys| + |pids.Keys * gone|;
  }

  // ---------- The operations ----------

  /** What became of a process that was waited for: nothing yet, an exit or a signal, or some other change */
  datatype Wait = NotChanged | Ended | OtherChange

  /** One round of the final kill: whether the signal could be sent, and what the wait then saw */
  datatype Kill = Kill(sent: bool, wait: Wait)

  lemma RemoveTwice(pids: Table, a: set<Pid>, b: set<Pid>)
    ensures pids - a - b == pids - (a + b)
  {
  }

  datatype Event =
    | Launch(checked: Address, inserted: Address, clone: Option<Pid>)
    | Reap(pid: Pid, wait: Wait)
    | KillAll(gone: set<Pid>)

  function After(limits: Limits, pids: Table, event: Event): Table {
    match event
    case Launch(checked, inserted, clone) =>
      if Allowed(limits, pids, checked) && clone.Some? && clone.value !in pids then pids[clone.value := inserted] else pids
    case Reap(pid, wait) => if wait.Ended? then pids - {pid} else pids
    case KillAll(gone) => pids - gone
  }

  class Nsj {
    const limits: Limits
    var pids: Table

    constructor (limits: Limits)
      ensures this.limits == limits && pids == map[]
    {
      this.limits, pids := limits, map[];
    }

    /** `limitConns`: count the entries with the peer's address. */
    method LimitConns(addr: Address) returns (ok: bool)
      ensures ok == Allowed(limits, pids, addr)
      ensures ok <==>
              && (limits.maxConns == 0 || |pids| < limits.maxConns)
              && (limits.maxPerIp == 0 || |From(pids, addr)| < limits.maxPerIp)
    {
      if limits.maxConns != 0 && |pids| >= limits.maxConns {
        return false;
      }
      if limits.maxPerIp == 0 {
        return true;
      }
      var cnt := 0;
      var rest := pids.Keys;
      while rest != {}
        invariant rest <= pids.Keys && cnt == |From(pids, addr) - rest|
        decreases rest
      {
        var pid := Pick(rest);
        if pids[pid] == addr {
          assert From(pids, addr) - (rest - {pid}) == From(pids, addr) - rest + {pid};
          cnt := cnt + 1;
        } else {
          assert From(pids, addr) - (rest - {pid}) == From(pids, addr) - rest;
        }
        rest := rest - {pid};
      }
      assert From(pids, addr) - {} == From(pids, addr);
      return cnt < limits.maxPerIp;
    }

    /** `addProc`; `false` is its fatal branch, a pid that is in the table already. */
    method AddProc(pid: Pid, addr: Address) returns (ok: bool)
      modifies this`pids
      ensures ok == (pid !in old(pids))
      ensures pids == if ok then old(pids)[pid := addr] else old(pids)
    {
      if pid in pids {
        return false;
      }
      pids := pids[pid := addr];
      return true;
    }

    method RemoveProc(pid: Pid)
      modifies this`pids
      ensures pids == old(pids) - {pid}
    {
      if pid !in pids {
        assert pids - {pid} == pids;
        return;
      }
      pids := pids - {pid};
    }

    method ReapProc(pid: Pid, wait: Wait)
      modifies this`pids
      ensures pids == After(limits, old(pids), Reap(pid, wait))
      ensures pids == if wait == Ended then old(pids) - {pid} else old(pids)
    {
      if wait.Ended? {
        RemoveProc(pid);
      }
    }

    /**
     * The table part of `runChild`. `checked` is the peer address seen by the check and `inserted` the one
     * stored later; `clone` is the pid that `clone` returns, or `None` when it fails.
     */
    method RunChild(checked: Address, inserted: Address, clone: Option<Pid>) returns (launched: bool)
      modifies this`pids
      ensures pids == After(limits, old(pids), Launch(checked, inserted, clone))
      ensures launched <==>
              && (limits.maxConns == 0 || |old(pids)| < limits.maxConns)
              && (limits.maxPerIp == 0 || |From(old(pids), checked)| < limits.maxPerIp)
              && clone.Some? && clone.value !in old(pids)
      ensures pids == if launched then old(pids)[clone.value := inserted] else old(pids)
    {
      var ok := LimitConns(checked);
      if !ok {
        return false;
      }
      if clone.None? {
        return false;
      }
      launched := AddProc(clone.value, inserted);
    }

    /** One round of `killAndReapAll`: some process is killed and waited for, or given up. */
    method KillOne(kill: Kill) returns (ghost gone: set<Pid>)
      requires pids != map[]
      modifies this`pids
      ensures pids == old(pids) - gone
      ensures (kill.sent ==> kill.wait.Ended?) ==> |pids| == |old(pids)| - 1
    {
      var pid := Pick(pids.Keys);
      assert pids.Keys == (pids - {pid}).Keys + {pid};
      assert pids - {} == pids;
      if kill.sent {
        ReapProc(pid, kill.wait);
        gone := if kill.wait.Ended? then {pid} else {};
      } else {
        RemoveProc(pid);
        gone := {pid};
      }
    }

    /** `killAndReapAll` over these rounds; it is done when the table is empty. */
    method KillAndReapAll(kills: seq<Kill>) returns (ghost gone: set<Pid>)
      modifies this`pids
      ensures pids == After(limits, old(pids), KillAll(gone)) == old(pids) - gone
      ensures (forall k <- kills :: k.sent ==> k.wait.Ended?) && |kills| >= |old(pids)| ==> pids == map[]
    {
      gone := {};
      ghost var start := pids;
      ghost var final := forall k <- kills :: k.sent ==> k.wait.Ended?;
      assert pids == start - gone;
      for i := 0 to |kills|
        invariant pids == start - gone
        invariant final ==> |pids| + i <= |start|
      {
        if pids == map[] {
          return;
        }
        assert kills[i] in kills;
        ghost var more := KillOne(kills[i]);
        RemoveTwice(start, gone, more);
        gone := gone + more;
      }
      assert |pids| == 0 ==> pids == map[];
    }
  }

  // ---------- Runs ----------

  function Run(limits: Limits, events: seq<Event>): Table {
    if events == [] then map[] else After(limits, Run(limits, events[..|events| - 1]), events[|events| - 1])
  }

  /** A run starts with an empty table, and every event is one of the operations. */
  lemma RunSnoc(limits: Limits, events: seq<Event>, event: Event)
    ensures Run(limits, []) == map[]
    ensures Run(limits, events + [event]) == After(limits, Run(limits, events), event)
  {
    assert (events + [event])[..|events|] == events;
  }

  /** The table never holds more than `maxConns` processes, whatever the peers' addresses are. */
  lemma {:induction false} TotalLimitHolds(limits: Limits, events: seq<Event>)
    ensures WithinTotal(limits, Run(limits, events))
    ensures limits.maxConns != 0 ==> |Run(limits, events)| <= limits.maxConns
  {
    if events == [] {
    } else {
      var before, event := Run(limits, events[..|events| - 1]), events[|events| - 1];
      TotalLimitHolds(limits, events[..|events| - 1]);
      match event
      case Launch(_, inserted, clone) =>
        if clone.Some? && clone.value !in before {
          assert |before[clone.value := inserted]| == |before| + 1;
        }
      case Reap(pid, _) => FromAfterRemove(before, {pid}, "");
      case KillAll(gone) => FromAfterRemove(before, gone, "");
    }
  }

  /** A peer has the same address when it is checked and when it is stored. */
  predicate StableAddresses(events: seq<Event>) {
    forall e <- events :: e.Launch? ==> e.checked == e.inserted
  }

  /** Then no address ever has more than `maxPerIp` processes, in any run. */
  lemma {:induction false} PerIpLimitHolds(limits: Limits, events: seq<Event>)
    requires StableAddresses(events)
    ensures WithinPerIp(limits, Run(limits, events))
    ensures limits.maxPerIp != 0 ==> forall addr :: |From(Run(limits, events), addr)| <= limits.maxPerIp
  {
    if events == [] {
    } else {
      var before, event := Run(limits, events[..|events| - 1]), events[|events| - 1];
      assert event in events;
      PerIpLimitHolds(limits, events[..|events| - 1]);
      forall addr
        ensures limits.maxPerIp != 0 ==> |From(After(limits, before, event), addr)| <= limits.maxPerIp
      {
        match event
        case Launch(_, inserted, clone) =>
          if clone.Some? && clone.value !in before {
            FromAfterInsert(before, clone.value, inserted, addr);
          }
        case Reap(pid, _) => FromAfterRemove(before, {pid}, addr);
        case KillAll(gone) => FromAfterRemove(before, gone, addr);
      }
    }
  }

  /**
   * One launch keeps the limit per address exactly when it inserts nothing or the address stored, not the one
   * checked, still has room.
   */
  lemma LaunchKeepsPerIpExactly(limits: Limits, pids: Table, checked: Address, inserted: Address, pid: Pid)
    requires limits.maxPerIp != 0 && WithinPerIp(limits, pids) && pid !in pids
    ensures WithinPerIp(limits, After(limits, pids, Launch(checked, inserted, Some(pid))))
       <==> !Allowed(limits, pids, checked) || |From(pids, inserted)| < limits.maxPerIp
  {
    PerIpAfterInsert(limits, pids, pid, inserted);
  }

  /** Without stable addresses two launches are enough to break a limit of one. */
  lemma UnstableAddressBreaksLimit()
    ensures var limits := Limits(0, 1);
            !WithinPerIp(limits, Run(limits, [Launch("a", "a", Some(1)), Launch("b", "a", Some(2))]))
  {
    var limits := Limits(0, 1);
    var first, second := Launch("a", "a", Some(1)), Launch("b", "a", Some(2));
    assert [first, second][..1] == [first] && [first][..0] == [];
    assert Run(limits, []) == map[];
    assert From(map[], "a") == {} && From(map[1 := "a"], "b") == {};
    assert Run(limits, [first]) == map[1 := "a"];
    assert Run(limits, [first, second]) == map[1 := "a", 2 := "a"];
    assert From(map[1 := "a", 2 := "a"], "a") == {1, 2};
  }
}
