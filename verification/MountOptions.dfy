/** Mount options: the generic ones folded into flags, the others handed to `fsconfig`; mnt_newapi.cc. */
module MountOptions {
  import opened Prelude
  import StrSplit

  /** The bits that occur in the flag word, which is modelled as the set of bits that are on */
  datatype Flag = RdOnly | NoSuid | NoDev | NoExec | Bind | Rec | Private

  datatype MountPt = MountPt(rw: bool, isBind: bool, nosuid: bool, nodev: bool, noexec: bool, options: Option<string>)

  predicate IsGeneric(opt: string) {
    opt in {"ro", "rw", "nosuid", "suid", "nodev", "dev", "noexec", "exec"}
  }

  /** `applyGenericMountOption` */
  function Apply(opt: string, flags: set<Flag>): set<Flag> {
    if opt == "ro" then flags + {RdOnly}
    else if opt == "rw" then flags - {RdOnly}
    else if opt == "nosuid" then flags + {NoSuid}
    else if opt == "suid" then flags - {NoSuid}
    else if opt == "nodev" then flags + {NoDev}
    else if opt == "dev" then flags - {NoDev}
    else if opt == "noexec" then flags + {NoExec}
    else if opt == "exec" then flags - {NoExec}
    else flags
  }

  /** What each option does to the flags */
  lemma ApplyExactly(opt: string, flags: set<Flag>)
    ensures Apply("ro", flags) == flags + {RdOnly} && Apply("rw", flags) == flags - {RdOnly}
    ensures Apply("nosuid", flags) == flags + {NoSuid} && Apply("suid", flags) == flags - {NoSuid}
    ensures Apply("nodev", flags) == flags + {NoDev} && Apply("dev", flags) == flags - {NoDev}
    ensures Apply("noexec", flags) == flags + {NoExec} && Apply("exec", flags) == flags - {NoExec}
    ensures opt !in {"ro", "rw", "nosuid", "suid", "nodev", "dev", "noexec", "exec"} ==> Apply(opt, flags) == flags
    ensures IsGeneric(opt) <==> opt in {"ro", "rw", "nosuid", "suid", "nodev", "dev", "noexec", "exec"}
  {
  }

  function ApplyAll(opts: seq<string>, flags: set<Flag>): set<Flag> {
    if opts == [] then flags else Apply(opts[|opts| - 1], ApplyAll(opts[..|opts| - 1], flags))
  }

  function Options(mpt: MountPt): seq<string> {
    if mpt.options.Some? then StrSplit.Pieces(mpt.options.value, ',') else []
  }

  function DefaultFlags(mpt: MountPt): set<Flag> {
    (if mpt.rw then {} else {RdOnly}) + (if mpt.isBind then {Bind, Rec, Private} else {})
    + (if mpt.nosuid then {NoSuid} else {}) + (if mpt.nodev then {NoDev} else {})
    + (if mpt.noexec then {NoExec} else {})
  }

  lemma ApplyAllSnoc(opts: seq<string>, opt: string, flags: set<Flag>)
    ensures ApplyAll([], flags) == flags
    ensures ApplyAll(opts + [opt], flags) == Apply(opt, ApplyAll(opts, flags))
  {
    assert (opts + [opt])[..|opts|] == opts;
  }

  method FoldOptions(opts: seq<string>, start: set<Flag>) returns (flags: set<Flag>)
    ensures flags == ApplyAll(opts, start)
  {
    flags := start;
    for i := 0 to |opts|
      invariant flags == ApplyAll(opts[..i], start)
    {
      flags := Apply(opts[i], flags);
      assert opts[..i + 1][..i] == opts[..i];
    }
    assert opts[..|opts|] == opts;
  }

  /** The flags computed in `prepareMountPoint` */
  method MountFlags(mpt: MountPt) returns (flags: set<Flag>)
    ensures flags == ApplyAll(Options(mpt), DefaultFlags(mpt))
    ensures flags == ApplyAll(match mpt.options case None => [] case Some(text) => StrSplit.Pieces(text, ','),
                              DefaultFlags(mpt))
  {
    flags := if mpt.rw then {} else {RdOnly};
    if mpt.isBind {
      flags := flags + {Bind, Rec, Private};
    }
    if mpt.nosuid {
      flags := flags + {NoSuid};
    }
    if mpt.nodev {
      flags := flags + {NoDev};
    }
    if mpt.noexec {
      flags := flags + {NoExec};
    }
    assert flags == DefaultFlags(mpt);
    if mpt.options.Some? {
      var opts := StrSplit.Words(mpt.options.value, ',');
      flags := FoldOptions(opts, flags);
    }
  }

  /** The option that turns a bit on and the one that turns it off; some bits have none. */
  function On(bit: Flag): Option<string> {
    match bit
    case RdOnly => Some("ro")
    case NoSuid => Some("nosuid")
    case NoDev => Some("nodev")
    case NoExec => Some("noexec")
    case _ => None
  }

  function Off(bit: Flag): Option<string> {
    match bit
    case RdOnly => Some("rw")
    case NoSuid => Some("suid")
    case NoDev => Some("dev")
    case NoExec => Some("exec")
    case _ => None
  }

  predicate Mentions(opt: string, bit: Flag) {
    Some(opt) == On(bit) || Some(opt) == Off(bit)
  }

  function Default(mpt: MountPt, bit: Flag): bool {
    match bit
    case RdOnly => !mpt.rw
    case NoSuid => mpt.nosuid
    case NoDev => mpt.nodev
    case NoExec => mpt.noexec
    case _ => mpt.isBind
  }

  /** `k` is where the options mention the bit last. */
  predicate LastMention(opts: seq<string>, bit: Flag, k: nat) {
    k < |opts| && Mentions(opts[k], bit) && forall i :: k < i < |opts| ==> !Mentions(opts[i], bit)
  }

  lemma ApplyOne(opt: string, flags: set<Flag>, bit: Flag)
    ensures bit in Apply(opt, flags) <==> if Mentions(opt, bit) then Some(opt) == On(bit) else bit in flags
  {
  }

  lemma {:induction false} ApplyAllLastWins(opts: seq<string>, flags: set<Flag>, bit: Flag)
    ensures forall k: nat :: LastMention(opts, bit, k) ==> (bit in ApplyAll(opts, flags) <==> Some(opts[k]) == On(bit))
    ensures (forall i :: 0 <= i < |opts| ==> !Mentions(opts[i], bit)) ==>
              (bit in ApplyAll(opts, flags) <==> bit in flags)
  {
    if opts == [] {
    } else {
      var n := |opts| - 1;
      var before := opts[..n];
      ApplyAllLastWins(before, flags, bit);
      ApplyOne(opts[n], ApplyAll(before, flags), bit);
      if !Mentions(opts[n], bit) {
        forall k: nat | LastMention(opts, bit, k)
          ensures LastMention(before, bit, k)
        {
        }
      }
    }
  }

  /** The four bits that options change, with the options for them and the defaults, and the three bind bits */
  lemma BitsExactly(mpt: MountPt, opt: string, bit: Flag)
    ensures Mentions(opt, RdOnly) <==> opt == "ro" || opt == "rw"
    ensures Mentions(opt, NoSuid) <==> opt == "nosuid" || opt == "suid"
    ensures Mentions(opt, NoDev) <==> opt == "nodev" || opt == "dev"
    ensures Mentions(opt, NoExec) <==> opt == "noexec" || opt == "exec"
    ensures bit in {Bind, Rec, Private} ==> !Mentions(opt, bit) && (bit in DefaultFlags(mpt) <==> mpt.isBind)
    ensures On(RdOnly) == Some("ro") && On(NoSuid) == Some("nosuid") && On(NoDev) == Some("nodev")
    ensures On(NoExec) == Some("noexec")
    ensures RdOnly in DefaultFlags(mpt) <==> !mpt.rw
    ensures NoSuid in DefaultFlags(mpt) <==> mpt.nosuid
    ensures NoDev in DefaultFlags(mpt) <==> mpt.nodev
    ensures NoExec in DefaultFlags(mpt) <==> mpt.noexec
  {
  }

  /** Per bit the last option that mentions it decides, or else the default. */
  lemma LastOptionWins(mpt: MountPt, bit: Flag)
    ensures var opts, flags := Options(mpt), ApplyAll(Options(mpt), DefaultFlags(mpt));
            && (forall k :: 0 <= k < |opts| && Mentions(opts[k], bit) &&
                            (forall i :: k < i < |opts| ==> !Mentions(opts[i], bit)) ==>
                              (bit in flags <==> Some(opts[k]) == On(bit)))
            && ((forall i :: 0 <= i < |opts| ==> !Mentions(opts[i], bit)) ==> (bit in flags <==> Default(mpt, bit)))
  {
    var opts := Options(mpt);
    ApplyAllLastWins(opts, DefaultFlags(mpt), bit);
    assert forall k: nat :: LastMention(opts, bit, k) <==>
             k < |opts| && Mentions(opts[k], bit) && forall i :: k < i < |opts| ==> !Mentions(opts[i], bit);
    assert bit in DefaultFlags(mpt) <==> Default(mpt, bit);
  }

  /** The two lists of generic options in the source agree: these and no others are mentions of some bit. */
  lemma GenericMentions(opt: string)
    ensures IsGeneric(opt) <==> exists bit :: Mentions(opt, bit)
  {
    assert Mentions("ro", RdOnly) && Mentions("rw", RdOnly) && Mentions("nosuid", NoSuid) && Mentions("suid", NoSuid);
    assert Mentions("nodev", NoDev) && Mentions("dev", NoDev) && Mentions("noexec", NoExec) && Mentions("exec", NoExec);
  }

  // ---------- Options for fsconfig ----------

  datatype Config = SetString(key: string, value: string) | SetFlag(name: string)

  function ConfigOf(opt: string): Config {
    var k := Find(opt, '=');
    if k < |opt| then SetString(opt[..k], opt[k + 1..]) else SetFlag(opt)
  }

  /** A key with a value, cut at the first equals sign, or a flag if there is none */
  lemma ConfigExactly(opt: string, key: string, value: string)
    ensures '=' !in opt ==> ConfigOf(opt) == SetFlag(opt)
    ensures '=' !in key ==> ConfigOf(key + "=" + value) == SetString(key, value)
  {
    if '=' !in opt {
      assert Find(opt, '=') == |opt|;
    }
    if '=' !in key {
      var all := key + "=" + value;
      assert all[|key|] == '=' && forall i :: 0 <= i < |key| ==> all[i] == key[i];
      assert Find(all, '=') == |key| && all[..|key|] == key && all[|key| + 1..] == value;
    }
  }

  predicate Passed(opt: string) {
    opt != "" && !IsGeneric(opt)
  }

  function Configs(opts: seq<string>): seq<Config> {
    if opts == [] then []
    else
      var earlier, opt := Configs(opts[..|opts| - 1]), opts[|opts| - 1];
      if Passed(opt) then earlier + [ConfigOf(opt)] else earlier
  }

  lemma {:induction false} ConfigsGrow(opts: seq<string>, k: nat)
    requires k <= |opts|
    ensures Configs(opts[..k]) <= Configs(opts)
  {
    if k == |opts| {
      assert opts[..k] == opts;
    } else {
      var before := opts[..|opts| - 1];
      ConfigsGrow(before, k);
      assert before[..k] == opts[..k];
    }
  }

  /**
   * The option loop of `createFilesystemMount`. `failing` is the number of the first `fsconfig` call that
   * fails, if one does; `calls` are the calls made.
   */
  method ConfigureOptions(options: string, failing: Option<nat>) returns (ok: bool, calls: seq<Config>)
    ensures var all := Configs(StrSplit.Pieces(options, ','));
            && ok == (failing.None? || failing.value >= |all|)
            && calls == if ok then all else all[..failing.value + 1]
  {
    var opts := StrSplit.Words(options, ',');
    calls := [];
    for i := 0 to |opts|
      invariant calls == Configs(opts[..i])
      invariant failing.Some? ==> failing.value >= |calls|
    {
      var opt := opts[i];
      assert opts[..i + 1][..i] == opts[..i];
      if opt == "" || IsGeneric(opt) {
        continue;
      }
      calls := calls + [ConfigOf(opt)];
      if failing == Some(|calls| - 1) {
        ConfigsGrow(opts, i + 1);
        return false, calls;
      }
    }
    assert opts[..|opts|] == opts;
    return true, calls;
  }

  /** The option that a call stands for */
  function OptionOf(config: Config): string {
    match config
    case SetString(key, value) => key + "=" + value
    case SetFlag(name) => name
  }

  function OptionsOf(configs: seq<Config>): (r: seq<string>)
    ensures |r| == |configs|
  {
    seq(|configs|, i requires 0 <= i < |configs| => OptionOf(configs[i]))
  }

  function NotGeneric(opts: seq<string>): seq<string> {
    if opts == [] then []
    else
      var earlier, opt := NotGeneric(opts[..|opts| - 1]), opts[|opts| - 1];
      if Passed(opt) then earlier + [opt] else earlier
  }

  lemma CutAtFirstEquals(opt: string)
    ensures OptionOf(ConfigOf(opt)) == opt
    ensures ConfigOf(opt).SetString? ==> '=' !in ConfigOf(opt).key
    ensures ConfigOf(opt).SetFlag? ==> '=' !in opt
  {
    var k := Find(opt, '=');
    if k < |opt| {
      assert opt == opt[..k] + "=" + opt[k + 1..];
    } else {
      assert opt[..k] == opt;
    }
  }

  /** Which options are passed on: those that are neither empty nor generic, each as one call */
  lemma ConfigsSnoc(opts: seq<string>, opt: string)
    ensures Configs([]) == [] && NotGeneric([]) == []
    ensures opt in {"", "ro", "rw", "nosuid", "suid", "nodev", "dev", "noexec", "exec"} ==>
              Configs(opts + [opt]) == Configs(opts) && NotGeneric(opts + [opt]) == NotGeneric(opts)
    ensures opt !in {"", "ro", "rw", "nosuid", "suid", "nodev", "dev", "noexec", "exec"} ==>
              && Configs(opts + [opt]) == Configs(opts) + [ConfigOf(opt)]
              && NotGeneric(opts + [opt]) == NotGeneric(opts) + [opt]
  {
    assert (opts + [opt])[..|opts|] == opts;
  }

  /** The calls are exactly the non-empty options that are not generic, in order, each cut at its first `=`. */
  lemma {:induction false} PassedExactly(opts: seq<string>)
    ensures OptionsOf(Configs(opts)) == NotGeneric(opts)
    ensures forall c <- Configs(opts) :: c == ConfigOf(OptionOf(c))
  {
    if opts == [] {
    } else {
      PassedExactly(opts[..|opts| - 1]);
      CutAtFirstEquals(opts[|opts| - 1]);
    }
  }

  /** No option counts twice: those that are folded leave the calls alone, and the others leave the flags alone. */
  lemma {:induction false} FoldedNotPassed(opts: seq<string>, i: nat)
    requires i < |opts| && !Passed(opts[i])
    ensures Configs(opts) == Configs(opts[..i] + opts[i + 1..])
    decreases |opts|
  {
    var n := |opts| - 1;
    if i == n {
      assert opts[..i] + opts[i + 1..] == opts[..n];
    } else {
      FoldedNotPassed(opts[..n], i);
      var rest := opts[..i] + opts[i + 1..];
      assert rest[..n - 1] == opts[..n][..i] + opts[..n][i + 1..];
    }
  }

  lemma {:induction false} PassedNotFolded(opts: seq<string>, i: nat, flags: set<Flag>)
    requires i < |opts| && !IsGeneric(opts[i])
    ensures ApplyAll(opts, flags) == ApplyAll(opts[..i] + opts[i + 1..], flags)
    decreases |opts|
  {
    var n := |opts| - 1;
    if i == n {
      assert opts[..i] + opts[i + 1..] == opts[..n];
    } else {
      PassedNotFolded(opts[..n], i, flags);
      var rest := opts[..i] + opts[i + 1..];
      assert rest[..n - 1] == opts[..n][..i] + opts[..n][i + 1..];
    }
  }
}
