/** Runs of the two-tier sweep, with backups completing and being relayed at any point of it:
    which deletion can be the one that loses a backup for good. */
module TierRuns {
  import opened WalNames
  import opened Backups
  import opened Sweep

  /** The policies stored for the cluster, and whether the server has a second tier. */
  datatype Config = Config(tier2Enabled: bool, policy1: Option<int>, policy2: Option<int>) {
    /** Tier 1 looks at tier 2 before deleting. */
    predicate Guarded() {
      tier2Enabled && policy2.Some?
    }
  }

  /** Where the sweeper is: it has listed a tier and decided what to delete there. */
  datatype Phase = Idle | OnTier1(toDelete: set<string>) | OnTier2(toDelete: set<string>)

  datatype Tiers = Tiers(tier1: map<string, Backup>, tier2: map<string, Backup>, phase: Phase)

  datatype Step =
    | Completes(b: Backup)
    | Relays(name: string)
    | ListsTier1(l1: seq<Backup>, l2: seq<Backup>)
    | DeletesOnTier1(name: string)
    | ListsTier2(l: seq<Backup>)
    | DeletesOnTier2(name: string)
    | EndsSweep

  /** `l` lists backups of `tier`, each once; it may miss some. */
  ghost predicate Lists(tier: map<string, Backup>, l: seq<Backup>) {
    Distinct(l) && forall b :: b in l ==> b.name in tier && tier[b.name] == b
  }

  /** Deleting on a tier without a policy deletes nothing. */
  ghost predicate Decides(policy: Option<int>, l: seq<Backup>, guard: Option<seq<Backup>>, toDelete: set<string>) {
    if policy.None? then toDelete == {} else Planned(l, policy.value, guard, toDelete)
  }

  ghost predicate Next(config: Config, t: Tiers, step: Step, t': Tiers) {
    match step
    case Completes(b) =>
      b.name !in t.tier1 && b.name !in t.tier2 && t' == t.(tier1 := t.tier1[b.name := b])
    case Relays(name) =>
      name in t.tier1 && t' == t.(tier2 := t.tier2[name := t.tier1[name]])
    case ListsTier1(l1, l2) =>
      && t.phase.Idle? && Lists(t.tier1, l1) && Lists(t.tier2, l2)
      && t'.phase.OnTier1? && t' == t.(phase := t'.phase)
      && Decides(config.policy1, l1, if config.Guarded() then Some(l2) else None, t'.phase.toDelete)
    case DeletesOnTier1(name) =>
      && t.phase.OnTier1? && name in t.phase.toDelete
      && t' == t.(tier1 := t.tier1 - {name})
    case ListsTier2(l) =>
      && config.tier2Enabled && t.phase.OnTier1? && Lists(t.tier2, l)
      && t'.phase.OnTier2? && t' == t.(phase := t'.phase)
      && Decides(config.policy2, l, None, t'.phase.toDelete)
    case DeletesOnTier2(name) =>
      && t.phase.OnTier2? && name in t.phase.toDelete
      && t' == t.(tier2 := t.tier2 - {name})
    case EndsSweep => t' == t.(phase := Idle)
  }

  /** A run starts with any backups on the tiers and no sweep in progress. */
  ghost predicate IsRun(config: Config, run: seq<Tiers>, steps: seq<Step>) {
    && |run| == |steps| + 1 && run[0].phase.Idle?
    && forall i :: 0 <= i < |steps| ==> StepAt(config, run, steps, i)
  }

  ghost predicate StepAt(config: Config, run: seq<Tiers>, steps: seq<Step>, i: nat)
    requires i < |steps| && |run| == |steps| + 1
  {
    Next(config, run[i], steps[i], run[i + 1])
  }

  /** `tier` holds at least `count` backups other than `name`, none of them started earlier. */
  ghost predicate OutsideNewest(tier: map<string, Backup>, name: string, count: nat) {
    && name in tier
    && exists newer: set<string> :: (|newer| == count && name !in newer
      && forall n :: n in newer ==> n in tier && tier[name].startedAt <= tier[n].startedAt)
  }

  /** What a pass decides to delete is outside the newest N of the tier it listed and, when
      guarded, on the other tier. */
  lemma {:induction false} DecidedIsOutsideNewest(policy: Option<int>, tier: map<string, Backup>, l: seq<Backup>,
                               guard: Option<seq<Backup>>, toDelete: set<string>, name: string)
    requires Decides(policy, l, guard, toDelete) && Lists(tier, l) && name in toDelete
    ensures policy.Some? && policy.value > 0 && OutsideNewest(tier, name, policy.value)
    ensures guard.Some? ==> name in Names(guard.value)
  {
    var keep :| KeepsLatest(l, policy.value, keep) && toDelete == Names(Candidates(l, keep, guard));
    var b: Backup :| b in Candidates(l, keep, guard) && b.name == name;
    DroppedLeavesNewest(tier, l, policy.value, keep, b);
  }

  lemma {:induction false} DroppedLeavesNewest(tier: map<string, Backup>, l: seq<Backup>, count: nat,
                                               keep: seq<Backup>, b: Backup)
    requires Lists(tier, l) && KeepsLatest(l, count, keep) && b in l && b.name !in Names(keep)
    ensures count > 0 && OutsideNewest(tier, b.name, count)
  {
    DroppedIsOutsideNewest(l, count, keep, b);
    SubListDistinct(l, keep);
    DistinctNamesCount(keep);
    forall n | n in Names(keep) ensures n in tier && tier[b.name].startedAt <= tier[n].startedAt {
      var k: Backup :| k in keep && k.name == n;
      assert k in multiset(keep);
      assert k in l;
    }
  }

  // ----------------------------------------------------------- invariants

  /** During the guarded tier-1 pass everything it is about to delete is on tier 2. */
  ghost predicate GuardHolds(t: Tiers) {
    t.phase.OnTier1? ==> forall n :: n in t.phase.toDelete ==> n in t.tier2
  }

  lemma {:induction false} GuardHoldsThroughout(config: Config, run: seq<Tiers>, steps: seq<Step>, i: nat)
    requires IsRun(config, run, steps) && config.Guarded() && i < |run|
    ensures GuardHolds(run[i])
  {
    if i > 0 {
      GuardHoldsThroughout(config, run, steps, i - 1);
      assert StepAt(config, run, steps, i - 1);
      GuardKept(config, run[i - 1], steps[i - 1], run[i]);
    }
  }

  lemma {:induction false} GuardKept(config: Config, t: Tiers, step: Step, t': Tiers)
    requires config.Guarded() && Next(config, t, step, t') && GuardHolds(t)
    ensures GuardHolds(t')
  {
    if step.ListsTier1? {
      forall n | n in t'.phase.toDelete ensures n in t'.tier2 {
        DecidedIsOutsideNewest(config.policy1, t.tier1, step.l1, Some(step.l2), t'.phase.toDelete, n);
      }
    }
  }

  /** With the guard, a tier-1 deletion is never the last: the backup is on tier 2 when it is
      deleted, and stays there. */
  lemma {:induction false} Tier1DeletionLeavesTier2Copy(config: Config, run: seq<Tiers>, steps: seq<Step>, i: nat)
    requires IsRun(config, run, steps) && config.tier2Enabled && config.policy2.Some?
    requires i < |steps| && steps[i].DeletesOnTier1?
    ensures steps[i].name in run[i].tier2 && run[i + 1].tier2 == run[i].tier2
  {
    GuardHoldsThroughout(config, run, steps, i);
    assert StepAt(config, run, steps, i);
  }

  /** Where the decision behind the current tier-2 pass was taken. */
  lemma {:induction false} Tier2Decision(config: Config, run: seq<Tiers>, steps: seq<Step>, i: nat) returns (j: nat)
    requires IsRun(config, run, steps) && i < |run| && run[i].phase.OnTier2?
    ensures j < i && steps[j].ListsTier2? && run[j + 1].phase == run[i].phase
    ensures forall k :: j < k <= i ==> run[k].phase == run[i].phase
  {
    assert i > 0;
    assert StepAt(config, run, steps, i - 1);
    if steps[i - 1].ListsTier2? {
      j := i - 1;
    } else {
      assert run[i - 1].phase == run[i].phase;
      j := Tier2Decision(config, run, steps, i - 1);
    }
  }

  /** With both tiers' policies set, a backup vanishes from both tiers only by a deletion on
      tier 2, decided by a tier-2 pass that found it outside tier 2's newest N. */
  lemma {:induction false} LostOnlyByTier2Policy(config: Config, run: seq<Tiers>, steps: seq<Step>, i: nat,
                                                 name: string)
    returns (j: nat)
    requires IsRun(config, run, steps) && config.tier2Enabled && config.policy2.Some? && i < |steps|
    requires name in run[i].tier1 || name in run[i].tier2
    requires name !in run[i + 1].tier1 && name !in run[i + 1].tier2
    ensures steps[i] == DeletesOnTier2(name) && name !in run[i].tier1
    ensures j < i && steps[j].ListsTier2?
    ensures config.policy2.value > 0 && OutsideNewest(run[j].tier2, name, config.policy2.value)
  {
    assert StepAt(config, run, steps, i);
    if steps[i].DeletesOnTier1? {
      Tier1DeletionLeavesTier2Copy(config, run, steps, i);
      assert false;
    }
    assert steps[i].DeletesOnTier2?;
    j := Tier2Decision(config, run, steps, i);
    assert StepAt(config, run, steps, j);
    DecidedIsOutsideNewest(config.policy2, run[j].tier2, steps[j].l, None, run[j + 1].phase.toDelete, name);
  }

  // ------------------------------------------------ when the guard is off

  /** No run deletes a tier-1 backup that is not on tier 2. */
  ghost predicate Tier1NeverDeletesLast(config: Config) {
    forall run: seq<Tiers>, steps: seq<Step>, i: nat ::
      IsRun(config, run, steps) && i < |steps| && steps[i].DeletesOnTier1? ==> steps[i].name in run[i].tier2
  }

  /** The guard is not active for a server without tier 2, nor for a cluster without a tier-2
      policy: then, and only then, tier 1 can delete a backup tier 2 never received. */
  lemma {:induction false} Tier1DeletesLastExactlyWithoutGuard(config: Config)
    ensures Tier1NeverDeletesLast(config) <==>
      (config.tier2Enabled && config.policy2.Some?) || config.policy1.None? || config.policy1.value <= 0
  {
    if config.Guarded() {
      forall run: seq<Tiers>, steps: seq<Step>, i: nat
        | IsRun(config, run, steps) && i < |steps| && steps[i].DeletesOnTier1?
        ensures steps[i].name in run[i].tier2
      {
        Tier1DeletionLeavesTier2Copy(config, run, steps, i);
      }
    } else if config.policy1.None? || config.policy1.value <= 0 {
      forall run: seq<Tiers>, steps: seq<Step>, i: nat | IsRun(config, run, steps) && i < |steps|
        ensures !steps[i].DeletesOnTier1?
      {
        NoTier1DeletionWithoutPolicy(config, run, steps, i);
      }
    } else {
      var run, steps := UnguardedRun(config);
      assert steps[1].DeletesOnTier1? && steps[1].name !in run[1].tier2;
    }
  }

  lemma {:induction false} NothingDecidedWithoutPolicy(config: Config, run: seq<Tiers>, steps: seq<Step>, i: nat)
    requires IsRun(config, run, steps) && i < |run|
    requires config.policy1.None? || config.policy1.value <= 0
    ensures run[i].phase.OnTier1? ==> run[i].phase.toDelete == {}
  {
    if i > 0 {
      NothingDecidedWithoutPolicy(config, run, steps, i - 1);
      assert StepAt(config, run, steps, i - 1);
      var step := steps[i - 1];
      if step.ListsTier1? && run[i].phase.toDelete != {} {
        var n :| n in run[i].phase.toDelete;
        DecidedIsOutsideNewest(config.policy1, run[i - 1].tier1, step.l1,
          if config.Guarded() then Some(step.l2) else None, run[i].phase.toDelete, n);
        assert false;
      }
    }
  }

  lemma {:induction false} NoTier1DeletionWithoutPolicy(config: Config, run: seq<Tiers>, steps: seq<Step>, i: nat)
    requires IsRun(config, run, steps) && i < |steps|
    requires config.policy1.None? || config.policy1.value <= 0
    ensures !steps[i].DeletesOnTier1?
  {
    NothingDecidedWithoutPolicy(config, run, steps, i);
    assert StepAt(config, run, steps, i);
  }

  /** One backup more than the policy keeps, none of them relayed: the oldest is deleted. */
  lemma {:induction false} UnguardedRun(config: Config) returns (run: seq<Tiers>, steps: seq<Step>)
    requires !config.Guarded() && config.policy1.Some? && config.policy1.value > 0
    ensures IsRun(config, run, steps) && |steps| == 2
    ensures steps[1].DeletesOnTier1? && steps[1].name !in run[1].tier2
  {
    var n := config.policy1.value;
    var l, tier1, toDelete := OneTooMany(n);
    var start := Tiers(tier1, map[], Idle);
    var listed := start.(phase := OnTier1(toDelete));
    var deleted := listed.(tier1 := tier1 - {""});
    run, steps := [start, listed, deleted], [ListsTier1(l, []), DeletesOnTier1("")];
    assert StepAt(config, run, steps, 0);
    assert StepAt(config, run, steps, 1);
  }

  lemma {:induction false} OneTooMany(n: nat) returns (l: seq<Backup>, tier: map<string, Backup>, toDelete: set<string>)
    requires n > 0
    ensures Lists(tier, l) && Planned(l, n, None, toDelete) && "" in toDelete
  {
    l, tier := DistinctBackups(n + 1);
    OldestIsDropped(l, n);
    toDelete := Names(Candidates(l, l[1..], None));
  }

  lemma {:induction false} DistinctBackups(n: nat) returns (l: seq<Backup>, tier: map<string, Backup>)
    ensures |l| == n && Ascending(l) && Lists(tier, l)
    ensures n > 0 ==> l[0].name == ""
    ensures forall b :: b in l ==> |b.name| < n && b.startedAt <= n
    ensures forall name :: name in tier ==> |name| < n
  {
    if n == 0 {
      l, tier := [], map[];
    } else {
      l, tier := DistinctBackups(n - 1);
      var b := Backup(seq(n - 1, _ => 'x'), n, "");
      forall i | 0 <= i < |l| ensures l[i] in l {}
      l, tier := l + [b], tier[b.name := b];
    }
  }

  lemma {:induction false} OldestIsDropped(l: seq<Backup>, n: nat)
    requires n > 0 && |l| == n + 1 && Ascending(l) && Distinct(l)
    ensures KeepsLatest(l, n, l[1..]) && l[0].name in Names(Candidates(l, l[1..], None))
  {
    assert Excess(l, n) == 1 && SortedCopy(l, l);
    forall k | k in l[1..] ensures k.name != l[0].name {
      var j :| 0 <= j < n && l[1..][j] == k;
      assert k == l[j + 1];
    }
    assert l[0] in Candidates(l, l[1..], None);
  }
}
