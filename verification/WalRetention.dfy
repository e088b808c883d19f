/** WAL retention on one tier: a pass lists the tier's backups, takes the oldest StartWAL among
    them, and removes the WAL older than that. Backups start, complete, are abandoned, arrive from the
    other tier and are deleted, and WAL arrives, at any point of the pass. */
module WalRetention {
  import opened WalNames
  import opened SegmentNames
  import opened WalStore
  import opened Backups

  // ------------------------------------------------------ the oldest WAL

  /** `oldest` is the least non-empty StartWAL of `wals`, or empty if there is none. */
  ghost predicate OldestWAL(wals: set<string>, oldest: string) {
    && (oldest == "" ==> forall w :: w in wals ==> w == "")
    && (oldest != "" ==> oldest in wals)
    && (forall w :: w in wals && w != "" ==> !Below(w, oldest))
  }

  function StartWALs(backups: seq<Backup>): (r: set<string>) {
    set b | b in backups :: b.startWAL
  }

  method FindOldestWAL(backups: seq<Backup>) returns (oldest: string)
    ensures OldestWAL(StartWALs(backups), oldest)
    ensures oldest == "" <==> forall b :: b in backups ==> b.startWAL == ""
    ensures oldest != "" ==> exists b :: b in backups && b.startWAL == oldest
    ensures forall b :: b in backups && b.startWAL != "" ==> b.startWAL == oldest || Below(oldest, b.startWAL)
  {
    oldest := "";
    for i := 0 to |backups|
      invariant OldestWAL(StartWALs(backups[..i]), oldest)
    {
      var w := backups[i].startWAL;
      assert StartWALs(backups[..i + 1]) == StartWALs(backups[..i]) + {w} by {
        assert backups[..i + 1] == backups[..i] + [backups[i]];
      }
      if w == "" { continue; }
      BelowTotal(w, w);
      BelowTotal(w, oldest);
      if oldest == "" || Below(w, oldest) {
        forall v | v in StartWALs(backups[..i]) && v != "" ensures !Below(v, w) {
          if oldest != "" { AtMostTransitive(w, oldest, v); }
        }
        oldest := w;
      }
    }
    assert backups[..|backups|] == backups;
    forall b | b in backups ensures b.startWAL in StartWALs(backups) && (b.startWAL != "" ==> oldest != "") {
      BelowTotal(b.startWAL, oldest);
    }
    forall b | b in backups && b.startWAL != "" ensures b.startWAL == oldest || Below(oldest, b.startWAL) {
      BelowTotal(b.startWAL, oldest);
    }
  }

  /** On canonical segment names the string minimum is the numeric one. */
  lemma {:induction false} OldestIsNumericMinimum(wals: set<string>, oldest: string)
    requires OldestWAL(wals, oldest)
    requires forall w :: w in wals && w != "" ==> |w| == WAL_NAME_LENGTH && Canonical(w)
    ensures oldest != "" ==> Canonical(oldest)
    ensures forall w :: w in wals && w != "" ==> Canonical(w) && HexValue(oldest) <= HexValue(w)
  {
    forall w | w in wals && w != "" ensures Canonical(w) && HexValue(oldest) <= HexValue(w) {
      HexOrder(w, oldest);
    }
  }

  datatype Outcome = Done | Failed

  /** `applyWALRetention`: nothing is removed when the tier has no WAL repository, when the listing
      fails, is empty or names no StartWAL, when the oldest StartWAL is not a WAL file name, or when
      the cluster's directory cannot be listed. */
  method ApplyWALRetention(backups: Option<seq<Backup>>, store: ClusterDirectory?, readable: bool, faults: Faults)
    returns (outcome: Outcome)
    modifies if store == null then {} else {store}
    ensures store == null ==> outcome == Done
    ensures store != null && backups.None? ==> outcome == Failed
    ensures store != null && backups.Some? ==> forall oldest :: OldestWAL(StartWALs(backups.value), oldest) ==> (
      if oldest != "" && ValidWalFileName(oldest) && readable
      then outcome == Done && |oldest| >= SUBDIRECTORY_LENGTH
        && Pruned(old(store.Contents()), store.Contents(), oldest, faults)
      else (outcome == Failed <==> oldest != "") && store.Contents() == old(store.Contents()))
    ensures store != null && outcome == Failed ==> store.Contents() == old(store.Contents())
  {
    if store == null {
      return Done;
    }
    if backups.None? {
      return Failed;
    }
    if backups.value == [] {
      return Done;
    }
    var oldest := FindOldestWAL(backups.value);
    forall other | OldestWAL(StartWALs(backups.value), other) ensures other == oldest { BelowTotal(oldest, other); }
    if oldest == "" {
      return Done;
    }
    if !ValidWalFileName(oldest) {
      return Failed;
    }
    ValidNamesPlacement(oldest);
    var ok := store.SetFirstRequired(oldest, readable, faults);
    outcome := if ok then Done else Failed;
  }

  // --------------------------------------------------------- the system

  /** The tier as seen between two atomic actions. `newest` is the StartWAL of the last backup
      that was started on it; `pass` the first required WAL of the pass in progress, if any. */
  datatype Tier = Tier(
    listed: map<string, string>,
    inFlight: Option<string>,
    newest: string,
    archive: Archive,
    pass: Option<string>)

  datatype Step =
    | Archiving(step: WalStore.Step)
    | BackupStarts(startWAL: string)
    | BackupCompletes(name: string)
    | BackupAbandoned
    | BackupRelayed(name: string, startWAL: string)
    | BackupDeleted(name: string)
    | PassLists(skipped: set<string>)
    | PassPrunes(faults: Faults)
    | PassRemovesFile(dir: string, name: string)
    | PassRemovesDirectory(dir: string)
    | PassEnds

  predicate ByRetention(step: Step) {
    step.PassLists? || step.PassPrunes? || step.PassRemovesFile? || step.PassRemovesDirectory? || step.PassEnds?
  }

  function Listing(listed: map<string, string>, skipped: set<string>): (wals: set<string>) {
    set n | n in listed && n !in skipped :: listed[n]
  }

  /** Backups are taken on the tier, one at a time, or arrive from the other tier; either way their
      StartWAL can be any. A listing leaves out the backups whose metadata it cannot decode. A pass
      prunes in one go, or file by file with anything else happening in between. */
  ghost predicate Next(t: Tier, step: Step, t': Tier) {
    match step
    case Archiving(s) =>
      !s.Retain? && WalStore.Next(t.archive, s, t'.archive) && t' == t.(archive := t'.archive)
    case BackupStarts(startWAL) =>
      && t.inFlight.None?
      && t' == t.(inFlight := Some(startWAL), newest := if startWAL == "" then t.newest else startWAL)
    case BackupCompletes(name) =>
      && t.inFlight.Some? && name !in t.listed
      && t' == t.(inFlight := None, listed := t.listed[name := t.inFlight.value])
    case BackupAbandoned => t' == t.(inFlight := None)
    case BackupRelayed(name, startWAL) =>
      name !in t.listed && t' == t.(listed := t.listed[name := startWAL])
    case BackupDeleted(name) => t' == t.(listed := t.listed - {name})
    case PassLists(skipped) =>
      exists oldest :: OldestWAL(Listing(t.listed, skipped), oldest)
        && t' == t.(pass := if oldest != "" && ValidWalFileName(oldest) then Some(oldest) else None)
    case PassPrunes(faults) =>
      && t.pass.Some? && |t.pass.value| >= SUBDIRECTORY_LENGTH
      && Pruned(t.archive, t'.archive, t.pass.value, faults)
      && t' == t.(archive := t'.archive, pass := None)
    case PassRemovesFile(dir, name) =>
      && t.pass.Some? && Obsolete(name, t.pass.value)
      && t.archive.Stores(Some(dir), name)
      && t' == t.(archive := Removed(t.archive, Some(dir), name))
    case PassRemovesDirectory(dir) =>
      && t.pass.Some? && dir in t.archive.dirs && t.archive.dirs[dir] == {}
      && t' == t.(archive := t.archive.(dirs := t.archive.dirs - {dir}))
    case PassEnds => t' == t.(pass := None)
  }

  const INITIAL := Tier(map[], None, "", Archive({}, map[]), None)

  ghost predicate IsRun(run: seq<Tier>, steps: seq<Step>) {
    && |run| == |steps| + 1 && run[0] == INITIAL
    && forall i :: 0 <= i < |steps| ==> StepAt(run, steps, i)
  }

  ghost predicate StepAt(run: seq<Tier>, steps: seq<Step>, i: nat)
    requires i < |steps| && |run| == |steps| + 1
  {
    Next(run[i], steps[i], run[i + 1])
  }

  /** `wal` is not older than the StartWAL of `name`, a backup that is listed. */
  ghost predicate RequiredBy(t: Tier, name: string, wal: string) {
    name in t.listed && t.listed[name] != "" && !Below(TrimPartialSuffix(wal), t.listed[name])
  }

  /** The backup in flight needs `wal`. */
  ghost predicate RequiredInFlight(t: Tier, wal: string) {
    t.inFlight.Some? && t.inFlight.value != "" && !Below(TrimPartialSuffix(wal), t.inFlight.value)
  }

  /** The pass in progress works with a WAL that no listed backup starts before. */
  ghost predicate PassIsSafe(t: Tier) {
    t.pass.Some? ==> forall name :: name in t.listed && t.listed[name] != "" ==> !Below(t.listed[name], t.pass.value)
  }

  // ------------------------------------------------------ what keeps it safe

  /** Every backup the listing skips starts no earlier than some backup that it keeps. */
  ghost predicate SkipsNothingOlder(listed: map<string, string>, skipped: set<string>) {
    forall name :: name in listed && name in skipped && listed[name] != "" ==>
      exists w :: w in Listing(listed, skipped) && w != "" && !Below(listed[name], w)
  }

  /** The pass goes on to prune with `oldest`. */
  ghost predicate Prunes(listed: map<string, string>, skipped: set<string>, oldest: string) {
    OldestWAL(Listing(listed, skipped), oldest) && oldest != "" && ValidWalFileName(oldest)
  }

  /** A listing is good to prune with: it skips nothing older, or leads to no pruning. */
  ghost predicate SafeListing(listed: map<string, string>, skipped: set<string>) {
    SkipsNothingOlder(listed, skipped) || forall oldest :: !Prunes(listed, skipped, oldest)
  }

  /** A backup with this StartWAL may be listed now: it does not start before the pass in progress. */
  ghost predicate SafeArrival(t: Tier, startWAL: string) {
    t.pass.None? || startWAL == "" || !Below(startWAL, t.pass.value)
  }

  /** What each kind of step has to meet for the pass to stay safe. */
  ghost predicate SafeStep(t: Tier, step: Step) {
    match step
    case PassLists(skipped) => SafeListing(t.listed, skipped)
    case BackupCompletes(_) => t.inFlight.Some? ==> SafeArrival(t, t.inFlight.value)
    case BackupRelayed(_, startWAL) => SafeArrival(t, startWAL)
    case _ => true
  }

  ghost predicate AllStepsSafe(run: seq<Tier>, steps: seq<Step>) {
    |run| == |steps| + 1 && forall i :: 0 <= i < |steps| ==> SafeStep(run[i], steps[i])
  }

  lemma {:induction false} SafeListingIsSafe(t: Tier, skipped: set<string>, t': Tier)
    requires Next(t, PassLists(skipped), t')
    ensures PassIsSafe(t') <==> SafeListing(t.listed, skipped)
  {
    var oldest :| OldestWAL(Listing(t.listed, skipped), oldest)
        && t' == t.(pass := if oldest != "" && ValidWalFileName(oldest) then Some(oldest) else None);
    if t'.pass.None? {
      forall other ensures !Prunes(t.listed, skipped, other) {
        if OldestWAL(Listing(t.listed, skipped), other) { BelowTotal(oldest, other); }
      }
    } else {
      assert Prunes(t.listed, skipped, oldest);
      NoneOlder(t.listed, skipped, oldest);
    }
  }

  lemma {:induction false} NoneOlder(listed: map<string, string>, skipped: set<string>, oldest: string)
    requires OldestWAL(Listing(listed, skipped), oldest) && oldest != ""
    ensures SkipsNothingOlder(listed, skipped) <==>
      forall name :: name in listed && listed[name] != "" ==> !Below(listed[name], oldest)
  {
    forall name | name in listed && listed[name] != ""
      ensures (name !in skipped || exists w :: w in Listing(listed, skipped) && w != "" && !Below(listed[name], w))
         <==> !Below(listed[name], oldest)
    {
      if name !in skipped {
        assert listed[name] in Listing(listed, skipped);
      } else if w :| w in Listing(listed, skipped) && w != "" && !Below(listed[name], w) {
        AtMostTransitive(oldest, w, listed[name]);
      }
    }
  }

  /** A step keeps the pass safe exactly when it meets its condition. */
  lemma {:induction false} StepIsSafe(t: Tier, step: Step, t': Tier)
    requires PassIsSafe(t) && Next(t, step, t')
    ensures PassIsSafe(t') <==> SafeStep(t, step)
  {
    match step
    case PassLists(skipped) => SafeListingIsSafe(t, skipped, t');
    case BackupCompletes(name) => ArrivalIsSafe(t, name, t.inFlight.value, t');
    case BackupRelayed(name, startWAL) => ArrivalIsSafe(t, name, startWAL, t');
    case _ =>
  }

  lemma {:induction false} ArrivalIsSafe(t: Tier, name: string, startWAL: string, t': Tier)
    requires PassIsSafe(t) && name !in t.listed
    requires t'.listed == t.listed[name := startWAL] && t'.pass == t.pass
    ensures PassIsSafe(t') <==> SafeArrival(t, startWAL)
  {
    assert t'.listed[name] == startWAL;
    forall n | n in t.listed ensures t'.listed[n] == t.listed[n] {}
  }

  /** A backup that starts no earlier than some listed one may always arrive. */
  lemma {:induction false} NotBelowListedIsSafe(t: Tier, startWAL: string, name: string)
    requires PassIsSafe(t) && name in t.listed && t.listed[name] != "" && !Below(startWAL, t.listed[name])
    ensures SafeArrival(t, startWAL)
  {
    if t.pass.Some? { AtMostTransitive(t.pass.value, t.listed[name], startWAL); }
  }

  ghost predicate AlwaysSafe(run: seq<Tier>) {
    forall i :: 0 <= i < |run| ==> PassIsSafe(run[i])
  }

  lemma {:induction false} SafeUpTo(run: seq<Tier>, steps: seq<Step>, i: nat)
    requires IsRun(run, steps) && AllStepsSafe(run, steps) && i < |run|
    ensures PassIsSafe(run[i])
  {
    if i > 0 {
      var k := i - 1;
      SafeUpTo(run, steps, k);
      assert StepAt(run, steps, k) && SafeStep(run[k], steps[k]);
      StepIsSafe(run[k], steps[k], run[i]);
    }
  }

  /** In every run: no pass ever works with a WAL that a listed backup starts before, if and only if
      every listing is good to prune with and every backup that arrives during a pass starts at or
      after the WAL the pass works with. */
  lemma {:induction false} SafeRunsExactly(run: seq<Tier>, steps: seq<Step>)
    requires IsRun(run, steps)
    ensures AlwaysSafe(run) <==> AllStepsSafe(run, steps)
  {
    if AllStepsSafe(run, steps) {
      forall i | 0 <= i < |run| ensures PassIsSafe(run[i]) { SafeUpTo(run, steps, i); }
    }
    if AlwaysSafe(run) {
      forall i | 0 <= i < |steps| ensures SafeStep(run[i], steps[i]) {
        assert StepAt(run, steps, i) && PassIsSafe(run[i]) && PassIsSafe(run[i + 1]);
        StepIsSafe(run[i], steps[i], run[i + 1]);
      }
    }
  }

  // ------------------------------------------------------------ listed backups

  /** What a listed backup requires is not obsolete for the pass in progress. */
  lemma {:induction false} RequiredIsNotObsolete(t: Tier, name: string, wal: string)
    requires PassIsSafe(t) && t.pass.Some? && RequiredBy(t, name, wal)
    ensures !Obsolete(wal, t.pass.value)
  {
    AtMostTransitive(t.pass.value, t.listed[name], TrimPartialSuffix(wal));
  }

  /** A step of retention removes obsolete files only. */
  lemma {:induction false} RemovesOnlyObsolete(t: Tier, step: Step, t': Tier, dir: Option<string>, wal: string)
    requires Next(t, step, t') && ByRetention(step) && t.archive.Stores(dir, wal)
    requires t.pass.Some? ==> !Obsolete(wal, t.pass.value)
    ensures t'.archive.Stores(dir, wal)
  {
    if step.PassPrunes? { PruneRemovesOnlyObsolete(t.archive, t'.archive, t.pass.value, step.faults); }
  }

  /** In every run whose steps are safe, no action of retention removes a segment or partial that a
      listed backup starts at or before. */
  lemma {:induction false} RetentionNeverRemovesRequired(run: seq<Tier>, steps: seq<Step>, i: nat,
                                                         backup: string, dir: Option<string>, wal: string)
    requires IsRun(run, steps) && AllStepsSafe(run, steps) && i < |steps| && ByRetention(steps[i])
    requires run[i].archive.Stores(dir, wal) && RequiredBy(run[i], backup, wal)
    ensures run[i + 1].archive.Stores(dir, wal)
  {
    SafeUpTo(run, steps, i);
    assert StepAt(run, steps, i);
    if run[i].pass.Some? { RequiredIsNotObsolete(run[i], backup, wal); }
    RemovesOnlyObsolete(run[i], steps[i], run[i + 1], dir, wal);
  }

  lemma {:induction false} OtherStepKeepsSegment(t: Tier, step: Step, t': Tier, wal: string)
    requires Next(t, step, t') && !ByRetention(step)
    requires IsWALFile(wal) && t.archive.Stores(Some(wal[..SUBDIRECTORY_LENGTH]), wal)
    ensures t'.archive.Stores(Some(wal[..SUBDIRECTORY_LENGTH]), wal)
  {
    if step.Archiving? { WritingKeepsSegments(t.archive, step.step, t'.archive, wal[..SUBDIRECTORY_LENGTH], wal); }
  }

  lemma {:induction false} SegmentStaysOneStep(run: seq<Tier>, steps: seq<Step>, i: nat, backup: string, wal: string)
    requires IsRun(run, steps) && AllStepsSafe(run, steps) && i < |steps| && RequiredBy(run[i], backup, wal)
    requires IsWALFile(wal) && run[i].archive.Stores(Some(wal[..SUBDIRECTORY_LENGTH]), wal)
    ensures run[i + 1].archive.Stores(Some(wal[..SUBDIRECTORY_LENGTH]), wal)
  {
    if ByRetention(steps[i]) {
      RetentionNeverRemovesRequired(run, steps, i, backup, Some(wal[..SUBDIRECTORY_LENGTH]), wal);
    } else {
      assert StepAt(run, steps, i);
      OtherStepKeepsSegment(run[i], steps[i], run[i + 1], wal);
    }
  }

  /** So a complete segment stays for as long as some listed backup needs it. */
  lemma {:induction false} RequiredSegmentStays(run: seq<Tier>, steps: seq<Step>, i: nat, j: nat,
                                                backup: string, wal: string)
    requires IsRun(run, steps) && AllStepsSafe(run, steps) && i <= j < |run|
    requires IsWALFile(wal) && run[i].archive.Stores(Some(wal[..SUBDIRECTORY_LENGTH]), wal)
    requires forall k :: i <= k < j ==> RequiredBy(run[k], backup, wal)
    ensures run[j].archive.Stores(Some(wal[..SUBDIRECTORY_LENGTH]), wal)
    decreases j
  {
    if i < j {
      RequiredSegmentStays(run, steps, i, j - 1, backup, wal);
      SegmentStaysOneStep(run, steps, j - 1, backup, wal);
    }
  }

  // ------------------------------------------------------- the backup in flight

  /** A tier on which backups are taken in the order of the log, and none arrives from elsewhere. */
  ghost predicate InOrder(t: Tier, step: Step) {
    !step.BackupRelayed? && (step.BackupStarts? ==> step.startWAL == "" || !Below(step.startWAL, t.newest))
  }

  ghost predicate TakenInOrder(run: seq<Tier>, steps: seq<Step>) {
    && |run| == |steps| + 1
    && forall i :: 0 <= i < |steps| ==>
      InOrder(run[i], steps[i]) && (steps[i].PassLists? ==> SafeListing(run[i].listed, steps[i].skipped))
  }

  /** Nothing on the tier starts after the newest backup, and the pass works with a WAL at or before it. */
  ghost predicate NewestIsNewest(t: Tier) {
    && (forall name :: name in t.listed ==> t.listed[name] == "" || !Below(t.newest, t.listed[name]))
    && (t.inFlight.Some? && t.inFlight.value != "" ==> t.inFlight.value == t.newest)
    && (t.pass.Some? ==> !Below(t.newest, t.pass.value))
  }

  lemma {:induction false} StepKeepsNewest(t: Tier, step: Step, t': Tier)
    requires NewestIsNewest(t) && Next(t, step, t') && InOrder(t, step)
    ensures NewestIsNewest(t')
  {
    match step
    case BackupStarts(startWAL) =>
      if startWAL != "" {
        BelowTotal(startWAL, startWAL);
        forall name | name in t'.listed && t'.listed[name] != "" ensures !Below(t'.newest, t'.listed[name]) {
          AtMostTransitive(t.listed[name], t.newest, startWAL);
        }
        if t.pass.Some? { AtMostTransitive(t.pass.value, t.newest, startWAL); }
      }
    case BackupCompletes(_) => BelowTotal(t.newest, t.newest);
    case PassLists(skipped) =>
      if t'.pass.Some? {
        assert t'.pass.value in Listing(t.listed, skipped);
      }
    case _ =>
  }

  lemma {:induction false} InitialNewest(t: Tier)
    requires t == INITIAL
    ensures NewestIsNewest(t)
  {
    BelowTotal("", "");
  }

  lemma {:induction false} RunKeepsNewest(run: seq<Tier>, steps: seq<Step>, i: nat)
    requires IsRun(run, steps) && TakenInOrder(run, steps) && i < |run|
    ensures NewestIsNewest(run[i])
  {
    if i == 0 {
      InitialNewest(run[0]);
    } else {
      var k := i - 1;
      RunKeepsNewest(run, steps, k);
      assert StepAt(run, steps, k) && InOrder(run[k], steps[k]);
      StepKeepsNewest(run[k], steps[k], run[i]);
    }
  }

  /** Where backups are taken in order, listings that skip nothing older are all it takes. */
  lemma {:induction false} InOrderIsSafe(run: seq<Tier>, steps: seq<Step>)
    requires IsRun(run, steps) && TakenInOrder(run, steps)
    ensures AllStepsSafe(run, steps)
  {
    forall i | 0 <= i < |steps| ensures SafeStep(run[i], steps[i]) {
      assert InOrder(run[i], steps[i]);
      RunKeepsNewest(run, steps, i);
    }
  }

  /** There retention also spares what the backup in flight needs. */
  lemma {:induction false} RetentionSparesBackupInFlight(run: seq<Tier>, steps: seq<Step>, i: nat,
                                                         dir: Option<string>, wal: string)
    requires IsRun(run, steps) && TakenInOrder(run, steps) && i < |steps| && ByRetention(steps[i])
    requires run[i].archive.Stores(dir, wal) && RequiredInFlight(run[i], wal)
    ensures run[i + 1].archive.Stores(dir, wal)
  {
    RunKeepsNewest(run, steps, i);
    assert StepAt(run, steps, i);
    if run[i].pass.Some? {
      AtMostTransitive(run[i].pass.value, run[i].inFlight.value, TrimPartialSuffix(wal));
    }
    RemovesOnlyObsolete(run[i], steps[i], run[i + 1], dir, wal);
  }

  // ------------------------------------------------------------ when it fails

  /** When StartWALs are bare segment names, the pass in progress can remove no WAL that a listed
      backup requires, whatever is archived, exactly when it is safe. */
  lemma {:induction false} SafeExactlyWhenNothingIsLost(t: Tier)
    requires forall name :: name in t.listed && t.listed[name] != "" ==> IsWALFile(t.listed[name])
    ensures PassIsSafe(t) <==>
      forall name, wal :: RequiredBy(t, name, wal) && t.pass.Some? ==> !Obsolete(wal, t.pass.value)
  {
    if PassIsSafe(t) {
      forall name, wal | RequiredBy(t, name, wal) && t.pass.Some? ensures !Obsolete(wal, t.pass.value) {
        RequiredIsNotObsolete(t, name, wal);
      }
    } else {
      var name :| name in t.listed && t.listed[name] != "" && Below(t.listed[name], t.pass.value);
      var wal := t.listed[name];
      NotBothForms(wal);
      BelowTotal(wal, wal);
      assert RequiredBy(t, name, wal) && Obsolete(wal, t.pass.value);
    }
  }

  /** Skipping a backup in the listing is one thing retention cannot survive: the pass that follows a
      listing can remove no required WAL exactly when the listing skips nothing older than what it
      keeps, or does not lead to pruning. */
  lemma {:induction false} SafeExactlyWithoutOlderSkips(t: Tier, skipped: set<string>, t': Tier)
    requires Next(t, PassLists(skipped), t')
    requires forall name :: name in t.listed && t.listed[name] != "" ==> IsWALFile(t.listed[name])
    ensures SafeListing(t.listed, skipped) <==>
      forall name, wal :: RequiredBy(t', name, wal) && t'.pass.Some? ==> !Obsolete(wal, t'.pass.value)
  {
    SafeListingIsSafe(t, skipped, t');
    SafeExactlyWhenNothingIsLost(t');
  }

  /** A relay of an old backup is the other: a pass in progress can remove no WAL that a listed backup
      requires, after the relay, exactly when the relayed backup does not start before the pass. */
  lemma {:induction false} SafeExactlyWithoutOlderRelays(t: Tier, name: string, startWAL: string, t': Tier)
    requires Next(t, BackupRelayed(name, startWAL), t') && PassIsSafe(t)
    requires forall n :: n in t'.listed && t'.listed[n] != "" ==> IsWALFile(t'.listed[n])
    ensures SafeArrival(t, startWAL) <==>
      forall n, wal :: RequiredBy(t', n, wal) && t'.pass.Some? ==> !Obsolete(wal, t'.pass.value)
  {
    StepIsSafe(t, BackupRelayed(name, startWAL), t');
    SafeExactlyWhenNothingIsLost(t');
  }

  /** Two segments, the first of them older. */
  ghost predicate OlderAndNewer(wal: string, newer: string) {
    IsWALFile(wal) && IsWALFile(newer) && Below(wal, newer)
  }

  const STEM := "00000001000000000000000"

  lemma {:induction false} OlderAndNewerExist()
    ensures OlderAndNewer(STEM + "1", STEM + "5")
  {
    SameStem(STEM, "1", "5");
  }

  lemma {:induction false} SameStem(stem: string, a: string, b: string)
    requires Below(a, b)
    ensures Below(stem + a, stem + b)
  {
    BelowSplit(stem + a, stem + b, |stem|);
    assert (stem + a)[|stem|..] == a && (stem + b)[|stem|..] == b;
    assert (stem + a)[..|stem|] == stem == (stem + b)[..|stem|];
  }

  function Holding(wal: string): (a: Archive)
    requires |wal| >= SUBDIRECTORY_LENGTH
  {
    Archive({}, map[wal[..SUBDIRECTORY_LENGTH] := {wal}])
  }

  lemma {:induction false} ArchivesIt(wal: string)
    requires IsWALFile(wal)
    ensures WalStore.Next(Archive({}, map[]), Create(wal, true), Holding(wal))
    ensures Holding(wal).Stores(Some(wal[..SUBDIRECTORY_LENGTH]), wal)
    ensures TrimPartialSuffix(wal) == wal && ValidWalFileName(wal)
  {
    SegmentPlacement(wal);
    NotBothForms(wal);
    assert {} + {wal} == {wal};
  }

  lemma {:induction false} OnlyNewerListed(listed: map<string, string>, skipped: set<string>, newer: string)
    requires newer != "" && Listing(listed, skipped) == {newer}
    ensures OldestWAL(Listing(listed, skipped), newer)
  {
    BelowTotal(newer, newer);
  }

  /** The run ends with `wal` gone, by a step of retention, while a listed backup starts with it. */
  ghost predicate LosesWAL(run: seq<Tier>, steps: seq<Step>, backup: string, wal: string)
    requires |wal| >= SUBDIRECTORY_LENGTH
  {
    && IsRun(run, steps) && steps != [] && ByRetention(steps[|steps| - 1])
    && var t, t', dir := run[|steps| - 1], run[|steps|], Some(wal[..SUBDIRECTORY_LENGTH]);
    && RequiredBy(t, backup, wal) && RequiredBy(t', backup, wal)
    && t.archive.Stores(dir, wal) && !t'.archive.Stores(dir, wal)
  }

  /** The last step of both runs below. */
  lemma {:induction false} RemovesIt(t: Tier, wal: string, newer: string, backup: string)
    requires OlderAndNewer(wal, newer) && t.archive == Holding(wal) && t.pass == Some(newer)
    requires backup in t.listed && t.listed[backup] == wal
    ensures var t' := t.(archive := Archive({}, map[wal[..SUBDIRECTORY_LENGTH] := {}]));
      && Next(t, PassRemovesFile(wal[..SUBDIRECTORY_LENGTH], wal), t')
      && RequiredBy(t, backup, wal) && RequiredBy(t', backup, wal)
      && t.archive.Stores(Some(wal[..SUBDIRECTORY_LENGTH]), wal)
      && !t'.archive.Stores(Some(wal[..SUBDIRECTORY_LENGTH]), wal)
  {
    ArchivesIt(wal);
    BelowTotal(wal, wal);
    var dir := wal[..SUBDIRECTORY_LENGTH];
    assert {wal} - {wal} == {};
    assert map[dir := {wal}][dir := {}] == map[dir := {}];
  }

  /** A run that ends in `t`, one step longer. */
  lemma {:induction false} Extended(run: seq<Tier>, steps: seq<Step>, t: Tier, step: Step, t': Tier)
    returns (run': seq<Tier>, steps': seq<Step>)
    requires IsRun(run, steps) && run[|steps|] == t && Next(t, step, t')
    ensures IsRun(run', steps') && steps' == steps + [step] && run'[|steps'|] == t' && run'[|steps|] == t
  {
    run', steps' := run + [t'], steps + [step];
    forall i | 0 <= i < |steps'| ensures StepAt(run', steps', i) {
      if i < |steps| { assert StepAt(run, steps, i); }
    }
  }

  function InFlight(t: Tier, startWAL: string): (t': Tier) {
    t.(inFlight := Some(startWAL), newest := startWAL)
  }

  function Taken(t: Tier, name: string, startWAL: string): (t': Tier) {
    t.(listed := t.listed[name := startWAL], newest := startWAL)
  }

  /** A backup is taken, from its start to its completion. */
  lemma {:induction false} TakesBackup(t: Tier, name: string, startWAL: string)
    requires t.inFlight.None? && startWAL != "" && name !in t.listed
    ensures Next(t, BackupStarts(startWAL), InFlight(t, startWAL))
    ensures Next(InFlight(t, startWAL), BackupCompletes(name), Taken(t, name, startWAL))
  {
  }

  /** A listing that sees the newer backup only starts a pass with its StartWAL. */
  lemma {:induction false} ListsNewer(t: Tier, skipped: set<string>, newer: string)
    requires newer != "" && ValidWalFileName(newer) && Listing(t.listed, skipped) == {newer}
    ensures Next(t, PassLists(skipped), t.(pass := Some(newer)))
  {
    OnlyNewerListed(t.listed, skipped, newer);
  }

  /** The older segment is archived, and then two backups are taken that start with the two. */
  lemma {:induction false} BothTaken(wal: string, newer: string, first: string, second: string)
    returns (run: seq<Tier>, steps: seq<Step>)
    requires OlderAndNewer(wal, newer) && first != second
    ensures IsRun(run, steps) && forall step :: step in steps ==> !step.BackupRelayed? && !step.PassLists?
    ensures run[|steps|] == Taken(Taken(INITIAL.(archive := Holding(wal)), first, wal), second, newer)
  {
    ArchivesIt(wal);
    var t1 := INITIAL.(archive := Holding(wal));
    var t3 := Taken(t1, first, wal);
    TakesBackup(t1, first, wal);
    TakesBackup(t3, second, newer);
    run, steps := [INITIAL], [];
    run, steps := Extended(run, steps, INITIAL, Archiving(Create(wal, true)), t1);
    run, steps := Extended(run, steps, t1, BackupStarts(wal), InFlight(t1, wal));
    run, steps := Extended(run, steps, InFlight(t1, wal), BackupCompletes(first), t3);
    run, steps := Extended(run, steps, t3, BackupStarts(newer), InFlight(t3, newer));
    run, steps := Extended(run, steps, InFlight(t3, newer), BackupCompletes(second), Taken(t3, second, newer));
  }

  /** For any two segments: a backup whose metadata cannot be decoded during one listing loses its
      first WAL in that pass. */
  lemma {:induction false} SkippedBackupLosesWAL(wal: string, newer: string, first: string, second: string)
    returns (run: seq<Tier>, steps: seq<Step>)
    requires OlderAndNewer(wal, newer) && first != second
    ensures LosesWAL(run, steps, first, wal)
    ensures forall step :: step in steps ==> !step.BackupRelayed? && (step.PassLists? ==> step.skipped == {first})
  {
    run, steps := BothTaken(wal, newer, first, second);
    var dir, t := wal[..SUBDIRECTORY_LENGTH], run[|steps|];
    var listed := t.(pass := Some(newer));
    SkippedListing(t.listed, first, second, wal, newer);
    ArchivesIt(newer);
    ListsNewer(t, {first}, newer);
    RemovesIt(listed, wal, newer, first);
    run, steps := Extended(run, steps, t, PassLists({first}), listed);
    run, steps := Extended(run, steps, listed, PassRemovesFile(dir, wal),
                           listed.(archive := Archive({}, map[dir := {}])));
  }

  lemma {:induction false} SkippedListing(listed: map<string, string>, first: string, second: string,
                                          wal: string, newer: string)
    requires first != second && listed.Keys == {first, second} && listed[first] == wal && listed[second] == newer
    ensures Listing(listed, {first}) == {newer}
  {
    assert listed[second] in Listing(listed, {first});
  }

  /** For any two segments: an older backup that is relayed to the tier during a pass loses its first
      WAL in that pass, although no listing skips anything. */
  lemma {:induction false} RelayedBackupLosesWAL(wal: string, newer: string, first: string, second: string)
    returns (run: seq<Tier>, steps: seq<Step>)
    requires OlderAndNewer(wal, newer) && first != second
    ensures LosesWAL(run, steps, second, wal)
    ensures forall step :: step in steps ==> (step.PassLists? ==> step.skipped == {})
  {
    var dir := wal[..SUBDIRECTORY_LENGTH];
    ArchivesIt(wal);
    ArchivesIt(newer);
    var t1 := INITIAL.(archive := Holding(wal));
    var t2 := t1.(listed := t1.listed[first := newer]);
    var t3 := t2.(pass := Some(newer));
    var t4 := t3.(listed := t3.listed[second := wal]);
    var t5 := t4.(archive := Archive({}, map[dir := {}]));
    assert Listing(t2.listed, {}) == {newer} by { assert t2.listed[first] in Listing(t2.listed, {}); }
    ListsNewer(t2, {}, newer);
    RemovesIt(t4, wal, newer, second);
    run, steps := [INITIAL], [];
    run, steps := Extended(run, steps, INITIAL, Archiving(Create(wal, true)), t1);
    run, steps := Extended(run, steps, t1, BackupRelayed(first, newer), t2);
    run, steps := Extended(run, steps, t2, PassLists({}), t3);
    run, steps := Extended(run, steps, t3, BackupRelayed(second, wal), t4);
    run, steps := Extended(run, steps, t4, PassRemovesFile(dir, wal), t5);
  }
}
