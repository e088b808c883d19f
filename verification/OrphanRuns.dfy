/** Runs of backup attempts and orphan passes on one tier. Attempts on a host follow each other in
    time, one in flight at a time, each under a name of its own. */
module OrphanRuns {
  import opened Orphans

  datatype Attempt = Attempt(name: string, startedAt: int)

  /** `clock` holds the latest time seen on each host, `plan` what the pass in progress is deleting. */
  datatype Store = Store(
    entries: set<Manifest>,
    inFlight: map<string, Attempt>,
    completed: set<Key>,
    used: set<Key>,
    clock: map<string, int>,
    plan: set<Key>)
  {
    function Now(host: string): (t: int) {
      if host in clock then clock[host] else 0
    }

    predicate InFlight(k: Key) {
      k.host in inFlight && inFlight[k.host].name == k.name
    }
  }

  /** A deletion that fails half-way leaves some of the snapshots behind. */
  datatype Step =
    | Begins(host: string, name: string, t: int)
    | Uploads(host: string, t: int)
    | Completes(host: string, t: int)
    | Abandons(host: string)
    | RetentionDeletes(k: Key, gone: set<Manifest>)
    | ListsOrphans(allowed: set<string>)
    | DeletesOrphan(k: Key, gone: set<Manifest>)

  function Uploaded(s: Store, host: string, metadata: bool, t: int): (s': Store)
    requires host in s.inFlight
  {
    s.(entries := s.entries + {Manifest(host, s.inFlight[host].name, metadata, t)},
       clock := s.clock[host := if t > s.Now(host) then t else s.Now(host)])
  }

  ghost predicate Next(s: Store, step: Step, s': Store) {
    match step
    case Begins(host, name, t) =>
      && host !in s.inFlight && name != "" && Key(host, name) !in s.used && t > s.Now(host)
      && s' == s.(inFlight := s.inFlight[host := Attempt(name, t)], used := s.used + {Key(host, name)},
                  clock := s.clock[host := t])
    case Uploads(host, t) =>
      host in s.inFlight && t >= s.inFlight[host].startedAt && s' == Uploaded(s, host, false, t)
    case Completes(host, t) =>
      && host in s.inFlight && t >= s.inFlight[host].startedAt
      && s' == Uploaded(s, host, true, t).(
            inFlight := s.inFlight - {host},
            completed := s.completed + {Key(host, s.inFlight[host].name)})
    case Abandons(host) => host in s.inFlight && s' == s.(inFlight := s.inFlight - {host})
    case RetentionDeletes(k, gone) =>
      && k in s.completed && (forall e :: e in gone ==> KeyOf(e) == k)
      && s' == s.(completed := s.completed - {k}, entries := s.entries - gone)
    case ListsOrphans(allowed) =>
      && (forall k :: k in s'.plan <==> k.host in allowed && IsOrphan(s.entries, k))
      && s' == s.(plan := s'.plan)
    case DeletesOrphan(k, gone) =>
      && k in s.plan && (forall e :: e in gone ==> KeyOf(e) == k)
      && s' == s.(entries := s.entries - gone)
  }

  const INITIAL := Store({}, map[], {}, {}, map[], {})

  ghost predicate IsRun(run: seq<Store>, steps: seq<Step>) {
    && |run| == |steps| + 1 && run[0] == INITIAL
    && forall i :: 0 <= i < |steps| ==> StepAt(run, steps, i)
  }

  ghost predicate StepAt(run: seq<Store>, steps: seq<Step>, i: nat)
    requires i < |steps| && |run| == |steps| + 1
  {
    Next(run[i], steps[i], run[i + 1])
  }

  // ----------------------------------------------------------- invariants

  /** The snapshots of the attempt in flight on a host are newer than all others there. */
  ghost predicate EntryFits(s: Store, e: Manifest) {
    && KeyOf(e) in s.used && 0 < e.startTime <= s.Now(e.host)
    && (e.host in s.inFlight ==>
          if e.name == s.inFlight[e.host].name then !e.metadata && e.startTime >= s.inFlight[e.host].startedAt
          else e.startTime < s.inFlight[e.host].startedAt)
  }

  /** What the pass is deleting is neither in flight nor completed, and never will be again. */
  ghost predicate Abandoned(s: Store, k: Key) {
    k in s.used && k !in s.completed && !s.InFlight(k)
  }

  ghost predicate HasMetadataIn(s: Store, k: Key) {
    exists e :: e in s.entries && KeyOf(e) == k && e.metadata
  }

  ghost predicate Invariant(s: Store) {
    && (forall h :: h in s.clock ==> s.clock[h] >= 0)
    && (forall h :: h in s.inFlight ==>
          && 0 < s.inFlight[h].startedAt <= s.Now(h) && s.inFlight[h].name != ""
          && Key(h, s.inFlight[h].name) in s.used && Key(h, s.inFlight[h].name) !in s.completed)
    && (forall e :: e in s.entries ==> EntryFits(s, e))
    && (forall k :: k in s.completed ==> k in s.used && k.name != "" && HasMetadataIn(s, k))
    && (forall k :: k in s.plan ==> Abandoned(s, k))
  }

  /** An orphan in a consistent store has been given up. */
  lemma {:induction false} OrphanIsAbandoned(s: Store, k: Key)
    requires Invariant(s) && IsOrphan(s.entries, k)
    ensures Abandoned(s, k)
  {
    var c, t, u :| Superseded(s.entries, k, t, c, u);
    var ek :| ek in s.entries && KeyOf(ek) == k && ek.startTime == t;
    var ec :| ec in s.entries && KeyOf(ec) == c && ec.startTime == u;
    var em :| em in s.entries && KeyOf(em) == c && em.metadata;
    assert EntryFits(s, ek) && EntryFits(s, ec) && EntryFits(s, em);
    assert !HasMetadataIn(s, k);
  }

  lemma {:induction false} StepKeepsEntries(s: Store, step: Step, s': Store, e: Manifest)
    requires Invariant(s) && Next(s, step, s') && e in s'.entries
    ensures EntryFits(s', e)
  {
    if e in s.entries { assert EntryFits(s, e); }
  }

  lemma {:induction false} StepKeepsCompleted(s: Store, step: Step, s': Store, k: Key)
    requires Invariant(s) && Next(s, step, s') && k in s'.completed
    ensures k in s'.used && k.name != "" && HasMetadataIn(s', k)
  {
    if k in s.completed {
      var e :| e in s.entries && KeyOf(e) == k && e.metadata;
      if step.DeletesOrphan? { assert Abandoned(s, step.k); }
      assert e in s'.entries;
    } else {
      var e := Manifest(step.host, s.inFlight[step.host].name, true, step.t);
      assert e in s'.entries;
    }
  }

  lemma {:induction false} StepKeepsInvariant(s: Store, step: Step, s': Store)
    requires Invariant(s) && Next(s, step, s')
    ensures Invariant(s')
  {
    forall e | e in s'.entries ensures EntryFits(s', e) { StepKeepsEntries(s, step, s', e); }
    forall k | k in s'.completed ensures k in s'.used && k.name != "" && HasMetadataIn(s', k) {
      StepKeepsCompleted(s, step, s', k);
    }
    forall k | k in s'.plan ensures Abandoned(s', k) {
      if step.ListsOrphans? { OrphanIsAbandoned(s, k); } else { assert Abandoned(s, k); }
    }
  }

  lemma {:induction false} RunKeepsInvariant(run: seq<Store>, steps: seq<Step>, i: nat)
    requires IsRun(run, steps) && i < |run|
    ensures Invariant(run[i])
  {
    if i > 0 {
      RunKeepsInvariant(run, steps, i - 1);
      assert StepAt(run, steps, i - 1);
      StepKeepsInvariant(run[i - 1], steps[i - 1], run[i]);
    }
  }

  /** In every run, what the orphan pass deletes is neither the attempt in flight nor a completed
      backup, at the time it is listed and at the time it is deleted. */
  lemma {:induction false} OrphanPassSparesLiveBackups(run: seq<Store>, steps: seq<Step>, i: nat)
    requires IsRun(run, steps) && i < |steps| && steps[i].DeletesOrphan?
    ensures !run[i].InFlight(steps[i].k) && steps[i].k !in run[i].completed
    ensures run[i + 1].completed == run[i].completed && run[i + 1].inFlight == run[i].inFlight
    ensures forall e :: e in run[i].entries && (run[i].InFlight(KeyOf(e)) || KeyOf(e) in run[i].completed) ==>
      e in run[i + 1].entries
  {
    RunKeepsInvariant(run, steps, i);
    assert StepAt(run, steps, i);
    assert Abandoned(run[i], steps[i].k);
  }
}
