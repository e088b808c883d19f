/** The retention sweep over the two tiers of one cluster: tier 1 first, then tier 2, each
    keeping its newest N backups. Before tier 1 deletes a backup it looks for it on tier 2. */
module Sweep {
  import opened WalNames
  import opened Backups
  import Sorting

  function Names(l: seq<Backup>): (r: set<string>) {
    set b | b in l :: b.name
  }

  lemma {:induction false} NamesAppend(l: seq<Backup>, b: Backup)
    ensures Names(l + [b]) == Names(l) + {b.name}
  {
    assert forall x :: x in l + [b] <==> x in l || x == b;
  }

  ghost predicate Distinct(l: seq<Backup>) {
    forall i, j :: 0 <= i < j < |l| ==> l[i].name != l[j].name
  }

  lemma {:induction false} DistinctNamesCount(l: seq<Backup>)
    requires Distinct(l)
    ensures |Names(l)| == |l|
  {
    if l != [] {
      var n := |l| - 1;
      DistinctNamesCount(l[..n]);
      assert l == l[..n] + [l[n]];
      NamesAppend(l[..n], l[n]);
    }
  }

  /** Part of a list of distinct names has distinct names. */
  lemma {:induction false} SubListDistinct(l: seq<Backup>, part: seq<Backup>)
    requires Distinct(l) && multiset(part) <= multiset(l)
    ensures Distinct(part)
  {
    forall i, j | 0 <= i < j < |part| ensures part[i].name != part[j].name {
      if part[i].name == part[j].name {
        assert part[i] in multiset(l) && part[j] in multiset(l);
        var x :| 0 <= x < |l| && l[x] == part[i];
        var y :| 0 <= y < |l| && l[y] == part[j];
        assert x == y;
        Twice(part, i, j);
        Once(l, x);
      }
    }
  }

  lemma {:induction false} Twice(l: seq<Backup>, i: nat, j: nat)
    requires i < j < |l| && l[i] == l[j]
    ensures multiset(l)[l[i]] >= 2
  {
    assert l == l[..i] + [l[i]] + l[i + 1..j] + [l[j]] + l[j + 1..];
  }

  lemma {:induction false} Once(l: seq<Backup>, i: nat)
    requires i < |l| && Distinct(l)
    ensures multiset(l)[l[i]] == 1
  {
    assert l == l[..i] + [l[i]] + l[i + 1..];
    assert l[i] !in l[..i] && l[i] !in l[i + 1..];
  }

  // ------------------------------------------------------------- policy

  ghost predicate Ascending(l: seq<Backup>) {
    forall i, j :: 0 <= i < j < |l| ==> l[i].startedAt <= l[j].startedAt
  }

  /** `keep` is what the keep-latest policy may leave of `l`: its last `count` elements in some
      order by time, or all of `l` when `count` is zero. */
  ghost predicate KeepsLatest(l: seq<Backup>, count: nat, keep: seq<Backup>) {
    if count == 0 then keep == l else
      exists sorted :: SortedCopy(l, sorted) && keep == sorted[Excess(sorted, count)..]
  }

  ghost predicate SortedCopy(l: seq<Backup>, sorted: seq<Backup>) {
    multiset(sorted) == multiset(l) && Ascending(sorted)
  }

  function Excess(l: seq<Backup>, count: nat): (r: nat)
    ensures r <= |l|
  {
    if |l| > count then |l| - count else 0
  }

  method SortByAscendingTime(l: seq<Backup>) returns (sorted: seq<Backup>)
    ensures SortedCopy(l, sorted)
  {
    var startedAt := (b: Backup) => b.startedAt;
    sorted := Sorting.Sort(l, startedAt);
    forall i, j | 0 <= i < j < |sorted| ensures sorted[i].startedAt <= sorted[j].startedAt {
      assert startedAt(sorted[i]) <= startedAt(sorted[j]);
    }
  }

  /** `LatestPolicy.Evaluate`: everything when the count is zero, otherwise the newest `count`, or all
      when there are fewer. */
  method Evaluate(l: seq<Backup>, count: nat) returns (keep: seq<Backup>)
    ensures KeepsLatest(l, count, keep)
    ensures count == 0 ==> keep == l
    ensures count > 0 ==> |keep| == if |l| < count then |l| else count
    ensures multiset(keep) <= multiset(l)
    ensures forall b, k :: b in multiset(l) - multiset(keep) && k in keep ==> b.startedAt <= k.startedAt
  {
    if count == 0 {
      return l;
    }
    var sorted := SortByAscendingTime(l);
    keep := sorted;
    if |sorted| > count {
      keep := sorted[|sorted| - count..];
    }
    KeepsNewest(l, count, keep);
  }

  /** What the policy keeps, without saying how: as many as asked for, and none that is dropped is newer. */
  lemma {:induction false} KeepsNewest(l: seq<Backup>, count: nat, keep: seq<Backup>)
    requires KeepsLatest(l, count, keep)
    ensures count > 0 ==> |keep| == if |l| < count then |l| else count
    ensures multiset(keep) <= multiset(l)
    ensures forall b, k :: b in multiset(l) - multiset(keep) && k in keep ==> b.startedAt <= k.startedAt
  {
    if count > 0 {
      var sorted :| SortedCopy(l, sorted) && keep == sorted[Excess(sorted, count)..];
      assert |sorted| == |multiset(sorted)| == |multiset(l)| == |l|;
      SortedTail(sorted, Excess(sorted, count), keep);
    }
  }

  lemma {:induction false} SortedTail(sorted: seq<Backup>, e: nat, keep: seq<Backup>)
    requires Ascending(sorted) && e <= |sorted| && keep == sorted[e..]
    ensures multiset(keep) <= multiset(sorted) && |keep| == |sorted| - e
    ensures forall b, k :: b in multiset(sorted) - multiset(keep) && k in keep ==> b.startedAt <= k.startedAt
  {
    var front := sorted[..e];
    assert sorted == front + keep;
    assert multiset(sorted) == multiset(front) + multiset(keep);
    forall b, k | b in multiset(sorted) - multiset(keep) && k in keep ensures b.startedAt <= k.startedAt {
      assert b in multiset(front);
      var i :| 0 <= i < e && front[i] == b;
      var j :| 0 <= j < |keep| && keep[j] == k;
      assert sorted[i] == b && sorted[e + j] == k;
    }
  }

  lemma {:induction false} DroppedFromSorted(sorted: seq<Backup>, e: nat, b: Backup)
    requires Ascending(sorted) && e <= |sorted| && b in sorted && b !in sorted[e..]
    ensures e > 0
    ensures forall k :: k in sorted[e..] ==> b.startedAt <= k.startedAt
  {
    var i :| 0 <= i < |sorted| && sorted[i] == b;
    assert forall j :: e <= j < |sorted| ==> sorted[j] == sorted[e..][j - e];
  }

  /** Whatever the policy drops is outside the newest `count`: that many other backups are kept,
      none of them older. */
  lemma {:induction false} DroppedIsOutsideNewest(l: seq<Backup>, count: nat, keep: seq<Backup>, b: Backup)
    requires KeepsLatest(l, count, keep) && b in l && b.name !in Names(keep)
    ensures count > 0 && |keep| == count && multiset(keep) <= multiset(l)
    ensures forall k :: k in keep ==> b.startedAt <= k.startedAt
  {
    assert b !in keep;
    assert count > 0;
    var sorted :| SortedCopy(l, sorted) && keep == sorted[Excess(sorted, count)..];
    DroppedFromSorted(sorted, Excess(sorted, count), b) by { assert b in multiset(l); }
    assert sorted == sorted[..Excess(sorted, count)] + keep;
  }

  // --------------------------------------------------------- candidates

  /** The elements of `l` whose name is (or is not) in `names`, in order. */
  function Select(l: seq<Backup>, names: set<string>, present: bool): (r: seq<Backup>)
    ensures forall b :: b in r <==> b in l && (b.name in names <==> present)
    ensures multiset(r) <= multiset(l)
  {
    if l == [] then [] else
      var n := |l| - 1;
      var front := Select(l[..n], names, present);
      assert l == l[..n] + [l[n]];
      if l[n].name in names <==> present then front + [l[n]] else front
  }

  method CollectNames(l: seq<Backup>) returns (names: set<string>)
    ensures names == Names(l)
  {
    names := {};
    for i := 0 to |l|
      invariant names == Names(l[..i])
    {
      assert l[..i + 1] == l[..i] + [l[i]];
      NamesAppend(l[..i], l[i]);
      names := names + {l[i].name};
    }
    assert l[..|l|] == l;
  }

  method FilterByName(l: seq<Backup>, names: set<string>, present: bool) returns (r: seq<Backup>)
    ensures r == Select(l, names, present)
  {
    r := [];
    for i := 0 to |l|
      invariant r == Select(l[..i], names, present)
    {
      assert l[..i + 1][..i] == l[..i];
      if l[i].name in names <==> present {
        r := r + [l[i]];
      }
    }
    assert l[..|l|] == l;
  }

  method DiffByName(all: seq<Backup>, keep: seq<Backup>) returns (dropped: seq<Backup>)
    ensures dropped == Select(all, Names(keep), false)
  {
    var keepNames := CollectNames(keep);
    dropped := FilterByName(all, keepNames, false);
  }

  method ProtectUnsyncedToTier2(candidates: seq<Backup>, tier2: Option<seq<Backup>>) returns (r: Option<seq<Backup>>)
    ensures tier2.None? ==> r.None?
    ensures tier2.Some? ==> r == Some(Select(candidates, Names(tier2.value), true))
  {
    if tier2.None? {
      return None;
    }
    var onTier2 := CollectNames(tier2.value);
    var safe := FilterByName(candidates, onTier2, true);
    r := Some(safe);
  }

  /** What one pass may delete: out of the tier's newest `latest` and, when guarded, on tier 2.
      A negative `latest` is rejected and deletes nothing. */
  ghost predicate Planned(l: seq<Backup>, latest: int, guard: Option<seq<Backup>>, toDelete: set<string>) {
    if latest < 0 then toDelete == {} else
      exists keep :: KeepsLatest(l, latest, keep) &&
        toDelete == Names(Candidates(l, keep, guard))
  }

  function Candidates(l: seq<Backup>, keep: seq<Backup>, guard: Option<seq<Backup>>): (r: seq<Backup>) {
    var dropped := Select(l, Names(keep), false);
    if guard.None? then dropped else Select(dropped, Names(guard.value), true)
  }

  /** `dropped` are the oldest of `l`, all but the newest `latest`; none when that is zero. */
  ghost predicate AllButNewest(l: seq<Backup>, latest: nat, dropped: seq<Backup>) {
    && |dropped| == (if latest == 0 || |l| < latest then 0 else |l| - latest)
    && Distinct(dropped) && (forall b :: b in dropped ==> b in l)
    && (forall b, k :: b in dropped && k in l && k !in dropped ==> b.startedAt <= k.startedAt)
  }

  /** All but the newest go or, when guarded, those of them that tier 2 lists. */
  ghost predicate DeletesExactly(l: seq<Backup>, latest: nat, guard: Option<seq<Backup>>, toDelete: seq<Backup>) {
    if guard.None? then AllButNewest(l, latest, toDelete) else
      exists dropped :: AllButNewest(l, latest, dropped)
        && forall b :: b in toDelete <==> b in dropped && exists t :: t in guard.value && t.name == b.name
  }

  /** With distinct names, what is not kept is all but the newest. */
  lemma {:induction false} DroppedExactly(l: seq<Backup>, latest: nat, keep: seq<Backup>)
    requires Distinct(l) && KeepsLatest(l, latest, keep)
    ensures AllButNewest(l, latest, Select(l, Names(keep), false))
  {
    var dropped := Select(l, Names(keep), false);
    KeepsNewest(l, latest, keep);
    forall b | b in keep ensures b in l { assert b in multiset(keep); }
    SubListDistinct(l, keep);
    SubListDistinct(l, dropped);
    DroppedCount(l, keep, dropped);
    DroppedOrder(l, keep, dropped);
  }

  lemma {:induction false} DroppedCount(l: seq<Backup>, keep: seq<Backup>, dropped: seq<Backup>)
    requires Distinct(l) && Distinct(keep) && Distinct(dropped)
    requires forall b :: b in keep ==> b in l
    requires forall b :: b in dropped <==> b in l && b.name !in Names(keep)
    ensures |dropped| == |l| - |keep|
  {
    DistinctNamesCount(l);
    DistinctNamesCount(keep);
    DistinctNamesCount(dropped);
    forall n | n in Names(l) ensures n in Names(keep) + Names(dropped) {
      var b: Backup :| b in l && b.name == n;
      if n !in Names(keep) { assert b in dropped; }
    }
    assert Names(l) == Names(keep) + Names(dropped);
    assert Names(keep) !! Names(dropped);
  }

  lemma {:induction false} DroppedOrder(l: seq<Backup>, keep: seq<Backup>, dropped: seq<Backup>)
    requires Distinct(l) && forall b :: b in keep ==> b in l
    requires forall b :: b in dropped <==> b in l && b.name !in Names(keep)
    requires forall b, k :: b in multiset(l) - multiset(keep) && k in keep ==> b.startedAt <= k.startedAt
    ensures forall b, k :: b in dropped && k in l && k !in dropped ==> b.startedAt <= k.startedAt
  {
    forall b, k | b in dropped && k in l && k !in dropped ensures b.startedAt <= k.startedAt {
      SameName(l, keep, k);
      assert b !in keep && b in multiset(l);
      assert multiset(keep)[b] == 0;
      assert b in multiset(l) - multiset(keep);
    }
  }

  lemma {:induction false} SameName(l: seq<Backup>, part: seq<Backup>, k: Backup)
    requires Distinct(l) && k in l && k.name in Names(part) && forall b :: b in part ==> b in l
    ensures k in part
  {
    var b: Backup :| b in part && b.name == k.name;
    var i :| 0 <= i < |l| && l[i] == k;
    var j :| 0 <= j < |l| && l[j] == b;
    assert i == j;
  }

  /** `deletionCandidates`. `syncGuard` says that this tier has a further tier to look at; it is looked at
      when the cluster has a policy for it. `tier2` is what listing that tier returned, if it did. */
  method DeletionCandidates(l: seq<Backup>, latest: nat, syncGuard: bool, tier2Policy: Option<int>,
                            tier2: Option<seq<Backup>>)
    returns (toDelete: Option<seq<Backup>>)
    ensures toDelete.None? <==> syncGuard && tier2Policy.Some? && tier2.None?
    ensures toDelete.Some? ==>
      Planned(l, latest, if syncGuard && tier2Policy.Some? then tier2 else None, Names(toDelete.value))
    ensures toDelete.Some? && Distinct(l) ==>
      DeletesExactly(l, latest, if syncGuard && tier2Policy.Some? then tier2 else None, toDelete.value)
  {
    var keep := Evaluate(l, latest);
    var dropped := DiffByName(l, keep);
    if !syncGuard || tier2Policy.None? {
      PlansThat(l, latest, keep, None, dropped);
      return Some(dropped);
    }
    toDelete := ProtectUnsyncedToTier2(dropped, tier2);
    if toDelete.Some? { PlansThat(l, latest, keep, tier2, toDelete.value); }
  }

  lemma {:induction false} PlansThat(l: seq<Backup>, latest: nat, keep: seq<Backup>, guard: Option<seq<Backup>>,
                                     toDelete: seq<Backup>)
    requires KeepsLatest(l, latest, keep) && toDelete == Candidates(l, keep, guard)
    ensures Planned(l, latest, guard, Names(toDelete))
    ensures Distinct(l) ==> DeletesExactly(l, latest, guard, toDelete)
  {
    if Distinct(l) { DroppedExactly(l, latest, keep); }
  }

  // ----------------------------------------------------------- deletion

  class BackupStore {
    var backups: map<string, Backup>

    /** `deleteBackups`: a failed deletion, or one of a backup that is gone, is an error but does not
        stop the rest. */
    method DeleteBackups(targets: seq<Backup>, failing: set<string>) returns (deleted: nat, errors: nat)
      modifies this
      ensures Without(old(backups), Names(targets) - failing, backups)
      ensures forall n :: n in backups <==>
        n in old(backups) && !(n !in failing && exists t :: t in targets && t.name == n)
      ensures forall n :: n in backups ==> backups[n] == old(backups)[n]
      ensures deleted == |old(backups)| - |backups| && deleted + errors == |targets|
    {
      deleted, errors := 0, 0;
      for i := 0 to |targets|
        invariant Without(old(backups), Names(targets[..i]) - failing, backups)
        invariant deleted == |old(backups)| - |backups| && deleted + errors == i
      {
        var name := targets[i].name;
        assert targets[..i + 1] == targets[..i] + [targets[i]];
        NamesAppend(targets[..i], targets[i]);
        if name in failing || name !in backups {
          errors := errors + 1;
          continue;
        }
        OneLess(backups, name);
        backups := backups - {name};
        deleted := deleted + 1;
      }
      assert targets[..|targets|] == targets;
    }
  }

  /** The policies stored for a cluster; a tier may have none. */
  datatype RetentionPolicy = RetentionPolicy(tier1: Option<int>, tier2: Option<int>)

  datatype TierName = Tier1 | Tier2

  function PolicyOf(policies: RetentionPolicy, tier: TierName): (p: Option<int>) {
    if tier.Tier1? then policies.tier1 else policies.tier2
  }

  /** What ends a sweep of the cluster before it deletes anything: policies that cannot be read, a
      negative policy, or a tier that has to be listed and cannot be. */
  predicate GivesUp(policies: Option<RetentionPolicy>, tier: TierName, listing: Option<seq<Backup>>,
                    syncGuard: bool, tier2: Option<seq<Backup>>)
  {
    || policies.None?
    || (var policy := PolicyOf(policies.value, tier);
        policy.Some? && (policy.value < 0 || listing.None?
          || (listing.value != [] && syncGuard && policies.value.tier2.Some? && tier2.None?)))
  }

  /** What a sweep of one cluster on one tier does to its backups. */
  ghost predicate Swept(policies: Option<RetentionPolicy>, tier: TierName, listing: Option<seq<Backup>>,
                        syncGuard: bool, tier2: Option<seq<Backup>>, failing: set<string>,
                        before: map<string, Backup>, after: map<string, Backup>, ok: bool)
  {
    if GivesUp(policies, tier, listing, syncGuard, tier2) then after == before && !ok
    else if PolicyOf(policies.value, tier).None? then after == before && ok
    else
      var latest := PolicyOf(policies.value, tier).value;
      var guard := if syncGuard && policies.value.tier2.Some? then tier2 else None;
      exists toDelete: seq<Backup> ::
        && Planned(listing.value, latest, guard, Names(toDelete))
        && (Distinct(listing.value) ==> DeletesExactly(listing.value, latest, guard, toDelete))
        && Without(before, Names(toDelete) - failing, after)
        && (ok <==> |before| - |after| == |toDelete|)
  }

  /** `sweepCluster`: read the policies, list, decide, delete. The policies and listings are `None` on
      error. An error can come together with deletions. */
  method SweepCluster(store: BackupStore, policies: Option<RetentionPolicy>, tier: TierName,
                      listing: Option<seq<Backup>>, syncGuard: bool, tier2: Option<seq<Backup>>, failing: set<string>)
    returns (deleted: nat, ok: bool)
    modifies store
    ensures |store.backups| == |old(store.backups)| - deleted
    ensures Swept(policies, tier, listing, syncGuard, tier2, failing, old(store.backups), store.backups, ok)
    ensures policies.Some? && policies.value.tier2.Some? && syncGuard ==>
      forall n :: n in old(store.backups) && n !in store.backups ==>
        tier2.Some? && exists t :: t in tier2.value && t.name == n
  {
    if policies.None? {
      return 0, false;
    }
    var policy := PolicyOf(policies.value, tier);
    if policy.None? {
      return 0, true;
    }
    var latest := policy.value;
    if latest < 0 || listing.None? {
      return 0, false;
    }
    if listing.value == [] {
      NothingListedNothingPlanned(latest, if syncGuard && policies.value.tier2.Some? then tier2 else None);
      ghost var nothing: seq<Backup> := [];
      assert Names(nothing) == {} && AllButNewest([], latest, nothing);
      assert Without(store.backups, Names(nothing) - failing, store.backups);
      return 0, true;
    }
    var toDelete := DeletionCandidates(listing.value, latest, syncGuard, policies.value.tier2, tier2);
    if toDelete.None? {
      return 0, false;
    }
    var errors;
    deleted, errors := store.DeleteBackups(toDelete.value, failing);
    ok := errors == 0;
    if syncGuard && policies.value.tier2.Some? {
      PlannedIsGuarded(listing.value, latest, tier2.value, Names(toDelete.value));
    }
  }

  /** With a guard, only what the guard lists is planned. */
  lemma {:induction false} PlannedIsGuarded(l: seq<Backup>, latest: nat, guard: seq<Backup>, toDelete: set<string>)
    requires Planned(l, latest, Some(guard), toDelete)
    ensures forall n :: n in toDelete ==> exists t :: t in guard && t.name == n
  {
  }

  /** `Sweep` for one cluster: tier 1, guarded by tier 2 when there is one, and then tier 2, whatever
      happened on tier 1. */
  method SweepTiers(store1: BackupStore, store2: BackupStore, policies: Option<RetentionPolicy>, tier2Enabled: bool,
                    listing1: Option<seq<Backup>>, guard: Option<seq<Backup>>, listing2: Option<seq<Backup>>,
                    failing: set<string>)
    returns (ok1: bool, ok2: bool)
    requires store1 != store2
    modifies store1, store2
    ensures policies.Some? && policies.value.tier2.Some? && tier2Enabled ==>
      forall n :: n in old(store1.backups) && n !in store1.backups ==>
        guard.Some? && exists t :: t in guard.value && t.name == n
    ensures !tier2Enabled ==> store2.backups == old(store2.backups)
    ensures Swept(policies, Tier1, listing1, tier2Enabled, guard, failing, old(store1.backups), store1.backups, ok1)
    ensures tier2Enabled ==>
      Swept(policies, Tier2, listing2, false, None, failing, old(store2.backups), store2.backups, ok2)
  {
    var deleted;
    deleted, ok1 := SweepCluster(store1, policies, Tier1, listing1, tier2Enabled, guard, failing);
    ok2 := true;
    if tier2Enabled {
      deleted, ok2 := SweepCluster(store2, policies, Tier2, listing2, false, None, failing);
    }
  }

  lemma {:induction false} NothingListedNothingPlanned(latest: nat, guard: Option<seq<Backup>>)
    ensures Planned([], latest, guard, {})
  {
    var none: seq<Backup> := [];
    assert SortedCopy(none, none) && none[Excess(none, latest)..] == none;
    assert KeepsLatest(none, latest, none);
    assert Names(Candidates(none, none, guard)) == {};
  }

  /** `after` is `before` without the keys in `gone`. */
  ghost predicate Without(before: map<string, Backup>, gone: set<string>, after: map<string, Backup>) {
    forall n :: (n in after <==> n in before && n !in gone) && (n in after ==> after[n] == before[n])
  }

  lemma {:induction false} OneLess(m: map<string, Backup>, name: string)
    requires name in m
    ensures |m - {name}| == |m| - 1
  {
    assert (m - {name}).Keys == m.Keys - {name};
  }
}
