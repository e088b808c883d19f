/** The orphan pass: it groups the snapshots of a tier by backup attempt and deletes the attempts
    that never got a metadata snapshot although a later attempt on the same host did. */
module Orphans {
  /** A snapshot. `name` is the backup it belongs to, empty when it carries no such tag. */
  datatype Manifest = Manifest(host: string, name: string, metadata: bool, startTime: int)

  datatype Key = Key(host: string, name: string)

  datatype Group = Group(hasMetadata: bool, startTime: int)

  function KeyOf(e: Manifest): (k: Key) {
    Key(e.host, e.name)
  }

  // ------------------------------------------------------------ grouping

  /** The start times of the snapshots of `k`, in order. */
  function Times(entries: seq<Manifest>, k: Key): (ts: seq<int>) {
    if entries == [] then [] else
      var n := |entries| - 1;
      Times(entries[..n], k) + (if KeyOf(entries[n]) == k then [entries[n].startTime] else [])
  }

  predicate HasMetadata(entries: seq<Manifest>, k: Key) {
    exists e :: e in entries && KeyOf(e) == k && e.metadata
  }

  /** The start time a group ends up with: it starts as the first time and is replaced by an
      earlier one, and by any one while it is zero. */
  function GroupStart(ts: seq<int>): (t: int)
    requires ts != []
  {
    var n := |ts| - 1;
    if n == 0 then ts[0] else
      var t := GroupStart(ts[..n]);
      if t == 0 || ts[n] < t then ts[n] else t
  }

  ghost predicate Grouped(entries: seq<Manifest>, allowed: set<string>, groups: map<Key, Group>, k: Key) {
    && (k in groups <==> k.host in allowed && k.name != "" && Times(entries, k) != [])
    && (k in groups ==> groups[k] == Group(HasMetadata(entries, k), GroupStart(Times(entries, k))))
  }

  method GroupBackupsByHostName(entries: seq<Manifest>, allowed: set<string>) returns (groups: map<Key, Group>)
    ensures forall k :: Grouped(entries, allowed, groups, k)
  {
    groups := map[];
    for i := 0 to |entries|
      invariant forall k :: Grouped(entries[..i], allowed, groups, k)
    {
      var entry := entries[i];
      var key := KeyOf(entry);
      ghost var before, sofar, next := groups, entries[..i], entries[..i + 1];
      assert next == sofar + [entry];
      assert Grouped(sofar, allowed, before, key);
      if entry.host in allowed && entry.name != "" {
        if key !in groups {
          groups := groups[key := Group(false, entry.startTime)];
        }
        if entry.metadata {
          groups := groups[key := groups[key].(hasMetadata := true)];
        }
        if groups[key].startTime == 0 || entry.startTime < groups[key].startTime {
          groups := groups[key := groups[key].(startTime := entry.startTime)];
        }
      }
      forall k ensures Grouped(next, allowed, groups, k) {
        assert Grouped(sofar, allowed, before, k);
        OneMoreEntry(sofar, entry, k);
      }
    }
    assert entries[..|entries|] == entries;
  }

  lemma {:induction false} TimesOfEntries(entries: seq<Manifest>, k: Key)
    ensures forall e :: e in entries && KeyOf(e) == k ==> e.startTime in Times(entries, k)
    ensures forall t :: t in Times(entries, k) ==> exists e :: e in entries && KeyOf(e) == k && e.startTime == t
  {
    if entries != [] {
      var n := |entries| - 1;
      TimesOfEntries(entries[..n], k);
      assert entries == entries[..n] + [entries[n]];
    }
  }

  lemma {:induction false} OneMoreEntry(entries: seq<Manifest>, e: Manifest, k: Key)
    ensures Times(entries + [e], k) == if KeyOf(e) == k then Times(entries, k) + [e.startTime] else Times(entries, k)
    ensures HasMetadata(entries + [e], k) <==> HasMetadata(entries, k) || (KeyOf(e) == k && e.metadata)
    ensures Times(entries, k) == [] ==> !HasMetadata(entries, k)
    ensures KeyOf(e) == k && Times(entries, k) == [] ==> GroupStart(Times(entries + [e], k)) == e.startTime
    ensures KeyOf(e) == k && Times(entries, k) != [] ==>
      var t := GroupStart(Times(entries, k));
      GroupStart(Times(entries + [e], k)) == if t == 0 || e.startTime < t then e.startTime else t
  {
    TimesOfEntries(entries, k);
    assert (entries + [e])[..|entries|] == entries;
    assert forall x :: x in entries + [e] <==> x in entries || x == e;
    var ts := Times(entries, k);
    assert (ts + [e.startTime])[..|ts|] == ts;
  }

  // -------------------------------------------------------------- orphans

  /** The latest start of a completed group of `host`, if it has one. */
  ghost predicate LatestCompleted(groups: map<Key, Group>, keys: set<Key>, latest: map<string, int>) {
    && (forall k :: k in keys && k in groups && groups[k].hasMetadata ==>
          k.host in latest && groups[k].startTime <= latest[k.host])
    && (forall h :: h in latest ==>
          exists k :: (k in keys && k in groups && k.host == h && groups[k].hasMetadata
            && groups[k].startTime == latest[h]))
  }

  method LatestCompletedStartTimePerHost(groups: map<Key, Group>) returns (latest: map<string, int>)
    ensures LatestCompleted(groups, groups.Keys, latest)
  {
    latest := map[];
    var rest := groups.Keys;
    while rest != {}
      invariant rest <= groups.Keys
      invariant LatestCompleted(groups, groups.Keys - rest, latest)
      decreases |rest|
    {
      var key :| key in rest;
      ghost var done := groups.Keys - rest;
      rest := rest - {key};
      assert groups.Keys - rest == done + {key};
      var g := groups[key];
      if g.hasMetadata && (key.host !in latest || g.startTime > latest[key.host]) {
        ghost var before := latest;
        latest := latest[key.host := g.startTime];
        forall h | h in latest
          ensures exists k :: (k in done + {key} && k in groups && k.host == h && groups[k].hasMetadata
            && groups[k].startTime == latest[h])
        {
          if h == key.host { assert key in done + {key}; } else { assert h in before; }
        }
      }
    }
    assert groups.Keys - rest == groups.Keys;
  }

  /** `c` is a completed attempt on the host of `k` whose group starts later. */
  ghost predicate LaterCompleted(entries: seq<Manifest>, k: Key, c: Key) {
    && c.host == k.host && c.name != "" && HasMetadata(entries, c)
    && Times(entries, c) != [] && Times(entries, k) != []
    && GroupStart(Times(entries, c)) > GroupStart(Times(entries, k))
  }

  ghost predicate LooksOrphaned(entries: seq<Manifest>, k: Key) {
    k.name != "" && Times(entries, k) != [] && !HasMetadata(entries, k) && exists c :: LaterCompleted(entries, k, c)
  }

  // ------------------------------------------- the declarative counterpart

  /** `t` is the earliest start among the snapshots of `k`. */
  ghost predicate EarliestStart(entries: set<Manifest>, k: Key, t: int) {
    && (exists e :: e in entries && KeyOf(e) == k && e.startTime == t)
    && (forall e :: e in entries && KeyOf(e) == k ==> t <= e.startTime)
  }

  ghost predicate Completed(entries: set<Manifest>, k: Key) {
    k.name != "" && exists e :: e in entries && KeyOf(e) == k && e.metadata
  }

  /** An attempt without metadata, with a completed one that started strictly later. */
  ghost predicate IsOrphan(entries: set<Manifest>, k: Key) {
    && k.name != "" && !Completed(entries, k)
    && exists c, t, u :: Superseded(entries, k, t, c, u)
  }

  ghost predicate Superseded(entries: set<Manifest>, k: Key, t: int, c: Key, u: int) {
    c.host == k.host && EarliestStart(entries, k, t) && Completed(entries, c) && EarliestStart(entries, c, u) && t < u
  }

  function Entries(l: seq<Manifest>): (s: set<Manifest>) {
    set e | e in l
  }

  ghost predicate IsLeast(ts: seq<int>, t: int) {
    t in ts && forall u :: u in ts ==> t <= u
  }

  lemma {:induction false} GroupStartWithoutZero(ts: seq<int>)
    requires ts != [] && 0 !in ts
    ensures IsLeast(ts, GroupStart(ts))
  {
    var n := |ts| - 1;
    assert ts == ts[..n] + [ts[n]];
    if n > 0 { GroupStartWithoutZero(ts[..n]); }
  }

  lemma {:induction false} GroupStartIsEarliest(entries: seq<Manifest>, k: Key)
    requires Times(entries, k) != []
    requires forall e :: e in entries ==> e.startTime != 0
    ensures EarliestStart(Entries(entries), k, GroupStart(Times(entries, k)))
    ensures forall t :: EarliestStart(Entries(entries), k, t) ==> t == GroupStart(Times(entries, k))
  {
    TimesOfEntries(entries, k);
    GroupStartWithoutZero(Times(entries, k));
  }

  /** The pass finds exactly the orphans, whatever the order of the listing: the right-hand side
      mentions only the set of the entries. */
  lemma {:induction false} LooksOrphanedIsOrphan(entries: seq<Manifest>, k: Key)
    requires forall e :: e in entries ==> e.startTime != 0
    ensures LooksOrphaned(entries, k) <==> IsOrphan(Entries(entries), k)
  {
    var s := Entries(entries);
    if LooksOrphaned(entries, k) {
      var c :| LaterCompleted(entries, k, c);
      GroupStartIsEarliest(entries, k);
      GroupStartIsEarliest(entries, c);
      assert Superseded(s, k, GroupStart(Times(entries, k)), c, GroupStart(Times(entries, c)));
    }
    if IsOrphan(s, k) {
      var c, t, u :| Superseded(s, k, t, c, u);
      TimesOfEntries(entries, k);
      TimesOfEntries(entries, c);
      GroupStartIsEarliest(entries, k);
      GroupStartIsEarliest(entries, c);
      assert LaterCompleted(entries, k, c);
    }
  }

  /** `own` is a snapshot of `k`, `done` the metadata snapshot of a backup of the same host all of whose
      snapshots are strictly later than `own`. */
  ghost predicate Overtaken(entries: seq<Manifest>, k: Key, own: Manifest, done: Manifest) {
    && own in entries && own.host == k.host && own.name == k.name
    && done in entries && done.metadata && done.host == k.host && done.name != ""
    && forall e :: e in entries && e.host == done.host && e.name == done.name ==> own.startTime < e.startTime
  }

  lemma {:induction false} LooksOrphanedIsOvertaken(entries: seq<Manifest>, k: Key)
    requires forall e :: e in entries ==> e.startTime != 0
    ensures LooksOrphaned(entries, k) <==>
      && k.name != "" && (forall e :: e in entries && e.host == k.host && e.name == k.name ==> !e.metadata)
      && exists own, done :: Overtaken(entries, k, own, done)
  {
    LooksOrphanedIsOrphan(entries, k);
    var s := Entries(entries);
    if IsOrphan(s, k) {
      var c, t, u :| Superseded(s, k, t, c, u);
      var own :| own in s && KeyOf(own) == k && own.startTime == t;
      var done :| done in s && KeyOf(done) == c && done.metadata;
      assert Overtaken(entries, k, own, done);
    }
    if own, done :| Overtaken(entries, k, own, done) {
      TimesOfEntries(entries, k);
      TimesOfEntries(entries, KeyOf(done));
      GroupStartIsEarliest(entries, k);
      GroupStartIsEarliest(entries, KeyOf(done));
      if k.name != "" && (forall e :: e in entries && e.host == k.host && e.name == k.name ==> !e.metadata) {
        var t, u := GroupStart(Times(entries, k)), GroupStart(Times(entries, KeyOf(done)));
        assert Superseded(s, k, t, KeyOf(done), u);
      }
    }
  }

  method OrphanBackupNames(entries: seq<Manifest>, allowed: set<string>) returns (orphans: set<Key>)
    ensures forall k :: k in orphans <==> k.host in allowed && LooksOrphaned(entries, k)
    ensures (forall e :: e in entries ==> e.startTime != 0) ==> forall k :: k in orphans <==> (
      && k.host in allowed && k.name != ""
      && (forall e :: e in entries && e.host == k.host && e.name == k.name ==> !e.metadata)
      && exists own, done :: Overtaken(entries, k, own, done))
  {
    var groups := GroupBackupsByHostName(entries, allowed);
    var latestCompleted := LatestCompletedStartTimePerHost(groups);
    orphans := set k | k in groups && !groups[k].hasMetadata
      && k.host in latestCompleted && latestCompleted[k.host] > groups[k].startTime;
    forall k | k in orphans ensures k.host in allowed && LooksOrphaned(entries, k) {
      assert Grouped(entries, allowed, groups, k);
      var c :| c in groups && c.host == k.host && groups[c].hasMetadata
        && groups[c].startTime == latestCompleted[k.host];
      assert Grouped(entries, allowed, groups, c);
      assert LaterCompleted(entries, k, c);
    }
    forall k: Key | k.host in allowed && LooksOrphaned(entries, k) ensures k in orphans {
      assert Grouped(entries, allowed, groups, k);
      var c :| LaterCompleted(entries, k, c);
      assert Grouped(entries, allowed, groups, c);
    }
    if forall e :: e in entries ==> e.startTime != 0 {
      forall k: Key ensures LooksOrphaned(entries, k) <==> (
        && k.name != "" && (forall e :: e in entries && e.host == k.host && e.name == k.name ==> !e.metadata)
        && exists own, done :: Overtaken(entries, k, own, done))
      {
        LooksOrphanedIsOvertaken(entries, k);
      }
    }
  }

  // ------------------------------------------------------- the prefilter

  /** `groupHostnames`: the distinct hosts of the metadata snapshots, in order of appearance. */
  method GroupHostnames(entries: seq<Manifest>) returns (hostnames: seq<string>)
    ensures forall h :: h in hostnames <==> exists e :: e in entries && e.host == h
    ensures forall i, j :: 0 <= i < j < |hostnames| ==> hostnames[i] != hostnames[j]
  {
    var seen: set<string> := {};
    hostnames := [];
    for i := 0 to |entries|
      invariant forall h :: h in seen <==> h in hostnames
      invariant forall h :: h in hostnames ==> exists e :: e in entries[..i] && e.host == h
      invariant forall e :: e in entries[..i] ==> e.host in hostnames
      invariant forall i, j :: 0 <= i < j < |hostnames| ==> hostnames[i] != hostnames[j]
    {
      assert entries[..i + 1] == entries[..i] + [entries[i]];
      if entries[i].host in seen { continue; }
      seen := seen + {entries[i].host};
      hostnames := hostnames + [entries[i].host];
    }
    assert entries[..|entries|] == entries;
  }

  /** The hosts with a metadata snapshot are all the pass needs to look at: no orphan is elsewhere. */
  lemma {:induction false} PrefilterChangesNothing(entries: set<Manifest>, allowed: set<string>)
    requires forall e :: e in entries && e.metadata ==> e.host in allowed
    ensures forall k :: IsOrphan(entries, k) ==> k.host in allowed
  {
    forall k | IsOrphan(entries, k) ensures k.host in allowed {
      var c, t, u :| Superseded(entries, k, t, c, u);
      var e :| e in entries && KeyOf(e) == c && e.metadata;
    }
  }

  // ---------------------------------------------------------- zero start

  /** No zero is mixed with positive times, unless a negative one is there too. */
  ghost predicate ZeroIsHarmless(ts: seq<int>) {
    0 !in ts || (exists t :: t in ts && t < 0) || (forall t :: t in ts ==> t == 0)
  }

  lemma {:induction false} GroupStartBounds(ts: seq<int>)
    requires ts != []
    ensures GroupStart(ts) in ts
    ensures (exists t :: t in ts && t < 0) ==> IsLeast(ts, GroupStart(ts))
    ensures (forall t :: t in ts ==> t >= 0) ==> GroupStart(ts) >= 0
  {
    var n := |ts| - 1;
    assert ts == ts[..n] + [ts[n]];
    if n > 0 {
      GroupStartBounds(ts[..n]);
      if forall t :: t in ts[..n] ==> t >= 0 { assert GroupStart(ts[..n]) >= 0; }
    }
  }

  /** Zero is taken for "not set yet", so a group's start is the earliest of its times in every
      listing order exactly when zero is harmless. */
  lemma {:induction false} GroupStartOrderIndependence(ts: seq<int>)
    requires ts != []
    ensures (forall us :: multiset(us) == multiset(ts) && us != [] ==> IsLeast(us, GroupStart(us)))
       <==> ZeroIsHarmless(ts)
  {
    if ZeroIsHarmless(ts) {
      forall us | multiset(us) == multiset(ts) && us != [] ensures IsLeast(us, GroupStart(us)) {
        SameMembers(ts, us);
        GroupStartBounds(us);
        if 0 !in us { GroupStartWithoutZero(us); }
      }
    } else {
      var us := ZeroThenPositive(ts);
      assert multiset(us) == multiset(ts) && us != [] && !IsLeast(us, GroupStart(us));
    }
  }

  lemma {:induction false} SameMembers(ts: seq<int>, us: seq<int>)
    requires multiset(us) == multiset(ts)
    ensures forall t :: t in us <==> t in ts
  {
    forall t ensures t in us <==> t in ts {
      assert (t in us <==> t in multiset(us)) && (t in ts <==> t in multiset(ts));
    }
  }

  lemma {:induction false} ZeroThenPositive(ts: seq<int>) returns (us: seq<int>)
    requires !ZeroIsHarmless(ts)
    ensures multiset(us) == multiset(ts) && us != [] && 0 in us && GroupStart(us) > 0
  {
    var p :| p in ts && p != 0;
    var rest := MoveToEnd(ts, p);
    var front := MoveToEnd(rest, 0);
    us := front + [0] + [p];
    SameMembers(ts, us);
    assert us[..|us| - 1] == front + [0] && (front + [0])[..|front|] == front;
    forall t | t in front ensures t >= 0 { assert t in us; }
    if front != [] { GroupStartBounds(front); }
    assert GroupStart(front + [0]) == 0;
  }

  lemma {:induction false} MoveToEnd(ts: seq<int>, t: int) returns (rest: seq<int>)
    requires t in ts
    ensures multiset(ts) == multiset(rest) + multiset{t}
    ensures forall u :: u != t ==> (u in rest <==> u in ts)
  {
    var i :| 0 <= i < |ts| && ts[i] == t;
    rest := ts[..i] + ts[i + 1..];
    assert ts == ts[..i] + [t] + ts[i + 1..];
  }

  /** Two listings of the same two snapshots, one with a zero time, that the pass tells apart. */
  lemma {:induction false} ZeroStartDependsOnOrder()
    ensures GroupStart([0, 5]) == 5 && GroupStart([5, 0]) == 0
  {
    assert [0, 5][..1] == [0] && [5, 0][..1] == [5];
  }
}
