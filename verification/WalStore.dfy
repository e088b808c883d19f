/** One cluster's WAL archive on disk: history, backup-label and metadata files at the
    top, segments and partials one level down, in a directory named after the first 16
    characters of their name. Pruning and the lookup of the latest WAL work directory by
    directory; the lemmas relate both to the flat set of stored names. */
module WalStore {
  import opened WalNames

  datatype Archive = Archive(files: set<string>, dirs: map<string, set<string>>) {
    /** `name` is stored in subdirectory `dir`, or at the top. */
    predicate Stores(dir: Option<string>, name: string) {
      match dir
      case None => name in files
      case Some(d) => d in dirs && name in dirs[d]
    }

    predicate StoresWAL(name: string) {
      IsWALSegmentOrPartial(name) && Stores(Some(name[..SUBDIRECTORY_LENGTH]), name)
    }

    /** Segments and partials are filed under their prefix, everything else at the top. */
    ghost predicate Layout() {
      && (forall name :: name in files ==> !IsWALSegmentOrPartial(name))
      && (forall d, name :: d in dirs && name in dirs[d] ==> InPlace(d, name))
    }

    ghost predicate NoEmptyDirectory() {
      forall d :: d in dirs ==> dirs[d] != {}
    }
  }

  predicate InPlace(d: string, name: string) {
    IsWALSegmentOrPartial(name) && d == name[..SUBDIRECTORY_LENGTH]
  }

  lemma {:induction false} WALNameLength(name: string)
    requires IsWALSegmentOrPartial(name)
    ensures |name| >= SUBDIRECTORY_LENGTH && name != ""
  {
    SegmentPlacement(name);
  }

  // -------------------------------------------------------------- pruning

  /** What the file system refuses to do during a pass: the files it does not delete, the
      directories it does not delete, and those it does not list. */
  datatype Faults = Faults(files: set<string>, dirs: set<string>, unreadable: set<string>)

  const NO_FAULTS := Faults({}, {}, {})

  /** The names retention is after: segments and partials older than `firstWAL`. */
  predicate Obsolete(name: string, firstWAL: string) {
    IsWALSegmentOrPartial(name) && Below(TrimPartialSuffix(name), firstWAL)
  }

  /** The directories a pass enters. */
  predicate Visited(d: string, firstWAL: string)
    requires |firstWAL| >= SUBDIRECTORY_LENGTH
  {
    |d| == SUBDIRECTORY_LENGTH && !Below(firstWAL[..SUBDIRECTORY_LENGTH], d)
  }

  function Survivors(names: set<string>, firstWAL: string, stuck: set<string>): (r: set<string>) {
    set n | n in names && (Obsolete(n, firstWAL) ==> n in stuck)
  }

  /** What becomes of directory `d` when the pass has yet to reach `pending`: a directory
      it enters loses its obsolete names, and is itself removed when nothing is left in it. */
  ghost predicate PrunedAt(before: map<string, set<string>>, after: map<string, set<string>>, d: string,
                           pending: set<string>, firstWAL: string, faults: Faults)
    requires |firstWAL| >= SUBDIRECTORY_LENGTH
  {
    if d !in before then d !in after
    else if d in pending || !Visited(d, firstWAL) || d in faults.unreadable then d in after && after[d] == before[d]
    else
      var left := Survivors(before[d], firstWAL, faults.files);
      if left == {} && d !in faults.dirs then d !in after else d in after && after[d] == left
  }

  /** The effect of a whole retention pass. */
  ghost predicate Pruned(before: Archive, after: Archive, firstWAL: string, faults: Faults)
    requires |firstWAL| >= SUBDIRECTORY_LENGTH
  {
    && after.files == before.files
    && forall d :: PrunedAt(before.dirs, after.dirs, d, {}, firstWAL, faults)
  }

  ghost predicate SameElsewhere(before: map<string, set<string>>, after: map<string, set<string>>, d: string) {
    forall e :: e != d ==> (e in before <==> e in after) && (e in before ==> before[e] == after[e])
  }

  class ClusterDirectory {
    var files: set<string>
    var dirs: map<string, set<string>>

    ghost function Contents(): (a: Archive)
      reads this
    {
      Archive(files, dirs)
    }

    /** `SetFirstRequiredOnCluster`. A shorter `firstWAL` cannot be cut to a prefix; the
        caller has validated the name, and valid names are long enough. It fails only when the
        cluster's directory cannot be listed. */
    method SetFirstRequired(firstWAL: string, readable: bool, faults: Faults) returns (ok: bool)
      requires |firstWAL| >= SUBDIRECTORY_LENGTH
      modifies this`dirs
      ensures ok == readable
      ensures ok ==> Pruned(old(Contents()), Contents(), firstWAL, faults)
      ensures !ok ==> Contents() == old(Contents())
    {
      if !readable {
        return false;
      }
      ok := true;
      var walPrefix := firstWAL[..SUBDIRECTORY_LENGTH];
      var entries := dirs.Keys;
      while entries != {}
        invariant entries <= dirs.Keys <= old(dirs).Keys
        invariant forall d :: PrunedAt(old(dirs), dirs, d, entries, firstWAL, faults)
        decreases |entries|
      {
        var d :| d in entries;
        ghost var was, pending := dirs, entries;
        assert PrunedAt(old(dirs), was, d, pending, firstWAL, faults);
        entries := entries - {d};
        if |d| == SUBDIRECTORY_LENGTH && !Below(walPrefix, d) && d !in faults.unreadable {
          SetFirstRequiredOnDirectory(d, firstWAL, faults);
        }
        forall e ensures PrunedAt(old(dirs), dirs, e, entries, firstWAL, faults) {
          assert PrunedAt(old(dirs), was, e, pending, firstWAL, faults);
        }
      }
    }

    method SetFirstRequiredOnDirectory(d: string, firstWAL: string, faults: Faults)
      requires d in dirs
      modifies this`dirs
      ensures SameElsewhere(old(dirs), dirs, d)
      ensures var left := Survivors(old(dirs)[d], firstWAL, faults.files);
        if left == {} && d !in faults.dirs then d !in dirs else d in dirs && dirs[d] == left
    {
      var entries := dirs[d];
      while entries != {}
        invariant entries <= old(dirs)[d]
        invariant d in dirs && SameElsewhere(old(dirs), dirs, d)
        invariant forall n :: n in dirs[d] <==>
          n in old(dirs)[d] && (Obsolete(n, firstWAL) ==> n in entries || n in faults.files)
        decreases |entries|
      {
        var n :| n in entries;
        entries := entries - {n};
        var _ := RemoveIfObsolete(d, n, firstWAL, faults.files);
      }
      assert dirs[d] == Survivors(old(dirs)[d], firstWAL, faults.files);
      if dirs[d] == {} && d !in faults.dirs {
        dirs := dirs - {d};
      }
    }

    method RemoveIfObsolete(d: string, n: string, firstWAL: string, stuck: set<string>) returns (removed: bool)
      requires d in dirs
      modifies this`dirs
      ensures removed <==> Obsolete(n, firstWAL) && n !in stuck
      ensures forall w :: IsWALFile(w) && (n == w || n == w + ".partial") ==>
        (removed <==> Below(w, firstWAL) && n !in stuck)
      ensures (forall w :: IsWALFile(w) ==> n != w && n != w + ".partial") ==> !removed
      ensures d in dirs && SameElsewhere(old(dirs), dirs, d)
      ensures dirs[d] == if removed then old(dirs)[d] - {n} else old(dirs)[d]
    {
      if IsWALSegmentOrPartial(n) { SegmentsAreValid(n); }
      ObsoleteNames(n, firstWAL);
      var compareName := if IsPartialWALFile(n) then TrimPartialSuffix(n) else n;
      removed := ValidWalFileName(n) && IsWALSegmentOrPartial(n) && Below(compareName, firstWAL) && n !in stuck;
      if removed {
        dirs := dirs[d := dirs[d] - {n}];
      }
    }

    /** `GetLatestWALFileForCluster`: the greatest name in the greatest directory, empty when the
        cluster has no directory, and an error when one of the two cannot be listed. */
    method GetLatestWALFile(root: RootStatus, unreadable: set<string>) returns (lastWal: Option<string>)
      ensures root.Absent? ==> lastWal == Some("")
      ensures root.Unlistable? ==> lastWal.None?
      ensures root.Listable? ==> forall d :: Greatest(d, dirs.Keys) ==> (
        && (lastWal.None? <==> d in dirs && d in unreadable)
        && (lastWal.Some? ==> LookedUp(Contents(), lastWal.value)))
    {
      if root.Absent? {
        return Some("");
      }
      if root.Unlistable? {
        return None;
      }
      var latestDirectory := GreatestName(dirs.Keys);
      forall d | Greatest(d, dirs.Keys) ensures d == latestDirectory {
        GreatestUnique(d, latestDirectory, dirs.Keys);
      }
      if latestDirectory !in dirs {
        return Some("");
      }
      if latestDirectory in unreadable {
        return None;
      }
      var latest := GreatestName(dirs[latestDirectory]);
      lastWal := Some(latest);
    }
  }

  datatype RootStatus = Listable | Absent | Unlistable

  lemma {:induction false} NotBothForms(n: string)
    requires IsWALFile(n)
    ensures !IsPartialWALFile(n) && TrimPartialSuffix(n) == n
  {
    SegmentPlacement(n);
  }

  /** The obsolete names are the segments below `firstWAL`, and the partials of such segments. */
  lemma {:induction false} ObsoleteNames(n: string, firstWAL: string)
    ensures forall w :: IsWALFile(w) && (n == w || n == w + ".partial") ==>
      (Obsolete(n, firstWAL) <==> Below(w, firstWAL))
    ensures (forall w :: IsWALFile(w) ==> n != w && n != w + ".partial") ==> !Obsolete(n, firstWAL)
  {
    forall w | IsWALFile(w) && (n == w || n == w + ".partial")
      ensures Obsolete(n, firstWAL) <==> Below(w, firstWAL)
    {
      NotBothForms(w);
      PartialOf(w);
    }
    if IsPartialWALFile(n) {
      assert n == TrimPartialSuffix(n) + ".partial";
    }
  }

  lemma {:induction false} PartialOf(w: string)
    requires IsWALFile(w)
    ensures IsPartialWALFile(w + ".partial") && TrimPartialSuffix(w + ".partial") == w
  {
    var n := w + ".partial";
    assert n[|n| - 8..] == ".partial" && n[..|n| - 8] == w;
  }

  lemma {:induction false} SegmentsAreValid(n: string)
    requires IsWALSegmentOrPartial(n)
    ensures ValidWalFileName(n) && (IsWALFile(n) ==> !IsPartialWALFile(n) && TrimPartialSuffix(n) == n)
  {
    if IsWALFile(n) {
      NotBothForms(n);
    } else {
      assert n[..24] == TrimPartialSuffix(n) && n[24..] == PARTIAL_SUFFIX;
    }
  }

  /** `name` is the greatest of `names`, or the empty string if there are none. */
  ghost predicate Greatest(name: string, names: set<string>) {
    (name in names || (name == "" && names == {})) && forall n :: n in names ==> !Below(name, n)
  }

  lemma {:induction false} GreatestUnique(x: string, y: string, names: set<string>)
    requires Greatest(x, names) && Greatest(y, names)
    ensures x == y
  {
    BelowTotal(x, y);
  }

  /** The running maximum both loops of the lookup keep. */
  method GreatestName(names: set<string>) returns (latest: string)
    ensures Greatest(latest, names)
  {
    latest := "";
    var rest := names;
    while rest != {}
      invariant rest <= names
      invariant latest in names || (latest == "" && (rest == names || "" in names))
      invariant forall n :: n in names - rest ==> !Below(latest, n)
      decreases |rest|
    {
      var n :| n in rest;
      rest := rest - {n};
      BelowTotal(latest, n);
      if Below(latest, n) {
        forall m | m in names - rest ensures !Below(n, m) {
          if m == n { BelowTotal(n, n); } else {
            assert m in names - (rest + {n});
            AtMostTransitive(m, latest, n);
          }
        }
        latest := n;
      }
    }
  }

  // ------------------------------------- pruning against the flat filter

  /** A pass may leave files behind when the file system fails it, but in any archive, and
      with any failures, it removes nothing that is not obsolete, and moves nothing. */
  lemma {:induction false} PruneRemovesOnlyObsolete(before: Archive, after: Archive, firstWAL: string, faults: Faults)
    requires |firstWAL| >= SUBDIRECTORY_LENGTH && Pruned(before, after, firstWAL, faults)
    ensures forall dir, name :: after.Stores(dir, name) ==> before.Stores(dir, name)
    ensures forall dir, name :: before.Stores(dir, name) && !Obsolete(name, firstWAL) ==> after.Stores(dir, name)
  {
    forall dir: Option<string>, name
      ensures after.Stores(dir, name) ==> before.Stores(dir, name)
      ensures before.Stores(dir, name) && !Obsolete(name, firstWAL) ==> after.Stores(dir, name)
    {
      if dir.Some? {
        assert PrunedAt(before.dirs, after.dirs, dir.value, {}, firstWAL, faults);
        if dir.value in before.dirs && name in before.dirs[dir.value] && !Obsolete(name, firstWAL) {
          assert name in Survivors(before.dirs[dir.value], firstWAL, faults.files);
        }
      }
    }
  }

  /** Directory-level pruning equals the flat filter on names exactly when every obsolete
      file sits in a directory the pass enters. */
  lemma {:induction false} PruneIsFlatFilter(before: Archive, after: Archive, firstWAL: string)
    requires |firstWAL| >= SUBDIRECTORY_LENGTH && Pruned(before, after, firstWAL, NO_FAULTS)
    ensures (forall dir, name :: after.Stores(dir, name) <==> before.Stores(dir, name) && !Obsolete(name, firstWAL))
       <==> (forall dir, name :: before.Stores(dir, name) && Obsolete(name, firstWAL)
              ==> dir.Some? && Visited(dir.value, firstWAL))
  {
    PruneRemovesOnlyObsolete(before, after, firstWAL, NO_FAULTS);
    forall dir: Option<string>, name | before.Stores(dir, name) && Obsolete(name, firstWAL)
      ensures after.Stores(dir, name) <==> !(dir.Some? && Visited(dir.value, firstWAL))
    {
      if dir.Some? { assert PrunedAt(before.dirs, after.dirs, dir.value, {}, firstWAL, NO_FAULTS); }
    }
  }

  /** In the archive layout no obsolete file is out of reach, so pruning is the flat filter. */
  lemma {:induction false} PruneLayoutIsFlatFilter(before: Archive, after: Archive, firstWAL: string)
    requires before.Layout()
    requires |firstWAL| >= SUBDIRECTORY_LENGTH && Pruned(before, after, firstWAL, NO_FAULTS)
    ensures forall dir, name :: after.Stores(dir, name) <==> before.Stores(dir, name) && !Obsolete(name, firstWAL)
  {
    forall dir: Option<string>, name | before.Stores(dir, name) && Obsolete(name, firstWAL)
      ensures dir.Some? && Visited(dir.value, firstWAL)
    {
      SegmentPlacement(name);
      BelowTotal(firstWAL, TrimPartialSuffix(name));
      PrefixMonotone(TrimPartialSuffix(name), firstWAL, SUBDIRECTORY_LENGTH);
    }
    PruneIsFlatFilter(before, after, firstWAL);
  }

  /** What a pass does to names, said for each kind: a segment stays exactly when it is not older than
      `firstWAL`, its partial likewise, and every other file stays. */
  lemma {:induction false} PruneByName(before: Archive, after: Archive, firstWAL: string,
                                       dir: Option<string>, w: string)
    requires before.Layout()
    requires |firstWAL| >= SUBDIRECTORY_LENGTH && Pruned(before, after, firstWAL, NO_FAULTS)
    ensures IsWALFile(w) ==> (after.Stores(dir, w) <==> before.Stores(dir, w) && !Below(w, firstWAL))
    ensures IsWALFile(w) ==>
      (after.Stores(dir, w + ".partial") <==> before.Stores(dir, w + ".partial") && !Below(w, firstWAL))
    ensures (forall v :: IsWALFile(v) ==> w != v && w != v + ".partial") ==>
      (after.Stores(dir, w) <==> before.Stores(dir, w))
  {
    PruneLayoutIsFlatFilter(before, after, firstWAL);
    ObsoleteNames(w, firstWAL);
    ObsoleteNames(w + ".partial", firstWAL);
  }

  /** A failure spares only what it is about: a file of the layout goes in any pass exactly when it is
      obsolete, can be deleted, and is in a directory that can be listed. */
  lemma {:induction false} PruneWithFaults(before: Archive, after: Archive, firstWAL: string, faults: Faults,
                                           d: string, name: string)
    requires before.Layout()
    requires |firstWAL| >= SUBDIRECTORY_LENGTH && Pruned(before, after, firstWAL, faults)
    requires before.Stores(Some(d), name)
    ensures after.Stores(Some(d), name) <==>
      name in faults.files || d in faults.unreadable || !Below(TrimPartialSuffix(name), firstWAL)
  {
    assert InPlace(d, name);
    SegmentPlacement(name);
    assert PrunedAt(before.dirs, after.dirs, d, {}, firstWAL, faults);
    if Below(TrimPartialSuffix(name), firstWAL) {
      BelowTotal(firstWAL, TrimPartialSuffix(name));
      PrefixMonotone(TrimPartialSuffix(name), firstWAL, SUBDIRECTORY_LENGTH);
      assert Visited(d, firstWAL);
    }
    if d !in faults.unreadable && Visited(d, firstWAL) {
      assert name in Survivors(before.dirs[d], firstWAL, faults.files) <==>
        name in faults.files || !Below(TrimPartialSuffix(name), firstWAL);
    }
  }

  /** A pass keeps the layout whatever fails. */
  lemma {:induction false} PruneKeepsLayout(before: Archive, after: Archive, firstWAL: string, faults: Faults)
    requires |firstWAL| >= SUBDIRECTORY_LENGTH && Pruned(before, after, firstWAL, faults) && before.Layout()
    ensures after.Layout()
  {
    PruneRemovesOnlyObsolete(before, after, firstWAL, faults);
    forall d, name | d in after.dirs && name in after.dirs[d] ensures InPlace(d, name) {
      assert after.Stores(Some(d), name);
    }
  }

  /** A pass leaves an empty directory behind exactly when it emptied one it could not remove. */
  lemma {:induction false} PruneLeavesNoEmptyDirectory(before: Archive, after: Archive, firstWAL: string,
                                                       faults: Faults)
    requires |firstWAL| >= SUBDIRECTORY_LENGTH && Pruned(before, after, firstWAL, faults)
    requires before.NoEmptyDirectory()
    ensures after.NoEmptyDirectory() <==>
      forall d :: d in before.dirs && d in faults.dirs && Visited(d, firstWAL) && d !in faults.unreadable
        ==> Survivors(before.dirs[d], firstWAL, faults.files) != {}
  {
    forall d ensures PrunedAt(before.dirs, after.dirs, d, {}, firstWAL, faults) {}
    if d :| (d in before.dirs && d in faults.dirs && Visited(d, firstWAL) && d !in faults.unreadable
          && Survivors(before.dirs[d], firstWAL, faults.files) == {}) {
      assert PrunedAt(before.dirs, after.dirs, d, {}, firstWAL, faults);
      assert d in after.dirs && after.dirs[d] == {};
    } else {
      forall d | d in after.dirs ensures after.dirs[d] != {} {
        assert PrunedAt(before.dirs, after.dirs, d, {}, firstWAL, faults);
      }
    }
  }

  // ------------------------------------------------------- the latest WAL

  /** What `GetLatestWALFile` computes. */
  ghost predicate LookedUp(a: Archive, lastWal: string) {
    forall d :: Greatest(d, a.dirs.Keys) ==> Greatest(lastWal, if d in a.dirs then a.dirs[d] else {})
  }

  /** The greatest name among all the stored segments and partials. */
  ghost predicate LatestWAL(a: Archive, lastWal: string) {
    && (a.StoresWAL(lastWal) || (lastWal == "" && forall n :: !a.StoresWAL(n)))
    && (forall n :: a.StoresWAL(n) ==> !Below(lastWal, n))
  }

  lemma {:induction false} GreatestExists(names: set<string>) returns (g: string)
    ensures Greatest(g, names)
  {
    if names == {} {
      g := "";
    } else {
      var n :| n in names;
      g := GreatestExists(names - {n});
      BelowTotal(g, n);
      forall m | m in names && Below(g, n) ensures !Below(n, m) {
        if m == n { BelowTotal(n, n); } else { assert m in names - {n}; AtMostTransitive(m, g, n); }
      }
      forall m | m in names && !Below(g, n) ensures !Below(g, m) {
        if m != n { assert m in names - {n}; }
      }
      if Below(g, n) || names == {n} { g := n; BelowTotal(n, n); }
    }
  }

  /** What the lookup finds is in the greatest directory. */
  lemma {:induction false} LookupPlace(a: Archive, d: string, lastWal: string)
    requires a.Layout() && Greatest(d, a.dirs.Keys) && LookedUp(a, lastWal)
    ensures d in a.dirs && a.dirs[d] != {} ==>
      lastWal in a.dirs[d] && InPlace(d, lastWal) && |lastWal| >= SUBDIRECTORY_LENGTH
    ensures !(d in a.dirs && a.dirs[d] != {}) ==> lastWal == ""
  {
    if d in a.dirs && a.dirs[d] != {} {
      assert InPlace(d, lastWal);
      WALNameLength(lastWal);
    }
  }

  /** In the layout, the lookup finds the greatest of all stored names exactly when the greatest
      directory is not empty, or no WAL is stored at all. */
  lemma {:induction false} LookupIsLatest(a: Archive, d: string, lastWal: string)
    requires a.Layout() && Greatest(d, a.dirs.Keys) && LookedUp(a, lastWal)
    ensures LatestWAL(a, lastWal) <==> (d in a.dirs && a.dirs[d] != {}) || forall n :: !a.StoresWAL(n)
  {
    LookupPlace(a, d, lastWal);
    if d in a.dirs && a.dirs[d] != {} {
      assert a.StoresWAL(lastWal);
      forall n | a.StoresWAL(n) ensures !Below(lastWal, n) {
        WALNameLength(n);
        assert n[..SUBDIRECTORY_LENGTH] in a.dirs;
        BelowSplit(lastWal, n, SUBDIRECTORY_LENGTH);
      }
    }
  }

  lemma {:induction false} LookupWithoutEmptyDirectory(a: Archive, lastWal: string)
    requires a.Layout() && a.NoEmptyDirectory() && LookedUp(a, lastWal)
    ensures LatestWAL(a, lastWal)
  {
    var d := GreatestExists(a.dirs.Keys);
    LookupIsLatest(a, d, lastWal);
  }

  /** Retention up to the latest WAL never changes which WAL is the latest, whatever deletions
      fail and whatever emptied directories they leave behind. */
  lemma {:induction false} RetentionKeepsLatest(before: Archive, after: Archive, firstWAL: string, faults: Faults,
                                                lastWal: string)
    requires |firstWAL| >= SUBDIRECTORY_LENGTH && Pruned(before, after, firstWAL, faults)
    requires before.Layout() && LookedUp(before, lastWal) && LatestWAL(before, lastWal)
    requires lastWal == "" || !Below(TrimPartialSuffix(lastWal), firstWAL)
    ensures LookedUp(after, lastWal) && LatestWAL(after, lastWal)
  {
    PruneRemovesOnlyObsolete(before, after, firstWAL, faults);
    PruneKeepsLayout(before, after, firstWAL, faults);
    forall n | after.StoresWAL(n) ensures before.StoresWAL(n) {
      assert after.Stores(Some(n[..SUBDIRECTORY_LENGTH]), n);
    }
    if before.StoresWAL(lastWal) {
      LatestStays(before, after, firstWAL, faults, lastWal);
    } else {
      NothingStored(after);
    }
  }

  lemma {:induction false} NothingStored(a: Archive)
    requires a.Layout() && forall n :: !a.StoresWAL(n)
    ensures LookedUp(a, "")
  {
    forall d | d in a.dirs ensures a.dirs[d] == {} {
      if n :| n in a.dirs[d] { assert InPlace(d, n); assert a.StoresWAL(n); }
    }
  }

  lemma {:induction false} LatestStays(before: Archive, after: Archive, firstWAL: string, faults: Faults,
                                       lastWal: string)
    requires |firstWAL| >= SUBDIRECTORY_LENGTH && Pruned(before, after, firstWAL, faults)
    requires before.Layout() && LookedUp(before, lastWal) && LatestWAL(before, lastWal) && before.StoresWAL(lastWal)
    requires !Below(TrimPartialSuffix(lastWal), firstWAL)
    ensures LookedUp(after, lastWal) && after.StoresWAL(lastWal)
  {
    PruneRemovesOnlyObsolete(before, after, firstWAL, faults);
    WALNameLength(lastWal);
    var greatest := GreatestExists(before.dirs.Keys);
    LookupPlace(before, greatest, lastWal);
    var d := lastWal[..SUBDIRECTORY_LENGTH];
    assert d == greatest;
    assert before.Stores(Some(d), lastWal);
    assert after.Stores(Some(d), lastWal);
    forall e | e in after.dirs ensures !Below(d, e) {
      assert PrunedAt(before.dirs, after.dirs, e, {}, firstWAL, faults);
    }
    assert Greatest(d, after.dirs.Keys);
    forall n | n in after.dirs[d] ensures !Below(lastWal, n) {
      assert after.Stores(Some(d), n);
      assert before.Stores(Some(d), n);
      assert InPlace(d, n);
      assert before.StoresWAL(n);
    }
    forall e | Greatest(e, after.dirs.Keys) ensures e == d { GreatestUnique(e, d, after.dirs.Keys); }
  }

  // ------------------------------------------------------------ whole runs

  /** A writer opens the file of `name` (under its partial name, or directly), publishes it by
      renaming, or retention runs, whatever it fails to delete. */
  datatype Step =
    | Create(name: string, direct: bool)
    | Publish(name: string)
    | Retain(firstWAL: string, faults: Faults)

  const METADATA_FILES := {"metadata", "retention_policy"}

  /** The names writers are opened for: those the server validates, and its own metadata files. */
  predicate Writable(name: string) {
    ValidWalFileName(name) || name in METADATA_FILES
  }

  function Added(a: Archive, dir: Option<string>, name: string): (r: Archive) {
    match dir
    case None => Archive(a.files + {name}, a.dirs)
    case Some(d) => Archive(a.files, a.dirs[d := (if d in a.dirs then a.dirs[d] else {}) + {name}])
  }

  function Removed(a: Archive, dir: Option<string>, name: string): (r: Archive)
    requires a.Stores(dir, name)
  {
    match dir
    case None => Archive(a.files - {name}, a.dirs)
    case Some(d) => Archive(a.files, a.dirs[d := a.dirs[d] - {name}])
  }

  ghost predicate Next(a: Archive, step: Step, a': Archive) {
    match step
    case Create(name, direct) =>
      && Writable(name)
      && a' == Added(a, ArchiveDirectory(name), if direct then name else WithPartialSuffix(name))
    case Publish(name) =>
      && Writable(name)
      && var dir, partialName := ArchiveDirectory(name), WithPartialSuffix(name);
      && a.Stores(dir, partialName)
      && a' == Added(Removed(a, dir, partialName), dir, TrimPartialSuffix(partialName))
    case Retain(firstWAL, faults) =>
      |firstWAL| >= SUBDIRECTORY_LENGTH && Pruned(a, a', firstWAL, faults)
  }

  /** A write leaves its file, a publication leaves the completed one in place of the partial, and
      neither touches any other name. */
  lemma {:induction false} WritesAreStored(a: Archive, step: Step, a': Archive, dir: Option<string>, other: string)
    requires Next(a, step, a') && !step.Retain?
    ensures step.Create? && step.direct ==> a'.Stores(ArchiveDirectory(step.name), step.name)
    ensures step.Create? && !step.direct ==>
      a'.Stores(ArchiveDirectory(step.name), TrimPartialSuffix(step.name) + ".partial")
    ensures step.Publish? ==>
      && a'.Stores(ArchiveDirectory(step.name), TrimPartialSuffix(step.name))
      && !a'.Stores(ArchiveDirectory(step.name), TrimPartialSuffix(step.name) + ".partial")
    ensures other != TrimPartialSuffix(step.name) && other != TrimPartialSuffix(step.name) + ".partial" ==>
      (a'.Stores(dir, other) <==> a.Stores(dir, other))
  {
    assert WithPartialSuffix(step.name) == TrimPartialSuffix(step.name) + ".partial";
  }

  ghost predicate IsRun(run: seq<Archive>, steps: seq<Step>) {
    && |run| == |steps| + 1
    && run[0] == Archive({}, map[])
    && forall i {:trigger steps[i]} :: 0 <= i < |steps| ==> Next(run[i], steps[i], run[i + 1])
  }

  /** Both names a writer uses for `name` belong where `getWALArchivePath` puts `name`. */
  lemma {:induction false} WriterNamesInPlace(name: string)
    requires Writable(name)
    ensures match ArchiveDirectory(name)
      case None =>
        && !IsWALSegmentOrPartial(name)
        && !IsWALSegmentOrPartial(WithPartialSuffix(name)) && !IsWALSegmentOrPartial(TrimPartialSuffix(name))
      case Some(d) =>
        InPlace(d, name) && InPlace(d, WithPartialSuffix(name)) && InPlace(d, TrimPartialSuffix(name))
  {
    if IsWALSegmentOrPartial(name) {
      SegmentPlacement(name);
      SegmentPlacement(WithPartialSuffix(name));
      SegmentPlacement(TrimPartialSuffix(name));
    } else {
      OtherNamesAtTop(name);
    }
  }

  lemma {:induction false} OtherNamesAtTop(name: string)
    requires Writable(name) && !IsWALSegmentOrPartial(name)
    ensures ArchiveDirectory(name).None?
    ensures !IsWALSegmentOrPartial(WithPartialSuffix(name)) && !IsWALSegmentOrPartial(TrimPartialSuffix(name))
  {
    OtherNamesAreBare(name);
    if ValidWalFileName(name) { ValidNamesPlacement(name); }
    var partialName := WithPartialSuffix(name);
    assert |partialName| == |name| + 8;
    if IsWALSegmentOrPartial(partialName) { SegmentPlacement(partialName); }
  }

  lemma {:induction false} OtherNamesAreBare(name: string)
    requires Writable(name) && !IsWALSegmentOrPartial(name)
    ensures !EndsWith(name, PARTIAL_SUFFIX)
    ensures |name| < 24 || |name| == 40
  {
    assert |name| < 24 || |name| == 40;
    assert name[|name| - 8..][7] == name[|name| - 1] != 'l';
  }

  /** Adding a file where it belongs. */
  lemma {:induction false} AddKeepsInvariant(a: Archive, dir: Option<string>, name: string)
    requires a.Layout()
    requires if dir.None? then !IsWALSegmentOrPartial(name) else InPlace(dir.value, name)
    ensures Added(a, dir, name).Layout() && (a.NoEmptyDirectory() ==> Added(a, dir, name).NoEmptyDirectory())
  {
  }

  /** Replacing a file by another that belongs in the same place. */
  lemma {:induction false} ReplaceKeepsInvariant(a: Archive, dir: Option<string>, source: string, name: string)
    requires a.Layout() && a.Stores(dir, source)
    requires if dir.None? then !IsWALSegmentOrPartial(name) else InPlace(dir.value, name)
    ensures var a' := Added(Removed(a, dir, source), dir, name);
      a'.Layout() && (a.NoEmptyDirectory() ==> a'.NoEmptyDirectory())
  {
  }

  /** The step removes every directory that it empties. */
  predicate RemovesEmptied(step: Step) {
    step.Retain? ==> step.faults.dirs == {}
  }

  lemma {:induction false} StepKeepsInvariant(a: Archive, step: Step, a': Archive)
    requires a.Layout() && Next(a, step, a')
    ensures a'.Layout() && (a.NoEmptyDirectory() && RemovesEmptied(step) ==> a'.NoEmptyDirectory())
  {
    match step
    case Create(name, direct) =>
      WriterNamesInPlace(name);
      AddKeepsInvariant(a, ArchiveDirectory(name), if direct then name else WithPartialSuffix(name));
    case Publish(name) =>
      WriterNamesInPlace(name);
      var partialName := WithPartialSuffix(name);
      ReplaceKeepsInvariant(a, ArchiveDirectory(name), partialName, TrimPartialSuffix(partialName));
    case Retain(firstWAL, faults) =>
      PruneKeepsLayout(a, a', firstWAL, faults);
      if a.NoEmptyDirectory() { PruneLeavesNoEmptyDirectory(a, a', firstWAL, faults); }
  }

  /** Publishing renames partials only. */
  lemma {:induction false} WritingKeepsSegments(a: Archive, step: Step, a': Archive, d: string, wal: string)
    requires Next(a, step, a') && !step.Retain?
    requires IsWALFile(wal) && a.Stores(Some(d), wal)
    ensures a'.Stores(Some(d), wal)
  {
    match step
    case Create(name, direct) =>
      AddKeepsStored(a, ArchiveDirectory(name), if direct then name else WithPartialSuffix(name), Some(d), wal);
    case Publish(name) =>
      NotBothForms(wal);
      var dir, partialName := ArchiveDirectory(name), WithPartialSuffix(name);
      assert partialName != wal;
      RemoveKeepsStored(a, dir, partialName, Some(d), wal);
      AddKeepsStored(Removed(a, dir, partialName), dir, TrimPartialSuffix(partialName), Some(d), wal);
  }

  lemma {:induction false} AddKeepsStored(a: Archive, dir: Option<string>, name: string, d: Option<string>,
                                          other: string)
    requires a.Stores(d, other)
    ensures Added(a, dir, name).Stores(d, other)
  {
  }

  lemma {:induction false} RemoveKeepsStored(a: Archive, dir: Option<string>, name: string,
                                             d: Option<string>, other: string)
    requires a.Stores(dir, name) && a.Stores(d, other) && name != other
    ensures Removed(a, dir, name).Stores(d, other)
  {
  }

  lemma {:induction false} LayoutInEveryRun(run: seq<Archive>, steps: seq<Step>, i: nat)
    requires IsRun(run, steps) && i < |run|
    ensures run[i].Layout()
    ensures (forall k :: 0 <= k < i ==> RemovesEmptied(steps[k])) ==> run[i].NoEmptyDirectory()
  {
    if i > 0 {
      LayoutInEveryRun(run, steps, i - 1);
      StepKeepsInvariant(run[i - 1], steps[i - 1], run[i]);
    }
  }

  /** In every archive reached by writes, publications and retention passes with any failures, the
      two-level lookup finds the greatest of all the stored names exactly when the greatest
      directory is not empty or no WAL is stored; so it always does while every pass could remove
      the directories it emptied. */
  lemma {:induction false} LatestInEveryRun(run: seq<Archive>, steps: seq<Step>, i: nat, d: string, lastWal: string)
    requires IsRun(run, steps) && i < |run|
    requires Greatest(d, run[i].dirs.Keys) && LookedUp(run[i], lastWal)
    ensures LatestWAL(run[i], lastWal) <==>
      (d in run[i].dirs && run[i].dirs[d] != {}) || forall n :: !run[i].StoresWAL(n)
    ensures (forall k :: 0 <= k < i ==> RemovesEmptied(steps[k])) ==> LatestWAL(run[i], lastWal)
  {
    LayoutInEveryRun(run, steps, i);
    LookupIsLatest(run[i], d, lastWal);
    if run[i].NoEmptyDirectory() { LookupWithoutEmptyDirectory(run[i], lastWal); }
  }

  /** An emptied directory that stays, and an older file that could not be deleted: for any two
      segments in different directories, a run after which the lookup finds nothing. */
  lemma {:induction false} EmptiedDirectoryHidesWAL(older: string, newer: string, firstWAL: string)
    returns (run: seq<Archive>, steps: seq<Step>)
    requires IsWALFile(older) && IsWALFile(newer) && |firstWAL| >= SUBDIRECTORY_LENGTH
    requires Below(older[..SUBDIRECTORY_LENGTH], newer[..SUBDIRECTORY_LENGTH]) && Below(newer, firstWAL)
    ensures IsRun(run, steps) && run[|steps|].StoresWAL(older) && LookedUp(run[|steps|], "")
  {
    var d, e := older[..SUBDIRECTORY_LENGTH], newer[..SUBDIRECTORY_LENGTH];
    var faults := Faults({older}, {e}, {});
    var a1 := Archive({}, map[d := {older}]);
    var a2 := Archive({}, map[d := {older}, e := {newer}]);
    var a3 := Archive({}, map[d := {older}, e := {}]);
    SegmentPlacement(older);
    SegmentPlacement(newer);
    BelowTotal(d, e);
    NotBothForms(newer);
    assert {} + {older} == {older} && {} + {newer} == {newer};
    assert map[][d := {older}] == map[d := {older}];
    assert map[d := {older}][e := {newer}] == map[d := {older}, e := {newer}];
    PrunesBoth(a2, a3, d, e, older, newer, firstWAL, faults);
    run := [Archive({}, map[]), a1, a2, a3];
    steps := [Create(older, true), Create(newer, true), Retain(firstWAL, faults)];
    EmptyGreatest(a3, d, e);
  }

  lemma {:induction false} PrunesBoth(a: Archive, a': Archive, d: string, e: string, older: string, newer: string,
                                      firstWAL: string, faults: Faults)
    requires |firstWAL| >= SUBDIRECTORY_LENGTH && d != e && |e| == SUBDIRECTORY_LENGTH <= |newer|
    requires e == newer[..SUBDIRECTORY_LENGTH] && Below(newer, firstWAL) && Obsolete(newer, firstWAL) && older != newer
    requires a == Archive({}, map[d := {older}, e := {newer}]) && a' == Archive({}, map[d := {older}, e := {}])
    requires faults == Faults({older}, {e}, {})
    ensures Pruned(a, a', firstWAL, faults)
  {
    assert Survivors({older}, firstWAL, faults.files) == {older};
    assert Survivors({newer}, firstWAL, faults.files) == {};
    BelowTotal(newer, firstWAL);
    PrefixMonotone(newer, firstWAL, SUBDIRECTORY_LENGTH);
    assert Visited(e, firstWAL);
    forall c ensures PrunedAt(a.dirs, a'.dirs, c, {}, firstWAL, faults) {}
  }

  lemma {:induction false} EmptyGreatest(a: Archive, d: string, e: string)
    requires a.dirs.Keys == {d, e} && a.dirs[e] == {} && Below(d, e)
    ensures LookedUp(a, "")
  {
    BelowTotal(d, e);
    BelowTotal(e, e);
    forall c | Greatest(c, a.dirs.Keys) ensures c == e { GreatestUnique(c, e, a.dirs.Keys); }
  }
}
