/** The work queue and its dead-letter queue. A message that exhausts its deliveries stays in the
    work stream, and an advisory that points at it is stored in the dead-letter stream. A purge
    first deletes the message, then the advisory, and can be interrupted anywhere. */
module DeadLetter {
  import opened WalNames
  import Sorting

  datatype Message = Task(cluster: string, payload: string) | Garbage

  datatype Advisory = Advisory(seqNo: nat, timestamp: int, sourceSeq: nat)

  /** An entry of a listing of failed tasks: where its advisory is, when it was stored, what failed. */
  datatype FailedTask = FailedTask(seqNo: nat, timestamp: int, task: Message)

  // --------------------------------------------------------------- listing

  datatype Listing = Tasks(tasks: seq<FailedTask>) | Unreadable

  /** The failed tasks before they are sorted: advisories in stream order, without those whose message is gone;
      one message that cannot be decoded makes the whole listing fail. */
  function ListFailed(dlq: seq<Advisory>, source: map<nat, Message>, cluster: string): (r: Listing) {
    if dlq == [] then Tasks([]) else
      var n := |dlq| - 1;
      ListOne(ListFailed(dlq[..n], source, cluster), dlq[n], source, cluster)
  }

  function ListOne(before: Listing, a: Advisory, source: map<nat, Message>, cluster: string): (r: Listing) {
    if before.Unreadable? || a.sourceSeq !in source then before
    else if source[a.sourceSeq].Garbage? then Unreadable
    else if cluster != "" && source[a.sourceSeq].cluster != cluster then before
    else Tasks(before.tasks + [FailedTask(a.seqNo, a.timestamp, source[a.sourceSeq])])
  }

  /** What the pager delivers: an advisory, nothing, the end of the stream, or an error. */
  datatype PagerEvent = Delivers(advisory: Advisory) | Nothing | LastReached | Fails

  /** The pager delivers `n` advisories before it does anything else. */
  ghost predicate StopsAfter(events: seq<PagerEvent>, n: nat) {
    && n <= |events| && (forall k :: 0 <= k < n ==> events[k].Delivers?)
    && (n == |events| || !events[n].Delivers?)
  }

  ghost predicate ReadsAll(events: seq<PagerEvent>, n: nat, expected: nat) {
    n >= expected && !(n < |events| && events[n].Fails?)
  }

  /** `drainDLQPager`. The pager reports a timeout the way it reports the end of the stream, so fewer
      advisories than the stream holds is an error. */
  method DrainDLQPager(events: seq<PagerEvent>, expected: nat) returns (advisories: Option<seq<Advisory>>)
    ensures forall n :: StopsAfter(events, n) ==> (advisories.Some? <==> ReadsAll(events, n, expected))
    ensures forall n: nat :: StopsAfter(events, n) ==>
      (advisories.None? <==> n < expected || (n < |events| && events[n].Fails?))
    ensures advisories.Some? ==> StopsAfter(events, |advisories.value|) && |advisories.value| >= expected
    ensures advisories.Some? ==> forall i :: 0 <= i < |advisories.value| ==> events[i] == Delivers(advisories.value[i])
  {
    var read: seq<Advisory> := [];
    var i := 0;
    while i < |events| && events[i].Delivers?
      invariant 0 <= i == |read| <= |events|
      invariant forall k :: 0 <= k < i ==> events[k] == Delivers(read[k])
    {
      read := read + [events[i].advisory];
      i := i + 1;
    }
    assert forall n :: StopsAfter(events, n) ==> n == i;
    if i < |events| && events[i].Fails? {
      return None;
    }
    if |read| < expected {
      return None;
    }
    advisories := Some(read);
  }

  ghost predicate NewestFirst(l: seq<FailedTask>) {
    forall i, j :: 0 <= i < j < |l| ==> l[i].timestamp >= l[j].timestamp
  }

  ghost predicate SortedListing(tasks: seq<FailedTask>, sorted: seq<FailedTask>) {
    multiset(sorted) == multiset(tasks) && NewestFirst(sorted)
  }

  method SortNewestFirst(tasks: seq<FailedTask>) returns (sorted: seq<FailedTask>)
    ensures SortedListing(tasks, sorted)
  {
    var age := (t: FailedTask) => -t.timestamp;
    sorted := Sorting.Sort(tasks, age);
    forall i, j | 0 <= i < j < |sorted| ensures sorted[i].timestamp >= sorted[j].timestamp {
      assert age(sorted[i]) <= age(sorted[j]);
    }
  }

  /** `listPager`: the sorted listing of the advisories that were read, or an error when they were not
      all read, or when one of their messages cannot be read or decoded. */
  method ListPager(events: seq<PagerEvent>, expected: nat, source: map<nat, Message>, broken: set<nat>, cluster: string)
    returns (r: Option<seq<FailedTask>>)
    ensures forall read :: Drained(events, read) ==>
      var listing := ListFailed(read, source, cluster);
      && (r.Some? <==> ReadsAll(events, |read|, expected) && Reachable(read, broken) && listing.Tasks?)
      && (r.Some? ==> SortedListing(listing.tasks, r.value))
    ensures forall read: seq<Advisory> :: Drained(events, read) ==> (r.Some? <==>
      && ReadsAll(events, |read|, expected) && Reachable(read, broken)
      && forall a :: a in read && a.sourceSeq in source ==> source[a.sourceSeq].Task?)
    ensures forall read: seq<Advisory>, f :: Drained(events, read) && r.Some? ==> (f in r.value <==>
      exists a :: a in read && a.seqNo == f.seqNo && a.timestamp == f.timestamp && a.sourceSeq in source
        && source[a.sourceSeq] == f.task && f.task.Task? && (cluster == "" || f.task.cluster == cluster))
    ensures forall read :: Drained(events, read) && r.Some? ==> |r.value| == CountListed(read, source, cluster)
    ensures r.Some? ==> forall i, j :: 0 <= i < j < |r.value| ==> r.value[i].timestamp >= r.value[j].timestamp
  {
    var advisories := DrainDLQPager(events, expected);
    if advisories.None? {
      assert forall read :: Drained(events, read) ==> StopsAfter(events, |read|);
      return None;
    }
    var read := advisories.value;
    forall other | Drained(events, other) ensures other == read { DrainedOnce(events, other, read); }
    assert StopsAfter(events, |read|);
    var listing := ResolveTasks(read, source, broken, cluster);
    ListedExactly(read, source, cluster);
    if listing.None? {
      return None;
    }
    var sorted := SortNewestFirst(listing.value);
    SameEntries(listing.value, sorted);
    r := Some(sorted);
  }

  lemma {:induction false} SameEntries(tasks: seq<FailedTask>, sorted: seq<FailedTask>)
    requires multiset(sorted) == multiset(tasks)
    ensures |sorted| == |tasks| && forall f :: f in sorted <==> f in tasks
  {
    assert |sorted| == |multiset(sorted)| == |multiset(tasks)| == |tasks|;
    forall f ensures f in sorted <==> f in tasks {
      assert (f in sorted <==> f in multiset(sorted)) && (f in tasks <==> f in multiset(tasks));
    }
  }

  /** How many advisories point at a stored task of the cluster. */
  function CountListed(read: seq<Advisory>, source: map<nat, Message>, cluster: string): (n: nat) {
    if read == [] then 0 else
      var a := read[|read| - 1];
      CountListed(read[..|read| - 1], source, cluster) +
      (if a.sourceSeq in source && source[a.sourceSeq].Task?
          && (cluster == "" || source[a.sourceSeq].cluster == cluster)
       then 1 else 0)
  }

  /** The listing is readable exactly when every message that is there is a task, and then has one entry
      for each advisory of a task of the cluster, and no other. */
  lemma {:induction false} ListedExactly(read: seq<Advisory>, source: map<nat, Message>, cluster: string)
    ensures ListFailed(read, source, cluster).Tasks? <==>
      forall a :: a in read && a.sourceSeq in source ==> source[a.sourceSeq].Task?
    ensures ListFailed(read, source, cluster).Tasks? ==>
      |ListFailed(read, source, cluster).tasks| == CountListed(read, source, cluster)
    ensures ListFailed(read, source, cluster).Tasks? ==>
      forall f :: f in ListFailed(read, source, cluster).tasks <==>
        exists a :: a in read && a.seqNo == f.seqNo && a.timestamp == f.timestamp && a.sourceSeq in source
          && source[a.sourceSeq] == f.task && f.task.Task? && (cluster == "" || f.task.cluster == cluster)
  {
    if read != [] {
      var n := |read| - 1;
      ListedExactly(read[..n], source, cluster);
      assert read == read[..n] + [read[n]];
    }
  }

  /** None of the messages that the advisories point at is among those that cannot be read. */
  predicate Reachable(read: seq<Advisory>, broken: set<nat>) {
    forall a :: a in read ==> a.sourceSeq !in broken
  }

  ghost predicate Drained(events: seq<PagerEvent>, read: seq<Advisory>) {
    StopsAfter(events, |read|) && forall i :: 0 <= i < |read| ==> events[i] == Delivers(read[i])
  }

  lemma {:induction false} DrainedOnce(events: seq<PagerEvent>, a: seq<Advisory>, b: seq<Advisory>)
    requires Drained(events, a) && Drained(events, b)
    ensures a == b
  {
    assert |a| == |b|;
    forall i | 0 <= i < |a| ensures a[i] == b[i] { assert events[i] == Delivers(a[i]); }
  }

  /** The stream held `before` when it was counted, in the order of their sequence numbers. While it
      is read, advisories go and new ones come behind; the pager delivers `read` in order, and passes
      over none that stays. */
  ghost predicate ReadInOrder(before: seq<Advisory>, stays: set<Advisory>, read: seq<Advisory>) {
    && (forall i, j :: 0 <= i < j < |before| ==> before[i].seqNo < before[j].seqNo)
    && (forall i, j :: 0 <= i < j < |read| ==> read[i].seqNo < read[j].seqNo)
    && (forall a, b :: a in read && b in before && a.seqNo <= b.seqNo ==> a in before)
    && (forall a, b :: a in read && b in before && b in stays && b.seqNo < a.seqNo ==> b in read)
  }

  /** A listing that reads as many advisories as were counted has every one of them that is still
      there, however the stream changes meanwhile. */
  lemma {:induction false} ListingMissesNothing(before: seq<Advisory>, stays: set<Advisory>, read: seq<Advisory>,
                                                b: Advisory)
    requires ReadInOrder(before, stays, read) && |read| >= |before|
    requires b in before && b in stays
    ensures b in read
  {
    if b !in read {
      var i :| 0 <= i < |before| && before[i] == b;
      var others := (set a | a in before) - {b};
      forall a | a in read ensures a in others {
        if a.seqNo == b.seqNo { SameSequence(before, a, b); }
      }
      DistinctCount(before);
      DistinctCount(read);
      var found := set a | a in read;
      Pigeonhole(found, others);
    }
  }

  lemma {:induction false} SameSequence(l: seq<Advisory>, a: Advisory, b: Advisory)
    requires forall i, j :: 0 <= i < j < |l| ==> l[i].seqNo < l[j].seqNo
    requires a in l && b in l && a.seqNo == b.seqNo
    ensures a == b
  {
    var i :| 0 <= i < |l| && l[i] == a;
    var j :| 0 <= j < |l| && l[j] == b;
    assert i == j;
  }

  lemma {:induction false} DistinctCount(l: seq<Advisory>)
    requires forall i, j :: 0 <= i < j < |l| ==> l[i].seqNo < l[j].seqNo
    ensures |(set a | a in l)| == |l|
  {
    if l != [] {
      var n := |l| - 1;
      DistinctCount(l[..n]);
      assert l == l[..n] + [l[n]];
      assert (set a | a in l) == (set a | a in l[..n]) + {l[n]};
    }
  }

  lemma {:induction false} Pigeonhole(xs: set<Advisory>, ys: set<Advisory>)
    requires xs <= ys
    ensures |xs| <= |ys|
  {
    if xs != {} {
      var x :| x in xs;
      Pigeonhole(xs - {x}, ys - {x});
    }
  }

  /** The source messages one after the other; nothing when one cannot be read or decoded. */
  method ResolveTasks(read: seq<Advisory>, source: map<nat, Message>, broken: set<nat>, cluster: string)
    returns (r: Option<seq<FailedTask>>)
    ensures r.Some? <==> Reachable(read, broken) && ListFailed(read, source, cluster).Tasks?
    ensures r.Some? ==> ListFailed(read, source, cluster) == Tasks(r.value)
  {
    var tasks: seq<FailedTask> := [];
    for i := 0 to |read|
      invariant ListFailed(read[..i], source, cluster) == Tasks(tasks)
      invariant Reachable(read[..i], broken)
    {
      assert read[..i + 1][..i] == read[..i];
      if read[i].sourceSeq in broken {
        return None;
      }
      if read[i].sourceSeq !in source { continue; }
      var task := source[read[i].sourceSeq];
      if task.Garbage? {
        UnreadableStays(read, i + 1, source, cluster);
        return None;
      }
      if cluster != "" && task.cluster != cluster { continue; }
      tasks := tasks + [FailedTask(read[i].seqNo, read[i].timestamp, task)];
    }
    assert read[..|read|] == read;
    r := Some(tasks);
  }

  lemma {:induction false} UnreadableStays(dlq: seq<Advisory>, n: nat, source: map<nat, Message>, cluster: string)
    requires n <= |dlq| && ListFailed(dlq[..n], source, cluster).Unreadable?
    ensures ListFailed(dlq, source, cluster).Unreadable?
  {
    if n < |dlq| {
      assert dlq[..|dlq| - 1][..n] == dlq[..n];
      UnreadableStays(dlq[..|dlq| - 1], n, source, cluster);
    } else {
      assert dlq[..n] == dlq;
    }
  }

  // --------------------------------------------------------------- purging

  datatype Streams = Streams(source: map<nat, Message>, dlq: seq<Advisory>)

  function Find(dlq: seq<Advisory>, seqNo: nat): (r: Option<Advisory>)
    ensures r.Some? ==> r.value in dlq && r.value.seqNo == seqNo
    ensures r.None? ==> forall a :: a in dlq ==> a.seqNo != seqNo
  {
    if dlq == [] then None else
      var n := |dlq| - 1;
      assert dlq == dlq[..n] + [dlq[n]];
      if dlq[n].seqNo == seqNo then Some(dlq[n]) else Find(dlq[..n], seqNo)
  }

  function Without(dlq: seq<Advisory>, seqNo: nat): (r: seq<Advisory>)
    ensures forall a :: a in r <==> a in dlq && a.seqNo != seqNo
  {
    if dlq == [] then [] else
      var n := |dlq| - 1;
      var front := Without(dlq[..n], seqNo);
      assert dlq == dlq[..n] + [dlq[n]];
      if dlq[n].seqNo == seqNo then front else front + [dlq[n]]
  }

  /** The purge of `seqNo` up to its first deletion, and the whole of it. */
  function Released(s: Streams, seqNo: nat): (r: Streams) {
    match Find(s.dlq, seqNo)
    case None => s
    case Some(a) => s.(source := s.source - {a.sourceSeq})
  }

  function Purged(s: Streams, seqNo: nat): (r: Streams) {
    Released(s, seqNo).(dlq := Without(s.dlq, seqNo))
  }

  /** How far a purge gets before it is interrupted or a request of it fails; `Unconfirmed` is one that
      deletes everything and still reports a failure. */
  datatype Progress = NotStarted | AfterRelease | Unconfirmed | Complete

  function AfterFailure(s: Streams, seqNo: nat, progress: Progress): (r: Streams) {
    match progress
    case NotStarted => s
    case AfterRelease => Released(s, seqNo)
    case _ => Purged(s, seqNo)
  }

  class StreamManager {
    var source: map<nat, Message>
    var dlq: seq<Advisory>

    ghost function Contents(): (s: Streams)
      reads this
    {
      Streams(source, dlq)
    }

    /** `purgeDLQEntryBySequence`. A missing advisory, or a missing message, is already purged. */
    method PurgeEntry(seqNo: nat, progress: Progress) returns (ok: bool)
      modifies this
      ensures ok ==> Contents() == Purged(old(Contents()), seqNo)
      ensures !ok ==> Contents() == AfterFailure(old(Contents()), seqNo, progress)
      ensures progress.Complete? ==> ok && NoAdvisory(dlq, seqNo)
      ensures OthersStay(old(dlq), dlq, {seqNo})
      ensures MessagesStay(old(source), old(dlq), source, {seqNo})
      ensures progress.Complete? && Find(old(dlq), seqNo).Some? ==> Find(old(dlq), seqNo).value.sourceSeq !in source
    {
      var advisory := Find(dlq, seqNo);
      if advisory.None? {
        WithoutMissing(dlq, seqNo);
        return true;
      }
      if progress.NotStarted? {
        return false;
      }
      if advisory.value.sourceSeq in source {
        source := source - {advisory.value.sourceSeq};
      }
      assert source == old(source) - {advisory.value.sourceSeq};
      if progress.AfterRelease? {
        return false;
      }
      dlq := Without(dlq, seqNo);
      return progress.Complete?;
    }

    /** `purgeDLQEntries`: a failed purge does not stop the next. */
    method PurgeEntries(failed: seq<FailedTask>, progress: seq<Progress>) returns (purged: nat)
      requires |progress| == |failed|
      modifies this
      ensures purged <= |failed| && ((forall i :: 0 <= i < |failed| ==> progress[i].Complete?) ==> purged == |failed|)
      ensures forall i :: 0 <= i < |failed| && progress[i].Complete? ==> NoAdvisory(dlq, failed[i].seqNo)
      ensures purged == |failed| ==> Contents() == PurgedAll(old(Contents()), failed)
      ensures OthersStay(old(dlq), dlq, Sequences(failed))
      ensures MessagesStay(old(source), old(dlq), source, Sequences(failed))
    {
      purged := 0;
      for i := 0 to |failed|
        invariant purged <= i && ((forall k :: 0 <= k < i ==> progress[k].Complete?) ==> purged == i)
        invariant forall k :: 0 <= k < i && progress[k].Complete? ==> NoAdvisory(dlq, failed[k].seqNo)
        invariant purged == i ==> Contents() == PurgedAll(old(Contents()), failed[..i])
        invariant OthersStay(old(dlq), dlq, Sequences(failed))
        invariant MessagesStay(old(source), old(dlq), source, Sequences(failed))
      {
        assert failed[..i + 1][..i] == failed[..i];
        assert failed[i].seqNo in Sequences(failed);
        var ok := PurgeEntry(failed[i].seqNo, progress[i]);
        if ok {
          purged := purged + 1;
        }
      }
      assert failed[..|failed|] == failed;
    }
  }

  predicate NoAdvisory(dlq: seq<Advisory>, seqNo: nat) {
    forall a :: a in dlq ==> a.seqNo != seqNo
  }

  function Sequences(failed: seq<FailedTask>): (r: set<nat>) {
    set t | t in failed :: t.seqNo
  }

  /** No advisory is new, and none is gone but those in `gone`. */
  predicate OthersStay(dlq: seq<Advisory>, dlq': seq<Advisory>, gone: set<nat>) {
    (forall a :: a in dlq' ==> a in dlq) && (forall a :: a in dlq && a.seqNo !in gone ==> a in dlq')
  }

  /** No message is new or changed, and none is gone but those an advisory in `gone` points at. */
  predicate MessagesStay(source: map<nat, Message>, dlq: seq<Advisory>, source': map<nat, Message>, gone: set<nat>) {
    && (forall n :: n in source' ==> n in source && source'[n] == source[n])
    && (forall n :: n in source && n !in source' ==> exists a :: a in dlq && a.seqNo in gone && a.sourceSeq == n)
  }

  function PurgedAll(s: Streams, failed: seq<FailedTask>): (r: Streams) {
    if failed == [] then s else Purged(PurgedAll(s, failed[..|failed| - 1]), failed[|failed| - 1].seqNo)
  }

  lemma {:induction false} WithoutMissing(dlq: seq<Advisory>, seqNo: nat)
    requires Find(dlq, seqNo).None?
    ensures Without(dlq, seqNo) == dlq
  {
    if dlq != [] {
      WithoutMissing(dlq[..|dlq| - 1], seqNo);
      assert dlq == dlq[..|dlq| - 1] + [dlq[|dlq| - 1]];
    }
  }

  /** Purging again after any interruption, or after a complete purge, ends where an uninterrupted
      purge ends. */
  lemma {:induction false} PurgeResumes(s: Streams, seqNo: nat)
    ensures Purged(Released(s, seqNo), seqNo) == Purged(s, seqNo)
    ensures Purged(Purged(s, seqNo), seqNo) == Purged(s, seqNo)
  {
    var done := Purged(s, seqNo);
    if Find(s.dlq, seqNo).Some? {
      var n := Find(s.dlq, seqNo).value.sourceSeq;
      assert s.source - {n} - {n} == s.source - {n};
    }
    assert Find(done.dlq, seqNo).None?;
    WithoutMissing(done.dlq, seqNo);
  }

  lemma {:induction false} ListAppend(dlq: seq<Advisory>, a: Advisory, source: map<nat, Message>, cluster: string)
    ensures ListFailed(dlq + [a], source, cluster) == ListOne(ListFailed(dlq, source, cluster), a, source, cluster)
  {
    assert (dlq + [a])[..|dlq|] == dlq;
  }

  /** Dropping an advisory whose message is gone does not change the listing. */
  lemma {:induction false} OrphansAreNotListed(dlq: seq<Advisory>, source: map<nat, Message>, cluster: string,
                                               seqNo: nat)
    requires forall a :: a in dlq && a.seqNo == seqNo ==> a.sourceSeq !in source
    ensures ListFailed(Without(dlq, seqNo), source, cluster) == ListFailed(dlq, source, cluster)
  {
    if dlq != [] {
      var n := |dlq| - 1;
      var front := Without(dlq[..n], seqNo);
      forall a | a in dlq[..n] ensures a in dlq {}
      OrphansAreNotListed(dlq[..n], source, cluster, seqNo);
      ListAppend(front, dlq[n], source, cluster);
    }
  }

  /** At every point of a purge the listing of failed tasks is the one before it or the one after. */
  lemma {:induction false} ListingNeverInBetween(s: Streams, seqNo: nat, cluster: string)
    requires forall a, b :: a in s.dlq && b in s.dlq && a.seqNo == b.seqNo ==> a == b
    ensures var now, after := Released(s, seqNo), Purged(s, seqNo);
      ListFailed(now.dlq, now.source, cluster) == ListFailed(after.dlq, after.source, cluster)
  {
    if Find(s.dlq, seqNo).None? {
      WithoutMissing(s.dlq, seqNo);
    } else {
      OrphansAreNotListed(s.dlq, Released(s, seqNo).source, cluster, seqNo);
    }
  }

  // ------------------------------------------------------------------ runs

  /** Where a purge is: about to read its advisory; about to look for the message; about to delete
      the message; about to delete the advisory, the message being gone. */
  datatype Purge =
    | Reading(seqNo: nat)
    | Looking(seqNo: nat, target: nat)
    | Releasing(seqNo: nat, target: nat)
    | Forgetting(seqNo: nat, target: nat)

  datatype Queue = Queue(
    streams: Streams,
    nextSource: nat,
    nextDlq: nat,
    exhausted: set<nat>,
    purges: map<nat, Purge>)

  datatype Step =
    | Publish(m: Message)
    | Ack(n: nat)
    | Exhaust(n: nat, timestamp: int)
    | PurgeStarts(id: nat, seqNo: nat)
    | PurgeReads(id: nat)
    | PurgeLooks(id: nat)
    | PurgeReleases(id: nat)
    | PurgeForgets(id: nat)
    | PurgeStops(id: nat)

  function SetPurge(q: Queue, id: nat, p: Purge): (q': Queue) {
    q.(purges := q.purges[id := p])
  }

  /** Sequence numbers are never reused; retrying a task publishes it again. Any number of purges run
      at once. A deletion of something
      that is gone is an error, and ends the purge; so does any other failure. */
  ghost predicate Next(q: Queue, step: Step, q': Queue) {
    match step
    case Publish(m) =>
      q' == q.(streams := q.streams.(source := q.streams.source[q.nextSource := m]), nextSource := q.nextSource + 1)
    case Ack(n) => q' == q.(streams := q.streams.(source := q.streams.source - {n}))
    case Exhaust(n, timestamp) =>
      && n in q.streams.source && n !in q.exhausted
      && q' == q.(streams := q.streams.(dlq := q.streams.dlq + [Advisory(q.nextDlq, timestamp, n)]),
                  nextDlq := q.nextDlq + 1, exhausted := q.exhausted + {n})
    case PurgeStarts(id, seqNo) => id !in q.purges && q' == SetPurge(q, id, Reading(seqNo))
    case PurgeReads(id) =>
      && id in q.purges && q.purges[id].Reading?
      && (match Find(q.streams.dlq, q.purges[id].seqNo)
          case None => q' == q.(purges := q.purges - {id})
          case Some(a) => q' == SetPurge(q, id, Looking(a.seqNo, a.sourceSeq)))
    case PurgeLooks(id) =>
      && id in q.purges && q.purges[id].Looking?
      && var p := q.purges[id];
      && q' == SetPurge(q, id, if p.target in q.streams.source then Releasing(p.seqNo, p.target)
                               else Forgetting(p.seqNo, p.target))
    case PurgeReleases(id) =>
      && id in q.purges && q.purges[id].Releasing? && q.purges[id].target in q.streams.source
      && var p := q.purges[id];
      && q' == SetPurge(q.(streams := q.streams.(source := q.streams.source - {p.target})),
                        id, Forgetting(p.seqNo, p.target))
    case PurgeForgets(id) =>
      && id in q.purges && q.purges[id].Forgetting?
      && q' == q.(streams := q.streams.(dlq := Without(q.streams.dlq, q.purges[id].seqNo)), purges := q.purges - {id})
    case PurgeStops(id) => q' == q.(purges := q.purges - {id})
  }

  const INITIAL := Queue(Streams(map[], []), 0, 0, {}, map[])

  ghost predicate IsRun(run: seq<Queue>, steps: seq<Step>) {
    && |run| == |steps| + 1 && run[0] == INITIAL
    && forall i :: 0 <= i < |steps| ==> StepAt(run, steps, i)
  }

  ghost predicate StepAt(run: seq<Queue>, steps: seq<Step>, i: nat)
    requires i < |steps| && |run| == |steps| + 1
  {
    Next(run[i], steps[i], run[i + 1])
  }

  ghost predicate HasAdvisory(s: Streams, n: nat) {
    exists a :: a in s.dlq && a.sourceSeq == n
  }

  /** A purge knows the right message for its advisory, and only forgets the advisory of a message
      that is gone for good. */
  ghost predicate PurgeFits(q: Queue, p: Purge) {
    !p.Reading? ==>
      && p.target < q.nextSource && p.seqNo < q.nextDlq
      && (forall a :: a in q.streams.dlq && a.seqNo == p.seqNo ==> a.sourceSeq == p.target)
      && (p.Forgetting? ==> p.target !in q.streams.source)
      && (p.target in q.streams.source ==> Find(q.streams.dlq, p.seqNo).Some?)
  }

  ghost predicate Invariant(q: Queue) {
    && (forall n :: n in q.streams.source ==> n < q.nextSource)
    && (forall n :: n in q.exhausted ==> n < q.nextSource)
    && (forall a :: a in q.streams.dlq ==> a.seqNo < q.nextDlq && a.sourceSeq < q.nextSource)
    && (forall a, b :: a in q.streams.dlq && b in q.streams.dlq && a.seqNo == b.seqNo ==> a == b)
    && (forall id :: id in q.purges ==> PurgeFits(q, q.purges[id]))
    && (forall n :: n in q.streams.source && n in q.exhausted ==> HasAdvisory(q.streams, n))
  }

  lemma {:induction false} StepKeepsPurges(q: Queue, step: Step, q': Queue, id: nat)
    requires Invariant(q) && Next(q, step, q') && id in q'.purges
    ensures PurgeFits(q', q'.purges[id])
  {
    if id in q.purges { assert PurgeFits(q, q.purges[id]); }
  }

  lemma {:induction false} StepKeepsAdvisories(q: Queue, step: Step, q': Queue, n: nat)
    requires Invariant(q) && Next(q, step, q')
    requires n in q'.streams.source && n in q'.exhausted
    ensures HasAdvisory(q'.streams, n)
  {
    if n in q.exhausted {
      assert n in q.streams.source;
      var a :| a in q.streams.dlq && a.sourceSeq == n;
      if step.PurgeForgets? { assert PurgeFits(q, q.purges[step.id]); }
      assert a in q'.streams.dlq;
    } else {
      assert Advisory(q.nextDlq, step.timestamp, n) in q'.streams.dlq;
    }
  }

  lemma {:induction false} StepKeepsInvariant(q: Queue, step: Step, q': Queue)
    requires Invariant(q) && Next(q, step, q')
    ensures Invariant(q')
  {
    forall id | id in q'.purges ensures PurgeFits(q', q'.purges[id]) { StepKeepsPurges(q, step, q', id); }
    forall n | n in q'.streams.source && n in q'.exhausted ensures HasAdvisory(q'.streams, n) {
      StepKeepsAdvisories(q, step, q', n);
    }
  }

  /** In every run, with any number of purges stopped anywhere, each message that exhausted its
      deliveries and is still stored has an advisory. */
  lemma {:induction false} ExhaustedMessagesKeepAdvisory(run: seq<Queue>, steps: seq<Step>, i: nat)
    requires IsRun(run, steps) && i < |run|
    ensures Invariant(run[i])
    ensures forall n :: n in run[i].streams.source && n in run[i].exhausted ==> HasAdvisory(run[i].streams, n)
  {
    if i > 0 {
      ExhaustedMessagesKeepAdvisory(run, steps, i - 1);
      assert StepAt(run, steps, i - 1);
      StepKeepsInvariant(run[i - 1], steps[i - 1], run[i]);
    }
  }

  // ------------------------------------------- what purges show in a run

  function Shown(q: Queue, cluster: string): (r: Listing) {
    ListFailed(q.streams.dlq, q.streams.source, cluster)
  }

  predicate ByPurge(step: Step) {
    || step.PurgeStarts? || step.PurgeReads? || step.PurgeLooks?
    || step.PurgeReleases? || step.PurgeForgets? || step.PurgeStops?
  }

  /** In every run, with purges interleaved and stopped anywhere: no step of a purge changes the
      listing of failed tasks, except the one that deletes the message, and that one changes it to
      the listing after the whole purge. */
  lemma {:induction false} PurgeShowsBeforeOrAfter(run: seq<Queue>, steps: seq<Step>, i: nat, cluster: string)
    requires IsRun(run, steps) && i < |steps| && ByPurge(steps[i])
    ensures !steps[i].PurgeReleases? ==> Shown(run[i + 1], cluster) == Shown(run[i], cluster)
    ensures steps[i].PurgeReleases? ==> steps[i].id in run[i].purges
    ensures steps[i].PurgeReleases? ==> (
      var after := Purged(run[i].streams, run[i].purges[steps[i].id].seqNo);
      Shown(run[i + 1], cluster) == ListFailed(after.dlq, after.source, cluster))
  {
    var q, step := run[i], steps[i];
    ExhaustedMessagesKeepAdvisory(run, steps, i);
    assert StepAt(run, steps, i);
    if step.PurgeForgets? {
      assert PurgeFits(q, q.purges[step.id]);
      OrphansAreNotListed(q.streams.dlq, q.streams.source, cluster, q.purges[step.id].seqNo);
    } else if step.PurgeReleases? {
      assert PurgeFits(q, q.purges[step.id]);
      ListingNeverInBetween(q.streams, q.purges[step.id].seqNo, cluster);
    }
  }

  /** Where a purge of `seqNo` that began with the streams `s` is, as long as nothing else happens. */
  ghost predicate PurgePhase(s: Streams, q: Queue, id: nat, seqNo: nat) {
    if id !in q.purges then q.streams == Purged(s, seqNo) else
      && q.purges[id].seqNo == seqNo
      && (q.purges[id].Forgetting? ==> q.streams == Released(s, seqNo))
      && (!q.purges[id].Forgetting? ==> q.streams == s)
      && (!q.purges[id].Reading? ==>
            Find(s.dlq, seqNo).Some? && Find(s.dlq, seqNo).value.sourceSeq == q.purges[id].target)
  }

  predicate Advances(step: Step, id: nat) {
    (step.PurgeReads? || step.PurgeLooks? || step.PurgeReleases? || step.PurgeForgets?) && step.id == id
  }

  lemma {:induction false} PurgeAdvances(s: Streams, q: Queue, step: Step, q': Queue, id: nat, seqNo: nat)
    requires PurgePhase(s, q, id, seqNo) && Next(q, step, q') && Advances(step, id)
    ensures PurgePhase(s, q', id, seqNo)
  {
    match step
    case PurgeReads(_) =>
      if Find(s.dlq, seqNo).None? { WithoutMissing(s.dlq, seqNo); }
    case PurgeLooks(_) =>
      var n := q.purges[id].target;
      if n !in s.source { assert s.source - {n} == s.source; }
    case _ =>
  }

  /** Purge `id` of `seqNo` starts at `start`, and up to `end` nothing else happens. */
  ghost predicate LonePurge(run: seq<Queue>, steps: seq<Step>, start: nat, end: nat, id: nat, seqNo: nat) {
    && IsRun(run, steps) && start < end < |run| && steps[start] == PurgeStarts(id, seqNo)
    && forall k :: start < k < end ==> Advances(steps[k], id)
  }

  lemma {:induction false} LonePurgePhase(run: seq<Queue>, steps: seq<Step>, start: nat, end: nat, id: nat, seqNo: nat)
    requires LonePurge(run, steps, start, end, id, seqNo)
    ensures PurgePhase(run[start].streams, run[end], id, seqNo)
    decreases end
  {
    var k := end - 1;
    assert StepAt(run, steps, k);
    if start < k {
      LonePurgePhase(run, steps, start, k, id, seqNo);
      PurgeAdvances(run[start].streams, run[k], steps[k], run[end], id, seqNo);
    }
  }

  /** In every run: a purge that is stopped anywhere, and run again to its end with nothing else in
      between, leaves the streams as a purge that was never stopped. */
  lemma {:induction false} RerunCompletes(run: seq<Queue>, steps: seq<Step>, start: nat, stop: nat, end: nat,
                                          id: nat, id': nat, seqNo: nat)
    requires LonePurge(run, steps, start, stop, id, seqNo)
    requires stop < |steps| && steps[stop] == PurgeStops(id)
    requires LonePurge(run, steps, stop + 1, end, id', seqNo) && id' !in run[end].purges
    ensures run[end].streams == Purged(run[start].streams, seqNo)
  {
    LonePurgePhase(run, steps, start, stop, id, seqNo);
    assert StepAt(run, steps, stop);
    LonePurgePhase(run, steps, stop + 1, end, id', seqNo);
    PurgeResumes(run[start].streams, seqNo);
  }

  /** So a failed task that is still stored is in the listing of its cluster, as long as the listing
      can be read at all. */
  lemma {:induction false} FailedTaskIsListed(dlq: seq<Advisory>, source: map<nat, Message>, n: nat, cluster: string)
    requires HasAdvisory(Streams(source, dlq), n) && n in source && source[n].Task?
    requires cluster == "" || source[n].cluster == cluster
    requires ListFailed(dlq, source, cluster).Tasks?
    ensures exists f :: f in ListFailed(dlq, source, cluster).tasks && f.task == source[n]
  {
    var k := |dlq| - 1;
    var a :| a in dlq && a.sourceSeq == n;
    assert dlq == dlq[..k] + [dlq[k]];
    if dlq[k].sourceSeq == n {
      assert FailedTask(dlq[k].seqNo, dlq[k].timestamp, source[n]) in ListFailed(dlq, source, cluster).tasks;
    } else {
      assert a in dlq[..k];
      FailedTaskIsListed(dlq[..k], source, n, cluster);
      var f :| f in ListFailed(dlq[..k], source, cluster).tasks && f.task == source[n];
      assert f in ListFailed(dlq, source, cluster).tasks;
    }
  }
}
