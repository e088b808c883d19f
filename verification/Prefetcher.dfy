/** The bookkeeping of the WAL prefetcher: which names are being downloaded, are ready in the spool
    directory, or failed. Entries are objects that the map, the goroutine downloading the file and
    the waiting request all point to; here they are numbered. */
module Prefetcher {
  import opened WalNames
  import opened SegmentNames
  import opened WalFormat

  datatype EntryState = Downloading | Ready | Failed(missing: bool)

  datatype Entry = Entry(name: string, state: EntryState, isPrefetch: bool)

  /** How far a download is: waiting for a slot, its file just created, or `sent` bytes of `data` written. */
  datatype Download = Queued | Opened | Streaming(data: Bytes, sent: nat)

  datatype Book = Book(
    entries: map<string, nat>,
    cells: map<nat, Entry>,
    downloads: map<nat, Download>,
    nextId: nat,
    segmentSize: nat,
    segmentsPerLog: nat)

  const DEFAULT_PREFETCH_COUNT: nat := 2

  const EMPTY := Book(map[], map[], map[], 0, 0, 0)

  function StartDownload(b: Book, name: string, isPrefetch: bool): (b': Book) {
    b.(entries := b.entries[name := b.nextId],
       cells := b.cells[b.nextId := Entry(name, Downloading, isPrefetch)],
       downloads := b.downloads[b.nextId := Queued],
       nextId := b.nextId + 1)
  }

  /** The entry of `name` that is worth waiting for: a failed one is retried. */
  predicate Usable(b: Book, name: string) {
    name in b.entries && b.entries[name] in b.cells && !b.cells[b.entries[name]].state.Failed?
  }

  /** The locked part of a request: find the entry of `name`, or start downloading it. */
  function Acquire(b: Book, name: string): (b': Book) {
    if Usable(b, name) then b else StartDownload(b, name, false)
  }

  /** A prefetch that has finished is waiting in the spool. */
  predicate IsHit(b: Book, name: string) {
    Usable(b, name) && b.cells[b.entries[name]] == Entry(name, Ready, true)
  }

  function Forget(b: Book, name: string): (b': Book) {
    b.(entries := b.entries - {name})
  }

  /** A downloaded segment tells its size, if that can be read; the first positive size stays. */
  function Learn(b: Book, name: string, size: Option<nat>): (b': Book) {
    if |name| == WAL_NAME_LENGTH && size.Some? && size.value > 0 && b.segmentSize == 0
    then b.(segmentSize := size.value, segmentsPerLog := LOG_BYTES / size.value)
    else b
  }

  function Finish(b: Book, id: nat, state: EntryState): (b': Book)
    requires id in b.cells
  {
    b.(cells := b.cells[id := b.cells[id].(state := state)], downloads := b.downloads - {id})
  }

  function EnsureDownload(b: Book, name: string): (b': Book)
    ensures b'.segmentsPerLog == b.segmentsPerLog
  {
    if name in b.entries then b else StartDownload(b, name, true)
  }

  function EnsureAll(b: Book, names: seq<string>): (b': Book)
    decreases |names|
  {
    if names == [] then b else EnsureAll(EnsureDownload(b, names[0]), names[1..])
  }

  /** The names of the `count` segments after `name`, fewer when there is no next name. */
  function Upcoming(next: string -> Option<string>, name: string, count: nat): (names: seq<string>)
    decreases count
  {
    if count == 0 then [] else
      match next(name)
      case None => []
      case Some(following) => [following] + Upcoming(next, following, count - 1)
  }

  lemma {:induction false} RepeatedFromNext(next: string -> Option<string>, name: string, k: nat)
    ensures Repeated(next, name, k + 1) == if next(name).None? then None else Repeated(next, next(name).value, k)
  {
    if k > 0 {
      RepeatedFromNext(next, name, k - 1);
    }
  }

  lemma {:induction false} UpcomingAt(next: string -> Option<string>, name: string, count: nat, k: nat)
    requires k < count
    ensures var names := Upcoming(next, name, count);
      Repeated(next, name, k + 1) == if k < |names| then Some(names[k]) else None
    decreases count
  {
    RepeatedFromNext(next, name, k);
    if next(name).Some? && k > 0 {
      UpcomingAt(next, next(name).value, count - 1, k - 1);
    }
  }

  /** After the segment at `lsn` come the names of the segments at `lsn + size`, `lsn + 2 * size` and
      so on, up to the end of the log space. */
  lemma {:induction false} UpcomingSegments(timeline: nat, lsn: nat, size: nat, count: nat, k: nat, last: nat)
    requires timeline < LOG_BYTES && lsn < LSN_LIMIT && SegmentBoundary(lsn, size)
    requires k < count && last == lsn + (k + 1) * size
    ensures var names := Upcoming(Successor(SegmentsPerLog(size)), SegmentName(timeline, lsn, size), count);
      && (k < |names| <==> last <= LSN_LIMIT)
      && (k < |names| ==> names[k] == SegmentName(timeline, last, size))
  {
    SuccessorNames(timeline, lsn, size, k + 1, last);
    UpcomingAt(Successor(SegmentsPerLog(size)), SegmentName(timeline, lsn, size), count, k);
  }

  /** Each upcoming name gets a download, unless it has an entry. */
  function Prefetch(b: Book, name: string, count: nat): (b': Book) {
    EnsureAll(b, Upcoming(Successor(b.segmentsPerLog), name, count))
  }

  /** `names` are the first names that follow `name`. */
  ghost predicate Chain(next: string -> Option<string>, name: string, names: seq<string>) {
    forall k :: 0 <= k < |names| ==> next(LastOf(name, names[..k])) == Some(names[k])
  }

  function LastOf(name: string, names: seq<string>): (last: string) {
    if names == [] then name else names[|names| - 1]
  }

  lemma {:induction false} ChainIsUpcoming(next: string -> Option<string>, name: string, names: seq<string>, count: nat)
    requires Chain(next, name, names) && |names| <= count
    requires |names| == count || next(LastOf(name, names)).None?
    ensures Upcoming(next, name, count) == names
    decreases count
  {
    if names != [] {
      var rest := names[1..];
      assert next(LastOf(name, names[..0])) == Some(names[0]);
      forall k | 0 <= k < |rest| ensures next(LastOf(names[0], rest[..k])) == Some(rest[k]) {
        assert LastOf(names[0], rest[..k]) == LastOf(name, names[..k + 1]);
      }
      ChainIsUpcoming(next, names[0], rest, count - 1);
    }
  }

  lemma {:induction false} ChainOneMore(next: string -> Option<string>, name: string, names: seq<string>,
                                        following: string)
    requires Chain(next, name, names) && next(LastOf(name, names)) == Some(following)
    ensures Chain(next, name, names + [following])
  {
    var more := names + [following];
    forall k | 0 <= k < |more| ensures next(LastOf(name, more[..k])) == Some(more[k]) {
      assert more[..k] == names[..k];
      if k == |names| { assert names[..k] == names; }
    }
  }

  /** The entry of `name` is a new one, with its download queued. */
  ghost predicate IsNewPrefetch(b: Book, b': Book, name: string) {
    && name in b'.entries && b'.entries[name] >= b.nextId
    && b'.entries[name] in b'.cells && b'.cells[b'.entries[name]] == Entry(name, Downloading, true)
    && b'.entries[name] in b'.downloads && b'.downloads[b'.entries[name]] == Queued
  }

  /** Exactly the names that had no entry get a new one, and what was there stays. */
  lemma {:induction false} EnsureAllMeans(b: Book, names: seq<string>)
    ensures var b' := EnsureAll(b, names);
      && (forall n :: n in b'.entries <==> n in b.entries || n in names)
      && (forall n :: n in b.entries ==> b'.entries[n] == b.entries[n])
      && (forall n :: n in b'.entries && n !in b.entries ==> IsNewPrefetch(b, b', n))
      && (forall id :: id < b.nextId ==>
            (id in b'.cells <==> id in b.cells) && (id in b.cells ==> b'.cells[id] == b.cells[id]))
      && (forall id :: id < b.nextId ==>
            (id in b'.downloads <==> id in b.downloads) && (id in b.downloads ==> b'.downloads[id] == b.downloads[id]))
      && b'.nextId >= b.nextId && b'.segmentSize == b.segmentSize && b'.segmentsPerLog == b.segmentsPerLog
      && (b'.nextId == b.nextId || exists n :: n in names && n !in b.entries)
    decreases |names|
  {
    if names != [] {
      var one := EnsureDownload(b, names[0]);
      EnsureAllMeans(one, names[1..]);
      assert names == [names[0]] + names[1..];
      assert names[0] in names;
    }
  }

  lemma {:induction false} EnsureOneMore(b: Book, names: seq<string>, name: string)
    ensures EnsureAll(b, names + [name]) == EnsureDownload(EnsureAll(b, names), name)
    decreases |names|
  {
    if names == [] {
      assert (names + [name])[1..] == [];
    } else {
      assert (names + [name])[1..] == names[1..] + [name];
      EnsureOneMore(EnsureDownload(b, names[0]), names[1..], name);
    }
  }

  class WalPrefetcher {
    var entries: map<string, nat>
    var cells: map<nat, Entry>
    var downloads: map<nat, Download>
    var nextId: nat
    var segmentSize: nat
    var segmentsPerLog: nat
    const prefetchCount: nat

    ghost function Snapshot(): (b: Book)
      reads this
    {
      Book(entries, cells, downloads, nextId, segmentSize, segmentsPerLog)
    }

    /** A count that is not positive means the default. */
    constructor (prefetchCount: int)
      ensures Snapshot() == EMPTY
      ensures this.prefetchCount == if prefetchCount <= 0 then DEFAULT_PREFETCH_COUNT else prefetchCount
    {
      this.prefetchCount := if prefetchCount <= 0 then DEFAULT_PREFETCH_COUNT else prefetchCount;
      entries, cells, downloads, nextId, segmentSize, segmentsPerLog := map[], map[], map[], 0, 0, 0;
    }

    method StartDownloadLocked(name: string, isPrefetch: bool) returns (id: nat)
      modifies this
      ensures Snapshot() == StartDownload(old(Snapshot()), name, isPrefetch) && id == old(nextId)
      ensures entries == old(entries)[name := id] && cells == old(cells)[id := Entry(name, Downloading, isPrefetch)]
      ensures downloads == old(downloads)[id := Queued] && nextId > id
    {
      id := nextId;
      cells := cells[id := Entry(name, Downloading, isPrefetch)];
      entries := entries[name := id];
      downloads := downloads[id := Queued];
      nextId := nextId + 1;
    }

    /** The locked part of `getCompleteWAL`. */
    method AcquireEntry(name: string) returns (id: nat, hit: bool)
      requires name in entries ==> entries[name] in cells && cells[entries[name]].name == name
      modifies this
      ensures Snapshot() == Acquire(old(Snapshot()), name)
      ensures name in entries && id == entries[name]
      ensures hit <==> IsHit(old(Snapshot()), name)
      ensures hit <==> name in old(entries) && cells[id].isPrefetch && cells[id].state.Ready?
      ensures name in old(entries) && !old(cells)[old(entries)[name]].state.Failed? ==>
        id == old(entries)[name] && cells == old(cells) && downloads == old(downloads)
      ensures !(name in old(entries) && !old(cells)[old(entries)[name]].state.Failed?) ==>
        id == old(nextId) && id in cells && cells[id] == Entry(name, Downloading, false) && id in downloads
      ensures forall n :: n != name ==>
        (n in entries <==> n in old(entries)) && (n in entries ==> entries[n] == old(entries)[n])
    {
      var exists_ := name in entries;
      if exists_ && cells[entries[name]].state.Failed? {
        entries := entries - {name};
        exists_ := false;
      }
      hit := exists_ && cells[entries[name]].isPrefetch && cells[entries[name]].state.Ready?;
      if !exists_ {
        assert entries[name := nextId] == old(entries)[name := nextId];
        id := StartDownloadLocked(name, false);
      } else {
        id := entries[name];
      }
    }

    method CleanupEntry(name: string)
      modifies this
      ensures Snapshot() == Forget(old(Snapshot()), name)
      ensures entries == old(entries) - {name} && cells == old(cells) && downloads == old(downloads)
    {
      entries := entries - {name};
    }

    /** `downloadToSpool` after a successful download, before the entry becomes ready. */
    method DownloadLearns(name: string, size: Option<nat>)
      modifies this`segmentSize, this`segmentsPerLog
      ensures Snapshot() == Learn(old(Snapshot()), name, size)
      ensures var learns := |name| == 24 && size.Some? && size.value > 0 && old(segmentSize) == 0;
        && segmentSize == (if learns then size.value else old(segmentSize))
        && segmentsPerLog == (if learns then LOG_BYTES / size.value else old(segmentsPerLog))
    {
      if |name| == WAL_NAME_LENGTH {
        LearnSegmentSize(size);
      }
    }

    method LearnSegmentSize(size: Option<nat>)
      modifies this`segmentSize, this`segmentsPerLog
      ensures var learns := size.Some? && size.value > 0 && old(segmentSize) == 0;
        && segmentSize == (if learns then size.value else old(segmentSize))
        && segmentsPerLog == (if learns then LOG_BYTES / size.value else old(segmentsPerLog))
    {
      if size.None? || size.value == 0 {
        return;
      }
      if segmentSize == 0 {
        segmentSize := size.value;
        segmentsPerLog := LOG_BYTES / size.value;
      }
    }

    /** The end of `downloadToSpool`. */
    method DownloadEnds(id: nat, state: EntryState)
      requires id in cells
      modifies this
      ensures Snapshot() == Finish(old(Snapshot()), id, state)
      ensures cells == old(cells)[id := old(cells)[id].(state := state)] && downloads == old(downloads) - {id}
    {
      cells := cells[id := cells[id].(state := state)];
      downloads := downloads - {id};
    }

    /** Every following name gets a download of its own unless it has an entry; nothing else changes. */
    method TriggerPrefetch(current: string)
      modifies this
      ensures Snapshot() == if old(segmentsPerLog) == 0 then old(Snapshot())
                            else Prefetch(old(Snapshot()), current, prefetchCount)
      ensures var names := if old(segmentsPerLog) == 0 then [] else
          Upcoming(Successor(old(segmentsPerLog)), current, prefetchCount);
        forall n :: n in entries <==> n in old(entries) || n in names
      ensures forall n :: n in old(entries) ==> entries[n] == old(entries)[n]
      ensures forall n :: n in entries && n !in old(entries) ==>
        && entries[n] >= old(nextId)
        && entries[n] in cells && cells[entries[n]] == Entry(n, Downloading, true)
        && entries[n] in downloads && downloads[entries[n]] == Queued
      ensures forall id :: id < old(nextId) && id in old(cells) ==> id in cells && cells[id] == old(cells)[id]
      ensures forall id :: id < old(nextId) && id in old(downloads) ==>
        id in downloads && downloads[id] == old(downloads)[id]
    {
      if segmentsPerLog == 0 {
        return;
      }
      var walName := current;
      ghost var names: seq<string>, next: string -> Option<string> := [], Successor(segmentsPerLog);
      EnsureAllMeans(Snapshot(), Upcoming(next, current, prefetchCount));
      for i := 0 to prefetchCount
        invariant segmentsPerLog == old(segmentsPerLog) && walName == LastOf(current, names)
        invariant |names| == i && Chain(next, current, names)
        invariant Snapshot() == EnsureAll(old(Snapshot()), names)
      {
        var following := NextWALName(walName, segmentsPerLog);
        if following.None? {
          ChainIsUpcoming(next, current, names, prefetchCount);
          return;
        }
        walName := following.value;
        ChainOneMore(next, current, names, walName);
        EnsureOneMore(old(Snapshot()), names, walName);
        EnsureDownloadLocked(walName);
        names := names + [walName];
      }
      ChainIsUpcoming(next, current, names, prefetchCount);
    }

    method EnsureDownloadLocked(name: string)
      modifies this
      ensures Snapshot() == EnsureDownload(old(Snapshot()), name)
    {
      if name !in entries {
        var _ := StartDownloadLocked(name, true);
      }
    }
  }
}
