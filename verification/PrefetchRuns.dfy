/** Runs of the prefetcher: requests come one at a time, downloads go on in the background at their
    own pace, and files appear and disappear on the server. The content of a complete file never
    changes; a partial one may. */
module PrefetchRuns {
  import opened WalNames
  import opened SegmentNames
  import opened Prefetcher
  import opened WalFormat

  /** What has happened, in order. `Prefetched` is the successful end of a speculative download,
      `NotFound` a download that found the server without the file. */
  datatype Event =
    | Began(name: string)
    | Prefetched(name: string, id: nat)
    | NotFound(name: string)
    | Delivered(name: string, bytes: Bytes, hit: bool, fromPartial: bool)

  /** Where the request is; `began` is the length of the log when it started. */
  datatype Request =
    | Idle
    | Waiting(name: string, id: nat, hit: bool, began: nat)
    | CleaningUp(name: string, began: nat, renamed: bool)
    | RemovingFile(name: string, began: nat)
    | FetchingDirect(name: string, began: nat)
    | FetchingPartial(name: string, began: nat)
    | Prefetching(name: string)

  datatype World = World(
    book: Book,
    spool: map<string, Bytes>,
    server: map<string, Bytes>,
    request: Request,
    log: seq<Event>)

  datatype Outcome = Got | Missing | Broke

  datatype Step =
    | ServerGains(name: string)
    | ServerLoses(name: string)
    | ServerWritesPartial(name: string, bytes: Bytes)
    | DownloadOpens(id: nat)
    | DownloadStreams(id: nat)
    | DownloadReceives(id: nat, sent: nat)
    | DownloadLearns(id: nat, size: Option<nat>)
    | DownloadSucceeds(id: nat)
    | DownloadFails(id: nat, missing: bool)
    | RequestBegins(name: string)
    | RequestCancelled
    | RequestRenames(works: bool)
    | RequestCleansUp
    | RequestRemovesFile
    | RequestSeesFailure
    | FetchesDirect(outcome: Outcome)
    | FetchesPartial(outcome: Outcome)
    | TriggersPrefetch(count: nat)

  /** Complete files: the names PostgreSQL asks for. */
  predicate Complete(name: string) {
    !EndsWith(name, PARTIAL_SUFFIX)
  }

  /** Only a name without extension can have a partial variant. */
  predicate CanHavePartial(name: string) {
    '.' !in name
  }

  // ------------------------------------------------------- the downloads

  ghost predicate DownloadStep(w: World, step: Step, w': World) {
    && (step.DownloadOpens? || step.DownloadStreams? || step.DownloadReceives? || step.DownloadLearns?
        || step.DownloadSucceeds? || step.DownloadFails?)
    && step.id in w.book.downloads && step.id in w.book.cells
    && var name, d := w.book.cells[step.id].name, w.book.downloads[step.id];
    match step
    case DownloadOpens(id) =>
      && d.Queued?
      && w' == w.(book := SetDownload(w.book, id, Opened), spool := w.spool[name := []])
    case DownloadStreams(id) =>
      && d.Opened? && name in w.server
      && w' == w.(book := SetDownload(w.book, id, Streaming(w.server[name], 0)))
    case DownloadReceives(id, sent) =>
      && d.Streaming? && d.sent <= sent <= |d.data| && name in w.spool
      && w' == w.(book := SetDownload(w.book, id, d.(sent := sent)),
                  spool := w.spool[name := w.spool[name] + d.data[d.sent..sent]])
    case DownloadLearns(_, size) =>
      && d.Streaming? && d.sent == |d.data|
      && (size.Some? ==> name in w.spool && size.value == |w.spool[name]|)
      && w' == w.(book := Learn(w.book, name, size))
    case DownloadSucceeds(id) =>
      && d.Streaming? && d.sent == |d.data|
      && w' == w.(book := Finish(w.book, id, Ready),
                  log := if w.book.cells[id].isPrefetch then w.log + [Prefetched(name, id)] else w.log)
    case DownloadFails(id, missing) =>
      && (missing ==> d.Opened? && name !in w.server)
      && w' == w.(book := Finish(w.book, id, Failed(missing)),
                  spool := if d.Queued? then w.spool else w.spool - {name},
                  log := if missing then w.log + [NotFound(name)] else w.log)
  }

  function SetDownload(b: Book, id: nat, d: Download): (b': Book) {
    b.(downloads := b.downloads[id := d])
  }

  // --------------------------------------------------------- the requests

  ghost predicate RequestStep(w: World, step: Step, w': World) {
    match step
    case RequestBegins(name) =>
      && w.request.Idle? && Complete(name)
      && var b := Acquire(w.book, name);
      && name in b.entries
      && w' == w.(book := b, log := w.log + [Began(name)],
                  request := Waiting(name, b.entries[name], IsHit(w.book, name), |w.log|))
    case RequestCancelled => w.request.Waiting? && w' == w.(request := Idle)
    case RequestRenames(works) =>
      && w.request.Waiting? && w.request.id in w.book.cells && w.book.cells[w.request.id].state.Ready?
      && var name := w.request.name;
      && (works ==> name in w.spool)
      && w' == w.(spool := if works then w.spool - {name} else w.spool,
                  log := if works then w.log + [Delivered(name, w.spool[name], w.request.hit, false)] else w.log,
                  request := CleaningUp(name, w.request.began, works))
    case RequestCleansUp =>
      && w.request.CleaningUp?
      && var name := w.request.name;
      && w' == w.(book := Forget(w.book, name),
                  request := if w.request.renamed then Prefetching(name) else RemovingFile(name, w.request.began))
    case RequestRemovesFile =>
      && w.request.RemovingFile?
      && w' == w.(spool := w.spool - {w.request.name}, request := FetchingDirect(w.request.name, w.request.began))
    case RequestSeesFailure =>
      && w.request.Waiting? && w.request.id in w.book.cells && w.book.cells[w.request.id].state.Failed?
      && w' == w.(request := AfterNotFound(w.request.name, w.request.began, w.book.cells[w.request.id].state.missing))
    case FetchesDirect(outcome) =>
      && w.request.FetchingDirect?
      && var name := w.request.name;
      && (match outcome
          case Got =>
            && name in w.server
            && w' == w.(log := w.log + [Delivered(name, w.server[name], false, false)], request := Prefetching(name))
          case Missing =>
            && name !in w.server
            && w' == w.(log := w.log + [NotFound(name)], request := AfterNotFound(name, w.request.began, true))
          case Broke => w' == w.(request := Idle))
    case FetchesPartial(outcome) =>
      && w.request.FetchingPartial?
      && var name := w.request.name + PARTIAL_SUFFIX;
      && (match outcome
          case Got =>
            && name in w.server
            && w' == w.(log := w.log + [Delivered(w.request.name, w.server[name], false, true)], request := Idle)
          case _ => w' == w.(request := Idle))
    case TriggersPrefetch(count) =>
      && w.request.Prefetching?
      && w' == w.(request := Idle,
                  book := if w.book.segmentsPerLog == 0 then w.book else Prefetch(w.book, w.request.name, count))
    case _ => false
  }

  /** A missing complete file sends the request after the partial one, if the name can have one. */
  function AfterNotFound(name: string, began: nat, missing: bool): (r: Request) {
    if missing && CanHavePartial(name) then FetchingPartial(name, began) else Idle
  }

  ghost predicate ServerStep(content: string -> Bytes, w: World, step: Step, w': World) {
    match step
    case ServerGains(name) => Complete(name) && w' == w.(server := w.server[name := content(name)])
    case ServerLoses(name) => w' == w.(server := w.server - {name})
    case ServerWritesPartial(name, bytes) => !Complete(name) && w' == w.(server := w.server[name := bytes])
    case _ => false
  }

  ghost predicate Next(content: string -> Bytes, w: World, step: Step, w': World) {
    DownloadStep(w, step, w') || RequestStep(w, step, w') || ServerStep(content, w, step, w')
  }

  const INITIAL := World(EMPTY, map[], map[], Idle, [])

  ghost predicate IsRun(content: string -> Bytes, run: seq<World>, steps: seq<Step>) {
    && |run| == |steps| + 1 && run[0] == INITIAL
    && forall i :: 0 <= i < |steps| ==> StepAt(content, run, steps, i)
  }

  ghost predicate StepAt(content: string -> Bytes, run: seq<World>, steps: seq<Step>, i: nat)
    requires i < |steps| && |run| == |steps| + 1
  {
    Next(content, run[i], steps[i], run[i + 1])
  }

  // ----------------------------------------------------------- invariants

  /** A running download belongs to the entry of its name, so no other writes to the same file, and
      that file holds what has been received so far. */
  ghost predicate DownloadFits(content: string -> Bytes, w: World, id: nat)
    requires id in w.book.downloads
  {
    && id in w.book.cells
    && var name, d := w.book.cells[id].name, w.book.downloads[id];
    && name in w.book.entries && w.book.entries[name] == id && Complete(name)
    && w.book.cells[id].state.Downloading?
    && (d.Opened? ==> name in w.spool && w.spool[name] == [])
    && (d.Streaming? ==>
          && d.data == content(name) && d.sent <= |d.data|
          && name in w.spool && w.spool[name] == d.data[..d.sent])
  }

  /** The request has moved the file of `name` away and is about to drop its entry. */
  predicate MovedAway(w: World, name: string) {
    w.request.CleaningUp? && w.request.name == name && w.request.renamed
  }

  /** The file of a ready entry holds the server's bytes. */
  ghost predicate EntryFits(content: string -> Bytes, w: World, name: string)
    requires name in w.book.entries
  {
    && w.book.entries[name] in w.book.cells && Complete(name)
    && var e := w.book.cells[w.book.entries[name]];
    && e.name == name
    && (e.state.Ready? && !MovedAway(w, name) ==> name in w.spool && w.spool[name] == content(name))
    && (e.state.Ready? && e.isPrefetch ==> Prefetched(name, w.book.entries[name]) in w.log)
    && (e.state.Downloading? ==> w.book.entries[name] in w.book.downloads)
  }

  ghost predicate SeenMissing(log: seq<Event>, began: nat, name: string) {
    exists j :: began <= j < |log| && log[j] == NotFound(name)
  }

  ghost predicate WasPrefetched(log: seq<Event>, began: nat, name: string, id: nat) {
    exists j :: 0 <= j < began && j < |log| && log[j] == Prefetched(name, id)
  }

  /** The request waits for the entry of its name; a hit was prefetched before it began, and a
      missing file was missed after it began. */
  ghost predicate RequestFits(w: World) {
    match w.request
    case Waiting(name, id, hit, began) =>
      && name in w.book.entries && w.book.entries[name] == id && id in w.book.cells && began <= |w.log|
      && (hit ==> WasPrefetched(w.log, began, name, id))
      && (w.book.cells[id].state.Failed? && w.book.cells[id].state.missing ==> SeenMissing(w.log, began, name))
    case CleaningUp(name, began, _) =>
      && name in w.book.entries && w.book.entries[name] in w.book.cells
      && w.book.cells[w.book.entries[name]].state.Ready? && Complete(name) && began <= |w.log|
    case RemovingFile(name, began) => name !in w.book.entries && Complete(name) && began <= |w.log|
    case FetchingDirect(name, began) => Complete(name) && began <= |w.log|
    case FetchingPartial(name, began) => CanHavePartial(name) && SeenMissing(w.log, began, name)
    case _ => true
  }

  ghost predicate Invariant(content: string -> Bytes, w: World) {
    && (forall id :: id in w.book.downloads ==> DownloadFits(content, w, id))
    && (forall name :: name in w.book.entries ==> EntryFits(content, w, name))
    && (forall id :: id in w.book.cells ==> id < w.book.nextId)
    && (forall name :: name in w.server && Complete(name) ==> w.server[name] == content(name))
    && RequestFits(w)
  }

  lemma {:induction false} LogGrows(log: seq<Event>, e: Event, began: nat, name: string, id: nat)
    ensures SeenMissing(log, began, name) ==> SeenMissing(log + [e], began, name)
    ensures WasPrefetched(log, began, name, id) ==> WasPrefetched(log + [e], began, name, id)
    ensures e == NotFound(name) && began <= |log| ==> SeenMissing(log + [e], began, name)
    ensures Prefetched(name, id) in log ==> WasPrefetched(log, |log|, name, id)
  {
    if SeenMissing(log, began, name) {
      var j :| began <= j < |log| && log[j] == NotFound(name);
      assert (log + [e])[j] == NotFound(name);
    }
    if WasPrefetched(log, began, name, id) {
      var j :| 0 <= j < began && j < |log| && log[j] == Prefetched(name, id);
      assert (log + [e])[j] == Prefetched(name, id);
    }
    assert (log + [e])[|log|] == e;
  }

  /** A segment name is never a partial name. */
  lemma {:induction false} SuccessorIsComplete(name: string, segmentsPerLog: nat)
    ensures NextWALName(name, segmentsPerLog).Some? ==> Complete(NextWALName(name, segmentsPerLog).value)
  {
    var next := NextWALName(name, segmentsPerLog);
    if next.Some? {
      var s := next.value;
      assert Canonical(s);
      if |s| >= 8 {
        assert s[|s| - 8..][0] == s[|s| - 8];
        assert CanonicalDigit(s[|s| - 8]);
      }
    }
  }

  // --------------------------------------------------- downloads keep it

  /** Starting a download for a name without a live entry. */
  lemma {:induction false} StartKeepsInvariant(content: string -> Bytes, w: World, name: string, isPrefetch: bool)
    requires Invariant(content, w) && w.request.Idle? && Complete(name) && !Usable(w.book, name)
    ensures Invariant(content, w.(book := StartDownload(w.book, name, isPrefetch)))
  {
    var w' := w.(book := StartDownload(w.book, name, isPrefetch));
    assert w.book.nextId !in w.book.cells;
    forall id | id in w'.book.downloads ensures DownloadFits(content, w', id) {
      if id in w.book.downloads {
        assert DownloadFits(content, w, id);
        assert Usable(w.book, w.book.cells[id].name);
      }
    }
    forall n | n in w'.book.entries ensures EntryFits(content, w', n) {
      if n in w.book.entries { assert EntryFits(content, w, n); }
    }
  }

  lemma {:induction false} EnsureKeepsInvariant(content: string -> Bytes, w: World, name: string)
    requires Invariant(content, w) && w.request.Idle? && Complete(name)
    ensures Invariant(content, w.(book := EnsureDownload(w.book, name)))
  {
    if name in w.book.entries {
      assert w.(book := w.book) == w;
    } else {
      StartKeepsInvariant(content, w, name, true);
    }
  }

  lemma {:induction false} EnsureAllKeepsInvariant(content: string -> Bytes, w: World, names: seq<string>)
    requires Invariant(content, w) && w.request.Idle? && (forall n :: n in names ==> Complete(n))
    ensures Invariant(content, w.(book := EnsureAll(w.book, names)))
    decreases |names|
  {
    if names == [] {
      assert w.(book := w.book) == w;
    } else {
      EnsureKeepsInvariant(content, w, names[0]);
      EnsureAllKeepsInvariant(content, w.(book := EnsureDownload(w.book, names[0])), names[1..]);
    }
  }

  lemma {:induction false} UpcomingAreComplete(segmentsPerLog: nat, name: string, count: nat)
    ensures forall n :: n in Upcoming(Successor(segmentsPerLog), name, count) ==> Complete(n)
    decreases count
  {
    var next := Successor(segmentsPerLog)(name);
    if count > 0 && next.Some? {
      SuccessorIsComplete(name, segmentsPerLog);
      UpcomingAreComplete(segmentsPerLog, next.value, count - 1);
    }
  }

  lemma {:induction false} PrefetchKeepsInvariant(content: string -> Bytes, w: World, name: string, count: nat)
    requires Invariant(content, w) && w.request.Idle?
    ensures Invariant(content, w.(book := Prefetch(w.book, name, count)))
  {
    UpcomingAreComplete(w.book.segmentsPerLog, name, count);
    EnsureAllKeepsInvariant(content, w, Upcoming(Successor(w.book.segmentsPerLog), name, count));
  }

  /** A download that goes on touches its own file only, which no other entry uses. */
  lemma {:induction false} DownloadGoesOn(content: string -> Bytes, w: World, id: nat, d: Download, file: Bytes)
    requires Invariant(content, w) && id in w.book.downloads
    requires d.Opened? ==> file == []
    requires d.Streaming? ==> d.data == content(w.book.cells[id].name) && d.sent <= |d.data| && file == d.data[..d.sent]
    ensures Invariant(content,
      w.(book := SetDownload(w.book, id, d), spool := w.spool[w.book.cells[id].name := file]))
  {
    assert DownloadFits(content, w, id);
    var name := w.book.cells[id].name;
    var w' := w.(book := SetDownload(w.book, id, d), spool := w.spool[name := file]);
    forall j | j in w'.book.downloads ensures DownloadFits(content, w', j) { assert DownloadFits(content, w, j); }
    forall n | n in w'.book.entries ensures EntryFits(content, w', n) { assert EntryFits(content, w, n); }
  }

  lemma {:induction false} LearningKeepsInvariant(content: string -> Bytes, w: World, name: string, size: Option<nat>)
    requires Invariant(content, w)
    ensures Invariant(content, w.(book := Learn(w.book, name, size)))
  {
    var w' := w.(book := Learn(w.book, name, size));
    forall j | j in w'.book.downloads ensures DownloadFits(content, w', j) { assert DownloadFits(content, w, j); }
    forall n | n in w'.book.entries ensures EntryFits(content, w', n) { assert EntryFits(content, w, n); }
  }

  lemma {:induction false} DownloadEndsWell(content: string -> Bytes, w: World, id: nat, w': World)
    requires Invariant(content, w) && DownloadStep(w, DownloadSucceeds(id), w')
    ensures Invariant(content, w')
  {
    assert DownloadFits(content, w, id);
    var name := w.book.cells[id].name;
    assert w.spool[name] == content(name);
    forall j | j in w'.book.downloads ensures DownloadFits(content, w', j) { assert DownloadFits(content, w, j); }
    forall n | n in w'.book.entries ensures EntryFits(content, w', n) {
      assert EntryFits(content, w, n);
      if w.book.cells[id].isPrefetch { assert w'.log[|w.log|] == Prefetched(name, id); }
    }
    RequestSurvives(content, w, w', if w'.log == w.log then [] else [Prefetched(name, id)]);
  }

  lemma {:induction false} DownloadEndsBadly(content: string -> Bytes, w: World, id: nat, missing: bool, w': World)
    requires Invariant(content, w) && DownloadStep(w, DownloadFails(id, missing), w')
    ensures Invariant(content, w')
  {
    assert DownloadFits(content, w, id);
    var name := w.book.cells[id].name;
    forall j | j in w'.book.downloads ensures DownloadFits(content, w', j) { assert DownloadFits(content, w, j); }
    forall n | n in w'.book.entries ensures EntryFits(content, w', n) { assert EntryFits(content, w, n); }
    RequestSurvives(content, w, w', if missing then [NotFound(name)] else []);
  }

  /** The end of a download does not upset a request, whether or not it is the one it waits for. */
  lemma {:induction false} RequestSurvives(content: string -> Bytes, w: World, w': World, news: seq<Event>)
    requires RequestFits(w) && w'.request == w.request && |news| <= 1 && w'.log == w.log + news
    requires w'.book.entries == w.book.entries && (forall id :: id in w.book.cells ==> id in w'.book.cells)
    requires w.request.Waiting? && w.request.id in w'.book.cells ==>
      var before, after := w.book.cells[w.request.id].state, w'.book.cells[w.request.id].state;
      after == before || (after.Failed? && after.missing ==> news == [NotFound(w.request.name)])
    requires w.request.CleaningUp? ==>
      w'.book.cells[w.book.entries[w.request.name]] == w.book.cells[w.book.entries[w.request.name]]
    ensures RequestFits(w')
  {
    if news == [] {
      assert w.log + news == w.log;
    } else {
      assert news == [news[0]];
      match w.request
      case Waiting(name, id, hit, began) => LogGrows(w.log, news[0], began, name, id);
      case FetchingPartial(name, began) => LogGrows(w.log, news[0], began, name, 0);
      case _ =>
    }
  }

  lemma {:induction false} DownloadStepKeepsInvariant(content: string -> Bytes, w: World, step: Step, w': World)
    requires Invariant(content, w) && DownloadStep(w, step, w')
    ensures Invariant(content, w')
  {
    var id := step.id;
    assert DownloadFits(content, w, id);
    var name, d := w.book.cells[id].name, w.book.downloads[id];
    match step
    case DownloadOpens(_) => DownloadGoesOn(content, w, id, Opened, []);
    case DownloadStreams(_) =>
      DownloadGoesOn(content, w, id, Streaming(w.server[name], 0), []);
      assert w.spool[name := []] == w.spool;
    case DownloadReceives(_, sent) =>
      assert d.data[..d.sent] + d.data[d.sent..sent] == d.data[..sent];
      DownloadGoesOn(content, w, id, d.(sent := sent), d.data[..sent]);
    case DownloadLearns(_, size) => LearningKeepsInvariant(content, w, name, size);
    case DownloadSucceeds(_) => DownloadEndsWell(content, w, id, w');
    case DownloadFails(_, missing) => DownloadEndsBadly(content, w, id, missing, w');
  }

  // ---------------------------------------------------- requests keep it

  lemma {:induction false} BeginKeepsInvariant(content: string -> Bytes, w: World, name: string, w': World)
    requires Invariant(content, w) && RequestStep(w, RequestBegins(name), w')
    ensures Invariant(content, w')
  {
    if Usable(w.book, name) {
      assert EntryFits(content, w, name);
      LogGrows(w.log, Began(name), |w.log|, name, w.book.entries[name]);
      SameBookKeeps(content, w, w');
    } else {
      StartKeepsInvariant(content, w, name, false);
      var started := w.(book := StartDownload(w.book, name, false));
      SameBookKeeps(content, started, w');
    }
  }

  /** The log only grows and the request is another one: the rest of the invariant stays. */
  lemma {:induction false} SameBookKeeps(content: string -> Bytes, w: World, w': World)
    requires Invariant(content, w) && RequestFits(w') && !w.request.CleaningUp? && !w'.request.CleaningUp?
    requires w'.book == w.book && w'.spool == w.spool && w'.server == w.server
    requires forall e :: e in w.log ==> e in w'.log
    ensures Invariant(content, w')
  {
    forall id | id in w'.book.downloads ensures DownloadFits(content, w', id) { assert DownloadFits(content, w, id); }
    forall n | n in w'.book.entries ensures EntryFits(content, w', n) { assert EntryFits(content, w, n); }
  }

  lemma {:induction false} RenameKeepsInvariant(content: string -> Bytes, w: World, works: bool, w': World)
    requires Invariant(content, w) && RequestStep(w, RequestRenames(works), w')
    ensures Invariant(content, w')
  {
    assert EntryFits(content, w, w.request.name);
    forall id | id in w'.book.downloads ensures DownloadFits(content, w', id) { assert DownloadFits(content, w, id); }
    forall n | n in w'.book.entries ensures EntryFits(content, w', n) { assert EntryFits(content, w, n); }
  }

  lemma {:induction false} CleanupKeepsInvariant(content: string -> Bytes, w: World, w': World)
    requires Invariant(content, w) && RequestStep(w, RequestCleansUp, w')
    ensures Invariant(content, w')
  {
    forall id | id in w'.book.downloads ensures DownloadFits(content, w', id) { assert DownloadFits(content, w, id); }
    forall n | n in w'.book.entries ensures EntryFits(content, w', n) { assert EntryFits(content, w, n); }
  }

  lemma {:induction false} RemoveKeepsInvariant(content: string -> Bytes, w: World, w': World)
    requires Invariant(content, w) && RequestStep(w, RequestRemovesFile, w')
    ensures Invariant(content, w')
  {
    forall id | id in w'.book.downloads ensures DownloadFits(content, w', id) { assert DownloadFits(content, w, id); }
    forall n | n in w'.book.entries ensures EntryFits(content, w', n) { assert EntryFits(content, w, n); }
  }

  lemma {:induction false} RequestStepKeepsInvariant(content: string -> Bytes, w: World, step: Step, w': World)
    requires Invariant(content, w) && RequestStep(w, step, w')
    ensures Invariant(content, w')
  {
    match step
    case RequestBegins(name) => BeginKeepsInvariant(content, w, name, w');
    case RequestCancelled => SameBookKeeps(content, w, w');
    case RequestRenames(works) => RenameKeepsInvariant(content, w, works, w');
    case RequestCleansUp => CleanupKeepsInvariant(content, w, w');
    case RequestRemovesFile => RemoveKeepsInvariant(content, w, w');
    case RequestSeesFailure => SameBookKeeps(content, w, w');
    case FetchesDirect(_) =>
      LogGrows(w.log, NotFound(w.request.name), w.request.began, w.request.name, 0);
      SameBookKeeps(content, w, w');
    case FetchesPartial(_) => SameBookKeeps(content, w, w');
    case TriggersPrefetch(count) =>
      var idle := w.(request := Idle);
      SameBookKeeps(content, w, idle);
      if w.book.segmentsPerLog != 0 { PrefetchKeepsInvariant(content, idle, w.request.name, count); }
    case _ =>
  }

  lemma {:induction false} ServerStepKeepsInvariant(content: string -> Bytes, w: World, step: Step, w': World)
    requires Invariant(content, w) && ServerStep(content, w, step, w')
    ensures Invariant(content, w')
  {
    forall id | id in w'.book.downloads ensures DownloadFits(content, w', id) { assert DownloadFits(content, w, id); }
    forall n | n in w'.book.entries ensures EntryFits(content, w', n) { assert EntryFits(content, w, n); }
  }

  lemma {:induction false} RunKeepsInvariant(content: string -> Bytes, run: seq<World>, steps: seq<Step>, i: nat)
    requires IsRun(content, run, steps) && i < |run|
    ensures Invariant(content, run[i])
  {
    if i > 0 {
      RunKeepsInvariant(content, run, steps, i - 1);
      assert StepAt(content, run, steps, i - 1);
      if DownloadStep(run[i - 1], steps[i - 1], run[i]) {
        DownloadStepKeepsInvariant(content, run[i - 1], steps[i - 1], run[i]);
      } else if RequestStep(run[i - 1], steps[i - 1], run[i]) {
        RequestStepKeepsInvariant(content, run[i - 1], steps[i - 1], run[i]);
      } else {
        ServerStepKeepsInvariant(content, run[i - 1], steps[i - 1], run[i]);
      }
    }
  }

  // ---------------------------------------------------------- the promises

  /** No two downloads ever write to the same spool file. */
  lemma {:induction false} OneWriterPerSpoolFile(content: string -> Bytes, run: seq<World>, steps: seq<Step>, i: nat,
                                                 id1: nat, id2: nat)
    requires IsRun(content, run, steps) && i < |run|
    requires id1 in run[i].book.downloads && id2 in run[i].book.downloads && id1 != id2
    ensures id1 in run[i].book.cells && id2 in run[i].book.cells
    ensures run[i].book.cells[id1].name != run[i].book.cells[id2].name
  {
    RunKeepsInvariant(content, run, steps, i);
    assert DownloadFits(content, run[i], id1) && DownloadFits(content, run[i], id2);
  }

  /** What is ready in the spool is what the server holds, until the request moves it away. */
  lemma {:induction false} ReadyMeansDownloaded(content: string -> Bytes, run: seq<World>, steps: seq<Step>, i: nat,
                                                name: string)
    requires IsRun(content, run, steps) && i < |run|
    requires name in run[i].book.entries && run[i].book.entries[name] in run[i].book.cells
    requires run[i].book.cells[run[i].book.entries[name]].state.Ready?
    ensures MovedAway(run[i], name) || (name in run[i].spool && run[i].spool[name] == content(name))
  {
    RunKeepsInvariant(content, run, steps, i);
    assert EntryFits(content, run[i], name);
  }

  /** A request that succeeds delivers the content of the complete file; or, when that was found
      missing after the request began, the partial file as the server has it at that moment. A
      reported hit was prefetched before the request began. */
  lemma {:induction false} DeliversWhatServerHolds(content: string -> Bytes, run: seq<World>, steps: seq<Step>, i: nat,
                                                   name: string, bytes: Bytes, hit: bool, fromPartial: bool)
    requires IsRun(content, run, steps) && i < |steps|
    requires run[i + 1].log == run[i].log + [Delivered(name, bytes, hit, fromPartial)]
    ensures !fromPartial ==> bytes == content(name)
    ensures fromPartial ==>
      && !hit && CanHavePartial(name) && run[i].request.FetchingPartial?
      && name + PARTIAL_SUFFIX in run[i].server && bytes == run[i].server[name + PARTIAL_SUFFIX]
      && SeenMissing(run[i].log, run[i].request.began, name)
    ensures hit ==> run[i].request.Waiting? && WasPrefetched(run[i].log, run[i].request.began, name, run[i].request.id)
  {
    RunKeepsInvariant(content, run, steps, i);
    assert StepAt(content, run, steps, i);
    DeliveryAtStep(content, run[i], steps[i], run[i + 1], name, bytes, hit, fromPartial);
  }

  lemma {:induction false} DeliveryAtStep(content: string -> Bytes, w: World, step: Step, w': World,
                                          name: string, bytes: Bytes, hit: bool, fromPartial: bool)
    requires Invariant(content, w) && Next(content, w, step, w')
    requires w'.log == w.log + [Delivered(name, bytes, hit, fromPartial)]
    ensures !fromPartial ==> bytes == content(name)
    ensures fromPartial ==>
      && !hit && CanHavePartial(name) && w.request.FetchingPartial?
      && name + PARTIAL_SUFFIX in w.server && bytes == w.server[name + PARTIAL_SUFFIX]
      && SeenMissing(w.log, w.request.began, name)
    ensures hit ==> w.request.Waiting? && WasPrefetched(w.log, w.request.began, name, w.request.id)
  {
    assert w'.log[|w.log|] == Delivered(name, bytes, hit, fromPartial);
    if RequestStep(w, step, w') {
      match step
      case RequestRenames(_) =>
        assert EntryFits(content, w, w.request.name);
        assert [Delivered(name, bytes, hit, fromPartial)][0]
            == (w.log + [Delivered(w.request.name, w.spool[w.request.name], w.request.hit, false)])[|w.log|];
      case _ =>
    }
  }

  /** In every run, a request that finds its complete file missing goes on to the partial one when the
      name has no extension, and gives up otherwise; any other failure ends it. */
  lemma {:induction false} MissingLeadsToPartial(content: string -> Bytes, run: seq<World>, steps: seq<Step>, i: nat)
    requires IsRun(content, run, steps) && i < |steps|
    requires steps[i] == FetchesDirect(Missing) || steps[i].RequestSeesFailure?
    ensures if steps[i].FetchesDirect? then run[i].request.FetchingDirect? else
      run[i].request.Waiting? && run[i].request.id in run[i].book.cells
    ensures var r := run[i].request;
      run[i + 1].request ==
        if '.' !in r.name && (steps[i].FetchesDirect? || run[i].book.cells[r.id].state == Failed(true))
        then FetchingPartial(r.name, r.began) else Idle
  {
    assert StepAt(content, run, steps, i);
  }

  /** In every run a request reports a hit exactly when it begins with a finished prefetch of its name
      waiting, and joins the download of its name when there is one that has not failed. */
  lemma {:induction false} HitExactly(content: string -> Bytes, run: seq<World>, steps: seq<Step>, i: nat)
    requires IsRun(content, run, steps) && i < |steps| && steps[i].RequestBegins?
    ensures var b, name, r := run[i].book, steps[i].name, run[i + 1].request;
      && r.Waiting? && r.name == name && r.began == |run[i].log|
      && (r.hit <==>
            (name in b.entries && b.entries[name] in b.cells
             && b.cells[b.entries[name]].state.Ready? && b.cells[b.entries[name]].isPrefetch))
      && (name in b.entries && b.entries[name] in b.cells && !b.cells[b.entries[name]].state.Failed? ==>
            r.id == b.entries[name] && run[i + 1].book == b)
  {
    RunKeepsInvariant(content, run, steps, i);
    assert StepAt(content, run, steps, i);
    if steps[i].name in run[i].book.entries { assert EntryFits(content, run[i], steps[i].name); }
  }

  /** In every run a request whose download is ready can deliver the server's bytes at once, with the
      hit it found when it began. */
  lemma {:induction false} ReadyCanBeDelivered(content: string -> Bytes, run: seq<World>, steps: seq<Step>, i: nat)
    returns (w': World)
    requires IsRun(content, run, steps) && i < |run| && run[i].request.Waiting?
    requires run[i].request.id in run[i].book.cells && run[i].book.cells[run[i].request.id].state.Ready?
    ensures Next(content, run[i], RequestRenames(true), w')
    ensures var r := run[i].request;
      w'.log == run[i].log + [Delivered(r.name, content(r.name), r.hit, false)]
  {
    RunKeepsInvariant(content, run, steps, i);
    var w := run[i];
    var name := w.request.name;
    assert EntryFits(content, w, name);
    w' := w.(spool := w.spool - {name}, log := w.log + [Delivered(name, w.spool[name], w.request.hit, false)],
             request := CleaningUp(name, w.request.began, true));
  }

  /** In every run a request that has moved its file drops the entry and goes on to prefetch; one that
      could not drops the entry, removes the file and downloads directly. */
  lemma {:induction false} RequestGoesOn(content: string -> Bytes, run: seq<World>, steps: seq<Step>, i: nat)
    requires IsRun(content, run, steps) && i < |steps|
    ensures steps[i].RequestRenames? ==>
      && run[i].request.Waiting?
      && run[i + 1].request == CleaningUp(run[i].request.name, run[i].request.began, steps[i].works)
    ensures steps[i].RequestCleansUp? ==> run[i].request.CleaningUp?
    ensures steps[i].RequestCleansUp? ==> (
      var r := run[i].request;
      && r.name !in run[i + 1].book.entries
      && run[i + 1].request == if r.renamed then Prefetching(r.name) else RemovingFile(r.name, r.began))
    ensures steps[i].RequestRemovesFile? ==> run[i].request.RemovingFile?
    ensures steps[i].RequestRemovesFile? ==> (
      var r := run[i].request;
      r.name !in run[i + 1].spool && run[i + 1].request == FetchingDirect(r.name, r.began))
    ensures steps[i] == FetchesDirect(Got) ==> run[i].request.FetchingDirect?
    ensures steps[i] == FetchesDirect(Got) ==> (
      var r := run[i].request;
      && run[i + 1].log == run[i].log + [Delivered(r.name, content(r.name), false, false)]
      && run[i + 1].request == Prefetching(r.name))
  {
    RunKeepsInvariant(content, run, steps, i);
    assert StepAt(content, run, steps, i);
  }
}
