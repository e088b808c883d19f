/** Atomic publication: a WAL file is written under its partial name and renamed when it is done.
    Many writers work on many names of one repository at once, one per WAL name. */
module Publication {
  import opened WalNames
  import opened WalFormat
  import opened WalWriter
  import WalStore

  datatype Path = Path(cluster: string, dir: Option<string>, name: string)

  /** Where the writer of `name` writes: the archive path, with the partial suffix. */
  function PartialPath(cluster: string, name: string): (p: Path) {
    Path(cluster, ArchiveDirectory(name), WithPartialSuffix(name))
  }

  function Completed(p: Path): (r: Path) {
    p.(name := TrimPartialSuffix(p.name))
  }

  /** Two writers share a path exactly when they are for the same file of the same cluster. */
  lemma {:induction false} PathsAreSeparate(cluster: string, name: string, cluster': string, name': string)
    requires WalStore.Writable(name) && WalStore.Writable(name')
    ensures PartialPath(cluster, name) == PartialPath(cluster', name')
       <==> cluster == cluster' && TrimPartialSuffix(name) == TrimPartialSuffix(name')
  {
    PathsInArchive(cluster, name);
    PathsInArchive(cluster', name');
  }

  /** A writer's paths are those of the archive: the cluster's directory, in it the one of the first 16
      characters for a segment or partial, and the bare name with and without the suffix. */
  lemma {:induction false} PathsInArchive(cluster: string, name: string)
    requires WalStore.Writable(name)
    ensures |TrimPartialSuffix(name)| >= 8
    ensures var bare := TrimPartialSuffix(name);
      var dir := if IsWALFile(bare) then Some(bare[..16]) else None;
      && PartialPath(cluster, name) == Path(cluster, dir, bare + ".partial")
      && Completed(PartialPath(cluster, name)) == Path(cluster, dir, bare)
  {
    WalStore.WriterNamesInPlace(name);
    if IsWALSegmentOrPartial(name) {
      SegmentPlacement(name);
    } else {
      WalStore.OtherNamesAreBare(name);
    }
  }

  predicate IsPartial(p: Path) {
    EndsWith(p.name, PARTIAL_SUFFIX)
  }

  // ------------------------------------------------------------ one writer

  class FileSystem {
    var files: map<Path, Bytes>

    method Rename(source: Path, target: Path, works: bool) returns (ok: bool)
      modifies this
      ensures ok <==> works && source in old(files)
      ensures ok ==> files == (old(files) - {source})[target := old(files)[source]]
      ensures !ok ==> files == old(files)
    {
      ok := works && source in files;
      if ok {
        files := (files - {source})[target := files[source]];
      }
    }
  }

  /** A writer between two of its operations. */
  datatype WriterState = WriterState(
    path: Path,
    fileLength: nat,
    frames: seq<Bytes>,
    contents: seq<Bytes>,
    chunks: seq<Bytes>,
    failed: bool,
    closed: bool)

  /** The file of the writer holds a prefix of the header and the frames it has produced. */
  ghost predicate Consistent(unwrap: Unwrapper, w: WriterState, disk: Bytes) {
    && w.fileLength < UINT64
    && Holds(unwrap, w.frames, w.contents) && w.chunks <= w.contents
    && disk <= Header(w.fileLength) + Stream(w.frames)
    && (!w.failed ==> w.chunks == w.contents)
  }

  /** The files outside `touched` are as they were. */
  ghost predicate Unchanged(files: map<Path, Bytes>, files': map<Path, Bytes>, touched: set<Path>) {
    forall p :: p !in touched ==> (p in files <==> p in files') && (p in files ==> files[p] == files'[p])
  }

  /** A new writer starts on the file `p`. */
  ghost predicate Opened(unwrap: Unwrapper, files: map<Path, Bytes>, p: Path, files': map<Path, Bytes>, w: WriterState)
  {
    && w.path == p && w.chunks == [] && !w.closed
    && Unchanged(files, files', {p})
    && p in files' && Consistent(unwrap, w, files'[p])
  }

  /** The writer goes on: a closed one leaves its file alone, an open one stays consistent with it. */
  ghost predicate Continues(unwrap: Unwrapper, files: map<Path, Bytes>, w: WriterState,
                            files': map<Path, Bytes>, w': WriterState)
  {
    && w'.path == w.path && w'.fileLength == w.fileLength && w.chunks <= w'.chunks && (w.closed ==> w'.closed)
    && Unchanged(files, files', if w.closed then {} else {w.path})
    && (!w.closed ==> w.path in files' && Consistent(unwrap, w', files'[w.path]))
  }

  /** The whole file of the writer moves to its completed path. */
  ghost predicate Published(files: map<Path, Bytes>, w: WriterState, files': map<Path, Bytes>, w': WriterState) {
    && !w.closed && !w.failed && w.path in files
    && w' == w.(closed := true, path := Completed(w.path))
    && Unchanged(files, files', {w.path, Completed(w.path)})
    && (w.path != Completed(w.path) ==> w.path !in files')
    && Completed(w.path) in files' && files'[Completed(w.path)] == Header(w.fileLength) + Stream(w.frames)
  }

  /** `Writer`: a direct writer on the partial path of one file system. */
  class Writer {
    const fs: FileSystem
    const inner: DirectWriter
    var path: Path

    ghost predicate Valid()
      reads this, fs, inner, inner.out
    {
      inner.Valid() && (!inner.closed ==> path in fs.files && fs.files[path] == inner.out.disk)
    }

    ghost function State(): (w: WriterState)
      reads this, inner, inner.out
    {
      WriterState(path, inner.fileLength, inner.frames, inner.contents, inner.chunks, inner.out.failed, inner.closed)
    }

    constructor (fs: FileSystem, inner: DirectWriter, cluster: string, name: string)
      requires inner.Valid() && !inner.closed && inner.chunks == []
      modifies fs
      ensures Valid() && this.fs == fs && this.inner == inner && path == PartialPath(cluster, name)
      ensures fs.files == old(fs.files)[path := inner.out.disk]
      ensures Opened(inner.unwrap, old(fs.files), PartialPath(cluster, name), fs.files, State())
    {
      this.fs, this.inner, path := fs, inner, PartialPath(cluster, name);
      new;
      fs.files := fs.files[path := inner.out.disk];
    }

    method WriteBlock(data: Bytes) returns (ok: bool)
      requires Valid()
      modifies inner, inner.out, fs
      ensures Valid() && inner.closed == old(inner.closed)
      ensures Continues(inner.unwrap, old(fs.files), old(State()), fs.files, State())
      ensures ok ==> inner.chunks == old(inner.chunks) + Chunks(data)
      ensures inner.chunks <= old(inner.chunks) + Chunks(data)
    {
      ok := inner.WriteBlock(data);
      if !inner.closed {
        fs.files := fs.files[path := inner.out.disk];
      }
    }

    method Flush(syncOk: bool) returns (ok: bool)
      requires Valid()
      modifies inner.out, fs
      ensures Valid() && Continues(inner.unwrap, old(fs.files), old(State()), fs.files, State())
      ensures ok <==> syncOk && !inner.out.failed
      ensures ok && !inner.closed ==> fs.files[path] == Header(inner.fileLength) + Stream(inner.frames)
    {
      ok := inner.Flush(syncOk);
      if !inner.closed {
        fs.files := fs.files[path := inner.out.disk];
      }
    }

    /** `Close`: the partial file stays where it is. */
    method Close(closeOk: bool) returns (ok: bool)
      requires Valid()
      modifies inner, inner.out, fs
      ensures Valid() && Continues(inner.unwrap, old(fs.files), old(State()), fs.files, State())
      ensures inner.chunks == old(inner.chunks) && inner.frames == old(inner.frames)
      ensures inner.contents == old(inner.contents)
      ensures ok ==> closeOk && !old(inner.closed) && inner.closed && !inner.out.failed && !old(inner.out.failed)
      ensures ok ==> inner.out.disk == Header(inner.fileLength) + Stream(inner.frames)
      ensures fs.files == if old(inner.closed) then old(fs.files) else old(fs.files)[path := inner.out.disk]
      ensures ok || old(inner.closed) || !closeOk || inner.out.failed
    {
      var wasClosed := inner.closed;
      ok := inner.Close(closeOk);
      if !wasClosed {
        fs.files := fs.files[path := inner.out.disk];
      }
    }

    /** The only operation that touches the completed path, and only if it succeeds: then the
        completed file reads back as every chunk that was written before. */
    method CloseMarkDone(closeOk: bool, renameWorks: bool) returns (ok: bool)
      requires Valid()
      modifies this, inner, inner.out, fs
      ensures Valid()
      ensures inner.chunks == old(inner.chunks) && inner.frames == old(inner.frames)
      ensures ok ==> Published(old(fs.files), old(State()), fs.files, State())
      ensures ok ==> path in fs.files && ReadsBack(inner.unwrap, fs.files[path], inner.fileLength, old(inner.chunks))
      ensures !ok ==> Continues(inner.unwrap, old(fs.files), old(State()), fs.files, State())
      ensures ok ==> closeOk && renameWorks && !old(inner.closed) && !old(inner.out.failed)
      ensures ok || old(inner.closed) || !closeOk || !renameWorks || inner.out.failed
    {
      ok := Close(closeOk);
      if !ok {
        return false;
      }
      MovedFile(old(fs.files), path, Completed(path), inner.out.disk);
      ok := fs.Rename(path, Completed(path), renameWorks);
      if ok {
        path := Completed(path);
        ReadWritten(inner.unwrap, inner.fileLength, inner.frames, inner.chunks);
      }
    }
  }

  /** `NewWriter`: no writer when the file cannot be opened, or when its header cannot be written; the
      file is then left behind under its partial name. */
  method NewWriter(fs: FileSystem, cluster: string, name: string, fileLength: nat, wrap: Wrapper,
                   ghost unwrap: Unwrapper,
                   bufferSize: nat, room: nat, opens: bool)
    returns (w: Writer?)
    requires fileLength < UINT64 && Inverse(wrap, unwrap)
    modifies fs
    ensures w == null ==> Unchanged(old(fs.files), fs.files, if opens then {PartialPath(cluster, name)} else {})
    ensures !opens ==> w == null
    ensures opens && room >= |Header(fileLength)| ==> w != null
    ensures w != null ==> fresh(w) && fresh(w.inner) && fresh(w.inner.out) && w.fs == fs && w.Valid()
    ensures w != null ==> w.inner.unwrap == unwrap && w.inner.fileLength == fileLength
    ensures w != null ==> Opened(unwrap, old(fs.files), PartialPath(cluster, name), fs.files, w.State())
  {
    if !opens {
      return null;
    }
    var out := new BufferedFile(if bufferSize == 0 then DEFAULT_BUFFER else bufferSize, room);
    var inner := new DirectWriter(out, wrap, fileLength, unwrap);
    if out.failed {
      fs.files := fs.files[PartialPath(cluster, name) := out.disk];
      return null;
    }
    w := new Writer(fs, inner, cluster, name);
  }

  const DEFAULT_BUFFER: nat := 64 * 1024

  lemma {:induction false} MovedFile(files: map<Path, Bytes>, source: Path, target: Path, file: Bytes)
    ensures (files[source := file] - {source})[target := file] == (files - {source})[target := file]
  {
    assert files[source := file] - {source} == files - {source};
  }

  ghost predicate ReadsBack(unwrap: Unwrapper, file: Bytes, fileLength: nat, chunks: seq<Bytes>) {
    exists rest ::
      ReadHeader(file) == GotHeader(fileLength, rest) && ReadAll(unwrap, rest) == Decoded(chunks, EndOfFile([]))
  }

  // ------------------------------------------------------- many writers

  datatype Repository = Repository(files: map<Path, Bytes>, writers: map<nat, WriterState>)

  /** The steps are those the contracts of `Writer` describe: `Works` stands for `WriteBlock`, `Flush`
      and `Close`; `Vanishes` for a writer that is dropped without being closed. */
  datatype Step =
    | Opens(id: nat, cluster: string, name: string)
    | Works(id: nat)
    | Publishes(id: nat)
    | FailsToPublish(id: nat)
    | Vanishes(id: nat)

  /** The step is one of writer `id`. */
  ghost predicate ByWriter(r: Repository, id: nat, r': Repository) {
    id in r.writers && id in r'.writers && r'.writers == r.writers[id := r'.writers[id]]
  }

  /** One writer per WAL name at a time. */
  ghost predicate NoOpenWriter(r: Repository, p: Path) {
    forall j :: j in r.writers && !r.writers[j].closed ==> r.writers[j].path != p
  }

  ghost predicate Next(unwrap: Unwrapper, r: Repository, step: Step, r': Repository) {
    match step
    case Opens(id, cluster, name) =>
      && WalStore.Writable(name) && NoOpenWriter(r, PartialPath(cluster, name))
      && id !in r.writers && id in r'.writers && r'.writers == r.writers[id := r'.writers[id]]
      && Opened(unwrap, r.files, PartialPath(cluster, name), r'.files, r'.writers[id])
    case Works(id) =>
      ByWriter(r, id, r') && Continues(unwrap, r.files, r.writers[id], r'.files, r'.writers[id])
    case FailsToPublish(id) =>
      && ByWriter(r, id, r') && Continues(unwrap, r.files, r.writers[id], r'.files, r'.writers[id])
      && r'.writers[id].chunks == r.writers[id].chunks
    case Publishes(id) =>
      ByWriter(r, id, r') && Published(r.files, r.writers[id], r'.files, r'.writers[id])
    case Vanishes(id) => r' == r.(writers := r.writers - {id})
  }

  ghost predicate IsRun(unwrap: Unwrapper, run: seq<Repository>, steps: seq<Step>) {
    && |run| == |steps| + 1 && run[0].writers == map[]
    && forall i :: 0 <= i < |steps| ==> StepAt(unwrap, run, steps, i)
  }

  ghost predicate StepAt(unwrap: Unwrapper, run: seq<Repository>, steps: seq<Step>, i: nat)
    requires i < |steps| && |run| == |steps| + 1
  {
    Next(unwrap, run[i], steps[i], run[i + 1])
  }

  /** An open writer's file is its own, and holds a prefix of what it wrote. */
  ghost predicate OpenWriterFits(unwrap: Unwrapper, r: Repository, id: nat)
    requires id in r.writers
  {
    var w := r.writers[id];
    !w.closed ==>
      && IsPartial(w.path) && !IsPartial(Completed(w.path))
      && w.path in r.files && Consistent(unwrap, w, r.files[w.path])
      && forall j :: j in r.writers && j != id && !r.writers[j].closed ==> r.writers[j].path != w.path
  }

  ghost predicate Invariant(unwrap: Unwrapper, r: Repository) {
    forall id :: id in r.writers ==> OpenWriterFits(unwrap, r, id)
  }

  /** The server only opens writers for names whose completed form is not itself a partial name. */
  lemma {:induction false} WriterPaths(cluster: string, name: string)
    requires WalStore.Writable(name)
    ensures IsPartial(PartialPath(cluster, name)) && !IsPartial(Completed(PartialPath(cluster, name)))
  {
    WalStore.WriterNamesInPlace(name);
    var bare := TrimPartialSuffix(name);
    if IsWALSegmentOrPartial(name) {
      SegmentPlacement(name);
      WalStore.NotBothForms(bare);
      assert bare[16..][0] == bare[16] != '.';
    } else {
      WalStore.OtherNamesAreBare(name);
    }
  }

  lemma {:induction false} OpenKeepsInvariant(unwrap: Unwrapper, r: Repository, id: nat, p: Path, r': Repository)
    requires Invariant(unwrap, r) && id !in r.writers && id in r'.writers
    requires r'.writers == r.writers[id := r'.writers[id]] && NoOpenWriter(r, p)
    requires Opened(unwrap, r.files, p, r'.files, r'.writers[id]) && IsPartial(p) && !IsPartial(Completed(p))
    ensures Invariant(unwrap, r')
  {
    forall j | j in r'.writers ensures OpenWriterFits(unwrap, r', j) {
      if j in r.writers { assert OpenWriterFits(unwrap, r, j); }
    }
  }

  lemma {:induction false} ContinueKeepsInvariant(unwrap: Unwrapper, r: Repository, id: nat, r': Repository)
    requires Invariant(unwrap, r) && ByWriter(r, id, r')
    requires Continues(unwrap, r.files, r.writers[id], r'.files, r'.writers[id])
    ensures Invariant(unwrap, r')
  {
    assert OpenWriterFits(unwrap, r, id);
    forall j | j in r'.writers ensures OpenWriterFits(unwrap, r', j) {
      assert OpenWriterFits(unwrap, r, j);
    }
  }

  lemma {:induction false} PublishKeepsInvariant(unwrap: Unwrapper, r: Repository, id: nat, r': Repository)
    requires Invariant(unwrap, r) && ByWriter(r, id, r')
    requires Published(r.files, r.writers[id], r'.files, r'.writers[id])
    ensures Invariant(unwrap, r')
  {
    assert OpenWriterFits(unwrap, r, id);
    forall j | j in r'.writers ensures OpenWriterFits(unwrap, r', j) {
      assert OpenWriterFits(unwrap, r, j);
    }
  }

  lemma {:induction false} StepKeepsInvariant(unwrap: Unwrapper, r: Repository, step: Step, r': Repository)
    requires Invariant(unwrap, r) && Next(unwrap, r, step, r')
    ensures Invariant(unwrap, r')
  {
    match step
    case Opens(id, cluster, name) =>
      WriterPaths(cluster, name);
      OpenKeepsInvariant(unwrap, r, id, PartialPath(cluster, name), r');
    case Works(id) => ContinueKeepsInvariant(unwrap, r, id, r');
    case FailsToPublish(id) => ContinueKeepsInvariant(unwrap, r, id, r');
    case Publishes(id) => PublishKeepsInvariant(unwrap, r, id, r');
    case Vanishes(id) =>
      forall j | j in r'.writers ensures OpenWriterFits(unwrap, r', j) { assert OpenWriterFits(unwrap, r, j); }
  }

  lemma {:induction false} RunKeepsInvariant(unwrap: Unwrapper, run: seq<Repository>, steps: seq<Step>, i: nat)
    requires IsRun(unwrap, run, steps) && i < |run|
    ensures Invariant(unwrap, run[i])
  {
    if i > 0 {
      RunKeepsInvariant(unwrap, run, steps, i - 1);
      assert StepAt(unwrap, run, steps, i - 1);
      StepKeepsInvariant(unwrap, run[i - 1], steps[i - 1], run[i]);
    }
  }

  /** In every run, a path without the partial suffix changes only by a successful publication, and
      then reads back as every chunk its writer had written. */
  lemma {:induction false} CompletedFilesAreWhole(unwrap: Unwrapper, run: seq<Repository>, steps: seq<Step>, i: nat,
                                                  p: Path)
    requires IsRun(unwrap, run, steps) && i < |steps| && !IsPartial(p)
    requires (p in run[i].files) != (p in run[i + 1].files)
      || (p in run[i].files && p in run[i + 1].files && run[i].files[p] != run[i + 1].files[p])
    ensures steps[i].Publishes? && steps[i].id in run[i].writers
    ensures var w := run[i].writers[steps[i].id];
      && p == Completed(w.path) && p in run[i + 1].files
      && ReadsBack(unwrap, run[i + 1].files[p], w.fileLength, w.chunks)
  {
    RunKeepsInvariant(unwrap, run, steps, i);
    assert StepAt(unwrap, run, steps, i);
    if steps[i].Opens? { WriterPaths(steps[i].cluster, steps[i].name); }
    else if steps[i].id in run[i].writers { assert OpenWriterFits(unwrap, run[i], steps[i].id); }
    if steps[i].Publishes? {
      var w := run[i].writers[steps[i].id];
      ReadWritten(unwrap, w.fileLength, w.frames, w.chunks);
    }
  }
}
