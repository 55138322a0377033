/**
  The control flow of `main` (`main.go`, lines 21-208): resolve the redirect,
  derive the version, gate on the archive key, download, upload the archive,
  extract the target files, run the load statements, close the database, remove
  the scratch directory, and upload the database file. Every external call is
  an input of `Env`; the bucket and the scratch directory are values that the
  run transforms; each `os.Exit` is a final `Exit`.
*/
module Ingest {
  import opened Wrappers
  import opened Io
  import Url
  import opened FeedVersion
  import Extraction

  /** The outcome of every external call that the run may make. */
  datatype Env = Env(
    seed: Url.Response,                        // GET of the seed URL
    statFails: bool,                           // the existence check fails with an error other than "no such key"
    getOk: bool,                               // client.Get of the resolved URL
    mkdirOk: bool,                             // os.Mkdir("tmp"), when "tmp" is absent
    body: Option<Bytes>,                       // io.ReadAll of the archive body
    putArchiveOk: bool,                        // upload of the archive
    archive: Option<seq<Extraction.Member>>,   // zip.NewReader: the entries, or a malformed archive
    openDbOk: bool,                            // sql.Open
    execOk: seq<bool>,                         // the five conn.Exec results, which main discards
    closeDbOk: bool,                           // conn.Close
    removeTmpOk: bool,                         // os.RemoveAll("tmp")
    dbFile: Option<Bytes>,                     // os.ReadFile of the database file
    putDbOk: bool)                             // upload of the database file

  /** How one run ends: the exit, the bucket and scratch directory afterwards, and the calls made. */
  datatype Run = Run(exit: Exit, store: Store, tmp: Dir, trace: seq<Effect>)

  /** The four CREATE TABLE statements and the CREATE INDEX batch, one Exec each. */
  const LoadCalls: seq<Effect> := [Exec(0), Exec(1), Exec(2), Exec(3), Exec(4)]

  /** The redirect resolves to `url` and the version derived from it is `v`. */
  predicate ResolvesTo(env: Env, url: string, v: string)
  {
    Url.GetRedirectURL(env.seed) == Url.Redirect(url) && Derive(url) == Version(v)
  }

  /** The whole run, from the given bucket and scratch directory. */
  function Outcome(env: Env, store: Store, tmp: Dir): (r: Run)
    ensures |r.trace| >= 1 && r.trace[0] == GetSeed
    ensures r.exit.Panicked? <==>
      Url.GetRedirectURL(env.seed).Redirect? && Derive(Url.GetRedirectURL(env.seed).url).IndexOutOfRange?
    ensures store.Keys <= r.store.Keys
  {
    match Url.GetRedirectURL(env.seed)
    case ExitOnTransportError => Run(Failed(ResolveTransport), store, tmp, [GetSeed])
    case StatusError(_) => Run(Failed(ResolveStatus), store, tmp, [GetSeed])
    case Redirect(url) =>
      match Derive(url)
      case IndexOutOfRange(_) => Run(Panicked, store, tmp, [GetSeed])
      case Version(v) => Gate(env, url, v, store, tmp)
  }

  /** Lines 44-62: the existence check on the archive key. */
  function Gate(env: Env, url: string, v: string, store: Store, tmp: Dir): (r: Run)
    ensures [GetSeed, StatObject(ArchiveKey(v))] <= r.trace
    ensures r.exit.AlreadyPublished? <==> !env.statFails && ArchiveKey(v) in store
    ensures !r.exit.Panicked? && store.Keys <= r.store.Keys
  {
    var trace := [GetSeed, StatObject(ArchiveKey(v))];
    if env.statFails then Run(Failed(CheckExists), store, tmp, trace)
    else if ArchiveKey(v) in store then Run(AlreadyPublished, store, tmp, trace)
    else Acquire(env, url, v, store, tmp, trace)
  }

  /** Lines 64-103: download, create "tmp" when absent, read the body, upload the archive. */
  function Acquire(env: Env, url: string, v: string, store: Store, tmp: Dir, trace: seq<Effect>): (r: Run)
    ensures trace + [GetArchive(url)] <= r.trace
    ensures r.exit.Completed? || r.exit.Failed?
    ensures r.exit.Failed? && !AfterArchiveUpload(r.exit.at) ==> r.store == store
    ensures r.exit.Completed? || (r.exit.Failed? && AfterArchiveUpload(r.exit.at)) ==>
      env.body.Some? && ArchiveKey(v) in r.store && r.store[ArchiveKey(v)] == env.body.value
    ensures r.exit.Completed? ==>
      r.tmp == Absent && env.dbFile.Some? && env.body.Some?
      && r.store == store[ArchiveKey(v) := env.body.value][DatabaseKey(v) := env.dbFile.value]
    ensures store.Keys <= r.store.Keys
  {
    var fetched := trace + [GetArchive(url)];
    if !env.getOk then Run(Failed(Download), store, tmp, fetched)
    else if tmp.Absent? && !env.mkdirOk then Run(Failed(MakeTmpDir), store, tmp, fetched + [MakeTmp])
    else
      var files := if tmp.Absent? then map[] else tmp.files;
      if env.body.None? then Run(Failed(ReadArchiveBody), store, Present(files), ReadCalls(trace, url, tmp))
      else if !env.putArchiveOk then Run(Failed(UploadArchive), store, Present(files), UploadCalls(trace, url, v, tmp))
      else Unpack(env, v, store[ArchiveKey(v) := env.body.value], files, UploadCalls(trace, url, v, tmp))
  }

  /** The calls of lines 64-86 after `trace`: the download, "tmp" created when absent, the body read. */
  function ReadCalls(trace: seq<Effect>, url: string, tmp: Dir): seq<Effect>
  {
    var fetched := trace + [GetArchive(url)];
    (if tmp.Absent? then fetched + [MakeTmp] else fetched) + [ReadBody]
  }

  /** The calls of lines 64-98 after `trace`: those of `ReadCalls`, then the archive upload. */
  function UploadCalls(trace: seq<Effect>, url: string, v: string, tmp: Dir): seq<Effect>
  {
    ReadCalls(trace, url, tmp) + [PutObject(ArchiveKey(v))]
  }

  /** Lines 105-141: open the archive and extract the target files into "tmp". */
  function Unpack(env: Env, v: string, store: Store, files: Files, trace: seq<Effect>): (r: Run)
    ensures trace + [OpenZip] <= r.trace
    ensures r.exit.Completed? || (r.exit.Failed? && AfterArchiveUpload(r.exit.at))
    ensures !r.exit.Completed? ==> r.store == store
    ensures r.exit.Completed? ==>
      r.tmp == Absent && env.dbFile.Some? && r.store == store[DatabaseKey(v) := env.dbFile.value]
  {
    var trace := trace + [OpenZip];
    if env.archive.None? then Run(Failed(OpenArchive), store, Present(files), trace)
    else
      var x := Extraction.Extracted(env.archive.value, files);
      if x.failed.Some? then Run(Failed(x.failed.value), store, Present(x.files), trace + x.trace)
      else Load(env, v, store, x.files, trace + x.trace)
  }

  /** Lines 143-184: the database, whose statement results are ignored, then removal of "tmp". */
  function Load(env: Env, v: string, store: Store, files: Files, trace: seq<Effect>): (r: Run)
    ensures trace <= r.trace
    ensures r.exit.Completed? ||
      (r.exit.Failed? && r.exit.at in {OpenDatabase, CloseDatabase, RemoveTmpDir, ReadDatabaseFile, UploadDatabase})
    ensures !r.exit.Completed? ==> r.store == store
    ensures r.exit.Completed? ==>
      r.tmp == Absent && env.dbFile.Some? && r.store == store[DatabaseKey(v) := env.dbFile.value]
  {
    var trace := trace + [OpenDb(DatabaseKey(v))];
    if !env.openDbOk then Run(Failed(OpenDatabase), store, Present(files), trace)
    else
      var trace := trace + LoadCalls + [CloseDb];
      if !env.closeDbOk then Run(Failed(CloseDatabase), store, Present(files), trace)
      else
        var trace := trace + [RemoveTmp];
        if !env.removeTmpOk then Run(Failed(RemoveTmpDir), store, Present(files), trace)
        else Publish(env, v, store, trace)
  }

  /** Lines 186-207: read the database file back and upload it. */
  function Publish(env: Env, v: string, store: Store, trace: seq<Effect>): (r: Run)
    ensures trace <= r.trace && r.tmp == Absent
    ensures r.exit.Completed? || (r.exit.Failed? && r.exit.at in {ReadDatabaseFile, UploadDatabase})
    ensures !r.exit.Completed? ==> r.store == store
    ensures r.exit.Completed? ==> env.dbFile.Some? && r.store == store[DatabaseKey(v) := env.dbFile.value]
  {
    var trace := trace + [ReadDbFile(DatabaseKey(v))];
    if env.dbFile.None? then Run(Failed(ReadDatabaseFile), store, Absent, trace)
    else
      var trace := trace + [PutObject(DatabaseKey(v))];
      if !env.putDbOk then Run(Failed(UploadDatabase), store, Absent, trace)
      else Run(Completed, store[DatabaseKey(v) := env.dbFile.value], Absent, trace)
  }

  /** `main`, step by step. */
  method Ingest(env: Env, store: Store, tmp: Dir)
    returns (exit: Exit, store': Store, tmp': Dir, trace: seq<Effect>)
    ensures Run(exit, store', tmp', trace) == Outcome(env, store, tmp)
  {
    store', tmp', trace := store, tmp, [GetSeed];
    var resolved := Url.GetRedirectURL(env.seed);
    if resolved.ExitOnTransportError? {
      exit := Failed(ResolveTransport);
      return;
    }
    if resolved.StatusError? {
      exit := Failed(ResolveStatus);
      return;
    }
    var url := resolved.url;
    var version := Derive(url);
    if version.IndexOutOfRange? {
      exit := Panicked;
      return;
    }
    var archiveKey, dbFileName := ArchiveKey(version.value), DatabaseKey(version.value);
    ghost var v := version.value;
    ghost var spec := Outcome(env, store, tmp);
    assert spec == Gate(env, url, v, store, tmp);

    trace := trace + [StatObject(archiveKey)];
    if env.statFails {
      exit := Failed(CheckExists);
      return;
    }
    if archiveKey in store' {
      exit := AlreadyPublished;
      return;
    }

    assert trace == [GetSeed, StatObject(ArchiveKey(v))];
    assert spec == Acquire(env, url, v, store, tmp, trace);
    trace := trace + [GetArchive(url)];
    if !env.getOk {
      exit := Failed(Download);
      return;
    }
    if tmp'.Absent? {
      trace := trace + [MakeTmp];
      if !env.mkdirOk {
        exit := Failed(MakeTmpDir);
        return;
      }
      tmp' := Present(map[]);
    }
    trace := trace + [ReadBody];
    if env.body.None? {
      exit := Failed(ReadArchiveBody);
      return;
    }
    trace := trace + [PutObject(archiveKey)];
    if !env.putArchiveOk {
      exit := Failed(UploadArchive);
      return;
    }
    store' := store'[archiveKey := env.body.value];
    assert spec == Unpack(env, v, store', tmp'.files, trace);

    trace := trace + [OpenZip];
    if env.archive.None? {
      exit := Failed(OpenArchive);
      return;
    }
    var x := Extraction.Extract(env.archive.value, tmp'.files);
    trace := trace + x.trace;
    tmp' := Present(x.files);
    if x.failed.Some? {
      exit := Failed(x.failed.value);
      return;
    }

    assert spec == Load(env, v, store', x.files, trace);
    trace := trace + [OpenDb(dbFileName)];
    if !env.openDbOk {
      exit := Failed(OpenDatabase);
      return;
    }
    trace := trace + LoadCalls;
    trace := trace + [CloseDb];
    if !env.closeDbOk {
      exit := Failed(CloseDatabase);
      return;
    }
    trace := trace + [RemoveTmp];
    if !env.removeTmpOk {
      exit := Failed(RemoveTmpDir);
      return;
    }
    tmp' := Absent;
    assert spec == Publish(env, v, store', trace);

    trace := trace + [ReadDbFile(dbFileName)];
    if env.dbFile.None? {
      exit := Failed(ReadDatabaseFile);
      return;
    }
    trace := trace + [PutObject(dbFileName)];
    if !env.putDbOk {
      exit := Failed(UploadDatabase);
      return;
    }
    store' := store'[dbFileName := env.dbFile.value];
    exit := Completed;
  }
}
