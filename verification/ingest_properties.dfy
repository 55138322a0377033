/**
  What a run of `main` guarantees, and what it does not: the early exits, the
  order of the two uploads, what the scratch directory can hold, that the load
  statements' results play no part, and what a second run sees.
*/
module IngestProperties {
  import opened Wrappers
  import opened Io
  import Url
  import opened FeedVersion
  import Extraction
  import opened Ingest

  /** Every occurrence of `b` in `t` comes after some occurrence of `a`. */
  predicate PrecededBy(t: seq<Effect>, a: Effect, b: Effect)
  {
    forall j :: 0 <= j < |t| && t[j] == b ==> a in t[..j]
  }

  lemma PrecededByExtension(p: seq<Effect>, t: seq<Effect>, a: Effect, b: Effect)
    requires p <= t && a in p && b !in p
    ensures PrecededBy(t, a, b)
  {
    forall j | 0 <= j < |t| && t[j] == b ensures a in t[..j] {
      assert p <= t[..j];
    }
  }

  /** A failed redirect lookup ends the run with status 1 before any storage call. */
  lemma ResolutionFailureTouchesNothing(env: Env, store: Store, tmp: Dir)
    requires !Url.GetRedirectURL(env.seed).Redirect?
    ensures var r := Outcome(env, store, tmp);
      && ExitStatus(r.exit) == 1
      && r.exit == (if env.seed.TransportError? then Failed(ResolveTransport) else Failed(ResolveStatus))
      && r.store == store && r.tmp == tmp && r.trace == [GetSeed]
  {
  }

  /** A file name with fewer than three `_`-separated fields panics before any storage call. */
  lemma MalformedNamePanics(env: Env, store: Store, tmp: Dir, url: string)
    requires Url.GetRedirectURL(env.seed) == Url.Redirect(url) && Derive(url).IndexOutOfRange?
    ensures var r := Outcome(env, store, tmp);
      r.exit == Panicked && ExitStatus(r.exit) == 2 && r.store == store && r.trace == [GetSeed]
  {
  }

  /**
    When the archive key is already in the bucket, the run exits with status 0
    after the one existence check: no download, no upload, no extraction, no
    database work, and nothing changes.
  */
  lemma PublishedArchiveShortCircuits(env: Env, store: Store, tmp: Dir, url: string, v: string)
    requires ResolvesTo(env, url, v) && !env.statFails && ArchiveKey(v) in store
    ensures var r := Outcome(env, store, tmp);
      && r.exit == AlreadyPublished && ExitStatus(r.exit) == 0
      && r.store == store && r.tmp == tmp
      && r.trace == [GetSeed, StatObject(ArchiveKey(v))]
  {
  }

  /** An error from the existence check ends the run with status 1 and changes nothing. */
  lemma CheckErrorChangesNothing(env: Env, store: Store, tmp: Dir, url: string, v: string)
    requires ResolvesTo(env, url, v) && env.statFails
    ensures var r := Outcome(env, store, tmp);
      && r.exit == Failed(CheckExists) && ExitStatus(r.exit) == 1
      && r.store == store && r.tmp == tmp
      && r.trace == [GetSeed, StatObject(ArchiveKey(v))]
  {
  }

  /**
    The bucket changes in exactly three ways: not at all, by the archive alone
    (every failure after the archive upload), or by the archive and then the
    database (a completed run).
  */
  lemma {:induction false} StoreChanges(env: Env, store: Store, tmp: Dir, url: string, v: string)
    requires ResolvesTo(env, url, v)
    ensures var r := Outcome(env, store, tmp);
      && (r.exit.Completed? ==>
            env.body.Some? && env.dbFile.Some? &&
            r.store == store[ArchiveKey(v) := env.body.value][DatabaseKey(v) := env.dbFile.value])
      && (r.exit.Failed? && AfterArchiveUpload(r.exit.at) ==>
            env.body.Some? && r.store == store[ArchiveKey(v) := env.body.value])
      && (!r.exit.Completed? && !(r.exit.Failed? && AfterArchiveUpload(r.exit.at)) ==>
            r.store == store)
  {
    var r := Outcome(env, store, tmp);
    assert r == Gate(env, url, v, store, tmp);
    if !env.statFails && ArchiveKey(v) !in store && env.getOk && (tmp.Present? || env.mkdirOk)
       && env.body.Some? && env.putArchiveOk && env.archive.Some?
    {
      var files := if tmp.Absent? then map[] else tmp.files;
      var x := Extraction.Extracted(env.archive.value, files);
      assert x.failed.Some? ==> AfterArchiveUpload(x.failed.value);
    }
  }

  /**
    Once the archive is uploaded and opened, the run ends with status 1 at an
    entry stage exactly when some target entry fails to open, read or write;
    entries outside the allow-list never cause a failure.
  */
  lemma EntryFailureExitsOne(env: Env, store: Store, tmp: Dir, url: string, v: string)
    requires ResolvesTo(env, url, v) && !env.statFails && ArchiveKey(v) !in store
    requires env.getOk && (tmp.Present? || env.mkdirOk) && env.body.Some? && env.putArchiveOk
    requires env.archive.Some?
    ensures var r := Outcome(env, store, tmp);
      (r.exit.Failed? && r.exit.at in {OpenArchiveEntry, ReadArchiveEntry, WriteTmpFile})
      <==> exists k :: 0 <= k < |env.archive.value| && env.archive.value[k].name in Extraction.TargetFiles
                        && env.archive.value[k].io != Extraction.Healthy
    ensures var r := Outcome(env, store, tmp);
      r.exit.Failed? && r.exit.at in {OpenArchiveEntry, ReadArchiveEntry, WriteTmpFile} ==> ExitStatus(r.exit) == 1
  {
    var files := if tmp.Absent? then map[] else tmp.files;
    Extraction.ExtractionFailsIff(env.archive.value, files);
    assert Outcome(env, store, tmp) == Gate(env, url, v, store, tmp);
    assert Outcome(env, store, tmp) == Acquire(env, url, v, store, tmp, [GetSeed, StatObject(ArchiveKey(v))]);
  }

  /**
    A failure after the archive upload leaves the archive in the bucket and the
    database key as it was: a half-published version.
  */
  lemma FailureAfterArchiveUpload(env: Env, store: Store, tmp: Dir, url: string, v: string)
    requires ResolvesTo(env, url, v)
    requires var r := Outcome(env, store, tmp); r.exit.Failed? && AfterArchiveUpload(r.exit.at)
    ensures var r := Outcome(env, store, tmp);
      && ArchiveKey(v) in r.store && ArchiveKey(v) !in store
      && (DatabaseKey(v) in r.store <==> DatabaseKey(v) in store)
      && (DatabaseKey(v) in store ==> r.store[DatabaseKey(v)] == store[DatabaseKey(v)])
  {
    StoreChanges(env, store, tmp, url, v);
    ArchiveAndDatabaseKeysDiffer(v, v);
  }

  /**
    The run's calls up to and including the archive upload, when it gets that
    far: the gate's existence check comes first, and nothing after it opens the
    archive or touches the database key.
  */
  function UploadTrace(url: string, v: string, tmp: Dir): (t: seq<Effect>)
    ensures StatObject(ArchiveKey(v)) in t && OpenZip !in t && PutObject(DatabaseKey(v)) !in t
    ensures forall e :: e in t ==> !e.OpenEntry?
  {
    UploadCalls([GetSeed, StatObject(ArchiveKey(v))], url, v, tmp)
  }

  /** The run's calls up to and including the read of the archive body. */
  function ReadTrace(url: string, v: string, tmp: Dir): (t: seq<Effect>)
    ensures StatObject(ArchiveKey(v)) in t && OpenZip !in t
    ensures forall k :: PutObject(k) !in t
    ensures forall e :: e in t ==> !e.OpenEntry?
  {
    ReadCalls([GetSeed, StatObject(ArchiveKey(v))], url, tmp)
  }

  lemma PrefixOfExtension(p: seq<Effect>, q: seq<Effect>, t: seq<Effect>)
    requires p + q <= t
    ensures p <= t
  {
    assert (p + q)[..|p|] == p;
  }

  /** The runs that get past the archive upload continue from `UploadTrace`; the others never open the archive. */
  lemma {:induction false} UploadPrecedesUnpack(env: Env, store: Store, tmp: Dir, url: string, v: string)
    requires ResolvesTo(env, url, v)
    ensures var r := Outcome(env, store, tmp);
      || (UploadTrace(url, v, tmp) + [OpenZip] <= r.trace)
      || (OpenZip !in r.trace && PutObject(DatabaseKey(v)) !in r.trace &&
          PrecededBy(r.trace, StatObject(ArchiveKey(v)), PutObject(ArchiveKey(v))))
  {
    var r := Outcome(env, store, tmp);
    var ak, dk := ArchiveKey(v), DatabaseKey(v);
    ArchiveAndDatabaseKeysDiffer(v, v);
    assert r == Gate(env, url, v, store, tmp);
    var gated := [GetSeed, StatObject(ak)];
    if env.statFails || ak in store {
      assert r.trace == gated;
    } else {
      assert r == Acquire(env, url, v, store, tmp, gated);
      AcquireUploadsFirst(env, url, v, store, tmp);
    }
  }

  lemma AcquireUploadsFirst(env: Env, url: string, v: string, store: Store, tmp: Dir)
    ensures var ak := ArchiveKey(v);
      var r := Acquire(env, url, v, store, tmp, [GetSeed, StatObject(ak)]);
      || (UploadTrace(url, v, tmp) + [OpenZip] <= r.trace)
      || (OpenZip !in r.trace && PutObject(DatabaseKey(v)) !in r.trace &&
          PrecededBy(r.trace, StatObject(ak), PutObject(ak)))
  {
    var ak, dk := ArchiveKey(v), DatabaseKey(v);
    ArchiveAndDatabaseKeysDiffer(v, v);
    var r := Acquire(env, url, v, store, tmp, [GetSeed, StatObject(ak)]);
    var fetched := [GetSeed, StatObject(ak)] + [GetArchive(url)];
    var read := ReadTrace(url, v, tmp);
    if !env.getOk {
      assert r.trace == fetched;
    } else if tmp.Absent? && !env.mkdirOk {
      assert r.trace == fetched + [MakeTmp];
    } else if env.body.None? {
      assert r.trace == read;
    } else if !env.putArchiveOk {
      assert r.trace == read + [PutObject(ak)];
      PrecededByExtension(read, r.trace, StatObject(ak), PutObject(ak));
    } else {
      var files := if tmp.Absent? then map[] else tmp.files;
      assert r == Unpack(env, v, store[ak := env.body.value], files, UploadTrace(url, v, tmp));
    }
  }

  /**
    The archive is uploaded before the archive is opened, and the archive is
    opened before the database is uploaded; the archive upload uses the key
    that the gate checked.
  */
  lemma PublishOrder(env: Env, store: Store, tmp: Dir, url: string, v: string)
    requires ResolvesTo(env, url, v)
    ensures var r := Outcome(env, store, tmp);
      && PrecededBy(r.trace, StatObject(ArchiveKey(v)), PutObject(ArchiveKey(v)))
      && PrecededBy(r.trace, PutObject(ArchiveKey(v)), OpenZip)
      && PrecededBy(r.trace, OpenZip, PutObject(DatabaseKey(v)))
  {
    UploadPrecedesUnpack(env, store, tmp, url, v);
    OrderOfTrace(Outcome(env, store, tmp).trace, url, v, tmp);
  }

  lemma OrderOfTrace(t: seq<Effect>, url: string, v: string, tmp: Dir)
    requires || (UploadTrace(url, v, tmp) + [OpenZip] <= t)
             || (OpenZip !in t && PutObject(DatabaseKey(v)) !in t &&
                 PrecededBy(t, StatObject(ArchiveKey(v)), PutObject(ArchiveKey(v))))
    ensures PrecededBy(t, StatObject(ArchiveKey(v)), PutObject(ArchiveKey(v)))
    ensures PrecededBy(t, PutObject(ArchiveKey(v)), OpenZip)
    ensures PrecededBy(t, OpenZip, PutObject(DatabaseKey(v)))
  {
    var ak, dk := ArchiveKey(v), DatabaseKey(v);
    var read := ReadTrace(url, v, tmp);
    var uploaded := read + [PutObject(ak)];
    if uploaded + [OpenZip] <= t {
      ArchiveAndDatabaseKeysDiffer(v, v);
      PrefixOfExtension(uploaded, [OpenZip], t);
      PrefixOfExtension(read, [PutObject(ak)], t);
      PrecededByExtension(read, t, StatObject(ak), PutObject(ak));
      assert PutObject(ak) in uploaded && OpenZip !in uploaded && PutObject(dk) !in uploaded;
      PrecededByExtension(uploaded, t, PutObject(ak), OpenZip);
      PrecededByExtension(uploaded + [OpenZip], t, OpenZip, PutObject(dk));
    }
  }

  /** The results of the four loads and the index batch never change the run. */
  lemma ExecResultsIgnored(env: Env, store: Store, tmp: Dir, results: seq<bool>)
    ensures Outcome(env.(execOk := results), store, tmp) == Outcome(env, store, tmp)
  {
  }

  /**
    The scratch directory only ever gains target files beside those it held
    before the run, and every entry opened is a target entry.
  */
  lemma {:induction false} ScratchHoldsOnlyTargets(env: Env, store: Store, tmp: Dir)
    ensures var r := Outcome(env, store, tmp);
      r.tmp.Present? ==>
        forall n :: n in r.tmp.files ==> (tmp.Present? && n in tmp.files) || n in Extraction.TargetFiles
    ensures forall e :: e in Outcome(env, store, tmp).trace && e.OpenEntry? ==> e.name in Extraction.TargetFiles
  {
    var r := Outcome(env, store, tmp);
    match Url.GetRedirectURL(env.seed)
    case ExitOnTransportError =>
    case StatusError(_) =>
    case Redirect(url) =>
      match Derive(url)
      case IndexOutOfRange(_) =>
      case Version(v) =>
        assert r == Gate(env, url, v, store, tmp);
        if !env.statFails && ArchiveKey(v) !in store {
          assert r == Acquire(env, url, v, store, tmp, [GetSeed, StatObject(ArchiveKey(v))]);
          AcquireTouchesOnlyTargets(env, url, v, store, tmp);
        }
  }

  lemma AcquireTouchesOnlyTargets(env: Env, url: string, v: string, store: Store, tmp: Dir)
    ensures var r := Acquire(env, url, v, store, tmp, [GetSeed, StatObject(ArchiveKey(v))]);
      && (r.tmp.Present? ==>
            forall n :: n in r.tmp.files ==> (tmp.Present? && n in tmp.files) || n in Extraction.TargetFiles)
      && (forall e :: e in r.trace && e.OpenEntry? ==> e.name in Extraction.TargetFiles)
  {
    var r := Acquire(env, url, v, store, tmp, [GetSeed, StatObject(ArchiveKey(v))]);
    if env.getOk && (tmp.Present? || env.mkdirOk) && env.body.Some? && env.putArchiveOk {
      var files := if tmp.Absent? then map[] else tmp.files;
      var store' := store[ArchiveKey(v) := env.body.value];
      assert r == Unpack(env, v, store', files, UploadTrace(url, v, tmp));
      UnpackTouchesOnlyTargets(env, v, store', files, UploadTrace(url, v, tmp));
    }
  }

  lemma UnpackTouchesOnlyTargets(env: Env, v: string, store: Store, files: Files, trace: seq<Effect>)
    requires forall e :: e in trace ==> !e.OpenEntry?
    ensures var r := Unpack(env, v, store, files, trace);
      && (r.tmp.Present? ==> forall n :: n in r.tmp.files ==> n in files || n in Extraction.TargetFiles)
      && (forall e :: e in r.trace && e.OpenEntry? ==> e.name in Extraction.TargetFiles)
  {
    var r := Unpack(env, v, store, files, trace);
    if env.archive.Some? {
      var pre := trace + [OpenZip];
      Extraction.OnlyTargetsTouched(env.archive.value, files);
      var x := Extraction.Extracted(env.archive.value, files);
      if x.failed.None? {
        assert r == Load(env, v, store, x.files, pre + x.trace);
        LoadKeepsWorkspace(env, v, store, x.files, pre + x.trace);
      }
      forall e | e in r.trace && e.OpenEntry? ensures e.name in Extraction.TargetFiles {
        assert e in pre + x.trace;
        assert e in x.trace;
      }
    }
  }

  /** The database and publish stages add no entry opens, and leave the workspace or remove it. */
  lemma LoadKeepsWorkspace(env: Env, v: string, store: Store, files: Files, trace: seq<Effect>)
    ensures var r := Load(env, v, store, files, trace);
      && (r.tmp == Absent || r.tmp == Present(files))
      && (forall e :: e in r.trace && e.OpenEntry? ==> e in trace)
  {
  }

  /** A completed run uploads both objects and leaves no scratch directory behind. */
  lemma CompletedRun(env: Env, store: Store, tmp: Dir, url: string, v: string)
    requires ResolvesTo(env, url, v) && Outcome(env, store, tmp).exit.Completed?
    ensures var r := Outcome(env, store, tmp);
      && r.tmp == Absent && ExitStatus(r.exit) == 0
      && ArchiveKey(v) in r.store && DatabaseKey(v) in r.store
      && r.store[ArchiveKey(v)] == env.body.value && r.store[DatabaseKey(v)] == env.dbFile.value
  {
    var r := Outcome(env, store, tmp);
    assert r == Gate(env, url, v, store, tmp);
    assert r == Acquire(env, url, v, store, tmp, [GetSeed, StatObject(ArchiveKey(v))]);
    ArchiveAndDatabaseKeysDiffer(v, v);
  }

  /** A second run for the same version after a completed one is a no-op that exits with status 0. */
  lemma RerunAfterCompletion(env: Env, env': Env, store: Store, tmp: Dir, url: string, v: string)
    requires ResolvesTo(env, url, v) && Outcome(env, store, tmp).exit.Completed?
    requires env'.seed == env.seed && !env'.statFails
    ensures var r := Outcome(env, store, tmp); var r' := Outcome(env', r.store, r.tmp);
      r'.exit == AlreadyPublished && r'.store == r.store && r'.tmp == r.tmp
  {
    CompletedRun(env, store, tmp, url, v);
  }

  /**
    The gate looks only at the archive key: after a run that failed once the
    archive was uploaded, every later run for that version exits with status 0
    and the database is never published.
  */
  lemma RerunAfterPartialUploadStrandsDatabase(env: Env, env': Env, store: Store, tmp: Dir, url: string, v: string)
    requires ResolvesTo(env, url, v) && DatabaseKey(v) !in store
    requires var r := Outcome(env, store, tmp); r.exit.Failed? && AfterArchiveUpload(r.exit.at)
    requires env'.seed == env.seed && !env'.statFails
    ensures var r := Outcome(env, store, tmp); var r' := Outcome(env', r.store, r.tmp);
      && r'.exit == AlreadyPublished && ExitStatus(r'.exit) == 0
      && DatabaseKey(v) !in r'.store
  {
    FailureAfterArchiveUpload(env, store, tmp, url, v);
  }
}
