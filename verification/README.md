# fetch_gtfs-fp: a verified model of the ingestion decision core

`fetch_gtfs-fp` is a Go program that runs once per invocation. It finds the
latest published GTFS timetable feed and derives a feed version from the
download URL. If the bucket already holds that version's archive, it stops.
Otherwise it downloads the archive and uploads it unchanged. It then extracts
four timetable files into a scratch directory, loads them into a DuckDB file,
and uploads that file.

This project models the decisions the program takes around its I/O:

- `url.dfy` (module `Url`) models `GetRedirectURL`. It maps the seed request's
  outcome to the `Location` URL, to the "unexpected status code" error, or to
  the process exit on a transport failure.
- `strings.dfy` (module `Strings`) models Go's `strings.Split` with a
  one-character separator, and `strings.ReplaceAll` with an empty replacement.
- `fmt.dfy` (module `Fmt`) models `%d` formatting and a parser that reads the
  result back.
- `feed_version.dfy` (module `FeedVersion`) derives the feed version and the
  two object keys from the resolved URL.
- `extraction.dfy` (module `Extraction`) is the allow-list loop over the
  archive entries. It is a `method` with a `while` loop, proved equal to a
  specification function. The lemmas about that function say which files the
  scratch directory holds and when the loop fails.
- `ingest.dfy` (module `Ingest`) is `main` as the method `Ingest`. It works
  step by step on the bucket (a map from key to bytes) and on the scratch
  directory, and records the external calls it makes in order. It is proved
  equal to the pure function `Outcome`.
- `ingest_properties.dfy` (module `IngestProperties`) holds the lemmas about
  `Outcome`: the early exits, how the bucket changes, the order of the
  uploads, the ignored load results, and what a second run sees.
- `io.dfy` (module `Io`) defines the shared vocabulary: bytes, the bucket, the
  scratch directory, external calls, failure stages and exit statuses.

Every external call is an input: the module `Ingest` collects them in the
datatype `Env`. The existence check answers from the bucket itself unless
`Env.statFails` says it errs. Each `os.Exit` becomes an `Exit` value. The index
panic at `main.go:37` becomes `Panicked`, with exit status 2 as Go's runtime
gives it.

The model follows the code as written. Where that differs from what a reader
of the program would expect, the model keeps the code's behaviour:

- Index `[2]` is the third `_`-field, however many fields follow. A resolved
  file name `xyz_2025_v7.zip` therefore gives version `v7`, not the year
  `2025`, and the keys are `v7_feed.zip` and `v7_feed.db`
  (`FeedVersion.ExampleVersion`, `FeedVersion.VersionIsThirdField`).
- The results of the five `conn.Exec` calls are discarded, so a failing load
  does not stop the run (`IngestProperties.ExecResultsIgnored`).
- A transport failure in the redirect lookup ends the process inside
  `GetRedirectURL` and returns no error value.
- The gate checks only the archive key. A run that fails after the archive
  upload therefore leaves a version whose database is never published
  (`IngestProperties.RerunAfterPartialUploadStrandsDatabase`).
- The scratch directory is removed at `main.go:180`, before the database file
  is read and uploaded. A failure before that point leaves it in place; a
  failure to read or upload the database file leaves it removed.
- Every `os.Exit(1)` logs an error first, except the one after a failed read
  of an archive entry (`main.go:129-131`), which exits silently.

## Model

| member | source | states |
|---|---|---|
| Url.GetRedirectURL | url/url.go:10-43 | a transport failure ends the process, with no value; exactly the statuses 301, 302, 303, 307 and 308 give the `Location` header value; every other status gives an error whose text after "unexpected status code: " parses back to that status |
| Url.NonRedirectStatusFails | url/url.go:37-39 | any status outside the five, 200 and 304 included, gives the error "unexpected status code: " followed by the status in decimal, and no URL |
| Url.StatusErrorsDistinguishCodes | url/url.go:39 | two different non-redirect statuses never give the same error message |
| Url.RedirectWithoutLocation | url/url.go:35 | a redirect status without a `Location` header still succeeds, with the empty URL |
| Url.HeaderGet | url/url.go:35 | `Header.Get` gives the first value stored under the key, and "" for an absent key |
| Fmt.FormatInt | url/url.go:39 | `%d` starts with `-` exactly for a negative integer, and every other character is a decimal digit |
| Fmt.ParseIntOfFormatInt | url/url.go:39 | the `%d` rendering of every integer reads back as that integer |
| Fmt.FormatIntInjective | url/url.go:39 | distinct integers get distinct `%d` renderings |
| Strings.Split | main.go:34 | `strings.Split` gives one more field than there are separators, and no field contains the separator |
| Strings.JoinSplit | main.go:34 | joining the fields of any string with the separator gives the string back |
| Strings.SplitJoin | main.go:37 | splitting a join of separator-free fields gives exactly those fields |
| Strings.SplitAppend | main.go:34-35 | splitting `u + sep + v` gives the fields of `u` followed by the fields of `v` |
| Strings.SplitWithoutSeparator | main.go:34-35 | a string without the separator splits into itself alone |
| Strings.DeleteAll | main.go:37 | `strings.ReplaceAll(s, pat, "")` never lengthens the string and introduces no character that was not in it |
| Strings.DeleteAllKeepsClearPrefix | main.go:37 | `ReplaceAll(s, pat, "")` keeps every character before the first occurrence of `pat` |
| Strings.DeleteAllWithoutOccurrence | main.go:37 | `ReplaceAll` leaves a string without an occurrence unchanged |
| Strings.NoOccurrenceAcross | main.go:37 | a separator absent from `pat` cannot be part of an occurrence of it |
| FeedVersion.LastSegment | main.go:34-35 | the last segment contains no `/`, is a suffix of the URL, and is either the whole URL or preceded by a `/` |
| FeedVersion.Stem | main.go:37 | the stem is the last segment with ".zip" deleted: it contains no `/`, is no longer than the segment, and equals a segment that has no dot |
| FeedVersion.Derive | main.go:34-37 | a version exists exactly when the stem has at least two underscores; otherwise the index is out of range, with fewer than three fields; a version has no `_` and no `/`; `FeedVersion.VersionIsThirdField` states that it is the third field |
| FeedVersion.OnlyLastSegmentMatters | main.go:34-37 | for any prefix, the version of `prefix/name` is the version of `name` |
| FeedVersion.DeleteTrailingZip | main.go:37 | a final ".zip" is dropped from a name that has no other occurrence of it |
| FeedVersion.NoZipWithoutDot | main.go:37 | a name without a dot contains no ".zip" |
| FeedVersion.FieldsOfStructuredName | main.go:37 | `a_b_c.zip` loses its ".zip" and splits into exactly a, b and c |
| FeedVersion.VersionOfStructuredName | main.go:34-37 | a URL ending in `a_b_c.zip`, with no `_`, `/` or ".zip" inside a, b or c, has version c |
| FeedVersion.VersionIsThirdField | main.go:34-37 | a URL whose last segment is `a_b_c_` followed by any `/`-free rest, with no `_`, `/` or ".zip" inside a, b or c, has version c, however many fields follow |
| FeedVersion.ExampleVersion | main.go:34-37 | `.../xyz_2025_v7.zip` has version "v7" |
| FeedVersion.ExampleLongerVersion | main.go:34-37 | `.../xyz_2025_v7_full.zip`, with four fields, also has version "v7" |
| FeedVersion.ArchiveKey | main.go:40 | the archive key is the version followed by "_feed.zip" |
| FeedVersion.DatabaseKey | main.go:39 | the database key is the version followed by "_feed.db" |
| FeedVersion.ExampleKeys | main.go:39-40 | version "v7" has the keys "v7_feed.zip" and "v7_feed.db" |
| FeedVersion.ArchiveAndDatabaseKeysDiffer | main.go:39-40 | no archive key equals any database key |
| FeedVersion.ArchiveKeyInjective | main.go:40 | equal archive keys come from equal versions, so the gate and the upload name the same version |
| FeedVersion.DatabaseKeyInjective | main.go:39 | equal database keys come from equal versions |
| Io.ExitStatus | main.go:53-62 | the exit status is 0 exactly for a completed run or an already-published version, and 1 exactly for an `os.Exit(1)`, whether or not it logged first |
| Extraction.Step | main.go:114-141 | one iteration only appends calls and keeps every file; it fails exactly on a target entry whose open, read or write fails, with the open failure at `OpenArchiveEntry`, the read failure at `ReadArchiveEntry` (the silent exit) and the write failure at `WriteTmpFile` |
| Extraction.Extracted | main.go:114-141 | the loop keeps every file the directory held, and a failure is always an entry open, read or write |
| Extraction.Extract | main.go:112-141 | the loop ends in the state the specification function `Extracted` gives, including where it stops |
| Extraction.FailureIsFinal | main.go:120-138 | once an entry has failed, later entries change nothing |
| Extraction.OnlyTargetsTouched | main.go:112-118 | the loop writes only the four target names, and opens and writes only target entries |
| Extraction.ExtractedFile | main.go:114-141 | after a complete loop, a target name holds the data of its last archive entry; other names keep what the directory held |
| Extraction.ExtractedFiles | main.go:114-141 | a complete loop leaves the directory's files overwritten by each target's last entry, and nothing else |
| Extraction.ExtractionFailsIff | main.go:120-138 | the loop fails exactly when some target entry fails to open, read or write; other entries never cause a failure |
| Ingest.Outcome | main.go:21-208 | every run starts with the seed request; it panics exactly when the redirect resolves to a name with fewer than three fields; nothing is ever removed from the bucket |
| Ingest.Gate | main.go:44-62 | the existence check is the second call; the run stops as already published exactly when the check succeeds and finds the archive key |
| Ingest.Acquire | main.go:64-103 | the download comes next; a failure before the archive upload succeeds leaves the bucket unchanged; past it the archive key holds the downloaded bytes; a completed run adds exactly the archive and the database and leaves no scratch directory |
| Ingest.Unpack | main.go:105-141 | the archive is opened after every earlier call; the run then completes or fails at a stage after the archive upload; a failure leaves the bucket unchanged, and completion adds exactly the database |
| Ingest.Load | main.go:143-184 | the database stage only appends calls; it completes or fails at the database open, close, scratch removal, read or upload; completion adds exactly the database and removes the scratch directory |
| Ingest.Publish | main.go:186-207 | the scratch directory is already gone; the run completes by storing the database file under its key, or fails at the read or upload leaving the bucket unchanged |
| Ingest.Ingest | main.go:21-208 | the step-by-step run ends with the exit, bucket, scratch directory and calls that `Outcome` gives |
| IngestProperties.ResolutionFailureTouchesNothing | main.go:24-29 | a failed redirect lookup exits with status 1 before any storage call, and changes nothing |
| IngestProperties.MalformedNamePanics | main.go:37 | a name with fewer than three fields panics, with status 2, before any storage call |
| IngestProperties.PublishedArchiveShortCircuits | main.go:44-62 | with the archive key present, the run exits 0 after one existence check; it downloads, uploads, extracts and loads nothing, and changes nothing |
| IngestProperties.CheckErrorChangesNothing | main.go:53-56 | an existence-check error exits with status 1 and leaves the bucket and the directory unchanged |
| IngestProperties.StoreChanges | main.go:89-205 | the bucket stays as it was, gains only the archive (every failure after the archive upload), or gains the archive and then the database (a completed run) |
| IngestProperties.EntryFailureExitsOne | main.go:112-141 | once the archive is uploaded and opened, the run exits with status 1 at an entry stage exactly when some allow-listed entry fails to open, read or write; other entries never cause a failure |
| IngestProperties.FailureAfterArchiveUpload | main.go:100-205 | a failure after the archive upload leaves the new archive in the bucket and the database key as it was |
| IngestProperties.UploadPrecedesUnpack | main.go:45-110 | a run that opens the archive has first made the existence check and the archive upload; a run that does not open it never uploads the database |
| IngestProperties.PublishOrder | main.go:45-205 | the archive key is checked before it is uploaded; the archive is uploaded before it is opened; it is opened before the database is uploaded |
| IngestProperties.ExecResultsIgnored | main.go:150-171 | the results of the four loads and of the index batch never change the run |
| IngestProperties.ScratchHoldsOnlyTargets | main.go:73-141 | the scratch directory only ever gains target files, and only target entries are opened |
| IngestProperties.UnpackTouchesOnlyTargets | main.go:105-141 | from the archive open onward, the directory gains only target files and only target entries are opened |
| IngestProperties.LoadKeepsWorkspace | main.go:143-184 | the database stages open no entries and either leave the extracted files or remove the directory |
| IngestProperties.CompletedRun | main.go:173-207 | a completed run exits 0, holds the downloaded archive and the database file under their keys, and leaves no scratch directory |
| IngestProperties.RerunAfterCompletion | main.go:44-62 | after a completed run, a second run for the same version exits at the gate and changes nothing |
| IngestProperties.RerunAfterPartialUploadStrandsDatabase | main.go:44-62 | after a run that failed once the archive was uploaded, a second run exits 0 at the gate and the database key stays absent |

## Left out

- HTTP transport and body reading (`client.Get`, `io.ReadAll`): network I/O. Their outcomes are the inputs `Env.seed`, `Env.getOk` and `Env.body`.
- Url.GetRedirectURL: accepts any integer status, though `net/http` only produces three-digit codes. This admits more inputs than the source; it is not a weaker promise.
- The MinIO client (`s3/s3.go`): the existence check is the bucket lookup, or an error when `Env.statFails`. The "NoSuchKey" classification (s3/s3.go:31-37) is folded into that flag. The client-construction panic (s3/s3.go:19-21) is not modelled.
- A failed upload is modelled as writing nothing. An upload that stores the object and then reports an error is not modelled.
- Zip decoding (`zip.NewReader`, `file.Open`) is a foreign library. Its result, including any effect of passing `ContentLength` rather than the body length (main.go:105), is the input `Env.archive`. Each entry's open, read and write outcomes are part of `Extraction.Member`.
- DuckDB is an opaque engine: the SQL semantics of the loads and indexes (main.go:150-171) are not modelled. Only the discarding of their results is. The database file's bytes are the input `Env.dbFile`. A stale database file left by an earlier run is not distinguished.
- Filesystem detail: a failing `os.WriteFile` or `os.RemoveAll` is modelled as changing nothing, with no partial writes or removals. An `os.Stat("tmp")` error other than "not exist", or a plain file named "tmp", is not modelled.
- Logging (`logging/logging.go`, the `slog` calls), environment variables and the bucket name `gtfs-fp`: configuration and side effects with no control logic.
- Go strings are UTF-8 bytes and the model's strings are characters. For the ASCII separators `/` and `_` and the pattern ".zip", splitting and deleting agree on valid UTF-8.
- `fileContent.Close()` (main.go:140) is not modelled. Its result is ignored, and it has no effect on the bucket or the directory.
- Concurrency, timeouts and real process termination: the run is sequential, and each exit is a returned value.
