/**
  The outside world of the ingestion run as the model sees it: byte strings,
  the object store, the scratch directory, the external calls made (in order),
  the places where the run can stop, and how the process ends.
*/
module Io {

  newtype Byte = b: int | 0 <= b < 256
  type Bytes = seq<Byte>

  /** The bucket: object key to object bytes. */
  type Store = map<string, Bytes>

  /** File name to file bytes, for the files inside the scratch directory. */
  type Files = map<string, Bytes>

  /** The scratch directory "tmp": absent, or present with its files. */
  datatype Dir = Absent | Present(files: Files)

  /** One external call the run makes, in the order made (whether or not it succeeds). */
  datatype Effect =
    | GetSeed                    // GET of the seed URL, redirects not followed
    | StatObject(key: string)    // object-store existence check
    | GetArchive(url: string)    // GET of the resolved URL
    | MakeTmp                    // os.Mkdir("tmp")
    | ReadBody                   // io.ReadAll of the archive response body
    | PutObject(key: string)     // object-store upload
    | OpenZip                    // zip.NewReader over the downloaded bytes
    | OpenEntry(name: string)    // open and read one archive entry
    | WriteTmp(name: string)     // os.WriteFile("tmp/" + name)
    | OpenDb(file: string)       // sql.Open("duckdb", file)
    | Exec(index: nat)           // one of the five load / index statements
    | CloseDb                    // conn.Close()
    | RemoveTmp                  // os.RemoveAll("tmp")
    | ReadDbFile(file: string)   // os.ReadFile of the database file

  /** The call whose failure ended the run. */
  datatype Stage =
    | ResolveTransport | ResolveStatus | CheckExists | Download | MakeTmpDir
    | ReadArchiveBody | UploadArchive | OpenArchive | OpenArchiveEntry
    | ReadArchiveEntry | WriteTmpFile | OpenDatabase | CloseDatabase
    | RemoveTmpDir | ReadDatabaseFile | UploadDatabase

  /** The stages that come after the archive upload has succeeded. */
  predicate AfterArchiveUpload(s: Stage)
  {
    s in {OpenArchive, OpenArchiveEntry, ReadArchiveEntry, WriteTmpFile, OpenDatabase,
          CloseDatabase, RemoveTmpDir, ReadDatabaseFile, UploadDatabase}
  }

  /** How the process ends. */
  datatype Exit =
    | Completed           // main returns after publishing both objects
    | AlreadyPublished    // os.Exit(0): the archive key is already in the bucket
    | Failed(at: Stage)   // os.Exit(1); logged first, except after an entry read failure
    | Panicked            // runtime panic: the version index is out of range

  /** The process exit status: Go's runtime exits with 2 on an unrecovered panic. */
  function ExitStatus(e: Exit): (code: nat)
    ensures code == 0 <==> e.Completed? || e.AlreadyPublished?
    ensures code == 1 <==> e.Failed?
  {
    match e
    case Completed => 0
    case AlreadyPublished => 0
    case Failed(_) => 1
    case Panicked => 2
  }
}
