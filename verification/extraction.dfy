/**
  The allow-list extraction loop (`main.go`, lines 112-141): every archive entry
  whose name is one of four target names is opened, read and written into the
  scratch directory under that name; every other entry is skipped. Any open,
  read or write failure on a target entry ends the run.
*/
module Extraction {
  import opened Wrappers
  import opened Io

  const TargetFiles: seq<string> := ["stops.txt", "routes.txt", "stop_times.txt", "trips.txt"]

  /** What the three calls made for one entry give: all succeed, or the first failing one. */
  datatype EntryIO = Healthy | OpenFails | ReadFails | WriteFails

  /** One entry of the archive's central directory, with the outcome of reading and writing it. */
  datatype Member = Member(name: string, data: Bytes, io: EntryIO)

  /**
    The state of the loop: the stage that stopped it (if any), the scratch files,
    and the calls made so far.
  */
  datatype Extraction = Extraction(failed: Option<Stage>, files: Files, trace: seq<Effect>)

  /** One iteration of the loop body. */
  function Step(x: Extraction, m: Member): (r: Extraction)
    requires x.failed == None
    ensures x.trace <= r.trace && x.files.Keys <= r.files.Keys
    ensures r.failed.Some? <==> m.name in TargetFiles && !m.io.Healthy?
    ensures r.failed.Some? ==> r.failed.value in {OpenArchiveEntry, ReadArchiveEntry, WriteTmpFile}
    ensures r.failed == Some(OpenArchiveEntry) <==> m.name in TargetFiles && m.io.OpenFails?
    ensures r.failed == Some(ReadArchiveEntry) <==> m.name in TargetFiles && m.io.ReadFails?
    ensures r.failed == Some(WriteTmpFile) <==> m.name in TargetFiles && m.io.WriteFails?
  {
    if m.name !in TargetFiles then x
    else match m.io
      case OpenFails => Extraction(Some(OpenArchiveEntry), x.files, x.trace + [OpenEntry(m.name)])
      case ReadFails => Extraction(Some(ReadArchiveEntry), x.files, x.trace + [OpenEntry(m.name)])
      case WriteFails =>
        Extraction(Some(WriteTmpFile), x.files, x.trace + [OpenEntry(m.name), WriteTmp(m.name)])
      case Healthy =>
        Extraction(None, x.files[m.name := m.data], x.trace + [OpenEntry(m.name), WriteTmp(m.name)])
  }

  /** The loop run over `members`, starting from the scratch files `files`, stopping at the first failure. */
  function Extracted(members: seq<Member>, files: Files): (x: Extraction)
    ensures files.Keys <= x.files.Keys
    ensures x.failed.Some? ==> x.failed.value in {OpenArchiveEntry, ReadArchiveEntry, WriteTmpFile}
    decreases |members|
  {
    if |members| == 0 then Extraction(None, files, [])
    else
      var x := Extracted(members[..|members| - 1], files);
      if x.failed.Some? then x else Step(x, members[|members| - 1])
  }

  /** Once the loop has stopped, later entries change nothing. */
  lemma {:induction false} FailureIsFinal(members: seq<Member>, files: Files, i: nat)
    requires i <= |members| && Extracted(members[..i], files).failed.Some?
    ensures Extracted(members, files) == Extracted(members[..i], files)
    decreases |members| - i
  {
    if i < |members| {
      var prefix := members[..i + 1];
      assert prefix[..|prefix| - 1] == members[..i];
      assert Extracted(prefix, files) == Extracted(members[..i], files);
      FailureIsFinal(members, files, i + 1);
    } else {
      assert members[..i] == members;
    }
  }

  /** The loop of `main.go`, lines 114-141. */
  method Extract(members: seq<Member>, files: Files) returns (x: Extraction)
    ensures x == Extracted(members, files)
  {
    x := Extraction(None, files, []);
    var i := 0;
    while i < |members|
      invariant 0 <= i <= |members|
      invariant x == Extracted(members[..i], files)
      invariant x.failed == None
    {
      var m := members[i];
      assert members[..i + 1][..i] == members[..i];
      if m.name !in TargetFiles {
        i := i + 1;
        continue;
      }
      var trace := x.trace + [OpenEntry(m.name)];
      if m.io == OpenFails {
        x := Extraction(Some(OpenArchiveEntry), x.files, trace);
        FailureIsFinal(members, files, i + 1);
        return;
      }
      if m.io == ReadFails {
        x := Extraction(Some(ReadArchiveEntry), x.files, trace);
        FailureIsFinal(members, files, i + 1);
        return;
      }
      trace := trace + [WriteTmp(m.name)];
      if m.io == WriteFails {
        x := Extraction(Some(WriteTmpFile), x.files, trace);
        FailureIsFinal(members, files, i + 1);
        return;
      }
      x := Extraction(None, x.files[m.name := m.data], trace);
      i := i + 1;
    }
    assert members[..i] == members;
  }

  /** The data of the last entry named `name`, if there is one. */
  function LastData(members: seq<Member>, name: string): Option<Bytes>
    decreases |members|
  {
    if |members| == 0 then None
    else if members[|members| - 1].name == name then Some(members[|members| - 1].data)
    else LastData(members[..|members| - 1], name)
  }

  /**
    What a complete extraction leaves in the scratch directory: the files that
    were there, with each target name that occurs in the archive overwritten by
    the data of its last occurrence.
  */
  function Expected(members: seq<Member>, files: Files): Files
  {
    files + map n | n in TargetFiles && LastData(members, n).Some? :: LastData(members, n).value
  }

  /** Every call in `trace` opens or writes a target entry. */
  predicate TouchesOnlyTargets(trace: seq<Effect>)
  {
    forall e :: e in trace ==> (e.OpenEntry? || e.WriteTmp?) && e.name in TargetFiles
  }

  /** The loop writes only target names, and opens only target entries. */
  lemma {:induction false} OnlyTargetsTouched(members: seq<Member>, files: Files)
    ensures forall n :: n in Extracted(members, files).files ==> n in files || n in TargetFiles
    ensures TouchesOnlyTargets(Extracted(members, files).trace)
    decreases |members|
  {
    if |members| > 0 {
      OnlyTargetsTouched(members[..|members| - 1], files);
    }
  }

  /** Name by name: after a complete extraction, a file holds the data of the last entry of that name. */
  lemma {:induction false} ExtractedFile(members: seq<Member>, files: Files, n: string)
    requires Extracted(members, files).failed == None
    ensures var x := Extracted(members, files);
      && (n in x.files <==> n in files || (n in TargetFiles && LastData(members, n).Some?))
      && (n in x.files ==>
            x.files[n] == (if n in TargetFiles && LastData(members, n).Some?
                           then LastData(members, n).value else files[n]))
    decreases |members|
  {
    if |members| > 0 {
      ExtractedFile(members[..|members| - 1], files, n);
    }
  }

  /** A complete extraction leaves exactly the expected files. */
  lemma ExtractedFiles(members: seq<Member>, files: Files)
    requires Extracted(members, files).failed == None
    ensures Extracted(members, files).files == Expected(members, files)
  {
    var x := Extracted(members, files);
    var e := Expected(members, files);
    forall n ensures (n in x.files <==> n in e) && (n in x.files ==> x.files[n] == e[n]) {
      ExtractedFile(members, files, n);
    }
  }

  /** The extraction fails exactly when some target entry has a failing open, read or write. */
  lemma {:induction false} ExtractionFailsIff(members: seq<Member>, files: Files)
    ensures Extracted(members, files).failed.Some? <==>
      exists k :: 0 <= k < |members| && members[k].name in TargetFiles && members[k].io != Healthy
    decreases |members|
  {
    if |members| > 0 {
      var init := members[..|members| - 1];
      ExtractionFailsIff(init, files);
      if exists k :: 0 <= k < |init| && init[k].name in TargetFiles && init[k].io != Healthy {
        var k :| 0 <= k < |init| && init[k].name in TargetFiles && init[k].io != Healthy;
        assert members[k] == init[k];
      }
      if exists k :: 0 <= k < |members| && members[k].name in TargetFiles && members[k].io != Healthy {
        var k :| 0 <= k < |members| && members[k].name in TargetFiles && members[k].io != Healthy;
        if k < |init| {
          assert init[k] == members[k];
        }
      }
    }
  }
}
