/**
 * The archive job orchestrator: a process-wide table from job identifier to
 * archive request, the dispatcher that registers a job and hands it to a
 * background worker, the read-only accessors used by pollers, and the
 * packaging routine that writes the images of a date range into one zip
 * archive per job.
 *
 * The worker's calls into the outside world are parameters: the Images
 * table is a sequence, Guid.NewGuid is a sequence of candidate identifiers,
 * and the exceptions the database, the file system and the zip writer may
 * raise are given by a Faults value. Parallel.ForEach runs sequentially;
 * the archive lock serialises every entry write, so a sequential run is one
 * of the orders the source can produce.
 */
module Services {
  import opened Wrappers
  import opened Dates
  import opened Guids
  import opened Files
  import opened Models
  import opened EntryNames

  /** The exceptions the accessors raise. */
  datatype ArchiveError =
    | KeyNotFound(message: string)
    | InvalidOperation(message: string)
    | FileNotFound(message: string)

  /** How a call ended: normally, or by an exception carrying this message. */
  datatype Completion = Normal | Threw(message: string)

  /**
   * What the outside world does during one run of the packaging routine:
   * the message of the exception raised by the database query, by creating
   * the archive file and by closing it (None when the call succeeds), and
   * for each source file that exists but cannot be opened or copied, the
   * message of the exception that raises.
   */
  datatype Faults = Faults(query: Option<string>, create: Option<string>, close: Option<string>,
                           read: map<string, string>)

  /** The first of the faults that escapes the packaging routine, if any. */
  function EscapingFault(faults: Faults): (m: Option<string>)
    ensures m.None? <==> faults.query.None? && faults.create.None? && faults.close.None?
  {
    if faults.query.Some? then faults.query
    else if faults.create.Some? then faults.create
    else faults.close
  }

  function NotFoundMessage(jobId: Guid): string {
    "No archive process found with ID: " + GuidText(jobId)
  }

  /** What the dictionary indexer raises for a missing key. */
  function MissingKeyMessage(jobId: Guid): string {
    "The given key '" + GuidText(jobId) + "' was not present in the dictionary."
  }

  const NOT_COMPLETED_MESSAGE: string := "The archiving process has not completed."
  const FILE_MISSING_MESSAGE: string := "The file does not exist."
  const FAILURE_PREFIX: string := "Processing failed: "
  const ARCHIVES_FOLDER: string := "Archives"

  // ---------------------------------------------------------------------
  // The artifact's location
  // ---------------------------------------------------------------------

  /** The working directory, then the Archives folder, then the identifier's text with ".zip";
      the packaging routine and the lookup compute the path the same way. */
  function ArchivePath(currentDirectory: string, jobId: Guid): (p: string)
    ensures |p| >= 40 && p[|p| - 4..] == ".zip"
  {
    Combine(Combine(currentDirectory, ARCHIVES_FOLDER), GuidText(jobId) + ".zip")
  }

  /** The artifact is `{jobId}.zip` inside the Archives folder of the working directory. */
  lemma ArchivePathShape(currentDirectory: string, jobId: Guid)
    ensures ArchivePath(currentDirectory, jobId)
            == Combine(currentDirectory, ARCHIVES_FOLDER) + "/" + GuidText(jobId) + ".zip"
  {
    var folder := Combine(currentDirectory, ARCHIVES_FOLDER);
    var name := GuidText(jobId) + ".zip";
    assert folder[|folder| - 1] == 's';
    GuidTextAt(jobId, 0);
    assert name[0] == GuidText(jobId)[0] != '/';
  }

  /** Different jobs never share an artifact. */
  lemma ArchivePathInjective(currentDirectory: string, a: Guid, b: Guid)
    requires ArchivePath(currentDirectory, a) == ArchivePath(currentDirectory, b)
    ensures a == b
  {
    ArchivePathShape(currentDirectory, a);
    ArchivePathShape(currentDirectory, b);
    var prefix := Combine(currentDirectory, ARCHIVES_FOLDER) + "/";
    var pa, pb := ArchivePath(currentDirectory, a), ArchivePath(currentDirectory, b);
    assert pa == prefix + (GuidText(a) + ".zip") && pb == prefix + (GuidText(b) + ".zip");
    assert GuidText(a) == pa[|prefix|..|prefix| + 36] == pb[|prefix|..|prefix| + 36] == GuidText(b);
    GuidTextInjective(a, b);
  }

  // ---------------------------------------------------------------------
  // The date-range query
  // ---------------------------------------------------------------------

  /** The image's timestamp lies between the two bounds of the request, both included. */
  predicate InRange(d: Timestamp, start: Timestamp, end: Timestamp)
    ensures InRange(d, start, end) ==> AtOrBefore(start, end)
  {
    AtOrBeforeTotalOrder(start, d, end);
    AtOrBefore(start, d) && AtOrBefore(d, end)
  }

  /** The images the query returns, in table order. */
  function SelectImages(table: seq<Image>, start: Timestamp, end: Timestamp): (r: seq<Image>)
    ensures |r| <= |table|
    ensures forall img :: img in r <==> img in table && InRange(img.dateTime, start, end)
    ensures forall img :: multiset(r)[img] == if InRange(img.dateTime, start, end) then multiset(table)[img] else 0
  {
    assert table != [] ==> table == [table[0]] + table[1..];
    if table == [] then []
    else (if InRange(table[0].dateTime, start, end) then [table[0]] else []) + SelectImages(table[1..], start, end)
  }

  /** Both ends of the range are inclusive. */
  lemma EndpointsSelected(table: seq<Image>, start: Timestamp, end: Timestamp, img: Image)
    requires img in table && AtOrBefore(start, end)
    requires img.dateTime == start || img.dateTime == end
    ensures img in SelectImages(table, start, end)
  {
    LexReflexive(Fields(img.dateTime));
  }

  /** A range whose end lies before its start selects nothing. */
  lemma ReversedRangeSelectsNothing(table: seq<Image>, start: Timestamp, end: Timestamp)
    requires !AtOrBefore(start, end)
    ensures SelectImages(table, start, end) == []
  {
  }

  // ---------------------------------------------------------------------
  // What packaging writes and collects
  // ---------------------------------------------------------------------

  /** The entries the loop writes for `images` when the paths in `files` exist, in order. */
  function ArchiveEntries(images: seq<Image>, files: set<string>): (r: seq<string>)
    ensures |r| <= |images|
    decreases |images|
  {
    if images == [] then []
    else
      var last := images[|images| - 1];
      ArchiveEntries(images[..|images| - 1], files)
        + (if last.filePath in files then [EntryNameAsWritten(last.dateTime, last.filePath)] else [])
  }

  /** The messages of the exceptions the loop collects, as a bag. */
  function FailedReads(images: seq<Image>, files: set<string>, read: map<string, string>): (m: multiset<string>)
    ensures |m| <= |images|
    decreases |images|
  {
    if images == [] then multiset{}
    else
      var last := images[|images| - 1];
      FailedReads(images[..|images| - 1], files, read)
        + (if last.filePath in files && last.filePath in read then multiset{read[last.filePath]} else multiset{})
  }

  /** `name` is the entry name of some image of `images` whose file exists. */
  predicate NamesExistingImage(name: string, images: seq<Image>, files: set<string>) {
    exists img :: img in images && img.filePath in files && name == EntryNameAsWritten(img.dateTime, img.filePath)
  }

  /** An image whose file exists contributes an entry, and every entry comes from such an image;
      an image whose file is missing contributes none. */
  lemma {:induction false} ArchiveEntriesContents(images: seq<Image>, files: set<string>)
    ensures forall k :: 0 <= k < |ArchiveEntries(images, files)| ==>
              NamesExistingImage(ArchiveEntries(images, files)[k], images, files)
    ensures forall img :: img in images && img.filePath in files ==> EntryNameAsWritten(img.dateTime, img.filePath) in ArchiveEntries(images, files)
    decreases |images|
  {
    if images != [] {
      var front, last := images[..|images| - 1], images[|images| - 1];
      ArchiveEntriesContents(front, files);
      assert images == front + [last];
      var r, q := ArchiveEntries(images, files), ArchiveEntries(front, files);
      var tail := if last.filePath in files then [EntryNameAsWritten(last.dateTime, last.filePath)] else [];
      assert r == q + tail;
      forall k | 0 <= k < |r|
        ensures NamesExistingImage(r[k], images, files)
      {
        if k < |q| {
          assert r[k] == q[k];
          assert NamesExistingImage(q[k], front, files);
          var img :| img in front && img.filePath in files && q[k] == EntryNameAsWritten(img.dateTime, img.filePath);
          assert img in images;
        } else {
          assert r[k] == tail[k - |q|] == EntryNameAsWritten(last.dateTime, last.filePath);
          assert last in images && last.filePath in files;
        }
      }
      forall img | img in images && img.filePath in files
        ensures EntryNameAsWritten(img.dateTime, img.filePath) in r
      {
        if img in front {
          assert EntryNameAsWritten(img.dateTime, img.filePath) in q;
        } else {
          assert img == last;
        }
      }
    } else {
      assert ArchiveEntries(images, files) == [];
    }
  }

  /** Exactly the images whose file exists but cannot be read contribute an exception message. */
  lemma {:induction false} FailedReadsContents(images: seq<Image>, files: set<string>, read: map<string, string>)
    ensures forall m :: m in FailedReads(images, files, read) ==>
              exists img :: img in images && img.filePath in files && img.filePath in read && read[img.filePath] == m
    ensures forall img :: img in images && img.filePath in files && img.filePath in read ==>
              read[img.filePath] in FailedReads(images, files, read)
    decreases |images|
  {
    if images != [] {
      var front, last := images[..|images| - 1], images[|images| - 1];
      FailedReadsContents(front, files, read);
      assert images == front + [last];
      forall m | m in FailedReads(images, files, read)
        ensures exists img :: img in images && img.filePath in files && img.filePath in read && read[img.filePath] == m
      {
        if m in FailedReads(front, files, read) {
          var img :| img in front && img.filePath in files && img.filePath in read && read[img.filePath] == m;
          assert img in images;
        } else {
          assert last in images;
        }
      }
    }
  }

  /** The images whose source file is missing. */
  function MissingImages(images: seq<Image>, files: set<string>): (r: seq<Image>)
    ensures forall img :: img in r <==> img in images && img.filePath !in files
  {
    if images == [] then []
    else (if images[0].filePath in files then [] else [images[0]]) + MissingImages(images[1..], files)
  }

  /** Partial-failure isolation: each image contributes its entry and its error independently of
      the others, so packaging a concatenation packages each part and concatenates the results. */
  lemma PackagingComposes(xs: seq<Image>, ys: seq<Image>, files: set<string>, read: map<string, string>)
    ensures ArchiveEntries(xs + ys, files) == ArchiveEntries(xs, files) + ArchiveEntries(ys, files)
    ensures FailedReads(xs + ys, files, read) == FailedReads(xs, files, read) + FailedReads(ys, files, read)
  {
    EntriesCompose(xs, ys, files);
    FailuresCompose(xs, ys, files, read);
  }

  lemma {:induction false} EntriesCompose(xs: seq<Image>, ys: seq<Image>, files: set<string>)
    ensures ArchiveEntries(xs + ys, files) == ArchiveEntries(xs, files) + ArchiveEntries(ys, files)
    decreases |ys|
  {
    if ys == [] {
      assert xs + ys == xs;
    } else {
      var zs := ys[..|ys| - 1];
      assert (xs + ys)[..|xs + ys| - 1] == xs + zs;
      assert (xs + ys)[|xs + ys| - 1] == ys[|ys| - 1];
      EntriesCompose(xs, zs, files);
    }
  }

  lemma {:induction false} FailuresCompose(xs: seq<Image>, ys: seq<Image>, files: set<string>, read: map<string, string>)
    ensures FailedReads(xs + ys, files, read) == FailedReads(xs, files, read) + FailedReads(ys, files, read)
    decreases |ys|
  {
    if ys == [] {
      assert xs + ys == xs;
    } else {
      var zs := ys[..|ys| - 1];
      assert (xs + ys)[..|xs + ys| - 1] == xs + zs;
      assert (xs + ys)[|xs + ys| - 1] == ys[|ys| - 1];
      FailuresCompose(xs, zs, files, read);
    }
  }

  /** A failed read never costs an entry: every collected exception belongs to an image whose
      entry was already created. */
  lemma {:induction false} FailuresHaveEntries(images: seq<Image>, files: set<string>, read: map<string, string>)
    ensures |FailedReads(images, files, read)| <= |ArchiveEntries(images, files)|
    decreases |images|
  {
    if images != [] {
      FailuresHaveEntries(images[..|images| - 1], files, read);
    }
  }

  /** Every image of the range either gets an entry or has a missing file. */
  lemma {:induction false} EntryCount(images: seq<Image>, files: set<string>)
    ensures |ArchiveEntries(images, files)| + |MissingImages(images, files)| == |images|
    decreases |images|
  {
    if images != [] {
      var first := [images[0]];
      var rest := images[1..];
      assert images == first + rest;
      PackagingComposes(first, rest, files, map[]);
      assert first[..0] == [];
      EntryCount(rest, files);
    }
  }

  // ---------------------------------------------------------------------
  // The two loops of the packaging routine
  // ---------------------------------------------------------------------

  /** One more image extends the entries and the collected messages by that image's share. */
  lemma PackagingStep(images: seq<Image>, i: int, files: set<string>, read: map<string, string>)
    requires 0 <= i < |images|
    ensures images[i].filePath in files ==>
              ArchiveEntries(images[..i + 1], files)
              == ArchiveEntries(images[..i], files) + [EntryNameAsWritten(images[i].dateTime, images[i].filePath)]
    ensures images[i].filePath !in files ==>
              ArchiveEntries(images[..i + 1], files) == ArchiveEntries(images[..i], files)
    ensures images[i].filePath in files && images[i].filePath in read ==>
              FailedReads(images[..i + 1], files, read) == FailedReads(images[..i], files, read) + multiset{read[images[i].filePath]}
    ensures !(images[i].filePath in files && images[i].filePath in read) ==>
              FailedReads(images[..i + 1], files, read) == FailedReads(images[..i], files, read)
  {
    assert images[..i + 1][..i] == images[..i];
  }

  lemma UpdateTwice(m: map<string, seq<string>>, k: string, v: seq<string>, w: seq<string>)
    ensures m[k := v][k := w] == m[k := w]
  {
  }

  lemma LastSplit(s: seq<string>, x: string)
    ensures (s + [x])[..|s|] == s && (s + [x])[|s|..] == [x]
  {
  }

  lemma AppendAssociates(a: seq<string>, b: seq<string>, x: string)
    ensures (a + b) + [x] == a + (b + [x])
  {
  }

  /** The Parallel.ForEach body, run for each image in turn: an existing file gets an entry
      (created before the file is opened, so it stays even when reading then fails), a failed read
      adds its message to the exception bag, a missing file is only logged. */
  method ArchiveImages(images: seq<Image>, fs: FileSystem, zipFilePath: string, read: map<string, string>)
    returns (exceptions: multiset<string>)
    requires zipFilePath in fs.archives
    modifies fs
    ensures fs.files == old(fs.files)
    ensures fs.archives == old(fs.archives)[zipFilePath := old(fs.archives[zipFilePath]) + ArchiveEntries(images, fs.files)]
    ensures exceptions == FailedReads(images, fs.files, read)
  {
    exceptions := multiset{};
    var files := fs.files;
    ghost var others := old(fs.archives);
    ghost var written := old(fs.archives[zipFilePath]);
    ghost var entries: seq<string> := [];
    var i := 0;
    assert images[..0] == [] && written + entries == written;
    assert others[zipFilePath := written] == others;
    while i < |images|
      invariant 0 <= i <= |images|
      invariant fs.files == files
      invariant entries == ArchiveEntries(images[..i], files)
      invariant fs.archives == others[zipFilePath := written + entries]
      invariant exceptions == FailedReads(images[..i], files, read)
    {
      var image := images[i];
      PackagingStep(images, i, files, read);
      if image.filePath in files {
        var name := EntryNameAsWritten(image.dateTime, image.filePath);
        fs.AddEntry(zipFilePath, name);
        AppendAssociates(written, entries, name);
        UpdateTwice(others, zipFilePath, written + entries, written + (entries + [name]));
        entries := entries + [name];
        if image.filePath in read {
          exceptions := exceptions + multiset{read[image.filePath]};
        }
      }
      i := i + 1;
    }
    assert images[..i] == images;
  }

  /** `after` is `before` followed by the messages of `added`, in some order. */
  ghost predicate ErrorsAppended(before: seq<string>, after: seq<string>, added: multiset<string>) {
    |before| <= |after| && after[..|before|] == before && multiset(after[|before|..]) == added
  }

  /** Every collected message is appended to the request's error list. The collection has no
      defined iteration order, so each step takes any message still in it. */
  method AppendErrors(request: ArchiveRequest, exceptions: multiset<string>)
    modifies request
    ensures ErrorsAppended(old(request.errors), request.errors, exceptions)
    ensures request.status == old(request.status) && request.jobId == old(request.jobId)
  {
    if exceptions != multiset{} {
      var pending := exceptions;
      ghost var added: seq<string> := [];
      while pending != multiset{}
        invariant request.errors == old(request.errors) + added
        invariant multiset(added) + pending == exceptions
        invariant request.status == old(request.status) && request.jobId == old(request.jobId)
        decreases |pending|
      {
        var message :| message in pending;
        request.AddError(message);
        added := added + [message];
        pending := pending - multiset{message};
      }
      assert request.errors[|old(request.errors)|..] == added;
    }
  }

  // ---------------------------------------------------------------------
  // The job table and its operations
  // ---------------------------------------------------------------------

  /** The position of the first candidate identifier that is not yet taken. */
  function FirstFree(candidates: seq<Guid>, taken: set<Guid>): (k: nat)
    requires exists k :: 0 <= k < |candidates| && candidates[k] !in taken
    ensures k < |candidates| && candidates[k] !in taken
    ensures forall j :: 0 <= j < k ==> candidates[j] in taken
    decreases |candidates|
  {
    if candidates[0] !in taken then 0
    else
      var k :| 0 <= k < |candidates| && candidates[k] !in taken;
      assert candidates[1..][k - 1] !in taken;
      1 + FirstFree(candidates[1..], taken)
  }

  class ArchiveManager {
    /** The static `Jobs` dictionary: one table for the whole process. */
    var jobs: map<Guid, ArchiveRequest>

    constructor ()
      ensures jobs == map[]
    {
      jobs := map[];
    }

    /**
     * Registers `request` under the first identifier drawn from `candidates` (the successive
     * results of Guid.NewGuid) that is not yet a key, stamps the request with it and returns it.
     * The worker that processes the job is RunArchiveJob.
     */
    method StartArchive(request: ArchiveRequest, candidates: seq<Guid>) returns (jobId: Guid)
      requires exists k :: 0 <= k < |candidates| && candidates[k] !in jobs
      modifies this, request
      ensures jobId !in old(jobs)
      ensures jobs == old(jobs)[jobId := request]
      ensures request.jobId == jobId
      ensures request.status == old(request.status) && request.errors == old(request.errors)
      ensures jobId == candidates[FirstFree(candidates, old(jobs).Keys)]
    {
      var i := 0;
      jobId := candidates[0];
      while jobId in jobs
        invariant 0 <= i < |candidates| && jobId == candidates[i]
        invariant forall j :: 0 <= j < i ==> candidates[j] in jobs
        invariant exists k :: i <= k < |candidates| && candidates[k] !in jobs
        decreases |candidates| - i
      {
        i := i + 1;
        jobId := candidates[i];
      }
      jobs := jobs[jobId := request];
      jobs[jobId].jobId := jobId;
    }

    /** The record registered under `jobId`, or KeyNotFound. */
    function GetJob(jobId: Guid): (r: Result<ArchiveRequest, ArchiveError>)
      reads this
      ensures r.Success? <==> jobId in jobs
      ensures r.Success? ==> r.value == jobs[jobId]
      ensures r.Failure? ==> r.error == KeyNotFound(NotFoundMessage(jobId))
    {
      if jobId in jobs then Success(jobs[jobId]) else Failure(KeyNotFound(NotFoundMessage(jobId)))
    }

    /** The artifact's path, available only for a completed job whose file exists; otherwise
        which of the three checks failed first. */
    function GetFilePath(jobId: Guid, fs: FileSystem): (r: Result<string, ArchiveError>)
      reads this, fs, if jobId in jobs then {jobs[jobId]} else {}
      ensures r.Success? <==> jobId in jobs && jobs[jobId].status == Completed
                              && ArchivePath(fs.currentDirectory, jobId) in fs.files
      ensures r.Success? ==> r.value == ArchivePath(fs.currentDirectory, jobId)
      ensures r.Failure? ==> r.error == if jobId !in jobs then KeyNotFound(NotFoundMessage(jobId))
                                        else if jobs[jobId].status != Completed then InvalidOperation(NOT_COMPLETED_MESSAGE)
                                        else FileNotFound(FILE_MISSING_MESSAGE)
    {
      if jobId in jobs then
        var request := jobs[jobId];
        if request.status == Completed then
          var filePath := ArchivePath(fs.currentDirectory, jobId);
          if filePath in fs.files then Success(filePath) else Failure(FileNotFound(FILE_MISSING_MESSAGE))
        else
          Failure(InvalidOperation(NOT_COMPLETED_MESSAGE))
      else
        Failure(KeyNotFound(NotFoundMessage(jobId)))
    }

    /**
     * The packaging routine for the job `jobId`: marks it Processing, selects the images of its
     * range, writes them into a fresh archive at the job's path, copies the collected exception
     * messages into its errors and marks it Completed. An exception from the table lookup, the
     * query, or creating or closing the archive ends the routine early and is returned.
     */
    method ProcessArchiveRequest(jobId: Guid, table: seq<Image>, fs: FileSystem, faults: Faults)
      returns (outcome: Completion)
      modifies (if jobId in jobs then {jobs[jobId]} else {}), fs
      ensures jobId !in jobs ==> outcome == Threw(MissingKeyMessage(jobId)) && unchanged(fs)
      ensures jobId in jobs ==> jobs[jobId].jobId == old(jobs[jobId].jobId)
      ensures jobId in jobs ==>
                outcome == if EscapingFault(faults).Some? then Threw(EscapingFault(faults).value) else Normal
      ensures jobId in jobs ==>
                jobs[jobId].status == if EscapingFault(faults).None? then Completed else Processing
      ensures jobId in jobs && (faults.query.Some? || faults.create.Some?) ==>
                jobs[jobId].errors == old(jobs[jobId].errors) && unchanged(fs)
      ensures jobId in jobs && faults.query.None? && faults.create.None? ==>
                var zipFilePath := ArchivePath(fs.currentDirectory, jobId);
                var images := SelectImages(table, jobs[jobId].startDate, jobs[jobId].endDate);
                && fs.files == old(fs.files) + {zipFilePath}
                && fs.archives == old(fs.archives)[zipFilePath := ArchiveEntries(images, fs.files)]
                && ErrorsAppended(old(jobs[jobId].errors), jobs[jobId].errors, FailedReads(images, fs.files, faults.read))
    {
      if jobId !in jobs {
        return Threw(MissingKeyMessage(jobId));
      }
      var request := jobs[jobId];
      jobs[jobId].status := Processing;
      if faults.query.Some? {
        return Threw(faults.query.value);
      }
      var images := SelectImages(table, request.startDate, request.endDate);
      var zipFilePath := ArchivePath(fs.currentDirectory, jobId);
      if faults.create.Some? {
        return Threw(faults.create.value);
      }
      ghost var original := fs.archives;
      fs.CreateArchive(zipFilePath);
      ghost var created := fs.archives;
      var exceptions := ArchiveImages(images, fs, zipFilePath, faults.read);
      ghost var entries := ArchiveEntries(images, fs.files);
      assert [] + entries == entries;
      UpdateTwice(original, zipFilePath, [], entries);
      AppendErrors(request, exceptions);
      if faults.close.Some? {
        return Threw(faults.close.value);
      }
      jobs[jobId].status := Completed;
      outcome := Normal;
    }

    /**
     * The background task StartArchive launches for the job it registered: runs the packaging
     * routine and turns any exception escaping it into status Failed plus one
     * "Processing failed: ..." error. The job always ends Completed or Failed.
     */
    method RunArchiveJob(jobId: Guid, request: ArchiveRequest, table: seq<Image>, fs: FileSystem, faults: Faults)
      requires jobId in jobs && jobs[jobId] == request
      modifies request, fs
      ensures request.status == if EscapingFault(faults).None? then Completed else Failed
      ensures request.jobId == old(request.jobId)
      ensures faults.query.Some? || faults.create.Some? ==>
                && unchanged(fs)
                && request.errors == old(request.errors) + [FAILURE_PREFIX + EscapingFault(faults).value]
      ensures faults.query.None? && faults.create.None? ==>
                && fs.files == old(fs.files) + {ArchivePath(fs.currentDirectory, jobId)}
                && fs.archives == old(fs.archives)[ArchivePath(fs.currentDirectory, jobId) :=
                     ArchiveEntries(SelectImages(table, request.startDate, request.endDate), fs.files)]
      ensures EscapingFault(faults).None? ==>
                ErrorsAppended(old(request.errors), request.errors,
                               FailedReads(SelectImages(table, request.startDate, request.endDate), fs.files, faults.read))
      ensures faults.query.None? && faults.create.None? && faults.close.Some? ==>
                && |request.errors| > |old(request.errors)|
                && ErrorsAppended(old(request.errors), request.errors[..|request.errors| - 1],
                                  FailedReads(SelectImages(table, request.startDate, request.endDate), fs.files, faults.read))
                && request.errors[|request.errors| - 1] == FAILURE_PREFIX + faults.close.value
      ensures request.status == Completed ==> GetFilePath(jobId, fs) == Success(ArchivePath(fs.currentDirectory, jobId))
    {
      var outcome := ProcessArchiveRequest(jobId, table, fs, faults);
      ghost var processed := request.errors;
      if outcome.Threw? {
        request.status := Failed;
        request.AddError(FAILURE_PREFIX + outcome.message);
        LastSplit(processed, FAILURE_PREFIX + outcome.message);
      }
    }
  }

  /** Two jobs started one after the other get different identifiers and different artifacts,
      and the first stays registered. */
  method StartTwoArchives(manager: ArchiveManager, first: ArchiveRequest, second: ArchiveRequest,
                          candidates1: seq<Guid>, candidates2: seq<Guid>, currentDirectory: string)
    returns (id1: Guid, id2: Guid)
    requires exists k :: 0 <= k < |candidates1| && candidates1[k] !in manager.jobs
    requires exists k :: 0 <= k < |candidates2| && candidates2[k] !in manager.jobs
                         && candidates2[k] != candidates1[FirstFree(candidates1, manager.jobs.Keys)]
    modifies manager, first, second
    ensures id1 != id2
    ensures ArchivePath(currentDirectory, id1) != ArchivePath(currentDirectory, id2)
    ensures id1 in manager.jobs && id2 in manager.jobs && manager.jobs[id2] == second
    ensures manager.jobs[id1] == first
  {
    id1 := manager.StartArchive(first, candidates1);
    id2 := manager.StartArchive(second, candidates2);
    if ArchivePath(currentDirectory, id1) == ArchivePath(currentDirectory, id2) {
      ArchivePathInjective(currentDirectory, id1, id2);
    }
  }
}
