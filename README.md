# Archive job orchestration, modelled in Dafny

This project models the archive manager of an image-hosting backend. A client asks for all
images taken between two dates. The manager registers the request under a fresh job
identifier and a background worker packages the matching images into one zip archive per job.
Clients then poll the job's status and fetch the archive's path once the job is completed.

The model covers:

- the process-wide job table (a map from `Guid` to `ArchiveRequest`);
- the dispatcher `StartArchive`, which registers a job under the first identifier not yet in
  use and stamps the request with it; the task it launches is modelled as `RunArchiveJob`;
- the accessors `GetJob` and `GetFilePath` and their three error kinds (key not found,
  invalid operation, file not found);
- the packaging routine `ProcessArchiveRequest`:
  - it marks the job Processing and selects the images of the inclusive date range;
  - it creates the archive at `<working directory>/Archives/<jobId>.zip`;
  - it writes one entry per image whose file exists and collects the exception of every image
    whose file cannot be read;
  - it copies the collected messages into the job's errors and marks the job Completed;
- the entry name derived from an image's timestamp and extension, as the code writes it:
  `<year>/<MMM>/<dd>/<dd> <MMM> <year> <hh.mmtt>.<extension>`, en-US culture, where
  `<extension>` already starts with '.' (see "## Findings");
- the parts of .NET the core relies on: DateTime ordering and formatting, `Guid.ToString()`,
  `Path.GetExtension` and `Path.Combine`, and a file system holding which paths exist and which
  entries each created archive holds.

The outside world enters as parameters:

- the successive results of `Guid.NewGuid` are a sequence of candidates;
- the Images table is a sequence of `Image` values;
- the exceptions that the query, the archive creation, the archive close and each file read
  may raise are a `Faults` value.

Modules:

- `Wrappers`: `Option` and `Result`.
- `Dates`: `DateTime`, its total order and its format pieces.
- `Guids`: a 128-bit identifier and its 36-character text.
- `Files`: path functions and the `FileSystem` class.
- `Models`: `Image`, `ArchiveStatus` and the `ArchiveRequest` class.
- `EntryNames`: the naming of archive entries, and the finding below.
- `Services`: the `ArchiveManager` class, the packaging functions that specify it, and the
  lemmas about them.

The model follows the code on the end state of a job. The packaging routine sets Processing
(Services/ArchiveManager.cs:77) and, once the archive is closed, Completed in every case
(Services/ArchiveManager.cs:148), even when per-image messages were collected. In the model
those messages go into `errors` and the status is Completed. Only an exception that escapes
the routine gives Failed (Services/ArchiveManager.cs:33). A job whose per-image reads failed
still ends Completed (Services/ArchiveManager.cs:148).

The model also follows the code in naming entries: packaging writes the name with the doubled
period of Services/ArchiveManager.cs:109. The corrected name is defined beside it, with its
properties proved.

## Model

| member | source | states |
|---|---|---|
| Services.ArchiveManager.constructor | Services/ArchiveManager.cs:12 | The job table starts empty. |
| Services.FirstFree | Services/ArchiveManager.cs:16-21 | The position of a candidate that is not taken, with every earlier candidate taken. |
| Services.ArchiveManager.StartArchive | Services/ArchiveManager.cs:14-23 | The returned identifier was not registered before. It is the candidate at FirstFree: the first one not yet in the table, every earlier candidate being taken. The table gains exactly that key, mapped to the request. The request is stamped with the identifier. Its status and errors are untouched. |
| Services.ArchiveManager.RunArchiveJob | Services/ArchiveManager.cs:25-36 | The job always ends Completed or Failed. It ends Failed exactly when an exception escapes the packaging routine, and then its errors end with exactly one "Processing failed: " + message. The per-image messages come before that, in some order. When the job ends Completed, GetFilePath returns the artifact's path. |
| Services.ArchiveManager.GetJob | Services/ArchiveManager.cs:41-46 | Succeeds exactly when the identifier is registered, and then returns the registered request. Otherwise it fails with KeyNotFound and "No archive process found with ID: " + the identifier's text. |
| Services.ArchiveManager.GetFilePath | Services/ArchiveManager.cs:48-67 | Succeeds exactly when the job is registered, is Completed and its archive file exists. It then returns the job's artifact path. Otherwise the error is the first failed check: KeyNotFound, then InvalidOperation ("The archiving process has not completed."), then FileNotFound ("The file does not exist."). |
| Services.ArchiveManager.ProcessArchiveRequest | Services/ArchiveManager.cs:69-150 | An unregistered identifier throws the dictionary's missing-key exception and changes nothing. Otherwise the job's identifier is untouched. The outcome is the first escaping fault, if any. The status ends Completed when nothing escapes and stays Processing otherwise. A failed query or a failed archive creation leaves the errors and the file system as they were. Otherwise the archive file now exists and holds exactly ArchiveEntries of the selected images. The errors are the old errors followed by FailedReads of those images, in some order. |
| Services.ArchiveImages | Services/ArchiveManager.cs:97-130 | The per-image loop leaves the set of existing files alone. It appends exactly ArchiveEntries(images) to the archive and changes no other archive. It returns exactly FailedReads(images) as its bag of exceptions. |
| Services.AppendErrors | Services/ArchiveManager.cs:132-140 | The request's errors become the old errors followed by every collected message, each exactly once, in some order. Status and identifier are untouched. |
| Services.EscapingFault | Services/ArchiveManager.cs:75-93 | No exception escapes the routine exactly when the query, the archive creation and the archive close all succeed. |
| Services.ArchivePath | Services/ArchiveManager.cs:54 | The artifact path ends in ".zip" and is at least 40 characters long, the identifier's text and ".zip" included. |
| Services.ArchivePathShape | Services/ArchiveManager.cs:54 | The artifact path is the working directory's Archives folder, then "/", the identifier's 36-character text and ".zip". |
| Services.ArchivePathInjective | Services/ArchiveManager.cs:87 | Two jobs with the same artifact path have the same identifier, so no two jobs write the same file. |
| Services.StartTwoArchives | Services/ArchiveManager.cs:16-21 | Two jobs registered one after the other get different identifiers and different artifact paths. Both stay registered under their own requests. It needs only that the second draw holds a free identifier other than the one the first registration takes. |
| Services.SelectImages | Services/ArchiveManager.cs:83-85 | The query returns at most the table's rows. An image is returned exactly when it is in the table and its timestamp lies between the start and end dates, and as many times as the table holds it: each matching row once. |
| Services.InRange | Services/ArchiveManager.cs:84 | An image lies in a range only when the range's start is at or before its end. |
| Services.EndpointsSelected | Services/ArchiveManager.cs:84 | Both bounds are inclusive: an image taken exactly at the start or at the end is selected. |
| Services.ReversedRangeSelectsNothing | Services/ArchiveManager.cs:84 | A range whose end lies before its start selects no image. |
| Services.ArchiveEntries | Services/ArchiveManager.cs:105-109 | The archive never holds more entries than there are selected images. |
| Services.ArchiveEntriesContents | Services/ArchiveManager.cs:103-124 | Both directions: every entry is the as-written entry name of a selected image whose file exists, and every such image's as-written entry name is in the archive. |
| Services.FailedReads | Services/ArchiveManager.cs:126-129 | No more messages are collected than there are selected images. |
| Services.FailedReadsContents | Services/ArchiveManager.cs:103-129 | Both directions: every collected message is the read failure of a selected image whose file exists, and every such failure is collected. |
| Services.MissingImages | Services/ArchiveManager.cs:121-124 | An image is reported missing exactly when it is selected and its file does not exist. |
| Services.PackagingComposes | Services/ArchiveManager.cs:97-130 | Partial-failure isolation: packaging a concatenation of image lists gives the concatenation of the entries and the union of the collected messages. |
| Services.FailuresHaveEntries | Services/ArchiveManager.cs:107-118 | There are never more collected read failures than entries, because an entry is created before its file is opened. |
| Services.EntryCount | Services/ArchiveManager.cs:105-124 | Every selected image either gets an entry or is missing: the entries plus the missing images number the selected images. |
| EntryNames.EntryNameAsWritten | Services/ArchiveManager.cs:109 | The name the code writes starts with the date folders and ends with '.' followed by the source file's extension. |
| EntryNames.EntryName | Services/ArchiveManager.cs:109 | The corrected name starts with the date folders and ends with the source file's extension. |
| EntryNames.AsWrittenSegments | Services/ArchiveManager.cs:99-109 | A name as written splits at "/" into exactly four parts: the year, the month abbreviation, the two-digit day, and the file name with its extra period. |
| EntryNames.AsWrittenCollision | Services/ArchiveManager.cs:99-109 | Both directions: two images get the same name as written exactly when their timestamps agree down to the minute and their extensions are equal. |
| EntryNames.AsWrittenKeepsExtension | Services/ArchiveManager.cs:109 | For a source file with an extension, the name as written reports that same extension. |
| EntryNames.AsWrittenWithoutExtension | Services/ArchiveManager.cs:109 | For a source file without an extension, the name as written ends in '.' and reports no extension. |
| EntryNames.NameCollision | Services/ArchiveManager.cs:99-109 | Both directions: date folders and stem plus a suffix with no '/' are equal exactly when the timestamps agree to the minute and the suffixes are equal. |
| EntryNames.EntryNameSegments | Services/ArchiveManager.cs:99-109 | A corrected entry name splits at "/" into exactly four parts: the year, the month abbreviation, the two-digit day, and the file name. |
| EntryNames.EntryNameCollision | Services/ArchiveManager.cs:99-109 | Both directions: two images get the same corrected entry name exactly when their timestamps agree down to the minute and their extensions are equal. |
| EntryNames.TimeLabelInjective | Services/ArchiveManager.cs:109 | Two timestamps with the same "hh.mmtt" label agree on the hour and the minute. |
| EntryNames.EntryNameKeepsExtension | Services/ArchiveManager.cs:109 | For a source file with an extension, the corrected entry name's extension is the source file's extension. |
| EntryNames.EntryNameWithoutExtension | Services/ArchiveManager.cs:109 | For a source file without an extension, the corrected name's extension is "." + the two-digit minute + the designator, taken from its time label. |
| EntryNames.EntryNameHasNoDoublePeriod | Services/ArchiveManager.cs:109 | The corrected entry name never holds two consecutive periods. |
| EntryNames.AsWrittenDoublesPeriod | Services/ArchiveManager.cs:109 | The name as the code writes it holds ".." for every file that has an extension. |
| EntryNames.AsWrittenExample | Services/ArchiveManager.cs:109 | "photo.jpg" taken 5 March 2024 at 15:07 gets "2024/Mar/05/05 Mar 2024 03.07PM..jpg" as written, and "2024/Mar/05/05 Mar 2024 03.07PM.jpg" when corrected. |
| Files.GetExtension | Services/ArchiveManager.cs:109 | The result is empty exactly when the path has no extension. Otherwise it is a suffix of the path: a '.' followed by at least one character, none of them '.' or '/'. |
| Files.Combine | Services/ArchiveManager.cs:54 | The combined path ends with the second part. When the first part is not empty and the second is not rooted, it starts with the first part. An empty second part gives the first part. |
| Files.SegmentsOfJoin | Services/ArchiveManager.cs:109 | Splitting "a/rest" at "/", for a segment a with no '/', gives a followed by the segments of rest. |
| Files.FileSystem.constructor | Services/ArchiveManager.cs:54-56 | A file system starts with the given working directory (`Directory.GetCurrentDirectory`) and set of existing files (`File.Exists`), and no archives. |
| Files.FileSystem.CreateArchive | Services/ArchiveManager.cs:91-93 | Creating the archive makes the path exist. It starts an empty archive there, replacing any earlier content, and changes nothing else. |
| Files.FileSystem.AddEntry | Services/ArchiveManager.cs:109 | Adding an entry appends its name to that archive and changes nothing else. |
| Models.ArchiveRequest.AddError | Services/ArchiveManager.cs:138 | One message is appended to the errors. Status and identifier are untouched. |
| Models.ArchiveRequest.constructor | Models/ArchiveRequest.cs:3-8 | A request is built with the given bounds, status, identifier and errors. |
| Dates.AtOrBefore | Services/ArchiveManager.cs:84 | The year decides first: a later year is never at or before an earlier one, and an earlier year always is. |
| Dates.AtOrBeforeTotalOrder | Services/ArchiveManager.cs:84 | DateTime's comparison is reflexive, total, transitive and antisymmetric. |
| Dates.DecimalText | Services/ArchiveManager.cs:99 | The year's text is decimal digits with no leading zero that read back as the year. |
| Dates.DecimalTextInjective | Services/ArchiveManager.cs:99 | Different years get different decimal texts. |
| Dates.MonthAbbreviation | Services/ArchiveManager.cs:100 | "MMM" is three letters, the first upper case and the others lower case. |
| Dates.MonthAbbreviationInjective | Services/ArchiveManager.cs:100 | Different months get different "MMM" abbreviations. |
| Dates.TwoDigits | Services/ArchiveManager.cs:101 | "dd", "hh" and "mm" are exactly two decimal digits that read back as the value. |
| Dates.TwoDigitsInjective | Services/ArchiveManager.cs:101 | Different days, hours or minutes below 100 get different two-digit texts. |
| Dates.Hour12 | Services/ArchiveManager.cs:109 | The 12-hour reading lies in 1 to 12 and agrees with the hour modulo 12. |
| Dates.Designator | Services/ArchiveManager.cs:109 | The designator is "AM" exactly before noon and "PM" exactly from noon on. |
| Dates.ClockReadingInjective | Services/ArchiveManager.cs:109 | The 12-hour reading together with its AM/PM designator names exactly one hour of the day. |
| Dates.TimeLabel | Services/ArchiveManager.cs:109 | The "hh.mmtt" label is always seven characters. |
| Guids.GuidText | Services/ArchiveManager.cs:45 | The identifier's text is 36 characters with hyphens at positions 8, 13, 18 and 23. |
| Guids.GuidTextAt | Services/ArchiveManager.cs:54 | Each of the 32 hex digits of the identifier appears at its own position of the text. |
| Guids.GuidTextInjective | Services/ArchiveManager.cs:54 | Different identifiers have different texts. |

## Left out

- Concurrency. The background task, `Parallel.ForEach`, the concurrent dictionary and bag, and
  the archive lock are modelled as sequential steps. The lock already serialises every entry
  write, so a sequential run of the images in list order is one of the orders the code can
  produce. Other entry orders are not modelled, and neither are pollers that read a job while
  its worker runs.
- StartArchive: `Guid.NewGuid` is a sequence of candidates. The model requires that some
  candidate is free. The code would otherwise draw identifiers forever.
- ArchiveManager: the static `Jobs` table (Services/ArchiveManager.cs:12) is the `jobs` field of
  one `ArchiveManager` object, which stands for every instance the service container creates.
  A second object does not model a second scoped instance, which would share the table.
- StartArchive does not start the worker itself. `RunArchiveJob` is the task body it launches,
  run to completion at a separate call.
- Archive contents are modelled as entry names only. The model leaves out bytes, compression,
  the zip format, and the partial content of an entry whose copy fails.
- ProcessArchiveRequest: the database query is a sequence filtered in table order. Entity
  Framework's SQL translation and the unspecified row order are not modelled.
- ProcessArchiveRequest: an exception from creating an entry, or from disposing the database
  scope, is not modelled.
- The stopwatch and the console logging have no effect on state and are left out.
- The working directory is fixed for each `FileSystem`. Relative source paths are compared with
  the set of existing paths as they are. Paths use '/' as the only directory separator.
- Formatting follows the en-US culture: English month abbreviations and "AM"/"PM" designators.
  Other cultures are not modelled.
- DateTime validity is checked field by field (day 1 to 31). Days a month lacks are not
  excluded. Ticks stand for the fraction of a second.
- A Guid is 32 hexadecimal digits in display order. .NET's internal byte layout is not modelled.
- Models/ArchiveRequest.cs shows only the two dates and `IsCompleted`. The status, identifier,
  error list and `AddError` are modelled from their uses in ArchiveManager.cs: the status at
  Services/ArchiveManager.cs:33, 77 and 148, the identifier at line 23, and `AddError` at lines
  34 and 138. The declaration of `ArchiveStatus` is not part of this model. Its six values are an
  assumption, and the core sets only Processing, Completed and Failed. `IsCompleted` is never
  read or written by this core and is left out.
- FailedReads: a read fault is recorded per file path (`Faults.read`). Images that share a path
  therefore fail together with the same message. A fault that strikes only one of several reads
  of the same file is not modelled.
- The HTTP endpoints in Program.cs, the database context and the ImageDbContext mapping are not
  part of this model.

## Findings

| source | as written | input that shows it | evidently intended | confidence | as-written member | corrected member |
|---|---|---|---|---|---|---|
| Services/ArchiveManager.cs:109 | The entry name puts a '.' before the result of `Path.GetExtension`, which already begins with '.'. | The image "photo.jpg" taken 5 March 2024 at 15:07 is stored as "2024/Mar/05/05 Mar 2024 03.07PM..jpg". | A single period: "2024/Mar/05/05 Mar 2024 03.07PM.jpg". | high; not executed | EntryNames.EntryNameAsWritten | EntryNames.EntryName |

`EntryNames.AsWrittenDoublesPeriod` proves the doubled period for every file with an extension,
and `EntryNames.AsWrittenExample` works the example above. Packaging (`Services.ArchiveEntries`,
`Services.ArchiveImages`, `Services.ArchiveManager.ProcessArchiveRequest`) uses the name as
written, so the archive's contents are the ones the code produces. `EntryNames.EntryName` is the
corrected definition. For a source file with an extension, `EntryNames.EntryNameHasNoDoublePeriod`
and `EntryNames.EntryNameKeepsExtension` prove that it keeps that extension behind a single
period. The correction has a limit of its own: for a source file without an extension,
`EntryNames.EntryNameWithoutExtension` shows that the corrected name reports the minutes and the
designator of its time label (".07PM") as its extension. The name as written reports none in that
case (`EntryNames.AsWrittenWithoutExtension`).
