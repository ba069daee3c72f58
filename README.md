# Content-addressed skin repository: ingestion tool and download handler

This project models the core of a small two-program system built on a LiteDB
database:

- **The ingestion tool** (`tool/Program.cs`) walks the `repofiles` directory.
  A file whose extension is exactly `.zip` or `.skinzip` is an archive. The
  tool opens it and saves every entry, in order. Any other file is saved as a
  single blob. Each blob is stored once, under its MD5 digest written as 32
  lower-case hex digits. Its stored file name is the digest followed by the
  extension of the name it was first saved under. A `ZipData` record then
  lists, under the bundle's file name, the digests of the bundle's members in
  order. A bundle name that is already recorded is skipped.
- **The download handler** (`web/Program.cs`, `/getfile/{file}`) looks a
  bundle up by name.
  - Unknown names give NotFound.
  - An archive name gets a freshly built archive. It has one entry per
    recorded digest, in order, named and filled from the stored file. One
    missing digest makes the whole answer NotFound.
  - Any other name gets the stored file of its first digest, under that
    stored file's name.

The modules follow the program's structure:

| module | models |
|---|---|
| `Base` | bytes, `Option` |
| `Hex` | `BitConverter.ToString(...).Replace("-", "").ToLower()` and its inverse |
| `Paths` | `Path.GetFileName`, `Path.GetExtension` and the archive-extension switch |
| `Store` | the file storage and the `zipdata` collection, `Exists`/`FindOne`, and the invariant a run keeps |
| `Tool` | `SaveFileInDb`, `CopyFile`, `Unzip` and the top-level loop |
| `Web` | the handler |
| `RoundTrip` | the handler's answer for what the tool has just stored |

Each imperative routine of the tool is a method of the class
`Tool.Repository`. Its fields are the file storage (a `map` from digest to
stored file) and the `zipdata` collection (a `seq`, in insertion order). Each
method is proved equal to a pure function (`SaveBlob`, `IngestFile`,
`IngestArchive`, `IngestAll`), and the lemmas are proved about those
functions. The handler's archive loop is the method `Web.WriteArchive`, which
is proved equal to the function `Web.Rebuild`. The handler itself is
`Web.GetFile`, which equals `Web.Resolve`.

MD5 is the parameter `md5: Hasher`, an arbitrary function from bytes to 16
bytes. Nothing assumes it is injective. The lemmas that conclude that served
bytes equal ingested bytes take collision-freedom on the contents involved as
an explicit premise (`Store.CollisionFree`).

The inputs of a run are a sequence of `Tool.InputFile` values. Each holds
the file's path and its bytes. For an archive it also holds either `None`
(`ZipFile.OpenRead` throws) or the entries. Each entry holds its `FullName`
and either `None` (opening the entry throws) or its bytes. The directory
listing, file reads and archive decoding are therefore parameters of the
model.

Where the code and the design description of the system disagree, the model
follows the code:

- **The run stops at the first failure.** The code has no exception handler,
  so an archive or entry that cannot be read ends the whole run. The design
  description says the batch continues with the next path. In the model,
  `Tool.IngestAll` stops at the first failed step. Blobs already saved from
  that archive stay stored, with no record listing them.
- **A single file's download name is its stored name.** It is served as
  `f.Filename`, the digest plus extension, not as the original file name the
  design description promises. Because a content is stored once, a second
  file with the same bytes is downloaded under the first file's extension.
- **Archive entries are named by their stored names.** The original entry
  names are not kept. Two entries with equal bytes come back as two entries
  with the same name (`RoundTrip.SharedContentExample`).
- **An empty digest list raises an exception.** For a non-archive name,
  the handler calls `Files.First()` on the record's list, which throws when
  the list is empty. This is modelled as `Web.Response.ServerError`.
  `Web.KnownNameServed` shows that a database written by the tool never
  reaches it.

## Model

| member | source | states |
|---|---|---|
| Hex.Digest | tool/Program.cs:85 | The hash written as `BitConverter.ToString` does, dashes removed, lower-cased; its properties are stated by `Hex.DigestIsLowerHex`, `Hex.DigestFormat` and `Hex.DigestInjective` |
| Hex.DigestIsLowerHex | tool/Program.cs:85 | Formatting the hash with dashes, removing the dashes and lower-casing gives exactly the plain lower-case hex of the bytes |
| Hex.DigestFormat | tool/Program.cs:85 | The digest has two characters per hash byte, all lower-case hex digits, and no dash |
| Hex.ParseHexIff | tool/Program.cs:85 | Parsing a string gives bytes exactly when the lower-case hex of those bytes is the string (the formatting's inverse, both directions) |
| Hex.DigestInjective | tool/Program.cs:85 | Distinct hashes never give the same digest string, so a digest identifies one MD5 value |
| Paths.GetFileName | tool/Program.cs:15 | `Path.GetFileName` (also lines 36, 59); its properties are stated by `Paths.FileNameShape` and `Paths.FileNameInDirectory` |
| Paths.GetExtension | tool/Program.cs:16 | `Path.GetExtension` (also line 90 and web/Program.cs:25); its properties are stated by `Paths.ExtensionShape`, `Paths.ExtensionEmpty`, `Paths.ExtensionOfSuffix` and `Paths.ExtensionOfFileName` |
| Paths.IsArchiveType | tool/Program.cs:20-23 | The extension test of the switch and of web/Program.cs:27; `Paths.ArchiveNameIsSuffix`, `Paths.ArchiveExamples` and `Paths.PlainExamples` state which names pass it |
| Paths.IsArchiveName | tool/Program.cs:16-23 | A path whose extension passes the test; `Paths.ArchiveNameIsSuffix` states it is exactly a `.zip` or `.skinzip` ending |
| Paths.FileNameShape | tool/Program.cs:15 | `GetFileName` is the suffix of the path after its last separator and contains no separator |
| Paths.FileNameInDirectory | tool/Program.cs:12-15 | The file name of `dir/name` is `name` when `name` has no separator |
| Paths.ExtensionShape | tool/Program.cs:16 | A non-empty extension is a suffix of the path, starts with `.`, has at least one more character, and contains no further `.` or separator |
| Paths.ExtensionEmpty | tool/Program.cs:16 | The extension is empty exactly when the path ends in `.` or its file name has no `.` |
| Paths.ExtensionOfFileName | tool/Program.cs:15-16 | Taking the extension of the file name or of the whole path gives the same result, so the switch and the handler agree |
| Paths.ExtensionOfSuffix | tool/Program.cs:16 | A path ending in an extension-shaped suffix has exactly that extension |
| Paths.ArchiveNameIsSuffix | tool/Program.cs:20-31 | A path is dispatched to `Unzip` exactly when it ends in `.zip` or `.skinzip` |
| Paths.ArchiveExamples | tool/Program.cs:20-26 | `skins.zip` and `pack.skinzip` are archives |
| Paths.PlainExamples | tool/Program.cs:20-30 | `SKINS.ZIP` (case-sensitive switch), `skins.zip.bak` and `skins.zip.` (trailing dot) are copied as plain files |
| Store.HashOf | tool/Program.cs:82-85 | The blob id of a content, the digest of its MD5 hash; `Store.HashOfFormat` and `Store.SameHashSameContent` state its properties |
| Store.HashOfFormat | tool/Program.cs:82-85 | Every blob id is 32 lower-case hex digits |
| Store.Exists | tool/Program.cs:40 | `collection.Exists` on the bundle name (also line 62); `Store.FindOne` states that it holds exactly when the lookup finds a record, and `Tool.KnownNameUnchanged` what a hit does |
| Store.FindOne | web/Program.cs:21 | The lookup finds a record exactly when the name is recorded, and the record it finds has that name and is in the collection |
| Store.FindOneAppend | tool/Program.cs:52 | Inserting a record does not change the answer for a recorded name, and it makes a new name find the inserted record |
| Store.GrowKeepsConsistent | tool/Program.cs:87-92 | Storage that only gained content-addressed blobs keeps the database consistent |
| Store.AppendKeepsConsistent | tool/Program.cs:46-52 | Inserting a record under a new name whose digests are all stored, and which lists one digest unless it is an archive, keeps the database consistent |
| Store.SameHashSameContent | tool/Program.cs:87 | Under collision-freedom, two contents with the same id are equal |
| Tool.SaveBlob | tool/Program.cs:80-99 | Returns the content's digest, which is then stored; no stored file changes; a digest already stored leaves the storage exactly as it was; otherwise only that digest's key is added, holding the content under the digest plus the name's extension |
| Tool.SaveBlobIdempotent | tool/Program.cs:87-96 | Saving the same content again, under any name, changes nothing and returns the same digest |
| Tool.SaveBlobKeepsContentAddressed | tool/Program.cs:87-90 | After a save every stored file still holds bytes whose digest is its id, and its name still starts with that id |
| Tool.SaveBlobContents | tool/Program.cs:87-90 | A save adds at most the saved content to the stored contents |
| Tool.SaveEntries | tool/Program.cs:71-75 | The entry loop yields at most one digest per entry |
| Tool.SaveEntriesComplete | tool/Program.cs:71-75 | The loop completes exactly when every entry can be read, with one digest per entry; otherwise it stops at the first unreadable entry, after one digest per earlier entry |
| Tool.SaveEntriesHashes | tool/Program.cs:73-74 | Digest k is the digest of entry k's bytes, and it is stored |
| Tool.SaveEntriesExtends | tool/Program.cs:71-75 | The loop never changes or removes a stored file |
| Tool.SaveEntriesKeepsContentAddressed | tool/Program.cs:71-75 | The loop keeps the storage content-addressed |
| Tool.SaveEntriesContents | tool/Program.cs:71-75 | The loop adds only the contents of the archive's entries |
| Tool.SaveEntriesStopsAt | tool/Program.cs:71-75 | At the first unreadable entry the loop has stored exactly the earlier entries, and it stops with their digests |
| Tool.IngestFile | tool/Program.cs:34-53 | `CopyFile` on values; `Tool.KnownNameUnchanged`, `Tool.IngestFileInserts` and `Tool.IngestFilePreserves` state what it does, and `Tool.Repository.CopyFile` is proved equal to it |
| Tool.IngestArchive | tool/Program.cs:56-78 | `Unzip` on values; `Tool.IngestArchiveInserts`, `Tool.IngestArchiveAllOrNothing`, `Tool.ArchiveOpenFailure` and `Tool.IngestArchivePreserves` state what it does, and `Tool.Repository.Unzip` is proved equal to it |
| Tool.IngestOne | tool/Program.cs:20-31 | One iteration of the loop; `Tool.IngestOnePreserves` and `Tool.IngestOneRecords` state its properties |
| Tool.IngestAll | tool/Program.cs:12-32 | The whole run, stopping at the first exception; `Tool.IngestAllPreserves`, `Tool.IngestAllRecordsAll`, `Tool.IngestAllIdempotent` and the other `IngestAll` lemmas state its properties, and `Tool.Repository.Run` is proved equal to it |
| Tool.KnownNameUnchanged | tool/Program.cs:40-44 | An input whose file name is already recorded leaves the database unchanged, whether it is an archive or not (also lines 62-66) |
| Tool.IngestFileInserts | tool/Program.cs:46-52 | A new plain file is recorded under its file name with exactly its content's digest, which is stored; existing files are kept |
| Tool.IngestArchiveInserts | tool/Program.cs:68-77 | A new archive whose entries are all readable appends exactly one record, under its file name, listing the entries' digests in order; all of them are stored |
| Tool.IngestArchiveAllOrNothing | tool/Program.cs:70-77 | If an entry cannot be read the step fails and no record is inserted, although the earlier entries stay stored |
| Tool.ArchiveOpenFailure | tool/Program.cs:70 | An archive that cannot be opened fails the step and changes nothing |
| Tool.IngestFilePreserves | tool/Program.cs:34-53 | Copying a file keeps the database consistent, keeps every stored file and only appends records |
| Tool.IngestArchivePreserves | tool/Program.cs:56-78 | Unzipping keeps the database consistent, keeps every stored file and only appends records, including when it fails partway |
| Tool.IngestOnePreserves | tool/Program.cs:20-31 | One iteration of the loop keeps the database consistent, keeps every stored file and only appends records |
| Tool.IngestAllPreserves | tool/Program.cs:12-32 | A whole run, finished or stopped by an exception, keeps the database consistent, keeps every stored file and only appends records |
| Tool.IngestOneRecords | tool/Program.cs:20-31 | After a successful step the input's file name is recorded |
| Tool.IngestAllOnlyAppends | tool/Program.cs:12-32 | A run never removes or reorders records |
| Tool.IngestAllRecordsAll | tool/Program.cs:12-32 | After a finished run every input's file name is recorded |
| Tool.IngestAllSkipsKnown | tool/Program.cs:40-44 | A run over inputs that are all already recorded changes nothing and finishes (also lines 62-66) |
| Tool.IngestAllIdempotent | tool/Program.cs:12-66 | Running the tool again over the same inputs after a finished run changes nothing |
| Tool.Repository.Open | tool/Program.cs:9-10 | Opening the database gives a repository whose state is the given database; the repository is valid exactly when that database is consistent |
| Tool.Repository.SaveFileInDb | tool/Program.cs:80-99 | Updates the storage and returns the digest exactly as `SaveBlob` does, and leaves the records untouched |
| Tool.Repository.CopyFile | tool/Program.cs:34-53 | The new state is `IngestFile` of the old state; a consistent database stays consistent |
| Tool.Repository.Unzip | tool/Program.cs:56-78 | The new state, and whether the step completed without an exception, are `IngestArchive` of the old state; for an archive path, as the switch of lines 22-25 passes it, a consistent database stays consistent, also when the step fails partway |
| Tool.Repository.Run | tool/Program.cs:12-32 | The new state, and whether the run finished, are `IngestAll` of the old state; a consistent database stays consistent |
| Web.EntryOf | web/Program.cs:38-40 | The entry created for a stored file: its stored name and its bytes; `Web.Rebuild` and `Web.ArchiveAnswer` state that each entry of the archive is this for its digest |
| Web.Resolve | web/Program.cs:17-54 | The handler's answer as a function of the database; `Web.UnknownIsNotFound`, `Web.BranchByExtension`, `Web.ArchiveAnswer`, `Web.FileAnswer` and `Web.KnownNameServed` state its properties, and `Web.GetFile` is proved equal to it |
| Web.Rebuild | web/Program.cs:32-41 | The archive exists exactly when every digest is stored; then entry k is the stored file of digest k, under its stored name, with one entry per digest |
| Web.WriteArchive | web/Program.cs:29-41 | The loop that fills the new archive returns exactly `Rebuild`, and gives up at the first missing digest |
| Web.GetFile | web/Program.cs:17-54 | The handler's answer is `Resolve` of the database and the requested name |
| Web.UnknownIsNotFound | web/Program.cs:21-23 | An unknown bundle name is NotFound |
| Web.BranchByExtension | web/Program.cs:25-27 | An archive is only answered for a recorded archive name; a single file, or the `First()` exception, only for a recorded other name |
| Web.ArchiveAnswer | web/Program.cs:27-45 | For a recorded archive name: an archive downloaded under the requested name exactly when every digest is stored, else NotFound; entry k is the stored file of digest k |
| Web.FileAnswer | web/Program.cs:46-53 | For a recorded other name: the stored file of the first digest, under its stored name, else NotFound |
| Web.KnownNameServed | web/Program.cs:17-54 | On a consistent database every recorded name is served as an archive or a single file, according to its extension; never NotFound and never the `First()` exception |
| RoundTrip.ArchiveResolves | web/Program.cs:27-44 | A new archive that was ingested completely is answered with the archive rebuilt from the digests the entry loop produced |
| RoundTrip.ArchiveRoundTrip | web/Program.cs:27-44 | A new archive, once ingested, is served under its file name with one entry per original entry, in order; entry k has entry k's digest and is named by that digest plus an extension |
| RoundTrip.ArchiveRoundTripBytes | web/Program.cs:32-41 | Under collision-freedom each served entry holds exactly the bytes of the original entry at the same position |
| RoundTrip.FileRoundTrip | web/Program.cs:46-53 | A new plain file, once ingested, is served as a single file whose bytes have its digest, under a name starting with that digest; first-time content comes back byte for byte, named by the digest plus the file's own extension |
| RoundTrip.FileRoundTripBytes | web/Program.cs:48-52 | Under collision-freedom the served bytes are the file's own bytes |
| RoundTrip.EveryInputServed | web/Program.cs:17-54 | After a finished run over a consistent database, every input's file name is served as an archive or a single file, according to its extension |
| RoundTrip.SharedContentExample | tool/Program.cs:71-75 | An archive holding two entries with equal bytes stores one file, records its digest twice, and is served as two entries with the same stored name |

## Left out

- MD5 itself is not modelled. It is the parameter `md5`, and byte-level round trips assume only collision-freedom on the contents involved.
- RoundTrip.ArchiveRoundTrip: states equal digests rather than equal bytes, because the store keeps the first content seen for a digest. `RoundTrip.ArchiveRoundTripBytes` adds the collision-freedom premise that gives equal bytes.
- RoundTrip.FileRoundTrip: the same holds here. `RoundTrip.FileRoundTripBytes` gives equal bytes under collision-freedom.
- The zip file format is not modelled. An archive is its sequence of entries, and the handler's answer is the list of entries it writes. Compression level and stream positioning are left out.
- The handler never disposes the `ZipArchive` it builds (web/Program.cs:30, 43-44). It rewinds the memory stream and returns it with the archive still open. A .NET zip archive writes its central directory only when it is disposed, so the stream served very likely lacks it, and a standard zip reader cannot open the download. `RoundTrip.ArchiveResolves`, `RoundTrip.ArchiveRoundTrip` and `RoundTrip.ArchiveRoundTripBytes` hold for the list of entries the handler writes into the archive, not for what a client reads back from the bytes it receives.
- Store.FindOne: names are compared exactly, and so are they in `Store.Exists`. LiteDB's default collation compares strings ignoring case, which the model does not capture. Under that collation:
  - an input whose file name differs only in case from a recorded one is skipped as already saved (tool/Program.cs:40, 62);
  - a request for `SKINS.ZIP` finds the `skins.zip` record, but the extension test is case-sensitive, so the handler takes the single-file branch and serves only the first entry's stored file (web/Program.cs:21, 25-27, 48-52).
- `EnsureIndex` has no observable effect in the model.
- LiteDB's file storage is not modelled beyond a map from id to name and bytes. That excludes chunking, metadata, the MIME type it records and the one used for the response.
- File and entry reads are not modelled. `File.OpenRead` is taken never to fail: the bytes are part of the input. The second `Open()`/`OpenRead` of the same entry or file is taken to give the same bytes as the first.
- `Directory.GetFiles` is taken to give any sequence of paths. The run follows that sequence.
- Paths.GetExtension: only `/` is a directory separator. Windows `\` and drive separators are not modelled.
- Console output, the Swagger set-up and the HTTP stack are not modelled. Opening the database is modelled only as `Tool.Repository.Open`.
- `ToLower` lower-cases ASCII letters only. The hash text holds nothing else that could change, and culture-specific lower-casing is not modelled.
- Concurrency is not modelled: the tool and the web service running against the same database at once.
