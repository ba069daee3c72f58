/**
 * The `/getfile/{file}` handler of the web service (web/Program.cs:17-54):
 * look the bundle up by name; for an archive name build a new archive with one
 * entry per recorded digest, named and filled from the stored file, or answer
 * NotFound as soon as one digest is missing; otherwise serve the stored file of
 * the first digest under its stored name. The handler only reads the database.
 */
module Web {
  import opened Base
  import opened Paths
  import opened Store

  /** An entry of the rebuilt archive: the name it is created under and the bytes copied into it. */
  datatype ArchiveEntry = ArchiveEntry(name: string, content: Bytes)

  datatype Response =
    | NotFound                                                       // Results.NotFound()
    | ZipStream(entries: seq<ArchiveEntry>, downloadName: string)     // Results.Stream(memoryStream, "application/x-zip", file)
    | FileStream(content: Bytes, downloadName: string)                // Results.Stream(f.OpenRead(), f.MimeType, f.Filename)
    | ServerError                                                     // `Files.First()` throws on an empty list

  /** `archive.CreateEntry(f.Filename, ...)` followed by `f.CopyTo(entryStream)`. */
  function EntryOf(f: StoredFile): ArchiveEntry
  {
    ArchiveEntry(f.filename, f.content)
  }

  /**
   * The archive loop (web/Program.cs:32-41): an archive exists exactly when every
   * digest is stored, and then it has one entry per digest, in list order.
   */
  function Rebuild(storage: FileStorage, hashes: seq<string>): (r: Option<seq<ArchiveEntry>>)
    ensures r.Some? <==> forall k | 0 <= k < |hashes| :: hashes[k] in storage
    ensures r.Some? ==> |r.value| == |hashes|
    ensures r.Some? ==> forall k | 0 <= k < |hashes| :: hashes[k] in storage && r.value[k] == EntryOf(storage[hashes[k]])
    decreases |hashes|
  {
    if hashes == [] then Some([])
    else if hashes[0] !in storage then None
    else
      assert forall k | 1 <= k < |hashes| :: hashes[1..][k - 1] == hashes[k];
      match Rebuild(storage, hashes[1..])
      case None => None
      case Some(rest) => Some([EntryOf(storage[hashes[0]])] + rest)
  }

  /** What the handler answers for `file`, as a function of the database. */
  function Resolve(db: Db, file: string): Response
  {
    match FindOne(db.zipdata, file)
    case None => NotFound
    case Some(fileData) =>
      if IsArchiveType(GetExtension(file)) then
        match Rebuild(db.storage, fileData.files)
        case None => NotFound
        case Some(entries) => ZipStream(entries, file)
      else if fileData.files == [] then ServerError
      else if fileData.files[0] !in db.storage then NotFound
      else FileStream(db.storage[fileData.files[0]].content, db.storage[fileData.files[0]].filename)
  }

  /** The loop that fills the new archive, returning None where the handler returns NotFound. */
  method WriteArchive(storage: FileStorage, hashes: seq<string>) returns (entries: Option<seq<ArchiveEntry>>)
    ensures entries == Rebuild(storage, hashes)
  {
    var archive: seq<ArchiveEntry> := [];
    var i := 0;
    while i < |hashes|
      invariant 0 <= i <= |hashes|
      invariant |archive| == i
      invariant forall k | 0 <= k < i :: hashes[k] in storage && archive[k] == EntryOf(storage[hashes[k]])
    {
      var fileHash := hashes[i];
      if fileHash !in storage {
        return None;
      }
      var f := storage[fileHash];
      archive := archive + [ArchiveEntry(f.filename, f.content)];
      i := i + 1;
    }
    var expected := Rebuild(storage, hashes);
    assert expected.Some? && archive == expected.value;
    return Some(archive);
  }

  /**
   * The handler itself, statement by statement, with the archive loop run by
   * `WriteArchive`. `Resolve` is the same answer as a function so that lemmas,
   * which cannot call a method, can reason about it; this method is what ties
   * that function to the handler's code.
   */
  method GetFile(db: Db, file: string) returns (r: Response)
    ensures r == Resolve(db, file)
  {
    var fileData := FindOne(db.zipdata, file);
    if fileData.None? {
      return NotFound;
    }
    var fileType := GetExtension(file);
    if IsArchiveType(fileType) {
      var entries := WriteArchive(db.storage, fileData.value.files);
      if entries.None? {
        return NotFound;
      }
      return ZipStream(entries.value, file);
    }
    if fileData.value.files == [] {
      return ServerError;
    }
    var rf := fileData.value.files[0];
    if rf !in db.storage {
      return NotFound;
    }
    var f := db.storage[rf];
    return FileStream(f.content, f.filename);
  }

  /** An unknown bundle name is NotFound. */
  lemma UnknownIsNotFound(db: Db, file: string)
    requires !Exists(db.zipdata, file)
    ensures Resolve(db, file) == NotFound
  {
  }

  /** An archive is served exactly for a known archive name, a single file exactly for a known other name. */
  lemma BranchByExtension(db: Db, file: string)
    ensures Resolve(db, file).ZipStream? ==> Exists(db.zipdata, file) && IsArchiveName(file)
    ensures Resolve(db, file).FileStream? ==> Exists(db.zipdata, file) && !IsArchiveName(file)
    ensures Resolve(db, file).ServerError? ==> Exists(db.zipdata, file) && !IsArchiveName(file)
  {
  }

  /**
   * For a known archive name: the answer is an archive, downloaded under the
   * requested name, exactly when every recorded digest is stored; each entry is
   * the stored file of the digest at the same position, under its stored name.
   * One missing digest makes the whole answer NotFound.
   */
  lemma ArchiveAnswer(db: Db, file: string)
    requires Exists(db.zipdata, file) && IsArchiveName(file)
    ensures Resolve(db, file).ZipStream? <==>
      forall k | 0 <= k < |FindOne(db.zipdata, file).value.files| :: FindOne(db.zipdata, file).value.files[k] in db.storage
    ensures !Resolve(db, file).ZipStream? ==> Resolve(db, file) == NotFound
    ensures Resolve(db, file).ZipStream? ==> Resolve(db, file).downloadName == file
    ensures Resolve(db, file).ZipStream? ==>
      var hashes := FindOne(db.zipdata, file).value.files;
      var entries := Resolve(db, file).entries;
      && |entries| == |hashes|
      && forall k | 0 <= k < |hashes| ::
           entries[k].name == db.storage[hashes[k]].filename && entries[k].content == db.storage[hashes[k]].content
  {
    var hashes := FindOne(db.zipdata, file).value.files;
    var rebuilt := Rebuild(db.storage, hashes);
    assert Resolve(db, file) == if rebuilt.Some? then ZipStream(rebuilt.value, file) else NotFound;
    assert rebuilt.Some? <==> forall k | 0 <= k < |hashes| :: hashes[k] in db.storage;
    assert Resolve(db, file).ZipStream? <==> rebuilt.Some?;
  }

  /** For a known other name: the stored file of the first digest under its stored name, else NotFound. */
  lemma FileAnswer(db: Db, file: string)
    requires Exists(db.zipdata, file) && !IsArchiveName(file)
    requires FindOne(db.zipdata, file).value.files != []
    ensures var h := FindOne(db.zipdata, file).value.files[0];
      Resolve(db, file) == if h in db.storage then FileStream(db.storage[h].content, db.storage[h].filename) else NotFound
  {
  }

  /**
   * On a consistent database every known name is served: an archive for an
   * archive name, a single file otherwise; neither NotFound nor the empty-list exception.
   */
  lemma KnownNameServed(md5: Hasher, db: Db, file: string)
    requires Consistent(md5, db) && Exists(db.zipdata, file)
    ensures IsArchiveName(file) ==> Resolve(db, file).ZipStream?
    ensures !IsArchiveName(file) ==> Resolve(db, file).FileStream?
  {
    var rec := FindOne(db.zipdata, file).value;
    var i :| 0 <= i < |db.zipdata| && db.zipdata[i] == rec;
    assert forall k | 0 <= k < |rec.files| :: rec.files[k] == db.zipdata[i].files[k];
  }
}
