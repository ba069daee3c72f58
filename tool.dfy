/**
 * The ingestion tool (tool/Program.cs): every file of the input directory is
 * routed by extension to `Unzip` (".zip", ".skinzip") or `CopyFile` (all other
 * extensions); each payload goes through `SaveFileInDb`, which stores its bytes
 * under their digest unless that digest is already stored; a bundle record is
 * inserted unless its name is already known, and for an archive only after
 * every entry was stored.
 *
 * The pure functions below are the specification of one call each; the class
 * `Repository` holds the database and its methods are proved against them.
 */
module Tool {
  import opened Base
  import opened Paths
  import opened Store

  /** An archive entry: `entry.FullName` and the bytes `entry.Open()` yields, None when it cannot be read. */
  datatype Entry = Entry(fullName: string, content: Option<Bytes>)

  /**
   * A file of the input directory: its path, its bytes as a plain file, and its
   * entries as `ZipFile.OpenRead` sees them (None when it cannot be opened as an archive).
   */
  datatype InputFile = InputFile(path: string, content: Bytes, archive: Option<seq<Entry>>)

  /** The file storage after `SaveFileInDb`, and the digest it returns. */
  datatype Saved = Saved(storage: FileStorage, hash: string)

  /** The file storage and digests after the entry loop of `Unzip`; complete is false when an entry failed. */
  datatype Batch = Batch(storage: FileStorage, hashes: seq<string>, complete: bool)

  /** The database after one step; ok is false when the step ended in an exception, which ends the run. */
  datatype Step = Step(db: Db, ok: bool)

  /** `SaveFileInDb` (tool/Program.cs:80-99). */
  function SaveBlob(md5: Hasher, storage: FileStorage, filename: string, content: Bytes): (r: Saved)
    ensures r.hash == HashOf(md5, content) && r.hash in r.storage
    ensures Extends(storage, r.storage)
    ensures r.hash !in storage ==> r.storage[r.hash] == StoredFile(r.hash + GetExtension(filename), content)
    ensures r.hash in storage ==> r.storage == storage
    ensures r.storage.Keys == storage.Keys + {r.hash}
  {
    var hash := HashOf(md5, content);
    if hash in storage then Saved(storage, hash)
    else Saved(storage[hash := StoredFile(hash + GetExtension(filename), content)], hash)
  }

  /** `CopyFile` (tool/Program.cs:34-53). */
  function IngestFile(md5: Hasher, db: Db, rawFileName: string, content: Bytes): Db
  {
    var fileName := GetFileName(rawFileName);
    if Exists(db.zipdata, fileName) then db
    else
      var saved := SaveBlob(md5, db.storage, rawFileName, content);
      Db(saved.storage, db.zipdata + [ZipData(fileName, [saved.hash])])
  }

  /** The entry loop of `Unzip` (tool/Program.cs:71-75), stopping at the first entry that cannot be read. */
  function SaveEntries(md5: Hasher, storage: FileStorage, entries: seq<Entry>): (r: Batch)
    ensures |r.hashes| <= |entries|
    decreases |entries|
  {
    if entries == [] then Batch(storage, [], true)
    else if entries[0].content.None? then Batch(storage, [], false)
    else
      var saved := SaveBlob(md5, storage, entries[0].fullName, entries[0].content.value);
      var rest := SaveEntries(md5, saved.storage, entries[1..]);
      Batch(rest.storage, [saved.hash] + rest.hashes, rest.complete)
  }

  /** One step of the entry loop: the first entry is read and saved, then the rest follow. */
  lemma SaveEntriesUnfold(md5: Hasher, storage: FileStorage, entries: seq<Entry>)
    requires entries != []
    ensures entries[0].content.None? ==> SaveEntries(md5, storage, entries) == Batch(storage, [], false)
    ensures entries[0].content.Some? ==>
      var saved := SaveBlob(md5, storage, entries[0].fullName, entries[0].content.value);
      var rest := SaveEntries(md5, saved.storage, entries[1..]);
      SaveEntries(md5, storage, entries) == Batch(rest.storage, [saved.hash] + rest.hashes, rest.complete)
  {
  }

  /** The loop completes exactly when every entry can be read, and otherwise stops at the first that cannot. */
  lemma {:induction false} SaveEntriesComplete(md5: Hasher, storage: FileStorage, entries: seq<Entry>)
    ensures SaveEntries(md5, storage, entries).complete <==> forall k | 0 <= k < |entries| :: entries[k].content.Some?
    ensures var r := SaveEntries(md5, storage, entries); r.complete ==> |r.hashes| == |entries|
    ensures var r := SaveEntries(md5, storage, entries);
      !r.complete ==> |r.hashes| < |entries| && entries[|r.hashes|].content.None?
    decreases |entries|
  {
    if entries != [] {
      SaveEntriesUnfold(md5, storage, entries);
      if entries[0].content.Some? {
        var saved := SaveBlob(md5, storage, entries[0].fullName, entries[0].content.value);
        var rest := SaveEntries(md5, saved.storage, entries[1..]);
        SaveEntriesComplete(md5, saved.storage, entries[1..]);
        assert forall k | 1 <= k < |entries| :: entries[1..][k - 1] == entries[k];
        assert !rest.complete ==> entries[1..][|rest.hashes|] == entries[|rest.hashes| + 1];
      }
    }
  }

  /** The k-th digest is the digest of the k-th entry, and it is stored. */
  lemma {:induction false} SaveEntriesHashes(md5: Hasher, storage: FileStorage, entries: seq<Entry>)
    ensures var r := SaveEntries(md5, storage, entries);
      forall k | 0 <= k < |r.hashes| ::
        entries[k].content.Some? && r.hashes[k] == HashOf(md5, entries[k].content.value) && r.hashes[k] in r.storage
    decreases |entries|
  {
    if entries != [] {
      SaveEntriesUnfold(md5, storage, entries);
      if entries[0].content.Some? {
        var saved := SaveBlob(md5, storage, entries[0].fullName, entries[0].content.value);
        var rest := SaveEntries(md5, saved.storage, entries[1..]);
        var r := SaveEntries(md5, storage, entries);
        SaveEntriesHashes(md5, saved.storage, entries[1..]);
        SaveEntriesExtends(md5, saved.storage, entries[1..]);
        assert r.hashes == [saved.hash] + rest.hashes && r.storage == rest.storage;
        forall k | 0 <= k < |r.hashes|
          ensures entries[k].content.Some? && r.hashes[k] == HashOf(md5, entries[k].content.value) && r.hashes[k] in r.storage
        {
          if k > 0 {
            assert r.hashes[k] == rest.hashes[k - 1];
            assert entries[1..][k - 1] == entries[k];
          }
        }
      }
    }
  }

  /** The loop never changes or removes a stored file. */
  lemma {:induction false} SaveEntriesExtends(md5: Hasher, storage: FileStorage, entries: seq<Entry>)
    ensures Extends(storage, SaveEntries(md5, storage, entries).storage)
    decreases |entries|
  {
    if entries != [] && entries[0].content.Some? {
      var saved := SaveBlob(md5, storage, entries[0].fullName, entries[0].content.value);
      SaveEntriesExtends(md5, saved.storage, entries[1..]);
    }
  }

  /** `Unzip` (tool/Program.cs:56-78). */
  function IngestArchive(md5: Hasher, db: Db, path: string, archive: Option<seq<Entry>>): Step
  {
    var fileName := GetFileName(path);
    if Exists(db.zipdata, fileName) then Step(db, true)
    else if archive.None? then Step(db, false)
    else
      var batch := SaveEntries(md5, db.storage, archive.value);
      if batch.complete then Step(Db(batch.storage, db.zipdata + [ZipData(fileName, batch.hashes)]), true)
      else Step(Db(batch.storage, db.zipdata), false)
  }

  /** One iteration of the top-level loop (tool/Program.cs:13-31). */
  function IngestOne(md5: Hasher, db: Db, f: InputFile): Step
  {
    if IsArchiveType(GetExtension(f.path)) then IngestArchive(md5, db, f.path, f.archive)
    else Step(IngestFile(md5, db, f.path, f.content), true)
  }

  /** The whole top-level loop; an exception ends the program, so the run stops at the first failed step. */
  function IngestAll(md5: Hasher, db: Db, inputs: seq<InputFile>): Step
    decreases |inputs|
  {
    if inputs == [] then Step(db, true)
    else
      var step := IngestOne(md5, db, inputs[0]);
      if !step.ok then step else IngestAll(md5, step.db, inputs[1..])
  }

  /** The contents of the readable entries of an archive. */
  function EntryContents(entries: seq<Entry>): set<Bytes>
  {
    set k | 0 <= k < |entries| && entries[k].content.Some? :: entries[k].content.value
  }

  // ---- SaveFileInDb ------------------------------------------------------

  /**
   * Saving the same content again, under any name, changes nothing and returns the
   * same digest: the first name a content is seen under fixes its stored name.
   */
  lemma SaveBlobIdempotent(md5: Hasher, storage: FileStorage, name1: string, name2: string, content: Bytes)
    ensures var once := SaveBlob(md5, storage, name1, content);
      SaveBlob(md5, once.storage, name2, content) == once
  {
  }

  lemma SaveBlobKeepsContentAddressed(md5: Hasher, storage: FileStorage, filename: string, content: Bytes)
    requires ContentAddressed(md5, storage)
    ensures ContentAddressed(md5, SaveBlob(md5, storage, filename, content).storage)
  {
    var hash := HashOf(md5, content);
    assert hash <= hash + GetExtension(filename);
  }

  lemma SaveBlobContents(md5: Hasher, storage: FileStorage, filename: string, content: Bytes)
    ensures Contents(SaveBlob(md5, storage, filename, content).storage) <= Contents(storage) + {content}
  {
    var r := SaveBlob(md5, storage, filename, content).storage;
    forall c | c in Contents(r) ensures c in Contents(storage) + {content} {
      var h :| h in r && r[h].content == c;
      if h in storage {
        assert c in Contents(storage);
      }
    }
  }

  // ---- The entry loop of Unzip ------------------------------------------

  lemma {:induction false} SaveEntriesKeepsContentAddressed(md5: Hasher, storage: FileStorage, entries: seq<Entry>)
    requires ContentAddressed(md5, storage)
    ensures ContentAddressed(md5, SaveEntries(md5, storage, entries).storage)
    decreases |entries|
  {
    if entries != [] && entries[0].content.Some? {
      var saved := SaveBlob(md5, storage, entries[0].fullName, entries[0].content.value);
      SaveBlobKeepsContentAddressed(md5, storage, entries[0].fullName, entries[0].content.value);
      SaveEntriesKeepsContentAddressed(md5, saved.storage, entries[1..]);
    }
  }

  /** Every content the loop leaves in the storage was there before or is the content of an entry. */
  lemma {:induction false} SaveEntriesContents(md5: Hasher, storage: FileStorage, entries: seq<Entry>)
    ensures Contents(SaveEntries(md5, storage, entries).storage) <= Contents(storage) + EntryContents(entries)
    decreases |entries|
  {
    if entries != [] && entries[0].content.Some? {
      var c := entries[0].content.value;
      var saved := SaveBlob(md5, storage, entries[0].fullName, c);
      SaveBlobContents(md5, storage, entries[0].fullName, c);
      SaveEntriesContents(md5, saved.storage, entries[1..]);
      assert c in EntryContents(entries);
      forall x | x in EntryContents(entries[1..]) ensures x in EntryContents(entries) {
        var k :| 0 <= k < |entries[1..]| && entries[1..][k].content.Some? && entries[1..][k].content.value == x;
        assert entries[k + 1] == entries[1..][k];
      }
    }
  }

  /** When entry k is the first that cannot be read, the loop stores exactly the blobs of entries 0..k-1. */
  lemma {:induction false} SaveEntriesStopsAt(md5: Hasher, storage: FileStorage, entries: seq<Entry>, k: nat)
    requires k < |entries| && entries[k].content.None?
    requires forall j | 0 <= j < k :: entries[j].content.Some?
    ensures SaveEntries(md5, storage, entries) == Batch(SaveEntries(md5, storage, entries[..k]).storage,
                                                        SaveEntries(md5, storage, entries[..k]).hashes, false)
    decreases |entries|
  {
    if k > 0 {
      var saved := SaveBlob(md5, storage, entries[0].fullName, entries[0].content.value);
      assert entries[..k][1..] == entries[1..][..k - 1];
      SaveEntriesStopsAt(md5, saved.storage, entries[1..], k - 1);
    }
  }

  // ---- CopyFile and Unzip --------------------------------------------------

  /** A bundle whose name is already recorded is skipped: storage and index are left as they are. */
  lemma KnownNameUnchanged(md5: Hasher, db: Db, f: InputFile)
    requires Exists(db.zipdata, GetFileName(f.path))
    ensures IngestOne(md5, db, f) == Step(db, true)
  {
  }

  /** A new plain file adds exactly one record, its file name with the single digest of its bytes. */
  lemma IngestFileInserts(md5: Hasher, db: Db, rawFileName: string, content: Bytes)
    requires !Exists(db.zipdata, GetFileName(rawFileName))
    ensures var after := IngestFile(md5, db, rawFileName, content);
      && after.zipdata == db.zipdata + [ZipData(GetFileName(rawFileName), [HashOf(md5, content)])]
      && HashOf(md5, content) in after.storage
      && Extends(db.storage, after.storage)
  {
  }

  /** A new, readable archive adds one record naming one digest per entry, in entry order. */
  lemma IngestArchiveInserts(md5: Hasher, db: Db, path: string, entries: seq<Entry>)
    requires !Exists(db.zipdata, GetFileName(path))
    requires forall k | 0 <= k < |entries| :: entries[k].content.Some?
    ensures var step := IngestArchive(md5, db, path, Some(entries));
      && step.ok
      && |step.db.zipdata| == |db.zipdata| + 1
      && step.db.zipdata[..|db.zipdata|] == db.zipdata
      && step.db.zipdata[|db.zipdata|].fileName == GetFileName(path)
      && |step.db.zipdata[|db.zipdata|].files| == |entries|
      && (forall k | 0 <= k < |entries| ::
            step.db.zipdata[|db.zipdata|].files[k] == HashOf(md5, entries[k].content.value))
      && (forall k | 0 <= k < |entries| :: step.db.zipdata[|db.zipdata|].files[k] in step.db.storage)
      && Extends(db.storage, step.db.storage)
  {
    SaveEntriesComplete(md5, db.storage, entries);
    SaveEntriesHashes(md5, db.storage, entries);
    SaveEntriesExtends(md5, db.storage, entries);
    var step := IngestArchive(md5, db, path, Some(entries));
    assert step.db.zipdata[..|db.zipdata|] == db.zipdata;
  }

  /**
   * All or nothing: when entry k is the first that cannot be read no record is
   * added, yet the blobs of entries 0..k-1 stay stored, and nothing of the later entries is.
   */
  lemma IngestArchiveAllOrNothing(md5: Hasher, db: Db, path: string, entries: seq<Entry>, k: nat)
    requires !Exists(db.zipdata, GetFileName(path))
    requires k < |entries| && entries[k].content.None?
    requires forall j | 0 <= j < k :: entries[j].content.Some?
    ensures var step := IngestArchive(md5, db, path, Some(entries));
      && !step.ok
      && step.db.zipdata == db.zipdata
      && step.db.storage == SaveEntries(md5, db.storage, entries[..k]).storage
      && (forall j | 0 <= j < k :: HashOf(md5, entries[j].content.value) in step.db.storage)
  {
    SaveEntriesStopsAt(md5, db.storage, entries, k);
    SaveEntriesComplete(md5, db.storage, entries[..k]);
    SaveEntriesHashes(md5, db.storage, entries[..k]);
    assert forall j | 0 <= j < k :: entries[..k][j] == entries[j];
  }

  /** An archive that cannot be opened leaves everything unchanged and ends the run. */
  lemma ArchiveOpenFailure(md5: Hasher, db: Db, path: string)
    requires !Exists(db.zipdata, GetFileName(path))
    ensures IngestArchive(md5, db, path, None) == Step(db, false)
  {
  }

  // ---- Invariants of the run ---------------------------------------------

  lemma IngestFilePreserves(md5: Hasher, db: Db, rawFileName: string, content: Bytes)
    requires Consistent(md5, db)
    ensures var after := IngestFile(md5, db, rawFileName, content);
      Consistent(md5, after) && Extends(db.storage, after.storage) && db.zipdata <= after.zipdata
  {
    var name := GetFileName(rawFileName);
    if !Exists(db.zipdata, name) {
      var saved := SaveBlob(md5, db.storage, rawFileName, content);
      SaveBlobKeepsContentAddressed(md5, db.storage, rawFileName, content);
      AppendKeepsConsistent(md5, db, saved.storage, ZipData(name, [saved.hash]));
    }
  }

  lemma IngestArchivePreserves(md5: Hasher, db: Db, path: string, archive: Option<seq<Entry>>)
    requires Consistent(md5, db)
    requires IsArchiveType(GetExtension(path))
    ensures var step := IngestArchive(md5, db, path, archive);
      Consistent(md5, step.db) && Extends(db.storage, step.db.storage) && db.zipdata <= step.db.zipdata
  {
    var name := GetFileName(path);
    if !Exists(db.zipdata, name) && archive.Some? {
      SaveEntriesKeepsContentAddressed(md5, db.storage, archive.value);
      SaveEntriesHashes(md5, db.storage, archive.value);
      SaveEntriesExtends(md5, db.storage, archive.value);
      SaveEntriesComplete(md5, db.storage, archive.value);
      var batch := SaveEntries(md5, db.storage, archive.value);
      if batch.complete {
        ExtensionOfFileName(path);
        AppendKeepsConsistent(md5, db, batch.storage, ZipData(name, batch.hashes));
      } else {
        GrowKeepsConsistent(md5, db, batch.storage);
      }
    }
  }

  lemma IngestOnePreserves(md5: Hasher, db: Db, f: InputFile)
    requires Consistent(md5, db)
    ensures var step := IngestOne(md5, db, f);
      Consistent(md5, step.db) && Extends(db.storage, step.db.storage) && db.zipdata <= step.db.zipdata
  {
    if IsArchiveType(GetExtension(f.path)) {
      IngestArchivePreserves(md5, db, f.path, f.archive);
    } else {
      IngestFilePreserves(md5, db, f.path, f.content);
    }
  }

  /**
   * A run, finished or stopped by an exception, keeps the database consistent,
   * never changes or removes a stored blob and only appends records.
   */
  lemma {:induction false} IngestAllPreserves(md5: Hasher, db: Db, inputs: seq<InputFile>)
    requires Consistent(md5, db)
    ensures var run := IngestAll(md5, db, inputs);
      Consistent(md5, run.db) && Extends(db.storage, run.db.storage) && db.zipdata <= run.db.zipdata
    decreases |inputs|
  {
    if inputs != [] {
      var step := IngestOne(md5, db, inputs[0]);
      IngestOnePreserves(md5, db, inputs[0]);
      if step.ok {
        IngestAllPreserves(md5, step.db, inputs[1..]);
      }
    }
  }

  /** After a step that did not fail, the input's bundle name is recorded. */
  lemma IngestOneRecords(md5: Hasher, db: Db, f: InputFile)
    requires IngestOne(md5, db, f).ok
    ensures Exists(IngestOne(md5, db, f).db.zipdata, GetFileName(f.path))
  {
    var name := GetFileName(f.path);
    var after := IngestOne(md5, db, f).db;
    if !Exists(db.zipdata, name) {
      assert after.zipdata[|db.zipdata|].fileName == name;
    }
  }

  lemma {:induction false} IngestAllOnlyAppends(md5: Hasher, db: Db, inputs: seq<InputFile>)
    ensures db.zipdata <= IngestAll(md5, db, inputs).db.zipdata
    decreases |inputs|
  {
    if inputs != [] {
      var step := IngestOne(md5, db, inputs[0]);
      if step.ok {
        IngestAllOnlyAppends(md5, step.db, inputs[1..]);
      }
    }
  }

  lemma ExistsInExtension(zipdata: seq<ZipData>, longer: seq<ZipData>, name: string)
    requires zipdata <= longer && Exists(zipdata, name)
    ensures Exists(longer, name)
  {
    var i :| 0 <= i < |zipdata| && zipdata[i].fileName == name;
    assert longer[i] == zipdata[i];
  }

  /** After a run that finished, every input's bundle name is recorded. */
  lemma {:induction false} IngestAllRecordsAll(md5: Hasher, db: Db, inputs: seq<InputFile>)
    requires IngestAll(md5, db, inputs).ok
    ensures forall i | 0 <= i < |inputs| :: Exists(IngestAll(md5, db, inputs).db.zipdata, GetFileName(inputs[i].path))
    decreases |inputs|
  {
    if inputs != [] {
      var step := IngestOne(md5, db, inputs[0]);
      var run := IngestAll(md5, db, inputs);
      IngestOneRecords(md5, db, inputs[0]);
      IngestAllRecordsAll(md5, step.db, inputs[1..]);
      IngestAllOnlyAppends(md5, step.db, inputs[1..]);
      ExistsInExtension(step.db.zipdata, run.db.zipdata, GetFileName(inputs[0].path));
      forall i | 1 <= i < |inputs| ensures Exists(run.db.zipdata, GetFileName(inputs[i].path)) {
        assert inputs[1..][i - 1] == inputs[i];
      }
    }
  }

  lemma {:induction false} IngestAllSkipsKnown(md5: Hasher, db: Db, inputs: seq<InputFile>)
    requires forall i | 0 <= i < |inputs| :: Exists(db.zipdata, GetFileName(inputs[i].path))
    ensures IngestAll(md5, db, inputs) == Step(db, true)
    decreases |inputs|
  {
    if inputs != [] {
      KnownNameUnchanged(md5, db, inputs[0]);
      assert forall i | 1 <= i < |inputs| :: inputs[1..][i - 1] == inputs[i];
      IngestAllSkipsKnown(md5, db, inputs[1..]);
    }
  }

  /** Running the tool again over the same files after a finished run changes nothing. */
  lemma IngestAllIdempotent(md5: Hasher, db: Db, inputs: seq<InputFile>)
    requires IngestAll(md5, db, inputs).ok
    ensures var once := IngestAll(md5, db, inputs).db;
      IngestAll(md5, once, inputs) == Step(once, true)
  {
    IngestAllRecordsAll(md5, db, inputs);
    IngestAllSkipsKnown(md5, IngestAll(md5, db, inputs).db, inputs);
  }

  // ---- The database as the tool updates it -------------------------------

  class Repository {
    const md5: Hasher
    var storage: FileStorage
    var zipdata: seq<ZipData>

    function State(): Db
      reads this
    {
      Db(storage, zipdata)
    }

    ghost predicate Valid()
      reads this
    {
      Consistent(md5, State())
    }

    /** Opens a database holding the given storage and records. */
    constructor Open(md5: Hasher, db: Db)
      ensures this.md5 == md5 && State() == db
      ensures Valid() <==> Consistent(md5, db)
    {
      this.md5 := md5;
      storage := db.storage;
      zipdata := db.zipdata;
    }

    method SaveFileInDb(filename: string, content: Bytes) returns (hash: string)
      modifies this
      ensures zipdata == old(zipdata)
      ensures Saved(storage, hash) == SaveBlob(md5, old(storage), filename, content)
    {
      hash := HashOf(md5, content);
      if hash !in storage {
        storage := storage[hash := StoredFile(hash + GetExtension(filename), content)];
      }
    }

    method CopyFile(rawFileName: string, content: Bytes)
      modifies this
      ensures State() == IngestFile(md5, old(State()), rawFileName, content)
      ensures old(Valid()) ==> Valid()
    {
      if Valid() {
        IngestFilePreserves(md5, State(), rawFileName, content);
      }
      var fileName := GetFileName(rawFileName);
      if Exists(zipdata, fileName) {
        return;
      }
      var hash := SaveFileInDb(rawFileName, content);
      zipdata := zipdata + [ZipData(fileName, [hash])];
    }

    /** Returns false where the source throws: the archive or one of its entries cannot be read. */
    method Unzip(path: string, archive: Option<seq<Entry>>) returns (ok: bool)
      modifies this
      ensures Step(State(), ok) == IngestArchive(md5, old(State()), path, archive)
      ensures IsArchiveType(GetExtension(path)) && old(Valid()) ==> Valid()
    {
      var fileName := GetFileName(path);
      if Exists(zipdata, fileName) {
        return true;
      }
      if archive.None? {
        return false;
      }
      var entries := archive.value;
      ghost var target := SaveEntries(md5, storage, entries);
      var files: seq<string> := [];
      var i := 0;
      while i < |entries|
        invariant 0 <= i <= |entries|
        invariant zipdata == old(zipdata)
        invariant target.storage == SaveEntries(md5, storage, entries[i..]).storage
        invariant target.hashes == files + SaveEntries(md5, storage, entries[i..]).hashes
        invariant target.complete == SaveEntries(md5, storage, entries[i..]).complete
      {
        var entry := entries[i];
        ghost var tail := entries[i..];
        assert tail[0] == entry && tail[1..] == entries[i + 1..];
        SaveEntriesUnfold(md5, storage, tail);
        if entry.content.None? {
          if IsArchiveType(GetExtension(path)) && old(Valid()) {
            IngestArchivePreserves(md5, old(State()), path, archive);
          }
          return false;
        }
        var hash := SaveFileInDb(entry.fullName, entry.content.value);
        files := files + [hash];
        i := i + 1;
      }
      assert entries[i..] == [];
      assert target == Batch(storage, files, true);
      zipdata := zipdata + [ZipData(fileName, files)];
      ok := true;
      if IsArchiveType(GetExtension(path)) && old(Valid()) {
        IngestArchivePreserves(md5, old(State()), path, archive);
      }
    }

    /** The top-level loop; returns false when an exception ended the run early. */
    method Run(inputs: seq<InputFile>) returns (finished: bool)
      modifies this
      ensures Step(State(), finished) == IngestAll(md5, old(State()), inputs)
      ensures old(Valid()) ==> Valid()
    {
      ghost var start := State();
      var i := 0;
      while i < |inputs|
        invariant 0 <= i <= |inputs|
        invariant IngestAll(md5, start, inputs) == IngestAll(md5, State(), inputs[i..])
      {
        var f := inputs[i];
        assert inputs[i..][1..] == inputs[i + 1..];
        var fileType := GetExtension(f.path);
        if IsArchiveType(fileType) {
          var ok := Unzip(f.path, f.archive);
          if !ok {
            finished := false;
            break;
          }
        } else {
          CopyFile(f.path, f.content);
        }
        i := i + 1;
      }
      if i == |inputs| {
        finished := true;
      }
      if Consistent(md5, start) {
        IngestAllPreserves(md5, start, inputs);
      }
    }
  }
}
