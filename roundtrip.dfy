/**
 * Ingestion followed by reconstruction: what the web handler answers for a
 * bundle the tool has just stored (web/Program.cs:17-54 with
 * tool/Program.cs:34-99). Digests always match; the bytes match under the
 * explicit premise that MD5 has no collision among the contents involved,
 * because the store keeps the first content seen for a digest.
 */
module RoundTrip {
  import opened Base
  import opened Paths
  import opened Store
  import opened Tool
  import opened Web

  /** The answer for a new archive, in terms of the database the loop over its entries leaves. */
  lemma ArchiveResolves(md5: Hasher, db: Db, f: InputFile)
    requires IsArchiveName(f.path) && !Exists(db.zipdata, GetFileName(f.path))
    requires f.archive.Some? && forall k | 0 <= k < |f.archive.value| :: f.archive.value[k].content.Some?
    ensures var batch := SaveEntries(md5, db.storage, f.archive.value);
      && IngestOne(md5, db, f) == Step(Db(batch.storage, db.zipdata + [ZipData(GetFileName(f.path), batch.hashes)]), true)
      && Rebuild(batch.storage, batch.hashes).Some?
      && Resolve(IngestOne(md5, db, f).db, GetFileName(f.path)) == ZipStream(Rebuild(batch.storage, batch.hashes).value, GetFileName(f.path))
  {
    var entries := f.archive.value;
    var name := GetFileName(f.path);
    var batch := SaveEntries(md5, db.storage, entries);
    SaveEntriesComplete(md5, db.storage, entries);
    SaveEntriesHashes(md5, db.storage, entries);
    var after := Db(batch.storage, db.zipdata + [ZipData(name, batch.hashes)]);
    assert IngestOne(md5, db, f) == Step(after, true);
    FindOneAppend(db.zipdata, ZipData(name, batch.hashes), name);
    assert FindOne(after.zipdata, name) == Some(ZipData(name, batch.hashes));
    ExtensionOfFileName(f.path);
    assert IsArchiveType(GetExtension(name));
    var rebuilt := Rebuild(batch.storage, batch.hashes);
    assert rebuilt.Some?;
    assert Resolve(after, name) == ZipStream(rebuilt.value, name);
  }

  /**
   * A new archive, once ingested, is served as an archive with as many entries
   * as it had, in the same order; entry k holds bytes with the digest of the
   * original entry k and is named by that digest followed by an extension.
   */
  lemma ArchiveRoundTrip(md5: Hasher, db: Db, f: InputFile)
    requires ContentAddressed(md5, db.storage)
    requires IsArchiveName(f.path) && !Exists(db.zipdata, GetFileName(f.path))
    requires f.archive.Some? && forall k | 0 <= k < |f.archive.value| :: f.archive.value[k].content.Some?
    ensures IngestOne(md5, db, f).ok
    ensures var r := Resolve(IngestOne(md5, db, f).db, GetFileName(f.path));
      && r.ZipStream?
      && r.downloadName == GetFileName(f.path)
      && |r.entries| == |f.archive.value|
      && forall k | 0 <= k < |f.archive.value| ::
           var digest := HashOf(md5, f.archive.value[k].content.value);
           HashOf(md5, r.entries[k].content) == digest && digest <= r.entries[k].name
  {
    var entries := f.archive.value;
    var batch := SaveEntries(md5, db.storage, entries);
    ArchiveResolves(md5, db, f);
    SaveEntriesComplete(md5, db.storage, entries);
    SaveEntriesHashes(md5, db.storage, entries);
    SaveEntriesKeepsContentAddressed(md5, db.storage, entries);
  }

  /** Under collision-freedom the served entries carry exactly the original bytes, in order. */
  lemma ArchiveRoundTripBytes(md5: Hasher, db: Db, f: InputFile)
    requires ContentAddressed(md5, db.storage)
    requires IsArchiveName(f.path) && !Exists(db.zipdata, GetFileName(f.path))
    requires f.archive.Some? && forall k | 0 <= k < |f.archive.value| :: f.archive.value[k].content.Some?
    requires CollisionFree(md5, Contents(db.storage) + EntryContents(f.archive.value))
    ensures var r := Resolve(IngestOne(md5, db, f).db, GetFileName(f.path));
      && r.ZipStream?
      && |r.entries| == |f.archive.value|
      && forall k | 0 <= k < |f.archive.value| :: r.entries[k].content == f.archive.value[k].content.value
  {
    var entries := f.archive.value;
    var batch := SaveEntries(md5, db.storage, entries);
    var r := Resolve(IngestOne(md5, db, f).db, GetFileName(f.path));
    ArchiveRoundTrip(md5, db, f);
    ArchiveResolves(md5, db, f);
    SaveEntriesContents(md5, db.storage, entries);
    SaveEntriesHashes(md5, db.storage, entries);
    var all := Contents(db.storage) + EntryContents(entries);
    forall k | 0 <= k < |entries| ensures r.entries[k].content == entries[k].content.value {
      var original := entries[k].content.value;
      var h := batch.hashes[k];
      assert r.entries[k] == EntryOf(batch.storage[h]);
      assert r.entries[k].content in Contents(batch.storage);
      assert original in EntryContents(entries);
      SameHashSameContent(md5, all, r.entries[k].content, original);
    }
  }

  /**
   * A new plain file, once ingested, is served as a single file whose bytes have
   * its digest, under the stored name (the digest and an extension), not under
   * its own file name; a content stored for the first time is named with the
   * file's own extension and served byte for byte.
   */
  lemma FileRoundTrip(md5: Hasher, db: Db, f: InputFile)
    requires ContentAddressed(md5, db.storage)
    requires !IsArchiveName(f.path) && !Exists(db.zipdata, GetFileName(f.path))
    ensures IngestOne(md5, db, f).ok
    ensures var r := Resolve(IngestOne(md5, db, f).db, GetFileName(f.path));
      var digest := HashOf(md5, f.content);
      && r.FileStream?
      && HashOf(md5, r.content) == digest
      && digest <= r.downloadName
      && (digest !in db.storage ==> r == FileStream(f.content, digest + GetExtension(f.path)))
  {
    var name := GetFileName(f.path);
    var saved := SaveBlob(md5, db.storage, f.path, f.content);
    FindOneAppend(db.zipdata, ZipData(name, [saved.hash]), name);
    ExtensionOfFileName(f.path);
    SaveBlobKeepsContentAddressed(md5, db.storage, f.path, f.content);
  }

  /** Under collision-freedom with what is already stored, the served bytes are the file's bytes. */
  lemma FileRoundTripBytes(md5: Hasher, db: Db, f: InputFile)
    requires ContentAddressed(md5, db.storage)
    requires !IsArchiveName(f.path) && !Exists(db.zipdata, GetFileName(f.path))
    requires CollisionFree(md5, Contents(db.storage) + {f.content})
    ensures var r := Resolve(IngestOne(md5, db, f).db, GetFileName(f.path));
      r.FileStream? && r.content == f.content
  {
    var r := Resolve(IngestOne(md5, db, f).db, GetFileName(f.path));
    FileRoundTrip(md5, db, f);
    var h := HashOf(md5, f.content);
    if h in db.storage {
      var saved := SaveBlob(md5, db.storage, f.path, f.content);
      var name := GetFileName(f.path);
      FindOneAppend(db.zipdata, ZipData(name, [saved.hash]), name);
      ExtensionOfFileName(f.path);
      assert r.content == db.storage[h].content;
      assert r.content in Contents(db.storage);
      SameHashSameContent(md5, Contents(db.storage) + {f.content}, r.content, f.content);
    }
  }

  /**
   * After a run that finished over a consistent database, every input is served:
   * an archive for an archive name, a single file for any other name.
   */
  lemma EveryInputServed(md5: Hasher, db: Db, inputs: seq<InputFile>)
    requires Consistent(md5, db) && IngestAll(md5, db, inputs).ok
    ensures var after := IngestAll(md5, db, inputs).db;
      forall i | 0 <= i < |inputs| ::
        var r := Resolve(after, GetFileName(inputs[i].path));
        (IsArchiveName(inputs[i].path) ==> r.ZipStream?) && (!IsArchiveName(inputs[i].path) ==> r.FileStream?)
  {
    var after := IngestAll(md5, db, inputs).db;
    IngestAllPreserves(md5, db, inputs);
    IngestAllRecordsAll(md5, db, inputs);
    forall i | 0 <= i < |inputs|
      ensures var r := Resolve(after, GetFileName(inputs[i].path));
        (IsArchiveName(inputs[i].path) ==> r.ZipStream?) && (!IsArchiveName(inputs[i].path) ==> r.FileStream?)
    {
      ExtensionOfFileName(inputs[i].path);
      KnownNameServed(md5, after, GetFileName(inputs[i].path));
    }
  }

  /** The bytes "hello" used by the example below. */
  const Hello: Bytes := [104, 101, 108, 108, 111]

  /** Both entries of the example archive are saved under one digest. */
  lemma SharedContentBatch(md5: Hasher)
    ensures var h := HashOf(md5, Hello);
      SaveEntries(md5, map[], [Entry("a.txt", Some(Hello)), Entry("b.txt", Some(Hello))])
        == Batch(map[h := StoredFile(h + ".txt", Hello)], [h, h], true)
  {
    var h := HashOf(md5, Hello);
    var entries := [Entry("a.txt", Some(Hello)), Entry("b.txt", Some(Hello))];
    var stored := map[h := StoredFile(h + ".txt", Hello)];
    assert "a.txt" == "a" + ".txt";
    ExtensionOfSuffix("a", ".txt");
    assert entries[1..] == [Entry("b.txt", Some(Hello))] && entries[1..][1..] == [];
    assert SaveBlob(md5, map[], "a.txt", Hello) == Saved(stored, h);
    assert SaveBlob(md5, stored, "b.txt", Hello) == Saved(stored, h);
    assert SaveEntries(md5, stored, entries[1..][1..]) == Batch(stored, [], true);
    assert SaveEntries(md5, stored, entries[1..]) == Batch(stored, [h], true);
  }

  /** The example archive's record is rebuilt as two copies of the one stored file. */
  lemma SharedContentRebuild(md5: Hasher)
    ensures var h := HashOf(md5, Hello);
      Rebuild(map[h := StoredFile(h + ".txt", Hello)], [h, h])
        == Some([ArchiveEntry(h + ".txt", Hello), ArchiveEntry(h + ".txt", Hello)])
  {
    var h := HashOf(md5, Hello);
    var stored := map[h := StoredFile(h + ".txt", Hello)];
    var rebuilt := Rebuild(stored, [h, h]);
    assert rebuilt.Some?;
    assert rebuilt.value == [ArchiveEntry(h + ".txt", Hello), ArchiveEntry(h + ".txt", Hello)];
  }

  /** Ingesting the example archive stores the one file and records its digest twice. */
  lemma SharedContentIngest(md5: Hasher)
    ensures var h := HashOf(md5, Hello);
      var entries := [Entry("a.txt", Some(Hello)), Entry("b.txt", Some(Hello))];
      IngestOne(md5, Db(map[], []), InputFile("repofiles/skins.zip", [], Some(entries)))
        == Step(Db(map[h := StoredFile(h + ".txt", Hello)], [ZipData("skins.zip", [h, h])]), true)
  {
    var path := "repofiles/skins.zip";
    assert IsArchiveType(GetExtension(path)) by {
      assert path == "repofiles/skins" + ".zip";
      ExtensionOfSuffix("repofiles/skins", ".zip");
    }
    assert GetFileName(path) == "skins.zip" by {
      assert path == "repofiles" + "/" + "skins.zip";
      FileNameInDirectory("repofiles", "skins.zip");
    }
    SharedContentBatch(md5);
  }

  /** The example's database answers "skins.zip" with two copies of the stored file. */
  lemma SharedContentServe(md5: Hasher)
    ensures var h := HashOf(md5, Hello);
      Resolve(Db(map[h := StoredFile(h + ".txt", Hello)], [ZipData("skins.zip", [h, h])]), "skins.zip")
        == ZipStream([ArchiveEntry(h + ".txt", Hello), ArchiveEntry(h + ".txt", Hello)], "skins.zip")
  {
    var h := HashOf(md5, Hello);
    var after := Db(map[h := StoredFile(h + ".txt", Hello)], [ZipData("skins.zip", [h, h])]);
    assert "skins.zip" == "skins" + ".zip";
    ExtensionOfSuffix("skins", ".zip");
    SharedContentRebuild(md5);
    assert FindOne(after.zipdata, "skins.zip") == Some(ZipData("skins.zip", [h, h]));
  }

  /**
   * An archive "skins.zip" holding "a.txt" and "b.txt" with the same bytes
   * "hello": it stores one file, records the same digest twice, and is served as
   * two entries that both carry that file's stored name and bytes.
   */
  lemma SharedContentExample(md5: Hasher)
    ensures var h := HashOf(md5, Hello);
      var f := InputFile("repofiles/skins.zip", [], Some([Entry("a.txt", Some(Hello)), Entry("b.txt", Some(Hello))]));
      var step := IngestOne(md5, Db(map[], []), f);
      && step.ok
      && step.db.storage == map[h := StoredFile(h + ".txt", Hello)]
      && step.db.zipdata == [ZipData("skins.zip", [h, h])]
      && Resolve(step.db, "skins.zip") ==
           ZipStream([ArchiveEntry(h + ".txt", Hello), ArchiveEntry(h + ".txt", Hello)], "skins.zip")
  {
    SharedContentIngest(md5);
    SharedContentServe(md5);
  }
}
