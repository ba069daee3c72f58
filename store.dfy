/**
 * The database both programs open (`new LiteDatabase("database.db")`), reduced
 * to what the core uses: the file storage, a map from an id (the digest) to the
 * stored file's name and bytes, and the `zipdata` collection of ZipData records
 * in insertion order.
 */
module Store {
  import opened Base
  import Hex
  import Paths

  /** The 16 bytes `md5.ComputeHash` returns. */
  type Md5Hash = s: seq<Byte> | |s| == 16 witness [0, 0, 0, 0, 0, 0, 0, 0, 0, 0, 0, 0, 0, 0, 0, 0]

  /** MD5, left uninterpreted: any deterministic function from contents to 16 bytes. */
  type Hasher = Bytes -> Md5Hash

  /** The id a content is stored under (tool/Program.cs:82-85). */
  function HashOf(md5: Hasher, content: Bytes): string
  {
    Hex.Digest(md5(content))
  }

  /** Every id is 32 lower-case hex digits. */
  lemma HashOfFormat(md5: Hasher, content: Bytes)
    ensures |HashOf(md5, content)| == 32
    ensures forall k | 0 <= k < 32 :: Hex.IsLowerHexDigit(HashOf(md5, content)[k])
  {
    Hex.DigestFormat(md5(content));
  }

  /** A file of the file storage: the name given at upload and its bytes. */
  datatype StoredFile = StoredFile(filename: string, content: Bytes)

  type FileStorage = map<string, StoredFile>

  /** A bundle record (tool/Program.cs:102-106 and web/Program.cs:59-63, the same record). */
  datatype ZipData = ZipData(fileName: string, files: seq<string>)

  datatype Db = Db(storage: FileStorage, zipdata: seq<ZipData>)

  /** `collection.Exists(x => x.FileName == name)`. */
  predicate Exists(zipdata: seq<ZipData>, name: string)
  {
    exists i | 0 <= i < |zipdata| :: zipdata[i].fileName == name
  }

  /** `collection.FindOne(x => x.FileName == name)`: the first record with that name. */
  function FindOne(zipdata: seq<ZipData>, name: string): (r: Option<ZipData>)
    ensures r.Some? <==> Exists(zipdata, name)
    ensures r.Some? ==> r.value.fileName == name && r.value in zipdata
  {
    if zipdata == [] then None
    else if zipdata[0].fileName == name then Some(zipdata[0])
    else
      assert forall i | 1 <= i < |zipdata| :: zipdata[1..][i - 1] == zipdata[i];
      FindOne(zipdata[1..], name)
  }

  /** Appending a record leaves the answer for known names alone and finds a new name's record. */
  lemma {:induction false} FindOneAppend(zipdata: seq<ZipData>, rec: ZipData, name: string)
    ensures FindOne(zipdata + [rec], name) ==
      if Exists(zipdata, name) then FindOne(zipdata, name)
      else if rec.fileName == name then Some(rec) else None
  {
    if zipdata != [] {
      assert (zipdata + [rec])[1..] == zipdata[1..] + [rec];
      FindOneAppend(zipdata[1..], rec, name);
      if zipdata[0].fileName != name {
        assert Exists(zipdata, name) ==> Exists(zipdata[1..], name) by {
          if Exists(zipdata, name) {
            var i :| 0 <= i < |zipdata| && zipdata[i].fileName == name;
            assert zipdata[1..][i - 1].fileName == name;
          }
        }
      }
    } else {
      assert [] + [rec] == [rec];
    }
  }

  /** Every stored file sits under the digest of its own bytes, and its name starts with that digest. */
  predicate ContentAddressed(md5: Hasher, storage: FileStorage)
  {
    forall h | h in storage :: HashOf(md5, storage[h].content) == h && h <= storage[h].filename
  }

  /** No two records share a bundle name. */
  predicate NamesUnique(zipdata: seq<ZipData>)
  {
    forall i, j | 0 <= i < j < |zipdata| :: zipdata[i].fileName != zipdata[j].fileName
  }

  /** Every digest a record lists is present in the file storage. */
  predicate Closed(storage: FileStorage, zipdata: seq<ZipData>)
  {
    forall i, k | 0 <= i < |zipdata| && 0 <= k < |zipdata[i].files| :: zipdata[i].files[k] in storage
  }

  /** A record whose name is not an archive name lists exactly one digest. */
  predicate PlainSingle(zipdata: seq<ZipData>)
  {
    forall i | 0 <= i < |zipdata| :: !Paths.IsArchiveName(zipdata[i].fileName) ==> |zipdata[i].files| == 1
  }

  /** The invariant every run of the ingestion tool keeps. */
  predicate Consistent(md5: Hasher, db: Db)
  {
    && ContentAddressed(md5, db.storage)
    && NamesUnique(db.zipdata)
    && Closed(db.storage, db.zipdata)
    && PlainSingle(db.zipdata)
  }

  /** Write-once storage: every stored file is still there, unchanged. */
  predicate Extends(before: FileStorage, after: FileStorage)
  {
    forall h | h in before :: h in after && after[h] == before[h]
  }

  /** Storage that only grew, and is still content-addressed, keeps the database consistent. */
  lemma GrowKeepsConsistent(md5: Hasher, db: Db, storage: FileStorage)
    requires Consistent(md5, db)
    requires ContentAddressed(md5, storage) && Extends(db.storage, storage)
    ensures Consistent(md5, Db(storage, db.zipdata))
  {
  }

  /**
   * Appending a record under a new name, whose digests are all stored and which
   * lists one digest unless it is an archive, keeps the database consistent.
   */
  lemma AppendKeepsConsistent(md5: Hasher, db: Db, storage: FileStorage, rec: ZipData)
    requires Consistent(md5, db)
    requires ContentAddressed(md5, storage) && Extends(db.storage, storage)
    requires !Exists(db.zipdata, rec.fileName)
    requires forall k | 0 <= k < |rec.files| :: rec.files[k] in storage
    requires !Paths.IsArchiveName(rec.fileName) ==> |rec.files| == 1
    ensures Consistent(md5, Db(storage, db.zipdata + [rec]))
    ensures db.zipdata <= db.zipdata + [rec]
  {
    var zipdata := db.zipdata + [rec];
    assert forall i | 0 <= i < |db.zipdata| :: zipdata[i] == db.zipdata[i];
    assert zipdata[|db.zipdata|] == rec;
    assert NamesUnique(zipdata);
    assert Closed(storage, zipdata);
    assert PlainSingle(zipdata);
  }

  /** The contents held by the file storage. */
  function Contents(storage: FileStorage): set<Bytes>
  {
    set h | h in storage :: storage[h].content
  }

  /** MD5 has no collision among the given contents (a premise, never assumed globally). */
  predicate CollisionFree(md5: Hasher, contents: set<Bytes>)
  {
    forall x, y | x in contents && y in contents :: md5(x) == md5(y) ==> x == y
  }

  /** Under collision-freedom equal ids mean equal bytes. */
  lemma SameHashSameContent(md5: Hasher, contents: set<Bytes>, x: Bytes, y: Bytes)
    requires CollisionFree(md5, contents) && x in contents && y in contents
    requires HashOf(md5, x) == HashOf(md5, y)
    ensures x == y
  {
    Hex.DigestInjective(md5(x), md5(y));
  }
}
