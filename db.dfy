/**
 * `Db`: the file-system layout of `Fs` together with the SQLite catalog kept in
 * the storage folder. Every call into the catalog runs as one transaction that
 * commits when the call returns and rolls back when it raises.
 */
module Database {
  import opened Wrappers
  import opened Base64Url
  import opened Paths
  import opened Scans
  import opened Catalog
  import Layout

  /** Why a call into the catalog raises; each one rolls its transaction back. */
  datatype DbError =
    | TableExists(table: string)
    | NoSuchTable(table: string)
    | UniqueViolated(row: IngressRow)
    | KeyViolated(hash: string)
    | NoHash
    | MoveFailed
    | Unreadable
    | NoSuchMethod(name: string)

  /** A row as `SELECT *` returns it. */
  datatype Row =
    | IngressEntry(ingress: IngressRow)
    | StorageEntry(hash: string, storage: StorageRow)

  /** The bytes `hash_scan` reads at `p`; None when no regular file is there. */
  function ContentAt(files: map<Path, Bytes>, p: Path): Option<Bytes> {
    if p in files then Some(files[p]) else None
  }

  /** The ingress row `add_scan_to_ingress_db` writes: the scan name goes in the `filename` column. */
  function IngressRowOf(s: Scan): IngressRow
    reads s`hash, s`path, s`scanname
  {
    IngressRow(s.hash, s.path, s.scanname)
  }

  /** The storage row `add_scan_to_storage_db` writes for a moved scan. */
  function StorageRowOf(s: Scan): StorageRow
    reads s`path, s`filename, s`scanname
  {
    StorageRow(s.path, s.filename, Some(s.scanname))
  }

  /** A scan `_add_scan_to_ingress` has hashed: a valid scan carries the hash of the file at its path. */
  predicate Hashed(s: Scan, sha: Bytes -> Digest, files: map<Path, Bytes>)
    reads s
  {
    s.IsValid() ==> s.path in files && s.hash == Some(HashOf(sha, files[s.path]))
  }

  /** A scan recorded in storage: it sits in its hash folder and its row is in the table. */
  predicate Recorded(s: Scan, storageDir: Path, storage: map<string, StorageRow>)
    reads s
  {
    && s.hash.Some?
    && s.path == Join(Join(storageDir, s.hash.value), s.filename)
    && s.hash.value in storage
    && storage[s.hash.value] == StorageRowOf(s)
  }

  /** The table `s` keeps every row of `s0` unchanged. */
  predicate Extends(s0: map<string, StorageRow>, s: map<string, StorageRow>) {
    forall h :: h in s0 ==> h in s && s[h] == s0[h]
  }

  /** The first `i` scans are recorded in `s`, each under a hash `s0` did not hold. */
  predicate RecordedFirst(scans: seq<Scan>, i: nat, storageDir: Path, s0: map<string, StorageRow>, s: map<string, StorageRow>)
    requires i <= |scans|
    reads scans
  {
    forall k :: 0 <= k < i ==> Recorded(scans[k], storageDir, s) && scans[k].hash.value !in s0
  }

  /** Every hash of `s` is one of `s0` or one of the first `i` of `hashes`. */
  predicate AddedOnly(hashes: seq<Option<string>>, i: nat, s0: map<string, StorageRow>, s: map<string, StorageRow>)
    requires i <= |hashes|
  {
    forall g :: g in s ==> g in s0 || Some(g) in hashes[..i]
  }

  /** The hashes of the scans, which the storage run never changes. */
  function HashesOf(scans: seq<Scan>): (r: seq<Option<string>>)
    reads scans
    ensures |r| == |scans| && forall k :: 0 <= k < |scans| ==> r[k] == scans[k].hash
  {
    seq(|scans|, k requires 0 <= k < |scans| reads scans => scans[k].hash)
  }

  class Db {
    const fs: Layout.Fs
    const filename: string
    const sqlitePath: Path
    /** The SQLite file at `sqlitePath`. */
    const file: Catalog

    /** The fields of `__init__`; the catalog file lives in the storage folder. */
    constructor (fs: Layout.Fs, filename: string, file: Catalog)
      ensures this.fs == fs && this.filename == filename && this.file == file
      ensures sqlitePath == Join(fs.storageDir, filename)
    {
      this.fs := fs;
      this.filename := filename;
      this.sqlitePath := Join(fs.storageDir, filename);
      this.file := file;
    }

    /**
     * `Db(...)`: build the object, then `_initialize_db`; a file that already holds the
     * tables makes `CREATE TABLE ingress` raise, so the constructor raises.
     */
    static method Open(fs: Layout.Fs, filename: string, file: Catalog) returns (r: Result<Db, DbError>)
      modifies file
      ensures r.Err? <==> old(file.created)
      ensures r.Err? ==> r.error == TableExists("ingress") && unchanged(file)
      ensures r.Ok? ==>
        && fresh(r.value) && r.value.fs == fs && r.value.file == file
        && r.value.sqlitePath == Join(fs.storageDir, filename)
        && file.created && file.ingress == {} && file.storage == map[]
    {
      var db := new Db(fs, filename, file);
      var init := db.InitializeDb();
      if init.Fail? {
        return Err(init.error);
      }
      return Ok(db);
    }

    /** `_initialize_db`: create the two empty tables; the first CREATE raises when they exist. */
    method InitializeDb() returns (r: Outcome<DbError>)
      modifies file
      ensures r.Fail? <==> old(file.created)
      ensures r.Fail? ==> r.error == TableExists("ingress") && unchanged(file)
      ensures r.Pass? ==> file.created && file.ingress == {} && file.storage == map[]
    {
      if file.created {
        return Fail(TableExists("ingress"));
      }
      file.created, file.ingress, file.storage := true, {}, map[];
      return Pass;
    }

    /**
     * `add_scan_to_ingress_db` as written: it calls `self.add_scan_to_ingress`, which
     * neither `Db` nor `Fs` defines, so every call raises before the INSERT and the
     * transaction rolls back; the scan is not hashed and the catalog does not change.
     */
    method AddScanToIngressDbAsWritten(scan: Scan) returns (r: Outcome<DbError>)
      ensures r == Fail(NoSuchMethod("add_scan_to_ingress"))
    {
      return Fail(NoSuchMethod("add_scan_to_ingress"));
    }

    /**
     * `add_scan_to_ingress_db` calling the hashing step `_add_scan_to_ingress` that `Fs`
     * does define, then inserting (hash, path, scan name). A file that cannot be read, or
     * a row with a hash that is already in the table, raises and rolls the INSERT back;
     * the hash the scan took stays. SQLite never finds two rows with a NULL hash equal.
     * On a file without tables the INSERT raises (`no such table`) after the hashing.
     */
    method AddScanToIngressDb(scan: Scan, sha: Bytes -> Digest, files: map<Path, Bytes>) returns (r: Outcome<DbError>)
      modifies file`ingress, scan`hash
      ensures Hashed(scan, sha, files) <==> !(scan.IsValid() && scan.path !in files)
      ensures !scan.IsValid() ==> scan.hash == old(scan.hash)
      ensures r.Fail? <==>
        || (scan.IsValid() && scan.path !in files)
        || !file.created
        || (scan.hash.Some? && IngressRowOf(scan) in old(file.ingress))
      ensures r.Fail? ==> file.ingress == old(file.ingress)
      ensures r.Fail? && scan.IsValid() && scan.path !in files ==> r.error == Unreadable && scan.hash == old(scan.hash)
      ensures !(scan.IsValid() && scan.path !in files) && !file.created ==> r == Fail(NoSuchTable("ingress"))
      ensures r.Pass? ==> Hashed(scan, sha, files) && file.ingress == old(file.ingress) + {IngressRowOf(scan)}
    {
      var h := fs.AddScanToIngress(scan, sha, ContentAt(files, scan.path));
      if h.Fail? {
        return Fail(Unreadable);
      }
      if !file.created {
        return Fail(NoSuchTable("ingress"));
      }
      var row := IngressRow(scan.hash, scan.path, scan.scanname);
      if row.hash.Some? && row in file.ingress {
        return Fail(UniqueViolated(row));
      }
      file.ingress := file.ingress + {row};
      return Pass;
    }

    /**
     * `add_scans_to_ingress_db`: one transaction per scan, in order; the first that
     * raises ends the run, and the scans before it stay committed.
     */
    method AddScansToIngressDb(scans: seq<Scan>, sha: Bytes -> Digest, files: map<Path, Bytes>)
      returns (r: Outcome<DbError>)
      modifies file`ingress, scans`hash
      ensures old(file.ingress) <= file.ingress
      ensures r.Pass? ==> forall k :: 0 <= k < |scans| ==>
        Hashed(scans[k], sha, files) && IngressRowOf(scans[k]) in file.ingress
      ensures r.Pass? ==> forall row :: row in file.ingress ==>
        row in old(file.ingress) || exists k :: 0 <= k < |scans| && row == IngressRowOf(scans[k])
    {
      var i := 0;
      while i < |scans|
        invariant 0 <= i <= |scans|
        invariant old(file.ingress) <= file.ingress
        invariant forall k :: 0 <= k < i ==> Hashed(scans[k], sha, files) && IngressRowOf(scans[k]) in file.ingress
        invariant forall row :: row in file.ingress ==>
          row in old(file.ingress) || exists k :: 0 <= k < i && row == IngressRowOf(scans[k])
      {
        r := IngressNext(scans, scans[i], i, sha, files);
        if r.Fail? {
          return;
        }
        i := i + 1;
      }
      return Pass;
    }

    /** One call of the ingress run: the scans already recorded keep their rows. */
    method IngressNext(scans: seq<Scan>, scan: Scan, i: nat, sha: Bytes -> Digest, files: map<Path, Bytes>)
      returns (r: Outcome<DbError>)
      requires i < |scans| && scans[i] == scan
      requires forall k :: 0 <= k < i ==> Hashed(scans[k], sha, files) && IngressRowOf(scans[k]) in file.ingress
      modifies file`ingress, scan`hash
      ensures old(file.ingress) <= file.ingress
      ensures r.Fail? ==> file.ingress == old(file.ingress)
      ensures r.Pass? ==> forall k :: 0 <= k <= i ==> Hashed(scans[k], sha, files) && IngressRowOf(scans[k]) in file.ingress
      ensures r.Pass? ==> forall k :: 0 <= k < i ==> IngressRowOf(scans[k]) == old(IngressRowOf(scans[k]))
      ensures r.Pass? ==> file.ingress == old(file.ingress) + {IngressRowOf(scans[i])}
    {
      var s := scan;
      label pre:
      r := AddScanToIngressDb(s, sha, files);
      if r.Pass? {
        forall k | 0 <= k < i
          ensures scans[k].hash == old@pre(scans[k].hash)
        {
          if scans[k] == s && s.IsValid() {
            assert old@pre(s.hash) == Some(HashOf(sha, files[s.path]));
          }
        }
      }
    }

    /**
     * `add_scan_to_storage_db`: move the file first (`add_scan_to_storage`), then insert
     * (hash, new path, file name, scan name). A NULL hash and a failed move raise before
     * the INSERT, with nothing changed. A file without tables, or a hash already in the
     * table, makes the INSERT raise and roll back, but the move has happened.
     */
    method AddScanToStorageDb(scan: Scan) returns (r: Outcome<DbError>)
      modifies file`storage, scan`path, fs`files
      ensures scan.hash.None? ==>
        && r == Fail(NoHash) && scan.path == old(scan.path)
        && fs.files == old(fs.files) && file.storage == old(file.storage)
      ensures scan.hash.Some? && !CanMove(old(fs.files), old(scan.path), fs.HashFolder(scan)) ==>
        r == Fail(MoveFailed) && scan.path == old(scan.path) && fs.files == old(fs.files)
      ensures scan.hash.Some? && CanMove(old(fs.files), old(scan.path), fs.HashFolder(scan)) ==>
        && scan.path == fs.StorageTarget(scan)
        && fs.files == Moved(old(fs.files), old(scan.path), fs.HashFolder(scan))
        && (r.Fail? <==> !file.created || scan.hash.value in old(file.storage))
        && (r.Fail? ==> r.error == if !file.created then NoSuchTable("storage") else KeyViolated(scan.hash.value))
      ensures r.Fail? ==> file.storage == old(file.storage)
      ensures r.Pass? ==> file.storage == old(file.storage)[scan.hash.value := StorageRowOf(scan)]
    {
      var moved := fs.AddScanToStorage(scan);
      if moved.Fail? {
        return if moved.error.NoHash? then Fail(NoHash) else Fail(MoveFailed);
      }
      if !file.created {
        return Fail(NoSuchTable("storage"));
      }
      var h := scan.hash.value;
      if h in file.storage {
        return Fail(KeyViolated(h));
      }
      file.storage := file.storage[h := StorageRow(scan.path, scan.filename, Some(scan.scanname))];
      return Pass;
    }

    /**
     * `add_scans_to_storage_db`: one transaction per scan, in order, until one raises.
     * Rows already in the table are never changed; when the run passes, every scan is in
     * its hash folder with its own new row, and no other hash was added.
     */
    method AddScansToStorageDb(scans: seq<Scan>) returns (r: Outcome<DbError>)
      modifies file`storage, scans`path, fs`files
      ensures Extends(old(file.storage), file.storage)
      ensures r.Pass? ==> RecordedFirst(scans, |scans|, fs.storageDir, old(file.storage), file.storage)
      ensures r.Pass? ==> AddedOnly(HashesOf(scans), |scans|, old(file.storage), file.storage)
    {
      ghost var s0 := file.storage;
      ghost var h0 := HashesOf(scans);
      var i := 0;
      while i < |scans|
        invariant 0 <= i <= |scans| && HashesOf(scans) == h0
        invariant Extends(s0, file.storage) && AddedOnly(h0, i, s0, file.storage)
        invariant RecordedFirst(scans, i, fs.storageDir, s0, file.storage)
      {
        r := StorageNext(scans, scans[i], i, s0, h0);
        if r.Fail? {
          return;
        }
        i := i + 1;
      }
      assert h0[..i] == h0;
      return Pass;
    }

    /** One call of the storage run: a scan that passes is new, so no recorded scan moves. */
    method StorageNext(scans: seq<Scan>, scan: Scan, i: nat, ghost s0: map<string, StorageRow>, ghost h0: seq<Option<string>>)
      returns (r: Outcome<DbError>)
      requires i < |scans| == |h0| && scans[i] == scan && h0[i] == scan.hash
      requires Extends(s0, file.storage) && AddedOnly(h0, i, s0, file.storage)
      requires RecordedFirst(scans, i, fs.storageDir, s0, file.storage)
      modifies file`storage, scan`path, fs`files
      ensures Extends(s0, file.storage)
      ensures r.Pass? ==> AddedOnly(h0, i + 1, s0, file.storage)
      ensures r.Pass? ==> RecordedFirst(scans, i + 1, fs.storageDir, s0, file.storage)
    {
      r := AddScanToStorageDb(scan);
      if r.Pass? {
        assert h0[..i + 1] == h0[..i] + [scan.hash];
        forall k | 0 <= k < i
          ensures Recorded(scans[k], fs.storageDir, file.storage) && scans[k].hash.value !in s0
        {
          assert old(Recorded(scans[k], fs.storageDir, file.storage));
          assert scans[k].hash.value in old(file.storage) && scans[k] != scan;
        }
      }
    }

    /**
     * `_read_all`: `SELECT *` from the named table, which reads and never writes; any
     * name other than the two tables, or a file without tables, raises.
     */
    method ReadAll(table: string) returns (r: Result<set<Row>, DbError>)
      ensures r.Err? <==> !file.created || (table != "ingress" && table != "storage")
      ensures r.Err? ==> r.error == NoSuchTable(table)
      ensures r.Ok? && table == "ingress" ==> forall row :: row in r.value <==>
        row.IngressEntry? && row.ingress in file.ingress
      ensures r.Ok? && table == "storage" ==> forall row :: row in r.value <==>
        row.StorageEntry? && row.hash in file.storage && file.storage[row.hash] == row.storage
    {
      if !file.created || (table != "ingress" && table != "storage") {
        return Err(NoSuchTable(table));
      }
      if table == "ingress" {
        return Ok(set e | e in file.ingress :: IngressEntry(e));
      }
      return Ok(set h | h in file.storage :: StorageEntry(h, file.storage[h]));
    }
  }
}
