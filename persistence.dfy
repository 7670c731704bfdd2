/**
 * The file-persistence engine as the object the store uses: a directory and
 * the driver's "record" collection, which create, update and remove change in
 * place after a run of guard checks with early returns.
 *
 * The driver's read, write and delete calls may fail for reasons outside the
 * engine (I/O, permissions, an undecodable file); such a failure changes
 * nothing and is reported as StorageFault. Because existence is derived from
 * read, a failed read of a stored record makes the key look absent, and the
 * method contracts below list exactly what that can lead to.
 */
module Persistence {
  import opened Engine

  class FilePersistence {
    /** The storage directory the engine is bound to. */
    const dir: string
    /** The driver's "record" collection. */
    var db: Store

    constructor (dir: string, records: Store)
      ensures this.dir == dir && db == records
    {
      this.dir := dir;
      db := records;
    }

    /**
     * newFilePersistence: refuses a path that cannot be found; otherwise
     * binds an engine to it, holding the records already stored there.
     */
    static method New(dir: string, pathExists: bool, records: Store) returns (r: Result<FilePersistence>)
      ensures r.Err? <==> !pathExists
      ensures r.Err? ==> r.error == DirectoryNotFound
      ensures r.Ok? ==> fresh(r.value) && r.value.dir == dir && r.value.db == records
    {
      if !pathExists {
        return Err(DirectoryNotFound);
      }
      var fp := new FilePersistence(dir, records);
      return Ok(fp);
    }

    /** The driver's Read of one record; it may fail even when the record is there. */
    method DriverRead(key: string) returns (r: Result<Record>)
      ensures r.Ok? ==> key in db && r.value == db[key]
      ensures r.Err? ==> r.error == StorageFault || (key !in db && r.error == ReadFailed)
    {
      var fault: bool := *;
      if fault {
        return Err(StorageFault);
      }
      if key !in db {
        return Err(ReadFailed);
      }
      return Ok(db[key]);
    }

    /** The driver's Write of one record; on failure nothing is written. */
    method DriverWrite(key: string, rec: Record) returns (ok: bool)
      modifies this
      ensures ok ==> db == old(db)[key := rec]
      ensures !ok ==> db == old(db)
    {
      ok := *;
      if ok {
        db := db[key := rec];
      }
    }

    /** The driver's Delete of one record; on failure nothing is deleted. */
    method DriverDelete(key: string) returns (ok: bool)
      modifies this
      ensures ok ==> db == old(db) - {key}
      ensures !ok ==> db == old(db)
    {
      ok := *;
      if ok {
        db := db - {key};
      }
    }

    /** read: the stored value, or the error the guard or the driver gives. */
    method Read(key: string) returns (r: Result<string>)
      ensures r == Engine.Read(db, key) || (key != "" && r == Err(StorageFault))
    {
      if key == "" {
        return Err(EmptyKey);
      }
      var rec := DriverRead(key);
      if rec.Err? {
        return Err(rec.error);
      }
      return Ok(rec.value.value);
    }

    /** exists: true only when read succeeds, so never for a missing or empty key. */
    method Exists(key: string) returns (b: bool)
      ensures b ==> Engine.Exists(db, key)
    {
      var r := Read(key);
      if r.Err? {
        return false;
      }
      return true;
    }

    /**
     * create: either what Engine.Create describes, or a failed write, or --
     * when reading the existing record failed -- an overwrite of that record.
     */
    method Create(key: string, value: string) returns (res: Outcome)
      modifies this
      ensures "" !in old(db) ==> "" !in db
      ensures Step(res, db) == Engine.Create(old(db), key, value)
           || (key != "" && res == Failed(StorageFault) && db == old(db))
           || (Engine.Exists(old(db), key) && res == Done && db == old(db)[key := Record(value)])
    {
      var present := Exists(key);
      if present {
        return Failed(AlreadyExists);
      }
      if key == "" {
        return Failed(EmptyKey);
      }
      var ok := DriverWrite(key, Record(value));
      if !ok {
        return Failed(StorageFault);
      }
      return Done;
    }

    /**
     * update: either what Engine.Update describes, or -- for a stored key whose
     * read or write failed -- an error that leaves the collection unchanged.
     */
    method Update(key: string, value: string) returns (res: Outcome)
      modifies this
      ensures "" !in old(db) ==> "" !in db
      ensures Step(res, db) == Engine.Update(old(db), key, value)
           || (Engine.Exists(old(db), key) && res in {Failed(CantUpdateNotFound), Failed(StorageFault)} && db == old(db))
    {
      var present := Exists(key);
      if !present {
        return Failed(CantUpdateNotFound);
      }
      if key == "" {
        return Failed(EmptyKey);
      }
      var ok := DriverWrite(key, Record(value));
      if !ok {
        return Failed(StorageFault);
      }
      return Done;
    }

    /**
     * remove: either what Engine.Remove describes, or -- for a stored key whose
     * read or delete failed -- an error that leaves the collection unchanged.
     */
    method Remove(key: string) returns (res: Outcome)
      modifies this
      ensures "" !in old(db) ==> "" !in db
      ensures Step(res, db) == Engine.Remove(old(db), key)
           || (Engine.Exists(old(db), key) && res in {Failed(CantDeleteNotFound), Failed(StorageFault)} && db == old(db))
    {
      var present := Exists(key);
      if !present {
        return Failed(CantDeleteNotFound);
      }
      if key == "" {
        return Failed(EmptyKey);
      }
      var ok := DriverDelete(key);
      if !ok {
        return Failed(StorageFault);
      }
      return Done;
    }

    /**
     * createIfNonExistentElseUpdate: either what Engine.Upsert describes, or a
     * failed write, or -- when reading an existing record failed in one of its
     * two existence checks -- an existence error that changes nothing.
     */
    method CreateIfNonExistentElseUpdate(key: string, value: string) returns (res: Outcome)
      modifies this
      ensures "" !in old(db) ==> "" !in db
      ensures Step(res, db) == Engine.Upsert(old(db), key, value)
           || (key != "" && res == Failed(StorageFault) && db == old(db))
           || (Engine.Exists(old(db), key) && res in {Failed(CantUpdateNotFound), Failed(AlreadyExists)} && db == old(db))
    {
      var present := Exists(key);
      if present {
        res := Update(key, value);
        return;
      }
      res := Create(key, value);
    }
  }
}
