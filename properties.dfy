/**
 * What the engine promises its callers, proved of the functions in Engine:
 * each operation on its own, the dead empty-key branches of update and remove,
 * the upsert's relation to create and update, and sequences of calls.
 */
module Properties {
  import opened Engine

  // ----- create -----

  /** Creating an absent, non-empty key succeeds; it then reads back, and no other key changes. */
  lemma CreateAbsentKeyReadsBack(db: Store, k: string, v: string)
    requires k != "" && k !in db
    ensures Create(db, k, v).outcome == Done
    ensures Read(Create(db, k, v).store, k) == Ok(v)
    ensures forall k' :: k' != k ==> Read(Create(db, k, v).store, k') == Read(db, k')
  {
  }

  /** Two records created one after the other are read back independently. */
  lemma TwoCreatesReadBack(db: Store, k1: string, v1: string, k2: string, v2: string)
    requires k1 != "" && k2 != "" && k1 != k2 && k1 !in db && k2 !in db
    ensures Create(db, k1, v1).outcome == Done
    ensures Create(Create(db, k1, v1).store, k2, v2).outcome == Done
    ensures Read(Create(Create(db, k1, v1).store, k2, v2).store, k1) == Ok(v1)
    ensures Read(Create(Create(db, k1, v1).store, k2, v2).store, k2) == Ok(v2)
  {
    CreateAbsentKeyReadsBack(db, k1, v1);
    CreateAbsentKeyReadsBack(Create(db, k1, v1).store, k2, v2);
  }

  /** Creating a key that exists fails and changes nothing, whatever the new value. */
  lemma CreateExistingKeyFails(db: Store, k: string, v: string)
    requires Exists(db, k)
    ensures Create(db, k, v) == Step(Failed(AlreadyExists), db)
  {
  }

  /** A second create of the same key fails, and the first value stays. */
  lemma CreateTwiceKeepsFirst(db: Store, k: string, v: string, v2: string)
    requires k != "" && k !in db
    ensures Create(Create(db, k, v).store, k, v2) == Step(Failed(AlreadyExists), Create(db, k, v).store)
    ensures Read(Create(Create(db, k, v).store, k, v2).store, k) == Ok(v)
  {
  }

  /**
   * The empty key passes create's existence guard, because exists("") is
   * always false, and so reaches the empty-key error; nothing changes.
   */
  lemma CreateEmptyKeyFails(db: Store, v: string)
    ensures !Exists(db, "")
    ensures Create(db, "", v) == Step(Failed(EmptyKey), db)
  {
  }

  // ----- read and exists -----

  /** A key that was never created can be neither read, nor updated, nor removed. */
  lemma AbsentKeyFails(db: Store, k: string, v: string)
    requires k != "" && k !in db
    ensures Read(db, k) == Err(ReadFailed)
    ensures Update(db, k, v) == Step(Failed(CantUpdateNotFound), db)
    ensures Remove(db, k) == Step(Failed(CantDeleteNotFound), db)
  {
  }

  // ----- update -----

  /** Updating a stored key overwrites that key's value and nothing else. */
  lemma UpdatePresentKey(db: Store, k: string, v: string)
    requires Exists(db, k)
    ensures Update(db, k, v) == Step(Done, db[k := Record(v)])
    ensures Read(Update(db, k, v).store, k) == Ok(v)
    ensures forall k' :: k' != k ==> Read(Update(db, k, v).store, k') == Read(db, k')
  {
  }

  /**
   * update and remove test existence before the key, so the empty key is
   * reported as missing and their empty-key branches are never taken.
   */
  lemma EmptyKeyBranchesDead(db: Store, k: string, v: string)
    ensures Update(db, k, v).outcome != Failed(EmptyKey)
    ensures Remove(db, k).outcome != Failed(EmptyKey)
    ensures Update(db, "", v) == Step(Failed(CantUpdateNotFound), db)
    ensures Remove(db, "") == Step(Failed(CantDeleteNotFound), db)
  {
  }

  // ----- remove -----

  /** A removed key no longer exists or reads, and can be created again. */
  lemma RemoveThenCreate(db: Store, k: string, v: string)
    requires Exists(db, k)
    ensures Remove(db, k) == Step(Done, db - {k})
    ensures !Exists(Remove(db, k).store, k)
    ensures Read(Remove(db, k).store, k) == Err(ReadFailed)
    ensures Create(Remove(db, k).store, k, v) == Step(Done, (db - {k})[k := Record(v)])
    ensures forall k' :: k' != k ==> Read(Remove(db, k).store, k') == Read(db, k')
  {
  }

  // ----- upsert -----

  /** The upsert is update on an existing key and create otherwise. */
  lemma UpsertIsUpdateOrCreate(db: Store, k: string, v: string)
    ensures Exists(db, k) ==> Upsert(db, k, v) == Update(db, k, v)
    ensures !Exists(db, k) ==> Upsert(db, k, v) == Create(db, k, v)
  {
  }

  /** The upsert never fails with an existence error; it fails only on the empty key. */
  lemma UpsertNoExistenceError(db: Store, k: string, v: string)
    ensures Upsert(db, k, v).outcome != Failed(AlreadyExists)
    ensures Upsert(db, k, v).outcome != Failed(CantUpdateNotFound)
    ensures Upsert(db, k, v).outcome.Failed? <==> k == ""
  {
  }

  /** After an upsert of a non-empty key, read gives the new value, and a repeat changes nothing. */
  lemma UpsertThenRead(db: Store, k: string, v: string)
    requires k != ""
    ensures Read(Upsert(db, k, v).store, k) == Ok(v)
    ensures Upsert(Upsert(db, k, v).store, k, v) == Step(Done, Upsert(db, k, v).store)
  {
  }

  // ----- sequences of calls -----

  /** Running a sequence and then one more call is that call on the sequence's result. */
  lemma {:induction false} RunAppend(db: Store, ops: seq<Op>, op: Op)
    ensures Run(db, ops + [op]) == Apply(Run(db, ops), op)
    decreases |ops|
  {
    if ops == [] {
      assert ops + [op] == [op];
    } else {
      assert (ops + [op])[1..] == ops[1..] + [op];
      RunAppend(Apply(db, ops[0]), ops[1..], op);
    }
  }

  /** Calls on other keys never change what a key reads as. */
  lemma {:induction false} RunLeavesOtherKeys(db: Store, ops: seq<Op>, k: string)
    requires forall i :: 0 <= i < |ops| ==> ops[i].key != k
    ensures Read(Run(db, ops), k) == Read(db, k)
    decreases |ops|
  {
    if ops != [] {
      RunLeavesOtherKeys(Apply(db, ops[0]), ops[1..], k);
    }
  }

  /** Whatever came before, an upsert of a non-empty key makes it read as the new value. */
  lemma RunEndingInUpsert(db: Store, ops: seq<Op>, k: string, v: string)
    requires k != ""
    ensures Read(Run(db, ops + [UpsertOp(k, v)]), k) == Ok(v)
  {
    RunAppend(db, ops, UpsertOp(k, v));
  }

  // ----- end-to-end scenarios -----

  /** create, read, update, read, delete, read on a fresh store. */
  lemma CrudScenario()
    ensures Create(map[], "a", "1") == Step(Done, map["a" := Record("1")])
    ensures Read(map["a" := Record("1")], "a") == Ok("1")
    ensures Update(map["a" := Record("1")], "a", "2") == Step(Done, map["a" := Record("2")])
    ensures Read(map["a" := Record("2")], "a") == Ok("2")
    ensures Remove(map["a" := Record("2")], "a") == Step(Done, map[])
    ensures Read(map[], "a") == Err(ReadFailed)
  {
    assert map["a" := Record("2")] - {"a"} == map[];
  }

  /** An upsert on a fresh store creates the record; a second one updates it. */
  lemma UpsertScenario()
    ensures Upsert(map[], "b", "x") == Step(Done, map["b" := Record("x")])
    ensures Upsert(map["b" := Record("x")], "b", "y") == Step(Done, map["b" := Record("y")])
  {
  }
}
