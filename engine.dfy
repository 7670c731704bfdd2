/**
 * The file-persistence engine of a minimal key-value store, as pure functions
 * over the one collection ("record") that its storage driver holds.
 *
 * Each function follows the engine's guard checks in the order the engine
 * makes them, and describes the outcome when the driver's own read, write and
 * delete calls succeed. Driver faults are modelled in module Persistence.
 */
module Engine {

  /** The value wrapper the engine hands to the driver: one string per record. */
  datatype Record = Record(value: string)

  /** The contents of the "record" collection: key to stored record. */
  type Store = map<string, Record>

  /** The distinguishable errors the engine returns. */
  datatype Error =
    | EmptyKey             // "Empty string given as key"
    | AlreadyExists        // "Already exists"
    | CantUpdateNotFound   // "Can't update, key doesn't exist"
    | CantDeleteNotFound   // "Can't delete, key doesn't exist"
    | ReadFailed           // the driver found no record for the key
    | StorageFault         // the driver's read, write or delete failed
    | DirectoryNotFound    // "Given dir for scribble db doesn't exist"

  datatype Result<T> = Ok(value: T) | Err(error: Error)

  /** What a Go `error` return carries: nil, or one error. */
  datatype Outcome = Done | Failed(error: Error)

  /** The outcome of a state-changing operation and the collection after it. */
  datatype Step = Step(outcome: Outcome, store: Store)

  /** read: reject the empty key, then ask the driver for the record. */
  function Read(db: Store, key: string): (r: Result<string>)
    ensures r.Ok? <==> key != "" && key in db
    ensures r.Ok? ==> r.value == db[key].value
    ensures key == "" ==> r == Err(EmptyKey)
  {
    if key == "" then Err(EmptyKey)
    else if key !in db then Err(ReadFailed)
    else Ok(db[key].value)
  }

  /** exists: true exactly when read succeeds; there is no separate index. */
  function Exists(db: Store, key: string): (b: bool)
    ensures b <==> key != "" && key in db
  {
    Read(db, key).Ok?
  }

  /** create: the existence check comes BEFORE the empty-key check. */
  function Create(db: Store, key: string, value: string): (s: Step)
    ensures s.outcome == Done <==> key != "" && key !in db
    ensures s.outcome == Done ==> s.store == db[key := Record(value)]
    ensures s.outcome.Failed? ==> s.store == db
    ensures s.outcome == Failed(AlreadyExists) <==> key != "" && key in db
    ensures s.outcome == Failed(EmptyKey) <==> key == ""
  {
    if Exists(db, key) then Step(Failed(AlreadyExists), db)
    else if key == "" then Step(Failed(EmptyKey), db)
    else Step(Done, db[key := Record(value)])
  }

  /**
   * update: the existence check comes first, so the empty key is reported as
   * missing and the empty-key branch after it can never be taken.
   */
  function Update(db: Store, key: string, value: string): (s: Step)
    ensures s.outcome == Done <==> key != "" && key in db
    ensures s.outcome == Done ==> s.store == db[key := Record(value)]
    ensures s.outcome.Failed? ==> s.store == db && s.outcome.error == CantUpdateNotFound
  {
    if !Exists(db, key) then Step(Failed(CantUpdateNotFound), db)
    else if key == "" then Step(Failed(EmptyKey), db)
    else Step(Done, db[key := Record(value)])
  }

  /** remove: same guard order as update; the empty-key branch is dead too. */
  function Remove(db: Store, key: string): (s: Step)
    ensures s.outcome == Done <==> key != "" && key in db
    ensures s.outcome == Done ==> s.store == db - {key}
    ensures s.outcome.Failed? ==> s.store == db && s.outcome.error == CantDeleteNotFound
  {
    if !Exists(db, key) then Step(Failed(CantDeleteNotFound), db)
    else if key == "" then Step(Failed(EmptyKey), db)
    else Step(Done, db - {key})
  }

  /** createIfNonExistentElseUpdate: update when the key exists, create otherwise. */
  function Upsert(db: Store, key: string, value: string): (s: Step)
    ensures s.outcome == Done <==> key != ""
    ensures s.outcome == Done ==> s.store == db[key := Record(value)]
    ensures s.outcome.Failed? ==> s == Step(Failed(EmptyKey), db)
  {
    if Exists(db, key) then Update(db, key, value) else Create(db, key, value)
  }

  /** The empty string never names a record. */
  ghost predicate NoEmptyKey(db: Store) {
    "" !in db
  }

  /** One call on the engine, as a caller issues it. */
  datatype Op =
    | CreateOp(key: string, value: string)
    | ReadOp(key: string)
    | UpdateOp(key: string, value: string)
    | RemoveOp(key: string)
    | UpsertOp(key: string, value: string)

  /** The collection after one call; a read leaves it as it was. */
  function Apply(db: Store, op: Op): (r: Store)
    ensures NoEmptyKey(db) ==> NoEmptyKey(r)
    ensures forall k :: k != op.key ==> Read(r, k) == Read(db, k)
  {
    match op
    case CreateOp(k, v) => Create(db, k, v).store
    case ReadOp(_) => db
    case UpdateOp(k, v) => Update(db, k, v).store
    case RemoveOp(k) => Remove(db, k).store
    case UpsertOp(k, v) => Upsert(db, k, v).store
  }

  /** The collection after a sequence of calls, issued one after another. */
  function Run(db: Store, ops: seq<Op>): (r: Store)
    ensures NoEmptyKey(db) ==> NoEmptyKey(r)
    decreases |ops|
  {
    if ops == [] then db else Run(Apply(db, ops[0]), ops[1..])
  }
}
