# fsKeyValueStore: the file-persistence engine, in Dafny

This project models `filePersistence`, the engine of a small durable key-value
store. The engine keeps string values under string keys in a single collection
named `record`, with one file per record managed by the scribble driver. It
offers `create`, `read`, `update`, `remove` and the upsert
`createIfNonExistentElseUpdate`. Its internal `exists` is simply "read
succeeds". Every operation runs a few guard checks with early returns. It then
makes at most one write or delete through the driver, after one or two driver
reads for the existence check.

The model is in three files:

- `engine.dfy` (module `Engine`) holds the data: `Record` (the `{Value}`
  wrapper), `Store` (the collection, a `map<string, Record>`), the error
  kinds, and one pure function per operation. Each function follows the
  engine's guard checks in the engine's order and gives the outcome when the
  driver's calls succeed. `Apply` and `Run` give the effect of one call and of
  a sequence of calls.
- `persistence.dfy` (module `Persistence`) holds the class `FilePersistence`
  with the fields `dir` and `db`. Its methods are the engine's methods, with
  the same checks in the same order. `create`, `update` and `remove` change
  `db` in place. The driver's `Read`, `Write` and `Delete` are the methods
  `DriverRead`, `DriverWrite` and `DriverDelete`. Each of them may fail
  nondeterministically, changing nothing. Each engine method is proved to
  give either what its `Engine` function describes or one of a listed set of
  degraded outcomes.
- `properties.dfy` (module `Properties`) holds lemmas about the `Engine`
  functions: single operations, pairs of operations, whole sequences of
  calls, and the two end-to-end scenarios of create/read/update/delete and of
  upsert.

Points where the code decides and the model follows it:

- `create`, `update` and `remove` test `exists(key)` before they test
  `key == ""`, and `exists("")` is always false because `read("")` refuses the
  empty key. As a result:
  - `create("")` still reaches the empty-key error.
  - `update("")` returns "Can't update, key doesn't exist".
  - `remove("")` returns "Can't delete, key doesn't exist".
  - The empty-key branches in `update` and `remove`
    (persistence.go:143-145, 156-158) can never be taken.
  So `update` and `remove` never report the empty-key error, although each
  has a branch for it. `Properties.EmptyKeyBranchesDead` proves those branches
  dead.
- Existence is derived from the read path. So when the driver fails to read a
  record that is stored, the key looks absent. The method contracts in
  `Persistence` then show three consequences:
  - `create` can overwrite that record.
  - `update` and `remove` can report that the key does not exist.
  - The upsert can fail with an existence error (`AlreadyExists` or
    `CantUpdateNotFound`).
  With a reliable driver, the upsert fails only on the empty key
  (`Properties.UpsertNoExistenceError`).
- `read` of a missing key returns the driver's own error, here `ReadFailed`.
  A read that fails for any other reason (I/O, an undecodable file) returns
  `StorageFault`.

## Model

| member | source | states |
|---|---|---|
| `Engine.Read` | persistence.go:128-137 | fails with EmptyKey on `""`; succeeds exactly when the key is non-empty and stored, and then returns the stored value |
| `Engine.Exists` | persistence.go:165-171 | defined as "read succeeds", and shown to hold exactly when the key is non-empty and stored |
| `Engine.Create` | persistence.go:115-126 | succeeds exactly on a non-empty absent key and then stores the record; AlreadyExists exactly on a stored key; EmptyKey exactly on `""`; a failure changes nothing |
| `Engine.Update` | persistence.go:139-150 | succeeds exactly on a non-empty stored key and overwrites only it; every failure, including on `""`, is CantUpdateNotFound and changes nothing |
| `Engine.Remove` | persistence.go:152-163 | succeeds exactly on a non-empty stored key and deletes only it; every failure, including on `""`, is CantDeleteNotFound and changes nothing |
| `Engine.Upsert` | persistence.go:102-113 | succeeds on every non-empty key and stores the new value there; on `""` it fails with EmptyKey and changes nothing |
| `Engine.Apply` | persistence.go:102-163 | any single call keeps `""` out of the collection and never changes what another key reads as |
| `Engine.Run` | persistence.go:115-121 | any sequence of calls keeps `""` out of a collection that did not hold it |
| `Persistence.FilePersistence.constructor` | persistence.go:87-90 | binds the engine to the directory and the records already in its collection |
| `Persistence.FilePersistence.New` | persistence.go:77-91 | fails with DirectoryNotFound exactly when the path check on `dir` fails; otherwise returns a fresh engine bound to it |
| `Persistence.FilePersistence.DriverRead` | persistence.go:132-135 | returns the stored record, or ReadFailed for a missing key, or a StorageFault |
| `Persistence.FilePersistence.DriverWrite` | persistence.go:122-124 | stores the record, or fails and changes nothing |
| `Persistence.FilePersistence.DriverDelete` | persistence.go:159-161 | deletes the record, or fails and changes nothing |
| `Persistence.FilePersistence.Read` | persistence.go:128-137 | gives what `Engine.Read` gives, except that a non-empty key may instead fail with StorageFault; changes nothing |
| `Persistence.FilePersistence.Exists` | persistence.go:165-171 | true only for a non-empty stored key, hence never for `""` |
| `Persistence.FilePersistence.Create` | persistence.go:115-126 | gives the `Engine.Create` step; or a StorageFault that changes nothing; or, when reading a stored record failed, overwrites that record; never puts `""` into the collection |
| `Persistence.FilePersistence.Update` | persistence.go:139-150 | gives the `Engine.Update` step; or, for a stored key whose read or write failed, CantUpdateNotFound or StorageFault with nothing changed; never puts `""` into the collection |
| `Persistence.FilePersistence.Remove` | persistence.go:152-163 | gives the `Engine.Remove` step; or, for a stored key whose read or delete failed, CantDeleteNotFound or StorageFault with nothing changed; never puts `""` into the collection |
| `Persistence.FilePersistence.CreateIfNonExistentElseUpdate` | persistence.go:102-113 | gives the `Engine.Upsert` step; or a StorageFault; or, for a stored key whose read failed, an existence error; every failure changes nothing; never puts `""` into the collection |
| `Properties.CreateAbsentKeyReadsBack` | persistence.go:115-137 | create on a non-empty absent key succeeds, the key then reads as the new value, and every other key reads as before |
| `Properties.TwoCreatesReadBack` | persistence_test.go:79-110 | two distinct keys created in turn each read back their own value |
| `Properties.CreateExistingKeyFails` | persistence.go:116-118 | create on an existing key fails with AlreadyExists and leaves the collection unchanged |
| `Properties.CreateTwiceKeepsFirst` | persistence.go:115-126 | a second create of a key fails with AlreadyExists and the first value is still read |
| `Properties.CreateEmptyKeyFails` | persistence.go:116-121 | `exists("")` is false, so create on `""` passes the existence guard and fails with EmptyKey, changing nothing |
| `Properties.AbsentKeyFails` | persistence_test.go:71-77 | on a key never created, read fails with ReadFailed, update with CantUpdateNotFound and remove with CantDeleteNotFound, none changing anything |
| `Properties.UpdatePresentKey` | persistence_test.go:131-143 | update on a stored key overwrites only that key, which then reads as the new value |
| `Properties.EmptyKeyBranchesDead` | persistence.go:140-158 | update and remove never return EmptyKey; on `""` they report the key as missing |
| `Properties.RemoveThenCreate` | persistence_test.go:145-159 | remove on a stored key deletes exactly it; the key then neither exists nor reads, and a later create of it succeeds |
| `Properties.UpsertIsUpdateOrCreate` | persistence.go:102-113 | the upsert is update when the key exists and create otherwise |
| `Properties.UpsertNoExistenceError` | persistence.go:102-113 | the upsert never fails with AlreadyExists or CantUpdateNotFound; it fails exactly on `""` |
| `Properties.UpsertThenRead` | persistence_test.go:161-181 | after an upsert of a non-empty key, read gives the new value, and repeating the upsert changes nothing |
| `Properties.RunLeavesOtherKeys` | persistence.go:102-163 | a sequence of calls on other keys leaves what a key reads as unchanged |
| `Properties.RunEndingInUpsert` | persistence.go:102-113 | whatever came before, a final upsert of a non-empty key makes it read as the new value |
| `Properties.CrudScenario` | persistence_test.go:79-159 | on a fresh store, create "a"="1", read, update to "2", read, delete, read all give the expected outcomes, and the last read fails |
| `Properties.UpsertScenario` | persistence_test.go:161-181 | on a fresh store, the first upsert of "b" creates it and the second updates it |

## Left out

- `Initialize` (persistence.go:21-37) is left out. It chooses and creates a directory through the file system and ends the process on failure. That is process setup, not engine logic.
- The global `fsStore` and the wrappers `Create`, `Update`, `Read`, `Delete` and `CreateIfNonExistentElseUpdate` (persistence.go:13, 42-67) are left out. They only forward to the engine held in a global.
- The `persistence` interface (persistence.go:69-75) is left out. The class's methods are its only implementation.
- `pathExists` (persistence.go:173-179) is the `pathExists` parameter of `New`. It stands for "`os.Stat` of the path succeeds", so a regular file at `dir` also passes. Querying the operating system is left out.
- The error of `scribble.New` (persistence.go:82-85) is not modelled. The directory is known to exist at that point.
- Inside the scribble driver, the JSON encoding of records, file naming under `record/`, the write-to-temporary-then-rename step and the driver's locks are left out. The driver is a map whose calls either take full effect or fail with nothing changed.
- Error values are an enumeration rather than message strings. So the misspelt message "Emtpy string given as key" in `read` is not reproduced.
- Concurrency is left out, including the check-then-act window in the upsert between its existence check and its create or update. The model is sequential.
- The tests' set-up and tear-down (persistence_test.go:12-26, 183-187) and the tests of `pathExists` and `newFilePersistence` on real directories (persistence_test.go:28-69) are left out.
- Persistence.FilePersistence.Exists: promises only that `true` means the key is non-empty and stored. A failed driver read makes it `false` for a stored key, and which reads fail is not modelled.
- The collection as a map: distinct keys are taken to be distinct records, and a stored value is taken to read back unchanged. The driver builds a file path from each key, so keys such as `x/../a` and `a` could name one file. Its encoding stores Go byte strings as JSON text, which preserves only valid UTF-8. Neither effect is modelled.
