# Todo service storage layer, modelled in Dafny

The service keeps todo `Item`s (identifier, content, completion flag) in a bbolt
file. Items live in one bucket, `ITEMS`, which is nested in a bucket `DB`. The
key of each record is the decimal text of its identifier. This project models
two layers of that service:

- The **Bolt gateway** (`BoltDB`). It offers `FindAll`, `Find`, `Insert`,
  `Update` and `Delete`.
- The **item handler** (`DBHandler`). It offers `GetItems` and `AddNewItem`.
  `GetItems` turns gateway errors into `ErrNotFound`. `AddNewItem` refuses
  content that is blank after trimming.

Files:

- `model.dfy`: the `Item` record and its zero value, and Go's 64-bit `int` and
  `uint64`.
- `keys.dfy`: the record keys. It covers `strconv.FormatUint` and
  `strconv.Itoa`, and the `uint64(id)` and `int(ns)` conversions. It proves
  that the decimal encoding round-trips and is injective. It also shows where
  the key `Update` builds differs from the key `Find`/`Delete` build.
- `key_order.dfy`: the bucket's byte-wise key order and the order a cursor
  walks the keys in. It proves that numeric order means "shorter numeral
  first, then key order". So the bucket lists `10` before `9`.
- `bucket.dfy`: each gateway transaction as a function from the old bucket
  (records by key, plus the sequence number) to the new bucket and the result.
  It also holds the lemmas that relate the operations to one another.
- `bolt.dfy`: the class `BoltDB`. Its fields are the bucket's records and its
  sequence number. Each method does what the Go code does, step by step. Each
  method's `ensures` equates its result and new state with the matching
  transaction function. `FindAll` is a cursor loop with invariants.
- `whitespace.dfy`: `strings.TrimSpace` over Go's `unicode.IsSpace`
  characters.
- `item_store.dfy`: the handler's decisions as functions, their lemmas, and the
  class `DBHandler` over a `BoltDB`.
- `scenarios.dfy`: client methods that use only the contracts:
  - the gateway test suite's calls on a fresh store, for any content
    (`GatewaySuiteInsertFind`, `GatewaySuiteUpdateDelete`);
  - the handler's reject, add, delete and list sequence (`HandlerRejectsBlank`,
    `HandlerAddsTwo`, `HandlerListsAfterDelete`).

How the model represents the store:

- A read-write transaction is all-or-nothing. A parameter `fault` stands for
  the environment: the bucket refuses the `Put`/`Delete`, or the commit fails.
  Either fault leaves the bucket exactly as it was.
- The bucket's sequence is a `uint64`. `NextSequence` wraps to 0 after
  2^64 − 1, as bbolt's `sequence++` does.
- The identifier `Insert` returns is `int(ns)`. On a 64-bit platform that is
  negative once `ns` exceeds 2^63 − 1.
- The lemmas about fresh identifiers assume the sequence has not yet reached
  these limits, and each lemma says so in its `requires`.

The service's documented intent is a listing sorted by identifier, `ErrNotFound` for an empty store, and trimmed content. Where the code disagrees with it, the model follows the code:

- `GetItems` does not sort. It returns the gateway's records in key order, so
  identifier 10 comes before identifier 9 (`ListAllIsKeyOrderNotIdOrder`).
- An empty store makes `GetItems` return no items and no error, not
  `ErrNotFound`, because `FindAll` reports no error for an empty bucket.
- `AddNewItem` stores the content as given. It does not store the trimmed
  content.
- `DeleteItem` is called by the HTTP layer and the handler tests, but it is not
  defined in `storage/item_store.go`. It is not part of this model. Only the
  gateway's `Delete` is modelled.

## Model

| member | source | states |
|---|---|---|
| Keys.FormatUint | storage/db/bolt.go:117 | the decimal key is a canonical numeral (digits only, no leading zero), and it is "0" only for 0 |
| Keys.Int64Of | storage/db/bolt.go:111 | `int(ns)` keeps `ns` when it fits in a Go int, and `uint64` of the result gives `ns` back |
| Keys.Itoa | storage/db/bolt.go:134 | `strconv.Itoa` writes a leading minus sign exactly for a negative number; `ItoaAgreesWithIdKey` relates it to Find's key |
| Keys.ToUint64 | storage/db/bolt.go:168 | `uint64(id)` has the same value as id modulo 2^64, and lies in the signed range exactly when id >= 0; `Int64Of` undoes it |
| Keys.IdKey | storage/db/bolt.go:89 | the key Find and Delete build, `FormatUint(uint64(id), 10)`, is a canonical numeral; `FormatUintInjective` makes it one key per identifier |
| Keys.ParseFormatUint | storage/db/bolt.go:117 | reading back a formatted key gives the identifier |
| Keys.FormatParseUint | storage/db/bolt.go:117 | every canonical numeral is the key of the number it denotes (the encoding is onto) |
| Keys.FormatUintInjective | storage/db/bolt.go:89 | two identifiers share a key exactly when they are equal |
| Keys.ItoaAgreesWithIdKey | storage/db/bolt.go:134 | `Itoa(id)` (Update's key) equals `FormatUint(uint64(id))` (Find's and Delete's key) exactly when id >= 0 |
| Keys.InsertedKeyIsReachable | storage/db/bolt.go:111-117 | Find and Delete always reach the key Insert wrote with the identifier it returned; Update reaches it exactly when `int(ns)` did not overflow |
| KeyOrder.KeyLess | storage/db/bolt.go:74 | the bucket's byte-wise key order; `KeyLessIrreflexive`, `KeyLessTransitive` and `KeyLessTotal` make it a strict total order |
| KeyOrder.SameLengthKeyOrderIsNumeric | storage/db/bolt.go:74 | between numerals of one length, byte order is numeric order, in both directions |
| KeyOrder.NumericOrderIsLengthThenKeyOrder | storage/db/bolt.go:74 | a < b exactly when a's numeral is shorter, or as long and earlier in byte order |
| KeyOrder.KeyOrderIsNotNumericOrder | storage/db/bolt.go:74 | the key "10" sorts before the key "9" |
| KeyOrder.SortedKeys | storage/db/bolt.go:74 | the cursor visits every key once, and nothing else |
| KeyOrder.SortedKeysAscending | storage/db/bolt.go:74 | the cursor visits the keys in strictly increasing byte order |
| Bucket.NextSequence | storage/db/bolt.go:106 | the bucket's sequence plus one, modulo 2^64 |
| Bucket.FindTx | storage/db/bolt.go:86-95 | the record under `IdKey(id)` when there is one, the zero item otherwise; `FindZeroMeansAbsent` and `InsertThenFind` state what that means for stored identifiers |
| Bucket.InsertTx | storage/db/bolt.go:97-127 | Insert keeps a bucket well formed (every record under the key of its own identifier), and, until the sequence wraps, keeps every identifier at or below the sequence |
| Bucket.UpdateTx | storage/db/bolt.go:129-164 | Update keeps the bucket well formed, keeps every identifier at or below the sequence, and leaves the sequence alone |
| Bucket.DeleteTx | storage/db/bolt.go:166-178 | Delete keeps the bucket well formed, keeps every identifier at or below the sequence, and leaves the sequence alone |
| Bucket.InsertThenFind | storage/db/bolt.go:98-117 | a successful Insert stores content and flag exactly as passed, under identifier `int(NextSequence)`, and Find with that identifier returns the same item |
| Bucket.NextKeyIsFree | storage/db/bolt.go:106-117 | until the sequence wraps, no record sits under the next sequence value's key |
| Bucket.InsertIsFresh | storage/db/bolt.go:104-124 | Insert adds exactly one record under a key no record held, and changes no other record |
| Bucket.InsertIdsIncrease | storage/db/bolt.go:106-111 | the new identifier is the old sequence + 1, it exceeds every stored identifier, and it is 1 in a fresh bucket |
| Bucket.SuccessiveInsertsIncrease | storage/db/bolt.go:106-111 | two successive inserts get consecutive, strictly increasing identifiers |
| Bucket.FindZeroMeansAbsent | storage/db/bolt.go:86-94 | Find returns the zero item exactly when the identifier's key is absent |
| Bucket.UpdateKeepsId | storage/db/bolt.go:140-160 | Update of a stored identifier returns and stores `{id, content, isCompleted}` under the same key; it keeps the identifier and changes no other key and not the sequence; Find then returns it |
| Bucket.UpdateOfAbsentKeyWritesNothing | storage/db/bolt.go:134-138 | Update of an absent key fails with "item not found", returns the zero item and writes nothing |
| Bucket.UpdateOfNegativeIdNotFound | storage/db/bolt.go:134 | a negative identifier is never found by Update, while Find and Delete use another key for it |
| Bucket.DeleteRemovesOnlyItsKey | storage/db/bolt.go:166-177 | Delete reports no error, present key or not; Find then gives the zero item; other records and the sequence are untouched |
| Bucket.DeleteThenInsertDoesNotReuse | storage/db/bolt.go:104-117 | after a stored record is deleted, the next insert gets another identifier, and the deleted one stays absent |
| Bucket.FaultsRollBack | storage/db/bolt.go:104-126 | a failed Insert, Update or Delete leaves the bucket as it was; Insert still returns the item with its drawn identifier, and Update the item with the new fields |
| Bucket.Apply | storage/db/bolt.go:97-178 | one Insert, Update or Delete, failed or not, raises the sequence by at most one and never lowers it (short of the wrap) |
| Bucket.RunKeepsInvariants | storage/db/bolt.go:97-178 | any history of writes that does not wrap the sequence keeps the bucket well formed and every identifier at or below a sequence that never falls |
| Bucket.IdsNeverReused | storage/db/bolt.go:104-117 | whatever writes follow a successful insert, a later insert gets a strictly larger identifier, and one no stored record has |
| Bucket.ListAll | storage/db/bolt.go:70-83 | the records in cursor order; `ListAllLength`, `ListAllMembers` and `ListAllInKeyOrder` state what that list holds |
| Bucket.ListAllLength | storage/db/bolt.go:70-83 | FindAll yields one record per key, and nothing for an empty bucket |
| Bucket.ListAllMembers | storage/db/bolt.go:74-77 | every record FindAll yields is stored, and every stored record is among them |
| Bucket.ListAllInKeyOrder | storage/db/bolt.go:74 | FindAll yields the records in strictly increasing key order, so none of them twice |
| Bucket.ListAllIsKeyOrderNotIdOrder | storage/db/bolt.go:74 | with records 9 and 10 stored, FindAll yields 10 first |
| Bolt.BoltDB.Open | storage/db/bolt.go:39-68 | the handle opens on the bucket's persisted records and sequence |
| Bolt.BoltDB.FindAll | storage/db/bolt.go:70-84 | the cursor loop returns exactly the records in key order and never an error |
| Bolt.BoltDB.Find | storage/db/bolt.go:86-95 | returns the record under `FormatUint(uint64(id))`, or the zero item, with no error |
| Bolt.BoltDB.Insert | storage/db/bolt.go:97-127 | new state and result are those of `InsertTx`, and the object invariant is kept |
| Bolt.BoltDB.Update | storage/db/bolt.go:129-164 | new state and result are those of `UpdateTx`, and the object invariant is kept |
| Bolt.BoltDB.Delete | storage/db/bolt.go:166-178 | new state and error are those of `DeleteTx`, and the object invariant is kept |
| Whitespace.IsSpace | storage/item_store.go:50 | the characters `unicode.IsSpace` accepts; `TrimSpaceEmptyIffAllSpace` ties it to the blank test |
| Whitespace.TrimSpace | storage/item_store.go:50 | the trimmed content is no longer than the input and neither starts nor ends with white space |
| Whitespace.TrimLeft | storage/item_store.go:50 | the result is a suffix of the input; everything dropped is white space; the result does not start with white space |
| Whitespace.TrimRight | storage/item_store.go:50 | the result is a prefix of the input; everything dropped is white space; the result does not end with white space |
| Whitespace.TrimSpaceEmptyIffAllSpace | storage/item_store.go:50 | trimming leaves nothing exactly when every character is white space |
| ItemStore.IsBlank | storage/item_store.go:50 | the content is blank exactly when every character is white space |
| ItemStore.TranslateListing | storage/item_store.go:37-45 | a gateway error becomes ErrNotFound with no items; success hands on the gateway's items unchanged (no sort) |
| ItemStore.AddNewItemTx | storage/item_store.go:47-61 | success returns the content as given and not completed; an error returns the zero item; the bucket stays well formed |
| ItemStore.BlankContentIsRejected | storage/item_store.go:50-52 | all-white-space content gives the zero item and "content cannot be empty", and writes nothing |
| ItemStore.AddNewItemInsertsUntrimmed | storage/item_store.go:54-60 | other content is inserted untrimmed, not completed, under a fresh identifier one past the sequence, and can be found again |
| ItemStore.AddNewItemPassesGatewayErrors | storage/item_store.go:54-58 | a failed insert gives the zero item and the gateway's own error, and writes nothing |
| ItemStore.DBHandler.constructor | storage/item_store.go:34 | the handler holds the gateway it was given |
| ItemStore.DBHandler.GetItems | storage/item_store.go:37-45 | over the Bolt gateway, returns every record in key order and no error; an empty store gives no items and no error |
| ItemStore.DBHandler.AddNewItem | storage/item_store.go:47-61 | new state and result are those of `AddNewItemTx`, and the gateway's invariant is kept |

## Left out

- Opening the file is not modelled: 0600 permissions, file locking, and `log.Panic`/`log.Fatal` when a bucket cannot be created. `Open` starts from a bucket that already exists.
- bbolt's B+tree pages and nested-bucket mechanics are not modelled. Only the abstract records map and the sequence number are.
- `encoding/json` is not modelled. The bucket holds decoded records. For an `Item` (int, string, bool), `Marshal` cannot fail. Every value the gateway reads was written by the gateway. So the `Unmarshal` and `Marshal` error branches of `Update` cannot be taken, and the model has none.
- `FindAll` reuses one `item` variable. That cannot leak fields between records, because every stored value carries all three fields.
- `NextSequence` cannot fail inside a writable transaction, so the model has no branch for it. The failure of a `View` transaction on a closed database is not modelled either.
- A `db.Update` that cannot begin (a closed or read-only database) is not modelled. Its closure would never run, so `Insert` would return the item with identifier 0 and `Update` the zero item, and no `Fault` produces those results. The handle is never closed, so this path is not reached.
- Go's `int` is taken as 64 bits wide. On a 32-bit platform `int(ns)` and `strconv.Itoa` would wrap at 2^31, and that is not modelled.
- Concurrency is not modelled: bbolt's single writer and many readers.
- The `Gateway` interface is not modelled as an abstraction, because Dafny traits are not used here. `DBHandler` is modelled over the Bolt gateway. The test mock in `storage/item_store_test.go` is not modelled, and neither is the duplicate interface in `storage/internal/types.go`.
- `DeleteItem` is not defined in the repository's handler, so it is not modelled.
- HTTP routing, status codes, JSON responses and the `Atoi` of the request path in `main.go` are not modelled.
- Strings are sequences of Unicode code points. `TrimSpace` on byte strings that are not valid UTF-8 is not modelled.
- Error values are a datatype. The text of the `fmt.Errorf` messages is kept only as the operation name of `WriteFailed`.
