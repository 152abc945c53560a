/**
  The Bolt gateway: a handle on the store file whose ITEMS bucket (nested in
  the DB bucket) the methods read in View transactions and change in Update
  transactions.  The bucket is held as its decoded records by key plus its
  sequence number; each method's new state is the matching transaction of
  module Bucket applied to the old state.
 */
module Bolt {
  import opened Model
  import opened Keys
  import opened KeyOrder
  import opened Bucket

  class BoltDB {
    var records: map<string, Item>
    var sequence: Uint64

    /** The ITEMS bucket as a value. */
    function State(): Bucket
      reads this
    {
      Bucket(records, sequence)
    }

    ghost predicate Valid()
      reads this
    {
      WellFormed(State())
    }

    /** initBoltDB on a file whose ITEMS bucket holds `persisted` (Empty for a new file). */
    constructor Open(persisted: Bucket)
      requires WellFormed(persisted)
      ensures Valid() && State() == persisted
    {
      records := persisted.records;
      sequence := persisted.sequence;
    }

    /**
      FindAll: a cursor walk over the bucket in key order, decoding each value
      into one reused item and appending it.  It never reports an error.
     */
    method FindAll() returns (items: seq<Item>, err: Option<DbError>)
      requires Valid()
      ensures err == None
      ensures items == ListAll(State())
    {
      items := [];
      var item := ZeroItem;
      var rest := records.Keys;
      while rest != {}
        invariant rest <= records.Keys
        invariant items + ValuesAt(records, SortedKeys(rest)) == ListAll(State())
        decreases rest
      {
        LeastKeyExists(rest);
        var k :| k in rest && IsLeastKey(k, rest);
        CursorStep(records, rest, items, k);
        item := records[k];
        items := items + [item];
        rest := rest - {k};
      }
      assert ValuesAt(records, SortedKeys(rest)) == [];
      err := None;
    }

    /** Find: the record under FormatUint(uint64(id)), or the zero item when there is none. */
    method Find(id: Int64) returns (item: Item, err: Option<DbError>)
      ensures err == None
      ensures item == FindTx(State(), id)
    {
      item := ZeroItem;
      var key := FormatUint(ToUint64(id));
      if key in records {
        item := records[key];
      }
      err := None;
    }

    /**
      Insert in one read-write transaction: draw the next sequence value, build
      the item under it, Put it; the transaction's writes reach the bucket only
      when nothing failed.
     */
    method Insert(content: string, isCompleted: bool, fault: Fault) returns (item: Item, err: Option<DbError>)
      requires Valid()
      modifies this
      ensures Valid()
      ensures Written(State(), item, err) == InsertTx(old(State()), content, isCompleted, fault)
    {
      item := Item(0, content, isCompleted);
      var txRecords, txSequence := records, sequence;
      var ns := NextSequence(txSequence);
      txSequence := ns;
      item := item.(id := Int64Of(ns));
      if fault == WriteRejected {
        return item, Some(WriteFailed("failed to insert new item"));
      }
      txRecords := txRecords[FormatUint(ns) := item];
      if fault == CommitFails {
        return item, Some(CommitFailed);
      }
      records, sequence := txRecords, txSequence;
      err := None;
    }

    /**
      Update in one read-write transaction: fail with "item not found" when the
      key Itoa(id) is absent; otherwise rewrite content and completion flag of
      the stored record and Put it back under the same key.
     */
    method Update(id: Int64, content: string, isCompleted: bool, fault: Fault) returns (item: Item, err: Option<DbError>)
      requires Valid()
      modifies this
      ensures Valid()
      ensures Written(State(), item, err) == UpdateTx(old(State()), id, content, isCompleted, fault)
    {
      item := ZeroItem;
      var key := Itoa(id);
      if key !in records {
        return item, Some(ItemNotFound);
      }
      item := records[key];
      item := item.(content := content, isCompleted := isCompleted);
      if fault == WriteRejected {
        return item, Some(WriteFailed("failed to insert new item"));
      }
      var txRecords := records[key := item];
      if fault == CommitFails {
        return item, Some(CommitFailed);
      }
      records := txRecords;
      err := None;
    }

    /** Delete in one read-write transaction: remove the key of uint64(id), present or not. */
    method Delete(id: Int64, fault: Fault) returns (err: Option<DbError>)
      requires Valid()
      modifies this
      ensures Valid()
      ensures (State(), err) == DeleteTx(old(State()), id, fault)
    {
      var key := FormatUint(ToUint64(id));
      if fault == WriteRejected {
        return Some(WriteFailed("failed to delete item"));
      }
      var txRecords := records - {key};
      if fault == CommitFails {
        return Some(CommitFailed);
      }
      records := txRecords;
      err := None;
    }
  }
}
