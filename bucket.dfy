/**
  What one bbolt transaction of the gateway does to the ITEMS bucket (nested in
  the DB bucket), stated on values: the bucket's records by key and its sequence
  number.  Each transaction is all-or-nothing: a fault leaves the bucket as it was.
 */
module Bucket {
  import opened Model
  import opened Keys
  import opened KeyOrder

  /** The ITEMS bucket: decoded records by key, and the bucket's sequence number. */
  datatype Bucket = Bucket(records: map<string, Item>, sequence: Uint64)

  /** A bucket just created by initBoltDB. */
  const Empty: Bucket := Bucket(map[], 0)

  /** What the environment does to a read-write transaction. */
  datatype Fault =
    | NoFault
    | WriteRejected   // the bucket refuses the Put or the Delete
    | CommitFails     // the transaction cannot be committed to the file

  datatype DbError =
    | ItemNotFound             // "item not found"
    | WriteFailed(op: string)  // the wrapped Put or Delete error
    | CommitFailed             // bbolt's commit error, passed through

  /** The outcome of Insert or Update: the bucket after the transaction, the item returned, the error. */
  datatype Written = Written(bucket: Bucket, item: Item, err: Option<DbError>)

  /** Every record is filed under the key `Find` builds from its identifier. */
  predicate WellFormed(b: Bucket) {
    forall k | k in b.records :: k == IdKey(b.records[k].id)
  }

  /** Every record carries a sequence value the bucket has already handed out. */
  predicate SequenceCovers(b: Bucket) {
    forall k | k in b.records :: 1 <= ToUint64(b.records[k].id) <= b.sequence
  }

  /** bbolt's NextSequence: the incremented uint64 sequence, wrapping at 2^64. */
  function NextSequence(sequence: Uint64): (next: Uint64)
    ensures next == (sequence + 1) % 0x1_0000_0000_0000_0000
  {
    if sequence == MaxUint64 then 0 else sequence + 1
  }

  function FaultError(fault: Fault, op: string): DbError
    requires fault != NoFault
  {
    if fault == WriteRejected then WriteFailed(op) else CommitFailed
  }

  /** Find: the record under the identifier's key, or the zero item (Unmarshal of nothing fails silently). */
  function FindTx(b: Bucket, id: Int64): (item: Item)
    ensures IdKey(id) in b.records ==> item == b.records[IdKey(id)]
    ensures IdKey(id) !in b.records ==> item == ZeroItem
  {
    var key := IdKey(id);
    if key in b.records then b.records[key] else ZeroItem
  }

  /**
    Insert: take the next sequence value ns, build the item with identifier
    int(ns), and Put it under FormatUint(ns).  The item is returned with its
    identifier set even when the transaction fails.
   */
  function InsertTx(b: Bucket, content: string, isCompleted: bool, fault: Fault): (w: Written)
    ensures WellFormed(b) ==> WellFormed(w.bucket)
    ensures SequenceCovers(b) && b.sequence < MaxUint64 ==> SequenceCovers(w.bucket)
  {
    var ns := NextSequence(b.sequence);
    var item := Item(Int64Of(ns), content, isCompleted);
    if fault == NoFault then
      Written(Bucket(b.records[FormatUint(ns) := item], ns), item, None)
    else
      Written(b, item, Some(FaultError(fault, "failed to insert new item")))
  }

  /**
    Update: look the key Itoa(id) up; when it is absent fail with "item not
    found" and the zero item; otherwise replace content and completion flag,
    keep the stored identifier and Put the record back under the same key.
   */
  function UpdateTx(b: Bucket, id: Int64, content: string, isCompleted: bool, fault: Fault): (w: Written)
    ensures WellFormed(b) ==> WellFormed(w.bucket)
    ensures SequenceCovers(b) ==> SequenceCovers(w.bucket)
    ensures w.bucket.sequence == b.sequence
  {
    var key := Itoa(id);
    if key !in b.records then
      Written(b, ZeroItem, Some(ItemNotFound))
    else
      var item := b.records[key].(content := content, isCompleted := isCompleted);
      if fault == NoFault then
        Written(b.(records := b.records[key := item]), item, None)
      else
        Written(b, item, Some(FaultError(fault, "failed to insert new item")))
  }

  /** Delete: remove the identifier's key, whether or not it is there. */
  function DeleteTx(b: Bucket, id: Int64, fault: Fault): (r: (Bucket, Option<DbError>))
    ensures WellFormed(b) ==> WellFormed(r.0)
    ensures SequenceCovers(b) ==> SequenceCovers(r.0)
    ensures r.0.sequence == b.sequence
  {
    if fault == NoFault then
      (b.(records := b.records - {IdKey(id)}), None)
    else
      (b, Some(FaultError(fault, "failed to delete item")))
  }

  /** The records stored under ks, in that order. */
  function ValuesAt(records: map<string, Item>, ks: seq<string>): (items: seq<Item>)
    requires forall k | k in ks :: k in records
    ensures |items| == |ks|
    decreases |ks|
  {
    if ks == [] then [] else [records[ks[0]]] + ValuesAt(records, ks[1..])
  }

  lemma {:induction false} ValuesAtPointwise(records: map<string, Item>, ks: seq<string>)
    requires forall k | k in ks :: k in records
    ensures forall i | 0 <= i < |ks| :: ValuesAt(records, ks)[i] == records[ks[i]]
    decreases |ks|
  {
    if ks != [] {
      ValuesAtPointwise(records, ks[1..]);
    }
  }

  lemma SortedKeysFromLeast(keys: set<string>, k: string)
    requires IsLeastKey(k, keys)
    ensures SortedKeys(keys) == [k] + SortedKeys(keys - {k})
  {
    LeastKeyUnique(k, LeastKey(keys), keys);
  }

  lemma ValuesAtCons(records: map<string, Item>, k: string, ks: seq<string>)
    requires k in records && forall x | x in ks :: x in records
    ensures ValuesAt(records, [k] + ks) == [records[k]] + ValuesAt(records, ks)
  {
    assert ([k] + ks)[1..] == ks;
  }

  /**
    One step of the cursor walk: with `listed` followed by the records of the
    keys still to visit making up the whole listing, visiting the least
    remaining key keeps it so.
   */
  lemma CursorStep(records: map<string, Item>, rest: set<string>, listed: seq<Item>, k: string)
    requires rest <= records.Keys && IsLeastKey(k, rest)
    requires listed + ValuesAt(records, SortedKeys(rest)) == ValuesAt(records, SortedKeys(records.Keys))
    ensures (listed + [records[k]]) + ValuesAt(records, SortedKeys(rest - {k}))
         == ValuesAt(records, SortedKeys(records.Keys))
  {
    var tail := SortedKeys(rest - {k});
    SortedKeysFromLeast(rest, k);
    ValuesAtCons(records, k, tail);
    AppendRegroup(listed, records[k], ValuesAt(records, tail));
  }

  lemma AppendRegroup(xs: seq<Item>, x: Item, ys: seq<Item>)
    ensures xs + ([x] + ys) == (xs + [x]) + ys
  {
  }

  /** FindAll: one record per key, in the bucket's key order. */
  ghost function ListAll(b: Bucket): seq<Item> {
    ValuesAt(b.records, SortedKeys(b.records.Keys))
  }

  // ---------------------------------------------------------------- Insert

  /** A successful Insert can be read back with Find under the identifier it returned. */
  lemma InsertThenFind(b: Bucket, content: string, isCompleted: bool)
    ensures var w := InsertTx(b, content, isCompleted, NoFault);
      && w.err == None
      && w.item.content == content && w.item.isCompleted == isCompleted
      && ToUint64(w.item.id) == NextSequence(b.sequence)
      && FindTx(w.bucket, w.item.id) == w.item
  {
    InsertedKeyIsReachable(NextSequence(b.sequence));
  }

  /** Until the sequence wraps, the key of the next sequence value is free. */
  lemma NextKeyIsFree(b: Bucket)
    requires WellFormed(b) && SequenceCovers(b) && b.sequence < MaxUint64
    ensures FormatUint(b.sequence + 1) !in b.records
  {
    var key := FormatUint(b.sequence + 1);
    if key in b.records {
      FormatUintInjective(ToUint64(b.records[key].id), b.sequence + 1);
      assert false;
    }
  }

  /**
    Until the sequence wraps, Insert files under a key no record holds: it adds
    exactly one record, leaves every other record as it was, and the new
    identifier has never been issued before.
   */
  lemma InsertIsFresh(b: Bucket, content: string, isCompleted: bool)
    requires WellFormed(b) && SequenceCovers(b) && b.sequence < MaxUint64
    ensures var w := InsertTx(b, content, isCompleted, NoFault);
      && IdKey(w.item.id) !in b.records
      && w.bucket.records == b.records[IdKey(w.item.id) := w.item]
      && |w.bucket.records| == |b.records| + 1
      && SequenceCovers(w.bucket)
  {
    var ns := b.sequence + 1;
    InsertedKeyIsReachable(ns);
    NextKeyIsFree(b);
  }

  /**
    While identifiers fit in a Go int, each new identifier is the previous
    sequence value plus one and exceeds every identifier already stored; the
    first insert into a fresh bucket gets identifier 1.
   */
  lemma InsertIdsIncrease(b: Bucket, content: string, isCompleted: bool)
    requires SequenceCovers(b) && b.sequence < MaxInt64
    ensures var w := InsertTx(b, content, isCompleted, NoFault);
      && w.item.id == b.sequence + 1
      && (forall k | k in b.records :: b.records[k].id < w.item.id)
      && (b == Empty ==> w.item.id == 1)
  {
  }

  /** Two successive inserts get consecutive, strictly increasing identifiers. */
  lemma SuccessiveInsertsIncrease(b: Bucket, c1: string, f1: bool, c2: string, f2: bool)
    requires b.sequence + 2 <= MaxInt64
    ensures var w1 := InsertTx(b, c1, f1, NoFault);
      var w2 := InsertTx(w1.bucket, c2, f2, NoFault);
      w1.item.id < w2.item.id && w2.item.id == w1.item.id + 1
  {
  }

  // ---------------------------------------------------------------- Find

  /**
    In a bucket whose records all carry issued identifiers the zero item is
    never a stored record, so Find's zero result means exactly "absent".
   */
  lemma FindZeroMeansAbsent(b: Bucket, id: Int64)
    requires SequenceCovers(b)
    ensures FindTx(b, id) == ZeroItem <==> IdKey(id) !in b.records
  {
    var key := IdKey(id);
    if key in b.records {
      assert 1 <= ToUint64(b.records[key].id);
    }
  }

  // ---------------------------------------------------------------- Update

  /**
    A successful Update of a stored identifier keeps the identifier, stores
    exactly the new content and flag under the same key, changes no other
    record and no sequence value, and Find then returns the updated record.
   */
  lemma UpdateKeepsId(b: Bucket, id: Int64, content: string, isCompleted: bool)
    requires WellFormed(b) && Itoa(id) in b.records
    ensures var w := UpdateTx(b, id, content, isCompleted, NoFault);
      && w.err == None
      && w.item == Item(id, content, isCompleted)
      && w.bucket == Bucket(b.records[IdKey(id) := w.item], b.sequence)
      && FindTx(w.bucket, id) == w.item
  {
    var key := Itoa(id);
    var stored := b.records[key];
    if id < 0 {
      assert false;
    }
    ItoaAgreesWithIdKey(id);
    FormatUintInjective(ToUint64(stored.id), ToUint64(id));
  }

  /** Update of an absent key fails with "item not found", returns the zero item and writes nothing. */
  lemma UpdateOfAbsentKeyWritesNothing(b: Bucket, id: Int64, content: string, isCompleted: bool, fault: Fault)
    requires Itoa(id) !in b.records
    ensures UpdateTx(b, id, content, isCompleted, fault) == Written(b, ZeroItem, Some(ItemNotFound))
  {
  }

  /**
    A negative identifier is never found by Update (Itoa writes a sign no key
    has), although Find and Delete map it to the key of uint64(id).
   */
  lemma UpdateOfNegativeIdNotFound(b: Bucket, id: Int64, content: string, isCompleted: bool, fault: Fault)
    requires WellFormed(b) && id < 0
    ensures UpdateTx(b, id, content, isCompleted, fault).err == Some(ItemNotFound)
    ensures Itoa(id) != IdKey(id)
  {
    ItoaAgreesWithIdKey(id);
  }

  // ---------------------------------------------------------------- Delete

  /**
    Delete succeeds whether or not the key is there; afterwards Find gives the
    zero item for that identifier, every other record is untouched and the
    sequence is kept.
   */
  lemma DeleteRemovesOnlyItsKey(b: Bucket, id: Int64)
    ensures var (after, err) := DeleteTx(b, id, NoFault);
      && err == None
      && FindTx(after, id) == ZeroItem
      && after.sequence == b.sequence
      && after.records.Keys == b.records.Keys - {IdKey(id)}
      && (forall k | k in after.records :: after.records[k] == b.records[k])
  {
  }

  /** Identifiers are not reused: after deleting a stored record, the next insert gets another identifier. */
  lemma DeleteThenInsertDoesNotReuse(b: Bucket, id: Int64, content: string, isCompleted: bool)
    requires WellFormed(b) && SequenceCovers(b) && b.sequence < MaxUint64
    requires IdKey(id) in b.records
    ensures var (after, _) := DeleteTx(b, id, NoFault);
      var w := InsertTx(after, content, isCompleted, NoFault);
      && w.item.id != id
      && FindTx(w.bucket, id) == ZeroItem
  {
    var (after, _) := DeleteTx(b, id, NoFault);
    var w := InsertTx(after, content, isCompleted, NoFault);
    var ns := b.sequence + 1;
    InsertedKeyIsReachable(ns);
    assert ToUint64(b.records[IdKey(id)].id) <= b.sequence;
    FormatUintInjective(ToUint64(b.records[IdKey(id)].id), ToUint64(id));
    FormatUintInjective(ToUint64(id), ns);
  }

  // ---------------------------------------------------------------- faults

  /**
    A transaction that fails leaves the bucket exactly as it was; Insert still
    returns the item with the identifier it had drawn, Update the item with
    the new fields.
   */
  lemma FaultsRollBack(b: Bucket, id: Int64, content: string, isCompleted: bool, fault: Fault)
    requires fault != NoFault
    ensures var w := InsertTx(b, content, isCompleted, fault);
      w.bucket == b && w.err.Some? && w.item.id == Int64Of(NextSequence(b.sequence))
    ensures var w := UpdateTx(b, id, content, isCompleted, fault);
      w.bucket == b && w.err.Some? &&
      (Itoa(id) in b.records ==> w.item == b.records[Itoa(id)].(content := content, isCompleted := isCompleted))
    ensures DeleteTx(b, id, fault) == (b, Some(FaultError(fault, "failed to delete item")))
  {
  }

  // ---------------------------------------------------------------- histories

  /** One gateway write, with the fault its transaction meets. */
  datatype Op =
    | InsertOp(content: string, isCompleted: bool, fault: Fault)
    | UpdateOp(id: Int64, content: string, isCompleted: bool, fault: Fault)
    | DeleteOp(id: Int64, fault: Fault)

  /** The bucket after one write. */
  function Apply(b: Bucket, op: Op): (after: Bucket)
    ensures b.sequence <= after.sequence <= b.sequence + 1 || b.sequence == MaxUint64
  {
    match op
    case InsertOp(content, isCompleted, fault) => InsertTx(b, content, isCompleted, fault).bucket
    case UpdateOp(id, content, isCompleted, fault) => UpdateTx(b, id, content, isCompleted, fault).bucket
    case DeleteOp(id, fault) => DeleteTx(b, id, fault).0
  }

  /** The bucket after a history of writes, oldest first. */
  function Run(b: Bucket, ops: seq<Op>): Bucket
    decreases |ops|
  {
    if ops == [] then b else Run(Apply(b, ops[0]), ops[1..])
  }

  /**
    Any history of inserts, updates and deletes, failed or not, that does not
    wrap the sequence keeps every record under its own key and below the
    sequence, and never lowers the sequence.
   */
  lemma {:induction false} RunKeepsInvariants(b: Bucket, ops: seq<Op>)
    requires WellFormed(b) && SequenceCovers(b) && b.sequence + |ops| <= MaxUint64
    ensures var e := Run(b, ops);
      WellFormed(e) && SequenceCovers(e) && b.sequence <= e.sequence <= b.sequence + |ops|
    decreases |ops|
  {
    if ops != [] {
      RunKeepsInvariants(Apply(b, ops[0]), ops[1..]);
    }
  }

  /**
    Identifiers are never reused: whatever history follows a successful
    insert, a later insert gets a strictly larger identifier, and one that no
    stored record carries.
   */
  lemma IdsNeverReused(b: Bucket, c1: string, f1: bool, ops: seq<Op>, c2: string, f2: bool, fault: Fault)
    requires WellFormed(b) && SequenceCovers(b) && b.sequence + |ops| + 2 <= MaxInt64
    ensures var first := InsertTx(b, c1, f1, NoFault);
      var before := Run(first.bucket, ops);
      var later := InsertTx(before, c2, f2, fault);
      && first.item.id < later.item.id
      && FindTx(before, later.item.id) == ZeroItem
  {
    var first := InsertTx(b, c1, f1, NoFault);
    assert first.item.id == b.sequence + 1 == first.bucket.sequence;
    RunKeepsInvariants(first.bucket, ops);
    var before := Run(first.bucket, ops);
    var ns := before.sequence + 1;
    assert InsertTx(before, c2, f2, fault).item.id == Int64Of(ns) == ns;
    NextKeyIsFree(before);
    assert IdKey(ns) == FormatUint(ns);
  }

  // ---------------------------------------------------------------- FindAll

  /** FindAll yields as many records as the bucket has keys, and nothing for an empty bucket. */
  lemma ListAllLength(b: Bucket)
    ensures |ListAll(b)| == |b.records|
    ensures ListAll(b) == [] <==> b.records == map[]
  {
    assert |b.records| == |b.records.Keys|;
    if b.records != map[] {
      var k :| k in b.records;
      assert k in b.records.Keys;
    }
  }

  /** Every record FindAll yields is stored, and every stored record is among them. */
  lemma ListAllMembers(b: Bucket)
    ensures forall i | 0 <= i < |ListAll(b)| :: ListAll(b)[i] in b.records.Values
    ensures forall k | k in b.records :: b.records[k] in ListAll(b)
  {
    var ks := SortedKeys(b.records.Keys);
    var items := ListAll(b);
    ValuesAtPointwise(b.records, ks);
    forall i | 0 <= i < |items|
      ensures items[i] in b.records.Values
    {
      assert ks[i] in b.records;
      assert items[i] == b.records[ks[i]];
    }
    forall k | k in b.records
      ensures b.records[k] in items
    {
      assert k in ks;
      var i :| 0 <= i < |ks| && ks[i] == k;
      assert items[i] == b.records[k];
    }
  }

  /** FindAll yields the records in strictly increasing key order, so none of them twice. */
  lemma ListAllInKeyOrder(b: Bucket)
    requires WellFormed(b)
    ensures forall i, j | 0 <= i < j < |ListAll(b)| :: KeyLess(IdKey(ListAll(b)[i].id), IdKey(ListAll(b)[j].id))
  {
    var ks := SortedKeys(b.records.Keys);
    var items := ListAll(b);
    SortedKeysAscending(b.records.Keys);
    ValuesAtPointwise(b.records, ks);
    forall i, j | 0 <= i < j < |items|
      ensures KeyLess(IdKey(items[i].id), IdKey(items[j].id))
    {
      assert ks[i] in b.records && ks[j] in b.records;
      assert IdKey(items[i].id) == ks[i] && IdKey(items[j].id) == ks[j];
    }
  }

  /** The bucket lists the record with identifier 10 before the one with identifier 9. */
  lemma ListAllIsKeyOrderNotIdOrder(nine: Item, ten: Item)
    requires nine.id == 9 && ten.id == 10
    ensures ListAll(Bucket(map[IdKey(9) := nine, IdKey(10) := ten], 10)) == [ten, nine]
  {
    KeyOrderIsNotNumericOrder();
    var b := Bucket(map["9" := nine, "10" := ten], 10);
    assert b.records.Keys == {"9", "10"};
    var ks := SortedKeys(b.records.Keys);
    SortedKeysAscending(b.records.Keys);
    ValuesAtPointwise(b.records, ks);
    assert "9" in ks && "10" in ks;
    if ks[0] == "9" {
      assert false;
    }
    assert ks == ["10", "9"];
  }
}
