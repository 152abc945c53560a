/**
  The item handler: validation and error translation above a gateway.  The
  gateway here is the Bolt gateway, the one implementation of the Gateway
  interface the service wires in.
 */
module ItemStore {
  import opened Model
  import opened Keys
  import opened Bucket
  import opened Bolt
  import opened Whitespace

  datatype HandlerError =
    | ErrNotFound          // "item not found", the handler's own error value
    | ContentEmpty         // "content cannot be empty"
    | Gateway(cause: DbError)  // a gateway error passed through as it is

  /** AddNewItem's validation: nothing is left once surrounding white space is trimmed. */
  function IsBlank(content: string): (blank: bool)
    ensures blank <==> AllSpace(content)
  {
    TrimSpaceEmptyIffAllSpace(content);
    |TrimSpace(content)| == 0
  }

  /**
    GetItems' decision: any gateway error becomes ErrNotFound with no items;
    otherwise the gateway's items are handed on as they are, neither sorted nor filtered.
   */
  function TranslateListing(items: seq<Item>, err: Option<DbError>): (r: (seq<Item>, Option<HandlerError>))
    ensures r.1 == None <==> err == None
    ensures r.1 != None ==> r.1 == Some(ErrNotFound) && r.0 == []
    ensures r.1 == None ==> r.0 == items
  {
    if err.Some? then ([], Some(ErrNotFound)) else (items, None)
  }

  /** The outcome of AddNewItem: the bucket afterwards, the item returned, the error. */
  datatype Added = Added(bucket: Bucket, item: Item, err: Option<HandlerError>)

  /**
    AddNewItem over the Bolt gateway: reject blank content without touching
    the store; otherwise Insert the content as given, not completed, and
    return the gateway's item, or the zero item and the gateway's error.
   */
  function AddNewItemTx(b: Bucket, content: string, fault: Fault): (a: Added)
    ensures WellFormed(b) ==> WellFormed(a.bucket)
    ensures a.err == None ==> a.item.content == content && !a.item.isCompleted
    ensures a.err != None ==> a.item == ZeroItem
  {
    if IsBlank(content) then
      Added(b, ZeroItem, Some(ContentEmpty))
    else
      var w := InsertTx(b, content, false, fault);
      if w.err.Some? then Added(w.bucket, ZeroItem, Some(Gateway(w.err.value)))
      else Added(w.bucket, w.item, None)
  }

  /** Content made only of white space ("" or "   ") is refused and nothing is written. */
  lemma BlankContentIsRejected(b: Bucket, content: string, fault: Fault)
    requires AllSpace(content)
    ensures AddNewItemTx(b, content, fault) == Added(b, ZeroItem, Some(ContentEmpty))
  {
    TrimSpaceEmptyIffAllSpace(content);
  }

  /**
    Content with any other character is inserted untrimmed and not completed,
    under a fresh identifier one past the sequence, and can be found again.
   */
  lemma AddNewItemInsertsUntrimmed(b: Bucket, content: string)
    requires !AllSpace(content)
    requires WellFormed(b) && SequenceCovers(b) && b.sequence < MaxInt64
    ensures var a := AddNewItemTx(b, content, NoFault);
      && a.err == None
      && a.item == Item(b.sequence + 1, content, false)
      && a.bucket == InsertTx(b, content, false, NoFault).bucket
      && IdKey(a.item.id) !in b.records
      && FindTx(a.bucket, a.item.id) == a.item
  {
    TrimSpaceEmptyIffAllSpace(content);
    InsertThenFind(b, content, false);
    InsertIsFresh(b, content, false);
  }

  /** A failed Insert comes back as the zero item with the gateway's own error, and nothing is written. */
  lemma AddNewItemPassesGatewayErrors(b: Bucket, content: string, fault: Fault)
    requires !AllSpace(content) && fault != NoFault
    ensures AddNewItemTx(b, content, fault)
         == Added(b, ZeroItem, Some(Gateway(FaultError(fault, "failed to insert new item"))))
  {
    TrimSpaceEmptyIffAllSpace(content);
  }

  class DBHandler {
    const db: BoltDB

    constructor (db: BoltDB)
      ensures this.db == db
    {
      this.db := db;
    }

    /**
      GetItems: the gateway's listing, or ErrNotFound on a gateway error.  Over
      the Bolt gateway that is every record in key order, and an empty store
      gives no items and no error.
     */
    method GetItems() returns (items: seq<Item>, err: Option<HandlerError>)
      requires db.Valid()
      ensures err == None
      ensures items == ListAll(db.State())
      ensures items == [] <==> db.records == map[]
    {
      var found, dbErr := db.FindAll();
      ListAllLength(db.State());
      var r := TranslateListing(found, dbErr);
      items, err := r.0, r.1;
    }

    /** AddNewItem: validate, then Insert through the gateway. */
    method AddNewItem(content: string, fault: Fault) returns (item: Item, err: Option<HandlerError>)
      requires db.Valid()
      modifies db
      ensures db.Valid()
      ensures Added(db.State(), item, err) == AddNewItemTx(old(db.State()), content, fault)
    {
      if IsBlank(content) {
        return ZeroItem, Some(ContentEmpty);
      }
      var inserted, dbErr := db.Insert(content, false, fault);
      if dbErr.Some? {
        return ZeroItem, Some(Gateway(dbErr.value));
      }
      return inserted, None;
    }
  }
}
