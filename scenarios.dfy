/**
  Clients that use only the contracts of the gateway and the handler: the
  gateway test suite's sequence of calls on a fresh store, and the handler's
  add-and-list scenario with the records it lists afterwards.
 */
module Scenarios {
  import opened Model
  import opened Keys
  import opened KeyOrder
  import opened Bucket
  import opened Bolt
  import opened ItemStore

  /** The gateway suite's insert, find and list calls, for any content. */
  method GatewaySuiteInsertFind(content: string) {
    var gw := new BoltDB.Open(Empty);

    var item, err := gw.Insert(content, true, NoFault);
    assert item == Item(1, content, true) && err == None;

    var found, findErr := gw.Find(1);
    assert found == Item(1, content, true) && findErr == None;

    FormatUintInjective(10000, 1);
    found, findErr := gw.Find(10000);
    assert found == ZeroItem && findErr == None;

    var all, allErr := gw.FindAll();
    ListAllLength(gw.State());
    ListAllMembers(gw.State());
    assert all == [Item(1, content, true)] && allErr == None;
  }

  /** The gateway suite's update and delete calls, on the store its insert left. */
  method GatewaySuiteUpdateDelete(content: string, replacement: string) {
    var gw := new BoltDB.Open(Bucket(map[IdKey(1) := Item(1, content, true)], 1));

    var item, err := gw.Update(1, replacement, true, NoFault);
    assert item == Item(1, replacement, true) && err == None;

    FormatUintInjective(10000, 1);
    item, err := gw.Update(10000, replacement, true, NoFault);
    assert err == Some(ItemNotFound);

    err := gw.Delete(1, NoFault);
    assert err == None;
    var found, findErr := gw.Find(1);
    assert found == ZeroItem;
  }

  method HandlerRejectsBlank() {
    var gw := new BoltDB.Open(Empty);
    var h := new DBHandler(gw);

    var items, err := h.GetItems();
    assert items == [] && err == None;

    BlankContentIsRejected(gw.State(), "   ", NoFault);
    var item, addErr := h.AddNewItem("   ", NoFault);
    assert item == ZeroItem && addErr == Some(ContentEmpty);
    assert gw.State() == Empty;
  }

  /** Two adds of content that is not blank, such as "buy milk" and "get mail". */
  method HandlerAddsTwo(c1: string, c2: string)
    requires !Whitespace.AllSpace(c1) && !Whitespace.AllSpace(c2)
  {
    var gw := new BoltDB.Open(Empty);
    var h := new DBHandler(gw);

    AddNewItemInsertsUntrimmed(gw.State(), c1);
    var first, firstErr := h.AddNewItem(c1, NoFault);
    assert first == Item(1, c1, false) && firstErr == None;

    AddNewItemInsertsUntrimmed(gw.State(), c2);
    var second, secondErr := h.AddNewItem(c2, NoFault);
    assert second == Item(2, c2, false) && secondErr == None;
  }

  method HandlerListsAfterDelete(c1: string, c2: string) {
    var first, second := Item(1, c1, false), Item(2, c2, false);
    var gw := new BoltDB.Open(Bucket(map[IdKey(1) := first, IdKey(2) := second], 2));
    var h := new DBHandler(gw);

    var delErr := gw.Delete(1, NoFault);
    assert delErr == None;
    assert gw.records == map[IdKey(2) := second] by {
      FormatUintInjective(1, 2);
    }
    ListAllLength(gw.State());
    ListAllMembers(gw.State());
    var items, err := h.GetItems();
    assert items == [second] && err == None;
  }
}
