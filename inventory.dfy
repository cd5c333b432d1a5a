/** The `inventory` store seen as a map from item id to item, and the absolute
    stock overwrites that `updateInventoryItem` performs on it. */
module Inventory {
  import opened Records

  /** One `updateInventoryItem(itemId, newStock)` call: the caller computes the
      new absolute stock and the store overwrites `currentStock` with it. */
  datatype StockWrite = StockWrite(itemId: int, newStock: int)

  /** Every write in `ws` names an item that is in `inv`. */
  predicate Targets(inv: map<int, Item>, ws: seq<StockWrite>) {
    forall i :: 0 <= i < |ws| ==> ws[i].itemId in inv
  }

  /** The inventory after the writes `ws` have been applied one after another.
      Only `currentStock` ever changes: ids, names and units are kept. */
  function ApplyWrites(inv: map<int, Item>, ws: seq<StockWrite>): (r: map<int, Item>)
    requires Targets(inv, ws)
    ensures r.Keys == inv.Keys
    ensures forall id :: id in inv ==> r[id] == inv[id].(currentStock := r[id].currentStock)
    decreases |ws|
  {
    if ws == [] then inv
    else
      var prev := ApplyWrites(inv, ws[..|ws| - 1]);
      var w := ws[|ws| - 1];
      prev[w.itemId := prev[w.itemId].(currentStock := w.newStock)]
  }

  /** The value of the last write to `id` in `ws`, if there is one. */
  function LastWrite(ws: seq<StockWrite>, id: int): (r: Option<int>)
    ensures r.None? <==> forall i :: 0 <= i < |ws| ==> ws[i].itemId != id
    ensures r.Some? ==>
      exists i :: 0 <= i < |ws| && ws[i].itemId == id && ws[i].newStock == r.value &&
        forall k :: i < k < |ws| ==> ws[k].itemId != id
    decreases |ws|
  {
    if ws == [] then None
    else if ws[|ws| - 1].itemId == id then Some(ws[|ws| - 1].newStock)
    else LastWrite(ws[..|ws| - 1], id)
  }

  /** Last write wins: after the writes, an item's stock is the value of the
      last write to it, or its old stock when nothing wrote to it. */
  lemma {:induction false} StockAfterWrites(inv: map<int, Item>, ws: seq<StockWrite>, id: int)
    requires Targets(inv, ws) && id in inv
    ensures ApplyWrites(inv, ws)[id].currentStock ==
      match LastWrite(ws, id) case Some(v) => v case None => inv[id].currentStock
    decreases |ws|
  {
    if ws != [] {
      StockAfterWrites(inv, ws[..|ws| - 1], id);
    }
  }

  /** A write that no later write to the same item follows lands: the item
      keeps everything but its stock, which becomes the written value. */
  lemma LastWriteLands(inv: map<int, Item>, ws: seq<StockWrite>, k: int)
    requires Targets(inv, ws) && 0 <= k < |ws|
    requires forall j :: k < j < |ws| ==> ws[j].itemId != ws[k].itemId
    ensures ApplyWrites(inv, ws)[ws[k].itemId] == inv[ws[k].itemId].(currentStock := ws[k].newStock)
  {
    var id := ws[k].itemId;
    StockAfterWrites(inv, ws, id);
    var i :| 0 <= i < |ws| && ws[i].itemId == id && ws[i].newStock == LastWrite(ws, id).value &&
      forall j :: i < j < |ws| ==> ws[j].itemId != id;
    assert i == k;
  }

  /** An item nobody writes to keeps its record. */
  lemma UnwrittenItemKept(inv: map<int, Item>, ws: seq<StockWrite>, id: int)
    requires Targets(inv, ws) && id in inv
    requires forall i :: 0 <= i < |ws| ==> ws[i].itemId != id
    ensures ApplyWrites(inv, ws)[id] == inv[id]
  {
    StockAfterWrites(inv, ws, id);
  }

  /** The unique index on `name`: no two items share a name. */
  ghost predicate NamesUnique(inv: map<int, Item>) {
    forall a, b :: a in inv && b in inv && inv[a].name == inv[b].name ==> a == b
  }

  /** The names in use. */
  function NameSet(inv: map<int, Item>): set<string> {
    set id | id in inv :: inv[id].name
  }

  /** Stock writes never touch names, so they keep the names in use. */
  lemma WritesKeepNames(inv: map<int, Item>, ws: seq<StockWrite>)
    requires Targets(inv, ws)
    ensures NameSet(ApplyWrites(inv, ws)) == NameSet(inv)
    ensures NamesUnique(inv) ==> NamesUnique(ApplyWrites(inv, ws))
  {
    var r := ApplyWrites(inv, ws);
    assert forall id :: id in inv ==> r[id].name == inv[id].name;
  }

  /** With unique names there are exactly as many names as items. */
  lemma {:induction false} UniqueNamesCount(inv: map<int, Item>)
    requires NamesUnique(inv)
    ensures |NameSet(inv)| == |inv|
    decreases |inv|
  {
    if inv.Keys != {} {
      if forall id :: id !in inv.Keys {
        assert false;
      }
      var k :| k in inv.Keys;
      var rest := inv - {k};
      UniqueNamesCount(rest);
      var nk := inv[k].name;
      assert nk !in NameSet(rest);
      assert NameSet(inv) == NameSet(rest) + {nk} by {
        forall n | n in NameSet(inv) ensures n in NameSet(rest) + {nk} {
          var id :| id in inv && inv[id].name == n;
          if id != k { assert id in rest; }
        }
      }
      assert inv.Keys == rest.Keys + {k};
      assert |inv| == |rest| + 1;
    }
  }
}
