/** The in-memory item array the router shares with its tests, and the three
    mutations the handlers apply to it: `push`, a field assignment on one
    record, and `splice(i, 1)`. */
module ItemStore {

  /** One catalog record. Prices are the numbers JavaScript's `+` produced. */
  datatype Item = Item(name: string, price: real)

  /** The store: an array of records, in insertion order. */
  type Store = seq<Item>

  /** Some record of `items` carries exactly the name `name`. */
  ghost predicate Named(items: Store, name: string) {
    exists i :: 0 <= i < |items| && items[i].name == name
  }

  /** No two records share a name. */
  ghost predicate Unique(items: Store) {
    forall i, j :: 0 <= i < j < |items| ==> items[i].name != items[j].name
  }

  /** `items.push(item)`. */
  function Insert(items: Store, item: Item): (r: Store)
    ensures |r| == |items| + 1 && r[|items|] == item
    ensures forall j :: 0 <= j < |items| ==> r[j] == items[j]
  {
    items + [item]
  }

  /** `items.splice(i, 1)`. */
  function RemoveAt(items: Store, i: int): (r: Store)
    requires 0 <= i < |items|
    ensures |r| == |items| - 1
    ensures forall j :: 0 <= j < i ==> r[j] == items[j]
    ensures forall j :: i <= j < |r| ==> r[j] == items[j + 1]
  {
    items[..i] + items[i + 1..]
  }

  /** `record.name = newName` on the record at position `i`. */
  function SetName(items: Store, i: int, newName: string): (r: Store)
    requires 0 <= i < |items|
    ensures |r| == |items| && r[i] == Item(newName, items[i].price)
    ensures forall j :: 0 <= j < |items| && j != i ==> r[j] == items[j]
  {
    items[i := items[i].(name := newName)]
  }

  /** `record.price = newPrice` on the record at position `i`. */
  function SetPrice(items: Store, i: int, newPrice: real): (r: Store)
    requires 0 <= i < |items|
    ensures |r| == |items| && r[i] == Item(items[i].name, newPrice)
    ensures forall j :: 0 <= j < |items| && j != i ==> r[j] == items[j]
  {
    items[i := items[i].(price := newPrice)]
  }

  /** Appending a record under a new name keeps names unique. */
  lemma InsertKeepsUnique(items: Store, item: Item)
    requires Unique(items) && !Named(items, item.name)
    ensures Unique(Insert(items, item))
  {
    var r := Insert(items, item);
    forall i, j | 0 <= i < j < |r|
      ensures r[i].name != r[j].name
    {
      if j == |items| {
        assert r[i] == items[i];
      }
    }
  }

  /** Removing a record keeps names unique, and its name is then gone. */
  lemma RemoveAtKeepsUnique(items: Store, i: int)
    requires Unique(items) && 0 <= i < |items|
    ensures Unique(RemoveAt(items, i))
    ensures !Named(RemoveAt(items, i), items[i].name)
  {
    var r := RemoveAt(items, i);
    forall a, b | 0 <= a < b < |r|
      ensures r[a].name != r[b].name
    {
      var a' := if a < i then a else a + 1;
      var b' := if b < i then b else b + 1;
      assert r[a] == items[a'] && r[b] == items[b'];
    }
    forall k | 0 <= k < |r|
      ensures r[k].name != items[i].name
    {
      var k' := if k < i then k else k + 1;
      assert r[k] == items[k'];
    }
  }

  /** Renaming a record to a name no record has keeps names unique. */
  lemma SetNameKeepsUnique(items: Store, i: int, newName: string)
    requires Unique(items) && 0 <= i < |items| && !Named(items, newName)
    ensures Unique(SetName(items, i, newName))
  {
    var r := SetName(items, i, newName);
    forall a, b | 0 <= a < b < |r|
      ensures r[a].name != r[b].name
    {
      if a == i {
        assert r[b] == items[b];
      } else if b == i {
        assert r[a] == items[a];
      } else {
        assert r[a] == items[a] && r[b] == items[b];
      }
    }
  }

  /** Changing a price does not touch any name. */
  lemma SetPriceKeepsUnique(items: Store, i: int, newPrice: real)
    requires Unique(items) && 0 <= i < |items|
    ensures Unique(SetPrice(items, i, newPrice))
  {
    var r := SetPrice(items, i, newPrice);
    forall a, b | 0 <= a < b < |r|
      ensures r[a].name != r[b].name
    {
      assert r[a].name == items[a].name && r[b].name == items[b].name;
    }
  }
}
