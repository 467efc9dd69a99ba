/**
 * The packing-list item store: the record type, the seed list, and the four
 * transforms that `App` applies to its `items` state. Each transform builds a
 * new sequence from the previous one; none of them fails.
 *
 * Ids are the numbers the form takes from the clock, so nothing prevents two
 * records from sharing one (the seed ids are 1 and 2). Every property of the
 * transforms is therefore stated over ALL records carrying the id; the
 * "exactly one record" forms are stated only under `UniqueIds`.
 */
module ItemStore {

  /** One packing-list entry. */
  datatype Item = Item(id: int, description: string, quantity: int, packed: bool)

  /** The two example records `App` starts with: ids 1 and 2, which are distinct. */
  function Seed(): (r: seq<Item>)
    ensures |r| == 2
    ensures UniqueIds(r)
    ensures HasId(r, 1) && HasId(r, 2)
  {
    var r := [ Item(1, "Shirt", 5, false),
               Item(2, "Pants", 2, true) ];
    assert r[0].id == 1 && r[1].id == 2;
    r
  }

  /** Some record of `items` carries `id`. */
  predicate HasId(items: seq<Item>, id: int)
  {
    exists i :: 0 <= i < |items| && items[i].id == id
  }

  /** No two records of `items` share an id. */
  predicate UniqueIds(items: seq<Item>)
  {
    forall i, j :: 0 <= i < j < |items| ==> items[i].id != items[j].id
  }

  /** The ids of `items`, in order. */
  function Ids(items: seq<Item>): (r: seq<int>)
    ensures |r| == |items|
    ensures forall i :: 0 <= i < |items| ==> r[i] == items[i].id
  {
    seq(|items|, i requires 0 <= i < |items| => items[i].id)
  }

  /** `r` is `s` with some records left out, the rest in their original order. */
  predicate SubsequenceOf(r: seq<Item>, s: seq<Item>)
    decreases |s|
  {
    if r == [] then true
    else if s == [] then false
    else (r[0] == s[0] && SubsequenceOf(r[1..], s[1..])) || SubsequenceOf(r, s[1..])
  }

  // ---------------------------------------------------------------------------
  // handleAddItem

  /** `handleAddItem`: the new record goes at the end. */
  function HandleAddItem(items: seq<Item>, newItem: Item): (r: seq<Item>)
    ensures |r| == |items| + 1
    ensures r[..|items|] == items
    ensures r[|items|] == newItem
  {
    items + [newItem]
  }

  /** Adding a record whose id is not yet used keeps the ids unique. */
  lemma HandleAddItemKeepsUnique(items: seq<Item>, newItem: Item)
    requires UniqueIds(items)
    requires !HasId(items, newItem.id)
    ensures UniqueIds(HandleAddItem(items, newItem))
  {
    var r := HandleAddItem(items, newItem);
    forall i, j | 0 <= i < j < |r|
      ensures r[i].id != r[j].id
    {
      if j == |items| {
        assert r[i] == items[i];
      } else {
        assert r[i] == items[i] && r[j] == items[j];
      }
    }
  }

  // ---------------------------------------------------------------------------
  // togglePacked

  /**
   * `togglePacked(id)`: every record whose id is `id` has its packed flag
   * flipped; everything else, including the other fields of those records,
   * stays as it was, in the same order.
   */
  function TogglePacked(items: seq<Item>, id: int): (r: seq<Item>)
    ensures |r| == |items|
    ensures forall i :: 0 <= i < |items| ==>
      && r[i].id == items[i].id
      && r[i].description == items[i].description
      && r[i].quantity == items[i].quantity
      && r[i].packed == (if items[i].id == id then !items[i].packed else items[i].packed)
  {
    if items == [] then []
    else
      var item := items[0];
      var head := if item.id == id then item.(packed := !item.packed) else item;
      [head] + TogglePacked(items[1..], id)
  }

  /** Toggling the same id twice gives back the original list. */
  lemma TogglePackedTwice(items: seq<Item>, id: int)
    ensures TogglePacked(TogglePacked(items, id), id) == items
  {
    var r := TogglePacked(TogglePacked(items, id), id);
    assert forall i | 0 <= i < |items| :: r[i] == items[i];
  }

  /** Toggling an id no record carries changes nothing. */
  lemma TogglePackedAbsent(items: seq<Item>, id: int)
    requires !HasId(items, id)
    ensures TogglePacked(items, id) == items
  {
    var r := TogglePacked(items, id);
    assert forall i | 0 <= i < |items| :: r[i] == items[i];
  }

  /** Toggling never changes any id, so it keeps ids unique. */
  lemma TogglePackedKeepsIds(items: seq<Item>, id: int)
    ensures Ids(TogglePacked(items, id)) == Ids(items)
    ensures UniqueIds(items) ==> UniqueIds(TogglePacked(items, id))
  {
  }

  /** With unique ids, toggling a present id changes exactly the one record at `k`. */
  lemma TogglePackedUnique(items: seq<Item>, id: int, k: int)
    requires UniqueIds(items)
    requires 0 <= k < |items| && items[k].id == id
    ensures TogglePacked(items, id)[k] == items[k].(packed := !items[k].packed)
    ensures forall i :: 0 <= i < |items| && i != k ==> TogglePacked(items, id)[i] == items[i]
  {
    var r := TogglePacked(items, id);
    forall i | 0 <= i < |items| && i != k
      ensures r[i] == items[i]
    {
      if i < k { assert items[i].id != items[k].id; }
      else { assert items[k].id != items[i].id; }
    }
  }

  // ---------------------------------------------------------------------------
  // updateQuantity

  /**
   * `updateQuantity(id, quantity)`: every record whose id is `id` gets the
   * new quantity; nothing else changes and the order is kept. No bound is
   * placed on the quantity.
   */
  function UpdateQuantity(items: seq<Item>, id: int, quantity: int): (r: seq<Item>)
    ensures |r| == |items|
    ensures forall i :: 0 <= i < |items| ==>
      && r[i].id == items[i].id
      && r[i].description == items[i].description
      && r[i].quantity == (if items[i].id == id then quantity else items[i].quantity)
      && r[i].packed == items[i].packed
  {
    if items == [] then []
    else
      var item := items[0];
      var head := if item.id == id then item.(quantity := quantity) else item;
      [head] + UpdateQuantity(items[1..], id, quantity)
  }

  /** A second update of the same id overrides the first. */
  lemma UpdateQuantityLastWins(items: seq<Item>, id: int, q1: int, q2: int)
    ensures UpdateQuantity(UpdateQuantity(items, id, q1), id, q2) == UpdateQuantity(items, id, q2)
  {
    var r := UpdateQuantity(UpdateQuantity(items, id, q1), id, q2);
    var t := UpdateQuantity(items, id, q2);
    assert forall i | 0 <= i < |items| :: r[i] == t[i];
  }

  /** Setting the same quantity twice is the same as setting it once. */
  lemma UpdateQuantityIdempotent(items: seq<Item>, id: int, quantity: int)
    ensures UpdateQuantity(UpdateQuantity(items, id, quantity), id, quantity)
         == UpdateQuantity(items, id, quantity)
  {
    UpdateQuantityLastWins(items, id, quantity, quantity);
  }

  /** Updating an id no record carries changes nothing. */
  lemma UpdateQuantityAbsent(items: seq<Item>, id: int, quantity: int)
    requires !HasId(items, id)
    ensures UpdateQuantity(items, id, quantity) == items
  {
    var r := UpdateQuantity(items, id, quantity);
    assert forall i | 0 <= i < |items| :: r[i] == items[i];
  }

  /** Updating never changes any id, so it keeps ids unique. */
  lemma UpdateQuantityKeepsIds(items: seq<Item>, id: int, quantity: int)
    ensures Ids(UpdateQuantity(items, id, quantity)) == Ids(items)
    ensures UniqueIds(items) ==> UniqueIds(UpdateQuantity(items, id, quantity))
  {
  }

  /** Toggling and updating touch different fields, so their order does not matter. */
  lemma TogglePackedUpdateQuantityCommute(items: seq<Item>, id1: int, id2: int, quantity: int)
    ensures TogglePacked(UpdateQuantity(items, id2, quantity), id1)
         == UpdateQuantity(TogglePacked(items, id1), id2, quantity)
  {
    var r := TogglePacked(UpdateQuantity(items, id2, quantity), id1);
    var t := UpdateQuantity(TogglePacked(items, id1), id2, quantity);
    assert forall i | 0 <= i < |items| :: r[i] == t[i];
  }

  // ---------------------------------------------------------------------------
  // deleteItem

  /**
   * `deleteItem(id)`: keeps exactly the records whose id is not `id`; each
   * survivor keeps its multiplicity, and (see `DeleteItemKeepsOrder`) its
   * relative order.
   */
  function DeleteItem(items: seq<Item>, id: int): (r: seq<Item>)
    ensures |r| <= |items|
    ensures forall i :: 0 <= i < |r| ==> r[i].id != id
    ensures forall x :: multiset(r)[x] == if x.id == id then 0 else multiset(items)[x]
  {
    if items == [] then []
    else
      assert items == [items[0]] + items[1..];
      if items[0].id == id then DeleteItem(items[1..], id)
      else [items[0]] + DeleteItem(items[1..], id)
  }

  /** The survivors of a delete appear in `items` in the same relative order. */
  lemma {:induction false} DeleteItemKeepsOrder(items: seq<Item>, id: int)
    ensures SubsequenceOf(DeleteItem(items, id), items)
  {
    if items != [] {
      DeleteItemKeepsOrder(items[1..], id);
      var rest := DeleteItem(items[1..], id);
      if items[0].id != id {
        assert DeleteItem(items, id) == [items[0]] + rest;
        assert ([items[0]] + rest)[1..] == rest;
      }
    }
  }

  /** Deleting an id no record carries changes nothing. */
  lemma {:induction false} DeleteItemAbsent(items: seq<Item>, id: int)
    requires !HasId(items, id)
    ensures DeleteItem(items, id) == items
  {
    if items != [] {
      assert items[0].id != id;
      assert !HasId(items[1..], id) by {
        forall i | 0 <= i < |items[1..]| ensures items[1..][i].id != id {
          assert items[1..][i] == items[i + 1];
        }
      }
      DeleteItemAbsent(items[1..], id);
      assert items == [items[0]] + items[1..];
    }
  }

  /** Deleting the same id twice is the same as deleting it once. */
  lemma DeleteItemIdempotent(items: seq<Item>, id: int)
    ensures DeleteItem(DeleteItem(items, id), id) == DeleteItem(items, id)
  {
    DeleteItemAbsent(DeleteItem(items, id), id);
  }

  /** Deleting from a concatenation deletes from each part. */
  lemma {:induction false} DeleteItemConcat(a: seq<Item>, b: seq<Item>, id: int)
    ensures DeleteItem(a + b, id) == DeleteItem(a, id) + DeleteItem(b, id)
  {
    if a == [] {
      assert a + b == b;
    } else {
      assert (a + b)[0] == a[0];
      assert (a + b)[1..] == a[1..] + b;
      DeleteItemConcat(a[1..], b, id);
    }
  }

  /**
   * With unique ids, deleting a present id removes exactly the one record
   * carrying it: the result is the list with position `k` cut out, one shorter.
   */
  lemma DeleteItemUnique(items: seq<Item>, id: int, k: int)
    requires UniqueIds(items)
    requires 0 <= k < |items| && items[k].id == id
    ensures DeleteItem(items, id) == items[..k] + items[k + 1..]
    ensures |DeleteItem(items, id)| == |items| - 1
  {
    var before, after := items[..k], items[k + 1..];
    assert items == before + ([items[k]] + after);
    assert !HasId(before, id) by {
      forall i | 0 <= i < |before| ensures before[i].id != id {
        assert before[i] == items[i];
      }
    }
    assert !HasId(after, id) by {
      forall i | 0 <= i < |after| ensures after[i].id != id {
        assert after[i] == items[k + 1 + i];
      }
    }
    DeleteItemConcat(before, [items[k]] + after, id);
    DeleteItemConcat([items[k]], after, id);
    DeleteItemAbsent(before, id);
    DeleteItemAbsent(after, id);
    assert DeleteItem([items[k]], id) == [];
  }

  /** Putting a record in front of a list keeps ids unique when its id is new. */
  lemma ConsKeepsUnique(x: Item, t: seq<Item>)
    requires UniqueIds(t)
    requires forall k :: 0 <= k < |t| ==> t[k].id != x.id
    ensures UniqueIds([x] + t)
  {
    var r := [x] + t;
    forall i, j | 0 <= i < j < |r| ensures r[i].id != r[j].id {
      assert r[j] == t[j - 1];
      if i > 0 {
        assert r[i] == t[i - 1];
      }
    }
  }

  /** A delete keeps ids unique. */
  lemma {:induction false} DeleteItemKeepsUnique(items: seq<Item>, id: int)
    requires UniqueIds(items)
    ensures UniqueIds(DeleteItem(items, id))
  {
    if items != [] {
      var tail := items[1..];
      assert UniqueIds(tail) by {
        forall i, j | 0 <= i < j < |tail| ensures tail[i].id != tail[j].id {
          assert tail[i] == items[i + 1] && tail[j] == items[j + 1];
        }
      }
      DeleteItemKeepsUnique(tail, id);
      if items[0].id != id {
        var rest := DeleteItem(tail, id);
        forall k | 0 <= k < |rest| ensures rest[k].id != items[0].id {
          var y := rest[k];
          assert multiset(rest)[y] > 0;
          assert y in tail;
          var m :| 0 <= m < |tail| && tail[m] == y;
          assert tail[m] == items[m + 1];
        }
        ConsKeepsUnique(items[0], rest);
      }
    }
  }
}
