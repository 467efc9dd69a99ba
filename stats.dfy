/**
 * The `Stats` footer: the number of records, the number already packed, and
 * the packed percentage rounded to the nearest whole number, which decides
 * whether the footer says "You got everything!".
 *
 * The source divides in floating point and rounds with `Math.round`; here the
 * exact ratio is rounded half up in integers. The floating-point computation
 * can come out one lower where the exact product is a half (23 of 40 records:
 * 57.49999999999999 rounds to 57, the exact 57.5 to 58).
 */
module PackingStats {
  import opened ItemStore

  /** What the footer shows. */
  datatype StatsView = StatsView(totalItems: nat, packedItems: nat, percentagePacked: int)

  /** The number of records whose packed flag is set (the length of the filtered list). */
  function PackedItems(items: seq<Item>): (r: nat)
    ensures r <= |items|
    ensures r == |items| <==> forall i :: 0 <= i < |items| ==> items[i].packed
    ensures r == 0 <==> forall i :: 0 <= i < |items| ==> !items[i].packed
  {
    if items == [] then 0
    else
      assert forall i :: 1 <= i < |items| ==> items[i] == items[1..][i - 1];
      (if items[0].packed then 1 else 0) + PackedItems(items[1..])
  }

  /**
   * `packed / total * 100` rounded half up, or 0 for an empty list: `r` is the
   * whole number nearest to `100 * packed / total`, a tie going to the larger.
   */
  function PercentagePacked(total: nat, packed: nat): (r: int)
    ensures total == 0 ==> r == 0
    ensures total > 0 ==> 200 * packed - total < 2 * total * r <= 200 * packed + total
  {
    if total > 0 then (200 * packed + total) / (2 * total) else 0
  }

  /** The footer for `items`. */
  function Stats(items: seq<Item>): (r: StatsView)
    ensures r.totalItems == |items|
    ensures r.packedItems <= r.totalItems
    ensures 0 <= r.percentagePacked <= 100
    ensures |items| == 0 ==> r == StatsView(0, 0, 0)
  {
    var total := |items|;
    var packed := PackedItems(items);
    PercentageBounds(total, packed);
    StatsView(total, packed, PercentagePacked(total, packed))
  }

  /**
   * The footer's branch condition, `percentagePacked === 100`: it holds
   * exactly when the list is non-empty and at most one record in 200 is
   * unpacked; so it does not follow that every record is packed
   * (`NearlyAllPackedRoundsUp`).
   */
  predicate GotEverything(items: seq<Item>): (b: bool)
    ensures b <==> |items| > 0 && 200 * (|items| - PackedItems(items)) <= |items|
  {
    PercentageIsHundred(|items|, PackedItems(items));
    Stats(items).percentagePacked == 100
  }

  // ---------------------------------------------------------------------------
  // Arithmetic of the percentage

  /** Dividing both sides of `a * t < b * t` by a positive `t`. */
  lemma CancelFactor(a: int, b: int, t: int)
    requires t > 0
    requires a * t < b * t
    ensures a < b
  {
  }

  /**
   * Any `r` that is `100 * packed / total` rounded to the nearest whole number
   * lies in 0..100 when `packed <= total`, and is 100 exactly when at most
   * one record in 200 is unpacked.
   */
  lemma NearestPercentage(total: int, packed: int, r: int)
    requires 0 <= packed <= total && total > 0
    requires 200 * packed - total < 2 * total * r <= 200 * packed + total
    ensures 0 <= r <= 100
    ensures r == 100 <==> 200 * (total - packed) <= total
  {
    var t2 := 2 * total;
    assert t2 * r == r * t2;
    assert -1 * t2 < r * t2;
    CancelFactor(-1, r, t2);
    assert r * t2 < 101 * t2;
    CancelFactor(r, 101, t2);
    if 200 * (total - packed) <= total {
      assert 99 * t2 < r * t2;
      CancelFactor(99, r, t2);
    } else {
      assert r * t2 < 100 * t2;
      CancelFactor(r, 100, t2);
    }
  }

  /** The percentage of at most `total` packed records lies in 0..100. */
  lemma PercentageBounds(total: nat, packed: nat)
    requires packed <= total
    ensures 0 <= PercentagePacked(total, packed) <= 100
  {
    if total > 0 {
      NearestPercentage(total, packed, PercentagePacked(total, packed));
    }
  }

  /** The percentage is exactly 100 precisely when at most one record in 200 is unpacked. */
  lemma PercentageIsHundred(total: nat, packed: nat)
    requires packed <= total
    ensures PercentagePacked(total, packed) == 100 <==> total > 0 && 200 * (total - packed) <= total
  {
    if total > 0 {
      NearestPercentage(total, packed, PercentagePacked(total, packed));
    }
  }

  // ---------------------------------------------------------------------------
  // Properties of the footer

  /** A non-empty list whose every record is packed shows "You got everything!". */
  lemma AllPackedGotEverything(items: seq<Item>)
    requires |items| > 0
    requires forall i :: 0 <= i < |items| ==> items[i].packed
    ensures Stats(items).packedItems == |items|
    ensures Stats(items).percentagePacked == 100
    ensures GotEverything(items)
  {
    PercentageIsHundred(|items|, |items|);
  }

  /** 199 packed records out of 200 already round to 100 percent. */
  lemma NearlyAllPackedRoundsUp()
    ensures PercentagePacked(200, 199) == 100
  {
  }

  /** The footer of the seed list: two records, one packed, 50 percent. */
  lemma SeedStats()
    ensures Stats(Seed()) == StatsView(2, 1, 50)
  {
    var s := Seed();
    assert s[1..][1..] == [];
    assert PackedItems(s) == 1;
  }

  /** Counting packed records distributes over concatenation. */
  lemma {:induction false} PackedItemsConcat(a: seq<Item>, b: seq<Item>)
    ensures PackedItems(a + b) == PackedItems(a) + PackedItems(b)
  {
    if a == [] {
      assert a + b == b;
    } else {
      assert (a + b)[0] == a[0];
      assert (a + b)[1..] == a[1..] + b;
      PackedItemsConcat(a[1..], b);
    }
  }

  /** Adding a record raises the packed count by one exactly when the record is packed. */
  lemma PackedItemsAfterAdd(items: seq<Item>, newItem: Item)
    ensures PackedItems(HandleAddItem(items, newItem))
         == PackedItems(items) + (if newItem.packed then 1 else 0)
  {
    PackedItemsConcat(items, [newItem]);
    assert PackedItems([newItem]) == (if newItem.packed then 1 else 0) by {
      assert [newItem][1..] == [];
    }
  }

  /** Changing a quantity never changes the packed count, hence not the footer. */
  lemma {:induction false} StatsAfterUpdateQuantity(items: seq<Item>, id: int, quantity: int)
    ensures Stats(UpdateQuantity(items, id, quantity)) == Stats(items)
  {
    PackedItemsSameFlags(items, UpdateQuantity(items, id, quantity));
  }

  /** Two lists with the same packed flags position by position have the same packed count. */
  lemma {:induction false} PackedItemsSameFlags(a: seq<Item>, b: seq<Item>)
    requires |a| == |b|
    requires forall i :: 0 <= i < |a| ==> a[i].packed == b[i].packed
    ensures PackedItems(a) == PackedItems(b)
  {
    if a != [] {
      assert forall i :: 0 <= i < |a| - 1 ==> a[1..][i] == a[i + 1] && b[1..][i] == b[i + 1];
      PackedItemsSameFlags(a[1..], b[1..]);
    }
  }

  /**
   * With unique ids, toggling the record at `k` moves the packed count by one:
   * down if it was packed, up if it was not.
   */
  lemma StatsAfterTogglePacked(items: seq<Item>, id: int, k: int)
    requires UniqueIds(items)
    requires 0 <= k < |items| && items[k].id == id
    ensures PackedItems(TogglePacked(items, id))
         == PackedItems(items) + (if items[k].packed then -1 else 1)
  {
    var r := TogglePacked(items, id);
    TogglePackedUnique(items, id, k);
    assert items == items[..k] + [items[k]] + items[k + 1..];
    assert r == r[..k] + [r[k]] + r[k + 1..];
    PackedItemsConcat(items[..k] + [items[k]], items[k + 1..]);
    PackedItemsConcat(items[..k], [items[k]]);
    PackedItemsConcat(r[..k] + [r[k]], r[k + 1..]);
    PackedItemsConcat(r[..k], [r[k]]);
    assert r[..k] == items[..k];
    assert r[k + 1..] == items[k + 1..];
    assert [items[k]][1..] == [] && [r[k]][1..] == [];
  }

  /** The number of records carrying `id` whose packed flag is `packed`. */
  function CountWithId(items: seq<Item>, id: int, packed: bool): (r: nat)
    ensures r <= |items|
    ensures r == 0 <==> forall i :: 0 <= i < |items| ==> items[i].id != id || items[i].packed != packed
  {
    if items == [] then 0
    else
      assert forall i :: 1 <= i < |items| ==> items[i] == items[1..][i - 1];
      (if items[0].id == id && items[0].packed == packed then 1 else 0)
        + CountWithId(items[1..], id, packed)
  }

  /**
   * Toggling an id, whether or not ids are unique, takes out the packed
   * records carrying it and puts in the unpacked ones.
   */
  lemma {:induction false} PackedItemsAfterToggle(items: seq<Item>, id: int)
    ensures PackedItems(TogglePacked(items, id))
         == PackedItems(items) - CountWithId(items, id, true) + CountWithId(items, id, false)
  {
    if items != [] {
      var r := TogglePacked(items, id);
      var rest := TogglePacked(items[1..], id);
      PackedItemsAfterToggle(items[1..], id);
      assert r == [r[0]] + rest;
      assert r[1..] == rest;
    }
  }

  /** Deleting an id lowers the packed count by the number of packed records carrying it. */
  lemma {:induction false} PackedItemsAfterDelete(items: seq<Item>, id: int)
    ensures PackedItems(DeleteItem(items, id)) == PackedItems(items) - CountWithId(items, id, true)
    ensures PackedItems(DeleteItem(items, id)) <= PackedItems(items)
  {
    if items != [] {
      PackedItemsAfterDelete(items[1..], id);
      if items[0].id != id {
        var rest := DeleteItem(items[1..], id);
        assert DeleteItem(items, id) == [items[0]] + rest;
        assert ([items[0]] + rest)[1..] == rest;
      }
    }
  }
}
