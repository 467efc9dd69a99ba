/**
 * The `App` component's state: a single cell holding the item list. Each
 * handler replaces the list by the result of the matching transform of
 * `ItemStore`; nothing else is stored.
 */
module PackingApp {
  import ItemStore
  import PackingStats

  class App {
    /** The `items` state cell. */
    var items: seq<ItemStore.Item>

    /** The cell starts out holding the two seed records. */
    constructor ()
      ensures items == ItemStore.Seed()
    {
      items := ItemStore.Seed();
    }

    /** `handleAddItem`: append the record the form built. */
    method HandleAddItem(newItem: ItemStore.Item)
      modifies this
      ensures items == ItemStore.HandleAddItem(old(items), newItem)
    {
      items := ItemStore.HandleAddItem(items, newItem);
    }

    /** `togglePacked`: flip the packed flag of every record carrying `id`. */
    method TogglePacked(id: int)
      modifies this
      ensures items == ItemStore.TogglePacked(old(items), id)
    {
      items := ItemStore.TogglePacked(items, id);
    }

    /** `updateQuantity`: set the quantity of every record carrying `id`. */
    method UpdateQuantity(id: int, quantity: int)
      modifies this
      ensures items == ItemStore.UpdateQuantity(old(items), id, quantity)
    {
      items := ItemStore.UpdateQuantity(items, id, quantity);
    }

    /** `deleteItem`: drop every record carrying `id`. */
    method DeleteItem(id: int)
      modifies this
      ensures items == ItemStore.DeleteItem(old(items), id)
    {
      items := ItemStore.DeleteItem(items, id);
    }

    /** What the `Stats` footer shows for the current list. */
    function Footer(): (r: PackingStats.StatsView)
      reads this
      ensures r.totalItems == |items|
      ensures r.packedItems == PackingStats.PackedItems(items)
    {
      PackingStats.Stats(items)
    }
  }
}
