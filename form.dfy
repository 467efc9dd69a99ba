/**
 * The add-item form: its two pieces of state (the description typed so far
 * and the quantity selected) and its submit handler, which hands a new
 * unpacked record to the app and clears itself, unless the description is
 * empty, in which case nothing at all happens.
 *
 * The record's id comes from the clock in the source; here the caller passes
 * the clock reading in as `now`.
 */
module PackingForm {
  import opened ItemStore
  import PackingApp

  /**
   * The list after submitting a form that holds `description` and `quantity`,
   * with `id` read from the clock.
   */
  function Submit(items: seq<Item>, description: string, quantity: int, id: int): (r: seq<Item>)
    ensures description == "" ==> r == items
    ensures description != "" ==>
      && |r| == |items| + 1
      && r[..|items|] == items
      && r[|items|] == Item(id, description, quantity, false)
  {
    if description != "" then HandleAddItem(items, Item(id, description, quantity, false))
    else items
  }

  /** A submitted record is never packed, whatever the form held. */
  lemma SubmitAddsUnpacked(items: seq<Item>, description: string, quantity: int, id: int)
    ensures forall x :: x in Submit(items, description, quantity, id) && x !in items ==> !x.packed
  {
    var r := Submit(items, description, quantity, id);
    if description != "" {
      assert r == items + [Item(id, description, quantity, false)];
    }
  }

  class Form {
    /** The text typed into the description input. */
    var description: string
    /** The value chosen in the quantity selector. */
    var quantity: int

    /** A fresh form is empty with quantity 1. */
    constructor ()
      ensures description == "" && quantity == 1
    {
      description, quantity := "", 1;
    }

    /** The description input's change handler. */
    method SetDescription(text: string)
      modifies this
      ensures description == text && quantity == old(quantity)
    {
      description := text;
    }

    /** The quantity selector's change handler. */
    method SetQuantity(value: int)
      modifies this
      ensures quantity == value && description == old(description)
    {
      quantity := value;
    }

    /**
     * `handleSubmit`: with an empty description nothing changes; otherwise
     * the record is appended to `app`'s list and the form is reset to `""`
     * and `1`.
     */
    method HandleSubmit(app: PackingApp.App, now: int)
      modifies this, app
      ensures app.items == Submit(old(app.items), old(description), old(quantity), now)
      ensures old(description) == "" ==> description == old(description) && quantity == old(quantity)
      ensures old(description) != "" ==> description == "" && quantity == 1
    {
      if description != "" {
        var newItem := Item(now, description, quantity, false);
        app.HandleAddItem(newItem);
        description := "";
        quantity := 1;
      }
    }
  }
}
