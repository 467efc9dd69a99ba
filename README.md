# Packing list item store, in Dafny

A model of the logic of a small travel-packing-list web page (a React
component file, `src/components/App.js`). The page keeps one ordered list of
records `{id, description, quantity, packed}`, seeded with two examples
("Shirt" ×5 unpacked, id 1; "Pants" ×2 packed, id 2). The list changes only
through four handlers, each of which builds a new list from the old one:

- add a record at the end (called by the add-item form);
- toggle the packed flag of the records with a given id;
- set the quantity of the records with a given id;
- delete the records with a given id.

The add-item form ignores a submission with an empty description; otherwise
it builds an unpacked record and then clears itself back to `""` and `1`. A
footer shows the number of records, how many are packed, and the packed
percentage rounded to a whole number; at exactly 100 it says
"You got everything!".

Files:

- `item_store.dfy`, module `ItemStore`: the `Item` datatype, the seed list and
  the four transforms as pure functions, with their laws (order and length
  kept, nothing else changed, toggle is an involution, quantity update is
  idempotent and last-write-wins, delete keeps survivors in order, absent ids
  are no-ops, id uniqueness is preserved, and the "exactly one record" forms
  under unique ids).
- `stats.dfy`, module `PackingStats`: the footer's numbers, the integer
  half-up rounding, the exact condition for "You got everything!", and how
  each transform moves the packed count.
- `app.dfy`, module `PackingApp`: class `App`, whose `items` field is the
  state cell each handler overwrites with the transform's result.
- `form.dfy`, module `PackingForm`: class `Form` with its description and
  quantity fields, their change handlers, and the submit handler that appends
  to an `App` and resets the form; `Submit` is the pure effect on the list.

Ids are numbers read from the clock when a record is submitted; nothing in the
code makes ids unique (two submissions in the same millisecond collide), and
`deleteItem` filters out every matching record. So every transform law is
stated over all records carrying the id, and the "changes exactly one record" /
"removes exactly one record" laws carry an explicit `UniqueIds` precondition.

The footer's branch "You got everything!" is taken when the rounded
percentage is 100, which happens exactly when the list is non-empty and at most
one record in 200 is unpacked (`GotEverything`). So a list where every
record is packed always shows it, but 199 packed out of 200 shows it too
(`NearlyAllPackedRoundsUp`).

## Model

| member | source | states |
|---|---|---|
| `ItemStore.Seed` | src/components/App.js:130-133 | the initial list has two records, carrying ids 1 and 2, which are distinct |
| `ItemStore.HandleAddItem` | src/components/App.js:135-137 | the list grows by exactly one, every earlier record is unchanged and in place, and the new record is last |
| `ItemStore.HandleAddItemKeepsUnique` | src/components/App.js:135-137 | appending a record whose id is not yet in the list keeps all ids distinct |
| `ItemStore.TogglePacked` | src/components/App.js:139-145 | same length and order; each record with the id has its packed flag negated and its id, description and quantity kept; every other record is unchanged |
| `ItemStore.TogglePackedTwice` | src/components/App.js:139-145 | toggling the same id twice returns the original list |
| `ItemStore.TogglePackedAbsent` | src/components/App.js:139-145 | toggling an id no record carries leaves the list unchanged |
| `ItemStore.TogglePackedKeepsIds` | src/components/App.js:139-145 | the sequence of ids is unchanged, so distinct ids stay distinct |
| `ItemStore.TogglePackedUnique` | src/components/App.js:139-145 | with distinct ids, exactly the one record carrying the id changes, and only in its packed flag |
| `ItemStore.UpdateQuantity` | src/components/App.js:147-153 | same length and order; each record with the id gets the new quantity with its other fields kept; every other record is unchanged |
| `ItemStore.UpdateQuantityLastWins` | src/components/App.js:147-153 | a second quantity update of the same id overrides the first |
| `ItemStore.UpdateQuantityIdempotent` | src/components/App.js:147-153 | setting the same quantity twice equals setting it once |
| `ItemStore.UpdateQuantityAbsent` | src/components/App.js:147-153 | updating an id no record carries leaves the list unchanged |
| `ItemStore.UpdateQuantityKeepsIds` | src/components/App.js:147-153 | the sequence of ids is unchanged, so distinct ids stay distinct |
| `ItemStore.TogglePackedUpdateQuantityCommute` | src/components/App.js:139-153 | toggling and updating a quantity give the same list in either order |
| `ItemStore.DeleteItem` | src/components/App.js:155-157 | no survivor carries the id; every record without the id survives with its multiplicity; records with the id are gone; the list never grows |
| `ItemStore.DeleteItemKeepsOrder` | src/components/App.js:155-157 | the survivors are a subsequence of the original list (relative order kept) |
| `ItemStore.DeleteItemAbsent` | src/components/App.js:155-157 | deleting an id no record carries leaves the list unchanged |
| `ItemStore.DeleteItemIdempotent` | src/components/App.js:155-157 | deleting the same id twice equals deleting it once |
| `ItemStore.DeleteItemConcat` | src/components/App.js:155-157 | deleting from a concatenation deletes from each part separately |
| `ItemStore.DeleteItemUnique` | src/components/App.js:155-157 | with distinct ids, deleting a present id cuts out exactly its position, so the length drops by exactly one |
| `ItemStore.DeleteItemKeepsUnique` | src/components/App.js:155-157 | deleting keeps distinct ids distinct |
| `PackingStats.PackedItems` | src/components/App.js:114 | the packed count is at most the length, equals it exactly when every record is packed, and is 0 exactly when none is |
| `PackingStats.PercentagePacked` | src/components/App.js:117-118 | 0 for an empty list; otherwise the whole number nearest to 100·packed/total, ties rounded up |
| `PackingStats.Stats` | src/components/App.js:109-118 | total is the list length, the packed count is at most the total, the percentage lies in 0..100, and the empty list gives 0, 0, 0 |
| `PackingStats.NearestPercentage` | src/components/App.js:117-118 | any nearest-whole-number percentage of at most total packed records lies in 0..100 and is 100 exactly when 200·unpacked ≤ total |
| `PackingStats.PercentageBounds` | src/components/App.js:117-118 | the percentage lies in 0..100 whenever packed ≤ total |
| `PackingStats.PercentageIsHundred` | src/components/App.js:117-118 | the percentage is 100 exactly when total > 0 and 200·unpacked ≤ total |
| `PackingStats.AllPackedGotEverything` | src/components/App.js:117-123 | a non-empty, fully packed list has packed count = length and percentage 100, so the "You got everything!" branch is taken |
| `PackingStats.GotEverything` | src/components/App.js:123 | the `percentagePacked === 100` branch ("You got everything!") is taken exactly when the list is non-empty and 200·unpacked ≤ length |
| `PackingStats.NearlyAllPackedRoundsUp` | src/components/App.js:117-118 | 199 packed of 200 already rounds to 100 |
| `PackingStats.SeedStats` | src/components/App.js:130-133 | the seed list's footer is total 2, packed 1, 50 percent |
| `PackingStats.PackedItemsConcat` | src/components/App.js:114 | the packed count of a concatenation is the sum of the parts' counts |
| `PackingStats.PackedItemsAfterAdd` | src/components/App.js:135-137 | adding a record raises the packed count by one exactly when the record is packed |
| `PackingStats.PackedItemsSameFlags` | src/components/App.js:114 | the packed count depends only on the packed flags, position by position |
| `PackingStats.StatsAfterUpdateQuantity` | src/components/App.js:147-153 | a quantity update leaves the whole footer unchanged |
| `PackingStats.StatsAfterTogglePacked` | src/components/App.js:139-145 | with distinct ids, toggling a present id moves the packed count down by one if that record was packed, up by one otherwise |
| `PackingStats.CountWithId` | src/components/App.js:114 | the number of records carrying an id with a given packed flag is at most the length, and 0 exactly when no record carries that id with that flag |
| `PackingStats.PackedItemsAfterToggle` | src/components/App.js:139-145 | without any uniqueness assumption, toggling an id changes the packed count by the number of unpacked records with the id minus the number of packed ones |
| `PackingStats.PackedItemsAfterDelete` | src/components/App.js:155-157 | deleting an id lowers the packed count by exactly the number of packed records carrying it, so it never rises |
| `PackingApp.App.constructor` | src/components/App.js:130-133 | the list starts as the two seed records |
| `PackingApp.App.HandleAddItem` | src/components/App.js:135-137 | the state becomes the old list with the record appended |
| `PackingApp.App.TogglePacked` | src/components/App.js:139-145 | the state becomes the toggled old list |
| `PackingApp.App.UpdateQuantity` | src/components/App.js:147-153 | the state becomes the old list with the quantity updated |
| `PackingApp.App.DeleteItem` | src/components/App.js:155-157 | the state becomes the old list with the id filtered out |
| `PackingApp.App.Footer` | src/components/App.js:169 | the footer rendered for the current state counts its records and its packed records |
| `PackingForm.Submit` | src/components/App.js:11-24 | an empty description leaves the list unchanged; otherwise exactly one record is appended, carrying the clock id, the description, the quantity and packed = false |
| `PackingForm.SubmitAddsUnpacked` | src/components/App.js:14-19 | every record a submission adds is unpacked |
| `PackingForm.Form.constructor` | src/components/App.js:8-9 | a new form holds description "" and quantity 1 |
| `PackingForm.Form.SetDescription` | src/components/App.js:45 | the description becomes the typed text, the quantity is kept |
| `PackingForm.Form.SetQuantity` | src/components/App.js:32 | the quantity becomes the selected value, the description is kept |
| `PackingForm.Form.HandleSubmit` | src/components/App.js:11-24 | the app's list becomes `Submit` of the old list and old form state; an empty description leaves the form as it was, otherwise the form is reset to "" and 1 |

## Left out

- Rendering (`Logo`, `PackingList`, the `Item` markup, the option lists, styling): presentation only. The quantity selectors offer 1..11 (src/components/App.js:34-38, 73-77); neither the page nor the model bounds the quantity.
- React's state hooks, updater closures and event objects (`e.preventDefault()`): each `setItems(f)` is modelled as replacing the list by `f` of the current list, synchronously.
- `Date.now()`: the clock reading is the `now` parameter of `Form.HandleSubmit`; how it is produced, and whether two readings coincide, is not modelled.
- PercentagePacked: computes the exact ratio rounded half up in integers; the IEEE double division, multiplication and `Math.round` of the source may differ from it when the product lands within rounding error of a half.
- The wording and number formatting of the footer message; only its `=== 100` branch condition is modelled (`GotEverything`).
- Id uniqueness: the code does not enforce it, so the model does not assume it; laws that need it take `UniqueIds` as a precondition.
