# Hospital bed-management dashboard: a Dafny model

This project models the state and the event handlers of the `BedManagementJsx`
component (`components/bed-management.jsx`):

- **The catalog.** An ordered table of bed-category records. Each record has an id, a
  type, a total, an available count, a nightly price, a check-in time and a description.
  The component starts from five seeded records: General, ICU, Emergency, Pediatric and
  Maternity.
- **The availability form.** It picks a bed type and a typed number. Submitting it
  overwrites `available` on every record of that type, then empties the text box.
- **The occupancy grid.** It has an "All" tab and one tab per type. Each record is drawn
  as `total` slots. Slot `i` (from 0) is free iff `i < available`, and clicking a free
  slot selects bed number `i + 1` of that type.
- **Booking confirmation.** With a pending selection, confirming lowers `available` by
  one on every record of the selected type and clears the selection.
- **Pure views.** The occupied counter `total - available`, the icon colour of a type,
  and the filter behind the pricing cards.

Layout:

- `wrappers.dfy`: `Option`.
- `catalog.dfy` (module `Catalog`): records, the seed, the `beds.map` rewrite that both
  handlers perform (`Rewrite`, `SetAvailability`, `BookOne`), the `beds.find` lookup, and
  the properties of all of these.
- `views.dfy` (module `Views`): the tab filter, the slot grid and slot click, the occupied
  counter and `getBedColor`.
- `dashboard.dfy` (module `Dashboard`): class `BedManagement`. Its fields are the
  component's state. Its methods are the handlers, and each one states the whole new
  state in terms of the old one. Its invariant `Valid()` says the table always has the
  seed's shape: length, order, ids, types, totals, prices and texts. Only `available`
  ever changes.
- `scenarios.dfy` (module `Scenarios`): concrete runs from the seed.

The `available` field holds a JavaScript number. The model restricts that to what the
handlers can put there: a whole number (`Int(n)`) or `NaN`. `parseInt` of text that does
not parse gives NaN, and `NaN - 1` is NaN. A NaN count draws every slot as occupied and
makes the counter NaN. The text box is modelled as `Option<int>`: `Some(v)` is text that
parses to `v`, and `None` is text that does not parse, the empty box included.

Three behaviours of the code are easy to miss:

- Closing the booking dialog without confirming does not clear the pending selection.
  The component has no handler for it. The selection stays until the next free-slot
  click or a confirmation.
- An update changes every record whose `type` equals the chosen type, because lookup is
  by type and not by id. `BookOneHitsEveryDuplicate` shows this.
- With a NaN count, `disabled={i >= bed.available}` is false. So every slot button stays
  enabled although it is drawn occupied. Its click leaves the selection unchanged but
  still opens the confirmation dialog, whose Confirm books the previous selection
  (`DialogWithoutSelection`, `ClickSlot`'s `opensDialog`).

The handlers themselves check nothing. `handleSubmit` stores whatever `parseInt`
returns, and `handleBookBed` decrements without a floor (`SetAvailabilityStoresUnchecked`,
`BookOneBelowZero`, `Scenarios.StaleBookingGoesNegative`). On the page, the browser's
validation of the number input guards the form: `required`, `min="0"` and `max` set to
the first matching record's total. A confirmation is reached only through a dialog,
which a numeric count opens only from a free-slot click that first replaces the
selection. So a value out of range, and the stale confirmation of
`StaleBookingGoesNegative`, come from the handlers' own logic and not from a path the
page offers. The model does not include the browser's validation (see "Left out"). The
range 0 <= available <= total is kept by a booking whose record still has a free bed
and whose type is unique (`BookOneKeepsRange`, `ClickThenBookKeepsRange`).

## Model

| member | source | states |
|---|---|---|
| Catalog.Rewrite | components/bed-management.jsx:44-49 | The per-record `beds.map` rewrite. Same length. Every record of the chosen type gets the new `available` and keeps all other fields. Every other record is returned unchanged. |
| Catalog.ParseInt | components/bed-management.jsx:46 | `parseInt` of the text box: a number exactly when the text parses, and then the parsed value; NaN otherwise. |
| Catalog.Seed | components/bed-management.jsx:26-32 | The initial table: five records with ids 1 to 5, each with 0 <= available <= total. |
| Catalog.SetAvailability | components/bed-management.jsx:44-49 | The table after a submit has the old table's shape. Each record's `available` is the new value if its type is the selected one, and unchanged otherwise. |
| Catalog.BookOne | components/bed-management.jsx:79-84 | The table after a confirmation has the old table's shape. Each numeric record of the type drops by exactly one. Every other record, and a NaN one, is returned as it was. |
| Catalog.SeedShapeUnique | components/bed-management.jsx:26-32 | Any table with the seed's shape has one record per type and per id. |
| Catalog.RewriteChangesAtMostOne | components/bed-management.jsx:44-49 | With one record per type, a rewrite changes at most one record. |
| Views.FilteredBeds | components/bed-management.jsx:75 | Under "All" the whole table. Otherwise exactly the table's records of the active type. |
| Views.PriceCards | components/bed-management.jsx:255-256 | The pricing cards are exactly the records of the pricing selector's type, and at most one when types are unique. |
| Views.SlotCount | components/bed-management.jsx:178 | A record draws `total` slots, or none when `total` is negative. |
| Views.SlotFree | components/bed-management.jsx:183-190 | No slot is free under a NaN count. With a numeric count, a slot is free exactly when its button is enabled. |
| Views.DialogWithoutSelection | components/bed-management.jsx:179-190 | A slot button is enabled but not free exactly when the count is NaN. With a numeric count, enabled and free coincide. |
| Views.Occupied | components/bed-management.jsx:214 | The counter is a number exactly when `available` is, and then counter + available = total. |
| Views.Click | components/bed-management.jsx:185-189 | A click changes the selection only for a free slot, and a free slot's click selects (type, i + 1). |
| Dashboard.BedManagement.Filtered | components/bed-management.jsx:75 | The records the occupancy tabs show: the whole table under "All", otherwise exactly the active type's records. |
| Catalog.RewriteKeepsShape | components/bed-management.jsx:79-84 | A rewrite keeps length, order, ids, types, totals, prices and texts; only `available` may differ. |
| Catalog.MinusOne | components/bed-management.jsx:81 | `available - 1` on a JS number: a number goes down by exactly one, with no floor; NaN stays NaN. |
| Catalog.SetAvailabilityEffect | components/bed-management.jsx:44-50 | After a submit, every record of the selected type (duplicates included) holds exactly the parsed value, and every other record is identical. A record changes iff it has that type and did not already hold the value. |
| Catalog.SetAvailabilityStoresUnchecked | components/bed-management.jsx:46 | No validation. The stored value is the parsed value whatever it is, and the record is in range iff that value is a number with 0 <= v <= total. |
| Catalog.SetAvailabilityLastWins | components/bed-management.jsx:42-50 | Two submits for the same type: the table equals a single submit of the second value. |
| Catalog.SetAvailabilityCommutes | components/bed-management.jsx:42-50 | Submits for two different types give the same table in either order. |
| Catalog.BookOneEffect | components/bed-management.jsx:79-85 | A confirmed booking keeps the table's shape and lowers `available` by exactly 1 on each record of the selected type. A record changes iff it has that type and a numeric count. |
| Catalog.RewriteAbsentType | components/bed-management.jsx:79-84 | A rewrite for a type no record has leaves the table identical. |
| Catalog.BookOneKeepsRange | components/bed-management.jsx:77-92 | With unique types and every record in range, booking a type whose record has at least 1 available keeps every record in range. |
| Catalog.BookOneBelowZero | components/bed-management.jsx:81 | Booking a type whose record holds 0 stores -1, and the table leaves the intended range. |
| Catalog.BookOneHitsEveryDuplicate | components/bed-management.jsx:80 | Lookup is by type, not id: two records of one type are both decremented by one booking, while `beds.find` returns only the first. |
| Catalog.FindByType | components/bed-management.jsx:129 | `beds.find` by type: None iff no record has the type. Otherwise a record of that type with no earlier record of that type. |
| Catalog.SeedWellFormed | components/bed-management.jsx:26-32 | The seed has five records with distinct ids and types, each with 0 <= available <= total. |
| Views.OfType | components/bed-management.jsx:75 | The filter: its result is no longer than the table. It holds exactly the table's records of the type, and only records of the type. |
| Views.OfTypeAppend | components/bed-management.jsx:75 | The filter keeps the original order: it distributes over concatenation. |
| Views.OfTypeSingle | components/bed-management.jsx:75 | The filter keeps a record of the type and drops any other. |
| Views.OfTypeUnique | components/bed-management.jsx:255-256 | With unique types, a present type filters to exactly its one record. This is what a tab or the pricing card shows. |
| Views.OfTypeAbsent | components/bed-management.jsx:75 | A type no record has filters to the empty table. |
| Views.OfTypeRewrite | components/bed-management.jsx:75 | Filtering and rewriting commute. A tab of a type other than the rewritten one shows the same records as before. |
| Views.FilteredBedsRewrite | components/bed-management.jsx:75 | The active tab (the whole table under "All") shows the rewrite of what it showed before. |
| Views.Range | components/bed-management.jsx:178 | The slot numbers lo..hi-1, with exactly hi - lo of them. |
| Views.SlotPartition | components/bed-management.jsx:178-190 | The grid has `total` slots (none if total is negative). The free ones are exactly 0..a-1, where a is `available` clamped to the grid (0 for NaN). The rest are occupied, with counts to match. |
| Views.OccupiedMatchesGrid | components/bed-management.jsx:214 | The counter `total - available` equals the number of occupied slots iff 0 <= available <= total. |
| Views.ClickSelectsFreeSlot | components/bed-management.jsx:185-190 | A click changes the selection only for a free slot, to (type, i+1) with 1 <= i+1 <= available. A click on an occupied slot leaves the selection as it was. |
| Views.ClickThenBookKeepsRange | components/bed-management.jsx:185-190 | With unique types and every record in range, a free-slot click then a confirmation lowers that record by one and keeps every record in range. |
| Views.BedColor | components/bed-management.jsx:58-72 | `getBedColor` is total. It gives grey iff the type is not one of the five known types. |
| Views.BedColorsDistinct | components/bed-management.jsx:60-69 | Distinct known types get distinct colours. |
| Views.SeedTypesKnown | components/bed-management.jsx:27-31 | Every seeded type has its own colour case. |
| Dashboard.BedManagement.constructor | components/bed-management.jsx:26-39 | Initial state: the seed table, type "General", empty text box, tab "All", no selection, pricing type "General", price details hidden. |
| Dashboard.BedManagement.HandleSubmit | components/bed-management.jsx:42-56 | The table becomes `SetAvailability` of the old table, selected type and parsed text, so at most one record changes. The text box is emptied and one notice is appended. Nothing else changes, and `Valid()` is kept. |
| Dashboard.BedManagement.HandleBookBed | components/bed-management.jsx:77-92 | Without a selection nothing changes. With one, the table becomes `BookOne` of the old table and selected type, so at most one record changes. A notice naming type and number is appended, and the selection is cleared. |
| Dashboard.BedManagement.ClickSlot | components/bed-management.jsx:178-190 | Only the selection changes. It becomes (type, i+1) if slot i of the shown record is free, otherwise it stays. The click reaches the slot's dialog exactly when its button is not disabled. |
| Dashboard.BedManagement.SelectBedType | components/bed-management.jsx:106 | The form's type is set to the chosen value. |
| Dashboard.BedManagement.EnterAvailableBeds | components/bed-management.jsx:127 | The text box holds what was typed. |
| Dashboard.BedManagement.SelectCategory | components/bed-management.jsx:164 | Switching tabs changes only the active tab; the table is untouched, and the shown records are the filter of the same table. |
| Dashboard.BedManagement.SelectPriceBedType | components/bed-management.jsx:230 | The pricing selector's type is set. |
| Dashboard.BedManagement.SetShowPriceDetails | components/bed-management.jsx:246-250 | The price-details switch is set. |
| Scenarios.SubmitGeneral45 | components/bed-management.jsx:42-56 | From the seed, submitting General = 45 changes General's count to 45 and nothing else. |
| Scenarios.BookIcuSlot | components/bed-management.jsx:178-190 | From the seed, the ICU tab shows only ICU. Slot 7 is occupied and slot 3 selects bed 4. Confirming takes ICU from 5 to 4 with its total of 20 kept. |
| Scenarios.StaleBookingGoesNegative | components/bed-management.jsx:77-92 | A selection made while Emergency had 2, confirmed after the form set Emergency to 0, leaves Emergency at -1. |

## Left out

- Rendering, layout, CSS classes and the imported widgets (Select, Tabs, Dialog, Switch, Card, Table, Input). Their code is not part of this model. That only one dialog is open at a time is the dialog library's behaviour, not this component's.
- Toast notifications are kept as an appended `notices` log with the values they show. Whether they are displayed is not modelled.
- The weekly and monthly rates (`price * 7 * 0.9`, `price * 30 * 0.8`) are floating point and display only. The price-details switch is modelled only as the flag it sets.
- Dashboard.BedManagement.HandleSubmit: the number input's browser validation (`required`, `min`, `max`, `step`) is not modelled, so any `Option<int>` can reach the handler, including an empty box, negatives and values above the total.
- Dashboard.BedManagement.HandleBookBed: the method can be called whether or not a confirmation dialog is open. On the page it runs only from a dialog's Confirm button, and which dialog is open belongs to the dialog library.
- Catalog.ParseInt: does not model `parseInt`'s text handling (leading digits, signs, "1e3", "12.5"). The text box is modelled as the value it parses to, or `None` for not a number. So an empty box and non-numeric text are one state.
- JavaScript numbers are doubles. The model's integers are unbounded and do not lose precision past 2^53.
- React's batching of state updates and stale closures: each handler is one atomic step.
- Check-in times and descriptions are carried in the records but only displayed.
- Class-level runs from the seed (constructor, then handlers) are stated as lemmas over the catalog functions. The handlers' contracts connect the two.
