# Metropolis seating map: the seat-selection engine in Dafny

This project models the core of the Metropolis seating-map front end. The
parts it models are:

- the venue tree: sections, rows and seats;
- the flattened list of seats that every component derives from the tree;
- the seat lookup and the status- and capacity-gated selection toggle;
- the focus snapshot;
- the persistence of the selection in the browser's key-value store;
- the rendering rules of a seat and the event routing of the map;
- the selection summary and its subtotal;
- the fixture generator that builds the large test venue.

The model proves properties of each of these.

Modules follow the source files:

| module | file |
|---|---|
| `Types` | `src/types/index.ts` |
| `PriceTiers` | `src/utils/priceTiers.ts` |
| `Storage` | `src/utils/storage.ts` |
| `OrderedSet` | the JavaScript `Set<string>` the app keeps its selection in |
| `SeatComponent` | `src/components/Seat.tsx` |
| `SeatMap` | `src/components/SeatMap.tsx` |
| `SelectionSummary` | `src/components/SelectionSummary.tsx` |
| `App` | the `SeatingMap` component of `src/App.tsx` |
| `GenerateVenue` | `scripts/generate-venue.js` |

Notes on the form of the model:

- The venue is a value: datatypes `Venue`, `Section`, `Row` and `Seat`.
- `SeatMap.Flatten` is the specification of every traversal. It lists the seats in section order, then row order, then column order, each with its section label and row index.
- The source's nested `forEach` and `for` loops are methods:
  - `AllSeats` is proved equal to `Flatten`;
  - `SelectedSeatsData` is proved equal to a filter over `Flatten`;
  - `FindSeat` is proved equal to a search over `Flatten`;
  - the generator's loops are proved to build a venue whose `Flatten` equals `Generated`, a closed form that gives the n-th seat produced directly from n.
- The `SeatingMap` component's state is the class `App.SeatingMap`: the venue, the selection in insertion order, and the focus.
- The browser store is the class `Storage.Store`, whose `items` map every key to its stored text.
- A JavaScript `Set` iterates in insertion order. The model represents it as a sequence without duplicates.

A selection store is usually expected to let a selected seat always be removed, to refuse an add only when exactly 8 seats are held, and to restore only a valid selection on reload. The code differs on each point, and the model follows the code:

- `handleSeatClick` checks the seat's status before it toggles. A selected seat whose status is no longer `available` therefore cannot be deselected by clicking it.
- The capacity check is `size >= 8`, not `== 8`.
- The focus is set on every click of an available seat, even when the add was refused for capacity.
- Rehydration installs the stored ids as a `Set`. It does not filter them against the venue and does not cap them at 8. The capacity lemmas therefore assume at most 8 ids at the start.
- On mount, the persist effect first runs with the initial empty selection and removes the stored key. When the stored list was non-empty, it then runs again for the rehydrated selection and saves it.

## Model

| member | source | states |
|---|---|---|
| PriceTiers.PriceForTier | src/utils/priceTiers.ts:1-11 | Tiers 1..5 cost 50, 75, 100, 150 and 200. Any other tier costs 0. Every price lies in 0..200, and a price is positive exactly for a known tier. |
| PriceTiers.PricesIncreaseWithTier | src/utils/priceTiers.ts:1-7 | Among the known tiers, a higher tier always costs strictly more. |
| OrderedSet.Add | src/App.tsx:99 | `Set.add` appends a new id at the end and leaves the set unchanged when the id is present. The result has no duplicates, and its members are the old members plus the id. |
| OrderedSet.Delete | src/App.tsx:94 | `Set.delete` removes exactly the id and keeps the others in their order: the result is the set with the id cut out where it stood. The size drops by one when the id was present, and nothing changes when it was absent. |
| OrderedSet.FromArray | src/App.tsx:53 | `new Set(array)` has no duplicates and has the array's members, listed in the order of their first occurrences in the array. An array without duplicates comes back unchanged. |
| OrderedSet.FirstPos | src/App.tsx:53 | The position of an element's first occurrence in an array: it holds the element, and no earlier position does. |
| OrderedSet.DeleteUndoesAdd | src/App.tsx:91-102 | Deleting an id that was just added restores the set exactly, order included. |
| Storage.Decode | src/utils/storage.ts:14 | Parsing fails exactly on text that is not the encoding of an id list. |
| Storage.LoadAfterSave | src/utils/storage.ts:3-19 | Loading after a save returns the saved ids in the same order, whatever else the store holds. |
| Storage.LoadFallsBackToEmpty | src/utils/storage.ts:11-19 | A missing key, an empty string or unparseable text loads as the empty list. |
| Storage.LoadedIds | src/utils/storage.ts:11-19 | A stored encoding of an id list loads as exactly that list. Anything else loads as the empty list. |
| Storage.Store.constructor | src/utils/storage.ts:5-13 | The store starts with the given items. |
| Storage.Store.SaveSelectedSeats | src/utils/storage.ts:3-9 | A successful write overwrites the selection key with the encoded ids. A failed write is swallowed and leaves the store unchanged. No other key is touched either way. |
| Storage.Store.LoadSelectedSeats | src/utils/storage.ts:11-19 | Returns the list `LoadedIds` describes, and never fails. |
| Storage.Store.RemoveItem | src/App.tsx:62 | Removes exactly the given key. |
| SeatComponent.StatusColor | src/components/Seat.tsx:14-28 | Selection overrides status. An unselected seat's fill identifies its status, and the fallback colour is never produced. |
| SeatComponent.IsClickable | src/components/Seat.tsx:38 | A seat is clickable exactly when its unselected fill is the available colour. |
| SeatComponent.RenderSeat | src/components/Seat.tsx:30-62 | The circle sits at the seat's x and y. The click handler, the key handler and tab index 0 exist exactly when the seat is available; otherwise the tab index is -1. The fill is the selection colour exactly when the seat is selected. The stroke colour and width depend only on selection. |
| SeatComponent.AppearanceDependsOnlyOnStatusAndSelection | src/components/Seat.tsx:38-49 | Two seats with the same status and selection look the same. Stroke and stroke width depend on selection alone. |
| SeatMap.Flatten | src/components/SeatMap.tsx:35-45 | The flattened list has exactly one entry per seat of the venue. |
| SeatMap.FlattenRows | src/components/SeatMap.tsx:36-44 | A section's entries number exactly its rows' seats. |
| SeatMap.AllSeats | src/components/SeatMap.tsx:28-48 | The three nested `forEach` loops push exactly `Flatten(venue.sections)`. |
| SeatMap.FlattenAppend | src/components/SeatMap.tsx:35-45 | Flattening distributes over concatenating lists of sections. |
| SeatMap.FlattenRowsAppend | src/components/SeatMap.tsx:36-44 | Flattening distributes over concatenating lists of rows. |
| SeatMap.FlattenAt | src/components/SeatMap.tsx:35-45 | The seat at section s, row r, column c sits at its position in the list. Its entry carries that section's label and that row's index. |
| SeatMap.FlattenRowsAt | src/components/SeatMap.tsx:36-44 | Within a section, seat c of row r sits at its position and carries that row's index. |
| SeatMap.FlattenCovers | src/components/SeatMap.tsx:35-45 | Every entry of the list is at the position of some seat of the venue. |
| SeatMap.FlattenRowsCovers | src/components/SeatMap.tsx:36-44 | Every entry of a section's list comes from some seat of its rows. |
| SeatMap.PositionIncreasing | src/components/SeatMap.tsx:35-45 | Traversal order: a seat earlier in (section, row, column) order has a strictly smaller position. |
| SeatMap.HandleSeatKeyDown | src/components/SeatMap.tsx:18-26 | Enter or Space gives exactly one click, on the given seat's id. Any other key gives nothing. |
| SeatMap.OnSeatKeyDown | src/components/SeatMap.tsx:18-26 | Enter or Space gives a click on the seat's own id, then a focus on the seat with its context. Tab gives only the focus, and any other key gives nothing. |
| SeatMap.MouseActions | src/components/SeatMap.tsx:70 | A mouse click on a rendered seat clicks its id when the seat is available, and does nothing otherwise. |
| SeatMap.KeyActions | src/components/SeatMap.tsx:71-76 | A key press on a rendered seat that is not available does nothing. On an available seat it routes as `OnSeatKeyDown` says. A key other than Enter, Space or Tab does nothing on any seat, and only Enter or Space ever clicks, and then only the seat's own id. |
| SeatMap.RenderMap | src/components/SeatMap.tsx:63-78 | The map renders one seat per entry of the flattened list. A seat is drawn selected exactly when its id is in the selection, and is interactive exactly when it is available. |
| SelectionSummary.SelectedOf | src/components/SelectionSummary.tsx:14-32 | The filter of the entries by selected id keeps no more entries than it is given, and every kept entry has a selected id. |
| SelectionSummary.SelectedSeatsData | src/components/SelectionSummary.tsx:14-32 | The nested loops push exactly the selected entries of `Flatten`, in venue order and not in selection order. |
| SelectionSummary.PushSelectedOfRow | src/components/SelectionSummary.tsx:19-27 | The innermost loop appends the row's selected seats, each with its context. |
| SelectionSummary.SelectedOfMembers | src/components/SelectionSummary.tsx:20 | An entry is listed exactly when it belongs to the venue and its id is selected. |
| SelectionSummary.SelectedOfAppend | src/components/SelectionSummary.tsx:17-29 | The filter distributes over concatenation, so the listed seats keep the venue's order. |
| SelectionSummary.SelectedOfIgnoresSelectionOrder | src/components/SelectionSummary.tsx:14-32 | Two selections with the same members list the same seats in the same order. |
| SelectionSummary.Subtotal | src/components/SelectionSummary.tsx:34-37 | The subtotal is at least 0 and at most 200 per listed seat. It is 0 for no seats. |
| SelectionSummary.SubtotalAppend | src/components/SelectionSummary.tsx:34-37 | The subtotal of two runs of seats is the sum of their subtotals. |
| SelectionSummary.Summary | src/components/SelectionSummary.tsx:39-68 | The empty message shows exactly when the selection is empty, with capacity 8. Otherwise the view shows the size of the selection, capacity 8, lines only for selected ids, and a subtotal between 0 and 200 per line. |
| SelectionSummary.SummaryItems | src/components/SelectionSummary.tsx:58-68 | Each line is a selected venue seat with its label, row and tier price, in venue order. The subtotal is the sum of those prices. |
| SelectionSummary.EmptySelectionSummary | src/components/SelectionSummary.tsx:39-49 | No selection lists nothing and costs nothing. |
| SelectionSummary.UnknownIdNotListed | src/components/SelectionSummary.tsx:55-68 | A selected id that names no seat of the venue is still counted, but gets no line. |
| App.FirstMatch | src/App.tsx:74-85 | The search result is None exactly when no seat has the id. Otherwise it is the earliest entry in traversal order with that id. |
| App.FirstMatchAppend | src/App.tsx:74-85 | Searching two runs of seats finds the first run's match if there is one, and otherwise the second run's. |
| App.Lookup | src/App.tsx:74-85 | The lookup finds nothing exactly when no seat of the venue has the id. Otherwise it finds a venue entry with that id. |
| App.FindInRow | src/App.tsx:76 | `row.seats.find` returns the row's first seat with the id, with its context. |
| App.FindSeat | src/App.tsx:74-85 | The nested loops, with their early `break`s, return exactly `Lookup(venue, seatId)`. |
| App.LookupFindsOwnEntry | src/App.tsx:74-85 | When ids are unique, looking up a seat's id finds that very seat with its own label and row. |
| App.ToggleSelection | src/App.tsx:91-102 | The toggle removes a present id with no capacity check, cutting it out where it stood and keeping the others in order. It appends an absent id unless 8 or more are selected, in which case nothing changes. Ids stay unique, other ids are untouched, and the selection never grows past 8. |
| App.ToggleTwice | src/App.tsx:91-102 | Toggling the same seat twice restores the selection's members and size. When the seat was absent it restores the exact sequence. |
| App.SelectionAfterClick | src/App.tsx:66-102 | With no venue, an unknown id or a seat that is not available, a click changes nothing. Otherwise the selection toggles. Every added id names an available seat, and the size stays at most 8. |
| App.ClicksKeepCapacity | src/App.tsx:12 | Capacity: from at most 8 unique ids, no run of clicks exceeds 8 or duplicates an id. |
| App.ClicksAddOnlyEligible | src/App.tsx:87-89 | Status gate: every id added by any run of clicks names an available seat of the venue. |
| App.Details | src/App.tsx:105-112 | The focus snapshot copies the seat's id, column, tier and status, and takes the section label and row index it is given. |
| App.PersistedItems | src/App.tsx:58-64 | After the persist effect, a non-empty selection written successfully loads back as itself. A failed write leaves the store unchanged. An empty selection leaves no key and loads as the empty list. |
| App.Rehydrated | src/App.tsx:50-55 | A non-empty stored list becomes the selection with the same members, exactly the list when it has no duplicates. An empty or missing list keeps the current selection. The result has no duplicates. |
| App.ReloadRestoresSelection | src/App.tsx:50-64 | After a successful persist, a fresh session rehydrates exactly the same selection, in the same order. An empty selection leaves no stored entry. |
| App.PersistTouchesOnlySelectionKey | src/App.tsx:58-64 | The persist effect leaves every other key of the store unchanged. |
| App.SeatingMap.constructor | src/App.tsx:14-64 | On mount, the focus is None and the selection is the rehydrated stored list. The store has had its key removed, then the selection saved again when it is non-empty. |
| App.SeatingMap.PersistSelection | src/App.tsx:58-64 | A non-empty selection is saved in insertion order. An empty one removes the key. |
| App.SeatingMap.Click | src/App.tsx:66-116 | The new selection is `SelectionAfterClick`. An eligible click focuses the looked-up seat with its context, and any other click keeps the focus. The store is persisted exactly when the selection changed. |
| App.SeatingMap.FocusSeat | src/App.tsx:118-130 | Replaces the focus with the given seat's snapshot and leaves the selection alone. |
| App.SeatingMap.Handle | src/components/SeatMap.tsx:70-76 | A click callback has the effect `Click` states: the new selection, the focus on an eligible click, the kept focus otherwise, and a persist exactly when the selection changed. A focus callback changes only the focus. |
| GenerateVenue.RowsPerSection | scripts/generate-venue.js:10 | `ceil(totalSeats / 200)` is the least row count whose four sections of 50-seat rows hold every seat. |
| GenerateVenue.DecimalString | scripts/generate-venue.js:31 | `String(n)` is one or more decimal digits: exactly one below 10, and two or more from 10 on. |
| GenerateVenue.DecimalStringInjective | scripts/generate-venue.js:31 | Different numbers have different decimal strings. |
| GenerateVenue.Pad2 | scripts/generate-venue.js:31 | `padStart(2, '0')` gives at least two characters. |
| GenerateVenue.Pad2Digits | scripts/generate-venue.js:31 | Below 100 the padded column is its tens digit followed by its units digit. |
| GenerateVenue.Pad2Injective | scripts/generate-venue.js:31 | Columns below 100 have distinct padded strings. |
| GenerateVenue.SeatIdInjective | scripts/generate-venue.js:31 | A seat id determines its section letter, row and column. |
| GenerateVenue.PlaceOfOrdinal | scripts/generate-venue.js:17-40 | The counter's place is always in an existing row and column, and its ordinal gives the counter back. |
| GenerateVenue.OrdinalInjective | scripts/generate-venue.js:17-40 | Two places in range with the same ordinal are the same place. |
| GenerateVenue.PlaceOfInRange | scripts/generate-venue.js:10-26 | Every counter below the total lies in one of the four sections. |
| GenerateVenue.PlaceAt | scripts/generate-venue.js:17-40 | The generator reaches a place in range exactly when the counter equals that place's ordinal. |
| GenerateVenue.GeneratedSeatAt | scripts/generate-venue.js:19-38 | In closed form, the seat at section s, row r, column c has these fields. Its id is `X-r-cc`, its col is c, x = 250s + 50 + 15c and y = 50 + 30r. Its tier is s + 1, and its status is the (ordinal mod 4)-th of available, reserved, sold, held. Its entry carries `Section X` and r. |
| GenerateVenue.GeneratedNext | scripts/generate-venue.js:26-40 | Each counter step appends exactly the next seat. |
| GenerateVenue.NewSeat | scripts/generate-venue.js:27-37 | A pushed seat has the id `X-r-cc`, column c, x = 250s + 50 + 15c and y = 50 + 30r. Its tier is s + 1, and its status is the (counter mod 4)-th of available, reserved, sold, held, so it is available exactly when the counter is a multiple of 4. |
| GenerateVenue.GenerateRow | scripts/generate-venue.js:22-47 | The column loop emits the next at most 50 seats, numbered from 1. It stops at the row end or at the total, and leaves the counter at the next row's first seat. |
| GenerateVenue.GenerateSection | scripts/generate-venue.js:17-57 | The row loop emits up to `rowsPerSection` non-empty rows indexed 1, 2, and so on. It ends at the next section's first seat or at the total. |
| GenerateVenue.GenerateVenue | scripts/generate-venue.js:7-68 | The venue is `arena-01`, "Metropolis Arena", 1024x768. It holds exactly `totalSeats` seats, equal in order and fields to the closed form. No section or row is empty, and all ids are distinct. |
| GenerateVenue.GeneratedIdsDistinct | scripts/generate-venue.js:31 | Seats produced at different counter values have different ids. |
| GenerateVenue.GeneratedIdsUnique | scripts/generate-venue.js:31-58 | Every generated seat id is unique across the venue. |

## Left out

- Loading the venue (`fetch`, the loading and error screens) is not modelled. The session receives the venue as an `Option<Venue>`, where `None` stands for "not loaded".
- Login, registration, the user banner, logout and routing are not modelled. They do not touch the seat-selection state.
- The React machinery is not modelled: scheduling, batching, `useMemo`/`useCallback` memoisation and `React.memo`. Each handler runs to completion. The mount sequence is modelled as the effects run in order.
- SVG and CSS output is not modelled: the `viewBox`, the cursor, the opacity and the `aria-label` text. `toFixed(2)` formatting of the subtotal and `preventDefault` are left out as well.
- `src/components/SeatDetails.tsx` only displays the focus snapshot, so it is not part of this model.
- The generator's file write and console output are left out.
- Storage.Decode: JSON text that parses to something other than an array of strings is not modelled. The stored text is either an encoded id list, the empty string, or text that does not parse.
- Storage.Store.SaveSelectedSeats: a failing `setItem` is a parameter (`writeOk`), not an exception. `removeItem` is modelled as never failing.
- Storage.Store.LoadSelectedSeats: a `getItem` that throws, which the source's `try` turns into the empty list, is not modelled. Reading the store never fails here.
- PriceTiers.PriceForTier: tiers are whole numbers. A fractional tier, which JavaScript also prices at 0, is not modelled.
- GenerateVenue.GenerateVenue: `totalSeats` is a natural number. The JavaScript default argument of 15000 and non-integer or negative arguments are not modelled.
- JavaScript numbers are doubles. Coordinates, row indices, columns, tiers, prices and counters are unbounded integers here. A venue document with fractional `x`, `y`, `col`, `index` or `priceTier` values is not modelled. Every value the generator produces is a whole number.
