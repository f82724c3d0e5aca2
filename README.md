# Room search: a verified model of the query engine

The room search component of a small property-listing front end lets a user
find rooms in a fixed catalog. It has five query helpers: name suggestions
while typing, exact lookup by room name, a price-range filter, a tag
refinement of that filter, and the display sort of the resulting list. This
project models those helpers in Dafny and proves what each one promises.

- `text.dfy` (module `Text`): ASCII lower-casing (`toLowerCase`) and
  substring search (`includes`). The search is proved equal to the
  definition "the needle occurs at some position".
- `sequences.dfy` (module `Sequences`): `Array.prototype.filter` as a
  generic `Filter`. The lemmas make "order-preserving selection" precise:
  - membership;
  - distribution over concatenation;
  - the position of each kept element in the result, and the converse.
- `room_search.dfy` (module `RoomSearch`): the `Room` record, plus
  `generateSuggestions`, `filterRoomsByPrice`, the tag refinement of
  `filterRooms`, and `searchRoomByRoomNumber`. All are functions of the
  catalog and the query values.
- `display_sort.dfy` (module `DisplaySort`): the comparator of
  `sortRoomsByTags` and its specification. `DisplayOrder` concatenates the
  four display buckets, each kept in input order. `SortRoomsByTags` is a
  stable insertion sort that reorders an `array<Room>` in place and is
  proved to produce `DisplayOrder` of the old contents. `BrowseList` is the
  listed view: the filtered rooms, sorted.
- `scenarios.dfy` (module `Scenarios`): two small worked examples.

The catalog (`LISTROOMS`, defined in a data file that is not part of this
model) is a parameter of every operation.

Facts about the code that shape the model:
- The sort keys are the lengths of `tagIds` and `picturesURL`, while the tag
  filter reads `tags`.
- A price bound is compared after JavaScript's string-to-number coercion,
  so a blank bound acts as 0. The model takes integer bounds.

## Model

| member | source | states |
|---|---|---|
| `Text.ContainsIffOccurs` | src/components/RoomComponents/RoomSearch.js:44 | `includes` holds exactly when the needle occurs at some position of the haystack |
| `Text.LowerShape` | src/components/RoomComponents/RoomSearch.js:44 | lower-casing keeps the length, turns each ASCII upper-case letter into the letter 32 code points above it, and leaves every other character alone |
| `Text.LowerIdempotent` | src/components/RoomComponents/RoomSearch.js:44 | lower-casing an already lower-cased string changes nothing |
| `Text.ContainsNoLonger` | src/components/RoomComponents/RoomSearch.js:56 | a needle longer than the haystack is never found |
| `Sequences.FilterMembership` | src/components/RoomComponents/RoomSearch.js:43-45 | an element is in the filter result iff it is in the input and satisfies the predicate |
| `Sequences.FilterConcat` | src/components/RoomComponents/RoomSearch.js:43-45 | filtering a concatenation is concatenating the filtered parts, so order is kept |
| `Sequences.FilterRank` | src/components/RoomComponents/RoomSearch.js:63-66 | a kept element sits in the result at the index equal to the number of kept elements before it |
| `Sequences.FilterOrigin` | src/components/RoomComponents/RoomSearch.js:63-66 | every index of the result holds a kept input element with exactly that many kept elements before it |
| `Sequences.FilterFilter` | src/components/RoomComponents/RoomSearch.js:53-58 | filtering a filtered list is one filter by the conjunction |
| `RoomSearch.GenerateSuggestions` | src/components/RoomComponents/RoomSearch.js:39-47 | empty input gives no suggestions; otherwise a name is suggested iff some catalog room has that name and its lower-cased name contains the lower-cased input |
| `RoomSearch.SuggestionsConcat` | src/components/RoomComponents/RoomSearch.js:43-46 | suggestions follow catalog order: those from an earlier part of the catalog come first |
| `RoomSearch.SuggestionRank` | src/components/RoomComponents/RoomSearch.js:43-46 | the name of a matching room at catalog index i is the suggestion at the index equal to the number of suggestions from the rooms before i |
| `RoomSearch.SuggestionOrigin` | src/components/RoomComponents/RoomSearch.js:43-46 | every suggestion at position k is the name of a matching catalog room preceded by exactly k matching rooms, so each match is suggested once, in catalog order |
| `RoomSearch.SuggestionsIgnoreCase` | src/components/RoomComponents/RoomSearch.js:44 | suggesting for the lower-cased input gives the same list as for the input |
| `RoomSearch.OwnNameSuggested` | src/components/RoomComponents/RoomSearch.js:44 | typing a room's full, non-empty name suggests that name |
| `RoomSearch.FilterRoomsByPrice` | src/components/RoomComponents/RoomSearch.js:62-67 | a room is kept iff it is in the catalog and minPrice <= price <= maxPrice; minPrice > maxPrice gives the empty list |
| `RoomSearch.PriceFilterRank` | src/components/RoomComponents/RoomSearch.js:62-66 | the price filter keeps catalog order: an in-range room at index i lands after exactly the in-range rooms before i |
| `RoomSearch.FilterByTag` | src/components/RoomComponents/RoomSearch.js:54-58 | an empty tag search returns the list unchanged; otherwise a room is kept iff some tag's lower-case form contains the lower-cased search |
| `RoomSearch.FilterRooms` | src/components/RoomComponents/RoomSearch.js:52-60 | a room is listed iff it is in the catalog, in the price range, and matches the tag search when that is non-empty; with an empty tag search the result is the price filter's |
| `RoomSearch.FilterRoomsIsOneFilter` | src/components/RoomComponents/RoomSearch.js:53-58 | the price filter followed by the tag refinement is a single order-preserving filter of the catalog |
| `RoomSearch.FilterRoomsRank` | src/components/RoomComponents/RoomSearch.js:53-58 | a catalog room meeting the query is listed at the index equal to the number of listed rooms before it |
| `RoomSearch.SearchRoomByRoomNumber` | src/components/RoomComponents/RoomSearch.js:73-76 | none iff no catalog room has exactly that name; otherwise the room at the first catalog index with that name |
| `RoomSearch.LookupFindsEveryRoom` | src/components/RoomComponents/RoomSearch.js:73-76 | in a catalog with unique names, looking up a room's name returns that room |
| `RoomSearch.SuggestionResolves` | src/components/RoomComponents/RoomSearch.js:74 | every suggested name, when looked up, finds a room with exactly that name |
| `DisplaySort.CompareIsRankOrder` | src/components/RoomComponents/RoomSearch.js:79-93 | the comparator is negative, zero or positive exactly as the first room's bucket is below, equal to or above the second's, and it is antisymmetric |
| `DisplaySort.SortedIsTwoLevelOrder` | src/components/RoomComponents/RoomSearch.js:80-91 | sorted by bucket iff rooms with tag ids come before rooms without, and among equal tag presence, rooms with pictures come before rooms without |
| `DisplaySort.DisplayOrderPermutes` | src/components/RoomComponents/RoomSearch.js:79 | the display order is a permutation of the input |
| `DisplaySort.DisplayOrderSorted` | src/components/RoomComponents/RoomSearch.js:79-93 | the display order is sorted by bucket |
| `DisplaySort.DisplayOrderStable` | src/components/RoomComponents/RoomSearch.js:92 | rooms with equal tag presence and picture presence keep their input order |
| `DisplaySort.SortedIsFixed` | src/components/RoomComponents/RoomSearch.js:79-93 | a list already sorted by bucket is its own display order |
| `DisplaySort.DisplayOrderIdempotent` | src/components/RoomComponents/RoomSearch.js:79 | sorting for display a second time changes nothing |
| `DisplaySort.DisplayOrderUnique` | src/components/RoomComponents/RoomSearch.js:79 | any rearrangement that is sorted by bucket and keeps every bucket's order is the display order |
| `DisplaySort.SortRoomsByTags` | src/components/RoomComponents/RoomSearch.js:78-94 | the array afterwards holds the display order of its old contents: sorted, a permutation, every bucket in its old order |
| `DisplaySort.InsertLeft` | src/components/RoomComponents/RoomSearch.js:79 | one pass of the stable sort: the sorted prefix grows by one, the rooms after position i are untouched, and the multiset and the buckets are unchanged |
| `DisplaySort.BrowseList` | src/components/RoomComponents/RoomSearch.js:96 | the listed rooms are the display order of the filtered rooms; they are sorted, and a room is listed iff it is in the catalog and meets the query |
| `Scenarios.SortScenario` | src/components/RoomComponents/RoomSearch.js:78-94 | rooms (no tags, no pictures), (tags, pictures), (pictures only) are displayed in the order 2, 3, 1 |
| `Scenarios.TagScenarioMatch` | src/components/RoomComponents/RoomSearch.js:54-58 | a room tagged "wifi" priced 500 is listed for prices 0 to 1000 and tag search "wi" |
| `Scenarios.TagScenarioMiss` | src/components/RoomComponents/RoomSearch.js:54-58 | the same room is not listed with tag search "pool" |

## Left out

- React state, event handlers, `setX` calls and the JSX rendering
  (`RoomSearch.js:5-37`, `48-51`, `69-71`, `98-210`). They are UI plumbing
  around the helpers.
- `filterRooms` runs right after `setMinPrice`/`setMaxPrice`, so it reads
  the previous bounds. This is React scheduling; `FilterRooms` takes the
  bounds as parameters.
- RoomSearch.FilterRoomsByPrice: JavaScript's number coercion of the
  textual bounds is not modelled. In the source a blank bound acts as 0;
  here the bounds are integers, and prices are integers, not floating point.
- Text.Lower: only ASCII letters are lower-cased. Unicode case mapping of
  `toLowerCase` is not modelled.
- The second argument that `handleSearch` passes to
  `searchRoomByRoomNumber` is ignored by the source and is absent here.
- The render-time lookup `selectedRoom.tags[tagId]` is presentation only and
  is not modelled.
- A room record without `roomName`, `tags`, `tagIds` or `picturesURL`
  cannot occur here. In the source such a record makes the name match
  (`RoomSearch.js:44`), the tag filter (`RoomSearch.js:56`) or the sort
  (`RoomSearch.js:80-89`) throw. Every `Room` here has all four fields, and
  each sequence may be empty.
- DisplaySort.SortRoomsByTags: returns nothing. The source returns the
  array it sorted, which the caller already holds.
- `src/App.js` only composes components. The `LISTROOMS` data file is not
  part of this model; the catalog is a parameter.
