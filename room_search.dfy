/** The query helpers of the room search component: name suggestions, the
    price-range filter, the tag refinement and the exact-name lookup. Each is
    a function of the room catalog and the query values. */
module RoomSearch {
  import opened Text
  import opened Sequences

  /** The fields of a catalog room that the queries read. */
  datatype Room = Room(
    roomName: string,
    price: int,
    tags: seq<string>,
    tagIds: seq<int>,
    picturesURL: seq<string>)

  /** What `Array.prototype.find` yields: a room, or `undefined`. */
  datatype Option<T> = None | Some(value: T)

  /** The room names of `rooms`, in order (`rooms.map(room => room.roomName)`). */
  function Names(rooms: seq<Room>): seq<string>
  {
    seq(|rooms|, i requires 0 <= i < |rooms| => rooms[i].roomName)
  }

  lemma NamesMembership(rooms: seq<Room>)
    ensures forall name :: name in Names(rooms) <==> exists room :: room in rooms && room.roomName == name
  {
    forall name | name in Names(rooms) ensures exists room :: room in rooms && room.roomName == name {
      var i :| 0 <= i < |rooms| && Names(rooms)[i] == name;
      assert rooms[i] in rooms;
    }
    forall room | room in rooms ensures room.roomName in Names(rooms) {
      var i :| 0 <= i < |rooms| && rooms[i] == room;
      assert Names(rooms)[i] == room.roomName;
    }
  }

  lemma NamesConcat(a: seq<Room>, b: seq<Room>)
    ensures Names(a + b) == Names(a) + Names(b)
  {
  }

  // ---------------------------------------------------------------------
  // Suggestions

  /** The lower-cased room name contains the lower-cased input. */
  predicate NameContains(room: Room, input: string)
  {
    Contains(Lower(room.roomName), Lower(input))
  }

  function NameQuery(input: string): Room -> bool
  {
    room => NameContains(room, input)
  }

  /** `generateSuggestions`: nothing for an empty input; otherwise the names
      of the catalog rooms whose name contains the input, ignoring case. */
  function GenerateSuggestions(catalog: seq<Room>, input: string): (r: seq<string>)
    ensures input == "" ==> r == []
    ensures input != "" ==>
      forall name :: name in r <==> exists room :: room in catalog && room.roomName == name && NameContains(room, input)
  {
    if input == "" then []
    else
      var kept := Filter(catalog, NameQuery(input));
      FilterMembership(catalog, NameQuery(input));
      NamesMembership(kept);
      Names(kept)
  }

  /** Suggestions follow catalog order: suggesting from a catalog made of two
      parts lists the first part's suggestions before the second's. */
  lemma SuggestionsConcat(a: seq<Room>, b: seq<Room>, input: string)
    ensures GenerateSuggestions(a + b, input) == GenerateSuggestions(a, input) + GenerateSuggestions(b, input)
  {
    if input != "" {
      FilterConcat(a, b, NameQuery(input));
      NamesConcat(Filter(a, NameQuery(input)), Filter(b, NameQuery(input)));
    }
  }

  /** A matching catalog room at position `i` is suggested at the position
      given by the number of suggestions from the rooms before it. */
  lemma SuggestionRank(catalog: seq<Room>, input: string, i: int)
    requires input != "" && 0 <= i < |catalog| && NameContains(catalog[i], input)
    ensures |GenerateSuggestions(catalog[..i], input)| < |GenerateSuggestions(catalog, input)|
    ensures GenerateSuggestions(catalog, input)[|GenerateSuggestions(catalog[..i], input)|] == catalog[i].roomName
  {
    FilterRank(catalog, NameQuery(input), i);
  }

  /** Conversely, every suggestion at position `k` is the name of a matching
      catalog room preceded by exactly `k` matching rooms, so each matching
      room is suggested once, in catalog order. */
  lemma SuggestionOrigin(catalog: seq<Room>, input: string, k: int)
    requires input != "" && 0 <= k < |GenerateSuggestions(catalog, input)|
    ensures exists i :: 0 <= i < |catalog| && NameContains(catalog[i], input) &&
                        |GenerateSuggestions(catalog[..i], input)| == k &&
                        GenerateSuggestions(catalog, input)[k] == catalog[i].roomName
  {
    FilterOrigin(catalog, NameQuery(input), k);
    var i :| PlacedAt(catalog, NameQuery(input), k, i);
    assert GenerateSuggestions(catalog, input)[k] == catalog[i].roomName;
  }

  /** Suggestions ignore the case of the input. */
  lemma SuggestionsIgnoreCase(catalog: seq<Room>, input: string)
    ensures GenerateSuggestions(catalog, Lower(input)) == GenerateSuggestions(catalog, input)
  {
    LowerIdempotent(input);
    FilterCongruent(catalog, NameQuery(Lower(input)), NameQuery(input));
  }

  /** Typing a room's full name suggests that room. */
  lemma OwnNameSuggested(catalog: seq<Room>, room: Room)
    requires room in catalog && room.roomName != ""
    ensures room.roomName in GenerateSuggestions(catalog, room.roomName)
  {
    ContainsSelfAndEmpty(Lower(room.roomName));
  }

  // ---------------------------------------------------------------------
  // Price and tag filters

  /** The price test of `filterRoomsByPrice`. In the source the bounds are
      the text of the price inputs and are coerced to numbers, so a blank
      bound behaves as 0; here they are integers. */
  predicate PriceInRange(room: Room, minPrice: int, maxPrice: int)
  {
    room.price >= minPrice && room.price <= maxPrice
  }

  function PriceQuery(minPrice: int, maxPrice: int): Room -> bool
  {
    room => PriceInRange(room, minPrice, maxPrice)
  }

  /** `filterRoomsByPrice`: the catalog rooms whose price lies in the closed
      range; an empty range (`minPrice > maxPrice`) selects nothing. */
  function FilterRoomsByPrice(catalog: seq<Room>, minPrice: int, maxPrice: int): (r: seq<Room>)
    ensures forall room :: room in r <==> room in catalog && minPrice <= room.price <= maxPrice
    ensures minPrice > maxPrice ==> r == []
  {
    var r := Filter(catalog, PriceQuery(minPrice, maxPrice));
    FilterMembership(catalog, PriceQuery(minPrice, maxPrice));
    assert minPrice > maxPrice && r != [] ==> r[0] in r;
    r
  }

  /** The price filter keeps catalog order. */
  lemma PriceFilterRank(catalog: seq<Room>, minPrice: int, maxPrice: int, i: int)
    requires 0 <= i < |catalog| && minPrice <= catalog[i].price <= maxPrice
    ensures |FilterRoomsByPrice(catalog[..i], minPrice, maxPrice)| < |FilterRoomsByPrice(catalog, minPrice, maxPrice)|
    ensures FilterRoomsByPrice(catalog, minPrice, maxPrice)[|FilterRoomsByPrice(catalog[..i], minPrice, maxPrice)|] == catalog[i]
  {
    FilterRank(catalog, PriceQuery(minPrice, maxPrice), i);
  }

  /** The lower-cased tag contains the lower-cased tag search. */
  predicate TagContains(tag: string, tagSearch: string)
  {
    Contains(Lower(tag), Lower(tagSearch))
  }

  /** `room.tags.some(...)`: some tag of the room matches the search. */
  predicate HasMatchingTag(room: Room, tagSearch: string)
  {
    exists tag :: tag in room.tags && TagContains(tag, tagSearch)
  }

  function TagQuery(tagSearch: string): Room -> bool
  {
    room => HasMatchingTag(room, tagSearch)
  }

  /** The tag refinement of `filterRooms`: an empty (falsy) tag search keeps
      the list as it is; otherwise only rooms with a matching tag remain. */
  function FilterByTag(rooms: seq<Room>, tagSearch: string): (r: seq<Room>)
    ensures tagSearch == "" ==> r == rooms
    ensures tagSearch != "" ==> forall room :: room in r <==> room in rooms && HasMatchingTag(room, tagSearch)
  {
    if tagSearch != "" then
      FilterMembership(rooms, TagQuery(tagSearch));
      Filter(rooms, TagQuery(tagSearch))
    else rooms
  }

  /** Everything `filterRooms` asks of a room. */
  predicate MatchesQuery(room: Room, minPrice: int, maxPrice: int, tagSearch: string)
  {
    PriceInRange(room, minPrice, maxPrice) && (tagSearch == "" || HasMatchingTag(room, tagSearch))
  }

  function Query(minPrice: int, maxPrice: int, tagSearch: string): Room -> bool
  {
    room => MatchesQuery(room, minPrice, maxPrice, tagSearch)
  }

  /** `filterRooms`: the price filter followed by the tag refinement. A room
      is listed exactly when it is in the catalog and meets the query. */
  function FilterRooms(catalog: seq<Room>, minPrice: int, maxPrice: int, tagSearch: string): (r: seq<Room>)
    ensures forall room :: room in r <==> room in catalog && MatchesQuery(room, minPrice, maxPrice, tagSearch)
    ensures tagSearch == "" ==> r == FilterRoomsByPrice(catalog, minPrice, maxPrice)
  {
    FilterByTag(FilterRoomsByPrice(catalog, minPrice, maxPrice), tagSearch)
  }

  /** The two filtering steps together are one order-preserving filter of
      the catalog by the whole query. */
  lemma FilterRoomsIsOneFilter(catalog: seq<Room>, minPrice: int, maxPrice: int, tagSearch: string)
    ensures FilterRooms(catalog, minPrice, maxPrice, tagSearch) == Filter(catalog, Query(minPrice, maxPrice, tagSearch))
  {
    var byPrice := PriceQuery(minPrice, maxPrice);
    if tagSearch == "" {
      FilterCongruent(catalog, byPrice, Query(minPrice, maxPrice, tagSearch));
    } else {
      FilterFilter(catalog, byPrice, TagQuery(tagSearch), Query(minPrice, maxPrice, tagSearch));
    }
  }

  /** A catalog room that meets the query is listed at the position given by
      the number of listed rooms before it. */
  lemma FilterRoomsRank(catalog: seq<Room>, minPrice: int, maxPrice: int, tagSearch: string, i: int)
    requires 0 <= i < |catalog| && MatchesQuery(catalog[i], minPrice, maxPrice, tagSearch)
    ensures |FilterRooms(catalog[..i], minPrice, maxPrice, tagSearch)| < |FilterRooms(catalog, minPrice, maxPrice, tagSearch)|
    ensures FilterRooms(catalog, minPrice, maxPrice, tagSearch)[|FilterRooms(catalog[..i], minPrice, maxPrice, tagSearch)|] == catalog[i]
  {
    FilterRoomsIsOneFilter(catalog, minPrice, maxPrice, tagSearch);
    FilterRoomsIsOneFilter(catalog[..i], minPrice, maxPrice, tagSearch);
    FilterRank(catalog, Query(minPrice, maxPrice, tagSearch), i);
  }

  // ---------------------------------------------------------------------
  // Exact lookup

  /** `searchRoomByRoomNumber`: the first catalog room whose name equals the
      argument exactly, or none. */
  function SearchRoomByRoomNumber(catalog: seq<Room>, roomNumber: string): (r: Option<Room>)
    ensures r.None? <==> forall room :: room in catalog ==> room.roomName != roomNumber
    ensures r.Some? ==> exists i :: 0 <= i < |catalog| && catalog[i] == r.value && r.value.roomName == roomNumber &&
                          forall j :: 0 <= j < i ==> catalog[j].roomName != roomNumber
  {
    if catalog == [] then None
    else if catalog[0].roomName == roomNumber then Some(catalog[0])
    else SearchRoomByRoomNumber(catalog[1..], roomNumber)
  }

  /** Room names are a key of the catalog. */
  predicate UniqueNames(catalog: seq<Room>)
  {
    forall i, j :: 0 <= i < |catalog| && 0 <= j < |catalog| && catalog[i].roomName == catalog[j].roomName ==> i == j
  }

  /** In a catalog with unique names, looking up a room's name finds that
      very room. */
  lemma LookupFindsEveryRoom(catalog: seq<Room>, room: Room)
    requires UniqueNames(catalog) && room in catalog
    ensures SearchRoomByRoomNumber(catalog, room.roomName) == Some(room)
  {
  }

  /** Clicking a suggestion and searching for it finds a room with exactly
      that name. */
  lemma SuggestionResolves(catalog: seq<Room>, input: string, name: string)
    requires name in GenerateSuggestions(catalog, input)
    ensures SearchRoomByRoomNumber(catalog, name).Some?
    ensures SearchRoomByRoomNumber(catalog, name).value.roomName == name
  {
  }
}
