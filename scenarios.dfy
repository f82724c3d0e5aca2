/** Worked examples of the query engine on small catalogs. */
module Scenarios {
  import opened Text
  import opened RoomSearch
  import opened DisplaySort

  /** A room with neither tags nor pictures, one with both, and one with
      pictures only are listed as: both, pictures only, neither. */
  lemma SortScenario()
    ensures
      var a := Room("A", 100, [], [], []);
      var b := Room("B", 200, ["ac"], [1], ["u1"]);
      var c := Room("C", 300, [], [], ["u2"]);
      DisplayOrder([a, b, c]) == [b, c, a]
  {
    var a := Room("A", 100, [], [], []);
    var b := Room("B", 200, ["ac"], [1], ["u1"]);
    var c := Room("C", 300, [], [], ["u2"]);
    BucketCons(a, [b, c], 0);
    BucketCons(a, [b, c], 1);
    BucketCons(a, [b, c], 2);
    BucketCons(a, [b, c], 3);
    assert [a, b, c] == [a] + [b, c];
  }

  /** A room tagged "wifi" priced 500 is listed for the price range 0 to 1000
      with tag search "wi". */
  lemma TagScenarioMatch()
    ensures
      var deluxe := Room("Deluxe 101", 500, ["wifi"], [0], []);
      deluxe in FilterRooms([deluxe], 0, 1000, "wi")
  {
    var deluxe := Room("Deluxe 101", 500, ["wifi"], [0], []);
    assert Lower("wifi") == "wifi";
    assert Lower("wi") == "wi";
    assert "wifi"[..2] == "wi";
    assert TagContains("wifi", "wi");
    assert "wifi" in deluxe.tags;
  }

  /** The same room is not listed with tag search "pool". */
  lemma TagScenarioMiss()
    ensures
      var deluxe := Room("Deluxe 101", 500, ["wifi"], [0], []);
      deluxe !in FilterRooms([deluxe], 0, 1000, "pool")
  {
    var deluxe := Room("Deluxe 101", 500, ["wifi"], [0], []);
    assert Lower("wifi") == "wifi";
    assert Lower("pool") == "pool";
    assert "wifi"[1..] == "ifi";
    ContainsNoLonger("ifi", "pool");
    assert "wifi"[..4][0] != "pool"[0];
    assert !TagContains("wifi", "pool");
    assert !HasMatchingTag(deluxe, "pool");
  }
}
