/**
 * The entry point of src/bin_packing.rs: a request's vehicle classes are
 * expanded into one length per vehicle, the catalog is grouped by location,
 * each location is asked for its cheapest combination, and the locations
 * that have one are returned ordered by total price.
 */
module Search {
  import opened Wrappers
  import opened Model
  import opened RowPacker
  import opened Combinations

  /** `quantity` copies of `length`; none when the quantity is not positive (the range `0..quantity` is empty). */
  function Repeat(length: int, quantity: int): (r: seq<int>)
    ensures |r| == if quantity <= 0 then 0 else quantity
    ensures forall i :: 0 <= i < |r| ==> r[i] == length
  {
    if quantity <= 0 then [] else Repeat(length, quantity - 1) + [length]
  }

  /** `expand_vehicles` as a value: each class in turn contributes its copies. */
  function Expansion(vehicles: seq<Vehicle>): seq<int>
  {
    if vehicles == [] then []
    else
      var last := vehicles[|vehicles| - 1];
      Expansion(vehicles[..|vehicles| - 1]) + Repeat(last.length, last.quantity)
  }

  /** `expand_vehicles`: one pushed length per vehicle, class by class, in request order. */
  method ExpandVehicles(vehicles: seq<Vehicle>) returns (expanded: seq<int>)
    ensures expanded == Expansion(vehicles)
  {
    expanded := [];
    var i := 0;
    while i < |vehicles|
      invariant 0 <= i <= |vehicles|
      invariant expanded == Expansion(vehicles[..i])
    {
      var vehicle := vehicles[i];
      var j := 0;
      while j < vehicle.quantity
        invariant 0 <= j <= if vehicle.quantity < 0 then 0 else vehicle.quantity
        invariant expanded == Expansion(vehicles[..i]) + Repeat(vehicle.length, j)
      {
        expanded := expanded + [vehicle.length];
        j := j + 1;
      }
      assert vehicles[..i + 1][..i] == vehicles[..i];
      assert Repeat(vehicle.length, j) == Repeat(vehicle.length, vehicle.quantity);
      i := i + 1;
    }
    assert vehicles[..i] == vehicles;
  }

  /** Expanding a concatenation expands each part in turn. */
  lemma {:induction false} ExpansionAppend(front: seq<Vehicle>, back: seq<Vehicle>)
    ensures Expansion(front + back) == Expansion(front) + Expansion(back)
    decreases |back|
  {
    if back == [] {
      assert front + back == front;
    } else {
      var init := back[..|back| - 1];
      assert (front + back)[..|front + back| - 1] == front + init;
      ExpansionAppend(front, init);
    }
  }

  /** The number of vehicles a request stands for: each class counts max(quantity, 0). */
  function VehicleCount(vehicles: seq<Vehicle>): int
  {
    if vehicles == [] then 0
    else
      var q := vehicles[|vehicles| - 1].quantity;
      VehicleCount(vehicles[..|vehicles| - 1]) + (if q <= 0 then 0 else q)
  }

  /** The expansion has one entry per vehicle; a class with a quantity of zero or less adds none. */
  lemma {:induction false} ExpansionCount(vehicles: seq<Vehicle>)
    ensures |Expansion(vehicles)| == VehicleCount(vehicles)
  {
    if vehicles != [] {
      ExpansionCount(vehicles[..|vehicles| - 1]);
    }
  }

  /** With no negative quantities, the expansion has one entry per vehicle in the request. */
  lemma {:induction false} ExpansionLength(vehicles: seq<Vehicle>)
    requires forall i :: 0 <= i < |vehicles| ==> vehicles[i].quantity >= 0
    ensures |Expansion(vehicles)| == TotalQuantity(vehicles)
  {
    if vehicles != [] {
      ExpansionLength(vehicles[..|vehicles| - 1]);
    }
  }

  /** A length is in the expansion exactly when some class of that length has a positive quantity. */
  lemma {:induction false} ExpansionMembers(vehicles: seq<Vehicle>, x: int)
    ensures x in Expansion(vehicles)
        <==> exists i :: 0 <= i < |vehicles| && vehicles[i].quantity >= 1 && vehicles[i].length == x
  {
    if vehicles != [] {
      var init := vehicles[..|vehicles| - 1];
      var last := vehicles[|vehicles| - 1];
      ExpansionMembers(init, x);
      if x in Expansion(vehicles) {
        if x !in Expansion(init) {
          assert x in Repeat(last.length, last.quantity);
          assert vehicles[|vehicles| - 1].length == x;
        } else {
          var i :| 0 <= i < |init| && init[i].quantity >= 1 && init[i].length == x;
          assert vehicles[i] == init[i];
        }
      } else {
        forall i | 0 <= i < |vehicles| && vehicles[i].quantity >= 1
          ensures vehicles[i].length != x
        {
          if i < |init| {
            assert vehicles[i] == init[i];
          } else {
            assert Repeat(last.length, last.quantity)[0] == last.length;
          }
        }
      }
    }
  }

  /** A request that passes validation expands to between one and five vehicles, all of positive length. */
  lemma ValidRequestExpansion(r: SearchRequest)
    requires ValidRequest(r)
    ensures 1 <= |Expansion(r.vehicles)| <= 5
    ensures forall k :: 0 <= k < |Expansion(r.vehicles)| ==> Expansion(r.vehicles)[k] > 0
  {
    ValidRequestShape(r);
    ExpansionLength(r.vehicles);
    forall k | 0 <= k < |Expansion(r.vehicles)|
      ensures Expansion(r.vehicles)[k] > 0
    {
      var x := Expansion(r.vehicles)[k];
      ExpansionMembers(r.vehicles, x);
    }
  }

  /** The unit-test case of `expand_vehicles`. */
  lemma ExpansionExample()
    ensures Expansion([Vehicle(10, 2), Vehicle(20, 1)]) == [10, 10, 20]
  {
    var vs := [Vehicle(10, 2), Vehicle(20, 1)];
    assert vs[..1] == [Vehicle(10, 2)] && [Vehicle(10, 2)][..0] == [];
    assert Repeat(10, 2) == [10, 10];
    assert Repeat(20, 1) == [20];
  }

  /** The location ids that occur in the catalog. */
  function Locations(listings: seq<Listing>): set<string>
  {
    set i | 0 <= i < |listings| :: listings[i].locationId
  }

  /** The listings at one location, in catalog order. */
  function AtLocation(listings: seq<Listing>, locationId: string): seq<Listing>
  {
    if listings == [] then []
    else
      var last := listings[|listings| - 1];
      AtLocation(listings[..|listings| - 1], locationId) + (if last.locationId == locationId then [last] else [])
  }

  lemma AtLocationSnoc(listings: seq<Listing>, l: Listing, locationId: string)
    ensures AtLocation(listings + [l], locationId)
         == AtLocation(listings, locationId) + (if l.locationId == locationId then [l] else [])
  {
    assert (listings + [l])[..|listings|] == listings;
  }

  /** A location with no listing has an empty group. */
  lemma {:induction false} AtLocationAbsent(listings: seq<Listing>, locationId: string)
    requires locationId !in Locations(listings)
    ensures AtLocation(listings, locationId) == []
  {
    if listings != [] {
      var init := listings[..|listings| - 1];
      assert Locations(init) <= Locations(listings) by {
        forall loc | loc in Locations(init)
          ensures loc in Locations(listings)
        {
          var i :| 0 <= i < |init| && init[i].locationId == loc;
          assert listings[i] == init[i];
        }
      }
      AtLocationAbsent(init, locationId);
    }
  }

  /** A group holds exactly the catalog's listings at that location. */
  lemma {:induction false} AtLocationMembers(listings: seq<Listing>, locationId: string, l: Listing)
    ensures l in AtLocation(listings, locationId) <==> l in listings && l.locationId == locationId
  {
    if listings != [] {
      var init := listings[..|listings| - 1];
      AtLocationMembers(init, locationId, l);
      assert listings == init + [listings[|listings| - 1]];
    }
  }

  /**
   * `group_by_location`: each listing is appended to the group of its
   * location, a group being created on the first listing seen there.
   */
  method GroupByLocation(listings: seq<Listing>) returns (grouped: map<string, seq<Listing>>)
    ensures grouped.Keys == Locations(listings)
    ensures forall loc :: loc in grouped ==> grouped[loc] == AtLocation(listings, loc)
  {
    grouped := map[];
    var i := 0;
    while i < |listings|
      invariant 0 <= i <= |listings|
      invariant grouped.Keys == Locations(listings[..i])
      invariant forall loc :: loc in grouped ==> grouped[loc] == AtLocation(listings[..i], loc)
    {
      var listing := listings[i];
      assert listings[..i + 1] == listings[..i] + [listing];
      forall loc
        ensures AtLocation(listings[..i + 1], loc)
             == AtLocation(listings[..i], loc) + (if listing.locationId == loc then [listing] else [])
      {
        AtLocationSnoc(listings[..i], listing, loc);
      }
      if listing.locationId in grouped {
        grouped := grouped[listing.locationId := grouped[listing.locationId] + [listing]];
      } else {
        AtLocationAbsent(listings[..i], listing.locationId);
        grouped := grouped[listing.locationId := [listing]];
      }
      LocationsSnoc(listings[..i], listing);
      i := i + 1;
    }
    assert listings[..i] == listings;
  }

  lemma LocationsSnoc(listings: seq<Listing>, l: Listing)
    ensures Locations(listings + [l]) == Locations(listings) + {l.locationId}
  {
    var all := listings + [l];
    forall loc | loc in Locations(all)
      ensures loc in Locations(listings) + {l.locationId}
    {
      var i :| 0 <= i < |all| && all[i].locationId == loc;
      if i < |listings| {
        assert listings[i] == all[i];
      }
    }
    forall loc | loc in Locations(listings)
      ensures loc in Locations(all)
    {
      var i :| 0 <= i < |listings| && listings[i].locationId == loc;
      assert all[i] == listings[i];
    }
    assert all[|listings|] == l;
  }

  /** The order `sort_by_key(|r| r.total_price_in_cents)` establishes. */
  predicate SortedByPrice(s: seq<PossibleSpace>)
  {
    forall i, j :: 0 <= i < j < |s| ==> s[i].totalPriceInCents <= s[j].totalPriceInCents
  }

  /** No location appears twice. */
  predicate DistinctLocations(s: seq<PossibleSpace>)
  {
    forall i, j :: 0 <= i < j < |s| ==> s[i].locationId != s[j].locationId
  }

  /** Places `x` after every entry that is not dearer, so equal prices keep their order. */
  function InsertByPrice(sorted: seq<PossibleSpace>, x: PossibleSpace): (r: seq<PossibleSpace>)
    ensures multiset(r) == multiset(sorted) + multiset{x}
  {
    if sorted == [] then [x]
    else
      var last := sorted[|sorted| - 1];
      if last.totalPriceInCents <= x.totalPriceInCents then sorted + [x]
      else
        assert sorted == sorted[..|sorted| - 1] + [last];
        InsertByPrice(sorted[..|sorted| - 1], x) + [last]
  }

  /** A stable insertion sort by total price, standing for the standard library's `sort_by_key`. */
  function SortByPrice(s: seq<PossibleSpace>): seq<PossibleSpace>
  {
    if s == [] then [] else InsertByPrice(SortByPrice(s[..|s| - 1]), s[|s| - 1])
  }

  lemma {:induction false} InsertByPriceSorted(sorted: seq<PossibleSpace>, x: PossibleSpace)
    requires SortedByPrice(sorted)
    ensures SortedByPrice(InsertByPrice(sorted, x))
  {
    if sorted != [] {
      var init := sorted[..|sorted| - 1];
      var last := sorted[|sorted| - 1];
      if last.totalPriceInCents > x.totalPriceInCents {
        InsertByPriceSorted(init, x);
        var front := InsertByPrice(init, x);
        forall y | y in front
          ensures y.totalPriceInCents <= last.totalPriceInCents
        {
          InsertedFrom(init, x, y);
          if y != x {
            var t :| 0 <= t < |init| && init[t] == y;
            assert sorted[t] == y;
          }
        }
        AppendSorted(front, last);
      } else {
        AppendSorted(sorted, x);
      }
    }
  }

  /** Every entry after an insertion is the inserted one or was there before. */
  lemma InsertedFrom(sorted: seq<PossibleSpace>, x: PossibleSpace, y: PossibleSpace)
    requires y in InsertByPrice(sorted, x)
    ensures y == x || y in sorted
  {
    assert y in multiset(InsertByPrice(sorted, x));
  }

  lemma AppendSorted(front: seq<PossibleSpace>, x: PossibleSpace)
    requires SortedByPrice(front)
    requires forall y :: y in front ==> y.totalPriceInCents <= x.totalPriceInCents
    ensures SortedByPrice(front + [x])
  {
    var all := front + [x];
    forall i, j | 0 <= i < j < |all|
      ensures all[i].totalPriceInCents <= all[j].totalPriceInCents
    {
      if j == |front| {
        assert all[i] in front;
      }
    }
  }

  /** Sorting orders the entries by price and keeps exactly the same entries. */
  lemma {:induction false} SortByPriceCorrect(s: seq<PossibleSpace>)
    ensures SortedByPrice(SortByPrice(s))
    ensures multiset(SortByPrice(s)) == multiset(s)
  {
    if s != [] {
      var init := s[..|s| - 1];
      SortByPriceCorrect(init);
      InsertByPriceSorted(SortByPrice(init), s[|s| - 1]);
      assert s == init + [s[|s| - 1]];
    }
  }

  lemma AppendDistinct(front: seq<PossibleSpace>, x: PossibleSpace)
    requires DistinctLocations(front)
    requires forall y :: y in front ==> y.locationId != x.locationId
    ensures DistinctLocations(front + [x])
  {
    var all := front + [x];
    forall i, j | 0 <= i < j < |all|
      ensures all[i].locationId != all[j].locationId
    {
      if j == |front| {
        assert all[i] in front;
      }
    }
  }

  lemma {:induction false} InsertByPriceDistinct(sorted: seq<PossibleSpace>, x: PossibleSpace)
    requires DistinctLocations(sorted)
    requires forall y :: y in sorted ==> y.locationId != x.locationId
    ensures DistinctLocations(InsertByPrice(sorted, x))
  {
    if sorted == [] {
    } else {
      var init := sorted[..|sorted| - 1];
      var last := sorted[|sorted| - 1];
      if last.totalPriceInCents <= x.totalPriceInCents {
        AppendDistinct(sorted, x);
      } else {
        InsertByPriceDistinct(init, x);
        var front := InsertByPrice(init, x);
        forall y | y in front
          ensures y.locationId != last.locationId
        {
          InsertedFrom(init, x, y);
          if y != x {
            var t :| 0 <= t < |init| && init[t] == y;
            assert sorted[t] == y;
          }
        }
        AppendDistinct(front, last);
      }
    }
  }

  /** Sorting never makes a location appear twice. */
  lemma {:induction false} SortByPriceDistinct(s: seq<PossibleSpace>)
    requires DistinctLocations(s)
    ensures DistinctLocations(SortByPrice(s))
  {
    if s != [] {
      var init := s[..|s| - 1];
      var x := s[|s| - 1];
      SortByPriceDistinct(init);
      SortByPriceCorrect(init);
      forall y | y in SortByPrice(init)
        ensures y.locationId != x.locationId
      {
        assert y in multiset(SortByPrice(init));
        var t :| 0 <= t < |init| && init[t] == y;
        assert s[t] == y;
      }
      InsertByPriceDistinct(SortByPrice(init), x);
    }
  }

  /** An entry is the cheapest combination of a location of the catalog. */
  predicate LocationAnswer(expanded: seq<int>, listings: seq<Listing>, r: PossibleSpace)
  {
    && r.locationId in Locations(listings)
    && Cheapest(expanded, AtLocation(listings, r.locationId)) == Some(CheapestCombo(r.listingIds, r.totalPriceInCents))
  }

  /**
   * What `search_locations` promises: nothing for a request without
   * vehicles; otherwise the entries are ordered by total price, name each
   * location at most once, each is the cheapest combination of its
   * location, and every location that has a combination is there.
   */
  predicate SearchAnswer(vehicles: seq<Vehicle>, listings: seq<Listing>, results: seq<PossibleSpace>)
  {
    var expanded := Expansion(vehicles);
    && (expanded == [] ==> results == [])
    && SortedByPrice(results)
    && DistinctLocations(results)
    && (forall r :: r in results ==> LocationAnswer(expanded, listings, r))
    && (expanded != [] ==>
         forall loc :: loc in Locations(listings) && Cheapest(expanded, AtLocation(listings, loc)).Some?
           ==> exists r :: r in results && r.locationId == loc)
  }

  /**
   * `search_locations`: expands the vehicles, returns nothing when there
   * are none, and otherwise visits the location groups in an unspecified
   * order, keeps each location's cheapest combination, and sorts by price.
   */
  method SearchLocations(vehicles: seq<Vehicle>, listings: seq<Listing>) returns (results: seq<PossibleSpace>)
    ensures SearchAnswer(vehicles, listings, results)
  {
    var expanded := ExpandVehicles(vehicles);
    if |expanded| == 0 {
      return [];
    }
    var grouped := GroupByLocation(listings);
    var found: seq<PossibleSpace> := [];
    var pending := grouped.Keys;
    while pending != {}
      invariant pending <= grouped.Keys
      invariant FoundSoFar(expanded, listings, grouped.Keys - pending, found)
      decreases |pending|
    {
      var loc :| loc in pending;
      found := VisitLocation(expanded, listings, grouped, pending, loc, found);
      pending := pending - {loc};
    }
    assert grouped.Keys - pending == Locations(listings);
    results := SortByPrice(found);
    SortedFoundIsAnswer(vehicles, listings, found);
  }

  /**
   * The locations in `visited` are done: `found` names each at most once,
   * holds only cheapest combinations of visited locations, and holds every
   * visited location that has one.
   */
  predicate FoundSoFar(expanded: seq<int>, listings: seq<Listing>, visited: set<string>, found: seq<PossibleSpace>)
  {
    && DistinctLocations(found)
    && (forall r :: r in found ==> LocationAnswer(expanded, listings, r) && r.locationId in visited)
    && (forall loc :: loc in visited && Cheapest(expanded, AtLocation(listings, loc)).Some?
          ==> exists r :: r in found && r.locationId == loc)
  }

  /** One pass of the loop over the groups: asks one location for its cheapest combination and keeps it. */
  method VisitLocation(
    expanded: seq<int>, listings: seq<Listing>, grouped: map<string, seq<Listing>>,
    pending: set<string>, loc: string, found: seq<PossibleSpace>)
    returns (next: seq<PossibleSpace>)
    requires grouped.Keys == Locations(listings)
    requires forall l :: l in grouped ==> grouped[l] == AtLocation(listings, l)
    requires loc in pending && pending <= grouped.Keys
    requires FoundSoFar(expanded, listings, grouped.Keys - pending, found)
    ensures FoundSoFar(expanded, listings, grouped.Keys - (pending - {loc}), next)
  {
    var best := FindCheapestCombination(expanded, grouped[loc]);
    next := found;
    if best.Some? {
      var entry := PossibleSpace(loc, best.value.listingIds, best.value.totalPriceInCents);
      assert LocationAnswer(expanded, listings, entry);
      AppendDistinct(found, entry);
      next := found + [entry];
    }
  }

  /** Sorting what the loop found gives the promised answer. */
  lemma SortedFoundIsAnswer(vehicles: seq<Vehicle>, listings: seq<Listing>, found: seq<PossibleSpace>)
    requires Expansion(vehicles) != []
    requires FoundSoFar(Expansion(vehicles), listings, Locations(listings), found)
    ensures SearchAnswer(vehicles, listings, SortByPrice(found))
  {
    SortByPriceCorrect(found);
    SortByPriceDistinct(found);
    var results := SortByPrice(found);
    forall r | r in results
      ensures r in found
    {
      assert r in multiset(results);
    }
    forall r | r in found
      ensures r in results
    {
      assert r in multiset(found);
    }
  }

  /**
   * The answer is determined up to order: the groups are visited in the
   * map's arbitrary order, yet any two answers hold the same entries.
   */
  lemma SearchAnswersAgree(vehicles: seq<Vehicle>, listings: seq<Listing>, a: seq<PossibleSpace>, b: seq<PossibleSpace>)
    requires SearchAnswer(vehicles, listings, a) && SearchAnswer(vehicles, listings, b)
    ensures forall r :: r in a <==> r in b
  {
    forall r | r in a
      ensures r in b
    {
      AnswerEntryIn(vehicles, listings, a, b, r);
    }
    forall r | r in b
      ensures r in a
    {
      AnswerEntryIn(vehicles, listings, b, a, r);
    }
  }

  lemma AnswerEntryIn(vehicles: seq<Vehicle>, listings: seq<Listing>, a: seq<PossibleSpace>, b: seq<PossibleSpace>, r: PossibleSpace)
    requires SearchAnswer(vehicles, listings, a) && SearchAnswer(vehicles, listings, b)
    requires r in a
    ensures r in b
  {
    var expanded := Expansion(vehicles);
    assert LocationAnswer(expanded, listings, r);
    var r' :| r' in b && r'.locationId == r.locationId;
    assert LocationAnswer(expanded, listings, r');
  }

  /** Entries with distinct locations drawn from `locs` are at most as many as `locs`. */
  lemma {:induction false} DistinctBound(s: seq<PossibleSpace>, locs: set<string>)
    requires DistinctLocations(s)
    requires forall r :: r in s ==> r.locationId in locs
    ensures |s| <= |locs|
  {
    if s != [] {
      var init := s[..|s| - 1];
      var last := s[|s| - 1];
      forall r | r in init
        ensures r.locationId in locs - {last.locationId}
      {
        var t :| 0 <= t < |init| && init[t] == r;
        assert s[t] == r;
      }
      DistinctBound(init, locs - {last.locationId});
    }
  }

  /**
   * Three listings at two locations, the first and third sharing one: each
   * location is answered by its cheapest single listing, the cheaper
   * location first.
   */
  lemma TwoLocationsAnswer(v: int, l1: Listing, l2: Listing, l3: Listing, results: seq<PossibleSpace>)
    requires l1.locationId == l3.locationId != l2.locationId
    requires VehicleWidth <= GetOrientation(l1).1 && v <= GetOrientation(l1).0
    requires VehicleWidth <= GetOrientation(l2).1 && v <= GetOrientation(l2).0
    requires 0 <= l1.priceInCents <= l3.priceInCents && l1.priceInCents < l2.priceInCents
    requires SearchAnswer([Vehicle(v, 1)], [l1, l2, l3], results)
    ensures results == [PossibleSpace(l1.locationId, [l1.id], l1.priceInCents), PossibleSpace(l2.locationId, [l2.id], l2.priceInCents)]
  {
    var e1 := PossibleSpace(l1.locationId, [l1.id], l1.priceInCents);
    var e2 := PossibleSpace(l2.locationId, [l2.id], l2.priceInCents);
    TwoLocationsEntries(v, l1, l2, l3, results);
    TwoEntriesInOrder(results, e1, e2);
  }

  /** The entries of that answer: the first location's listing and the second's, nothing else. */
  lemma TwoLocationsEntries(v: int, l1: Listing, l2: Listing, l3: Listing, results: seq<PossibleSpace>)
    requires l1.locationId == l3.locationId != l2.locationId
    requires VehicleWidth <= GetOrientation(l1).1 && v <= GetOrientation(l1).0
    requires VehicleWidth <= GetOrientation(l2).1 && v <= GetOrientation(l2).0
    requires 0 <= l1.priceInCents <= l3.priceInCents
    requires SearchAnswer([Vehicle(v, 1)], [l1, l2, l3], results)
    ensures PossibleSpace(l1.locationId, [l1.id], l1.priceInCents) in results
    ensures PossibleSpace(l2.locationId, [l2.id], l2.priceInCents) in results
    ensures forall r :: r in results ==>
      r == PossibleSpace(l1.locationId, [l1.id], l1.priceInCents) || r == PossibleSpace(l2.locationId, [l2.id], l2.priceInCents)
  {
    var ls := [l1, l2, l3];
    var e1 := PossibleSpace(l1.locationId, [l1.id], l1.priceInCents);
    var e2 := PossibleSpace(l2.locationId, [l2.id], l2.priceInCents);
    SingleVehicleExpansion(v);
    GroupsOfThree(l1, l2, l3);
    FirstListingWins(v, l1, l3);
    OnlyListingWins(v, l2);
    AnswerHasLocation([Vehicle(v, 1)], ls, results, l1.locationId, CheapestCombo([l1.id], l1.priceInCents));
    AnswerHasLocation([Vehicle(v, 1)], ls, results, l2.locationId, CheapestCombo([l2.id], l2.priceInCents));
    forall r | r in results
      ensures r == e1 || r == e2
    {
      TwoLocationsEntry(v, l1, l2, l3, results, r);
    }
  }

  lemma TwoLocationsEntry(v: int, l1: Listing, l2: Listing, l3: Listing, results: seq<PossibleSpace>, r: PossibleSpace)
    requires l1.locationId == l3.locationId != l2.locationId
    requires Cheapest([v], [l1, l3]) == Some(CheapestCombo([l1.id], l1.priceInCents))
    requires Cheapest([v], [l2]) == Some(CheapestCombo([l2.id], l2.priceInCents))
    requires Expansion([Vehicle(v, 1)]) == [v]
    requires SearchAnswer([Vehicle(v, 1)], [l1, l2, l3], results) && r in results
    ensures r == PossibleSpace(l1.locationId, [l1.id], l1.priceInCents) || r == PossibleSpace(l2.locationId, [l2.id], l2.priceInCents)
  {
    GroupsOfThree(l1, l2, l3);
    AnswerEntry([Vehicle(v, 1)], [l1, l2, l3], results, r);
  }

  /** A location whose cheapest combination exists appears in the answer with exactly that combination. */
  lemma AnswerHasLocation(
    vehicles: seq<Vehicle>, listings: seq<Listing>, results: seq<PossibleSpace>, loc: string, c: CheapestCombo)
    requires SearchAnswer(vehicles, listings, results) && Expansion(vehicles) != []
    requires loc in Locations(listings) && Cheapest(Expansion(vehicles), AtLocation(listings, loc)) == Some(c)
    ensures PossibleSpace(loc, c.listingIds, c.totalPriceInCents) in results
  {
    var r :| r in results && r.locationId == loc;
    assert LocationAnswer(Expansion(vehicles), listings, r);
  }

  /** Every entry of the answer is the cheapest combination of a location of the catalog. */
  lemma AnswerEntry(vehicles: seq<Vehicle>, listings: seq<Listing>, results: seq<PossibleSpace>, r: PossibleSpace)
    requires SearchAnswer(vehicles, listings, results) && r in results
    ensures r.locationId in Locations(listings)
    ensures Cheapest(Expansion(vehicles), AtLocation(listings, r.locationId)) == Some(CheapestCombo(r.listingIds, r.totalPriceInCents))
  {
  }

  /** Two entries at different locations, the first strictly cheaper, make up a sorted answer with no repeated location. */
  lemma TwoEntriesInOrder(results: seq<PossibleSpace>, e1: PossibleSpace, e2: PossibleSpace)
    requires e1.locationId != e2.locationId && e1.totalPriceInCents < e2.totalPriceInCents
    requires SortedByPrice(results) && DistinctLocations(results)
    requires e1 in results && e2 in results
    requires forall r :: r in results ==> r == e1 || r == e2
    ensures results == [e1, e2]
  {
    DistinctBound(results, {e1.locationId, e2.locationId});
    assert |results| == 2;
    assert results[0].locationId != results[1].locationId;
    assert results[0].totalPriceInCents <= results[1].totalPriceInCents;
  }

  lemma SingleVehicleExpansion(v: int)
    ensures Expansion([Vehicle(v, 1)]) == [v]
  {
    assert [Vehicle(v, 1)][..0] == [];
    assert Repeat(v, 1) == [v];
  }

  /** The groups of three listings at two locations, the first and third sharing one. */
  lemma GroupsOfThree(l1: Listing, l2: Listing, l3: Listing)
    requires l1.locationId == l3.locationId != l2.locationId
    ensures Locations([l1, l2, l3]) == {l1.locationId, l2.locationId}
    ensures AtLocation([l1, l2, l3], l1.locationId) == [l1, l3]
    ensures AtLocation([l1, l2, l3], l2.locationId) == [l2]
  {
    LocationsOfThree(l1, l2, l3);
    assert [l1, l2, l3] == [l1, l2] + [l3] && [l1, l2] == [l1] + [l2] && [l1] == [] + [l1];
    AtLocationSnoc([], l1, l1.locationId);
    AtLocationSnoc([l1], l2, l1.locationId);
    AtLocationSnoc([l1, l2], l3, l1.locationId);
    AtLocationSnoc([], l1, l2.locationId);
    AtLocationSnoc([l1], l2, l2.locationId);
    AtLocationSnoc([l1, l2], l3, l2.locationId);
  }

  lemma LocationsOfThree(l1: Listing, l2: Listing, l3: Listing)
    ensures Locations([l1, l2, l3]) == {l1.locationId, l2.locationId, l3.locationId}
  {
    assert [l1, l2, l3] == [l1, l2] + [l3] && [l1, l2] == [l1] + [l2] && [l1] == [] + [l1];
    LocationsSnoc([], l1);
    LocationsSnoc([l1], l2);
    LocationsSnoc([l1, l2], l3);
  }

  /** The unit-test case of `search_locations`: two locations, the cheaper first. */
  lemma SearchExample(results: seq<PossibleSpace>)
    requires SearchAnswer(
      [Vehicle(10, 1)],
      [Listing("1", "loc1", 20, 10, 100), Listing("2", "loc2", 20, 10, 150), Listing("3", "loc1", 20, 10, 200)],
      results)
    ensures results == [PossibleSpace("loc1", ["1"], 100), PossibleSpace("loc2", ["2"], 150)]
  {
    TwoLocationsAnswer(10, Listing("1", "loc1", 20, 10, 100), Listing("2", "loc2", 20, 10, 150),
      Listing("3", "loc1", 20, 10, 200), results);
  }
}
