/**
 * The records of the search service and the validation rules a request
 * must satisfy before it reaches the search engine (src/model.rs).
 * Lengths, widths and prices are integers; prices are in cents.
 */
module Model {

  /** A rentable storage space in the catalog. */
  datatype Listing = Listing(
    id: string,
    locationId: string,
    length: int,
    width: int,
    priceInCents: int)

  /** A class of identical vehicles: `quantity` vehicles of length `length`. */
  datatype Vehicle = Vehicle(length: int, quantity: int)

  /** The body of a search request: the vehicles to be stored. */
  datatype SearchRequest = SearchRequest(vehicles: seq<Vehicle>)

  /** One result of a search: the cheapest listings at one location. */
  datatype PossibleSpace = PossibleSpace(
    locationId: string,
    listingIds: seq<string>,
    totalPriceInCents: int)

  /** The outcome of a validation rule: `Ok(())` or a `ValidationError` code. */
  datatype Validation = Accepted | Rejected(code: string)

  /** The custom rule on `Vehicle::length`. */
  function ValidateLength(length: int): Validation
  {
    if length <= 0 then Rejected("length_must_be_positive") else Accepted
  }

  /** Sum of the quantities of all vehicle classes. */
  function TotalQuantity(vehicles: seq<Vehicle>): int
  {
    if vehicles == [] then 0
    else TotalQuantity(vehicles[..|vehicles| - 1]) + vehicles[|vehicles| - 1].quantity
  }

  /** The custom rule on `SearchRequest::vehicles`: at most five vehicles in all. */
  function ValidateTotalQuantity(vehicles: seq<Vehicle>): Validation
  {
    if TotalQuantity(vehicles) > 5 then Rejected("total_quantity_exceeds_5") else Accepted
  }

  /** The attributes on `Vehicle`: a custom length rule and `range(min = 1)` on the quantity. */
  predicate ValidVehicle(v: Vehicle)
  {
    ValidateLength(v.length).Accepted? && v.quantity >= 1
  }

  /** The attributes on `SearchRequest::vehicles`: `length(min = 1)`, `nested`, and the total rule. */
  predicate ValidRequest(r: SearchRequest)
  {
    && |r.vehicles| >= 1
    && (forall i :: 0 <= i < |r.vehicles| ==> ValidVehicle(r.vehicles[i]))
    && ValidateTotalQuantity(r.vehicles).Accepted?
  }

  /** The length rule accepts exactly the positive lengths; every rejection carries one code. */
  lemma ValidateLengthMeaning(length: int)
    ensures ValidateLength(length).Accepted? <==> length > 0
    ensures ValidateLength(length).Rejected? ==> ValidateLength(length).code == "length_must_be_positive"
  {
  }

  /** The total rule accepts exactly the requests with at most five vehicles in all. */
  lemma ValidateTotalQuantityMeaning(vehicles: seq<Vehicle>)
    ensures ValidateTotalQuantity(vehicles).Accepted? <==> TotalQuantity(vehicles) <= 5
  {
  }

  /** Every vehicle class counts at least once towards the total. */
  lemma {:induction false} TotalQuantityAtLeastCount(vehicles: seq<Vehicle>)
    requires forall i :: 0 <= i < |vehicles| ==> vehicles[i].quantity >= 1
    ensures TotalQuantity(vehicles) >= |vehicles|
  {
    if vehicles != [] {
      TotalQuantityAtLeastCount(vehicles[..|vehicles| - 1]);
    }
  }

  /** A valid request names between one and five vehicle classes, each with a positive length. */
  lemma ValidRequestShape(r: SearchRequest)
    requires ValidRequest(r)
    ensures 1 <= |r.vehicles| <= 5
    ensures 1 <= TotalQuantity(r.vehicles) <= 5
    ensures forall i :: 0 <= i < |r.vehicles| ==> r.vehicles[i].length > 0 && r.vehicles[i].quantity >= 1
  {
    TotalQuantityAtLeastCount(r.vehicles);
  }

  /** The cases of the validation tests, as the code decides them. */
  lemma ValidationExamples()
    ensures ValidVehicle(Vehicle(10, 1)) && ValidVehicle(Vehicle(50, 3))
    ensures !ValidVehicle(Vehicle(-10, 1)) && !ValidVehicle(Vehicle(0, 1))
    ensures !ValidVehicle(Vehicle(10, 0)) && !ValidVehicle(Vehicle(10, -1))
    // No multiple-of-10 rule exists in the code: a length of 15 passes.
    ensures ValidVehicle(Vehicle(15, 1))
    ensures ValidRequest(SearchRequest([Vehicle(10, 2), Vehicle(20, 3)]))
    ensures !ValidRequest(SearchRequest([]))
    ensures !ValidRequest(SearchRequest([Vehicle(10, 3), Vehicle(20, 3)]))
    ensures !ValidRequest(SearchRequest([Vehicle(10, 0)]))
    ensures ValidRequest(SearchRequest([Vehicle(15, 1)]))
  {
    assert [Vehicle(10, 2), Vehicle(20, 3)][..1] == [Vehicle(10, 2)];
    assert [Vehicle(10, 3), Vehicle(20, 3)][..1] == [Vehicle(10, 3)];
  }
}
