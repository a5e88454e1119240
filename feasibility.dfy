/**
 * The feasibility checker of src/bin_packing.rs: a depth-first search that
 * assigns the vehicles, in order, to listings of one subset, asking the
 * row packer before each choice and undoing a choice that leads nowhere.
 * An assignment maps each vehicle index to a listing index or to None.
 */
module Feasibility {
  import opened Wrappers
  import opened Model
  import opened RowPacker

  /** The lengths of the vehicles that `assignment` puts in listing `listingIdx`, in vehicle order. */
  function AssignedTo(vehicles: seq<int>, assignment: seq<Option<nat>>, listingIdx: nat): seq<int>
    requires |assignment| <= |vehicles|
  {
    if assignment == [] then []
    else
      var last := |assignment| - 1;
      AssignedTo(vehicles, assignment[..last], listingIdx)
        + (if assignment[last] == Some(listingIdx) then [vehicles[last]] else [])
  }

  /** The packer's verdict on adding a vehicle to the ones `assignment` already puts in the listing. */
  predicate AdmitsVehicle(
    vehicles: seq<int>, listing: Listing, assignment: seq<Option<nat>>, listingIdx: nat, newLength: int)
    requires |assignment| <= |vehicles|
  {
    var (primary, secondary) := GetOrientation(listing);
    FitsInDimension(AssignedTo(vehicles, assignment, listingIdx), newLength, primary, secondary, VehicleWidth)
  }

  /**
   * `can_add_vehicle_to_listing`: collects the vehicles already assigned to
   * the listing and asks the row packer about the oriented listing.
   */
  method CanAddVehicleToListing(
    vehicles: seq<int>, listing: Listing, assignment: array<Option<nat>>, listingIdx: nat, newLength: int)
    returns (ok: bool)
    requires assignment.Length <= |vehicles|
    ensures ok == AdmitsVehicle(vehicles, listing, assignment[..], listingIdx, newLength)
  {
    var alreadyThere: seq<int> := [];
    var i := 0;
    while i < assignment.Length
      invariant 0 <= i <= assignment.Length
      invariant alreadyThere == AssignedTo(vehicles, assignment[..i], listingIdx)
    {
      assert assignment[..i + 1][..i] == assignment[..i];
      if assignment[i] == Some(listingIdx) {
        alreadyThere := alreadyThere + [vehicles[i]];
      }
      i := i + 1;
    }
    assert assignment[..] == assignment[..assignment.Length];
    var (primary, secondary) := GetOrientation(listing);
    ok := TryFitVehiclesInDimension(alreadyThere, newLength, primary, secondary, VehicleWidth);
  }

  /** No vehicle from index `k` on is assigned yet. */
  predicate Unassigned(assignment: seq<Option<nat>>, k: nat)
  {
    forall i :: k <= i < |assignment| ==> assignment[i] == None
  }

  /**
   * `backtrack_assign` as a value: whether the search starting at vehicle
   * `k`, with the current assignment, reaches a complete assignment.
   */
  function Feasible(vehicles: seq<int>, listings: seq<Listing>, assignment: seq<Option<nat>>, k: nat): bool
    requires |assignment| == |vehicles| && k <= |vehicles|
    decreases |vehicles| - k, |listings| + 1
  {
    k == |vehicles| || TryListings(vehicles, listings, assignment, k, 0)
  }

  /** The loop of `backtrack_assign` over the listings, from index `from` on. */
  function TryListings(
    vehicles: seq<int>, listings: seq<Listing>, assignment: seq<Option<nat>>, k: nat, from: nat): bool
    requires |assignment| == |vehicles| && k < |vehicles| && from <= |listings|
    decreases |vehicles| - k, |listings| - from
  {
    && from < |listings|
    && ((&& AdmitsVehicle(vehicles, listings[from], assignment, from, vehicles[k])
         && Feasible(vehicles, listings, assignment[k := Some(from)], k + 1))
        || TryListings(vehicles, listings, assignment, k, from + 1))
  }

  /**
   * Vehicle `j` is in a listing that accepted it on top of the vehicles
   * before it that share that listing.
   */
  predicate Accepted(vehicles: seq<int>, listings: seq<Listing>, assignment: seq<Option<nat>>, j: nat)
    requires |assignment| == |vehicles| && j < |vehicles|
  {
    && assignment[j].Some?
    && assignment[j].value < |listings|
    && AdmitsVehicle(vehicles, listings[assignment[j].value], assignment[..j], assignment[j].value, vehicles[j])
  }

  /** Every vehicle from index `k` on is accepted where it sits. */
  ghost predicate AcceptedFrom(vehicles: seq<int>, listings: seq<Listing>, assignment: seq<Option<nat>>, k: nat)
    requires |assignment| == |vehicles| && k <= |vehicles|
  {
    forall j :: k <= j < |vehicles| ==> Accepted(vehicles, listings, assignment, j)
  }

  /** A complete assignment in which every vehicle is accepted. */
  ghost predicate IsPlacement(vehicles: seq<int>, listings: seq<Listing>, assignment: seq<Option<nat>>)
  {
    |assignment| == |vehicles| && AcceptedFrom(vehicles, listings, assignment, 0)
  }

  /** Unassigned vehicles at the end add nothing to any listing. */
  lemma {:induction false} AssignedToUnassignedTail(
    vehicles: seq<int>, assignment: seq<Option<nat>>, k: nat, listingIdx: nat)
    requires |assignment| <= |vehicles| && k <= |assignment| && Unassigned(assignment, k)
    ensures AssignedTo(vehicles, assignment, listingIdx) == AssignedTo(vehicles, assignment[..k], listingIdx)
    decreases |assignment|
  {
    if |assignment| > k {
      var last := |assignment| - 1;
      assert assignment[..last][..k] == assignment[..k];
      AssignedToUnassignedTail(vehicles, assignment[..last], k, listingIdx);
    } else {
      assert assignment[..k] == assignment;
    }
  }

  /**
   * `backtrack_assign`: tries each listing for vehicle `vehicleIdx` in
   * order and stops at the first choice that leads to a complete assignment.
   */
  method BacktrackAssign(
    vehicles: seq<int>, listings: seq<Listing>, assignment: array<Option<nat>>, vehicleIdx: nat)
    returns (found: bool)
    requires assignment.Length == |vehicles| && vehicleIdx <= |vehicles|
    requires Unassigned(assignment[..], vehicleIdx)
    modifies assignment
    decreases |vehicles| - vehicleIdx, 1
    ensures found == Feasible(vehicles, listings, old(assignment[..]), vehicleIdx)
    ensures !found ==> assignment[..] == old(assignment[..])
    ensures found ==> assignment[..vehicleIdx] == old(assignment[..vehicleIdx])
    ensures found ==> AcceptedFrom(vehicles, listings, assignment[..], vehicleIdx)
  {
    if vehicleIdx == |vehicles| {
      return true;
    }
    ghost var start := assignment[..];
    var idx := 0;
    while idx < |listings|
      invariant 0 <= idx <= |listings|
      invariant assignment[..] == start
      invariant Feasible(vehicles, listings, start, vehicleIdx) == TryListings(vehicles, listings, start, vehicleIdx, idx)
    {
      found := TryListing(vehicles, listings, assignment, vehicleIdx, idx);
      if found {
        return true;
      }
      idx := idx + 1;
    }
    return false;
  }

  /**
   * One turn of the loop in `backtrack_assign`: if listing `idx` admits the
   * vehicle, record the choice and recurse on the next vehicle; on failure
   * set the entry back to None.
   */
  method TryListing(
    vehicles: seq<int>, listings: seq<Listing>, assignment: array<Option<nat>>, vehicleIdx: nat, idx: nat)
    returns (found: bool)
    requires assignment.Length == |vehicles| && vehicleIdx < |vehicles| && idx < |listings|
    requires Unassigned(assignment[..], vehicleIdx)
    modifies assignment
    decreases |vehicles| - vehicleIdx, 0
    ensures TryListings(vehicles, listings, old(assignment[..]), vehicleIdx, idx)
      == (found || TryListings(vehicles, listings, old(assignment[..]), vehicleIdx, idx + 1))
    ensures !found ==> assignment[..] == old(assignment[..])
    ensures found ==> assignment[..vehicleIdx] == old(assignment[..vehicleIdx])
    ensures found ==> AcceptedFrom(vehicles, listings, assignment[..], vehicleIdx)
  {
    ghost var start := assignment[..];
    ghost var next := start[vehicleIdx := Some(idx)];
    var ok := CanAddVehicleToListing(vehicles, listings[idx], assignment, idx, vehicles[vehicleIdx]);
    found := false;
    if ok {
      assignment[vehicleIdx] := Some(idx);
      assert assignment[..] == next;
      found := BacktrackAssign(vehicles, listings, assignment, vehicleIdx + 1);
      if found {
        ChoiceAccepted(vehicles, listings, start, vehicleIdx, idx, assignment[..]);
        return;
      }
      assignment[vehicleIdx] := None;
      assert assignment[..] == start;
    }
  }

  /**
   * A completion found after choosing listing `idx` for vehicle `k` keeps
   * the earlier choices and has vehicle `k` accepted too.
   */
  lemma ChoiceAccepted(
    vehicles: seq<int>, listings: seq<Listing>, start: seq<Option<nat>>, k: nat, idx: nat,
    final: seq<Option<nat>>)
    requires |start| == |vehicles| && k < |vehicles| && Unassigned(start, k) && idx < |listings|
    requires AdmitsVehicle(vehicles, listings[idx], start, idx, vehicles[k])
    requires |final| == |vehicles| && final[..k + 1] == start[k := Some(idx)][..k + 1]
    requires AcceptedFrom(vehicles, listings, final, k + 1)
    ensures final[..k] == start[..k]
    ensures AcceptedFrom(vehicles, listings, final, k)
  {
    assert final[..k] == final[..k + 1][..k] == start[k := Some(idx)][..k + 1][..k] == start[..k];
    assert final[k] == Some(idx);
    AssignedToUnassignedTail(vehicles, start, k, idx);
    assert Accepted(vehicles, listings, final, k);
  }

  function NoAssignment(n: nat): (r: seq<Option<nat>>)
    ensures |r| == n && Unassigned(r, 0)
  {
    seq(n, _ => None)
  }

  /** `can_fit_all_vehicles` as a value: the search from an empty assignment succeeds. */
  predicate FitsAll(vehicles: seq<int>, listings: seq<Listing>)
  {
    Feasible(vehicles, listings, NoAssignment(|vehicles|), 0)
  }

  /**
   * `can_fit_all_vehicles`: runs the backtracking search over a fresh,
   * empty assignment vector.
   */
  method CanFitAllVehicles(vehicles: seq<int>, listings: seq<Listing>) returns (fits: bool)
    ensures fits == FitsAll(vehicles, listings)
    ensures fits <==> exists a :: IsPlacement(vehicles, listings, a)
  {
    var assignment := new Option<nat>[|vehicles|](_ => None);
    assert assignment[..] == NoAssignment(|vehicles|);
    fits := BacktrackAssign(vehicles, listings, assignment, 0);
    FitsAllIffPlacement(vehicles, listings);
  }

  /** A successful search yields a completion of the current prefix. */
  lemma {:induction false} FeasibleSound(
    vehicles: seq<int>, listings: seq<Listing>, assignment: seq<Option<nat>>, k: nat)
    requires |assignment| == |vehicles| && k <= |vehicles| && Unassigned(assignment, k)
    requires Feasible(vehicles, listings, assignment, k)
    ensures exists a :: |a| == |vehicles| && a[..k] == assignment[..k] && AcceptedFrom(vehicles, listings, a, k)
    decreases |vehicles| - k, |listings| + 1
  {
    if k == |vehicles| {
      assert AcceptedFrom(vehicles, listings, assignment, k);
    } else {
      TryListingsSound(vehicles, listings, assignment, k, 0);
    }
  }

  lemma {:induction false} TryListingsSound(
    vehicles: seq<int>, listings: seq<Listing>, assignment: seq<Option<nat>>, k: nat, from: nat)
    requires |assignment| == |vehicles| && k < |vehicles| && from <= |listings| && Unassigned(assignment, k)
    requires TryListings(vehicles, listings, assignment, k, from)
    ensures exists a :: |a| == |vehicles| && a[..k] == assignment[..k] && AcceptedFrom(vehicles, listings, a, k)
    decreases |vehicles| - k, |listings| - from
  {
    var next := assignment[k := Some(from)];
    if AdmitsVehicle(vehicles, listings[from], assignment, from, vehicles[k])
       && Feasible(vehicles, listings, next, k + 1)
    {
      FeasibleSound(vehicles, listings, next, k + 1);
      var a :| |a| == |vehicles| && a[..k + 1] == next[..k + 1] && AcceptedFrom(vehicles, listings, a, k + 1);
      ChoiceAccepted(vehicles, listings, assignment, k, from, a);
    } else {
      TryListingsSound(vehicles, listings, assignment, k, from + 1);
    }
  }

  /** Any completion of the current prefix is found by the search. */
  lemma {:induction false} FeasibleComplete(
    vehicles: seq<int>, listings: seq<Listing>, assignment: seq<Option<nat>>, k: nat, a: seq<Option<nat>>)
    requires |assignment| == |vehicles| && k <= |vehicles| && Unassigned(assignment, k)
    requires |a| == |vehicles| && a[..k] == assignment[..k] && AcceptedFrom(vehicles, listings, a, k)
    ensures Feasible(vehicles, listings, assignment, k)
    decreases |vehicles| - k, |listings| + 1
  {
    if k < |vehicles| {
      assert Accepted(vehicles, listings, a, k);
      TryListingsComplete(vehicles, listings, assignment, k, 0, a);
    }
  }

  lemma {:induction false} TryListingsComplete(
    vehicles: seq<int>, listings: seq<Listing>, assignment: seq<Option<nat>>, k: nat, from: nat,
    a: seq<Option<nat>>)
    requires |assignment| == |vehicles| && k < |vehicles| && Unassigned(assignment, k)
    requires |a| == |vehicles| && a[..k] == assignment[..k] && AcceptedFrom(vehicles, listings, a, k)
    requires a[k].Some? && from <= a[k].value < |listings|
    ensures TryListings(vehicles, listings, assignment, k, from)
    decreases |vehicles| - k, |listings| - from
  {
    assert Accepted(vehicles, listings, a, k);
    var j := a[k].value;
    if from == j {
      var next := assignment[k := Some(j)];
      assert a[..k + 1] == next[..k + 1];
      AssignedToUnassignedTail(vehicles, assignment, k, j);
      assert AdmitsVehicle(vehicles, listings[j], assignment, j, vehicles[k]);
      FeasibleComplete(vehicles, listings, next, k + 1, a);
    } else {
      TryListingsComplete(vehicles, listings, assignment, k, from + 1, a);
    }
  }

  /**
   * The search is exact: it succeeds iff some complete assignment has every
   * vehicle accepted by its listing given the earlier vehicles there.
   */
  lemma FitsAllIffPlacement(vehicles: seq<int>, listings: seq<Listing>)
    ensures FitsAll(vehicles, listings) <==> exists a :: IsPlacement(vehicles, listings, a)
  {
    var none := NoAssignment(|vehicles|);
    if FitsAll(vehicles, listings) {
      FeasibleSound(vehicles, listings, none, 0);
      var a :| |a| == |vehicles| && a[..0] == none[..0] && AcceptedFrom(vehicles, listings, a, 0);
      assert IsPlacement(vehicles, listings, a);
    }
    if a :| IsPlacement(vehicles, listings, a) {
      assert a[..0] == none[..0];
      FeasibleComplete(vehicles, listings, none, 0, a);
    }
  }

  lemma PlacementFits(vehicles: seq<int>, listings: seq<Listing>, a: seq<Option<nat>>)
    requires IsPlacement(vehicles, listings, a)
    ensures FitsAll(vehicles, listings)
  {
    FitsAllIffPlacement(vehicles, listings);
  }

  /** No vehicles fit in any listings, even none; some vehicles never fit in no listings. */
  lemma FitsAllDegenerate(vehicles: seq<int>, listings: seq<Listing>)
    ensures FitsAll([], listings)
    ensures vehicles != [] ==> !FitsAll(vehicles, [])
  {
    if vehicles != [] {
      assert FitsAll(vehicles, []) == TryListings(vehicles, [], NoAssignment(|vehicles|), 0, 0);
    }
  }

  /** The unit-test cases of `can_fit_all_vehicles`, with the vehicle width 10. */
  lemma SingleVehicleFits()
    ensures FitsAll([10], [Listing("1", "loc1", 20, 10, 100)])
  {
    var l := Listing("1", "loc1", 20, 10, 100);
    var a := [Some(0)];
    assert AssignedTo([10], a[..0], 0) == [];
    FitsAlone(10, 20, 10);
    assert Accepted([10], [l], a, 0);
    assert IsPlacement([10], [l], a);
    FitsAllIffPlacement([10], [l]);
  }

  lemma SingleVehicleTooLong()
    ensures !FitsAll([30], [Listing("1", "loc1", 20, 10, 100)])
  {
    var l := Listing("1", "loc1", 20, 10, 100);
    var none := NoAssignment(1);
    assert AssignedTo([30], none, 0) == [] by {
      assert none[..0] == [];
    }
    TooLongNeverFits([], 30, 20, 10, VehicleWidth, 0);
    assert !TryListings([30], [l], none, 0, 0);
  }

  lemma TwoVehiclesShareListing()
    ensures FitsAll([10, 10], [Listing("1", "loc1", 20, 20, 100)])
  {
    var l := Listing("1", "loc1", 20, 20, 100);
    var a := [Some(0), Some(0)];
    assert a[..0] == [] && a[..1] == [Some(0)] && [Some(0)][..0] == [];
    assert AssignedTo([10, 10], a[..1], 0) == [10];
    FitsAlone(10, 20, 20);
    FitsBehind(10, 20, 20);
    assert Accepted([10, 10], [l], a, 0);
    assert Accepted([10, 10], [l], a, 1);
    assert IsPlacement([10, 10], [l], a);
    FitsAllIffPlacement([10, 10], [l]);
  }

  lemma VehiclesSpreadOverListings()
    ensures FitsAll([10, 10, 10], [Listing("1", "loc1", 10, 10, 100), Listing("2", "loc1", 20, 10, 200)])
  {
    var ls := [Listing("1", "loc1", 10, 10, 100), Listing("2", "loc1", 20, 10, 200)];
    var vs := [10, 10, 10];
    var a := [Some(0), Some(1), Some(1)];
    assert a[..0] == [] && a[..1] == [Some(0)] && a[..2] == [Some(0), Some(1)];
    assert [Some(0), Some(1)][..1] == [Some(0)] && [Some(0)][..0] == [];
    forall j | 0 <= j < |vs|
      ensures Accepted(vs, ls, a, j)
    {
      SpreadAccepted();
    }
    assert IsPlacement(vs, ls, a);
    PlacementFits(vs, ls, a);
  }

  lemma OrientationUsesLongerSide()
    ensures FitsAll([20], [Listing("1", "loc1", 10, 20, 100)])
  {
    var l := Listing("1", "loc1", 10, 20, 100);
    var a := [Some(0)];
    assert GetOrientation(l) == (20, 10);
    assert AssignedTo([20], a[..0], 0) == [];
    FitsAlone(20, 20, 10);
    assert Accepted([20], [l], a, 0);
    assert IsPlacement([20], [l], a);
    FitsAllIffPlacement([20], [l]);
  }

  lemma SpreadAccepted()
    ensures var vs := [10, 10, 10];
      var ls := [Listing("1", "loc1", 10, 10, 100), Listing("2", "loc1", 20, 10, 200)];
      var a := [Some(0), Some(1), Some(1)];
      Accepted(vs, ls, a, 0) && Accepted(vs, ls, a, 1) && Accepted(vs, ls, a, 2)
  {
    var vs := [10, 10, 10];
    var a := [Some(0), Some(1), Some(1)];
    assert a[..0] == [] && a[..1] == [Some(0)] && a[..2] == [Some(0), Some(1)];
    assert [Some(0), Some(1)][..1] == [Some(0)] && [Some(0)][..0] == [];
    assert AssignedTo(vs, a[..1], 1) == [];
    assert AssignedTo(vs, a[..2], 1) == [10];
    FitsAlone(10, 10, 10);
    FitsAlone(10, 20, 10);
    FitsBehind(10, 20, 10);
  }

  /** One vehicle fits in one listing whose oriented floor takes it. */
  lemma OneVehicleFits(v: int, l: Listing)
    requires VehicleWidth <= GetOrientation(l).1 && v <= GetOrientation(l).0
    ensures FitsAll([v], [l])
  {
    var a := [Some(0)];
    assert AssignedTo([v], a[..0], 0) == [];
    FitsAlone(v, GetOrientation(l).0, GetOrientation(l).1);
    assert Accepted([v], [l], a, 0);
    assert IsPlacement([v], [l], a);
    FitsAllIffPlacement([v], [l]);
  }

  /** Two equal vehicles fit in two listings that each take one of them. */
  lemma OneEachFits(v: int, l1: Listing, l2: Listing)
    requires VehicleWidth <= GetOrientation(l1).1 && v <= GetOrientation(l1).0
    requires VehicleWidth <= GetOrientation(l2).1 && v <= GetOrientation(l2).0
    ensures FitsAll([v, v], [l1, l2])
  {
    var a := [Some(0), Some(1)];
    assert a[..0] == [] && a[..1] == [Some(0)] && [Some(0)][..0] == [];
    assert AssignedTo([v, v], a[..1], 1) == [];
    FitsAlone(v, GetOrientation(l1).0, GetOrientation(l1).1);
    FitsAlone(v, GetOrientation(l2).0, GetOrientation(l2).1);
    assert Accepted([v, v], [l1, l2], a, 0);
    assert Accepted([v, v], [l1, l2], a, 1);
    PlacementFits([v, v], [l1, l2], a);
  }

  /** Two equal vehicles never share a one-row listing too short for both. */
  lemma PairOverflowsListing(v: int, l: Listing)
    requires VehicleWidth <= GetOrientation(l).1 < 2 * VehicleWidth
    requires 0 <= v <= GetOrientation(l).0 < v + v
    ensures !FitsAll([v, v], [l])
  {
    FitsAllIffPlacement([v, v], [l]);
    if a :| IsPlacement([v, v], [l], a) {
      SecondVehicleRejected(v, l, a);
      assert false;
    }
  }

  /** Once the first vehicle is in the one-row listing, the second is refused there. */
  lemma SecondVehicleRejected(v: int, l: Listing, a: seq<Option<nat>>)
    requires VehicleWidth <= GetOrientation(l).1 < 2 * VehicleWidth
    requires 0 <= v <= GetOrientation(l).0 < v + v
    requires |a| == 2 && Accepted([v, v], [l], a, 0)
    ensures !Accepted([v, v], [l], a, 1)
  {
    NoRoomBehind(v, GetOrientation(l).0, GetOrientation(l).1);
    assert a[..1] == [Some(0)] && [Some(0)][..0] == [];
    assert AssignedTo([v, v], a[..1], 0) == [v];
  }
}
