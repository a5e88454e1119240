# Neighbor vehicle-storage search, modelled in Dafny

Neighbor's search service takes a request listing vehicles as `(length, quantity)` classes. It answers with, for every location in the listing catalog, the cheapest set of listings there that can hold all the vehicles at once. The search engine (`src/bin_packing.rs`) works in layers:

- `expand_vehicles` turns the request into one length per vehicle.
- `group_by_location` partitions the catalog by `location_id`.
- `find_cheapest_combination` enumerates every non-empty subset of a location's listings as a bitmask. It keeps the strictly cheapest subset that passes the feasibility test.
- `can_fit_all_vehicles` assigns vehicles to listings by depth-first backtracking. It writes each choice into an assignment vector and undoes it on failure.
- `can_add_vehicle_to_listing` and `try_fit_vehicles_in_dimension` decide whether one listing can take one more vehicle:
  - the listing is oriented longer side first;
  - it is cut into rows one vehicle-width wide;
  - the vehicles are sorted longest first and each goes into the first row with room left.
- `search_locations` composes all of the above and orders the answers by total price.

The request records and their validation rules are in `src/model.rs`.

The project has six modules, one file each:

- `Wrappers`: `Option`.
- `Model`: the records and the validation rules.
- `RowPacker`: orientation and the row-packing test.
- `Feasibility`: the backtracking assignment.
- `Combinations`: the cheapest subset per location.
- `Search`: expansion, grouping and the search entry point.

Each imperative routine of the source is a Dafny `method` with loops over arrays or sequences. Most methods are proved equal to a pure specification function: `FitsInDimension`, `Feasible`, `Cheapest`, `Expansion` or `AtLocation`. `SearchLocations` is proved to satisfy the relation `SearchAnswer` instead. That relation fixes the entries of the answer but leaves the order of equal-priced entries open, as the map iteration order does. Lemmas then prove what the source promises about those functions. The unit tests of `src/tests/bin_packing_tests.rs` and `src/tests/validation_tests.rs` become lemmas about those functions on the same data.

The vehicle width (`Vehicle::WIDTH`) is used by `try_fit_vehicles_in_dimension` but not defined in `src/model.rs`. The model takes it as a positive parameter, as the unit tests do when they pass it as a fifth argument. It is fixed at `RowPacker.VehicleWidth = 10` above the row packer.

`validate_length` accepts every positive length, while `src/tests/validation_tests.rs:42-49` and `:111-120` expect a length of 15 to be rejected ("multiple of 10"). The model follows the code: `Model.ValidationExamples` proves that 15 is accepted.

## Model

| member | source | states |
|---|---|---|
| Model.ValidateLengthMeaning | src/model.rs:41-46 | a length is accepted exactly when it is positive; a rejection carries the code `length_must_be_positive` |
| Model.ValidateTotalQuantityMeaning | src/model.rs:56-62 | the vehicle list is accepted exactly when the sum of its quantities is at most 5 (exactly 5 included) |
| Model.TotalQuantityAtLeastCount | src/model.rs:52-62 | when every quantity is at least 1, the total quantity is at least the number of vehicle classes |
| Model.ValidRequestShape | src/model.rs:48-71 | a valid request has 1 to 5 classes, a total quantity of 1 to 5, and every class has a positive length and a quantity of at least 1 |
| Model.ValidationExamples | src/tests/validation_tests.rs:6-131 | the unit-test verdicts for vehicles and requests: lengths -10 and 0 rejected, quantities 0 and -1 rejected, totals 5 accepted and 6 rejected, the empty request rejected; length 15 is accepted, as the code does |
| RowPacker.GetOrientation | src/bin_packing.rs:179-185 | the first side is at least the second, and the pair is the listing's length and width as a multiset |
| RowPacker.InsertDescending | src/bin_packing.rs:205 | inserting adds exactly one element to the multiset; the head is the larger of the new element and the old head |
| RowPacker.InsertKeepsDescending | src/bin_packing.rs:205 | inserting into a descending sequence keeps it descending |
| RowPacker.SortDescendingCorrect | src/bin_packing.rs:203-205 | the longest-first sort is descending and a permutation of its input |
| RowPacker.DescendingUnique | src/bin_packing.rs:203-205 | two descending sequences with the same multiset are equal, so the sort's result depends only on the multiset of lengths |
| RowPacker.SortedHeadIsMax | src/bin_packing.rs:205 | the first element after sorting is at least every input element |
| RowPacker.FirstFitRowMeaning | src/bin_packing.rs:211-217 | the chosen row has room for the vehicle and every earlier row does not; no row is chosen only when no row has room |
| RowPacker.PackRowsLoads | src/bin_packing.rs:207-224 | a successful packing keeps the row count, keeps every row load within the primary dimension, and adds exactly the placed lengths to the total load |
| RowPacker.TryFitVehiclesInDimension | src/bin_packing.rs:187-225 | the method's answer equals `FitsInDimension`: the width guard, `secondary / width` zeroed rows, the longest-first sort and first-fit placement into an array |
| RowPacker.PlaceInFirstRow | src/bin_packing.rs:208-221 | placement succeeds exactly when some row has room; then only the first such row changes, it grows by the vehicle's length and stays within the primary dimension; on failure the rows are unchanged |
| RowPacker.RowCountPositive | src/bin_packing.rs:193-200 | once the width guard has passed, the row count is at least one, so the second guard never fires |
| RowPacker.TooNarrowNeverFits | src/bin_packing.rs:193-195 | a listing narrower than the vehicle width never fits |
| RowPacker.TooLongNeverFits | src/bin_packing.rs:207-221 | a vehicle longer than the primary dimension always makes the result false |
| RowPacker.OrderIndependent | src/bin_packing.rs:203-205 | the result depends only on the multiset of existing and new lengths, not on their order |
| RowPacker.SortAllEqual | src/bin_packing.rs:203-205 | sorting a list of equal lengths leaves it as it is |
| RowPacker.RowPackerExampleOneRow | src/tests/bin_packing_tests.rs:206-208 | `([], 20, 30, 10)` fits and `([], 40, 30, 10)` does not |
| RowPacker.RowPackerExampleTwoRows | src/tests/bin_packing_tests.rs:209 | `([15], 15, 20, 20)` fits, one vehicle per row |
| RowPacker.RowPackerExampleFull | src/tests/bin_packing_tests.rs:210 | `([10, 10], 10, 15, 20)` does not fit |
| RowPacker.ThreeVehiclesOverflowTwoRows | src/bin_packing.rs:207-221 | three 10-long vehicles cannot be packed into two rows of capacity 15 |
| RowPacker.FitsAlone | src/bin_packing.rs:187-225 | a single vehicle fits any listing at least one width wide and at least its length long |
| RowPacker.FitsBehind | src/bin_packing.rs:207-221 | two equal vehicles fit one behind the other when the primary dimension holds both |
| RowPacker.NoRoomBehind | src/bin_packing.rs:207-221 | in a one-row listing shorter than two vehicles, a second equal vehicle does not fit |
| Feasibility.CanAddVehicleToListing | src/bin_packing.rs:152-177 | the answer is `try_fit` on the listing's orientation, applied to exactly the vehicles already assigned to this listing index, in vehicle order |
| Feasibility.AssignedToUnassignedTail | src/bin_packing.rs:160-167 | entries past the current vehicle, which are all `None`, contribute no assigned vehicle |
| Feasibility.BacktrackAssign | src/bin_packing.rs:117-146 | the result equals the `Feasible` search; on failure the assignment is restored as it was, so the entries from `vehicle_idx` on are all `None`; on success the earlier entries are untouched and every vehicle from `vehicle_idx` on was accepted given the vehicles placed before it |
| Feasibility.TryListing | src/bin_packing.rs:129-143 | one iteration of the listing loop: it decides the same as trying this listing and then the rest, and restores the assignment when it fails |
| Feasibility.ChoiceAccepted | src/bin_packing.rs:137-139 | an admitted choice, followed by a successful deeper search, yields an assignment accepted from the current vehicle on |
| Feasibility.NoAssignment | src/bin_packing.rs:115 | the initial assignment has one entry per vehicle, all `None` |
| Feasibility.CanFitAllVehicles | src/bin_packing.rs:114-149 | the result is `FitsAll`, and it is true exactly when some assignment places every vehicle with each one accepted by `try_fit` given the earlier vehicles in the same listing |
| Feasibility.FeasibleSound | src/bin_packing.rs:117-146 | a true search result has a witness assignment that extends the current prefix and accepts every later vehicle |
| Feasibility.TryListingsSound | src/bin_packing.rs:129-145 | a true result from the listing loop has such a witness |
| Feasibility.FeasibleComplete | src/bin_packing.rs:117-146 | whenever an accepting extension of the current prefix exists, the search returns true |
| Feasibility.TryListingsComplete | src/bin_packing.rs:129-145 | the listing loop finds an accepting extension whose listing index lies at or after its start |
| Feasibility.FitsAllIffPlacement | src/bin_packing.rs:114-149 | `can_fit_all_vehicles` is true exactly when a full accepted placement exists |
| Feasibility.PlacementFits | src/bin_packing.rs:114-149 | any accepted placement makes `can_fit_all_vehicles` true |
| Feasibility.FitsAllDegenerate | src/bin_packing.rs:123-145 | an empty vehicle list fits into any listings, even none; a non-empty one never fits into no listings |
| Feasibility.SingleVehicleFits | src/tests/bin_packing_tests.rs:23-35 | a 10-long vehicle fits a 20×10 listing |
| Feasibility.SingleVehicleTooLong | src/tests/bin_packing_tests.rs:37-49 | a 30-long vehicle does not fit a 20×10 listing |
| Feasibility.TwoVehiclesShareListing | src/tests/bin_packing_tests.rs:51-63 | two 10-long vehicles fit one 20×20 listing |
| Feasibility.VehiclesSpreadOverListings | src/tests/bin_packing_tests.rs:65-86 | three 10-long vehicles fit across a 10×10 and a 20×10 listing |
| Feasibility.SpreadAccepted | src/tests/bin_packing_tests.rs:65-86 | the placement 0, 1, 1 is accepted vehicle by vehicle in that test |
| Feasibility.OrientationUsesLongerSide | src/tests/bin_packing_tests.rs:88-101 | a 20-long vehicle fits a listing of length 10 and width 20 |
| Feasibility.OneVehicleFits | src/bin_packing.rs:114-177 | one vehicle fits a single listing that is wide and long enough for it |
| Feasibility.OneEachFits | src/bin_packing.rs:114-177 | two equal vehicles fit two listings that can each hold one |
| Feasibility.PairOverflowsListing | src/bin_packing.rs:114-177 | two equal vehicles do not fit a one-row listing shorter than both together |
| Feasibility.SecondVehicleRejected | src/bin_packing.rs:152-177 | in that listing, the second vehicle is rejected once the first is there |
| Combinations.FromListings | src/bin_packing.rs:63-68 | the ids are the listings' ids in order, one per listing, and the total is the given price |
| Combinations.SelectedIndicesMeaning | src/bin_packing.rs:90-95 | the selected positions are exactly those below n whose mask bit is set, in strictly ascending order |
| Combinations.SelectListings | src/bin_packing.rs:87-95 | the inner loop collects exactly the mask's subset, in positional order, and its price sum |
| Combinations.FirstCheapest | src/bin_packing.rs:97-107 | none exactly when no mask fits; otherwise a fitting mask priced at most every fitting mask, with every earlier fitting mask strictly dearer (ties keep the lowest mask) |
| Combinations.BestMaskKeeps | src/bin_packing.rs:99-105 | a mask no cheaper than the current best leaves it unchanged |
| Combinations.ConsiderMask | src/bin_packing.rs:87-107 | one outer iteration turns the best combination over masks below `mask` into the best over masks up to `mask` |
| Combinations.FindCheapestCombination | src/bin_packing.rs:71-111 | the loop over masks `1..2^n` returns `Cheapest`, whose meaning the two lemmas below pin down |
| Combinations.CheapestNoneMeaning | src/bin_packing.rs:71-111 | the result is `None` exactly when no non-empty subset of the listings is feasible |
| Combinations.CheapestSomeMeaning | src/bin_packing.rs:71-111 | a `Some` result comes from a non-empty feasible subset that is no dearer than any feasible subset, with every earlier feasible mask strictly dearer; its ids are that subset's and its total is the subset's price sum |
| Combinations.CheapestIsPlaceable | src/bin_packing.rs:97-100 | the chosen listings admit a real placement of every vehicle |
| Combinations.OneListingSuffices | src/bin_packing.rs:86-107 | if any single listing can hold all the vehicles, the result is `Some` |
| Combinations.SomeBitSet | src/bin_packing.rs:86-91 | every mask in `1..2^n` has a bit set below n |
| Combinations.SubsetNonEmpty | src/bin_packing.rs:86-95 | every mask in `1..2^n` selects at least one listing |
| Combinations.BitOfPower | src/bin_packing.rs:91 | `2^i` has bit j set exactly when i = j |
| Combinations.IndicesOfPower | src/bin_packing.rs:90-95 | the mask `2^i` selects position i alone, when it is in range |
| Combinations.PowerSelectsOne | src/bin_packing.rs:90-95 | the mask `2^i` selects listing i alone |
| Combinations.CheaperListingWins | src/bin_packing.rs:97-107 | when the second of two listings holds the one vehicle and costs strictly less than the first, it is chosen alone |
| Combinations.FirstListingWins | src/bin_packing.rs:99 | when the first listing holds the vehicle and costs no more than the second, the first is chosen (a tie keeps it) |
| Combinations.OnlyListingWins | src/bin_packing.rs:71-111 | a single listing that holds the vehicle is the answer at its own price |
| Combinations.PairOfListingsWins | src/bin_packing.rs:71-111 | two vehicles that need two one-row listings get that pair, when it is cheaper than a third listing |
| Combinations.CheapestPicksCheaperListing | src/tests/bin_packing_tests.rs:103-128 | vehicle `[10]` over listings 1 (200) and 2 (100) selects `["2"]` at 100 |
| Combinations.CheapestCombinesTwoListings | src/tests/bin_packing_tests.rs:130-163 | vehicles `[30, 30]` select `["1", "2"]` at 250 |
| Combinations.ShiftLeftI32 | src/bin_packing.rs:86 | Rust's i32 `1 << n`: it stays in the i32 range, equals `2^n` modulo 2^32, and is absent (a debug-build panic) for n ≥ 32 |
| Combinations.CheapestAsWritten | src/bin_packing.rs:71-111 | the function's result as the code computes it with the i32 shift bound: it agrees with `Cheapest` below 31 listings and is absent (a panic) from 32 listings on |
| Combinations.ThirtyOneListingsFindNothing | src/bin_packing.rs:86 | with 31 listings, the as-written loop finds nothing even when one listing alone holds every vehicle |
| Search.Repeat | src/bin_packing.rs:40-42 | `0..quantity` yields max(quantity, 0) copies, all equal to the length |
| Search.ExpandVehicles | src/bin_packing.rs:37-45 | the nested push loops produce `Expansion`: each class's copies, consecutive and in request order |
| Search.ExpansionCount | src/bin_packing.rs:37-45 | the expansion length is the sum of max(quantity, 0) over the classes |
| Search.ExpansionLength | src/bin_packing.rs:37-45 | with no negative quantity, the expansion length is the total quantity |
| Search.ExpansionAppend | src/bin_packing.rs:39-43 | expanding two request parts one after the other concatenates their expansions |
| Search.ExpansionMembers | src/bin_packing.rs:37-45 | a length occurs in the expansion exactly when a class of that length has a positive quantity |
| Search.ValidRequestExpansion | src/bin_packing.rs:13-17 | a valid request expands to 1 to 5 vehicles, all of positive length, so the empty-expansion exit is not taken |
| Search.ExpansionExample | src/tests/bin_packing_tests.rs:7-21 | `[10×2, 20×1]` expands to `[10, 10, 20]` |
| Search.GroupByLocation | src/bin_packing.rs:47-56 | the map's keys are exactly the catalog's locations, and each group is that location's listings in catalog order |
| Search.AtLocationMembers | src/bin_packing.rs:47-56 | a listing is in a location's group exactly when it is in the catalog at that location |
| Search.AtLocationAbsent | src/bin_packing.rs:47-56 | a location without listings has an empty group |
| Search.LocationsSnoc | src/bin_packing.rs:49-54 | one more listing adds its location to the key set |
| Search.InsertByPrice | src/bin_packing.rs:33 | insertion adds exactly one entry to the multiset |
| Search.InsertByPriceSorted | src/bin_packing.rs:33 | insertion keeps the results ordered by price |
| Search.SortByPriceCorrect | src/bin_packing.rs:33 | `sort_by_key` on price yields a price-ordered permutation of the results |
| Search.InsertByPriceDistinct | src/bin_packing.rs:33 | inserting an entry for a new location keeps the locations distinct |
| Search.SortByPriceDistinct | src/bin_packing.rs:33 | sorting keeps the locations distinct |
| Search.SearchLocations | src/bin_packing.rs:12-35 | the result is a `SearchAnswer`: an empty expansion gives `[]`; the result is sorted by price with one entry per location; each entry is `find_cheapest_combination` over its location's listings; every location with a feasible subset appears |
| Search.VisitLocation | src/bin_packing.rs:22-31 | visiting one more location keeps the found entries exactly those of the visited locations that have a combination |
| Search.SortedFoundIsAnswer | src/bin_packing.rs:33-34 | sorting the entries of all locations gives a `SearchAnswer` |
| Search.SearchAnswersAgree | src/bin_packing.rs:12-35 | any two answers for the same input have the same entries, so only the order of equal-priced entries depends on map order |
| Search.AnswerEntryIn | src/bin_packing.rs:12-35 | an entry of one answer is an entry of every answer |
| Search.DistinctBound | src/bin_packing.rs:22-31 | there are at most as many results as locations |
| Search.AnswerHasLocation | src/bin_packing.rs:22-31 | a location whose cheapest combination exists appears with that combination |
| Search.TwoLocationsAnswer | src/tests/bin_packing_tests.rs:165-203 | one vehicle over two locations gives exactly the two cheapest single listings, cheaper first |
| Search.SearchExample | src/tests/bin_packing_tests.rs:165-203 | on the test data the answer is `[loc1: ["1"] at 100, loc2: ["2"] at 150]` |

## Left out

- The HTTP server, routes and handlers (`src/main.rs`) are I/O and transport, and are not part of this model.
- The catalog singleton `AllListings`, its `lazy_static!` and its JSON file loading are file I/O and global state. The catalog is an input sequence here.
- The integration tests and the benchmark depend on an unseen `listings.json` and on timing, so they are not modelled.
- Machine integers: lengths, widths, prices and quantities are unbounded `int`. The model does not capture overflow of the i32 price sum (`src/bin_packing.rs:93`) or of the i32 quantity sum (`src/model.rs:57`). Nor does it capture overflow of the i32 row load `*row + vehicle_length` (`src/bin_packing.rs:212-213`). For example, with two vehicles of length 1_500_000_000 the second addition overflows. A debug build panics there, while a release build wraps to a negative load and counts the vehicle as placed. The one overflow the model does capture is the i32 `1 << n` mask bound, listed under Findings.
- Combinations.ShiftLeftI32: models a debug build, where a shift by 32 or more panics, as an absent value. A release build masks the shift amount instead, and that variant is not modelled.
- `HashMap` iteration order is unspecified. `Search.SearchLocations` visits locations in an arbitrary order chosen with `:|`. The answer is therefore specified only up to the order of entries with equal prices, and `Search.SearchAnswersAgree` shows nothing else can differ.
- The standard-library sorts (`sort_by` descending, `sort_by_key`) are modelled as insertion-sort functions. The model proves they are sorted permutations but not that they are stable. Stability is unobservable here because the input order comes from the map.
- RowPacker.TryFitVehiclesInDimension: requires a positive vehicle width. With a width of 0, the Rust code would divide by zero, and that panic is not modelled.
- The `validator` and `serde` derive machinery are left out. Only the rules the attributes encode are modelled: the custom length rule, `quantity >= 1`, the non-empty vehicle list, the nested vehicle checks and the total-quantity cap. Error aggregation into `ValidationErrors` is not modelled: a rule is only accepted or rejected, with its code.

## Findings

| source | as written | input that shows it | evidently intended | confidence | as-written member | corrected member |
|---|---|---|---|---|---|---|
| src/bin_packing.rs:86 | the mask bound `1 << n` is an i32 shift: with n = 31 it is i32::MIN, so the range `1..(1 << n)` is empty; with n ≥ 32 a debug build panics | one location with 31 listings, the first of which alone holds all the vehicles: the function returns `None` | enumerate all masks `1..2^n` and return that location's cheapest feasible subset | not executed | Combinations.ThirtyOneListingsFindNothing | Combinations.CheapestNoneMeaning |
