/**
 * The row packer of src/bin_packing.rs: whether a set of vehicle lengths
 * fits one listing. The listing's longer side is the row length, its
 * shorter side holds `secondary / width` rows, and the vehicles, longest
 * first, each go into the first row that still has room.
 */
module RowPacker {
  import opened Wrappers
  import opened Model

  /** `Vehicle::WIDTH`: the one width every vehicle takes across a row. */
  const VehicleWidth: int := 10

  /** `get_orientation`: the listing's sides as (primary, secondary), longer first. */
  function GetOrientation(listing: Listing): (r: (int, int))
    ensures r.0 >= r.1
    ensures multiset{r.0, r.1} == multiset{listing.length, listing.width}
  {
    if listing.length >= listing.width then (listing.length, listing.width)
    else (listing.width, listing.length)
  }

  function Sum(s: seq<int>): int
  {
    if s == [] then 0 else Sum(s[..|s| - 1]) + s[|s| - 1]
  }

  function Zeros(n: nat): seq<int>
  {
    seq(n, _ => 0)
  }

  predicate Descending(s: seq<int>)
  {
    forall i, j :: 0 <= i < j < |s| ==> s[i] >= s[j]
  }

  /** Inserts `x` before the first element not larger than it. */
  function InsertDescending(x: int, s: seq<int>): (r: seq<int>)
    ensures |r| == |s| + 1
    ensures r[0] == if s == [] || x >= s[0] then x else s[0]
    ensures multiset(r) == multiset(s) + multiset{x}
  {
    if s == [] || x >= s[0] then [x] + s
    else
      assert s == [s[0]] + s[1..];
      [s[0]] + InsertDescending(x, s[1..])
  }

  lemma {:induction false} InsertKeepsDescending(x: int, s: seq<int>)
    requires Descending(s)
    ensures Descending(InsertDescending(x, s))
  {
    if s != [] && x < s[0] {
      var rest := InsertDescending(x, s[1..]);
      InsertKeepsDescending(x, s[1..]);
      assert forall j :: 0 <= j < |rest| ==> s[0] >= rest[0] >= rest[j];
    }
  }

  /** `sort_by(|a, b| b.cmp(a))`: the lengths in non-increasing order. */
  function SortDescending(s: seq<int>): seq<int>
  {
    if s == [] then [] else InsertDescending(s[0], SortDescending(s[1..]))
  }

  /** The sort returns a non-increasing permutation of its input. */
  lemma {:induction false} SortDescendingCorrect(s: seq<int>)
    ensures Descending(SortDescending(s))
    ensures multiset(SortDescending(s)) == multiset(s)
  {
    if s != [] {
      assert s == [s[0]] + s[1..];
      SortDescendingCorrect(s[1..]);
      InsertKeepsDescending(s[0], SortDescending(s[1..]));
    }
  }

  /** Two non-increasing orderings of the same multiset are the same sequence. */
  lemma {:induction false} DescendingUnique(a: seq<int>, b: seq<int>)
    requires Descending(a) && Descending(b)
    requires multiset(a) == multiset(b)
    ensures a == b
  {
    if a == [] {
      assert |b| == |multiset(b)| == 0;
    } else {
      assert |b| == |multiset(b)| == |multiset(a)| == |a| > 0;
      DescendingHeads(a, b);
      assert a == [a[0]] + a[1..] && b == [b[0]] + b[1..];
      assert multiset(a[1..]) == multiset(a) - multiset{a[0]};
      assert multiset(b[1..]) == multiset(b) - multiset{b[0]};
      DescendingUnique(a[1..], b[1..]);
    }
  }

  /** Two non-increasing orderings of the same multiset start with the same value, their maximum. */
  lemma DescendingHeads(a: seq<int>, b: seq<int>)
    requires Descending(a) && Descending(b) && |a| > 0 && |b| > 0
    requires multiset(a) == multiset(b)
    ensures a[0] == b[0]
  {
    assert a[0] in multiset(b) && b[0] in multiset(a);
    var k :| 0 <= k < |a| && a[k] == b[0];
    var m :| 0 <= m < |b| && b[m] == a[0];
    assert a[0] >= a[k] && b[0] >= b[m];
  }

  /** The largest length comes first once sorted. */
  lemma SortedHeadIsMax(s: seq<int>, i: nat)
    requires i < |s|
    ensures |SortDescending(s)| == |s| && SortDescending(s)[0] >= s[i]
  {
    var r := SortDescending(s);
    SortDescendingCorrect(s);
    assert |r| == |multiset(r)| == |multiset(s)| == |s|;
    assert s[i] in multiset(r);
  }

  /**
   * The first row, at index `from` or later, whose load plus `v` stays
   * within `capacity`.
   */
  function FirstFitRow(rows: seq<int>, v: int, capacity: int, from: nat): (r: Option<nat>)
    requires from <= |rows|
    decreases |rows| - from
    ensures r.Some? ==> from <= r.value < |rows|
  {
    if from == |rows| then None
    else if rows[from] + v <= capacity then Some(from)
    else FirstFitRow(rows, v, capacity, from + 1)
  }

  /**
   * The row found is the first one, from `from` on, with room for `v`;
   * None means no row from `from` on has room.
   */
  lemma {:induction false} FirstFitRowMeaning(rows: seq<int>, v: int, capacity: int, from: nat)
    requires from <= |rows|
    decreases |rows| - from
    ensures var r := FirstFitRow(rows, v, capacity, from);
      && (r.Some? ==> rows[r.value] + v <= capacity)
      && (r.Some? ==> forall j :: from <= j < r.value ==> rows[j] + v > capacity)
      && (r.None? ==> forall j :: from <= j < |rows| ==> rows[j] + v > capacity)
  {
    if from < |rows| && rows[from] + v > capacity {
      FirstFitRowMeaning(rows, v, capacity, from + 1);
    }
  }

  /**
   * First-fit packing of `vehicles`, in the given order, into rows with
   * the given loads: the final loads, or None when some vehicle finds no
   * row. Each placement adds one vehicle's length to one row.
   */
  function PackRows(vehicles: seq<int>, rows: seq<int>, capacity: int): Option<seq<int>>
    decreases |vehicles|
  {
    if vehicles == [] then Some(rows)
    else match FirstFitRow(rows, vehicles[0], capacity, 0)
      case None => None
      case Some(j) => PackRows(vehicles[1..], rows[j := rows[j] + vehicles[0]], capacity)
  }

  /**
   * `try_fit_vehicles_in_dimension` as a value: the listing has at least
   * one row of width `width`, and first-fit-decreasing places every
   * vehicle, the existing ones and the new one.
   */
  predicate FitsInDimension(existing: seq<int>, newVehicle: int, primary: int, secondary: int, width: int)
    requires width > 0
  {
    && width <= secondary
    && secondary / width != 0
    && PackRows(SortDescending(existing + [newVehicle]), Zeros(secondary / width), primary).Some?
  }

  /**
   * `try_fit_vehicles_in_dimension`: sorts the vehicles longest first and
   * places each into the first row of the `rows` buffer that has room.
   */
  method TryFitVehiclesInDimension(existing: seq<int>, newVehicle: int, primary: int, secondary: int, width: int)
    returns (fits: bool)
    requires width > 0
    ensures fits == FitsInDimension(existing, newVehicle, primary, secondary, width)
  {
    if width > secondary || secondary / width == 0 {
      return false;
    }
    RowCountPositive(secondary, width);
    var numRows := secondary / width;
    var all := SortDescending(existing + [newVehicle]);
    var rows := new int[numRows](_ => 0);
    assert rows[..] == Zeros(numRows);
    SumZeros(numRows);
    var k := 0;
    while k < |all|
      invariant 0 <= k <= |all|
      invariant rows.Length == numRows
      invariant PackRows(all[k..], rows[..], primary) == PackRows(all, Zeros(numRows), primary)
      invariant 0 <= primary ==> forall i :: 0 <= i < rows.Length ==> rows[i] <= primary
      invariant Sum(rows[..]) == Sum(all[..k])
    {
      var vehicleLength := all[k];
      assert all[k..] == [vehicleLength] + all[k + 1..];
      var placed := PlaceInFirstRow(rows, vehicleLength, primary);
      if !placed {
        return false;
      }
      SumPrefix(all, k);
      k := k + 1;
    }
    return true;
  }

  /**
   * The inner loop of `try_fit_vehicles_in_dimension`: adds the vehicle to
   * the first row of the buffer with room for it, and says whether one had.
   */
  method PlaceInFirstRow(rows: array<int>, vehicleLength: int, primary: int) returns (placed: bool)
    modifies rows
    ensures placed == FirstFitRow(old(rows[..]), vehicleLength, primary, 0).Some?
    ensures !placed ==> rows[..] == old(rows[..])
    ensures placed ==>
      var j := FirstFitRow(old(rows[..]), vehicleLength, primary, 0).value;
      && rows[..] == old(rows[..])[j := old(rows[j]) + vehicleLength]
      && rows[j] <= primary
      && Sum(rows[..]) == Sum(old(rows[..])) + vehicleLength
  {
    ghost var before := rows[..];
    placed := false;
    var j := 0;
    while j < rows.Length
      invariant 0 <= j <= rows.Length
      invariant !placed && rows[..] == before
      invariant FirstFitRow(before, vehicleLength, primary, 0) == FirstFitRow(before, vehicleLength, primary, j)
    {
      if rows[j] + vehicleLength <= primary {
        rows[j] := rows[j] + vehicleLength;
        placed := true;
        assert rows[..] == before[j := before[j] + vehicleLength];
        SumUpdate(before, j, vehicleLength);
        break;
      }
      j := j + 1;
    }
  }

  /** Adding `d` to one entry adds `d` to the sum. */
  lemma {:induction false} SumUpdate(s: seq<int>, j: nat, d: int)
    requires j < |s|
    ensures Sum(s[j := s[j] + d]) == Sum(s) + d
  {
    var t := s[j := s[j] + d];
    if j < |s| - 1 {
      assert t[..|t| - 1] == s[..|s| - 1][j := s[j] + d];
      SumUpdate(s[..|s| - 1], j, d);
    } else {
      assert t[..|t| - 1] == s[..|s| - 1];
    }
  }

  lemma SumPrefix(s: seq<int>, k: nat)
    requires k < |s|
    ensures Sum(s[..k + 1]) == Sum(s[..k]) + s[k]
  {
    assert s[..k + 1][..k] == s[..k];
  }

  lemma {:induction false} SumZeros(n: nat)
    ensures Sum(Zeros(n)) == 0
  {
    if n > 0 {
      assert Zeros(n)[..n - 1] == Zeros(n - 1);
      SumZeros(n - 1);
    }
  }

  lemma {:induction false} SumFront(s: seq<int>)
    requires s != []
    ensures Sum(s) == s[0] + Sum(s[1..])
  {
    if |s| > 1 {
      assert s[1..][..|s[1..]| - 1] == s[..|s| - 1][1..];
      SumFront(s[..|s| - 1]);
    }
  }

  /**
   * First-fit packing keeps every row load within the capacity, keeps the
   * number of rows, and the loads grow by exactly the lengths placed.
   */
  lemma {:induction false} PackRowsLoads(vehicles: seq<int>, rows: seq<int>, capacity: int)
    requires forall i :: 0 <= i < |rows| ==> rows[i] <= capacity
    ensures PackRows(vehicles, rows, capacity).Some? ==>
      var r := PackRows(vehicles, rows, capacity).value;
      && |r| == |rows|
      && (forall i :: 0 <= i < |r| ==> r[i] <= capacity)
      && Sum(r) == Sum(rows) + Sum(vehicles)
    decreases |vehicles|
  {
    if vehicles != [] {
      match FirstFitRow(rows, vehicles[0], capacity, 0)
      case None =>
      case Some(j) =>
        FirstFitRowMeaning(rows, vehicles[0], capacity, 0);
        SumUpdate(rows, j, vehicles[0]);
        SumFront(vehicles);
        PackRowsLoads(vehicles[1..], rows[j := rows[j] + vehicles[0]], capacity);
    }
  }

  /** With width > 0, a listing that passes the width test always has a row. */
  lemma RowCountPositive(secondary: int, width: int)
    requires 0 < width <= secondary
    ensures secondary / width >= 1
  {
  }

  /**
   * The result depends only on which lengths are packed, not on their
   * order, since they are sorted first.
   */
  lemma OrderIndependent(
    existing1: seq<int>, new1: int, existing2: seq<int>, new2: int,
    primary: int, secondary: int, width: int)
    requires width > 0
    requires multiset(existing1 + [new1]) == multiset(existing2 + [new2])
    ensures FitsInDimension(existing1, new1, primary, secondary, width)
        == FitsInDimension(existing2, new2, primary, secondary, width)
  {
    SortDescendingCorrect(existing1 + [new1]);
    SortDescendingCorrect(existing2 + [new2]);
    DescendingUnique(SortDescending(existing1 + [new1]), SortDescending(existing2 + [new2]));
  }

  /** A vehicle longer than the row length never fits, whatever else is packed. */
  lemma TooLongNeverFits(existing: seq<int>, newVehicle: int, primary: int, secondary: int, width: int, i: nat)
    requires width > 0
    requires i < |existing + [newVehicle]| && (existing + [newVehicle])[i] > primary
    ensures !FitsInDimension(existing, newVehicle, primary, secondary, width)
  {
    var all := existing + [newVehicle];
    SortedHeadIsMax(all, i);
    if width <= secondary && secondary / width != 0 {
      var sorted := SortDescending(all);
      assert sorted[0] > primary;
      FirstFitRowMeaning(Zeros(secondary / width), sorted[0], primary, 0);
      assert FirstFitRow(Zeros(secondary / width), sorted[0], primary, 0).None?;
    }
  }

  /** A listing narrower than one vehicle takes nothing. */
  lemma TooNarrowNeverFits(existing: seq<int>, newVehicle: int, primary: int, secondary: int, width: int)
    requires 0 < width && secondary < width
    ensures !FitsInDimension(existing, newVehicle, primary, secondary, width)
  {
  }

  /** The packer cases of the unit tests, with the vehicle width 10. */
  lemma RowPackerExampleOneRow()
    ensures FitsInDimension([], 20, 30, 10, 10)
    ensures !FitsInDimension([], 40, 30, 10, 10)
  {
    assert [] + [20] == [20] && [] + [40] == [40];
    assert SortDescending([20]) == [20];
    assert SortDescending([40]) == [40];
    assert FirstFitRow([0], 40, 30, 0) == None;
  }

  lemma RowPackerExampleTwoRows()
    ensures FitsInDimension([15], 15, 20, 20, 10)
  {
    assert SortDescending([15] + [15]) == [15, 15] by {
      assert [15] + [15] == [15, 15];
      DescendingUnique(SortDescending([15, 15]), [15, 15]);
    }
    assert Zeros(20 / 10) == [0, 0];
    assert FirstFitRow([0, 0], 15, 20, 0) == Some(0);
    assert [0, 0][0 := 0 + 15] == [15, 0];
    assert FirstFitRow([15, 0], 15, 20, 0) == Some(1);
    assert [15, 0][1 := 0 + 15] == [15, 15];
    assert [15, 15][1..] == [15] && [15][1..] == [];
    assert PackRows([15], [15, 0], 20) == Some([15, 15]);
  }

  lemma RowPackerExampleFull()
    ensures !FitsInDimension([10, 10], 10, 15, 20, 10)
  {
    SortAllEqual([10, 10], 10);
    assert Zeros(20 / 10) == [0, 0];
    ThreeVehiclesOverflowTwoRows();
    FitsInDimensionWith([10, 10], 10, 15, 20, 10, [10, 10, 10], [0, 0]);
  }

  /** Lengths that are all equal are already sorted. */
  lemma SortAllEqual(existing: seq<int>, newVehicle: int)
    requires forall i :: 0 <= i < |existing| ==> existing[i] == newVehicle
    ensures SortDescending(existing + [newVehicle]) == existing + [newVehicle]
  {
    var all := existing + [newVehicle];
    assert forall i :: 0 <= i < |all| ==> all[i] == newVehicle;
    assert Descending(all);
    SortDescendingCorrect(all);
    DescendingUnique(SortDescending(all), all);
  }

  lemma FitsInDimensionWith(
    existing: seq<int>, newVehicle: int, primary: int, secondary: int, width: int,
    sorted: seq<int>, rows: seq<int>)
    requires 0 < width <= secondary
    requires SortDescending(existing + [newVehicle]) == sorted && Zeros(secondary / width) == rows
    ensures FitsInDimension(existing, newVehicle, primary, secondary, width) == PackRows(sorted, rows, primary).Some?
  {
    RowCountPositive(secondary, width);
  }

  lemma ThreeVehiclesOverflowTwoRows()
    ensures PackRows([10, 10, 10], [0, 0], 15) == None
  {
    assert FirstFitRow([0, 0], 10, 15, 0) == Some(0);
    assert [0, 0][0 := 0 + 10] == [10, 0];
    assert [10, 10, 10][1..] == [10, 10];
    assert FirstFitRow([10, 0], 10, 15, 0) == Some(1);
    assert [10, 0][1 := 0 + 10] == [10, 10];
    assert [10, 10][1..] == [10];
    assert FirstFitRow([10, 10], 10, 15, 0) == None;
  }

  /** One vehicle alone fits a listing at least as long and one vehicle wide. */
  lemma FitsAlone(v: int, primary: int, secondary: int)
    requires VehicleWidth <= secondary && v <= primary
    ensures FitsInDimension([], v, primary, secondary, VehicleWidth)
  {
    SortAllEqual([], v);
    assert [] + [v] == [v];
    var rows := Zeros(secondary / VehicleWidth);
    FirstFitRowMeaning(rows, v, primary, 0);
    assert FirstFitRow(rows, v, primary, 0) == Some(0);
  }

  /** Two equal vehicles fit one behind the other when the row holds both. */
  lemma FitsBehind(v: int, primary: int, secondary: int)
    requires VehicleWidth <= secondary && v + v <= primary && 0 <= v
    ensures FitsInDimension([v], v, primary, secondary, VehicleWidth)
  {
    SortAllEqual([v], v);
    assert [v] + [v] == [v, v];
    RowCountPositive(secondary, VehicleWidth);
    var rows := Zeros(secondary / VehicleWidth);
    assert FirstFitRow(rows, v, primary, 0) == Some(0);
    var rows' := rows[0 := rows[0] + v];
    assert FirstFitRow(rows', v, primary, 0) == Some(0);
    assert [v, v][1..] == [v] && [v][1..] == [];
    assert PackRows([v], rows', primary).Some?;
    assert PackRows([v, v], rows, primary) == PackRows([v], rows', primary);
  }

  /** In a single row, a second vehicle does not fit behind an equal one when the row is shorter than both. */
  lemma NoRoomBehind(v: int, primary: int, secondary: int)
    requires VehicleWidth <= secondary < 2 * VehicleWidth && 0 <= v <= primary < v + v
    ensures !FitsInDimension([v], v, primary, secondary, VehicleWidth)
  {
    SortAllEqual([v], v);
    assert [v] + [v] == [v, v];
    assert Zeros(secondary / VehicleWidth) == [0];
    assert FirstFitRow([0], v, primary, 0) == Some(0);
    assert [0][0 := 0 + v] == [v];
    assert FirstFitRow([v], v, primary, 0) == None;
    assert [v, v][1..] == [v];
    assert PackRows([v, v], [0], primary) == PackRows([v], [v], primary);
  }
}
