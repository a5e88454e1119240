/**
 * The combination enumerator of src/bin_packing.rs: for one location,
 * every non-empty subset of its listings, written as a bitmask, is priced
 * and checked for feasibility; the strictly cheapest feasible subset wins
 * and ties keep the subset found first (the lower mask).
 */
module Combinations {
  import opened Wrappers
  import opened Model
  import opened RowPacker
  import opened Feasibility

  /** The cheapest subset found at one location: its listing ids and total price. */
  datatype CheapestCombo = CheapestCombo(listingIds: seq<string>, totalPriceInCents: int)

  /** `CheapestCombo::from_listings`: the ids of the listings, in their order, with the given total. */
  function FromListings(listings: seq<Listing>, totalPriceInCents: int): (c: CheapestCombo)
    ensures |c.listingIds| == |listings|
    ensures forall i :: 0 <= i < |listings| ==> c.listingIds[i] == listings[i].id
    ensures c.totalPriceInCents == totalPriceInCents
  {
    CheapestCombo(seq(|listings|, i requires 0 <= i < |listings| => listings[i].id), totalPriceInCents)
  }

  /** `1 << n` in unbounded arithmetic. */
  function Pow2(n: nat): (r: nat)
    ensures r >= 1
  {
    if n == 0 then 1 else 2 * Pow2(n - 1)
  }

  /** Whether bit `i` of `mask` is set: `mask & (1 << i) != 0` for a non-negative mask. */
  function TestBit(mask: nat, i: nat): bool
  {
    if i == 0 then mask % 2 == 1 else TestBit(mask / 2, i - 1)
  }

  /** The positions below `n` whose bit is set in `mask`, in ascending order. */
  function SelectedIndices(mask: nat, n: nat): (r: seq<nat>)
    ensures forall t :: 0 <= t < |r| ==> r[t] < n
  {
    if n == 0 then []
    else SelectedIndices(mask, n - 1) + (if TestBit(mask, n - 1) then [n - 1] else [])
  }

  /** The selected positions are exactly those below `n` whose bit is set, strictly ascending. */
  lemma {:induction false} SelectedIndicesMeaning(mask: nat, n: nat)
    ensures var r := SelectedIndices(mask, n);
      && (forall t :: 0 <= t < |r| ==> r[t] < n && TestBit(mask, r[t]))
      && (forall t, u :: 0 <= t < u < |r| ==> r[t] < r[u])
      && (forall i :: 0 <= i < n && TestBit(mask, i) ==> i in r)
  {
    if n > 0 {
      SelectedIndicesMeaning(mask, n - 1);
    }
  }

  /** The listings among the first `n` whose bit is set in `mask`, in positional order. */
  function Selected(listings: seq<Listing>, mask: nat, n: nat): (r: seq<Listing>)
    requires n <= |listings|
  {
    var idx := SelectedIndices(mask, n);
    seq(|idx|, t requires 0 <= t < |idx| => listings[idx[t]])
  }

  /** The sum of the listings' prices. */
  function TotalPrice(listings: seq<Listing>): int
  {
    if listings == [] then 0
    else TotalPrice(listings[..|listings| - 1]) + listings[|listings| - 1].priceInCents
  }

  /** The subset of `listings` that `mask` stands for. */
  function Subset(listings: seq<Listing>, mask: nat): seq<Listing>
  {
    Selected(listings, mask, |listings|)
  }

  /** The subset of `mask` can hold every vehicle. */
  predicate MaskFits(vehicles: seq<int>, listings: seq<Listing>, mask: nat)
  {
    FitsAll(vehicles, Subset(listings, mask))
  }

  function MaskPrice(listings: seq<Listing>, mask: nat): int
  {
    TotalPrice(Subset(listings, mask))
  }

  /**
   * The running best of an enumeration of candidates 1 .. upto - 1: the
   * first feasible candidate of least price. A later candidate replaces the
   * best only when it is strictly cheaper.
   */
  function FirstCheapest(fits: nat -> bool, price: nat -> int, upto: nat): (r: Option<nat>)
    ensures r.None? <==> forall m :: 1 <= m < upto ==> !fits(m)
    ensures r.Some? ==> 1 <= r.value < upto && fits(r.value)
    ensures r.Some? ==> forall m :: 1 <= m < upto && fits(m) ==> price(r.value) <= price(m)
    ensures r.Some? ==> forall m :: 1 <= m < r.value && fits(m) ==> price(m) > price(r.value)
  {
    if upto <= 1 then None
    else
      var prev := FirstCheapest(fits, price, upto - 1);
      var m := upto - 1;
      if fits(m) && (prev.None? || price(m) < price(prev.value)) then Some(m) else prev
  }

  /** The running best of `find_cheapest_combination` after masks 1 .. upto - 1. */
  function BestMask(vehicles: seq<int>, listings: seq<Listing>, upto: nat): Option<nat>
  {
    FirstCheapest((m: nat) => MaskFits(vehicles, listings, m), (m: nat) => MaskPrice(listings, m), upto)
  }

  /** One more mask: it becomes the best when it fits and is strictly cheaper than the best so far. */
  lemma BestMaskStep(vehicles: seq<int>, listings: seq<Listing>, mask: nat)
    requires mask >= 1
    ensures var prev := BestMask(vehicles, listings, mask);
      BestMask(vehicles, listings, mask + 1)
        == if MaskFits(vehicles, listings, mask)
              && (prev.None? || MaskPrice(listings, mask) < MaskPrice(listings, prev.value))
           then Some(mask) else prev
  {
  }

  /** A mask no cheaper than the best so far leaves the best unchanged, whether it fits or not. */
  lemma BestMaskKeeps(vehicles: seq<int>, listings: seq<Listing>, mask: nat)
    requires mask >= 1 && BestMask(vehicles, listings, mask).Some?
    requires MaskPrice(listings, mask) >= MaskPrice(listings, BestMask(vehicles, listings, mask).value)
    ensures BestMask(vehicles, listings, mask + 1) == BestMask(vehicles, listings, mask)
  {
    BestMaskStep(vehicles, listings, mask);
  }

  /** The combo that a best mask stands for. */
  function ComboOf(listings: seq<Listing>, best: Option<nat>): Option<CheapestCombo>
  {
    match best
    case None => None
    case Some(m) => Some(FromListings(Subset(listings, m), MaskPrice(listings, m)))
  }

  /** `find_cheapest_combination` as a value: the enumeration over every mask in 1 .. 2^n - 1. */
  function Cheapest(vehicles: seq<int>, listings: seq<Listing>): Option<CheapestCombo>
  {
    ComboOf(listings, BestMask(vehicles, listings, Pow2(|listings|)))
  }

  lemma CheapestFromBest(vehicles: seq<int>, listings: seq<Listing>, mask: nat)
    requires BestMask(vehicles, listings, Pow2(|listings|)) == Some(mask)
    ensures Cheapest(vehicles, listings) == Some(FromListings(Subset(listings, mask), MaskPrice(listings, mask)))
  {
  }

  /**
   * `find_cheapest_combination`: loops over every mask, collects the
   * selected listings and their total, checks feasibility, and replaces the
   * best only by a strictly cheaper feasible subset.
   */
  method FindCheapestCombination(vehicles: seq<int>, listings: seq<Listing>) returns (best: Option<CheapestCombo>)
    ensures best == Cheapest(vehicles, listings)
  {
    var n := |listings|;
    best := None;
    ghost var bestMask: Option<nat> := None;
    var mask := 1;
    while mask < Pow2(n)
      invariant 1 <= mask <= Pow2(n)
      invariant bestMask == BestMask(vehicles, listings, mask)
      invariant best == ComboOf(listings, bestMask)
    {
      best := ConsiderMask(vehicles, listings, mask, best, bestMask);
      bestMask := BestMask(vehicles, listings, mask + 1);
      mask := mask + 1;
    }
  }

  /** One pass of the mask loop: the running best after looking at `mask`. */
  method ConsiderMask(vehicles: seq<int>, listings: seq<Listing>, mask: nat, best: Option<CheapestCombo>, ghost bestMask: Option<nat>)
    returns (next: Option<CheapestCombo>)
    requires mask >= 1
    requires bestMask == BestMask(vehicles, listings, mask)
    requires best == ComboOf(listings, bestMask)
    ensures next == ComboOf(listings, BestMask(vehicles, listings, mask + 1))
  {
    var selected, totalPrice := SelectListings(listings, mask);
    var fits := CanFitAllVehicles(vehicles, selected);
    BestMaskStep(vehicles, listings, mask);
    assert fits == MaskFits(vehicles, listings, mask);
    assert totalPrice == MaskPrice(listings, mask);
    next := best;
    if fits {
      match best {
        case Some(c) =>
          if totalPrice < c.totalPriceInCents {
            next := Some(FromListings(selected, totalPrice));
          }
        case None =>
          next := Some(FromListings(selected, totalPrice));
      }
    }
  }

  /**
   * The inner loop of `find_cheapest_combination`: the listings whose bit
   * is set in `mask`, in positional order, and the sum of their prices.
   */
  method SelectListings(listings: seq<Listing>, mask: nat) returns (selected: seq<Listing>, totalPrice: int)
    ensures selected == Subset(listings, mask)
    ensures totalPrice == TotalPrice(selected)
  {
    selected := [];
    totalPrice := 0;
    var i := 0;
    while i < |listings|
      invariant 0 <= i <= |listings|
      invariant selected == Selected(listings, mask, i)
      invariant totalPrice == TotalPrice(selected)
    {
      if TestBit(mask, i) {
        assert (selected + [listings[i]])[..|selected|] == selected;
        selected := selected + [listings[i]];
        totalPrice := totalPrice + listings[i].priceInCents;
      }
      i := i + 1;
    }
  }

  /** A mask in 1 .. 2^n - 1 has a bit set below n. */
  lemma {:induction false} SomeBitSet(mask: nat, n: nat)
    requires 1 <= mask < Pow2(n)
    ensures exists i :: 0 <= i < n && TestBit(mask, i)
  {
    if mask % 2 == 1 {
      assert TestBit(mask, 0);
    } else {
      SomeBitSet(mask / 2, n - 1);
      var i :| 0 <= i < n - 1 && TestBit(mask / 2, i);
      assert TestBit(mask, i + 1);
    }
  }

  /** Every mask the enumeration visits selects at least one listing. */
  lemma SubsetNonEmpty(listings: seq<Listing>, mask: nat)
    requires 1 <= mask < Pow2(|listings|)
    ensures |Subset(listings, mask)| >= 1
  {
    SomeBitSet(mask, |listings|);
    var i :| 0 <= i < |listings| && TestBit(mask, i);
    SelectedIndicesMeaning(mask, |listings|);
    assert i in SelectedIndices(mask, |listings|);
  }

  /** `1 << i` has exactly bit `i` set. */
  lemma {:induction false} BitOfPower(i: nat, j: nat)
    ensures TestBit(Pow2(i), j) <==> i == j
  {
    if i == 0 {
      if j > 0 {
        NoBitOfZero(j - 1);
      }
    } else if j > 0 {
      BitOfPower(i - 1, j - 1);
    }
  }

  lemma {:induction false} NoBitOfZero(i: nat)
    ensures !TestBit(0, i)
  {
    if i > 0 {
      NoBitOfZero(i - 1);
    }
  }

  lemma {:induction false} IndicesOfPower(i: nat, n: nat)
    ensures SelectedIndices(Pow2(i), n) == if n <= i then [] else [i]
  {
    if n > 0 {
      IndicesOfPower(i, n - 1);
      BitOfPower(i, n - 1);
    }
  }

  /** The mask `1 << i` selects exactly listing `i`. */
  lemma PowerSelectsOne(listings: seq<Listing>, i: nat)
    requires i < |listings|
    ensures Subset(listings, Pow2(i)) == [listings[i]]
  {
    IndicesOfPower(i, |listings|);
  }

  lemma {:induction false} PowBelow(i: nat, n: nat)
    requires i < n
    ensures Pow2(i) < Pow2(n)
  {
    if i < n - 1 {
      PowBelow(i, n - 1);
    }
  }

  /**
   * What `find_cheapest_combination` promises when it finds nothing: no
   * non-empty subset of the listings can hold the vehicles, and conversely.
   */
  lemma CheapestNoneMeaning(vehicles: seq<int>, listings: seq<Listing>)
    ensures Cheapest(vehicles, listings).None?
        <==> forall m :: 1 <= m < Pow2(|listings|) ==> !MaskFits(vehicles, listings, m)
  {
    var upto := Pow2(|listings|);
    var best := BestMask(vehicles, listings, upto);
    if best.Some? {
      BestMaskFits(vehicles, listings, upto);
    } else {
      forall m | 1 <= m < upto
        ensures !MaskFits(vehicles, listings, m)
      {
        NoBestNoFit(vehicles, listings, upto, m);
      }
    }
  }

  lemma BestMaskFits(vehicles: seq<int>, listings: seq<Listing>, upto: nat)
    requires BestMask(vehicles, listings, upto).Some?
    ensures var m := BestMask(vehicles, listings, upto).value;
      1 <= m < upto && MaskFits(vehicles, listings, m)
  {
    var fits := (k: nat) => MaskFits(vehicles, listings, k);
    assert fits(BestMask(vehicles, listings, upto).value);
  }

  lemma BestMaskCheapest(vehicles: seq<int>, listings: seq<Listing>, upto: nat, m: nat)
    requires BestMask(vehicles, listings, upto).Some?
    requires 1 <= m < upto && MaskFits(vehicles, listings, m)
    ensures MaskPrice(listings, BestMask(vehicles, listings, upto).value) <= MaskPrice(listings, m)
  {
    var fits := (k: nat) => MaskFits(vehicles, listings, k);
    var price := (k: nat) => MaskPrice(listings, k);
    assert fits(m);
    assert price(BestMask(vehicles, listings, upto).value) <= price(m);
  }

  lemma BestMaskFirst(vehicles: seq<int>, listings: seq<Listing>, upto: nat, m: nat)
    requires BestMask(vehicles, listings, upto).Some?
    requires 1 <= m < BestMask(vehicles, listings, upto).value && MaskFits(vehicles, listings, m)
    ensures MaskPrice(listings, m) > MaskPrice(listings, BestMask(vehicles, listings, upto).value)
  {
    var fits := (k: nat) => MaskFits(vehicles, listings, k);
    var price := (k: nat) => MaskPrice(listings, k);
    assert fits(m);
    assert price(m) > price(BestMask(vehicles, listings, upto).value);
  }

  lemma NoBestNoFit(vehicles: seq<int>, listings: seq<Listing>, upto: nat, m: nat)
    requires BestMask(vehicles, listings, upto).None? && 1 <= m < upto
    ensures !MaskFits(vehicles, listings, m)
  {
    var fits := (k: nat) => MaskFits(vehicles, listings, k);
    assert !fits(m);
  }

  /**
   * What it promises when it finds a combo: the combo lists the ids, in
   * order, of a feasible non-empty subset and its total is the sum of
   * their prices; no feasible subset is cheaper, and every feasible subset
   * enumerated before it (a lower mask) is strictly dearer.
   */
  lemma CheapestSomeMeaning(vehicles: seq<int>, listings: seq<Listing>)
    requires Cheapest(vehicles, listings).Some?
    ensures exists m ::
      && 1 <= m < Pow2(|listings|) && IsCheapestMask(vehicles, listings, m)
      && |Subset(listings, m)| >= 1
      && Cheapest(vehicles, listings).value == FromListings(Subset(listings, m), TotalPrice(Subset(listings, m)))
  {
    var upto := Pow2(|listings|);
    var m := BestMask(vehicles, listings, upto).value;
    BestMaskFits(vehicles, listings, upto);
    SubsetNonEmpty(listings, m);
    forall m' | 1 <= m' < upto && MaskFits(vehicles, listings, m')
      ensures MaskPrice(listings, m) <= MaskPrice(listings, m')
    {
      BestMaskCheapest(vehicles, listings, upto, m');
    }
    forall m' | 1 <= m' < m && MaskFits(vehicles, listings, m')
      ensures MaskPrice(listings, m') > MaskPrice(listings, m)
    {
      BestMaskFirst(vehicles, listings, upto, m');
    }
    assert IsCheapestMask(vehicles, listings, m);
  }

  /** `mask` fits, nothing feasible is cheaper, and every earlier feasible mask is dearer. */
  ghost predicate IsCheapestMask(vehicles: seq<int>, listings: seq<Listing>, mask: nat)
  {
    MaskFits(vehicles, listings, mask)
    && (forall m :: 1 <= m < Pow2(|listings|) && MaskFits(vehicles, listings, m) ==> MaskPrice(listings, mask) <= MaskPrice(listings, m))
    && (forall m :: 1 <= m < mask && MaskFits(vehicles, listings, m) ==> MaskPrice(listings, m) > MaskPrice(listings, mask))
  }

  /** A feasible answer describes a real placement of every vehicle into the chosen listings. */
  lemma CheapestIsPlaceable(vehicles: seq<int>, listings: seq<Listing>)
    requires Cheapest(vehicles, listings).Some?
    ensures exists m ::
      && 1 <= m < Pow2(|listings|)
      && Cheapest(vehicles, listings).value.listingIds == FromListings(Subset(listings, m), 0).listingIds
      && (exists a :: IsPlacement(vehicles, Subset(listings, m), a))
  {
    var m := BestMask(vehicles, listings, Pow2(|listings|)).value;
    BestMaskFits(vehicles, listings, Pow2(|listings|));
    FitsAllIffPlacement(vehicles, Subset(listings, m));
  }

  /** When a single listing can take every vehicle, something is always found. */
  lemma OneListingSuffices(vehicles: seq<int>, listings: seq<Listing>, i: nat)
    requires i < |listings| && FitsAll(vehicles, [listings[i]])
    ensures Cheapest(vehicles, listings).Some?
  {
    var m := Pow2(i);
    PowerSelectsOne(listings, i);
    PowBelow(i, |listings|);
    assert MaskFits(vehicles, listings, m);
    if BestMask(vehicles, listings, Pow2(|listings|)).None? {
      NoBestNoFit(vehicles, listings, Pow2(|listings|), m);
    }
  }

  /**
   * One vehicle and two listings that each could take it: the cheaper
   * listing alone wins, since the pair costs more than either.
   */
  lemma CheaperListingWins(v: int, l1: Listing, l2: Listing)
    requires VehicleWidth <= GetOrientation(l2).1 && v <= GetOrientation(l2).0
    requires 0 <= l2.priceInCents < l1.priceInCents
    ensures Cheapest([v], [l1, l2]) == Some(CheapestCombo([l2.id], l2.priceInCents))
  {
    var vs := [v];
    var ls := [l1, l2];
    SubsetsOfTwo(l1, l2);
    OneVehicleFits(v, l2);
    assert MaskFits(vs, ls, 2);
    assert BestMask(vs, ls, 1) == None;
    BestMaskStep(vs, ls, 1);
    assert BestMask(vs, ls, 2) == None || BestMask(vs, ls, 2) == Some(1);
    BestMaskStep(vs, ls, 2);
    assert BestMask(vs, ls, 3) == Some(2);
    BestMaskKeeps(vs, ls, 3);
    CheapestFromBest(vs, ls, 2);
    assert FromListings([l2], l2.priceInCents).listingIds == [l2.id];
  }

  /** The three non-empty subsets of two listings and their prices. */
  lemma SubsetsOfTwo(l1: Listing, l2: Listing)
    ensures Pow2(2) == 4
    ensures Subset([l1, l2], 1) == [l1] && MaskPrice([l1, l2], 1) == l1.priceInCents
    ensures Subset([l1, l2], 2) == [l2] && MaskPrice([l1, l2], 2) == l2.priceInCents
    ensures Subset([l1, l2], 3) == [l1, l2] && MaskPrice([l1, l2], 3) == l1.priceInCents + l2.priceInCents
  {
    var ls := [l1, l2];
    PowerSelectsOne(ls, 0);
    PowerSelectsOne(ls, 1);
    assert Pow2(0) == 1 && Pow2(1) == 2 && Pow2(2) == 4;
    assert SelectedIndices(3, 2) == [0, 1];
    assert Subset(ls, 1) == [l1] && Subset(ls, 2) == [l2];
    OnePrice(l1);
    OnePrice(l2);
    TwoPrice(l1, l2);
  }

  lemma TwoPrice(a: Listing, b: Listing)
    ensures TotalPrice([a, b]) == a.priceInCents + b.priceInCents
  {
    assert [a, b][..1] == [a];
    OnePrice(a);
  }

  lemma OnePrice(l: Listing)
    ensures TotalPrice([l]) == l.priceInCents
  {
    assert [l][..0] == [];
  }

  /** The seven non-empty subsets of three listings and their prices. */
  lemma SubsetsOfThree(l1: Listing, l2: Listing, l3: Listing)
    ensures Pow2(3) == 8
    ensures Subset([l1, l2, l3], 1) == [l1] && Subset([l1, l2, l3], 2) == [l2]
    ensures Subset([l1, l2, l3], 3) == [l1, l2]
    ensures MaskPrice([l1, l2, l3], 3) == l1.priceInCents + l2.priceInCents
    ensures MaskPrice([l1, l2, l3], 4) == l3.priceInCents
    ensures MaskPrice([l1, l2, l3], 5) == l1.priceInCents + l3.priceInCents
    ensures MaskPrice([l1, l2, l3], 6) == l2.priceInCents + l3.priceInCents
    ensures MaskPrice([l1, l2, l3], 7) == l1.priceInCents + l2.priceInCents + l3.priceInCents
  {
    var ls := [l1, l2, l3];
    PowerSelectsOne(ls, 0);
    PowerSelectsOne(ls, 1);
    PowerSelectsOne(ls, 2);
    assert Pow2(0) == 1 && Pow2(1) == 2 && Pow2(2) == 4 && Pow2(3) == 8;
    PairsOfThree(l1, l2, l3);
    TwoPrice(l1, l2);
    TwoPrice(l1, l3);
    TwoPrice(l2, l3);
    OnePrice(l3);
    assert ls[..2] == [l1, l2];
  }

  lemma PairsOfThree(l1: Listing, l2: Listing, l3: Listing)
    ensures Subset([l1, l2, l3], 3) == [l1, l2] && Subset([l1, l2, l3], 5) == [l1, l3]
    ensures Subset([l1, l2, l3], 6) == [l2, l3] && Subset([l1, l2, l3], 7) == [l1, l2, l3]
  {
    assert SelectedIndices(3, 3) == [0, 1];
    assert SelectedIndices(5, 3) == [0, 2];
    assert SelectedIndices(6, 3) == [1, 2];
    assert SelectedIndices(7, 3) == [0, 1, 2];
  }

  /**
   * Two equal vehicles, two one-row listings that each take one of them but
   * not both, and a third listing dearer than the first two together: the
   * first two together win.
   */
  lemma PairOfListingsWins(v: int, l1: Listing, l2: Listing, l3: Listing)
    requires VehicleWidth <= GetOrientation(l1).1 < 2 * VehicleWidth && 0 <= v <= GetOrientation(l1).0 < v + v
    requires VehicleWidth <= GetOrientation(l2).1 < 2 * VehicleWidth && 0 <= v <= GetOrientation(l2).0 < v + v
    requires 0 <= l1.priceInCents && 0 <= l2.priceInCents
    requires l1.priceInCents + l2.priceInCents < l3.priceInCents
    ensures Cheapest([v, v], [l1, l2, l3]) == Some(CheapestCombo([l1.id, l2.id], l1.priceInCents + l2.priceInCents))
  {
    PairBestIsThree(v, l1, l2, l3);
    PairCombo(l1, l2, l3);
    CheapestFromBest([v, v], [l1, l2, l3], 3);
  }

  lemma PairCombo(l1: Listing, l2: Listing, l3: Listing)
    ensures Pow2(|[l1, l2, l3]|) == 8
    ensures FromListings(Subset([l1, l2, l3], 3), MaskPrice([l1, l2, l3], 3))
         == CheapestCombo([l1.id, l2.id], l1.priceInCents + l2.priceInCents)
  {
    SubsetsOfThree(l1, l2, l3);
    assert FromListings([l1, l2], l1.priceInCents + l2.priceInCents).listingIds == [l1.id, l2.id];
  }

  /** No mask after 3 is cheaper than the pair, so the best of all seven masks is 3. */
  lemma PairBestIsThree(v: int, l1: Listing, l2: Listing, l3: Listing)
    requires VehicleWidth <= GetOrientation(l1).1 < 2 * VehicleWidth && 0 <= v <= GetOrientation(l1).0 < v + v
    requires VehicleWidth <= GetOrientation(l2).1 < 2 * VehicleWidth && 0 <= v <= GetOrientation(l2).0 < v + v
    requires 0 <= l1.priceInCents && 0 <= l2.priceInCents
    requires l1.priceInCents + l2.priceInCents < l3.priceInCents
    ensures BestMask([v, v], [l1, l2, l3], 8) == Some(3)
  {
    var vs := [v, v];
    var ls := [l1, l2, l3];
    SubsetsOfThree(l1, l2, l3);
    PairFoundAtThree(v, l1, l2, l3);
    BestMaskKeeps(vs, ls, 4);
    BestMaskKeeps(vs, ls, 5);
    BestMaskKeeps(vs, ls, 6);
    BestMaskKeeps(vs, ls, 7);
  }

  /** Masks 1 and 2 do not fit the pair and mask 3 does. */
  lemma PairFoundAtThree(v: int, l1: Listing, l2: Listing, l3: Listing)
    requires VehicleWidth <= GetOrientation(l1).1 < 2 * VehicleWidth && 0 <= v <= GetOrientation(l1).0 < v + v
    requires VehicleWidth <= GetOrientation(l2).1 < 2 * VehicleWidth && 0 <= v <= GetOrientation(l2).0 < v + v
    ensures BestMask([v, v], [l1, l2, l3], 4) == Some(3)
  {
    var vs := [v, v];
    var ls := [l1, l2, l3];
    SubsetsOfThree(l1, l2, l3);
    PairOverflowsListing(v, l1);
    PairOverflowsListing(v, l2);
    OneEachFits(v, l1, l2);
    assert !MaskFits(vs, ls, 1) && !MaskFits(vs, ls, 2) && MaskFits(vs, ls, 3);
    assert BestMask(vs, ls, 1) == None;
    BestMaskStep(vs, ls, 1);
    assert BestMask(vs, ls, 2) == None;
    BestMaskStep(vs, ls, 2);
    assert BestMask(vs, ls, 3) == None;
    BestMaskStep(vs, ls, 3);
  }

  /** A single listing that takes the one vehicle is the answer. */
  lemma OnlyListingWins(v: int, l: Listing)
    requires VehicleWidth <= GetOrientation(l).1 && v <= GetOrientation(l).0
    ensures Cheapest([v], [l]) == Some(CheapestCombo([l.id], l.priceInCents))
  {
    PowerSelectsOne([l], 0);
    assert Pow2(0) == 1 && Pow2(1) == 2;
    OneVehicleFits(v, l);
    OnePrice(l);
    assert MaskFits([v], [l], 1);
    assert BestMask([v], [l], 1) == None;
    BestMaskStep([v], [l], 1);
    CheapestFromBest([v], [l], 1);
    assert FromListings([l], l.priceInCents).listingIds == [l.id];
  }

  /**
   * One vehicle and two listings of which the first takes it and is not
   * dearer than the second: the first alone wins, and a tie keeps it.
   */
  lemma FirstListingWins(v: int, l1: Listing, l2: Listing)
    requires VehicleWidth <= GetOrientation(l1).1 && v <= GetOrientation(l1).0
    requires 0 <= l1.priceInCents <= l2.priceInCents
    ensures Cheapest([v], [l1, l2]) == Some(CheapestCombo([l1.id], l1.priceInCents))
  {
    var vs := [v];
    var ls := [l1, l2];
    SubsetsOfTwo(l1, l2);
    OneVehicleFits(v, l1);
    assert MaskFits(vs, ls, 1);
    assert BestMask(vs, ls, 1) == None;
    BestMaskStep(vs, ls, 1);
    BestMaskKeeps(vs, ls, 2);
    BestMaskKeeps(vs, ls, 3);
    CheapestFromBest(vs, ls, 1);
    assert FromListings([l1], l1.priceInCents).listingIds == [l1.id];
  }

  /** The unit-test cases of `find_cheapest_combination`. */
  lemma CheapestPicksCheaperListing()
    ensures Cheapest([10], [Listing("1", "loc1", 20, 10, 200), Listing("2", "loc1", 15, 10, 100)])
         == Some(CheapestCombo(["2"], 100))
  {
    CheaperListingWins(10, Listing("1", "loc1", 20, 10, 200), Listing("2", "loc1", 15, 10, 100));
  }

  lemma CheapestCombinesTwoListings()
    ensures Cheapest([30, 30], [Listing("1", "loc1", 30, 10, 100), Listing("2", "loc1", 30, 10, 150), Listing("3", "loc1", 60, 20, 500)])
         == Some(CheapestCombo(["1", "2"], 250))
  {
    PairOfListingsWins(30, Listing("1", "loc1", 30, 10, 100), Listing("2", "loc1", 30, 10, 150), Listing("3", "loc1", 60, 20, 500));
  }

  /**
   * `1 << n` as the source evaluates it: the mask bound is an `i32`, so
   * `1 << 31` is the most negative `i32`, and a shift by 32 or more panics
   * (None here).
   */
  const I32Min: int := -0x8000_0000

  lemma {:induction false} Pow2Add(a: nat, b: nat)
    ensures Pow2(a + b) == Pow2(a) * Pow2(b)
  {
    if b > 0 {
      Pow2Add(a, b - 1);
    }
  }

  lemma Pow2Of31()
    ensures Pow2(31) == 0x8000_0000
  {
    assert Pow2(4) == 16;
    Pow2Add(4, 4);
    Pow2Add(8, 8);
    Pow2Add(16, 15);
    Pow2Add(8, 7);
    Pow2Add(4, 3);
  }

  function ShiftLeftI32(n: nat): (r: Option<int>)
    ensures r.None? <==> n >= 32
    ensures r.Some? ==> -0x8000_0000 <= r.value < 0x8000_0000
    ensures r.Some? ==> r.value % 0x1_0000_0000 == Pow2(n) % 0x1_0000_0000
  {
    Pow2Of31();
    if n >= 32 then None
    else if n == 31 then Some(I32Min)
    else
      PowBelow(n, 31);
      Some(Pow2(n))
  }

  /**
   * `find_cheapest_combination` with the `i32` mask bound of the source:
   * the masks run over `1 .. (1 << n)`, an empty range once the bound is not
   * above 1. None is a panic, Some(c) is the returned value.
   */
  function CheapestAsWritten(vehicles: seq<int>, listings: seq<Listing>): (r: Option<Option<CheapestCombo>>)
    ensures |listings| < 31 ==> r == Some(Cheapest(vehicles, listings))
    ensures |listings| >= 32 <==> r.None?
  {
    match ShiftLeftI32(|listings|)
    case None => None
    case Some(bound) =>
      Some(if bound <= 1 then None else ComboOf(listings, BestMask(vehicles, listings, bound)))
  }

  /**
   * With 31 listings at a location the source enumerates no mask at all and
   * finds nothing, even where one listing alone holds every vehicle and the
   * enumeration over 1 .. 2^31 - 1 finds a combo.
   */
  lemma ThirtyOneListingsFindNothing(vehicles: seq<int>, listings: seq<Listing>)
    requires |listings| == 31 && FitsAll(vehicles, [listings[0]])
    ensures CheapestAsWritten(vehicles, listings) == Some(None)
    ensures Cheapest(vehicles, listings).Some?
  {
    OneListingSuffices(vehicles, listings, 0);
  }
}
