/** The entry point: label the occupants, scan the kitchen, and place one dish
    per occupant on a shuffled free kitchen cell of a copy of the grid. */
module DishGenerator {
  import opened Preferences
  import opened Kitchen
  import opened Dishes

  /** `rooms` maps room codes to regions, `people` lists the occupants (only their
      number matters), `occupied` the claimed cells, and `coins` the outcomes of
      the preference draws. The two shuffles may produce any rearrangement;
      `eligible` is the scan's list and `order` the shuffled one. */
  method GenerateDishesAndPreferences(grid: array2<char>, rooms: map<char, Region>, people: seq<Cell>,
                                      occupied: set<Cell>, coins: seq<bool>)
    returns (gridCopy: array2<char>, prefs: seq<Entry>, dishes: seq<Dish>,
             ghost eligible: seq<Cell>, ghost order: seq<Cell>)
    requires KITCHEN_ROOM in rooms && RegionWithin(rooms[KITCHEN_ROOM], grid)
    requires |coins| == |people|
    ensures fresh(gridCopy) && unchanged(grid)
    ensures gridCopy.Length0 == grid.Length0 && gridCopy.Length1 == grid.Length1
    // the preference dictionary
    ensures prefs == Allocation(|people|, coins, |people|)
    // the scan
    ensures forall p :: p in eligible <==> Eligible(grid, rooms[KITCHEN_ROOM], occupied, p)
    ensures RowMajor(eligible) && Distinct(eligible)
    // the placements: a prefix of a rearrangement of the eligible cells
    ensures |order| == |eligible| && multiset(order) == multiset(eligible) && Distinct(order)
    ensures |dishes| == Min(|eligible|, |people|)
    ensures forall i :: 0 <= i < |dishes| ==> (dishes[i].row, dishes[i].col) == order[i]
    ensures forall i :: 0 <= i < |dishes| ==> Eligible(grid, rooms[KITCHEN_ROOM], occupied, (dishes[i].row, dishes[i].col))
    ensures forall i, j :: 0 <= i < j < |dishes| ==> (dishes[i].row, dishes[i].col) != (dishes[j].row, dishes[j].col)
    // the dish types
    ensures forall i :: 0 <= i < |dishes| ==> IsPreference(dishes[i].kind)
    ensures |FindDishesByType(dishes, VEGAN)| <= CountPref(prefs, VEGAN)
    ensures |FindDishesByType(dishes, NON_VEGETARIAN)| <= CountPref(prefs, NON_VEGETARIAN)
    ensures |eligible| >= |people| ==>
      |FindDishesByType(dishes, VEGAN)| == CountPref(prefs, VEGAN) &&
      |FindDishesByType(dishes, NON_VEGETARIAN)| == CountPref(prefs, NON_VEGETARIAN)
    // the grids
    ensures forall i :: 0 <= i < |dishes| ==>
      0 <= dishes[i].row < grid.Length0 && 0 <= dishes[i].col < grid.Length1 &&
      var marker := gridCopy[dishes[i].row, dishes[i].col];
      (dishes[i].kind == VEGAN <==> marker == VEGAN_DISH) &&
      (dishes[i].kind == NON_VEGETARIAN <==> marker == NON_VEGETARIAN_DISH)
    ensures forall r, c :: 0 <= r < grid.Length0 && 0 <= c < grid.Length1 && (r, c) !in order[..|dishes|] ==>
      gridCopy[r, c] == grid[r, c]
  {
    var kitchen := rooms[KITCHEN_ROOM];
    var numPeople := |people|;

    prefs := AssignPreferences(numPeople, coins);

    var valid := EligibleCells(grid, kitchen, occupied);
    eligible := valid;

    var veganCount := CountPreference(prefs, VEGAN);
    var nonVegCount := CountPreference(prefs, NON_VEGETARIAN);
    CountPrefSplit(prefs);
    assert veganCount + nonVegCount == numPeople;

    forall i | 0 <= i < |valid|
      ensures 0 <= valid[i].0 < grid.Length0 && 0 <= valid[i].1 < grid.Length1
    {
      assert valid[i] in valid;
    }
    gridCopy, dishes, order := PlaceOnCopy(grid, valid, veganCount, nonVegCount);
    forall i | 0 <= i < |dishes|
      ensures Eligible(grid, kitchen, occupied, (dishes[i].row, dishes[i].col))
    {
      assert (dishes[i].row, dishes[i].col) in valid;
    }
  }

  /** `grid.copy()` followed by the matcher on the copy, over the scanned cells
      `valid` and the two label counts. */
  method PlaceOnCopy(grid: array2<char>, valid: seq<Cell>, veganCount: nat, nonVegCount: nat)
    returns (gridCopy: array2<char>, dishes: seq<Dish>, ghost order: seq<Cell>)
    requires Distinct(valid)
    requires forall i :: 0 <= i < |valid| ==> 0 <= valid[i].0 < grid.Length0 && 0 <= valid[i].1 < grid.Length1
    ensures fresh(gridCopy) && unchanged(grid)
    ensures gridCopy.Length0 == grid.Length0 && gridCopy.Length1 == grid.Length1
    ensures |order| == |valid| && multiset(order) == multiset(valid) && Distinct(order)
    ensures |dishes| == Min(|valid|, veganCount + nonVegCount)
    ensures forall i :: 0 <= i < |dishes| ==> (dishes[i].row, dishes[i].col) == order[i]
    ensures forall i :: 0 <= i < |dishes| ==> (dishes[i].row, dishes[i].col) in valid
    ensures forall i, j :: 0 <= i < j < |dishes| ==> (dishes[i].row, dishes[i].col) != (dishes[j].row, dishes[j].col)
    ensures forall i :: 0 <= i < |dishes| ==> IsPreference(dishes[i].kind)
    ensures |FindDishesByType(dishes, VEGAN)| <= veganCount
    ensures |FindDishesByType(dishes, NON_VEGETARIAN)| <= nonVegCount
    ensures |valid| >= veganCount + nonVegCount ==>
      |FindDishesByType(dishes, VEGAN)| == veganCount &&
      |FindDishesByType(dishes, NON_VEGETARIAN)| == nonVegCount
    ensures forall i :: 0 <= i < |dishes| ==>
      0 <= dishes[i].row < grid.Length0 && 0 <= dishes[i].col < grid.Length1 &&
      var marker := gridCopy[dishes[i].row, dishes[i].col];
      (dishes[i].kind == VEGAN <==> marker == VEGAN_DISH) &&
      (dishes[i].kind == NON_VEGETARIAN <==> marker == NON_VEGETARIAN_DISH)
    ensures forall r, c :: 0 <= r < grid.Length0 && 0 <= c < grid.Length1 && (r, c) !in order[..|dishes|] ==>
      gridCopy[r, c] == grid[r, c]
  {
    gridCopy := CopyGrid(grid);
    ghost var shuffled;
    dishes, order, shuffled := MatchDishes(gridCopy, valid, veganCount, nonVegCount);
    MatchedPlacements(valid, order, shuffled, dishes, veganCount, nonVegCount);
    forall i | 0 <= i < |dishes|
      ensures 0 <= dishes[i].row < grid.Length0 && 0 <= dishes[i].col < grid.Length1
      ensures gridCopy[dishes[i].row, dishes[i].col] == shuffled[i]
    {
      assert (dishes[i].row, dishes[i].col) == order[i];
    }
  }
}
