/** The summary of an assignment: the people and the dish positions of each
    preference, with their counts. */
module Summaries {
  import opened Preferences
  import opened Kitchen
  import opened Dishes

  datatype Summary = Summary(
    totalPeople: nat,
    veganPeople: seq<int>,
    nonVegetarianPeople: seq<int>,
    veganPeopleCount: nat,
    nonVegetarianPeopleCount: nat,
    veganDishesPositions: seq<Cell>,
    nonVegetarianDishesPositions: seq<Cell>,
    veganDishesCount: nat,
    nonVegetarianDishesCount: nat)

  /** Projects the preference dictionary and the placement list onto per-label
      lists and counts. */
  function DishAssignmentSummary(prefs: seq<Entry>, dishes: seq<Dish>): (s: Summary)
    ensures s.totalPeople == |prefs|
    ensures s.veganPeopleCount == |s.veganPeople| == CountPref(prefs, VEGAN)
    ensures s.nonVegetarianPeopleCount == |s.nonVegetarianPeople| == CountPref(prefs, NON_VEGETARIAN)
    ensures s.veganDishesCount == |s.veganDishesPositions| <= |dishes|
    ensures s.nonVegetarianDishesCount == |s.nonVegetarianDishesPositions| <= |dishes|
    ensures forall x :: x in s.veganPeople <==>
      exists i :: 0 <= i < |prefs| && prefs[i].pref == VEGAN && prefs[i].person == x
    ensures forall x :: x in s.nonVegetarianPeople <==>
      exists i :: 0 <= i < |prefs| && prefs[i].pref == NON_VEGETARIAN && prefs[i].person == x
    ensures forall p :: p in s.veganDishesPositions <==>
      exists i :: 0 <= i < |dishes| && dishes[i].kind == VEGAN && Position(dishes[i]) == p
    ensures forall p :: p in s.nonVegetarianDishesPositions <==>
      exists i :: 0 <= i < |dishes| && dishes[i].kind == NON_VEGETARIAN && Position(dishes[i]) == p
  {
    var veganPeople := PeopleWith(prefs, VEGAN);
    var nonVegPeople := PeopleWith(prefs, NON_VEGETARIAN);
    var veganDishes := FindDishesByType(dishes, VEGAN);
    var nonVegDishes := FindDishesByType(dishes, NON_VEGETARIAN);
    Summary(|prefs|, veganPeople, nonVegPeople, |veganPeople|, |nonVegPeople|,
            veganDishes, nonVegDishes, |veganDishes|, |nonVegDishes|)
  }

  /** When every value and every dish type is one of the two labels, the people
      counts add up to the number of people and the dish counts to the number
      of placed dishes. */
  lemma SummaryTotals(prefs: seq<Entry>, dishes: seq<Dish>)
    requires forall i :: 0 <= i < |prefs| ==> IsPreference(prefs[i].pref)
    requires forall i :: 0 <= i < |dishes| ==> IsPreference(dishes[i].kind)
    ensures var s := DishAssignmentSummary(prefs, dishes);
      s.veganPeopleCount + s.nonVegetarianPeopleCount == s.totalPeople &&
      s.veganDishesCount + s.nonVegetarianDishesCount == |dishes|
  {
    CountPrefSplit(prefs);
    FindDishesSplit(dishes);
  }

  /** The summary of an allocated dictionary counts n people, and with at least
      two people lists somebody under each label. */
  lemma SummaryOfAllocation(n: nat, coins: seq<bool>, dishes: seq<Dish>)
    requires |coins| == n
    ensures var s := DishAssignmentSummary(Allocation(n, coins, n), dishes);
      s.totalPeople == n &&
      s.veganPeopleCount + s.nonVegetarianPeopleCount == n &&
      (n >= 2 ==> s.veganPeopleCount >= 1 && s.nonVegetarianPeopleCount >= 1)
  {
    var d := Allocation(n, coins, n);
    CountPrefSplit(d);
    if n >= 2 {
      BothPreferencesPresent(n, coins);
      CountPrefPositive(d, VEGAN);
      CountPrefPositive(d, NON_VEGETARIAN);
    }
  }
}
