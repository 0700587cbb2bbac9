# Dish generator

A Dafny model of `utils/dish_generator.py`, the part of the house simulation
that gives each of the N occupants a dietary preference (`'vegan'` or
`'non-vegetarian'`) and scatters matching dish markers (`'V'`, `'N'`) over the
free floor cells of the kitchen in a copy of the house grid.

The model follows the program's four parts:

- **Preference allocator** (`preferences.dfy`, module `Preferences`). Persons
  1..N are labelled in order. The first ⌊N/2⌋ get a free draw. Each later person
  gets `'vegan'` if nobody is vegan yet, else `'non-vegetarian'` if nobody is
  non-vegetarian yet, else a free draw. The draws are an input sequence `coins`
  (one per person; `true` is the first element of the choice list, `'vegan'`).
  The method `AssignPreferences` runs the counting loop. The function
  `Allocation` is its specification, and the lemmas about the labels are proved
  on it. The preference dictionary is a sequence of `Entry(person, pref)` in
  insertion order, since Python dictionaries iterate in that order and the
  summary lists people in it.
- **Eligible-cell scanner** (`kitchen.dfy`, module `Kitchen`). `EligibleCells`
  walks the kitchen's half-open row and column ranges with nested loops. Its
  contract says the result holds exactly the `Eligible` cells, in strictly
  row-major order. `RowMajorUnique` shows that these two facts determine the
  list completely. The kitchen is a `Region` of two `Slice`s, as in the room
  dictionary, and the grid is an `array2<char>`.
- **Placement matcher** (`dishes.dfy`, module `Dishes`). `Shuffle` is the
  in-place Fisher–Yates shuffle that `random.shuffle` performs. Each swap index
  is an arbitrary choice, so every contract holds for every outcome.
  `PlaceDishes` is the loop that pairs marker i with cell i while cells remain,
  writes the marker into the grid and records `Dish(row, col, kind)`.
  `MatchDishes` composes the two shuffles with that loop. `MatchedPlacements`
  states what the placements satisfy for every outcome of the shuffles.
- **Query helpers** (`preferences.dfy`, `dishes.dfy`, `summary.dfy`).
  `PersonPreference` is the lookup with the `'unknown'` default.
  `FindDishesByType` is the filter. `DishAssignmentSummary` is the summary.

`generator.dfy` (module `DishGenerator`) is the entry point
`generate_dishes_and_preferences`. It runs the allocator, the scanner, the grid
copy and the matcher in the source's order. Its contract gathers their
properties over the returned grid, dictionary and placement list.

A single occupant always gets `'vegan'`: ⌊1/2⌋ = 0 sends index 0 to the
balancing branch (utils/dish_generator.py:41-49), whose vegan-count-zero test
comes first (`Preferences.SinglePersonIsVegan`).

## Model

| member | source | states |
|---|---|---|
| Preferences.Allocation | utils/dish_generator.py:38-53 | After k persons, the dictionary has k entries, entry i is person i + 1, and each value is one of the two labels |
| Preferences.AssignPreferences | utils/dish_generator.py:34-53 | The loop that fills the dictionary key by key, with its running counts, yields exactly `Allocation(n, coins, n)` for every sequence of draws |
| Preferences.CountPreference | utils/dish_generator.py:45-46 | The generator-expression sum over the values equals the number of values equal to the label |
| Preferences.AllocationKeys | utils/dish_generator.py:38-53 | The keys are pairwise distinct and are exactly 1..N; every value is `'vegan'` or `'non-vegetarian'` |
| Preferences.CountPrefSplit | utils/dish_generator.py:78-79 | When every value is a label, `vegan_count + non_veg_count` equals the number of entries, so N dishes are requested |
| Preferences.CountPrefPositive | utils/dish_generator.py:45-50 | A running count is zero exactly when no entry has that label, which is what the balancing tests rely on |
| Preferences.FirstBalancedPerson | utils/dish_generator.py:41-53 | Person ⌊N/2⌋ + 1 gets `'vegan'` if the first half has no vegan, else `'non-vegetarian'` if it has no non-vegetarian, else the draw |
| Preferences.BothPreferencesPresent | utils/dish_generator.py:41-51 | With N ≥ 2 both labels occur among the values, whatever the draws |
| Preferences.SinglePersonIsVegan | utils/dish_generator.py:41-49 | With N = 1 the only entry is `(1, 'vegan')`, whatever the draw |
| Preferences.PersonPreference | utils/dish_generator.py:107 | A present key yields the value stored under it, and an absent key yields `'unknown'` |
| Preferences.PersonPreferenceOfAllocation | utils/dish_generator.py:107 | On an allocated dictionary, the lookup of person p returns the label of entry p for 1 ≤ p ≤ N and `'unknown'` otherwise |
| Preferences.PeopleWith | utils/dish_generator.py:133-134 | The people list of a label has as many members as values equal to the label, and holds exactly the keys whose value is that label |
| Preferences.PeopleWithConcat | utils/dish_generator.py:133-134 | The people list keeps dictionary order: the list of a concatenation is the concatenation of the lists |
| Kitchen.EligibleCells | utils/dish_generator.py:56-63 | The scan keeps exactly the cells inside the kitchen ranges, in the grid, not occupied and labelled `'K'`, in strictly row-major order, hence without duplicates |
| Kitchen.BlockedIsNotFloor | utils/dish_generator.py:61-62 | A `'K'` cell is never wall, door, counter or fridge, so the extra test does not change the scan |
| Kitchen.RowMajorUnique | utils/dish_generator.py:57-63 | Two row-major lists with the same members are equal, so the scan's contract fixes its result |
| Kitchen.CopyGrid | utils/dish_generator.py:72 | `grid.copy()` is a new grid with the same dimensions and the same label in every cell |
| Dishes.Repeat | utils/dish_generator.py:81 | `[x] * k` has length k and holds x k times and nothing else |
| Dishes.DishItems | utils/dish_generator.py:81 | The marker list has `vegan_count` `'V'`s and `non_veg_count` `'N'`s and nothing else |
| Dishes.Shuffle | utils/dish_generator.py:75 | Every outcome of the in-place shuffle rearranges the list, keeping its multiset of elements |
| Dishes.ShuffledList | utils/dish_generator.py:81-82 | A new list holding a rearrangement of the given elements |
| Dishes.PlaceDishes | utils/dish_generator.py:85-90 | `min(#cells, #markers)` dishes are placed. Dish i is at cell i and named after marker i. The grid holds marker i at cell i. Every other cell is unchanged. No error is raised when cells run out |
| Dishes.MatchDishes | utils/dish_generator.py:71-90 | The placements pair a rearrangement of the eligible cells with a rearrangement of the markers, prefix by prefix, and the grid changes only at the placed cells |
| Dishes.MatchedPlacements | utils/dish_generator.py:66-92 | For every outcome of the shuffles, the following hold. `min(#eligible, N)` dishes are placed. Their positions are the first entries of a permutation of the eligible list, so they are pairwise distinct and eligible. Each name is a label and matches its marker. Each type is placed at most as often as requested, and exactly as often when the cells suffice |
| Dishes.MarkerCounts | utils/dish_generator.py:78-90 | Dishes named after a prefix of the shuffled markers number at most `vegan_count` vegan and `non_veg_count` non-vegetarian, exactly that many when every marker was placed, and `'vegan'` exactly at a `'V'` |
| Dishes.NamedDishCounts | utils/dish_generator.py:85-90 | When each dish is named after its marker, the dishes of each type number as many as that type's markers |
| Dishes.DistinctPermutation | utils/dish_generator.py:75 | Shuffling a duplicate-free list leaves it duplicate-free |
| Dishes.FindDishesByType | utils/dish_generator.py:120 | The result is never longer than the list, and holds exactly the positions of the dishes of the queried type |
| Dishes.FindDishesConcat | utils/dish_generator.py:120 | The filter keeps list order: the filter of a concatenation is the concatenation of the filters |
| Dishes.FindDishesSplit | utils/dish_generator.py:120 | When every type is a label, the vegan and non-vegetarian results together have the length of the list |
| Summaries.DishAssignmentSummary | utils/dish_generator.py:122-149 | The total is the number of entries. Each people list holds exactly the keys whose value is that label, and its count equals its length and the number of such entries. Each position list holds exactly the positions of the dishes of that type, and its count equals its length, at most the number of dishes |
| Summaries.SummaryTotals | utils/dish_generator.py:139-148 | When every value and dish type is a label, the people counts add up to the total and the dish counts to the number of dishes |
| Summaries.SummaryOfAllocation | utils/dish_generator.py:133-143 | For an allocated dictionary, the total is N, the two people counts add up to N, and each is at least one when N ≥ 2 |
| DishGenerator.PlaceOnCopy | utils/dish_generator.py:71-92 | The input grid is unchanged. The fresh copy holds each placed dish's marker at its cell, matching its name, and equals the input elsewhere. The placements are a prefix of a duplicate-free permutation of the scanned cells, bounded per type by the requested counts |
| DishGenerator.GenerateDishesAndPreferences | utils/dish_generator.py:7-94 | The input grid is unchanged and a fresh copy is returned. The dictionary is the allocation. The scan and placement properties above hold. Per-type placed counts are bounded by, and with enough cells equal to, the label counts. The copy holds each dish's marker at its cell and equals the input everywhere else |

## Left out

- `visualize_dishes_and_preferences` and the `print` warnings: they only write to standard output. The model asserts nothing about the warnings' claim that dishes "may overlap"; `MatchedPlacements` proves they never do.
- The distribution of `random.choice` and `random.shuffle`: the draws are the input `coins`, and each shuffle swap is an arbitrary choice. Every contract holds for every outcome, and nothing probabilistic is stated.
- Dishes.Shuffle: states that the result is a rearrangement, not that every rearrangement can occur.
- DishGenerator.GenerateDishesAndPreferences: requires the room dictionary to have a `'K'` entry. The source raises `KeyError` without one, and that exception is not modelled.
- DishGenerator.GenerateDishesAndPreferences: requires the kitchen ranges to lie inside the grid (or be empty). numpy's wrap-around for negative indices and its `IndexError` beyond the edge are not modelled.
- DishGenerator.GenerateDishesAndPreferences: the occupant coordinates contribute only their count, as in the source. The draws `coins` must have one entry per occupant. The model consumes one entry per person even where the balancing rule forces the label and the source makes no draw.
- The preference dictionary is an insertion-ordered list of entries. The allocator's keys are distinct (`AllocationKeys`), so the list is a faithful dictionary for what the allocator builds. `PersonPreference` on an arbitrary list returns the first entry for the key.
- The summary dictionary is the datatype `Summary`, with one field per key.
- numpy specifics beyond `copy()` and indexed reads and writes are not modelled; the grid is a 2-D character array.
