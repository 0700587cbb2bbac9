/** Dishes: the shuffled list of dish markers, their placement on the shuffled
    eligible cells of a grid, and the lookup of placed dishes by type. */
module Dishes {
  import opened Preferences
  import opened Kitchen

  /** Grid markers of a vegan and of a non-vegetarian dish. */
  const VEGAN_DISH: char := 'V'
  const NON_VEGETARIAN_DISH: char := 'N'

  /** An entry `(row, col, dish_type_name)` of the placement list. */
  datatype Dish = Dish(row: int, col: int, kind: string)

  function Min(a: int, b: int): int {
    if a < b then a else b
  }

  function Position(d: Dish): Cell {
    (d.row, d.col)
  }

  /** The type name recorded for a placed marker. */
  function DishName(item: char): string {
    if item == VEGAN_DISH then VEGAN else NON_VEGETARIAN
  }

  /** The list `[x] * k`. */
  function Repeat(x: char, k: nat): (r: seq<char>)
    ensures |r| == k
    ensures multiset(r)[x] == k
    ensures forall i :: 0 <= i < k ==> r[i] == x
  {
    if k == 0 then [] else Repeat(x, k - 1) + [x]
  }

  /** `['V'] * veganCount + ['N'] * nonVegCount`, before shuffling. */
  function DishItems(veganCount: nat, nonVegCount: nat): (items: seq<char>)
    ensures |items| == veganCount + nonVegCount
    ensures multiset(items)[VEGAN_DISH] == veganCount
    ensures multiset(items)[NON_VEGETARIAN_DISH] == nonVegCount
    ensures forall x :: x in items ==> x == VEGAN_DISH || x == NON_VEGETARIAN_DISH
  {
    Repeat(VEGAN_DISH, veganCount) + Repeat(NON_VEGETARIAN_DISH, nonVegCount)
  }

  /** `random.shuffle` as CPython performs it (Fisher-Yates from the back); every
      draw `j` is arbitrary, so the contract covers every possible outcome. */
  method Shuffle<T>(a: array<T>)
    modifies a
    ensures multiset(a[..]) == old(multiset(a[..]))
  {
    var i := a.Length - 1;
    while i > 0
      invariant i < a.Length
      invariant multiset(a[..]) == old(multiset(a[..]))
    {
      var j :| 0 <= j <= i;
      a[i], a[j] := a[j], a[i];
      i := i - 1;
    }
  }

  /** A new list holding `s`, shuffled. */
  method ShuffledList<T>(s: seq<T>) returns (a: array<T>)
    ensures fresh(a) && multiset(a[..]) == multiset(s)
  {
    a := new T[|s|](i requires 0 <= i < |s| => s[i]);
    assert a[..] == s;
    Shuffle(a);
  }

  /** Pairs item i with cell i while cells remain, writes each item into `g`
      and records the placement; items beyond the last cell are skipped. */
  method PlaceDishes(g: array2<char>, cells: array<Cell>, items: array<char>) returns (dishes: seq<Dish>)
    requires Distinct(cells[..])
    requires forall i :: 0 <= i < cells.Length ==> 0 <= cells[i].0 < g.Length0 && 0 <= cells[i].1 < g.Length1
    modifies g
    ensures |dishes| == Min(cells.Length, items.Length)
    ensures forall i :: 0 <= i < |dishes| ==> dishes[i] == Dish(cells[i].0, cells[i].1, DishName(items[i]))
    ensures forall i :: 0 <= i < |dishes| ==> g[cells[i].0, cells[i].1] == items[i]
    ensures forall r, c :: 0 <= r < g.Length0 && 0 <= c < g.Length1 && (r, c) !in cells[..|dishes|] ==>
      g[r, c] == old(g[r, c])
  {
    dishes := [];
    for i := 0 to items.Length
      invariant |dishes| == Min(i, cells.Length)
      invariant forall k :: 0 <= k < |dishes| ==> dishes[k] == Dish(cells[k].0, cells[k].1, DishName(items[k]))
      invariant forall k :: 0 <= k < |dishes| ==> g[cells[k].0, cells[k].1] == items[k]
      invariant forall r, c :: 0 <= r < g.Length0 && 0 <= c < g.Length1 && (r, c) !in cells[..|dishes|] ==>
        g[r, c] == old(g[r, c])
    {
      if i < cells.Length {
        var (row, col) := cells[i];
        assert forall k :: 0 <= k < i ==> cells[k] != cells[i] by {
          assert forall k :: 0 <= k < i ==> cells[..][k] == cells[k];
        }
        g[row, col] := items[i];
        dishes := dishes + [Dish(row, col, DishName(items[i]))];
        assert cells[..|dishes|] == cells[..i] + [cells[i]];
      }
    }
  }

  /** The matcher: shuffles the cells and the list of markers, then places
      marker i on cell i while cells remain. `order` is the shuffled cell list
      and `shuffled` the shuffled marker list. */
  method MatchDishes(g: array2<char>, valid: seq<Cell>, veganCount: nat, nonVegCount: nat)
    returns (dishes: seq<Dish>, ghost order: seq<Cell>, ghost shuffled: seq<char>)
    requires Distinct(valid)
    requires forall i :: 0 <= i < |valid| ==> 0 <= valid[i].0 < g.Length0 && 0 <= valid[i].1 < g.Length1
    modifies g
    ensures multiset(order) == multiset(valid)
    ensures forall i :: 0 <= i < |order| ==> 0 <= order[i].0 < g.Length0 && 0 <= order[i].1 < g.Length1
    ensures multiset(shuffled) == multiset(DishItems(veganCount, nonVegCount))
    ensures |dishes| == Min(|order|, |shuffled|)
    ensures forall i :: 0 <= i < |dishes| ==> dishes[i] == Dish(order[i].0, order[i].1, DishName(shuffled[i]))
    ensures forall i :: 0 <= i < |dishes| ==> g[order[i].0, order[i].1] == shuffled[i]
    ensures forall r, c :: 0 <= r < g.Length0 && 0 <= c < g.Length1 && (r, c) !in order[..|dishes|] ==>
      g[r, c] == old(g[r, c])
  {
    var positions := ShuffledList(valid);
    order := positions[..];
    DistinctPermutation(valid, order);
    var items := ShuffledList(DishItems(veganCount, nonVegCount));
    shuffled := items[..];
    forall i | 0 <= i < positions.Length
      ensures 0 <= positions[i].0 < g.Length0 && 0 <= positions[i].1 < g.Length1
    {
      assert positions[i] == order[i];
      assert order[i] in multiset(valid);
    }
    dishes := PlaceDishes(g, positions, items);
    assert positions[..|dishes|] == order[..|dishes|];
  }

  /** What the matcher's placements satisfy for every outcome of the two
      shuffles: distinct eligible cells are used at most once each, as many
      dishes as cells and markers allow are placed, each type is placed at most
      as often as it was requested (exactly as often when the cells suffice),
      and every name agrees with its marker. */
  lemma MatchedPlacements(valid: seq<Cell>, order: seq<Cell>, shuffled: seq<char>, dishes: seq<Dish>,
                          veganCount: nat, nonVegCount: nat)
    requires Distinct(valid)
    requires multiset(order) == multiset(valid)
    requires multiset(shuffled) == multiset(DishItems(veganCount, nonVegCount))
    requires |dishes| == Min(|order|, |shuffled|)
    requires forall i :: 0 <= i < |dishes| ==> dishes[i] == Dish(order[i].0, order[i].1, DishName(shuffled[i]))
    ensures |order| == |valid| && Distinct(order)
    ensures |dishes| == Min(|valid|, veganCount + nonVegCount)
    ensures forall i :: 0 <= i < |dishes| ==> (dishes[i].row, dishes[i].col) == order[i]
    ensures forall i :: 0 <= i < |dishes| ==> (dishes[i].row, dishes[i].col) in valid
    ensures forall i, j :: 0 <= i < j < |dishes| ==> (dishes[i].row, dishes[i].col) != (dishes[j].row, dishes[j].col)
    ensures forall i :: 0 <= i < |dishes| ==> IsPreference(dishes[i].kind)
    ensures forall i :: 0 <= i < |dishes| ==>
      (dishes[i].kind == VEGAN <==> shuffled[i] == VEGAN_DISH) &&
      (dishes[i].kind == NON_VEGETARIAN <==> shuffled[i] == NON_VEGETARIAN_DISH)
    ensures |FindDishesByType(dishes, VEGAN)| <= veganCount
    ensures |FindDishesByType(dishes, NON_VEGETARIAN)| <= nonVegCount
    ensures |valid| >= veganCount + nonVegCount ==>
      |FindDishesByType(dishes, VEGAN)| == veganCount &&
      |FindDishesByType(dishes, NON_VEGETARIAN)| == nonVegCount
  {
    assert |order| == |multiset(order)| == |valid|;
    assert |shuffled| == |multiset(shuffled)| == veganCount + nonVegCount;
    DistinctPermutation(valid, order);
    forall i | 0 <= i < |dishes|
      ensures (dishes[i].row, dishes[i].col) in valid
    {
      assert order[i] in multiset(valid);
    }
    MarkerCounts(dishes, shuffled, veganCount, nonVegCount);
  }

  /** Placed dishes named after a prefix of a rearrangement of the marker list:
      each type is counted at most as often as its marker was listed, exactly
      as often when every marker was placed, and a type name matches its marker. */
  lemma MarkerCounts(dishes: seq<Dish>, items: seq<char>, veganCount: nat, nonVegCount: nat)
    requires multiset(items) == multiset(DishItems(veganCount, nonVegCount))
    requires |dishes| <= |items|
    requires forall i :: 0 <= i < |dishes| ==> dishes[i].kind == DishName(items[i])
    ensures forall i :: 0 <= i < |dishes| ==>
      (dishes[i].kind == VEGAN <==> items[i] == VEGAN_DISH) &&
      (dishes[i].kind == NON_VEGETARIAN <==> items[i] == NON_VEGETARIAN_DISH)
    ensures |FindDishesByType(dishes, VEGAN)| <= veganCount
    ensures |FindDishesByType(dishes, NON_VEGETARIAN)| <= nonVegCount
    ensures |dishes| == |items| ==>
      |FindDishesByType(dishes, VEGAN)| == veganCount &&
      |FindDishesByType(dishes, NON_VEGETARIAN)| == nonVegCount
  {
    var k := |dishes|;
    var placed := items[..k];
    assert items == placed + items[k..];
    forall i | 0 <= i < |items|
      ensures items[i] == VEGAN_DISH || items[i] == NON_VEGETARIAN_DISH
    {
      assert items[i] in multiset(DishItems(veganCount, nonVegCount));
    }
    NamedDishCounts(dishes, placed);
  }

  /** `[(row, col) for row, col, t in dishes if t == kind]`. */
  function FindDishesByType(ds: seq<Dish>, kind: string): (r: seq<Cell>)
    ensures |r| <= |ds|
    ensures forall p :: p in r <==> exists i :: 0 <= i < |ds| && ds[i].kind == kind && Position(ds[i]) == p
  {
    if ds == [] then []
    else
      var last := ds[|ds| - 1];
      FindDishesByType(ds[..|ds| - 1], kind) + (if last.kind == kind then [Position(last)] else [])
  }

  /** The filter keeps the order of the list: it distributes over concatenation. */
  lemma {:induction false} FindDishesConcat(a: seq<Dish>, b: seq<Dish>, kind: string)
    ensures FindDishesByType(a + b, kind) == FindDishesByType(a, kind) + FindDishesByType(b, kind)
    decreases |b|
  {
    if b == [] {
      assert a + b == a;
    } else {
      var b', last := b[..|b| - 1], b[|b| - 1];
      var tail := if last.kind == kind then [Position(last)] else [];
      FindDishesConcat(a, b', kind);
      assert (a + b)[..|a + b| - 1] == a + b' && (a + b)[|a + b| - 1] == last;
      assert FindDishesByType(a + b, kind) == FindDishesByType(a + b', kind) + tail;
      assert FindDishesByType(b, kind) == FindDishesByType(b', kind) + tail;
    }
  }

  /** With every type one of the two labels, the two lookups together cover the list. */
  lemma {:induction false} FindDishesSplit(ds: seq<Dish>)
    requires forall i :: 0 <= i < |ds| ==> IsPreference(ds[i].kind)
    ensures |FindDishesByType(ds, VEGAN)| + |FindDishesByType(ds, NON_VEGETARIAN)| == |ds|
  {
    if ds != [] {
      FindDishesSplit(ds[..|ds| - 1]);
    }
  }

  /** Each placed dish is named after its marker, so the lookups count the markers. */
  lemma {:induction false} NamedDishCounts(ds: seq<Dish>, items: seq<char>)
    requires |ds| == |items|
    requires forall i :: 0 <= i < |ds| ==> ds[i].kind == DishName(items[i])
    requires forall i :: 0 <= i < |items| ==> items[i] == VEGAN_DISH || items[i] == NON_VEGETARIAN_DISH
    ensures |FindDishesByType(ds, VEGAN)| == multiset(items)[VEGAN_DISH]
    ensures |FindDishesByType(ds, NON_VEGETARIAN)| == multiset(items)[NON_VEGETARIAN_DISH]
  {
    if ds != [] {
      var n := |ds| - 1;
      assert items == items[..n] + [items[n]];
      NamedDishCounts(ds[..n], items[..n]);
    }
  }

  /** A distinct list holds every value at most once. */
  lemma {:induction false} DistinctMultiplicity<T>(s: seq<T>, x: T)
    requires Distinct(s)
    ensures multiset(s)[x] <= 1
  {
    if s != [] {
      DistinctMultiplicity(s[1..], x);
      assert s == [s[0]] + s[1..];
      if s[0] == x {
        assert x !in s[1..];
      }
    }
  }

  /** Two positions holding the same value count twice in the multiset. */
  lemma PairMultiplicity<T>(t: seq<T>, i: nat, j: nat)
    requires i < j < |t|
    ensures multiset(t)[t[i]] >= if t[i] == t[j] then 2 else 1
  {
    assert t == t[..j] + [t[j]] + t[j + 1..];
    assert t[i] in t[..j];
  }

  /** A rearrangement of a distinct list is distinct. */
  lemma DistinctPermutation<T>(s: seq<T>, t: seq<T>)
    requires multiset(s) == multiset(t) && Distinct(s)
    ensures Distinct(t)
  {
    forall i, j | 0 <= i < j < |t|
      ensures t[i] != t[j]
    {
      DistinctMultiplicity(s, t[i]);
      PairMultiplicity(t, i, j);
    }
  }
}
