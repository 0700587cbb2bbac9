/** The preference allocator: every occupant, numbered 1..N, receives one of two
    dietary labels, with a balancing rule for the second half of the occupants.
    The preference dictionary is modelled as its entries in insertion order. */
module Preferences {

  const VEGAN: string := "vegan"
  const NON_VEGETARIAN: string := "non-vegetarian"
  /** The default returned by a lookup of a person who has no entry. */
  const UNKNOWN: string := "unknown"

  predicate IsPreference(p: string) {
    p == VEGAN || p == NON_VEGETARIAN
  }

  /** One key/value pair of the preference dictionary. */
  datatype Entry = Entry(person: int, pref: string)

  /** The keys of a dictionary are pairwise distinct. */
  predicate UniqueKeys(d: seq<Entry>) {
    forall i, j :: 0 <= i < j < |d| ==> d[i].person != d[j].person
  }

  function Persons(d: seq<Entry>): set<int> {
    set e | e in d :: e.person
  }

  /** The outcome of one `random.choice` over the list [vegan, non-vegetarian]:
      `true` stands for the draw of its first element. */
  function Choose(coin: bool): string {
    if coin then VEGAN else NON_VEGETARIAN
  }

  /** How many values of `d` equal `tag`. */
  function CountPref(d: seq<Entry>, tag: string): (c: nat)
    ensures c <= |d|
  {
    if d == [] then 0
    else CountPref(d[..|d| - 1], tag) + (if d[|d| - 1].pref == tag then 1 else 0)
  }

  /** The tag given to the person at index `i` (person number i + 1) out of `n`,
      when `sofar` holds the labels of the persons before it. */
  function NextPreference(n: nat, i: nat, sofar: seq<Entry>, coin: bool): string {
    if i < n / 2 then Choose(coin)
    else if CountPref(sofar, VEGAN) == 0 then VEGAN
    else if CountPref(sofar, NON_VEGETARIAN) == 0 then NON_VEGETARIAN
    else Choose(coin)
  }

  /** The dictionary after the first `k` of `n` persons have been labelled, given
      the outcomes `coins` of the random draws (coins[i] is used for person i + 1). */
  function Allocation(n: nat, coins: seq<bool>, k: nat): (d: seq<Entry>)
    requires k <= n && |coins| == n
    ensures |d| == k
    ensures forall i :: 0 <= i < k ==> d[i].person == i + 1 && IsPreference(d[i].pref)
    decreases k
  {
    if k == 0 then []
    else
      var before := Allocation(n, coins, k - 1);
      before + [Entry(k, NextPreference(n, k - 1, before, coins[k - 1]))]
  }

  /** Counts the values of the dictionary equal to `tag`, as the generator
      does with a sum over `values()`. */
  method CountPreference(d: seq<Entry>, tag: string) returns (c: nat)
    ensures c == CountPref(d, tag)
  {
    c := 0;
    var i := 0;
    while i < |d|
      invariant 0 <= i <= |d|
      invariant c == CountPref(d[..i], tag)
    {
      assert d[..i + 1][..i] == d[..i];
      if d[i].pref == tag {
        c := c + 1;
      }
      i := i + 1;
    }
    assert d[..i] == d;
  }

  /** Builds the preference dictionary key by key: a free draw for the first
      half of the persons, then the balancing rule for the rest. */
  method AssignPreferences(n: nat, coins: seq<bool>) returns (prefs: seq<Entry>)
    requires |coins| == n
    ensures prefs == Allocation(n, coins, n)
  {
    prefs := [];
    var i := 0;
    while i < n
      invariant 0 <= i <= n
      invariant prefs == Allocation(n, coins, i)
    {
      var personNum := i + 1;
      if i < n / 2 {
        prefs := prefs + [Entry(personNum, Choose(coins[i]))];
      } else {
        var vegan := CountPreference(prefs, VEGAN);
        var nonVeg := CountPreference(prefs, NON_VEGETARIAN);
        if vegan == 0 {
          prefs := prefs + [Entry(personNum, VEGAN)];
        } else if nonVeg == 0 {
          prefs := prefs + [Entry(personNum, NON_VEGETARIAN)];
        } else {
          prefs := prefs + [Entry(personNum, Choose(coins[i]))];
        }
      }
      i := i + 1;
    }
  }

  /** The allocated dictionary has exactly the keys 1..n, each once, and every
      value is one of the two labels. */
  lemma AllocationKeys(n: nat, coins: seq<bool>)
    requires |coins| == n
    ensures var d := Allocation(n, coins, n);
      UniqueKeys(d) && (forall p :: p in Persons(d) <==> 1 <= p <= n) &&
      forall i :: 0 <= i < n ==> IsPreference(d[i].pref)
  {
    var d := Allocation(n, coins, n);
    forall p | 1 <= p <= n
      ensures p in Persons(d)
    {
      assert d[p - 1] in d;
    }
  }

  /** With every value a tag, the two tag counts add up to the size of the dictionary. */
  lemma {:induction false} CountPrefSplit(d: seq<Entry>)
    requires forall i :: 0 <= i < |d| ==> IsPreference(d[i].pref)
    ensures CountPref(d, VEGAN) + CountPref(d, NON_VEGETARIAN) == |d|
  {
    if d != [] {
      CountPrefSplit(d[..|d| - 1]);
    }
  }

  /** A count is positive exactly when some value equals the tag. */
  lemma {:induction false} CountPrefPositive(d: seq<Entry>, tag: string)
    ensures CountPref(d, tag) > 0 <==> exists i :: 0 <= i < |d| && d[i].pref == tag
  {
    if d != [] {
      var init := d[..|d| - 1];
      CountPrefPositive(init, tag);
      if exists i :: 0 <= i < |init| && init[i].pref == tag {
        var i :| 0 <= i < |init| && init[i].pref == tag;
        assert d[i].pref == tag;
      }
    }
  }

  /** Counting over a prefix never gives more. */
  lemma {:induction false} CountPrefPrefix(d: seq<Entry>, k: nat, tag: string)
    requires k <= |d|
    ensures CountPref(d[..k], tag) <= CountPref(d, tag)
  {
    if k < |d| {
      CountPrefPrefix(d[..|d| - 1], k, tag);
      assert d[..|d| - 1][..k] == d[..k];
    } else {
      assert d[..k] == d;
    }
  }

  /** A shorter allocation is a prefix of a longer one. */
  lemma {:induction false} AllocationPrefix(n: nat, coins: seq<bool>, k: nat, m: nat)
    requires k <= m <= n && |coins| == n
    ensures Allocation(n, coins, k) == Allocation(n, coins, m)[..k]
    decreases m
  {
    if k < m {
      AllocationPrefix(n, coins, k, m - 1);
      assert Allocation(n, coins, m)[..m - 1] == Allocation(n, coins, m - 1);
    }
  }

  /** The first person of the second half is forced to the tag that the first
      half lacks, vegan first; only when both are present is the draw used. */
  lemma FirstBalancedPerson(n: nat, coins: seq<bool>)
    requires |coins| == n && n >= 1
    ensures var first := Allocation(n, coins, n / 2);
      Allocation(n, coins, n)[n / 2].pref ==
        if CountPref(first, VEGAN) == 0 then VEGAN
        else if CountPref(first, NON_VEGETARIAN) == 0 then NON_VEGETARIAN
        else Choose(coins[n / 2])
  {
    var h := n / 2;
    var upto := Allocation(n, coins, h + 1);
    AllocationPrefix(n, coins, h + 1, n);
    assert Allocation(n, coins, n)[h] == upto[h];
    assert upto[h].pref == NextPreference(n, h, Allocation(n, coins, h), coins[h]);
  }

  /** With at least two persons both labels occur among the values. */
  lemma BothPreferencesPresent(n: nat, coins: seq<bool>)
    requires |coins| == n && n >= 2
    ensures var d := Allocation(n, coins, n);
      (exists i :: 0 <= i < n && d[i].pref == VEGAN) &&
      (exists i :: 0 <= i < n && d[i].pref == NON_VEGETARIAN)
  {
    var h := n / 2;
    var first := Allocation(n, coins, h);
    var upto := Allocation(n, coins, h + 1);
    var d := Allocation(n, coins, n);
    CountPrefSplit(first);
    assert upto[..h] == first;
    assert CountPref(upto, VEGAN) >= 1 && CountPref(upto, NON_VEGETARIAN) >= 1;
    AllocationPrefix(n, coins, h + 1, n);
    CountPrefPrefix(d, h + 1, VEGAN);
    CountPrefPrefix(d, h + 1, NON_VEGETARIAN);
    CountPrefPositive(d, VEGAN);
    CountPrefPositive(d, NON_VEGETARIAN);
  }

  /** A single person is always vegan, whatever the draw: the first half is
      empty and the vegan test comes first. */
  lemma SinglePersonIsVegan(coins: seq<bool>)
    requires |coins| == 1
    ensures Allocation(1, coins, 1) == [Entry(1, VEGAN)]
  {
  }

  /** `get(person, 'unknown')`: the value stored for `person`, or the default. */
  function PersonPreference(person: int, d: seq<Entry>): (p: string)
    ensures person in Persons(d) ==> exists i :: 0 <= i < |d| && d[i].person == person && d[i].pref == p
    ensures person !in Persons(d) ==> p == UNKNOWN
  {
    if d == [] then UNKNOWN
    else if d[0].person == person then d[0].pref
    else PersonPreference(person, d[1..])
  }

  /** On an allocated dictionary the lookup returns the tag of persons 1..n
      and the default for every other number. */
  lemma PersonPreferenceOfAllocation(n: nat, coins: seq<bool>, person: int)
    requires |coins| == n
    ensures var d := Allocation(n, coins, n);
      PersonPreference(person, d) == if 1 <= person <= n then d[person - 1].pref else UNKNOWN
  {
    AllocationKeys(n, coins);
  }

  /** The persons whose value is `tag`, in dictionary order. */
  function PeopleWith(d: seq<Entry>, tag: string): (r: seq<int>)
    ensures |r| == CountPref(d, tag)
    ensures forall x :: x in r <==> exists i :: 0 <= i < |d| && d[i].pref == tag && d[i].person == x
  {
    if d == [] then []
    else
      var last := d[|d| - 1];
      PeopleWith(d[..|d| - 1], tag) + (if last.pref == tag then [last.person] else [])
  }

  /** The people list keeps dictionary order: it distributes over concatenation. */
  lemma {:induction false} PeopleWithConcat(a: seq<Entry>, b: seq<Entry>, tag: string)
    ensures PeopleWith(a + b, tag) == PeopleWith(a, tag) + PeopleWith(b, tag)
    decreases |b|
  {
    if b == [] {
      assert a + b == a;
    } else {
      var b', last := b[..|b| - 1], b[|b| - 1];
      var tail := if last.pref == tag then [last.person] else [];
      PeopleWithConcat(a, b', tag);
      assert (a + b)[..|a + b| - 1] == a + b' && (a + b)[|a + b| - 1] == last;
      assert PeopleWith(a + b, tag) == PeopleWith(a + b', tag) + tail;
      assert PeopleWith(b, tag) == PeopleWith(b', tag) + tail;
    }
  }
}
