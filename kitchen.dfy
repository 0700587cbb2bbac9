/** The kitchen of the house grid and the scan for cells a dish may be put on. */
module Kitchen {

  /** The key of the kitchen in the room dictionary. */
  const KITCHEN_ROOM: char := 'K'
  /** The grid label of open kitchen floor. */
  const KITCHEN_FLOOR: char := 'K'
  /** Wall, door, counter and fridge: the labels the scan also rules out. */
  const BLOCKED: seq<char> := ['W', 'd', 'k', 'F']

  /** A grid coordinate (row, col). */
  type Cell = (int, int)

  /** A slice used as `range(start, stop)`: the integers start <= x < stop. */
  datatype Slice = Slice(start: int, stop: int)

  /** A room: a slice of rows and a slice of columns. */
  datatype Region = Region(rows: Slice, cols: Slice)

  predicate InSlice(x: int, s: Slice) {
    s.start <= x < s.stop
  }

  /** Every index of the slice's range lies in [0, bound). */
  predicate SliceWithin(s: Slice, bound: int) {
    s.stop <= s.start || (0 <= s.start && s.stop <= bound)
  }

  predicate RegionWithin(r: Region, g: array2<char>) {
    SliceWithin(r.rows, g.Length0) && SliceWithin(r.cols, g.Length1)
  }

  /** A dish may go on `p`: inside the kitchen, not occupied, and open floor. */
  predicate Eligible(g: array2<char>, kitchen: Region, occupied: set<Cell>, p: Cell)
    reads g
  {
    && InSlice(p.0, kitchen.rows) && InSlice(p.1, kitchen.cols)
    && p !in occupied
    && 0 <= p.0 < g.Length0 && 0 <= p.1 < g.Length1
    && g[p.0, p.1] == KITCHEN_FLOOR
  }

  /** `p` comes before `q` in row-major order. */
  predicate Before(p: Cell, q: Cell) {
    p.0 < q.0 || (p.0 == q.0 && p.1 < q.1)
  }

  predicate RowMajor(cells: seq<Cell>) {
    forall i, j :: 0 <= i < j < |cells| ==> Before(cells[i], cells[j])
  }

  predicate Distinct<T(==)>(s: seq<T>) {
    forall i, j :: 0 <= i < j < |s| ==> s[i] != s[j]
  }

  /** Walks the kitchen row by row and keeps the free floor cells, in scan order. */
  method EligibleCells(g: array2<char>, kitchen: Region, occupied: set<Cell>) returns (cells: seq<Cell>)
    requires RegionWithin(kitchen, g)
    ensures forall p :: p in cells <==> Eligible(g, kitchen, occupied, p)
    ensures RowMajor(cells) && Distinct(cells)
  {
    cells := [];
    var row := kitchen.rows.start;
    while row < kitchen.rows.stop
      invariant kitchen.rows.start <= row
      invariant forall p :: p in cells <==> Eligible(g, kitchen, occupied, p) && p.0 < row
      invariant RowMajor(cells)
    {
      var col := kitchen.cols.start;
      while col < kitchen.cols.stop
        invariant kitchen.cols.start <= col
        invariant forall p :: p in cells <==> Eligible(g, kitchen, occupied, p) && Before(p, (row, col))
        invariant RowMajor(cells)
      {
        if (row, col) !in occupied && g[row, col] !in BLOCKED && g[row, col] == KITCHEN_FLOOR {
          cells := cells + [(row, col)];
        }
        col := col + 1;
      }
      row := row + 1;
    }
  }

  /** The redundant test of the scan changes nothing: open floor is never one of
      the blocked labels, so the scan keeps exactly the eligible cells. */
  lemma BlockedIsNotFloor(c: char)
    ensures c == KITCHEN_FLOOR ==> c !in BLOCKED
  {
  }

  /** The head of a row-major list comes before every other member. */
  lemma RowMajorFirst(a: seq<Cell>, q: Cell)
    requires RowMajor(a) && q in a
    ensures q == a[0] || Before(a[0], q)
  {
  }

  /** Two row-major lists with the same members are the same list: the scan's
      result is determined by its two postconditions. */
  lemma {:induction false} RowMajorUnique(a: seq<Cell>, b: seq<Cell>)
    requires RowMajor(a) && RowMajor(b)
    requires forall p :: p in a <==> p in b
    ensures a == b
  {
    if a != [] {
      assert a[0] in b;
    }
    if b != [] {
      assert b[0] in a;
    }
    if a != [] && b != [] {
      RowMajorFirst(a, b[0]);
      RowMajorFirst(b, a[0]);
      forall p
        ensures p in a[1..] <==> p in b[1..]
      {
        if p in a[1..] {
          var k :| 1 <= k < |a| && a[k] == p;
          assert Before(a[0], a[k]);
          assert a[k] in a;
          var m :| 0 <= m < |b| && b[m] == p;
          assert m != 0;
          assert b[1..][m - 1] == p;
        }
        if p in b[1..] {
          var k :| 1 <= k < |b| && b[k] == p;
          assert Before(b[0], b[k]);
          assert b[k] in b;
          var m :| 0 <= m < |a| && a[m] == p;
          assert m != 0;
          assert a[1..][m - 1] == p;
        }
      }
      RowMajorUnique(a[1..], b[1..]);
      assert a == [a[0]] + a[1..];
      assert b == [b[0]] + b[1..];
    }
  }

  /** `grid.copy()`: a new grid with the same contents. */
  method CopyGrid(g: array2<char>) returns (copy: array2<char>)
    ensures fresh(copy)
    ensures copy.Length0 == g.Length0 && copy.Length1 == g.Length1
    ensures forall r, c :: 0 <= r < g.Length0 && 0 <= c < g.Length1 ==> copy[r, c] == g[r, c]
  {
    copy := new char[g.Length0, g.Length1]((r, c) requires 0 <= r < g.Length0 && 0 <= c < g.Length1 reads g => g[r, c]);
  }
}
