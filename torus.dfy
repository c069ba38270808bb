/** The toroidal lattice shared by every variant of the simulation: cells,
    wrap-around, and the Euclidean-disk neighbourhoods that the grid-backed
    engine precomputes once per cell. */
module Torus {

  datatype Cell = Cell(x: int, y: int)

  /** A displacement (dx, dy) from a cell. */
  datatype Offset = Offset(dx: int, dy: int)

  /** The grid dimensions and the one vision radius all entities share. */
  datatype Space = Space(width: int, height: int, vision: int) {

    predicate Valid() { 0 < width && 0 < height && 0 <= vision }

    predicate InBounds(c: Cell) { 0 <= c.x < width && 0 <= c.y < height }

    /** `((x + dx) % width, (y + dy) % height)`: Python's `%` with a positive
        right operand is never negative, exactly like Dafny's. */
    function Wrap(x: int, y: int): (c: Cell)
      requires Valid()
      ensures InBounds(c)
    {
      Cell(x % width, y % height)
    }

    /** The offsets the disk keeps: both components in `range(-vision, vision + 1)`
        and `dx ** 2 + dy ** 2 <= vision ** 2`. */
    predicate InDisk(o: Offset) {
      -vision <= o.dx <= vision && -vision <= o.dy <= vision
      && Square(o.dx) + Square(o.dy) <= Square(vision)
    }

    /** The offsets appended for one `dx` while `dy` runs over [-vision, -vision + n). */
    function Column(dx: int, n: nat): seq<Offset>
    {
      if n == 0 then []
      else if InDisk(Offset(dx, -vision + n - 1)) then Column(dx, n - 1) + [Offset(dx, -vision + n - 1)]
      else Column(dx, n - 1)
    }

    /** The offsets appended while `dx` runs over [-vision, -vision + m). */
    function Disk(m: nat): seq<Offset>
      requires 0 <= vision
    {
      if m == 0 then [] else Disk(m - 1) + Column(-vision + m - 1, 2 * vision + 1)
    }

    /** All offsets of the disk, in the order the nested loops visit them. */
    function DiskOffsets(): seq<Offset>
      requires 0 <= vision
    {
      Disk(2 * vision + 1)
    }

    /** The cells reached from `c` by each offset, wrapped. */
    function Shift(c: Cell, offsets: seq<Offset>): seq<Cell>
      requires Valid()
    {
      seq(|offsets|, i requires 0 <= i < |offsets| => Wrap(c.x + offsets[i].dx, c.y + offsets[i].dy))
    }

    /** The neighbourhood list stored for cell `c`. */
    function Neighborhood(c: Cell): seq<Cell>
      requires Valid()
    {
      Shift(c, DiskOffsets())
    }

    /** The cells of the first `n` columns, column by column. */
    function Columns(n: nat): seq<Cell>
      requires Valid() && n <= width
    {
      if n == 0 then []
      else Columns(n - 1) + seq(height, y requires 0 <= y < height => Cell(n - 1, y))
    }

    /** The cells of the grid in the order of `[(x, y) for x in range(width) for y in range(height)]`. */
    function AllCells(): seq<Cell>
      requires Valid()
    {
      Columns(width)
    }
  }

  /** `n ** 2`, by repeated addition: (n - 1) ** 2 + 2n - 1 for positive `n`. */
  function Square(n: int): nat
    decreases if n < 0 then 1 - n else n
  {
    if n == 0 then 0 else if n < 0 then Square(-n) else Square(n - 1) + 2 * n - 1
  }

  /** The recursive square is the product of `n` with itself. */
  lemma {:induction false} SquareIsProduct(n: int)
    ensures Square(n) == n * n
    decreases if n < 0 then 1 - n else n
  {
    if n < 0 {
      SquareIsProduct(-n);
      assert (-n) * (-n) == n * n;
    } else if n > 0 {
      SquareIsProduct(n - 1);
      assert (n - 1) * (n - 1) == n * n - 2 * n + 1;
    }
  }

  predicate Distinct<T(==)>(s: seq<T>)
  {
    forall i, j :: 0 <= i < j < |s| ==> s[i] != s[j]
  }

  // ---------------------------------------------------------------------
  // Integer facts about Euclidean division used by the wrap-around proofs

  lemma MultipleInOpenRange(k: int, n: int)
    requires 0 < n && -n < k * n < n
    ensures k == 0
  {
  }

  /** Quotient and remainder are unique. */
  lemma DivModUnique(m: int, n: int, q: int, r: int)
    requires 0 <= r < n && m == q * n + r
    ensures m / n == q && m % n == r
  {
    var q', r' := m / n, m % n;
    assert (q - q') * n == r' - r;
    MultipleInOpenRange(q - q', n);
  }

  /** Stepping back by `d` after stepping forward by `d` returns to `a`. */
  lemma WrapBack(a: int, d: int, n: int)
    requires 0 <= a < n
    ensures ((a + d) % n - d) % n == a
  {
    var q, r := (a + d) / n, (a + d) % n;
    DivModUnique(r - d, n, -q, a);
  }

  lemma WrapInRange(a: int, n: int)
    requires 0 <= a < n
    ensures a % n == a
  {
    DivModUnique(a, n, 0, a);
  }

  // ---------------------------------------------------------------------
  // The disk offsets

  lemma {:induction false} ColumnMembers(s: Space, dx: int, n: nat, o: Offset)
    ensures o in s.Column(dx, n) <==> o.dx == dx && o.dy < -s.vision + n && s.InDisk(o)
  {
    if n > 0 {
      ColumnMembers(s, dx, n - 1, o);
    }
  }

  lemma {:induction false} DiskMembers(s: Space, m: nat, o: Offset)
    requires 0 <= s.vision
    ensures o in s.Disk(m) <==> o.dx < -s.vision + m && s.InDisk(o)
  {
    if m > 0 {
      var dx := -s.vision + m - 1;
      DiskMembers(s, m - 1, o);
      ColumnMembers(s, dx, 2 * s.vision + 1, o);
      InConcat(s.Disk(m - 1), s.Column(dx, 2 * s.vision + 1), o, s.Disk(m));
      if s.InDisk(o) {
        assert o.dy <= s.vision;
      }
    }
  }

  /** Membership in a concatenation, stated for a named whole. */
  lemma InConcat<T>(a: seq<T>, b: seq<T>, x: T, ab: seq<T>)
    requires ab == a + b
    ensures x in ab <==> x in a || x in b
  {
  }

  /** The precomputed offsets are exactly the lattice points of the closed
      disk of radius `vision`. */
  lemma DiskOffsetsExact(s: Space, o: Offset)
    requires 0 <= s.vision
    ensures o in s.DiskOffsets() <==> s.InDisk(o)
  {
    DiskMembers(s, 2 * s.vision + 1, o);
    if s.InDisk(o) {
      assert o.dx < -s.vision + (2 * s.vision + 1);
    }
  }

  lemma DistinctConcat<T>(a: seq<T>, b: seq<T>)
    requires Distinct(a) && Distinct(b)
    requires forall i, j :: 0 <= i < |a| && 0 <= j < |b| ==> a[i] != b[j]
    ensures Distinct(a + b)
  {
    var ab := a + b;
    forall i, j | 0 <= i < j < |ab| ensures ab[i] != ab[j] {
      if j < |a| {
        assert ab[i] == a[i] && ab[j] == a[j];
      } else if i < |a| {
        assert ab[i] == a[i] && ab[j] == b[j - |a|];
      } else {
        assert ab[i] == b[i - |a|] && ab[j] == b[j - |a|];
      }
    }
  }

  lemma {:induction false} ColumnDistinct(s: Space, dx: int, n: nat)
    requires 0 <= s.vision
    ensures Distinct(s.Column(dx, n))
  {
    if n > 0 {
      ColumnDistinct(s, dx, n - 1);
      var prefix := s.Column(dx, n - 1);
      forall i | 0 <= i < |prefix|
        ensures prefix[i].dy < -s.vision + n - 1
      {
        ColumnMembers(s, dx, n - 1, prefix[i]);
      }
    }
  }

  lemma {:induction false} DiskDistinct(s: Space, m: nat)
    requires 0 <= s.vision
    ensures Distinct(s.Disk(m))
  {
    if m > 0 {
      DiskDistinct(s, m - 1);
      var dx := -s.vision + m - 1;
      var prefix, column := s.Disk(m - 1), s.Column(dx, 2 * s.vision + 1);
      ColumnDistinct(s, dx, 2 * s.vision + 1);
      forall i | 0 <= i < |prefix| ensures prefix[i].dx < dx {
        DiskMembers(s, m - 1, prefix[i]);
      }
      forall j | 0 <= j < |column| ensures column[j].dx == dx {
        ColumnMembers(s, dx, 2 * s.vision + 1, column[j]);
      }
      DistinctConcat(prefix, column);
    }
  }

  /** Every neighbourhood holds one entry per offset (dx, dy) of the disk:
      the offset list has no repeats and contains each such offset. */
  lemma OneEntryPerOffset(s: Space, c: Cell)
    requires s.Valid()
    ensures Distinct(s.DiskOffsets())
    ensures |s.Neighborhood(c)| == |s.DiskOffsets()|
    ensures forall o :: o in s.DiskOffsets() <==> s.InDisk(o)
  {
    DiskDistinct(s, 2 * s.vision + 1);
    forall o ensures o in s.DiskOffsets() <==> s.InDisk(o) {
      DiskOffsetsExact(s, o);
    }
  }

  // ---------------------------------------------------------------------
  // Neighbourhoods

  lemma ShiftSnoc(s: Space, c: Cell, a: seq<Offset>, o: Offset)
    requires s.Valid()
    ensures s.Shift(c, a + [o]) == s.Shift(c, a) + [s.Wrap(c.x + o.dx, c.y + o.dy)]
  {
    ShiftAppend(s, c, a, [o]);
    assert s.Shift(c, [o]) == [s.Wrap(c.x + o.dx, c.y + o.dy)];
  }

  lemma ShiftAppend(s: Space, c: Cell, a: seq<Offset>, b: seq<Offset>)
    requires s.Valid()
    ensures s.Shift(c, a + b) == s.Shift(c, a) + s.Shift(c, b)
  {
    var l, r := s.Shift(c, a + b), s.Shift(c, a) + s.Shift(c, b);
    assert |l| == |r|;
    forall i | 0 <= i < |l| ensures l[i] == r[i] {
      if i < |a| {
        assert (a + b)[i] == a[i];
      } else {
        assert (a + b)[i] == b[i - |a|];
      }
    }
  }

  /** Every offset of the disk, wrapped, leads from `c` to a cell of its
      neighbourhood. */
  lemma ReachedByOffset(s: Space, c: Cell, o: Offset)
    requires s.Valid() && s.InDisk(o)
    ensures s.Wrap(c.x + o.dx, c.y + o.dy) in s.Neighborhood(c)
  {
    var offsets := s.DiskOffsets();
    DiskOffsetsExact(s, o);
    var i :| 0 <= i < |offsets| && offsets[i] == o;
    assert s.Neighborhood(c)[i] == s.Wrap(c.x + o.dx, c.y + o.dy);
  }

  /** Every cell of the neighbourhood of `c` is reached by some offset of the disk. */
  lemma OffsetOf(s: Space, c: Cell, d: Cell) returns (o: Offset)
    requires s.Valid() && d in s.Neighborhood(c)
    ensures s.InDisk(o) && d == s.Wrap(c.x + o.dx, c.y + o.dy)
  {
    var offsets := s.DiskOffsets();
    var i :| 0 <= i < |offsets| && s.Neighborhood(c)[i] == d;
    o := offsets[i];
    DiskOffsetsExact(s, o);
  }

  /** A cell is in the neighbourhood of `c` exactly when some offset of the
      disk, wrapped, leads there from `c`. */
  lemma NeighborhoodMembers(s: Space, c: Cell, d: Cell)
    requires s.Valid()
    ensures d in s.Neighborhood(c) <==>
            exists o :: s.InDisk(o) && d == s.Wrap(c.x + o.dx, c.y + o.dy)
  {
    if d in s.Neighborhood(c) {
      var o := OffsetOf(s, c, d);
    }
    if exists o :: s.InDisk(o) && d == s.Wrap(c.x + o.dx, c.y + o.dy) {
      var o :| s.InDisk(o) && d == s.Wrap(c.x + o.dx, c.y + o.dy);
      ReachedByOffset(s, c, o);
    }
  }

  /** Every neighbourhood lies in the grid and contains its own cell (dx = dy = 0). */
  lemma NeighborhoodWellFormed(s: Space, c: Cell)
    requires s.Valid() && s.InBounds(c)
    ensures forall d :: d in s.Neighborhood(c) ==> s.InBounds(d)
    ensures c in s.Neighborhood(c)
  {
    forall d | d in s.Neighborhood(c)
      ensures s.InBounds(d)
    {
      var o := OffsetOf(s, c, d);
    }
    WrapInRange(c.x, s.width);
    WrapInRange(c.y, s.height);
    ReachedByOffset(s, c, Offset(0, 0));
  }

  /** Neighbourhood membership is symmetric: the disk is symmetric about the
      origin and wrapping back undoes wrapping forward. */
  lemma NeighborhoodSymmetric(s: Space, c: Cell, d: Cell)
    requires s.Valid() && s.InBounds(c) && s.InBounds(d)
    ensures d in s.Neighborhood(c) <==> c in s.Neighborhood(d)
  {
    if d in s.Neighborhood(c) {
      NeighborOneWay(s, c, d);
    }
    if c in s.Neighborhood(d) {
      NeighborOneWay(s, d, c);
    }
  }

  lemma NeighborOneWay(s: Space, c: Cell, d: Cell)
    requires s.Valid() && s.InBounds(c) && s.InBounds(d)
    requires d in s.Neighborhood(c)
    ensures c in s.Neighborhood(d)
  {
    var o := OffsetOf(s, c, d);
    var back := Offset(-o.dx, -o.dy);
    DiskSymmetric(s, o);
    WrapUndone(s, c, o);
    ReachedByOffset(s, d, back);
  }

  /** Wrapping back by an offset undoes wrapping forward by it. */
  lemma WrapUndone(s: Space, c: Cell, o: Offset)
    requires s.Valid() && s.InBounds(c)
    ensures var d := s.Wrap(c.x + o.dx, c.y + o.dy);
            s.Wrap(d.x + -o.dx, d.y + -o.dy) == c
  {
    WrapBack(c.x, o.dx, s.width);
    WrapBack(c.y, o.dy, s.height);
  }

  lemma DiskSymmetric(s: Space, o: Offset)
    requires s.InDisk(o)
    ensures s.InDisk(Offset(-o.dx, -o.dy))
  {
    assert Square(-o.dx) == Square(o.dx) && Square(-o.dy) == Square(o.dy);
  }

  /** Wrap-around at the corner: on a grid at least 2 wide and 2 high, the
      opposite corner (width - 1, height - 1) is in the neighbourhood of
      (0, 0) exactly when vision >= 2, since reaching it takes dx = dy = -1
      (or another offset with both components non-zero) and so needs
      2 <= vision ** 2. */
  lemma CornerWraps(s: Space)
    requires 2 <= s.width && 2 <= s.height && 0 <= s.vision
    ensures Cell(s.width - 1, s.height - 1) in s.Neighborhood(Cell(0, 0)) <==> 2 <= s.vision
  {
    var corner := Cell(s.width - 1, s.height - 1);
    if 2 <= s.vision {
      CornerReachable(s);
      ReachedByOffset(s, Cell(0, 0), Offset(-1, -1));
    }
    if corner in s.Neighborhood(Cell(0, 0)) {
      var o := OffsetOf(s, Cell(0, 0), corner);
      CornerNeedsTwo(s, o);
    }
  }

  lemma CornerReachable(s: Space)
    requires 2 <= s.width && 2 <= s.height && 2 <= s.vision
    ensures s.InDisk(Offset(-1, -1)) && Cell(s.width - 1, s.height - 1) == s.Wrap(-1, -1)
  {
    assert Square(-1) == 1;
    SquareIsProduct(s.vision);
    assert s.vision * s.vision >= 4 by {
      assert (s.vision - 2) * s.vision >= 0;
    }
    DivModUnique(-1, s.width, -1, s.width - 1);
    DivModUnique(-1, s.height, -1, s.height - 1);
  }

  lemma CornerNeedsTwo(s: Space, o: Offset)
    requires 2 <= s.width && 2 <= s.height && 0 <= s.vision
    requires s.InDisk(o) && Cell(s.width - 1, s.height - 1) == s.Wrap(o.dx, o.dy)
    ensures 2 <= s.vision
  {
    WrapInRange(0, s.width);
    WrapInRange(0, s.height);
    assert o.dx != 0 && o.dy != 0;
    SquareIsProduct(o.dx);
    SquareIsProduct(o.dy);
    SquareIsProduct(s.vision);
    assert o.dx * o.dx >= 1 && o.dy * o.dy >= 1;
    assert 2 <= s.vision * s.vision;
  }

  // ---------------------------------------------------------------------
  // Whole-grid facts used by placement

  lemma CellOfIndex(s: Space, i: int)
    requires s.Valid() && 0 <= i < s.width * s.height
    ensures s.InBounds(Cell(i / s.height, i % s.height))
  {
    var q := i / s.height;
    assert q * s.height <= i;
  }

  lemma {:induction false} ColumnsExact(s: Space, n: nat)
    requires s.Valid() && n <= s.width
    ensures |s.Columns(n)| == n * s.height
    ensures Distinct(s.Columns(n))
    ensures forall c :: c in s.Columns(n) <==> 0 <= c.x < n && 0 <= c.y < s.height
  {
    if n > 0 {
      ColumnsExact(s, n - 1);
      var front := s.Columns(n - 1);
      var column := seq(s.height, y requires 0 <= y < s.height => Cell(n - 1, y));
      assert s.Columns(n) == front + column;
      forall c
        ensures c in column <==> c.x == n - 1 && 0 <= c.y < s.height
      {
        if c.x == n - 1 && 0 <= c.y < s.height {
          assert column[c.y] == c;
        }
      }
      forall i, j | 0 <= i < |front| && 0 <= j < |column|
        ensures front[i] != column[j]
      {
        assert front[i] in front;
      }
      DistinctConcat(front, column);
      assert (n - 1) * s.height + s.height == n * s.height;
    }
  }

  /** The list of all cells holds every cell of the grid once, and nothing else. */
  lemma AllCellsExact(s: Space)
    requires s.Valid()
    ensures |s.AllCells()| == s.width * s.height
    ensures Distinct(s.AllCells())
    ensures forall c :: c in s.AllCells() <==> s.InBounds(c)
  {
    ColumnsExact(s, s.width);
  }

  lemma {:induction false} MissingValue(s: seq<int>, n: nat)
    requires |s| < n
    ensures exists k :: 0 <= k < n && k !in s
  {
    if n - 1 !in s {
      var k := n - 1;
      assert 0 <= k < n && k !in s;
    } else {
      var i :| 0 <= i < |s| && s[i] == n - 1;
      var rest := s[..i] + s[i + 1..];
      MissingValue(rest, n - 1);
      var k :| 0 <= k < n - 1 && k !in rest;
      forall j | 0 <= j < |s| ensures s[j] != k {
        if j < i {
          assert rest[j] == s[j];
        } else if j > i {
          assert rest[j - 1] == s[j];
        }
      }
      assert 0 <= k < n && k !in s;
    }
  }

  /** While fewer entities than cells have been placed, the grid has a free
      cell, so the placement retry loop has something to find. */
  lemma FreeCellExists(s: Space, placed: seq<Cell>)
    requires s.Valid() && |placed| < s.width * s.height
    ensures exists c :: s.InBounds(c) && c !in placed
  {
    var indices := seq(|placed|, i requires 0 <= i < |placed| => placed[i].x * s.height + placed[i].y);
    MissingValue(indices, s.width * s.height);
    var k :| 0 <= k < s.width * s.height && k !in indices;
    var c := Cell(k / s.height, k % s.height);
    CellOfIndex(s, k);
    assert k == (k / s.height) * s.height + k % s.height;
    forall i | 0 <= i < |placed| ensures placed[i] != c {
      assert indices[i] == placed[i].x * s.height + placed[i].y;
    }
  }

  // ---------------------------------------------------------------------
  // The precompute loops

  /** The inner loops of `compute_neighborhoods` for one cell. */
  method CollectNeighborhood(s: Space, c: Cell) returns (nb: seq<Cell>)
    requires s.Valid()
    ensures nb == s.Neighborhood(c)
  {
    nb := [];
    var v: int := s.vision;
    for dx := -v to v + 1
      invariant nb == s.Shift(c, s.Disk(dx + v))
    {
      var cells := CollectColumn(s, c, dx);
      ShiftAppend(s, c, s.Disk(dx + v), s.Column(dx, 2 * v + 1));
      nb := nb + cells;
      assert s.Disk(dx + v + 1) == s.Disk(dx + v) + s.Column(dx, 2 * v + 1);
    }
  }

  /** The innermost loop of `compute_neighborhoods`: `dy` runs over
      [-vision, vision] for one `dx`. */
  method CollectColumn(s: Space, c: Cell, dx: int) returns (cells: seq<Cell>)
    requires s.Valid() && -s.vision <= dx <= s.vision
    ensures cells == s.Shift(c, s.Column(dx, 2 * s.vision + 1))
  {
    cells := [];
    var v: int := s.vision;
    for dy := -v to v + 1
      invariant cells == s.Shift(c, s.Column(dx, dy + v))
    {
      var o := Offset(dx, dy);
      if Square(dx) + Square(dy) <= Square(v) {
        assert s.Column(dx, dy + v + 1) == s.Column(dx, dy + v) + [o];
        ShiftSnoc(s, c, s.Column(dx, dy + v), o);
        cells := cells + [s.Wrap(c.x + dx, c.y + dy)];
      } else {
        assert s.Column(dx, dy + v + 1) == s.Column(dx, dy + v);
      }
    }
  }

  /** `compute_neighborhoods`: the table of neighbourhood lists, one per cell. */
  method ComputeNeighborhoods(s: Space) returns (table: array2<seq<Cell>>)
    requires s.Valid()
    ensures fresh(table) && table.Length0 == s.width && table.Length1 == s.height
    ensures forall x, y :: 0 <= x < s.width && 0 <= y < s.height ==> table[x, y] == s.Neighborhood(Cell(x, y))
  {
    table := new seq<Cell>[s.width, s.height];
    for x := 0 to s.width
      invariant forall x', y' :: 0 <= x' < x && 0 <= y' < s.height ==> table[x', y'] == s.Neighborhood(Cell(x', y'))
    {
      for y := 0 to s.height
        invariant forall x', y' :: 0 <= x' < x && 0 <= y' < s.height ==> table[x', y'] == s.Neighborhood(Cell(x', y'))
        invariant forall y' :: 0 <= y' < y ==> table[x, y'] == s.Neighborhood(Cell(x, y'))
      {
        table[x, y] := CollectNeighborhood(s, Cell(x, y));
      }
    }
  }
}
