/**
  The grid-to-cell construction of `Meshs.set_gdf` (pkg/model.py), as pure
  sequence functions: sort row-major by (I, J), attach the three forward
  corners by fixed row shifts, drop the last I row and the last J column,
  and turn every remaining point into one four-vertex ring.
*/
module Grid {
  import opened Common

  /** One row of the input table: columns I, J, X, Y and the mesh value. */
  datatype Point = Point(i: int, j: int, x: real, y: real, v: real)

  /** An (X, Y) vertex. */
  datatype Coord = Coord(x: real, y: real)

  /**
    The table after the three shifts: the point itself and the coordinates
    found 1, cnt_j + 1 and cnt_j rows further down (columns Xpt2/Ypt2,
    Xpt3/Ypt3, Xpt4/Ypt4). None stands for the NaN a shift leaves past the
    end of the table.
  */
  datatype Row = Row(p: Point, pt2: Option<Coord>, pt3: Option<Coord>, pt4: Option<Coord>)

  /** One output row: the owning point's I, J and value and its polygon ring. */
  datatype Cell = Cell(i: int, j: int, v: real, ring: seq<Option<Coord>>)

  function XY(p: Point): Coord { Coord(p.x, p.y) }

  // ---------------------------------------------------------------------
  // Sorting by (I, J)

  /** Row-major order on the (I, J) key. */
  predicate KeyLe(a: Point, b: Point) {
    a.i < b.i || (a.i == b.i && a.j <= b.j)
  }

  predicate SortedByIJ(s: seq<Point>) {
    forall k, l :: 0 <= k < l < |s| ==> KeyLe(s[k], s[l])
  }

  /** Inserts p before the first element whose key is not below p's. */
  function Insert(p: Point, s: seq<Point>): seq<Point>
    decreases |s|
  {
    if s == [] then [p]
    else if KeyLe(p, s[0]) then [p] + s
    else [s[0]] + Insert(p, s[1..])
  }

  lemma {:induction false} InsertCount(p: Point, s: seq<Point>)
    ensures |Insert(p, s)| == |s| + 1
    ensures multiset(Insert(p, s)) == multiset(s) + multiset{p}
    decreases |s|
  {
    if s != [] && !KeyLe(p, s[0]) {
      assert s == [s[0]] + s[1..];
      InsertCount(p, s[1..]);
    }
  }

  /** A lower bound of p and of every element of s bounds every element of Insert(p, s). */
  lemma {:induction false} InsertLowerBound(x: Point, p: Point, s: seq<Point>)
    requires KeyLe(x, p)
    requires forall k :: 0 <= k < |s| ==> KeyLe(x, s[k])
    ensures forall l :: 0 <= l < |Insert(p, s)| ==> KeyLe(x, Insert(p, s)[l])
    decreases |s|
  {
    if s != [] && !KeyLe(p, s[0]) {
      InsertLowerBound(x, p, s[1..]);
      var r := Insert(p, s);
      forall l | 0 <= l < |r| ensures KeyLe(x, r[l]) {
        if l > 0 { assert r[l] == Insert(p, s[1..])[l - 1]; }
      }
    }
  }

  lemma {:induction false} InsertSorted(p: Point, s: seq<Point>)
    requires SortedByIJ(s)
    ensures SortedByIJ(Insert(p, s))
    decreases |s|
  {
    if s == [] {
    } else if KeyLe(p, s[0]) {
    } else {
      var rest := Insert(p, s[1..]);
      assert s == [s[0]] + s[1..];
      InsertSorted(p, s[1..]);
      InsertCount(p, s[1..]);
      InsertLowerBound(s[0], p, s[1..]);
      var r := [s[0]] + rest;
      forall k, l | 0 <= k < l < |r| ensures KeyLe(r[k], r[l]) {
        if k == 0 {
          assert r[l] == rest[l - 1];
        } else {
          assert r[k] == rest[k - 1] && r[l] == rest[l - 1];
        }
      }
    }
  }

  /** `df.sort_values([I, J])`: the table's rows, rearranged (sorted: see SortByIJSorted). */
  function SortByIJ(s: seq<Point>): (r: seq<Point>)
    ensures |r| == |s|
    ensures multiset(r) == multiset(s)
    decreases |s|
  {
    if s == [] then []
    else
      assert s == [s[0]] + s[1..];
      InsertCount(s[0], SortByIJ(s[1..]));
      Insert(s[0], SortByIJ(s[1..]))
  }

  /** The rearranged table is in ascending (I, J) order. */
  lemma {:induction false} SortByIJSorted(s: seq<Point>)
    ensures SortedByIJ(SortByIJ(s))
    decreases |s|
  {
    if s != [] {
      SortByIJSorted(s[1..]);
      InsertSorted(s[0], SortByIJ(s[1..]));
    }
  }

  // ---------------------------------------------------------------------
  // Column statistics, computed on the unsorted table

  /** The distinct values of column J (`nunique` counts them). */
  function DistinctJ(s: seq<Point>): set<int> {
    set p | p in s :: p.j
  }

  function CountDistinctJ(s: seq<Point>): nat {
    |DistinctJ(s)|
  }

  /** Largest value of column I. */
  function MaxI(s: seq<Point>): (m: int)
    requires |s| > 0
    ensures exists k :: 0 <= k < |s| && s[k].i == m
    ensures forall k :: 0 <= k < |s| ==> s[k].i <= m
  {
    if |s| == 1 then s[0].i
    else
      var rest := MaxI(s[1..]);
      assert forall k :: 1 <= k < |s| ==> s[k] == s[1..][k - 1];
      if s[0].i >= rest then s[0].i else rest
  }

  /** Largest value of column J. */
  function MaxJ(s: seq<Point>): (m: int)
    requires |s| > 0
    ensures exists k :: 0 <= k < |s| && s[k].j == m
    ensures forall k :: 0 <= k < |s| ==> s[k].j <= m
  {
    if |s| == 1 then s[0].j
    else
      var rest := MaxJ(s[1..]);
      assert forall k :: 1 <= k < |s| ==> s[k] == s[1..][k - 1];
      if s[0].j >= rest then s[0].j else rest
  }

  // ---------------------------------------------------------------------
  // Shifts, boundary filter and rings

  /** pandas `shift(-n)` on a column: row k takes row k + n's value, NaN past the end. */
  function ShiftUp<T>(col: seq<T>, n: nat): (r: seq<Option<T>>)
    ensures |r| == |col|
    ensures forall k :: 0 <= k < |col| ==> r[k] == if k + n < |col| then Some(col[k + n]) else None
  {
    seq(|col|, k requires 0 <= k < |col| => if k + n < |col| then Some(col[k + n]) else None)
  }

  function Coords(s: seq<Point>): (c: seq<Coord>)
    ensures |c| == |s| && forall k :: 0 <= k < |s| ==> c[k] == XY(s[k])
  {
    seq(|s|, k requires 0 <= k < |s| => XY(s[k]))
  }

  /** The sorted table with its three shifted coordinate pairs (pkg/model.py:131-133). */
  function WithCorners(s: seq<Point>, cntJ: nat): (rows: seq<Row>)
    ensures |rows| == |s|
    ensures forall k :: 0 <= k < |s| ==> rows[k].p == s[k]
    ensures forall k :: 0 <= k < |s| ==> rows[k].pt2 == if k + 1 < |s| then Some(XY(s[k + 1])) else None
    ensures forall k :: 0 <= k < |s| ==> rows[k].pt3 == if k + cntJ + 1 < |s| then Some(XY(s[k + cntJ + 1])) else None
    ensures forall k :: 0 <= k < |s| ==> rows[k].pt4 == if k + cntJ < |s| then Some(XY(s[k + cntJ])) else None
  {
    var c := Coords(s);
    var pt2 := ShiftUp(c, 1);
    var pt3 := ShiftUp(c, cntJ + 1);
    var pt4 := ShiftUp(c, cntJ);
    seq(|s|, k requires 0 <= k < |s| => Row(s[k], pt2[k], pt3[k], pt4[k]))
  }

  /** A row that owns a cell: it is neither on the last I row nor on the last J column. */
  predicate Owner(p: Point, maxI: int, maxJ: int) {
    p.i != maxI && p.j != maxJ
  }

  /** The boolean row filter of pkg/model.py:135, order kept. */
  function KeepOwners(rows: seq<Row>, maxI: int, maxJ: int): seq<Row>
    decreases |rows|
  {
    if rows == [] then []
    else if Owner(rows[|rows| - 1].p, maxI, maxJ) then KeepOwners(rows[..|rows| - 1], maxI, maxJ) + [rows[|rows| - 1]]
    else KeepOwners(rows[..|rows| - 1], maxI, maxJ)
  }

  /** `getpolygon`: the ring self, +1 row, +cnt_j+1 row, +cnt_j row, tagged with the owner's I, J, value. */
  function ToCell(r: Row): Cell {
    Cell(r.p.i, r.p.j, r.p.v, [Some(XY(r.p)), r.pt2, r.pt3, r.pt4])
  }

  function ToCells(rows: seq<Row>): (cells: seq<Cell>)
    ensures |cells| == |rows| && forall k :: 0 <= k < |rows| ==> cells[k] == ToCell(rows[k])
  {
    seq(|rows|, k requires 0 <= k < |rows| => ToCell(rows[k]))
  }

  /**
    The cells `set_gdf` derives from the input table, in output order. On an
    empty table pandas' max is NaN and the filter keeps nothing.
  */
  function MeshCells(df: seq<Point>): seq<Cell> {
    if df == [] then []
    else
      var cntJ := CountDistinctJ(df);
      var maxI := MaxI(df);
      var maxJ := MaxJ(df);
      ToCells(KeepOwners(WithCorners(SortByIJ(df), cntJ), maxI, maxJ))
  }

  // ---------------------------------------------------------------------
  // Properties of the cells on any input

  /** The filter keeps exactly the rows that own a cell. */
  lemma {:induction false} KeepOwnersExactly(rows: seq<Row>, maxI: int, maxJ: int)
    ensures forall x :: x in KeepOwners(rows, maxI, maxJ) <==> x in rows && Owner(x.p, maxI, maxJ)
    decreases |rows|
  {
    if rows != [] {
      var init := rows[..|rows| - 1];
      KeepOwnersExactly(init, maxI, maxJ);
      assert rows == init + [rows[|rows| - 1]];
    }
  }

  /** The filter keeps every owning row as often as it occurs, and no other row. */
  lemma {:induction false} KeepOwnersCount(rows: seq<Row>, maxI: int, maxJ: int)
    ensures forall x :: multiset(KeepOwners(rows, maxI, maxJ))[x] == if Owner(x.p, maxI, maxJ) then multiset(rows)[x] else 0
    decreases |rows|
  {
    if rows != [] {
      var init := rows[..|rows| - 1];
      KeepOwnersCount(init, maxI, maxJ);
      assert rows == init + [rows[|rows| - 1]];
    }
  }

  predicate RowsSorted(rows: seq<Row>) {
    forall k, l :: 0 <= k < l < |rows| ==> KeyLe(rows[k].p, rows[l].p)
  }

  /** The filter keeps the rows in their order, so sorted rows stay sorted. */
  lemma {:induction false} KeepOwnersSorted(rows: seq<Row>, maxI: int, maxJ: int)
    requires RowsSorted(rows)
    ensures RowsSorted(KeepOwners(rows, maxI, maxJ))
    decreases |rows|
  {
    if rows != [] {
      var init := rows[..|rows| - 1];
      var last := rows[|rows| - 1];
      assert RowsSorted(init) by {
        forall k, l | 0 <= k < l < |init| ensures KeyLe(init[k].p, init[l].p) {
          assert init[k] == rows[k] && init[l] == rows[l];
        }
      }
      KeepOwnersSorted(init, maxI, maxJ);
      if Owner(last.p, maxI, maxJ) {
        var prev := KeepOwners(init, maxI, maxJ);
        var kept := prev + [last];
        KeepOwnersExactly(init, maxI, maxJ);
        forall k, l | 0 <= k < l < |kept| ensures KeyLe(kept[k].p, kept[l].p) {
          if l == |prev| {
            assert prev[k] in init;
            var a :| 0 <= a < |init| && init[a] == prev[k];
            assert init[a] == rows[a];
          } else {
            assert kept[k] == prev[k] && kept[l] == prev[l];
          }
        }
      }
    }
  }

  /** (I, J) order on cells. */
  predicate CellsSorted(cells: seq<Cell>) {
    forall k, l :: 0 <= k < l < |cells| ==>
      cells[k].i < cells[l].i || (cells[k].i == cells[l].i && cells[k].j <= cells[l].j)
  }

  /** `set_gdf` emits its cells in ascending (I, J) order, whatever the input order. */
  lemma MeshCellsSorted(df: seq<Point>)
    ensures CellsSorted(MeshCells(df))
  {
    if df != [] {
      var s := SortByIJ(df);
      SortByIJSorted(df);
      var rows := WithCorners(s, CountDistinctJ(df));
      assert RowsSorted(rows) by {
        forall k, l | 0 <= k < l < |rows| ensures KeyLe(rows[k].p, rows[l].p) {
          assert rows[k].p == s[k] && rows[l].p == s[l];
        }
      }
      KeepOwnersSorted(rows, MaxI(df), MaxJ(df));
    }
  }

  /** The output row of `p`: its I, J and value, with its own position as first vertex. */
  predicate CellOf(c: Cell, p: Point) {
    c.i == p.i && c.j == p.j && c.v == p.v && |c.ring| == 4 && c.ring[0] == Some(XY(p))
  }

  /** Cells of kept rows belong to owning rows of the table the rows were built from. */
  lemma OwnedFrom(df: seq<Point>, s: seq<Point>, rows: seq<Row>, kept: seq<Row>, maxI: int, maxJ: int)
    requires multiset(s) == multiset(df)
    requires |rows| == |s| && forall k :: 0 <= k < |s| ==> rows[k].p == s[k]
    requires forall x :: x in kept <==> x in rows && Owner(x.p, maxI, maxJ)
    ensures forall c :: c in ToCells(kept) ==> exists p :: p in df && Owner(p, maxI, maxJ) && CellOf(c, p)
    ensures forall p :: p in df && Owner(p, maxI, maxJ) ==> exists c :: c in ToCells(kept) && CellOf(c, p)
  {
    var cells := ToCells(kept);
    forall c | c in cells ensures exists p :: p in df && Owner(p, maxI, maxJ) && CellOf(c, p) {
      var k :| 0 <= k < |kept| && cells[k] == c;
      assert kept[k] in rows;
      var a :| 0 <= a < |rows| && rows[a] == kept[k];
      assert s[a] in multiset(s);
      assert CellOf(c, s[a]);
    }
    forall p | p in df && Owner(p, maxI, maxJ) ensures exists c :: c in cells && CellOf(c, p) {
      assert p in multiset(df);
      var a :| 0 <= a < |s| && s[a] == p;
      assert rows[a] in kept;
      var k :| 0 <= k < |kept| && kept[k] == rows[a];
      assert CellOf(cells[k], p);
    }
  }

  /**
    Every cell belongs to an input point that is neither on the last I row
    nor on the last J column, and carries only that point's I, J and value.
  */
  lemma MeshCellsOwned(df: seq<Point>)
    ensures forall c :: c in MeshCells(df) ==>
      df != [] && exists p :: p in df && Owner(p, MaxI(df), MaxJ(df)) && CellOf(c, p)
  {
    if df != [] {
      var rows := WithCorners(SortByIJ(df), CountDistinctJ(df));
      KeepOwnersExactly(rows, MaxI(df), MaxJ(df));
      OwnedFrom(df, SortByIJ(df), rows, KeepOwners(rows, MaxI(df), MaxJ(df)), MaxI(df), MaxJ(df));
    }
  }

  /** Every input point off the last I row and the last J column yields a cell. */
  lemma MeshCellsCover(df: seq<Point>)
    requires df != []
    ensures forall p :: p in df && Owner(p, MaxI(df), MaxJ(df)) ==> exists c :: c in MeshCells(df) && CellOf(c, p)
  {
    var rows := WithCorners(SortByIJ(df), CountDistinctJ(df));
    KeepOwnersExactly(rows, MaxI(df), MaxJ(df));
    OwnedFrom(df, SortByIJ(df), rows, KeepOwners(rows, MaxI(df), MaxJ(df)), MaxI(df), MaxJ(df));
  }

  /** The coordinate k rows down the sorted table, missing past its end. */
  function CornerAt(s: seq<Point>, k: nat): Option<Coord> {
    if k < |s| then Some(XY(s[k])) else None
  }

  /** Cell c is the cell of sorted row m: its I, J and value, and the ring self, +1, +n+1 and +n rows. */
  predicate OffsetCell(c: Cell, s: seq<Point>, m: nat, n: nat)
    requires m < |s|
  {
    c == Cell(s[m].i, s[m].j, s[m].v, [Some(XY(s[m])), CornerAt(s, m + 1), CornerAt(s, m + n + 1), CornerAt(s, m + n)])
  }

  /** Cell c is the offset cell of some owning row of the sorted table s. */
  predicate OwnedRing(c: Cell, s: seq<Point>, n: nat, maxI: int, maxJ: int) {
    exists m: nat :: m < |s| && Owner(s[m], maxI, maxJ) && OffsetCell(c, s, m, n)
  }

  /** Cells of kept shifted rows are the offset cells of owning rows. */
  lemma RingsFrom(s: seq<Point>, n: nat, rows: seq<Row>, kept: seq<Row>, maxI: int, maxJ: int)
    requires rows == WithCorners(s, n)
    requires forall x :: x in kept <==> x in rows && Owner(x.p, maxI, maxJ)
    ensures forall c :: c in ToCells(kept) ==> OwnedRing(c, s, n, maxI, maxJ)
  {
    forall c | c in ToCells(kept)
      ensures OwnedRing(c, s, n, maxI, maxJ)
    {
      var k :| 0 <= k < |kept| && ToCells(kept)[k] == c;
      assert kept[k] in rows;
      var m :| 0 <= m < |rows| && rows[m] == kept[k];
      assert OffsetCell(c, s, m, n);
    }
  }

  /**
    On any non-empty table, every cell is the cell of an owning row m of
    the sorted table: its ring lists the row itself and then the rows
    m + 1, m + cnt_j + 1 and m + cnt_j, a corner past the end being
    missing. No key lookup is involved, only row offsets.
  */
  lemma MeshCellRings(df: seq<Point>)
    requires df != []
    ensures forall c :: c in MeshCells(df) ==> OwnedRing(c, SortByIJ(df), CountDistinctJ(df), MaxI(df), MaxJ(df))
  {
    var rows := WithCorners(SortByIJ(df), CountDistinctJ(df));
    KeepOwnersExactly(rows, MaxI(df), MaxJ(df));
    RingsFrom(SortByIJ(df), CountDistinctJ(df), rows, KeepOwners(rows, MaxI(df), MaxJ(df)), MaxI(df), MaxJ(df));
  }
}
