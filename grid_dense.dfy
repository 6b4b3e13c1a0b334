/**
  Why the fixed row offsets of `set_gdf` find the right corners: on a table
  whose sorted order is a dense, gap-free row-major enumeration of a
  cnt_i x cnt_j rectangle, the shifted rows are the (i, j+1), (i+1, j+1) and
  (i+1, j) neighbours, every kept offset stays inside the table, and exactly
  (cnt_i - 1) * (cnt_j - 1) cells come out, in row-major order.
*/
module GridDense {
  import opened Common
  import opened Grid

  /**
    The density condition: the table has cntI * cntJ rows, and the row at
    position q * cntJ + r is the point (si + q, sj + r).
  */
  predicate RowMajor(s: seq<Point>, cntI: nat, cntJ: nat, si: int, sj: int) {
    && cntJ > 0
    && |s| == cntI * cntJ
    && forall q: nat, r: nat {:trigger Pos(q, r, cntJ)} :: q < cntI && r < cntJ ==>
         0 <= Pos(q, r, cntJ) < |s| && s[Pos(q, r, cntJ)].i == si + q && s[Pos(q, r, cntJ)].j == sj + r
  }

  /** Every row index k splits as k div m, k mod m. */
  lemma Decompose(k: int, n: nat, m: nat)
    requires m > 0 && 0 <= k < n * m
    ensures 0 <= k / m < n && 0 <= k % m < m && k == Pos(k / m, k % m, m)
  {
    if k / m >= n { MulMono(n, k / m, m); }
  }

  /** The density condition in the form "row k is (si + k div cntJ, sj + k mod cntJ)". */
  lemma RowMajorDivMod(s: seq<Point>, cntI: nat, cntJ: nat, si: int, sj: int)
    requires RowMajor(s, cntI, cntJ, si, sj)
    ensures forall k :: 0 <= k < |s| ==> s[k].i == si + k / cntJ && s[k].j == sj + k % cntJ
  {
    forall k | 0 <= k < |s| ensures s[k].i == si + k / cntJ && s[k].j == sj + k % cntJ {
      Decompose(k, cntI, cntJ);
    }
  }

  // ---------------------------------------------------------------------
  // Division facts

  lemma DivModOf(q: int, t: int, w: int)
    requires w > 0 && 0 <= t < w
    ensures (q * w + t) / w == q && (q * w + t) % w == t
  {
    var k := q * w + t;
    var q', t' := k / w, k % w;
    assert k == q' * w + t' && 0 <= t' < w;
    assert (q' - q) * w == t - t';
    if q' > q {
      assert (q' - q) * w >= w by { MulAtLeast(q' - q, w); }
    } else if q' < q {
      assert (q - q') * w >= w by { MulAtLeast(q - q', w); }
    }
  }

  lemma MulAtLeast(a: int, w: int)
    requires a >= 1 && w > 0
    ensures a * w >= w
  {
  }

  lemma MulMono(a: int, b: int, w: int)
    requires a <= b && w >= 0
    ensures a * w <= b * w
  {
  }

  // ---------------------------------------------------------------------
  // Offsets

  /**
    The shifted rows 1, cntJ and cntJ + 1 below an owning row k are its
    (i, j+1), (i+1, j) and (i+1, j+1) neighbours, and lie inside the table.
  */
  lemma {:induction false} OffsetNeighbours(s: seq<Point>, cntI: nat, cntJ: nat, si: int, sj: int, k: int)
    requires RowMajor(s, cntI, cntJ, si, sj)
    requires 0 <= k < |s|
    requires Owner(s[k], si + cntI - 1, sj + cntJ - 1)
    ensures k + cntJ + 1 < |s|
    ensures s[k + 1].i == s[k].i && s[k + 1].j == s[k].j + 1
    ensures s[k + cntJ].i == s[k].i + 1 && s[k + cntJ].j == s[k].j
    ensures s[k + cntJ + 1].i == s[k].i + 1 && s[k + cntJ + 1].j == s[k].j + 1
  {
    var m := cntJ;
    Decompose(k, cntI, m);
    var q, r := k / m, k % m;
    assert s[Pos(q, r, m)].i == si + q;
    assert q < cntI - 1 && r < m - 1;
    PosNext(q, r, m);
    PosNext(q, r + 1, m);
    PosBound(q + 1, r + 1, cntI, m);
    assert Pos(q, r + 1, m) == k + 1;
    assert s[Pos(q + 1, r, m)].i == si + q + 1;
    assert s[Pos(q + 1, r + 1, m)].i == si + q + 1;
    assert s[Pos(q, r + 1, m)].i == si + q;
  }

  /** Shape of `set_gdf`'s cells on a dense grid stated through the sorted table. */
  function CellAt(s: seq<Point>, cntJ: nat, k: int): Cell
    requires 0 <= k && k + cntJ + 1 < |s|
  {
    Cell(s[k].i, s[k].j, s[k].v,
         [Some(XY(s[k])), Some(XY(s[k + 1])), Some(XY(s[k + cntJ + 1])), Some(XY(s[k + cntJ]))])
  }
  // ---------------------------------------------------------------------
  // The kept rows, grid row by grid row

  /** Position of grid point (q, r), both counted from 0, in a row-major table of width m. */
  function Pos(q: nat, r: int, m: nat): (p: int)
  {
    q * m + r
  }

  lemma PosShift(q: nat, r: int, d: int, m: nat)
    ensures Pos(q, r + d, m) == Pos(q, r, m) + d
  {
  }

  lemma PosNext(q: nat, r: int, m: nat)
    ensures Pos(q + 1, r, m) == Pos(q, r, m) + m
  {
  }

  lemma PosMono(q: nat, q': nat, m: nat)
    requires q <= q'
    ensures Pos(q, 0, m) <= Pos(q', 0, m)
  {
    MulMono(q, q', m);
  }

  lemma PosBound(q: nat, r: int, n: nat, m: nat)
    requires q < n && 0 <= r < m
    ensures 0 <= Pos(q, r, m) && Pos(q, r, m) + 1 <= Pos(q, m, m) == Pos(q + 1, 0, m) <= Pos(n, 0, m)
  {
    PosShift(q, 0, r, m);
    PosShift(q, 0, m, m);
    PosMono(q + 1, n, m);
  }

  /**
    Which rows of a row-major table with n grid rows of width m own a cell:
    all but the last grid row and the last column.
  */
  ghost predicate OwnerPattern(rows: seq<Row>, n: nat, m: nat, maxI: int, maxJ: int) {
    && |rows| == Pos(n, 0, m)
    && forall q: nat, r {:trigger rows[Pos(q, r, m)]} :: q < n && 0 <= r < m && 0 <= Pos(q, r, m) < |rows| ==>
         (Owner(rows[Pos(q, r, m)].p, maxI, maxJ) <==> q < n - 1 && r < m - 1)
  }

  /** The first w rows of each of the first q grid rows of width m, concatenated. */
  function Interior(rows: seq<Row>, q: nat, m: nat, w: nat): seq<Row>
    requires w <= m && Pos(q, 0, m) <= |rows|
    decreases q
  {
    if q == 0 then []
    else
      PosMono(q - 1, q, m);
      PosNext(q - 1, 0, m);
      Interior(rows, q - 1, m, w) + rows[Pos(q - 1, 0, m) .. Pos(q - 1, w, m)]
  }

  lemma KeepOwnersStep(rows: seq<Row>, k: nat, maxI: int, maxJ: int)
    requires k < |rows|
    ensures KeepOwners(rows[..k + 1], maxI, maxJ)
         == KeepOwners(rows[..k], maxI, maxJ) + (if Owner(rows[k].p, maxI, maxJ) then [rows[k]] else [])
  {
    assert rows[..k + 1][..k] == rows[..k];
    assert rows[..k + 1][k] == rows[k];
  }

  /** Inside grid row q < n - 1 the filter keeps the first m - 1 rows and drops the last. */
  lemma {:induction false} InnerRow(rows: seq<Row>, n: nat, m: nat, maxI: int, maxJ: int, q: nat, r: nat)
    requires OwnerPattern(rows, n, m, maxI, maxJ) && m >= 1
    requires q < n - 1 && r <= m - 1
    ensures 0 <= Pos(q, 0, m) <= Pos(q, r, m) <= |rows|
    ensures KeepOwners(rows[..Pos(q, r, m)], maxI, maxJ)
         == KeepOwners(rows[..Pos(q, 0, m)], maxI, maxJ) + rows[Pos(q, 0, m) .. Pos(q, r, m)]
    decreases r
  {
    PosBound(q, 0, n, m);
    if r == 0 {
      assert rows[Pos(q, 0, m) .. Pos(q, 0, m)] == [];
    } else {
      InnerRow(rows, n, m, maxI, maxJ, q, r - 1);
      var k := Pos(q, r - 1, m);
      PosBound(q, r - 1, n, m);
      assert Owner(rows[k].p, maxI, maxJ);
      PosShift(q, r - 1, 1, m);
      KeepOwnersStep(rows, k, maxI, maxJ);
      assert rows[Pos(q, 0, m) .. k] + [rows[k]] == rows[Pos(q, 0, m) .. k + 1];
    }
  }

  /** A whole grid row q < n - 1 adds its first m - 1 rows. */
  lemma {:induction false} WholeRow(rows: seq<Row>, n: nat, m: nat, maxI: int, maxJ: int, q: nat)
    requires OwnerPattern(rows, n, m, maxI, maxJ) && m >= 1
    requires q < n - 1
    ensures 0 <= Pos(q, 0, m) <= Pos(q, m - 1, m) <= Pos(q + 1, 0, m) <= |rows|
    ensures KeepOwners(rows[..Pos(q + 1, 0, m)], maxI, maxJ)
         == KeepOwners(rows[..Pos(q, 0, m)], maxI, maxJ) + rows[Pos(q, 0, m) .. Pos(q, m - 1, m)]
  {
    InnerRow(rows, n, m, maxI, maxJ, q, m - 1);
    var k := Pos(q, m - 1, m);
    PosBound(q, m - 1, n, m);
    assert !Owner(rows[k].p, maxI, maxJ);
    PosShift(q, m - 1, 1, m);
    KeepOwnersStep(rows, k, maxI, maxJ);
  }

  lemma {:induction false} FullRows(rows: seq<Row>, n: nat, m: nat, maxI: int, maxJ: int, q: nat)
    requires OwnerPattern(rows, n, m, maxI, maxJ) && m >= 1
    requires q <= n - 1
    ensures Pos(q, 0, m) <= |rows|
    ensures KeepOwners(rows[..Pos(q, 0, m)], maxI, maxJ) == Interior(rows, q, m, m - 1)
    decreases q
  {
    PosMono(q, n, m);
    if q == 0 {
      assert rows[..0] == [];
    } else {
      FullRows(rows, n, m, maxI, maxJ, q - 1);
      WholeRow(rows, n, m, maxI, maxJ, q - 1);
      var blk := rows[Pos(q - 1, 0, m) .. Pos(q - 1, m - 1, m)];
      assert Interior(rows, q, m, m - 1) == Interior(rows, q - 1, m, m - 1) + blk;
    }
  }

  /** No row of the last grid row owns a cell. */
  lemma {:induction false} LastRow(rows: seq<Row>, n: nat, m: nat, maxI: int, maxJ: int, r: nat)
    requires OwnerPattern(rows, n, m, maxI, maxJ) && n >= 1 && m >= 1
    requires r <= m
    ensures 0 <= Pos(n - 1, 0, m) <= Pos(n - 1, r, m) <= |rows|
    ensures KeepOwners(rows[..Pos(n - 1, r, m)], maxI, maxJ) == KeepOwners(rows[..Pos(n - 1, 0, m)], maxI, maxJ)
    decreases r
  {
    PosBound(n - 1, 0, n, m);
    PosShift(n - 1, 0, r, m);
    if r > 0 {
      LastRow(rows, n, m, maxI, maxJ, r - 1);
      var k := Pos(n - 1, r - 1, m);
      PosBound(n - 1, r - 1, n, m);
      assert !Owner(rows[k].p, maxI, maxJ);
      PosShift(n - 1, r - 1, 1, m);
      KeepOwnersStep(rows, k, maxI, maxJ);
    }
  }

  lemma {:induction false} KeepOwnersIsInterior(rows: seq<Row>, n: nat, m: nat, maxI: int, maxJ: int)
    requires OwnerPattern(rows, n, m, maxI, maxJ) && n >= 1 && m >= 1
    ensures Pos(n - 1, 0, m) <= |rows|
    ensures KeepOwners(rows, maxI, maxJ) == Interior(rows, n - 1, m, m - 1)
  {
    FullRows(rows, n, m, maxI, maxJ, n - 1);
    LastRow(rows, n, m, maxI, maxJ, m);
    PosBound(n - 1, 0, n, m);
    assert rows[..|rows|] == rows;
  }

  /** Position (q', t) of the interior rows is the table row of grid point (q', t). */
  lemma {:induction false} InteriorAt(rows: seq<Row>, q: nat, m: nat, w: nat)
    requires 0 < w < m && Pos(q, 0, m) <= |rows|
    ensures |Interior(rows, q, m, w)| == Pos(q, 0, w)
    ensures forall q': nat, t {:trigger Pos(q', t, w)} :: q' < q && 0 <= t < w ==>
      0 <= Pos(q', t, w) < Pos(q, 0, w) && 0 <= Pos(q', t, m) < Pos(q, 0, m) &&
      Interior(rows, q, m, w)[Pos(q', t, w)] == rows[Pos(q', t, m)]
    decreases q
  {
    if q > 0 {
      PosMono(q - 1, q, m);
      InteriorAt(rows, q - 1, m, w);
      var prev := Interior(rows, q - 1, m, w);
      PosNext(q - 1, 0, m);
      var block := rows[Pos(q - 1, 0, m) .. Pos(q - 1, w, m)];
      assert Interior(rows, q, m, w) == prev + block;
      assert |prev| == Pos(q - 1, 0, w);
      PosNext(q - 1, 0, w);
      assert |block| == w;
      forall q': nat, t | q' < q && 0 <= t < w
        ensures 0 <= Pos(q', t, w) < Pos(q, 0, w) && 0 <= Pos(q', t, m) < Pos(q, 0, m)
        ensures Interior(rows, q, m, w)[Pos(q', t, w)] == rows[Pos(q', t, m)]
      {
        PosBound(q', t, q, w);
        PosBound(q', t, q, m);
        if q' < q - 1 {
          PosBound(q', t, q - 1, w);
          assert Interior(rows, q, m, w)[Pos(q', t, w)] == prev[Pos(q', t, w)];
        } else {
          PosShift(q - 1, 0, t, w);
          PosShift(q - 1, 0, t, m);
          assert Interior(rows, q, m, w)[Pos(q', t, w)] == block[t];
        }
      }
    }
  }

  /** A sorted dense table with its corners has the owner pattern. */
  lemma {:induction false} DensePattern(s: seq<Point>, cntI: nat, cntJ: nat, si: int, sj: int)
    requires RowMajor(s, cntI, cntJ, si, sj)
    ensures OwnerPattern(WithCorners(s, cntJ), cntI, cntJ, si + cntI - 1, sj + cntJ - 1)
  {
    var rows := WithCorners(s, cntJ);
    forall q: nat, r | q < cntI && 0 <= r < cntJ && 0 <= Pos(q, r, cntJ) < |rows|
      ensures Owner(rows[Pos(q, r, cntJ)].p, si + cntI - 1, sj + cntJ - 1) <==> q < cntI - 1 && r < cntJ - 1
    {
      assert s[Pos(q, r, cntJ)].i == si + q;
    }
  }

  // ---------------------------------------------------------------------
  // Column statistics of a dense table

  /** The integers a, a + 1, ..., a + n - 1. */
  function IntRange(a: int, n: nat): (r: set<int>)
    ensures forall x :: x in r <==> a <= x < a + n
    ensures |r| == n
    decreases n
  {
    if n == 0 then {} else
      var prev := IntRange(a, n - 1);
      assert a + n - 1 !in prev;
      prev + {a + n - 1}
  }

  /** Sorting keeps the rows: the same length and the same members. */
  lemma SortKeepsRows(df: seq<Point>)
    ensures |SortByIJ(df)| == |df|
    ensures forall p :: p in df <==> p in SortByIJ(df)
  {
    var s := SortByIJ(df);
    forall p ensures p in df <==> p in s {
      assert p in df <==> p in multiset(df);
      assert p in s <==> p in multiset(s);
    }
  }

  /** Every row of a dense table lies inside the rectangle. */
  lemma DenseBounds(s: seq<Point>, cntI: nat, cntJ: nat, si: int, sj: int)
    requires RowMajor(s, cntI, cntJ, si, sj)
    ensures forall k :: 0 <= k < |s| ==> si <= s[k].i <= si + cntI - 1 && sj <= s[k].j <= sj + cntJ - 1
  {
    forall k | 0 <= k < |s| ensures si <= s[k].i <= si + cntI - 1 && sj <= s[k].j <= sj + cntJ - 1 {
      Decompose(k, cntI, cntJ);
      assert s[Pos(k / cntJ, k % cntJ, cntJ)].i == si + k / cntJ;
    }
  }

  /** A dense table's J column takes exactly the values sj .. sj + cntJ - 1. */
  lemma DenseDistinctJ(df: seq<Point>, cntI: nat, cntJ: nat, si: int, sj: int)
    requires RowMajor(SortByIJ(df), cntI, cntJ, si, sj) && cntI >= 1
    ensures CountDistinctJ(df) == cntJ
  {
    var s := SortByIJ(df);
    SortKeepsRows(df);
    DenseBounds(s, cntI, cntJ, si, sj);
    PosMono(1, cntI, cntJ);
    assert DistinctJ(df) == IntRange(sj, cntJ) by {
      forall x | sj <= x < sj + cntJ ensures x in DistinctJ(df) {
        assert s[Pos(0, x - sj, cntJ)].j == x;
        assert s[Pos(0, x - sj, cntJ)] in df;
      }
      forall x | x in DistinctJ(df) ensures sj <= x < sj + cntJ {
        var p :| p in df && p.j == x;
        assert p in s;
      }
    }
  }

  /** A row of one table is a row of any rearrangement of it. */
  lemma IndexIn(s: seq<Point>, t: seq<Point>, p: Point) returns (a: int)
    requires multiset(s) == multiset(t) && p in t
    ensures 0 <= a < |s| && s[a] == p
  {
    assert p in multiset(t);
    assert p in multiset(s);
    a :| 0 <= a < |s| && s[a] == p;
  }

  lemma MaxIIs(df: seq<Point>, b: int, k: int)
    requires 0 <= k < |df| && df[k].i == b
    requires forall l :: 0 <= l < |df| ==> df[l].i <= b
    ensures MaxI(df) == b
  {
  }

  lemma MaxJIs(df: seq<Point>, b: int, k: int)
    requires 0 <= k < |df| && df[k].j == b
    requires forall l :: 0 <= l < |df| ==> df[l].j <= b
    ensures MaxJ(df) == b
  {
  }

  /** The far corner of a dense table has the largest I and the largest J of every row. */
  lemma DenseCorner(df: seq<Point>, s: seq<Point>, cntI: nat, cntJ: nat, si: int, sj: int) returns (k: int)
    requires RowMajor(s, cntI, cntJ, si, sj) && cntI >= 1 && multiset(s) == multiset(df)
    ensures 0 <= k < |df| && df[k].i == si + cntI - 1 && df[k].j == sj + cntJ - 1
    ensures forall l :: 0 <= l < |df| ==> df[l].i <= si + cntI - 1 && df[l].j <= sj + cntJ - 1
  {
    DenseBounds(s, cntI, cntJ, si, sj);
    var last := Pos(cntI - 1, cntJ - 1, cntJ);
    PosBound(cntI - 1, cntJ - 1, cntI, cntJ);
    assert s[last].i == si + cntI - 1 && s[last].j == sj + cntJ - 1;
    assert s[last] in multiset(s);
    k := IndexIn(df, s, s[last]);
    forall l | 0 <= l < |df| ensures df[l].i <= si + cntI - 1 && df[l].j <= sj + cntJ - 1 {
      var a := IndexIn(s, df, df[l]);
    }
  }

  /** The largest I and J of a dense table are the far corner's. */
  lemma DenseMax(df: seq<Point>, cntI: nat, cntJ: nat, si: int, sj: int)
    requires RowMajor(SortByIJ(df), cntI, cntJ, si, sj) && cntI >= 1
    ensures |df| > 0
    ensures MaxI(df) == si + cntI - 1
    ensures MaxJ(df) == sj + cntJ - 1
  {
    DenseMaxOf(df, SortByIJ(df), cntI, cntJ, si, sj);
  }

  /** DenseMax for any rearrangement s of the table. */
  lemma DenseMaxOf(df: seq<Point>, s: seq<Point>, cntI: nat, cntJ: nat, si: int, sj: int)
    requires RowMajor(s, cntI, cntJ, si, sj) && cntI >= 1 && multiset(s) == multiset(df)
    ensures |df| > 0 && MaxI(df) == si + cntI - 1 && MaxJ(df) == sj + cntJ - 1
  {
    var k := DenseCorner(df, s, cntI, cntJ, si, sj);
    MaxIIs(df, si + cntI - 1, k);
    MaxJIs(df, sj + cntJ - 1, k);
  }

  /** On a dense table no two rows share an (I, J) pair. */
  lemma DenseKeysUnique(s: seq<Point>, cntI: nat, cntJ: nat, si: int, sj: int, a: int, b: int)
    requires RowMajor(s, cntI, cntJ, si, sj)
    requires 0 <= a < |s| && 0 <= b < |s| && s[a].i == s[b].i && s[a].j == s[b].j
    ensures a == b
  {
    Decompose(a, cntI, cntJ);
    Decompose(b, cntI, cntJ);
    assert s[Pos(a / cntJ, a % cntJ, cntJ)].i == si + a / cntJ;
    assert s[Pos(b / cntJ, b % cntJ, cntJ)].i == si + b / cntJ;
  }

  // ---------------------------------------------------------------------
  // The cells

  /** On a dense table the cells are the rings of the interior rows. */
  lemma {:induction false} DenseKept(df: seq<Point>, cntI: nat, cntJ: nat, si: int, sj: int)
    requires RowMajor(SortByIJ(df), cntI, cntJ, si, sj) && cntI >= 1 && cntJ >= 2
    ensures Pos(cntI - 1, 0, cntJ) <= |SortByIJ(df)|
    ensures MeshCells(df) == ToCells(Interior(WithCorners(SortByIJ(df), cntJ), cntI - 1, cntJ, cntJ - 1))
  {
    var s := SortByIJ(df);
    var maxI, maxJ := si + cntI - 1, sj + cntJ - 1;
    DenseDistinctJ(df, cntI, cntJ, si, sj);
    DenseMax(df, cntI, cntJ, si, sj);
    var rows := WithCorners(s, cntJ);
    DensePattern(s, cntI, cntJ, si, sj);
    KeepOwnersIsInterior(rows, cntI, cntJ, maxI, maxJ);
    MeshCellsUnfold(df, cntJ, maxI, maxJ);
  }

  lemma MeshCellsUnfold(df: seq<Point>, cnt: nat, maxI: int, maxJ: int)
    requires df != [] && CountDistinctJ(df) == cnt && MaxI(df) == maxI && MaxJ(df) == maxJ
    ensures MeshCells(df) == ToCells(KeepOwners(WithCorners(SortByIJ(df), cnt), maxI, maxJ))
  {
  }

  /**
    On an input whose sorted order is a dense cnt_i x cnt_j grid, `set_gdf`
    yields (cnt_i - 1) * (cnt_j - 1) cells; cell q * (cnt_j - 1) + t belongs
    to sorted row k = q * cnt_j + t, and its ring is rows k, k + 1,
    k + cnt_j + 1 and k + cnt_j, none of them missing.
  */
  lemma {:induction false} DenseMeshCells(df: seq<Point>, cntI: nat, cntJ: nat, si: int, sj: int)
    requires RowMajor(SortByIJ(df), cntI, cntJ, si, sj) && cntI >= 1 && cntJ >= 2
    ensures |MeshCells(df)| == (cntI - 1) * (cntJ - 1)
    ensures CellsLaidOut(MeshCells(df), SortByIJ(df), cntI, cntJ)
  {
    DenseKept(df, cntI, cntJ, si, sj);
    var s := SortByIJ(df);
    var rows := WithCorners(s, cntJ);
    InteriorCells(s, rows, MeshCells(df), cntI, cntJ);
  }

  /**
    The cells of a cnt_i x cnt_j table in row-major order: cell
    q * (cnt_j - 1) + t is the cell built at row q * cnt_j + t.
  */
  predicate CellsLaidOut(cells: seq<Cell>, s: seq<Point>, cntI: nat, cntJ: nat) {
    && cntI >= 1 && cntJ >= 2
    && |cells| == Pos(cntI - 1, 0, cntJ - 1)
    && forall q: nat, t {:trigger Pos(q, t, cntJ - 1)} :: q < cntI - 1 && 0 <= t < cntJ - 1 ==>
      && 0 <= Pos(q, t, cntJ - 1) < |cells|
      && 0 <= Pos(q, t, cntJ) && Pos(q, t, cntJ) + cntJ + 1 < |s|
      && cells[Pos(q, t, cntJ - 1)] == CellAt(s, cntJ, Pos(q, t, cntJ))
  }

  /** The cells of the interior rows of a table of cnt_i x cnt_j rows, position by position. */
  lemma InteriorCells(s: seq<Point>, rows: seq<Row>, cells: seq<Cell>, cntI: nat, cntJ: nat)
    requires cntI >= 1 && cntJ >= 2 && |s| == Pos(cntI, 0, cntJ)
    requires rows == WithCorners(s, cntJ) && Pos(cntI - 1, 0, cntJ) <= |rows|
    requires cells == ToCells(Interior(rows, cntI - 1, cntJ, cntJ - 1))
    ensures CellsLaidOut(cells, s, cntI, cntJ)
  {
    var m, w := cntJ, cntJ - 1;
    InteriorAt(rows, cntI - 1, m, w);
    forall q: nat, t | q < cntI - 1 && 0 <= t < w
      ensures && 0 <= Pos(q, t, w) < |cells|
              && 0 <= Pos(q, t, m) && Pos(q, t, m) + m + 1 < |s|
              && cells[Pos(q, t, w)] == CellAt(s, m, Pos(q, t, m))
    {
      var k := Pos(q, t, m);
      PosShift(q, t, 1, m);
      PosNext(q, t + 1, m);
      PosBound(q + 1, t + 1, cntI, m);
      assert k + m + 1 < |s|;
      assert cells[Pos(q, t, w)] == ToCell(rows[k]);
    }
  }

  /**
    The ring of `cell` lists the input points (I, J), (I, J+1), (I+1, J+1)
    and (I+1, J), in that order, and the cell carries the value of (I, J).
  */
  ghost predicate RingOfNeighbours(df: seq<Point>, cell: Cell) {
    && |cell.ring| == 4
    && (forall p :: p in df && p.i == cell.i && p.j == cell.j ==> cell.ring[0] == Some(XY(p)) && cell.v == p.v)
    && (forall p :: p in df && p.i == cell.i && p.j == cell.j + 1 ==> cell.ring[1] == Some(XY(p)))
    && (forall p :: p in df && p.i == cell.i + 1 && p.j == cell.j + 1 ==> cell.ring[2] == Some(XY(p)))
    && (forall p :: p in df && p.i == cell.i + 1 && p.j == cell.j ==> cell.ring[3] == Some(XY(p)))
  }

  /** The ring CellAt builds at an owning row k is ringed by its four neighbours. */
  lemma RingAt(df: seq<Point>, s: seq<Point>, cntI: nat, cntJ: nat, si: int, sj: int, k: int)
    requires RowMajor(s, cntI, cntJ, si, sj) && multiset(s) == multiset(df)
    requires 0 <= k < |s| && Owner(s[k], si + cntI - 1, sj + cntJ - 1)
    ensures k + cntJ + 1 < |s| && RingOfNeighbours(df, CellAt(s, cntJ, k))
  {
    OffsetNeighbours(s, cntI, cntJ, si, sj, k);
    var cell := CellAt(s, cntJ, k);
    forall p | p in df && p.i == cell.i && p.j == cell.j
      ensures cell.ring[0] == Some(XY(p)) && cell.v == p.v
    {
      var a := IndexIn(s, df, p);
      DenseKeysUnique(s, cntI, cntJ, si, sj, a, k);
    }
    forall p | p in df && p.i == cell.i && p.j == cell.j + 1 ensures cell.ring[1] == Some(XY(p)) {
      var a := IndexIn(s, df, p);
      DenseKeysUnique(s, cntI, cntJ, si, sj, a, k + 1);
    }
    forall p | p in df && p.i == cell.i + 1 && p.j == cell.j + 1 ensures cell.ring[2] == Some(XY(p)) {
      var a := IndexIn(s, df, p);
      DenseKeysUnique(s, cntI, cntJ, si, sj, a, k + cntJ + 1);
    }
    forall p | p in df && p.i == cell.i + 1 && p.j == cell.j ensures cell.ring[3] == Some(XY(p)) {
      var a := IndexIn(s, df, p);
      DenseKeysUnique(s, cntI, cntJ, si, sj, a, k + cntJ);
    }
  }

  /** One cell of a dense grid, stated through (I, J). */
  lemma DenseCell(df: seq<Point>, cntI: nat, cntJ: nat, si: int, sj: int, q: nat, t: int)
    requires RowMajor(SortByIJ(df), cntI, cntJ, si, sj) && cntI >= 1 && cntJ >= 2
    requires q < cntI - 1 && 0 <= t < cntJ - 1
    ensures 0 <= Pos(q, t, cntJ - 1) < |MeshCells(df)|
    ensures MeshCells(df)[Pos(q, t, cntJ - 1)].i == si + q
    ensures MeshCells(df)[Pos(q, t, cntJ - 1)].j == sj + t
    ensures RingOfNeighbours(df, MeshCells(df)[Pos(q, t, cntJ - 1)])
  {
    var s := SortByIJ(df);
    DenseMeshCells(df, cntI, cntJ, si, sj);
    var k := Pos(q, t, cntJ);
    assert MeshCells(df)[Pos(q, t, cntJ - 1)] == CellAt(s, cntJ, k);
    assert s[k].i == si + q && s[k].j == sj + t;
    RingAt(df, s, cntI, cntJ, si, sj, k);
  }

  /**
    All cells of a dense grid through (I, J): cell q * (cnt_j - 1) + t is the
    cell of grid point (si + q, sj + t), so the cells come out in ascending
    (I, J) order, one per point off the last row and column, each ringed by
    its four neighbouring input points.
  */
  lemma DenseCellCorners(df: seq<Point>, cntI: nat, cntJ: nat, si: int, sj: int)
    requires RowMajor(SortByIJ(df), cntI, cntJ, si, sj) && cntI >= 1 && cntJ >= 2
    ensures |MeshCells(df)| == (cntI - 1) * (cntJ - 1)
    ensures forall q: nat, t {:trigger Pos(q, t, cntJ - 1)} :: q < cntI - 1 && 0 <= t < cntJ - 1 ==>
      && 0 <= Pos(q, t, cntJ - 1) < |MeshCells(df)|
      && MeshCells(df)[Pos(q, t, cntJ - 1)].i == si + q
      && MeshCells(df)[Pos(q, t, cntJ - 1)].j == sj + t
      && RingOfNeighbours(df, MeshCells(df)[Pos(q, t, cntJ - 1)])
  {
    DenseMeshCells(df, cntI, cntJ, si, sj);
    forall q: nat, t {:trigger Pos(q, t, cntJ - 1)} | q < cntI - 1 && 0 <= t < cntJ - 1
      ensures && 0 <= Pos(q, t, cntJ - 1) < |MeshCells(df)|
              && MeshCells(df)[Pos(q, t, cntJ - 1)].i == si + q
              && MeshCells(df)[Pos(q, t, cntJ - 1)].j == sj + t
              && RingOfNeighbours(df, MeshCells(df)[Pos(q, t, cntJ - 1)])
    {
      DenseCell(df, cntI, cntJ, si, sj, q, t);
    }
  }
}
