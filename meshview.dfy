/**
  The computations of meshview.py: the default grid table of step 2, the
  ignored last row and column (max_i, max_j), the check an uploaded table
  must pass, and the colour range of step 3.
*/
module MeshView {
  import opened Common
  import opened Grid
  import opened GridDense

  // ---------------------------------------------------------------------
  // List building blocks

  /** `[i + start for i in range(n)]`. */
  function Range(start: int, n: nat): (r: seq<int>)
    ensures |r| == n && forall k :: 0 <= k < n ==> r[k] == start + k
  {
    seq(n, k => start + k)
  }

  /** `s * times`: the list repeated. */
  function Repeat(s: seq<int>, times: nat): seq<int>
    decreases times
  {
    if times == 0 then [] else Repeat(s, times - 1) + s
  }

  /** Repetition lays the copies back to back: copy q holds s at Pos(q, 0, |s|). */
  lemma {:induction false} RepeatAt(s: seq<int>, times: nat)
    ensures |Repeat(s, times)| == Pos(times, 0, |s|)
    ensures forall q: nat, r {:trigger Pos(q, r, |s|)} :: q < times && 0 <= r < |s| ==>
      0 <= Pos(q, r, |s|) < |Repeat(s, times)| && Repeat(s, times)[Pos(q, r, |s|)] == s[r]
    decreases times
  {
    if times > 0 {
      RepeatAt(s, times - 1);
      PosNext(times - 1, 0, |s|);
      forall q: nat, r | q < times && 0 <= r < |s|
        ensures 0 <= Pos(q, r, |s|) < |Repeat(s, times)| && Repeat(s, times)[Pos(q, r, |s|)] == s[r]
      {
        PosBound(q, r, times, |s|);
        if q == times - 1 {
          PosShift(q, 0, r, |s|);
        } else {
          PosBound(q, r, times - 1, |s|);
        }
      }
    }
  }

  // ---------------------------------------------------------------------
  // Python's sorted() on a list of ints

  predicate SortedInts(s: seq<int>) {
    forall k, l :: 0 <= k < l < |s| ==> s[k] <= s[l]
  }

  function InsertInt(x: int, s: seq<int>): seq<int>
    decreases |s|
  {
    if s == [] || x <= s[0] then [x] + s else [s[0]] + InsertInt(x, s[1..])
  }

  lemma {:induction false} InsertIntCount(x: int, s: seq<int>)
    ensures |InsertInt(x, s)| == |s| + 1
    ensures multiset(InsertInt(x, s)) == multiset(s) + multiset{x}
    decreases |s|
  {
    if s != [] && x > s[0] {
      assert s == [s[0]] + s[1..];
      InsertIntCount(x, s[1..]);
    }
  }

  lemma {:induction false} InsertIntLowerBound(y: int, x: int, s: seq<int>)
    requires y <= x && forall k :: 0 <= k < |s| ==> y <= s[k]
    ensures forall l :: 0 <= l < |InsertInt(x, s)| ==> y <= InsertInt(x, s)[l]
    decreases |s|
  {
    if s != [] && x > s[0] {
      InsertIntLowerBound(y, x, s[1..]);
      var r := InsertInt(x, s);
      forall l | 0 <= l < |r| ensures y <= r[l] {
        if l > 0 { assert r[l] == InsertInt(x, s[1..])[l - 1]; }
      }
    }
  }

  lemma {:induction false} InsertIntSorted(x: int, s: seq<int>)
    requires SortedInts(s)
    ensures SortedInts(InsertInt(x, s))
    decreases |s|
  {
    if s != [] && x > s[0] {
      var rest := InsertInt(x, s[1..]);
      InsertIntSorted(x, s[1..]);
      InsertIntCount(x, s[1..]);
      InsertIntLowerBound(s[0], x, s[1..]);
      var r := [s[0]] + rest;
      forall k, l | 0 <= k < l < |r| ensures r[k] <= r[l] {
        if k == 0 {
          assert r[l] == rest[l - 1];
        } else {
          assert r[k] == rest[k - 1] && r[l] == rest[l - 1];
        }
      }
    }
  }

  /** `sorted(s)` on ints. */
  function SortInts(s: seq<int>): (r: seq<int>)
    ensures |r| == |s| && multiset(r) == multiset(s)
    decreases |s|
  {
    if s == [] then []
    else
      assert s == [s[0]] + s[1..];
      InsertIntCount(s[0], SortInts(s[1..]));
      InsertInt(s[0], SortInts(s[1..]))
  }

  lemma {:induction false} SortIntsSorted(s: seq<int>)
    ensures SortedInts(SortInts(s))
    decreases |s|
  {
    if s != [] {
      SortIntsSorted(s[1..]);
      InsertIntSorted(s[0], SortInts(s[1..]));
    }
  }

  lemma SortedHead(b: seq<int>, x: int)
    requires SortedInts(b) && x in b
    ensures b[0] <= x
  {
  }

  lemma SortedTail(a: seq<int>)
    requires SortedInts(a) && a != []
    ensures SortedInts(a[1..])
  {
    forall k, l | 0 <= k < l < |a[1..]| ensures a[1..][k] <= a[1..][l] {
      assert a[1..][k] == a[k + 1] && a[1..][l] == a[l + 1];
    }
  }

  lemma TailCount<T>(a: seq<T>)
    requires a != []
    ensures multiset(a[1..]) == multiset(a) - multiset{a[0]}
  {
    assert a == [a[0]] + a[1..];
  }

  lemma TailsAgree<T>(a: seq<T>, b: seq<T>)
    requires a != [] && b != [] && multiset(a) == multiset(b) && a[0] == b[0]
    ensures multiset(a[1..]) == multiset(b[1..])
  {
    TailCount(a);
    TailCount(b);
  }

  /** There is one sorted arrangement of a multiset of ints. */
  lemma {:induction false} SortedIntsUnique(a: seq<int>, b: seq<int>)
    requires SortedInts(a) && SortedInts(b) && multiset(a) == multiset(b)
    ensures a == b
    decreases |a|
  {
    assert |a| == |multiset(a)| == |multiset(b)| == |b|;
    if a != [] {
      assert a[0] in multiset(b) && b[0] in multiset(a);
      SortedHead(b, a[0]);
      SortedHead(a, b[0]);
      TailsAgree(a, b);
      SortedTail(a);
      SortedTail(b);
      SortedIntsUnique(a[1..], b[1..]);
      assert a == [a[0]] + a[1..] && b == [b[0]] + b[1..];
    }
  }

  // ---------------------------------------------------------------------
  // The default table (meshview.py:170-177)

  /** What sorting `range * cnt_j` gives: cnt_j copies of start, then of start + 1, and so on. */
  function Blocks(start: int, n: nat, width: nat): seq<int>
    decreases n
  {
    if n == 0 then [] else Blocks(start, n - 1, width) + seq(width, _ => start + n - 1)
  }

  /** A multiset taken `times` times. */
  function Times(m: multiset<int>, times: nat): multiset<int>
    decreases times
  {
    if times == 0 then multiset{} else Times(m, times - 1) + m
  }

  lemma {:induction false} TimesUnion(a: multiset<int>, b: multiset<int>, times: nat)
    ensures Times(a + b, times) == Times(a, times) + Times(b, times)
    decreases times
  {
    if times > 0 {
      TimesUnion(a, b, times - 1);
    }
  }

  lemma {:induction false} TimesEmpty(times: nat)
    ensures Times(multiset{}, times) == multiset{}
    decreases times
  {
    if times > 0 {
      TimesEmpty(times - 1);
    }
  }

  lemma {:induction false} RepeatCount(s: seq<int>, times: nat)
    ensures multiset(Repeat(s, times)) == Times(multiset(s), times)
    decreases times
  {
    if times > 0 {
      RepeatCount(s, times - 1);
    }
  }

  lemma {:induction false} ConstCount(x: int, width: nat)
    ensures multiset(seq(width, _ => x)) == Times(multiset{x}, width)
    decreases width
  {
    if width > 0 {
      ConstCount(x, width - 1);
      assert seq(width, _ => x) == seq(width - 1, _ => x) + [x];
    }
  }

  lemma RangeStep(start: int, n: nat)
    requires n > 0
    ensures multiset(Range(start, n)) == multiset(Range(start, n - 1)) + multiset{start + n - 1}
  {
    assert Range(start, n) == Range(start, n - 1) + [start + n - 1];
  }

  lemma BlocksStep(start: int, n: nat, width: nat)
    requires n > 0
    ensures multiset(Blocks(start, n, width)) == multiset(Blocks(start, n - 1, width)) + Times(multiset{start + n - 1}, width)
  {
    ConstCount(start + n - 1, width);
  }

  /** Blocks and the repeated range have the same elements. */
  lemma {:induction false} BlocksCount(start: int, n: nat, width: nat)
    ensures multiset(Blocks(start, n, width)) == multiset(Repeat(Range(start, n), width))
    decreases n
  {
    RepeatCount(Range(start, n), width);
    if n == 0 {
      TimesEmpty(width);
    } else {
      BlocksCount(start, n - 1, width);
      RepeatCount(Range(start, n - 1), width);
      BlocksStep(start, n, width);
      RangeStep(start, n);
      TimesUnion(multiset(Range(start, n - 1)), multiset{start + n - 1}, width);
    }
  }

  lemma {:induction false} BlocksShape(start: int, n: nat, width: nat)
    ensures |Blocks(start, n, width)| == Pos(n, 0, width)
    ensures forall k :: 0 <= k < |Blocks(start, n, width)| ==> start <= Blocks(start, n, width)[k] < start + n
    ensures SortedInts(Blocks(start, n, width))
    ensures forall q: nat, r {:trigger Pos(q, r, width)} :: q < n && 0 <= r < width ==>
      0 <= Pos(q, r, width) < |Blocks(start, n, width)| && Blocks(start, n, width)[Pos(q, r, width)] == start + q
    decreases n
  {
    if n > 0 {
      BlocksShape(start, n - 1, width);
      PosNext(n - 1, 0, width);
      var prev := Blocks(start, n - 1, width);
      var b := Blocks(start, n, width);
      assert |b| == |prev| + width;
      forall q: nat, r | q < n && 0 <= r < width
        ensures 0 <= Pos(q, r, width) < |b| && b[Pos(q, r, width)] == start + q
      {
        PosBound(q, r, n, width);
        if q == n - 1 {
          PosShift(q, 0, r, width);
        } else {
          PosBound(q, r, n - 1, width);
        }
      }
    }
  }

  /** The I column: `sorted([i + start for i in range(cnt_i)] * cnt_j)`. */
  function IColumn(cntI: nat, cntJ: nat, start: int): seq<int> {
    SortInts(Repeat(Range(start, cntI), cntJ))
  }

  /** The J column: `[j + start for j in range(cnt_j)] * cnt_i`. */
  function JColumn(cntI: nat, cntJ: nat, start: int): seq<int> {
    Repeat(Range(start, cntJ), cntI)
  }

  /** The sorted I column is the block sequence: row Pos(q, r, cnt_j) holds start + q. */
  lemma IColumnIsBlocks(cntI: nat, cntJ: nat, start: int)
    ensures IColumn(cntI, cntJ, start) == Blocks(start, cntI, cntJ)
  {
    BlocksCount(start, cntI, cntJ);
    BlocksShape(start, cntI, cntJ);
    SortIntsSorted(Repeat(Range(start, cntI), cntJ));
    SortedIntsUnique(IColumn(cntI, cntJ, start), Blocks(start, cntI, cntJ));
  }

  /**
    The table step 2 starts from: columns I, J, X, Y and the value, with
    X, Y and the value 0.0 (meshview.py:170-178).
  */
  function Generate(cntI: nat, cntJ: nat, start: int): (t: seq<Point>)
    ensures |t| == |JColumn(cntI, cntJ, start)|
  {
    var colI := IColumn(cntI, cntJ, start);
    var colJ := JColumn(cntI, cntJ, start);
    IColumnIsBlocks(cntI, cntJ, start);
    BlocksShape(start, cntI, cntJ);
    RepeatAt(Range(start, cntJ), cntI);
    seq(|colJ|, k requires 0 <= k < |colJ| => Point(colI[k], colJ[k], 0.0, 0.0, 0.0))
  }

  /**
    The generated table is the dense row-major enumeration of the
    cnt_i x cnt_j grid from (start, start), with zero coordinates and
    values: row q * cnt_j + r is the point (start + q, start + r).
  */
  lemma GenerateRowMajor(cntI: nat, cntJ: nat, start: int)
    requires cntJ > 0
    ensures RowMajor(Generate(cntI, cntJ, start), cntI, cntJ, start, start)
    ensures forall k :: 0 <= k < |Generate(cntI, cntJ, start)| ==>
      var p := Generate(cntI, cntJ, start)[k]; p.x == 0.0 && p.y == 0.0 && p.v == 0.0
  {
    var t := Generate(cntI, cntJ, start);
    IColumnIsBlocks(cntI, cntJ, start);
    BlocksShape(start, cntI, cntJ);
    RepeatAt(Range(start, cntJ), cntI);
    forall q: nat, r: nat | q < cntI && r < cntJ
      ensures 0 <= Pos(q, r, cntJ) < |t| && t[Pos(q, r, cntJ)].i == start + q && t[Pos(q, r, cntJ)].j == start + r
    {
      PosBound(q, r, cntI, cntJ);
    }
  }

  /** A dense row-major table is already sorted by (I, J). */
  lemma RowMajorSorted(s: seq<Point>, cntI: nat, cntJ: nat, si: int, sj: int)
    requires RowMajor(s, cntI, cntJ, si, sj)
    ensures SortedByIJ(s)
  {
    RowMajorDivMod(s, cntI, cntJ, si, sj);
    forall k, l | 0 <= k < l < |s| ensures KeyLe(s[k], s[l]) {
      Decompose(k, cntI, cntJ);
      Decompose(l, cntI, cntJ);
      if k / cntJ == l / cntJ {
        assert k % cntJ < l % cntJ;
      } else if k / cntJ > l / cntJ {
        PosMono(l / cntJ + 1, k / cntJ, cntJ);
        PosBound(l / cntJ, l % cntJ, l / cntJ + 1, cntJ);
      }
    }
  }

  /** Sorting a table already sorted by (I, J) leaves it as it is. */
  lemma {:induction false} SortSortedIdentity(s: seq<Point>)
    requires SortedByIJ(s)
    ensures SortByIJ(s) == s
    decreases |s|
  {
    if s != [] {
      assert SortedByIJ(s[1..]) by {
        forall k, l | 0 <= k < l < |s[1..]| ensures KeyLe(s[1..][k], s[1..][l]) {
          assert s[1..][k] == s[k + 1] && s[1..][l] == s[l + 1];
        }
      }
      SortSortedIdentity(s[1..]);
      assert s == [s[0]] + s[1..];
    }
  }

  /** Largest I (or J) number of the grid: `cnt + ij_start - 1` (meshview.py:157-158). */
  function MaxIndex(cnt: nat, start: int): int {
    cnt + start - 1
  }

  /**
    The generated table meets the condition under which `set_gdf`'s fixed
    offsets find the right corners: sorting leaves it unchanged, its
    largest I and J are max_i and max_j, and on a grid of at least 2 x 2
    points it yields (cnt_i - 1) * (cnt_j - 1) cells.
  */
  lemma GenerateFeedsSetGdf(cntI: nat, cntJ: nat, start: int)
    requires cntI >= 2 && cntJ >= 2
    ensures SortByIJ(Generate(cntI, cntJ, start)) == Generate(cntI, cntJ, start)
    ensures RowMajor(SortByIJ(Generate(cntI, cntJ, start)), cntI, cntJ, start, start)
    ensures MaxI(Generate(cntI, cntJ, start)) == MaxIndex(cntI, start)
    ensures MaxJ(Generate(cntI, cntJ, start)) == MaxIndex(cntJ, start)
    ensures |MeshCells(Generate(cntI, cntJ, start))| == (cntI - 1) * (cntJ - 1)
  {
    GenerateRowMajor(cntI, cntJ, start);
    DenseSortFixed(Generate(cntI, cntJ, start), cntI, cntJ, start);
    DenseMaxIndex(Generate(cntI, cntJ, start), cntI, cntJ, start);
    DenseCellCount(Generate(cntI, cntJ, start), cntI, cntJ, start);
  }

  lemma DenseSortFixed(t: seq<Point>, cntI: nat, cntJ: nat, start: int)
    requires RowMajor(t, cntI, cntJ, start, start)
    ensures SortByIJ(t) == t
  {
    RowMajorSorted(t, cntI, cntJ, start, start);
    SortSortedIdentity(t);
  }

  lemma DenseMaxIndex(t: seq<Point>, cntI: nat, cntJ: nat, start: int)
    requires cntI >= 1 && RowMajor(t, cntI, cntJ, start, start)
    ensures MaxI(t) == MaxIndex(cntI, start) && MaxJ(t) == MaxIndex(cntJ, start)
  {
    DenseSortFixed(t, cntI, cntJ, start);
    DenseMax(t, cntI, cntJ, start, start);
  }

  lemma DenseCellCount(t: seq<Point>, cntI: nat, cntJ: nat, start: int)
    requires cntI >= 1 && cntJ >= 2 && RowMajor(t, cntI, cntJ, start, start)
    ensures |MeshCells(t)| == (cntI - 1) * (cntJ - 1)
  {
    DenseSortFixed(t, cntI, cntJ, start);
    DenseMeshCells(t, cntI, cntJ, start, start);
  }

  // ---------------------------------------------------------------------
  // The upload check (meshview.py:317-322, 348)

  /** The (I, J) key of a row. */
  function Keys(s: seq<Point>): (ks: seq<(int, int)>)
    ensures |ks| == |s| && forall k :: 0 <= k < |s| ==> ks[k] == (s[k].i, s[k].j)
  {
    seq(|s|, k requires 0 <= k < |s| => (s[k].i, s[k].j))
  }

  /** A row with its index label: `read_csv` numbers the rows 0, 1, 2, ... */
  function Labelled(s: seq<Point>): (r: seq<(int, Point)>)
    ensures |r| == |s| && forall k :: 0 <= k < |s| ==> r[k] == (k, s[k])
  {
    seq(|s|, k requires 0 <= k < |s| => (k, s[k]))
  }

  /** Stable insertion of a labelled row by its (I, J) key. */
  function InsertLabelled(x: (int, Point), s: seq<(int, Point)>): seq<(int, Point)>
    decreases |s|
  {
    if s == [] || KeyLe(x.1, s[0].1) then [x] + s else [s[0]] + InsertLabelled(x, s[1..])
  }

  lemma {:induction false} InsertLabelledCount(x: (int, Point), s: seq<(int, Point)>)
    ensures |InsertLabelled(x, s)| == |s| + 1
    ensures multiset(InsertLabelled(x, s)) == multiset(s) + multiset{x}
    decreases |s|
  {
    if s != [] && !KeyLe(x.1, s[0].1) {
      assert s == [s[0]] + s[1..];
      InsertLabelledCount(x, s[1..]);
    }
  }

  /**
    `sort_values(['I', 'J'])` on a table with its index: the rows in (I, J)
    order, each keeping its original label. pandas sorts on several
    columns stably.
  */
  function SortLabelled(s: seq<(int, Point)>): (r: seq<(int, Point)>)
    ensures |r| == |s| && multiset(r) == multiset(s)
    decreases |s|
  {
    if s == [] then []
    else
      assert s == [s[0]] + s[1..];
      InsertLabelledCount(s[0], SortLabelled(s[1..]));
      InsertLabelled(s[0], SortLabelled(s[1..]))
  }

  /** The index of a labelled table. */
  function Labels(s: seq<(int, Point)>): (ls: seq<int>)
    ensures |ls| == |s| && forall k :: 0 <= k < |s| ==> ls[k] == s[k].0
  {
    seq(|s|, k requires 0 <= k < |s| => s[k].0)
  }

  /**
    The check as written: `df_manual[['I','J']] == sorted_upload[['I','J']]`
    compares two DataFrames, which pandas only allows when both carry the
    same index in the same order; otherwise it raises ValueError and the
    upload is rejected. The manual table is numbered 0 .. n-1, the sorted
    upload keeps the labels of its rows before sorting.
  */
  function UploadCheckAsWritten(manual: seq<Point>, upload: seq<Point>): bool {
    var sorted := SortLabelled(Labelled(upload));
    if Labels(sorted) != Range(0, |manual|) then false
    else forall k :: 0 <= k < |manual| ==> (manual[k].i, manual[k].j) == (sorted[k].1.i, sorted[k].1.j)
  }

  /** The check as intended: the sorted (I, J) pairs of the upload equal the manual table's, row by row. */
  function UploadCheck(manual: seq<Point>, upload: seq<Point>): bool {
    Keys(SortByIJ(upload)) == Keys(manual)
  }

  /**
    As written, an accepted upload is one whose rows were already in the
    manual table's (I, J) order: the check never accepts a reordered file.
  */
  lemma AcceptedAsWrittenIsInOrder(manual: seq<Point>, upload: seq<Point>)
    requires UploadCheckAsWritten(manual, upload)
    ensures Keys(upload) == Keys(manual)
  {
    var lab := Labelled(upload);
    var sorted := SortLabelled(lab);
    assert |upload| == |manual|;
    forall k | 0 <= k < |manual| ensures (upload[k].i, upload[k].j) == (manual[k].i, manual[k].j) {
      assert sorted[k] in multiset(lab);
      var a :| 0 <= a < |lab| && lab[a] == sorted[k];
      assert sorted[k].0 == k;
    }
  }

  /** The four rows of the 2 x 2 grid from 0, in a file whose first two lines are swapped. */
  function SwappedUpload(): seq<Point> {
    [Point(0, 1, 0.0, 0.0, 0.0), Point(0, 0, 0.0, 0.0, 0.0), Point(1, 0, 0.0, 0.0, 0.0), Point(1, 1, 0.0, 0.0, 0.0)]
  }

  /** The 2 x 2 table step 2 generates, written out. */
  lemma Generate2x2()
    ensures Generate(2, 2, 0) ==
      [Point(0, 0, 0.0, 0.0, 0.0), Point(0, 1, 0.0, 0.0, 0.0), Point(1, 0, 0.0, 0.0, 0.0), Point(1, 1, 0.0, 0.0, 0.0)]
  {
    GenerateRowMajor(2, 2, 0);
    ZeroGrid2x2(Generate(2, 2, 0));
  }

  lemma ZeroGrid2x2(t: seq<Point>)
    requires RowMajor(t, 2, 2, 0, 0)
    requires forall k :: 0 <= k < |t| ==> t[k].x == 0.0 && t[k].y == 0.0 && t[k].v == 0.0
    ensures t == [Point(0, 0, 0.0, 0.0, 0.0), Point(0, 1, 0.0, 0.0, 0.0), Point(1, 0, 0.0, 0.0, 0.0), Point(1, 1, 0.0, 0.0, 0.0)]
  {
    RowMajorDivMod(t, 2, 2, 0, 0);
    assert |t| == 4;
    assert t[0].i == 0 && t[0].j == 0 && t[1].i == 0 && t[1].j == 1;
    assert t[2].i == 1 && t[2].j == 0 && t[3].i == 1 && t[3].j == 1;
  }

  /**
    A correct 2 x 2 upload with its first two rows swapped is rejected as
    written, and accepted by the intended check.
  */
  lemma SwappedUploadRejected()
    ensures !UploadCheckAsWritten(Generate(2, 2, 0), SwappedUpload())
    ensures UploadCheck(Generate(2, 2, 0), SwappedUpload())
  {
    Generate2x2();
    SwappedKeys(Generate(2, 2, 0), SwappedUpload());
    if UploadCheckAsWritten(Generate(2, 2, 0), SwappedUpload()) {
      AcceptedAsWrittenIsInOrder(Generate(2, 2, 0), SwappedUpload());
    }
    ReorderedUploadAccepted(2, 2, 0, SwappedUpload());
  }

  lemma SwappedKeys(manual: seq<Point>, up: seq<Point>)
    requires manual ==
      [Point(0, 0, 0.0, 0.0, 0.0), Point(0, 1, 0.0, 0.0, 0.0), Point(1, 0, 0.0, 0.0, 0.0), Point(1, 1, 0.0, 0.0, 0.0)]
    requires up == SwappedUpload()
    ensures Keys(up) != Keys(manual)
    ensures multiset(Keys(up)) == multiset(Keys(manual))
  {
    var kg: seq<(int, int)> := [(0, 0), (0, 1), (1, 0), (1, 1)];
    KeysSwapped(manual, up, kg);
    var rest := kg[2..];
    assert kg == [kg[0]] + [kg[1]] + rest;
    SwapFront(kg[0], kg[1], rest);
  }

  lemma KeysSwapped(manual: seq<Point>, up: seq<Point>, kg: seq<(int, int)>)
    requires manual ==
      [Point(0, 0, 0.0, 0.0, 0.0), Point(0, 1, 0.0, 0.0, 0.0), Point(1, 0, 0.0, 0.0, 0.0), Point(1, 1, 0.0, 0.0, 0.0)]
    requires up == SwappedUpload()
    requires kg == [(0, 0), (0, 1), (1, 0), (1, 1)]
    ensures Keys(manual) == kg
    ensures Keys(up) == [kg[1]] + [kg[0]] + kg[2..]
  {
  }

  lemma SwapFront<T>(a: T, b: T, rest: seq<T>)
    ensures multiset([b] + [a] + rest) == multiset([a] + [b] + rest)
  {
  }

  /**
    An upload the intended check accepts, sorted, is the dense row-major
    grid of the manual table: `set_gdf` receives exactly the table its
    offsets need.
  */
  lemma AcceptedUploadIsDense(cntI: nat, cntJ: nat, start: int, upload: seq<Point>)
    requires cntJ > 0
    requires UploadCheck(Generate(cntI, cntJ, start), upload)
    ensures RowMajor(SortByIJ(upload), cntI, cntJ, start, start)
  {
    var t := Generate(cntI, cntJ, start);
    var s := SortByIJ(upload);
    GenerateRowMajor(cntI, cntJ, start);
    assert Keys(s) == Keys(t);
    forall q: nat, r: nat | q < cntI && r < cntJ
      ensures 0 <= Pos(q, r, cntJ) < |s| && s[Pos(q, r, cntJ)].i == start + q && s[Pos(q, r, cntJ)].j == start + r
    {
      PosBound(q, r, cntI, cntJ);
      assert Keys(s)[Pos(q, r, cntJ)] == Keys(t)[Pos(q, r, cntJ)];
    }
  }

  /** Lexicographic order on (I, J) pairs. */
  predicate PairLe(a: (int, int), b: (int, int)) {
    a.0 < b.0 || (a.0 == b.0 && a.1 <= b.1)
  }

  predicate SortedPairs(s: seq<(int, int)>) {
    forall k, l :: 0 <= k < l < |s| ==> PairLe(s[k], s[l])
  }

  lemma SortedKeys(s: seq<Point>)
    requires SortedByIJ(s)
    ensures SortedPairs(Keys(s))
  {
  }

  lemma KeysAppend(u: seq<Point>, v: seq<Point>)
    ensures Keys(u + v) == Keys(u) + Keys(v)
  {
  }

  lemma RemoveAt<T>(b: seq<T>, k: int)
    requires 0 <= k < |b|
    ensures multiset(b[..k] + b[k + 1..]) == multiset(b) - multiset{b[k]}
  {
    assert b == b[..k] + [b[k]] + b[k + 1..];
  }

  lemma KeysAt(b: seq<Point>, k: int)
    requires 0 <= k < |b|
    ensures multiset(Keys(b)) == multiset(Keys(b[..k] + b[k + 1..])) + multiset{(b[k].i, b[k].j)}
  {
    assert b == b[..k] + [b[k]] + b[k + 1..];
    KeysAppend(b[..k], [b[k]]);
    KeysAppend(b[..k] + [b[k]], b[k + 1..]);
    KeysAppend(b[..k], b[k + 1..]);
  }

  lemma KeysHead(a: seq<Point>)
    requires a != []
    ensures multiset(Keys(a)) == multiset(Keys(a[1..])) + multiset{(a[0].i, a[0].j)}
  {
    var r := [(a[0].i, a[0].j)] + Keys(a[1..]);
    forall k | 0 <= k < |a| ensures r[k] == Keys(a)[k] {
      if k > 0 { assert a[1..][k - 1] == a[k]; }
    }
    assert Keys(a) == r;
  }

  lemma KeysStep(ma: multiset<(int, int)>, ra: multiset<(int, int)>, mb: multiset<(int, int)>, rb: multiset<(int, int)>, x: (int, int))
    requires ma == ra + multiset{x} && mb == rb + multiset{x} && ra == rb
    ensures ma == mb
  {
  }

  /** Rearranging rows rearranges their keys alike. */
  lemma {:induction false} KeysCount(a: seq<Point>, b: seq<Point>)
    requires multiset(a) == multiset(b)
    ensures multiset(Keys(a)) == multiset(Keys(b))
    decreases |a|
  {
    assert |a| == |multiset(a)| == |multiset(b)| == |b|;
    if a != [] {
      assert a[0] in multiset(b);
      var k :| 0 <= k < |b| && b[k] == a[0];
      RemoveAt(b, k);
      TailCount(a);
      KeysCount(a[1..], b[..k] + b[k + 1..]);
      KeysAt(b, k);
      KeysHead(a);
      KeysStep(multiset(Keys(a)), multiset(Keys(a[1..])), multiset(Keys(b)), multiset(Keys(b[..k] + b[k + 1..])), (a[0].i, a[0].j));
    } else {
      assert b == [];
    }
  }

  lemma SortedPairsTail(a: seq<(int, int)>)
    requires SortedPairs(a) && a != []
    ensures SortedPairs(a[1..])
  {
    forall k, l | 0 <= k < l < |a[1..]| ensures PairLe(a[1..][k], a[1..][l]) {
      assert a[1..][k] == a[k + 1] && a[1..][l] == a[l + 1];
    }
  }

  /** There is one sorted arrangement of a multiset of pairs. */
  lemma {:induction false} SortedPairsUnique(a: seq<(int, int)>, b: seq<(int, int)>)
    requires SortedPairs(a) && SortedPairs(b) && multiset(a) == multiset(b)
    ensures a == b
    decreases |a|
  {
    assert |a| == |multiset(a)| == |multiset(b)| == |b|;
    if a != [] {
      assert a[0] in multiset(b) && b[0] in multiset(a);
      assert PairLe(b[0], a[0]) && PairLe(a[0], b[0]);
      TailsAgree(a, b);
      SortedPairsTail(a);
      SortedPairsTail(b);
      SortedPairsUnique(a[1..], b[1..]);
      assert a == [a[0]] + a[1..] && b == [b[0]] + b[1..];
    }
  }

  /**
    The intended check accepts an upload exactly when it holds the (I, J)
    pairs of the manual table, in whatever row order.
  */
  lemma UploadCheckIgnoresOrder(manual: seq<Point>, upload: seq<Point>)
    requires SortedByIJ(manual)
    ensures UploadCheck(manual, upload) <==> multiset(Keys(upload)) == multiset(Keys(manual))
  {
    var s := SortByIJ(upload);
    KeysCount(s, upload);
    SortByIJSorted(upload);
    SortedKeys(s);
    SortedKeys(manual);
    if multiset(Keys(upload)) == multiset(Keys(manual)) {
      SortedPairsUnique(Keys(s), Keys(manual));
    }
  }

  /** In particular any rearrangement of the generated rows, whatever their X, Y and values, is accepted. */
  lemma ReorderedUploadAccepted(cntI: nat, cntJ: nat, start: int, upload: seq<Point>)
    requires cntJ > 0
    ensures UploadCheck(Generate(cntI, cntJ, start), upload) <==>
      multiset(Keys(upload)) == multiset(Keys(Generate(cntI, cntJ, start)))
  {
    GenerateRowMajor(cntI, cntJ, start);
    RowMajorSorted(Generate(cntI, cntJ, start), cntI, cntJ, start, start);
    UploadCheckIgnoresOrder(Generate(cntI, cntJ, start), upload);
  }

  /** The generated table itself passes both checks. */
  lemma GeneratedAccepted(cntI: nat, cntJ: nat, start: int)
    requires cntJ > 0
    ensures UploadCheck(Generate(cntI, cntJ, start), Generate(cntI, cntJ, start))
  {
    var t := Generate(cntI, cntJ, start);
    GenerateRowMajor(cntI, cntJ, start);
    RowMajorSorted(t, cntI, cntJ, start, start);
    SortSortedIdentity(t);
  }

  // ---------------------------------------------------------------------
  // The colour range of step 3 (meshview.py:402-428)

  /** The values of the rows off the last I row and the last J column (meshview.py:403). */
  function Candidates(df: seq<Point>, maxI: int, maxJ: int): (vs: seq<real>)
    ensures forall v :: v in vs <==> exists p :: p in df && Owner(p, maxI, maxJ) && p.v == v
    decreases |df|
  {
    if df == [] then []
    else
      var last := df[|df| - 1];
      var prev := Candidates(df[..|df| - 1], maxI, maxJ);
      assert forall p :: p in df <==> p in df[..|df| - 1] || p == last by {
        assert df == df[..|df| - 1] + [last];
      }
      prev + (if Owner(last, maxI, maxJ) then [last.v] else [])
  }

  /** `vs.loc[vs != d]` on a value column. */
  function DropReal(vs: seq<real>, d: real): (r: seq<real>)
    ensures forall v :: v in r <==> v in vs && v != d
    decreases |vs|
  {
    if vs == [] then [] else (if vs[0] != d then [vs[0]] else []) + DropReal(vs[1..], d)
  }

  /** As written: the dummy is dropped only when it is truthy, so a dummy of 0.0 is kept (meshview.py:404). */
  function DropDummyAsWritten(vs: seq<real>, dummy: Option<real>): seq<real> {
    if dummy.Some? && dummy.value != 0.0 then DropReal(vs, dummy.value) else vs
  }

  /** As intended: the dummy is dropped whenever one is given, as the map and the plot do. */
  function DropDummy(vs: seq<real>, dummy: Option<real>): (r: seq<real>)
    ensures forall v :: v in r <==> v in vs && (dummy.None? || v != dummy.value)
  {
    if dummy.Some? then DropReal(vs, dummy.value) else vs
  }

  function SeqMin(vs: seq<real>): (m: real)
    requires |vs| > 0
    ensures m in vs && forall k :: 0 <= k < |vs| ==> m <= vs[k]
  {
    if |vs| == 1 then vs[0]
    else
      var rest := SeqMin(vs[1..]);
      assert forall k :: 1 <= k < |vs| ==> vs[k] == vs[1..][k - 1];
      if vs[0] <= rest then vs[0] else rest
  }

  function SeqMax(vs: seq<real>): (m: real)
    requires |vs| > 0
    ensures m in vs && forall k :: 0 <= k < |vs| ==> vs[k] <= m
  {
    if |vs| == 1 then vs[0]
    else
      var rest := SeqMax(vs[1..]);
      assert forall k :: 1 <= k < |vs| ==> vs[k] == vs[1..][k - 1];
      if vs[0] >= rest then vs[0] else rest
  }

  /** The range chosen: `range_v` and whether auto mode is on afterwards. */
  datatype RangeChoice = RangeChoice(range: Option<(real, real)>, auto: bool)

  /**
    The rule of meshview.py:406-428 on the remaining values: in auto mode
    min and max of the values (NaN, and so no valid range, when there are
    none), otherwise the two numbers the user typed; the range is kept only
    when min < max, and an invalid range switches auto mode on.
  */
  function ChooseRange(vs: seq<real>, auto: bool, userMin: real, userMax: real): (c: RangeChoice)
    ensures c.range.Some? ==> c.range.value.0 < c.range.value.1 && c.auto == auto
    ensures c.range.None? ==> c.auto
    ensures auto && vs != [] && c.range.Some? ==>
      c.range.value.0 in vs && c.range.value.1 in vs &&
      forall k :: 0 <= k < |vs| ==> c.range.value.0 <= vs[k] <= c.range.value.1
    ensures !auto ==> c.range == (if userMin < userMax then Some((userMin, userMax)) else None)
    ensures auto && vs == [] ==> c == RangeChoice(None, true)
    ensures auto && vs != [] ==> (c.range.Some? <==> exists k :: 0 <= k < |vs| && vs[k] != vs[0])
  {
    if auto then
      if vs == [] then RangeChoice(None, true)
      else
        var lo, hi := SeqMin(vs), SeqMax(vs);
        assert lo < hi ==> lo != vs[0] || hi != vs[0];
        if lo < hi then RangeChoice(Some((lo, hi)), auto) else RangeChoice(None, true)
    else if userMin < userMax then RangeChoice(Some((userMin, userMax)), auto)
    else RangeChoice(None, true)
  }

  /** The display range as written. */
  function DisplayRangeAsWritten(df: seq<Point>, maxI: int, maxJ: int, dummy: Option<real>,
                                 auto: bool, userMin: real, userMax: real): RangeChoice {
    ChooseRange(DropDummyAsWritten(Candidates(df, maxI, maxJ), dummy), auto, userMin, userMax)
  }

  /** The display range as intended. */
  function DisplayRange(df: seq<Point>, maxI: int, maxJ: int, dummy: Option<real>,
                        auto: bool, userMin: real, userMax: real): RangeChoice {
    ChooseRange(DropDummy(Candidates(df, maxI, maxJ), dummy), auto, userMin, userMax)
  }

  /** A non-zero dummy is dropped by both versions alike. */
  lemma NonZeroDummyAgrees(vs: seq<real>, d: real)
    requires d != 0.0
    ensures DropDummyAsWritten(vs, Some(d)) == DropDummy(vs, Some(d))
  {
  }

  /** A column of values 0.0, 1.0, 2.0 off the last row/column of a 4 x 2 grid, and its last row and column. */
  function ZeroDummyTable(): seq<Point> {
    [Point(0, 0, 0.0, 0.0, 0.0), Point(0, 1, 0.0, 0.0, 9.0),
     Point(1, 0, 0.0, 0.0, 1.0), Point(1, 1, 0.0, 0.0, 9.0),
     Point(2, 0, 0.0, 0.0, 2.0), Point(2, 1, 0.0, 0.0, 9.0),
     Point(3, 0, 0.0, 0.0, 9.0), Point(3, 1, 0.0, 0.0, 9.0)]
  }

  /**
    With dummy 0.0, the map and the plot hide the cell of value 0.0, but
    the range as written still starts at 0.0; the intended range is
    [1.0, 2.0].
  */
  lemma ZeroDummyWidensRange()
    ensures DisplayRangeAsWritten(ZeroDummyTable(), 3, 1, Some(0.0), true, 0.0, 0.0).range == Some((0.0, 2.0))
    ensures DisplayRange(ZeroDummyTable(), 3, 1, Some(0.0), true, 0.0, 0.0).range == Some((1.0, 2.0))
  {
    ZeroDummyCandidates();
    var vs := [0.0, 1.0, 2.0];
    assert vs[1..] == [1.0, 2.0] && vs[1..][1..] == [2.0];
    assert DropReal(vs, 0.0) == [1.0, 2.0];
    var ws := [1.0, 2.0];
    assert ws[1..] == [2.0];
  }

  lemma CandidatesSnoc(df: seq<Point>, p: Point, maxI: int, maxJ: int)
    ensures Candidates(df + [p], maxI, maxJ) == Candidates(df, maxI, maxJ) + (if Owner(p, maxI, maxJ) then [p.v] else [])
  {
    assert (df + [p])[..|df + [p]| - 1] == df;
  }

  lemma ZeroDummyCandidates()
    ensures Candidates(ZeroDummyTable(), 3, 1) == [0.0, 1.0, 2.0]
  {
    var df := ZeroDummyTable();
    var t0: seq<Point> := [];
    CandidatesSnoc(t0, df[0], 3, 1);
    var t1 := t0 + [df[0]];
    CandidatesSnoc(t1, df[1], 3, 1);
    var t2 := t1 + [df[1]];
    CandidatesSnoc(t2, df[2], 3, 1);
    var t3 := t2 + [df[2]];
    CandidatesSnoc(t3, df[3], 3, 1);
    var t4 := t3 + [df[3]];
    CandidatesSnoc(t4, df[4], 3, 1);
    var t5 := t4 + [df[4]];
    CandidatesSnoc(t5, df[5], 3, 1);
    var t6 := t5 + [df[5]];
    CandidatesSnoc(t6, df[6], 3, 1);
    var t7 := t6 + [df[6]];
    CandidatesSnoc(t7, df[7], 3, 1);
    assert t7 + [df[7]] == df;
  }

  /**
    The intended range looks at exactly the values of the cells the map
    and the plot draw: those of `set_gdf`'s cells left by the dummy filter
    of pkg/model.py:188-191.
  */
  lemma RangeValuesAreDrawnValues(df: seq<Point>, dummy: Option<real>)
    requires df != []
    ensures forall v :: v in DropDummy(Candidates(df, MaxI(df), MaxJ(df)), dummy) <==>
      exists c :: c in MeshCells(df) && c.v == v && (dummy.None? || c.v != dummy.value)
  {
    MeshCellsOwned(df);
    MeshCellsCover(df);
    forall v | v in DropDummy(Candidates(df, MaxI(df), MaxJ(df)), dummy)
      ensures exists c :: c in MeshCells(df) && c.v == v && (dummy.None? || c.v != dummy.value)
    {
      var p :| p in df && Owner(p, MaxI(df), MaxJ(df)) && p.v == v;
      var c :| c in MeshCells(df) && CellOf(c, p);
    }
    forall v | exists c :: c in MeshCells(df) && c.v == v && (dummy.None? || c.v != dummy.value)
      ensures v in DropDummy(Candidates(df, MaxI(df), MaxJ(df)), dummy)
    {
      var c :| c in MeshCells(df) && c.v == v && (dummy.None? || c.v != dummy.value);
      var p :| p in df && Owner(p, MaxI(df), MaxJ(df)) && CellOf(c, p);
    }
  }
  /**
    On a table step 3 can hold (the generated one, or an upload the
    intended check accepted), the closed-form max_i and max_j of
    meshview.py:361-362 are the table's own maxima, so the intended range
    values are exactly the values of the cells the map draws.
  */
  lemma StoredRangeValuesAreDrawnValues(cntI: nat, cntJ: nat, start: int, df: seq<Point>, dummy: Option<real>)
    requires cntI >= 1 && cntJ > 0
    requires UploadCheck(Generate(cntI, cntJ, start), df)
    ensures MaxI(df) == MaxIndex(cntI, start) && MaxJ(df) == MaxIndex(cntJ, start)
    ensures forall v :: v in DropDummy(Candidates(df, MaxIndex(cntI, start), MaxIndex(cntJ, start)), dummy) <==>
      exists c :: c in MeshCells(df) && c.v == v && (dummy.None? || c.v != dummy.value)
  {
    AcceptedUploadIsDense(cntI, cntJ, start, df);
    DenseMax(df, cntI, cntJ, start, start);
    RangeValuesAreDrawnValues(df, dummy);
  }

}
