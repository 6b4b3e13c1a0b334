/**
  The `Meshs` class of pkg/model.py: its constructor and `set_gdf`, the
  dummy-value filter shared by `choropleth_map` and `plot`, the location
  labels of the map, the `DRIVER2EXT` table and the member names of the
  three zip exporters.
*/
module Model {
  import opened Common
  import opened Grid
  import opened PyInt

  /** The GeoDataFrame `set_gdf` stores: column names, rows and CRS. */
  datatype GeoFrame = GeoFrame(columns: seq<string>, cells: seq<Cell>, crs: Option<int>)

  /** The frame `set_gdf` builds from an input table (pkg/model.py:127-148). */
  function GdfOf(df: seq<Point>, colI: string, colJ: string, colV: string, epsg: Option<int>): GeoFrame {
    GeoFrame([colI, colJ, colV, "geometry"], MeshCells(df), epsg)
  }

  class Meshs {
    var colI: string
    var colJ: string
    var colX: string
    var colY: string
    var colV: string
    var epsg: Option<int>
    var gdf: GeoFrame

    /** `Meshs(df, col_v, epsg)`, with the default column names I, J, X, Y. */
    constructor (df: seq<Point>, colV: string, epsg: Option<int>,
                 colI: string := "I", colJ: string := "J", colX: string := "X", colY: string := "Y")
      ensures this.colI == colI && this.colJ == colJ && this.colX == colX && this.colY == colY
      ensures this.colV == colV && this.epsg == epsg
      ensures gdf == GdfOf(df, colI, colJ, colV, epsg)
    {
      this.colI := colI;
      this.colJ := colJ;
      this.colX := colX;
      this.colY := colY;
      this.colV := colV;
      this.epsg := epsg;
      gdf := GeoFrame([], [], None);
      new;
      SetGdf(df);
    }

    /** `set_gdf`: replaces the frame and nothing else. */
    method SetGdf(df: seq<Point>)
      modifies this
      ensures gdf == GdfOf(df, colI, colJ, colV, epsg)
      ensures colI == old(colI) && colJ == old(colJ) && colX == old(colX) && colY == old(colY)
      ensures colV == old(colV) && epsg == old(epsg)
    {
      gdf := GdfOf(df, colI, colJ, colV, epsg);
    }

    /**
      The rows `choropleth_map` draws (pkg/model.py:188-197): the cells left
      by the dummy filter, each with its "I, J" location label. The frame
      itself is not touched.
    */
    method MapLocations(dummy: Option<real>) returns (labels: seq<string>, cells: seq<Cell>)
      ensures cells == FilterDummy(gdf.cells, dummy)
      ensures |labels| == |cells|
      ensures forall k :: 0 <= k < |cells| ==> labels[k] == Label(cells[k].i, cells[k].j)
    {
      cells := FilterDummy(gdf.cells, dummy);
      labels := seq(|cells|, k requires 0 <= k < |cells| => Label(cells[k].i, cells[k].j));
    }

    /** The rows `plot` draws (pkg/model.py:259-262); the frame itself is not touched. */
    method PlotCells(dummy: Option<real>) returns (cells: seq<Cell>)
      ensures cells == FilterDummy(gdf.cells, dummy)
    {
      if dummy.Some? {
        cells := DropValue(gdf.cells, dummy.value);
      } else {
        cells := gdf.cells;
      }
    }
  }

  // ---------------------------------------------------------------------
  // Dummy-value filter

  /** The rows whose value differs from d, in their order (`gdf.loc[gdf[col_v] != d]`). */
  function DropValue(cells: seq<Cell>, d: real): (r: seq<Cell>)
    ensures |r| <= |cells|
    ensures forall c :: c in r <==> c in cells && c.v != d
  {
    if cells == [] then []
    else (if cells[0].v != d then [cells[0]] else []) + DropValue(cells[1..], d)
  }

  /** No dummy keeps every row; a dummy d keeps exactly the rows whose value is not d. */
  function FilterDummy(cells: seq<Cell>, dummy: Option<real>): (r: seq<Cell>)
    ensures dummy.None? ==> r == cells
    ensures forall c :: c in r <==> c in cells && (dummy.None? || c.v != dummy.value)
  {
    match dummy
    case None => cells
    case Some(d) => DropValue(cells, d)
  }

  /** The filter works row by row: filtering a concatenation concatenates the filtered parts, so order is kept. */
  lemma {:induction false} DropValueAppend(a: seq<Cell>, b: seq<Cell>, d: real)
    ensures DropValue(a + b, d) == DropValue(a, d) + DropValue(b, d)
    decreases |a|
  {
    if a == [] {
      assert a + b == b;
    } else {
      assert (a + b)[0] == a[0];
      assert (a + b)[1..] == a[1..] + b;
      DropValueAppend(a[1..], b, d);
    }
  }

  /** A row survives alone exactly when its value is not the dummy. */
  lemma DropValueSingle(c: Cell, d: real)
    ensures DropValue([c], d) == if c.v != d then [c] else []
  {
    assert [c][1..] == [];
  }

  /** Filtering twice is filtering once. */
  lemma {:induction false} DropValueIdempotent(cells: seq<Cell>, d: real)
    ensures DropValue(DropValue(cells, d), d) == DropValue(cells, d)
    decreases |cells|
  {
    if cells != [] {
      var head := if cells[0].v != d then [cells[0]] else [];
      DropValueIdempotent(cells[1..], d);
      DropValueAppend(head, DropValue(cells[1..], d), d);
      if cells[0].v != d {
        DropValueSingle(cells[0], d);
      }
    }
  }

  /** A filter with no dummy in it keeps everything. */
  lemma {:induction false} DropValueAbsent(cells: seq<Cell>, d: real)
    requires forall k :: 0 <= k < |cells| ==> cells[k].v != d
    ensures DropValue(cells, d) == cells
    decreases |cells|
  {
    if cells != [] {
      DropValueAbsent(cells[1..], d);
    }
  }

  // ---------------------------------------------------------------------
  // Location labels of the map

  /** f"{i}, {j}": the label `choropleth_map` gives a cell (pkg/model.py:193-196). */
  function Label(i: int, j: int): string {
    IntToString(i) + ", " + IntToString(j)
  }

  /** Two strings without a comma, each followed by ", ", split one way only. */
  lemma SplitAtComma(a: string, b: string, c: string, d: string)
    requires forall k :: 0 <= k < |a| ==> a[k] != ','
    requires forall k :: 0 <= k < |c| ==> c[k] != ','
    requires a + ", " + b == c + ", " + d
    ensures a == c && b == d
  {
    var x := a + ", " + b;
    assert x[|a|] == ',' && x[|c|] == ',';
    assert |a| == |c|;
    assert a == x[..|a|] && c == x[..|c|];
    assert b == x[|a| + 2..] && d == x[|c| + 2..];
  }

  lemma RenderedHasNoComma(n: int)
    ensures forall k :: 0 <= k < |IntToString(n)| ==> IntToString(n)[k] != ','
  {
    var s := IntToString(n);
    if n < 0 {
      var m: nat := -n;
      var digits := NatToString(m);
      assert s == "-" + digits;
      forall k | 0 <= k < |s| ensures s[k] != ',' {
        if k > 0 { assert s[k] == digits[k - 1]; }
      }
    }
  }

  /** Different cells get different labels: the label determines I and J. */
  lemma LabelInjective(i: int, j: int, i': int, j': int)
    requires Label(i, j) == Label(i', j')
    ensures i == i' && j == j'
  {
    RenderedHasNoComma(i);
    RenderedHasNoComma(i');
    SplitAtComma(IntToString(i), IntToString(j), IntToString(i'), IntToString(j'));
    RenderInjective(i, i');
    RenderInjective(j, j');
  }

  // ---------------------------------------------------------------------
  // GIS drivers and archive members

  /** `DRIVER2EXT` (pkg/model.py:30-34). */
  const DriverExt: map<string, string> := map["ESRI Shapefile" := "shp", "GeoJSON" := "geojson", "GPKG" := "gpkg"]

  /** A directory entry of the shape `glob("mesh.*")` matches. */
  predicate MeshEntry(name: string) {
    |name| >= 5 && name[..5] == "mesh."
  }

  /** The three drivers map to three different extensions, so the member `mesh.<ext>` names its driver. */
  lemma DriverExtInjective(a: string, b: string)
    requires a in DriverExt && b in DriverExt && DriverExt[a] == DriverExt[b]
    ensures a == b
  {
  }

  /** `os.path.join(dir, name)` (POSIX). */
  function Join(dir: string, name: string): string {
    if |name| > 0 && name[0] == '/' then name
    else if dir == [] || dir[|dir| - 1] == '/' then dir + name
    else dir + "/" + name
  }

  /** `os.path.basename(p)` (POSIX): the text after the last '/'. */
  function Basename(p: string): (b: string)
    ensures forall k :: 0 <= k < |b| ==> b[k] != '/'
    decreases |p|
  {
    if p == [] || p[|p| - 1] == '/' then [] else Basename(p[..|p| - 1]) + [p[|p| - 1]]
  }

  lemma {:induction false} BasenameAfterSlash(dir: string, name: string)
    requires dir == [] || dir[|dir| - 1] == '/'
    requires forall k :: 0 <= k < |name| ==> name[k] != '/'
    ensures Basename(dir + name) == name
    decreases |name|
  {
    if name == [] {
      assert dir + name == dir;
    } else {
      var init := name[..|name| - 1];
      BasenameAfterSlash(dir, init);
      assert (dir + name)[..|dir + name| - 1] == dir + init;
      assert (dir + name)[|dir + name| - 1] == name[|name| - 1];
      assert init + [name[|name| - 1]] == name;
    }
  }

  /** The archive name of a file written into a directory is the file's own name. */
  lemma BasenameJoin(dir: string, name: string)
    requires forall k :: 0 <= k < |name| ==> name[k] != '/'
    ensures Basename(Join(dir, name)) == name
  {
    if |name| > 0 {
      assert name[0] != '/';
    }
    if dir == [] || dir[|dir| - 1] == '/' {
      BasenameAfterSlash(dir, name);
    } else {
      assert dir + "/" + name == (dir + "/") + name;
      BasenameAfterSlash(dir + "/", name);
    }
  }

  /** The member names written into an archive, in order. */
  class ZipArchive {
    var members: seq<string>

    constructor ()
      ensures members == []
    {
      members := [];
    }

    /** `zf.write(..., arcname=name)` or `zf.writestr(name, ...)`. */
    method Add(name: string)
      modifies this
      ensures members == old(members) + [name]
    {
      members := members + [name];
    }
  }

  /** `zip_plot`: one member, the base name of `<tmpdir>/plot.<ext>` (pkg/model.py:304-318). */
  method ZipPlot(tmpdir: string, ext: string) returns (zf: ZipArchive)
    ensures fresh(zf)
    ensures zf.members == [Basename(Join(tmpdir, "plot." + ext))]
  {
    zf := new ZipArchive();
    var filepath := Join(tmpdir, "plot." + ext);
    zf.Add(Basename(filepath));
  }

  /** `zip_map`: one member, `map.html` (pkg/model.py:339-351). */
  method ZipMap() returns (zf: ZipArchive)
    ensures fresh(zf)
    ensures zf.members == ["map.html"]
  {
    zf := new ZipArchive();
    zf.Add("map.html");
  }

  /** `glob(join(tmpdir, "mesh.*"))` over the entries of tmpdir, in listing order. */
  function GlobMesh(tmpdir: string, entries: seq<string>): (paths: seq<string>)
    ensures |paths| <= |entries|
    decreases |entries|
  {
    if entries == [] then []
    else
      var last := entries[|entries| - 1];
      GlobMesh(tmpdir, entries[..|entries| - 1]) + (if MeshEntry(last) then [Join(tmpdir, last)] else [])
  }

  function Basenames(paths: seq<string>): (names: seq<string>)
    ensures |names| == |paths|
    decreases |paths|
  {
    if paths == [] then [] else Basenames(paths[..|paths| - 1]) + [Basename(paths[|paths| - 1])]
  }

  /** The entries `glob("mesh.*")` matches, by name, in listing order. */
  function MeshEntries(entries: seq<string>): seq<string>
    decreases |entries|
  {
    if entries == [] then []
    else
      var last := entries[|entries| - 1];
      MeshEntries(entries[..|entries| - 1]) + (if MeshEntry(last) then [last] else [])
  }

  /**
    `zip_gis`: after `to_file(join(tmpdir, "mesh.<ext>"), driver)` has
    written into tmpdir, every path the glob finds is added under its base
    name (pkg/model.py:384-403). The driver and the extension act only
    through what `to_file` writes, so the model takes the directory's
    entries after that call in their place.
  */
  method ZipGis(tmpdir: string, entries: seq<string>) returns (zf: ZipArchive)
    ensures fresh(zf)
    ensures zf.members == Basenames(GlobMesh(tmpdir, entries))
  {
    zf := new ZipArchive();
    var files := GlobMesh(tmpdir, entries);
    var k := 0;
    while k < |files|
      invariant 0 <= k <= |files|
      invariant zf.members == Basenames(files[..k])
    {
      assert files[..k + 1][..k] == files[..k];
      zf.Add(Basename(files[k]));
      k := k + 1;
    }
    assert files[..|files|] == files;
  }

  /** Directory entries hold no '/', so `zip_plot`'s member is `plot.<ext>` when ext holds none. */
  lemma ZipPlotMember(tmpdir: string, ext: string)
    requires forall k :: 0 <= k < |ext| ==> ext[k] != '/'
    ensures Basename(Join(tmpdir, "plot." + ext)) == "plot." + ext
  {
    var name := "plot." + ext;
    forall k | 0 <= k < |name| ensures name[k] != '/' {
      if k >= 5 { assert name[k] == ext[k - 5]; }
    }
    BasenameJoin(tmpdir, name);
  }

  /**
    On entries without '/', `zip_gis` archives exactly the `mesh.*` entries
    under their own names, in listing order.
  */
  lemma {:induction false} ZipGisMembers(tmpdir: string, entries: seq<string>)
    requires forall e, k :: e in entries && 0 <= k < |e| ==> e[k] != '/'
    ensures Basenames(GlobMesh(tmpdir, entries)) == MeshEntries(entries)
    decreases |entries|
  {
    if entries != [] {
      var init := entries[..|entries| - 1];
      var last := entries[|entries| - 1];
      ZipGisMembers(tmpdir, init);
      var prev := GlobMesh(tmpdir, init);
      if MeshEntry(last) {
        var all := prev + [Join(tmpdir, last)];
        assert all[..|all| - 1] == prev;
        BasenameJoin(tmpdir, last);
      } else {
        assert GlobMesh(tmpdir, entries) == prev;
      }
    }
  }

  /** The members `zip_gis` names are exactly the `mesh.*` entries of the directory. */
  lemma {:induction false} MeshEntriesAreEntries(entries: seq<string>)
    ensures forall n :: n in MeshEntries(entries) <==> n in entries && MeshEntry(n)
    decreases |entries|
  {
    if entries != [] {
      var init := entries[..|entries| - 1];
      MeshEntriesAreEntries(init);
      assert entries == init + [entries[|entries| - 1]];
    }
  }

  /** The file `to_file` was asked to write, `mesh.<ext>`, is archived once it is in the directory. */
  lemma ZipGisKeepsTarget(tmpdir: string, entries: seq<string>, ext: string)
    requires forall e, k :: e in entries && 0 <= k < |e| ==> e[k] != '/'
    requires "mesh." + ext in entries
    ensures "mesh." + ext in Basenames(GlobMesh(tmpdir, entries))
  {
    ZipGisMembers(tmpdir, entries);
    MeshEntriesAreEntries(entries);
    assert ("mesh." + ext)[..5] == "mesh.";
  }
}
