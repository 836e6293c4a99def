/**
 createFileGrid once the directory has been enumerated: collect one record per
 file entry, in enumeration order, then insert one labelled rectangle per record
 at its grid cell. Inserting a vertex into the graph is modelled as appending it
 to the output sequence.
 */
module FileGrid {
  import opened Records
  import FileSize
  import Grid

  /** The style string every rectangle is inserted with. */
  const Style: string := "rounded=1;whiteSpace=wrap;html=1;fillColor=#f5f5f5;strokeColor=#666666;"

  /** An insertVertex call: label, rectangle and style. */
  datatype Vertex = Vertex(value: string, cell: Grid.Rect, style: string)

  /** The entries of kind 'file', in enumeration order. */
  function Files(entries: seq<Entry>): (files: seq<Entry>)
    ensures |files| <= |entries|
    ensures forall k :: 0 <= k < |files| ==> files[k].FileEntry? && files[k] in entries
  {
    if entries == [] then []
    else
      var last := entries[|entries| - 1];
      Files(entries[..|entries| - 1]) + (if last.FileEntry? then [last] else [])
  }

  /** Filtering commutes with concatenation, so the relative order of files is kept. */
  lemma {:induction false} FilesAppend(a: seq<Entry>, b: seq<Entry>)
    ensures Files(a + b) == Files(a) + Files(b)
  {
    if b == [] {
      assert a + b == a;
    } else {
      var b' := b[..|b| - 1];
      assert (a + b)[..|a + b| - 1] == a + b';
      FilesAppend(a, b');
    }
  }

  /** An entry is kept exactly when it is a file entry of the enumeration. */
  lemma {:induction false} FilesMembers(entries: seq<Entry>, e: Entry)
    ensures e in Files(entries) <==> e in entries && e.FileEntry?
  {
    if entries != [] {
      var front := entries[..|entries| - 1];
      FilesMembers(front, e);
      assert entries == front + [entries[|entries| - 1]];
    }
  }

  /** File entries are all kept, each once and in place. */
  lemma {:induction false} FilesOfOnlyFiles(entries: seq<Entry>)
    requires forall k :: 0 <= k < |entries| ==> entries[k].FileEntry?
    ensures Files(entries) == entries
  {
    if entries != [] {
      var front := entries[..|entries| - 1];
      FilesOfOnlyFiles(front);
      assert entries == front + [entries[|entries| - 1]];
    }
  }

  /** Directory entries are all dropped. */
  lemma {:induction false} FilesOfNoFiles(entries: seq<Entry>)
    requires forall k :: 0 <= k < |entries| ==> entries[k].DirectoryEntry?
    ensures Files(entries) == []
  {
    if entries != [] {
      FilesOfNoFiles(entries[..|entries| - 1]);
    }
  }

  /** Every file in the enumeration has a size the unit table can express. */
  predicate SizesInUnitRange(entries: seq<Entry>)
  {
    forall k :: 0 <= k < |entries| && entries[k].FileEntry? ==> FileSize.InUnitRange(entries[k].size)
  }

  /** The first loop of createFileGrid: one record per file entry, in enumeration order. */
  method CollectFiles(entries: seq<Entry>, host: Host) returns (files: seq<FileRecord>)
    requires SizesInUnitRange(entries)
    ensures |files| == |Files(entries)|
    ensures forall k :: 0 <= k < |files| ==> files[k] == Describe(Files(entries)[k], host)
  {
    files := [];
    var i := 0;
    while i < |entries|
      invariant 0 <= i <= |entries|
      invariant |files| == |Files(entries[..i])|
      invariant forall k :: 0 <= k < |files| ==> Describable(Files(entries[..i])[k])
      invariant forall k :: 0 <= k < |files| ==> files[k] == Describe(Files(entries[..i])[k], host)
    {
      var entry := entries[i];
      assert entries[..i + 1][..i] == entries[..i];
      if entry.FileEntry? {
        files := files + [Describe(entry, host)];
      }
      i := i + 1;
    }
    assert entries[..i] == entries;
  }

  /** The second loop of createFileGrid: one rectangle per record, at the record's grid cell. */
  method PlaceFiles(files: seq<FileRecord>) returns (vertices: seq<Vertex>)
    ensures |vertices| == |files|
    ensures forall k :: 0 <= k < |files| ==> vertices[k] == Vertex(Label(files[k]), Grid.CellAt(k), Style)
    ensures forall j, k :: 0 <= j < |vertices| && 0 <= k < |vertices| && j != k ==>
      !Grid.Overlap(vertices[j].cell, vertices[k].cell)
  {
    vertices := [];
    var index := 0;
    while index < |files|
      invariant 0 <= index <= |files|
      invariant |vertices| == index
      invariant forall k :: 0 <= k < index ==> vertices[k] == Vertex(Label(files[k]), Grid.CellAt(k), Style)
    {
      var col := index % Grid.ColumnsCount;
      var row := index / Grid.ColumnsCount;
      var x := Grid.StartX + col * (Grid.RectWidth + Grid.HorizontalGap);
      var y := Grid.StartY + row * (Grid.RectHeight + Grid.VerticalGap);
      vertices := vertices + [Vertex(Label(files[index]), Grid.Rect(x, y, Grid.RectWidth, Grid.RectHeight), Style)];
      index := index + 1;
    }
    forall j, k | 0 <= j < |vertices| && 0 <= k < |vertices| && j != k
      ensures !Grid.Overlap(vertices[j].cell, vertices[k].cell)
    {
      Grid.CellsDisjoint(j, k);
    }
  }

  /** createFileGrid after enumeration: one rectangle per file entry, in enumeration order,
      each labelled with its own file's record and placed at its own cell. */
  method CreateFileGrid(entries: seq<Entry>, host: Host) returns (vertices: seq<Vertex>)
    requires SizesInUnitRange(entries)
    ensures |vertices| == |Files(entries)|
    ensures forall k :: 0 <= k < |vertices| ==>
      vertices[k] == Vertex(Label(Describe(Files(entries)[k], host)), Grid.CellAt(k), Style)
    ensures forall j, k :: 0 <= j < |vertices| && 0 <= k < |vertices| && j != k ==>
      !Grid.Overlap(vertices[j].cell, vertices[k].cell)
  {
    var files := CollectFiles(entries, host);
    vertices := PlaceFiles(files);
  }

  /** A listing of four files gives four rectangles: three in row 0 and one starting row 1. */
  method FourFilesGrid(entries: seq<Entry>, host: Host) returns (vertices: seq<Vertex>)
    requires |entries| == 4 && SizesInUnitRange(entries)
    requires forall k :: 0 <= k < |entries| ==> entries[k].FileEntry?
    ensures |vertices| == 4
    ensures vertices[0].cell.y == vertices[1].cell.y == vertices[2].cell.y == Grid.StartY
    ensures vertices[0].cell.x < vertices[1].cell.x < vertices[2].cell.x
    ensures vertices[3].cell == Grid.Rect(Grid.StartX, Grid.StartY + Grid.RowPitch, Grid.RectWidth, Grid.RectHeight)
    ensures forall k :: 0 <= k < 4 ==> vertices[k].value == Label(Describe(entries[k], host))
  {
    FilesOfOnlyFiles(entries);
    vertices := CreateFileGrid(entries, host);
    Grid.FourFilesLayout();
    Grid.RowMajorOrder(0, 1);
    Grid.RowMajorOrder(1, 2);
  }
}
