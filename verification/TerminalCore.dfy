/**
  The terminal core over its native handle, its retained rows and its update
  builder. Its methods do what the transitions of `CoreModel` say.
  */
module TerminalCore {
  import opened Bytes
  import opened Options
  import opened RenderModel
  import opened NativeTerminal
  import opened CoreModel
  import opened RowCache
  import P = PackedUpdate
  import R = LeaseRing
  import S = UpdateSlot
  import U = RenderUpdateBuilder

  /** The native render state behind its handle; its flags are cleared one at a time. */
  class NativeRender {
    var render: Render

    constructor (render: Render)
      ensures this.render == render
    {
      this.render := render;
    }

    method ClearRow(row: U32)
      modifies this
      ensures render == old(render).(rowDirty := old(render).rowDirty - {row})
    {
      render := render.(rowDirty := render.rowDirty - {row});
    }

    method ClearLevel()
      modifies this
      ensures render == old(render).(level := Clean)
    {
      render := render.(level := Clean);
    }
  }

  ghost function AllCells(rows: seq<RowBox>): set<CellBox> {
    set row, cell | row in rows && cell in row.cells :: cell
  }

  ghost function AllColors(rows: seq<RowBox>): set<ColorBox> {
    set row, color | row in rows && color in row.palette :: color
  }

  /** The row sits at place `r`, is `cols` wide, and shows this value. */
  ghost predicate RowHolds(row: RowBox, r: nat, cols: nat, value: Row)
    reads row, row.cells, row.palette
  {
    row.row == r && |row.cells| == cols && row.Valid() && row.Value() == value
  }

  ghost predicate Holds(rows: seq<RowBox>, cols: nat, values: seq<Row>)
    reads rows, AllCells(rows), AllColors(rows)
  {
    && |values| == |rows|
    && forall r | 0 <= r < |rows| ::
         assert rows[r] in rows && forall cell | cell in rows[r].cells :: cell in AllCells(rows);
         RowHolds(rows[r], r, cols, values[r])
  }

  /** Rows at different places share neither cells nor colors. */
  lemma RowsApart(one: RowBox, i: nat, other: RowBox, j: nat)
    requires i != j && one.row == i && other.row == j
    requires forall cell | cell in one.cells :: cell.row == i
    requires forall cell | cell in other.cells :: cell.row == j
    requires forall color | color in one.palette :: color.row == i
    requires forall color | color in other.palette :: color.row == j
    ensures one != other && one.palette !! other.palette
    ensures forall cell | cell in other.cells :: cell !in one.cells
  {
  }

  /** A row none of whose objects changed shows what it showed. */
  twostate lemma SameRow(row: RowBox)
    requires old(row.Valid()) && unchanged(row) && unchanged(row.cells) && unchanged(row.palette)
    ensures row.Valid() && row.Value() == old(row.Value())
  {
  }

  /**
    Whatever has been read, swapped or resized so far: a cell's two color objects
    differ, and two cells of the cache are different objects that share neither.
    */
  lemma ColorsApart(rows: seq<RowBox>, cols: nat, values: seq<Row>, r: nat, c: nat, q: nat, d: nat)
    requires Holds(rows, cols, values) && r < |rows| && q < |rows| && c < cols && d < cols
    ensures var one, other := rows[r].cells[c], rows[q].cells[d];
            && one.foreground != one.background
            && ((r, c) != (q, d) ==>
                  one != other && {one.foreground, one.background} !! {other.foreground, other.background})
  {
    assert RowHolds(rows[r], r, cols, values[r]) && RowHolds(rows[q], q, cols, values[q]);
  }

  /** Overwrite row `r`; no other row changes. */
  method ReadRow(rows: seq<RowBox>, r: nat, native: NativeRow, defaults: Colors, ghost cols: nat,
                 ghost values: seq<Row>)
    requires r < |rows| && Holds(rows, cols, values)
    modifies rows[r], rows[r].cells, rows[r].palette
    ensures Holds(rows, cols, values[r := VisibleRow(native, cols, defaults)])
  {
    hide VisibleRow, Values;
    assert RowHolds(rows[r], r, cols, values[r]);
    rows[r].Read(native, defaults);
    ghost var after := values[r := VisibleRow(native, cols, defaults)];
    forall j | 0 <= j < |rows| ensures RowHolds(rows[j], j, cols, after[j]) {
      assert old(RowHolds(rows[j], j, cols, values[j]));
      if j != r {
        RowsApart(rows[r], r, rows[j], j);
        SameRow(rows[j]);
      }
    }
  }

  /** A blank row of new cells. */
  method MakeRow(ghost r: nat, cols: nat, defaults: Colors) returns (row: RowBox)
    ensures fresh(row) && fresh(row.cells) && fresh(row.palette)
    ensures RowHolds(row, r, cols, BlankRow(cols, defaults))
  {
    var cells: seq<CellBox> := [];
    ghost var palette: set<ColorBox> := {};
    for c := 0 to cols
      invariant |cells| == c && fresh(cells) && fresh(palette)
      invariant CellsOk(cells, r, palette) && forall color | color in palette :: color.row == r
      invariant Values(cells, palette, c) == seq(c, _ => BlankCell(defaults))
    {
      cells, palette := AddCell(cells, r, palette, defaults);
    }
    row := new RowBox(cells, r, palette);
  }

  /** One more blank cell. */
  method AddCell(cells: seq<CellBox>, ghost r: nat, ghost palette: set<ColorBox>, defaults: Colors)
    returns (more: seq<CellBox>, ghost colors: set<ColorBox>)
    requires CellsOk(cells, r, palette) && forall color | color in palette :: color.row == r
    ensures |more| == |cells| + 1 && more[..|cells|] == cells && fresh(more[|cells|]) && fresh(colors - palette)
    ensures CellsOk(more, r, colors) && forall color | color in colors :: color.row == r
    ensures Values(more, colors, |more|) == old(Values(cells, palette, |cells|)) + [BlankCell(defaults)]
  {
    var cell := new CellBox(defaults, r, |cells|);
    more := cells + [cell];
    colors := palette + {cell.foreground, cell.background};
    ValuesPrefix(cells, palette, more, colors, |cells|);
  }

  lemma {:induction false} ValuesPrefix(cells: seq<CellBox>, palette: set<ColorBox>, more: seq<CellBox>,
                                        colors: set<ColorBox>, n: nat)
    requires n <= |cells| <= |more| && more[..|cells|] == cells
    requires forall c | 0 <= c < |cells| :: cells[c].foreground in palette && cells[c].background in palette
    requires forall c | 0 <= c < |more| :: more[c].foreground in colors && more[c].background in colors
    ensures Values(more, colors, n) == Values(cells, palette, n)
  {
    if n > 0 {
      ValuesPrefix(cells, palette, more, colors, n - 1);
    }
  }

  /** Blank rows for a cache of the given size. */
  method MakeRows(count: nat, cols: nat, defaults: Colors) returns (rows: seq<RowBox>)
    ensures fresh(rows) && fresh(AllCells(rows)) && fresh(AllColors(rows))
    ensures Holds(rows, cols, seq(count, _ => BlankRow(cols, defaults)))
  {
    rows := [];
    for r := 0 to count
      invariant |rows| == r && fresh(rows)
      invariant forall j | 0 <= j < r :: fresh(rows[j].cells) && fresh(rows[j].palette)
      invariant forall j | 0 <= j < r :: RowHolds(rows[j], j, cols, BlankRow(cols, defaults))
    {
      var row := MakeRow(r, cols, defaults);
      rows := rows + [row];
    }
  }

  /** `ReadRow` as one of the rows of the cache. */
  method ReadRowOf(rows: seq<RowBox>, r: nat, native: NativeRow, defaults: Colors, ghost cols: nat,
                   ghost values: seq<Row>)
    requires r < |rows| && Holds(rows, cols, values)
    modifies rows, AllCells(rows), AllColors(rows)
    ensures Holds(rows, cols, values[r := VisibleRow(native, cols, defaults)])
  {
    assert rows[r] in rows;
    assert forall cell | cell in rows[r].cells :: cell in AllCells(rows);
    assert forall color | color in rows[r].palette :: color in AllColors(rows);
    ReadRow(rows, r, native, defaults, cols, values);
  }

  /** Clear one row's flag; no retained row notices. */
  method AcknowledgeRow(native: NativeRender, k: U32, rows: seq<RowBox>, ghost cols: nat, ghost values: seq<Row>)
    requires Holds(rows, cols, values)
    modifies native
    ensures Holds(rows, cols, values)
    ensures native.render == old(native.render).(rowDirty := old(native.render).rowDirty - {k})
  {
    native.ClearRow(k);
  }

  /** Read row `k` if it is dirty, and acknowledge it if asked to. */
  method ReadIfDirty(native: NativeRender, rows: seq<RowBox>, k: nat, defaults: Colors, consume: bool,
                     ghost cols: nat, ghost values: seq<Row>) returns (dirty: bool)
    requires Holds(rows, cols, values) && k < |rows| < 0x1_0000 && k < |native.render.grid.lines|
    modifies native, rows, AllCells(rows), AllColors(rows)
    ensures dirty == old(native.render.level == Full || k in native.render.rowDirty)
    ensures var line := old(native.render).grid.lines[k];
            Holds(rows, cols, if dirty then values[k := VisibleRow(line, cols, defaults)] else values)
    ensures native.render == if dirty && consume then old(native.render).(rowDirty := old(native.render).rowDirty - {k})
                             else old(native.render)
  {
    dirty := native.render.level == Full || k in native.render.rowDirty;
    if dirty {
      ReadRowOf(rows, k, native.render.grid.lines[k], defaults, cols, values);
      if consume {
        AcknowledgeRow(native, k, rows, cols, values[k := VisibleRow(native.render.grid.lines[k], cols, defaults)]);
      }
    }
  }

  /** The members of `read` below `k`. */
  ghost function Below(read: set<U32>, k: nat): set<U32> {
    set r | r in read && r < k
  }

  /** The flags left once these rows are acknowledged. */
  ghost function Without(render: Render, taken: set<U32>, consume: bool): Render {
    if consume then render.(rowDirty := render.rowDirty - taken) else render
  }

  lemma BelowNext(render: Render, count: U16, k: U32)
    requires render.level != Clean && k < count && k < |render.grid.lines|
    ensures var read := RowsToRead(render, count);
            var dirty := render.level == Full || k in render.rowDirty;
            && Below(read, k + 1) == (if dirty then Below(read, k) + {k} else Below(read, k))
            && k !in Below(read, k)
  {
    assert render.level == Full || k in render.rowDirty <==> k in RowsToRead(render, count);
  }

  lemma AfterReadOf(before: seq<Row>, render: Render, defaults: Colors, cols: nat, read: set<U32>, k: U32)
    requires k < |before| && |before[k].cells| == cols && k < |render.grid.lines|
    requires forall r | r in read :: r < |render.grid.lines|
    ensures AfterRead(before, render, defaults, read + {k})
            == AfterRead(before, render, defaults, read)[k := VisibleRow(render.grid.lines[k], cols, defaults)]
  {
    hide VisibleRow, AfterRead;
  }

  lemma WithoutOf(render: Render, taken: set<U32>, k: U32, consume: bool)
    ensures var left := Without(render, taken, consume);
            && Without(render, taken + {k}, consume)
               == (if consume then left.(rowDirty := left.rowDirty - {k}) else left)
            && left.grid == render.grid && left.level == render.level
            && (k !in taken ==> (k in left.rowDirty <==> k in render.rowDirty))
  {
    assert render.rowDirty - (taken + {k}) == render.rowDirty - taken - {k};
  }

  /** Reading row `k` next extends what has been read below `k`. */
  lemma OneMoreRead(before: seq<Row>, render: Render, defaults: Colors, cols: nat, k: U32, consume: bool)
    requires render.level != Clean && k < |before| < 0x1_0000 && k < |render.grid.lines|
    requires forall row | row in before :: |row.cells| == cols
    ensures var read := RowsToRead(render, |before|);
            var dirty := render.level == Full || k in render.rowDirty;
            var values := AfterRead(before, render, defaults, Below(read, k));
            var left := Without(render, Below(read, k), consume);
            && Below(read, k + 1) == (if dirty then Below(read, k) + {k} else Below(read, k))
            && AfterRead(before, render, defaults, Below(read, k + 1))
               == (if dirty then values[k := VisibleRow(render.grid.lines[k], cols, defaults)] else values)
            && Without(render, Below(read, k + 1), consume)
               == (if dirty && consume then left.(rowDirty := left.rowDirty - {k}) else left)
            && k !in Below(read, k)
            && left.grid == render.grid && left.level == render.level && (k in left.rowDirty <==> k in render.rowDirty)
  {
    assert before[k] in before;
    var below := Below(RowsToRead(render, |before|), k);
    assert forall r | r in below :: r < |render.grid.lines|;
    BelowNext(render, |before|, k);
    hide VisibleRow, AfterRead, Below, Without, RowsToRead;
    AfterReadOf(before, render, defaults, cols, below, k);
    WithoutOf(render, below, k, consume);
  }

  /** The iterator reaches every row there is to read. */
  lemma AllBelow(render: Render, count: U16, k: nat)
    requires k == count || k >= |render.grid.lines|
    ensures Below(RowsToRead(render, count), k) == RowsToRead(render, count)
  {
  }

  /** What has been read and acknowledged after the first `k` rows. */
  ghost predicate ReadUpTo(native: NativeRender, rows: seq<RowBox>, cols: nat, before: seq<Row>, was: Render,
                           defaults: Colors, consume: bool, dirtyRows: set<U32>, k: nat)
    requires |before| < 0x1_0000 && forall r | r in dirtyRows :: r < |was.grid.lines|
    reads native, rows, AllCells(rows), AllColors(rows)
  {
    && dirtyRows == Below(RowsToRead(was, |before|), k)
    && native.render == Without(was, dirtyRows, consume)
    && Holds(rows, cols, AfterRead(before, was, defaults, dirtyRows))
  }

  method ReadNext(native: NativeRender, rows: seq<RowBox>, k: nat, defaults: Colors, consume: bool, dirtyRows: set<U32>,
                  ghost cols: nat, ghost before: seq<Row>, ghost was: Render) returns (more: set<U32>)
    requires was.level != Clean && k < |rows| == |before| < 0x1_0000 && k < |was.grid.lines|
    requires forall row | row in before :: |row.cells| == cols
    requires forall r | r in dirtyRows :: r < |was.grid.lines|
    requires ReadUpTo(native, rows, cols, before, was, defaults, consume, dirtyRows, k)
    modifies native, rows, AllCells(rows), AllColors(rows)
    ensures forall r | r in more :: r < |was.grid.lines|
    ensures ReadUpTo(native, rows, cols, before, was, defaults, consume, more, k + 1)
    ensures native.render.grid == was.grid
  {
    OneMoreRead(before, was, defaults, cols, k, consume);
    hide Holds, VisibleRow;
    var dirty := ReadIfDirty(native, rows, k, defaults, consume, cols, AfterRead(before, was, defaults, dirtyRows));
    more := if dirty then dirtyRows + {k} else dirtyRows;
  }

  /** Read the rows the iterator reports dirty, acknowledging each if asked to. */
  method ReadDirtyRows(native: NativeRender, rows: seq<RowBox>, ghost cols: nat, ghost before: seq<Row>,
                       defaults: Colors, consume: bool)
    returns (dirtyRows: set<U32>)
    requires Holds(rows, cols, before) && |rows| < 0x1_0000 && native.render.level != Clean
    requires forall row | row in before :: |row.cells| == cols
    modifies native, rows, AllCells(rows), AllColors(rows)
    ensures dirtyRows == RowsToRead(old(native.render), |rows|)
    ensures Holds(rows, cols, AfterRead(before, old(native.render), defaults, dirtyRows))
    ensures native.render == Without(old(native.render), dirtyRows, consume)
  {
    ghost var was := native.render;
    dirtyRows := {};
    var rowIndex := 0;
    assert AfterRead(before, was, defaults, {}) == before && |before| == |rows|;
    hide Holds, AfterRead, RowsToRead, VisibleRow;
    while rowIndex < |rows| && rowIndex < |native.render.grid.lines|
      invariant rowIndex <= |rows| && native.render.grid == was.grid
      invariant forall r | r in dirtyRows :: r < |was.grid.lines|
      invariant ReadUpTo(native, rows, cols, before, was, defaults, consume, dirtyRows, rowIndex)
    {
      dirtyRows := ReadNext(native, rows, rowIndex, defaults, consume, dirtyRows, cols, before, was);
      rowIndex := rowIndex + 1;
    }
    AllBelow(was, |rows|, rowIndex);
  }

  /** Clear the global level; no row notices. */
  method Acknowledge(native: NativeRender, rows: seq<RowBox>, ghost cols: nat, ghost values: seq<Row>)
    requires Holds(rows, cols, values)
    modifies native
    ensures Holds(rows, cols, values) && native.render == old(native.render).(level := Clean)
  {
    native.ClearLevel();
  }

  /** The dirty part of a snapshot: nothing when the render state is clean. */
  method RefreshRows(native: NativeRender, rows: seq<RowBox>, ghost cols: nat, ghost before: seq<Row>,
                     defaults: Colors, consume: bool)
    returns (dirtyRows: set<U32>)
    requires Holds(rows, cols, before) && |rows| < 0x1_0000 && forall row | row in before :: |row.cells| == cols
    modifies native, rows, AllCells(rows), AllColors(rows)
    ensures dirtyRows == RowsToRead(old(native.render), |rows|)
    ensures Holds(rows, cols, AfterRead(before, old(native.render), defaults, dirtyRows))
    ensures native.render == if consume then Acknowledged(old(native.render), dirtyRows) else old(native.render)
  {
    dirtyRows := {};
    ghost var was := native.render;
    assert AfterRead(before, was, defaults, {}) == before;
    if native.render.level != Clean {
      dirtyRows := ReadDirtyRows(native, rows, cols, before, defaults, consume);
      if consume {
        Acknowledge(native, rows, cols, AfterRead(before, was, defaults, dirtyRows));
      }
    }
  }

  /** Copy a retained row; the program hands out the row itself. */
  method CopyRow(row: RowBox) returns (copy: Row)
    requires row.Valid()
    ensures copy == row.Value()
  {
    var cells := [];
    for c := 0 to |row.cells|
      invariant cells == Values(row.cells, row.palette, c)
    {
      cells := cells + [row.cells[c].Value()];
    }
    copy := Row(cells, row.text, row.isWrapContinuation, row.wrapsToNext);
  }

  method CopyRows(rows: seq<RowBox>, ghost cols: nat, ghost values: seq<Row>) returns (copy: seq<Row>)
    requires Holds(rows, cols, values)
    ensures copy == values
  {
    copy := [];
    for r := 0 to |rows|
      invariant copy == values[..r]
    {
      assert RowHolds(rows[r], r, cols, values[r]);
      var row := CopyRow(rows[r]);
      copy := copy + [row];
    }
  }

  /** Build an update in a slot known to be free; the retained rows do not notice. */
  method BuildBeside(builder: U.GhosttyRenderUpdateBuilder, s: RenderModel.Snapshot, frameId: int, generation: int,
                     full: bool, now: real, ghost rows: seq<RowBox>, ghost cols: nat, ghost values: seq<Row>)
    returns (lease: U.Lease)
    requires Holds(rows, cols, values) && builder.Valid() && R.FirstFree(builder.ring.slots) < |builder.slots|
    modifies builder, builder.slots, builder.FreeBuffers()
    ensures Holds(rows, cols, values)
    ensures builder.Valid() && builder.ring == R.Acquire(old(builder.ring)).1
    ensures fresh(lease.update) && lease.update.Fits()
            && lease.update.Contents() == P.Pack(s, frameId, generation, full)
    ensures builder.held == old(builder.held)[lease.slotId := lease.update] && lease.slotId !in old(builder.held)
    ensures old(builder.Accounted()) ==> builder.Accounted()
    ensures forall j | j in old(builder.held) :: old(builder.held)[j].Contents() == old(builder.held[j].Contents())
  {
    hide U.GhosttyRenderUpdateBuilder.Accounted, U.GhosttyRenderUpdateBuilder.Valid, P.Pack, S.RenderUpdate.Contents;
    hide R.Acquire, S.RenderUpdate.Fits, U.Grown;
    var built := builder.TryBuild(s, frameId, generation, full, now);
    lease := built.value;
    forall r | 0 <= r < |rows| ensures RowHolds(rows[r], r, cols, values[r]) {
      assert old(RowHolds(rows[r], r, cols, values[r]));
      SameRow(rows[r]);
    }
  }

  class GhosttyTerminalCore {
    const native: NativeRender
    const builder: U.GhosttyRenderUpdateBuilder
    var rows: seq<RowBox>
    var rowCols: U16
    var colors: Option<Colors>
    var frameId: nat
    var generation: nat
    var updateCols: U16
    var updateRows: U16

    /** What the retained rows show. */
    ghost var values: seq<Row>

    ghost predicate CacheOk()
      reads this, rows, AllCells(rows), AllColors(rows)
    {
      Holds(rows, rowCols, values) && |rows| < 0x1_0000 && forall row | row in values :: |row.cells| == rowCols
    }

    ghost function Model(): Core
      reads this
    {
      Core(values, rowCols, colors, frameId, generation, updateCols, updateRows)
    }

    /** What a snapshot taken now gives. */
    ghost function ReadNow(consume: bool): SnapshotResult
      requires CacheOk()
      reads this, native, rows, AllCells(rows), AllColors(rows)
    {
      ReadSnapshot(Model(), native.render, consume)
    }

    constructor (native: NativeRender)
      ensures this.native == native && fresh(builder) && builder.Valid() && builder.Accounted()
      ensures CacheOk() && Model() == NEW_CORE
    {
      hide U.GhosttyRenderUpdateBuilder.Valid, U.GhosttyRenderUpdateBuilder.Accounted;
      this.native := native;
      builder := new U.GhosttyRenderUpdateBuilder(3);
      rows, rowCols, colors, values := [], 0, None, [];
      frameId, generation, updateCols, updateRows := 0, 0, 0, 0;
    }

    /** Use this cache from now on. */
    method Adopt(defaults: Colors, cols: U16, rows: seq<RowBox>, ghost values: seq<Row>)
      requires Holds(rows, cols, values) && |rows| < 0x1_0000 && forall row | row in values :: |row.cells| == cols
      modifies this
      ensures CacheOk() && this.rows == rows
      ensures Model() == old(Model()).(rows := values, rowCols := cols, colors := Some(defaults))
    {
      colors, rowCols, this.rows, this.values := Some(defaults), cols, rows, values;
    }

    /** Refresh the default colors when everything is dirty, and bring the cache to the grid's size. */
    method SizeCache() returns (defaults: Colors)
      requires CacheOk()
      modifies this
      ensures CacheOk() && Model() == SizedCache(old(Model()), native.render)
      ensures defaults == Model().colors.value
      ensures fresh(rows) || rows == old(rows)
      ensures rows != old(rows) ==> fresh(AllCells(rows)) && fresh(AllColors(rows))
    {
      var globalDirty := native.render.level == Full || colors.None?;
      var cols := if globalDirty then native.render.grid.cols else rowCols;
      var rowCount := if globalDirty then native.render.grid.rows else |rows|;
      defaults := if globalDirty then ColorsOf(native.render.grid) else colors.value;
      if |rows| != rowCount || rowCols != cols {
        var blank := MakeRows(rowCount, cols, defaults);
        Adopt(defaults, cols, blank, seq(rowCount, _ => BlankRow(cols, defaults)));
      } else {
        Adopt(defaults, cols, rows, values);
      }
    }

    /** Keep book of what the rows show now. */
    ghost method NoteValues(after: seq<Row>)
      requires Holds(rows, rowCols, after) && |rows| < 0x1_0000 && forall row | row in after :: |row.cells| == rowCols
      modifies this`values
      ensures CacheOk() && values == after
    {
      values := after;
    }

    /** Read the dirty rows into the cache and acknowledge them if asked to. */
    method Refresh(defaults: Colors, consume: bool) returns (dirtyRows: set<U32>)
      requires CacheOk()
      modifies native, this`values, rows, AllCells(rows), AllColors(rows)
      ensures CacheOk() && dirtyRows == RowsToRead(old(native.render), |rows|)
      ensures values == AfterRead(old(values), old(native.render), defaults, dirtyRows)
      ensures native.render == if consume then Acknowledged(old(native.render), dirtyRows) else old(native.render)
    {
      dirtyRows := RefreshRows(native, rows, rowCols, values, defaults, consume);
      NoteValues(AfterRead(values, old(native.render), defaults, dirtyRows));
    }

    /** The snapshot of the refreshed cache. */
    method Describe(defaults: Colors, dirtyRows: set<U32>) returns (s: RenderModel.Snapshot)
      requires CacheOk()
      ensures var grid := native.render.grid;
              s == RenderModel.Snapshot.Snapshot(
                     rowCols, |rows|, defaults.foreground, defaults.background, defaults.cursor,
                     CursorX(grid), if grid.cursorInViewport then grid.cursorY else -1,
                     grid.cursorVisible && grid.cursorInViewport, grid.cursorBlinking, grid.cursorStyle,
                     dirtyRows, values)
      ensures CacheOk() && Model() == old(Model()) && native.render == old(native.render)
    {
      var grid := native.render.grid;
      var rowData := CopyRows(rows, rowCols, values);
      s := RenderModel.Snapshot.Snapshot(rowCols, |rows|, defaults.foreground, defaults.background, defaults.cursor,
                    CursorX(grid), if grid.cursorInViewport then grid.cursorY else -1,
                    grid.cursorVisible && grid.cursorInViewport, grid.cursorBlinking, grid.cursorStyle,
                    dirtyRows, rowData);
    }

    /** Read the render state into the row cache; an inspecting caller leaves the flags alone. */
    method Snapshot(consume: bool) returns (s: RenderModel.Snapshot)
      requires CacheOk()
      modifies this, native, rows, AllCells(rows), AllColors(rows)
      ensures CacheOk()
      ensures SnapshotResult(s, Model(), native.render) == ReadSnapshot(old(Model()), old(native.render), consume)
    {
      var defaults := SizeCache();
      var dirtyRows := Refresh(defaults, consume);
      s := Describe(defaults, dirtyRows);
    }

    /** Count one more frame; a generation starts with each new size. */
    method CountFrame(s: RenderModel.Snapshot, forceFull: bool) returns (full: bool)
      requires CacheOk()
      modifies this`frameId, this`generation, this`updateCols, this`updateRows
      ensures CacheOk() && Model() == NextFrame(old(Model()), s) && full == SendsFull(old(Model()), s, forceFull)
    {
      var dimensionsChanged := s.cols != updateCols || s.rows != updateRows;
      full := forceFull || dimensionsChanged || frameId + 1 == 1 || |s.dirtyRows| == s.rows;
      if generation == 0 || dimensionsChanged {
        generation, updateCols, updateRows, frameId := generation + 1, s.cols, s.rows, frameId + 1;
      } else {
        frameId := frameId + 1;
      }
    }

    /** The part of an update request before the builder is asked. */
    method NextSnapshot(consume: bool, forceFull: bool) returns (s: RenderModel.Snapshot, full: bool)
      requires CacheOk()
      modifies this, native, rows, AllCells(rows), AllColors(rows)
      ensures CacheOk()
      ensures var read := old(ReadNow(consume));
              && s == read.snapshot && native.render == read.render
              && Model() == NextFrame(read.core, s) && full == SendsFull(read.core, s, forceFull)
    {
      s := Snapshot(consume);
      full := CountFrame(s, forceFull);
    }

    /** Take the next snapshot; the builder does not notice. */
    method NextBeside(consume: bool, forceFull: bool) returns (s: RenderModel.Snapshot, full: bool)
      requires CacheOk() && builder.Valid()
      modifies this, native, rows, AllCells(rows), AllColors(rows)
      ensures CacheOk() && builder.Valid() && unchanged(builder) && unchanged(builder.slots)
      ensures old(builder.Accounted()) ==> builder.Accounted()
      ensures forall j | j in builder.held :: builder.held[j].Contents() == old(builder.held[j].Contents())
      ensures var read := old(ReadNow(consume));
              && s == read.snapshot && native.render == read.render
              && Model() == NextFrame(read.core, s) && full == SendsFull(read.core, s, forceFull)
    {
      hide U.GhosttyRenderUpdateBuilder.Accounted, U.SlotsOk, CacheOk, NextFrame, SendsFull, ReadSnapshot;
      hide S.RenderUpdate.Contents;
      s, full := NextSnapshot(consume, forceFull);
      forall j | j in builder.held ensures builder.held[j].Contents() == old(builder.held[j].Contents()) {
        U.SameContents(builder.held[j]);
      }
    }

    /** Build the next update in a slot known to be free. */
    method BuildNext(s: RenderModel.Snapshot, full: bool, now: real) returns (lease: U.Lease)
      requires CacheOk() && builder.Valid() && R.FirstFree(builder.ring.slots) < |builder.slots|
      modifies builder, builder.slots, builder.FreeBuffers()
      ensures CacheOk() && Model() == old(Model()) && native.render == old(native.render)
      ensures builder.Valid() && builder.ring == R.Acquire(old(builder.ring)).1
      ensures fresh(lease.update) && lease.update.Fits()
              && lease.update.Contents() == P.Pack(s, frameId, generation, full)
      ensures builder.held == old(builder.held)[lease.slotId := lease.update] && lease.slotId !in old(builder.held)
      ensures old(builder.Accounted()) ==> builder.Accounted()
      ensures forall j | j in old(builder.held) :: old(builder.held)[j].Contents() == old(builder.held[j].Contents())
    {
      hide Holds, U.GhosttyRenderUpdateBuilder.Valid, U.GhosttyRenderUpdateBuilder.Accounted, P.Pack;
      hide R.Acquire, R.FirstFree;
      lease := BuildBeside(builder, s, frameId, generation, full, now, rows, rowCols, values);
    }

    /**
      Ask for the next update. With the ring full, nothing at all changes: no
      flag is consumed, no frame is counted. Otherwise the update holds what the
      transition of the model says, in buffers that no update in flight has; those
      updates read as they did, while rows were read and buffers were filled.
      */
    method TryRenderUpdate(consume: bool, forceFull: bool, now: real) returns (lease: Option<U.Lease>)
      requires CacheOk() && builder.Valid()
      modifies this, native, rows, AllCells(rows), AllColors(rows), builder, builder.slots, builder.FreeBuffers()
      ensures CacheOk() && builder.Valid() && (old(builder.Accounted()) ==> builder.Accounted())
      ensures lease.None? <==> R.FirstFree(old(builder.ring).slots) == |builder.slots|
      ensures forall j | j in old(builder.held) :: old(builder.held)[j].Contents() == old(builder.held[j].Contents())
      ensures lease.None? ==>
                unchanged(this) && unchanged(native) && unchanged(builder)
      ensures lease.Some? ==>
                var next := NextUpdate(old(Model()), old(native.render), consume, forceFull);
                && lease.value.update.Fits()
                && UpdateResult(lease.value.update.Contents(), Model(), native.render) == next
                && builder.ring == R.Acquire(old(builder.ring)).1
                && builder.held == old(builder.held)[lease.value.slotId := lease.value.update]
                && lease.value.slotId !in old(builder.held)
    {
      lease := None;
      assert U.FindFree(builder.slots, 0) == R.FirstFree(builder.ring.slots) by {
        builder.FindFirst();
      }
      if U.FindFree(builder.slots, 0) < |builder.slots| {
        var s, full := NextBeside(consume, forceFull);
        var built := BuildNext(s, full, now);
        lease := Some(built);
      }
    }
  }
}
