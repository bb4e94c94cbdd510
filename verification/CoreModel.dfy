/**
  The row cache and the frame stream of the terminal core as state transitions:
  `ReadSnapshot` is a snapshot call, `NextUpdate` an update request that found a
  free slot. The core class refines these; the run theorems are about them.
  */
module CoreModel {
  import opened Bytes
  import opened Options
  import opened RenderModel
  import opened PackedUpdate
  import opened NativeTerminal

  datatype Core = Core(
    rows: seq<Row>,
    rowCols: U16,
    colors: Option<Colors>,
    frameId: nat,
    generation: nat,
    updateCols: U16,
    updateRows: U16)

  const NEW_CORE := Core([], 0, None, 0, 0, 0, 0)

  /** Every cached row is as wide as the cache. */
  predicate CacheShape(core: Core) {
    |core.rows| < 0x1_0000 && forall row | row in core.rows :: |row.cells| == core.rowCols
  }

  function BlankRow(cols: nat, defaults: Colors): (row: Row)
    ensures |row.cells| == cols
  {
    Row(seq(cols, _ => BlankCell(defaults)), [], false, false)
  }

  /** The rows a snapshot reads again: all, or the flagged ones the iterator reaches. */
  function RowsToRead(render: Render, rowCount: U16): set<U32> {
    if render.level == Clean then {}
    else
      set r: U32 | 0 <= r < rowCount && r < |render.grid.lines| && (render.level == Full || r in render.rowDirty)
  }

  function AfterRead(rows: seq<Row>, render: Render, defaults: Colors, read: set<U32>): (r: seq<Row>)
    requires forall k | k in read :: k < |render.grid.lines|
    ensures |r| == |rows|
    ensures forall i | 0 <= i < |rows| ::
              r[i] == if i in read then VisibleRow(render.grid.lines[i], |rows[i].cells|, defaults) else rows[i]
  {
    seq(|rows|, i requires 0 <= i < |rows| =>
      if i in read then VisibleRow(render.grid.lines[i], |rows[i].cells|, defaults) else rows[i])
  }

  /** Acknowledging a read clears the flags it used and the global level. */
  function Acknowledged(render: Render, read: set<U32>): Render {
    if render.level == Clean then render else render.(level := Clean, rowDirty := render.rowDirty - read)
  }

  function GlobalDirty(core: Core, render: Render): bool {
    render.level == Full || core.colors.None?
  }

  function ReadColors(core: Core, render: Render): Colors {
    if GlobalDirty(core, render) then ColorsOf(render.grid) else core.colors.value
  }

  /** The cache a snapshot reads into: kept, or blank rows of the new size. */
  function SizedCache(core: Core, render: Render): (c: Core)
    requires CacheShape(core)
    ensures CacheShape(c)
  {
    var cols := if GlobalDirty(core, render) then render.grid.cols else core.rowCols;
    var rowCount := if GlobalDirty(core, render) then render.grid.rows else |core.rows|;
    var colors := ReadColors(core, render);
    var sized := core.(colors := Some(colors));
    if |core.rows| != rowCount || core.rowCols != cols then
      sized.(rowCols := cols, rows := seq(rowCount, _ => BlankRow(cols, colors)))
    else sized
  }

  datatype SnapshotResult = SnapshotResult(snapshot: Snapshot, core: Core, render: Render)

  /** One snapshot call: what it returns, the new cache, the new render state. */
  function ReadSnapshot(core: Core, render: Render, consume: bool): (result: SnapshotResult)
    requires CacheShape(core)
    ensures CacheShape(result.core)
  {
    var sized := SizedCache(core, render);
    var colors := sized.colors.value;
    var grid := render.grid;
    var read := RowsToRead(render, |sized.rows|);
    var rows := AfterRead(sized.rows, render, colors, read);
    SnapshotResult(
      Snapshot(sized.rowCols, |rows|, colors.foreground, colors.background, colors.cursor,
               CursorX(grid), if grid.cursorInViewport then grid.cursorY else -1,
               grid.cursorVisible && grid.cursorInViewport, grid.cursorBlinking, grid.cursorStyle, read, rows),
      sized.(rows := rows),
      if consume then Acknowledged(render, read) else render)
  }

  datatype UpdateResult = UpdateResult(update: Packed, core: Core, render: Render)

  /** The counters after one more frame of the given snapshot. */
  function NextFrame(core: Core, s: Snapshot): Core {
    var changed := s.cols != core.updateCols || s.rows != core.updateRows;
    var counted := core.(frameId := core.frameId + 1);
    if core.generation == 0 || changed then
      counted.(generation := core.generation + 1, updateCols := s.cols, updateRows := s.rows)
    else counted
  }

  predicate SendsFull(core: Core, s: Snapshot, forceFull: bool) {
    || forceFull
    || s.cols != core.updateCols || s.rows != core.updateRows
    || core.frameId == 0
    || |s.dirtyRows| == s.rows
  }

  /** An update request with a free slot: snapshot, count, pack. */
  function NextUpdate(core: Core, render: Render, consume: bool, forceFull: bool): UpdateResult
    requires CacheShape(core)
  {
    var read := ReadSnapshot(core, render, consume);
    var next := NextFrame(read.core, read.snapshot);
    UpdateResult(
      Pack(read.snapshot, next.frameId, next.generation, SendsFull(read.core, read.snapshot, forceFull)),
      next, read.render)
  }

  /**
    Size and default colors are read anew only when everything is dirty or
    nothing has been read yet; else they are those of the last time.
    */
  lemma SnapshotFrame(core: Core, render: Render, consume: bool)
    requires CacheShape(core)
    ensures var s := ReadSnapshot(core, render, consume).snapshot;
            && |s.rowData| == s.rows
            && if render.level == Full || core.colors.None? then
                 && s.cols == render.grid.cols && s.rows == render.grid.rows
                 && Colors(s.foreground, s.background, s.cursor) == ColorsOf(render.grid)
               else
                 && s.cols == core.rowCols && s.rows == |core.rows|
                 && Colors(s.foreground, s.background, s.cursor) == core.colors.value
  {
  }

  /** Every row's text is the right-trimmed join of its cells. */
  predicate TextsJoined(core: Core) {
    forall row | row in core.rows :: row.text == RowText(row.cells)
  }

  lemma {:induction false} BlanksJoin(cells: seq<Cell>)
    requires forall cell | cell in cells :: cell.text == []
    ensures RowText(cells) == []
  {
    if cells != [] {
      BlanksJoin(cells[..|cells| - 1]);
      var joined := JoinedText(cells);
      assert joined == JoinedText(cells[..|cells| - 1]) + [0x20];
      assert joined[..|joined| - 1] == JoinedText(cells[..|cells| - 1]);
    }
  }

  /** Snapshots keep it so, over reads, resizes and rows left alone. */
  lemma {:induction false} SnapshotKeepsTexts(core: Core, render: Render, consume: bool)
    requires CacheShape(core) && TextsJoined(core)
    ensures TextsJoined(ReadSnapshot(core, render, consume).core)
  {
    var sized := SizedCache(core, render);
    var blank := BlankRow(sized.rowCols, sized.colors.value);
    BlanksJoin(blank.cells);
    assert TextsJoined(sized) by {
      forall row | row in sized.rows ensures row.text == RowText(row.cells) {
        if sized.rows != core.rows {
          assert row == blank;
        }
      }
    }
    var rows := ReadSnapshot(core, render, consume).core.rows;
    forall row | row in rows ensures row.text == RowText(row.cells) {
      var i :| 0 <= i < |rows| && rows[i] == row;
      assert row == sized.rows[i] || row == VisibleRow(render.grid.lines[i], |sized.rows[i].cells|, sized.colors.value);
      assert sized.rows[i] in sized.rows;
    }
  }
}
