/**
  Why every consuming read must go through the frame stream. A direct consuming
  snapshot, which is what `snapshot` does by default, takes the dirty flags away
  from it; what that costs the replica is stated exactly.
  */
module StolenReads {
  import opened Bytes
  import opened Options
  import opened Utf8Text
  import opened RenderModel
  import opened PackedUpdate
  import opened NativeTerminal
  import opened CoreModel
  import opened ReplicaAgreement
  import V = ViewportModel

  /** The next update after such a snapshot. */
  function AfterTheft(core: Core, render: Render, consume: bool, forceFull: bool): Packed
    requires CacheShape(core)
  {
    var read := ReadSnapshot(core, render, true);
    NextUpdate(read.core, read.render, consume, forceFull).update
  }

  /** The next update carries every row whatever is dirty: asked for, the first one, or of a new size. */
  predicate Restarts(core: Core, grid: Grid, forceFull: bool) {
    forceFull || core.frameId == 0 || core.updateCols != grid.cols || core.updateRows != grid.rows
  }

  /** What the request after the theft reads: the whole grid, with no row dirty. */
  lemma TheftSnapshot(core: Core, render: Render, consume: bool) returns (second: SnapshotResult)
    requires CacheAgrees(core, render)
    ensures var read := ReadSnapshot(core, render, true);
            second == ReadSnapshot(read.core, read.render, consume)
    ensures second.snapshot == VisibleGrid(render.grid, {})
    ensures second.core.frameId == core.frameId && second.core.generation == core.generation
    ensures second.core.updateCols == core.updateCols && second.core.updateRows == core.updateRows
  {
    var read := ReadSnapshot(core, render, true);
    SnapshotReadsGrid(core, render, true);
    ReadCacheAgrees(core, render, true, read);
    hide ReadSnapshot, VisibleGrid;
    SnapshotReadsGrid(read.core, read.render, consume);
    second := ReadSnapshot(read.core, read.render, consume);
  }

  /** With no row dirty, a frame is full exactly where the stream restarts. */
  lemma CleanFrame(core: Core, s: Snapshot, grid: Grid, forceFull: bool)
    requires s.cols == grid.cols && s.rows == grid.rows >= 1 && s.dirtyRows == {}
    requires core.frameId == 0 ==> core.generation == 0
    ensures SendsFull(core, s, forceFull) == Restarts(core, grid, forceFull)
    ensures var next := NextFrame(core, s);
            && next.frameId == core.frameId + 1
            && core.generation <= next.generation <= core.generation + 1 && 1 <= next.generation
            && (next.generation > core.generation ==>
                  core.generation == 0 || core.updateCols != grid.cols || core.updateRows != grid.rows)
  {
  }

  /** The update after the theft carries all rows or none. */
  lemma TheftReads(core: Core, render: Render, consume: bool, forceFull: bool) returns (generation: nat)
    requires CacheAgrees(core, render) && (core.frameId == 0 ==> core.generation == 0)
    ensures AfterTheft(core, render, consume, forceFull)
            == Pack(VisibleGrid(render.grid, {}), core.frameId + 1, generation, Restarts(core, render.grid, forceFull))
    ensures core.generation <= generation <= core.generation + 1 && 1 <= generation
    ensures generation > core.generation ==>
              core.generation == 0 || core.updateCols != render.grid.cols || core.updateRows != render.grid.rows
  {
    hide Pack, ReadSnapshot, NextFrame, SendsFull;
    var second := TheftSnapshot(core, render, consume);
    CleanFrame(second.core, second.snapshot, render.grid, forceFull);
    generation := NextFrame(second.core, second.snapshot).generation;
  }

  lemma TheftAdmitted(core: Core, render: Render, replica: V.Viewport, consume: bool, forceFull: bool)
    requires CacheAgrees(core, render) && ReplicaAgrees(core, render, replica) && core.frameId < MAX_SAFE_INTEGER
    ensures V.Admits(replica, AfterTheft(core, render, consume, forceFull))
  {
    hide V.Shows, WellFormedUpdate, AfterTheft, VisibleGrid, Pack;
    var generation := TheftReads(core, render, consume, forceFull);
    GridPacks(render.grid, {}, core.frameId + 1, generation, Restarts(core, render.grid, forceFull));
  }

  /** With no row in it, the update leaves each row exactly as stale or fresh as it was. */
  lemma StolenRowsStayStaleIff(core: Core, render: Render, replica: V.Viewport, consume: bool, r: U32)
    requires CacheAgrees(core, render) && ReplicaAgrees(core, render, replica) && core.frameId < MAX_SAFE_INTEGER
    requires !Restarts(core, render.grid, false) && r < render.grid.rows
    ensures var (accepted, after) := V.Apply(replica, AfterTheft(core, render, consume, false));
            && accepted && V.Valid(after) && V.Valid(replica)
            && after.cols == replica.cols == render.grid.cols && after.rows == replica.rows == render.grid.rows
            && after.lines[r] == replica.lines[r]
            && (V.Shows(after, VisibleGrid(render.grid, {}), r) <==> V.Shows(replica, VisibleGrid(render.grid, {}), r))
  {
    hide WellFormedUpdate, Representable, AfterTheft;
    var generation := TheftReads(core, render, consume, false);
    TheftAdmitted(core, render, replica, consume, false);
    var update := Pack(VisibleGrid(render.grid, {}), core.frameId + 1, generation, false);
    V.ApplyIsSound(replica, update);
    V.DeliveredLine(replica, update, r);
    SortRowsSorts({});
    assert update.dirtyRows == [];
    assert V.Apply(replica, update).1.lines[r] == replica.lines[r];
  }

  /** Where the update carries every row, nothing stays stale. */
  lemma RestartShowsAll(core: Core, render: Render, replica: V.Viewport, consume: bool, forceFull: bool)
    requires CacheAgrees(core, render) && ReplicaAgrees(core, render, replica) && core.frameId < MAX_SAFE_INTEGER
    requires Restarts(core, render.grid, forceFull)
    requires |AfterTheft(core, render, consume, forceFull).graphemes| < U32_RANGE
    ensures var (accepted, after) := V.Apply(replica, AfterTheft(core, render, consume, forceFull));
            accepted && ShowsGrid(after, render.grid)
  {
    assert |render.grid.lines| == render.grid.rows && V.Valid(replica);
    hide CacheAgrees, ReplicaAgrees, AfterTheft, V.Valid, V.Admits, V.Apply, Pack, VisibleGrid, ShowsGrid;
    var generation := TheftReads(core, render, consume, forceFull);
    TheftAdmitted(core, render, replica, consume, forceFull);
    GridDelivered(render.grid, {}, replica, core.frameId + 1, generation, true);
  }

  /**
    What a stolen read costs, exactly: after the next delivery the replica shows
    every row if and only if that update had to carry them all, or no row was
    stale to begin with.
    */
  lemma TheftIsHarmlessIff(core: Core, render: Render, replica: V.Viewport, consume: bool, forceFull: bool)
    requires CacheAgrees(core, render) && ReplicaAgrees(core, render, replica) && core.frameId < MAX_SAFE_INTEGER
    requires |AfterTheft(core, render, consume, forceFull).graphemes| < U32_RANGE
    ensures ShowsRows(V.Apply(replica, AfterTheft(core, render, consume, forceFull)).1, render.grid) <==>
            Restarts(core, render.grid, forceFull) || ShowsRows(replica, render.grid)
  {
    hide WellFormedUpdate, AfterTheft, V.Shows, V.Apply;
    if Restarts(core, render.grid, forceFull) {
      RestartShowsAll(core, render, replica, consume, forceFull);
    } else {
      var after := V.Apply(replica, AfterTheft(core, render, consume, forceFull)).1;
      StolenRowsStayStaleIff(core, render, replica, consume, 0);
      forall r | 0 <= r < render.grid.rows
        ensures V.Shows(after, VisibleGrid(render.grid, {}), r) <==> V.Shows(replica, VisibleGrid(render.grid, {}), r)
      {
        StolenRowsStayStaleIff(core, render, replica, consume, r);
      }
    }
  }

  /** A grid of one cell, blank or with a letter. */
  function OneCell(codepoints: seq<CodePoint>): Grid {
    var style := NativeStyle(false, false, false, false, false, false, false, 0);
    Grid(1, 1, None, None, None, false, false, 0, 0, false, false, 0,
         [NativeRow([NativeCell(codepoints, false, None, None, style, 0)], false, false, None)])
  }

  lemma OneCellShape(codepoints: seq<CodePoint>, other: seq<CodePoint>)
    ensures OneCell(codepoints).cols == OneCell(codepoints).rows == |OneCell(codepoints).lines| == 1
    ensures RenderOk(Render(OneCell(codepoints), Full, {}))
    ensures Advances(Render(OneCell(codepoints), Clean, {}), Render(OneCell(other), Partial, {0}))
  {
  }

  lemma OneCellText(codepoints: seq<CodePoint>)
    ensures |VisibleGrid(OneCell(codepoints), {}).rowData[0].cells| == 1
    ensures VisibleGrid(OneCell(codepoints), {}).rowData[0].cells[0].text == TextOf(codepoints)
  {
  }

  lemma SeenIsTheSame(text: Text)
    requires WellFormed(text) && (text != [] ==> text[0] != BYTE_ORDER_MARK)
    ensures Seen(text) == text
  {
    hide Seen, WellFormed;
    SeenIsIdentityIff(text);
  }

  lemma OtherTextOtherRow(one: Row, other: Row)
    requires |one.cells| == |other.cells| == 1 && Seen(one.cells[0].text) != Seen(other.cells[0].text)
    ensures SeenRow(one) != SeenRow(other)
  {
    hide Seen;
    assert SeenCells(one.cells)[0].text != SeenCells(other.cells)[0].text;
  }

  lemma LetterText()
    ensures TextOf([0x61]) == [0x61] && TextOf([]) == []
  {
    assert [0x61][..0] == [];
  }

  /** Rows of one cell with the letter and with nothing are seen as different ones. */
  lemma LetterIsSeen(letter: Row, blank: Row)
    requires |letter.cells| == |blank.cells| == 1
    requires letter.cells[0].text == TextOf([0x61]) && blank.cells[0].text == TextOf([])
    ensures SeenRow(letter) != SeenRow(blank)
  {
    hide Seen, TextOf;
    LetterText();
    SeenIsTheSame([0x61]);
    SeenIsTheSame([]);
    OtherTextOtherRow(letter, blank);
  }

  ghost predicate Textless(s: Snapshot) {
    forall r: nat, c: nat :: PackCell(s, r, c).bytes == []
  }

  lemma {:induction false} TextlessCells(s: Snapshot, rows: seq<nat>, n: nat)
    requires Textless(s) && n <= |rows|
    ensures forall i | 0 <= i < |RowsCells(s, rows, n)| :: RowsCells(s, rows, n)[i].bytes == []
  {
    if n > 0 {
      TextlessCells(s, rows, n - 1);
      var all, front := RowsCells(s, rows, n), RowsCells(s, rows, n - 1);
      forall i | 0 <= i < |all| ensures all[i].bytes == [] {
        if i >= |front| {
          assert all[i] == PackCell(s, rows[n - 1], i - |front|);
        }
      }
    }
  }

  lemma {:induction false} NoBytes(cells: seq<PackedCell>, n: nat)
    requires n <= |cells| && forall i | 0 <= i < |cells| :: cells[i].bytes == []
    ensures BytesOf(cells, 0, n) == []
  {
    if n > 0 {
      NoBytes(cells, n - 1);
    }
  }

  /** A snapshot without text has no payload. */
  lemma TextlessPayload(s: Snapshot, frameId: int, generation: int, full: bool)
    requires Textless(s)
    ensures Pack(s, frameId, generation, full).graphemes == []
  {
    var rows := IncludedRows(s, full);
    TextlessCells(s, rows, |rows|);
    NoBytes(FlatCells(s, rows), |FlatCells(s, rows)|);
  }

  lemma BlankIsTextless(dirty: set<U32>)
    ensures Textless(VisibleGrid(OneCell([]), dirty))
  {
    var s := VisibleGrid(OneCell([]), dirty);
    forall r: nat, c: nat ensures PackCell(s, r, c).bytes == [] {
      BlankCellText(s, dirty, r, c);
    }
  }

  lemma BlankCellText(s: Snapshot, dirty: set<U32>, r: nat, c: nat)
    requires s == VisibleGrid(OneCell([]), dirty)
    ensures PackCell(s, r, c).bytes == []
  {
    if r < |s.rowData| && c < |s.rowData[r].cells| {
      assert s.rowData[r].cells[c].text == [];
      assert Scalars([]) == [];
    }
  }

  lemma BlankHasNoText()
    ensures NextUpdate(NEW_CORE, Render(OneCell([]), Full, {}), true, false).update.graphemes == []
  {
    var blank := Render(OneCell([]), Full, {});
    OneCellShape([], []);
    SnapshotReadsGrid(NEW_CORE, blank, true);
    var read := ReadSnapshot(NEW_CORE, blank, true);
    BlankIsTextless(read.snapshot.dirtyRows);
    hide OneCell, ReadSnapshot, VisibleGrid, Pack, Textless;
    var next := NextFrame(read.core, read.snapshot);
    TextlessPayload(read.snapshot, next.frameId, next.generation, SendsFull(read.core, read.snapshot, false));
  }

  /** The first frame of any terminal. */
  lemma FirstFrame(render: Render) returns (replica: V.Viewport)
    requires RenderOk(render) && render.level == Full
    requires |NextUpdate(NEW_CORE, render, true, false).update.graphemes| < U32_RANGE
    ensures var first := NextUpdate(NEW_CORE, render, true, false);
            && replica == V.Apply(V.EMPTY, first.update).1 && ShowsGrid(replica, render.grid)
            && first.render == Render(render.grid, Clean, {})
            && CacheAgrees(first.core, first.render) && ReplicaAgrees(first.core, first.render, replica)
            && first.core.frameId == 1 && !Restarts(first.core, render.grid, false)
  {
    SnapshotReadsGrid(NEW_CORE, render, true);
    replica := DeliveryAgreesOn(NEW_CORE, render, V.EMPTY, true, false);
    NextUpdateCounts(NEW_CORE, render, true, false);
    hide VisibleGrid, V.Apply, V.Shows, Pack;
  }

  /** A retained line that shows the blank does not show the letter. */
  lemma StaysBlank(replica: V.Viewport, after: V.Viewport)
    requires ShowsGrid(replica, OneCell([])) && V.Valid(after) && after.cols == after.rows == 1
    requires after.lines[0] == replica.lines[0]
    ensures ShowsRows(after, OneCell([])) && !ShowsRows(after, OneCell([0x61]))
  {
    OneCellShape([], [0x61]);
    OneCellShape([0x61], []);
    OneCellText([0x61]);
    OneCellText([]);
    hide OneCell, VisibleGrid, TextOf, SeenRow;
    LetterIsSeen(VisibleGrid(OneCell([0x61]), {}).rowData[0], VisibleGrid(OneCell([]), {}).rowData[0]);
    assert V.Shows(replica, VisibleGrid(OneCell([]), {}), 0);
    assert V.Shows(after, VisibleGrid(OneCell([]), {}), 0);
    assert !V.Shows(after, VisibleGrid(OneCell([0x61]), {}), 0);
  }

  /**
    A terminal of one cell: a first frame shows it blank, then an `a` is written,
    then a direct snapshot consumes the flag; the second frame still shows the
    blank.
    */
  lemma StolenLetter()
    ensures var blank := Render(OneCell([]), Full, {});
            var first := NextUpdate(NEW_CORE, blank, true, false);
            var replica := V.Apply(V.EMPTY, first.update).1;
            var written := Render(OneCell([0x61]), Partial, {0});
            && Advances(first.render, written)
            && ShowsGrid(replica, OneCell([]))
            && CacheShape(first.core)
            && ShowsRows(V.Apply(replica, AfterTheft(first.core, written, true, false)).1, OneCell([]))
            && !ShowsRows(V.Apply(replica, AfterTheft(first.core, written, true, false)).1, OneCell([0x61]))
  {
    BlankHasNoText();
    OneCellShape([], [0x61]);
    OneCellShape([0x61], []);
    hide OneCell, NextUpdate, ReadSnapshot, V.Apply, AfterTheft, V.Shows, ShowsGrid, ShowsRows, Advances, VisibleGrid;
    var written := Render(OneCell([0x61]), Partial, {0});
    var first := NextUpdate(NEW_CORE, Render(OneCell([]), Full, {}), true, false);
    var replica := FirstFrame(Render(OneCell([]), Full, {}));
    MutateKeeps(first.core, first.render, written, replica);
    StolenRowsStayStaleIff(first.core, written, replica, true, 0);
    StaysBlank(replica, V.Apply(replica, AfterTheft(first.core, written, true, false)).1);
  }
}
