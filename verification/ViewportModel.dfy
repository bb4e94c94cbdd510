/** The retained viewport on the receiving side of the update stream. */
module ViewportModel {
  import opened Bytes
  import opened Utf8Text
  import opened RenderModel
  import opened PackedUpdate

  /** One row's share of the retained arrays, with its own text bytes. */
  datatype Line = Line(
    styles: seq<nat>,
    foregrounds: seq<nat>,
    backgrounds: seq<nat>,
    offsets: seq<nat>,
    lengths: seq<nat>,
    bytes: seq<nat>,
    flags: nat)

  datatype Viewport = Viewport(
    frameId: int,
    generation: int,
    cols: nat,
    rows: nat,
    foreground: nat,
    background: nat,
    cursor: nat,
    cursorX: int,
    cursorY: int,
    cursorVisible: bool,
    cursorBlinking: bool,
    cursorStyle: int,
    lines: seq<Line>)

  const EMPTY := Viewport(0, 0, 0, 0, 0xE5E7EB, 0, 0xE5E7EB, -1, -1, false, false, 0, [])

  predicate LineValid(line: Line, cols: nat) {
    |line.styles| == |line.foregrounds| == |line.backgrounds| == |line.offsets| == |line.lengths| == cols
  }

  predicate Valid(v: Viewport) {
    |v.lines| == v.rows && forall line | line in v.lines :: LineValid(line, v.cols)
  }

  function Zeros(count: nat): (r: seq<nat>)
    ensures |r| == count
  {
    seq(count, _ => 0)
  }

  function BlankLines(cols: nat, rows: nat): (lines: seq<Line>)
    ensures |lines| == rows && forall line | line in lines :: LineValid(line, cols)
  {
    seq(rows, _ => Line(Zeros(cols), Zeros(cols), Zeros(cols), Zeros(cols), Zeros(cols), [], 0))
  }

  predicate SlabInUpdate(u: Packed, start: nat, count: nat) {
    && |u.graphemeOffsets| == |u.graphemeLengths| == |u.foregrounds| == |u.backgrounds| == |u.styles|
    && start + count <= |u.styles|
    && forall i | start <= i < start + count :: u.graphemeOffsets[i] + u.graphemeLengths[i] <= |u.graphemes|
  }

  /** The text bytes of `count` cells from `start` on, copied side by side. */
  function SlabBytes(u: Packed, start: nat, count: nat): seq<nat>
    requires SlabInUpdate(u, start, count)
  {
    if count == 0 then []
    else
      var i := start + count - 1;
      SlabBytes(u, start, count - 1)
      + u.graphemes[u.graphemeOffsets[i]..u.graphemeOffsets[i] + u.graphemeLengths[i]]
  }

  /** `count` cells from `start` on, as a retained line. */
  function SlabLine(u: Packed, start: nat, count: nat, flags: nat): (line: Line)
    requires SlabInUpdate(u, start, count)
    ensures LineValid(line, count)
  {
    var end := start + count;
    var offsets := seq(count, c requires 0 <= c < count => Wrap32(|SlabBytes(u, start, c)|));
    Line(u.styles[start..end], u.foregrounds[start..end], u.backgrounds[start..end],
         offsets, u.graphemeLengths[start..end], SlabBytes(u, start, count), flags)
  }

  lemma {:induction false} SlabWithin(u: Packed, k: nat)
    requires WellFormedUpdate(u) && k < |u.dirtyRows|
    ensures SlabInUpdate(u, Slab(k, u.cols), u.cols)
  {
    SlabsAscend(k, |u.dirtyRows|, u.cols);
  }

  /** Included row `k` of an update as a retained line. */
  function LineOf(u: Packed, k: nat): (line: Line)
    requires WellFormedUpdate(u) && k < |u.dirtyRows|
    ensures LineValid(line, u.cols)
  {
    SlabWithin(u, k);
    SlabLine(u, Slab(k, u.cols), u.cols, u.rowFlags[k])
  }

  function NewLines(u: Packed): (lines: seq<Line>)
    requires WellFormedUpdate(u)
    ensures |lines| == |u.dirtyRows|
    ensures forall k | 0 <= k < |lines| :: lines[k] == LineOf(u, k)
  {
    seq(|u.dirtyRows|, k requires 0 <= k < |u.dirtyRows| => LineOf(u, k))
  }

  /** Put `incoming[k]` at index `rows[k]`, one after the other. */
  function Scatter<T>(base: seq<T>, rows: seq<nat>, incoming: seq<T>): (r: seq<T>)
    requires |rows| == |incoming|
    requires forall k | 0 <= k < |rows| :: rows[k] < |base|
    ensures |r| == |base|
    decreases |rows|
  {
    if rows == [] then base
    else
      var n := |rows| - 1;
      Scatter(base, rows[..n], incoming[..n])[rows[n] := incoming[n]]
  }

  /** Which updates a viewport takes: valid, newer, and full when the grid is new. */
  predicate Admits(v: Viewport, u: Packed) {
    && WellFormedUpdate(u)
    && v.generation <= u.generation
    && (u.generation == v.generation ==> v.frameId < u.frameId)
    && (u.generation > v.generation ==> u.full)
    && (u.cols != v.cols || u.rows != v.rows ==> u.full)
  }

  /** Apply an update, or refuse it and change nothing. */
  function Apply(v: Viewport, u: Packed): (bool, Viewport)
    requires Valid(v)
  {
    if !WellFormedUpdate(u) then (false, v)
    else if u.generation < v.generation then (false, v)
    else if u.generation == v.generation && u.frameId <= v.frameId then (false, v)
    else if u.generation > v.generation && !u.full then (false, v)
    else if (u.full || u.cols != v.cols || u.rows != v.rows) && !u.full then (false, v)
    else
      var lines := if u.full then BlankLines(u.cols, u.rows) else v.lines;
      (true, Viewport(u.frameId, u.generation, u.cols, u.rows, u.foreground, u.background, u.cursor,
                      u.cursorX, u.cursorY, u.cursorVisible, u.cursorBlinking, u.cursorStyle,
                      Scatter(lines, u.dirtyRows, NewLines(u))))
  }

  /** `subarray` clamps its bounds. */
  function Clamped(bytes: seq<nat>, start: nat, end: nat): (part: seq<nat>)
    ensures start <= end <= |bytes| ==> part == bytes[start..end]
    ensures start <= |bytes| < end ==> part == bytes[start..]
    ensures start >= |bytes| || start >= end ==> part == []
  {
    var hi := if end <= |bytes| then end else |bytes|;
    var lo := if start <= hi then start else hi;
    bytes[lo..hi]
  }

  function TextAt(line: Line, column: nat): Text
    requires column < |line.offsets| && column < |line.lengths|
  {
    if line.lengths[column] == 0 then []
    else DecodeText(Clamped(line.bytes, line.offsets[column], line.offsets[column] + line.lengths[column]))
  }

  function CellsOf(line: Line, cols: nat): (cells: seq<Cell>)
    requires LineValid(line, cols)
    ensures |cells| == cols
    ensures forall c | 0 <= c < cols ::
              cells[c] == UnpackCell(TextAt(line, c), line.foregrounds[c], line.backgrounds[c], line.styles[c])
  {
    seq(cols, c requires 0 <= c < cols =>
      UnpackCell(TextAt(line, c), line.foregrounds[c], line.backgrounds[c], line.styles[c]))
  }

  /** A retained line as the compatibility row an inspector gets. */
  function MaterializeRow(line: Line, cols: nat): Row
    requires LineValid(line, cols)
  {
    var cells := CellsOf(line, cols);
    Row(cells, RowText(cells), line.flags % 2 == 1, line.flags / 2 % 2 == 1)
  }

  predicate Complete(s: Snapshot) {
    |s.rowData| == s.rows && forall row | row in s.rowData :: |row.cells| == s.cols
  }

  /** A retained line holding exactly these packed cells. */
  function LineFrom(slab: seq<PackedCell>, flags: nat): (line: Line)
    ensures LineValid(line, |slab|)
  {
    Line(Styles(slab), Foregrounds(slab), Backgrounds(slab), Offsets(slab), Lengths(slab), Payload(slab), flags)
  }

  /** An update whose cell columns and payload come from these cells. */
  ghost predicate Carries(u: Packed, cells: seq<PackedCell>) {
    && u.graphemeOffsets == Offsets(cells) && u.graphemeLengths == Lengths(cells) && u.graphemes == Payload(cells)
    && u.foregrounds == Foregrounds(cells) && u.backgrounds == Backgrounds(cells) && u.styles == Styles(cells)
    && |Payload(cells)| < U32_RANGE
  }

  /** The span of cell `i` addresses exactly that cell's bytes. */
  ghost predicate OwnsBytes(u: Packed, cells: seq<PackedCell>, i: nat)
    requires i < |u.graphemeOffsets| && i < |u.graphemeLengths| && i < |cells|
  {
    var start := u.graphemeOffsets[i];
    var end := start + u.graphemeLengths[i];
    end <= |u.graphemes| && u.graphemes[start..end] == cells[i].bytes
  }

  lemma {:induction false} SpanOfCell(u: Packed, cells: seq<PackedCell>, i: nat)
    requires Carries(u, cells) && i < |cells|
    ensures OwnsBytes(u, cells, i)
  {
    PayloadSlice(cells, i);
  }

  /** The slab bytes of cells that own theirs are those cells' bytes. */
  lemma {:induction false} SlabBytesAreTheirs(u: Packed, cells: seq<PackedCell>, start: nat, count: nat)
    requires SlabInUpdate(u, start, count) && start + count <= |cells|
    requires forall i | start <= i < start + count :: OwnsBytes(u, cells, i)
    ensures SlabBytes(u, start, count) == BytesOf(cells, start, start + count)
  {
    if count > 0 {
      assert OwnsBytes(u, cells, start + count - 1);
      SlabBytesAreTheirs(u, cells, start, count - 1);
    }
  }

  lemma {:induction false} SliceBytes(cells: seq<PackedCell>, start: nat, slab: seq<PackedCell>, count: nat)
    requires start + |slab| <= |cells| && slab == cells[start..start + |slab|] && count <= |slab|
    ensures BytesOf(slab, 0, count) == BytesOf(cells, start, start + count)
  {
    if count > 0 {
      SliceBytes(cells, start, slab, count - 1);
    }
  }

  lemma {:induction false} CarriedSlab(u: Packed, cells: seq<PackedCell>, start: nat, count: nat)
    requires Carries(u, cells) && start + count <= |cells|
    ensures SlabInUpdate(u, start, count)
    ensures forall i | start <= i < start + count :: OwnsBytes(u, cells, i)
  {
    forall i | start <= i < start + count
      ensures OwnsBytes(u, cells, i) && u.graphemeOffsets[i] + u.graphemeLengths[i] <= |u.graphemes|
    {
      SpanOfCell(u, cells, i);
    }
  }

  /** The numeric columns of cells `start` on are those of the slab. */
  ghost predicate SameColumns(u: Packed, start: nat, slab: seq<PackedCell>)
    requires SlabInUpdate(u, start, |slab|)
  {
    var end := start + |slab|;
    && u.styles[start..end] == Styles(slab) && u.foregrounds[start..end] == Foregrounds(slab)
    && u.backgrounds[start..end] == Backgrounds(slab) && u.graphemeLengths[start..end] == Lengths(slab)
  }

  ghost predicate IsRun(cells: seq<PackedCell>, start: nat, slab: seq<PackedCell>) {
    start + |slab| <= |cells| && forall c | 0 <= c < |slab| :: slab[c] == cells[start + c]
  }

  lemma {:induction false} ColorSlices(cells: seq<PackedCell>, start: nat, slab: seq<PackedCell>)
    requires IsRun(cells, start, slab)
    ensures Foregrounds(cells)[start..start + |slab|] == Foregrounds(slab)
    ensures Backgrounds(cells)[start..start + |slab|] == Backgrounds(slab)
  {
  }

  lemma {:induction false} StyleAndLengthSlices(cells: seq<PackedCell>, start: nat, slab: seq<PackedCell>)
    requires IsRun(cells, start, slab)
    ensures Styles(cells)[start..start + |slab|] == Styles(slab)
    ensures Lengths(cells)[start..start + |slab|] == Lengths(slab)
  {
  }

  lemma {:induction false} CarriedColumns(u: Packed, cells: seq<PackedCell>, start: nat, slab: seq<PackedCell>)
    requires Carries(u, cells) && IsRun(cells, start, slab)
    requires SlabInUpdate(u, start, |slab|)
    ensures SameColumns(u, start, slab)
  {
    ColorSlices(cells, start, slab);
    StyleAndLengthSlices(cells, start, slab);
  }

  lemma {:induction false} SlabTexts(u: Packed, cells: seq<PackedCell>, start: nat, slab: seq<PackedCell>, c: nat)
    requires SlabInUpdate(u, start, |slab|) && start + |slab| <= |cells| && slab == cells[start..start + |slab|]
    requires forall i | start <= i < start + |slab| :: OwnsBytes(u, cells, i)
    requires c <= |slab|
    ensures SlabBytes(u, start, c) == BytesOf(slab, 0, c)
  {
    SlabBytesAreTheirs(u, cells, start, c);
    SliceBytes(cells, start, slab, c);
  }

  lemma {:induction false} SlabOffsets(u: Packed, cells: seq<PackedCell>, start: nat, slab: seq<PackedCell>, flags: nat)
    requires SlabInUpdate(u, start, |slab|) && start + |slab| <= |cells| && slab == cells[start..start + |slab|]
    requires forall i | start <= i < start + |slab| :: OwnsBytes(u, cells, i)
    ensures SlabLine(u, start, |slab|, flags).offsets == Offsets(slab)
  {
    var offsets := SlabLine(u, start, |slab|, flags).offsets;
    forall c | 0 <= c < |slab| ensures offsets[c] == Offsets(slab)[c] {
      SlabTexts(u, cells, start, slab, c);
    }
  }

  lemma {:induction false} SlabLineFrom(u: Packed, cells: seq<PackedCell>, start: nat, slab: seq<PackedCell>,
                                        flags: nat)
    requires SlabInUpdate(u, start, |slab|) && start + |slab| <= |cells| && slab == cells[start..start + |slab|]
    requires forall i | start <= i < start + |slab| :: OwnsBytes(u, cells, i)
    requires SameColumns(u, start, slab)
    ensures SlabLine(u, start, |slab|, flags) == LineFrom(slab, flags)
  {
    SlabOffsets(u, cells, start, slab, flags);
    SlabTexts(u, cells, start, slab, |slab|);
  }

  /** A line cut from packed cells holds exactly those cells. */
  lemma {:induction false} SlabLineColumns(u: Packed, cells: seq<PackedCell>, start: nat, slab: seq<PackedCell>,
                                           flags: nat)
    requires Carries(u, cells) && start + |slab| <= |cells| && slab == cells[start..start + |slab|]
    ensures SlabInUpdate(u, start, |slab|)
    ensures SlabLine(u, start, |slab|, flags) == LineFrom(slab, flags)
  {
    CarriedSlab(u, cells, start, |slab|);
    assert IsRun(cells, start, slab);
    CarriedColumns(u, cells, start, slab);
    SlabLineFrom(u, cells, start, slab, flags);
  }

  lemma {:induction false} SlabPayloadBound(cells: seq<PackedCell>, start: nat, slab: seq<PackedCell>)
    requires start + |slab| <= |cells| && slab == cells[start..start + |slab|]
    ensures |Payload(slab)| <= |Payload(cells)|
  {
    SliceBytes(cells, start, slab, |slab|);
    BytesSplit(cells, 0, start, start + |slab|);
    BytesSplit(cells, 0, start + |slab|, |cells|);
  }

  lemma {:induction false} TextAtSpan(line: Line, c: nat, bytes: seq<nat>)
    requires c < |line.offsets| && c < |line.lengths| && line.lengths[c] == |bytes|
    requires var start := line.offsets[c];
             start + |bytes| <= |line.bytes| && line.bytes[start..start + |bytes|] == bytes
    ensures TextAt(line, c) == DecodeText(bytes)
  {
    if bytes == [] {
      assert Decode([]) == [];
    }
  }

  /** One packed cell, read back out of its retained line. */
  lemma {:induction false} PackedTextReadsBack(slab: seq<PackedCell>, flags: nat, c: nat)
    requires c < |slab| && |Payload(slab)| < U32_RANGE
    ensures TextAt(LineFrom(slab, flags), c) == DecodeText(slab[c].bytes)
  {
    PayloadSlice(slab, c);
    TextAtSpan(LineFrom(slab, flags), c, slab[c].bytes);
  }

  lemma {:induction false} LineCellReadsBack(s: Snapshot, r: nat, c: nat)
    requires r < |s.rowData| && c < |s.rowData[r].cells| && c < s.cols
    requires |Payload(RowCells(s, r))| < U32_RANGE
    ensures var line := LineFrom(RowCells(s, r), FlagsAt(s, r));
            CellsOf(line, s.cols)[c] == SeenCell(s.rowData[r].cells[c])
  {
    var cell := s.rowData[r].cells[c];
    var slab := RowCells(s, r);
    var line := LineFrom(slab, FlagsAt(s, r));
    assert slab[c] == PackCell(s, r, c);
    PackedTextReadsBack(slab, line.flags, c);
    CellReadsBack(cell);
  }

  lemma {:induction false} LineCellsReadBack(s: Snapshot, r: nat)
    requires r < |s.rowData| && |s.rowData[r].cells| == s.cols
    requires |Payload(RowCells(s, r))| < U32_RANGE
    ensures CellsOf(LineFrom(RowCells(s, r), FlagsAt(s, r)), s.cols) == SeenCells(s.rowData[r].cells)
  {
    var cells := CellsOf(LineFrom(RowCells(s, r), FlagsAt(s, r)), s.cols);
    forall c | 0 <= c < s.cols ensures cells[c] == SeenCells(s.rowData[r].cells)[c] {
      LineCellReadsBack(s, r, c);
    }
  }

  lemma {:induction false} FlagsReadBack(row: Row)
    ensures PackRowFlags(row) % 2 == 1 <==> row.isWrapContinuation
    ensures PackRowFlags(row) / 2 % 2 == 1 <==> row.wrapsToNext
  {
  }

  lemma {:induction false} LineReadsBack(s: Snapshot, r: nat)
    requires r < |s.rowData| && |s.rowData[r].cells| == s.cols
    requires |Payload(RowCells(s, r))| < U32_RANGE
    ensures MaterializeRow(LineFrom(RowCells(s, r), FlagsAt(s, r)), s.cols) == SeenRow(s.rowData[r])
  {
    LineCellsReadBack(s, r);
    FlagsReadBack(s.rowData[r]);
  }

  lemma {:induction false} CarriedLine(u: Packed, cells: seq<PackedCell>, start: nat, slab: seq<PackedCell>, flags: nat)
    requires Carries(u, cells) && start + |slab| <= |cells| && slab == cells[start..start + |slab|]
    ensures SlabInUpdate(u, start, |slab|)
    ensures SlabLine(u, start, |slab|, flags) == LineFrom(slab, flags) && |Payload(slab)| < U32_RANGE
  {
    SlabLineColumns(u, cells, start, slab, flags);
    SlabPayloadBound(cells, start, slab);
  }

  /** The line of an included row is exactly that row's packed cells. */
  lemma {:induction false} PackedLine(u: Packed, cells: seq<PackedCell>, k: nat, start: nat, slab: seq<PackedCell>)
    requires WellFormedUpdate(u) && k < |u.dirtyRows| && |slab| == u.cols && start == Slab(k, u.cols)
    requires Carries(u, cells) && start + |slab| <= |cells| && slab == cells[start..start + |slab|]
    ensures LineOf(u, k) == LineFrom(slab, u.rowFlags[k]) && |Payload(slab)| < U32_RANGE
  {
    CarriedLine(u, cells, start, slab, u.rowFlags[k]);
  }

  lemma {:induction false} CarriedLineIs(u: Packed, s: Snapshot, k: nat, r: nat)
    requires WellFormedUpdate(u) && k < |u.dirtyRows| && u.cols == s.cols && r == u.dirtyRows[k]
    requires Carries(u, FlatCells(s, u.dirtyRows)) && u.rowFlags[k] == FlagsAt(s, r)
    ensures LineOf(u, k) == LineFrom(RowCells(s, r), FlagsAt(s, r)) && |Payload(RowCells(s, r))| < U32_RANGE
  {
    hide LineOf, LineFrom, RowCells, FlatCells, Payload, WellFormedUpdate, FlagsAt;
    FlatSlab(s, u.dirtyRows, k);
    PackedLine(u, FlatCells(s, u.dirtyRows), k, Slab(k, s.cols), RowCells(s, r));
  }

  lemma {:induction false} CarriedRowReadsBack(u: Packed, s: Snapshot, k: nat, r: nat)
    requires WellFormedUpdate(u) && k < |u.dirtyRows| && u.cols == s.cols && r == u.dirtyRows[k]
    requires Carries(u, FlatCells(s, u.dirtyRows)) && u.rowFlags[k] == FlagsAt(s, r)
    requires r < |s.rowData| && |s.rowData[r].cells| == s.cols
    ensures MaterializeRow(LineOf(u, k), s.cols) == SeenRow(s.rowData[r])
  {
    hide LineOf, LineFrom, RowCells, FlatCells, Payload, WellFormedUpdate, FlagsAt, MaterializeRow, SeenRow, Carries;
    CarriedLineIs(u, s, k, r);
    LineReadsBack(s, r);
  }

  /**
    A packed row reads back as the seen row: offsets, lengths, payload, colors,
    style bits and wrap flags together lose nothing else.
    */
  lemma {:induction false} PackedRowReadsBack(s: Snapshot, frameId: int, generation: int, full: bool, k: nat)
    requires Complete(s)
    requires var u := Pack(s, frameId, generation, full);
             WellFormedUpdate(u) && k < |u.dirtyRows| && |u.graphemes| < U32_RANGE
    ensures var u := Pack(s, frameId, generation, full);
            MaterializeRow(LineOf(u, k), s.cols) == SeenRow(s.rowData[u.dirtyRows[k]])
  {
    var u := Pack(s, frameId, generation, full);
    var r := u.dirtyRows[k];
    assert s.rowData[r] in s.rowData;
    CarriedRowReadsBack(u, s, k, r);
  }

  lemma MissingCellPacks(s: Snapshot, r: nat, c: nat)
    requires r < |s.rowData| ==> |s.rowData[r].cells| <= c
    ensures PackCell(s, r, c) == PackedCell([], PackColor(s.foreground), PackColor(s.background), 0)
  {
  }

  lemma UnstyledCell(text: Text, foreground: nat, background: nat)
    ensures UnpackCell(text, foreground, background, 0)
            == Cell(text, 0, UnpackColor(foreground), UnpackColor(background),
                    false, false, false, false, false, 0, false)
  {
  }

  /** A column the snapshot's row has no cell for, as it is packed. */
  lemma {:induction false} MissingCellReadsBack(s: Snapshot, r: nat, c: nat)
    requires c < s.cols && (r < |s.rowData| ==> |s.rowData[r].cells| <= c)
    requires |Payload(RowCells(s, r))| < U32_RANGE
    ensures CellsOf(LineFrom(RowCells(s, r), FlagsAt(s, r)), s.cols)[c]
            == Cell([], 0, SeenColor(s.foreground), SeenColor(s.background),
                    false, false, false, false, false, 0, false)
  {
    hide DecodeText, TextAt, PackCell, PackColor, UnpackColor, SeenColor, UnpackCell;
    hide FlagsAt, Payload, Offsets, Lengths;
    assert RowCells(s, r)[c] == PackCell(s, r, c);
    hide RowCells;
    MissingCellPacks(s, r, c);
    PackedTextReadsBack(RowCells(s, r), FlagsAt(s, r), c);
    NoBytesNoText();
    ColorReadsBack(s.foreground);
    ColorReadsBack(s.background);
    UnstyledCell([], PackColor(s.foreground), PackColor(s.background));
  }

  lemma NoBytesNoText()
    ensures DecodeText([]) == []
  {
    assert Decode([]) == [];
  }

  /** One column of a packed row, as it reads back. */
  lemma PaddedCell(s: Snapshot, r: nat, c: nat)
    requires c < s.cols && |Payload(RowCells(s, r))| < U32_RANGE
    ensures CellsOf(LineFrom(RowCells(s, r), FlagsAt(s, r)), s.cols)[c]
            == if r < |s.rowData| && c < |s.rowData[r].cells| then SeenCell(s.rowData[r].cells[c])
               else Cell([], 0, SeenColor(s.foreground), SeenColor(s.background),
                         false, false, false, false, false, 0, false)
  {
    hide LineFrom, RowCells, FlagsAt, Payload, SeenCell, SeenColor, TextAt, UnpackCell;
    if r < |s.rowData| && c < |s.rowData[r].cells| {
      LineCellReadsBack(s, r, c);
    } else {
      MissingCellReadsBack(s, r, c);
    }
  }

  lemma PaddedFlags(s: Snapshot, r: nat)
    ensures FlagsAt(s, r) % 2 == 1 <==> r < |s.rowData| && s.rowData[r].isWrapContinuation
    ensures FlagsAt(s, r) / 2 % 2 == 1 <==> r < |s.rowData| && s.rowData[r].wrapsToNext
  {
    if r < |s.rowData| {
      FlagsReadBack(s.rowData[r]);
    }
  }

  /**
    Packing takes any snapshot: rows and cells it does not have read back as blank
    ones in its colors, without flags, and cells past its width are cut.
    */
  lemma {:induction false} PackedRowIsPadded(s: Snapshot, frameId: int, generation: int, full: bool, k: nat, c: nat)
    requires var u := Pack(s, frameId, generation, full);
             WellFormedUpdate(u) && k < |u.dirtyRows| && |u.graphemes| < U32_RANGE
    requires c < s.cols
    ensures var u := Pack(s, frameId, generation, full);
            var r, row := u.dirtyRows[k], MaterializeRow(LineOf(u, k), s.cols);
            && |row.cells| == s.cols && row.text == RowText(row.cells)
            && row.cells[c] == (if r < |s.rowData| && c < |s.rowData[r].cells| then SeenCell(s.rowData[r].cells[c])
                                else Cell([], 0, SeenColor(s.foreground), SeenColor(s.background),
                                          false, false, false, false, false, 0, false))
            && (row.isWrapContinuation <==> r < |s.rowData| && s.rowData[r].isWrapContinuation)
            && (row.wrapsToNext <==> r < |s.rowData| && s.rowData[r].wrapsToNext)
  {
    hide LineOf, RowCells, FlatCells, FlagsAt, SeenCell, SeenColor, RowText, TextAt, UnpackCell, CellsOk, RowsOk;
    hide CellsOf;
    var u := Pack(s, frameId, generation, full);
    var r := u.dirtyRows[k];
    CarriedLineIs(u, s, k, r);
    hide Pack, WellFormedUpdate;
    PaddedCell(s, r, c);
    PaddedFlags(s, r);
  }

  /** Scattering to distinct places: each row gets its own line, the rest stay. */
  lemma {:induction false} ScatterPointwise<T>(base: seq<T>, rows: seq<nat>, incoming: seq<T>)
    requires |rows| == |incoming| && StrictlyIncreasing(rows)
    requires forall k | 0 <= k < |rows| :: rows[k] < |base|
    ensures forall k | 0 <= k < |rows| :: Scatter(base, rows, incoming)[rows[k]] == incoming[k]
    ensures forall r | 0 <= r < |base| && r !in rows :: Scatter(base, rows, incoming)[r] == base[r]
    decreases |rows|
  {
    if rows != [] {
      var n := |rows| - 1;
      ScatterPointwise(base, rows[..n], incoming[..n]);
      assert rows == rows[..n] + [rows[n]];
    }
  }

  lemma {:induction false} ScatterFrom<T>(base: seq<T>, rows: seq<nat>, incoming: seq<T>)
    requires |rows| == |incoming|
    requires forall k | 0 <= k < |rows| :: rows[k] < |base|
    ensures forall x | x in Scatter(base, rows, incoming) :: x in base || x in incoming
    decreases |rows|
  {
    if rows != [] {
      ScatterFrom(base, rows[..|rows| - 1], incoming[..|rows| - 1]);
    }
  }

  /** Applying keeps a viewport valid, and accepts exactly the admitted updates. */
  lemma {:induction false} ApplyIsSound(v: Viewport, u: Packed)
    requires Valid(v)
    ensures Apply(v, u).0 <==> Admits(v, u)
    ensures Valid(Apply(v, u).1)
    ensures !Apply(v, u).0 ==> Apply(v, u).1 == v
  {
    if Admits(v, u) {
      var lines := if u.full then BlankLines(u.cols, u.rows) else v.lines;
      ScatterFrom(lines, u.dirtyRows, NewLines(u));
    }
  }

  /**
    Which updates are taken: those of a later generation or of a later frame of
    the same one, if they are full or the generation and the size stay.
    */
  lemma TakesIff(v: Viewport, u: Packed)
    requires Valid(v)
    ensures Apply(v, u).0 <==>
              && WellFormedUpdate(u)
              && (u.generation > v.generation || (u.generation == v.generation && u.frameId > v.frameId))
              && (u.full || (u.generation == v.generation && u.cols == v.cols && u.rows == v.rows))
  {
  }

  /** A new viewport shows nothing, in the colors of a terminal that sets none. */
  lemma EmptyShowsNothing()
    ensures EMPTY.foreground == EMPTY.cursor == PackColor(Color(229, 231, 235))
    ensures EMPTY.background == PackColor(Color(0, 0, 0))
    ensures EMPTY.lines == [] && EMPTY.cursorX == EMPTY.cursorY == -1 && !EMPTY.cursorVisible
  {
  }

  /** It takes any full update, and no other. */
  lemma EmptyTakesFull(u: Packed)
    ensures Apply(EMPTY, u).0 <==> WellFormedUpdate(u) && u.full
  {
    hide Apply, LengthsOk, RowsOk, CellsOk;
    TakesIff(EMPTY, u);
  }

  /** So none is taken twice, and none that is older than one taken. */
  lemma TakenOnce(v: Viewport, u: Packed, w: Packed)
    requires Valid(v) && Apply(v, u).0
    requires w.generation < u.generation || (w.generation == u.generation && w.frameId <= u.frameId)
    ensures Valid(Apply(v, u).1) && Apply(Apply(v, u).1, w) == (false, Apply(v, u).1)
  {
    ApplyIsSound(v, u);
    AppliedHeader(v, u);
    TakesIff(Apply(v, u).1, w);
    ApplyIsSound(Apply(v, u).1, w);
  }

  lemma {:induction false} AppliedHeader(v: Viewport, u: Packed)
    requires Valid(v) && Admits(v, u)
    ensures var after := Apply(v, u).1;
            && Valid(after) && after.frameId == u.frameId && after.generation == u.generation
            && after.cols == u.cols && after.rows == u.rows
  {
    ApplyIsSound(v, u);
  }

  /** The viewport shows row `r` of the snapshot as well as packing allows. */
  predicate Shows(v: Viewport, s: Snapshot, r: nat)
    requires Valid(v) && r < v.rows && r < |s.rowData|
  {
    assert v.lines[r] in v.lines;
    MaterializeRow(v.lines[r], v.cols) == SeenRow(s.rowData[r])
  }

  /** Everything but the rows: grid size, colors and cursor. */
  predicate SameFrame(v: Viewport, s: Snapshot) {
    && v.cols == s.cols && v.rows == s.rows
    && v.foreground == PackColor(s.foreground) && v.background == PackColor(s.background)
    && v.cursor == PackColor(s.cursor)
    && v.cursorX == s.cursorX && v.cursorY == s.cursorY && v.cursorVisible == s.cursorVisible
    && v.cursorBlinking == s.cursorBlinking && v.cursorStyle == s.cursorStyle
  }

  predicate ShowsAll(v: Viewport, s: Snapshot) {
    && Valid(v) && Complete(s) && SameFrame(v, s)
    && forall r | 0 <= r < s.rows :: Shows(v, s, r)
  }

  lemma {:induction false} IncludesAllRows(s: Snapshot, r: nat)
    requires r < s.rows
    ensures r in IncludedRows(s, true)
  {
    assert AllRows(s.rows)[r] == r;
  }

  /** Which line a delivered update leaves in row `r`. */
  lemma {:induction false} DeliveredLine(v: Viewport, u: Packed, r: nat)
    requires Valid(v) && Admits(v, u) && r < u.rows
    ensures var after := Apply(v, u).1;
            && Valid(after) && after.rows == u.rows && after.cols == u.cols
            && (forall k | 0 <= k < |u.dirtyRows| && u.dirtyRows[k] == r :: after.lines[r] == LineOf(u, k))
            && (!u.full && r !in u.dirtyRows ==> after.lines[r] == v.lines[r])
  {
    var lines := if u.full then BlankLines(u.cols, u.rows) else v.lines;
    AppliedHeader(v, u);
    ScatterPointwise(lines, u.dirtyRows, NewLines(u));
  }

  lemma {:induction false} DeliveredRow(v: Viewport, s: Snapshot, frameId: int, generation: int, full: bool, r: nat)
    requires Valid(v) && Complete(s) && r < s.rows
    requires var u := Pack(s, frameId, generation, full);
             Admits(v, u) && |u.graphemes| < U32_RANGE
    requires !full && r !in s.dirtyRows ==> r < v.rows && Shows(v, s, r)
    ensures var after := Apply(v, Pack(s, frameId, generation, full)).1;
            && Valid(after) && after.rows == s.rows && Shows(after, s, r)
  {
    var u := Pack(s, frameId, generation, full);
    DeliveredLine(v, u, r);
    if r in u.dirtyRows {
      var k :| 0 <= k < |u.dirtyRows| && u.dirtyRows[k] == r;
      PackedRowReadsBack(s, frameId, generation, full, k);
    } else {
      IncludesAllRows(s, r);
      SortRowsSorts(s.dirtyRows);
    }
  }

  /** A delivered update brings the viewport up to the snapshot it was built from. */
  lemma {:induction false} DeliveryAgrees(v: Viewport, s: Snapshot, frameId: int, generation: int, full: bool)
    requires Valid(v) && Complete(s)
    requires var u := Pack(s, frameId, generation, full);
             Admits(v, u) && |u.graphemes| < U32_RANGE
    requires !full ==> forall r | 0 <= r < s.rows && r !in s.dirtyRows :: Shows(v, s, r)
    ensures var (accepted, after) := Apply(v, Pack(s, frameId, generation, full));
            accepted && ShowsAll(after, s)
  {
    var after := Apply(v, Pack(s, frameId, generation, full)).1;
    ApplyIsSound(v, Pack(s, frameId, generation, full));
    forall r | 0 <= r < s.rows ensures Shows(after, s, r) {
      DeliveredRow(v, s, frameId, generation, full, r);
    }
  }
}
