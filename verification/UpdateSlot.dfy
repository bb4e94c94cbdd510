/**
  One slot of the update ring: eight growing typed arrays, filled in place from
  a snapshot. A typed array and its storage are one Dafny array here; an update
  handed out is a set of views into those arrays.
  */
module UpdateSlot {
  import opened Utf8Text
  import opened RenderModel
  import opened PackedUpdate
  import opened CapacityPolicy

  /** `subarray(0, length)` of a buffer. */
  datatype View = View(buffer: array<nat>, length: nat) {
    ghost predicate Fits() { length <= buffer.Length }

    function Elements(): seq<nat>
      requires Fits()
      reads buffer
    {
      buffer[..length]
    }
  }

  /** The numbers of an update that are not stored in a buffer. */
  datatype Header = Header(
    frameId: int,
    generation: int,
    cols: int,
    rows: int,
    full: bool,
    foreground: nat,
    background: nat,
    cursor: nat,
    cursorX: int,
    cursorY: int,
    cursorVisible: bool,
    cursorBlinking: bool,
    cursorStyle: int)

  /** An update in flight. Its identity is what a release is matched by. */
  class RenderUpdate {
    const header: Header
    const dirtyRows: View
    const rowFlags: View
    const graphemeOffsets: View
    const graphemeLengths: View
    const foregrounds: View
    const backgrounds: View
    const styles: View
    const graphemes: View

    constructor (header: Header, dirtyRows: View, rowFlags: View, graphemeOffsets: View, graphemeLengths: View,
                 foregrounds: View, backgrounds: View, styles: View, graphemes: View)
      ensures this.header == header && this.dirtyRows == dirtyRows && this.rowFlags == rowFlags
      ensures this.graphemeOffsets == graphemeOffsets && this.graphemeLengths == graphemeLengths
      ensures this.foregrounds == foregrounds && this.backgrounds == backgrounds
      ensures this.styles == styles && this.graphemes == graphemes
    {
      this.header := header;
      this.dirtyRows, this.rowFlags := dirtyRows, rowFlags;
      this.graphemeOffsets, this.graphemeLengths := graphemeOffsets, graphemeLengths;
      this.foregrounds, this.backgrounds := foregrounds, backgrounds;
      this.styles, this.graphemes := styles, graphemes;
    }

    function Buffers(): (buffers: seq<array<nat>>)
      ensures |buffers| == 8
    {
      [dirtyRows.buffer, rowFlags.buffer, graphemeOffsets.buffer, graphemeLengths.buffer,
       foregrounds.buffer, backgrounds.buffer, styles.buffer, graphemes.buffer]
    }

    ghost predicate Fits() {
      && dirtyRows.Fits() && rowFlags.Fits() && graphemeOffsets.Fits() && graphemeLengths.Fits()
      && foregrounds.Fits() && backgrounds.Fits() && styles.Fits() && graphemes.Fits()
    }

    /** The packed update its views currently hold. */
    function Contents(): Packed
      requires Fits()
      reads dirtyRows.buffer, rowFlags.buffer, graphemeOffsets.buffer, graphemeLengths.buffer
      reads foregrounds.buffer, backgrounds.buffer, styles.buffer, graphemes.buffer
    {
      var h := header;
      Packed(VERSION, h.frameId, h.generation, h.cols, h.rows, h.full, h.foreground, h.background, h.cursor,
             h.cursorX, h.cursorY, h.cursorVisible, h.cursorBlinking, h.cursorStyle,
             dirtyRows.Elements(), rowFlags.Elements(), graphemeOffsets.Elements(), graphemeLengths.Elements(),
             foregrounds.Elements(), backgrounds.Elements(), styles.Elements(), graphemes.Elements())
    }
  }

  /** Bytes that the views of an update read, each of them at least one element. */
  function UsedBy(update: RenderUpdate): nat {
    AtLeastOne(update.dirtyRows.length) * 4 + AtLeastOne(update.rowFlags.length)
    + AtLeastOne(update.graphemeOffsets.length) * 4 + AtLeastOne(update.graphemeLengths.length) * 4
    + AtLeastOne(update.foregrounds.length) * 4 + AtLeastOne(update.backgrounds.length) * 4
    + AtLeastOne(update.styles.length) * 2 + AtLeastOne(update.graphemes.length)
  }

  function CellText(s: Snapshot, row: nat, column: nat): Text {
    match RowAt(s, row)
    case Some(r) => if column < |r.cells| then r.cells[column].text else []
    case None => []
  }

  /** UTF-16 code units of a row from column `c` on. */
  function RowUnits(s: Snapshot, row: nat, c: nat): nat
    requires c <= s.cols
    decreases s.cols - c
  {
    if c == s.cols then 0 else |CellText(s, row, c)| + RowUnits(s, row, c + 1)
  }

  /** UTF-16 code units of the included rows from the `k`th on. */
  function RowsUnits(s: Snapshot, rows: seq<nat>, k: nat): nat
    requires k <= |rows|
    decreases |rows| - k
  {
    if k == |rows| then 0 else RowUnits(s, rows[k], 0) + RowsUnits(s, rows, k + 1)
  }

  /** The payload bytes reserved for the included rows: three for each code unit. */
  method ReserveGraphemes(s: Snapshot, rows: seq<nat>) returns (capacity: nat)
    ensures capacity == 3 * RowsUnits(s, rows, 0)
  {
    capacity := 0;
    for k := 0 to |rows|
      invariant capacity + 3 * RowsUnits(s, rows, k) == 3 * RowsUnits(s, rows, 0)
    {
      for c := 0 to s.cols
        invariant capacity + 3 * (RowUnits(s, rows[k], c) + RowsUnits(s, rows, k + 1)) == 3 * RowsUnits(s, rows, 0)
      {
        capacity := capacity + |CellText(s, rows[k], c)| * 3;
      }
    }
  }

  /** Keep a buffer that is long enough, or buy the next capacity. */
  method EnsureBuffer(value: array<nat>, required: nat) returns (buffer: array<nat>)
    ensures buffer == value || fresh(buffer)
    ensures buffer.Length >= 1 && buffer.Length >= required && buffer.Length >= value.Length
    ensures KeptOrBought(value, buffer, required)
  {
    if value.Length > 0 && value.Length >= required {
      buffer := value;
    } else {
      var capacity := GrowCapacity(1, required);
      buffer := new nat[capacity];
    }
  }

  /** A buffer is kept if it was long enough, and else is one of the next capacity. */
  ghost predicate KeptOrBought(before: array<nat>, after: array<nat>, required: nat) {
    if before.Length >= 1 && before.Length >= required then after == before else after.Length == NextCapacity(required)
  }

  function AtLeastOne(n: nat): (m: nat)
    ensures m >= 1 && n <= m <= n + 1 && (n >= 1 ==> m == n)
  {
    if n == 0 then 1 else n
  }

  /** Buffer `n` is none of the earlier ones, and so on down. */
  ghost predicate DistinctUpTo(buffers: seq<array<nat>>, n: nat)
    requires n <= |buffers|
  {
    n == 0 || (DistinctUpTo(buffers, n - 1) && forall i | 0 <= i < n - 1 :: buffers[i] != buffers[n - 1])
  }

  /** No buffer occurs twice. */
  ghost predicate Distinct(buffers: seq<array<nat>>) {
    DistinctUpTo(buffers, |buffers|)
  }

  lemma {:induction false} DistinctPairs(buffers: seq<array<nat>>, n: nat)
    requires n <= |buffers|
    ensures DistinctUpTo(buffers, n) <==> forall i, j | 0 <= i < j < n :: buffers[i] != buffers[j]
  {
    if n > 0 {
      DistinctPairs(buffers, n - 1);
    }
  }

  /** A buffer from elsewhere may take the place of one of them. */
  lemma {:induction false} DistinctReplace(buffers: seq<array<nat>>, i: nat, buffer: array<nat>)
    requires i < |buffers| && Distinct(buffers) && (buffer == buffers[i] || buffer !in buffers)
    ensures Distinct(buffers[i := buffer])
  {
    DistinctPairs(buffers, |buffers|);
    DistinctPairs(buffers[i := buffer], |buffers|);
  }

  class Slot {
    const id: nat
    var inFlight: bool
    var leaseToken: nat
    var dirtyRows: array<nat>
    var rowFlags: array<nat>
    var graphemeOffsets: array<nat>
    var graphemeLengths: array<nat>
    var foregrounds: array<nat>
    var backgrounds: array<nat>
    var styles: array<nat>
    var graphemes: array<nat>
    var targetRows: nat
    var targetCells: nat
    var targetGraphemes: nat

    function Buffers(): (buffers: seq<array<nat>>)
      reads `dirtyRows, `rowFlags, `graphemeOffsets, `graphemeLengths, `foregrounds, `backgrounds, `styles, `graphemes
      ensures |buffers| == 8
    {
      [dirtyRows, rowFlags, graphemeOffsets, graphemeLengths, foregrounds, backgrounds, styles, graphemes]
    }

    /** The eight buffers are eight different ones. */
    ghost predicate Separate()
      reads `dirtyRows, `rowFlags, `graphemeOffsets, `graphemeLengths, `foregrounds, `backgrounds, `styles, `graphemes
    {
      Distinct(Buffers())
    }

    lemma Apart()
      requires Separate()
      ensures dirtyRows != rowFlags && dirtyRows != graphemeOffsets && dirtyRows != graphemeLengths
      ensures dirtyRows != foregrounds && dirtyRows != backgrounds && dirtyRows != styles
      ensures dirtyRows != graphemes
      ensures rowFlags != graphemeOffsets && rowFlags != graphemeLengths && rowFlags != foregrounds
      ensures rowFlags != backgrounds && rowFlags != styles && rowFlags != graphemes
      ensures graphemeOffsets != graphemeLengths && graphemeOffsets != foregrounds && graphemeOffsets != backgrounds
      ensures graphemeOffsets != styles && graphemeOffsets != graphemes
      ensures graphemeLengths != foregrounds && graphemeLengths != backgrounds && graphemeLengths != styles
      ensures graphemeLengths != graphemes
      ensures foregrounds != backgrounds && foregrounds != styles && foregrounds != graphemes
      ensures backgrounds != styles && backgrounds != graphemes
      ensures styles != graphemes
    {
      var b := Buffers();
      DistinctPairs(b, 8);
      assert b[0] == dirtyRows && b[1] == rowFlags && b[2] == graphemeOffsets && b[3] == graphemeLengths;
      assert b[4] == foregrounds && b[5] == backgrounds && b[6] == styles && b[7] == graphemes;
    }

    function Bytes(): nat
      reads this
    {
      dirtyRows.Length * 4 + rowFlags.Length + graphemeOffsets.Length * 4 + graphemeLengths.Length * 4
      + foregrounds.Length * 4 + backgrounds.Length * 4 + styles.Length * 2 + graphemes.Length
    }

    function UsedBytes(): nat
      reads this
    {
      targetRows * 5 + targetCells * 18 + targetGraphemes
    }

    function TargetBytes(): (bytes: nat)
      reads this
      ensures bytes >= 2 * UsedBytes()
    {
      NextCapacity(targetRows * 2) * 5 + NextCapacity(targetCells * 2) * 18 + NextCapacity(targetGraphemes * 2)
    }

    /** Every buffer holds at least what the last build used of it. */
    ghost predicate Covers()
      reads this
    {
      && targetRows >= 1 && targetCells >= 1 && targetGraphemes >= 1
      && dirtyRows.Length >= targetRows && rowFlags.Length >= targetRows
      && graphemeOffsets.Length >= targetCells && graphemeLengths.Length >= targetCells
      && foregrounds.Length >= targetCells && backgrounds.Length >= targetCells && styles.Length >= targetCells
      && graphemes.Length >= targetGraphemes
    }

    /** Trimming leaves room for twice what the last build used, and less than four times. */
    lemma TargetIsTight()
      requires Covers()
      ensures 2 * UsedBytes() <= TargetBytes() < 4 * UsedBytes()
    {
      NextCapacityIsTight(targetRows * 2);
      NextCapacityIsTight(targetCells * 2);
      NextCapacityIsTight(targetGraphemes * 2);
    }

    lemma NoneEmpty()
      requires Covers()
      ensures forall k | 0 <= k < 8 :: Buffers()[k].Length >= 1
    {
    }

    constructor (id: nat)
      ensures this.id == id && !inFlight && leaseToken == 0
      ensures Separate() && Covers()
      ensures fresh(dirtyRows) && fresh(rowFlags) && fresh(graphemeOffsets) && fresh(graphemeLengths)
      ensures fresh(foregrounds) && fresh(backgrounds) && fresh(styles) && fresh(graphemes)
      ensures Bytes() == 24
    {
      this.id := id;
      inFlight, leaseToken := false, 0;
      dirtyRows, rowFlags := new nat[1], new nat[1];
      graphemeOffsets, graphemeLengths := new nat[1], new nat[1];
      foregrounds, backgrounds := new nat[1], new nat[1];
      styles, graphemes := new nat[1], new nat[1];
      targetRows, targetCells, targetGraphemes := 1, 1, 1;
      new;
      DistinctPairs(Buffers(), 8);
    }

    /** Grow the row buffers that are too short. */
    method ReserveRows(rowCount: nat)
      requires Separate()
      modifies this`dirtyRows, this`rowFlags
      ensures Separate()
      ensures dirtyRows == old(dirtyRows) || fresh(dirtyRows)
      ensures rowFlags == old(rowFlags) || fresh(rowFlags)
      ensures dirtyRows.Length >= AtLeastOne(rowCount) && dirtyRows.Length >= old(dirtyRows.Length)
      ensures rowFlags.Length >= AtLeastOne(rowCount) && rowFlags.Length >= old(rowFlags.Length)
      ensures KeptOrBought(old(dirtyRows), dirtyRows, rowCount) && KeptOrBought(old(rowFlags), rowFlags, rowCount)
    {
      hide KeptOrBought;
      var dirtyRows' := EnsureBuffer(dirtyRows, rowCount);
      ghost var buffers := Buffers();
      DistinctReplace(buffers, 0, dirtyRows');
      dirtyRows := dirtyRows';
      assert Buffers() == buffers[0 := dirtyRows'];
      var rowFlags' := EnsureBuffer(rowFlags, rowCount);
      buffers := Buffers();
      DistinctReplace(buffers, 1, rowFlags');
      rowFlags := rowFlags';
      assert Buffers() == buffers[1 := rowFlags'];
    }

    /** Grow the first cell buffers that are too short. */
    method ReserveSpansAndText(cellCount: nat, graphemeCapacity: nat)
      requires Separate()
      modifies this`graphemeOffsets, this`graphemeLengths, this`graphemes
      ensures Separate()
      ensures graphemeOffsets == old(graphemeOffsets) || fresh(graphemeOffsets)
      ensures graphemeLengths == old(graphemeLengths) || fresh(graphemeLengths)
      ensures graphemes == old(graphemes) || fresh(graphemes)
      ensures graphemeOffsets.Length >= AtLeastOne(cellCount) && graphemeOffsets.Length >= old(graphemeOffsets.Length)
      ensures graphemeLengths.Length >= AtLeastOne(cellCount) && graphemeLengths.Length >= old(graphemeLengths.Length)
      ensures graphemes.Length >= AtLeastOne(graphemeCapacity) && graphemes.Length >= old(graphemes.Length)
      ensures KeptOrBought(old(graphemeOffsets), graphemeOffsets, cellCount)
      ensures KeptOrBought(old(graphemeLengths), graphemeLengths, cellCount)
      ensures KeptOrBought(old(graphemes), graphemes, graphemeCapacity)
    {
      hide Distinct, KeptOrBought;
      var graphemeOffsets' := EnsureBuffer(graphemeOffsets, cellCount);
      ghost var buffers := Buffers();
      DistinctReplace(buffers, 2, graphemeOffsets');
      graphemeOffsets := graphemeOffsets';
      assert Buffers() == buffers[2 := graphemeOffsets'];
      var graphemeLengths' := EnsureBuffer(graphemeLengths, cellCount);
      buffers := Buffers();
      DistinctReplace(buffers, 3, graphemeLengths');
      graphemeLengths := graphemeLengths';
      assert Buffers() == buffers[3 := graphemeLengths'];
      var graphemes' := EnsureBuffer(graphemes, graphemeCapacity);
      buffers := Buffers();
      DistinctReplace(buffers, 7, graphemes');
      graphemes := graphemes';
      assert Buffers() == buffers[7 := graphemes'];
    }

    method ReserveLooks(cellCount: nat)
      requires Separate()
      modifies this`foregrounds, this`backgrounds, this`styles
      ensures Separate()
      ensures foregrounds == old(foregrounds) || fresh(foregrounds)
      ensures backgrounds == old(backgrounds) || fresh(backgrounds)
      ensures styles == old(styles) || fresh(styles)
      ensures foregrounds.Length >= AtLeastOne(cellCount) && foregrounds.Length >= old(foregrounds.Length)
      ensures backgrounds.Length >= AtLeastOne(cellCount) && backgrounds.Length >= old(backgrounds.Length)
      ensures styles.Length >= AtLeastOne(cellCount) && styles.Length >= old(styles.Length)
      ensures KeptOrBought(old(foregrounds), foregrounds, cellCount)
      ensures KeptOrBought(old(backgrounds), backgrounds, cellCount)
      ensures KeptOrBought(old(styles), styles, cellCount)
    {
      hide Distinct, KeptOrBought;
      var foregrounds' := EnsureBuffer(foregrounds, cellCount);
      ghost var buffers := Buffers();
      DistinctReplace(buffers, 4, foregrounds');
      foregrounds := foregrounds';
      assert Buffers() == buffers[4 := foregrounds'];
      var backgrounds' := EnsureBuffer(backgrounds, cellCount);
      buffers := Buffers();
      DistinctReplace(buffers, 5, backgrounds');
      backgrounds := backgrounds';
      assert Buffers() == buffers[5 := backgrounds'];
      var styles' := EnsureBuffer(styles, cellCount);
      buffers := Buffers();
      DistinctReplace(buffers, 6, styles');
      styles := styles';
      assert Buffers() == buffers[6 := styles'];
    }

    method ReserveAll(rowCount: nat, cellCount: nat, graphemeCapacity: nat)
      requires Separate()
      modifies this
      ensures Separate() && inFlight == old(inFlight) && leaseToken == old(leaseToken)
      ensures targetGraphemes == old(targetGraphemes)
      ensures targetRows == AtLeastOne(rowCount) && targetCells == AtLeastOne(cellCount)
      ensures OwnOrFresh() && NoShorter() && Grown(rowCount, cellCount, graphemeCapacity)
      ensures HasRoom(rowCount, cellCount, graphemeCapacity)
    {
      hide Separate, AtLeastOne, KeptOrBought;
      ReserveRows(rowCount);
      ReserveSpansAndText(cellCount, graphemeCapacity);
      ReserveLooks(cellCount);
      targetRows, targetCells := AtLeastOne(rowCount), AtLeastOne(cellCount);
    }

    /** Grow whatever is too short for the coming update. */
    method Reserve(rowCount: nat, cellCount: nat, graphemeCapacity: nat)
      requires Separate()
      modifies this
      ensures Separate() && inFlight == old(inFlight) && leaseToken == old(leaseToken)
      ensures targetGraphemes == old(targetGraphemes)
      ensures targetRows == AtLeastOne(rowCount) && targetCells == AtLeastOne(cellCount)
      ensures OwnOrFresh() && Grown(rowCount, cellCount, graphemeCapacity)
      ensures HasRoom(rowCount, cellCount, graphemeCapacity)
      ensures Bytes() >= old(Bytes())
    {
      hide Separate, OwnOrFresh, Grown, HasRoom, AtLeastOne;
      ReserveAll(rowCount, cellCount, graphemeCapacity);
    }

    twostate predicate NoShorter()
      reads this
    {
      && dirtyRows.Length >= old(dirtyRows.Length) && rowFlags.Length >= old(rowFlags.Length)
      && graphemeOffsets.Length >= old(graphemeOffsets.Length) && graphemeLengths.Length >= old(graphemeLengths.Length)
      && foregrounds.Length >= old(foregrounds.Length) && backgrounds.Length >= old(backgrounds.Length)
      && styles.Length >= old(styles.Length) && graphemes.Length >= old(graphemes.Length)
    }

    /** Each buffer is the one it was before, or newly allocated. */
    twostate predicate OwnOrFresh()
      reads this
    {
      && (dirtyRows == old(dirtyRows) || fresh(dirtyRows)) && (rowFlags == old(rowFlags) || fresh(rowFlags))
      && (graphemeOffsets == old(graphemeOffsets) || fresh(graphemeOffsets))
      && (graphemeLengths == old(graphemeLengths) || fresh(graphemeLengths))
      && (foregrounds == old(foregrounds) || fresh(foregrounds))
      && (backgrounds == old(backgrounds) || fresh(backgrounds))
      && (styles == old(styles) || fresh(styles)) && (graphemes == old(graphemes) || fresh(graphemes))
    }

    /** Each buffer is kept if it had the room, and else bought at the next capacity. */
    twostate predicate Grown(rowCount: nat, cellCount: nat, graphemeCapacity: nat)
      reads `dirtyRows, `rowFlags, `graphemeOffsets, `graphemeLengths, `foregrounds, `backgrounds, `styles, `graphemes
    {
      && KeptOrBought(old(dirtyRows), dirtyRows, rowCount) && KeptOrBought(old(rowFlags), rowFlags, rowCount)
      && KeptOrBought(old(graphemeOffsets), graphemeOffsets, cellCount)
      && KeptOrBought(old(graphemeLengths), graphemeLengths, cellCount)
      && KeptOrBought(old(foregrounds), foregrounds, cellCount)
      && KeptOrBought(old(backgrounds), backgrounds, cellCount)
      && KeptOrBought(old(styles), styles, cellCount) && KeptOrBought(old(graphemes), graphemes, graphemeCapacity)
    }

    twostate lemma EachOwnOrFresh()
      requires OwnOrFresh()
      ensures forall k | 0 <= k < 8 :: Buffers()[k] == old(Buffers()[k]) || fresh(Buffers()[k])
    {
    }

    ghost predicate HasRoom(rowCount: nat, cellCount: nat, graphemeCapacity: nat)
      reads this
    {
      && dirtyRows.Length >= AtLeastOne(rowCount) && rowFlags.Length >= AtLeastOne(rowCount)
      && graphemeOffsets.Length >= AtLeastOne(cellCount) && graphemeLengths.Length >= AtLeastOne(cellCount)
      && foregrounds.Length >= AtLeastOne(cellCount) && backgrounds.Length >= AtLeastOne(cellCount)
      && styles.Length >= AtLeastOne(cellCount) && graphemes.Length >= AtLeastOne(graphemeCapacity)
    }

    /** Cell `i` of every numeric column is that of `cells`. */
    ghost predicate NumbersAt(cells: seq<PackedCell>, i: nat)
      requires i < |cells| && CellRoom(|cells|)
      reads this, graphemeOffsets, graphemeLengths, foregrounds, backgrounds, styles
    {
      && graphemeOffsets[i] == Wrap32(|BytesOf(cells, 0, i)|) && graphemeLengths[i] == Wrap32(|cells[i].bytes|)
      && foregrounds[i] == cells[i].foreground && backgrounds[i] == cells[i].background && styles[i] == cells[i].style
    }

    /** The first `n` cells are written, their text filling the payload up to `offset`. */
    ghost predicate CellsWritten(cells: seq<PackedCell>, n: nat, offset: nat)
      requires n <= |cells| && CellRoom(|cells|)
      reads this, graphemeOffsets, graphemeLengths, foregrounds, backgrounds, styles, graphemes
    {
      && offset <= graphemes.Length && graphemes[..offset] == BytesOf(cells, 0, n)
      && forall i | 0 <= i < n :: NumbersAt(cells, i)
    }

    /** `encodeInto` on the rest of the payload buffer. */
    method WriteText(offset: nat, text: Text) returns (written: nat)
      requires offset + 3 * |text| <= graphemes.Length
      modifies graphemes
      ensures written == |Utf8(text)| <= 3 * |text|
      ensures graphemes[..offset + written] == old(graphemes[..offset]) + Utf8(text)
    {
      var bytes := EncodeInto(text, graphemes.Length - offset);
      EncodeIntoIsComplete(text, graphemes.Length - offset);
      Utf8AtMostThreePerUnit(text);
      written := |bytes|;
      forall i | 0 <= i < |bytes| {
        graphemes[offset + i] := bytes[i];
      }
    }

    method WriteNumbers(ghost cells: seq<PackedCell>, index: nat, offset: nat, written: nat,
                        foreground: PackedColor, background: PackedColor, style: nat)
      requires Separate() && CellRoom(|cells|) && index < |cells|
      requires offset == |BytesOf(cells, 0, index)| && written == |cells[index].bytes|
      requires foreground == cells[index].foreground && background == cells[index].background
               && style == cells[index].style
      requires forall i | 0 <= i < index :: NumbersAt(cells, i)
      modifies graphemeOffsets, graphemeLengths, foregrounds, backgrounds, styles
      ensures forall i | 0 <= i <= index :: NumbersAt(cells, i)
    {
      Apart();
      graphemeOffsets[index] := Wrap32(offset);
      graphemeLengths[index] := Wrap32(written);
      foregrounds[index] := foreground;
      backgrounds[index] := background;
      styles[index] := style;
      forall i | 0 <= i <= index ensures NumbersAt(cells, i) {
        assert i < index ==> old(NumbersAt(cells, i));
      }
    }

    /** Write one cell: its text straight into the payload, its numbers beside it. */
    method WriteCell(ghost cells: seq<PackedCell>, index: nat, offset: nat, text: Text,
                     foreground: PackedColor, background: PackedColor, style: nat) returns (written: nat)
      requires Separate() && CellRoom(|cells|)
      requires index < |cells| && cells[index] == PackedCell(Utf8(text), foreground, background, style)
      requires offset + 3 * |text| <= graphemes.Length
      requires CellsWritten(cells, index, offset)
      modifies graphemeOffsets, graphemeLengths, foregrounds, backgrounds, styles, graphemes
      ensures written <= 3 * |text|
      ensures CellsWritten(cells, index + 1, offset + written)
    {
      Apart();
      assert offset == |BytesOf(cells, 0, index)|;
      written := WriteText(offset, text);
      forall i | 0 <= i < index ensures NumbersAt(cells, i) {
        assert old(NumbersAt(cells, i));
      }
      WriteNumbers(cells, index, offset, written, foreground, background, style);
    }

    ghost predicate CellRoom(n: nat)
      reads this
    {
      && n <= graphemeOffsets.Length && n <= graphemeLengths.Length && n <= foregrounds.Length
      && n <= backgrounds.Length && n <= styles.Length
    }

    /** Write the cell in column `c` of included row `k`. */
    method WriteColumn(s: Snapshot, rows: seq<nat>, k: nat, c: nat, ghost cells: seq<PackedCell>, index: nat,
                       offset: nat)
      returns (written: nat)
      requires Separate() && k < |rows| && c < s.cols
      requires cells == FlatCells(s, rows) && CellRoom(|cells|) && index == Slab(k, s.cols) + c < |cells|
      requires offset + 3 * |CellText(s, rows[k], c)| <= graphemes.Length
      requires CellsWritten(cells, index, offset)
      modifies graphemeOffsets, graphemeLengths, foregrounds, backgrounds, styles, graphemes
      ensures written <= 3 * |CellText(s, rows[k], c)|
      ensures CellsWritten(cells, index + 1, offset + written)
    {
      SlabCells(s, rows, k);
      PackCellText(s, rows[k], c);
      var packed := PackCell(s, rows[k], c);
      written := WriteCell(cells, index, offset, CellText(s, rows[k], c),
                           packed.foreground, packed.background, packed.style);
    }

    /** Write the cells of one row, column by column; the room for later rows stays free. */
    method WriteRow(s: Snapshot, rows: seq<nat>, k: nat, ghost cells: seq<PackedCell>, start: nat, offset: nat)
      returns (end: nat)
      requires Separate() && k < |rows|
      requires cells == FlatCells(s, rows) && CellRoom(|cells|)
      requires start == Slab(k, s.cols) && start + s.cols <= |cells|
      requires offset + 3 * RowsUnits(s, rows, k) <= graphemes.Length
      requires CellsWritten(cells, start, offset)
      modifies graphemeOffsets, graphemeLengths, foregrounds, backgrounds, styles, graphemes
      ensures end + 3 * RowsUnits(s, rows, k + 1) <= graphemes.Length
      ensures CellsWritten(cells, start + s.cols, end)
    {
      hide CellsWritten, NumbersAt, FlatCells, Distinct;
      end := offset;
      ghost var rest := RowsUnits(s, rows, k + 1);
      var index := start;
      for c := 0 to s.cols
        invariant index == start + c
        invariant end + 3 * (RowUnits(s, rows[k], c) + rest) <= graphemes.Length
        invariant CellsWritten(cells, index, end)
      {
        var written := WriteColumn(s, rows, k, c, cells, index, end);
        end := end + written;
        index := index + 1;
      }
    }

    /** The first `n` included rows have their number and flags written. */
    ghost predicate RowsWritten(s: Snapshot, rows: seq<nat>, n: nat)
      requires n <= |rows|
      reads this, dirtyRows, rowFlags
    {
      && n <= dirtyRows.Length && n <= rowFlags.Length
      && forall i | 0 <= i < n :: dirtyRows[i] == rows[i] && rowFlags[i] == FlagsAt(s, rows[i])
    }

    method WriteRowHead(s: Snapshot, rows: seq<nat>, k: nat)
      requires Separate() && k < |rows| && k < dirtyRows.Length && k < rowFlags.Length && RowsWritten(s, rows, k)
      modifies dirtyRows, rowFlags
      ensures RowsWritten(s, rows, k + 1)
    {
      Apart();
      dirtyRows[k] := rows[k];
      rowFlags[k] := FlagsAt(s, rows[k]);
    }

    /** Write included row `k`: its number, its flags and its cells. */
    method FillRow(s: Snapshot, rows: seq<nat>, ghost cells: seq<PackedCell>, k: nat, start: nat, offset: nat)
      returns (end: nat)
      requires Separate() && CellRoom(|cells|) && k < |rows| <= dirtyRows.Length && |rows| <= rowFlags.Length
      requires cells == FlatCells(s, rows) && start == Slab(k, s.cols) <= |cells|
      requires offset + 3 * RowsUnits(s, rows, k) <= graphemes.Length
      requires RowsWritten(s, rows, k) && CellsWritten(cells, start, offset)
      modifies dirtyRows, rowFlags, graphemeOffsets, graphemeLengths, foregrounds, backgrounds, styles, graphemes
      ensures end + 3 * RowsUnits(s, rows, k + 1) <= graphemes.Length
      ensures start + s.cols == Slab(k + 1, s.cols) <= |cells|
      ensures RowsWritten(s, rows, k + 1) && CellsWritten(cells, start + s.cols, end)
    {
      SlabsAscend(k, |rows|, s.cols);
      Apart();
      WriteRowHead(s, rows, k);
      end := WriteRow(s, rows, k, cells, start, offset);
    }

    /** Write row numbers, row flags and cells of all included rows. */
    method Fill(s: Snapshot, rows: seq<nat>) returns (end: nat)
      requires Separate() && HasRoom(|rows|, Slab(|rows|, s.cols), 3 * RowsUnits(s, rows, 0))
      modifies dirtyRows, rowFlags, graphemeOffsets, graphemeLengths, foregrounds, backgrounds, styles, graphemes
      ensures end <= graphemes.Length && RowsWritten(s, rows, |rows|)
      ensures CellsWritten(FlatCells(s, rows), |FlatCells(s, rows)|, end)
    {
      ghost var cells := FlatCells(s, rows);
      var start := 0;
      end := 0;
      assert RowsWritten(s, rows, 0) && CellsWritten(cells, start, end);
      hide RowsWritten, CellsWritten;
      for k := 0 to |rows|
        invariant start == Slab(k, s.cols) <= |cells|
        invariant end + 3 * RowsUnits(s, rows, k) <= graphemes.Length
        invariant RowsWritten(s, rows, k)
        invariant CellsWritten(cells, start, end)
      {
        end := FillRow(s, rows, cells, k, start, end);
        start := start + s.cols;
      }
    }

    /** What is written reads as the packed snapshot. */
    lemma {:induction false} WrittenIsPacked(s: Snapshot, rows: seq<nat>, end: nat)
      requires RowsWritten(s, rows, |rows|)
      requires CellRoom(|FlatCells(s, rows)|) && CellsWritten(FlatCells(s, rows), |FlatCells(s, rows)|, end)
      ensures dirtyRows[..|rows|] == rows && rowFlags[..|rows|] == RowFlags(s, rows)
      ensures var cells := FlatCells(s, rows);
              var n := |cells|;
              && graphemeOffsets[..n] == Offsets(cells) && graphemeLengths[..n] == Lengths(cells)
              && foregrounds[..n] == Foregrounds(cells) && backgrounds[..n] == Backgrounds(cells)
              && styles[..n] == Styles(cells) && graphemes[..end] == Payload(cells)
    {
      var cells := FlatCells(s, rows);
      var n := |cells|;
      forall i | 0 <= i < n
        ensures graphemeOffsets[..n][i] == Wrap32(|BytesOf(cells, 0, i)|)
                && graphemeLengths[..n][i] == Wrap32(|cells[i].bytes|)
        ensures foregrounds[..n][i] == cells[i].foreground && backgrounds[..n][i] == cells[i].background
        ensures styles[..n][i] == cells[i].style
      {
        assert NumbersAt(cells, i);
      }
      WrittenColumns(cells, graphemeOffsets[..n], graphemeLengths[..n], foregrounds[..n], backgrounds[..n],
                     styles[..n]);
    }

    /** The update whose views are the written parts of the buffers. */
    method ViewUpdate(header: Header, rowCount: nat, cellCount: nat, end: nat) returns (update: RenderUpdate)
      requires rowCount <= dirtyRows.Length && rowCount <= rowFlags.Length
      requires CellRoom(cellCount) && end <= graphemes.Length
      ensures fresh(update) && update.header == header && update.Fits() && update.Buffers() == Buffers()
      ensures update.dirtyRows.length == update.rowFlags.length == rowCount && update.graphemes.length == end
      ensures update.graphemeOffsets.length == update.graphemeLengths.length == cellCount
      ensures update.foregrounds.length == update.backgrounds.length == update.styles.length == cellCount
    {
      update := new RenderUpdate(
        header, View(dirtyRows, rowCount), View(rowFlags, rowCount),
        View(graphemeOffsets, cellCount), View(graphemeLengths, cellCount),
        View(foregrounds, cellCount), View(backgrounds, cellCount), View(styles, cellCount), View(graphemes, end));
    }

    /** Hand out the written snapshot under its frame numbers. */
    method ViewSnapshot(s: Snapshot, frameId: int, generation: int, full: bool, rows: seq<nat>, end: nat)
      returns (update: RenderUpdate)
      requires rows == IncludedRows(s, full) && RowsWritten(s, rows, |rows|)
      requires CellRoom(|FlatCells(s, rows)|) && CellsWritten(FlatCells(s, rows), |FlatCells(s, rows)|, end)
      modifies this`targetGraphemes
      ensures targetGraphemes == AtLeastOne(end)
      ensures UsedBy(update) == AtLeastOne(|rows|) * 5 + AtLeastOne(Slab(|rows|, s.cols)) * 18 + AtLeastOne(end)
      ensures fresh(update) && update.Fits() && update.Buffers() == Buffers()
      ensures update.Contents() == Pack(s, frameId, generation, full)
    {
      SlabIsProduct(|rows|, s.cols);
      var header := Header(frameId, generation, s.cols, s.rows, full,
                           PackColor(s.foreground), PackColor(s.background), PackColor(s.cursor),
                           s.cursorX, s.cursorY, s.cursorVisible, s.cursorBlinking, s.cursorStyle);
      update := ViewUpdate(header, |rows|, |rows| * s.cols, end);
      WrittenIsPacked(s, rows, end);
      targetGraphemes := AtLeastOne(end);
    }

    /** Take the slot and grow its buffers for the given rows. */
    method Lease(s: Snapshot, rows: seq<nat>)
      requires Separate()
      modifies this
      ensures Separate() && Bytes() >= old(Bytes()) && OwnOrFresh()
      ensures Grown(|rows|, Slab(|rows|, s.cols), 3 * RowsUnits(s, rows, 0))
      ensures inFlight && leaseToken == old(leaseToken) + 1
      ensures HasRoom(|rows|, Slab(|rows|, s.cols), 3 * RowsUnits(s, rows, 0))
      ensures targetRows == AtLeastOne(|rows|) && targetCells == AtLeastOne(Slab(|rows|, s.cols))
    {
      var capacity := ReserveGraphemes(s, rows);
      SlabIsProduct(|rows|, s.cols);
      inFlight := true;
      leaseToken := leaseToken + 1;
      Reserve(|rows|, |rows| * s.cols, capacity);
    }

    /** Write a snapshot into buffers that have the room, and hand out the views. */
    method FillAndView(s: Snapshot, frameId: int, generation: int, full: bool, rows: seq<nat>)
      returns (update: RenderUpdate)
      requires Separate() && rows == IncludedRows(s, full)
      requires HasRoom(|rows|, Slab(|rows|, s.cols), 3 * RowsUnits(s, rows, 0))
      requires targetRows == AtLeastOne(|rows|) && targetCells == AtLeastOne(Slab(|rows|, s.cols))
      modifies this`targetGraphemes
      modifies dirtyRows, rowFlags, graphemeOffsets, graphemeLengths, foregrounds, backgrounds, styles, graphemes
      ensures dirtyRows == old(dirtyRows) && rowFlags == old(rowFlags) && graphemeOffsets == old(graphemeOffsets)
      ensures graphemeLengths == old(graphemeLengths) && foregrounds == old(foregrounds)
      ensures backgrounds == old(backgrounds) && styles == old(styles) && graphemes == old(graphemes)
      ensures inFlight == old(inFlight) && leaseToken == old(leaseToken) && Bytes() == old(Bytes()) && Covers()
      ensures UsedBytes() == UsedBy(update)
      ensures fresh(update) && update.Fits() && update.Buffers() == Buffers()
      ensures update.Contents() == Pack(s, frameId, generation, full)
    {
      var end := Fill(s, rows);
      update := ViewSnapshot(s, frameId, generation, full, rows, end);
    }

    /** Pack a snapshot into this slot's buffers and hand out the views. */
    method Build(s: Snapshot, frameId: int, generation: int, full: bool) returns (update: RenderUpdate)
      requires Separate()
      modifies this, dirtyRows, rowFlags, graphemeOffsets, graphemeLengths, foregrounds, backgrounds, styles, graphemes
      ensures Separate() && Covers() && Bytes() >= old(Bytes()) && OwnOrFresh()
      ensures var rows := IncludedRows(s, full);
              Grown(|rows|, Slab(|rows|, s.cols), 3 * RowsUnits(s, rows, 0))
      ensures UsedBytes() == UsedBy(update)
      ensures inFlight && leaseToken == old(leaseToken) + 1
      ensures fresh(update) && update.Fits() && update.Buffers() == Buffers()
      ensures update.Contents() == Pack(s, frameId, generation, full)
    {
      hide Pack, FlatCells, RenderUpdate.Contents, RenderUpdate.Fits, UsedBy;
      hide Separate, HasRoom, Bytes, Covers, UsedBytes, Grown;
      var rows := IncludedRows(s, full);
      Lease(s, rows);
      update := FillAndView(s, frameId, generation, full, rows);
    }

    method TrimRows()
      requires Separate()
      modifies this`dirtyRows, this`rowFlags
      ensures Separate() && fresh(dirtyRows) && fresh(rowFlags)
      ensures dirtyRows.Length == rowFlags.Length == NextCapacity(targetRows * 2)
    {
      var rows := GrowCapacity(1, targetRows * 2);
      var dirtyRows' := new nat[rows];
      ghost var buffers := Buffers();
      DistinctReplace(buffers, 0, dirtyRows');
      dirtyRows := dirtyRows';
      assert Buffers() == buffers[0 := dirtyRows'];
      var rowFlags' := new nat[rows];
      buffers := Buffers();
      DistinctReplace(buffers, 1, rowFlags');
      rowFlags := rowFlags';
      assert Buffers() == buffers[1 := rowFlags'];
    }

    method TrimSpansAndText()
      requires Separate()
      modifies this`graphemeOffsets, this`graphemeLengths, this`graphemes
      ensures Separate() && fresh(graphemeOffsets) && fresh(graphemeLengths) && fresh(graphemes)
      ensures graphemeOffsets.Length == graphemeLengths.Length == NextCapacity(targetCells * 2)
      ensures graphemes.Length == NextCapacity(targetGraphemes * 2)
    {
      var cells := GrowCapacity(1, targetCells * 2);
      var bytes := GrowCapacity(1, targetGraphemes * 2);
      var graphemeOffsets' := new nat[cells];
      ghost var buffers := Buffers();
      DistinctReplace(buffers, 2, graphemeOffsets');
      graphemeOffsets := graphemeOffsets';
      assert Buffers() == buffers[2 := graphemeOffsets'];
      var graphemeLengths' := new nat[cells];
      buffers := Buffers();
      DistinctReplace(buffers, 3, graphemeLengths');
      graphemeLengths := graphemeLengths';
      assert Buffers() == buffers[3 := graphemeLengths'];
      var graphemes' := new nat[bytes];
      buffers := Buffers();
      DistinctReplace(buffers, 7, graphemes');
      graphemes := graphemes';
      assert Buffers() == buffers[7 := graphemes'];
    }

    method TrimLooks()
      requires Separate()
      modifies this`foregrounds, this`backgrounds, this`styles
      ensures Separate() && fresh(foregrounds) && fresh(backgrounds) && fresh(styles)
      ensures foregrounds.Length == backgrounds.Length == styles.Length == NextCapacity(targetCells * 2)
    {
      var cells := GrowCapacity(1, targetCells * 2);
      var foregrounds' := new nat[cells];
      ghost var buffers := Buffers();
      DistinctReplace(buffers, 4, foregrounds');
      foregrounds := foregrounds';
      assert Buffers() == buffers[4 := foregrounds'];
      var backgrounds' := new nat[cells];
      buffers := Buffers();
      DistinctReplace(buffers, 5, backgrounds');
      backgrounds := backgrounds';
      assert Buffers() == buffers[5 := backgrounds'];
      var styles' := new nat[cells];
      buffers := Buffers();
      DistinctReplace(buffers, 6, styles');
      styles := styles';
      assert Buffers() == buffers[6 := styles'];
    }

    twostate predicate AllFresh()
      reads this
    {
      && fresh(dirtyRows) && fresh(rowFlags) && fresh(graphemeOffsets) && fresh(graphemeLengths)
      && fresh(foregrounds) && fresh(backgrounds) && fresh(styles) && fresh(graphemes)
    }

    /** Replace every buffer by one of the size the last build called for. */
    method Trim()
      requires Separate()
      modifies this`dirtyRows, this`rowFlags, this`graphemeOffsets, this`graphemeLengths
      modifies this`foregrounds, this`backgrounds, this`styles, this`graphemes
      ensures Separate() && Bytes() == TargetBytes() == old(TargetBytes()) && AllFresh()
    {
      TrimRows();
      TrimSpansAndText();
      TrimLooks();
    }
  }

  /** Columns of arrays that agree element by element are the packed columns. */
  lemma {:induction false} WrittenColumns(cells: seq<PackedCell>, offsets: seq<nat>, lengths: seq<nat>,
                                          foregrounds: seq<nat>, backgrounds: seq<nat>, styles: seq<nat>)
    requires |offsets| == |lengths| == |foregrounds| == |backgrounds| == |styles| == |cells|
    requires forall i | 0 <= i < |cells| ::
               && offsets[i] == Wrap32(|BytesOf(cells, 0, i)|) && lengths[i] == Wrap32(|cells[i].bytes|)
               && foregrounds[i] == cells[i].foreground && backgrounds[i] == cells[i].background
               && styles[i] == cells[i].style
    ensures offsets == Offsets(cells) && lengths == Lengths(cells) && foregrounds == Foregrounds(cells)
    ensures backgrounds == Backgrounds(cells) && styles == Styles(cells)
  {
  }

  lemma {:induction false} SlabCells(s: Snapshot, rows: seq<nat>, k: nat)
    requires k < |rows|
    ensures Slab(k, s.cols) + s.cols <= |FlatCells(s, rows)|
    ensures forall c {:trigger PackCell(s, rows[k], c)} | 0 <= c < s.cols ::
              FlatCells(s, rows)[Slab(k, s.cols) + c] == PackCell(s, rows[k], c)
  {
    FlatSlab(s, rows, k);
    var start := Slab(k, s.cols);
    var slab := FlatCells(s, rows)[start..start + s.cols];
    forall c | 0 <= c < s.cols ensures FlatCells(s, rows)[start + c] == PackCell(s, rows[k], c) {
      assert slab[c] == RowCells(s, rows[k])[c];
    }
  }

  lemma {:induction false} PackCellText(s: Snapshot, row: nat, column: nat)
    ensures PackCell(s, row, column).bytes == Utf8(CellText(s, row, column))
  {
    assert Scalars([]) == [] && Encode([]) == [];
  }

  lemma AsciiCell(s: Snapshot, row: nat, column: nat)
    requires IsAscii(CellText(s, row, column))
    ensures |PackCell(s, row, column).bytes| == |CellText(s, row, column)|
  {
    hide PackCell, CellText, IsAscii;
    PackCellText(s, row, column);
    AsciiIsOnePerUnit(CellText(s, row, column));
  }

  lemma BytesFromFirst(cells: seq<PackedCell>, i: nat, hi: nat)
    requires i < hi <= |cells|
    ensures |BytesOf(cells, i, hi)| == |cells[i].bytes| + |BytesOf(cells, i + 1, hi)|
  {
    BytesSplit(cells, i, i + 1, hi);
    assert BytesOf(cells, i, i) == [];
  }

  lemma {:induction false} AsciiRow(s: Snapshot, row: nat, cells: seq<PackedCell>, start: nat, c: nat)
    requires c <= s.cols && start + s.cols <= |cells|
    requires forall d | 0 <= d < s.cols :: cells[start + d] == PackCell(s, row, d) && IsAscii(CellText(s, row, d))
    ensures |BytesOf(cells, start + c, start + s.cols)| == RowUnits(s, row, c)
    decreases s.cols - c
  {
    hide PackCell, CellText, IsAscii;
    if c < s.cols {
      AsciiRow(s, row, cells, start, c + 1);
      BytesFromFirst(cells, start + c, start + s.cols);
      assert cells[start + c] == PackCell(s, row, c);
      AsciiCell(s, row, c);
    }
  }

  lemma {:induction false} AsciiRows(s: Snapshot, rows: seq<nat>, k: nat)
    requires k <= |rows| && forall r: nat, c: nat :: IsAscii(CellText(s, r, c))
    ensures Slab(k, s.cols) <= |FlatCells(s, rows)|
    ensures |BytesOf(FlatCells(s, rows), Slab(k, s.cols), |FlatCells(s, rows)|)| == RowsUnits(s, rows, k)
    decreases |rows| - k
  {
    hide PackCell, CellText, IsAscii, FlatCells;
    if k < |rows| {
      var cells, start := FlatCells(s, rows), Slab(k, s.cols);
      AsciiRows(s, rows, k + 1);
      SlabCells(s, rows, k);
      AsciiRow(s, rows[k], cells, start, 0);
      BytesSplit(cells, start, start + s.cols, |cells|);
    }
  }

  /** What is reserved is three times the text of the included rows: for ASCII text exactly three times the payload. */
  lemma ReservesForText(s: Snapshot, frameId: int, generation: int, full: bool)
    requires forall r: nat, c: nat :: IsAscii(CellText(s, r, c))
    ensures RowsUnits(s, IncludedRows(s, full), 0) == |Pack(s, frameId, generation, full).graphemes|
  {
    AsciiRows(s, IncludedRows(s, full), 0);
  }
}
