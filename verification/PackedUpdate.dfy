/** The packed render update: its layout, its meaning and its validator. */
module PackedUpdate {
  import opened Bytes
  import opened Utf8Text
  import opened Options
  import opened RenderModel

  const VERSION := 1
  const MAX_DIMENSION := 65535
  const MAX_COLOR := 0xFFFFFF

  datatype Packed = Packed(
    version: int,
    frameId: int,
    generation: int,
    cols: int,
    rows: int,
    full: bool,
    foreground: nat,
    background: nat,
    cursor: nat,
    cursorX: int,
    cursorY: int,
    cursorVisible: bool,
    cursorBlinking: bool,
    cursorStyle: int,
    dirtyRows: seq<nat>,
    rowFlags: seq<nat>,
    graphemeOffsets: seq<nat>,
    graphemeLengths: seq<nat>,
    foregrounds: seq<nat>,
    backgrounds: seq<nat>,
    styles: seq<nat>,
    graphemes: seq<nat>)

  /** One cell's share of the packed columns: its UTF-8 bytes and three numbers. */
  datatype PackedCell = PackedCell(bytes: seq<nat>, foreground: PackedColor, background: PackedColor, style: nat)

  /** Storing a number in a `Uint32Array` keeps it modulo 2^32. */
  function Wrap32(n: nat): (r: nat)
    ensures r <= n && r < U32_RANGE && (n - r) % U32_RANGE == 0
  {
    if n < U32_RANGE then n else n % U32_RANGE
  }

  predicate StrictlyIncreasing(rows: seq<nat>) {
    forall i, j | 0 <= i < j < |rows| :: rows[i] < rows[j]
  }

  predicate IsSmallest(m: U32, d: set<U32>) {
    m in d && forall x | x in d :: m <= x
  }

  lemma {:induction false} HasSmallest(d: set<U32>) returns (least: U32)
    requires d != {}
    ensures IsSmallest(least, d)
  {
    var m :| m in d;
    least := m;
    if d - {m} != {} {
      var k := HasSmallest(d - {m});
      least := if m <= k then m else k;
      forall x | x in d ensures least <= x {
        assert x == m || x in d - {m};
      }
    } else {
      forall x | x in d ensures m <= x {
        assert x == m || x in d - {m};
      }
    }
  }

  function Smallest(d: set<U32>): (m: U32)
    requires d != {}
    ensures IsSmallest(m, d)
  {
    assert exists m :: IsSmallest(m, d) by {
      var least := HasSmallest(d);
    }
    var m :| IsSmallest(m, d);
    m
  }

  /** The members of a set in ascending order. */
  function SortRows(d: set<U32>): seq<nat> {
    if d == {} then [] else [Smallest(d)] + SortRows(d - {Smallest(d)})
  }

  lemma {:induction false} SortRowsLists(d: set<U32>)
    ensures |SortRows(d)| == |d|
    ensures forall r: nat :: r in SortRows(d) <==> r in d
  {
    if d != {} {
      SortRowsLists(d - {Smallest(d)});
    }
  }

  lemma {:induction false} SortRowsAscend(d: set<U32>)
    ensures StrictlyIncreasing(SortRows(d))
  {
    if d != {} {
      var rest := SortRows(d - {Smallest(d)});
      SortRowsAscend(d - {Smallest(d)});
      SortRowsLists(d - {Smallest(d)});
      forall j | 0 <= j < |rest| ensures Smallest(d) < rest[j] {
        assert rest[j] in rest;
      }
    }
  }

  /** `SortRows` lists each member once, in strictly increasing order. */
  lemma SortRowsSorts(d: set<U32>)
    ensures |SortRows(d)| == |d|
    ensures forall r: nat :: r in SortRows(d) <==> r in d
    ensures StrictlyIncreasing(SortRows(d))
  {
    SortRowsLists(d);
    SortRowsAscend(d);
  }

  function AllRows(count: nat): (rows: seq<nat>)
    ensures |rows| == count
    ensures forall i | 0 <= i < count :: rows[i] == i
  {
    seq(count, i => i)
  }

  function IncludedRows(s: Snapshot, full: bool): seq<nat> {
    if full then AllRows(s.rows) else SortRows(s.dirtyRows)
  }

  function RowAt(s: Snapshot, row: nat): Option<Row> {
    if row < |s.rowData| then Some(s.rowData[row]) else None
  }

  /** A missing row or cell packs as blank text in the default colors. */
  function PackCell(s: Snapshot, row: nat, column: nat): PackedCell {
    match RowAt(s, row)
    case Some(r) =>
      if column < |r.cells| then
        var cell := r.cells[column];
        PackedCell(Utf8(cell.text), PackColor(cell.foreground), PackColor(cell.background), PackStyle(cell))
      else PackedCell([], PackColor(s.foreground), PackColor(s.background), 0)
    case None => PackedCell([], PackColor(s.foreground), PackColor(s.background), 0)
  }

  function RowCells(s: Snapshot, row: nat): (cells: seq<PackedCell>)
    ensures |cells| == s.cols
  {
    seq(s.cols, c requires 0 <= c < s.cols => PackCell(s, row, c))
  }

  /** How many cells `k` rows take: the packed index where included row `k` starts. */
  function Slab(k: nat, cols: nat): nat {
    if k == 0 then 0 else Slab(k - 1, cols) + cols
  }

  lemma {:induction false} SlabIsProduct(k: nat, cols: nat)
    ensures Slab(k, cols) == k * cols
  {
    if k > 0 {
      SlabIsProduct(k - 1, cols);
    }
  }

  lemma {:induction false} SlabsAscend(k: nat, n: nat, cols: nat)
    requires k < n
    ensures Slab(k, cols) + cols <= Slab(n, cols)
  {
    if k < n - 1 {
      SlabsAscend(k, n - 1, cols);
    }
  }

  /** The cells of the first `n` included rows, row after row. */
  function RowsCells(s: Snapshot, rows: seq<nat>, n: nat): (cells: seq<PackedCell>)
    requires n <= |rows|
    ensures |cells| == Slab(n, s.cols)
  {
    if n == 0 then [] else RowsCells(s, rows, n - 1) + RowCells(s, rows[n - 1])
  }

  function FlatCells(s: Snapshot, rows: seq<nat>): (cells: seq<PackedCell>)
    ensures |cells| == Slab(|rows|, s.cols)
  {
    RowsCells(s, rows, |rows|)
  }

  /** The bytes of cells `start` to `end`, side by side. */
  function BytesOf(cells: seq<PackedCell>, start: nat, end: nat): seq<nat>
    requires start <= end <= |cells|
  {
    if start == end then [] else BytesOf(cells, start, end - 1) + cells[end - 1].bytes
  }

  function Payload(cells: seq<PackedCell>): seq<nat> {
    BytesOf(cells, 0, |cells|)
  }

  function Offsets(cells: seq<PackedCell>): (r: seq<nat>)
    ensures |r| == |cells|
    ensures forall i | 0 <= i < |cells| :: r[i] == Wrap32(|BytesOf(cells, 0, i)|)
  {
    seq(|cells|, i requires 0 <= i < |cells| => Wrap32(|BytesOf(cells, 0, i)|))
  }

  function Lengths(cells: seq<PackedCell>): (r: seq<nat>)
    ensures |r| == |cells|
    ensures forall i | 0 <= i < |cells| :: r[i] == Wrap32(|cells[i].bytes|)
  {
    seq(|cells|, i requires 0 <= i < |cells| => Wrap32(|cells[i].bytes|))
  }

  function Foregrounds(cells: seq<PackedCell>): (r: seq<nat>)
    ensures |r| == |cells|
    ensures forall i | 0 <= i < |cells| :: r[i] == cells[i].foreground <= MAX_COLOR
  {
    seq(|cells|, i requires 0 <= i < |cells| => cells[i].foreground)
  }

  function Backgrounds(cells: seq<PackedCell>): (r: seq<nat>)
    ensures |r| == |cells|
    ensures forall i | 0 <= i < |cells| :: r[i] == cells[i].background <= MAX_COLOR
  {
    seq(|cells|, i requires 0 <= i < |cells| => cells[i].background)
  }

  function Styles(cells: seq<PackedCell>): (r: seq<nat>)
    ensures |r| == |cells|
    ensures forall i | 0 <= i < |cells| :: r[i] == cells[i].style
  {
    seq(|cells|, i requires 0 <= i < |cells| => cells[i].style)
  }

  function FlagsAt(s: Snapshot, row: nat): nat {
    match RowAt(s, row)
    case Some(r) => PackRowFlags(r)
    case None => 0
  }

  function RowFlags(s: Snapshot, rows: seq<nat>): (r: seq<nat>)
    ensures |r| == |rows|
    ensures forall i | 0 <= i < |rows| :: r[i] == FlagsAt(s, rows[i])
  {
    seq(|rows|, i requires 0 <= i < |rows| => FlagsAt(s, rows[i]))
  }

  /** The update that stands for a snapshot, as one value. */
  function Pack(s: Snapshot, frameId: int, generation: int, full: bool): Packed {
    var rows := IncludedRows(s, full);
    var cells := FlatCells(s, rows);
    Packed(VERSION, frameId, generation, s.cols, s.rows, full,
           PackColor(s.foreground), PackColor(s.background), PackColor(s.cursor),
           s.cursorX, s.cursorY, s.cursorVisible, s.cursorBlinking, s.cursorStyle,
           rows, RowFlags(s, rows), Offsets(cells), Lengths(cells),
           Foregrounds(cells), Backgrounds(cells), Styles(cells), Payload(cells))
  }

  predicate IsSafeInteger(n: int) {
    -MAX_SAFE_INTEGER <= n <= MAX_SAFE_INTEGER
  }

  predicate HeaderOk(u: Packed) {
    && u.version == VERSION
    && 1 <= u.frameId <= MAX_SAFE_INTEGER && 1 <= u.generation <= MAX_SAFE_INTEGER
    && 1 <= u.cols <= MAX_DIMENSION && 1 <= u.rows <= MAX_DIMENSION
    && u.foreground <= MAX_COLOR && u.background <= MAX_COLOR && u.cursor <= MAX_COLOR
    && IsSafeInteger(u.cursorX) && IsSafeInteger(u.cursorY) && IsSafeInteger(u.cursorStyle)
  }

  predicate LengthsOk(u: Packed) {
    && 0 <= u.cols && |u.rowFlags| == |u.dirtyRows|
    && |u.graphemeOffsets| == |u.graphemeLengths| == |u.foregrounds| == |u.backgrounds| == |u.styles|
    && |u.styles| == Slab(|u.dirtyRows|, u.cols)
    && (u.full ==> |u.dirtyRows| == u.rows)
  }

  predicate RowsOk(u: Packed) {
    StrictlyIncreasing(u.dirtyRows) && forall i | 0 <= i < |u.dirtyRows| :: u.dirtyRows[i] < u.rows
  }

  predicate CellsOk(u: Packed)
    requires |u.graphemeOffsets| == |u.graphemeLengths| == |u.foregrounds| == |u.backgrounds| == |u.styles|
  {
    && (forall i | 0 <= i < |u.styles| :: u.graphemeOffsets[i] + u.graphemeLengths[i] <= |u.graphemes|)
    && (forall i | 0 <= i < |u.styles| :: u.foregrounds[i] <= MAX_COLOR && u.backgrounds[i] <= MAX_COLOR)
  }

  /** What may cross into a viewport model or a renderer. */
  predicate WellFormedUpdate(u: Packed) {
    HeaderOk(u) && LengthsOk(u) && RowsOk(u) && CellsOk(u)
  }

  /** The validator, loop by loop; it accepts exactly the well-formed updates. */
  method ValidateRenderUpdate(u: Packed) returns (ok: bool)
    ensures ok <==> WellFormedUpdate(u)
  {
    if u.version != VERSION
       || !IsSafeInteger(u.frameId) || u.frameId < 1
       || !IsSafeInteger(u.generation) || u.generation < 1
       || u.cols < 1 || u.cols > MAX_DIMENSION || u.rows < 1 || u.rows > MAX_DIMENSION
       || u.foreground > MAX_COLOR || u.background > MAX_COLOR || u.cursor > MAX_COLOR
       || !IsSafeInteger(u.cursorX) || !IsSafeInteger(u.cursorY) || !IsSafeInteger(u.cursorStyle)
    {
      return false;
    }
    var rowCount := |u.dirtyRows|;
    var cellCount := rowCount * u.cols;
    SlabIsProduct(rowCount, u.cols);
    if |u.rowFlags| != rowCount || |u.graphemeOffsets| != cellCount || |u.graphemeLengths| != cellCount
       || |u.foregrounds| != cellCount || |u.backgrounds| != cellCount || |u.styles| != cellCount
       || (u.full && rowCount != u.rows)
    {
      return false;
    }
    var previousRow := -1;
    for i := 0 to rowCount
      invariant previousRow == if i == 0 then -1 else u.dirtyRows[i - 1]
      invariant StrictlyIncreasing(u.dirtyRows[..i])
      invariant forall k | 0 <= k < i :: u.dirtyRows[k] < u.rows
    {
      var row := u.dirtyRows[i];
      if row <= previousRow || row >= u.rows {
        return false;
      }
      assert u.dirtyRows[..i + 1] == u.dirtyRows[..i] + [row];
      assert forall k | 0 <= k < i :: u.dirtyRows[..i][k] <= previousRow;
      previousRow := row;
    }
    assert u.dirtyRows[..rowCount] == u.dirtyRows;
    for index := 0 to cellCount
      invariant forall k | 0 <= k < index :: u.graphemeOffsets[k] + u.graphemeLengths[k] <= |u.graphemes|
      invariant forall k | 0 <= k < index :: u.foregrounds[k] <= MAX_COLOR && u.backgrounds[k] <= MAX_COLOR
    {
      if u.graphemeOffsets[index] + u.graphemeLengths[index] > |u.graphemes| {
        return false;
      }
      if u.foregrounds[index] > MAX_COLOR || u.backgrounds[index] > MAX_COLOR {
        return false;
      }
    }
    return true;
  }

  lemma {:induction false} BytesSplit(cells: seq<PackedCell>, start: nat, mid: nat, end: nat)
    requires start <= mid <= end <= |cells|
    ensures BytesOf(cells, start, end) == BytesOf(cells, start, mid) + BytesOf(cells, mid, end)
  {
    if mid < end {
      BytesSplit(cells, start, mid, end - 1);
    }
  }

  /** The offset and length pairs tile the payload: cell `i` owns its own bytes. */
  lemma {:induction false} PayloadSlice(cells: seq<PackedCell>, i: nat)
    requires i < |cells|
    ensures var start := |BytesOf(cells, 0, i)|;
            var end := start + |cells[i].bytes|;
            && end == |BytesOf(cells, 0, i + 1)| <= |Payload(cells)|
            && Payload(cells)[start..end] == cells[i].bytes
  {
    BytesSplit(cells, 0, i + 1, |cells|);
    var before := BytesOf(cells, 0, i);
    assert Payload(cells) == before + cells[i].bytes + BytesOf(cells, i + 1, |cells|);
  }

  lemma {:induction false} FlatSlabUpTo(s: Snapshot, rows: seq<nat>, k: nat, n: nat)
    requires k < n <= |rows|
    ensures Slab(k, s.cols) + s.cols <= Slab(n, s.cols)
    ensures RowsCells(s, rows, n)[Slab(k, s.cols)..Slab(k, s.cols) + s.cols] == RowCells(s, rows[k])
  {
    hide PackCell;
    var start := Slab(k, s.cols);
    var front, last := RowsCells(s, rows, n - 1), RowCells(s, rows[n - 1]);
    if k < n - 1 {
      FlatSlabUpTo(s, rows, k, n - 1);
      assert (front + last)[start..start + s.cols] == front[start..start + s.cols];
    } else {
      assert (front + last)[start..start + s.cols] == last;
    }
  }

  /** Included row `k` owns the `k`th slab of `cols` cells. */
  lemma {:induction false} FlatSlab(s: Snapshot, rows: seq<nat>, k: nat)
    requires k < |rows|
    ensures Slab(k, s.cols) + s.cols <= Slab(|rows|, s.cols)
    ensures FlatCells(s, rows)[Slab(k, s.cols)..Slab(k, s.cols) + s.cols] == RowCells(s, rows[k])
  {
    FlatSlabUpTo(s, rows, k, |rows|);
  }

  /** Whatever the cells, every span lies inside the payload. */
  lemma {:induction false} SpansInBounds(cells: seq<PackedCell>)
    ensures forall i | 0 <= i < |cells| :: Offsets(cells)[i] + Lengths(cells)[i] <= |Payload(cells)|
  {
    forall i | 0 <= i < |cells| ensures Offsets(cells)[i] + Lengths(cells)[i] <= |Payload(cells)| {
      PayloadSlice(cells, i);
    }
  }

  lemma {:induction false} IncludedRowsSorted(s: Snapshot, full: bool)
    ensures var rows := IncludedRows(s, full);
            && StrictlyIncreasing(rows)
            && (full ==> |rows| == s.rows)
            && ((forall i | 0 <= i < |rows| :: rows[i] < s.rows) <==>
                (full || forall row | row in s.dirtyRows :: row < s.rows))
  {
    var rows := IncludedRows(s, full);
    if !full {
      SortRowsSorts(s.dirtyRows);
      assert forall i | 0 <= i < |rows| :: rows[i] in rows;
      forall row | row in s.dirtyRows ensures row in rows {
        var r: nat := row;
        assert r in rows <==> r in s.dirtyRows;
      }
    }
  }

  lemma {:induction false} PackedBody(s: Snapshot, frameId: int, generation: int, full: bool)
    ensures LengthsOk(Pack(s, frameId, generation, full)) && CellsOk(Pack(s, frameId, generation, full))
  {
    SpansInBounds(FlatCells(s, IncludedRows(s, full)));
    IncludedRowsSorted(s, full);
  }

  /**
    The builder's output validates exactly when its caller passed ids from one
    up, a non-empty grid, representable cursor numbers and, for a partial
    update, dirty rows inside the grid.
    */
  lemma {:induction false} PackValidatesIff(s: Snapshot, frameId: int, generation: int, full: bool)
    ensures WellFormedUpdate(Pack(s, frameId, generation, full)) <==>
            && 1 <= frameId <= MAX_SAFE_INTEGER && 1 <= generation <= MAX_SAFE_INTEGER
            && 1 <= s.cols && 1 <= s.rows
            && IsSafeInteger(s.cursorX) && IsSafeInteger(s.cursorY) && IsSafeInteger(s.cursorStyle)
            && (full || forall row | row in s.dirtyRows :: row < s.rows)
  {
    PackedBody(s, frameId, generation, full);
    IncludedRowsSorted(s, full);
    var u := Pack(s, frameId, generation, full);
    assert RowsOk(u) <==> (full || forall row | row in s.dirtyRows :: row < s.rows);
  }

  /** As many ascending numbers below a bound as the bound itself are all of them. */
  lemma {:induction false} AllBelow(rows: seq<nat>, n: nat)
    requires StrictlyIncreasing(rows) && forall i | 0 <= i < |rows| :: rows[i] < n
    ensures |rows| <= n
    ensures |rows| == n <==> forall r | 0 <= r < n :: r in rows
  {
    if rows == [] {
      assert n > 0 ==> 0 !in rows;
    } else {
      var front, last := rows[..|rows| - 1], rows[|rows| - 1];
      assert rows == front + [last];
      AllBelow(front, last);
      if n - 1 in rows {
        assert last == n - 1;
      }
      assert forall r | r in front :: r < last;
      assert forall r | 0 <= r < last :: r in rows <==> r in front;
    }
  }

  /** The number is a color packed into 24 bits. */
  predicate IsPackedColor(n: nat) {
    PackColor(UnpackColor(n)) == n
  }

  lemma ColorDigits(n: nat)
    requires n <= MAX_COLOR
    ensures n / 0x10000 % 0x100 * 0x10000 + n / 0x100 % 0x100 * 0x100 + n % 0x100 == n
  {
    assert n / 0x10000 < 0x100;
    assert n / 0x100 == n / 0x10000 * 0x100 + n / 0x100 % 0x100;
  }

  lemma PackedColorIff(n: nat)
    ensures IsPackedColor(n) <==> n <= MAX_COLOR
  {
    if n <= MAX_COLOR {
      ColorDigits(n);
    }
  }

  /** Every column has an entry for each cell of the included rows, colors are colors, texts lie in the payload. */
  predicate CellsReadable(u: Packed) {
    var n := |u.dirtyRows| * if u.cols >= 0 then u.cols else 0;
    && |u.graphemeOffsets| == n && |u.graphemeLengths| == n
    && |u.foregrounds| == n && |u.backgrounds| == n && |u.styles| == n
    && forall i | 0 <= i < n ::
         && IsPackedColor(u.foregrounds[i]) && IsPackedColor(u.backgrounds[i])
         && u.graphemeOffsets[i] + u.graphemeLengths[i] <= |u.graphemes|
  }

  /**
    What a validated update is good for, and all it takes to be one: positive
    numbers that doubles hold, a grid of 1 to 65535 rows and columns, rows of that
    grid in ascending order and with flags, all of them if it is full, and cells
    that can be read.
    */
  lemma WellFormedIff(u: Packed)
    ensures WellFormedUpdate(u) <==>
              && u.version == 1
              && 1 <= u.frameId <= 0x1F_FFFF_FFFF_FFFF && 1 <= u.generation <= 0x1F_FFFF_FFFF_FFFF
              && 1 <= u.cols <= 65535 && 1 <= u.rows <= 65535
              && IsPackedColor(u.foreground) && IsPackedColor(u.background) && IsPackedColor(u.cursor)
              && -0x1F_FFFF_FFFF_FFFF <= u.cursorX <= 0x1F_FFFF_FFFF_FFFF
              && -0x1F_FFFF_FFFF_FFFF <= u.cursorY <= 0x1F_FFFF_FFFF_FFFF
              && -0x1F_FFFF_FFFF_FFFF <= u.cursorStyle <= 0x1F_FFFF_FFFF_FFFF
              && |u.rowFlags| == |u.dirtyRows|
              && (forall i, j | 0 <= i < j < |u.dirtyRows| :: u.dirtyRows[i] < u.dirtyRows[j])
              && (forall i | 0 <= i < |u.dirtyRows| :: u.dirtyRows[i] < u.rows)
              && (u.full ==> forall r | 0 <= r < u.rows :: r in u.dirtyRows)
              && CellsReadable(u)
  {
    hide IsPackedColor;
    PackedColorIff(u.foreground);
    PackedColorIff(u.background);
    PackedColorIff(u.cursor);
    if u.cols >= 0 && u.rows >= 0 {
      SlabIsProduct(|u.dirtyRows|, u.cols);
      if StrictlyIncreasing(u.dirtyRows) && forall i | 0 <= i < |u.dirtyRows| :: u.dirtyRows[i] < u.rows {
        AllBelow(u.dirtyRows, u.rows);
      }
      CellsReadableIff(u);
    }
  }

  lemma CellsReadableIff(u: Packed)
    requires u.cols >= 0
    ensures CellsReadable(u) <==>
              && |u.graphemeOffsets| == |u.graphemeLengths| == |u.foregrounds| == |u.backgrounds| == |u.styles|
              && |u.styles| == Slab(|u.dirtyRows|, u.cols) && CellsOk(u)
  {
    SlabIsProduct(|u.dirtyRows|, u.cols);
    forall n: nat ensures IsPackedColor(n) <==> n <= MAX_COLOR {
      PackedColorIff(n);
    }
    hide IsPackedColor;
  }
}
