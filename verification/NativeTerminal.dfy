/**
  The native render state as the core sees it: a grid of styled cells, a global
  dirty level, and one dirty flag for each row. VT parsing itself is not part of
  this model; `Advances` states what the core may rely on.
  */
module NativeTerminal {
  import opened Bytes
  import opened Utf8Text
  import opened Options
  import opened RenderModel

  datatype NativeStyle = NativeStyle(
    bold: bool,
    italic: bool,
    invisible: bool,
    strikethrough: bool,
    overline: bool,
    inverse: bool,
    faint: bool,
    underline: int)

  /** `foreground` and `background` are `None` where the cell has no color of its own. */
  datatype NativeCell = NativeCell(
    codepoints: seq<CodePoint>,
    hasStyling: bool,
    foreground: Option<Color>,
    background: Option<Color>,
    style: NativeStyle,
    wide: int)

  /** A row's cell iterator may end before the last column. */
  datatype NativeRow = NativeRow(
    cells: seq<NativeCell>,
    wrapContinuation: bool,
    wrap: bool,
    selection: Option<(U16, U16)>)

  datatype Grid = Grid(
    cols: U16,
    rows: U16,
    foreground: Option<Color>,
    background: Option<Color>,
    cursor: Option<Color>,
    cursorInViewport: bool,
    cursorVisible: bool,
    cursorX: U16,
    cursorY: U16,
    cursorWideTail: bool,
    cursorBlinking: bool,
    cursorStyle: U32,
    lines: seq<NativeRow>)

  datatype Level = Clean | Partial | Full

  datatype Render = Render(grid: Grid, level: Level, rowDirty: set<U32>)

  datatype Colors = Colors(foreground: Color, background: Color, cursor: Color)

  const FALLBACK_FOREGROUND := Color(229, 231, 235)
  const FALLBACK_BACKGROUND := Color(0, 0, 0)

  function ColorOr(color: Option<Color>, fallback: Color): Color {
    match color
    case Some(c) => c
    case None => fallback
  }

  function ColorsOf(grid: Grid): Colors {
    var foreground := ColorOr(grid.foreground, FALLBACK_FOREGROUND);
    Colors(foreground, ColorOr(grid.background, FALLBACK_BACKGROUND), ColorOr(grid.cursor, foreground))
  }

  /** The render state iterates exactly `rows` rows; flags name rows of the grid. */
  ghost predicate RenderOk(render: Render) {
    && 1 <= render.grid.cols && 1 <= render.grid.rows && |render.grid.lines| == render.grid.rows
    && (forall r | r in render.rowDirty :: r < render.grid.rows)
    && (render.level == Clean ==> render.rowDirty == {})
  }

  predicate AtLeast(level: Level, floor: Level) {
    floor == Clean || level == Full || level == floor
  }

  /**
    What any native mutation guarantees: dirtiness accumulates until it is
    cleared, and unless everything is reported dirty, the grid size and default
    colors are as before and every changed row is flagged.
    */
  ghost predicate Advances(before: Render, after: Render) {
    && RenderOk(after)
    && AtLeast(after.level, before.level)
    && (after.level != Full ==>
          && after.grid.cols == before.grid.cols && after.grid.rows == before.grid.rows
          && ColorsOf(after.grid) == ColorsOf(before.grid)
          && before.rowDirty <= after.rowDirty
          && forall r: U32 | r < after.grid.rows && r < |before.grid.lines| && r !in after.rowDirty ::
               after.grid.lines[r] == before.grid.lines[r])
  }

  function TextOf(codepoints: seq<CodePoint>): Text {
    if codepoints == [] then []
    else TextOf(codepoints[..|codepoints| - 1]) + Units(codepoints[|codepoints| - 1])
  }

  /** None of the code points is a surrogate. */
  predicate AreScalars(codepoints: seq<CodePoint>) {
    forall i | 0 <= i < |codepoints| :: !(0xD800 <= codepoints[i] <= 0xDFFF)
  }

  lemma {:induction false} FromScalarsSnoc(ss: seq<Scalar>, s: Scalar)
    ensures FromScalars(ss + [s]) == FromScalars(ss) + Units(s)
  {
    if ss == [] {
      assert [s][1..] == [];
    } else {
      assert (ss + [s])[1..] == ss[1..] + [s];
      FromScalarsSnoc(ss[1..], s);
    }
  }

  lemma {:induction false} TextOfScalars(ss: seq<Scalar>)
    ensures TextOf(ss) == FromScalars(ss)
  {
    if ss != [] {
      var front := ss[..|ss| - 1];
      TextOfScalars(front);
      FromScalarsSnoc(front, ss[|ss| - 1]);
      assert front + [ss[|ss| - 1]] == ss;
    }
  }

  /** A cell's text is its code points: decoding it gives all of them back, in order. */
  lemma TextDecodes(codepoints: seq<CodePoint>)
    requires AreScalars(codepoints)
    ensures Scalars(TextOf(codepoints)) == codepoints
  {
    var ss: seq<Scalar> := codepoints;
    TextOfScalars(ss);
    ScalarsReadBack(ss);
  }

  /** Also with surrogates among them, texts join as code points do. */
  lemma {:induction false} TextOfJoins(front: seq<CodePoint>, back: seq<CodePoint>)
    ensures TextOf(front + back) == TextOf(front) + TextOf(back)
  {
    if back == [] {
      assert front + back == front;
    } else {
      var n := |back| - 1;
      assert (front + back)[..|front| + n] == front + back[..n];
      TextOfJoins(front, back[..n]);
    }
  }

  predicate IsAsciiGraphic(text: Text) {
    |text| == 1 && 0x20 <= text[0] <= 0x7E
  }

  /** Half of two channels, halves rounded up. */
  function BlendChannel(front: int, back: int): int {
    (front + back + 1) / 2
  }

  function Blend(front: Color, back: Color): Color {
    Color(BlendChannel(front.r, back.r), BlendChannel(front.g, back.g), BlendChannel(front.b, back.b))
  }

  /** Foreground and background of a cell: own colors, inverse, then faint. */
  function CellColors(cell: NativeCell, defaults: Colors): (Color, Color) {
    if !cell.hasStyling then (defaults.foreground, defaults.background)
    else
      var own := (ColorOr(cell.foreground, defaults.foreground), ColorOr(cell.background, defaults.background));
      var shown := if cell.style.inverse then (own.1, own.0) else own;
      if cell.style.faint then (Blend(shown.0, shown.1), shown.1) else shown
  }

  /** Only these cells ask for their native width; every other one is narrow. */
  predicate AsksWidth(text: Text, previous: Text, column: nat, cols: nat) {
    || (text != [] && !IsAsciiGraphic(text))
    || (text == [] && (column + 1 == cols || (column > 0 && previous != [])))
  }

  predicate InSelection(selection: Option<(U16, U16)>, column: nat) {
    match selection
    case Some(range) => range.0 <= column <= range.1
    case None => false
  }

  function BlankCell(defaults: Colors): Cell {
    Cell([], 0, defaults.foreground, defaults.background, false, false, false, false, false, 0, false)
  }

  function StyledCell(cell: NativeCell, text: Text, wide: int, colors: (Color, Color), selected: bool): Cell {
    var on := cell.hasStyling;
    Cell(text, wide, colors.0, colors.1, on && cell.style.bold, on && cell.style.italic,
         on && cell.style.invisible, on && cell.style.strikethrough, on && cell.style.overline,
         if on then cell.style.underline else 0, selected)
  }

  /** What one cell shows; columns past the row's cells are blank. */
  function VisibleCell(row: NativeRow, column: nat, cols: nat, defaults: Colors): Cell {
    if column >= |row.cells| then BlankCell(defaults)
    else
      var cell := row.cells[column];
      var text := TextOf(cell.codepoints);
      var previous := if column > 0 then TextOf(row.cells[column - 1].codepoints) else [];
      var wide := if AsksWidth(text, previous, column, cols) then cell.wide else 0;
      StyledCell(cell, text, wide, CellColors(cell, defaults), InSelection(row.selection, column))
  }

  function VisibleCells(row: NativeRow, cols: nat, defaults: Colors): (cells: seq<Cell>)
    ensures |cells| == cols
    ensures forall c | 0 <= c < cols :: cells[c] == VisibleCell(row, c, cols, defaults)
  {
    seq(cols, c requires 0 <= c < cols => VisibleCell(row, c, cols, defaults))
  }

  function VisibleRow(row: NativeRow, cols: nat, defaults: Colors): (r: Row)
    ensures |r.cells| == cols
  {
    var cells := VisibleCells(row, cols, defaults);
    Row(cells, RowText(cells), row.wrapContinuation, row.wrap)
  }

  function CursorX(grid: Grid): int {
    if !grid.cursorInViewport then -1
    else if grid.cursorX > 0 && grid.cursorWideTail then grid.cursorX - 1
    else grid.cursorX
  }

  /** The visible grid, as a complete read of the terminal would report it. */
  function VisibleGrid(grid: Grid, dirty: set<U32>): (s: Snapshot)
    requires |grid.lines| == grid.rows
    ensures |s.rowData| == s.rows == grid.rows
    ensures forall r | 0 <= r < grid.rows :: s.rowData[r] == VisibleRow(grid.lines[r], grid.cols, ColorsOf(grid))
  {
    var colors := ColorsOf(grid);
    Snapshot(grid.cols, grid.rows, colors.foreground, colors.background, colors.cursor,
             CursorX(grid), if grid.cursorInViewport then grid.cursorY else -1,
             grid.cursorVisible && grid.cursorInViewport, grid.cursorBlinking, grid.cursorStyle, dirty,
             seq(grid.rows, r requires 0 <= r < grid.rows => VisibleRow(grid.lines[r], grid.cols, colors)))
  }
}
