/**
  The retained rows of the terminal core, overwritten in place. Cells are
  objects that own two color objects; inverse video swaps the two, so which of
  them is the foreground changes while the pair stays with its cell.

  `row`, `column` and `side` are fixed when an object is made, for a blank row
  of a new cache. Two cells or colors at different places are different objects.
  */
module RowCache {
  import opened Options
  import opened Utf8Text
  import opened RenderModel
  import opened NativeTerminal

  class ColorBox {
    ghost const row: nat
    ghost const column: nat
    ghost const side: bool
    var r: int
    var g: int
    var b: int

    constructor (color: Color, ghost row: nat, ghost column: nat, ghost side: bool)
      ensures Value() == color && this.row == row && this.column == column && this.side == side
    {
      this.row, this.column, this.side := row, column, side;
      r, g, b := color.r, color.g, color.b;
    }

    function Value(): Color
      reads this
    {
      Color(r, g, b)
    }

    method Set(color: Color)
      modifies this
      ensures Value() == color
    {
      r, g, b := color.r, color.g, color.b;
    }

    /** The cell's own color if it has one, else the fallback. */
    method Take(own: Option<Color>, fallback: Color)
      modifies this
      ensures Value() == ColorOr(own, fallback)
    {
      match own
      case Some(color) => Set(color);
      case None => Set(fallback);
    }
  }

  class CellBox {
    ghost const row: nat
    ghost const column: nat
    var text: Text
    var wide: int
    var foreground: ColorBox
    var background: ColorBox
    var bold: bool
    var italic: bool
    var invisible: bool
    var strikethrough: bool
    var overline: bool
    var underline: int
    var selected: bool

    /** The two color objects are different ones and live at this cell's place. */
    ghost predicate OwnsColors()
      reads this
    {
      && foreground.row == row && foreground.column == column
      && background.row == row && background.column == column
      && foreground.side != background.side
    }

    function Value(): Cell
      reads this, foreground, background
    {
      Cell(text, wide, foreground.Value(), background.Value(), bold, italic, invisible, strikethrough, overline,
           underline, selected)
    }

    /** A blank cell with two new color objects. */
    constructor (defaults: Colors, ghost row: nat, ghost column: nat)
      ensures this.row == row && this.column == column && OwnsColors()
      ensures fresh(foreground) && fresh(background)
      ensures Value() == BlankCell(defaults)
    {
      this.row, this.column := row, column;
      text, wide := [], 0;
      foreground := new ColorBox(defaults.foreground, row, column, false);
      background := new ColorBox(defaults.background, row, column, true);
      bold, italic, invisible, strikethrough, overline := false, false, false, false, false;
      underline, selected := 0, false;
    }

    method Reset(defaults: Colors)
      requires OwnsColors()
      modifies this, foreground, background
      ensures OwnsColors() && foreground == old(foreground) && background == old(background)
      ensures Value() == BlankCell(defaults)
    {
      text, wide := [], 0;
      foreground.Set(defaults.foreground);
      background.Set(defaults.background);
      bold, italic, invisible, strikethrough, overline := false, false, false, false, false;
      underline, selected := 0, false;
    }

    /** Default colors, own colors, inverse swap, faint blend, in this order. */
    method PaintColors(cell: NativeCell, defaults: Colors)
      requires OwnsColors()
      modifies this`foreground, this`background, foreground, background
      ensures OwnsColors() && {foreground, background} == old({foreground, background})
      ensures (foreground.Value(), background.Value()) == CellColors(cell, defaults)
    {
      foreground.Set(defaults.foreground);
      background.Set(defaults.background);
      if cell.hasStyling {
        foreground.Take(cell.foreground, defaults.foreground);
        background.Take(cell.background, defaults.background);
      }
      if cell.hasStyling && cell.style.inverse {
        foreground, background := background, foreground;
      }
      if cell.hasStyling && cell.style.faint {
        foreground.Set(Blend(foreground.Value(), background.Value()));
      }
    }

    method PaintAttributes(cell: NativeCell, text: Text, wide: int, selected: bool)
      modifies this`text, this`wide, this`bold, this`italic, this`invisible, this`strikethrough
      modifies this`overline, this`underline, this`selected
      ensures Value() == StyledCell(cell, text, wide, (foreground.Value(), background.Value()), selected)
    {
      this.text := text;
      this.wide := wide;
      bold := cell.hasStyling && cell.style.bold;
      italic := cell.hasStyling && cell.style.italic;
      invisible := cell.hasStyling && cell.style.invisible;
      strikethrough := cell.hasStyling && cell.style.strikethrough;
      overline := cell.hasStyling && cell.style.overline;
      underline := if cell.hasStyling then cell.style.underline else 0;
      this.selected := selected;
    }

    /** Overwrite this cell with a native one. */
    method Paint(cell: NativeCell, text: Text, wide: int, defaults: Colors, selected: bool)
      requires OwnsColors()
      modifies this, foreground, background
      ensures OwnsColors() && {foreground, background} == old({foreground, background})
      ensures Value() == StyledCell(cell, text, wide, CellColors(cell, defaults), selected)
    {
      PaintColors(cell, defaults);
      PaintAttributes(cell, text, wide, selected);
    }
  }

  /** All cells sit at their places and own their colors, which are all in the palette. */
  ghost predicate CellsOk(cells: seq<CellBox>, row: nat, palette: set<ColorBox>)
    reads cells
  {
    forall c | 0 <= c < |cells| ::
      && cells[c].row == row && cells[c].column == c && cells[c].OwnsColors()
      && cells[c].foreground in palette && cells[c].background in palette
  }

  /** The first `n` cells show what this native row has there. */
  ghost predicate Shown(cells: seq<CellBox>, palette: set<ColorBox>, native: NativeRow, defaults: Colors, n: nat)
    requires n <= |cells|
    reads cells, palette
  {
    forall c | 0 <= c < n ::
      && cells[c].foreground in palette && cells[c].background in palette
      && cells[c].Value() == VisibleCell(native, c, |cells|, defaults)
  }

  /** The first `n` cells as values. */
  ghost function Values(cells: seq<CellBox>, palette: set<ColorBox>, n: nat): seq<Cell>
    requires n <= |cells|
    requires forall c | 0 <= c < |cells| :: cells[c].foreground in palette && cells[c].background in palette
    reads cells, palette
  {
    if n == 0 then [] else Values(cells, palette, n - 1) + [cells[n - 1].Value()]
  }

  lemma {:induction false} ValuesAt(cells: seq<CellBox>, palette: set<ColorBox>, n: nat)
    requires n <= |cells|
    requires forall c | 0 <= c < |cells| :: cells[c].foreground in palette && cells[c].background in palette
    ensures |Values(cells, palette, n)| == n
    ensures forall c | 0 <= c < n :: Values(cells, palette, n)[c] == cells[c].Value()
  {
    if n > 0 {
      ValuesAt(cells, palette, n - 1);
    }
  }

  lemma ShownRow(cells: seq<CellBox>, palette: set<ColorBox>, native: NativeRow, defaults: Colors)
    requires Shown(cells, palette, native, defaults, |cells|)
    ensures Values(cells, palette, |cells|) == VisibleCells(native, |cells|, defaults)
  {
    ValuesAt(cells, palette, |cells|);
  }

  /** Paint one cell; no other cell changes. */
  method PaintAt(cells: seq<CellBox>, column: nat, cell: NativeCell, text: Text, wide: int, defaults: Colors,
                 selected: bool, ghost row: nat, ghost palette: set<ColorBox>)
    requires CellsOk(cells, row, palette) && column < |cells|
    modifies cells[column], palette
    ensures CellsOk(cells, row, palette)
    ensures cells[column].Value() == StyledCell(cell, text, wide, CellColors(cell, defaults), selected)
    ensures forall c | 0 <= c < |cells| :: cells[c].foreground in palette && cells[c].background in palette
    ensures forall c | 0 <= c < |cells| && c != column :: cells[c].Value() == old(cells[c].Value())
  {
    hide StyledCell, CellColors;
    cells[column].Paint(cell, text, wide, defaults, selected);
  }

  /** Overwrite cell `column` from its native cell; no other cell changes. */
  method ReadCell(cells: seq<CellBox>, native: NativeRow, column: nat, defaults: Colors, ghost row: nat,
                  ghost palette: set<ColorBox>)
    returns (text: Text)
    requires CellsOk(cells, row, palette) && column < |cells| && column < |native.cells|
    requires Shown(cells, palette, native, defaults, column)
    modifies cells[column], palette
    ensures CellsOk(cells, row, palette)
    ensures Shown(cells, palette, native, defaults, column + 1)
    ensures text == VisibleCell(native, column, |cells|, defaults).text
    ensures var codepoints := native.cells[column].codepoints; AreScalars(codepoints) ==> Scalars(text) == codepoints
  {
    hide CellsOk, CellColors, Scalars;
    var cell := native.cells[column];
    text := TextOf(cell.codepoints);
    if AreScalars(cell.codepoints) {
      TextDecodes(cell.codepoints);
    }
    var wide := 0;
    if (text != [] && !IsAsciiGraphic(text))
       || (text == [] && (column == |cells| - 1 || (column > 0 && cells[column - 1].text != []))) {
      wide := cell.wide;
    }
    PaintAt(cells, column, cell, text, wide, defaults, InSelection(native.selection, column), row, palette);
  }

  /** Blank a cell past the end of the native row. */
  method BlankAt(cells: seq<CellBox>, native: NativeRow, column: nat, defaults: Colors, ghost row: nat,
                 ghost palette: set<ColorBox>)
    requires CellsOk(cells, row, palette) && |native.cells| <= column < |cells|
    requires Shown(cells, palette, native, defaults, column)
    modifies cells[column], palette
    ensures CellsOk(cells, row, palette)
    ensures Shown(cells, palette, native, defaults, column + 1)
    ensures VisibleCell(native, column, |cells|, defaults).text == []
  {
    cells[column].Reset(defaults);
  }

  /** Read one more cell and append its text. */
  method ReadNext(cells: seq<CellBox>, native: NativeRow, column: nat, prefix: Text, defaults: Colors,
                  ghost row: nat, ghost palette: set<ColorBox>)
    returns (rowText: Text)
    requires CellsOk(cells, row, palette) && column < |cells| && column < |native.cells|
    requires Shown(cells, palette, native, defaults, column)
    requires prefix == JoinedText(VisibleCells(native, |cells|, defaults)[..column])
    modifies cells[column], palette
    ensures CellsOk(cells, row, palette) && Shown(cells, palette, native, defaults, column + 1)
    ensures rowText == JoinedText(VisibleCells(native, |cells|, defaults)[..column + 1])
  {
    var text := ReadCell(cells, native, column, defaults, row, palette);
    JoinedTextStep(VisibleCells(native, |cells|, defaults), column);
    rowText := prefix + if text == [] then [0x20] else text;
  }

  /** The cells the native row still has, and the text collected from them. */
  method ReadNative(cells: seq<CellBox>, native: NativeRow, defaults: Colors, ghost row: nat,
                    ghost palette: set<ColorBox>)
    returns (column: nat, rowText: Text)
    requires CellsOk(cells, row, palette)
    modifies cells, palette
    ensures column <= |cells| && (column == |cells| || |native.cells| <= column)
    ensures CellsOk(cells, row, palette) && Shown(cells, palette, native, defaults, column)
    ensures rowText == JoinedText(VisibleCells(native, |cells|, defaults)[..column])
  {
    ghost var visible := VisibleCells(native, |cells|, defaults);
    column := 0;
    rowText := [];
    while column < |cells| && column < |native.cells|
      invariant column <= |cells| && column <= |native.cells|
      invariant CellsOk(cells, row, palette) && Shown(cells, palette, native, defaults, column)
      invariant rowText == JoinedText(visible[..column])
    {
      rowText := ReadNext(cells, native, column, rowText, defaults, row, palette);
      column := column + 1;
    }
  }

  /** Blank cells for the columns the native row does not have. */
  method BlankRest(cells: seq<CellBox>, native: NativeRow, from: nat, prefix: Text, defaults: Colors,
                   ghost row: nat, ghost palette: set<ColorBox>)
    returns (rowText: Text)
    requires CellsOk(cells, row, palette) && from <= |cells| && (from == |cells| || |native.cells| <= from)
    requires Shown(cells, palette, native, defaults, from)
    requires prefix == JoinedText(VisibleCells(native, |cells|, defaults)[..from])
    modifies cells, palette
    ensures CellsOk(cells, row, palette) && Shown(cells, palette, native, defaults, |cells|)
    ensures rowText == JoinedText(VisibleCells(native, |cells|, defaults))
  {
    ghost var visible := VisibleCells(native, |cells|, defaults);
    var column := from;
    rowText := prefix;
    while column < |cells|
      invariant from <= column <= |cells|
      invariant CellsOk(cells, row, palette) && Shown(cells, palette, native, defaults, column)
      invariant rowText == JoinedText(visible[..column])
    {
      BlankAt(cells, native, column, defaults, row, palette);
      JoinedTextStep(visible, column);
      rowText := rowText + [0x20];
      column := column + 1;
    }
    assert visible[..column] == visible;
  }

  /** Overwrite all cells of a row and collect its text. */
  method ReadCells(cells: seq<CellBox>, native: NativeRow, defaults: Colors, ghost row: nat,
                   ghost palette: set<ColorBox>)
    returns (rowText: Text)
    requires CellsOk(cells, row, palette)
    modifies cells, palette
    ensures CellsOk(cells, row, palette) && Values(cells, palette, |cells|) == VisibleCells(native, |cells|, defaults)
    ensures rowText == JoinedText(VisibleCells(native, |cells|, defaults))
  {
    var column, prefix := ReadNative(cells, native, defaults, row, palette);
    rowText := BlankRest(cells, native, column, prefix, defaults, row, palette);
    ShownRow(cells, palette, native, defaults);
  }

  class RowBox {
    const cells: seq<CellBox>
    var text: Text
    var isWrapContinuation: bool
    var wrapsToNext: bool
    ghost const row: nat

    /** Every color object of the row's cells; all of them at this row. */
    ghost const palette: set<ColorBox>

    constructor (cells: seq<CellBox>, ghost row: nat, ghost palette: set<ColorBox>)
      ensures this.cells == cells && this.row == row && this.palette == palette
      ensures text == [] && !isWrapContinuation && !wrapsToNext
    {
      this.cells, this.row, this.palette := cells, row, palette;
      text, isWrapContinuation, wrapsToNext := [], false, false;
    }

    ghost predicate Valid()
      reads cells
    {
      CellsOk(cells, row, palette) && forall color | color in palette :: color.row == row
    }

    ghost function Value(): Row
      requires Valid()
      reads this, cells, palette
    {
      Row(Values(cells, palette, |cells|), text, isWrapContinuation, wrapsToNext)
    }

    /** Set what is not in the cells; the cells stay. */
    method SetHead(text: Text, isWrapContinuation: bool, wrapsToNext: bool)
      requires Valid()
      modifies this`text, this`isWrapContinuation, this`wrapsToNext
      ensures Valid() && Value() == Row(old(Values(cells, palette, |cells|)), text, isWrapContinuation, wrapsToNext)
    {
      this.text, this.isWrapContinuation, this.wrapsToNext := text, isWrapContinuation, wrapsToNext;
    }

    /** Overwrite the row in place with what the native row shows. */
    method Read(native: NativeRow, defaults: Colors)
      requires Valid()
      modifies this, cells, palette
      ensures Valid() && Value() == VisibleRow(native, |cells|, defaults)
    {
      var rowText := ReadCells(cells, native, defaults, row, palette);
      SetHead(TrimEnd(rowText), native.wrapContinuation, native.wrap);
    }
  }
}
