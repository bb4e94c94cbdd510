/** Cells, rows and snapshots of the render state, and their packed numbers. */
module RenderModel {
  import opened Bytes
  import opened Utf8Text

  type PackedColor = n: int | 0 <= n <= 0xFFFFFF

  datatype Color = Color(r: int, g: int, b: int)

  datatype Cell = Cell(
    text: Text,
    wide: int,
    foreground: Color,
    background: Color,
    bold: bool,
    italic: bool,
    invisible: bool,
    strikethrough: bool,
    overline: bool,
    underline: int,
    selected: bool)

  datatype Row = Row(cells: seq<Cell>, text: Text, isWrapContinuation: bool, wrapsToNext: bool)

  datatype Snapshot = Snapshot(
    cols: U16,
    rows: U16,
    foreground: Color,
    background: Color,
    cursor: Color,
    cursorX: int,
    cursorY: int,
    cursorVisible: bool,
    cursorBlinking: bool,
    cursorStyle: int,
    dirtyRows: set<U32>,
    rowData: seq<Row>)

  /** White space and line terminators, as `String.prototype.trimEnd` knows them. */
  predicate IsWhiteSpace(u: U16) {
    || 0x09 <= u <= 0x0D || u == 0x20 || u == 0xA0 || u == 0x1680 || 0x2000 <= u <= 0x200A
    || u == 0x2028 || u == 0x2029 || u == 0x202F || u == 0x205F || u == 0x3000 || u == 0xFEFF
  }

  function TrimEnd(t: Text): (r: Text)
    ensures r <= t
    ensures r != [] ==> !IsWhiteSpace(r[|r| - 1])
    ensures forall i | |r| <= i < |t| :: IsWhiteSpace(t[i])
  {
    if t != [] && IsWhiteSpace(t[|t| - 1]) then TrimEnd(t[..|t| - 1]) else t
  }

  /** The texts of a row's cells in order, a blank for every empty one. */
  function JoinedText(cells: seq<Cell>): Text {
    if cells == [] then []
    else
      var text := cells[|cells| - 1].text;
      JoinedText(cells[..|cells| - 1]) + if text == [] then [0x20] else text
  }

  function RowText(cells: seq<Cell>): Text {
    TrimEnd(JoinedText(cells))
  }

  /** `x & 0xff`: the low eight bits of the two's-complement form. */
  function LowByte(x: int): (n: nat)
    ensures n < 0x100 && (x - n) % 0x100 == 0
  {
    x % 0x100
  }

  function PackColor(color: Color): PackedColor {
    LowByte(color.r) * 0x10000 + LowByte(color.g) * 0x100 + LowByte(color.b)
  }

  function UnpackColor(packed: nat): Color {
    Color(packed / 0x10000 % 0x100, packed / 0x100 % 0x100, packed % 0x100)
  }

  /** The six flags of the style word. */
  function StyleFlags(cell: Cell): (flags: nat)
    ensures flags <= 252
  {
    4 * Bit(cell.bold) + 8 * Bit(cell.italic) + 16 * Bit(cell.invisible)
    + 32 * Bit(cell.strikethrough) + 64 * Bit(cell.overline) + 128 * Bit(cell.selected)
  }

  /** The style word: width in bits 0..1, six flags, underline in bits 8..10. */
  function PackStyle(cell: Cell): (packed: nat)
    ensures packed < 0x800
  {
    cell.wide % 4 + StyleFlags(cell) + 256 * (cell.underline % 8)
  }

  /** A cell materialized from its packed numbers. */
  function UnpackCell(text: Text, foreground: nat, background: nat, style: nat): Cell {
    Cell(text, style % 4, UnpackColor(foreground), UnpackColor(background),
         style / 4 % 2 == 1, style / 8 % 2 == 1, style / 16 % 2 == 1,
         style / 32 % 2 == 1, style / 64 % 2 == 1, style / 256 % 8, style / 128 % 2 == 1)
  }

  function PackRowFlags(row: Row): (flags: nat)
    ensures flags < 4
  {
    Bit(row.isWrapContinuation) + 2 * Bit(row.wrapsToNext)
  }

  function SeenColor(color: Color): Color {
    Color(LowByte(color.r), LowByte(color.g), LowByte(color.b))
  }

  /** A cell as a reader of the packed form sees it. */
  function SeenCell(cell: Cell): Cell {
    cell.(text := Seen(cell.text), wide := cell.wide % 4, underline := cell.underline % 8,
          foreground := SeenColor(cell.foreground), background := SeenColor(cell.background))
  }

  function SeenCells(cells: seq<Cell>): (r: seq<Cell>)
    ensures |r| == |cells|
    ensures forall i | 0 <= i < |cells| :: r[i] == SeenCell(cells[i])
  {
    seq(|cells|, i requires 0 <= i < |cells| => SeenCell(cells[i]))
  }

  function SeenRow(row: Row): Row {
    Row(SeenCells(row.cells), RowText(SeenCells(row.cells)), row.isWrapContinuation, row.wrapsToNext)
  }

  predicate InChannelRange(color: Color) {
    0 <= color.r < 0x100 && 0 <= color.g < 0x100 && 0 <= color.b < 0x100
  }

  /** The cells the packed form can carry without loss. */
  predicate Representable(cell: Cell) {
    && WellFormed(cell.text) && (cell.text == [] || cell.text[0] != BYTE_ORDER_MARK)
    && 0 <= cell.wide < 4 && 0 <= cell.underline < 8
    && InChannelRange(cell.foreground) && InChannelRange(cell.background)
  }

  lemma ColorReadsBack(color: Color)
    ensures UnpackColor(PackColor(color)) == SeenColor(color)
    ensures UnpackColor(PackColor(color)) == color <==> InChannelRange(color)
  {
    var packed := PackColor(color);
    assert packed / 0x100 == LowByte(color.r) * 0x100 + LowByte(color.g);
    assert packed / 0x10000 == LowByte(color.r);
  }

  lemma StyleDigits(style: nat, w: nat, a: nat, b: nat, c: nat, d: nat, e: nat, f: nat, u: nat)
    requires w < 4 && a < 2 && b < 2 && c < 2 && d < 2 && e < 2 && f < 2 && u < 8
    requires style == w + 4 * a + 8 * b + 16 * c + 32 * d + 64 * e + 128 * f + 256 * u
    ensures style % 4 == w && style / 4 % 2 == a && style / 8 % 2 == b && style / 16 % 2 == c
    ensures style / 32 % 2 == d && style / 64 % 2 == e && style / 128 % 2 == f && style / 256 % 8 == u
  {
    assert style / 4 == a + 2 * b + 4 * c + 8 * d + 16 * e + 32 * f + 64 * u;
    assert style / 8 == b + 2 * c + 4 * d + 8 * e + 16 * f + 32 * u;
    assert style / 16 == c + 2 * d + 4 * e + 8 * f + 16 * u;
    assert style / 32 == d + 2 * e + 4 * f + 8 * u;
    assert style / 64 == e + 2 * f + 4 * u;
    assert style / 128 == f + 2 * u;
    assert style / 256 == u;
  }

  /** Packed numbers and UTF-8 bytes read back as the seen cell. */
  lemma {:induction false} CellReadsBack(cell: Cell)
    ensures UnpackCell(DecodeText(Utf8(cell.text)), PackColor(cell.foreground), PackColor(cell.background),
                       PackStyle(cell))
            == SeenCell(cell)
  {
    TextReadsBack(cell.text);
    ColorReadsBack(cell.foreground);
    ColorReadsBack(cell.background);
    StyleDigits(PackStyle(cell), cell.wide % 4, Bit(cell.bold), Bit(cell.italic), Bit(cell.invisible),
                Bit(cell.strikethrough), Bit(cell.overline), Bit(cell.selected), cell.underline % 8);
  }

  /** The packed form is lossless exactly on representable cells. */
  lemma SeenCellIsIdentityIff(cell: Cell)
    ensures SeenCell(cell) == cell <==> Representable(cell)
  {
    SeenIsIdentityIff(cell.text);
    ColorReadsBack(cell.foreground);
    ColorReadsBack(cell.background);
    var seen := SeenCell(cell);
    if seen == cell {
      assert seen.text == Seen(cell.text) && seen.wide == cell.wide % 4 && seen.underline == cell.underline % 8;
      assert seen.foreground == SeenColor(cell.foreground) && seen.background == SeenColor(cell.background);
    }
  }

  lemma {:induction false} SeenRowIsIdentityIff(row: Row)
    requires row.text == RowText(row.cells)
    ensures SeenRow(row) == row <==> forall cell | cell in row.cells :: Representable(cell)
  {
    var seen := SeenCells(row.cells);
    if forall cell | cell in row.cells :: Representable(cell) {
      forall i | 0 <= i < |row.cells| ensures seen[i] == row.cells[i] {
        SeenCellIsIdentityIff(row.cells[i]);
      }
      assert seen == row.cells;
    }
    if SeenRow(row) == row {
      assert SeenRow(row).cells == seen;
      forall cell | cell in row.cells ensures Representable(cell) {
        var i :| 0 <= i < |row.cells| && row.cells[i] == cell;
        assert seen[i] == cell;
        SeenCellIsIdentityIff(cell);
      }
    }
  }

  lemma JoinedTextSnoc(cells: seq<Cell>, cell: Cell)
    ensures JoinedText(cells + [cell]) == JoinedText(cells) + if cell.text == [] then [0x20] else cell.text
  {
    assert (cells + [cell])[..|cells|] == cells;
  }

  lemma JoinedTextStep(cells: seq<Cell>, n: nat)
    requires n < |cells|
    ensures JoinedText(cells[..n + 1])
            == JoinedText(cells[..n]) + if cells[n].text == [] then [0x20] else cells[n].text
  {
    assert cells[..n + 1] == cells[..n] + [cells[n]];
    JoinedTextSnoc(cells[..n], cells[n]);
  }
}
