/** What one visible cell shows, in terms of what the terminal stores for it. */
module CellLaws {
  import opened Bytes
  import opened Options
  import opened Utf8Text
  import opened RenderModel
  import opened NativeTerminal

  lemma {:induction false} TextGrows(codepoints: seq<CodePoint>)
    ensures |codepoints| <= |TextOf(codepoints)|
    ensures |codepoints| == 1 ==> TextOf(codepoints) == Units(codepoints[0])
  {
    if codepoints != [] {
      TextGrows(codepoints[..|codepoints| - 1]);
    }
  }

  /** One printable ASCII character. */
  predicate OnePrintable(codepoints: seq<CodePoint>) {
    |codepoints| == 1 && ' ' as int <= codepoints[0] <= '~' as int
  }

  lemma PrintableIff(codepoints: seq<CodePoint>)
    ensures IsAsciiGraphic(TextOf(codepoints)) <==> OnePrintable(codepoints)
    ensures TextOf(codepoints) == [] <==> codepoints == []
  {
    TextGrows(codepoints);
  }

  /**
    Cells not asked for their width: one printable character, or nothing, unless
    the empty cell is the last of its row or stands right after a text.
    */
  predicate KnownNarrow(row: NativeRow, column: nat, cols: nat)
    requires column < |row.cells|
  {
    var codepoints := row.cells[column].codepoints;
    || OnePrintable(codepoints)
    || (codepoints == [] && column != cols - 1 && (column == 0 || row.cells[column - 1].codepoints == []))
  }

  lemma ShownWidth(row: NativeRow, column: nat, cols: nat, defaults: Colors)
    requires column < |row.cells| && column < cols
    ensures VisibleCell(row, column, cols, defaults).wide
            == if KnownNarrow(row, column, cols) then 0 else row.cells[column].wide
  {
    PrintableIff(row.cells[column].codepoints);
    if column > 0 {
      PrintableIff(row.cells[column - 1].codepoints);
    }
    hide CellColors, TextOf;
  }

  /**
    Skipping the width of such cells is right exactly where the terminal stores
    them as narrow: then every shown width is the stored one.
    */
  lemma WidthsAreNativeIff(row: NativeRow, cols: nat, defaults: Colors)
    requires cols <= |row.cells|
    ensures (forall c | 0 <= c < cols :: VisibleCells(row, cols, defaults)[c].wide == row.cells[c].wide)
            <==> forall c | 0 <= c < cols && KnownNarrow(row, c, cols) :: row.cells[c].wide == 0
  {
    forall c | 0 <= c < cols
      ensures VisibleCells(row, cols, defaults)[c].wide
              == if KnownNarrow(row, c, cols) then 0 else row.cells[c].wide
    {
      ShownWidth(row, c, cols, defaults);
    }
    hide VisibleCell, KnownNarrow;
  }

  /** Exactly the columns from the first to the last selected one are shown as selected. */
  lemma SelectedColumns(row: NativeRow, column: nat, cols: nat, defaults: Colors)
    requires column < |row.cells| && column < cols
    ensures VisibleCell(row, column, cols, defaults).selected
            <==> row.selection.Some? && row.selection.value.0 <= column && column <= row.selection.value.1
  {
  }

  /** Half of both channels, a half rounded up; so a blend lies between the two, and is neither's favorite. */
  lemma BlendIsMean(front: int, back: int)
    ensures var mix := BlendChannel(front, back);
            && (2 * mix == front + back || 2 * mix == front + back + 1)
            && (front <= mix <= back || back <= mix <= front)
            && mix == BlendChannel(back, front)
  {
  }

  /** The mean of two colors, channel by channel. */
  predicate IsMean(mix: Color, front: Color, back: Color) {
    && 0 <= 2 * mix.r - (front.r + back.r) <= 1
    && 0 <= 2 * mix.g - (front.g + back.g) <= 1
    && 0 <= 2 * mix.b - (front.b + back.b) <= 1
  }

  predicate Shows(shown: Color, own: Option<Color>, fallback: Color) {
    shown == if own.Some? then own.value else fallback
  }

  /**
    Colors of a cell: an unstyled one has the defaults; in a styled one inverse
    video exchanges the two, and faint draws the foreground halfway to the
    background it then has. The background is never blended.
    */
  lemma ShownColors(row: NativeRow, column: nat, cols: nat, defaults: Colors)
    requires column < |row.cells| && column < cols
    ensures var cell, shown := row.cells[column], VisibleCell(row, column, cols, defaults);
            && (!cell.hasStyling ==> shown.foreground == defaults.foreground && shown.background == defaults.background)
            && (cell.hasStyling && !cell.style.inverse ==>
                  && Shows(shown.background, cell.background, defaults.background)
                  && (!cell.style.faint ==> Shows(shown.foreground, cell.foreground, defaults.foreground))
                  && (cell.style.faint ==>
                        exists own :: Shows(own, cell.foreground, defaults.foreground)
                                      && IsMean(shown.foreground, own, shown.background)))
            && (cell.hasStyling && cell.style.inverse ==>
                  && Shows(shown.background, cell.foreground, defaults.foreground)
                  && (!cell.style.faint ==> Shows(shown.foreground, cell.background, defaults.background))
                  && (cell.style.faint ==>
                        exists own :: Shows(own, cell.background, defaults.background)
                                      && IsMean(shown.foreground, own, shown.background)))
  {
    var cell, shown := row.cells[column], VisibleCell(row, column, cols, defaults);
    if cell.hasStyling {
      var foreground := if cell.foreground.Some? then cell.foreground.value else defaults.foreground;
      var background := if cell.background.Some? then cell.background.value else defaults.background;
      var own := if cell.style.inverse then background else foreground;
      assert Shows(foreground, cell.foreground, defaults.foreground);
      assert Shows(background, cell.background, defaults.background);
      assert cell.style.faint ==> IsMean(shown.foreground, own, shown.background);
    }
  }

  /** Attributes are those of the style where there is one; past the row's cells everything is blank. */
  lemma ShownAttributes(row: NativeRow, column: nat, cols: nat, defaults: Colors)
    requires column < cols
    ensures var shown := VisibleCell(row, column, cols, defaults);
            if column < |row.cells| then
              var cell := row.cells[column];
              && shown.bold == (cell.hasStyling && cell.style.bold)
              && shown.italic == (cell.hasStyling && cell.style.italic)
              && shown.invisible == (cell.hasStyling && cell.style.invisible)
              && shown.strikethrough == (cell.hasStyling && cell.style.strikethrough)
              && shown.overline == (cell.hasStyling && cell.style.overline)
              && shown.underline == (if cell.hasStyling then cell.style.underline else 0)
            else
              && shown.text == [] && shown.wide == 0 && shown.underline == 0
              && shown.foreground == defaults.foreground && shown.background == defaults.background
              && !shown.bold && !shown.italic && !shown.invisible && !shown.strikethrough && !shown.overline
              && !shown.selected
  {
  }

  /** Default colors not set are light gray on black, and a cursor without a color of its own has the foreground's. */
  lemma DefaultColors(grid: Grid)
    ensures var colors := ColorsOf(grid);
            && Shows(colors.foreground, grid.foreground, Color(229, 231, 235))
            && Shows(colors.background, grid.background, Color(0, 0, 0))
            && Shows(colors.cursor, grid.cursor, colors.foreground)
  {
  }

  /**
    Out of the viewport there is no cursor. In it, it stands where the terminal
    has it, but on the first half of a wide character, never on the second.
    */
  lemma ShownCursor(grid: Grid, dirty: set<U32>)
    requires |grid.lines| == grid.rows
    ensures var s := VisibleGrid(grid, dirty);
            && (!grid.cursorInViewport ==> s.cursorX == -1 && s.cursorY == -1 && !s.cursorVisible)
            && (grid.cursorInViewport ==> s.cursorY == grid.cursorY && s.cursorVisible == grid.cursorVisible)
            && (grid.cursorInViewport && grid.cursorWideTail ==>
                  0 <= s.cursorX <= grid.cursorX <= s.cursorX + 1 && (s.cursorX == grid.cursorX <==> grid.cursorX == 0))
            && (grid.cursorInViewport && !grid.cursorWideTail ==> s.cursorX == grid.cursorX)
            && s.cursorBlinking == grid.cursorBlinking && s.cursorStyle == grid.cursorStyle
  {
  }

  lemma OneText(cell: Cell)
    ensures JoinedText([cell]) == if cell.text == [] then [' ' as U16] else cell.text
  {
    assert [cell][..0] == [];
  }

  lemma Regrouped(a: Text, b: Text, c: Text)
    ensures a + b + c == a + (b + c)
  {
  }

  /** The texts of cells join as the cells do, and an empty cell stands for one blank. */
  lemma {:induction false} TextsJoin(front: seq<Cell>, back: seq<Cell>)
    ensures JoinedText(front + back) == JoinedText(front) + JoinedText(back)
    ensures |back| == 1 ==> JoinedText(back) == if back[0].text == [] then [' ' as U16] else back[0].text
  {
    if back == [] {
      assert front + back == front;
    } else {
      var n := |back| - 1;
      assert (front + back)[..|front| + n] == front + back[..n] && (front + back)[|front| + n] == back[n];
      TextsJoin(front, back[..n]);
      Regrouped(JoinedText(front), JoinedText(back[..n]), if back[n].text == [] then [' ' as U16] else back[n].text);
      if n == 0 {
        assert back == [back[0]];
        OneText(back[0]);
      }
    }
  }

  /** The 25 code units that are cut: tab to return, the spaces, the two separators and the byte order mark. */
  lemma WhiteSpaceUnits(u: U16)
    ensures IsWhiteSpace(u) <==>
              u in {9, 10, 11, 12, 13, 32, 160, 5760, 8192, 8193, 8194, 8195, 8196, 8197, 8198, 8199, 8200, 8201, 8202,
                    8232, 8233, 8239, 8287, 12288, 65279}
  {
  }
}
