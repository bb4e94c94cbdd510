/**
  The viewport as the receiver retains it: flat arrays that updates are copied
  into in place, and caches of decoded texts and rows. What it shows at any time
  is what `ViewportModel` says, and no cache outlives the row it was made from.
  */
module RetainedViewport {
  import opened Options
  import opened Utf8Text
  import opened RenderModel
  import opened PackedUpdate
  import V = ViewportModel

  /** The flat arrays, allocated together: five with one entry a cell, row after row, and the row flags. */
  datatype Columns = Columns(
    styles: array<nat>,
    foregrounds: array<nat>,
    backgrounds: array<nat>,
    offsets: array<nat>,
    lengths: array<nat>,
    flags: array<nat>)
  {
    ghost function Arrays(): set<array<nat>> {
      {styles, foregrounds, backgrounds, offsets, lengths, flags}
    }

    ghost predicate Apart() {
      && styles != foregrounds && styles != backgrounds && styles != offsets && styles != lengths
      && foregrounds != backgrounds && foregrounds != offsets && foregrounds != lengths
      && backgrounds != offsets && backgrounds != lengths && offsets != lengths
      && flags !in {styles, foregrounds, backgrounds, offsets, lengths}
    }

    ghost predicate Sized(n: nat) {
      styles.Length == foregrounds.Length == backgrounds.Length == offsets.Length == lengths.Length == n
    }
  }

  /** The cells from `start` on hold this line. */
  ghost predicate SlabIs(a: Columns, n: nat, start: nat, cols: nat, line: V.Line)
    requires a.Sized(n) && start + cols <= n
    reads a.Arrays()
  {
    V.LineValid(line, cols)
    && forall c | 0 <= c < cols ::
         && a.styles[start + c] == line.styles[c] && a.foregrounds[start + c] == line.foregrounds[c]
         && a.backgrounds[start + c] == line.backgrounds[c]
         && a.offsets[start + c] == line.offsets[c] && a.lengths[start + c] == line.lengths[c]
  }

  /** Copy numbers to a place in a flat array. */
  method Set(dst: array<nat>, start: nat, src: seq<nat>)
    requires start + |src| <= dst.Length
    modifies dst
    ensures forall i | 0 <= i < dst.Length ::
              dst[i] == if start <= i < start + |src| then src[i - start] else old(dst[i])
  {
    forall c | 0 <= c < |src| {
      dst[start + c] := src[c];
    }
  }

  lemma {:induction false} SlabBytesGrow(u: Packed, from: nat, c: nat, cols: nat)
    requires c <= cols && V.SlabInUpdate(u, from, cols)
    ensures V.SlabInUpdate(u, from, c) && |V.SlabBytes(u, from, c)| <= |V.SlabBytes(u, from, cols)|
  {
    if c < cols {
      SlabBytesGrow(u, from, c, cols - 1);
    }
  }

  lemma OneMoreText(u: Packed, from: nat, c: nat, cols: nat)
    requires c < cols && V.SlabInUpdate(u, from, cols)
    ensures V.SlabInUpdate(u, from, c) && V.SlabInUpdate(u, from, c + 1)
    ensures var offset, length := u.graphemeOffsets[from + c], u.graphemeLengths[from + c];
            && offset + length <= |u.graphemes|
            && V.SlabBytes(u, from, c + 1) == V.SlabBytes(u, from, c) + u.graphemes[offset..offset + length]
            && |V.SlabBytes(u, from, c + 1)| <= |V.SlabBytes(u, from, cols)|
  {
    SlabBytesGrow(u, from, c + 1, cols);
  }

  /** How many text bytes a row of the update has; none of its texts lies outside the payload. */
  method CountBytes(u: Packed, from: nat, cols: nat) returns (byteLength: nat)
    requires V.SlabInUpdate(u, from, cols)
    ensures byteLength == |V.SlabBytes(u, from, cols)|
  {
    byteLength := 0;
    for column := 0 to cols
      invariant V.SlabInUpdate(u, from, column) && byteLength == |V.SlabBytes(u, from, column)|
    {
      var offset, length := u.graphemeOffsets[from + column], u.graphemeLengths[from + column];
      byteLength := byteLength + length;
      if offset + length > |u.graphemes| {
        assert false;
      }
    }
  }

  /** The first `c` texts of a row are copied. */
  ghost predicate TextsCopied(a: Columns, n: nat, u: Packed, from: nat, start: nat, cols: nat, c: nat)
    requires a.Sized(n) && start + cols <= n && c <= cols && V.SlabInUpdate(u, from, cols)
    reads a.offsets, a.lengths
  {
    forall j | 0 <= j < c ::
      && V.SlabInUpdate(u, from, j) && a.offsets[start + j] == Wrap32(|V.SlabBytes(u, from, j)|)
      && a.lengths[start + j] == u.graphemeLengths[from + j]
  }

  /** Copy the text of one cell behind those of the cells before it. */
  method CopyText(u: Packed, from: nat, ghost cols: nat, c: nat, rowBytes: array<nat>, targetOffset: nat)
    requires c < cols && V.SlabInUpdate(u, from, cols) && rowBytes.Length == |V.SlabBytes(u, from, cols)|
    requires V.SlabInUpdate(u, from, c) && targetOffset == |V.SlabBytes(u, from, c)| <= rowBytes.Length
    requires rowBytes[..targetOffset] == V.SlabBytes(u, from, c)
    modifies rowBytes
    ensures V.SlabInUpdate(u, from, c + 1)
    ensures var end := targetOffset + u.graphemeLengths[from + c];
            && end == |V.SlabBytes(u, from, c + 1)| <= rowBytes.Length
            && rowBytes[..end] == V.SlabBytes(u, from, c + 1)
  {
    OneMoreText(u, from, c, cols);
    var offset, length := u.graphemeOffsets[from + c], u.graphemeLengths[from + c];
    Set(rowBytes, targetOffset, u.graphemes[offset..offset + length]);
    assert rowBytes[..targetOffset + length] == rowBytes[..targetOffset] + u.graphemes[offset..offset + length];
  }

  /** Note where the text of one cell was copied to. */
  method NoteText(a: Columns, ghost n: nat, u: Packed, from: nat, start: nat, ghost cols: nat, c: nat,
                  targetOffset: nat)
    requires a.Sized(n) && a.Apart() && start + cols <= n && c < cols && V.SlabInUpdate(u, from, cols)
    requires V.SlabInUpdate(u, from, c) && targetOffset == |V.SlabBytes(u, from, c)|
    requires TextsCopied(a, n, u, from, start, cols, c)
    modifies a.offsets, a.lengths
    ensures TextsCopied(a, n, u, from, start, cols, c + 1)
    ensures forall i | 0 <= i < n && i != start + c ::
              a.offsets[i] == old(a.offsets[i]) && a.lengths[i] == old(a.lengths[i])
  {
    a.offsets[start + c], a.lengths[start + c] := Wrap32(targetOffset), u.graphemeLengths[from + c];
    forall j | 0 <= j < c + 1
      ensures V.SlabInUpdate(u, from, j) && a.offsets[start + j] == Wrap32(|V.SlabBytes(u, from, j)|)
      ensures a.lengths[start + j] == u.graphemeLengths[from + j]
    {
      assert j < c ==> old(TextsCopied(a, n, u, from, start, cols, c)) && V.SlabInUpdate(u, from, j);
    }
  }

  /** Copy the texts of a row side by side, with their offsets and lengths. */
  method CopyTexts(a: Columns, ghost n: nat, u: Packed, from: nat, start: nat, cols: nat) returns (rowBytes: seq<nat>)
    requires a.Sized(n) && a.Apart() && start + cols <= n && V.SlabInUpdate(u, from, cols)
    modifies a.offsets, a.lengths
    ensures rowBytes == V.SlabBytes(u, from, cols) && TextsCopied(a, n, u, from, start, cols, cols)
    ensures forall i | 0 <= i < n && !(start <= i < start + cols) ::
              a.offsets[i] == old(a.offsets[i]) && a.lengths[i] == old(a.lengths[i])
  {
    var byteLength := CountBytes(u, from, cols);
    var bytes := new nat[byteLength](_ => 0);
    var targetOffset := 0;
    for column := 0 to cols
      invariant V.SlabInUpdate(u, from, column) && targetOffset == |V.SlabBytes(u, from, column)| <= byteLength
      invariant bytes[..targetOffset] == V.SlabBytes(u, from, column)
      invariant TextsCopied(a, n, u, from, start, cols, column)
      invariant forall i | 0 <= i < n && !(start <= i < start + column) ::
                  a.offsets[i] == old(a.offsets[i]) && a.lengths[i] == old(a.lengths[i])
    {
      CopyText(u, from, cols, column, bytes, targetOffset);
      NoteText(a, n, u, from, start, cols, column, targetOffset);
      targetOffset := targetOffset + u.graphemeLengths[from + column];
    }
    rowBytes := bytes[..];
    assert bytes[..targetOffset] == bytes[..];
  }

  /** The numeric columns of a row are copied. */
  ghost predicate NumbersCopied(a: Columns, n: nat, u: Packed, from: nat, start: nat, cols: nat)
    requires a.Sized(n) && start + cols <= n && V.SlabInUpdate(u, from, cols)
    reads a.styles, a.foregrounds, a.backgrounds
  {
    && a.styles[start..start + cols] == u.styles[from..from + cols]
    && a.foregrounds[start..start + cols] == u.foregrounds[from..from + cols]
    && a.backgrounds[start..start + cols] == u.backgrounds[from..from + cols]
  }

  method CopyNumbers(a: Columns, ghost n: nat, u: Packed, from: nat, start: nat, cols: nat)
    requires a.Sized(n) && a.Apart() && start + cols <= n && V.SlabInUpdate(u, from, cols)
    modifies a.styles, a.foregrounds, a.backgrounds
    ensures NumbersCopied(a, n, u, from, start, cols)
    ensures forall i | 0 <= i < n && !(start <= i < start + cols) ::
              && a.styles[i] == old(a.styles[i]) && a.foregrounds[i] == old(a.foregrounds[i])
              && a.backgrounds[i] == old(a.backgrounds[i])
  {
    Set(a.styles, start, u.styles[from..from + cols]);
    Set(a.foregrounds, start, u.foregrounds[from..from + cols]);
    Set(a.backgrounds, start, u.backgrounds[from..from + cols]);
  }

  /** Numbers and texts together are the row's line. */
  lemma CopiedIsLine(a: Columns, n: nat, u: Packed, from: nat, start: nat, cols: nat, flags: nat)
    requires a.Sized(n) && start + cols <= n && V.SlabInUpdate(u, from, cols)
    requires NumbersCopied(a, n, u, from, start, cols) && TextsCopied(a, n, u, from, start, cols, cols)
    ensures SlabIs(a, n, start, cols, V.SlabLine(u, from, cols, flags))
  {
    var line := V.SlabLine(u, from, cols, flags);
    forall c | 0 <= c < cols
      ensures a.styles[start + c] == line.styles[c] && a.foregrounds[start + c] == line.foregrounds[c]
      ensures a.backgrounds[start + c] == line.backgrounds[c]
      ensures a.offsets[start + c] == line.offsets[c] && a.lengths[start + c] == line.lengths[c]
    {
      assert a.styles[start..start + cols][c] == line.styles[c];
      assert a.foregrounds[start..start + cols][c] == line.foregrounds[c];
      assert a.backgrounds[start..start + cols][c] == line.backgrounds[c];
      assert V.SlabInUpdate(u, from, c);
    }
  }

  /** Copy one row of an update into the flat arrays; every other entry stays. */
  method CopySlab(a: Columns, ghost n: nat, u: Packed, from: nat, start: nat, cols: nat, ghost flags: nat)
    returns (rowBytes: seq<nat>)
    requires a.Sized(n) && a.Apart() && start + cols <= n && V.SlabInUpdate(u, from, cols)
    modifies a.Arrays() - {a.flags}
    ensures var line := V.SlabLine(u, from, cols, flags);
            rowBytes == line.bytes && SlabIs(a, n, start, cols, line)
    ensures forall i | 0 <= i < n && !(start <= i < start + cols) ::
              && a.styles[i] == old(a.styles[i]) && a.foregrounds[i] == old(a.foregrounds[i])
              && a.backgrounds[i] == old(a.backgrounds[i])
              && a.offsets[i] == old(a.offsets[i]) && a.lengths[i] == old(a.lengths[i])
  {
    hide SlabIs, NumbersCopied, TextsCopied, V.SlabBytes;
    CopyNumbers(a, n, u, from, start, cols);
    rowBytes := CopyTexts(a, n, u, from, start, cols);
    CopiedIsLine(a, n, u, from, start, cols, flags);
  }

  /** Other slabs keep their lines. */
  method CopySlabApart(a: Columns, ghost n: nat, u: Packed, from: nat, start: nat, cols: nat, ghost flags: nat)
    returns (rowBytes: seq<nat>)
    requires a.Sized(n) && a.Apart() && start + cols <= n && V.SlabInUpdate(u, from, cols)
    modifies a.Arrays() - {a.flags}
    ensures var line := V.SlabLine(u, from, cols, flags);
            rowBytes == line.bytes && SlabIs(a, n, start, cols, line)
    ensures forall s: nat, line
              | (s + cols <= start || (start + cols <= s && s + cols <= n)) && old(SlabIs(a, n, s, cols, line)) ::
              SlabIs(a, n, s, cols, line)
  {
    hide V.SlabLine;
    rowBytes := CopySlab(a, n, u, from, start, cols, flags);
  }

  /** What is kept for one row besides its numbers: its text bytes, and what has been decoded from them. */
  datatype RowState = RowState(bytes: seq<nat>, decoded: Option<seq<Option<Text>>>, materialized: Option<Row>)

  /** Whatever has been decoded is what decoding the line anew gives. */
  predicate CachesOk(state: RowState, line: V.Line, cols: nat)
    requires V.LineValid(line, cols)
  {
    && (state.decoded.Some? ==>
          && |state.decoded.value| == cols
          && forall c | 0 <= c < cols && state.decoded.value[c].Some? ::
               state.decoded.value[c].value == V.TextAt(line, c))
    && (state.materialized.Some? ==> state.materialized.value == V.MaterializeRow(line, cols))
  }

  /** Row `r` of the arrays and its state are those of this line. */
  ghost predicate RowIs(a: Columns, n: nat, cols: nat, r: nat, state: RowState, line: V.Line)
    reads a.Arrays()
  {
    && a.Sized(n) && Slab(r, cols) + cols <= n && SlabIs(a, n, Slab(r, cols), cols, line)
    && r < a.flags.Length && a.flags[r] == line.flags && state.bytes == line.bytes && CachesOk(state, line, cols)
  }

  /** All rows are those of these lines. */
  ghost predicate RowsAre(a: Columns, states: seq<RowState>, cols: nat, lines: seq<V.Line>)
    reads a.Arrays()
  {
    && a.Apart() && a.Sized(Slab(|lines|, cols)) && a.flags.Length == |states| == |lines|
    && forall r | 0 <= r < |lines| :: RowIs(a, Slab(|lines|, cols), cols, r, states[r], lines[r])
  }

  lemma LinesValid(a: Columns, states: seq<RowState>, cols: nat, lines: seq<V.Line>)
    requires RowsAre(a, states, cols, lines)
    ensures forall line | line in lines :: V.LineValid(line, cols)
  {
    forall r | 0 <= r < |lines| ensures V.LineValid(lines[r], cols) {
      assert RowIs(a, Slab(|lines|, cols), cols, r, states[r], lines[r]);
    }
  }

  /** New arrays of zeros. */
  method MakeColumns(n: nat, rows: nat) returns (a: Columns)
    ensures a.Apart() && a.Sized(n) && a.flags.Length == rows && fresh(a.Arrays())
    ensures forall i | 0 <= i < n ::
              a.styles[i] == a.foregrounds[i] == a.backgrounds[i] == a.offsets[i] == a.lengths[i] == 0
    ensures forall r | 0 <= r < rows :: a.flags[r] == 0
  {
    var styles := new nat[n](_ => 0);
    var foregrounds := new nat[n](_ => 0);
    var backgrounds := new nat[n](_ => 0);
    var offsets := new nat[n](_ => 0);
    var lengths := new nat[n](_ => 0);
    var flags := new nat[rows](_ => 0);
    a := Columns(styles, foregrounds, backgrounds, offsets, lengths, flags);
  }

  /** Nothing has been decoded or made of the row. */
  predicate Uncached(state: RowState) {
    state.decoded.None? && state.materialized.None?
  }

  /** Arrays and empty caches for a grid of blank rows. */
  method Allocate(cols: nat, rows: nat) returns (a: Columns, states: seq<RowState>)
    ensures fresh(a.Arrays()) && RowsAre(a, states, cols, V.BlankLines(cols, rows))
    ensures |states| == rows && forall r | 0 <= r < rows :: Uncached(states[r])
  {
    SlabIsProduct(rows, cols);
    a := MakeColumns(cols * rows, rows);
    states := seq(rows, _ => RowState([], None, None));
    forall r | 0 <= r < rows ensures RowIs(a, Slab(rows, cols), cols, r, states[r], V.BlankLines(cols, rows)[r]) {
      SlabsAscend(r, rows, cols);
    }
  }

  /** These rows have lost their caches, and every other row has what it had. */
  predicate Forgotten(before: seq<RowState>, after: seq<RowState>, rows: set<nat>) {
    && |after| == |before|
    && forall r | 0 <= r < |before| :: if r in rows then Uncached(after[r]) else after[r] == before[r]
  }

  /** Copy included row `k` to its place and forget what was decoded there; no other row changes. */
  method TakeRow(a: Columns, states: seq<RowState>, u: Packed, k: nat, cols: nat, ghost lines: seq<V.Line>)
    returns (after: seq<RowState>)
    requires WellFormedUpdate(u) && k < |u.dirtyRows| && cols == u.cols && u.dirtyRows[k] < |lines|
    requires RowsAre(a, states, cols, lines)
    modifies a.Arrays()
    ensures RowsAre(a, after, cols, lines[u.dirtyRows[k] := V.LineOf(u, k)])
    ensures Forgotten(states, after, {u.dirtyRows[k]})
  {
    var row := u.dirtyRows[k];
    ghost var n := Slab(|lines|, cols);
    SlabIsProduct(k, cols);
    SlabIsProduct(row, cols);
    V.SlabWithin(u, k);
    SlabsAscend(row, |lines|, cols);
    assert RowIs(a, n, cols, row, states[row], lines[row]);
    hide SlabIs, V.SlabLine, WellFormedUpdate, V.SlabInUpdate;
    var rowBytes := CopySlabApart(a, n, u, k * cols, row * cols, cols, u.rowFlags[k]);
    SetFlags(a, n, row, u.rowFlags[k]);
    after := states[row := RowState(rowBytes, None, None)];
    forall r | 0 <= r < |lines| && r != row ensures RowIs(a, n, cols, r, after[r], lines[r]) {
      assert old(RowIs(a, n, cols, r, states[r], lines[r]));
      SlabsAscend(if r < row then r else row, if r < row then row else r, cols);
    }
  }

  /** Set one row's flags; no cell changes. */
  method SetFlags(a: Columns, ghost n: nat, row: nat, flags: nat)
    requires a.Apart() && a.Sized(n) && row < a.flags.Length
    modifies a.flags
    ensures forall r | 0 <= r < a.flags.Length :: a.flags[r] == if r == row then flags else old(a.flags[r])
    ensures forall s: nat, cols: nat, line | s + cols <= n && old(SlabIs(a, n, s, cols, line)) ::
              SlabIs(a, n, s, cols, line)
  {
    a.flags[row] := flags;
  }

  /** The lines after the first `k` included rows are in place. */
  ghost function Placed(base: seq<V.Line>, u: Packed, k: nat): (after: seq<V.Line>)
    requires WellFormedUpdate(u) && |base| == u.rows && k <= |u.dirtyRows|
    ensures |after| == |base|
  {
    if k == 0 then base else Placed(base, u, k - 1)[u.dirtyRows[k - 1] := V.LineOf(u, k - 1)]
  }

  lemma PlacedStep(base: seq<V.Line>, u: Packed, k: nat)
    requires WellFormedUpdate(u) && |base| == u.rows && k < |u.dirtyRows|
    ensures u.dirtyRows[k] < u.rows && Placed(base, u, k + 1) == Placed(base, u, k)[u.dirtyRows[k] := V.LineOf(u, k)]
  {
  }

  lemma ScatterStep(base: seq<V.Line>, rows: seq<nat>, incoming: seq<V.Line>, k: nat)
    requires k < |rows| == |incoming| && forall i | 0 <= i < |rows| :: rows[i] < |base|
    ensures V.Scatter(base, rows[..k + 1], incoming[..k + 1])
            == V.Scatter(base, rows[..k], incoming[..k])[rows[k] := incoming[k]]
  {
    assert rows[..k + 1][..k] == rows[..k] && incoming[..k + 1][..k] == incoming[..k];
  }

  lemma {:induction false} PlacedAreScattered(base: seq<V.Line>, u: Packed, k: nat)
    requires WellFormedUpdate(u) && |base| == u.rows && k <= |u.dirtyRows|
    ensures forall i | 0 <= i < |u.dirtyRows| :: u.dirtyRows[i] < |base|
    ensures Placed(base, u, k) == V.Scatter(base, u.dirtyRows[..k], V.NewLines(u)[..k])
  {
    hide V.LineOf;
    if k > 0 {
      PlacedAreScattered(base, u, k - 1);
      hide V.Scatter, WellFormedUpdate;
      ScatterStep(base, u.dirtyRows, V.NewLines(u), k - 1);
    }
  }

  lemma PlacedIsScatter(base: seq<V.Line>, u: Packed)
    requires WellFormedUpdate(u) && |base| == u.rows
    ensures Placed(base, u, 0) == base && Placed(base, u, |u.dirtyRows|) == V.Scatter(base, u.dirtyRows, V.NewLines(u))
  {
    var rows, incoming := u.dirtyRows, V.NewLines(u);
    PlacedAreScattered(base, u, |rows|);
    hide V.LineOf, V.Scatter;
    assert rows[..|rows|] == rows && incoming[..|rows|] == incoming;
  }

  /** The viewport an update that is taken leaves. */
  ghost function Taken(v: V.Viewport, u: Packed): V.Viewport
    requires V.Valid(v) && V.Admits(v, u)
  {
    var base := if u.full then V.BlankLines(u.cols, u.rows) else v.lines;
    V.Viewport(u.frameId, u.generation, u.cols, u.rows, u.foreground, u.background, u.cursor,
               u.cursorX, u.cursorY, u.cursorVisible, u.cursorBlinking, u.cursorStyle,
               Placed(base, u, |u.dirtyRows|))
  }

  lemma TakenIsApplied(v: V.Viewport, u: Packed)
    requires V.Valid(v) && V.Admits(v, u)
    ensures V.Apply(v, u) == (true, Taken(v, u))
  {
    PlacedIsScatter(if u.full then V.BlankLines(u.cols, u.rows) else v.lines, u);
  }

  /** The first `k` row numbers as a set. */
  function RowSet(rows: seq<nat>, k: nat): set<nat>
    requires k <= |rows|
  {
    if k == 0 then {} else RowSet(rows, k - 1) + {rows[k - 1]}
  }

  lemma {:induction false} RowSetHas(rows: seq<nat>, k: nat)
    requires k <= |rows|
    ensures forall row :: row in RowSet(rows, k) <==> row in rows[..k]
  {
    if k > 0 {
      RowSetHas(rows, k - 1);
      assert rows[..k] == rows[..k - 1] + [rows[k - 1]];
    }
  }

  /** Take included row `k`; the refusal before it cannot happen to a validated update. */
  method TakeNext(a: Columns, states: seq<RowState>, u: Packed, k: nat, ghost base: seq<V.Line>)
    returns (after: seq<RowState>)
    requires WellFormedUpdate(u) && |base| == u.rows && k < |u.dirtyRows|
    requires RowsAre(a, states, u.cols, Placed(base, u, k))
    modifies a.Arrays()
    ensures RowsAre(a, after, u.cols, Placed(base, u, k + 1))
    ensures Forgotten(states, after, {u.dirtyRows[k]})
  {
    PlacedStep(base, u, k);
    if u.dirtyRows[k] >= u.rows {
      assert false;
    }
    after := TakeRow(a, states, u, k, u.cols, Placed(base, u, k));
  }

  /** Replace the included rows, one after the other. */
  method TakeRows(a: Columns, states: seq<RowState>, u: Packed, ghost lines: seq<V.Line>)
    returns (after: seq<RowState>, dirty: set<nat>)
    requires WellFormedUpdate(u) && |lines| == u.rows && RowsAre(a, states, u.cols, lines)
    modifies a.Arrays()
    ensures RowsAre(a, after, u.cols, Placed(lines, u, |u.dirtyRows|))
    ensures dirty == RowSet(u.dirtyRows, |u.dirtyRows|) && Forgotten(states, after, dirty)
  {
    assert u.cols >= 1;
    after, dirty := states, {};
    for k := 0 to |u.dirtyRows|
      invariant RowsAre(a, after, u.cols, Placed(lines, u, k)) && dirty == RowSet(u.dirtyRows, k)
      invariant Forgotten(states, after, dirty)
    {
      after := TakeNext(a, after, u, k, lines);
      dirty := dirty + {u.dirtyRows[k]};
    }
  }

  /** The text of this column is in the row's cache. */
  predicate Has(state: RowState, column: int) {
    state.decoded.Some? && 0 <= column < |state.decoded.value| && state.decoded.value[column].Some?
  }

  /** The text of one cell, decoded from its span of the row's bytes. */
  method DecodeSpan(a: Columns, state: RowState, cols: nat, row: nat, column: nat, ghost n: nat, ghost line: V.Line)
    returns (text: Text)
    requires RowIs(a, n, cols, row, state, line) && column < cols
    ensures text == V.TextAt(line, column)
  {
    hide CachesOk, DecodeText, V.Clamped;
    SlabIsProduct(row, cols);
    var index := row * cols + column;
    var offset, length := a.offsets[index], a.lengths[index];
    assert offset == line.offsets[column] && length == line.lengths[column];
    text := if length == 0 then [] else DecodeText(V.Clamped(state.bytes, offset, offset + length));
  }

  /** The text of one cell: from the row's cache, or decoded now and kept in it. */
  method DecodeAt(a: Columns, state: RowState, cols: nat, row: nat, column: nat, ghost n: nat, ghost line: V.Line)
    returns (text: Text, after: RowState, decoded: bool)
    requires RowIs(a, n, cols, row, state, line) && column < cols
    ensures text == V.TextAt(line, column)
    ensures RowIs(a, n, cols, row, after, line) && after.materialized == state.materialized
    ensures decoded == !Has(state, column)
    ensures Has(after, column) && forall c | c != column :: Has(after, c) == Has(state, c)
  {
    assert V.LineValid(line, cols);
    hide V.TextAt, SlabIs;
    var cache := if state.decoded.Some? then state.decoded.value else seq(cols, _ => None);
    decoded := cache[column].None?;
    if cache[column].Some? {
      text := cache[column].value;
    } else {
      text := DecodeSpan(a, state, cols, row, column, n, line);
      cache := cache[column := Some(text)];
    }
    after := state.(decoded := Some(cache));
  }

  /** The numbers of one cell, unpacked beside its text. */
  method CellAt(a: Columns, cols: nat, row: nat, column: nat, text: Text, ghost n: nat, ghost state: RowState,
                ghost line: V.Line)
    returns (cell: Cell)
    requires RowIs(a, n, cols, row, state, line) && column < cols && text == V.TextAt(line, column)
    ensures cell == V.CellsOf(line, cols)[column]
  {
    SlabIsProduct(row, cols);
    var index := row * cols + column;
    assert a.styles[index] == line.styles[column];
    cell := UnpackCell(text, a.foregrounds[index], a.backgrounds[index], a.styles[index]);
  }

  class GhosttyViewportModel {
    /** Numbers, sizes, colors and cursor of the frame shown; `lines` is empty. */
    var frame: V.Viewport
    var cells: Columns
    var states: seq<RowState>
    var dirtyRows: set<nat>
    var decodedGraphemes: nat

    /** The lines the arrays hold, row by row. */
    ghost var lines: seq<V.Line>

    /** The viewport as a value. */
    ghost function Contents(): V.Viewport
      reads this
    {
      frame.(lines := lines)
    }

    ghost predicate Valid()
      reads `frame, `cells, `states, `lines, cells.Arrays()
    {
      |lines| == frame.rows && RowsAre(cells, states, frame.cols, lines)
    }

    constructor ()
      ensures Valid() && Contents() == V.EMPTY && fresh(cells.Arrays())
    {
      frame := V.EMPTY;
      var a, none := Allocate(0, 0);
      cells, states, lines := a, none, [];
      dirtyRows, decodedGraphemes := {}, 0;
    }

    lemma ContentsValid()
      requires Valid()
      ensures V.Valid(Contents())
    {
      LinesValid(cells, states, frame.cols, lines);
    }

    /** Whether an update is taken, by number, size and completeness. */
    method Admit(u: Packed) returns (ok: bool)
      requires Valid()
      ensures ok == V.Admits(Contents(), u)
    {
      var valid := ValidateRenderUpdate(u);
      if !valid || u.generation < frame.generation {
        return false;
      }
      if u.generation == frame.generation && u.frameId <= frame.frameId {
        return false;
      }
      if u.generation > frame.generation && !u.full {
        return false;
      }
      var dimensionsChanged := u.cols != frame.cols || u.rows != frame.rows;
      ok := !((u.full || dimensionsChanged) && !u.full);
    }

    /** Make a frame with its rows the one shown. */
    method Show(frame: V.Viewport, cells: Columns, states: seq<RowState>, dirty: set<nat>, ghost lines: seq<V.Line>)
      requires |lines| == frame.rows && RowsAre(cells, states, frame.cols, lines)
      modifies this
      ensures Valid() && Contents() == frame.(lines := lines) && dirtyRows == dirty && this.cells == cells
      ensures this.states == states && decodedGraphemes == old(decodedGraphemes)
    {
      this.frame, this.cells, this.states, this.lines, dirtyRows := frame, cells, states, lines, dirty;
    }

    /** Copy an update that is taken. */
    method Take(u: Packed)
      requires Valid() && V.Valid(Contents()) && V.Admits(Contents(), u)
      modifies this, cells.Arrays()
      ensures Valid() && Contents() == Taken(old(Contents()), u)
      ensures dirtyRows == set row | row in u.dirtyRows
      ensures !u.full ==> Forgotten(old(states), states, dirtyRows)
      ensures u.full ==> forall r | 0 <= r < |states| :: Uncached(states[r])
      ensures decodedGraphemes == old(decodedGraphemes)
      ensures cells == old(cells) || fresh(cells.Arrays())
    {
      var a, held := cells, states;
      ghost var base := lines;
      if u.full || u.cols != frame.cols || u.rows != frame.rows {
        a, held := Allocate(u.cols, u.rows);
        base := V.BlankLines(u.cols, u.rows);
      }
      var after, dirty := TakeRows(a, held, u, base);
      RowSetHas(u.dirtyRows, |u.dirtyRows|);
      var next := V.Viewport(u.frameId, u.generation, u.cols, u.rows, u.foreground, u.background, u.cursor,
                             u.cursorX, u.cursorY, u.cursorVisible, u.cursorBlinking, u.cursorStyle, []);
      Show(next, a, after, dirty, Placed(base, u, |u.dirtyRows|));
    }

    /** Apply an update in place, or refuse it and change nothing. */
    method Apply(u: Packed) returns (ok: bool)
      requires Valid()
      modifies this, cells.Arrays()
      ensures V.Valid(old(Contents())) && Valid()
      ensures (ok, Contents()) == V.Apply(old(Contents()), u)
      ensures ok ==> dirtyRows == set row | row in u.dirtyRows
      ensures ok && !u.full ==> Forgotten(old(states), states, dirtyRows)
      ensures ok && u.full ==> forall r | 0 <= r < |states| :: Uncached(states[r])
      ensures decodedGraphemes == old(decodedGraphemes)
      ensures !ok ==> unchanged(this) && unchanged(old(cells.Arrays()))
      ensures cells == old(cells) || fresh(cells.Arrays())
    {
      ContentsValid();
      V.ApplyIsSound(Contents(), u);
      ok := Admit(u);
      if ok {
        TakenIsApplied(Contents(), u);
        Take(u);
      }
    }

    /** Keep what was decoded of a row, and count a text decoded now. */
    method Keep(row: nat, state: RowState, decoded: nat)
      requires Valid() && row < frame.rows
      requires RowIs(cells, Slab(frame.rows, frame.cols), frame.cols, row, state, lines[row])
      modifies `states, `decodedGraphemes
      ensures Valid() && states == old(states)[row := state] && decodedGraphemes == old(decodedGraphemes) + decoded
    {
      states, decodedGraphemes := states[row := state], decodedGraphemes + decoded;
    }

    lemma RowAt(row: nat)
      requires Valid() && row < frame.rows
      ensures |states| == |lines| == frame.rows && V.LineValid(lines[row], frame.cols)
      ensures RowIs(cells, Slab(frame.rows, frame.cols), frame.cols, row, states[row], lines[row])
    {
    }

    /** The text is in the cache now, and was decoded only if it was not there before; other rows and columns stay. */
    twostate predicate DecodedOnce(row: nat, column: nat)
      reads this
    {
      && |states| == |old(states)| && row < |states| && Has(states[row], column)
      && decodedGraphemes == old(decodedGraphemes) + (if Has(old(states)[row], column) then 0 else 1)
      && (forall r | 0 <= r < |states| && r != row :: states[r] == old(states)[r])
      && (forall c | c != column :: Has(states[row], c) == Has(old(states)[row], c))
    }

    method TextInside(row: nat, column: nat) returns (text: Text)
      requires Valid() && row < frame.rows && column < frame.cols
      modifies `states, `decodedGraphemes
      ensures Valid() && V.LineValid(lines[row], frame.cols) && text == V.TextAt(lines[row], column)
      ensures DecodedOnce(row, column)
    {
      RowAt(row);
      hide RowsAre, RowIs, V.TextAt;
      var state, decoded;
      text, state, decoded := DecodeAt(
        cells, states[row], frame.cols, row, column, Slab(frame.rows, frame.cols), lines[row]);
      Keep(row, state, if decoded then 1 else 0);
    }

    /** One cell's text, decoded at most once for each time its row is replaced; outside the grid there is none. */
    method TextAt(row: int, column: int) returns (text: Text)
      requires Valid()
      modifies `states, `decodedGraphemes
      ensures Valid()
      ensures 0 <= row < frame.rows && 0 <= column < frame.cols ==>
                V.LineValid(lines[row], frame.cols) && text == V.TextAt(lines[row], column) && DecodedOnce(row, column)
      ensures !(0 <= row < frame.rows && 0 <= column < frame.cols) ==> text == [] && unchanged(this)
    {
      if row < 0 || row >= frame.rows || column < 0 || column >= frame.cols {
        return [];
      }
      text := TextInside(row, column);
    }

    /** A row's text, right-trimmed. */
    method RowText(row: nat) returns (text: Text)
      requires Valid() && row < frame.rows
      modifies `states, `decodedGraphemes
      ensures Valid() && V.LineValid(lines[row], frame.cols)
      ensures text == RenderModel.RowText(V.CellsOf(lines[row], frame.cols))
    {
      RowAt(row);
      ghost var shown := V.CellsOf(lines[row], frame.cols);
      var value: Text := [];
      for column := 0 to frame.cols
        invariant Valid() && value == JoinedText(shown[..column])
      {
        var cell := TextAt(row, column);
        JoinedTextStep(shown, column);
        value := value + if cell == [] then [0x20] else cell;
      }
      assert shown[..frame.cols] == shown;
      text := TrimEnd(value);
    }

    method CellAtColumn(row: nat, column: nat) returns (cell: Cell)
      requires Valid() && row < frame.rows && column < frame.cols
      modifies `states, `decodedGraphemes
      ensures Valid() && V.LineValid(lines[row], frame.cols) && cell == V.CellsOf(lines[row], frame.cols)[column]
    {
      var text := TextAt(row, column);
      RowAt(row);
      cell := CellAt(cells, frame.cols, row, column, text, Slab(frame.rows, frame.cols), states[row], lines[row]);
    }

    /** The cells of a row, unpacked. */
    method Cells(row: nat) returns (unpacked: seq<Cell>)
      requires Valid() && row < frame.rows
      modifies `states, `decodedGraphemes
      ensures Valid() && V.LineValid(lines[row], frame.cols)
      ensures unpacked == V.CellsOf(lines[row], frame.cols)
    {
      RowAt(row);
      ghost var shown := V.CellsOf(lines[row], frame.cols);
      unpacked := [];
      for column := 0 to frame.cols
        invariant Valid() && unpacked == shown[..column]
      {
        var cell := CellAtColumn(row, column);
        unpacked := unpacked + [cell];
      }
    }

    /** A row for an inspector, made at most once for each time the row is replaced. */
    method MaterializeRow(row: nat) returns (value: Row)
      requires Valid() && row < frame.rows
      modifies `states, `decodedGraphemes
      ensures Valid() && V.LineValid(lines[row], frame.cols)
      ensures value == V.MaterializeRow(lines[row], frame.cols)
      ensures row < |states| == |old(states)| && states[row].materialized == Some(value)
      ensures old(states)[row].materialized.Some? ==> unchanged(this)
    {
      RowAt(row);
      if states[row].materialized.Some? {
        return states[row].materialized.value;
      }
      var unpacked := Cells(row);
      var text := RowText(row);
      RowAt(row);
      var flags := cells.flags[row];
      value := Row(unpacked, text, flags % 2 == 1, flags / 2 % 2 == 1);
      Keep(row, states[row].(materialized := Some(value)), 0);
    }

    /** All rows for an inspector: whatever has been cached, they are those the lines hold now. */
    method Snapshot() returns (rowData: seq<Row>)
      requires Valid()
      modifies `states, `decodedGraphemes
      ensures Valid() && |rowData| == frame.rows
      ensures forall r | 0 <= r < frame.rows ::
                V.LineValid(lines[r], frame.cols) && rowData[r] == V.MaterializeRow(lines[r], frame.cols)
    {
      hide RowsAre, V.MaterializeRow, V.LineValid;
      rowData := [];
      for row := 0 to frame.rows
        invariant Valid() && |rowData| == row
        invariant forall r | 0 <= r < row ::
                    V.LineValid(lines[r], frame.cols) && rowData[r] == V.MaterializeRow(lines[r], frame.cols)
      {
        var value := MaterializeRow(row);
        rowData := rowData + [value];
      }
    }
  }
}
