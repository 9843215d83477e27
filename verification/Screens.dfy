/** One 80x25 text screen, and the unbounded tape of rows that it shows the end of. */
module Screens {
  import opened Machine

  const COLS := 80
  const ROWS := 25
  const ROW_BYTES := 160
  const SCREEN_BYTES := 4000

  /** Character/attribute pairs in row order, and the position of the next character. */
  datatype Screen = Screen(cells: seq<Byte>, row: nat, col: nat)

  predicate Valid(s: Screen) {
    |s.cells| == SCREEN_BYTES && s.row < ROWS && s.col <= COLS
  }

  function BlankCells(n: nat, color: Byte): (s: seq<Byte>)
    ensures |s| == 2 * n
    ensures forall i :: 0 <= i < 2 * n ==> s[i] == if i % 2 == 0 then SPACE else color
  {
    seq(2 * n, i requires 0 <= i < 2 * n => if i % 2 == 0 then SPACE else color)
  }

  function BlankScreen(color: Byte): Screen {
    Screen(BlankCells(ROWS * COLS, color), 0, 0)
  }

  function Poke(cells: seq<Byte>, row: nat, col: nat, ch: Byte, color: Byte): (r: seq<Byte>)
    requires ROW_BYTES * row + 2 * col + 1 < |cells|
    ensures |r| == |cells|
  {
    cells[ROW_BYTES * row + 2 * col := ch][ROW_BYTES * row + 2 * col + 1 := color]
  }

  /** One row has left at the top and a blank one has come in at the bottom, if the cursor ran off the screen. */
  function Scrolled(s: Screen, color: Byte): (r: Screen)
    requires |s.cells| == SCREEN_BYTES && s.row <= ROWS && s.col <= COLS
    ensures Valid(r)
  {
    if s.row == ROWS then Screen(s.cells[ROW_BYTES..] + BlankCells(COLS, color), ROWS - 1, s.col) else s
  }

  /** The cursor in column 80 has moved to the start of the next row. */
  function Wrapped(s: Screen, color: Byte): (r: Screen)
    requires Valid(s)
    ensures Valid(r) && r.col < COLS
  {
    Scrolled(s.(row := s.row + s.col / COLS, col := s.col % COLS), color)
  }

  function Written(s: Screen, ch: Byte, color: Byte): (r: Screen)
    requires Valid(s) && s.col < COLS
    ensures Valid(r)
  {
    Screen(Poke(s.cells, s.row, s.col, ch, color), s.row, s.col + 1)
  }

  /** Output of one character, with the wrap at column 80 left until the next character needs it. */
  function Put(s: Screen, ch: Byte, color: Byte): (r: Screen)
    requires Valid(s)
    ensures Valid(r)
  {
    if ch == NEWLINE || ch == RETURN then Scrolled(s.(row := s.row + 1, col := 0), color)
    else if ch == BACKSPACE then
      if s.col == 0 then s
      else Screen(Poke(s.cells, s.row, s.col - 1, SPACE, color), s.row, s.col - 1)
    else
      Written(Wrapped(s, color), ch, color)
  }

  function PutAll(s: Screen, text: seq<Byte>, color: Byte): (r: Screen)
    requires Valid(s)
    ensures Valid(r)
  {
    if text == [] then s else Put(PutAll(s, text[..|text| - 1], color), text[|text| - 1], color)
  }

  // ----- What a character does, cell by cell

  /** The number of the cell under the cursor, counted from the top left corner; 2000 is just below the page. */
  function Position(s: Screen): nat {
    80 * s.row + s.col
  }

  /** The cells are the old ones, all a row higher, with a blank row behind. */
  ghost predicate MovedUp(cells: seq<Byte>, cells': seq<Byte>, color: Byte) {
    && |cells| == |cells'| == 4000
    && (forall i :: 0 <= i < 3840 ==> cells'[i] == cells[i + 160])
    && forall j :: 1920 <= j < 2000 ==> CellAt(cells', j) == (SPACE, color)
  }

  /** Only cell `j` has changed; it now shows `ch`. */
  ghost predicate Drawn(cells: seq<Byte>, cells': seq<Byte>, j: nat, ch: Byte, color: Byte) {
    2 * j + 1 < |cells| && cells' == cells[2 * j := ch][2 * j + 1 := color]
  }

  /** The cursor is at the start of the next row; from the last row the page moves up. */
  ghost predicate NewlineShown(s: Screen, s': Screen, color: Byte) {
    && s'.col == 0
    && (s.row < 24 ==> s'.row == s.row + 1 && s'.cells == s.cells)
    && (s.row == 24 ==> s'.row == 24 && MovedUp(s.cells, s'.cells, color))
  }

  /** The character is under the old cursor; behind the last cell the page moves up first. */
  ghost predicate CharShown(s: Screen, s': Screen, ch: Byte, color: Byte) {
    if Position(s) < 2000 then Drawn(s.cells, s'.cells, Position(s), ch, color) && Position(s') == Position(s) + 1 && s'.col > 0
    else
      && s'.row == 24 && s'.col == 1
      && exists moved: seq<Byte> :: MovedUp(s.cells, moved, color) && Drawn(moved, s'.cells, 1920, ch, color)
  }

  /** The cell before the cursor is blank and the cursor on it; nothing happens at the start of a row. */
  ghost predicate RuboutShown(s: Screen, s': Screen, color: Byte) {
    if s.col == 0 then s' == s
    else Drawn(s.cells, s'.cells, Position(s) - 1, SPACE, color) && s'.row == s.row && s'.col == s.col - 1
  }

  lemma ScrolledUp(s: Screen, color: Byte)
    requires |s.cells| == SCREEN_BYTES && s.row == ROWS && s.col <= COLS
    ensures MovedUp(s.cells, Scrolled(s, color).cells, color)
  {
    var r := Scrolled(s, color);
    forall j | 1920 <= j < 2000 ensures CellAt(r.cells, j) == (SPACE, color) {
      BlankAt(COLS, color, j - 1920);
    }
  }

  lemma NewlineIsShown(s: Screen, ch: Byte, color: Byte)
    requires Valid(s) && (ch == NEWLINE || ch == RETURN)
    ensures NewlineShown(s, Put(s, ch, color), color)
  {
    if s.row == 24 {
      ScrolledUp(s.(row := 25, col := 0), color);
    }
  }

  lemma CharIsShown(s: Screen, ch: Byte, color: Byte)
    requires Valid(s) && Printable(ch)
    ensures CharShown(s, Put(s, ch, color), ch, color)
  {
    if Position(s) == 2000 {
      ScrolledUp(s.(row := 25, col := 0), color);
      assert MovedUp(s.cells, Wrapped(s, color).cells, color);
    }
  }

  lemma RuboutIsShown(s: Screen, color: Byte)
    requires Valid(s)
    ensures RuboutShown(s, Put(s, BACKSPACE, color), color)
  {
  }

  // ----- The tape: rows are never moved or dropped, only added

  datatype Tape = Tape(cells: seq<Byte>, rows: nat, row: nat, col: nat)

  /** At least one screenful of rows, with the cursor among the last 25. */
  predicate ValidTape(t: Tape) {
    && |t.cells| == ROW_BYTES * t.rows
    && ROWS <= t.rows && t.rows - ROWS <= t.row < t.rows
    && t.col <= COLS
  }

  function Window(t: Tape): (s: Screen)
    requires ValidTape(t)
    ensures Valid(s)
  {
    Screen(t.cells[ROW_BYTES * (t.rows - ROWS)..], t.row - (t.rows - ROWS), t.col)
  }

  function Extended(t: Tape, color: Byte): Tape {
    if t.row == t.rows then t.(cells := t.cells + BlankCells(COLS, color), rows := t.rows + 1) else t
  }

  function TapeWrapped(t: Tape, color: Byte): (r: Tape)
    requires ValidTape(t)
    ensures ValidTape(r) && r.col < COLS
  {
    Extended(t.(row := t.row + t.col / COLS, col := t.col % COLS), color)
  }

  function TapeWritten(t: Tape, ch: Byte, color: Byte): (r: Tape)
    requires ValidTape(t) && t.col < COLS
    ensures ValidTape(r)
  {
    t.(cells := Poke(t.cells, t.row, t.col, ch, color), col := t.col + 1)
  }

  function TapePut(t: Tape, ch: Byte, color: Byte): (r: Tape)
    requires ValidTape(t)
    ensures ValidTape(r)
  {
    if ch == NEWLINE || ch == RETURN then Extended(t.(row := t.row + 1, col := 0), color)
    else if ch == BACKSPACE then
      if t.col == 0 then t
      else t.(cells := Poke(t.cells, t.row, t.col - 1, SPACE, color), col := t.col - 1)
    else
      TapeWritten(TapeWrapped(t, color), ch, color)
  }

  function TapePutAll(t: Tape, text: seq<Byte>, color: Byte): (r: Tape)
    requires ValidTape(t)
    ensures ValidTape(r)
  {
    if text == [] then t else TapePut(TapePutAll(t, text[..|text| - 1], color), text[|text| - 1], color)
  }

  function BlankTape(color: Byte): (t: Tape)
    ensures ValidTape(t) && Window(t) == BlankScreen(color)
  {
    Tape(BlankCells(ROWS * COLS, color), ROWS, 0, 0)
  }

  lemma WindowPoke(t: Tape, col: nat, ch: Byte, color: Byte)
    requires ValidTape(t) && col < COLS
    ensures var p := Poke(t.cells, t.row, col, ch, color);
            var w := Window(t);
            p[ROW_BYTES * (t.rows - ROWS)..] == Poke(w.cells, w.row, col, ch, color)
  {
  }

  lemma WindowExtended(t: Tape, row: nat, col: nat, color: Byte)
    requires ValidTape(t) && t.row <= row <= t.row + 1 && col <= COLS
    ensures var e := Extended(t.(row := row, col := col), color);
            ValidTape(e) && Window(e) == Scrolled(Window(t).(row := Window(t).row + (row - t.row), col := col), color)
  {
  }

  lemma WriteShowsTape(t: Tape, col: nat, ch: Byte, color: Byte, col': nat)
    requires ValidTape(t) && col < COLS && col' <= COLS
    ensures var t' := t.(cells := Poke(t.cells, t.row, col, ch, color), col := col');
            ValidTape(t')
            && Window(t') == Screen(Poke(Window(t).cells, Window(t).row, col, ch, color), Window(t).row, col')
  {
    WindowPoke(t, col, ch, color);
  }

  /** Scrolling in place shows what an ever-growing tape would show in its last 25 rows. */
  lemma PutShowsTape(t: Tape, ch: Byte, color: Byte)
    requires ValidTape(t)
    ensures Window(TapePut(t, ch, color)) == Put(Window(t), ch, color)
  {
    if ch == NEWLINE || ch == RETURN {
      WindowExtended(t, t.row + 1, 0, color);
    } else if ch == BACKSPACE {
      if t.col != 0 {
        WriteShowsTape(t, t.col - 1, SPACE, color, t.col - 1);
      }
    } else {
      CharShowsTape(t, ch, color);
    }
  }

  lemma WrapShowsTape(t: Tape, color: Byte)
    requires ValidTape(t)
    ensures Window(TapeWrapped(t, color)) == Wrapped(Window(t), color)
  {
    WindowExtended(t, t.row + t.col / COLS, t.col % COLS, color);
  }

  lemma CharShowsTape(t: Tape, ch: Byte, color: Byte)
    requires ValidTape(t)
    ensures Window(TapeWritten(TapeWrapped(t, color), ch, color)) == Written(Wrapped(Window(t), color), ch, color)
  {
    var e := TapeWrapped(t, color);
    WrapShowsTape(t, color);
    WriteShowsTape(e, e.col, ch, color, e.col + 1);
  }

  lemma {:induction false} PutAllShowsTape(t: Tape, text: seq<Byte>, color: Byte)
    requires ValidTape(t)
    ensures Window(TapePutAll(t, text, color)) == PutAll(Window(t), text, color)
  {
    if text != [] {
      PutAllShowsTape(t, text[..|text| - 1], color);
      PutShowsTape(TapePutAll(t, text[..|text| - 1], color), text[|text| - 1], color);
    }
  }

  // ----- Where plain text lands

  predicate Printable(ch: Byte) {
    ch != NEWLINE && ch != RETURN && ch != BACKSPACE
  }

  /** The character and the attribute of a cell. */
  function CellAt(cells: seq<Byte>, j: nat): (Byte, Byte)
    requires 2 * j + 1 < |cells|
  {
    (cells[2 * j], cells[2 * j + 1])
  }

  /** `text` fills the tape's cells from the start, the rest is blank, and the cursor is just behind it. */
  ghost predicate Shows(t: Tape, text: seq<Byte>, color: Byte) {
    && |t.cells| == ROW_BYTES * t.rows && |text| <= COLS * t.rows
    && COLS * t.row + t.col == |text|
    && forall j :: 0 <= j < COLS * t.rows ==> CellAt(t.cells, j) == (if j < |text| then text[j] else SPACE, color)
  }

  /** Plain text on a blank tape is laid out 80 to a row; the page shows the last 25 rows of that layout. */
  lemma TextLayout(blank: Tape, text: seq<Byte>, color: Byte)
    requires ValidTape(blank) && Shows(blank, [], color) && forall i :: 0 <= i < |text| ==> Printable(text[i])
    ensures Shows(TapePutAll(blank, text, color), text, color)
    ensures Window(TapePutAll(blank, text, color)) == PutAll(Window(blank), text, color)
  {
    PutAllShowsTape(blank, text, color);
    TextOnTape(blank, text, color);
  }

  lemma BlankAt(n: nat, color: Byte, j: nat)
    requires j < n
    ensures CellAt(BlankCells(n, color), j) == (SPACE, color)
  {
  }

  /** A blank screen is the window on such a tape. */
  lemma BlankShows(color: Byte)
    ensures Shows(BlankTape(color), [], color) && Window(BlankTape(color)) == BlankScreen(color)
  {
    var t := BlankTape(color);
    forall j | 0 <= j < COLS * t.rows ensures CellAt(t.cells, j) == (SPACE, color) {
      BlankAt(ROWS * COLS, color, j);
    }
  }

  lemma {:induction false} TextOnTape(blank: Tape, text: seq<Byte>, color: Byte)
    requires ValidTape(blank) && Shows(blank, [], color) && forall i :: 0 <= i < |text| ==> Printable(text[i])
    ensures Shows(TapePutAll(blank, text, color), text, color)
  {
    if text != [] {
      var rest, ch := text[..|text| - 1], text[|text| - 1];
      TextOnTape(blank, rest, color);
      NextLands(TapePutAll(blank, rest, color), rest, text, ch, color);
    }
  }

  lemma NextLands(t: Tape, text: seq<Byte>, text': seq<Byte>, ch: Byte, color: Byte)
    requires ValidTape(t) && Shows(t, text, color) && Printable(ch) && text' == text + [ch]
    ensures Shows(TapePut(t, ch, color), text', color)
  {
    var w := TapeWrapped(t, color);
    ExtendedShows(t, w, text, color);
    PokeShows(w, text, text', ch, color);
  }

  /** A tape longer by a blank row, or not, shows the same text. */
  lemma ExtendedShows(t: Tape, w: Tape, text: seq<Byte>, color: Byte)
    requires ValidTape(t) && Shows(t, text, color) && COLS * w.row + w.col == |text|
    requires || (w.cells == t.cells && w.rows == t.rows)
             || (w.cells == t.cells + BlankCells(COLS, color) && w.rows == t.rows + 1)
    ensures Shows(w, text, color)
  {
    forall j | 0 <= j < COLS * w.rows ensures CellAt(w.cells, j) == (if j < |text| then text[j] else SPACE, color) {
      if j < COLS * t.rows {
        assert CellAt(w.cells, j) == CellAt(t.cells, j);
      } else {
        BlankAt(COLS, color, j - COLS * t.rows);
        assert CellAt(w.cells, j) == CellAt(BlankCells(COLS, color), j - COLS * t.rows);
      }
    }
  }

  /** A character written at the cursor is the next of the text. */
  lemma PokeShows(w: Tape, text: seq<Byte>, text': seq<Byte>, ch: Byte, color: Byte)
    requires Shows(w, text, color) && text' == text + [ch] && w.row < w.rows && w.col < COLS
    ensures Shows(w.(cells := Poke(w.cells, w.row, w.col, ch, color), col := w.col + 1), text', color)
  {
    var p := Poke(w.cells, w.row, w.col, ch, color);
    assert p == w.cells[2 * |text| := ch][2 * |text| + 1 := color];
    forall j | 0 <= j < COLS * w.rows ensures CellAt(p, j) == (if j < |text'| then text'[j] else SPACE, color) {
      assert j != |text| ==> CellAt(p, j) == CellAt(w.cells, j);
    }
  }
}
