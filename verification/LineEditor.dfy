/** The keyboard line editor of student-distrib/keyboard.c over one terminal's screen and key buffer. */
module LineEditor {
  import opened Machine
  import opened Strings
  import opened Screens

  const KEY_BUF_SIZE := 129

  datatype Console = Console(screen: Screen, buf: seq<Byte>, idx: nat, newLine: bool)

  datatype Key = Char(ch: Byte) | Backspace | Enter | CtrlL

  predicate ValidConsole(c: Console) {
    && Screens.Valid(c.screen)
    && |c.buf| == KEY_BUF_SIZE
    && c.buf[KEY_BUF_SIZE - 1] == NUL
    && c.idx < KEY_BUF_SIZE
  }

  /** A key map is never asked for backspace or enter, which have cases of their own; 0 stands for no character. */
  predicate ValidKey(k: Key) {
    k.Char? ==> Printable(k.ch)
  }

  /** Moving back from column 0 needs a previous row on the screen. */
  predicate CanErase(c: Console) {
    c.idx > 0 ==> Position(c.screen) > 0
  }

  function ClearBuffer(buf: seq<Byte>): (r: seq<Byte>)
    ensures |r| == |buf|
  {
    Repeat(NUL, |Prefix(buf)|) + buf[|Prefix(buf)|..]
  }

  /** Exactly the bytes before the first NUL are cleared. */
  lemma ClearedByte(buf: seq<Byte>, i: nat)
    requires i < |buf|
    ensures ClearBuffer(buf)[i] == if exists k :: 0 <= k <= i && buf[k] == NUL then buf[i] else NUL
  {
    var n := |Prefix(buf)|;
    assert forall k :: 0 <= k < n ==> buf[k] == Prefix(buf)[k];
    assert n < |buf| ==> buf[n] == NUL;
  }

  function Output(c: Console, ch: Byte, color: Byte): (r: Console)
    requires ValidConsole(c)
    ensures ValidConsole(r)
  {
    c.(screen := Put(c.screen, ch, color))
  }

  /** The last character leaves the buffer, and a cursor in column 0 moves to the end of the row above. */
  function SteppedBack(c: Console): (r: Console)
    requires ValidConsole(c) && c.idx > 0 && CanErase(c)
    ensures ValidConsole(r)
  {
    var s := if c.screen.col == 0 then c.screen.(row := c.screen.row - 1, col := COLS) else c.screen;
    c.(screen := s, buf := c.buf[c.idx - 1 := NUL], idx := c.idx - 1)
  }

  /** What one key press does to the visible terminal. */
  function Press(c: Console, k: Key, color: Byte): (r: Console)
    requires ValidConsole(c) && ValidKey(k) && (k.Backspace? ==> CanErase(c))
    ensures ValidConsole(r)
  {
    match k
    case Backspace =>
      if c.idx == 0 then c else Output(SteppedBack(c), BACKSPACE, color)
    case Enter =>
      var last := if c.idx < KEY_BUF_SIZE - 1 then c.idx else KEY_BUF_SIZE - 2;
      Console(Put(c.screen, NEWLINE, color), c.buf[last := NEWLINE][last + 1 := NUL], 0, true)
    case CtrlL =>
      Console(BlankScreen(color), ClearBuffer(c.buf), 0, c.newLine)
    case Char(ch) =>
      if c.idx == KEY_BUF_SIZE - 1 || ch == NUL then c
      else Console(Put(c.screen, ch, color), c.buf[c.idx := ch], c.idx + 1, c.newLine)
  }

  // ----- What a key shows

  /** Enter moves the cursor to the next row, and a character is drawn if it is taken into the buffer. */
  lemma KeyIsShown(c: Console, k: Key, color: Byte)
    requires ValidConsole(c) && ValidKey(k) && (k.Backspace? ==> CanErase(c))
    ensures var s, r := c.screen, Press(c, k, color);
            && (k.Enter? ==> NewlineShown(s, r.screen, color))
            && (k.Char? ==> if c.idx == 128 || k.ch == NUL then r == c
                            else CharShown(s, r.screen, k.ch, color) && r.idx == c.idx + 1 && r.buf == c.buf[c.idx := k.ch])
            && (k.CtrlL? ==> ScreenIsBlank(r.screen, color))
  {
    match k
    case Enter => NewlineIsShown(c.screen, NEWLINE, color);
    case Char(ch) =>
      if c.idx < 128 && ch != NUL {
        CharIsShown(c.screen, ch, color);
      }
    case CtrlL => CtrlLBlanks(color);
    case Backspace =>
  }

  ghost predicate ScreenIsBlank(s: Screen, color: Byte) {
    |s.cells| == 4000 && s.row == s.col == 0 && forall j :: 0 <= j < 2000 ==> CellAt(s.cells, j) == (SPACE, color)
  }

  lemma CtrlLBlanks(color: Byte)
    ensures ScreenIsBlank(BlankScreen(color), color)
  {
    forall j | 0 <= j < 2000 ensures CellAt(BlankScreen(color).cells, j) == (SPACE, color) {
      BlankAt(ROWS * COLS, color, j);
    }
  }

  // ----- The cursor never runs back past the text being typed

  /** At least as many cells lie before the cursor as characters are in the line being typed. */
  predicate RoomBehind(c: Console) {
    ValidConsole(c) && c.idx <= Position(c.screen)
  }

  lemma PressKeepsRoom(c: Console, k: Key, color: Byte)
    requires RoomBehind(c) && ValidKey(k)
    ensures CanErase(c) && RoomBehind(Press(c, k, color))
  {
  }

  /** Program output keeps it, except a backspace that rubs out the last cell the line still counts on. */
  lemma OutputKeepsRoom(c: Console, ch: Byte, color: Byte)
    requires RoomBehind(c)
    ensures RoomBehind(Output(c, ch, color)) <==> !(ch == BACKSPACE && c.screen.col > 0 && c.idx == Position(c.screen))
  {
  }

  /** The backspace key blanks the cell just before the cursor, also across a row end, and nothing else. */
  lemma BackspaceErasesLast(c: Console, color: Byte)
    requires RoomBehind(c) && c.idx > 0
    ensures var s, s' := c.screen, Press(c, Backspace, color).screen;
            && Position(s') == Position(s) - 1
            && s'.cells == s.cells[2 * (Position(s) - 1) := SPACE][2 * (Position(s) - 1) + 1 := color]
  {
  }

  /** The keys can be pressed one after the other without the cursor row ever underflowing. */
  predicate CanPress(c: Console, keys: seq<Key>, color: Byte)
    requires ValidConsole(c) && forall i :: 0 <= i < |keys| ==> ValidKey(keys[i])
    decreases keys
  {
    keys == [] || ((keys[0].Backspace? ==> CanErase(c)) && CanPress(Press(c, keys[0], color), keys[1..], color))
  }

  lemma {:induction false} RoomIsSafe(c: Console, keys: seq<Key>, color: Byte)
    requires RoomBehind(c) && forall i :: 0 <= i < |keys| ==> ValidKey(keys[i])
    ensures CanPress(c, keys, color)
    decreases keys
  {
    if keys != [] {
      PressKeepsRoom(c, keys[0], color);
      RoomIsSafe(Press(c, keys[0], color), keys[1..], color);
    }
  }

  /** Without room behind the cursor, the backspace key brings both counts down until only characters are left. */
  lemma BackspaceWithoutRoom(c: Console, color: Byte)
    requires ValidConsole(c) && !RoomBehind(c) && CanErase(c)
    ensures var c' := Press(c, Backspace, color);
            !RoomBehind(c') && Position(c'.screen) == Position(c.screen) - 1
  {
  }

  lemma {:induction false} BackspacesUnderflow(c: Console, keys: seq<Key>, color: Byte)
    requires ValidConsole(c) && !RoomBehind(c) && keys == Repeat(Backspace, Position(c.screen) + 1)
    ensures !CanPress(c, keys, color)
    decreases keys
  {
    if CanErase(c) {
      BackspaceWithoutRoom(c, color);
      BackspacesUnderflow(Press(c, Backspace, color), keys[1..], color);
    }
  }

  /** No keys ever underflow the cursor row if and only if there is room behind the cursor. */
  lemma KeysAreSafeExactly(c: Console, color: Byte)
    requires ValidConsole(c)
    ensures RoomBehind(c)
       <==> forall keys: seq<Key> :: (forall i :: 0 <= i < |keys| ==> ValidKey(keys[i])) ==> CanPress(c, keys, color)
  {
    if RoomBehind(c) {
      forall keys: seq<Key> | forall i :: 0 <= i < |keys| ==> ValidKey(keys[i]) ensures CanPress(c, keys, color) {
        RoomIsSafe(c, keys, color);
      }
    } else {
      BackspacesUnderflow(c, Repeat(Backspace, Position(c.screen) + 1), color);
    }
  }

  // ----- The screen echoes the buffer

  /** The characters just before the cursor are the line being typed. */
  ghost predicate Echoes(c: Console) {
    && RoomBehind(c)
    && forall i :: 0 <= i < c.idx ==> c.screen.cells[2 * (Position(c.screen) - c.idx + i)] == c.buf[i]
  }

  lemma PressKeepsEcho(c: Console, k: Key, color: Byte)
    requires Echoes(c) && ValidKey(k)
    ensures CanErase(c) && Echoes(Press(c, k, color))
  {
    PressKeepsRoom(c, k, color);
    match k
    case Backspace =>
      if c.idx > 0 {
        BackspaceErasesLast(c, color);
      }
    case Enter =>
    case CtrlL =>
    case Char(ch) =>
      if c.idx < KEY_BUF_SIZE - 1 && ch != NUL {
        CharEchoes(c, ch, color);
      }
  }

  lemma CharEchoes(c: Console, ch: Byte, color: Byte)
    requires Echoes(c) && Printable(ch) && ch != NUL && c.idx < KEY_BUF_SIZE - 1
    ensures Echoes(Press(c, Char(ch), color))
  {
  }

  // ----- Lines delivered to a reader

  /** A line as a stack of characters: at most 128 pushed, backspace pops, Ctrl+L empties. */
  function Typed(keys: seq<Key>): (t: seq<Byte>)
    requires forall i :: 0 <= i < |keys| ==> !keys[i].Enter?
    ensures |t| < KEY_BUF_SIZE && NulFree(t)
  {
    if keys == [] then []
    else
      var t := Typed(keys[..|keys| - 1]);
      match keys[|keys| - 1]
      case Char(ch) => if ch == NUL || |t| == KEY_BUF_SIZE - 1 then t else t + [ch]
      case Backspace => if t == [] then [] else t[..|t| - 1]
      case CtrlL => []
  }

  /** The line handed to the reader: cut to 127 characters, then a newline. */
  function LineOf(typed: seq<Byte>): (line: seq<Byte>)
    requires |typed| < KEY_BUF_SIZE && NulFree(typed)
    ensures 1 <= |line| < KEY_BUF_SIZE && NulFree(line)
  {
    typed[..Min(|typed|, KEY_BUF_SIZE - 2)] + [NEWLINE]
  }

  function Padded(t: seq<Byte>): (buf: seq<Byte>)
    requires |t| < KEY_BUF_SIZE
    ensures |buf| == KEY_BUF_SIZE
  {
    t + Repeat(NUL, KEY_BUF_SIZE - |t|)
  }

  /** The key buffer holds exactly `t`, and zeros behind it. */
  predicate Holds(c: Console, t: seq<Byte>) {
    RoomBehind(c) && |t| < KEY_BUF_SIZE && NulFree(t) && c.buf == Padded(t) && c.idx == |t|
  }

  function PressAll(c: Console, keys: seq<Key>, color: Byte): (r: Console)
    requires RoomBehind(c) && forall i :: 0 <= i < |keys| ==> ValidKey(keys[i])
    ensures RoomBehind(r)
  {
    if keys == [] then c
    else
      var c' := PressAll(c, keys[..|keys| - 1], color);
      PressKeepsRoom(c', keys[|keys| - 1], color);
      Press(c', keys[|keys| - 1], color)
  }

  lemma PrefixOfPadded(t: seq<Byte>)
    requires |t| < KEY_BUF_SIZE && NulFree(t)
    ensures Prefix(Padded(t)) == t
    ensures ClearBuffer(Padded(t)) == Padded([])
  {
    assert Padded(t)[..|t|] == t;
    PrefixIs(Padded(t), |t|);
  }

  lemma {:induction false} PressAllHolds(c: Console, keys: seq<Key>, color: Byte)
    requires Holds(c, [])
    requires forall i :: 0 <= i < |keys| ==> ValidKey(keys[i]) && !keys[i].Enter?
    ensures Holds(PressAll(c, keys, color), Typed(keys))
    ensures PressAll(c, keys, color).newLine == c.newLine
  {
    if keys != [] {
      var rest, k := keys[..|keys| - 1], keys[|keys| - 1];
      PressAllHolds(c, rest, color);
      PressHolds(PressAll(c, rest, color), Typed(rest), k, Typed(keys), color);
    }
  }

  lemma PressHolds(c: Console, t: seq<Byte>, k: Key, t': seq<Byte>, color: Byte)
    requires Holds(c, t) && ValidKey(k) && !k.Enter?
    requires t' == match k
                   case Char(ch) => if ch == NUL || |t| == KEY_BUF_SIZE - 1 then t else t + [ch]
                   case Backspace => if t == [] then [] else t[..|t| - 1]
                   case CtrlL => []
                   case Enter => t
    ensures CanErase(c) && Holds(Press(c, k, color), t') && Press(c, k, color).newLine == c.newLine
  {
    PressKeepsRoom(c, k, color);
    match k
    case Char(ch) =>
      if ch != NUL && |t| < KEY_BUF_SIZE - 1 {
        assert Padded(t)[|t| := ch] == Padded(t + [ch]);
      }
    case Backspace =>
      if t != [] {
        assert Padded(t)[|t| - 1 := NUL] == Padded(t[..|t| - 1]);
      }
    case CtrlL =>
      PrefixOfPadded(t);
  }

  /** While a line is edited, the screen shows exactly that line just before the cursor. */
  lemma {:induction false} EditedLineIsShown(c: Console, keys: seq<Key>, color: Byte)
    requires Holds(c, []) && LineKeys(keys)
    ensures var r, t := PressAll(c, keys, color), Typed(keys);
            && |t| <= Position(r.screen)
            && forall i :: 0 <= i < |t| ==> r.screen.cells[2 * (Position(r.screen) - |t| + i)] == t[i]
  {
    PressAllHolds(c, keys, color);
    PressAllEchoes(c, keys, color);
    HeldIsShown(PressAll(c, keys, color), Typed(keys));
  }

  lemma HeldIsShown(c: Console, t: seq<Byte>)
    requires Holds(c, t) && Echoes(c)
    ensures forall i :: 0 <= i < |t| ==> c.screen.cells[2 * (Position(c.screen) - |t| + i)] == t[i]
  {
    assert forall i :: 0 <= i < |t| ==> c.buf[i] == t[i];
  }

  lemma {:induction false} PressAllEchoes(c: Console, keys: seq<Key>, color: Byte)
    requires Echoes(c) && forall i :: 0 <= i < |keys| ==> ValidKey(keys[i])
    ensures Echoes(PressAll(c, keys, color))
  {
    if keys != [] {
      PressAllEchoes(c, keys[..|keys| - 1], color);
      PressKeepsEcho(PressAll(c, keys[..|keys| - 1], color), keys[|keys| - 1], color);
    }
  }

  lemma EnterHolds(c: Console, t: seq<Byte>, color: Byte)
    requires Holds(c, t)
    ensures var c' := Press(c, Enter, color);
            RoomBehind(c') && c'.buf == Padded(LineOf(t)) && c'.idx == 0 && c'.newLine
  {
    PressKeepsRoom(c, Enter, color);
  }

  /** What terminal_read leaves of the visible terminal's console. */
  function AfterRead(c: Console): (r: Console)
    requires ValidConsole(c)
    ensures ValidConsole(r)
  {
    c.(buf := ClearBuffer(c.buf), idx := 0, newLine := false)
  }

  predicate LineKeys(keys: seq<Key>) {
    forall i :: 0 <= i < |keys| ==> ValidKey(keys[i]) && !keys[i].Enter?
  }

  /** A line typed on an empty buffer and ended with enter is delivered whole, and a read leaves the buffer empty. */
  lemma LineEntered(c: Console, keys: seq<Key>, color: Byte)
    requires Holds(c, []) && LineKeys(keys)
    ensures var e, line := Press(PressAll(c, keys, color), Enter, color), LineOf(Typed(keys));
            && e.newLine && e.buf == Padded(line) && Prefix(e.buf) == line && Holds(AfterRead(e), [])
  {
    PressAllHolds(c, keys, color);
    EnterHolds(PressAll(c, keys, color), Typed(keys), color);
    PrefixOfPadded(LineOf(Typed(keys)));
  }

  function LinesOf(lines: seq<seq<Key>>): seq<seq<Byte>>
    requires forall i :: 0 <= i < |lines| ==> LineKeys(lines[i])
  {
    if lines == [] then [] else
      assert LineKeys(lines[0]);
      [LineOf(Typed(lines[0]))] + LinesOf(lines[1..])
  }

  /** A session: each line is typed, ended with enter, and read; the strings read and the console left. */
  function Session(c: Console, lines: seq<seq<Key>>, color: Byte): (seq<seq<Byte>>, Console)
    requires RoomBehind(c) && forall i :: 0 <= i < |lines| ==> LineKeys(lines[i])
    decreases lines
  {
    if lines == [] then ([], c)
    else
      assert LineKeys(lines[0]);
      var typed := PressAll(c, lines[0], color);
      PressKeepsRoom(typed, Enter, color);
      var entered := Press(typed, Enter, color);
      var (read, c') := Session(AfterRead(entered), lines[1..], color);
      ([Prefix(entered.buf)] + read, c')
  }

  /** Every line is delivered as the editing of its own keys, and the buffer is empty again after the last. */
  lemma {:induction false} SessionDelivers(c: Console, lines: seq<seq<Key>>, color: Byte)
    requires Holds(c, []) && forall i :: 0 <= i < |lines| ==> LineKeys(lines[i])
    ensures Session(c, lines, color).0 == LinesOf(lines)
    ensures Holds(Session(c, lines, color).1, [])
    decreases lines
  {
    if lines != [] {
      assert LineKeys(lines[0]);
      LineEntered(c, lines[0], color);
      SessionDelivers(AfterRead(Press(PressAll(c, lines[0], color), Enter, color)), lines[1..], color);
    }
  }
}
