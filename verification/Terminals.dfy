/** Three terminals over one physical video page and three backing pages (lib.c, multi_term.c, keyboard.c, terminal.c). */
module Terminals {
  import opened Machine
  import opened Memory
  import opened Strings
  import opened Screens
  import opened LineEditor
  import opened Worlds
  import opened Bitmap

  const FOUR_KB := 0x1000

  /** The fields of term_t that screens and the keyboard use; `vidMem` is an offset from the physical page. */
  datatype Term = Term(vidMem: nat, scrnR: Byte, scrnC: Byte, cursR: Byte, cursC: Byte,
                       keyBuf: seq<Byte>, keyBufIndex: nat, newLine: bool)

  /** The visible terminal writes to the physical page, the others to their own backing pages. */
  function HomePage(t: nat, vis: nat): nat {
    if t == vis then 0 else FOUR_KB * (t + 1)
  }

  /** Memory after the page at `v` has been moved up one row and its last row blanked. */
  function ScrolledPage(m: seq<Byte>, v: nat, color: Byte): (r: seq<Byte>)
    requires v + SCREEN_BYTES <= |m|
    ensures |r| == |m|
    ensures r[v..v + SCREEN_BYTES] == m[v..v + SCREEN_BYTES][ROW_BYTES..] + BlankCells(COLS, color)
    ensures forall i :: 0 <= i < |m| && !(v <= i < v + SCREEN_BYTES) ==> r[i] == m[i]
  {
    var lower := SCREEN_BYTES - ROW_BYTES;
    WordsSet(Moved(m, v, v + ROW_BYTES, lower), v + lower, SPACE + 0x100 * color, COLS)
  }

  class Terminals {
    const mem: array<Byte>
    const color: Byte
    var terms: seq<Term>
    var vis: nat
    /** The cursor position held by the VGA controller. */
    var cursor: nat

    ghost predicate Layout()
      reads this
    {
      && mem.Length == 4 * FOUR_KB
      && |terms| == TERMS
      && vis < TERMS
      && forall t :: 0 <= t < TERMS ==> terms[t].vidMem == HomePage(t, vis)
    }

    ghost function Cells(t: nat): (s: seq<Byte>)
      requires Layout() && t < TERMS
      reads this, mem
      ensures |s| == SCREEN_BYTES
    {
      mem[terms[t].vidMem..terms[t].vidMem + SCREEN_BYTES]
    }

    ghost function ScreenOf(t: nat): Screen
      requires Layout() && t < TERMS
      reads this, mem
    {
      Screen(Cells(t), terms[t].scrnR, terms[t].scrnC)
    }

    ghost function ConsoleOf(t: nat): Console
      requires Layout() && t < TERMS
      reads this, mem
    {
      Console(ScreenOf(t), terms[t].keyBuf, terms[t].keyBufIndex, terms[t].newLine)
    }

    ghost function View(): World
      requires Layout()
      reads this, mem
    {
      World([ConsoleOf(0), ConsoleOf(1), ConsoleOf(2)], vis)
    }

    /** The recorded cursor of `t` is its print position, and the VGA cursor too if `t` is visible. */
    ghost predicate CursorAgrees(t: nat)
      requires Layout() && t < TERMS
      reads this
    {
      && terms[t].cursR == terms[t].scrnR && terms[t].cursC == terms[t].scrnC
      && (t == vis ==> cursor == COLS * terms[t].scrnR + terms[t].scrnC)
    }

    ghost predicate Valid()
      reads this, mem
    {
      Layout() && ValidWorld(View()) && CursorAgrees(0) && CursorAgrees(1) && CursorAgrees(2)
    }

    /** The physical page and its cursor show the visible terminal. */
    lemma DisplayShowsVisible()
      requires Valid()
      ensures var s := View().cons[View().vis].screen;
              mem[0..4000] == s.cells && cursor == 80 * s.row + s.col
    {
      ConsoleAt(vis);
      assert CursorAgrees(vis);
    }

    /** multi_term_init, over zeroed key buffers; the backing pages hold whatever they held. */
    constructor (color: Byte)
      ensures Valid() && fresh(mem) && this.color == color
      ensures RoomEverywhere(View()) && View().vis == 0
      ensures forall t :: 0 <= t < TERMS ==> Holds(View().cons[t], []) && !View().cons[t].newLine
    {
      mem := new Byte[4 * FOUR_KB];
      this.color := color;
      terms := seq(TERMS, t requires 0 <= t < TERMS =>
        Term(HomePage(t, 0), 0, 0, 0, 0, Padded([]), 0, false));
      vis := 0;
      cursor := 0;
      new;
      assert Padded([])[KEY_BUF_SIZE - 1] == NUL;
    }

    /** Terminals other than `t` keep their records and their screens. */
    twostate predicate OthersKept(t: nat)
      requires old(Layout()) && Layout()
      reads this, mem
    {
      forall u :: 0 <= u < TERMS && u != t ==> terms[u] == old(terms[u]) && Cells(u) == old(Cells(u))
    }

    lemma ConsoleAt(t: nat)
      requires Layout() && t < TERMS
      ensures View().cons[t] == ConsoleOf(t)
    {
    }

    /** A change confined to terminal `t` updates just its console. */
    twostate lemma OneConsoleChanged(t: nat)
      requires old(Layout()) && Layout() && vis == old(vis) && t < TERMS && OthersKept(t)
      ensures View().vis == old(View()).vis && View().cons == old(View()).cons[t := ConsoleOf(t)]
    {
      forall u | 0 <= u < TERMS && u != t ensures ConsoleOf(u) == old(ConsoleOf(u)) {
      }
    }

    /** A change confined to terminal `t` leaves the cursors of the others where they belong. */
    twostate lemma OthersAgree(t: nat)
      requires old(Layout()) && Layout() && vis == old(vis) && t < TERMS && OthersKept(t)
      requires t != vis ==> cursor == old(cursor)
      ensures forall u :: 0 <= u < TERMS && u != t && old(CursorAgrees(u)) ==> CursorAgrees(u)
    {
    }

    /** The two memory operations of scroll; `temp` rows leave the screen, which is one while rows stay at most 25. */
    method ScrollPage(v: nat, temp: nat)
      requires v + SCREEN_BYTES <= mem.Length && temp == 1
      modifies mem
      ensures mem[v..v + SCREEN_BYTES] == old(mem[v..v + SCREEN_BYTES])[ROW_BYTES..] + BlankCells(COLS, color)
      ensures forall i :: 0 <= i < mem.Length && !(v <= i < v + SCREEN_BYTES) ==> mem[i] == old(mem[i])
    {
      Memcpy(mem, v, v + temp * COLS * 2, (ROWS - temp) * COLS * 2);
      MemsetWord(mem, v + (ROWS - temp) * COLS * 2, SPACE + 0x100 * color, COLS);
      assert mem[..] == ScrolledPage(old(mem[..]), v, color);
    }

    method Scroll(t: nat)
      requires Layout() && t < TERMS && terms[t].scrnR <= ROWS && terms[t].scrnC <= COLS
      modifies this`terms, mem
      ensures Layout() && OthersKept(t)
      ensures ScreenOf(t) == Scrolled(old(ScreenOf(t)), color)
      ensures terms[t] == old(terms[t]).(scrnR := terms[t].scrnR)
    {
      if terms[t].scrnR >= ROWS {
        var v := terms[t].vidMem;
        ScrollPage(v, terms[t].scrnR - ROWS + 1);
        terms := terms[t := terms[t].(scrnR := ROWS - 1)];
        forall u | 0 <= u < TERMS && u != t ensures Cells(u) == old(Cells(u)) {
          PagesApart(t, u, vis);
          OnlyPageChanged(old(mem[..]), mem[..], v, terms[u].vidMem);
        }
      }
    }

    method PokeCell(t: nat, row: nat, col: nat, ch: Byte)
      requires Layout() && t < TERMS && row < ROWS && col < COLS
      modifies mem
      ensures OthersKept(t)
      ensures Cells(t) == Poke(old(Cells(t)), row, col, ch, color)
    {
      var at := terms[t].vidMem + 2 * (COLS * row + col);
      mem[at] := ch;
      mem[at + 1] := color;
      forall u | 0 <= u < TERMS && u != t ensures Cells(u) == old(Cells(u)) {
        PagesApart(t, u, vis);
      }
    }

    /** Records the cursor of terminal `t`, and shows it if the terminal is visible. */
    method SetCursorPos(t: nat, row: Byte, col: Byte)
      requires Layout() && t < TERMS
      modifies this`terms, this`cursor
      ensures Layout() && OthersKept(t) && ScreenOf(t) == old(ScreenOf(t))
      ensures terms[t] == old(terms[t]).(cursR := row, cursC := col)
      ensures cursor == if t == vis then COLS * row + col else old(cursor)
    {
      terms := terms[t := terms[t].(cursR := row, cursC := col)];
      if t == vis {
        cursor := row * 80 + col;
      }
    }

    method SetKeyboardPos(t: nat, row: Byte, col: Byte)
      requires Layout() && t < TERMS
      modifies this`terms
      ensures Layout() && OthersKept(t)
      ensures ScreenOf(t) == old(ScreenOf(t)).(row := row, col := col)
      ensures terms[t] == old(terms[t]).(scrnR := row, scrnC := col)
    {
      terms := terms[t := terms[t].(scrnR := row, scrnC := col)];
    }

    method PutChar(t: nat, ch: Byte)
      requires Layout() && t < TERMS && Screens.Valid(ScreenOf(t)) && Printable(ch)
      modifies this`terms, mem
      ensures Layout() && OthersKept(t)
      ensures ScreenOf(t) == Put(old(ScreenOf(t)), ch, color)
      ensures terms[t] == old(terms[t]).(scrnR := terms[t].scrnR, scrnC := terms[t].scrnC)
    {
      SetKeyboardPos(t, terms[t].scrnR + terms[t].scrnC / COLS, terms[t].scrnC % COLS);
      Scroll(t);
      PokeCell(t, terms[t].scrnR, terms[t].scrnC, ch);
      SetKeyboardPos(t, terms[t].scrnR, terms[t].scrnC + 1);
    }

    /** putc without the two calls at its end: the cursor may still be where it was. */
    method PutcBody(t: nat, ch: Byte)
      requires Layout() && t < TERMS && Screens.Valid(ScreenOf(t))
      modifies this`terms, mem
      ensures Layout() && OthersKept(t)
      ensures ScreenOf(t) == Put(old(ScreenOf(t)), ch, color)
      ensures terms[t] == old(terms[t]).(scrnR := terms[t].scrnR, scrnC := terms[t].scrnC)
    {
      if ch == NEWLINE || ch == RETURN {
        SetKeyboardPos(t, terms[t].scrnR + 1, 0);
        Scroll(t);
      } else if ch == BACKSPACE {
        if terms[t].scrnC != 0 {
          SetKeyboardPos(t, terms[t].scrnR, terms[t].scrnC - 1);
          PokeCell(t, terms[t].scrnR, terms[t].scrnC, SPACE);
        }
      } else {
        PutChar(t, ch);
      }
    }

    /** The two calls at the end of putc. */
    method SyncCursor(t: nat)
      requires Layout() && t < TERMS
      modifies this`terms, this`cursor
      ensures Layout() && OthersKept(t) && ScreenOf(t) == old(ScreenOf(t)) && CursorAgrees(t)
      ensures terms[t] == old(terms[t]).(cursR := terms[t].scrnR, cursC := terms[t].scrnC)
      ensures t != vis ==> cursor == old(cursor)
    {
      SetCursorPos(t, terms[t].scrnR, terms[t].scrnC);
      SetKeyboardPos(t, terms[t].scrnR, terms[t].scrnC);
    }

    /** putc, also where the recorded cursor of `t` lags behind its print position. */
    method PutcUnsynced(t: nat, ch: Byte)
      requires Layout() && ValidWorld(View()) && t < TERMS
      modifies this`terms, this`cursor, mem
      ensures Layout() && View() == Apply(old(View()), Print(t, ch), color)
      ensures forall u :: 0 <= u < TERMS && u != t && old(CursorAgrees(u)) ==> CursorAgrees(u)
      ensures old(CursorAgrees(t)) || !(ch == BACKSPACE && old(terms[t].scrnC == 0)) ==> CursorAgrees(t)
    {
      ConsoleAt(t);
      if ch == BACKSPACE && terms[t].scrnC == 0 {
        OneConsoleChanged(t);
        return;
      }
      PutcBody(t, ch);
      SyncCursor(t);
      OneConsoleChanged(t);
      OthersAgree(t);
    }

    method Putc(t: nat, ch: Byte)
      requires Valid() && t < TERMS
      modifies this`terms, this`cursor, mem
      ensures Valid() && View() == Apply(old(View()), Print(t, ch), color)
    {
      PutcUnsynced(t, ch);
    }

    method BlankVideoPage()
      requires Layout()
      modifies mem
      ensures OthersKept(vis) && Cells(vis) == BlankCells(ROWS * COLS, color)
    {
      var i := 0;
      while i < ROWS * COLS
        invariant 0 <= i <= ROWS * COLS
        invariant forall k :: 0 <= k < 2 * i ==> mem[k] == if k % 2 == 0 then SPACE else color
        invariant forall k :: SCREEN_BYTES <= k < mem.Length ==> mem[k] == old(mem[k])
      {
        mem[2 * i] := SPACE;
        mem[2 * i + 1] := color;
        i := i + 1;
      }
    }

    /** Both positions of a terminal at once, as clear_screen sets them. */
    method PlaceCursor(t: nat, row: Byte, col: Byte)
      requires Layout() && t < TERMS
      modifies this`terms, this`cursor
      ensures Layout() && OthersKept(t) && ScreenOf(t) == old(ScreenOf(t)).(row := row, col := col) && CursorAgrees(t)
      ensures terms[t] == old(terms[t]).(scrnR := row, scrnC := col, cursR := row, cursC := col)
      ensures t != vis ==> cursor == old(cursor)
    {
      SetKeyboardPos(t, row, col);
      SetCursorPos(t, row, col);
    }

    method ClearScreen()
      requires Valid()
      modifies this`terms, this`cursor, mem
      ensures Valid()
      ensures View() == old(With(View(), vis, View().cons[vis].(screen := BlankScreen(color))))
    {
      ConsoleAt(vis);
      BlankVideoPage();
      PlaceCursor(vis, 0, 0);
      OneConsoleChanged(vis);
      OthersAgree(vis);
    }

    /** The copy loop of switch_screen: page `v` gets the physical page, which gets page `w`. */
    method ExchangePages(v: nat, w: nat)
      requires SCREEN_BYTES <= v && v + SCREEN_BYTES <= mem.Length
      requires w + SCREEN_BYTES <= mem.Length && SCREEN_BYTES <= w
      requires v == w || v + SCREEN_BYTES <= w || w + SCREEN_BYTES <= v
      modifies mem
      ensures mem[v..v + SCREEN_BYTES] == old(mem[..SCREEN_BYTES])
      ensures mem[..SCREEN_BYTES] == if v == w then old(mem[..SCREEN_BYTES]) else old(mem[w..w + SCREEN_BYTES])
      ensures forall k :: SCREEN_BYTES <= k < mem.Length && !(v <= k < v + SCREEN_BYTES) ==> mem[k] == old(mem[k])
    {
      var i := 0;
      while i < 2 * COLS * ROWS
        invariant 0 <= i <= SCREEN_BYTES
        invariant forall k :: 0 <= k < i ==> mem[v + k] == old(mem[k])
        invariant forall k :: 0 <= k < i ==> mem[k] == if v == w then old(mem[k]) else old(mem[w + k])
        invariant forall k :: i <= k < SCREEN_BYTES ==> mem[k] == old(mem[k])
        invariant forall k :: SCREEN_BYTES <= k < mem.Length && !(v <= k < v + SCREEN_BYTES) ==> mem[k] == old(mem[k])
      {
        mem[v + i] := mem[i];
        mem[i] := mem[w + i];
        i := i + 1;
      }
    }

    method SwitchScreen(n: nat)
      requires Layout() && n < TERMS
      modifies this`terms, mem
      ensures |terms| == TERMS
      ensures forall t :: 0 <= t < TERMS ==> terms[t] == old(terms[t]).(vidMem := HomePage(t, n))
      ensures forall t :: 0 <= t < TERMS ==>
        mem[HomePage(t, n)..HomePage(t, n) + SCREEN_BYTES] == old(Cells(t))
    {
      var v := FOUR_KB * (vis + 1);
      terms := terms[vis := terms[vis].(vidMem := v)];
      var w := terms[n].vidMem;
      ExchangePages(v, w);
      terms := terms[n := terms[n].(vidMem := 0)];
      forall t | 0 <= t < TERMS
        ensures mem[HomePage(t, n)..HomePage(t, n) + SCREEN_BYTES] == old(Cells(t))
      {
        PageMoved(old(mem[..]), mem[..], v, w, t, vis, n);
      }
    }

    /** A switch moves every screen to its new page and changes none. */
    method MakeVisible(n: nat)
      requires Layout() && n < TERMS
      modifies this`terms, this`vis, mem
      ensures Layout() && View() == old(View()).(vis := n)
      ensures forall t :: 0 <= t < TERMS ==> terms[t] == old(terms[t]).(vidMem := HomePage(t, n))
    {
      SwitchScreen(n);
      vis := n;
      assert forall t :: 0 <= t < TERMS ==> ConsoleOf(t) == old(ConsoleOf(t));
    }

    method SwitchTerminal(n: int, pcbStatus: bv32)
      requires Valid()
      modifies this, mem
      ensures Valid() && View() == Apply(old(View()), Switch(n, pcbStatus), color)
    {
      var processes := SlotsTaken(pcbStatus);
      if n < 0 || n >= TERMS || processes > SLOTS {
        return;
      }
      MakeVisible(n);
      RestoreCursor(n);
    }

    /** switch_keyboard_and_cursor_pos: shows the cursor recorded for a terminal that has become visible. */
    method RestoreCursor(n: nat)
      requires Layout() && n == vis && ValidWorld(View())
      requires forall t :: 0 <= t < TERMS ==> terms[t].cursR == terms[t].scrnR && terms[t].cursC == terms[t].scrnC
      modifies this`terms, this`cursor
      ensures Valid() && View() == old(View())
    {
      SetKeyboardPos(n, terms[n].scrnR, terms[n].scrnC);
      SetCursorPos(n, terms[n].cursR, terms[n].cursC);
      OneConsoleChanged(n);
    }

    // ----- Keyboard

    /** Stores the record of one terminal back. */
    method SetTerm(t: nat, term: Term)
      requires Layout() && t < TERMS && term.vidMem == terms[t].vidMem
      modifies this`terms
      ensures Layout() && OthersKept(t) && terms[t] == term && Cells(t) == old(Cells(t))
    {
      terms := terms[t := term];
    }

    /** Changes the key buffer fields of one terminal. */
    method SetKeys(t: nat, buf: seq<Byte>, idx: nat, newLine: bool)
      requires Valid() && t < TERMS && ValidConsole(View().cons[t].(buf := buf, idx := idx))
      modifies this`terms
      ensures Valid()
      ensures View() == old(With(View(), t, View().cons[t].(buf := buf, idx := idx, newLine := newLine)))
    {
      ConsoleAt(t);
      SetTerm(t, terms[t].(keyBuf := buf, keyBufIndex := idx, newLine := newLine));
      OneConsoleChanged(t);
    }

    /** clear_buffer: zeroes the string in the visible terminal's key buffer. */
    method ClearKeys()
      requires Valid()
      modifies this`terms
      ensures Valid()
      ensures View() == KeysCleared(old(View()))
    {
      ConsoleAt(vis);
      var buf := terms[vis].keyBuf;
      assert buf[0..] == buf && buf[KEY_BUF_SIZE - 1] == NUL;
      var len := Strlen(buf, 0);
      SetKeys(vis, Repeat(NUL, len) + buf[len..], 0, terms[vis].newLine);
    }

    /** The record of the visible terminal with its last character taken back. */
    method TakeBack()
      requires Layout() && terms[vis].keyBufIndex > 0 && ValidConsole(ConsoleOf(vis)) && CanErase(ConsoleOf(vis))
      modifies this`terms
      ensures Layout() && OthersKept(vis) && ConsoleOf(vis) == SteppedBack(old(ConsoleOf(vis))) && terms[vis].scrnC != 0
    {
      var term := terms[vis];
      term := term.(keyBuf := term.keyBuf[term.keyBufIndex - 1 := NUL], keyBufIndex := term.keyBufIndex - 1);
      if term.scrnC == 0 {
        term := term.(scrnR := term.scrnR - 1, scrnC := COLS);
      }
      SetTerm(vis, term);
    }

    method StepBack()
      requires Valid() && terms[vis].keyBufIndex > 0 && CanErase(View().cons[vis])
      modifies this`terms
      ensures Layout() && ValidWorld(View())
      ensures View() == old(With(View(), vis, SteppedBack(View().cons[vis])))
      ensures forall u :: 0 <= u < TERMS && u != vis ==> CursorAgrees(u)
      ensures terms[vis].scrnC != 0
    {
      ConsoleAt(vis);
      TakeBack();
      OneConsoleChanged(vis);
      OthersAgree(vis);
    }

    method PressBackspace()
      requires Valid() && Enabled(View(), Keyed(Backspace))
      modifies this, mem
      ensures Valid() && View() == Apply(old(View()), Keyed(Backspace), color)
    {
      ConsoleAt(vis);
      if terms[vis].keyBufIndex != 0 {
        PressIsChangeThenEcho(View(), Backspace, SteppedBack(View().cons[vis]), BACKSPACE, color);
        StepBack();
        PutcUnsynced(vis, BACKSPACE);
      }
    }

    method PressEnter()
      requires Valid()
      modifies this, mem
      ensures Valid() && View() == Apply(old(View()), Keyed(Enter), color)
    {
      ConsoleAt(vis);
      var buf, idx := terms[vis].keyBuf, terms[vis].keyBufIndex;
      var last := if idx < KEY_BUF_SIZE - 1 then idx else KEY_BUF_SIZE - 2;
      var buf': seq<Byte> := buf[last := NEWLINE][last + 1 := NUL];
      PressIsChangeThenEcho(View(), Enter, View().cons[vis].(buf := buf', idx := 0, newLine := true), NEWLINE, color);
      SetKeys(vis, buf', 0, true);
      Putc(vis, NEWLINE);
    }

    method PressCtrlL()
      requires Valid()
      modifies this, mem
      ensures Valid() && View() == Apply(old(View()), Keyed(CtrlL), color)
    {
      CtrlLClearsBoth(View(), color);
      ClearScreen();
      ClearKeys();
    }

    /** Stores a character in the visible terminal's key buffer, which has room. */
    method StoreChar(ch: Byte)
      requires Valid() && View().cons[vis].idx < KEY_BUF_SIZE - 1
      modifies this`terms
      ensures Valid() && View() == Stored(old(View()), ch)
    {
      ConsoleAt(vis);
      var idx := terms[vis].keyBufIndex;
      SetKeys(vis, terms[vis].keyBuf[idx := ch], idx + 1, terms[vis].newLine);
    }

    method PressChar(ch: Byte)
      requires Valid() && ValidKey(Char(ch))
      modifies this, mem
      ensures Valid() && View() == Apply(old(View()), Keyed(Char(ch)), color)
    {
      ConsoleAt(vis);
      if terms[vis].keyBufIndex == KEY_BUF_SIZE - 1 || ch == NUL {
        IgnoredKey(View(), Char(ch), color);
        return;
      }
      CharIsStoreThenEcho(View(), ch, color);
      StoreChar(ch);
      Putc(vis, ch);
    }

    /** process_input, on keys already decoded by the key maps. */
    method ProcessInput(k: Key)
      requires Valid() && Enabled(View(), Keyed(k))
      modifies this, mem
      ensures Valid() && View() == Apply(old(View()), Keyed(k), color)
    {
      match k
      case Backspace => PressBackspace();
      case Enter => PressEnter();
      case CtrlL => PressCtrlL();
      case Char(ch) => PressChar(ch);
    }

    // ----- Reads and writes by programs

    /** Takes the reader's pending line: clears its flag and the visible terminal's key buffer. */
    method TakeLine(reader: nat) returns (keys: seq<Byte>)
      requires Valid() && reader < TERMS && terms[reader].newLine
      modifies this`terms
      ensures Valid() && View() == Apply(old(View()), Read(reader), color)
      ensures keys == old(View()).cons[reader].buf
    {
      ConsoleAt(reader);
      ReadTakesThenClears(View(), reader, color);
      keys := terms[reader].keyBuf;
      SetKeys(reader, keys, terms[reader].keyBufIndex, false);
      ClearKeys();
    }

    /** terminal_read once the reader's new-line flag is set; the key buffer has 129 bytes to copy from. */
    method TerminalRead(reader: nat, buf: array<Byte>, nbytes: nat) returns (ret: nat)
      requires Valid() && reader < TERMS && terms[reader].newLine
      requires nbytes <= KEY_BUF_SIZE && nbytes <= buf.Length && buf != mem
      modifies this`terms, buf
      ensures Valid() && View() == Apply(old(View()), Read(reader), color)
      ensures ret == |Prefix(old(View()).cons[reader].buf)|
      ensures buf[..nbytes] == old(View()).cons[reader].buf[..nbytes]
      ensures buf[nbytes..] == old(buf[nbytes..])
    {
      var keys := TakeLine(reader);
      assert keys[0..] == keys && keys[KEY_BUF_SIZE - 1] == NUL;
      ret := Strlen(keys, 0);
      CopyOut(buf, keys, nbytes);
    }

    /** A read of a terminal whose buffer holds a line delivers that line. */
    method ReadLine(reader: nat, buf: array<Byte>, nbytes: nat, ghost line: seq<Byte>) returns (ret: nat)
      requires Valid() && reader < TERMS && View().cons[reader].newLine && buf != mem
      requires |line| <= nbytes <= KEY_BUF_SIZE && |line| < KEY_BUF_SIZE && nbytes <= buf.Length
      requires View().cons[reader].buf == Padded(line) && Prefix(Padded(line)) == line
      modifies this`terms, buf
      ensures Valid() && View() == Apply(old(View()), Read(reader), color)
      ensures ret == |line| && buf[..ret] == line
    {
      ConsoleAt(reader);
      ret := TerminalRead(reader, buf, nbytes);
      assert buf[..ret] == buf[..nbytes][..ret];
    }

    /** Keys pressed one after the other. */
    method TypeKeys(keys: seq<Key>)
      requires Valid() && RoomBehind(View().cons[vis]) && forall i :: 0 <= i < |keys| ==> ValidKey(keys[i])
      modifies this, mem
      ensures Valid() && View() == old(With(View(), vis, PressAll(View().cons[vis], keys, color)))
    {
      ghost var w := View();
      ghost var now := w;
      var i := 0;
      while i < |keys|
        invariant 0 <= i <= |keys| && Valid() && View() == now && now == Typing(w, keys, i, color)
      {
        PressedOneMore(w, keys, i, color);
        ProcessInput(keys[i]);
        i := i + 1;
        now := Typing(w, keys, i, color);
      }
      assert keys[..i] == keys;
    }

    method TypeLine(keys: seq<Key>)
      requires Valid() && RoomBehind(View().cons[vis]) && LineKeys(keys)
      modifies this, mem
      ensures Valid() && View() == Entered(old(View()), keys, color)
    {
      TypeKeys(keys);
      ProcessInput(Enter);
    }

    /** A line typed, ended with enter and read on the visible terminal is the edited line, and leaves no trace. */
    method TypeAndRead(keys: seq<Key>, buf: array<Byte>, nbytes: nat) returns (ret: nat)
      requires Valid() && Holds(View().cons[vis], []) && LineKeys(keys) && buf != mem
      requires |LineOf(Typed(keys))| <= nbytes <= KEY_BUF_SIZE && nbytes <= buf.Length
      modifies this, mem, buf
      ensures Valid() && vis == old(vis) && Holds(View().cons[vis], []) && !View().cons[vis].newLine
      ensures forall t :: 0 <= t < TERMS && t != vis ==> View().cons[t] == old(View()).cons[t]
      ensures ret == |LineOf(Typed(keys))| && buf[..ret] == LineOf(Typed(keys))
    {
      LineTaken(View(), keys, color);
      TypeLine(keys);
      ret := ReadLine(vis, buf, nbytes, LineOf(Typed(keys)));
    }

    /** Any interleaving of events, handled one by one. */
    method HandleAll(es: seq<Event>)
      requires Valid() && CanRun(View(), es, color)
      modifies this, mem
      ensures Valid() && View() == Run(old(View()), es, color)
    {
      ghost var w := View();
      var i := 0;
      while i < |es|
        invariant 0 <= i <= |es| && Valid()
        invariant CanRun(View(), es[i..], color) && Run(View(), es[i..], color) == Run(w, es, color)
      {
        assert es[i..][1..] == es[i + 1..];
        Handle(es[i]);
        i := i + 1;
      }
    }

    method Handle(e: Event)
      requires Valid() && Enabled(View(), e)
      modifies this, mem
      ensures Valid() && View() == Apply(old(View()), e, color)
    {
      match e
      case Print(t, ch) => Putc(t, ch);
      case Keyed(k) => ProcessInput(k);
      case Switch(n, status) => SwitchTerminal(n, status);
      case Read(t) =>
        ConsoleAt(t);
        if terms[t].newLine {
          var keys := TakeLine(t);
        }
    }

    method CopyOut(buf: array<Byte>, keys: seq<Byte>, nbytes: nat)
      requires nbytes <= |keys| && nbytes <= buf.Length
      modifies buf
      ensures buf[..nbytes] == keys[..nbytes] && buf[nbytes..] == old(buf[nbytes..])
    {
      for i := 0 to nbytes
        invariant buf[..i] == keys[..i]
        invariant buf[nbytes..] == old(buf[nbytes..])
      {
        buf[i] := keys[i];
      }
    }

    method TerminalWrite(writer: nat, text: seq<Byte>) returns (ret: nat)
      requires Valid() && writer < TERMS
      modifies this, mem
      ensures Valid() && ret == |text|
      ensures View() == old(var c := View().cons[writer];
                            View().(cons := View().cons[writer := c.(screen := PutAll(c.screen, text, color))]))
    {
      hide Put;
      ghost var w, c := View(), View().cons[writer];
      for i := 0 to |text|
        invariant Valid() && View() == w.(cons := w.cons[writer := c.(screen := PutAll(c.screen, text[..i], color))])
      {
        Putc(writer, text[i]);
        assert text[..i + 1][..i] == text[..i];
      }
      assert text[..|text|] == text;
      ret := |text|;
    }
  }

  /** The visible terminal has got the keys of a line, then enter. */
  function Entered(w: World, keys: seq<Key>, color: Byte): (r: World)
    requires ValidWorld(w) && RoomBehind(w.cons[w.vis]) && LineKeys(keys)
    ensures ValidWorld(r)
  {
    Apply(With(w, w.vis, PressAll(w.cons[w.vis], keys, color)), Keyed(Enter), color)
  }

  /** The course of a line on the visible terminal: typed, entered and read. */
  lemma LineTaken(w: World, keys: seq<Key>, color: Byte)
    requires ValidWorld(w) && Holds(w.cons[w.vis], []) && LineKeys(keys)
    ensures var entered := Entered(w, keys, color);
            var c, line := entered.cons[w.vis], LineOf(Typed(keys));
            && entered.vis == w.vis && c.newLine && c.buf == Padded(line) && Prefix(c.buf) == line
            && (forall t :: 0 <= t < TERMS && t != w.vis ==> entered.cons[t] == w.cons[t])
            && Apply(entered, Read(w.vis), color) == With(entered, w.vis, AfterRead(c))
            && Holds(AfterRead(c), [])
  {
    LineEntered(w.cons[w.vis], keys, color);
    var e := Press(PressAll(w.cons[w.vis], keys, color), Enter, color);
    assert Entered(w, keys, color) == With(w, w.vis, e);
    ReadOfVisible(With(w, w.vis, e), color);
  }

  /** The visible terminal has got the first `i` keys. */
  function Typing(w: World, keys: seq<Key>, i: nat, color: Byte): (r: World)
    requires ValidWorld(w) && RoomBehind(w.cons[w.vis]) && i <= |keys| && forall k :: 0 <= k < |keys| ==> ValidKey(keys[k])
    ensures ValidWorld(r)
  {
    With(w, w.vis, PressAll(w.cons[w.vis], keys[..i], color))
  }

  lemma PressedOneMore(w: World, keys: seq<Key>, i: nat, color: Byte)
    requires ValidWorld(w) && RoomBehind(w.cons[w.vis]) && i < |keys|
    requires forall k :: 0 <= k < |keys| ==> ValidKey(keys[k])
    ensures Enabled(Typing(w, keys, i, color), Keyed(keys[i]))
    ensures Apply(Typing(w, keys, i, color), Keyed(keys[i]), color) == Typing(w, keys, i + 1, color)
  {
    assert keys[..i + 1][..i] == keys[..i];
    PressKeepsRoom(PressAll(w.cons[w.vis], keys[..i], color), keys[i], color);
  }

  /** After the exchange every terminal finds its old screen on its new page. */
  lemma PageMoved(m: seq<Byte>, m': seq<Byte>, v: nat, w: nat, t: nat, vis: nat, n: nat)
    requires |m| == |m'| == 4 * FOUR_KB && t < TERMS && vis < TERMS && n < TERMS
    requires v == FOUR_KB * (vis + 1) && w == FOUR_KB * (n + 1)
    requires m'[v..v + SCREEN_BYTES] == m[..SCREEN_BYTES]
    requires m'[..SCREEN_BYTES] == if v == w then m[..SCREEN_BYTES] else m[w..w + SCREEN_BYTES]
    requires forall k :: SCREEN_BYTES <= k < |m| && !(v <= k < v + SCREEN_BYTES) ==> m'[k] == m[k]
    ensures m'[HomePage(t, n)..HomePage(t, n) + SCREEN_BYTES] == m[HomePage(t, vis)..HomePage(t, vis) + SCREEN_BYTES]
  {
  }

  lemma PagesApart(t: nat, u: nat, vis: nat)
    requires t < TERMS && u < TERMS && t != u
    ensures var v, w := HomePage(t, vis), HomePage(u, vis);
            v + SCREEN_BYTES <= w || w + SCREEN_BYTES <= v
  {
  }

  lemma OnlyPageChanged(m: seq<Byte>, m': seq<Byte>, v: nat, u: nat)
    requires |m| == |m'| && u + SCREEN_BYTES <= |m|
    requires v + SCREEN_BYTES <= u || u + SCREEN_BYTES <= v
    requires forall i :: 0 <= i < |m| && !(v <= i < v + SCREEN_BYTES) ==> m'[i] == m[i]
    ensures m'[u..u + SCREEN_BYTES] == m[u..u + SCREEN_BYTES]
  {
  }
}
