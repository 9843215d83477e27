/** Three terminals, one of them visible: the events that reach them and what they do. */
module Worlds {
  import opened Machine
  import opened Screens
  import opened LineEditor
  import opened Bitmap

  datatype World = World(cons: seq<Console>, vis: nat)

  /** A character printed on a terminal, a key press, a terminal switch, or a read by a terminal's program. */
  datatype Event =
    | Print(term: nat, ch: Byte)
    | Keyed(key: Key)
    | Switch(target: int, status: bv32)
    | Read(reader: nat)

  predicate ValidWorld(w: World) {
    && |w.cons| == TERMS
    && w.vis < TERMS
    && forall t :: 0 <= t < TERMS ==> ValidConsole(w.cons[t])
  }

  predicate ValidEvent(e: Event) {
    match e
    case Print(t, _) => t < TERMS
    case Keyed(k) => ValidKey(k)
    case Switch(_, _) => true
    case Read(t) => t < TERMS
  }

  predicate Enabled(w: World, e: Event)
    requires ValidWorld(w)
  {
    ValidEvent(e) && (e.Keyed? && e.key.Backspace? ==> CanErase(w.cons[w.vis]))
  }

  /** A switch is ignored when its target is out of range or too many process slots are taken. */
  predicate Switches(target: int, status: bv32) {
    0 <= target < TERMS && CountBelow(status, 32) <= SLOTS
  }

  /** A read takes the reader's pending line, but it is the visible terminal's buffer that is cleared. */
  function Apply(w: World, e: Event, color: Byte): (r: World)
    requires ValidWorld(w) && Enabled(w, e)
    ensures ValidWorld(r)
  {
    match e
    case Print(t, ch) => w.(cons := w.cons[t := Output(w.cons[t], ch, color)])
    case Keyed(k) => w.(cons := w.cons[w.vis := Press(w.cons[w.vis], k, color)])
    case Switch(n, status) => if Switches(n, status) then w.(vis := n) else w
    case Read(t) =>
      if !w.cons[t].newLine then w
      else
        var taken := w.cons[t := w.cons[t].(newLine := false)];
        w.(cons := taken[w.vis := taken[w.vis].(buf := ClearBuffer(taken[w.vis].buf), idx := 0)])
  }

  /** `w` with one console replaced. */
  function With(w: World, t: nat, c: Console): (r: World)
    requires ValidWorld(w) && t < TERMS && ValidConsole(c)
    ensures ValidWorld(r)
  {
    w.(cons := w.cons[t := c])
  }

  /** A key press is a change of the key buffer followed by the echo of a character. */
  lemma PressIsChangeThenEcho(w: World, k: Key, c: Console, ch: Byte, color: Byte)
    requires ValidWorld(w) && Enabled(w, Keyed(k)) && ValidConsole(c)
    requires Press(w.cons[w.vis], k, color) == Output(c, ch, color)
    ensures Apply(With(w, w.vis, c), Print(w.vis, ch), color) == Apply(w, Keyed(k), color)
  {
  }

  lemma IgnoredKey(w: World, k: Key, color: Byte)
    requires ValidWorld(w) && Enabled(w, Keyed(k)) && Press(w.cons[w.vis], k, color) == w.cons[w.vis]
    ensures Apply(w, Keyed(k), color) == w
  {
  }

  /** The character is in the visible terminal's key buffer but not yet echoed. */
  function Stored(w: World, ch: Byte): (r: World)
    requires ValidWorld(w) && w.cons[w.vis].idx < KEY_BUF_SIZE - 1
    ensures ValidWorld(r)
  {
    var c := w.cons[w.vis];
    With(w, w.vis, c.(buf := c.buf[c.idx := ch], idx := c.idx + 1))
  }

  lemma CharIsStoreThenEcho(w: World, ch: Byte, color: Byte)
    requires ValidWorld(w) && ValidKey(Char(ch)) && ch != NUL && w.cons[w.vis].idx < KEY_BUF_SIZE - 1
    ensures Apply(Stored(w, ch), Print(w.vis, ch), color) == Apply(w, Keyed(Char(ch)), color)
  {
    PressIsChangeThenEcho(w, Char(ch), Stored(w, ch).cons[w.vis], ch, color);
  }

  function KeysCleared(w: World): (r: World)
    requires ValidWorld(w)
    ensures ValidWorld(r)
  {
    var c := w.cons[w.vis];
    With(w, w.vis, c.(buf := ClearBuffer(c.buf), idx := 0))
  }

  lemma CtrlLClearsBoth(w: World, color: Byte)
    requires ValidWorld(w)
    ensures KeysCleared(With(w, w.vis, w.cons[w.vis].(screen := BlankScreen(color)))) == Apply(w, Keyed(CtrlL), color)
  {
  }

  lemma ReadTakesThenClears(w: World, t: nat, color: Byte)
    requires ValidWorld(w) && t < TERMS && w.cons[t].newLine
    ensures KeysCleared(With(w, t, w.cons[t].(newLine := false))) == Apply(w, Read(t), color)
  {
  }

  lemma ReadOfVisible(w: World, color: Byte)
    requires ValidWorld(w) && w.cons[w.vis].newLine
    ensures Apply(w, Read(w.vis), color) == With(w, w.vis, AfterRead(w.cons[w.vis]))
  {
  }

  // ----- What each event does, field by field

  ghost predicate OnlyChanges(w: World, r: World, t: nat) {
    |r.cons| == |w.cons| == TERMS && forall u :: 0 <= u < TERMS && u != t ==> r.cons[u] == w.cons[u]
  }

  /** A character printed is shown on its terminal's screen; nothing else changes. */
  lemma PrintEffect(w: World, t: nat, ch: Byte, color: Byte)
    requires ValidWorld(w) && t < TERMS
    ensures var r := Apply(w, Print(t, ch), color);
            && OnlyChanges(w, r, t) && r.vis == w.vis && r.cons[t] == w.cons[t].(screen := r.cons[t].screen)
            && (ch == NEWLINE || ch == RETURN ==> NewlineShown(w.cons[t].screen, r.cons[t].screen, color))
            && (ch == BACKSPACE ==> RuboutShown(w.cons[t].screen, r.cons[t].screen, color))
            && (Printable(ch) ==> CharShown(w.cons[t].screen, r.cons[t].screen, ch, color))
  {
    var s := w.cons[t].screen;
    if ch == NEWLINE || ch == RETURN {
      NewlineIsShown(s, ch, color);
    } else if ch == BACKSPACE {
      RuboutIsShown(s, color);
    } else {
      CharIsShown(s, ch, color);
    }
  }

  /** A key is the visible terminal's alone. */
  lemma KeyEffect(w: World, k: Key, color: Byte)
    requires ValidWorld(w) && Enabled(w, Keyed(k))
    ensures var r := Apply(w, Keyed(k), color);
            && OnlyChanges(w, r, w.vis) && r.vis == w.vis && r.cons[w.vis] == Press(w.cons[w.vis], k, color)
  {
  }

  /** A switch shows another terminal if it is one of the three and no more than six slots are taken; no terminal changes. */
  lemma SwitchEffect(w: World, n: int, status: bv32, color: Byte)
    requires ValidWorld(w)
    ensures var r := Apply(w, Switch(n, status), color);
            r.cons == w.cons && r.vis == if (n == 0 || n == 1 || n == 2) && CountBelow(status, 32) <= 6 then n else w.vis
  {
  }

  /** A read of a pending line lowers the reader's flag and empties the visible terminal's buffer. */
  lemma ReadEffect(w: World, t: nat, color: Byte)
    requires ValidWorld(w) && t < TERMS
    ensures var r, c, v := Apply(w, Read(t), color), w.cons[t], w.cons[w.vis];
            && (!c.newLine ==> r == w)
            && (c.newLine ==>
                  && r.vis == w.vis && !r.cons[t].newLine && r.cons[t].screen == c.screen && r.cons[w.vis].screen == v.screen
                  && r.cons[w.vis].idx == 0 && r.cons[w.vis].buf == ClearBuffer(v.buf)
                  && (t != w.vis ==> r.cons[t] == c.(newLine := false) && r.cons[w.vis].newLine == v.newLine)
                  && forall u :: 0 <= u < TERMS && u != t && u != w.vis ==> r.cons[u] == w.cons[u])
  {
  }

  predicate CanRun(w: World, es: seq<Event>, color: Byte)
    requires ValidWorld(w)
    decreases es
  {
    es == [] || (Enabled(w, es[0]) && CanRun(Apply(w, es[0], color), es[1..], color))
  }

  function Run(w: World, es: seq<Event>, color: Byte): (r: World)
    requires ValidWorld(w) && CanRun(w, es, color)
    ensures ValidWorld(r)
    decreases es
  {
    if es == [] then w else Run(Apply(w, es[0], color), es[1..], color)
  }

  // ----- A terminal runs on its own but for reads elsewhere

  /** The events that are terminal `t`'s: its output and its reads, keys while it is visible, and switches. */
  predicate Own(vis: nat, e: Event, t: nat) {
    match e
    case Print(u, _) => u == t
    case Keyed(_) => vis == t
    case Switch(_, _) => true
    case Read(u) => u == t
  }

  /** Another terminal's pending line is read while `t` is visible and a line is in `t`'s buffer. */
  predicate Wipes(w: World, e: Event, t: nat)
    requires ValidWorld(w) && Enabled(w, e) && t < TERMS
  {
    && e.Read? && e.reader != t && w.cons[e.reader].newLine && w.vis == t
    && !(w.cons[t].idx == 0 && ClearBuffer(w.cons[t].buf) == w.cons[t].buf)
  }

  /** An event that is not its own changes a terminal if and only if it wipes the line in its buffer. */
  lemma OthersChangeExactly(w: World, e: Event, t: nat, color: Byte)
    requires ValidWorld(w) && Enabled(w, e) && t < TERMS && !Own(w.vis, e, t)
    ensures Apply(w, e, color).vis == w.vis
    ensures Apply(w, e, color).cons[t] == w.cons[t] <==> !Wipes(w, e, t)
    ensures Wipes(w, e, t) ==> Apply(w, e, color).cons[t] == w.cons[t].(buf := ClearBuffer(w.cons[t].buf), idx := 0)
  {
  }

  /** An event of its own does the same to a terminal whatever the others hold. */
  lemma OwnStep(w: World, v: World, e: Event, t: nat, color: Byte)
    requires ValidWorld(w) && ValidWorld(v) && v.vis == w.vis && t < TERMS && v.cons[t] == w.cons[t]
    requires Enabled(w, e) && Own(w.vis, e, t)
    ensures Enabled(v, e) && Apply(v, e, color).vis == Apply(w, e, color).vis
    ensures Apply(v, e, color).cons[t] == Apply(w, e, color).cons[t]
  {
  }

  /** No event of the run wipes the line in `t`'s buffer. */
  predicate Unwiped(w: World, es: seq<Event>, t: nat, color: Byte)
    requires ValidWorld(w) && CanRun(w, es, color) && t < TERMS
    decreases es
  {
    es == [] || (!Wipes(w, es[0], t) && Unwiped(Apply(w, es[0], color), es[1..], t, color))
  }

  /** The events of a run that are `t`'s own. */
  function OwnEvents(w: World, es: seq<Event>, t: nat, color: Byte): seq<Event>
    requires ValidWorld(w) && CanRun(w, es, color) && t < TERMS
    decreases es
  {
    if es == [] then []
    else (if Own(w.vis, es[0], t) then [es[0]] else []) + OwnEvents(Apply(w, es[0], color), es[1..], t, color)
  }

  predicate SameFor(w: World, v: World, t: nat) {
    ValidWorld(w) && ValidWorld(v) && t < TERMS && v.vis == w.vis && v.cons[t] == w.cons[t]
  }

  /**
   * Over every interleaving in which no read elsewhere wipes its line, a terminal ends as it would if only its own
   * events had happened, whatever the other terminals held.
   */
  lemma {:induction false} TerminalsAreIndependent(w: World, v: World, es: seq<Event>, t: nat, color: Byte)
    requires SameFor(w, v, t) && CanRun(w, es, color) && Unwiped(w, es, t, color)
    ensures var own := OwnEvents(w, es, t, color);
            CanRun(v, own, color) && SameFor(Run(w, es, color), Run(v, own, color), t)
    decreases es
  {
    if es != [] {
      var e, w', own := es[0], Apply(w, es[0], color), OwnEvents(w, es, t, color);
      if Own(w.vis, e, t) {
        OwnStep(w, v, e, t, color);
        TerminalsAreIndependent(w', Apply(v, e, color), es[1..], t, color);
        assert own[1..] == OwnEvents(w', es[1..], t, color);
      } else {
        OthersChangeExactly(w, e, t, color);
        TerminalsAreIndependent(w', v, es[1..], t, color);
        assert own == OwnEvents(w', es[1..], t, color);
      }
    }
  }

  // ----- No run without printed backspaces ever underflows the cursor row

  predicate RoomEverywhere(w: World) {
    ValidWorld(w) && forall t :: 0 <= t < TERMS ==> RoomBehind(w.cons[t])
  }

  predicate NoRubout(e: Event) {
    e.Print? ==> e.ch != BACKSPACE
  }

  lemma ApplyKeepsRoom(w: World, e: Event, color: Byte)
    requires RoomEverywhere(w) && ValidEvent(e) && NoRubout(e)
    ensures Enabled(w, e) && RoomEverywhere(Apply(w, e, color))
  {
    match e
    case Print(t, ch) => OutputKeepsRoom(w.cons[t], ch, color);
    case Keyed(k) => PressKeepsRoom(w.cons[w.vis], k, color);
    case Switch(_, _) =>
    case Read(_) =>
  }

  /** Possible events, among them no printed backspace. */
  predicate SafeEvents(es: seq<Event>) {
    forall i :: 0 <= i < |es| ==> ValidEvent(es[i]) && NoRubout(es[i])
  }

  lemma {:induction false} RunsKeepRoom(w: World, es: seq<Event>, color: Byte)
    requires RoomEverywhere(w) && SafeEvents(es)
    ensures CanRun(w, es, color) && RoomEverywhere(Run(w, es, color))
    decreases es
  {
    if es != [] {
      ApplyKeepsRoom(w, es[0], color);
      RunsKeepRoom(Apply(w, es[0], color), es[1..], color);
    }
  }

  lemma {:induction false} BackspaceEventsUnderflow(w: World, es: seq<Event>, color: Byte)
    requires ValidWorld(w) && !RoomBehind(w.cons[w.vis])
    requires es == Repeat(Keyed(Backspace), Position(w.cons[w.vis].screen) + 1)
    ensures !CanRun(w, es, color)
    decreases es
  {
    if CanErase(w.cons[w.vis]) {
      BackspaceWithoutRoom(w.cons[w.vis], color);
      BackspaceEventsUnderflow(Apply(w, es[0], color), es[1..], color);
    }
  }

  /** No run without printed backspaces underflows a cursor row if and only if there is room on every terminal. */
  lemma RunsAreSafeExactly(w: World, color: Byte)
    requires ValidWorld(w)
    ensures RoomEverywhere(w) <==> forall es: seq<Event> :: SafeEvents(es) ==> CanRun(w, es, color)
  {
    if RoomEverywhere(w) {
      forall es: seq<Event> | SafeEvents(es) ensures CanRun(w, es, color) {
        RunsKeepRoom(w, es, color);
      }
    } else {
      var t :| 0 <= t < TERMS && !RoomBehind(w.cons[t]);
      var w' := w.(vis := t);
      var presses := Repeat(Keyed(Backspace), Position(w.cons[t].screen) + 1);
      BackspaceEventsUnderflow(w', presses, color);
      var es := [Switch(t, 0)] + presses;
      NoBits(32);
      assert Apply(w, es[0], color) == w' && es[1..] == presses;
      assert SafeEvents(es) && !CanRun(w, es, color);
    }
  }

  /** One typed character and one printed backspace are enough to make the backspace key unsafe. */
  lemma PrintedBackspaceUnderflows(w: World, color: Byte)
    requires RoomEverywhere(w) && w.cons[w.vis].idx == 0 && w.cons[w.vis].screen.row == w.cons[w.vis].screen.col == 0
    ensures var es := [Keyed(Char(65)), Print(w.vis, BACKSPACE)];
            CanRun(w, es, color) && !Enabled(Run(w, es, color), Keyed(Backspace))
  {
    var e1, e2 := Keyed(Char(65)), Print(w.vis, BACKSPACE);
    var w1 := Apply(w, e1, color);
    var w2 := Apply(w1, e2, color);
    var es := [e1, e2];
    assert es[1..] == [e2] && [e2][1..] == [];
    assert CanRun(w2, [], color) && CanRun(w1, [e2], color) && Run(w1, [e2], color) == Run(w2, [], color) == w2;
  }

  // ----- What a read clears

  lemma ReadClearsReaderIffVisible(w: World, t: nat, color: Byte)
    requires ValidWorld(w) && t < TERMS && w.cons[t].newLine && w.cons[t].buf[0] != NUL
    ensures Apply(w, Read(t), color).cons[t].buf[0] == NUL <==> w.vis == t
  {
  }

  /** A pending line read on one terminal costs the visible one the character just typed there. */
  lemma HalfTypedLineIsLost(w: World, color: Byte)
    requires RoomEverywhere(w) && w.vis == 0 && w.cons[0].idx == 0 && w.cons[1].newLine
    ensures var typed, es := [Keyed(Char(65))], [Keyed(Char(65)), Read(1)];
            && CanRun(w, typed, color) && Run(w, typed, color).cons[0].idx == 1
            && CanRun(w, es, color) && Run(w, es, color).cons[0].idx == 0
  {
    var e1, e2 := Keyed(Char(65)), Read(1);
    var w1 := Apply(w, e1, color);
    var w2 := Apply(w1, e2, color);
    var es := [e1, e2];
    assert es[1..] == [e2] && [e1][1..] == [] == [e2][1..];
    assert CanRun(w1, [], color) && Run(w1, [], color) == w1;
    assert CanRun(w2, [], color) && CanRun(w1, [e2], color) && Run(w1, [e2], color) == Run(w2, [], color) == w2;
  }
}
