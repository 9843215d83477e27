/** Execute, halt and the timer tick over process control blocks and page tables (syscalls.c, pcb.c, timer.c). */
module Kernel {
  import opened Machine
  import opened Bitmap
  import opened Paging
  import opened Processes
  import T = Terminals
  import Worlds

  const END_OF_KERNEL_PAGE: Word32 := 0x800000
  const PCB_PLUS_STACK := 0x2000
  const PROGRAM_1_PHYS: Word32 := 0x800000
  const PROGRAM_VIRT: Word32 := 0x8000000

  // ----- The slot bitmap as a set

  ghost function UsedBelow(v: bv32, n: nat): set<nat> {
    set i: nat | i < n && BitAt(v, i)
  }

  lemma {:induction false} UsedCount(v: bv32, n: nat)
    ensures |UsedBelow(v, n)| == CountBelow(v, n)
  {
    if n == 0 {
      assert UsedBelow(v, 0) == {};
    } else {
      UsedCount(v, n - 1);
      assert UsedBelow(v, n) == UsedBelow(v, n - 1) + if BitAt(v, n - 1) then {n - 1} else {};
    }
  }

  lemma NoneUsed()
    ensures UsedBelow(0, 32) == {}
  {
    forall i: nat ensures !BitAt(0, i) {
      NoHit(OneShl(i));
    }
  }

  lemma UsedAfterSet(v: bv32, k: nat)
    requires k < 32
    ensures UsedBelow(SetBit(v, k), 32) == UsedBelow(v, 32) + {k}
  {
    forall i: nat | i < 32 ensures BitAt(SetBit(v, k), i) == (k == i || BitAt(v, i)) {
      SetAndClear(v, k, i);
    }
  }

  lemma UsedAfterClear(v: bv32, k: nat)
    requires k < 32
    ensures UsedBelow(ClearBit(v, k), 32) == UsedBelow(v, 32) - {k}
  {
    forall i: nat | i < 32 ensures BitAt(ClearBit(v, k), i) == (k != i && BitAt(v, i)) {
      SetAndClear(v, k, i);
    }
  }

  /** First fit over the bitmap is the least free slot, when there is one below 32. */
  lemma FirstFitIsLeastFree(v: bv32, k: nat)
    requires LeastClear(v, k) && LeastFree(UsedBelow(v, 32), 0) < 32
    ensures k == LeastFree(UsedBelow(v, 32), 0)
  {
    assert forall i: nat :: i < 32 ==> (i in UsedBelow(v, 32) <==> BitAt(v, i));
  }

  // ----- Where a slot's memory lies

  function FrameOf(slot: nat): Word32
    requires slot < SLOTS
  {
    PROGRAM_1_PHYS + slot * LARGE_PAGE
  }

  function PcbAddr(slot: nat): Word32
    requires slot < SLOTS
  {
    END_OF_KERNEL_PAGE - PCB_PLUS_STACK * (slot + 1)
  }

  function StackTop(slot: nat): Word32
    requires slot < SLOTS
  {
    END_OF_KERNEL_PAGE - slot * PCB_PLUS_STACK - 4
  }

  /** Every slot's kernel stack starts inside its own 8 KB area, and areas and 4 MB frames do not meet. */
  lemma SlotsAreDisjoint(a: nat, b: nat)
    requires a < SLOTS && b < SLOTS && a != b
    ensures PcbAddr(a) <= StackTop(a) && StackTop(a) + 4 == PcbAddr(a) + PCB_PLUS_STACK
    ensures PcbAddr(a) + PCB_PLUS_STACK <= PcbAddr(b) || PcbAddr(b) + PCB_PLUS_STACK <= PcbAddr(a)
    ensures FrameOf(a) + LARGE_PAGE <= FrameOf(b) || FrameOf(b) + LARGE_PAGE <= FrameOf(a)
    ensures END_OF_KERNEL_PAGE <= FrameOf(a)
  {
  }

  /** Frames follow the kernel page one behind the other; control blocks and stacks fill it from the top down. */
  lemma SlotLayout(a: nat)
    requires a < SLOTS
    ensures FrameOf(a) == 0x800000 + 0x400000 * a && FrameOf(a) % LARGE_PAGE == 0
    ensures KERNEL_ADDR <= PcbAddr(a) < StackTop(a) < KERNEL_ADDR + LARGE_PAGE
    ensures PcbAddr(a) + 0x2000 == (if a == 0 then KERNEL_ADDR + LARGE_PAGE else PcbAddr(a - 1))
  {
  }

  // ----- What the page tables say

  /** The program page resolves to the 4 MB frame at `frame`, offset for offset, and is the user's to write. */
  ghost predicate MapsProgram(t: Tables, frame: Word32)
    requires WellFormed(t) && frame < 0x1000_0000
  {
    forall a: Word32 :: PROGRAM_VIRT <= a < PROGRAM_VIRT + LARGE_PAGE ==>
      Translate(t, a) == Some(frame + (a - PROGRAM_VIRT)) && RightsAt(t, a) == USER_RIGHTS
  }

  predicate IsFixed(a: Word32) {
    || KERNEL_ADDR <= a < KERNEL_ADDR + LARGE_PAGE
    || VIDEO_ADDR <= a < VIDEO_ADDR + 4 * PAGE
    || TABLE_BASE <= a < TABLE_BASE + LARGE_PAGE
  }

  /** Kernel, video memory and page tables are mapped one to one, for the kernel only. */
  ghost predicate FixedMapped(t: Tables)
    requires WellFormed(t)
  {
    forall a: Word32 :: IsFixed(a) ==> Translate(t, a) == Some(a) && RightsAt(t, a) == KERNEL_RIGHTS
  }

  ghost predicate MapsVidmap(t: Tables, page: Word32)
    requires WellFormed(t) && page < 0x1000_0000
  {
    forall a: Word32 :: IsVidmap(a) ==> Translate(t, a) == Some(page + (a - VIDMAP_VIRT)) && RightsAt(t, a) == USER_RIGHTS
  }

  /** Where terminal `t` keeps its screen while `vis` is visible. */
  function ScreenPage(t: nat, vis: nat): (page: Word32)
    requires t < TERMS
    ensures 0 < page < 0x1000_0000 && page % PAGE == 0
  {
    VIDEO_ADDR + T.HomePage(t, vis)
  }

  /** The page that a terminal's vidmap shows holds that terminal's own screen, on the display or behind it. */
  lemma VidmapShowsOwnScreen(tty: T.Terminals, t: nat)
    requires tty.Layout() && t < TERMS
    ensures ScreenPage(t, tty.vis) == 0xB8000 + (if t == tty.vis then 0 else 0x1000 * (t + 1))
    ensures var at := ScreenPage(t, tty.vis) - 0xB8000;
            at + 4000 <= tty.mem.Length && tty.mem[at..at + 4000] == tty.View().cons[t].screen.cells
  {
    tty.ConsoleAt(t);
  }

  lemma ProgramRemapped(t: Tables, t': Tables, frame: Word32)
    requires WellFormed(t) && WellFormed(t') && FixedMapped(t) && frame < 0x1000_0000 && frame % LARGE_PAGE == 0
    requires Remaps(t, t', frame, PROGRAM_VIRT, true, true) && Grants(t, t', PROGRAM_VIRT, true, USER_RIGHTS, true)
    ensures FixedMapped(t') && MapsProgram(t', frame)
  {
  }

  lemma VidmapElsewhere(t: Tables, t': Tables, page: Word32, frame: Word32)
    requires WellFormed(t) && WellFormed(t') && FixedMapped(t) && page < 0x1000_0000 && page % PAGE == 0
    requires frame < 0x1000_0000 && MapsProgram(t, frame)
    requires Remaps(t, t', page, VIDMAP_VIRT, false, true) && Grants(t, t', VIDMAP_VIRT, false, USER_RIGHTS, true)
    ensures FixedMapped(t') && MapsProgram(t', frame)
  {
  }

  lemma VidmapRemapped(t: Tables, t': Tables, page: Word32, frame: Word32)
    requires WellFormed(t) && WellFormed(t') && FixedMapped(t) && page < 0x1000_0000 && page % PAGE == 0
    requires frame < 0x1000_0000 && MapsProgram(t, frame)
    requires Remaps(t, t', page, VIDMAP_VIRT, false, true) && Grants(t, t', VIDMAP_VIRT, false, USER_RIGHTS, true)
    ensures FixedMapped(t') && MapsProgram(t', frame) && MapsVidmap(t', page)
  {
    VidmapElsewhere(t, t', page, frame);
  }

  lemma BootIsFixed(t: Tables)
    requires WellFormed(t) && Boots(t, 4, true, true) && BootRights(t)
    ensures FixedMapped(t)
  {
  }

  // ----- Process control blocks linked into stacks

  /** The fields of pcb_t that scheduling uses; a task is known by its slot. */
  datatype Pcb = Pcb(parent: Option<nat>, termNum: nat, pageAddr: Word32, esp0: Word32, pcbNum: nat)

  predicate PcbOf(p: Pcb, slot: nat, term: nat, parent: Option<nat>) {
    slot < SLOTS && p.parent == parent && p.termNum == term && p.pcbNum == slot
    && p.pageAddr == FrameOf(slot) && p.esp0 == StackTop(slot)
  }

  /** The control block of the `i`th task of terminal `t`'s stack `k` points at the task below. */
  predicate LinkedAt(pcbs: seq<Pcb>, k: seq<nat>, t: nat, i: nat)
    requires |pcbs| == SLOTS && i < |k|
  {
    k[i] < SLOTS && PcbOf(pcbs[k[i]], k[i], t, Top(k[..i]))
  }

  /** The parent pointers of terminal `t`'s tasks lead from its top task down its stack `k`. */
  ghost predicate Linked(pcbs: seq<Pcb>, k: seq<nat>, t: nat) {
    |pcbs| == SLOTS && forall i :: 0 <= i < |k| ==> LinkedAt(pcbs, k, t, i)
  }

  ghost predicate AllLinked(pcbs: seq<Pcb>, tasks: seq<Option<nat>>, stacks: seq<seq<nat>>) {
    && |stacks| == TERMS && |tasks| == TERMS
    && Linked(pcbs, stacks[0], 0) && Linked(pcbs, stacks[1], 1) && Linked(pcbs, stacks[2], 2)
    && tasks[0] == Top(stacks[0]) && tasks[1] == Top(stacks[1]) && tasks[2] == Top(stacks[2])
  }

  /** Writing a slot that is on no stack disturbs no links. */
  lemma LinkedElsewhere(pcbs: seq<Pcb>, k: seq<nat>, t: nat, f: nat, p: Pcb)
    requires Linked(pcbs, k, t) && f < SLOTS && f !in k
    ensures Linked(pcbs[f := p], k, t)
  {
    var now := pcbs[f := p];
    forall i | 0 <= i < |k| ensures LinkedAt(now, k, t, i) {
      assert LinkedAt(pcbs, k, t, i);
    }
  }

  lemma LinkedPush(pcbs: seq<Pcb>, k: seq<nat>, t: nat, f: nat, p: Pcb)
    requires Linked(pcbs, k, t) && f < SLOTS && f !in k && PcbOf(p, f, t, Top(k))
    ensures Linked(pcbs[f := p], k + [f], t) && Top(k + [f]) == Some(f)
  {
    var now, pushed := pcbs[f := p], k + [f];
    forall i | 0 <= i < |k| ensures LinkedAt(now, pushed, t, i) {
      assert LinkedAt(pcbs, k, t, i) && pushed[..i] == k[..i];
    }
    assert pushed[..|k|] == k;
  }

  lemma LinkedPop(pcbs: seq<Pcb>, k: seq<nat>, t: nat)
    requires Linked(pcbs, k, t) && k != []
    ensures LinkedAt(pcbs, k, t, |k| - 1)
    ensures Linked(pcbs, k[..|k| - 1], t) && pcbs[k[|k| - 1]].parent == Top(k[..|k| - 1])
  {
    var rest := k[..|k| - 1];
    forall i | 0 <= i < |k| - 1 ensures LinkedAt(pcbs, rest, t, i) {
      assert LinkedAt(pcbs, k, t, i) && rest[..i] == k[..i];
    }
    assert LinkedAt(pcbs, k, t, |k| - 1);
  }

  /** The command becomes a new task. */
  predicate Starts(s: State, load: Load) {
    HasRoom(s) && load.Program?
  }

  function WithTask(s: State, f: nat): State
    requires |s.stacks| == TERMS && s.sched < TERMS && s.vis < TERMS
  {
    s.(stacks := if s.newShell then s.stacks[s.sched := [f]] else s.stacks[s.vis := s.stacks[s.vis] + [f]])
  }

  /** What a step shows: a terminal switch changes which terminal is visible, other steps nothing. */
  function Shown(w: Worlds.World, step: Step): Worlds.World {
    if step.Show? && 0 <= step.term < TERMS then w.(vis := step.term) else w
  }

  // ----- Processes and terminals together

  /** A step of the processes, or an event on the terminals other than a switch. */
  datatype Happening = Proc(step: Step) | Io(event: Worlds.Event)

  predicate NoSwitches(hs: seq<Happening>) {
    forall i :: 0 <= i < |hs| ==> (hs[i].Io? ==> !hs[i].event.Switch?)
  }

  function StepsOf(hs: seq<Happening>): seq<Step> {
    if hs == [] then [] else (if hs[0].Proc? then [hs[0].step] else []) + StepsOf(hs[1..])
  }

  /** The events the terminals see. */
  function EventsOf(hs: seq<Happening>): seq<Worlds.Event> {
    if hs == [] then []
    else (match hs[0]
          case Io(e) => [e]
          case Proc(Show(n)) => [Worlds.Switch(n, 0)]
          case Proc(_) => []) + EventsOf(hs[1..])
  }

  lemma ShowIsSwitch(w: Worlds.World, step: Step, color: Byte)
    requires Worlds.ValidWorld(w) && step.Show?
    ensures Worlds.Apply(w, Worlds.Switch(step.term, 0), color) == Shown(w, step)
  {
    NoBits(32);
  }

  class Kernel {
    const pages: PageTables
    const tty: T.Terminals
    var pcbStatus: bv32
    var pcbs: seq<Pcb>
    /** The current task of each terminal. */
    var tasks: seq<Option<nat>>
    var curPcb: Option<nat>
    var sched: nat
    var startingNewShell: bool
    var tssEsp0: Word32
    ghost var stacks: seq<seq<nat>>

    ghost function View(): State
      reads this, tty
    {
      State(stacks, UsedBelow(pcbStatus, 32), sched, tty.vis, startingNewShell)
    }

    ghost predicate Mapped()
      reads pages.dir, pages.area
    {
      pages.Valid() && FixedMapped(pages.View())
    }

    /** Slots, control blocks and stacks agree. */
    ghost predicate Tasked()
      reads this, tty
    {
      Inv(View()) && AllLinked(pcbs, tasks, stacks)
    }

    /** The kernel stack and the program page in force are those of `slot`. */
    ghost predicate Runs(slot: nat)
      requires pages.Valid()
      reads this, pages.dir, pages.area
    {
      slot < SLOTS && tssEsp0 == StackTop(slot) && MapsProgram(pages.View(), FrameOf(slot))
    }

    ghost predicate Valid()
      reads this, pages.dir, pages.area, tty
    {
      Mapped() && Tasked() && curPcb == tasks[sched] == Current(View()) && (curPcb.Some? ==> Runs(curPcb.value))
    }

    /** Booted and paged, with no task on any terminal yet; the timer will start the shells. */
    constructor (pages: PageTables, tty: T.Terminals)
      requires pages.Valid() && Boots(pages.View(), 4, true, true) && BootRights(pages.View()) && tty.vis < TERMS
      ensures Valid() && this.pages == pages && this.tty == tty
      ensures View() == State([[], [], []], {}, 0, tty.vis, false)
    {
      this.pages := pages;
      this.tty := tty;
      pcbStatus := 0;
      pcbs := seq(SLOTS, _ => Pcb(None, 0, 0, 0, 0));
      tasks := [None, None, None];
      curPcb := None;
      sched := 0;
      startingNewShell := false;
      tssEsp0 := END_OF_KERNEL_PAGE;
      stacks := [[], [], []];
      new;
      BootIsFixed(pages.View());
      NoneUsed();
    }

    method MapProgram(frame: Word32)
      requires Mapped()
      requires 0 < frame < 0x1000_0000 && frame % LARGE_PAGE == 0
      modifies pages.dir, pages.area
      ensures Mapped() && MapsProgram(pages.View(), frame)
    {
      ghost var t := pages.View();
      var r := pages.MapPage(frame, PROGRAM_VIRT, true, true, true, true);
      ProgramRemapped(t, pages.View(), frame);
    }

    /** init_pcb: takes the least free slot; the slot's old contents belong to no task. */
    method InitPcb() returns (f: nat)
      requires Tasked() && HasRoom(View())
      modifies this`pcbStatus, this`pcbs
      ensures f == LeastFree(old(View()).used, 0) < SLOTS
      ensures Tasked() && View() == old(View()).(used := old(View()).used + {f})
      ensures f !in Tasks(View()) && pcbs[f].pcbNum == f
    {
      FreeSlotExists(View().used);
      f, pcbStatus := FindEmptyPcb(pcbStatus);
      FirstFitIsLeastFree(old(pcbStatus), f);
      UsedAfterSet(old(pcbStatus), f);
      LeakKeepsInv(old(View()), f);
      pcbs := pcbs[f := pcbs[f].(pcbNum := f)];
      UnlinkedWritten(old(pcbs), tasks, old(View()), f, pcbs[f]);
    }

    /** The task of slot `f` becomes the current task of terminal `t`, above the stack `below`. */
    method LinkTask(f: nat, t: nat, parent: Option<nat>, ghost below: seq<nat>)
      requires Tasked() && f < SLOTS && f in View().used && f !in Tasks(View()) && t < TERMS
      requires (below == stacks[t] || below == []) && parent == Top(below)
      modifies this`pcbs, this`tasks, this`curPcb, this`stacks
      ensures Tasked() && View() == old(View()).(stacks := old(stacks)[t := below + [f]])
      ensures curPcb == Some(f) && tasks == old(tasks)[t := Some(f)]
    {
      var pcb := Pcb(parent, t, FrameOf(f), StackTop(f), f);
      ghost var s := View();
      LinkedInv(s, f, t, below);
      LinkStacks(pcbs, tasks, s, f, t, pcb, below);
      pcbs := pcbs[f := pcb];
      tasks := tasks[t := Some(f)];
      stacks := stacks[t := below + [f]];
      curPcb := Some(f);
      assert View() == s.(stacks := s.stacks[t := below + [f]]);
    }

    /** A regular program's parent is the visible terminal's current task; a new shell has none. */
    method LinkNew(f: nat)
      requires Tasked() && f < SLOTS && f in View().used && f !in Tasks(View())
      requires !startingNewShell ==> tasks[tty.vis].Some?
      modifies this`pcbs, this`tasks, this`curPcb, this`stacks
      ensures Tasked() && View() == WithTask(old(View()), f)
      ensures curPcb == Some(f) && (curPcb == tasks[sched] <==> startingNewShell || tty.vis == sched)
    {
      if !startingNewShell {
        NotCurrent(pcbs, tasks, View(), f, sched);
        NotCurrent(pcbs, tasks, View(), f, tty.vis);
        LinkTask(f, tty.vis, tasks[tty.vis], stacks[tty.vis]);
      } else {
        assert [] + [f] == [f];
        LinkTask(f, sched, None, []);
      }
    }

    /** The part of sys_execute that sets up paging, the new control block and the switch to it. */
    method StartProgram(f: nat)
      requires Mapped() && Tasked() && f < SLOTS && f in View().used && f !in Tasks(View())
      requires !startingNewShell ==> tasks[tty.vis].Some?
      modifies this`pcbs, this`tasks, this`curPcb, this`stacks, this`tssEsp0, pages.dir, pages.area
      ensures Mapped() && Tasked() && View() == WithTask(old(View()), f)
      ensures curPcb == Some(f) && (curPcb == tasks[sched] <==> startingNewShell || tty.vis == sched)
      ensures Runs(f)
    {
      MapProgram(FrameOf(f));
      tssEsp0 := StackTop(f);
      LinkNew(f);
    }

    /** sys_execute up to the switch to the new program; `load` is what the file system knows of the command. */
    method SysExecute(load: Load) returns (ret: int)
      requires Mapped() && Tasked() && (!startingNewShell ==> tasks[tty.vis].Some?)
      modifies this, pages.dir, pages.area
      ensures Mapped() && Tasked() && View() == Start(old(View()), load)
      ensures Starts(old(View()), load) ==> curPcb == Some(LeastFree(old(View()).used, 0)) && Runs(curPcb.value)
      ensures Starts(old(View()), load) ==> (curPcb == tasks[sched] <==> startingNewShell || tty.vis == sched)
      ensures !Starts(old(View()), load) ==>
        curPcb == old(curPcb) && tasks == old(tasks) && tssEsp0 == old(tssEsp0) && pages.View() == old(pages.View())
      ensures !Starts(old(View()), load) ==> ret == if HasRoom(old(View())) then -1 else 0
    {
      UsedCount(pcbStatus, 32);
      AtMostSix(View().used);
      var taken := SlotsTaken(pcbStatus);
      if taken == SLOTS {
        return 0;
      }
      if load.NoFile? {
        return -1;
      }
      var f := InitPcb();
      if load.NotElf? {
        return -1;
      }
      StartProgram(f);
      ret := 0;
    }

    /** Clears the bit of the slot whose control block is at the address of `cur`'s. */
    method FreeSlot(cur: nat)
      requires cur < SLOTS
      modifies this`pcbStatus
      ensures UsedBelow(pcbStatus, 32) == old(UsedBelow(pcbStatus, 32)) - {cur}
    {
      var offset := (END_OF_KERNEL_PAGE - PcbAddr(cur)) / PCB_PLUS_STACK;
      assert offset == cur + 1;
      UsedAfterClear(pcbStatus, cur);
      pcbStatus := ClearBit(pcbStatus, offset - 1);
    }

    /** The part of sys_halt that frees the slot and goes back to the parent. */
    method UnlinkTask(cur: nat)
      requires Tasked() && Current(View()) == Some(cur) && cur < SLOTS
      modifies this`pcbStatus, this`tasks, this`curPcb, this`stacks
      ensures Tasked() && View() == Pop(old(View()))
      ensures curPcb == tasks[sched] == Current(View()) == pcbs[cur].parent
    {
      ghost var s, rest := View(), stacks[sched][..|stacks[sched]| - 1];
      ghost var r := Pop(s);
      assert Inv(r) by {
        PopKeepsInv(s);
      }
      UnlinkStacks(pcbs, tasks, s, cur, rest);
      FreeSlot(cur);
      tasks := tasks[sched := pcbs[cur].parent];
      curPcb := pcbs[cur].parent;
      stacks := stacks[sched := rest];
      assert stacks == r.stacks && UsedBelow(pcbStatus, 32) == r.used;
      assert View() == r;
    }

    /** Remaps to the parent's page, if any, and goes back to the parent. */
    method BackToParent(cur: nat)
      requires Mapped() && Tasked() && Current(View()) == Some(cur)
      modifies this`pcbStatus, this`tasks, this`curPcb, this`stacks, pages.dir, pages.area
      ensures Mapped() && Tasked() && View() == Pop(old(View())) && curPcb == tasks[sched] == Current(View())
      ensures curPcb.Some? ==> && curPcb.value < SLOTS && pcbs[curPcb.value].esp0 == StackTop(curPcb.value)
                               && MapsProgram(pages.View(), FrameOf(curPcb.value))
    {
      CurrentLinked(pcbs, tasks, View(), cur);
      var parent := pcbs[cur].parent;
      if parent.Some? {
        MapProgram(pcbs[parent.value].pageAddr);
      } else {
        MapProgram(PROGRAM_1_PHYS + pcbs[cur].termNum * LARGE_PAGE);
      }
      UnlinkTask(cur);
    }

    /** Starts a shell on the scheduled terminal, which has no task; if that fails it stays without. */
    method StartShell(shell: Load)
      requires Mapped() && Tasked() && curPcb == tasks[sched] == Current(View()) == None
      modifies this, pages.dir, pages.area
      ensures Valid() && View() == Start(old(View()).(newShell := true), shell)
    {
      startingNewShell := true;
      var r := SysExecute(shell);
    }

    method SysHalt(shell: Load)
      requires Valid() && curPcb.Some?
      modifies this, pages.dir, pages.area
      ensures Valid() && View() == Stop(old(View()), shell) && (shell.Program? ==> curPcb.Some?)
    {
      ghost var f := HaltEffect(View(), shell);
      BackToParent(curPcb.value);
      if curPcb.Some? {
        tssEsp0 := pcbs[curPcb.value].esp0;
      } else {
        StartShell(shell);
      }
    }

    /** Maps the vidmap page to the screen page of the scheduled terminal. */
    method MapVidmap(page: Word32, ghost frame: Word32)
      requires Mapped() && 0 < page < 0x1000_0000 && page % PAGE == 0
      requires frame < 0x1000_0000 && MapsProgram(pages.View(), frame)
      modifies pages.dir, pages.area
      ensures Mapped() && MapsProgram(pages.View(), frame) && MapsVidmap(pages.View(), page)
    {
      ghost var t := pages.View();
      var r := pages.MapPage(page, VIDMAP_VIRT, false, true, true, true);
      VidmapRemapped(t, pages.View(), page, frame);
    }

    /** switch_tasks to a terminal that has a task. */
    method Resume(slot: nat, page: Word32)
      requires Mapped() && slot < SLOTS && |pcbs| == SLOTS
      requires pcbs[slot].pageAddr == FrameOf(slot) && pcbs[slot].esp0 == StackTop(slot)
      requires 0 < page < 0x1000_0000 && page % PAGE == 0
      modifies this`tssEsp0, pages.dir, pages.area
      ensures Mapped() && Runs(slot) && MapsVidmap(pages.View(), page)
    {
      MapProgram(pcbs[slot].pageAddr);
      MapVidmap(page, FrameOf(slot));
      tssEsp0 := pcbs[slot].esp0;
    }

    /** The next terminal's current task becomes cur_pcb. */
    method Advance()
      requires Mapped() && Tasked()
      modifies this`sched, this`curPcb
      ensures sched == (old(sched) + 1) % TERMS
      ensures Mapped() && Tasked() && View() == old(View()).(sched := sched) && curPcb == tasks[sched] == Current(View())
    {
      sched := (sched + 1) % TERMS;
      curPcb := tasks[sched];
      assert View() == old(View()).(sched := sched);
    }

    method VidMemOf(t: nat) returns (page: Word32)
      requires tty.Layout() && t < TERMS
      ensures page == ScreenPage(t, tty.vis)
    {
      page := VIDEO_ADDR + tty.terms[t].vidMem;
    }

    /** switch_tasks to a terminal that has a task. */
    method ResumeCurrent(slot: nat, page: Word32)
      requires Mapped() && Tasked() && curPcb == tasks[sched] == Current(View()) == Some(slot)
      requires 0 < page < 0x1000_0000 && page % PAGE == 0
      modifies this`startingNewShell, this`tssEsp0, pages.dir, pages.area
      ensures Valid() && View() == old(View()).(newShell := false)
      ensures MapsVidmap(pages.View(), page)
    {
      CurrentLinked(pcbs, tasks, View(), slot);
      LowerFlag();
      Resume(slot, page);
    }

    method LowerFlag()
      requires Tasked()
      modifies this`startingNewShell
      ensures Tasked() && View() == old(View()).(newShell := false)
    {
      startingNewShell := false;
      assert View() == old(View()).(newShell := false);
    }

    method TickToTask(t: nat, page: Word32)
      requires Valid() && t == (sched + 1) % TERMS && tasks[t].Some?
      requires 0 < page < 0x1000_0000 && page % PAGE == 0
      modifies this, pages.dir, pages.area
      ensures Valid() && View() == old(View()).(sched := t, newShell := false)
      ensures MapsVidmap(pages.View(), page)
    {
      Advance();
      ResumeCurrent(curPcb.value, page);
    }

    method TickToScreen(t: nat)
      requires Valid() && tty.Layout() && t == (sched + 1) % TERMS && tasks[t].Some?
      modifies this, pages.dir, pages.area
      ensures Valid() && View() == old(View()).(sched := t, newShell := false)
      ensures MapsVidmap(pages.View(), ScreenPage(t, tty.vis))
    {
      var page := VidMemOf(t);
      TickToTask(t, page);
    }

    method TickToShell(t: nat, shell: Load)
      requires Valid() && t == (sched + 1) % TERMS && tasks[t].None?
      modifies this, pages.dir, pages.area
      ensures Valid() && View() == Start(old(View()).(sched := t, newShell := true), shell)
    {
      Advance();
      StartShell(shell);
    }

    /** The timer interrupt; after a switch to a task the vidmap page shows that terminal's own screen. */
    method PitInterrupt(shell: Load)
      requires Valid() && tty.Layout()
      modifies this, pages.dir, pages.area
      ensures Valid() && View() == Next(old(View()), shell)
      ensures old(tasks[(sched + 1) % TERMS]).Some? ==> MapsVidmap(pages.View(), ScreenPage(sched, tty.vis))
    {
      NextSplits(View(), tasks, pcbs, shell);
      var t := (sched + 1) % TERMS;
      if tasks[t].None? {
        TickToShell(t, shell);
      } else {
        TickToScreen(t);
      }
    }

    method SwitchTerminal(n: int)
      requires Valid() && tty.Valid()
      modifies tty, tty.mem
      ensures Valid() && tty.Valid() && View() == Do(old(View()), Show(n)) && tty.View() == Shown(old(tty.View()), Show(n))
    {
      assert CountBelow(pcbStatus, 32) <= SLOTS by {
        UsedCount(pcbStatus, 32);
        AtMostSix(View().used);
      }
      tty.SwitchTerminal(n, pcbStatus);
      assert View() == Do(old(View()), Show(n));
    }

    /** A call of sys_execute by the running task. */
    method ExecuteCommand(load: Load)
      requires Valid() && Admissible(View(), Execute(load))
      modifies this, pages.dir, pages.area
      ensures Valid() && View() == Do(old(View()), Execute(load))
    {
      var r := SysExecute(load);
    }

    method PerformTask(step: Step)
      requires Valid() && tty.Valid() && Admissible(View(), step) && !step.Show?
      modifies this, pages.dir, pages.area
      ensures Valid() && View() == Do(old(View()), step)
    {
      match step
      case Execute(load) => ExecuteCommand(load);
      case Halt(shell) => SysHalt(shell);
      case Tick(shell) => PitInterrupt(shell);
    }

    method Perform(step: Step)
      requires Valid() && tty.Valid() && Admissible(View(), step)
      modifies this, pages.dir, pages.area, tty, tty.mem
      ensures Valid() && tty.Valid() && View() == Do(old(View()), step) && tty.View() == Shown(old(tty.View()), step)
    {
      if step.Show? {
        SwitchTerminal(step.term);
      } else {
        PerformTask(step);
      }
    }

    /** Output, keys and reads on the terminals disturb no process. */
    method HandleIo(e: Worlds.Event)
      requires Valid() && tty.Valid() && Worlds.Enabled(tty.View(), e) && !e.Switch?
      modifies tty, tty.mem
      ensures Valid() && tty.Valid() && View() == old(View())
      ensures tty.View() == Worlds.Apply(old(tty.View()), e, tty.color)
    {
      tty.Handle(e);
      assert View() == old(View());
    }

    /** The slots and stacks determine the rest of what a running task depends on. */
    twostate lemma SameView()
      requires old(Valid()) && Valid() && View() == old(View()) && curPcb.Some?
      ensures curPcb == old(curPcb) && tasks == old(tasks) && tssEsp0 == old(tssEsp0)
      ensures forall a: Word32 :: PROGRAM_VIRT <= a < PROGRAM_VIRT + LARGE_PAGE ==>
        Translate(pages.View(), a) == old(Translate(pages.View(), a))
    {
      assert tasks == [tasks[0], tasks[1], tasks[2]];
      assert old(tasks) == [old(tasks[0]), old(tasks[1]), old(tasks[2])];
    }

    method ExecuteRegular()
      requires Valid() && Regular(View()) && HasRoom(View())
      modifies this, pages.dir, pages.area
      ensures Valid() && Regular(View()) && View() == Do(old(View()), Execute(Program))
    {
      ExecuteStarts(View());
      ExecuteCommand(Program);
    }

    method RunProgram(c: Call)
      requires Valid() && Regular(View()) && HasRoom(View()) && c.load.Program?
      modifies this, pages.dir, pages.area
      ensures Valid() && View() == RunCall(old(View()), c)
      decreases c, 1
    {
      ExecuteRegular();
      RunBody(c);
      SysHalt(Program);
    }

    /** A whole command: execute it and, if it starts, let it run its own commands and halt. */
    method RunCommand(c: Call)
      requires Valid() && Regular(View())
      modifies this, pages.dir, pages.area
      ensures Valid() && View() == RunCall(old(View()), c)
      decreases c, 2
    {
      UsedCount(pcbStatus, 32);
      var taken := SlotsTaken(pcbStatus);
      if taken < SLOTS && c.load.Program? {
        RunProgram(c);
      } else {
        ExecuteCommand(c.load);
      }
    }

    method RunBody(c: Call)
      requires Valid() && Regular(View())
      modifies this, pages.dir, pages.area
      ensures Valid() && View() == RunCalls(old(View()), c, 0)
      decreases c, 0
    {
      ghost var s := View();
      var i := 0;
      while i < |c.body|
        invariant 0 <= i <= |c.body| && Valid() && Regular(View())
        invariant RunCalls(View(), c, i) == RunCalls(s, c, 0)
      {
        RunCommand(c.body[i]);
        i := i + 1;
      }
    }

    /** After a command that leaks no slot, the caller finds everything as it was before. */
    method RunAndReturn(c: Call)
      requires Valid() && Regular(View()) && Leakless(c)
      modifies this, pages.dir, pages.area
      ensures Valid() && View() == old(View())
      ensures curPcb == old(curPcb) && tasks == old(tasks) && tssEsp0 == old(tssEsp0)
      ensures forall a: Word32 :: PROGRAM_VIRT <= a < PROGRAM_VIRT + LARGE_PAGE ==>
        Translate(pages.View(), a) == old(Translate(pages.View(), a))
    {
      RunCommand(c);
      SameView();
    }

    /** Every run leaves cur_pcb, kernel stack and program page with the scheduled terminal's task. */
    method PerformAll(steps: seq<Step>)
      requires Valid() && tty.Valid() && CanDoAll(View(), steps)
      modifies this, pages.dir, pages.area, tty, tty.mem
      ensures Valid() && tty.Valid() && View() == DoAll(old(View()), steps)
    {
      ghost var s := View();
      var i := 0;
      while i < |steps|
        invariant 0 <= i <= |steps| && Valid() && tty.Valid()
        invariant CanDoAll(View(), steps[i..]) && DoAll(View(), steps[i..]) == DoAll(s, steps)
      {
        assert steps[i..][1..] == steps[i + 1..];
        Perform(steps[i]);
        i := i + 1;
      }
    }

    method PerformOne(h: Happening)
      requires Valid() && tty.Valid()
      requires match h case Proc(step) => Admissible(View(), step)
                       case Io(e) => Worlds.Enabled(tty.View(), e) && !e.Switch?
      modifies this, pages.dir, pages.area, tty, tty.mem
      ensures Valid() && tty.Valid()
      ensures View() == if h.Proc? then Do(old(View()), h.step) else old(View())
      ensures tty.View() == if h.Proc? then Shown(old(tty.View()), h.step) else Worlds.Apply(old(tty.View()), h.event, tty.color)
    {
      match h
      case Proc(step) => Perform(step);
      case Io(e) => HandleIo(e);
    }

    /** Every interleaving of process steps and terminal events: neither side disturbs the other. */
    method PerformMixed(hs: seq<Happening>)
      requires Valid() && tty.Valid() && NoSwitches(hs)
      requires CanDoAll(View(), StepsOf(hs)) && Worlds.CanRun(tty.View(), EventsOf(hs), tty.color)
      modifies this, pages.dir, pages.area, tty, tty.mem
      ensures Valid() && tty.Valid() && View() == DoAll(old(View()), StepsOf(hs))
      ensures tty.View() == Worlds.Run(old(tty.View()), EventsOf(hs), tty.color)
      decreases hs
    {
      if hs != [] {
        hide Do, Worlds.Apply;
        ghost var s, w := FirstOfMixed(View(), tty.View(), hs, tty.color);
        PerformOne(hs[0]);
        assert View() == s && tty.View() == w;
        PerformMixed(hs[1..]);
      }
    }
  }

  /** The first happening is the first step, or the first event, or both. */
  lemma FirstHappening(hs: seq<Happening>, w: Worlds.World, color: Byte)
    requires hs != [] && Worlds.ValidWorld(w)
    ensures var h, steps, events, rest := hs[0], StepsOf(hs), EventsOf(hs), hs[1..];
            && (h.Proc? ==> steps != [] && steps[0] == h.step && steps[1..] == StepsOf(rest))
            && (h.Io? ==> steps == StepsOf(rest) && events != [] && events[0] == h.event && events[1..] == EventsOf(rest))
            && (h.Proc? && !h.step.Show? ==> events == EventsOf(rest))
            && (h.Proc? && h.step.Show? ==>
                  && events != [] && events[0].Switch? && events[1..] == EventsOf(rest)
                  && Worlds.Apply(w, events[0], color) == Shown(w, h.step))
  {
    if hs[0].Proc? && hs[0].step.Show? {
      ShowIsSwitch(w, hs[0].step, color);
    }
  }

  /** The first happening of a mixed run, and the run behind it. */
  lemma FirstOfMixed(s: State, w: Worlds.World, hs: seq<Happening>, color: Byte) returns (s': State, w': Worlds.World)
    requires Inv(s) && Worlds.ValidWorld(w) && hs != [] && NoSwitches(hs)
    requires CanDoAll(s, StepsOf(hs)) && Worlds.CanRun(w, EventsOf(hs), color)
    ensures hs[0].Proc? ==> Admissible(s, hs[0].step) && s' == Do(s, hs[0].step) && w' == Shown(w, hs[0].step)
    ensures hs[0].Io? ==>
      Worlds.Enabled(w, hs[0].event) && !hs[0].event.Switch? && s' == s && w' == Worlds.Apply(w, hs[0].event, color)
    ensures Inv(s') && CanDoAll(s', StepsOf(hs[1..])) && DoAll(s', StepsOf(hs[1..])) == DoAll(s, StepsOf(hs))
    ensures Worlds.ValidWorld(w') && Worlds.CanRun(w', EventsOf(hs[1..]), color)
    ensures Worlds.Run(w', EventsOf(hs[1..]), color) == Worlds.Run(w, EventsOf(hs), color)
  {
    FirstHappening(hs, w, color);
    if hs[0].Proc? {
      StepKeepsInv(s, hs[0].step);
      s', w' := Do(s, hs[0].step), Shown(w, hs[0].step);
    } else {
      s', w' := s, Worlds.Apply(w, hs[0].event, color);
    }
  }

  method BootPages() returns (pages: PageTables)
    ensures fresh(pages) && fresh(pages.dir) && fresh(pages.area)
    ensures pages.Valid() && Boots(pages.View(), 4, true, true) && BootRights(pages.View())
  {
    pages := new PageTables();
    pages.PagingInit();
  }

  /** A booted machine: paging on, three empty terminals, no task yet. */
  method Boot(color: Byte) returns (k: Kernel)
    ensures fresh(k) && k.Valid() && k.tty.Valid() && k.View() == State([[], [], []], {}, 0, 0, false)
    ensures Worlds.RoomEverywhere(k.tty.View())
  {
    var tty := new T.Terminals(color);
    var pages := BootPages();
    k := new Kernel(pages, tty);
  }

  lemma NextSplits(s: State, tasks: seq<Option<nat>>, pcbs: seq<Pcb>, shell: Load)
    requires AllLinked(pcbs, tasks, s.stacks) && s.sched < TERMS && s.vis < TERMS
    ensures var t := (s.sched + 1) % TERMS;
            Next(s, shell) == if tasks[t].None? then Start(s.(sched := t, newShell := true), shell)
                              else s.(sched := t, newShell := false)
  {
  }

  /** The running task's control block and its parent's, as far as halt relies on them. */
  lemma CurrentLinked(pcbs: seq<Pcb>, tasks: seq<Option<nat>>, s: State, cur: nat)
    requires AllLinked(pcbs, tasks, s.stacks) && s.sched < TERMS && Current(s) == Some(cur)
    ensures cur < SLOTS && pcbs[cur].termNum == s.sched
    ensures pcbs[cur].pageAddr == FrameOf(cur) && pcbs[cur].esp0 == StackTop(cur)
    ensures var k, parent := s.stacks[s.sched], pcbs[cur].parent;
            && parent == Top(k[..|k| - 1]) && (parent.None? <==> |k| == 1)
            && (parent.Some? ==> parent.value < SLOTS && pcbs[parent.value].pageAddr == FrameOf(parent.value)
                                 && pcbs[parent.value].esp0 == StackTop(parent.value))
  {
    var k := s.stacks[s.sched];
    assert Linked(pcbs, k, s.sched);
    assert LinkedAt(pcbs, k, s.sched, |k| - 1);
    if |k| > 1 {
      assert LinkedAt(pcbs, k, s.sched, |k| - 2);
    }
  }

  lemma UnlinkStacks(pcbs: seq<Pcb>, tasks: seq<Option<nat>>, s: State, cur: nat, rest: seq<nat>)
    requires AllLinked(pcbs, tasks, s.stacks) && s.sched < TERMS && Current(s) == Some(cur) && cur < SLOTS
    requires rest == s.stacks[s.sched][..|s.stacks[s.sched]| - 1]
    ensures pcbs[cur].parent == Top(rest)
    ensures AllLinked(pcbs, tasks[s.sched := pcbs[cur].parent], s.stacks[s.sched := rest])
  {
    LinkedPop(pcbs, s.stacks[s.sched], s.sched);
  }

  /** A slot on no stack is no terminal's current task. */
  lemma NotCurrent(pcbs: seq<Pcb>, tasks: seq<Option<nat>>, s: State, f: nat, t: nat)
    requires AllLinked(pcbs, tasks, s.stacks) && f !in Tasks(s) && t < TERMS
    ensures tasks[t] != Some(f) && tasks[t] == Top(s.stacks[t])
  {
    NotOnStack(s, f);
  }

  lemma NotOnStack(s: State, f: nat)
    requires |s.stacks| == TERMS && f !in Tasks(s)
    ensures f !in s.stacks[0] && f !in s.stacks[1] && f !in s.stacks[2]
  {
    assert f !in Elems(s.stacks[0]) && f !in Elems(s.stacks[1]) && f !in Elems(s.stacks[2]);
  }

  lemma UnlinkedWritten(pcbs: seq<Pcb>, tasks: seq<Option<nat>>, s: State, f: nat, p: Pcb)
    requires AllLinked(pcbs, tasks, s.stacks) && f < SLOTS && f !in Tasks(s)
    ensures AllLinked(pcbs[f := p], tasks, s.stacks)
  {
    NotOnStack(s, f);
    LinkedElsewhere(pcbs, s.stacks[0], 0, f, p);
    LinkedElsewhere(pcbs, s.stacks[1], 1, f, p);
    LinkedElsewhere(pcbs, s.stacks[2], 2, f, p);
  }

  lemma LinkedInv(s: State, f: nat, t: nat, below: seq<nat>)
    requires Inv(s) && f < SLOTS && f in s.used && f !in Tasks(s) && t < TERMS
    requires below == s.stacks[t] || below == []
    ensures Inv(s.(stacks := s.stacks[t := below + [f]]))
  {
    NotOnStack(s, f);
    assert Elems([]) == {};
    Pushed(below, f);
    StackReplaced(s, t, below + [f], s.used);
  }

  lemma LinkStack(pcbs: seq<Pcb>, s: State, f: nat, t: nat, p: Pcb, below: seq<nat>, u: nat)
    requires |s.stacks| == TERMS && t < TERMS && u < TERMS && f < SLOTS && f !in s.stacks[u]
    requires Linked(pcbs, s.stacks[u], u) && (below == s.stacks[t] || below == []) && PcbOf(p, f, t, Top(below))
    ensures Linked(pcbs[f := p], s.stacks[t := below + [f]][u], u)
  {
    if t == u {
      LinkedPush(pcbs, below, t, f, p);
    } else {
      LinkedElsewhere(pcbs, s.stacks[u], u, f, p);
    }
  }

  lemma LinkStacks(pcbs: seq<Pcb>, tasks: seq<Option<nat>>, s: State, f: nat, t: nat, p: Pcb, below: seq<nat>)
    requires AllLinked(pcbs, tasks, s.stacks) && f < SLOTS && f !in Tasks(s) && t < TERMS
    requires (below == s.stacks[t] || below == []) && PcbOf(p, f, t, Top(below))
    ensures AllLinked(pcbs[f := p], tasks[t := Some(f)], s.stacks[t := below + [f]])
  {
    NotOnStack(s, f);
    LinkStack(pcbs, s, f, t, p, below, 0);
    LinkStack(pcbs, s, f, t, p, below, 1);
    LinkStack(pcbs, s, f, t, p, below, 2);
    assert Top(below + [f]) == Some(f);
  }
}
