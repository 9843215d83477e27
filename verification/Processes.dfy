/** Processes as three stacks of slots, one per terminal: execute, halt, the timer tick and terminal switches. */
module Processes {
  import opened Machine

  /** What the file system says about a command: no such file, a file that is no program, or a program. */
  datatype Load = NoFile | NotElf | Program

  /** `stacks[t]` lists terminal t's tasks from its shell up to its current one; `used` is the slot bitmap. */
  datatype State = State(stacks: seq<seq<nat>>, used: set<nat>, sched: nat, vis: nat, newShell: bool)

  datatype Step = Execute(load: Load) | Halt(shell: Load) | Tick(shell: Load) | Show(term: int)

  ghost function Elems(k: seq<nat>): set<nat> {
    set x | x in k
  }

  ghost predicate NoDuplicates(k: seq<nat>) {
    forall i, j :: 0 <= i < j < |k| ==> k[i] != k[j]
  }

  /** The slots of all tasks. */
  ghost function Tasks(s: State): set<nat>
    requires |s.stacks| == TERMS
  {
    Elems(s.stacks[0]) + Elems(s.stacks[1]) + Elems(s.stacks[2])
  }

  /** No slot serves two tasks, and every task's slot is below 6 and marked used. */
  ghost predicate Inv(s: State) {
    && |s.stacks| == TERMS && s.sched < TERMS && s.vis < TERMS
    && (forall i :: i in s.used ==> i < SLOTS)
    && Tasks(s) <= s.used
    && NoDuplicates(s.stacks[0]) && NoDuplicates(s.stacks[1]) && NoDuplicates(s.stacks[2])
    && Elems(s.stacks[0]) !! Elems(s.stacks[1])
    && Elems(s.stacks[0]) !! Elems(s.stacks[2])
    && Elems(s.stacks[1]) !! Elems(s.stacks[2])
  }

  function Top(k: seq<nat>): Option<nat> {
    if k == [] then None else Some(k[|k| - 1])
  }

  function Current(s: State): Option<nat>
    requires |s.stacks| == TERMS && s.sched < TERMS
  {
    Top(s.stacks[s.sched])
  }

  /** The least slot from `i` on that is not used. */
  function LeastFree(used: set<nat>, i: nat): (f: nat)
    ensures f !in used && i <= f && forall j :: i <= j < f ==> j in used
    decreases used
  {
    if i !in used then i else LeastFree(used - {i}, i + 1)
  }

  lemma FreeSlotExists(used: set<nat>)
    requires (forall i :: i in used ==> i < SLOTS) && |used| < SLOTS
    ensures LeastFree(used, 0) < SLOTS
  {
    if LeastFree(used, 0) >= SLOTS {
      assert {0, 1, 2, 3, 4, 5} <= used;
      SubsetSize({0, 1, 2, 3, 4, 5}, used);
    }
  }

  lemma {:induction false} SubsetSize<T>(a: set<T>, b: set<T>)
    requires a <= b
    ensures |a| <= |b|
  {
    if a != {} {
      var x :| x in a;
      SubsetSize(a - {x}, b - {x});
    }
  }

  predicate HasRoom(s: State) {
    |s.used| < SLOTS
  }

  /** sys_execute up to the switch to the new task. A file that is no program keeps its slot marked. */
  function Start(s: State, load: Load): State
    requires |s.stacks| == TERMS && s.sched < TERMS && s.vis < TERMS
  {
    var f := LeastFree(s.used, 0);
    if !HasRoom(s) || load.NoFile? then s
    else if load.NotElf? then s.(used := s.used + {f})
    else if s.newShell then s.(used := s.used + {f}, stacks := s.stacks[s.sched := [f]])
    else s.(used := s.used + {f}, stacks := s.stacks[s.vis := s.stacks[s.vis] + [f]])
  }

  /** The running task leaves its slot and its terminal's stack. */
  function Pop(s: State): State
    requires |s.stacks| == TERMS && s.sched < TERMS && s.stacks[s.sched] != []
  {
    var k := s.stacks[s.sched];
    s.(used := s.used - {k[|k| - 1]}, stacks := s.stacks[s.sched := k[..|k| - 1]])
  }

  /** sys_halt of the running task; a terminal left without tasks starts a new shell at once. */
  function Stop(s: State, shell: Load): State
    requires |s.stacks| == TERMS && s.sched < TERMS && s.vis < TERMS && s.stacks[s.sched] != []
  {
    if |s.stacks[s.sched]| > 1 then Pop(s) else Start(Pop(s).(newShell := true), shell)
  }

  /** The timer interrupt: round robin over the terminals, starting a shell where there is no task. */
  function Next(s: State, shell: Load): State
    requires |s.stacks| == TERMS && s.sched < TERMS && s.vis < TERMS
  {
    var t := (s.sched + 1) % TERMS;
    if s.stacks[t] == [] then Start(s.(sched := t, newShell := true), shell)
    else s.(sched := t, newShell := false)
  }

  /** Calls come from a running task; a regular execute is issued on the visible terminal. */
  predicate Admissible(s: State, step: Step)
    requires |s.stacks| == TERMS && s.sched < TERMS && s.vis < TERMS
  {
    match step
    case Execute(_) => s.stacks[s.sched] != [] && (s.newShell || s.vis == s.sched)
    case Halt(_) => s.stacks[s.sched] != []
    case Tick(_) => true
    case Show(_) => true
  }

  function Do(s: State, step: Step): State
    requires |s.stacks| == TERMS && s.sched < TERMS && s.vis < TERMS && Admissible(s, step)
  {
    match step
    case Execute(load) => Start(s, load)
    case Halt(shell) => Stop(s, shell)
    case Tick(shell) => Next(s, shell)
    case Show(t) => if 0 <= t < TERMS then s.(vis := t) else s
  }

  // ----- Slots are conserved: a used slot is a live task's or lost for good

  /** Used slots that belong to no task. */
  ghost function Lost(s: State): set<nat>
    requires |s.stacks| == TERMS
  {
    s.used - Tasks(s)
  }

  /** The slots a step loses: that of a file that is no program, or a whole stack when an execute runs while the
      new-shell flag is still up. */
  ghost function LostBy(s: State, load: Load): set<nat>
    requires |s.stacks| == TERMS && s.sched < TERMS
  {
    if !HasRoom(s) then {}
    else match load
      case NoFile => {}
      case NotElf => {LeastFree(s.used, 0)}
      case Program => if s.newShell then Elems(s.stacks[s.sched]) else {}
  }

  /** What a step adds to the lost slots. */
  ghost function LostIn(s: State, step: Step): set<nat>
    requires Inv(s) && Admissible(s, step)
  {
    match step
    case Execute(load) => LostBy(s, load)
    case Halt(shell) => if |s.stacks[s.sched]| > 1 then {} else LostBy(Pop(s).(newShell := true), shell)
    case Tick(shell) =>
      var t := (s.sched + 1) % TERMS;
      if s.stacks[t] == [] then LostBy(s.(sched := t, newShell := true), shell) else {}
    case Show(_) => {}
  }

  // ----- The invariant over every run

  /** Replacing the stack of one terminal by one whose tasks are `k`'s or new. */
  lemma StackReplaced(s: State, t: nat, k: seq<nat>, used: set<nat>)
    requires Inv(s) && t < TERMS && NoDuplicates(k) && (forall i :: i in used ==> i < SLOTS)
    requires Elems(k) <= used && Tasks(s) - Elems(s.stacks[t]) <= used
    requires Elems(k) !! Tasks(s) - Elems(s.stacks[t])
    ensures Inv(s.(stacks := s.stacks[t := k], used := used))
    ensures Tasks(s.(stacks := s.stacks[t := k], used := used)) == Tasks(s) - Elems(s.stacks[t]) + Elems(k)
  {
  }

  lemma Pushed(k: seq<nat>, f: nat)
    requires NoDuplicates(k) && f !in k
    ensures NoDuplicates(k + [f]) && Elems(k + [f]) == Elems(k) + {f}
  {
  }

  lemma Popped(k: seq<nat>)
    requires NoDuplicates(k) && k != []
    ensures NoDuplicates(k[..|k| - 1]) && Elems(k[..|k| - 1]) == Elems(k) - {k[|k| - 1]}
  {
    assert k == k[..|k| - 1] + [k[|k| - 1]];
  }

  lemma LeakKeepsInv(s: State, f: nat)
    requires Inv(s) && f !in s.used && f < SLOTS
    ensures Inv(s.(used := s.used + {f})) && Lost(s.(used := s.used + {f})) == Lost(s) + {f}
  {
  }

  lemma ShellKeepsInv(s: State, f: nat)
    requires Inv(s) && f !in s.used && f < SLOTS
    ensures var r := s.(used := s.used + {f}, stacks := s.stacks[s.sched := [f]]);
            Inv(r) && Lost(r) == Lost(s) + Elems(s.stacks[s.sched])
  {
    assert Elems([f]) == {f};
    StackReplaced(s, s.sched, [f], s.used + {f});
  }

  lemma ChildKeepsInv(s: State, t: nat, f: nat)
    requires Inv(s) && f !in s.used && f < SLOTS && t < TERMS
    ensures var r := s.(used := s.used + {f}, stacks := s.stacks[t := s.stacks[t] + [f]]);
            Inv(r) && Lost(r) == Lost(s)
  {
    Pushed(s.stacks[t], f);
    StackReplaced(s, t, s.stacks[t] + [f], s.used + {f});
  }

  lemma StartKeepsInv(s: State, load: Load)
    requires Inv(s)
    ensures Inv(Start(s, load)) && Lost(Start(s, load)) == Lost(s) + LostBy(s, load)
  {
    if HasRoom(s) {
      FreeSlotExists(s.used);
      var f := LeastFree(s.used, 0);
      match load
      case NoFile =>
      case NotElf => LeakKeepsInv(s, f);
      case Program =>
        if s.newShell {
          ShellKeepsInv(s, f);
        } else {
          ChildKeepsInv(s, s.vis, f);
        }
    }
  }

  lemma PopKeepsInv(s: State)
    requires Inv(s) && s.stacks[s.sched] != []
    ensures Inv(Pop(s)) && Lost(Pop(s)) == Lost(s)
  {
    var k := s.stacks[s.sched];
    Popped(k);
    StackReplaced(s, s.sched, k[..|k| - 1], s.used - {k[|k| - 1]});
  }

  /** A step keeps the invariant, loses exactly the slots of LostIn and never gives a lost slot back. */
  lemma StepKeepsInv(s: State, step: Step)
    requires Inv(s) && Admissible(s, step)
    ensures Inv(Do(s, step)) && Lost(Do(s, step)) == Lost(s) + LostIn(s, step)
  {
    match step
    case Execute(load) =>
      StartKeepsInv(s, load);
    case Halt(shell) =>
      PopKeepsInv(s);
      if |s.stacks[s.sched]| == 1 {
        StartKeepsInv(Pop(s).(newShell := true), shell);
      }
    case Tick(shell) =>
      var t := (s.sched + 1) % TERMS;
      if s.stacks[t] == [] {
        StartKeepsInv(s.(sched := t, newShell := true), shell);
      }
    case Show(_) =>
  }

  // ----- What each step does, field by field

  ghost predicate IsLeastFree(used: set<nat>, f: nat) {
    f !in used && forall j: nat :: j < f ==> j in used
  }

  /**
   * A command on a terminal with the tasks `kept`: six tasks, or no such file, change nothing; any other file takes the
   * least free slot `f`, and a program becomes the task above `below`.
   */
  ghost predicate Launches(used: set<nat>, kept: seq<nat>, below: seq<nat>, load: Load, f: nat, used': set<nat>, k': seq<nat>) {
    && IsLeastFree(used, f)
    && used' == (if |used| >= 6 || load.NoFile? then used else used + {f})
    && k' == (if |used| < 6 && load.Program? then below + [f] else kept)
  }

  ghost predicate OtherStacksKept(s: State, r: State, t: nat) {
    |s.stacks| == |r.stacks| == TERMS && forall u :: 0 <= u < TERMS && u != t ==> r.stacks[u] == s.stacks[u]
  }

  lemma StartLaunches(s: State, load: Load)
    requires Inv(s)
    ensures var t, r := if s.newShell then s.sched else s.vis, Start(s, load);
            && Launches(s.used, s.stacks[t], if s.newShell then [] else s.stacks[t], load, LeastFree(s.used, 0), r.used,
                        r.stacks[t])
            && OtherStacksKept(s, r, t) && r.sched == s.sched && r.vis == s.vis && r.newShell == s.newShell
  {
  }

  /** A command goes to the visible terminal, or takes the place of the running one's tasks while a shell is started. */
  lemma ExecuteEffect(s: State, load: Load) returns (f: nat)
    requires Inv(s) && Admissible(s, Execute(load))
    ensures var t, r := if s.newShell then s.sched else s.vis, Do(s, Execute(load));
            && Launches(s.used, s.stacks[t], if s.newShell then [] else s.stacks[t], load, f, r.used, r.stacks[t])
            && OtherStacksKept(s, r, t) && r.sched == s.sched && r.vis == s.vis && r.newShell == s.newShell
  {
    f := LeastFree(s.used, 0);
    StartLaunches(s, load);
  }

  /** A halt gives the slot back and returns to the task below; the last task of a terminal makes room for a new shell. */
  lemma HaltEffect(s: State, shell: Load) returns (f: nat)
    requires Inv(s) && Admissible(s, Halt(shell))
    ensures var k, r := s.stacks[s.sched], Do(s, Halt(shell));
            && OtherStacksKept(s, r, s.sched) && r.sched == s.sched && r.vis == s.vis
            && (|k| > 1 ==> r.stacks[s.sched] == k[..|k| - 1] && r.used == s.used - {k[|k| - 1]} && r.newShell == s.newShell)
            && (|k| == 1 ==> Launches(s.used - {k[0]}, [], [], shell, f, r.used, r.stacks[s.sched]) && r.newShell)
            && (|k| == 1 && shell.Program? ==> r.stacks[s.sched] == [f] && r.used == s.used - {k[0]} + {f})
  {
    var k := s.stacks[s.sched];
    PopKeepsInv(s);
    f := LeastFree(Pop(s).used, 0);
    if |k| == 1 {
      AtMostSix(s.used);
      assert k[0] in s.used && |s.used - {k[0]}| < 6;
      StartLaunches(Pop(s).(newShell := true), shell);
    }
  }

  /** A tick goes on to the next terminal; one without tasks gets a shell. */
  lemma TickEffect(s: State, shell: Load) returns (f: nat)
    requires Inv(s)
    ensures var t, r := if s.sched == 2 then 0 else s.sched + 1, Do(s, Tick(shell));
            && r.sched == t && r.vis == s.vis && OtherStacksKept(s, r, t)
            && (s.stacks[t] != [] ==> r.stacks[t] == s.stacks[t] && r.used == s.used && !r.newShell)
            && (s.stacks[t] == [] ==> Launches(s.used, [], [], shell, f, r.used, r.stacks[t]) && r.newShell)
  {
    var t := (s.sched + 1) % TERMS;
    f := LeastFree(s.used, 0);
    if s.stacks[t] == [] {
      StartLaunches(s.(sched := t, newShell := true), shell);
    }
  }

  /** A switch shows one of the three terminals and disturbs no task. */
  lemma ShowEffect(s: State, t: int)
    requires Inv(s)
    ensures var r := Do(s, Show(t));
            r.vis == (if t == 0 || t == 1 || t == 2 then t else s.vis) && r == s.(vis := r.vis)
  {
  }

  lemma AtMostSix(used: set<nat>)
    requires forall i :: i in used ==> i < SLOTS
    ensures |used| <= SLOTS
  {
    SubsetSize(used, {0, 1, 2, 3, 4, 5});
  }

  ghost predicate CanDoAll(s: State, steps: seq<Step>)
    requires Inv(s)
    decreases steps
  {
    steps == [] || (Admissible(s, steps[0]) && (StepKeepsInv(s, steps[0]); CanDoAll(Do(s, steps[0]), steps[1..])))
  }

  /** Every run keeps the invariant. */
  ghost function DoAll(s: State, steps: seq<Step>): (r: State)
    requires Inv(s) && CanDoAll(s, steps)
    ensures Inv(r)
    decreases steps
  {
    if steps == [] then s
    else
      StepKeepsInv(s, steps[0]);
      DoAll(Do(s, steps[0]), steps[1..])
  }

  lemma {:induction false} LostForever(s: State, steps: seq<Step>)
    requires Inv(s) && CanDoAll(s, steps)
    ensures Lost(s) <= Lost(DoAll(s, steps))
    decreases steps
  {
    if steps != [] {
      StepKeepsInv(s, steps[0]);
      LostForever(Do(s, steps[0]), steps[1..]);
    }
  }

  lemma TwoSteps(s: State, a: Step, b: Step)
    requires Inv(s) && Admissible(s, a) && Inv(Do(s, a)) && Admissible(Do(s, a), b)
    ensures CanDoAll(s, [a, b]) && DoAll(s, [a, b]) == Do(Do(s, a), b)
  {
    var steps := [a, b];
    var s1, s2 := Do(s, a), Do(Do(s, a), b);
    StepKeepsInv(s1, b);
    assert steps[1..] == [b] && [b][1..] == [];
    assert CanDoAll(s2, []) && DoAll(s2, []) == s2;
    assert CanDoAll(s1, [b]) && DoAll(s1, [b]) == s2;
  }

  /** The first shell's first command replaces the shell: the flag raised for the shell is still up. */
  lemma FirstCommandReplacesShell(s: State)
    requires s == State([[], [], []], {}, 0, 0, false)
    ensures var steps := [Tick(Program), Execute(Program)];
            && Inv(s) && CanDoAll(s, steps)
            && DoAll(s, steps) == State([[], [1], []], {0, 1}, 1, 0, true)
  {
    var s1 := State([[], [0], []], {0}, 1, 0, true);
    assert LeastFree({}, 0) == 0;
    assert Do(s, Tick(Program)) == s1;
    StepKeepsInv(s, Tick(Program));
    SecondSlot(s1);
    TwoSteps(s, Tick(Program), Execute(Program));
  }

  /** A first command that is no program costs a slot. */
  lemma NonProgramCostsSlot(s: State)
    requires s == State([[], [], []], {}, 0, 0, false)
    ensures var steps := [Tick(Program), Execute(NotElf)];
            && Inv(s) && CanDoAll(s, steps)
            && DoAll(s, steps) == State([[], [0], []], {0, 1}, 1, 0, true)
  {
    var s1 := State([[], [0], []], {0}, 1, 0, true);
    assert LeastFree({}, 0) == 0;
    assert Do(s, Tick(Program)) == s1;
    StepKeepsInv(s, Tick(Program));
    SecondSlot(s1);
    TwoSteps(s, Tick(Program), Execute(NotElf));
  }

  lemma SecondSlot(s: State)
    requires s == State([[], [0], []], {0}, 1, 0, true)
    ensures Do(s, Execute(Program)) == State([[], [1], []], {0, 1}, 1, 0, true)
    ensures Do(s, Execute(NotElf)) == s.(used := {0, 1})
  {
    assert |{0}| < SLOTS && LeastFree({0}, 0) == 1;
    assert {0} + {1} == {0, 1};
  }

  // ----- Execute and halt nest

  /** A command and, if it runs as a program, the commands that program executes before it halts. */
  datatype Call = Call(load: Load, body: seq<Call>)

  /** A regular task runs on the visible terminal. */
  ghost predicate Regular(s: State) {
    Inv(s) && !s.newShell && s.vis == s.sched && s.stacks[s.sched] != []
  }

  ghost predicate Leakless(c: Call)
    decreases c
  {
    !c.load.NotElf? && forall i :: 0 <= i < |c.body| ==> Leakless(c.body[i])
  }

  lemma ExecuteStarts(s: State)
    requires Regular(s) && HasRoom(s)
    ensures var r, f := Do(s, Execute(Program)), LeastFree(s.used, 0);
            && Regular(r) && f !in s.used
            && r == s.(used := s.used + {f}, stacks := s.stacks[s.sched := s.stacks[s.sched] + [f]])
  {
    StepKeepsInv(s, Execute(Program));
  }

  lemma HaltReturns(s: State, f: nat, ended: State)
    requires Regular(s) && Regular(ended) && f !in s.used && s.used + {f} <= ended.used
    requires ended.sched == s.sched && ended.stacks == s.stacks[s.sched := s.stacks[s.sched] + [f]]
    ensures var r := Do(ended, Halt(Program));
            && Regular(r) && r.stacks == s.stacks && r.sched == s.sched && s.used <= r.used
            && (ended.used == s.used + {f} ==> r == s)
  {
    StepKeepsInv(ended, Halt(Program));
    var k := ended.stacks[s.sched];
    assert k[..|k| - 1] == s.stacks[s.sched];
  }

  /** Executes the command; a program that starts runs its own commands and halts. */
  ghost function RunCall(s: State, c: Call): (r: State)
    requires Regular(s)
    ensures Regular(r) && r.stacks == s.stacks && r.sched == s.sched && s.used <= r.used
    ensures Leakless(c) ==> r == s
    decreases c, 1
  {
    if HasRoom(s) && c.load.Program? then
      ExecuteStarts(s);
      var ended := RunCalls(Do(s, Execute(Program)), c, 0);
      HaltReturns(s, LeastFree(s.used, 0), ended);
      Do(ended, Halt(Program))
    else
      StepKeepsInv(s, Execute(c.load));
      Do(s, Execute(c.load))
  }

  /** The commands of `c` from the `i`th on. */
  ghost function RunCalls(s: State, c: Call, i: nat): (r: State)
    requires Regular(s) && i <= |c.body|
    ensures Regular(r) && r.stacks == s.stacks && r.sched == s.sched && s.used <= r.used
    ensures Leakless(c) ==> r == s
    decreases c, 0, |c.body| - i
  {
    if i == |c.body| then s else RunCalls(RunCall(s, c.body[i]), c, i + 1)
  }

  /** The step leaves terminal `t` its lower `h` tasks: a halt there finds more, an execute there is a regular one. */
  predicate Spares(s: State, step: Step, t: nat, h: nat)
    requires |s.stacks| == TERMS && t < TERMS
  {
    s.sched == t ==> (step.Halt? ==> |s.stacks[t]| > h) && (step.Execute? ==> !s.newShell)
  }

  ghost predicate SparesAll(s: State, steps: seq<Step>, t: nat, h: nat)
    requires Inv(s) && t < TERMS && CanDoAll(s, steps)
    decreases steps
  {
    steps == []
    || (Spares(s, steps[0], t, h) && (StepKeepsInv(s, steps[0]); SparesAll(Do(s, steps[0]), steps[1..], t, h)))
  }

  /** Starting a program changes one stack only, and a regular one is put on top. */
  lemma StartStack(s: State, load: Load, t: nat)
    requires |s.stacks| == TERMS && s.sched < TERMS && s.vis < TERMS && t < TERMS
    ensures |Start(s, load).stacks| == TERMS
    ensures t != (if s.newShell then s.sched else s.vis) ==> Start(s, load).stacks[t] == s.stacks[t]
    ensures !s.newShell ==> s.stacks[t] <= Start(s, load).stacks[t]
  {
  }

  /** Only an execute or a halt on a terminal, or a tick to one without tasks, changes its stack. */
  lemma StackChange(s: State, step: Step, t: nat)
    requires Inv(s) && Admissible(s, step) && t < TERMS && s.stacks[t] != []
    ensures var k, k' := s.stacks[t], Do(s, step).stacks[t];
            if s.sched != t then k' == k
            else match step
              case Halt(_) => |k| > 1 ==> k' == k[..|k| - 1]
              case Execute(_) => !s.newShell ==> k <= k'
              case Tick(_) => k' == k
              case Show(_) => k' == k
  {
    match step
    case Execute(load) => StartStack(s, load, t);
    case Halt(shell) => StartStack(Pop(s).(newShell := true), shell, t);
    case Tick(shell) => StartStack(s.(sched := (s.sched + 1) % TERMS, newShell := true), shell, t);
    case Show(_) =>
  }

  lemma StepSparesTasks(s: State, step: Step, t: nat, h: nat)
    requires Inv(s) && Admissible(s, step) && t < TERMS && 0 < h <= |s.stacks[t]| && Spares(s, step, t, h)
    ensures |Do(s, step).stacks[t]| >= h && Do(s, step).stacks[t][..h] == s.stacks[t][..h]
  {
    StackChange(s, step, t);
  }

  /** However other terminals, ticks and switches interleave, the lower `h` tasks of a terminal wait untouched. */
  lemma {:induction false} LowerTasksWait(s: State, steps: seq<Step>, t: nat, h: nat)
    requires Inv(s) && t < TERMS && 0 < h <= |s.stacks[t]| && CanDoAll(s, steps) && SparesAll(s, steps, t, h)
    ensures |DoAll(s, steps).stacks[t]| >= h && DoAll(s, steps).stacks[t][..h] == s.stacks[t][..h]
    decreases steps
  {
    if steps != [] {
      StepKeepsInv(s, steps[0]);
      StepSparesTasks(s, steps[0], t, h);
      LowerTasksWait(Do(s, steps[0]), steps[1..], t, h);
    }
  }

  /** So when the program started by an execute has halted, the terminal's stack is what it was. */
  lemma ExecuteThenHaltRestores(s: State, steps: seq<Step>, t: nat)
    requires Inv(s) && t < TERMS && s.stacks[t] != [] && CanDoAll(s, steps)
    requires SparesAll(s, steps, t, |s.stacks[t]|)
    requires |DoAll(s, steps).stacks[t]| == |s.stacks[t]|
    ensures DoAll(s, steps).stacks[t] == s.stacks[t]
  {
    LowerTasksWait(s, steps, t, |s.stacks[t]|);
    var k := DoAll(s, steps).stacks[t];
    assert k[..|k|] == k;
  }
}
