/** Blinking characters in a fixed pool: the list and its timing (fish/blink.S, fish/fish.c). */
module Blinks {
  import opened Machine

  const POOL := 2000

  /** A blinking character; `status` is 1 while it is on. */
  datatype Slot = Slot(location: Word16, onChar: Byte, offChar: Byte, onLength: Word16, offLength: Word16,
                       countdown: Word16, status: Word16)

  const FREE := Slot(0, 0, 0, 0, 0, 0, 0)

  /** The pool and the list, given by the pool indices from the head on. */
  datatype State = State(slots: seq<Slot>, chain: seq<nat>)

  /** The list has no node twice, and its nodes are exactly the slots whose location is not zero. */
  predicate Inv(b: State) {
    && |b.slots| == POOL
    && (forall i :: 0 <= i < |b.chain| ==> b.chain[i] < POOL)
    && (forall i, j :: 0 <= i < j < |b.chain| ==> b.chain[i] != b.chain[j])
    && (forall i :: 0 <= i < POOL ==> (i in b.chain <==> b.slots[i].location != 0))
    && (forall i :: 0 <= i < POOL && i !in b.chain ==> b.slots[i] == FREE)
  }

  /** The first slot from `i` on that is marked free. */
  function FirstFree(slots: seq<Slot>, i: nat): (k: nat)
    requires i <= |slots|
    ensures i <= k <= |slots| && (k < |slots| ==> slots[k].location == 0)
    ensures forall j :: i <= j < k ==> slots[j].location != 0
    decreases |slots| - i
  {
    if i == |slots| || slots[i].location == 0 then i else FirstFree(slots, i + 1)
  }

  /** The place in the list, from `i` on, of the first node at a location. */
  function Place(b: State, loc: nat, i: nat): (k: nat)
    requires Inv(b) && i <= |b.chain|
    ensures i <= k <= |b.chain| && (k < |b.chain| ==> b.slots[b.chain[k]].location == loc)
    ensures forall j :: i <= j < k ==> b.slots[b.chain[j]].location != loc
    decreases |b.chain| - i
  {
    if i == |b.chain| || b.slots[b.chain[i]].location == loc then i else Place(b, loc, i + 1)
  }

  /** The node the find helper returns. */
  function Find(b: State, loc: nat): (r: Option<nat>)
    requires Inv(b)
    ensures r.Some? ==> r.value < POOL && r.value in b.chain && b.slots[r.value].location == loc
    ensures r.None? ==> forall i :: 0 <= i < |b.chain| ==> b.slots[b.chain[i]].location != loc
  {
    if Place(b, loc, 0) < |b.chain| then Some(b.chain[Place(b, loc, 0)]) else None
  }

  // ----- Ticks

  function Toggled(status: Word16): Word16 {
    if status % 2 == 0 then status + 1 else status - 1
  }

  /** One tick of a node. */
  function Ticked(s: Slot): Slot {
    var c: Word16 := (s.countdown + 0xFFFF) % 0x1_0000;
    if SignedWord16(c) > 0 then s.(countdown := c)
    else s.(countdown := if s.status % 2 == 1 then s.offLength else s.onLength, status := Toggled(s.status))
  }

  /** A node that is on or off counts down; at the end of its count it changes over and counts the other length. */
  lemma TickOfNode(s: Slot)
    requires s.status <= 1
    ensures var r := Ticked(s);
            if 2 <= s.countdown <= 0x8000 then r == s.(countdown := s.countdown - 1)
            else r == s.(status := 1 - s.status, countdown := if s.status == 0 then s.onLength else s.offLength)
  {
  }

  function Ticks(s: Slot, t: nat): Slot {
    if t == 0 then s else Ticked(Ticks(s, t - 1))
  }

  /** For how many ticks a length lasts: a length that is not positive as a signed number runs out at once. */
  function Lasting(length: Word16): nat {
    if 1 <= length <= 0x8000 then length else 1
  }

  /** A node as it is just after it was added. */
  predicate JustAdded(s: Slot) {
    s.status == 1 && s.countdown == s.onLength
  }

  function Period(s: Slot): nat {
    Lasting(s.onLength) + Lasting(s.offLength)
  }

  lemma {:induction false} MultipleIsLarge(d: nat, p: nat)
    requires d > 0
    ensures d * p >= p
  {
    if d > 1 {
      MultipleIsLarge(d - 1, p);
      assert d * p == (d - 1) * p + p;
    }
  }

  lemma RemainderIs(t: nat, p: nat, q: nat, r: nat)
    requires r < p && t == q * p + r
    ensures t % p == r
  {
    var d := t / p;
    assert t == d * p + t % p;
    if d > q {
      assert (d - q) * p == d * p - q * p;
      MultipleIsLarge(d - q, p);
    } else if d < q {
      assert (q - d) * p == q * p - d * p;
      MultipleIsLarge(q - d, p);
    }
  }

  lemma NextPhase(t: nat, p: nat)
    requires p >= 2
    ensures (t + 1) % p == if t % p + 1 == p then 0 else t % p + 1
  {
    var q, r := t / p, t % p;
    assert t == q * p + r;
    if r + 1 == p {
      assert (q + 1) * p == q * p + p;
      RemainderIs(t + 1, p, q + 1, 0);
    } else {
      RemainderIs(t + 1, p, q, r + 1);
    }
  }

  /** The node at a phase of its period. */
  function AtPhase(s: Slot, phase: nat): Slot
    requires JustAdded(s) && phase < Period(s)
  {
    var on := Lasting(s.onLength);
    if phase < on then s.(countdown := s.onLength - phase) else s.(countdown := s.offLength - (phase - on), status := 0)
  }

  lemma TickAdvances(s: Slot, phase: nat)
    requires JustAdded(s) && phase < Period(s)
    ensures Ticked(AtPhase(s, phase)) == AtPhase(s, if phase + 1 == Period(s) then 0 else phase + 1)
  {
  }

  /** The whole course of a node that is left alone: it is on for the first part of every period. */
  lemma {:induction false} Course(s: Slot, t: nat)
    requires JustAdded(s)
    ensures t % Period(s) < Period(s) && Ticks(s, t) == AtPhase(s, t % Period(s))
  {
    if t > 0 {
      Course(s, t - 1);
      TickAdvances(s, (t - 1) % Period(s));
      NextPhase(t - 1, Period(s));
    } else {
      RemainderIs(0, Period(s), 0, 0);
    }
  }

  predicate On(s: Slot, t: nat) {
    Ticks(s, t).status == 1
  }

  /** The node is on after `t` ticks exactly when t mod (on + off) < on. */
  predicate OnTime(s: Slot, t: nat)
    requires s.onLength + s.offLength > 0
  {
    On(s, t) <==> t % (s.onLength + s.offLength) < s.onLength
  }

  lemma OnInFirstPart(s: Slot, t: nat)
    requires JustAdded(s)
    ensures On(s, t) <==> t % Period(s) < Lasting(s.onLength)
  {
    Course(s, t);
  }

  /** A node with a length out of range is late or early at some time. */
  lemma OutOfRange(s: Slot) returns (t: nat)
    requires JustAdded(s) && s.onLength + s.offLength > 0
    requires !(1 <= s.onLength <= 0x8000 && 1 <= s.offLength <= 0x8000)
    ensures !OnTime(s, t)
  {
    var p := s.onLength + s.offLength;
    if s.onLength == 0 {
      t := 0;
      RemainderIs(0, p, 0, 0);
      RemainderIs(0, Period(s), 0, 0);
    } else if s.onLength > 0x8000 {
      t := 1;
      RemainderIs(1, p, 0, 1);
      RemainderIs(1, Period(s), 0, 1);
    } else if s.offLength == 0 {
      t := s.onLength;
      RemainderIs(t, p, 1, 0);
      RemainderIs(t, Period(s), 0, t);
    } else {
      t := s.onLength + 1;
      RemainderIs(t, p, 0, t);
      RemainderIs(t, Period(s), 1, 0);
    }
    OnInFirstPart(s, t);
  }

  /** A node left alone keeps its time for ever if and only if both lengths are from 1 to 32768. */
  lemma KeepsTimeExactly(s: Slot)
    requires JustAdded(s) && s.onLength + s.offLength > 0
    ensures (forall t: nat :: OnTime(s, t)) <==> 1 <= s.onLength <= 0x8000 && 1 <= s.offLength <= 0x8000
  {
    if 1 <= s.onLength <= 0x8000 && 1 <= s.offLength <= 0x8000 {
      forall t: nat ensures OnTime(s, t) {
        OnInFirstPart(s, t);
      }
    } else {
      var t := OutOfRange(s);
    }
  }

  // ----- Operations

  datatype Op = Add(node: Slot) | Remove(loc: Word16) | Sync(from: Word16, to: Word16) | Tick

  function Fresh(n: Slot): Slot {
    n.(status := 1, countdown := n.onLength)
  }

  /** An added node goes to the first free slot and to the head of the list. */
  function Added(b: State, n: Slot): State
    requires |b.slots| == POOL
  {
    var k := FirstFree(b.slots, 0);
    if n.location < POOL && k < POOL then State(b.slots[k := Fresh(n)], [k] + b.chain) else b
  }

  function Without(chain: seq<nat>, p: nat): seq<nat>
    requires p < |chain|
  {
    chain[..p] + chain[p + 1..]
  }

  function Removed(b: State, loc: nat): State
    requires Inv(b)
  {
    var p := Place(b, loc, 0);
    if p < |b.chain| then State(b.slots[b.chain[p] := FREE], Without(b.chain, p)) else b
  }

  function WithBeat(s: Slot, of: Slot): Slot {
    s.(onLength := of.onLength, offLength := of.offLength, countdown := of.countdown, status := of.status)
  }

  function Synced(b: State, from: nat, to: nat): (r: State)
    requires Inv(b)
    ensures Inv(r) && r.chain == b.chain
  {
    var f, t := Find(b, from), Find(b, to);
    if f.Some? && t.Some? then b.(slots := b.slots[t.value := WithBeat(b.slots[t.value], b.slots[f.value])]) else b
  }

  function TickedAll(b: State): State
    requires Inv(b)
  {
    b.(slots := seq(POOL, i requires 0 <= i < POOL => if i in b.chain then Ticked(b.slots[i]) else b.slots[i]))
  }

  function Do(b: State, op: Op): State
    requires Inv(b)
  {
    match op
    case Add(n) => Added(b, n)
    case Remove(loc) => Removed(b, loc)
    case Sync(from, to) => Synced(b, from, to)
    case Tick => TickedAll(b)
  }

  lemma AddKeepsInv(b: State, n: Slot, k: nat)
    requires Inv(b) && k == FirstFree(b.slots, 0) < POOL && n.location != 0
    ensures Inv(State(b.slots[k := Fresh(n)], [k] + b.chain))
  {
    var a := State(b.slots[k := Fresh(n)], [k] + b.chain);
    assert a.chain[0] == k;
    assert forall i :: 0 < i < |a.chain| ==> a.chain[i] == b.chain[i - 1];
    assert forall i :: i in b.chain ==> i in a.chain;
  }

  /** The free slot taken is not in the list. Only a node at location 0 breaks the invariant. */
  lemma AddKeepsInvExactly(b: State, n: Slot)
    requires Inv(b)
    ensures var k := FirstFree(b.slots, 0);
            && k !in b.chain
            && (n.location < POOL && k < POOL ==>
                  var node := Added(b, n).slots[k];
                  && k in Added(b, n).chain && JustAdded(node)
                  && node.(status := n.status, countdown := n.countdown) == n)
            && (Inv(Added(b, n)) <==> n.location != 0 || k == POOL)
  {
    var k, a := FirstFree(b.slots, 0), Added(b, n);
    if n.location < POOL && k < POOL {
      assert a.chain[0] == k && a.slots[k].location == n.location;
      if n.location != 0 {
        AddKeepsInv(b, n, k);
      }
    }
  }

  /** A node is refused if its location is off the screen or the pool is full, and takes the first free slot otherwise. */
  lemma AddEffect(b: State, n: Slot)
    requires Inv(b)
    ensures var r, k := Do(b, Add(n)), FirstFree(b.slots, 0);
            && (n.location >= 2000 || (forall i :: 0 <= i < POOL ==> b.slots[i].location != 0) ==> r == b)
            && (n.location < 2000 && k < POOL ==>
                  && r.chain == [k] + b.chain && |r.slots| == POOL && JustAdded(r.slots[k]) && SameFace(r.slots[k], n)
                  && r.slots[k].onLength == n.onLength && r.slots[k].offLength == n.offLength
                  && forall i :: 0 <= i < POOL && i != k ==> r.slots[i] == b.slots[i])
  {
  }

  /** Every node of the list ticks, and nothing else happens. */
  lemma TickEffect(b: State)
    requires Inv(b)
    ensures var r := Do(b, Tick);
            && r.chain == b.chain && |r.slots| == POOL
            && forall i :: 0 <= i < POOL ==> r.slots[i] == if i in b.chain then Ticked(b.slots[i]) else b.slots[i]
  {
  }

  /** A list of different nodes without the one at place `p` has exactly the others, still different. */
  lemma NodesWithout(chain: seq<nat>, p: nat)
    requires p < |chain| && forall i, j :: 0 <= i < j < |chain| ==> chain[i] != chain[j]
    ensures var rest := Without(chain, p);
            && (forall i, j :: 0 <= i < j < |rest| ==> rest[i] != rest[j])
            && (forall x :: x in rest <==> x in chain && x != chain[p])
  {
    var rest := Without(chain, p);
    assert forall i :: 0 <= i < |rest| ==> rest[i] == chain[if i < p then i else i + 1];
    forall x | x in chain && x != chain[p] ensures x in rest {
      var j :| 0 <= j < |chain| && chain[j] == x;
      assert rest[if j < p then j else j - 1] == x;
    }
  }

  lemma RemoveKeepsInv(b: State, loc: nat)
    requires Inv(b)
    ensures Inv(Removed(b, loc))
  {
    var p := Place(b, loc, 0);
    if p < |b.chain| {
      NodesWithout(b.chain, p);
    }
  }

  /** Operations that add nothing at location 0 keep the list sound. */
  lemma DoKeepsInv(b: State, op: Op)
    requires Inv(b) && (op.Add? ==> op.node.location != 0)
    ensures Inv(Do(b, op))
  {
    match op
    case Add(n) => AddKeepsInvExactly(b, n);
    case Remove(loc) => RemoveKeepsInv(b, loc);
    case Sync(_, _) =>
    case Tick =>
  }

  predicate Proper(ops: seq<Op>) {
    forall i :: 0 <= i < |ops| ==> (ops[i].Add? ==> ops[i].node.location != 0)
  }

  function DoAll(b: State, ops: seq<Op>): (r: State)
    requires Inv(b) && Proper(ops)
    ensures Inv(r)
    decreases ops
  {
    if ops == [] then b
    else
      DoKeepsInv(b, ops[0]);
      DoAll(Do(b, ops[0]), ops[1..])
  }

  predicate OnOrOff(b: State) {
    forall i :: 0 <= i < |b.slots| ==> b.slots[i].status <= 1
  }

  /** Every node is on or off, over every run. */
  lemma {:induction false} StaysOnOrOff(b: State, ops: seq<Op>)
    requires Inv(b) && Proper(ops) && OnOrOff(b)
    ensures OnOrOff(DoAll(b, ops))
    decreases ops
  {
    if ops != [] {
      DoKeepsInv(b, ops[0]);
      StepStaysOnOrOff(b, ops[0]);
      StaysOnOrOff(Do(b, ops[0]), ops[1..]);
    }
  }

  lemma StepStaysOnOrOff(b: State, op: Op)
    requires Inv(b) && OnOrOff(b)
    ensures OnOrOff(Do(b, op))
  {
    forall i | 0 <= i < POOL ensures Ticked(b.slots[i]).status <= 1 {
      TickOfNode(b.slots[i]);
    }
  }

  const EMPTY := State(Repeat(FREE, POOL), [])

  /** Two nodes added at location 0 get the same slot: the list becomes a cycle. */
  lemma ZeroTwiceCycles(n: Slot)
    requires n.location == 0
    ensures Inv(EMPTY) && Added(Added(EMPTY, n), n).chain == [0, 0]
  {
    assert FirstFree(EMPTY.slots, 0) == 0;
    assert Added(EMPTY, n).slots[0].location == 0;
  }

  // ----- Each location is a stack

  /** The nodes of the list at a location, from the head on. */
  function NodesAt(slots: seq<Slot>, chain: seq<nat>, loc: nat): seq<nat>
    requires forall i :: 0 <= i < |chain| ==> chain[i] < |slots|
  {
    if chain == [] then []
    else (if slots[chain[0]].location == loc then [chain[0]] else []) + NodesAt(slots, chain[1..], loc)
  }

  function StackAt(b: State, loc: nat): seq<nat>
    requires Inv(b)
  {
    NodesAt(b.slots, b.chain, loc)
  }

  lemma {:induction false} SameNodes(a: seq<Slot>, b: seq<Slot>, chain: seq<nat>, loc: nat)
    requires |a| == |b| && forall i :: 0 <= i < |chain| ==> chain[i] < |a| && a[chain[i]].location == b[chain[i]].location
    ensures NodesAt(a, chain, loc) == NodesAt(b, chain, loc)
  {
    if chain != [] {
      SameNodes(a, b, chain[1..], loc);
    }
  }

  /** The node at place `p`, the first of its location, is the top of that stack and in no other. */
  lemma {:induction false} FirstIsTop(slots: seq<Slot>, chain: seq<nat>, p: nat, loc: nat)
    requires p < |chain| && forall i :: 0 <= i < |chain| ==> chain[i] < |slots|
    requires forall i :: 0 <= i < p ==> slots[chain[i]].location != slots[chain[p]].location
    ensures forall i :: 0 <= i < |chain| - 1 ==> Without(chain, p)[i] < |slots|
    ensures NodesAt(slots, chain, loc)
         == (if slots[chain[p]].location == loc then [chain[p]] else []) + NodesAt(slots, Without(chain, p), loc)
  {
    if p == 0 {
      assert Without(chain, 0) == chain[1..];
    } else {
      FirstIsTop(slots, chain[1..], p - 1, loc);
      assert Without(chain, p)[0] == chain[0] && Without(chain, p)[1..] == Without(chain[1..], p - 1);
    }
  }

  lemma {:induction false} NoneAt(slots: seq<Slot>, chain: seq<nat>, loc: nat)
    requires forall i :: 0 <= i < |chain| ==> chain[i] < |slots| && slots[chain[i]].location != loc
    ensures NodesAt(slots, chain, loc) == []
  {
    if chain != [] {
      NoneAt(slots, chain[1..], loc);
    }
  }

  /** Find returns the top of the stack. */
  lemma FindIsTop(b: State, loc: nat)
    requires Inv(b)
    ensures Find(b, loc) == if StackAt(b, loc) == [] then None else Some(StackAt(b, loc)[0])
  {
    var p := Place(b, loc, 0);
    if p < |b.chain| {
      FirstIsTop(b.slots, b.chain, p, loc);
    } else {
      NoneAt(b.slots, b.chain, loc);
    }
  }

  lemma AddPushes(b: State, n: Slot, loc: nat)
    requires Inv(b) && n.location != 0
    ensures Inv(Added(b, n))
    ensures StackAt(Added(b, n), loc)
         == if n.location == loc < POOL && FirstFree(b.slots, 0) < POOL then [FirstFree(b.slots, 0)] + StackAt(b, loc)
            else StackAt(b, loc)
  {
    AddKeepsInvExactly(b, n);
    var a := Added(b, n);
    if a != b {
      assert a.chain[1..] == b.chain;
      SameNodes(a.slots, b.slots, b.chain, loc);
    }
  }

  lemma RemovePops(b: State, from: nat, loc: nat)
    requires Inv(b)
    ensures Inv(Removed(b, from))
    ensures StackAt(Removed(b, from), loc)
         == if from == loc && StackAt(b, loc) != [] then StackAt(b, loc)[1..] else StackAt(b, loc)
  {
    RemoveKeepsInv(b, from);
    var p, a := Place(b, from, 0), Removed(b, from);
    if p < |b.chain| {
      FirstIsTop(b.slots, b.chain, p, loc);
      assert forall i :: 0 <= i < |a.chain| ==> a.chain[i] != b.chain[p];
      SameNodes(a.slots, b.slots, a.chain, loc);
    } else {
      NoneAt(b.slots, b.chain, from);
    }
  }

  /** Synchronizing and ticking leave every stack as it is. */
  lemma OthersKeepStacks(b: State, op: Op, loc: nat)
    requires Inv(b) && (op.Sync? || op.Tick?)
    ensures Inv(Do(b, op)) && StackAt(Do(b, op), loc) == StackAt(b, loc)
  {
    SameNodes(Do(b, op).slots, b.slots, b.chain, loc);
  }

  lemma UpdateBack<T>(s: seq<T>, k: nat, x: T)
    requires k < |s|
    ensures s[k := x][k := s[k]] == s
  {
  }

  /** Removing the location just added undoes the addition. */
  lemma AddThenRemoveRestores(b: State, n: Slot)
    requires Inv(b) && 0 < n.location < POOL && FirstFree(b.slots, 0) < POOL
    ensures Inv(Added(b, n)) && Removed(Added(b, n), n.location) == b
  {
    AddKeepsInvExactly(b, n);
    var k, a := FirstFree(b.slots, 0), Added(b, n);
    assert b.slots[k] == FREE;
    UpdateBack(b.slots, k, Fresh(n));
    assert Place(a, n.location, 0) == 0 by {
      assert a.chain[0] == k;
    }
    assert Without(a.chain, 0) == b.chain;
  }

  // ----- The life of one node

  /** The operation neither removes the node in slot `i` nor gives it another's beat. */
  predicate Spares(b: State, op: Op, i: nat)
    requires Inv(b)
  {
    (op.Remove? ==> Find(b, op.loc) != Some(i)) && (op.Sync? ==> Find(b, op.to) != Some(i))
  }

  predicate SparesAll(b: State, ops: seq<Op>, i: nat)
    requires Inv(b) && Proper(ops)
    decreases ops
  {
    ops == [] ||
    (Spares(b, ops[0], i) && (DoKeepsInv(b, ops[0]); SparesAll(Do(b, ops[0]), ops[1..], i)))
  }

  function TickCount(ops: seq<Op>): nat {
    if ops == [] then 0 else (if ops[0].Tick? then 1 else 0) + TickCount(ops[1..])
  }

  lemma {:induction false} TicksFromFront(s: Slot, t: nat)
    ensures Ticks(Ticked(s), t) == Ticks(s, t + 1)
  {
    if t > 0 {
      TicksFromFront(s, t - 1);
    }
  }

  lemma SparedSlot(b: State, op: Op, i: nat)
    requires Inv(b) && (op.Add? ==> op.node.location != 0) && i < POOL && i in b.chain && Spares(b, op, i)
    ensures i in Do(b, op).chain && Do(b, op).slots[i] == if op.Tick? then Ticked(b.slots[i]) else b.slots[i]
  {
    match op
    case Add(n) => AddKeepsInvExactly(b, n);
    case Remove(loc) =>
      RemoveKeepsInv(b, loc);
    case Sync(_, _) =>
    case Tick =>
  }

  /** The first operation of a run that spares the node in slot `i`. */
  lemma FirstOp(b: State, ops: seq<Op>, i: nat) returns (b': State)
    requires ops != [] && Inv(b) && Proper(ops) && i < POOL && i in b.chain && SparesAll(b, ops, i)
    ensures Inv(b') && i in b'.chain && SparesAll(b', ops[1..], i) && DoAll(b, ops) == DoAll(b', ops[1..])
    ensures var ticks := TickCount(ops[1..]);
            if ops[0].Tick? then b'.slots[i] == Ticked(b.slots[i]) && TickCount(ops) == ticks + 1
            else b'.slots[i] == b.slots[i] && TickCount(ops) == ticks
  {
    b' := Do(b, ops[0]);
    DoKeepsInv(b, ops[0]);
    SparedSlot(b, ops[0], i);
  }

  /** Whatever happens to other nodes, a node's own course depends on the ticks alone. */
  lemma {:induction false} Timeline(b: State, ops: seq<Op>, i: nat)
    requires Inv(b) && Proper(ops) && i < POOL && i in b.chain && SparesAll(b, ops, i)
    ensures i in DoAll(b, ops).chain && DoAll(b, ops).slots[i] == Ticks(b.slots[i], TickCount(ops))
    decreases ops
  {
    if ops != [] {
      var b' := FirstOp(b, ops, i);
      Timeline(b', ops[1..], i);
      TicksFromFront(b.slots[i], TickCount(ops[1..]));
    }
  }

  /** In every run, a node is on exactly in the first part of each period since it was added. */
  lemma NodeBlinks(b: State, k: nat, ops: seq<Op>)
    requires Inv(b) && Proper(ops) && k < POOL && k in b.chain && JustAdded(b.slots[k]) && SparesAll(b, ops, k)
    requires 1 <= b.slots[k].onLength <= 0x8000 && 1 <= b.slots[k].offLength <= 0x8000
    ensures var on, off := b.slots[k].onLength, b.slots[k].offLength;
            DoAll(b, ops).slots[k].status == 1 <==> TickCount(ops) % (on + off) < on
  {
    Timeline(b, ops, k);
    OnInFirstPart(b.slots[k], TickCount(ops));
  }

  predicate SameBeat(a: Slot, b: Slot) {
    a.onLength == b.onLength && a.offLength == b.offLength && a.countdown == b.countdown && a.status == b.status
  }

  /** What a node is and shows, whatever its beat. */
  predicate SameFace(a: Slot, b: Slot) {
    a.location == b.location && a.onChar == b.onChar && a.offChar == b.offChar
  }

  /** Synchronizing gives one node the beat of another and leaves all else; without either node it does nothing. */
  lemma SyncEffect(b: State, from: Word16, to: Word16)
    requires Inv(b)
    ensures var r, f, t := Do(b, Sync(from, to)), Find(b, from), Find(b, to);
            && r.chain == b.chain && |r.slots| == |b.slots|
            && (f.None? || t.None? ==> r == b)
            && (f.Some? && t.Some? ==>
                  && SameBeat(r.slots[t.value], b.slots[f.value]) && SameFace(r.slots[t.value], b.slots[t.value])
                  && forall i :: 0 <= i < POOL && i != t.value ==> r.slots[i] == b.slots[i])
  {
  }

  lemma {:induction false} BeatKept(a: Slot, b: Slot, t: nat)
    requires SameBeat(a, b)
    ensures SameBeat(Ticks(a, t), Ticks(b, t)) && SameFace(Ticks(a, t), a)
  {
    if t > 0 {
      BeatKept(a, b, t - 1);
    }
  }

  /** A node brought in step keeps the beat of the other through every run that neither removes nor synchronizes one. */
  lemma SyncedStayInStep(b: State, from: Word16, to: Word16, ops: seq<Op>)
    requires Inv(b) && Find(b, from).Some? && Find(b, to).Some? && Proper(ops)
    requires SparesAll(Synced(b, from, to), ops, Find(b, from).value) && SparesAll(Synced(b, from, to), ops, Find(b, to).value)
    ensures var r := DoAll(Synced(b, from, to), ops);
            && r.slots[Find(b, from).value] == Ticks(b.slots[Find(b, from).value], TickCount(ops))
            && SameBeat(r.slots[Find(b, to).value], r.slots[Find(b, from).value])
            && SameFace(r.slots[Find(b, to).value], b.slots[Find(b, to).value])
  {
    var f, t, a := Find(b, from).value, Find(b, to).value, Synced(b, from, to);
    Timeline(a, ops, f);
    Timeline(a, ops, t);
    BeatKept(a.slots[t], a.slots[f], TickCount(ops));
  }
}
