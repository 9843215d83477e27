/** The blink list as it is linked through the pool (fish/blink.S, fish/fish.c). */
module BlinkPool {
  import opened Machine
  import opened Blinks

  datatype Cell = Cell(slot: Slot, next: Option<nat>)

  function SlotsOf(cells: seq<Cell>): (s: seq<Slot>)
    ensures |s| == |cells| && forall i :: 0 <= i < |s| ==> s[i] == cells[i].slot
  {
    seq(|cells|, i requires 0 <= i < |cells| => cells[i].slot)
  }

  /** The link to place `i` of the list. */
  function LinkTo(chain: seq<nat>, i: nat): Option<nat> {
    if i < |chain| then Some(chain[i]) else None
  }

  predicate LinksOn(cells: seq<Cell>, chain: seq<nat>, i: nat)
    requires i < |chain|
  {
    chain[i] < |cells| && cells[chain[i]].next == LinkTo(chain, i + 1)
  }

  predicate Links(cells: seq<Cell>, head: Option<nat>, chain: seq<nat>) {
    head == LinkTo(chain, 0) && forall i :: 0 <= i < |chain| ==> LinksOn(cells, chain, i)
  }

  /** A list from which the node at place `p` is unlinked. */
  lemma Unlinked(was: seq<Cell>, head: Option<nat>, chain: seq<nat>, p: nat, now: seq<Cell>, newHead: Option<nat>)
    requires Links(was, head, chain) && p < |chain| && forall i, j :: 0 <= i < j < |chain| ==> chain[i] != chain[j]
    requires LinksOn(was, chain, p) && (p > 0 ==> LinksOn(was, chain, p - 1))
    requires var next := was[chain[p]].next;
             if p == 0 then now == was && newHead == next
             else now == was[chain[p - 1] := was[chain[p - 1]].(next := next)] && newHead == head
    ensures Links(now, newHead, Without(chain, p)) && SlotsOf(now) == SlotsOf(was) && chain[p] !in Without(chain, p)
  {
    var rest := Without(chain, p);
    assert forall i :: 0 <= i < |rest| ==> rest[i] == chain[if i < p then i else i + 1];
    forall i | 0 <= i < |rest| ensures LinksOn(now, rest, i) {
      assert LinksOn(was, chain, if i < p then i else i + 1);
    }
  }

  /** A list to which cell `k`, on it nowhere, is linked as the head. */
  lemma Pushed(was: seq<Cell>, head: Option<nat>, chain: seq<nat>, k: nat, node: Slot, now: seq<Cell>)
    requires Links(was, head, chain) && k < |was| && k !in chain && now == was[k := Cell(node, head)]
    ensures Links(now, Some(k), [k] + chain) && SlotsOf(now) == SlotsOf(was)[k := node]
  {
    var pushed := [k] + chain;
    forall i | 0 <= i < |pushed| ensures LinksOn(now, pushed, i) {
      assert i > 0 ==> LinksOn(was, chain, i - 1);
    }
  }

  lemma SameLinks(was: seq<Cell>, now: seq<Cell>, head: Option<nat>, chain: seq<nat>)
    requires Links(was, head, chain) && |now| == |was|
    requires forall i :: 0 <= i < |was| && i in chain ==> now[i].next == was[i].next
    ensures Links(now, head, chain)
  {
    forall i | 0 <= i < |chain| ensures LinksOn(now, chain, i) {
      assert LinksOn(was, chain, i);
    }
  }

  /** The cells of the first nodes of the list have ticked and the others are as they were. */
  predicate TickedCells(was: seq<Cell>, now: seq<Cell>, nodes: seq<nat>) {
    && |now| == |was|
    && forall i :: 0 <= i < |was| ==> now[i] == if i in nodes then was[i].(slot := Ticked(was[i].slot)) else was[i]
  }

  lemma AllTicked(was: seq<Cell>, now: seq<Cell>, head: Option<nat>, chain: seq<nat>)
    requires |was| == POOL && Links(was, head, chain) && Inv(State(SlotsOf(was), chain)) && TickedCells(was, now, chain)
    ensures Links(now, head, chain) && Inv(State(SlotsOf(now), chain))
    ensures State(SlotsOf(now), chain) == TickedAll(State(SlotsOf(was), chain))
  {
    SameLinks(was, now, head, chain);
    assert SlotsOf(now) == TickedAll(State(SlotsOf(was), chain)).slots;
  }

  class Pool {
    const cells: array<Cell>
    var head: Option<nat>
    ghost var chain: seq<nat>

    /** The cells are linked along the list. */
    ghost predicate Linked()
      reads this, cells
    {
      cells.Length == POOL && Links(cells[..], head, chain)
    }

    ghost function View(): State
      reads this, cells
    {
      State(SlotsOf(cells[..]), chain)
    }

    ghost predicate Valid()
      reads this, cells
    {
      Linked() && Inv(View())
    }

    constructor ()
      ensures Valid() && fresh(cells) && View() == EMPTY
    {
      cells := new Cell[POOL](_ => Cell(FREE, None));
      head := None;
      chain := [];
      new;
      assert SlotsOf(cells[..]) == Repeat(FREE, POOL);
    }

    /** mp1_malloc: the first cell whose location is zero. */
    method Malloc() returns (r: Option<nat>)
      requires cells.Length == POOL
      ensures var k := FirstFree(SlotsOf(cells[..]), 0);
              r == if k < POOL then Some(k) else None
    {
      var i := 0;
      while i < POOL
        invariant 0 <= i <= POOL
        invariant FirstFree(SlotsOf(cells[..]), i) == FirstFree(SlotsOf(cells[..]), 0)
      {
        if cells[i].slot.location == 0 {
          return Some(i);
        }
        i := i + 1;
      }
      return None;
    }

    /** mp1_find_helper. */
    method FindHelper(loc: Word16) returns (r: Option<nat>)
      requires Valid()
      ensures r == Find(View(), loc)
    {
      ghost var k := 0;
      r := head;
      while r.Some?
        invariant 0 <= k <= |chain| && r == LinkTo(chain, k)
        invariant Place(View(), loc, k) == Place(View(), loc, 0)
        decreases |chain| - k
      {
        assert LinksOn(cells[..], chain, k);
        if cells[r.value].slot.location == loc {
          return;
        }
        r := cells[r.value].next;
        k := k + 1;
      }
    }

    method AddNode(n: Slot) returns (r: int)
      requires Valid()
      modifies this, cells
      ensures Linked() && View() == Added(old(View()), n)
      ensures Valid() <==> Inv(Added(old(View()), n))
      ensures r == if n.location < POOL && FirstFree(old(View()).slots, 0) < POOL then 0 else -1
    {
      if n.location >= POOL {
        return -1;
      }
      var node := n.(status := 1);
      node := node.(countdown := node.onLength);
      var k := Malloc();
      if k.None? {
        return -1;
      }
      AddKeepsInvExactly(View(), n);
      cells[k.value] := Cell(node, head);
      Pushed(old(cells[..]), head, chain, k.value, node, cells[..]);
      head := k;
      chain := [k.value] + chain;
      return 0;
    }
  
    /** The walk of remove to the cell whose link leads to `node`; none if that link is the head. */
    method FindPrevious(node: nat) returns (prev: Option<nat>, ghost p: nat)
      requires Valid() && node in chain
      ensures if prev.None? then head == Some(node) else prev.value < POOL && cells[prev.value].next == Some(node)
      ensures p < |chain| && chain[p] == node && prev == if p == 0 then None else Some(chain[p - 1])
    {
      ghost var at :| 0 <= at < |chain| && chain[at] == node;
      prev, p := None, 0;
      var link := head;
      while link != Some(node)
        invariant p <= at && link == LinkTo(chain, p) && prev == if p == 0 then None else Some(chain[p - 1])
        invariant if prev.None? then head == link else prev.value < POOL && cells[prev.value].next == link
        decreases at - p
      {
        assert LinksOn(cells[..], chain, p);
        prev := link;
        link := cells[link.value].next;
        p := p + 1;
      }
    }

    method Unlink(prev: Option<nat>, node: nat, ghost p: nat)
      requires Valid() && p < |chain| && chain[p] == node && prev == if p == 0 then None else Some(chain[p - 1])
      modifies this, cells
      ensures Linked() && chain == Without(old(chain), p) && node !in chain
      ensures SlotsOf(cells[..]) == old(SlotsOf(cells[..]))
    {
      assert LinksOn(cells[..], chain, p) && (p > 0 ==> LinksOn(cells[..], chain, p - 1));
      var next := cells[node].next;
      if prev.None? {
        head := next;
      } else {
        cells[prev.value] := cells[prev.value].(next := next);
      }
      Unlinked(old(cells[..]), old(head), chain, p, cells[..], head);
      chain := Without(chain, p);
    }

    /** mp1_free of a cell that is not in the list. */
    method Free(node: nat)
      requires Linked() && node < POOL && node !in chain
      modifies cells
      ensures Linked() && SlotsOf(cells[..]) == old(SlotsOf(cells[..]))[node := FREE]
    {
      cells[node] := Cell(FREE, None);
      SameLinks(old(cells[..]), cells[..], head, chain);
      assert SlotsOf(cells[..]) == old(SlotsOf(cells[..]))[node := FREE];
    }

    method RemoveNode(arg: Word32) returns (r: int)
      requires Valid()
      modifies this, cells
      ensures Valid() && View() == Removed(old(View()), arg % 0x1_0000)
      ensures r == if Find(old(View()), arg % 0x1_0000).Some? then 0 else -1
    {
      var node := FindHelper(arg % 0x1_0000);
      RemoveKeepsInv(View(), arg % 0x1_0000);
      if node.None? {
        return -1;
      }
      ghost var b := View();
      var prev, p := FindPrevious(node.value);
      assert p == Place(b, arg % 0x1_0000, 0);
      Unlink(prev, node.value, p);
      Free(node.value);
      return 0;
    }

    method SetSlot(i: nat, s: Slot)
      requires Linked() && i < POOL
      modifies cells
      ensures Linked() && SlotsOf(cells[..]) == old(SlotsOf(cells[..]))[i := s]
    {
      cells[i] := cells[i].(slot := s);
      SameLinks(old(cells[..]), cells[..], head, chain);
      assert SlotsOf(cells[..]) == old(SlotsOf(cells[..]))[i := s];
    }

    /** The high half of the argument names the node to copy from, the low half the node to copy to. */
    method SyncNodes(arg: Word32) returns (r: int)
      requires Valid()
      modifies cells
      ensures Valid() && View() == Synced(old(View()), arg / 0x1_0000, arg % 0x1_0000)
      ensures r == if Find(old(View()), arg / 0x1_0000).Some? && Find(old(View()), arg % 0x1_0000).Some? then 0 else -1
    {
      var from := FindHelper(arg / 0x1_0000);
      if from.None? {
        return -1;
      }
      var to := FindHelper(arg % 0x1_0000);
      if to.None? {
        return -1;
      }
      var f, t := from.value, to.value;
      var s := cells[t].slot.(onLength := cells[f].slot.onLength);
      s := s.(offLength := cells[f].slot.offLength);
      s := s.(countdown := cells[f].slot.countdown);
      s := s.(status := cells[f].slot.status);
      SetSlot(t, s);
      return 0;
    }

    /** mp1_ioctl_find: a copy of the node, with its link to the node behind it. */
    method FindNode(loc: Word16) returns (r: Option<Cell>)
      requires Valid()
      ensures var b, p := View(), Place(View(), loc, 0);
              r == if p < |b.chain| then Some(Cell(b.slots[b.chain[p]], LinkTo(b.chain, p + 1))) else None
    {
      ghost var p := Place(View(), loc, 0);
      var node := FindHelper(loc);
      assert p < |chain| ==> LinksOn(cells[..], chain, p);
      r := if node.Some? then Some(cells[node.value]) else None;
    }

    method TickCell(i: nat)
      requires i < cells.Length
      modifies cells
      ensures cells[..] == old(cells[..])[i := old(cells[i]).(slot := Ticked(old(cells[i]).slot))]
    {
      var s := cells[i].slot;
      s := s.(countdown := (s.countdown + 0xFFFF) % 0x1_0000);
      if SignedWord16(s.countdown) <= 0 {
        var length := if s.status % 2 != 0 then s.offLength else s.onLength;
        s := s.(countdown := length);
        s := s.(status := Toggled(s.status));
      }
      cells[i] := cells[i].(slot := s);
    }

    /** mp1_rtc_tasklet: one tick of every node in the list. */
    method Tasklet()
      requires Valid()
      modifies cells
      ensures Valid() && View() == TickedAll(old(View()))
    {
      ghost var k, was := 0, cells[..];
      var node := head;
      while node.Some?
        invariant 0 <= k <= |chain| && node == LinkTo(chain, k) && TickedCells(was, cells[..], chain[..k])
        decreases |chain| - k
      {
        assert chain[..k + 1] == chain[..k] + [node.value] && LinksOn(was, chain, k);
        TickCell(node.value);
        node := cells[node.value].next;
        k := k + 1;
      }
      assert chain[..k] == chain;
      AllTicked(was, cells[..], head, chain);
    }
  
    /** One call of mp1_ioctl, or one tick. */
    method Perform(op: Op)
      requires Valid() && (op.Add? ==> op.node.location != 0)
      modifies this, cells
      ensures Valid() && View() == Do(old(View()), op)
    {
      ghost var after := Do(View(), op);
      match op {
        case Add(n) =>
          AddKeepsInvExactly(View(), n);
          var r := AddNode(n);
          assert View() == after;
        case Remove(loc) =>
          assert loc % 0x1_0000 == loc;
          var r := RemoveNode(loc);
          assert View() == after;
        case Sync(from, to) =>
          var arg := 0x1_0000 * from + to;
          assert arg / 0x1_0000 == from && arg % 0x1_0000 == to;
          var r := SyncNodes(arg);
          assert View() == after;
        case Tick =>
          Tasklet();
          assert View() == after;
      }
    }

    /** Every run keeps the list sound and does what the operations do on values. */
    method PerformAll(ops: seq<Op>)
      requires Valid() && Proper(ops)
      modifies this, cells
      ensures Valid() && View() == DoAll(old(View()), ops)
      decreases ops
    {
      if ops != [] {
        Perform(ops[0]);
        PerformAll(ops[1..]);
      }
    }
  }
}
