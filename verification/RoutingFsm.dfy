/** The state machine object: its index maps, updated in place event by event. */
module RoutingFsm {
  import opened Wrappers
  import opened SortedList
  import opened SlotList
  import opened Routing

  class Fsm {
    var node2Slot: map<Node, seq<Slot>>
    var slot2Node: map<Slot, Node>
    var migratings: map<string, Task>
    var masterSlaves: map<Node, seq<Node>>
    var slaveMasters: map<Node, Node>

    ghost function RoutesView(): Routes
      reads this
    {
      Routes(node2Slot, slot2Node)
    }

    ghost function RolesView(): Roles
      reads this
    {
      Roles(masterSlaves, slaveMasters)
    }

    ghost function View(): State
      reads this
    {
      State(RoutesView(), migratings, RolesView())
    }

    constructor ()
      ensures View() == Fresh()
    {
      node2Slot, slot2Node, migratings, masterSlaves, slaveMasters := map[], map[], map[], map[], map[];
    }

    method AddSlots(n: Node, slots: seq<Slot>)
      modifies `node2Slot, `slot2Node
      ensures RoutesView() == Routing.AddSlots(old(RoutesView()), n, slots)
    {
      for k := 0 to |slots|
        invariant RoutesView() == Routing.AddSlots(old(RoutesView()), n, slots[..k])
      {
        assert slots[..k + 1][..k] == slots[..k];
        AddSlot(n, slots[k]);
      }
      assert slots[..|slots|] == slots;
    }

    method AddSlot(n: Node, x: Slot)
      modifies `node2Slot, `slot2Node
      ensures RoutesView() == AddOne(old(RoutesView()), n, x)
    {
      var l := if n in node2Slot then node2Slot[n] else [];
      var i := Search(l, x);
      if !(i < |l| && l[i] == x) {
        assert |l[..i] + [x] + l[i..]| > |l|;
        node2Slot := node2Slot[n := l[..i] + [x] + l[i..]];
      }
      slot2Node := slot2Node[x := n];
    }

    method RemoveSlots(n: Node, slots: seq<Slot>)
      modifies `node2Slot, `slot2Node
      ensures RoutesView() == Routing.RemoveSlots(old(RoutesView()), n, slots)
    {
      for k := 0 to |slots|
        invariant RoutesView() == Routing.RemoveSlots(old(RoutesView()), n, slots[..k])
      {
        assert slots[..k + 1][..k] == slots[..k];
        var x := slots[k];
        var l := if n in node2Slot then node2Slot[n] else [];
        var i := Search(l, x);
        var rest := l;
        while i < |rest| && rest[i] == x
          invariant CutRun(rest, i, x) == Remove(l, x)
          decreases |rest|
        {
          rest := rest[..i] + rest[i + 1..];
        }
        Drop(n, x, l, rest);
      }
      assert slots[..|slots|] == slots;
    }

    /** Stores the node's shortened list and stops routing x to the node. */
    method Drop(n: Node, x: Slot, l: seq<Slot>, rest: seq<Slot>)
      requires ListOf(RoutesView(), n) == l && rest == Remove(l, x)
      modifies `node2Slot, `slot2Node
      ensures RoutesView() == RemoveOne(old(RoutesView()), n, x)
    {
      if rest != l {
        node2Slot := node2Slot[n := rest];
      }
      if x in slot2Node && slot2Node[x] == n {
        slot2Node := slot2Node - {x};
      }
    }

    /** RemoveSlots ranging over the node's own list: the cells it reads are
        the cells its removals shift. */
    method RemoveOwnSlots(n: Node)
      modifies `node2Slot, `slot2Node
      ensures var l := ListOf(old(RoutesView()), n);
              RoutesView() == Routing.RemoveSlots(old(RoutesView()), n, Reads(l, |l|))
    {
      var l := if n in node2Slot then node2Slot[n] else [];
      var cells := new Slot[|l|](j requires 0 <= j < |l| => l[j]);
      var len: nat := |l|;
      assert cells[..] == l;
      for k := 0 to |l|
        invariant len <= |l| == cells.Length
        invariant Sweep(cells[..], len) == SweepTo(l, k)
        invariant RoutesView() == Routing.RemoveSlots(old(RoutesView()), n, Reads(l, k))
      {
        len := RemoveOwnSlot(n, cells, len, k, old(RoutesView()), l);
      }
    }

    /** Step k of the pass: reads cell k and removes that slot. */
    method RemoveOwnSlot(n: Node, cells: array<Slot>, len: nat, k: nat, ghost r: Routes, ghost l: seq<Slot>) returns (len': nat)
      requires ListOf(r, n) == l && k < |l| == cells.Length && len <= |l| && Sweep(cells[..], len) == SweepTo(l, k)
      requires RoutesView() == Routing.RemoveSlots(r, n, Reads(l, k))
      modifies `node2Slot, `slot2Node, cells
      ensures len' <= |l| && Sweep(cells[..], len') == SweepTo(l, k + 1)
      ensures RoutesView() == Routing.RemoveSlots(r, n, Reads(l, k + 1))
    {
      OwnStep(r, n, l, k);
      var x := cells[k];
      var before, rest;
      before, len', rest := RemoveCell(cells, len, x);
      Drop(n, x, before, rest);
    }

    /** Moves the slaves, the old master included, under the new master. */
    method Failover(oldMaster: Node, newMaster: Node)
      requires oldMaster in masterSlaves
      modifies `masterSlaves, `slaveMasters
      ensures RolesView() == Routing.Failover(old(RolesView()), oldMaster, newMaster)
    {
      var oldSlaves := masterSlaves[oldMaster];
      var newSlaves: seq<Node> := [];
      for k := 0 to |oldSlaves|
        invariant newSlaves == Without(oldSlaves[..k], newMaster)
        invariant slaveMasters == old(slaveMasters) + map x | x in newSlaves :: newMaster
        invariant masterSlaves == old(masterSlaves)
      {
        assert oldSlaves[..k + 1][..k] == oldSlaves[..k];
        if oldSlaves[k] != newMaster {
          slaveMasters := slaveMasters[oldSlaves[k] := newMaster];
          newSlaves := newSlaves + [oldSlaves[k]];
        }
      }
      assert oldSlaves[..|oldSlaves|] == oldSlaves;
      masterSlaves := masterSlaves - {oldMaster};
      slaveMasters := slaveMasters[oldMaster := newMaster];
      slaveMasters := slaveMasters - {newMaster};
      masterSlaves := masterSlaves[newMaster := newSlaves + [oldMaster]];
    }

    method AddNode(id: Node, master: Option<Node>) returns (ok: bool)
      modifies `masterSlaves, `slaveMasters
      ensures RolesView() == Routing.AddNode(old(RolesView()), id, master)
      ensures ok == (master.None? || master.value in old(masterSlaves))
    {
      if master.None? {
        masterSlaves := masterSlaves[id := []];
        return true;
      }
      var m := master.value;
      if m !in masterSlaves {
        return false;
      }
      var slaves := masterSlaves[m];
      var exists_ := false;
      for k := 0 to |slaves|
        invariant !exists_ && id !in slaves[..k]
      {
        if slaves[k] == id {
          exists_ := true;
          break;
        }
      }
      if !exists_ {
        slaves := slaves + [id];
      }
      masterSlaves := masterSlaves[m := slaves];
      slaveMasters := slaveMasters[id := m];
      return true;
    }

    method Seed(leader: Node, count: nat)
      modifies `node2Slot, `slot2Node
      ensures RoutesView() == Routing.Seed(old(RoutesView()), leader, count)
    {
      var slots: seq<Slot> := [];
      for i := 0 to count
        invariant slots == seq(i, j => j)
        invariant slot2Node == old(slot2Node) + map x | x in slots :: leader
        invariant node2Slot == old(node2Slot)
      {
        slot2Node := slot2Node[i := leader];
        slots := slots + [i];
      }
      node2Slot := node2Slot[leader := slots];
    }

    /** The event handler; `crashed` when a failover names an unknown master.
        A failover of a master onto itself is taken only with an ascending
        list, where the first pass over the list inserts nothing. */
    method Apply(e: Event) returns (crashed: bool)
      requires e.FinishFailover? && e.oldMaster == e.newMaster ==> Exact(RoutesView(), e.oldMaster)
      modifies this
      ensures (if crashed then None else Some(View())) == Routing.Apply(old(View()), e)
    {
      crashed := false;
      match e
      case SeedStart(leader, count) =>
        SeedStart(leader, count);
      case Join(id, master) =>
        var _ := AddNode(id, master);
      case StartMigrate(t) =>
        migratings := migratings[t.id := t];
      case FinishMigrate(t) =>
        migratings := migratings - {t.id};
        Migrate(t);
      case FinishFailover(o, n) =>
        crashed := FinishFailover(o, n);
    }

    method FinishFailover(o: Node, n: Node) returns (crashed: bool)
      requires o == n ==> Exact(RoutesView(), o)
      modifies `node2Slot, `slot2Node, `masterSlaves, `slaveMasters
      ensures crashed == (o !in old(RolesView()).masterSlaves)
      ensures !crashed ==>
                && RolesView() == Routing.Failover(old(RolesView()), o, n)
                && RoutesView() == Routing.Reroute(old(RoutesView()), o, n)
    {
      if o !in masterSlaves {
        return true;
      }
      Failover(o, n);
      Reroute(o, n);
      crashed := false;
    }

    method SeedStart(leader: Node, count: nat)
      modifies `node2Slot, `slot2Node, `masterSlaves, `slaveMasters
      ensures RoutesView() == Routing.Seed(old(RoutesView()), leader, count)
      ensures RolesView() == Routing.AddNode(old(RolesView()), leader, None)
    {
      Seed(leader, count);
      var _ := AddNode(leader, None);
    }

    method Migrate(t: Task)
      modifies `node2Slot, `slot2Node
      ensures RoutesView() == Routing.Migrate(old(RoutesView()), t)
    {
      AddSlots(t.target, t.slots);
      RemoveSlots(t.src, t.slots);
    }

    method Reroute(o: Node, n: Node)
      requires o == n ==> Exact(RoutesView(), o)
      modifies `node2Slot, `slot2Node
      ensures RoutesView() == Routing.Reroute(old(RoutesView()), o, n)
    {
      ghost var r := RoutesView();
      var l := if o in node2Slot then node2Slot[o] else [];
      AddSlots(n, l);
      if o == n {
        AddSlotsList(r, o, l);
        SameAscending(ListOf(RoutesView(), o), l);
      } else {
        AddSlotsOther(r, n, l, o);
      }
      RemoveOwnSlots(o);
    }
  }

  /** One step of the pass is one removal from the routing table. */
  lemma OwnStep(r: Routes, n: Node, l: seq<Slot>, k: nat)
    requires ListOf(r, n) == l && k < |l|
    ensures var w, w' := SweepTo(l, k), SweepTo(l, k + 1);
            var r1 := Routing.RemoveSlots(r, n, Reads(l, k));
            && ListOf(r1, n) == w.backing[..w.len]
            && w'.backing[..w'.len] == Remove(w.backing[..w.len], Read(l, k))
            && Routing.RemoveSlots(r, n, Reads(l, k + 1)) == RemoveOne(r1, n, Read(l, k))
  {
    RemoveSlotsList(r, n, Reads(l, k), n);
    SweepRemovesReads(l, k);
    TakeOutRemoves(SweepTo(l, k), Read(l, k));
    assert Reads(l, k + 1)[..k] == Reads(l, k);
  }

  method ShiftInPlace(cells: array<Slot>, len: nat, i: nat)
    requires i < len <= cells.Length
    modifies cells
    ensures Sweep(cells[..], len - 1) == Shift(Sweep(old(cells[..]), len), i)
  {
    forall j | i <= j < len - 1 {
      cells[j] := cells[j + 1];
    }
    ghost var r := Shift(Sweep(old(cells[..]), len), i).backing;
    assert forall j :: 0 <= j < cells.Length ==> cells[j] == r[j];
  }

  /** RemoveInPlace with the list before and after it. */
  method RemoveCell(cells: array<Slot>, len: nat, x: Slot) returns (before: seq<Slot>, len': nat, rest: seq<Slot>)
    requires len <= cells.Length
    modifies cells
    ensures len' <= cells.Length && before == old(cells[..])[..len] && rest == cells[..][..len']
    ensures Sweep(cells[..], len') == TakeOut(Sweep(old(cells[..]), len), x)
  {
    before := cells[..len];
    assert before == cells[..][..len];
    len' := RemoveInPlace(cells, len, x);
    rest := cells[..len'];
    assert rest == cells[..][..len'];
  }

  /** Removes the run of x from cells[..len], shifting what follows it. */
  method RemoveInPlace(cells: array<Slot>, len: nat, x: Slot) returns (len': nat)
    requires len <= cells.Length
    modifies cells
    ensures len' <= cells.Length && Sweep(cells[..], len') == TakeOut(Sweep(old(cells[..]), len), x)
  {
    assert cells[..len] == cells[..][..len];
    var i := Search(cells[..len], x);
    len' := len;
    while i < len' && cells[i] == x
      invariant len' <= cells.Length
      invariant ShiftRun(Sweep(cells[..], len'), i, x) == ShiftRun(Sweep(old(cells[..]), len), i, x)
      decreases len'
    {
      ShiftInPlace(cells, len', i);
      len' := len' - 1;
    }
  }
}
