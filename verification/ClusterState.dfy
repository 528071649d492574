/** The control-plane objects of one node, updated in place. Every method is
    proved to turn the abstract state into the one ClusterSpec prescribes. */
module ClusterState {
  import opened Wrappers
  import opened SlotBitmap
  import opened ClusterSpec

  class ClusterNode {
    const id: NodeId
    var flags: set<Flag>
    var masterID: NodeId
    var configEpoch: Uint64
    var slots: Bitmap

    constructor (id: NodeId, flags: set<Flag>)
      ensures this.id == id && View() == FreshNode(flags)
    {
      this.id := id;
      this.flags := flags;
      masterID := "";
      configEpoch := 0;
      slots := EmptyBitmap();
      new;
      EmptyOwned();
    }

    ghost function View(): NodeView
      reads this
    {
      NodeView(flags, masterID, configEpoch, Owned(slots))
    }

    method AddSlot(slot: Slot)
      modifies this`slots
      ensures Owned(slots) == old(Owned(slots)) + {slot}
    {
      AddSlotOwned(slots, slot);
      slots := SlotBitmap.AddSlot(slots, slot);
    }

    method DelSlot(slot: Slot)
      modifies this`slots
      ensures Owned(slots) == old(Owned(slots)) - {slot}
    {
      DelSlotOwned(slots, slot);
      slots := SlotBitmap.DelSlot(slots, slot);
    }
  }

  class ClusterState {
    var self: ClusterNode
    var nodes: map<NodeId, ClusterNode>
    const slots: array<ClusterNode?>
    var epoch: Uint64
    var lastVoteEpoch: Uint64
    var failover: Option<Failover>

    /** Node objects are keyed by their ids, this node is among them, and the
        slot table points at known node objects only. */
    ghost predicate Valid()
      reads this, slots
    {
      && slots.Length == SLOT_COUNT
      && self.id in nodes && nodes[self.id] == self
      && (forall k :: k in nodes ==> nodes[k].id == k)
      && (forall i :: 0 <= i < SLOT_COUNT && slots[i] != null ==> slots[i].id in nodes && nodes[slots[i].id] == slots[i])
    }

    ghost function OwnerId(n: ClusterNode?): Option<NodeId>
    {
      if n == null then None else Some(n.id)
    }

    ghost function View(): (st: State)
      requires Valid()
      reads this, slots, nodes.Values
      ensures WellFormed(st)
    {
      State(self.id, NodesView(), SlotsView(), epoch, lastVoteEpoch, failover)
    }

    ghost function NodesView(): map<NodeId, NodeView>
      reads this`nodes, nodes.Values
    {
      map k | k in nodes :: nodes[k].View()
    }

    ghost function SlotsView(): seq<Option<NodeId>>
      requires slots.Length == SLOT_COUNT
      reads slots
    {
      seq(SLOT_COUNT, i requires 0 <= i < SLOT_COUNT reads slots => OwnerId(slots[i]))
    }

    constructor (id: NodeId, startEpoch: Uint64)
      ensures Valid() && View() == Boot(id, startEpoch)
      ensures fresh(slots) && fresh(nodes.Values)
    {
      var me := new ClusterNode(id, {Myself, Master});
      self := me;
      nodes := map[id := me];
      slots := new ClusterNode?[SLOT_COUNT](_ => null);
      epoch := startEpoch;
      lastVoteEpoch := 0;
      failover := None;
      new;
      assert View().slots == Boot(id, startEpoch).slots;
      assert View().nodes == Boot(id, startEpoch).nodes;
    }

    method SetConfigEpoch(n: ClusterNode, e: Uint64)
      requires Valid() && n.id in nodes && nodes[n.id] == n
      modifies n`configEpoch
      ensures Valid()
      ensures NodesView() == old(NodesView())[n.id := old(n.View()).(configEpoch := e)]
    {
      n.configEpoch := e;
      assert NodesView() == old(NodesView())[n.id := n.View()];
    }

    method OwnSlots(claimed: seq<Slot>)
      requires Valid()
      modifies slots, self`slots
      ensures Valid()
      ensures SlotsView() == Reassign(old(SlotsView()), self.id, SlotSet(claimed))
      ensures NodesView() == old(NodesView())[self.id := old(self.View()).(owned := old(Owned(self.slots)) + SlotSet(claimed))]
    {
      for i := 0 to |claimed|
        invariant Valid()
        invariant forall s: Slot :: slots[s] == if s in claimed[..i] then self else old(slots[s])
        invariant Owned(self.slots) == old(Owned(self.slots)) + SlotSet(claimed[..i])
      {
        slots[claimed[i]] := self;
        self.AddSlot(claimed[i]);
        assert claimed[..i + 1] == claimed[..i] + [claimed[i]];
      }
      assert claimed[..|claimed|] == claimed;
      assert SlotsView() == Reassign(old(SlotsView()), self.id, SlotSet(claimed));
      assert NodesView() == old(NodesView())[self.id := self.View()];
    }

    method AddSlots(claimed: seq<Slot>)
      requires Valid()
      modifies this`epoch, slots, self
      ensures Valid()
      ensures View() == ClusterSpec.AddSlots(old(View()), claimed)
    {
      if |claimed| > 0 {
        epoch := Bump(epoch);
        SetConfigEpoch(self, epoch);
      }
      OwnSlots(claimed);
    }

    method DelSlots(dropped: seq<Slot>)
      requires Valid()
      modifies slots, self
      ensures Valid()
      ensures View() == ClusterSpec.DelSlots(old(View()), dropped)
    {
      for i := 0 to |dropped|
        invariant Valid()
        invariant forall s: Slot :: slots[s] == if s in dropped[..i] && old(slots[s]) == self then null else old(slots[s])
        invariant self.View() == old(self.View()).(owned := old(Owned(self.slots)) - SlotSet(dropped[..i]))
      {
        if slots[dropped[i]] == self {
          slots[dropped[i]] := null;
        }
        self.DelSlot(dropped[i]);
        assert dropped[..i + 1] == dropped[..i] + [dropped[i]];
      }
      assert dropped[..|dropped|] == dropped;
      ghost var r := ClusterSpec.DelSlots(old(View()), dropped);
      assert View().slots == r.slots;
      assert View().nodes == r.nodes;
    }

    /** Hand `slot` to node `n`: the slot's owner, if any, gives up its bit. */
    method TakeSlot(n: ClusterNode, slot: Slot)
      requires Valid() && n.id in nodes && nodes[n.id] == n
      modifies slots, nodes.Values
      ensures Valid()
      ensures View() == TakeSlots(old(View()), n.id, {slot})
    {
      var owner := slots[slot];
      if owner != null {
        owner.DelSlot(slot);
      }
      slots[slot] := n;
      n.AddSlot(slot);
      TakeOneSlot(old(View()), n.id, slot, View());
    }

    method AssignSlotToNode(slot: Slot, id: NodeId) returns (known: bool)
      requires Valid()
      modifies this, slots, nodes.Values
      ensures Valid()
      ensures known == (id in old(nodes))
      ensures View() == ClusterSpec.AssignSlot(old(View()), slot, id)
    {
      if id !in nodes {
        return false;
      }
      var n := nodes[id];
      epoch := Bump(epoch);
      SetConfigEpoch(n, epoch);
      TakeSlot(n, slot);
      return true;
    }

    /** Forgetting this node itself, which the command refuses, leaves it without
        slots and out of its own node table. */
    method ForgetNode(id: NodeId)
      requires Valid()
      modifies this`nodes, slots
      ensures id != self.id ==> Valid() && View() == ClusterSpec.ForgetNode(old(View()), id)
      ensures nodes == old(nodes) - {id}
      ensures forall s: Slot :: slots[s] == if id in old(nodes) && old(slots[s]) == old(nodes)[id] then null else old(slots[s])
    {
      if id in nodes {
        FreeSlots(nodes[id]);
        nodes := nodes - {id};
        if id != self.id {
          ghost var r := ClusterSpec.ForgetNode(old(View()), id);
          assert View().slots == r.slots;
          assert View().nodes == r.nodes;
        }
      }
    }

    method FreeSlots(n: ClusterNode)
      requires Valid()
      modifies slots
      ensures Valid() && forall s: Slot :: slots[s] == if old(slots[s]) == n then null else old(slots[s])
    {
      for i := 0 to SLOT_COUNT
        invariant Valid() && forall s: Slot :: slots[s] == if s < i && old(slots[s]) == n then null else old(slots[s])
      {
        if slots[i] == n {
          slots[i] := null;
        }
      }
    }

    method ClearTable()
      requires Valid()
      modifies slots
      ensures Valid() && forall s: Slot :: slots[s] == null
    {
      for i := 0 to SLOT_COUNT
        invariant Valid() && forall s: Slot :: s < i ==> slots[s] == null
      {
        slots[i] := null;
      }
    }

    method ClearBits()
      modifies self`slots
      ensures Owned(self.slots) == {}
    {
      for i := 0 to SLOT_COUNT
        invariant forall s: Slot :: s < i ==> s !in Owned(self.slots)
      {
        self.DelSlot(i);
      }
      assert forall s: Slot :: s !in Owned(self.slots);
    }

    method Reset()
      requires Valid()
      modifies this, slots, self
      ensures Valid()
      ensures View() == ClusterSpec.Reset(old(View()))
    {
      ClearTable();
      ClearBits();
      nodes := map[self.id := self];
      epoch := 0;
      ghost var r := ClusterSpec.Reset(old(View()));
      assert View().slots == r.slots;
      assert View().nodes == r.nodes;
    }

    method Replicate(masterID: NodeId) returns (known: bool)
      requires Valid()
      modifies self
      ensures Valid()
      ensures known == (masterID in nodes)
      ensures View() == ClusterSpec.Replicate(old(View()), masterID)
    {
      if masterID !in nodes {
        return false;
      }
      self.flags := self.flags - {Master};
      self.flags := self.flags + {Slave};
      self.masterID := masterID;
      ghost var r := ClusterSpec.Replicate(old(View()), masterID);
      assert View().nodes == r.nodes;
      return true;
    }

    /** Add a node object for an id not seen before. */
    method Learn(id: NodeId, flags: set<Flag>) returns (n: ClusterNode)
      requires Valid() && id !in nodes
      modifies this`nodes
      ensures Valid() && fresh(n) && n.id == id && nodes == old(nodes)[id := n]
      ensures View() == old(View()).(nodes := old(View()).nodes[id := FreshNode(flags)])
    {
      n := new ClusterNode(id, flags);
      nodes := nodes[id := n];
      assert NodesView() == old(NodesView())[id := FreshNode(flags)];
    }

    /** The sender's node object, created if it is new and has a name. */
    method FindSender(h: Header) returns (sender: ClusterNode?)
      requires Valid()
      modifies this`nodes
      ensures Valid() && fresh(nodes.Values - old(nodes.Values))
      ensures View() == if h.sender in old(nodes) || h.sender == "" then old(View())
                        else old(View()).(nodes := old(View()).nodes[h.sender := FreshNode({Master})])
      ensures sender == if h.sender in nodes then nodes[h.sender] else null
    {
      sender := if h.sender in nodes then nodes[h.sender] else null;
      if sender == null && h.sender != "" && h.sender != self.id {
        sender := Learn(h.sender, {Master});
      }
    }

    /** Record the sender's epochs, creating its node object if it is new. */
    method MeetSender(h: Header) returns (sender: ClusterNode?)
      requires Valid()
      modifies this`epoch, this`nodes, nodes.Values
      ensures Valid() && fresh(nodes.Values - old(nodes.Values))
      ensures View() == ClusterSpec.MeetSender(old(View()), h)
      ensures if h.sender in nodes then sender == nodes[h.sender] else sender == null
    {
      ghost var st := View();
      NoteEpoch(h.currentEpoch);
      ghost var noted := View();
      sender := FindSender(h);
      ghost var found := View();
      if sender != null {
        Adopt(sender, h.configEpoch);
      }
      MeetingSteps(st, h, noted, found, View());
    }

    method NoteEpoch(e: Uint64)
      requires Valid()
      modifies this`epoch
      ensures Valid() && View() == old(View()).(epoch := if e > old(epoch) then e else old(epoch))
    {
      if e > epoch {
        epoch := e;
      }
    }

    method Adopt(n: ClusterNode, e: Uint64)
      requires Valid() && n.id in nodes && nodes[n.id] == n
      modifies n`configEpoch
      ensures Valid()
      ensures View() == old(View()).(nodes := old(View()).nodes[n.id := old(View()).nodes[n.id].(configEpoch := e)])
    {
      SetConfigEpoch(n, e);
    }

    /** The body of the slot loop of a merge: keep the slot's owner unless the
        sender claims the slot with a higher config epoch. */
    method MergeSlot(sender: ClusterNode, h: Header, s: Slot, ghost st: State)
      requires Valid() && WellFormed(st) && h.sender in st.nodes
      requires sender.id == h.sender && h.sender in nodes && nodes[h.sender] == sender
      requires View() == TakeSlots(st, h.sender, Winnable(st, h.sender, h.configEpoch, h.slots, s))
      modifies slots, nodes.Values
      ensures Valid()
      ensures View() == TakeSlots(st, h.sender, Winnable(st, h.sender, h.configEpoch, h.slots, s + 1))
    {
      MergeStep(st, h.sender, h.configEpoch, h.slots, s);
      assert View().slots[s] == st.slots[s];
      if HasSlot(h.slots, s) {
        var owner := slots[s];
        if owner == sender {
          return;
        }
        if owner != null && owner.configEpoch >= h.configEpoch {
          assert ConfigEpochOf(View(), s) == owner.configEpoch;
          return;
        }
        assert owner != null ==> ConfigEpochOf(View(), s) == owner.configEpoch;
        TakeSlot(sender, s);
      }
    }

    method MergeSlots(sender: ClusterNode, h: Header)
      requires Valid() && sender.id == h.sender && h.sender in nodes && nodes[h.sender] == sender
      modifies slots, nodes.Values
      ensures Valid()
      ensures View() == TakeSlots(old(View()), h.sender, Winnable(old(View()), h.sender, h.configEpoch, h.slots, SLOT_COUNT))
    {
      ghost var st := View();
      TakeNothing(st, h.sender, Winnable(st, h.sender, h.configEpoch, h.slots, 0));
      for s := 0 to SLOT_COUNT
        invariant Valid()
        invariant View() == TakeSlots(st, h.sender, Winnable(st, h.sender, h.configEpoch, h.slots, s))
      {
        MergeSlot(sender, h, s, st);
      }
    }

    method MergeHeader(h: Header)
      requires Valid()
      modifies this`epoch, this`nodes, slots, nodes.Values
      ensures Valid() && fresh(nodes.Values - old(nodes.Values))
      ensures View() == ClusterSpec.MergeHeader(old(View()), h)
    {
      var sender := MeetSender(h);
      if sender != null {
        MergeSlots(sender, h);
      }
    }

    method MergeEntry(e: Entry)
      requires Valid()
      modifies this`nodes, nodes.Values
      ensures Valid() && fresh(nodes.Values - old(nodes.Values))
      ensures View() == ClusterSpec.MergeEntry(old(View()), e)
    {
      if e.id == "" || e.id == self.id {
        return;
      }
      if e.id !in nodes {
        var _ := Learn(e.id, e.flags);
      } else {
        var n := nodes[e.id];
        if Fail in e.flags {
          n.flags := n.flags - {PFail};
          n.flags := n.flags + {Fail};
        } else if PFail in e.flags && Fail !in n.flags {
          n.flags := n.flags + {PFail};
        }
        assert NodesView() == ClusterSpec.MergeEntry(old(View()), e).nodes;
      }
    }

    method MergeFromMessage(h: Header, entries: seq<Entry>)
      requires Valid()
      modifies this`epoch, this`nodes, slots, nodes.Values
      ensures Valid() && fresh(nodes.Values - old(nodes.Values))
      ensures View() == Merge(old(View()), h, entries)
    {
      MergeHeader(h);
      ghost var st := View();
      for i := 0 to |entries|
        invariant Valid() && fresh(nodes.Values - old(nodes.Values))
        invariant View() == MergeEntries(st, entries[..i])
      {
        MergeEntry(entries[i]);
        assert entries[..i + 1][..i] == entries[..i];
      }
      assert entries[..|entries|] == entries;
    }

    method GrantVote(replica: NodeId, failed: NodeId, reqEpoch: Uint64) returns (granted: bool)
      requires Valid()
      modifies this`lastVoteEpoch
      ensures Valid()
      ensures granted == MayVote(old(View()), replica, failed, reqEpoch)
      ensures View() == ClusterSpec.GrantVote(old(View()), replica, failed, reqEpoch)
    {
      if reqEpoch < epoch {
        return false;
      }
      if lastVoteEpoch >= reqEpoch {
        return false;
      }
      if failed !in nodes || Fail !in nodes[failed].flags {
        return false;
      }
      if replica !in nodes || nodes[replica].masterID != failed {
        return false;
      }
      lastVoteEpoch := reqEpoch;
      return true;
    }

    /** Returns whether an acknowledgement naming the sender is to be sent. */
    method HandleAuthRequest(h: Header) returns (granted: bool)
      requires Valid()
      modifies this`lastVoteEpoch
      ensures Valid()
      ensures granted == GrantsRequest(old(View()), h.sender, h.currentEpoch)
      ensures View() == ClusterSpec.HandleAuthRequest(old(View()), h.sender, h.currentEpoch)
    {
      if Master !in self.flags {
        return false;
      }
      var masterID := if h.sender in nodes then nodes[h.sender].masterID else "";
      if masterID == "" {
        return false;
      }
      granted := GrantVote(h.sender, masterID, h.currentEpoch);
    }

    method MasterCount() returns (count: nat)
      requires Valid()
      ensures count == |Masters(View())|
    {
      count := 0;
      var rest := nodes.Keys;
      ghost var masters := set k | k in nodes && Master in nodes[k].flags;
      ghost var seen: set<NodeId> := {};
      while rest != {}
        invariant seen !! rest && seen + rest == nodes.Keys
        invariant count == |masters * seen|
        decreases rest
      {
        var k :| k in rest;
        if Master in nodes[k].flags {
          count := count + 1;
          assert masters * (seen + {k}) == masters * seen + {k};
        } else {
          assert masters * (seen + {k}) == masters * seen;
        }
        rest := rest - {k};
        seen := seen + {k};
      }
      assert masters * seen == masters;
      assert Masters(View()) == masters;
    }

    method StartElection(failed: NodeId)
      requires Valid()
      modifies this`epoch, this`failover
      ensures Valid()
      ensures View() == ClusterSpec.StartElection(old(View()), failed)
    {
      epoch := Bump(epoch);
      var reqEpoch := epoch;
      var masters := MasterCount();
      assert Masters(View()) == Masters(old(View()));
      failover := Some(Failover(true, {}, masters / 2 + 1, reqEpoch, failed));
    }

    method RecordVote(voter: NodeId, voteEpoch: Uint64) returns (won: bool)
      requires Valid()
      modifies this`failover
      ensures Valid()
      ensures View() == ClusterSpec.RecordVote(old(View()), voter, voteEpoch)
      ensures won == (View() != old(View()) && Won(View()))
    {
      if failover.None? || !failover.value.active {
        return false;
      }
      if voteEpoch != failover.value.reqEpoch {
        return false;
      }
      if voter in failover.value.votes {
        assert failover.value.votes + {voter} == failover.value.votes;
        return false;
      }
      failover := Some(failover.value.(votes := failover.value.votes + {voter}));
      return |failover.value.votes| >= failover.value.votesNeeded;
    }

    method HandleAuthAck(h: Header, entries: seq<Entry>)
      requires Valid()
      modifies this`failover
      ensures Valid()
      ensures View() == ClusterSpec.HandleAuthAck(old(View()), h.sender, h.configEpoch, entries)
    {
      if Slave !in self.flags {
        return;
      }
      var targeted := false;
      for i := 0 to |entries|
        invariant targeted <==> exists e :: e in entries[..i] && e.id == self.id
      {
        assert entries[..i + 1] == entries[..i] + [entries[i]];
        if entries[i].id == self.id {
          targeted := true;
        }
      }
      assert entries[..|entries|] == entries;
      if targeted {
        var _ := RecordVote(h.sender, h.configEpoch);
      }
    }

    /** Move every slot of the failed master's bitmap to this node. */
    method MoveSlots(failed: ClusterNode)
      requires Valid() && failed.id in nodes && nodes[failed.id] == failed
      modifies slots, failed`slots, self`slots
      ensures Valid()
      ensures forall s: Slot :: slots[s] == if s in old(Owned(failed.slots)) then self else old(slots[s])
      ensures failed != self ==> Owned(failed.slots) == {}
      ensures failed != self ==> Owned(self.slots) == old(Owned(self.slots)) + old(Owned(failed.slots))
      ensures failed == self ==> Owned(self.slots) == old(Owned(self.slots))
    {
      ghost var gained := Owned(failed.slots);
      for slot := 0 to SLOT_COUNT
        invariant Valid()
        invariant forall s: Slot :: slots[s] == if s < slot && s in gained then self else old(slots[s])
        invariant failed != self ==> Owned(failed.slots) == set s | s in gained && s >= slot
        invariant failed != self ==> Owned(self.slots) == old(Owned(self.slots)) + set s | s in gained && s < slot
        invariant failed == self ==> Owned(self.slots) == gained
      {
        assert HasSlot(failed.slots, slot) <==> slot in Owned(failed.slots);
        if HasSlot(failed.slots, slot) {
          failed.DelSlot(slot);
          slots[slot] := self;
          self.AddSlot(slot);
        }
      }
    }

    method TakeOver(failed: ClusterNode)
      requires Valid() && failed.id in nodes && nodes[failed.id] == failed
      modifies slots, failed`slots, self`slots
      ensures Valid()
      ensures SlotsView() == Reassign(old(SlotsView()), self.id, old(Owned(failed.slots)))
      ensures NodesView() == GainAll(old(NodesView()), self.id, failed.id)
    {
      MoveSlots(failed);
      assert SlotsView() == Reassign(old(SlotsView()), self.id, old(Owned(failed.slots)));
      ghost var r := GainAll(old(NodesView()), self.id, failed.id);
      assert r[self.id] == self.View();
      assert r[failed.id] == failed.View();
      assert NodesView() == r;
    }

    /** Turn this node into a master holding the current epoch. */
    method Promote()
      requires Valid()
      modifies self
      ensures Valid() && self.slots == old(self.slots)
      ensures NodesView() == old(NodesView())[self.id := old(self.View()).(
                flags := old(self.flags) - {Slave} + {Master}, masterID := "", configEpoch := epoch)]
    {
      self.flags := self.flags - {Slave};
      self.flags := self.flags + {Master};
      self.masterID := "";
      self.configEpoch := epoch;
      assert NodesView() == old(NodesView())[self.id := self.View()];
    }

    method ClaimOwnership(failedID: NodeId)
      requires Valid()
      modifies this`failover, slots, nodes.Values
      ensures Valid()
      ensures View() == ClusterSpec.ClaimOwnership(old(View()), failedID)
    {
      if failedID !in nodes {
        return;
      }
      PromoteAndTake(nodes[failedID]);
      if failover.Some? {
        failover := Some(failover.value.(active := false));
      }
    }

    method PromoteAndTake(failed: ClusterNode)
      requires Valid() && failed.id in nodes && nodes[failed.id] == failed
      modifies slots, nodes.Values
      ensures Valid()
      ensures SlotsView() == Reassign(old(SlotsView()), self.id, old(NodesView())[failed.id].owned)
      ensures NodesView() == GainAll(old(NodesView())[self.id := old(NodesView())[self.id].(
                flags := old(NodesView())[self.id].flags - {Slave} + {Master}, masterID := "", configEpoch := epoch)],
                self.id, failed.id)
    {
      Promote();
      TakeOver(failed);
    }

    /** One failover tick. `timedOut` is what the clock says about the vote
        deadline; returns whether an election was won. */
    method CheckFailoverTick(timedOut: bool) returns (elected: bool)
      requires Valid()
      modifies this`epoch, this`failover, slots, nodes.Values
      ensures Valid()
      ensures elected == (MasterDown(old(View())) && Won(old(View())))
      ensures View() ==
              var st := old(View());
              if !MasterDown(st) then st
              else if Won(st) then ClusterSpec.ClaimOwnership(st, st.nodes[st.self].masterID)
              else if st.failover.None? || !st.failover.value.active then ClusterSpec.StartElection(st, st.nodes[st.self].masterID)
              else if timedOut then AbandonElection(st)
              else st
    {
      elected := false;
      if Slave !in self.flags || self.masterID == "" {
        return;
      }
      if self.masterID !in nodes || Fail !in nodes[self.masterID].flags {
        return;
      }
      if failover.Some? && failover.value.active {
        if |failover.value.votes| >= failover.value.votesNeeded {
          ClaimOwnership(self.masterID);
          elected := true;
        } else if timedOut {
          failover := Some(failover.value.(active := false));
        }
        return;
      }
      StartElection(self.masterID);
    }
  }
}
