/** The slot table and the per-node bitmaps tell one story: over every run of
    the operations that touch either, a slot is owned by a node exactly when
    that node's bitmap holds it. */
module SlotTable {
  import opened Wrappers
  import opened SlotBitmap
  import opened ClusterSpec

  /** Table and bitmaps agree for every known node. */
  ghost predicate Agree(st: State)
  {
    && WellFormed(st)
    && (forall k, s: Slot :: k in st.nodes ==> (s in st.nodes[k].owned <==> st.slots[s] == Some(k)))
  }

  /** Everything that can happen to the table, the bitmaps or the node set. */
  datatype Op =
    | AddSlotsOp(slots: seq<Slot>)
    | DelSlotsOp(slots: seq<Slot>)
    | AssignOp(slot: Slot, id: NodeId)
    | ForgetOp(id: NodeId)
    | ResetOp
    | ReplicateOp(masterID: NodeId)
    | FlagsOp(id: NodeId, flags: set<Flag>)
    | ClaimOp(failed: NodeId)
    | MergeOp(h: Header, entries: seq<Entry>)

  ghost function Apply(st: State, op: Op): State
    requires WellFormed(st)
  {
    match op
    case AddSlotsOp(slots) => AddSlots(st, slots)
    case DelSlotsOp(slots) => DelSlots(st, slots)
    case AssignOp(slot, id) => AssignSlot(st, slot, id)
    case ForgetOp(id) => ForgetNode(st, id)
    case ResetOp => Reset(st)
    case ReplicateOp(masterID) => Replicate(st, masterID)
    case FlagsOp(id, flags) => SetFlags(st, id, flags)
    case ClaimOp(failed) => ClaimOwnership(st, failed)
    case MergeOp(h, entries) => Merge(st, h, entries)
  }

  /** No listed slot belongs to another node. */
  ghost predicate FreeForSelf(st: State, slots: seq<Slot>)
    requires |st.slots| == SLOT_COUNT
  {
    forall s :: s in slots ==> st.slots[s] == None || st.slots[s] == Some(st.self)
  }

  /** What the command layer checks: ADDSLOTS refuses busy slots, FORGET
      refuses this node. */
  ghost predicate Allowed(st: State, op: Op)
    requires |st.slots| == SLOT_COUNT
  {
    match op
    case AddSlotsOp(slots) => FreeForSelf(st, slots)
    case ForgetOp(id) => id != st.self
    case _ => true
  }

  /** States reachable by allowed operations from `st`. */
  ghost predicate Run(st: State, ops: seq<Op>, st': State)
    decreases |ops|
  {
    if ops == [] then st' == st
    else WellFormed(st) && Allowed(st, ops[0]) && Run(Apply(st, ops[0]), ops[1..], st')
  }

  lemma TakeKeepsAgreement(st: State, n: NodeId, taken: set<Slot>)
    requires Agree(st) && n in st.nodes
    ensures Agree(TakeSlots(st, n, taken))
  {
  }

  lemma MergeEntriesKeepsAgreement(st: State, entries: seq<Entry>)
    requires Agree(st)
    ensures Agree(MergeEntries(st, entries))
  {
    if entries != [] {
      MergeEntriesKeepsAgreement(st, entries[..|entries| - 1]);
    }
  }

  lemma MergeKeepsAgreement(st: State, h: Header, entries: seq<Entry>)
    requires Agree(st)
    ensures Agree(Merge(st, h, entries))
  {
    var st1 := MeetSender(st, h);
    assert Agree(st1);
    if h.sender in st1.nodes {
      TakeKeepsAgreement(st1, h.sender, Winnable(st1, h.sender, h.configEpoch, h.slots, SLOT_COUNT));
    }
    MergeEntriesKeepsAgreement(MergeHeader(st, h), entries);
  }

  /** ADDSLOTS keeps the agreement on exactly the slot lists no other node has
      a share in: a foreign owner would keep its bit. */
  lemma AddSlotsAgreesIff(st: State, slots: seq<Slot>)
    requires Agree(st)
    ensures Agree(AddSlots(st, slots)) <==> FreeForSelf(st, slots)
  {
    var r := AddSlots(st, slots);
    if !FreeForSelf(st, slots) {
      var s :| s in slots && st.slots[s] != None && st.slots[s] != Some(st.self);
      var k := st.slots[s].value;
      assert s in r.nodes[k].owned && r.slots[s] == Some(st.self);
    }
  }

  lemma ApplyKeepsAgreement(st: State, op: Op)
    requires Agree(st) && Allowed(st, op)
    ensures Agree(Apply(st, op))
  {
    match op
    case AddSlotsOp(slots) => AddSlotsAgreesIff(st, slots);
    case DelSlotsOp(_) =>
    case AssignOp(slot, id) =>
      if id in st.nodes {
        var epoch := Bump(st.epoch);
        TakeKeepsAgreement(st.(epoch := epoch, nodes := st.nodes[id := st.nodes[id].(configEpoch := epoch)]), id, {slot});
      }
    case ForgetOp(_) =>
    case ResetOp =>
    case ReplicateOp(_) =>
    case FlagsOp(_, _) =>
    case ClaimOp(_) =>
    case MergeOp(h, entries) => MergeKeepsAgreement(st, h, entries);
  }

  lemma {:induction false} RunKeepsAgreement(st: State, ops: seq<Op>, st': State)
    requires Agree(st) && Run(st, ops, st')
    ensures Agree(st')
    decreases |ops|
  {
    if ops != [] {
      ApplyKeepsAgreement(st, ops[0]);
      RunKeepsAgreement(Apply(st, ops[0]), ops[1..], st');
    }
  }

  /** Whatever a node does after it starts, its table and bitmaps agree, so no
      slot is in two bitmaps. */
  lemma EveryReachableStateAgrees(self: NodeId, epoch: Uint64, ops: seq<Op>, st: State)
    requires Run(Boot(self, epoch), ops, st)
    ensures Agree(st)
    ensures forall j, k, s: Slot :: j in st.nodes && k in st.nodes && s in st.nodes[j].owned && s in st.nodes[k].owned ==> j == k
  {
    RunKeepsAgreement(Boot(self, epoch), ops, st);
    forall j, k, s: Slot | j in st.nodes && k in st.nodes && s in st.nodes[j].owned && s in st.nodes[k].owned
      ensures j == k
    {
      assert st.slots[s] == Some(j) && st.slots[s] == Some(k);
    }
  }

  // ----- Counting -----

  ghost function Assigned(st: State): set<Slot>
    requires |st.slots| == SLOT_COUNT
  {
    set s: Slot | 0 <= s < SLOT_COUNT && st.slots[s].Some?
  }

  /** The sum of slotCount over the given nodes. */
  ghost function TotalOwned(nodes: map<NodeId, NodeView>): nat
    decreases |nodes|
  {
    if nodes == map[] then 0
    else
      var k :| k in nodes;
      |nodes[k].owned| + TotalOwned(nodes - {k})
  }

  lemma {:induction false} TotalOwnedIsCardinality(st: State, nodes: map<NodeId, NodeView>, held: set<Slot>)
    requires |st.slots| == SLOT_COUNT
    requires forall k, s: Slot :: k in nodes ==> (s in nodes[k].owned <==> st.slots[s] == Some(k))
    requires forall s: Slot :: s in held <==> st.slots[s].Some? && st.slots[s].value in nodes
    ensures TotalOwned(nodes) == |held|
    decreases |nodes|
  {
    if nodes == map[] {
      assert held == {};
    } else {
      var k :| k in nodes && TotalOwned(nodes) == |nodes[k].owned| + TotalOwned(nodes - {k});
      var rest := set s | s in held && st.slots[s] != Some(k);
      TotalOwnedIsCardinality(st, nodes - {k}, rest);
      assert nodes[k].owned * rest == {};
      assert held == nodes[k].owned + rest;
    }
  }

  /** In every reachable state the number of assigned slots is the sum of the
      slot counts of the known nodes. */
  lemma AssignedIsTotalOwned(st: State)
    requires Agree(st)
    ensures |Assigned(st)| == TotalOwned(st.nodes)
  {
    TotalOwnedIsCardinality(st, st.nodes, Assigned(st));
  }
}
