/** What one cluster node knows, as a value, and what each operation of the
    control plane makes of it. Where the program points to nodes, the model has their ids;
    slot bitmaps are the sets of slots they hold. */
module ClusterSpec {
  import opened Wrappers
  import opened SlotBitmap

  type NodeId = string

  datatype NodeView = NodeView(flags: set<Flag>, masterID: NodeId, configEpoch: Uint64, owned: set<Slot>)

  /** A failover election run by this node. */
  datatype Failover = Failover(
    active: bool,
    votes: set<NodeId>,
    votesNeeded: nat,
    reqEpoch: Uint64,
    failedMaster: NodeId)

  datatype State = State(
    self: NodeId,
    nodes: map<NodeId, NodeView>,
    slots: seq<Option<NodeId>>,
    epoch: Uint64,
    lastVoteEpoch: Uint64,
    failover: Option<Failover>)

  /** The decoded header of a bus message. */
  datatype Header = Header(sender: NodeId, currentEpoch: Uint64, configEpoch: Uint64, slots: Bitmap)

  /** One peer of the gossip section. */
  datatype Entry = Entry(id: NodeId, flags: set<Flag>)

  /** The slot table has its fixed size, this node knows itself, and every
      owner is a known node. */
  ghost predicate WellFormed(st: State)
  {
    && |st.slots| == SLOT_COUNT
    && st.self in st.nodes
    && (forall s: Slot :: st.slots[s].Some? ==> st.slots[s].value in st.nodes)
  }

  /** Epochs are uint64 and wrap. */
  function Bump(e: Uint64): Uint64
  {
    (e + 1) % U64
  }

  function SlotSet(slots: seq<Slot>): set<Slot>
  {
    set s | s in slots
  }

  function FreshNode(flags: set<Flag>): NodeView
  {
    NodeView(flags, "", 0, {})
  }

  /** The state of a node that has just started. */
  function Boot(self: NodeId, epoch: Uint64): State
  {
    State(self, map[self := FreshNode({Myself, Master})], seq(SLOT_COUNT, _ => None), epoch, 0, None)
  }

  /** The slot table once the slots in `moved` belong to `n`. */
  ghost function Reassign(slots: seq<Option<NodeId>>, n: NodeId, moved: set<Slot>): (r: seq<Option<NodeId>>)
    requires |slots| == SLOT_COUNT
  {
    seq(SLOT_COUNT, i requires 0 <= i < SLOT_COUNT => if i in moved then Some(n) else slots[i])
  }

  /** Give the slots in `taken` to `n`, each current owner giving up its bit. */
  ghost function TakeSlots(st: State, n: NodeId, taken: set<Slot>): State
    requires |st.slots| == SLOT_COUNT
  {
    st.(slots := Reassign(st.slots, n, taken),
        nodes := map k | k in st.nodes ::
                   if k == n then st.nodes[k].(owned := st.nodes[k].owned + taken)
                   else st.nodes[k].(owned := set s | s in st.nodes[k].owned && !(s in taken && st.slots[s] == Some(k))))
  }

  lemma TakeNothing(st: State, n: NodeId, taken: set<Slot>)
    requires WellFormed(st) && taken == {}
    ensures TakeSlots(st, n, taken) == st
  {
    var t := TakeSlots(st, n, taken);
    assert t.slots == st.slots;
    forall k | k in st.nodes
      ensures t.nodes[k] == st.nodes[k]
    {
      assert t.nodes[k].owned == st.nodes[k].owned;
    }
    assert t.nodes == st.nodes;
  }

  /** TakeSlots on one slot, field by field. */
  lemma TakeOneSlot(st: State, n: NodeId, slot: Slot, r: State)
    requires WellFormed(st) && n in st.nodes
    requires r == st.(slots := r.slots, nodes := r.nodes)
    requires r.slots == st.slots[slot := Some(n)]
    requires r.nodes.Keys == st.nodes.Keys
    requires forall k :: k in st.nodes ==> r.nodes[k] == st.nodes[k].(owned := r.nodes[k].owned)
    requires r.nodes[n].owned == st.nodes[n].owned + {slot}
    requires forall k :: k in st.nodes && k != n ==>
               r.nodes[k].owned == if st.slots[slot] == Some(k) then st.nodes[k].owned - {slot} else st.nodes[k].owned
    ensures r == TakeSlots(st, n, {slot})
  {
    var t := TakeSlots(st, n, {slot});
    assert t.slots == r.slots;
    forall k | k in st.nodes
      ensures t.nodes[k] == r.nodes[k]
    {
      assert t.nodes[k].owned == r.nodes[k].owned;
    }
    assert t.nodes == r.nodes;
  }

  ghost function AddSlots(st: State, slots: seq<Slot>): State
    requires WellFormed(st)
  {
    var me := st.nodes[st.self];
    var epoch := if |slots| > 0 then Bump(st.epoch) else st.epoch;
    st.(epoch := epoch,
        slots := Reassign(st.slots, st.self, SlotSet(slots)),
        nodes := st.nodes[st.self := me.(configEpoch := if |slots| > 0 then epoch else me.configEpoch,
                                         owned := me.owned + SlotSet(slots))])
  }

  ghost function DelSlots(st: State, slots: seq<Slot>): State
    requires WellFormed(st)
  {
    var me := st.nodes[st.self];
    st.(slots := seq(SLOT_COUNT, i requires 0 <= i < SLOT_COUNT =>
                   if i in slots && st.slots[i] == Some(st.self) then None else st.slots[i]),
        nodes := st.nodes[st.self := me.(owned := me.owned - SlotSet(slots))])
  }

  ghost function AssignSlot(st: State, slot: Slot, id: NodeId): State
    requires WellFormed(st)
  {
    if id !in st.nodes then st
    else
      var epoch := Bump(st.epoch);
      TakeSlots(st.(epoch := epoch, nodes := st.nodes[id := st.nodes[id].(configEpoch := epoch)]), id, {slot})
  }

  ghost function ForgetNode(st: State, id: NodeId): State
    requires WellFormed(st)
  {
    if id !in st.nodes then st
    else
      st.(slots := seq(SLOT_COUNT, i requires 0 <= i < SLOT_COUNT => if st.slots[i] == Some(id) then None else st.slots[i]),
          nodes := st.nodes - {id})
  }

  ghost function Reset(st: State): State
    requires WellFormed(st)
  {
    st.(slots := seq(SLOT_COUNT, _ => None), nodes := map[st.self := st.nodes[st.self].(owned := {})], epoch := 0)
  }

  ghost function Replicate(st: State, masterID: NodeId): State
    requires WellFormed(st)
  {
    if masterID !in st.nodes then st
    else
      var me := st.nodes[st.self];
      st.(nodes := st.nodes[st.self := me.(flags := me.flags - {Master} + {Slave}, masterID := masterID)])
  }

  /** The flag changes of failure detection, which may touch any node. */
  ghost function SetFlags(st: State, id: NodeId, flags: set<Flag>): State
  {
    if id !in st.nodes then st else st.(nodes := st.nodes[id := st.nodes[id].(flags := flags)])
  }

  /** Every slot of `from` moves to `to`. */
  ghost function GainAll(nodes: map<NodeId, NodeView>, to: NodeId, from: NodeId): map<NodeId, NodeView>
    requires to in nodes && from in nodes
  {
    var nodes1 := nodes[from := nodes[from].(owned := {})];
    nodes1[to := nodes1[to].(owned := nodes1[to].owned + nodes[from].owned)]
  }

  /** Promote this node and take over every slot in the failed master's bitmap. */
  ghost function ClaimOwnership(st: State, failed: NodeId): State
    requires WellFormed(st)
  {
    if failed !in st.nodes then st
    else
      var me := st.nodes[st.self].(flags := st.nodes[st.self].flags - {Slave} + {Master}, masterID := "", configEpoch := st.epoch);
      st.(slots := Reassign(st.slots, st.self, st.nodes[failed].owned),
          nodes := GainAll(st.nodes[st.self := me], st.self, failed),
          failover := if st.failover.Some? then Some(st.failover.value.(active := false)) else None)
  }

  ghost function ConfigEpochOf(st: State, s: Slot): Uint64
    requires |st.slots| == SLOT_COUNT
    requires st.slots[s].Some? && st.slots[s].value in st.nodes
  {
    st.nodes[st.slots[s].value].configEpoch
  }

  /** The slots below `bound` a claimed bitmap wins from their current owners. */
  ghost function Winnable(st: State, n: NodeId, epoch: Uint64, claims: Bitmap, bound: nat): set<Slot>
    requires WellFormed(st)
    requires bound <= SLOT_COUNT
  {
    set s: Slot | 0 <= s < SLOT_COUNT && s < bound && HasSlot(claims, s) && st.slots[s] != Some(n)
                  && (st.slots[s] == None || ConfigEpochOf(st, s) < epoch)
  }

  /** The state once the sender is known and its epochs are recorded. */
  ghost function MeetSender(st: State, h: Header): State
  {
    var st1 := st.(epoch := if h.currentEpoch > st.epoch then h.currentEpoch else st.epoch);
    if h.sender in st.nodes then
      st1.(nodes := st.nodes[h.sender := st.nodes[h.sender].(configEpoch := h.configEpoch)])
    else if h.sender != "" && h.sender != st.self then
      st1.(nodes := st.nodes[h.sender := FreshNode({Master}).(configEpoch := h.configEpoch)])
    else
      st1
  }

  /** A meeting step by step: the epoch, then the node, then its config epoch. */
  lemma MeetingSteps(st: State, h: Header, noted: State, found: State, met: State)
    requires st.self in st.nodes && noted == st.(epoch := if h.currentEpoch > st.epoch then h.currentEpoch else st.epoch)
    requires found == if h.sender in st.nodes || h.sender == "" then noted
                      else noted.(nodes := noted.nodes[h.sender := FreshNode({Master})])
    requires met == if h.sender !in found.nodes then found
                    else found.(nodes := found.nodes[h.sender := found.nodes[h.sender].(configEpoch := h.configEpoch)])
    ensures met == MeetSender(st, h)
  {
  }

  ghost function MergeHeader(st: State, h: Header): State
    requires WellFormed(st)
  {
    var st1 := MeetSender(st, h);
    if h.sender in st1.nodes then
      TakeSlots(st1, h.sender, Winnable(st1, h.sender, h.configEpoch, h.slots, SLOT_COUNT))
    else
      st1
  }

  /** One iteration of the slot loop of a merge. */
  lemma MergeStep(st: State, n: NodeId, epoch: Uint64, claims: Bitmap, s: Slot)
    requires WellFormed(st) && n in st.nodes
    ensures
      var before := TakeSlots(st, n, Winnable(st, n, epoch, claims, s));
      && WellFormed(before)
      && before.slots[s] == st.slots[s]
      && (st.slots[s].Some? ==> ConfigEpochOf(before, s) == ConfigEpochOf(st, s))
      && TakeSlots(st, n, Winnable(st, n, epoch, claims, s + 1)) ==
         if s in Winnable(st, n, epoch, claims, s + 1) then TakeSlots(before, n, {s}) else before
  {
    var w, w' := Winnable(st, n, epoch, claims, s), Winnable(st, n, epoch, claims, s + 1);
    var before := TakeSlots(st, n, w);
    if s in w' {
      assert w' == w + {s};
      TakeOneSlot(before, n, s, TakeSlots(st, n, w'));
    } else {
      assert w' == w;
    }
  }

  ghost function MergeEntry(st: State, e: Entry): State
  {
    if e.id == "" || e.id == st.self then st
    else if e.id !in st.nodes then st.(nodes := st.nodes[e.id := FreshNode(e.flags)])
    else
      var n := st.nodes[e.id];
      if Fail in e.flags then st.(nodes := st.nodes[e.id := n.(flags := n.flags - {PFail} + {Fail})])
      else if PFail in e.flags && Fail !in n.flags then st.(nodes := st.nodes[e.id := n.(flags := n.flags + {PFail})])
      else st
  }

  ghost function MergeEntries(st: State, entries: seq<Entry>): State
  {
    if entries == [] then st
    else MergeEntry(MergeEntries(st, entries[..|entries| - 1]), entries[|entries| - 1])
  }

  /** Merging one bus message. */
  ghost function Merge(st: State, h: Header, entries: seq<Entry>): State
    requires WellFormed(st)
  {
    MergeEntries(MergeHeader(st, h), entries)
  }

  ghost function Masters(st: State): set<NodeId>
  {
    set k | k in st.nodes && Master in st.nodes[k].flags
  }

  /** The four voting rules. */
  ghost predicate MayVote(st: State, replica: NodeId, failed: NodeId, reqEpoch: Uint64)
  {
    && reqEpoch >= st.epoch
    && st.lastVoteEpoch < reqEpoch
    && failed in st.nodes && Fail in st.nodes[failed].flags
    && replica in st.nodes && st.nodes[replica].masterID == failed
  }

  ghost function GrantVote(st: State, replica: NodeId, failed: NodeId, reqEpoch: Uint64): State
  {
    if MayVote(st, replica, failed, reqEpoch) then st.(lastVoteEpoch := reqEpoch) else st
  }

  /** The master a replica follows, as far as this node knows ("" if unknown). */
  ghost function MasterOf(st: State, replica: NodeId): NodeId
  {
    if replica in st.nodes then st.nodes[replica].masterID else ""
  }

  /** A vote request is granted by a master that knows the requester's master
      and whose voting rules allow it. */
  ghost predicate GrantsRequest(st: State, replica: NodeId, reqEpoch: Uint64)
    requires st.self in st.nodes
  {
    && Master in st.nodes[st.self].flags
    && MasterOf(st, replica) != ""
    && MayVote(st, replica, MasterOf(st, replica), reqEpoch)
  }

  ghost function HandleAuthRequest(st: State, replica: NodeId, reqEpoch: Uint64): State
    requires st.self in st.nodes
  {
    if GrantsRequest(st, replica, reqEpoch) then st.(lastVoteEpoch := reqEpoch) else st
  }

  /** An acknowledgement counts when this node is a replica and the gossip
      section names it as the candidate. */
  ghost function HandleAuthAck(st: State, voter: NodeId, voteEpoch: Uint64, entries: seq<Entry>): State
    requires st.self in st.nodes
  {
    if Slave in st.nodes[st.self].flags && exists e :: e in entries && e.id == st.self
    then RecordVote(st, voter, voteEpoch)
    else st
  }

  /** The failover tick finds this node a replica of a failed master. */
  ghost predicate MasterDown(st: State)
    requires st.self in st.nodes
  {
    var me := st.nodes[st.self];
    Slave in me.flags && me.masterID != "" && me.masterID in st.nodes && Fail in st.nodes[me.masterID].flags
  }

  ghost function StartElection(st: State, failed: NodeId): State
  {
    OpenElection(st.(epoch := Bump(st.epoch)), Bump(st.epoch), failed)
  }

  /** Record an election for an epoch already taken. */
  ghost function OpenElection(st: State, epoch: Uint64, failed: NodeId): State
  {
    st.(failover := Some(Failover(true, {}, |Masters(st)| / 2 + 1, epoch, failed)))
  }

  ghost function RecordVote(st: State, voter: NodeId, voteEpoch: Uint64): State
  {
    match st.failover
    case None => st
    case Some(f) =>
      if f.active && voteEpoch == f.reqEpoch then st.(failover := Some(f.(votes := f.votes + {voter}))) else st
  }

  /** The tick gives up an election whose deadline has passed. */
  ghost function AbandonElection(st: State): State
  {
    if st.failover.Some? then st.(failover := Some(st.failover.value.(active := false))) else st
  }

  /** The election this node is running has its majority of votes. */
  ghost predicate Won(st: State)
  {
    && st.failover.Some?
    && st.failover.value.active
    && |st.failover.value.votes| >= st.failover.value.votesNeeded
  }
}
