/** Gossip settles slot ownership: whatever the order and repetition of the
    messages, each slot ends with the claimant of highest config epoch. */
module Gossip {
  import opened Wrappers
  import opened SlotBitmap
  import opened ClusterSpec

  /** What a node says about itself in every ordinary message. */
  datatype Claim = Claim(configEpoch: Uint64, slots: Bitmap)

  type Claims = map<NodeId, Claim>

  datatype Message = Message(h: Header, entries: seq<Entry>)

  ghost predicate DistinctEpochs(claims: Claims)
  {
    forall j, k :: j in claims && k in claims && j != k ==> claims[j].configEpoch != claims[k].configEpoch
  }

  /** The message carries its sender's fixed claim. */
  ghost predicate Ordinary(claims: Claims, m: Message)
  {
    && m.h.sender != ""
    && m.h.sender in claims
    && claims[m.h.sender] == Claim(m.h.configEpoch, m.h.slots)
  }

  ghost function Senders(msgs: seq<Message>): set<NodeId>
  {
    set m | m in msgs :: m.h.sender
  }

  /** `n` claims slot `s` with the highest config epoch among `heard`. */
  ghost predicate TopClaimant(claims: Claims, heard: set<NodeId>, s: Slot, n: NodeId)
    requires heard <= claims.Keys
  {
    && n in heard && HasSlot(claims[n].slots, s)
    && (forall k :: k in heard && HasSlot(claims[k].slots, s) ==> claims[k].configEpoch <= claims[n].configEpoch)
  }

  /** The state of a node that has heard exactly the claims of `heard`. */
  ghost predicate Settled(st: State, claims: Claims, heard: set<NodeId>)
  {
    && WellFormed(st)
    && st.self in heard && heard <= claims.Keys
    && (forall n :: n in heard ==> n in st.nodes && st.nodes[n].configEpoch == claims[n].configEpoch)
    && (forall s: Slot ::
          match st.slots[s]
          case None => forall n :: n in heard ==> !HasSlot(claims[n].slots, s)
          case Some(n) => TopClaimant(claims, heard, s, n))
  }

  ghost function MergeAll(st: State, msgs: seq<Message>): State
    requires WellFormed(st)
    ensures WellFormed(MergeAll(st, msgs))
  {
    if msgs == [] then st
    else
      var st' := MergeAll(st, msgs[..|msgs| - 1]);
      var m := msgs[|msgs| - 1];
      MergeKeepsWellFormed(st', m);
      Merge(st', m.h, m.entries)
  }

  lemma EntriesKeepOwners(st: State, entries: seq<Entry>)
    requires WellFormed(st)
    ensures
      var r := MergeEntries(st, entries);
      && WellFormed(r) && r.slots == st.slots && r.self == st.self && r.epoch == st.epoch
      && st.nodes.Keys <= r.nodes.Keys
      && (forall k :: k in st.nodes ==> r.nodes[k].configEpoch == st.nodes[k].configEpoch)
  {
    if entries != [] {
      EntriesKeepOwners(st, entries[..|entries| - 1]);
    }
  }

  lemma MergeKeepsWellFormed(st: State, m: Message)
    requires WellFormed(st)
    ensures WellFormed(Merge(st, m.h, m.entries))
  {
    EntriesKeepOwners(MergeHeader(st, m.h), m.entries);
  }

  lemma HeaderSettles(st: State, claims: Claims, heard: set<NodeId>, m: Message)
    requires DistinctEpochs(claims) && Settled(st, claims, heard) && Ordinary(claims, m)
    ensures Settled(MergeHeader(st, m.h), claims, heard + {m.h.sender})
  {
    var n, heard' := m.h.sender, heard + {m.h.sender};
    var st1, r := MeetSender(st, m.h), MergeHeader(st, m.h);
    assert WellFormed(st1) && n in st1.nodes;
    forall s: Slot
      ensures match r.slots[s]
              case None => forall k :: k in heard' ==> !HasSlot(claims[k].slots, s)
              case Some(k) => TopClaimant(claims, heard', s, k)
    {
      match st.slots[s]
      case None =>
      case Some(k) =>
        assert TopClaimant(claims, heard, s, k);
        if k != n && HasSlot(m.h.slots, s) {
          assert ConfigEpochOf(st1, s) == claims[k].configEpoch;
        }
    }
  }

  /** One message makes its sender's claim heard. */
  lemma MergeSettles(st: State, claims: Claims, heard: set<NodeId>, m: Message)
    requires DistinctEpochs(claims) && Settled(st, claims, heard) && Ordinary(claims, m)
    ensures Settled(Merge(st, m.h, m.entries), claims, heard + {m.h.sender})
  {
    HeaderSettles(st, claims, heard, m);
    EntriesKeepOwners(MergeHeader(st, m.h), m.entries);
  }

  /** After any sequence of ordinary messages every slot belongs to its
      highest-epoch claimant among this node and the senders. */
  lemma {:induction false} MergeAllSettles(st: State, claims: Claims, msgs: seq<Message>)
    requires DistinctEpochs(claims) && Settled(st, claims, {st.self})
    requires forall m :: m in msgs ==> Ordinary(claims, m)
    ensures Settled(MergeAll(st, msgs), claims, {st.self} + Senders(msgs))
  {
    if msgs == [] {
      assert {st.self} + Senders(msgs) == {st.self};
    } else {
      var m, front := msgs[|msgs| - 1], msgs[..|msgs| - 1];
      MergeAllSettles(st, claims, front);
      MergeSettles(MergeAll(st, front), claims, {st.self} + Senders(front), m);
      assert msgs == front + [m];
      assert {st.self} + Senders(msgs) == {st.self} + Senders(front) + {m.h.sender};
    }
  }

  /** Two nodes that have heard the same claims route every slot alike. */
  lemma SettledAgree(a: State, b: State, claims: Claims, heard: set<NodeId>)
    requires DistinctEpochs(claims) && Settled(a, claims, heard) && Settled(b, claims, heard)
    ensures a.slots == b.slots
  {
    forall s: Slot
      ensures a.slots[s] == b.slots[s]
    {
      if a.slots[s].Some? {
        assert TopClaimant(claims, heard, s, a.slots[s].value);
      }
      if b.slots[s].Some? {
        assert TopClaimant(claims, heard, s, b.slots[s].value);
      }
    }
  }

  lemma GossipConverges(a: State, msgsA: seq<Message>, b: State, msgsB: seq<Message>, claims: Claims)
    requires DistinctEpochs(claims) && Settled(a, claims, {a.self}) && Settled(b, claims, {b.self})
    requires forall m :: m in msgsA ==> Ordinary(claims, m)
    requires forall m :: m in msgsB ==> Ordinary(claims, m)
    requires {a.self} + Senders(msgsA) == {b.self} + Senders(msgsB)
    ensures MergeAll(a, msgsA).slots == MergeAll(b, msgsB).slots
  {
    MergeAllSettles(a, claims, msgsA);
    MergeAllSettles(b, claims, msgsB);
    SettledAgree(MergeAll(a, msgsA), MergeAll(b, msgsB), claims, {a.self} + Senders(msgsA));
  }

  /** A node that starts and claims slots for itself is settled on its own
      claim, so the theorem above applies to it. */
  lemma OwnClaimSettles(self: NodeId, epoch: Uint64, slots: seq<Slot>, own: Bitmap)
    requires Owned(own) == SlotSet(slots)
    ensures
      var st := AddSlots(Boot(self, epoch), slots);
      Settled(st, map[self := Claim(st.nodes[self].configEpoch, own)], {self})
  {
    var st := AddSlots(Boot(self, epoch), slots);
    forall s: Slot
      ensures HasSlot(own, s) <==> s in slots
    {
      assert HasSlot(own, s) <==> s in Owned(own);
    }
  }

  /** Distinct epochs are needed: the outcome of two rival claims to a free
      slot is independent of their order exactly when their epochs differ. */
  lemma OrderMattersIffEpochsTie(st: State, x: Message, y: Message, s: Slot)
    requires WellFormed(st) && st.slots[s] == None
    requires x.h.sender !in {"", st.self, y.h.sender} && y.h.sender !in {"", st.self}
    requires HasSlot(x.h.slots, s) && HasSlot(y.h.slots, s)
    ensures MergeAll(st, [x, y]).slots[s] == MergeAll(st, [y, x]).slots[s] <==> x.h.configEpoch != y.h.configEpoch
  {
    TwoClaims(st, x, y, s);
    TwoClaims(st, y, x, s);
  }

  /** What one message does to a slot its sender claims. */
  lemma MergeOwner(st: State, m: Message, s: Slot)
    requires WellFormed(st) && HasSlot(m.h.slots, s)
    requires m.h.sender in st.nodes || m.h.sender !in {"", st.self}
    ensures
      var r, n := Merge(st, m.h, m.entries), m.h.sender;
      && WellFormed(r) && r.self == st.self
      && n in r.nodes && r.nodes[n].configEpoch == m.h.configEpoch
      && r.slots[s] == if st.slots[s] == None || (st.slots[s] != Some(n) && ConfigEpochOf(st, s) < m.h.configEpoch)
                       then Some(n) else st.slots[s]
  {
    EntriesKeepOwners(MergeHeader(st, m.h), m.entries);
    if st.slots[s].Some? && st.slots[s] != Some(m.h.sender) {
      assert ConfigEpochOf(MeetSender(st, m.h), s) == ConfigEpochOf(st, s);
    }
  }

  lemma TwoClaims(st: State, x: Message, y: Message, s: Slot)
    requires WellFormed(st) && st.slots[s] == None
    requires x.h.sender !in {"", st.self, y.h.sender} && y.h.sender !in {"", st.self}
    requires HasSlot(x.h.slots, s) && HasSlot(y.h.slots, s)
    ensures MergeAll(st, [x, y]).slots[s] ==
            Some(if y.h.configEpoch > x.h.configEpoch then y.h.sender else x.h.sender)
  {
    assert [x, y][..1] == [x] && [x][..0] == [];
    assert MergeAll(st, []) == st;
    assert MergeAll(st, [x]) == Merge(st, x.h, x.entries);
    MergeOwner(st, x, s);
    MergeOwner(MergeAll(st, [x]), y, s);
  }

  /** Vote acknowledgements are not ordinary messages: they carry the election
      epoch in place of the voter's config epoch, so merging one hands the
      voter every slot of its bitmap whose owner has a lower epoch, whatever
      the voter's own config epoch is. */
  lemma AckTakesSlotIff(st: State, voter: NodeId, currentEpoch: Uint64, reqEpoch: Uint64, bitmap: Bitmap, candidate: NodeId, s: Slot)
    requires WellFormed(st) && voter in st.nodes && HasSlot(bitmap, s)
    ensures var r := Merge(st, Header(voter, currentEpoch, reqEpoch, bitmap), [Entry(candidate, {})]);
            && |r.slots| == SLOT_COUNT
            && (r.slots[s] == Some(voter) <==>
                  st.slots[s] == None || st.slots[s] == Some(voter) || ConfigEpochOf(st, s) < reqEpoch)
  {
    MergeOwner(st, Message(Header(voter, currentEpoch, reqEpoch, bitmap), [Entry(candidate, {})]), s);
  }

  /** So an acknowledgement takes a slot from an owner that outranks the voter
      exactly if the election epoch outranks the owner. */
  lemma AckOverridesOwnerIff(st: State, voter: NodeId, currentEpoch: Uint64, reqEpoch: Uint64, bitmap: Bitmap, candidate: NodeId, s: Slot)
    requires WellFormed(st) && voter in st.nodes && HasSlot(bitmap, s)
    requires st.slots[s].Some? && st.slots[s].value != voter && st.nodes[voter].configEpoch < ConfigEpochOf(st, s)
    ensures var r := Merge(st, Header(voter, currentEpoch, reqEpoch, bitmap), [Entry(candidate, {})]);
            |r.slots| == SLOT_COUNT && (r.slots[s] == Some(voter) <==> ConfigEpochOf(st, s) < reqEpoch)
  {
    AckTakesSlotIff(st, voter, currentEpoch, reqEpoch, bitmap, candidate, s);
  }
}
