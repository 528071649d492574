/** Failover elections are safe: over an arbitrary network, two replicas never
    both gather a majority of the same voters in one epoch. */
module Election {
  import opened Wrappers
  import opened ClusterSpec
  import SlotTable

  /** The two election messages. A request carries the epoch its sender has
      when it builds the message; an acknowledgement names its candidate. */
  datatype Msg =
    | AuthRequest(sender: NodeId, epoch: Uint64)
    | AuthAck(voter: NodeId, candidate: NodeId, epoch: Uint64)

  /** A candidate reached votesNeeded in an epoch, with these votes. */
  datatype Victory = Victory(candidate: NodeId, epoch: Uint64, votes: set<NodeId>, votesNeeded: nat)

  /** All nodes, every message ever sent, every majority ever reached, and the
      elections between the two critical sections that start them. A message
      stays available for ever, so delivery may lose, repeat and reorder. */
  datatype System = System(nodes: map<NodeId, State>, net: set<Msg>, victories: set<Victory>, pending: map<NodeId, Pending>)

  /** An election whose epoch has been taken but which is not recorded yet. */
  datatype Pending = Pending(epoch: Uint64, failed: NodeId)

  datatype Step =
    | TakeEpoch(n: NodeId)
    | Open(n: NodeId)
    | Broadcast(n: NodeId)
    | Vote(n: NodeId, replica: NodeId, epoch: Uint64)
    | Tally(n: NodeId, voter: NodeId, candidate: NodeId, epoch: Uint64)
    | Claim(n: NodeId)
    | Timeout(n: NodeId)
    | Local(n: NodeId, op: SlotTable.Op)

  /** Any consistent nodes, no election under way, nothing sent yet. */
  ghost predicate Init(sys: System)
  {
    && sys.net == {} && sys.victories == {} && sys.pending == map[]
    && (forall n :: n in sys.nodes ==>
          sys.nodes[n].self == n && SlotTable.Agree(sys.nodes[n]) && sys.nodes[n].failover == None)
  }

  ghost predicate Enabled(sys: System, step: Step)
  {
    && step.n in sys.nodes && WellFormed(sys.nodes[step.n])
    && var st := sys.nodes[step.n];
       match step
       case TakeEpoch(_) => MasterDown(st)
       case Open(_) => step.n in sys.pending
       case Broadcast(_) => st.failover.Some?
       case Vote(_, replica, epoch) => AuthRequest(replica, epoch) in sys.net
       case Tally(_, voter, candidate, epoch) => AuthAck(voter, candidate, epoch) in sys.net
       case Claim(_) => MasterDown(st) && Won(st)
       case Timeout(_) => true
       case Local(_, op) => SlotTable.Allowed(st, op)
  }

  ghost function Next(sys: System, step: Step): System
    requires Enabled(sys, step)
  {
    var n, st := step.n, sys.nodes[step.n];
    match step
    case TakeEpoch(_) =>
      sys.(nodes := sys.nodes[n := st.(epoch := Bump(st.epoch))],
           pending := sys.pending[n := Pending(Bump(st.epoch), st.nodes[st.self].masterID)])
    case Open(_) =>
      var p := sys.pending[n];
      sys.(nodes := sys.nodes[n := OpenElection(st, p.epoch, p.failed)], pending := sys.pending - {n})
    case Broadcast(_) => sys.(net := sys.net + {AuthRequest(st.self, st.epoch)})
    case Vote(_, replica, epoch) =>
      sys.(nodes := sys.nodes[n := HandleAuthRequest(st, replica, epoch)],
           net := if GrantsRequest(st, replica, epoch) then sys.net + {AuthAck(st.self, replica, epoch)} else sys.net)
    case Tally(_, voter, candidate, epoch) =>
      var st' := HandleAuthAck(st, voter, epoch, [Entry(candidate, {})]);
      sys.(nodes := sys.nodes[n := st'],
           victories := if st' != st && Won(st') then sys.victories + {VictoryOf(st')} else sys.victories)
    case Claim(_) => sys.(nodes := sys.nodes[n := ClaimOwnership(st, st.nodes[st.self].masterID)])
    case Timeout(_) => sys.(nodes := sys.nodes[n := AbandonElection(st)])
    case Local(_, op) => sys.(nodes := sys.nodes[n := SlotTable.Apply(st, op)])
  }

  ghost function VictoryOf(st: State): Victory
    requires st.failover.Some?
  {
    var f := st.failover.value;
    Victory(st.self, f.reqEpoch, f.votes, f.votesNeeded)
  }

  /** `steps` leads from `sys` to `sys'`. */
  ghost predicate Run(sys: System, steps: seq<Step>, sys': System)
    decreases |steps|
  {
    if steps == [] then sys' == sys
    else Enabled(sys, steps[0]) && Run(Next(sys, steps[0]), steps[1..], sys')
  }

  // ----- Invariant -----

  /** Every acknowledgement is a vote its voter cannot cast again. */
  ghost predicate AcksAreVotes(sys: System)
  {
    && (forall v, c, e: Uint64 :: AuthAck(v, c, e) in sys.net ==> v in sys.nodes && e <= sys.nodes[v].lastVoteEpoch)
    && (forall v, c, c', e: Uint64 :: AuthAck(v, c, e) in sys.net && AuthAck(v, c', e) in sys.net ==> c == c')
  }

  /** Votes collected for a candidate in an epoch were sent to it in that epoch. */
  ghost predicate Backed(net: set<Msg>, candidate: NodeId, epoch: Uint64, votes: set<NodeId>)
  {
    forall v :: v in votes ==> AuthAck(v, candidate, epoch) in net
  }

  ghost predicate NodeOk(sys: System, n: NodeId)
    requires n in sys.nodes
  {
    var st := sys.nodes[n];
    && st.self == n
    && SlotTable.Agree(st)
    && (st.failover.Some? ==>
          && st.failover.value.votesNeeded >= 1
          && Backed(sys.net, n, st.failover.value.reqEpoch, st.failover.value.votes))
    && (Won(st) ==> VictoryOf(st) in sys.victories)
  }

  ghost predicate VictoriesBacked(sys: System)
  {
    forall w :: w in sys.victories ==> |w.votes| >= w.votesNeeded && Backed(sys.net, w.candidate, w.epoch, w.votes)
  }

  ghost predicate Inv(sys: System)
  {
    && AcksAreVotes(sys)
    && VictoriesBacked(sys)
    && (forall n :: n in sys.nodes ==> NodeOk(sys, n))
  }

  /** Local operations never touch votes, and at most end an election. */
  lemma LocalFrame(st: State, op: SlotTable.Op)
    requires WellFormed(st)
    ensures
      var r := SlotTable.Apply(st, op);
      r.self == st.self && r.lastVoteEpoch == st.lastVoteEpoch && r.failover in {st.failover, AbandonElection(st).failover}
  {
    if op.MergeOp? {
      EntriesFrame(MergeHeader(st, op.h), op.entries);
    }
  }

  lemma EntriesFrame(st: State, entries: seq<Entry>)
    ensures
      var r := MergeEntries(st, entries);
      r.self == st.self && r.lastVoteEpoch == st.lastVoteEpoch && r.failover == st.failover
  {
    if entries != [] {
      EntriesFrame(st, entries[..|entries| - 1]);
    }
  }

  /** Only a vote moves lastVoteEpoch, and it moves it up past every vote the
      voter has sent. */
  lemma VoteKeepsInv(sys: System, n: NodeId, replica: NodeId, epoch: Uint64)
    requires Inv(sys) && Enabled(sys, Vote(n, replica, epoch))
    ensures Inv(Next(sys, Vote(n, replica, epoch)))
  {
    var sys' := Next(sys, Vote(n, replica, epoch));
    forall k | k in sys'.nodes
      ensures NodeOk(sys', k)
    {
      assert NodeOk(sys, k);
    }
    forall w | w in sys'.victories
      ensures Backed(sys'.net, w.candidate, w.epoch, w.votes)
    {
      assert Backed(sys.net, w.candidate, w.epoch, w.votes);
    }
  }

  lemma TallyKeepsInv(sys: System, n: NodeId, voter: NodeId, candidate: NodeId, epoch: Uint64)
    requires Inv(sys) && Enabled(sys, Tally(n, voter, candidate, epoch))
    ensures Inv(Next(sys, Tally(n, voter, candidate, epoch)))
  {
    var sys' := Next(sys, Tally(n, voter, candidate, epoch));
    assert NodeOk(sys, n);
    var es := [Entry(candidate, {})];
    assert (exists e :: e in es && e.id == n) <==> candidate == n by {
      assert es[0] in es;
    }
    assert NodeOk(sys', n);
    forall k | k in sys'.nodes && k != n
      ensures NodeOk(sys', k)
    {
      assert NodeOk(sys, k);
    }
  }

  lemma StepKeepsInv(sys: System, step: Step)
    requires Inv(sys) && Enabled(sys, step)
    ensures Inv(Next(sys, step))
  {
    var n, st, sys' := step.n, sys.nodes[step.n], Next(sys, step);
    assert NodeOk(sys, n);
    match step
    case Vote(_, replica, epoch) => VoteKeepsInv(sys, n, replica, epoch);
    case Tally(_, voter, candidate, epoch) => TallyKeepsInv(sys, n, voter, candidate, epoch);
    case TakeEpoch(_) => OthersKept(sys, sys', n);
    case Open(_) => OthersKept(sys, sys', n);
    case Broadcast(_) =>
      forall k | k in sys'.nodes
        ensures NodeOk(sys', k)
      {
        assert NodeOk(sys, k);
      }
    case Claim(_) =>
      SlotTable.ApplyKeepsAgreement(st, SlotTable.ClaimOp(st.nodes[st.self].masterID));
      OthersKept(sys, sys', n);
    case Timeout(_) => OthersKept(sys, sys', n);
    case Local(_, op) =>
      LocalFrame(st, op);
      SlotTable.ApplyKeepsAgreement(st, op);
      OthersKept(sys, sys', n);
  }

  /** A step that changes one node, sends nothing and counts nothing. */
  lemma OthersKept(sys: System, sys': System, n: NodeId)
    requires Inv(sys) && n in sys.nodes && n in sys'.nodes
    requires sys' == sys.(nodes := sys.nodes[n := sys'.nodes[n]], pending := sys'.pending)
    requires NodeOk(sys', n) && sys'.nodes[n].lastVoteEpoch == sys.nodes[n].lastVoteEpoch
    ensures Inv(sys')
  {
    forall k | k in sys'.nodes && k != n
      ensures NodeOk(sys', k)
    {
      assert NodeOk(sys, k);
    }
  }

  lemma {:induction false} RunKeepsInv(sys: System, steps: seq<Step>, sys': System)
    requires Inv(sys) && Run(sys, steps, sys')
    ensures Inv(sys')
    decreases |steps|
  {
    if steps != [] {
      StepKeepsInv(sys, steps[0]);
      RunKeepsInv(Next(sys, steps[0]), steps[1..], sys');
    }
  }

  // ----- Safety -----

  /** Everyone who granted a vote in an epoch. */
  ghost function Granters(sys: System, epoch: Uint64): set<NodeId>
  {
    set m | m in sys.net && m.AuthAck? && m.epoch == epoch :: m.voter
  }

  /** Two sets of voters drawn from `voters` and larger together than it meet. */
  lemma QuorumsMeet(voters: set<NodeId>, a: set<NodeId>, b: set<NodeId>)
    requires a <= voters && b <= voters
    requires |a| + |b| > |voters|
    ensures exists v :: v in a && v in b
  {
    if a * b == {} {
      assert |a + b| == |a| + |b|;
      Subset(a + b, voters);
    } else {
      var v :| v in a * b;
    }
  }

  lemma Subset(a: set<NodeId>, b: set<NodeId>)
    requires a <= b
    ensures |a| <= |b|
  {
    assert b == a + (b - a);
  }

  /** In every run from any start, candidates whose vote targets together
      exceed the number of voters of an epoch do not both win that epoch; in
      particular not when each target is a majority of those voters. */
  lemma ElectionSafety(init: System, steps: seq<Step>, sys: System, x: Victory, y: Victory, voters: set<NodeId>)
    requires Init(init) && Run(init, steps, sys)
    requires x in sys.victories && y in sys.victories && x.epoch == y.epoch
    requires Granters(sys, x.epoch) <= voters && x.votesNeeded + y.votesNeeded > |voters|
    ensures x.candidate == y.candidate
  {
    RunKeepsInv(init, steps, sys);
    forall w, v | w in {x, y} && v in w.votes
      ensures v in voters
    {
      assert Backed(sys.net, w.candidate, w.epoch, w.votes);
      assert AuthAck(v, w.candidate, w.epoch) in sys.net;
      assert v in Granters(sys, x.epoch);
    }
    QuorumsMeet(voters, x.votes, y.votes);
    var v :| v in x.votes && v in y.votes;
    assert Backed(sys.net, x.candidate, x.epoch, x.votes) && Backed(sys.net, y.candidate, y.epoch, y.votes);
  }

  /** Ownership is claimed through an election only after a recorded victory in
      the epoch the claimant asked for. */
  lemma ClaimsAreVictories(init: System, steps: seq<Step>, sys: System, n: NodeId)
    requires Init(init) && Run(init, steps, sys) && Enabled(sys, Claim(n))
    ensures VictoryOf(sys.nodes[n]) in sys.victories
    ensures VictoryOf(sys.nodes[n]).candidate == n
  {
    RunKeepsInv(init, steps, sys);
    assert NodeOk(sys, n);
  }

  // ----- Nodes that never learned whom their peers follow -----

  /** This node knows no peer's master. Gossip never tells it one: a master id
      is set by REPLICATE on the node itself and by loading nodes.conf. */
  ghost predicate PeersUnknown(st: State)
  {
    forall k :: k in st.nodes && k != st.self ==> st.nodes[k].masterID == ""
  }

  lemma BootKnowsNoPeer(self: NodeId, epoch: Uint64)
    ensures PeersUnknown(Boot(self, epoch))
  {
  }

  lemma {:induction false} EntriesTellNoMaster(st: State, entries: seq<Entry>)
    requires PeersUnknown(st)
    ensures PeersUnknown(MergeEntries(st, entries)) && MergeEntries(st, entries).self == st.self
  {
    if entries != [] {
      EntriesTellNoMaster(st, entries[..|entries| - 1]);
    }
  }

  lemma OpTellsNoMaster(st: State, op: SlotTable.Op)
    requires WellFormed(st) && PeersUnknown(st)
    ensures PeersUnknown(SlotTable.Apply(st, op)) && SlotTable.Apply(st, op).self == st.self
  {
    if op.MergeOp? {
      EntriesTellNoMaster(MergeHeader(st, op.h), op.entries);
    }
  }

  ghost predicate OwnVotes(sys: System)
  {
    && (forall n :: n in sys.nodes ==> sys.nodes[n].self == n && PeersUnknown(sys.nodes[n]))
    && (forall v, c, e: Uint64 :: AuthAck(v, c, e) in sys.net ==> v == c)
  }

  lemma StepKeepsOwnVotes(sys: System, step: Step)
    requires OwnVotes(sys) && Enabled(sys, step)
    ensures OwnVotes(Next(sys, step))
  {
    if step.Local? {
      OpTellsNoMaster(sys.nodes[step.n], step.op);
    }
  }

  lemma {:induction false} RunKeepsOwnVotes(sys: System, steps: seq<Step>, sys': System)
    requires OwnVotes(sys) && Run(sys, steps, sys')
    ensures OwnVotes(sys')
    decreases |steps|
  {
    if steps != [] {
      StepKeepsOwnVotes(sys, steps[0]);
      RunKeepsOwnVotes(Next(sys, steps[0]), steps[1..], sys');
    }
  }

  /** In every run from nodes that know no peer's master, freshly started ones
      among them, no node ever votes for another, so nobody wins an election
      that needs the vote of another node. */
  lemma NoVotesForOthers(init: System, steps: seq<Step>, sys: System)
    requires Init(init) && Run(init, steps, sys)
    requires forall n :: n in init.nodes ==> PeersUnknown(init.nodes[n])
    ensures forall v, c, e: Uint64 :: AuthAck(v, c, e) in sys.net ==> v == c
    ensures forall w :: w in sys.victories ==> w.votes <= {w.candidate} && w.votesNeeded <= 1
  {
    RunKeepsOwnVotes(init, steps, sys);
    RunKeepsInv(init, steps, sys);
    forall w | w in sys.victories
      ensures w.votes <= {w.candidate} && w.votesNeeded <= 1
    {
      assert Backed(sys.net, w.candidate, w.epoch, w.votes);
      Subset(w.votes, {w.candidate});
    }
  }
}
