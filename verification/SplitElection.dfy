/** The majority condition of election safety is exact at every size: with goals
    p and q and p + q voters, two candidates can both win one epoch. */
module SplitElection {
  import opened Wrappers
  import opened SlotBitmap
  import opened ClusterSpec
  import opened Election
  import opened Seqs
  import SlotTable

  // ----- Runs -----

  lemma {:induction false} RunConcat(sys: System, steps: seq<Step>, mid: System, more: seq<Step>, sys': System)
    requires Run(sys, steps, mid) && Run(mid, more, sys')
    ensures Run(sys, steps + more, sys')
    decreases |steps|
  {
    if steps == [] {
      assert steps + more == more;
    } else {
      var next := Next(sys, steps[0]);
      RunConcat(next, steps[1..], mid, more, sys');
      assert (steps + more)[0] == steps[0] && (steps + more)[1..] == steps[1..] + more;
      assert Run(next, (steps + more)[1..], sys');
    }
  }

  type Reach = (System, System) -> bool

  /** A relation that holds along every run; the proofs below work with any such. */
  ghost predicate Closed(reach: Reach)
  {
    && (forall sys: System, step: Step :: Enabled(sys, step) ==> reach(sys, Next(sys, step)))
    && (forall a: System, b: System, c: System :: reach(a, b) && reach(b, c) ==> reach(a, c))
  }

  ghost function ByRun(): Reach
  {
    (a: System, b: System) => exists steps :: Run(a, steps, b)
  }

  lemma RunsAreClosed()
    ensures Closed(ByRun())
  {
    forall sys: System, step: Step | Enabled(sys, step)
      ensures ByRun()(sys, Next(sys, step))
    {
      assert [step][1..] == [] && Run(Next(sys, step), [], Next(sys, step));
      assert Run(sys, [step], Next(sys, step));
    }
    forall a: System, b: System, c: System | ByRun()(a, b) && ByRun()(b, c)
      ensures ByRun()(a, c)
    {
      var s :| Run(a, s, b);
      var t :| Run(b, t, c);
      RunConcat(a, s, b, t, c);
    }
  }

  // ----- Candidates and voters -----

  ghost function Solo(self: NodeId, nodes: map<NodeId, NodeView>, epoch: Uint64): State
  {
    State(self, nodes, seq(SLOT_COUNT, _ => None), epoch, 0, None)
  }

  /** A replica of the failed master `m` that knows the masters `known` besides. */
  ghost function Replica(c: NodeId, m: NodeId, known: set<NodeId>, epoch: Uint64): State
  {
    Solo(c, map k | k in known + {c, m} ::
              if k == c then NodeView({Myself, Slave}, m, 0, {})
              else if k == m then NodeView({Master, Fail}, "", 0, {})
              else NodeView({Master}, "", 0, {}), epoch)
  }

  /** A master that knows the replica `c` and the failed master `m`. */
  ghost function Witness(v: NodeId, c: NodeId, m: NodeId, epoch: Uint64): State
  {
    Solo(v, map[v := NodeView({Myself, Master}, "", 0, {}), c := NodeView({Slave}, m, 0, {}),
                m := NodeView({Master, Fail}, "", 0, {})], epoch)
  }

  /** The candidate's election for `goal` votes in `epoch`, of which it has `votes`. */
  ghost predicate Collecting(st: State, c: NodeId, goal: nat, votes: set<NodeId>, epoch: Uint64)
  {
    && WellFormed(st) && st.self == c && Slave in st.nodes[c].flags && st.failover.Some?
    && var f := st.failover.value; f.active && f.votes == votes && f.votesNeeded == goal && f.reqEpoch == epoch
  }

  /** A master that will vote for `c` in `epoch`. */
  ghost predicate Willing(st: State, v: NodeId, c: NodeId, epoch: Uint64)
  {
    WellFormed(st) && st.self == v && GrantsRequest(st, c, epoch)
  }

  /** Knowing 2 * goal - 1 masters makes `goal` the number of votes needed. */
  lemma ReplicaStarts(c: NodeId, m: NodeId, known: set<NodeId>, epoch: Uint64, goal: nat)
    requires epoch + 1 < U64 && c !in known + {m} && m !in known && m != "" && |known| + 2 == 2 * goal
    ensures var s := Replica(c, m, known, epoch);
            && WellFormed(s) && MasterDown(s) && s.self == c && s.nodes[c].masterID == m && s.epoch == epoch
            && Collecting(OpenElection(s.(epoch := epoch + 1), epoch + 1, m), c, goal, {}, epoch + 1)
  {
    assert Masters(Replica(c, m, known, epoch).(epoch := epoch + 1)) == known + {m};
  }

  lemma WitnessVotes(c: NodeId, v: NodeId, m: NodeId, epoch: Uint64)
    requires epoch + 1 < U64 && c != v && c != m && v != m && m != ""
    ensures Willing(Witness(v, c, m, epoch), v, c, epoch + 1)
  {
  }

  lemma Counts(st: State, c: NodeId, goal: nat, votes: set<NodeId>, epoch: Uint64, v: NodeId)
    requires Collecting(st, c, goal, votes, epoch) && v !in votes
    ensures var st' := HandleAuthAck(st, v, epoch, [Entry(c, {})]);
            && st' != st && Collecting(st', c, goal, votes + {v}, epoch)
            && (Won(st') <==> |votes| + 1 >= goal) && VictoryOf(st') == Victory(c, epoch, votes + {v}, goal)
  {
    var es := [Entry(c, {})];
    assert es[0] in es && es[0].id == c;
    assert v in votes + {v};
  }

  // ----- One election -----

  ghost function Ids(l: seq<NodeId>): set<NodeId>
  {
    set v | v in l
  }

  /** The voters `vs` are ready to vote for `c`. */
  ghost predicate Ready(sys: System, c: NodeId, vs: seq<NodeId>, epoch: Uint64)
  {
    && c in sys.nodes && NoDup(vs)
    && forall v :: v in vs ==> v != c && v in sys.nodes && Willing(sys.nodes[v], v, c, epoch)
  }

  /** Only `c` and `vs` change, and of all nodes just `vs` have voted since. */
  ghost predicate Polled(sys: System, sys': System, c: NodeId, vs: set<NodeId>, epoch: Uint64)
  {
    && sys'.nodes.Keys == sys.nodes.Keys && sys.victories <= sys'.victories && sys.net <= sys'.net
    && (forall k :: k in sys.nodes && k != c && k !in vs ==> sys'.nodes[k] == sys.nodes[k])
    && Granters(sys', epoch) == Granters(sys, epoch) + vs
  }

  lemma PolledTwice(sys: System, mid: System, sys': System, c: NodeId, a: set<NodeId>, b: set<NodeId>, epoch: Uint64)
    requires Polled(sys, mid, c, a, epoch) && Polled(mid, sys', c, b, epoch)
    ensures Polled(sys, sys', c, a + b, epoch)
  {
  }

  /** One voter is asked, votes, and is counted. */
  lemma OneVote(reach: Reach, sys: System, c: NodeId, goal: nat, votes: set<NodeId>, v: NodeId, epoch: Uint64)
      returns (sys': System)
    requires Closed(reach) && c in sys.nodes && v in sys.nodes && v != c && Willing(sys.nodes[v], v, c, epoch)
    requires AuthRequest(c, epoch) in sys.net && v !in votes && Collecting(sys.nodes[c], c, goal, votes, epoch)
    ensures reach(sys, sys') && Polled(sys, sys', c, {v}, epoch)
    ensures Collecting(sys'.nodes[c], c, goal, votes + {v}, epoch)
    ensures |votes| + 1 == goal ==> Victory(c, epoch, votes + {v}, goal) in sys'.victories
  {
    Counts(sys.nodes[c], c, goal, votes, epoch, v);
    var mid := Next(sys, Vote(v, c, epoch));
    assert mid.net == sys.net + {AuthAck(v, c, epoch)} && mid.nodes[c] == sys.nodes[c];
    sys' := Next(mid, Tally(c, v, c, epoch));
    OneMoreGranter(sys, sys', v, c, epoch);
  }

  lemma OneMoreGranter(sys: System, sys': System, v: NodeId, c: NodeId, epoch: Uint64)
    requires sys'.net == sys.net + {AuthAck(v, c, epoch)}
    ensures Granters(sys', epoch) == Granters(sys, epoch) + {v}
  {
    assert AuthAck(v, c, epoch) in sys'.net;
  }

  /** All of `vs` vote, and the last vote wins. */
  lemma {:induction false} Gather(reach: Reach, sys: System, c: NodeId, goal: nat, votes: set<NodeId>, vs: seq<NodeId>,
                                  all: set<NodeId>, epoch: Uint64)
      returns (sys': System)
    requires Closed(reach) && vs != [] && Ready(sys, c, vs, epoch) && AuthRequest(c, epoch) in sys.net && votes !! Ids(vs)
    requires Collecting(sys.nodes[c], c, goal, votes, epoch) && goal == |votes| + |vs| && all == votes + Ids(vs)
    ensures reach(sys, sys') && Polled(sys, sys', c, Ids(vs), epoch)
    ensures Victory(c, epoch, all, goal) in sys'.victories
    decreases |vs|
  {
    var v, rest := vs[0], vs[1..];
    IdsCons(votes, vs);
    var mid := OneVote(reach, sys, c, goal, votes, v, epoch);
    if rest == [] {
      sys' := mid;
    } else {
      GatherRest(sys, mid, c, vs, epoch);
      sys' := Gather(reach, mid, c, goal, votes + {v}, rest, all, epoch);
      PolledTwice(sys, mid, sys', c, {v}, Ids(rest), epoch);
    }
  }

  lemma IdsCons(votes: set<NodeId>, vs: seq<NodeId>)
    requires vs != [] && NoDup(vs) && votes !! Ids(vs)
    ensures vs[0] in vs && vs[0] !in votes && Ids(vs) == {vs[0]} + Ids(vs[1..]) && (vs[1..] == [] ==> Ids(vs) == {vs[0]})
    ensures votes + {vs[0]} !! Ids(vs[1..]) && votes + {vs[0]} + Ids(vs[1..]) == votes + Ids(vs)
    ensures |votes + {vs[0]}| == |votes| + 1 && (vs[1..] == [] ==> votes + {vs[0]} == votes + Ids(vs))
  {
    assert vs[0] in vs && vs[0] in Ids(vs);
    assert forall v :: v in vs[1..] ==> v in vs && v != vs[0];
  }

  lemma GatherRest(sys: System, mid: System, c: NodeId, vs: seq<NodeId>, epoch: Uint64)
    requires vs != [] && Ready(sys, c, vs, epoch) && Polled(sys, mid, c, {vs[0]}, epoch)
    ensures Ready(mid, c, vs[1..], epoch)
  {
    forall v | v in vs[1..]
      ensures v in vs && v != vs[0]
    {
    }
  }

  /** A replica that knows 2p - 1 masters wins with the p votes it needs. */
  lemma Elects(reach: Reach, sys: System, c: NodeId, m: NodeId, known: set<NodeId>, vs: seq<NodeId>, epoch: Uint64)
      returns (sys': System)
    requires Closed(reach) && epoch + 1 < U64 && vs != [] && Ready(sys, c, vs, epoch + 1) && sys.nodes[c] == Replica(c, m, known, epoch)
    requires c !in known + {m} && m !in known && m != "" && |known| + 2 == 2 * |vs|
    ensures reach(sys, sys') && Polled(sys, sys', c, Ids(vs), epoch + 1)
    ensures Victory(c, epoch + 1, Ids(vs), |vs|) in sys'.victories
  {
    var asked := Asks(reach, sys, c, m, known, |vs|, epoch);
    assert Ready(asked, c, vs, epoch + 1);
    sys' := Gather(reach, asked, c, |vs|, {}, vs, Ids(vs), epoch + 1);
    PolledTwice(sys, asked, sys', c, {}, Ids(vs), epoch + 1);
    assert {} + Ids(vs) == Ids(vs);
  }

  lemma Asks(reach: Reach, sys: System, c: NodeId, m: NodeId, known: set<NodeId>, goal: nat, epoch: Uint64)
      returns (asked: System)
    requires Closed(reach) && epoch + 1 < U64 && c in sys.nodes && sys.nodes[c] == Replica(c, m, known, epoch)
    requires c !in known + {m} && m !in known && m != "" && |known| + 2 == 2 * goal
    ensures reach(sys, asked) && Polled(sys, asked, c, {}, epoch + 1)
    ensures AuthRequest(c, epoch + 1) in asked.net && Collecting(asked.nodes[c], c, goal, {}, epoch + 1)
  {
    var open := Opens(reach, sys, c, m, known, goal, epoch);
    asked := Next(open, Broadcast(c));
    assert Granters(asked, epoch + 1) == Granters(open, epoch + 1);
    PolledTwice(sys, open, asked, c, {}, {}, epoch + 1);
  }

  lemma Opens(reach: Reach, sys: System, c: NodeId, m: NodeId, known: set<NodeId>, goal: nat, epoch: Uint64)
      returns (open: System)
    requires Closed(reach) && epoch + 1 < U64 && c in sys.nodes && sys.nodes[c] == Replica(c, m, known, epoch)
    requires c !in known + {m} && m !in known && m != "" && |known| + 2 == 2 * goal
    ensures reach(sys, open) && Polled(sys, open, c, {}, epoch + 1)
    ensures open.nodes[c].epoch == epoch + 1 && Collecting(open.nodes[c], c, goal, {}, epoch + 1)
  {
    ReplicaStarts(c, m, known, epoch, goal);
    open := OpensFrom(reach, sys, c, m, goal, epoch);
  }

  lemma OpensFrom(reach: Reach, sys: System, c: NodeId, m: NodeId, goal: nat, epoch: Uint64) returns (open: System)
    requires Closed(reach) && epoch + 1 < U64 && c in sys.nodes && WellFormed(sys.nodes[c]) && MasterDown(sys.nodes[c])
    requires var s := sys.nodes[c];
             && s.self == c && s.nodes[c].masterID == m && s.epoch == epoch
             && Collecting(OpenElection(s.(epoch := epoch + 1), epoch + 1, m), c, goal, {}, epoch + 1)
    ensures reach(sys, open) && Polled(sys, open, c, {}, epoch + 1)
    ensures open.nodes[c].epoch == epoch + 1 && Collecting(open.nodes[c], c, goal, {}, epoch + 1)
  {
    var taken := Next(sys, TakeEpoch(c));
    open := Next(taken, Open(c));
    assert Granters(open, epoch + 1) == Granters(sys, epoch + 1);
  }

  // ----- Two elections -----

  ghost function SplitStart(a: NodeId, b: NodeId, m: NodeId, va: seq<NodeId>, vb: seq<NodeId>, ka: set<NodeId>, kb: set<NodeId>,
                            epoch: Uint64): System
  {
    System(map k | k in {a, b} + Ids(va) + Ids(vb) ::
             if k == a then Replica(a, m, ka, epoch) else if k == b then Replica(b, m, kb, epoch)
             else Witness(k, if k in va then a else b, m, epoch), {}, {}, map[])
  }

  /** Two replicas of one failed master, their voters, and what they know. */
  ghost predicate Apart(a: NodeId, b: NodeId, m: NodeId, va: seq<NodeId>, vb: seq<NodeId>, ka: set<NodeId>, kb: set<NodeId>)
  {
    && a !in {b, m} && b != m && m != "" && NoDup(va) && NoDup(vb) && Ids(va) !! Ids(vb)
    && {a, b, m} !! Ids(va) + Ids(vb) && a !in ka && m !in ka && b !in kb && m !in kb
  }

  lemma SplitStartInit(a: NodeId, b: NodeId, m: NodeId, va: seq<NodeId>, vb: seq<NodeId>, ka: set<NodeId>, kb: set<NodeId>, epoch: Uint64)
    requires Apart(a, b, m, va, vb, ka, kb)
    ensures Init(SplitStart(a, b, m, va, vb, ka, kb, epoch))
  {
    var sys := SplitStart(a, b, m, va, vb, ka, kb, epoch);
    forall k | k in sys.nodes
      ensures sys.nodes[k].self == k && SlotTable.Agree(sys.nodes[k]) && sys.nodes[k].failover == None
    {
      assert k !in {a, b} ==> k in Ids(va) + Ids(vb) && k != m;
    }
  }

  /** Candidates that know too few masters set their goals too low: however large
      the goals p and q, p + q voters are enough for both to win one epoch. */
  lemma BothWin(reach: Reach, a: NodeId, b: NodeId, m: NodeId, va: seq<NodeId>, vb: seq<NodeId>, ka: set<NodeId>, kb: set<NodeId>, epoch: Uint64)
      returns (init: System, sys: System)
    requires Closed(reach) && Apart(a, b, m, va, vb, ka, kb) && va != [] && vb != [] && epoch + 1 < U64
    requires |ka| + 2 == 2 * |va| && |kb| + 2 == 2 * |vb|
    ensures Init(init) && reach(init, sys)
    ensures Victory(a, epoch + 1, Ids(va), |va|) in sys.victories && Victory(b, epoch + 1, Ids(vb), |vb|) in sys.victories
    ensures |Granters(sys, epoch + 1)| == |va| + |vb|
  {
    init := SplitStart(a, b, m, va, vb, ka, kb, epoch);
    SplitStartInit(a, b, m, va, vb, ka, kb, epoch);
    StartReady(a, b, m, va, vb, ka, kb, epoch);
    var mid := Elects(reach, init, a, m, ka, va, epoch);
    StillReady(init, mid, a, b, va, vb, epoch + 1);
    sys := Elects(reach, mid, b, m, kb, vb, epoch);
    AllVoted(init, mid, sys, a, b, va, vb, epoch + 1);
  }

  lemma AllVoted(init: System, mid: System, sys: System, a: NodeId, b: NodeId, va: seq<NodeId>, vb: seq<NodeId>, epoch: Uint64)
    requires init.net == {} && Polled(init, mid, a, Ids(va), epoch) && Polled(mid, sys, b, Ids(vb), epoch)
    requires NoDup(va) && NoDup(vb) && Ids(va) !! Ids(vb)
    ensures |Granters(sys, epoch)| == |va| + |vb|
  {
    assert Granters(init, epoch) == {};
    assert Granters(sys, epoch) == Ids(va) + Ids(vb);
    IdsSize(va);
    IdsSize(vb);
  }

  lemma StillReady(init: System, mid: System, a: NodeId, b: NodeId, va: seq<NodeId>, vb: seq<NodeId>, epoch: Uint64)
    requires Ready(init, b, vb, epoch) && Polled(init, mid, a, Ids(va), epoch)
    requires a != b && b !in Ids(va) && a !in Ids(vb) && Ids(va) !! Ids(vb)
    ensures Ready(mid, b, vb, epoch) && mid.nodes[b] == init.nodes[b]
  {
    assert forall v :: v in vb ==> v in Ids(vb);
  }

  lemma StartReady(a: NodeId, b: NodeId, m: NodeId, va: seq<NodeId>, vb: seq<NodeId>, ka: set<NodeId>, kb: set<NodeId>, epoch: Uint64)
    requires Apart(a, b, m, va, vb, ka, kb) && epoch + 1 < U64
    ensures var sys := SplitStart(a, b, m, va, vb, ka, kb, epoch);
            Ready(sys, a, va, epoch + 1) && Ready(sys, b, vb, epoch + 1)
  {
    var sys := SplitStart(a, b, m, va, vb, ka, kb, epoch);
    forall v | v in va
      ensures v in sys.nodes && v != a && Willing(sys.nodes[v], v, a, epoch + 1)
    {
      assert v in Ids(va) && v !in {a, b, m};
      WitnessVotes(a, v, m, epoch);
    }
    forall v | v in vb
      ensures v in sys.nodes && v != b && Willing(sys.nodes[v], v, b, epoch + 1)
    {
      assert v in Ids(vb) && v !in {a, b, m} && (v in va ==> v in Ids(va));
      WitnessVotes(b, v, m, epoch);
    }
  }

  lemma {:induction false} IdsSize(l: seq<NodeId>)
    requires NoDup(l)
    ensures |Ids(l)| == |l|
  {
    if l != [] {
      var n := |l| - 1;
      IdsSize(l[..n]);
      assert Ids(l) == Ids(l[..n]) + {l[n]} && l[n] !in l[..n];
    }
  }

  // ----- Every size -----

  /** n distinct ids; those of different ranges differ. */
  ghost function Named(from: nat, n: nat): (r: seq<NodeId>)
    ensures |r| == n && forall i :: 0 <= i < n ==> |r[i]| == from + i + 1
  {
    if n == 0 then [] else Named(from, n - 1) + [seq(from + n, _ => 'n')]
  }

  lemma NamedApart(from: nat, n: nat)
    ensures NoDup(Named(from, n)) && forall v :: v in Named(from, n) ==> from < |v| <= from + n
  {
  }

  /** For all goals p and q there is a run in which both are reached in one epoch
      by different candidates, with no more than p + q voters: exactly the
      condition under which ElectionSafety rules it out is needed. */
  lemma BoundIsExact(p: nat, q: nat) returns (init: System, steps: seq<Step>, sys: System, x: Victory, y: Victory)
    requires p > 0 && q > 0
    ensures Init(init) && Run(init, steps, sys) && x in sys.victories && y in sys.victories
    ensures x.epoch == y.epoch && x.candidate != y.candidate && x.votesNeeded == p && y.votesNeeded == q
    ensures |Granters(sys, x.epoch)| == p + q
  {
    var ids, va, vb := Named(0, 3), Named(3, p), Named(3 + p, q);
    var a, b, m := ids[0], ids[1], ids[2];
    var ka, kb := Named(3 + p + q, 2 * p - 2), Named(3 + p + q, 2 * q - 2);
    NamedApart(3 + p + q, 2 * p - 2);
    NamedApart(3 + p + q, 2 * q - 2);
    IdsSize(ka);
    IdsSize(kb);
    AllApart(a, b, m, p, q);
    x, y := Victory(a, 1, Ids(va), p), Victory(b, 1, Ids(vb), q);
    init, steps, sys := BothWinRun(a, b, m, va, vb, Ids(ka), Ids(kb), 0, x, y);
  }

  lemma BothWinRun(a: NodeId, b: NodeId, m: NodeId, va: seq<NodeId>, vb: seq<NodeId>, ka: set<NodeId>, kb: set<NodeId>, epoch: Uint64,
                   x: Victory, y: Victory)
      returns (init: System, steps: seq<Step>, sys: System)
    requires Apart(a, b, m, va, vb, ka, kb) && va != [] && vb != [] && epoch + 1 < U64
    requires |ka| + 2 == 2 * |va| && |kb| + 2 == 2 * |vb|
    requires x == Victory(a, epoch + 1, Ids(va), |va|) && y == Victory(b, epoch + 1, Ids(vb), |vb|)
    ensures Init(init) && Run(init, steps, sys) && x in sys.victories && y in sys.victories
    ensures |Granters(sys, epoch + 1)| == |va| + |vb|
  {
    RunsAreClosed();
    init, sys := BothWin(ByRun(), a, b, m, va, vb, ka, kb, epoch);
    steps :| Run(init, steps, sys);
  }

  lemma AllApart(a: NodeId, b: NodeId, m: NodeId, p: nat, q: nat)
    requires |a| == 1 && |b| == 2 && |m| == 3 && p > 0 && q > 0
    ensures Apart(a, b, m, Named(3, p), Named(3 + p, q), Ids(Named(3 + p + q, 2 * p - 2)), Ids(Named(3 + p + q, 2 * q - 2)))
  {
    NamedApart(3, p);
    NamedApart(3 + p, q);
    NamedApart(3 + p + q, 2 * p - 2);
    NamedApart(3 + p + q, 2 * q - 2);
  }
}
