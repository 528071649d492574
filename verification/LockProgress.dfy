/** Any number of goroutines taking and releasing lock batches, under the
    semantics of Go's RWMutex: a writer first announces itself, which keeps
    new readers out, then waits for the readers inside to leave. */
module LockProgress {
  import opened MapSum
  import opened ShardLocks

  type Gid = nat

  datatype Goroutine =
    | Idle
    | Taking(batch: Batch, k: nat, announced: bool)   // holds the first k locks of its plan
    | Releasing(batch: Batch, held: nat)              // still holds the first `held` of them

  datatype System = System(spread: Spread, gs: map<Gid, Goroutine>)

  function PlanOf(sys: System, g: Gid): seq<Lock>
    requires g in sys.gs
  {
    if sys.gs[g].Idle? then [] else Plan(sys.spread, sys.gs[g].batch)
  }

  /** How many locks of its plan a goroutine holds. */
  function Prefix(sys: System, g: Gid): nat
    requires g in sys.gs
  {
    match sys.gs[g]
    case Idle => 0
    case Taking(_, k, _) => k
    case Releasing(_, held) => held
  }

  ghost predicate Holds(sys: System, g: Gid, lock: Lock)
  {
    g in sys.gs && exists i :: 0 <= i < |PlanOf(sys, g)| && i < Prefix(sys, g) && PlanOf(sys, g)[i] == lock
  }

  ghost predicate Wants(sys: System, g: Gid, lock: Lock)
  {
    g in sys.gs && sys.gs[g].Taking? && Prefix(sys, g) < |PlanOf(sys, g)| && PlanOf(sys, g)[Prefix(sys, g)] == lock
  }

  /** A writer that has announced itself on a shard and not yet entered. */
  ghost predicate Announced(sys: System, g: Gid, shard: nat)
  {
    Wants(sys, g, Lock(shard, Write)) && sys.gs[g].announced
  }

  /** Has every lock of its plan, so the protected section runs. */
  ghost predicate HoldsAll(sys: System, g: Gid)
  {
    g in sys.gs && sys.gs[g].Taking? && sys.gs[g].k == |PlanOf(sys, g)|
  }

  /** A writer holds the shard or has announced itself on it. */
  ghost predicate WriterAt(sys: System, shard: nat)
  {
    exists h :: Holds(sys, h, Lock(shard, Write)) || Announced(sys, h, shard)
  }

  ghost predicate ReaderAt(sys: System, shard: nat)
  {
    exists h :: Holds(sys, h, Lock(shard, Read))
  }

  datatype Step = Begin(g: Gid, batch: Batch) | Announce(g: Gid) | Take(g: Gid) | Unlock(g: Gid)

  ghost predicate Enabled(sys: System, step: Step)
  {
    && step.g in sys.gs
    && match step
       case Begin(g, _) => sys.gs[g].Idle?
       case Announce(g) => exists s :: Wants(sys, g, Lock(s, Write)) && !sys.gs[g].announced && !WriterAt(sys, s)
       case Take(g) =>
         || (exists s :: Wants(sys, g, Lock(s, Read)) && !WriterAt(sys, s))
         || (exists s :: Announced(sys, g, s) && !ReaderAt(sys, s))
       case Unlock(g) => HoldsAll(sys, g) || sys.gs[g].Releasing?
  }

  ghost function Next(sys: System, step: Step): System
    requires Enabled(sys, step)
  {
    var g := step.g;
    sys.(gs := sys.gs[g :=
      match step
      case Begin(_, batch) => Taking(batch, 0, false)
      case Announce(_) => sys.gs[g].(announced := true)
      case Take(_) => Taking(sys.gs[g].batch, sys.gs[g].k + 1, false)
      case Unlock(_) => if Prefix(sys, g) <= 1 then Idle else Releasing(sys.gs[g].batch, Prefix(sys, g) - 1)])
  }

  ghost predicate Run(sys: System, steps: seq<Step>, sys': System)
    decreases |steps|
  {
    if steps == [] then sys' == sys
    else Enabled(sys, steps[0]) && Run(Next(sys, steps[0]), steps[1..], sys')
  }

  // ----- Mutual exclusion -----

  ghost predicate Wf(sys: System, g: Gid)
    requires g in sys.gs
  {
    && Prefix(sys, g) <= |PlanOf(sys, g)|
    && (sys.gs[g].Taking? && sys.gs[g].announced ==> exists s :: Wants(sys, g, Lock(s, Write)))
    && (sys.gs[g].Releasing? ==> sys.gs[g].held >= 1)
  }

  ghost predicate AllWf(sys: System)
  {
    forall g :: g in sys.gs ==> Wf(sys, g)
  }

  /** A held write lock is held by nobody else in any mode. */
  ghost predicate Exclusive(sys: System)
  {
    forall g, h, s, m :: Holds(sys, g, Lock(s, Write)) && Holds(sys, h, Lock(s, m)) ==> g == h
  }

  /** At most one writer has announced itself on a shard, and none is inside. */
  ghost predicate OneWriter(sys: System)
  {
    forall g, h, s :: Announced(sys, g, s) ==> !Holds(sys, h, Lock(s, Write)) && (Announced(sys, h, s) ==> g == h)
  }

  ghost predicate Inv(sys: System)
  {
    AllWf(sys) && Exclusive(sys) && OneWriter(sys)
  }

  /** Nobody holds or waits for anything at the start. */
  lemma InitKeepsOut(sys: System)
    requires Init(sys)
    ensures Inv(sys)
  {
    forall g, l
      ensures !Holds(sys, g, l)
    {
    }
    forall g, s
      ensures !Announced(sys, g, s)
    {
    }
  }

  lemma PlanAscending(spread: Spread, b: Batch)
    ensures forall i, j :: 0 <= i < j < |Plan(spread, b)| ==> Plan(spread, b)[i].shard < Plan(spread, b)[j].shard
  {
    SortedIsAscending(Shards(spread, b.writeKeys + b.readKeys));
  }

  lemma OthersUnchanged(sys: System, step: Step, h: Gid, l: Lock)
    requires Enabled(sys, step) && h != step.g
    ensures Holds(Next(sys, step), h, l) <==> Holds(sys, h, l)
    ensures Wants(Next(sys, step), h, l) <==> Wants(sys, h, l)
    ensures Announced(Next(sys, step), h, l.shard) <==> Announced(sys, h, l.shard)
  {
    var sys' := Next(sys, step);
    if h in sys.gs {
      assert PlanOf(sys', h) == PlanOf(sys, h) && Prefix(sys', h) == Prefix(sys, h);
    }
  }

  /** What the stepping goroutine holds afterwards: nothing new, except the
      lock it takes. */
  lemma StepperHolds(sys: System, step: Step, l: Lock)
    requires Enabled(sys, step) && Wf(sys, step.g)
    ensures Holds(Next(sys, step), step.g, l) ==> Holds(sys, step.g, l) || (step.Take? && Wants(sys, step.g, l))
  {
    var sys', g := Next(sys, step), step.g;
    if Holds(sys', g, l) {
      assert PlanOf(sys', g) == PlanOf(sys, g);
      assert Prefix(sys', g) <= Prefix(sys, g) + if step.Take? then 1 else 0;
      var i :| 0 <= i < |PlanOf(sys', g)| && i < Prefix(sys', g) && PlanOf(sys', g)[i] == l;
      assert PlanOf(sys, g)[i] == l;
    }
  }

  lemma ExclusionKept(sys: System, step: Step, g: Gid, h: Gid, s: nat, m: Mode)
    requires Inv(sys) && Enabled(sys, step)
    requires Holds(Next(sys, step), g, Lock(s, Write)) && Holds(Next(sys, step), h, Lock(s, m))
    ensures g == h
  {
    if g != h {
      if g == step.g {
        OthersUnchanged(sys, step, h, Lock(s, m));
        StepperHolds(sys, step, Lock(s, Write));
      } else if h == step.g {
        OthersUnchanged(sys, step, g, Lock(s, Write));
        StepperHolds(sys, step, Lock(s, m));
      } else {
        OthersUnchanged(sys, step, g, Lock(s, Write));
        OthersUnchanged(sys, step, h, Lock(s, m));
      }
    }
  }

  /** A goroutine becomes announced only by announcing, on a free shard. */
  lemma StepperAnnounced(sys: System, step: Step, s: nat)
    requires Inv(sys) && Enabled(sys, step) && Announced(Next(sys, step), step.g, s)
    ensures step.Announce? && Wants(sys, step.g, Lock(s, Write)) && !WriterAt(sys, s)
  {
    var sys', g := Next(sys, step), step.g;
    assert step.Announce?;
    assert PlanOf(sys', g) == PlanOf(sys, g);
    var s' :| Wants(sys, g, Lock(s', Write)) && !WriterAt(sys, s');
  }

  lemma AnnouncementKept(sys: System, step: Step, g: Gid, h: Gid, s: nat)
    requires Inv(sys) && Enabled(sys, step) && Announced(Next(sys, step), g, s)
    ensures !Holds(Next(sys, step), h, Lock(s, Write))
    ensures Announced(Next(sys, step), h, s) ==> g == h
  {
    var sys' := Next(sys, step);
    if g == step.g {
      StepperAnnounced(sys, step, s);
      if h != g {
        OthersUnchanged(sys, step, h, Lock(s, Write));
      } else {
        StepperHolds(sys, step, Lock(s, Write));
      }
    } else {
      OthersUnchanged(sys, step, g, Lock(s, Write));
      if h == step.g {
        StepperHolds(sys, step, Lock(s, Write));
        if Announced(sys', h, s) {
          StepperAnnounced(sys, step, s);
        }
        if Holds(sys', h, Lock(s, Write)) {
          TakenWasAnnounced(sys, step, s);
        }
      } else {
        OthersUnchanged(sys, step, h, Lock(s, Write));
      }
    }
  }

  lemma TakenWasAnnounced(sys: System, step: Step, s: nat)
    requires Inv(sys) && Enabled(sys, step) && Holds(Next(sys, step), step.g, Lock(s, Write))
    ensures Holds(sys, step.g, Lock(s, Write)) || Announced(sys, step.g, s)
  {
    StepperHolds(sys, step, Lock(s, Write));
  }

  lemma WfKept(sys: System, step: Step, g: Gid)
    requires Inv(sys) && Enabled(sys, step) && g in sys.gs
    ensures Wf(Next(sys, step), g)
  {
    var sys' := Next(sys, step);
    assert Wf(sys, g);
    if g != step.g {
      assert PlanOf(sys', g) == PlanOf(sys, g) && Prefix(sys', g) == Prefix(sys, g);
      if sys.gs[g].Taking? && sys.gs[g].announced {
        var s :| Wants(sys, g, Lock(s, Write));
        OthersUnchanged(sys, step, g, Lock(s, Write));
      }
    } else if step.Announce? {
      var s :| Wants(sys, g, Lock(s, Write));
      assert Wants(sys', g, Lock(s, Write));
    }
  }

  lemma StepKeepsExclusive(sys: System, step: Step)
    requires Inv(sys) && Enabled(sys, step)
    ensures Exclusive(Next(sys, step))
  {
    forall g, h, s, m | Holds(Next(sys, step), g, Lock(s, Write)) && Holds(Next(sys, step), h, Lock(s, m))
      ensures g == h
    {
      ExclusionKept(sys, step, g, h, s, m);
    }
  }

  lemma StepKeepsOneWriter(sys: System, step: Step)
    requires Inv(sys) && Enabled(sys, step)
    ensures OneWriter(Next(sys, step))
  {
    forall g, h, s | Announced(Next(sys, step), g, s)
      ensures !Holds(Next(sys, step), h, Lock(s, Write)) && (Announced(Next(sys, step), h, s) ==> g == h)
    {
      AnnouncementKept(sys, step, g, h, s);
    }
  }

  lemma StepKeepsInv(sys: System, step: Step)
    requires Inv(sys) && Enabled(sys, step)
    ensures Inv(Next(sys, step))
  {
    forall g | g in Next(sys, step).gs
      ensures Wf(Next(sys, step), g)
    {
      WfKept(sys, step, g);
    }
    StepKeepsExclusive(sys, step);
    StepKeepsOneWriter(sys, step);
  }

  ghost predicate Init(sys: System)
  {
    forall g :: g in sys.gs ==> sys.gs[g].Idle?
  }

  lemma {:induction false} RunKeepsInv(sys: System, steps: seq<Step>, sys': System)
    requires Inv(sys) && Run(sys, steps, sys')
    ensures Inv(sys')
    decreases |steps|
  {
    if steps != [] {
      StepKeepsInv(sys, steps[0]);
      RunKeepsInv(Next(sys, steps[0]), steps[1..], sys');
    }
  }

  lemma PlanCovers(spread: Spread, b: Batch, key: Key)
    requires key in b.writeKeys + b.readKeys
    ensures Lock(spread(key), ModeOf(spread, b, spread(key))) in Plan(spread, b)
  {
    var shards := Sorted(Shards(spread, b.writeKeys + b.readKeys));
    SortedIsAscending(Shards(spread, b.writeKeys + b.readKeys));
    assert spread(key) in shards;
    var i :| 0 <= i < |shards| && shards[i] == spread(key);
    assert Plan(spread, b)[i] == Lock(spread(key), ModeOf(spread, b, spread(key)));
  }

  /** In no reachable state do two goroutines both hold batches that share a
      key one of them writes. */
  lemma SharedWriteKeyExcludes(init: System, steps: seq<Step>, sys: System, g: Gid, h: Gid, key: Key)
    requires Init(init) && Run(init, steps, sys)
    requires HoldsAll(sys, g) && HoldsAll(sys, h)
    requires key in sys.gs[g].batch.writeKeys && key in sys.gs[h].batch.writeKeys + sys.gs[h].batch.readKeys
    ensures g == h
  {
    InitKeepsOut(init);
    RunKeepsInv(init, steps, sys);
    var s := sys.spread(key);
    PlanCovers(sys.spread, sys.gs[g].batch, key);
    PlanCovers(sys.spread, sys.gs[h].batch, key);
    assert s in Shards(sys.spread, sys.gs[g].batch.writeKeys);
    assert Holds(sys, g, Lock(s, Write));
    assert Holds(sys, h, Lock(s, ModeOf(sys.spread, sys.gs[h].batch, s)));
  }

  // ----- Progress -----

  ghost predicate Finished(sys: System, g: Gid)
  {
    HoldsAll(sys, g) || (g in sys.gs && sys.gs[g].Releasing?)
  }

  /** Whoever holds a shard is done taking or waits for a higher shard. */
  lemma HolderWantsHigher(sys: System, h: Gid, s: nat, m: Mode)
    requires AllWf(sys) && Holds(sys, h, Lock(s, m)) && !Finished(sys, h)
    ensures sys.gs[h].Taking? && Prefix(sys, h) < |PlanOf(sys, h)| && PlanOf(sys, h)[Prefix(sys, h)].shard > s
  {
    assert Wf(sys, h);
    PlanAscending(sys.spread, sys.gs[h].batch);
  }

  ghost function NextShard(sys: System, g: Gid): nat
    requires g in sys.gs
  {
    if sys.gs[g].Taking? && Prefix(sys, g) < |PlanOf(sys, g)| then PlanOf(sys, g)[Prefix(sys, g)].shard else 0
  }

  lemma {:induction false} HighestWaiter(sys: System, waiting: set<Gid>) returns (g: Gid)
    requires waiting != {} && waiting <= sys.gs.Keys
    ensures g in waiting && forall h :: h in waiting ==> NextShard(sys, h) <= NextShard(sys, g)
    decreases waiting
  {
    g :| g in waiting;
    if waiting != {g} {
      var g' := HighestWaiter(sys, waiting - {g});
      var old_g := g;
      if NextShard(sys, g') > NextShard(sys, g) {
        g := g';
      }
      forall h | h in waiting
        ensures NextShard(sys, h) <= NextShard(sys, g)
      {
        assert h == old_g || h in waiting - {old_g};
      }
    }
  }

  /** The shard waited for by the highest waiter is held by nobody. */
  lemma HighestIsFree(sys: System, g: Gid, h: Gid, m: Mode)
    requires AllWf(sys) && g in sys.gs && forall f :: f in sys.gs ==> !Finished(sys, f)
    requires forall k :: k in sys.gs && sys.gs[k].Taking? ==> NextShard(sys, k) <= NextShard(sys, g)
    ensures !Holds(sys, h, Lock(NextShard(sys, g), m))
  {
    if Holds(sys, h, Lock(NextShard(sys, g), m)) {
      HolderWantsHigher(sys, h, NextShard(sys, g), m);
    }
  }

  /** If nobody holds the shard `g` waits for, someone can move. */
  lemma FreeShardMoves(sys: System, g: Gid, l: Lock) returns (step: Step)
    requires Inv(sys) && Wants(sys, g, l)
    requires forall h, m :: !Holds(sys, h, Lock(l.shard, m))
    ensures !step.Begin? && Enabled(sys, step)
  {
    if h :| Announced(sys, h, l.shard) {
      assert !ReaderAt(sys, l.shard);
      step := Take(h);
    } else {
      assert !WriterAt(sys, l.shard);
      if l.mode.Read? {
        step := Take(g);
      } else {
        assert !Announced(sys, g, l.shard);
        step := Announce(g);
      }
    }
  }

  /** Deadlock freedom: while any goroutine is busy, some busy one can move. */
  lemma SomeoneMoves(sys: System, busy: Gid) returns (step: Step)
    requires Inv(sys) && busy in sys.gs && !sys.gs[busy].Idle?
    ensures !step.Begin? && Enabled(sys, step)
  {
    if f :| f in sys.gs && Finished(sys, f) {
      step := Unlock(f);
    } else {
      var waiting := set g | g in sys.gs && sys.gs[g].Taking?;
      assert busy in waiting;
      var g := HighestWaiter(sys, waiting);
      assert Wf(sys, g);
      var l := PlanOf(sys, g)[Prefix(sys, g)];
      forall h, m
        ensures !Holds(sys, h, Lock(l.shard, m))
      {
        HighestIsFree(sys, g, h, m);
      }
      step := FreeShardMoves(sys, g, l);
    }
  }

  lemma NeverDeadlocked(init: System, steps: seq<Step>, sys: System, busy: Gid)
    requires Init(init) && Run(init, steps, sys) && busy in sys.gs && !sys.gs[busy].Idle?
    ensures exists step: Step :: !step.Begin? && Enabled(sys, step)
  {
    InitKeepsOut(init);
    RunKeepsInv(init, steps, sys);
    var step := SomeoneMoves(sys, busy);
  }

  // ----- Termination -----

  /** Steps a goroutine has left before it is idle again. */
  ghost function Rank(sys: System, g: Gid): nat
    requires g in sys.gs && Wf(sys, g)
  {
    var n := |PlanOf(sys, g)|;
    match sys.gs[g]
    case Idle => 0
    case Taking(_, k, announced) => 2 * (n - k) + n + 1 + (if announced then 0 else if k < n then 1 else 0)
    case Releasing(_, held) => held
  }

  ghost function Ranks(sys: System): map<Gid, nat>
    requires AllWf(sys)
  {
    map g | g in sys.gs :: Rank(sys, g)
  }

  ghost function TotalRank(sys: System): nat
    requires AllWf(sys)
  {
    Sum(Ranks(sys))
  }

  lemma SumDrops(before: map<Gid, nat>, after: map<Gid, nat>, g: Gid)
    requires g in before && before.Keys == after.Keys && after[g] < before[g]
    requires forall h :: h in before && h != g ==> after[h] == before[h]
    ensures Sum(after) < Sum(before)
  {
    SumSplit(before, g);
    SumSplit(after, g);
    assert before - {g} == after - {g};
  }

  lemma RankDrops(sys: System, step: Step)
    requires Inv(sys) && Enabled(sys, step) && !step.Begin?
    ensures Wf(Next(sys, step), step.g) && Rank(Next(sys, step), step.g) < Rank(sys, step.g)
  {
    WfKept(sys, step, step.g);
    assert Wf(sys, step.g);
  }

  lemma OtherRanks(sys: System, step: Step, h: Gid)
    requires AllWf(sys) && Enabled(sys, step) && h in sys.gs && h != step.g
    requires Wf(Next(sys, step), h)
    ensures Rank(Next(sys, step), h) == Rank(sys, h)
  {
    assert PlanOf(Next(sys, step), h) == PlanOf(sys, h);
  }

  /** Every step of a busy goroutine uses up rank, so batches already begun
      finish within TotalRank steps, whatever the schedule. */
  lemma StepUsesRank(sys: System, step: Step)
    requires Inv(sys) && Enabled(sys, step) && !step.Begin?
    ensures AllWf(Next(sys, step)) && TotalRank(Next(sys, step)) < TotalRank(sys)
  {
    var sys' := Next(sys, step);
    StepKeepsInv(sys, step);
    RankDrops(sys, step);
    forall h | h in sys.gs && h != step.g
      ensures Rank(sys', h) == Rank(sys, h)
    {
      OtherRanks(sys, step, h);
    }
    RankSumDrops(sys, sys', step.g);
  }

  lemma RankSumDrops(sys: System, sys': System, g: Gid)
    requires AllWf(sys) && AllWf(sys') && g in sys.gs && sys.gs.Keys == sys'.gs.Keys
    requires Rank(sys', g) < Rank(sys, g)
    requires forall h :: h in sys.gs && h != g ==> Rank(sys', h) == Rank(sys, h)
    ensures TotalRank(sys') < TotalRank(sys)
  {
    SumDrops(Ranks(sys), Ranks(sys'), g);
  }

  /** From any state, the batches already begun can all complete. */
  lemma {:induction false} EveryoneFinishes(sys: System) returns (steps: seq<Step>, sys': System)
    requires Inv(sys)
    ensures Run(sys, steps, sys') && Init(sys')
    ensures forall step :: step in steps ==> !step.Begin?
    decreases TotalRank(sys)
  {
    if g :| g in sys.gs && !sys.gs[g].Idle? {
      var step := SomeoneMoves(sys, g);
      StepUsesRank(sys, step);
      StepKeepsInv(sys, step);
      var rest, end := EveryoneFinishes(Next(sys, step));
      steps, sys' := [step] + rest, end;
      assert steps[1..] == rest;
    } else {
      steps, sys' := [], sys;
    }
  }
}
