/** Carrying out a rebalance plan: the leader starts the tasks in order, each
    task's slots are read from the live lists when it is started, and earlier
    tasks may finish in between and shift the lists in place. */
module RebalanceRun {
  import opened Wrappers
  import opened SortedList
  import opened SlotList
  import opened SlotWindows
  import opened Routing
  import opened Rebalance
  import opened Seqs

  /** The leader starts its next task or fails to; a started task finishes. */
  datatype Step = Start | Skip | Finish(i: nat)

  /** `cells` are the arrays behind the lists the plan was made from; `log` has
      the finished tasks in the order they finished. */
  datatype Exec = Exec(routes: Routes, cells: map<Node, Sweep>, next: nat, started: map<nat, Move>,
                       finished: set<nat>, log: seq<Move>)

  ghost function Begin(r: Routes): Exec
  {
    Exec(r, map n | n in r.node2Slot :: Whole(r.node2Slot[n]), 0, map[], {}, [])
  }

  ghost function CellsOf(s: Exec, n: Node): (r: Sweep)
    ensures Fits(r)
  {
    if n in s.cells && Fits(s.cells[n]) then s.cells[n] else Whole([])
  }

  /** What a window gives when it is read from these cells. */
  ghost function ReadTask(w: Sweep, b: Block): Move
  {
    Move(b.src, b.target, if b.from <= b.to <= |w.backing| then w.backing[b.from..b.to] else [])
  }

  /** A step that is not possible changes nothing. */
  ghost function Next(plan: seq<Block>, s: Exec, e: Step): Exec
  {
    match e
    case Start =>
      if s.next >= |plan| then s
      else s.(next := s.next + 1, started := s.started[s.next := ReadTask(CellsOf(s, plan[s.next].src), plan[s.next])])
    case Skip => if s.next >= |plan| then s else s.(next := s.next + 1)
    case Finish(i) =>
      if i !in s.started then s
      else
        var m := s.started[i];
        s.(routes := Migrate(s.routes, Task("", m.src, m.target, m.slots)),
           cells := s.cells[m.src := TakeOutAll(CellsOf(s, m.src), m.slots)],
           finished := s.finished + {i}, log := s.log + [m])
  }

  ghost function After(plan: seq<Block>, s: Exec, es: seq<Step>): Exec
    decreases |es|
  {
    if es == [] then s else After(plan, Next(plan, s, es[0]), es[1..])
  }

  // ----- What holds in every run -----

  /** The slots removed from n's list so far. */
  ghost function Gone(log: seq<Move>, n: Node): seq<Slot>
  {
    if log == [] then []
    else
      var m := log[|log| - 1];
      Gone(log[..|log| - 1], n) + if m.src == n then m.slots else []
  }

  lemma {:induction false} GoneHas(log: seq<Move>, n: Node, x: Slot)
    ensures x in Gone(log, n) <==> exists m :: m in log && m.src == n && x in m.slots
  {
    if log != [] {
      var k := |log| - 1;
      GoneHas(log[..k], n, x);
      assert log == log[..k] + [log[k]];
    }
  }

  ghost predicate Bookkept(plan: seq<Block>, s: Exec)
  {
    && s.next <= |plan|
    && (forall i :: i in s.started ==> i < s.next && s.started[i].src == plan[i].src && s.started[i].target == plan[i].target)
    && (forall i :: i in s.finished ==> i in s.started && s.started[i] in s.log)
    && (forall m :: m in s.log ==> exists i :: i in s.finished && s.started[i] == m)
  }

  /** The cells are the first lists after the finished tasks' removals. */
  ghost predicate CellsFollow(r: Routes, s: Exec, n: Node)
  {
    CellsOf(s, n) == TakeOutAll(Whole(ListOf(r, n)), Gone(s.log, n))
  }

  lemma NextBookkept(plan: seq<Block>, s: Exec, e: Step)
    requires Bookkept(plan, s)
    ensures Bookkept(plan, Next(plan, s, e))
  {
    var t := Next(plan, s, e);
    forall m | m in t.log
      ensures exists i :: i in t.finished && t.started[i] == m
    {
      if m in s.log {
        var i :| i in s.finished && s.started[i] == m;
        assert i in t.finished && t.started[i] == m;
      } else {
        assert e.i in t.finished && t.started[e.i] == m;
      }
    }
  }

  lemma NextFollows(plan: seq<Block>, r: Routes, s: Exec, e: Step, n: Node)
    requires CellsFollow(r, s, n)
    ensures CellsFollow(r, Next(plan, s, e), n)
  {
    if e.Finish? && e.i in s.started {
      var m := s.started[e.i];
      assert (s.log + [m])[..|s.log|] == s.log;
      if m.src == n {
        TakeOutMore(Whole(ListOf(r, n)), Gone(s.log, n), m.slots);
      } else {
        assert Gone(s.log, n) + [] == Gone(s.log, n);
      }
    }
  }

  /** The cells of a node no task leads to are its list. */
  ghost predicate CellsMatch(plan: seq<Block>, s: Exec, n: Node)
  {
    (forall b :: b in plan ==> b.target != n) ==>
      ListOf(s.routes, n) == CellsOf(s, n).backing[..CellsOf(s, n).len]
  }

  lemma {:induction false} TakeOutAllList(w: Sweep, slots: seq<Slot>)
    requires Fits(w)
    ensures var w' := TakeOutAll(w, slots); w'.backing[..w'.len] == RemoveAll(w.backing[..w.len], slots)
  {
    if slots != [] {
      var k := |slots| - 1;
      TakeOutAllList(w, slots[..k]);
      TakeOutRemoves(TakeOutAll(w, slots[..k]), slots[k]);
    }
  }

  lemma NextMatches(plan: seq<Block>, s: Exec, e: Step, n: Node)
    requires Bookkept(plan, s) && CellsMatch(plan, s, n)
    ensures CellsMatch(plan, Next(plan, s, e), n)
  {
    if e.Finish? && e.i in s.started && forall b :: b in plan ==> b.target != n {
      var m := s.started[e.i];
      assert plan[e.i] in plan;
      AddSlotsOther(s.routes, m.target, m.slots, n);
      RemoveSlotsList(AddSlots(s.routes, m.target, m.slots), m.src, m.slots, n);
      TakeOutAllList(CellsOf(s, m.src), m.slots);
    }
  }

  /** x has a host if it had one, and the same one if no started task has it. */
  ghost predicate Hosted(r: Routes, s: Exec, x: Slot)
  {
    && (HostOf(r, x).Some? ==> HostOf(s.routes, x).Some?)
    && ((forall i :: i in s.started ==> x !in s.started[i].slots) ==> HostOf(s.routes, x) == HostOf(r, x))
  }

  ghost predicate Apart(plan: seq<Block>)
  {
    forall b :: b in plan ==> b.src != b.target
  }

  lemma NextHosts(plan: seq<Block>, r: Routes, s: Exec, e: Step, x: Slot)
    requires Apart(plan) && Bookkept(plan, s) && Hosted(r, s, x)
    ensures Hosted(r, Next(plan, s, e), x)
  {
    var t := Next(plan, s, e);
    if e.Finish? && e.i in s.started {
      var m := s.started[e.i];
      assert plan[e.i] in plan;
      MigrateHost(s.routes, Task("", m.src, m.target, m.slots), x);
    } else {
      forall i | i in s.started
        ensures i in t.started && t.started[i] == s.started[i]
      {
      }
    }
  }

  ghost predicate Ok(plan: seq<Block>, r: Routes, s: Exec)
  {
    && Bookkept(plan, s)
    && (forall n :: CellsFollow(r, s, n))
    && (forall n :: CellsMatch(plan, s, n))
    && (forall x :: Hosted(r, s, x))
  }

  lemma BeginOk(plan: seq<Block>, r: Routes)
    ensures Ok(plan, r, Begin(r))
  {
    var s := Begin(r);
    forall n
      ensures CellsFollow(r, s, n) && CellsMatch(plan, s, n)
    {
      assert CellsOf(s, n) == Whole(ListOf(r, n));
      assert Gone([], n) == [];
    }
  }

  lemma NextOk(plan: seq<Block>, r: Routes, s: Exec, e: Step)
    requires Apart(plan) && Ok(plan, r, s)
    ensures Ok(plan, r, Next(plan, s, e))
  {
    NextBookkept(plan, s, e);
    forall n
      ensures CellsFollow(r, Next(plan, s, e), n) && CellsMatch(plan, Next(plan, s, e), n)
    {
      NextFollows(plan, r, s, e, n);
      NextMatches(plan, s, e, n);
    }
    forall x
      ensures Hosted(r, Next(plan, s, e), x)
    {
      NextHosts(plan, r, s, e, x);
    }
  }

  lemma {:induction false} AfterOk(plan: seq<Block>, r: Routes, s: Exec, es: seq<Step>)
    requires Apart(plan) && Ok(plan, r, s)
    ensures Ok(plan, r, After(plan, s, es))
    decreases |es|
  {
    if es != [] {
      NextOk(plan, r, s, es[0]);
      AfterOk(plan, r, Next(plan, s, es[0]), es[1..]);
    }
  }

  lemma PlanApart(masters: seq<Node>, lists: map<Node, seq<Slot>>)
    ensures Apart(PlanOf(masters, lists))
  {
    var plan := PlanOf(masters, lists);
    forall b | b in plan
      ensures b.src != b.target
    {
      var i :| 0 <= i < |plan| && plan[i] == b;
      PlanOfIsGood(masters, lists, i);
    }
  }

  /** Whatever finishes when: no slot is left without a host, the cells of a
      source are its list, and a task only ever gets slots its source had when
      the plan was made. */
  lemma EveryRun(masters: seq<Node>, r: Routes, es: seq<Step>)
    requires Inverse(r)
    ensures var plan := PlanOf(masters, r.node2Slot);
            var s := After(plan, Begin(r), es);
            && (forall x :: HostOf(r, x).Some? ==> HostOf(s.routes, x).Some?)
            && (forall n :: CellsMatch(plan, s, n))
            && (forall i, x :: i in s.started && x in s.started[i].slots ==> HostOf(r, x) == Some(s.started[i].src))
  {
    var plan := PlanOf(masters, r.node2Slot);
    PlanApart(masters, r.node2Slot);
    BeginOk(plan, r);
    AfterOk(plan, r, Begin(r), es);
    AfterReads(plan, r, Begin(r), es);
    forall x
      ensures HostOf(r, x).Some? ==> HostOf(After(plan, Begin(r), es).routes, x).Some?
    {
      assert Hosted(r, After(plan, Begin(r), es), x);
    }
  }

  /** Every started task's slots come from its source's first list. */
  ghost predicate FromSource(r: Routes, s: Exec)
  {
    forall i, x :: i in s.started && x in s.started[i].slots ==> HostOf(r, x) == Some(s.started[i].src)
  }

  lemma NextReads(plan: seq<Block>, r: Routes, s: Exec, e: Step)
    requires Inverse(r) && Ok(plan, r, s) && FromSource(r, s)
    ensures FromSource(r, Next(plan, s, e))
  {
    if e.Start? && s.next < |plan| {
      var b := plan[s.next];
      assert Exact(r, b.src) && CellsFollow(r, s, b.src);
      CellsMoveUp(ListOf(r, b.src), Gone(s.log, b.src));
      var w := CellsOf(s, b.src);
      forall x | x in ReadTask(w, b).slots
        ensures HostOf(r, x) == Some(b.src)
      {
        assert x in w.backing;
      }
    }
  }

  lemma {:induction false} AfterReads(plan: seq<Block>, r: Routes, s: Exec, es: seq<Step>)
    requires Apart(plan) && Inverse(r) && Ok(plan, r, s) && FromSource(r, s)
    ensures FromSource(r, After(plan, s, es))
    decreases |es|
  {
    if es != [] {
      NextOk(plan, r, s, es[0]);
      NextReads(plan, r, s, es[0]);
      AfterReads(plan, r, Next(plan, s, es[0]), es[1..]);
    }
  }

  // ----- When the tasks carried out are the planned ones -----

  /** Every started task has the slots its window held when the plan was made. */
  ghost predicate AsPlanned(plan: seq<Block>, r: Routes, s: Exec)
  {
    forall i :: i in s.started ==> i < |plan| && s.started[i] == Concrete(r.node2Slot, plan[i])
  }

  /** No finished task took slots from before the end of the next task's window. */
  ghost predicate Timely(plan: seq<Block>, s: Exec)
  {
    s.next < |plan| ==>
      forall i :: i in s.finished && i < |plan| && plan[i].src == plan[s.next].src ==> plan[s.next].to <= plan[i].from
  }

  /** So it is whenever a task is started. */
  ghost predicate InTime(plan: seq<Block>, s: Exec, es: seq<Step>)
    decreases |es|
  {
    es != [] ==> (es[0] == Start ==> Timely(plan, s)) && InTime(plan, Next(plan, s, es[0]), es[1..])
  }

  ghost predicate WithinSurplus(plan: seq<Block>, r: Routes)
  {
    forall b :: b in plan ==> b.from < b.to < |ListOf(r, b.src)|
  }

  /** While all is as planned, exactly the finished tasks' windows are gone. */
  lemma GoneAsPlanned(plan: seq<Block>, r: Routes, s: Exec, n: Node, x: Slot)
    requires Bookkept(plan, s) && AsPlanned(plan, r, s)
    ensures x in Gone(s.log, n) <==>
            exists i :: i in s.finished && plan[i].src == n && x in Concrete(r.node2Slot, plan[i]).slots
  {
    GoneHas(s.log, n, x);
    if m :| m in s.log && m.src == n && x in m.slots {
      var i :| i in s.finished && s.started[i] == m;
      assert plan[i].src == n && x in Concrete(r.node2Slot, plan[i]).slots;
    }
    if i :| i in s.finished && plan[i].src == n && x in Concrete(r.node2Slot, plan[i]).slots {
      assert s.started[i] in s.log;
    }
  }

  /** A slot at position k of a list is in a window exactly if k is. */
  lemma InWindowIff(l: seq<Slot>, k: nat, from: nat, to: nat)
    requires Ascending(l) && k < |l| && from <= to <= |l|
    ensures l[k] in l[from..to] <==> from <= k < to
  {
    if from <= k < to {
      assert l[from..to][k - from] == l[k];
    }
  }

  lemma LastNotGone(plan: seq<Block>, r: Routes, s: Exec, n: Node)
    requires Bookkept(plan, s) && AsPlanned(plan, r, s) && WithinSurplus(plan, r)
    requires Exact(r, n) && ListOf(r, n) != []
    ensures var l := ListOf(r, n); l[|l| - 1] !in Gone(s.log, n)
  {
    var l := ListOf(r, n);
    GoneAsPlanned(plan, r, s, n, l[|l| - 1]);
    forall i | i in s.finished && plan[i].src == n
      ensures l[|l| - 1] !in Concrete(r.node2Slot, plan[i]).slots
    {
      assert plan[i] in plan;
      InWindowIff(l, |l| - 1, plan[i].from, plan[i].to);
    }
  }

  ghost predicate FrontKept(plan: seq<Block>, r: Routes, s: Exec)
    requires s.next < |plan| && plan[s.next].to <= |ListOf(r, plan[s.next].src)|
  {
    var b := plan[s.next];
    forall x :: x in Gone(s.log, b.src) ==> x !in ListOf(r, b.src)[..b.to]
  }

  lemma TimelyKeepsFront(plan: seq<Block>, r: Routes, s: Exec)
    requires Bookkept(plan, s) && AsPlanned(plan, r, s) && WithinSurplus(plan, r) && s.next < |plan|
    requires Exact(r, plan[s.next].src) && plan[s.next].to <= |ListOf(r, plan[s.next].src)| && Timely(plan, s)
    ensures FrontKept(plan, r, s)
  {
    var b := plan[s.next];
    forall x | x in Gone(s.log, b.src)
      ensures x !in ListOf(r, b.src)[..b.to]
    {
      GoneAsPlanned(plan, r, s, b.src, x);
      var i :| i in s.finished && plan[i].src == b.src && x in Concrete(r.node2Slot, plan[i]).slots;
      assert plan[i] in plan;
      LaterSlots(ListOf(r, b.src), plan[i].from, plan[i].to, b.to, x);
    }
  }

  lemma EarlyFinishCutsFront(plan: seq<Block>, r: Routes, s: Exec, i: nat)
    requires Bookkept(plan, s) && AsPlanned(plan, r, s) && WithinSurplus(plan, r) && s.next < |plan|
    requires Exact(r, plan[s.next].src) && plan[s.next].to <= |ListOf(r, plan[s.next].src)|
    requires i in s.finished && plan[i].src == plan[s.next].src && plan[i].from < plan[s.next].to
    ensures !FrontKept(plan, r, s)
  {
    var b, c := plan[s.next], plan[i];
    var l := ListOf(r, b.src);
    assert c in plan;
    var x := l[c.from];
    InWindowIff(l, c.from, c.from, c.to);
    assert x in Concrete(r.node2Slot, c).slots;
    GoneAsPlanned(plan, r, s, b.src, x);
    assert l[..b.to][c.from] == x;
  }

  lemma LaterSlots(l: seq<Slot>, from: nat, to: nat, end: nat, x: Slot)
    requires Ascending(l) && end <= from <= to <= |l| && x in l[from..to]
    ensures x !in l[..end]
  {
    var k :| 0 <= k < to - from && l[from..to][k] == x;
    assert l[from + k] == x;
  }

  lemma StartAsPlannedIff(plan: seq<Block>, r: Routes, s: Exec)
    requires Bookkept(plan, s) && AsPlanned(plan, r, s) && s.next < |plan|
    ensures AsPlanned(plan, r, Next(plan, s, Start)) <==>
            ReadTask(CellsOf(s, plan[s.next].src), plan[s.next]) == Concrete(r.node2Slot, plan[s.next])
  {
    var t := Next(plan, s, Start);
    assert t.started[s.next] == ReadTask(CellsOf(s, plan[s.next].src), plan[s.next]);
    assert forall i :: i in s.started ==> t.started[i] == s.started[i];
  }

  lemma ReadsPlannedIff(plan: seq<Block>, r: Routes, s: Exec)
    requires Bookkept(plan, s) && AsPlanned(plan, r, s) && WithinSurplus(plan, r) && s.next < |plan|
    requires Exact(r, plan[s.next].src) && CellsFollow(r, s, plan[s.next].src)
    requires plan[s.next].from < plan[s.next].to < |ListOf(r, plan[s.next].src)|
    ensures ReadTask(CellsOf(s, plan[s.next].src), plan[s.next]) == Concrete(r.node2Slot, plan[s.next]) <==> FrontKept(plan, r, s)
  {
    var b := plan[s.next];
    LastNotGone(plan, r, s, b.src);
    WindowReadsIff(ListOf(r, b.src), Gone(s.log, b.src), b.from, b.to);
  }

  /** A task started while all is as planned reads its planned slots exactly if it is in time. */
  lemma StartReadsIff(plan: seq<Block>, r: Routes, s: Exec)
    requires Inverse(r) && Ok(plan, r, s) && AsPlanned(plan, r, s) && WithinSurplus(plan, r) && s.next < |plan|
    ensures AsPlanned(plan, r, Next(plan, s, Start)) <==> Timely(plan, s)
  {
    var b := plan[s.next];
    assert b in plan && Exact(r, b.src) && CellsFollow(r, s, b.src);
    StartAsPlannedIff(plan, r, s);
    ReadsPlannedIff(plan, r, s);
    if Timely(plan, s) {
      TimelyKeepsFront(plan, r, s);
    } else {
      var i :| i in s.finished && i < |plan| && plan[i].src == b.src && b.to > plan[i].from;
      EarlyFinishCutsFront(plan, r, s, i);
    }
  }

  /** A task once started stays as it is. */
  lemma {:induction false} StartedStays(plan: seq<Block>, s: Exec, es: seq<Step>, i: nat)
    requires Bookkept(plan, s) && i in s.started
    ensures var t := After(plan, s, es); i in t.started && t.started[i] == s.started[i]
    decreases |es|
  {
    if es != [] {
      NextBookkept(plan, s, es[0]);
      StartedStays(plan, Next(plan, s, es[0]), es[1..], i);
    }
  }

  lemma NextAsPlannedIff(plan: seq<Block>, r: Routes, s: Exec, e: Step)
    requires Inverse(r) && Ok(plan, r, s) && AsPlanned(plan, r, s) && WithinSurplus(plan, r)
    ensures AsPlanned(plan, r, Next(plan, s, e)) <==> (e == Start ==> Timely(plan, s))
  {
    if e == Start && s.next < |plan| {
      StartReadsIff(plan, r, s);
    }
  }

  lemma MisreadStays(plan: seq<Block>, r: Routes, s: Exec, es: seq<Step>)
    requires Bookkept(plan, s) && !AsPlanned(plan, r, s)
    ensures !AsPlanned(plan, r, After(plan, s, es))
  {
    var i :| i in s.started && !(i < |plan| && s.started[i] == Concrete(r.node2Slot, plan[i]));
    StartedStays(plan, s, es, i);
  }

  lemma {:induction false} AsPlannedIff(plan: seq<Block>, r: Routes, s: Exec, es: seq<Step>)
    requires Apart(plan) && Inverse(r) && Ok(plan, r, s) && AsPlanned(plan, r, s) && WithinSurplus(plan, r)
    ensures AsPlanned(plan, r, After(plan, s, es)) <==> InTime(plan, s, es)
    decreases |es|
  {
    if es != [] {
      var t := Next(plan, s, es[0]);
      NextOk(plan, r, s, es[0]);
      NextAsPlannedIff(plan, r, s, es[0]);
      if AsPlanned(plan, r, t) {
        AsPlannedIff(plan, r, t, es[1..]);
      } else {
        MisreadStays(plan, r, t, es[1..]);
      }
    }
  }

  lemma PlanWithinSurplus(masters: seq<Node>, r: Routes)
    ensures WithinSurplus(PlanOf(masters, r.node2Slot), r)
  {
    var plan := PlanOf(masters, r.node2Slot);
    forall b | b in plan
      ensures b.from < b.to < |ListOf(r, b.src)|
    {
      var i :| 0 <= i < |plan| && plan[i] == b;
      PlanOfIsGood(masters, r.node2Slot, i);
      AverageIsPositive(|masters|);
    }
  }

  lemma AverageIsPositive(masters: nat)
    requires masters > 0
    ensures Average(masters) >= 1
  {
  }

  /** The tasks carried out are the planned ones exactly if no task is started
      after one of the same source has finished whose window begins before the
      end of its own. */
  lemma CarriedOutAsPlannedIff(masters: seq<Node>, r: Routes, es: seq<Step>)
    requires Inverse(r)
    ensures var plan := PlanOf(masters, r.node2Slot);
            AsPlanned(plan, r, After(plan, Begin(r), es)) <==> InTime(plan, Begin(r), es)
  {
    var plan := PlanOf(masters, r.node2Slot);
    PlanApart(masters, r.node2Slot);
    PlanWithinSurplus(masters, r);
    BeginOk(plan, r);
    AsPlannedIff(plan, r, Begin(r), es);
  }

  // ----- Plans that start no exporter over -----

  /** Every task is started before any task of its source has finished. */
  ghost predicate StartedFirst(plan: seq<Block>, s: Exec, es: seq<Step>)
    decreases |es|
  {
    es != [] ==>
      && (es[0] == Start && s.next < |plan| ==> forall i :: i in s.finished && i < |plan| ==> plan[i].src != plan[s.next].src)
      && StartedFirst(plan, Next(plan, s, es[0]), es[1..])
  }

  lemma {:induction false} InTimeIffStartedFirst(plan: seq<Block>, r: Routes, s: Exec, es: seq<Step>)
    requires InOrder(plan) && WithinSurplus(plan, r) && Bookkept(plan, s)
    ensures InTime(plan, s, es) <==> StartedFirst(plan, s, es)
    decreases |es|
  {
    if es != [] {
      NextBookkept(plan, s, es[0]);
      InTimeIffStartedFirst(plan, r, Next(plan, s, es[0]), es[1..]);
      if s.next < |plan| {
        forall i | i in s.finished && plan[i].src == plan[s.next].src
          ensures plan[i].from < plan[s.next].to
        {
          assert plan[i] in plan && plan[s.next] in plan;
        }
      }
    }
  }

  /** Where no exporter is started over, the tasks carried out are the planned
      ones exactly if each is started before any task of its source finishes. */
  lemma SteadyCarriedOutIff(masters: seq<Node>, r: Routes, es: seq<Step>)
    requires Inverse(r) && NoDup(masters) && masters != []
    requires var avg := Average(|masters|);
             !Refills(Exporters(masters, r.node2Slot, avg), Importers(masters, r.node2Slot, avg), 0)
    ensures var plan := PlanOf(masters, r.node2Slot);
            AsPlanned(plan, r, After(plan, Begin(r), es)) <==> StartedFirst(plan, Begin(r), es)
  {
    var lists, avg := r.node2Slot, Average(|masters|);
    var plan := PlanOf(masters, lists);
    CarriedOutAsPlannedIff(masters, r, es);
    ClassesAreUsable(masters, lists, avg);
    SteadyPlan(Exporters(masters, lists, avg), Importers(masters, lists, avg), 0);
    PlanWithinSurplus(masters, r);
    BeginOk(plan, r);
    InTimeIffStartedFirst(plan, r, Begin(r), es);
  }

  // ----- What a run in time guarantees -----

  /** In a run in time a master gives away only its first size - average slots. */
  lemma PlanLeavesAverage(masters: seq<Node>, r: Routes, es: seq<Step>, n: Node, i: nat)
    requires Inverse(r) && masters != [] && InTime(PlanOf(masters, r.node2Slot), Begin(r), es)
    requires |ListOf(r, n)| - Average(|masters|) <= i < |ListOf(r, n)|
    ensures HostOf(After(PlanOf(masters, r.node2Slot), Begin(r), es).routes, ListOf(r, n)[i]) == Some(n)
  {
    var plan := PlanOf(masters, r.node2Slot);
    var s, x := After(plan, Begin(r), es), ListOf(r, n)[i];
    CarriedOutAsPlannedIff(masters, r, es);
    PlanApart(masters, r.node2Slot);
    BeginOk(plan, r);
    AfterOk(plan, r, Begin(r), es);
    assert Exact(r, n) && x in ListOf(r, n) && Hosted(r, s, x);
    forall j | j in s.started
      ensures x !in s.started[j].slots
    {
      PlanOfIsGood(masters, r.node2Slot, j);
      assert Exact(r, plan[j].src);
      KeptFromBlock(r, masters, Average(|masters|), plan[j], n, i);
    }
  }

  /** In a run in time every task started moves at least one slot, none twice,
      all of them hosted by its source when the plan was made. */
  lemma StartedTaskIsSound(masters: seq<Node>, r: Routes, es: seq<Step>, i: nat)
    requires Inverse(r) && InTime(PlanOf(masters, r.node2Slot), Begin(r), es)
    requires i in After(PlanOf(masters, r.node2Slot), Begin(r), es).started
    ensures var m := After(PlanOf(masters, r.node2Slot), Begin(r), es).started[i];
            && m.src in masters && m.target in masters && m.src != m.target
            && m.slots != [] && Ascending(m.slots)
            && forall x :: x in m.slots ==> HostOf(r, x) == Some(m.src)
  {
    var plan := PlanOf(masters, r.node2Slot);
    CarriedOutAsPlannedIff(masters, r, es);
    TaskIsSound(masters, r, i);
    MoveAt(r.node2Slot, plan, i);
  }

  // ----- Tasks that finish too early -----

  /** A fresh cluster: A hosts every slot, the other masters none. */
  ghost function FreshCluster(): Routes
  {
    Seed(Fresh().routes, "A", CORE_SLOT_COUNT)
  }

  lemma FreshLists(n: Node)
    ensures ListOf(FreshCluster(), n) == if n == "A" then seq(CORE_SLOT_COUNT, i => i) else []
    ensures Inverse(FreshCluster()) && FreshCluster().node2Slot.Keys == {"A"}
  {
    SeedInverse("A", CORE_SLOT_COUNT);
  }

  /** A cluster of A and other masters: A exports, the others import. */
  lemma {:induction false} FreshClasses(others: seq<Node>, avg: nat)
    requires "A" !in others && 1 < avg < 1023
    ensures Exporters(["A"] + others, FreshCluster().node2Slot, avg) == [Export("A", 1024 - avg)]
    ensures Importers(["A"] + others, FreshCluster().node2Slot, avg) == seq(|others|, i requires 0 <= i < |others| => Import(others[i], avg))
  {
    var all := ["A"] + others;
    FreshLists(all[|all| - 1]);
    if others == [] {
      assert all[..0] == [];
    } else {
      var k := |others| - 1;
      FreshClasses(others[..k], avg);
      assert all[..|all| - 1] == ["A"] + others[..k];
    }
  }

  /** One block of a plan, taken from its front. */
  lemma PlanStep(ex: seq<Export>, im: seq<Import>, left: nat)
    requires |ex| == 1 && im != [] && left <= ex[0].count && ex[0].count > 0
    ensures var count, need := ex[0].count, im[0].need;
            var l := if left == 0 then count else left;
            Plan(ex, im, left) ==
            if need <= l then [Block(ex[0].node, im[0].node, count - l, count - l + need)] + Plan(ex, im[1..], l - need)
            else [Block(ex[0].node, im[0].node, count - l, count)]
  {
    assert ex[1..] == [];
  }

  lemma PlanForThree(b: Node, c: Node)
    requires "A" !in [b, c]
    ensures PlanOf(["A"] + [b, c], FreshCluster().node2Slot) == [Block("A", b, 0, 342), Block("A", c, 342, 682)]
  {
    FreshClasses([b, c], 342);
    TwoBlocks("A", b, c);
  }

  lemma TwoBlocks(a: Node, b: Node, c: Node)
    ensures Plan([Export(a, 682)], [Import(b, 342), Import(c, 342)], 0) == [Block(a, b, 0, 342), Block(a, c, 342, 682)]
  {
    PlanStep([Export(a, 682)], [Import(b, 342), Import(c, 342)], 0);
    assert [Import(b, 342), Import(c, 342)][1..] == [Import(c, 342)];
    PlanStep([Export(a, 682)], [Import(c, 342)], 340);
  }

  lemma {:induction false} AfterMore(plan: seq<Block>, s: Exec, es: seq<Step>, e: Step)
    ensures After(plan, s, es + [e]) == Next(plan, After(plan, s, es), e)
    decreases |es|
  {
    if es == [] {
      assert [e][1..] == [];
    } else {
      assert (es + [e])[1..] == es[1..] + [e];
      AfterMore(plan, Next(plan, s, es[0]), es[1..], e);
    }
  }

  ghost function Starts(k: nat): seq<Step>
  {
    if k == 0 then [] else Starts(k - 1) + [Start]
  }

  /** With only starts so far, every task has its planned slots. */
  lemma {:induction false} AfterStarts(plan: seq<Block>, r: Routes, k: nat)
    requires k <= |plan|
    ensures var s := After(plan, Begin(r), Starts(k));
            && s.next == k && s.cells == Begin(r).cells
            && forall i :: 0 <= i < k ==> i in s.started && s.started[i] == ReadTask(CellsOf(Begin(r), plan[i].src), plan[i])
  {
    if k > 0 {
      AfterStarts(plan, r, k - 1);
      AfterMore(plan, Begin(r), Starts(k - 1), Start);
    }
  }

  ghost function Finishes(k: nat): seq<Step>
  {
    if k == 0 then [] else Finishes(k - 1) + [Finish(k - 1)]
  }

  /** The first k blocks cut the first slots off n's list, one after the other. */
  ghost predicate CutFront(plan: seq<Block>, r: Routes, n: Node, k: nat)
  {
    && 0 < k <= |plan| && n in r.node2Slot && plan[0].from == 0
    && (forall i :: 0 <= i < k ==> plan[i].src == n && plan[i].from <= plan[i].to <= |ListOf(r, n)|)
    && (forall i :: 0 < i < k ==> plan[i].from == plan[i - 1].to)
  }

  /** m tasks started, then the first k of them finished: the cells are those
      without the first slots. */
  lemma {:induction false} AfterFinishes(plan: seq<Block>, r: Routes, n: Node, m: nat, k: nat)
    requires k <= m <= |plan| && CutFront(plan, r, n, m)
    ensures var s := After(plan, Begin(r), Starts(m) + Finishes(k));
            && s.next == m && s.started == After(plan, Begin(r), Starts(m)).started
            && CellsOf(s, n) == TakeOutAll(Whole(ListOf(r, n)), ListOf(r, n)[..if k == 0 then 0 else plan[k - 1].to])
  {
    AfterStarts(plan, r, m);
    if k == 0 {
      assert Starts(m) + [] == Starts(m);
    } else {
      AfterFinishes(plan, r, n, m, k - 1);
      var es := Starts(m) + Finishes(k - 1);
      AfterMore(plan, Begin(r), es, Finish(k - 1));
      assert es + [Finish(k - 1)] == Starts(m) + Finishes(k);
      OneMoreFinishes(plan, r, After(plan, Begin(r), es), n, k - 1, if k == 1 then 0 else plan[k - 2].to);
    }
  }

  lemma OneMoreFinishes(plan: seq<Block>, r: Routes, s: Exec, n: Node, i: nat, from: nat)
    requires n in r.node2Slot && i < |plan| && plan[i].src == n && plan[i].from == from <= plan[i].to <= |ListOf(r, n)|
    requires i in s.started && s.started[i] == ReadTask(Whole(ListOf(r, n)), plan[i])
    requires CellsOf(s, n) == TakeOutAll(Whole(ListOf(r, n)), ListOf(r, n)[..from])
    ensures CellsOf(Next(plan, s, Finish(i)), n) == TakeOutAll(Whole(ListOf(r, n)), ListOf(r, n)[..plan[i].to])
  {
    var l, to := ListOf(r, n), plan[i].to;
    assert s.started[i].slots == l[from..to];
    assert CellsOf(Next(plan, s, Finish(i)), n) == TakeOutAll(CellsOf(s, n), l[from..to]);
    TakeOutMore(Whole(l), l[..from], l[from..to]);
    assert l[..from] + l[from..to] == l[..to];
  }

  /** A task started once the first k tasks have finished reads as many slots
      too far as these took, and the last slot wherever that is past the end. */
  lemma StartBehind(plan: seq<Block>, r: Routes, n: Node, m: nat, k: nat)
    requires 0 < k <= m < |plan| && CutFront(plan, r, n, m) && plan[m].src == n && Ascending(ListOf(r, n))
    requires plan[k - 1].to < |ListOf(r, n)| && plan[m].from <= plan[m].to <= |ListOf(r, n)|
    ensures var s := After(plan, Begin(r), Starts(m) + Finishes(k) + [Start]);
            var l, gone := ListOf(r, n), plan[k - 1].to;
            m in s.started && s.started[m] == Move(n, plan[m].target, Ahead(l, gone, plan[m].from, plan[m].to))
  {
    var l := ListOf(r, n);
    AfterFinishes(plan, r, n, m, k);
    AfterMore(plan, Begin(r), Starts(m) + Finishes(k), Start);
    FrontGone(l, plan[k - 1].to);
    AdvancedWindow(l, TakeOutAll(Whole(l), l[..plan[k - 1].to]), plan[k - 1].to, plan[m].from, plan[m].to);
  }

  /** The window from..to of l moved k slots on, as far as there are slots. */
  ghost function Ahead(l: seq<Slot>, k: nat, from: nat, to: nat): seq<Slot>
    requires from <= to && l != []
  {
    seq(to - from, i requires 0 <= i => l[if from + i + k < |l| then from + i + k else |l| - 1])
  }

  lemma AdvancedWindow(l: seq<Slot>, w: Sweep, k: nat, from: nat, to: nat)
    requires Advanced(l, w, k) && from <= to <= |l|
    ensures w.backing[from..to] == Ahead(l, k, from, to)
  {
  }

  /** Three masters: the first task finishes before the second is started. The
      second then takes slots 684 to 1023, and A loses even its last slot. */
  lemma EarlyFinishTakesLast(b: Node, c: Node)
    requires "A" !in [b, c]
    ensures var plan := PlanOf(["A"] + [b, c], FreshCluster().node2Slot);
            var s := After(plan, Begin(FreshCluster()), Starts(1) + Finishes(1) + [Start]);
            && 1 in s.started && s.started[1] == Move("A", c, seq(340, i => 684 + i))
            && HostOf(Next(plan, s, Finish(1)).routes, 1023) == Some(c)
  {
    PlanForThree(b, c);
    FreshLists("A");
    StartBehind([Block("A", b, 0, 342), Block("A", c, 342, 682)], FreshCluster(), "A", 1, 1);
    var slots := seq(340, i => 684 + i);
    assert Ahead(ListOf(FreshCluster(), "A"), 342, 342, 682) == slots && slots[339] == 1023;
    var s := After([Block("A", b, 0, 342), Block("A", c, 342, 682)], Begin(FreshCluster()), Starts(1) + Finishes(1) + [Start]);
    MigrateHost(s.routes, Task("", "A", c, slots), 1023);
  }

  lemma PlanForFive(b: Node, c: Node, d: Node, e: Node)
    requires "A" !in [b, c, d, e]
    ensures PlanOf(["A"] + [b, c, d, e], FreshCluster().node2Slot) ==
            [Block("A", b, 0, 205), Block("A", c, 205, 410), Block("A", d, 410, 615), Block("A", e, 615, 819)]
  {
    FreshClasses([b, c, d, e], 205);
    assert seq(4, i requires 0 <= i < 4 => Import([b, c, d, e][i], 205)) == [Import(b, 205), Import(c, 205), Import(d, 205), Import(e, 205)];
    assert Average(5) == 205;
    FourBlocks("A", Import(b, 205), Import(c, 205), Import(d, 205), Import(e, 205));
  }

  lemma FourBlocks(a: Node, b: Import, c: Import, d: Import, e: Import)
    requires b.need == c.need == d.need == e.need == 205
    ensures Plan([Export(a, 819)], [b, c, d, e], 0) ==
            [Block(a, b.node, 0, 205), Block(a, c.node, 205, 410), Block(a, d.node, 410, 615), Block(a, e.node, 615, 819)]
  {
    var ex := [Export(a, 819)];
    PlanStep(ex, [b, c, d, e], 0);
    PlanStep(ex, [c, d, e], 614);
    PlanStep(ex, [d, e], 409);
    PlanStep(ex, [e], 204);
    assert [b, c, d, e][1..] == [c, d, e] && [c, d, e][1..] == [d, e] && [d, e][1..] == [e];
  }

  /** Five masters: the first two tasks finish before the fourth is started.
      The fourth then gets slot 1023, 204 times over. */
  lemma EarlyFinishRepeats(b: Node, c: Node, d: Node, e: Node)
    requires "A" !in [b, c, d, e]
    ensures var s := After(PlanOf(["A"] + [b, c, d, e], FreshCluster().node2Slot), Begin(FreshCluster()), Starts(3) + Finishes(2) + [Start]);
            3 in s.started && s.started[3].slots == seq(204, i => 1023)
  {
    PlanForFive(b, c, d, e);
    FreshLists("A");
    StartBehind([Block("A", b, 0, 205), Block("A", c, 205, 410), Block("A", d, 410, 615), Block("A", e, 615, 819)], FreshCluster(), "A", 3, 2);
    assert Ahead(ListOf(FreshCluster(), "A"), 410, 615, 819) == seq(204, i => 1023);
  }
}
