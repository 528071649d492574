/** The routing state machine replicated through raft: which node hosts which
    slot, and which node is whose slave, under the five log events. */
module Routing {
  import opened Wrappers
  import opened SortedList
  import opened SlotList
  import opened Seqs

  type Node = string

  datatype Routes = Routes(node2Slot: map<Node, seq<Slot>>, slot2Node: map<Slot, Node>)

  datatype Roles = Roles(masterSlaves: map<Node, seq<Node>>, slaveMasters: map<Node, Node>)

  datatype Task = Task(id: string, src: Node, target: Node, slots: seq<Slot>)

  datatype State = State(routes: Routes, migratings: map<string, Task>, roles: Roles)

  datatype Event =
    | SeedStart(leader: Node, count: nat)
    | Join(id: Node, master: Option<Node>)
    | StartMigrate(task: Task)
    | FinishMigrate(task: Task)
    | FinishFailover(oldMaster: Node, newMaster: Node)

  function Fresh(): State
  {
    State(Routes(map[], map[]), map[], Roles(map[], map[]))
  }

  // ----- Routes -----

  function ListOf(r: Routes, n: Node): seq<Slot>
  {
    if n in r.node2Slot then r.node2Slot[n] else []
  }

  function HostOf(r: Routes, x: Slot): Option<Node>
  {
    if x in r.slot2Node then Some(r.slot2Node[x]) else None
  }

  function SetList(r: Routes, n: Node, l: seq<Slot>): Routes
  {
    if l == ListOf(r, n) then r else r.(node2Slot := r.node2Slot[n := l])
  }

  function AddOne(r: Routes, n: Node, x: Slot): Routes
  {
    var r1 := SetList(r, n, Insert(ListOf(r, n), x));
    r1.(slot2Node := r1.slot2Node[x := n])
  }

  function AddSlots(r: Routes, n: Node, slots: seq<Slot>): Routes
  {
    if slots == [] then r else AddOne(AddSlots(r, n, slots[..|slots| - 1]), n, slots[|slots| - 1])
  }

  function RemoveOne(r: Routes, n: Node, x: Slot): Routes
  {
    var r1 := SetList(r, n, Remove(ListOf(r, n), x));
    if HostOf(r1, x) == Some(n) then r1.(slot2Node := r1.slot2Node - {x}) else r1
  }

  function RemoveSlots(r: Routes, n: Node, slots: seq<Slot>): Routes
  {
    if slots == [] then r else RemoveOne(RemoveSlots(r, n, slots[..|slots| - 1]), n, slots[|slots| - 1])
  }

  function Seed(r: Routes, leader: Node, count: nat): Routes
  {
    var all := seq(count, i => i);
    Routes(r.node2Slot[leader := all], r.slot2Node + map x | x in all :: leader)
  }

  function Migrate(r: Routes, t: Task): Routes
  {
    RemoveSlots(AddSlots(r, t.target, t.slots), t.src, t.slots)
  }

  /** The removal ranges over the very list it removes from. */
  function Reroute(r: Routes, oldMaster: Node, newMaster: Node): Routes
  {
    var l := ListOf(r, oldMaster);
    RemoveSlots(AddSlots(r, newMaster, l), oldMaster, Reads(l, |l|))
  }

  // ----- Roles -----

  function AddNode(r: Roles, id: Node, master: Option<Node>): Roles
  {
    match master
    case None => r.(masterSlaves := r.masterSlaves[id := []])
    case Some(m) =>
      if m !in r.masterSlaves then r
      else
        var slaves := r.masterSlaves[m];
        Roles(r.masterSlaves[m := if id in slaves then slaves else slaves + [id]], r.slaveMasters[id := m])
  }

  function Without(slaves: seq<Node>, n: Node): seq<Node>
  {
    if slaves == [] then []
    else
      var rest := Without(slaves[..|slaves| - 1], n);
      if slaves[|slaves| - 1] == n then rest else rest + [slaves[|slaves| - 1]]
  }

  function Failover(r: Roles, oldMaster: Node, newMaster: Node): Roles
    requires oldMaster in r.masterSlaves
  {
    var others := Without(r.masterSlaves[oldMaster], newMaster);
    Roles((r.masterSlaves - {oldMaster})[newMaster := others + [oldMaster]],
          (r.slaveMasters + (map x | x in others :: newMaster))[oldMaster := newMaster] - {newMaster})
  }

  // ----- Events -----

  /** None: the handler dereferences a master that is not there. */
  function Apply(s: State, e: Event): Option<State>
  {
    match e
    case SeedStart(leader, count) =>
      Some(s.(routes := Seed(s.routes, leader, count), roles := AddNode(s.roles, leader, None)))
    case Join(id, master) => Some(s.(roles := AddNode(s.roles, id, master)))
    case StartMigrate(t) => Some(s.(migratings := s.migratings[t.id := t]))
    case FinishMigrate(t) => Some(s.(migratings := s.migratings - {t.id}, routes := Migrate(s.routes, t)))
    case FinishFailover(o, n) =>
      if o !in s.roles.masterSlaves then None
      else Some(s.(roles := Failover(s.roles, o, n), routes := Reroute(s.routes, o, n)))
  }

  ghost predicate Run(s: State, es: seq<Event>, s': State)
    decreases |es|
  {
    if es == [] then s == s' else Apply(s, es[0]).Some? && Run(Apply(s, es[0]).value, es[1..], s')
  }

  // ----- What adding and removing slots mean -----

  lemma {:induction false} AddSlotsHost(r: Routes, n: Node, slots: seq<Slot>, x: Slot)
    ensures HostOf(AddSlots(r, n, slots), x) == if x in slots then Some(n) else HostOf(r, x)
  {
    if slots != [] {
      AddSlotsHost(r, n, slots[..|slots| - 1], x);
    }
  }

  lemma {:induction false} AddSlotsOther(r: Routes, n: Node, slots: seq<Slot>, m: Node)
    requires m != n
    ensures ListOf(AddSlots(r, n, slots), m) == ListOf(r, m)
  {
    if slots != [] {
      AddSlotsOther(r, n, slots[..|slots| - 1], m);
    }
  }

  lemma AddOneList(r: Routes, n: Node, x: Slot)
    requires Ascending(ListOf(r, n))
    ensures Ascending(ListOf(AddOne(r, n, x), n))
    ensures forall y :: y in ListOf(AddOne(r, n, x), n) <==> y in ListOf(r, n) || y == x
  {
    InsertMeaning(ListOf(r, n), x);
  }

  lemma {:induction false} AddSlotsList(r: Routes, n: Node, slots: seq<Slot>)
    requires Ascending(ListOf(r, n))
    ensures Ascending(ListOf(AddSlots(r, n, slots), n))
    ensures forall x :: x in ListOf(AddSlots(r, n, slots), n) <==> x in ListOf(r, n) || x in slots
  {
    if slots != [] {
      var k := |slots| - 1;
      AddSlotsList(r, n, slots[..k]);
      AddOneList(AddSlots(r, n, slots[..k]), n, slots[k]);
      assert slots == slots[..k] + [slots[k]];
    }
  }

  lemma {:induction false} RemoveSlotsHost(r: Routes, n: Node, slots: seq<Slot>, x: Slot)
    ensures HostOf(RemoveSlots(r, n, slots), x) == if x in slots && HostOf(r, x) == Some(n) then None else HostOf(r, x)
  {
    if slots != [] {
      RemoveSlotsHost(r, n, slots[..|slots| - 1], x);
    }
  }

  lemma {:induction false} RemoveSlotsList(r: Routes, n: Node, slots: seq<Slot>, m: Node)
    ensures ListOf(RemoveSlots(r, n, slots), m) == if m == n then RemoveAll(ListOf(r, n), slots) else ListOf(r, m)
  {
    if slots != [] {
      RemoveSlotsList(r, n, slots[..|slots| - 1], m);
    }
  }

  // ----- Every slot keeps a host -----

  ghost predicate Total(r: Routes, slots: set<Slot>)
  {
    forall x :: x in slots ==> HostOf(r, x).Some?
  }

  lemma MigrateHost(r: Routes, t: Task, x: Slot)
    ensures HostOf(Migrate(r, t), x) ==
            if x !in t.slots then HostOf(r, x) else if t.src == t.target then None else Some(t.target)
  {
    AddSlotsHost(r, t.target, t.slots, x);
    RemoveSlotsHost(AddSlots(r, t.target, t.slots), t.src, t.slots, x);
  }

  /** A finished migration leaves every slot hosted exactly if it is not from a
      node to itself, or moves none of the slots. */
  lemma MigrateKeepsTotalIff(r: Routes, t: Task, slots: set<Slot>)
    requires Total(r, slots)
    ensures Total(Migrate(r, t), slots) <==> t.src != t.target || forall x :: x in t.slots ==> x !in slots
  {
    forall x | x in slots
      ensures HostOf(Migrate(r, t), x).Some? <==> t.src != t.target || x !in t.slots
    {
      MigrateHost(r, t, x);
    }
  }

  lemma RerouteHost(r: Routes, o: Node, n: Node, x: Slot)
    ensures var l := ListOf(r, o);
            HostOf(Reroute(r, o, n), x) ==
            if x !in l then HostOf(r, x) else if o == n && x in Reads(l, |l|) then None else Some(n)
  {
    var l := ListOf(r, o);
    AddSlotsHost(r, n, l, x);
    RemoveSlotsHost(AddSlots(r, n, l), o, Reads(l, |l|), x);
    if x in Reads(l, |l|) {
      ReadsKeepSlots(l, |l|, x);
    }
  }

  /** Likewise for a failover: it unhosts slots only when a master fails over
      to itself, and then exactly the even positions of its list and the last. */
  lemma RerouteKeepsTotalIff(r: Routes, o: Node, n: Node, slots: set<Slot>)
    requires Total(r, slots) && (o == n ==> Ascending(ListOf(r, o)))
    ensures Total(Reroute(r, o, n), slots) <==> o != n || KeepsEven(ListOf(r, o), slots)
  {
    var l := ListOf(r, o);
    forall x | x in slots
      ensures HostOf(Reroute(r, o, n), x).Some? <==> o != n || x !in l || x !in Reads(l, |l|)
    {
      RerouteHost(r, o, n, x);
    }
    if o == n {
      ReadsOfList(l, slots);
    }
  }

  /** None of the slots is at an even position of the list or at its end. */
  ghost predicate KeepsEven(l: seq<Slot>, slots: set<Slot>)
  {
    forall i :: 0 <= i < |l| && (i % 2 == 0 || i == |l| - 1) ==> l[i] !in slots
  }

  lemma ReadsOfList(l: seq<Slot>, slots: set<Slot>)
    requires Ascending(l)
    ensures KeepsEven(l, slots) <==> forall x :: x in slots ==> x !in l || x !in Reads(l, |l|)
  {
    forall i | 0 <= i < |l|
      ensures l[i] in Reads(l, |l|) <==> i % 2 == 0 || i == |l| - 1
    {
      ReadsMeaning(l, i);
    }
    if KeepsEven(l, slots) {
      forall x | x in slots && x in l
        ensures x !in Reads(l, |l|)
      {
        var i :| 0 <= i < |l| && l[i] == x;
      }
    } else {
      var i :| 0 <= i < |l| && (i % 2 == 0 || i == |l| - 1) && l[i] in slots;
      assert l[i] in l && l[i] in Reads(l, |l|);
    }
  }

  /** No migration and no failover from a node to itself. */
  predicate Distinct(e: Event)
  {
    match e
    case FinishMigrate(t) => t.src != t.target
    case FinishFailover(o, n) => o != n
    case _ => true
  }

  lemma EventKeepsTotal(s: State, e: Event, slots: set<Slot>)
    requires Total(s.routes, slots) && Distinct(e) && Apply(s, e).Some?
    ensures Total(Apply(s, e).value.routes, slots)
  {
    match e
    case FinishMigrate(t) => MigrateKeepsTotalIff(s.routes, t, slots);
    case FinishFailover(o, n) => RerouteKeepsTotalIff(s.routes, o, n, slots);
    case _ =>
  }

  lemma {:induction false} RunKeepsTotal(s: State, es: seq<Event>, s': State, slots: set<Slot>)
    requires Total(s.routes, slots) && Run(s, es, s') && forall e :: e in es ==> Distinct(e)
    ensures Total(s'.routes, slots)
    decreases |es|
  {
    if es != [] {
      EventKeepsTotal(s, es[0], slots);
      RunKeepsTotal(Apply(s, es[0]).value, es[1..], s', slots);
    }
  }

  /** From the seed event on, every slot of the cluster always has a host. */
  lemma EverySlotHosted(s: State, leader: Node, count: nat, es: seq<Event>, s': State, x: Slot)
    requires Run(Apply(s, SeedStart(leader, count)).value, es, s')
    requires forall e :: e in es ==> Distinct(e)
    requires 0 <= x < count
    ensures HostOf(s'.routes, x).Some?
  {
    var all := seq(count, i => i);
    RunKeepsTotal(Apply(s, SeedStart(leader, count)).value, es, s', set y | y in all);
    assert all[x] == x;
  }

  // ----- The two slot indexes are inverse -----

  ghost predicate Exact(r: Routes, n: Node)
  {
    Ascending(ListOf(r, n)) && forall x :: x in ListOf(r, n) <==> HostOf(r, x) == Some(n)
  }

  ghost predicate Inverse(r: Routes)
  {
    forall n :: Exact(r, n)
  }

  /** A slot the migration may take: nobody's, the source's or the target's. */
  predicate Movable(r: Routes, t: Task, x: Slot)
  {
    HostOf(r, x) in {None, Some(t.src), Some(t.target)}
  }

  lemma MigrateList(r: Routes, t: Task, n: Node)
    requires Exact(r, n)
    ensures Ascending(ListOf(Migrate(r, t), n))
    ensures forall x :: x in ListOf(Migrate(r, t), n) <==>
              if x in t.slots then (if n == t.target then n != t.src else n != t.src && x in ListOf(r, n)) else x in ListOf(r, n)
  {
    var r1 := AddSlots(r, t.target, t.slots);
    if n == t.target {
      AddSlotsList(r, n, t.slots);
    } else {
      AddSlotsOther(r, t.target, t.slots, n);
    }
    RemoveSlotsList(r1, t.src, t.slots, n);
    RemoveAllMeaning(ListOf(r1, n), t.slots);
  }

  /** The indexes stay inverse exactly if every migrated slot was nobody's, the
      source's or the target's. */
  lemma MigrateKeepsInverseIff(r: Routes, t: Task)
    requires Inverse(r)
    ensures Inverse(Migrate(r, t)) <==> forall x :: x in t.slots ==> Movable(r, t, x)
  {
    var r' := Migrate(r, t);
    if x :| x in t.slots && !Movable(r, t, x) {
      var n := HostOf(r, x).value;
      assert Exact(r, n);
      MigrateList(r, t, n);
      MigrateHost(r, t, x);
      assert !Exact(r', n);
    } else {
      forall n
        ensures Exact(r', n)
      {
        assert Exact(r, n);
        MigrateList(r, t, n);
        forall x
          ensures x in ListOf(r', n) <==> HostOf(r', x) == Some(n)
        {
          MigrateHost(r, t, x);
          assert x in t.slots ==> Movable(r, t, x);
        }
      }
    }
  }

  lemma RerouteList(r: Routes, o: Node, n: Node, m: Node)
    requires Exact(r, o) && Exact(r, n) && Exact(r, m)
    ensures m != o && m != n ==> ListOf(Reroute(r, o, n), m) == ListOf(r, m)
    ensures m == o ==> ListOf(Reroute(r, o, n), m) == Swept(ListOf(r, o))
    ensures m == n != o ==> Ascending(ListOf(Reroute(r, o, n), m))
    ensures m == n != o ==> forall x :: x in ListOf(Reroute(r, o, n), m) <==> x in ListOf(r, n) || x in ListOf(r, o)
  {
    var l := ListOf(r, o);
    var r1 := AddSlots(r, n, l);
    RemoveSlotsList(r1, o, Reads(l, |l|), m);
    if m == n {
      AddSlotsList(r, n, l);
    } else {
      AddSlotsOther(r, n, l, m);
    }
    if m == o {
      if o == n {
        SameAscending(ListOf(r1, o), l);
      }
      SweepRemovesReads(l, |l|);
    }
  }

  /** After a failover the old master's list still holds its odd positions
      before the last; the indexes agree exactly if there are none, or the
      master failed over to itself. */
  lemma RerouteKeepsInverseIff(r: Routes, o: Node, n: Node)
    requires Inverse(r)
    ensures ListOf(Reroute(r, o, n), o) == Swept(ListOf(r, o))
    ensures Inverse(Reroute(r, o, n)) <==> o == n || |ListOf(r, o)| <= 2
  {
    var l, r' := ListOf(r, o), Reroute(r, o, n);
    assert Exact(r, o) && Exact(r, n);
    RerouteList(r, o, n, o);
    SweptMeaning(l);
    if o != n && |l| > 2 {
      RerouteHost(r, o, n, l[1]);
      assert Swept(l)[0] == l[1];
      assert !Exact(r', o);
    } else {
      forall m
        ensures Exact(r', m)
      {
        RerouteExact(r, o, n, m);
      }
    }
  }

  lemma RerouteExact(r: Routes, o: Node, n: Node, m: Node)
    requires Exact(r, o) && Exact(r, n) && Exact(r, m)
    requires o == n || |ListOf(r, o)| <= 2
    ensures Exact(Reroute(r, o, n), m)
  {
    var l, r' := ListOf(r, o), Reroute(r, o, n);
    RerouteList(r, o, n, m);
    SweptMeaning(l);
    SweepRemovesReads(l, |l|);
    RemoveAllMeaning(l, Reads(l, |l|));
    forall x
      ensures x in ListOf(r', m) <==> HostOf(r', x) == Some(m)
    {
      RerouteHost(r, o, n, x);
    }
  }

  /** Ascending lists with the same slots are equal. */
  lemma {:induction false} SameAscending(a: seq<Slot>, b: seq<Slot>)
    requires Ascending(a) && Ascending(b) && forall x :: x in a <==> x in b
    ensures a == b
    decreases |a|
  {
    if b != [] {
      assert b[0] in b;
    }
    if a != [] {
      assert a[0] in a;
      assert a[0] == b[0];
      forall x
        ensures x in a[1..] <==> x in b[1..]
      {
        assert x in a[1..] <==> x in a && x != a[0];
        assert x in b[1..] <==> x in b && x != b[0];
      }
      SameAscending(a[1..], b[1..]);
    }
  }

  lemma SeedInverse(leader: Node, count: nat)
    ensures Inverse(Seed(Fresh().routes, leader, count))
  {
    var r := Seed(Fresh().routes, leader, count);
    forall n
      ensures Exact(r, n)
    {
    }
  }

  /** Joins and migrations of slots their source hosts. */
  predicate Tidy(s: State, e: Event)
  {
    match e
    case FinishMigrate(t) => forall x :: x in t.slots ==> HostOf(s.routes, x) == Some(t.src)
    case FinishFailover(o, n) => |ListOf(s.routes, o)| <= 2
    case SeedStart(_, _) => false
    case _ => true
  }

  ghost predicate TidyRun(s: State, es: seq<Event>, s': State)
    decreases |es|
  {
    if es == [] then s == s'
    else Tidy(s, es[0]) && Apply(s, es[0]).Some? && TidyRun(Apply(s, es[0]).value, es[1..], s')
  }

  lemma {:induction false} TidyRunKeepsInverse(s: State, es: seq<Event>, s': State)
    requires Inverse(s.routes) && TidyRun(s, es, s')
    ensures Inverse(s'.routes)
    decreases |es|
  {
    if es != [] {
      var e := es[0];
      match e {
        case FinishMigrate(t) => MigrateKeepsInverseIff(s.routes, t);
        case FinishFailover(o, n) => RerouteKeepsInverseIff(s.routes, o, n);
        case _ =>
      }
      TidyRunKeepsInverse(Apply(s, e).value, es[1..], s');
    }
  }

  /** From a seeded cluster on, along such runs, a node's list is exactly the
      ascending list of the slots routed to it. */
  lemma ListsAreExact(leader: Node, count: nat, es: seq<Event>, s': State, n: Node)
    requires TidyRun(Apply(Fresh(), SeedStart(leader, count)).value, es, s')
    ensures Exact(s'.routes, n)
  {
    SeedInverse(leader, count);
    TidyRunKeepsInverse(Apply(Fresh(), SeedStart(leader, count)).value, es, s');
  }

  // ----- The two role indexes are inverse -----

  function SlavesOf(r: Roles, m: Node): seq<Node>
  {
    if m in r.masterSlaves then r.masterSlaves[m] else []
  }

  function MasterOf(r: Roles, x: Node): Option<Node>
  {
    if x in r.slaveMasters then Some(r.slaveMasters[x]) else None
  }

  /** x is listed under m exactly if m is recorded as its master; slaves are not masters. */
  ghost predicate Linked(r: Roles, m: Node, x: Node)
  {
    && (x in SlavesOf(r, m) <==> MasterOf(r, x) == Some(m))
    && (MasterOf(r, x).Some? ==> x !in r.masterSlaves)
    && NoDup(SlavesOf(r, m))
  }

  ghost predicate RolesAgree(r: Roles)
  {
    forall m, x :: Linked(r, m, x)
  }

  predicate CanJoin(r: Roles, id: Node, master: Option<Node>)
  {
    match master
    case None => MasterOf(r, id) == None && SlavesOf(r, id) == []
    case Some(m) => m in r.masterSlaves ==> id !in r.masterSlaves && MasterOf(r, id) in {None, Some(m)}
  }

  /** A join keeps the indexes in agreement exactly if the node is new, or
      already in just that role. */
  lemma JoinKeepsRolesIff(r: Roles, id: Node, master: Option<Node>)
    requires RolesAgree(r)
    ensures RolesAgree(AddNode(r, id, master)) <==> CanJoin(r, id, master)
  {
    var r' := AddNode(r, id, master);
    if CanJoin(r, id, master) {
      forall m, x
        ensures Linked(r', m, x)
      {
        assert Linked(r, m, x);
      }
    } else {
      match master
      case None =>
        if MasterOf(r, id).Some? {
          assert !Linked(r', id, id);
        } else {
          var x := SlavesOf(r, id)[0];
          assert Linked(r, id, x);
          assert !Linked(r', id, x);
        }
      case Some(m) =>
        if id in r.masterSlaves {
          assert !Linked(r', m, id);
        } else {
          var m0 := MasterOf(r, id).value;
          assert Linked(r, m0, id);
          assert !Linked(r', m0, id);
        }
    }
  }

  lemma {:induction false} WithoutMeaning(slaves: seq<Node>, n: Node)
    ensures forall x :: x in Without(slaves, n) <==> x in slaves && x != n
    ensures NoDup(slaves) ==> NoDup(Without(slaves, n))
  {
    if slaves != [] {
      var k := |slaves| - 1;
      WithoutMeaning(slaves[..k], n);
      assert NoDup(slaves) ==> slaves[k] !in slaves[..k];
      assert slaves == slaves[..k] + [slaves[k]];
    }
  }

  /** The new master: a slave of the old one, or a node without slaves of its own. */
  predicate CanTakeOver(r: Roles, o: Node, n: Node)
  {
    n != o && (MasterOf(r, n) == Some(o) || (MasterOf(r, n) == None && SlavesOf(r, n) == []))
  }

  lemma FailoverKeepsRolesIff(r: Roles, o: Node, n: Node)
    requires RolesAgree(r) && o in r.masterSlaves
    ensures RolesAgree(Failover(r, o, n)) <==> CanTakeOver(r, o, n)
  {
    var r', others := Failover(r, o, n), Without(r.masterSlaves[o], n);
    WithoutMeaning(r.masterSlaves[o], n);
    assert Linked(r, o, o) && Linked(r, o, n);
    if CanTakeOver(r, o, n) {
      forall m, x
        ensures Linked(r', m, x)
      {
        FailoverLinks(r, o, n, m, x);
      }
    } else if n == o {
      assert (others + [o])[|others|] == o;
      assert !Linked(r', n, o);
    } else if MasterOf(r, n).Some? {
      var m := MasterOf(r, n).value;
      assert Linked(r, m, n);
      assert !Linked(r', m, n);
    } else {
      var x := SlavesOf(r, n)[0];
      assert Linked(r, n, x) && Linked(r, o, x);
      assert !Linked(r', n, x);
    }
  }

  lemma FailoverLinks(r: Roles, o: Node, n: Node, m: Node, x: Node)
    requires RolesAgree(r) && o in r.masterSlaves && CanTakeOver(r, o, n)
    ensures Linked(Failover(r, o, n), m, x)
  {
    WithoutMeaning(r.masterSlaves[o], n);
    assert Linked(r, m, x) && Linked(r, o, x) && Linked(r, n, x) && Linked(r, o, o) && Linked(r, o, n);
  }

  predicate Proper(s: State, e: Event)
  {
    match e
    case SeedStart(leader, _) => CanJoin(s.roles, leader, None)
    case Join(id, master) => CanJoin(s.roles, id, master)
    case FinishFailover(o, n) => o in s.roles.masterSlaves && CanTakeOver(s.roles, o, n)
    case _ => true
  }

  ghost predicate ProperRun(s: State, es: seq<Event>, s': State)
    decreases |es|
  {
    if es == [] then s == s' else Proper(s, es[0]) && ProperRun(Apply(s, es[0]).value, es[1..], s')
  }

  /** Along every run of proper events the role indexes agree and no event fails. */
  lemma {:induction false} ProperRunKeepsRoles(s: State, es: seq<Event>, s': State)
    requires RolesAgree(s.roles) && ProperRun(s, es, s')
    ensures RolesAgree(s'.roles) && Run(s, es, s')
    decreases |es|
  {
    if es != [] {
      match es[0] {
        case SeedStart(leader, _) => JoinKeepsRolesIff(s.roles, leader, None);
        case Join(id, master) => JoinKeepsRolesIff(s.roles, id, master);
        case FinishFailover(o, n) => FailoverKeepsRolesIff(s.roles, o, n);
        case _ =>
      }
      ProperRunKeepsRoles(Apply(s, es[0]).value, es[1..], s');
    }
  }
}
