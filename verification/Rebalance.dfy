/** The rebalance planner: which blocks of slots the overfull masters hand to
    the underfull ones. */
module Rebalance {
  import opened Wrappers
  import opened SortedList
  import opened SlotList
  import opened Routing
  import opened Seqs

  const CORE_SLOT_COUNT: nat := 1024

  /** A migration from one master to another; task ids are random and left out. */
  datatype Move = Move(src: Node, target: Node, slots: seq<Slot>)

  /** A master with `count` slots to give, one with `need` slots missing. */
  datatype Export = Export(node: Node, count: nat)
  datatype Import = Import(node: Node, need: nat)

  /** The slots at positions from..to of the source's list. */
  datatype Block = Block(src: Node, target: Node, from: nat, to: nat)

  /** ceil(CORE_SLOT_COUNT / masters) */
  function Average(masters: nat): nat
    requires masters > 0
  {
    (CORE_SLOT_COUNT + masters - 1) / masters
  }

  function SlotsOf(lists: map<Node, seq<Slot>>, n: Node): seq<Slot>
  {
    if n in lists then lists[n] else []
  }

  function Exporters(masters: seq<Node>, lists: map<Node, seq<Slot>>, avg: nat): seq<Export>
  {
    if masters == [] then []
    else
      var k := |masters| - 1;
      var size := |SlotsOf(lists, masters[k])|;
      Exporters(masters[..k], lists, avg) + if size > avg + 1 then [Export(masters[k], size - avg)] else []
  }

  function Importers(masters: seq<Node>, lists: map<Node, seq<Slot>>, avg: nat): seq<Import>
  {
    if masters == [] then []
    else
      var k := |masters| - 1;
      var size := |SlotsOf(lists, masters[k])|;
      Importers(masters[..k], lists, avg) + if size < avg - 1 then [Import(masters[k], avg - size)] else []
  }

  /** The planning loop: `left` of the first exporter's slots are still to be
      handed out, and none left means starting over with all of them. */
  ghost function Plan(ex: seq<Export>, im: seq<Import>, left: nat): (r: seq<Block>)
    decreases |ex| + |im|
  {
    if ex == [] || im == [] then []
    else
      var count, need := ex[0].count, im[0].need;
      var l := if left == 0 || left > count then count else left;
      if need <= l then
        [Block(ex[0].node, im[0].node, count - l, count - l + need)] + Plan(ex, im[1..], l - need)
      else
        [Block(ex[0].node, im[0].node, count - l, count)] + Plan(ex[1..], im, 0)
  }

  ghost function Concrete(lists: map<Node, seq<Slot>>, b: Block): Move
  {
    var l := SlotsOf(lists, b.src);
    if b.from <= b.to <= |l| then Move(b.src, b.target, l[b.from..b.to]) else Move(b.src, b.target, [])
  }

  ghost function Moves(lists: map<Node, seq<Slot>>, blocks: seq<Block>): seq<Move>
  {
    if blocks == [] then [] else [Concrete(lists, blocks[0])] + Moves(lists, blocks[1..])
  }

  // ----- What every plan guarantees -----

  ghost predicate Worthwhile(masters: seq<Node>, lists: map<Node, seq<Slot>>, avg: nat, ex: seq<Export>, im: seq<Import>)
  {
    && (forall e :: e in ex ==> e.node in masters && e.count > 1 && |SlotsOf(lists, e.node)| == avg + e.count)
    && (forall i :: i in im ==> i.node in masters && i.need > 1 && |SlotsOf(lists, i.node)| == avg - i.need)
  }

  lemma {:induction false} ClassesAreWorthwhile(masters: seq<Node>, lists: map<Node, seq<Slot>>, avg: nat)
    ensures Worthwhile(masters, lists, avg, Exporters(masters, lists, avg), Importers(masters, lists, avg))
  {
    if masters != [] {
      ClassesAreWorthwhile(masters[..|masters| - 1], lists, avg);
    }
  }

  lemma {:induction false} ClassesAreUsable(masters: seq<Node>, lists: map<Node, seq<Slot>>, avg: nat)
    requires NoDup(masters)
    ensures Usable(Exporters(masters, lists, avg), Importers(masters, lists, avg))
  {
    if masters != [] {
      var k := |masters| - 1;
      ClassesAreUsable(masters[..k], lists, avg);
      ClassesAreWorthwhile(masters[..k], lists, avg);
      assert masters[k] !in masters[..k];
    }
  }

  /** A block between two masters, not empty, within the source's surplus. */
  ghost predicate Good(masters: seq<Node>, lists: map<Node, seq<Slot>>, avg: nat, b: Block)
  {
    && b.src in masters && b.target in masters && b.src != b.target
    && b.from < b.to <= |SlotsOf(lists, b.src)| - avg
    && |SlotsOf(lists, b.target)| < avg
  }

  lemma {:induction false} PlanIsGood(masters: seq<Node>, lists: map<Node, seq<Slot>>, avg: nat,
                                      ex: seq<Export>, im: seq<Import>, left: nat)
    requires Worthwhile(masters, lists, avg, ex, im)
    ensures forall b :: b in Plan(ex, im, left) ==> Good(masters, lists, avg, b)
    decreases |ex| + |im|
  {
    if ex != [] && im != [] {
      assert ex[0] in ex && im[0] in im;
      var count, need := ex[0].count, im[0].need;
      var l := if left == 0 || left > count then count else left;
      if need <= l {
        PlanIsGood(masters, lists, avg, ex, im[1..], l - need);
      } else {
        PlanIsGood(masters, lists, avg, ex[1..], im, 0);
      }
    }
  }

  lemma KeptFromBlock(r: Routes, masters: seq<Node>, avg: nat, b: Block, n: Node, i: nat)
    requires Exact(r, n) && Exact(r, b.src) && Good(masters, r.node2Slot, avg, b)
    requires |ListOf(r, n)| - avg <= i < |ListOf(r, n)|
    ensures ListOf(r, n)[i] !in Concrete(r.node2Slot, b).slots
  {
    var l, x := ListOf(r, b.src), ListOf(r, n)[i];
    assert x in ListOf(r, n);
    forall k | b.from <= k < b.to
      ensures l[k] != x
    {
      assert l[k] in l;
    }
  }

  // ----- When no slot is planned twice -----

  predicate Overlap(a: Block, b: Block)
  {
    a.src == b.src && a.from < b.to && b.from < a.to
  }

  ghost predicate Disjoint(blocks: seq<Block>)
  {
    forall i, j :: 0 <= i < j < |blocks| ==> !Overlap(blocks[i], blocks[j])
  }

  /** The blocks of each source come one after the other. */
  ghost predicate InOrder(blocks: seq<Block>)
  {
    forall i, j :: 0 <= i < j < |blocks| && blocks[i].src == blocks[j].src ==> blocks[i].to <= blocks[j].from
  }

  /** Some importer takes exactly what an exporter has left, and another
      importer follows: the exporter is then started over. */
  predicate Refills(ex: seq<Export>, im: seq<Import>, left: nat)
    decreases |ex| + |im|
  {
    if ex == [] || im == [] then false
    else
      var count, need := ex[0].count, im[0].need;
      var l := if left == 0 || left > count then count else left;
      if need == l then |im| > 1
      else if need < l then Refills(ex, im[1..], l - need)
      else Refills(ex[1..], im, 0)
  }

  ghost predicate Usable(ex: seq<Export>, im: seq<Import>)
  {
    && (forall e :: e in ex ==> e.count > 0) && (forall i :: i in im ==> i.need > 0)
    && (forall i, j :: 0 <= i < j < |ex| ==> ex[i].node != ex[j].node)
  }

  function FirstPosition(ex: seq<Export>, left: nat): nat
    requires ex != []
  {
    if left == 0 || left > ex[0].count then 0 else ex[0].count - left
  }

  /** Every block comes from one of the exporters; those of the first one lie
      at or after its starting point as long as it is not started over. */
  lemma {:induction false} SteadyPlan(ex: seq<Export>, im: seq<Import>, left: nat)
    requires Usable(ex, im) && !Refills(ex, im, left)
    ensures forall b :: b in Plan(ex, im, left) ==> exists e :: e in ex && e.node == b.src
    ensures ex != [] ==> forall b :: b in Plan(ex, im, left) && b.src == ex[0].node ==> b.from >= FirstPosition(ex, left)
    ensures InOrder(Plan(ex, im, left))
    decreases |ex| + |im|
  {
    if ex != [] && im != [] {
      assert ex[0] in ex && im[0] in im;
      var count, need := ex[0].count, im[0].need;
      var l := if left == 0 || left > count then count else left;
      if need < l {
        SteadyPlan(ex, im[1..], l - need);
      } else if need > l {
        SteadyPlan(ex[1..], im, 0);
      } else {
        assert im[1..] == [];
      }
    }
  }

  /** Blocks i and j of the plan overlap; a negative i stands for an earlier
      block of `node` that began at its first slot. */
  ghost predicate Clash(plan: seq<Block>, node: Node, started: bool, i: int, j: nat)
  {
    && i < j < |plan|
    && if i >= 0 then Overlap(plan[i], plan[j]) else started && plan[j].src == node && plan[j].from == 0 < plan[j].to
  }

  /** A clash in the rest of a plan is one in the plan. */
  lemma ClashBehind(first: Block, rest: seq<Block>, node: Node, i': int, j': nat, started: bool) returns (i: int)
    requires Clash(rest, node, true, i', j')
    requires i' < 0 ==> first.src == node && (started || first.from == 0 < first.to)
    ensures Clash([first] + rest, node, started, i, j' + 1)
  {
    assert ([first] + rest)[j' + 1] == rest[j'];
    i := if i' >= 0 then i' + 1 else if first.from == 0 < first.to then 0 else -1;
  }

  /** A refilled exporter hands out its first slots once more. */
  lemma {:induction false} FindOverlap(ex: seq<Export>, im: seq<Import>, left: nat) returns (i: int, j: nat)
    requires Usable(ex, im) && Refills(ex, im, left)
    ensures Clash(Plan(ex, im, left), ex[0].node, FirstPosition(ex, left) > 0, i, j)
    decreases |ex| + |im|
  {
    assert ex[0] in ex && im[0] in im;
    var count, need := ex[0].count, im[0].need;
    var l := if left == 0 || left > count then count else left;
    var first := Block(ex[0].node, im[0].node, count - l, if need <= l then count - l + need else count);
    if need == l {
      assert im[1] in im;
      FirstBlock(ex, im[1..]);
      i := ClashBehind(first, Plan(ex, im[1..], 0), ex[0].node, -1, 0, l < count);
      j := 1;
    } else if need < l {
      var i', j' := FindOverlap(ex, im[1..], l - need);
      i := ClashBehind(first, Plan(ex, im[1..], l - need), ex[0].node, i', j', l < count);
      j := j' + 1;
    } else {
      var i', j' := FindOverlap(ex[1..], im, 0);
      i := ClashBehind(first, Plan(ex[1..], im, 0), ex[0].node, i', j', l < count);
      j := j' + 1;
    }
  }

  /** An exporter started over hands out its first slot first. */
  lemma FirstBlock(ex: seq<Export>, im: seq<Import>)
    requires Usable(ex, im) && ex != [] && im != []
    ensures var plan := Plan(ex, im, 0); plan != [] && plan[0].src == ex[0].node && plan[0].from == 0 < plan[0].to
  {
    assert ex[0] in ex && im[0] in im;
  }

  /** A plan hands no slot out twice exactly if no importer exhausts an
      exporter while other importers are still waiting. */
  lemma PlanIsDisjointIff(ex: seq<Export>, im: seq<Import>)
    requires Usable(ex, im)
    ensures Disjoint(Plan(ex, im, 0)) <==> !Refills(ex, im, 0)
  {
    if Refills(ex, im, 0) {
      var i, j := FindOverlap(ex, im, 0);
    } else {
      SteadyPlan(ex, im, 0);
    }
  }

  // ----- The tasks of a plan -----

  /** All tasks the planner makes; none without masters. */
  ghost function PlanOf(masters: seq<Node>, lists: map<Node, seq<Slot>>): (r: seq<Block>)
  {
    if masters == [] then []
    else
      var avg := Average(|masters|);
      Plan(Exporters(masters, lists, avg), Importers(masters, lists, avg), 0)
  }

  lemma {:induction false} MoveAt(lists: map<Node, seq<Slot>>, blocks: seq<Block>, i: nat)
    requires i < |blocks|
    ensures |Moves(lists, blocks)| == |blocks| && Moves(lists, blocks)[i] == Concrete(lists, blocks[i])
    decreases |blocks|
  {
    if i > 0 {
      MoveAt(lists, blocks[1..], i - 1);
    } else if |blocks| > 1 {
      MoveAt(lists, blocks[1..], 0);
    }
  }

  lemma PlanOfIsGood(masters: seq<Node>, lists: map<Node, seq<Slot>>, i: nat)
    requires i < |PlanOf(masters, lists)|
    ensures masters != [] && Good(masters, lists, Average(|masters|), PlanOf(masters, lists)[i])
  {
    var avg := Average(|masters|);
    ClassesAreWorthwhile(masters, lists, avg);
    PlanIsGood(masters, lists, avg, Exporters(masters, lists, avg), Importers(masters, lists, avg), 0);
    assert PlanOf(masters, lists)[i] in PlanOf(masters, lists);
  }

  /** Every task leads from one master to another and moves at least one slot,
      none twice, all of them hosted by its source. */
  lemma TaskIsSound(masters: seq<Node>, r: Routes, i: nat)
    requires Inverse(r) && i < |PlanOf(masters, r.node2Slot)|
    ensures |Moves(r.node2Slot, PlanOf(masters, r.node2Slot))| == |PlanOf(masters, r.node2Slot)|
    ensures var m := Moves(r.node2Slot, PlanOf(masters, r.node2Slot))[i];
            && m.src in masters && m.target in masters && m.src != m.target
            && m.slots != [] && Ascending(m.slots)
            && forall x :: x in m.slots ==> HostOf(r, x) == Some(m.src)
  {
    var lists := r.node2Slot;
    var b := PlanOf(masters, lists)[i];
    MoveAt(lists, PlanOf(masters, lists), i);
    PlanOfIsGood(masters, lists, i);
    BlockIsHosted(r, b);
  }

  lemma BlockIsHosted(r: Routes, b: Block)
    requires Exact(r, b.src) && b.from <= b.to <= |SlotsOf(r.node2Slot, b.src)|
    ensures var s := Concrete(r.node2Slot, b).slots;
            |s| == b.to - b.from && Ascending(s) && forall x :: x in s ==> HostOf(r, x) == Some(b.src)
  {
    var l, s := ListOf(r, b.src), Concrete(r.node2Slot, b).slots;
    forall x | x in s
      ensures HostOf(r, x) == Some(b.src)
    {
      var k :| 0 <= k < |s| && s[k] == x;
      assert l[b.from + k] == x && x in l;
    }
  }

  ghost predicate Share(a: Move, b: Move)
  {
    exists x :: x in a.slots && x in b.slots
  }

  /** No slot is in two of the tasks. */
  ghost predicate Unshared(plan: seq<Move>)
  {
    forall i, j :: 0 <= i < j < |plan| ==> !Share(plan[i], plan[j])
  }

  /** Blocks overlap exactly if they move a common slot. */
  lemma OverlapIffShare(r: Routes, a: Block, b: Block)
    requires Exact(r, a.src) && Exact(r, b.src)
    requires a.from < a.to <= |SlotsOf(r.node2Slot, a.src)| && b.from < b.to <= |SlotsOf(r.node2Slot, b.src)|
    ensures Overlap(a, b) <==> Share(Concrete(r.node2Slot, a), Concrete(r.node2Slot, b))
  {
    var l := ListOf(r, a.src);
    BlockIsHosted(r, a);
    BlockIsHosted(r, b);
    if a.src == b.src {
      SlicesMeetIff(l, a.from, a.to, b.from, b.to);
    }
  }

  lemma SlicesMeetIff(l: seq<Slot>, a: nat, b: nat, c: nat, d: nat)
    requires Ascending(l) && a < b <= |l| && c < d <= |l|
    ensures (exists x :: x in l[a..b] && x in l[c..d]) <==> a < d && c < b
  {
    if a < d && c < b {
      var k := if a < c then c else a;
      assert l[a..b][k - a] == l[k] && l[c..d][k - c] == l[k];
      assert l[k] in l[a..b] && l[k] in l[c..d];
    }
    if x :| x in l[a..b] && x in l[c..d] {
      var i :| 0 <= i < b - a && l[a..b][i] == x;
      var j :| 0 <= j < d - c && l[c..d][j] == x;
      assert l[a + i] == x && l[c + j] == x;
      assert a + i == c + j;
    }
  }

  /** No slot is in two tasks of the plan exactly if no exporter is started over. */
  lemma TasksDisjointIff(masters: seq<Node>, r: Routes)
    requires Inverse(r) && NoDup(masters) && masters != []
    ensures var plan, avg := Moves(r.node2Slot, PlanOf(masters, r.node2Slot)), Average(|masters|);
            Unshared(plan) <==> !Refills(Exporters(masters, r.node2Slot, avg), Importers(masters, r.node2Slot, avg), 0)
  {
    var lists, avg := r.node2Slot, Average(|masters|);
    ClassesAreUsable(masters, lists, avg);
    PlanIsDisjointIff(Exporters(masters, lists, avg), Importers(masters, lists, avg));
    SharesAsBlocks(masters, r);
    UnsharedIffDisjoint(Moves(lists, PlanOf(masters, lists)), PlanOf(masters, lists));
  }

  lemma UnsharedIffDisjoint(plan: seq<Move>, blocks: seq<Block>)
    requires |plan| == |blocks|
    requires forall i, j :: 0 <= i < j < |blocks| ==> (Share(plan[i], plan[j]) <==> Overlap(blocks[i], blocks[j]))
    ensures Unshared(plan) <==> Disjoint(blocks)
  {
  }

  lemma SharesAsBlocks(masters: seq<Node>, r: Routes)
    requires Inverse(r)
    ensures var plan, blocks := Moves(r.node2Slot, PlanOf(masters, r.node2Slot)), PlanOf(masters, r.node2Slot);
            |plan| == |blocks| &&
            forall i, j :: 0 <= i < j < |blocks| ==> (Share(plan[i], plan[j]) <==> Overlap(blocks[i], blocks[j]))
  {
    var lists := r.node2Slot;
    var blocks := PlanOf(masters, lists);
    if blocks != [] {
      MoveAt(lists, blocks, 0);
    }
    forall i, j | 0 <= i < j < |blocks|
      ensures Share(Moves(lists, blocks)[i], Moves(lists, blocks)[j]) <==> Overlap(blocks[i], blocks[j])
    {
      MoveAt(lists, blocks, i);
      MoveAt(lists, blocks, j);
      PlanOfIsGood(masters, lists, i);
      PlanOfIsGood(masters, lists, j);
      OverlapIffShare(r, blocks[i], blocks[j]);
    }
  }

  // ----- The planner -----

  /** The tasks are windows of the lists the masters have; the slots are read
      from these lists when a task is started. */
  method MakeRebalancePlan(masters: seq<Node>, lists: map<Node, seq<Slot>>) returns (plan: seq<Block>)
    ensures plan == PlanOf(masters, lists)
  {
    plan := [];
    if masters == [] {
      return;
    }
    var avg := Average(|masters|);
    var ex: seq<Export>, im: seq<Import> := [], [];
    for k := 0 to |masters|
      invariant ex == Exporters(masters[..k], lists, avg) && im == Importers(masters[..k], lists, avg)
    {
      assert masters[..k + 1][..k] == masters[..k];
      var size := |SlotsOf(lists, masters[k])|;
      if size > avg + 1 {
        ex := ex + [Export(masters[k], size - avg)];
      }
      if size < avg - 1 {
        im := im + [Import(masters[k], avg - size)];
      }
    }
    assert masters[..|masters|] == masters;
    ClassesAreWorthwhile(masters, lists, avg);
    plan := Hand(ex, im);
  }

  /** The next block, the cursors after it and the slots then left in hand. */
  ghost function BlockAt(ex: seq<Export>, im: seq<Import>, e: nat, i: nat, left: nat): (Block, nat, nat, nat)
    requires e < |ex| && i < |im| && left <= ex[e].count
  {
    var l := if left == 0 then ex[e].count else left;
    var from := ex[e].count - l;
    if im[i].need <= l then (Block(ex[e].node, im[i].node, from, from + im[i].need), e, i + 1, l - im[i].need)
    else (Block(ex[e].node, im[i].node, from, ex[e].count), e + 1, i, 0)
  }

  lemma NextBlock(ex: seq<Export>, im: seq<Import>, e: nat, i: nat, left: nat)
    requires e < |ex| && i < |im| && left <= ex[e].count
    ensures var (b, e', i', left') := BlockAt(ex, im, e, i, left);
            e' <= |ex| && i' <= |im| && Plan(ex[e..], im[i..], left) == [b] + Plan(ex[e'..], im[i'..], left')
  {
    assert ex[e..][1..] == ex[e + 1..] && im[i..][1..] == im[i + 1..];
  }

  /** The blocks of the whole plan are those done and those still to come. */
  ghost predicate Continues(done: seq<Block>, ex: seq<Export>, im: seq<Import>, e: nat, i: nat, left: nat)
  {
    e <= |ex| && i <= |im| && done + Plan(ex[e..], im[i..], left) == Plan(ex, im, 0)
  }

  lemma NoneDone(ex: seq<Export>, im: seq<Import>)
    ensures Continues([], ex, im, 0, 0, 0)
  {
    assert ex[0..] == ex && im[0..] == im;
  }

  lemma AllDone(done: seq<Block>, ex: seq<Export>, im: seq<Import>, e: nat, i: nat, left: nat)
    requires Continues(done, ex, im, e, i, left) && (e == |ex| || i == |im|)
    ensures done == Plan(ex, im, 0)
  {
    assert done + [] == done;
  }

  lemma OneMoreBlock(done: seq<Block>, ex: seq<Export>, im: seq<Import>, e: nat, i: nat, left: nat)
    requires e < |ex| && i < |im| && left <= ex[e].count && Continues(done, ex, im, e, i, left)
    ensures var (b, e', i', left') := BlockAt(ex, im, e, i, left); Continues(done + [b], ex, im, e', i', left')
  {
    var (b, e', i', left') := BlockAt(ex, im, e, i, left);
    NextBlock(ex, im, e, i, left);
    Regroup(done, [b], Plan(ex[e'..], im[i'..], left'));
  }

  /** The two-cursor loop; from..to is the window in hand. */
  method Hand(ex: seq<Export>, im: seq<Import>) returns (plan: seq<Block>)
    requires Positive(ex, im)
    ensures plan == Plan(ex, im, 0)
  {
    plan := [];
    var e, i, from, to := 0, 0, 0, 0;
    NoneDone(ex, im);
    while i < |im| && e < |ex|
      invariant 0 <= i <= |im| && 0 <= e <= |ex| && InHand(ex, e, from, to)
      invariant Continues(plan, ex, im, e, i, to - from)
      decreases |im| - i + |ex| - e
    {
      var b;
      PositiveAt(ex, im, e, i);
      OneMoreBlock(plan, ex, im, e, i, to - from);
      b, e, i, from, to := HandOne(ex, im, e, i, from, to);
      plan := plan + [b];
    }
    AllDone(plan, ex, im, e, i, to - from);
  }

  ghost predicate Positive(ex: seq<Export>, im: seq<Import>)
  {
    (forall e :: e in ex ==> e.count > 0) && (forall i :: i in im ==> i.need > 0)
  }

  lemma PositiveAt(ex: seq<Export>, im: seq<Import>, e: nat, i: nat)
    requires Positive(ex, im) && e < |ex| && i < |im|
    ensures ex[e].count > 0 && im[i].need > 0
  {
    assert ex[e] in ex && im[i] in im;
  }

  /** A window in hand is the end of the current exporter's surplus. */
  predicate InHand(ex: seq<Export>, e: nat, from: nat, to: nat)
  {
    from <= to && (from < to ==> e < |ex| && to == ex[e].count)
  }

  /** One pass of the loop: the next task, and the cursor that moved. */
  method HandOne(ex: seq<Export>, im: seq<Import>, e: nat, i: nat, from: nat, to: nat)
    returns (b: Block, e': nat, i': nat, from': nat, to': nat)
    requires e < |ex| && i < |im| && ex[e].count > 0 && im[i].need > 0 && InHand(ex, e, from, to)
    ensures InHand(ex, e', from', to') && (b, e', i', to' - from') == BlockAt(ex, im, e, i, to - from)
  {
    from', to' := from, to;
    if from == to {
      from', to' := 0, ex[e].count;
    }
    if im[i].need <= to' - from' {
      b := Block(ex[e].node, im[i].node, from', from' + im[i].need);
      from', e', i' := from' + im[i].need, e, i + 1;
    } else {
      b := Block(ex[e].node, im[i].node, from', to');
      from', to', e', i' := 0, 0, e + 1, i;
    }
  }
}
