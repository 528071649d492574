/** The per-node slot lists of the routing table: removal from them, and the
    removal pass that ranges over the list it shifts. */
module SlotList {
  import opened SortedList

  /** uint32 in the code; slots are only compared here. */
  type Slot = int

  /** Drops the run of `slot` that starts at `i`. */
  function CutRun(l: seq<Slot>, i: nat, slot: Slot): seq<Slot>
    decreases |l|
  {
    if i < |l| && l[i] == slot then CutRun(l[..i] + l[i + 1..], i, slot) else l
  }

  function Remove(l: seq<Slot>, slot: Slot): seq<Slot>
  {
    CutRun(l, SearchIn(l, slot, 0, |l|), slot)
  }

  lemma CutOne(l: seq<Slot>, i: nat)
    requires i < |l| && (i + 1 < |l| ==> l[i + 1] != l[i])
    ensures CutRun(l, i, l[i]) == l[..i] + l[i + 1..]
  {
    var r := l[..i] + l[i + 1..];
    assert i < |r| ==> r[i] == l[i + 1];
  }

  lemma RemoveMeaning(l: seq<Slot>, slot: Slot)
    requires Ascending(l)
    ensures Ascending(Remove(l, slot))
    ensures forall x :: x in Remove(l, slot) <==> x in l && x != slot
  {
    SearchFinds(l, slot, 0, |l|);
    var i := SearchIn(l, slot, 0, |l|);
    if i < |l| && l[i] == slot {
      CutOne(l, i);
      DropAt(l, i);
    }
  }

  // ----- Removing a list's own slots from it -----

  /** The list is backing[..len]; a removal shifts backing[..len] in place and
      leaves the cell behind the new end as it was. */
  datatype Sweep = Sweep(backing: seq<Slot>, len: nat)

  ghost predicate Fits(w: Sweep)
  {
    w.len <= |w.backing|
  }

  function Shift(w: Sweep, i: nat): (r: Sweep)
    requires Fits(w) && i < w.len
    ensures Fits(r) && |r.backing| == |w.backing|
  {
    Sweep(w.backing[..i] + w.backing[i + 1..w.len] + w.backing[w.len - 1..], w.len - 1)
  }

  function ShiftRun(w: Sweep, i: nat, slot: Slot): (r: Sweep)
    requires Fits(w)
    ensures Fits(r) && |r.backing| == |w.backing|
    decreases w.len
  {
    if i < w.len && w.backing[i] == slot then ShiftRun(Shift(w, i), i, slot) else w
  }

  /** Removes a slot in place. */
  function TakeOut(w: Sweep, slot: Slot): (r: Sweep)
    requires Fits(w)
    ensures Fits(r) && |r.backing| == |w.backing|
  {
    ShiftRun(w, SearchIn(w.backing[..w.len], slot, 0, w.len), slot)
  }

  /** The pass's step k: read cell k, then remove that slot from the list. */
  function SweepStep(w: Sweep, k: nat): (r: Sweep)
    requires Fits(w) && k < |w.backing|
    ensures Fits(r) && |r.backing| == |w.backing|
  {
    TakeOut(w, w.backing[k])
  }

  function SweepTo(l: seq<Slot>, k: nat): (r: Sweep)
    requires k <= |l|
    ensures Fits(r) && |r.backing| == |l|
  {
    if k == 0 then Sweep(l, |l|) else SweepStep(SweepTo(l, k - 1), k - 1)
  }

  /** The slot read in step k. */
  function Read(l: seq<Slot>, k: nat): Slot
    requires k < |l|
  {
    SweepTo(l, k).backing[k]
  }

  /** The list the pass leaves. */
  function Swept(l: seq<Slot>): seq<Slot>
  {
    var w := SweepTo(l, |l|);
    w.backing[..w.len]
  }

  /** The slots read in the first k steps. */
  function Reads(l: seq<Slot>, k: nat): (r: seq<Slot>)
    requires k <= |l|
    ensures |r| == k
  {
    if k == 0 then [] else Reads(l, k - 1) + [Read(l, k - 1)]
  }

  function RemoveAll(l: seq<Slot>, slots: seq<Slot>): seq<Slot>
  {
    if slots == [] then l else Remove(RemoveAll(l, slots[..|slots| - 1]), slots[|slots| - 1])
  }

  lemma {:induction false} ShiftRunIsCutRun(w: Sweep, i: nat, slot: Slot)
    requires Fits(w)
    ensures var r := ShiftRun(w, i, slot); r.backing[..r.len] == CutRun(w.backing[..w.len], i, slot)
    decreases w.len
  {
    if i < w.len && w.backing[i] == slot {
      ShiftRunIsCutRun(Shift(w, i), i, slot);
      var l, r := w.backing[..w.len], Shift(w, i);
      assert r.backing[..r.len] == l[..i] + l[i + 1..];
    }
  }

  lemma TakeOutRemoves(w: Sweep, slot: Slot)
    requires Fits(w)
    ensures var w' := TakeOut(w, slot); w'.backing[..w'.len] == Remove(w.backing[..w.len], slot)
  {
    ShiftRunIsCutRun(w, SearchIn(w.backing[..w.len], slot, 0, w.len), slot);
  }

  /** The pass removes what it reads, in the order it reads it. */
  lemma {:induction false} SweepRemovesReads(l: seq<Slot>, k: nat)
    requires k <= |l|
    ensures var w := SweepTo(l, k); w.backing[..w.len] == RemoveAll(l, Reads(l, k))
    decreases k
  {
    if k > 0 {
      SweepRemovesReads(l, k - 1);
      TakeOutRemoves(SweepTo(l, k - 1), Read(l, k - 1));
      assert Reads(l, k)[..k - 1] == Reads(l, k - 1);
    }
  }

  lemma {:induction false} RemoveAllMeaning(l: seq<Slot>, slots: seq<Slot>)
    requires Ascending(l)
    ensures Ascending(RemoveAll(l, slots))
    ensures forall x :: x in RemoveAll(l, slots) <==> x in l && x !in slots
  {
    if slots != [] {
      var n := |slots| - 1;
      RemoveAllMeaning(l, slots[..n]);
      RemoveMeaning(RemoveAll(l, slots[..n]), slots[n]);
      assert slots == slots[..n] + [slots[n]];
    }
  }

  lemma {:induction false} ReadsKeepSlots(l: seq<Slot>, k: nat, x: Slot)
    requires k <= |l| && x in Reads(l, k)
    ensures x in l
  {
    if x in Reads(l, k - 1) {
      ReadsKeepSlots(l, k - 1, x);
    } else {
      SweepKeepsSlots(l, k - 1, x);
    }
  }

  lemma {:induction false} ShiftRunKeepsSlots(w: Sweep, i: nat, slot: Slot, x: Slot)
    requires Fits(w) && x in ShiftRun(w, i, slot).backing
    ensures x in w.backing
    decreases w.len
  {
    if i < w.len && w.backing[i] == slot {
      ShiftRunKeepsSlots(Shift(w, i), i, slot, x);
    }
  }

  /** Whatever the order, the pass only ever reads slots of the list it started from. */
  lemma {:induction false} SweepKeepsSlots(l: seq<Slot>, k: nat, x: Slot)
    requires k <= |l| && x in SweepTo(l, k).backing
    ensures x in l
    decreases k
  {
    if k > 0 {
      var w := SweepTo(l, k - 1);
      ShiftRunKeepsSlots(w, SearchIn(w.backing[..w.len], w.backing[k - 1], 0, w.len), w.backing[k - 1], x);
      SweepKeepsSlots(l, k - 1, x);
    }
  }

  /** After k steps, while 2k does not pass the end: cells before k hold the
      odd positions of the list, the rest of the list follows shifted by k. */
  ghost predicate Halfway(l: seq<Slot>, w: Sweep, k: nat)
  {
    && 2 * k <= |l| == |w.backing| && w.len == |l| - k
    && (forall i :: 0 <= i < k ==> w.backing[i] == l[2 * i + 1])
    && (forall i :: k <= i < w.len ==> w.backing[i] == l[i + k])
    && (forall i :: w.len <= i < |l| ==> w.backing[i] == l[|l| - 1])
  }

  /** What is left: the odd positions before the last one. */
  ghost predicate Finished(l: seq<Slot>, w: Sweep)
  {
    && |w.backing| == |l| > 0 && w.len == (|l| - 1) / 2
    && (forall i :: 0 <= i < w.len ==> w.backing[i] == l[2 * i + 1])
    && (forall i :: w.len < i < |l| ==> w.backing[i] == l[|l| - 1])
  }

  /** On an ascending list a removal shifts one cell out, if the slot is there. */
  lemma TakeOutShifts(w: Sweep, at: nat)
    requires Fits(w) && Ascending(w.backing[..w.len]) && at < w.len
    ensures TakeOut(w, w.backing[at]) == Shift(w, at)
  {
    var l := w.backing[..w.len];
    SearchFinds(l, l[at], 0, |l|);
    var r := Shift(w, at);
    assert at < r.len ==> r.backing[at] == l[at + 1];
    assert ShiftRun(r, at, l[at]) == r;
  }

  lemma TakeOutIdles(w: Sweep, slot: Slot)
    requires Fits(w) && slot !in w.backing[..w.len]
    ensures TakeOut(w, slot) == w
  {
    var i := SearchIn(w.backing[..w.len], slot, 0, w.len);
    if i < w.len {
      assert w.backing[..w.len][i] != slot;
    }
  }

  lemma HalfwayAscends(l: seq<Slot>, w: Sweep, k: nat)
    requires Ascending(l) && Halfway(l, w, k)
    ensures Ascending(w.backing[..w.len])
  {
  }

  lemma HalfwayNext(l: seq<Slot>, w: Sweep, k: nat)
    requires Halfway(l, w, k) && 2 * (k + 1) <= |l|
    ensures Halfway(l, Shift(w, k), k + 1)
  {
    ShiftCells(w, k);
  }

  lemma HalfwayEnds(l: seq<Slot>, w: Sweep, k: nat)
    requires Halfway(l, w, k) && k == |l| / 2 && l != []
    ensures w.backing[k] == w.backing[w.len - 1]
    ensures Finished(l, Shift(w, w.len - 1))
  {
    ShiftCells(w, w.len - 1);
  }

  /** Cell by cell, what Shift does. */
  lemma ShiftCells(w: Sweep, at: nat)
    requires Fits(w) && at < w.len
    ensures forall i :: 0 <= i < at ==> Shift(w, at).backing[i] == w.backing[i]
    ensures forall i :: at <= i < w.len - 1 ==> Shift(w, at).backing[i] == w.backing[i + 1]
    ensures forall i :: w.len - 1 <= i < |w.backing| ==> Shift(w, at).backing[i] == w.backing[i]
  {
  }

  lemma {:induction false} SweepHalfway(l: seq<Slot>, k: nat)
    requires Ascending(l) && 2 * k <= |l|
    ensures Halfway(l, SweepTo(l, k), k)
    decreases k
  {
    if k > 0 {
      SweepHalfway(l, k - 1);
      HalfwayStep(l, SweepTo(l, k - 1), k - 1);
    }
  }

  lemma HalfwayStep(l: seq<Slot>, w: Sweep, k: nat)
    requires Ascending(l) && Halfway(l, w, k) && 2 * (k + 1) <= |l|
    ensures Halfway(l, SweepStep(w, k), k + 1)
  {
    HalfwayAscends(l, w, k);
    TakeOutShifts(w, k);
    HalfwayNext(l, w, k);
  }

  lemma SweepTurns(l: seq<Slot>)
    requires Ascending(l) && l != []
    ensures Finished(l, SweepTo(l, |l| / 2 + 1))
  {
    var w := SweepTo(l, |l| / 2);
    SweepHalfway(l, |l| / 2);
    HalfwayTurns(l, w, |l| / 2);
  }

  lemma HalfwayTurns(l: seq<Slot>, w: Sweep, k: nat)
    requires Ascending(l) && Halfway(l, w, k) && k == |l| / 2 && l != []
    ensures Finished(l, SweepStep(w, k))
  {
    HalfwayAscends(l, w, k);
    HalfwayEnds(l, w, k);
    TakeOutShifts(w, w.len - 1);
  }

  lemma FinishedIdles(l: seq<Slot>, w: Sweep, k: nat)
    requires Ascending(l) && Finished(l, w) && |l| / 2 < k < |l|
    ensures SweepStep(w, k) == w
  {
    assert w.backing[k] == l[|l| - 1];
    assert w.backing[k] !in w.backing[..w.len];
    TakeOutIdles(w, w.backing[k]);
  }

  /** The pass leaves every second slot of an ascending list: the odd positions
      before the last. It empties the list only if there are at most two slots. */
  lemma SweptMeaning(l: seq<Slot>)
    requires Ascending(l)
    ensures |Swept(l)| == if l == [] then 0 else (|l| - 1) / 2
    ensures forall i :: 0 <= i < |Swept(l)| ==> Swept(l)[i] == l[2 * i + 1]
    ensures Ascending(Swept(l))
    ensures Swept(l) == [] <==> |l| <= 2
  {
    if l != [] {
      SweepTurns(l);
      var k := |l| / 2 + 1;
      while k < |l|
        invariant |l| / 2 < k <= |l| && Finished(l, SweepTo(l, k))
      {
        FinishedIdles(l, SweepTo(l, k), k);
        k := k + 1;
      }
    }
  }

  lemma SweptHolds(l: seq<Slot>, i: nat)
    requires Ascending(l) && i < |l|
    ensures l[i] in Swept(l) <==> i % 2 == 1 && i < |l| - 1
  {
    SweptMeaning(l);
    if i % 2 == 1 && i < |l| - 1 {
      assert Swept(l)[i / 2] == l[i];
    } else {
      forall j | 0 <= j < |Swept(l)|
        ensures Swept(l)[j] != l[i]
      {
        assert 2 * j + 1 != i;
      }
    }
  }

  lemma SweptIsUnread(l: seq<Slot>, x: Slot)
    requires Ascending(l) && x in l
    ensures x in Swept(l) <==> x !in Reads(l, |l|)
  {
    SweepRemovesReads(l, |l|);
    RemoveAllMeaning(l, Reads(l, |l|));
  }

  /** On an ascending list the pass reads exactly the even positions and the last one. */
  lemma ReadsMeaning(l: seq<Slot>, i: nat)
    requires Ascending(l) && i < |l|
    ensures l[i] in Reads(l, |l|) <==> i % 2 == 0 || i == |l| - 1
  {
    SweptHolds(l, i);
    SweptIsUnread(l, l[i]);
  }
}
