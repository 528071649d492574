/** Windows into the cells of a slot list: what they hold once removals have
    shifted the cells in place. */
module SlotWindows {
  import opened SortedList
  import opened SlotList

  function Whole(l: seq<Slot>): (r: Sweep)
    ensures Fits(r)
  {
    Sweep(l, |l|)
  }

  function TakeOutAll(w: Sweep, slots: seq<Slot>): (r: Sweep)
    requires Fits(w)
    ensures Fits(r) && |r.backing| == |w.backing|
  {
    if slots == [] then w else TakeOut(TakeOutAll(w, slots[..|slots| - 1]), slots[|slots| - 1])
  }

  lemma {:induction false} TakeOutMore(w: Sweep, a: seq<Slot>, b: seq<Slot>)
    requires Fits(w)
    ensures TakeOutAll(TakeOutAll(w, a), b) == TakeOutAll(w, a + b)
  {
    if b == [] {
      assert a + b == a;
    } else {
      var k := |b| - 1;
      TakeOutMore(w, a, b[..k]);
      assert (a + b)[..|a + b| - 1] == a + b[..k];
    }
  }

  lemma {:induction false} TakeOutAllRemoves(l: seq<Slot>, slots: seq<Slot>)
    ensures var w := TakeOutAll(Whole(l), slots); w.backing[..w.len] == RemoveAll(l, slots)
  {
    if slots != [] {
      var k := |slots| - 1;
      TakeOutAllRemoves(l, slots[..k]);
      TakeOutRemoves(TakeOutAll(Whole(l), slots[..k]), slots[k]);
    }
  }

  // ----- Cells only move up -----

  ghost predicate Climbing(w: Sweep)
  {
    && Fits(w) && Ascending(w.backing[..w.len])
    && forall i, j :: 0 <= i <= j < |w.backing| ==> w.backing[i] <= w.backing[j]
  }

  /** Cell by cell at least what it was, and nothing new. */
  ghost predicate Above(a: seq<Slot>, b: seq<Slot>)
  {
    && |a| == |b|
    && (forall i :: 0 <= i < |a| ==> a[i] >= b[i])
    && forall x :: x in a ==> x in b
  }

  lemma TakeOutClimbs(w: Sweep, slot: Slot)
    requires Climbing(w)
    ensures Climbing(TakeOut(w, slot)) && Above(TakeOut(w, slot).backing, w.backing)
  {
    var l := w.backing[..w.len];
    if slot in l {
      var at :| 0 <= at < w.len && l[at] == slot;
      TakeOutShifts(w, at);
      ShiftCells(w, at);
      ShiftClimbs(w, at);
    } else {
      TakeOutIdles(w, slot);
    }
  }

  lemma ShiftClimbs(w: Sweep, at: nat)
    requires Climbing(w) && at < w.len
    ensures Climbing(Shift(w, at)) && Above(Shift(w, at).backing, w.backing)
  {
    var r := Shift(w, at);
    ShiftCells(w, at);
    forall i | 0 <= i < |w.backing|
      ensures r.backing[i] == w.backing[if at <= i < w.len - 1 then i + 1 else i]
    {
    }
    forall i, j | 0 <= i < j < r.len
      ensures r.backing[i] < r.backing[j]
    {
      var l := w.backing[..w.len];
      var i', j' := if at <= i then i + 1 else i, if at <= j then j + 1 else j;
      assert l[i'] < l[j'];
    }
  }

  /** Whatever is removed, in whatever order: no cell ever goes down, and every
      cell holds a slot of the original list. */
  lemma {:induction false} CellsMoveUp(l: seq<Slot>, slots: seq<Slot>)
    requires Ascending(l)
    ensures Climbing(TakeOutAll(Whole(l), slots)) && Above(TakeOutAll(Whole(l), slots).backing, l)
  {
    if slots == [] {
      assert l[..|l|] == l;
    } else {
      var k := |slots| - 1;
      CellsMoveUp(l, slots[..k]);
      TakeOutClimbs(TakeOutAll(Whole(l), slots[..k]), slots[k]);
    }
  }

  // ----- When a window still holds what it held -----

  /** Removals from behind the first `to` cells leave these cells alone. */
  lemma {:induction false} CellsUntouched(l: seq<Slot>, slots: seq<Slot>, to: nat)
    requires Ascending(l) && to <= |l| && forall x :: x in slots ==> x !in l[..to]
    ensures var w := TakeOutAll(Whole(l), slots); to <= w.len && w.backing[..to] == l[..to]
  {
    if slots != [] {
      var k := |slots| - 1;
      var w := TakeOutAll(Whole(l), slots[..k]);
      CellsUntouched(l, slots[..k], to);
      CellsMoveUp(l, slots[..k]);
      if slots[k] in w.backing[..w.len] {
        var at :| 0 <= at < w.len && w.backing[..w.len][at] == slots[k];
        assert slots[k] in slots;
        TakeOutShifts(w, at);
        ShiftCells(w, at);
        assert Shift(w, at).backing[..to] == w.backing[..to];
      } else {
        TakeOutIdles(w, slots[k]);
      }
    }
  }

  /** The first removal from among the first `to` cells moves the last of them up. */
  lemma CellMoves(l: seq<Slot>, w: Sweep, to: nat, at: nat)
    requires Climbing(w) && |w.backing| == |l| && 0 < to < w.len
    requires w.backing[..to] == l[..to] && at < to
    ensures TakeOut(w, l[at]).backing[to - 1] > l[to - 1]
  {
    var list := w.backing[..w.len];
    assert w.backing[..to][at] == l[at] && w.backing[..to][to - 1] == l[to - 1];
    TakeOutShifts(w, at);
    ShiftCells(w, at);
    assert list[to - 1] < list[to];
  }

  /** As long as the list's last slot stays, the list is longer than its untouched front. */
  lemma LastStays(l: seq<Slot>, slots: seq<Slot>, to: nat)
    requires Ascending(l) && to < |l| && l[|l| - 1] !in slots && forall x :: x in slots ==> x !in l[..to]
    ensures to < TakeOutAll(Whole(l), slots).len
  {
    var w, last := TakeOutAll(Whole(l), slots), l[|l| - 1];
    CellsUntouched(l, slots, to);
    TakeOutAllRemoves(l, slots);
    RemoveAllMeaning(l, slots);
    assert last in l && last in w.backing[..w.len];
    var j :| 0 <= j < w.len && w.backing[..w.len][j] == last;
  }

  lemma {:induction false} CellMoved(l: seq<Slot>, slots: seq<Slot>, to: nat)
    requires Ascending(l) && 0 < to < |l| && l[|l| - 1] !in slots && exists x :: x in slots && x in l[..to]
    ensures TakeOutAll(Whole(l), slots).backing[to - 1] > l[to - 1]
  {
    var k := |slots| - 1;
    var front := slots[..k];
    var w := TakeOutAll(Whole(l), front);
    CellsMoveUp(l, front);
    TakeOutClimbs(w, slots[k]);
    if exists x :: x in front && x in l[..to] {
      CellMoved(l, front, to);
    } else {
      var at :| 0 <= at < to && l[..to][at] == slots[k];
      CellsUntouched(l, front, to);
      LastStays(l, front, to);
      CellMoves(l, w, to, at);
    }
  }

  /** A window before the last slot, read after removals that spared the last
      slot, holds what it held at first exactly if nothing before the window's
      end was removed. */
  lemma WindowReadsIff(l: seq<Slot>, slots: seq<Slot>, from: nat, to: nat)
    requires Ascending(l) && from < to < |l| && l[|l| - 1] !in slots
    ensures TakeOutAll(Whole(l), slots).backing[from..to] == l[from..to] <==> forall x :: x in slots ==> x !in l[..to]
  {
    var cells := TakeOutAll(Whole(l), slots).backing;
    if exists x :: x in slots && x in l[..to] {
      CellMoved(l, slots, to);
      assert cells[from..to][to - 1 - from] != l[from..to][to - 1 - from];
    } else {
      CellsUntouched(l, slots, to);
      assert cells[from..to] == cells[..to][from..] && l[from..to] == l[..to][from..];
    }
  }

  /** Cell i holds slot i + k, and every cell the list has left behind the last slot. */
  ghost predicate Advanced(l: seq<Slot>, w: Sweep, k: nat)
  {
    && k < |l| == |w.backing| && w.len == |l| - k
    && forall i :: 0 <= i < |l| ==> w.backing[i] == l[if i + k < |l| then i + k else |l| - 1]
  }

  lemma AdvancedStep(l: seq<Slot>, w: Sweep, k: nat)
    requires Advanced(l, w, k) && k + 1 < |l| && Ascending(w.backing[..w.len])
    ensures Advanced(l, TakeOut(w, l[k]), k + 1)
  {
    assert w.backing[0] == l[k];
    TakeOutShifts(w, 0);
    ShiftCells(w, 0);
  }

  /** What the cells hold once the first k slots are removed. */
  lemma {:induction false} FrontGone(l: seq<Slot>, k: nat)
    requires Ascending(l) && k < |l|
    ensures Advanced(l, TakeOutAll(Whole(l), l[..k]), k)
  {
    if k > 0 {
      FrontGone(l, k - 1);
      assert l[..k][..k - 1] == l[..k - 1];
      CellsMoveUp(l, l[..k - 1]);
      AdvancedStep(l, TakeOutAll(Whole(l), l[..k - 1]), k - 1);
    }
  }
}
