/** The slots of a bitmap as a list and as coalesced ranges. */
module SlotRanges {
  import opened SlotBitmap
  import opened SortedList

  datatype Range = Range(lo: int, hi: int)

  /** The slots of a set below n, ascending. */
  ghost function Below(owned: set<int>, n: int): seq<int>
    decreases n
  {
    if n <= 0 then [] else if n - 1 in owned then Below(owned, n - 1) + [n - 1] else Below(owned, n - 1)
  }

  lemma {:induction false} BelowMeaning(owned: set<int>, n: int)
    ensures forall s :: s in Below(owned, n) <==> 0 <= s < n && s in owned
    decreases n
  {
    if n > 0 {
      BelowMeaning(owned, n - 1);
    }
  }

  lemma {:induction false} BelowAscends(owned: set<int>, n: int)
    ensures Ascending(Below(owned, n))
    decreases n
  {
    if n > 0 {
      BelowAscends(owned, n - 1);
      BelowMeaning(owned, n - 1);
      var l := Below(owned, n - 1);
      forall i | 0 <= i < |l|
        ensures l[i] < n - 1
      {
        assert l[i] in l;
      }
    }
  }

  /** The bitmap's slots as a set of numbers. */
  ghost function Slots(b: Bitmap): set<int>
  {
    set s: Slot | s in Owned(b) :: s as int
  }

  method SlotCount(b: Bitmap) returns (c: nat)
    ensures c == |Below(Slots(b), SLOT_COUNT)|
  {
    c := 0;
    for s := 0 to SLOT_COUNT
      invariant c == |Below(Slots(b), s)|
    {
      Owns(b, s);
      if HasSlot(b, s) {
        c := c + 1;
      }
    }
  }

  lemma Owns(b: Bitmap, s: Slot)
    ensures HasSlot(b, s) <==> s in Slots(b)
  {
    assert HasSlot(b, s) <==> s in Owned(b);
  }

  /** lo, lo + 1, ..., hi - 1 */
  function Span(lo: int, hi: int): (r: seq<int>)
    ensures lo <= hi ==> |r| == hi - lo && forall i :: 0 <= i < |r| ==> r[i] == lo + i
    decreases hi - lo
  {
    if lo >= hi then [] else Span(lo, hi - 1) + [hi - 1]
  }

  function Expand(rs: seq<Range>): seq<int>
  {
    if rs == [] then [] else Expand(rs[..|rs| - 1]) + Span(rs[|rs| - 1].lo, rs[|rs| - 1].hi + 1)
  }

  /** Ascending ranges with a gap between neighbours, the last ending before n. */
  ghost predicate Separated(rs: seq<Range>, n: int)
  {
    && (forall i :: 0 <= i < |rs| ==> 0 <= rs[i].lo <= rs[i].hi < n)
    && (forall i :: 0 <= i < |rs| - 1 ==> rs[i].hi + 1 < rs[i + 1].lo)
  }

  /** Before slot s, outside a run: the slot before s is not owned. */
  ghost predicate Between(owned: set<int>, out: seq<Range>, s: int)
  {
    Separated(out, s) && Expand(out) == Below(owned, s) && s - 1 !in owned
  }

  /** Before slot s, inside a run that began at start. */
  ghost predicate Inside(owned: set<int>, out: seq<Range>, start: int, s: int)
  {
    0 <= start < s && Separated(out, start - 1) && Expand(out) + Span(start, s) == Below(owned, s)
  }

  lemma BeginRun(owned: set<int>, out: seq<Range>, s: int)
    requires 0 <= s && s in owned && Between(owned, out, s)
    ensures Inside(owned, out, s, s + 1)
  {
    LastOwned(owned, out, s);
    assert Span(s, s + 1) == [s];
  }

  lemma StayInRun(owned: set<int>, out: seq<Range>, start: int, s: int)
    requires s in owned && Inside(owned, out, start, s)
    ensures Inside(owned, out, start, s + 1)
  {
    assert Expand(out) + (Span(start, s) + [s]) == Expand(out) + Span(start, s) + [s];
  }

  lemma EndRun(owned: set<int>, out: seq<Range>, start: int, s: int)
    requires Inside(owned, out, start, s)
    ensures Separated(out + [Range(start, s - 1)], s) && Expand(out + [Range(start, s - 1)]) == Below(owned, s)
  {
    ExpandSnoc(out, Range(start, s - 1));
  }

  lemma ExpandSnoc(rs: seq<Range>, r: Range)
    ensures Expand(rs + [r]) == Expand(rs) + Span(r.lo, r.hi + 1)
  {
    assert (rs + [r])[..|rs|] == rs;
  }

  /** The last range ended before the unowned slot s - 1. */
  lemma LastOwned(owned: set<int>, out: seq<Range>, s: int)
    requires Between(owned, out, s)
    ensures Separated(out, s - 1)
  {
    forall i | 0 <= i < |out|
      ensures out[i].hi < s - 1
    {
      BelowMeaning(owned, s);
      InExpand(out, i);
    }
  }

  lemma {:induction false} InExpand(rs: seq<Range>, i: nat)
    requires i < |rs| && rs[i].lo <= rs[i].hi
    ensures rs[i].hi in Expand(rs)
    decreases |rs|
  {
    var n := |rs| - 1;
    if i < n {
      InExpand(rs[..n], i);
    } else {
      assert Span(rs[n].lo, rs[n].hi + 1)[rs[n].hi - rs[n].lo] == rs[n].hi;
    }
  }

  /** The maximal runs of owned slots: ascending, never adjacent, and together
      exactly the owned slots. */
  method Ranges(b: Bitmap) returns (out: seq<Range>)
    ensures Separated(out, SLOT_COUNT) && Expand(out) == Below(Slots(b), SLOT_COUNT)
  {
    out := [];
    var inRun, start := false, 0;
    ghost var owned := Slots(b);
    for s := 0 to SLOT_COUNT
      invariant if inRun then Inside(owned, out, start, s) else Between(owned, out, s)
    {
      Owns(b, s);
      if HasSlot(b, s) {
        if !inRun {
          BeginRun(owned, out, s);
          inRun, start := true, s;
        } else {
          StayInRun(owned, out, start, s);
        }
      } else if inRun {
        EndRun(owned, out, start, s);
        out := out + [Range(start, s - 1)];
        inRun := false;
      }
    }
    if inRun {
      EndRun(owned, out, start, SLOT_COUNT);
      out := out + [Range(start, SLOT_COUNT - 1)];
    }
  }
}
