/** The list object: one sequence of strings behind a listpack or a quicklist. */
module ListObject {
  import opened Wrappers
  import opened Decimal
  import opened Listpack
  import opened QuickList
  import opened Seqs

  ghost predicate AllStr(es: seq<Elem>)
  {
    forall i :: 0 <= i < |es| ==> es[i].Str?
  }

  ghost function Texts(es: seq<Elem>): (r: seq<Bytes>)
    requires AllStr(es)
    ensures |r| == |es|
  {
    seq(|es|, i requires 0 <= i < |es| => es[i].s)
  }

  /** The elements from i on whose index is not in `gone`. */
  ghost function KeepFrom<T>(l: seq<T>, i: nat, gone: set<int>): seq<T>
    requires i <= |l|
    decreases |l| - i
  {
    if i == |l| then []
    else if i in gone then KeepFrom(l, i + 1, gone)
    else [l[i]] + KeepFrom(l, i + 1, gone)
  }

  lemma {:induction false} KeepIgnores<T>(l: seq<T>, i: nat, gone: set<int>, x: int)
    requires i <= |l| && x < i
    ensures KeepFrom(l, i, gone + {x}) == KeepFrom(l, i, gone)
    decreases |l| - i
  {
    if i < |l| {
      KeepIgnores(l, i + 1, gone, x);
    }
  }

  /** The elements below i whose index is not in `gone`. */
  ghost function KeepTo<T>(l: seq<T>, i: nat, gone: set<int>): seq<T>
    requires i <= |l|
  {
    if i == 0 then [] else if i - 1 in gone then KeepTo(l, i - 1, gone) else KeepTo(l, i - 1, gone) + [l[i - 1]]
  }

  lemma {:induction false} KeepBoth<T>(l: seq<T>, i: nat, gone: set<int>)
    requires i <= |l|
    ensures KeepTo(l, i, gone) + KeepFrom(l, i, gone) == KeepFrom(l, 0, gone)
  {
    if i > 0 {
      KeepBoth(l, i - 1, gone);
      Regroup(KeepTo(l, i - 1, gone), [l[i - 1]], KeepFrom(l, i, gone));
    }
  }

  lemma KeepToMeets<T>(l: seq<T>, i: nat, gone: set<int>)
    requires i == |l|
    ensures KeepTo(l, i, gone) == KeepFrom(l, 0, gone)
  {
    KeepBoth(l, i, gone);
  }

  lemma {:induction false} KeepLength<T>(l: seq<T>, i: nat, gone: set<int>)
    requires i <= |l| && forall x :: x in gone ==> i <= x < |l|
    ensures |KeepFrom(l, i, gone)| == |l| - i - |gone|
    decreases |l| - i
  {
    if i == |l| {
      assert forall x :: x !in gone;
      assert gone == {};
    } else if i in gone {
      KeepLength(l, i + 1, gone - {i});
      KeepIgnores(l, i + 1, gone - {i}, i);
      assert gone - {i} + {i} == gone;
    } else {
      KeepLength(l, i + 1, gone);
    }
  }

  lemma {:induction false} KeepBelow<T>(l: seq<T>, i: nat, j: nat, gone: set<int>)
    requires i <= j <= |l| && forall x :: x in gone ==> x >= j
    ensures KeepFrom(l, i, gone) == l[i..j] + KeepFrom(l, j, gone)
    decreases j - i
  {
    if i < j {
      KeepBelow(l, i + 1, j, gone);
      SliceCons(l, i, j, KeepFrom(l, j, gone));
    }
  }

  lemma SliceCons<T>(l: seq<T>, i: nat, j: nat, rest: seq<T>)
    requires i < j <= |l|
    ensures l[i..j] + rest == [l[i]] + (l[i + 1..j] + rest)
  {
  }

  class List {
    var listpack: Listpack
    var quicklist: QuickList<Bytes>
    var isListpack: bool

    ghost predicate Valid()
      reads this, listpack, quicklist
    {
      if isListpack then listpack.Valid() && AllStr(listpack.elems) else quicklist.Valid()
    }

    ghost function Items(): seq<Bytes>
      requires Valid()
      reads this, listpack, quicklist
    {
      if isListpack then Texts(listpack.elems) else quicklist.Items()
    }

    constructor ()
      ensures Valid() && Items() == [] && fresh(listpack) && fresh(quicklist)
    {
      listpack := new Listpack();
      quicklist := new QuickList();
      isListpack := true;
    }

    method Len() returns (n: int)
      requires Valid()
      ensures n == |Items()|
    {
      return if isListpack then listpack.num else quicklist.size;
    }

    method Get(index: int) returns (r: Option<Bytes>)
      requires Valid()
      ensures r == if 0 <= index < |Items()| then Some(Items()[index]) else None
    {
      if isListpack {
        var e := listpack.Get(index);
        return if e.Some? then Some(e.value.s) else None;
      }
      if index < 0 || index >= quicklist.size {
        return None;
      }
      var v := quicklist.Get(index);
      return Some(v);
    }

    /** `max`: the configured listpack size; `full`: see QuickList.Add. */
    method Add(val: Bytes, max: int, full: bool)
      requires Valid() && |val| <= MAX_STR
      modifies this, listpack, quicklist
      ensures Valid() && fresh({listpack, quicklist} - old({listpack, quicklist}))
      ensures Items() == old(Items()) + [val]
    {
      if !isListpack {
        quicklist.Add(val, full);
        return;
      }
      listpack.Append(Str(val));
      assert Texts(listpack.elems) == old(Items()) + [val];
      if listpack.num > max {
        ConvertToQuicklist();
      }
    }

    method ConvertToQuicklist()
      requires Valid() && isListpack
      modifies this
      ensures Valid() && !isListpack && listpack == old(listpack) && fresh(quicklist)
      ensures Items() == old(Items())
    {
      var newQL := new QuickList<Bytes>();
      var es := listpack.Elements();
      for i := 0 to |es|
        invariant newQL.Valid() && newQL.Items() == Texts(es)[..i] && fresh(newQL)
        modifies newQL
      {
        var full := newQL.pages != [] && |newQL.pages[|newQL.pages| - 1]| == PAGE_SIZE;
        newQL.Add(es[i].s, full);
      }
      quicklist, isListpack := newQL, false;
    }

    /** An index out of range is ignored by a listpack; a quicklist panics. */
    method Insert(index: int, val: Bytes, max: int, full: bool) returns (crashed: bool)
      requires Valid() && |val| <= MAX_STR
      modifies this, listpack, quicklist
      ensures Valid() && fresh({listpack, quicklist} - old({listpack, quicklist}))
      ensures 0 <= index <= |old(Items())| ==> !crashed && Items() == old(Items()[..index] + [val] + Items()[index..])
      ensures !(0 <= index <= |old(Items())|) ==> crashed == !old(isListpack) && Items() == old(Items())
    {
      if !isListpack {
        if index < 0 || index > quicklist.size {
          return true;
        }
        quicklist.Insert(index, val, full);
        return false;
      }
      if index == listpack.num {
        Add(val, max, full);
        return false;
      }
      listpack := CopyWith(listpack, index, val);
      if listpack.num > max {
        ConvertToQuicklist();
      }
      return false;
    }

    method Remove(index: int) returns (r: Option<Bytes>, crashed: bool)
      requires Valid()
      modifies this, quicklist
      ensures Valid() && fresh({listpack, quicklist} - old({listpack, quicklist}))
      ensures 0 <= index < |old(Items())| ==>
                !crashed && r == Some(old(Items())[index]) && Items() == old(Items()[..index] + Items()[index + 1..])
      ensures !(0 <= index < |old(Items())|) ==> crashed == !old(isListpack) && Items() == old(Items()) && r == None
    {
      if !isListpack {
        if index < 0 || index >= quicklist.size {
          return None, true;
        }
        var v := quicklist.Remove(index);
        return Some(v), false;
      }
      if index < 0 || index >= listpack.num {
        return None, false;
      }
      var e;
      listpack, e := CopyWithout(listpack, index);
      return Some(e), false;
    }

    method RemoveLast() returns (r: Option<Bytes>)
      requires Valid()
      modifies this, quicklist
      ensures Valid() && fresh({listpack, quicklist} - old({listpack, quicklist}))
      ensures old(Items()) == [] ==> r == None && Items() == []
      ensures old(Items()) != [] ==> r == Some(old(Items()[|Items()| - 1])) && Items() == old(Items()[..|Items()| - 1])
    {
      if !isListpack {
        r := quicklist.RemoveLast();
        return;
      }
      if listpack.num == 0 {
        return None;
      }
      var e;
      listpack, e := CopyWithoutLast(listpack);
      return Some(e);
    }

    method Set(index: int, val: Bytes) returns (crashed: bool)
      requires Valid() && |val| <= MAX_STR
      modifies this, quicklist
      ensures Valid() && fresh({listpack, quicklist} - old({listpack, quicklist}))
      ensures 0 <= index < |old(Items())| ==> !crashed && Items() == old(Items())[index := val]
      ensures !(0 <= index < |old(Items())|) ==> crashed == !old(isListpack) && Items() == old(Items())
    {
      if !isListpack {
        if index < 0 || index >= quicklist.size {
          return true;
        }
        quicklist.Set(index, val);
        return false;
      }
      listpack := CopySetting(listpack, index, val);
      return false;
    }

    /** Elements with index in [start, stop): a listpack clamps the bounds, a
        quicklist panics on bounds out of range. */
    method Range(start: int, stop: int) returns (r: seq<Bytes>, crashed: bool)
      requires Valid()
      ensures 0 <= start <= stop <= |Items()| && start < |Items()| ==> !crashed && r == Items()[start..stop]
      ensures !(0 <= start <= stop <= |Items()| && start < |Items()|) ==> crashed == !isListpack
      ensures isListpack ==>
                var from, to := if start < 0 then 0 else start, if stop > |Items()| then |Items()| else stop;
                r == if from < to then Items()[from..to] else []
    {
      if !isListpack {
        if start < 0 || start >= quicklist.size || stop < start || stop > quicklist.size {
          return [], true;
        }
        r := quicklist.Range(start, stop);
        return r, false;
      }
      var from, to := if start < 0 then 0 else start, if stop > listpack.num then listpack.num else stop;
      if from >= to {
        return [], false;
      }
      r := Slice(listpack, from, to);
      return r, false;
    }

    /** How many removals `count` allows: one that is not positive allows none
        in a listpack and all in a quicklist. */
    ghost function Limit(count: int): nat
      requires Valid()
      reads this, listpack, quicklist
    {
      if count <= 0 && !isListpack then |Items()| else Allowed(count)
    }

    /** Removes the first `count` elements the predicate holds of. */
    method RemoveByVal(hit: Bytes -> bool, count: int) returns (removed: int)
      requires Valid()
      modifies this, quicklist
      ensures Valid() && fresh({listpack, quicklist} - old({listpack, quicklist}))
      ensures Items() == DropFirst(old(Items()), hit, old(Limit(count)))
      ensures removed == |old(Items())| - |Items()|
    {
      if !isListpack {
        removed := quicklist.RemoveByVal(hit, count);
        return;
      }
      listpack, removed := CopyDropping(listpack, hit, count);
    }

    /** Removes the last `count` such elements: picks their indices, then rebuilds. */
    method ReverseRemoveByVal(hit: Bytes -> bool, count: int) returns (removed: int)
      requires Valid()
      modifies this, quicklist
      ensures Valid() && fresh({listpack, quicklist} - old({listpack, quicklist}))
      ensures Items() == DropLast(old(Items()), hit, old(Limit(count)))
      ensures removed == |old(Items())| - |Items()|
    {
      if !isListpack {
        removed := quicklist.ReverseRemoveByVal(hit, count);
        return;
      }
      var gone;
      gone, removed := PickLast(listpack, hit, count, Flags(Texts(listpack.elems), hit));
      DropLastTexts(listpack.elems, hit, Allowed(count));
      listpack := CopyKeeping(listpack, gone);
    }
  }

  // ----- Rebuilding a listpack -----

  lemma Snoc(es: seq<Elem>, e: Elem)
    requires AllStr(es) && e.Str?
    ensures AllStr(es + [e]) && Texts(es + [e]) == Texts(es) + [e.s]
  {
  }

  /** With val in front of the element at index; unchanged if there is none. */
  method CopyWith(lp: Listpack, index: int, val: Bytes) returns (newLp: Listpack)
    requires lp.Valid() && AllStr(lp.elems) && index != |lp.elems| && |val| <= MAX_STR
    ensures fresh(newLp) && newLp.Valid() && AllStr(newLp.elems)
    ensures var l := Texts(lp.elems);
            Texts(newLp.elems) == if 0 <= index < |l| then l[..index] + [val] + l[index..] else l
  {
    InsertedTexts(lp.elems, index, val);
    InsertedAt(lp.elems, index, val);
    newLp := CopyInto(lp, index, val, Inserted(lp.elems, index, val));
  }

  /** The loop, against the element list it is to produce. */
  method CopyInto(lp: Listpack, index: int, val: Bytes, ghost goal: seq<Elem>) returns (newLp: Listpack)
    requires lp.Valid() && index != |lp.elems| && |val| <= MAX_STR
    requires |goal| == |lp.elems| + if 0 <= index < |lp.elems| then 1 else 0
    requires 0 <= index < |lp.elems| ==> goal[index] == Str(val)
    requires forall i :: 0 <= i < |lp.elems| ==> goal[if 0 <= index <= i then i + 1 else i] == lp.elems[i]
    ensures fresh(newLp) && newLp.Valid() && newLp.elems == goal
  {
    newLp := new Listpack();
    for i := 0 to lp.num
      invariant newLp.Valid() && fresh(newLp)
      invariant newLp.elems == goal[..if 0 <= index < i then i + 1 else i]
      modifies newLp
    {
      if i == index {
        TakeNext(goal, i, Str(val));
        newLp.Append(Str(val));
      }
      var e := lp.Get(i);
      assert e.value in lp.elems;
      TakeNext(goal, if 0 <= index <= i then i + 1 else i, e.value);
      newLp.Append(e.value);
    }
    assert goal[..|goal|] == goal;
  }

  lemma TakeNext(goal: seq<Elem>, j: nat, e: Elem)
    requires j < |goal| && goal[j] == e
    ensures goal[..j] + [e] == goal[..j + 1]
  {
  }

  ghost function Inserted(es: seq<Elem>, index: int, val: Bytes): seq<Elem>
  {
    if 0 <= index < |es| then es[..index] + [Str(val)] + es[index..] else es
  }

  lemma InsertedAt(es: seq<Elem>, index: int, val: Bytes)
    ensures |Inserted(es, index, val)| == |es| + if 0 <= index < |es| then 1 else 0
    ensures 0 <= index < |es| ==> Inserted(es, index, val)[index] == Str(val)
    ensures forall i :: 0 <= i < |es| ==> Inserted(es, index, val)[if 0 <= index <= i then i + 1 else i] == es[i]
  {
  }

  lemma InsertedTexts(es: seq<Elem>, index: int, val: Bytes)
    requires AllStr(es)
    ensures AllStr(Inserted(es, index, val))
    ensures var l := Texts(es);
            Texts(Inserted(es, index, val)) == if 0 <= index < |l| then l[..index] + [val] + l[index..] else l
  {
  }

  method CopyWithout(lp: Listpack, index: int) returns (newLp: Listpack, removed: Bytes)
    requires lp.Valid() && AllStr(lp.elems) && 0 <= index < |lp.elems|
    ensures fresh(newLp) && newLp.Valid() && AllStr(newLp.elems)
    ensures var l := Texts(lp.elems); Texts(newLp.elems) == l[..index] + l[index + 1..] && removed == l[index]
  {
    newLp := new Listpack();
    removed := [];
    ghost var goal := lp.elems[..index] + lp.elems[index + 1..];
    for i := 0 to lp.num
      invariant newLp.Valid() && fresh(newLp)
      invariant newLp.elems == goal[..if index < i then i - 1 else i]
      invariant index < i ==> removed == lp.elems[index].s
      modifies newLp
    {
      var e := lp.Get(i);
      assert e.value in lp.elems;
      if i == index {
        removed := e.value.s;
      } else {
        TakeNext(goal, if index < i then i - 1 else i, e.value);
        newLp.Append(e.value);
      }
    }
    WithoutTexts(lp.elems, index);
    assert goal[..|goal|] == goal;
  }

  lemma WithoutTexts(es: seq<Elem>, index: int)
    requires AllStr(es) && 0 <= index < |es|
    ensures AllStr(es[..index] + es[index + 1..])
    ensures var l := Texts(es); Texts(es[..index] + es[index + 1..]) == l[..index] + l[index + 1..]
  {
  }

  method CopyWithoutLast(lp: Listpack) returns (newLp: Listpack, removed: Bytes)
    requires lp.Valid() && AllStr(lp.elems) && lp.elems != []
    ensures fresh(newLp) && newLp.Valid() && AllStr(newLp.elems)
    ensures var l := Texts(lp.elems); Texts(newLp.elems) == l[..|l| - 1] && removed == l[|l| - 1]
  {
    newLp, removed := CopyWithout(lp, lp.num - 1);
    DropEnd(Texts(lp.elems));
  }

  lemma DropEnd<T>(l: seq<T>)
    requires l != []
    ensures l[..|l| - 1] + l[|l|..] == l[..|l| - 1]
  {
  }

  method CopySetting(lp: Listpack, index: int, val: Bytes) returns (newLp: Listpack)
    requires lp.Valid() && AllStr(lp.elems) && |val| <= MAX_STR
    ensures fresh(newLp) && newLp.Valid() && AllStr(newLp.elems)
    ensures var l := Texts(lp.elems); Texts(newLp.elems) == if 0 <= index < |l| then l[index := val] else l
  {
    newLp := new Listpack();
    ghost var goal := Updated(lp.elems, index, val);
    for i := 0 to lp.num
      invariant newLp.Valid() && fresh(newLp) && newLp.elems == goal[..i]
      modifies newLp
    {
      var e := lp.Get(i);
      assert e.value in lp.elems;
      TakeNext(goal, i, if i == index then Str(val) else e.value);
      newLp.Append(if i == index then Str(val) else e.value);
    }
    UpdatedTexts(lp.elems, index, val);
    assert goal[..|goal|] == goal;
  }

  ghost function Updated(es: seq<Elem>, index: int, val: Bytes): (r: seq<Elem>)
    ensures |r| == |es|
  {
    if 0 <= index < |es| then es[index := Str(val)] else es
  }

  lemma UpdatedTexts(es: seq<Elem>, index: int, val: Bytes)
    requires AllStr(es)
    ensures AllStr(Updated(es, index, val))
    ensures var l := Texts(es); Texts(Updated(es, index, val)) == if 0 <= index < |l| then l[index := val] else l
  {
  }

  method Slice(lp: Listpack, from: int, to: int) returns (r: seq<Bytes>)
    requires lp.Valid() && AllStr(lp.elems) && 0 <= from <= to <= |lp.elems|
    ensures r == Texts(lp.elems)[from..to]
  {
    r := [];
    ghost var l := Texts(lp.elems);
    for i := from to to
      invariant r == l[from..i]
    {
      var e := lp.Get(i);
      SliceSnoc(l, from, i);
      r := r + [e.value.s];
    }
  }

  lemma SliceSnoc<T>(l: seq<T>, from: nat, i: nat)
    requires from <= i < |l|
    ensures l[from..i] + [l[i]] == l[from..i + 1]
  {
  }

  function Allowed(count: int): nat
  {
    if count > 0 then count else 0
  }

  /** Which elements the predicate holds of. */
  ghost function Flags<T>(l: seq<T>, hit: T -> bool): (r: seq<bool>)
    ensures |r| == |l|
  {
    seq(|l|, i requires 0 <= i < |l| => hit(l[i]))
  }

  method CopyDropping(lp: Listpack, hit: Bytes -> bool, count: int) returns (newLp: Listpack, removed: int)
    requires lp.Valid() && AllStr(lp.elems)
    ensures fresh(newLp) && newLp.Valid() && AllStr(newLp.elems)
    ensures Texts(newLp.elems) == DropFirst(Texts(lp.elems), hit, Allowed(count))
    ensures removed == |lp.elems| - |newLp.elems|
  {
    ghost var flags := Flags(Texts(lp.elems), hit);
    newLp, removed := DropLoop(lp, hit, count, flags);
    DropFirstTexts(lp.elems, hit, Allowed(count));
    DropToLength(lp.elems, |lp.elems|, flags, Allowed(count));
  }

  method DropLoop(lp: Listpack, hit: Bytes -> bool, count: int, ghost flags: seq<bool>) returns (newLp: Listpack, removed: int)
    requires lp.Valid() && AllStr(lp.elems)
    requires |flags| == |lp.elems| && forall i :: 0 <= i < |flags| ==> flags[i] == hit(lp.elems[i].s)
    ensures fresh(newLp) && newLp.Valid() && newLp.elems == DropTo(lp.elems, |lp.elems|, flags, Allowed(count))
    ensures removed == Spent(flags, |flags|, Allowed(count))
  {
    newLp := new Listpack();
    removed := 0;
    for i := 0 to lp.num
      invariant newLp.Valid() && fresh(newLp)
      invariant removed == Spent(flags, i, Allowed(count))
      invariant newLp.elems == DropTo(lp.elems, i, flags, Allowed(count))
      modifies newLp
    {
      removed := DropOne(lp, newLp, i, hit, removed, count, flags[i]);
    }
  }

  /** The element at i is dropped or copied. */
  method DropOne(lp: Listpack, newLp: Listpack, i: nat, hit: Bytes -> bool, removed: int, count: int, ghost flag: bool)
    returns (removed': int)
    requires lp.Valid() && newLp.Valid() && newLp != lp && i < |lp.elems|
    requires lp.elems[i].Str? && flag == hit(lp.elems[i].s)
    modifies newLp
    ensures newLp.Valid()
    ensures if removed < count && flag then removed' == removed + 1 && newLp.elems == old(newLp.elems)
            else removed' == removed && newLp.elems == old(newLp.elems) + [lp.elems[i]]
  {
    var e := lp.Get(i);
    assert e.value in lp.elems;
    if removed < count && hit(e.value.s) {
      return removed + 1;
    }
    newLp.Append(e.value);
    return removed;
  }

  /** The indices of the last `count` elements the predicate holds of. */
  method PickLast(lp: Listpack, hit: Bytes -> bool, count: int, ghost flags: seq<bool>)
    returns (gone: set<int>, removed: int)
    requires lp.Valid() && AllStr(lp.elems)
    requires |flags| == |lp.elems| && forall i :: 0 <= i < |flags| ==> flags[i] == hit(lp.elems[i].s)
    ensures KeepFrom(lp.elems, 0, gone) == DropUpTo(lp.elems, |lp.elems|, flags, Allowed(count))
    ensures removed == |lp.elems| - |DropUpTo(lp.elems, |lp.elems|, flags, Allowed(count))|
  {
    gone, removed := {}, 0;
    ghost var es := lp.elems;
    var i := lp.num;
    ghost var most := Allowed(count);
    PickStart(es, flags, most);
    while i > 0 && removed < count
      invariant 0 <= i <= |es| && 0 <= removed <= most && |gone| == removed
      invariant Picking(es, i, flags, most, most - removed, gone)
    {
      var e := lp.Get(i - 1);
      PickNext(es, i, flags, most, most - removed, gone);
      i := i - 1;
      if hit(e.value.s) {
        gone, removed := gone + {i}, removed + 1;
      }
    }
    PickEnd(es, i, flags, most, most - removed, gone);
  }

  /** Down to index i: `gone` has been picked, `n` more may be. */
  ghost predicate Picking<T(!new)>(l: seq<T>, i: nat, flags: seq<bool>, count: nat, n: nat, gone: set<int>)
  {
    && i <= |l| == |flags| && (forall x :: x in gone ==> i <= x < |l|)
    && DropUpTo(l, i, flags, n) + KeepFrom(l, i, gone) == DropUpTo(l, |l|, flags, count)
  }

  lemma PickNext<T(!new)>(l: seq<T>, i: nat, flags: seq<bool>, count: nat, n: nat, gone: set<int>)
    requires 0 < i && n > 0 && Picking(l, i, flags, count, n, gone)
    ensures flags[i - 1] ==> Picking(l, i - 1, flags, count, n - 1, gone + {i - 1}) && |gone + {i - 1}| == |gone| + 1
    ensures !flags[i - 1] ==> Picking(l, i - 1, flags, count, n, gone)
  {
    PickStep(l, i, flags, n, gone);
  }

  lemma PickStart<T(!new)>(l: seq<T>, flags: seq<bool>, count: nat)
    requires |flags| == |l|
    ensures Picking(l, |l|, flags, count, count, {})
  {
  }

  lemma PickEnd<T(!new)>(l: seq<T>, i: nat, flags: seq<bool>, count: nat, n: nat, gone: set<int>)
    requires Picking(l, i, flags, count, n, gone) && (i == 0 || n == 0)
    ensures KeepFrom(l, 0, gone) == DropUpTo(l, |l|, flags, count)
    ensures |KeepFrom(l, 0, gone)| == |l| - |gone|
  {
    KeepBelow(l, 0, i, gone);
    KeepLength(l, 0, gone);
  }

  method CopyKeeping(lp: Listpack, gone: set<int>) returns (newLp: Listpack)
    requires lp.Valid()
    ensures fresh(newLp) && newLp.Valid() && newLp.elems == KeepFrom(lp.elems, 0, gone)
  {
    newLp := new Listpack();
    for i := 0 to lp.num
      invariant newLp.Valid() && fresh(newLp)
      invariant newLp.elems == KeepTo(lp.elems, i, gone)
      modifies newLp
    {
      if i !in gone {
        var e := lp.Get(i);
        assert e.value in lp.elems;
        newLp.Append(e.value);
      }
    }
    KeepToMeets(lp.elems, lp.num, gone);
  }

  lemma DropFirstTexts(es: seq<Elem>, hit: Bytes -> bool, n: nat)
    requires AllStr(es)
    ensures var r := DropTo(es, |es|, Flags(Texts(es), hit), n);
            AllStr(r) && Texts(r) == DropFirst(Texts(es), hit, n)
  {
    DropToTexts(es, |es|, Flags(Texts(es), hit), n);
    DropToHits(Texts(es), |es|, hit, n);
  }

  lemma DropLastTexts(es: seq<Elem>, hit: Bytes -> bool, n: nat)
    requires AllStr(es)
    ensures var r := DropUpTo(es, |es|, Flags(Texts(es), hit), n);
            AllStr(r) && Texts(r) == DropLast(Texts(es), hit, n)
  {
    DropUpToTexts(es, |es|, Flags(Texts(es), hit), n);
    DropUpToHits(Texts(es), |es|, hit, n);
    assert Texts(es)[..|es|] == Texts(es);
  }

  lemma {:induction false} DropToTexts(es: seq<Elem>, i: nat, flags: seq<bool>, n: nat)
    requires AllStr(es) && i <= |es| == |flags|
    ensures AllStr(DropTo(es, i, flags, n)) && Texts(DropTo(es, i, flags, n)) == DropTo(Texts(es), i, flags, n)
  {
    if i > 0 {
      DropToTexts(es, i - 1, flags, n);
      Snoc(DropTo(es, i - 1, flags, n), es[i - 1]);
    }
  }

  lemma {:induction false} DropUpToTexts(es: seq<Elem>, i: nat, flags: seq<bool>, n: nat)
    requires AllStr(es) && i <= |es| == |flags|
    ensures AllStr(DropUpTo(es, i, flags, n)) && Texts(DropUpTo(es, i, flags, n)) == DropUpTo(Texts(es), i, flags, n)
  {
    if i == 0 || n == 0 {
      assert Texts(es[..i]) == Texts(es)[..i];
    } else {
      var n' := if flags[i - 1] then n - 1 else n;
      DropUpToTexts(es, i - 1, flags, n');
      Snoc(DropUpTo(es, i - 1, flags, n'), es[i - 1]);
    }
  }

  // ----- Dropping by index -----

  /** How many of the n removals the flags below i have used up. */
  ghost function Spent(flags: seq<bool>, i: nat, n: nat): (r: nat)
    requires i <= |flags|
    ensures r <= n
  {
    if i == 0 then 0
    else
      var r := Spent(flags, i - 1, n);
      if r < n && flags[i - 1] then r + 1 else r
  }

  /** The elements below i without the first n flagged ones. */
  ghost function DropTo<T>(l: seq<T>, i: nat, flags: seq<bool>, n: nat): seq<T>
    requires i <= |l| == |flags|
  {
    if i == 0 then []
    else if Spent(flags, i - 1, n) < n && flags[i - 1] then DropTo(l, i - 1, flags, n)
    else DropTo(l, i - 1, flags, n) + [l[i - 1]]
  }

  lemma {:induction false} DropToLength<T>(l: seq<T>, i: nat, flags: seq<bool>, n: nat)
    requires i <= |l| == |flags|
    ensures |DropTo(l, i, flags, n)| + Spent(flags, i, n) == i
  {
    if i > 0 {
      DropToLength(l, i - 1, flags, n);
    }
  }

  /** The elements below i without the last n flagged ones. */
  ghost function DropUpTo<T>(l: seq<T>, i: nat, flags: seq<bool>, n: nat): seq<T>
    requires i <= |l| == |flags|
  {
    if i == 0 || n == 0 then l[..i]
    else if flags[i - 1] then DropUpTo(l, i - 1, flags, n - 1)
    else DropUpTo(l, i - 1, flags, n) + [l[i - 1]]
  }

  lemma PickStep<T>(l: seq<T>, i: nat, flags: seq<bool>, n: nat, gone: set<int>)
    requires 0 < i <= |l| == |flags| && n > 0 && i - 1 !in gone
    ensures DropUpTo(l, i, flags, n) + KeepFrom(l, i, gone) ==
            if flags[i - 1] then DropUpTo(l, i - 1, flags, n - 1) + KeepFrom(l, i - 1, gone + {i - 1})
            else DropUpTo(l, i - 1, flags, n) + KeepFrom(l, i - 1, gone)
  {
    KeepIgnores(l, i, gone, i - 1);
    Regroup(DropUpTo(l, i - 1, flags, n), [l[i - 1]], KeepFrom(l, i, gone));
  }

  lemma {:induction false} DropToRest<T>(l: seq<T>, i: nat, hit: T -> bool, n: nat)
    requires i <= |l|
    ensures DropTo(l, i, Flags(l, hit), n) + DropFirst(l[i..], hit, n - Spent(Flags(l, hit), i, n)) == DropFirst(l, hit, n)
  {
    if i == 0 {
      assert l[0..] == l;
    } else {
      DropToRest(l, i - 1, hit, n);
      assert l[i - 1..][1..] == l[i..] && l[i - 1..] == [l[i - 1]] + l[i..];
      Regroup(DropTo(l, i - 1, Flags(l, hit), n), [l[i - 1]], DropFirst(l[i..], hit, n - Spent(Flags(l, hit), i, n)));
    }
  }

  lemma DropToHits<T>(l: seq<T>, i: nat, hit: T -> bool, n: nat)
    requires i == |l|
    ensures DropTo(l, i, Flags(l, hit), n) == DropFirst(l, hit, n)
  {
    DropToRest(l, i, hit, n);
    assert l[i..] == [];
  }

  lemma {:induction false} DropUpToHits<T>(l: seq<T>, i: nat, hit: T -> bool, n: nat)
    requires i <= |l|
    ensures DropUpTo(l, i, Flags(l, hit), n) == DropLast(l[..i], hit, n)
    decreases i
  {
    if i > 0 && n > 0 {
      assert l[..i][..i - 1] == l[..i - 1];
      DropUpToHits(l, i - 1, hit, if hit(l[i - 1]) then n - 1 else n);
    }
  }
}
