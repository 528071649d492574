/** The quicklist: a list kept in pages, worked on through cursors. */
module QuickList {
  import opened Wrappers
  import opened Seqs

  const PAGE_SIZE: nat := 1024

  // ----- Sequence operations the list stands for -----

  /** Without the first `count` elements the predicate holds of. */
  function DropFirst<T>(l: seq<T>, hit: T -> bool, count: nat): seq<T>
    decreases |l|
  {
    if l == [] || count == 0 then l
    else if hit(l[0]) then DropFirst(l[1..], hit, count - 1)
    else [l[0]] + DropFirst(l[1..], hit, count)
  }

  /** Without the last `count` such elements. */
  function DropLast<T>(l: seq<T>, hit: T -> bool, count: nat): seq<T>
    decreases |l|
  {
    if l == [] || count == 0 then l
    else
      var n := |l| - 1;
      if hit(l[n]) then DropLast(l[..n], hit, count - 1)
      else DropLast(l[..n], hit, count) + [l[n]]
  }

  lemma {:induction false} ReversedSnoc<T>(l: seq<T>, x: T)
    ensures Reversed(l + [x]) == [x] + Reversed(l)
  {
    if l != [] {
      assert (l + [x])[1..] == l[1..] + [x];
      ReversedSnoc(l[1..], x);
    }
  }

  /** Dropping from the right is dropping from the left of the reversed list. */
  lemma {:induction false} DropLastMirrors<T>(l: seq<T>, hit: T -> bool, count: nat)
    ensures Reversed(DropLast(l, hit, count)) == DropFirst(Reversed(l), hit, count)
    decreases |l|
  {
    if l != [] && count > 0 {
      var n := |l| - 1;
      assert l == l[..n] + [l[n]];
      ReversedSnoc(l[..n], l[n]);
      var r := Reversed(l);
      assert r[0] == l[n] && r[1..] == Reversed(l[..n]);
      if hit(l[n]) {
        DropLastMirrors(l[..n], hit, count - 1);
      } else {
        DropLastMirrors(l[..n], hit, count);
        ReversedSnoc(DropLast(l[..n], hit, count), l[n]);
      }
    }
  }

  // ----- Pages -----

  lemma FlatPrefix<T>(ps: seq<seq<T>>, p: nat)
    requires p <= |ps|
    ensures p == 0 ==> Flat(ps[..p]) == []
    ensures p == |ps| ==> Flat(ps[..p]) == Flat(ps)
  {
    assert ps[..|ps|] == ps;
  }

  /** Page p replaced by other pages. */
  lemma FlatReplace<T>(ps: seq<seq<T>>, p: nat, mid: seq<seq<T>>)
    requires p < |ps|
    ensures Flat(ps[..p] + mid + ps[p + 1..]) == Flat(ps[..p]) + Flat(mid) + Flat(ps[p + 1..])
  {
    FlatConcat(ps[..p], mid);
    FlatConcat(ps[..p] + mid, ps[p + 1..]);
  }

  lemma FlatOne<T>(a: seq<T>)
    ensures Flat([a]) == a
  {
    assert [a][..0] == [];
  }

  lemma FlatTwo<T>(a: seq<T>, b: seq<T>)
    ensures Flat([a, b]) == a + b
  {
    assert [a, b][..1] == [a];
    FlatOne(a);
  }

  /** A place in a page; `off` is its length at the end of the list. */
  datatype Cursor = Cursor(page: nat, off: int)

  ghost predicate Paged<T>(ps: seq<seq<T>>)
  {
    forall p :: 0 <= p < |ps| ==> ps[p] != []
  }

  /** The cursor's index in the list. */
  ghost function Pos<T>(ps: seq<seq<T>>, c: Cursor): int
    requires c.page <= |ps|
  {
    |Flat(ps[..c.page])| + c.off
  }

  /** The cursor stands on element k, or behind the last one. */
  ghost predicate At<T>(ps: seq<seq<T>>, c: Cursor, k: nat)
  {
    && c.page < |ps| && Pos(ps, c) == k
    && 0 <= c.off <= |ps[c.page]| && (c.off == |ps[c.page]| ==> c.page == |ps| - 1)
  }

  lemma AtValue<T>(ps: seq<seq<T>>, c: Cursor, k: nat)
    requires At(ps, c, k)
    ensures k <= |Flat(ps)|
    ensures k == |Flat(ps)| <==> c.page == |ps| - 1 && c.off == |ps[c.page]|
    ensures k < |Flat(ps)| ==> c.off < |ps[c.page]| && ps[c.page][c.off] == Flat(ps)[k]
  {
    FlatAt(ps, c.page);
    assert c.page == |ps| - 1 ==> ps[c.page + 1..] == [];
  }

  class QuickList<T(0)> {
    var pages: seq<seq<T>>
    var size: nat

    ghost predicate Valid()
      reads this
    {
      Paged(pages) && size == |Flat(pages)|
    }

    ghost function Items(): seq<T>
      reads this
    {
      Flat(pages)
    }

    constructor ()
      ensures Valid() && Items() == []
    {
      pages, size := [], 0;
    }

    /** `full`: the last page has no spare capacity left. Pages may grow past
        PAGE_SIZE, as halves of a split page do. */
    method Add(val: T, full: bool)
      requires Valid()
      modifies this
      ensures Valid() && Items() == old(Items()) + [val]
    {
      var n := |pages|;
      if n == 0 || full {
        assert (pages + [[val]])[..n] == pages;
        pages := pages + [[val]];
      } else {
        var last := pages[n - 1] + [val];
        assert pages[n - 1 := last][..n - 1] == pages[..n - 1];
        pages := pages[n - 1 := last];
      }
      size := size + 1;
    }

    /** Walks from the nearer end. */
    method Find(index: int) returns (c: Cursor)
      requires Valid() && 0 <= index < |Items()|
      ensures At(pages, c, index) && c.off < |pages[c.page]|
    {
      var n, pageBeg: int;
      if index < size / 2 {
        n, pageBeg := 0, 0;
        while pageBeg + |pages[n]| <= index
          invariant 0 <= n < |pages| && pageBeg == |Flat(pages[..n])| <= index
          decreases |pages| - n
        {
          FlatAt(pages, n);
          FlatPrefix(pages, n + 1);
          pageBeg := pageBeg + |pages[n]|;
          n := n + 1;
        }
      } else {
        n := |pages| - 1;
        FlatAt(pages, n);
        assert pages[n + 1..] == [];
        pageBeg := size - |pages[n]|;
        while pageBeg > index
          invariant 0 <= n < |pages| && pageBeg == |Flat(pages[..n])|
          invariant index < pageBeg + |pages[n]|
          decreases n
        {
          FlatPrefix(pages, n);
          FlatAt(pages, n - 1);
          n := n - 1;
          pageBeg := pageBeg - |pages[n]|;
        }
      }
      c := Cursor(n, index - pageBeg);
    }

    method Get(index: int) returns (val: T)
      requires Valid() && 0 <= index < |Items()|
      ensures val == Items()[index]
    {
      var c := Find(index);
      AtValue(pages, c, index);
      return pages[c.page][c.off];
    }

    method Set(index: int, val: T)
      requires Valid() && 0 <= index < |Items()|
      modifies this
      ensures Valid() && Items() == old(Items())[index := val]
    {
      var c := Find(index);
      UpdateIn(pages, c.page, c.off, val);
      pages := pages[c.page := pages[c.page][c.off := val]];
    }

    method Insert(index: int, val: T, full: bool)
      requires Valid() && 0 <= index <= |Items()|
      modifies this
      ensures Valid() && Items() == old(Items()[..index] + [val] + Items()[index..])
    {
      if index == size {
        Add(val, full);
        return;
      }
      var c := Find(index);
      var mid := SplitInsert(pages[c.page], c.off, val);
      InsertInto(pages, c.page, mid, c.off, val);
      PagedReplace(pages, c.page, mid);
      pages := pages[..c.page] + mid + pages[c.page + 1..];
      size := size + 1;
    }

    /** Removes the element under the cursor; the cursor then stands on its successor. */
    method RemoveAt(c: Cursor, ghost k: nat) returns (val: T, c': Cursor)
      requires Valid() && At(pages, c, k) && k < |Items()|
      modifies this
      ensures Valid() && val == old(Items())[k] && Items() == old(Items()[..k] + Items()[k + 1..])
      ensures pages != [] ==> At(pages, c', k)
    {
      AtValue(pages, c, k);
      PagesAfterFlat(pages, c, k);
      PagesAfterPaged(pages, c);
      CursorAfterAt(pages, c, k);
      val := pages[c.page][c.off];
      c' := CursorAfter(pages, c);
      pages := PagesAfter(pages, c);
      size := size - 1;
    }

    method Remove(index: int) returns (val: T)
      requires Valid() && 0 <= index < |Items()|
      modifies this
      ensures Valid() && val == old(Items())[index] && Items() == old(Items()[..index] + Items()[index + 1..])
    {
      var c := Find(index);
      val, c := RemoveAt(c, index);
    }

    method RemoveLast() returns (r: Option<T>)
      requires Valid()
      modifies this
      ensures Valid()
      ensures old(Items()) == [] ==> r == None && Items() == []
      ensures old(Items()) != [] ==> r == Some(old(Items()[|Items()| - 1])) && Items() == old(Items()[..|Items()| - 1])
    {
      if size == 0 {
        return None;
      }
      var n := |pages| - 1;
      var last := pages[n];
      size := size - 1;
      if |last| == 1 {
        pages := pages[..n];
        return Some(last[0]);
      }
      assert pages[n := last[..|last| - 1]][..n] == pages[..n];
      pages := pages[n := last[..|last| - 1]];
      return Some(last[|last| - 1]);
    }

    method Next(c: Cursor, ghost k: nat) returns (c': Cursor)
      requires Valid() && At(pages, c, k) && k < |Items()|
      ensures At(pages, c', k + 1)
    {
      AtValue(pages, c, k);
      if c.off < |pages[c.page]| - 1 || c.page == |pages| - 1 {
        return c.(off := c.off + 1);
      }
      FlatAt(pages, c.page);
      return Cursor(c.page + 1, 0);
    }

    /** Back one element; in front of the first one the offset is -1. */
    method Prev(c: Cursor, ghost k: nat) returns (c': Cursor)
      requires Valid() && At(pages, c, k)
      ensures if k == 0 then c' == Cursor(0, -1) else At(pages, c', k - 1)
    {
      AtValue(pages, c, k);
      if c.off > 0 {
        return c.(off := c.off - 1);
      }
      if c.page == 0 {
        assert pages[..0] == [];
        return c.(off := -1);
      }
      FlatAt(pages, c.page - 1);
      return Cursor(c.page - 1, |pages[c.page - 1]| - 1);
    }

    /** Elements with index in [start, stop). */
    method Range(start: int, stop: int) returns (r: seq<T>)
      requires Valid() && 0 <= start < |Items()| && start <= stop <= |Items()|
      ensures r == Items()[start..stop]
    {
      var c := Find(start);
      r := [];
      for i := 0 to stop - start
        invariant At(pages, c, start + i) && r == Items()[start..start + i]
      {
        AtValue(pages, c, start + i);
        r := r + [pages[c.page][c.off]];
        c := Next(c, start + i);
      }
    }

    /** A count that is not positive sets no limit. */
    method RemoveByVal(hit: T -> bool, count: int) returns (removed: int)
      requires Valid()
      modifies this
      ensures Valid() && Items() == DropFirst(old(Items()), hit, if count > 0 then count else |old(Items())|)
      ensures removed == |old(Items())| - |Items()|
    {
      removed := 0;
      if size == 0 {
        return;
      }
      var c := Find(0);
      ghost var most := if count > 0 then count else |Items()|;
      ghost var k, goal := 0, Ahead(Items(), 0, hit, most);
      while pages != [] && !(c.page == |pages| - 1 && c.off == |pages[c.page]|)
        invariant Valid() && 0 <= k <= |Items()| && (pages != [] ==> At(pages, c, k))
        invariant 0 <= removed <= most && (count > 0 ==> removed < count) && removed == |old(Items())| - |Items()|
        invariant Ahead(Items(), k, hit, most - removed) == goal
        decreases |Items()| - k
      {
        var isHit;
        c, isHit := RemoveIf(c, hit, k);
        if isHit {
          removed := removed + 1;
          if removed == count {
            break;
          }
        } else {
          c := Next(c, k);
          k := k + 1;
        }
      }
      if pages != [] && removed != count {
        AtValue(pages, c, k);
      }
      AheadDrops(old(Items()), 0, hit, most);
    }

    /** Removes the element under the cursor if the predicate holds of it. */
    method RemoveIf(c: Cursor, hit: T -> bool, ghost k: nat) returns (c': Cursor, isHit: bool)
      requires Valid() && At(pages, c, k) && c.off < |pages[c.page]|
      modifies this
      ensures Valid() && k < |old(Items())| && isHit == hit(old(Items())[k])
      ensures isHit ==> Items() == old(Items()[..k] + Items()[k + 1..]) && (pages != [] ==> At(pages, c', k))
      ensures !isHit ==> Items() == old(Items()) && pages == old(pages) && c' == c
    {
      AtValue(pages, c, k);
      isHit := hit(pages[c.page][c.off]);
      c' := c;
      if isHit {
        var _, c1 := RemoveAt(c, k);
        c' := c1;
      }
    }

    /** One step back, also in a list that has just become empty. */
    method Back(c: Cursor, ghost k: nat) returns (c': Cursor)
      requires Valid() && if pages == [] then k == 0 else At(pages, c, k)
      ensures if k == 0 then c' == Cursor(0, -1) else At(pages, c', k - 1)
    {
      if pages == [] {
        return Cursor(0, -1);
      }
      c' := Prev(c, k);
    }

    method ReverseRemoveByVal(hit: T -> bool, count: int) returns (removed: int)
      requires Valid()
      modifies this
      ensures Valid() && Items() == DropLast(old(Items()), hit, if count > 0 then count else |old(Items())|)
      ensures removed == |old(Items())| - |Items()|
    {
      removed := 0;
      if size == 0 {
        return;
      }
      var c := Find(size - 1);
      ghost var most := if count > 0 then count else |Items()|;
      ghost var k: int, goal := size - 1, Behind(Items(), size, hit, most);
      while pages != [] && !(c.page == 0 && c.off == -1)
        invariant Valid() && -1 <= k < |old(Items())| && k <= |Items()|
        invariant if k == -1 then c == Cursor(0, -1) else k < |Items()| && At(pages, c, k)
        invariant 0 <= removed <= most && (count > 0 ==> removed < count) && removed == |old(Items())| - |Items()|
        invariant Behind(Items(), k + 1, hit, most - removed) == goal
        decreases k
      {
        AtValue(pages, c, k);
        var isHit;
        c, isHit := RemoveIf(c, hit, k);
        if isHit {
          removed := removed + 1;
          if removed == count {
            break;
          }
        }
        c := Back(c, k);
        k := k - 1;
      }
      BehindDrops(old(Items()), |old(Items())|, hit, most);
      assert old(Items())[..|old(Items())|] == old(Items());
    }
  }

  /** Going through the elements from k on. */
  ghost function Ahead<T>(l: seq<T>, k: nat, hit: T -> bool, count: nat): seq<T>
    requires k <= |l|
    decreases |l| - k
  {
    if k == |l| || count == 0 then l
    else if hit(l[k]) then Ahead(l[..k] + l[k + 1..], k, hit, count - 1)
    else Ahead(l, k + 1, hit, count)
  }

  /** Going through the elements before k from the right. */
  ghost function Behind<T>(l: seq<T>, k: nat, hit: T -> bool, count: nat): seq<T>
    requires k <= |l|
    decreases k
  {
    if k == 0 || count == 0 then l
    else if hit(l[k - 1]) then Behind(l[..k - 1] + l[k..], k - 1, hit, count - 1)
    else Behind(l, k - 1, hit, count)
  }

  lemma {:induction false} AheadDrops<T>(l: seq<T>, k: nat, hit: T -> bool, count: nat)
    requires k <= |l|
    ensures Ahead(l, k, hit, count) == l[..k] + DropFirst(l[k..], hit, count)
    decreases |l| - k
  {
    if k < |l| && count > 0 {
      assert l[k..][1..] == l[k + 1..];
      if hit(l[k]) {
        var l' := l[..k] + l[k + 1..];
        AheadDrops(l', k, hit, count - 1);
        assert l'[..k] == l[..k] && l'[k..] == l[k + 1..];
      } else {
        AheadDrops(l, k + 1, hit, count);
      }
    }
  }

  lemma {:induction false} BehindDrops<T>(l: seq<T>, k: nat, hit: T -> bool, count: nat)
    requires k <= |l|
    ensures Behind(l, k, hit, count) == DropLast(l[..k], hit, count) + l[k..]
    decreases k
  {
    if k > 0 && count > 0 {
      assert l[..k][..k - 1] == l[..k - 1];
      if hit(l[k - 1]) {
        var l' := l[..k - 1] + l[k..];
        BehindDrops(l', k - 1, hit, count - 1);
        assert l'[..k - 1] == l[..k - 1] && l'[k - 1..] == l[k..];
      } else {
        BehindDrops(l, k - 1, hit, count);
        assert l[k - 1..] == [l[k - 1]] + l[k..];
      }
    }
  }

  // ----- One page changed -----

  lemma Splice<T>(a: seq<T>, m: seq<T>, b: seq<T>, off: nat, val: T)
    requires off <= |m|
    ensures a + (m[..off] + [val] + m[off..]) + b == (a + m + b)[..|a| + off] + [val] + (a + m + b)[|a| + off..]
  {
  }

  lemma Excise<T>(a: seq<T>, m: seq<T>, b: seq<T>, off: nat)
    requires off < |m|
    ensures a + (m[..off] + m[off + 1..]) + b == (a + m + b)[..|a| + off] + (a + m + b)[|a| + off + 1..]
  {
  }

  lemma Overwrite<T>(a: seq<T>, m: seq<T>, b: seq<T>, off: nat, val: T)
    requires off < |m|
    ensures a + m[off := val] + b == (a + m + b)[|a| + off := val]
  {
  }

  lemma PagedReplace<T>(ps: seq<seq<T>>, p: nat, mid: seq<seq<T>>)
    requires p < |ps| && Paged(ps) && Paged(mid)
    ensures Paged(ps[..p] + mid + ps[p + 1..])
  {
  }

  lemma UpdateSplits<T>(l: seq<T>, i: nat, x: T)
    requires i < |l|
    ensures l[i := x] == l[..i] + [x] + l[i + 1..]
  {
  }

  lemma UpdateIn<T>(ps: seq<seq<T>>, p: nat, off: nat, val: T)
    requires p < |ps| && off < |ps[p]|
    ensures |Flat(ps[..p])| + off < |Flat(ps)|
    ensures Flat(ps[p := ps[p][off := val]]) == Flat(ps)[|Flat(ps[..p])| + off := val]
  {
    var a, m, b := Flat(ps[..p]), ps[p], Flat(ps[p + 1..]);
    var page := m[off := val];
    assert Flat(ps) == a + m + b by {
      FlatAt(ps, p);
    }
    assert Flat(ps[p := page]) == a + page + b by {
      UpdateSplits(ps, p, page);
      FlatReplace(ps, p, [page]);
      FlatOne(page);
    }
    Overwrite(a, m, b, off, val);
  }

  lemma InsertInto<T>(ps: seq<seq<T>>, p: nat, mid: seq<seq<T>>, off: nat, val: T)
    requires p < |ps| && off <= |ps[p]| && Flat(mid) == ps[p][..off] + [val] + ps[p][off..]
    ensures var k := |Flat(ps[..p])| + off;
            k <= |Flat(ps)| && Flat(ps[..p] + mid + ps[p + 1..]) == Flat(ps)[..k] + [val] + Flat(ps)[k..]
  {
    var a, m, b := Flat(ps[..p]), ps[p], Flat(ps[p + 1..]);
    assert Flat(ps) == a + m + b by {
      FlatAt(ps, p);
    }
    assert Flat(ps[..p] + mid + ps[p + 1..]) == a + (m[..off] + [val] + m[off..]) + b by {
      FlatReplace(ps, p, mid);
    }
    Splice(a, m, b, off, val);
  }

  /** Inserts into a page; a full one is split in two halves first. */
  method SplitInsert<T>(page: seq<T>, off: nat, val: T) returns (mid: seq<seq<T>>)
    requires off < |page|
    ensures Paged(mid) && Flat(mid) == page[..off] + [val] + page[off..]
  {
    InsertSplits(page, off, val);
    if |page| < PAGE_SIZE {
      return [page[..off] + [val] + page[off..]];
    }
    var half := PAGE_SIZE / 2;
    var a, b := page[..half], page[half..];
    if off < |a| {
      a := a[..off] + [val] + a[off..];
    } else {
      b := b[..off - half] + [val] + b[off - half..];
    }
    return [a, b];
  }

  /** Inserting into a page, or into one of its halves, is inserting into its contents. */
  lemma InsertSplits<T>(page: seq<T>, off: nat, val: T)
    requires off < |page|
    ensures var whole := page[..off] + [val] + page[off..];
            var half := PAGE_SIZE / 2;
            && Flat([whole]) == whole
            && (off < half <= |page| ==> Flat([page[..half][..off] + [val] + page[..half][off..], page[half..]]) == whole)
            && (half <= off ==>
                  Flat([page[..half], page[half..][..off - half] + [val] + page[half..][off - half..]]) == whole)
  {
    var whole := page[..off] + [val] + page[off..];
    var half := PAGE_SIZE / 2;
    FlatOne(whole);
    if off < half <= |page| {
      FlatTwo(page[..half][..off] + [val] + page[..half][off..], page[half..]);
      assert page[..half][..off] + [val] + page[..half][off..] + page[half..] == whole;
    } else if half <= off {
      FlatTwo(page[..half], page[half..][..off - half] + [val] + page[half..][off - half..]);
      assert page[..half] + (page[half..][..off - half] + [val] + page[half..][off - half..]) == whole;
    }
  }

  /** The page without the element at off, gone if that was its last. */
  function PageAfter<T>(page: seq<T>, off: nat): seq<seq<T>>
    requires off < |page|
  {
    if |page| == 1 then [] else [page[..off] + page[off + 1..]]
  }

  function PagesAfter<T>(ps: seq<seq<T>>, c: Cursor): seq<seq<T>>
    requires c.page < |ps| && 0 <= c.off < |ps[c.page]|
  {
    ps[..c.page] + PageAfter(ps[c.page], c.off) + ps[c.page + 1..]
  }

  /** The cursor moves to the next page when its page ends or goes, and to the
      end of the previous one when there is no next page. */
  function CursorAfter<T>(ps: seq<seq<T>>, c: Cursor): Cursor
    requires c.page < |ps| && 0 <= c.off < |ps[c.page]|
  {
    var last := c.page == |ps| - 1;
    if |ps[c.page]| > 1 then
      if c.off == |ps[c.page]| - 1 && !last then Cursor(c.page + 1, 0) else c
    else if !last then Cursor(c.page, 0)
    else if c.page > 0 then Cursor(c.page - 1, |ps[c.page - 1]|)
    else Cursor(0, 0)
  }

  lemma PageAfterFlat<T>(page: seq<T>, off: nat)
    requires off < |page|
    ensures Flat(PageAfter(page, off)) == page[..off] + page[off + 1..]
    ensures Paged(PageAfter(page, off))
  {
    FlatOne(page[..off] + page[off + 1..]);
  }

  lemma PagesAfterFlat<T>(ps: seq<seq<T>>, c: Cursor, k: nat)
    requires c.page < |ps| && 0 <= c.off < |ps[c.page]| && k == |Flat(ps[..c.page])| + c.off
    ensures k < |Flat(ps)|
    ensures Flat(PagesAfter(ps, c)) == Flat(ps)[..k] + Flat(ps)[k + 1..]
  {
    RemoveFrom(ps, c.page, c.off);
  }

  lemma PagesAfterPaged<T>(ps: seq<seq<T>>, c: Cursor)
    requires Paged(ps) && c.page < |ps| && 0 <= c.off < |ps[c.page]|
    ensures Paged(PagesAfter(ps, c))
  {
    PageAfterFlat(ps[c.page], c.off);
    PagedReplace(ps, c.page, PageAfter(ps[c.page], c.off));
  }

  lemma RemoveFrom<T>(ps: seq<seq<T>>, p: nat, off: nat)
    requires p < |ps| && off < |ps[p]|
    ensures var k := |Flat(ps[..p])| + off;
            k < |Flat(ps)| && Flat(ps[..p] + PageAfter(ps[p], off) + ps[p + 1..]) == Flat(ps)[..k] + Flat(ps)[k + 1..]
  {
    FlatAt(ps, p);
    FlatWithoutOne(ps, p, off);
    Excise(Flat(ps[..p]), ps[p], Flat(ps[p + 1..]), off);
  }

  lemma FlatWithoutOne<T>(ps: seq<seq<T>>, p: nat, off: nat)
    requires p < |ps| && off < |ps[p]|
    ensures Flat(ps[..p] + PageAfter(ps[p], off) + ps[p + 1..]) ==
            Flat(ps[..p]) + (ps[p][..off] + ps[p][off + 1..]) + Flat(ps[p + 1..])
  {
    PageAfterFlat(ps[p], off);
    FlatReplace(ps, p, PageAfter(ps[p], off));
  }

  /** Once the element under the cursor is gone, the cursor stands at its index. */
  lemma CursorAfterAt<T>(ps: seq<seq<T>>, c: Cursor, k: nat)
    requires Paged(ps) && At(ps, c, k) && c.off < |ps[c.page]|
    ensures PagesAfter(ps, c) != [] ==> At(PagesAfter(ps, c), CursorAfter(ps, c), k)
  {
    var ps' := PagesAfter(ps, c);
    assert ps'[..c.page] == ps[..c.page];
    if |ps[c.page]| > 1 {
      FlatAt(ps', c.page);
    } else if c.page > 0 {
      FlatAt(ps, c.page - 1);
      assert ps'[..c.page - 1] == ps[..c.page - 1];
    }
  }
}
