/** Ascending lists of integers and sort.Search on them. */
module SortedList {

  ghost predicate Ascending(l: seq<int>)
  {
    forall i, j :: 0 <= i < j < |l| ==> l[i] < l[j]
  }

  /** sort.Search between lo and hi, halving. */
  function SearchIn(l: seq<int>, v: int, lo: nat, hi: nat): (r: nat)
    requires lo <= hi <= |l|
    ensures lo <= r <= hi
    decreases hi - lo
  {
    if lo == hi then lo
    else
      var h := (lo + hi) / 2;
      if l[h] < v then SearchIn(l, v, h + 1, hi) else SearchIn(l, v, lo, h)
  }

  /** On an ascending list the search stops at the first element that is not smaller. */
  lemma {:induction false} SearchFinds(l: seq<int>, v: int, lo: nat, hi: nat)
    requires Ascending(l) && lo <= hi <= |l|
    requires forall i :: 0 <= i < lo ==> l[i] < v
    requires forall i :: hi <= i < |l| ==> l[i] >= v
    ensures forall i :: 0 <= i < SearchIn(l, v, lo, hi) ==> l[i] < v
    ensures forall i :: SearchIn(l, v, lo, hi) <= i < |l| ==> l[i] >= v
    decreases hi - lo
  {
    if lo < hi {
      var h := (lo + hi) / 2;
      if l[h] < v {
        SearchFinds(l, v, h + 1, hi);
      } else {
        SearchFinds(l, v, lo, h);
      }
    }
  }

  method Search(l: seq<int>, v: int) returns (i: nat)
    ensures i == SearchIn(l, v, 0, |l|)
  {
    var j := |l|;
    i := 0;
    while i < j
      invariant 0 <= i <= j <= |l|
      invariant SearchIn(l, v, i, j) == SearchIn(l, v, 0, |l|)
    {
      var h := (i + j) / 2;
      if l[h] < v {
        i := h + 1;
      } else {
        j := h;
      }
    }
  }

  function Insert(l: seq<int>, v: int): seq<int>
  {
    var i := SearchIn(l, v, 0, |l|);
    if i < |l| && l[i] == v then l else l[..i] + [v] + l[i..]
  }

  lemma InsertMeaning(l: seq<int>, v: int)
    requires Ascending(l)
    ensures Ascending(Insert(l, v))
    ensures forall x :: x in Insert(l, v) <==> x in l || x == v
  {
    SearchFinds(l, v, 0, |l|);
    var i := SearchIn(l, v, 0, |l|);
    if i == |l| || l[i] != v {
      PlaceAt(l, i, v);
    }
  }

  lemma PlaceAt(l: seq<int>, i: nat, v: int)
    requires Ascending(l) && i <= |l|
    requires (forall j :: 0 <= j < i ==> l[j] < v) && (forall j :: i <= j < |l| ==> v < l[j])
    ensures Ascending(l[..i] + [v] + l[i..])
    ensures forall x :: x in l[..i] + [v] + l[i..] <==> x in l || x == v
  {
    assert l == l[..i] + l[i..];
  }

  lemma DropAt(l: seq<int>, i: nat)
    requires Ascending(l) && i < |l|
    ensures Ascending(l[..i] + l[i + 1..])
    ensures forall x :: x in l[..i] + l[i + 1..] <==> x in l && x != l[i]
  {
    var r := l[..i] + l[i + 1..];
    forall x | x in l && x != l[i]
      ensures x in r
    {
      var j :| 0 <= j < |l| && l[j] == x;
      assert r[if j < i then j else j - 1] == x;
    }
  }
}
