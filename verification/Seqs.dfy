/** Facts about sequences shared by the other modules. */
module Seqs {

  function Reversed<T>(s: seq<T>): (r: seq<T>)
    ensures |r| == |s|
    ensures forall i :: 0 <= i < |s| ==> r[i] == s[|s| - 1 - i]
  {
    if s == [] then [] else Reversed(s[1..]) + [s[0]]
  }

  lemma Regroup<T>(a: seq<T>, b: seq<T>, c: seq<T>)
    ensures a + (b + c) == a + b + c
  {
  }

  ghost predicate NoDup<T>(s: seq<T>)
  {
    forall i, j :: 0 <= i < j < |s| ==> s[i] != s[j]
  }

  /** All parts in a row. */
  function Flat<T>(ps: seq<seq<T>>): seq<T>
  {
    if ps == [] then [] else Flat(ps[..|ps| - 1]) + ps[|ps| - 1]
  }

  lemma {:induction false} FlatConcat<T>(a: seq<seq<T>>, b: seq<seq<T>>)
    ensures Flat(a + b) == Flat(a) + Flat(b)
    decreases |b|
  {
    if b == [] {
      assert a + b == a;
    } else {
      var n := |b| - 1;
      assert (a + b)[..|a| + n] == a + b[..n];
      FlatConcat(a, b[..n]);
    }
  }

  lemma TakeSnoc<T>(l: seq<T>, i: nat)
    requires i < |l|
    ensures l[..i] + [l[i]] == l[..i + 1]
  {
  }

  lemma FlatSnoc<T>(a: seq<seq<T>>, x: seq<T>)
    ensures Flat(a + [x]) == Flat(a) + x
  {
    assert (a + [x])[..|a|] == a;
  }

  lemma FlatSplit<T>(ps: seq<seq<T>>, p: nat)
    requires p <= |ps|
    ensures Flat(ps) == Flat(ps[..p]) + Flat(ps[p..])
  {
    assert ps == ps[..p] + ps[p..];
    FlatConcat(ps[..p], ps[p..]);
  }

  /** The parts before p, part p, and the parts after it. */
  lemma FlatAt<T>(ps: seq<seq<T>>, p: nat)
    requires p < |ps|
    ensures Flat(ps) == Flat(ps[..p]) + ps[p] + Flat(ps[p + 1..])
    ensures Flat(ps[..p + 1]) == Flat(ps[..p]) + ps[p]
  {
    TakeSnoc(ps, p);
    FlatSnoc(ps[..p], ps[p]);
    FlatSplit(ps, p + 1);
  }
}
