/** Sorted sets in listpack form: member-score pairs kept in insertion order and
    ranked by score, then member, on demand. */
module ZSetList {
  import opened Decimal
  import opened Seqs

  /** A float64 without its rounding. */
  datatype Score = NegInf | Num(value: real) | PosInf | NaN

  datatype Entry = Entry(member: Bytes, score: Score)

  // ----- The order -----

  function LexLess(a: Bytes, b: Bytes): bool
  {
    if b == [] then false
    else if a == [] then true
    else if a[0] != b[0] then a[0] < b[0]
    else LexLess(a[1..], b[1..])
  }

  lemma {:induction false} LexTotal(a: Bytes, b: Bytes)
    ensures a == b || LexLess(a, b) || LexLess(b, a)
    ensures !(LexLess(a, b) && LexLess(b, a))
    ensures !LexLess(a, a)
  {
    if a != [] && b != [] && a[0] == b[0] {
      LexTotal(a[1..], b[1..]);
      assert a == [a[0]] + a[1..] && b == [b[0]] + b[1..];
    }
    LexIrreflexive(a);
  }

  lemma {:induction false} LexIrreflexive(a: Bytes)
    ensures !LexLess(a, a)
  {
    if a != [] {
      LexIrreflexive(a[1..]);
    }
  }

  lemma {:induction false} LexTransitive(a: Bytes, b: Bytes, c: Bytes)
    requires LexLess(a, b) && LexLess(b, c)
    ensures LexLess(a, c)
  {
    if a != [] && a[0] == b[0] && b[0] == c[0] {
      LexTransitive(a[1..], b[1..], c[1..]);
    }
  }

  /** The < and == of floats: both are false as soon as one side is NaN. */
  predicate Below(a: Score, b: Score)
  {
    match (a, b)
    case (Num(x), Num(y)) => x < y
    case (NegInf, Num(_)) => true
    case (NegInf, PosInf) => true
    case (Num(_), PosInf) => true
    case _ => false
  }

  predicate Equal(a: Score, b: Score)
  {
    a == b && !a.NaN?
  }

  /** The comparison the entries are sorted by. */
  predicate Less(a: Entry, b: Entry)
  {
    if Equal(a.score, b.score) then LexLess(a.member, b.member) else Below(a.score, b.score)
  }

  lemma LessTransitive(a: Entry, b: Entry, c: Entry)
    requires Less(a, b) && Less(b, c)
    ensures Less(a, c)
  {
    if a.score == b.score == c.score && !a.score.NaN? {
      LexTransitive(a.member, b.member, c.member);
    }
  }

  lemma LessTotal(a: Entry, b: Entry)
    ensures !a.score.NaN? && !b.score.NaN? ==> a == b || Less(a, b) || Less(b, a)
    ensures !(Less(a, b) && Less(b, a))
    ensures Less(a, b) ==> !a.score.NaN? && !b.score.NaN?
  {
    LexTotal(a.member, b.member);
  }

  /** No score is NaN. */
  ghost predicate Comparable(es: seq<Entry>)
  {
    forall e :: e in es ==> !e.score.NaN?
  }

  // ----- Ranking -----

  ghost predicate Ranked(es: seq<Entry>)
  {
    forall i, j :: 0 <= i < j < |es| ==> Less(es[i], es[j])
  }

  ghost predicate Distinct(es: seq<Entry>)
  {
    forall i, j :: 0 <= i < j < |es| ==> es[i].member != es[j].member
  }

  function Place(es: seq<Entry>, e: Entry): seq<Entry>
  {
    if es == [] then [e] else if Less(e, es[0]) then [e] + es else [es[0]] + Place(es[1..], e)
  }

  /** The entries in order of score, then member; one of many orders if a score is NaN. */
  function Ranking(es: seq<Entry>): seq<Entry>
  {
    if es == [] then [] else Place(Ranking(es[..|es| - 1]), es[|es| - 1])
  }

  lemma {:induction false} PlaceKeeps(es: seq<Entry>, e: Entry)
    ensures multiset(Place(es, e)) == multiset(es) + multiset{e}
  {
    if es != [] {
      assert es == [es[0]] + es[1..];
      if !Less(e, es[0]) {
        PlaceKeeps(es[1..], e);
      }
    }
  }

  lemma {:induction false} PlaceMeaning(es: seq<Entry>, e: Entry)
    requires Ranked(es) && e !in es && Comparable(es) && !e.score.NaN?
    ensures Ranked(Place(es, e))
  {
    if es != [] {
      var rest := es[1..];
      assert es == [es[0]] + rest;
      assert es[0] in es;
      LessTotal(e, es[0]);
      if Less(e, es[0]) {
        forall i | 0 <= i < |es|
          ensures Less(e, es[i])
        {
          if i > 0 {
            LessTransitive(e, es[0], es[i]);
          }
        }
        RankedCons(e, es);
      } else {
        PlaceMeaning(rest, e);
        PlaceKeeps(rest, e);
        PlacedAbove(rest, e, es[0]);
        RankedCons(es[0], Place(rest, e));
      }
    }
  }

  lemma RankedCons(e: Entry, es: seq<Entry>)
    requires Ranked(es) && forall i :: 0 <= i < |es| ==> Less(e, es[i])
    ensures Ranked([e] + es)
  {
  }

  lemma PlacedAbove(rest: seq<Entry>, e: Entry, least: Entry)
    requires multiset(Place(rest, e)) == multiset(rest) + multiset{e}
    requires Less(least, e) && forall i :: 0 <= i < |rest| ==> Less(least, rest[i])
    ensures forall i :: 0 <= i < |Place(rest, e)| ==> Less(least, Place(rest, e)[i])
  {
    var r := Place(rest, e);
    forall i | 0 <= i < |r|
      ensures Less(least, r[i])
    {
      assert r[i] in multiset(r);
      assert r[i] in multiset(rest) ==> r[i] in rest;
    }
  }

  lemma {:induction false} RankingKeeps(es: seq<Entry>)
    ensures multiset(Ranking(es)) == multiset(es)
  {
    if es != [] {
      var n := |es| - 1;
      RankingKeeps(es[..n]);
      assert es == es[..n] + [es[n]];
      PlaceKeeps(Ranking(es[..n]), es[n]);
    }
  }

  lemma {:induction false} RankingMeaning(es: seq<Entry>)
    requires Distinct(es) && Comparable(es)
    ensures Ranked(Ranking(es)) && multiset(Ranking(es)) == multiset(es)
  {
    RankingKeeps(es);
    if es != [] {
      var n := |es| - 1;
      RankingMeaning(es[..n]);
      assert es == es[..n] + [es[n]];
      SameEntries(Ranking(es[..n]), es[..n]);
      assert es[n] !in es[..n];
      PlaceMeaning(Ranking(es[..n]), es[n]);
    }
  }

  lemma SameEntries(a: seq<Entry>, b: seq<Entry>)
    requires multiset(a) == multiset(b)
    ensures |a| == |b| && forall e :: e in a <==> e in b
  {
    assert |a| == |multiset(a)| == |multiset(b)|;
    assert forall e :: (e in a <==> e in multiset(a)) && (e in b <==> e in multiset(b));
  }

  /** Entries can be put in order exactly if no score is NaN, or there is only one. */
  lemma RankableIff(es: seq<Entry>)
    requires Distinct(es)
    ensures (exists r :: Ranked(r) && multiset(r) == multiset(es)) <==> Comparable(es) || |es| <= 1
  {
    if Comparable(es) {
      RankingMeaning(es);
    } else if |es| <= 1 {
      assert Ranked(es);
    }
    if r :| Ranked(r) && multiset(r) == multiset(es) {
      SameEntries(r, es);
      if |es| > 1 {
        RankedIsComparable(r);
      }
    }
  }

  lemma RankedIsComparable(r: seq<Entry>)
    requires Ranked(r) && |r| > 1
    ensures Comparable(r)
  {
    forall i | 0 <= i < |r|
      ensures !r[i].score.NaN?
    {
      if i == 0 {
        LessTotal(r[0], r[1]);
      } else {
        LessTotal(r[0], r[i]);
      }
    }
  }

  lemma FirstsAgree(a: seq<Entry>, b: seq<Entry>)
    requires Ranked(a) && Ranked(b) && |a| == |b| > 0 && forall e :: e in a <==> e in b
    ensures a[0] == b[0]
  {
    assert a[0] in a && b[0] in b;
    if |a| > 1 {
      RankedIsComparable(a);
      LessTotal(a[0], b[0]);
    }
  }

  /** Any way of sorting gives this ranking. */
  lemma {:induction false} RankingUnique(a: seq<Entry>, b: seq<Entry>)
    requires Ranked(a) && Ranked(b) && multiset(a) == multiset(b)
    ensures a == b
    decreases |a|
  {
    SameEntries(a, b);
    if a != [] {
      FirstsAgree(a, b);
      assert a == [a[0]] + a[1..] && b == [b[0]] + b[1..];
      assert multiset(a[1..]) == multiset(a) - multiset{a[0]};
      RankingUnique(a[1..], b[1..]);
    }
  }

  // ----- Removing members -----

  function Without(es: seq<Entry>, gone: set<Bytes>): seq<Entry>
  {
    if es == [] then []
    else
      var n := |es| - 1;
      if es[n].member in gone then Without(es[..n], gone) else Without(es[..n], gone) + [es[n]]
  }

  lemma {:induction false} WithoutIn(es: seq<Entry>, gone: set<Bytes>)
    ensures forall e :: e in Without(es, gone) <==> e in es && e.member !in gone
  {
    if es != [] {
      var n := |es| - 1;
      WithoutIn(es[..n], gone);
      assert es == es[..n] + [es[n]];
    }
  }

  lemma {:induction false} WithoutDistinct(es: seq<Entry>, gone: set<Bytes>)
    requires Distinct(es)
    ensures Distinct(Without(es, gone))
  {
    if es != [] {
      var n := |es| - 1;
      WithoutDistinct(es[..n], gone);
      WithoutIn(es[..n], gone);
      var w := Without(es[..n], gone);
      forall i | 0 <= i < |w|
        ensures w[i].member != es[n].member
      {
        assert w[i] in w;
      }
    }
  }

  lemma {:induction false} WithoutRanked(es: seq<Entry>, gone: set<Bytes>)
    requires Ranked(es)
    ensures Ranked(Without(es, gone))
  {
    if es != [] {
      var n := |es| - 1;
      WithoutRanked(es[..n], gone);
      WithoutIn(es[..n], gone);
      var w := Without(es[..n], gone);
      forall i | 0 <= i < |w|
        ensures Less(w[i], es[n])
      {
        assert w[i] in w;
      }
    }
  }

  lemma {:induction false} WithoutConcat(a: seq<Entry>, b: seq<Entry>, gone: set<Bytes>)
    ensures Without(a + b, gone) == Without(a, gone) + Without(b, gone)
    decreases |b|
  {
    if b == [] {
      assert a + b == a;
    } else {
      var n := |b| - 1;
      assert (a + b)[..|a| + n] == a + b[..n];
      WithoutConcat(a, b[..n], gone);
    }
  }

  lemma {:induction false} WithoutMultiset(a: seq<Entry>, gone: set<Bytes>, e: Entry)
    ensures multiset(Without(a, gone))[e] == if e.member in gone then 0 else multiset(a)[e]
  {
    if a != [] {
      var n := |a| - 1;
      WithoutMultiset(a[..n], gone, e);
      assert a == a[..n] + [a[n]];
    }
  }

  /** Removing members and ranking commute: what is left keeps its order. */
  lemma RankingWithout(es: seq<Entry>, gone: set<Bytes>)
    requires Distinct(es) && Comparable(es)
    ensures Ranking(Without(es, gone)) == Without(Ranking(es), gone)
  {
    var a, b := Ranking(Without(es, gone)), Without(Ranking(es), gone);
    RankingMeaning(es);
    WithoutDistinct(es, gone);
    WithoutIn(es, gone);
    RankingMeaning(Without(es, gone));
    WithoutRanked(Ranking(es), gone);
    WithoutKeeps(Ranking(es), es, gone);
    RankingUnique(a, b);
  }

  lemma WithoutKeeps(a: seq<Entry>, b: seq<Entry>, gone: set<Bytes>)
    requires multiset(a) == multiset(b)
    ensures multiset(Without(a, gone)) == multiset(Without(b, gone))
  {
    forall e
      ensures multiset(Without(a, gone))[e] == multiset(Without(b, gone))[e]
    {
      WithoutMultiset(a, gone, e);
      WithoutMultiset(b, gone, e);
    }
  }

  function Members(es: seq<Entry>): set<Bytes>
  {
    set e | e in es :: e.member
  }

  /** Removing the members of a stretch leaves what is around it. */
  lemma WithoutStretch(es: seq<Entry>, lo: nat, hi: nat)
    requires lo <= hi <= |es| && Distinct(es)
    ensures Without(es, Members(es[lo..hi])) == es[..lo] + es[hi..]
  {
    ThreeParts(es, lo, hi);
    BeforeStays(es, lo, hi);
    StretchGoes(es[lo..hi]);
    AfterStays(es, lo, hi);
    MiddleGoes(es[..lo], es[lo..hi], es[hi..], Members(es[lo..hi]));
  }

  lemma MiddleGoes(a: seq<Entry>, m: seq<Entry>, b: seq<Entry>, gone: set<Bytes>)
    requires Without(a, gone) == a && Without(m, gone) == [] && Without(b, gone) == b
    ensures Without(a + m + b, gone) == a + b
  {
    WithoutConcat(a + m, b, gone);
    WithoutConcat(a, m, gone);
    assert a + [] == a;
  }

  lemma BeforeStays(es: seq<Entry>, lo: nat, hi: nat)
    requires lo <= hi <= |es| && Distinct(es)
    ensures Without(es[..lo], Members(es[lo..hi])) == es[..lo]
  {
    OutsideStays(es, lo, hi, es[..lo], 0);
  }

  lemma AfterStays(es: seq<Entry>, lo: nat, hi: nat)
    requires lo <= hi <= |es| && Distinct(es)
    ensures Without(es[hi..], Members(es[lo..hi])) == es[hi..]
  {
    OutsideStays(es, lo, hi, es[hi..], hi);
  }

  /** A part that begins at `from` and lies outside the stretch keeps all its members. */
  lemma OutsideStays(es: seq<Entry>, lo: nat, hi: nat, part: seq<Entry>, from: nat)
    requires lo <= hi <= |es| && Distinct(es)
    requires from + |part| <= |es| && part == es[from..from + |part|] && (from + |part| <= lo || hi <= from)
    ensures Without(part, Members(es[lo..hi])) == part
  {
    var gone := Members(es[lo..hi]);
    forall i | 0 <= i < |part|
      ensures part[i].member !in gone
    {
      StretchMember(es, lo, hi, from + i);
    }
    WithoutNone(part, gone);
  }

  lemma StretchGoes(m: seq<Entry>)
    ensures Without(m, Members(m)) == []
  {
    forall i | 0 <= i < |m|
      ensures m[i].member in Members(m)
    {
      assert m[i] in m;
    }
    WithoutAll(m, Members(m));
  }

  lemma ThreeParts<T>(l: seq<T>, lo: nat, hi: nat)
    requires lo <= hi <= |l|
    ensures l == l[..lo] + l[lo..hi] + l[hi..]
  {
  }

  lemma StretchMember(es: seq<Entry>, lo: nat, hi: nat, i: nat)
    requires lo <= hi <= |es| && Distinct(es) && i < |es|
    ensures es[i].member in Members(es[lo..hi]) <==> lo <= i < hi
  {
    var m := es[lo..hi];
    if lo <= i < hi {
      assert m[i - lo] == es[i];
    }
    if es[i].member in Members(m) {
      var e :| e in m && e.member == es[i].member;
      var j :| 0 <= j < |m| && m[j] == e;
      assert es[lo + j] == e;
    }
  }

  lemma {:induction false} WithoutAll(es: seq<Entry>, gone: set<Bytes>)
    requires forall i :: 0 <= i < |es| ==> es[i].member in gone
    ensures Without(es, gone) == []
  {
    if es != [] {
      WithoutAll(es[..|es| - 1], gone);
    }
  }

  lemma {:induction false} WithoutNone(es: seq<Entry>, gone: set<Bytes>)
    requires forall i :: 0 <= i < |es| ==> es[i].member !in gone
    ensures Without(es, gone) == es
  {
    if es != [] {
      WithoutNone(es[..|es| - 1], gone);
    }
  }

  // ----- Ranks -----

  /** The place of a member in a ranking, or -1. */
  function RankIn(es: seq<Entry>, member: Bytes): (r: int)
    ensures -1 <= r < |es| && (r >= 0 ==> es[r].member == member)
    ensures r == -1 ==> forall i :: 0 <= i < |es| ==> es[i].member != member
  {
    if es == [] then -1
    else if es[|es| - 1].member == member then |es| - 1
    else RankIn(es[..|es| - 1], member)
  }

  /** Entries with rank in [start, stop), of a ranking in either direction. */
  function Slice(es: seq<Entry>, start: int, stop: int): seq<Entry>
  {
    var to := if stop > |es| then |es| else stop;
    if start < 0 || start >= |es| || to <= start then [] else es[start..to]
  }

  /** Descending ranks from start to stop are ascending ranks mirrored. */
  lemma {:induction false} SliceMirrors(es: seq<Entry>, start: int, stop: int, i: nat)
    requires 0 <= start && start + i < stop <= |es|
    ensures var desc, asc := Slice(Reversed(es), start, stop), Slice(es, |es| - stop, |es| - start);
            |desc| == |asc| == stop - start && desc[i] == asc[|asc| - 1 - i]
  {
  }

  /** An order the sort may leave: some permutation, and the ranking if the
      entries sorted could be compared. */
  ghost predicate SortedFrom(es: seq<Entry>, pairs: seq<Entry>, comparable: bool)
  {
    multiset(es) == multiset(pairs) && (comparable ==> es == Ranking(pairs))
  }

  lemma PermutationDistinct(es: seq<Entry>, pairs: seq<Entry>)
    requires Distinct(pairs) && multiset(es) == multiset(pairs)
    ensures Distinct(es)
  {
    SameEntries(es, pairs);
    forall i, j | 0 <= i < j < |es|
      ensures es[i].member != es[j].member
    {
      if es[i] == es[j] {
        Twice(es, i, j);
        OnlyOnce(pairs, es[i]);
        assert false;
      }
      MembersDiffer(pairs, es[i], es[j]);
    }
  }

  lemma Twice(es: seq<Entry>, i: nat, j: nat)
    requires i < j < |es| && es[i] == es[j]
    ensures multiset(es)[es[i]] >= 2
  {
    var a, b := es[..j], es[j..];
    assert es == a + b && a[i] == es[i] && b[0] == es[j];
    assert es[i] in a && es[i] in b;
    assert multiset(es) == multiset(a) + multiset(b);
    assert es[i] in multiset(a) && es[i] in multiset(b);
  }

  lemma {:induction false} OnlyOnce(es: seq<Entry>, e: Entry)
    requires Distinct(es)
    ensures multiset(es)[e] <= 1
  {
    if es != [] {
      var n := |es| - 1;
      OnlyOnce(es[..n], e);
      assert es == es[..n] + [es[n]];
      assert es[n] !in es[..n];
    }
  }

  lemma MembersDiffer(es: seq<Entry>, x: Entry, y: Entry)
    requires Distinct(es) && x in es && y in es && x != y
    ensures x.member != y.member
  {
    var a :| 0 <= a < |es| && es[a] == x;
    var b :| 0 <= b < |es| && es[b] == y;
  }

  /** Removing members leaves the others in the order they were in. */
  lemma SortedWithout(es: seq<Entry>, pairs: seq<Entry>, gone: set<Bytes>)
    requires Distinct(pairs) && SortedFrom(es, pairs, Comparable(pairs))
    ensures SortedFrom(Without(es, gone), Without(pairs, gone), Comparable(pairs))
  {
    WithoutKeeps(es, pairs, gone);
    if Comparable(pairs) {
      RankingWithout(pairs, gone);
    }
  }

  lemma RankUnique(es: seq<Entry>, member: Bytes)
    requires Distinct(es)
    ensures forall i :: 0 <= i < |es| && es[i].member == member ==> i == RankIn(es, member)
  {
  }

  /** The entries the borders admit, in order. */
  function Admitted(es: seq<Entry>, admits: Entry -> bool): seq<Entry>
  {
    if es == [] then []
    else
      var n := |es| - 1;
      if admits(es[n]) then Admitted(es[..n], admits) + [es[n]] else Admitted(es[..n], admits)
  }

  lemma {:induction false} AdmittedIn(es: seq<Entry>, admits: Entry -> bool)
    ensures forall e :: e in Admitted(es, admits) <==> e in es && admits(e)
  {
    if es != [] {
      var n := |es| - 1;
      AdmittedIn(es[..n], admits);
      assert es == es[..n] + [es[n]];
    }
  }

  /** With distinct members, being named is being admitted. */
  lemma NamedIsAdmitted(es: seq<Entry>, admits: Entry -> bool, e: Entry)
    requires Distinct(es) && e in es
    ensures e.member in Members(Admitted(es, admits)) <==> admits(e)
  {
    AdmittedIn(es, admits);
    if e.member in Members(Admitted(es, admits)) {
      var x :| x in Admitted(es, admits) && x.member == e.member;
      var i :| 0 <= i < |es| && es[i] == e;
      var j :| 0 <= j < |es| && es[j] == x;
    }
    if admits(e) {
      assert e in Admitted(es, admits);
    }
  }

  lemma {:induction false} AdmittedCount(es: seq<Entry>, admits: Entry -> bool, gone: set<Bytes>)
    requires forall i :: 0 <= i < |es| ==> (es[i].member in gone <==> admits(es[i]))
    ensures |Admitted(es, admits)| + |Without(es, gone)| == |es|
  {
    if es != [] {
      AdmittedCount(es[..|es| - 1], admits, gone);
    }
  }

  lemma AdmittedMeaning(pairs: seq<Entry>, es: seq<Entry>, admits: Entry -> bool)
    requires Distinct(pairs) && multiset(es) == multiset(pairs)
    ensures var gone := Members(Admitted(es, admits));
            && (forall e :: e in Without(pairs, gone) <==> e in pairs && !admits(e))
            && |Admitted(es, admits)| == |pairs| - |Without(pairs, gone)|
  {
    var gone := Members(Admitted(es, admits));
    PermutationDistinct(es, pairs);
    SameEntries(es, pairs);
    forall e | e in pairs
      ensures e.member in gone <==> admits(e)
    {
      NamedIsAdmitted(es, admits, e);
    }
    WithoutIn(pairs, gone);
    AdmittedCount(es, admits, gone);
    WithoutKeeps(es, pairs, gone);
    SameEntries(Without(es, gone), Without(pairs, gone));
  }

  class ZSet {
    var pairs: seq<Entry>

    ghost predicate Valid()
      reads this
    {
      Distinct(pairs)
    }

    method CollectSorted() returns (es: seq<Entry>)
      requires Valid()
      ensures SortedFrom(es, pairs, Comparable(pairs)) && Distinct(es) && |es| == |pairs|
    {
      es := [];
      for i := 0 to |pairs|
        invariant es == Ranking(pairs[..i])
      {
        assert pairs[..i + 1][..i] == pairs[..i];
        es := Place(es, pairs[i]);
      }
      assert pairs[..|pairs|] == pairs;
      RankingKeeps(pairs);
      SameEntries(es, pairs);
      PermutationDistinct(es, pairs);
    }

    /** The rank of a member in either direction, or -1. */
    method GetRank(member: Bytes, desc: bool) returns (r: int, ghost order: seq<Entry>)
      requires Valid()
      ensures SortedFrom(order, pairs, Comparable(pairs))
      ensures var i := RankIn(order, member);
              r == if i < 0 then -1 else if desc then |pairs| - 1 - i else i
    {
      var es := CollectSorted();
      order := es;
      RankUnique(es, member);
      if desc {
        var i := |es| - 1;
        while i >= 0
          invariant -1 <= i < |es| && forall j :: i < j < |es| ==> es[j].member != member
        {
          if es[i].member == member {
            return |es| - 1 - i, order;
          }
          i := i - 1;
        }
        return -1, order;
      }
      for i := 0 to |es|
        invariant forall j :: 0 <= j < i ==> es[j].member != member
      {
        if es[i].member == member {
          return i, order;
        }
      }
      return -1, order;
    }

    method RangeByRank(start: int, stop: int, desc: bool) returns (result: seq<Entry>, ghost order: seq<Entry>)
      requires Valid()
      ensures SortedFrom(order, pairs, Comparable(pairs))
      ensures result == Slice(if desc then Reversed(order) else order, start, stop)
    {
      var es := CollectSorted();
      order := es;
      var n := |es|;
      result := [];
      if start < 0 || start >= n {
        return;
      }
      var to := if stop > n then n else stop;
      if to <= start {
        return;
      }
      result := Window(es, start, to, desc);
    }

    /** Removes and returns the `count` lowest members; a negative count panics. */
    method PopMin(count: int) returns (result: seq<Entry>, crashed: bool, ghost order: seq<Entry>)
      requires Valid()
      modifies this
      ensures Valid() && crashed == (count < 0)
      ensures crashed ==> pairs == old(pairs)
      ensures SortedFrom(order, old(pairs), Comparable(old(pairs))) && |order| == |old(pairs)|
      ensures !crashed ==>
                var n := if count > |order| then |order| else count;
                result == order[..n] && SortedFrom(order[n..], pairs, Comparable(old(pairs)))
    {
      var es := CollectSorted();
      order := es;
      var n := if count > |es| then |es| else count;
      if n < 0 {
        return [], true, order;
      }
      RemoveStretch(es, 0, n);
      assert es[0..n] == es[..n] && es[..0] + es[n..] == es[n..];
      return es[..n], false, order;
    }

    /** Removes the members with rank in [start, stop). */
    method RemoveByRank(start: int, stop: int) returns (removed: int, ghost order: seq<Entry>)
      requires Valid()
      modifies this
      ensures Valid()
      ensures SortedFrom(order, old(pairs), Comparable(old(pairs))) && |order| == |old(pairs)|
      ensures var n := |order|;
              var lo, hi := if start < 0 then 0 else start, if stop > n then n else stop;
              if lo >= hi then removed == 0 && pairs == old(pairs)
              else removed == hi - lo && SortedFrom(order[..lo] + order[hi..], pairs, Comparable(old(pairs)))
    {
      var es := CollectSorted();
      order := es;
      var lo, hi := if start < 0 then 0 else start, if stop > |es| then |es| else stop;
      if lo >= hi {
        return 0, order;
      }
      RemoveStretch(es, lo, hi);
      return hi - lo, order;
    }

    /** Removes the members whose entries the borders admit. */
    method RemoveRange(admits: Entry -> bool) returns (removed: int, ghost order: seq<Entry>)
      requires Valid()
      modifies this
      ensures Valid() && removed == |old(pairs)| - |pairs|
      ensures forall e :: e in pairs <==> e in old(pairs) && !admits(e)
      ensures SortedFrom(order, old(pairs), Comparable(old(pairs)))
      ensures SortedFrom(Without(order, Members(Admitted(order, admits))), pairs, Comparable(old(pairs)))
    {
      var es := CollectSorted();
      order := es;
      var toRemove: seq<Entry> := [];
      for i := 0 to |es|
        invariant toRemove == Admitted(es[..i], admits)
      {
        assert es[..i + 1][..i] == es[..i];
        if admits(es[i]) {
          toRemove := toRemove + [es[i]];
        }
      }
      assert es[..|es|] == es;
      AdmittedMeaning(pairs, es, admits);
      removed := |toRemove|;
      RemoveMembers(es, Members(toRemove));
    }

    /** Rebuilds the listpack without the given members. */
    method RemoveMembers(ghost es: seq<Entry>, gone: set<Bytes>)
      requires Valid() && SortedFrom(es, pairs, Comparable(pairs))
      modifies this
      ensures Valid() && pairs == Without(old(pairs), gone)
      ensures SortedFrom(Without(es, gone), pairs, Comparable(old(pairs)))
    {
      WithoutDistinct(pairs, gone);
      SortedWithout(es, pairs, gone);
      pairs := KeepOthers(pairs, gone);
    }

    method RemoveStretch(es: seq<Entry>, lo: nat, hi: nat)
      requires Valid() && SortedFrom(es, pairs, Comparable(pairs)) && lo <= hi <= |es| && Distinct(es)
      modifies this
      ensures Valid() && SortedFrom(es[..lo] + es[hi..], pairs, Comparable(old(pairs)))
    {
      WithoutStretch(es, lo, hi);
      RemoveMembers(es, Members(es[lo..hi]));
    }
  }

  method KeepOthers(pairs: seq<Entry>, gone: set<Bytes>) returns (kept: seq<Entry>)
    ensures kept == Without(pairs, gone)
  {
    kept := [];
    for i := 0 to |pairs|
      invariant kept == Without(pairs[..i], gone)
    {
      assert pairs[..i + 1][..i] == pairs[..i];
      if pairs[i].member !in gone {
        kept := kept + [pairs[i]];
      }
    }
    assert pairs[..|pairs|] == pairs;
  }

  method Window(es: seq<Entry>, start: nat, to: nat, desc: bool) returns (result: seq<Entry>)
    requires start <= to <= |es|
    ensures result == (if desc then Reversed(es) else es)[start..to]
  {
    result := [];
    ghost var view := if desc then Reversed(es) else es;
    for i := start to to
      invariant result == view[start..i]
    {
      assert view[start..i] + [view[i]] == view[start..i + 1];
      result := result + [if desc then es[|es| - 1 - i] else es[i]];
    }
  }
}
