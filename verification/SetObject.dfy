/** The set object: one mathematical set of strings behind three encodings. */
module SetObject {
  import opened Decimal
  import opened SortedList
  import opened Listpack

  // ----- Intset -----

  predicate Fits(v: int, width: int)
  {
    if width == 16 then -32768 <= v <= 32767
    else if width == 32 then -2147483648 <= v <= 2147483647
    else MIN_INT64 <= v <= MAX_INT64
  }

  class Intset {
    var data: seq<int>
    var width: int

    ghost predicate Valid()
      reads this
    {
      && Ascending(data) && (width == 16 || width == 32 || width == 64)
      && forall v :: v in data ==> Fits(v, width)
    }

    constructor ()
      ensures Valid() && data == []
    {
      data, width := [], 16;
    }

    method Contains(v: int) returns (r: bool)
      requires Valid()
      ensures r == (v in data)
    {
      if |data| == 0 {
        return false;
      }
      SearchFinds(data, v, 0, |data|);
      var i := Search(data, v);
      return i < |data| && data[i] == v;
    }

    method Add(v: int) returns (added: bool)
      requires Valid() && MIN_INT64 <= v <= MAX_INT64
      modifies this
      ensures Valid() && added == (v !in old(data))
      ensures forall x :: x in data <==> x in old(data) || x == v
      ensures |data| == |old(data)| + if added then 1 else 0
    {
      SearchFinds(data, v, 0, |data|);
      InsertMeaning(data, v);
      var i := Search(data, v);
      if i < |data| && data[i] == v {
        return false;
      }
      UpdateWidth(v);
      data := data[..i] + [v] + data[i..];
      return true;
    }

    /** Widens as far as v needs and no further; every width holds 16 bits. */
    method UpdateWidth(v: int)
      requires Valid() && MIN_INT64 <= v <= MAX_INT64
      modifies `width
      ensures Valid() && Fits(v, width) && width >= old(width)
      ensures width > old(width) ==> !Fits(v, old(width)) && (width == 64 ==> !Fits(v, 32))
    {
      if v < -2147483648 || v > 2147483647 {
        width := 64;
      } else if v < -32768 || v > 32767 {
        if width < 32 {
          width := 32;
        }
      }
    }

    method Remove(v: int) returns (removed: bool)
      requires Valid()
      modifies `data
      ensures Valid() && removed == (v in old(data))
      ensures forall x :: x in data <==> x in old(data) && x != v
    {
      if |data| == 0 {
        return false;
      }
      SearchFinds(data, v, 0, |data|);
      var i := Search(data, v);
      if i >= |data| || data[i] != v {
        return false;
      }
      DropAt(data, i);
      data := data[..i] + data[i + 1..];
      return true;
    }
  }

  // ----- Members of each encoding -----

  ghost function Formats(data: seq<int>): set<Bytes>
  {
    set v | v in data :: Format(v)
  }

  ghost function Strs(es: seq<Elem>): set<Bytes>
  {
    set e | e in es && e.Str? :: e.s
  }

  /** Strings only, none twice. */
  ghost predicate Distinct(es: seq<Elem>)
  {
    && (forall i :: 0 <= i < |es| ==> es[i].Str?)
    && (forall i, j :: 0 <= i < j < |es| ==> es[i].s != es[j].s)
  }

  lemma FormatsHas(data: seq<int>, v: int)
    ensures Format(v) in Formats(data) <==> v in data
  {
    if Format(v) in Formats(data) {
      var w :| w in data && Format(w) == Format(v);
      FormatInjective(w, v);
    }
  }

  lemma {:induction false} FormatsSize(data: seq<int>)
    requires Ascending(data)
    ensures |Formats(data)| == |data|
  {
    if data != [] {
      var n := |data| - 1;
      FormatsSize(data[..n]);
      FormatsHas(data[..n], data[n]);
      assert data == data[..n] + [data[n]];
      assert Formats(data) == Formats(data[..n]) + {Format(data[n])};
    }
  }

  lemma StrsAppend(es: seq<Elem>, s: Bytes)
    ensures Strs(es + [Str(s)]) == Strs(es) + {s}
    ensures Distinct(es) && s !in Strs(es) ==> Distinct(es + [Str(s)])
  {
    var es' := es + [Str(s)];
    assert es'[|es|] == Str(s);
    forall x | x in Strs(es) + {s}
      ensures x in Strs(es')
    {
      assert Str(x) in es';
    }
    assert forall i :: 0 <= i < |es| && es[i].Str? ==> es[i].s in Strs(es);
  }

  lemma {:induction false} StrsSize(es: seq<Elem>)
    requires Distinct(es)
    ensures |Strs(es)| == |es|
  {
    if es != [] {
      var n := |es| - 1;
      StrsSize(es[..n]);
      StrsMore(es, n);
      assert es[..n + 1] == es;
    }
  }

  // ----- The set -----

  datatype Encoding = IntsetEnc | ListpackEnc | HashtableEnc

  /** The configured limits in force at a call. */
  datatype Thresholds = Thresholds(maxIntset: int, maxListpack: int, maxValue: int)

  class Set {
    var intset: Intset
    var listpack: Listpack
    var table: set<Bytes>
    var encoding: Encoding

    /** Only the part the encoding names is in use. */
    ghost predicate Valid()
      reads this, intset, listpack
    {
      match encoding
      case IntsetEnc => intset.Valid() && MIN_INT64 !in intset.data
      case ListpackEnc => listpack.Valid() && Distinct(listpack.elems)
      case HashtableEnc => true
    }

    ghost function Members(): set<Bytes>
      reads this, intset, listpack
    {
      match encoding
      case IntsetEnc => Formats(intset.data)
      case ListpackEnc => Strs(listpack.elems)
      case HashtableEnc => table
    }

    constructor ()
      ensures Valid() && Members() == {} && fresh(intset) && fresh(listpack)
    {
      intset := new Intset();
      listpack := new Listpack();
      table, encoding := {}, IntsetEnc;
    }

    method Add(member: Bytes, t: Thresholds) returns (r: int)
      requires Valid() && |member| <= MAX_STR
      modifies this, intset, listpack
      ensures Valid() && fresh({intset, listpack} - old({intset, listpack}))
      ensures Members() == old(Members()) + {member}
      ensures r == if member in old(Members()) then 0 else 1
    {
      if encoding == IntsetEnc {
        var v, ok := IsInt(member);
        if ok {
          r := AddInt(v, t);
          return;
        }
        NotAnInt(member, intset.data);
        ConvertToListpack();
      }
      if encoding == ListpackEnc {
        r := AddStr(member, t);
        return;
      }
      r := if member in table then 0 else 1;
      table := table + {member};
    }

    method AddInt(v: Int64, t: Thresholds) returns (r: int)
      requires Valid() && encoding == IntsetEnc && v != MIN_INT64
      modifies this, intset
      ensures Valid() && intset == old(intset) && fresh({listpack} - {old(listpack)})
      ensures Members() == old(Members()) + {Format(v)}
      ensures r == if Format(v) in old(Members()) then 0 else 1
    {
      ghost var data := intset.data;
      FormatsHas(data, v);
      var added := intset.Add(v);
      FormatsAdd(data, intset.data, v);
      if !added {
        return 0;
      }
      if |intset.data| > t.maxIntset {
        ConvertToListpack();
        if listpack.num > t.maxListpack {
          ConvertToHashtable();
        }
      }
      return 1;
    }

    method AddStr(member: Bytes, t: Thresholds) returns (r: int)
      requires Valid() && encoding == ListpackEnc && |member| <= MAX_STR
      modifies this, listpack
      ensures Valid() && intset == old(intset) && listpack == old(listpack)
      ensures Members() == old(Members()) + {member}
      ensures r == if member in old(Members()) then 0 else 1
    {
      var found := HasStr(member);
      if found {
        return 0;
      }
      if |member| > t.maxValue {
        ConvertToHashtable();
        table := table + {member};
        return 1;
      }
      StrsAppend(listpack.elems, member);
      listpack.Append(Str(member));
      if listpack.num > t.maxListpack {
        ConvertToHashtable();
      }
      return 1;
    }

    method Has(member: Bytes) returns (r: bool)
      requires Valid()
      ensures r == (member in Members())
    {
      if encoding == IntsetEnc {
        var v, ok := IsInt(member);
        if ok {
          FormatsHas(intset.data, v);
          r := intset.Contains(v);
          return;
        }
        NotAnInt(member, intset.data);
        return false;
      }
      if encoding == ListpackEnc {
        r := HasStr(member);
        return;
      }
      return member in table;
    }

    method HasStr(member: Bytes) returns (found: bool)
      requires Valid() && encoding == ListpackEnc
      ensures found == (member in Members())
    {
      var es := listpack.Elements();
      for i := 0 to |es|
        invariant forall j :: 0 <= j < i ==> es[j] != Str(member)
      {
        if es[i] == Str(member) {
          return true;
        }
      }
      return false;
    }

    method Remove(member: Bytes) returns (r: int)
      requires Valid()
      modifies this, intset
      ensures Valid() && intset == old(intset) && fresh({listpack} - {old(listpack)})
      ensures Members() == old(Members()) - {member}
      ensures r == if member in old(Members()) then 1 else 0
    {
      if encoding == IntsetEnc {
        var v, ok := IsInt(member);
        if ok {
          r := RemoveInt(v);
          return;
        }
        NotAnInt(member, intset.data);
        return 0;
      }
      if encoding == ListpackEnc {
        r := RemoveStr(member);
        return;
      }
      r := if member in table then 1 else 0;
      table := table - {member};
    }

    method RemoveInt(v: Int64) returns (r: int)
      requires Valid() && encoding == IntsetEnc
      modifies intset
      ensures Valid() && Members() == old(Members()) - {Format(v)}
      ensures r == if Format(v) in old(Members()) then 1 else 0
    {
      ghost var data := intset.data;
      FormatsHas(data, v);
      var removed := intset.Remove(v);
      FormatsRemove(data, intset.data, v);
      return if removed then 1 else 0;
    }

    /** Rebuilds the listpack without the member. */
    method RemoveStr(member: Bytes) returns (r: int)
      requires Valid() && encoding == ListpackEnc
      modifies `listpack
      ensures Valid() && fresh({listpack} - {old(listpack)})
      ensures Members() == old(Members()) - {member}
      ensures r == if member in old(Members()) then 1 else 0
    {
      var es := listpack.Elements();
      var newLp := new Listpack();
      var removed := false;
      for i := 0 to |es|
        invariant newLp.Valid() && Distinct(newLp.elems) && fresh(newLp)
        invariant Strs(newLp.elems) == Strs(es[..i]) - {member}
        invariant removed <==> member in Strs(es[..i])
        modifies newLp
      {
        StrsMore(es, i);
        if es[i] == Str(member) {
          removed := true;
        } else {
          StrsAppend(newLp.elems, es[i].s);
          newLp.Append(es[i]);
        }
      }
      assert es[..|es|] == es;
      if !removed {
        return 0;
      }
      listpack := newLp;
      return 1;
    }

    method Len() returns (n: int)
      requires Valid()
      ensures n == |Members()|
    {
      if encoding == IntsetEnc {
        FormatsSize(intset.data);
        return |intset.data|;
      }
      if encoding == ListpackEnc {
        StrsSize(listpack.elems);
        return listpack.num;
      }
      return |table|;
    }

    method ConvertToListpack()
      requires Valid() && encoding == IntsetEnc
      modifies `listpack, `encoding
      ensures Valid() && encoding == ListpackEnc && fresh(listpack) && Members() == old(Members())
    {
      var newLp := new Listpack();
      for i := 0 to |intset.data|
        invariant newLp.Valid() && Distinct(newLp.elems) && fresh(newLp)
        invariant Strs(newLp.elems) == Formats(intset.data[..i])
        modifies newLp
      {
        var v := intset.data[i];
        assert v in intset.data;
        FormatsMore(intset.data, i);
        StrsAppend(newLp.elems, Format(v));
        FormatFits(v);
        var text := FormatInt64(v);
        newLp.Append(Str(text));
      }
      assert intset.data[..|intset.data|] == intset.data;
      listpack, encoding := newLp, ListpackEnc;
    }

    method ConvertToHashtable()
      requires Valid() && encoding == ListpackEnc
      modifies `table, `encoding
      ensures Valid() && encoding == HashtableEnc && Members() == old(Members())
    {
      var es := listpack.Elements();
      var newTable: set<Bytes> := {};
      for i := 0 to |es|
        invariant newTable == Strs(es[..i])
      {
        StrsMore(es, i);
        newTable := newTable + {es[i].s};
      }
      assert es[..|es|] == es;
      table, encoding := newTable, HashtableEnc;
    }
  }

  // ----- Facts about one step -----

  lemma NotAnInt(member: Bytes, data: seq<int>)
    requires forall w: Int64 :: w != MIN_INT64 ==> member != Format(w)
    requires forall v :: v in data ==> MIN_INT64 < v <= MAX_INT64
    ensures member !in Formats(data)
  {
  }

  lemma FormatsAdd(data: seq<int>, data': seq<int>, v: int)
    requires forall x :: x in data' <==> x in data || x == v
    ensures Formats(data') == Formats(data) + {Format(v)}
  {
  }

  lemma FormatsRemove(data: seq<int>, data': seq<int>, v: int)
    requires forall x :: x in data' <==> x in data && x != v
    ensures Formats(data') == Formats(data) - {Format(v)}
  {
    forall x | x in data'
      ensures Format(x) != Format(v)
    {
      if Format(x) == Format(v) {
        FormatInjective(x, v);
      }
    }
  }

  lemma FormatsMore(data: seq<int>, i: nat)
    requires Ascending(data) && i < |data|
    ensures Formats(data[..i + 1]) == Formats(data[..i]) + {Format(data[i])}
    ensures Format(data[i]) !in Formats(data[..i])
  {
    FormatsHas(data[..i], data[i]);
    FormatsAdd(data[..i], data[..i + 1], data[i]);
  }

  lemma StrsMore(es: seq<Elem>, i: nat)
    requires i < |es| && Distinct(es)
    ensures Strs(es[..i + 1]) == Strs(es[..i]) + {es[i].s}
    ensures es[i].s !in Strs(es[..i])
  {
    assert es[..i + 1] == es[..i] + [Str(es[i].s)];
    StrsAppend(es[..i], es[i].s);
  }

  /** A decimal is far shorter than a string can be. */
  lemma FormatFits(v: int)
    requires MIN_INT64 <= v <= MAX_INT64
    ensures |Format(v)| <= MAX_STR
  {
    DigitsShort((if v < 0 then -v else v) / 10);
  }

  lemma {:induction false} DigitsShort(n: nat)
    ensures |Digits(n)| <= n
  {
    if n > 0 {
      DigitsShort(n / 10);
    }
  }
}
