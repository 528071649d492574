/** Cursor scans: over the shards of a dictionary, and over the sorted members
    of a set or fields of a hash. Calling a scan from cursor 0 until it returns
    0 visits every matching key exactly once. */
module Scan {
  import opened Decimal
  import opened Seqs

  /** The keys the pattern matches, in order. */
  function Hits(keys: seq<Bytes>, hit: Bytes -> bool): seq<Bytes>
  {
    if keys == [] then []
    else
      var n := |keys| - 1;
      if hit(keys[n]) then Hits(keys[..n], hit) + [keys[n]] else Hits(keys[..n], hit)
  }

  lemma {:induction false} HitsConcat(a: seq<Bytes>, b: seq<Bytes>, hit: Bytes -> bool)
    ensures Hits(a + b, hit) == Hits(a, hit) + Hits(b, hit)
    decreases |b|
  {
    if b == [] {
      assert a + b == a;
    } else {
      var n := |b| - 1;
      assert (a + b)[..|a| + n] == a + b[..n];
      HitsConcat(a, b[..n], hit);
    }
  }

  /** Exactly the matching keys, each as often as it occurs. */
  lemma {:induction false} HitsMeaning(keys: seq<Bytes>, hit: Bytes -> bool)
    ensures forall k :: k in Hits(keys, hit) <==> k in keys && hit(k)
    ensures NoDup(keys) ==> NoDup(Hits(keys, hit))
  {
    if keys != [] {
      var n := |keys| - 1;
      HitsMeaning(keys[..n], hit);
      assert keys == keys[..n] + [keys[n]];
      assert NoDup(keys) ==> keys[n] !in keys[..n];
    }
  }

  lemma {:induction false} NoHits(keys: seq<Bytes>, hit: Bytes -> bool)
    ensures Hits(keys, hit) == [] <==> forall k :: k in keys ==> !hit(k)
  {
    if keys != [] {
      var n := |keys| - 1;
      NoHits(keys[..n], hit);
      assert keys == keys[..n] + [keys[n]];
    }
  }

  // ----- Sets and hashes: a cursor into the sorted list -----

  /** Where a call that starts at i stops when it may still return `room` keys. */
  function PageEnd(all: seq<Bytes>, i: nat, room: int, hit: Bytes -> bool): (r: nat)
    ensures r >= i && (i < |all| ==> r <= |all|)
    decreases |all| - i
  {
    if i >= |all| || room <= 0 then i else PageEnd(all, i + 1, if hit(all[i]) then room - 1 else room, hit)
  }

  function NextCursor(all: seq<Bytes>, end: nat): nat
  {
    if end >= |all| then 0 else end
  }

  /** A cursor below 0 indexes out of range, unless there is nothing to index
      or nothing may be returned; in the second case it comes back as it was. */
  predicate ScanCrashes(all: seq<Bytes>, cursor: int, count: int)
  {
    cursor < 0 && all != [] && count >= 1
  }

  /** One call of a set's scan. */
  method SetScan(all: seq<Bytes>, cursor: int, count: int, hit: Bytes -> bool)
    returns (result: seq<Bytes>, next: int, crashed: bool)
    ensures crashed <==> ScanCrashes(all, cursor, count)
    ensures cursor < 0 && !crashed ==> result == [] && next == if all == [] then 0 else cursor
    ensures cursor >= 0 ==>
              var end := PageEnd(all, cursor, count, hit);
              next == NextCursor(all, end) && result == if cursor < |all| then Hits(all[cursor..end], hit) else []
  {
    result, crashed := [], false;
    if all == [] {
      return [], 0, false;
    }
    var i := cursor;
    while i < |all| && |result| < count
      invariant cursor <= i && (cursor < |all| ==> i <= |all|)
      invariant cursor < 0 || cursor >= |all| ==> i == cursor && result == []
      invariant 0 <= cursor < |all| ==> result == Hits(all[cursor..i], hit)
      invariant cursor >= 0 ==> PageEnd(all, i, count - |result|, hit) == PageEnd(all, cursor, count, hit)
      decreases |all| - i
    {
      if i < 0 {
        return result, 0, true;
      }
      assert all[cursor..i + 1][..i - cursor] == all[cursor..i];
      if hit(all[i]) {
        result := result + [all[i]];
      }
      i := i + 1;
    }
    next := if i >= |all| then 0 else i;
  }

  /** Each key followed by its value. */
  function Pairs(keys: seq<Bytes>, vals: map<Bytes, Bytes>): seq<Bytes>
  {
    if keys == [] then []
    else
      var n := |keys| - 1;
      Pairs(keys[..n], vals) + [keys[n], if keys[n] in vals then vals[keys[n]] else []]
  }

  /** One call of a hash's scan: fields and values in turn, 2 * count of them. */
  method HashScan(all: seq<Bytes>, vals: map<Bytes, Bytes>, cursor: int, count: int, hit: Bytes -> bool)
    returns (result: seq<Bytes>, next: int, crashed: bool)
    requires forall k :: k in all ==> k in vals
    ensures crashed <==> ScanCrashes(all, cursor, count)
    ensures cursor < 0 && !crashed ==> result == [] && next == if all == [] then 0 else cursor
    ensures cursor >= 0 ==>
              var end := PageEnd(all, cursor, count, hit);
              && next == NextCursor(all, end)
              && result == Pairs(if cursor < |all| then Hits(all[cursor..end], hit) else [], vals)
  {
    result, crashed := [], false;
    if all == [] {
      return [], 0, false;
    }
    ghost var keys: seq<Bytes> := [];
    var i := cursor;
    while i < |all| && |result| < count * 2
      invariant cursor <= i && (cursor < |all| ==> i <= |all|)
      invariant cursor < 0 || cursor >= |all| ==> i == cursor && keys == []
      invariant 0 <= cursor < |all| ==> keys == Hits(all[cursor..i], hit)
      invariant result == Pairs(keys, vals) && |result| == 2 * |keys|
      invariant cursor >= 0 ==> PageEnd(all, i, count - |keys|, hit) == PageEnd(all, cursor, count, hit)
      decreases |all| - i
    {
      if i < 0 {
        return result, 0, true;
      }
      assert all[cursor..i + 1][..i - cursor] == all[cursor..i];
      assert all[i] in all;
      if hit(all[i]) {
        assert (keys + [all[i]])[..|keys|] == keys;
        result, keys := result + [all[i], vals[all[i]]], keys + [all[i]];
      }
      i := i + 1;
    }
    next := if i >= |all| then 0 else i;
  }

  lemma PageMoves(all: seq<Bytes>, cursor: nat, count: int, hit: Bytes -> bool)
    requires count >= 1 && cursor < |all|
    ensures PageEnd(all, cursor, count, hit) > cursor
  {
  }

  /** What a scan has found when its cursor is `cursor`: everything before it, and
      with cursor 0 everything, unless a count below 1 ended it at once. */
  ghost predicate FoundUpTo(all: seq<Bytes>, cursor: nat, count: int, hit: Bytes -> bool, found: seq<Bytes>)
  {
    if count < 1 then cursor == 0 && found == []
    else cursor <= |all| && found == if cursor == 0 then Hits(all, hit) else Hits(all[..cursor], hit)
  }

  /** One more call, from cursor 0 or from where the last one stopped. */
  lemma FoundMore(all: seq<Bytes>, cursor: nat, count: int, hit: Bytes -> bool)
    requires cursor < |all| || cursor == 0
    ensures var end := PageEnd(all, cursor, count, hit);
            var page := if cursor < |all| then Hits(all[cursor..end], hit) else [];
            && (count >= 1 ==> FoundUpTo(all, NextCursor(all, end), count, hit, Hits(all[..cursor], hit) + page))
            && (count >= 1 ==> NextCursor(all, end) == 0 || NextCursor(all, end) > cursor)
            && (count < 1 && cursor == 0 ==> NextCursor(all, end) == 0 && page == [])
  {
    var end := PageEnd(all, cursor, count, hit);
    if count >= 1 && cursor < |all| {
      PageMoves(all, cursor, count, hit);
      assert all[..end] == all[..cursor] + all[cursor..end] && (end == |all| ==> all[..end] == all);
      HitsConcat(all[..cursor], all[cursor..end], hit);
    } else if cursor == 0 {
      assert all[..0] == [] && (all != [] ==> all[0..end] == []);
    }
  }

  /** Scanning a set until the cursor is 0 finds exactly the matching members, in
      order; with a count below 1 it finds nothing. */
  method ScanSet(all: seq<Bytes>, count: int, hit: Bytes -> bool) returns (found: seq<Bytes>)
    ensures found == if count >= 1 then Hits(all, hit) else []
  {
    var cursor, crashed;
    FoundMore(all, 0, count, hit);
    assert Hits(all[..0], hit) == [];
    found, cursor, crashed := SetScan(all, 0, count, hit);
    assert [] + found == found;
    while cursor != 0
      invariant FoundUpTo(all, cursor, count, hit, found)
      invariant cursor != 0 ==> cursor < |all|
      decreases if cursor == 0 then 0 else |all| - cursor
    {
      var page;
      FoundMore(all, cursor, count, hit);
      page, cursor, crashed := SetScan(all, cursor, count, hit);
      found := found + page;
    }
  }

  /** The same for the fields of a hash, each followed by its value. */
  method ScanHash(all: seq<Bytes>, vals: map<Bytes, Bytes>, count: int, hit: Bytes -> bool) returns (found: seq<Bytes>)
    requires forall k :: k in all ==> k in vals
    ensures found == if count >= 1 then Pairs(Hits(all, hit), vals) else []
  {
    var cursor, crashed;
    FoundMore(all, 0, count, hit);
    assert Hits(all[..0], hit) == [];
    ghost var keys := if |all| > 0 then Hits(all[0..PageEnd(all, 0, count, hit)], hit) else [];
    found, cursor, crashed := HashScan(all, vals, 0, count, hit);
    assert [] + keys == keys;
    while cursor != 0
      invariant FoundUpTo(all, cursor, count, hit, keys) && found == Pairs(keys, vals)
      invariant cursor != 0 ==> cursor < |all|
      decreases if cursor == 0 then 0 else |all| - cursor
    {
      var page;
      FoundMore(all, cursor, count, hit);
      ghost var more := Hits(all[cursor..PageEnd(all, cursor, count, hit)], hit);
      page, cursor, crashed := HashScan(all, vals, cursor, count, hit);
      PairsConcat(keys, more, vals);
      found, keys := found + page, keys + more;
    }
  }

  lemma {:induction false} PairsConcat(a: seq<Bytes>, b: seq<Bytes>, vals: map<Bytes, Bytes>)
    ensures Pairs(a + b, vals) == Pairs(a, vals) + Pairs(b, vals)
    decreases |b|
  {
    if b == [] {
      assert a + b == a;
    } else {
      var n := |b| - 1;
      assert (a + b)[..|a| + n] == a + b[..n];
      PairsConcat(a, b[..n], vals);
    }
  }

  /** A scan is complete exactly if the count is at least 1 or nothing matches. */
  lemma ScanCompleteIff(all: seq<Bytes>, count: int, hit: Bytes -> bool)
    ensures (if count >= 1 then Hits(all, hit) else []) == Hits(all, hit) <==> count >= 1 || forall k :: k in all ==> !hit(k)
  {
    NoHits(all, hit);
  }

  // ----- Dictionaries: a cursor into the shards -----

  /** The keys of all shards from i on. */
  function KeysFrom(table: seq<seq<Bytes>>, i: nat): seq<Bytes>
    requires i <= |table|
    decreases |table| - i
  {
    if i == |table| then [] else table[i] + KeysFrom(table, i + 1)
  }

  /** Where a call that began at cursor stops, with `got` keys found so far: at
      the first further shard that could exceed the count. */
  function ShardEnd(table: seq<seq<Bytes>>, cursor: nat, i: nat, got: nat, count: int, hit: Bytes -> bool): (r: nat)
    requires cursor <= i <= |table|
    ensures i <= r <= |table| && (i == cursor < |table| ==> r > cursor)
    decreases |table| - i
  {
    if i == |table| || (got + |table[i]| > count && i > cursor) then i
    else ShardEnd(table, cursor, i + 1, got + |Hits(table[i], hit)|, count, hit)
  }

  /** The keys of the shards in [i, j). */
  function KeysBetween(table: seq<seq<Bytes>>, i: nat, j: nat): seq<Bytes>
    requires i <= j <= |table|
  {
    if i == j then [] else KeysBetween(table, i, j - 1) + table[j - 1]
  }

  /** One call of the dictionary's scan; `all` is the "*" pattern. A cursor below
      0 indexes out of range. */
  method DictScan(table: seq<seq<Bytes>>, cursor: int, count: int, all: bool, hit: Bytes -> bool)
    returns (result: seq<Bytes>, next: nat, crashed: bool)
    requires all ==> forall k: Bytes :: hit(k)
    ensures var whole := all && count >= |KeysFrom(table, 0)|;
            && (crashed <==> !whole && cursor < 0)
            && (whole ==> result == KeysFrom(table, 0) && next == 0)
            && (!whole && cursor > |table| ==> result == [] && next == 0)
            && (!whole && 0 <= cursor <= |table| ==>
                  var end := ShardEnd(table, cursor, cursor, 0, count, hit);
                  result == Hits(KeysBetween(table, cursor, end), hit) && next == if end == |table| then 0 else end)
  {
    crashed := false;
    var keys := Keys(table);
    if all && count >= |keys| {
      return keys, 0, false;
    }
    if cursor < 0 {
      return [], 0, true;
    }
    result := [];
    var i := cursor;
    while i < |table|
      invariant cursor <= i && (cursor <= |table| ==> i <= |table|) && (cursor > |table| ==> result == [])
      invariant cursor <= |table| ==>
                  && result == Hits(KeysBetween(table, cursor, i), hit)
                  && ShardEnd(table, cursor, i, |result|, count, hit) == ShardEnd(table, cursor, cursor, 0, count, hit)
    {
      if |result| + |table[i]| > count && i > cursor {
        return result, i, false;
      }
      HitsConcat(KeysBetween(table, cursor, i), table[i], hit);
      var found := Matching(table[i], hit);
      result := result + found;
      i := i + 1;
    }
    next := 0;
  }

  method Keys(table: seq<seq<Bytes>>) returns (keys: seq<Bytes>)
    ensures keys == KeysFrom(table, 0)
  {
    keys := [];
    for i := 0 to |table|
      invariant keys + KeysFrom(table, i) == KeysFrom(table, 0)
    {
      assert keys + (table[i] + KeysFrom(table, i + 1)) == keys + table[i] + KeysFrom(table, i + 1);
      keys := keys + table[i];
    }
    assert keys + [] == keys;
  }

  method Matching(keys: seq<Bytes>, hit: Bytes -> bool) returns (found: seq<Bytes>)
    ensures found == Hits(keys, hit)
  {
    found := [];
    for i := 0 to |keys|
      invariant found == Hits(keys[..i], hit)
    {
      assert keys[..i + 1][..i] == keys[..i];
      if hit(keys[i]) {
        found := found + [keys[i]];
      }
    }
    assert keys[..|keys|] == keys;
  }

  lemma {:induction false} KeysSplit(table: seq<seq<Bytes>>, i: nat, j: nat)
    requires i <= j <= |table|
    ensures KeysFrom(table, i) == KeysBetween(table, i, j) + KeysFrom(table, j)
    decreases j
  {
    if i < j {
      KeysSplit(table, i, j - 1);
      assert KeysBetween(table, i, j - 1) + (table[j - 1] + KeysFrom(table, j)) == KeysBetween(table, i, j) + KeysFrom(table, j);
    }
  }

  lemma {:induction false} HitsAll(keys: seq<Bytes>, hit: Bytes -> bool)
    requires forall k :: k in keys ==> hit(k)
    ensures Hits(keys, hit) == keys
  {
    if keys != [] {
      HitsAll(keys[..|keys| - 1], hit);
    }
  }

  /** The keys of the shards before and behind a cursor. */
  lemma ShardsMore(table: seq<seq<Bytes>>, i: nat, j: nat, hit: Bytes -> bool)
    requires i <= j <= |table|
    ensures Hits(KeysBetween(table, 0, i), hit) + Hits(KeysBetween(table, i, j), hit) == Hits(KeysBetween(table, 0, j), hit)
    ensures j == |table| ==> KeysBetween(table, 0, j) == KeysFrom(table, 0)
  {
    BetweenSplit(table, 0, i, j);
    HitsConcat(KeysBetween(table, 0, i), KeysBetween(table, i, j), hit);
    KeysSplit(table, 0, j);
    assert KeysBetween(table, 0, j) + [] == KeysBetween(table, 0, j);
  }

  lemma {:induction false} BetweenSplit(table: seq<seq<Bytes>>, h: nat, i: nat, j: nat)
    requires h <= i <= j <= |table|
    ensures KeysBetween(table, h, j) == KeysBetween(table, h, i) + KeysBetween(table, i, j)
    decreases j
  {
    if i < j {
      BetweenSplit(table, h, i, j - 1);
      assert KeysBetween(table, h, i) + (KeysBetween(table, i, j - 1) + table[j - 1]) ==
             KeysBetween(table, h, i) + KeysBetween(table, i, j - 1) + table[j - 1];
    } else {
      assert KeysBetween(table, h, i) + [] == KeysBetween(table, h, i);
    }
  }

  /** Whatever the count, scanning a dictionary until the cursor is 0 finds
      exactly the matching keys of all shards, each as often as it is there. */
  method ScanDict(table: seq<seq<Bytes>>, count: int, all: bool, hit: Bytes -> bool) returns (found: seq<Bytes>)
    requires all ==> forall k: Bytes :: hit(k)
    ensures found == Hits(KeysFrom(table, 0), hit)
  {
    if all {
      HitsAll(KeysFrom(table, 0), hit);
    }
    var cursor, crashed;
    ShardsMore(table, 0, ShardEnd(table, 0, 0, 0, count, hit), hit);
    found, cursor, crashed := DictScan(table, 0, count, all, hit);
    while cursor != 0
      invariant cursor == 0 ==> found == Hits(KeysFrom(table, 0), hit)
      invariant cursor != 0 ==> cursor < |table| && found == Hits(KeysBetween(table, 0, cursor), hit)
      invariant cursor != 0 ==> !(all && count >= |KeysFrom(table, 0)|)
      decreases if cursor == 0 then 0 else |table| - cursor
    {
      var page;
      ShardsMore(table, cursor, ShardEnd(table, cursor, cursor, 0, count, hit), hit);
      page, cursor, crashed := DictScan(table, cursor, count, all, hit);
      found := found + page;
    }
  }
}
