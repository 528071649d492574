/** Multi-key locking of the sharded dictionary. A batch locks the shards of
    its keys in ascending order, for writing where it writes; any number of
    goroutines doing so can never deadlock. */
module ShardLocks {
  import opened Seqs
  import opened SortedList

  type Key = string

  /** The hash that sends a key to its shard; any function will do. */
  type Spread = Key -> nat

  function Shards(spread: Spread, keys: seq<Key>): set<nat>
  {
    set k | k in keys :: spread(k)
  }

  // ----- Lock plans -----

  datatype Mode = Read | Write

  datatype Lock = Lock(shard: nat, mode: Mode)

  datatype Batch = Batch(writeKeys: seq<Key>, readKeys: seq<Key>)

  function MaxOf(s: set<nat>): (m: nat)
    requires s != {}
    ensures m in s && forall x :: x in s ==> x <= m
  {
    MaxExists(s);
    var m :| m in s && forall x :: x in s ==> x <= m;
    m
  }

  /** The elements of a set in ascending order. */
  function Sorted(s: set<nat>): seq<nat>
  {
    if s == {} then [] else Sorted(s - {MaxOf(s)}) + [MaxOf(s)]
  }

  lemma {:induction false} SortedIsAscending(s: set<nat>)
    ensures Ascending(Sorted(s))
    ensures forall x :: x in Sorted(s) <==> x in s
  {
    if s != {} {
      var front := Sorted(s - {MaxOf(s)});
      SortedIsAscending(s - {MaxOf(s)});
      forall i | 0 <= i < |front|
        ensures front[i] < MaxOf(s)
      {
        assert front[i] in front;
      }
    }
  }

  lemma MaxExists(s: set<nat>)
    requires s != {}
    ensures exists m :: m in s && forall x :: x in s ==> x <= m
  {
    var m :| m in s;
    if s != {m} {
      MaxExists(s - {m});
      var m' :| m' in s - {m} && forall x :: x in s - {m} ==> x <= m';
      var top := if m <= m' then m' else m;
      forall x | x in s
        ensures x <= top
      {
        assert x == m || x in s - {m};
      }
    }
  }

  function ModeOf(spread: Spread, b: Batch, shard: nat): Mode
  {
    if shard in Shards(spread, b.writeKeys) then Write else Read
  }

  function WithModes(spread: Spread, b: Batch, shards: seq<nat>): (p: seq<Lock>)
    ensures |p| == |shards|
    ensures forall i :: 0 <= i < |p| ==> p[i] == Lock(shards[i], ModeOf(spread, b, shards[i]))
  {
    if shards == [] then []
    else
      var last := shards[|shards| - 1];
      WithModes(spread, b, shards[..|shards| - 1]) + [Lock(last, ModeOf(spread, b, last))]
  }

  /** The locks of a batch in the order it takes them. */
  function Plan(spread: Spread, b: Batch): seq<Lock>
  {
    WithModes(spread, b, Sorted(Shards(spread, b.writeKeys + b.readKeys)))
  }

  /** The distinct shards of the keys, ascending, or descending if `reverse`. */
  method ToLockIndices(spread: Spread, keys: seq<Key>, reverse: bool) returns (indices: seq<nat>)
    ensures indices == if reverse then Reversed(Sorted(Shards(spread, keys))) else Sorted(Shards(spread, keys))
  {
    var indexSet: set<nat> := {};
    for i := 0 to |keys|
      invariant indexSet == Shards(spread, keys[..i])
    {
      indexSet := indexSet + {spread(keys[i])};
      assert keys[..i + 1] == keys[..i] + [keys[i]];
    }
    assert keys[..|keys|] == keys;
    indices := SortIndices(indexSet);
    if reverse {
      indices := Reversed(indices);
    }
  }

  /** Sort the shards of a set by repeated selection of the largest. */
  method SortIndices(s: set<nat>) returns (indices: seq<nat>)
    ensures indices == Sorted(s)
  {
    indices := [];
    var rest := s;
    while rest != {}
      invariant Sorted(s) == Sorted(rest) + indices
      decreases rest
    {
      var m := MaxOf(rest);
      indices := [m] + indices;
      rest := rest - {m};
    }
  }

  /** The lock operations RWLocks performs, in order. */
  method RWLocks(spread: Spread, b: Batch) returns (taken: seq<Lock>)
    ensures taken == Plan(spread, b)
  {
    var indices := ToLockIndices(spread, b.writeKeys + b.readKeys, false);
    var writeSet := WriteSet(spread, b);
    taken := InModes(spread, b, indices, writeSet);
  }

  /** One operation per shard, for writing where the batch writes. */
  method InModes(ghost spread: Spread, ghost b: Batch, indices: seq<nat>, writeSet: set<nat>) returns (ops: seq<Lock>)
    requires writeSet == Shards(spread, b.writeKeys)
    ensures ops == WithModes(spread, b, indices)
  {
    ops := [];
    for i := 0 to |indices|
      invariant ops == WithModes(spread, b, indices[..i])
    {
      assert indices[..i + 1][..i] == indices[..i];
      ops := ops + [Lock(indices[i], if indices[i] in writeSet then Write else Read)];
    }
    assert indices[..|indices|] == indices;
  }

  /** The unlock operations RWUnLocks performs: the same locks in the same
      modes, last taken first. */
  method RWUnLocks(spread: Spread, b: Batch) returns (released: seq<Lock>)
    ensures released == Reversed(Plan(spread, b))
  {
    var indices := ToLockIndices(spread, b.writeKeys + b.readKeys, true);
    var writeSet := WriteSet(spread, b);
    released := InModes(spread, b, indices, writeSet);
    ModesOfReversed(spread, b, Sorted(Shards(spread, b.writeKeys + b.readKeys)));
  }

  lemma ModesOfReversed(spread: Spread, b: Batch, shards: seq<nat>)
    ensures WithModes(spread, b, Reversed(shards)) == Reversed(WithModes(spread, b, shards))
  {
    MapReversed((s: nat) => Lock(s, ModeOf(spread, b, s)), shards, WithModes(spread, b, shards), WithModes(spread, b, Reversed(shards)));
  }

  lemma MapReversed<A, B>(f: A -> B, a: seq<A>, image: seq<B>, reversedImage: seq<B>)
    requires |image| == |a| && forall i :: 0 <= i < |a| ==> image[i] == f(a[i])
    requires |reversedImage| == |a| && forall i :: 0 <= i < |a| ==> reversedImage[i] == f(Reversed(a)[i])
    ensures reversedImage == Reversed(image)
  {
    forall i | 0 <= i < |a|
      ensures reversedImage[i] == Reversed(image)[i]
    {
      assert Reversed(a)[i] == a[|a| - 1 - i];
    }
  }

  method WriteSet(spread: Spread, b: Batch) returns (writeSet: set<nat>)
    ensures writeSet == Shards(spread, b.writeKeys)
  {
    writeSet := {};
    for i := 0 to |b.writeKeys|
      invariant writeSet == Shards(spread, b.writeKeys[..i])
    {
      writeSet := writeSet + {spread(b.writeKeys[i])};
      assert b.writeKeys[..i + 1] == b.writeKeys[..i] + [b.writeKeys[i]];
    }
    assert b.writeKeys[..|b.writeKeys|] == b.writeKeys;
  }
}
